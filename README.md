# graphene-cli core, modelled in Dafny

graphene-cli is an interactive console for PKCS#11 devices. This project models
its two pieces of real logic:

- the helpers of `src/helper.ts`:
  - the object-handle codec `Handle.toString` / `Handle.toBuffer` and its helpers
    `prepare_hex`, `revert_buffer` and `buffer_to_hex`;
  - the 32-bit integer codec `int32toBuffer` / `get32IntFromBuffer`;
  - the RSA key-template builder `createTemplate`, with the attribute assignment
    of `importRSAPublicKey` / `importRSAPrivateKey`;
  - the formatting helpers `pad`, `lpad`, `rpad`, `tpad`, `print_bool` and
    `print_description`;
- the root command `Application` of `src/application.ts`: its children, `onRun`,
  and the `run` loop that splits a batch payload into a queue of lines, drains the
  queue before prompting, stops at `close`, and on a failure either exits the
  process or prints the error and continues.

Modules, one per component:

| file | module | models |
|---|---|---|
| wrappers.dfy | `Wrappers` | `Option` (for `NaN`) and `Result` (for a thrown error) |
| bytes.dfy | `Bytes` | buffer bytes, zero-filled buffers, reversal, big-endian values |
| text.dfy | `Text` | `Array(n).fill(c).join("")`, `split` with a string separator, `join` |
| padding.dfy | `Padding` | `pad`, `lpad`, `rpad`, `tpad`, `print_bool`, `print_description` |
| handle.dfy | `HandleCodec` | `Handle.toString`, `Handle.toBuffer`, `prepare_hex`, `revert_buffer`, `buffer_to_hex` |
| int32.dfy | `IntCodec` | `int32toBuffer`, `get32IntFromBuffer` |
| template.dfy | `KeyTemplate` | `createTemplate` and the templates the two import functions build |
| application.dfy | `App` | class `Application`: constructor, `run`, `onRun` |

The loops of the source stay loops: `Handle.toString` fills an 8-byte array,
`revert_buffer` writes a zeroed 8-byte array back to front, `prepare_hex` prepends
`'0'` in a `while` loop, `int32toBuffer` sets four array slots,
`get32IntFromBuffer` sums in an accumulator loop, and `Application.Run` is the
`while (repeat)` loop over a queue it shifts. Each method is proved against a
specification function (`HandleString`, `HandleBuffer`, `Padded16`, `Reverted`,
`BigEndian`, `Drive`), and the properties are lemmas about those functions.

The dispatcher of the REPL (`super.run`, `getCommand`, `showHelp`, defined in a
base class that is not part of this model) and the prompt are inputs: `prompts` is
the sequence of lines the prompt would answer, and `outcomes` the sequence of
results of the successive dispatches (`Ran`, `RanClose`, or `Threw(message)`).
A run records one `Turn` per dispatched line. A `Threw` turn that does not end
the run stands for the printed error and the help of `getCommand` of that line.

Where the code differs from its own comments, the model follows the code:

- `Handle.toString` copies the handle into the low end of an 8-byte buffer: the
  handle's first byte is its least significant one. So `Handle.toBuffer("1")` is
  `[1, 0, 0, 0, 0, 0, 0, 0]`, not `[0, 0, 0, 0, 0, 0, 0, 1]`
  (`HandleBufferOne`).
- `Handle.toString` never throws: bytes past index 7 of a longer handle are
  dropped, because Node ignores writes outside a buffer (`Fit8`).
- `prepare_hex` pads to 16 digits, although its comment says it only fixes an
  odd length (`Padded16`).
- `Handle.toBuffer` decodes with Node's hex decoder, which drops a final lone
  digit. A string of 17 hex digits therefore decodes to 8 bytes and does not
  throw; the size error comes from 18 digits on (`HandleBufferSize`).
- The fatal check in `run` reads the LAST line still queued, not the next one
  (`FatalLastLine`, `FatalChecksLastLine`). Its `args.length >= 2` test never
  looks at `args[2]`, so it does not tell batch mode from the interactive prompt.
- The comment on `pad`'s `end` parameter is inverted: `end == true` puts the
  padding before the text (`Pad`).
- `print_bool` prints a lowercase `x`, where its comment says `X`.
- The short-buffer path of `get32IntFromBuffer` weighs the bytes by
  `16^0, 16^2, 16^4` from the last one. That is exactly their big-endian value
  (`Get32IntFromBuffer`, `Pow16Even`).

## Model

| member | source | states |
|---|---|---|
| Padding.Pad | src/helper.ts:17-31 | the result has length max(text length, size); with `end` it is padding characters followed by the text, without `end` the text followed by padding characters |
| Padding.LPad | src/helper.ts:39-41 | `lpad` is padding characters then the text, exactly `size` long when the text is shorter, and the text itself otherwise |
| Padding.RPad | src/helper.ts:49-51 | `rpad` is the text then padding characters, exactly `size` long when the text is shorter, and the text itself otherwise |
| Padding.TPad | src/helper.ts:53-56 | `tpad` puts exactly `size` padding characters before the text, whatever its length |
| Padding.PrintBool | src/helper.ts:148-150 | one character, `x` exactly for a non-zero number and a space otherwise |
| Padding.PrintDescription | src/helper.ts:152-159 | a single string description is returned unchanged |
| Padding.PrintDescriptionLines | src/helper.ts:152-159 | read back line by line, the output of a list is its first item, then each later item indented by exactly `padSize` pad characters, then an empty line after the final newline when there are several items |
| Text.JoinSplit | src/application.ts:33 | joining the pieces of a split with the same separator gives back the split string |
| Text.SplitPiecesFree | src/application.ts:33 | `split` cuts at every occurrence of the separator: no piece contains it |
| Text.SplitJoin | src/application.ts:33 | splitting the join of pieces that do not contain the separator's first character gives back those pieces |
| HandleCodec.Padded16 | src/helper.ts:108-114 | the padded string is the input preceded by `'0'` characters, 16 long when the input is shorter and the input itself otherwise |
| HandleCodec.PrepareHex | src/helper.ts:108-114 | the `while` loop returns exactly `Padded16(hex)` |
| HandleCodec.Reverted | src/helper.ts:122-132 | more than 8 bytes give `WrongBufferSize`; otherwise 8 bytes holding the input reversed in positions 0..n-1 and zeros in n..7 |
| HandleCodec.RevertBuffer | src/helper.ts:122-132 | the back-to-front loop over a zeroed 8-byte array returns exactly `Reverted(buffer)` |
| HandleCodec.StripZeros | src/helper.ts:141 | the result does not start with `'0'` and the input is the result preceded by `'0'` characters |
| HandleCodec.BufferToHex | src/helper.ts:140-142 | lowercase hex digits not starting with `'0'`, which are the buffer's full hex with its leading zeros removed |
| HandleCodec.DecodeToHex | src/helper.ts:98 | Node's hex decoder gives back the bytes of any hex encoding |
| HandleCodec.Fit8 | src/helper.ts:82-86 | the buffer `Handle.toString` fills: 8 bytes, the handle's bytes where it has them and zeros after them |
| HandleCodec.ToString | src/helper.ts:81-88 | the copy loop, reversal and hex conversion return exactly `HandleString(buffer)`, with no error path |
| HandleCodec.ToBuffer | src/helper.ts:97-99 | padding, decoding and reversal return exactly `HandleBuffer(hex)` |
| HandleCodec.HandleRoundTrip | src/helper.ts:81-99 | `toBuffer(toString(b))` succeeds with the handle's first 8 bytes followed by zeros, for every buffer `b` |
| HandleCodec.HandleRoundTripShort | src/helper.ts:81-99 | for a handle of at most 8 bytes, `toBuffer(toString(b))` is `b` followed by zeros up to 8 bytes |
| HandleCodec.HandleStringForm | src/helper.ts:81-88 | a handle's string is at most 16 lowercase hex digits and never starts with `'0'` |
| HandleCodec.HandleStringEmpty | src/helper.ts:81-88 | a handle's string is empty exactly when its first 8 bytes are all zero |
| HandleCodec.HandleStringOne | src/helper.ts:81-88 | the handle `[0x01]` is written `"1"` |
| HandleCodec.HandleBufferOne | src/helper.ts:97-99 | `"1"` is the handle `[1, 0, 0, 0, 0, 0, 0, 0]` |
| HandleCodec.HandleBufferSize | src/helper.ts:97-99 | on success the result has 8 bytes; it fails with `WrongBufferSize` exactly when the padded string decodes to more than 8 bytes, never for at most 16 characters, and for hex digits exactly from 18 digits on |
| HandleCodec.HandleCanonical | src/helper.ts:81-99 | for at most 16 hex digits, `toString(toBuffer(h))` is `h` in lowercase without leading zeros |
| IntCodec.Int32ToBuffer | src/helper.ts:191-199 | a buffer argument comes back unchanged; a number gives 4 bytes whose big-endian value is the number modulo 2^32 |
| IntCodec.Get32IntFromBuffer | src/helper.ts:201-216 | `NaN` (None) exactly when no byte remains after `offset`; the big-endian value of the 4 bytes at `offset` when at least 4 remain; the big-endian value of the 1 to 3 remaining bytes otherwise |
| IntCodec.Pow16Even | src/helper.ts:209 | the weight `16^(2k)` of the short-buffer path is `256^k` |
| IntCodec.Int32RoundTrip | src/helper.ts:191-216 | for 0 <= v < 2^32, reading back at offset 0 what `int32toBuffer` wrote gives `v` |
| IntCodec.Int32Example | src/helper.ts:191-216 | `int32toBuffer(0x01020304)` is `[1, 2, 3, 4]`, which reads back as `0x01020304` |
| KeyTemplate.IndexOf | src/helper.ts:173-186 | `indexOf` is -1 exactly when the usage is absent, and otherwise the first position holding it |
| KeyTemplate.CreateTemplate | src/helper.ts:161-189 | both templates carry the given id and label, `token` true and key type RSA; the classes are private and public key, `private` is true and false; the private key has `derive` false and `extractable` as given; each of sign, decrypt, unwrap, verify, encrypt, wrap is set exactly when `sign`, `decrypt`, `unwrapKey`, `verify`, `encrypt`, `wrapKey` is among the usages; no RSA component is set |
| KeyTemplate.SignVerifyExample | src/helper.ts:173-186 | the usages `sign`, `verify` enable signing and verifying and no other usage |
| KeyTemplate.ImportRSAPublicKeyTemplate | src/helper.ts:226-233 | the public template of `createTemplate` with the modulus and a 4-byte exponent whose big-endian value is `e` modulo 2^32, and nothing else changed |
| KeyTemplate.ImportRSAPrivateKeyTemplate | src/helper.ts:235-248 | the private template of `createTemplate` with the eight RSA components set, the exponent as 4 bytes whose big-endian value is `e` modulo 2^32, and nothing else changed |
| App.BatchQueue | src/application.ts:32-34 | a missing or empty payload gives an empty queue; every queued line has at least one token |
| App.BatchQueueRoundTrip | src/application.ts:32-34 | the queue holds the payload's lines in order: joining each line's tokens with spaces and the lines with the backslash-`n` separator gives back the payload; no token holds a space and no line, written back, holds the separator |
| App.ExampleBatch | src/application.ts:32-34 | the payload `slot list\nobject list --slot 0\nexit` queues the lines `[slot, list]`, `[object, list, --slot, 0]`, `[exit]` |
| App.DriveOrder | src/application.ts:35-37 | turn `i` dispatches queued line `i` while the queue lasts and then the prompt's answer `i - queueLength`, with the `i`-th outcome; the prompt is read only once the queue is empty |
| App.DriveContinues | src/application.ts:36-53 | no turn but the last ran `close` or failed fatally: every other dispatch continues the loop |
| App.DriveEnds | src/application.ts:36-54 | the run returns exactly when its last turn ran `close`, exits with status 1 exactly when its last turn threw while the remaining queue was fatal, and otherwise ran out of input |
| App.FatalLastLine | src/application.ts:44-45 | a failure is fatal exactly when `args` has at least 2 entries, the failing line was not the last queued line, and the last queued line starts with `exit`; with an empty queue never |
| App.BatchFailureExits | src/application.ts:32-48 | run on the payload `slot list\nobject list --slot 0\nexit`, whose second line throws, exits with status 1 after two turns |
| App.FatalChecksLastLine | src/application.ts:44-48 | a failure followed by `exit` and another line is not fatal, a failure followed by another line and `exit` is |
| App.PromptedCloseReturns | src/application.ts:37-42 | a prompted `close` ends the run at once, returning |
| App.Application.constructor | src/application.ts:19-29 | the children are version, close, module, slot, object, hash, test, in this order, each with the application as parent |
| App.Application.Run | src/application.ts:31-55 | the loop's ending and turns are exactly `Drive` of the batch queue, the prompts and the outcomes, and it returns the application itself exactly when it ended at `close` |
| App.Application.OnRun | src/application.ts:57-60 | returns the application itself, after the help of this command |

## Left out

- `importRSAPublicKey` / `importRSAPrivateKey`: `NodeRSA.exportKey` and `Session.create(...).toType()` are external; the key components are inputs and the model stops at the template handed to the session.
- `createTemplate`'s `randomBytes(20)`: the 20-byte id is a parameter.
- `print_caption`, every `console.log` / `console.error` and the `Color` constants: output only.
- The prompt, `process.exit` and `async`/`await`: the prompt is a sequence of lines, `process.exit(1)` is the terminal `ProcessExit(1)`, and a run whose modelled prompts or outcomes run out ends as `OutOfInput`, which the program itself never does.
- The `Command` base class (`super.run`, `getCommand`, `showHelp`) is not part of this model: dispatch is a sequence of outcomes, and an exception thrown by `getCommand` inside the `catch` block is not modelled.
- Padding.Pad, Padding.LPad, Padding.RPad, Padding.TPad: the padding string is one character; a longer padding string is not modelled.
- Padding.Pad, Padding.LPad, Padding.RPad, Padding.TPad: lengths count characters of `seq<char>`, whereas JavaScript's `text.length` counts UTF-16 code units; for a text with a character outside the Basic Multilingual Plane the model pads more (`pad("😀", 3)` pads once in JavaScript, twice here).
- Padding.LPad, Padding.RPad: `lpad` and `rpad` accept any value and convert it with `toString` (src/helper.ts:18, 39, 49); the model takes a string.
- Padding.Pad, Padding.TPad: `Array(n)` throws a `RangeError` for a negative or fractional `n`, so `tpad` with a negative size and `pad` with a fractional size throw; `TPad` takes a `nat` size and `Pad` an integer one, so neither error is modelled.
- Padding.PrintDescription: `PAD_CHAR` comes from the console's constants file, which is not part of this model; it is taken to be a space.
- Padding.PrintBool: `NaN` (falsy) is not modelled; the argument is an integer.
- IntCodec.Int32ToBuffer: fractional numbers, `NaN` and infinities are not modelled; the argument is an integer.
- IntCodec.Get32IntFromBuffer: negative and fractional offsets are not modelled; the offset is a natural number.
- HandleCodec.DecodeHex follows Node 8 and later, which stop at the first pair that is not two hex digits and drop a final lone digit; older Node versions threw on odd-length strings.
