/** The PKCS#11 object-handle codec of `src/helper.ts`: `Handle.toString`,
    `Handle.toBuffer` and their helpers `prepare_hex`, `revert_buffer` and
    `buffer_to_hex`. A handle is a buffer of at most 8 bytes whose first byte is
    the least significant one; its display form is lowercase hex without leading
    zeros. */
module HandleCodec {

  import opened Wrappers
  import opened Bytes
  import opened Text

  /** The `TypeError("Wrong Buffer size")` thrown by `revert_buffer`. */
  datatype Error = WrongBufferSize

  predicate IsLowerHexDigit(c: char) { '0' <= c <= '9' || 'a' <= c <= 'f' }

  /** The characters Node's hex decoder accepts. */
  predicate IsHexDigit(c: char) { '0' <= c <= '9' || 'a' <= c <= 'f' || 'A' <= c <= 'F' }

  function DigitValue(c: char): (d: nat)
    requires IsHexDigit(c)
    ensures d < 16
  {
    if '0' <= c <= '9' then c as int - '0' as int
    else if 'a' <= c <= 'f' then c as int - 'a' as int + 10
    else c as int - 'A' as int + 10
  }

  /** The lowercase digit of value `d`. */
  function HexDigit(d: nat): (c: char)
    requires d < 16
    ensures IsLowerHexDigit(c) && DigitValue(c) == d
  {
    if d < 10 then ('0' as int + d) as char else ('a' as int + d - 10) as char
  }

  /** The lowercase form of a hex digit. */
  function Lower(c: char): (r: char)
    requires IsHexDigit(c)
    ensures IsLowerHexDigit(r)
  {
    HexDigit(DigitValue(c))
  }

  /** The two lowercase digits of one byte. */
  function ByteHex(b: Byte): (r: string)
    ensures |r| == 2 && IsLowerHexDigit(r[0]) && IsLowerHexDigit(r[1])
    ensures DigitValue(r[0]) * 16 + DigitValue(r[1]) == b
  {
    [HexDigit(b / 16), HexDigit(b % 16)]
  }

  /** `buffer.toString("hex")`. */
  function ToHex(bytes: seq<Byte>): (r: string)
    ensures |r| == 2 * |bytes|
    ensures forall i :: 0 <= i < |r| ==> IsLowerHexDigit(r[i])
  {
    if bytes == [] then "" else ByteHex(bytes[0]) + ToHex(bytes[1..])
  }

  /** `Buffer.from(s, "hex")` as Node decodes it: one byte per pair of characters from
      the left, stopping at the first pair that is not two hex digits; a final lone
      digit is dropped. */
  function DecodeHex(s: string): (r: seq<Byte>)
    ensures |r| <= |s| / 2
  {
    if |s| < 2 || !IsHexDigit(s[0]) || !IsHexDigit(s[1]) then []
    else [DigitValue(s[0]) * 16 + DigitValue(s[1])] + DecodeHex(s[2..])
  }

  /** `s` with its leading `'0'` characters removed (the regular-expression replace of `buffer_to_hex`). */
  function StripZeros(s: string): (r: string)
    ensures |r| <= |s|
    ensures s == Repeat('0', |s| - |r|) + r
    ensures r == [] || r[0] != '0'
  {
    if s != [] && s[0] == '0' then
      var r := StripZeros(s[1..]);
      assert s == [s[0]] + s[1..];
      r
    else
      assert s == Repeat('0', 0) + s;
      s
  }

  /** `buffer_to_hex`: the lowercase hex of the buffer without its leading zeros. */
  function BufferToHex(buffer: seq<Byte>): (r: string)
    ensures r == [] || r[0] != '0'
    ensures |r| <= 2 * |buffer|
    ensures forall i :: 0 <= i < |r| ==> IsLowerHexDigit(r[i])
    ensures ToHex(buffer) == Repeat('0', 2 * |buffer| - |r|) + r
  {
    var h := ToHex(buffer);
    var r := StripZeros(h);
    var k := |h| - |r|;
    assert h == Repeat('0', k) + r;
    assert forall i :: 0 <= i < |r| ==> r[i] == (Repeat('0', k) + r)[k + i];
    r
  }

  /** The string `prepare_hex` produces: `hex` preceded by enough `'0'` characters to
      make 16 digits (the documentation says it only evens out an odd length). */
  function Padded16(hex: string): (r: string)
    ensures |r| == if |hex| < 16 then 16 else |hex|
    ensures r == Repeat('0', |r| - |hex|) + hex
  {
    if |hex| < 16 then Repeat('0', 16 - |hex|) + hex else Repeat('0', 0) + hex
  }

  /** `prepare_hex`: prepends `'0'` while the string is shorter than 16. */
  method PrepareHex(hex: string) returns (res: string)
    ensures res == Padded16(hex)
  {
    res := hex;
    while |res| < 16
      invariant |hex| <= |res|
      invariant |res| <= 16 || res == hex
      invariant res == Repeat('0', |res| - |hex|) + hex
      decreases 16 - |res|
    {
      res := "0" + res;
    }
  }

  /** What `revert_buffer` returns: the error for a buffer of more than 8 bytes, and
      otherwise a fresh 8-byte buffer holding the input reversed, then zeros. */
  function Reverted(buffer: seq<Byte>): (r: Result<seq<Byte>, Error>)
    ensures r.Failure? <==> |buffer| > 8
    ensures r.Failure? ==> r.error == WrongBufferSize
    ensures r.Success? ==> |r.value| == 8
    ensures r.Success? ==> forall i :: 0 <= i < |buffer| ==> r.value[i] == buffer[|buffer| - 1 - i]
    ensures r.Success? ==> forall i :: |buffer| <= i < 8 ==> r.value[i] == 0
  {
    if |buffer| > 8 then Failure(WrongBufferSize)
    else Success(Reverse(buffer) + Zeros(8 - |buffer|))
  }

  /** `revert_buffer`: throws on more than 8 bytes, else writes the input back to front
      into a zeroed 8-byte buffer. */
  method RevertBuffer(buffer: seq<Byte>) returns (r: Result<seq<Byte>, Error>)
    ensures r == Reverted(buffer)
  {
    if |buffer| > 8 {
      return Failure(WrongBufferSize);
    }
    var b := new Byte[8](_ => 0);
    var n := |buffer|;
    var i := 0;
    while i < n
      invariant 0 <= i <= n
      invariant forall k :: 0 <= k < 8 ==> b[k] == if n - i <= k < n then buffer[n - 1 - k] else 0
    {
      b[n - 1 - i] := buffer[i];
      i := i + 1;
    }
    var expected := Reverted(buffer);
    assert b[..] == expected.value;
    r := Success(b[..]);
  }

  /** The 8-byte buffer `Handle.toString` fills from its argument: the first bytes of
      the argument, zeros after them, and nothing past index 7 (Node ignores writes
      out of a buffer's range, so a longer handle is silently cut). */
  function Fit8(buffer: seq<Byte>): (r: seq<Byte>)
    ensures |r| == 8
    ensures forall i :: 0 <= i < 8 ==> r[i] == if i < |buffer| then buffer[i] else 0
  {
    if |buffer| >= 8 then buffer[..8] else buffer + Zeros(8 - |buffer|)
  }

  /** The string `Handle.toString` gives for `buffer`. */
  function HandleString(buffer: seq<Byte>): string
  {
    BufferToHex(Reverse(Fit8(buffer)))
  }

  /** What `Handle.toBuffer` gives for `hex`. */
  function HandleBuffer(hex: string): Result<seq<Byte>, Error>
  {
    Reverted(DecodeHex(Padded16(hex)))
  }

  /** `Handle.toString`: never throws. */
  method ToString(buffer: seq<Byte>) returns (s: string)
    ensures s == HandleString(buffer)
  {
    var buf := new Byte[8](_ => 0);
    var i := 0;
    while i < |buffer|
      invariant 0 <= i <= |buffer|
      invariant forall k :: 0 <= k < 8 ==> buf[k] == if k < i then buffer[k] else 0
    {
      if i < 8 {
        buf[i] := buffer[i];
      }
      i := i + 1;
    }
    assert buf[..] == Fit8(buffer);
    var reverted := RevertBuffer(buf[..]);
    assert Zeros(0) == [];
    assert reverted.value == Reverse(buf[..]) + [];
    assert Reverse(buf[..]) + [] == Reverse(buf[..]);
    s := BufferToHex(reverted.value);
  }

  /** `Handle.toBuffer`. */
  method ToBuffer(hex: string) returns (r: Result<seq<Byte>, Error>)
    ensures r == HandleBuffer(hex)
  {
    var prepared := PrepareHex(hex);
    var decoded := DecodeHex(prepared);
    r := RevertBuffer(decoded);
  }

  // ---------------------------------------------------------------------------
  // Facts about the hex encoding

  lemma {:induction false} DecodeToHex(bytes: seq<Byte>)
    ensures DecodeHex(ToHex(bytes)) == bytes
  {
    if bytes != [] {
      var h := ToHex(bytes);
      assert h[2..] == ToHex(bytes[1..]);
      DecodeToHex(bytes[1..]);
    }
  }

  lemma {:induction false} ToHexAppend(a: seq<Byte>, b: seq<Byte>)
    ensures ToHex(a + b) == ToHex(a) + ToHex(b)
  {
    if a != [] {
      assert (a + b)[1..] == a[1..] + b;
      ToHexAppend(a[1..], b);
    } else {
      assert a + b == b;
    }
  }

  /** Only all-zero bytes encode to all-`'0'` digits. */
  lemma {:induction false} ToHexAllZeros(bytes: seq<Byte>)
    ensures ToHex(bytes) == Repeat('0', 2 * |bytes|) <==> bytes == Zeros(|bytes|)
  {
    if bytes != [] {
      var z := Repeat('0', 2 * |bytes|);
      assert z == "00" + Repeat('0', 2 * |bytes[1..]|) by {
        assert z[..2] == "00";
        assert z[2..] == Repeat('0', 2 * |bytes[1..]|);
        assert z == z[..2] + z[2..];
      }
      ToHexAllZeros(bytes[1..]);
      assert Zeros(|bytes|) == [0] + Zeros(|bytes| - 1);
      if bytes[0] == 0 {
        assert ByteHex(bytes[0]) == "00";
      } else {
        assert ByteHex(bytes[0]) != "00";
      }
      assert ToHex(bytes) == ByteHex(bytes[0]) + ToHex(bytes[1..]);
      assert bytes == [bytes[0]] + bytes[1..];
    } else {
      assert Repeat('0', 0) == "";
    }
  }

  lemma {:induction false} StripZerosAfterZeros(k: nat, s: string)
    ensures StripZeros(Repeat('0', k) + s) == StripZeros(s)
  {
    if k > 0 {
      var t := Repeat('0', k) + s;
      assert t[1..] == Repeat('0', k - 1) + s;
      StripZerosAfterZeros(k - 1, s);
    } else {
      assert Repeat('0', 0) + s == s;
    }
  }

  predicate AllHexDigits(s: string) { forall i :: 0 <= i < |s| ==> IsHexDigit(s[i]) }

  /** `s` with every digit in lowercase. */
  function LowerAll(s: string): (r: string)
    requires AllHexDigits(s)
    ensures |r| == |s|
    ensures forall i :: 0 <= i < |s| ==> r[i] == Lower(s[i])
  {
    if s == [] then "" else [Lower(s[0])] + LowerAll(s[1..])
  }

  /** A string of hex digits decodes to one byte per pair of digits. */
  lemma {:induction false} DecodeHexLength(s: string)
    requires AllHexDigits(s)
    ensures |DecodeHex(s)| == |s| / 2
  {
    if |s| >= 2 {
      DecodeHexLength(s[2..]);
    }
  }

  /** Re-encoding what an even-length string of hex digits decodes to gives its
      lowercase form. */
  lemma {:induction false} ToHexDecode(s: string)
    requires AllHexDigits(s) && |s| % 2 == 0
    ensures ToHex(DecodeHex(s)) == LowerAll(s)
  {
    if s != [] {
      var d := DecodeHex(s);
      var v := DigitValue(s[0]) * 16 + DigitValue(s[1]);
      assert d == [v] + DecodeHex(s[2..]);
      ToHexDecode(s[2..]);
      assert d[1..] == DecodeHex(s[2..]);
      assert ToHex(d) == ByteHex(v) + LowerAll(s[2..]);
      DigitPair(DigitValue(s[0]), DigitValue(s[1]));
      assert ByteHex(v) == [Lower(s[0]), Lower(s[1])];
      LowerAllTwo(s);
    }
  }

  /** The two digits of a byte are its quotient and remainder by 16. */
  lemma DigitPair(hi: nat, lo: nat)
    requires hi < 16 && lo < 16
    ensures (hi * 16 + lo) / 16 == hi && (hi * 16 + lo) % 16 == lo
  {
  }

  /** `LowerAll` taken two digits at a time. */
  lemma LowerAllTwo(s: string)
    requires AllHexDigits(s) && |s| >= 2
    ensures LowerAll(s) == [Lower(s[0]), Lower(s[1])] + LowerAll(s[2..])
  {
    assert s[1..][1..] == s[2..];
  }

  // ---------------------------------------------------------------------------
  // The properties of the handle codec

  /** Decoding a handle's string gives back the 8-byte buffer `Handle.toString` read
      from it: the handle's first 8 bytes, then zeros. */
  lemma HandleRoundTrip(buffer: seq<Byte>)
    ensures HandleBuffer(HandleString(buffer)) == Success(Fit8(buffer))
  {
    var f := Fit8(buffer);
    var rev := Reverse(f);
    var s := BufferToHex(rev);
    assert s == HandleString(buffer);
    PaddedStripped(rev);
    DecodeToHex(rev);
    assert DecodeHex(Padded16(s)) == rev;
    ReverseReverse(f);
    RevertedEight(rev);
  }

  /** Padding a buffer's stripped hex to 16 digits restores the full hex of 8 bytes. */
  lemma PaddedStripped(bytes: seq<Byte>)
    requires |bytes| == 8
    ensures Padded16(BufferToHex(bytes)) == ToHex(bytes)
  {
    var s := BufferToHex(bytes);
    var p := Padded16(s);
    assert |p| == 16;
    assert p == Repeat('0', 16 - |s|) + s;
  }

  /** On exactly 8 bytes `revert_buffer` is plain reversal. */
  lemma RevertedEight(bytes: seq<Byte>)
    requires |bytes| == 8
    ensures Reverted(bytes) == Success(Reverse(bytes))
  {
    assert Zeros(0) == [];
    assert Reverse(bytes) + Zeros(0) == Reverse(bytes);
  }

  /** For a handle of at most 8 bytes: the round trip gives the handle followed by zeros. */
  lemma HandleRoundTripShort(buffer: seq<Byte>)
    requires |buffer| <= 8
    ensures HandleBuffer(HandleString(buffer)) == Success(buffer + Zeros(8 - |buffer|))
  {
    HandleRoundTrip(buffer);
    FitShort(buffer);
  }

  /** A handle of at most 8 bytes is filled with zeros up to 8 bytes. */
  lemma FitShort(buffer: seq<Byte>)
    requires |buffer| <= 8
    ensures Fit8(buffer) == buffer + Zeros(8 - |buffer|)
  {
    if |buffer| == 8 {
      FitEight(buffer);
      assert buffer + Zeros(0) == buffer;
    }
  }

  /** The string of a handle is at most 16 lowercase hex digits and never starts with
      `'0'`. */
  lemma HandleStringForm(buffer: seq<Byte>)
    ensures |HandleString(buffer)| <= 16
    ensures forall i :: 0 <= i < |HandleString(buffer)| ==> IsLowerHexDigit(HandleString(buffer)[i])
    ensures HandleString(buffer) == [] || HandleString(buffer)[0] != '0'
  {
  }

  /** The string of a handle is empty exactly when the handle's first 8 bytes are all zero. */
  lemma HandleStringEmpty(buffer: seq<Byte>)
    ensures HandleString(buffer) == [] <==> Fit8(buffer) == Zeros(8)
  {
    var f := Fit8(buffer);
    var rev := Reverse(f);
    assert HandleString(buffer) == BufferToHex(rev);
    if f == Zeros(8) {
      ZeroHandleString(rev);
    }
    if BufferToHex(rev) == [] {
      EmptyHandleString(rev);
      ReverseReverse(f);
      ReverseZeros(8);
    }
  }

  lemma ReverseZeros(n: nat)
    ensures Reverse(Zeros(n)) == Zeros(n)
  {
  }

  lemma ZeroHandleString(rev: seq<Byte>)
    requires rev == Reverse(Zeros(8))
    ensures BufferToHex(rev) == []
  {
    assert rev == Zeros(8);
    ToHexAllZeros(rev);
    StripZerosAfterZeros(16, "");
    assert Repeat('0', 16) + "" == Repeat('0', 16);
  }

  lemma EmptyHandleString(rev: seq<Byte>)
    requires |rev| == 8
    requires BufferToHex(rev) == []
    ensures rev == Zeros(8)
  {
    assert ToHex(rev) == Repeat('0', 16) + [];
    assert Repeat('0', 16) + [] == Repeat('0', 16);
    ToHexAllZeros(rev);
  }

  /** The handle `[0x01]` is written `"1"`. */
  lemma HandleStringOne()
    ensures HandleString([1]) == "1"
  {
    var rev := Zeros(7) + [1];
    OneReversed();
    assert HandleString([1]) == BufferToHex(rev);
    OneHex(rev);
  }

  /** The buffer `Handle.toString` reverses for `[0x01]`. */
  lemma OneReversed()
    ensures Reverse(Fit8([1])) == Zeros(7) + [1]
  {
    FitShort([1]);
    var f := Fit8([1]);
    var r := Reverse(f);
    var z := Zeros(7) + [1];
    assert |r| == |z|;
    forall i | 0 <= i < 8 ensures r[i] == z[i] {
      assert r[i] == f[7 - i];
    }
  }

  /** The stripped hex of seven zero bytes followed by a 1. */
  lemma OneHex(rev: seq<Byte>)
    requires rev == Zeros(7) + [1]
    ensures BufferToHex(rev) == "1"
  {
    ToHexAppend(Zeros(7), [1]);
    ToHexAllZeros(Zeros(7));
    assert ByteHex(1) == "01";
    assert ToHex([1]) == "01" + ToHex([]);
    assert ToHex(rev) == Repeat('0', 14) + "01";
    StripZerosAfterZeros(14, "01");
    assert "01"[1..] == "1";
    assert StripZeros("01") == "1";
  }

  /** The string `"1"` is the handle `[1, 0, 0, 0, 0, 0, 0, 0]`. */
  lemma HandleBufferOne()
    ensures HandleBuffer("1") == Success([1, 0, 0, 0, 0, 0, 0, 0])
  {
    HandleStringOne();
    HandleRoundTripShort([1]);
    OneFilled();
  }

  /** `[0x01]` filled up to 8 bytes. */
  lemma OneFilled()
    ensures [1] + Zeros(7) == [1, 0, 0, 0, 0, 0, 0, 0]
  {
    var z := [1] + Zeros(7);
    forall i | 1 <= i < 8 ensures z[i] == 0 {
      assert z[i] == Zeros(7)[i - 1];
    }
  }

  /** `Handle.toBuffer` always yields 8 bytes when it does not throw; it throws exactly
      when the padded string decodes to more than 8 bytes, which never happens for up to
      16 characters, and for a string of hex digits happens exactly from 18 digits on
      (a 17th digit is dropped by the decoder). */
  lemma HandleBufferSize(hex: string)
    ensures HandleBuffer(hex).Success? ==> |HandleBuffer(hex).value| == 8
    ensures HandleBuffer(hex).Failure? <==> |DecodeHex(Padded16(hex))| > 8
    ensures HandleBuffer(hex).Failure? ==> HandleBuffer(hex).error == WrongBufferSize
    ensures |hex| <= 16 ==> HandleBuffer(hex).Success?
    ensures AllHexDigits(hex) ==> (HandleBuffer(hex).Failure? <==> |hex| >= 18)
  {
    if AllHexDigits(hex) {
      var p := Padded16(hex);
      var k := |p| - |hex|;
      forall i | 0 <= i < |p| ensures IsHexDigit(p[i]) {
        if i >= k {
          assert p[i] == hex[i - k];
        }
      }
      DecodeHexLength(p);
    }
  }

  lemma LowerAllAfterZeros(k: nat, s: string)
    requires AllHexDigits(s)
    ensures AllHexDigits(Repeat('0', k) + s)
    ensures LowerAll(Repeat('0', k) + s) == Repeat('0', k) + LowerAll(s)
  {
    var t := Repeat('0', k) + s;
    forall i | 0 <= i < |t| ensures IsHexDigit(t[i]) {
      if i >= k {
        assert t[i] == s[i - k];
      }
    }
    var q := Repeat('0', k) + LowerAll(s);
    forall i | 0 <= i < |t| ensures LowerAll(t)[i] == q[i] {
      if i >= k {
        assert t[i] == s[i - k];
        assert q[i] == LowerAll(s)[i - k];
      }
    }
  }

  /** An 8-byte handle fills its buffer as it is. */
  lemma FitEight(bytes: seq<Byte>)
    requires |bytes| == 8
    ensures Fit8(bytes) == bytes
  {
    assert bytes[..8] == bytes;
  }

  /** `Handle.toString` of an 8-byte buffer is the stripped hex of its reversal. */
  lemma HandleStringEight(bytes: seq<Byte>)
    requires |bytes| == 8
    ensures HandleString(Reverse(bytes)) == BufferToHex(bytes)
  {
    var v := Reverse(bytes);
    FitEight(v);
    ReverseReverse(bytes);
    assert HandleString(v) == BufferToHex(Reverse(Fit8(v)));
  }

  /** `buffer_to_hex` is the stripped full hex. */
  lemma BufferToHexStrips(buffer: seq<Byte>)
    ensures BufferToHex(buffer) == StripZeros(ToHex(buffer))
  {
  }

  /** The padded form of a string of hex digits is hex digits, and in lowercase it is
      zeros followed by the lowercase string. */
  lemma PaddedLower(hex: string)
    requires AllHexDigits(hex)
    ensures AllHexDigits(Padded16(hex))
    ensures LowerAll(Padded16(hex)) == Repeat('0', |Padded16(hex)| - |hex|) + LowerAll(hex)
  {
    var p := Padded16(hex);
    LowerAllAfterZeros(|p| - |hex|, hex);
  }

  /** When the padded string decodes to 8 bytes, `Handle.toBuffer` is their reversal. */
  lemma HandleBufferEight(hex: string)
    requires |DecodeHex(Padded16(hex))| == 8
    ensures HandleBuffer(hex) == Success(Reverse(DecodeHex(Padded16(hex))))
  {
    RevertedEight(DecodeHex(Padded16(hex)));
  }

  /** A string of at most 16 hex digits pads to hex digits that decode to 8 bytes. */
  lemma PaddedDecodeLength(hex: string)
    requires AllHexDigits(hex) && |hex| <= 16
    ensures AllHexDigits(Padded16(hex))
    ensures |DecodeHex(Padded16(hex))| == 8
  {
    PaddedLower(hex);
    DecodeHexLength(Padded16(hex));
  }

  /** The full hex of what a padded string of hex digits decodes to is zeros followed
      by the string in lowercase. */
  lemma PaddedHexLower(hex: string)
    requires AllHexDigits(hex) && |hex| <= 16
    ensures ToHex(DecodeHex(Padded16(hex))) == Repeat('0', |Padded16(hex)| - |hex|) + LowerAll(hex)
  {
    var p := Padded16(hex);
    PaddedLower(hex);
    assert |p| == 16;
    ToHexDecode(p);
    assert ToHex(DecodeHex(p)) == LowerAll(p);
  }

  /** Bytes whose full hex is `k` zeros followed by `low` are shown as `low` without
      its leading zeros. */
  lemma StripPadded(d: seq<Byte>, k: nat, low: string)
    requires ToHex(d) == Repeat('0', k) + low
    ensures BufferToHex(d) == StripZeros(low)
  {
    BufferToHexStrips(d);
    StripZerosAfterZeros(k, low);
  }

  /** The stripped hex of what a padded string of hex digits decodes to is the string
      in lowercase without leading zeros. */
  lemma CanonicalHex(hex: string)
    requires AllHexDigits(hex) && |hex| <= 16
    ensures BufferToHex(DecodeHex(Padded16(hex))) == StripZeros(LowerAll(hex))
  {
    PaddedHexLower(hex);
    StripPadded(DecodeHex(Padded16(hex)), |Padded16(hex)| - |hex|, LowerAll(hex));
  }

  /** Converting a string of at most 16 hex digits to a handle and back gives its
      canonical form: lowercase, without leading zeros. */
  lemma HandleCanonical(hex: string)
    requires AllHexDigits(hex) && |hex| <= 16
    ensures HandleBuffer(hex).Success?
    ensures HandleString(HandleBuffer(hex).value) == StripZeros(LowerAll(hex))
  {
    PaddedDecodeLength(hex);
    CanonicalHex(hex);
    HandleBufferEight(hex);
    HandleStringEight(DecodeHex(Padded16(hex)));
  }
}
