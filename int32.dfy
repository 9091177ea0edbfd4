/** The 32-bit integer codec of `src/helper.ts`: `int32toBuffer` and
    `get32IntFromBuffer`. */
module IntCodec {

  import opened Wrappers
  import opened Bytes

  const Two32: nat := 0x1_0000_0000

  /** The argument of `int32toBuffer`: a number or a `Buffer`. */
  datatype Int32Input = Number(n: int) | Buffer(bytes: seq<Byte>)

  /** `int32toBuffer`. A buffer argument is returned as it is. A number goes through
      JavaScript's 32-bit conversion for `&`; masking and shifting then leave in each
      slot one byte of that value, which storing into the buffer reads modulo 256, so
      the four bytes are those of the number modulo 2^32, most significant first. */
  method Int32ToBuffer(value: Int32Input) returns (buf: seq<Byte>)
    ensures value.Buffer? ==> buf == value.bytes
    ensures value.Number? ==> |buf| == 4 && BigEndian(buf) == value.n % Two32
  {
    if value.Buffer? {
      return value.bytes;
    }
    var u := value.n % Two32;
    ByteSplit(u);
    var b := new Byte[4](_ => 0);
    b[0] := u / 0x100_0000;
    b[1] := (u / 0x1_0000) % 0x100;
    b[2] := (u / 0x100) % 0x100;
    b[3] := u % 0x100;
    buf := b[..];
    FourBytes(buf);
    ByteSplit(u);
  }

  lemma FourBytes(s: seq<Byte>)
    requires |s| == 4
    ensures BigEndian(s) == ((s[0] as int * 256 + s[1]) * 256 + s[2]) * 256 + s[3]
  {
    assert s[..3][..2] == s[..2] && s[..2][..1] == s[..1] && s[..1][..0] == [];
    assert BigEndian(s[..1]) == s[0];
    assert BigEndian(s[..2]) == s[0] as int * 256 + s[1];
    assert BigEndian(s[..3]) == (s[0] as int * 256 + s[1]) * 256 + s[2];
  }

  /** The four bytes `Int32ToBuffer` computes from `u` recombine to `u`. */
  lemma ByteSplit(u: nat)
    requires u < Two32
    ensures u / 0x100_0000 < 256
    ensures u == ((u / 0x100_0000 * 256 + (u / 0x1_0000) % 0x100) * 256 + (u / 0x100) % 0x100) * 256 + u % 0x100
  {
    var q1 := u / 0x100;
    var q2 := q1 / 0x100;
    var q3 := q2 / 0x100;
    assert u == q1 * 256 + u % 256;
    assert q1 == q2 * 256 + q1 % 256;
    assert q2 == q3 * 256 + q2 % 256;
    assert q2 == u / 0x1_0000;
    assert q3 == u / 0x100_0000;
  }

  /** `Math.pow(16, d)`. */
  function Pow16(d: nat): (r: nat)
  {
    if d == 0 then 1 else 16 * Pow16(d - 1)
  }

  /** Sixteen to an even power `2k` is 256 to the power `k`. */
  lemma {:induction false} Pow16Even(k: nat)
    ensures Pow16(2 * k) == Pow256(k)
  {
    if k > 0 {
      Pow16Even(k - 1);
      assert Pow16(2 * k) == 16 * (16 * Pow16(2 * (k - 1)));
    }
  }

  /** `get32IntFromBuffer(buffer, offset)`: `NaN` (here `None`) when no byte remains
      after `offset`; the standard big-endian read of the 4 bytes at `offset` when at
      least 4 remain; and otherwise the remaining bytes summed with weights
      `16^0, 16^2, 16^4` from the last one, which is their big-endian value. */
  method Get32IntFromBuffer(buffer: seq<Byte>, offset: nat) returns (r: Option<nat>)
    ensures offset >= |buffer| <==> r == None
    ensures |buffer| - offset >= 4 ==> r == Some(BigEndian(buffer[offset..offset + 4]))
    ensures 0 < |buffer| - offset < 4 ==> r == Some(BigEndian(buffer[offset..]))
  {
    var size := |buffer| - offset;
    if size > 0 {
      if size >= 4 {
        r := Some(BigEndian(buffer[offset..offset + 4]));
      } else {
        var res := 0;
        var i := offset + size;
        var d := 0;
        while i > offset
          invariant offset <= i <= |buffer|
          invariant d == 2 * (|buffer| - i)
          invariant res == BigEndian(buffer[i..])
        {
          BigEndianCons(buffer[i - 1], buffer[i..]);
          Pow16Even(|buffer| - i);
          assert buffer[i - 1..] == [buffer[i - 1]] + buffer[i..];
          res := res + buffer[i - 1] * Pow16(d);
          i := i - 1;
          d := d + 2;
        }
        r := Some(res);
      }
    } else {
      r := None;
    }
  }

  /** Reading back what `int32toBuffer` wrote gives the number, for 0 <= v < 2^32. */
  method Int32RoundTrip(v: int) returns (back: Option<nat>)
    requires 0 <= v < Two32
    ensures back == Some(v)
  {
    var buf := Int32ToBuffer(Number(v));
    back := Get32IntFromBuffer(buf, 0);
    assert buf[0..4] == buf;
  }

  /** `int32toBuffer(0x01020304)` is `[1, 2, 3, 4]`, which reads back as `0x01020304`. */
  method Int32Example() returns (buf: seq<Byte>, back: Option<nat>)
    ensures buf == [1, 2, 3, 4]
    ensures back == Some(0x01020304)
  {
    buf := Int32ToBuffer(Number(0x01020304));
    FourBytes([1, 2, 3, 4]);
    BigEndianInjective(buf, [1, 2, 3, 4]);
    back := Get32IntFromBuffer(buf, 0);
    assert buf[0..4] == buf;
  }
}
