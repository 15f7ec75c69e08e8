/**
  Fixed-width integers and bytes as the C++ code sees them: 32-bit two's
  complement `int`, `unsigned int`, bytes, and the 4-byte little-endian layout
  in which the binary configuration file stores an `int` or a `float`.
 */
module Ints {

  const TWO31: int := 0x8000_0000
  const TWO32: int := 0x1_0000_0000

  type byte = x: int | 0 <= x < 256
  type int32 = x: int | -TWO31 <= x < TWO31
  type uint32 = x: int | 0 <= x < TWO32

  datatype Option<T> = None | Some(value: T)

  /** A byte-sized character: the element type of a C++ std::string. */
  type Char8 = c: char | c as int < 256
  type Str = seq<Char8>

  /** The two's complement wrap-around that a C++ `int` conversion performs. */
  function Wrap32(x: int): (r: int32)
    ensures (r - x) % TWO32 == 0
    ensures -TWO31 <= x < TWO31 ==> r == x
  {
    var m := x % TWO32;
    if m < TWO31 then m else m - TWO32
  }

  /** `(unsigned int) v` for a signed `int` v. */
  function ToUnsigned(x: int32): (r: uint32)
    ensures x >= 0 ==> r == x
    ensures x < 0 ==> r == x + TWO32
  {
    if x < 0 then x + TWO32 else x
  }

  /** `(int) u` for an `unsigned int` u. */
  function ToSigned(u: uint32): (r: int32)
    ensures u < TWO31 ==> r == u
    ensures u >= TWO31 ==> r == u - TWO32
  {
    if u < TWO31 then u else u - TWO32
  }

  lemma UnsignedSignedRoundTrip(u: uint32, x: int32)
    ensures ToUnsigned(ToSigned(u)) == u
    ensures ToSigned(ToUnsigned(x)) == x
  {
  }

  /** The four bytes, least significant first, that hold `u` in memory. */
  function LE32(u: uint32): (r: seq<byte>)
    ensures |r| == 4
  {
    var u1 := u / 256;
    var u2 := u1 / 256;
    [u % 256, u1 % 256, u2 % 256, u2 / 256]
  }

  /** The `unsigned int` held in four little-endian bytes. */
  function FromLE32(b: seq<byte>): (u: uint32)
    requires |b| == 4
  {
    b[0] as int + 256 * (b[1] as int + 256 * (b[2] as int + 256 * (b[3] as int)))
  }

  /** A number written as a low byte and the rest. */
  lemma DivModByte(lo: int, hi: int)
    requires 0 <= lo < 256 && 0 <= hi
    ensures (lo + 256 * hi) % 256 == lo && (lo + 256 * hi) / 256 == hi
  {
  }

  lemma {:induction false} LE32RoundTrip(u: uint32)
    ensures FromLE32(LE32(u)) == u
  {
    var u1 := u / 256;
    var u2 := u1 / 256;
    assert u == u % 256 + 256 * u1;
    assert u1 == u1 % 256 + 256 * u2;
    assert u2 == u2 % 256 + 256 * (u2 / 256);
  }

  lemma {:induction false} FromLE32Inverse(b: seq<byte>)
    requires |b| == 4
    ensures LE32(FromLE32(b)) == b
  {
    var q2 := b[2] as int + 256 * (b[3] as int);
    var q1 := b[1] as int + 256 * q2;
    DivModByte(b[0] as int, q1);
    DivModByte(b[1] as int, q2);
    DivModByte(b[2] as int, b[3] as int);
  }

  /** The argument held in a byte-sized char. */
  function CharByte(c: Char8): byte { c as int }

  function ByteChar(b: byte): Char8 { b as char }

  function StrBytes(s: Str): (r: seq<byte>)
    ensures |r| == |s|
    ensures forall i :: 0 <= i < |s| ==> r[i] == s[i] as int
  {
    seq(|s|, i requires 0 <= i < |s| => CharByte(s[i]))
  }

  function BytesStr(b: seq<byte>): (r: Str)
    ensures |r| == |b|
    ensures forall i :: 0 <= i < |b| ==> r[i] as int == b[i]
  {
    seq(|b|, i requires 0 <= i < |b| => ByteChar(b[i]))
  }

  /** Regrouping a concatenation of three sequences. */
  lemma Assoc<T>(a: seq<T>, b: seq<T>, c: seq<T>)
    ensures (a + b) + c == a + (b + c)
  {
  }

  lemma StrBytesRoundTrip(s: Str)
    ensures BytesStr(StrBytes(s)) == s
  {
    assert forall i :: 0 <= i < |s| ==> BytesStr(StrBytes(s))[i] == s[i];
  }
}
