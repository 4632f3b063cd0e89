/** Fixed-width values as BinaryReader and BinaryWriter lay them out:
    4-byte little-endian two's-complement integers and opaque 4-byte
    single-precision floats. */
module Bytes {

  type byte = x: int | 0 <= x < 0x100

  /** C# `int`. */
  type int32 = x: int | -0x8000_0000 <= x < 0x8000_0000

  /** C# `float`, kept as the four bytes BinaryReader.ReadSingle consumed. */
  type Word = w: seq<byte> | |w| == 4 witness [0, 0, 0, 0]

  const Int32Max: int := 0x7FFF_FFFF

  /** The bytes BinaryWriter.Write(int) emits; a count that does not fit in
      32 bits is truncated to its low 32 bits. */
  function LE32(v: int): (r: seq<byte>)
    ensures |r| == 4
  {
    var u := v % 0x1_0000_0000;
    var q1 := u / 0x100;
    var q2 := q1 / 0x100;
    [u % 0x100, q1 % 0x100, q2 % 0x100, q2 / 0x100]
  }

  /** The value BinaryReader.ReadInt32 returns for four bytes. */
  function FromLE32(w: seq<byte>): (v: int32)
    requires |w| == 4
  {
    var u := Unsigned(w);
    if u < 0x8000_0000 then u else u - 0x1_0000_0000
  }

  /** The four bytes read as an unsigned number. */
  function Unsigned(w: seq<byte>): (u: int)
    requires |w| == 4
    ensures 0 <= u < 0x1_0000_0000
  {
    w[0] as int + 0x100 * (w[1] as int + 0x100 * (w[2] as int + 0x100 * w[3] as int))
  }

  lemma DivMod256(a: int, q: int, r: int)
    requires a == q * 0x100 + r && 0 <= r < 0x100
    ensures a / 0x100 == q && a % 0x100 == r
  {
  }

  lemma FromLE32OfLE32(v: int32)
    ensures FromLE32(LE32(v)) == v
  {
    var u := v % 0x1_0000_0000;
    var q1 := u / 0x100;
    var q2 := q1 / 0x100;
    assert u == q1 * 0x100 + u % 0x100;
    assert q1 == q2 * 0x100 + q1 % 0x100;
    assert q2 == (q2 / 0x100) * 0x100 + q2 % 0x100;
    assert Unsigned(LE32(v)) == u;
  }

  lemma LE32OfFromLE32(w: seq<byte>)
    requires |w| == 4
    ensures LE32(FromLE32(w)) == w
  {
    var u := Unsigned(w);
    assert FromLE32(w) % 0x1_0000_0000 == u;
    var q1 := w[1] as int + 0x100 * (w[2] as int + 0x100 * w[3] as int);
    var q2 := w[2] as int + 0x100 * w[3] as int;
    DivMod256(u, q1, w[0]);
    DivMod256(q1, q2, w[1]);
    DivMod256(q2, w[3], w[2]);
  }

  /** Regrouping a concatenation, one step at a time; long chains of
      concatenations are regrouped by a series of these. */
  lemma Assoc<T>(a: seq<T>, b: seq<T>, c: seq<T>)
    ensures a + b + c == a + (b + c)
  {
  }
}
