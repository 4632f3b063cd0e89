/** UTF-8 as RFC 3629 defines it: what Encoding.UTF8.GetBytes produces for
    a string and what Encoding.UTF8.GetString accepts without substituting
    replacement characters. A Dafny `char` is a Unicode scalar value, so a
    string here never holds a lone surrogate. */
module Utf8 {
  import opened Results
  import opened Bytes

  predicate IsContinuation(b: byte) {
    0x80 <= b < 0xC0
  }

  /** The shortest encoding of one scalar value (section 3 of RFC 3629). */
  function EncodeChar(c: char): (r: seq<byte>)
    ensures 1 <= |r| <= 4
    ensures |r| == 1 <==> (c as int) < 0x80
  {
    var cp := c as int;
    if cp < 0x80 then [cp]
    else if cp < 0x800 then [0xC0 + cp / 0x40, 0x80 + cp % 0x40]
    else if cp < 0x1_0000 then [0xE0 + cp / 0x1000, 0x80 + (cp / 0x40) % 0x40, 0x80 + cp % 0x40]
    else [0xF0 + cp / 0x4_0000, 0x80 + (cp / 0x1000) % 0x40, 0x80 + (cp / 0x40) % 0x40, 0x80 + cp % 0x40]
  }

  /** Reads one scalar value from the front of `b`, with its length in
      bytes; None for an ill-formed sequence (a stray continuation byte, a
      truncated sequence, an overlong form, a surrogate, or a value past
      U+10FFFF). */
  function DecodeChar(b: seq<byte>): (r: Option<(char, nat)>)
    requires |b| > 0
    ensures r.Some? ==> 1 <= r.value.1 <= |b|
  {
    var b0: int := b[0];
    if b0 < 0x80 then Some((b0 as char, 1))
    else if 0xC2 <= b0 < 0xE0 then
      if |b| < 2 || !IsContinuation(b[1]) then None
      else Some((((b0 - 0xC0) * 0x40 + (b[1] as int - 0x80)) as char, 2))
    else if 0xE0 <= b0 < 0xF0 then
      if |b| < 3 || !IsContinuation(b[1]) || !IsContinuation(b[2]) then None
      else
        var cp := (b0 - 0xE0) * 0x1000 + (b[1] as int - 0x80) * 0x40 + (b[2] as int - 0x80);
        if cp < 0x800 || (0xD800 <= cp < 0xE000) then None else Some((cp as char, 3))
    else if 0xF0 <= b0 < 0xF5 then
      if |b| < 4 || !IsContinuation(b[1]) || !IsContinuation(b[2]) || !IsContinuation(b[3]) then None
      else
        var cp := (b0 - 0xF0) * 0x4_0000 + (b[1] as int - 0x80) * 0x1000 + (b[2] as int - 0x80) * 0x40 + (b[3] as int - 0x80);
        if cp < 0x1_0000 || cp >= 0x11_0000 then None else Some((cp as char, 4))
    else None
  }

  function Encode(s: string): (r: seq<byte>)
    ensures |r| >= |s|
  {
    if s == [] then [] else EncodeChar(s[0]) + Encode(s[1..])
  }

  /** Encoding.UTF8.GetByteCount of one scalar value. */
  function CharSize(c: char): nat {
    var cp := c as int;
    if cp < 0x80 then 1 else if cp < 0x800 then 2 else if cp < 0x1_0000 then 3 else 4
  }

  /** Encoding.UTF8.GetByteCount of a string. */
  function Size(s: string): (n: nat)
    ensures n >= |s|
  {
    if s == [] then 0 else CharSize(s[0]) + Size(s[1..])
  }

  /** GetByteCount counts the bytes GetBytes produces. */
  lemma {:induction false} SizeEncode(s: string)
    ensures |Encode(s)| == Size(s)
  {
    if s != [] {
      assert |EncodeChar(s[0])| == CharSize(s[0]);
      SizeEncode(s[1..]);
    }
  }

  function Decode(b: seq<byte>): Option<string>
    decreases |b|
  {
    if b == [] then Some([])
    else match DecodeChar(b)
      case None => None
      case Some((c, n)) =>
        match Decode(b[n..])
        case None => None
        case Some(s) => Some([c] + s)
  }

  lemma DecodeEncodeChar(c: char, rest: seq<byte>)
    ensures DecodeChar(EncodeChar(c) + rest) == Some((c, |EncodeChar(c)|))
  {
    var cp := c as int;
    var e := EncodeChar(c) + rest;
    if 0x800 <= cp < 0x1_0000 {
      assert (cp / 0x40) / 0x40 == cp / 0x1000;
      assert e[1] - 0x80 == (cp / 0x40) % 0x40;
    } else if cp >= 0x1_0000 {
      assert (cp / 0x40) / 0x40 == cp / 0x1000;
      assert (cp / 0x1000) / 0x40 == cp / 0x4_0000;
    }
  }

  /** Six low bits appended to `hi`, and taken off again. */
  lemma DivMod64(hi: int, lo: int)
    requires hi >= 0 && 0 <= lo < 0x40
    ensures (hi * 0x40 + lo) / 0x40 == hi && (hi * 0x40 + lo) % 0x40 == lo
  {
  }

  lemma DivDiv64(x: int)
    requires x >= 0
    ensures (x / 0x40) / 0x40 == x / 0x1000
  {
  }

  /** A two-byte sequence DecodeChar accepts is the encoding of its value. */
  lemma EncodeTwo(b0: int, b1: int)
    requires 0xC2 <= b0 < 0xE0 && 0x80 <= b1 < 0xC0
    ensures EncodeChar(((b0 - 0xC0) * 0x40 + (b1 - 0x80)) as char) == [b0 as byte, b1 as byte]
  {
    DivMod64(b0 - 0xC0, b1 - 0x80);
  }

  /** The same for three bytes, surrogates and overlong forms excluded. */
  lemma EncodeThree(b0: int, b1: int, b2: int)
    requires 0xE0 <= b0 < 0xF0 && 0x80 <= b1 < 0xC0 && 0x80 <= b2 < 0xC0
    requires var cp := (b0 - 0xE0) * 0x1000 + (b1 - 0x80) * 0x40 + (b2 - 0x80);
      0x800 <= cp && !(0xD800 <= cp < 0xE000)
    ensures EncodeChar(((b0 - 0xE0) * 0x1000 + (b1 - 0x80) * 0x40 + (b2 - 0x80)) as char)
            == [b0 as byte, b1 as byte, b2 as byte]
  {
    var hi := (b0 - 0xE0) * 0x40 + (b1 - 0x80);
    var cp := hi * 0x40 + (b2 - 0x80);
    DivMod64(hi, b2 - 0x80);
    DivMod64(b0 - 0xE0, b1 - 0x80);
    DivDiv64(cp);
  }

  /** The same for four bytes, values past U+10FFFF and overlong forms
      excluded. */
  lemma EncodeFour(b0: int, b1: int, b2: int, b3: int)
    requires 0xF0 <= b0 < 0xF5 && 0x80 <= b1 < 0xC0 && 0x80 <= b2 < 0xC0 && 0x80 <= b3 < 0xC0
    requires var cp := (b0 - 0xF0) * 0x4_0000 + (b1 - 0x80) * 0x1000 + (b2 - 0x80) * 0x40 + (b3 - 0x80);
      0x1_0000 <= cp < 0x11_0000
    ensures EncodeChar(((b0 - 0xF0) * 0x4_0000 + (b1 - 0x80) * 0x1000 + (b2 - 0x80) * 0x40 + (b3 - 0x80)) as char)
            == [b0 as byte, b1 as byte, b2 as byte, b3 as byte]
  {
    var top := (b0 - 0xF0) * 0x40 + (b1 - 0x80);
    var hi := top * 0x40 + (b2 - 0x80);
    var cp := hi * 0x40 + (b3 - 0x80);
    DivMod64(hi, b3 - 0x80);
    DivMod64(top, b2 - 0x80);
    DivMod64(b0 - 0xF0, b1 - 0x80);
    DivDiv64(cp);
    DivDiv64(hi);
    DivDiv64(cp / 0x40);
  }

  lemma EncodeDecodeChar(b: seq<byte>)
    requires |b| > 0 && DecodeChar(b).Some?
    ensures EncodeChar(DecodeChar(b).value.0) == b[..DecodeChar(b).value.1]
  {
    var b0: int := b[0];
    if 0xC2 <= b0 < 0xE0 {
      EncodeTwo(b0, b[1] as int);
      assert b[..2] == [b[0], b[1]];
    } else if 0xE0 <= b0 < 0xF0 {
      EncodeThree(b0, b[1] as int, b[2] as int);
      assert b[..3] == [b[0], b[1], b[2]];
    } else if 0xF0 <= b0 < 0xF5 {
      EncodeFour(b0, b[1] as int, b[2] as int, b[3] as int);
      assert b[..4] == [b[0], b[1], b[2], b[3]];
    }
  }

  lemma EncodeAppend(s: string, t: string)
    ensures Encode(s + t) == Encode(s) + Encode(t)
  {
    if s != [] {
      assert (s + t)[0] == s[0];
      assert (s + t)[1..] == s[1..] + t;
      EncodeAppend(s[1..], t);
      calc {
        Encode(s + t);
        EncodeChar(s[0]) + Encode(s[1..] + t);
        EncodeChar(s[0]) + (Encode(s[1..]) + Encode(t));
        (EncodeChar(s[0]) + Encode(s[1..])) + Encode(t);
      }
    } else {
      assert s + t == t;
    }
  }

  /** Every string survives GetBytes followed by GetString. */
  lemma {:induction false} DecodeEncode(s: string)
    ensures Decode(Encode(s)) == Some(s)
  {
    if s != [] {
      DecodeEncodeChar(s[0], Encode(s[1..]));
      var e := Encode(s);
      assert e[|EncodeChar(s[0])|..] == Encode(s[1..]);
      DecodeEncode(s[1..]);
      assert [s[0]] + s[1..] == s;
    }
  }

  /** Well-formed UTF-8 is exactly the encoding of what it decodes to. */
  lemma {:induction false} EncodeDecode(b: seq<byte>)
    requires Decode(b).Some?
    ensures Encode(Decode(b).value) == b
    decreases |b|
  {
    if b != [] {
      var c := DecodeChar(b).value.0;
      var n := DecodeChar(b).value.1;
      EncodeDecodeChar(b);
      EncodeDecode(b[n..]);
      var s := Decode(b).value;
      assert s == [c] + Decode(b[n..]).value;
      assert s[1..] == Decode(b[n..]).value;
      assert b == b[..n] + b[n..];
    }
  }
}
