/** The primitive layer of the .mod codec: ReverseEngineer's ReadInt,
    ReadFloat, ReadBool, ReadString and ReadDictionary and their Write
    counterparts, as functions over the unread suffix of the stream.

    Every reader takes a `strict` flag. With `strict == false` a reader does
    what the source does (ReadBoolean maps any non-zero byte to true, a
    repeated dictionary key overwrites the earlier value, a negative count
    reads nothing). With `strict == true` it additionally rejects every
    input that the writer could not have produced; those are the
    well-formed inputs, on which strict and lenient reading agree. */
module Wire {
  import opened Results
  import opened Bytes
  import opened OrderedDict
  import Utf8

  datatype DecodeError =
    | EndOfStream          // EndOfStreamException, or a short ReadBytes
    | NegativeLength       // ReadBytes with a negative count
    | InvalidUtf8          // bytes GetString would replace with U+FFFD
    | UnknownFileType(fileType: int32)
    | NotCanonical         // strict reading only: bytes the writer never emits

  /** A decoded value and the unread rest of the stream, or the error that
      ended decoding. */
  datatype Parsed<+T> = Parsed(value: T, rest: seq<byte>) | Failed(error: DecodeError) {

    predicate IsFailure() {
      Failed?
    }

    function PropagateFailure<U>(): Parsed<U>
      requires Failed?
    {
      Failed(error)
    }

    function Extract(): Parsed<T>
      requires Parsed?
    {
      this
    }
  }

  /** The shape of the `readValue` argument of ReadDictionary. */
  type ValueReader<T> = (bool, seq<byte>) -> Parsed<T>

  /* ---------------- fixed-width values ---------------- */

  function ReadInt32(b: seq<byte>): Parsed<int32> {
    if |b| < 4 then Failed(EndOfStream) else Parsed(FromLE32(b[..4]), b[4..])
  }

  function Int32Value(strict: bool, b: seq<byte>): Parsed<int32> {
    ReadInt32(b)
  }

  function WriteInt32(v: int32): seq<byte> {
    LE32(v)
  }

  function ReadWord(strict: bool, b: seq<byte>): Parsed<Word> {
    if |b| < 4 then Failed(EndOfStream) else Parsed(b[..4], b[4..])
  }

  function WriteWord(w: Word): seq<byte> {
    w
  }

  function ReadBool(strict: bool, b: seq<byte>): Parsed<bool> {
    if |b| < 1 then Failed(EndOfStream)
    else if strict && b[0] > 1 then Failed(NotCanonical)
    else Parsed(b[0] != 0, b[1..])
  }

  function WriteBool(v: bool): seq<byte> {
    [if v then 1 else 0]
  }

  /** BinaryReader.ReadBytes(n), made partial: a short read is an error. */
  function ReadBytes(n: int, b: seq<byte>): Parsed<seq<byte>> {
    if n < 0 then Failed(NegativeLength)
    else if |b| < n then Failed(EndOfStream)
    else Parsed(b[..n], b[n..])
  }

  /* ---------------- strings ---------------- */

  /** ReverseEngineer.ReadString: an int32 byte count, then that many bytes
      of UTF-8. */
  function ReadString(b: seq<byte>): Parsed<string> {
    var n :- ReadInt32(b);
    var bytes :- ReadBytes(n.value, n.rest);
    match Utf8.Decode(bytes.value)
    case None => Failed(InvalidUtf8)
    case Some(s) => Parsed(s, bytes.rest)
  }

  function StringValue(strict: bool, b: seq<byte>): Parsed<string> {
    ReadString(b)
  }

  /** ReverseEngineer.WriteString. */
  function WriteString(s: string): seq<byte> {
    LE32(|Utf8.Encode(s)|) + Utf8.Encode(s)
  }

  /** The byte count of `s` fits the int32 length prefix. */
  predicate StringFits(s: string) {
    |Utf8.Encode(s)| <= Int32Max
  }

  function Always<T>(v: T): bool {
    true
  }

  /* ---------------- value codecs ---------------- */

  /** A reader, the writer it inverts, and the values the writer may be
      given. */
  datatype Codec<!T> = Codec(read: ValueReader<T>, write: T -> seq<byte>, ok: T -> bool)

  /** `read` undoes `write` on every value `ok` admits, and strict reading
      only accepts what `write` produces. */
  ghost predicate Sound<T(!new)>(c: Codec<T>) {
    ReadsBack(c) && OnlyWritten(c)
  }

  ghost predicate ReadsBack<T(!new)>(c: Codec<T>) {
    forall v, rest, strict :: c.ok(v) ==> c.read(strict, c.write(v) + rest) == Parsed(v, rest)
  }

  ghost predicate OnlyWritten<T(!new)>(c: Codec<T>) {
    forall b :: c.read(true, b).Parsed? ==>
      && c.read(false, b) == c.read(true, b)
      && c.ok(c.read(true, b).value)
      && c.write(c.read(true, b).value) + c.read(true, b).rest == b
  }

  lemma ReadWriteInt32(v: int32, rest: seq<byte>)
    ensures ReadInt32(LE32(v) + rest) == Parsed(v, rest)
  {
    FromLE32OfLE32(v);
    assert (LE32(v) + rest)[..4] == LE32(v);
    assert (LE32(v) + rest)[4..] == rest;
  }

  lemma WriteReadInt32(b: seq<byte>)
    requires ReadInt32(b).Parsed?
    ensures LE32(ReadInt32(b).value) + ReadInt32(b).rest == b
  {
    LE32OfFromLE32(b[..4]);
    assert b == b[..4] + b[4..];
  }

  lemma ReadWriteWord(strict: bool, w: Word, rest: seq<byte>)
    ensures ReadWord(strict, w + rest) == Parsed(w, rest)
  {
    assert (w + rest)[..4] == w && (w + rest)[4..] == rest;
  }

  lemma WriteReadWord(strict: bool, b: seq<byte>)
    requires ReadWord(strict, b).Parsed?
    ensures ReadWord(strict, b).value + ReadWord(strict, b).rest == b
  {
    assert b == b[..4] + b[4..];
  }

  const Int32Codec := Codec(Int32Value, WriteInt32, Always)
  const WordCodec := Codec(ReadWord, WriteWord, Always)
  const BoolCodec := Codec(ReadBool, WriteBool, Always)
  const StringCodec := Codec(StringValue, WriteString, StringFits)

  lemma Int32Sound()
    ensures Sound(Int32Codec)
  {
    forall v: int32, rest: seq<byte>, strict: bool
      ensures Int32Value(strict, WriteInt32(v) + rest) == Parsed(v, rest)
    {
      ReadWriteInt32(v, rest);
    }
    forall b: seq<byte> | Int32Value(true, b).Parsed?
      ensures WriteInt32(Int32Value(true, b).value) + Int32Value(true, b).rest == b
    {
      WriteReadInt32(b);
    }
  }

  lemma WordSound()
    ensures Sound(WordCodec)
  {
    forall v: Word, rest: seq<byte>, strict: bool
      ensures ReadWord(strict, WriteWord(v) + rest) == Parsed(v, rest)
    {
      ReadWriteWord(strict, v, rest);
    }
    forall b: seq<byte> | ReadWord(true, b).Parsed?
      ensures WriteWord(ReadWord(true, b).value) + ReadWord(true, b).rest == b
    {
      WriteReadWord(true, b);
    }
  }

  lemma BoolSound()
    ensures Sound(BoolCodec)
  {
    forall v: bool, rest: seq<byte>, strict: bool
      ensures ReadBool(strict, WriteBool(v) + rest) == Parsed(v, rest)
    {
      assert (WriteBool(v) + rest)[1..] == rest;
    }
    forall b: seq<byte> | ReadBool(true, b).Parsed?
      ensures WriteBool(ReadBool(true, b).value) + ReadBool(true, b).rest == b
    {
      assert b == [b[0]] + b[1..];
    }
  }

  /** A string reads back as itself and consumes exactly its 4-byte length
      prefix and its UTF-8 bytes. */
  lemma ReadWriteString(s: string, rest: seq<byte>)
    requires StringFits(s)
    ensures ReadString(WriteString(s) + rest) == Parsed(s, rest)
    ensures |WriteString(s)| == 4 + |Utf8.Encode(s)|
  {
    var e := Utf8.Encode(s);
    var b := WriteString(s) + rest;
    FromLE32OfLE32(|e|);
    assert b[..4] == LE32(|e|);
    assert b[4..] == e + rest;
    assert (e + rest)[..|e|] == e && (e + rest)[|e|..] == rest;
    Utf8.DecodeEncode(s);
  }

  /** Whatever ReadString accepts is a length prefix followed by the UTF-8
      encoding of the string it returns. */
  lemma WriteReadString(b: seq<byte>)
    requires ReadString(b).Parsed?
    ensures StringFits(ReadString(b).value)
    ensures WriteString(ReadString(b).value) + ReadString(b).rest == b
  {
    var n := FromLE32(b[..4]);
    var body := b[4..][..n];
    Utf8.EncodeDecode(body);
    LE32OfFromLE32(b[..4]);
    assert b == b[..4] + (body + b[4..][n..]);
  }

  lemma StringSound()
    ensures Sound(StringCodec)
  {
    forall v, rest: seq<byte>, strict: bool | StringFits(v)
      ensures StringValue(strict, WriteString(v) + rest) == Parsed(v, rest)
    {
      ReadWriteString(v, rest);
    }
    forall b: seq<byte> | StringValue(true, b).Parsed?
      ensures StringFits(StringValue(true, b).value)
      ensures WriteString(StringValue(true, b).value) + StringValue(true, b).rest == b
    {
      WriteReadString(b);
    }
  }

  /* ---------------- dictionaries ---------------- */

  /** The loop of ReadDictionary: `n` more (key, value) pairs, each assigned
      into `acc` with `dict[key] = value`. Keys are read by `key`, which is
      ReadString in every dictionary of the format. */
  function ReadEntries<T>(strict: bool, n: int, b: seq<byte>, acc: Dict<T>,
                          key: ValueReader<string>, val: ValueReader<T>): Parsed<Dict<T>>
    decreases if n < 0 then 0 else n
  {
    if n <= 0 then Parsed(acc, b)
    else
      var k :- key(strict, b);
      var v :- val(strict, k.rest);
      if strict && k.value in Keys(acc) then Failed(NotCanonical)
      else ReadEntries(strict, n - 1, v.rest, Put(acc, k.value, v.value), key, val)
  }

  /** ReverseEngineer.ReadDictionary: an int32 count, then the pairs. */
  function ReadDict<T>(strict: bool, b: seq<byte>, val: ValueReader<T>): Parsed<Dict<T>> {
    var n :- ReadInt32(b);
    if strict && n.value < 0 then Failed(NotCanonical)
    else ReadEntries(strict, n.value, n.rest, [], StringValue, val)
  }

  /** The foreach of WriteDictionary, in enumeration order. */
  function WriteEntries<T>(d: Dict<T>, key: string -> seq<byte>, val: T -> seq<byte>): seq<byte> {
    if d == [] then [] else key(d[0].key) + val(d[0].value) + WriteEntries(d[1..], key, val)
  }

  /** ReverseEngineer.WriteDictionary: the count, then the pairs. */
  function WriteDict<T>(d: Dict<T>, val: T -> seq<byte>): seq<byte> {
    LE32(|d|) + WriteEntries(d, WriteString, val)
  }

  ghost predicate EntriesOk<T>(es: seq<Entry<T>>, key: string -> bool, val: T -> bool) {
    forall i :: 0 <= i < |es| ==> key(es[i].key) && val(es[i].value)
  }

  /** A dictionary the writer can emit and the reader gives back unchanged. */
  ghost predicate DictOk<T>(d: Dict<T>, val: T -> bool) {
    |d| <= Int32Max && DistinctKeys(d) && EntriesOk(d, StringFits, val)
  }

  lemma {:induction false} WriteEntriesAppend<T>(a: Dict<T>, b: Dict<T>, key: string -> seq<byte>, val: T -> seq<byte>)
    ensures WriteEntries(a + b, key, val) == WriteEntries(a, key, val) + WriteEntries(b, key, val)
    decreases |a|
  {
    if a == [] {
      assert a + b == b;
    } else {
      assert (a + b)[0] == a[0];
      assert (a + b)[1..] == a[1..] + b;
      WriteEntriesAppend(a[1..], b, key, val);
    }
  }

  /** One more turn of the WriteDictionary loop. */
  lemma WriteEntriesSnoc<T>(d: Dict<T>, i: nat, key: string -> seq<byte>, val: T -> seq<byte>)
    requires i < |d|
    ensures WriteEntries(d[..i + 1], key, val) == WriteEntries(d[..i], key, val) + key(d[i].key) + val(d[i].value)
  {
    assert d[..i + 1] == d[..i] + [d[i]];
    WriteEntriesAppend(d[..i], [d[i]], key, val);
    assert WriteEntries([d[i]], key, val) == key(d[i].key) + val(d[i].value) + WriteEntries([], key, val);
    Assoc(WriteEntries(d[..i], key, val), key(d[i].key), val(d[i].value));
  }

  /** One turn of the ReadDictionary loop. */
  lemma ReadEntriesStep<T>(strict: bool, n: int, b: seq<byte>, acc: Dict<T>, key: ValueReader<string>, val: ValueReader<T>,
                           k: string, v: T, afterKey: seq<byte>, afterValue: seq<byte>)
    requires n > 0
    requires key(strict, b) == Parsed(k, afterKey) && val(strict, afterKey) == Parsed(v, afterValue)
    requires !(strict && k in Keys(acc))
    ensures ReadEntries(strict, n, b, acc, key, val) == ReadEntries(strict, n - 1, afterValue, Put(acc, k, v), key, val)
  {
  }

  lemma EntriesOkCons<T>(e: Entry<T>, d: Dict<T>, key: string -> bool, val: T -> bool)
    requires key(e.key) && val(e.value) && EntriesOk(d, key, val)
    ensures EntriesOk([e] + d, key, val)
  {
    forall i | 0 <= i < |d| + 1 ensures key(([e] + d)[i].key) && val(([e] + d)[i].value) {
      if i > 0 {
        assert ([e] + d)[i] == d[i - 1];
      }
    }
  }

  lemma WriteEntriesCons<T>(e: Entry<T>, d: Dict<T>, key: string -> seq<byte>, val: T -> seq<byte>)
    ensures WriteEntries([e] + d, key, val) == key(e.key) + val(e.value) + WriteEntries(d, key, val)
  {
    assert ([e] + d)[0] == e && ([e] + d)[1..] == d;
  }

  /** Reading back any written entries replays their assignments; when the
      keys are new and distinct (always required in strict reading) this
      just appends them. */
  lemma {:induction false} ReadWriteEntries<T(!new)>(strict: bool, es: seq<Entry<T>>, acc: Dict<T>, rest: seq<byte>,
                                                     kc: Codec<string>, vc: Codec<T>)
    requires ReadsBack(kc) && ReadsBack(vc)
    requires EntriesOk(es, kc.ok, vc.ok)
    requires strict ==> DistinctKeys(acc + es)
    ensures ReadEntries(strict, |es|, WriteEntries(es, kc.write, vc.write) + rest, acc, kc.read, vc.read)
            == Parsed(PutAll(acc, es), rest)
    decreases |es|
  {
    if es != [] {
      var e := es[0];
      var tail := WriteEntries(es[1..], kc.write, vc.write) + rest;
      var mid := vc.write(e.value) + tail;
      var b := WriteEntries(es, kc.write, vc.write) + rest;
      assert b == kc.write(e.key) + mid;
      assert kc.read(strict, b) == Parsed(e.key, mid) by {
        assert kc.ok(e.key);
      }
      assert vc.read(strict, mid) == Parsed(e.value, tail) by {
        assert vc.ok(e.value);
      }
      assert !(strict && e.key in Keys(acc)) by {
        if strict {
          forall i | 0 <= i < |acc| ensures acc[i].key != e.key {
            assert (acc + es)[i] == acc[i] && (acc + es)[|acc|] == e;
          }
        }
      }
      ReadEntriesStep(strict, |es|, b, acc, kc.read, vc.read, e.key, e.value, mid, tail);
      var acc' := Put(acc, e.key, e.value);
      assert strict ==> DistinctKeys(acc' + es[1..]) by {
        if strict {
          assert acc' == acc + [e];
          assert acc + [e] + es[1..] == acc + es;
        }
      }
      assert EntriesOk(es[1..], kc.ok, vc.ok) by {
        forall i | 0 <= i < |es| - 1 ensures kc.ok(es[1..][i].key) && vc.ok(es[1..][i].value) {
          assert es[1..][i] == es[i + 1];
        }
      }
      ReadWriteEntries(strict, es[1..], acc', rest, kc, vc);
    }
  }

  /** One strictly read entry: lenient reading reads the same, and the bytes
      consumed are exactly the entry's encoding. */
  lemma StrictEntry<T(!new)>(b: seq<byte>, kc: Codec<string>, vc: Codec<T>)
    requires OnlyWritten(kc) && OnlyWritten(vc)
    requires kc.read(true, b).Parsed? && vc.read(true, kc.read(true, b).rest).Parsed?
    ensures var k := kc.read(true, b); var v := vc.read(true, k.rest);
      && kc.read(false, b) == k && vc.read(false, k.rest) == v
      && kc.ok(k.value) && vc.ok(v.value)
      && kc.write(k.value) + vc.write(v.value) + v.rest == b
  {
    var k := kc.read(true, b);
    var v := vc.read(true, k.rest);
    assert kc.write(k.value) + k.rest == b;
    assert vc.write(v.value) + v.rest == k.rest;
    assert kc.write(k.value) + vc.write(v.value) + v.rest == kc.write(k.value) + (vc.write(v.value) + v.rest);
  }

  /** Strict reading agrees with lenient reading. */
  lemma {:induction false} StrictEntriesLenient<T(!new)>(n: int, b: seq<byte>, acc: Dict<T>, kc: Codec<string>, vc: Codec<T>)
    requires OnlyWritten(kc) && OnlyWritten(vc)
    requires ReadEntries(true, n, b, acc, kc.read, vc.read).Parsed?
    ensures ReadEntries(false, n, b, acc, kc.read, vc.read) == ReadEntries(true, n, b, acc, kc.read, vc.read)
    decreases if n < 0 then 0 else n
  {
    if n > 0 {
      var k := kc.read(true, b);
      var v := vc.read(true, k.rest);
      assert kc.read(false, b) == k && vc.read(false, k.rest) == v by {
        StrictEntry(b, kc, vc);
      }
      ReadEntriesStep(true, n, b, acc, kc.read, vc.read, k.value, v.value, k.rest, v.rest);
      ReadEntriesStep(false, n, b, acc, kc.read, vc.read, k.value, v.value, k.rest, v.rest);
      StrictEntriesLenient(n - 1, v.rest, Put(acc, k.value, v.value), kc, vc);
    }
  }

  lemma AppendCons<E>(a: seq<E>, x: E, t: seq<E>)
    ensures a + [x] + t == a + ([x] + t)
  {
  }

  /** What strict reading accepts: the entries read, `es`, are appended to
      `acc`, and the bytes consumed are exactly their encoding. */
  lemma {:induction false} StrictEntriesShape<T(!new)>(n: int, b: seq<byte>, acc: Dict<T>, kc: Codec<string>, vc: Codec<T>)
      returns (es: seq<Entry<T>>)
    requires OnlyWritten(kc) && OnlyWritten(vc)
    requires ReadEntries(true, n, b, acc, kc.read, vc.read).Parsed?
    ensures ReadEntries(true, n, b, acc, kc.read, vc.read).value == acc + es
    ensures |es| == if n < 0 then 0 else n
    ensures EntriesOk(es, kc.ok, vc.ok)
    ensures WriteEntries(es, kc.write, vc.write) + ReadEntries(true, n, b, acc, kc.read, vc.read).rest == b
    decreases if n < 0 then 0 else n
  {
    if n <= 0 {
      es := [];
      assert acc + es == acc;
    } else {
      var k := kc.read(true, b);
      var v := vc.read(true, k.rest);
      var e := Entry(k.value, v.value);
      assert kc.ok(e.key) && vc.ok(e.value) && kc.write(e.key) + vc.write(e.value) + v.rest == b by {
        StrictEntry(b, kc, vc);
      }
      ReadEntriesStep(true, n, b, acc, kc.read, vc.read, k.value, v.value, k.rest, v.rest);
      assert Put(acc, k.value, v.value) == acc + [e];
      var p := ReadEntries(true, n - 1, v.rest, acc + [e], kc.read, vc.read);
      assert ReadEntries(true, n, b, acc, kc.read, vc.read) == p;
      var tail := StrictEntriesShape(n - 1, v.rest, acc + [e], kc, vc);
      es := [e] + tail;
      AppendCons(acc, e, tail);
      assert WriteEntries(es, kc.write, vc.write) + p.rest == b by {
        WriteEntriesCons(e, tail, kc.write, vc.write);
        assert WriteEntries(tail, kc.write, vc.write) + p.rest == v.rest;
      }
      EntriesOkCons(e, tail, kc.ok, vc.ok);
    }
  }

  /** Reading never produces a repeated key: a key read again replaces the
      value in place. */
  lemma {:induction false} EntriesDistinct<T>(strict: bool, n: int, b: seq<byte>, acc: Dict<T>,
                                              key: ValueReader<string>, val: ValueReader<T>)
    requires DistinctKeys(acc)
    requires ReadEntries(strict, n, b, acc, key, val).Parsed?
    ensures DistinctKeys(ReadEntries(strict, n, b, acc, key, val).value)
    decreases if n < 0 then 0 else n
  {
    if n > 0 {
      var k := key(strict, b);
      var v := val(strict, k.rest);
      ReadEntriesStep(strict, n, b, acc, key, val, k.value, v.value, k.rest, v.rest);
      PutDistinct(acc, k.value, v.value);
      EntriesDistinct(strict, n - 1, v.rest, Put(acc, k.value, v.value), key, val);
    }
  }

  /** Every dictionary read, leniently or not, has distinct keys. */
  lemma DictDistinct<T>(strict: bool, b: seq<byte>, val: ValueReader<T>)
    requires ReadDict(strict, b, val).Parsed?
    ensures DistinctKeys(ReadDict(strict, b, val).value)
  {
    EntriesDistinct(strict, ReadInt32(b).value, b[4..], [], StringValue, val);
  }

  /** Distinct-key data reads back to the same ordered dictionary. */
  lemma ReadWriteDict<T(!new)>(strict: bool, d: Dict<T>, rest: seq<byte>, vc: Codec<T>)
    requires ReadsBack(vc)
    requires DictOk(d, vc.ok)
    ensures ReadDict(strict, WriteDict(d, vc.write) + rest, vc.read) == Parsed(d, rest)
  {
    var entries := WriteEntries(d, WriteString, vc.write) + rest;
    assert WriteDict(d, vc.write) + rest == LE32(|d|) + entries;
    ReadDictCount(strict, |d|, entries, vc.read);
    assert [] + d == d;
    StringSound();
    ReadWriteEntries(strict, d, [], rest, StringCodec, vc);
    PutAllDistinct([], d);
  }

  /** Strictly read dictionaries are exactly the writable ones, and writing
      them reproduces the bytes read. */
  lemma StrictDict<T(!new)>(b: seq<byte>, vc: Codec<T>)
    requires OnlyWritten(vc)
    requires ReadDict(true, b, vc.read).Parsed?
    ensures ReadDict(false, b, vc.read) == ReadDict(true, b, vc.read)
    ensures DictOk(ReadDict(true, b, vc.read).value, vc.ok)
    ensures WriteDict(ReadDict(true, b, vc.read).value, vc.write) + ReadDict(true, b, vc.read).rest == b
  {
    var n := FromLE32(b[..4]);
    var entries := b[4..];
    assert b == LE32(n) + entries by {
      LE32OfFromLE32(b[..4]);
      assert b == b[..4] + b[4..];
    }
    ReadDictCount(true, n, entries, vc.read);
    ReadDictCount(false, n, entries, vc.read);
    var r := ReadEntries(true, n, entries, [], StringValue, vc.read);
    assert ReadDict(true, b, vc.read) == r;
    StringSound();
    assert ReadDict(false, b, vc.read) == r by {
      StrictEntriesLenient(n, entries, [], StringCodec, vc);
    }
    var es := StrictEntriesShape(n, entries, [], StringCodec, vc);
    assert r.value == es by {
      assert [] + es == es;
    }
    assert |es| <= Int32Max;
    EntriesDistinct(true, n, entries, [], StringValue, vc.read);
    assert WriteDict(es, vc.write) == LE32(n) + WriteEntries(es, WriteString, vc.write);
  }

  /* ---------------- a repeated key on disk ---------------- */

  ghost predicate LongKeys(key: string -> seq<byte>) {
    forall k :: |key(k)| >= 4
  }

  lemma {:induction false} WriteEntriesUpdateLength<T>(d: Dict<T>, i: nat, e: Entry<T>, key: string -> seq<byte>, val: T -> seq<byte>)
    requires i < |d|
    ensures |WriteEntries(d[i := e], key, val)| + |key(d[i].key)| + |val(d[i].value)|
            == |WriteEntries(d, key, val)| + |key(e.key)| + |val(e.value)|
    decreases |d|
  {
    if i > 0 {
      assert d[i := e][1..] == d[1..][i - 1 := e];
      WriteEntriesUpdateLength(d[1..], i - 1, e, key, val);
    }
  }

  /** Replaying assignments never writes more than the entries assigned, and
      each assignment that overwrote a key saves at least its 4-byte length
      prefix. */
  lemma {:induction false} PutAllWrittenLength<T>(acc: Dict<T>, es: seq<Entry<T>>, key: string -> seq<byte>, val: T -> seq<byte>)
    requires LongKeys(key)
    ensures |PutAll(acc, es)| <= |acc| + |es|
    ensures |WriteEntries(PutAll(acc, es), key, val)| + 4 * (|acc| + |es| - |PutAll(acc, es)|)
            <= |WriteEntries(acc, key, val)| + |WriteEntries(es, key, val)|
    decreases |es|
  {
    PutAllSize(acc, es);
    if es != [] {
      var e := es[0];
      var acc' := Put(acc, e.key, e.value);
      PutAllWrittenLength(acc', es[1..], key, val);
      assert |WriteEntries(es, key, val)| == |key(e.key)| + |val(e.value)| + |WriteEntries(es[1..], key, val)|;
      match IndexOf(acc, e.key)
      case Some(i) =>
        assert acc' == acc[i := Entry(e.key, e.value)];
        WriteEntriesUpdateLength(acc, i, Entry(e.key, e.value), key, val);
        assert |key(acc[i].key)| >= 4;
      case None =>
        assert acc' == acc + [e];
        WriteEntriesAppend(acc, [e], key, val);
        assert WriteEntries([e], key, val) == key(e.key) + val(e.value) + WriteEntries([], key, val);
    }
  }

  /** A dictionary whose stream repeats a key reads back with one entry for
      that key, and writing it back produces a shorter stream. */
  lemma RepeatedKeyShrinks<T(!new)>(es: seq<Entry<T>>, rest: seq<byte>, vc: Codec<T>)
    requires ReadsBack(vc)
    requires EntriesOk(es, StringFits, vc.ok) && |es| <= Int32Max
    requires HasRepeatedKey(es)
    ensures ReadDict(false, LE32(|es|) + WriteEntries(es, WriteString, vc.write) + rest, vc.read) == Parsed(PutAll([], es), rest)
    ensures |PutAll([], es)| < |es|
    ensures |WriteDict(PutAll([], es), vc.write)| < |LE32(|es|) + WriteEntries(es, WriteString, vc.write)|
  {
    var entries := WriteEntries(es, WriteString, vc.write) + rest;
    assert LE32(|es|) + WriteEntries(es, WriteString, vc.write) + rest == LE32(|es|) + entries;
    ReadDictCount(false, |es|, entries, vc.read);
    assert ReadEntries(false, |es|, entries, [], StringValue, vc.read) == Parsed(PutAll([], es), rest) by {
      StringSound();
      ReadWriteEntries(false, es, [], rest, StringCodec, vc);
    }
    PutAllSize([], es);
    assert LongKeys(WriteString) by {
      forall k ensures |WriteString(k)| >= 4 {
      }
    }
    PutAllWrittenLength([], es, WriteString, vc.write);
  }

  /** The count prefix of ReadDictionary. */
  lemma ReadDictCount<T>(strict: bool, count: int32, entries: seq<byte>, val: ValueReader<T>)
    ensures ReadDict(strict, LE32(count) + entries, val)
            == if strict && count < 0 then Failed(NotCanonical) else ReadEntries(strict, count, entries, [], StringValue, val)
  {
    var b := LE32(count) + entries;
    FromLE32OfLE32(count);
    assert b[..4] == LE32(count) && b[4..] == entries;
  }

  /* ---------------- counted lists ---------------- */

  /** A `for` loop that reads `n` more values and appends each to `acc`; a
      non-positive `n` reads nothing. */
  function ReadList<T>(strict: bool, n: int, b: seq<byte>, acc: seq<T>, val: ValueReader<T>): Parsed<seq<T>>
    decreases if n < 0 then 0 else n
  {
    if n <= 0 then Parsed(acc, b)
    else
      var x :- val(strict, b);
      ReadList(strict, n - 1, x.rest, acc + [x.value], val)
  }

  /** A `foreach` loop that writes every value in order. */
  function WriteList<T>(xs: seq<T>, write: T -> seq<byte>): seq<byte> {
    if xs == [] then [] else write(xs[0]) + WriteList(xs[1..], write)
  }

  /** An int32 count followed by that many values, as ParseRecord reads the
      instance list. */
  function ReadCounted<T>(strict: bool, b: seq<byte>, val: ValueReader<T>): Parsed<seq<T>> {
    var n :- ReadInt32(b);
    if strict && n.value < 0 then Failed(NotCanonical)
    else ReadList(strict, n.value, n.rest, [], val)
  }

  /** The list's own length, then its values, as WriteRecord writes the
      instance list. */
  function WriteCounted<T>(xs: seq<T>, write: T -> seq<byte>): seq<byte> {
    LE32(|xs|) + WriteList(xs, write)
  }

  ghost predicate ListOk<T>(xs: seq<T>, ok: T -> bool) {
    forall i :: 0 <= i < |xs| ==> ok(xs[i])
  }

  ghost predicate CountedOk<T>(xs: seq<T>, ok: T -> bool) {
    |xs| <= Int32Max && ListOk(xs, ok)
  }

  lemma ReadListStep<T>(strict: bool, n: int, b: seq<byte>, acc: seq<T>, val: ValueReader<T>, x: T, after: seq<byte>)
    requires n > 0 && val(strict, b) == Parsed(x, after)
    ensures ReadList(strict, n, b, acc, val) == ReadList(strict, n - 1, after, acc + [x], val)
  {
  }

  /** Values that each satisfy `ok` whenever `val` reads one make a list
      that satisfies `ok` throughout. */
  lemma {:induction false} ReadListAll<T>(strict: bool, n: int, b: seq<byte>, acc: seq<T>, val: ValueReader<T>,
                                          ok: T -> bool)
    requires ListOk(acc, ok)
    requires forall c :: val(strict, c).Parsed? ==> ok(val(strict, c).value)
    requires ReadList(strict, n, b, acc, val).Parsed?
    ensures ListOk(ReadList(strict, n, b, acc, val).value, ok)
    decreases if n < 0 then 0 else n
  {
    if n > 0 {
      var x := val(strict, b);
      ReadListStep(strict, n, b, acc, val, x.value, x.rest);
      ReadListAll(strict, n - 1, x.rest, acc + [x.value], val, ok);
    }
  }

  lemma WriteListCons<T>(x: T, xs: seq<T>, write: T -> seq<byte>)
    ensures WriteList([x] + xs, write) == write(x) + WriteList(xs, write)
  {
    assert ([x] + xs)[0] == x && ([x] + xs)[1..] == xs;
  }

  lemma {:induction false} WriteListAppend<T>(xs: seq<T>, ys: seq<T>, write: T -> seq<byte>)
    ensures WriteList(xs + ys, write) == WriteList(xs, write) + WriteList(ys, write)
    decreases |xs|
  {
    if xs == [] {
      assert xs + ys == ys;
    } else {
      assert (xs + ys)[0] == xs[0];
      assert (xs + ys)[1..] == xs[1..] + ys;
      WriteListAppend(xs[1..], ys, write);
    }
  }

  /** One more `foreach` iteration appends one more value's bytes. */
  lemma WriteListSnoc<T>(xs: seq<T>, i: nat, write: T -> seq<byte>)
    requires i < |xs|
    ensures WriteList(xs[..i + 1], write) == WriteList(xs[..i], write) + write(xs[i])
  {
    assert xs[..i + 1] == xs[..i] + [xs[i]];
    WriteListAppend(xs[..i], [xs[i]], write);
    assert WriteList([xs[i]], write) == write(xs[i]) + WriteList([], write);
  }

  /** Written values read back in order, each consuming its own encoding. */
  lemma {:induction false} ReadWriteList<T(!new)>(strict: bool, xs: seq<T>, acc: seq<T>, rest: seq<byte>, c: Codec<T>)
    requires ReadsBack(c) && ListOk(xs, c.ok)
    ensures ReadList(strict, |xs|, WriteList(xs, c.write) + rest, acc, c.read) == Parsed(acc + xs, rest)
    decreases |xs|
  {
    if xs == [] {
      assert acc + xs == acc;
    } else {
      var tail := WriteList(xs[1..], c.write) + rest;
      assert WriteList(xs, c.write) + rest == c.write(xs[0]) + tail;
      assert c.read(strict, c.write(xs[0]) + tail) == Parsed(xs[0], tail) by {
        assert c.ok(xs[0]);
      }
      ReadListStep(strict, |xs|, c.write(xs[0]) + tail, acc, c.read, xs[0], tail);
      assert ListOk(xs[1..], c.ok) by {
        forall i | 0 <= i < |xs| - 1 ensures c.ok(xs[1..][i]) {
          assert xs[1..][i] == xs[i + 1];
        }
      }
      ReadWriteList(strict, xs[1..], acc + [xs[0]], rest, c);
      assert acc + [xs[0]] + xs[1..] == acc + xs;
    }
  }

  /** What strict reading of a list accepts: the values read, `xs`, are
      appended to `acc`, lenient reading reads the same, and the bytes
      consumed are exactly their encoding. */
  lemma {:induction false} StrictList<T(!new)>(n: int, b: seq<byte>, acc: seq<T>, c: Codec<T>) returns (xs: seq<T>)
    requires OnlyWritten(c)
    requires ReadList(true, n, b, acc, c.read).Parsed?
    ensures ReadList(false, n, b, acc, c.read) == ReadList(true, n, b, acc, c.read)
    ensures ReadList(true, n, b, acc, c.read).value == acc + xs
    ensures |xs| == if n < 0 then 0 else n
    ensures ListOk(xs, c.ok)
    ensures WriteList(xs, c.write) + ReadList(true, n, b, acc, c.read).rest == b
    decreases if n < 0 then 0 else n
  {
    if n <= 0 {
      xs := [];
      assert acc + xs == acc;
    } else {
      var x := c.read(true, b);
      assert c.read(false, b) == x && c.ok(x.value) && c.write(x.value) + x.rest == b;
      ReadListStep(true, n, b, acc, c.read, x.value, x.rest);
      ReadListStep(false, n, b, acc, c.read, x.value, x.rest);
      var tail := StrictList(n - 1, x.rest, acc + [x.value], c);
      xs := [x.value] + tail;
      assert acc + [x.value] + tail == acc + xs;
      var p := ReadList(true, n - 1, x.rest, acc + [x.value], c.read);
      assert WriteList(xs, c.write) + p.rest == b by {
        WriteListCons(x.value, tail, c.write);
      }
      assert ListOk(xs, c.ok) by {
        forall i | 0 <= i < |xs| ensures c.ok(xs[i]) {
          if i > 0 {
            assert xs[i] == tail[i - 1];
          }
        }
      }
    }
  }

  lemma ReadCountedCount<T>(strict: bool, count: int32, items: seq<byte>, val: ValueReader<T>)
    ensures ReadCounted(strict, LE32(count) + items, val)
            == if strict && count < 0 then Failed(NotCanonical) else ReadList(strict, count, items, [], val)
  {
    var b := LE32(count) + items;
    FromLE32OfLE32(count);
    assert b[..4] == LE32(count) && b[4..] == items;
  }

  /** A counted list reads back as itself. */
  lemma ReadWriteCounted<T(!new)>(strict: bool, xs: seq<T>, rest: seq<byte>, c: Codec<T>)
    requires ReadsBack(c) && CountedOk(xs, c.ok)
    ensures ReadCounted(strict, WriteCounted(xs, c.write) + rest, c.read) == Parsed(xs, rest)
  {
    var items := WriteList(xs, c.write) + rest;
    assert WriteCounted(xs, c.write) + rest == LE32(|xs|) + items;
    ReadCountedCount(strict, |xs|, items, c.read);
    ReadWriteList(strict, xs, [], rest, c);
    assert [] + xs == xs;
  }

  /** Strictly read counted lists are exactly the writable ones, and writing
      them reproduces the bytes read. */
  lemma StrictCounted<T(!new)>(b: seq<byte>, c: Codec<T>)
    requires OnlyWritten(c)
    requires ReadCounted(true, b, c.read).Parsed?
    ensures ReadCounted(false, b, c.read) == ReadCounted(true, b, c.read)
    ensures CountedOk(ReadCounted(true, b, c.read).value, c.ok)
    ensures WriteCounted(ReadCounted(true, b, c.read).value, c.write) + ReadCounted(true, b, c.read).rest == b
  {
    var n := FromLE32(b[..4]);
    var xs := StrictList(n, b[4..], [], c);
    assert [] + xs == xs;
    LE32OfFromLE32(b[..4]);
    assert b == b[..4] + b[4..];
  }
}
