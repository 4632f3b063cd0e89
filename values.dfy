/** The compound values inside a record: the float[3] and float[4] map
    values, the int[3] extra-data items, an extra-data category (a map of
    items) and a placed instance. Each comes with its reader, its writer,
    the values the writer accepts and the proof that they form a sound
    codec. */
module ModValues {
  import opened Bytes
  import opened OrderedDict
  import opened Wire
  import opened ModModel

  /* ---------------- int[3] ---------------- */

  function ReadTriple(strict: bool, b: seq<byte>): Parsed<Triple> {
    var a :- ReadInt32(b);
    var x :- ReadInt32(a.rest);
    var c :- ReadInt32(x.rest);
    Parsed(Triple(a.value, x.value, c.value), c.rest)
  }

  /** The three ints, in order. */
  function WriteTriple(t: Triple): (r: seq<byte>)
    ensures |r| == 12
  {
    LE32(t.a) + LE32(t.b) + LE32(t.c)
  }

  const TripleCodec := Codec(ReadTriple, WriteTriple, Always)

  lemma TripleSound()
    ensures Sound(TripleCodec)
  {
    forall t: Triple, rest: seq<byte>, strict: bool
      ensures ReadTriple(strict, WriteTriple(t) + rest) == Parsed(t, rest)
    {
      var r2 := LE32(t.c) + rest;
      var r1 := LE32(t.b) + r2;
      assert WriteTriple(t) + rest == LE32(t.a) + r1;
      ReadWriteInt32(t.a, r1);
      ReadWriteInt32(t.b, r2);
      ReadWriteInt32(t.c, rest);
    }
    forall b: seq<byte> | ReadTriple(true, b).Parsed?
      ensures WriteTriple(ReadTriple(true, b).value) + ReadTriple(true, b).rest == b
    {
      var a := ReadInt32(b);
      var x := ReadInt32(a.rest);
      var c := ReadInt32(x.rest);
      WriteReadInt32(b);
      WriteReadInt32(a.rest);
      WriteReadInt32(x.rest);
      assert LE32(a.value) + LE32(x.value) + LE32(c.value) + c.rest
          == LE32(a.value) + (LE32(x.value) + (LE32(c.value) + c.rest));
    }
  }

  /* ---------------- float[3] and float[4] ---------------- */

  function ReadVec3(strict: bool, b: seq<byte>): Parsed<Vec3> {
    var x :- ReadWord(strict, b);
    var y :- ReadWord(strict, x.rest);
    var z :- ReadWord(strict, y.rest);
    Parsed(Vec3(x.value, y.value, z.value), z.rest)
  }

  function WriteVec3(v: Vec3): (r: seq<byte>)
    ensures |r| == 12
  {
    v.x + v.y + v.z
  }

  const Vec3Codec := Codec(ReadVec3, WriteVec3, Always)

  lemma Vec3Sound()
    ensures Sound(Vec3Codec)
  {
    forall v: Vec3, rest: seq<byte>, strict: bool
      ensures ReadVec3(strict, WriteVec3(v) + rest) == Parsed(v, rest)
    {
      assert WriteVec3(v) + rest == v.x + (v.y + (v.z + rest));
      ReadWriteWord(strict, v.x, v.y + (v.z + rest));
      ReadWriteWord(strict, v.y, v.z + rest);
      ReadWriteWord(strict, v.z, rest);
    }
    forall b: seq<byte> | ReadVec3(true, b).Parsed?
      ensures WriteVec3(ReadVec3(true, b).value) + ReadVec3(true, b).rest == b
    {
      var x := ReadWord(true, b);
      var y := ReadWord(true, x.rest);
      var z := ReadWord(true, y.rest);
      WriteReadWord(true, b);
      WriteReadWord(true, x.rest);
      WriteReadWord(true, y.rest);
      assert WriteVec3(Vec3(x.value, y.value, z.value)) + z.rest == x.value + (y.value + (z.value + z.rest));
    }
  }

  function ReadVec4(strict: bool, b: seq<byte>): Parsed<Vec4> {
    var x :- ReadWord(strict, b);
    var y :- ReadWord(strict, x.rest);
    var z :- ReadWord(strict, y.rest);
    var w :- ReadWord(strict, z.rest);
    Parsed(Vec4(x.value, y.value, z.value, w.value), w.rest)
  }

  function WriteVec4(v: Vec4): (r: seq<byte>)
    ensures |r| == 16
  {
    v.x + v.y + v.z + v.w
  }

  const Vec4Codec := Codec(ReadVec4, WriteVec4, Always)

  lemma Vec4ReadWrite(strict: bool, v: Vec4, rest: seq<byte>)
    ensures ReadVec4(strict, WriteVec4(v) + rest) == Parsed(v, rest)
  {
    assert WriteVec4(v) + rest == v.x + (v.y + (v.z + (v.w + rest)));
    ReadWriteWord(strict, v.x, v.y + (v.z + (v.w + rest)));
    ReadWriteWord(strict, v.y, v.z + (v.w + rest));
    ReadWriteWord(strict, v.z, v.w + rest);
    ReadWriteWord(strict, v.w, rest);
  }

  lemma Vec4WriteRead(b: seq<byte>)
    requires ReadVec4(true, b).Parsed?
    ensures ReadVec4(false, b) == ReadVec4(true, b)
    ensures WriteVec4(ReadVec4(true, b).value) + ReadVec4(true, b).rest == b
  {
    var x := ReadWord(true, b);
    var y := ReadWord(true, x.rest);
    var z := ReadWord(true, y.rest);
    var w := ReadWord(true, z.rest);
    WriteReadWord(true, b);
    WriteReadWord(true, x.rest);
    WriteReadWord(true, y.rest);
    WriteReadWord(true, z.rest);
    assert WriteVec4(Vec4(x.value, y.value, z.value, w.value)) + w.rest == x.value + (y.value + (z.value + (w.value + w.rest)));
  }

  lemma Vec4Sound()
    ensures Sound(Vec4Codec)
  {
    forall v: Vec4, rest: seq<byte>, strict: bool
      ensures ReadVec4(strict, WriteVec4(v) + rest) == Parsed(v, rest)
    {
      Vec4ReadWrite(strict, v, rest);
    }
    forall b: seq<byte> | ReadVec4(true, b).Parsed?
      ensures ReadVec4(false, b) == ReadVec4(true, b)
      ensures WriteVec4(ReadVec4(true, b).value) + ReadVec4(true, b).rest == b
    {
      Vec4WriteRead(b);
    }
  }

  /* ---------------- extra-data categories ---------------- */

  /** The inner loop of ParseRecord's extra data: an item count, then per
      item its name and three ints, assigned with `catValue[itemName] =`. */
  function ReadCategory(strict: bool, b: seq<byte>): Parsed<Dict<Triple>> {
    ReadDict(strict, b, ReadTriple)
  }

  function WriteCategory(d: Dict<Triple>): seq<byte> {
    WriteDict(d, WriteTriple)
  }

  ghost predicate CategoryOk(d: Dict<Triple>) {
    DictOk(d, Always)
  }

  ghost const CategoryCodec := Codec(ReadCategory, WriteCategory, CategoryOk)

  lemma CategorySound()
    ensures Sound(CategoryCodec)
  {
    TripleSound();
    forall d: Dict<Triple>, rest: seq<byte>, strict: bool | CategoryOk(d)
      ensures ReadCategory(strict, WriteCategory(d) + rest) == Parsed(d, rest)
    {
      ReadWriteDict(strict, d, rest, TripleCodec);
    }
    forall b: seq<byte> | ReadCategory(true, b).Parsed?
      ensures ReadCategory(false, b) == ReadCategory(true, b)
      ensures CategoryOk(ReadCategory(true, b).value)
      ensures WriteCategory(ReadCategory(true, b).value) + ReadCategory(true, b).rest == b
    {
      StrictDict(b, TripleCodec);
    }
  }

  /* ---------------- instances ---------------- */

  /** One iteration of ParseRecord's instance loop: Id, Target, the three
      translation floats, the four rotation floats, StateCount and then
      StateCount strings (none when it is not positive). The seven floats
      are read as a float[3] and a float[4], which consumes the same bytes. */
  function ReadInstance(strict: bool, b: seq<byte>): Parsed<Instance> {
    var id :- ReadString(b);
    var target :- ReadString(id.rest);
    var t :- ReadVec3(strict, target.rest);
    var q :- ReadVec4(strict, t.rest);
    var n :- ReadInt32(q.rest);
    var states :- ReadList(strict, n.value, n.rest, [], StringValue);
    Parsed(Instance(id.value, target.value, t.value.x, t.value.y, t.value.z,
                    q.value.x, q.value.y, q.value.z, q.value.w, n.value, states.value),
           states.rest)
  }

  /** One iteration of WriteRecord's instance loop: the stored StateCount,
      then every state. */
  function WriteInstance(i: Instance): seq<byte> {
    WriteString(i.id) + WriteString(i.target) + WriteVec3(Vec3(i.tx, i.ty, i.tz))
      + WriteVec4(Vec4(i.rw, i.rx, i.ry, i.rz)) + LE32(i.stateCount) + WriteList(i.states, WriteString)
  }

  /** The states a non-negative StateCount announces, or none for a
      negative one. */
  function CountOf(n: int32): nat {
    if n < 0 then 0 else n
  }

  ghost predicate InstanceOk(i: Instance) {
    && StringFits(i.id) && StringFits(i.target)
    && |i.states| == CountOf(i.stateCount)
    && ListOk(i.states, StringFits)
  }

  ghost const InstanceCodec := Codec(ReadInstance, WriteInstance, InstanceOk)

  lemma {:induction false} ReadListLength<T>(strict: bool, n: int, b: seq<byte>, acc: seq<T>, val: ValueReader<T>)
    requires ReadList(strict, n, b, acc, val).Parsed?
    ensures |ReadList(strict, n, b, acc, val).value| == |acc| + if n < 0 then 0 else n
    decreases if n < 0 then 0 else n
  {
    if n > 0 {
      var x := val(strict, b);
      ReadListStep(strict, n, b, acc, val, x.value, x.rest);
      ReadListLength(strict, n - 1, x.rest, acc + [x.value], val);
    }
  }

  /** After a load, an instance holds exactly as many states as its
      StateCount announces (none for a negative count). */
  lemma LoadedStateCount(strict: bool, b: seq<byte>)
    requires ReadInstance(strict, b).Parsed?
    ensures |ReadInstance(strict, b).value.states| == CountOf(ReadInstance(strict, b).value.stateCount)
  {
    var id := ReadString(b);
    var target := ReadString(id.rest);
    var t := ReadVec3(strict, target.rest);
    var q := ReadVec4(strict, t.rest);
    var n := ReadInt32(q.rest);
    ReadListLength(strict, n.value, n.rest, [], StringValue);
  }

  lemma ReadWriteInstance(strict: bool, i: Instance, rest: seq<byte>)
    requires InstanceOk(i)
    ensures ReadInstance(strict, WriteInstance(i) + rest) == Parsed(i, rest)
  {
    var t := Vec3(i.tx, i.ty, i.tz);
    var q := Vec4(i.rw, i.rx, i.ry, i.rz);
    var r5 := WriteList(i.states, WriteString) + rest;
    var r4 := LE32(i.stateCount) + r5;
    var r3 := WriteVec4(q) + r4;
    var r2 := WriteVec3(t) + r3;
    var r1 := WriteString(i.target) + r2;
    WriteInstanceCat(i, rest);
    ReadWriteString(i.id, r1);
    ReadWriteString(i.target, r2);
    assert ReadVec3(strict, r2) == Parsed(t, r3) by {
      Vec3Sound();
    }
    assert ReadVec4(strict, r3) == Parsed(q, r4) by {
      Vec4Sound();
    }
    ReadWriteInt32(i.stateCount, r4);
    assert ReadList(strict, i.stateCount, r5, [], StringValue) == Parsed(i.states, rest) by {
      StringSound();
      ReadWriteList(strict, i.states, [], rest, StringCodec);
      assert [] + i.states == i.states;
    }
  }

  /** WriteInstance followed by more bytes, as the nested concatenation the
      reader takes apart. */
  lemma WriteInstanceCat(i: Instance, rest: seq<byte>)
    ensures WriteInstance(i) + rest
            == WriteString(i.id) + (WriteString(i.target) + (WriteVec3(Vec3(i.tx, i.ty, i.tz))
               + (WriteVec4(Vec4(i.rw, i.rx, i.ry, i.rz)) + (LE32(i.stateCount) + (WriteList(i.states, WriteString) + rest)))))
  {
  }

  /** The state strings of an instance, strictly read. */
  lemma StrictStates(n: int32, b: seq<byte>) returns (xs: seq<string>)
    requires ReadList(true, n, b, [], StringValue).Parsed?
    ensures ReadList(false, n, b, [], StringValue) == ReadList(true, n, b, [], StringValue)
    ensures ReadList(true, n, b, [], StringValue).value == xs
    ensures |xs| == CountOf(n) && ListOk(xs, StringFits)
    ensures WriteList(xs, WriteString) + ReadList(true, n, b, [], StringValue).rest == b
  {
    StringSound();
    xs := StrictList(n, b, [], StringCodec);
    assert [] + xs == xs;
  }

  /** ReadInstance unfolded, given its six parts. */
  lemma ReadInstanceParts(strict: bool, b: seq<byte>, id: string, r1: seq<byte>, target: string, r2: seq<byte>,
                          t: Vec3, r3: seq<byte>, q: Vec4, r4: seq<byte>, n: int32, r5: seq<byte>,
                          states: seq<string>, rest: seq<byte>)
    requires ReadString(b) == Parsed(id, r1) && ReadString(r1) == Parsed(target, r2)
    requires ReadVec3(strict, r2) == Parsed(t, r3) && ReadVec4(strict, r3) == Parsed(q, r4)
    requires ReadInt32(r4) == Parsed(n, r5) && ReadList(strict, n, r5, [], StringValue) == Parsed(states, rest)
    ensures ReadInstance(strict, b) == Parsed(Instance(id, target, t.x, t.y, t.z, q.x, q.y, q.z, q.w, n, states), rest)
  {
  }

  lemma StrictInstance(b: seq<byte>)
    requires ReadInstance(true, b).Parsed?
    ensures ReadInstance(false, b) == ReadInstance(true, b)
    ensures InstanceOk(ReadInstance(true, b).value)
    ensures WriteInstance(ReadInstance(true, b).value) + ReadInstance(true, b).rest == b
  {
    var id := ReadString(b);
    var target := ReadString(id.rest);
    var t := ReadVec3(true, target.rest);
    var q := ReadVec4(true, t.rest);
    var n := ReadInt32(q.rest);
    var states := ReadList(true, n.value, n.rest, [], StringValue);
    ReadInstanceParts(true, b, id.value, id.rest, target.value, target.rest, t.value, t.rest, q.value, q.rest,
                      n.value, n.rest, states.value, states.rest);
    WriteReadString(b);
    WriteReadString(id.rest);
    assert ReadVec3(false, target.rest) == t && WriteVec3(t.value) + t.rest == target.rest by {
      Vec3Sound();
    }
    assert ReadVec4(false, t.rest) == q && WriteVec4(q.value) + q.rest == t.rest by {
      Vec4Sound();
    }
    WriteReadInt32(q.rest);
    var xs := StrictStates(n.value, n.rest);
    ReadInstanceParts(false, b, id.value, id.rest, target.value, target.rest, t.value, t.rest, q.value, q.rest,
                      n.value, n.rest, states.value, states.rest);
    WriteInstanceCat(ReadInstance(true, b).value, states.rest);
  }

  lemma InstanceSound()
    ensures Sound(InstanceCodec)
  {
    forall i: Instance, rest: seq<byte>, strict: bool | InstanceOk(i)
      ensures ReadInstance(strict, WriteInstance(i) + rest) == Parsed(i, rest)
    {
      ReadWriteInstance(strict, i, rest);
    }
    forall b: seq<byte> | ReadInstance(true, b).Parsed?
      ensures ReadInstance(false, b) == ReadInstance(true, b)
      ensures InstanceOk(ReadInstance(true, b).value)
      ensures WriteInstance(ReadInstance(true, b).value) + ReadInstance(true, b).rest == b
    {
      StrictInstance(b);
    }
  }
}
