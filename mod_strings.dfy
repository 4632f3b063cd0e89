/** The translatable strings of a ModData: the Description of a type-16
    header, every record Name and every StringFields value. ApplyToStrings
    (ReverseEngineer.cs) and ImportFromDictFile (TranslationDictionary.cs)
    both rewrite exactly these strings and nothing else; `Rewrite` is that
    common shape, with the new value chosen per slot. */
module ModStrings {
  import opened Results
  import opened Bytes
  import opened OrderedDict
  import opened Wire
  import opened ModModel
  import opened ModValues
  import opened ModCodec

  /** Where a translatable string sits. Records are numbered from 0 in
      list order; a field is named by its StringFields key. */
  datatype Slot = DescriptionSlot | NameSlot(record: nat) | FieldSlot(record: nat, key: string)

  /** The new value of the string at a slot, given its current value. */
  type Rewriter = (Slot, string) -> string

  /** The same function at every slot, as ApplyToStrings applies `func`. */
  function Uniform(func: string -> string): Rewriter {
    (slot: Slot, s: string) => func(s)
  }

  function RewriteHeader(h: Header, f: Rewriter): (r: Header)
    ensures r.Header16? == h.Header16?
    ensures h.Header17? ==> r == h
    ensures h.Header16? ==> r == h.(description := f(DescriptionSlot, h.description))
  {
    if h.Header16? then h.(description := f(DescriptionSlot, h.description)) else h
  }

  /** Every value of a StringFields map of record `i` rewritten in place:
      same keys, same order. */
  function RewriteFields(d: Dict<string>, i: nat, f: Rewriter): (r: Dict<string>)
    ensures Keys(r) == Keys(d)
    ensures forall j :: 0 <= j < |d| ==> r[j].value == f(FieldSlot(i, d[j].key), d[j].value)
  {
    seq(|d|, j requires 0 <= j < |d| => Entry(d[j].key, f(FieldSlot(i, d[j].key), d[j].value)))
  }

  function RewriteRecord(r: Record, i: nat, f: Rewriter): Record {
    r.(name := f(NameSlot(i), r.name), stringFields := RewriteFields(r.stringFields, i, f))
  }

  function RewriteRecords(rs: seq<Record>, f: Rewriter): (r: seq<Record>)
    ensures |r| == |rs|
    ensures forall i :: 0 <= i < |rs| ==> r[i] == RewriteRecord(rs[i], i, f)
  {
    seq(|rs|, i requires 0 <= i < |rs| => RewriteRecord(rs[i], i, f))
  }

  /** The ModData with each translatable string replaced by `f` of its slot
      and its current value. A ModData without a header has no Rewrite: both
      callers dereference the header first. */
  function Rewrite(m: ModData, f: Rewriter): (r: ModData)
    requires m.header.Some?
    ensures SameShape(r, m)
  {
    ModData(Some(RewriteHeader(m.header.value, f)), RewriteRecords(m.records, f), m.leftover)
  }

  /* ---------------- what a rewrite leaves alone ---------------- */

  /** The headers agree except, for type 16, in the Description. */
  predicate SameHeaderShape(h: Header, g: Header) {
    if h.Header16? then g.Header16? && h.(description := g.description) == g else h == g
  }

  /** The records agree except in Name and the StringFields values; the
      StringFields keys are the same keys in the same order. */
  predicate SameRecordShape(r: Record, s: Record) {
    r.(name := s.name, stringFields := s.stringFields) == s && Keys(r.stringFields) == Keys(s.stringFields)
  }

  /** `a` and `b` differ at most in their translatable strings. */
  predicate SameShape(a: ModData, b: ModData) {
    && a.leftover == b.leftover
    && a.header.Some? == b.header.Some?
    && (a.header.Some? ==> SameHeaderShape(a.header.value, b.header.value))
    && |a.records| == |b.records|
    && forall i :: 0 <= i < |a.records| ==> SameRecordShape(a.records[i], b.records[i])
  }

  /* ---------------- laws of Rewrite ---------------- */

  /** A rewrite that hands every string of `m` back unchanged leaves `m`
      as it is. */
  lemma RewriteFixes(m: ModData, f: Rewriter)
    requires m.header.Some?
    requires m.header.value.Header16? ==>
               f(DescriptionSlot, m.header.value.description) == m.header.value.description
    requires forall i :: 0 <= i < |m.records| ==> f(NameSlot(i), m.records[i].name) == m.records[i].name
    requires forall i, j :: 0 <= i < |m.records| && 0 <= j < |m.records[i].stringFields| ==>
               var e := m.records[i].stringFields[j]; f(FieldSlot(i, e.key), e.value) == e.value
    ensures Rewrite(m, f) == m
  {
    var r := Rewrite(m, f);
    forall i | 0 <= i < |m.records| ensures r.records[i] == m.records[i] {
      var d := m.records[i].stringFields;
      assert RewriteFields(d, i, f) == d by {
        forall j | 0 <= j < |d| ensures RewriteFields(d, i, f)[j] == d[j] {
          assert Keys(RewriteFields(d, i, f))[j] == Keys(d)[j];
        }
      }
    }
  }

  /** Handing every string back unchanged changes nothing. */
  lemma RewriteIdentity(m: ModData)
    requires m.header.Some?
    ensures Rewrite(m, (slot: Slot, s: string) => s) == m
  {
    RewriteFixes(m, (slot: Slot, s: string) => s);
  }

  /** Two rewrites in a row are one rewrite with the composed function: the
      second sees the slots, keys included, the first left in place. */
  lemma RewriteCompose(m: ModData, f: Rewriter, g: Rewriter)
    requires m.header.Some?
    ensures Rewrite(Rewrite(m, f), g) == Rewrite(m, (slot: Slot, s: string) => g(slot, f(slot, s)))
  {
    var fg := (slot: Slot, s: string) => g(slot, f(slot, s));
    var once := Rewrite(m, f);
    var twice := Rewrite(once, g);
    var direct := Rewrite(m, fg);
    forall i | 0 <= i < |m.records| ensures twice.records[i] == direct.records[i] {
      var d := m.records[i].stringFields;
      assert once.records[i].stringFields == RewriteFields(d, i, f);
      assert RewriteFields(RewriteFields(d, i, f), i, g) == RewriteFields(d, i, fg) by {
        var e := RewriteFields(d, i, f);
        forall j | 0 <= j < |d| ensures e[j].key == d[j].key {
          assert Keys(e)[j] == Keys(d)[j];
        }
      }
    }
  }

  /** Rewritten records keep each StringFields key set free of repeats. */
  lemma RewriteKeepsDistinct(m: ModData, f: Rewriter)
    requires m.header.Some? && FieldKeysDistinct(m.records)
    ensures FieldKeysDistinct(Rewrite(m, f).records)
  {
    var r := Rewrite(m, f);
    forall i | 0 <= i < |r.records| ensures KeysDistinct(r.records[i]) {
      assert KeysDistinct(m.records[i]);
      SameKeysDistinct(m.records[i].stringFields, r.records[i].stringFields);
    }
  }

  /** A well-formed ModData stays well formed when every new string fits
      its int32 length prefix, so what SaveModFile writes after a
      translation loads back as exactly the translated data. */
  lemma RewriteSaves(m: ModData, f: Rewriter)
    requires ModOk(m)
    requires forall slot, s :: StringFits(f(slot, s))
    ensures ModOk(Rewrite(m, f))
    ensures DecodeModData(true, EncodeModData(Rewrite(m, f))) == Ok(Rewrite(m, f))
  {
    var r := Rewrite(m, f);
    forall i | 0 <= i < |r.records| ensures RecordOk(r.records[i]) {
      var a := m.records[i];
      var b := r.records[i];
      assert RecordOk(a);
      assert DictOk(b.stringFields, StringFits) by {
        SameKeysDistinct(a.stringFields, b.stringFields);
        forall j | 0 <= j < |b.stringFields|
          ensures StringFits(b.stringFields[j].key) && StringFits(b.stringFields[j].value)
        {
          assert Keys(a.stringFields)[j] == Keys(b.stringFields)[j];
          assert StringFits(a.stringFields[j].key);
        }
      }
    }
    DecodeEncodeModData(true, r);
  }

  /* ---------------- loaded data has distinct keys ---------------- */

  /** The StringFields map holds each key once, as a C# Dictionary does. */
  ghost predicate KeysDistinct(r: Record) {
    DistinctKeys(r.stringFields)
  }

  ghost predicate FieldKeysDistinct(records: seq<Record>) {
    ListOk(records, KeysDistinct)
  }

  /** A record read from bytes, leniently or not, has no repeated
      StringFields key. */
  lemma RecordKeysDistinct(strict: bool, b: seq<byte>)
    requires ReadRecord(strict, b).Parsed?
    ensures KeysDistinct(ReadRecord(strict, b).value)
  {
    var head := ReadRecordHead(b);
    var bools := ReadDict(strict, head.rest, ReadBool);
    var floats := ReadDict(strict, bools.rest, ReadWord);
    var longs := ReadDict(strict, floats.rest, Int32Value);
    var vec3s := ReadDict(strict, longs.rest, ReadVec3);
    var vec4s := ReadDict(strict, vec3s.rest, ReadVec4);
    DictDistinct(strict, vec4s.rest, StringValue);
  }

  /** Every loaded ModData satisfies FieldKeysDistinct. */
  lemma LoadedKeysDistinct(strict: bool, b: seq<byte>)
    requires DecodeModData(strict, b).Ok?
    ensures FieldKeysDistinct(DecodeModData(strict, b).value.records)
  {
    var h := DecodeHeader(b);
    forall c | ReadRecord(strict, c).Parsed? ensures KeysDistinct(ReadRecord(strict, c).value) {
      RecordKeysDistinct(strict, c);
    }
    ReadListAll(strict, h.value.recordCount, h.rest, [], ReadRecord, KeysDistinct);
  }
}
