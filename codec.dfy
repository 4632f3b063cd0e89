/** The .mod file as a whole: ParseHeader/WriteHeader, ParseRecord/
    WriteRecord and LoadModFile/SaveModFile of ReverseEngineer.cs as pure
    functions over byte sequences, and the round trip between them.

    `DecodeModData(false, b)` is what LoadModFile builds from `b`;
    `EncodeModData(m)` is what SaveModFile writes for `m`. A byte sequence
    is well-formed when `DecodeModData(true, b)` succeeds: a known file
    type, no repeated key in any map or category, bool bytes that are 0 or
    1, valid UTF-8 in every string, non-negative map, category, item and
    instance counts, and no truncation. */
module ModCodec {
  import opened Results
  import opened Bytes
  import opened OrderedDict
  import opened Wire
  import opened ModModel
  import opened ModValues

  /* ---------------- header ---------------- */

  /** ParseHeader: the file type, then the fields of that layout; any other
      file type is an error. Nothing in the header is checked beyond that,
      so strict and lenient reading agree on it. */
  function DecodeHeader(b: seq<byte>): Parsed<Header> {
    var t :- ReadInt32(b);
    if t.value == 16 then DecodeHeader16(t.rest)
    else if t.value == 17 then DecodeHeader17(t.rest)
    else Failed(UnknownFileType(t.value))
  }

  /** `case 16` of ParseHeader. */
  function DecodeHeader16(b: seq<byte>): (r: Parsed<Header>)
    ensures r.Parsed? ==> r.value.Header16?
  {
    var version :- ReadInt32(b);
    var author :- ReadString(version.rest);
    var description :- ReadString(author.rest);
    var dependencies :- ReadString(description.rest);
    var references :- ReadString(dependencies.rest);
    var unknown :- ReadInt32(references.rest);
    var count :- ReadInt32(unknown.rest);
    Parsed(Header16(version.value, author.value, description.value, dependencies.value,
                    references.value, unknown.value, count.value), count.rest)
  }

  /** `case 17` of ParseHeader: Details is DetailsLength raw bytes. */
  function DecodeHeader17(b: seq<byte>): (r: Parsed<Header>)
    ensures r.Parsed? ==> r.value.Header17?
  {
    var length :- ReadInt32(b);
    var version :- ReadInt32(length.rest);
    var details :- ReadBytes(length.value, version.rest);
    var count :- ReadInt32(details.rest);
    Parsed(Header17(length.value, version.value, details.value, count.value), count.rest)
  }

  /** WriteHeader. */
  function EncodeHeader(h: Header): seq<byte> {
    match h
    case Header16(version, author, description, dependencies, references, unknown, count) =>
      LE32(16) + LE32(version) + WriteString(author) + WriteString(description)
        + WriteString(dependencies) + WriteString(references) + LE32(unknown) + LE32(count)
    case Header17(length, version, details, count) =>
      LE32(17) + LE32(length) + LE32(version) + details + LE32(count)
  }

  /** The headers EncodeHeader writes so that DecodeHeader reads them back:
      strings that fit their length prefix, and a type-17 DetailsLength
      that is the length of Details. */
  predicate HeaderOk(h: Header) {
    match h
    case Header16(_, author, description, dependencies, references, _, _) =>
      StringFits(author) && StringFits(description) && StringFits(dependencies) && StringFits(references)
    case Header17(length, _, details, _) =>
      |details| == length
  }

  /** A file type other than 16 or 17 is rejected before anything else is
      read. */
  lemma UnknownFileTypeFails(t: int32, rest: seq<byte>)
    requires t != 16 && t != 17
    ensures DecodeHeader(LE32(t) + rest) == Failed(UnknownFileType(t))
  {
    ReadWriteInt32(t, rest);
  }

  /** A decoded header's layout is the one its leading int names. */
  lemma DecodedFileType(b: seq<byte>)
    requires DecodeHeader(b).Parsed?
    ensures |b| >= 4 && DecodeHeader(b).value.FileType() == FromLE32(b[..4])
  {
  }

  lemma EncodeHeader16Cat(h: Header, rest: seq<byte>)
    requires h.Header16?
    ensures EncodeHeader(h) + rest
            == LE32(16) + (LE32(h.modVersion) + (WriteString(h.author) + (WriteString(h.description)
               + (WriteString(h.dependencies) + (WriteString(h.references) + (LE32(h.unknownInt)
               + (LE32(h.recordCount) + rest)))))))
  {
    var a := LE32(16);
    var b := LE32(h.modVersion);
    var c := WriteString(h.author);
    var d := WriteString(h.description);
    var e := WriteString(h.dependencies);
    var f := WriteString(h.references);
    var g := LE32(h.unknownInt);
    var k := LE32(h.recordCount);
    Assoc(a + b + c + d + e + f + g, k, rest);
    Assoc(a + b + c + d + e + f, g, k + rest);
    Assoc(a + b + c + d + e, f, g + (k + rest));
    Assoc(a + b + c + d, e, f + (g + (k + rest)));
    Assoc(a + b + c, d, e + (f + (g + (k + rest))));
    Assoc(a + b, c, d + (e + (f + (g + (k + rest)))));
    Assoc(a, b, c + (d + (e + (f + (g + (k + rest))))));
  }

  lemma EncodeHeader17Cat(h: Header, rest: seq<byte>)
    requires h.Header17?
    ensures EncodeHeader(h) + rest
            == LE32(17) + (LE32(h.detailsLength) + (LE32(h.modVersion) + (h.details + (LE32(h.recordCount) + rest))))
  {
    var a := LE32(17);
    var b := LE32(h.detailsLength);
    var c := LE32(h.modVersion);
    var d := h.details;
    var k := LE32(h.recordCount);
    Assoc(a + b + c + d, k, rest);
    Assoc(a + b + c, d, k + rest);
    Assoc(a + b, c, d + (k + rest));
    Assoc(a, b, c + (d + (k + rest)));
  }

  /** Every writable header reads back as itself. */
  lemma DecodeEncodeHeader(h: Header, rest: seq<byte>)
    requires HeaderOk(h)
    ensures DecodeHeader(EncodeHeader(h) + rest) == Parsed(h, rest)
  {
    match h
    case Header16(version, author, description, dependencies, references, unknown, count) =>
      var r7 := LE32(count) + rest;
      var r6 := LE32(unknown) + r7;
      var r5 := WriteString(references) + r6;
      var r4 := WriteString(dependencies) + r5;
      var r3 := WriteString(description) + r4;
      var r2 := WriteString(author) + r3;
      var r1 := LE32(version) + r2;
      EncodeHeader16Cat(h, rest);
      ReadWriteInt32(16, r1);
      ReadWriteInt32(version, r2);
      ReadWriteString(author, r3);
      ReadWriteString(description, r4);
      ReadWriteString(dependencies, r5);
      ReadWriteString(references, r6);
      ReadWriteInt32(unknown, r7);
      ReadWriteInt32(count, rest);
    case Header17(length, version, details, count) =>
      var r4 := LE32(count) + rest;
      var r3 := details + r4;
      var r2 := LE32(version) + r3;
      var r1 := LE32(length) + r2;
      EncodeHeader17Cat(h, rest);
      ReadWriteInt32(17, r1);
      ReadWriteInt32(length, r2);
      ReadWriteInt32(version, r3);
      assert r3[..|details|] == details && r3[|details|..] == r4;
      ReadWriteInt32(count, rest);
  }

  /** Whatever DecodeHeader accepts is a writable header followed by the
      rest, byte for byte. */
  lemma EncodeDecodeHeader(b: seq<byte>)
    requires DecodeHeader(b).Parsed?
    ensures HeaderOk(DecodeHeader(b).value)
    ensures EncodeHeader(DecodeHeader(b).value) + DecodeHeader(b).rest == b
  {
    var t := ReadInt32(b);
    WriteReadInt32(b);
    if t.value == 16 {
      EncodeDecodeHeader16(t.rest);
    } else {
      EncodeDecodeHeader17(t.rest);
    }
  }

  lemma EncodeDecodeHeader16(b: seq<byte>)
    requires DecodeHeader16(b).Parsed?
    ensures HeaderOk(DecodeHeader16(b).value)
    ensures EncodeHeader(DecodeHeader16(b).value) + DecodeHeader16(b).rest == LE32(16) + b
  {
    var version := ReadInt32(b);
    var author := ReadString(version.rest);
    var description := ReadString(author.rest);
    var dependencies := ReadString(description.rest);
    var references := ReadString(dependencies.rest);
    var unknown := ReadInt32(references.rest);
    var count := ReadInt32(unknown.rest);
    WriteReadInt32(b);
    WriteReadString(version.rest);
    WriteReadString(author.rest);
    WriteReadString(description.rest);
    WriteReadString(dependencies.rest);
    WriteReadInt32(references.rest);
    WriteReadInt32(unknown.rest);
    EncodeHeader16Cat(DecodeHeader16(b).value, count.rest);
  }

  lemma EncodeDecodeHeader17(b: seq<byte>)
    requires DecodeHeader17(b).Parsed?
    ensures HeaderOk(DecodeHeader17(b).value)
    ensures EncodeHeader(DecodeHeader17(b).value) + DecodeHeader17(b).rest == LE32(17) + b
  {
    var length := ReadInt32(b);
    var version := ReadInt32(length.rest);
    var details := ReadBytes(length.value, version.rest);
    var count := ReadInt32(details.rest);
    WriteReadInt32(b);
    WriteReadInt32(length.rest);
    assert details.value + details.rest == version.rest;
    WriteReadInt32(details.rest);
    EncodeHeader17Cat(DecodeHeader17(b).value, count.rest);
  }

  /* ---------------- records ---------------- */

  /** The six leading fields of ParseRecord. */
  datatype RecordHead = RecordHead(instanceCount: int32, typeCode: int32, id: int32, name: string,
                                   stringId: string, modDataType: int32)

  /** The seven field maps of ParseRecord, in the order they are read. */
  datatype RecordMaps = RecordMaps(bools: Dict<bool>, floats: Dict<Word>, longs: Dict<int32>,
                                   vec3s: Dict<Vec3>, vec4s: Dict<Vec4>,
                                   strings: Dict<string>, filenames: Dict<string>)

  function ReadRecordHead(b: seq<byte>): Parsed<RecordHead> {
    var instanceCount :- ReadInt32(b);
    var typeCode :- ReadInt32(instanceCount.rest);
    var id :- ReadInt32(typeCode.rest);
    var name :- ReadString(id.rest);
    var stringId :- ReadString(name.rest);
    var modDataType :- ReadInt32(stringId.rest);
    Parsed(RecordHead(instanceCount.value, typeCode.value, id.value, name.value, stringId.value,
                      modDataType.value), modDataType.rest)
  }

  function WriteRecordHead(h: RecordHead): seq<byte> {
    LE32(h.instanceCount) + LE32(h.typeCode) + LE32(h.id) + WriteString(h.name)
      + WriteString(h.stringId) + LE32(h.modDataType)
  }

  predicate RecordHeadOk(h: RecordHead) {
    StringFits(h.name) && StringFits(h.stringId)
  }

  function ReadRecordMaps(strict: bool, b: seq<byte>): Parsed<RecordMaps> {
    var bools :- ReadDict(strict, b, ReadBool);
    var floats :- ReadDict(strict, bools.rest, ReadWord);
    var longs :- ReadDict(strict, floats.rest, Int32Value);
    var vec3s :- ReadDict(strict, longs.rest, ReadVec3);
    var vec4s :- ReadDict(strict, vec3s.rest, ReadVec4);
    var strings :- ReadDict(strict, vec4s.rest, StringValue);
    var filenames :- ReadDict(strict, strings.rest, StringValue);
    Parsed(RecordMaps(bools.value, floats.value, longs.value, vec3s.value, vec4s.value,
                      strings.value, filenames.value), filenames.rest)
  }

  function WriteRecordMaps(f: RecordMaps): seq<byte> {
    WriteDict(f.bools, WriteBool) + WriteDict(f.floats, WriteWord) + WriteDict(f.longs, WriteInt32)
      + WriteDict(f.vec3s, WriteVec3) + WriteDict(f.vec4s, WriteVec4)
      + WriteDict(f.strings, WriteString) + WriteDict(f.filenames, WriteString)
  }

  ghost predicate RecordMapsOk(f: RecordMaps) {
    && DictOk(f.bools, Always) && DictOk(f.floats, Always) && DictOk(f.longs, Always)
    && DictOk(f.vec3s, Always) && DictOk(f.vec4s, Always)
    && DictOk(f.strings, StringFits) && DictOk(f.filenames, StringFits)
  }

  function HeadOf(r: Record): RecordHead {
    RecordHead(r.instanceCount, r.typeCode, r.id, r.name, r.stringId, r.modDataType)
  }

  function MapsOf(r: Record): RecordMaps {
    RecordMaps(r.boolFields, r.floatFields, r.longFields, r.vec3Fields, r.vec4Fields,
               r.stringFields, r.filenameFields)
  }

  function Assemble(h: RecordHead, f: RecordMaps, extra: Dict<Dict<Triple>>, instances: seq<Instance>): Record {
    Record(h.instanceCount, h.typeCode, h.id, h.name, h.stringId, h.modDataType,
           f.bools, f.floats, f.longs, f.vec3s, f.vec4s, f.strings, f.filenames, extra, instances)
  }

  /** ParseRecord. The extra data is a dictionary of categories, each a
      dictionary of int[3] items, both assigned with the indexer; the
      instance list is an int32 count and that many instances. */
  function ReadRecord(strict: bool, b: seq<byte>): Parsed<Record> {
    var head :- ReadRecordHead(b);
    var maps :- ReadRecordMaps(strict, head.rest);
    var extra :- ReadDict(strict, maps.rest, ReadCategory);
    var instances :- ReadCounted(strict, extra.rest, ReadInstance);
    Parsed(Assemble(head.value, maps.value, extra.value, instances.value), instances.rest)
  }

  /** WriteRecord. InstanceCount goes out as stored; the counts of every
      map, of the categories, of each category's items and of the instance
      list are those of the collections themselves. */
  function WriteRecord(r: Record): seq<byte> {
    WriteRecordHead(HeadOf(r)) + WriteRecordMaps(MapsOf(r)) + WriteDict(r.extraDataFields, WriteCategory)
      + WriteCounted(r.instanceFields, WriteInstance)
  }

  /** The records WriteRecord writes so that ParseRecord reads them back. */
  ghost predicate RecordOk(r: Record) {
    && RecordHeadOk(HeadOf(r)) && RecordMapsOk(MapsOf(r))
    && DictOk(r.extraDataFields, CategoryOk)
    && CountedOk(r.instanceFields, InstanceOk)
  }

  ghost const RecordCodec := Codec(ReadRecord, WriteRecord, RecordOk)

  lemma WriteRecordHeadCat(h: RecordHead, rest: seq<byte>)
    ensures WriteRecordHead(h) + rest
            == LE32(h.instanceCount) + (LE32(h.typeCode) + (LE32(h.id) + (WriteString(h.name)
               + (WriteString(h.stringId) + (LE32(h.modDataType) + rest)))))
  {
    var a := LE32(h.instanceCount);
    var b := LE32(h.typeCode);
    var c := LE32(h.id);
    var d := WriteString(h.name);
    var e := WriteString(h.stringId);
    var f := LE32(h.modDataType);
    Assoc(a + b + c + d + e, f, rest);
    Assoc(a + b + c + d, e, f + rest);
    Assoc(a + b + c, d, e + (f + rest));
    Assoc(a + b, c, d + (e + (f + rest)));
    Assoc(a, b, c + (d + (e + (f + rest))));
  }

  lemma ReadWriteRecordHead(h: RecordHead, rest: seq<byte>)
    requires RecordHeadOk(h)
    ensures ReadRecordHead(WriteRecordHead(h) + rest) == Parsed(h, rest)
  {
    var r5 := LE32(h.modDataType) + rest;
    var r4 := WriteString(h.stringId) + r5;
    var r3 := WriteString(h.name) + r4;
    var r2 := LE32(h.id) + r3;
    var r1 := LE32(h.typeCode) + r2;
    WriteRecordHeadCat(h, rest);
    ReadWriteInt32(h.instanceCount, r1);
    ReadWriteInt32(h.typeCode, r2);
    ReadWriteInt32(h.id, r3);
    ReadWriteString(h.name, r4);
    ReadWriteString(h.stringId, r5);
    ReadWriteInt32(h.modDataType, rest);
  }

  lemma WriteReadRecordHead(b: seq<byte>)
    requires ReadRecordHead(b).Parsed?
    ensures RecordHeadOk(ReadRecordHead(b).value)
    ensures WriteRecordHead(ReadRecordHead(b).value) + ReadRecordHead(b).rest == b
  {
    var instanceCount := ReadInt32(b);
    var typeCode := ReadInt32(instanceCount.rest);
    var id := ReadInt32(typeCode.rest);
    var name := ReadString(id.rest);
    var stringId := ReadString(name.rest);
    var modDataType := ReadInt32(stringId.rest);
    WriteReadInt32(b);
    WriteReadInt32(instanceCount.rest);
    WriteReadInt32(typeCode.rest);
    WriteReadString(id.rest);
    WriteReadString(name.rest);
    WriteReadInt32(stringId.rest);
    WriteRecordHeadCat(ReadRecordHead(b).value, modDataType.rest);
  }

  lemma WriteRecordMapsCat(f: RecordMaps, rest: seq<byte>)
    ensures WriteRecordMaps(f) + rest
            == WriteDict(f.bools, WriteBool) + (WriteDict(f.floats, WriteWord) + (WriteDict(f.longs, WriteInt32)
               + (WriteDict(f.vec3s, WriteVec3) + (WriteDict(f.vec4s, WriteVec4)
               + (WriteDict(f.strings, WriteString) + (WriteDict(f.filenames, WriteString) + rest))))))
  {
    var a := WriteDict(f.bools, WriteBool);
    var b := WriteDict(f.floats, WriteWord);
    var c := WriteDict(f.longs, WriteInt32);
    var d := WriteDict(f.vec3s, WriteVec3);
    var e := WriteDict(f.vec4s, WriteVec4);
    var g := WriteDict(f.strings, WriteString);
    var k := WriteDict(f.filenames, WriteString);
    Assoc(a + b + c + d + e + g, k, rest);
    Assoc(a + b + c + d + e, g, k + rest);
    Assoc(a + b + c + d, e, g + (k + rest));
    Assoc(a + b + c, d, e + (g + (k + rest)));
    Assoc(a + b, c, d + (e + (g + (k + rest))));
    Assoc(a, b, c + (d + (e + (g + (k + rest)))));
  }

  lemma ReadWriteRecordMaps(strict: bool, f: RecordMaps, rest: seq<byte>)
    requires RecordMapsOk(f)
    ensures ReadRecordMaps(strict, WriteRecordMaps(f) + rest) == Parsed(f, rest)
  {
    var r6 := WriteDict(f.filenames, WriteString) + rest;
    var r5 := WriteDict(f.strings, WriteString) + r6;
    var r4 := WriteDict(f.vec4s, WriteVec4) + r5;
    var r3 := WriteDict(f.vec3s, WriteVec3) + r4;
    var r2 := WriteDict(f.longs, WriteInt32) + r3;
    var r1 := WriteDict(f.floats, WriteWord) + r2;
    WriteRecordMapsCat(f, rest);
    assert ReadDict(strict, WriteDict(f.bools, WriteBool) + r1, ReadBool) == Parsed(f.bools, r1) by {
      BoolSound();
      ReadWriteDict(strict, f.bools, r1, BoolCodec);
    }
    assert ReadDict(strict, WriteDict(f.floats, WriteWord) + r2, ReadWord) == Parsed(f.floats, r2) by {
      WordSound();
      ReadWriteDict(strict, f.floats, r2, WordCodec);
    }
    assert ReadDict(strict, WriteDict(f.longs, WriteInt32) + r3, Int32Value) == Parsed(f.longs, r3) by {
      Int32Sound();
      ReadWriteDict(strict, f.longs, r3, Int32Codec);
    }
    assert ReadDict(strict, WriteDict(f.vec3s, WriteVec3) + r4, ReadVec3) == Parsed(f.vec3s, r4) by {
      Vec3Sound();
      ReadWriteDict(strict, f.vec3s, r4, Vec3Codec);
    }
    assert ReadDict(strict, WriteDict(f.vec4s, WriteVec4) + r5, ReadVec4) == Parsed(f.vec4s, r5) by {
      Vec4Sound();
      ReadWriteDict(strict, f.vec4s, r5, Vec4Codec);
    }
    assert ReadDict(strict, WriteDict(f.strings, WriteString) + r6, StringValue) == Parsed(f.strings, r6) by {
      StringSound();
      ReadWriteDict(strict, f.strings, r6, StringCodec);
    }
    assert ReadDict(strict, WriteDict(f.filenames, WriteString) + rest, StringValue) == Parsed(f.filenames, rest) by {
      StringSound();
      ReadWriteDict(strict, f.filenames, rest, StringCodec);
    }
  }

  /** ReadRecordMaps unfolded, given its seven parts. */
  lemma ReadRecordMapsParts(strict: bool, b: seq<byte>, f: RecordMaps,
                            r1: seq<byte>, r2: seq<byte>, r3: seq<byte>, r4: seq<byte>, r5: seq<byte>,
                            r6: seq<byte>, rest: seq<byte>)
    requires ReadDict(strict, b, ReadBool) == Parsed(f.bools, r1)
    requires ReadDict(strict, r1, ReadWord) == Parsed(f.floats, r2)
    requires ReadDict(strict, r2, Int32Value) == Parsed(f.longs, r3)
    requires ReadDict(strict, r3, ReadVec3) == Parsed(f.vec3s, r4)
    requires ReadDict(strict, r4, ReadVec4) == Parsed(f.vec4s, r5)
    requires ReadDict(strict, r5, StringValue) == Parsed(f.strings, r6)
    requires ReadDict(strict, r6, StringValue) == Parsed(f.filenames, rest)
    ensures ReadRecordMaps(strict, b) == Parsed(f, rest)
  {
  }

  lemma StrictRecordMaps(b: seq<byte>)
    requires ReadRecordMaps(true, b).Parsed?
    ensures ReadRecordMaps(false, b) == ReadRecordMaps(true, b)
    ensures RecordMapsOk(ReadRecordMaps(true, b).value)
    ensures WriteRecordMaps(ReadRecordMaps(true, b).value) + ReadRecordMaps(true, b).rest == b
  {
    var bools := ReadDict(true, b, ReadBool);
    var floats := ReadDict(true, bools.rest, ReadWord);
    var longs := ReadDict(true, floats.rest, Int32Value);
    var vec3s := ReadDict(true, longs.rest, ReadVec3);
    var vec4s := ReadDict(true, vec3s.rest, ReadVec4);
    var strings := ReadDict(true, vec4s.rest, StringValue);
    var filenames := ReadDict(true, strings.rest, StringValue);
    var f := RecordMaps(bools.value, floats.value, longs.value, vec3s.value, vec4s.value,
                        strings.value, filenames.value);
    assert ReadRecordMaps(true, b) == Parsed(f, filenames.rest);
    BoolSound();
    StrictDict(b, BoolCodec);
    WordSound();
    StrictDict(bools.rest, WordCodec);
    Int32Sound();
    StrictDict(floats.rest, Int32Codec);
    Vec3Sound();
    StrictDict(longs.rest, Vec3Codec);
    Vec4Sound();
    StrictDict(vec3s.rest, Vec4Codec);
    StringSound();
    StrictDict(vec4s.rest, StringCodec);
    StrictDict(strings.rest, StringCodec);
    ReadRecordMapsParts(false, b, f, bools.rest, floats.rest, longs.rest, vec3s.rest, vec4s.rest,
                        strings.rest, filenames.rest);
    WriteRecordMapsCat(f, filenames.rest);
  }

  lemma WriteRecordCat(r: Record, rest: seq<byte>)
    ensures WriteRecord(r) + rest
            == WriteRecordHead(HeadOf(r)) + (WriteRecordMaps(MapsOf(r)) + (WriteDict(r.extraDataFields, WriteCategory)
               + (WriteCounted(r.instanceFields, WriteInstance) + rest)))
  {
    var a := WriteRecordHead(HeadOf(r));
    var b := WriteRecordMaps(MapsOf(r));
    var c := WriteDict(r.extraDataFields, WriteCategory);
    var d := WriteCounted(r.instanceFields, WriteInstance);
    Assoc(a + b + c, d, rest);
    Assoc(a + b, c, d + rest);
    Assoc(a, b, c + (d + rest));
  }

  /** ReadRecord unfolded, given its four parts. */
  lemma ReadRecordParts(strict: bool, b: seq<byte>, h: RecordHead, r1: seq<byte>, f: RecordMaps, r2: seq<byte>,
                        extra: Dict<Dict<Triple>>, r3: seq<byte>, instances: seq<Instance>, rest: seq<byte>)
    requires ReadRecordHead(b) == Parsed(h, r1)
    requires ReadRecordMaps(strict, r1) == Parsed(f, r2)
    requires ReadDict(strict, r2, ReadCategory) == Parsed(extra, r3)
    requires ReadCounted(strict, r3, ReadInstance) == Parsed(instances, rest)
    ensures ReadRecord(strict, b) == Parsed(Assemble(h, f, extra, instances), rest)
  {
  }

  /** Every writable record reads back as itself: WriteRecord emits the
      fields in the order ParseRecord reads them. */
  lemma ReadWriteRecord(strict: bool, r: Record, rest: seq<byte>)
    requires RecordOk(r)
    ensures ReadRecord(strict, WriteRecord(r) + rest) == Parsed(r, rest)
  {
    var r3 := WriteCounted(r.instanceFields, WriteInstance) + rest;
    var r2 := WriteDict(r.extraDataFields, WriteCategory) + r3;
    var r1 := WriteRecordMaps(MapsOf(r)) + r2;
    WriteRecordCat(r, rest);
    ReadWriteRecordHead(HeadOf(r), r1);
    ReadWriteRecordMaps(strict, MapsOf(r), r2);
    assert ReadDict(strict, r2, ReadCategory) == Parsed(r.extraDataFields, r3) by {
      CategorySound();
      ReadWriteDict(strict, r.extraDataFields, r3, CategoryCodec);
    }
    assert ReadCounted(strict, r3, ReadInstance) == Parsed(r.instanceFields, rest) by {
      InstanceSound();
      ReadWriteCounted(strict, r.instanceFields, rest, InstanceCodec);
    }
    ReadRecordParts(strict, WriteRecord(r) + rest, HeadOf(r), r1, MapsOf(r), r2, r.extraDataFields, r3,
                    r.instanceFields, rest);
  }

  /** Whatever strict ParseRecord accepts, lenient ParseRecord reads the
      same way, and WriteRecord reproduces the bytes consumed. */
  lemma StrictRecord(b: seq<byte>)
    requires ReadRecord(true, b).Parsed?
    ensures ReadRecord(false, b) == ReadRecord(true, b)
    ensures RecordOk(ReadRecord(true, b).value)
    ensures WriteRecord(ReadRecord(true, b).value) + ReadRecord(true, b).rest == b
  {
    var head := ReadRecordHead(b);
    var maps := ReadRecordMaps(true, head.rest);
    var extra := ReadDict(true, maps.rest, ReadCategory);
    var instances := ReadCounted(true, extra.rest, ReadInstance);
    ReadRecordParts(true, b, head.value, head.rest, maps.value, maps.rest, extra.value, extra.rest,
                    instances.value, instances.rest);
    WriteReadRecordHead(b);
    StrictRecordMaps(head.rest);
    assert ReadDict(false, maps.rest, ReadCategory) == extra
        && DictOk(extra.value, CategoryOk) && WriteDict(extra.value, WriteCategory) + extra.rest == maps.rest by {
      CategorySound();
      StrictDict(maps.rest, CategoryCodec);
    }
    assert ReadCounted(false, extra.rest, ReadInstance) == instances
        && CountedOk(instances.value, InstanceOk)
        && WriteCounted(instances.value, WriteInstance) + instances.rest == extra.rest by {
      InstanceSound();
      StrictCounted(extra.rest, InstanceCodec);
    }
    ReadRecordParts(false, b, head.value, head.rest, maps.value, maps.rest, extra.value, extra.rest,
                    instances.value, instances.rest);
    WriteRecordCat(ReadRecord(true, b).value, instances.rest);
  }

  lemma RecordSound()
    ensures Sound(RecordCodec)
  {
    forall r: Record, rest: seq<byte>, strict: bool | RecordOk(r)
      ensures ReadRecord(strict, WriteRecord(r) + rest) == Parsed(r, rest)
    {
      ReadWriteRecord(strict, r, rest);
    }
    forall b: seq<byte> | ReadRecord(true, b).Parsed?
      ensures ReadRecord(false, b) == ReadRecord(true, b)
      ensures RecordOk(ReadRecord(true, b).value)
      ensures WriteRecord(ReadRecord(true, b).value) + ReadRecord(true, b).rest == b
    {
      StrictRecord(b);
    }
  }

  /* ---------------- the whole file ---------------- */

  /** LoadModFile: the header, then exactly RecordCount records (none for a
      non-positive count), then every remaining byte as Leftover. */
  function DecodeModData(strict: bool, b: seq<byte>): Result<ModData, DecodeError> {
    match DecodeHeader(b)
    case Failed(e) => Err(e)
    case Parsed(h, afterHeader) =>
      match ReadList(strict, h.recordCount, afterHeader, [], ReadRecord)
      case Failed(e) => Err(e)
      case Parsed(records, leftover) => Ok(ModData(Some(h), records, leftover))
  }

  /** What a `for` loop that reads `n` more values into `acc` holds when it
      stops: every value, or those read before the first one it could not
      read, where the source throws with the list partly filled. */
  function ReadPrefix<T>(strict: bool, n: int, b: seq<byte>, acc: seq<T>, val: ValueReader<T>): (r: seq<T>)
    ensures acc <= r && |r| <= |acc| + (if n < 0 then 0 else n)
    decreases if n < 0 then 0 else n
  {
    if n <= 0 then acc
    else match val(strict, b)
      case Failed(_) => acc
      case Parsed(x, after) => ReadPrefix(strict, n - 1, after, acc + [x], val)
  }

  lemma ReadPrefixStep<T>(strict: bool, n: int, b: seq<byte>, acc: seq<T>, val: ValueReader<T>, x: T, after: seq<byte>)
    requires n > 0 && val(strict, b) == Parsed(x, after)
    ensures ReadPrefix(strict, n, b, acc, val) == ReadPrefix(strict, n - 1, after, acc + [x], val)
  {
  }

  /** The value the loop cannot read ends it with what it holds. */
  lemma ReadPrefixStop<T>(strict: bool, n: int, b: seq<byte>, acc: seq<T>, val: ValueReader<T>)
    requires n > 0 && val(strict, b).Failed?
    ensures ReadPrefix(strict, n, b, acc, val) == acc
    ensures ReadList(strict, n, b, acc, val) == Failed(val(strict, b).error)
  {
  }

  /** A list read that succeeds keeps every value it read; one that fails
      stops short of `n` values. */
  lemma {:induction false} ReadPrefixList<T>(strict: bool, n: int, b: seq<byte>, acc: seq<T>, val: ValueReader<T>)
    ensures ReadList(strict, n, b, acc, val).Parsed? ==>
              ReadPrefix(strict, n, b, acc, val) == ReadList(strict, n, b, acc, val).value
    ensures ReadList(strict, n, b, acc, val).Failed? ==> |ReadPrefix(strict, n, b, acc, val)| < |acc| + n
    decreases if n < 0 then 0 else n
  {
    if n > 0 {
      match val(strict, b)
      case Failed(_) =>
      case Parsed(x, after) =>
        ReadListStep(strict, n, b, acc, val, x, after);
        ReadPrefixList(strict, n - 1, after, acc + [x], val);
    }
  }

  /** Values that each satisfy `ok` whenever `val` reads one leave a
      prefix that satisfies `ok` throughout. */
  lemma {:induction false} ReadPrefixAll<T>(strict: bool, n: int, b: seq<byte>, acc: seq<T>, val: ValueReader<T>,
                                            ok: T -> bool)
    requires ListOk(acc, ok)
    requires forall c :: val(strict, c).Parsed? ==> ok(val(strict, c).value)
    ensures ListOk(ReadPrefix(strict, n, b, acc, val), ok)
    decreases if n < 0 then 0 else n
  {
    if n > 0 {
      match val(strict, b)
      case Failed(_) =>
      case Parsed(x, after) =>
        assert forall i :: 0 <= i < |acc| ==> (acc + [x])[i] == acc[i];
        ReadPrefixAll(strict, n - 1, after, acc + [x], val, ok);
    }
  }

  /** SaveModFile: the header, each record in list order, then Leftover. */
  function EncodeModData(m: ModData): seq<byte>
    requires m.header.Some?
  {
    EncodeHeader(m.header.value) + WriteList(m.records, WriteRecord) + m.leftover
  }

  /** The ModData that SaveModFile writes so that LoadModFile reads it back:
      a writable header announcing exactly as many records as there are,
      each of them writable. Any Leftover is fine. */
  ghost predicate ModOk(m: ModData) {
    && m.header.Some? && HeaderOk(m.header.value)
    && |m.records| == CountOf(m.header.value.recordCount)
    && ListOk(m.records, RecordOk)
  }

  /** A file whose first int is not 16 or 17 does not load. */
  lemma UnknownFileTypeRejected(strict: bool, t: int32, rest: seq<byte>)
    requires t != 16 && t != 17
    ensures DecodeModData(strict, LE32(t) + rest) == Err(UnknownFileType(t))
  {
    UnknownFileTypeFails(t, rest);
  }

  /** A load yields exactly as many records as the header announces. */
  lemma LoadedRecordCount(strict: bool, b: seq<byte>)
    requires DecodeModData(strict, b).Ok?
    ensures var m := DecodeModData(strict, b).value;
      m.header.Some? && |m.records| == CountOf(m.header.value.recordCount)
  {
    var h := DecodeHeader(b);
    ReadListLength(strict, h.value.recordCount, h.rest, [], ReadRecord);
  }

  lemma EncodeModDataCat(m: ModData)
    requires m.header.Some?
    ensures EncodeModData(m) == EncodeHeader(m.header.value) + (WriteList(m.records, WriteRecord) + m.leftover)
  {
    Assoc(EncodeHeader(m.header.value), WriteList(m.records, WriteRecord), m.leftover);
  }

  /** DecodeModData unfolded, given its two parts. */
  lemma DecodeModDataParts(strict: bool, b: seq<byte>, h: Header, afterHeader: seq<byte>,
                           records: seq<Record>, leftover: seq<byte>)
    requires DecodeHeader(b) == Parsed(h, afterHeader)
    requires ReadList(strict, h.recordCount, afterHeader, [], ReadRecord) == Parsed(records, leftover)
    ensures DecodeModData(strict, b) == Ok(ModData(Some(h), records, leftover))
  {
  }

  /** RecordCount writable records read back as themselves. */
  lemma ReadWriteRecords(strict: bool, n: int32, records: seq<Record>, rest: seq<byte>)
    requires |records| == CountOf(n) && ListOk(records, RecordOk)
    ensures ReadList(strict, n, WriteList(records, WriteRecord) + rest, [], ReadRecord) == Parsed(records, rest)
  {
    RecordSound();
    ReadWriteList(strict, records, [], rest, RecordCodec);
    assert [] + records == records;
  }

  /** Every well-formed ModData survives SaveModFile then LoadModFile. */
  lemma DecodeEncodeModData(strict: bool, m: ModData)
    requires ModOk(m)
    ensures DecodeModData(strict, EncodeModData(m)) == Ok(m)
  {
    var h := m.header.value;
    var body := WriteList(m.records, WriteRecord) + m.leftover;
    EncodeModDataCat(m);
    DecodeEncodeHeader(h, body);
    ReadWriteRecords(strict, h.recordCount, m.records, m.leftover);
    DecodeModDataParts(strict, EncodeModData(m), h, body, m.records, m.leftover);
  }

  /** The records of a strictly read file. */
  lemma StrictRecords(n: int32, b: seq<byte>) returns (records: seq<Record>)
    requires ReadList(true, n, b, [], ReadRecord).Parsed?
    ensures ReadList(false, n, b, [], ReadRecord) == ReadList(true, n, b, [], ReadRecord)
    ensures ReadList(true, n, b, [], ReadRecord).value == records
    ensures |records| == CountOf(n) && ListOk(records, RecordOk)
    ensures WriteList(records, WriteRecord) + ReadList(true, n, b, [], ReadRecord).rest == b
  {
    RecordSound();
    records := StrictList(n, b, [], RecordCodec);
    assert [] + records == records;
  }

  /** The byte-exact round trip: a well-formed file loads the same way under
      the source's lenient reading, and saving what was loaded writes the
      file back byte for byte. */
  lemma EncodeDecodeModData(b: seq<byte>)
    requires DecodeModData(true, b).Ok?
    ensures DecodeModData(false, b) == DecodeModData(true, b)
    ensures ModOk(DecodeModData(true, b).value)
    ensures EncodeModData(DecodeModData(true, b).value) == b
  {
    var h := DecodeHeader(b);
    EncodeDecodeHeader(b);
    var p := ReadList(true, h.value.recordCount, h.rest, [], ReadRecord);
    var records := StrictRecords(h.value.recordCount, h.rest);
    DecodeModDataParts(true, b, h.value, h.rest, records, p.rest);
    DecodeModDataParts(false, b, h.value, h.rest, records, p.rest);
    EncodeModDataCat(ModData(Some(h.value), records, p.rest));
  }
}
