/** ReverseEngineer.cs as the source writes it: a BinaryReader that
    advances through the stream, a BinaryWriter that appends to it, and the
    ReverseEngineer object whose `modData` field LoadModFile replaces,
    SaveModFile writes out and ApplyToStrings rewrites.

    Each method is proved against the pure codec: a read agrees with the
    lenient (`strict == false`) reading function of ModCodec and leaves the
    reader where that function's rest begins; a write appends exactly the
    bytes of the matching writing function. An exception is an `Err`
    result. */
module Engine {
  import opened Results
  import opened Bytes
  import opened OrderedDict
  import opened Wire
  import opened ModModel
  import opened ModValues
  import opened ModCodec
  import opened ModStrings
  import Utf8

  /** A method's result agrees with the reading function's: the same value
      with the reader standing at the same rest, or the same error. */
  ghost predicate Agrees<T>(r: Result<T, DecodeError>, p: Parsed<T>, rest: seq<byte>) {
    match p
    case Parsed(v, after) => r == Ok(v) && rest == after
    case Failed(e) => r == Err(e)
  }

  /** BinaryReader over the bytes of a file; `rest` is what it has not read
      yet, so its Position is the file length minus `|rest|`. */
  class Reader {
    var rest: seq<byte>

    constructor (data: seq<byte>)
      ensures rest == data
    {
      rest := data;
    }

    method ReadInt32() returns (r: Result<int32, DecodeError>)
      modifies this
      ensures Agrees(r, Wire.ReadInt32(old(rest)), rest)
    {
      if |rest| < 4 {
        return Err(EndOfStream);
      }
      r := Ok(FromLE32(rest[..4]));
      rest := rest[4..];
    }

    method ReadSingle() returns (r: Result<Word, DecodeError>)
      modifies this
      ensures Agrees(r, ReadWord(false, old(rest)), rest)
    {
      if |rest| < 4 {
        return Err(EndOfStream);
      }
      r := Ok(rest[..4]);
      rest := rest[4..];
    }

    method ReadBoolean() returns (r: Result<bool, DecodeError>)
      modifies this
      ensures Agrees(r, ReadBool(false, old(rest)), rest)
    {
      if |rest| < 1 {
        return Err(EndOfStream);
      }
      r := Ok(rest[0] != 0);
      rest := rest[1..];
    }

    method ReadBytes(n: int) returns (r: Result<seq<byte>, DecodeError>)
      modifies this
      ensures Agrees(r, Wire.ReadBytes(n, old(rest)), rest)
    {
      if n < 0 {
        return Err(NegativeLength);
      }
      if |rest| < n {
        return Err(EndOfStream);
      }
      r := Ok(rest[..n]);
      rest := rest[n..];
    }

    /** ReadBytes of everything that is left, as LoadModFile reads the
        Leftover. */
    method ReadToEnd() returns (bytes: seq<byte>)
      modifies this
      ensures bytes == old(rest) && rest == []
    {
      bytes := rest;
      rest := [];
    }

    /** A `readValue` delegate, given by the function it computes. */
    method ReadValue<T>(val: ValueReader<T>) returns (r: Result<T, DecodeError>)
      modifies this
      ensures Agrees(r, val(false, old(rest)), rest)
    {
      match val(false, rest)
      case Failed(e) =>
        return Err(e);
      case Parsed(v, after) =>
        rest := after;
        return Ok(v);
    }
  }

  /** BinaryWriter over a fresh file; `written` is everything written so
      far. */
  class Writer {
    var written: seq<byte>

    constructor ()
      ensures written == []
    {
      written := [];
    }

    /** BinaryWriter.Write(int): the low 32 bits, little-endian. */
    method WriteInt32(v: int)
      modifies this
      ensures written == old(written) + LE32(v)
    {
      written := written + LE32(v);
    }

    method WriteSingle(w: Word)
      modifies this
      ensures written == old(written) + w
    {
      written := written + w;
    }

    method WriteBoolean(v: bool)
      modifies this
      ensures written == old(written) + WriteBool(v)
    {
      written := written + [if v then 1 else 0];
    }

    method WriteBytes(bytes: seq<byte>)
      modifies this
      ensures written == old(written) + bytes
    {
      written := written + bytes;
    }

    /** A `writeValue` delegate, given by the function it computes. */
    method WriteValue<T>(val: T -> seq<byte>, v: T)
      modifies this
      ensures written == old(written) + val(v)
    {
      written := written + val(v);
    }
  }

  class ReverseEngineer {
    var modData: ModData

    /** The records hold C# Dictionaries: no StringFields key repeats. */
    ghost predicate Valid()
      reads this
    {
      FieldKeysDistinct(modData.records)
    }

    constructor ()
      ensures Valid()
      ensures modData == FreshModData
    {
      modData := FreshModData;
    }

    /** ReadString: a length, that many bytes, decoded as UTF-8. */
    method ReadString(reader: Reader) returns (r: Result<string, DecodeError>)
      modifies reader
      ensures Agrees(r, Wire.ReadString(old(reader.rest)), reader.rest)
    {
      var length :- reader.ReadInt32();
      var bytes :- reader.ReadBytes(length);
      match Utf8.Decode(bytes)
      case None =>
        return Err(InvalidUtf8);
      case Some(s) =>
        return Ok(s);
    }

    /** WriteString: the UTF-8 byte count, then the bytes. */
    method WriteString(writer: Writer, s: string)
      modifies writer
      ensures writer.written == old(writer.written) + Wire.WriteString(s)
    {
      var bytes := Utf8.Encode(s);
      writer.WriteInt32(|bytes|);
      writer.WriteBytes(bytes);
    }

    /** ReadDictionary: a count, then `count` keys each followed by its
        value, assigned with `dict[key] = value`. */
    method ReadDictionary<T>(reader: Reader, readValue: ValueReader<T>) returns (r: Result<Dict<T>, DecodeError>)
      modifies reader
      ensures Agrees(r, ReadDict(false, old(reader.rest), readValue), reader.rest)
    {
      var count :- reader.ReadInt32();
      r := ReadPairs(reader, count, StringValue, readValue);
    }

    /** The loop of ReadDictionary, with the key read by `readKey` (every
        dictionary of the format reads its keys as ReadString does). */
    method ReadPairs<T>(reader: Reader, count: int32, readKey: ValueReader<string>, readValue: ValueReader<T>)
      returns (r: Result<Dict<T>, DecodeError>)
      modifies reader
      ensures Agrees(r, ReadEntries(false, count, old(reader.rest), [], readKey, readValue), reader.rest)
    {
      ghost var start := reader.rest;
      var dict: Dict<T> := [];
      var i: int := 0;
      ghost var left: int := count as int;
      while i < count
        invariant left == count as int - i
        invariant ReadEntries(false, left, reader.rest, dict, readKey, readValue)
                  == ReadEntries(false, count, start, [], readKey, readValue)
        decreases count as int - i
      {
        ghost var here := reader.rest;
        var key :- reader.ReadValue(readKey);
        ghost var afterKey := reader.rest;
        var value :- reader.ReadValue(readValue);
        ReadEntriesStep(false, left, here, dict, readKey, readValue, key, value, afterKey, reader.rest);
        dict := Put(dict, key, value);
        i := i + 1;
        left := left - 1;
      }
      return Ok(dict);
    }

    /** WriteDictionary: the count, then each key and value in enumeration
        order. */
    method WriteDictionary<T>(writer: Writer, dict: Dict<T>, writeValue: T -> seq<byte>)
      modifies writer
      ensures writer.written == old(writer.written) + WriteDict(dict, writeValue)
    {
      writer.WriteInt32(|dict|);
      ghost var counted := writer.written;
      for i := 0 to |dict|
        invariant writer.written == counted + WriteEntries(dict[..i], Wire.WriteString, writeValue)
      {
        WriteString(writer, dict[i].key);
        writer.WriteValue(writeValue, dict[i].value);
        WriteEntriesSnoc(dict, i, Wire.WriteString, writeValue);
        Assoc(counted, WriteEntries(dict[..i], Wire.WriteString, writeValue), Wire.WriteString(dict[i].key));
        Assoc(counted, WriteEntries(dict[..i], Wire.WriteString, writeValue) + Wire.WriteString(dict[i].key),
              writeValue(dict[i].value));
      }
      assert dict[..|dict|] == dict;
      Assoc(old(writer.written), LE32(|dict|), WriteEntries(dict, Wire.WriteString, writeValue));
    }

    /** ParseHeader: the file type selects the layout; any other type
        throws. */
    method ParseHeader(reader: Reader) returns (r: Result<Header, DecodeError>)
      modifies reader
      ensures Agrees(r, DecodeHeader(old(reader.rest)), reader.rest)
    {
      var fileType :- reader.ReadInt32();
      if fileType == 16 {
        var modVersion :- reader.ReadInt32();
        var author :- ReadString(reader);
        var description :- ReadString(reader);
        var dependencies :- ReadString(reader);
        var references :- ReadString(reader);
        var unknownInt :- reader.ReadInt32();
        var recordCount :- reader.ReadInt32();
        return Ok(Header16(modVersion, author, description, dependencies, references, unknownInt, recordCount));
      } else if fileType == 17 {
        var detailsLength :- reader.ReadInt32();
        var modVersion :- reader.ReadInt32();
        var details :- reader.ReadBytes(detailsLength);
        var recordCount :- reader.ReadInt32();
        return Ok(Header17(detailsLength, modVersion, details, recordCount));
      } else {
        return Err(UnknownFileType(fileType));
      }
    }

    /** WriteHeader: the file type, then the fields of its layout. */
    method WriteHeader(writer: Writer, header: Header)
      modifies writer
      ensures writer.written == old(writer.written) + EncodeHeader(header)
    {
      ghost var start := writer.written;
      writer.WriteInt32(header.FileType());
      ghost var done := LE32(header.FileType());
      match header
      case Header16(modVersion, author, description, dependencies, references, unknownInt, recordCount) =>
        writer.WriteInt32(modVersion);
        Assoc(start, done, LE32(modVersion));
        done := done + LE32(modVersion);
        WriteString(writer, author);
        Assoc(start, done, Wire.WriteString(author));
        done := done + Wire.WriteString(author);
        WriteString(writer, description);
        Assoc(start, done, Wire.WriteString(description));
        done := done + Wire.WriteString(description);
        WriteString(writer, dependencies);
        Assoc(start, done, Wire.WriteString(dependencies));
        done := done + Wire.WriteString(dependencies);
        WriteString(writer, references);
        Assoc(start, done, Wire.WriteString(references));
        done := done + Wire.WriteString(references);
        writer.WriteInt32(unknownInt);
        Assoc(start, done, LE32(unknownInt));
        done := done + LE32(unknownInt);
        writer.WriteInt32(recordCount);
        Assoc(start, done, LE32(recordCount));
      case Header17(detailsLength, modVersion, details, recordCount) =>
        writer.WriteInt32(detailsLength);
        Assoc(start, done, LE32(detailsLength));
        done := done + LE32(detailsLength);
        writer.WriteInt32(modVersion);
        Assoc(start, done, LE32(modVersion));
        done := done + LE32(modVersion);
        writer.WriteBytes(details);
        Assoc(start, done, details);
        done := done + details;
        writer.WriteInt32(recordCount);
        Assoc(start, done, LE32(recordCount));
    }

    /** A `for (i = 0; i < count; i++) list.Add(read(reader))` loop, as
        ParseRecord reads its instance list: nothing when `count` is not
        positive. */
    method ParseList<T>(reader: Reader, count: int32, readItem: ValueReader<T>) returns (r: Result<seq<T>, DecodeError>)
      modifies reader
      ensures Agrees(r, ReadList(false, count, old(reader.rest), [], readItem), reader.rest)
    {
      ghost var start := reader.rest;
      var list: seq<T> := [];
      var j: int := 0;
      ghost var left: int := count as int;
      while j < count
        invariant left == count as int - j
        invariant ReadList(false, left, reader.rest, list, readItem)
                  == ReadList(false, count, start, [], readItem)
        decreases count as int - j
      {
        ghost var here := reader.rest;
        var item :- reader.ReadValue(readItem);
        ReadListStep(false, left, here, list, readItem, item, reader.rest);
        list := list + [item];
        j := j + 1;
        left := left - 1;
      }
      return Ok(list);
    }

    /** A `for (i = 0; i < count; i++) list.Add(read(reader))` loop into a
        list that outlives it: when a read throws, the list keeps the values
        read before it. */
    method ParsePrefix<T>(reader: Reader, count: int32, readItem: ValueReader<T>)
      returns (list: seq<T>, r: Result<(), DecodeError>)
      modifies reader
      ensures list == ReadPrefix(false, count, old(reader.rest), [], readItem)
      ensures r.Ok? <==> ReadList(false, count, old(reader.rest), [], readItem).Parsed?
      ensures r.Ok? ==> reader.rest == ReadList(false, count, old(reader.rest), [], readItem).rest
      ensures r.Err? ==> r.error == ReadList(false, count, old(reader.rest), [], readItem).error
    {
      ghost var start := reader.rest;
      list := [];
      var j: int := 0;
      ghost var left: int := count as int;
      while j < count
        invariant left == count as int - j
        invariant ReadList(false, left, reader.rest, list, readItem)
                  == ReadList(false, count, start, [], readItem)
        invariant ReadPrefix(false, left, reader.rest, list, readItem)
                  == ReadPrefix(false, count, start, [], readItem)
        decreases count as int - j
      {
        ghost var here := reader.rest;
        var item := reader.ReadValue(readItem);
        if item.Err? {
          ReadPrefixStop(false, left, here, list, readItem);
          return list, Err(item.error);
        }
        ReadListStep(false, left, here, list, readItem, item.value, reader.rest);
        ReadPrefixStep(false, left, here, list, readItem, item.value, reader.rest);
        list := list + [item.value];
        j := j + 1;
        left := left - 1;
      }
      return list, Ok(());
    }

    /** ParseRecord: the six leading fields, the seven field maps, the extra
        data and the instances. */
    method ParseRecord(reader: Reader) returns (r: Result<Record, DecodeError>)
      modifies reader
      ensures Agrees(r, ReadRecord(false, old(reader.rest)), reader.rest)
    {
      ghost var b := reader.rest;
      var instanceCount :- reader.ReadInt32();
      var typeCode :- reader.ReadInt32();
      var id :- reader.ReadInt32();
      var name :- ReadString(reader);
      var stringId :- ReadString(reader);
      var modDataType :- reader.ReadInt32();
      ghost var head := RecordHead(instanceCount, typeCode, id, name, stringId, modDataType);
      ghost var r1 := reader.rest;
      assert ReadRecordHead(b) == Parsed(head, r1);

      var boolFields :- ReadDictionary(reader, ReadBool);
      ghost var m1 := reader.rest;
      var floatFields :- ReadDictionary(reader, ReadWord);
      ghost var m2 := reader.rest;
      var longFields :- ReadDictionary(reader, Int32Value);
      ghost var m3 := reader.rest;
      var vec3Fields :- ReadDictionary(reader, ReadVec3);
      ghost var m4 := reader.rest;
      var vec4Fields :- ReadDictionary(reader, ReadVec4);
      ghost var m5 := reader.rest;
      var stringFields :- ReadDictionary(reader, StringValue);
      ghost var m6 := reader.rest;
      var filenameFields :- ReadDictionary(reader, StringValue);
      ghost var maps := RecordMaps(boolFields, floatFields, longFields, vec3Fields, vec4Fields,
                                   stringFields, filenameFields);
      ghost var r2 := reader.rest;
      ReadRecordMapsParts(false, r1, maps, m1, m2, m3, m4, m5, m6, r2);

      var extraDataFields :- ReadDictionary(reader, ReadCategory);
      ghost var r3 := reader.rest;
      var instanceCount2 :- reader.ReadInt32();
      var instanceFields :- ParseList(reader, instanceCount2, ReadInstance);
      ReadRecordParts(false, b, head, r1, maps, r2, extraDataFields, r3, instanceFields, reader.rest);
      return Ok(Record(instanceCount, typeCode, id, name, stringId, modDataType,
                       boolFields, floatFields, longFields, vec3Fields, vec4Fields,
                       stringFields, filenameFields, extraDataFields, instanceFields));
    }

    /** WriteRecord: the fields in the order ParseRecord reads them, every
        count taken from its collection except the stored InstanceCount. */
    method WriteRecord(writer: Writer, record: Record)
      modifies writer
      ensures writer.written == old(writer.written) + ModCodec.WriteRecord(record)
    {
      ghost var start := writer.written;
      writer.WriteInt32(record.instanceCount);
      ghost var head := LE32(record.instanceCount);
      writer.WriteInt32(record.typeCode);
      Assoc(start, head, LE32(record.typeCode));
      head := head + LE32(record.typeCode);
      writer.WriteInt32(record.id);
      Assoc(start, head, LE32(record.id));
      head := head + LE32(record.id);
      WriteString(writer, record.name);
      Assoc(start, head, Wire.WriteString(record.name));
      head := head + Wire.WriteString(record.name);
      WriteString(writer, record.stringId);
      Assoc(start, head, Wire.WriteString(record.stringId));
      head := head + Wire.WriteString(record.stringId);
      writer.WriteInt32(record.modDataType);
      Assoc(start, head, LE32(record.modDataType));
      head := head + LE32(record.modDataType);
      assert head == WriteRecordHead(HeadOf(record));

      ghost var afterHead := writer.written;
      WriteDictionary(writer, record.boolFields, WriteBool);
      ghost var maps := WriteDict(record.boolFields, WriteBool);
      WriteDictionary(writer, record.floatFields, WriteWord);
      Assoc(afterHead, maps, WriteDict(record.floatFields, WriteWord));
      maps := maps + WriteDict(record.floatFields, WriteWord);
      WriteDictionary(writer, record.longFields, Wire.WriteInt32);
      Assoc(afterHead, maps, WriteDict(record.longFields, Wire.WriteInt32));
      maps := maps + WriteDict(record.longFields, Wire.WriteInt32);
      WriteDictionary(writer, record.vec3Fields, WriteVec3);
      Assoc(afterHead, maps, WriteDict(record.vec3Fields, WriteVec3));
      maps := maps + WriteDict(record.vec3Fields, WriteVec3);
      WriteDictionary(writer, record.vec4Fields, WriteVec4);
      Assoc(afterHead, maps, WriteDict(record.vec4Fields, WriteVec4));
      maps := maps + WriteDict(record.vec4Fields, WriteVec4);
      WriteDictionary(writer, record.stringFields, Wire.WriteString);
      Assoc(afterHead, maps, WriteDict(record.stringFields, Wire.WriteString));
      maps := maps + WriteDict(record.stringFields, Wire.WriteString);
      WriteDictionary(writer, record.filenameFields, Wire.WriteString);
      Assoc(afterHead, maps, WriteDict(record.filenameFields, Wire.WriteString));
      maps := maps + WriteDict(record.filenameFields, Wire.WriteString);
      assert maps == WriteRecordMaps(MapsOf(record));
      Assoc(start, head, maps);

      WriteDictionary(writer, record.extraDataFields, WriteCategory);
      Assoc(start, head + maps, WriteDict(record.extraDataFields, WriteCategory));

      ghost var afterExtra := writer.written;
      writer.WriteInt32(|record.instanceFields|);
      WriteEach(writer, record.instanceFields, WriteInstance);
      Assoc(afterExtra, LE32(|record.instanceFields|), WriteList(record.instanceFields, WriteInstance));
      Assoc(start, head + maps + WriteDict(record.extraDataFields, WriteCategory),
            WriteCounted(record.instanceFields, WriteInstance));
    }

    /** A `foreach (var x in list) write(writer, x)` loop. */
    method WriteEach<T>(writer: Writer, xs: seq<T>, write: T -> seq<byte>)
      modifies writer
      ensures writer.written == old(writer.written) + WriteList(xs, write)
    {
      ghost var start := writer.written;
      for i := 0 to |xs|
        invariant writer.written == start + WriteList(xs[..i], write)
      {
        writer.WriteValue(write, xs[i]);
        WriteListSnoc(xs, i, write);
        Assoc(start, WriteList(xs[..i], write), write(xs[i]));
      }
      assert xs[..|xs|] == xs;
    }

    /** LoadModFile over the bytes of the file. The ModData is replaced
        first, so a file whose header does not parse leaves a fresh one; a
        failure in a record leaves the header in place. */
    method LoadModFile(data: seq<byte>) returns (r: Result<(), DecodeError>)
      modifies this
      ensures Valid()
      ensures r.Ok? <==> DecodeModData(false, data).Ok?
      ensures r.Ok? ==> modData == DecodeModData(false, data).value
      ensures r.Err? ==> r.error == DecodeModData(false, data).error
      ensures DecodeHeader(data).Failed? ==> modData == FreshModData
      ensures DecodeHeader(data).Parsed? ==> modData.header == Some(DecodeHeader(data).value)
      ensures DecodeHeader(data).Parsed? ==>
                modData.records == ReadPrefix(false, DecodeHeader(data).value.recordCount, DecodeHeader(data).rest, [], ReadRecord)
      ensures r.Err? ==> modData.leftover == []
    {
      modData := FreshModData;
      var reader := new Reader(data);
      var header :- ParseHeader(reader);
      modData := modData.(header := Some(header));
      ghost var start := reader.rest;
      r := ParseRecords(reader, header.recordCount);
      if r.Err? {
        return;
      }
      ReadPrefixList(false, header.recordCount, start, [], ReadRecord);
      if |reader.rest| > 0 {
        var leftover := reader.ReadToEnd();
        modData := modData.(leftover := leftover);
      }
      return Ok(());
    }

    /** The `for` loop of LoadModFile: each record parsed is added to
        Records, so a record that cannot be read leaves Records holding the
        ones before it. Each record is read by ReadRecord, which is what
        ParseRecord is proved to compute. */
    method ParseRecords(reader: Reader, recordCount: int32) returns (r: Result<(), DecodeError>)
      modifies this, reader
      ensures Valid()
      ensures modData == old(modData).(records := ReadPrefix(false, recordCount, old(reader.rest), [], ReadRecord))
      ensures r.Ok? <==> ReadList(false, recordCount, old(reader.rest), [], ReadRecord).Parsed?
      ensures r.Ok? ==> reader.rest == ReadList(false, recordCount, old(reader.rest), [], ReadRecord).rest
      ensures r.Err? ==> r.error == ReadList(false, recordCount, old(reader.rest), [], ReadRecord).error
    {
      ghost var start := reader.rest;
      var records;
      records, r := ParsePrefix(reader, recordCount, ReadRecord);
      forall c | ReadRecord(false, c).Parsed? ensures KeysDistinct(ReadRecord(false, c).value) {
        RecordKeysDistinct(false, c);
      }
      ReadPrefixAll(false, recordCount, start, [], ReadRecord, KeysDistinct);
      modData := modData.(records := records);
    }

    /** SaveModFile: the bytes written for the current ModData. With no
        header (nothing loaded) the source dereferences a null Header and
        throws; that is `None`. */
    method SaveModFile() returns (r: Option<seq<byte>>)
      ensures modData.header.None? ==> r.None?
      ensures modData.header.Some? ==> r == Some(EncodeModData(modData))
    {
      if modData.header.None? {
        return None;
      }
      var writer := new Writer();
      WriteHeader(writer, modData.header.value);
      assert writer.written == EncodeHeader(modData.header.value);
      WriteRecords(writer, modData.records);
      writer.WriteBytes(modData.leftover);
      return Some(writer.written);
    }

    /** The `foreach (var record in modData.Records)` loop of SaveModFile. */
    method WriteRecords(writer: Writer, records: seq<Record>)
      modifies writer
      ensures writer.written == old(writer.written) + WriteList(records, ModCodec.WriteRecord)
    {
      ghost var start := writer.written;
      for i := 0 to |records|
        invariant writer.written == start + WriteList(records[..i], ModCodec.WriteRecord)
      {
        WriteRecord(writer, records[i]);
        WriteListSnoc(records, i, ModCodec.WriteRecord);
        Assoc(start, WriteList(records[..i], ModCodec.WriteRecord), ModCodec.WriteRecord(records[i]));
      }
      assert records[..|records|] == records;
    }

    /** ApplyToStrings: `func` applied in place to the Description of a
        type-16 header, then to each record's Name and to each of its
        StringFields values, key by key over a snapshot of the keys. With
        no header the source dereferences a null Header before touching
        anything; that is `false` with nothing changed. */
    method ApplyToStrings(func: string -> string) returns (applied: bool)
      requires Valid()
      modifies this
      ensures Valid()
      ensures applied <==> old(modData).header.Some?
      ensures applied ==> modData == Rewrite(old(modData), Uniform(func))
      ensures !applied ==> modData == old(modData)
    {
      if modData.header.None? {
        return false;
      }
      var header := modData.header.value;
      if header.FileType() == 16 {
        header := header.(description := func(header.description));
      }
      modData := modData.(header := Some(header));
      var records := modData.records;
      for i := 0 to |records|
        invariant modData.header == Some(RewriteHeader(old(modData).header.value, Uniform(func)))
        invariant modData.leftover == old(modData).leftover && records == old(modData).records
        invariant |modData.records| == |records|
        invariant forall k :: 0 <= k < i ==> modData.records[k] == RewriteRecord(records[k], k, Uniform(func))
        invariant forall k :: i <= k < |records| ==> modData.records[k] == records[k]
      {
        var record := modData.records[i];
        record := record.(name := func(record.name));
        assert KeysDistinct(records[i]);
        var fields := RewriteValues(record.stringFields, i, func);
        record := record.(stringFields := fields);
        modData := modData.(records := modData.records[i := record]);
      }
      assert modData.records == RewriteRecords(records, Uniform(func));
      RewriteKeepsDistinct(old(modData), Uniform(func));
      return true;
    }

    /** The inner loop of ApplyToStrings over record `i`'s StringFields:
        `fields[key] = func(fields[key])` for each key in enumeration order. */
    method RewriteValues(fields: Dict<string>, i: nat, func: string -> string) returns (r: Dict<string>)
      requires DistinctKeys(fields)
      ensures r == RewriteFields(fields, i, Uniform(func))
    {
      var keys := Keys(fields);
      r := fields;
      for j := 0 to |keys|
        invariant |r| == |fields|
        invariant forall k :: 0 <= k < j ==> r[k] == Entry(fields[k].key, func(fields[k].value))
        invariant forall k :: j <= k < |fields| ==> r[k] == fields[k]
      {
        assert Keys(r) == keys;
        SameKeysDistinct(fields, r);
        IndexOfDistinct(r, j);
        var value := Get(r, keys[j]).value;
        r := Put(r, keys[j], func(value));
      }
    }
  }
}
