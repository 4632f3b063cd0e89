/** The in-memory form of a Kenshi .mod file: ModData, ModHeader,
    ModRecord and ModInstance of ReverseEngineer.cs, as values.

    Floats are opaque 4-byte `Word`s (nothing in the core computes with
    them) and every dictionary is an ordered association list whose order
    is the order in which keys were first assigned. */
module ModModel {
  import opened Results
  import opened Bytes
  import opened OrderedDict

  /** ModHeader. The two layouts carry different fields; FileType is the
      variant. */
  datatype Header =
    | Header16(modVersion: int32, author: string, description: string, dependencies: string,
               references: string, unknownInt: int32, recordCount: int32)
    | Header17(detailsLength: int32, modVersion: int32, details: seq<byte>, recordCount: int32)
  {
    function FileType(): (t: int32)
      ensures t == 16 || t == 17
    {
      if Header16? then 16 else 17
    }
  }

  /** The float[3] value of a Vec3 field. */
  datatype Vec3 = Vec3(x: Word, y: Word, z: Word)

  /** The float[4] value of a Vec4 field. */
  datatype Vec4 = Vec4(x: Word, y: Word, z: Word, w: Word)

  /** The int[3] value of one extra-data item. */
  datatype Triple = Triple(a: int32, b: int32, c: int32)

  /** ModInstance. StateCount is kept as read, separately from States. */
  datatype Instance = Instance(id: string, target: string,
                               tx: Word, ty: Word, tz: Word,
                               rw: Word, rx: Word, ry: Word, rz: Word,
                               stateCount: int32, states: seq<string>)

  /** ModRecord. InstanceCount is the leading int of the record, kept as
      read; the instance list carries its own count. */
  datatype Record = Record(instanceCount: int32, typeCode: int32, id: int32, name: string,
                           stringId: string, modDataType: int32,
                           boolFields: Dict<bool>, floatFields: Dict<Word>, longFields: Dict<int32>,
                           vec3Fields: Dict<Vec3>, vec4Fields: Dict<Vec4>,
                           stringFields: Dict<string>, filenameFields: Dict<string>,
                           extraDataFields: Dict<Dict<Triple>>,
                           instanceFields: seq<Instance>)

  /** ModData. A missing header is the null Header of a fresh ModData; an
      absent Leftover and an empty one are both the empty sequence, since
      neither writes anything. */
  datatype ModData = ModData(header: Option<Header>, records: seq<Record>, leftover: seq<byte>)

  /** What `new ModData()` holds before anything is read. */
  const FreshModData := ModData(None, [], [])
}
