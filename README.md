# Kenshi mod translator: the verified core

KenshiTranslator loads a Kenshi `.mod` file, exports its translatable
strings to a `.dict` line file, fills that file through a translation
service, imports it back and saves the mod. This project models the core of
that pipeline in Dafny and proves properties of the model.

- **The binary codec** (`ReverseEngineer.cs`). A `.mod` file is:
  - a header in one of two layouts, chosen by a leading int32 (16 or 17);
  - exactly `RecordCount` records;
  - an opaque tail (`Leftover`).

  Integers are 4-byte little-endian, bools 1 byte and floats opaque 4-byte
  words. Strings are an int32 byte length followed by UTF-8 (RFC 3629).
  Every `Dictionary<string,T>` is an ordered association list:
  - assigning an existing key keeps its place;
  - a new key is appended.
  
  The pure functions `DecodeModData` and `EncodeModData` (module
  `ModCodec`) define the format. The imperative `ReverseEngineer` class
  (module `Engine`) follows the source method by method, over a
  `BinaryReader` and a `BinaryWriter`, and is proved against them. The
  headline result is the byte-exact round trip in both directions:
  - `EncodeDecodeModData`: every file that reads strictly is written back
    byte for byte;
  - `DecodeEncodeModData`: every well-formed `ModData` is read back as
    itself.
  
  "Strictly" means three things: bool bytes are 0 or 1, no dictionary
  repeats a key, and no map, category, item or instance-list count is
  negative. A negative RecordCount or StateCount reads as no records or no
  states, strictly or not. Lenient reading is the source's behaviour. The two agree on every strictly readable file.
- **`ApplyToStrings`** is one instance of `ModStrings.Rewrite`. Rewrite
  replaces the type-16 Description, every record Name and every StringFields
  value, and nothing else.
- **The translation dictionary** (`Helper/TranslationDictionary.cs`):
  - export to `key|original|` lines;
  - import, where later lines win;
  - the fill loop `ApplyTranslationsAsync`, which has retries, 429 back-off,
    checkpoint writes, progress reports and a `.failed.txt` file;
  - the completion percentage.
  
  The translation function is an oracle indexed by call number. Delays and
  file writes are recorded as values.
- **`CustomApiTranslator`** (`Translator/CustomApiTranslator.cs`):
  - the input check of the constructor;
  - key classification (`DetermineApiType`);
  - the chunk, pad and count-check logic of `TranslateBatchV3Async`, with
    the RPC as a parameter.
- **`ModItem`** (`Helper/ModItem.cs`):
  - the constructor defaults;
  - the composite-icon cache: its key and its lookup, store and dispose
    logic;
  - the mod, `.dict` and `.backup` file paths.

Files: `results.dfy` (Option/Result), `bytes.dfy` (int32 and
little-endian), `utf8.dfy`, `text.dfy` (.NET string and line helpers),
`ordered_dict.dfy`, `wire.dfy` (primitive and container codecs), `values.dfy`,
`model.dfy`, `codec.dfy`, `mod_strings.dfy`, `engine.dfy`, `dict_file.dfy`,
`translations.dfy`, `api_translator.dfy`, `mod_item.dfy`.

## Model

| member | source | states |
|---|---|---|
| Bytes.FromLE32OfLE32 | ReverseEngineer.cs:17-28 | an int32 written as 4 little-endian bytes reads back as itself |
| Bytes.LE32OfFromLE32 | ReverseEngineer.cs:17-28 | any 4 bytes read as an int32 are written back as the same 4 bytes |
| Utf8.DecodeEncode | ReverseEngineer.cs:20-34 | UTF8.GetString of UTF8.GetBytes gives back every string |
| Utf8.EncodeDecode | ReverseEngineer.cs:20-34 | bytes that decode as well-formed UTF-8 are re-encoded to exactly the same bytes |
| Utf8.EncodeDecodeChar | ReverseEngineer.cs:20-34 | a well-formed 1 to 4 byte sequence is the shortest encoding of the scalar value it decodes to |
| Utf8.DecodeEncodeChar | ReverseEngineer.cs:20-34 | the encoding of any scalar value decodes back to it, consuming exactly its own bytes |
| Utf8.Encode | ReverseEngineer.cs:31 | UTF8.GetBytes yields at least one byte per character |
| Utf8.SizeEncode | Translator/CustomApiTranslator.cs:347 | UTF8.GetByteCount equals the number of bytes GetBytes produces |
| Utf8.Size | Translator/CustomApiTranslator.cs:347 | the byte count of a string is at least its character count |
| Wire.ReadWriteInt32 | ReverseEngineer.cs:17-26 | ReadInt32 after Write(int) yields the value and consumes exactly 4 bytes |
| Wire.WriteReadInt32 | ReverseEngineer.cs:17-26 | the 4 bytes ReadInt32 consumed are the encoding of the value it returned |
| Wire.Int32Sound | ReverseEngineer.cs:17-26 | the int32 codec round-trips in both directions, strictly and leniently |
| Wire.ReadWriteWord | ReverseEngineer.cs:18-27 | a float word reads back unchanged, consuming 4 bytes |
| Wire.WriteReadWord | ReverseEngineer.cs:18-27 | the 4 bytes ReadSingle consumed are exactly the word it returned |
| Wire.WordSound | ReverseEngineer.cs:18-27 | the float-word codec round-trips in both directions |
| Wire.BoolSound | ReverseEngineer.cs:19-28 | a written bool reads back; a byte other than 0 or 1 reads as true leniently and is rejected strictly |
| Wire.ReadWriteString | ReverseEngineer.cs:20-34 | a string written as a length plus UTF-8 reads back as itself, consuming exactly 4 + byte length |
| Wire.WriteReadString | ReverseEngineer.cs:20-34 | the bytes ReadString consumed are exactly WriteString of the string it returned |
| Wire.StringSound | ReverseEngineer.cs:20-34 | the string codec round-trips in both directions |
| OrderedDict.Put | ReverseEngineer.cs:42 | `dict[key] = v`: an existing key keeps the length, a new key is appended at the end |
| OrderedDict.PutKeys | ReverseEngineer.cs:42 | after `dict[key] = v` the key order is unchanged for an old key, extended by the key for a new one |
| OrderedDict.PutGet | ReverseEngineer.cs:42 | after `dict[key] = v` the key maps to v and every other key to what it mapped to before |
| OrderedDict.PutDistinct | ReverseEngineer.cs:38-43 | assignment never creates a repeated key |
| OrderedDict.PutAllGet | ReverseEngineer.cs:38-43 | after assigning a sequence of pairs, each key holds the value of its last pair, other keys keep theirs |
| OrderedDict.PutAllOrder | ReverseEngineer.cs:38-43 | the keys of the resulting dictionary are ordered by their first occurrence among the pairs |
| OrderedDict.PutAllSize | ReverseEngineer.cs:38-43 | the result has at most as many entries as were assigned, strictly fewer when a key repeats |
| OrderedDict.PutAllCollapses | ReverseEngineer.cs:38-43 | a pair list with a repeated key collapses to one entry per key: first position, last value, distinct keys |
| OrderedDict.PutAllDistinct | ReverseEngineer.cs:38-43 | assigning pairs whose keys are all new and distinct appends them in order |
| OrderedDict.PutAllKeys | ReverseEngineer.cs:38-43 | after assigning pairs the keys stay distinct and are exactly the old keys plus the assigned ones |
| Wire.ReadWriteDict | ReverseEngineer.cs:35-54 | a dictionary with distinct keys written as count plus pairs reads back as the same ordered dictionary |
| Wire.StrictDict | ReverseEngineer.cs:35-54 | a dictionary read strictly reads the same leniently, has writable entries and re-encodes to exactly the bytes consumed |
| Wire.DictDistinct | ReverseEngineer.cs:35-45 | a dictionary read leniently or strictly never holds a key twice |
| Wire.RepeatedKeyShrinks | ReverseEngineer.cs:35-54 | a repeated key on disk collapses to one entry, and re-encoding the result is strictly shorter than the input |
| Wire.ReadDictCount | ReverseEngineer.cs:37-43 | ReadDictionary reads exactly `count` pairs after the count; strict reading rejects a negative count |
| Wire.EntriesDistinct | ReverseEngineer.cs:39-43 | the read loop keeps the dictionary free of repeated keys at every step |
| Wire.ReadWriteList | ReverseEngineer.cs:171-190 | a list of writable items written one after another reads back in order |
| Wire.StrictList | ReverseEngineer.cs:171-190 | a list read strictly reads the same leniently, has the announced length and re-encodes to the bytes consumed |
| Wire.ReadListStep | ReverseEngineer.cs:171-190 | one iteration of a counted read loop reads one item and leaves count - 1 to go |
| Wire.ReadWriteCounted | ReverseEngineer.cs:172-190 | a counted list (instance list) reads back as itself |
| Wire.StrictCounted | ReverseEngineer.cs:172-190 | a counted list read strictly re-encodes to the bytes consumed |
| ModValues.TripleSound | ReverseEngineer.cs:164 | an extra-data item is exactly three int32s, read and written in that order |
| ModValues.Vec3Sound | ReverseEngineer.cs:149 | a Vec3 value is three float words, read and written in order |
| ModValues.Vec4Sound | ReverseEngineer.cs:150 | a Vec4 value is four float words, read and written in order |
| ModValues.Vec4ReadWrite | ReverseEngineer.cs:150 | a written Vec4 reads back as itself, strictly or leniently |
| ModValues.Vec4WriteRead | ReverseEngineer.cs:150 | the 16 bytes of a Vec4 re-encode unchanged and read the same strictly or leniently |
| ModValues.CategorySound | ReverseEngineer.cs:154-168 | an extra-data category (name to item map of triples) round-trips |
| ModValues.ReadWriteInstance | ReverseEngineer.cs:170-190 | WriteRecord's instance bytes are read back by ParseRecord's instance loop as the same instance |
| ModValues.StrictInstance | ReverseEngineer.cs:170-190 | an instance read strictly re-encodes to exactly the bytes consumed |
| ModValues.LoadedStateCount | ReverseEngineer.cs:185-188 | after a load an instance holds exactly StateCount state strings (none for a negative count) |
| ModValues.StrictStates | ReverseEngineer.cs:185-188 | the state strings read strictly read the same leniently, number CountOf(stateCount) and re-encode to the bytes consumed |
| ModValues.WriteTriple | ReverseEngineer.cs:218-221 | an extra-data item is 12 bytes on disk |
| ModValues.WriteVec3 | ReverseEngineer.cs:206 | a Vec3 value is 12 bytes on disk |
| ModValues.WriteVec4 | ReverseEngineer.cs:207 | a Vec4 value is 16 bytes on disk |
| ModValues.InstanceSound | ReverseEngineer.cs:170-190 | the instance codec round-trips in both directions |
| ModCodec.DecodeHeader16 | ReverseEngineer.cs:94-102 | `case 16` yields a type-16 header |
| ModCodec.DecodeHeader17 | ReverseEngineer.cs:103-108 | `case 17` yields a type-17 header |
| ModCodec.UnknownFileTypeFails | ReverseEngineer.cs:109-110 | any file type other than 16 or 17 fails with that file type |
| ModCodec.DecodedFileType | ReverseEngineer.cs:91-92 | the variant of a parsed header is the leading int32 of the bytes |
| ModCodec.DecodeEncodeHeader | ReverseEngineer.cs:88-135 | WriteHeader's bytes are read back by ParseHeader as the same header, rest untouched |
| ModCodec.EncodeDecodeHeader | ReverseEngineer.cs:88-135 | a header ParseHeader accepts is written back as exactly the bytes it consumed |
| ModCodec.ReadWriteRecordHead | ReverseEngineer.cs:139-144 | the six leading record fields round-trip in their order |
| ModCodec.WriteReadRecordHead | ReverseEngineer.cs:139-201 | the record head bytes ParseRecord consumed are exactly what WriteRecord writes for the head it returned |
| ModCodec.ReadWriteRecordMaps | ReverseEngineer.cs:146-152 | the seven field maps are read in the order WriteRecord writes them |
| ModCodec.StrictRecordMaps | ReverseEngineer.cs:146-152 | strictly read field maps re-encode to exactly their bytes |
| ModCodec.ReadWriteRecord | ReverseEngineer.cs:136-242 | WriteRecord emits fields in exactly the order ParseRecord reads them: a writable record reads back as itself |
| ModCodec.StrictRecord | ReverseEngineer.cs:136-242 | a record read strictly is writable and re-encodes to exactly the bytes consumed, InstanceCount as read |
| ModCodec.RecordSound | ReverseEngineer.cs:136-242 | the record codec round-trips in both directions |
| ModCodec.UnknownFileTypeRejected | ReverseEngineer.cs:57-61 | a file whose first int32 is not 16 or 17 does not load |
| ModCodec.LoadedRecordCount | ReverseEngineer.cs:62-67 | a loaded file holds exactly RecordCount records (none for a non-positive count) |
| ModCodec.ReadWriteRecords | ReverseEngineer.cs:64-67 | records written in list order are read back in list order |
| ModCodec.StrictRecords | ReverseEngineer.cs:64-67 | a record list read strictly re-encodes to exactly the bytes consumed |
| ModCodec.DecodeEncodeModData | ReverseEngineer.cs:55-87 | SaveModFile's bytes load back as the same ModData, Leftover included |
| ModCodec.EncodeDecodeModData | ReverseEngineer.cs:55-87 | encode(decode(b)) == b for every strictly readable file, and lenient reading agrees |
| ModStrings.Rewrite | ReverseEngineer.cs:243-260 | the rewritten ModData differs from the old one at most in Description, Names and StringFields values; keys, order and all other fields are unchanged |
| ModStrings.RewriteFields | ReverseEngineer.cs:253-258 | StringFields keeps its keys in order, each value replaced by `func` of its old value |
| ModStrings.RewriteFixes | ReverseEngineer.cs:243-260 | a rewrite that hands every string back unchanged leaves the ModData as it is |
| ModStrings.RewriteIdentity | ReverseEngineer.cs:243-260 | ApplyToStrings with the identity function changes nothing |
| ModStrings.RewriteCompose | ReverseEngineer.cs:243-260 | two rewrites in a row are one rewrite with the composed function |
| ModStrings.RewriteKeepsDistinct | ReverseEngineer.cs:253-258 | rewriting values keeps every StringFields map free of repeated keys |
| ModStrings.RewriteSaves | ReverseEngineer.cs:243-260 | a well-formed ModData stays well-formed after a rewrite whose strings fit their length prefix, and saves and loads back as the rewritten data |
| ModStrings.RecordKeysDistinct | ReverseEngineer.cs:151 | a loaded record's StringFields has no repeated key |
| ModStrings.LoadedKeysDistinct | ReverseEngineer.cs:61-67 | every loaded ModData has distinct StringFields keys in every record |
| Engine.Reader.ReadInt32 | ReverseEngineer.cs:17 | returns the int32 at the front and advances 4 bytes, or fails on a short stream |
| Engine.Reader.ReadSingle | ReverseEngineer.cs:18 | returns the next 4-byte float word and advances past it |
| Engine.Reader.ReadBoolean | ReverseEngineer.cs:19 | returns true for any non-zero byte and advances one byte |
| Engine.Reader.ReadBytes | ReverseEngineer.cs:23 | returns the next n bytes and advances past them |
| Engine.Reader.ReadToEnd | ReverseEngineer.cs:69-72 | returns every remaining byte and leaves the reader at the end |
| Engine.Reader.constructor | ReverseEngineer.cs:58-59 | a reader over a file starts at its first byte |
| Engine.Reader.ReadValue | ReverseEngineer.cs:146-190 | reading a value advances exactly as the value codec consumes and returns its result |
| Engine.Writer.WriteInt32 | ReverseEngineer.cs:26 | appends the 4 little-endian bytes of the value |
| Engine.Writer.WriteSingle | ReverseEngineer.cs:27 | appends the float's 4 bytes |
| Engine.Writer.WriteBoolean | ReverseEngineer.cs:28 | appends one byte, 1 for true and 0 for false |
| Engine.Writer.WriteBytes | ReverseEngineer.cs:86 | appends the bytes verbatim |
| Engine.Writer.constructor | ReverseEngineer.cs:78-79 | a new writer has written nothing |
| Engine.Writer.WriteValue | ReverseEngineer.cs:203-241 | writing a value appends exactly its encoding |
| Engine.ReverseEngineer.constructor | ReverseEngineer.cs:13-16 | a new ReverseEngineer holds a fresh ModData with no header |
| Engine.ReverseEngineer.ReadString | ReverseEngineer.cs:20-25 | reads a length, that many bytes and decodes them, agreeing with the codec and advancing by what it consumed |
| Engine.ReverseEngineer.WriteString | ReverseEngineer.cs:29-34 | appends the byte length then the UTF-8 bytes |
| Engine.ReverseEngineer.ReadDictionary | ReverseEngineer.cs:35-45 | the for-loop over `count` agrees with the dictionary codec: later duplicates overwrite in place |
| Engine.ReverseEngineer.ReadPairs | ReverseEngineer.cs:39-43 | the loop body reads key then value `count` times, agreeing with the entry reader |
| Engine.ReverseEngineer.WriteDictionary | ReverseEngineer.cs:46-54 | appends the count then each pair in enumeration order |
| Engine.ReverseEngineer.ParseHeader | ReverseEngineer.cs:88-113 | agrees with DecodeHeader, including the failure on an unknown file type |
| Engine.ReverseEngineer.WriteHeader | ReverseEngineer.cs:114-135 | appends exactly the header encoding |
| Engine.ReverseEngineer.ParseList | ReverseEngineer.cs:155-190 | each counted read loop agrees with the list codec |
| Engine.ReverseEngineer.ParseRecord | ReverseEngineer.cs:136-193 | agrees with the record codec, field by field in the source's order |
| Engine.ReverseEngineer.WriteRecord | ReverseEngineer.cs:194-242 | appends exactly the record encoding; map, category and instance counts are recomputed from the collections |
| Engine.ReverseEngineer.WriteEach | ReverseEngineer.cs:227-241 | a foreach of writes appends each item's bytes in list order |
| Engine.ReverseEngineer.LoadModFile | ReverseEngineer.cs:55-75 | succeeds exactly when the codec does, then holds the decoded ModData; a bad header leaves the fresh ModData; a bad record leaves the header, the records read before it and no leftover |
| Engine.ReverseEngineer.ParseRecords | ReverseEngineer.cs:62-67 | Records ends as the records read before the first failure, or all of them; the loop fails exactly when the list codec does |
| Engine.ReverseEngineer.ParsePrefix | ReverseEngineer.cs:63-67 | a loop that adds each value read to a list keeps the values read before a failing read |
| ModCodec.ReadPrefix | ReverseEngineer.cs:62-67 | what the record loop leaves in Records: it extends what was there and holds at most the count |
| ModCodec.ReadPrefixList | ReverseEngineer.cs:62-67 | a successful loop keeps every record the list codec reads; a failing one keeps fewer than the count |
| ModCodec.ReadPrefixStop | ReverseEngineer.cs:63-67 | a record that cannot be read ends the loop with the records already added |
| ModCodec.ReadPrefixAll | ReverseEngineer.cs:62-67 | if every value read satisfies a property, so does every value the loop keeps |
| Engine.ReverseEngineer.SaveModFile | ReverseEngineer.cs:76-87 | writes exactly EncodeModData of the current data; with no header it fails |
| Engine.ReverseEngineer.WriteRecords | ReverseEngineer.cs:82-83 | writes the records in list order |
| Engine.ReverseEngineer.ApplyToStrings | ReverseEngineer.cs:243-260 | replaces exactly the translatable strings by `func` of their old value and keeps the key invariant; with no header it fails and changes nothing |
| Engine.ReverseEngineer.RewriteValues | ReverseEngineer.cs:253-258 | the key-list loop rewrites each StringFields value in place, same keys and order |
| Text.JoinSplit | Helper/TranslationDictionary.cs:114-153 | `string.Join('\|', line.Split('\|'))` gives back the line |
| Text.SplitJoin | Helper/TranslationDictionary.cs:114-153 | splitting a join of separator-free parts gives back the parts |
| Text.ReadWriteLines | Helper/TranslationDictionary.cs:107-164 | File.ReadAllLines of what File.WriteAllLines wrote gives back the lines, if none holds a line break |
| Text.DecimalInjective | Helper/TranslationDictionary.cs:32 | different record indices print as different decimal texts |
| Text.Utf16Length | Translator/CustomApiTranslator.cs:61-70 | string.Length counts UTF-16 code units: between the number of characters and twice it |
| Text.Utf16LengthBmp | Translator/CustomApiTranslator.cs:61-70 | Length equals the number of characters exactly when none lies above U+FFFF |
| Text.Utf16LengthAppend | Translator/CustomApiTranslator.cs:61-70 | the Length of a concatenation is the sum of the Lengths |
| Text.BlankTrim | Helper/TranslationDictionary.cs:54-64 | a string is IsNullOrWhiteSpace exactly when its Trim is empty |
| DictFile.RecordKeyInjective | Helper/TranslationDictionary.cs:32-38 | `record{i}_{k}` keys of different records or different field keys never coincide |
| DictFile.DescriptionNotRecordKey | Helper/TranslationDictionary.cs:25-38 | the description key is never a record key |
| DictFile.ParseAppend | Helper/TranslationDictionary.cs:52-65 | reading a file in two parts is the union of the parts' translations, the later part winning |
| DictFile.LastLineWins | Helper/TranslationDictionary.cs:52-65 | each line adds its trimmed key and value on top of what came before; blank and one-field lines add nothing |
| DictFile.SplitExportLine | Helper/TranslationDictionary.cs:25-38 | an exported line splits into its key, its original and an empty third field |
| DictFile.ExportLineEntry | Helper/TranslationDictionary.cs:25-64 | an exported line is imported as its key mapped to its original |
| DictFile.HeaderLinesParse | Helper/TranslationDictionary.cs:24-25 | only a type-16 header contributes the `description` entry |
| DictFile.RecordLinesParse | Helper/TranslationDictionary.cs:31-39 | a record's lines give its name under `record{i}_name`, then its field entries |
| DictFile.FieldLinesValue | Helper/TranslationDictionary.cs:34-38 | a non-empty field value is read back under its record key; an empty one leaves no entry |
| DictFile.RecordsLinesLookup | Helper/TranslationDictionary.cs:28-41 | a key of record i is read from record i's lines alone |
| DictFile.ImportIdempotent | Helper/TranslationDictionary.cs:67-99 | importing the same translations twice is importing them once |
| DictFile.ExportReadBack | Helper/TranslationDictionary.cs:19-49 | the lines written by the export are exactly the lines File.ReadAllLines returns |
| DictFile.ExportLinesFresh | Helper/TranslationDictionary.cs:19-42 | every exported line is a single non-blank line with an empty third field |
| DictFile.ExportedDescription | Helper/TranslationDictionary.cs:24-25 | the exported description is read back as itself |
| DictFile.ExportedRecordKey | Helper/TranslationDictionary.cs:28-41 | the whole export gives a record key the same entry as that record's lines alone |
| DictFile.ExportedName | Helper/TranslationDictionary.cs:31-32 | without a `name` field, a record's name is read back as itself, even when empty |
| DictFile.ExportedField | Helper/TranslationDictionary.cs:34-38 | a field is exported and read back exactly when its value is non-empty |
| DictFile.ImportExport | Helper/TranslationDictionary.cs:19-99 | importing a freshly exported, untranslated file leaves the model unchanged (strings without `\|`, line breaks or outer whitespace, no `name` field) |
| DictFile.ImportExportLines | Helper/TranslationDictionary.cs:19-99 | the same over the exported lines before they reach the file |
| DictFile.LookupFixes | Helper/TranslationDictionary.cs:67-99 | translations that already hold every current string change nothing |
| DictFile.NameCollision | Helper/TranslationDictionary.cs:32-95 | a string field keyed `name` shares its key with the record name; after export and import both hold the field's text |
| DictFile.LookupCollision | Helper/TranslationDictionary.cs:80-95 | when the shared key holds the field's text, import gives both the name and the field that text |
| DictFile.NonBlankLines | Helper/TranslationDictionary.cs:173-175 | the filtered lines are all non-blank and no more than the file's lines |
| DictFile.CountTranslated | Helper/TranslationDictionary.cs:179 | the translated count is at most the number of lines |
| DictFile.CeilAtMost | Helper/TranslationDictionary.cs:182 | the percentage ceiling lies in 0..100 |
| DictFile.TranslationProgress | Helper/TranslationDictionary.cs:169-183 | 0 for a missing file, 100 with no non-blank line, otherwise the least p with 100·t ≤ p·n, within 0..100 |
| DictFile.ProgressNone | Helper/TranslationDictionary.cs:177-182 | a non-empty file with nothing translated is at 0 |
| DictFile.ExportLinesEmpty | Helper/TranslationDictionary.cs:19-42 | the export is empty exactly for a type-17 file without records |
| DictFile.FreshExportProgress | Helper/TranslationDictionary.cs:169-183 | a fresh export is at 0 unless it is empty, where it is at 100 |
| Translations.ReadOneMore | Helper/TranslationDictionary.cs:52-65 | one more line of the file updates the translations by that line's entry only |
| Translations.TranslationDictionary.constructor | Helper/TranslationDictionary.cs:11-16 | holds the given ReverseEngineer and no translations |
| Translations.TranslationDictionary.ExportToDictFile | Helper/TranslationDictionary.cs:19-42 | writes exactly the export lines: description for type 16, then per record its name line and one line per non-empty field; with no header, an empty file and a failure |
| Translations.TranslationDictionary.ImportFromDictFile | Helper/TranslationDictionary.cs:43-100 | a missing file fails before anything changes; otherwise the translations are the parsed file and the model is the import of them, or unchanged with no header |
| Translations.TranslationDictionary.LoadTranslations | Helper/TranslationDictionary.cs:48-65 | the cleared dictionary is refilled line by line to the parsed file |
| Translations.TranslationDictionary.ApplyLoaded | Helper/TranslationDictionary.cs:67-99 | the description, names and existing field values take their non-blank translations, nothing else changes, keys stay distinct |
| Translations.TranslationDictionary.ImportValues | Helper/TranslationDictionary.cs:87-97 | each existing field value takes its non-blank translation, keys and order unchanged |
| Translations.Attempt | Helper/TranslationDictionary.cs:124-140 | at most 3 calls, each back-off delay is 1000, 2000 or 3000 ms, and a translated end is never blank |
| Translations.TranslateWithRetries | Helper/TranslationDictionary.cs:124-140 | the retry loop ends as the retry specification says: first non-blank result, a 429 back-off of (attempt+1)·1000 ms, other exceptions end it |
| Translations.ApplyTranslations | Helper/TranslationDictionary.cs:101-168 | the line loop produces exactly the specified run and `.failed.txt` contents |
| Translations.StepsStop | Helper/TranslationDictionary.cs:157 | once `i % batchSize` has thrown, nothing more happens |
| Translations.StepLine | Helper/TranslationDictionary.cs:112-153 | one step changes only line i, and that line is kept or gets a non-blank third field |
| Translations.StepsLines | Helper/TranslationDictionary.cs:112-161 | lines not yet reached are untouched and every line is kept or filled |
| Translations.StepsReports | Helper/TranslationDictionary.cs:115-160 | the k-th progress report is (k+1)·100/total, one per completed line |
| Translations.StepsCosts | Helper/TranslationDictionary.cs:112-161 | at most 3 calls and one failure per line; every delay is 100, 1000, 2000 or 3000 ms |
| Translations.StepsNoWork | Helper/TranslationDictionary.cs:114-120 | lines with a short split or a non-blank third field make no call, no failure and no delay |
| Translations.StepsCrash | Helper/TranslationDictionary.cs:157 | the run throws exactly when batchSize is 0 and some line has three fields; then no checkpoint is written |
| Translations.StepsWrites | Helper/TranslationDictionary.cs:157-158 | each checkpoint is a snapshot in which every line is the original or its final form |
| Translations.ApplyProgress | Helper/TranslationDictionary.cs:115-160 | one report per line, each in 0..100, non-decreasing, the last one 100 |
| Translations.ReportsClimb | Helper/TranslationDictionary.cs:160 | reports of the form (k+1)·100/n climb to 100 |
| Translations.Steps | Helper/TranslationDictionary.cs:112-161 | the first n steps of the line loop keep the file's line count |
| Translations.ApplyFiles | Helper/TranslationDictionary.cs:112-167 | the final file is the last write and lines are kept or filled; `.failed.txt` is written exactly when some line that needed a translation is left as it was, and holds the originals of exactly those lines in file order |
| Translations.StepsFailed | Helper/TranslationDictionary.cs:112-161 | without an exception, the failed originals are those of the lines that needed a translation and were left unchanged, in file order |
| Translations.UnfilledEmpty | Helper/TranslationDictionary.cs:166-167 | no original is left unfilled exactly when every line that needed a translation got one |
| Translations.FilledDiffers | Helper/TranslationDictionary.cs:130-153 | putting a non-blank translation in a blank third field changes the line |
| Text.JoinDiffersAt | Helper/TranslationDictionary.cs:153 | `string.Join` of pieces that differ in one place gives different strings |
| Translations.ApplyIdle | Helper/TranslationDictionary.cs:114-120 | a file with nothing to translate is left as it is, with no call and no `.failed.txt` |
| Translations.ApplyCrash | Helper/TranslationDictionary.cs:157 | a zero batch size throws at the first line with three fields, before any write |
| CustomApi.DetermineApiType | Translator/CustomApiTranslator.cs:55-91 | each type is returned exactly when its rule is the first to match, in the order DeepL key shape (Length 39), `AIza` with Length at least 35, existing `.json` file, `http` prefix; DeepL when none matches |
| CustomApi.GoogleKeyShadowed | Translator/CustomApiTranslator.cs:61-73 | an `AIza` key whose Length is at least 35 is GoogleCloud exactly when it does not have the DeepL shape |
| CustomApi.SurrogatePairCountsTwice | Translator/CustomApiTranslator.cs:61-63 | 38 characters whose last lies above U+FFFF have Length 39 and so can take the DeepL shape |
| CustomApi.GoogleShapedKeyIsDeepL | Translator/CustomApiTranslator.cs:61-64 | every 39-character `AIza` key without a dot or a character above U+FFFF is classified DeepL |
| CustomApi.FileExistsMatters | Translator/CustomApiTranslator.cs:78-81 | File.Exists changes the outcome only for a `.json` input, which it makes GoogleCloudV3 |
| CustomApi.CustomApiTranslator.Create | Translator/CustomApiTranslator.cs:30-53 | blank input is rejected; a V3 client whose set-up fails is rejected; otherwise a translator with that key and type, initialised exactly for V3 with a non-empty project |
| CustomApi.CustomApiTranslator.constructor | Translator/CustomApiTranslator.cs:30-53 | stores the key, the determined type and the V3 project |
| CustomApi.CustomApiTranslator.TranslateBatch | Translator/CustomApiTranslator.cs:316-429 | agrees with the batch specification: uninitialised fails, empty returns an empty list, otherwise the chunk loop and the final count check |
| CustomApi.Window | Translator/CustomApiTranslator.cs:344 | `Skip(start).Take(100)` has min(100, remaining) texts |
| CustomApi.ChunkAtCut | Translator/CustomApiTranslator.cs:344-353 | a chunk is its window when within 25000 bytes, else the window's first 50 texts |
| CustomApi.ChunkOutEntries | Translator/CustomApiTranslator.cs:377-402 | on matching counts each output is its translation or "", on a mismatch one entry per text: translation or original, then originals |
| CustomApi.ChunkOut | Translator/CustomApiTranslator.cs:377-402 | each chunk yields exactly one output per text sent |
| CustomApi.Translations | Translator/CustomApiTranslator.cs:400 | one output per translation |
| CustomApi.Padded | Translator/CustomApiTranslator.cs:382-394 | the padding yields exactly the requested number of outputs |
| CustomApi.TranslationsAt | Translator/CustomApiTranslator.cs:400 | the i-th output is the i-th translation, null as "" |
| CustomApi.PaddedAt | Translator/CustomApiTranslator.cs:382-394 | the padded i-th output is the i-th translation (original if null) below the reply count, else the original |
| CustomApi.PadChunk | Translator/CustomApiTranslator.cs:382-394 | the padding loop builds exactly the padded chunk output |
| CustomApi.TranslateChunks | Translator/CustomApiTranslator.cs:342-411 | the startIndex loop produces exactly the specified outputs, requests and delays |
| CustomApi.Next | Translator/CustomApiTranslator.cs:342 | each step moves startIndex strictly forward and not past the end |
| CustomApi.BatchLength | Translator/CustomApiTranslator.cs:342-402 | when every request succeeds, outputs plus the texts skipped by cut chunks cover the input |
| CustomApi.BatchStep | Translator/CustomApiTranslator.cs:342-411 | one chunk: a failed request ends the batch, otherwise its output and a 100 ms wait precede the rest |
| CustomApi.BatchDelays | Translator/CustomApiTranslator.cs:406-410 | one 100 ms delay between consecutive requests, none after the last |
| CustomApi.BatchSpaced | Translator/CustomApiTranslator.cs:342-411 | the requests are consecutive chunks, each starting 100 texts after the previous one |
| CustomApi.BatchRequests | Translator/CustomApiTranslator.cs:342-353 | the j-th request is the chunk at index 100·j |
| CustomApi.BatchResult | Translator/CustomApiTranslator.cs:318-326 | a batch succeeds exactly when initialised and the input is empty or every request succeeds with no text skipped; an uninitialised or empty batch sends nothing |
| CustomApi.ByteCountAtLeast | Translator/CustomApiTranslator.cs:347 | texts of at least m characters make at least m bytes each |
| CustomApi.LongTextsFail | Translator/CustomApiTranslator.cs:342-420 | more than 50 texts of 500 or more characters never translate: the cut chunk loses texts and the count check throws |
| CustomApi.SplitStep | Translator/CustomApiTranslator.cs:342-402 | one step of the corrected loop sends the next slice and advances by its length |
| CustomApi.SplitBatchSent | Translator/CustomApiTranslator.cs:342-402 | the corrected loop sends every text once, in order |
| CustomApi.SplitBatchLength | Translator/CustomApiTranslator.cs:377-402 | the corrected loop returns one output per text |
| CustomApi.ChunkIsSlice | Translator/CustomApiTranslator.cs:344-353 | every chunk is a non-empty slice of the texts at its start |
| CustomApi.ChunkSize | Translator/CustomApiTranslator.cs:344-353 | the chunk length at every start is a valid cut: non-zero and within the remaining texts |
| CustomApi.IntendedBatchComplete | Translator/CustomApiTranslator.cs:342-420 | as corrected, a batch succeeds exactly when initialised and every request succeeds, with one output per text and the texts sent in order |
| Mods.Image.constructor | Helper/ModItem.cs:46 | a new composite image has the given layers and is not disposed |
| Mods.Image.Dispose | Helper/ModItem.cs:55 | the image is disposed |
| Mods.CacheKeyLayers | Helper/ModItem.cs:29-31 | the key is one of eight values and its digits give back the flags |
| Mods.CacheKeyInjective | Helper/ModItem.cs:29-31 | distinct flag triples give distinct keys |
| Mods.IconCache.constructor | Helper/ModItem.cs:14 | the cache starts empty |
| Mods.IconCache.DisposeAll | Helper/ModItem.cs:51-58 | every cached image is disposed and the cache is empty |
| Mods.CacheKeysKnown | Helper/ModItem.cs:29-48 | a cache filled only by CreateCompositeIcon has keys among the eight |
| Mods.ModItem.CreateCompositeIcon | Helper/ModItem.cs:27-50 | a cached key returns the stored image unchanged; otherwise a fresh image is stored under the key, so later calls with the same flags return it |
| Mods.LastDot | Helper/ModItem.cs:61 | finds the last '.' of the name, if any |
| Mods.Stem | Helper/ModItem.cs:61 | GetFileNameWithoutExtension is a prefix: the whole name without a dot, else the name less a dot-free extension |
| Mods.StemDropsExtension | Helper/ModItem.cs:61-71 | the stem of `base.ext` is `base` |
| Mods.IntTextNoSeparator | Helper/ModItem.cs:75 | WorkshopId.ToString() never contains a path separator |
| Mods.IntTextInjective | Helper/ModItem.cs:75 | distinct ids print differently |
| Mods.Combine | Helper/ModItem.cs:59-76 | Path.Combine gives the empty string exactly when every segment is empty |
| Mods.Combine2 | Helper/ModItem.cs:59-76 | two segments are joined by one `\`, and an empty one is skipped |
| Mods.CombineFront | Helper/ModItem.cs:59-76 | combining three segments combines the first with the combination of the other two |
| Mods.CombineNested | Helper/ModItem.cs:59-76 | combining three segments combines the combination of the first two with the third |
| Mods.ModFilePath | Helper/ModItem.cs:67-79 | null exactly when neither in the game directory nor on the workshop; in the game directory the Combine of the mod's folder and its Name, whatever WorkshopId is |
| Mods.ExtensionOnlyName | Helper/ModItem.cs:67-72 | a name that is all extension has an empty stem, which Path.Combine skips: the path is `gamedir\Name` |
| Mods.DictBesideBackup | Helper/ModItem.cs:59-66 | the dict and backup paths are the Combine of the mod's folder with the stem plus `.dict` or `.backup`, and they differ |
| Mods.DictBesideMod | Helper/ModItem.cs:63-72 | for a mod in the game directory, the dict file sits in the mod file's folder |
| Mods.WorkshopPathsDistinct | Helper/ModItem.cs:73-76 | different workshop ids give different mod paths |
| Mods.ModItem.constructor | Helper/ModItem.cs:10-26 | InGameDir and Selected are false, WorkshopId is -1, Language is "detecting..." |
| Mods.ModItem.Create | Helper/ModItem.cs:20-26 | a null name is rejected; otherwise the defaults hold and the new item has no mod file path |

## Left out

- I/O: file reads and writes become values. A `.mod` file is its bytes and a `.dict` file its lines. ApplyTranslationsAsync's writes are the `writes` list of a run, and File.Exists is an `Option`.
- Engine.ReverseEngineer.SaveModFile: File.OpenWrite does not truncate, so a shorter output leaves stale bytes at the end of the old file. The model gives the bytes written, not the file afterwards.
- Engine.ReverseEngineer.LoadModFile: a short ReadBytes at the end of the stream, and UTF-8 decoding that substitutes U+FFFD for ill-formed bytes, are both read failures in the model. The source reads on with fewer bytes or a replaced string.
- Engine.ReverseEngineer.LoadModFile: the leftover-bytes warning on the console is not modelled.
- ModModel.ModData: a null Leftover and an empty one are the same empty sequence, since neither writes anything. Likewise a fresh ModData's null Header and Records are `None` and the empty list.
- ModModel.ModData: records are values, so ApplyToStrings' in-place updates through shared record references are not modelled, and neither is aliasing between records.
- Engine.ReverseEngineer.ApplyToStrings: the null checks on Description, Name and StringFields are not modelled, because strings and maps are never null here. A missing header, which the source dereferences, is a failure.
- Floats are opaque 4-byte words. Nothing computes with them.
- Lone UTF-16 surrogates: a .NET string may hold one, and UTF8.GetBytes writes it as EF BF BD. A Dafny `char` is a Unicode scalar value, so strings here cannot hold one, and that case of WriteString is not modelled.
- int32 overflow in `completed * 100` (more than 21 million lines) is not modelled.
- DictFile.TranslationProgress: computes the exact ceiling of 100·t/n in integers. The source's double arithmetic can overshoot it by one for some t and n.
- DictFile.TranslationProgress: a missing file gives 0, as the code does.
- Translations.TranslationDictionary.ExportToDictFile: follows the code, which writes the description line for a type-16 header even when it is empty and a name line for every record.
- Translations.TranslationDictionary.ExportToDictFile: the partial file a StreamWriter leaves when the missing header is dereferenced is modelled as empty.
- Translations.ApplyTranslations: a missing file (File.ReadAllLines throwing) is not modelled; the file is given as its lines.
- Translations.ApplyTranslations: the optional `progress` is always present, and its reports are recorded.
- Translations.ApplyTranslations: the run's exception is the `crashed` flag.
- Translations.Attempt: a null result of `translateFunc` is the empty text. The oracle's outcome depends only on the call number and the text, not on time.
- Translations.ApplyTranslations: a translation containing `|` or a line break is written into the line as is. The model does not state what a later import makes of that line.
- Task.Delay and throttling are recorded as requested milliseconds. Time, async scheduling and concurrency are not modelled.
- string.Contains, StartsWith and EndsWith are ordinal. The source's culture-sensitive StartsWith/EndsWith are not modelled. OrdinalIgnoreCase compares ASCII letters only.
- string.IsNullOrWhiteSpace and Trim use the Unicode White_Space characters .NET uses. Null strings are not modelled.
- CustomApi.CustomApiTranslator.Create: the HttpClient, its timeout and headers, the environment variable and TranslationServiceClient.Create are not modelled. GetProjectIdFromJson is the `v3Project` parameter, where `None` stands for any failure in InitializeGoogleV3Client.
- CustomApi.CustomApiTranslator.TranslateBatch: the RPC is a function of the request number and the chunk. The source and target languages and the parent name are left out, since they do not affect chunking. Any exception from the RPC is `RequestFailed`, and the wrapping exception is the error value.
- The DeepL, Google, legacy Google, generic-API and language-list calls of CustomApiTranslator.cs are network clients and are not modelled.
- Mods.Combine: Path.Combine joins the non-empty segments by `\`. Rooted segments, and separators already at the end of a segment, are not handled.
- Mods.Stem: GetFileNameWithoutExtension's removal of a directory part is not modelled. A mod name is a file name.
- Mods.ModItem.CreateCompositeIcon: the Bitmap and Graphics drawing is left out. An image records which layers it shows.
- Mods.ModItem.CreateCompositeIcon: the static iconCache is an IconCache object passed in, and the three source icons are not modelled.
- Mods.CacheKeysKnown: the eight-entry bound on the cache is stated as its keys lying among the eight values, not as a cardinality.
- Mods.ModItem.ModFile: `gamedirModsPath` and `workshopModsPath` (static ModManager fields) are parameters, and the Debug output of the null case is left out.
- ModItem's Language property is only initialised. Language detection lives in MainForm.cs, which is not part of this model.

## Findings

| source | as written | input that shows it | evidently intended | confidence | as-written member | corrected member |
|---|---|---|---|---|---|---|
| Translator/CustomApiTranslator.cs:342-353 | a chunk over 25000 UTF-8 bytes is cut to its first 50 texts, but `startIndex` still advances by 100, so texts 51-100 of that window are never sent and the count check at lines 416-420 throws | 51 texts of 500 ASCII characters each: the first window is 25500 bytes, 50 texts are sent, 50 translations come back for 51 inputs | the next chunk starts where the cut one ended, so every text is sent once and the batch returns one translation per text | not executed | CustomApi.LongTextsFail | CustomApi.IntendedBatchComplete |
