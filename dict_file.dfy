/** The .dict line file of TranslationDictionary.cs, as pure functions:
    the lines ExportToDictFile writes, the translations ImportFromDictFile
    reads from a file's lines, what it then writes into the ModData, and
    the completion percentage of GetTranslationProgress.

    A line is `key|original|translated`. Keys are positional:
    `description` for the header, `record{n}_name` for the name of the
    n-th record (from 1) and `record{n}_{fieldKey}` for a StringFields
    value. */
module DictFile {
  import opened Results
  import opened OrderedDict
  import opened ModModel
  import opened ModStrings
  import opened Text

  /* ---------------- keys and lines ---------------- */

  function RecordKey(n: nat, k: string): string {
    "record" + Decimal(n) + "_" + k
  }

  /** The key a slot is exported and imported under. A record's name and
      its StringFields entry keyed `name`, if any, share a key. */
  function SlotKey(slot: Slot): string {
    match slot
    case DescriptionSlot => "description"
    case NameSlot(i) => RecordKey(i + 1, "name")
    case FieldSlot(i, k) => RecordKey(i + 1, k)
  }

  /** Two record keys are equal only for the same record and field key:
      the digits end at the first `_`. */
  lemma RecordKeyInjective(n: nat, a: string, n': nat, b: string)
    requires RecordKey(n, a) == RecordKey(n', b)
    ensures n == n' && a == b
  {
    var x, y := Decimal(n), Decimal(n');
    var k := RecordKey(n, a)[6..];
    assert k == x + "_" + a == y + "_" + b;
    assert forall i :: 0 <= i < |x| ==> k[i] == x[i] != '_';
    assert forall i :: 0 <= i < |y| ==> k[i] == y[i] != '_';
    assert k[|x|] == '_' && k[|y|] == '_';
    assert |x| == |y|;
    assert x == k[..|x|] == y;
    DecimalInjective(n, n');
    assert a == k[|x| + 1..] == b;
  }

  lemma DescriptionNotRecordKey(n: nat, k: string)
    ensures "description" != RecordKey(n, k)
  {
    assert RecordKey(n, k)[0] == 'r';
  }

  /** `key|original|`: a line as ExportToDictFile writes it, with nothing
      after the second bar. */
  function ExportLine(key: string, original: string): string {
    key + "|" + original + "|"
  }

  function HeaderLines(h: Header): seq<string> {
    if h.Header16? then [ExportLine("description", h.description)] else []
  }

  /** One line per StringFields entry whose value is not empty, in
      enumeration order. */
  function FieldLines(n: nat, d: Dict<string>): seq<string> {
    if d == [] then []
    else
      var e := d[|d| - 1];
      FieldLines(n, d[..|d| - 1]) + (if e.value != "" then [ExportLine(RecordKey(n, e.key), e.value)] else [])
  }

  /** Record number `n`: its name line, written even for an empty name,
      then its field lines. */
  function RecordLines(n: nat, r: Record): seq<string> {
    [ExportLine(RecordKey(n, "name"), r.name)] + FieldLines(n, r.stringFields)
  }

  /** The records in list order, numbered from 1. */
  function RecordsLines(rs: seq<Record>): seq<string> {
    if rs == [] then [] else RecordsLines(rs[..|rs| - 1]) + RecordLines(|rs|, rs[|rs| - 1])
  }

  /** The lines ExportToDictFile writes for a ModData with a header. */
  function ExportLines(m: ModData): seq<string>
    requires m.header.Some?
  {
    HeaderLines(m.header.value) + RecordsLines(m.records)
  }

  /* ---------------- reading a dictionary file ---------------- */

  /** What one line adds to the translations: the trimmed key mapped to
      the trimmed translation when that is not blank, else to the trimmed
      original. Blank lines and lines with fewer than two fields add
      nothing. */
  function LineEntry(line: string): Option<(string, string)> {
    if IsBlank(line) then None
    else
      var parts := Split(line, '|');
      if |parts| < 2 then None
      else
        var translated := if |parts| >= 3 then Trim(parts[2]) else "";
        Some((Trim(parts[0]), if !IsBlank(translated) then translated else Trim(parts[1])))
  }

  /** The `translations` dictionary after reading `lines` in order: a later
      line with the same key overwrites an earlier one. */
  function ParseTranslations(lines: seq<string>): map<string, string> {
    if lines == [] then map[]
    else
      var t := ParseTranslations(lines[..|lines| - 1]);
      match LineEntry(lines[|lines| - 1])
      case None => t
      case Some((k, v)) => t[k := v]
  }

  /** Reading two files one after the other: the second one's keys win. */
  lemma {:induction false} ParseAppend(a: seq<string>, b: seq<string>)
    ensures ParseTranslations(a + b) == ParseTranslations(a) + ParseTranslations(b)
    decreases |b|
  {
    if b == [] {
      assert a + b == a;
    } else {
      var b', last := b[..|b| - 1], b[|b| - 1];
      assert a + b == (a + b') + [last] && b == b' + [last];
      ParseAppend(a, b');
      LastLineWins(a + b', last);
      LastLineWins(b', last);
      if LineEntry(last).Some? {
        var (k, v) := LineEntry(last).value;
        UnionUpdate(ParseTranslations(a), ParseTranslations(b'), k, v);
      }
    }
  }

  lemma UnionUpdate<K, V>(m: map<K, V>, n: map<K, V>, k: K, v: V)
    ensures (m + n)[k := v] == m + n[k := v]
  {
  }

  /** The key a line was read under is the last line's if that line has an
      entry; otherwise the earlier lines decide. */
  lemma LastLineWins(lines: seq<string>, line: string)
    ensures LineEntry(line).Some? ==>
              ParseTranslations(lines + [line]) == ParseTranslations(lines)[LineEntry(line).value.0 := LineEntry(line).value.1]
    ensures LineEntry(line).None? ==> ParseTranslations(lines + [line]) == ParseTranslations(lines)
  {
    assert (lines + [line])[..|lines|] == lines;
  }

  /* ---------------- what a clean export reads back as ---------------- */

  /** A string that survives the line file unchanged: no bar, no line
      break and no white space at either end. */
  predicate Clean(s: string) {
    && '|' !in s && !HasLineBreak(s)
    && (s == [] || (!IsWhiteSpace(s[0]) && !IsWhiteSpace(s[|s| - 1])))
  }

  lemma RecordKeyClean(n: nat, k: string)
    requires Clean(k)
    ensures Clean(RecordKey(n, k))
  {
    var key := RecordKey(n, k);
    assert key == "record" + Decimal(n) + "_" + k;
    forall i | 0 <= i < |key| ensures key[i] != '|' && !IsLineBreak(key[i]) {
      if i >= |key| - |k| {
        assert key[i] == k[i - (|key| - |k|)];
      }
    }
    assert key[0] == 'r';
    if k != [] {
      assert key[|key| - 1] == k[|k| - 1];
    }
  }

  /** An exported line of strings without a bar splits into its key, its
      original and an empty translation. */
  lemma SplitExportLine(k: string, v: string)
    requires '|' !in k && '|' !in v
    ensures Split(ExportLine(k, v), '|') == [k, v, ""]
  {
    assert ExportLine(k, v) == k + ['|'] + (v + ['|'] + "");
    SplitAfter(k, v + ['|'] + "", '|');
    SplitAfter(v, "", '|');
  }

  /** An exported line of clean strings reads back as its own key and
      original. */
  lemma ExportLineEntry(k: string, v: string)
    requires Clean(k) && Clean(v)
    ensures LineEntry(ExportLine(k, v)) == Some((k, v))
    ensures ParseTranslations([ExportLine(k, v)]) == map[k := v]
  {
    var line := ExportLine(k, v);
    SplitExportLine(k, v);
    assert line[|k|] == '|';
    assert !IsBlank(line);
    TrimmedTrim(k);
    TrimmedTrim(v);
    assert Trim("") == "";
    LastLineWins([], line);
    assert [] + [line] == [line];
  }

  ghost predicate CleanFields(d: Dict<string>) {
    forall j :: 0 <= j < |d| ==> Clean(d[j].key) && Clean(d[j].value)
  }

  /** The translations read from a record's field lines, one entry at a
      time. */
  lemma FieldLinesStep(n: nat, d: Dict<string>)
    requires d != [] && Clean(d[|d| - 1].key) && Clean(d[|d| - 1].value)
    ensures var e := d[|d| - 1];
      ParseTranslations(FieldLines(n, d))
        == ParseTranslations(FieldLines(n, d[..|d| - 1]))
           + (if e.value != "" then map[RecordKey(n, e.key) := e.value] else map[])
  {
    var e := d[|d| - 1];
    var last := if e.value != "" then [ExportLine(RecordKey(n, e.key), e.value)] else [];
    ParseAppend(FieldLines(n, d[..|d| - 1]), last);
    if e.value != "" {
      RecordKeyClean(n, e.key);
      ExportLineEntry(RecordKey(n, e.key), e.value);
    }
  }

  /** A key none of whose field lines carries is not read from them. */
  lemma {:induction false} FieldLinesAbsent(n: nat, d: Dict<string>, key: string)
    requires CleanFields(d)
    requires forall j :: 0 <= j < |d| ==> RecordKey(n, d[j].key) != key
    ensures key !in ParseTranslations(FieldLines(n, d))
    decreases |d|
  {
    if d != [] {
      var init := d[..|d| - 1];
      assert RecordKey(n, d[|d| - 1].key) != key;
      FieldLinesStep(n, d);
      assert CleanFields(init) by {
        forall j | 0 <= j < |init| ensures Clean(init[j].key) && Clean(init[j].value) {
          assert init[j] == d[j];
        }
      }
      assert forall j :: 0 <= j < |init| ==> RecordKey(n, init[j].key) != key by {
        forall j | 0 <= j < |init| ensures RecordKey(n, init[j].key) != key {
          assert init[j] == d[j];
        }
      }
      FieldLinesAbsent(n, init, key);
    }
  }

  /** Each field line is read back as its own value; an empty value is not
      exported, so its key is absent. */
  lemma {:induction false} FieldLinesValue(n: nat, d: Dict<string>, j: nat)
    requires CleanFields(d) && DistinctKeys(d) && j < |d|
    ensures d[j].value != "" ==> var t := ParseTranslations(FieldLines(n, d));
              RecordKey(n, d[j].key) in t && t[RecordKey(n, d[j].key)] == d[j].value
    ensures d[j].value == "" ==> RecordKey(n, d[j].key) !in ParseTranslations(FieldLines(n, d))
    decreases |d|
  {
    var init, e := d[..|d| - 1], d[|d| - 1];
    FieldLinesStep(n, d);
    var key := RecordKey(n, d[j].key);
    if j == |d| - 1 {
      forall j' | 0 <= j' < |init| ensures RecordKey(n, init[j'].key) != key {
        if RecordKey(n, init[j'].key) == key {
          RecordKeyInjective(n, init[j'].key, n, e.key);
        }
      }
      FieldLinesAbsent(n, init, key);
    } else {
      assert init[j] == d[j];
      FieldLinesValue(n, init, j);
      if key == RecordKey(n, e.key) {
        RecordKeyInjective(n, d[j].key, n, e.key);
      }
    }
  }

  lemma NameClean()
    ensures Clean("name")
  {
    assert !HasLineBreak("name");
  }

  /** A record's lines: its name, then its non-empty field values. */
  lemma RecordLinesParse(n: nat, r: Record)
    requires Clean(r.name) && CleanFields(r.stringFields)
    ensures ParseTranslations(RecordLines(n, r))
              == map[RecordKey(n, "name") := r.name] + ParseTranslations(FieldLines(n, r.stringFields))
  {
    var key := RecordKey(n, "name");
    var line := ExportLine(key, r.name);
    assert RecordLines(n, r) == [line] + FieldLines(n, r.stringFields);
    ParseAppend([line], FieldLines(n, r.stringFields));
    NameClean();
    RecordKeyClean(n, "name");
    ExportLineEntry(key, r.name);
  }

  /** A key of another record, or the description key, is never read
      from record `n`'s lines. */
  lemma RecordLinesAbsent(n: nat, r: Record, key: string, n': nat, k: string)
    requires Clean(r.name) && CleanFields(r.stringFields)
    requires key == "description" || (n' != n && key == RecordKey(n', k))
    ensures key !in ParseTranslations(RecordLines(n, r))
  {
    RecordLinesParse(n, r);
    var d := r.stringFields;
    if key == "description" {
      DescriptionNotRecordKey(n, "name");
      forall j | 0 <= j < |d| ensures RecordKey(n, d[j].key) != key {
        DescriptionNotRecordKey(n, d[j].key);
      }
    } else {
      if key == RecordKey(n, "name") {
        RecordKeyInjective(n, "name", n', k);
      }
      forall j | 0 <= j < |d| ensures RecordKey(n, d[j].key) != key {
        if RecordKey(n, d[j].key) == key {
          RecordKeyInjective(n, d[j].key, n', k);
        }
      }
    }
    FieldLinesAbsent(n, d, key);
  }

  ghost predicate CleanRecord(r: Record) {
    Clean(r.name) && CleanFields(r.stringFields) && DistinctKeys(r.stringFields)
  }

  /** Among all records' lines, the keys of record `n` are read from record
      `n`'s lines alone, and no record carries the description key. */
  lemma {:induction false} RecordsLinesLookup(rs: seq<Record>, key: string, n: nat, k: string)
    requires forall i :: 0 <= i < |rs| ==> CleanRecord(rs[i])
    requires key == "description" || key == RecordKey(n, k)
    ensures var t := ParseTranslations(RecordsLines(rs));
      && (1 <= n <= |rs| && key != "description" ==>
            var u := ParseTranslations(RecordLines(n, rs[n - 1]));
            (key in t <==> key in u) && (key in t ==> t[key] == u[key]))
      && (!(1 <= n <= |rs|) || key == "description" ==> key !in t)
    decreases |rs|
  {
    if rs != [] {
      var init, last := rs[..|rs| - 1], rs[|rs| - 1];
      ParseAppend(RecordsLines(init), RecordLines(|rs|, last));
      assert forall i :: 0 <= i < |init| ==> CleanRecord(init[i]) by {
        forall i | 0 <= i < |init| ensures CleanRecord(init[i]) {
          assert init[i] == rs[i];
        }
      }
      RecordsLinesLookup(init, key, n, k);
      if n != |rs| || key == "description" {
        assert CleanRecord(last);
        RecordLinesAbsent(|rs|, last, key, n, k);
      }
    }
  }

  /* ---------------- importing ---------------- */

  /** The value ImportFromDictFile leaves at a slot: the translation under
      the slot's key when there is one and it is not blank, else the
      string as it was. */
  function Lookup(t: map<string, string>): Rewriter {
    (slot: Slot, s: string) => var k := SlotKey(slot); if k in t && !IsBlank(t[k]) then t[k] else s
  }

  /** The second half of ImportFromDictFile on a ModData with a header:
      the type-16 Description, every record Name and every existing
      StringFields value looked up in the translations. */
  function ImportInto(m: ModData, t: map<string, string>): ModData
    requires m.header.Some?
  {
    Rewrite(m, Lookup(t))
  }

  /** Importing the same translations twice is importing them once. */
  lemma ImportIdempotent(m: ModData, t: map<string, string>)
    requires m.header.Some?
    ensures ImportInto(ImportInto(m, t), t) == ImportInto(m, t)
  {
    var f := Lookup(t);
    var once := Rewrite(m, f);
    forall i, j | 0 <= i < |once.records| && 0 <= j < |once.records[i].stringFields|
      ensures var e := once.records[i].stringFields[j]; f(FieldSlot(i, e.key), e.value) == e.value
    {
      assert Keys(once.records[i].stringFields)[j] == Keys(m.records[i].stringFields)[j];
    }
    RewriteFixes(once, f);
  }

  /* ---------------- exporting, then importing ---------------- */

  /** Strings the export writes and the import reads back unchanged. */
  ghost predicate CleanData(m: ModData) {
    && m.header.Some?
    && (m.header.value.Header16? ==> Clean(m.header.value.description))
    && forall i :: 0 <= i < |m.records| ==> CleanRecord(m.records[i])
  }

  /** No StringFields key of the record is `name`, the one key whose line
      would share its key with the record's name line. */
  predicate NoNameField(r: Record) {
    forall j :: 0 <= j < |r.stringFields| ==> r.stringFields[j].key != "name"
  }

  /** A line as a clean export writes it: one line, not blank, and with
      nothing in its third field. */
  predicate FreshLine(line: string) {
    !HasLineBreak(line) && !IsBlank(line) && !IsTranslated(line)
  }

  predicate FreshLines(lines: seq<string>) {
    forall i :: 0 <= i < |lines| ==> FreshLine(lines[i])
  }

  lemma ExportLineFresh(k: string, v: string)
    requires Clean(k) && Clean(v) && k != []
    ensures FreshLine(ExportLine(k, v))
  {
    var line := ExportLine(k, v);
    SplitExportLine(k, v);
    assert line[0] == k[0];
    forall i | 0 <= i < |line| ensures !IsLineBreak(line[i]) {
      if i < |k| {
        assert line[i] == k[i];
      } else if |k| < i < |k| + 1 + |v| {
        assert line[i] == v[i - |k| - 1];
      }
    }
  }

  lemma {:induction false} FieldLinesFresh(n: nat, d: Dict<string>)
    requires CleanFields(d)
    ensures FreshLines(FieldLines(n, d))
    decreases |d|
  {
    if d != [] {
      var init, e := d[..|d| - 1], d[|d| - 1];
      assert CleanFields(init) by {
        forall j | 0 <= j < |init| ensures Clean(init[j].key) && Clean(init[j].value) {
          assert init[j] == d[j];
        }
      }
      FieldLinesFresh(n, init);
      RecordKeyClean(n, e.key);
      ExportLineFresh(RecordKey(n, e.key), e.value);
    }
  }

  lemma {:induction false} RecordsLinesFresh(rs: seq<Record>)
    requires forall i :: 0 <= i < |rs| ==> CleanRecord(rs[i])
    ensures FreshLines(RecordsLines(rs))
    decreases |rs|
  {
    if rs != [] {
      var init, last := rs[..|rs| - 1], rs[|rs| - 1];
      assert forall i :: 0 <= i < |init| ==> CleanRecord(init[i]) by {
        forall i | 0 <= i < |init| ensures CleanRecord(init[i]) {
          assert init[i] == rs[i];
        }
      }
      RecordsLinesFresh(init);
      assert CleanRecord(last);
      FieldLinesFresh(|rs|, last.stringFields);
      NameClean();
      RecordKeyClean(|rs|, "name");
      ExportLineFresh(RecordKey(|rs|, "name"), last.name);
    }
  }

  lemma DescriptionClean()
    ensures Clean("description")
  {
    assert !HasLineBreak("description");
  }

  /** Written with File.WriteAllLines and read with File.ReadAllLines, the
      exported lines come back as they were. */
  lemma ExportReadBack(m: ModData)
    requires CleanData(m)
    ensures ReadAllLines(WriteAllLines(ExportLines(m))) == ExportLines(m)
  {
    ExportLinesFresh(m);
    ReadWriteLines(ExportLines(m));
  }

  lemma ExportLinesFresh(m: ModData)
    requires CleanData(m)
    ensures FreshLines(ExportLines(m))
  {
    var h := m.header.value;
    RecordsLinesFresh(m.records);
    if h.Header16? {
      DescriptionClean();
      ExportLineFresh("description", h.description);
    }
  }

  /** The description line alone: its key and the description. */
  lemma HeaderLinesParse(h: Header)
    requires h.Header16? ==> Clean(h.description)
    ensures ParseTranslations(HeaderLines(h)) == if h.Header16? then map["description" := h.description] else map[]
  {
    if h.Header16? {
      DescriptionClean();
      ExportLineEntry("description", h.description);
    }
  }

  /** The exported description is read back as itself. */
  lemma ExportedDescription(m: ModData)
    requires CleanData(m) && m.header.value.Header16?
    ensures var t := ParseTranslations(ExportLines(m));
      "description" in t && t["description"] == m.header.value.description
  {
    ParseAppend(HeaderLines(m.header.value), RecordsLines(m.records));
    HeaderLinesParse(m.header.value);
    RecordsLinesLookup(m.records, "description", 0, "");
  }

  /** A key of record `i` is read from that record's lines alone. */
  lemma ExportedRecordKey(m: ModData, i: nat, k: string)
    requires CleanData(m) && i < |m.records|
    ensures var t := ParseTranslations(ExportLines(m));
      var u := ParseTranslations(RecordLines(i + 1, m.records[i]));
      var key := RecordKey(i + 1, k);
      (key in t <==> key in u) && (key in t ==> t[key] == u[key])
  {
    var key := RecordKey(i + 1, k);
    var t := ParseTranslations(ExportLines(m));
    var u := ParseTranslations(RecordLines(i + 1, m.records[i]));
    var hm, rm := ParseTranslations(HeaderLines(m.header.value)), ParseTranslations(RecordsLines(m.records));
    assert t == hm + rm by {
      ParseAppend(HeaderLines(m.header.value), RecordsLines(m.records));
    }
    DescriptionNotRecordKey(i + 1, k);
    assert key !in hm by {
      HeaderLinesParse(m.header.value);
    }
    assert (key in rm <==> key in u) && (key in rm ==> rm[key] == u[key]) by {
      RecordsLinesLookup(m.records, key, i + 1, k);
    }
  }

  /** Without a `name` field, record `i`'s name is read back as itself. */
  lemma ExportedName(m: ModData, i: nat)
    requires CleanData(m) && i < |m.records| && NoNameField(m.records[i])
    ensures var t := ParseTranslations(ExportLines(m)); var key := RecordKey(i + 1, "name");
      key in t && t[key] == m.records[i].name
  {
    var r, n := m.records[i], i + 1;
    var key := RecordKey(n, "name");
    ExportedRecordKey(m, i, "name");
    assert CleanRecord(r);
    RecordLinesParse(n, r);
    forall j | 0 <= j < |r.stringFields| ensures RecordKey(n, r.stringFields[j].key) != key {
      assert r.stringFields[j].key != "name";
      if RecordKey(n, r.stringFields[j].key) == key {
        RecordKeyInjective(n, r.stringFields[j].key, n, "name");
      }
    }
    FieldLinesAbsent(n, r.stringFields, key);
  }

  /** A non-empty field value is read back as itself; an empty one is not
      exported, so its key is not read at all. */
  lemma ExportedField(m: ModData, i: nat, j: nat)
    requires CleanData(m) && i < |m.records| && j < |m.records[i].stringFields|
    requires m.records[i].stringFields[j].key != "name"
    ensures var t := ParseTranslations(ExportLines(m));
      var e := m.records[i].stringFields[j]; var key := RecordKey(i + 1, e.key);
      (key in t <==> e.value != "") && (key in t ==> t[key] == e.value)
  {
    var r, n := m.records[i], i + 1;
    var e := r.stringFields[j];
    ExportedRecordKey(m, i, e.key);
    assert CleanRecord(r);
    RecordLinesParse(n, r);
    FieldLinesValue(n, r.stringFields, j);
    if RecordKey(n, e.key) == RecordKey(n, "name") {
      RecordKeyInjective(n, e.key, n, "name");
    }
  }

  /** Importing the untranslated file just exported from a ModData leaves
      it unchanged: every key is read back with its own original, provided
      the strings survive the line format and no StringFields key is
      `name`. */
  lemma ImportExport(m: ModData)
    requires CleanData(m)
    requires forall i :: 0 <= i < |m.records| ==> NoNameField(m.records[i])
    ensures ImportInto(m, ParseTranslations(ReadAllLines(WriteAllLines(ExportLines(m))))) == m
  {
    ExportReadBack(m);
    ImportExportLines(m);
  }

  lemma ImportExportLines(m: ModData)
    requires CleanData(m)
    requires forall i :: 0 <= i < |m.records| ==> NoNameField(m.records[i])
    ensures ImportInto(m, ParseTranslations(ExportLines(m))) == m
  {
    var t := ParseTranslations(ExportLines(m));
    if m.header.value.Header16? {
      ExportedDescription(m);
    }
    forall i | 0 <= i < |m.records| ensures HoldsName(m, t, i) {
      ExportedName(m, i);
    }
    forall i, j | 0 <= i < |m.records| && 0 <= j < |m.records[i].stringFields| ensures HoldsField(m, t, i, j) {
      assert NoNameField(m.records[i]);
      ExportedField(m, i, j);
    }
    LookupFixes(m, t);
  }

  /** `t` holds record `i`'s name under its key. */
  ghost predicate HoldsName(m: ModData, t: map<string, string>, i: nat)
    requires i < |m.records|
  {
    RecordKey(i + 1, "name") in t && t[RecordKey(i + 1, "name")] == m.records[i].name
  }

  /** `t` holds record `i`'s `j`-th field value under its key, or nothing
      when the value is empty. */
  ghost predicate HoldsField(m: ModData, t: map<string, string>, i: nat, j: nat)
    requires i < |m.records| && j < |m.records[i].stringFields|
  {
    var e := m.records[i].stringFields[j];
    (RecordKey(i + 1, e.key) in t <==> e.value != "") && (e.value != "" ==> t[RecordKey(i + 1, e.key)] == e.value)
  }

  /** Translations that hold each string of `m` under its own key, or
      nothing for an empty field value, import as no change. */
  lemma LookupFixes(m: ModData, t: map<string, string>)
    requires m.header.Some?
    requires m.header.value.Header16? ==> "description" in t && t["description"] == m.header.value.description
    requires forall i :: 0 <= i < |m.records| ==> HoldsName(m, t, i)
    requires forall i, j :: 0 <= i < |m.records| && 0 <= j < |m.records[i].stringFields| ==> HoldsField(m, t, i, j)
    ensures ImportInto(m, t) == m
  {
    var f := Lookup(t);
    forall i | 0 <= i < |m.records| ensures f(NameSlot(i), m.records[i].name) == m.records[i].name {
      assert HoldsName(m, t, i);
    }
    forall i, j | 0 <= i < |m.records| && 0 <= j < |m.records[i].stringFields|
      ensures var e := m.records[i].stringFields[j]; f(FieldSlot(i, e.key), e.value) == e.value
    {
      assert HoldsField(m, t, i, j);
    }
    RewriteFixes(m, f);
  }

  /** A StringFields entry keyed `name` is exported on a second
      `record{n}_name` line, which wins: after the import the record's name
      and that field both hold the field's value. */
  lemma NameCollision(m: ModData, i: nat, j: nat)
    requires CleanData(m) && i < |m.records| && j < |m.records[i].stringFields|
    requires m.records[i].stringFields[j].key == "name" && !IsBlank(m.records[i].stringFields[j].value)
    ensures var r := ImportInto(m, ParseTranslations(ReadAllLines(WriteAllLines(ExportLines(m))))).records[i];
      r.name == m.records[i].stringFields[j].value && r.stringFields[j].value == m.records[i].stringFields[j].value
  {
    ExportReadBack(m);
    var t := ParseTranslations(ExportLines(m));
    var r := m.records[i];
    assert HoldsValue(t, RecordKey(i + 1, "name"), r.stringFields[j].value) by {
      ExportedRecordKey(m, i, "name");
      assert CleanRecord(r);
      RecordLinesParse(i + 1, r);
      FieldLinesValue(i + 1, r.stringFields, j);
    }
    LookupCollision(m, t, i, j);
  }

  predicate HoldsValue(t: map<string, string>, key: string, v: string) {
    key in t && t[key] == v
  }

  lemma LookupCollision(m: ModData, t: map<string, string>, i: nat, j: nat)
    requires m.header.Some? && i < |m.records| && j < |m.records[i].stringFields|
    requires m.records[i].stringFields[j].key == "name" && !IsBlank(m.records[i].stringFields[j].value)
    requires HoldsValue(t, RecordKey(i + 1, "name"), m.records[i].stringFields[j].value)
    ensures var r := ImportInto(m, t).records[i];
      r.name == m.records[i].stringFields[j].value && r.stringFields[j].value == m.records[i].stringFields[j].value
  {
    var r := m.records[i];
    var s := ImportInto(m, t).records[i];
    assert s == RewriteRecord(r, i, Lookup(t));
  }

  /* ---------------- GetTranslationProgress ---------------- */

  /** A line whose third field is filled in. */
  predicate IsTranslated(line: string) {
    var parts := Split(line, '|'); |parts| >= 3 && !IsBlank(parts[2])
  }

  function NonBlankLines(lines: seq<string>): (r: seq<string>)
    ensures |r| <= |lines|
    ensures forall i :: 0 <= i < |r| ==> !IsBlank(r[i])
  {
    if lines == [] then []
    else NonBlankLines(lines[..|lines| - 1]) + (if IsBlank(lines[|lines| - 1]) then [] else [lines[|lines| - 1]])
  }

  function CountTranslated(lines: seq<string>): (c: nat)
    ensures c <= |lines|
  {
    if lines == [] then 0
    else CountTranslated(lines[..|lines| - 1]) + (if IsTranslated(lines[|lines| - 1]) then 1 else 0)
  }

  /** `a / n` rounded up. */
  lemma CeilDiv(a: nat, n: nat)
    requires n > 0
    ensures var q := (a + n - 1) / n; (q - 1) * n < a <= q * n
  {
    var q, r := (a + n - 1) / n, (a + n - 1) % n;
    assert a + n - 1 == q * n + r && 0 <= r < n;
    assert (q - 1) * n == q * n - n;
  }

  lemma CeilAtMost(t: nat, n: nat)
    requires 0 < n && t <= n
    ensures 0 <= (100 * t + n - 1) / n <= 100
  {
    var q := (100 * t + n - 1) / n;
    assert q * n <= 100 * t + n - 1;
    if q > 100 {
      MulAtLeast(q, 101, n);
      assert false;
    }
  }

  lemma MulAtLeast(a: int, b: int, n: nat)
    requires a >= b
    ensures a * n >= b * n
  {
  }

  /** GetTranslationProgress: 0 when the file does not exist, 100 when it
      has no non-blank line, else the percentage of non-blank lines that
      are translated, rounded up. */
  function TranslationProgress(file: Option<seq<string>>): (p: int)
    ensures file.None? ==> p == 0
    ensures file.Some? && NonBlankLines(file.value) == [] ==> p == 100
    ensures file.Some? && NonBlankLines(file.value) != [] ==>
              var lines := NonBlankLines(file.value);
              var t, n := CountTranslated(lines), |lines|;
              0 <= p <= 100 && (p - 1) * n < 100 * t <= p * n
  {
    match file
    case None => 0
    case Some(all) =>
      var lines := NonBlankLines(all);
      if lines == [] then 100
      else
        var t, n := CountTranslated(lines), |lines|;
        CeilDiv(100 * t, n);
        CeilAtMost(t, n);
        (100 * t + n - 1) / n
  }

  /** The exported lines have nothing in their third field. */
  lemma {:induction false} NoneTranslated(lines: seq<string>)
    requires forall i :: 0 <= i < |lines| ==> !IsTranslated(lines[i])
    ensures CountTranslated(lines) == 0
    decreases |lines|
  {
    if lines != [] {
      NoneTranslated(lines[..|lines| - 1]);
    }
  }

  lemma {:induction false} NonBlankAll(lines: seq<string>)
    requires forall i :: 0 <= i < |lines| ==> !IsBlank(lines[i])
    ensures NonBlankLines(lines) == lines
    decreases |lines|
  {
    if lines != [] {
      NonBlankAll(lines[..|lines| - 1]);
    }
  }

  /** A file of untranslated lines, none blank, is 0% done. */
  lemma ProgressNone(lines: seq<string>)
    requires lines != [] && NonBlankLines(lines) == lines && CountTranslated(lines) == 0
    ensures TranslationProgress(Some(lines)) == 0
  {
    var p := TranslationProgress(Some(lines));
    if p >= 1 {
      MulAtLeast(p - 1, 0, |lines|);
    }
  }

  lemma ExportLinesEmpty(m: ModData)
    requires m.header.Some?
    ensures ExportLines(m) == [] <==> m.header.value.Header17? && m.records == []
  {
    if m.records != [] {
      var rs := m.records;
      assert |RecordsLines(rs)| >= |RecordLines(|rs|, rs[|rs| - 1])| >= 1;
    }
  }

  /** A freshly exported file is 0% translated, or 100% when it has no
      line at all (a type-17 header and no records). */
  lemma FreshExportProgress(m: ModData)
    requires CleanData(m)
    ensures TranslationProgress(Some(ExportLines(m))) == if m.header.value.Header16? || m.records != [] then 0 else 100
  {
    var lines := ExportLines(m);
    ExportLinesFresh(m);
    NonBlankAll(lines);
    NoneTranslated(lines);
    ExportLinesEmpty(m);
    if lines != [] {
      ProgressNone(lines);
    }
  }
}
