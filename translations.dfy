/** TranslationDictionary.cs: exporting a loaded mod's strings to a .dict
    file, importing a .dict file back into it, and the batch translation
    of a .dict file line by line with retries, back-off, checkpoints and
    progress reports.

    Files are their lines: what File.ReadAllLines returns and what
    File.WriteAllLines or a StreamWriter writing line by line leaves
    behind (module Text relates the two). */
module Translations {
  import opened Results
  import opened OrderedDict
  import opened ModModel
  import opened ModStrings
  import opened Text
  import opened DictFile
  import opened Engine

  /** Why ImportFromDictFile stops: File.Exists was false, or the loaded
      ModData has no header (a NullReferenceException). */
  datatype ImportError = FileNotFound | NullHeader

  /** Reading one more line of a file: that line's entry goes on top of
      what the earlier lines gave. */
  lemma ReadOneMore(lines: seq<string>, i: nat)
    requires i < |lines|
    ensures var line := lines[i]; var t := ParseTranslations(lines[..i]);
      ParseTranslations(lines[..i + 1]) == match LineEntry(line) case None => t case Some((k, v)) => t[k := v]
  {
    assert lines[..i + 1] == lines[..i] + [lines[i]];
    LastLineWins(lines[..i], lines[i]);
  }

  class TranslationDictionary {
    const reverseEngineer: ReverseEngineer
    var translations: map<string, string>

    constructor (re: ReverseEngineer)
      ensures reverseEngineer == re && translations == map[]
    {
      reverseEngineer := re;
      translations := map[];
    }

    /** ExportToDictFile: the file holds one `key|original|` line for the
        description of a type-16 header, then for each record its name
        line and a line per non-empty StringFields value. Without a header
        the writer has already truncated the file when the header is
        dereferenced, so the file is left empty. */
    method ExportToDictFile() returns (file: seq<string>, ok: bool)
      ensures ok <==> reverseEngineer.modData.header.Some?
      ensures ok ==> file == ExportLines(reverseEngineer.modData)
      ensures !ok ==> file == []
    {
      var m := reverseEngineer.modData;
      file := [];
      if m.header.None? {
        return [], false;
      }
      var h := m.header.value;
      if h.FileType() == 16 {
        file := file + [ExportLine("description", h.description)];
      }
      var records := m.records;
      var recordIndex := 1;
      for i := 0 to |records|
        invariant recordIndex == i + 1
        invariant file == HeaderLines(h) + RecordsLines(records[..i])
      {
        var record := records[i];
        ghost var prefix := file;
        var nameLine := ExportLine(RecordKey(recordIndex, "name"), record.name);
        file := file + [nameLine];
        var fields := record.stringFields;
        for j := 0 to |fields|
          invariant file == prefix + [nameLine] + FieldLines(recordIndex, fields[..j])
        {
          if fields[j].value != "" {
            file := file + [ExportLine(RecordKey(recordIndex, fields[j].key), fields[j].value)];
          }
          assert fields[..j + 1][..j] == fields[..j];
        }
        assert file == prefix + RecordLines(i + 1, record) by {
          assert fields[..|fields|] == fields;
          AppendAssoc(prefix, [nameLine], FieldLines(recordIndex, fields));
        }
        assert RecordsLines(records[..i + 1]) == RecordsLines(records[..i]) + RecordLines(i + 1, record) by {
          assert records[..i + 1][..i] == records[..i];
        }
        AppendAssoc(HeaderLines(h), RecordsLines(records[..i]), RecordLines(i + 1, record));
        recordIndex := recordIndex + 1;
      }
      assert records[..|records|] == records;
      ok := true;
    }

    /** ImportFromDictFile: `file` is None when the file does not exist.
        The translations are read first, into a cleared dictionary, and
        then every description, name and existing StringFields value whose
        key has a non-blank translation takes it. */
    method ImportFromDictFile(file: Option<seq<string>>) returns (r: Result<(), ImportError>)
      requires reverseEngineer.Valid()
      modifies this, reverseEngineer
      ensures reverseEngineer.Valid()
      ensures file.None? ==> r == Err(FileNotFound) && translations == old(translations)
      ensures file.Some? ==> translations == ParseTranslations(file.value)
      ensures r.Ok? <==> file.Some? && old(reverseEngineer.modData).header.Some?
      ensures file.Some? && r.Err? ==> r.error == NullHeader
      ensures r.Ok? ==> reverseEngineer.modData == ImportInto(old(reverseEngineer.modData), translations)
      ensures r.Err? ==> reverseEngineer.modData == old(reverseEngineer.modData)
    {
      if file.None? {
        return Err(FileNotFound);
      }
      LoadTranslations(file.value);
      var applied := ApplyLoaded();
      r := if applied then Ok(()) else Err(NullHeader);
    }

    /** The first half of ImportFromDictFile: the translations dictionary
        cleared and filled from the file's lines in order. */
    method LoadTranslations(lines: seq<string>)
      modifies this
      ensures translations == ParseTranslations(lines)
    {
      translations := map[];
      for i := 0 to |lines|
        invariant translations == ParseTranslations(lines[..i])
      {
        var line := lines[i];
        ReadOneMore(lines, i);
        if IsBlank(line) {
          assert LineEntry(line).None?;
          continue;
        }
        var parts := Split(line, '|');
        if |parts| < 2 {
          assert LineEntry(line).None?;
          continue;
        }
        var key := Trim(parts[0]);
        var original := Trim(parts[1]);
        var translated := if |parts| >= 3 then Trim(parts[2]) else "";
        var value := if !IsBlank(translated) then translated else original;
        assert LineEntry(line) == Some((key, value));
        translations := translations[key := value];
      }
      assert lines[..|lines|] == lines;
    }

    /** The second half of ImportFromDictFile: the loaded translations
        written into the ModData; false when it has no header. */
    method ApplyLoaded() returns (applied: bool)
      requires reverseEngineer.Valid()
      modifies reverseEngineer
      ensures reverseEngineer.Valid()
      ensures applied <==> old(reverseEngineer.modData).header.Some?
      ensures applied ==> reverseEngineer.modData == ImportInto(old(reverseEngineer.modData), translations)
      ensures !applied ==> reverseEngineer.modData == old(reverseEngineer.modData)
    {
      var m := reverseEngineer.modData;
      if m.header.None? {
        return false;
      }
      var header := m.header.value;
      if header.FileType() == 16 {
        if "description" in translations && !IsBlank(translations["description"]) {
          header := header.(description := translations["description"]);
        }
      }
      reverseEngineer.modData := m.(header := Some(header));
      var records := m.records;
      var recordIndex := 1;
      for i := 0 to |records|
        invariant recordIndex == i + 1
        invariant reverseEngineer.modData.header == Some(RewriteHeader(m.header.value, Lookup(translations)))
        invariant reverseEngineer.modData.leftover == m.leftover
        invariant |reverseEngineer.modData.records| == |records|
        invariant forall k :: 0 <= k < i ==>
                    reverseEngineer.modData.records[k] == RewriteRecord(records[k], k, Lookup(translations))
        invariant forall k :: i <= k < |records| ==> reverseEngineer.modData.records[k] == records[k]
      {
        var record := records[i];
        var nameKey := RecordKey(recordIndex, "name");
        if nameKey in translations && !IsBlank(translations[nameKey]) {
          record := record.(name := translations[nameKey]);
        }
        assert KeysDistinct(records[i]);
        var fields := ImportValues(record.stringFields, recordIndex, translations);
        record := record.(stringFields := fields);
        reverseEngineer.modData := reverseEngineer.modData.(records := reverseEngineer.modData.records[i := record]);
        recordIndex := recordIndex + 1;
      }
      assert reverseEngineer.modData.records == RewriteRecords(records, Lookup(translations));
      RewriteKeepsDistinct(m, Lookup(translations));
      return true;
    }

    /** The inner loop of ImportFromDictFile over record number
        `recordIndex`: for each key of a snapshot of the StringFields, in
        enumeration order, `fields[key] = translation` when the key's
        translation is present and not blank. */
    method ImportValues(fields: Dict<string>, recordIndex: nat, t: map<string, string>) returns (r: Dict<string>)
      requires DistinctKeys(fields) && recordIndex >= 1
      ensures r == RewriteFields(fields, recordIndex - 1, Lookup(t))
    {
      var keys := Keys(fields);
      r := fields;
      for j := 0 to |keys|
        invariant |r| == |fields|
        invariant forall k :: 0 <= k < j ==>
                    r[k] == Entry(fields[k].key, Lookup(t)(FieldSlot(recordIndex - 1, fields[k].key), fields[k].value))
        invariant forall k :: j <= k < |fields| ==> r[k] == fields[k]
      {
        var fieldKey := RecordKey(recordIndex, keys[j]);
        if fieldKey in t && !IsBlank(t[fieldKey]) {
          assert Keys(r) == keys;
          SameKeysDistinct(fields, r);
          IndexOfDistinct(r, j);
          r := Put(r, keys[j], t[fieldKey]);
        }
      }
    }
  }

  /* ---------------- ApplyTranslationsAsync ---------------- */

  /** string.Contains. */
  predicate Contains(s: string, sub: string)
    decreases |s|
  {
    |sub| <= |s| && (s[..|sub|] == sub || Contains(s[1..], sub))
  }

  /** What one awaited call of `translateFunc` does: return a text (a null
      result is the empty text) or throw an exception with a message. */
  datatype Outcome = Returned(text: string) | Threw(message: string)

  /** The translation function as an oracle: the outcome of the call made
      as the `call`-th one of the whole run, on `original`. */
  type Translator = (nat, string) -> Outcome

  /** How the retry loop for one line ends: with a non-blank translation,
      after its three attempts, or by an exception that does not mention
      429, which leaves the loop and is caught outside it. */
  datatype End = Translated(text: string) | GaveUp | Crashed

  datatype Attempts = Attempts(end: End, delays: seq<nat>, calls: nat)

  /** The retry loop from attempt `attempt` (of 0, 1, 2) on, the next call
      being the `calls`-th: a blank result tries again, a 429 waits
      (attempt + 1) seconds and tries again. */
  function Attempt(translate: Translator, original: string, attempt: nat, calls: nat): (r: Attempts)
    requires attempt <= 3
    ensures calls <= r.calls <= calls + 3 - attempt
    ensures |r.delays| <= 3 - attempt
    ensures forall k :: 0 <= k < |r.delays| ==> r.delays[k] in {1000, 2000, 3000}
    ensures r.end.Translated? ==> !IsBlank(r.end.text)
    decreases 3 - attempt
  {
    if attempt == 3 then Attempts(GaveUp, [], calls)
    else match translate(calls, original)
      case Returned(text) =>
        if !IsBlank(text) then Attempts(Translated(text), [], calls + 1)
        else Attempt(translate, original, attempt + 1, calls + 1)
      case Threw(message) =>
        if Contains(message, "429") then
          var r := Attempt(translate, original, attempt + 1, calls + 1);
          r.(delays := [(attempt + 1) * 1000] + r.delays)
        else Attempts(Crashed, [], calls + 1)
  }

  /** The state of ApplyTranslationsAsync after some lines: the lines, the
      completed counter, the failed originals, the calls made so far, every
      Task.Delay in milliseconds, every progress report, every file
      written, and whether an exception escaped (a zero batch size). */
  datatype Run = Run(
    lines: seq<string>, completed: nat, failed: seq<string>, calls: nat,
    delays: seq<nat>, reports: seq<int>, writes: seq<seq<string>>, crashed: bool)

  /** A line with a third field that is blank: the one kind of line the
      run sends to the translator. */
  predicate NeedsTranslation(line: string) {
    var parts := Split(line, '|'); |parts| >= 3 && IsBlank(parts[2])
  }

  /** The line with `text` put in its third field. */
  function Filled(line: string, text: string): string
    requires |Split(line, '|')| >= 3
  {
    Join(Split(line, '|')[2 := text], '|')
  }

  /** The fields of a line with three or more, the failed originals, the
      calls and the delays once a blank third field has been sent to the
      translator; a filled third field is left alone. */
  function Fill(r: Run, parts: seq<string>, translate: Translator): (seq<string>, seq<string>, nat, seq<nat>)
    requires |parts| >= 3
  {
    var original := parts[1];
    var a := Attempt(translate, original, 0, r.calls);
    if !IsBlank(parts[2]) then (parts, r.failed, r.calls, r.delays)
    else match a.end
      case Translated(text) => (parts[2 := text], r.failed, a.calls, r.delays + a.delays + [100])
      case GaveUp => (parts, r.failed + [original], a.calls, r.delays + a.delays + [100])
      case Crashed => (parts, r.failed + [original], a.calls, r.delays + a.delays)
  }

  /** Line `i` processed: a line with fewer than three fields only counts;
      a line with a blank third field is translated or, failing that, its
      original is logged; the line is joined back, written as a checkpoint
      when `i % batchSize == 0`, and progress is reported. C#'s `%` and
      Dafny's agree for `i >= 0`; a batch size of 0 throws there. */
  function LineStep(r: Run, i: nat, translate: Translator, batchSize: int): (s: Run)
    requires i < |r.lines|
  {
    var total := |r.lines|;
    var parts := Split(r.lines[i], '|');
    if |parts| < 3 then
      r.(completed := r.completed + 1, reports := r.reports + [(r.completed + 1) * 100 / total])
    else
      var (parts', failed, calls, delays) := Fill(r, parts, translate);
      var lines := r.lines[i := Join(parts', '|')];
      var completed := r.completed + 1;
      if batchSize == 0 then Run(lines, completed, failed, calls, delays, r.reports, r.writes, true)
      else
        var writes := if i % batchSize == 0 then r.writes + [lines] else r.writes;
        Run(lines, completed, failed, calls, delays, r.reports + [completed * 100 / total], writes, false)
  }

  /** The run over the first `n` lines of the file; nothing more happens
      once an exception has escaped. */
  function Steps(file: seq<string>, translate: Translator, batchSize: int, n: nat): (r: Run)
    requires n <= |file|
    ensures |r.lines| == |file|
  {
    if n == 0 then Run(file, 0, [], 0, [], [], [], false)
    else
      var r := Steps(file, translate, batchSize, n - 1);
      if r.crashed then r else LineStep(r, n - 1, translate, batchSize)
  }

  /** After the loop: the final File.WriteAllLines, and the .failed.txt
      file, written only when some line failed. */
  function Finish(r: Run): (Run, Option<seq<string>>) {
    if r.crashed then (r, None)
    else (r.(writes := r.writes + [r.lines]), if r.failed != [] then Some(r.failed) else None)
  }

  lemma AppendAssoc<E>(a: seq<E>, b: seq<E>, c: seq<E>)
    ensures a + (b + c) == a + b + c
  {
  }

  /** The retry loop of one line. */
  method TranslateWithRetries(translate: Translator, original: string, calls0: nat)
    returns (end: End, delays: seq<nat>, calls: nat)
    ensures Attempts(end, delays, calls) == Attempt(translate, original, 0, calls0)
  {
    calls, delays := calls0, [];
    var attempt := 0;
    while attempt < 3
      invariant attempt <= 3
      invariant var a := Attempt(translate, original, attempt, calls);
        Attempt(translate, original, 0, calls0) == a.(delays := delays + a.delays)
      decreases 3 - attempt
    {
      ghost var a := Attempt(translate, original, attempt, calls);
      ghost var next := Attempt(translate, original, attempt + 1, calls + 1);
      var outcome := translate(calls, original);
      calls := calls + 1;
      match outcome {
        case Returned(text) =>
          if !IsBlank(text) {
            return Translated(text), delays, calls;
          }
          assert a == next;
        case Threw(message) =>
          if Contains(message, "429") {
            var wait := (attempt + 1) * 1000;
            assert a == next.(delays := [wait] + next.delays);
            assert delays + a.delays == delays + [wait] + next.delays by {
              AppendAssoc(delays, [wait], next.delays);
            }
            delays := delays + [wait];
          } else {
            return Crashed, delays, calls;
          }
      }
      attempt := attempt + 1;
    }
    end := GaveUp;
  }

  /** ApplyTranslationsAsync on the lines of an existing file; returns the
      run, whose last write is the final file, and the .failed.txt lines
      if that file is written. */
  method ApplyTranslations(file: seq<string>, translate: Translator, batchSize: int)
    returns (run: Run, failedFile: Option<seq<string>>)
    ensures (run, failedFile) == Finish(Steps(file, translate, batchSize, |file|))
  {
    var lines := file;
    var total := |lines|;
    var completed := 0;
    var failed: seq<string> := [];
    var calls := 0;
    var delays: seq<nat> := [];
    var reports: seq<int> := [];
    var writes: seq<seq<string>> := [];
    var i := 0;
    while i < |lines|
      invariant |lines| == total == |file| && i <= total
      invariant Steps(file, translate, batchSize, i) == Run(lines, completed, failed, calls, delays, reports, writes, false)
    {
      ghost var r0 := Run(lines, completed, failed, calls, delays, reports, writes, false);
      assert Steps(file, translate, batchSize, i + 1) == LineStep(r0, i, translate, batchSize);
      var parts := Split(lines[i], '|');
      if |parts| < 3 {
        completed := completed + 1;
        reports := reports + [(completed * 100) / total];
        i := i + 1;
        continue;
      }
      var original := parts[1];
      var translated := parts[2];
      if IsBlank(translated) {
        var end, d;
        end, d, calls := TranslateWithRetries(translate, original, calls);
        delays := delays + d;
        match end {
          case Translated(text) =>
            parts := parts[2 := text];
            delays := delays + [100];
          case GaveUp =>
            failed := failed + [original];
            delays := delays + [100];
          case Crashed =>
            failed := failed + [original];
        }
      }
      assert (parts, failed, calls, delays) == Fill(r0, Split(r0.lines[i], '|'), translate);
      lines := lines[i := Join(parts, '|')];
      completed := completed + 1;
      if batchSize == 0 {
        run := Run(lines, completed, failed, calls, delays, reports, writes, true);
        assert run == LineStep(r0, i, translate, batchSize);
        StepsStop(file, translate, batchSize, i + 1);
        return run, None;
      }
      if i % batchSize == 0 {
        writes := writes + [lines];
      }
      reports := reports + [(completed * 100) / total];
      i := i + 1;
    }
    writes := writes + [lines];
    run := Run(lines, completed, failed, calls, delays, reports, writes, false);
    failedFile := if failed != [] then Some(failed) else None;
  }

  /** Once an exception has escaped, the later lines change nothing. */
  lemma {:induction false} StepsStop(file: seq<string>, translate: Translator, batchSize: int, n: nat)
    requires n <= |file| && Steps(file, translate, batchSize, n).crashed
    ensures Steps(file, translate, batchSize, |file|) == Steps(file, translate, batchSize, n)
    decreases |file| - n
  {
    if n < |file| {
      StepsStop(file, translate, batchSize, n + 1);
    }
  }

  /* ---------------- what a run does to the lines ---------------- */

  /** A line the run leaves as it was, or one that needed a translation
      and got a non-blank one in its third field. */
  ghost predicate KeptOrFilled(line0: string, line: string) {
    line == line0 || (NeedsTranslation(line0) && exists text :: !IsBlank(text) && line == Filled(line0, text))
  }

  /** Line `n - 1` is still the file's when it is processed, and what the
      step makes of it is kept or filled. */
  lemma StepLine(r: Run, file: seq<string>, i: nat, translate: Translator, batchSize: int)
    requires i < |r.lines| == |file| && r.lines[i] == file[i]
    ensures var s := LineStep(r, i, translate, batchSize);
      |s.lines| == |file| && KeptOrFilled(file[i], s.lines[i])
      && forall j :: 0 <= j < |file| && j != i ==> s.lines[j] == r.lines[j]
  {
    var parts := Split(file[i], '|');
    JoinSplit(file[i], '|');
    if |parts| >= 3 && IsBlank(parts[2]) {
      var a := Attempt(translate, parts[1], 0, r.calls);
      if a.end.Translated? {
        assert LineStep(r, i, translate, batchSize).lines[i] == Filled(file[i], a.end.text);
      }
    }
  }

  /** The lines after `n` steps: those not reached yet are the file's,
      the others are kept or filled. */
  lemma {:induction false} StepsLines(file: seq<string>, translate: Translator, batchSize: int, n: nat)
    requires n <= |file|
    ensures var r := Steps(file, translate, batchSize, n);
      && (forall j :: n <= j < |file| ==> r.lines[j] == file[j])
      && (forall j :: 0 <= j < |file| ==> KeptOrFilled(file[j], r.lines[j]))
  {
    if n > 0 {
      var r := Steps(file, translate, batchSize, n - 1);
      StepsLines(file, translate, batchSize, n - 1);
      if !r.crashed {
        StepLine(r, file, n - 1, translate, batchSize);
      }
    }
  }

  /** After `n` steps without an exception, `n` lines are completed and
      `n` reports were made, the k-th being (k + 1) * 100 / total. */
  lemma {:induction false} StepsReports(file: seq<string>, translate: Translator, batchSize: int, n: nat)
    requires n <= |file|
    ensures var r := Steps(file, translate, batchSize, n);
      && |r.reports| <= n
      && (!r.crashed ==> r.completed == |r.reports| == n)
      && forall k :: 0 <= k < |r.reports| ==> r.reports[k] == (k + 1) * 100 / |file|
  {
    if n > 0 {
      StepsReports(file, translate, batchSize, n - 1);
    }
  }

  /** At most three calls per line; every wait is the 100 ms throttle or a
      1, 2 or 3 second back-off; at most one failure and one checkpoint per
      line. */
  lemma {:induction false} StepsCosts(file: seq<string>, translate: Translator, batchSize: int, n: nat)
    requires n <= |file|
    ensures var r := Steps(file, translate, batchSize, n);
      && r.calls <= 3 * n && |r.failed| <= n && |r.writes| <= n
      && (forall k :: 0 <= k < |r.delays| ==> r.delays[k] in {100, 1000, 2000, 3000})
  {
    if n > 0 {
      StepsCosts(file, translate, batchSize, n - 1);
    }
  }

  /** Lines that need no translation cost nothing: no call, no failure,
      no wait. */
  lemma {:induction false} StepsNoWork(file: seq<string>, translate: Translator, batchSize: int, n: nat)
    requires n <= |file|
    requires forall j :: 0 <= j < n ==> !NeedsTranslation(file[j])
    ensures var r := Steps(file, translate, batchSize, n);
      r.calls == 0 && r.failed == [] && r.delays == []
  {
    if n > 0 {
      StepsNoWork(file, translate, batchSize, n - 1);
      StepsLines(file, translate, batchSize, n - 1);
    }
  }

  /** An exception escapes exactly when the batch size is 0 and some line
      has three fields: the first such line throws at `i % batchSize`,
      before any checkpoint could be written. */
  lemma {:induction false} StepsCrash(file: seq<string>, translate: Translator, batchSize: int, n: nat)
    requires n <= |file|
    ensures var r := Steps(file, translate, batchSize, n);
      && (r.crashed <==> batchSize == 0 && exists j :: 0 <= j < n && |Split(file[j], '|')| >= 3)
      && (batchSize == 0 ==> r.writes == [])
  {
    if n > 0 {
      StepsCrash(file, translate, batchSize, n - 1);
      StepsLines(file, translate, batchSize, n - 1);
    }
  }

  /** Every checkpoint has the file's length, and each of its lines is
      either the file's line or the line as it is now; lines not reached
      yet are the file's. */
  lemma {:induction false} StepsWrites(file: seq<string>, translate: Translator, batchSize: int, n: nat)
    requires n <= |file|
    ensures var r := Steps(file, translate, batchSize, n);
      forall k :: 0 <= k < |r.writes| ==>
        && |r.writes[k]| == |file|
        && (forall j :: 0 <= j < |file| ==> r.writes[k][j] == file[j] || r.writes[k][j] == r.lines[j])
        && (forall j :: n <= j < |file| ==> r.writes[k][j] == file[j])
  {
    if n > 0 {
      var r := Steps(file, translate, batchSize, n - 1);
      StepsWrites(file, translate, batchSize, n - 1);
      StepsLines(file, translate, batchSize, n - 1);
      if !r.crashed {
        StepLine(r, file, n - 1, translate, batchSize);
      }
    }
  }

  /** The originals, in file order, of the first `n` lines that needed a
      translation and are still as they were in the file. */
  function Unfilled(file: seq<string>, lines: seq<string>, n: nat): (r: seq<string>)
    requires n <= |file| && n <= |lines|
    ensures |r| <= n
  {
    if n == 0 then []
    else
      var j := n - 1;
      Unfilled(file, lines, j) + (if NeedsTranslation(file[j]) && lines[j] == file[j] then [Split(file[j], '|')[1]] else [])
  }

  /** Unfilled looks at the first `n` lines only. */
  lemma {:induction false} UnfilledFrame(file: seq<string>, a: seq<string>, b: seq<string>, n: nat)
    requires n <= |file| && n <= |a| && n <= |b|
    requires forall j :: 0 <= j < n ==> a[j] == b[j]
    ensures Unfilled(file, a, n) == Unfilled(file, b, n)
  {
    if n > 0 {
      UnfilledFrame(file, a, b, n - 1);
    }
  }

  /** No original is left unfilled exactly when every line that needed a
      translation got one. */
  lemma {:induction false} UnfilledEmpty(file: seq<string>, lines: seq<string>, n: nat)
    requires n <= |file| && n <= |lines|
    ensures Unfilled(file, lines, n) == [] <==>
              forall j :: 0 <= j < n ==> !(NeedsTranslation(file[j]) && lines[j] == file[j])
  {
    if n > 0 {
      UnfilledEmpty(file, lines, n - 1);
    }
  }

  /** Filling a blank third field with a non-blank text changes the line. */
  lemma FilledDiffers(line: string, text: string)
    requires NeedsTranslation(line) && !IsBlank(text)
    ensures Filled(line, text) != line
  {
    var parts := Split(line, '|');
    JoinSplit(line, '|');
    assert text != parts[2];
    JoinDiffersAt(parts[2 := text], parts, 2, '|');
  }

  /** Without an exception, the failed originals are exactly those of the
      lines that needed a translation and were left as they were. */
  lemma {:induction false} StepsFailed(file: seq<string>, translate: Translator, batchSize: int, n: nat)
    requires n <= |file|
    ensures var r := Steps(file, translate, batchSize, n);
      !r.crashed ==> r.failed == Unfilled(file, r.lines, n)
  {
    if n > 0 {
      var i := n - 1;
      var r0 := Steps(file, translate, batchSize, i);
      var r := Steps(file, translate, batchSize, n);
      if !r.crashed {
        assert !r0.crashed && r == LineStep(r0, i, translate, batchSize);
        StepsFailed(file, translate, batchSize, i);
        StepsLines(file, translate, batchSize, i);
        StepLine(r0, file, i, translate, batchSize);
        UnfilledFrame(file, r0.lines, r.lines, i);
        var parts := Split(file[i], '|');
        JoinSplit(file[i], '|');
        if NeedsTranslation(file[i]) {
          var a := Attempt(translate, parts[1], 0, r0.calls);
          if a.end.Translated? {
            FilledDiffers(file[i], a.end.text);
            assert r.lines[i] == Filled(file[i], a.end.text);
          } else {
            assert r.lines[i] == file[i];
            assert r.failed == r0.failed + [parts[1]];
          }
        } else {
          assert r.failed == r0.failed;
        }
      }
    }
  }

  /* ---------------- the finished run ---------------- */

  lemma DivMono(a: nat, b: nat, n: nat)
    requires a <= b && n > 0
    ensures a / n <= b / n
  {
    var qa, qb := a / n, b / n;
    assert qa * n <= a && b < qb * n + n;
    if qa > qb {
      MulAtLeast(qa, qb + 1, n);
      assert false;
    }
  }

  /** The progress reports climb from above 0 to 100: one per line, never
      decreasing, the last one 100 when no exception escaped. */
  lemma ApplyProgress(file: seq<string>, translate: Translator, batchSize: int)
    ensures var run := Finish(Steps(file, translate, batchSize, |file|)).0;
      && (!run.crashed ==> |run.reports| == |file|)
      && (forall k :: 0 <= k < |run.reports| ==> 0 <= run.reports[k] <= 100)
      && (forall k, k' :: 0 <= k <= k' < |run.reports| ==> run.reports[k] <= run.reports[k'])
      && (!run.crashed && file != [] ==> run.reports[|file| - 1] == 100)
  {
    StepsReports(file, translate, batchSize, |file|);
    ReportsClimb(Steps(file, translate, batchSize, |file|).reports, |file|);
  }

  /** Reports of (k + 1) * 100 / n for k from 0 climb to 100. */
  lemma ReportsClimb(reports: seq<int>, n: nat)
    requires |reports| <= n
    requires forall k :: 0 <= k < |reports| ==> reports[k] == (k + 1) * 100 / n
    ensures forall k :: 0 <= k < |reports| ==> 0 <= reports[k] <= 100
    ensures forall k, k' :: 0 <= k <= k' < |reports| ==> reports[k] <= reports[k']
    ensures |reports| == n > 0 ==> reports[n - 1] == 100
  {
    forall k | 0 <= k < |reports| ensures 0 <= reports[k] <= 100 {
      ReportBound(k, n);
    }
    forall k, k' | 0 <= k <= k' < |reports| ensures reports[k] <= reports[k'] {
      DivMono((k + 1) * 100, (k' + 1) * 100, n);
    }
    if |reports| == n > 0 {
      ReportBound(n - 1, n);
    }
  }

  lemma ReportBound(k: nat, n: nat)
    requires k < n
    ensures 0 <= (k + 1) * 100 / n <= 100
    ensures k == n - 1 ==> (k + 1) * 100 / n == 100
  {
    var a := (k + 1) * 100;
    MulAtLeast(n, k + 1, 100);
    DivMono(a, n * 100, n);
    DivSelf(n, 100);
  }

  lemma DivSelf(n: nat, c: nat)
    requires n > 0
    ensures n * c / n == c
  {
    var q, r := n * c / n, n * c % n;
    assert n * c == q * n + r && 0 <= r < n;
    if q < c {
      MulAtLeast(c, q + 1, n);
    } else if q > c {
      MulAtLeast(q, c + 1, n);
    }
  }

  /** What the run leaves on disk: the final write is the processed lines,
      each kept or filled in; every earlier checkpoint line is the file's
      or the final one; .failed.txt is written exactly when a line failed
      and no exception escaped, and it holds the originals of the lines
      that needed a translation and did not get one, in file order. */
  lemma ApplyFiles(file: seq<string>, translate: Translator, batchSize: int)
    ensures var (run, failedFile) := Finish(Steps(file, translate, batchSize, |file|));
      && |run.lines| == |file|
      && (forall j :: 0 <= j < |file| ==> KeptOrFilled(file[j], run.lines[j]))
      && (!run.crashed ==> run.writes != [] && run.writes[|run.writes| - 1] == run.lines)
      && (forall k, j :: 0 <= k < |run.writes| && 0 <= j < |file| ==>
            |run.writes[k]| == |file| && (run.writes[k][j] == file[j] || run.writes[k][j] == run.lines[j]))
      && (failedFile.Some? <==> !run.crashed && run.failed != [])
      && (failedFile.Some? ==> failedFile.value == run.failed)
      && (!run.crashed ==> run.failed == Unfilled(file, run.lines, |file|))
      && (failedFile.Some? <==>
            !run.crashed && exists j :: 0 <= j < |file| && NeedsTranslation(file[j]) && run.lines[j] == file[j])
      && run.calls <= 3 * |file|
  {
    StepsFailed(file, translate, batchSize, |file|);
    UnfilledEmpty(file, Steps(file, translate, batchSize, |file|).lines, |file|);
    StepsLines(file, translate, batchSize, |file|);
    StepsWrites(file, translate, batchSize, |file|);
    StepsCosts(file, translate, batchSize, |file|);
  }

  /** A file with nothing left to translate is written back unchanged,
      without a single call and without a .failed.txt. */
  lemma ApplyIdle(file: seq<string>, translate: Translator, batchSize: int)
    requires forall j :: 0 <= j < |file| ==> !NeedsTranslation(file[j])
    ensures var (run, failedFile) := Finish(Steps(file, translate, batchSize, |file|));
      run.lines == file && run.calls == 0 && run.delays == [] && failedFile == None
  {
    StepsNoWork(file, translate, batchSize, |file|);
    var run := Steps(file, translate, batchSize, |file|);
    StepsLines(file, translate, batchSize, |file|);
    assert run.lines == file;
  }

  /** A batch size of 0 throws at the first line with three fields, before
      anything is written; otherwise the run completes. */
  lemma ApplyCrash(file: seq<string>, translate: Translator, batchSize: int)
    ensures var (run, failedFile) := Finish(Steps(file, translate, batchSize, |file|));
      && (run.crashed <==> batchSize == 0 && exists j :: 0 <= j < |file| && |Split(file[j], '|')| >= 3)
      && (run.crashed ==> run.writes == [] && failedFile == None)
  {
    StepsCrash(file, translate, batchSize, |file|);
  }
}
