/** CustomApiTranslator.cs: how an API input is classified, the
    constructor's checks, and the chunking, padding and count validation
    of TranslateBatchV3Async. The HTTP and Google SDK calls are an oracle:
    the reply to the k-th request of a batch. */
module CustomApi {
  import opened Results
  import opened Text
  import Utf8

  datatype ApiType = DeepL | GoogleCloud | GoogleCloudV3 | Generic

  /* ---------------- classifying the input ---------------- */

  predicate StartsWith(s: string, prefix: string) {
    |prefix| <= |s| && s[..|prefix|] == prefix
  }

  predicate EndsWith(s: string, suffix: string) {
    |suffix| <= |s| && s[|s| - |suffix|..] == suffix
  }

  function AsciiLower(c: char): char {
    if 'A' <= c <= 'Z' then (c as int + 32) as char else c
  }

  /** EndsWith with StringComparison.OrdinalIgnoreCase, for ASCII letters. */
  predicate EndsWithIgnoreCase(s: string, suffix: string) {
    |suffix| <= |s| && forall i :: 0 <= i < |suffix| ==> AsciiLower(s[|s| - |suffix| + i]) == AsciiLower(suffix[i])
  }

  /** The four rules of DetermineApiType, in the order it tries them.
      Lengths are string.Length, in UTF-16 code units. */
  predicate DeepLShaped(apiInput: string) {
    Utf16Length(apiInput) == 39 && (EndsWith(apiInput, ":fx") || '.' !in apiInput)
  }

  predicate GoogleApiKey(apiInput: string) {
    StartsWith(apiInput, "AIza") && Utf16Length(apiInput) >= 35
  }

  /** `fileExists` is File.Exists(apiInput). */
  predicate ServiceAccountFile(apiInput: string, fileExists: bool) {
    EndsWithIgnoreCase(apiInput, ".json") && fileExists
  }

  predicate HttpEndpoint(apiInput: string) {
    StartsWith(apiInput, "http")
  }

  /** DetermineApiType: the first rule that matches, in the order DeepL
      key shape, Google API key, service-account JSON file, http endpoint;
      DeepL when none does. */
  function DetermineApiType(apiInput: string, fileExists: bool): (t: ApiType)
    ensures DeepLShaped(apiInput) ==> t == DeepL
    ensures t == GoogleCloud <==> !DeepLShaped(apiInput) && GoogleApiKey(apiInput)
    ensures t == GoogleCloudV3 <==>
              !DeepLShaped(apiInput) && !GoogleApiKey(apiInput) && ServiceAccountFile(apiInput, fileExists)
    ensures t == Generic <==>
              && !DeepLShaped(apiInput) && !GoogleApiKey(apiInput) && !ServiceAccountFile(apiInput, fileExists)
              && HttpEndpoint(apiInput)
    ensures t == DeepL <==>
              DeepLShaped(apiInput)
              || (!GoogleApiKey(apiInput) && !ServiceAccountFile(apiInput, fileExists) && !HttpEndpoint(apiInput))
    ensures t == Generic ==> !StartsWith(apiInput, "AIza")
  {
    if DeepLShaped(apiInput) then DeepL
    else if GoogleApiKey(apiInput) then GoogleCloud
    else if ServiceAccountFile(apiInput, fileExists) then GoogleCloudV3
    else if HttpEndpoint(apiInput) then Generic
    else DeepL
  }

  /** The DeepL rule comes first: a Google API key of Length 39 without
      a '.' is classified DeepL, and only Google keys of another length are
      GoogleCloud. */
  lemma GoogleKeyShadowed(apiInput: string, fileExists: bool)
    requires StartsWith(apiInput, "AIza") && Utf16Length(apiInput) >= 35
    ensures DetermineApiType(apiInput, fileExists) == GoogleCloud <==>
              Utf16Length(apiInput) != 39 || (!EndsWith(apiInput, ":fx") && '.' in apiInput)
  {
  }

  /** A key of the shape Google issues, "AIza" and 35 more characters
      none of which is a '.' or lies above U+FFFF, is classified DeepL. */
  lemma GoogleShapedKeyIsDeepL(key: string, fileExists: bool)
    requires StartsWith(key, "AIza") && |key| == 39
    requires forall i :: 0 <= i < |key| ==> key[i] != '.' && (key[i] as int) < 0x1_0000
    ensures DetermineApiType(key, fileExists) == DeepL
  {
    Utf16LengthBmp(key);
  }

  /** Length counts a character above U+FFFF twice: 37 ASCII characters
      followed by one emoji make a string of Length 39, which the DeepL
      rule claims although it holds only 38 characters. */
  lemma SurrogatePairCountsTwice(ascii: string, c: char)
    requires |ascii| == 37 && forall i :: 0 <= i < |ascii| ==> (ascii[i] as int) < 0x80 && ascii[i] != '.'
    requires (c as int) >= 0x1_0000
    ensures |ascii + [c]| == 38 && Utf16Length(ascii + [c]) == 39
    ensures DetermineApiType(ascii + [c], false) == DeepL
  {
    Utf16LengthBmp(ascii);
    Utf16LengthAppend(ascii, [c]);
    assert Utf16Length([c]) == 2;
    assert '.' !in ascii + [c];
  }

  /** Whether the file exists matters only for an input ending in ".json",
      and only to choose GoogleCloudV3. */
  lemma FileExistsMatters(apiInput: string)
    ensures DetermineApiType(apiInput, true) != DetermineApiType(apiInput, false) ==>
              EndsWithIgnoreCase(apiInput, ".json") && DetermineApiType(apiInput, true) == GoogleCloudV3
  {
  }

  /* ---------------- the translator object ---------------- */

  datatype CreateError = ArgumentNull | GoogleV3InitFailed

  class CustomApiTranslator {
    const apiKey: string
    const apiType: ApiType
    /** The project id once the Google V3 client was created, for that API
        type only; without it there is no V3 client. */
    const projectId: Option<string>

    constructor (apiKey: string, apiType: ApiType, projectId: Option<string>)
      ensures this.apiKey == apiKey && this.apiType == apiType && this.projectId == projectId
    {
      this.apiKey := apiKey;
      this.apiType := apiType;
      this.projectId := projectId;
    }

    /** `_googleV3Client != null && !string.IsNullOrEmpty(_projectId)`. */
    predicate Initialised()
      reads this
    {
      projectId.Some? && projectId.value != ""
    }

    /** The constructor: a blank input throws ArgumentNullException; a
        GoogleCloudV3 input creates the client and reads the project id
        (`v3Project`, None when either throws), and a failure there throws
        InvalidOperationException. */
    static method Create(apiInput: string, fileExists: bool, v3Project: Option<string>)
      returns (r: Result<CustomApiTranslator, CreateError>)
      ensures IsBlank(apiInput) ==> r == Err(ArgumentNull)
      ensures !IsBlank(apiInput) && DetermineApiType(apiInput, fileExists) == GoogleCloudV3 && v3Project.None? ==>
                r == Err(GoogleV3InitFailed)
      ensures r.Ok? <==> !IsBlank(apiInput) && (DetermineApiType(apiInput, fileExists) == GoogleCloudV3 ==> v3Project.Some?)
      ensures r.Ok? ==> fresh(r.value) && r.value.apiKey == apiInput
      ensures r.Ok? ==> r.value.apiType == DetermineApiType(apiInput, fileExists)
      ensures r.Ok? ==> (r.value.Initialised() <==> r.value.apiType == GoogleCloudV3 && v3Project.value != "")
    {
      if IsBlank(apiInput) {
        return Err(ArgumentNull);
      }
      var apiType := DetermineApiType(apiInput, fileExists);
      var projectId: Option<string> := None;
      if apiType == GoogleCloudV3 {
        if v3Project.None? {
          return Err(GoogleV3InitFailed);
        }
        projectId := v3Project;
      }
      var t := new CustomApiTranslator(apiInput, apiType, projectId);
      return Ok(t);
    }

    /** TranslateBatchV3Async on `texts` (None for a null list). */
    method TranslateBatch(texts: Option<seq<string>>, rpc: Rpc) returns (b: Batch)
      ensures b == TranslateBatchSpec(Initialised(), texts, rpc)
    {
      if !Initialised() {
        return Batch(Err(NotInitialised), [], []);
      }
      if texts.None? || texts.value == [] {
        return Batch(Ok([]), [], []);
      }
      var all := TranslateChunks(texts.value, rpc);
      if all.result.Ok? && |all.result.value| != |texts.value| {
        return all.(result := Err(CountMismatch(|texts.value|, |all.result.value|)));
      }
      return all;
    }
  }

  /* ---------------- TranslateBatchV3Async ---------------- */

  const MaxTextsPerRequest: nat := 100
  const MaxBytesPerRequest: nat := 25000
  /** How many texts an oversized chunk is cut to. */
  const CutTexts: nat := 50

  /** A reply of TranslateTextAsync: its translations, each possibly
      null; or an exception. */
  datatype Reply = Reply(translations: seq<Option<string>>) | RequestError

  /** The RPC as an oracle: the reply to the `k`-th request, sent with
      `chunk`. */
  type Rpc = (nat, seq<string>) -> Reply

  datatype BatchError = NotInitialised | RequestFailed | CountMismatch(expected: nat, got: nat)

  /** The outcome of a batch, every chunk sent, and every delay in
      milliseconds. */
  datatype Batch = Batch(result: Result<seq<string>, BatchError>, sent: seq<seq<string>>, delays: seq<nat>)

  /** `chunk.Sum(t => Encoding.UTF8.GetByteCount(t))`. */
  function ByteCount(chunk: seq<string>): nat {
    if chunk == [] then 0 else ByteCount(chunk[..|chunk| - 1]) + Utf8.Size(chunk[|chunk| - 1])
  }

  /** `texts.Skip(start).Take(100)`. */
  function Window(texts: seq<string>, start: nat): (w: seq<string>)
    requires start <= |texts|
    ensures |w| == if |texts| - start < MaxTextsPerRequest then |texts| - start else MaxTextsPerRequest
  {
    if |texts| - start < MaxTextsPerRequest then texts[start..] else texts[start..start + MaxTextsPerRequest]
  }

  /** The chunk sent for the window at `start`: the first 50 texts of a
      window over the byte limit, else the whole window. */
  function ChunkAt(texts: seq<string>, start: nat): seq<string>
    requires start <= |texts|
  {
    var w := Window(texts, start);
    if ByteCount(w) > MaxBytesPerRequest then (if |w| < CutTexts then w else w[..CutTexts]) else w
  }

  /** A chunk is the start of its window: all of it when it fits in 25000
      bytes, else its first 50 texts. */
  lemma ChunkAtCut(texts: seq<string>, start: nat)
    requires start <= |texts|
    ensures var w, chunk := Window(texts, start), ChunkAt(texts, start);
      && chunk <= w
      && (ByteCount(w) <= MaxBytesPerRequest ==> chunk == w)
      && (ByteCount(w) > MaxBytesPerRequest ==> |chunk| == if |w| < CutTexts then |w| else CutTexts)
  {
  }

  /** `TranslatedText ?? fallback`. */
  function OrElse(t: Option<string>, fallback: string): string {
    if t.Some? then t.value else fallback
  }

  /** What a chunk contributes: with as many translations as texts, each
      translation (null as ""); otherwise one entry per text, the i-th
      translation (null as the original) where there is one and the
      original past the end of the reply. */
  function ChunkOut(chunk: seq<string>, ts: seq<Option<string>>): (out: seq<string>)
    ensures |out| == |chunk|
  {
    if |ts| == |chunk| then Translations(ts)
    else Padded(chunk, ts, |chunk|)
  }

  lemma ChunkOutEntries(chunk: seq<string>, ts: seq<Option<string>>)
    ensures var out := ChunkOut(chunk, ts);
      && (|ts| == |chunk| ==> forall i :: 0 <= i < |chunk| ==> out[i] == OrElse(ts[i], ""))
      && (|ts| != |chunk| ==> forall i :: 0 <= i < |chunk| ==> out[i] == if i < |ts| then OrElse(ts[i], chunk[i]) else chunk[i])
  {
    TranslationsAt(ts);
    PaddedAt(chunk, ts, |chunk|);
  }

  /** `translations.Select(t => t.TranslatedText ?? "")`. */
  function Translations(ts: seq<Option<string>>): (out: seq<string>)
    ensures |out| == |ts|
  {
    if ts == [] then [] else Translations(ts[..|ts| - 1]) + [OrElse(ts[|ts| - 1], "")]
  }

  lemma {:induction false} TranslationsAt(ts: seq<Option<string>>)
    ensures forall i :: 0 <= i < |ts| ==> Translations(ts)[i] == OrElse(ts[i], "")
  {
    if ts != [] {
      TranslationsAt(ts[..|ts| - 1]);
    }
  }

  /** The first `n` entries of the padded list. */
  function Padded(chunk: seq<string>, ts: seq<Option<string>>, n: nat): (out: seq<string>)
    requires n <= |chunk|
    ensures |out| == n
  {
    if n == 0 then []
    else Padded(chunk, ts, n - 1) + [if n - 1 < |ts| then OrElse(ts[n - 1], chunk[n - 1]) else chunk[n - 1]]
  }

  lemma {:induction false} PaddedAt(chunk: seq<string>, ts: seq<Option<string>>, n: nat)
    requires n <= |chunk|
    ensures forall i :: 0 <= i < n ==> Padded(chunk, ts, n)[i] == if i < |ts| then OrElse(ts[i], chunk[i]) else chunk[i]
  {
    if n > 0 {
      PaddedAt(chunk, ts, n - 1);
    }
  }

  /** The chunks from `start` on, the next request being the `k`-th: each
      chunk's output in order, a 100 ms pause before every chunk but the
      first, and the first failing request ends the batch. */
  function BatchFrom(texts: seq<string>, start: nat, rpc: Rpc, k: nat): (b: Batch)
    requires start <= |texts|
    decreases |texts| - start
  {
    if start == |texts| then Batch(Ok([]), [], [])
    else
      var chunk := ChunkAt(texts, start);
      match rpc(k, chunk)
      case RequestError => Batch(Err(RequestFailed), [chunk], [])
      case Reply(ts) =>
        var next := if start + MaxTextsPerRequest < |texts| then start + MaxTextsPerRequest else |texts|;
        var rest := BatchFrom(texts, next, rpc, k + 1);
        var wait := if start + MaxTextsPerRequest < |texts| then [100] else [];
        Prepend(ChunkOut(chunk, ts), [chunk], wait, rest)
  }

  /** A batch continued after some output, chunks and delays. */
  function Prepend(out: seq<string>, sent: seq<seq<string>>, delays: seq<nat>, b: Batch): Batch {
    Batch(if b.result.Ok? then Ok(out + b.result.value) else b.result, sent + b.sent, delays + b.delays)
  }

  lemma PrependPrepend(o1: seq<string>, s1: seq<seq<string>>, d1: seq<nat>, o2: seq<string>, s2: seq<seq<string>>, d2: seq<nat>, b: Batch)
    ensures Prepend(o1, s1, d1, Prepend(o2, s2, d2, b)) == Prepend(o1 + o2, s1 + s2, d1 + d2, b)
  {
    if b.result.Ok? {
      assert o1 + (o2 + b.result.value) == (o1 + o2) + b.result.value;
    }
    assert s1 + (s2 + b.sent) == (s1 + s2) + b.sent;
    assert d1 + (d2 + b.delays) == (d1 + d2) + b.delays;
  }

  lemma PrependNothing(b: Batch)
    ensures Prepend([], [], [], b) == b
  {
    if b.result.Ok? {
      assert [] + b.result.value == b.result.value;
    }
    assert [] + b.sent == b.sent && [] + b.delays == b.delays;
  }

  /** TranslateBatchV3Async: uninitialised throws; an empty list is
      translated to an empty list without a request; otherwise the chunks,
      and a final count different from the input's throws. */
  function TranslateBatchSpec(initialised: bool, texts: Option<seq<string>>, rpc: Rpc): Batch {
    if !initialised then Batch(Err(NotInitialised), [], [])
    else if texts.None? || texts.value == [] then Batch(Ok([]), [], [])
    else
      var b := BatchFrom(texts.value, 0, rpc, 0);
      if b.result.Ok? && |b.result.value| != |texts.value| then b.(result := Err(CountMismatch(|texts.value|, |b.result.value|)))
      else b
  }

  /** The loop of TranslateBatchV3Async over `startIndex`. */
  method TranslateChunks(texts: seq<string>, rpc: Rpc) returns (b: Batch)
    ensures b == BatchFrom(texts, 0, rpc, 0)
  {
    var all: seq<string> := [];
    var sent: seq<seq<string>> := [];
    var delays: seq<nat> := [];
    var startIndex := 0;
    var k := 0;
    PrependNothing(BatchFrom(texts, 0, rpc, 0));
    while startIndex < |texts|
      invariant startIndex <= |texts|
      invariant BatchFrom(texts, 0, rpc, 0) == Prepend(all, sent, delays, BatchFrom(texts, startIndex, rpc, k))
      decreases |texts| - startIndex
    {
      var chunk := Window(texts, startIndex);
      var totalBytes := ByteCount(chunk);
      if totalBytes > MaxBytesPerRequest {
        chunk := if |chunk| < CutTexts then chunk else chunk[..CutTexts];
      }
      var reply := rpc(k, chunk);
      if reply.RequestError? {
        return Batch(Err(RequestFailed), sent + [chunk], delays);
      }
      var chunkTranslations;
      if |reply.translations| != |chunk| {
        chunkTranslations := PadChunk(chunk, reply.translations);
      } else {
        chunkTranslations := Translations(reply.translations);
      }
      var wait: seq<nat> := if startIndex + MaxTextsPerRequest < |texts| then [100] else [];
      var next := if startIndex + MaxTextsPerRequest < |texts| then startIndex + MaxTextsPerRequest else |texts|;
      PrependPrepend(all, sent, delays, chunkTranslations, [chunk], wait, BatchFrom(texts, next, rpc, k + 1));
      all, sent, delays := all + chunkTranslations, sent + [chunk], delays + wait;
      startIndex, k := next, k + 1;
    }
    b := Batch(Ok(all), sent, delays);
    assert all + [] == all && sent + [] == sent && delays + [] == delays;
  }

  /* ---------------- what a batch promises ---------------- */

  /** Where the window after the one at `start` begins. */
  function Next(texts: seq<string>, start: nat): (next: nat)
    requires start < |texts|
    ensures start < next <= |texts|
  {
    if start + MaxTextsPerRequest < |texts| then start + MaxTextsPerRequest else |texts|
  }

  /** How many texts from `start` on are never sent: the tail of every
      window cut to 50 texts. */
  function Dropped(texts: seq<string>, start: nat): nat
    requires start <= |texts|
    decreases |texts| - start
  {
    if start == |texts| then 0
    else |Window(texts, start)| - |ChunkAt(texts, start)| + Dropped(texts, Next(texts, start))
  }

  /** A batch that got every reply yields one string per text sent: all
      the texts but the dropped ones. */
  lemma {:induction false} BatchLength(texts: seq<string>, start: nat, rpc: Rpc, k: nat)
    requires start <= |texts|
    requires BatchFrom(texts, start, rpc, k).result.Ok?
    ensures |BatchFrom(texts, start, rpc, k).result.value| + Dropped(texts, start) == |texts| - start
    decreases |texts| - start
  {
    if start < |texts| {
      BatchLength(texts, Next(texts, start), rpc, k + 1);
    }
  }

  /** One step of BatchFrom: a failed request ends the batch with that
      chunk sent; a reply adds its output, its chunk and, unless it was
      the last window, a pause. */
  lemma BatchStep(texts: seq<string>, start: nat, rpc: Rpc, k: nat)
    requires start < |texts|
    ensures var chunk := ChunkAt(texts, start);
      && (rpc(k, chunk).RequestError? ==> BatchFrom(texts, start, rpc, k) == Batch(Err(RequestFailed), [chunk], []))
      && (rpc(k, chunk).Reply? ==>
            BatchFrom(texts, start, rpc, k) ==
            Prepend(ChunkOut(chunk, rpc(k, chunk).translations), [chunk],
                    if Next(texts, start) < |texts| then [100] else [], BatchFrom(texts, Next(texts, start), rpc, k + 1)))
  {
  }

  /** One pause of 100 ms comes before every request but the first, and
      nothing else is waited for. */
  lemma {:induction false} BatchDelays(texts: seq<string>, start: nat, rpc: Rpc, k: nat)
    requires start <= |texts|
    ensures var b := BatchFrom(texts, start, rpc, k);
      && (start < |texts| ==> |b.delays| + 1 == |b.sent|)
      && (start == |texts| ==> b.sent == [] && b.delays == [])
      && (forall j :: 0 <= j < |b.delays| ==> b.delays[j] == 100)
    decreases |texts| - start
  {
    if start < |texts| {
      BatchStep(texts, start, rpc, k);
      BatchDelays(texts, Next(texts, start), rpc, k + 1);
    }
  }

  /** `xs` are `f` at `start`, `start + 100`, and so on, all below
      `limit`. */
  predicate Spaced<T(==)>(f: nat -> T, start: nat, limit: nat, xs: seq<T>)
    decreases |xs|
  {
    xs == [] || (start < limit && xs[0] == f(start) && Spaced(f, start + 100, limit, xs[1..]))
  }

  /** The j-th of them is `f` at `start + 100 * j`. */
  lemma {:induction false} SpacedAt<T>(f: nat -> T, start: nat, limit: nat, xs: seq<T>, j: nat)
    requires Spaced(f, start, limit, xs) && j < |xs|
    ensures start + 100 * j < limit && xs[j] == f(start + 100 * j)
    decreases j
  {
    if j > 0 {
      SpacedAt(f, start + 100, limit, xs[1..], j - 1);
      assert start + 100 + 100 * (j - 1) == start + 100 * j;
    }
  }

  /** The chunk of the window at each start. */
  function ChunkOf(texts: seq<string>): nat -> seq<string> {
    (s: nat) => if s <= |texts| then ChunkAt(texts, s) else []
  }

  lemma ChunksCons(texts: seq<string>, start: nat, c: seq<string>, rs: seq<seq<string>>)
    requires start < |texts| && c == ChunkAt(texts, start)
    requires Spaced(ChunkOf(texts), start + 100, |texts|, rs)
    ensures Spaced(ChunkOf(texts), start, |texts|, [c] + rs)
  {
    assert ([c] + rs)[1..] == rs;
  }

  /** The requests carry the chunks of the windows in order. */
  lemma {:induction false} BatchSpaced(texts: seq<string>, start: nat, rpc: Rpc, k: nat)
    requires start <= |texts|
    ensures Spaced(ChunkOf(texts), start, |texts|, BatchFrom(texts, start, rpc, k).sent)
    decreases |texts| - start
  {
    if start < |texts| {
      var chunk := ChunkAt(texts, start);
      var next := Next(texts, start);
      var rest := BatchFrom(texts, next, rpc, k + 1).sent;
      BatchStep(texts, start, rpc, k);
      if rpc(k, chunk).Reply? {
        BatchSpaced(texts, next, rpc, k + 1);
        BatchDelays(texts, next, rpc, k + 1);
        assert rest == [] || next == start + 100;
        ChunksCons(texts, start, chunk, rest);
      } else {
        ChunksCons(texts, start, chunk, []);
        assert [chunk] + [] == [chunk];
      }
    }
  }

  /** The j-th request carries the chunk of the window at 100 * j. */
  lemma BatchRequests(texts: seq<string>, rpc: Rpc)
    ensures var sent := BatchFrom(texts, 0, rpc, 0).sent;
      forall j :: 0 <= j < |sent| ==> 100 * j < |texts| && sent[j] == ChunkAt(texts, 100 * j)
  {
    var sent := BatchFrom(texts, 0, rpc, 0).sent;
    BatchSpaced(texts, 0, rpc, 0);
    forall j | 0 <= j < |sent| ensures 100 * j < |texts| && sent[j] == ChunkAt(texts, 100 * j) {
      SpacedAt(ChunkOf(texts), 0, |texts|, sent, j);
    }
  }

  /** TranslateBatchV3Async returns a list exactly when the client is
      initialised and either the input is empty, or every request got a
      reply and no text was dropped; the list then has one entry per
      input text. Without a client or with an empty input no request is
      sent. */
  lemma BatchResult(initialised: bool, texts: Option<seq<string>>, rpc: Rpc)
    ensures var b := TranslateBatchSpec(initialised, texts, rpc);
      && (b.result.Ok? <==> initialised && (texts.None? || texts.value == [] ||
                                            (BatchFrom(texts.value, 0, rpc, 0).result.Ok? && Dropped(texts.value, 0) == 0)))
      && (b.result.Ok? && texts.Some? ==> |b.result.value| == |texts.value|)
      && (!initialised || texts.None? || texts.value == [] ==> b.sent == [])
  {
    if initialised && texts.Some? && texts.value != [] && BatchFrom(texts.value, 0, rpc, 0).result.Ok? {
      BatchLength(texts.value, 0, rpc, 0);
    }
  }

  /** Every text is at least one UTF-8 byte per character. */
  lemma {:induction false} ByteCountAtLeast(chunk: seq<string>, m: nat)
    requires forall i :: 0 <= i < |chunk| ==> |chunk[i]| >= m
    ensures ByteCount(chunk) >= m * |chunk|
  {
    if chunk != [] {
      ByteCountAtLeast(chunk[..|chunk| - 1], m);
      assert m * |chunk| == m * (|chunk| - 1) + m;
    }
  }

  /** A first window of more than 50 texts of 500 characters or more is
      over the byte limit, so the batch never returns a list: texts 51 to
      100 are not sent and the final count check throws. */
  lemma LongTextsFail(initialised: bool, texts: seq<string>, rpc: Rpc)
    requires |texts| > CutTexts
    requires forall i :: 0 <= i < |texts| ==> |texts[i]| >= 500
    ensures !TranslateBatchSpec(initialised, Some(texts), rpc).result.Ok?
  {
    var w := Window(texts, 0);
    ByteCountAtLeast(w, 500);
    assert |w| > CutTexts;
    BatchResult(initialised, Some(texts), rpc);
  }

  /* ---------------- the chunking as intended ---------------- */

  /** How many texts a request takes at each start: at least one, and no
      more than are left. */
  ghost predicate Cuts(texts: seq<string>, cut: nat -> nat) {
    forall s: nat :: s < |texts| ==> 1 <= cut(s) <= |texts| - s
  }

  /** The loop as evidently intended: each request takes `cut(start)`
      texts and the next window starts after them, so nothing is skipped. */
  function SplitBatchFrom(texts: seq<string>, start: nat, rpc: Rpc, k: nat, cut: nat -> nat): (b: Batch)
    requires start <= |texts| && Cuts(texts, cut)
    decreases |texts| - start
  {
    if start == |texts| then Batch(Ok([]), [], [])
    else
      var next := start + cut(start);
      var chunk := texts[start..next];
      match rpc(k, chunk)
      case RequestError => Batch(Err(RequestFailed), [chunk], [])
      case Reply(ts) =>
        var rest := SplitBatchFrom(texts, next, rpc, k + 1, cut);
        var wait := if next < |texts| then [100] else [];
        Prepend(ChunkOut(chunk, ts), [chunk], wait, rest)
  }

  /** The texts of the chunks, in order. */
  function Concat(chunks: seq<seq<string>>): seq<string> {
    if chunks == [] then [] else chunks[0] + Concat(chunks[1..])
  }

  /** One step of SplitBatchFrom, field by field. */
  lemma SplitStep(texts: seq<string>, start: nat, rpc: Rpc, k: nat, cut: nat -> nat)
    requires start < |texts| && Cuts(texts, cut)
    ensures var next := start + cut(start); var chunk := texts[start..next];
      var b, rest := SplitBatchFrom(texts, start, rpc, k, cut), SplitBatchFrom(texts, next, rpc, k + 1, cut);
      && (rpc(k, chunk).RequestError? ==> b.result.Err? && b.sent == [chunk])
      && (rpc(k, chunk).Reply? ==>
            && (b.result.Ok? <==> rest.result.Ok?)
            && (b.result.Ok? ==> b.result.value == ChunkOut(chunk, rpc(k, chunk).translations) + rest.result.value)
            && b.sent == [chunk] + rest.sent)
  {
  }

  /** With the intended stepping every text is sent exactly once, in
      order, when every request got a reply. */
  lemma {:induction false} SplitBatchSent(texts: seq<string>, start: nat, rpc: Rpc, k: nat, cut: nat -> nat)
    requires start <= |texts| && Cuts(texts, cut)
    requires SplitBatchFrom(texts, start, rpc, k, cut).result.Ok?
    ensures Concat(SplitBatchFrom(texts, start, rpc, k, cut).sent) == texts[start..]
    decreases |texts| - start
  {
    if start < |texts| {
      var next := start + cut(start);
      var chunk := texts[start..next];
      var b, rest := SplitBatchFrom(texts, start, rpc, k, cut), SplitBatchFrom(texts, next, rpc, k + 1, cut);
      SplitStep(texts, start, rpc, k, cut);
      assert rpc(k, chunk).Reply? && rest.result.Ok?;
      assert b.sent == [chunk] + rest.sent;
      SplitBatchSent(texts, next, rpc, k + 1, cut);
      ConcatCons(texts, start, next, chunk, rest.sent);
    }
  }

  lemma ConcatCons(texts: seq<string>, start: nat, next: nat, c: seq<string>, cs: seq<seq<string>>)
    requires start <= next <= |texts| && c == texts[start..next]
    requires Concat(cs) == texts[next..]
    ensures Concat([c] + cs) == texts[start..]
  {
    assert ([c] + cs)[1..] == cs;
    assert texts[start..] == texts[start..next] + texts[next..];
  }

  /** With the intended stepping a batch that got every reply has one
      string per text. */
  lemma {:induction false} SplitBatchLength(texts: seq<string>, start: nat, rpc: Rpc, k: nat, cut: nat -> nat)
    requires start <= |texts| && Cuts(texts, cut)
    requires SplitBatchFrom(texts, start, rpc, k, cut).result.Ok?
    ensures |SplitBatchFrom(texts, start, rpc, k, cut).result.value| == |texts| - start
    decreases |texts| - start
  {
    if start < |texts| {
      var next := start + cut(start);
      var chunk := texts[start..next];
      var b, rest := SplitBatchFrom(texts, start, rpc, k, cut), SplitBatchFrom(texts, next, rpc, k + 1, cut);
      SplitStep(texts, start, rpc, k, cut);
      assert rpc(k, chunk).Reply? && rest.result.Ok?;
      assert b.result.value == ChunkOut(chunk, rpc(k, chunk).translations) + rest.result.value;
      SplitBatchLength(texts, next, rpc, k + 1, cut);
    }
  }

  /** A chunk is the next one or more texts. */
  lemma ChunkIsSlice(texts: seq<string>, start: nat)
    requires start < |texts|
    ensures 1 <= |ChunkAt(texts, start)| && start + |ChunkAt(texts, start)| <= |texts|
    ensures ChunkAt(texts, start) == texts[start..start + |ChunkAt(texts, start)|]
  {
    var w := Window(texts, start);
    assert w == texts[start..start + |w|];
  }

  /** The size of the chunk TranslateBatchV3Async sends at each start. */
  function ChunkSize(texts: seq<string>): (cut: nat -> nat)
    ensures Cuts(texts, cut)
  {
    var cut := (s: nat) => if s < |texts| then |ChunkAt(texts, s)| else 1;
    assert Cuts(texts, cut) by {
      forall s: nat | s < |texts| ensures 1 <= cut(s) <= |texts| - s {
        ChunkIsSlice(texts, s);
      }
    }
    cut
  }

  /** TranslateBatchV3Async as intended: the same chunks and the same
      cut to 50 texts, but each window starting where the last chunk
      ended, then the final count check. */
  function IntendedBatch(initialised: bool, texts: Option<seq<string>>, rpc: Rpc): Batch {
    if !initialised then Batch(Err(NotInitialised), [], [])
    else if texts.None? || texts.value == [] then Batch(Ok([]), [], [])
    else
      var b := SplitBatchFrom(texts.value, 0, rpc, 0, ChunkSize(texts.value));
      if b.result.Ok? && |b.result.value| != |texts.value| then b.(result := Err(CountMismatch(|texts.value|, |b.result.value|)))
      else b
  }

  /** As intended, every request sends texts in their order, each once,
      and the count check never fails: the batch returns a list, one
      string per text, exactly when the client is initialised and every
      request got a reply. */
  lemma IntendedBatchComplete(initialised: bool, texts: Option<seq<string>>, rpc: Rpc)
    ensures var b := IntendedBatch(initialised, texts, rpc);
      && (b.result.Ok? <==> initialised && (texts.None? || texts.value == [] ||
                                            SplitBatchFrom(texts.value, 0, rpc, 0, ChunkSize(texts.value)).result.Ok?))
      && (b.result.Ok? && texts.Some? ==> |b.result.value| == |texts.value| && Concat(b.sent) == texts.value)
  {
    if initialised && texts.Some? && texts.value != [] {
      var cut := ChunkSize(texts.value);
      if SplitBatchFrom(texts.value, 0, rpc, 0, cut).result.Ok? {
        SplitBatchLength(texts.value, 0, rpc, 0, cut);
        SplitBatchSent(texts.value, 0, rpc, 0, cut);
        assert texts.value[0..] == texts.value;
      }
    } else if initialised && texts.Some? {
      assert Concat([]) == texts.value;
    }
  }

  /** The padding loop for a reply whose count differs from the chunk's. */
  method PadChunk(chunk: seq<string>, ts: seq<Option<string>>) returns (out: seq<string>)
    ensures out == Padded(chunk, ts, |chunk|)
  {
    out := [];
    for i := 0 to |chunk|
      invariant out == Padded(chunk, ts, i)
    {
      if i < |ts| {
        out := out + [OrElse(ts[i], chunk[i])];
      } else {
        out := out + [chunk[i]];
      }
    }
  }
}
