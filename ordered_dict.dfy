/** A C# Dictionary<string, T> as the codec sees it: an association list
    enumerated in insertion order. Assigning to a key that is present
    replaces its value in place; assigning to a new key appends it. */
module OrderedDict {
  import opened Results

  datatype Entry<+T> = Entry(key: string, value: T)

  type Dict<T> = seq<Entry<T>>

  function Keys<T>(d: Dict<T>): (ks: seq<string>)
    ensures |ks| == |d|
    ensures forall i :: 0 <= i < |d| ==> ks[i] == d[i].key
  {
    seq(|d|, i requires 0 <= i < |d| => d[i].key)
  }

  ghost predicate DistinctKeys<T>(d: Dict<T>) {
    forall i, j :: 0 <= i < j < |d| ==> d[i].key != d[j].key
  }

  /** Position of the first entry with key `k`. */
  function IndexOf<T>(d: Dict<T>, k: string): (r: Option<nat>)
    ensures r.Some? ==> r.value < |d| && d[r.value].key == k
    ensures r.Some? ==> forall j :: 0 <= j < r.value ==> d[j].key != k
    ensures r.None? <==> k !in Keys(d)
  {
    if d == [] then None
    else if d[0].key == k then Some(0)
    else match IndexOf(d[1..], k)
      case None => None
      case Some(j) => Some(j + 1)
  }

  function Get<T>(d: Dict<T>, k: string): Option<T> {
    match IndexOf(d, k)
    case None => None
    case Some(i) => Some(d[i].value)
  }

  /** `dict[k] = v`: an existing key keeps its position and takes the new
      value, a new key is appended. */
  function Put<T>(d: Dict<T>, k: string, v: T): (r: Dict<T>)
    ensures k in Keys(d) ==> |r| == |d|
    ensures k !in Keys(d) ==> r == d + [Entry(k, v)]
  {
    match IndexOf(d, k)
    case Some(i) => d[i := Entry(k, v)]
    case None => d + [Entry(k, v)]
  }

  lemma PutKeys<T>(d: Dict<T>, k: string, v: T)
    ensures k in Keys(d) ==> Keys(Put(d, k, v)) == Keys(d)
    ensures k !in Keys(d) ==> Keys(Put(d, k, v)) == Keys(d) + [k]
  {
  }

  /** After `dict[k] = v` the key `k` holds `v` and every other key holds
      what it held before. */
  lemma PutGet<T>(d: Dict<T>, k: string, v: T)
    ensures Get(Put(d, k, v), k) == Some(v)
    ensures forall k' :: k' != k ==> Get(Put(d, k, v), k') == Get(d, k')
  {
    var r := Put(d, k, v);
    PutKeys(d, k, v);
    match IndexOf(d, k)
    case Some(i) =>
      assert IndexOf(r, k) == Some(i) by { IndexOfSameKeys(r, d, k); }
      forall k' | k' != k ensures Get(r, k') == Get(d, k') {
        IndexOfSameKeys(r, d, k');
      }
    case None =>
      forall k' | k' != k ensures Get(r, k') == Get(d, k') {
        IndexOfPrefix(d, Entry(k, v), k');
      }
      IndexOfPrefix(d, Entry(k, v), k);
  }

  lemma PutDistinct<T>(d: Dict<T>, k: string, v: T)
    requires DistinctKeys(d)
    ensures DistinctKeys(Put(d, k, v))
  {
    PutKeys(d, k, v);
    var r := Put(d, k, v);
    forall i, j | 0 <= i < j < |r| ensures r[i].key != r[j].key {
      assert Keys(r)[i] == r[i].key && Keys(r)[j] == r[j].key;
      if k in Keys(d) {
        assert Keys(d)[i] == d[i].key && Keys(d)[j] == d[j].key;
      } else if j == |d| {
        assert d[i].key in Keys(d);
      }
    }
  }

  lemma IndexOfSameKeys<T>(d: Dict<T>, e: Dict<T>, k: string)
    requires Keys(d) == Keys(e)
    ensures IndexOf(d, k) == IndexOf(e, k)
  {
    if d != [] {
      assert Keys(d[1..]) == Keys(e[1..]);
      IndexOfSameKeys(d[1..], e[1..], k);
    }
  }

  /** With distinct keys the key at position `j` is found at `j`, so
      `dict[key]` reads and assigns that very entry. */
  lemma IndexOfDistinct<T>(d: Dict<T>, j: nat)
    requires DistinctKeys(d) && j < |d|
    ensures IndexOf(d, d[j].key) == Some(j)
    ensures Get(d, d[j].key) == Some(d[j].value)
    ensures Put(d, d[j].key, d[j].value) == d
  {
    assert Keys(d)[j] == d[j].key;
  }

  /** Two dictionaries with the same key sequence: one has a repeated key
      exactly when the other has. */
  lemma SameKeysDistinct<T, U>(d: Dict<T>, e: Dict<U>)
    requires Keys(d) == Keys(e) && DistinctKeys(d)
    ensures DistinctKeys(e)
  {
    forall i, j | 0 <= i < j < |e| ensures e[i].key != e[j].key {
      assert Keys(d)[i] == Keys(e)[i] && Keys(d)[j] == Keys(e)[j];
    }
  }

  lemma IndexOfPrefix<T>(d: Dict<T>, x: Entry<T>, k: string)
    ensures k in Keys(d) ==> IndexOf(d + [x], k) == IndexOf(d, k)
    ensures k !in Keys(d) && k == x.key ==> IndexOf(d + [x], k) == Some(|d|)
  {
    if d != [] {
      assert (d + [x])[1..] == d[1..] + [x];
      IndexOfPrefix(d[1..], x, k);
    }
  }

  /** Successive assignments `dict[e.key] = e.value` for the entries of `es`
      in order, starting from `acc`. */
  function PutAll<T>(acc: Dict<T>, es: seq<Entry<T>>): Dict<T>
    decreases |es|
  {
    if es == [] then acc else PutAll(Put(acc, es[0].key, es[0].value), es[1..])
  }

  lemma {:induction false} PutAllSnoc<T>(acc: Dict<T>, es: seq<Entry<T>>, e: Entry<T>)
    ensures PutAll(acc, es + [e]) == Put(PutAll(acc, es), e.key, e.value)
    decreases |es|
  {
    if es == [] {
      assert [] + [e] == [e];
    } else {
      assert (es + [e])[1..] == es[1..] + [e];
      PutAllSnoc(Put(acc, es[0].key, es[0].value), es[1..], e);
    }
  }

  /** Assigning distinct new keys only appends. */
  lemma {:induction false} PutAllDistinct<T>(acc: Dict<T>, es: seq<Entry<T>>)
    requires DistinctKeys(acc + es)
    ensures PutAll(acc, es) == acc + es
    decreases |es|
  {
    if es != [] {
      assert (acc + es)[|acc|] == es[0];
      assert es[0].key !in Keys(acc) by {
        forall i | 0 <= i < |acc| ensures acc[i].key != es[0].key {
          assert (acc + es)[i] == acc[i];
        }
      }
      assert acc + [es[0]] + es[1..] == acc + es;
      PutAllDistinct(acc + [es[0]], es[1..]);
    }
  }

  ghost predicate HasRepeatedKey<T>(es: seq<Entry<T>>) {
    exists i, j :: 0 <= i < j < |es| && es[i].key == es[j].key
  }

  /** The entries of `es` with key `k`'s last value: what the dictionary
      holds for `k` after all assignments. */
  function LastValue<T>(es: seq<Entry<T>>, k: string): Option<T>
    decreases |es|
  {
    if es == [] then None
    else if es[|es| - 1].key == k then Some(es[|es| - 1].value)
    else LastValue(es[..|es| - 1], k)
  }

  /** Entries of `d` appear in the order in which their keys first occur in `es`. */
  ghost predicate OrderedByFirstOccurrence<T>(d: Dict<T>, es: seq<Entry<T>>) {
    forall i, j :: 0 <= i < j < |d| ==> FirstBefore(es, d[i].key, d[j].key)
  }

  ghost predicate FirstBefore<T>(es: seq<Entry<T>>, a: string, b: string) {
    IndexOf(es, a).Some? && IndexOf(es, b).Some? && IndexOf(es, a).value < IndexOf(es, b).value
  }

  ghost predicate KeyIn<T>(d: Dict<T>, k: string) {
    k in Keys(d)
  }

  ghost predicate SomeKeyIn<T>(es: seq<Entry<T>>, acc: Dict<T>) {
    exists i :: 0 <= i < |es| && KeyIn(acc, es[i].key)
  }

  lemma {:induction false} PutAllKeys<T>(acc: Dict<T>, es: seq<Entry<T>>)
    requires DistinctKeys(acc)
    ensures DistinctKeys(PutAll(acc, es))
    ensures forall k :: k in Keys(PutAll(acc, es)) <==> k in Keys(acc) || k in Keys(es)
    decreases |es|
  {
    if es != [] {
      var acc' := Put(acc, es[0].key, es[0].value);
      PutKeys(acc, es[0].key, es[0].value);
      PutDistinct(acc, es[0].key, es[0].value);
      assert forall k :: k in Keys(acc') <==> k in Keys(acc) || k == es[0].key;
      assert forall k :: k in Keys(es) <==> k == es[0].key || k in Keys(es[1..]);
      PutAllKeys(acc', es[1..]);
    }
  }

  lemma {:induction false} PutAllGet<T>(acc: Dict<T>, es: seq<Entry<T>>, k: string)
    ensures Get(PutAll(acc, es), k) == if k in Keys(es) then LastValue(es, k) else Get(acc, k)
    decreases |es|
  {
    if es != [] {
      var p := es[..|es| - 1];
      var e := es[|es| - 1];
      assert es == p + [e];
      PutAllSnoc(acc, p, e);
      var before := PutAll(acc, p);
      assert PutAll(acc, es) == Put(before, e.key, e.value);
      PutGet(before, e.key, e.value);
      if k == e.key {
        assert Keys(es)[|es| - 1] == k;
      } else {
        PutAllGet(acc, p, k);
        assert k in Keys(es) <==> k in Keys(p) by {
          KeysSnoc(p, e);
        }
      }
    }
  }

  lemma KeysSnoc<T>(p: seq<Entry<T>>, e: Entry<T>)
    ensures Keys(p + [e]) == Keys(p) + [e.key]
  {
  }

  lemma {:induction false} PutAllOrder<T>(es: seq<Entry<T>>)
    ensures OrderedByFirstOccurrence(PutAll([], es), es)
    decreases |es|
  {
    if es != [] {
      var p := es[..|es| - 1];
      var e := es[|es| - 1];
      assert es == p + [e];
      PutAllOrder(p);
      PutAllSnoc([], p, e);
      PutAllKeys([], p);
      var dp := PutAll([], p);
      var d := Put(dp, e.key, e.value);
      PutKeys(dp, e.key, e.value);
      assert forall i :: 0 <= i < |dp| ==> d[i].key == dp[i].key by {
        if e.key in Keys(dp) {
          assert Keys(d) == Keys(dp);
        }
      }
      forall i, j | 0 <= i < j < |d| ensures FirstBefore(es, d[i].key, d[j].key) {
        assert dp[i].key in Keys(dp);
        IndexOfPrefix(p, e, dp[i].key);
        if j < |dp| {
          assert FirstBefore(p, dp[i].key, dp[j].key);
          assert dp[j].key in Keys(dp);
          IndexOfPrefix(p, e, dp[j].key);
        } else {
          assert e.key !in Keys(dp);
          IndexOfPrefix(p, e, e.key);
        }
      }
    }
  }

  lemma {:induction false} PutAllSize<T>(acc: Dict<T>, es: seq<Entry<T>>)
    ensures |PutAll(acc, es)| <= |acc| + |es|
    ensures HasRepeatedKey(es) || SomeKeyIn(es, acc) ==> |PutAll(acc, es)| < |acc| + |es|
    decreases |es|
  {
    if es != [] {
      var acc' := Put(acc, es[0].key, es[0].value);
      PutKeys(acc, es[0].key, es[0].value);
      var rest := es[1..];
      PutAllSize(acc', rest);
      if es[0].key !in Keys(acc) {
        assert Keys(acc') == Keys(acc) + [es[0].key];
        if HasRepeatedKey(es) {
          var i, j :| 0 <= i < j < |es| && es[i].key == es[j].key;
          if i == 0 {
            assert KeyIn(acc', rest[j - 1].key);
            assert SomeKeyIn(rest, acc');
          } else {
            assert rest[i - 1].key == rest[j - 1].key;
            assert HasRepeatedKey(rest);
          }
        }
        if SomeKeyIn(es, acc) {
          var i :| 0 <= i < |es| && KeyIn(acc, es[i].key);
          assert KeyIn(acc', rest[i - 1].key);
          assert SomeKeyIn(rest, acc');
        }
      }
    }
  }

  /** Reading entries into a fresh dictionary keeps one entry per distinct
      key, at the position of the key's first occurrence, holding the value
      of its last occurrence; a repeated key leaves fewer entries. */
  lemma PutAllCollapses<T>(es: seq<Entry<T>>)
    ensures var d := PutAll([], es);
      && DistinctKeys(d)
      && (forall k :: k in Keys(d) <==> k in Keys(es))
      && (forall k :: Get(d, k) == LastValue(es, k))
      && OrderedByFirstOccurrence(d, es)
      && |d| <= |es|
      && (HasRepeatedKey(es) ==> |d| < |es|)
  {
    PutAllKeys([], es);
    PutAllOrder(es);
    PutAllSize([], es);
    forall k ensures Get(PutAll([], es), k) == LastValue(es, k) {
      PutAllGet([], es, k);
      if k !in Keys(es) {
        LastValueAbsent(es, k);
      }
    }
  }

  lemma {:induction false} LastValueAbsent<T>(es: seq<Entry<T>>, k: string)
    requires k !in Keys(es)
    ensures LastValue(es, k) == None
    decreases |es|
  {
    if es != [] {
      assert Keys(es[..|es| - 1]) == Keys(es)[..|es| - 1];
      LastValueAbsent(es[..|es| - 1], k);
    }
  }
}
