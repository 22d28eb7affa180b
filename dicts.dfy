/** Python dicts: as values, association lists in insertion order; as the
    mutable objects the pipeline updates in place, the class `Record`. */
module Dicts {
  import opened Wrappers
  import opened PyValues

  type Entries = seq<(string, Value)>

  /** The keys in iteration order. */
  function KeysOf(es: Entries): seq<string> {
    seq(|es|, i requires 0 <= i < |es| => es[i].0)
  }

  /** No key occurs twice, as in every Python dict. */
  predicate DistinctKeys(es: Entries) {
    forall i, j :: 0 <= i < j < |es| ==> es[i].0 != es[j].0
  }

  /** The position of key `k` at or after `lo`, or -1 when it is absent
      there. */
  function IndexFrom(es: Entries, k: string, lo: nat): (r: int)
    requires lo <= |es|
    ensures -1 <= r < |es|
    ensures r >= 0 ==> lo <= r && es[r].0 == k
    ensures forall i :: lo <= i < |es| && (r == -1 || i < r) ==> es[i].0 != k
    decreases |es| - lo
  {
    if lo == |es| then -1 else if es[lo].0 == k then lo else IndexFrom(es, k, lo + 1)
  }

  /** The position of key `k`, or -1 when it is absent. */
  function IndexOf(es: Entries, k: string): (r: int)
    ensures -1 <= r < |es|
    ensures r >= 0 ==> es[r].0 == k
    ensures forall i :: 0 <= i < |es| && (r == -1 || i < r) ==> es[i].0 != k
  {
    IndexFrom(es, k, 0)
  }

  /** Two entry lists with the same keys in the same order place every key
      at the same position. */
  lemma IndexOfSameKeys(es: Entries, fs: Entries, k: string)
    requires KeysOf(es) == KeysOf(fs)
    ensures IndexOf(es, k) == IndexOf(fs, k)
  {
    assert |es| == |KeysOf(es)| == |fs|;
    forall i | 0 <= i < |es| ensures es[i].0 == fs[i].0 {
      assert KeysOf(es)[i] == KeysOf(fs)[i];
    }
  }

  /** `k in d`. */
  predicate HasKey(es: Entries, k: string) {
    IndexOf(es, k) >= 0
  }

  /** `d.get(k)`. */
  function Lookup(es: Entries, k: string): Option<Value> {
    var i := IndexOf(es, k);
    if i < 0 then None else Some(es[i].1)
  }

  lemma LookupHasKey(es: Entries, k: string)
    ensures HasKey(es, k) <==> Lookup(es, k).Some?
  {
  }

  /** `d[k] = v`: an existing key keeps its position and takes the new
      value; a new key goes last. */
  function Insert(es: Entries, k: string, v: Value): (r: Entries)
    ensures Lookup(r, k) == Some(v)
    ensures forall j :: j != k ==> Lookup(r, j) == Lookup(es, j)
    ensures KeysOf(r) == if HasKey(es, k) then KeysOf(es) else KeysOf(es) + [k]
    ensures DistinctKeys(es) ==> DistinctKeys(r)
  {
    var i := IndexOf(es, k);
    var r := if i < 0 then es + [(k, v)] else es[i := (k, v)];
    InsertFacts(es, k, v, r);
    r
  }

  /** Appending an entry leaves every earlier key where it was and finds
      the new key, when it is new, at the end. */
  lemma IndexOfAppend(es: Entries, k: string, v: Value, j: string)
    ensures IndexOf(es + [(k, v)], j)
         == if IndexOf(es, j) >= 0 then IndexOf(es, j) else if j == k then |es| else -1
  {
    var fs := es + [(k, v)];
    var r, q := IndexOf(fs, j), IndexOf(es, j);
    assert forall i :: 0 <= i < |es| ==> fs[i] == es[i];
    assert fs[|es|] == (k, v);
    if q >= 0 {
      assert fs[q].0 == j;
    } else if j == k {
      assert fs[|es|].0 == j;
    }
  }

  lemma InsertFacts(es: Entries, k: string, v: Value, r: Entries)
    requires r == if IndexOf(es, k) < 0 then es + [(k, v)] else es[IndexOf(es, k) := (k, v)]
    ensures Lookup(r, k) == Some(v)
    ensures forall j :: j != k ==> Lookup(r, j) == Lookup(es, j)
    ensures KeysOf(r) == if HasKey(es, k) then KeysOf(es) else KeysOf(es) + [k]
    ensures DistinctKeys(es) ==> DistinctKeys(r)
  {
    if IndexOf(es, k) >= 0 {
      ReplaceFacts(es, IndexOf(es, k), v);
    } else {
      AppendFacts(es, k, v);
    }
  }

  /** Replacing the value at the index of a present key. */
  lemma ReplaceFacts(es: Entries, i: int, v: Value)
    requires 0 <= i < |es| && IndexOf(es, es[i].0) == i
    ensures var r := es[i := (es[i].0, v)];
      && KeysOf(r) == KeysOf(es)
      && Lookup(r, es[i].0) == Some(v)
      && (forall j :: j != es[i].0 ==> Lookup(r, j) == Lookup(es, j))
      && (DistinctKeys(es) ==> DistinctKeys(r))
  {
    var r := es[i := (es[i].0, v)];
    assert forall m :: 0 <= m < |r| ==> r[m].0 == es[m].0;
    assert KeysOf(r) == KeysOf(es);
    forall j ensures IndexOf(r, j) == IndexOf(es, j) { IndexOfSameKeys(r, es, j); }
  }

  /** Appending a key that is absent. */
  lemma AppendFacts(es: Entries, k: string, v: Value)
    requires IndexOf(es, k) < 0
    ensures var r := es + [(k, v)];
      && KeysOf(r) == KeysOf(es) + [k]
      && Lookup(r, k) == Some(v)
      && (forall j :: j != k ==> Lookup(r, j) == Lookup(es, j))
      && (DistinctKeys(es) ==> DistinctKeys(r))
  {
    var r := es + [(k, v)];
    assert forall m :: 0 <= m < |es| ==> r[m] == es[m];
    assert KeysOf(r) == KeysOf(es) + [k];
    forall j ensures IndexOf(r, j) == if IndexOf(es, j) >= 0 then IndexOf(es, j) else if j == k then |es| else -1 {
      IndexOfAppend(es, k, v, j);
    }
  }

  /** In a dict with distinct keys, each entry is found at its own index. */
  lemma IndexOfDistinct(es: Entries, i: int)
    requires DistinctKeys(es) && 0 <= i < |es|
    ensures IndexOf(es, es[i].0) == i
  {
  }

  /** Assigning to a key that is present replaces that one entry in place. */
  lemma InsertAt(es: Entries, i: int, v: Value)
    requires DistinctKeys(es) && 0 <= i < |es|
    ensures Insert(es, es[i].0, v) == es[i := (es[i].0, v)]
  {
    IndexOfDistinct(es, i);
  }

  /** Where each key sits after `d[k] = v`: a key already present stays at
      its position, and a new key `k` goes at the end. */
  lemma InsertIndex(es: Entries, k: string, v: Value, j: string)
    ensures IndexOf(Insert(es, k, v), j)
         == if HasKey(es, j) then IndexOf(es, j) else if j == k then |es| else -1
  {
    if HasKey(es, k) {
      IndexOfSameKeys(Insert(es, k, v), es, j);
    } else {
      assert Insert(es, k, v) == es + [(k, v)];
      IndexOfAppend(es, k, v, j);
    }
  }

  /** Keys appended after the keys of `es` leave every key of `es` at its
      position. */
  lemma IndexOfKeysPrefix(es: Entries, fs: Entries, tail: seq<string>, k: string)
    requires KeysOf(fs) == KeysOf(es) + tail && HasKey(es, k)
    ensures IndexOf(fs, k) == IndexOf(es, k)
  {
    var i := IndexOf(es, k);
    forall m | 0 <= m < |es| ensures fs[m].0 == es[m].0 {
      assert KeysOf(fs)[m] == KeysOf(es)[m];
    }
  }

  /** A parser (json.loads, ast.literal_eval) never produces a dict with a
      repeated key. */
  ghost predicate ParsesDistinct(parse: string -> Option<Value>) {
    forall s :: parse(s).Some? && parse(s).value.Dict? ==> DistinctKeys(parse(s).value.entries)
  }

  /** A Python dict object: the pipeline's record, updated in place. */
  class Record {
    var entries: Entries

    ghost predicate Valid()
      reads this
    {
      DistinctKeys(entries)
    }

    constructor (es: Entries)
      requires DistinctKeys(es)
      ensures Valid() && entries == es
    {
      entries := es;
    }

    /** `key in d`. */
    function Contains(k: string): bool
      reads this
    {
      HasKey(entries, k)
    }

    /** `d[k]` for a key that is present. */
    function Get(k: string): (v: Value)
      reads this
      requires Contains(k)
      ensures Lookup(entries, k) == Some(v)
    {
      entries[IndexOf(entries, k)].1
    }

    /** `d[k] = v`. */
    method SetItem(k: string, v: Value)
      requires Valid()
      modifies this
      ensures Valid() && entries == Insert(old(entries), k, v)
    {
      entries := Insert(entries, k, v);
    }
  }
}
