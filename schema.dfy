/** The canonical report fields and schema completion: filling every
    required key that is missing (or, under one policy, falsy) with a
    placeholder, in the order of the required-key list. */
module Schema {
  import opened Wrappers
  import opened PyValues
  import opened Dicts

  /** The twelve canonical fields, in the order the completion loops visit
      them. */
  const ReportKeys: seq<string> := [
    "patient_name", "examination_date", "sex", "age", "refby", "uhidno",
    "examination_type", "examined_area", "device_model", "imaging_findings",
    "diagnosis_summary", "comment"]

  /** The same fields as the Gemini line parser names them: the last one is
      spelt with a capital C. */
  const GeminiFields: seq<string> := [
    "patient_name", "examination_date", "sex", "age", "refby", "uhidno",
    "examination_type", "examined_area", "device_model", "imaging_findings",
    "diagnosis_summary", "Comment"]

  /** Both field lists name twelve distinct fields, and none of them is
      "raw_response". */
  lemma FieldListsDistinct()
    ensures forall i, j :: 0 <= i < j < |ReportKeys| ==> ReportKeys[i] != ReportKeys[j]
    ensures forall i, j :: 0 <= i < j < |GeminiFields| ==> GeminiFields[i] != GeminiFields[j]
    ensures "raw_response" !in ReportKeys
  {
  }

  /** Which present values a completion loop still overwrites. */
  datatype FillPolicy =
    | WhenAbsent          // `if key not in d`
    | WhenAbsentOrFalsy   // `if key not in d or not d[key]`

  /** Whether the completion loop overwrites key `k` of `es`. */
  predicate NeedsFill(es: Entries, k: string, policy: FillPolicy) {
    match Lookup(es, k)
    case None => true
    case Some(v) => policy == WhenAbsentOrFalsy && !Truthy(v)
  }

  /** One iteration of the completion loop. */
  function FillKey(es: Entries, k: string, p: Value, policy: FillPolicy): Entries {
    if NeedsFill(es, k, policy) then Insert(es, k, p) else es
  }

  /** The record after the completion loop has visited `keys` in order. */
  function Completed(es: Entries, keys: seq<string>, p: Value, policy: FillPolicy): Entries
    decreases |keys|
  {
    if keys == [] then es
    else FillKey(Completed(es, keys[..|keys| - 1], p, policy), keys[|keys| - 1], p, policy)
  }

  /** What completion does to each key: a listed key that needed filling
      holds the placeholder, every other key keeps its value (or stays
      absent). */
  lemma {:induction false} CompletedLookup(es: Entries, keys: seq<string>, p: Value, policy: FillPolicy, k: string)
    ensures Lookup(Completed(es, keys, p, policy), k)
         == if k in keys && NeedsFill(es, k, policy) then Some(p) else Lookup(es, k)
    decreases |keys|
  {
    if keys != [] {
      var init := keys[..|keys| - 1];
      assert keys == init + [keys[|keys| - 1]];
      CompletedLookup(es, init, p, policy, k);
    }
  }

  /** After completion every listed key is present; under the falsy policy
      with a truthy placeholder every listed key is also truthy. */
  lemma CompletedHasKeys(es: Entries, keys: seq<string>, p: Value, policy: FillPolicy)
    ensures forall k :: k in keys ==> HasKey(Completed(es, keys, p, policy), k)
    ensures policy == WhenAbsentOrFalsy && Truthy(p) ==>
      forall k :: k in keys ==>
        var v := Lookup(Completed(es, keys, p, policy), k); v.Some? && Truthy(v.value)
    ensures policy == WhenAbsent || Truthy(p) ==>
      forall k :: k in keys ==> !NeedsFill(Completed(es, keys, p, policy), k, policy)
  {
    forall k | k in keys {
      CompletedLookup(es, keys, p, policy, k);
    }
  }

  /** The keys the completion loop appends: the listed keys absent from
      `es`, each once, in list order. */
  function MissingKeys(es: Entries, keys: seq<string>): seq<string>
    decreases |keys|
  {
    if keys == [] then []
    else
      var init := keys[..|keys| - 1];
      var k := keys[|keys| - 1];
      MissingKeys(es, init) + (if HasKey(es, k) || k in init then [] else [k])
  }

  /** The placeholder entries for `keys`, in list order. */
  function FreshEntries(keys: seq<string>, p: Value): (r: Entries)
    ensures |r| == |keys| && forall i :: 0 <= i < |keys| ==> r[i] == (keys[i], p)
  {
    seq(|keys|, i requires 0 <= i < |keys| => (keys[i], p))
  }

  /** When none of a list of distinct keys is present, completion appends
      all of them, each with the placeholder, whatever the policy. */
  lemma {:induction false} CompletedAllAbsent(es: Entries, keys: seq<string>, p: Value, policy: FillPolicy)
    requires forall i :: 0 <= i < |keys| ==> !HasKey(es, keys[i])
    requires forall i, j :: 0 <= i < j < |keys| ==> keys[i] != keys[j]
    ensures Completed(es, keys, p, policy) == es + FreshEntries(keys, p)
    decreases |keys|
  {
    if keys != [] {
      var init := keys[..|keys| - 1];
      var k := keys[|keys| - 1];
      assert forall i :: 0 <= i < |init| ==> init[i] == keys[i];
      CompletedAllAbsent(es, init, p, policy);
      assert k !in init && !HasKey(es, k);
      assert keys == init + [k];
      FillAbsentAppends(es, init, k, p, policy);
    }
  }

  /** Filling a key that neither the record nor the earlier placeholders
      hold appends one more placeholder entry. */
  lemma FillAbsentAppends(es: Entries, init: seq<string>, k: string, p: Value, policy: FillPolicy)
    requires !HasKey(es, k) && k !in init
    ensures FillKey(es + FreshEntries(init, p), k, p, policy) == es + FreshEntries(init + [k], p)
  {
    var c := es + FreshEntries(init, p);
    forall i | 0 <= i < |c| ensures c[i].0 != k {
      if i >= |es| {
        assert c[i] == FreshEntries(init, p)[i - |es|];
      }
    }
    assert IndexOf(c, k) == -1;
    assert FillKey(c, k, p, policy) == c + [(k, p)];
    assert FreshEntries(init + [k], p) == FreshEntries(init, p) + [(k, p)];
    assert c + [(k, p)] == es + (FreshEntries(init, p) + [(k, p)]);
  }

  /** Completion keeps the existing keys in place and appends the missing
      required keys after them, in the order of the list. */
  lemma {:induction false} CompletedKeys(es: Entries, keys: seq<string>, p: Value, policy: FillPolicy)
    ensures KeysOf(Completed(es, keys, p, policy)) == KeysOf(es) + MissingKeys(es, keys)
    decreases |keys|
  {
    if keys != [] {
      var init := keys[..|keys| - 1];
      var k := keys[|keys| - 1];
      assert keys == init + [k];
      CompletedKeys(es, init, p, policy);
      CompletedLookup(es, init, p, policy, k);
      var c := Completed(es, init, p, policy);
      LookupHasKey(c, k);
      LookupHasKey(es, k);
      assert HasKey(c, k) <==> HasKey(es, k) || k in init;
      var extra := if HasKey(es, k) || k in init then [] else [k];
      assert MissingKeys(es, keys) == MissingKeys(es, init) + extra;
      if NeedsFill(c, k, policy) {
        assert KeysOf(Insert(c, k, p)) == KeysOf(c) + extra;
      } else {
        assert HasKey(c, k);
      }
    }
  }

  /** A Python dict never holds a key twice, and completion keeps it so. */
  lemma {:induction false} CompletedDistinct(es: Entries, keys: seq<string>, p: Value, policy: FillPolicy)
    requires DistinctKeys(es)
    ensures DistinctKeys(Completed(es, keys, p, policy))
    decreases |keys|
  {
    if keys != [] {
      CompletedDistinct(es, keys[..|keys| - 1], p, policy);
    }
  }

  /** A record that already satisfies every listed key is left exactly as
      it is: no placeholder is written and nothing moves. */
  lemma {:induction false} CompletedUnchanged(es: Entries, keys: seq<string>, p: Value, policy: FillPolicy)
    requires forall k :: k in keys ==> !NeedsFill(es, k, policy)
    ensures Completed(es, keys, p, policy) == es
    decreases |keys|
  {
    if keys != [] {
      CompletedUnchanged(es, keys[..|keys| - 1], p, policy);
    }
  }

  /** Completing a completed record changes nothing, provided the loop does
      not overwrite its own placeholder. */
  lemma CompletedIdempotent(es: Entries, keys: seq<string>, p: Value, policy: FillPolicy)
    requires policy == WhenAbsent || Truthy(p)
    ensures Completed(Completed(es, keys, p, policy), keys, p, policy) == Completed(es, keys, p, policy)
  {
    CompletedHasKeys(es, keys, p, policy);
    CompletedUnchanged(Completed(es, keys, p, policy), keys, p, policy);
  }

  /** The completion loop, run in place on a dict. */
  method Complete(data: Record, keys: seq<string>, p: Value, policy: FillPolicy)
    requires data.Valid()
    modifies data
    ensures data.Valid() && data.entries == Completed(old(data.entries), keys, p, policy)
  {
    ghost var before := data.entries;
    for i := 0 to |keys|
      invariant data.Valid()
      invariant data.entries == Completed(before, keys[..i], p, policy)
    {
      var key := keys[i];
      assert keys[..i + 1][..i] == keys[..i] && keys[..i + 1][i] == key;
      assert Completed(before, keys[..i + 1], p, policy) == FillKey(data.entries, key, p, policy);
      if !data.Contains(key) || (policy == WhenAbsentOrFalsy && !Truthy(data.Get(key))) {
        data.SetItem(key, p);
      }
    }
    assert keys[..|keys|] == keys;
  }
}
