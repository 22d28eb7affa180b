/** The Gemini path of the first web app: `call_gemini_model` reads the
    model's reply line by line, keeps every "key：value" line (split at
    the first full-width colon, both sides stripped), and then adds every
    required field the reply did not name, as "". The model call itself is
    left out: the reply text is the input. */
module GeminiApp {
  import opened Wrappers
  import opened PyStrings
  import opened PyValues
  import opened Dicts
  import opened Schema

  /** U+FF1A, the full-width colon the parser splits on. */
  const FullWidthColon: char := '\U{FF1A}'

  /** The entry one reply line contributes: the stripped text before its
      first full-width colon and the stripped text after it; a line without
      one contributes nothing. */
  function LineEntry(line: string): Option<(string, string)> {
    if FullWidthColon in line then
      var parts := SplitOnce(line, FullWidthColon);
      Some((Strip(parts.0), Strip(parts.1)))
    else None
  }

  /** A line counts exactly when it holds a full-width colon; it is split
      at the first one, so the value keeps any later colons. */
  lemma LineEntrySplit(key: string, value: string)
    requires FullWidthColon !in key
    ensures LineEntry(key + [FullWidthColon] + value) == Some((Strip(key), Strip(value)))
  {
    SplitOnceAt(key, FullWidthColon, value);
  }

  /** A line that holds no full-width colon, an ASCII ':' included, adds
      nothing. */
  lemma LineEntryNone(line: string)
    ensures LineEntry(line).None? <==> FullWidthColon !in line
  {
  }

  /** Whether a line's entry assigns key `k`. */
  predicate Assigns(e: Option<(string, string)>, k: string) {
    e.Some? && e.value.0 == k
  }

  /** The entries of the reply's lines, line by line. */
  function LineEntries(lines: seq<string>): seq<Option<(string, string)>> {
    seq(|lines|, i requires 0 <= i < |lines| => LineEntry(lines[i]))
  }

  /** The dict the line loop builds from the lines' entries,
      `structured_data[key] = value` for each entry in order. */
  function Fields(entries: seq<Option<(string, string)>>): Entries
    decreases |entries|
  {
    if entries == [] then []
    else
      var prev := Fields(entries[..|entries| - 1]);
      match entries[|entries| - 1]
      case None => prev
      case Some((k, v)) => Insert(prev, k, Str(v))
  }

  /** The dict the line loop builds from a reply's lines. */
  function ResponseFields(lines: seq<string>): Entries {
    Fields(LineEntries(lines))
  }

  /** One more entry either assigns `k` its value or leaves `k` alone. */
  lemma FieldsStep(entries: seq<Option<(string, string)>>, k: string)
    requires entries != []
    ensures Lookup(Fields(entries), k)
         == if Assigns(entries[|entries| - 1], k) then Some(Str(entries[|entries| - 1].value.1))
            else Lookup(Fields(entries[..|entries| - 1]), k)
  {
  }

  /** The dict after one more line of the loop. */
  lemma FieldsPrefixStep(entries: seq<Option<(string, string)>>, i: int)
    requires 0 <= i < |entries|
    ensures Fields(entries[..i + 1]) == match entries[i]
      case None => Fields(entries[..i])
      case Some((k, v)) => Insert(Fields(entries[..i]), k, Str(v))
  {
    assert entries[..i + 1][..i] == entries[..i];
  }

  /** The index of the last entry that assigns `k`, or -1 when none
      does. */
  function LastAssign(entries: seq<Option<(string, string)>>, k: string): (r: int)
    ensures -1 <= r < |entries|
    ensures r >= 0 ==> Assigns(entries[r], k)
    ensures forall j :: r < j < |entries| ==> !Assigns(entries[j], k)
    decreases |entries|
  {
    if entries == [] then -1
    else if Assigns(entries[|entries| - 1], k) then |entries| - 1
    else
      var r := LastAssign(entries[..|entries| - 1], k);
      assert forall j :: r < j < |entries| - 1 ==> entries[..|entries| - 1][j] == entries[j];
      r
  }

  /** A key is present exactly when some entry assigns it, and then it
      holds the value of the last entry that does: a later line overwrites
      an earlier one. */
  lemma {:induction false} FieldsLookup(entries: seq<Option<(string, string)>>, k: string)
    ensures var i := LastAssign(entries, k);
      Lookup(Fields(entries), k) == if i < 0 then None else Some(Str(entries[i].value.1))
    decreases |entries|
  {
    if entries != [] {
      var init := entries[..|entries| - 1];
      FieldsLookup(init, k);
      FieldsStep(entries, k);
      var i := LastAssign(init, k);
      if i >= 0 {
        assert init[i] == entries[i];
      }
    }
  }

  /** The line loop never repeats a key, and every value it stores is a
      string. */
  lemma {:induction false} FieldsShape(entries: seq<Option<(string, string)>>)
    ensures DistinctKeys(Fields(entries))
    ensures forall i :: 0 <= i < |Fields(entries)| ==> Fields(entries)[i].1.Str?
    decreases |entries|
  {
    if entries != [] {
      var init := entries[..|entries| - 1];
      FieldsShape(init);
      var prev := Fields(init);
      match entries[|entries| - 1]
      case None =>
      case Some((k, v)) =>
        var r := Insert(prev, k, Str(v));
        forall i | 0 <= i < |r| ensures r[i].1.Str? {
          IndexOfDistinct(r, i);
          if r[i].0 != k {
            IndexOfDistinct(prev, IndexOf(prev, r[i].0));
          }
        }
    }
  }

  /** The index of the first entry that assigns `k`, or -1 when none
      does. */
  function FirstAssign(entries: seq<Option<(string, string)>>, k: string): (r: int)
    ensures -1 <= r < |entries|
    ensures r >= 0 ==> Assigns(entries[r], k)
    ensures forall j :: 0 <= j < |entries| && (r < 0 || j < r) ==> !Assigns(entries[j], k)
    decreases |entries|
  {
    if entries == [] then -1
    else
      var init := entries[..|entries| - 1];
      var r := FirstAssign(init, k);
      assert forall j :: 0 <= j < |init| ==> init[j] == entries[j];
      if r >= 0 then r
      else if Assigns(entries[|entries| - 1], k) then |entries| - 1
      else -1
  }

  /** A key is present in the loop's dict exactly when some entry assigns
      it. */
  lemma FieldsHasKey(entries: seq<Option<(string, string)>>, k: string)
    ensures HasKey(Fields(entries), k) <==> FirstAssign(entries, k) >= 0
  {
    FieldsLookup(entries, k);
    LookupHasKey(Fields(entries), k);
  }

  /** The loop's dict lists its keys in the order of the entries that
      first assign them: a later line that assigns a key again changes its
      value, not its place. */
  lemma {:induction false} FieldsOrder(entries: seq<Option<(string, string)>>, k1: string, k2: string)
    requires 0 <= FirstAssign(entries, k1) < FirstAssign(entries, k2)
    ensures 0 <= IndexOf(Fields(entries), k1) < IndexOf(Fields(entries), k2)
    decreases |entries|
  {
    var n := |entries|;
    var init := entries[..n - 1];
    var prev := Fields(init);
    assert FirstAssign(init, k1) == FirstAssign(entries, k1);
    FieldsHasKey(init, k1);
    if FirstAssign(entries, k2) == n - 1 {
      assert FirstAssign(init, k2) < 0;
      FieldsHasKey(init, k2);
      var e := entries[n - 1];
      assert Fields(entries) == Insert(prev, k2, Str(e.value.1));
      InsertIndex(prev, k2, Str(e.value.1), k1);
      InsertIndex(prev, k2, Str(e.value.1), k2);
    } else {
      assert FirstAssign(init, k2) == FirstAssign(entries, k2);
      FieldsOrder(init, k1, k2);
      FieldsHasKey(init, k2);
      match entries[n - 1]
      case None =>
      case Some((k, v)) =>
        InsertIndex(prev, k, Str(v), k1);
        InsertIndex(prev, k, Str(v), k2);
    }
  }

  /** For the reply's lines: a key is present exactly when some line
      assigns it, and then it holds the stripped value of the last line
      that does. */
  lemma ResponseFieldsLookup(lines: seq<string>, k: string)
    ensures var es := LineEntries(lines); var i := LastAssign(es, k);
      && (i < 0 <==> forall j :: 0 <= j < |lines| ==> !Assigns(LineEntry(lines[j]), k))
      && Lookup(ResponseFields(lines), k) == if i < 0 then None else Some(Str(LineEntry(lines[i]).value.1))
  {
    var es := LineEntries(lines);
    assert |es| == |lines| && forall j :: 0 <= j < |lines| ==> es[j] == LineEntry(lines[j]);
    FieldsLookup(es, k);
  }

  /** The record `call_gemini_model` returns for a reply. */
  function GeminiRecord(reply: string): Entries {
    Completed(ResponseFields(Split(reply, '\n')), GeminiFields, Str(""), WhenAbsent)
  }

  /** Every required field is present; one the reply did not name holds
      "", one it did name keeps its value even when that is empty, and
      every other key, lower-case "comment" included, keeps its value. */
  lemma GeminiRecordLookup(reply: string, k: string)
    ensures var parsed := ResponseFields(Split(reply, '\n'));
      Lookup(GeminiRecord(reply), k)
        == if k in GeminiFields && !HasKey(parsed, k) then Some(Str("")) else Lookup(parsed, k)
    ensures k in GeminiFields ==> HasKey(GeminiRecord(reply), k)
  {
    var parsed := ResponseFields(Split(reply, '\n'));
    CompletedLookup(parsed, GeminiFields, Str(""), WhenAbsent, k);
    LookupHasKey(parsed, k);
    LookupHasKey(GeminiRecord(reply), k);
  }

  /** The required list spells the last field "Comment": a lower-case
      "comment" is never added, while "Comment" always is. */
  lemma CommentSpelling(parsed: Entries)
    ensures HasKey(Completed(parsed, GeminiFields, Str(""), WhenAbsent), "Comment")
    ensures HasKey(Completed(parsed, GeminiFields, Str(""), WhenAbsent), "comment") <==> HasKey(parsed, "comment")
  {
    var c := Completed(parsed, GeminiFields, Str(""), WhenAbsent);
    CompletedLookup(parsed, GeminiFields, Str(""), WhenAbsent, "Comment");
    CompletedLookup(parsed, GeminiFields, Str(""), WhenAbsent, "comment");
    assert "comment" !in GeminiFields;
    LookupHasKey(c, "comment");
    LookupHasKey(c, "Comment");
    LookupHasKey(parsed, "comment");
  }

  /** The fields the reply named come first, then the missing required
      fields in list order; no key appears twice. */
  lemma GeminiRecordKeys(reply: string)
    ensures var parsed := ResponseFields(Split(reply, '\n'));
      KeysOf(GeminiRecord(reply)) == KeysOf(parsed) + MissingKeys(parsed, GeminiFields)
    ensures DistinctKeys(GeminiRecord(reply))
  {
    var parsed := ResponseFields(Split(reply, '\n'));
    CompletedKeys(parsed, GeminiFields, Str(""), WhenAbsent);
    FieldsShape(LineEntries(Split(reply, '\n')));
    CompletedDistinct(parsed, GeminiFields, Str(""), WhenAbsent);
  }

  /** Of two keys the reply names, the one whose first line comes first
      comes first in the returned dict. */
  lemma GeminiRecordOrder(reply: string, k1: string, k2: string)
    requires var es := LineEntries(Split(reply, '\n'));
      0 <= FirstAssign(es, k1) < FirstAssign(es, k2)
    ensures 0 <= IndexOf(GeminiRecord(reply), k1) < IndexOf(GeminiRecord(reply), k2)
  {
    var es := LineEntries(Split(reply, '\n'));
    var parsed := Fields(es);
    FieldsOrder(es, k1, k2);
    FieldsHasKey(es, k1);
    FieldsHasKey(es, k2);
    GeminiRecordKeys(reply);
    IndexOfKeysPrefix(parsed, GeminiRecord(reply), MissingKeys(parsed, GeminiFields), k1);
    IndexOfKeysPrefix(parsed, GeminiRecord(reply), MissingKeys(parsed, GeminiFields), k2);
  }

  /** Running the fill step again on its own output changes nothing. */
  lemma GeminiFillIdempotent(reply: string)
    ensures Completed(GeminiRecord(reply), GeminiFields, Str(""), WhenAbsent) == GeminiRecord(reply)
  {
    CompletedIdempotent(ResponseFields(Split(reply, '\n')), GeminiFields, Str(""), WhenAbsent);
  }

  /** `call_gemini_model`, from line 96 on, given the reply text: a new
      dict filled line by line and then completed in place. */
  method CallGeminiModel(reply: string) returns (structured: Record)
    ensures fresh(structured) && structured.Valid()
    ensures structured.entries == GeminiRecord(reply)
  {
    structured := new Record([]);
    var lines := Split(reply, '\n');
    ghost var entries := LineEntries(lines);
    for i := 0 to |lines|
      invariant structured.Valid()
      invariant structured.entries == Fields(entries[..i])
    {
      FieldsPrefixStep(entries, i);
      var line := lines[i];
      if FullWidthColon in line {
        var parts := SplitOnce(line, FullWidthColon);
        structured.SetItem(Strip(parts.0), Str(Strip(parts.1)));
      }
    }
    assert entries[..|lines|] == entries;
    Complete(structured, GeminiFields, Str(""), WhenAbsent);
  }
}
