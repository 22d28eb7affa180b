/** The local-model path: `generate_report_with_ai` asks a model for a
    JSON report, cuts the outermost brace span out of the answer, parses
    it and completes it with "456"; every failure yields the all-"unknown"
    record. `enhance_text_with_ai` returns the model's rewrite, stripped,
    or the input when the call fails. The model and the JSON parser are
    parameters. */
module AiProcessing {
  import opened Wrappers
  import opened PyStrings
  import opened PyValues
  import opened Dicts
  import opened Schema

  /** The placeholder this path writes into absent or falsy fields. */
  const Placeholder := Str("456")

  /** The value of every field of the fallback record. */
  const Unknown := Str("unknown")

  // ---------------------------------------------------------------------
  // enhance_text_with_ai

  /** `enhance_text_with_ai(text)`: `enhance` is the model call, `None`
      standing for any exception it or the reply handling raises. */
  function EnhanceText(text: string, enhance: string -> Option<string>): string {
    match enhance(text)
    case None => text
    case Some(reply) => Strip(reply)
  }

  /** On success the result is the reply with surrounding whitespace
      removed, so it neither starts nor ends with whitespace and stripping
      it again changes nothing; on failure it is the input, unchanged. */
  lemma EnhanceTextOutcome(text: string, enhance: string -> Option<string>)
    ensures enhance(text).None? ==> EnhanceText(text, enhance) == text
    ensures enhance(text).Some? ==> EnhanceText(text, enhance) == Strip(enhance(text).value)
    ensures enhance(text).Some? ==> |EnhanceText(text, enhance)| <= |enhance(text).value|
    ensures enhance(text).Some? ==> Strip(EnhanceText(text, enhance)) == EnhanceText(text, enhance)
    ensures enhance(text).Some? ==> var r := EnhanceText(text, enhance);
      r == [] || (!IsSpace(r[0]) && !IsSpace(r[|r| - 1]))
  {
    if enhance(text).Some? {
      var reply := enhance(text).value;
      var r := Strip(reply);
      assert EnhanceText(text, enhance) == r;
      assert r == [] || (!IsSpace(r[0]) && !IsSpace(r[|r| - 1]));
      StripStripped(r);
    }
  }

  // ---------------------------------------------------------------------
  // The span `re.search(r'(\{.*\})', generated_text, re.DOTALL)` matches

  /** `s[i..j]` matches `\{.*\}` with DOTALL: a brace, anything, a closing
      brace. */
  predicate SpanMatch(s: string, i: int, j: int) {
    0 <= i && i + 2 <= j <= |s| && s[i] == '{' && s[j - 1] == '}'
  }

  /** The span `re.search` reports, from the first "{" through the last
      "}" when the first comes before the last. */
  function SpanBounds(s: string): (r: Option<(nat, nat)>)
    ensures r.Some? ==> SpanMatch(s, r.value.0, r.value.1)
  {
    if '{' in s && '}' in s && IndexOfChar(s, '{') < LastIndexOfChar(s, '}') then
      Some((IndexOfChar(s, '{'), LastIndexOfChar(s, '}') + 1))
    else None
  }

  /** `SpanBounds` is what `re.search` reports: there is a span exactly
      when some substring matches, and then it is the leftmost match and,
      for that start, the longest one, since `.*` is greedy. */
  lemma SpanBoundsLeftmostLongest(s: string)
    ensures SpanBounds(s).Some? <==> exists i, j :: SpanMatch(s, i, j)
    ensures SpanBounds(s).Some? ==>
      && (forall i, j :: SpanMatch(s, i, j) ==> SpanBounds(s).value.0 <= i)
      && (forall j :: SpanMatch(s, SpanBounds(s).value.0, j) ==> j <= SpanBounds(s).value.1)
  {
    SpanBoundsFacts(s);
  }

  /** Every match starts at or after the first "{" and ends at or before
      the last "}", and the two of them make a match when the first comes
      before the last. */
  lemma SpanBoundsFacts(s: string)
    ensures forall i, j :: SpanMatch(s, i, j) ==>
      && '{' in s && '}' in s
      && IndexOfChar(s, '{') <= i && j - 1 <= LastIndexOfChar(s, '}')
      && IndexOfChar(s, '{') < LastIndexOfChar(s, '}')
    ensures '{' in s && '}' in s && IndexOfChar(s, '{') < LastIndexOfChar(s, '}') ==>
      SpanMatch(s, IndexOfChar(s, '{'), LastIndexOfChar(s, '}') + 1)
  {
    forall i, j | SpanMatch(s, i, j)
      ensures && '{' in s && '}' in s
              && IndexOfChar(s, '{') <= i && j - 1 <= LastIndexOfChar(s, '}')
              && IndexOfChar(s, '{') < LastIndexOfChar(s, '}')
    {
      assert s[i] == '{' && s[j - 1] == '}';
    }
  }

  /** The text handed to `json.loads`: the matched span, else the whole
      reply. */
  function JsonSpan(s: string): string {
    match SpanBounds(s)
    case Some((i, j)) => s[i..j]
    case None => s
  }

  /** When the reply holds a "{" with a "}" somewhere after it, the span
      runs from the first "{" of the reply through its last "}", so it
      starts with "{" and ends with "}". */
  lemma JsonSpanFound(s: string)
    requires '{' in s && '}' in s && IndexOfChar(s, '{') < LastIndexOfChar(s, '}')
    ensures JsonSpan(s) == s[IndexOfChar(s, '{')..LastIndexOfChar(s, '}') + 1]
    ensures |JsonSpan(s)| >= 2 && JsonSpan(s)[0] == '{' && JsonSpan(s)[|JsonSpan(s)| - 1] == '}'
  {
    var i, j := IndexOfChar(s, '{'), LastIndexOfChar(s, '}') + 1;
    assert SpanBounds(s) == Some((i, j));
    assert JsonSpan(s) == s[i..j];
    SliceEnds(s, i, j);
  }

  /** Otherwise the whole reply is handed to the parser. */
  lemma JsonSpanWhole(s: string)
    requires !('{' in s && '}' in s && IndexOfChar(s, '{') < LastIndexOfChar(s, '}'))
    ensures JsonSpan(s) == s
  {
  }

  /** Prose without braces around an object: the span is exactly the
      object. */
  lemma JsonSpanAroundProse(before: string, obj: string, after: string)
    requires '{' !in before && '}' !in after
    requires |obj| >= 2 && obj[0] == '{' && obj[|obj| - 1] == '}'
    ensures JsonSpan(before + obj + after) == obj
  {
    var s := before + obj + after;
    var i, j := |before|, |before| + |obj|;
    assert s[i] == obj[0] && s[j - 1] == obj[|obj| - 1];
    assert SpanMatch(s, i, j);
    var r := SpanBounds(s).value;
    forall k | 0 <= k < i ensures s[k] != '{' {
      assert s[k] == before[k];
    }
    forall k | j <= k < |s| ensures s[k] != '}' {
      assert s[k] == after[k - j];
    }
    assert r.0 == i;
    assert r.1 == j;
    assert s[i..j] == obj;
  }

  /** Cutting the span out of a span changes nothing. */
  lemma JsonSpanIdempotent(s: string)
    ensures JsonSpan(JsonSpan(s)) == JsonSpan(s)
  {
    var b := SpanBounds(s);
    if b.Some? {
      var r := s[b.value.0..b.value.1];
      assert |r| >= 2 && r[0] == '{' && r[|r| - 1] == '}';
      assert IndexOfChar(r, '{') == 0 && LastIndexOfChar(r, '}') == |r| - 1;
      assert SpanBounds(r) == Some((0, |r|));
      assert r[0..|r|] == r;
    }
  }

  // ---------------------------------------------------------------------
  // generate_report_with_ai

  /** The fallback record, lines 95-108 and 113-126: every required field
      holding "unknown". */
  function UnknownRecord(): Entries {
    FreshEntries(ReportKeys, Unknown)
  }

  /** The fallback record holds exactly the twelve required fields, in
      order, each "unknown". */
  lemma UnknownRecordShape(k: string)
    ensures KeysOf(UnknownRecord()) == ReportKeys
    ensures DistinctKeys(UnknownRecord())
    ensures Lookup(UnknownRecord(), k) == if k in ReportKeys then Some(Unknown) else None
  {
    FieldListsDistinct();
    var u := UnknownRecord();
    if k in ReportKeys {
      var i :| 0 <= i < |ReportKeys| && ReportKeys[i] == k;
      assert u[i].0 == k;
      forall j | 0 <= j < i ensures u[j].0 != k {
      }
      assert IndexOf(u, k) == i;
    } else {
      assert forall j :: 0 <= j < |u| ==> u[j].0 != k;
    }
  }

  /** `generate_report_with_ai(text)` as a value: `generate` is the model
      call and `loads` the JSON parser, `None` standing for any exception
      either raises. A parse result that is not a mapping makes the
      completion loop raise, which also lands in the fallback. */
  function AiReport(text: string, generate: string -> Option<string>, loads: string -> Option<Value>): Entries {
    match generate(text)
    case None => UnknownRecord()
    case Some(reply) =>
      match loads(JsonSpan(reply))
      case Some(Dict(es)) => Completed(es, ReportKeys, Placeholder, WhenAbsentOrFalsy)
      case _ => UnknownRecord()
  }

  /** Whatever the model and the parser do, the result holds every
      required field with a truthy value. */
  lemma AiReportComplete(text: string, generate: string -> Option<string>, loads: string -> Option<Value>)
    ensures forall k :: k in ReportKeys ==>
      var v := Lookup(AiReport(text, generate, loads), k); v.Some? && Truthy(v.value)
  {
    var r := AiReport(text, generate, loads);
    var g := generate(text);
    var parsed := if g.Some? then loads(JsonSpan(g.value)) else None;
    if parsed.Some? && parsed.value.Dict? {
      var es := parsed.value.entries;
      assert r == Completed(es, ReportKeys, Placeholder, WhenAbsentOrFalsy);
      CompletedHasKeys(es, ReportKeys, Placeholder, WhenAbsentOrFalsy);
    } else {
      assert r == UnknownRecord();
      forall k | k in ReportKeys ensures Lookup(r, k) == Some(Unknown) {
        UnknownRecordShape(k);
      }
    }
  }

  /** The result holds no duplicate key when the parser never produces
      one. */
  lemma AiReportDistinct(text: string, generate: string -> Option<string>, loads: string -> Option<Value>)
    requires ParsesDistinct(loads)
    ensures DistinctKeys(AiReport(text, generate, loads))
  {
    var r := AiReport(text, generate, loads);
    var g := generate(text);
    var parsed := if g.Some? then loads(JsonSpan(g.value)) else None;
    if parsed.Some? && parsed.value.Dict? {
      var es := parsed.value.entries;
      assert r == Completed(es, ReportKeys, Placeholder, WhenAbsentOrFalsy);
      CompletedDistinct(es, ReportKeys, Placeholder, WhenAbsentOrFalsy);
    } else {
      assert r == UnknownRecord();
      UnknownRecordShape("");
    }
  }

  /** On a parsed mapping, a required field that was absent or falsy holds
      "456"; every other key, extra keys included, keeps its value. */
  lemma AiReportParsedLookup(text: string, generate: string -> Option<string>, loads: string -> Option<Value>,
                             es: Entries, k: string)
    requires generate(text).Some? && loads(JsonSpan(generate(text).value)) == Some(Dict(es))
    ensures Lookup(AiReport(text, generate, loads), k)
         == if k in ReportKeys && NeedsFill(es, k, WhenAbsentOrFalsy) then Some(Str("456")) else Lookup(es, k)
  {
    CompletedLookup(es, ReportKeys, Placeholder, WhenAbsentOrFalsy, k);
  }

  /** Every failure, whether of the model call, of decoding or of the
      completion loop on a non-mapping, gives exactly the fallback record:
      twelve fields, all "unknown". */
  lemma AiReportFallback(text: string, generate: string -> Option<string>, loads: string -> Option<Value>, k: string)
    requires generate(text).None?
          || loads(JsonSpan(generate(text).value)).None?
          || !loads(JsonSpan(generate(text).value)).value.Dict?
    ensures KeysOf(AiReport(text, generate, loads)) == ReportKeys
    ensures Lookup(AiReport(text, generate, loads), k) == if k in ReportKeys then Some(Str("unknown")) else None
  {
    var g := generate(text);
    if g.Some? {
      var parsed := loads(JsonSpan(g.value));
      assert parsed.None? || !parsed.value.Dict?;
    }
    assert AiReport(text, generate, loads) == UnknownRecord();
    UnknownRecordShape(k);
  }

  /** `generate_report_with_ai(text)`: the new dict it returns. */
  method GenerateReportWithAi(text: string, generate: string -> Option<string>, loads: string -> Option<Value>)
    returns (report: Record)
    requires ParsesDistinct(loads)
    ensures fresh(report) && report.Valid()
    ensures report.entries == AiReport(text, generate, loads)
  {
    UnknownRecordShape("");
    var generated := generate(text);
    if generated.None? {
      report := new Record(UnknownRecord());
      return;
    }
    var jsonStr := JsonSpan(generated.value);
    var parsed := loads(jsonStr);
    if parsed.None? || !parsed.value.Dict? {
      report := new Record(UnknownRecord());
      return;
    }
    report := new Record(parsed.value.entries);
    Complete(report, ReportKeys, Placeholder, WhenAbsentOrFalsy);
  }
}
