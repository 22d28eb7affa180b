/** backend/report_generation.py: flattening the record's values into text
    for the document template, and the recovery, completion and preparation
    steps `generate_report` runs before rendering. */
module ReportGeneration {
  import opened Wrappers
  import opened PyStrings
  import opened PyValues
  import opened Dicts
  import opened Schema

  /** The placeholder this file writes into absent or falsy required keys. */
  const Placeholder: Value := Str("123")

  // ---------------------------------------------------------------------
  // format_findings

  /** `[str(v) for v in xs if v]`: the truthy elements, printed, in order. */
  function TruthyStrs(xs: seq<Value>): seq<string>
    decreases |xs|
  {
    if xs == [] then []
    else TruthyStrs(xs[..|xs| - 1]) + (if Truthy(xs[|xs| - 1]) then [StrOf(xs[|xs| - 1])] else [])
  }

  /** A list whose elements are all truthy prints every element; one whose
      elements are all falsy prints none. */
  lemma {:induction false} TruthyStrsExtremes(xs: seq<Value>)
    ensures (forall i :: 0 <= i < |xs| ==> Truthy(xs[i])) ==>
      TruthyStrs(xs) == seq(|xs|, i requires 0 <= i < |xs| => StrOf(xs[i]))
    ensures (forall i :: 0 <= i < |xs| ==> !Truthy(xs[i])) ==> TruthyStrs(xs) == []
    decreases |xs|
  {
    if xs != [] {
      var init := xs[..|xs| - 1];
      TruthyStrsExtremes(init);
    }
  }

  /** Every printed element is non-empty: a falsy element never shows as an
      empty item between two separators. */
  lemma {:induction false} TruthyStrsNonEmpty(xs: seq<Value>)
    ensures forall i :: 0 <= i < |TruthyStrs(xs)| ==> TruthyStrs(xs)[i] != ""
    ensures |TruthyStrs(xs)| <= |xs|
    decreases |xs|
  {
    if xs != [] {
      TruthyStrsNonEmpty(xs[..|xs| - 1]);
      if Truthy(xs[|xs| - 1]) { TruthyPrints(xs[|xs| - 1]); }
    }
  }

  /** Printing the truthy elements works run by run: those of `a + b`
      are those of `a` followed by those of `b`. */
  lemma {:induction false} TruthyStrsAppend(a: seq<Value>, b: seq<Value>)
    ensures TruthyStrs(a + b) == TruthyStrs(a) + TruthyStrs(b)
    decreases |b|
  {
    if b == [] {
      assert a + b == a;
    } else {
      var init := b[..|b| - 1];
      TruthyStrsAppend(a, init);
      assert (a + b)[..|a + b| - 1] == a + init;
      assert (a + b)[|a + b| - 1] == b[|b| - 1];
    }
  }

  /** A falsy element, wherever it sits in the list, prints nothing: the
      list prints as if it were not there. */
  lemma FalsyElementDropped(a: seq<Value>, x: Value, b: seq<Value>)
    requires !Truthy(x)
    ensures TruthyStrs(a + [x] + b) == TruthyStrs(a + b)
  {
    TruthyStrsAppend(a + [x], b);
    TruthyStrsAppend(a, [x]);
    TruthyStrsAppend(a, b);
    assert [x][..0] == [];
  }

  /** A truthy element, wherever it sits in the list, prints as its str()
      at its own place among the others. */
  lemma TruthyElementKept(a: seq<Value>, x: Value, b: seq<Value>)
    requires Truthy(x)
    ensures TruthyStrs(a + [x] + b) == TruthyStrs(a) + [StrOf(x)] + TruthyStrs(b)
  {
    TruthyStrsAppend(a + [x], b);
    TruthyStrsAppend(a, [x]);
    assert [x][..0] == [];
  }

  /** How an attribute value of an organ shows: a boolean as Yes or No, a
      list as its truthy elements joined by ", ", anything else as str(). */
  function AttributeText(v: Value): string {
    match v
    case Bool(b) => if b then "Yes" else "No"
    case List(xs) => Join(", ", TruthyStrs(xs))
    case _ => StrOf(v)
  }

  /** The "Key: value" line of one attribute; a None attribute has none. */
  function AttributeLine(key: string, v: Value): seq<string> {
    if v.Null? then [] else [Capitalize(key) + ": " + AttributeText(v)]
  }

  /** The lines of an organ's attribute mapping, in order. */
  function AttributeLines(attrs: Entries): seq<string>
    decreases |attrs|
  {
    if attrs == [] then []
    else
      var last := attrs[|attrs| - 1];
      AttributeLines(attrs[..|attrs| - 1]) + AttributeLine(last.0, last.1)
  }

  /** An organ's attributes produce no line exactly when every one is None. */
  lemma {:induction false} AttributeLinesEmpty(attrs: Entries)
    ensures AttributeLines(attrs) == [] <==> forall i :: 0 <= i < |attrs| ==> attrs[i].1 == Null
    ensures |AttributeLines(attrs)| <= |attrs|
    decreases |attrs|
  {
    if attrs != [] {
      var init := attrs[..|attrs| - 1];
      AttributeLinesEmpty(init);
      assert forall i :: 0 <= i < |init| ==> init[i] == attrs[i];
    }
  }

  /** The block one organ contributes: none for a None detail or for a
      mapping whose attributes are all None; "Organ:" then the attribute
      lines indented by two spaces for a mapping; "Organ: detail"
      otherwise. */
  function OrganBlock(organ: string, info: Value): seq<string> {
    if info.Null? then []
    else if info.Dict? then
      var sub := AttributeLines(info.entries);
      if sub == [] then [] else [Capitalize(organ) + ":\n  " + Join("\n  ", sub)]
    else [Capitalize(organ) + ": " + StrOf(info)]
  }

  /** The blocks of a findings mapping, in organ order. */
  function OrganLines(findings: Entries): seq<string>
    decreases |findings|
  {
    if findings == [] then []
    else
      var last := findings[|findings| - 1];
      OrganLines(findings[..|findings| - 1]) + OrganBlock(last.0, last.1)
  }

  /** The blocks of two consecutive runs of organs are those of each run. */
  lemma {:induction false} OrganLinesAppend(a: Entries, b: Entries)
    ensures OrganLines(a + b) == OrganLines(a) + OrganLines(b)
    decreases |b|
  {
    if b == [] {
      assert a + b == a;
    } else {
      var init := b[..|b| - 1];
      assert (a + b)[..|a + b| - 1] == a + init;
      assert (a + b)[|a + b| - 1] == b[|b| - 1];
      OrganLinesAppend(a, init);
    }
  }

  /** The `"Key: value"` pairs of a dict item of a findings list; booleans
      print as True/False here, not Yes/No. */
  function PairTexts(es: Entries): seq<string>
    decreases |es|
  {
    if es == [] then []
    else
      var last := es[|es| - 1];
      PairTexts(es[..|es| - 1]) + (if last.1.Null? then [] else [Capitalize(last.0) + ": " + StrOf(last.1)])
  }

  /** How one element of a findings list shows. */
  function ItemText(item: Value): string {
    if item.Dict? then Join(", ", PairTexts(item.entries)) else StrOf(item)
  }

  function ItemTexts(items: seq<Value>): (r: seq<string>)
    decreases |items|
  {
    if items == [] then []
    else ItemTexts(items[..|items| - 1]) + [ItemText(items[|items| - 1])]
  }

  /** `format_findings(findings)` as a value. */
  function FindingsText(findings: Value): string {
    match findings
    case Dict(es) => Join("\n", OrganLines(es))
    case List(items) => Join(", ", ItemTexts(items))
    case _ => StrOf(findings)
  }

  /** The inner loop of `format_findings` over one organ's attributes. */
  method FormatAttributes(attrs: Entries) returns (subLines: seq<string>)
    ensures subLines == AttributeLines(attrs)
  {
    subLines := [];
    for j := 0 to |attrs|
      invariant subLines == AttributeLines(attrs[..j])
    {
      assert attrs[..j + 1][..j] == attrs[..j];
      var key, value := attrs[j].0, attrs[j].1;
      if value.Null? {
        continue;
      }
      var shown: string;
      if value.Bool? {
        shown := if value.b then "Yes" else "No";
      } else if value.List? {
        shown := Join(", ", TruthyStrs(value.items));
      } else {
        shown := StrOf(value);
      }
      subLines := subLines + [Capitalize(key) + ": " + shown];
    }
    assert attrs[..|attrs|] == attrs;
  }

  /** The outer loop of `format_findings` over a findings mapping. */
  method FormatOrgans(organs: Entries) returns (lines: seq<string>)
    ensures lines == OrganLines(organs)
  {
    lines := [];
    for i := 0 to |organs|
      invariant lines == OrganLines(organs[..i])
    {
      assert organs[..i + 1][..i] == organs[..i];
      var organ, info := organs[i].0, organs[i].1;
      if info.Null? {
        continue;
      }
      if info.Dict? {
        var subLines := FormatAttributes(info.entries);
        if subLines != [] {
          lines := lines + [Capitalize(organ) + ":\n  " + Join("\n  ", subLines)];
        }
      } else {
        lines := lines + [Capitalize(organ) + ": " + StrOf(info)];
      }
    }
    assert organs[..|organs|] == organs;
  }

  /** The inner loop of `format_findings` over a dict element of a list. */
  method FormatPairs(pairs: Entries) returns (subLines: seq<string>)
    ensures subLines == PairTexts(pairs)
  {
    subLines := [];
    for j := 0 to |pairs|
      invariant subLines == PairTexts(pairs[..j])
    {
      assert pairs[..j + 1][..j] == pairs[..j];
      var key, value := pairs[j].0, pairs[j].1;
      if value.Null? {
        continue;
      }
      subLines := subLines + [Capitalize(key) + ": " + StrOf(value)];
    }
    assert pairs[..|pairs|] == pairs;
  }

  /** The outer loop of `format_findings` over a findings list. */
  method FormatItems(items: seq<Value>) returns (lines: seq<string>)
    ensures lines == ItemTexts(items)
  {
    lines := [];
    for i := 0 to |items|
      invariant lines == ItemTexts(items[..i])
    {
      assert items[..i + 1][..i] == items[..i];
      var item := items[i];
      if item.Dict? {
        var subLines := FormatPairs(item.entries);
        lines := lines + [Join(", ", subLines)];
      } else {
        lines := lines + [StrOf(item)];
      }
    }
    assert items[..|items|] == items;
  }

  /** `format_findings(findings)`. */
  method FormatFindings(findings: Value) returns (text: string)
    ensures text == FindingsText(findings)
  {
    if findings.Dict? {
      var lines := FormatOrgans(findings.entries);
      text := Join("\n", lines);
    } else if findings.List? {
      var lines := FormatItems(findings.items);
      text := Join(", ", lines);
    } else {
      text := StrOf(findings);
    }
  }

  /** An organ whose detail is None contributes no block. */
  lemma NullOrganNoBlock(organ: string)
    ensures OrganLines([(organ, Null)]) == []
  {
    var n: Entries := [(organ, Null)];
    assert n[..0] == [];
    assert OrganLines(n) == OrganLines(n[..0]) + OrganBlock(organ, Null);
  }

  /** Dropping an organ whose detail is None leaves the blocks unchanged. */
  lemma NullOrganLines(before: Entries, organ: string, after: Entries)
    ensures OrganLines(before + [(organ, Null)] + after) == OrganLines(before + after)
  {
    var n: Entries := [(organ, Null)];
    OrganLinesAppend(before + n, after);
    OrganLinesAppend(before, n);
    OrganLinesAppend(before, after);
    NullOrganNoBlock(organ);
  }

  /** An organ whose detail is None leaves no trace in the findings text. */
  lemma NullOrganOmitted(before: Entries, organ: string, after: Entries)
    ensures FindingsText(Dict(before + [(organ, Null)] + after)) == FindingsText(Dict(before + after))
  {
    NullOrganLines(before, organ, after);
  }

  /** An organ anywhere in the mapping contributes its own block, in its
      own place among the blocks of the organs around it. */
  lemma OrganLinesAt(before: Entries, organ: string, info: Value, after: Entries)
    ensures OrganLines(before + [(organ, info)] + after)
         == OrganLines(before) + OrganBlock(organ, info) + OrganLines(after)
  {
    var n: Entries := [(organ, info)];
    assert n[..0] == [];
    assert OrganLines(n) == OrganLines(n[..0]) + OrganBlock(organ, info);
    OrganLinesAppend(before + n, after);
    OrganLinesAppend(before, n);
  }

  /** A detail that is neither None nor a mapping renders as
      "Organ: detail" with the organ name capitalised, wherever the organ
      sits; alone, that line is the whole findings text. */
  lemma ScalarOrganText(before: Entries, organ: string, info: Value, after: Entries)
    requires !info.Null? && !info.Dict?
    ensures OrganLines(before + [(organ, info)] + after)
         == OrganLines(before) + [Capitalize(organ) + ": " + StrOf(info)] + OrganLines(after)
    ensures FindingsText(Dict([(organ, info)])) == Capitalize(organ) + ": " + StrOf(info)
  {
    OrganLinesAt(before, organ, info, after);
    OrganLinesAt([], organ, info, []);
    assert [] + [(organ, info)] + [] == [(organ, info)];
  }

  /** A mapping detail renders as "Organ:" followed by its attribute lines,
      each on its own line indented by two spaces, wherever the organ sits;
      when all its attributes are None the organ contributes nothing. */
  lemma MappingOrganText(before: Entries, organ: string, attrs: Entries, after: Entries)
    ensures OrganLines(before + [(organ, Dict(attrs))] + after)
         == OrganLines(before)
            + (if forall i :: 0 <= i < |attrs| ==> attrs[i].1 == Null then []
               else [Capitalize(organ) + ":\n  " + Join("\n  ", AttributeLines(attrs))])
            + OrganLines(after)
    ensures FindingsText(Dict([(organ, Dict(attrs))]))
         == if forall i :: 0 <= i < |attrs| ==> attrs[i].1 == Null then ""
            else Capitalize(organ) + ":\n  " + Join("\n  ", AttributeLines(attrs))
  {
    OrganLinesAt(before, organ, Dict(attrs), after);
    OrganLinesAt([], organ, Dict(attrs), []);
    assert [] + [(organ, Dict(attrs))] + [] == [(organ, Dict(attrs))];
    AttributeLinesEmpty(attrs);
  }

  /** Consecutive organ blocks are separated by a single newline. */
  lemma OrganBlocksJoined(es: Entries, organ: string, info: Value, block: string)
    requires OrganLines(es) != []
    requires OrganBlock(organ, info) == [block]
    ensures FindingsText(Dict(es + [(organ, info)])) == FindingsText(Dict(es)) + "\n" + block
  {
    assert (es + [(organ, info)])[..|es|] == es;
    JoinAppend("\n", OrganLines(es), block);
  }

  /** An empty findings mapping renders as the empty string. */
  lemma EmptyFindingsText()
    ensures FindingsText(Dict([])) == ""
  {
  }

  /** A dict element whose values are all None has no pairs. */
  lemma {:induction false} PairTextsAllNull(pairs: Entries)
    requires forall i :: 0 <= i < |pairs| ==> pairs[i].1 == Null
    ensures PairTexts(pairs) == []
    decreases |pairs|
  {
    if pairs != [] {
      var init := pairs[..|pairs| - 1];
      assert forall i :: 0 <= i < |init| ==> init[i] == pairs[i];
      PairTextsAllNull(init);
    }
  }

  /** The texts of two consecutive runs of list items are those of each run. */
  lemma {:induction false} ItemTextsAppend(a: seq<Value>, b: seq<Value>)
    ensures ItemTexts(a + b) == ItemTexts(a) + ItemTexts(b)
    decreases |b|
  {
    if b == [] {
      assert a + b == a;
    } else {
      var init := b[..|b| - 1];
      assert (a + b)[..|a + b| - 1] == a + init;
      assert (a + b)[|a + b| - 1] == b[|b| - 1];
      ItemTextsAppend(a, init);
    }
  }

  /** A dict element of a findings list whose values are all None still
      takes its place in the list, wherever it stands, as an empty item. */
  lemma EmptyDictItemKept(before: seq<Value>, pairs: Entries, after: seq<Value>)
    requires forall i :: 0 <= i < |pairs| ==> pairs[i].1 == Null
    ensures ItemText(Dict(pairs)) == ""
    ensures ItemTexts(before + [Dict(pairs)] + after) == ItemTexts(before) + [""] + ItemTexts(after)
    ensures FindingsText(List(before + [Dict(pairs)] + after))
         == Join(", ", ItemTexts(before) + [""] + ItemTexts(after))
  {
    PairTextsAllNull(pairs);
    var d := [Dict(pairs)];
    assert d[..0] == [];
    assert ItemTexts(d) == ItemTexts(d[..0]) + [ItemText(Dict(pairs))];
    ItemTextsAppend(before + d, after);
    ItemTextsAppend(before, d);
  }

  /** In a findings list a boolean stays "True"/"False", wherever its
      item sits; alone, that item is the whole findings text. */
  lemma ListItemBooleanNotConverted(before: seq<Value>, key: string, b: bool, after: seq<Value>)
    ensures ItemTexts(before + [Dict([(key, Bool(b))])] + after)
         == ItemTexts(before) + [Capitalize(key) + ": " + (if b then "True" else "False")] + ItemTexts(after)
    ensures FindingsText(List([Dict([(key, Bool(b))])])) == Capitalize(key) + ": " + (if b then "True" else "False")
  {
    var pairs: Entries := [(key, Bool(b))];
    var items := [Dict(pairs)];
    assert pairs[..0] == [];
    assert PairTexts(pairs) == PairTexts(pairs[..0]) + [Capitalize(key) + ": " + StrOf(Bool(b))];
    assert items[..0] == [];
    assert ItemTexts(items) == ItemTexts(items[..0]) + [ItemText(Dict(pairs))];
    ItemTextsAppend(before + items, after);
    ItemTextsAppend(before, items);
  }

  /** Two attributes that are not None give one line each, in order. */
  lemma AttributeLinesPair(k1: string, v1: Value, k2: string, v2: Value)
    requires v1 != Null && v2 != Null
    ensures AttributeLines([(k1, v1), (k2, v2)])
         == [Capitalize(k1) + ": " + AttributeText(v1), Capitalize(k2) + ": " + AttributeText(v2)]
  {
    var attrs: Entries := [(k1, v1), (k2, v2)];
    var first: Entries := [(k1, v1)];
    assert attrs[..1] == first && first[..0] == [];
    assert AttributeLines(first) == AttributeLine(k1, v1);
    assert AttributeLines(attrs) == AttributeLines(first) + AttributeLine(k2, v2);
  }

  /** Joining two parts puts the separator between them. */
  lemma JoinTwo(sep: string, a: string, b: string)
    ensures Join(sep, [a, b]) == a + sep + b
  {
    assert [a, b][1..] == [b];
  }

  /** An organ with two attributes renders as its capitalised name and a
      colon, then each "Key: value" line indented by two spaces under it. */
  lemma TwoAttributeOrganText(organ: string, k1: string, v1: Value, k2: string, v2: Value)
    requires v1 != Null && v2 != Null
    ensures FindingsText(Dict([(organ, Dict([(k1, v1), (k2, v2)]))]))
         == Capitalize(organ) + ":\n  " + (Capitalize(k1) + ": " + AttributeText(v1)
            + "\n  " + (Capitalize(k2) + ": " + AttributeText(v2)))
  {
    var attrs: Entries := [(k1, v1), (k2, v2)];
    AttributeLinesPair(k1, v1, k2, v2);
    var l1 := Capitalize(k1) + ": " + AttributeText(v1);
    var l2 := Capitalize(k2) + ": " + AttributeText(v2);
    JoinTwo("\n  ", l1, l2);
    MappingOrganText([], organ, attrs, []);
    assert attrs[0].1 != Null;
  }

  // ---------------------------------------------------------------------
  // format_text_field

  /** `format_text_field(field)`: a list becomes its truthy elements joined
      by ", ", anything else `str(field)`. */
  function FormatTextField(field: Value): string {
    if field.List? then Join(", ", TruthyStrs(field.items)) else StrOf(field)
  }

  /** A string field passes through unchanged. */
  lemma FormatTextFieldOfString(s: string)
    ensures FormatTextField(Str(s)) == s
  {
  }

  /** A falsy element anywhere in a list field is dropped from the text
      `format_text_field` makes of it. */
  lemma FalsyFieldElementDropped(a: seq<Value>, x: Value, b: seq<Value>)
    requires !Truthy(x)
    ensures FormatTextField(List(a + [x] + b)) == FormatTextField(List(a + b))
  {
    FalsyElementDropped(a, x, b);
  }

  /** For example, an empty string, None and zero between two non-empty
      strings are dropped. */
  lemma FalsyElementsDropped(a: string, b: string)
    requires a != "" && b != ""
    ensures FormatTextField(List([Str(a), Str(""), Null, Int(0), Str(b)])) == a + ", " + b
  {
    var xs := [Str(a), Str(""), Null, Int(0), Str(b)];
    assert xs[..1][..0] == [] && xs[..2][..1] == xs[..1] && xs[..3][..2] == xs[..2];
    assert xs[..4][..3] == xs[..3] && xs[..|xs| - 1] == xs[..4];
    assert TruthyStrs(xs[..1]) == [a];
    assert TruthyStrs(xs[..2]) == [a];
    assert TruthyStrs(xs[..3]) == [a];
    assert TruthyStrs(xs[..4]) == [a];
    assert TruthyStrs(xs) == [a, b];
    JoinTwo(", ", a, b);
  }

  // ---------------------------------------------------------------------
  // prepare_data_for_template

  /** The reformatting `prepare_data_for_template` applies to the value of
      key `k`: findings and the two free-text fields become flat text. */
  function Reformat(k: string, v: Value): Value {
    if k == "imaging_findings" then Str(FindingsText(v))
    else if k == "diagnosis_summary" || k == "comment" then Str(FormatTextField(v))
    else v
  }

  /** A string value is stripped; other values are left alone. */
  function StripValue(v: Value): Value {
    if v.Str? then Str(Strip(v.s)) else v
  }

  /** The record after `prepare_data_for_template`: same keys in the same
      order, each value reformatted for its key and then stripped. */
  function Prepared(es: Entries): (r: Entries)
    ensures |r| == |es|
    ensures forall i :: 0 <= i < |es| ==> r[i] == (es[i].0, StripValue(Reformat(es[i].0, es[i].1)))
  {
    seq(|es|, i requires 0 <= i < |es| => (es[i].0, StripValue(Reformat(es[i].0, es[i].1))))
  }

  /** The entries after reformatting only the value under `key`. */
  function ReformatKey(es: Entries, key: string): Entries {
    seq(|es|, i requires 0 <= i < |es| => if es[i].0 == key then (key, Reformat(key, es[i].1)) else es[i])
  }

  /** One `if key in data: data[key] = ...` step of prepare_data_for_template. */
  method ReformatInPlace(data: Record, key: string)
    requires data.Valid()
    modifies data
    ensures data.Valid() && data.entries == ReformatKey(old(data.entries), key)
  {
    if data.Contains(key) {
      var i := IndexOf(data.entries, key);
      var v := data.Get(key);
      var flat: string;
      if key == "imaging_findings" {
        flat := FormatFindings(v);
      } else {
        flat := FormatTextField(v);
      }
      ghost var before := data.entries;
      InsertAt(before, i, Reformat(key, v));
      if key == "imaging_findings" || key == "diagnosis_summary" || key == "comment" {
        data.SetItem(key, Str(flat));
      } else {
        data.SetItem(key, v);
      }
      assert data.entries == before[i := (key, Reformat(key, v))];
      forall j | 0 <= j < |before| && before[j].0 == key ensures j == i {
        IndexOfDistinct(before, j);
      }
    } else {
      assert forall j :: 0 <= j < |data.entries| ==> data.entries[j].0 != key;
    }
  }

  /** The entries after the closing loop of prepare_data_for_template. */
  function StripValues(es: Entries): Entries {
    seq(|es|, i requires 0 <= i < |es| => (es[i].0, StripValue(es[i].1)))
  }

  /** The entries part-way through the strip loop: those before `i`
      already stripped, the rest as they were. */
  ghost function StripUpTo(es: Entries, i: int): Entries
    requires 0 <= i <= |es|
  {
    seq(|es|, j requires 0 <= j < |es| => if j < i then (es[j].0, StripValue(es[j].1)) else es[j])
  }

  /** One turn of the strip loop strips entry `i` and nothing else. */
  lemma StripUpToStep(es: Entries, i: int)
    requires 0 <= i < |es|
    ensures StripUpTo(es, i)[i] == es[i]
    ensures StripUpTo(es, i + 1) == StripUpTo(es, i)[i := (es[i].0, StripValue(es[i].1))]
  {
  }

  /** The closing loop of prepare_data_for_template: every string value is
      replaced, under its own key, by its strip. */
  method StripStringsInPlace(data: Record)
    requires data.Valid()
    modifies data
    ensures data.Valid() && data.entries == StripValues(old(data.entries))
  {
    ghost var before := data.entries;
    assert StripUpTo(before, 0) == before;
    for i := 0 to |data.entries|
      invariant data.Valid() && |before| == |data.entries|
      invariant data.entries == StripUpTo(before, i)
    {
      StripUpToStep(before, i);
      var key, value := data.entries[i].0, data.entries[i].1;
      if value.Str? {
        InsertAt(data.entries, i, Str(Strip(value.s)));
        data.SetItem(key, Str(Strip(value.s)));
      } else {
        assert data.entries == data.entries[i := (key, value)];
      }
    }
    assert StripUpTo(before, |before|) == StripValues(before);
  }

  /** Preparation is the three reformatting steps followed by the strip loop. */
  lemma PreparedInSteps(es: Entries)
    ensures Prepared(es)
         == StripValues(ReformatKey(ReformatKey(ReformatKey(es, "imaging_findings"), "diagnosis_summary"), "comment"))
  {
  }

  /** `prepare_data_for_template(data)`, in place. */
  method PrepareDataForTemplate(data: Record)
    requires data.Valid()
    modifies data
    ensures data.Valid() && data.entries == Prepared(old(data.entries))
  {
    PreparedInSteps(data.entries);
    ReformatInPlace(data, "imaging_findings");
    ReformatInPlace(data, "diagnosis_summary");
    ReformatInPlace(data, "comment");
    StripStringsInPlace(data);
  }

  /** Preparation keeps every key, in the same order. */
  lemma PreparedKeys(es: Entries)
    ensures KeysOf(Prepared(es)) == KeysOf(es)
  {
  }

  /** What preparation does to the value under each key: findings and the
      two free-text fields become stripped flat text; any other string is
      stripped; any other value is left exactly as it was. */
  lemma PreparedLookup(es: Entries, k: string)
    ensures Lookup(Prepared(es), k).Some? <==> Lookup(es, k).Some?
    ensures Lookup(es, k).Some? ==>
      var v := Lookup(es, k).value;
      var w := Lookup(Prepared(es), k).value;
      && (k == "imaging_findings" ==> w == Str(Strip(FindingsText(v))))
      && (k == "diagnosis_summary" || k == "comment" ==> w == Str(Strip(FormatTextField(v))))
      && (k != "imaging_findings" && k != "diagnosis_summary" && k != "comment" ==>
            w == if v.Str? then Str(Strip(v.s)) else v)
  {
    IndexOfSameKeys(Prepared(es), es, k);
  }

  /** A string is already flat text under every key. */
  lemma ReformatString(k: string, t: string)
    ensures Reformat(k, Str(t)) == Str(t)
  {
    FormatTextFieldOfString(t);
  }

  /** One prepared value is a stripped string or a non-string, and
      preparing it again leaves it as it is. */
  lemma PreparedValueStable(k: string, v: Value)
    ensures var w := StripValue(Reformat(k, v));
      && (w.Str? ==> Strip(w.s) == w.s)
      && StripValue(Reformat(k, w)) == w
  {
    var u := Reformat(k, v);
    var w := StripValue(u);
    if u.Str? {
      StripIdempotent(u.s);
      ReformatString(k, w.s);
    } else {
      assert k != "imaging_findings" && k != "diagnosis_summary" && k != "comment";
    }
  }

  /** Every string the prepared record holds is already stripped. */
  lemma PreparedStringsStripped(es: Entries)
    ensures forall i :: 0 <= i < |es| && Prepared(es)[i].1.Str? ==>
      Strip(Prepared(es)[i].1.s) == Prepared(es)[i].1.s
  {
    var p := Prepared(es);
    forall i | 0 <= i < |es| && p[i].1.Str? ensures Strip(p[i].1.s) == p[i].1.s {
      PreparedValueStable(es[i].0, es[i].1);
    }
  }

  /** Preparing a prepared record changes nothing. */
  lemma PreparedIdempotent(es: Entries)
    ensures Prepared(Prepared(es)) == Prepared(es)
  {
    var p := Prepared(es);
    var q := Prepared(p);
    forall i | 0 <= i < |es| ensures q[i] == p[i] {
      PreparedValueStable(es[i].0, es[i].1);
    }
  }

  /** Only the three named fields are flattened: a list under any other
      key reaches the template as a list. */
  lemma PreparedLeavesOtherListsNested(es: Entries, k: string, xs: seq<Value>)
    requires k != "imaging_findings" && k != "diagnosis_summary" && k != "comment"
    requires Lookup(es, k) == Some(List(xs))
    ensures Lookup(Prepared(es), k) == Some(List(xs))
  {
    PreparedValueAt(es, k);
  }

  // ---------------------------------------------------------------------
  // generate_report, lines 84-119: recovery, completion, preparation

  /** The text `generate_report` tries to parse out of a raw response: from
      just after the first newline that is followed by "{", else from the
      first "{", else `raw[-1:]`. */
  function RecoveryCandidate(raw: string): (c: string)
    ensures |c| <= |raw| && c == raw[|raw| - |c|..]
  {
    var pos := Find(raw, "\n{");
    if pos != -1 then raw[pos + 1..] else SliceFrom(raw, Find(raw, "{"))
  }

  /** Where the candidate starts: at the "{" of the first "\n{" when there
      is one, else at the first brace. */
  lemma RecoveryCandidateStart(raw: string)
    ensures Find(raw, "\n{") >= 0 ==> RecoveryCandidate(raw) == raw[Find(raw, "\n{") + 1..]
    ensures Find(raw, "\n{") == -1 && Find(raw, "{") >= 0 ==> RecoveryCandidate(raw) == raw[Find(raw, "{")..]
  {
  }

  /** With a brace in the text the candidate begins with "{"; with none
      it is the last character (or nothing, for an empty string). */
  lemma RecoveryCandidateShape(raw: string)
    ensures '{' in raw ==> RecoveryCandidate(raw) != [] && RecoveryCandidate(raw)[0] == '{'
    ensures '{' !in raw ==> RecoveryCandidate(raw) == if raw == [] then [] else [raw[|raw| - 1]]
  {
    FindChar(raw, '{');
    var pos := Find(raw, "\n{");
    var f := Find(raw, "{");
    var c := RecoveryCandidate(raw);
    if pos != -1 {
      assert c == raw[pos + 1..];
      assert raw[pos..pos + 2][1] == raw[pos + 1];
    } else if f >= 0 {
      assert c == raw[f..];
    } else if raw != [] {
      assert raw[|raw| - 1..] == [raw[|raw| - 1]];
    }
  }

  /** Prose in which no newline is followed by "{", then a newline, then an
      object: the candidate is exactly the object, even when the prose
      holds braces of its own. */
  lemma CandidateAfterProse(prose: string, obj: string)
    requires forall k :: 0 <= k < |prose| - 1 ==> !(prose[k] == '\n' && prose[k + 1] == '{')
    requires obj != [] && obj[0] == '{'
    ensures RecoveryCandidate(prose + "\n" + obj) == obj
  {
    var raw := prose + "\n" + obj;
    var n := |prose|;
    assert raw[n..n + 2] == "\n{";
    forall k | 0 <= k < n ensures !OccursAt(raw, "\n{", k) {
      if k + 1 < n {
        assert raw[k] == prose[k] && raw[k + 1] == prose[k + 1];
      } else {
        assert raw[k + 1] == '\n';
      }
      assert raw[k..k + 2][0] == raw[k] && raw[k..k + 2][1] == raw[k + 1];
    }
    var pos := Find(raw, "\n{");
    assert !(pos == -1 || pos > n) by { assert OccursAt(raw, "\n{", n); }
    assert pos == n;
    assert raw[n + 1..] == obj;
  }

  /** Which way the recovery step went. */
  datatype Recovered =
    | Kept              // no raw_response, or neither parser accepted the candidate
    | Replaced(parsed: Value)  // a parser accepted it: the parse result becomes the record
    | RawNotText        // raw_response is not a string, so `raw.find` raises

  /** The recovery step: when the record holds `raw_response`, the strict
      parser and then the permissive one are tried on the candidate, and
      the first success replaces the record outright. */
  function Recover(data: Entries, loads: string -> Option<Value>, literalEval: string -> Option<Value>): Recovered {
    match Lookup(data, "raw_response")
    case None => Kept
    case Some(raw) =>
      if !raw.Str? then RawNotText
      else
        var c := RecoveryCandidate(raw.s);
        match loads(c)
        case Some(v) => Replaced(v)
        case None =>
          match literalEval(c)
          case Some(v) => Replaced(v)
          case None => Kept
  }

  /** The completion loop with "123" followed by preparation. */
  function Finished(es: Entries): Entries {
    Prepared(Completed(es, ReportKeys, Placeholder, WhenAbsentOrFalsy))
  }

  /** What the record handed to the renderer holds under each key: a
      required key that was absent or falsy holds "123"; any other key
      present in the record holds its prepared value; nothing else is
      present. */
  lemma FinishedLookup(es: Entries, k: string)
    ensures k in ReportKeys && NeedsFill(es, k, WhenAbsentOrFalsy) ==> Lookup(Finished(es), k) == Some(Str("123"))
    ensures !(k in ReportKeys && NeedsFill(es, k, WhenAbsentOrFalsy)) ==>
      Lookup(Finished(es), k) == match Lookup(es, k)
        case None => None
        case Some(v) => Some(StripValue(Reformat(k, v)))
  {
    var c := Completed(es, ReportKeys, Placeholder, WhenAbsentOrFalsy);
    CompletedLookup(es, ReportKeys, Placeholder, WhenAbsentOrFalsy, k);
    PreparedValueAt(c, k);
    if k in ReportKeys && NeedsFill(es, k, WhenAbsentOrFalsy) {
      PlaceholderPrepared(k);
    }
  }

  /** Under each key, the prepared record holds the prepared value of what
      the record held there. */
  lemma PreparedValueAt(es: Entries, k: string)
    ensures Lookup(Prepared(es), k) == match Lookup(es, k)
      case None => None
      case Some(v) => Some(StripValue(Reformat(k, v)))
  {
    IndexOfSameKeys(Prepared(es), es, k);
  }

  /** The placeholder comes through preparation unchanged. */
  lemma PlaceholderPrepared(k: string)
    ensures StripValue(Reformat(k, Placeholder)) == Placeholder
  {
    ReformatString(k, "123");
    StripStripped("123");
  }

  /** The record `generate_report` hands to the renderer, or the exception
      it raises: completion with "123", then preparation. */
  function ReportData(data: Entries, loads: string -> Option<Value>, literalEval: string -> Option<Value>): Outcome<Entries> {
    match Recover(data, loads, literalEval)
    case RawNotText => Raised(AttributeError)
    case Kept => Ok(Finished(data))
    case Replaced(v) => if v.Dict? then Ok(Finished(v.entries)) else Raised(TypeError)
  }

  /** Lines 106-113 and 116 of `generate_report`: the completion loop and
      preparation, run in place. */
  method FinishRecord(record: Record)
    requires record.Valid()
    modifies record
    ensures record.Valid() && record.entries == Finished(old(record.entries))
  {
    Complete(record, ReportKeys, Placeholder, WhenAbsentOrFalsy);
    PrepareDataForTemplate(record);
  }

  /** Lines 84-116 of `generate_report`: recovery, the completion loop and
      `prepare_data_for_template`. When the record is kept, the caller's
      dict itself is completed and prepared; when it is replaced, the
      caller's dict is left alone and a new one is returned. */
  method GenerateReport(data: Record, loads: string -> Option<Value>, literalEval: string -> Option<Value>)
    returns (result: Outcome<Record>)
    requires data.Valid() && ParsesDistinct(loads) && ParsesDistinct(literalEval)
    modifies data
    ensures result.Ok? ==> result.value.Valid()
    ensures match ReportData(old(data.entries), loads, literalEval)
      case Ok(es) => result.Ok? && result.value.entries == es
      case Raised(e) => result == Raised(e)
    ensures Recover(old(data.entries), loads, literalEval).Kept? ==> result == Ok(data)
    ensures Recover(old(data.entries), loads, literalEval).Replaced? ==>
      unchanged(data) && (result.Ok? ==> fresh(result.value))
    ensures Recover(old(data.entries), loads, literalEval).RawNotText? ==> unchanged(data)
  {
    ghost var recovered := Recover(data.entries, loads, literalEval);
    if !data.Contains("raw_response") {
      assert recovered == Kept;
      FinishRecord(data);
      return Ok(data);
    }
    var raw := data.Get("raw_response");
    if !raw.Str? {
      assert recovered == RawNotText;
      return Raised(AttributeError);
    }
    var pos := Find(raw.s, "\n{");
    var jsonStr := if pos != -1 then raw.s[pos + 1..] else SliceFrom(raw.s, Find(raw.s, "{"));
    assert jsonStr == RecoveryCandidate(raw.s);
    var parsed := loads(jsonStr);
    if parsed.None? {
      parsed := literalEval(jsonStr);
    }
    if parsed.None? {
      assert recovered == Kept;
      FinishRecord(data);
      return Ok(data);
    }
    assert recovered == Replaced(parsed.value);
    if !parsed.value.Dict? {
      return Raised(TypeError);
    }
    var record := new Record(parsed.value.entries);
    FinishRecord(record);
    result := Ok(record);
  }

  /** The record is replaced, not merged: once a parser accepts the
      candidate, no other field of the original record survives. */
  lemma ReplacementIgnoresOtherFields(data: Entries, other: Entries, loads: string -> Option<Value>, literalEval: string -> Option<Value>)
    requires Lookup(data, "raw_response") == Lookup(other, "raw_response")
    requires Recover(data, loads, literalEval).Replaced?
    ensures ReportData(data, loads, literalEval) == ReportData(other, loads, literalEval)
  {
    var r := Recover(data, loads, literalEval);
    assert Recover(other, loads, literalEval) == r;
  }

  /** A field the original record already knew is lost when the recovered
      object lacks it: it comes out as the placeholder. */
  lemma ReplacementLosesKnownField(data: Entries, parsed: Entries, k: string,
                                   loads: string -> Option<Value>, literalEval: string -> Option<Value>)
    requires Recover(data, loads, literalEval) == Replaced(Dict(parsed))
    requires k in ReportKeys && !HasKey(parsed, k)
    ensures ReportData(data, loads, literalEval).Ok?
    ensures Lookup(ReportData(data, loads, literalEval).value, k) == Some(Str("123"))
  {
    LookupHasKey(parsed, k);
    FinishedLookup(parsed, k);
  }

  /** The example of a known name lost to a recovered empty object. */
  lemma ReplacementLosesName(data: Entries, name: string, loads: string -> Option<Value>, literalEval: string -> Option<Value>)
    requires data == [("raw_response", Str("x\n{}")), ("patient_name", Str(name))]
    requires loads("{}") == Some(Dict([]))
    ensures ReportData(data, loads, literalEval).Ok?
    ensures Lookup(ReportData(data, loads, literalEval).value, "patient_name") == Some(Str("123"))
  {
    CandidateAfterProse("x", "{}");
    assert "x" + "\n" + "{}" == "x\n{}";
    assert Lookup(data, "raw_response") == Some(Str("x\n{}"));
    ReplacementLosesKnownField(data, [], "patient_name", loads, literalEval);
  }

  /** When both parsers reject the candidate the record keeps its
      raw_response, stripped, next to the completed fields. */
  lemma FailedRecoveryKeepsRaw(data: Entries, loads: string -> Option<Value>, literalEval: string -> Option<Value>)
    requires Lookup(data, "raw_response").Some? && Lookup(data, "raw_response").value.Str?
    requires Recover(data, loads, literalEval).Kept?
    ensures ReportData(data, loads, literalEval).Ok?
    ensures Lookup(ReportData(data, loads, literalEval).value, "raw_response")
         == Some(Str(Strip(Lookup(data, "raw_response").value.s)))
  {
    FieldListsDistinct();
    FinishedLookup(data, "raw_response");
  }

  /** Whatever way recovery goes, a record handed to the renderer holds
      every required key. */
  lemma ReportDataHasAllKeys(data: Entries, loads: string -> Option<Value>, literalEval: string -> Option<Value>)
    requires ReportData(data, loads, literalEval).Ok?
    ensures forall k :: k in ReportKeys ==> HasKey(ReportData(data, loads, literalEval).value, k)
  {
    var es := if Recover(data, loads, literalEval).Kept? then data else Recover(data, loads, literalEval).parsed.entries;
    assert ReportData(data, loads, literalEval).value == Finished(es);
    forall k | k in ReportKeys ensures HasKey(Finished(es), k) {
      FinishedLookup(es, k);
      LookupHasKey(es, k);
      LookupHasKey(Finished(es), k);
    }
  }

  /** A record that needs no recovery and already has every required key
      truthy is only flattened: no placeholder is written. */
  lemma CompleteRecordOnlyFlattened(data: Entries, loads: string -> Option<Value>, literalEval: string -> Option<Value>)
    requires !HasKey(data, "raw_response")
    requires forall k :: k in ReportKeys ==> Lookup(data, k).Some? && Truthy(Lookup(data, k).value)
    ensures ReportData(data, loads, literalEval) == Ok(Prepared(data))
  {
    CompletedUnchanged(data, ReportKeys, Placeholder, WhenAbsentOrFalsy);
  }

  /** The all-placeholder record: raw_response, then every required key
      holding "123". */
  function PlaceholderRecord(raw: string): Entries {
    [("raw_response", Str(raw))] + FreshEntries(ReportKeys, Placeholder)
  }


  /** Completing a record that holds only raw_response appends the twelve
      required keys, each holding the placeholder. */
  lemma CompletedBareRaw(data: Entries, raw: string)
    requires data == [("raw_response", Str(raw))]
    ensures Completed(data, ReportKeys, Placeholder, WhenAbsentOrFalsy) == data + FreshEntries(ReportKeys, Placeholder)
  {
    FieldListsDistinct();
    forall i | 0 <= i < |ReportKeys| ensures !HasKey(data, ReportKeys[i]) {
      assert data[0].0 != ReportKeys[i];
    }
    CompletedAllAbsent(data, ReportKeys, Placeholder, WhenAbsentOrFalsy);
  }

  /** Preparation works entry by entry, so it distributes over
      concatenation. */
  lemma PreparedAppend(a: Entries, b: Entries)
    ensures Prepared(a + b) == Prepared(a) + Prepared(b)
  {
    forall i | 0 <= i < |a + b| ensures Prepared(a + b)[i] == (Prepared(a) + Prepared(b))[i] {
      PreparedAppendAt(a, b, i);
    }
  }

  /** Entry `i` of the preparation of a concatenation. */
  lemma PreparedAppendAt(a: Entries, b: Entries, i: int)
    requires 0 <= i < |a + b|
    ensures Prepared(a + b)[i] == if i < |a| then Prepared(a)[i] else Prepared(b)[i - |a|]
  {
    if i < |a| {
      assert (a + b)[i] == a[i];
    } else {
      assert (a + b)[i] == b[i - |a|];
    }
  }

  /** Placeholder entries come through preparation unchanged. */
  lemma PreparedFresh(keys: seq<string>)
    ensures Prepared(FreshEntries(keys, Placeholder)) == FreshEntries(keys, Placeholder)
  {
    var f := FreshEntries(keys, Placeholder);
    StripStripped("123");
    forall i | 0 <= i < |f| ensures Prepared(f)[i] == f[i] {
      ReformatString(keys[i], "123");
    }
  }

  /** A record that holds only a raw response, completed and prepared:
      the response, stripped, followed by the twelve required keys, each
      holding the placeholder. */
  lemma FinishedBareRaw(data: Entries, raw: string)
    requires data == [("raw_response", Str(raw))]
    ensures Finished(data) == PlaceholderRecord(Strip(raw))
  {
    var f := FreshEntries(ReportKeys, Placeholder);
    assert Finished(data) == Prepared(data + f) by { CompletedBareRaw(data, raw); }
    assert Prepared(data) == [("raw_response", Str(Strip(raw)))];
    PreparedAppend(data, f);
    PreparedFresh(ReportKeys);
  }

  /** When neither parser accepts the candidate, a record that holds only
      the raw response comes out as that response, stripped, beside twelve
      placeholders. */
  lemma FailedRecoveryEndToEnd(data: Entries, raw: string, loads: string -> Option<Value>, literalEval: string -> Option<Value>)
    requires data == [("raw_response", Str(raw))]
    requires Recover(data, loads, literalEval) == Kept
    ensures ReportData(data, loads, literalEval) == Ok(PlaceholderRecord(Strip(raw)))
  {
    FinishedBareRaw(data, raw);
  }

  /** A raw response with no brace at all is cut down to its last
      character; when neither parser accepts that, the response ends
      beside twelve placeholders. */
  lemma BraceFreeEndToEnd(data: Entries, raw: string, loads: string -> Option<Value>, literalEval: string -> Option<Value>)
    requires data == [("raw_response", Str(raw))]
    requires raw != [] && '{' !in raw
    requires loads([raw[|raw| - 1]]) == None && literalEval([raw[|raw| - 1]]) == None
    ensures ReportData(data, loads, literalEval) == Ok(PlaceholderRecord(Strip(raw)))
  {
    RecoveryCandidateShape(raw);
    assert Recover(data, loads, literalEval) == Kept;
    FailedRecoveryEndToEnd(data, raw, loads, literalEval);
  }

  /** A candidate that parses to something other than a mapping makes the
      completion loop raise: `key not in data` or `data[key] = ...` fails on
      a number, a string, a list, a boolean or None, and the handler
      re-raises. */
  lemma NonMappingRecoveryRaises(data: Entries, loads: string -> Option<Value>, literalEval: string -> Option<Value>)
    requires Recover(data, loads, literalEval).Replaced?
    requires !Recover(data, loads, literalEval).parsed.Dict?
    ensures ReportData(data, loads, literalEval) == Raised(TypeError)
  {
  }

  /** A brace-free response whose last character parses, such as "age 45"
      whose "5" decodes to the number 5, makes generate_report raise. */
  lemma BraceFreeNonMappingRaises(data: Entries, raw: string, v: Value,
                                  loads: string -> Option<Value>, literalEval: string -> Option<Value>)
    requires data == [("raw_response", Str(raw))]
    requires raw != [] && '{' !in raw
    requires loads([raw[|raw| - 1]]) == Some(v) && !v.Dict?
    ensures ReportData(data, loads, literalEval) == Raised(TypeError)
  {
    RecoveryCandidateShape(raw);
    assert Lookup(data, "raw_response") == Some(Str(raw));
    assert Recover(data, loads, literalEval) == Replaced(v);
  }

  /** With every detail None, the organ loop produces no block. */
  lemma {:induction false} OrganLinesAllNull(organs: Entries)
    requires forall i :: 0 <= i < |organs| ==> organs[i].1 == Null
    ensures OrganLines(organs) == []
    decreases |organs|
  {
    if organs != [] {
      var init := organs[..|organs| - 1];
      assert forall i :: 0 <= i < |init| ==> init[i] == organs[i];
      OrganLinesAllNull(init);
    }
  }

  /** A findings mapping whose organs are all None is truthy, so completion
      keeps it, and it reaches the template as "". */
  lemma NullFindingsBlanked(es: Entries, organs: Entries)
    requires Lookup(es, "imaging_findings") == Some(Dict(organs))
    requires organs != [] && forall i :: 0 <= i < |organs| ==> organs[i].1 == Null
    ensures Lookup(Finished(es), "imaging_findings") == Some(Str(""))
  {
    OrganLinesAllNull(organs);
    assert FindingsText(Dict(organs)) == "";
    StripStripped("");
    assert !NeedsFill(es, "imaging_findings", WhenAbsentOrFalsy);
    FinishedLookup(es, "imaging_findings");
  }

  /** A non-empty list of falsy elements under a free-text field is truthy,
      so completion keeps it, and it reaches the template as "". */
  lemma FalsyListBlanked(es: Entries, k: string, xs: seq<Value>)
    requires k == "diagnosis_summary" || k == "comment"
    requires Lookup(es, k) == Some(List(xs))
    requires xs != [] && forall i :: 0 <= i < |xs| ==> !Truthy(xs[i])
    ensures Lookup(Finished(es), k) == Some(Str(""))
  {
    FalsyListPrepared(k, xs);
    assert !NeedsFill(es, k, WhenAbsentOrFalsy);
    FinishedLookup(es, k);
  }

  /** A non-empty list of falsy elements is truthy, and under a free-text
      field it prepares to "". */
  lemma FalsyListPrepared(k: string, xs: seq<Value>)
    requires k == "diagnosis_summary" || k == "comment"
    requires xs != [] && forall i :: 0 <= i < |xs| ==> !Truthy(xs[i])
    ensures Truthy(List(xs)) && StripValue(Reformat(k, List(xs))) == Str("")
  {
    TruthyStrsExtremes(xs);
    assert TruthyStrs(xs) == [];
    assert FormatTextField(List(xs)) == "";
    StripStripped("");
  }

  /** Preparation strips after completion has run, so a whitespace-only
      required field survives completion and reaches the template empty;
      running the same steps again on that output writes the placeholder.
      The upload handler calls generate_report twice on one dict (once per
      output format), so the second document shows "123" where the first
      showed nothing. */
  lemma RerunRefillsBlankedField(data: Entries, k: string, blank: string, loads: string -> Option<Value>, literalEval: string -> Option<Value>)
    requires !HasKey(data, "raw_response")
    requires k in ReportKeys
    requires blank != [] && forall i :: 0 <= i < |blank| ==> IsSpace(blank[i])
    requires Lookup(data, k) == Some(Str(blank))
    ensures ReportData(data, loads, literalEval).Ok?
    ensures Lookup(ReportData(data, loads, literalEval).value, k) == Some(Str(""))
    ensures !HasKey(ReportData(data, loads, literalEval).value, "raw_response")
    ensures ReportData(ReportData(data, loads, literalEval).value, loads, literalEval).Ok?
    ensures Lookup(ReportData(ReportData(data, loads, literalEval).value, loads, literalEval).value, k) == Some(Str("123"))
  {
    WithoutRawFinished(data, loads, literalEval);
    var first := Finished(data);
    BlankPrepared(k, blank);
    assert !NeedsFill(data, k, WhenAbsentOrFalsy);
    FinishedLookup(data, k);
    assert Lookup(first, k) == Some(Str(""));
    WithoutRawFinished(first, loads, literalEval);
    assert NeedsFill(first, k, WhenAbsentOrFalsy);
    FinishedLookup(first, k);
  }

  /** A non-empty all-whitespace string is truthy, and prepares to "". */
  lemma BlankPrepared(k: string, blank: string)
    requires blank != [] && forall i :: 0 <= i < |blank| ==> IsSpace(blank[i])
    ensures Truthy(Str(blank)) && StripValue(Reformat(k, Str(blank))) == Str("")
  {
    ReformatString(k, blank);
    StripEmpty(blank);
  }

  /** A record without raw_response is completed and prepared as it is,
      and the result again has no raw_response. */
  lemma WithoutRawFinished(data: Entries, loads: string -> Option<Value>, literalEval: string -> Option<Value>)
    requires !HasKey(data, "raw_response")
    ensures ReportData(data, loads, literalEval) == Ok(Finished(data))
    ensures !HasKey(Finished(data), "raw_response")
  {
    FieldListsDistinct();
    LookupHasKey(data, "raw_response");
    FinishedLookup(data, "raw_response");
    LookupHasKey(Finished(data), "raw_response");
  }
}
