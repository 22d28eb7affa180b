/** The Python values a model response can be parsed into, with Python's
    truthiness and `str()`. */
module PyValues {
  import opened PyStrings

  /** A JSON or Python-literal value. A dict is its entries in insertion
      order (the order Python iterates it in); its keys are strings. */
  datatype Value =
    | Null
    | Bool(b: bool)
    | Int(i: int)
    | Str(s: string)
    | List(items: seq<Value>)
    | Dict(entries: seq<(string, Value)>)

  /** Python truthiness: `None`, `False`, `0` and empty strings, lists and
      dicts are falsy; everything else is truthy. */
  predicate Truthy(v: Value) {
    match v
    case Null => false
    case Bool(b) => b
    case Int(i) => i != 0
    case Str(s) => s != []
    case List(xs) => xs != []
    case Dict(es) => es != []
  }

  /** `str(v)`, which is also what an f-string substitutes for `{v}`. */
  function StrOf(v: Value): string
    decreases v, 1
  {
    match v
    case Null => "None"
    case Bool(b) => if b then "True" else "False"
    case Int(i) => IntToString(i)
    case Str(s) => s
    case List(xs) =>
      "[" + Join(", ", seq(|xs|, k requires 0 <= k < |xs| => ReprOf(xs[k]))) + "]"
    case Dict(es) =>
      "{" + Join(", ", seq(|es|, k requires 0 <= k < |es| => Quote(es[k].0) + ": " + ReprOf(es[k].1))) + "}"
  }

  /** `repr(v)`: a string is quoted, every other value shows as `str(v)`. */
  function ReprOf(v: Value): string
    decreases v, 2
  {
    if v.Str? then Quote(v.s) else StrOf(v)
  }

  /** `repr(s)` for a string: single quotes unless `s` holds a single quote
      and no double quote. */
  function Quote(s: string): (r: string)
    ensures |r| >= 2 && r[0] == r[|r| - 1] && r[0] in "'\""
    ensures r[0] == '"' <==> ('\'' in s && '"' !in s)
  {
    var q := if '\'' in s && '"' !in s then '"' else '\'';
    [q] + EscapeAll(s, q) + [q]
  }

  function EscapeAll(s: string, q: char): string {
    if s == [] then [] else Escape(s[0], q) + EscapeAll(s[1..], q)
  }

  /** How `repr` writes one character inside quotes `q`. */
  function Escape(c: char, q: char): string {
    if c == q || c == '\\' then ['\\', c]
    else if c == '\t' then "\\t"
    else if c == '\n' then "\\n"
    else if c == '\r' then "\\r"
    else if c < ' ' || '\U{7F}' <= c <= '\U{A0}' || c == '\U{AD}' then
      "\\x" + [HexDigit(c as int / 16), HexDigit(c as int % 16)]
    else [c]
  }

  /** A character `repr` writes as itself inside quotes `q`. */
  predicate PlainChar(c: char, q: char) {
    c != q && c != '\\' && ' ' <= c && !('\U{7F}' <= c <= '\U{A0}') && c != '\U{AD}'
  }

  /** Characters that need no escape are written as they are. */
  lemma {:induction false} EscapeAllPlain(s: string, q: char)
    requires forall i :: 0 <= i < |s| ==> PlainChar(s[i], q)
    ensures EscapeAll(s, q) == s
    decreases |s|
  {
    if s != [] {
      assert forall i :: 0 <= i < |s[1..]| ==> s[1..][i] == s[i + 1];
      EscapeAllPlain(s[1..], q);
      assert s == [s[0]] + s[1..];
    }
  }

  /** A string without quotes, backslashes or control characters is
      written between single quotes, verbatim. */
  lemma QuotePlain(s: string)
    requires forall i :: 0 <= i < |s| ==> PlainChar(s[i], '\'')
    ensures Quote(s) == "'" + s + "'"
  {
    assert '\'' !in s;
    EscapeAllPlain(s, '\'');
  }

  function HexDigit(d: int): char
    requires 0 <= d < 16
  {
    if d < 10 then ('0' as int + d) as char else ('a' as int + d - 10) as char
  }

  /** Only the empty string prints as nothing. */
  lemma StrOfEmpty(v: Value)
    ensures StrOf(v) == "" <==> v == Str("")
  {
    if v.Int? {
      if v.i < 0 {
        assert StrOf(v)[0] == '-';
      } else {
        assert |NatToString(v.i)| >= 1;
      }
    }
  }

  /** A truthy value never prints as nothing. */
  lemma TruthyPrints(v: Value)
    requires Truthy(v)
    ensures StrOf(v) != ""
  {
    StrOfEmpty(v);
  }
}
