# sonographyGenAI report pipeline, modelled in Dafny

The sonographyGenAI backend turns clinical text into an ultrasound report:
- A language model is asked for a structured report with twelve canonical
  fields: patient name, examination date, sex, age, referring doctor, UHID
  number, examination type, examined area, device model, imaging findings,
  diagnosis summary and comment.
- The reply is cut down to the part that looks like an object and parsed.
- Missing or falsy fields are filled with a placeholder.
- Nested values are flattened into text before the record is handed to a
  document template.

This project models that core. It covers three files:
- `backend/report_generation.py`:
  - `format_findings`, `format_text_field` and `prepare_data_for_template`;
  - the recovery, completion and preparation steps of `generate_report`.
- `backend/ai_processing.py`: `generate_report_with_ai` and
  `enhance_text_with_ai`.
- `backend/app.py`: the reply parser and field fill of `call_gemini_model`.

Modules:
- `Wrappers`: `Option` and `Outcome`. An `Outcome` is a value or a Python
  exception, either `TypeError` or `AttributeError`.
- `PyStrings`: the `str` methods the pipeline uses, on `seq<char>`:
  - `strip`, using Python's exact whitespace set;
  - `capitalize`, `join`, `find`, slicing from an index, `split` and
    `split(sep, 1)`;
  - `str()` of an integer.
- `PyValues`: a Python value parsed from JSON or a literal, with Python
  truthiness, `str()` and `repr()`.
- `Dicts`:
  - a dict as an association list in insertion order, with `in`, `d.get`
    and `d[k] = v`;
  - the class `Record`, a dict object the pipeline updates in place.
- `Schema`: the two required-field lists and the completion loop.
  - `Completed` states the completion loop as a function.
  - `Complete` runs it in place on a `Record`.
  - One policy fills absent keys. The other fills absent or falsy keys.
- `ReportGeneration`, `AiProcessing`, `GeminiApp`: one module per source
  file.
  - A loop in the source that builds a list or mutates a dict is a method
    with loop invariants.
  - Each method is proved equal to a specification function.
  - The properties are lemmas about those functions.

The model calls and the parsers `json.loads` and `ast.literal_eval` are
function parameters of type `string -> Option<...>`. `None` stands for
"raised an exception". For `json.loads` inside `generate_report`, that
exception is taken to be a `JSONDecodeError`, the only one the code
catches there.

What the code does, as the model states it:
- A successful recovery in `generate_report` replaces the whole record.
  Nothing of the original record but `raw_response` affects the result,
  and a required field the recovered object lacks becomes "123". See
  `ReplacementIgnoresOtherFields` and `ReplacementLosesKnownField`.
- A response without any "{" is cut down to its last character
  (`raw[-1:]`). When neither parser accepts that character, the record
  keeps the response beside twelve placeholders (`BraceFreeEndToEnd`).
  When it does parse, as the "5" of "age 45" decodes to the number 5, the
  completion loop raises `TypeError` and `generate_report` re-raises it
  (`BraceFreeNonMappingRaises`, `NonMappingRecoveryRaises`).
- Only `imaging_findings`, `diagnosis_summary` and `comment` are
  flattened. A list under any other key reaches the renderer as a list
  (`PreparedLeavesOtherListsNested`).
- The completion loop treats 0, False, "", [] and {} as missing.
- A required field can be truthy when completion checks it and still
  reach the template as "", because flattening and stripping run after
  completion:
  - a whitespace-only string (`RerunRefillsBlankedField`);
  - a non-empty list of falsy elements under `diagnosis_summary` or
    `comment` (`FalsyListBlanked`);
  - a findings mapping whose organs are all None (`NullFindingsBlanked`).
- The upload handler calls `generate_report` twice on the same dict, at
  `backend/app2.py:114-115`. The second call sees the blank and writes
  "123" (`RerunRefillsBlankedField`).

## Model

| member | source | states |
|---|---|---|
| PyStrings.Strip | backend/report_generation.py:75 | `strip()` returns text no longer than its input that neither starts nor ends with whitespace |
| PyStrings.StripSlice | backend/report_generation.py:75 | the strip is a contiguous piece of the input with only whitespace before and after it |
| PyStrings.StripEmpty | backend/report_generation.py:75 | the strip is empty exactly when the input is all whitespace |
| PyStrings.StripStripped | backend/ai_processing.py:28 | text that neither starts nor ends with whitespace is its own strip |
| PyStrings.StripIdempotent | backend/report_generation.py:73-75 | stripping twice is stripping once |
| PyStrings.Capitalize | backend/report_generation.py:34 | `capitalize()` keeps the length, upper-cases the first character and lower-cases the rest |
| PyStrings.JoinAppend | backend/report_generation.py:36 | joining one more part appends the separator and that part |
| PyStrings.FindFrom | backend/report_generation.py:87 | returns the first occurrence at or after the start index, or -1 when there is none after it |
| PyStrings.Find | backend/report_generation.py:87 | `find` returns the lowest index where the pattern occurs, or -1 when it occurs nowhere |
| PyStrings.FindChar | backend/report_generation.py:91 | for one character, `find` is -1 exactly when the character is absent; otherwise it points at the first occurrence |
| PyStrings.SliceFrom | backend/report_generation.py:92 | `s[i:]` follows Python's slice rules: a negative start counts from the end (so `s[-1:]` is the last character), and a start past the end gives "" |
| PyStrings.Split | backend/app.py:97 | `split('\n')` gives at least one piece; no piece holds the separator; joining the pieces with it gives back the text |
| PyStrings.SplitOnce | backend/app.py:99 | `split('：', 1)` gives the text before the first separator and everything after it, and the three rejoin to the input |
| PyStrings.SplitOnceAt | backend/app.py:99 | splitting `h + '：' + t`, when `h` holds no separator, gives back `h` and `t` |
| PyStrings.NatToString | backend/report_generation.py:64 | `str()` of a natural number is a non-empty run of decimal digits |
| PyStrings.NatToStringValue | backend/report_generation.py:64 | those digits spell the number, and only 0 starts with "0" |
| PyStrings.IntToString | backend/report_generation.py:64 | `str()` of an integer: "-" before the digits of a negative number; no contract of its own, the digits' value is in `NatToStringValue` |
| PyValues.Truthy | backend/report_generation.py:112 | Python truthiness: None, False, 0 and empty strings, lists and dicts are falsy; a predicate whose consequences are stated by `TruthyPrints`, `Schema.CompletedHasKeys` and `ReportGeneration.TruthyStrsExtremes` |
| PyValues.StrOf | backend/report_generation.py:52 | `str()` of a parsed value; no contract of its own, its properties are in `StrOfEmpty`, `TruthyPrints`, `Quote`, `QuotePlain` and `NatToStringValue` |
| PyValues.Quote | backend/report_generation.py:52 | `repr()` of a string is delimited by matching quotes, which are double exactly when the string holds a single quote and no double quote |
| PyValues.QuotePlain | backend/report_generation.py:52 | a string with no single quote, backslash or character `repr` escapes (controls, U+007F to U+00A0, U+00AD) is written between single quotes, verbatim |
| PyValues.StrOfEmpty | backend/report_generation.py:63-64 | only the empty string prints as "" |
| PyValues.TruthyPrints | backend/report_generation.py:33 | a truthy value never prints as "" |
| Dicts.IndexOf | backend/report_generation.py:112 | `key in d`: the position of the key, and no earlier entry holds it; -1 when no entry holds it |
| Dicts.Insert | backend/report_generation.py:113 | `d[k] = v`: `k` maps to `v`; every other key keeps its value; an existing key keeps its place and a new key goes last; a dict stays free of repeated keys |
| Dicts.InsertAt | backend/report_generation.py:75 | assigning to a present key replaces that one entry in place |
| Dicts.InsertIndex | backend/app.py:100 | after `d[k] = v` a key already present keeps its position, and a new key is placed last |
| Dicts.Record.constructor | backend/report_generation.py:95-96 | a new dict object holds exactly the given entries |
| Dicts.Record.Get | backend/report_generation.py:85 | `d[k]` on a present key is the value `d.get(k)` finds |
| Dicts.Record.SetItem | backend/report_generation.py:113 | `d[k] = v` in place: the new entries are `Insert` of the old ones, and the dict keeps distinct keys |
| Schema.FieldListsDistinct | backend/report_generation.py:106-110 | each required list names twelve distinct fields, and `raw_response` is not one of them |
| Schema.CompletedLookup | backend/report_generation.py:111-113 | after completion, a listed key that was absent (or falsy, under that policy) holds the placeholder; every other key keeps its value or stays absent |
| Schema.CompletedHasKeys | backend/report_generation.py:111-113 | after completion every listed key is present; with the falsy policy and a truthy placeholder every listed key is truthy, and no key needs filling any more |
| Schema.CompletedAllAbsent | backend/report_generation.py:111-113 | when no listed key is present, completion appends every one, each with the placeholder, in list order |
| Schema.CompletedKeys | backend/report_generation.py:111-113 | existing keys keep their order, and the missing listed keys are appended once each, in list order |
| Schema.CompletedDistinct | backend/report_generation.py:111-113 | completion never repeats a key |
| Schema.CompletedUnchanged | backend/report_generation.py:111-113 | a record that needs no filling is left exactly as it is |
| Schema.CompletedIdempotent | backend/report_generation.py:111-113 | completing a completed record changes nothing |
| Schema.Completed | backend/report_generation.py:111-113 | the completion loop as a value; no contract of its own, its properties are in `CompletedLookup`, `CompletedHasKeys`, `CompletedKeys`, `CompletedDistinct` and `CompletedIdempotent` |
| Schema.Complete | backend/report_generation.py:111-113 | the completion loop run in place leaves the dict equal to `Completed` of its old entries |
| ReportGeneration.TruthyStrsExtremes | backend/report_generation.py:33 | a list with only truthy elements prints every element, in order; one with only falsy elements prints none |
| ReportGeneration.TruthyStrsNonEmpty | backend/report_generation.py:33 | every printed element is non-empty, and there are no more of them than elements |
| ReportGeneration.AttributeLinesEmpty | backend/report_generation.py:26-35 | an organ's attributes give no line exactly when every attribute is None |
| ReportGeneration.OrganLinesAppend | backend/report_generation.py:22-38 | the blocks of two consecutive runs of organs are the blocks of each run |
| ReportGeneration.FormatAttributes | backend/report_generation.py:26-34 | the attribute loop builds exactly `AttributeLines`: None skipped, booleans as Yes/No, lists joined after dropping falsy elements, "Key: value" with the key capitalised |
| ReportGeneration.FormatOrgans | backend/report_generation.py:21-38 | the organ loop builds exactly `OrganLines`: None details skipped, a mapping as an indented block unless it has no line, anything else as "Organ: detail" |
| ReportGeneration.FormatPairs | backend/report_generation.py:45-49 | the loop over a dict item of a findings list builds its non-None "Key: value" pairs |
| ReportGeneration.FormatItems | backend/report_generation.py:42-52 | the list loop builds each item's text: a dict joined pairs, anything else its `str()` |
| ReportGeneration.FindingsText | backend/report_generation.py:15-55 | `format_findings` as a value; no contract of its own, its properties are in `OrganLinesAppend`, `OrganLinesAt`, `NullOrganOmitted`, `ScalarOrganText`, `MappingOrganText`, `ItemTextsAppend`, `EmptyDictItemKept` and `ListItemBooleanNotConverted` |
| ReportGeneration.FormatFindings | backend/report_generation.py:15-55 | `format_findings` returns `FindingsText`: organ blocks joined by "\n" for a mapping, items joined by ", " for a list, `str()` otherwise |
| ReportGeneration.NullOrganOmitted | backend/report_generation.py:23-24 | an organ whose detail is None leaves no trace in the findings text |
| ReportGeneration.OrganLinesAt | backend/report_generation.py:22-38 | an organ anywhere in the mapping contributes its own block between the blocks of the organs before and after it |
| ReportGeneration.ScalarOrganText | backend/report_generation.py:37-38 | a detail that is neither None nor a mapping renders as "Organ: detail" with the organ capitalised, in its own place among the other organs' blocks; alone, it is the whole findings text |
| ReportGeneration.MappingOrganText | backend/report_generation.py:25-36 | a mapping detail renders as "Organ:\n  " and its attribute lines joined by "\n  ", in its own place among the other organs' blocks, or contributes nothing when every attribute is None |
| ReportGeneration.AttributeLinesPair | backend/report_generation.py:27-34 | two non-None attributes give two "Key: value" lines, in order |
| ReportGeneration.TwoAttributeOrganText | backend/report_generation.py:25-36 | an organ with two attributes renders as its capitalised name, a colon, and each line indented by two spaces |
| ReportGeneration.OrganBlocksJoined | backend/report_generation.py:39 | consecutive organ blocks are separated by a single newline |
| ReportGeneration.EmptyFindingsText | backend/report_generation.py:21-39 | an empty findings mapping renders as "" |
| ReportGeneration.ItemTextsAppend | backend/report_generation.py:43-52 | the item texts of two consecutive runs of list items are those of each run |
| ReportGeneration.EmptyDictItemKept | backend/report_generation.py:44-50 | a dict item whose values are all None, at any position in a findings list, still takes its place there as an empty item |
| ReportGeneration.ListItemBooleanNotConverted | backend/report_generation.py:49 | a boolean value in a dict item prints as True or False, not Yes or No, wherever the item sits in the findings list |
| ReportGeneration.FormatTextField | backend/report_generation.py:57-64 | `format_text_field` as a value; no contract of its own, its properties are in `FormatTextFieldOfString`, `FalsyElementsDropped` and `FalsyListBlanked` |
| ReportGeneration.FormatTextFieldOfString | backend/report_generation.py:64 | a string field passes through `format_text_field` unchanged |
| ReportGeneration.TruthyStrsAppend | backend/report_generation.py:62-63 | the printed elements of two consecutive runs of a list are those of each run, in order |
| ReportGeneration.FalsyElementDropped | backend/report_generation.py:62-63 | a falsy element at any position prints nothing: the list prints as if it were not there |
| ReportGeneration.TruthyElementKept | backend/report_generation.py:62-63 | a truthy element at any position prints as its `str()`, in its own place between the elements before and after it |
| ReportGeneration.FalsyFieldElementDropped | backend/report_generation.py:57-63 | `format_text_field` of a list with a falsy element anywhere equals that of the list without it |
| ReportGeneration.FalsyElementsDropped | backend/report_generation.py:62-63 | an example: "", None and 0 between two non-empty strings are dropped, and the two strings are joined with ", " |
| ReportGeneration.ReformatInPlace | backend/report_generation.py:67-72 | one `if key in data: data[key] = ...` step reformats the value under that key only, in place, and does nothing when the key is absent |
| ReportGeneration.StripStringsInPlace | backend/report_generation.py:73-75 | the closing loop replaces every string value by its strip, under its own key, and leaves other values alone |
| ReportGeneration.PreparedInSteps | backend/report_generation.py:66-76 | preparation is the three reformatting steps followed by the strip loop |
| ReportGeneration.Prepared | backend/report_generation.py:66-76 | `prepare_data_for_template` as a value, entry by entry; its properties are in `PreparedKeys`, `PreparedLookup`, `PreparedIdempotent` and `PreparedAppend` |
| ReportGeneration.PrepareDataForTemplate | backend/report_generation.py:66-76 | `prepare_data_for_template` leaves the dict equal to `Prepared` of its old entries |
| ReportGeneration.PreparedKeys | backend/report_generation.py:66-76 | preparation keeps every key, in the same order |
| ReportGeneration.PreparedLookup | backend/report_generation.py:66-76 | findings become stripped `format_findings` text; the two free-text fields become stripped `format_text_field` text; other strings are stripped; other values are unchanged |
| ReportGeneration.ReformatString | backend/report_generation.py:67-72 | a string value is already flat text under every key |
| ReportGeneration.PreparedValueStable | backend/report_generation.py:66-76 | a prepared value is a stripped string or a non-string, and preparing it again leaves it as it is |
| ReportGeneration.PreparedStringsStripped | backend/report_generation.py:73-75 | every string in a prepared record is already stripped |
| ReportGeneration.PreparedIdempotent | backend/report_generation.py:66-76 | preparing a prepared record changes nothing |
| ReportGeneration.PreparedLeavesOtherListsNested | backend/report_generation.py:67-72 | a list under any key other than the three named fields comes out of preparation as the same list |
| ReportGeneration.RecoveryCandidate | backend/report_generation.py:86-92 | the candidate is a suffix of the raw response |
| ReportGeneration.RecoveryCandidateStart | backend/report_generation.py:87-92 | the candidate starts at the "{" of the first "\n{" when there is one, else at the first "{" |
| ReportGeneration.RecoveryCandidateShape | backend/report_generation.py:87-92 | with a "{" in the text the candidate begins with "{"; without one it is the last character, or "" for empty text |
| ReportGeneration.CandidateAfterProse | backend/report_generation.py:87-89 | prose in which no newline is followed by "{", then a newline, then an object: the candidate is exactly the object, even when the prose holds braces of its own |
| ReportGeneration.FinishedLookup | backend/report_generation.py:111-119 | after completion and preparation, a required key that was absent or falsy holds "123"; any other present key holds its prepared value; nothing else is present |
| ReportGeneration.PlaceholderPrepared | backend/report_generation.py:113 | the placeholder "123" comes through preparation unchanged |
| ReportGeneration.Recover | backend/report_generation.py:84-103 | the recovery step as a value: the record kept, replaced by what a parser accepted, or an error for a non-text `raw_response`; no contract of its own, its properties are in `ReplacementIgnoresOtherFields`, `FailedRecoveryKeepsRaw` and `NonMappingRecoveryRaises` |
| ReportGeneration.Finished | backend/report_generation.py:105-119 | completion with "123" followed by preparation, as a value; no contract of its own, its properties are in `FinishedLookup` |
| ReportGeneration.FinishRecord | backend/report_generation.py:111-119 | completion with "123" and then preparation, in place, leave the dict equal to `Finished` of its old entries |
| ReportGeneration.ReportData | backend/report_generation.py:84-119 | the record `generate_report` hands to the renderer, or the exception it raises; no contract of its own, its properties are in `ReportDataHasAllKeys`, `ReplacementLosesKnownField`, `FailedRecoveryEndToEnd` and `BraceFreeNonMappingRaises` |
| ReportGeneration.GenerateReport | backend/report_generation.py:84-119 | the record handed to the renderer, or the exception raised, is `ReportData`. When the record is kept, the caller's dict is updated in place and is the dict handed to the renderer. When it is replaced, the caller's dict is untouched and a new dict is handed to the renderer. When `raw_response` is not a string, `AttributeError` is raised and the caller's dict is untouched |
| ReportGeneration.ReplacementIgnoresOtherFields | backend/report_generation.py:95-101 | once a parser accepts the candidate, no field of the original record other than `raw_response` affects the result |
| ReportGeneration.ReplacementLosesKnownField | backend/report_generation.py:96-113 | a required field the recovered object lacks comes out as "123", whatever the original record held |
| ReportGeneration.ReplacementLosesName | backend/report_generation.py:87-113 | the example: a known patient name is lost to a recovered empty object |
| ReportGeneration.FailedRecoveryKeepsRaw | backend/report_generation.py:97-103 | when both parsers reject the candidate, the record keeps `raw_response`, stripped |
| ReportGeneration.ReportDataHasAllKeys | backend/report_generation.py:84-119 | whichever way recovery goes, a record handed to the renderer holds every required key |
| ReportGeneration.CompleteRecordOnlyFlattened | backend/report_generation.py:106-119 | a record without `raw_response` whose required keys are all truthy is only prepared; no placeholder is written |
| ReportGeneration.CompletedBareRaw | backend/report_generation.py:111-113 | completing a record that holds only `raw_response` appends the twelve required keys, each "123" |
| ReportGeneration.PreparedAppend | backend/report_generation.py:73-75 | preparation works entry by entry, so it distributes over concatenation |
| ReportGeneration.PreparedFresh | backend/report_generation.py:113-119 | placeholder entries come through preparation unchanged |
| ReportGeneration.FinishedBareRaw | backend/report_generation.py:106-119 | a record holding only a raw response becomes that response, stripped, followed by the twelve required keys, each "123" |
| ReportGeneration.FailedRecoveryEndToEnd | backend/report_generation.py:84-119 | when neither parser accepts the candidate, a bare raw response ends up stripped, beside twelve placeholders |
| ReportGeneration.BraceFreeEndToEnd | backend/report_generation.py:91-119 | a brace-free response is cut to its last character. When neither parser accepts that character, the response ends up stripped, beside twelve placeholders |
| ReportGeneration.NonMappingRecoveryRaises | backend/report_generation.py:95-113 | a candidate that parses to something other than a mapping makes `generate_report` raise `TypeError` |
| ReportGeneration.BraceFreeNonMappingRaises | backend/report_generation.py:91-113 | a brace-free response whose last character parses to a non-mapping, such as "age 45", makes `generate_report` raise `TypeError` |
| ReportGeneration.OrganLinesAllNull | backend/report_generation.py:22-24 | a findings mapping whose details are all None gives no block |
| ReportGeneration.NullFindingsBlanked | backend/report_generation.py:111-119 | a findings mapping whose organs are all None passes completion and reaches the template as "" |
| ReportGeneration.FalsyListBlanked | backend/report_generation.py:111-119 | a non-empty list of falsy elements under `diagnosis_summary` or `comment` passes completion and reaches the template as "" |
| ReportGeneration.FalsyListPrepared | backend/report_generation.py:69-75 | a non-empty list of falsy elements is truthy, and under `diagnosis_summary` or `comment` it prepares to "" |
| ReportGeneration.RerunRefillsBlankedField | backend/report_generation.py:111-119 | a whitespace-only required field reaches the template as ""; running the same steps on that output writes "123" |
| ReportGeneration.BlankPrepared | backend/report_generation.py:73-75 | a non-empty all-whitespace string is truthy and prepares to "" |
| ReportGeneration.WithoutRawFinished | backend/report_generation.py:84 | a record without `raw_response` is completed and prepared as it is, and the result again has no `raw_response` |
| AiProcessing.EnhanceText | backend/ai_processing.py:4-32 | `enhance_text_with_ai` as a value; no contract of its own, its properties are in `EnhanceTextOutcome` |
| AiProcessing.EnhanceTextOutcome | backend/ai_processing.py:24-32 | on success the result is exactly the strip of the reply (so no longer than it, without surrounding whitespace, stable under strip); on failure it is the input, unchanged |
| AiProcessing.SpanBounds | backend/ai_processing.py:73 | a reported span starts with "{" and ends with "}" |
| AiProcessing.SpanBoundsLeftmostLongest | backend/ai_processing.py:73 | a span is reported exactly when some substring matches `\{.*\}`; it is the leftmost match and, for that start, the longest |
| AiProcessing.SpanBoundsFacts | backend/ai_processing.py:73 | every match lies between the first "{" and the last "}", and those two make a match when the first comes before the last |
| AiProcessing.JsonSpan | backend/ai_processing.py:73-79 | the text handed to `json.loads`; no contract of its own, its properties are in `JsonSpanFound`, `JsonSpanWhole`, `JsonSpanAroundProse` and `JsonSpanIdempotent` |
| AiProcessing.JsonSpanFound | backend/ai_processing.py:73-76 | with a "{" before some "}", the parsed text runs from the first "{" through the last "}" |
| AiProcessing.JsonSpanWhole | backend/ai_processing.py:77-79 | otherwise the whole reply is parsed |
| AiProcessing.JsonSpanAroundProse | backend/ai_processing.py:73-76 | prose without braces around an object: the parsed text is exactly the object |
| AiProcessing.JsonSpanIdempotent | backend/ai_processing.py:73-79 | cutting the span out of a span changes nothing |
| AiProcessing.UnknownRecordShape | backend/ai_processing.py:95-108 | the fallback record holds exactly the twelve required fields, in order, each "unknown", with no repeated key |
| AiProcessing.AiReportComplete | backend/ai_processing.py:89-126 | every return path holds every required field with a truthy value |
| AiProcessing.AiReportDistinct | backend/ai_processing.py:82-126 | the result never repeats a key when the parser never does |
| AiProcessing.AiReportParsedLookup | backend/ai_processing.py:82-92 | on a parsed mapping, a required field that was absent or falsy holds "456"; every other key, extra keys included, keeps its value |
| AiProcessing.AiReportFallback | backend/ai_processing.py:93-126 | a failed model call, a decode failure or a parse result that is not a mapping all give exactly the twelve-field all-"unknown" record |
| AiProcessing.AiReport | backend/ai_processing.py:35-126 | `generate_report_with_ai` as a value; no contract of its own, its properties are in `AiReportComplete`, `AiReportDistinct`, `AiReportParsedLookup` and `AiReportFallback` |
| AiProcessing.GenerateReportWithAi | backend/ai_processing.py:35-126 | the new dict returned is `AiReport`, completed in place on a parsed mapping |
| GeminiApp.LineEntry | backend/app.py:98-100 | the entry one reply line contributes; no contract of its own, its properties are in `LineEntrySplit` and `LineEntryNone` |
| GeminiApp.LineEntrySplit | backend/app.py:98-100 | a line is split at its first "：", both sides stripped, so the value keeps later colons |
| GeminiApp.LineEntryNone | backend/app.py:98 | a line contributes nothing exactly when it holds no "：", even if it holds an ASCII ":" |
| GeminiApp.Fields | backend/app.py:96-100 | the line loop as a value over the lines' entries; no contract of its own, its properties are in `FieldsStep`, `FieldsLookup`, `FieldsShape` and `FieldsOrder` |
| GeminiApp.ResponseFields | backend/app.py:96-100 | the line loop over a reply's lines; no contract of its own, its properties are in `ResponseFieldsLookup` |
| GeminiApp.FieldsStep | backend/app.py:97-100 | each line either assigns its key its value or leaves the key alone |
| GeminiApp.FieldsLookup | backend/app.py:96-100 | a key is present exactly when some line assigns it, and then it holds the value of the last such line |
| GeminiApp.FieldsShape | backend/app.py:96-100 | the line loop never repeats a key, and every stored value is a string |
| GeminiApp.ResponseFieldsLookup | backend/app.py:96-100 | the same for the lines of a reply: present exactly when some line assigns the key, holding the last line's stripped value |
| GeminiApp.GeminiRecordLookup | backend/app.py:96-105 | every required field is present; one the reply did not name holds ""; one it named keeps its value, even an empty one; other keys are kept |
| GeminiApp.CommentSpelling | backend/app.py:102 | "Comment" is always present; a lower-case "comment" is present only when the reply named it |
| GeminiApp.FieldsHasKey | backend/app.py:96-100 | a key is present in the line loop's dict exactly when some line assigns it |
| GeminiApp.FieldsOrder | backend/app.py:96-100 | the line loop's dict holds its keys in the order of the lines that first assign them; a later line for the same key changes its value, not its place |
| GeminiApp.GeminiRecord | backend/app.py:96-106 | the dict `call_gemini_model` returns for a reply, as a value; no contract of its own, its properties are in `GeminiRecordLookup`, `GeminiRecordKeys`, `GeminiRecordOrder` and `GeminiFillIdempotent` |
| GeminiApp.GeminiRecordKeys | backend/app.py:96-105 | the fields the reply named come first, then the missing required fields, in list order; no key repeats |
| GeminiApp.GeminiRecordOrder | backend/app.py:96-105 | of two fields the reply names, the one whose first line comes first comes first in the returned dict |
| GeminiApp.GeminiFillIdempotent | backend/app.py:103-105 | applying the fill step again changes nothing |
| GeminiApp.CallGeminiModel | backend/app.py:96-106 | the returned dict, filled line by line and then completed in place, is `GeminiRecord` of the reply |

## Left out

- Flask routes, uploads, `download_report`, `send_file` and the upload handlers in `backend/app2.py`: HTTP and file-system plumbing.
- Rendering: the DOCX template, the table-cell `str.format` pass, PDF conversion and the saving of files are third-party document libraries and I/O.
- The language-model calls (`ollama.generate`, Gemini) are parameters. Their prompt text is not modelled, because it only reaches the model.
- `generate_report` passes on to `ast.literal_eval` only a `JSONDecodeError` from `json.loads`; any other exception from `json.loads`, such as a `RecursionError` on deeply nested input, escapes. The model treats every `json.loads` failure as a decode error.
- `json.loads` and `ast.literal_eval` are parameters. They are assumed never to yield a dict with a repeated key (`ParsesDistinct`), as Python dicts never do.
- `call_gemini_model` before line 96: building the model and the prompt, and reading `response.text`. The reply text is the input, and exceptions from the call are not modelled.
- OCR and speech recognition in `backend/text_processing.py`, the demo in `backend/testai.py` and all JavaScript are outside the pipeline modelled here.
- Floating-point numbers, tuples, sets and non-string dict keys among parsed values: a `Value` is None, a boolean, an integer, a string, a list or a string-keyed dict.
- PyStrings.Capitalize: upper- and lower-cases ASCII letters only, where Python maps every cased Unicode character.
- PyValues.Quote: `repr()` escaping writes `\x` escapes for control and Latin-1 non-printable characters. It does not write the `\u`/`\U` escapes Python uses for other non-printable characters.
- PyStrings.NatToString: Python's limit on converting very long integers to text is not modelled.
- Logging and `print` calls, and the `uuid4` report identifiers: side output and randomness.
- `generate_report`'s `format`, `report_id` and `original_filename` parameters only steer rendering and file names, which are left out.
