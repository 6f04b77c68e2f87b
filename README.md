# DataCruncher segmentation engines in Dafny

A model of the two row-matching engines of DataCruncher, a PHP toolkit for
tabular data, with proofs of what they do.

* **Query** (`src/Segmentation/Query.php`) is a fluent configuration
  object. It holds a source, the selected fields, a `where` field, one of
  thirteen condition keywords, a value and a limit. Its `execute` pass
  streams the source's rows. For each row it does the following:
  - trims the `where` value and tests it with one of five evaluators:
    `_equality`, `_date`, `_empty`, `_contains` and `_in`;
  - cuts a kept row down to the selected fields and optionally renames its
    keys;
  - hands the row back or writes it to a sink;
  - stops once a positive limit is reached.
* **Merger** (`src/Segmentation/Merger.php`) is a nested-loop equality
  join of an ordered list of sources on one field. `execute` does the
  following:
  - opens every source and the optional output file;
  - shifts the sources off the front of the list one at a time;
  - compares every row of the shifted source with every row of every
    source still listed;
  - for each pair whose join values are identical (`===`), emits the PHP
    array union `$row + $merge_row`;
  - rewinds the sources between scans.

Layout:

* `wrappers.dfy` holds `Option` and `Result`.
* `seqs.dfy` holds small sequence facts.
* `text.dfy` holds the PHP 7 string built-ins the engines call:
  - `trim`, `strtoupper` and `strpos`;
  - `str_getcsv` on an unquoted line;
  - `strcmp` order;
  - `is_numeric` and the `(float)` cast on integer literals;
  - loose `==`.
* `rows.dfy` holds a PHP ordered array as a sequence of entries: lookup,
  assignment, `unset`, `array_intersect_key` and the `+` union.
* `data_source.dfy` holds the source contract both engines read through, a
  class with an open flag, a read cursor and the rows written to a sink.
* `query_conditions.dfy` holds the condition vocabulary and the five
  evaluators.
* `query.dfy` holds the `Query` class. Its `execute` loop is proved against
  the recursive specification `Take`, which is in turn tied to the plain
  filter `Accepted`. Its renaming loop is proved against `Relabel`.
* `merger.dfy` holds the join specification (`Pairings`, `RowAgainst`,
  `LeftPass`, `Passes`, `Join`, `MergeOf`) and its membership and order
  lemmas. It also holds the `Merger` class, whose loops are proved against
  that specification.

The model follows the code as written, including the places below, where
the code departs from the behaviour one might expect of it. Where the code
is evidently wrong (see Findings), both versions are modelled: the
as-written one and the intended one, and each engine's `Execute` uses the
intended one beside an `ExecuteAsWritten`.

* **Union rule.** The union keeps the LEFT row's value on a shared key.
  `$row + $merge_row` keeps the left operand's entry; a right-wins merge
  would need `array_merge`.
* **Query and a missing field.** Query has no row-0 field check. Any row
  that lacks the `where` field makes `trim(null)` throw under strict types.
* **Query closing.** Query closes its source only when the pass ends
  without an error.
* **Merger closing.** Merger closes no source at all; see the third row
  under Findings.
* **Failed numeric cast.** A failed numeric cast in `_equality` is not
  "no match": the guard meant to ensure that never fires; see the first row
  under Findings.
* **Renaming compares with `!==`.** A header is renamed unless it is a
  string identical to its mapped name. A header the mappings do not name
  is compared with `null` and written under the key "" before it is unset.
  A decimal-integer header such as "2019" is an integer key, so it is never
  identical to its mapped name. Both cases can lose a column
  (`UnmappedBlankHeaderLost`, `IntegerHeaderLost`).

## Model

| member | source | states |
|---|---|---|
| `QueryConditions.ParseKeyword` | src/Segmentation/Query.php:67-73 | a keyword is accepted only as the condition it spells |
| `QueryConditions.KeywordRoundTrip` | src/Segmentation/Query.php:170-201 | each of the thirteen keywords of the `execute` switch is accepted and names its own condition |
| `QueryConditions.ConditionIgnoresCase` | src/Segmentation/Query.php:66-67 | after upper-casing, a spelling is accepted as condition `c` exactly when it upper-cases to `c`'s keyword (both directions) |
| `QueryEngine.Query.SetCondition` | src/Segmentation/Query.php:64-75 | an unknown keyword is refused with `InvalidCondition` and the configuration is left unchanged; a known one, in any case, is stored and nothing else changes |
| `QueryEngine.Query.Select` | src/Segmentation/Query.php:46-56 | an empty list is refused with nothing changed; otherwise the selected fields become exactly the listed names |
| `QueryEngine.Query.Where` | src/Segmentation/Query.php:84-91 | sets the `where` field; a date format replaces the stored one only when given |
| `QueryEngine.Query.SetValue` | src/Segmentation/Query.php:100-135 | with a format, two dates become a period and one string becomes a date, and anything unparsable is refused with the configuration unchanged; without a format, a numeric string is cast to its number and other values are stored as given |
| `QueryEngine.Query.Limit` | src/Segmentation/Query.php:143-147 | stores the limit and changes nothing else |
| `QueryEngine.Query.FromSource` | src/Segmentation/Query.php:34-38 | sets the source and leaves the configuration unchanged |
| `QueryEngine.Query.constructor` | src/Segmentation/Query.php:20-25 | starts with no source, no fields, the empty `where` field, no condition, the empty value and limit -1 |
| `QueryConditions.Emptiness` | src/Segmentation/Query.php:322-326 | EMPTY holds exactly of the empty string and NOT_EMPTY exactly of every other |
| `QueryConditions.ContainsTest` | src/Segmentation/Query.php:278-281 | a string value matches exactly when it is a non-empty case-sensitive substring of the row value; the results for a number, a date or a list follow PHP 7 `strpos` on characters rather than bytes |
| `QueryConditions.InArray` | src/Segmentation/Query.php:268 | `in_array` holds exactly when some element loosely equals the value |
| `QueryConditions.TrimAll` | src/Segmentation/Query.php:267 | every candidate is trimmed, position by position |
| `QueryConditions.InTest` | src/Segmentation/Query.php:262-269 | a string value is split on commas and a list is taken as given; the row matches exactly when it loosely equals some trimmed candidate; a number or a single date is refused by `str_getcsv` under strict types; a pair of dates trims to nulls in the weak-mode callback, so exactly the empty row value matches |
| `QueryConditions.EqualityAsWritten` | src/Segmentation/Query.php:291-313 | as written, `_equality` never fails; against a number every operator compares the `(float)` cast of the row value; against a string EQUALS and NOT compare the strings and LESS and GREATER use `strcmp` order; against a list, a date or a pair of dates only NOT and LESS hold, since `===` never holds across types and PHP 7 orders an array, or an object without a string conversion, above a string |
| `QueryConditions.EqualityGuardNeverFires` | src/Segmentation/Query.php:294-296 | as written, row value "abc" EQUALS the number 0, while the intended evaluator rejects it |
| `QueryConditions.NotNegatesEqualsAsWritten` | src/Segmentation/Query.php:305-310 | as written, NOT is always the exact negation of EQUALS |
| `QueryConditions.Equality` | src/Segmentation/Query.php:291-313 | intended `_equality`: a row value that matches a numeric query value is numeric |
| `QueryConditions.NotNegatesEquals` | src/Segmentation/Query.php:294-310 | NOT negates EQUALS, except that a non-numeric row value against a number satisfies neither |
| `QueryConditions.GreaterLessExclusive` | src/Segmentation/Query.php:299-304 | GREATER and LESS never both hold, as written and as intended |
| `QueryConditions.NumbersComparedAsNumbers` | src/Segmentation/Query.php:129-130 | with a numeric query value (cast when set), a numeric row value is compared as a number |
| `QueryConditions.UnparsableDateMatchesAsWritten` | src/Segmentation/Query.php:338-353 | as written, a row value that does not parse satisfies BEFORE and NOT_BETWEEN, while the intended evaluator rejects it |
| `QueryConditions.DateTestAsWritten` | src/Segmentation/Query.php:336-359 | as written, `_date` throws without a date format; a row value that does not parse can satisfy only BEFORE or NOT_BETWEEN; a row value that parses satisfies AFTER, BEFORE or ON against a single date exactly when it is later than, earlier than or equal to it; a single date under BETWEEN or NOT_BETWEEN is a type error; against a pair of dates AFTER holds exactly for a parsable row value, BEFORE exactly for an unparsable one and ON never; a result is given exactly for a single date or a pair |
| `QueryConditions.DateTestOf` | src/Segmentation/Query.php:336-359 | intended `_date`: a date condition holds only of a row value that parses under the stored format |
| `QueryConditions.DateRangeBounds` | src/Segmentation/Query.php:348-353 | BETWEEN holds iff start < x < end; NOT_BETWEEN holds iff x < start or x > end; they never both hold; for a start not after the end, a date equal to a bound satisfies neither |
| `QueryConditions.Evaluate` | src/Segmentation/Query.php:170-202 | with no condition no row matches; EMPTY and NOT_EMPTY test emptiness; the only errors are a wrong value type, a missing date format and an incomparable value; as intended, a numeric comparison matches only a numeric row value and a date condition only a parsable date |
| `QueryEngine.Matches` | src/Segmentation/Query.php:168-202 | a row fails with `MissingField` exactly when it lacks the `where` field (`trim(null)` under strict types); with no condition, a row holding the field does not match |
| `QueryEngine.TakeFrom` | src/Segmentation/Query.php:203-223 | a pass keeps no more rows than it reads, and no more than a positive limit |
| `QueryEngine.TakeFromHits` | src/Segmentation/Query.php:167-205 | every kept row is a non-empty row of the source that the condition accepts |
| `QueryEngine.TakeLimit` | src/Segmentation/Query.php:221-223 | a positive limit keeps exactly the first `limit` matches of the unlimited pass and stops before any later error; a limit of zero or less is no limit |
| `QueryEngine.NoConditionNoHits` | src/Segmentation/Query.php:170-202 | with no condition set, no row is kept |
| `QueryEngine.Accepted` | src/Segmentation/Query.php:167-204 | a row is accepted exactly when it is one of the rows and the condition holds of it |
| `QueryEngine.Stop` | src/Segmentation/Query.php:167 | the pass reads on until the end, an empty row or a row the condition cannot evaluate; every row before that is non-empty and evaluates |
| `QueryEngine.TakeFromAccepted` | src/Segmentation/Query.php:167-223 | without a limit, the kept rows are exactly the accepted rows before the stop, in source order, and the pass fails exactly when it stops at a row that cannot be evaluated, with that row's error |
| `QueryEngine.PassKeepsNonNumericAsWritten` | src/Segmentation/Query.php:294-296 | as written, a pass with EQUALS 0 keeps a row whose value is "abc"; as intended it drops it |
| `QueryEngine.PassKeepsUnparsableDateAsWritten` | src/Segmentation/Query.php:338-353 | as written, a pass with BEFORE keeps a row whose date does not parse; as intended it drops it |
| `QueryEngine.ReadRows` | src/Segmentation/Query.php:167-225 | the loop produces exactly the kept rows of `Take`, cut and renamed, in source order; they go to the result list or to the sink and never both; the count is their number; an evaluation error stops it |
| `QueryEngine.Query.Run` | src/Segmentation/Query.php:157-253 | refusal order: sink already open, no source, source already open; after the last two refusals a given sink stays open. Then the pass `Take` under the chosen evaluators: a pass that ends normally closes the source and returns the rows, or for a stream sink the written rows, or for a file sink their count; a pass that fails leaves both open |
| `QueryEngine.Query.ExecuteAsWritten` | src/Segmentation/Query.php:157-253 | the same, with the evaluators as written |
| `QueryEngine.Query.Execute` | src/Segmentation/Query.php:157-253 | the same, with the intended evaluators: a numeric comparison needs a numeric row value and a date condition a parsable date |
| `QueryEngine.Show` | src/Segmentation/Query.php:205-215 | an emitted row is the source row cut to the selected fields, then renamed |
| `QueryEngine.RenameKeys` | src/Segmentation/Query.php:206-215 | the renaming `foreach` computes `Relabel`: every header of the snapshot is visited in order, and one that is not identical (`!==`) to its mapped name is written under `$mappings[$header]` and unset |
| `QueryEngine.RelabelClean` | src/Segmentation/Query.php:207-214 | when no target collides with a header or another target, the renamed row is the untouched entries in order followed by the renamed ones in order |
| `QueryEngine.RelabelContents` | src/Segmentation/Query.php:210-212 | when nothing collides, every value survives under its new key, nothing else appears, and no key occurs twice |
| `QueryEngine.RenameIdentity` | src/Segmentation/Query.php:210 | headers that are not renamed (string keys mapped to themselves) leave the row untouched |
| `QueryEngine.UnmappedBlankHeaderLost` | src/Segmentation/Query.php:210-212 | a header missing from the mappings is written under `null`, the key "", and unset, so a column headed "" is lost |
| `QueryEngine.IntegerHeaderLost` | src/Segmentation/Query.php:210-212 | a decimal-integer header mapped to itself is written onto itself and unset, so its column is lost |
| `QueryEngine.PresentSelects` | src/Segmentation/Query.php:205 | when no selected header is renamed, an emitted row holds exactly the selected fields of its source row, with their values |
| `QueryEngine.PresentAll` | src/Segmentation/Query.php:216-220 | the emitted rows correspond one to one and in order to the kept rows |
| `QueryEngine.RenameStep` | src/Segmentation/Query.php:211-212 | one renaming step keeps the row a PHP array (no key twice) |
| `Rows.Lookup` | src/Segmentation/Query.php:169 | `$row[$k]` is null exactly when the key is absent, else the value stored under it |
| `Rows.Restrict` | src/Segmentation/Query.php:205 | `array_intersect_key` keeps exactly the selected keys, with their values, and only entries of the row |
| `Rows.RestrictAppend` | src/Segmentation/Query.php:205 | `array_intersect_key` keeps row order: the cut of two parts is the cut of each, in order |
| `Rows.RestrictOne` | src/Segmentation/Query.php:205 | a single entry stays exactly when its key is selected |
| `Rows.Put` | src/Segmentation/Query.php:211 | assignment sets one key and leaves every other; a new key goes at the end |
| `Rows.PutKeepsPlace` | src/Segmentation/Query.php:211 | assigning to a key the row already holds keeps every key at its place, so the row's key order is unchanged |
| `Rows.Remove` | src/Segmentation/Query.php:212 | `unset` drops one key and leaves every other |
| `Text.Trim` | src/Segmentation/Query.php:169 | `trim` cuts exactly the whitespace at both ends |
| `Text.ToUpper` | src/Segmentation/Query.php:66 | `strtoupper` changes exactly the ASCII lower-case letters |
| `Text.Strpos` | src/Segmentation/Query.php:280 | `strpos` finds the first occurrence, and fails exactly when there is none or the needle is empty |
| `Text.SplitJoin` | src/Segmentation/Query.php:265 | splitting on commas loses nothing: gluing the pieces back gives the value |
| `Text.LexLessAsymmetric` | src/Segmentation/Query.php:300-303 | string `<` and `>` never both hold |
| `Text.LexLessTotal` | src/Segmentation/Query.php:300-306 | two different strings are always ordered one way |
| `Text.RenderRoundTrip` | src/Segmentation/Query.php:129-130 | an integer literal is numeric and casts back to its value |
| `MergerEngine.Merger.constructor` | src/Segmentation/Merger.php:19 | no sources, and the undeclared join field reads as null (the key "") |
| `MergerEngine.Merger.FromSource` | src/Segmentation/Merger.php:28-32 | appends a source at the end of the list |
| `MergerEngine.Merger.On` | src/Segmentation/Merger.php:42-46 | sets the join field |
| `Rows.Union` | src/Segmentation/Merger.php:113 | `$row + $merge_row` starts with the left row unchanged, adds at most the right row's entries, and adds nothing for an empty right row |
| `Rows.UnionLookup` | src/Segmentation/Merger.php:113 | the merged row has every key of both rows; on a shared key the left value is kept; the left row comes first, unchanged |
| `Rows.UnionDistinct` | src/Segmentation/Merger.php:113 | the union of two PHP arrays holds no key twice |
| `Rows.MissingFacts` | src/Segmentation/Merger.php:113 | the right row contributes exactly its keys that the left row lacks, with its values |
| `MergerEngine.PairingsMembers` | src/Segmentation/Merger.php:109-114 | a left row against one source gives exactly the unions with the right rows whose join value is identical |
| `MergerEngine.RowAgainstMembers` | src/Segmentation/Merger.php:104-118 | `_processRow` gives exactly the unions with matching rows of the pending sources |
| `MergerEngine.LeftPassMembers` | src/Segmentation/Merger.php:84-90 | a left source's scan gives exactly what its rows give against the pending sources |
| `MergerEngine.PassesMembers` | src/Segmentation/Merger.php:79-93 | the first `p` turns give exactly the unions of a row of one of the first `p` sources with a matching row of a later source |
| `MergerEngine.JoinMembers` | src/Segmentation/Merger.php:79-118 | the joined rows are exactly the unions of matching rows of sources `i < j`, left source `i` |
| `MergerEngine.MergeFromPasses` | src/Segmentation/Merger.php:79-93 | taking the sources in turn gives all the joined rows, or stops at the first source whose first row lacks the field |
| `MergerEngine.MergeFromStart` | src/Segmentation/Merger.php:79-93 | the turn-by-turn loop started on the first source is the whole merge |
| `MergerEngine.FirstBad` | src/Segmentation/Merger.php:85-87 | the rejected source is the first whose row 0 lacks the field; every earlier one is empty or has it |
| `MergerEngine.Pairings` | src/Segmentation/Merger.php:109-115 | at most one merged row per right row |
| `MergerEngine.SingleSource` | src/Segmentation/Merger.php:81-93 | a single source yields no rows |
| `MergerEngine.TwoSources` | src/Segmentation/Merger.php:84-116 | with two sources, the output is left row by left row and has at most one row per pair |
| `MergerEngine.ScenarioMatch` | src/Segmentation/Merger.php:111-113 | two rows with id 1 merge into one row holding the fields of both |
| `MergerEngine.ScenarioMismatch` | src/Segmentation/Merger.php:111 | rows with different ids give nothing |
| `MergerEngine.NoClash` | src/Segmentation/Merger.php:61-73 | the sources open without error exactly when none is open and none is listed twice |
| `MergerEngine.OpenAll` | src/Segmentation/Merger.php:61-73 | opens in list order and stops at the first clash; without a clash all are open, rewound and distinct; after a clash, the sources before it are open and rewound and the ones not yet reached are untouched |
| `MergerEngine.CloseAll` | src/Segmentation/Merger.php:95-97 | closes every source of the list |
| `MergerEngine.ScanRight` | src/Segmentation/Merger.php:109-116 | one left row against one source gives its `Pairings`, and the source is rewound |
| `MergerEngine.Merger.ProcessRow` | src/Segmentation/Merger.php:104-118 | appends exactly `RowAgainst` of the row and leaves every pending source open and rewound |
| `MergerEngine.Merger.ScanLeft` | src/Segmentation/Merger.php:84-90 | only row 0 is checked for the field; without error the scan appends exactly the source's `LeftPass` |
| `MergerEngine.Merger.OpenEverything` | src/Segmentation/Merger.php:61-76 | the first source that cannot be opened, then an output file that cannot be, is the error; otherwise all are open and rewound |
| `MergerEngine.Merger.Turn` | src/Segmentation/Merger.php:81-92 | shifts exactly one source off the list; it fails iff its row 0 lacks the field; otherwise it appends that source's pass against the rest and rewinds it, so it stays open and rewound like those shifted before it |
| `MergerEngine.Merger.JoinAll` | src/Segmentation/Merger.php:77-93 | the `do … while` loop computes `MergeOf`; a success leaves the list empty and every source open and rewound; a failure leaves the sources after the failing one listed and those before it open and rewound |
| `MergerEngine.Merger.Run` | src/Segmentation/Merger.php:56-93 | with no source it throws first; then an opening clash; then the join or the field error that names the field and the source; on success every source is open and rewound; the output file is opened and never written; with no source the output file is left untouched |
| `MergerEngine.Merger.ExecuteAsWritten` | src/Segmentation/Merger.php:56-99 | as written: the same outcome, and on success the list is empty (so a second call throws) and every source is still open |
| `MergerEngine.Merger.Execute` | src/Segmentation/Merger.php:56-99 | the same outcome; a successful merge closes every source it was given and leaves the list empty, so a second call throws |

## Left out

- The timer envelope (Symfony Stopwatch) of `Query::execute` is left out; it never alters the result rows.
- Reading and writing CSV or XML bytes is left out; a source is its sequence of decoded rows. `stream_get_contents` on a stream sink is modelled as the rows written to it.
- `src/Helpers/DataSource.php` (the source factory) and `src/Helpers/System/CSVOutput.php` are not part of this model.
- The Statistics engine is not part of this model.
- The `Validation` helpers are not part of this model. Each is read as follows:
  - `openDataFile` is `Source.Open`, which refuses a source that is already open.
  - `isNormalArray($x, 1)` means a non-empty list; `isNormalArray($x, 2)` means a list of exactly two.
  - `validCondition` accepts the thirteen keywords of the `execute` switch.
  - `getDateTime` is the date parser.
- `DateTime::createFromFormat` is a parameter of the model (text and format to an optional instant). Calendar arithmetic is not modelled, and ON compares instants.
- QueryConditions.DateTestAsWritten: the date parser is one pure function of format and text. PHP's `createFromFormat` fills every field the format omits from the current clock, unless the format contains `!` or `|`. The query value is parsed when `value()` runs and the row value when `execute` runs, so for a format such as `Y-m-d` the two instants differ in their time of day. PHP then practically never satisfies ON, and AFTER or BEFORE can hold for a row on the same day. The AFTER, BEFORE and ON results of the model match PHP only for formats that fix every field or start with `!`. The clock is not modelled.
- QueryEngine.Query.SetValue: `Validation::getDateTime` is assumed to parse exactly as `createFromFormat` does with the same format; its body is not part of this model.
- Text.ToNumber: the `(float)` cast is modelled on integer literals only; fractions, exponents and floating point are not modelled.
- Text.IsNumeric: `is_numeric` is modelled on integer literals only; decimals, exponents and leading whitespace are not modelled. So `value("3.5")` is stored as a string and compared in `strcmp` order, where PHP casts it and compares numerically; and the intended `Equality` rejects a decimal row value such as "3.5" against a number, where PHP would compare it.
- QueryConditions.ContainsTest: a numeric needle is searched as the character whose code is the number modulo 256, whereas PHP 7 `strpos` searches for that byte. The two differ on multi-byte UTF-8 text: the byte 0xA9 occurs inside "café", the character U+00A9 does not.
- DataSource.Source.NextRow: `getNextDataRow()` is read by Query as one row per call with `[]` at the end, and by Merger as a generator of (row number, row). The model gives both engines the same row-at-a-time reader, which yields no row at the end; Merger's `$rowNumber` is the 0-based position of the row.
- QueryEngine.IntegerKey: a 64-bit PHP integer range is assumed for the keys PHP turns into integers.
- Text.SplitOn: `str_getcsv` quoting and escaping are not modelled.
- Text.ToUpper: `strtoupper` is modelled in the C locale, on characters rather than bytes.
- QueryConditions.DateTestAsWritten: a date condition whose stored value is a string, a number or a list (possible when `value()` was given no date format) gives the error `Incomparable`. PHP 7 would compare the row's date, or `false`, with that value; those comparisons are not modelled.
- QueryEngine.Query.SetValue: a value that is neither a string nor a list (an integer, a boolean) is not modelled.
- Query: the fluent `return $this` is not modelled.
- Merger: whether rows of an output file reach disk is not modelled; the output file is opened and never written (`Run` states this).
- Concurrency is not modelled; both engines are single-threaded.

## Findings

| source | as written | input that shows it | evidently intended | confidence | as-written member | corrected member |
|---|---|---|---|---|---|---|
| src/Segmentation/Query.php:294 | `false === ($rowValue = (float) $rowValue)` never holds, because the cast always yields a number | numeric query value 0 against row value "abc": "abc" casts to 0 and EQUALS holds | a row value that is not numeric matches no numeric comparison | high, not executed | `QueryEngine.PassKeepsNonNumericAsWritten` | `QueryConditions.Equality` |
| src/Segmentation/Query.php:338-352 | a row value that does not parse becomes `false`, which compares below every date | BEFORE any date, or NOT_BETWEEN any range, against the row value "not a date" | a row value that is not a date matches no date condition | high, not executed | `QueryEngine.PassKeepsUnparsableDateAsWritten` | `QueryConditions.DateTestOf` |
| src/Segmentation/Merger.php:95-97 | the closing loop walks `$this->_sources` after the `do … while` has shifted every source off it | any successful merge of one or more sources: no source is closed | every source given to the merge is closed | high, not executed | `MergerEngine.Merger.ExecuteAsWritten` | `MergerEngine.Merger.Execute` |
