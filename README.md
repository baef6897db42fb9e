# Verified model of `extractJsonObjects`

`extractJsonObjects` (utils.js) pulls complete JSON-object substrings out of
a text buffer, for example the partial or concatenated output of a streaming
model. It searches for the next `{` from a cursor, then scans forward while
keeping a brace depth and an "inside a string" flag. Braces inside
double-quoted strings do not count, and a backslash inside a string makes the
next character literal. When the depth returns to 0, it appends the slice from
the `{` through the closing `}` to the results and resumes the search after
that `}`. If the text ends while the candidate is still open, that truncated
candidate is dropped and the extraction stops.

The model has four modules:

- `BraceScan` (BraceScan.dfy) is the character-level state machine.
  - `Step` reads one character. The modes are outside a string, inside a
    string, and inside a string just after a backslash.
  - `Run` is the state after a whole string.
  - `ObjectAt` and `IsObject` define a complete, minimal object: it opens with
    `{`, ends at depth 0 outside any string, and every proper prefix is still
    open.
  - `ScanFrom` and `Close` are the inner loop as a function.
- `Extractor` (Extractor.dfy) holds the rest of the extractor.
  - `IndexOf` models `String.prototype.indexOf` with a start index.
  - `SpansFrom`, `Spans` and `Extract` are the functional specification of
    the outer loop. `Span` is a `(start, end)` region with an exclusive end.
  - `ExtractJsonObjects` is the imperative method proved against
    `Extract`. It has a `while` outer loop over the cursor `i` and a `while`
    inner loop over `j` that updates `depth`, `inString` and `escaped`.
- `ExtractorProperties` (ExtractorProperties.dfy) holds what the extractor
  promises. `Tiles` is a declarative description of the output, and the
  output is proved to be exactly the unique tiling. The module also proves
  the shape of the results, their order and that they do not overlap,
  the dropped truncated tail, idempotence, concatenation, streaming
  monotonicity, quote and escape transparency, and worked examples.
- `AsWritten` (AsWritten.dfy) models the function as the source spells it,
  for the findings below.

Where the code as written and its evident intent disagree, the model follows
the intent. The "## Findings" table records each such disagreement. Each one
is also modelled as written and exhibited on a concrete input. These are the
decisions:

- `char` at utils.js:16 is read as `text[j]`.
- The string and escape handling that utils.js:15 only names is filled in.
  An unescaped `"` toggles the string flag. Inside a string, `\` makes the
  next character literal. Braces inside a string are ignored. Outside a
  string, `\` is an ordinary character.
- After a push, the cursor moves to `j + 1`.
- A candidate that is still open at the end of the text stops the
  extraction, which returns the results so far. The other policy would skip
  the truncated candidate and search again after its `{`. It was not chosen,
  because then a result could appear that a longer text would not produce.
  That would break `StreamingPrefix`: a result, once extracted from a
  growing buffer, is never taken back.

## Model

| member | source | states |
|---|---|---|
| BraceScan.ScanFrom | utils.js:14-25 | the inner scan from index `j` reports either nothing or the index of a `}` at or after `j` inside the text |
| BraceScan.ScanFromSound | utils.js:10-25 | started at any still-open point of a candidate opened at a `{`, the scan's answer `j` makes `text[s..j+1]` a complete minimal object; "none" means the candidate stays open (depth at least 1) up to the end of the text |
| BraceScan.ObjectEndUnique | utils.js:17-22 | a candidate opened at a given `{` closes at only one place: two object ends for the same start are equal |
| BraceScan.CloseSpec | utils.js:10-25 | both directions: `Close` returns `j` exactly when `text[s..j+1]` is a complete object (depth back to 0 outside any string, every proper prefix still open), and returns nothing exactly when no end makes one |
| Extractor.IndexOf | utils.js:7 | `indexOf('{', i)` returns -1 or an index at or after `i` that holds `{` |
| Extractor.IndexOfSpec | utils.js:7-8 | the index found is the first `{` at or after `i`, and -1 is returned exactly when there is none |
| Extractor.SpansFrom | utils.js:6-27 | every region emitted from cursor `i` lies inside the text, starts at or after `i` and is non-empty |
| Extractor.ExtractJsonObjects | utils.js:2-28 | the loop-based extractor (outer `{` search, inner depth/string/escape scan, push and cursor advance, stop on a truncated tail) returns exactly `Extract(text)`; it terminates with `|text| - i` decreasing |
| ExtractorProperties.ObjectSlice | utils.js:21 | a region of the text is a complete object exactly when the sliced-out substring is a complete object on its own |
| ExtractorProperties.ObjectShape | utils.js:16-21 | a complete object has at least two characters, starts with `{` and ends with `}` |
| ExtractorProperties.StopsIffNoSpans | utils.js:6-27 | both directions: the extractor emits nothing from cursor `i` exactly when the cursor is at the end, no `{` is left, or the first `{` left opens a candidate that no end of the text closes |
| ExtractorProperties.FirstSpan | utils.js:7-22 | the first region emitted from cursor `i` starts at the first `{` at or after `i`, is a complete object, and the remaining regions are those emitted from its end |
| ExtractorProperties.FirstRegion | utils.js:7-22 | conversely, a complete object opened at the first `{` at or after `i` is the first region emitted, and the search resumes after its `}` |
| ExtractorProperties.SpansFromTiles | utils.js:6-27 | the extractor's regions satisfy the declarative tiling: each starts at the first `{` after the previous one (or the cursor), is a complete object, and the next search resumes at its end; the extraction ends only where the stop condition holds |
| ExtractorProperties.TilesUnique | utils.js:6-27 | any sequence of regions satisfying the tiling is the extractor's output |
| ExtractorProperties.SpansExactlyTile | utils.js:6-27 | both directions: a sequence of regions is the output exactly when it tiles the text |
| ExtractorProperties.TilesFacts | utils.js:6-27 | in a tiling, every region is a complete object at or after the cursor; regions come in order without overlapping; no `{` lies in the gaps before or between them; the extraction stops after the last one |
| ExtractorProperties.ResultsAreObjects | utils.js:10-21 | every result is the contiguous input slice between a `{` and its closing `}`, starts with `{`, ends with `}`, and is balanced and minimal (depth at least 1 on every proper prefix, exactly 0 outside any string at the end), so nested objects are absorbed |
| ExtractorProperties.ResultsInOrder | utils.js:6-22 | results appear in the order of their opening braces and do not overlap; no `{` outside the results is passed over before the first one or between two of them |
| ExtractorProperties.TruncatedTailDropped | utils.js:14-27 | after the last result, the cursor is at the end, or no `{` is left, or the next `{` opens a candidate that no end of the text closes; such a candidate is not emitted |
| ExtractorProperties.NoBraceNoResults | utils.js:7-8 | a text without `{` yields no results |
| ExtractorProperties.ObjectExtractsToItself | utils.js:19-21 | a complete object extracted on its own yields exactly itself |
| ExtractorProperties.ExtractIdempotent | utils.js:19-21 | re-extracting any returned result yields exactly that one result |
| ExtractorProperties.TilesShift | utils.js:7 | text before the cursor does not affect the search: a tiling of `t` from `i`, shifted, is a tiling of `p + t` from `|p| + i` |
| ExtractorProperties.ObjectThenTextSpans | utils.js:21-22 | the regions of an object followed by a text are the object's region, then the text's regions shifted past it |
| ExtractorProperties.ObjectThenText | utils.js:21-22 | an object followed by any text gives that object, then exactly the results of the text, so adjacent objects with no separator are emitted separately |
| ExtractorProperties.CloseExtend | utils.js:14-25 | a candidate that closes in a text closes at the same `}` when more text is appended |
| ExtractorProperties.SpansFromExtend | utils.js:6-27 | the regions found in a text are a prefix of the regions found in any extension of it |
| ExtractorProperties.StreamingPrefix | utils.js:14-27 | the results for a text are a prefix of the results for any extension of it: appending text never retracts or alters a result |
| ExtractorProperties.StringBodyTransparent | utils.js:12-16 | inside a string, a string body leaves the scan state unchanged: braces in it do not move the depth, an escaped `"` does not end the string, and `\\` leaves no pending escape |
| ExtractorProperties.StringLiteralTransparent | utils.js:12-16 | a whole quoted string, read outside any string, leaves depth and mode as they were |
| ExtractorProperties.ExampleEmptyObject | utils.js:2-28 | `{}` yields `["{}"]` |
| ExtractorProperties.ExampleNested | utils.js:10-22 | `{"a": {"b": 1}}` yields one result, the whole text; the nested object is not emitted separately |
| ExtractorProperties.ExampleAdjacent | utils.js:21-22 | `{"a":1}{"b":2}` yields the two objects in order |
| ExtractorProperties.ExampleQuotedBrace | utils.js:12-19 | `{"a": "x}y"}` yields one result, the whole text; the quoted `}` does not close it |
| ExtractorProperties.ExampleTruncated | utils.js:14-27 | `prefix {"a": 1` yields no results |
| AsWritten.UndefinedCharThrows | utils.js:16 | as written, a call throws exactly when the text holds a `{`; otherwise it returns `[]`, as the corrected extractor does |
| AsWritten.UndefinedCharCounterexample | utils.js:16 | as written, `{}` throws a ReferenceError, while the corrected extractor returns `["{}"]` |
| AsWritten.BraceOnlyScanFrom | utils.js:14-25 | the inner loop as written, counting every brace: it reports either nothing or the index of a `}` in the text |
| AsWritten.BraceOnlyAgreesWithoutQuotes | utils.js:14-25 | on a text with no `"` from index `j` on, the as-written brace-only scan returns exactly what the corrected scan returns from depth `depth` outside any string, so the two differ only when a quote is involved |
| AsWritten.QuotedBraceClosesEarly | utils.js:15-19 | with no string handling, `{"a": "x}y"}` closes at index 8, inside the string; the corrected scan closes at index 11 and returns the whole text |
| AsWritten.CursorNeverAdvances | utils.js:6-26 | as written, with `char` read as `text[j]`, once the text holds a `{` the cursor stays 0 and the outer loop never exits |
| AsWritten.RepeatsForever | utils.js:6-26 | as written, on `{}` each round of the outer loop pushes `{}` again, so after `n` rounds there are `n` copies; the corrected extractor returns it once |

## Left out

- mcp-server/server.js is not part of this model. It holds the HTTP server, CORS, the JSON-RPC dispatcher, and the web-search, weather and time tools. That code is network and foreign-call glue with no algorithm to verify.
- JSON parsing and validation of the extracted substrings are left out. The extractor only finds boundaries, and the decoder that consumes them is not in the repository.
- Text is an abstract `seq<char>`. UTF-16 code units, surrogate pairs and the JavaScript string representation are not modelled.
- JavaScript numbers are modelled as unbounded integers. The depth and indices never come near 2^53 for texts that fit in memory.
- The "skip the truncated candidate and keep searching" policy is not modelled. The model stops at a truncated candidate, as described above.

## Findings

| source | as written | input that shows it | evidently intended | confidence | as-written member | corrected member |
|---|---|---|---|---|---|---|
| utils.js:16 | `char` is never declared, so the first test inside the inner loop throws a ReferenceError | `{}` (any text containing `{`) | `char` is `text[j]` | high; not executed | AsWritten.UndefinedCharCounterexample | Extractor.ExtractJsonObjects |
| utils.js:6-26 | nothing updates `i` inside the outer `while`, so after the first `{` the same candidate is scanned (and, if closed, pushed) forever; a truncated candidate also spins | `{}` (with `char` read as `text[j]`) | `i = j + 1` after the push; stop on a truncated candidate | high; not executed | AsWritten.RepeatsForever | Extractor.ExtractJsonObjects |
| utils.js:15 | the string and escape handling is only a comment, so every `{`/`}` counts, including those inside string literals | `{"a": "x}y"}` closes at index 8 | braces inside a double-quoted string are ignored; `\` escapes the next character in a string | medium (the comment marks elided code); not executed | AsWritten.QuotedBraceClosesEarly | BraceScan.CloseSpec |
