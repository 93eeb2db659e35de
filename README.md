# Tweet-embedding graph loader: ingestion model

This project models what the graph loader of the tweet-embedding viewer does once the CSV
parser has handed over its records. The CSV is semicolon-separated, has a header row, and
empty lines are skipped. Each record is a map from column name to cell text. The loader then:

1. makes one pass over **all** records. It keeps the running maximum of each record's
   engagement, where engagement is `retweet_count + reply_count + like_count + quote_count`
   and each count is read as `parseInt(cell) || 0`.
2. filters the records. A record is kept when it has a non-empty `body`, non-empty
   `embedding_x` and `embedding_y`, and both coordinates parse with `parseFloat`. A local
   statistics record counts kept and dropped records. For each dropped record it also counts
   every reason that applies (no body, no coordinates, x not a number, y not a number). The
   four reason checks are independent of each other.
3. maps the kept records to nodes. Each node gets the id `tweet-<index>`, the parsed
   coordinates, the body and author, the four counts, and the shared largest engagement.
4. counts the distinct authors among the nodes.
5. colours each node by its total engagement. Five buckets are explained by the colour
   legend. A node with zero engagement also gets the smallest size.

## Layout

- `js_number.dfy`: module `Wrappers` (`Option`) and module `JsNumber`.
  - `JsNumber` gives executable models of ECMAScript `parseInt` and `parseFloat`. Both
    skip leading white space and read one optional sign. Then:
    - `ParseInt` reads an optional `0x` prefix and the longest run of digits in base 16 or
      10;
    - `ParseFloat` reads `Infinity`, or the longest decimal literal: digits, an optional point
      and fraction, and an optional exponent (`ParseDecimal`, `ExponentOf`).
  - Nothing to read means `NaN`, written `None`.
  - It also models the template literal `${n}` for a natural number (`Decimal`).
  - It proves the round trips that the rest of the model needs.
- `sequences.dfy`: `Count`, `Filter`, `FilterIndices` and `RunningMax` over any predicate or
  function, with their lemmas.
- `records.dfy`: records as `map<string, string>`.
  - A missing column reads as `undefined`, written `None`.
  - Also here: the `parseInt(cell) || 0` count reader (`CountOrZero`, lines 196-199 and
    231-234), the node metrics (`MetricsOf`), and the two engagement sums (`TotalEngagement`
    for lines 135-139, `RowEngagement` for 195-200).
- `appearance.dfy`: `getNodeColor` (`EngagementColor`, lines 134-146), the colour legend it
  has to agree with (`Legend`, 73-79), and the zero-engagement branch of `getNodeSize`
  (`NodeSize`, 148-161).
- `ingestion.dfy`: the parse callback.
  - `IsValid` is the filter's test (lines 206-210). `LacksBody`, `LacksCoordinates`, `BadX`
    and `BadY` are the four reason tests (213-216). `Record` is what one filter call does to
    the statistics (212-220), and `Tally` folds it over the records.
  - `MakeNode` is the node one kept record becomes (224-237).
  - `MaxEngagement` is a loop over all records.
  - `FilterRows` is a loop that calls `Judge` for each record. `Judge` updates the statistics
    record the way the filter callback does.
  - `BuildNodes` builds the nodes, `AuthorSet` collects the authors, and `Complete` runs the
    whole callback.
  - Each of these is proved against a specification function (`MaxEngagementOf`, `Kept`,
    `IngestionStats`, `Ingest`).
- `examples.dfy`: loads of one, two and three records, worked through end to end.

## Behaviour worth knowing

- **Node ids are dense.** The `.map` at src/GraphLoader.jsx:224 runs after the `.filter` at
  205, so the index in `tweet-<index>` is the position among the *kept* records, not among
  all parsed records (`IngestNodes`, `IdsAreDenseAfterFiltering`).
- **Counts can be negative.** `parseInt("-1")` at lines 196-199 and 231-234 is `-1`, so
  metrics and engagement are not always non-negative. A node can have a non-zero engagement
  while the largest engagement is 0, and line 161 then divides by `ln(1) = 0`
  (`NegativeCountReachesZeroDenominator`). Line 142 gives a negative engagement the colour
  that the legend at line 75 labels "1-9 interactions", although no legend range covers it
  (`NegativeEngagementColor`).
- **Valid means "parses", not "finite".** The `isNaN(parseFloat(...))` tests at lines 209-210
  let `Infinity` through, so infinite coordinates are kept (`InfinityIsKept`).
- **An undefined author is counted.** `new Set(...)` at line 239 takes `node.author` as it is,
  so `undefined` counts as one more distinct author (`AuthorSet`).

## Model

| member | source | states |
|---|---|---|
| Ingestion.MaxEngagement | src/GraphLoader.jsx:193-202 | the loop's result is at least 0, at least the engagement of every record (kept or dropped), and is 0 or the engagement of some record |
| Ingestion.MaxEngagementBounds | src/GraphLoader.jsx:193-202 | the same three bounds, proved for the running-maximum fold over all records |
| Sequences.RunningMaxBounds | src/GraphLoader.jsx:193-202 | a `Math.max` fold from 0 is at least 0, at least every element's value, and 0 or one of those values |
| Ingestion.Judge | src/GraphLoader.jsx:205-222 | one filter call: the verdict is the validity predicate, and the statistics move as `Record` says (the valid count, or the invalid count plus every applicable reason) |
| Ingestion.FilterRows | src/GraphLoader.jsx:181-223 | the filter loop keeps exactly `Kept(rows)`; its statistics are `IngestionStats(rows)`; valid + invalid == total == number of records; valid == number kept; the reasons are consistent |
| Ingestion.TallyCounts | src/GraphLoader.jsx:212-220 | folding `Record` adds, to each counter, the number of records that are valid or that have that defect |
| Ingestion.StatsCounts | src/GraphLoader.jsx:181-222 | totalRows is the number of records; validRows + invalidRows == totalRows; validRows is the number kept; each reason counter is the number of records with that defect |
| Ingestion.RecordKeepsConsistent | src/GraphLoader.jsx:212-220 | one filter step adds exactly one to valid + invalid and keeps every reason counter at most the invalid count and their sum at least it |
| Ingestion.StatsReasonsConsistent | src/GraphLoader.jsx:212-217 | invalidRows is the number of records that fail the filter; each reason total is at most invalidRows, and their sum is at least it |
| Ingestion.ReasonsPerRecord | src/GraphLoader.jsx:206-219 | every record the filter drops has at least one of the four reasons, and every record it keeps has none of them |
| Ingestion.RejectedIffSomeReason | src/GraphLoader.jsx:206-216 | a record is dropped exactly when at least one of the four reasons applies to it |
| Ingestion.MissingXCountsTwice | src/GraphLoader.jsx:213-216 | a record without `embedding_x` is dropped and counted both as having no coordinates and as having an invalid x |
| Ingestion.InfinityIsKept | src/GraphLoader.jsx:206-210 | coordinates `Infinity` and `-Infinity` pass the `isNaN(parseFloat(...))` test, so the record is kept |
| Ingestion.KeptIffValid | src/GraphLoader.jsx:204-223 | the kept records are the valid ones, in input order: the j-th kept record is the record at an increasing position, and a position is kept exactly when its record is valid |
| Sequences.FilterIndicesComplete | src/GraphLoader.jsx:204-223 | a position is among the kept positions exactly when its element passes the filter |
| Ingestion.TweetIdInjective | src/GraphLoader.jsx:225 | different node positions give different `tweet-<index>` ids |
| Ingestion.BuildNodes | src/GraphLoader.jsx:224-237 | one node per kept record, in order; node j is built from kept record j with id `tweet-j`; ids pairwise distinct; every node carries the same largest engagement |
| Ingestion.IngestNodes | src/GraphLoader.jsx:224-237 | node j of a load comes from the record at the j-th kept position: id `tweet-j`; body (non-empty) and author copied; metrics read with `parseInt(...) \|\| 0`; coordinates what `parseFloat` reads; largest engagement of the whole input; node count == validRows |
| Ingestion.IngestIdsDistinct | src/GraphLoader.jsx:224-225 | the ids of one load are pairwise distinct |
| Ingestion.IngestMaxEngagement | src/GraphLoader.jsx:193-202 | every node carries the same largest engagement, which is at least 0 and at least that node's own total engagement |
| Ingestion.IngestSizes | src/GraphLoader.jsx:148-161 | a loaded node gets the smallest size exactly when its engagement is 0; for a positive engagement e, 1 <= e <= maxEngagement, so the log ratio has a positive denominator |
| Ingestion.AuthorSetSize | src/GraphLoader.jsx:239 | there are never more distinct authors than nodes, and there is at least one as soon as there is a node |
| Ingestion.IngestUniqueAuthors | src/GraphLoader.jsx:239 | uniqueAuthors is the number of distinct author values among the kept records; it is at most the node count, and at least 1 when there are nodes |
| Ingestion.Complete | src/GraphLoader.jsx:180-243 | the whole callback equals `Ingest(rows)`: total == number of records, valid + invalid == total, node count == validRows, uniqueAuthors <= node count |
| Appearance.ColorAgreesWithLegend | src/GraphLoader.jsx:134-146 | for e >= 0 some legend entry covers e, and a legend entry covers e exactly when its colour is the colour `getNodeColor` picks (the legend is at lines 73-79) |
| Appearance.NegativeEngagementColor | src/GraphLoader.jsx:141-142 | a negative engagement is drawn `#88CCF1` and lies outside every legend range |
| Appearance.ColorRankMonotone | src/GraphLoader.jsx:141-145 | for 0 <= e1 <= e2 the bucket of e2 is never earlier in the legend than the bucket of e1, and both buckets are legend colours |
| Appearance.NodeColorByEngagement | src/GraphLoader.jsx:134-139 | two nodes with the same total engagement get the same colour |
| Appearance.NodeSize | src/GraphLoader.jsx:148-161 | the size is the minimum exactly when the total engagement is 0; otherwise it is the log-scaled size of that engagement against the node's largest engagement |
| Records.CountOrZeroCases | src/GraphLoader.jsx:195-199 | `parseInt(cell) \|\| 0` reads a decimal cell as its number, a signed one as its negation, and a missing or empty cell as 0 |
| Records.CellsReadUndefinedAsText | src/GraphLoader.jsx:209-210 | parsing a missing cell is parsing the text "undefined", which is `NaN` for both parsers |
| Records.NodeEngagementIsRowEngagement | src/GraphLoader.jsx:135-139 | the colour mapper's sum over node metrics equals the maximum pass's sum over the record (lines 195-200) |
| JsNumber.ParseIntDecimal | src/GraphLoader.jsx:196 | `parseInt` of the decimal text of n is n |
| JsNumber.ParseIntNegative | src/GraphLoader.jsx:196 | `parseInt` of "-" followed by the decimal text of n is -n |
| JsNumber.ParseFloatDecimal | src/GraphLoader.jsx:226 | `parseFloat` of the decimal text of n is the finite number n |
| JsNumber.ParseFloatInfinity | src/GraphLoader.jsx:209 | text starting with `Infinity`, with or without a leading "-", parses as the signed infinity |
| JsNumber.NotANumber | src/GraphLoader.jsx:209-210 | text that is empty, or whose first character is not white space, a digit, a sign, a point or `I`, is `NaN` to both parsers |
| JsNumber.DecimalInjective | src/GraphLoader.jsx:225 | different numbers have different decimal texts |
| JsNumber.DigitRunIsLongest | src/GraphLoader.jsx:196 | the digit run the parsers read is made of digits and is not followed by another digit |
| Scenarios.SingleValidRecord | src/GraphLoader.jsx:180-239 | a load of one usable record gives the statistics (1, 1, 0, no reasons), the single node built at index 0, and one author |
| Scenarios.DroppedThenKept | src/GraphLoader.jsx:204-225 | a record without a body followed by a usable one gives a single node with id `tweet-0`, not `tweet-1`, and one dropped record counted under "no body" only |
| Scenarios.OneTweet | src/GraphLoader.jsx:180-239 | the record ("hello", 1, 2, counts 5, 0, 3, 0) gives one node `tweet-0` with those metrics, engagement 8, largest engagement 8, colour `#88CCF1`, and one author |
| Scenarios.IdsAreDenseAfterFiltering | src/GraphLoader.jsx:204-225 | with an empty-body record first, the kept record's node is `tweet-0` and carries the kept record's body |
| Scenarios.LargestOfThree | src/GraphLoader.jsx:193-202 | engagements 0, 8 and 300 give a largest engagement of 300, counting records whose coordinates are empty |
| Scenarios.NegativeCountReachesZeroDenominator | src/GraphLoader.jsx:155-161 | a single record whose like count is "-1" gives a node with likes -1 and the log-scaled size of engagement -1 against a largest engagement of 0 |

## Left out

- Fetching the CSV and checking the HTTP status (src/GraphLoader.jsx:169-174): network I/O.
  The model starts from the records.
- Tokenising the CSV (src/GraphLoader.jsx:176-179) and the parser's error callback
  (246-250): this is the CSV library's job. The model takes its output, a sequence of
  `map<string, string>`, as given.
- The React state setters, the loading and error screens, the tweet pop-up, the legend
  component, the statistics panel and the layout (src/GraphLoader.jsx:5-111, 240-244,
  298-407): UI. Only the legend's five entries (73-79) are modelled, as the table that
  `getNodeColor` has to agree with.
- Rendering and search (src/GraphLoader.jsx:262-296, 383-398): an external graph library. The
  `onSearch` handler only chooses which nodes to display; it is not modelled.
- src/App.js: a provider wrapper with no logic.
- Appearance.NodeSize: keeps the log-scaled size as its two integer arguments
  (`LogScaled(e, maxEngagement)`). `Math.log` and floating-point division are not modelled,
  so the value 0.002 + ln(e + 1) / ln(max + 1) * 0.998 is not computed.
- JsNumber.ParseFloat: the value is the exact decimal the text denotes. Rounding to a
  double is not modelled, and neither is overflow to `Infinity` for very large exponents. A
  coordinate is valid when its text parses, which is unaffected by either.
- JsNumber.ParseInt: the result is an unbounded integer. In the source, counts and
  engagement sums are doubles. Precision loss above 2^53 is not modelled. Neither is
  overflow: a count cell of 309 or more digits reads as `Infinity`. Infinities of both signs
  in one record then give an engagement of `NaN`, and `Math.max` keeps `maxEngagement` at
  `NaN` for the rest of the pass (src/GraphLoader.jsx:195-201).
- White space: `IsWhiteSpace` lists the ECMAScript white-space and line-terminator code
  points one by one, with the Zs category written out as the code points Unicode assigns to it.
