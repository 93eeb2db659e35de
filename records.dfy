/**
 * The data the loader works on: the records the CSV parser hands over, the
 * engagement counts read from them, and the nodes given to the renderer.
 */
module Records {
  import opened Wrappers
  import opened JsNumber

  /** One parsed record: column name to cell text. A column the record lacks reads as `undefined`. */
  type Row = map<string, string>

  /** `row.key`: the cell, or `undefined` when the record has no such column. */
  function Field(row: Row, key: string): Option<string> {
    if key in row then Some(row[key]) else None
  }

  /** The text a JavaScript parser sees for a cell: `String(undefined)` is "undefined". */
  function JsText(v: Option<string>): string {
    v.GetOr("undefined")
  }

  /** JavaScript truthiness of a cell: defined and not the empty string. */
  predicate Truthy(v: Option<string>) {
    v.Some? && v.value != ""
  }

  /** `parseInt` of a cell; an undefined cell is `NaN` (see CellsReadUndefinedAsText). */
  function IntCell(v: Option<string>): Option<int> {
    match v
    case None => None
    case Some(s) => ParseInt(s)
  }

  /** `parseFloat` of a cell; an undefined cell is `NaN` (see CellsReadUndefinedAsText). */
  function FloatCell(v: Option<string>): Option<Num> {
    match v
    case None => None
    case Some(s) => ParseFloat(s)
  }

  /** The two cell readers are the JavaScript parsers applied to `String(cell)`. */
  lemma CellsReadUndefinedAsText(v: Option<string>)
    ensures IntCell(v) == ParseInt(JsText(v))
    ensures FloatCell(v) == ParseFloat(JsText(v))
  {
    if v.None? {
      UndefinedIsNaN();
    }
  }

  /** `parseInt(row.key) || 0`: the integer the cell starts with, 0 when there is none. */
  function CountOrZero(row: Row, key: string): int {
    IntCell(Field(row, key)).GetOr(0)
  }

  /** The four counts of a record: a cell rendering `n` reads as `n`, a signed one as `-n`, and a missing or empty cell as 0. */
  lemma CountOrZeroCases(row: Row, key: string, n: nat)
    ensures Field(row, key) == Some(Decimal(n)) ==> CountOrZero(row, key) == n
    ensures Field(row, key) == Some("-" + Decimal(n)) ==> CountOrZero(row, key) == -(n as int)
    ensures Field(row, key) == None ==> CountOrZero(row, key) == 0
    ensures Field(row, key) == Some("") ==> CountOrZero(row, key) == 0
  {
    match Field(row, key)
    case None =>
    case Some(v) =>
      if v == Decimal(n) {
        ParseIntDecimal(n);
        assert v[0] != '-';
      } else if v == "-" + Decimal(n) {
        ParseIntNegative(n);
      } else if v == "" {
        EmptyIsNaN();
      }
  }

  datatype Metrics = Metrics(retweets: int, replies: int, likes: int, quotes: int)

  /** The `metrics` of a node built from `row`. */
  function MetricsOf(row: Row): Metrics {
    Metrics(
      CountOrZero(row, "retweet_count"),
      CountOrZero(row, "reply_count"),
      CountOrZero(row, "like_count"),
      CountOrZero(row, "quote_count"))
  }

  /** Total engagement of a node, summed as the colour and size mappers sum it. */
  function TotalEngagement(m: Metrics): int {
    m.likes + m.retweets + m.replies + m.quotes
  }

  /** Engagement of a record, summed as the maximum-engagement pass sums it. */
  function RowEngagement(row: Row): int {
    CountOrZero(row, "retweet_count") + CountOrZero(row, "reply_count") +
    CountOrZero(row, "like_count") + CountOrZero(row, "quote_count")
  }

  /** The two sums agree: a node's engagement is the engagement of its record. */
  lemma NodeEngagementIsRowEngagement(row: Row)
    ensures TotalEngagement(MetricsOf(row)) == RowEngagement(row)
  {
  }

  /** A point handed to the renderer. */
  datatype Node = Node(
    id: string,
    x: Num,
    y: Num,
    body: string,
    author: Option<string>,
    metrics: Metrics,
    maxEngagement: int)
}
