/**
 * What the loader does once the CSV parser has finished: one pass for the
 * largest engagement, a filter that keeps the usable records and tallies why
 * the others were dropped, the nodes built from the kept records, and the
 * number of distinct authors among them.
 */
module Ingestion {
  import opened Wrappers
  import opened JsNumber
  import opened Records
  import opened Appearance
  import opened Sequences

  // ---------------------------------------------------------------------------
  // Which records are usable

  predicate LacksBody(row: Row) {
    !Truthy(Field(row, "body"))
  }

  predicate LacksCoordinates(row: Row) {
    !Truthy(Field(row, "embedding_x")) || !Truthy(Field(row, "embedding_y"))
  }

  /** `isNaN(parseFloat(row.embedding_x))`. */
  predicate BadX(row: Row) {
    FloatCell(Field(row, "embedding_x")).None?
  }

  /** `isNaN(parseFloat(row.embedding_y))`. */
  predicate BadY(row: Row) {
    FloatCell(Field(row, "embedding_y")).None?
  }

  /** A record becomes a node when it has a body and two coordinates that both parse. */
  predicate IsValid(row: Row) {
    Truthy(Field(row, "body")) &&
    Truthy(Field(row, "embedding_x")) &&
    Truthy(Field(row, "embedding_y")) &&
    FloatCell(Field(row, "embedding_x")).Some? &&
    FloatCell(Field(row, "embedding_y")).Some?
  }

  /** A record is dropped exactly when at least one of the four reasons applies to it. */
  lemma RejectedIffSomeReason(row: Row)
    ensures !IsValid(row) <==> LacksBody(row) || LacksCoordinates(row) || BadX(row) || BadY(row)
  {
  }

  /** A record without `embedding_x` is counted under two reasons: no coordinates, and an x that is `NaN`. */
  lemma MissingXCountsTwice(row: Row)
    requires "embedding_x" !in row
    ensures !IsValid(row) && LacksCoordinates(row) && BadX(row)
  {
  }

  /** A coordinate of `Infinity` parses, so such a record is kept. */
  lemma InfinityIsKept(row: Row)
    requires Truthy(Field(row, "body"))
    requires Field(row, "embedding_x") == Some("Infinity")
    requires Field(row, "embedding_y") == Some("-Infinity")
    ensures IsValid(row)
  {
    ParseFloatInfinity("Infinity");
  }

  // ---------------------------------------------------------------------------
  // The statistics record

  datatype Reasons = Reasons(noBody: nat, noCoordinates: nat, invalidX: nat, invalidY: nat)

  datatype Stats = Stats(totalRows: nat, validRows: nat, invalidRows: nat, reasons: Reasons)

  function InitialStats(total: nat): Stats {
    Stats(total, 0, 0, Reasons(0, 0, 0, 0))
  }

  /** What the filter callback does to the statistics for one record. */
  function Record(s: Stats, row: Row): Stats {
    if IsValid(row) then s.(validRows := s.validRows + 1)
    else s.(
      invalidRows := s.invalidRows + 1,
      reasons := Reasons(
        s.reasons.noBody + Bump(LacksBody(row)),
        s.reasons.noCoordinates + Bump(LacksCoordinates(row)),
        s.reasons.invalidX + Bump(BadX(row)),
        s.reasons.invalidY + Bump(BadY(row))))
  }

  /** The statistics after the filter has seen `rows`, in order, starting from `s`. */
  function Tally(s: Stats, rows: seq<Row>): Stats {
    if |rows| == 0 then s else Record(Tally(s, rows[..|rows| - 1]), rows[|rows| - 1])
  }

  /** The statistics the loader reports for a parse that produced `rows`. */
  function IngestionStats(rows: seq<Row>): Stats {
    Tally(InitialStats(|rows|), rows)
  }

  /**
   * The reason totals of a statistics record fit its count of dropped records:
   * no reason total exceeds it, and together they reach at least it.
   */
  predicate ReasonsConsistent(s: Stats) {
    s.reasons.noBody <= s.invalidRows &&
    s.reasons.noCoordinates <= s.invalidRows &&
    s.reasons.invalidX <= s.invalidRows &&
    s.reasons.invalidY <= s.invalidRows &&
    s.invalidRows <= s.reasons.noBody + s.reasons.noCoordinates + s.reasons.invalidX + s.reasons.invalidY
  }

  /** One record keeps the reasons consistent, and the counters move as the filter moves them. */
  lemma RecordKeepsConsistent(s: Stats, row: Row)
    requires ReasonsConsistent(s)
    ensures ReasonsConsistent(Record(s, row))
    ensures Record(s, row).totalRows == s.totalRows
    ensures Record(s, row).validRows + Record(s, row).invalidRows == s.validRows + s.invalidRows + 1
  {
    RejectedIffSomeReason(row);
  }

  lemma {:induction false} TallyKeepsConsistent(s: Stats, rows: seq<Row>)
    requires ReasonsConsistent(s)
    ensures ReasonsConsistent(Tally(s, rows))
  {
    if |rows| > 0 {
      TallyKeepsConsistent(s, rows[..|rows| - 1]);
      RecordKeepsConsistent(Tally(s, rows[..|rows| - 1]), rows[|rows| - 1]);
    }
  }

  /**
   * The reported statistics count every dropped record once, as dropped, and
   * their reason totals fit that count: no reason total exceeds it, and
   * together they reach at least it.
   */
  lemma StatsReasonsConsistent(rows: seq<Row>)
    ensures ReasonsConsistent(IngestionStats(rows))
    ensures IngestionStats(rows).invalidRows == |rows| - Count(rows, IsValid)
  {
    TallyKeepsConsistent(InitialStats(|rows|), rows);
    StatsCounts(rows);
  }

  /** Each dropped record is counted under at least one reason, and a kept record under none. */
  lemma ReasonsPerRecord(rows: seq<Row>)
    ensures forall i :: 0 <= i < |rows| && !IsValid(rows[i]) ==>
      LacksBody(rows[i]) || LacksCoordinates(rows[i]) || BadX(rows[i]) || BadY(rows[i])
    ensures forall i :: 0 <= i < |rows| && IsValid(rows[i]) ==>
      !LacksBody(rows[i]) && !LacksCoordinates(rows[i]) && !BadX(rows[i]) && !BadY(rows[i])
  {
    forall i | 0 <= i < |rows| {
      RejectedIffSomeReason(rows[i]);
    }
  }

  // ---------------------------------------------------------------------------
  // The kept records

  /** The records the filter keeps, in input order. */
  function Kept(rows: seq<Row>): seq<Row> {
    Filter(rows, IsValid)
  }

  /** Where each kept record stood in the input. */
  function KeptIndices(rows: seq<Row>): seq<nat> {
    FilterIndices(rows, IsValid)
  }

  /**
   * The filter keeps exactly the valid records: the j-th kept record is the
   * record at position KeptIndices(rows)[j], those positions increase, and a
   * position is among them exactly when its record is valid.
   */
  lemma KeptIffValid(rows: seq<Row>)
    ensures |KeptIndices(rows)| == |Kept(rows)| <= |rows|
    ensures forall j :: 0 <= j < |Kept(rows)| ==> IsValid(Kept(rows)[j])
    ensures forall j :: 0 <= j < |Kept(rows)| ==> KeptIndices(rows)[j] < |rows| && rows[KeptIndices(rows)[j]] == Kept(rows)[j]
    ensures forall j, k :: 0 <= j < k < |Kept(rows)| ==> KeptIndices(rows)[j] < KeptIndices(rows)[k]
    ensures forall i :: 0 <= i < |rows| ==> (IsValid(rows[i]) <==> i in KeptIndices(rows))
  {
    forall i | 0 <= i < |rows|
      ensures IsValid(rows[i]) <==> i in KeptIndices(rows)
    {
      FilterIndicesComplete(rows, IsValid, i);
    }
  }

  /**
   * The statistics count every record once, as kept or dropped, and each
   * reason counter is the number of records that have that defect.
   */
  lemma {:induction false} TallyCounts(s: Stats, rows: seq<Row>)
    ensures Tally(s, rows).totalRows == s.totalRows
    ensures Tally(s, rows).validRows == s.validRows + Count(rows, IsValid)
    ensures Tally(s, rows).invalidRows + Count(rows, IsValid) == s.invalidRows + |rows|
    ensures Tally(s, rows).reasons == Reasons(
      s.reasons.noBody + Count(rows, LacksBody),
      s.reasons.noCoordinates + Count(rows, LacksCoordinates),
      s.reasons.invalidX + Count(rows, BadX),
      s.reasons.invalidY + Count(rows, BadY))
  {
    if |rows| > 0 {
      TallyCounts(s, rows[..|rows| - 1]);
      RejectedIffSomeReason(rows[|rows| - 1]);
    }
  }

  /**
   * validRows + invalidRows == totalRows == the number of records, validRows
   * is the number of kept records, and each reason counter is the number of
   * records with that defect, whether or not other defects came with it.
   */
  lemma StatsCounts(rows: seq<Row>)
    ensures IngestionStats(rows).totalRows == |rows|
    ensures IngestionStats(rows).validRows + IngestionStats(rows).invalidRows == |rows|
    ensures IngestionStats(rows).validRows == |Kept(rows)|
    ensures IngestionStats(rows).reasons ==
      Reasons(Count(rows, LacksBody), Count(rows, LacksCoordinates), Count(rows, BadX), Count(rows, BadY))
  {
    TallyCounts(InitialStats(|rows|), rows);
  }

  /**
   * The filter callback for one record: judge it once; a dropped record bumps
   * every reason that applies to it and the dropped count, a kept one bumps
   * the kept count.
   */
  method Judge(stats: Stats, row: Row) returns (isValid: bool, after: Stats)
    ensures isValid == IsValid(row)
    ensures after == Record(stats, row)
  {
    var body, x, y := Field(row, "body"), Field(row, "embedding_x"), Field(row, "embedding_y");
    isValid := Truthy(body) && Truthy(x) && Truthy(y) && FloatCell(x).Some? && FloatCell(y).Some?;
    after := stats;
    if !isValid {
      var reasons := after.reasons;
      if !Truthy(body) {
        reasons := reasons.(noBody := reasons.noBody + 1);
      }
      if !Truthy(x) || !Truthy(y) {
        reasons := reasons.(noCoordinates := reasons.noCoordinates + 1);
      }
      if FloatCell(x).None? {
        reasons := reasons.(invalidX := reasons.invalidX + 1);
      }
      if FloatCell(y).None? {
        reasons := reasons.(invalidY := reasons.invalidY + 1);
      }
      after := after.(reasons := reasons, invalidRows := after.invalidRows + 1);
    } else {
      after := after.(validRows := after.validRows + 1);
    }
  }

  /** `rows.filter(...)` with its statistics, as the parse callback runs it. */
  method FilterRows(rows: seq<Row>) returns (kept: seq<Row>, stats: Stats)
    ensures kept == Kept(rows)
    ensures stats == IngestionStats(rows)
    ensures stats.validRows + stats.invalidRows == stats.totalRows == |rows|
    ensures stats.validRows == |kept|
    ensures ReasonsConsistent(stats)
  {
    stats := InitialStats(|rows|);
    kept := [];
    var i := 0;
    while i < |rows|
      invariant 0 <= i <= |rows|
      invariant kept == Kept(rows[..i])
      invariant stats == Tally(InitialStats(|rows|), rows[..i])
    {
      var row := rows[i];
      var isValid;
      isValid, stats := Judge(stats, row);
      if isValid {
        kept := kept + [row];
      }
      assert rows[..i + 1][..i] == rows[..i];
      i := i + 1;
    }
    assert rows[..|rows|] == rows;
    StatsCounts(rows);
    StatsReasonsConsistent(rows);
  }

  // ---------------------------------------------------------------------------
  // The largest engagement

  /** `maxEngagement` after the pass over `rows`: 0 to start, then `Math.max` with each record's engagement. */
  function MaxEngagementOf(rows: seq<Row>): int {
    RunningMax(rows, RowEngagement)
  }

  /**
   * The largest engagement is at least 0, at least the engagement of every
   * record (kept or dropped), and is 0 or the engagement of some record.
   */
  lemma MaxEngagementBounds(rows: seq<Row>)
    ensures MaxEngagementOf(rows) >= 0
    ensures forall i :: 0 <= i < |rows| ==> RowEngagement(rows[i]) <= MaxEngagementOf(rows)
    ensures MaxEngagementOf(rows) == 0 || exists i :: 0 <= i < |rows| && MaxEngagementOf(rows) == RowEngagement(rows[i])
  {
    RunningMaxBounds(rows, RowEngagement);
  }

  /** The pass that finds the largest engagement over all parsed records. */
  method MaxEngagement(rows: seq<Row>) returns (m: int)
    ensures m == MaxEngagementOf(rows)
    ensures m >= 0
    ensures forall i :: 0 <= i < |rows| ==> RowEngagement(rows[i]) <= m
    ensures m == 0 || exists i :: 0 <= i < |rows| && m == RowEngagement(rows[i])
  {
    m := 0;
    var i := 0;
    while i < |rows|
      invariant 0 <= i <= |rows|
      invariant m == MaxEngagementOf(rows[..i])
    {
      var row := rows[i];
      var engagement := CountOrZero(row, "retweet_count") + CountOrZero(row, "reply_count") +
        CountOrZero(row, "like_count") + CountOrZero(row, "quote_count");
      m := Max(m, engagement);
      assert rows[..i + 1][..i] == rows[..i];
      i := i + 1;
    }
    assert rows[..|rows|] == rows;
    MaxEngagementBounds(rows);
  }

  // ---------------------------------------------------------------------------
  // Nodes

  /** The id of the node at position `index` of the node list. */
  function TweetId(index: nat): string {
    "tweet-" + Decimal(index)
  }

  /** Different positions give different ids. */
  lemma TweetIdInjective(i: nat, j: nat)
    ensures TweetId(i) == TweetId(j) ==> i == j
  {
    if TweetId(i) == TweetId(j) {
      assert Decimal(i) == TweetId(i)[6..];
      assert Decimal(j) == TweetId(j)[6..];
      DecimalInjective(i, j);
    }
  }

  /** The node built from the kept record at position `index`. */
  function MakeNode(row: Row, index: nat, maxEngagement: int): Node
    requires IsValid(row)
  {
    Node(
      TweetId(index),
      FloatCell(Field(row, "embedding_x")).value,
      FloatCell(Field(row, "embedding_y")).value,
      row["body"],
      Field(row, "author"),
      MetricsOf(row),
      maxEngagement)
  }

  /**
   * One node per kept record, in order; the node at position j is built from
   * the j-th kept record, the ids are pairwise distinct and every node
   * carries the same largest engagement.
   */
  function BuildNodes(kept: seq<Row>, maxEngagement: int): (nodes: seq<Node>)
    requires forall j :: 0 <= j < |kept| ==> IsValid(kept[j])
    ensures |nodes| == |kept|
    ensures forall j :: 0 <= j < |nodes| ==> nodes[j] == MakeNode(kept[j], j, maxEngagement)
    ensures forall i, j :: 0 <= i < |nodes| && 0 <= j < |nodes| && i != j ==> nodes[i].id != nodes[j].id
    ensures forall j :: 0 <= j < |nodes| ==> nodes[j].maxEngagement == maxEngagement
  {
    var nodes := seq(|kept|, j requires 0 <= j < |kept| => MakeNode(kept[j], j, maxEngagement));
    assert forall i, j :: 0 <= i < |nodes| && 0 <= j < |nodes| && i != j ==> nodes[i].id != nodes[j].id by {
      forall i, j | 0 <= i < |nodes| && 0 <= j < |nodes| && i != j
        ensures nodes[i].id != nodes[j].id
      {
        TweetIdInjective(i, j);
      }
    }
    nodes
  }

  // ---------------------------------------------------------------------------
  // Authors

  /** `new Set(nodes.map(node => node.author))`; an undefined author is one value of the set. */
  function AuthorSet(nodes: seq<Node>): set<Option<string>> {
    set i | 0 <= i < |nodes| :: nodes[i].author
  }

  /** There are never more distinct authors than nodes, and at least one as soon as there is a node. */
  lemma {:induction false} AuthorSetSize(nodes: seq<Node>)
    ensures |AuthorSet(nodes)| <= |nodes|
    ensures |nodes| > 0 ==> |AuthorSet(nodes)| >= 1
  {
    if |nodes| > 0 {
      var last := |nodes| - 1;
      var init := nodes[..last];
      AuthorSetSize(init);
      assert AuthorSet(nodes) == AuthorSet(init) + {nodes[last].author} by {
        forall a | a in AuthorSet(nodes) ensures a in AuthorSet(init) + {nodes[last].author} {
          var i :| 0 <= i < |nodes| && nodes[i].author == a;
          if i < last {
            assert init[i] == nodes[i];
          }
        }
        forall a | a in AuthorSet(init) ensures a in AuthorSet(nodes) {
          var i :| 0 <= i < |init| && init[i].author == a;
          assert nodes[i] == init[i];
        }
      }
    }
  }

  // ---------------------------------------------------------------------------
  // The whole parse callback

  /** What one load leaves behind: its statistics, its nodes and the number of distinct authors. */
  datatype Loaded = Loaded(stats: Stats, nodes: seq<Node>, uniqueAuthors: nat)

  function Ingest(rows: seq<Row>): Loaded {
    var nodes := BuildNodes(Kept(rows), MaxEngagementOf(rows));
    Loaded(IngestionStats(rows), nodes, |AuthorSet(nodes)|)
  }

  /** The parse callback: the engagement pass, the filter, the nodes and the author count, in that order. */
  method Complete(rows: seq<Row>) returns (loaded: Loaded)
    ensures loaded == Ingest(rows)
    ensures loaded.stats.totalRows == |rows|
    ensures loaded.stats.validRows + loaded.stats.invalidRows == loaded.stats.totalRows
    ensures |loaded.nodes| == loaded.stats.validRows
    ensures loaded.uniqueAuthors <= |loaded.nodes|
  {
    var maxEngagement := MaxEngagement(rows);
    var kept, stats := FilterRows(rows);
    var nodes := BuildNodes(kept, maxEngagement);
    var uniqueAuthors := |AuthorSet(nodes)|;
    AuthorSetSize(nodes);
    loaded := Loaded(stats, nodes, uniqueAuthors);
  }

  /**
   * Node j comes from the j-th kept record: its id is "tweet-j" (the position
   * after filtering), its body and author are the record's, its metrics are
   * the record's counts read with `parseInt(...) || 0`, its coordinates are
   * what `parseFloat` reads, and it carries the largest engagement of the
   * whole input.
   */
  lemma IngestNodes(rows: seq<Row>)
    ensures var loaded := Ingest(rows);
      var ks := KeptIndices(rows);
      |loaded.nodes| == |ks| == loaded.stats.validRows &&
      forall j :: 0 <= j < |loaded.nodes| ==>
        var node, row := loaded.nodes[j], rows[ks[j]];
        node.id == "tweet-" + Decimal(j) &&
        Field(row, "body") == Some(node.body) && node.body != "" &&
        node.author == Field(row, "author") &&
        node.metrics == MetricsOf(row) &&
        FloatCell(Field(row, "embedding_x")) == Some(node.x) &&
        FloatCell(Field(row, "embedding_y")) == Some(node.y) &&
        node.maxEngagement == MaxEngagementOf(rows)
  {
    StatsCounts(rows);
    KeptIffValid(rows);
  }

  /** Every node carries the same largest engagement, which bounds its own engagement from above. */
  lemma IngestMaxEngagement(rows: seq<Row>)
    ensures var nodes := Ingest(rows).nodes;
      forall j :: 0 <= j < |nodes| ==>
        nodes[j].maxEngagement == MaxEngagementOf(rows) >= 0 &&
        TotalEngagement(nodes[j].metrics) <= nodes[j].maxEngagement
  {
    var nodes := Ingest(rows).nodes;
    var ks := KeptIndices(rows);
    KeptIffValid(rows);
    MaxEngagementBounds(rows);
    forall j | 0 <= j < |nodes|
      ensures TotalEngagement(nodes[j].metrics) <= nodes[j].maxEngagement
    {
      NodeEngagementIsRowEngagement(rows[ks[j]]);
    }
  }

  /**
   * Sizes of loaded nodes: the smallest size exactly at zero engagement; for
   * a positive engagement e, 1 <= e <= maxEngagement, so ln(e + 1) / ln(maxEngagement + 1)
   * has a positive denominator and lies in (0, 1].
   */
  lemma IngestSizes(rows: seq<Row>)
    ensures var nodes := Ingest(rows).nodes;
      forall j :: 0 <= j < |nodes| ==>
        (NodeSize(nodes[j]) == Smallest <==> TotalEngagement(nodes[j].metrics) == 0) &&
        (TotalEngagement(nodes[j].metrics) > 0 ==>
          NodeSize(nodes[j]) == LogScaled(TotalEngagement(nodes[j].metrics), nodes[j].maxEngagement) &&
          1 <= NodeSize(nodes[j]).engagement <= NodeSize(nodes[j]).maxEngagement)
  {
    IngestMaxEngagement(rows);
  }

  /** The node ids of one load are pairwise distinct. */
  lemma IngestIdsDistinct(rows: seq<Row>)
    ensures var nodes := Ingest(rows).nodes;
      forall i, j :: 0 <= i < |nodes| && 0 <= j < |nodes| && i != j ==> nodes[i].id != nodes[j].id
  {
  }

  /** The author count is the number of distinct author values among the kept records. */
  lemma IngestUniqueAuthors(rows: seq<Row>)
    ensures var loaded := Ingest(rows);
      var kept := Kept(rows);
      loaded.uniqueAuthors <= |loaded.nodes| &&
      loaded.uniqueAuthors == |set j | 0 <= j < |kept| :: Field(kept[j], "author")| &&
      (|loaded.nodes| > 0 ==> loaded.uniqueAuthors >= 1)
  {
    var kept := Kept(rows);
    var nodes := Ingest(rows).nodes;
    assert forall j :: 0 <= j < |nodes| ==> nodes[j].author == Field(kept[j], "author");
    var authors := set j | 0 <= j < |kept| :: Field(kept[j], "author");
    forall a | a in authors
      ensures a in AuthorSet(nodes)
    {
      var j :| 0 <= j < |kept| && Field(kept[j], "author") == a;
      assert nodes[j].author == a;
    }
    assert AuthorSet(nodes) == authors;
    AuthorSetSize(nodes);
  }
}
