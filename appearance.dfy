/**
 * How a node looks: its colour bucket, the legend that explains the buckets,
 * and its size.
 */
module Appearance {
  import opened Wrappers
  import opened Records

  /** `getNodeColor`, on the node's total engagement. */
  function EngagementColor(e: int): string {
    if e == 0 then "#94A3B8"
    else if e < 10 then "#88CCF1"
    else if e < 50 then "#B5E8B0"
    else if e < 200 then "#FFB86C"
    else "#FF79C6"
  }

  function NodeColor(node: Node): string {
    EngagementColor(TotalEngagement(node.metrics))
  }

  /**
   * One entry of the colour legend. `low` and `high` are the bounds its text
   * names ("1-9 interactions" is 1 to 9; "200+ interactions" has no upper bound).
   */
  datatype LegendItem = LegendItem(color: string, text: string, low: int, high: Option<int>)

  const Legend: seq<LegendItem> := [
    LegendItem("#94A3B8", "No engagement", 0, Some(0)),
    LegendItem("#88CCF1", "1-9 interactions", 1, Some(9)),
    LegendItem("#B5E8B0", "10-49 interactions", 10, Some(49)),
    LegendItem("#FFB86C", "50-199 interactions", 50, Some(199)),
    LegendItem("#FF79C6", "200+ interactions", 200, None)
  ]

  predicate Covers(item: LegendItem, e: int) {
    item.low <= e && (item.high.None? || e <= item.high.value)
  }

  /** Position of a colour in the legend; 5 for a colour the legend does not show. */
  function LegendRank(color: string): nat {
    if color == Legend[0].color then 0
    else if color == Legend[1].color then 1
    else if color == Legend[2].color then 2
    else if color == Legend[3].color then 3
    else if color == Legend[4].color then 4
    else 5
  }

  /**
   * For every engagement that can be counted (e >= 0) exactly the legend entry
   * whose range holds `e` names the colour the node is drawn in.
   */
  lemma ColorAgreesWithLegend(e: int)
    requires e >= 0
    ensures exists k :: 0 <= k < |Legend| && Covers(Legend[k], e)
    ensures forall k :: 0 <= k < |Legend| && Covers(Legend[k], e) ==> EngagementColor(e) == Legend[k].color
    ensures forall k :: 0 <= k < |Legend| && EngagementColor(e) == Legend[k].color ==> Covers(Legend[k], e)
  {
    var k := if e == 0 then 0 else if e < 10 then 1 else if e < 50 then 2 else if e < 200 then 3 else 4;
    assert Covers(Legend[k], e);
  }

  /** A negative engagement falls outside every legend range, yet is drawn in the "1-9" colour. */
  lemma NegativeEngagementColor(e: int)
    requires e < 0
    ensures EngagementColor(e) == "#88CCF1"
    ensures forall k :: 0 <= k < |Legend| ==> !Covers(Legend[k], e)
  {
  }

  /** More engagement never moves a node to an earlier legend bucket. */
  lemma ColorRankMonotone(e1: int, e2: int)
    requires 0 <= e1 <= e2
    ensures LegendRank(EngagementColor(e1)) <= LegendRank(EngagementColor(e2)) < 5
  {
  }

  /** The colour depends on the node's total engagement and on nothing else. */
  lemma NodeColorByEngagement(a: Node, b: Node)
    requires TotalEngagement(a.metrics) == TotalEngagement(b.metrics)
    ensures NodeColor(a) == NodeColor(b)
  {
  }

  /**
   * The size `getNodeSize` gives: the minimum size 0.002 exactly, or the log-scaled
   * 0.002 + ln(engagement + 1) / ln(maxEngagement + 1) * (1 - 0.002),
   * kept as its two integer arguments because the logarithm is not modelled.
   */
  datatype Size = Smallest | LogScaled(engagement: int, maxEngagement: int)

  function NodeSize(node: Node): (s: Size)
    ensures s == Smallest <==> TotalEngagement(node.metrics) == 0
    ensures s.LogScaled? ==> s.engagement == TotalEngagement(node.metrics) && s.maxEngagement == node.maxEngagement
  {
    var e := TotalEngagement(node.metrics);
    if e == 0 then Smallest else LogScaled(e, node.maxEngagement)
  }
}
