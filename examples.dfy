/** Small loads worked through end to end. */
module Scenarios {
  import opened Wrappers
  import opened JsNumber
  import opened Records
  import opened Appearance
  import opened Sequences
  import opened Ingestion

  /** A record whose counts are written as plain decimals. */
  function Tweet(body: string, x: string, y: string, retweets: nat, replies: nat, likes: nat, quotes: nat): Row {
    map[
      "body" := body, "author" := "alice", "embedding_x" := x, "embedding_y" := y,
      "retweet_count" := Decimal(retweets), "reply_count" := Decimal(replies),
      "like_count" := Decimal(likes), "quote_count" := Decimal(quotes)]
  }

  lemma TweetFields(body: string, x: string, y: string, retweets: nat, replies: nat, likes: nat, quotes: nat)
    ensures var row := Tweet(body, x, y, retweets, replies, likes, quotes);
      Field(row, "body") == Some(body) && Field(row, "author") == Some("alice") &&
      Field(row, "embedding_x") == Some(x) && Field(row, "embedding_y") == Some(y) &&
      Field(row, "retweet_count") == Some(Decimal(retweets)) && Field(row, "reply_count") == Some(Decimal(replies)) &&
      Field(row, "like_count") == Some(Decimal(likes)) && Field(row, "quote_count") == Some(Decimal(quotes))
  {
  }

  /** Counts written as decimals are read back as those numbers. */
  lemma CountsRead(row: Row, retweets: nat, replies: nat, likes: nat, quotes: nat)
    requires Field(row, "retweet_count") == Some(Decimal(retweets))
    requires Field(row, "reply_count") == Some(Decimal(replies))
    requires Field(row, "like_count") == Some(Decimal(likes))
    requires Field(row, "quote_count") == Some(Decimal(quotes))
    ensures MetricsOf(row) == Metrics(retweets, replies, likes, quotes)
    ensures RowEngagement(row) == retweets + replies + likes + quotes
  {
    CountOrZeroCases(row, "retweet_count", retweets);
    CountOrZeroCases(row, "reply_count", replies);
    CountOrZeroCases(row, "like_count", likes);
    CountOrZeroCases(row, "quote_count", quotes);
  }

  /** A record with a body and decimal coordinates is kept. */
  lemma DecimalCoordinatesAreValid(row: Row, x: nat, y: nat)
    requires Truthy(Field(row, "body"))
    requires Field(row, "embedding_x") == Some(Decimal(x))
    requires Field(row, "embedding_y") == Some(Decimal(y))
    ensures IsValid(row)
    ensures FloatCell(Field(row, "embedding_x")) == Some(Finite(false, x, 0))
    ensures FloatCell(Field(row, "embedding_y")) == Some(Finite(false, y, 0))
  {
    ParseFloatDecimal(x);
    ParseFloatDecimal(y);
  }

  lemma RunningMaxOfOne<T>(x: T, f: T -> int)
    ensures RunningMax([x], f) == Max(0, f(x))
  {
    assert [x][..0] == [];
  }

  lemma FilterOfOne<T>(x: T, p: T -> bool)
    requires p(x)
    ensures Filter([x], p) == [x]
  {
    assert [x][..0] == [];
  }

  /** A load of one usable record: one node, "tweet-0", no rejections, one author. */
  lemma SingleValidRecord(row: Row)
    requires IsValid(row)
    ensures var loaded := Ingest([row]);
      loaded.stats == Stats(1, 1, 0, Reasons(0, 0, 0, 0)) &&
      loaded.nodes == [MakeNode(row, 0, Max(0, RowEngagement(row)))] &&
      loaded.uniqueAuthors == 1
  {
    var rows := [row];
    StatsCounts(rows);
    RunningMaxOfOne(row, RowEngagement);
    FilterOfOne(row, IsValid);
    assert Kept(rows) == rows;
    IngestUniqueAuthors(rows);
  }

  /**
   * A single record with body "hello", coordinates 1 and 2 and counts
   * 5, 0, 3, 0 becomes node "tweet-0" with those metrics, engagement 8, drawn
   * in the "1-9 interactions" colour; the largest engagement is 8.
   */
  lemma OneTweet()
    ensures var loaded := Ingest([Tweet("hello", Decimal(1), Decimal(2), 5, 0, 3, 0)]);
      loaded.stats == Stats(1, 1, 0, Reasons(0, 0, 0, 0)) &&
      |loaded.nodes| == 1 &&
      loaded.nodes[0].id == TweetId(0) &&
      loaded.nodes[0].metrics == Metrics(5, 0, 3, 0) &&
      TotalEngagement(loaded.nodes[0].metrics) == 8 &&
      loaded.nodes[0].maxEngagement == 8 &&
      NodeColor(loaded.nodes[0]) == "#88CCF1" &&
      loaded.uniqueAuthors == 1
  {
    var row := Tweet("hello", Decimal(1), Decimal(2), 5, 0, 3, 0);
    TweetFields("hello", Decimal(1), Decimal(2), 5, 0, 3, 0);
    DecimalCoordinatesAreValid(row, 1, 2);
    CountsRead(row, 5, 0, 3, 0);
    SingleValidRecord(row);
  }

  lemma FilterOfTwo<T>(a: T, b: T, p: T -> bool)
    requires !p(a) && p(b)
    ensures Filter([a, b], p) == [b]
    ensures FilterIndices([a, b], p) == [1]
  {
    assert [a, b][..1] == [a];
    assert [a][..0] == [];
  }

  lemma TallyOfTwo(s: Stats, a: Row, b: Row)
    ensures Tally(s, [a, b]) == Record(Record(s, a), b)
  {
    assert [a, b][..1] == [a];
    assert [a][..0] == [];
    assert Tally(s, [a]) == Record(s, a);
  }

  /**
   * Ids count kept records only: a dropped record followed by a kept one
   * gives a single node whose id is "tweet-0", not "tweet-1".
   */
  lemma DroppedThenKept(dropped: Row, kept: Row)
    requires LacksBody(dropped) && !LacksCoordinates(dropped) && !BadX(dropped) && !BadY(dropped)
    requires IsValid(kept)
    ensures var loaded := Ingest([dropped, kept]);
      KeptIndices([dropped, kept]) == [1] &&
      |loaded.nodes| == 1 &&
      loaded.nodes[0].id == TweetId(0) != TweetId(1) &&
      loaded.stats == Stats(2, 1, 1, Reasons(1, 0, 0, 0))
  {
    FilterOfTwo(dropped, kept, IsValid);
    TallyOfTwo(InitialStats(2), dropped, kept);
    TweetIdInjective(0, 1);
  }

  /** The two-record load with an empty body first, worked through. */
  lemma IdsAreDenseAfterFiltering()
    ensures var rows := [Tweet("", Decimal(1), Decimal(2), 0, 0, 0, 0), Tweet("hi", Decimal(1), Decimal(2), 0, 0, 0, 0)];
      var loaded := Ingest(rows);
      KeptIndices(rows) == [1] &&
      |loaded.nodes| == 1 &&
      loaded.nodes[0].id == TweetId(0) &&
      loaded.nodes[0].body == "hi" &&
      loaded.stats == Stats(2, 1, 1, Reasons(1, 0, 0, 0))
  {
    var dropped := Tweet("", Decimal(1), Decimal(2), 0, 0, 0, 0);
    var kept := Tweet("hi", Decimal(1), Decimal(2), 0, 0, 0, 0);
    TweetFields("", Decimal(1), Decimal(2), 0, 0, 0, 0);
    TweetFields("hi", Decimal(1), Decimal(2), 0, 0, 0, 0);
    DecimalCoordinatesAreValid(kept, 1, 2);
    ParseFloatDecimal(1);
    ParseFloatDecimal(2);
    DroppedThenKept(dropped, kept);
    FilterOfTwo(dropped, kept, IsValid);
  }

  lemma RunningMaxOfThree<T>(a: T, b: T, c: T, f: T -> int)
    ensures RunningMax([a, b, c], f) == Max(Max(Max(0, f(a)), f(b)), f(c))
  {
    assert [a, b, c][..2] == [a, b];
    assert [a, b][..1] == [a];
    assert [a][..0] == [];
    assert RunningMax([a], f) == Max(0, f(a));
    assert RunningMax([a, b], f) == Max(Max(0, f(a)), f(b));
  }

  /** Over engagements 0, 8 and 300 the largest engagement is 300, whatever the coordinates. */
  lemma LargestOfThree()
    ensures MaxEngagementOf([
      Tweet("a", "", "", 0, 0, 0, 0),
      Tweet("b", "", "", 5, 0, 3, 0),
      Tweet("c", "", "", 100, 100, 50, 50)]) == 300
  {
    var a := Tweet("a", "", "", 0, 0, 0, 0);
    var b := Tweet("b", "", "", 5, 0, 3, 0);
    var c := Tweet("c", "", "", 100, 100, 50, 50);
    TweetFields("a", "", "", 0, 0, 0, 0);
    TweetFields("b", "", "", 5, 0, 3, 0);
    TweetFields("c", "", "", 100, 100, 50, 50);
    CountsRead(a, 0, 0, 0, 0);
    CountsRead(b, 5, 0, 3, 0);
    CountsRead(c, 100, 100, 50, 50);
    RunningMaxOfThree(a, b, c, RowEngagement);
  }

  /**
   * `parseInt` reads "-1", so a record with a negative count gives a node whose
   * engagement is not 0 while the largest engagement is 0: the size formula
   * would then divide by ln(0 + 1) = 0.
   */
  lemma NegativeCountReachesZeroDenominator()
    ensures var row := Tweet("hi", Decimal(1), Decimal(2), 0, 0, 0, 0)["like_count" := "-" + Decimal(1)];
      var nodes := Ingest([row]).nodes;
      |nodes| == 1 &&
      nodes[0].metrics.likes == -1 &&
      NodeSize(nodes[0]) == LogScaled(-1, 0)
  {
    var tweet := Tweet("hi", Decimal(1), Decimal(2), 0, 0, 0, 0);
    var row := tweet["like_count" := "-" + Decimal(1)];
    TweetFields("hi", Decimal(1), Decimal(2), 0, 0, 0, 0);
    assert Field(row, "like_count") == Some("-" + Decimal(1));
    assert Field(row, "body") == Field(tweet, "body");
    assert Field(row, "embedding_x") == Field(tweet, "embedding_x");
    assert Field(row, "embedding_y") == Field(tweet, "embedding_y");
    assert Field(row, "retweet_count") == Field(tweet, "retweet_count");
    assert Field(row, "reply_count") == Field(tweet, "reply_count");
    assert Field(row, "quote_count") == Field(tweet, "quote_count");
    DecimalCoordinatesAreValid(row, 1, 2);
    CountOrZeroCases(row, "retweet_count", 0);
    CountOrZeroCases(row, "reply_count", 0);
    CountOrZeroCases(row, "like_count", 1);
    CountOrZeroCases(row, "quote_count", 0);
    SingleValidRecord(row);
  }
}
