/**
 * The search side of the client: the parameters of the search call, and the
 * post-processing of the decoded search result (timestamp, links, load-more
 * cursor, retweet threshold).
 */
module Tweets {
  import opened Options
  import opened Json
  import opened Decimal
  import Links

  /** One decoded status; `others` holds every key the client does not touch (user, favorite_count, id_str, ...). */
  datatype Status = Status(
    id: int,
    retweetCount: int,            // "retweet_count"
    text: string,
    createdAt: string,            // "created_at", the API's date string
    timestamp: Option<int>,       // "timestamp", absent until the client adds it
    others: map<string, Value>)

  /** The decoded search reply: "statuses" and "search_metadata". */
  datatype SearchResult = SearchResult(statuses: seq<Status>, searchMetadata: map<string, Value>)

  /** Query parameters in the order http_build_query writes them. */
  type Query = seq<(string, Value)>

  const LoadMoreKey: string := "load_more_max_id"

  /** The value of the first parameter named key. */
  function Lookup(q: Query, key: string): (r: Option<Value>)
    ensures r.Some? <==> exists i :: 0 <= i < |q| && q[i].0 == key
    decreases |q|
  {
    if q == [] then None
    else if q[0].0 == key then Some(q[0].1)
    else Lookup(q[1..], key)
  }

  /** The parameters of the search call. */
  function SearchQuery(hashtag: string, maxId: string, loadMoreCount: int): (q: Query)
    ensures Lookup(q, "include_entities") == Some(Int(0))
    ensures Lookup(q, "count") == Some(Int(loadMoreCount))
    ensures Lookup(q, "q") == Some(Str("#" + hashtag + " -filter:retweets"))
    ensures Lookup(q, "max_id") == (if |maxId| > 0 then Some(Str(maxId)) else None)
    ensures forall i :: 0 <= i < |q| ==> q[i].0 in ["include_entities", "count", "q", "max_id"]
    ensures |q| == if |maxId| > 0 then 4 else 3
    ensures forall i, j :: 0 <= i < j < |q| ==> q[i].0 != q[j].0
  {
    var cursor: Query := if |maxId| > 0 then [("max_id", Str(maxId))] else [];
    var q := [("include_entities", Int(0)), ("count", Int(loadMoreCount)), ("q", Str("#" + hashtag + " -filter:retweets"))] + cursor;
    var rest := q[1..][1..];
    assert rest[0] == q[2] && rest[1..] == cursor;
    assert Lookup(q, "q") == Lookup(q[1..], "q") == Lookup(rest, "q");
    assert Lookup(q, "max_id") == Lookup(q[1..], "max_id") == Lookup(rest, "max_id") == Lookup(cursor, "max_id");
    q
  }

  /** One status after the loop body: the parsed date is attached and the text linkified. */
  function Enrich(s: Status, strtotime: string -> int): Status
  {
    s.(timestamp := Some(strtotime(s.createdAt)), text := Links.Linkify(s.text))
  }

  function EnrichAll(ss: seq<Status>, strtotime: string -> int): (r: seq<Status>)
    ensures |r| == |ss| && forall i :: 0 <= i < |ss| ==> r[i] == Enrich(ss[i], strtotime)
  {
    seq(|ss|, i requires 0 <= i < |ss| => Enrich(ss[i], strtotime))
  }

  /** One step of the running minimum; 0 stands for "nothing seen yet", as PHP's falsy 0 does. */
  function LowestStep(lowest: int, id: int): int
  {
    if lowest == 0 || id < lowest then id else lowest
  }

  /** The running minimum after visiting ss from left to right. */
  function LowestId(ss: seq<Status>): int
    decreases |ss|
  {
    if ss == [] then 0 else LowestStep(LowestId(ss[..|ss| - 1]), ss[|ss| - 1].id)
  }

  /** The metadata with the load-more cursor added when the running minimum is set. */
  function WithCursor(metadata: map<string, Value>, lowest: int): map<string, Value>
  {
    if lowest != 0 then metadata[LoadMoreKey := Str(DecimalString(lowest - 1))] else metadata
  }

  /** The statuses with at least min retweets, in their original order. */
  function Popular(ss: seq<Status>, min: int): (r: seq<Status>)
    ensures forall i :: 0 <= i < |r| ==> r[i].retweetCount >= min
    decreases |ss|
  {
    if ss == [] then []
    else (if ss[0].retweetCount >= min then [ss[0]] else []) + Popular(ss[1..], min)
  }

  /** The threshold applies only when it is positive. */
  function KeepPopular(ss: seq<Status>, min: int): seq<Status>
  {
    if min > 0 then Popular(ss, min) else ss
  }

  /** The whole post-processing of a decoded search result. */
  function Transform(raw: SearchResult, minRetweetCount: int, strtotime: string -> int): SearchResult
  {
    SearchResult(
      KeepPopular(EnrichAll(raw.statuses, strtotime), minRetweetCount),
      WithCursor(raw.searchMetadata, LowestId(raw.statuses)))
  }

  /**
   * The post-processing loop of getFeaturedTweets: each status is updated in
   * place while the running minimum of the ids is kept, then the cursor is
   * published and the retweet threshold applied.
   */
  method PostProcess(raw: SearchResult, minRetweetCount: int, strtotime: string -> int) returns (result: SearchResult)
    ensures result == Transform(raw, minRetweetCount, strtotime)
  {
    var statuses := raw.statuses;
    var lowestId := 0;
    var i := 0;
    while i < |statuses|
      invariant 0 <= i <= |statuses| == |raw.statuses|
      invariant forall k :: 0 <= k < i ==> statuses[k] == Enrich(raw.statuses[k], strtotime)
      invariant forall k :: i <= k < |statuses| ==> statuses[k] == raw.statuses[k]
      invariant lowestId == LowestId(raw.statuses[..i])
    {
      var status := statuses[i];
      status := status.(timestamp := Some(strtotime(status.createdAt)));
      status := status.(text := Links.Linkify(status.text));
      assert status == Enrich(raw.statuses[i], strtotime);
      statuses := statuses[i := status];
      if lowestId == 0 || status.id < lowestId {
        lowestId := status.id;
      }
      assert raw.statuses[..i + 1][..i] == raw.statuses[..i];
      assert lowestId == LowestStep(LowestId(raw.statuses[..i]), raw.statuses[i].id);
      i := i + 1;
    }
    assert raw.statuses[..i] == raw.statuses;
    assert statuses == EnrichAll(raw.statuses, strtotime);
    var metadata := raw.searchMetadata;
    if lowestId != 0 {
      lowestId := lowestId - 1;
      metadata := metadata[LoadMoreKey := Str(DecimalString(lowestId))];
    }
    if minRetweetCount > 0 {
      statuses := Popular(statuses, minRetweetCount);
    }
    result := SearchResult(statuses, metadata);
  }

  predicate AllPositive(ss: seq<Status>)
  {
    forall k :: 0 <= k < |ss| ==> ss[k].id > 0
  }

  /** With positive ids, the running minimum is the least id of the batch, and 0 only for an empty batch. */
  lemma {:induction false} LowestIsMinimum(ss: seq<Status>)
    requires AllPositive(ss)
    ensures ss == [] ==> LowestId(ss) == 0
    ensures ss != [] ==> exists k :: 0 <= k < |ss| && LowestId(ss) == ss[k].id
    ensures forall k :: 0 <= k < |ss| ==> LowestId(ss) <= ss[k].id
    decreases |ss|
  {
    if ss != [] {
      var p := ss[..|ss| - 1];
      assert AllPositive(p) by {
        forall k | 0 <= k < |p| ensures p[k].id > 0 {
          assert p[k] == ss[k];
        }
      }
      LowestIsMinimum(p);
      var last := |ss| - 1;
      assert ss[last].id > 0;
      if p != [] {
        var k :| 0 <= k < |p| && LowestId(p) == p[k].id;
        assert p[k] == ss[k];
        if ss[last].id < LowestId(p) {
          assert LowestId(ss) == ss[last].id;
        } else {
          assert LowestId(ss) == ss[k].id;
        }
      } else {
        assert LowestId(ss) == ss[last].id;
      }
      forall k | 0 <= k < |ss| ensures LowestId(ss) <= ss[k].id {
        if k < |p| {
          assert p[k] == ss[k];
        }
      }
    }
  }

  /**
   * For a non-empty batch with positive ids, the published cursor is the
   * least id of all fetched statuses minus one, written in decimal, and
   * nothing else in the metadata changes.
   */
  lemma CursorIsMinimumMinusOne(raw: SearchResult, minRetweetCount: int, strtotime: string -> int)
    requires raw.statuses != [] && AllPositive(raw.statuses)
    ensures exists k :: && 0 <= k < |raw.statuses|
                        && (forall j :: 0 <= j < |raw.statuses| ==> raw.statuses[k].id <= raw.statuses[j].id)
                        && Transform(raw, minRetweetCount, strtotime).searchMetadata
                           == raw.searchMetadata[LoadMoreKey := Str(DecimalString(raw.statuses[k].id - 1))]
  {
    LowestIsMinimum(raw.statuses);
    var k :| 0 <= k < |raw.statuses| && LowestId(raw.statuses) == raw.statuses[k].id;
    assert raw.statuses[k].id > 0;
  }

  /** An empty batch publishes no cursor and leaves the metadata as it came. */
  lemma NoStatusesNoCursor(raw: SearchResult, minRetweetCount: int, strtotime: string -> int)
    requires raw.statuses == []
    ensures Transform(raw, minRetweetCount, strtotime) == SearchResult([], raw.searchMetadata)
  {
  }

  /** The cursor is taken before filtering: the threshold has no effect on it. */
  lemma CursorIgnoresThreshold(raw: SearchResult, min1: int, min2: int, strtotime: string -> int)
    ensures Transform(raw, min1, strtotime).searchMetadata == Transform(raw, min2, strtotime).searchMetadata
  {
  }

  /** b can be obtained from a by deleting elements. */
  predicate IsSubsequence<T(==)>(b: seq<T>, a: seq<T>)
    decreases |a|
  {
    if b == [] then true
    else if a == [] then false
    else (b[0] == a[0] && IsSubsequence(b[1..], a[1..])) || IsSubsequence(b, a[1..])
  }

  /** Survivors keep their order. */
  lemma {:induction false} PopularIsSubsequence(ss: seq<Status>, min: int)
    ensures IsSubsequence(Popular(ss, min), ss)
    decreases |ss|
  {
    if ss != [] {
      PopularIsSubsequence(ss[1..], min);
      if ss[0].retweetCount >= min {
        assert Popular(ss, min) == [ss[0]] + Popular(ss[1..], min);
        assert Popular(ss, min)[1..] == Popular(ss[1..], min);
      } else {
        assert Popular(ss, min) == Popular(ss[1..], min);
        if Popular(ss, min) != [] {
          assert IsSubsequence(Popular(ss, min), ss);
        }
      }
    }
  }

  /** Exactly the statuses meeting the threshold survive, each as often as it occurred. */
  lemma {:induction false} PopularCounts(ss: seq<Status>, min: int, x: Status)
    ensures multiset(Popular(ss, min))[x] == if x.retweetCount >= min then multiset(ss)[x] else 0
    decreases |ss|
  {
    if ss != [] {
      PopularCounts(ss[1..], min, x);
      assert ss == [ss[0]] + ss[1..];
      assert multiset(ss) == multiset([ss[0]]) + multiset(ss[1..]);
    }
  }

  /**
   * The retweet filter: with a positive threshold every survivor meets it,
   * every status below it is dropped and every other kept, in order; with a
   * threshold of 0 or less the list is the enriched list unchanged.
   */
  lemma ThresholdFilter(raw: SearchResult, minRetweetCount: int, strtotime: string -> int)
    ensures var out := Transform(raw, minRetweetCount, strtotime).statuses;
            var all := EnrichAll(raw.statuses, strtotime);
            && IsSubsequence(out, all)
            && (minRetweetCount > 0 ==>
                  && (forall i :: 0 <= i < |out| ==> out[i].retweetCount >= minRetweetCount)
                  && (forall x :: multiset(out)[x] == if x.retweetCount >= minRetweetCount then multiset(all)[x] else 0))
            && (minRetweetCount <= 0 ==> out == all)
  {
    var all := EnrichAll(raw.statuses, strtotime);
    if minRetweetCount > 0 {
      PopularIsSubsequence(all, minRetweetCount);
      forall x ensures multiset(Popular(all, minRetweetCount))[x] ==
                       if x.retweetCount >= minRetweetCount then multiset(all)[x] else 0 {
        PopularCounts(all, minRetweetCount, x);
      }
    } else {
      SubsequenceOfItself(all);
    }
  }

  lemma {:induction false} SubsequenceOfItself<T>(a: seq<T>)
    ensures IsSubsequence(a, a)
    decreases |a|
  {
    if a != [] {
      SubsequenceOfItself(a[1..]);
    }
  }

  /**
   * Each status the client returns comes from one fetched status: same id,
   * counts, date and other keys, the parsed date attached, and the text
   * rewritten so that its visible text is the original with only links of
   * the pattern wrapped.
   */
  lemma EnrichedStatus(s: Status, strtotime: string -> int)
    ensures var r := Enrich(s, strtotime);
            && r.id == s.id && r.retweetCount == s.retweetCount
            && r.createdAt == s.createdAt && r.others == s.others
            && r.timestamp == Some(strtotime(s.createdAt))
            && (exists ps: seq<Links.Piece> :: && r.text == Links.Render(ps)
                                               && Links.Visible(ps) == s.text
                                               && Links.WrapsOnlyUrls(ps))
            && forall p: nat, e: nat :: Links.FirstMatch(s.text, 0, p, e) ==>
                 r.text == s.text[..p + 1] + Links.Anchor(s.text[p + 1..e]) + Links.Render(Links.Scan(s.text, e))
  {
    Links.LinkifySpec(s.text);
  }

  /** Every returned status is the enrichment of a fetched one. */
  lemma ReturnedAreEnriched(raw: SearchResult, minRetweetCount: int, strtotime: string -> int, t: Status)
    requires t in Transform(raw, minRetweetCount, strtotime).statuses
    ensures exists k :: 0 <= k < |raw.statuses| && t == Enrich(raw.statuses[k], strtotime)
  {
    var all := EnrichAll(raw.statuses, strtotime);
    if minRetweetCount > 0 {
      PopularCounts(all, minRetweetCount, t);
    }
    assert t in all;
  }

  /** The cursor a result publishes, or "" when it publishes none (the browser then sends no max_id). */
  function Cursor(r: SearchResult): string
  {
    if LoadMoreKey in r.searchMetadata && r.searchMetadata[LoadMoreKey].Str? then r.searchMetadata[LoadMoreKey].s else ""
  }

  /** What the search endpoint promises about max_id: it returns no status with a larger id. */
  predicate HonoursMaxId(q: Query, page: SearchResult)
  {
    match Lookup(q, "max_id")
    case Some(Str(m)) =>
      ParseDecimal(m).Some? && forall k :: 0 <= k < |page.statuses| ==> page.statuses[k].id <= ParseDecimal(m).value
    case _ => true
  }

  /**
   * The load-more round trip: the next search sends the published cursor as
   * max_id, and if the endpoint honours it, every status of the next page is
   * strictly older than every status fetched for this one, whatever either
   * threshold.
   */
  lemma NextPageIsOlder(raw: SearchResult, next: SearchResult, min1: int, min2: int,
                        strtotime: string -> int, hashtag: string, loadMoreCount: int)
    requires raw.statuses != [] && AllPositive(raw.statuses)
    requires HonoursMaxId(SearchQuery(hashtag, Cursor(Transform(raw, min1, strtotime)), loadMoreCount), next)
    ensures Lookup(SearchQuery(hashtag, Cursor(Transform(raw, min1, strtotime)), loadMoreCount), "max_id").Some?
    ensures forall t, u :: t in Transform(next, min2, strtotime).statuses && u in raw.statuses ==> t.id < u.id
  {
    LowestIsMinimum(raw.statuses);
    var lowest := LowestId(raw.statuses);
    var cursor := DecimalString(lowest - 1);
    assert Cursor(Transform(raw, min1, strtotime)) == cursor;
    DecimalRoundTrip(lowest - 1);
    assert |cursor| > 0;
    forall t, u | t in Transform(next, min2, strtotime).statuses && u in raw.statuses ensures t.id < u.id {
      ReturnedAreEnriched(next, min2, strtotime, t);
    }
  }

  /** A status with the given id and retweet count and nothing else. */
  function Plain(id: int, retweetCount: int): Status
  {
    Status(id, retweetCount, "", "", None, map[])
  }

  /** Ids 105, 103, 104 and no threshold: the cursor is "102". */
  lemma ScenarioLeastIdCursor(strtotime: string -> int)
    ensures Cursor(Transform(SearchResult([Plain(105, 0), Plain(103, 0), Plain(104, 0)], map[]), 0, strtotime)) == "102"
  {
    var ss := [Plain(105, 0), Plain(103, 0), Plain(104, 0)];
    assert ss[..2][..1] == [Plain(105, 0)] && ss[..2] == [Plain(105, 0), Plain(103, 0)];
    assert [Plain(105, 0)][..0] == [];
    assert LowestId([Plain(105, 0)]) == 105;
    assert LowestId(ss[..2]) == 103;
    assert LowestId(ss) == 103;
    assert DecimalString(102) == "102";
  }

  /**
   * Retweet counts 0 and 5 with threshold 1: only the second status is
   * returned, and the cursor still comes from the least id of both.
   */
  lemma ScenarioThresholdKeepsCursor(strtotime: string -> int)
    ensures var out := Transform(SearchResult([Plain(200, 0), Plain(300, 5)], map[]), 1, strtotime);
            && out.statuses == [Enrich(Plain(300, 5), strtotime)]
            && Cursor(out) == "199"
  {
    var ss := [Plain(200, 0), Plain(300, 5)];
    assert ss[..1] == [Plain(200, 0)];
    assert LowestId(ss) == 200;
    assert DecimalString(199) == "199";
    var all := EnrichAll(ss, strtotime);
    assert all == [Enrich(Plain(200, 0), strtotime), Enrich(Plain(300, 5), strtotime)];
    assert Popular(all, 1) == [] + Popular(all[1..], 1);
    assert all[1..][1..] == [];
  }
}
