/** The sequential crawl run to completion, and what the quirks of the
    worker loop lead to on small sites. */
module Crawl {
  import opened Wrappers
  import opened Definitions
  import opened Datastore
  import opened Scraper

  /** The frontier in FIFO order never gets shallower and spans at most two
      adjacent depths: the worker loop visits the site level by level. */
  ghost predicate Layered(f: seq<Item>)
  {
    forall i, j :: 0 <= i < j < |f| ==> f[i].depth <= f[j].depth <= f[i].depth + 1
  }

  /** Levels left between the frontier's head and the depth bound. */
  function LevelsLeft(c: Crawl): nat
  {
    if c.frontier == [] || c.frontier[0].depth > DepthBound(c.settings) then 0
    else DepthBound(c.settings) - c.frontier[0].depth
  }

  /** The number of entries at a given depth. */
  function CountAt(f: seq<Item>, depth: nat): nat
  {
    if f == [] then 0 else (if f[0].depth == depth then 1 else 0) + CountAt(f[1..], depth)
  }

  /** Entries still to be popped at the head's depth. */
  function HeadLevelSize(c: Crawl): nat
  {
    if c.frontier == [] then 0 else CountAt(c.frontier, c.frontier[0].depth)
  }

  lemma {:induction false} CountAtAppend(a: seq<Item>, b: seq<Item>, depth: nat)
    ensures CountAt(a + b, depth) == CountAt(a, depth) + CountAt(b, depth)
    decreases |a|
  {
    if a == [] {
      assert a + b == b;
    } else {
      assert (a + b)[0] == a[0];
      assert (a + b)[1..] == a[1..] + b;
      CountAtAppend(a[1..], b, depth);
    }
  }

  lemma {:induction false} CountAtNone(f: seq<Item>, depth: nat)
    requires forall i :: 0 <= i < |f| ==> f[i].depth != depth
    ensures CountAt(f, depth) == 0
    decreases |f|
  {
    if f != [] {
      CountAtNone(f[1..], depth);
    }
  }

  /** Popping the head of a layered frontier and appending entries one level
      below it keeps the frontier layered. */
  lemma AppendNextLevel(f: seq<Item>, added: seq<Item>)
    requires Layered(f) && f != []
    requires forall k :: 0 <= k < |added| ==> added[k].depth == f[0].depth + 1
    ensures Layered(f[1..] + added)
  {
    var f' := f[1..] + added;
    var n := |f| - 1;
    forall i, j | 0 <= i < j < |f'|
      ensures f'[i].depth <= f'[j].depth <= f'[i].depth + 1
    {
      if j < n {
        assert f'[i] == f[i + 1] && f'[j] == f[j + 1];
      } else if i < n {
        assert f'[i] == f[i + 1] && f'[j] == added[j - n];
      } else {
        assert f'[i] == added[i - n] && f'[j] == added[j - n];
      }
    }
  }

  /** The head's level shrinks by one, or the head moves one level deeper
      (or the frontier drains). */
  lemma NextLevelDecreases(c: Crawl, r: Crawl, added: seq<Item>)
    requires Layered(c.frontier) && c.frontier != [] && c.frontier[0].depth <= DepthBound(c.settings)
    requires r.settings == c.settings
    requires forall k :: 0 <= k < |added| ==> added[k].depth == c.frontier[0].depth + 1
    requires r.frontier == c.frontier[1..] + added
    requires forall i :: 0 <= i < |r.frontier| ==> r.frontier[i].depth <= DepthBound(r.settings)
    ensures || LevelsLeft(r) < LevelsLeft(c)
            || (LevelsLeft(r) == LevelsLeft(c) && HeadLevelSize(r) < HeadLevelSize(c))
  {
    var f := c.frontier;
    var h := f[0].depth;
    CountAtAppend(f[1..], added, h);
    CountAtNone(added, h);
    assert CountAt(f, h) == 1 + CountAt(f[1..], h);
    if |f| > 1 {
      assert f[1].depth <= h + 1 by {
        assert f[0].depth <= f[1].depth <= f[0].depth + 1;
      }
      assert r.frontier[0] == f[1];
    }
  }

  /** A step keeps the frontier layered, and either moves the head one level
      deeper or leaves one entry fewer at the head's level. */
  lemma StepDecreases(c: Crawl, parse: Parser, fetch: Fetcher)
    requires Inv(c) && Layered(c.frontier) && c.frontier != []
    ensures var r := Step(c, parse, fetch);
            && Layered(r.frontier)
            && (|| LevelsLeft(r) < LevelsLeft(c)
                || (LevelsLeft(r) == LevelsLeft(c) && HeadLevelSize(r) < HeadLevelSize(c)))
  {
    var r := Step(c, parse, fetch);
    var f := c.frontier;
    var f' := r.frontier;
    var h := f[0].depth;
    assert Extends(f[1..], f', h, PageLinks(fetch, f[0].url), c.settings.maxDepth);
    var added := f'[|f| - 1..];
    assert f' == f[1..] + added by {
      assert f'[..|f| - 1] == f[1..];
    }
    forall k | 0 <= k < |added|
      ensures added[k].depth == h + 1
    {
      assert added[k] == f'[|f| - 1 + k];
    }
    AppendNextLevel(f, added);
    NextLevelDecreases(c, r, added);
  }

  /** The worker loop until the frontier drains. */
  function Run(c: Crawl, parse: Parser, fetch: Fetcher): (r: Crawl)
    requires Inv(c) && Layered(c.frontier)
    ensures Inv(r) && r.frontier == []
    ensures r.settings == c.settings
    ensures OtherEventsUnchanged(c.db, r.db, c.settings.id)
    ensures Entries(c).Keys <= Entries(r).Keys
    ensures forall u :: u in Entries(r) ==> Entries(r)[u] in {Success, Failed, Ignored}
    decreases LevelsLeft(c), HeadLevelSize(c)
  {
    if c.frontier == [] then c
    else
      StepDecreases(c, parse, fetch);
      var r := Run(Step(c, parse, fetch), parse, fetch);
      r
  }

  /** A whole crawl: seed, then run the worker loop to completion. */
  function CrawlSite(db: Db, id: EventId, baseUrl: Url, maxDepth: int,
                     parse: Parser, fetch: Fetcher): (r: Db)
    ensures r.Keys == db.Keys + {id}
    ensures forall k :: k in db && k != id ==> r[k] == db[k]
    ensures r[id].settings == Settings(id, maxDepth, baseUrl)
    ensures baseUrl in r[id].status.entries
    ensures forall u :: u in r[id].status.entries ==> r[id].status.entries[u] in {Success, Failed, Ignored}
  {
    var c := Begin(db, id, baseUrl, maxDepth, parse);
    Run(c, parse, fetch).db
  }

  /** When every stored status is terminal, the stats hold no `InProgress`,
      `Missing` or `Pending` URL, and the other three buckets share out every
      stored URL. */
  lemma TerminalStats(m: UrlStatusMap)
    requires forall u :: u in m.entries ==> m.entries[u] in {Success, Failed, Ignored}
    ensures Bucket(m, InProgress) == [] && Bucket(m, Missing) == [] && Bucket(m, Pending) == []
    ensures |Bucket(m, Success)| + |Bucket(m, Failed)| + |Bucket(m, Ignored)| == |m.entries|
  {
    forall s | s in {InProgress, Missing, Pending}
      ensures Bucket(m, s) == []
    {
      if Bucket(m, s) != [] {
        BucketMembership(m, s, Bucket(m, s)[0]);
      }
    }
    BucketsPartition(m);
  }

  /** After a complete crawl the stats hold only `Success`, `Failed` and
      `Ignored` URLs. */
  lemma CompletedCrawlStats(db: Db, id: EventId, baseUrl: Url, maxDepth: int,
                            parse: Parser, fetch: Fetcher)
    ensures var m := CrawlSite(db, id, baseUrl, maxDepth, parse, fetch)[id].status;
            && Bucket(m, InProgress) == [] && Bucket(m, Missing) == [] && Bucket(m, Pending) == []
            && |Bucket(m, Success)| + |Bucket(m, Failed)| + |Bucket(m, Ignored)| == |m.entries|
  {
    var r := CrawlSite(db, id, baseUrl, maxDepth, parse, fetch);
    TerminalStats(r[id].status);
  }
}
