/** Small sites on which the worker loop, as written, does something a reader
    of the code might not expect. Every site has one host "h". */
module Quirks {
  import opened Wrappers
  import opened Definitions
  import opened Datastore
  import opened Scraper

  function OneHost(): Parser
  {
    (u: Url) => Some("h")
  }

  /** A link that occurs twice on one page is enqueued twice: the second
      validation finds the stored `Pending` and returns it unchanged. */
  lemma DuplicateLinkQueuedTwice()
    ensures var fetch: Fetcher := (u: Url) => if u == "b" then Some(["x", "x"]) else Some([]);
            var c := Step(Begin(map[], "e", "b", 1, OneHost()), OneHost(), fetch);
            c.frontier == [Item("x", 1), Item("x", 1)]
  {
    var fetch: Fetcher := (u: Url) => if u == "b" then Some(["x", "x"]) else Some([]);
    var c0 := Begin(map[], "e", "b", 1, OneHost());
    var p := Pop(c0, fetch);
    assert Get(p.db["e"].status, "x") == Get(c0.db["e"].status, "x") == None;
    var links := PageLinks(fetch, "b");
    assert links == ["x", "x"];
    assert ValidateNextSteps(c0.settings, "x", 0, OneHost(), p.db) == Ok(Pending);
    assert Admitted(c0.settings, p.db, links, 0, OneHost()) == [Item("x", 1), Item("x", 1)] by {
      assert links[1..] == ["x"] && links[1..][1..] == [];
    }
  }

  /** A page deeper than the limit records every link it finds as `Ignored`,
      whatever was stored for it before, and enqueues nothing. */
  lemma PastLimitPageIgnoresLinks(c: Crawl, parse: Parser, fetch: Fetcher, l: Url)
    requires Live(c) && c.frontier != []
    requires c.frontier[0].depth > c.settings.maxDepth
    requires l in PageLinks(fetch, c.frontier[0].url)
    ensures Step(c, parse, fetch).frontier == c.frontier[1..]
    ensures l in Entries(Step(c, parse, fetch)) && Entries(Step(c, parse, fetch))[l] == Ignored
  {
    var item := c.frontier[0];
    var links := PageLinks(fetch, item.url);
    var p := Pop(c, fetch);
    var r := Step(c, parse, fetch);
    assert r == AdmitLinks(p, links, item.depth, parse);
    assert Extends(p.frontier, r.frontier, item.depth, links, c.settings.maxDepth);
    assert r.frontier == r.frontier[..|p.frontier|];
  }

  /** Seed "b" links to "x", and "x" links back to "b". */
  function BackLinkSite(): Fetcher
  {
    (u: Url) => if u == "b" then Some(["x"]) else Some(["b"])
  }

  /** The crawl of `BackLinkSite` with a limit of 0, after its first step. */
  function BackLinkAfterSeed(): Crawl
  {
    Step(Begin(map[], "e", "b", 0, OneHost()), OneHost(), BackLinkSite())
  }

  /** With a limit of 0, a link on the seed page is validated at depth 0 but
      enqueued at depth 1, past the limit, while the seed is recorded `Success`.
      By `PastLimitPageIgnoresLinks`, the next step fetches "x" anyway and
      overwrites the seed's `Success` with `Ignored`. */
  lemma EnqueuedPastLimit()
    ensures Live(BackLinkAfterSeed())
    ensures BackLinkAfterSeed().settings.maxDepth == 0
    ensures Entries(BackLinkAfterSeed())["b"] == Success
    ensures BackLinkAfterSeed().frontier == [Item("x", 1)]
    ensures PageLinks(BackLinkSite(), "x") == ["b"]
  {
    var c0 := Begin(map[], "e", "b", 0, OneHost());
    assert Entries(c0)["b"] == Pending;
  }

  /** With a negative limit the seed is recorded `Ignored` but still enqueued,
      so it is fetched anyway. */
  lemma IgnoredSeedStillFetched()
    ensures var fetch: Fetcher := (u: Url) => Some([]);
            var c0 := Begin(map[], "e", "b", -1, OneHost());
            && Entries(c0)["b"] == Ignored
            && c0.frontier == [Item("b", 0)]
            && Entries(Step(c0, OneHost(), fetch))["b"] == Success
  {
  }
}
