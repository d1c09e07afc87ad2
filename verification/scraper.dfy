/** Admission decision and one sequential crawl step (webscraper/scraper.py). */
module Scraper {
  import opened Wrappers
  import opened Definitions
  import opened Datastore

  /** URL validation and host extraction: `None` for a string that is not a
      well-formed http(s) URL, otherwise the URL's host. */
  type Parser = Url -> Option<Host>

  /** One GET of a page followed by link extraction: `None` for an HTTP error,
      otherwise the absolute links of the page in document order. */
  type Fetcher = Url -> Option<seq<Url>>

  /** A frontier entry: a URL and the depth it was enqueued with. */
  datatype Item = Item(url: Url, depth: nat)

  // ---------------------------------------------------------------------------
  // validate_next_steps

  /** The three store-independent checks pass: the URL parses, the depth is
      within the limit, and the host equals the base URL's host. */
  predicate InScope(settings: Settings, url: Url, depth: int, parse: Parser)
  {
    && parse(url).Some?
    && depth <= settings.maxDepth
    && parse(url) == parse(settings.baseUrl)
  }

  /** The checks in source order; `admitted` is what the last line yields. */
  function Validate(settings: Settings, url: Url, depth: int, parse: Parser, db: Db,
                    admitted: Result<Status>): Result<Status>
  {
    match parse(url)
    case None => Ok(Ignored)
    case Some(host) =>
      if depth > settings.maxDepth then Ok(Ignored)
      else if Some(host) != parse(settings.baseUrl) then Ok(Ignored)
      else
        match GetUrlStatus(db, settings.id, url)
        case Err(e) => Err(e)
        case Ok(status) => if status != Missing then Ok(status) else admitted
  }

  /** `validate_next_steps`: `Ignored` outside the crawl's scope, the stored
      status of a known URL, `Pending` for an unseen one. */
  function ValidateNextSteps(settings: Settings, url: Url, depth: int, parse: Parser, db: Db): (r: Result<Status>)
    ensures !InScope(settings, url, depth, parse) ==> r == Ok(Ignored)
    ensures settings.id in db ==> r.Ok?
    ensures r.Err? ==> r == Err(KeyError) && settings.id !in db
    ensures InScope(settings, url, depth, parse) && settings.id !in db ==> r == Err(KeyError)
    ensures r.Ok? ==> r.value != Missing
    ensures r == Ok(Pending) <==>
              && InScope(settings, url, depth, parse)
              && settings.id in db
              && Get(db[settings.id].status, url) in {None, Some(Missing), Some(Pending)}
    ensures InScope(settings, url, depth, parse) && settings.id in db
            && url in db[settings.id].status.entries && db[settings.id].status.entries[url] != Missing
            ==> r == Ok(db[settings.id].status.entries[url])
  {
    Validate(settings, url, depth, parse, db, Ok(Pending))
  }

  /** `validate_next_steps` as written: the enum has no `PENDING` member, so the
      final `return Status.PENDING` raises AttributeError. */
  function ValidateNextStepsAsWritten(settings: Settings, url: Url, depth: int, parse: Parser, db: Db): (r: Result<Status>)
    ensures r != Ok(Pending) || (settings.id in db && Get(db[settings.id].status, url) == Some(Pending))
    ensures r.Err? && r.error == AttributeError <==>
              && InScope(settings, url, depth, parse)
              && settings.id in db
              && Get(db[settings.id].status, url) in {None, Some(Missing)}
  {
    Validate(settings, url, depth, parse, db, Err(AttributeError))
  }

  /** The store is not consulted when a check before the lookup fails. */
  lemma OutOfScopeIgnoresStore(settings: Settings, url: Url, depth: int, parse: Parser, db1: Db, db2: Db)
    requires !InScope(settings, url, depth, parse)
    ensures ValidateNextSteps(settings, url, depth, parse, db1)
            == ValidateNextSteps(settings, url, depth, parse, db2)
            == Ok(Ignored)
  {
  }

  /** As written, seeding any crawl whose seed parses and whose limit is not
      negative raises AttributeError. */
  lemma SeedRaisesAsWritten(db: Db, id: EventId, baseUrl: Url, maxDepth: int, parse: Parser)
    requires maxDepth >= 0 && parse(baseUrl).Some?
    ensures var a := AddScrapeEvent(db, id, baseUrl, maxDepth);
            ValidateNextStepsAsWritten(a.settings, baseUrl, 0, parse, a.db) == Err(AttributeError)
  {
  }

  /** With `Pending` declared, the same seed is admitted. */
  lemma SeedAdmitted(db: Db, id: EventId, baseUrl: Url, maxDepth: int, parse: Parser)
    requires maxDepth >= 0 && parse(baseUrl).Some?
    ensures var a := AddScrapeEvent(db, id, baseUrl, maxDepth);
            ValidateNextSteps(a.settings, baseUrl, 0, parse, a.db) == Ok(Pending)
  {
  }

  // ---------------------------------------------------------------------------
  // Crawl state

  /** The sequential crawl: the crawl's settings, the store and the FIFO frontier. */
  datatype Crawl = Crawl(settings: Settings, db: Db, frontier: seq<Item>)

  /** The crawl's record exists in the store. */
  predicate Live(c: Crawl)
  {
    c.settings.id in c.db
  }

  /** The status map of the crawl's own record. */
  function Entries(c: Crawl): map<Url, Status>
    requires Live(c)
  {
    c.db[c.settings.id].status.entries
  }

  /** The URLs waiting in a frontier. */
  function Urls(f: seq<Item>): set<Url>
  {
    set i | 0 <= i < |f| :: f[i].url
  }

  /** Largest depth a frontier entry can carry: one past the limit, since a link
      is validated with its page's depth but enqueued one deeper. */
  function DepthBound(settings: Settings): nat
  {
    if settings.maxDepth >= 0 then settings.maxDepth + 1 else 0
  }

  /** What holds between steps of a crawl. */
  ghost predicate Inv(c: Crawl)
  {
    && Live(c)
    && c.db[c.settings.id].settings == c.settings
    // every entry is within the depth bound
    && (forall i :: 0 <= i < |c.frontier| ==> c.frontier[i].depth <= DepthBound(c.settings))
    // every queued URL already has a status
    && (forall i :: 0 <= i < |c.frontier| ==> c.frontier[i].url in Entries(c))
    // `Missing` is never stored, and no fetch is half done
    && (forall u :: u in Entries(c) ==> Entries(c)[u] != Missing && Entries(c)[u] != InProgress)
    // an admitted URL is waiting in the frontier
    && (forall u :: u in Entries(c) && Entries(c)[u] == Pending ==> u in Urls(c.frontier))
  }

  /** `f'` is `f` followed by no more entries than there are links, each one of
      the links at `depth + 1`, and only when `depth` is within the limit. The
      exact frontier equations with `Admitted` imply it; it is the shape the
      termination and invariant proofs work with. */
  ghost predicate Extends(f: seq<Item>, f': seq<Item>, depth: nat, links: seq<Url>, maxDepth: int)
  {
    && |f| <= |f'| <= |f| + |links|
    && f'[..|f|] == f
    && (|f| < |f'| ==> depth <= maxDepth)
    && forall i :: |f| <= i < |f'| ==> f'[i].depth == depth + 1 && f'[i].url in links
  }

  lemma ExtendsTrans(f0: seq<Item>, f1: seq<Item>, f2: seq<Item>, depth: nat, link: Url, rest: seq<Url>, maxDepth: int)
    requires Extends(f0, f1, depth, [link], maxDepth)
    requires Extends(f1, f2, depth, rest, maxDepth)
    ensures Extends(f0, f2, depth, [link] + rest, maxDepth)
  {
    assert f2[..|f0|] == f2[..|f1|][..|f0|];
    forall i | |f0| <= i < |f2|
      ensures f2[i].depth == depth + 1 && f2[i].url in [link] + rest
    {
      if i < |f1| {
        assert f2[i] == f2[..|f1|][i] == f1[i];
      }
    }
  }

  // ---------------------------------------------------------------------------
  // _fetch_page

  /** The store after a fetch and the links the page yields. */
  datatype Fetched = Fetched(db: Db, links: seq<Url>)

  /** The links a fetch yields: none for an HTTP error (the empty body). */
  function PageLinks(fetch: Fetcher, url: Url): seq<Url>
  {
    match fetch(url)
    case Some(links) => links
    case None => []
  }

  /** `_fetch_page`: records `Success` and yields the page's links when the fetch
      succeeds, records `Failed` and yields nothing on an HTTP error. */
  function FetchPage(db: Db, settings: Settings, url: Url, fetch: Fetcher): (r: Fetched)
    requires settings.id in db
    ensures OnlyUrlsChanged(db, r.db, settings.id, {url})
    ensures Get(r.db[settings.id].status, url) == Some(if fetch(url).Some? then Success else Failed)
    ensures fetch(url).Some? ==> r.links == fetch(url).value
    ensures fetch(url).None? ==> r.links == []
  {
    match fetch(url)
    case Some(links) => Fetched(Write(db, settings.id, url, Success), links)
    case None => Fetched(Write(db, settings.id, url, Failed), [])
  }

  // ---------------------------------------------------------------------------
  // The link loop of worker

  /** What the link loop appends, read off the store it starts from: one entry
      one level deeper for each occurrence of a link that validates `Pending`,
      in link order. */
  function Admitted(settings: Settings, db: Db, links: seq<Url>, depth: nat, parse: Parser): seq<Item>
    decreases |links|
  {
    if links == [] then []
    else
      (if ValidateNextSteps(settings, links[0], depth, parse, db) == Ok(Pending)
       then [Item(links[0], depth + 1)] else [])
      + Admitted(settings, db, links[1..], depth, parse)
  }

  /** Recording a link's validation changes no link's validation: other URLs'
      entries are untouched, and the link's own stored result is returned as
      is, a stored `Pending` included. */
  lemma ValidateAfterAdmit(settings: Settings, db: Db, db': Db, link: Url, url: Url, depth: int, parse: Parser)
    requires settings.id in db && settings.id in db'
    requires OnlyUrlsChanged(db, db', settings.id, {link})
    requires Get(db'[settings.id].status, link) == Some(ValidateNextSteps(settings, link, depth, parse, db).value)
    ensures ValidateNextSteps(settings, url, depth, parse, db') == ValidateNextSteps(settings, url, depth, parse, db)
  {
    if url != link {
      assert Get(db'[settings.id].status, url) == Get(db[settings.id].status, url);
    }
  }

  /** `Admitted` depends on the store only through the links' validations. */
  lemma {:induction false} AdmittedSameValidation(settings: Settings, db: Db, db': Db, links: seq<Url>, depth: nat, parse: Parser)
    requires forall l :: l in links ==>
               ValidateNextSteps(settings, l, depth, parse, db') == ValidateNextSteps(settings, l, depth, parse, db)
    ensures Admitted(settings, db', links, depth, parse) == Admitted(settings, db, links, depth, parse)
    decreases |links|
  {
    if links != [] {
      assert links[0] in links;
      AdmittedSameValidation(settings, db, db', links[1..], depth, parse);
    }
  }

  /** One iteration of the link loop: record the link's validation at the page's
      depth, and enqueue it one deeper when it is `Pending`. */
  function AdmitLink(c: Crawl, link: Url, depth: nat, parse: Parser): (r: Crawl)
    requires Live(c)
    ensures r.settings == c.settings && Live(r)
    ensures OnlyUrlsChanged(c.db, r.db, c.settings.id, {link})
    ensures Extends(c.frontier, r.frontier, depth, [link], c.settings.maxDepth)
    ensures Get(r.db[r.settings.id].status, link)
            == Some(ValidateNextSteps(c.settings, link, depth, parse, c.db).value)
    ensures r.frontier != c.frontier <==> Get(r.db[r.settings.id].status, link) == Some(Pending)
    ensures r.frontier == c.frontier + Admitted(c.settings, c.db, [link], depth, parse)
    ensures r.db[c.settings.id].status.order == AppendNew(c.db[c.settings.id].status.order, [link])
    ensures Inv(c) ==> Inv(r)
  {
    var status := ValidateNextSteps(c.settings, link, depth, parse, c.db).value;
    var db := Write(c.db, c.settings.id, link, status);
    var frontier := if status == Pending then c.frontier + [Item(link, depth + 1)] else c.frontier;
    var r := Crawl(c.settings, db, frontier);
    assert frontier[..|c.frontier|] == c.frontier;
    assert Inv(c) ==> Inv(r) by {
      if Inv(c) {
        if InScope(c.settings, link, depth, parse) && link in Entries(c) {
          assert Entries(c)[link] != InProgress && Entries(c)[link] != Missing;
        }
        AdmitLinkKeepsInv(c, r, link, depth, status);
      }
    }
    r
  }

  lemma AdmitLinkKeepsInv(c: Crawl, r: Crawl, link: Url, depth: nat, status: Status)
    requires Inv(c)
    requires status != Missing && status != InProgress
    requires status == Pending ==> depth <= c.settings.maxDepth
    requires r.settings == c.settings && Live(r)
    requires OnlyUrlsChanged(c.db, r.db, c.settings.id, {link})
    requires Get(r.db[r.settings.id].status, link) == Some(status)
    requires r.frontier == if status == Pending then c.frontier + [Item(link, depth + 1)] else c.frontier
    ensures Inv(r)
  {
    var id := c.settings.id;
    forall u | u in Entries(r)
      ensures Entries(r)[u] != Missing && Entries(r)[u] != InProgress
      ensures Entries(r)[u] == Pending ==> u == link || (u in Entries(c) && Entries(c)[u] == Pending)
    {
      if u != link {
        assert Get(r.db[id].status, u) == Get(c.db[id].status, u);
        assert u in Entries(c) && Entries(r)[u] == Entries(c)[u];
      } else {
        assert Entries(r)[u] == status;
      }
    }
    forall i | 0 <= i < |r.frontier|
      ensures r.frontier[i].url in Entries(r)
    {
      if i < |c.frontier| {
        assert r.frontier[i] == c.frontier[i];
      }
    }
    assert Urls(c.frontier) <= Urls(r.frontier) by {
      forall u | u in Urls(c.frontier) ensures u in Urls(r.frontier) {
        var i :| 0 <= i < |c.frontier| && c.frontier[i].url == u;
        assert r.frontier[i] == c.frontier[i];
      }
    }
    if status == Pending {
      assert r.frontier[|c.frontier|].url == link;
    }
  }

  /** The link loop of `worker`, over the page's links in document order. */
  function AdmitLinks(c: Crawl, links: seq<Url>, depth: nat, parse: Parser): (r: Crawl)
    requires Live(c)
    ensures r.settings == c.settings && Live(r)
    ensures OnlyUrlsChanged(c.db, r.db, c.settings.id, set l | l in links)
    ensures Extends(c.frontier, r.frontier, depth, links, c.settings.maxDepth)
    ensures forall l :: l in links ==> l in Entries(r)
    ensures depth > c.settings.maxDepth ==> forall l :: l in links ==> Entries(r)[l] == Ignored
    ensures forall l :: l in links ==> Entries(r)[l] == ValidateNextSteps(c.settings, l, depth, parse, c.db).value
    ensures r.frontier == c.frontier + Admitted(c.settings, c.db, links, depth, parse)
    ensures r.db[c.settings.id].status.order == AppendNew(c.db[c.settings.id].status.order, links)
    ensures Inv(c) ==> Inv(r)
    decreases |links|
  {
    if links == [] then c
    else
      var c1 := AdmitLink(c, links[0], depth, parse);
      var r := AdmitLinks(c1, links[1..], depth, parse);
      AdmitLinksCons(c, c1, r, links, depth);
      AdmitKeepsValidations(c.settings, c.db, c1.db, links[0], links[1..], depth, parse);
      AdmittedCons(c.settings, c.db, c1.db, c.frontier, c1.frontier, r.frontier, links, depth, parse);
      LinkStatusesCons(c, c1, r, links, depth, parse);
      assert AppendNew(c.db[c.settings.id].status.order, links)
             == AppendNew(AppendNew(c.db[c.settings.id].status.order, [links[0]]), links[1..]);
      r
  }

  /** Composes the facts about the first link with those about the rest. */
  lemma AdmitLinksCons(c: Crawl, c1: Crawl, r: Crawl, links: seq<Url>, depth: nat)
    requires links != [] && Live(c)
    requires c1.settings == c.settings && Live(c1)
    requires OnlyUrlsChanged(c.db, c1.db, c.settings.id, {links[0]})
    requires Extends(c.frontier, c1.frontier, depth, [links[0]], c.settings.maxDepth)
    requires links[0] in Entries(c1)
    requires depth > c.settings.maxDepth ==> Entries(c1)[links[0]] == Ignored
    requires r.settings == c1.settings && Live(r)
    requires OnlyUrlsChanged(c1.db, r.db, c1.settings.id, set l | l in links[1..])
    requires Extends(c1.frontier, r.frontier, depth, links[1..], c1.settings.maxDepth)
    requires forall l :: l in links[1..] ==> l in Entries(r)
    requires depth > c1.settings.maxDepth ==> forall l :: l in links[1..] ==> Entries(r)[l] == Ignored
    ensures OnlyUrlsChanged(c.db, r.db, c.settings.id, set l | l in links)
    ensures Extends(c.frontier, r.frontier, depth, links, c.settings.maxDepth)
    ensures forall l :: l in links ==> l in Entries(r)
    ensures depth > c.settings.maxDepth ==> forall l :: l in links ==> Entries(r)[l] == Ignored
  {
    var id := c.settings.id;
    assert links == [links[0]] + links[1..];
    ExtendsTrans(c.frontier, c1.frontier, r.frontier, depth, links[0], links[1..], c.settings.maxDepth);
    OnlyUrlsChangedTrans(c.db, c1.db, r.db, id, {links[0]}, set l | l in links[1..]);
    assert ({links[0]} + set l | l in links[1..]) == set l | l in links;
    if links[0] !in links[1..] {
      assert Get(r.db[id].status, links[0]) == Get(c1.db[id].status, links[0]);
    }
  }

  /** The appended entries are those of the links' validations against the
      starting store, given that recording the first link changed none of the
      rest's validations. */
  lemma AdmittedCons(settings: Settings, db: Db, db1: Db, f: seq<Item>, f1: seq<Item>, fr: seq<Item>,
                     links: seq<Url>, depth: nat, parse: Parser)
    requires links != []
    requires forall l :: l in links[1..] ==>
               ValidateNextSteps(settings, l, depth, parse, db1) == ValidateNextSteps(settings, l, depth, parse, db)
    requires f1 == f + Admitted(settings, db, [links[0]], depth, parse)
    requires fr == f1 + Admitted(settings, db1, links[1..], depth, parse)
    ensures fr == f + Admitted(settings, db, links, depth, parse)
  {
    AdmittedSameValidation(settings, db, db1, links[1..], depth, parse);
    assert Admitted(settings, db, links, depth, parse)
           == Admitted(settings, db, [links[0]], depth, parse) + Admitted(settings, db, links[1..], depth, parse);
  }

  /** Recording one link's validation changes none of the other links'. */
  lemma AdmitKeepsValidations(settings: Settings, db: Db, db1: Db, link: Url, links: seq<Url>, depth: nat, parse: Parser)
    requires settings.id in db && settings.id in db1
    requires OnlyUrlsChanged(db, db1, settings.id, {link})
    requires Get(db1[settings.id].status, link) == Some(ValidateNextSteps(settings, link, depth, parse, db).value)
    ensures forall l :: l in links ==>
              ValidateNextSteps(settings, l, depth, parse, db1) == ValidateNextSteps(settings, l, depth, parse, db)
  {
    forall l | l in links
      ensures ValidateNextSteps(settings, l, depth, parse, db1) == ValidateNextSteps(settings, l, depth, parse, db)
    {
      ValidateAfterAdmit(settings, db, db1, link, l, depth, parse);
    }
  }

  /** Each link's final status is its validation against the starting store. */
  lemma LinkStatusesCons(c: Crawl, c1: Crawl, r: Crawl, links: seq<Url>, depth: nat, parse: Parser)
    requires links != [] && Live(c)
    requires c1.settings == c.settings && Live(c1)
    requires OnlyUrlsChanged(c.db, c1.db, c.settings.id, {links[0]})
    requires Get(c1.db[c.settings.id].status, links[0])
             == Some(ValidateNextSteps(c.settings, links[0], depth, parse, c.db).value)
    requires r.settings == c1.settings && Live(r)
    requires OnlyUrlsChanged(c1.db, r.db, c1.settings.id, set l | l in links[1..])
    requires forall l :: l in links[1..] ==> l in Entries(r)
    requires forall l :: l in links[1..] ==> Entries(r)[l] == ValidateNextSteps(c1.settings, l, depth, parse, c1.db).value
    ensures forall l :: l in links ==>
              (l in Entries(r) && Entries(r)[l] == ValidateNextSteps(c.settings, l, depth, parse, c.db).value)
  {
    forall l | l in links
      ensures l in Entries(r) && Entries(r)[l] == ValidateNextSteps(c.settings, l, depth, parse, c.db).value
    {
      LinkStatusCons(c, c1, r, links, l, depth, parse);
    }
  }

  /** One link's final status after the whole loop: from its last occurrence,
      which validates as its first did. */
  lemma LinkStatusCons(c: Crawl, c1: Crawl, r: Crawl, links: seq<Url>, l: Url, depth: nat, parse: Parser)
    requires links != [] && l in links && Live(c)
    requires c1.settings == c.settings && Live(c1)
    requires OnlyUrlsChanged(c.db, c1.db, c.settings.id, {links[0]})
    requires Get(c1.db[c.settings.id].status, links[0])
             == Some(ValidateNextSteps(c.settings, links[0], depth, parse, c.db).value)
    requires r.settings == c1.settings && Live(r)
    requires OnlyUrlsChanged(c1.db, r.db, c1.settings.id, set l | l in links[1..])
    requires forall l :: l in links[1..] ==> l in Entries(r)
    requires forall l :: l in links[1..] ==> Entries(r)[l] == ValidateNextSteps(c1.settings, l, depth, parse, c1.db).value
    ensures l in Entries(r) && Entries(r)[l] == ValidateNextSteps(c.settings, l, depth, parse, c.db).value
  {
    var id := c.settings.id;
    if l in links[1..] {
      ValidateAfterAdmit(c.settings, c.db, c1.db, links[0], l, depth, parse);
    } else {
      assert l == links[0];
      assert Get(r.db[id].status, l) == Get(c1.db[id].status, l);
    }
  }

  // ---------------------------------------------------------------------------
  // One turn of the worker loop, and the seeding in begin

  /** The first half of a turn of `worker`: pop the oldest entry, mark it
      `InProgress`, then fetch it, which overwrites that mark. */
  function Pop(c: Crawl, fetch: Fetcher): (r: Crawl)
    requires Live(c) && c.frontier != []
    ensures r.settings == c.settings && Live(r)
    ensures r.frontier == c.frontier[1..]
    ensures OnlyUrlsChanged(c.db, r.db, c.settings.id, {c.frontier[0].url})
    ensures Get(r.db[c.settings.id].status, c.frontier[0].url)
            == Some(if fetch(c.frontier[0].url).Some? then Success else Failed)
    ensures r.db[c.settings.id].status.order == AppendNew(c.db[c.settings.id].status.order, [c.frontier[0].url])
    ensures Inv(c) ==> Inv(r)
  {
    var url := c.frontier[0].url;
    var id := c.settings.id;
    var db1 := Write(c.db, id, url, InProgress);
    var fetched := FetchPage(db1, c.settings, url, fetch);
    var r := Crawl(c.settings, fetched.db, c.frontier[1..]);
    OnlyUrlsChangedTrans(c.db, db1, fetched.db, id, {url}, {url});
    assert Inv(c) ==> Inv(r) by {
      if Inv(c) {
        PopKeepsInv(c, r, fetch);
      }
    }
    r
  }

  /** One turn of `worker` with the queue non-empty: `Pop`, then the link loop
      over the fetched page's links at the popped entry's depth. With the queue
      empty the worker only sleeps, so nothing changes. */
  function Step(c: Crawl, parse: Parser, fetch: Fetcher): (r: Crawl)
    requires Live(c)
    ensures r.settings == c.settings && Live(r)
    ensures c.frontier == [] ==> r == c
    ensures c.frontier != [] ==>
              var item := c.frontier[0];
              var links := PageLinks(fetch, item.url);
              && OnlyUrlsChanged(c.db, r.db, c.settings.id, {item.url} + set l | l in links)
              && Extends(c.frontier[1..], r.frontier, item.depth, links, c.settings.maxDepth)
              && (item.url !in links ==>
                    Get(r.db[c.settings.id].status, item.url) == Some(if fetch(item.url).Some? then Success else Failed))
    ensures c.frontier != [] ==>
              var item := c.frontier[0];
              var links := PageLinks(fetch, item.url);
              var fetched := Pop(c, fetch).db;
              && (forall l :: l in links ==>
                    l in Entries(r) && Entries(r)[l] == ValidateNextSteps(c.settings, l, item.depth, parse, fetched).value)
              && r.frontier == c.frontier[1..] + Admitted(c.settings, fetched, links, item.depth, parse)
    ensures c.frontier != [] ==>
              var item := c.frontier[0];
              forall l :: l in PageLinks(fetch, item.url) && l != item.url ==>
                Entries(r)[l] == ValidateNextSteps(c.settings, l, item.depth, parse, c.db).value
    ensures c.frontier != [] ==>
              r.db[c.settings.id].status.order
              == AppendNew(c.db[c.settings.id].status.order, [c.frontier[0].url] + PageLinks(fetch, c.frontier[0].url))
    ensures Inv(c) && c.frontier != [] ==>
              r.db[c.settings.id].status.order
              == AppendNew(c.db[c.settings.id].status.order, PageLinks(fetch, c.frontier[0].url))
    ensures Inv(c) ==> Inv(r)
  {
    if c.frontier == [] then c
    else
      var item := c.frontier[0];
      var id := c.settings.id;
      var popped := Pop(c, fetch);
      var links := PageLinks(fetch, item.url);
      var r := AdmitLinks(popped, links, item.depth, parse);
      OnlyUrlsChangedTrans(c.db, popped.db, r.db, id, {item.url}, set l | l in links);
      assert item.url !in links ==> Get(r.db[id].status, item.url) == Get(popped.db[id].status, item.url);
      FetchKeepsOtherValidations(c, popped, links, item.depth, parse);
      var o := c.db[id].status.order;
      assert AppendNew(o, [item.url] + links) == AppendNew(AppendNew(o, [item.url]), links) by {
        assert ([item.url] + links)[1..] == links;
      }
      assert Inv(c) ==> AppendNew(o, [item.url]) == o by {
        if Inv(c) {
          assert item.url in Entries(c);
        }
      }
      r
  }

  /** Fetching the popped URL changes no other URL's validation. */
  lemma FetchKeepsOtherValidations(c: Crawl, popped: Crawl, links: seq<Url>, depth: nat, parse: Parser)
    requires Live(c) && c.frontier != [] && Live(popped)
    requires OnlyUrlsChanged(c.db, popped.db, c.settings.id, {c.frontier[0].url})
    ensures forall l :: l in links && l != c.frontier[0].url ==>
              ValidateNextSteps(c.settings, l, depth, parse, popped.db)
              == ValidateNextSteps(c.settings, l, depth, parse, c.db)
  {
    var id := c.settings.id;
    forall l | l in links && l != c.frontier[0].url
      ensures ValidateNextSteps(c.settings, l, depth, parse, popped.db)
              == ValidateNextSteps(c.settings, l, depth, parse, c.db)
    {
      assert Get(popped.db[id].status, l) == Get(c.db[id].status, l);
    }
  }

  lemma PopKeepsInv(c: Crawl, popped: Crawl, fetch: Fetcher)
    requires Inv(c) && c.frontier != []
    requires popped.settings == c.settings && Live(popped)
    requires popped.frontier == c.frontier[1..]
    requires OnlyUrlsChanged(c.db, popped.db, c.settings.id, {c.frontier[0].url})
    requires Get(popped.db[c.settings.id].status, c.frontier[0].url) == Some(if fetch(c.frontier[0].url).Some? then Success else Failed)
    ensures Inv(popped)
  {
    var u0 := c.frontier[0].url;
    var id := c.settings.id;
    forall u | u in Entries(popped)
      ensures Entries(popped)[u] != Missing && Entries(popped)[u] != InProgress
    {
      if u != u0 {
        assert Get(popped.db[id].status, u) == Get(c.db[id].status, u);
      }
    }
    forall u | u in Entries(popped) && Entries(popped)[u] == Pending
      ensures u in Urls(popped.frontier)
    {
      assert u != u0;
      assert Get(popped.db[id].status, u) == Get(c.db[id].status, u);
      var i :| 0 <= i < |c.frontier| && c.frontier[i].url == u;
      assert i != 0;
      assert popped.frontier[i - 1] == c.frontier[i];
    }
    forall i | 0 <= i < |popped.frontier|
      ensures popped.frontier[i].url in Entries(popped)
    {
      assert popped.frontier[i] == c.frontier[i + 1];
    }
  }

  /** The seeding in `begin`: create the crawl, record the seed's validation at
      depth 0, and enqueue the seed at depth 0 whatever that validation said. */
  function Begin(db: Db, id: EventId, baseUrl: Url, maxDepth: int, parse: Parser): (r: Crawl)
    ensures r.settings == Settings(id, maxDepth, baseUrl)
    ensures r.frontier == [Item(baseUrl, 0)]
    ensures r.db.Keys == db.Keys + {id}
    ensures forall k :: k in db && k != id ==> r.db[k] == db[k]
    ensures Entries(r) == map[baseUrl := if InScope(r.settings, baseUrl, 0, parse) then Pending else Ignored]
    ensures Inv(r)
  {
    var added := AddScrapeEvent(db, id, baseUrl, maxDepth);
    var status := ValidateNextSteps(added.settings, baseUrl, 0, parse, added.db).value;
    var r := Crawl(added.settings, Write(added.db, id, baseUrl, status), [Item(baseUrl, 0)]);
    assert baseUrl in Urls(r.frontier) by {
      assert r.frontier[0].url == baseUrl;
    }
    r
  }
}
