/** The in-memory event store `Db` (webscraper/datastore.py). */
module Datastore {
  import opened Wrappers
  import opened Definitions

  /** The store: crawl id to crawl record. */
  type Db = map<EventId, ScrapeEvent>

  /** Every crawl other than `id` is untouched, and no crawl appears or disappears. */
  predicate OtherEventsUnchanged(db: Db, db': Db, id: EventId)
  {
    && db'.Keys == db.Keys
    && forall k :: k in db && k != id ==> db'[k] == db[k]
  }

  /** `db'` differs from `db` only in the status map of crawl `id`, and there only
      at the URLs in `changed`; settings stay, keys keep their first-insertion places. */
  ghost predicate OnlyUrlsChanged(db: Db, db': Db, id: EventId, changed: set<Url>)
  {
    && OtherEventsUnchanged(db, db', id)
    && (id in db ==>
          && db'[id].settings == db[id].settings
          && |db[id].status.order| <= |db'[id].status.order|
          && db'[id].status.order[..|db[id].status.order|] == db[id].status.order
          && db[id].status.entries.Keys <= db'[id].status.entries.Keys
          && forall u :: u !in changed ==> Get(db'[id].status, u) == Get(db[id].status, u))
  }

  lemma OnlyUrlsChangedTrans(a: Db, b: Db, c: Db, id: EventId, x: set<Url>, y: set<Url>)
    requires OnlyUrlsChanged(a, b, id, x) && OnlyUrlsChanged(b, c, id, y)
    ensures OnlyUrlsChanged(a, c, id, x + y)
  {
    if id in a {
      var oa, ob, oc := a[id].status.order, b[id].status.order, c[id].status.order;
      assert oc[..|oa|] == oc[..|ob|][..|oa|];
    }
  }

  /** The result of `add_scrape_event`: the new store and the settings returned. */
  datatype Added = Added(db: Db, settings: Settings)

  /** `add_scrape_event`: registers crawl `id` with an empty status map,
      replacing any crawl already stored under `id`. */
  function AddScrapeEvent(db: Db, id: EventId, baseUrl: Url, maxDepth: int): (r: Added)
    ensures r.settings.id == id && r.settings.baseUrl == baseUrl && r.settings.maxDepth == maxDepth
    ensures r.db.Keys == db.Keys + {id}
    ensures r.db[id].settings == r.settings
    ensures r.db[id].status.order == [] && forall u :: Get(r.db[id].status, u) == None
    ensures forall k :: k in db && k != id ==> r.db[k] == db[k]
  {
    var settings := Settings(id, maxDepth, baseUrl);
    Added(db[id := NewEvent(settings)], settings)
  }

  /** `get_scrape_event_settings`: KeyError for an unknown crawl. */
  function GetScrapeEventSettings(db: Db, id: EventId): (r: Result<Settings>)
    ensures r.Err? <==> id !in db
    ensures r.Err? ==> r.error == KeyError
    ensures r.Ok? ==> r.value == db[id].settings
  {
    if id !in db then Err(KeyError) else Ok(db[id].settings)
  }

  /** The assignment `db[id].status[url] = status` on a crawl known to exist. */
  function Write(db: Db, id: EventId, url: Url, status: Status): (r: Db)
    requires id in db
    ensures OnlyUrlsChanged(db, r, id, {url})
    ensures Get(r[id].status, url) == Some(status)
    ensures r[id].status.order == AppendNew(db[id].status.order, [url])
  {
    db[id := ScrapeEvent(db[id].settings, Put(db[id].status, url, status))]
  }

  /** `set_url_status`: KeyError for an unknown crawl. */
  function SetUrlStatus(db: Db, id: EventId, url: Url, status: Status): (r: Result<Db>)
    ensures r.Err? <==> id !in db
    ensures r.Err? ==> r.error == KeyError
    ensures r.Ok? ==> OnlyUrlsChanged(db, r.value, id, {url})
    ensures r.Ok? ==> Get(r.value[id].status, url) == Some(status)
  {
    if id !in db then Err(KeyError) else Ok(Write(db, id, url, status))
  }

  /** `get_url_status`: `Missing` for a URL without an entry, the stored status
      otherwise; KeyError for an unknown crawl. */
  function GetUrlStatus(db: Db, id: EventId, url: Url): (r: Result<Status>)
    ensures r.Err? <==> id !in db
    ensures r.Err? ==> r.error == KeyError
    ensures id in db && url !in db[id].status.entries ==> r == Ok(Missing)
    ensures id in db && url in db[id].status.entries ==> r == Ok(db[id].status.entries[url])
  {
    if id !in db then Err(KeyError)
    else if url !in db[id].status.entries then Ok(Missing)
    else Ok(db[id].status.entries[url])
  }

  /** A write is seen by the next read of the same URL, and by no other read. */
  lemma SetThenGet(db: Db, id: EventId, url: Url, status: Status, other: EventId, v: Url)
    requires id in db
    ensures SetUrlStatus(db, id, url, status).Ok?
    ensures var db' := SetUrlStatus(db, id, url, status).value;
            GetUrlStatus(db', other, v)
            == if other == id && v == url then Ok(status) else GetUrlStatus(db, other, v)
  {
  }

  /** If `Missing` is never stored, `get_url_status` answers `Missing` exactly for
      the URLs without an entry. */
  lemma MissingMeansAbsent(db: Db, id: EventId, url: Url)
    requires id in db
    requires forall u :: u in db[id].status.entries ==> db[id].status.entries[u] != Missing
    ensures GetUrlStatus(db, id, url) == Ok(Missing) <==> url !in db[id].status.entries
  {
  }

  // ---------------------------------------------------------------------------
  // Stats

  /** One list of URLs per status. */
  type Stats = map<Status, seq<Url>>

  /** Reference definition of a bucket: the keys of `xs` whose status in
      `entries` is `s`, in the order of `xs`. */
  function Filter(xs: seq<Url>, entries: map<Url, Status>, s: Status): seq<Url>
    requires forall x :: x in xs ==> x in entries
  {
    if xs == [] then []
    else
      var last := xs[|xs| - 1];
      Filter(xs[..|xs| - 1], entries, s) + (if entries[last] == s then [last] else [])
  }

  /** The URLs of `m` with status `s`, in first-insertion order. */
  function Bucket(m: UrlStatusMap, s: Status): seq<Url>
  {
    Filter(m.order, m.entries, s)
  }

  lemma {:induction false} FilterMembership(xs: seq<Url>, entries: map<Url, Status>, s: Status, u: Url)
    requires forall x :: x in xs ==> x in entries
    ensures u in Filter(xs, entries, s) <==> u in xs && entries[u] == s
    decreases |xs|
  {
    if xs != [] {
      var init := xs[..|xs| - 1];
      assert xs == init + [xs[|xs| - 1]];
      FilterMembership(init, entries, s, u);
    }
  }

  lemma {:induction false} FilterDistinct(xs: seq<Url>, entries: map<Url, Status>, s: Status)
    requires forall x :: x in xs ==> x in entries
    requires Distinct(xs)
    ensures Distinct(Filter(xs, entries, s))
    decreases |xs|
  {
    if xs != [] {
      var init := xs[..|xs| - 1];
      var last := xs[|xs| - 1];
      assert xs == init + [last];
      FilterDistinct(init, entries, s);
      FilterMembership(init, entries, s, last);
    }
  }

  /** Position of the first occurrence of `x` in `xs`. */
  function IndexOf(xs: seq<Url>, x: Url): (i: nat)
    requires x in xs
    ensures i < |xs| && xs[i] == x
    ensures forall j :: 0 <= j < i ==> xs[j] != x
  {
    if xs[0] == x then 0 else 1 + IndexOf(xs[1..], x)
  }

  lemma IndexOfPrefix(xs: seq<Url>, ys: seq<Url>, x: Url)
    requires x in xs
    ensures x in xs + ys && IndexOf(xs + ys, x) == IndexOf(xs, x)
  {
    var i, k := IndexOf(xs, x), IndexOf(xs + ys, x);
    assert (xs + ys)[i] == x;
  }

  /** The elements of `b` occur in `xs`, and in the same relative order. */
  ghost predicate OrderedBy(b: seq<Url>, xs: seq<Url>)
  {
    forall i, j :: 0 <= i < j < |b| ==> Before(xs, b[i], b[j])
  }

  /** `x` and `y` occur in `xs`, `x` first. */
  ghost predicate Before(xs: seq<Url>, x: Url, y: Url)
  {
    x in xs && y in xs && IndexOf(xs, x) < IndexOf(xs, y)
  }

  lemma FilterLastIsLatest(xs: seq<Url>, entries: map<Url, Status>, s: Status, i: nat)
    requires forall x :: x in xs ==> x in entries
    requires Distinct(xs) && xs != []
    requires i < |Filter(xs[..|xs| - 1], entries, s)|
    ensures Filter(xs[..|xs| - 1], entries, s)[i] in xs
    ensures IndexOf(xs, Filter(xs[..|xs| - 1], entries, s)[i]) < |xs| - 1
    ensures IndexOf(xs, Filter(xs[..|xs| - 1], entries, s)[i])
            == IndexOf(xs[..|xs| - 1], Filter(xs[..|xs| - 1], entries, s)[i])
  {
    var init := xs[..|xs| - 1];
    var x := Filter(init, entries, s)[i];
    FilterMembership(init, entries, s, x);
    assert xs == init + [xs[|xs| - 1]];
    IndexOfPrefix(init, [xs[|xs| - 1]], x);
  }

  lemma {:induction false} FilterOrdered(xs: seq<Url>, entries: map<Url, Status>, s: Status)
    requires forall x :: x in xs ==> x in entries
    requires Distinct(xs)
    ensures OrderedBy(Filter(xs, entries, s), xs)
    decreases |xs|
  {
    if xs != [] {
      var init := xs[..|xs| - 1];
      var last := xs[|xs| - 1];
      var bi := Filter(init, entries, s);
      var b := Filter(xs, entries, s);
      assert b == bi + (if entries[last] == s then [last] else []);
      assert Distinct(init) by {
        forall i, j | 0 <= i < j < |init| ensures init[i] != init[j] {
          assert init[i] == xs[i] && init[j] == xs[j];
        }
      }
      FilterOrdered(init, entries, s);
      forall i, j | 0 <= i < j < |b|
        ensures Before(xs, b[i], b[j])
      {
        assert b[i] == bi[i];
        FilterLastIsLatest(xs, entries, s, i);
        if j < |bi| {
          assert b[j] == bi[j];
          FilterLastIsLatest(xs, entries, s, j);
        } else {
          assert b[j] == last;
          assert IndexOf(xs, last) == |xs| - 1;
        }
      }
    }
  }

  /** Sum of the bucket sizes over every status. */
  function BucketSizes(xs: seq<Url>, entries: map<Url, Status>): nat
    requires forall x :: x in xs ==> x in entries
  {
    |Filter(xs, entries, InProgress)| + |Filter(xs, entries, Failed)| + |Filter(xs, entries, Success)|
    + |Filter(xs, entries, Missing)| + |Filter(xs, entries, Ignored)| + |Filter(xs, entries, Pending)|
  }

  lemma {:induction false} BucketSizesCount(xs: seq<Url>, entries: map<Url, Status>)
    requires forall x :: x in xs ==> x in entries
    ensures BucketSizes(xs, entries) == |xs|
    decreases |xs|
  {
    if xs != [] {
      var init := xs[..|xs| - 1];
      assert xs == init + [xs[|xs| - 1]];
      BucketSizesCount(init, entries);
    }
  }

  lemma {:induction false} DistinctCard(xs: seq<Url>)
    requires Distinct(xs)
    ensures |set x | x in xs| == |xs|
    decreases |xs|
  {
    if xs != [] {
      var init := xs[..|xs| - 1];
      var last := xs[|xs| - 1];
      assert xs == init + [last];
      DistinctCard(init);
      assert (set x | x in xs) == (set x | x in init) + {last};
    }
  }

  /** Each stored URL is in the bucket of its own status and in no other. */
  lemma BucketMembership(m: UrlStatusMap, s: Status, u: Url)
    ensures u in Bucket(m, s) <==> u in m.entries && m.entries[u] == s
  {
    FilterMembership(m.order, m.entries, s, u);
  }

  /** A bucket lists each URL once, in first-insertion order. */
  lemma BucketInInsertionOrder(m: UrlStatusMap, s: Status)
    ensures Distinct(Bucket(m, s))
    ensures OrderedBy(Bucket(m, s), m.order)
  {
    FilterDistinct(m.order, m.entries, s);
    FilterOrdered(m.order, m.entries, s);
  }

  /** The bucket sizes add up to the number of stored URLs. */
  lemma BucketsPartition(m: UrlStatusMap)
    ensures BucketSizes(m.order, m.entries) == |m.order| == |m.entries|
  {
    BucketSizesCount(m.order, m.entries);
    DistinctCard(m.order);
    assert m.entries.Keys == set x | x in m.order;
  }

  /** All buckets are empty on a freshly added crawl. */
  lemma FreshEventStatsEmpty(db: Db, id: EventId, baseUrl: Url, maxDepth: int, s: Status)
    ensures Bucket(AddScrapeEvent(db, id, baseUrl, maxDepth).db[id].status, s) == []
  {
  }

  /** `get_scrape_stats`: one bucket per status, filled by one pass over the
      status map in first-insertion order; KeyError for an unknown crawl. */
  method GetScrapeStats(db: Db, id: EventId) returns (r: Result<Stats>)
    ensures r.Err? <==> id !in db
    ensures r.Err? ==> r.error == KeyError
    ensures r.Ok? ==> forall s :: s in r.value && r.value[s] == Bucket(db[id].status, s)
  {
    if id !in db {
      return Err(KeyError);
    }
    var event := db[id];
    var order, entries := event.status.order, event.status.entries;
    var outcome: Stats := map s | s in AllStatuses :: [];
    forall s ensures s in AllStatuses {
      StatusesEnumerated(s);
    }
    var i := 0;
    while i < |order|
      invariant 0 <= i <= |order|
      invariant forall s :: s in outcome && outcome[s] == Filter(order[..i], entries, s)
    {
      var url := order[i];
      var status := entries[url];
      assert order[..i + 1][..i] == order[..i];
      assert url !in order[..i] by {
        forall k | 0 <= k < i ensures order[k] != url {
          assert order[k] == order[..i][k];
        }
      }
      FilterMembership(order[..i], entries, status, url);
      if url !in outcome[status] {
        outcome := outcome[status := outcome[status] + [url]];
      }
      i := i + 1;
    }
    assert order[..i] == order;
    return Ok(outcome);
  }
}
