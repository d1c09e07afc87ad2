# webscraper core in Dafny

A model of the crawl core of `webscraper`. The crawler starts at a base URL. It
visits same-host pages up to a depth limit and records one status per URL in an
in-memory event store. The model has three parts:

- **The event store** (`Db`). It maps a crawl id to a record holding the crawl's
  settings and a URL→status dictionary. Python dictionaries keep keys in
  first-insertion order, so the dictionary is modelled as a map plus the
  sequence of its keys in that order. The store operations are create, read
  settings, set status, get status (`Missing` when the URL has no entry) and
  stats. Stats gives one URL list per status.
- **The admission decision** (`validate_next_steps`). Its checks run in source
  order: parse, depth, host, then the store lookup. URL parsing is a parameter
  `Parser = Url -> Option<Host>`. The store is passed in explicitly instead of
  being read from the global `get_db()`.
- **The crawl**, modelled sequentially. The state is the crawl's settings, the
  store and a FIFO frontier of `(url, depth)` entries. `Begin` creates the event,
  validates the seed at depth 0, records that status and enqueues `(seed, 0)`
  whatever the status was. `Step` is one turn of the worker loop:
  1. pop an entry and record `InProgress` for it;
  2. fetch it, recording `Success` or `Failed`;
  3. for each link on the page, record its validation at the page's depth `d`;
  4. enqueue `(link, d + 1)` only when that status is `Pending`.

  Fetching plus link extraction is a parameter `Fetcher = Url -> Option<seq<Url>>`,
  where `None` stands for an HTTP error. `Run` repeats `Step` until the frontier
  is empty.

Main results:
- `Step` preserves an invariant (`Scraper.Inv`):
  - every frontier entry has depth ≤ `max_depth + 1` (or 0 when `max_depth` is negative);
  - every queued URL already has a status;
  - `Missing` and `InProgress` are never stored between steps;
  - every URL stored as `Pending` is waiting in the frontier.
- A step changes only the current crawl's map, and there only the popped URL and
  the page's links.
- `Run` terminates on every site. The frontier is layered: in FIFO order its
  depths never decrease and span at most two adjacent levels. Each step either
  moves the head one level deeper, towards the depth bound, or leaves one entry
  fewer at the head's level.
- A step's outcome is determined exactly. Each link on the page ends with its
  validation against the store as it was after the fetch. The frontier grows by
  one entry `(link, d + 1)` for each occurrence of a link that validates
  `Pending`, in page order. The URLs recorded for the first time join the map's
  insertion order at its end, in page order. Every other URL keeps its status
  and its place.
- After a complete crawl every recorded URL is `Success`, `Failed` or `Ignored`.
  The stats buckets for the other statuses are empty.

Three behaviours of the worker loop are proved on small sites (module `Quirks`):
- A link that occurs twice on a page is enqueued twice. Its second validation
  finds the stored `Pending` and returns it unchanged, and `Pending` means
  "enqueue".
- With `max_depth = 0`, a link on the seed page is enqueued at depth 1 and still
  fetched.
- A page deeper than the limit records every link it finds as `Ignored`. That
  includes links back to pages already recorded as `Success`.

Behaviours of the code that a reader might not expect:
- `add_scrape_event` has no duplicate check; re-adding an id replaces the event.
- Links are validated when they are discovered, not when they are popped. The
  seed is validated once, up front.
- The terminal statuses are not immutable: see the `Ignored` overwrite above.
- Nothing retries on an HTTP status code. The HTTP client's connection retries
  are library configuration.

## Model

| member | source | states |
|---|---|---|
| `Definitions.TokenRoundTrip` | webscraper/definitions.py:11-20 | every status is recovered from its string token |
| `Definitions.FromTokenSound` | webscraper/definitions.py:11-20 | a token that names a status is that status's token; any other string names no status |
| `Definitions.TokenInjective` | webscraper/definitions.py:11-20 | two statuses have the same token exactly when they are the same status |
| `Definitions.StatusesEnumerated` | webscraper/definitions.py:11-20 | the declared members are exactly the statuses other than the added `Pending`; the enumeration lists each status once |
| `Definitions.Put` | webscraper/datastore.py:36 | assigning a URL's status: that URL then reads back the new status, every other URL reads as before, a new key is appended to the insertion order, and an existing key keeps its place |
| `Definitions.AppendNewExtends` | webscraper/datastore.py:36 | assigning URLs one by one to an insertion-ordered dictionary keeps the old key order as a prefix, adds exactly the new URLs, each once, and repeats no key |
| `Definitions.NewEvent` | webscraper/definitions.py:31-35 | a new crawl record keeps its settings and has an empty status map |
| `Datastore.AddScrapeEvent` | webscraper/datastore.py:20-26 | returns settings with exactly the given id, base URL and depth limit; afterwards the crawl exists with an empty map, replacing any earlier crawl with that id; other crawls are unchanged |
| `Datastore.GetScrapeEventSettings` | webscraper/datastore.py:28-32 | KeyError exactly when the crawl is unknown, otherwise the stored settings |
| `Datastore.SetUrlStatus` | webscraper/datastore.py:34-36 | KeyError exactly when the crawl is unknown; otherwise the URL has the new status, and no other URL or crawl changes |
| `Datastore.GetUrlStatus` | webscraper/datastore.py:38-42 | KeyError exactly when the crawl is unknown; `Missing` for a URL without an entry, the stored status otherwise |
| `Datastore.SetThenGet` | webscraper/datastore.py:34-42 | a write is seen by the next read of the same URL of the same crawl and by no other read |
| `Datastore.MissingMeansAbsent` | webscraper/datastore.py:38-42 | when `Missing` is never stored, `get_url_status` answers `Missing` exactly for URLs without an entry |
| `Datastore.GetScrapeStats` | webscraper/datastore.py:44-55 | KeyError exactly when the crawl is unknown; otherwise one bucket per status, equal to the map's URLs with that status in first-insertion order |
| `Datastore.BucketMembership` | webscraper/datastore.py:49-54 | a URL is in a status's bucket exactly when it is stored with that status, so it is in its own bucket and no other |
| `Datastore.BucketInInsertionOrder` | webscraper/datastore.py:50-54 | no bucket lists a URL twice, and each bucket keeps first-insertion order |
| `Datastore.BucketsPartition` | webscraper/datastore.py:49-54 | the bucket sizes sum to the number of stored URLs |
| `Datastore.FreshEventStatsEmpty` | webscraper/datastore.py:44-55 | every bucket of a freshly added crawl is empty |
| `Scraper.ValidateNextSteps` | webscraper/scraper.py:50-78 | `Ignored` when the URL does not parse, is deeper than the limit or is on another host; otherwise the stored status of a known URL (a stored `Pending` included), and `Pending` exactly for a URL with no entry; never `Missing`; KeyError exactly when the lookup is reached for an unknown crawl, that is, when the URL is in scope and the crawl is unknown |
| `Scraper.OutOfScopeIgnoresStore` | webscraper/scraper.py:54-71 | when a check before the lookup fails, the result is `Ignored` whatever the store holds |
| `Scraper.ValidateNextStepsAsWritten` | webscraper/scraper.py:73-78 | as written, validation raises AttributeError exactly when an in-scope URL has no entry, because the enum lacks `PENDING` |
| `Scraper.SeedRaisesAsWritten` | webscraper/scraper.py:130-131 | as written, seeding a crawl whose base URL parses and whose limit is not negative raises AttributeError |
| `Scraper.SeedAdmitted` | webscraper/scraper.py:130-134 | with `Pending` declared, the same seed is admitted as `Pending` |
| `Scraper.FetchPage` | webscraper/scraper.py:26-34 | records `Success` and yields the page's links when the fetch succeeds; records `Failed` and yields no links on an HTTP error; nothing else changes |
| `Scraper.ValidateAfterAdmit` | webscraper/scraper.py:73-78 | recording a link's validation changes no URL's validation: other URLs' entries are untouched, and a recorded status, `Pending` included, is returned as is |
| `Scraper.AdmitLink` | webscraper/scraper.py:102-109 | records the link's validation at the page's depth, and enqueues `(link, depth + 1)` exactly when that status is `Pending`; preserves the crawl invariant |
| `Scraper.AdmitLinks` | webscraper/scraper.py:102-109 | over all links in order: each link ends with its validation against the starting store (a repeated link validates as it did the first time, since a stored `Pending` is returned unchanged); the frontier grows by exactly one `(link, depth + 1)` per occurrence of a link that validates `Pending`, in link order; links seen for the first time join the key order at the end, in link order; only the links' statuses change; past the limit every link is `Ignored`; preserves the crawl invariant |
| `Scraper.Pop` | webscraper/scraper.py:93-100 | pops the oldest entry; its URL ends `Success` or `Failed` according to the fetch, and joins the key order only if it had no entry; nothing else changes; preserves the crawl invariant |
| `Scraper.Step` | webscraper/scraper.py:91-113 | one worker turn changes only the current crawl's map (the popped URL and the page's links); every link ends with its validation against the store after the fetch, which for a link other than the popped URL is its validation against the store before the turn; the frontier becomes the rest of the queue followed by one `(link, d + 1)` per occurrence of a link that validates `Pending`; newly recorded URLs join the key order at the end in page order, after the popped URL when that one was new; the settings and the invariant, including the depth bound `max_depth + 1`, are kept; an empty frontier leaves everything unchanged |
| `Scraper.Begin` | webscraper/scraper.py:122-134 | the crawl is created with only the seed recorded (`Pending` when in scope, `Ignored` otherwise), the seed is enqueued at depth 0 either way, other crawls are unchanged, and the invariant holds |
| `Crawl.StepDecreases` | webscraper/scraper.py:93-109 | a step on a non-empty layered frontier keeps it layered (depths non-decreasing in FIFO order, spanning two adjacent levels) and either moves the head one level deeper or leaves one entry fewer at the head's level |
| `Crawl.Run` | webscraper/scraper.py:137-146 | from any layered frontier, on every site, the loop reaches an empty frontier, keeps the invariant, changes no other crawl, never drops a URL, and leaves only `Success`, `Failed` and `Ignored` stored |
| `Crawl.CrawlSite` | webscraper/scraper.py:116-148 | a whole crawl on any site terminates, records the seed, leaves every recorded status terminal, and changes no crawl other than its own |
| `Crawl.TerminalStats` | webscraper/datastore.py:44-55 | when every status is terminal, the `InProgress`, `Missing` and `Pending` buckets are empty and the other three cover all URLs |
| `Crawl.CompletedCrawlStats` | webscraper/scraper.py:151-153 | the results of a complete crawl have empty `InProgress`, `Missing` and `Pending` buckets |
| `Quirks.DuplicateLinkQueuedTwice` | webscraper/scraper.py:102-109 | a link occurring twice on the seed page is enqueued twice |
| `Quirks.PastLimitPageIgnoresLinks` | webscraper/scraper.py:61-63 | a page deeper than the limit enqueues nothing and records every link it finds as `Ignored`, whatever was stored before |
| `Quirks.EnqueuedPastLimit` | webscraper/scraper.py:104-109 | with limit 0, a link on the seed page is enqueued at depth 1 while the seed is `Success` |
| `Quirks.IgnoredSeedStillFetched` | webscraper/scraper.py:131-134 | with a negative limit the seed is recorded `Ignored`, still enqueued, and fetched by the next step |

## Left out

- asyncio machinery: the queue's `task_done`/`join`, the one-second polling sleep,
  the shutdown event, the signal handlers and `gather`. Concurrency is outside a
  sequential model, so the worker count and interleavings are not modelled. An
  empty-frontier turn is a no-op.
- HTTP I/O through httpx, and the client's timeouts, pool limits and connection
  retries. These are foreign network calls, replaced by the `Fetcher` parameter.
  An exception other than `httpx.HTTPError` would end the worker; it is not
  modelled.
- `_extract_links` (BeautifulSoup parsing, `urljoin` resolution, skipping of
  invalid hrefs). These are foreign libraries; `Fetcher` returns their result.
  The model does not require `Fetcher`'s links to pass `Parser`. A link that
  does not parse is recorded `Ignored` and shows up in the stats. The source's
  extractor drops such a link before validation, so it is never recorded. On a
  `Fetcher` whose links all parse, as the source's do, the two agree.
- pydantic `HttpUrl` validation, host extraction and URL canonicalisation. These
  are foreign; they are the `Parser` parameter, and URLs are taken to be
  canonical strings. The base URL's host is `Parser` applied to the base URL. A
  base URL that does not parse (impossible for a real `HttpUrl`) makes every
  candidate off-host.
- The stats guard `url not in outcome[status]` compares an `HttpUrl` key with
  encoded strings in the source. The model compares strings. Dictionary keys are
  distinct, so in the model the guard never skips a URL.
- `uuid4` (the crawl id is a parameter), the `lru_cache` singletons (store and
  settings are passed explicitly), environment settings, logging, the CLI with
  its JSON output, and the tests.
- The URL→status map is immutable data, so `get_scrape_stats` and
  `validate_next_steps` cannot write to the store. That read-only property is
  structural and has no separate contract.
- `Crawl.Run`: requires the frontier to be layered. `Begin` establishes this
  and `Step` preserves it, so every crawl the source can reach meets it.
- `Scraper.Step`: states the final status of the popped URL only when the page
  does not link to itself. A self-link re-validates the URL, which may then be
  recorded `Ignored`.

## Findings

| source | as written | input that shows it | evidently intended | confidence | as-written member | corrected member |
|---|---|---|---|---|---|---|
| webscraper/scraper.py:78 | the enum at webscraper/definitions.py:11-20 has no `PENDING`, yet line 78 returns `Status.PENDING` (and line 106 compares with it), which raises AttributeError | `begin` with a base URL that parses and `max_depth >= 0`: validating the seed at depth 0 on the fresh crawl reaches line 78 | a `PENDING` member, returned for an in-scope URL with no entry | high, not executed | `Scraper.SeedRaisesAsWritten` (on `Scraper.ValidateNextStepsAsWritten`) | `Scraper.SeedAdmitted` (on `Scraper.ValidateNextSteps`, which the crawl uses) |
