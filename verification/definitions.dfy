/** Statuses, per-crawl settings and the per-crawl record (webscraper/definitions.py). */
module Definitions {
  import opened Wrappers

  /** Absolute URLs, as their encoded strings. */
  type Url = string
  /** Host part of a parsed URL. */
  type Host = string
  /** Crawl identifier (a UUID in the source). */
  type EventId = string

  /** Outcome of a URL. `Pending` is not declared by the source enum; see README. */
  datatype Status = InProgress | Failed | Success | Missing | Ignored | Pending

  /** The members the source enum declares, in declaration order. */
  const DeclaredStatuses: seq<Status> := [InProgress, Failed, Success, Missing, Ignored]

  /** Every member of the model's enum: the declared ones, then `Pending`. */
  const AllStatuses: seq<Status> := DeclaredStatuses + [Pending]

  /** The string token a status serialises to. */
  function Token(s: Status): string
  {
    match s
    case InProgress => "inprogress"
    case Failed => "failed"
    case Success => "success"
    case Missing => "missing"
    case Ignored => "ignored"
    case Pending => "pending"
  }

  /** Lookup of a status by its token, as `Status(token)` does. */
  function FromToken(t: string): Option<Status>
  {
    if t == "inprogress" then Some(InProgress)
    else if t == "failed" then Some(Failed)
    else if t == "success" then Some(Success)
    else if t == "missing" then Some(Missing)
    else if t == "ignored" then Some(Ignored)
    else if t == "pending" then Some(Pending)
    else None
  }

  /** Every status is recovered from its token. */
  lemma TokenRoundTrip(s: Status)
    ensures FromToken(Token(s)) == Some(s)
  {
  }

  /** A token that names a status is exactly that status's token. */
  lemma FromTokenSound(t: string)
    ensures FromToken(t).Some? ==> Token(FromToken(t).value) == t
    ensures FromToken(t).None? ==> forall s :: Token(s) != t
  {
    if FromToken(t).None? {
      forall s ensures Token(s) != t {
        TokenRoundTrip(s);
      }
    }
  }

  /** Distinct statuses have distinct tokens. */
  lemma TokenInjective(a: Status, b: Status)
    ensures Token(a) == Token(b) <==> a == b
  {
    TokenRoundTrip(a);
    TokenRoundTrip(b);
  }

  /** The declared members are exactly the statuses other than `Pending`,
      and the enumeration lists each status once. */
  lemma StatusesEnumerated(s: Status)
    ensures s in DeclaredStatuses <==> !s.Pending?
    ensures s in AllStatuses
    ensures Distinct(AllStatuses)
  {
  }

  /** Immutable per-crawl configuration. */
  datatype Settings = Settings(id: EventId, maxDepth: int, baseUrl: Url)

  /** No element occurs twice. */
  predicate Distinct<T(==)>(xs: seq<T>)
  {
    forall i, j :: 0 <= i < j < |xs| ==> xs[i] != xs[j]
  }

  /** A dictionary from URL to status that remembers first-insertion order:
      `order` lists the keys, oldest first. */
  datatype StatusMap = StatusMap(order: seq<Url>, entries: map<Url, Status>)
  {
    predicate Valid()
    {
      && Distinct(order)
      && (forall u :: u in order ==> u in entries)
      && (forall u :: u in entries ==> u in order)
    }
  }

  type UrlStatusMap = m: StatusMap | m.Valid() witness StatusMap([], map[])

  const EmptyStatusMap: UrlStatusMap := StatusMap([], map[])

  /** The status stored for `u`, if any. */
  function Get(m: UrlStatusMap, u: Url): Option<Status>
  {
    if u in m.entries then Some(m.entries[u]) else None
  }

  /** `m[u] = s` on an insertion-ordered dictionary: a new key goes to the end,
      an existing key keeps its place. */
  function Put(m: UrlStatusMap, u: Url, s: Status): (r: UrlStatusMap)
    ensures Get(r, u) == Some(s)
    ensures forall v :: v != u ==> Get(r, v) == Get(m, v)
    ensures |m.order| <= |r.order| && r.order[..|m.order|] == m.order
    ensures u in m.entries ==> r.order == m.order
    ensures u !in m.entries ==> r.order == m.order + [u]
  {
    if u in m.entries then StatusMap(m.order, m.entries[u := s])
    else StatusMap(m.order + [u], m.entries[u := s])
  }

  /** The key order after assigning `urls` one by one: each URL not yet present
      goes to the end, at its first occurrence. */
  function AppendNew(order: seq<Url>, urls: seq<Url>): seq<Url>
    decreases |urls|
  {
    if urls == [] then order
    else AppendNew(if urls[0] in order then order else order + [urls[0]], urls[1..])
  }

  /** `AppendNew` keeps the old order as a prefix, adds exactly the new URLs,
      and lists none twice. */
  lemma {:induction false} AppendNewExtends(order: seq<Url>, urls: seq<Url>)
    requires Distinct(order)
    ensures var r := AppendNew(order, urls);
            && |order| <= |r| && r[..|order|] == order
            && (forall u :: u in r <==> u in order || u in urls)
            && Distinct(r)
    decreases |urls|
  {
    if urls != [] {
      var next := if urls[0] in order then order else order + [urls[0]];
      AppendNewExtends(next, urls[1..]);
      var r := AppendNew(order, urls);
      assert r[..|order|] == r[..|next|][..|order|];
      forall u | u in urls ensures u in r {
        if u != urls[0] {
          var i :| 0 <= i < |urls| && urls[i] == u;
          assert urls[1..][i - 1] == u;
        }
      }
    }
  }

  /** One crawl: its settings and the status of every URL seen so far. */
  datatype ScrapeEvent = ScrapeEvent(settings: Settings, status: UrlStatusMap)

  /** A freshly constructed record. */
  function NewEvent(settings: Settings): (e: ScrapeEvent)
    ensures e.settings == settings
    ensures e.status.order == [] && forall u :: Get(e.status, u) == None
  {
    ScrapeEvent(settings, EmptyStatusMap)
  }
}
