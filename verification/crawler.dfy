/** `visit_page` and the crawl it drives (scraper.py). The recursion of the source
    is kept, bounded by a budget of visits. */
module Crawler {
  import opened Results
  import opened Urls
  import opened Document
  import opened Segmenter
  import opened Scraper
  import opened Links
  import opened Indexing

  /** What the crawl cannot see: the page behind a URL (fetched and parsed as a
      sitemap or as HTML), the date pattern with `strptime`, and the first match of
      the link pattern in an element's markup. */
  datatype Environment = Environment(
    fetch: (string, bool) -> Page,
    scanDate: string -> DateScan,
    firstLinkMatch: (bool, string) -> Option<string>)

  /** Which program the crawl runs. */
  datatype Version =
    | AsWritten  // scraper.py as it stands: the next URL is `urls_to_visit[url_index]`
                 // and the chunks are stored with their tabs
    | Intended   // both slips corrected: the next URL is the queue entry one place
                 // back, and every tab in a chunk is replaced by two spaces

  /** Why the crawl ended: the cursor ran past the queue, the next URL was already
      visited (the guard skips the continuation as well), links are not followed,
      the page budget was spent, or an exception escaped the visit of `url` and
      ended the program. */
  datatype Stop =
    | Exhausted
    | AlreadyVisited
    | SinglePage
    | OutOfFuel
    | Crashed(error: Exception, url: string)

  /** The final state and the upserts written, in order. Records written before an
      exception stay in the store. */
  datatype Run = Run(state: State, upserts: seq<Upsert>, stop: Stop)

  /** One call of `visit_page` without its recursive continuation: the URL was
      skipped, visited, or an exception escaped after the store block had run. */
  datatype Visit =
    | Skipped
    | Visited(state: State, upsert: Option<Upsert>)
    | Failed(error: Exception, state: State, upsert: Option<Upsert>)

  /** The visit left the cursor and both lists as they were. */
  predicate SameLists(st: State, s: State) {
    s.visited == st.visited && s.queue == st.queue && s.urlIndex == st.urlIndex
  }

  /** The store block of a visit of `url` taking `st` to `s`: the storage flag
      stays; at most one upsert is written, only when storing is on: well formed,
      with ids continuing from `database_index`, which moves past them, and every
      record naming `url`. Without an upsert the counter stays. */
  predicate Stored(st: State, url: string, s: State, upsert: Option<Upsert>) {
    && s.storeOnDatabase == st.storeOnDatabase
    && (upsert.None? ==> s.databaseIndex == st.databaseIndex)
    && (upsert.Some? ==>
          var u := upsert.value;
          && st.storeOnDatabase
          && WellFormed(u)
          && IdsFrom(u.ids, st.databaseIndex)
          && s.databaseIndex == st.databaseIndex + |u.ids|
          && (forall k :: 0 <= k < |u.metadatas| ==> u.metadatas[k].url == url))
  }

  /** What one visit of `url` from state `st` does. An empty URL raises IndexError
      in the guard, before anything is written. A URL whose slug is registered among
      the visited pages is skipped, and only such a URL. A visited page goes through
      the store block; when links are followed it is appended to the visited pages,
      the cursor moves one on, and the queue only grows, by admissible entries;
      otherwise the lists and the cursor stay. A failed visit keeps the lists and
      the cursor, and keeps whatever the store block wrote. */
  predicate VisitSpec(st: State, url: string, continueScraping: bool, v: Visit) {
    && (url == "" ==> v == Failed(IndexError, st, None))
    && (v == Skipped <==> SlugRegistered(url, st.visited) == Ok(true))
    && (v.Visited? ==>
          var s := v.state;
          && SlugRegistered(url, st.visited) == Ok(false)
          && Stored(st, url, s, v.upsert)
          && (continueScraping ==>
                && s.visited == st.visited + [url]
                && s.urlIndex == st.urlIndex + 1
                && st.queue <= s.queue
                && (forall i :: |st.queue| <= i < |s.queue| ==> Admissible(s.queue[..i], s.queue[i])))
          && (!continueScraping ==> SameLists(st, s)))
    && (v.Failed? ==> Stored(st, url, v.state, v.upsert) && SameLists(st, v.state))
  }

  /** The page `visit_page` fetches for `url`, parsed as a sitemap or as HTML. */
  function FetchedPage(env: Environment, url: string): Page {
    env.fetch(url, IsXml(url))
  }

  /** The texts a visit stores: the chunks of `get_page_text` as the code leaves
      them, or with their tabs replaced. */
  function Documents(version: Version, page: Page): (r: seq<string>)
    ensures |r| == |PageText(page)|
    ensures forall k :: 0 <= k < |r| ==> |r[k]| > 80
  {
    match version
    case AsWritten => PageText(page)
    case Intended => Paragraphs(page)
  }

  /** The store block of `visit_page`: an upsert is written exactly when storing
      is on and the page has chunks, and it holds those chunks (with their tabs as
      written, replaced when corrected) and, for each, the URL, the title and the
      stored date. */
  function StoreChunks(version: Version, st: State, url: string, page: Page, title: string,
                       date: Option<CalendarDate>): (r: (State, Option<Upsert>))
    ensures Stored(st, url, r.0, r.1) && SameLists(st, r.0)
    ensures r.1.Some? <==> st.storeOnDatabase && |PageText(page)| > 0
    ensures r.1.Some? ==>
              && (version == AsWritten ==> r.1.value.documents == PageText(page))
              && (version == Intended ==> r.1.value.documents == Paragraphs(page))
              && (forall k :: 0 <= k < |r.1.value.metadatas| ==>
                    r.1.value.metadatas[k] == Metadata(url, title, DateField(date)))
  {
    IndexPage(st, url, title, date, Documents(version, page))
  }

  /** On the page of `TabSurvivesAsWritten`, with storing on, the store block as
      written stores the chunk with its tab; the corrected one stores it without. */
  lemma AsWrittenStoresTabs(st: State, url: string, title: string, date: Option<CalendarDate>)
    requires st.storeOnDatabase
    ensures StoreChunks(AsWritten, st, url, TabPage(), title, date).1.Some?
    ensures StoreChunks(Intended, st, url, TabPage(), title, date).1.Some?
    ensures StoreChunks(AsWritten, st, url, TabPage(), title, date).1.value.documents == [TabChunk()]
    ensures '\t' in StoreChunks(AsWritten, st, url, TabPage(), title, date).1.value.documents[0]
    ensures '\t' !in StoreChunks(Intended, st, url, TabPage(), title, date).1.value.documents[0]
  {
    TabSurvivesAsWritten();
  }

  /** The part of `visit_page` after the date is read: the store block, then, when
      links are followed, link discovery, which fails exactly when some cleaned
      candidate is empty, after the upsert was written. */
  function StoreAndFollow(version: Version, st: State, url: string, continueScraping: bool,
                          page: Page, title: string, date: Option<CalendarDate>,
                          firstMatch: (bool, string) -> Option<string>): (r: Visit)
    ensures !r.Skipped?
    ensures var stored := StoreChunks(version, st, url, page, title, date);
            && r.upsert == stored.1
            && r.state.databaseIndex == stored.0.databaseIndex
            && r.state.storeOnDatabase == st.storeOnDatabase
    ensures r.Failed? <==> continueScraping && "" in Candidates(LinkMatches(page.elements, IsXml(url), firstMatch))
    ensures r.Failed? ==> SameLists(st, r.state)
    ensures r.Visited? && !continueScraping ==> SameLists(st, r.state)
    ensures r.Visited? && continueScraping ==>
              && r.state.visited == st.visited + [url]
              && r.state.urlIndex == st.urlIndex + 1
              && st.queue <= r.state.queue
              && (forall i :: |st.queue| <= i < |r.state.queue| ==> Admissible(r.state.queue[..i], r.state.queue[i]))
    ensures r.Visited? && continueScraping ==>
              Enqueue(st.queue, Candidates(LinkMatches(page.elements, IsXml(url), firstMatch))) == Ok(r.state.queue)
  {
    var isXml := IsXml(url);
    var stored := StoreChunks(version, st, url, page, title, date);
    if continueScraping then
      match ParseBlogPagesLinks(stored.0, page, isXml, url, firstMatch)
      case Raised(e) => Failed(e, stored.0, stored.1)
      case Ok(s) =>
        ParsedLinksAdmissible(stored.0, page, isXml, url, firstMatch);
        Visited(s, stored.1)
    else Visited(stored.0, stored.1)
  }

  /** One call of `visit_page` without its continuation: the guard against
      `visited_links`, the fetch, the title and the date, then the store block and
      link discovery. Beyond `VisitSpec`: for a URL not yet visited, the visit
      fails exactly when the date lookup raises, before anything is written, or,
      following links, some cleaned candidate is empty; once the date is read, an
      upsert is written exactly when storing is on and the page has chunks, and it
      holds those chunks and, for each, the URL, the page title and the stored date. */
  function VisitPage(version: Version, st: State, url: string, continueScraping: bool, env: Environment): (r: Visit)
    ensures VisitSpec(st, url, continueScraping, r)
    ensures var page := FetchedPage(env, url);
            var date := GetPublishingDate(page, env.scanDate);
            SlugRegistered(url, st.visited) == Ok(false) ==>
              && (r.Failed? <==>
                    || date.Raised?
                    || (continueScraping && "" in Candidates(LinkMatches(page.elements, IsXml(url), env.firstLinkMatch))))
              && (date.Raised? ==> r == Failed(date.error, st, None))
              && (date.Ok? && !r.Skipped? ==>
                    r.upsert == StoreChunks(version, st, url, page, GetPageTitle(page), date.value).1)
    ensures var page := FetchedPage(env, url);
            r.Visited? && continueScraping ==>
              Enqueue(st.queue, Candidates(LinkMatches(page.elements, IsXml(url), env.firstLinkMatch))) == Ok(r.state.queue)
  {
    match SlugRegistered(url, st.visited)
    case Raised(e) => Failed(e, st, None)
    case Ok(registered) =>
      if registered then Skipped
      else
        var page := FetchedPage(env, url);
        match GetPublishingDate(page, env.scanDate)
        case Raised(e) => Failed(e, st, None)
        case Ok(date) =>
          StoreAndFollow(version, st, url, continueScraping, page, GetPageTitle(page), date, env.firstLinkMatch)
  }

  /** The visit as a function value, so that the crawl is stated over any visit
      meeting `VisitSpec`. */
  function Visitor(version: Version, continueScraping: bool, env: Environment): (visit: (State, string) -> Visit)
    ensures forall st, url :: VisitSpec(st, url, continueScraping, visit(st, url))
  {
    (st, url) => VisitPage(version, st, url, continueScraping, env)
  }

  /** `visit` behaves as `VisitSpec` says on every state and URL. */
  ghost predicate Honest(visit: (State, string) -> Visit, continueScraping: bool) {
    forall st, url :: VisitSpec(st, url, continueScraping, visit(st, url))
  }

  /** The next URL to visit after a visit that followed links, if any. */
  function NextUrl(version: Version, st: State): (r: Option<string>)
    ensures version == AsWritten ==> (r.Some? <==> st.urlIndex < |st.queue|)
    ensures version == AsWritten && r.Some? ==> r.value == st.queue[st.urlIndex]
    ensures version == Intended ==> (r.Some? <==> 1 <= st.urlIndex <= |st.queue|)
    ensures version == Intended && r.Some? ==> r.value == st.queue[st.urlIndex - 1]
  {
    match version
    case AsWritten => if st.urlIndex < |st.queue| then Some(st.queue[st.urlIndex]) else None
    case Intended => if 1 <= st.urlIndex <= |st.queue| then Some(st.queue[st.urlIndex - 1]) else None
  }

  /** Every stored record names one of `urls` as its page. */
  predicate FromPages(upserts: seq<Upsert>, urls: seq<string>) {
    forall k, j :: 0 <= k < |upserts| && 0 <= j < |upserts[k].metadatas| ==>
      upserts[k].metadatas[j].url in urls
  }

  /** The record-keeping facts of a crawl: every upsert well formed, the ids
      counting up from 1 without a gap, `database_index` just past the last id,
      and nothing written when storing is off. */
  predicate Recorded(st: State, upserts: seq<Upsert>) {
    && (forall k :: 0 <= k < |upserts| ==> WellFormed(upserts[k]))
    && IdsFrom(AllIds(upserts), 1)
    && st.databaseIndex == 1 + |AllIds(upserts)|
    && (!st.storeOnDatabase ==> upserts == [])
  }

  /** The upserts after a visit. */
  function Written(upserts: seq<Upsert>, upsert: Option<Upsert>): (r: seq<Upsert>)
    ensures upserts <= r && |r| <= |upserts| + 1
  {
    upserts + (if upsert.Some? then [upsert.value] else [])
  }

  lemma RecordVisit(st: State, upserts: seq<Upsert>, s: State, upsert: Option<Upsert>)
    requires Recorded(st, upserts)
    requires s.storeOnDatabase == st.storeOnDatabase
    requires upsert.None? ==> s.databaseIndex == st.databaseIndex
    requires upsert.Some? ==> && st.storeOnDatabase && WellFormed(upsert.value)
                              && IdsFrom(upsert.value.ids, st.databaseIndex)
                              && s.databaseIndex == st.databaseIndex + |upsert.value.ids|
    ensures Recorded(s, Written(upserts, upsert))
  {
    if upsert.Some? {
      var more := upserts + [upsert.value];
      assert more[..|upserts|] == upserts;
      assert AllIds(more) == AllIds(upserts) + upsert.value.ids;
      IdsFromAppend(AllIds(upserts), upsert.value.ids, 1);
    } else {
      assert upserts + [] == upserts;
    }
  }

  lemma FromPagesVisit(upserts: seq<Upsert>, urls: seq<string>, url: string, upsert: Option<Upsert>)
    requires FromPages(upserts, urls)
    requires upsert.Some? ==> forall k :: 0 <= k < |upsert.value.metadatas| ==> upsert.value.metadatas[k].url == url
    ensures FromPages(Written(upserts, upsert), urls + [url])
  {
  }

  /** The list facts kept by every visit, with either version: both lists
      slug-fresh, the cursor equal to the number of visited pages, nothing listed
      when links are not followed, and otherwise the seed visited first. */
  predicate Lists(st: State, store: bool, seed: string, continueScraping: bool) {
    && st.storeOnDatabase == store
    && SlugFresh(st.visited) && SlugFresh(st.queue)
    && st.urlIndex == |st.visited|
    && (!continueScraping ==> st.visited == [] && st.queue == [])
    && (continueScraping && |st.visited| > 0 ==> st.visited[0] == seed)
  }

  /** What holds of the state and the records between visits: the list facts, the
      records as `Recorded` says, and, when links are followed, every record naming
      a visited page. */
  predicate Trail(st: State, upserts: seq<Upsert>, store: bool, seed: string, continueScraping: bool) {
    && Lists(st, store, seed, continueScraping)
    && Recorded(st, upserts)
    && (continueScraping ==> FromPages(upserts, st.visited))
  }

  /** The page whose visit raised, if the run crashed. */
  function CrashedAt(stop: Stop): seq<string> {
    if stop.Crashed? then [stop.url] else []
  }

  /** What holds at the end of a run: the trail, except that after a crash the
      records may also name the page whose visit raised, which never reached
      `visited_links`. */
  predicate RunTrail(r: Run, store: bool, seed: string, continueScraping: bool) {
    && Lists(r.state, store, seed, continueScraping)
    && Recorded(r.state, r.upserts)
    && (continueScraping ==> FromPages(r.upserts, r.state.visited + CrashedAt(r.stop)))
  }

  /** A visit of the pending URL keeps the trail and, when links are followed, adds
      exactly that URL to the visited pages. */
  lemma VisitKeepsTrail(st: State, upserts: seq<Upsert>, store: bool, seed: string, continueScraping: bool,
                        url: string, v: Visit)
    requires Trail(st, upserts, store, seed, continueScraping)
    requires |st.visited| == 0 ==> url == seed
    requires VisitSpec(st, url, continueScraping, v) && v.Visited?
    ensures Trail(v.state, Written(upserts, v.upsert), store, seed, continueScraping)
  {
    var s := v.state;
    RecordVisit(st, upserts, s, v.upsert);
    if continueScraping {
      FromPagesVisit(upserts, st.visited, url, v.upsert);
      SlugFreshAppend(st.visited, url);
      QueueStaysFresh(st.queue, s.queue);
    }
  }

  /** A failed visit of `url` ends the run with its records kept: the run trail
      holds, with `url` as the page that raised. */
  lemma FailedVisitKeepsRecords(st: State, upserts: seq<Upsert>, store: bool, seed: string,
                                continueScraping: bool, url: string, v: Visit)
    requires Trail(st, upserts, store, seed, continueScraping)
    requires VisitSpec(st, url, continueScraping, v) && v.Failed?
    ensures RunTrail(Run(v.state, Written(upserts, v.upsert), Crashed(v.error, url)), store, seed, continueScraping)
  {
    RecordVisit(st, upserts, v.state, v.upsert);
    if continueScraping {
      FromPagesVisit(upserts, st.visited, url, v.upsert);
    }
  }

  /** A run that ends without a crash, from a state on the trail, keeps the trail. */
  lemma EndOnTrail(st: State, upserts: seq<Upsert>, store: bool, seed: string, continueScraping: bool, stop: Stop)
    requires Trail(st, upserts, store, seed, continueScraping) && !stop.Crashed?
    ensures RunTrail(Run(st, upserts, stop), store, seed, continueScraping)
  {
    assert st.visited + CrashedAt(stop) == st.visited;
  }

  /** `visit_page(url)` with its recursive continuation, from state `st` with the
      records `upserts` written so far; `fuel` bounds the number of visits. An
      exception ends the run, keeping what was written. */
  function CrawlFrom(version: Version, visit: (State, string) -> Visit, st: State,
                     upserts: seq<Upsert>, url: string, continueScraping: bool, fuel: nat): (r: Run)
    ensures upserts <= r.upserts
    decreases fuel
  {
    if fuel == 0 then Run(st, upserts, OutOfFuel)
    else
      match visit(st, url)
      case Skipped => Run(st, upserts, AlreadyVisited)
      case Failed(e, s, upsert) => Run(s, Written(upserts, upsert), Crashed(e, url))
      case Visited(s, upsert) =>
        var written := Written(upserts, upsert);
        if !continueScraping then Run(s, written, SinglePage)
        else
          match NextUrl(version, s)
          case None => Run(s, written, Exhausted)
          case Some(next) => CrawlFrom(version, visit, s, written, next, continueScraping, fuel - 1)
  }

  /** A fresh scraper visiting `seed` with a budget of `maxPages` visits. */
  function Crawl(version: Version, store: bool, seed: string, continueScraping: bool,
                 env: Environment, maxPages: nat): (r: Run)
    ensures seed == "" && maxPages > 0 ==> r == Run(Init(store), [], Crashed(IndexError, ""))
    ensures !continueScraping ==>
              && r.state.visited == [] && r.state.queue == []
              && (r.stop == SinglePage || r.stop.Crashed? || (maxPages == 0 && r.stop == OutOfFuel))
  {
    CrawlFrom(version, Visitor(version, continueScraping, env), Init(store), [], seed, continueScraping, maxPages)
  }

  /** The run trail holds at the end of every crawl, crashed or not, with either
      version. */
  lemma {:induction false} CrawlFromKeepsTrail(version: Version, visit: (State, string) -> Visit,
                                               st: State, upserts: seq<Upsert>, url: string,
                                               store: bool, seed: string, continueScraping: bool, fuel: nat)
    requires Honest(visit, continueScraping)
    requires Trail(st, upserts, store, seed, continueScraping)
    requires |st.visited| == 0 ==> url == seed
    ensures var r := CrawlFrom(version, visit, st, upserts, url, continueScraping, fuel);
            && RunTrail(r, store, seed, continueScraping)
            && |r.state.visited| <= |st.visited| + fuel
            && (r.stop == OutOfFuel && continueScraping ==> |r.state.visited| == |st.visited| + fuel)
    decreases fuel
  {
    if fuel == 0 {
      EndOnTrail(st, upserts, store, seed, continueScraping, OutOfFuel);
    } else {
      var v := visit(st, url);
      assert VisitSpec(st, url, continueScraping, v);
      match v
      case Skipped =>
        EndOnTrail(st, upserts, store, seed, continueScraping, AlreadyVisited);
      case Failed(e, s, upsert) =>
        FailedVisitKeepsRecords(st, upserts, store, seed, continueScraping, url, v);
      case Visited(s, upsert) =>
        VisitKeepsTrail(st, upserts, store, seed, continueScraping, url, v);
        var written := Written(upserts, upsert);
        var next := NextUrl(version, s);
        if !continueScraping {
          EndOnTrail(s, written, store, seed, continueScraping, SinglePage);
        } else if next.None? {
          EndOnTrail(s, written, store, seed, continueScraping, Exhausted);
        } else {
          CrawlFromKeepsTrail(version, visit, s, written, next.value, store, seed, continueScraping, fuel - 1);
        }
    }
  }

  /** Every crawl from a fresh scraper, whose visits meet `VisitSpec` as those of
      `VisitPage` do, ends in a state the run trail describes, within its page
      budget, whether or not an exception ended it. */
  lemma CrawlKeepsTrail(version: Version, visit: (State, string) -> Visit, store: bool, seed: string,
                        continueScraping: bool, maxPages: nat)
    requires Honest(visit, continueScraping)
    ensures var r := CrawlFrom(version, visit, Init(store), [], seed, continueScraping, maxPages);
            && RunTrail(r, store, seed, continueScraping)
            && |r.state.visited| <= maxPages
            && (r.stop == OutOfFuel && continueScraping ==> |r.state.visited| == maxPages)
  {
    assert SlugFresh([]);
    CrawlFromKeepsTrail(version, visit, Init(store), [], seed, store, seed, continueScraping, maxPages);
  }

  /** As written, each page visited after the seed is the queue entry at its own
      position: the cursor is one ahead of the queue entries already visited. */
  predicate AsWrittenOrder(st: State) {
    |st.visited| > 1 ==> |st.visited| <= |st.queue| && st.visited[1..] == st.queue[1..|st.visited|]
  }

  lemma {:induction false} CrawlFromAsWritten(visit: (State, string) -> Visit, st: State,
                                              upserts: seq<Upsert>, url: string, fuel: nat)
    requires Honest(visit, true)
    requires st.urlIndex == |st.visited| && AsWrittenOrder(st)
    requires |st.visited| > 0 ==> st.urlIndex < |st.queue| && url == st.queue[st.urlIndex]
    ensures var r := CrawlFrom(AsWritten, visit, st, upserts, url, true, fuel);
            var s := r.state;
            && AsWrittenOrder(s)
            && (r.stop == Exhausted ==> |s.visited| == if |s.queue| == 0 then 1 else |s.queue|)
            && (r.stop == AlreadyVisited ==>
                  s.urlIndex < |s.queue| && SlugRegistered(s.queue[s.urlIndex], s.visited) == Ok(true))
    decreases fuel
  {
    if fuel > 0 {
      var v := visit(st, url);
      assert VisitSpec(st, url, true, v);
      if v.Visited? {
        var s := v.state;
        assert AsWrittenOrder(s) by {
          assert s.visited == st.visited + [url];
          if |st.visited| > 0 {
            assert s.visited[1..] == st.visited[1..] + [url];
            assert s.queue[1..|s.visited|] == s.queue[1..|st.visited|] + [url];
          }
        }
        var next := NextUrl(AsWritten, s);
        if next.Some? {
          CrawlFromAsWritten(visit, s, Written(upserts, v.upsert), next.value, fuel - 1);
        }
      }
    }
  }

  /** The crawl as written visits the seed, then the queue from its second entry
      on, in order; when the queue runs out every entry but the first was visited,
      and the first never is. This holds of crashed runs as well. */
  lemma FirstQueuedNeverVisited(visit: (State, string) -> Visit, store: bool, seed: string, maxPages: nat)
    requires Honest(visit, true)
    ensures var r := CrawlFrom(AsWritten, visit, Init(store), [], seed, true, maxPages);
            var s := r.state;
            && (|s.visited| > 0 ==> s.visited[0] == seed)
            && (|s.visited| > 1 ==> |s.visited| <= |s.queue| && s.visited[1..] == s.queue[1..|s.visited|])
            && (|s.visited| > 0 && |s.queue| > 0 ==> s.queue[0] !in s.visited[1..])
            && (r.stop == Exhausted && |s.queue| > 0 ==> |s.visited| == |s.queue|)
            && (r.stop == AlreadyVisited ==>
                  s.urlIndex < |s.queue| && SlugRegistered(s.queue[s.urlIndex], s.visited) == Ok(true))
  {
    CrawlKeepsTrail(AsWritten, visit, store, seed, true, maxPages);
    CrawlFromAsWritten(visit, Init(store), [], seed, maxPages);
    var r := CrawlFrom(AsWritten, visit, Init(store), [], seed, true, maxPages);
    var s := r.state;
    assert AsWrittenOrder(s);
    if |s.visited| > 1 {
      HeadNotInTail(s.queue, |s.visited|);
    }
  }

  /** In a slug-fresh list, the first entry is not among the later ones. */
  lemma HeadNotInTail(queue: seq<string>, k: nat)
    requires SlugFresh(queue) && 1 <= k <= |queue|
    ensures queue[0] !in queue[1..k]
  {
    SlugFreshDistinct(queue);
    forall j | 0 <= j < k - 1
      ensures queue[1..k][j] != queue[0]
    {
      assert queue[1..k][j] == queue[j + 1];
    }
  }

  /** With the corrected cursor, each page visited after the seed is the queue
      entry one place before it. */
  predicate IntendedOrder(st: State) {
    |st.visited| > 0 ==> |st.visited| - 1 <= |st.queue| && st.visited[1..] == st.queue[..|st.visited| - 1]
  }

  lemma {:induction false} CrawlFromIntended(visit: (State, string) -> Visit, st: State,
                                             upserts: seq<Upsert>, url: string, fuel: nat)
    requires Honest(visit, true)
    requires st.urlIndex == |st.visited| && IntendedOrder(st)
    requires |st.visited| > 0 ==> 1 <= st.urlIndex <= |st.queue| && url == st.queue[st.urlIndex - 1]
    ensures var r := CrawlFrom(Intended, visit, st, upserts, url, true, fuel);
            var s := r.state;
            && IntendedOrder(s)
            && (r.stop == Exhausted ==> |s.visited| == |s.queue| + 1)
    decreases fuel
  {
    if fuel > 0 {
      var v := visit(st, url);
      assert VisitSpec(st, url, true, v);
      if v.Visited? {
        var s := v.state;
        assert IntendedOrder(s) by {
          assert s.visited == st.visited + [url];
          if |st.visited| > 0 {
            assert s.visited[1..] == st.visited[1..] + [url];
            assert s.queue[..|s.visited| - 1] == s.queue[..|st.visited| - 1] + [url];
          }
        }
        var next := NextUrl(Intended, s);
        if next.Some? {
          CrawlFromIntended(visit, s, Written(upserts, v.upsert), next.value, fuel - 1);
        }
      }
    }
  }

  /** With the corrected cursor the crawl visits the seed and then the queue in
      order from its first entry; when the queue runs out, every queued page was
      visited, exactly once. */
  lemma IntendedVisitsEveryQueued(visit: (State, string) -> Visit, store: bool, seed: string, maxPages: nat)
    requires Honest(visit, true)
    ensures var r := CrawlFrom(Intended, visit, Init(store), [], seed, true, maxPages);
            var s := r.state;
            && (|s.visited| > 0 ==> |s.visited| - 1 <= |s.queue| && s.visited == [seed] + s.queue[..|s.visited| - 1])
            && (r.stop == Exhausted ==> s.visited == [seed] + s.queue)
  {
    CrawlKeepsTrail(Intended, visit, store, seed, true, maxPages);
    CrawlFromIntended(visit, Init(store), [], seed, maxPages);
    var r := CrawlFrom(Intended, visit, Init(store), [], seed, true, maxPages);
    var s := r.state;
    assert IntendedOrder(s);
    if |s.visited| > 0 {
      assert s.visited == [s.visited[0]] + s.visited[1..];
    }
  }

  /** No record id is written twice in a crawl, whether or not it crashed, and none
      is written at all when storing is off. */
  lemma CrawlNeverReusesIds(version: Version, visit: (State, string) -> Visit, store: bool, seed: string,
                            continueScraping: bool, maxPages: nat)
    requires Honest(visit, continueScraping)
    ensures var r := CrawlFrom(version, visit, Init(store), [], seed, continueScraping, maxPages);
            && (forall i, j :: 0 <= i < j < |AllIds(r.upserts)| ==> AllIds(r.upserts)[i] != AllIds(r.upserts)[j])
            && (!store ==> r.upserts == [] && r.state.databaseIndex == 1)
  {
    CrawlKeepsTrail(version, visit, store, seed, continueScraping, maxPages);
    var r := CrawlFrom(version, visit, Init(store), [], seed, continueScraping, maxPages);
    IdsFromDistinct(AllIds(r.upserts), 1);
  }
}
