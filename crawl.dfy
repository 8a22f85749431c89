/** `scrapeAmazon`: the crawl loop over result pages 1 to 24. Each page is
    fetched, its result nodes are filtered into a batch, the batch is
    handed to the database in one insert, and the crawler then waits a
    random time; any exception while fetching or parsing a page is caught,
    logged, and the loop moves on to the next page.

    The network, the HTML parser and the database are outside the model.
    What the fetch and parse of page `n` yield is the input `outcomes[n - 1]`;
    the value `Math.random()` returns on page `n` is `draws[n - 1]`. The
    loop's effects are recorded, in order, as a trace of actions. */
module Crawl {
  import opened Strings
  import opened Seqs
  import opened Extract
  import opened Pacing

  const CrawlPageCount: nat := 24
  const UrlBase: string := "https://www.amazon.com/s?k=laptops&page="

  /** What fetching (`axios.get`) and parsing (`cheerio.load` and the
      result-node selector) page `n` yields: the result nodes, or an
      exception. */
  datatype PageOutcome = Loaded(items: seq<ResultItem>) | Failed

  /** The loop's effects. */
  datatype Action =
    | Fetch(page: nat, url: string)          // `axios.get(url, ...)`
    | Insert(page: nat, batch: seq<Product>) // `db.query(insertQuery, [products], ...)`
    | Wait(ms: int)                          // `await` a `setTimeout` of `ms`
    | LogError(page: nat)                    // `console.error` in the `catch`

  /** `${urlBase}${page}`. */
  function PageUrl(page: nat): string
  {
    UrlBase + Decimal(page)
  }

  /** The URL of a page is the fixed search URL followed by decimal digits
      that denote the page number. */
  lemma PageUrlDenotes(page: nat)
    ensures var url := PageUrl(page);
      |url| > |UrlBase| && url[..|UrlBase|] == UrlBase &&
      (forall i :: |UrlBase| <= i < |url| ==> IsDigit(url[i])) &&
      DigitsValue(url[|UrlBase|..]) == page
  {
    DecimalDenotes(page);
    var url := PageUrl(page);
    assert url[|UrlBase|..] == Decimal(page);
  }

  /** Different pages are fetched from different URLs. */
  lemma PageUrlInjective(p: nat, q: nat)
    requires PageUrl(p) == PageUrl(q)
    ensures p == q
  {
    PageUrlDenotes(p);
    PageUrlDenotes(q);
  }

  /** The effects of one iteration of the loop body. After a failed fetch
      or parse the `catch` runs: nothing is inserted and, because the wait
      sits inside the `try`, there is no wait either. After a successful
      one the batch is inserted even when it is empty, and the wait
      follows at once: the insert is not awaited. */
  function PageActions(page: nat, outcome: PageOutcome, draw: Draw): seq<Action>
  {
    match outcome
    case Failed => [Fetch(page, PageUrl(page)), LogError(page)]
    case Loaded(items) =>
      [Fetch(page, PageUrl(page)), Insert(page, KeptRecords(items)),
       Wait(RandomDelay(MinDelay, MaxDelay, draw))]
  }

  /** The effects of the first `n` iterations. */
  function CrawlTrace(outcomes: seq<PageOutcome>, draws: seq<Draw>, n: nat): seq<Action>
    requires n <= |outcomes| && n <= |draws|
  {
    if n == 0 then []
    else CrawlTrace(outcomes, draws, n - 1) + PageActions(n, outcomes[n - 1], draws[n - 1])
  }

  /** The loop of `scrapeAmazon`, returning its trace. */
  method ScrapeAmazon(outcomes: seq<PageOutcome>, draws: seq<Draw>) returns (trace: seq<Action>)
    requires |outcomes| == CrawlPageCount && |draws| == CrawlPageCount
    ensures trace == CrawlTrace(outcomes, draws, CrawlPageCount)
  {
    trace := [];
    var page := 1;
    while page <= CrawlPageCount
      invariant 1 <= page <= CrawlPageCount + 1
      invariant trace == CrawlTrace(outcomes, draws, page - 1)
    {
      var url := PageUrl(page);
      var actions := [Fetch(page, url)];
      match outcomes[page - 1] {
        case Failed =>
          actions := actions + [LogError(page)];
        case Loaded(items) =>
          var products := CollectProducts(items);
          actions := actions + [Insert(page, products)];
          var delay := RandomDelay(MinDelay, MaxDelay, draws[page - 1]);
          actions := actions + [Wait(delay)];
      }
      assert actions == PageActions(page, outcomes[page - 1], draws[page - 1]);
      trace := trace + actions;
      page := page + 1;
    }
  }

  // ---------------------------------------------------------------------------
  // Views of a trace

  predicate IsFetch(a: Action) { a.Fetch? }
  predicate IsInsert(a: Action) { a.Insert? }
  predicate IsLogError(a: Action) { a.LogError? }
  predicate IsWait(a: Action) { a.Wait? }

  /** The page an action concerns (a wait concerns none). */
  function PageOf(a: Action): nat
  {
    match a
    case Fetch(p, _) => p
    case Insert(p, _) => p
    case LogError(p) => p
    case Wait(_) => 0
  }

  function DelayOf(a: Action): int
  {
    if a.Wait? then a.ms else 0
  }

  /** Pages fetched, inserted, and logged as failed, in trace order, and the
      delays waited. */
  function FetchedPages(t: seq<Action>): seq<nat> { FilterMap(t, IsFetch, PageOf) }
  function InsertedPages(t: seq<Action>): seq<nat> { FilterMap(t, IsInsert, PageOf) }
  function FailedPages(t: seq<Action>): seq<nat> { FilterMap(t, IsLogError, PageOf) }
  function Delays(t: seq<Action>): seq<int> { FilterMap(t, IsWait, DelayOf) }

  /** The pages `1, 2, ..., n`. */
  function PageRange(n: nat): (r: seq<nat>)
    ensures |r| == n
    ensures forall i :: 0 <= i < n ==> r[i] == i + 1
  {
    if n == 0 then [] else PageRange(n - 1) + [n]
  }

  /** The pages among `1..n` whose fetch and parse succeeded (`loaded`) or
      failed (`!loaded`), in increasing order. */
  function PagesWhere(outcomes: seq<PageOutcome>, n: nat, loaded: bool): seq<nat>
    requires n <= |outcomes|
  {
    if n == 0 then []
    else PagesWhere(outcomes, n - 1, loaded) + (if outcomes[n - 1].Loaded? == loaded then [n] else [])
  }

  /** `PagesWhere` lists each page of the requested kind once, in
      increasing order, and nothing else. */
  lemma PagesWhereSpec(outcomes: seq<PageOutcome>, n: nat, loaded: bool)
    requires n <= |outcomes|
    ensures forall j :: 0 <= j < |PagesWhere(outcomes, n, loaded)| ==>
      1 <= PagesWhere(outcomes, n, loaded)[j] <= n &&
      outcomes[PagesWhere(outcomes, n, loaded)[j] - 1].Loaded? == loaded
    ensures forall j, k :: 0 <= j < k < |PagesWhere(outcomes, n, loaded)| ==>
      PagesWhere(outcomes, n, loaded)[j] < PagesWhere(outcomes, n, loaded)[k]
    ensures forall p :: 1 <= p <= n && outcomes[p - 1].Loaded? == loaded ==>
      p in PagesWhere(outcomes, n, loaded)
  {
    PagesWhereBounds(outcomes, n, loaded);
    PagesWhereSorted(outcomes, n, loaded);
    PagesWhereComplete(outcomes, n, loaded);
  }

  lemma {:induction false} PagesWhereBounds(outcomes: seq<PageOutcome>, n: nat, loaded: bool)
    requires n <= |outcomes|
    ensures forall j :: 0 <= j < |PagesWhere(outcomes, n, loaded)| ==>
      1 <= PagesWhere(outcomes, n, loaded)[j] <= n &&
      outcomes[PagesWhere(outcomes, n, loaded)[j] - 1].Loaded? == loaded
  {
    if n > 0 {
      PagesWhereBounds(outcomes, n - 1, loaded);
      var front := PagesWhere(outcomes, n - 1, loaded);
      var r := PagesWhere(outcomes, n, loaded);
      assert r == front + (if outcomes[n - 1].Loaded? == loaded then [n] else []);
      forall j | 0 <= j < |r|
        ensures 1 <= r[j] <= n && outcomes[r[j] - 1].Loaded? == loaded
      {
        if j < |front| {
          assert r[j] == front[j];
        } else {
          assert r[j] == n;
        }
      }
    }
  }

  lemma {:induction false} PagesWhereSorted(outcomes: seq<PageOutcome>, n: nat, loaded: bool)
    requires n <= |outcomes|
    ensures forall j, k :: 0 <= j < k < |PagesWhere(outcomes, n, loaded)| ==>
      PagesWhere(outcomes, n, loaded)[j] < PagesWhere(outcomes, n, loaded)[k]
  {
    if n > 0 {
      PagesWhereSorted(outcomes, n - 1, loaded);
      PagesWhereBounds(outcomes, n - 1, loaded);
      var front := PagesWhere(outcomes, n - 1, loaded);
      var r := PagesWhere(outcomes, n, loaded);
      assert r == front + (if outcomes[n - 1].Loaded? == loaded then [n] else []);
      forall j, k | 0 <= j < k < |r| ensures r[j] < r[k] {
        assert r[j] == front[j];
        if k < |front| {
          assert r[k] == front[k];
        } else {
          assert r[k] == n;
        }
      }
    }
  }

  lemma {:induction false} PagesWhereComplete(outcomes: seq<PageOutcome>, n: nat, loaded: bool)
    requires n <= |outcomes|
    ensures forall p :: 1 <= p <= n && outcomes[p - 1].Loaded? == loaded ==>
      p in PagesWhere(outcomes, n, loaded)
  {
    if n > 0 {
      PagesWhereComplete(outcomes, n - 1, loaded);
      var front := PagesWhere(outcomes, n - 1, loaded);
      var r := PagesWhere(outcomes, n, loaded);
      assert r == front + (if outcomes[n - 1].Loaded? == loaded then [n] else []);
      forall p | 1 <= p <= n && outcomes[p - 1].Loaded? == loaded ensures p in r {
        if p < n {
          assert p in front;
        } else {
          assert r[|r| - 1] == n;
        }
      }
    }
  }

  // ---------------------------------------------------------------------------
  // Properties of the crawl

  /** What one iteration contributes to a view of the trace, page by page:
      the view of iterations `1..n` concatenated in loop order. */
  function PerPage<U>(outcomes: seq<PageOutcome>, draws: seq<Draw>, n: nat,
                      view: (nat, PageOutcome, Draw) -> seq<U>): seq<U>
    requires n <= |outcomes| && n <= |draws|
  {
    if n == 0 then []
    else PerPage(outcomes, draws, n - 1, view) + view(n, outcomes[n - 1], draws[n - 1])
  }

  /** A view of the whole trace is the concatenation of the views of its
      iterations, in loop order. */
  lemma {:induction false} TraceView<U>(outcomes: seq<PageOutcome>, draws: seq<Draw>, n: nat,
                                        keep: Action -> bool, f: Action -> U,
                                        view: (nat, PageOutcome, Draw) -> seq<U>)
    requires n <= |outcomes| && n <= |draws|
    requires forall p: nat, o: PageOutcome, d: Draw :: FilterMap(PageActions(p, o, d), keep, f) == view(p, o, d)
    ensures FilterMap(CrawlTrace(outcomes, draws, n), keep, f) == PerPage(outcomes, draws, n, view)
  {
    if n > 0 {
      TraceView(outcomes, draws, n - 1, keep, f, view);
      FilterMapAppend(CrawlTrace(outcomes, draws, n - 1), PageActions(n, outcomes[n - 1], draws[n - 1]), keep, f);
    }
  }

  /** The views of one iteration. */
  function FetchedOn(page: nat, outcome: PageOutcome, draw: Draw): seq<nat> { [page] }
  function LoadedOn(page: nat, outcome: PageOutcome, draw: Draw): seq<nat>
  {
    if outcome.Loaded? then [page] else []
  }
  function FailedOn(page: nat, outcome: PageOutcome, draw: Draw): seq<nat>
  {
    if outcome.Loaded? then [] else [page]
  }
  function WaitedOn(page: nat, outcome: PageOutcome, draw: Draw): seq<int>
  {
    if outcome.Loaded? then [RandomDelay(MinDelay, MaxDelay, draw)] else []
  }

  /** One iteration fetches its page once, whatever the outcome. */
  lemma FetchView(page: nat, outcome: PageOutcome, draw: Draw)
    ensures FetchedPages(PageActions(page, outcome, draw)) == [page]
  {
    ViewsOf(PageActions(page, outcome, draw), IsFetch, PageOf);
  }

  /** One iteration inserts its page once if it loaded, and otherwise not. */
  lemma InsertView(page: nat, outcome: PageOutcome, draw: Draw)
    ensures InsertedPages(PageActions(page, outcome, draw)) == (if outcome.Loaded? then [page] else [])
  {
    ViewsOf(PageActions(page, outcome, draw), IsInsert, PageOf);
  }

  /** One iteration logs its page once if it failed, and otherwise not. */
  lemma FailureView(page: nat, outcome: PageOutcome, draw: Draw)
    ensures FailedPages(PageActions(page, outcome, draw)) == (if outcome.Loaded? then [] else [page])
  {
    ViewsOf(PageActions(page, outcome, draw), IsLogError, PageOf);
  }

  /** One iteration waits once, for the drawn delay, if its page loaded,
      and does not wait after a failure. */
  lemma DelayView(page: nat, outcome: PageOutcome, draw: Draw)
    ensures Delays(PageActions(page, outcome, draw)) ==
      (if outcome.Loaded? then [RandomDelay(MinDelay, MaxDelay, draw)] else [])
  {
    ViewsOf(PageActions(page, outcome, draw), IsWait, DelayOf);
  }

  /** Selecting from a segment of two or three actions, one at a time. */
  lemma ViewsOf<U>(t: seq<Action>, keep: Action -> bool, f: Action -> U)
    requires 2 <= |t| <= 3
    ensures FilterMap(t, keep, f) ==
      (if keep(t[0]) then [f(t[0])] else []) + (if keep(t[1]) then [f(t[1])] else []) +
      (if |t| == 3 && keep(t[2]) then [f(t[2])] else [])
  {
    FilterMapSingle(t[0], keep, f);
    FilterMapSingle(t[1], keep, f);
    FilterMapAppend([t[0]], [t[1]], keep, f);
    if |t| == 3 {
      FilterMapSingle(t[2], keep, f);
      FilterMapAppend([t[0], t[1]], [t[2]], keep, f);
      assert t == [t[0], t[1]] + [t[2]];
    } else {
      assert t == [t[0]] + [t[1]];
    }
  }

  lemma {:induction false} PerPageFetched(outcomes: seq<PageOutcome>, draws: seq<Draw>, n: nat)
    requires n <= |outcomes| && n <= |draws|
    ensures PerPage(outcomes, draws, n, FetchedOn) == PageRange(n)
  {
    if n > 0 {
      PerPageFetched(outcomes, draws, n - 1);
    }
  }

  lemma {:induction false} PerPageWhere(outcomes: seq<PageOutcome>, draws: seq<Draw>, n: nat)
    requires n <= |outcomes| && n <= |draws|
    ensures PerPage(outcomes, draws, n, LoadedOn) == PagesWhere(outcomes, n, true)
    ensures PerPage(outcomes, draws, n, FailedOn) == PagesWhere(outcomes, n, false)
    ensures |PerPage(outcomes, draws, n, WaitedOn)| == |PagesWhere(outcomes, n, true)|
  {
    if n > 0 {
      PerPageWhere(outcomes, draws, n - 1);
    }
  }

  /** The loop fetches pages `1, 2, ..., n`, each once, in increasing
      order, whatever the individual pages yield. */
  lemma FetchesEveryPageInOrder(outcomes: seq<PageOutcome>, draws: seq<Draw>, n: nat)
    requires n <= |outcomes| && n <= |draws|
    ensures FetchedPages(CrawlTrace(outcomes, draws, n)) == PageRange(n)
  {
    forall p: nat, o: PageOutcome, d: Draw ensures FetchedPages(PageActions(p, o, d)) == FetchedOn(p, o, d) {
      FetchView(p, o, d);
    }
    TraceView(outcomes, draws, n, IsFetch, PageOf, FetchedOn);
    PerPageFetched(outcomes, draws, n);
  }

  /** Exactly the pages whose fetch and parse succeeded get an insert, one
      each and in page order, whether or not their batch is empty. */
  lemma InsertsOnLoadedPages(outcomes: seq<PageOutcome>, draws: seq<Draw>, n: nat)
    requires n <= |outcomes| && n <= |draws|
    ensures InsertedPages(CrawlTrace(outcomes, draws, n)) == PagesWhere(outcomes, n, true)
  {
    forall p: nat, o: PageOutcome, d: Draw ensures InsertedPages(PageActions(p, o, d)) == LoadedOn(p, o, d) {
      InsertView(p, o, d);
    }
    TraceView(outcomes, draws, n, IsInsert, PageOf, LoadedOn);
    PerPageWhere(outcomes, draws, n);
  }

  /** Exactly the pages whose fetch or parse failed are logged, one entry
      each, in page order. */
  lemma FailuresLogged(outcomes: seq<PageOutcome>, draws: seq<Draw>, n: nat)
    requires n <= |outcomes| && n <= |draws|
    ensures FailedPages(CrawlTrace(outcomes, draws, n)) == PagesWhere(outcomes, n, false)
  {
    forall p: nat, o: PageOutcome, d: Draw ensures FailedPages(PageActions(p, o, d)) == FailedOn(p, o, d) {
      FailureView(p, o, d);
    }
    TraceView(outcomes, draws, n, IsLogError, PageOf, FailedOn);
    PerPageWhere(outcomes, draws, n);
  }

  /** The waits are, in order, `getRandomDelay(2000, 5000)` for the draw of
      each page that loaded: one per successful page and none per failed
      one. */
  lemma WaitsFollowSuccesses(outcomes: seq<PageOutcome>, draws: seq<Draw>, n: nat)
    requires n <= |outcomes| && n <= |draws|
    ensures Delays(CrawlTrace(outcomes, draws, n)) == PerPage(outcomes, draws, n, WaitedOn)
    ensures |Delays(CrawlTrace(outcomes, draws, n))| == |PagesWhere(outcomes, n, true)|
  {
    forall p: nat, o: PageOutcome, d: Draw ensures Delays(PageActions(p, o, d)) == WaitedOn(p, o, d) {
      DelayView(p, o, d);
    }
    TraceView(outcomes, draws, n, IsWait, DelayOf, WaitedOn);
    PerPageWhere(outcomes, draws, n);
  }

  /** Every fetch in the trace goes to the URL of its own page: the search
      URL followed by the page number. */
  lemma {:induction false} FetchesPageUrls(outcomes: seq<PageOutcome>, draws: seq<Draw>, n: nat)
    requires n <= |outcomes| && n <= |draws|
    ensures forall a :: a in CrawlTrace(outcomes, draws, n) && a.Fetch? ==> a.url == PageUrl(a.page)
  {
    if n > 0 {
      FetchesPageUrls(outcomes, draws, n - 1);
      var t := CrawlTrace(outcomes, draws, n - 1);
      var seg := PageActions(n, outcomes[n - 1], draws[n - 1]);
      forall a: Action | a in t + seg && a.Fetch? ensures a.url == PageUrl(a.page) {
        if a !in t {
          assert a in seg;
        }
      }
    }
  }

  /** Every wait lasts between 2000 and 5000 milliseconds. */
  lemma {:induction false} DelaysBounded(outcomes: seq<PageOutcome>, draws: seq<Draw>, n: nat)
    requires n <= |outcomes| && n <= |draws|
    ensures forall a :: a in CrawlTrace(outcomes, draws, n) && a.Wait? ==> MinDelay <= a.ms <= MaxDelay
  {
    if n > 0 {
      DelaysBounded(outcomes, draws, n - 1);
      var t := CrawlTrace(outcomes, draws, n - 1);
      var seg := PageActions(n, outcomes[n - 1], draws[n - 1]);
      forall a: Action | a in t + seg && a.Wait? ensures MinDelay <= a.ms <= MaxDelay {
        if a !in t {
          assert a in seg;
        }
      }
    }
  }

  /** An insert action of the first `n` pages carries the batch of its page. */
  predicate InsertFits(outcomes: seq<PageOutcome>, n: nat, a: Action)
    requires n <= |outcomes|
  {
    a.Insert? ==>
      1 <= a.page <= n && outcomes[a.page - 1].Loaded? &&
      a.batch == KeptRecords(outcomes[a.page - 1].items)
  }

  /** Every insert carries page `p`'s batch: the records kept from the
      nodes that page yielded. */
  lemma {:induction false} InsertedBatches(outcomes: seq<PageOutcome>, draws: seq<Draw>, n: nat)
    requires n <= |outcomes| && n <= |draws|
    ensures forall a :: a in CrawlTrace(outcomes, draws, n) ==> InsertFits(outcomes, n, a)
  {
    if n > 0 {
      InsertedBatches(outcomes, draws, n - 1);
      var t := CrawlTrace(outcomes, draws, n - 1);
      var seg := PageActions(n, outcomes[n - 1], draws[n - 1]);
      forall a | a in t + seg ensures InsertFits(outcomes, n, a) {
        if a in t {
          assert InsertFits(outcomes, n - 1, a);
        } else {
          assert a in seg;
        }
      }
    }
  }

  /** The action at `i` is not a failure log, or the next action is the
      fetch of the following page. */
  predicate MovesOn(t: seq<Action>, i: nat)
    requires i + 1 < |t|
  {
    t[i].LogError? ==> t[i + 1] == Fetch(t[i].page + 1, PageUrl(t[i].page + 1))
  }

  /** Gluing two traces keeps every failure followed by the next fetch,
      given that this holds inside each and at the seam. */
  lemma MovesOnAppend(t: seq<Action>, seg: seq<Action>)
    requires forall i :: 0 <= i < |t| - 1 ==> MovesOn(t, i)
    requires forall i :: 0 <= i < |seg| - 1 ==> MovesOn(seg, i)
    requires |t| > 0 && |seg| > 0 && t[|t| - 1].LogError? ==>
      seg[0] == Fetch(t[|t| - 1].page + 1, PageUrl(t[|t| - 1].page + 1))
    ensures forall i :: 0 <= i < |t + seg| - 1 ==> MovesOn(t + seg, i)
  {
    var all := t + seg;
    forall i | 0 <= i < |all| - 1 ensures MovesOn(all, i) {
      if i < |t| - 1 {
        assert MovesOn(t, i);
        assert all[i] == t[i] && all[i + 1] == t[i + 1];
      } else if i == |t| - 1 {
        assert all[i] == t[|t| - 1] && all[i + 1] == seg[0];
      } else {
        assert MovesOn(seg, i - |t|);
        assert all[i] == seg[i - |t|] && all[i + 1] == seg[i + 1 - |t|];
      }
    }
  }

  /** After a failure on page `p` the very next action is the fetch of page
      `p + 1`: the loop goes on, without waiting. */
  lemma {:induction false} FailureMovesOnAtOnce(outcomes: seq<PageOutcome>, draws: seq<Draw>, n: nat)
    requires n <= |outcomes| && n <= |draws|
    ensures var t := CrawlTrace(outcomes, draws, n);
      forall i :: 0 <= i < |t| - 1 ==> MovesOn(t, i)
    ensures var t := CrawlTrace(outcomes, draws, n);
      |t| > 0 && t[|t| - 1].LogError? ==> t[|t| - 1].page == n
  {
    if n > 0 {
      FailureMovesOnAtOnce(outcomes, draws, n - 1);
      var t := CrawlTrace(outcomes, draws, n - 1);
      var seg := PageActions(n, outcomes[n - 1], draws[n - 1]);
      assert forall i :: 0 <= i < |seg| - 1 ==> MovesOn(seg, i);
      MovesOnAppend(t, seg);
    }
  }
}
