/** The page loop of the scraper: open the listing, try to enlarge the
    page size, then harvest page after page until a stop condition. */
module Session {
  import opened Wrappers
  import opened Browser
  import opened Extraction
  import opened Pagination
  import opened Density

  /** Why the loop ended. */
  datatype StopReason =
    | NotOpened       // navigating to the listing raised
    | NoPages         // the page ceiling is below one
    | NotReady        // the table of the current page never loaded
    | LastPage        // the current page was recognised as the last
    | NoNextPage      // no way to the next page was found
    | CeilingReached  // the current page is the last one allowed

  /** The outcome of a run: the records gathered, the number of the page
      the loop stopped on (0 when none was visited), why it stopped, and
      what the page-size step chose. */
  datatype Run = Run(data: seq<Record>, lastPage: nat, stop: StopReason, density: Choice)

  /** Where the loop stopped: the page it was on, and why. */
  datatype Halt = Halt(page: nat, reason: StopReason)

  /** The page size the scraper asks for first. */
  const PreferredPageSize: int := 120

  /** The records each page of a run yields, the page number included. */
  function PageRows(view: nat -> PageSnapshot): nat -> seq<Record> {
    (k: nat) => ExtractTableData(view(k), k)
  }

  /** Every record page `k` yields is valid and carries the number `k`. */
  ghost predicate Numbered(rows: nat -> seq<Record>) {
    forall k: nat, i :: 0 <= i < |rows(k)| ==> ValidRecord(rows(k)[i]) && rows(k)[i].pagina == k
  }

  lemma PageRowsNumbered(view: nat -> PageSnapshot)
    ensures Numbered(PageRows(view))
  {
    forall k: nat, i | 0 <= i < |PageRows(view)(k)|
      ensures ValidRecord(PageRows(view)(k)[i]) && PageRows(view)(k)[i].pagina == k
    {
      assert PageRows(view)(k) == ExtractTableData(view(k), k);
    }
  }

  /** The records of pages 1 to `n`, in page order. */
  function Harvest(rows: nat -> seq<Record>, n: nat): seq<Record> {
    if n == 0 then [] else Harvest(rows, n - 1) + rows(n)
  }

  /** The harvest of pages 1 to `n` holds valid records numbered 1 to `n`. */
  lemma {:induction false} HarvestNumbered(rows: nat -> seq<Record>, n: nat)
    requires Numbered(rows)
    ensures forall i :: 0 <= i < |Harvest(rows, n)| ==>
      ValidRecord(Harvest(rows, n)[i]) && 1 <= Harvest(rows, n)[i].pagina <= n
  {
    if n > 0 {
      HarvestNumbered(rows, n - 1);
      var prev := Harvest(rows, n - 1);
      var h := prev + rows(n);
      forall i | 0 <= i < |h|
        ensures ValidRecord(h[i]) && 1 <= h[i].pagina <= n
      {
        if i < |prev| {
          assert h[i] == prev[i];
        } else {
          var j := i - |prev|;
          assert h[i] == rows(n)[j];
          assert ValidRecord(rows(n)[j]) && rows(n)[j].pagina == n;
        }
      }
    }
  }

  /** What the loop learns from one page: whether its table loaded,
      whether it is the last page, and whether some way to the next page
      works. */
  datatype Visit = Visit(ready: bool, last: bool, advance: bool)

  /** The checks the loop runs on a page, trying `selectors` for the way
      to the next one. */
  function Observe(page: PageSnapshot, selectors: seq<string>): Visit {
    Visit(TableReady(page), IsLastPage(page), FindNextPage(page, selectors) != NoAdvance)
  }

  /** What the loop sees on each page of a run. */
  function Visits(view: nat -> PageSnapshot, selectors: seq<string>): nat -> Visit {
    (k: nat) => Observe(view(k), selectors)
  }

  /** A page the loop leaves for the next one: its table loads, it is not
      the last, and some way to the next page works. */
  predicate MovesOn(v: Visit) {
    v.ready && !v.last && v.advance
  }

  /** What the loop does after visiting page `current`: stop, for the
      reason given, or move on (`None`). */
  function Decide(v: Visit, current: nat, maxPages: nat): (d: Option<StopReason>)
    ensures d.None? <==> current < maxPages && MovesOn(v)
    ensures d == Some(NotReady) <==> !v.ready
    ensures d == Some(LastPage) <==> v.ready && v.last
    ensures d == Some(CeilingReached) <==> current >= maxPages && v.ready && !v.last
    ensures d == Some(NoNextPage) <==> current < maxPages && v.ready && !v.last && !v.advance
  {
    if !v.ready then Some(NotReady)
    else if v.last then Some(LastPage)
    else if current < maxPages then
      if v.advance then None else Some(NoNextPage)
    else Some(CeilingReached)
  }

  /** Where the loop, started on page `current`, stops and why: an
      independent recursive account of the loop's control flow. */
  function StopsAt(visits: nat -> Visit, current: nat, maxPages: nat): (r: Halt)
    requires 1 <= current <= maxPages
    ensures current <= r.page <= maxPages
    ensures forall k :: current <= k < r.page ==> MovesOn(visits(k))
    ensures Decide(visits(r.page), r.page, maxPages) == Some(r.reason)
    decreases maxPages - current
  {
    match Decide(visits(current), current, maxPages)
    case Some(reason) => Halt(current, reason)
    case None =>
      var r := StopsAt(visits, current + 1, maxPages);
      assert forall k :: current <= k < r.page ==> MovesOn(visits(k)) by {
        assert MovesOn(visits(current));
      }
      r
  }

  /** When every page up to the ceiling moves on, the loop runs to the
      ceiling: the page limit is what bounds the run. */
  lemma CeilingBoundsTheRun(visits: nat -> Visit, current: nat, maxPages: nat)
    requires 1 <= current <= maxPages
    requires forall k :: current <= k <= maxPages ==> MovesOn(visits(k))
    ensures StopsAt(visits, current, maxPages) == Halt(maxPages, CeilingReached)
  {
    var r := StopsAt(visits, current, maxPages);
    assert MovesOn(visits(r.page));
  }

  /** The records a run ends with: the pages before the stop, plus the
      stop page itself unless its table never loaded. */
  function Gathered(rows: nat -> seq<Record>, stop: Halt): seq<Record> {
    if stop.reason == NotReady then (if stop.page == 0 then [] else Harvest(rows, stop.page - 1))
    else Harvest(rows, stop.page)
  }

  lemma GatheredRecordsValid(rows: nat -> seq<Record>, stop: Halt)
    requires Numbered(rows)
    ensures forall i :: 0 <= i < |Gathered(rows, stop)| ==>
      ValidRecord(Gathered(rows, stop)[i]) && 1 <= Gathered(rows, stop)[i].pagina <= stop.page
  {
    if stop.reason != NotReady {
      HarvestNumbered(rows, stop.page);
    } else if stop.page > 0 {
      HarvestNumbered(rows, stop.page - 1);
    }
  }

  /** One visit of the loop: the stop point seen from page `current` is
      that page itself when the loop stops there, and otherwise the one seen
      from the next page. */
  lemma LoopStep(visits: nat -> Visit, current: nat, maxPages: nat)
    requires 1 <= current <= maxPages
    ensures var d := Decide(visits(current), current, maxPages);
      d.None? ==> current < maxPages && StopsAt(visits, current + 1, maxPages) == StopsAt(visits, current, maxPages)
    ensures var d := Decide(visits(current), current, maxPages);
      d.Some? ==> StopsAt(visits, current, maxPages) == Halt(current, d.value)
  {
  }

  /** The page loop of `scrape_all_pages`, from page 1 on: `visits(k)`
      is what the checks report on page `k`, and `rows(k)` the records its
      table yields. A page whose table never loads adds nothing. */
  method PageLoop(visits: nat -> Visit, rows: nat -> seq<Record>, maxPages: nat)
    returns (data: seq<Record>, halt: Halt)
    requires maxPages >= 1
    ensures halt == StopsAt(visits, 1, maxPages)
    ensures data == Gathered(rows, halt)
  {
    data := [];
    var current: nat := 1;
    var stop: Option<StopReason> := None;
    while stop.None?
      invariant 1 <= current <= maxPages
      invariant stop.None? ==> data == Harvest(rows, current - 1)
      invariant stop.None? ==> StopsAt(visits, current, maxPages) == StopsAt(visits, 1, maxPages)
      invariant stop.Some? ==> Halt(current, stop.value) == StopsAt(visits, 1, maxPages)
      invariant stop.Some? ==> data == Gathered(rows, Halt(current, stop.value))
      decreases maxPages - current, stop.None?
    {
      var seen := visits(current);
      LoopStep(visits, current, maxPages);
      if seen.ready {
        data := data + rows(current);
      }
      stop := Decide(seen, current, maxPages);
      if stop.None? {
        current := current + 1;
      }
    }
    halt := Halt(current, stop.value);
  }

  /** `scrape_all_pages`. `view(k)` is the page shown once the loop has
      reached page `k`; `landing` is the page right after navigation, on
      which the page size is chosen; `reached` says whether navigating to
      the listing succeeded; `selectors` are the "next" selectors tried on
      each page, which the scraper fixes to `NextSelectors`. */
  method ScrapeAllPages(maxPages: int, reached: bool, landing: PageSnapshot, view: nat -> PageSnapshot, selectors: seq<string>)
    returns (run: Run)
    ensures !reached ==> run == Run([], 0, NotOpened, NotChosen)
    ensures reached ==> run.density == SetItemsPerPage(landing, PreferredPageSize)
    ensures reached && maxPages < 1 ==> run.data == [] && run.stop == NoPages
    ensures reached && maxPages >= 1 ==> Halt(run.lastPage, run.stop) == StopsAt(Visits(view, selectors), 1, maxPages)
    ensures reached && maxPages >= 1 ==> run.data == Gathered(PageRows(view), Halt(run.lastPage, run.stop))
    ensures forall i :: 0 <= i < |run.data| ==> ValidRecord(run.data[i]) && 1 <= run.data[i].pagina <= run.lastPage
  {
    if !reached {
      return Run([], 0, NotOpened, NotChosen);
    }
    var density := SetItemsPerPage(landing, PreferredPageSize);
    if maxPages < 1 {
      return Run([], 0, NoPages, density);
    }
    var data, halt := PageLoop(Visits(view, selectors), PageRows(view), maxPages);
    PageRowsNumbered(view);
    GatheredRecordsValid(PageRows(view), halt);
    return Run(data, halt.page, halt.reason, density);
  }
}
