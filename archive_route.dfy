/**
  The archive endpoint `GET /api/archive` (src/app/api/archive/route.ts):
  it reads the `page` and `limit` query parameters, cuts one page out of
  the index of fact dates, and returns the facts stored for those dates.
  The store is the map `store` from date to fact; the index is a value.
*/
module ArchiveRoute {
  import opened Options

  datatype DailyFact = DailyFact(date: string, fact: string, starWars: string,
                                 imagePrompt: string, imageUrl: string, generatedAt: string)

  /** The list of dates that have a stored fact, newest first. */
  datatype ArchiveIndex = ArchiveIndex(dates: seq<string>)

  /** The JSON body of the response. */
  datatype ArchiveResponse = ArchiveResponse(facts: seq<DailyFact>, totalCount: nat, page: int)

  const DefaultPage := 1
  const DefaultLimit := 10
  const MaxLimit := 50

  /** The page to serve: the requested page, but at least 1; 1 when absent. */
  function ClampPage(param: Option<int>): (page: int)
    ensures page >= 1
    ensures param.None? ==> page == DefaultPage
    ensures param.Some? && param.value >= 1 ==> page == param.value
    ensures param.Some? && param.value < 1 ==> page == 1
  {
    var requested := param.GetOr(DefaultPage);
    if 1 > requested then 1 else requested
  }

  /** The page size: the requested size clamped to 1 ..= `MaxLimit`; 10 when absent. */
  function ClampLimit(param: Option<int>): (limit: int)
    ensures 1 <= limit <= MaxLimit
    ensures param.None? ==> limit == DefaultLimit
    ensures param.Some? && 1 <= param.value <= MaxLimit ==> limit == param.value
    ensures param.Some? && param.value < 1 ==> limit == 1
    ensures param.Some? && param.value > MaxLimit ==> limit == MaxLimit
  {
    var requested := param.GetOr(DefaultLimit);
    var atLeastOne := if 1 > requested then 1 else requested;
    if MaxLimit < atLeastOne then MaxLimit else atLeastOne
  }

  /** Where an index argument of `Array.prototype.slice` lands in a list of
      `len` elements: negative values count from the end, and both ends clamp. */
  function SliceIndex(k: int, len: nat): (i: nat)
    ensures i <= len
    ensures 0 <= k <= len ==> i == k
    ensures k > len ==> i == len
    ensures k < 0 && 0 <= len + k ==> i == len + k
    ensures len + k < 0 ==> i == 0
  {
    if k < 0 then (if len + k < 0 then 0 else len + k)
    else if k > len then len
    else k
  }

  /** `s.slice(start, end)`. */
  function Slice<T>(s: seq<T>, start: int, end: int): (r: seq<T>)
    ensures var from, to := SliceIndex(start, |s|), SliceIndex(end, |s|);
      && |r| == (if from < to then to - from else 0)
      && (forall i :: 0 <= i < |r| ==> r[i] == s[from + i])
  {
    var from, to := SliceIndex(start, |s|), SliceIndex(end, |s|);
    if from < to then s[from..to] else []
  }

  /** The dates on page `page` of `limit` dates each. */
  function PageDates(dates: seq<string>, page: int, limit: int): seq<string> {
    var start := (page - 1) * limit;
    Slice(dates, start, start + limit)
  }

  function Min(a: int, b: int): int {
    if a <= b then a else b
  }

  /** For a clamped page and limit the page is the window of at most `limit`
      dates starting at `(page - 1) * limit`, empty past the end of the index. */
  lemma PageWindow(dates: seq<string>, page: int, limit: int)
    requires page >= 1 && limit >= 1
    ensures var start := (page - 1) * limit;
      && start >= 0
      && PageDates(dates, page, limit) == dates[Min(start, |dates|)..Min(start + limit, |dates|)]
      && |PageDates(dates, page, limit)| <= limit
      && (start >= |dates| ==> PageDates(dates, page, limit) == [])
  {
    var start := (page - 1) * limit;
    PageSteps(page, limit);
    var a, b := Min(start, |dates|), Min(start + limit, |dates|);
    assert SliceIndex(start, |dates|) == a && SliceIndex(start + limit, |dates|) == b;
    assert a <= b;
  }

  /** Pages 1 to `k` together are the first `k * limit` dates, in order:
      paging neither skips nor repeats a date. */
  function Pages(dates: seq<string>, k: nat, limit: int): seq<string> {
    if k == 0 then [] else Pages(dates, k - 1, limit) + PageDates(dates, k, limit)
  }

  /** Page `k` ends where page `k + 1` starts. */
  lemma PageSteps(k: nat, limit: int)
    requires k >= 1 && limit >= 1
    ensures 0 <= (k - 1) * limit <= k * limit
    ensures (k - 1) * limit + limit == k * limit
  {
    assert (k - 1) * limit >= 0 * limit;
  }

  lemma JoinSlices<T>(s: seq<T>, a: int, b: int)
    requires 0 <= a <= b <= |s|
    ensures s[..a] + s[a..b] == s[..b]
  {
  }

  lemma {:induction false} PagesTile(dates: seq<string>, k: nat, limit: int)
    requires limit >= 1
    ensures Pages(dates, k, limit) == dates[..Min(k * limit, |dates|)]
  {
    if k > 0 {
      var start, end := (k - 1) * limit, k * limit;
      PageSteps(k, limit);
      var a, b := Min(start, |dates|), Min(end, |dates|);
      PagesTile(dates, k - 1, limit);
      PageWindow(dates, k, limit);
      assert PageDates(dates, k, limit) == dates[a..b];
      JoinSlices(dates, a, b);
    }
  }

  /** The facts stored for `dates`, in the order of `dates`, skipping the
      dates the store has no fact for. */
  function Found(dates: seq<string>, store: map<string, DailyFact>): seq<DailyFact> {
    if dates == [] then []
    else
      var last := dates[|dates| - 1];
      Found(dates[..|dates| - 1], store) + (if last in store then [store[last]] else [])
  }

  /** Looking up two runs of dates one after the other gives the facts of
      the first run followed by those of the second. */
  lemma {:induction false} FoundAppend(a: seq<string>, b: seq<string>, store: map<string, DailyFact>)
    ensures Found(a + b, store) == Found(a, store) + Found(b, store)
    decreases |b|
  {
    if b == [] {
      assert a + b == a;
    } else {
      var init := b[..|b| - 1];
      assert (a + b)[..|a + b| - 1] == a + init;
      FoundAppend(a, init, store);
    }
  }

  /** A fact is returned exactly when one of the dates has it in the store. */
  lemma {:induction false} FoundMembers(dates: seq<string>, store: map<string, DailyFact>, f: DailyFact)
    ensures f in Found(dates, store) <==> exists d :: d in dates && d in store && store[d] == f
    ensures |Found(dates, store)| <= |dates|
    decreases |dates|
  {
    if dates != [] {
      var init, last := dates[..|dates| - 1], dates[|dates| - 1];
      FoundMembers(init, store, f);
      assert dates == init + [last];
      if exists d :: d in dates && d in store && store[d] == f {
        var d :| d in dates && d in store && store[d] == f;
        if d != last {
          assert d in init;
        }
      }
    }
  }

  /** When every date has a fact, the facts are those of the dates, one for one. */
  lemma {:induction false} FoundAll(dates: seq<string>, store: map<string, DailyFact>)
    requires forall d :: d in dates ==> d in store
    ensures |Found(dates, store)| == |dates|
    ensures forall i :: 0 <= i < |dates| ==> Found(dates, store)[i] == store[dates[i]]
    decreases |dates|
  {
    if dates != [] {
      var init := dates[..|dates| - 1];
      assert forall d :: d in init ==> d in dates;
      FoundAll(init, store);
    }
  }

  /** The loop over the page's dates that collects the stored facts. */
  method CollectFacts(pageDates: seq<string>, store: map<string, DailyFact>) returns (facts: seq<DailyFact>)
    ensures facts == Found(pageDates, store)
  {
    facts := [];
    for i := 0 to |pageDates|
      invariant facts == Found(pageDates[..i], store)
    {
      var date := pageDates[i];
      assert pageDates[..i + 1][..i] == pageDates[..i];
      if date in store {
        facts := facts + [store[date]];
      }
    }
    assert pageDates[..|pageDates|] == pageDates;
  }

  /** The request handler: the clamped page, all dates counted, and the
      stored facts of the page's dates. */
  method Get(pageParam: Option<int>, limitParam: Option<int>, index: ArchiveIndex,
             store: map<string, DailyFact>) returns (response: ArchiveResponse)
    ensures response.page == ClampPage(pageParam)
    ensures response.totalCount == |index.dates|
    ensures response.facts
      == Found(PageDates(index.dates, ClampPage(pageParam), ClampLimit(limitParam)), store)
  {
    var page := ClampPage(pageParam);
    var limit := ClampLimit(limitParam);
    var totalCount := |index.dates|;
    var start := (page - 1) * limit;
    var pageDates := Slice(index.dates, start, start + limit);
    assert pageDates == PageDates(index.dates, page, limit);
    var facts := CollectFacts(pageDates, store);
    response := ArchiveResponse(facts, totalCount, page);
  }

  /** A page never holds more facts than the page size. */
  lemma ResponseBounded(pageParam: Option<int>, limitParam: Option<int>, index: ArchiveIndex,
                        store: map<string, DailyFact>)
    ensures var facts := Found(PageDates(index.dates, ClampPage(pageParam), ClampLimit(limitParam)), store);
      |facts| <= ClampLimit(limitParam) <= MaxLimit
  {
    var dates := PageDates(index.dates, ClampPage(pageParam), ClampLimit(limitParam));
    PageWindow(index.dates, ClampPage(pageParam), ClampLimit(limitParam));
    FoundMembers(dates, store, DailyFact("", "", "", "", "", ""));
  }

  /** An empty index gives no facts and a total of 0, on every page. */
  lemma EmptyIndex(pageParam: Option<int>, limitParam: Option<int>, store: map<string, DailyFact>)
    ensures PageDates([], ClampPage(pageParam), ClampLimit(limitParam)) == []
    ensures Found(PageDates([], ClampPage(pageParam), ClampLimit(limitParam)), store) == []
  {
    PageWindow([], ClampPage(pageParam), ClampLimit(limitParam));
  }

  /** Three dated facts, two per page: the first page holds the two newest,
      the second the oldest alone. */
  lemma ThreeDatesTwoPerPage(store: map<string, DailyFact>)
    requires "2026-02-21" in store && "2026-02-20" in store && "2026-02-19" in store
    ensures var dates := ["2026-02-21", "2026-02-20", "2026-02-19"];
      && Found(PageDates(dates, ClampPage(Some(1)), ClampLimit(Some(2))), store)
         == [store["2026-02-21"], store["2026-02-20"]]
      && Found(PageDates(dates, ClampPage(Some(2)), ClampLimit(Some(2))), store)
         == [store["2026-02-19"]]
  {
    var dates := ["2026-02-21", "2026-02-20", "2026-02-19"];
    PageWindow(dates, 1, 2);
    PageWindow(dates, 2, 2);
    var first, second := PageDates(dates, 1, 2), PageDates(dates, 2, 2);
    assert first == ["2026-02-21", "2026-02-20"];
    assert second == ["2026-02-19"];
    FoundAll(first, store);
    FoundAll(second, store);
  }
}
