/**
  A client's scan of a paginated endpoint, request by request: every later request
  brings the token of the page before, and the data may change in between.
 */
module PagedRun {
  import opened Wrappers
  import Ordering
  import opened KeysetScan
  import opened Pagination

  /**
    A paginated endpoint: the JSON form of its selectors and how it reads a first
    query; when its data is in order, and what it holds; how it answers; the selector
    of an item; and the order of a scan with these parameters.
   */
  datatype Endpoint<!D, !T, !P, !S> = Endpoint(
    json: Json<S>,
    fromMap: map<string, string> -> Option<P>,
    inOrder: D -> bool,
    holds: D -> set<T>,
    list: (D, WhichPage<P, S>, nat) -> Result<ResultsPage<T>, TokenError>,
    selectorFor: (T, P) -> S,
    precedes: P -> ((T, T) -> bool))

  /** The request that follows the item `last`, or begins the scan. */
  function RequestAfter<T, P, S>(selectorFor: (T, P) -> S, params: P, last: Option<T>): WhichPage<P, S> {
    match last
    case None => First(params)
    case Some(x) => Next(selectorFor(x, params))
  }

  /** The token of a response redeems to the selector of its last item; an empty response has none. */
  ghost predicate Resumes<T, P, S>(json: Json<S>, selectorFor: (T, P) -> S, params: P, response: ResultsPage<T>) {
    && (response.nextPage.None? <==> response.items == [])
    && (response.items != [] ==>
         DeserializePageToken(json, response.nextPage.value) == Ok(selectorFor(LastOf(response.items).value, params)))
  }

  /** Asked for what comes after `last`, the endpoint answers with a page of it, and a token to go on from there. */
  ghost predicate ListsPage<D, T(!new), P, S>(e: Endpoint<D, T, P, S>, params: P, data: D, last: Option<T>, limit: nat)
  {
    var r := e.list(data, RequestAfter(e.selectorFor, params, last), limit);
    e.inOrder(data) && r.Ok? ==>
      && IsPage(e.precedes(params), e.holds(data), last, limit, r.value.items)
      && Resumes(e.json, e.selectorFor, params, r.value)
  }

  ghost predicate ListsPages<D(!new), T(!new), P, S(!new)>(e: Endpoint<D, T, P, S>, params: P) {
    && Faithful(e.json) && StrictOrder(e.precedes(params))
    && forall data, last, limit {:trigger ListsPage(e, params, data, last, limit)} ::
         ListsPage(e, params, data, last, limit)
  }

  // ------------------------------------------------------------------------ runs

  /** A client's scan: its requests, the data as each one finds it, and the responses. */
  datatype Run<D, T> = Run(
    data: seq<D>,
    queries: seq<map<string, string>>,
    requested: seq<Option<Limit>>,
    responses: seq<ResultsPage<T>>)

  ghost predicate Answered<D, T, P, S>(e: Endpoint<D, T, P, S>, config: PageConfig, run: Run<D, T>, i: nat)
    requires i < |run.data| && i < |run.queries| && i < |run.requested| && i < |run.responses|
  {
    && e.inOrder(run.data[i])
    && var page := DeserializeWhichPage(e.json, e.fromMap, run.queries[i]);
      && page.Ok?
      && e.list(run.data[i], page.value, PageLimit(config, run.requested[i])) == Ok(run.responses[i])
  }

  /** Each later request brings the token of the response before, and nothing else that matters. */
  ghost predicate Resumed<D, T>(run: Run<D, T>, i: nat)
    requires 0 < i < |run.queries| && i < |run.responses|
  {
    && run.responses[i - 1].nextPage.Some?
    && "page_token" in run.queries[i]
    && run.queries[i]["page_token"] == run.responses[i - 1].nextPage.value
  }

  /**
    A successful scan with these parameters: the first query asks for it, every
    later one resumes, and the data may be different at each request.
   */
  ghost predicate IsRun<D, T, P, S>(e: Endpoint<D, T, P, S>, config: PageConfig, params: P, run: Run<D, T>) {
    && |run.data| == |run.queries| == |run.requested| == |run.responses| >= 1
    && DeserializeWhichPage(e.json, e.fromMap, run.queries[0]) == Ok(First(params))
    && (forall i {:trigger Resumed(run, i)} :: 0 < i < |run.queries| ==> Resumed(run, i))
    && (forall i {:trigger Answered(e, config, run, i)} :: 0 <= i < |run.queries| ==> Answered(e, config, run, i))
  }

  function LastBefore<D, T>(run: Run<D, T>, i: nat): Option<T>
    requires i <= |run.responses|
  {
    if i == 0 then None else LastOf(run.responses[i - 1].items)
  }

  predicate Finished<D, T>(run: Run<D, T>) {
    run.responses != [] && run.responses[|run.responses| - 1].nextPage.None?
  }

  /** The pages of a run. */
  function PagesOf<D, T>(run: Run<D, T>): (r: seq<seq<T>>)
    ensures |r| == |run.responses| && forall i :: 0 <= i < |r| ==> r[i] == run.responses[i].items
  {
    seq(|run.responses|, i requires 0 <= i < |run.responses| => run.responses[i].items)
  }

  function Returned<D, T>(run: Run<D, T>): seq<T> {
    Flatten(PagesOf(run))
  }

  ghost function HeldAt<D, T, P, S>(e: Endpoint<D, T, P, S>, run: Run<D, T>): (r: seq<set<T>>)
    ensures |r| == |run.data| && forall i :: 0 <= i < |r| ==> r[i] == e.holds(run.data[i])
  {
    seq(|run.data|, i requires 0 <= i < |run.data| => e.holds(run.data[i]))
  }

  function LimitsOf<D, T>(config: PageConfig, run: Run<D, T>): (r: seq<Limit>)
    ensures |r| == |run.requested| && forall i :: 0 <= i < |r| ==> r[i] == PageLimit(config, run.requested[i])
  {
    seq(|run.requested|, i requires 0 <= i < |run.requested| => PageLimit(config, run.requested[i]))
  }

  /**
    The scan recovered from each token is that of the first request: request `i`
    is understood as "with these parameters, after the last item of the page before".
   */
  lemma {:induction false} RunKeepsItsScan<D(!new), T(!new), P, S(!new)>(
      e: Endpoint<D, T, P, S>, config: PageConfig, params: P, run: Run<D, T>, i: nat)
    requires ListsPages(e, params) && IsRun(e, config, params, run) && i < |run.queries|
    ensures DeserializeWhichPage(e.json, e.fromMap, run.queries[i])
         == Ok(RequestAfter(e.selectorFor, params, LastBefore(run, i)))
    ensures IsPage(e.precedes(params), e.holds(run.data[i]), LastBefore(run, i), PageLimit(config, run.requested[i]),
                   run.responses[i].items)
    ensures Resumes(e.json, e.selectorFor, params, run.responses[i])
    ensures i > 0 ==> run.responses[i - 1].items != []
  {
    hide Faithful, DeserializePageToken, PageLimit, IsPage;
    assert Answered(e, config, run, i);
    if i > 0 {
      RunKeepsItsScan(e, config, params, run, i - 1);
      assert Resumed(run, i);
    }
    assert ListsPage(e, params, run.data[i], LastBefore(run, i), PageLimit(config, run.requested[i]));
  }

  lemma RunIsScan<D(!new), T(!new), P, S(!new)>(e: Endpoint<D, T, P, S>, config: PageConfig, params: P,
                                                run: Run<D, T>)
    requires ListsPages(e, params) && IsRun(e, config, params, run)
    ensures IsScan(e.precedes(params), HeldAt(e, run), LimitsOf(config, run), PagesOf(run))
    ensures StrictOrder(e.precedes(params))
  {
    var limits := LimitsOf(config, run);
    assert |run.data| == |run.queries| == |run.requested| == |run.responses| >= 1;
    assert StrictOrder(e.precedes(params));
    hide IsPage, PageLimit, IsRun, ListsPages, DeserializeWhichPage, RequestAfter, Resumes;
    forall i | 0 <= i < |PagesOf(run)|
      ensures PageFollows(e.precedes(params), HeldAt(e, run), limits, PagesOf(run), i)
    {
      RunKeepsItsScan(e, config, params, run, i);
    }
  }

  lemma EndsWithEmptyPage<D(!new), T(!new), P, S(!new)>(e: Endpoint<D, T, P, S>, config: PageConfig, params: P,
                                                        run: Run<D, T>)
    requires ListsPages(e, params) && IsRun(e, config, params, run) && Finished(run)
    ensures run.responses[|run.responses| - 1].items == []
  {
    RunKeepsItsScan(e, config, params, run, |run.responses| - 1);
    hide ListsPages, IsPage, DeserializeWhichPage;
  }

  /** Whatever happens to the data between the requests, the client sees items in order, and none twice. */
  lemma RunIsIncreasing<D(!new), T(!new), P, S(!new)>(e: Endpoint<D, T, P, S>, config: PageConfig, params: P,
                                                      run: Run<D, T>)
    requires ListsPages(e, params) && IsRun(e, config, params, run)
    ensures Ordering.Increasing(e.precedes(params), Returned(run))
    ensures forall i, j :: 0 <= i < j < |Returned(run)| ==> Returned(run)[i] != Returned(run)[j]
  {
    RunIsScan(e, config, params, run);
    hide IsRun, ListsPages, IsScan;
    ScanIsIncreasing(e.precedes(params), HeldAt(e, run), LimitsOf(config, run), PagesOf(run));
  }

  /** The order knows an item by its selector alone. */
  ghost predicate OrderedBySelector<D, T(!new), P, S>(e: Endpoint<D, T, P, S>, params: P) {
    forall x, y, z | e.selectorFor(x, params) == e.selectorFor(y, params) ::
      e.precedes(params)(z, x) == e.precedes(params)(z, y)
  }

  /**
    What exactly a finished run has returned: each selector has one request that
    comes to its place in the order, and an item with this selector is returned if
    and only if it was there then -- whatever else it was like before and after.
   */
  lemma RunReturnsIff<D(!new), T(!new), P, S(!new)>(e: Endpoint<D, T, P, S>, config: PageConfig, params: P,
                                                    run: Run<D, T>, x: T)
    returns (i: nat)
    requires ListsPages(e, params) && OrderedBySelector(e, params) && IsRun(e, config, params, run) && Finished(run)
    ensures i < |run.data| && Settles(e.precedes(params), PagesOf(run), x, i)
    ensures forall y :: e.selectorFor(y, params) == e.selectorFor(x, params) ==>
      (y in Returned(run) <==> y in e.holds(run.data[i]))
  {
    assert |run.data| == |run.responses| >= 1;
    RunIsScan(e, config, params, run);
    EndsWithEmptyPage(e, config, params, run);
    hide IsRun, ListsPages, IsScan;
    var lt, pages, limits := e.precedes(params), PagesOf(run), LimitsOf(config, run);
    i := FinishedScanReturnsIff(lt, HeldAt(e, run), limits, pages, x);
    forall y | e.selectorFor(y, params) == e.selectorFor(x, params)
      ensures y in Returned(run) <==> y in e.holds(run.data[i])
    {
      assert Settles(lt, pages, y, i);
      ReturnedIffPresentWhenSettled(lt, HeldAt(e, run), limits, pages, y, i);
    }
  }

  /** While the data holds the same n items, a run takes at most n + 1 requests; finished, it returned just them. */
  lemma RunOverUnchangingItems<D(!new), T(!new), P, S(!new)>(e: Endpoint<D, T, P, S>, config: PageConfig, params: P,
                                                             run: Run<D, T>, items: set<T>)
    requires ListsPages(e, params) && IsRun(e, config, params, run)
    requires forall i :: 0 <= i < |run.data| ==> e.holds(run.data[i]) == items
    ensures |run.responses| <= |items| + 1
    ensures Finished(run) ==> forall x :: x in Returned(run) <==> x in items
  {
    assert |run.data| == |run.responses| >= 1;
    RunIsScan(e, config, params, run);
    if Finished(run) { EndsWithEmptyPage(e, config, params, run); }
    hide IsRun, ListsPages, IsScan;
    ScanOfUnchangingCollection(e.precedes(params), items, HeldAt(e, run), LimitsOf(config, run), PagesOf(run));
  }
}
