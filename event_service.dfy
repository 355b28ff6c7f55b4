/**
 * `searchEvents`: the defaults and the limit clamp applied to the query
 * parameters before the store's `search` runs, and the response built from
 * the store's answer. The store is a function parameter.
 */
module EventService {
  import opened Wrappers
  import opened Timing
  import opened Events
  import opened EventModel

  const DefaultPage: int := 1
  const DefaultLimit: int := 10
  const MinLimit: int := 1
  const MaxLimit: int := 100
  const DefaultSortOrder: string := "asc"

  /**
   * The query parameters. `page` and `limit` are what `parseInt(_, 10)` made
   * of the raw parameters, `None` standing for `NaN`; an absent text
   * parameter is `None`.
   */
  datatype SearchQuery = SearchQuery(
    name: Option<string>,
    startDateAfter: Option<string>,
    endDateBefore: Option<string>,
    sortBy: Option<string>,
    sortOrder: Option<string>,
    page: Option<int>,
    limit: Option<int>)

  /** The arguments `searchEvents` passes to the store's `search`. */
  datatype SearchRequest = SearchRequest(
    name: Option<string>,
    startDateAfter: Option<string>,
    endDateBefore: Option<string>,
    sortBy: string,
    sortOrder: string,
    page: int,
    limit: int)

  /** What the store's `search` answers: the matching count and the page of rows. */
  datatype StoreAnswer = StoreAnswer(totalEvents: int, events: seq<Event>)

  datatype SearchResponse = SearchResponse(totalEvents: int, page: int, limit: int, events: seq<Event>)

  /** `n || d` on a parsed number: `NaN` and `0` are falsy and give `d`. */
  function OrNumber(n: Option<int>, d: int): (r: int)
    ensures n.None? || n.value == 0 ==> r == d
    ensures n.Some? && n.value != 0 ==> r == n.value
  {
    if n.Some? && n.value != 0 then n.value else d
  }

  /** `s || d` on a text parameter: absent and `""` are falsy and give `d`. */
  function OrText(s: Option<string>, d: string): (r: string)
    ensures s.None? || s.value == "" ==> r == d
    ensures s.Some? && s.value != "" ==> r == s.value
  {
    if s.Some? && s.value != "" then s.value else d
  }

  /** `Math.min(Math.max(n, 1), 100)`. */
  function ClampLimit(n: int): (r: int)
    ensures MinLimit <= r <= MaxLimit
    ensures MinLimit <= n <= MaxLimit ==> r == n
    ensures n < MinLimit ==> r == MinLimit
    ensures n > MaxLimit ==> r == MaxLimit
  {
    Min(Max(n, MinLimit), MaxLimit)
  }

  /** The request built from the query parameters. */
  function Normalise(q: SearchQuery): (r: SearchRequest)
    ensures MinLimit <= r.limit <= MaxLimit
    ensures r.page != 0
    ensures q.page.None? || q.page == Some(0) ==> r.page == DefaultPage
    ensures q.page.Some? && q.page.value != 0 ==> r.page == q.page.value
    ensures q.limit.None? || q.limit == Some(0) ==> r.limit == DefaultLimit
    ensures q.limit.Some? && MinLimit <= q.limit.value <= MaxLimit ==> r.limit == q.limit.value
    ensures q.limit.Some? && q.limit.value != 0 && q.limit.value < MinLimit ==> r.limit == MinLimit
    ensures q.limit.Some? && q.limit.value > MaxLimit ==> r.limit == MaxLimit
    ensures q.sortBy.None? || q.sortBy == Some("") ==> r.sortBy == DefaultSortColumn
    ensures q.sortBy.Some? && q.sortBy.value != "" ==> r.sortBy == q.sortBy.value
    ensures q.sortOrder.None? || q.sortOrder == Some("") ==> r.sortOrder == DefaultSortOrder
    ensures q.sortOrder.Some? && q.sortOrder.value != "" ==> r.sortOrder == q.sortOrder.value
    ensures r.name == q.name && r.startDateAfter == q.startDateAfter && r.endDateBefore == q.endDateBefore
  {
    SearchRequest(q.name, q.startDateAfter, q.endDateBefore,
      OrText(q.sortBy, DefaultSortColumn), OrText(q.sortOrder, DefaultSortOrder),
      OrNumber(q.page, DefaultPage), ClampLimit(OrNumber(q.limit, DefaultLimit)))
  }

  /** `searchEvents`: the page and limit sent to the store come back as they were sent, with the store's count and rows. */
  function SearchEvents(q: SearchQuery, store: SearchRequest -> StoreAnswer): (r: SearchResponse)
    ensures var req := Normalise(q);
      && r.page == req.page && r.limit == req.limit
      && r.totalEvents == store(req).totalEvents && r.events == store(req).events
  {
    var req := Normalise(q);
    var answer := store(req);
    SearchResponse(answer.totalEvents, req.page, req.limit, answer.events)
  }

  /** The query whose parameters are the fields of a request. */
  function AsQuery(req: SearchRequest): SearchQuery {
    SearchQuery(req.name, req.startDateAfter, req.endDateBefore, Some(req.sortBy), Some(req.sortOrder),
      Some(req.page), Some(req.limit))
  }

  /** Normalising is idempotent: a normalised request passes through unchanged. */
  lemma NormaliseIdempotent(q: SearchQuery)
    ensures Normalise(AsQuery(Normalise(q))) == Normalise(q)
  {
    var r := Normalise(q);
    assert r.sortBy != "" by {
      if q.sortBy.None? || q.sortBy.value == "" {
        assert r.sortBy == DefaultSortColumn;
      }
    }
    assert r.sortOrder != "" by {
      if q.sortOrder.None? || q.sortOrder.value == "" {
        assert r.sortOrder == DefaultSortOrder;
      }
    }
  }

  /**
   * The store's plan for a normalised request: a page of 1 to 100 rows, at
   * offset `(page - 1) * limit`, which is never negative for a positive
   * page, ordered by a whitelisted column.
   */
  lemma NormalisedPlan(q: SearchQuery)
    ensures var req := Normalise(q);
      var p := Plan(req.page, req.limit, req.sortBy, req.sortOrder);
      && MinLimit <= p.limit <= MaxLimit
      && p.offset == (req.page - 1) * req.limit
      && (req.page >= 1 ==> p.offset >= 0)
      && p.column in SortColumns
      && (q.sortBy.None? ==> p.column == DefaultSortColumn)
      && (q.sortOrder.None? ==> p.order == Asc)
  {
    var req := Normalise(q);
    var p := Plan(req.page, req.limit, req.sortBy, req.sortOrder);
    if req.page >= 1 {
      assert (req.page - 1) * req.limit >= 0;
    }
  }
}
