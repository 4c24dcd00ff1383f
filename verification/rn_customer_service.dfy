/** MyCustomersRN/src/services/customerService.ts: the React Native client's
    customer listing, which fetches a single page when the caller asks for
    one the server allows and otherwise pages through the whole table, and
    the time-stamping of the DTOs it sends. The HTTP client is the `fetch`
    parameter, and the clock is the `now` parameter. */
module RnCustomerService {
  import opened Wrappers

  /** The query string of a listing request: `skip` is left out when undefined. */
  datatype Query = Query(skip: Option<int>, take: int)

  /** What `apiClient.get` gives back: a body (whose fields may be missing),
      no body at all, or an error it throws. */
  datatype Response<C> =
    | Body(items: Option<seq<C>>, totalCount: Option<int>)
    | NoBody
    | Error

  /** The outcome of `getCustomers`: the customers, or the rethrown error. */
  datatype Outcome<C> = Items(customers: seq<C>) | Threw

  /** `MAX_PAGE_SIZE`, kept equal to the server's page limit. */
  const MaxPageSize: int := 100
  /** `safetyLimit`: the most requests the paging loop makes. */
  const SafetyLimit: nat := 1000

  /** `response?.items || []`. */
  function ItemsOf<C>(r: Response<C>): seq<C> {
    if r.Body? && r.items.Some? then r.items.value else []
  }

  /** `response?.totalCount ?? null`. */
  function TotalOf<C>(r: Response<C>): Option<int> {
    if r.Body? then r.totalCount else None
  }

  /** The page request the loop makes at a position. */
  function PageQuery(skip: int): Query {
    Query(Some(skip), MaxPageSize)
  }

  /** Reference definition: the items of `n` consecutive pages, each asked
      for at the position the previous ones reached. */
  function Fetched<C>(fetch: Query -> Response<C>, start: int, n: nat): seq<C>
    decreases n
  {
    if n == 0 then []
    else
      var items := ItemsOf(fetch(PageQuery(start)));
      items + Fetched(fetch, start + |items|, n - 1)
  }

  /** The response to the `j`-th request of the loop. */
  function ResponseAt<C>(fetch: Query -> Response<C>, start: int, j: nat): Response<C> {
    fetch(PageQuery(start + |Fetched(fetch, start, j)|))
  }

  /** The first total count among the first `n` responses. */
  function FirstTotal<C>(fetch: Query -> Response<C>, start: int, n: nat): Option<int> {
    if n == 0 then None
    else
      var before := FirstTotal(fetch, start, n - 1);
      if before.Some? then before else TotalOf(ResponseAt(fetch, start, n - 1))
  }

  /** The loop's exit test after its `j`-th request: the known total is
      reached, or the page came back empty. */
  ghost predicate StopsAfter<C>(fetch: Query -> Response<C>, start: int, j: nat) {
    var total := FirstTotal(fetch, start, j + 1);
    || (total.Some? && |Fetched(fetch, start, j + 1)| >= total.value)
    || |ItemsOf(ResponseAt(fetch, start, j))| == 0
  }

  /** Fetching one page more appends that page. */
  lemma {:induction false} FetchedSnoc<C>(fetch: Query -> Response<C>, start: int, n: nat)
    ensures Fetched(fetch, start, n + 1) == Fetched(fetch, start, n) + ItemsOf(ResponseAt(fetch, start, n))
    decreases n
  {
    if n > 0 {
      var items := ItemsOf(fetch(PageQuery(start)));
      FetchedSnoc(fetch, start + |items|, n - 1);
      assert ResponseAt(fetch, start + |items|, n - 1) == ResponseAt(fetch, start, n);
    }
  }

  /** `getCustomers(skip, take)`: with a take the server accepts, one request
      and its items; otherwise pages of 100 from `skip ?? 0`, concatenated in
      order, until the first known total is reached, a page is empty, or the
      safety limit of requests is used up. Any thrown error is rethrown. */
  method GetCustomers<C>(skip: Option<int>, take: Option<int>, fetch: Query -> Response<C>)
    returns (r: Outcome<C>, requests: nat)
    ensures take.Some? && 0 < take.value <= MaxPageSize ==>
      && requests == 1
      && r == (match fetch(Query(skip, take.value))
               case Body(items, _) => Items(items.GetOr([]))
               case _ => Threw)
    ensures !(take.Some? && 0 < take.value <= MaxPageSize) ==>
      var start := skip.GetOr(0);
      && 1 <= requests <= SafetyLimit
      && (forall j :: 0 <= j < requests - 1 ==> !ResponseAt(fetch, start, j).Error? && !StopsAfter(fetch, start, j))
      && (r.Threw? <==> ResponseAt(fetch, start, requests - 1).Error?)
      && (r.Items? ==> r.customers == Fetched(fetch, start, requests))
      && (r.Items? && requests < SafetyLimit ==> StopsAfter(fetch, start, requests - 1))
  {
    if take.Some? && 0 < take.value <= MaxPageSize {
      var response := fetch(Query(skip, take.value));
      requests := 1;
      match response {
        case Body(items, _) => r := Items(items.GetOr([]));
        case _ => r := Threw;
      }
      return;
    }
    var start := skip.GetOr(0);
    var allItems: seq<C> := [];
    var currentSkip := start;
    var totalCount: Option<int> := None;
    var iterations: nat := 0;
    while true
      invariant iterations <= SafetyLimit
      invariant allItems == Fetched(fetch, start, iterations)
      invariant currentSkip == start + |allItems|
      invariant totalCount == FirstTotal(fetch, start, iterations)
      invariant forall j :: 0 <= j < iterations ==> !ResponseAt(fetch, start, j).Error? && !StopsAfter(fetch, start, j)
      decreases SafetyLimit - iterations
    {
      if iterations + 1 > SafetyLimit {
        break;
      }
      var response := fetch(PageQuery(currentSkip));
      assert response == ResponseAt(fetch, start, iterations);
      if response.Error? {
        r, requests := Threw, iterations + 1;
        return;
      }
      var items := ItemsOf(response);
      FetchedSnoc(fetch, start, iterations);
      allItems := allItems + items;
      if totalCount.None? {
        totalCount := TotalOf(response);
      }
      currentSkip := currentSkip + |items|;
      iterations := iterations + 1;
      if (totalCount.Some? && |allItems| >= totalCount.value) || |items| == 0 {
        break;
      }
    }
    r, requests := Items(allItems), iterations;
  }

  /** Once a total count is known it is never replaced. */
  lemma {:induction false} FirstTotalStays<C>(fetch: Query -> Response<C>, start: int, n: nat, m: nat)
    requires n <= m && FirstTotal(fetch, start, n).Some?
    ensures FirstTotal(fetch, start, m) == FirstTotal(fetch, start, n)
    decreases m - n
  {
    if n < m {
      FirstTotalStays(fetch, start, n, m - 1);
    }
  }

  /** A server that answers page queries over a fixed table in order, with
      the table's size as the total, and refuses the paging arguments its
      validator refuses. */
  function Serve<C>(table: seq<C>, q: Query): Response<C> {
    if q.skip.GetOr(0) < 0 || q.take < 1 || q.take > MaxPageSize then Error
    else
      var s := q.skip.GetOr(0);
      var hi := if s + q.take < |table| then s + q.take else |table|;
      Body(Some(if s < |table| then table[s..hi] else []), Some(|table|))
  }

  /** `Serve` as the client's `fetch`. */
  function ServerFetch<C>(table: seq<C>): Query -> Response<C> {
    q => Serve(table, q)
  }

  /** Against such a server, `n` pages from a position hold the next
      `100 * n` entries of the table, or all the rest of it. */
  lemma {:induction false} FetchedFromTable<C>(table: seq<C>, start: nat, n: nat)
    requires start <= |table|
    ensures var hi := if start + MaxPageSize * n < |table| then start + MaxPageSize * n else |table|;
      Fetched(ServerFetch(table), start, n) == table[start..hi]
    decreases n
  {
    if n > 0 {
      var items := ItemsOf(ServerFetch(table)(PageQuery(start)));
      FetchedFromTable(table, start + |items|, n - 1);
    }
  }

  /** Against such a server, a listing from `start` that stopped by its own
      exit test returned exactly the rest of the table. */
  lemma PagingCollectsTable<C>(table: seq<C>, start: nat, n: nat)
    requires start <= |table| && n >= 1
    requires StopsAfter(ServerFetch(table), start, n - 1)
    ensures Fetched(ServerFetch(table), start, n) == table[start..]
  {
    var fetch := ServerFetch(table);
    var now := Fetched(fetch, start, n);
    var before := Fetched(fetch, start, n - 1);
    var last := ItemsOf(ResponseAt(fetch, start, n - 1));
    FetchedFromTable(table, start, n);
    FetchedFromTable(table, start, n - 1);
    FetchedSnoc(fetch, start, n - 1);
    FirstTotalIsSize(table, start, n);
    assert now == before + last;
    var reach := start + MaxPageSize * (n - 1);
    assert start + MaxPageSize * n == reach + MaxPageSize;
    if |now| >= |table| {
      assert now == table[start..];
    } else {
      assert |last| == 0;
      assert |before| == |now|;
    }
  }

  /** Against such a server, the first response already carries the total. */
  lemma FirstTotalIsSize<C>(table: seq<C>, start: nat, n: nat)
    requires start <= |table| && n >= 1
    ensures FirstTotal(ServerFetch(table), start, n) == Some(|table|)
  {
    var fetch := ServerFetch(table);
    assert FirstTotal(fetch, start, 1) == Some(|table|);
    FirstTotalStays(fetch, start, 1, n);
  }

  /** `CreateUpdateCustomerDto` without its two timestamps, as callers pass it. */
  datatype Draft = Draft(name: string, email: string, number: Option<string>, notes: Option<string>,
                         firstName: Option<string>, lastName: Option<string>)

  /** `CreateUpdateCustomerDto` as the client sends it. */
  datatype ClientDto = ClientDto(draft: Draft, createdDate: Option<string>, updatedDate: string)

  /** `createCustomer`: both timestamps are the same reading of the clock. */
  function StampForCreate(draft: Draft, now: string): (dto: ClientDto)
    ensures dto.createdDate == Some(dto.updatedDate)
    ensures dto.updatedDate == now
  {
    ClientDto(draft, Some(now), now)
  }

  /** `updateCustomer`: only the update timestamp is sent. */
  function StampForUpdate(draft: Draft, now: string): (dto: ClientDto)
    ensures dto.createdDate.None? && dto.updatedDate == now
  {
    ClientDto(draft, None, now)
  }

  /** Stamping keeps every field the caller gave, whichever stamp is used. */
  lemma StampsKeepDraft(draft: Draft, now: string)
    ensures StampForCreate(draft, now).draft == draft && StampForUpdate(draft, now).draft == draft
    ensures StampForCreate(draft, now).updatedDate == StampForUpdate(draft, now).updatedDate
  {
  }
}
