/** MyCustomers.Infrastructure.Persistence/EfCoreQueryService.cs: the read
    side. Every read is a no-tracking query over the stored rows, so each
    operation takes the context and answers values only: the context it was
    given is all the state there is, and none of it changes. Results are
    projected by the mapper `project` (the Mapperly `ProjectToDto`). */
module QueryService {
  import opened Wrappers
  import opened Seqs
  import opened Ordering
  import opened DbContext
  import Repository

  /** `d` is the projection of a stored row that satisfies `p`. */
  ghost predicate IsProjectedRow<E, D>(rows: map<int, E>, project: E -> D, p: E -> bool, d: D) {
    exists k :: k in rows && p(rows[k]) && d == project(rows[k])
  }

  /** `CountAsync()`: the number of stored rows. */
  function Count<E>(ctx: Context<E>): (n: nat)
    ensures n == |ctx.rows|
  {
    Repository.MatchingAll(ctx.rows);
    Repository.CountWhere(ctx, _ => true)
  }

  /** `CountAsync(predicate)`: the number of stored rows the predicate
      selects; the same count the repository takes. */
  function CountWhere<E>(ctx: Context<E>, p: E -> bool): (n: nat)
    ensures n <= Count(ctx)
    ensures n == |Repository.MatchingKeys(ctx.rows, p)|
  {
    Repository.CountWhere(ctx, p)
  }

  /** `ExistsAsync(predicate)`. */
  function Exists<E>(ctx: Context<E>, p: E -> bool): (b: bool)
    ensures b <==> exists k :: k in ctx.rows && p(ctx.rows[k])
    ensures b <==> CountWhere(ctx, p) > 0
  {
    Repository.Exists(ctx, p)
  }

  /** `FindAsync(predicate)`: the projections of exactly the rows the
      predicate selects, one per row, by ascending key. */
  function Find<E, D>(ctx: Context<E>, project: E -> D, p: E -> bool): (r: seq<D>)
    ensures |r| == CountWhere(ctx, p)
    ensures forall i :: 0 <= i < |r| ==> IsProjectedRow(ctx.rows, project, p, r[i])
    ensures forall k :: k in ctx.rows && p(ctx.rows[k]) ==> project(ctx.rows[k]) in r
    ensures forall i :: 0 <= i < |r| ==>
      && i < |SortedKeys(Repository.MatchingKeys(ctx.rows, p))|
      && r[i] == project(ctx.rows[SortedKeys(Repository.MatchingKeys(ctx.rows, p))[i]])
  {
    var m := Repository.MatchingKeys(ctx.rows, p);
    var ks := SortedKeys(m);
    var r := seq(|ks|, i requires 0 <= i < |ks| => project(ctx.rows[ks[i]]));
    ProjectKeys(ctx.rows, project, p, ks, r);
    r
  }

  /** Projecting the rows under an enumeration `ks` of the matching keys
      yields only projected matching rows, and every one of them. */
  lemma ProjectKeys<E, D>(rows: map<int, E>, project: E -> D, p: E -> bool, ks: seq<int>, r: seq<D>)
    requires forall i :: 0 <= i < |ks| ==> ks[i] in Repository.MatchingKeys(rows, p)
    requires forall k :: k in Repository.MatchingKeys(rows, p) ==> k in ks
    requires |r| == |ks| && forall i :: 0 <= i < |ks| ==> r[i] == project(rows[ks[i]])
    ensures forall i :: 0 <= i < |r| ==> IsProjectedRow(rows, project, p, r[i])
    ensures forall k :: k in rows && p(rows[k]) ==> project(rows[k]) in r
  {
    forall i | 0 <= i < |r| ensures IsProjectedRow(rows, project, p, r[i]) {
      var k := ks[i];
      assert k in Repository.MatchingKeys(rows, p);
    }
    forall k | k in rows && p(rows[k]) ensures project(rows[k]) in r {
      assert k in Repository.MatchingKeys(rows, p);
      var i :| 0 <= i < |ks| && ks[i] == k;
      assert r[i] == project(rows[k]);
    }
  }

  /** The no-tracking find answers what a tracking find on a fresh context
      answers, projected. */
  lemma FindIsProjectedRepositoryFind<E, D>(rows: map<int, E>, key: E -> int, project: E -> D, p: E -> bool)
    ensures Find(Fresh(rows), project, p) == Map(project, Repository.Find(Fresh(rows), key, p).1)
  {
    var ctx := Fresh(rows);
    var ks := SortedKeys(Repository.MatchingKeys(rows, p));
    var found := Repository.Find(ctx, key, p).1;
    var a := Find(ctx, project, p);
    var b := Map(project, found);
    assert |a| == |ks| == |found| == |b|;
    SameProjection(rows, project, Repository.MatchingKeys(rows, p), ks, a, found, b);
  }

  /** Two sequences that both project the rows under `ks`, position by
      position, are equal. */
  lemma SameProjection<E, D>(rows: map<int, E>, project: E -> D, m: set<int>, ks: seq<int>,
                             a: seq<D>, found: seq<E>, b: seq<D>)
    requires |a| == |ks| == |found| == |b|
    requires m <= rows.Keys && forall i :: 0 <= i < |ks| ==> ks[i] in m
    requires forall i :: 0 <= i < |a| ==> a[i] == project(rows[ks[i]])
    requires forall i :: 0 <= i < |found| ==> found[i] == Repository.Resolve(Fresh(rows), ks[i])
    requires forall i :: 0 <= i < |b| ==> b[i] == project(found[i])
    ensures a == b
  {
    forall i | 0 <= i < |a| ensures a[i] == b[i] {
      var x := found[i];
      assert x == rows[ks[i]];
    }
  }

  /** `GetAllAsync()`: the projection of every stored row. */
  function GetAll<E, D>(ctx: Context<E>, project: E -> D): (r: seq<D>)
    ensures |r| == Count(ctx)
    ensures forall k :: k in ctx.rows ==> project(ctx.rows[k]) in r
    ensures forall i :: 0 <= i < |r| ==> IsProjectedRow(ctx.rows, project, _ => true, r[i])
  {
    Repository.MatchingAll(ctx.rows);
    Find(ctx, project, _ => true)
  }

  /** `GetPageAsync(skip, take, orderBy, descending)`: order by `orderBy`
      (the id when omitted), optionally descending, skip, take, project. */
  function GetPage<E, D>(ctx: Context<E>, key: E -> int, project: E -> D, skip: nat, take: nat,
                         orderBy: Option<E -> int>, descending: bool): (r: seq<D>)
    ensures r == Map(project, Repository.GetPage(ctx, key, skip, take, orderBy, descending))
    ensures |r| == Repository.WindowSize(Count(ctx), skip, take)
  {
    var rank := Repository.OrderKey(orderBy, key);
    Map(project, Page(SortBy(Listing(ctx.rows), rank, descending), skip, take))
  }

  /** With no `orderBy`, page position `i` projects the row with the
      (skip + i)-th smallest key, or the (skip + i)-th largest when
      descending. */
  lemma GetPageByKey<E, D>(ctx: Context<E>, key: E -> int, project: E -> D, skip: nat, take: nat)
    requires Valid(ctx, key)
    ensures Repository.ProjectsUp(GetPage(ctx, key, project, skip, take, None, false), ctx.rows, project, skip)
    ensures Repository.ProjectsDown(GetPage(ctx, key, project, skip, take, None, true), ctx.rows, project, skip)
  {
    Repository.GetPageDefaultOrder(ctx, key, skip, take);
    Repository.GetPageDefaultDescending(ctx, key, skip, take);
    Repository.ProjectCountsUp(Repository.GetPage(ctx, key, skip, take, None, false), ctx.rows, project, skip);
    Repository.ProjectCountsDown(Repository.GetPage(ctx, key, skip, take, None, true), ctx.rows, project, skip);
  }

  /** `GetPageAsync(predicate, skip, take, orderBy, descending)`: the same
      read over the rows the predicate selects. */
  function GetPageWhere<E, D>(ctx: Context<E>, key: E -> int, project: E -> D, p: E -> bool,
                              skip: nat, take: nat, orderBy: Option<E -> int>, descending: bool): (r: seq<D>)
    ensures r == Map(project, Repository.GetPageWhere(ctx, key, p, skip, take, orderBy, descending))
    ensures |r| == Repository.WindowSize(CountWhere(ctx, p), skip, take)
    ensures forall i :: 0 <= i < |r| ==> IsProjectedRow(ctx.rows, project, p, r[i])
  {
    var rank := Repository.OrderKey(orderBy, key);
    var page := Page(SortBy(Filter(Listing(ctx.rows), p), rank, descending), skip, take);
    assert page == Repository.GetPageWhere(ctx, key, p, skip, take, orderBy, descending);
    var r := Map(project, page);
    assert forall i :: 0 <= i < |r| ==> IsProjectedRow(ctx.rows, project, p, r[i]) by {
      forall i | 0 <= i < |r| ensures IsProjectedRow(ctx.rows, project, p, r[i]) {
        assert IsRow(ctx.rows, page[i]) && p(page[i]);
        var k :| k in ctx.rows && ctx.rows[k] == page[i];
      }
    }
    r
  }

  /** `GetByIdAsync(id)`: a null id answers null; otherwise the projection of
      the first row whose id equals it, or null when there is none. */
  function GetById<E, D>(ctx: Context<E>, key: E -> int, project: E -> D, id: Option<int>): (r: Option<D>)
    ensures id.None? ==> r.None?
    ensures r.Some? ==> IsProjectedRow(ctx.rows, project, e => key(e) == id.value, r.value)
    ensures id.Some? && r.None? ==> forall k :: k in ctx.rows ==> key(ctx.rows[k]) != id.value
  {
    if id.None? then None
    else
      var hits := Find(ctx, project, e => key(e) == id.value);
      if |hits| == 0 then None else Some(hits[0])
  }

  /** Under a valid context the id lookup answers the row stored under that
      id, and agrees with the tracking lookup on a fresh context. */
  lemma GetByIdStored<E, D>(ctx: Context<E>, key: E -> int, project: E -> D, id: Option<int>)
    requires Valid(ctx, key)
    ensures GetById(ctx, key, project, id) ==
      if id.Some? && id.value in ctx.rows then Some(project(ctx.rows[id.value])) else None
    ensures GetById(ctx, key, project, id) ==
      match Repository.GetById(Fresh(ctx.rows), id).1
      case None => None
      case Some(e) => Some(project(e))
  {
    var r := GetById(ctx, key, project, id);
    if id.Some? {
      if id.value in ctx.rows {
        assert key(ctx.rows[id.value]) == id.value;
        assert r.Some?;
        var k :| k in ctx.rows && key(ctx.rows[k]) == id.value && r.value == project(ctx.rows[k]);
        assert key(ctx.rows[k]) == k;
      }
    }
  }
}
