/** MyCustomers.Infrastructure.Persistence/EfCoreRepository.cs: the generic
    repository over one table of a context. Tracking reads attach the rows
    they return; staging operations only touch the change tracker; nothing
    here writes a row. The key function is the entity's `Id`. */
module Repository {
  import opened Wrappers
  import opened Seqs
  import opened Ordering
  import opened DbContext

  /** The ordering key of a paged read: `orderBy`, or the id when omitted. */
  function OrderKey<E>(orderBy: Option<E -> int>, key: E -> int): E -> int {
    if orderBy.Some? then orderBy.value else key
  }

  /** The keys of the rows a predicate selects. */
  function MatchingKeys<E>(rows: map<int, E>, p: E -> bool): set<int> {
    set k | k in rows && p(rows[k])
  }

  /** `CountAsync(predicate)`: the number of stored rows that satisfy it
      (`CountAsync()` is the predicate that always holds). */
  function CountWhere<E>(ctx: Context<E>, p: E -> bool): (n: nat)
    ensures n <= |ctx.rows|
    ensures n == |MatchingKeys(ctx.rows, p)|
  {
    SubsetCardinality(MatchingKeys(ctx.rows, p), ctx.rows.Keys);
    |MatchingKeys(ctx.rows, p)|
  }

  /** `ExistsAsync(predicate)`. */
  function Exists<E>(ctx: Context<E>, p: E -> bool): (b: bool)
    ensures b <==> exists k :: k in ctx.rows && p(ctx.rows[k])
    ensures b <==> CountWhere(ctx, p) > 0
  {
    var ks := MatchingKeys(ctx.rows, p);
    assert ks != {} <==> exists k :: k in ctx.rows && p(ctx.rows[k]) by {
      if exists k :: k in ctx.rows && p(ctx.rows[k]) {
        var k :| k in ctx.rows && p(ctx.rows[k]);
        assert k in ks;
      }
    }
    ks != {}
  }

  /** The window of an ordered sequence stays ordered. */
  lemma PageOrdered<E>(s: seq<E>, skip: nat, take: nat, rank: E -> int, descending: bool)
    requires Ordered(s, rank, descending)
    ensures Ordered(Page(s, skip, take), rank, descending)
  {
    var r := Page(s, skip, take);
    forall i, j | 0 <= i < j < |r| ensures Before(r[i], r[j], rank, descending) {
      assert r[i] == s[skip + i] && r[j] == s[skip + j];
    }
  }

  /** Rows of a paged read come from the table. */
  lemma PageRows<E>(rows: map<int, E>, s: seq<E>, skip: nat, take: nat)
    requires multiset(s) == multiset(Listing(rows))
    ensures forall i :: 0 <= i < |Page(s, skip, take)| ==> IsRow(rows, Page(s, skip, take)[i])
  {
    ListingMembers(rows);
    var r := Page(s, skip, take);
    forall i | 0 <= i < |r| ensures IsRow(rows, r[i]) {
      assert r[i] == s[skip + i];
      assert r[i] in multiset(Listing(rows));
      var j :| 0 <= j < |Listing(rows)| && Listing(rows)[j] == r[i];
    }
  }

  /** `s` is the sequence `l` put in order by `rank`: the same elements,
      each as often, ordered. */
  ghost predicate Arranges<E>(s: seq<E>, l: seq<E>, rank: E -> int, descending: bool) {
    Ordered(s, rank, descending) && multiset(s) == multiset(l)
  }

  /** The number of rows a window of `skip` and `take` holds out of `n`. */
  function WindowSize(n: nat, skip: nat, take: nat): nat {
    if n <= skip then 0 else if n - skip < take then n - skip else take
  }

  /** `GetPageAsync(skip, take, orderBy, descending)`: order the table, skip,
      take; a no-tracking read. */
  function GetPage<E>(ctx: Context<E>, key: E -> int, skip: nat, take: nat,
                      orderBy: Option<E -> int>, descending: bool): (r: seq<E>)
    ensures Ordered(r, OrderKey(orderBy, key), descending)
    ensures |r| == WindowSize(|ctx.rows|, skip, take)
    ensures forall i :: 0 <= i < |r| ==> IsRow(ctx.rows, r[i])
  {
    var sorted := SortBy(Listing(ctx.rows), OrderKey(orderBy, key), descending);
    PageOrdered(sorted, skip, take, OrderKey(orderBy, key), descending);
    PageRows(ctx.rows, sorted, skip, take);
    Page(sorted, skip, take)
  }

  /** `GetPageAsync(predicate, skip, take, orderBy, descending)`: the same
      read over the rows that satisfy the predicate. */
  function GetPageWhere<E>(ctx: Context<E>, key: E -> int, p: E -> bool, skip: nat, take: nat,
                           orderBy: Option<E -> int>, descending: bool): (r: seq<E>)
    ensures Ordered(r, OrderKey(orderBy, key), descending)
    ensures |r| == WindowSize(CountWhere(ctx, p), skip, take)
    ensures forall i :: 0 <= i < |r| ==> IsRow(ctx.rows, r[i]) && p(r[i])
  {
    var matching := Filter(Listing(ctx.rows), p);
    var sorted := SortBy(matching, OrderKey(orderBy, key), descending);
    PageOrdered(sorted, skip, take, OrderKey(orderBy, key), descending);
    ListingMembers(ctx.rows);
    PageOfFiltered(ctx.rows, Listing(ctx.rows), p, matching, sorted, skip, take);
    MatchingCount(ctx.rows, p);
    Page(sorted, skip, take)
  }

  /** A page is the window of an ordering of the stored rows: it holds rows
      the table holds, as often as the table does, at the positions `skip`,
      `skip + 1`, ... of that ordering. Which ordering is left open among
      rows whose `orderBy` keys tie. */
  lemma GetPageWindow<E>(ctx: Context<E>, key: E -> int, skip: nat, take: nat,
                         orderBy: Option<E -> int>, descending: bool)
    ensures exists s :: Arranges(s, Listing(ctx.rows), OrderKey(orderBy, key), descending)
                        && GetPage(ctx, key, skip, take, orderBy, descending) == Page(s, skip, take)
  {
    var s := SortBy(Listing(ctx.rows), OrderKey(orderBy, key), descending);
    assert Arranges(s, Listing(ctx.rows), OrderKey(orderBy, key), descending);
  }

  /** A filtered page is the window of an ordering of the rows the predicate
      selects. */
  lemma GetPageWhereWindow<E>(ctx: Context<E>, key: E -> int, p: E -> bool, skip: nat, take: nat,
                              orderBy: Option<E -> int>, descending: bool)
    ensures exists s :: Arranges(s, Filter(Listing(ctx.rows), p), OrderKey(orderBy, key), descending)
                        && GetPageWhere(ctx, key, p, skip, take, orderBy, descending) == Page(s, skip, take)
  {
    var s := SortBy(Filter(Listing(ctx.rows), p), OrderKey(orderBy, key), descending);
    assert Arranges(s, Filter(Listing(ctx.rows), p), OrderKey(orderBy, key), descending);
  }

  /** Any two orderings of the rows give the same page when the order key
      tells rows apart, as the id does: the page is then determined. */
  lemma WindowDetermined<E>(a: seq<E>, b: seq<E>, l: seq<E>, rank: E -> int, descending: bool,
                            skip: nat, take: nat)
    requires Arranges(a, l, rank, descending) && Arranges(b, l, rank, descending)
    requires KeyedBy(l, rank)
    ensures Page(a, skip, take) == Page(b, skip, take)
  {
    KeyedByPermutation(l, a, rank);
    OrderedUnique(a, b, rank, descending);
  }

  /** The keys among `ks` whose rows satisfy `p`. */
  function KeysWhere<E>(rows: map<int, E>, ks: seq<int>, p: E -> bool): set<int> {
    set k | k in ks && k in rows && p(rows[k])
  }

  /** Filtering a listing of `rows` under distinct keys `ks` keeps one
      element per key whose row satisfies `p`. */
  lemma {:induction false} CountKeyed<E>(rows: map<int, E>, ks: seq<int>, l: seq<E>, p: E -> bool)
    requires |l| == |ks|
    requires forall i :: 0 <= i < |ks| ==> ks[i] in rows && l[i] == rows[ks[i]]
    requires forall i, j :: 0 <= i < j < |ks| ==> ks[i] < ks[j]
    ensures |Filter(l, p)| == |KeysWhere(rows, ks, p)|
  {
    if |ks| == 0 {
      assert KeysWhere(rows, ks, p) == {};
    } else {
      var tail := ks[1..];
      CountKeyed(rows, tail, l[1..], p);
      var here, rest := KeysWhere(rows, ks, p), KeysWhere(rows, tail, p);
      assert ks[0] !in tail by {
        forall i | 0 <= i < |tail| ensures tail[i] != ks[0] {
          assert tail[i] == ks[i + 1];
        }
      }
      assert forall k :: k in ks <==> k == ks[0] || k in tail by {
        assert ks == [ks[0]] + tail;
      }
      if p(l[0]) {
        assert here == rest + {ks[0]};
      } else {
        assert here == rest;
      }
    }
  }

  /** Filtering the listing keeps as many rows as `CountAsync(predicate)` counts. */
  lemma MatchingCount<E>(rows: map<int, E>, p: E -> bool)
    ensures |Filter(Listing(rows), p)| == |MatchingKeys(rows, p)|
  {
    var ks := SortedKeys(rows.Keys);
    CountKeyed(rows, ks, Listing(rows), p);
    AllKeysWhere(rows, ks, p);
  }

  /** Over a sequence holding every key, the keys whose rows satisfy `p` are
      the matching keys. */
  lemma AllKeysWhere<E>(rows: map<int, E>, ks: seq<int>, p: E -> bool)
    requires forall k :: k in rows ==> k in ks
    ensures KeysWhere(rows, ks, p) == MatchingKeys(rows, p)
  {
    forall k | k in MatchingKeys(rows, p) ensures k in KeysWhere(rows, ks, p) {
      assert k in ks;
    }
  }

  /** A window of any arrangement of the rows of a listing that satisfy `p`
      holds only such rows. */
  lemma PageOfFiltered<E>(rows: map<int, E>, l: seq<E>, p: E -> bool, matching: seq<E>, sorted: seq<E>,
                          skip: nat, take: nat)
    requires forall i :: 0 <= i < |l| ==> IsRow(rows, l[i])
    requires forall i :: 0 <= i < |matching| ==> matching[i] in l && p(matching[i])
    requires multiset(sorted) == multiset(matching)
    ensures forall i :: 0 <= i < |Page(sorted, skip, take)| ==>
      IsRow(rows, Page(sorted, skip, take)[i]) && p(Page(sorted, skip, take)[i])
  {
    var r := Page(sorted, skip, take);
    forall i | 0 <= i < |r| ensures IsRow(rows, r[i]) && p(r[i]) {
      assert r[i] == sorted[skip + i];
      assert r[i] in multiset(matching);
      var j :| 0 <= j < |matching| && matching[j] == r[i];
      var k :| 0 <= k < |l| && l[k] == matching[j];
    }
  }

  /** The table listed by key is ordered by key, and the key identifies rows. */
  lemma ListingOrderedByKey<E>(ctx: Context<E>, key: E -> int)
    requires Valid(ctx, key)
    ensures Ordered(Listing(ctx.rows), key, false)
    ensures KeyedBy(Listing(ctx.rows), key)
  {
    var ks := SortedKeys(ctx.rows.Keys);
    var l := Listing(ctx.rows);
    forall i, j | 0 <= i < j < |l| ensures Before(l[i], l[j], key, false) {
      assert key(l[i]) == ks[i] && key(l[j]) == ks[j];
    }
    forall i, j | 0 <= i < |l| && 0 <= j < |l| && key(l[i]) == key(l[j]) ensures l[i] == l[j] {
      assert key(l[i]) == ks[i] && key(l[j]) == ks[j];
      if i < j { assert ks[i] < ks[j]; } else if j < i { assert ks[j] < ks[i]; }
    }
  }

  /** With no `orderBy`, a page holds the rows whose keys come at positions
      skip, skip + 1, ... of the ascending key order. */
  lemma GetPageDefaultOrder<E>(ctx: Context<E>, key: E -> int, skip: nat, take: nat)
    requires Valid(ctx, key)
    ensures CountsUp(GetPage(ctx, key, skip, take, None, false), ctx.rows, skip)
  {
    ListingOrderedByKey(ctx, key);
    SortByOrderedIsIdentity(Listing(ctx.rows), key, false);
    assert OrderKey(None, key) == key;
    WindowInOrder(Listing(ctx.rows), SortedKeys(ctx.rows.Keys), ctx.rows, skip, take);
  }

  /** Position `i` of `r` holds the row with the `(skip + i)`-th smallest key. */
  ghost predicate CountsUp<E>(r: seq<E>, rows: map<int, E>, skip: nat) {
    forall i :: 0 <= i < |r| ==>
      && skip + i < |SortedKeys(rows.Keys)|
      && r[i] == rows[SortedKeys(rows.Keys)[skip + i]]
  }

  /** A window of a sequence that lists `rows` by the keys `ks` takes its
      keys from the same positions of `ks`. */
  lemma WindowInOrder<E>(l: seq<E>, ks: seq<int>, rows: map<int, E>, skip: nat, take: nat)
    requires |l| == |ks|
    requires forall i :: 0 <= i < |l| ==> ks[i] in rows && l[i] == rows[ks[i]]
    ensures forall i :: 0 <= i < |Page(l, skip, take)| ==>
      && skip + i < |ks|
      && Page(l, skip, take)[i] == rows[ks[skip + i]]
  {
    var p := Page(l, skip, take);
    forall i | 0 <= i < |p| ensures skip + i < |ks| && p[i] == rows[ks[skip + i]] {
      assert p[i] == l[skip + i];
    }
  }

  /** With no `orderBy`, the descending read pages the key-ordered listing
      backwards. */
  lemma GetPageDescendingIsReversed<E>(ctx: Context<E>, key: E -> int, skip: nat, take: nat)
    requires Valid(ctx, key)
    ensures GetPage(ctx, key, skip, take, None, true) == Page(Reverse(Listing(ctx.rows)), skip, take)
  {
    ListingOrderedByKey(ctx, key);
    SortByOrderedIsIdentity(Listing(ctx.rows), key, false);
    DescendingIsReverse(Listing(ctx.rows), key);
    assert OrderKey(None, key) == key;
  }

  /** Position `i` of a window of the reversed sequence is position
      `|s| - 1 - (skip + i)` of the sequence. */
  lemma PageOfReverse<E>(s: seq<E>, skip: nat, take: nat)
    ensures forall i :: 0 <= i < |Page(Reverse(s), skip, take)| ==>
      skip + i < |s| && Page(Reverse(s), skip, take)[i] == s[|s| - 1 - (skip + i)]
  {
    var r := Reverse(s);
    var p := Page(r, skip, take);
    forall i | 0 <= i < |p| ensures p[i] == s[|s| - 1 - (skip + i)] {
      assert p[i] == r[skip + i];
    }
  }

  /** The reversed listing, windowed, counts keys from the largest down. */
  lemma ReversedListingPage<E>(rows: map<int, E>, skip: nat, take: nat)
    ensures CountsDown(Page(Reverse(Listing(rows)), skip, take), rows, skip)
  {
    WindowOfReverse(Listing(rows), SortedKeys(rows.Keys), rows, skip, take);
  }

  /** A window of a reversed sequence that lists `rows` by the keys `ks`
      takes its keys from the back of `ks`. */
  lemma WindowOfReverse<E>(l: seq<E>, ks: seq<int>, rows: map<int, E>, skip: nat, take: nat)
    requires |l| == |ks| == |rows|
    requires forall i :: 0 <= i < |l| ==> ks[i] in rows && l[i] == rows[ks[i]]
    ensures forall i :: 0 <= i < |Page(Reverse(l), skip, take)| ==>
      && skip + i < |ks|
      && Page(Reverse(l), skip, take)[i] == rows[ks[|rows| - 1 - (skip + i)]]
  {
    PageOfReverse(l, skip, take);
    var p := Page(Reverse(l), skip, take);
    forall i | 0 <= i < |p|
      ensures skip + i < |ks| && p[i] == rows[ks[|rows| - 1 - (skip + i)]]
    {
      var j := |l| - 1 - (skip + i);
      assert p[i] == l[j];
    }
  }

  /** `descending` with no `orderBy` counts the same positions from the
      largest key down. */
  lemma GetPageDefaultDescending<E>(ctx: Context<E>, key: E -> int, skip: nat, take: nat)
    requires Valid(ctx, key)
    ensures CountsDown(GetPage(ctx, key, skip, take, None, true), ctx.rows, skip)
  {
    GetPageDescendingIsReversed(ctx, key, skip, take);
    ReversedListingPage(ctx.rows, skip, take);
  }

  /** Position `i` of `r` holds the row with the `(skip + i)`-th largest key. */
  ghost predicate CountsDown<E>(r: seq<E>, rows: map<int, E>, skip: nat) {
    forall i :: 0 <= i < |r| ==>
      && skip + i < |SortedKeys(rows.Keys)|
      && r[i] == rows[SortedKeys(rows.Keys)[|rows| - 1 - (skip + i)]]
  }

  /** Position `i` of `items` projects the row with the `(skip + i)`-th
      smallest key. */
  ghost predicate ProjectsUp<E, D>(items: seq<D>, rows: map<int, E>, project: E -> D, skip: nat) {
    forall i :: 0 <= i < |items| ==>
      && skip + i < |SortedKeys(rows.Keys)|
      && items[i] == project(rows[SortedKeys(rows.Keys)[skip + i]])
  }

  /** Position `i` of `items` projects the row with the `(skip + i)`-th
      largest key. */
  ghost predicate ProjectsDown<E, D>(items: seq<D>, rows: map<int, E>, project: E -> D, skip: nat) {
    forall i :: 0 <= i < |items| ==>
      && skip + i < |SortedKeys(rows.Keys)|
      && items[i] == project(rows[SortedKeys(rows.Keys)[|rows| - 1 - (skip + i)]])
  }

  /** Projecting an ascending key window projects each row in place. */
  lemma ProjectCountsUp<E, D>(page: seq<E>, rows: map<int, E>, project: E -> D, skip: nat)
    requires CountsUp(page, rows, skip)
    ensures ProjectsUp(Map(project, page), rows, project, skip)
  {
    var ks := SortedKeys(rows.Keys);
    var items := Map(project, page);
    if |page| > 0 {
      var last := page[|page| - 1];
      assert skip + |page| - 1 < |ks|;
    }
    forall i | 0 <= i < |items|
      ensures items[i] == project(rows[ks[skip + i]])
    {
      var row := page[i];
      assert row == rows[ks[skip + i]];
    }
  }

  /** Projecting a descending key window projects each row in place. */
  lemma ProjectCountsDown<E, D>(page: seq<E>, rows: map<int, E>, project: E -> D, skip: nat)
    requires CountsDown(page, rows, skip)
    ensures ProjectsDown(Map(project, page), rows, project, skip)
  {
    var ks := SortedKeys(rows.Keys);
    var items := Map(project, page);
    if |page| > 0 {
      var last := page[|page| - 1];
      assert skip + |page| - 1 < |ks|;
    }
    forall i | 0 <= i < |items|
      ensures items[i] == project(rows[ks[|rows| - 1 - (skip + i)]])
    {
      var row := page[i];
      assert row == rows[ks[|rows| - 1 - (skip + i)]];
    }
  }

  /** Filtering by a predicate every row satisfies is no filtering. */
  lemma GetPageWhereAll<E>(ctx: Context<E>, key: E -> int, skip: nat, take: nat,
                           orderBy: Option<E -> int>, descending: bool)
    ensures GetPageWhere(ctx, key, _ => true, skip, take, orderBy, descending)
         == GetPage(ctx, key, skip, take, orderBy, descending)
  {
    FilterAllPass(Listing(ctx.rows), _ => true);
  }

  /** The entity the context holds for a key: the tracked instance when
      there is one, the stored row otherwise. */
  function Resolve<E>(ctx: Context<E>, k: int): E
    requires k in ctx.tracked || k in ctx.rows
  {
    if k in ctx.tracked then ctx.tracked[k].entity else ctx.rows[k]
  }

  /** Start tracking the stored rows under `ks` that are not tracked yet. */
  function Attach<E>(ctx: Context<E>, ks: set<int>): (r: Context<E>)
    requires ks <= ctx.rows.Keys
    ensures r.rows == ctx.rows
    ensures r.tracked.Keys == ctx.tracked.Keys + ks
    ensures forall k :: k in ctx.tracked ==> r.tracked[k] == ctx.tracked[k]
    ensures forall k :: k in ks && k !in ctx.tracked ==> r.tracked[k] == Entry(ctx.rows[k], Unchanged)
  {
    var added := map k | k in ks && k !in ctx.tracked :: Entry(ctx.rows[k], Unchanged);
    ctx.(tracked := ctx.tracked + added)
  }

  /** `GetByIdAsync(id)`: a null id answers null at once; otherwise `Find`
      answers the tracked instance, or loads and tracks the stored row, or
      answers null. */
  function GetById<E>(ctx: Context<E>, id: Option<int>): (r: (Context<E>, Option<E>))
    ensures id.None? ==> r == (ctx, None)
    ensures r.0.rows == ctx.rows
    ensures r.1.None? <==> id.None? || (id.value !in ctx.tracked && id.value !in ctx.rows)
    ensures r.1.Some? ==> id.value in r.0.tracked && r.1.value == r.0.tracked[id.value].entity
    ensures r.1.Some? ==> r.1.value == Resolve(ctx, id.value)
    ensures forall k :: k in ctx.tracked ==> k in r.0.tracked && r.0.tracked[k] == ctx.tracked[k]
    ensures forall k :: k in r.0.tracked && k !in ctx.tracked ==> id == Some(k) && r.0.tracked[k].state == Unchanged
  {
    match id
    case None => (ctx, None)
    case Some(k) =>
      if k in ctx.tracked then (ctx, Some(ctx.tracked[k].entity))
      else if k in ctx.rows then (Attach(ctx, {k}), Some(ctx.rows[k]))
      else (ctx, None)
  }

  /** `FindAsync(predicate)`: a tracking read of the rows that satisfy the
      predicate, each answered as the context's instance for its key. */
  function Find<E>(ctx: Context<E>, key: E -> int, p: E -> bool): (r: (Context<E>, seq<E>))
    ensures r.0.rows == ctx.rows
    ensures Valid(ctx, key) ==> Valid(r.0, key)
    ensures Valid(ctx, key) ==> DistinctKeys(r.1, key)
    ensures Valid(ctx, key) ==> forall i :: 0 <= i < |r.1| ==> key(r.1[i]) in MatchingKeys(ctx.rows, p)
    ensures Valid(ctx, key) ==> forall k :: k in MatchingKeys(ctx.rows, p) ==> exists i :: 0 <= i < |r.1| && key(r.1[i]) == k
    ensures r.0.tracked.Keys == ctx.tracked.Keys + MatchingKeys(ctx.rows, p)
    ensures forall k :: k in ctx.tracked ==> r.0.tracked[k] == ctx.tracked[k]
    ensures forall k :: k in MatchingKeys(ctx.rows, p) && k !in ctx.tracked ==>
      r.0.tracked[k] == Entry(ctx.rows[k], Unchanged)
    ensures |r.1| == |MatchingKeys(ctx.rows, p)|
    ensures forall i :: 0 <= i < |r.1| ==> TrackedUnder(r.0, MatchingKeys(ctx.rows, p), r.1[i])
    ensures forall i :: 0 <= i < |r.1| ==>
      && i < |SortedKeys(MatchingKeys(ctx.rows, p))|
      && r.1[i] == Resolve(ctx, SortedKeys(MatchingKeys(ctx.rows, p))[i])
  {
    var m := MatchingKeys(ctx.rows, p);
    var ks := SortedKeys(m);
    var attached := Attach(ctx, m);
    var found := seq(|ks|, i requires 0 <= i < |ks| => Resolve(ctx, ks[i]));
    FindResolves(ctx, m, ks, attached, found);
    FindKeys(ctx, key, m, ks, found);
    AttachValid(ctx, key, m);
    (attached, found)
  }

  /** Every stored row satisfies the predicate that always holds. */
  lemma MatchingAll<E>(rows: map<int, E>)
    ensures MatchingKeys(rows, _ => true) == rows.Keys
  {
  }

  /** `GetAllAsync()`: a tracking read of the whole table; every stored row
      comes back, and every key of the table is tracked afterwards. */
  function GetAll<E>(ctx: Context<E>, key: E -> int): (r: (Context<E>, seq<E>))
    ensures r.0.rows == ctx.rows
    ensures |r.1| == |ctx.rows|
    ensures r.0.tracked.Keys == ctx.tracked.Keys + ctx.rows.Keys
    ensures forall k :: k in ctx.tracked ==> r.0.tracked[k] == ctx.tracked[k]
    ensures forall i :: 0 <= i < |r.1| ==> TrackedUnder(r.0, ctx.rows.Keys, r.1[i])
  {
    MatchingAll(ctx.rows);
    Find(ctx, key, _ => true)
  }

  lemma AttachValid<E>(ctx: Context<E>, key: E -> int, ks: set<int>)
    requires ks <= ctx.rows.Keys
    ensures Valid(ctx, key) ==> Valid(Attach(ctx, ks), key)
  {
  }

  lemma FindKeys<E>(ctx: Context<E>, key: E -> int, m: set<int>, ks: seq<int>, found: seq<E>)
    requires m <= ctx.rows.Keys
    requires forall i :: 0 <= i < |ks| ==> ks[i] in m
    requires forall k :: k in m ==> k in ks
    requires forall i, j :: 0 <= i < j < |ks| ==> ks[i] < ks[j]
    requires |found| == |ks| && forall i :: 0 <= i < |ks| ==> found[i] == Resolve(ctx, ks[i])
    ensures Valid(ctx, key) ==> DistinctKeys(found, key)
    ensures Valid(ctx, key) ==> forall i :: 0 <= i < |found| ==> key(found[i]) in m
    ensures Valid(ctx, key) ==> forall k :: k in m ==> exists i :: 0 <= i < |found| && key(found[i]) == k
  {
    if Valid(ctx, key) {
      assert forall i :: 0 <= i < |found| ==> key(found[i]) == ks[i];
      forall k | k in m ensures exists i :: 0 <= i < |found| && key(found[i]) == k {
        var i :| 0 <= i < |ks| && ks[i] == k;
        assert key(found[i]) == k;
      }
    }
  }

  lemma FindResolves<E>(ctx: Context<E>, m: set<int>, ks: seq<int>, attached: Context<E>, found: seq<E>)
    requires m <= ctx.rows.Keys
    requires forall i :: 0 <= i < |ks| ==> ks[i] in m
    requires attached == Attach(ctx, m)
    requires |found| == |ks| && forall i :: 0 <= i < |ks| ==> found[i] == Resolve(ctx, ks[i])
    ensures forall i :: 0 <= i < |found| ==> TrackedUnder(attached, m, found[i])
  {
    forall i | 0 <= i < |found| ensures TrackedUnder(attached, m, found[i]) {
      var k := ks[i];
      assert k in attached.tracked;
      assert found[i] == attached.tracked[k].entity;
    }
  }

  /** `x` is the entity tracked under one of the keys `m`. */
  ghost predicate TrackedUnder<E>(ctx: Context<E>, m: set<int>, x: E) {
    exists k :: k in m && k in ctx.tracked && ctx.tracked[k].entity == x
  }

  /** `AddAsync(entity)`: stage an insert. EF refuses (throws) when another
      instance with the same key is already tracked. */
  function Add<E>(ctx: Context<E>, key: E -> int, e: E): (r: Option<Context<E>>)
    ensures r.None? <==> key(e) in ctx.tracked
    ensures r.Some? ==> r.value.rows == ctx.rows
    ensures r.Some? ==> r.value.tracked == ctx.tracked[key(e) := Entry(e, Added)]
  {
    if key(e) in ctx.tracked then None
    else Some(ctx.(tracked := ctx.tracked[key(e) := Entry(e, Added)]))
  }

  /** The keys of a sequence of entities are pairwise different. */
  ghost predicate DistinctKeys<E>(es: seq<E>, key: E -> int) {
    forall i, j :: 0 <= i < j < |es| ==> key(es[i]) != key(es[j])
  }

  /** `AddRangeAsync(entities)`: add each in turn. */
  function AddRange<E>(ctx: Context<E>, key: E -> int, es: seq<E>): (r: Option<Context<E>>)
    ensures r.Some? <==> DistinctKeys(es, key) && forall i :: 0 <= i < |es| ==> key(es[i]) !in ctx.tracked
    ensures r.Some? ==> r.value.rows == ctx.rows
    ensures r.Some? ==> r.value.tracked.Keys == ctx.tracked.Keys + set i | 0 <= i < |es| :: key(es[i])
    ensures r.Some? ==> forall k :: k in ctx.tracked ==> r.value.tracked[k] == ctx.tracked[k]
    ensures r.Some? ==> forall i :: 0 <= i < |es| ==> r.value.tracked[key(es[i])] == Entry(es[i], Added)
    decreases |es|
  {
    if |es| == 0 then Some(ctx)
    else match Add(ctx, key, es[0])
      case None => None
      case Some(next) =>
        var r := AddRange(next, key, es[1..]);
        AddRangeStep(ctx, next, key, es, r);
        r
  }

  lemma AddRangeStep<E>(ctx: Context<E>, next: Context<E>, key: E -> int, es: seq<E>, r: Option<Context<E>>)
    requires |es| > 0 && key(es[0]) !in ctx.tracked
    requires next.rows == ctx.rows && next.tracked == ctx.tracked[key(es[0]) := Entry(es[0], Added)]
    requires r.Some? <==> DistinctKeys(es[1..], key) && forall i :: 0 <= i < |es[1..]| ==> key(es[1..][i]) !in next.tracked
    requires r.Some? ==> r.value.rows == next.rows
    requires r.Some? ==> r.value.tracked.Keys == next.tracked.Keys + set i | 0 <= i < |es[1..]| :: key(es[1..][i])
    requires r.Some? ==> forall k :: k in next.tracked ==> r.value.tracked[k] == next.tracked[k]
    requires r.Some? ==> forall i :: 0 <= i < |es[1..]| ==> r.value.tracked[key(es[1..][i])] == Entry(es[1..][i], Added)
    ensures r.Some? <==> DistinctKeys(es, key) && forall i :: 0 <= i < |es| ==> key(es[i]) !in ctx.tracked
    ensures r.Some? ==> r.value.rows == ctx.rows
    ensures r.Some? ==> r.value.tracked.Keys == ctx.tracked.Keys + set i | 0 <= i < |es| :: key(es[i])
    ensures r.Some? ==> forall k :: k in ctx.tracked ==> r.value.tracked[k] == ctx.tracked[k]
    ensures r.Some? ==> forall i :: 0 <= i < |es| ==> r.value.tracked[key(es[i])] == Entry(es[i], Added)
  {
    var tail := es[1..];
    var tailOk := DistinctKeys(tail, key) && forall i :: 0 <= i < |tail| ==> key(tail[i]) !in next.tracked;
    var allOk := DistinctKeys(es, key) && forall i :: 0 <= i < |es| ==> key(es[i]) !in ctx.tracked;
    assert tailOk <==> allOk by {
      if tailOk {
        forall i, j | 0 <= i < j < |es| ensures key(es[i]) != key(es[j]) {
          if i == 0 { assert es[j] == tail[j - 1]; } else { assert es[i] == tail[i - 1] && es[j] == tail[j - 1]; }
        }
        forall i | 0 <= i < |es| ensures key(es[i]) !in ctx.tracked {
          if i > 0 { assert es[i] == tail[i - 1]; }
        }
      }
      if allOk {
        forall i | 0 <= i < |tail| ensures key(tail[i]) !in next.tracked {
          assert tail[i] == es[i + 1];
        }
        forall i, j | 0 <= i < j < |tail| ensures key(tail[i]) != key(tail[j]) {
          assert tail[i] == es[i + 1] && tail[j] == es[j + 1];
        }
      }
    }
    if r.Some? {
      var keysAll := set i | 0 <= i < |es| :: key(es[i]);
      var keysTail := set i | 0 <= i < |tail| :: key(tail[i]);
      assert keysAll == {key(es[0])} + keysTail by {
        forall k | k in keysAll ensures k in {key(es[0])} + keysTail {
          var i :| 0 <= i < |es| && key(es[i]) == k;
          if i > 0 { assert tail[i - 1] == es[i]; }
        }
        forall k | k in keysTail ensures k in keysAll {
          var i :| 0 <= i < |tail| && key(tail[i]) == k;
          assert es[i + 1] == tail[i];
        }
      }
      forall i | 0 <= i < |es| ensures r.value.tracked[key(es[i])] == Entry(es[i], Added) {
        if i > 0 {
          assert es[i] == tail[i - 1];
          assert r.value.tracked[key(tail[i - 1])] == Entry(tail[i - 1], Added);
          assert r.value.tracked[key(es[i])] == Entry(es[i], Added);
        } else {
          var k0 := key(es[0]);
          assert k0 in next.tracked;
          assert r.value.tracked[k0] == next.tracked[k0];
        }
      }
    }
  }

  /** `UpdateAsync(entity)`: stage an update only for a detached entity; an
      entity the context already tracks is left as it is. */
  function Update<E>(ctx: Context<E>, key: E -> int, e: E): (r: Context<E>)
    ensures r.rows == ctx.rows
    ensures key(e) in ctx.tracked ==> r == ctx
    ensures key(e) !in ctx.tracked ==> r.tracked == ctx.tracked[key(e) := Entry(e, Modified)]
  {
    if key(e) in ctx.tracked then ctx
    else ctx.(tracked := ctx.tracked[key(e) := Entry(e, Modified)])
  }

  /** The first entity of `es` with key `k` is at position `i`. */
  ghost predicate FirstWithKey<E>(es: seq<E>, key: E -> int, k: int, i: int) {
    0 <= i < |es| && key(es[i]) == k && forall j :: 0 <= j < i ==> key(es[j]) != k
  }

  /** `UpdateRangeAsync(entities)`: the detached ones are staged as
      modified; tracked ones, and later entities whose key an earlier one
      already brought in, are left alone. */
  function UpdateRange<E>(ctx: Context<E>, key: E -> int, es: seq<E>): (r: Context<E>)
    ensures r.rows == ctx.rows
    ensures forall k :: k in ctx.tracked ==> k in r.tracked && r.tracked[k] == ctx.tracked[k]
    ensures forall k :: k in r.tracked && k !in ctx.tracked ==>
      r.tracked[k].state == Modified && exists i :: FirstWithKey(es, key, k, i) && r.tracked[k].entity == es[i]
    ensures forall i :: 0 <= i < |es| ==> key(es[i]) in r.tracked
    decreases |es|
  {
    if |es| == 0 then ctx
    else
      var next := Update(ctx, key, es[0]);
      var r := UpdateRange(next, key, es[1..]);
      assert forall k :: k in r.tracked && k !in ctx.tracked ==>
        r.tracked[k].state == Modified && exists i :: FirstWithKey(es, key, k, i) && r.tracked[k].entity == es[i] by {
        forall k | k in r.tracked && k !in ctx.tracked
          ensures r.tracked[k].state == Modified && exists i :: FirstWithKey(es, key, k, i) && r.tracked[k].entity == es[i] {
          if k == key(es[0]) {
            assert FirstWithKey(es, key, k, 0);
          } else {
            var i :| FirstWithKey(es[1..], key, k, i) && r.tracked[k].entity == es[1..][i];
            assert FirstWithKey(es, key, k, i + 1);
          }
        }
      }
      assert forall i :: 0 <= i < |es| ==> key(es[i]) in r.tracked by {
        forall i | 0 <= i < |es| ensures key(es[i]) in r.tracked {
          if i > 0 { assert es[i] == es[1..][i - 1]; }
        }
      }
      r
  }

  /** `DeleteAsync(entity)`: stage a delete. A staged insert is simply
      dropped; a detached entity is attached as deleted. */
  function Delete<E>(ctx: Context<E>, key: E -> int, e: E): (r: Context<E>)
    ensures r.rows == ctx.rows
    ensures forall k :: k != key(e) ==> (k in r.tracked <==> k in ctx.tracked)
    ensures forall k :: k != key(e) && k in ctx.tracked ==> r.tracked[k] == ctx.tracked[k]
    ensures key(e) in r.tracked <==> !(key(e) in ctx.tracked && ctx.tracked[key(e)].state == Added)
    ensures key(e) in r.tracked ==> r.tracked[key(e)].state == Deleted
    ensures key(e) in r.tracked ==> r.tracked[key(e)].entity == if key(e) in ctx.tracked then ctx.tracked[key(e)].entity else e
  {
    var k := key(e);
    if k in ctx.tracked then
      if ctx.tracked[k].state == Added then ctx.(tracked := ctx.tracked - {k})
      else ctx.(tracked := ctx.tracked[k := Entry(ctx.tracked[k].entity, Deleted)])
    else ctx.(tracked := ctx.tracked[k := Entry(e, Deleted)])
  }

  /** `DeleteRangeAsync(entities)`: delete each in turn. */
  function DeleteRange<E>(ctx: Context<E>, key: E -> int, es: seq<E>): (r: Context<E>)
    ensures r.rows == ctx.rows
    decreases |es|
  {
    if |es| == 0 then ctx else DeleteRange(Delete(ctx, key, es[0]), key, es[1..])
  }

  /** Deleting entities with pairwise different keys stages a delete for
      each of those keys and touches no other entry. */
  lemma {:induction false} DeleteRangeEffect<E>(ctx: Context<E>, key: E -> int, es: seq<E>)
    requires DistinctKeys(es, key)
    ensures var r := DeleteRange(ctx, key, es);
      && (forall k :: (forall i :: 0 <= i < |es| ==> key(es[i]) != k) ==>
            (k in r.tracked <==> k in ctx.tracked) && (k in ctx.tracked ==> r.tracked[k] == ctx.tracked[k]))
      && (forall i :: 0 <= i < |es| ==>
            (key(es[i]) in r.tracked <==> !(key(es[i]) in ctx.tracked && ctx.tracked[key(es[i])].state == Added)))
      && (forall i :: 0 <= i < |es| && key(es[i]) in r.tracked ==> r.tracked[key(es[i])].state == Deleted)
    decreases |es|
  {
    if |es| > 0 {
      var next := Delete(ctx, key, es[0]);
      var tail := es[1..];
      assert DistinctKeys(tail, key) by {
        forall i, j | 0 <= i < j < |tail| ensures key(tail[i]) != key(tail[j]) {
          assert tail[i] == es[i + 1] && tail[j] == es[j + 1];
        }
      }
      DeleteRangeEffect(next, key, tail);
      var r := DeleteRange(ctx, key, es);
      assert r == DeleteRange(next, key, tail);
      forall i | 0 <= i < |es|
        ensures key(es[i]) in r.tracked <==> !(key(es[i]) in ctx.tracked && ctx.tracked[key(es[i])].state == Added)
        ensures key(es[i]) in r.tracked ==> r.tracked[key(es[i])].state == Deleted
      {
        if i == 0 {
          assert forall j :: 0 <= j < |tail| ==> key(tail[j]) != key(es[0]) by {
            forall j | 0 <= j < |tail| ensures key(tail[j]) != key(es[0]) { assert tail[j] == es[j + 1]; }
          }
        } else {
          assert es[i] == tail[i - 1];
          assert key(es[i]) != key(es[0]);
        }
      }
      forall k | forall i :: 0 <= i < |es| ==> key(es[i]) != k
        ensures (k in r.tracked <==> k in ctx.tracked) && (k in ctx.tracked ==> r.tracked[k] == ctx.tracked[k])
      {
        assert key(es[0]) != k;
        assert forall j :: 0 <= j < |tail| ==> key(tail[j]) != k by {
          forall j | 0 <= j < |tail| ensures key(tail[j]) != k { assert tail[j] == es[j + 1]; }
        }
      }
    }
  }

  /** The predicate `e => ids.Contains(e.Id)`. */
  function KeyIn<E>(key: E -> int, ids: set<int>): E -> bool {
    e => key(e) in ids
  }

  /** `DeleteRangeByIdsAsync(ids)`: find the stored rows whose id is listed,
      then delete them. */
  function DeleteRangeByIds<E>(ctx: Context<E>, key: E -> int, ids: set<int>): (r: Context<E>)
    ensures r.rows == ctx.rows
  {
    var found := Find(ctx, key, KeyIn(key, ids));
    DeleteRange(found.0, key, found.1)
  }

  /** Under a valid context, the rows selected by id are those whose key is
      listed. */
  lemma MatchingIds<E>(ctx: Context<E>, key: E -> int, ids: set<int>)
    requires Valid(ctx, key)
    ensures MatchingKeys(ctx.rows, KeyIn(key, ids)) == ids * ctx.rows.Keys
  {
    var m := MatchingKeys(ctx.rows, KeyIn(key, ids));
    forall k ensures k in m <==> k in ids * ctx.rows.Keys {
      if k in ctx.rows { assert key(ctx.rows[k]) == k; }
    }
  }

  /** `DeleteRangeByIdsAsync` stages a delete for exactly the stored rows
      whose id is listed (a staged insert under such an id is dropped
      instead); listed ids with no row, and all other entries, are left
      alone; no row is written. */
  lemma DeleteRangeByIdsStages<E>(ctx: Context<E>, key: E -> int, ids: set<int>)
    requires Valid(ctx, key)
    ensures var r := DeleteRangeByIds(ctx, key, ids);
      && r.rows == ctx.rows
      && (forall k :: k in ids && k in ctx.rows ==>
            (k in r.tracked <==> !(k in ctx.tracked && ctx.tracked[k].state == Added))
            && (k in r.tracked ==> r.tracked[k].state == Deleted))
      && (forall k :: !(k in ids && k in ctx.rows) ==>
            (k in r.tracked <==> k in ctx.tracked) && (k in ctx.tracked ==> r.tracked[k] == ctx.tracked[k]))
  {
    var found := Find(ctx, key, KeyIn(key, ids));
    MatchingIds(ctx, key, ids);
    DeleteFound(ctx, found.0, key, found.1, ids * ctx.rows.Keys);
  }

  /** Deleting what a tracking read of the keys `m` found: each found key
      is staged as a delete (or its staged insert dropped), and every other
      entry is left as it was. */
  lemma DeleteFound<E>(ctx: Context<E>, found: Context<E>, key: E -> int, es: seq<E>, m: set<int>)
    requires DistinctKeys(es, key)
    requires forall i :: 0 <= i < |es| ==> key(es[i]) in m
    requires forall k :: k in m ==> exists i :: 0 <= i < |es| && key(es[i]) == k
    requires found.tracked.Keys == ctx.tracked.Keys + m
    requires forall k :: k in ctx.tracked ==> found.tracked[k] == ctx.tracked[k]
    requires forall k :: k in m && k !in ctx.tracked ==> found.tracked[k].state == Unchanged
    ensures var r := DeleteRange(found, key, es);
      && (forall k :: k in m ==>
            (k in r.tracked <==> !(k in ctx.tracked && ctx.tracked[k].state == Added))
            && (k in r.tracked ==> r.tracked[k].state == Deleted))
      && (forall k :: k !in m ==>
            (k in r.tracked <==> k in ctx.tracked) && (k in ctx.tracked ==> r.tracked[k] == ctx.tracked[k]))
  {
    var r := DeleteRange(found, key, es);
    DeleteRangeEffect(found, key, es);
    DeletesListed(ctx, found, r, key, es, m);
    KeepsUnlisted(ctx, found, r, key, es, m);
  }

  /** The listed keys after a delete of `es` from `found`, where `found` is
      `ctx` with the listed keys attached unchanged: each is staged as a
      delete, unless `ctx` held it as a staged insert, which is dropped. */
  lemma DeletesListed<E>(ctx: Context<E>, found: Context<E>, r: Context<E>, key: E -> int, es: seq<E>, m: set<int>)
    requires forall k :: k in m ==> exists i :: 0 <= i < |es| && key(es[i]) == k
    requires forall k :: k in ctx.tracked ==> k in found.tracked && found.tracked[k] == ctx.tracked[k]
    requires forall k :: k in m && k !in ctx.tracked ==> k in found.tracked && found.tracked[k].state == Unchanged
    requires forall i :: 0 <= i < |es| ==>
      (key(es[i]) in r.tracked <==> !(key(es[i]) in found.tracked && found.tracked[key(es[i])].state == Added))
    requires forall i :: 0 <= i < |es| && key(es[i]) in r.tracked ==> r.tracked[key(es[i])].state == Deleted
    ensures forall k :: k in m ==>
      && (k in r.tracked <==> !(k in ctx.tracked && ctx.tracked[k].state == Added))
      && (k in r.tracked ==> r.tracked[k].state == Deleted)
  {
    forall k | k in m
      ensures k in r.tracked <==> !(k in ctx.tracked && ctx.tracked[k].state == Added)
      ensures k in r.tracked ==> r.tracked[k].state == Deleted
    {
      var i :| 0 <= i < |es| && key(es[i]) == k;
    }
  }

  /** The keys a delete of `es` does not name, where every key of `es` is
      listed and `found` is `ctx` with only the listed keys attached: their
      entries are those of `ctx`. */
  lemma KeepsUnlisted<E>(ctx: Context<E>, found: Context<E>, r: Context<E>, key: E -> int, es: seq<E>, m: set<int>)
    requires forall i :: 0 <= i < |es| ==> key(es[i]) in m
    requires found.tracked.Keys == ctx.tracked.Keys + m
    requires forall k :: k in ctx.tracked ==> found.tracked[k] == ctx.tracked[k]
    requires forall k :: (forall i :: 0 <= i < |es| ==> key(es[i]) != k) ==>
      (k in r.tracked <==> k in found.tracked) && (k in found.tracked ==> r.tracked[k] == found.tracked[k])
    ensures forall k :: k !in m ==>
      (k in r.tracked <==> k in ctx.tracked) && (k in ctx.tracked ==> r.tracked[k] == ctx.tracked[k])
  {
    forall k | k !in m
      ensures (k in r.tracked <==> k in ctx.tracked) && (k in ctx.tracked ==> r.tracked[k] == ctx.tracked[k])
    {
      assert forall i :: 0 <= i < |es| ==> key(es[i]) != k;
    }
  }

  /** Deleting by ids from a context with nothing pending and saving removes
      exactly the listed rows and writes one entry per removed row. */
  lemma DeleteRangeByIdsThenSave<E>(ctx: Context<E>, key: E -> int, ids: set<int>)
    requires Valid(ctx, key) && Clean(ctx)
    ensures SaveChanges(DeleteRangeByIds(ctx, key, ids)).Saved?
    ensures SaveChanges(DeleteRangeByIds(ctx, key, ids)).ctx.rows
         == map k | k in ctx.rows && k !in ids :: ctx.rows[k]
    ensures SaveChanges(DeleteRangeByIds(ctx, key, ids)).written == |ids * ctx.rows.Keys|
  {
    var staged := DeleteRangeByIds(ctx, key, ids);
    DeleteRangeByIdsStages(ctx, key, ids);
    StagedFromClean(ctx, staged, ids);
    SaveDeletes(staged, ids * ctx.rows.Keys);
  }

  /** What the staging of `DeleteRangeByIdsAsync` amounts to when nothing was
      pending before: the listed stored rows are exactly the deleted entries. */
  lemma StagedFromClean<E>(ctx: Context<E>, staged: Context<E>, ids: set<int>)
    requires Clean(ctx) && staged.rows == ctx.rows
    requires forall k :: k in ids && k in ctx.rows ==>
      (k in staged.tracked <==> !(k in ctx.tracked && ctx.tracked[k].state == Added))
      && (k in staged.tracked ==> staged.tracked[k].state == Deleted)
    requires forall k :: !(k in ids && k in ctx.rows) ==>
      (k in staged.tracked <==> k in ctx.tracked) && (k in ctx.tracked ==> staged.tracked[k] == ctx.tracked[k])
    ensures ids * ctx.rows.Keys <= staged.tracked.Keys
    ensures forall k :: k in staged.tracked ==>
      staged.tracked[k].state == (if k in ids * ctx.rows.Keys then Deleted else Unchanged)
    ensures (map k | k in staged.rows && k !in ids * ctx.rows.Keys :: staged.rows[k])
         == map k | k in ctx.rows && k !in ids :: ctx.rows[k]
  {
    var d := ids * ctx.rows.Keys;
    forall k | k in d ensures k in staged.tracked {
      if k in ctx.tracked { assert ctx.tracked[k].state == Unchanged; }
    }
    forall k | k in staged.tracked
      ensures staged.tracked[k].state == (if k in d then Deleted else Unchanged)
    {
      if k !in d { assert staged.tracked[k] == ctx.tracked[k]; }
    }
  }
}
