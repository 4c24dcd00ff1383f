/** The slice of an Entity Framework `DbContext` the persistence layer relies
    on: one table, the change tracker, and `SaveChanges`. Entities are
    identified by their key (`IEntity<TKey>.Id`), so "the tracked instance"
    is "the tracked entry with that key". */
module DbContext {
  import opened Wrappers
  import opened Seqs

  /** `EntityState`; a detached entity is one whose key has no entry. */
  datatype EntityState = Added | Unchanged | Modified | Deleted

  datatype Entry<E> = Entry(entity: E, state: EntityState)

  /** The stored rows by key, and the change tracker by key. */
  datatype Context<E> = Context(rows: map<int, E>, tracked: map<int, Entry<E>>)

  /** Every row and every tracked entry sits under its own key. */
  ghost predicate Valid<E>(ctx: Context<E>, key: E -> int) {
    && (forall k :: k in ctx.rows ==> key(ctx.rows[k]) == k)
    && (forall k :: k in ctx.tracked ==> key(ctx.tracked[k].entity) == k)
  }

  /** No pending change: every tracked entry is unchanged. */
  ghost predicate Clean<E>(ctx: Context<E>) {
    forall k :: k in ctx.tracked ==> ctx.tracked[k].state == Unchanged
  }

  /** A fresh context, as each request scope gets one. */
  function Fresh<E>(rows: map<int, E>): (ctx: Context<E>)
    ensures Clean(ctx) && ctx.rows == rows && |ctx.tracked| == 0
  {
    Context(rows, map[])
  }

  /** A non-empty set of integers has a least element. */
  lemma MinExists(s: set<int>)
    requires |s| > 0
    ensures exists m :: m in s && forall k :: k in s ==> m <= k
  {
    assert exists x :: x in s by {
      if forall x :: x !in s { assert false; }
    }
    var x :| x in s;
    var rest := s - {x};
    if |rest| > 0 {
      MinExists(rest);
      var m :| m in rest && forall k :: k in rest ==> m <= k;
      var least := if x < m then x else m;
      forall k | k in s ensures least <= k {
        if k != x { assert k in rest; }
      }
      assert least in s;
    } else {
      forall k | k in s ensures x <= k {
        assert k == x || k in rest;
      }
    }
  }

  /** The least element of a non-empty set of integers. */
  function Least(s: set<int>): (m: int)
    requires |s| > 0
    ensures m in s && forall k :: k in s ==> m <= k
  {
    MinExists(s);
    var m :| m in s && forall k :: k in s ==> m <= k; m
  }

  /** The keys of a set in ascending order. */
  function SortedKeys(s: set<int>): (r: seq<int>)
    ensures |r| == |s|
    ensures forall i :: 0 <= i < |r| ==> r[i] in s
    ensures forall k :: k in s ==> k in r
    ensures forall i, j :: 0 <= i < j < |r| ==> r[i] < r[j]
    decreases |s|
  {
    if |s| == 0 then []
    else
      var m := Least(s);
      var rest := SortedKeys(s - {m});
      SortedKeysCons(s, m, rest);
      [m] + rest
  }

  lemma SortedKeysCons(s: set<int>, m: int, rest: seq<int>)
    requires m in s && forall k :: k in s ==> m <= k
    requires |rest| == |s - {m}|
    requires forall i :: 0 <= i < |rest| ==> rest[i] in s - {m}
    requires forall k :: k in s - {m} ==> k in rest
    requires forall i, j :: 0 <= i < j < |rest| ==> rest[i] < rest[j]
    ensures |[m] + rest| == |s|
    ensures forall i :: 0 <= i < |[m] + rest| ==> ([m] + rest)[i] in s
    ensures forall k :: k in s ==> k in [m] + rest
    ensures forall i, j :: 0 <= i < j < |[m] + rest| ==> ([m] + rest)[i] < ([m] + rest)[j]
  {
    var r := [m] + rest;
    forall k | k in s ensures k in r {
      if k != m { assert k in s - {m}; }
    }
    forall i, j | 0 <= i < j < |r| ensures r[i] < r[j] {
      if i == 0 {
        assert r[j] == rest[j - 1] && r[j] in s - {m};
      } else {
        assert r[i] == rest[i - 1] && r[j] == rest[j - 1];
      }
    }
  }

  /** The rows of a table listed by ascending key. Relational tables have no
      order of their own; key order stands for the unspecified one. */
  function Listing<E>(rows: map<int, E>): (r: seq<E>)
    ensures |r| == |rows|
    ensures forall i :: 0 <= i < |r| ==>
      SortedKeys(rows.Keys)[i] in rows && r[i] == rows[SortedKeys(rows.Keys)[i]]
  {
    var ks := SortedKeys(rows.Keys);
    seq(|ks|, i requires 0 <= i < |ks| => rows[ks[i]])
  }

  /** `x` is stored under some key. */
  ghost predicate IsRow<E>(rows: map<int, E>, x: E) {
    exists k :: k in rows && rows[k] == x
  }

  /** Every row appears in the listing, and the listing holds nothing else. */
  lemma ListingMembers<E>(rows: map<int, E>)
    ensures forall k :: k in rows ==> rows[k] in Listing(rows)
    ensures forall i :: 0 <= i < |Listing(rows)| ==> IsRow(rows, Listing(rows)[i])
  {
    var ks := SortedKeys(rows.Keys);
    forall k | k in rows ensures rows[k] in Listing(rows) {
      var i :| 0 <= i < |ks| && ks[i] == k;
      assert Listing(rows)[i] == rows[k];
    }
    forall i | 0 <= i < |Listing(rows)| ensures IsRow(rows, Listing(rows)[i]) {
      assert ks[i] in rows && Listing(rows)[i] == rows[ks[i]];
    }
  }

  /** Change detection: the application changed the properties of the
      entity tracked under `key(e)`, which now holds `e`. An unchanged entry
      whose value differs becomes modified; an added, modified or deleted one
      keeps its state. Changing a detached instance is invisible. */
  function DetectChanges<E(==)>(ctx: Context<E>, key: E -> int, e: E): (r: Context<E>)
    ensures r.rows == ctx.rows
    ensures r.tracked.Keys == ctx.tracked.Keys
    ensures forall k :: k in ctx.tracked && k != key(e) ==> r.tracked[k] == ctx.tracked[k]
    ensures key(e) in ctx.tracked ==> r.tracked[key(e)].entity == e
    ensures key(e) in ctx.tracked ==>
      (r.tracked[key(e)].state == Modified <==>
        ctx.tracked[key(e)].state == Modified
        || (ctx.tracked[key(e)].state == Unchanged && ctx.tracked[key(e)].entity != e))
    ensures key(e) in ctx.tracked && ctx.tracked[key(e)].state != Unchanged ==>
      r.tracked[key(e)].state == ctx.tracked[key(e)].state
    ensures key(e) !in ctx.tracked ==> r == ctx
  {
    var k := key(e);
    if k !in ctx.tracked then ctx
    else
      var en := ctx.tracked[k];
      var state := if en.state == Unchanged && en.entity != e then Modified else en.state;
      ctx.(tracked := ctx.tracked[k := Entry(e, state)])
  }

  /** The outcome of `SaveChanges`: the new state and the number of state
      entries written, or the exception EF raises (a duplicate key on insert,
      or an update or delete that matched no row) with nothing written. */
  datatype SaveOutcome<E> = Saved(ctx: Context<E>, written: nat) | Rejected

  /** A pending entry the database refuses. */
  predicate Conflicts<E>(ctx: Context<E>, k: int)
    requires k in ctx.tracked
  {
    match ctx.tracked[k].state
    case Added => k in ctx.rows
    case Modified => k !in ctx.rows
    case Deleted => k !in ctx.rows
    case Unchanged => false
  }

  /** The keys with a pending change. */
  function PendingKeys<E>(ctx: Context<E>): set<int> {
    set k | k in ctx.tracked && ctx.tracked[k].state != Unchanged
  }

  /** `SaveChanges`: every added or modified entry's entity is written under
      its key, every deleted entry's row is removed, all in one database
      transaction; afterwards deleted entries are detached and the rest are
      unchanged. */
  function SaveChanges<E>(ctx: Context<E>): (o: SaveOutcome<E>)
    ensures o.Rejected? <==> exists k :: k in ctx.tracked && Conflicts(ctx, k)
    ensures o.Saved? ==> o.written == |PendingKeys(ctx)|
    ensures o.Saved? ==> Clean(o.ctx)
    ensures o.Saved? ==> forall k :: k in o.ctx.rows <==>
      (k in ctx.tracked && ctx.tracked[k].state in {Added, Modified, Unchanged} && (ctx.tracked[k].state != Unchanged || k in ctx.rows))
      || (k !in ctx.tracked && k in ctx.rows)
    ensures o.Saved? ==> forall k :: k in o.ctx.rows ==>
      o.ctx.rows[k] == if k in ctx.tracked && ctx.tracked[k].state != Unchanged then ctx.tracked[k].entity else ctx.rows[k]
    ensures o.Saved? ==> forall k :: k in o.ctx.tracked <==> k in ctx.tracked && ctx.tracked[k].state != Deleted
    ensures o.Saved? ==> forall k :: k in o.ctx.tracked ==> o.ctx.tracked[k].entity == ctx.tracked[k].entity
  {
    if exists k :: k in ctx.tracked && Conflicts(ctx, k) then Rejected
    else
      var t := ctx.tracked;
      var rows := map k | k in ctx.rows.Keys + t.Keys
                          && (k in t ==> t[k].state != Deleted && (t[k].state != Unchanged || k in ctx.rows))
                   :: if k in t && t[k].state != Unchanged then t[k].entity else ctx.rows[k];
      var tracked := map k | k in t && t[k].state != Deleted :: Entry(t[k].entity, Unchanged);
      Saved(Context(rows, tracked), |PendingKeys(ctx)|)
  }

  /** `SaveChanges` keeps every row and entry under its own key. */
  lemma SaveChangesValid<E>(ctx: Context<E>, key: E -> int)
    requires Valid(ctx, key)
    ensures SaveChanges(ctx).Saved? ==> Valid(SaveChanges(ctx).ctx, key)
  {
  }

  /** With nothing pending, `SaveChanges` writes nothing and changes no row. */
  lemma SaveChangesClean<E>(ctx: Context<E>)
    requires Clean(ctx)
    ensures SaveChanges(ctx).Saved?
    ensures SaveChanges(ctx).written == 0
    ensures SaveChanges(ctx).ctx.rows == ctx.rows
  {
    var o := SaveChanges(ctx);
    assert forall k :: k !in ctx.tracked || !Conflicts(ctx, k);
    assert PendingKeys(ctx) == {} by {
      forall k | k in PendingKeys(ctx) ensures false { }
    }
    forall k ensures k in o.ctx.rows <==> k in ctx.rows {
      if k in ctx.tracked { assert ctx.tracked[k].state == Unchanged; }
    }
    assert o.ctx.rows.Keys == ctx.rows.Keys;
    forall k | k in o.ctx.rows ensures o.ctx.rows[k] == ctx.rows[k] {
      if k in ctx.tracked { assert ctx.tracked[k].state == Unchanged; }
    }
  }

  /** Saving twice in a row writes nothing the second time. */
  lemma SaveChangesTwice<E>(ctx: Context<E>)
    requires SaveChanges(ctx).Saved?
    ensures SaveChanges(SaveChanges(ctx).ctx).Saved?
    ensures SaveChanges(SaveChanges(ctx).ctx).written == 0
    ensures SaveChanges(SaveChanges(ctx).ctx).ctx.rows == SaveChanges(ctx).ctx.rows
  {
    SaveChangesClean(SaveChanges(ctx).ctx);
  }

  /** Saving a single staged insert: refused when the key is already stored,
      otherwise the row is written under its key and nothing else changes. */
  lemma SaveInsert<E>(rows: map<int, E>, k: int, e: E)
    ensures SaveChanges(Context(rows, map[k := Entry(e, Added)])).Saved? <==> k !in rows
    ensures k !in rows ==> SaveChanges(Context(rows, map[k := Entry(e, Added)])).ctx.rows == rows[k := e]
  {
    var ctx := Context(rows, map[k := Entry(e, Added)]);
    var o := SaveChanges(ctx);
    if k in rows {
      assert Conflicts(ctx, k);
    } else {
      assert forall j :: j in ctx.tracked ==> !Conflicts(ctx, j);
      forall j ensures j in o.ctx.rows <==> j in rows[k := e] {
        if j == k { assert j in ctx.tracked; }
      }
      assert o.ctx.rows.Keys == rows[k := e].Keys;
    }
  }

  /** Saving a single staged delete of a stored row removes that row and
      nothing else. */
  lemma SaveDelete<E>(rows: map<int, E>, k: int, e: E)
    requires k in rows
    ensures SaveChanges(Context(rows, map[k := Entry(e, Deleted)])).Saved?
    ensures SaveChanges(Context(rows, map[k := Entry(e, Deleted)])).ctx.rows == rows - {k}
  {
    SaveDeletes(Context(rows, map[k := Entry(e, Deleted)]), {k});
    assert (map j | j in rows && j !in {k} :: rows[j]) == rows - {k};
  }

  /** Saving a context whose only pending changes delete stored rows removes
      exactly those rows and writes one entry for each. */
  lemma SaveDeletes<E>(ctx: Context<E>, d: set<int>)
    requires d <= ctx.rows.Keys && d <= ctx.tracked.Keys
    requires forall k :: k in ctx.tracked ==> ctx.tracked[k].state == (if k in d then Deleted else Unchanged)
    ensures SaveChanges(ctx).Saved?
    ensures SaveChanges(ctx).ctx.rows == map k | k in ctx.rows && k !in d :: ctx.rows[k]
    ensures SaveChanges(ctx).written == |d|
  {
    assert forall k :: k in ctx.tracked ==> !Conflicts(ctx, k);
    var o := SaveChanges(ctx);
    var expected := map k | k in ctx.rows && k !in d :: ctx.rows[k];
    forall k ensures k in PendingKeys(ctx) <==> k in d {
      if k in d { assert ctx.tracked[k].state == Deleted; }
    }
    assert PendingKeys(ctx) == d;
    forall k ensures k in o.ctx.rows <==> k in expected {
      if k in ctx.tracked { assert ctx.tracked[k].state == (if k in d then Deleted else Unchanged); }
    }
    assert o.ctx.rows.Keys == expected.Keys;
    forall k | k in expected ensures o.ctx.rows[k] == expected[k] {
      if k in ctx.tracked { assert ctx.tracked[k].state == Unchanged; }
    }
  }
}
