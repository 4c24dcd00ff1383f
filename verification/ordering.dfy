/** The `OrderBy(orderBy)` / `OrderByDescending(orderBy)` step of the paged
    queries in MyCustomers.Infrastructure.Persistence/EfCoreRepository.cs and
    EfCoreQueryService.cs. The ordering key is an integer rank of the entity;
    the default key is the entity's id. */
module Ordering {

  /** `a` may be placed before `b` in the requested direction. */
  predicate Before<E>(a: E, b: E, rank: E -> int, descending: bool) {
    if descending then rank(a) >= rank(b) else rank(a) <= rank(b)
  }

  ghost predicate Ordered<E>(s: seq<E>, rank: E -> int, descending: bool) {
    forall i, j :: 0 <= i < j < |s| ==> Before(s[i], s[j], rank, descending)
  }

  /** Equal ranks mean equal elements: the rank is a key of the sequence. */
  ghost predicate KeyedBy<E>(s: seq<E>, rank: E -> int) {
    forall i, j :: 0 <= i < |s| && 0 <= j < |s| && rank(s[i]) == rank(s[j]) ==> s[i] == s[j]
  }

  /** Put `x` in front of the first element it may precede; it therefore stays
      ahead of the elements whose rank equals its own. */
  function Insert<E>(x: E, s: seq<E>, rank: E -> int, descending: bool): (r: seq<E>)
    requires Ordered(s, rank, descending)
    ensures Ordered(r, rank, descending)
    ensures multiset(r) == multiset(s) + multiset{x}
    ensures |r| == |s| + 1
  {
    if |s| == 0 then [x]
    else if Before(x, s[0], rank, descending) then
      FrontOfOrdered(x, s, rank, descending);
      [x] + s
    else
      var tail := Insert(x, s[1..], rank, descending);
      BehindHead(x, s, tail, rank, descending);
      [s[0]] + tail
  }

  /** An element that may precede every element of an ordered sequence
      may be put in front of it. */
  lemma ConsOrdered<E>(h: E, t: seq<E>, rank: E -> int, descending: bool)
    requires Ordered(t, rank, descending)
    requires forall j :: 0 <= j < |t| ==> Before(h, t[j], rank, descending)
    ensures Ordered([h] + t, rank, descending)
  {
    var r := [h] + t;
    forall i, j | 0 <= i < j < |r| ensures Before(r[i], r[j], rank, descending) {
      assert r[j] == t[j - 1];
      if i > 0 { assert r[i] == t[i - 1]; }
    }
  }

  /** An element that may precede the head of an ordered sequence may
      precede all of it. */
  lemma FrontOfOrdered<E>(x: E, s: seq<E>, rank: E -> int, descending: bool)
    requires |s| > 0 && Ordered(s, rank, descending) && Before(x, s[0], rank, descending)
    ensures Ordered([x] + s, rank, descending)
  {
    forall j | 0 <= j < |s| ensures Before(x, s[j], rank, descending) {
      if j > 0 { assert Before(s[0], s[j], rank, descending); }
    }
    ConsOrdered(x, s, rank, descending);
  }

  /** When `x` may not precede the head, the head may precede every element
      of the tail with `x` inserted, so it stays in front. */
  lemma BehindHead<E>(x: E, s: seq<E>, tail: seq<E>, rank: E -> int, descending: bool)
    requires |s| > 0 && Ordered(s, rank, descending) && !Before(x, s[0], rank, descending)
    requires Ordered(tail, rank, descending) && multiset(tail) == multiset(s[1..]) + multiset{x}
    ensures Ordered([s[0]] + tail, rank, descending)
    ensures multiset([s[0]] + tail) == multiset(s) + multiset{x}
  {
    forall j | 0 <= j < |tail| ensures Before(s[0], tail[j], rank, descending) {
      assert tail[j] in multiset(tail);
      if tail[j] != x {
        assert tail[j] in multiset(s[1..]);
        var k :| 0 <= k < |s[1..]| && s[1..][k] == tail[j];
        assert s[k + 1] == tail[j];
      }
    }
    ConsOrdered(s[0], tail, rank, descending);
    assert s == [s[0]] + s[1..];
  }

  /** The ordered arrangement of `s` (a stable insertion sort). */
  function SortBy<E>(s: seq<E>, rank: E -> int, descending: bool): (r: seq<E>)
    ensures Ordered(r, rank, descending)
    ensures multiset(r) == multiset(s)
    ensures |r| == |s|
  {
    if |s| == 0 then []
    else
      assert s == [s[0]] + s[1..];
      Insert(s[0], SortBy(s[1..], rank, descending), rank, descending)
  }

  /** Reversal, back to front. */
  function Reverse<E>(s: seq<E>): (r: seq<E>)
    ensures |r| == |s|
    ensures forall i :: 0 <= i < |s| ==> r[i] == s[|s| - 1 - i]
  {
    if |s| == 0 then [] else Reverse(s[1..]) + [s[0]]
  }

  lemma {:induction false} ReverseMultiset<E>(s: seq<E>)
    ensures multiset(Reverse(s)) == multiset(s)
  {
    if |s| > 0 {
      ReverseMultiset(s[1..]);
      assert s == [s[0]] + s[1..];
    }
  }

  /** A permutation of a keyed sequence is keyed. */
  lemma KeyedByPermutation<E>(s: seq<E>, t: seq<E>, rank: E -> int)
    requires KeyedBy(s, rank) && multiset(t) == multiset(s)
    ensures KeyedBy(t, rank)
  {
    forall i, j | 0 <= i < |t| && 0 <= j < |t| && rank(t[i]) == rank(t[j]) ensures t[i] == t[j] {
      assert t[i] in multiset(s) && t[j] in multiset(s);
      var i' :| 0 <= i' < |s| && s[i'] == t[i];
      var j' :| 0 <= j' < |s| && s[j'] == t[j];
    }
  }

  /** Equal multisets with equal heads have equal tails. */
  lemma MultisetTails<E>(a: seq<E>, b: seq<E>)
    requires |a| > 0 && |b| > 0 && a[0] == b[0] && multiset(a) == multiset(b)
    ensures multiset(a[1..]) == multiset(b[1..])
  {
    assert a == [a[0]] + a[1..] && b == [b[0]] + b[1..];
    assert multiset(a) == multiset{a[0]} + multiset(a[1..]);
    assert multiset(b) == multiset{a[0]} + multiset(b[1..]);
    assert multiset(a[1..]) == multiset(a) - multiset{a[0]};
    assert multiset(b[1..]) == multiset(b) - multiset{a[0]};
  }

  /** Two ordered arrangements of one multiset start with the same element
      when the rank is a key. */
  lemma OrderedSameHead<E>(a: seq<E>, b: seq<E>, rank: E -> int, descending: bool)
    requires Ordered(a, rank, descending) && Ordered(b, rank, descending)
    requires multiset(a) == multiset(b) && KeyedBy(a, rank) && |a| > 0
    ensures |b| > 0 && a[0] == b[0]
  {
    assert a[0] in multiset(b);
    var k :| 0 <= k < |b| && b[k] == a[0];
    assert b[0] in multiset(a);
    var j :| 0 <= j < |a| && a[j] == b[0];
    if j > 0 { assert Before(a[0], a[j], rank, descending); }
    if k > 0 { assert Before(b[0], b[k], rank, descending); }
  }

  /** Once the rank is a key, there is only one ordered arrangement of a
      multiset of elements. */
  lemma {:induction false} OrderedUnique<E>(a: seq<E>, b: seq<E>, rank: E -> int, descending: bool)
    requires Ordered(a, rank, descending) && Ordered(b, rank, descending)
    requires multiset(a) == multiset(b) && KeyedBy(a, rank)
    ensures a == b
  {
    assert |a| == |multiset(a)| == |multiset(b)| == |b|;
    if |a| > 0 {
      OrderedSameHead(a, b, rank, descending);
      MultisetTails(a, b);
      OrderedUnique(a[1..], b[1..], rank, descending);
      assert a == [a[0]] + a[1..] && b == [b[0]] + b[1..];
    }
  }

  /** With a key as the rank, descending order is ascending order reversed. */
  lemma DescendingIsReverse<E>(s: seq<E>, rank: E -> int)
    requires KeyedBy(s, rank)
    ensures SortBy(s, rank, true) == Reverse(SortBy(s, rank, false))
  {
    var down := SortBy(s, rank, true);
    var up := SortBy(s, rank, false);
    ReverseMultiset(up);
    KeyedByPermutation(s, down, rank);
    OrderedUnique(down, Reverse(up), rank, true);
  }

  /** Sorting an already ordered, keyed sequence leaves it as it is. */
  lemma SortByOrderedIsIdentity<E>(s: seq<E>, rank: E -> int, descending: bool)
    requires Ordered(s, rank, descending) && KeyedBy(s, rank)
    ensures SortBy(s, rank, descending) == s
  {
    OrderedUnique(s, SortBy(s, rank, descending), rank, descending);
  }
}
