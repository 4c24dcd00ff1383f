/** Sequence utilities shared by the model: filtering (LINQ `Where`), counting,
    first match (`FirstOrDefault`), projection (`Select`), slicing
    (`Skip`/`Take`) and the subsequence relation used to state that an
    operation only drops elements. */
module Seqs {
  import opened Wrappers

  /** The elements of `s` that satisfy `p`, in their original order. */
  function Filter<T>(s: seq<T>, p: T -> bool): (r: seq<T>)
    ensures |r| <= |s|
    ensures forall i :: 0 <= i < |r| ==> r[i] in s && p(r[i])
    ensures forall i :: 0 <= i < |s| && p(s[i]) ==> s[i] in r
  {
    if |s| == 0 then []
    else if p(s[0]) then [s[0]] + Filter(s[1..], p)
    else Filter(s[1..], p)
  }

  /** How many elements of `s` satisfy `p`. */
  function Count<T>(s: seq<T>, p: T -> bool): nat {
    if |s| == 0 then 0 else (if p(s[0]) then 1 else 0) + Count(s[1..], p)
  }

  /** The position of the first element satisfying `p`, if there is one. */
  function FirstIndex<T>(s: seq<T>, p: T -> bool): (k: Option<nat>)
    ensures k.Some? ==> k.value < |s| && p(s[k.value])
    ensures k.Some? ==> forall j :: 0 <= j < k.value ==> !p(s[j])
    ensures k.None? <==> forall j :: 0 <= j < |s| ==> !p(s[j])
  {
    if |s| == 0 then None
    else if p(s[0]) then Some(0)
    else match FirstIndex(s[1..], p)
      case None => None
      case Some(k) => Some(k + 1)
  }

  /** Element-wise projection (`Select`). */
  function Map<T, U>(f: T -> U, s: seq<T>): (r: seq<U>)
    ensures |r| == |s|
    ensures forall i :: 0 <= i < |s| ==> r[i] == f(s[i])
  {
    seq(|s|, i requires 0 <= i < |s| => f(s[i]))
  }

  /** `Skip(skip).Take(take)`: the window of at most `take` elements that starts
      at position `skip`, clipped to the sequence. */
  function Page<T>(s: seq<T>, skip: nat, take: nat): (r: seq<T>)
    ensures |r| <= take
    ensures skip + take <= |s| ==> |r| == take
    ensures |s| <= skip ==> |r| == 0
    ensures skip < |s| < skip + take ==> |r| == |s| - skip
    ensures |r| > 0 ==> skip + |r| <= |s|
    ensures forall i :: 0 <= i < |r| ==> skip + i < |s| && r[i] == s[skip + i]
  {
    var lo := if skip < |s| then skip else |s|;
    var hi := if skip + take < |s| then skip + take else |s|;
    s[lo..hi]
  }

  /** `a` can be obtained from `b` by deleting elements. */
  ghost predicate IsSubsequence<T>(a: seq<T>, b: seq<T>)
    decreases |b|
  {
    if |a| == 0 then true
    else if |b| == 0 then false
    else if a[0] == b[0] then IsSubsequence(a[1..], b[1..])
    else IsSubsequence(a, b[1..])
  }

  lemma {:induction false} SubsequenceDropHead<T>(a: seq<T>, b: seq<T>)
    requires |a| > 0 && IsSubsequence(a, b)
    ensures IsSubsequence(a[1..], b)
    decreases |b|, 0
  {
    if a[0] == b[0] {
      SubsequenceCons(a[1..], b[0], b[1..]);
      assert [b[0]] + b[1..] == b;
    } else {
      SubsequenceDropHead(a, b[1..]);
      SubsequenceCons(a[1..], b[0], b[1..]);
      assert [b[0]] + b[1..] == b;
    }
  }

  /** Putting an element in front of the larger sequence keeps the relation. */
  lemma {:induction false} SubsequenceCons<T>(a: seq<T>, x: T, b: seq<T>)
    requires IsSubsequence(a, b)
    ensures IsSubsequence(a, [x] + b)
    decreases |b|, 1
  {
    var xb := [x] + b;
    assert xb[1..] == b;
    if |a| > 0 && a[0] == x {
      SubsequenceDropHead(a, b);
    }
  }

  lemma {:induction false} SubsequenceReflexive<T>(a: seq<T>)
    ensures IsSubsequence(a, a)
  {
    if |a| > 0 {
      SubsequenceReflexive(a[1..]);
    }
  }

  /** Filtering only deletes elements. */
  lemma {:induction false} FilterIsSubsequence<T>(s: seq<T>, p: T -> bool)
    ensures IsSubsequence(Filter(s, p), s)
  {
    if |s| > 0 {
      FilterIsSubsequence(s[1..], p);
      if p(s[0]) {
        var f := Filter(s, p);
        assert f[0] == s[0] && f[1..] == Filter(s[1..], p);
      } else {
        SubsequenceCons(Filter(s[1..], p), s[0], s[1..]);
        assert [s[0]] + s[1..] == s;
      }
    }
  }

  /** The filter keeps exactly as many elements as `Count` counts. */
  lemma {:induction false} FilterLength<T>(s: seq<T>, p: T -> bool)
    ensures |Filter(s, p)| == Count(s, p)
  {
    if |s| > 0 {
      FilterLength(s[1..], p);
    }
  }

  /** Filtering a sequence whose elements all pass leaves it unchanged. */
  lemma {:induction false} FilterAllPass<T>(s: seq<T>, p: T -> bool)
    requires forall i :: 0 <= i < |s| ==> p(s[i])
    ensures Filter(s, p) == s
  {
    if |s| > 0 {
      FilterAllPass(s[1..], p);
      assert [s[0]] + s[1..] == s;
    }
  }

  /** A subset is no larger than its superset. */
  lemma {:induction false} SubsetCardinality<T>(a: set<T>, b: set<T>)
    requires a <= b
    ensures |a| <= |b|
  {
    if a != {} {
      var x :| x in a;
      SubsetCardinality(a - {x}, b - {x});
    }
  }
}
