/** Order statistics used by the clipper: the median of a spectrum is the
    value a partial sort (`nth_element`) leaves at position n/2, i.e. the
    element of rank n/2 of the sorted spectrum. */
module Order {

  predicate Sorted(s: seq<real>)
  {
    forall i, j :: 0 <= i < j < |s| ==> s[i] <= s[j]
  }

  /** A value no larger than the head of a sorted sequence extends it. */
  lemma SortedCons(a: real, t: seq<real>)
    requires Sorted(t) && (|t| > 0 ==> a <= t[0])
    ensures Sorted([a] + t)
  {
    var r := [a] + t;
    forall i, j | 0 <= i < j < |r|
      ensures r[i] <= r[j]
    {
      if i > 0 {
        assert r[i] == t[i - 1] && r[j] == t[j - 1];
      } else {
        assert r[j] == t[j - 1] && t[0] <= t[j - 1];
      }
    }
  }

  /** Inserts `x` before the first element not below it. */
  function Insert(x: real, s: seq<real>): (r: seq<real>)
    ensures |r| == |s| + 1
  {
    if |s| == 0 then [x]
    else if x <= s[0] then [x] + s
    else [s[0]] + Insert(x, s[1..])
  }

  /** Inserting into a sorted sequence keeps it sorted; the head is the
      smaller of `x` and the old head. */
  lemma {:induction false} InsertSorted(x: real, s: seq<real>)
    requires Sorted(s)
    ensures Sorted(Insert(x, s))
    ensures Insert(x, s)[0] == (if |s| == 0 || x <= s[0] then x else s[0])
    decreases |s|
  {
    if |s| == 0 {
    } else if x <= s[0] {
      SortedCons(x, s);
    } else {
      var t := Insert(x, s[1..]);
      InsertSorted(x, s[1..]);
      SortedCons(s[0], t);
    }
  }

  /** Inserting adds exactly `x` to the values. */
  lemma {:induction false} InsertPermutes(x: real, s: seq<real>)
    ensures multiset(Insert(x, s)) == multiset(s) + multiset{x}
    decreases |s|
  {
    if |s| > 0 && x > s[0] {
      InsertPermutes(x, s[1..]);
      assert s == [s[0]] + s[1..];
    }
  }

  /** Insertion sort, the reference ordering of a spectrum. */
  function Sort(s: seq<real>): (r: seq<real>)
    ensures |r| == |s|
  {
    if |s| == 0 then [] else Insert(s[0], Sort(s[1..]))
  }

  lemma {:induction false} SortSorted(s: seq<real>)
    ensures Sorted(Sort(s))
    decreases |s|
  {
    if |s| > 0 {
      SortSorted(s[1..]);
      InsertSorted(s[0], Sort(s[1..]));
    }
  }

  lemma {:induction false} SortPermutes(s: seq<real>)
    ensures multiset(Sort(s)) == multiset(s)
    decreases |s|
  {
    if |s| > 0 {
      SortPermutes(s[1..]);
      InsertPermutes(s[0], Sort(s[1..]));
      assert s == [s[0]] + s[1..];
    }
  }

  /** The element of rank |s| / 2: the upper median for an even length. */
  function Median(s: seq<real>): real
    requires |s| > 0
  {
    Sort(s)[|s| / 2]
  }

  /** Number of elements strictly below `m`. */
  function CountLess(s: seq<real>, m: real): nat
  {
    if |s| == 0 then 0 else CountLess(s[..|s| - 1], m) + (if s[|s| - 1] < m then 1 else 0)
  }

  /** Number of elements at most `m`. */
  function CountAtMost(s: seq<real>, m: real): nat
  {
    if |s| == 0 then 0 else CountAtMost(s[..|s| - 1], m) + (if s[|s| - 1] <= m then 1 else 0)
  }

  lemma {:induction false} CountsAppend(a: seq<real>, b: seq<real>, m: real)
    ensures CountLess(a + b, m) == CountLess(a, m) + CountLess(b, m)
    ensures CountAtMost(a + b, m) == CountAtMost(a, m) + CountAtMost(b, m)
    decreases |b|
  {
    if |b| > 0 {
      assert (a + b)[..|a + b| - 1] == a + b[..|b| - 1];
      CountsAppend(a, b[..|b| - 1], m);
    } else {
      assert a + b == a;
    }
  }

  lemma CountsSingle(x: real, m: real)
    ensures CountLess([x], m) == (if x < m then 1 else 0)
    ensures CountAtMost([x], m) == (if x <= m then 1 else 0)
  {
    assert [x][..0] == [];
  }

  lemma Cancel(p: multiset<real>, q: multiset<real>, x: real)
    requires p + multiset{x} == q + multiset{x}
    ensures p == q
  {
    forall y ensures p[y] == q[y] {
      assert (p + multiset{x})[y] == p[y] + multiset{x}[y];
      assert (q + multiset{x})[y] == q[y] + multiset{x}[y];
    }
  }

  /** The counts depend only on the multiset of values, so sorting (or any
      reordering such as a partial sort) does not change them. */
  lemma {:induction false} CountsOfPermutation(a: seq<real>, b: seq<real>, m: real)
    requires multiset(a) == multiset(b)
    ensures CountLess(a, m) == CountLess(b, m)
    ensures CountAtMost(a, m) == CountAtMost(b, m)
    decreases |a|
  {
    if |a| > 0 {
      var x := a[|a| - 1];
      assert x in multiset(b);
      var k :| 0 <= k < |b| && b[k] == x;
      var a' := a[..|a| - 1];
      var b' := b[..k] + b[k + 1..];
      assert a == a' + [x];
      assert b == b[..k] + [x] + b[k + 1..];
      assert multiset(b) == multiset(b[..k]) + multiset{x} + multiset(b[k + 1..]);
      calc {
        multiset(a') + multiset{x};
        multiset(a);
        multiset(b);
        multiset(b[..k]) + multiset{x} + multiset(b[k + 1..]);
        multiset(b') + multiset{x};
      }
      Cancel(multiset(a'), multiset(b'), x);
      CountsOfPermutation(a', b', m);
      CountsAppend(a', [x], m);
      CountsAppend(b[..k], [x], m);
      CountsAppend(b[..k] + [x], b[k + 1..], m);
      CountsAppend(b[..k], b[k + 1..], m);
      CountsSingle(x, m);
    } else {
      assert |b| == |multiset(b)| == 0;
    }
  }

  /** In a sorted sequence, element k has at most k elements below it and
      more than k elements at or below it. */
  lemma {:induction false} SortedRank(r: seq<real>, k: nat)
    requires Sorted(r) && k < |r|
    ensures CountLess(r, r[k]) <= k < CountAtMost(r, r[k])
  {
    var lo, hi := r[..k + 1], r[k + 1..];
    assert r == lo + hi;
    CountsAppend(lo, hi, r[k]);
    AllBelowCounts(lo, r[k]);
    AllAboveCounts(hi, r[k]);
    assert lo == lo[..k] + [r[k]];
    CountsAppend(lo[..k], [r[k]], r[k]);
    CountsSingle(r[k], r[k]);
    AllAtMostLessBound(lo[..k], r[k]);
  }

  lemma {:induction false} AllBelowCounts(s: seq<real>, m: real)
    requires forall i :: 0 <= i < |s| ==> s[i] <= m
    ensures CountAtMost(s, m) == |s|
    decreases |s|
  {
    if |s| > 0 {
      AllBelowCounts(s[..|s| - 1], m);
    }
  }

  lemma {:induction false} AllAboveCounts(s: seq<real>, m: real)
    requires forall i :: 0 <= i < |s| ==> m <= s[i]
    ensures CountLess(s, m) == 0
    decreases |s|
  {
    if |s| > 0 {
      AllAboveCounts(s[..|s| - 1], m);
    }
  }

  lemma {:induction false} AllAtMostLessBound(s: seq<real>, m: real)
    ensures CountLess(s, m) <= |s|
    decreases |s|
  {
    if |s| > 0 {
      AllAtMostLessBound(s[..|s| - 1], m);
    }
  }

  /** The median has rank |s| / 2: at most |s| / 2 values lie strictly below
      it and more than |s| / 2 lie at or below it, which is what a partial
      sort around position |s| / 2 guarantees. */
  lemma MedianRank(s: seq<real>)
    requires |s| > 0
    ensures CountLess(s, Median(s)) <= |s| / 2 < CountAtMost(s, Median(s))
  {
    SortSorted(s);
    SortPermutes(s);
    SortedRank(Sort(s), |s| / 2);
    CountsOfPermutation(Sort(s), s, Median(s));
  }

  /** The median is one of the values of the spectrum. */
  lemma MedianIsMember(s: seq<real>)
    requires |s| > 0
    ensures Median(s) in s
  {
    var r := Sort(s);
    SortPermutes(s);
    assert r[|s| / 2] in multiset(r);
  }

  lemma {:induction false} CountsMonotone(s: seq<real>, m: real, m': real)
    requires m < m'
    ensures CountAtMost(s, m) <= CountLess(s, m')
    decreases |s|
  {
    if |s| > 0 {
      CountsMonotone(s[..|s| - 1], m, m');
    }
  }

  /** The rank property determines the median: any value with rank |s| / 2
      is the median, so the sort-based definition and a partial sort agree. */
  lemma MedianUnique(s: seq<real>, m: real)
    requires |s| > 0
    requires CountLess(s, m) <= |s| / 2 < CountAtMost(s, m)
    ensures m == Median(s)
  {
    MedianRank(s);
    var med := Median(s);
    if m < med {
      CountsMonotone(s, m, med);
    } else if med < m {
      CountsMonotone(s, med, m);
    }
  }

  /** Worked examples: odd length takes the middle value, even length the
      upper of the two middle values. */
  lemma MedianOddExample()
    ensures Median([5.0, 1.0, 4.0, 2.0, 3.0]) == 3.0
  {
    var s := [5.0, 1.0, 4.0, 2.0, 3.0];
    CountsAppend([5.0, 1.0], [4.0, 2.0, 3.0], 3.0);
    assert [5.0, 1.0] + [4.0, 2.0, 3.0] == s;
    assert [5.0, 1.0][..1] == [5.0] && [5.0][..0] == [];
    assert [4.0, 2.0, 3.0][..2] == [4.0, 2.0] && [4.0, 2.0][..1] == [4.0] && [4.0][..0] == [];
    assert CountLess([5.0, 1.0], 3.0) == 1 && CountAtMost([5.0, 1.0], 3.0) == 1;
    assert CountLess([4.0, 2.0, 3.0], 3.0) == 1 && CountAtMost([4.0, 2.0, 3.0], 3.0) == 2;
    MedianUnique(s, 3.0);
  }

  lemma MedianEvenExample()
    ensures Median([4.0, 1.0, 3.0, 2.0]) == 3.0
  {
    var s := [4.0, 1.0, 3.0, 2.0];
    CountsAppend([4.0, 1.0], [3.0, 2.0], 3.0);
    assert [4.0, 1.0] + [3.0, 2.0] == s;
    assert [4.0, 1.0][..1] == [4.0] && [4.0][..0] == [];
    assert [3.0, 2.0][..1] == [3.0] && [3.0][..0] == [];
    assert CountLess([4.0, 1.0], 3.0) == 1 && CountAtMost([4.0, 1.0], 3.0) == 1;
    assert CountLess([3.0, 2.0], 3.0) == 1 && CountAtMost([3.0, 2.0], 3.0) == 2;
    MedianUnique(s, 3.0);
  }
}
