/** The clipper's history of accepted spectrum medians: a fixed-size ring
    of `maximum` slots, a count of the slots in use and the slot written
    next. The baseline level is the mean of the slots in use. */
module ClipHistory {

  function Sum(s: seq<real>): real
  {
    if |s| == 0 then 0.0 else Sum(s[..|s| - 1]) + s[|s| - 1]
  }

  lemma {:induction false} SumAppend(a: seq<real>, b: seq<real>)
    ensures Sum(a + b) == Sum(a) + Sum(b)
    decreases |b|
  {
    if |b| == 0 {
      assert a + b == a;
    } else {
      assert (a + b)[..|a + b| - 1] == a + b[..|b| - 1];
      SumAppend(a, b[..|b| - 1]);
    }
  }

  function Mean(s: seq<real>): real
    requires |s| > 0
  {
    Sum(s) / |s| as real
  }

  function Min(a: nat, b: nat): nat
  {
    if a < b then a else b
  }

  /** The last min(|accepted|, maximum) entries of a list. */
  function Recent(accepted: seq<real>, maximum: nat): (r: seq<real>)
    ensures |r| == Min(|accepted|, maximum)
  {
    accepted[|accepted| - Min(|accepted|, maximum)..]
  }

  /** `t` rotated so that its first `k` elements are its last `k`. */
  function Rotate(t: seq<real>, k: nat): (r: seq<real>)
    requires k <= |t|
    ensures |r| == |t|
  {
    t[|t| - k..] + t[..|t| - k]
  }

  datatype Ring = Ring(slots: seq<real>, num: nat, current: nat)

  /** The shape the ring keeps: `num` never exceeds the number of slots and
      `current` indexes a slot. */
  predicate WellFormed(r: Ring)
  {
    |r.slots| > 0 && r.num <= |r.slots| && r.current < |r.slots|
  }

  /** The freshly sized history: `maximum` zeroed slots, none in use. */
  function EmptyRing(maximum: nat): (r: Ring)
    requires maximum > 0
    ensures WellFormed(r) && r.num == 0 && |r.slots| == maximum
  {
    Ring(seq(maximum, _ => 0.0), 0, 0)
  }

  /** Records one accepted median: the count grows until every slot is in
      use, the median overwrites the slot at `current`, and `current` moves
      on cyclically. */
  function Push(r: Ring, median: real): (r': Ring)
    requires WellFormed(r)
    ensures WellFormed(r') && |r'.slots| == |r.slots|
    ensures r'.num == Min(r.num + 1, |r.slots|) && r'.num > 0
    ensures r'.slots == r.slots[r.current := median]
    ensures r'.current == if r.current + 1 < |r.slots| then r.current + 1 else 0
  {
    Ring(r.slots[r.current := median],
         if r.num != |r.slots| then r.num + 1 else r.num,
         (r.current + 1) % |r.slots|)
  }

  /** The baseline level: the mean of the slots in use. */
  function Baseline(r: Ring): real
    requires WellFormed(r) && r.num > 0
  {
    Mean(r.slots[..r.num])
  }

  /** The ring records exactly the accepted medians: while it is filling
      up the slots in use hold them in order; once full, the slots hold the
      last `maximum` of them, rotated so that the oldest sits at `current`,
      the slot the next median overwrites. */
  ghost predicate Holds(r: Ring, accepted: seq<real>)
  {
    WellFormed(r)
    && r.num == Min(|accepted|, |r.slots|)
    && if |accepted| < |r.slots| then r.current == |accepted| && r.slots[..|accepted|] == accepted
       else r.slots == Rotate(Recent(accepted, |r.slots|), r.current)
  }

  lemma EmptyHolds(maximum: nat)
    requires maximum > 0
    ensures Holds(EmptyRing(maximum), [])
  {
  }

  /** Pushing a median keeps the ring in step with the accepted list. */
  lemma PushHolds(r: Ring, accepted: seq<real>, median: real)
    requires Holds(r, accepted)
    ensures Holds(Push(r, median), accepted + [median])
  {
    if |accepted| + 1 < |r.slots| {
      PushWhileFilling(r, accepted, median);
    } else if |accepted| + 1 == |r.slots| {
      PushFilling(r, accepted, median);
    } else {
      PushWhenFull(r, accepted, median);
    }
  }

  lemma PushWhileFilling(r: Ring, accepted: seq<real>, median: real)
    requires Holds(r, accepted) && |accepted| + 1 < |r.slots|
    ensures Holds(Push(r, median), accepted + [median])
  {
    var r' := Push(r, median);
    assert r.current == |accepted|;
    assert r'.slots[..|accepted| + 1] == r.slots[..|accepted|] + [median];
  }

  lemma PushFilling(r: Ring, accepted: seq<real>, median: real)
    requires Holds(r, accepted) && |accepted| + 1 == |r.slots|
    ensures Holds(Push(r, median), accepted + [median])
  {
    var max := |r.slots|;
    var acc' := accepted + [median];
    var r' := Push(r, median);
    assert r.current == |accepted| == max - 1;
    assert r'.slots == r.slots[..max - 1] + [median];
    assert r'.slots == acc' == Recent(acc', max) == Rotate(acc', 0);
  }

  lemma RotateAt(t: seq<real>, k: nat, j: nat)
    requires k <= |t| && j < |t|
    ensures Rotate(t, k)[j] == if j < k then t[|t| - k + j] else t[j - k]
  {
  }

  lemma PushWhenFull(r: Ring, accepted: seq<real>, median: real)
    requires Holds(r, accepted) && |accepted| >= |r.slots|
    ensures Holds(Push(r, median), accepted + [median])
  {
    var max := |r.slots|;
    var acc' := accepted + [median];
    var r' := Push(r, median);
    var c := r.current;
    var c' := r'.current;
    var t := Recent(accepted, max);
    var t' := Recent(acc', max);
    assert t' == t[1..] + [median];
    assert r.slots == Rotate(t, c);
    var rot := Rotate(t', c');
    if c + 1 < max {
      assert c' == c + 1;
      forall j | 0 <= j < max
        ensures r'.slots[j] == rot[j]
      {
        RotateAt(t', c', j);
        if j < c {
          RotateAt(t, c, j);
          assert r'.slots[j] == t[max - c + j] == t'[max - c' + j];
        } else if j > c {
          RotateAt(t, c, j);
          assert r'.slots[j] == t[j - c] == t'[j - c'];
        }
      }
    } else {
      assert c' == 0;
      forall j | 0 <= j < max
        ensures r'.slots[j] == rot[j]
      {
        RotateAt(t', c', j);
        if j < c {
          RotateAt(t, c, j);
          assert r'.slots[j] == t[max - c + j] == t'[j];
        }
      }
    }
    assert r'.slots == rot;
  }

  /** The ring after pushing `medians` in order. */
  function PushAll(r: Ring, medians: seq<real>): (r': Ring)
    requires WellFormed(r)
    ensures WellFormed(r') && |r'.slots| == |r.slots|
  {
    if |medians| == 0 then r else Push(PushAll(r, medians[..|medians| - 1]), medians[|medians| - 1])
  }

  lemma PushAllSnoc(r: Ring, medians: seq<real>, m: real)
    requires WellFormed(r)
    ensures PushAll(r, medians + [m]) == Push(PushAll(r, medians), m)
  {
    assert (medians + [m])[..|medians|] == medians;
  }

  /** Pushing any list of medians keeps the ring in step with them. */
  lemma {:induction false} PushAllHolds(r: Ring, before: seq<real>, medians: seq<real>)
    requires Holds(r, before)
    ensures Holds(PushAll(r, medians), before + medians)
    decreases |medians|
  {
    if |medians| > 0 {
      var front := medians[..|medians| - 1];
      var m := medians[|medians| - 1];
      var r' := PushAll(r, front);
      PushAllHolds(r, before, front);
      PushHolds(r', before + front, m);
      SnocSplit(before, medians);
      assert PushAll(r, medians) == Push(r', m);
    }
  }

  lemma SnocSplit(before: seq<real>, medians: seq<real>)
    requires |medians| > 0
    ensures before + medians == (before + medians[..|medians| - 1]) + [medians[|medians| - 1]]
  {
    assert medians == medians[..|medians| - 1] + [medians[|medians| - 1]];
  }

  lemma SumRotate(t: seq<real>, k: nat)
    requires k <= |t|
    ensures Sum(Rotate(t, k)) == Sum(t)
  {
    SumAppend(t[|t| - k..], t[..|t| - k]);
    SumAppend(t[..|t| - k], t[|t| - k..]);
    assert t == t[..|t| - k] + t[|t| - k..];
  }

  /** The baseline is the mean of the last min(n, maximum) accepted
      medians, n being the number accepted so far. */
  lemma BaselineIsRecentMean(r: Ring, accepted: seq<real>)
    requires Holds(r, accepted) && |accepted| > 0
    ensures r.num > 0
    ensures Baseline(r) == Mean(Recent(accepted, |r.slots|))
  {
    var max := |r.slots|;
    if |accepted| < max {
      assert Recent(accepted, max) == accepted;
    } else {
      assert r.slots[..r.num] == r.slots;
      SumRotate(Recent(accepted, max), r.current);
    }
  }
}
