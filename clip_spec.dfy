/** What the RFI clipper does to one time sample, stated on values.

    A sample is the Stokes-I spectrum of one time block, a grid of
    `subbands x channels` values; the band pass is the model spectrum, one
    value per bin (bin = subband * channels + channel), with a level
    (`median`) and a spread (`rms`) the clipper keeps updating.

    Two tests are applied. The first blanks every channel whose residual
    (data minus model) exceeds `margin = |rFactor * rms|`. The second blanks
    the whole sample when its median differs from the model level by more
    than `5 * rms / sqrt(bins)`; a sample that passes moves the model level
    to the mean of the recent accepted medians and the model rms to the rms
    of the residuals it kept. */
module ClipSpec {
  import opened Order
  import opened ClipHistory

  /** A single-precision value as the clipper sees it: a real number or
      NaN. Only the model rms can become NaN (0/0 when no channel was kept);
      every comparison with NaN is false. */
  datatype Float = Num(value: real) | NaN

  function Abs(x: real): real
  {
    if x < 0.0 then -x else x
  }

  /** `x > bound`, which is false when `bound` is NaN. */
  predicate Exceeds(x: real, bound: Float)
  {
    bound.Num? && x > bound.value
  }

  /** The per-channel clipping margin |rFactor * rms|. */
  function Margin(rFactor: real, rms: Float): (m: Float)
    ensures m.Num? <==> rms.Num?
    ensures m.Num? ==> m.value >= 0.0
  {
    if rms.NaN? then NaN else Num(Abs(rFactor * rms.value))
  }

  /** The tolerated offset of a spectrum's median from the model level,
      5 * rms / sqrt(bins). */
  function Tolerance(rms: Float, sqrtBins: real): (tol: Float)
    requires sqrtBins > 0.0
    ensures tol.Num? <==> rms.Num?
  {
    if rms.NaN? then NaN else Num(5.0 * rms.value / sqrtBins)
  }

  /** Data minus model, bin by bin. */
  function Residuals(row: seq<real>, bandPass: seq<real>): (r: seq<real>)
    requires |row| <= |bandPass|
    ensures |r| == |row|
  {
    seq(|row|, b requires 0 <= b < |row| => row[b] - bandPass[b])
  }

  function Square(x: real): real
  {
    x * x
  }

  /** Number of the first `n` residuals within the margin (the channels
      kept). */
  function KeptCount(res: seq<real>, margin: Float, n: nat): (k: nat)
    requires n <= |res|
    ensures k <= n
  {
    if n == 0 then 0
    else KeptCount(res, margin, n - 1) + (if Exceeds(res[n - 1], margin) then 0 else 1)
  }

  /** Sum of the kept residuals among the first `n`. */
  function KeptSum(res: seq<real>, margin: Float, n: nat): real
    requires n <= |res|
  {
    if n == 0 then 0.0
    else KeptSum(res, margin, n - 1) + (if Exceeds(res[n - 1], margin) then 0.0 else res[n - 1])
  }

  /** Sum of the squares of the kept residuals among the first `n`. */
  function KeptSumSq(res: seq<real>, margin: Float, n: nat): real
    requires n <= |res|
  {
    if n == 0 then 0.0
    else KeptSumSq(res, margin, n - 1) + (if Exceeds(res[n - 1], margin) then 0.0 else Square(res[n - 1]))
  }

  /** The rms of `count` values from their sum and sum of squares:
      sqrt(sumSq / count - (sum / count)^2), and NaN (0/0) for no values. */
  function RmsOf(count: nat, sum: real, sumSq: real, sqrt: real -> real): (rms: Float)
    ensures rms.NaN? <==> count == 0
  {
    if count == 0 then NaN
    else
      var mean := sum / count as real;
      Num(sqrt(sumSq / count as real - mean * mean))
  }

  /** The rms of the kept residuals, sqrt(mean of squares - square of
      mean); NaN when no channel was kept. */
  function SpectrumRms(res: seq<real>, margin: Float, sqrt: real -> real): Float
  {
    RmsOf(KeptCount(res, margin, |res|), KeptSum(res, margin, |res|), KeptSumSq(res, margin, |res|), sqrt)
  }

  /** The band-pass model as the clipper updates it. */
  datatype Level = Level(median: real, rms: Float)

  /** Everything the clipper carries from one sample to the next. */
  datatype ClipState = ClipState(level: Level, ring: Ring)

  /** What the tests need of one sample: the median of its Stokes-I values
      and its residuals against the band pass, in bin order. */
  datatype Sample = Sample(median: real, residuals: seq<real>)

  /** Summarises one sample given its Stokes-I values in bin order. */
  function Summarise(raw: seq<real>, bandPass: seq<real>): (x: Sample)
    requires |raw| == |bandPass| > 0
    ensures |x.residuals| == |raw|
  {
    Sample(Median(raw), Residuals(raw, bandPass))
  }

  /** The summaries of a run of samples. */
  function Summaries(raws: seq<seq<real>>, bandPass: seq<real>): (xs: seq<Sample>)
    requires |bandPass| > 0 && forall t :: 0 <= t < |raws| ==> |raws[t]| == |bandPass|
    ensures |xs| == |raws|
    ensures forall t :: 0 <= t < |raws| ==> xs[t] == Summarise(raws[t], bandPass)
  {
    seq(|raws|, t requires 0 <= t < |raws| => Summarise(raws[t], bandPass))
  }

  /** The fixed inputs of a run: the rejection factor, the number of bins
      and the square root the code calls. */
  datatype Params = Params(rFactor: real, bins: nat, sqrt: real -> real)

  /** The tolerance is well defined: sqrt(bins) is positive. */
  predicate Fits(p: Params)
  {
    p.sqrt(p.bins as real) > 0.0
  }

  /** The second test: the sample's median lies within tolerance of the
      model level. */
  predicate Accepts(st: ClipState, x: Sample, p: Params)
    requires Fits(p)
  {
    !Exceeds(Abs(x.median - st.level.median), Tolerance(st.level.rms, p.sqrt(p.bins as real)))
  }

  /** The state after one sample: unchanged when the sample is rejected;
      otherwise its median enters the history, the model level becomes the
      baseline and the model rms the rms of the kept residuals. */
  function Advance(st: ClipState, x: Sample, p: Params): (r: ClipState)
    requires WellFormed(st.ring) && Fits(p)
    ensures WellFormed(r.ring) && |r.ring.slots| == |st.ring.slots|
  {
    if !Accepts(st, x, p) then st
    else
      var ring := Push(st.ring, x.median);
      ClipState(Level(Baseline(ring), SpectrumRms(x.residuals, Margin(p.rFactor, st.level.rms), p.sqrt)), ring)
  }

  /** The state before sample `n`. */
  function StateAfter(st: ClipState, samples: seq<Sample>, p: Params, n: nat): (r: ClipState)
    requires n <= |samples| && WellFormed(st.ring) && Fits(p)
    ensures WellFormed(r.ring) && |r.ring.slots| == |st.ring.slots|
  {
    if n == 0 then st else Advance(StateAfter(st, samples, p, n - 1), samples[n - 1], p)
  }

  /** The medians of the samples among the first `n` that passed the
      second test, in order. */
  function AcceptedMedians(st: ClipState, samples: seq<Sample>, p: Params, n: nat): seq<real>
    requires n <= |samples| && WellFormed(st.ring) && Fits(p)
  {
    if n == 0 then []
    else
      var x := samples[n - 1];
      AcceptedMedians(st, samples, p, n - 1)
      + (if Accepts(StateAfter(st, samples, p, n - 1), x, p) then [x.median] else [])
  }

  /** The first test on one value: a channel whose residual exceeds the
      margin is zeroed in every polarisation; otherwise the first
      polarisation holds the residual and the others keep their value. */
  function Clipped(margin: Float, residual: real, original: real, pol: nat): real
  {
    if Exceeds(residual, margin) then 0.0
    else if pol == 0 then residual
    else original
  }

  /** The first test on one weight: zero for a clipped channel. */
  function ClippedWeight(margin: Float, residual: real, weight: real): real
  {
    if Exceeds(residual, margin) then 0.0 else weight
  }

  /** The value a Stokes value ends with: zero when its sample fails the
      second test, otherwise what the first test left. */
  function Cleaned(st: ClipState, x: Sample, p: Params, residual: real, original: real, pol: nat): real
    requires Fits(p)
  {
    if !Accepts(st, x, p) then 0.0
    else Clipped(Margin(p.rFactor, st.level.rms), residual, original, pol)
  }

  /** The weight a value ends with, by the same two tests. */
  function Weight(st: ClipState, x: Sample, p: Params, residual: real, weight: real): real
    requires Fits(p)
  {
    if !Accepts(st, x, p) then 0.0
    else ClippedWeight(Margin(p.rFactor, st.level.rms), residual, weight)
  }

  /** Whether a value is blanked: its sample failed the second test or its
      channel's residual exceeds the margin. */
  predicate Blanked(st: ClipState, x: Sample, p: Params, residual: real)
    requires Fits(p)
  {
    !Accepts(st, x, p) || Exceeds(residual, Margin(p.rFactor, st.level.rms))
  }

  // ---------------------------------------------------------------------
  // Properties of the specification

  /** The history after `n` samples is the starting history with the
      accepted medians pushed in order: rejected samples leave no trace. */
  lemma {:induction false} RingFollowsAccepted(st: ClipState, samples: seq<Sample>, p: Params, n: nat)
    requires n <= |samples| && WellFormed(st.ring) && Fits(p)
    ensures StateAfter(st, samples, p, n).ring == PushAll(st.ring, AcceptedMedians(st, samples, p, n))
  {
    if n > 0 {
      RingFollowsAccepted(st, samples, p, n - 1);
      var prev := StateAfter(st, samples, p, n - 1);
      var x := samples[n - 1];
      if Accepts(prev, x, p) {
        PushAllSnoc(st.ring, AcceptedMedians(st, samples, p, n - 1), x.median);
      } else {
        assert AcceptedMedians(st, samples, p, n) == AcceptedMedians(st, samples, p, n - 1);
      }
    }
  }

  /** The history holds exactly the accepted medians, whatever the samples. */
  lemma HistoryHoldsAccepted(st: ClipState, samples: seq<Sample>, p: Params, n: nat, before: seq<real>)
    requires n <= |samples| && WellFormed(st.ring) && Fits(p)
    requires Holds(st.ring, before)
    ensures Holds(StateAfter(st, samples, p, n).ring, before + AcceptedMedians(st, samples, p, n))
  {
    RingFollowsAccepted(st, samples, p, n);
    PushAllHolds(st.ring, before, AcceptedMedians(st, samples, p, n));
  }

  /** Once any sample has been accepted, the model level is the mean of
      the last min(k, maximum) accepted medians (k the number accepted). */
  lemma {:induction false} LevelIsRecentMean(st: ClipState, samples: seq<Sample>, p: Params, n: nat, before: seq<real>)
    requires n <= |samples| && WellFormed(st.ring) && Fits(p)
    requires Holds(st.ring, before)
    requires AcceptedMedians(st, samples, p, n) != []
    ensures StateAfter(st, samples, p, n).level.median
            == Mean(Recent(before + AcceptedMedians(st, samples, p, n), |st.ring.slots|))
  {
    var prev := StateAfter(st, samples, p, n - 1);
    var x := samples[n - 1];
    if Accepts(prev, x, p) {
      var acc := AcceptedMedians(st, samples, p, n);
      RingFollowsAccepted(st, samples, p, n);
      PushAllHolds(st.ring, before, acc);
      BaselineIsRecentMean(PushAll(st.ring, acc), before + acc);
    } else {
      assert AcceptedMedians(st, samples, p, n) == AcceptedMedians(st, samples, p, n - 1);
      LevelIsRecentMean(st, samples, p, n - 1, before);
    }
  }

  /** A rejected sample changes nothing; an accepted one records its median
      in the slot `current` named and sets the model rms to the kept
      residuals' rms. */
  lemma AdvanceOutcome(st: ClipState, x: Sample, p: Params)
    requires WellFormed(st.ring) && Fits(p)
    ensures !Accepts(st, x, p) ==> Advance(st, x, p) == st
    ensures Accepts(st, x, p) ==>
              && Advance(st, x, p).ring.slots[st.ring.current] == x.median
              && Advance(st, x, p).ring.num == Min(st.ring.num + 1, |st.ring.slots|)
              && Advance(st, x, p).level.rms == SpectrumRms(x.residuals, Margin(p.rFactor, st.level.rms), p.sqrt)
  {
  }

  lemma {:induction false} NothingExceedsNaN(res: seq<real>, n: nat)
    requires n <= |res|
    ensures KeptCount(res, NaN, n) == n
  {
    if n > 0 {
      NothingExceedsNaN(res, n - 1);
    }
  }

  /** A NaN model rms switches both tests off: no value is blanked, and
      since every channel is kept the next model rms is a number again
      (given at least one bin). */
  lemma NaNRmsRecovers(st: ClipState, x: Sample, p: Params)
    requires WellFormed(st.ring) && Fits(p) && st.level.rms.NaN?
    requires |x.residuals| > 0
    ensures Accepts(st, x, p)
    ensures forall r :: !Blanked(st, x, p, r)
    ensures Advance(st, x, p).level.rms.Num?
  {
    NothingExceedsNaN(x.residuals, |x.residuals|);
  }

  /** The model rms is NaN exactly when no channel was kept. */
  lemma RmsUndefinedIffNoneKept(res: seq<real>, margin: Float, sqrt: real -> real)
    ensures SpectrumRms(res, margin, sqrt).NaN? <==> KeptCount(res, margin, |res|) == 0
  {
  }

  /** Number of the first `n` residuals beyond the margin (the channels
      clipped). */
  function ClippedCount(res: seq<real>, margin: Float, n: nat): nat
    requires n <= |res|
  {
    if n == 0 then 0
    else ClippedCount(res, margin, n - 1) + (if Exceeds(res[n - 1], margin) then 1 else 0)
  }

  /** Every bin is either clipped or counted as a good channel. */
  lemma {:induction false} ClippedPlusKept(res: seq<real>, margin: Float, n: nat)
    requires n <= |res|
    ensures ClippedCount(res, margin, n) + KeptCount(res, margin, n) == n
  {
    if n > 0 {
      ClippedPlusKept(res, margin, n - 1);
    }
  }

  /** A blanked value and its weight end as zero in every polarisation; a
      value that is not blanked keeps its weight, and only the first
      polarisation is replaced, by the residual. */
  lemma BlankedIsZero(st: ClipState, x: Sample, p: Params, residual: real, original: real, weight: real, pol: nat)
    requires Fits(p)
    ensures Blanked(st, x, p, residual) ==>
              Cleaned(st, x, p, residual, original, pol) == 0.0 && Weight(st, x, p, residual, weight) == 0.0
    ensures !Blanked(st, x, p, residual) ==>
              && Weight(st, x, p, residual, weight) == weight
              && Cleaned(st, x, p, residual, original, pol) == (if pol == 0 then residual else original)
  {
  }
}
