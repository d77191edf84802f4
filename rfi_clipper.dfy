/** The RFI clipper as an object: its configuration, the band-pass model
    it keeps updating (level and rms), the ring buffer of accepted medians
    and the scratch copy of the current spectrum.

    The data set is a four-dimensional array indexed [time, subband,
    polarisation, channel]; the weights have the same shape. Bins are
    numbered subband-major, bin = subband * channels + channel. */
module RFIClipping {
  import opened Basics
  import opened Order
  import opened ClipHistory
  import opened ClipSpec
  import opened ClipConfig

  /** The Stokes-I values of subband `s` of time sample `t`. */
  ghost function Channels(I: array4<real>, t: nat, s: nat): (row: seq<real>)
    reads I
    requires t < I.Length0 && s < I.Length1 && 0 < I.Length2
    ensures |row| == I.Length3
    ensures forall c :: 0 <= c < I.Length3 ==> row[c] == I[t, s, 0, c]
  {
    seq(I.Length3, c requires 0 <= c < I.Length3 reads I => I[t, s, 0, c])
  }

  /** The bin number of channel `c` of subband `s`: bins run subband
      after subband. */
  function Bin(s: nat, c: nat, subbands: nat, channels: nat): (b: nat)
    requires s < subbands && c < channels
    ensures b < subbands * channels
  {
    assert (s + 1) * channels <= subbands * channels;
    s * channels + c
  }

  /** The Stokes-I values of the first `k` subbands of sample `t`, in bin
      order. */
  ghost function Bins(I: array4<real>, t: nat, k: nat): (raw: seq<real>)
    reads I
    requires t < I.Length0 && k <= I.Length1 && 0 < I.Length2
    ensures |raw| == k * I.Length3
    ensures forall s, c :: 0 <= s < k && 0 <= c < I.Length3 ==> raw[Bin(s, c, k, I.Length3)] == I[t, s, 0, c]
    decreases k
  {
    if k == 0 then []
    else
      var front := Bins(I, t, k - 1);
      var row := Channels(I, t, k - 1);
      BinsStep(front, row, I.Length3, k - 1);
      front + row
  }

  lemma BinsStep(front: seq<real>, row: seq<real>, channels: nat, k: nat)
    requires |front| == k * channels && |row| == channels
    ensures |front + row| == (k + 1) * channels
    ensures forall s, c :: 0 <= s < k && 0 <= c < channels ==> (front + row)[Bin(s, c, k + 1, channels)] == front[Bin(s, c, k, channels)]
    ensures forall c :: 0 <= c < channels ==> (front + row)[Bin(k, c, k + 1, channels)] == row[c]
  {
    forall c | 0 <= c < channels
      ensures (front + row)[Bin(k, c, k + 1, channels)] == row[c]
    {
      assert Bin(k, c, k + 1, channels) == |front| + c;
    }
  }

  /** The Stokes-I spectrum of every time sample, in bin order. */
  ghost function Spectra(I: array4<real>): (raws: seq<seq<real>>)
    reads I
    requires 0 < I.Length2
    ensures |raws| == I.Length0
    ensures forall t :: 0 <= t < I.Length0 ==> raws[t] == Bins(I, t, I.Length1)
  {
    seq(I.Length0, t requires 0 <= t < I.Length0 reads I => Bins(I, t, I.Length1))
  }

  /** The spectra of a data set are a valid `raws` argument of `Run`: one
      per time sample, each with one value per bin, each value the Stokes-I
      value of its bin. */
  lemma SpectraFitRun(I: array4<real>)
    requires 0 < I.Length2
    ensures var raws := Spectra(I);
            && |raws| == I.Length0
            && (forall t :: 0 <= t < |raws| ==> |raws[t]| == I.Length1 * I.Length3)
            && forall t, s, c :: 0 <= t < |raws| && 0 <= s < I.Length1 && 0 <= c < I.Length3 ==>
                 raws[t][Bin(s, c, I.Length1, I.Length3)] == I[t, s, 0, c]
  {
  }

  /** Data and weights have the same shape. */
  predicate SameShape(I: array4<real>, W: array4<real>)
  {
    I.Length0 == W.Length0 && I.Length1 == W.Length1 && I.Length2 == W.Length2 && I.Length3 == W.Length3
  }

  /** Zeroes the value and weight of channel `c` of subband `s` of sample
      `t` in every polarisation, the first one first. */
  method BlankChannel(I: array4<real>, W: array4<real>, t: nat, s: nat, c: nat)
    requires I != W && SameShape(I, W)
    requires t < I.Length0 && s < I.Length1 && 0 < I.Length2 && c < I.Length3
    modifies I, W
    ensures forall q :: 0 <= q < I.Length2 ==> I[t, s, q, c] == 0.0 && W[t, s, q, c] == 0.0
    ensures forall t', s', q, c' :: 0 <= t' < I.Length0 && 0 <= s' < I.Length1 && 0 <= q < I.Length2 && 0 <= c' < I.Length3
              && (t' != t || s' != s || c' != c)
              ==> I[t', s', q, c'] == old(I[t', s', q, c']) && W[t', s', q, c'] == old(W[t', s', q, c'])
  {
    I[t, s, 0, c] := 0.0;
    W[t, s, 0, c] := 0.0;
    var pol := 1;
    while pol < I.Length2
      invariant 1 <= pol <= I.Length2
      invariant forall q :: 0 <= q < pol ==> I[t, s, q, c] == 0.0 && W[t, s, q, c] == 0.0
      invariant forall t', s', q, c' :: 0 <= t' < I.Length0 && 0 <= s' < I.Length1 && 0 <= q < I.Length2 && 0 <= c' < I.Length3
                  && (t' != t || s' != s || c' != c || q >= pol)
                  ==> I[t', s', q, c'] == old(I[t', s', q, c']) && W[t', s', q, c'] == old(W[t', s', q, c'])
    {
      I[t, s, pol, c] := 0.0;
      W[t, s, pol, c] := 0.0;
      pol := pol + 1;
    }
  }

  /** The second test's rejection: zeroes every value and weight of sample
      `t`, in every subband, channel and polarisation. */
  method BlankSample(I: array4<real>, W: array4<real>, t: nat)
    requires I != W && SameShape(I, W)
    requires t < I.Length0 && 0 < I.Length2
    modifies I, W
    ensures forall s, q, c :: 0 <= s < I.Length1 && 0 <= q < I.Length2 && 0 <= c < I.Length3 ==>
              I[t, s, q, c] == 0.0 && W[t, s, q, c] == 0.0
    ensures forall t', s, q, c :: 0 <= t' < I.Length0 && 0 <= s < I.Length1 && 0 <= q < I.Length2 && 0 <= c < I.Length3
              && t' != t
              ==> I[t', s, q, c] == old(I[t', s, q, c]) && W[t', s, q, c] == old(W[t', s, q, c])
  {
    var s := 0;
    while s < I.Length1
      invariant 0 <= s <= I.Length1
      invariant forall s', q, c' :: 0 <= s' < s && 0 <= q < I.Length2 && 0 <= c' < I.Length3 ==>
                  I[t, s', q, c'] == 0.0 && W[t, s', q, c'] == 0.0
      invariant forall t', s', q, c' :: 0 <= t' < I.Length0 && s <= s' < I.Length1 && 0 <= q < I.Length2 && 0 <= c' < I.Length3
                  ==> I[t', s', q, c'] == old(I[t', s', q, c']) && W[t', s', q, c'] == old(W[t', s', q, c'])
      invariant forall t', s', q, c' :: 0 <= t' < I.Length0 && 0 <= s' < I.Length1 && 0 <= q < I.Length2 && 0 <= c' < I.Length3
                  && t' != t
                  ==> I[t', s', q, c'] == old(I[t', s', q, c']) && W[t', s', q, c'] == old(W[t', s', q, c'])
    {
      var c := 0;
      while c < I.Length3
        invariant 0 <= c <= I.Length3
        invariant forall s', q, c' :: 0 <= s' < I.Length1 && 0 <= q < I.Length2 && 0 <= c' < I.Length3
                    && (s' < s || (s' == s && c' < c))
                    ==> I[t, s', q, c'] == 0.0 && W[t, s', q, c'] == 0.0
        invariant forall t', s', q, c' :: 0 <= t' < I.Length0 && 0 <= s' < I.Length1 && 0 <= q < I.Length2 && 0 <= c' < I.Length3
                    && (s' > s || (s' == s && c' >= c))
                    ==> I[t', s', q, c'] == old(I[t', s', q, c']) && W[t', s', q, c'] == old(W[t', s', q, c'])
        invariant forall t', s', q, c' :: 0 <= t' < I.Length0 && 0 <= s' < I.Length1 && 0 <= q < I.Length2 && 0 <= c' < I.Length3
                    && t' != t
                    ==> I[t', s', q, c'] == old(I[t', s', q, c']) && W[t', s', q, c'] == old(W[t', s', q, c'])
      {
        BlankChannel(I, W, t, s, c);
        c := c + 1;
      }
      s := s + 1;
    }
  }

  /** The first test on one channel: subtracts the band-pass value from
      the first polarisation and, when the residual exceeds the margin,
      blanks the channel in every polarisation. */
  method ClipBin(I: array4<real>, W: array4<real>, t: nat, s: nat, c: nat, bandPass: real, margin: Float)
    returns (r: real)
    requires I != W && SameShape(I, W)
    requires t < I.Length0 && s < I.Length1 && 0 < I.Length2 && c < I.Length3
    modifies I, W
    ensures r == old(I[t, s, 0, c]) - bandPass
    ensures forall q :: 0 <= q < I.Length2 ==>
              I[t, s, q, c] == Clipped(margin, r, old(I[t, s, q, c]), q)
              && W[t, s, q, c] == ClippedWeight(margin, r, old(W[t, s, q, c]))
    ensures forall t', s', q, c' :: 0 <= t' < I.Length0 && 0 <= s' < I.Length1 && 0 <= q < I.Length2 && 0 <= c' < I.Length3
              && (t' != t || s' != s || c' != c)
              ==> I[t', s', q, c'] == old(I[t', s', q, c']) && W[t', s', q, c'] == old(W[t', s', q, c'])
  {
    I[t, s, 0, c] := I[t, s, 0, c] - bandPass;
    r := I[t, s, 0, c];
    if Exceeds(I[t, s, 0, c], margin) {
      BlankChannel(I, W, t, s, c);
    }
  }

  class RFIClipper {
    var active: bool
    var rFactor: real
    var maxHistory: int
    var startFrequency: Option<real>
    var endFrequency: Option<real>
    /** The band-pass model's level and rms. */
    var bandMedian: real
    var bandRms: Float
    /** The ring buffer of accepted medians: `num` slots in use, `current`
        the slot written next. */
    var history: array<real>
    var num: nat
    var current: nat
    /** The raw copy of the spectrum being cleaned. */
    var copyI: array<real>
    /** Every median the clipper has accepted, oldest first. */
    ghost var accepted: seq<real>

    /** The history ring as a value. */
    ghost function Buffer(): Ring
      reads this`history, this`num, this`current, history
    {
      Ring(history[..], num, current)
    }

    /** The state the specification carries from sample to sample. */
    ghost function Model(): ClipState
      reads this`bandMedian, this`bandRms, this`history, this`num, this`current, history
    {
      ClipState(Level(bandMedian, bandRms), Buffer())
    }

    /** The history has `maxHistory` slots (none for a negative value) and
        records exactly the accepted medians. */
    ghost predicate Valid()
      reads this`maxHistory, this`accepted, this`history, this`num, this`current, history
    {
      && history.Length == (if maxHistory < 0 then 0 else maxHistory)
      && (history.Length > 0 ==> Holds(Buffer(), accepted))
      && (history.Length == 0 ==> num == 0 && current == 0 && accepted == [])
    }

    /** A clipper built from validated settings: the model is the band
        pass's level and rms, the history is `maxHistory` zeroed slots and
        none is in use. */
    constructor (s: Settings)
      ensures Valid() && fresh(history)
      ensures active == s.active && rFactor == s.rFactor && maxHistory == s.maxHistory
      ensures startFrequency == s.startFrequency && endFrequency == s.endFrequency
      ensures bandMedian == s.band.median && bandRms == Num(s.band.rms)
      ensures history[..] == seq(history.Length, _ => 0.0)
      ensures num == 0 && current == 0 && accepted == []
    {
      active := s.active;
      rFactor := s.rFactor;
      maxHistory := s.maxHistory;
      startFrequency := s.startFrequency;
      endFrequency := s.endFrequency;
      bandMedian := s.band.median;
      bandRms := Num(s.band.rms);
      history := new real[if s.maxHistory < 0 then 0 else s.maxHistory](_ => 0.0);
      num := 0;
      current := 0;
      copyI := new real[0];
      accepted := [];
    }

    /** Records an accepted median: the count grows until the ring is full,
        the median overwrites slot `current` and `current` moves on
        cyclically. */
    method AddToHistory(median: real)
      requires maxHistory == history.Length && WellFormed(Buffer())
      modifies this`num, this`current, history
      ensures Buffer() == Push(old(Buffer()), median)
    {
      if num != maxHistory {
        num := num + 1;
      }
      history[current] := median;
      current := (current + 1) % maxHistory;
    }

    /** The mean of the slots in use. */
    method BaselineLevel() returns (level: real)
      requires 0 < num <= history.Length
      ensures level == Mean(history[..num])
    {
      level := 0.0;
      var i := 0;
      while i < num
        invariant 0 <= i <= num
        invariant level == Sum(history[..i])
      {
        assert history[..i + 1][..i] == history[..i];
        level := level + history[i];
        i := i + 1;
      }
      level := level / num as real;
    }

    /** The value a partial sort of `copyI` leaves at the middle position:
        at most half of the values lie below it and more than half at or
        below it. */
    method SpectrumMedian() returns (median: real)
      requires copyI.Length > 0
      ensures CountLess(copyI[..], median) <= copyI.Length / 2 < CountAtMost(copyI[..], median)
    {
      median := Median(copyI[..]);
      MedianRank(copyI[..]);
    }

    /** A sample that passed the second test: its median enters the
        history, the model level becomes the baseline and the model rms
        the sample's rms. */
    method AcceptSample(median: real, spectrumRms: Float)
      requires maxHistory == history.Length && WellFormed(Buffer())
      modifies this`num, this`current, this`bandMedian, this`bandRms, history
      ensures Buffer() == Push(old(Buffer()), median)
      ensures Model() == ClipState(Level(Baseline(Buffer()), spectrumRms), Buffer())
    {
      AddToHistory(median);
      var baseline := BaselineLevel();
      assert Buffer().slots[..num] == history[..num];
      bandMedian := baseline;
      bandRms := spectrumRms;
    }

    /** The first test on subband `s` of sample `t`: channel by channel,
        copies the raw value into `copyI` at its bin, subtracts the band
        pass, blanks the channel when the residual exceeds `margin` and
        otherwise adds the residual to the kept statistics. */
    method ClipSubband(I: array4<real>, W: array4<real>, t: nat, s: nat, bandPass: seq<real>, margin: Float,
                       ghost raw: seq<real>, good0: nat, sum0: real, sumSq0: real)
      returns (good: nat, sum: real, sumSq: real)
      requires I != W && SameShape(I, W)
      requires t < I.Length0 && s < I.Length1 && 0 < I.Length2
      requires copyI.Length == |bandPass| == |raw| == I.Length1 * I.Length3
      requires (s + 1) * I.Length3 <= |raw|
      requires forall c :: 0 <= c < I.Length3 ==> raw[Bin(s, c, I.Length1, I.Length3)] == I[t, s, 0, c]
      requires forall b :: 0 <= b < s * I.Length3 ==> copyI[b] == raw[b]
      requires good0 == KeptCount(Residuals(raw, bandPass), margin, s * I.Length3)
      requires sum0 == KeptSum(Residuals(raw, bandPass), margin, s * I.Length3)
      requires sumSq0 == KeptSumSq(Residuals(raw, bandPass), margin, s * I.Length3)
      modifies I, W, copyI
      ensures forall b :: 0 <= b < (s + 1) * I.Length3 ==> copyI[b] == raw[b]
      ensures good == KeptCount(Residuals(raw, bandPass), margin, (s + 1) * I.Length3)
      ensures sum == KeptSum(Residuals(raw, bandPass), margin, (s + 1) * I.Length3)
      ensures sumSq == KeptSumSq(Residuals(raw, bandPass), margin, (s + 1) * I.Length3)
      ensures forall q, c :: 0 <= q < I.Length2 && 0 <= c < I.Length3 ==>
                I[t, s, q, c] == Clipped(margin, old(I[t, s, 0, c]) - bandPass[Bin(s, c, I.Length1, I.Length3)], old(I[t, s, q, c]), q)
      ensures forall q, c :: 0 <= q < I.Length2 && 0 <= c < I.Length3 ==>
                W[t, s, q, c] == ClippedWeight(margin, old(I[t, s, 0, c]) - bandPass[Bin(s, c, I.Length1, I.Length3)], old(W[t, s, q, c]))
      ensures forall t', s', q, c :: 0 <= t' < I.Length0 && 0 <= s' < I.Length1 && 0 <= q < I.Length2 && 0 <= c < I.Length3
                && (t' != t || s' != s)
                ==> I[t', s', q, c] == old(I[t', s', q, c]) && W[t', s', q, c] == old(W[t', s', q, c])
    {
      ghost var res := Residuals(raw, bandPass);
      var nC := I.Length3;
      good, sum, sumSq := good0, sum0, sumSq0;
      var bin := s * nC;
      var copy := copyI;
      var c := 0;
      while c < nC
        invariant 0 <= c <= nC && bin == s * nC + c && bin <= |raw|
        invariant forall b :: 0 <= b < bin ==> copy[b] == raw[b]
        invariant good == KeptCount(res, margin, bin)
        invariant sum == KeptSum(res, margin, bin)
        invariant sumSq == KeptSumSq(res, margin, bin)
        invariant forall q, c' :: 0 <= q < I.Length2 && 0 <= c' < c ==>
                    I[t, s, q, c'] == Clipped(margin, old(I[t, s, 0, c']) - bandPass[Bin(s, c', I.Length1, nC)], old(I[t, s, q, c']), q)
        invariant forall q, c' :: 0 <= q < I.Length2 && 0 <= c' < c ==>
                    W[t, s, q, c'] == ClippedWeight(margin, old(I[t, s, 0, c']) - bandPass[Bin(s, c', I.Length1, nC)], old(W[t, s, q, c']))
        invariant forall t', s', q, c' :: 0 <= t' < I.Length0 && 0 <= s' < I.Length1 && 0 <= q < I.Length2 && 0 <= c' < nC
                    && (t' != t || s' != s || c' >= c)
                    ==> I[t', s', q, c'] == old(I[t', s', q, c'])
        invariant forall t', s', q, c' :: 0 <= t' < I.Length0 && 0 <= s' < I.Length1 && 0 <= q < I.Length2 && 0 <= c' < nC
                    && (t' != t || s' != s || c' >= c)
                    ==> W[t', s', q, c'] == old(W[t', s', q, c'])
      {
        assert bin == Bin(s, c, I.Length1, nC);
        assert I[t, s, 0, c] == old(I[t, s, 0, c]) == raw[bin];
        copy[bin] := I[t, s, 0, c];
        var r := ClipBin(I, W, t, s, c, bandPass[bin], margin);
        assert r == res[bin];
        if !Exceeds(r, margin) {
          sum := sum + r;
          sumSq := sumSq + Square(r);
          good := good + 1;
        }
        bin := bin + 1;
        c := c + 1;
      }
    }

    /** The first test on sample `t`: every subband in turn, so that the
        raw values land in `copyI` in bin order. */
    method ClipChannels(I: array4<real>, W: array4<real>, t: nat, bandPass: seq<real>, margin: Float, ghost raw: seq<real>)
      returns (good: nat, sum: real, sumSq: real)
      requires I != W && SameShape(I, W)
      requires t < I.Length0 && 0 < I.Length2
      requires copyI.Length == |bandPass| == |raw| == I.Length1 * I.Length3
      requires forall s, c :: 0 <= s < I.Length1 && 0 <= c < I.Length3 ==> raw[Bin(s, c, I.Length1, I.Length3)] == I[t, s, 0, c]
      modifies I, W, copyI
      ensures copyI[..] == raw
      ensures good == KeptCount(Residuals(raw, bandPass), margin, |raw|)
      ensures sum == KeptSum(Residuals(raw, bandPass), margin, |raw|)
      ensures sumSq == KeptSumSq(Residuals(raw, bandPass), margin, |raw|)
      ensures forall s, q, c :: 0 <= s < I.Length1 && 0 <= q < I.Length2 && 0 <= c < I.Length3 ==>
                I[t, s, q, c] == Clipped(margin, old(I[t, s, 0, c]) - bandPass[Bin(s, c, I.Length1, I.Length3)], old(I[t, s, q, c]), q)
      ensures forall s, q, c :: 0 <= s < I.Length1 && 0 <= q < I.Length2 && 0 <= c < I.Length3 ==>
                W[t, s, q, c] == ClippedWeight(margin, old(I[t, s, 0, c]) - bandPass[Bin(s, c, I.Length1, I.Length3)], old(W[t, s, q, c]))
      ensures forall t', s, q, c :: 0 <= t' < I.Length0 && 0 <= s < I.Length1 && 0 <= q < I.Length2 && 0 <= c < I.Length3
                && t' != t
                ==> I[t', s, q, c] == old(I[t', s, q, c]) && W[t', s, q, c] == old(W[t', s, q, c])
    {
      var nC := I.Length3;
      good, sum, sumSq := 0, 0.0, 0.0;
      var s := 0;
      while s < I.Length1
        invariant 0 <= s <= I.Length1 && s * nC <= |raw|
        invariant forall b :: 0 <= b < s * nC ==> copyI[b] == raw[b]
        invariant good == KeptCount(Residuals(raw, bandPass), margin, s * nC)
        invariant sum == KeptSum(Residuals(raw, bandPass), margin, s * nC)
        invariant sumSq == KeptSumSq(Residuals(raw, bandPass), margin, s * nC)
        invariant forall s', q, c :: 0 <= s' < s && 0 <= q < I.Length2 && 0 <= c < nC ==>
                    I[t, s', q, c] == Clipped(margin, old(I[t, s', 0, c]) - bandPass[Bin(s', c, I.Length1, nC)], old(I[t, s', q, c]), q)
        invariant forall s', q, c :: 0 <= s' < s && 0 <= q < I.Length2 && 0 <= c < nC ==>
                    W[t, s', q, c] == ClippedWeight(margin, old(I[t, s', 0, c]) - bandPass[Bin(s', c, I.Length1, nC)], old(W[t, s', q, c]))
        invariant forall t', s', q, c :: 0 <= t' < I.Length0 && 0 <= s' < I.Length1 && 0 <= q < I.Length2 && 0 <= c < nC
                    && (t' != t || s' >= s)
                    ==> I[t', s', q, c] == old(I[t', s', q, c]) && W[t', s', q, c] == old(W[t', s', q, c])
      {
        MulMonotone(s + 1, I.Length1, nC);
        good, sum, sumSq := ClipSubband(I, W, t, s, bandPass, margin, raw, good, sum, sumSq);
        s := s + 1;
      }
      assert copyI[..] == raw;
    }

    /** Both tests on sample `t`. The first blanks the channels whose
        residual exceeds |rFactor * rms|; then, if the median of the raw
        values lies further than 5 * rms / sqrt(bins) from the model level,
        the whole sample is blanked and the model kept, otherwise the
        median enters the history, the model level becomes the baseline and
        the model rms the rms of the kept residuals. */
    method CleanSample(I: array4<real>, W: array4<real>, t: nat, bandPass: seq<real>, sqrt: real -> real,
                       ghost raw: seq<real>, ghost x: Sample, ghost p: Params, ghost st: ClipState)
      requires I != W && SameShape(I, W)
      requires t < I.Length0 && 0 < I.Length2
      requires maxHistory == history.Length && WellFormed(Buffer()) && copyI != history
      requires copyI.Length == |bandPass| == |raw| == I.Length1 * I.Length3 > 0
      requires p == Params(rFactor, |bandPass|, sqrt) && Fits(p)
      requires x == Summarise(raw, bandPass) && st == Model()
      requires forall s, c :: 0 <= s < I.Length1 && 0 <= c < I.Length3 ==> raw[Bin(s, c, I.Length1, I.Length3)] == I[t, s, 0, c]
      modifies this`num, this`current, this`bandMedian, this`bandRms, history, I, W, copyI
      ensures Model() == Advance(st, x, p)
      ensures forall s, q, c :: 0 <= s < I.Length1 && 0 <= q < I.Length2 && 0 <= c < I.Length3 ==>
                var residual := old(I[t, s, 0, c]) - bandPass[Bin(s, c, I.Length1, I.Length3)];
                && I[t, s, q, c] == Cleaned(st, x, p, residual, old(I[t, s, q, c]), q)
                && W[t, s, q, c] == Weight(st, x, p, residual, old(W[t, s, q, c]))
      ensures forall t', s, q, c :: 0 <= t' < I.Length0 && 0 <= s < I.Length1 && 0 <= q < I.Length2 && 0 <= c < I.Length3
                && t' != t
                ==> I[t', s, q, c] == old(I[t', s, q, c])
      ensures forall t', s, q, c :: 0 <= t' < I.Length0 && 0 <= s < I.Length1 && 0 <= q < I.Length2 && 0 <= c < I.Length3
                && t' != t
                ==> W[t', s, q, c] == old(W[t', s, q, c])
    {
      var margin := Margin(rFactor, bandRms);
      var tolerance := Tolerance(bandRms, sqrt(|bandPass| as real));
      var modelLevel := bandMedian;
      var good, sum, sumSq := ClipChannels(I, W, t, bandPass, margin, raw);
      assert Model() == st;
      var median := SpectrumMedian();
      MedianUnique(raw, median);
      assert median == x.median;
      var medianDelta := median - modelLevel;
      var spectrumRms := RmsOf(good, sum, sumSq, sqrt);
      assert Accepts(st, x, p) == !Exceeds(Abs(medianDelta), tolerance);
      if Exceeds(Abs(medianDelta), tolerance) {
        BlankSample(I, W, t);
      } else {
        AcceptSample(median, spectrumRms);
      }
    }

    /** Sample `t` of `xs` summarises spectrum `t` of `raws`. */
    ghost predicate Summarised(raws: seq<seq<real>>, xs: seq<Sample>, bandPass: seq<real>, t: nat)
      requires t < |raws| == |xs| && |raws[t]| == |bandPass| > 0
    {
      xs[t] == Summarise(raws[t], bandPass)
    }

    /** Allocates the scratch spectrum and cleans every time sample in
        order: after sample t the clipper's state is the specification's
        state after t + 1 samples, and the values of sample t are what the
        two tests make of them in the state before it. */
    method CleanAll(I: array4<real>, W: array4<real>, bandPass: seq<real>, sqrt: real -> real,
                    ghost raws: seq<seq<real>>, ghost xs: seq<Sample>)
      requires I != W && SameShape(I, W) && 0 < I.Length2
      requires maxHistory == history.Length && WellFormed(Buffer())
      requires |bandPass| == I.Length1 * I.Length3 > 0
      requires Fits(Params(rFactor, |bandPass|, sqrt))
      requires |raws| == |xs| == I.Length0
      requires forall t :: 0 <= t < |raws| ==> |raws[t]| == |bandPass|
      requires forall t :: 0 <= t < |raws| ==> Summarised(raws, xs, bandPass, t)
      requires forall t, s, c :: 0 <= t < |raws| && 0 <= s < I.Length1 && 0 <= c < I.Length3 ==>
                 raws[t][Bin(s, c, I.Length1, I.Length3)] == I[t, s, 0, c]
      modifies this`copyI, this`num, this`current, this`bandMedian, this`bandRms, history, I, W
      ensures fresh(copyI) && copyI.Length == |bandPass|
      ensures Model() == StateAfter(old(Model()), xs, Params(rFactor, |bandPass|, sqrt), |xs|)
      ensures forall t, s, q, c :: 0 <= t < I.Length0 && 0 <= s < I.Length1 && 0 <= q < I.Length2 && 0 <= c < I.Length3 ==>
                var st := StateAfter(old(Model()), xs, Params(rFactor, |bandPass|, sqrt), t);
                var residual := old(I[t, s, 0, c]) - bandPass[Bin(s, c, I.Length1, I.Length3)];
                && I[t, s, q, c] == Cleaned(st, xs[t], Params(rFactor, |bandPass|, sqrt), residual, old(I[t, s, q, c]), q)
                && W[t, s, q, c] == Weight(st, xs[t], Params(rFactor, |bandPass|, sqrt), residual, old(W[t, s, q, c]))
    {
      var nT, nS, nC := I.Length0, I.Length1, I.Length3;
      ghost var st0 := Model();
      ghost var p := Params(rFactor, |bandPass|, sqrt);
      copyI := new real[nS * nC];
      var t := 0;
      while t < nT
        invariant 0 <= t <= nT
        invariant fresh(copyI) && copyI.Length == |bandPass|
        invariant maxHistory == history.Length && WellFormed(Buffer())
        invariant Model() == StateAfter(st0, xs, p, t)
        invariant forall t', s, q, c :: 0 <= t' < t && 0 <= s < nS && 0 <= q < I.Length2 && 0 <= c < nC ==>
                    var residual := old(I[t', s, 0, c]) - bandPass[Bin(s, c, nS, nC)];
                    && I[t', s, q, c] == Cleaned(StateAfter(st0, xs, p, t'), xs[t'], p, residual, old(I[t', s, q, c]), q)
                    && W[t', s, q, c] == Weight(StateAfter(st0, xs, p, t'), xs[t'], p, residual, old(W[t', s, q, c]))
        invariant forall t', s, q, c :: t <= t' < nT && 0 <= s < nS && 0 <= q < I.Length2 && 0 <= c < nC ==>
                    I[t', s, q, c] == old(I[t', s, q, c]) && W[t', s, q, c] == old(W[t', s, q, c])
      {
        assert Summarised(raws, xs, bandPass, t);
        CleanSample(I, W, t, bandPass, sqrt, raws[t], xs[t], p, StateAfter(st0, xs, p, t));
        assert StateAfter(st0, xs, p, t + 1) == Advance(StateAfter(st0, xs, p, t), xs[t], p);
        forall t', s, q, c | 0 <= t' <= t && 0 <= s < nS && 0 <= q < I.Length2 && 0 <= c < nC
          ensures var residual := old(I[t', s, 0, c]) - bandPass[Bin(s, c, nS, nC)];
                  && I[t', s, q, c] == Cleaned(StateAfter(st0, xs, p, t'), xs[t'], p, residual, old(I[t', s, q, c]), q)
                  && W[t', s, q, c] == Weight(StateAfter(st0, xs, p, t'), xs[t'], p, residual, old(W[t', s, q, c]))
        {
          if t' == t {
          }
        }
        t := t + 1;
      }
    }

    /** The active `run`: an inactive clipper changes nothing; an active
        one allocates its scratch spectrum and cleans every time sample in
        order, and the medians of the accepted samples join the history.
        `raws` are the Stokes-I spectra of the input, in bin order. */
    method Run(I: array4<real>, W: array4<real>, bandPass: seq<real>, sqrt: real -> real, ghost raws: seq<seq<real>>)
      requires Valid()
      requires I != W && SameShape(I, W)
      requires active ==> |bandPass| == I.Length1 * I.Length3
      requires active && 0 < I.Length0 ==>
                 0 < |bandPass| && 0 < I.Length2 && 0 < maxHistory && sqrt(|bandPass| as real) > 0.0
      requires |raws| == I.Length0
      requires forall t :: 0 <= t < |raws| ==> |raws[t]| == I.Length1 * I.Length3
      requires 0 < I.Length2 ==>
                 forall t, s, c :: 0 <= t < |raws| && 0 <= s < I.Length1 && 0 <= c < I.Length3 ==>
                   raws[t][Bin(s, c, I.Length1, I.Length3)] == I[t, s, 0, c]
      modifies this, history, I, W
      ensures Valid()
      ensures history == old(history)
      ensures active == old(active) && rFactor == old(rFactor) && maxHistory == old(maxHistory)
      ensures startFrequency == old(startFrequency) && endFrequency == old(endFrequency)
      ensures !old(active) ==> unchanged(this) && unchanged(history) && unchanged(I) && unchanged(W)
      ensures old(active) ==> fresh(copyI) && copyI.Length == |bandPass|
      ensures old(active) && I.Length0 == 0 ==>
                Model() == old(Model()) && accepted == old(accepted) && unchanged(history) && unchanged(I) && unchanged(W)
      ensures old(active) && 0 < I.Length0 ==>
                var p := Params(rFactor, |bandPass|, sqrt);
                var xs := Summaries(raws, bandPass);
                && Model() == StateAfter(old(Model()), xs, p, I.Length0)
                && accepted == old(accepted) + AcceptedMedians(old(Model()), xs, p, I.Length0)
                && forall t, s, q, c :: 0 <= t < I.Length0 && 0 <= s < I.Length1 && 0 <= q < I.Length2 && 0 <= c < I.Length3 ==>
                     var st := StateAfter(old(Model()), xs, p, t);
                     var residual := old(I[t, s, 0, c]) - bandPass[Bin(s, c, I.Length1, I.Length3)];
                     && I[t, s, q, c] == Cleaned(st, xs[t], p, residual, old(I[t, s, q, c]), q)
                     && W[t, s, q, c] == Weight(st, xs[t], p, residual, old(W[t, s, q, c]))
    {
      if active {
        if 0 < I.Length0 {
          ghost var st0 := Model();
          ghost var xs := Summaries(raws, bandPass);
          CleanAll(I, W, bandPass, sqrt, raws, xs);
          accepted := accepted + AcceptedMedians(st0, xs, Params(rFactor, |bandPass|, sqrt), I.Length0);
          HistoryHoldsAccepted(st0, xs, Params(rFactor, |bandPass|, sqrt), I.Length0, old(accepted));
        } else {
          copyI := new real[I.Length1 * I.Length3];
        }
      }
    }
  }
}
