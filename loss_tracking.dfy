/** Priming and packet-loss accounting of the AB packet stream decoder, as a
    function of one packet's integration count and spectral quarter.

    The decoder keeps, across packets and across chunks, the quarter and count
    of the previous packet, a priming flag and two loss counters. The missed
    packet count and the differences it is computed from are 32-bit unsigned
    quantities in the adapter, so they are taken modulo 2^32 here. */
module LossTracking {

  /** 2^32: the range of the adapter's `unsigned int` quantities. */
  const Word: nat := 0x1_0000_0000

  /** The quarter-continuity test uses a fixed cycle of 4, whatever the
      configured number of packets per spectrum. */
  const QuarterCycle: nat := 4

  /** Truncation to 32-bit unsigned. */
  function U32(x: int): (r: nat)
    ensures r < Word
    ensures 0 <= x < Word ==> r == x
    ensures (r - x) % Word == 0
  {
    x % Word
  }

  /** Decoder state that survives from packet to packet: the priming flag,
      the previous packet's quarter and count, the number of loss events, the
      size of the last loss and the count at the start of the observation. */
  datatype Tracker = Tracker(
    first: bool,
    prevSpecQuart: int,
    prevIntegCount: int,
    numMissInst: nat,
    numMissPkts: nat,
    integCountStart: int)

  /** The state of a freshly constructed adapter; `integCountStart` is not
      set by the constructor, so its initial value is a parameter. */
  function InitialTracker(integCountStart: int): (t: Tracker)
    ensures t.first && t.numMissInst == 0 && t.numMissPkts == 0
    ensures t.prevSpecQuart == 0 && t.prevIntegCount == 0
  {
    Tracker(true, 0, 0, 0, 0, integCountStart)
  }

  /** `icDiff`: the count difference truncated to 32 bits. */
  function IcDiff(integCount: int, prevIntegCount: int): nat
  {
    U32(integCount - prevIntegCount)
  }

  /** The missed-packet count used when the integration count moved on. */
  function CrossIntegrationMissed(pktsPerSpec: nat, prevSpecQuart: int, icDiff: nat, specQuart: nat): nat
  {
    U32((pktsPerSpec - 1 - prevSpecQuart) + pktsPerSpec * (icDiff - 1) + specQuart)
  }

  /** The quarter does not follow the previous one (modulo the fixed cycle). */
  predicate QuarterBreak(prevSpecQuart: int, specQuart: nat)
  {
    (prevSpecQuart + 1) % QuarterCycle != specQuart
  }

  /** The packet is dropped while priming. */
  predicate Skips(t: Tracker, specQuart: nat)
  {
    t.first && specQuart != 0
  }

  /** How many of the two loss checks fail for a packet that is not skipped. */
  function FailedChecks(t: Tracker, integCount: nat, specQuart: nat): nat
  {
    var breakFails := if QuarterBreak(t.prevSpecQuart, specQuart) then 1 else 0;
    var boundaryFails := if specQuart == 0 && IcDiff(integCount, t.prevIntegCount) != 1 then 1 else 0;
    breakFails + boundaryFails
  }

  /** The size of the last loss once a packet is not skipped: the quarter
      check may set it, and the quarter-0 count check, which runs second,
      overrides it. */
  function LastLoss(t: Tracker, pktsPerSpec: nat, integCount: nat, specQuart: nat): nat
  {
    var icDiff := IcDiff(integCount, t.prevIntegCount);
    if specQuart == 0 && icDiff != 1 then
      CrossIntegrationMissed(pktsPerSpec, t.prevSpecQuart, icDiff, specQuart)
    else if QuarterBreak(t.prevSpecQuart, specQuart) then
      if icDiff == 0 then U32(specQuart - t.prevSpecQuart - 1)
      else CrossIntegrationMissed(pktsPerSpec, t.prevSpecQuart, icDiff, specQuart)
    else t.numMissPkts
  }

  /** The start count once a packet is not skipped: recorded by the first
      packet after the one that ends priming, if it is still zero. */
  function StartCount(t: Tracker, integCount: nat): int
  {
    if !t.first && t.integCountStart == 0 then integCount else t.integCountStart
  }

  /** One packet through the priming state machine and the loss checks. */
  function Track(t: Tracker, pktsPerSpec: nat, integCount: nat, specQuart: nat): Tracker
  {
    if Skips(t, specQuart) then
      t.(prevSpecQuart := specQuart, prevIntegCount := integCount)
    else
      Tracker(false, specQuart, integCount, t.numMissInst + FailedChecks(t, integCount, specQuart),
              LastLoss(t, pktsPerSpec, integCount, specQuart), StartCount(t, integCount))
  }

  /** What the tracker reads from a packet: its integration count and its
      spectral quarter. */
  datatype PacketId = PacketId(integCount: nat, specQuart: nat)

  /** A run of packets through the tracker, in stream order. */
  function TrackAll(t: Tracker, pktsPerSpec: nat, ps: seq<PacketId>): Tracker
    decreases |ps|
  {
    if |ps| == 0 then t
    else TrackAll(Track(t, pktsPerSpec, ps[0].integCount, ps[0].specQuart), pktsPerSpec, ps[1..])
  }

  /** While priming, a packet of a non-zero quarter only becomes the previous
      packet: the flag stays set and no loss is counted. */
  lemma PrimingSkips(t: Tracker, pktsPerSpec: nat, integCount: nat, specQuart: nat)
    requires t.first && specQuart != 0
    ensures Track(t, pktsPerSpec, integCount, specQuart)
            == t.(prevSpecQuart := specQuart, prevIntegCount := integCount)
  {
  }

  /** The first quarter-0 packet ends priming, and priming never comes back. */
  lemma PrimingEnds(t: Tracker, pktsPerSpec: nat, integCount: nat, specQuart: nat)
    requires !t.first || specQuart == 0
    ensures !Track(t, pktsPerSpec, integCount, specQuart).first
  {
  }

  /** Whatever the packet, it becomes the previous packet. */
  lemma TrackRemembersPacket(t: Tracker, pktsPerSpec: nat, integCount: nat, specQuart: nat)
    ensures Track(t, pktsPerSpec, integCount, specQuart).prevSpecQuart == specQuart
    ensures Track(t, pktsPerSpec, integCount, specQuart).prevIntegCount == integCount
  {
  }

  /** The start count is recorded by the first packet after the one that ends
      priming, if it is still zero, and never changed otherwise. */
  lemma StartCountRecorded(t: Tracker, pktsPerSpec: nat, integCount: nat, specQuart: nat)
    ensures var r := Track(t, pktsPerSpec, integCount, specQuart);
            r.integCountStart == (if !t.first && t.integCountStart == 0 then integCount else t.integCountStart)
  {
  }

  /** A quarter gap inside one integration counts one loss event of
      `specQuart - prevSpecQuart - 1` packets. */
  lemma GapWithinIntegration(t: Tracker, pktsPerSpec: nat, integCount: nat, specQuart: nat)
    requires !Skips(t, specQuart) && specQuart != 0
    requires QuarterBreak(t.prevSpecQuart, specQuart)
    requires IcDiff(integCount, t.prevIntegCount) == 0
    ensures var r := Track(t, pktsPerSpec, integCount, specQuart);
            r.numMissInst == t.numMissInst + 1 && r.numMissPkts == U32(specQuart - t.prevSpecQuart - 1)
  {
  }

  /** A quarter gap across integrations counts the rest of the previous
      spectrum, the whole spectra in between and the quarters of this one. */
  lemma GapAcrossIntegrations(t: Tracker, pktsPerSpec: nat, integCount: nat, specQuart: nat)
    requires !Skips(t, specQuart)
    requires QuarterBreak(t.prevSpecQuart, specQuart)
    requires IcDiff(integCount, t.prevIntegCount) != 0
    ensures var r := Track(t, pktsPerSpec, integCount, specQuart);
            var d := IcDiff(integCount, t.prevIntegCount);
            && r.numMissInst == t.numMissInst + (if specQuart == 0 && d != 1 then 2 else 1)
            && r.numMissPkts == U32((pktsPerSpec - 1 - t.prevSpecQuart) + pktsPerSpec * (d - 1) + specQuart)
  {
  }

  /** The number of loss events grows by exactly one per failed check: the
      quarter test and the quarter-0 count test, so by 0, 1 or 2 per packet
      and never decreases. */
  lemma LossEventsPerPacket(t: Tracker, pktsPerSpec: nat, integCount: nat, specQuart: nat)
    ensures Track(t, pktsPerSpec, integCount, specQuart).numMissInst
            == t.numMissInst + (if Skips(t, specQuart) then 0 else FailedChecks(t, integCount, specQuart))
    ensures t.numMissInst <= Track(t, pktsPerSpec, integCount, specQuart).numMissInst <= t.numMissInst + 2
  {
  }

  /** Position of a packet in the stream: its integration and its quarter. */
  function StreamIndex(pktsPerSpec: nat, integCount: int, specQuart: int): int
  {
    integCount * pktsPerSpec + specQuart
  }

  /** Whenever a loss is reported for a packet that follows the previous one
      in the stream, the reported count is the number of packets between
      them, provided that number and the count difference fit in 32 bits. */
  lemma ReportedLossIsPacketsBetween(t: Tracker, pktsPerSpec: nat, integCount: nat, specQuart: nat)
    requires !Skips(t, specQuart)
    requires 0 <= t.prevSpecQuart < pktsPerSpec && specQuart < pktsPerSpec
    requires t.prevIntegCount <= integCount < t.prevIntegCount + Word
    requires var between := StreamIndex(pktsPerSpec, integCount, specQuart)
                            - StreamIndex(pktsPerSpec, t.prevIntegCount, t.prevSpecQuart) - 1;
             0 <= between < Word
    requires QuarterBreak(t.prevSpecQuart, specQuart)
             || (specQuart == 0 && IcDiff(integCount, t.prevIntegCount) != 1)
    ensures Track(t, pktsPerSpec, integCount, specQuart).numMissPkts
            == StreamIndex(pktsPerSpec, integCount, specQuart)
               - StreamIndex(pktsPerSpec, t.prevIntegCount, t.prevSpecQuart) - 1
  {
    var d := integCount - t.prevIntegCount;
    var between := StreamIndex(pktsPerSpec, integCount, specQuart)
                   - StreamIndex(pktsPerSpec, t.prevIntegCount, t.prevSpecQuart) - 1;
    assert IcDiff(integCount, t.prevIntegCount) == d;
    assert between == pktsPerSpec * d + specQuart - t.prevSpecQuart - 1;
    assert (pktsPerSpec - 1 - t.prevSpecQuart) + pktsPerSpec * (d - 1) + specQuart == between;
    if d == 0 {
      assert specQuart != 0;
    }
  }

  /** With four packets per spectrum, a packet that directly follows the
      previous one in the stream never counts a loss. */
  lemma ContiguousCountsNoLoss(t: Tracker, integCount: nat, specQuart: nat)
    requires !Skips(t, specQuart)
    requires 0 <= t.prevSpecQuart < QuarterCycle && specQuart < QuarterCycle
    requires StreamIndex(QuarterCycle, integCount, specQuart)
             == StreamIndex(QuarterCycle, t.prevIntegCount, t.prevSpecQuart) + 1
    ensures Track(t, QuarterCycle, integCount, specQuart).numMissInst == t.numMissInst
  {
    if t.prevSpecQuart < QuarterCycle - 1 {
      assert integCount == t.prevIntegCount && specQuart == t.prevSpecQuart + 1;
    } else {
      assert integCount == t.prevIntegCount + 1 && specQuart == 0;
    }
  }

  /** Because the continuity test is fixed to a cycle of 4, with eight packets
      per spectrum the step from quarter 3 to quarter 4 of one integration is
      counted as a loss event of zero packets. */
  lemma FixedCycleFlagsContiguousPacket(t: Tracker, integCount: nat)
    requires !t.first && t.prevSpecQuart == 3 && t.prevIntegCount == integCount
    ensures var r := Track(t, 8, integCount, 4);
            r.numMissInst == t.numMissInst + 1 && r.numMissPkts == 0
  {
  }

  /** A fresh adapter whose very first packet is a quarter 0 of any count
      other than 1 counts two loss events for it: the previous quarter and
      count both start at 0. */
  lemma FirstPacketCountsTwice(integCountStart: int, integCount: nat)
    requires integCount != 1 && integCount < Word
    ensures Track(InitialTracker(integCountStart), 4, integCount, 0).numMissInst == 2
  {
  }

  /** A priming adapter drops every packet until a quarter 0 arrives: the
      flag stays set, no loss is counted and the start count is untouched;
      only the previous quarter and count follow the stream. */
  lemma {:induction false} PrimingDropsAll(t: Tracker, pktsPerSpec: nat, ps: seq<PacketId>)
    requires t.first
    requires forall j :: 0 <= j < |ps| ==> ps[j].specQuart != 0
    ensures var r := TrackAll(t, pktsPerSpec, ps);
            && r.first && r.numMissInst == t.numMissInst && r.numMissPkts == t.numMissPkts
            && r.integCountStart == t.integCountStart
            && (|ps| == 0 ==> r == t)
            && (|ps| > 0 ==> r.prevSpecQuart == ps[|ps| - 1].specQuart
                             && r.prevIntegCount == ps[|ps| - 1].integCount)
    decreases |ps|
  {
    if |ps| > 0 {
      var next := Track(t, pktsPerSpec, ps[0].integCount, ps[0].specQuart);
      PrimingSkips(t, pktsPerSpec, ps[0].integCount, ps[0].specQuart);
      assert forall j :: 0 <= j < |ps[1..]| ==> ps[1..][j] == ps[j + 1];
      PrimingDropsAll(next, pktsPerSpec, ps[1..]);
    }
  }

  /** A freshly constructed adapter counts no loss, and keeps the start count
      it was given, until its first quarter-0 packet. */
  lemma FreshAdapterPrimes(integCountStart: int, pktsPerSpec: nat, ps: seq<PacketId>)
    requires forall j :: 0 <= j < |ps| ==> ps[j].specQuart != 0
    ensures var r := TrackAll(InitialTracker(integCountStart), pktsPerSpec, ps);
            && r.first && r.numMissInst == 0 && r.numMissPkts == 0
            && r.integCountStart == integCountStart
  {
    PrimingDropsAll(InitialTracker(integCountStart), pktsPerSpec, ps);
  }

  /** The quarter test looks only at quarters, and the count test runs only
      on quarter 0. So a packet whose quarter follows the previous packet's,
      other than quarter 0, counts no loss whatever its count: the `k` whole
      spectra lost between the two go unreported. */
  lemma LostSpectraUnreported(t: Tracker, pktsPerSpec: nat, k: nat, specQuart: nat)
    requires !t.first && 0 <= t.prevIntegCount && k >= 1
    requires 0 <= t.prevSpecQuart && specQuart == t.prevSpecQuart + 1 < QuarterCycle
    ensures var r := Track(t, pktsPerSpec, t.prevIntegCount + k, specQuart);
            r.numMissInst == t.numMissInst && r.numMissPkts == t.numMissPkts
    ensures StreamIndex(pktsPerSpec, t.prevIntegCount + k, specQuart)
            - StreamIndex(pktsPerSpec, t.prevIntegCount, t.prevSpecQuart) - 1 >= pktsPerSpec
  {
    var ic := t.prevIntegCount;
    assert StreamIndex(pktsPerSpec, ic + k, specQuart) - StreamIndex(pktsPerSpec, ic, t.prevSpecQuart) - 1
           == k * pktsPerSpec;
    assert k * pktsPerSpec >= pktsPerSpec by {
      assert k * pktsPerSpec == pktsPerSpec + (k - 1) * pktsPerSpec;
    }
  }
}
