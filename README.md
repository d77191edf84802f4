# AB packet decoder and RFI clipper, modelled in Dafny

This project models two sequential stages of the AB (ampp) spectrometer
pipeline of pelican-lofar and proves properties of the model.

**The packet stream decoder** (`ABDataAdapter::deserialise`) reads a chunk of
fixed-size UDP packets and does four things:

- It decodes each header's 48-bit integration counter. The bytes are loaded
  as a little-endian word, masked to 48 bits and then byte-reversed.
- It drops packets until spectral quarter 0 arrives (priming).
- It counts lost packets by comparing each packet's quarter and counter
  with the previous packet's, also across chunks. The quarter test works
  modulo 4 and the counter is checked only on quarter 0. So whole spectra
  lost between two packets of consecutive quarters other than 0 go
  unreported, and the row then assembled mixes two integrations.
- It assembles the payloads of one spectrum. On the last quarter it writes
  one row of Stokes-I values (XX* + YY* per channel) into the next time
  block of the output.

Modules:

- `ABPacket` (ab_packet.dfy): the header layout and the counter decode, on
  `bv8`/`bv64`.
- `LossTracking` (loss_tracking.dfy): the priming and loss-accounting state
  machine as a function `Track` on a `Tracker` value. `Track` is assembled
  from the number of checks that fail (`FailedChecks`), the last reported
  count (`LastLoss`) and the start count (`StartCount`).
- `ABAdapter` (ab_data_adapter.dfy):
  - the size arithmetic;
  - a value-level specification of one packet (`Step`, which tracks the
    packet and then hands its payload to `Place`) and of a chunk (`Run`,
    with `After` naming the state after a stretch of packets);
  - the class `ABDataAdapter`. Its methods update the fields in place, fill
    the assembly buffer (an `array<bv8>`) and the output plane (an
    `array2<int>`, `[block][channel]`), and are proved against `Step` and
    `Run`.

**The RFI clipper** (`RFI_Clipper`) first validates its configuration. It
then cleans the spectra of a data set, one time sample at a time, with two
tests:

- Every channel whose residual (data minus band pass) exceeds
  `|rFactor * rms|` is zeroed in all polarisations, data and weight.
- The whole sample is zeroed when its median (element n/2 of the sorted raw
  values) lies more than `5 * rms / sqrt(bins)` from the model level.
  Otherwise the median enters a ring buffer of recent medians, the model
  level becomes their mean, and the model rms becomes the rms of the kept
  residuals.

Modules:

- `ClipConfig` (clip_config.dfy): the constructor's option checks, as a
  function returning either the settings or the first error.
- `Order` (order.dfy): the median as element n/2 of an insertion sort, and
  its rank characterisation. This is what `nth_element` guarantees.
- `ClipHistory` (clip_history.dfy): the ring buffer as a value, and the
  invariant that it holds exactly the accepted medians.
- `ClipSpec` (clip_spec.dfy): the per-sample specification on values:
  - what each data value and weight ends as (`Cleaned`, `Weight`);
  - how the model moves from sample to sample (`Advance`, `StateAfter`).
- `RFIClipping` (rfi_clipper.dfy): the class `RFIClipper`, with its model,
  its history (an `array<real>`) and its scratch copy as fields. The data
  and weights are `array4<real>` indexed `[time, subband, polarisation,
  channel]`. The nested loops of `run` are methods with loop invariants,
  proved against `ClipSpec`.

Both stages share `Basics` (basics.dfy): the `Option` type and a few facts
about products of natural numbers.

Where the design description of the system and the code differ, the model
follows the code:

- A payload is appended at the running offset `bytesRead`. Its quarter
  number does not place it.
- The quarter-continuity test uses a fixed cycle of 4, not
  `packetsPerSpectrum`.
- Priming packets are written into the assembly buffer at the running
  offset. The quarter-0 packet that ends priming resets that offset and
  goes through both loss checks.
- The start count is recorded by the first packet after priming ends,
  and only if it is still zero.
- The count difference in the loss checks is a 32-bit unsigned quantity.
- The band pass is rebinned once per call of `run`, before the loop over
  time samples.
- `goodChannels == 0` is not guarded. The division yields a NaN rms, and
  every later comparison against it is false.

## Model

| member | source | states |
|---|---|---|
| ABPacket.LoadCounter | src/lib/src/ABDataAdapter.cpp:75 | the masked little-endian load keeps header bytes 0..5 at bytes 0..5 and zeroes the top two bytes |
| ABPacket.ReverseCounter | src/lib/src/ABDataAdapter.cpp:76-82 | the shift-and-mask expression yields a value below 2^48 |
| ABPacket.ReverseCounterBytes | src/lib/src/ABDataAdapter.cpp:76-82 | the reversal moves byte k of the counter to byte 5 - k and leaves bytes 6 and 7 zero |
| ABPacket.ReverseCounterInvolution | src/lib/src/ABDataAdapter.cpp:76-82 | reversing twice returns the counter masked to 48 bits |
| ABPacket.ReversedCounterBytes | src/lib/src/ABDataAdapter.cpp:75-82 | after load and reversal, header byte 5 is the least significant byte and header byte 0 the most significant |
| ABPacket.BigEndian | src/lib/ABPacket.h:14 | a big-endian reading of k bytes is below 256^k |
| ABPacket.BigEndian48 | src/lib/ABPacket.h:13-17 | the wire reading of the six counter bytes, first byte most significant, is below 2^48 |
| ABPacket.BigEndian48Digits | src/lib/ABPacket.h:8-14 | that reading is the base-256 number whose digits are header bytes 0 to 5, byte 0 the most significant |
| ABPacket.IntegCount | src/lib/src/ABDataAdapter.cpp:75-82 | the decoded count equals the big-endian reading of header bytes 0..5 and is below 2^48 |
| ABPacket.ParseHeader | src/lib/src/ABDataAdapter.cpp:75-85 | the decoded header equals the wire-format fields: counter from bytes 0..5, quarter from byte 6, beam from byte 7 |
| ABPacket.DecodeExample | src/lib/src/ABDataAdapter.cpp:75-82 | the bytes 01 02 03 04 05 06 decode to 0x010203040506 |
| LossTracking.U32 | src/lib/src/ABDataAdapter.cpp:62-63 | truncation to 32 bits: below 2^32, the identity on that range, congruent to the input |
| LossTracking.PrimingSkips | src/lib/src/ABDataAdapter.cpp:86-100 | while priming, a packet of non-zero quarter only becomes the previous packet |
| LossTracking.PrimingEnds | src/lib/src/ABDataAdapter.cpp:86-110 | a quarter-0 packet ends priming, and priming never returns |
| LossTracking.TrackRemembersPacket | src/lib/src/ABDataAdapter.cpp:151-152 | after any packet, the previous quarter and count are that packet's |
| LossTracking.StartCountRecorded | src/lib/src/ABDataAdapter.cpp:111-117 | the start count is set by a non-priming packet when it is still 0, and is never changed otherwise |
| LossTracking.GapWithinIntegration | src/lib/src/ABDataAdapter.cpp:120-128 | a quarter break with equal counts adds one loss event of specQuart - prevSpecQuart - 1 packets (32-bit) |
| LossTracking.GapAcrossIntegrations | src/lib/src/ABDataAdapter.cpp:120-150 | a quarter break with different counts adds one event (two when the quarter-0 check fails too) of (pktsPerSpec-1-prev) + pktsPerSpec*(icDiff-1) + specQuart packets |
| LossTracking.LossEventsPerPacket | src/lib/src/ABDataAdapter.cpp:119-150 | the event count grows by exactly the number of failed checks, 0, 1 or 2, and never decreases |
| LossTracking.ReportedLossIsPacketsBetween | src/lib/src/ABDataAdapter.cpp:119-150 | whenever a loss is reported and the values fit in 32 bits, the reported count is the number of packets between the previous and the current one in the stream |
| LossTracking.ContiguousCountsNoLoss | src/lib/src/ABDataAdapter.cpp:119-150 | with four packets per spectrum, a packet directly following the previous one counts no loss |
| LossTracking.FixedCycleFlagsContiguousPacket | src/lib/src/ABDataAdapter.cpp:120 | with eight packets per spectrum, the step from quarter 3 to 4 counts a loss event of zero packets, because of the fixed cycle of 4 |
| LossTracking.FirstPacketCountsTwice | src/lib/src/ABDataAdapter.cpp:119-150 | a new adapter's first quarter-0 packet of count other than 1 counts two loss events |
| LossTracking.PrimingDropsAll | src/lib/src/ABDataAdapter.cpp:86-100 | any run of packets of non-zero quarter leaves a priming adapter priming, with its loss counts and start count untouched, and only the last packet remembered |
| LossTracking.FreshAdapterPrimes | src/lib/src/ABDataAdapter.cpp:23-28 | a new adapter counts no loss and keeps its start count until its first quarter-0 packet, whatever came before |
| LossTracking.LostSpectraUnreported | src/lib/src/ABDataAdapter.cpp:119-150 | a packet whose quarter (not 0) follows the previous one counts no loss even when its count is k >= 1 integrations later, so at least pktsPerSpec lost packets go unreported |
| ABAdapter.PacketSize | src/lib/src/ABDataAdapter.cpp:18 | packet size = header + 8 * channelsPerPacket + footer, positive |
| ABAdapter.BufferSize | src/lib/src/ABDataAdapter.cpp:51 | the assembly buffer holds pktsPerSpec payloads, 8 bytes per channel |
| ABAdapter.Packets | src/lib/src/ABDataAdapter.cpp:41 | the number of whole packets that fit in the chunk |
| ABAdapter.NBlocks | src/lib/src/ABDataAdapter.cpp:44 | (packets / pktsPerSpec) * samplesPerPacket blocks, at most packets * samplesPerPacket / pktsPerSpec |
| ABAdapter.U32Shift | src/lib/src/ABDataAdapter.cpp:125-127 | subtracting after a 32-bit wrap wraps like subtracting first |
| ABAdapter.PacketTiles | src/lib/src/ABDataAdapter.cpp:72-184 | header, payload and footer tile the packet: read in that order they are the whole packet, nothing skipped or read twice |
| ABAdapter.Short | src/lib/src/ABDataAdapter.cpp:157 | a little-endian 16-bit word of the buffer read as signed |
| ABAdapter.StokesI | src/lib/src/ABDataAdapter.cpp:170-176 | one value per channel, the sum of two signed 16-bit words, so within [-2^16, 2^16) |
| ABAdapter.Store | src/lib/src/ABDataAdapter.cpp:154-155 | writing a payload at an offset changes exactly those bytes |
| ABAdapter.StartChunk | src/lib/src/ABDataAdapter.cpp:50-57 | a chunk starts from the adapter's tracker, with nothing assembled, nothing written and no fault, consistent whatever number of blocks the blob was sized for |
| ABAdapter.StepKeepsConsistent | src/lib/src/ABDataAdapter.cpp:154-182 | one packet keeps the assembly consistent (block <= nBlocks, row sizes) and only appends rows |
| ABAdapter.Run | src/lib/src/ABDataAdapter.cpp:64-185 | the packet loop (with `Resume`, one packet or the fault that stops it) keeps the assembly consistent, so the block cursor never passes nBlocks; a fault is final |
| ABAdapter.RunStep | src/lib/src/ABDataAdapter.cpp:64-185 | a run with packets left and no fault is one step followed by the rest |
| ABAdapter.After | src/lib/src/ABDataAdapter.cpp:64-185 | the state after a stretch of packets is consistent; an empty stretch, or one started on a fault, changes nothing |
| ABAdapter.AfterStep | src/lib/src/ABDataAdapter.cpp:64-185 | a stretch with packets left and no fault is one step followed by the rest |
| ABAdapter.RunSplit | src/lib/src/ABDataAdapter.cpp:64-185 | running packets i to n is running i to j and then j to n |
| ABAdapter.RunOnlyAppends | src/lib/src/ABDataAdapter.cpp:154-182 | rows written to the blob are never rewritten within a chunk |
| ABAdapter.StepAppends | src/lib/src/ABDataAdapter.cpp:151-155 | a streaming packet that does not end a spectrum is appended right after the bytes already assembled, whatever its quarter |
| ABAdapter.StepWritesBlock | src/lib/src/ABDataAdapter.cpp:158-182 | the last quarter appends the Stokes-I row of the buffer as the next block, clears the buffer, resets the offset and advances the block, staying within nBlocks |
| ABAdapter.StepWhilePriming | src/lib/src/ABDataAdapter.cpp:86-100 | a priming packet writes no row and only updates the previous quarter and count; it faults exactly when its payload does not fit |
| ABAdapter.StepInSpectrum | src/lib/src/ABDataAdapter.cpp:151-158 | a quarter other than the last, arriving in order, is appended right behind the quarters before it and writes nothing |
| ABAdapter.StepEndsSpectrum | src/lib/src/ABDataAdapter.cpp:154-182 | the last quarter, arriving after the others, writes the Stokes-I row of the whole spectrum as the next block and clears the assembly |
| ABAdapter.SpectrumCompletes | src/lib/src/ABDataAdapter.cpp:64-185 | the remaining quarters of a spectrum, in order, add exactly one row, the Stokes I of the spectrum's payloads back to back, and leave the assembly cleared |
| ABAdapter.WholeSpectraNeverFault | src/lib/src/ABDataAdapter.cpp:64-185 | s whole spectra in quarter order with s blocks left never fault and add s rows, keeping the earlier ones |
| ABAdapter.ChunkOfWholeSpectra | src/lib/src/ABDataAdapter.cpp:41-44 | a chunk of s whole spectra in quarter order, with at least one sample per packet, decodes without a fault into s rows |
| ABAdapter.NoLastQuarterAppends | src/lib/src/ABDataAdapter.cpp:154-158 | packets that are not the last quarter are appended one after another, whatever their quarters, and write nothing |
| ABAdapter.LostLastQuarterOverruns | src/lib/src/ABDataAdapter.cpp:51 | when the last quarter of a spectrum is lost (quarters 0, 1, 2, 0, 1 with four per spectrum), the packet after pktsPerSpec appended payloads overruns the buffer |
| ABAdapter.NoSamplesOverrunsFirstBlock | src/lib/src/ABDataAdapter.cpp:44 | with no samples per packet the blob has no blocks, and the first completed spectrum overruns it |
| ABAdapter.ReadPayload | src/lib/src/ABDataAdapter.cpp:154-155 | the device read stores the payload at the offset and leaves every other byte |
| ABAdapter.WriteStokesI | src/lib/src/ABDataAdapter.cpp:171-176 | block `block` gets the Stokes-I row of the buffer; every other block is unchanged |
| ABAdapter.CompleteSpectrum | src/lib/src/ABDataAdapter.cpp:170-180 | the row is written from the buffer, then the buffer is zeroed |
| ABAdapter.ABDataAdapter.constructor | src/lib/src/ABDataAdapter.cpp:8-29 | the packet size and channel count follow the configuration; the adapter starts priming with no loss counted |
| ABAdapter.ABDataAdapter.TrackPacket | src/lib/src/ABDataAdapter.cpp:86-152 | the in-place priming and loss checks leave the state `Track` prescribes |
| ABAdapter.ABDataAdapter.Assemble | src/lib/src/ABDataAdapter.cpp:154-183 | the payload lands at the write offset; on a completing packet the Stokes-I row goes to the next block, the buffer is cleared and the offset reset, as `Place` prescribes, or the overrun is reported |
| ABAdapter.ABDataAdapter.ProcessPacket | src/lib/src/ABDataAdapter.cpp:64-185 | one loop iteration leaves the fields, buffer, offsets and blob as `Step` prescribes, or reports its fault |
| ABAdapter.ABDataAdapter.Deserialise | src/lib/src/ABDataAdapter.cpp:32-185 | a chunk leaves the tracker, fault and blob rows `Run` prescribes; blocks never written are zero |
| ClipConfig.LowerChar | src/lib/src/RFI_Clipper.cpp:23 | no upper-case letter remains; an upper-case letter becomes the lower-case one at the same place in the alphabet; the result is a lower-case letter exactly when the input is a letter; anything else is unchanged |
| ClipConfig.LowerIdempotent | src/lib/src/RFI_Clipper.cpp:23 | lowering a lowered string changes nothing |
| ClipConfig.LowerAt | src/lib/src/RFI_Clipper.cpp:23 | lower-casing a string lower-cases each character in place |
| ClipConfig.LowerFalse | src/lib/src/RFI_Clipper.cpp:22-25 | every letter-case spelling of "false" lowers to "false" |
| ClipConfig.ActiveAttributeExamples | src/lib/src/RFI_Clipper.cpp:22-25 | "False" switches the clipper off; "no" and a missing attribute leave it on |
| ClipConfig.ConfigureSucceedsIff | src/lib/src/RFI_Clipper.cpp:18-66 | construction succeeds exactly when inactive, or when an existing, readable file is named and the band is matched or both frequencies are given |
| ClipConfig.InactiveNeverFails | src/lib/src/RFI_Clipper.cpp:28-66 | an inactive clipper always builds, as inactive |
| ClipConfig.ConfigureErrors | src/lib/src/RFI_Clipper.cpp:28-64 | which error an active clipper reports, in the order the checks are made |
| ClipConfig.ConfiguredSettings | src/lib/src/RFI_Clipper.cpp:45-64 | factor and history default to 3 and 10; an active clipper uses the file's band pass; matching takes its frequencies from it |
| Order.InsertSorted | src/lib/src/RFI_Clipper.cpp:226-227 | insertion keeps a sequence sorted |
| Order.InsertPermutes | src/lib/src/RFI_Clipper.cpp:226-227 | insertion adds exactly one value |
| Order.SortSorted | src/lib/src/RFI_Clipper.cpp:226-227 | the reference sort is sorted |
| Order.SortPermutes | src/lib/src/RFI_Clipper.cpp:226-227 | the reference sort is a permutation |
| Order.CountsOfPermutation | src/lib/src/RFI_Clipper.cpp:226 | the counts below and at-or-below a value do not depend on the order, so a partial sort does not change them |
| Order.SortedRank | src/lib/src/RFI_Clipper.cpp:226-227 | in a sorted sequence, element k has at most k values below it and more than k at or below it |
| Order.MedianRank | src/lib/src/RFI_Clipper.cpp:226-227 | at most n/2 values lie below the median and more than n/2 at or below it, as `nth_element` at n/2 guarantees |
| Order.MedianIsMember | src/lib/src/RFI_Clipper.cpp:227 | the median is one of the values |
| Order.MedianUnique | src/lib/src/RFI_Clipper.cpp:226-227 | any value of rank n/2 is the median, so a partial sort and the reference sort agree |
| Order.MedianOddExample | src/lib/src/RFI_Clipper.cpp:226-227 | the median of {5,1,4,2,3} is 3 |
| Order.MedianEvenExample | src/lib/src/RFI_Clipper.cpp:226-227 | the median of {4,1,3,2} is 3, the upper middle value, not 2.5 |
| ClipHistory.EmptyRing | src/lib/src/RFI_Clipper.cpp:47-49 | the new history has `maximum` slots, none in use |
| ClipHistory.EmptyHolds | src/lib/src/RFI_Clipper.cpp:47-49 | the new history holds no accepted median |
| ClipHistory.Push | src/lib/src/RFI_Clipper.cpp:281-283 | the count saturates at the capacity, the median overwrites slot `current`, and `current` moves on cyclically and stays in range |
| ClipHistory.PushHolds | src/lib/src/RFI_Clipper.cpp:281-283 | a push keeps the ring in step with the accepted list: in order while filling, then the last `maximum` rotated to `current` |
| ClipHistory.PushWhileFilling | src/lib/src/RFI_Clipper.cpp:281-283 | the same, while the ring is filling |
| ClipHistory.PushFilling | src/lib/src/RFI_Clipper.cpp:281-283 | the same, for the push that fills the ring |
| ClipHistory.PushWhenFull | src/lib/src/RFI_Clipper.cpp:281-283 | the same, once full: the oldest median is overwritten |
| ClipHistory.PushAllHolds | src/lib/src/RFI_Clipper.cpp:281-283 | any sequence of pushes keeps the ring in step |
| ClipHistory.BaselineIsRecentMean | src/lib/src/RFI_Clipper.cpp:284-288 | the baseline is the mean of the last min(n, maximum) accepted medians |
| ClipSpec.Margin | src/lib/src/RFI_Clipper.cpp:165 | the margin is non-negative, and NaN exactly when the rms is |
| ClipSpec.Tolerance | src/lib/src/RFI_Clipper.cpp:169 | the tolerance is NaN exactly when the rms is |
| ClipSpec.RmsOf | src/lib/src/RFI_Clipper.cpp:232-235 | the rms is NaN exactly when no channel was kept |
| ClipSpec.Advance | src/lib/src/RFI_Clipper.cpp:247-306 | one sample keeps the ring well formed and of the same capacity |
| ClipSpec.StateAfter | src/lib/src/RFI_Clipper.cpp:164-307 | samples in order keep the ring well formed and of the same capacity |
| ClipSpec.RingFollowsAccepted | src/lib/src/RFI_Clipper.cpp:276-283 | the history after n samples is the starting one with the accepted medians pushed in order; rejected samples leave no trace |
| ClipSpec.HistoryHoldsAccepted | src/lib/src/RFI_Clipper.cpp:276-283 | the history holds exactly the accepted medians, whatever the samples |
| ClipSpec.LevelIsRecentMean | src/lib/src/RFI_Clipper.cpp:284-304 | once a sample was accepted, the model level is the mean of the last min(k, maximum) accepted medians |
| ClipSpec.AdvanceOutcome | src/lib/src/RFI_Clipper.cpp:247-306 | a rejected sample changes nothing; an accepted one records its median at `current` and sets the rms from the kept residuals |
| ClipSpec.NothingExceedsNaN | src/lib/src/RFI_Clipper.cpp:203 | against a NaN margin every channel is kept |
| ClipSpec.NaNRmsRecovers | src/lib/src/RFI_Clipper.cpp:232-247 | a NaN rms switches both tests off, and the next rms is a number again |
| ClipSpec.RmsUndefinedIffNoneKept | src/lib/src/RFI_Clipper.cpp:232-235 | the sample rms is NaN exactly when no channel was kept |
| ClipSpec.ClippedPlusKept | src/lib/src/RFI_Clipper.cpp:203-221 | clipped channels plus good channels equal the number of bins |
| ClipSpec.BlankedIsZero | src/lib/src/RFI_Clipper.cpp:203-273 | a blanked value and its weight end as zero in every polarisation; otherwise the weight is kept and only polarisation 0 becomes the residual |
| RFIClipping.Bin | src/lib/src/RFI_Clipper.cpp:182-188 | bins run subband-major, and every (subband, channel) has a bin below nBins |
| RFIClipping.Bins | src/lib/src/RFI_Clipper.cpp:182-192 | the raw spectrum of a sample in bin order |
| RFIClipping.SpectraFitRun | src/lib/src/RFI_Clipper.cpp:164-192 | the raw spectra of a data set pin each bin to the Stokes-I value `run` copies |
| RFIClipping.BlankChannel | src/lib/src/RFI_Clipper.cpp:203-211 | zeroes one channel's data and weight in every polarisation and nothing else |
| RFIClipping.BlankSample | src/lib/src/RFI_Clipper.cpp:259-273 | zeroes every value and weight of sample t and leaves other samples unchanged |
| RFIClipping.ClipBin | src/lib/src/RFI_Clipper.cpp:194-211 | returns the residual; the channel ends as `Clipped`/`ClippedWeight` prescribe; nothing else changes |
| RFIClipping.RFIClipper.constructor | src/lib/src/RFI_Clipper.cpp:18-49 | the clipper takes the validated settings; the history has maxHistory zeroed slots, none in use |
| RFIClipping.RFIClipper.AddToHistory | src/lib/src/RFI_Clipper.cpp:281-283 | the in-place update of `_num`, `_history[_current]` and `_current` is the ring `Push` |
| RFIClipping.RFIClipper.BaselineLevel | src/lib/src/RFI_Clipper.cpp:284-288 | the loop computes the mean of the slots in use |
| RFIClipping.RFIClipper.SpectrumMedian | src/lib/src/RFI_Clipper.cpp:226-227 | the value at position n/2 has rank n/2 in the copy |
| RFIClipping.RFIClipper.AcceptSample | src/lib/src/RFI_Clipper.cpp:281-305 | the median is pushed, the model level becomes the baseline of the new ring, and the rms becomes the sample's |
| RFIClipping.RFIClipper.ClipSubband | src/lib/src/RFI_Clipper.cpp:183-222 | copies the raw values of one subband to their bins, clips its channels and extends the kept count, sum and sum of squares |
| RFIClipping.RFIClipper.ClipChannels | src/lib/src/RFI_Clipper.cpp:182-223 | the first test over a whole sample: `copyI` is the raw spectrum, the statistics are those of the kept residuals, and each value is `Clipped` |
| RFIClipping.RFIClipper.CleanSample | src/lib/src/RFI_Clipper.cpp:164-306 | both tests on one sample: the model moves as `Advance` says, and its values and weights end as `Cleaned`/`Weight` say |
| RFIClipping.RFIClipper.CleanAll | src/lib/src/RFI_Clipper.cpp:163-307 | every sample in order, each against the model the previous samples left (`StateAfter`) |
| RFIClipping.RFIClipper.Run | src/lib/src/RFI_Clipper.cpp:145-309 | inactive changes nothing; active leaves the model `StateAfter` all samples, the history holding exactly the accepted medians, and data and weights as `Cleaned`/`Weight` say |

## Left out

- Device I/O: waiting for bytes, and reading and discarding the footer. The
  device is the sequence of packets it delivers, each of the configured
  size, with at least the chunk's packets available.
- The timestamp, the sampling time and `setLofarTimestamp`: these are
  floating-point bookkeeping after the packet loop.
- All console and error-stream logging in both files.
- Writes outside the buffers. The source writes past the assembly buffer
  when more than `pktsPerSpec` payloads accumulate, and past the last time
  block when more spectra complete than the blob was sized for. The model
  stops the chunk there with a `Fault` instead.
- The output blob beyond its Stokes-I plane: only `[block][channel]` of
  subband 0 and polarisation 0 is modelled. The `#if 0` per-polarisation
  branch is dead code.
- The blob's resize is a fresh zeroed array, and the assembly buffer starts
  zeroed on each call, where the source leaves it uninitialised.
- ABAdapter.ABDataAdapter.constructor: `prevSpecQuart` and
  `prevIntegCount` are function-local statics of `deserialise`
  (src/lib/src/ABDataAdapter.cpp:59,61). They are shared by every adapter
  in the process and are never reset by a constructor. The model keeps
  them per adapter, zeroed by the constructor, so it does not capture
  two adapters disturbing each other's loss accounting.
- ABAdapter.ABDataAdapter.constructor: the constructor shown does not set
  `_integCountStart`, so its initial value is a parameter. Option parsing
  and `_tSamp` are left out.
- LossTracking.Tracker: the loss-event counter `_numMissInst` is unbounded,
  because its declared type is not part of this model. The missed-packet
  count and the count difference are taken modulo 2^32.
- The 48-bit counter wrap-around is not handled by the source and is not
  modelled beyond the counter being below 2^48.
- Band-pass file loading, `BandPassAdapter`, `BandPass::reBin` and `BinMap`:
  BandPass.cpp is not part of this model. The rebinned band pass
  (`currentSet()`) is an input sequence of one value per bin. Its level and
  rms are fields of the clipper, and `startFrequency`/`endFrequency` are
  only stored.
- ClipConfig.Configure: file existence, readability and the band the file
  describes are inputs. Converting option text to numbers happens before
  the model. Lower-casing is ASCII only.
- The history size: a negative `maxHistory` gives an empty history.
  `RFIClipping.RFIClipper.Run` requires a positive size whenever an active
  clipper has samples to clean, because `% _maxHistory` is undefined for 0.
- Floating point: values are reals. `sqrt` is a parameter of `Run`, and the
  model requires `sqrt(nBins)` to be positive. `pow(x, 2)` is `x * x`.
- The `goodChannels == 0` division: instead of a precondition, the model
  gives the rms the IEEE outcome NaN, under which every later comparison
  is false.
- `SpectrumDataSet::index`: abstracted as the `[t][s][pol][c]` indexing of
  an `array4`.
- RFIClipping.RFIClipper.SpectrumMedian: it returns the element of rank n/2
  but does not reorder `copyI` as `nth_element` does. The scratch copy is
  not read again before the next sample overwrites it.
- RFIClipping.RFIClipper.Run: the raw spectra are a ghost argument pinned to
  the data (`SpectraFitRun` shows that `Spectra` of the data satisfies the
  pinning). This keeps the data-set contents out of the proof of the
  sample loop.
- The parallel-for hint over subbands is absent from the active `run`, and
  the model is sequential.
- The commented-out older `run` and the LofarChunker test are not part of
  this model.
