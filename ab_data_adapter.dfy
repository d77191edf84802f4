/** The AB stream adapter: it turns one chunk of fixed-size packets into
    Stokes-I spectra, one row per complete spectrum.

    The device is the sequence of packets it delivers, each `packetSize`
    bytes (header, payload, footer), already holding the whole chunk. The
    output blob is modelled by its polarisation-0, subband-0 plane, a
    `[block][channel]` array of the (integer) Stokes-I values. */
module ABAdapter {
  import opened Basics
  import opened ABPacket
  import opened LossTracking

  /** Configured sizes of the stream. */
  datatype Layout = Layout(
    pktsPerSpec: nat,
    channelsPerPacket: nat,
    samplesPerPacket: nat,
    footerSize: nat)

  /** Payload bytes per packet: four 16-bit products per channel. */
  function PayloadSize(l: Layout): nat
  {
    l.channelsPerPacket * 8
  }

  /** Bytes per packet on the wire. */
  function PacketSize(l: Layout): (n: nat)
    ensures n == HeaderSize + PayloadSize(l) + l.footerSize
    ensures n > 0
  {
    HeaderSize + l.channelsPerPacket * 8 + l.footerSize
  }

  /** Channels of one spectrum. */
  function NChannels(l: Layout): nat
  {
    l.pktsPerSpec * l.channelsPerPacket
  }

  /** Size of the assembly buffer: the payloads of one spectrum. */
  function BufferSize(l: Layout): (n: nat)
    ensures n == l.pktsPerSpec * PayloadSize(l)
    ensures n == NChannels(l) * 8
  {
    l.pktsPerSpec * (l.channelsPerPacket * 8)
  }

  /** Whole packets in a chunk. */
  function Packets(l: Layout, chunkSize: nat): (n: nat)
    ensures n * PacketSize(l) <= chunkSize < (n + 1) * PacketSize(l)
  {
    chunkSize / PacketSize(l)
  }

  /** Time blocks the blob is sized for: one row per sample of every whole
      spectrum in the chunk. */
  function NBlocks(l: Layout, chunkSize: nat): (n: nat)
    requires l.pktsPerSpec > 0
    ensures n * l.pktsPerSpec <= Packets(l, chunkSize) * l.samplesPerPacket
  {
    var packets := Packets(l, chunkSize);
    var spectra := packets / l.pktsPerSpec;
    assert spectra * l.pktsPerSpec <= packets;
    MulMonotone(spectra * l.pktsPerSpec, packets, l.samplesPerPacket);
    spectra * l.samplesPerPacket
  }

  /** Wrapping then subtracting wraps like subtracting then wrapping. */
  lemma U32Shift(x: int, k: int)
    ensures U32(U32(x) - k) == U32(x - k)
  {
    var q := x / Word;
    assert x == q * Word + U32(x);
    assert x - k == q * Word + (U32(x) - k);
  }

  /** Every packet the device delivers has the configured size. */
  predicate Framed(l: Layout, packets: seq<seq<bv8>>)
  {
    forall i :: 0 <= i < |packets| ==> |packets[i]| == PacketSize(l)
  }

  /** The payload of a packet: the bytes after the header, before the footer. */
  function Payload(l: Layout, pkt: seq<bv8>): (p: seq<bv8>)
    requires |pkt| == PacketSize(l)
    ensures |p| == PayloadSize(l)
  {
    pkt[HeaderSize .. HeaderSize + PayloadSize(l)]
  }

  /** Header, payload and footer tile the packet: nothing is skipped and
      nothing is read twice. */
  lemma PacketTiles(l: Layout, pkt: seq<bv8>)
    requires |pkt| == PacketSize(l)
    ensures var footer := pkt[HeaderSize + PayloadSize(l)..];
            pkt == pkt[..HeaderSize] + Payload(l, pkt) + footer && |footer| == l.footerSize
  {
    assert pkt == pkt[..HeaderSize] + Payload(l, pkt) + pkt[HeaderSize + PayloadSize(l)..];
  }

  /** `dd[k]`: the k-th 16-bit signed word of the buffer, little-endian. */
  function Short(buf: seq<bv8>, k: nat): (v: int)
    requires 2 * k + 1 < |buf|
    ensures -0x8000 <= v < 0x8000
  {
    var u := buf[2 * k] as int + 256 * (buf[2 * k + 1] as int);
    if u >= 0x8000 then u - 0x1_0000 else u
  }

  /** Stokes I of every channel: the sum of the XX* and YY* products, the
      first two of the four words of the channel. */
  function StokesI(buf: seq<bv8>, nChannels: nat): (row: seq<int>)
    requires 8 * nChannels <= |buf|
    ensures |row| == nChannels
    ensures forall c :: 0 <= c < nChannels ==> -0x1_0000 <= row[c] < 0x1_0000
  {
    seq(nChannels, c requires 0 <= c < nChannels => Short(buf, 4 * c) + Short(buf, 4 * c + 1))
  }

  /** Writes a payload into the buffer at the given offset. */
  function Store(buf: seq<bv8>, at: nat, payload: seq<bv8>): (r: seq<bv8>)
    requires at + |payload| <= |buf|
    ensures |r| == |buf|
    ensures r[..at] == buf[..at] && r[at + |payload|..] == buf[at + |payload|..]
    ensures r[at .. at + |payload|] == payload
  {
    buf[..at] + payload + buf[at + |payload|..]
  }

  function Zeros(n: nat): (z: seq<bv8>)
    ensures |z| == n && forall i :: 0 <= i < n ==> z[i] == 0
  {
    seq(n, _ => 0)
  }

  /** What went wrong when the adapter would write outside its buffers. */
  datatype Fault =
    | BufferOverrun  // a payload would not fit in the assembly buffer
    | BlockOverrun   // a spectrum would be written past the last time block

  /** The assembly of the current chunk: the buffer, the write offset in it,
      the next time block and the rows written so far. */
  datatype Assembly = Assembly(buf: seq<bv8>, bytesRead: nat, block: nat, rows: seq<seq<int>>)

  datatype Chunk = Chunk(tracker: Tracker, asm: Assembly, fault: Option<Fault>)

  /** The state at the start of a chunk: the cross-chunk tracker and an empty
      assembly. */
  function StartChunk(l: Layout, t: Tracker): (c: Chunk)
    ensures c.tracker == t && c.fault == None
    ensures c.asm.bytesRead == 0 && c.asm.rows == []
    ensures forall nBlocks :: Consistent(l, nBlocks, c.asm)
  {
    Chunk(t, Assembly(Zeros(BufferSize(l)), 0, 0, []), None)
  }

  /** The consistency of an assembly that every step keeps. */
  ghost predicate Consistent(l: Layout, nBlocks: nat, a: Assembly)
  {
    && |a.buf| == BufferSize(l)
    && a.bytesRead <= BufferSize(l)
    && a.block == |a.rows| <= nBlocks
    && forall b :: 0 <= b < |a.rows| ==> |a.rows[b]| == NChannels(l)
  }

  /** The offset at which a packet's payload is written: the write offset,
      reset to 0 by the packet that ends priming. */
  function WriteOffset(c: Chunk, specQuart: nat): nat
  {
    if c.tracker.first && specQuart == 0 then 0 else c.asm.bytesRead
  }

  /** The assembly half of one packet: the payload is stored at offset `at`
      and, when the packet completes a spectrum, the Stokes-I row of the
      buffer becomes the next row. A write outside the buffer or past the
      last block stops the chunk with a fault. */
  function Place(l: Layout, nBlocks: nat, tracker: Tracker, a: Assembly, at: nat, completes: bool,
                 pkt: seq<bv8>): Chunk
    requires |pkt| == PacketSize(l) && |a.buf| == BufferSize(l)
  {
    if at + PayloadSize(l) > BufferSize(l) then
      Chunk(tracker, a, Some(BufferOverrun))
    else
      var buf := Store(a.buf, at, Payload(l, pkt));
      if !completes then
        Chunk(tracker, a.(buf := buf, bytesRead := at + PayloadSize(l)), None)
      else if a.block >= nBlocks then
        Chunk(tracker, a, Some(BlockOverrun))
      else
        var row := StokesI(buf, NChannels(l));
        Chunk(tracker, Assembly(Zeros(BufferSize(l)), 0, a.block + 1, a.rows + [row]), None)
  }

  /** One packet: tracking, then assembly of its payload; the last quarter of
      a spectrum completes a row unless the adapter is still priming. */
  function Step(l: Layout, nBlocks: nat, c: Chunk, pkt: seq<bv8>): Chunk
    requires l.pktsPerSpec > 0 && |pkt| == PacketSize(l) && |c.asm.buf| == BufferSize(l)
  {
    if c.fault.Some? then c
    else
      var h := Fields(pkt);
      var tracker := Track(c.tracker, l.pktsPerSpec, h.integCount, h.specQuart);
      var completes := !Skips(c.tracker, h.specQuart) && h.specQuart == l.pktsPerSpec - 1;
      Place(l, nBlocks, tracker, c.asm, WriteOffset(c, h.specQuart), completes, pkt)
  }

  /** One packet keeps the assembly consistent and only appends rows. */
  lemma StepKeepsConsistent(l: Layout, nBlocks: nat, c: Chunk, pkt: seq<bv8>)
    requires l.pktsPerSpec > 0 && |pkt| == PacketSize(l) && Consistent(l, nBlocks, c.asm)
    ensures var r := Step(l, nBlocks, c, pkt);
            && Consistent(l, nBlocks, r.asm)
            && |c.asm.rows| <= |r.asm.rows| && r.asm.rows[..|c.asm.rows|] == c.asm.rows
  {
  }

  /** Packets `i` to `n - 1` of a chunk, one step at a time from state `c`;
      a fault ends the run. The block cursor never passes the number of
      blocks the blob was sized for. */
  function Run(l: Layout, nBlocks: nat, c: Chunk, stream: seq<seq<bv8>>, i: nat, n: nat): (r: Chunk)
    requires l.pktsPerSpec > 0 && Framed(l, stream) && i <= n <= |stream|
    requires Consistent(l, nBlocks, c.asm)
    ensures Consistent(l, nBlocks, r.asm)
    ensures c.fault.Some? ==> r == c
    decreases n - i, 1
  {
    if i == n then c else Resume(l, nBlocks, c, stream, i, n)
  }

  /** A run with packet `i` still to come: a fault stops the chunk there,
      otherwise the packet is stepped and the run goes on. */
  function Resume(l: Layout, nBlocks: nat, c: Chunk, stream: seq<seq<bv8>>, i: nat, n: nat): (r: Chunk)
    requires l.pktsPerSpec > 0 && Framed(l, stream) && i < n <= |stream|
    requires Consistent(l, nBlocks, c.asm)
    ensures Consistent(l, nBlocks, r.asm)
    decreases n - i, 0
  {
    if c.fault.Some? then c
    else
      StepKeepsConsistent(l, nBlocks, c, stream[i]);
      Run(l, nBlocks, Step(l, nBlocks, c, stream[i]), stream, i + 1, n)
  }

  /** The first step of a run that has packets left and no fault. */
  lemma RunStep(l: Layout, nBlocks: nat, c: Chunk, stream: seq<seq<bv8>>, i: nat, n: nat)
    requires l.pktsPerSpec > 0 && Framed(l, stream) && i < n <= |stream|
    requires Consistent(l, nBlocks, c.asm) && c.fault == None
    ensures |stream[i]| == PacketSize(l)
    ensures Consistent(l, nBlocks, Step(l, nBlocks, c, stream[i]).asm)
    ensures Run(l, nBlocks, c, stream, i, n) == Run(l, nBlocks, Step(l, nBlocks, c, stream[i]), stream, i + 1, n)
  {
    StepKeepsConsistent(l, nBlocks, c, stream[i]);
  }

  /** The state after packets `i` to `n - 1`: the run taken as one value.
      Properties of whole stretches of the stream are stated on it, so that
      the packet loop is unrolled only where a proof steps through it. */
  function After(l: Layout, nBlocks: nat, c: Chunk, stream: seq<seq<bv8>>, i: nat, n: nat): (r: Chunk)
    requires l.pktsPerSpec > 0 && Framed(l, stream) && i <= n <= |stream|
    requires Consistent(l, nBlocks, c.asm)
    ensures Consistent(l, nBlocks, r.asm)
    ensures i == n || c.fault.Some? ==> r == c
  {
    Run(l, nBlocks, c, stream, i, n)
  }

  /** The first step of a stretch that has packets left and no fault. */
  lemma AfterStep(l: Layout, nBlocks: nat, c: Chunk, stream: seq<seq<bv8>>, i: nat, n: nat)
    requires l.pktsPerSpec > 0 && Framed(l, stream) && i < n <= |stream|
    requires Consistent(l, nBlocks, c.asm) && c.fault == None
    ensures |stream[i]| == PacketSize(l)
    ensures Consistent(l, nBlocks, Step(l, nBlocks, c, stream[i]).asm)
    ensures After(l, nBlocks, c, stream, i, n) == After(l, nBlocks, Step(l, nBlocks, c, stream[i]), stream, i + 1, n)
  {
    RunStep(l, nBlocks, c, stream, i, n);
  }

  /** A run from `i` to `n` is the run from `i` to `j` followed by the run
      from `j` to `n`. */
  lemma {:induction false} RunSplit(l: Layout, nBlocks: nat, c: Chunk, stream: seq<seq<bv8>>, i: nat, j: nat, n: nat)
    requires l.pktsPerSpec > 0 && Framed(l, stream) && i <= j <= n <= |stream|
    requires Consistent(l, nBlocks, c.asm)
    ensures After(l, nBlocks, c, stream, i, n) == After(l, nBlocks, After(l, nBlocks, c, stream, i, j), stream, j, n)
    decreases j - i
  {
    if i < j && c.fault == None {
      AfterStep(l, nBlocks, c, stream, i, n);
      AfterStep(l, nBlocks, c, stream, i, j);
      RunSplit(l, nBlocks, Step(l, nBlocks, c, stream[i]), stream, i + 1, j, n);
    }
  }

  /** Rows written to the blob are never rewritten: a run only appends. */
  lemma {:induction false} RunOnlyAppends(l: Layout, nBlocks: nat, c: Chunk, stream: seq<seq<bv8>>, i: nat, n: nat)
    requires l.pktsPerSpec > 0 && Framed(l, stream) && i <= n <= |stream|
    requires Consistent(l, nBlocks, c.asm)
    ensures var r := Run(l, nBlocks, c, stream, i, n);
            |c.asm.rows| <= |r.asm.rows| && r.asm.rows[..|c.asm.rows|] == c.asm.rows
    decreases n - i
  {
    if i < n && c.fault.None? {
      AfterStep(l, nBlocks, c, stream, i, n);
      StepKeepsConsistent(l, nBlocks, c, stream[i]);
      var next := Step(l, nBlocks, c, stream[i]);
      RunOnlyAppends(l, nBlocks, next, stream, i + 1, n);
      var r := Run(l, nBlocks, c, stream, i, n);
      assert r.asm.rows[..|next.asm.rows|] == next.asm.rows;
      assert next.asm.rows[..|c.asm.rows|] == c.asm.rows;
      assert r.asm.rows[..|c.asm.rows|] == r.asm.rows[..|next.asm.rows|][..|c.asm.rows|];
    }
  }

  /** A packet that neither primes nor ends a spectrum is appended right after
      the bytes already assembled, whatever its quarter. */
  lemma StepAppends(l: Layout, nBlocks: nat, c: Chunk, pkt: seq<bv8>)
    requires l.pktsPerSpec > 0 && |pkt| == PacketSize(l) && Consistent(l, nBlocks, c.asm)
    requires c.fault == None && !c.tracker.first
    requires Fields(pkt).specQuart != l.pktsPerSpec - 1
    requires c.asm.bytesRead + PayloadSize(l) <= BufferSize(l)
    ensures var r := Step(l, nBlocks, c, pkt);
            && r.fault == None
            && r.asm.bytesRead == c.asm.bytesRead + PayloadSize(l)
            && r.asm.buf[..r.asm.bytesRead] == c.asm.buf[..c.asm.bytesRead] + Payload(l, pkt)
            && r.asm.block == c.asm.block && r.asm.rows == c.asm.rows
  {
    var at := c.asm.bytesRead;
    var buf := Store(c.asm.buf, at, Payload(l, pkt));
    assert buf[..at + PayloadSize(l)] == buf[..at] + buf[at .. at + PayloadSize(l)];
  }

  /** The last quarter completes the spectrum: its payload is stored, the
      Stokes-I row of the whole buffer is written into the next block, the
      buffer is cleared and the block cursor advances. */
  lemma StepWritesBlock(l: Layout, nBlocks: nat, c: Chunk, pkt: seq<bv8>)
    requires l.pktsPerSpec > 0 && |pkt| == PacketSize(l) && Consistent(l, nBlocks, c.asm)
    requires c.fault == None && !Skips(c.tracker, Fields(pkt).specQuart)
    requires Fields(pkt).specQuart == l.pktsPerSpec - 1
    requires WriteOffset(c, Fields(pkt).specQuart) + PayloadSize(l) <= BufferSize(l)
    requires c.asm.block < nBlocks
    ensures var r := Step(l, nBlocks, c, pkt);
            var buf := Store(c.asm.buf, WriteOffset(c, Fields(pkt).specQuart), Payload(l, pkt));
            && r.fault == None
            && r.asm.rows == c.asm.rows + [StokesI(buf, NChannels(l))]
            && r.asm.block == c.asm.block + 1 <= nBlocks
            && r.asm.bytesRead == 0
            && forall i :: 0 <= i < BufferSize(l) ==> r.asm.buf[i] == 0
  {
  }

  /** A priming packet is stored at the write offset but never produces a
      row, and the tracker follows the priming rule. */
  lemma StepWhilePriming(l: Layout, nBlocks: nat, c: Chunk, pkt: seq<bv8>)
    requires l.pktsPerSpec > 0 && |pkt| == PacketSize(l) && Consistent(l, nBlocks, c.asm)
    requires c.fault == None && Skips(c.tracker, Fields(pkt).specQuart)
    ensures var r := Step(l, nBlocks, c, pkt);
            var h := Fields(pkt);
            && r.tracker == c.tracker.(prevSpecQuart := h.specQuart, prevIntegCount := h.integCount)
            && r.asm.rows == c.asm.rows && r.asm.block == c.asm.block
            && (r.fault == None <==> c.asm.bytesRead + PayloadSize(l) <= BufferSize(l))
  {
  }

  /** The payloads of packets `i` to `i + k - 1`, back to back. */
  function Payloads(l: Layout, stream: seq<seq<bv8>>, i: nat, k: nat): (p: seq<bv8>)
    requires Framed(l, stream) && i + k <= |stream|
    ensures |p| == k * PayloadSize(l)
    decreases k
  {
    if k == 0 then [] else Payload(l, stream[i]) + Payloads(l, stream, i + 1, k - 1)
  }

  /** Packets `i` to `i + k - 1` carry the quarters `q0` to `q0 + k - 1`. */
  ghost predicate InQuarterOrder(l: Layout, stream: seq<seq<bv8>>, i: nat, q0: nat, k: nat)
    requires Framed(l, stream) && i + k <= |stream|
  {
    forall j :: i <= j < i + k ==> Fields(stream[j]).specQuart == q0 + (j - i)
  }

  /** Packets from `i` on are `s` whole spectra, each with its quarters 0 to
      `pktsPerSpec - 1` in order. */
  ghost predicate SpectraInOrder(l: Layout, stream: seq<seq<bv8>>, i: nat, s: nat)
    requires Framed(l, stream)
    decreases s
  {
    s == 0
    || (&& i + l.pktsPerSpec <= |stream|
        && InQuarterOrder(l, stream, i, 0, l.pktsPerSpec)
        && SpectraInOrder(l, stream, i + l.pktsPerSpec, s - 1))
  }

  /** A packet of quarter `q`, not the last, arriving when quarters 0 to
      `q - 1` are assembled (the assembled bytes and the remaining quarters
      fill the buffer), is appended right after them. */
  lemma StepInSpectrum(l: Layout, nBlocks: nat, c: Chunk, pkt: seq<bv8>, q: nat)
    requires l.pktsPerSpec > 0 && |pkt| == PacketSize(l) && Consistent(l, nBlocks, c.asm)
    requires c.fault == None && (!c.tracker.first || q == 0)
    requires Fields(pkt).specQuart == q && q + 1 < l.pktsPerSpec
    requires c.asm.bytesRead + (l.pktsPerSpec - q) * PayloadSize(l) == BufferSize(l)
    ensures var r := Step(l, nBlocks, c, pkt);
            && r.fault == None && !r.tracker.first
            && r.asm.bytesRead == c.asm.bytesRead + PayloadSize(l)
            && r.asm.buf[..r.asm.bytesRead] == c.asm.buf[..c.asm.bytesRead] + Payload(l, pkt)
            && r.asm.block == c.asm.block && r.asm.rows == c.asm.rows
  {
    var h := Fields(pkt);
    var ps := PayloadSize(l);
    PrimingEnds(c.tracker, l.pktsPerSpec, h.integCount, h.specQuart);
    var at := c.asm.bytesRead;
    assert WriteOffset(c, q) == at;
    MulMonotone(1, l.pktsPerSpec - q, ps);
    assert at + ps <= BufferSize(l);
    var buf := Store(c.asm.buf, at, Payload(l, pkt));
    assert buf[..at + ps] == buf[..at] + buf[at .. at + ps];
    var tracker := Track(c.tracker, l.pktsPerSpec, h.integCount, h.specQuart);
    assert Step(l, nBlocks, c, pkt) == Chunk(tracker, c.asm.(buf := buf, bytesRead := at + ps), None);
  }

  /** The last quarter, arriving when all the others are assembled, writes
      the Stokes-I row of the whole spectrum and clears the assembly. */
  lemma StepEndsSpectrum(l: Layout, nBlocks: nat, c: Chunk, pkt: seq<bv8>)
    requires l.pktsPerSpec > 0 && |pkt| == PacketSize(l) && Consistent(l, nBlocks, c.asm)
    requires c.fault == None && (!c.tracker.first || l.pktsPerSpec == 1)
    requires Fields(pkt).specQuart == l.pktsPerSpec - 1
    requires c.asm.bytesRead + PayloadSize(l) == BufferSize(l) && c.asm.block < nBlocks
    ensures var r := Step(l, nBlocks, c, pkt);
            var row := StokesI(c.asm.buf[..c.asm.bytesRead] + Payload(l, pkt), NChannels(l));
            && r.fault == None && !r.tracker.first
            && r.asm == Assembly(Zeros(BufferSize(l)), 0, c.asm.block + 1, c.asm.rows + [row])
  {
    var h := Fields(pkt);
    PrimingEnds(c.tracker, l.pktsPerSpec, h.integCount, h.specQuart);
    var at := c.asm.bytesRead;
    assert WriteOffset(c, h.specQuart) == at;
    var buf := Store(c.asm.buf, at, Payload(l, pkt));
    assert buf == c.asm.buf[..at] + Payload(l, pkt);
    var tracker := Track(c.tracker, l.pktsPerSpec, h.integCount, h.specQuart);
    var row := StokesI(buf, NChannels(l));
    assert Step(l, nBlocks, c, pkt)
           == Chunk(tracker, Assembly(Zeros(BufferSize(l)), 0, c.asm.block + 1, c.asm.rows + [row]), None);
  }

  /** The rest of a spectrum, quarters `q0` to `pktsPerSpec - 1` in order, on
      top of an assembly holding the first `q0` quarters: no fault, and
      exactly one new row, the Stokes I of the spectrum's payloads back to
      back, after which the assembly is cleared. */
  lemma {:induction false} SpectrumCompletes(l: Layout, nBlocks: nat, c: Chunk, stream: seq<seq<bv8>>,
                                             i: nat, q0: nat)
    requires l.pktsPerSpec > 0 && Framed(l, stream) && Consistent(l, nBlocks, c.asm)
    requires c.fault == None && (!c.tracker.first || q0 == 0)
    requires q0 < l.pktsPerSpec && i + (l.pktsPerSpec - q0) <= |stream|
    requires c.asm.bytesRead + (l.pktsPerSpec - q0) * PayloadSize(l) == BufferSize(l)
    requires c.asm.block < nBlocks
    requires InQuarterOrder(l, stream, i, q0, l.pktsPerSpec - q0)
    ensures var m := l.pktsPerSpec - q0;
            var r := After(l, nBlocks, c, stream, i, i + m);
            var row := StokesI(c.asm.buf[..c.asm.bytesRead] + Payloads(l, stream, i, m), NChannels(l));
            && r.fault == None && !r.tracker.first
            && r.asm == Assembly(Zeros(BufferSize(l)), 0, c.asm.block + 1, c.asm.rows + [row])
    decreases l.pktsPerSpec - q0
  {
    var m := l.pktsPerSpec - q0;
    var pkt := stream[i];
    AfterStep(l, nBlocks, c, stream, i, i + m);
    var next := Step(l, nBlocks, c, pkt);
    var r := After(l, nBlocks, next, stream, i + 1, i + m);
    assert After(l, nBlocks, c, stream, i, i + m) == r;
    assert Payloads(l, stream, i, m) == Payload(l, pkt) + Payloads(l, stream, i + 1, m - 1);
    if m == 1 {
      assert c.asm.bytesRead + PayloadSize(l) == BufferSize(l);
      StepEndsSpectrum(l, nBlocks, c, pkt);
      assert r == next;
      assert Payloads(l, stream, i, m) == Payload(l, pkt);
    } else {
      StepInSpectrum(l, nBlocks, c, pkt, q0);
      MulSucc(m - 1, PayloadSize(l));
      assert next.asm.bytesRead + (m - 1) * PayloadSize(l) == BufferSize(l);
      assert InQuarterOrder(l, stream, i + 1, q0 + 1, m - 1);
      SpectrumCompletes(l, nBlocks, next, stream, i + 1, q0 + 1);
      assert i + 1 + (m - 1) == i + m;
      var row := StokesI(next.asm.buf[..next.asm.bytesRead] + Payloads(l, stream, i + 1, m - 1), NChannels(l));
      assert r.asm == Assembly(Zeros(BufferSize(l)), 0, next.asm.block + 1, next.asm.rows + [row]);
      assert next.asm.buf[..next.asm.bytesRead] + Payloads(l, stream, i + 1, m - 1)
             == c.asm.buf[..c.asm.bytesRead] + Payloads(l, stream, i, m);
    }
  }

  /** Whole spectra, every packet in quarter order, with a block for each:
      the run never faults and appends one row per spectrum. */
  lemma {:induction false} WholeSpectraNeverFault(l: Layout, nBlocks: nat, c: Chunk, stream: seq<seq<bv8>>,
                                                  i: nat, s: nat)
    requires l.pktsPerSpec > 0 && Framed(l, stream) && Consistent(l, nBlocks, c.asm)
    requires c.fault == None && c.asm.bytesRead == 0 && c.asm.block + s <= nBlocks
    requires i + s * l.pktsPerSpec <= |stream| && SpectraInOrder(l, stream, i, s)
    ensures var r := After(l, nBlocks, c, stream, i, i + s * l.pktsPerSpec);
            && r.fault == None && |r.asm.rows| == |c.asm.rows| + s
            && r.asm.rows[..|c.asm.rows|] == c.asm.rows
    decreases s
  {
    var P := l.pktsPerSpec;
    var n := i + s * P;
    if s > 0 {
      assert s * P == P + (s - 1) * P;
      SpectrumCompletes(l, nBlocks, c, stream, i, 0);
      RunSplit(l, nBlocks, c, stream, i, i + P, n);
      var mid := After(l, nBlocks, c, stream, i, i + P);
      WholeSpectraNeverFault(l, nBlocks, mid, stream, i + P, s - 1);
      assert i + P + (s - 1) * P == n;
      var r := After(l, nBlocks, mid, stream, i + P, n);
      assert After(l, nBlocks, c, stream, i, n) == r;
      assert r.asm.rows[..|c.asm.rows|] == r.asm.rows[..|mid.asm.rows|][..|c.asm.rows|];
    }
  }

  /** A chunk of whole spectra in quarter order, with at least one sample per
      packet, decodes without a fault into one row per spectrum. */
  lemma ChunkOfWholeSpectra(l: Layout, chunkSize: nat, t: Tracker, stream: seq<seq<bv8>>, s: nat)
    requires l.pktsPerSpec > 0 && l.samplesPerPacket >= 1 && Framed(l, stream)
    requires Packets(l, chunkSize) == s * l.pktsPerSpec <= |stream| && SpectraInOrder(l, stream, 0, s)
    ensures var r := Run(l, NBlocks(l, chunkSize), StartChunk(l, t), stream, 0, Packets(l, chunkSize));
            r.fault == None && |r.asm.rows| == s
  {
    DivOfMul(s, l.pktsPerSpec);
    MulMonotone(1, l.samplesPerPacket, s);
    WholeSpectraNeverFault(l, NBlocks(l, chunkSize), StartChunk(l, t), stream, 0, s);
  }

  /** Packets that are not the last quarter are appended one after another,
      as long as they fit, whatever their quarters. */
  lemma {:induction false} NoLastQuarterAppends(l: Layout, nBlocks: nat, c: Chunk, stream: seq<seq<bv8>>,
                                                i: nat, k: nat)
    requires l.pktsPerSpec > 0 && Framed(l, stream) && Consistent(l, nBlocks, c.asm)
    requires c.fault == None && !c.tracker.first
    requires i + k <= |stream| && c.asm.bytesRead + k * PayloadSize(l) <= BufferSize(l)
    requires forall j :: i <= j < i + k ==> Fields(stream[j]).specQuart != l.pktsPerSpec - 1
    ensures var r := After(l, nBlocks, c, stream, i, i + k);
            && r.fault == None && !r.tracker.first
            && r.asm.bytesRead == c.asm.bytesRead + k * PayloadSize(l)
            && r.asm.rows == c.asm.rows
    decreases k
  {
    if k > 0 {
      var pkt := stream[i];
      var h := Fields(pkt);
      assert k * PayloadSize(l) == PayloadSize(l) + (k - 1) * PayloadSize(l);
      MulMonotone(1, k, PayloadSize(l));
      AfterStep(l, nBlocks, c, stream, i, i + k);
      StepAppends(l, nBlocks, c, pkt);
      PrimingEnds(c.tracker, l.pktsPerSpec, h.integCount, h.specQuart);
      var next := Step(l, nBlocks, c, pkt);
      NoLastQuarterAppends(l, nBlocks, next, stream, i + 1, k - 1);
      assert i + 1 + (k - 1) == i + k;
      var r := After(l, nBlocks, next, stream, i + 1, i + k);
      assert After(l, nBlocks, c, stream, i, i + k) == r;
      assert r.asm.bytesRead == next.asm.bytesRead + (k - 1) * PayloadSize(l);
    }
  }

  /** When the last quarter of a spectrum is lost, the next spectrum's
      payloads are appended behind the earlier ones: after `pktsPerSpec`
      packets none of which is the last quarter (with four per spectrum,
      quarters 0, 1, 2, 0), the buffer is full and the next payload, whatever
      its quarter, overruns it. */
  lemma LostLastQuarterOverruns(l: Layout, nBlocks: nat, c: Chunk, stream: seq<seq<bv8>>, i: nat)
    requires l.pktsPerSpec > 0 && l.channelsPerPacket > 0 && Framed(l, stream)
    requires i + l.pktsPerSpec + 1 <= |stream|
    requires Consistent(l, nBlocks, c.asm) && c.fault == None && !c.tracker.first && c.asm.bytesRead == 0
    requires forall j :: i <= j < i + l.pktsPerSpec ==> Fields(stream[j]).specQuart != l.pktsPerSpec - 1
    ensures After(l, nBlocks, c, stream, i, i + l.pktsPerSpec + 1).fault == Some(BufferOverrun)
  {
    var P := l.pktsPerSpec;
    var n := i + P + 1;
    NoLastQuarterAppends(l, nBlocks, c, stream, i, P);
    RunSplit(l, nBlocks, c, stream, i, i + P, n);
    var mid := After(l, nBlocks, c, stream, i, i + P);
    AfterStep(l, nBlocks, mid, stream, i + P, n);
    var last := Step(l, nBlocks, mid, stream[i + P]);
    assert last.fault == Some(BufferOverrun);
    assert After(l, nBlocks, last, stream, n, n) == last;
  }

  /** With no samples per packet the blob has no time blocks, so the first
      packet that completes a spectrum stops the chunk. */
  lemma NoSamplesOverrunsFirstBlock(l: Layout, chunkSize: nat, c: Chunk, pkt: seq<bv8>)
    requires l.pktsPerSpec > 0 && l.samplesPerPacket == 0 && |pkt| == PacketSize(l)
    requires Consistent(l, NBlocks(l, chunkSize), c.asm) && c.fault == None
    requires !Skips(c.tracker, Fields(pkt).specQuart) && Fields(pkt).specQuart == l.pktsPerSpec - 1
    requires WriteOffset(c, Fields(pkt).specQuart) + PayloadSize(l) <= BufferSize(l)
    ensures NBlocks(l, chunkSize) == 0
    ensures Step(l, NBlocks(l, chunkSize), c, pkt).fault == Some(BlockOverrun)
  {
  }

  /** Copies a payload into the assembly buffer (the device read). */
  method ReadPayload(d: array<bv8>, at: nat, payload: seq<bv8>)
    requires at + |payload| <= d.Length
    modifies d
    ensures d[..] == Store(old(d[..]), at, payload)
  {
    forall i | at <= i < at + |payload| {
      d[i] := payload[i - at];
    }
    assert d[..] == old(d[..])[..at] + payload + old(d[..])[at + |payload|..];
  }

  /** Writes the Stokes-I row of the buffer into one time block. */
  method WriteStokesI(data: array2<int>, block: nat, d: array<bv8>, nChannels: nat)
    requires block < data.Length0 && nChannels == data.Length1 && 8 * nChannels <= d.Length
    modifies data
    ensures forall b, c :: 0 <= b < data.Length0 && 0 <= c < data.Length1 ==>
              data[b, c] == (if b == block then StokesI(d[..], nChannels)[c] else old(data[b, c]))
  {
    var chan := 0;
    while chan < nChannels
      invariant 0 <= chan <= nChannels
      invariant forall b, c :: 0 <= b < data.Length0 && 0 <= c < data.Length1 ==>
                  data[b, c] == (if b == block && c < chan then StokesI(d[..], nChannels)[c] else old(data[b, c]))
    {
      data[block, chan] := Short(d[..], chan * 4 + 0) + Short(d[..], chan * 4 + 1);
      chan := chan + 1;
    }
  }

  /** Completes a spectrum: writes the Stokes-I row of the assembly buffer
      into time block `block` and clears the buffer for the next one. */
  method CompleteSpectrum(data: array2<int>, block: nat, d: array<bv8>, nChannels: nat)
    requires block < data.Length0 && nChannels == data.Length1 && 8 * nChannels <= d.Length
    modifies data, d
    ensures d[..] == Zeros(d.Length)
    ensures forall b, c :: 0 <= b < data.Length0 && 0 <= c < data.Length1 ==>
              data[b, c] == (if b == block then StokesI(old(d[..]), nChannels)[c] else old(data[b, c]))
  {
    WriteStokesI(data, block, d, nChannels);
    forall i | 0 <= i < d.Length {
      d[i] := 0;
    }
  }

  class ABDataAdapter {
    const pktsPerSpec: nat
    const channelsPerPacket: nat
    const samplesPerPacket: nat
    const footerSize: nat
    const packetSize: nat
    const nChannels: nat
    var nPolarisations: nat

    var first: bool
    var numMissInst: nat
    var numMissPkts: nat
    var integCountStart: int
    // Kept across calls (function-local statics in the adapter).
    var prevSpecQuart: int
    var prevIntegCount: int

    function Config(): Layout
    {
      Layout(pktsPerSpec, channelsPerPacket, samplesPerPacket, footerSize)
    }

    function State(): Tracker
      reads this
    {
      Tracker(first, prevSpecQuart, prevIntegCount, numMissInst, numMissPkts, integCountStart)
    }

    ghost predicate Valid()
    {
      packetSize == PacketSize(Config()) && nChannels == NChannels(Config())
    }

    /** Reads the configuration and derives the packet size and the channel
        count; the adapter starts priming with no loss counted. */
    constructor (pktsPerSpec: nat, channelsPerPacket: nat, samplesPerPacket: nat, footerSize: nat,
                 integCountStart: int)
      ensures Valid()
      ensures Config() == Layout(pktsPerSpec, channelsPerPacket, samplesPerPacket, footerSize)
      ensures packetSize == HeaderSize + channelsPerPacket * 8 + footerSize
      ensures nChannels == pktsPerSpec * channelsPerPacket
      ensures State() == InitialTracker(integCountStart)
    {
      this.pktsPerSpec := pktsPerSpec;
      this.channelsPerPacket := channelsPerPacket;
      this.samplesPerPacket := samplesPerPacket;
      this.footerSize := footerSize;
      this.packetSize := HeaderSize + channelsPerPacket * 8 + footerSize;
      this.nChannels := pktsPerSpec * channelsPerPacket;
      this.first := true;
      this.numMissInst := 0;
      this.numMissPkts := 0;
      this.integCountStart := integCountStart;
      this.prevSpecQuart := 0;
      this.prevIntegCount := 0;
    }

    /** Priming and loss checks for one packet. */
    method TrackPacket(integCount: nat, specQuart: nat)
      modifies this
      ensures State() == Track(old(State()), pktsPerSpec, integCount, specQuart)
      ensures nPolarisations == old(nPolarisations)
    {
      if first {
        if specQuart != 0 {
          prevSpecQuart := specQuart;
          prevIntegCount := integCount;
          return;
        } else {
          first := false;
        }
      } else {
        if integCountStart == 0 {
          integCountStart := integCount;
        }
      }
      var icDiff: nat;
      if (prevSpecQuart + 1) % QuarterCycle != specQuart {
        icDiff := U32(integCount - prevIntegCount);
        if icDiff == 0 {
          var sqDiff: int := U32(specQuart - prevSpecQuart);
          U32Shift(specQuart - prevSpecQuart, 1);
          numMissInst := numMissInst + 1;
          numMissPkts := U32(sqDiff - 1);
        } else {
          numMissInst := numMissInst + 1;
          numMissPkts := CrossIntegrationMissed(pktsPerSpec, prevSpecQuart, icDiff, specQuart);
        }
      }
      if specQuart == 0 {
        icDiff := U32(integCount - prevIntegCount);
        if icDiff != 1 {
          numMissInst := numMissInst + 1;
          numMissPkts := CrossIntegrationMissed(pktsPerSpec, prevSpecQuart, icDiff, specQuart);
        }
      }
      prevSpecQuart := specQuart;
      prevIntegCount := integCount;
    }

    /** The concrete decoding state mirrors the chunk state `c`. */
    ghost predicate Mirrors(c: Chunk, d: array<bv8>, data: array2<int>, bytesRead: nat, block: nat)
      reads this, d, data
    {
      && State() == c.tracker
      && Consistent(Config(), data.Length0, c.asm) && data.Length1 == NChannels(Config())
      && d[..] == c.asm.buf && bytesRead == c.asm.bytesRead && block == c.asm.block
      && (forall b, ch :: 0 <= b < data.Length0 && 0 <= ch < data.Length1 ==>
            data[b, ch] == (if b < block then c.asm.rows[b][ch] else 0))
    }

    /** Stores one payload at offset `at` and, when the packet completes a
        spectrum, writes the Stokes-I row into the blob and clears the buffer. */
    method Assemble(pkt: seq<bv8>, d: array<bv8>, data: array2<int>, at: nat, block: nat,
                    completes: bool, ghost tracker: Tracker, ghost a: Assembly)
      returns (bytesRead': nat, block': nat, fault: Option<Fault>)
      requires Valid() && |pkt| == packetSize
      requires d.Length == BufferSize(Config()) && data.Length1 == nChannels
      requires Consistent(Config(), data.Length0, a) && d[..] == a.buf && block == a.block
      requires forall b, ch :: 0 <= b < data.Length0 && 0 <= ch < data.Length1 ==>
                 data[b, ch] == (if b < block then a.rows[b][ch] else 0)
      modifies d, data
      ensures var r := Place(Config(), data.Length0, tracker, a, at, completes, pkt);
              && fault == r.fault
              && (fault == None ==> d[..] == r.asm.buf && bytesRead' == r.asm.bytesRead && block' == r.asm.block)
              && forall b, ch :: 0 <= b < data.Length0 && 0 <= ch < data.Length1 ==>
                   data[b, ch] == (if b < |r.asm.rows| then r.asm.rows[b][ch] else 0)
    {
      ghost var l := Config();
      ghost var r := Place(l, data.Length0, tracker, a, at, completes, pkt);
      bytesRead' := at;
      block' := block;
      var payloadSize := packetSize - HeaderSize - footerSize;
      if at + payloadSize > d.Length {
        fault := Some(BufferOverrun);
        return;
      }
      ghost var buf := Store(a.buf, at, Payload(l, pkt));
      ReadPayload(d, at, pkt[HeaderSize .. HeaderSize + payloadSize]);
      assert d[..] == buf;
      bytesRead' := at + payloadSize;
      fault := None;
      if completes {
        if block >= data.Length0 {
          fault := Some(BlockOverrun);
          return;
        }
        assert r.asm == Assembly(Zeros(BufferSize(l)), 0, block + 1, a.rows + [StokesI(buf, NChannels(l))]);
        CompleteSpectrum(data, block, d, nChannels);
        bytesRead' := 0;
        block' := block + 1;
      }
    }

    /** One packet of the chunk (the body of the adapter's packet loop). */
    method ProcessPacket(pkt: seq<bv8>, d: array<bv8>, data: array2<int>, bytesRead: nat, block: nat,
                         ghost c: Chunk)
      returns (bytesRead': nat, block': nat, fault: Option<Fault>)
      requires Valid() && pktsPerSpec > 0 && |pkt| == packetSize
      requires d.Length == BufferSize(Config()) && data.Length1 == nChannels
      requires c.fault == None && Consistent(Config(), data.Length0, c.asm)
      requires Mirrors(c, d, data, bytesRead, block)
      modifies this, d, data
      ensures nPolarisations == old(nPolarisations)
      ensures var r := Step(Config(), data.Length0, c, pkt);
              && fault == r.fault
              && State() == r.tracker
              && (fault == None ==> Mirrors(r, d, data, bytesRead', block'))
              && (forall b, ch :: 0 <= b < data.Length0 && 0 <= ch < data.Length1 ==>
                    data[b, ch] == (if b < |r.asm.rows| then r.asm.rows[b][ch] else 0))
    {
      ghost var l := Config();
      ghost var r := Step(l, data.Length0, c, pkt);
      var header := ParseHeader(pkt);
      var specQuart := header.specQuart;
      var wasFirst := first;
      TrackPacket(header.integCount, specQuart);
      assert State() == r.tracker;
      var at := if wasFirst && specQuart == 0 then 0 else bytesRead;
      var completes := !(wasFirst && specQuart != 0) && specQuart == pktsPerSpec - 1;
      assert r == Place(l, data.Length0, State(), c.asm, at, completes, pkt);
      StepKeepsConsistent(l, data.Length0, c, pkt);
      bytesRead', block', fault := Assemble(pkt, d, data, at, block, completes, State(), c.asm);
    }

    /** Decodes one chunk of `chunkSize` bytes from the stream. The result is
        the blob plane of Stokes-I rows and, if the adapter would have written
        outside its buffers, the fault that stopped it. */
    method Deserialise(stream: seq<seq<bv8>>, chunkSize: nat) returns (data: array2<int>, fault: Option<Fault>)
      requires Valid() && pktsPerSpec > 0
      requires Framed(Config(), stream) && Packets(Config(), chunkSize) <= |stream|
      modifies this
      ensures Valid() && nPolarisations == 4
      ensures fresh(data)
      ensures data.Length0 == NBlocks(Config(), chunkSize) && data.Length1 == nChannels
      ensures var r := Run(Config(), NBlocks(Config(), chunkSize), StartChunk(Config(), old(State())),
                           stream, 0, Packets(Config(), chunkSize));
              && State() == r.tracker
              && fault == r.fault
              && forall b, c :: 0 <= b < data.Length0 && 0 <= c < data.Length1 ==>
                   data[b, c] == (if b < |r.asm.rows| then r.asm.rows[b][c] else 0)
    {
      var l := Config();
      var packets := Packets(l, chunkSize);
      var nBlocks := NBlocks(l, chunkSize);
      nPolarisations := 4;
      data := new int[nBlocks, nChannels]((_, _) => 0);
      var payloadSize := packetSize - HeaderSize - footerSize;
      assert payloadSize == PayloadSize(l);
      var d := new bv8[pktsPerSpec * payloadSize](_ => 0);
      ghost var start := StartChunk(l, State());
      assert start == StartChunk(Config(), old(State()));
      assert d[..] == start.asm.buf;
      assert Consistent(l, nBlocks, start.asm);
      ghost var final := Run(l, nBlocks, start, stream, 0, packets);

      var bytesRead := 0;
      var block := 0;
      var p := 0;
      ghost var c := start;
      fault := None;
      while p < packets
        invariant 0 <= p <= packets
        invariant fresh(data) && data.Length0 == nBlocks && data.Length1 == nChannels
        invariant fresh(d) && d.Length == BufferSize(l)
        invariant nPolarisations == 4
        invariant fault == None && c.fault == None && Consistent(l, nBlocks, c.asm)
        invariant Run(l, nBlocks, c, stream, p, packets) == final
        invariant Mirrors(c, d, data, bytesRead, block)
      {
        var pkt := stream[p];
        RunStep(l, nBlocks, c, stream, p, packets);
        ghost var next := Step(l, nBlocks, c, pkt);
        bytesRead, block, fault := ProcessPacket(pkt, d, data, bytesRead, block, c);
        if fault.Some? {
          assert Run(l, nBlocks, next, stream, p + 1, packets) == next;
          return;
        }
        c := next;
        p := p + 1;
      }
    }
  }
}
