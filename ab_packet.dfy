/** Layout of one AB spectrometer packet header and the decoding of its
    48-bit integration counter.

    The header is 8 bytes: bytes 0..5 hold the integration counter, byte 6 the
    spectral quarter, byte 7 the beam. The adapter reads the 8 header bytes
    through an `unsigned long*`, so on a little-endian host header byte i has
    weight 2^(8i) in the loaded word; the counter is then the low 48 bits of
    that word with its six bytes reversed. */
module ABPacket {

  /** Bytes of the integration counter. */
  const IntegCountSize: nat := 6
  /** Bytes of the whole header: counter, spectral quarter, beam. */
  const HeaderSize: nat := 8
  /** Offset of the spectral-quarter byte. */
  const SpecQuartOffset: nat := 6
  /** Offset of the beam byte. */
  const BeamOffset: nat := 7

  const Mask48: bv64 := 0x0000_FFFF_FFFF_FFFF

  /** The decoded header fields. */
  datatype Header = Header(integCount: nat, specQuart: nat, beam: nat)

  /** Byte k (k = 0 least significant) of a 64-bit word. */
  function ByteOf(w: bv64, k: nat): bv8
    requires k < 8
  {
    if k == 0 then (w & 0xFF) as bv8
    else if k == 1 then ((w >> 8) & 0xFF) as bv8
    else if k == 2 then ((w >> 16) & 0xFF) as bv8
    else if k == 3 then ((w >> 24) & 0xFF) as bv8
    else if k == 4 then ((w >> 32) & 0xFF) as bv8
    else if k == 5 then ((w >> 40) & 0xFF) as bv8
    else if k == 6 then ((w >> 48) & 0xFF) as bv8
    else ((w >> 56) & 0xFF) as bv8
  }

  /** The unsigned value of a 64-bit word, as its base-256 expansion. */
  function Value(w: bv64): nat
  {
    (((((((ByteOf(w, 7) as nat * 256 + ByteOf(w, 6) as nat) * 256 + ByteOf(w, 5) as nat) * 256
          + ByteOf(w, 4) as nat) * 256 + ByteOf(w, 3) as nat) * 256 + ByteOf(w, 2) as nat) * 256
       + ByteOf(w, 1) as nat) * 256 + ByteOf(w, 0) as nat)
  }

  /** The value of one byte as a digit in base 256. */
  function Digit(b: bv8): (d: nat)
    ensures d < 256
  {
    b as nat
  }

  /** 256 to the power `k`: the number of values `k` bytes can hold. */
  function Pow256(k: nat): (p: nat)
    ensures p > 0
  {
    if k == 0 then 1 else 256 * Pow256(k - 1)
  }

  /** Big-endian reading of a byte string: the first byte is the most
      significant; `k` bytes read below 256^k. */
  function BigEndian(h: seq<bv8>): (n: nat)
    ensures n < Pow256(|h|)
    decreases |h|
  {
    if |h| == 0 then 0
    else
      var front := BigEndian(h[..|h| - 1]);
      assert front + 1 <= Pow256(|h| - 1);
      front * 256 + Digit(h[|h| - 1])
  }

  /** Big-endian reading of the six counter bytes. */
  function BigEndian48(h: seq<bv8>): (n: nat)
    requires |h| >= IntegCountSize
    ensures n < 0x1_0000_0000_0000
  {
    assert Pow256(IntegCountSize) == 0x1_0000_0000_0000;
    BigEndian(h[..IntegCountSize])
  }

  /** The six counter bytes, first byte most significant, as base-256
      digits. */
  lemma BigEndian48Digits(h: seq<bv8>)
    requires |h| >= IntegCountSize
    ensures BigEndian48(h)
            == ((((Digit(h[0]) * 256 + Digit(h[1])) * 256 + Digit(h[2])) * 256 + Digit(h[3])) * 256
                + Digit(h[4])) * 256 + Digit(h[5])
  {
    var x := h[..IntegCountSize];
    assert x[..0] == [];
    assert x[..1][..0] == x[..0] && x[..2][..1] == x[..1] && x[..3][..2] == x[..2];
    assert x[..4][..3] == x[..3] && x[..5][..4] == x[..4] && x[..6][..5] == x[..5] && x[..6] == x;
    assert BigEndian(x[..1]) == Digit(h[0]);
    assert BigEndian(x[..2]) == BigEndian(x[..1]) * 256 + Digit(h[1]);
    assert BigEndian(x[..3]) == BigEndian(x[..2]) * 256 + Digit(h[2]);
    assert BigEndian(x[..4]) == BigEndian(x[..3]) * 256 + Digit(h[3]);
    assert BigEndian(x[..5]) == BigEndian(x[..4]) * 256 + Digit(h[4]);
    assert BigEndian(x) == BigEndian(x[..5]) * 256 + Digit(h[5]);
  }

  /** The 8 header bytes loaded as one little-endian word and masked to its
      low 48 bits: only the six counter bytes survive, in their stored order. */
  function LoadCounter(header: seq<bv8>): (counter: bv64)
    requires |header| >= HeaderSize
    ensures counter <= Mask48
    ensures ByteOf(counter, 0) == header[0] && ByteOf(counter, 1) == header[1]
    ensures ByteOf(counter, 2) == header[2] && ByteOf(counter, 3) == header[3]
    ensures ByteOf(counter, 4) == header[4] && ByteOf(counter, 5) == header[5]
    ensures ByteOf(counter, 6) == 0 && ByteOf(counter, 7) == 0
  {
    ((header[0] as bv64)
     | ((header[1] as bv64) << 8)
     | ((header[2] as bv64) << 16)
     | ((header[3] as bv64) << 24)
     | ((header[4] as bv64) << 32)
     | ((header[5] as bv64) << 40)
     | ((header[6] as bv64) << 48)
     | ((header[7] as bv64) << 56)) & Mask48
  }

  /** The mask-and-shift expression that turns the loaded counter into the
      integration count. */
  function ReverseCounter(counter: bv64): (integCount: bv64)
    ensures integCount <= Mask48
  {
    ((counter & 0x0000_FF00_0000_0000) >> 40)
    + ((counter & 0x0000_00FF_0000_0000) >> 24)
    + ((counter & 0x0000_0000_FF00_0000) >> 8)
    + ((counter & 0x0000_0000_00FF_0000) << 8)
    + ((counter & 0x0000_0000_0000_FF00) << 24)
    + ((counter & 0x0000_0000_0000_00FF) << 40)
  }

  /** ReverseCounter moves byte k of the 48-bit counter to byte 5 - k and
      leaves the top two bytes zero. */
  lemma ReverseCounterBytes(counter: bv64, k: nat)
    requires k < 8
    ensures k < IntegCountSize ==> ByteOf(ReverseCounter(counter), k) == ByteOf(counter, 5 - k)
    ensures k >= IntegCountSize ==> ByteOf(ReverseCounter(counter), k) == 0
  {
  }

  /** Reversing twice gives back the masked counter. */
  lemma ReverseCounterInvolution(counter: bv64)
    ensures ReverseCounter(ReverseCounter(counter)) == counter & Mask48
  {
  }

  /** The reversed counter has the header's counter bytes in big-endian
      order: header byte 5 is its least significant byte. */
  lemma ReversedCounterBytes(header: seq<bv8>)
    requires |header| >= HeaderSize
    ensures var r := ReverseCounter(LoadCounter(header));
            && ByteOf(r, 0) == header[5] && ByteOf(r, 1) == header[4] && ByteOf(r, 2) == header[3]
            && ByteOf(r, 3) == header[2] && ByteOf(r, 4) == header[1] && ByteOf(r, 5) == header[0]
            && ByteOf(r, 6) == 0 && ByteOf(r, 7) == 0
  {
    var c := LoadCounter(header);
    ReverseCounterBytes(c, 0);
    ReverseCounterBytes(c, 1);
    ReverseCounterBytes(c, 2);
    ReverseCounterBytes(c, 3);
    ReverseCounterBytes(c, 4);
    ReverseCounterBytes(c, 5);
    ReverseCounterBytes(c, 6);
    ReverseCounterBytes(c, 7);
  }

  /** The integration count of a packet header (the source's `integCount`):
      the value of the reversed counter, which is the big-endian reading of
      the six counter bytes. */
  function IntegCount(header: seq<bv8>): (ic: nat)
    requires |header| >= HeaderSize
    ensures ic < 0x1_0000_0000_0000
    ensures ic == BigEndian48(header)
  {
    ReversedCounterBytes(header);
    BigEndian48Digits(header);
    Value(ReverseCounter(LoadCounter(header)))
  }

  /** The header fields as the wire format defines them: a big-endian
      48-bit counter followed by the quarter and beam bytes. */
  function Fields(header: seq<bv8>): Header
    requires |header| >= HeaderSize
  {
    Header(BigEndian48(header), header[SpecQuartOffset] as nat, header[BeamOffset] as nat)
  }

  /** Decodes the three header fields through the adapter's word load and
      byte reversal; the result is the wire format's reading. */
  function ParseHeader(header: seq<bv8>): (h: Header)
    requires |header| >= HeaderSize
    ensures h == Fields(header)
    ensures h.integCount == BigEndian48(header)
    ensures h.specQuart == header[SpecQuartOffset] as nat && h.specQuart < 256
    ensures h.beam == header[BeamOffset] as nat && h.beam < 256
  {
    Header(IntegCount(header), header[SpecQuartOffset] as nat, header[BeamOffset] as nat)
  }

  /** Worked example: the stored bytes 01 02 03 04 05 06 decode to the 48-bit
      count 0x010203040506, whatever the quarter and beam bytes are. */
  lemma DecodeExample(q: bv8, beam: bv8)
    ensures IntegCount([0x01, 0x02, 0x03, 0x04, 0x05, 0x06, q, beam]) == 0x0102_0304_0506
  {
  }
}
