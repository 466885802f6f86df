/** Assembling the acoustic image of one ping: the tile scatter and the assembler. */
module AcousticImage {
  import opened Bits
  import opened Bytes
  import opened Wrappers
  import opened Packets

  // ---- Tile geometry, in the widths of the source ----

  /** first_bin + bins, in 32 bits. */
  function BinEnd(t: M0Tile): u32 {
    (t.firstBin + t.bins) % 0x1_0000_0000
  }

  /** total_bins * total_beams, in 32 bits. */
  function ImageSize(t: M0Tile): u32 {
    (t.totalBins * t.totalBeams) % 0x1_0000_0000
  }

  function DataIndex(t: M0Tile, beam: nat, bin: nat): nat {
    bin * t.totalBeams + beam
  }

  /** The array index magnitude() computes: its parameters are 16 bits wide, its difference with
      FirstBin 32 bits wide. */
  function MagnitudeIndex(t: M0Tile, beam: nat, bin: nat): u32 {
    ((bin % 0x1_0000 - t.firstBin) + (beam % 0x1_0000 - t.firstBeam) * t.bins) % 0x1_0000_0000
  }

  function Magnitude(t: M0Tile, beam: nat, bin: nat): byte {
    t.bytes(MagnitudeIndex(t, beam, bin))
  }

  /** The tile covers (beam, bin), as far as its beams fit 16 bits and its bins 32 bits. */
  predicate Visits(t: M0Tile, beam: nat, bin: nat) {
    t.firstBeam <= beam < t.firstBeam + t.beams && beam <= 0xFFFF && t.firstBin <= bin < BinEnd(t)
  }

  /** The position of (beam, bin) in the beam-major payload of the tile. */
  function LocalIndex(t: M0Tile, beam: nat, bin: nat): (k: nat)
    requires Visits(t, beam, bin)
    ensures k < t.bins * t.beams
  {
    LocalIndexBound(t, beam, bin);
    (bin - t.firstBin) + (beam - t.firstBeam) * t.bins
  }

  lemma {:induction false} LocalIndexBound(t: M0Tile, beam: nat, bin: nat)
    requires Visits(t, beam, bin)
    ensures 0 <= (beam - t.firstBeam) * t.bins
    ensures (bin - t.firstBin) + (beam - t.firstBeam) * t.bins < t.bins * t.beams
    ensures t.bins * t.beams < 0x1_0000_0000
  {
    hide BinEnd;
    var row := beam - t.firstBeam;
    RowEnd(row, t.beams, t.bins);
    RowEnd(t.beams - 1, 0xFFFF, t.bins);
    assert bin - t.firstBin < t.bins by { BinEndBound(t); }
  }

  lemma {:induction false} RowEnd(row: nat, rows: nat, width: nat)
    requires row < rows
    ensures 0 <= row * width && row * width + width == (row + 1) * width <= rows * width
  {
  }

  lemma {:induction false} BinEndBound(t: M0Tile)
    ensures BinEnd(t) <= t.firstBin + t.bins
  {
  }

  /** magnitude() returns the byte at the tile-local position exactly for the bins that fit its
      16-bit parameter. */
  lemma {:induction false} MagnitudeIsLocal(t: M0Tile, beam: nat, bin: nat)
    requires Visits(t, beam, bin)
    ensures MagnitudeIndex(t, beam, bin) == LocalIndex(t, beam, bin) <==> bin < 0x1_0000
  {
    hide BinEnd;
    LocalIndexBound(t, beam, bin);
    var lost := bin - bin % 0x1_0000;
    assert lost == 0 <==> bin < 0x1_0000;
    WrapOnce(LocalIndex(t, beam, bin), lost);
  }

  lemma {:induction false} WrapOnce(k: nat, d: nat)
    requires k < 0x1_0000_0000 && d < 0x1_0000_0000
    ensures (k - d) % 0x1_0000_0000 == k <==> d == 0
  {
    if d > k {
      assert (k - d) % 0x1_0000_0000 == k - d + 0x1_0000_0000;
    }
  }

  /** The 16-bit beam counter after n increments. */
  function BeamCounter(t: M0Tile, n: nat): u16 {
    (t.firstBeam + n) % 0x1_0000
  }

  /** The nested loops come to their n-th beam and there to this bin. The beam counter may have wrapped. */
  predicate CountsTo(t: M0Tile, n: nat, bin: nat) {
    && t.firstBin <= bin < BinEnd(t)
    && forall k :: 0 <= k <= n ==> BeamCounter(t, k) < t.firstBeam + t.beams
  }

  /** The n-th beam exists, and the byte read for it is the one at its position in the payload. */
  predicate ReadsRight(t: M0Tile, n: nat, bin: nat) {
    n < t.beams && MagnitudeIndex(t, BeamCounter(t, n), bin) == (bin - t.firstBin) + n * t.bins
  }

  /** A whole tile is read correctly if and only if it is empty or its bins and its beams fit 16 bits. */
  lemma {:induction false} TileReadCorrectly(t: M0Tile)
    ensures (forall n, bin :: CountsTo(t, n, bin) ==> ReadsRight(t, n, bin))
       <==> || t.beams == 0 || BinEnd(t) <= t.firstBin
            || (t.firstBin + t.bins <= 0x1_0000 && t.firstBeam + t.beams <= 0xFFFF)
  {
    hide MagnitudeIndex;
    assert BeamCounter(t, 0) == t.firstBeam;
    if t.beams > 0 && t.firstBin < BinEnd(t) {
      assert BinEnd(t) == t.firstBin + t.bins;
      if t.firstBeam + t.beams > 0xFFFF {
        assert CountsTo(t, t.beams, t.firstBin);
      } else {
        forall n, bin | CountsTo(t, n, bin)
          ensures ReadsRight(t, n, bin) <==> bin < 0x1_0000
        {
          NthBeam(t, n, bin);
        }
        assert CountsTo(t, 0, BinEnd(t) - 1);
      }
    }
  }

  lemma {:induction false} LastBeamStops(t: M0Tile)
    requires t.firstBeam + t.beams <= 0xFFFF
    ensures BeamCounter(t, t.beams) == t.firstBeam + t.beams
  {
  }

  lemma {:induction false} NthBeam(t: M0Tile, n: nat, bin: nat)
    requires t.firstBeam + t.beams <= 0xFFFF && CountsTo(t, n, bin)
    ensures n < t.beams && (ReadsRight(t, n, bin) <==> bin < 0x1_0000)
  {
    hide BinEnd, MagnitudeIndex;
    if n >= t.beams {
      LastBeamStops(t);
      assert false;
    }
    assert BeamCounter(t, n) == t.firstBeam + n;
    MagnitudeIsLocal(t, t.firstBeam + n, bin);
  }

  /** A tile of one beam and two bins from 65535 on: its second byte, for bin 65536, is never read. */
  lemma {:induction false} HighBinMisread(bytes: Memory)
    ensures var t := M0Tile(1, 70_000, 70_000, 65_535, 2, 1, 0, 1, bytes);
            && CountsTo(t, 0, 65_536) && LocalIndex(t, 0, 65_536) == 1 && MagnitudeIndex(t, 0, 65_536) == 0xFFFF_0001
  {
  }

  // ---- When the loops end and stay inside the buffer ----

  /** The beam loop ends if and only if its bound fits the 16-bit counter. */
  lemma {:induction false} BeamLoopEnds(t: M0Tile)
    ensures (exists n :: BeamCounter(t, n) >= t.firstBeam + t.beams) <==> t.firstBeam + t.beams <= 0xFFFF
  {
    if t.firstBeam + t.beams <= 0xFFFF {
      assert BeamCounter(t, t.beams) == t.firstBeam + t.beams;
    }
  }

  /** beam_idx * Bins, the signed product inside magnitude(). */
  function RowOffset(t: M0Tile, beam: nat): int {
    (beam - t.firstBeam) * t.bins
  }

  /** With one beam too many the counter wraps around before it reaches the bound. */
  lemma {:induction false} LastBeamNeverEnds(bytes: Memory, n: nat)
    ensures var t := M0Tile(1, 8, 8, 0, 8, 65_535, 65_532, 4, bytes);
            BeamCounter(t, n) < t.firstBeam + t.beams
  {
  }

  /** The image index lies in the buffer and in an int, and the product in magnitude() in an int. */
  predicate IndexDefined(t: M0Tile, beam: nat, bin: nat) {
    && DataIndex(t, beam, bin) < ImageSize(t) && DataIndex(t, beam, bin) < 0x8000_0000
    && RowOffset(t, beam) < 0x8000_0000
  }

  /** The loops end, and the last cell they visit has defined indices. */
  predicate InBounds(t: M0Tile) {
    && t.firstBeam + t.beams <= 0xFFFF
    && (t.beams > 0 && t.firstBin < BinEnd(t) ==> IndexDefined(t, t.firstBeam + t.beams - 1, BinEnd(t) - 1))
  }

  lemma {:induction false} DataIndexMonotone(t: M0Tile, beam: nat, bin: nat, beam': nat, bin': nat)
    requires beam <= beam' && bin <= bin'
    ensures DataIndex(t, beam, bin) <= DataIndex(t, beam', bin')
    ensures RowOffset(t, beam) <= RowOffset(t, beam')
  {
    assert bin * t.totalBeams <= bin' * t.totalBeams;
    assert (beam - t.firstBeam) * t.bins <= (beam' - t.firstBeam) * t.bins;
  }

  /** InBounds, checkable from the header of the tile, says exactly that every index is defined. */
  lemma {:induction false} InBoundsIsEveryIndex(t: M0Tile)
    ensures InBounds(t) <==>
            && t.firstBeam + t.beams <= 0xFFFF
            && forall beam, bin :: Visits(t, beam, bin) ==> IndexDefined(t, beam, bin)
  {
    hide DataIndex, RowOffset;
    if InBounds(t) {
      forall beam, bin | Visits(t, beam, bin) ensures IndexDefined(t, beam, bin) {
        DataIndexMonotone(t, beam, bin, t.firstBeam + t.beams - 1, BinEnd(t) - 1);
      }
    }
    if t.beams > 0 && t.firstBin < BinEnd(t) && t.firstBeam + t.beams <= 0xFFFF {
      assert Visits(t, t.firstBeam + t.beams - 1, BinEnd(t) - 1);
    }
  }

  lemma {:induction false} BeamsFit(t: M0Tile)
    requires InBounds(t)
    ensures t.firstBeam + t.beams <= 0xFFFF
  {
  }

  lemma {:induction false} IndicesInBuffer(t: M0Tile, beam: u16)
    requires InBounds(t) && t.firstBeam <= beam < t.firstBeam + t.beams
    ensures forall bin :: t.firstBin <= bin < BinEnd(t) ==> DataIndex(t, beam, bin) < ImageSize(t)
  {
    hide InBounds, DataIndex, RowOffset, ImageSize;
    InBoundsIsEveryIndex(t);
    BeamsFit(t);
    forall bin | t.firstBin <= bin < BinEnd(t) ensures DataIndex(t, beam, bin) < ImageSize(t) {
      assert Visits(t, beam, bin) && IndexDefined(t, beam, bin);
    }
  }

  // ---- The scatter as a function of the buffer ----

  function Put(image: seq<byte>, i: nat, v: byte): (r: seq<byte>)
    ensures |r| == |image|
  {
    if i < |image| then image[i := v] else image
  }

  /** The buffer after the inner loop wrote the bins of one beam below bin. */
  function WriteBins(image: seq<byte>, t: M0Tile, beam: nat, bin: nat): (r: seq<byte>)
    ensures |r| == |image|
    decreases bin
  {
    if bin <= t.firstBin then image
    else Put(WriteBins(image, t, beam, bin - 1), DataIndex(t, beam, bin - 1), Magnitude(t, beam, bin - 1))
  }

  /** The buffer after the outer loop wrote the beams below beam. */
  function WriteBeams(image: seq<byte>, t: M0Tile, beam: nat): (r: seq<byte>)
    ensures |r| == |image|
    decreases beam
  {
    if beam <= t.firstBeam then image
    else WriteBins(WriteBeams(image, t, beam - 1), t, beam - 1, BinEnd(t))
  }

  function Scatter(image: seq<byte>, t: M0Tile): (r: seq<byte>)
    ensures |r| == |image|
  {
    WriteBeams(image, t, t.firstBeam + t.beams)
  }

  function Zeros(n: nat): (s: seq<byte>)
    ensures |s| == n && forall i :: 0 <= i < n ==> s[i] == 0
  {
    seq(n, _ => 0)
  }

  // ---- State of the assembler, as values ----

  /** RxSampleRate * (double(TotalBins) / double(TotalSamples)), left symbolic. */
  datatype Rate = Rate(rxSampleRate: u32, totalBins: u32, totalSamples: u32)

  datatype Image = Image(seconds: u32, nanoseconds: u32, beamCount: u16,
                         txDelays: seq<u32>, txAngles: seq<u32>, rxAngles: seq<u32>,
                         samplesPerBeam: u32, sampleRate: Option<Rate>, data: seq<byte>)

  const EMPTY: Image := Image(0, 0, 0, [], [], [], 0, None, [])

  /** The part of h0_data_ that is read later. In a new assembler it is uninitialised memory. */
  datatype Stored = Stored(ping: u32, rxSampleRate: u32)

  datatype State = State(h0: Stored, image: Image)

  datatype Outcome = Incomplete | Complete | Threw

  function New(junk: Stored): State {
    State(junk, EMPTY)
  }

  /** The three per-beam vectors after the header loop. Reading A1 throws when it is absent, which
      happens in the first iteration or never. */
  function HeaderVectors(before: Image, h: H0Body, angles: Option<nat -> u32>): Image {
    match angles
    case Some(a) =>
      before.(txDelays := seq(h.beams, _ => 0), txAngles := seq(h.beams, _ => h.txSteeringVert),
            rxAngles := seq(h.beams, i requires 0 <= i < h.beams => a(i)))
    case None =>
      if h.beams == 0 then before.(txDelays := [], txAngles := [], rxAngles := [])
      else before.(txDelays := Resized(before.txDelays, h.beams, 0)[0 := 0],
                 txAngles := Resized(before.txAngles, h.beams, 0)[0 := h.txSteeringVert],
                 rxAngles := Resized(before.rxAngles, h.beams, 0))
  }

  function AfterHeader(s: State, h: H0Body, angles: Option<nat -> u32>): (State, Outcome) {
    var image := HeaderVectors(s.image.(seconds := h.seconds, nanoseconds := h.nanoseconds, beamCount := h.beams),
                               h, angles);
    (State(Stored(h.ping, h.rxSampleRate), image),
     if angles.None? && h.beams > 0 then Threw else Incomplete)
  }

  /** The buffer the tile is scattered into: cleared when its size is wrong. */
  function Prepared(image: Image, t: M0Tile): Image {
    if |image.data| != ImageSize(t) then
      image.(samplesPerBeam := t.totalBins, data := Zeros(ImageSize(t)))
    else image
  }

  function AfterTile(s: State, t: M0Tile): (State, Outcome) {
    if s.h0.ping != t.ping then (s, Incomplete) else
      var image := Prepared(s.image, t);
      var written := image.(data := Scatter(image.data, t));
      if BinEnd(t) >= t.totalBins then
        (s.(image := written.(sampleRate := Some(Rate(s.h0.rxSampleRate, t.totalBins, t.totalSamples)))), Complete)
      else (s.(image := written), Incomplete)
  }

  /** The packet is a tile the assembler will scatter. */
  predicate Accepts(s: State, p: Aid0) {
    !p.IsFirstInSeries() && p.m0.Some? && p.m0.value.ping == s.h0.ping
  }

  /** The C++ behaviour is defined. The functions on values are total; Assembler asks for this. */
  predicate Defined(s: State, p: Aid0) {
    Accepts(s, p) ==> InBounds(p.m0.value)
  }

  function AfterPacket(s: State, p: Aid0): (State, Outcome) {
    if p.IsFirstInSeries() then AfterHeader(s, p.h0.value, p.angles)
    else if p.m0.Some? then AfterTile(s, p.m0.value)
    else (s, Incomplete)
  }

  /** What a header that is read to the end says about the image. */
  ghost predicate HeadedBy(image: Image, h: H0Body, angles: Option<nat -> u32>) {
    && image.seconds == h.seconds && image.nanoseconds == h.nanoseconds && image.beamCount == h.beams
    && |image.txDelays| == |image.txAngles| == |image.rxAngles| == h.beams
    && forall i :: 0 <= i < h.beams ==>
         && image.txDelays[i] == 0 && image.txAngles[i] == h.txSteeringVert
         && angles.Some? && image.rxAngles[i] == angles.value(i)
  }

  function OldOr0(s: seq<u32>, i: nat): u32 {
    if i < |s| then s[i] else 0
  }

  /** A header leaves the magnitudes, their geometry and the sample rate alone. It throws exactly when there are
      beams but no A1 section, and then only the first beam is written; else it heads the image. */
  lemma {:induction false} HeaderEffect(s: State, h: H0Body, angles: Option<nat -> u32>)
    ensures var (a, outcome) := AfterHeader(s, h, angles);
            && a.h0 == Stored(h.ping, h.rxSampleRate)
            && a.image.data == s.image.data && a.image.samplesPerBeam == s.image.samplesPerBeam
            && a.image.sampleRate == s.image.sampleRate
            && a.image.seconds == h.seconds && a.image.nanoseconds == h.nanoseconds && a.image.beamCount == h.beams
            && |a.image.txDelays| == |a.image.txAngles| == |a.image.rxAngles| == h.beams
            && !outcome.Complete? && (outcome.Threw? <==> angles.None? && h.beams > 0)
            && (!outcome.Threw? ==> HeadedBy(a.image, h, angles))
            && (outcome.Threw? ==>
                  && a.image.txDelays[0] == 0 && a.image.txAngles[0] == h.txSteeringVert
                  && (forall i :: 0 < i < h.beams ==>
                        && a.image.txDelays[i] == OldOr0(s.image.txDelays, i)
                        && a.image.txAngles[i] == OldOr0(s.image.txAngles, i))
                  && forall i :: 0 <= i < h.beams ==> a.image.rxAngles[i] == OldOr0(s.image.rxAngles, i))
  {
  }

  /** Two images that differ at most in magnitudes, geometry and sample rate. */
  predicate SameHead(a: Image, b: Image) {
    && a.seconds == b.seconds && a.nanoseconds == b.nanoseconds && a.beamCount == b.beamCount
    && a.txDelays == b.txDelays && a.txAngles == b.txAngles && a.rxAngles == b.rxAngles
  }

  /** A tile of another ping changes nothing. A tile of this ping leaves what the header said alone, sizes the
      buffer, noting the bins only when it does so, and completes the image, noting the sample rate only when it
      does so, exactly when it reaches the last bin. */
  lemma {:induction false} TileEffect(s: State, t: M0Tile)
    ensures t.ping != s.h0.ping ==> AfterTile(s, t) == (s, Incomplete)
    ensures t.ping == s.h0.ping ==>
              var (a, outcome) := AfterTile(s, t);
              && a.h0 == s.h0 && SameHead(a.image, s.image) && |a.image.data| == ImageSize(t)
              && (|s.image.data| != ImageSize(t) ==> a.image.samplesPerBeam == t.totalBins)
              && (|s.image.data| == ImageSize(t) ==> a.image.samplesPerBeam == s.image.samplesPerBeam)
              && (outcome.Complete? <==> BinEnd(t) >= t.totalBins) && !outcome.Threw?
              && a.image.sampleRate == if outcome.Complete? then
                                         Some(Rate(s.h0.rxSampleRate, t.totalBins, t.totalSamples))
                                       else s.image.sampleRate
  {
    hide BinEnd, ImageSize, Scatter, Zeros;
  }

  /** Aid02RawAiAssembler. */
  class Assembler {
    var h0: Stored
    var seconds: u32
    var nanoseconds: u32
    var beamCount: u16
    var txDelays: seq<u32>
    var txAngles: seq<u32>
    var rxAngles: seq<u32>
    var samplesPerBeam: u32
    var sampleRate: Option<Rate>
    var data: array<byte>

    function View(): State
      reads this, data
    {
      State(h0, Image(seconds, nanoseconds, beamCount, txDelays, txAngles, rxAngles, samplesPerBeam, sampleRate,
                      data[..]))
    }

    /** junk is what the uninitialised h0_data_ happens to hold. */
    constructor (junk: Stored)
      ensures fresh(data) && View() == New(junk)
    {
      h0 := junk;
      seconds, nanoseconds, beamCount, samplesPerBeam, sampleRate := 0, 0, 0, 0, None;
      txDelays, txAngles, rxAngles := [], [], [];
      data := new byte[0];
    }

    method AddPacket(p: Aid0) returns (outcome: Outcome)
      requires Defined(View(), p)
      modifies this, data
      ensures data == old(data) || fresh(data)
      ensures (View(), outcome) == old(AfterPacket(View(), p))
    {
      if p.IsFirstInSeries() {
        outcome := AddHeader(p.h0.value, p.angles);
        return;
      }
      if p.m0.Some? {
        var t := p.m0.value;
        if h0.ping != t.ping {
          return Incomplete;
        }
        if data.Length != ImageSize(t) {
          samplesPerBeam := t.totalBins;
          data := new byte[ImageSize(t)](_ => 0);
          assert data[..] == Zeros(ImageSize(t));
        }
        ScatterInto(t);
        if BinEnd(t) >= t.totalBins {
          sampleRate := Some(Rate(h0.rxSampleRate, t.totalBins, t.totalSamples));
          return Complete;
        }
      }
      return Incomplete;
    }

    method AddHeader(h: H0Body, angles: Option<nat -> u32>) returns (outcome: Outcome)
      modifies this
      ensures data == old(data)
      ensures (View(), outcome) == old(AfterHeader(View(), h, angles))
    {
      seconds, nanoseconds := h.seconds, h.nanoseconds;
      h0 := Stored(h.ping, h.rxSampleRate);
      beamCount := h.beams;
      outcome := FillBeams(h, angles);
    }

    /** The loop over the beams of the header. */
    method FillBeams(h: H0Body, angles: Option<nat -> u32>) returns (outcome: Outcome)
      modifies `txDelays, `txAngles, `rxAngles
      ensures View().image == HeaderVectors(old(View().image), h, angles)
      ensures outcome == if angles.None? && h.beams > 0 then Threw else Incomplete
    {
      txDelays, txAngles := Resized(txDelays, h.beams, 0), Resized(txAngles, h.beams, 0);
      rxAngles := Resized(rxAngles, h.beams, 0);
      var i := 0;
      while i < h.beams
        invariant 0 <= i <= h.beams && |txDelays| == |txAngles| == |rxAngles| == h.beams
        invariant i > 0 ==> angles.Some?
        invariant i == 0 ==> txDelays == Resized(old(txDelays), h.beams, 0)
                             && txAngles == Resized(old(txAngles), h.beams, 0)
                             && rxAngles == Resized(old(rxAngles), h.beams, 0)
        invariant forall j :: 0 <= j < i ==> txDelays[j] == 0
        invariant forall j :: 0 <= j < i ==> txAngles[j] == h.txSteeringVert
        invariant forall j :: 0 <= j < i ==> rxAngles[j] == angles.value(j)
      {
        txDelays := txDelays[i := 0];
        txAngles := txAngles[i := h.txSteeringVert];
        if angles.None? {
          return Threw;
        }
        rxAngles := rxAngles[i := angles.value(i)];
        i := i + 1;
      }
      if angles.Some? {
        assert txDelays == seq(h.beams, _ => 0);
        assert txAngles == seq(h.beams, _ => h.txSteeringVert);
        assert rxAngles == seq(h.beams, j requires 0 <= j < h.beams => angles.value(j));
      }
      return Incomplete;
    }

    /** The outer loop, over the beams of the tile. */
    method ScatterInto(t: M0Tile)
      requires InBounds(t) && data.Length == ImageSize(t)
      modifies data
      ensures data[..] == Scatter(old(data[..]), t)
    {
      var beam := t.firstBeam;
      while beam < t.firstBeam + t.beams
        invariant t.firstBeam <= beam <= t.firstBeam + t.beams
        invariant data[..] == WriteBeams(old(data[..]), t, beam)
        decreases t.firstBeam + t.beams - beam
      {
        IndicesInBuffer(t, beam);
        ScatterBeam(t, beam);
        beam := (beam + 1) % 0x1_0000;
      }
    }

    /** The inner loop, over the bins of one beam. */
    method ScatterBeam(t: M0Tile, beam: u16)
      requires forall bin :: t.firstBin <= bin < BinEnd(t) ==> DataIndex(t, beam, bin) < data.Length
      modifies data
      ensures data[..] == WriteBins(old(data[..]), t, beam, BinEnd(t))
    {
      hide DataIndex, Magnitude, BinEnd;
      var bin, end := t.firstBin, BinEnd(t);
      if end <= bin {
        return;
      }
      while bin < end
        invariant t.firstBin <= bin <= end
        invariant data[..] == WriteBins(old(data[..]), t, beam, bin)
      {
        WriteCell(DataIndex(t, beam, bin), Magnitude(t, beam, bin));
        bin := (bin + 1) % 0x1_0000_0000;
      }
    }

    method WriteCell(i: nat, mag: byte)
      requires i < data.Length
      modifies data
      ensures data[..] == Put(old(data[..]), i, mag)
    {
      data[i] := mag;
    }
  }
}
