/** What a sequence of packets does to an image: the last tile covering a cell decides it. */
module Reassembly {
  import opened Bits
  import opened Wrappers
  import opened Packets
  import opened AcousticImage

  // ---- One tile ----

  /** A tile of a totalBins x totalBeams image, all of whose bins fit magnitude()'s parameter. */
  predicate TileOf(t: M0Tile, totalBins: nat, totalBeams: nat) {
    && t.totalBins == totalBins && t.totalBeams == totalBeams
    && t.firstBin + t.bins <= totalBins && t.firstBeam + t.beams <= totalBeams
    && t.firstBin + t.bins <= 0x1_0000 && totalBins * totalBeams < 0x8000_0000
  }

  /** The cell of (bin, beam) in the bin-major image; zero outside the buffer. */
  function Pixel(data: seq<byte>, totalBeams: nat, bin: nat, beam: nat): byte {
    if bin * totalBeams + beam < |data| then data[bin * totalBeams + beam] else 0
  }

  /** The byte a tile carries for a cell it covers, beam-major on the wire. */
  function TileByte(t: M0Tile, bin: nat, beam: nat): byte
    requires Visits(t, beam, bin)
  {
    t.bytes(LocalIndex(t, beam, bin))
  }

  lemma {:induction false} CellInside(totalBins: nat, totalBeams: nat, bin: nat, beam: nat)
    requires bin < totalBins && beam < totalBeams
    ensures bin * totalBeams + beam < totalBins * totalBeams
  {
    assert bin * totalBeams + totalBeams == (bin + 1) * totalBeams <= totalBins * totalBeams;
  }

  /** Distinct cells have distinct indices. */
  lemma {:induction false} CellsDistinct(totalBeams: nat, bin: nat, beam: nat, bin': nat, beam': nat)
    requires beam < totalBeams && beam' < totalBeams
    requires bin * totalBeams + beam == bin' * totalBeams + beam'
    ensures bin == bin' && beam == beam'
  {
    if bin < bin' {
      CellInside(bin', totalBeams, bin, beam);
    } else if bin' < bin {
      CellInside(bin, totalBeams, bin', beam');
    }
  }

  lemma {:induction false} TileOfBounds(t: M0Tile, totalBins: nat, totalBeams: nat)
    requires TileOf(t, totalBins, totalBeams)
    ensures BinEnd(t) == t.firstBin + t.bins && ImageSize(t) == totalBins * totalBeams
    ensures InBounds(t)
  {
    if t.beams > 0 && t.bins > 0 {
      LastCellDefined(t, totalBins, totalBeams);
    }
  }

  lemma {:induction false} LastCellDefined(t: M0Tile, totalBins: nat, totalBeams: nat)
    requires TileOf(t, totalBins, totalBeams) && t.beams > 0 && t.bins > 0
    requires ImageSize(t) == totalBins * totalBeams
    ensures IndexDefined(t, t.firstBeam + t.beams - 1, t.firstBin + t.bins - 1)
  {
    hide ImageSize;
    CellInside(totalBins, totalBeams, t.firstBin + t.bins - 1, t.firstBeam + t.beams - 1);
    RowEnd(t.beams - 1, totalBeams, t.bins);
    RowEnd(t.bins - 1, totalBins, totalBeams);
  }

  lemma {:induction false} PutPixel(image: seq<byte>, totalBins: nat, totalBeams: nat, b: nat, c: nat, v: byte,
                                    bin: nat, beam: nat)
    requires |image| == totalBins * totalBeams && b < totalBins && c < totalBeams
    requires bin < totalBins && beam < totalBeams
    ensures Pixel(Put(image, b * totalBeams + c, v), totalBeams, bin, beam)
         == if b == bin && c == beam then v else Pixel(image, totalBeams, bin, beam)
  {
    CellInside(totalBins, totalBeams, b, c);
    CellInside(totalBins, totalBeams, bin, beam);
    if b * totalBeams + c == bin * totalBeams + beam {
      CellsDistinct(totalBeams, b, c, bin, beam);
    }
  }

  lemma {:induction false} IndexOfCell(t: M0Tile, beam: nat, bin: nat)
    ensures DataIndex(t, beam, bin) == bin * t.totalBeams + beam
  {
  }

  lemma {:induction false} WriteBinsPixel(image: seq<byte>, t: M0Tile, c: nat, end: nat,
                                          totalBins: nat, totalBeams: nat, bin: nat, beam: nat)
    requires TileOf(t, totalBins, totalBeams) && |image| == totalBins * totalBeams
    requires t.firstBeam <= c < t.firstBeam + t.beams && end <= BinEnd(t)
    requires bin < totalBins && beam < totalBeams
    ensures Pixel(WriteBins(image, t, c, end), totalBeams, bin, beam)
         == if beam == c && t.firstBin <= bin < end then Magnitude(t, beam, bin)
            else Pixel(image, totalBeams, bin, beam)
    decreases end
  {
    hide Magnitude, Pixel, Put, DataIndex, BinEnd, ImageSize, InBounds;
    TileOfBounds(t, totalBins, totalBeams);
    if end <= t.firstBin {
    } else {
      IndexOfCell(t, c, end - 1);
      WriteBinsPixel(image, t, c, end - 1, totalBins, totalBeams, bin, beam);
      PutPixel(WriteBins(image, t, c, end - 1), totalBins, totalBeams, end - 1, c, Magnitude(t, c, end - 1), bin, beam);
    }
  }

  lemma {:induction false} WriteBeamsPixel(image: seq<byte>, t: M0Tile, end: nat, totalBins: nat, totalBeams: nat,
                                           bin: nat, beam: nat)
    requires TileOf(t, totalBins, totalBeams) && |image| == totalBins * totalBeams
    requires end <= t.firstBeam + t.beams
    requires bin < totalBins && beam < totalBeams
    ensures Pixel(WriteBeams(image, t, end), totalBeams, bin, beam)
         == if t.firstBeam <= beam < end && t.firstBin <= bin < BinEnd(t) then Magnitude(t, beam, bin)
            else Pixel(image, totalBeams, bin, beam)
    decreases end
  {
    hide Magnitude, Pixel, BinEnd, InBounds;
    if end <= t.firstBeam {
    } else {
      WriteBeamsPixel(image, t, end - 1, totalBins, totalBeams, bin, beam);
      WriteBinsPixel(WriteBeams(image, t, end - 1), t, end - 1, BinEnd(t), totalBins, totalBeams, bin, beam);
    }
  }

  /** The scatter writes exactly the rectangle of the tile, each cell with the tile-local byte, and
      leaves every other cell of the buffer alone. */
  lemma {:induction false} ScatterPixel(image: seq<byte>, t: M0Tile, totalBins: nat, totalBeams: nat,
                                        bin: nat, beam: nat)
    requires TileOf(t, totalBins, totalBeams) && |image| == totalBins * totalBeams
    requires bin < totalBins && beam < totalBeams
    ensures Pixel(Scatter(image, t), totalBeams, bin, beam)
         == if Visits(t, beam, bin) then TileByte(t, bin, beam) else Pixel(image, totalBeams, bin, beam)
  {
    hide Pixel, LocalIndex, MagnitudeIndex, InBounds;
    TileOfBounds(t, totalBins, totalBeams);
    WriteBeamsPixel(image, t, t.firstBeam + t.beams, totalBins, totalBeams, bin, beam);
    if Visits(t, beam, bin) {
      MagnitudeIsLocal(t, beam, bin);
    }
  }

  // ---- Sequences of packets ----

  function Feed(s: State, ps: seq<Aid0>): State {
    if ps == [] then s else AfterPacket(Feed(s, ps[..|ps| - 1]), ps[|ps| - 1]).0
  }

  /** The tiles the assembler accepts along the way, in order. */
  function Tiles(s: State, ps: seq<Aid0>): seq<M0Tile> {
    if ps == [] then [] else
      var before, p := ps[..|ps| - 1], ps[|ps| - 1];
      if Accepts(Feed(s, before), p) then Tiles(s, before) + [p.m0.value] else Tiles(s, before)
  }

  /** The byte of the last tile covering the cell, or base. */
  function LastByte(ts: seq<M0Tile>, bin: nat, beam: nat, base: byte): byte {
    if ts == [] then base
    else if Visits(ts[|ts| - 1], beam, bin) then TileByte(ts[|ts| - 1], bin, beam)
    else LastByte(ts[..|ts| - 1], bin, beam, base)
  }

  ghost predicate AllTilesOf(ts: seq<M0Tile>, totalBins: nat, totalBeams: nat) {
    forall i :: 0 <= i < |ts| ==> TileOf(ts[i], totalBins, totalBeams)
  }

  /** What a cell holds before the first tile: a buffer of another size is cleared, one of the same
      size is kept. */
  function Base(s: State, totalBins: nat, totalBeams: nat, bin: nat, beam: nat): byte {
    if |s.image.data| == totalBins * totalBeams then Pixel(s.image.data, totalBeams, bin, beam) else 0
  }

  lemma {:induction false} ZeroPixel(totalBins: nat, totalBeams: nat, bin: nat, beam: nat)
    ensures Pixel(Zeros(totalBins * totalBeams), totalBeams, bin, beam) == 0
  {
  }

  /** A packet that is not an accepted tile leaves the buffer alone. */
  lemma {:induction false} NotAccepted(s: State, p: Aid0)
    requires !Accepts(s, p)
    ensures AfterPacket(s, p).0.image.data == s.image.data
  {
  }

  /** Size of the buffer after any sequence of packets. */
  lemma {:induction false} FeedSize(s: State, ps: seq<Aid0>, totalBins: nat, totalBeams: nat)
    requires AllTilesOf(Tiles(s, ps), totalBins, totalBeams)
    ensures Tiles(s, ps) == [] ==> Feed(s, ps).image.data == s.image.data
    ensures Tiles(s, ps) != [] ==> |Feed(s, ps).image.data| == totalBins * totalBeams
  {
    hide Scatter, Zeros, BinEnd, ImageSize, InBounds;
    if ps == [] {
    } else {
      var before, p := ps[..|ps| - 1], ps[|ps| - 1];
      var ts := Tiles(s, ps);
      if Accepts(Feed(s, before), p) {
        assert Tiles(s, before) == ts[..|ts| - 1];
        TileOfBounds(p.m0.value, totalBins, totalBeams) by { assert p.m0.value == ts[|ts| - 1]; }
      } else {
        NotAccepted(Feed(s, before), p);
      }
      FeedSize(s, before, totalBins, totalBeams);
    }
  }

  /** Last writer wins: after any sequence of packets whose accepted tiles belong to one image
      geometry, every cell holds the byte of the last accepted tile covering it. */
  lemma {:induction false} LastWriterWins(s: State, ps: seq<Aid0>, totalBins: nat, totalBeams: nat, bin: nat, beam: nat)
    requires AllTilesOf(Tiles(s, ps), totalBins, totalBeams) && Tiles(s, ps) != []
    requires bin < totalBins && beam < totalBeams
    ensures Pixel(Feed(s, ps).image.data, totalBeams, bin, beam)
         == LastByte(Tiles(s, ps), bin, beam, Base(s, totalBins, totalBeams, bin, beam))
  {
    hide Scatter, Zeros, BinEnd, ImageSize, Pixel, Visits, TileByte, InBounds;
    var before, p := ps[..|ps| - 1], ps[|ps| - 1];
    var ts, now := Tiles(s, ps), Feed(s, before);
    if Accepts(now, p) {
      var t := p.m0.value;
      assert Tiles(s, before) == ts[..|ts| - 1] && t == ts[|ts| - 1];
      FeedSize(s, before, totalBins, totalBeams);
      TileOfBounds(t, totalBins, totalBeams);
      ZeroPixel(totalBins, totalBeams, bin, beam);
      ScatterPixel(Prepared(now.image, t).data, t, totalBins, totalBeams, bin, beam);
      if Tiles(s, before) != [] {
        LastWriterWins(s, before, totalBins, totalBeams, bin, beam);
      }
    } else {
      NotAccepted(now, p);
      LastWriterWins(s, before, totalBins, totalBeams, bin, beam);
    }
  }

  // ---- The rest of the image ----

  predicate NoHeader(ps: seq<Aid0>) {
    forall i :: 0 <= i < |ps| ==> ps[i].h0.None?
  }

  lemma {:induction false} TileKeepsHead(s: State, p: Aid0)
    requires p.h0.None?
    ensures SameHead(AfterPacket(s, p).0.image, s.image) && AfterPacket(s, p).0.h0 == s.h0
  {
    hide AfterTile;
    if p.m0.Some? {
      TileEffect(s, p.m0.value);
    }
  }

  /** Without headers, everything a header says stays as it is. */
  lemma {:induction false} TilesKeepHead(s: State, ps: seq<Aid0>)
    requires NoHeader(ps)
    ensures SameHead(Feed(s, ps).image, s.image) && Feed(s, ps).h0 == s.h0
  {
    hide AfterPacket;
    if ps == [] {
    } else {
      TilesKeepHead(s, ps[..|ps| - 1]);
      TileKeepsHead(Feed(s, ps[..|ps| - 1]), ps[|ps| - 1]);
    }
  }

  /** A header that is read to the end: A1 is there whenever there are beams. */
  predicate WholeHeader(p: Aid0) {
    p.h0.Some? && (p.angles.Some? || p.h0.value.beams == 0)
  }

  lemma {:induction false} SameHeadHeaded(a: Image, b: Image, p: Aid0)
    requires SameHead(a, b) && p.h0.Some? && HeadedBy(b, p.h0.value, p.angles)
    ensures HeadedBy(a, p.h0.value, p.angles)
  {
    forall i | 0 <= i < p.h0.value.beams
      ensures a.txDelays[i] == 0 && a.txAngles[i] == p.h0.value.txSteeringVert
      ensures p.angles.Some? && a.rxAngles[i] == p.angles.value(i)
    {
      assert b.txDelays[i] == 0 && b.txAngles[i] == p.h0.value.txSteeringVert;
      assert b.rxAngles[i] == p.angles.value(i);
    }
  }

  /** After any packets the image has the stamp, the beams, the steering and the angles of the last header. */
  lemma {:induction false} LastHeaderWins(s: State, ps: seq<Aid0>, k: nat)
    requires k < |ps| && WholeHeader(ps[k]) && forall i :: k < i < |ps| ==> ps[i].h0.None?
    ensures HeadedBy(Feed(s, ps).image, ps[k].h0.value, ps[k].angles)
    ensures Feed(s, ps).h0 == Stored(ps[k].h0.value.ping, ps[k].h0.value.rxSampleRate)
    decreases |ps|
  {
    var before, last := ps[..|ps| - 1], ps[|ps| - 1];
    if k == |ps| - 1 {
      hide AfterHeader, HeadedBy;
      HeaderEffect(Feed(s, before), last.h0.value, last.angles);
    } else {
      hide AfterPacket, HeadedBy, SameHead;
      LastHeaderWins(s, before, k);
      TileKeepsHead(Feed(s, before), last);
      SameHeadHeaded(Feed(s, ps).image, Feed(s, before).image, ps[k]);
    }
  }

  /** The bins are noted when the buffer is sized, which does not happen when its size fits already. */
  lemma {:induction false} BinsNoted(s: State, ps: seq<Aid0>, totalBins: nat, totalBeams: nat)
    requires AllTilesOf(Tiles(s, ps), totalBins, totalBeams)
    ensures Feed(s, ps).image.samplesPerBeam ==
            if Tiles(s, ps) == [] || |s.image.data| == totalBins * totalBeams then s.image.samplesPerBeam
            else totalBins
  {
    hide AfterTile, AfterHeader, BinEnd, ImageSize, InBounds;
    if ps == [] {
    } else {
      var before, p := ps[..|ps| - 1], ps[|ps| - 1];
      var now, ts := Feed(s, before), Tiles(s, ps);
      if Accepts(now, p) {
        assert Tiles(s, before) == ts[..|ts| - 1] && p.m0.value == ts[|ts| - 1];
        TileOfBounds(p.m0.value, totalBins, totalBeams);
        TileEffect(now, p.m0.value);
      } else if p.h0.Some? {
        HeaderEffect(now, p.h0.value, p.angles);
      } else if p.m0.Some? {
        TileEffect(now, p.m0.value);
      }
      FeedSize(s, before, totalBins, totalBeams);
      BinsNoted(s, before, totalBins, totalBeams);
    }
  }

  /** A packet that completes an image is a tile, and notes its sample rate. */
  lemma {:induction false} CompletingTile(s: State, p: Aid0)
    requires AfterPacket(s, p).1.Complete?
    ensures p.h0.None? && p.m0.Some?
    ensures AfterPacket(s, p).0.image.sampleRate
         == Some(Rate(s.h0.rxSampleRate, p.m0.value.totalBins, p.m0.value.totalSamples))
  {
    hide AfterTile;
    if p.h0.None? && p.m0.Some? {
      TileEffect(s, p.m0.value);
    }
  }

  // ---- Order independence ----

  /** Tiles covering the same cell carry the same byte for it. Disjoint tiles agree, and so do
      repetitions of one tile. */
  ghost predicate Agree(ts: seq<M0Tile>) {
    forall i, j, bin, beam :: 0 <= i < |ts| && 0 <= j < |ts| && Visits(ts[i], beam, bin) && Visits(ts[j], beam, bin) ==>
      TileByte(ts[i], bin, beam) == TileByte(ts[j], bin, beam)
  }

  ghost predicate Disjoint(ts: seq<M0Tile>) {
    forall i, j, bin, beam :: 0 <= i < j < |ts| ==> !(Visits(ts[i], beam, bin) && Visits(ts[j], beam, bin))
  }

  lemma {:induction false} DisjointTilesAgree(ts: seq<M0Tile>)
    requires Disjoint(ts)
    ensures Agree(ts)
  {
    forall i, j, bin, beam | 0 <= i < |ts| && 0 <= j < |ts| && Visits(ts[i], beam, bin) && Visits(ts[j], beam, bin)
      ensures TileByte(ts[i], bin, beam) == TileByte(ts[j], bin, beam)
    {
      assert i == j;
    }
  }

  ghost predicate Covered(ts: seq<M0Tile>, bin: nat, beam: nat) {
    exists i :: 0 <= i < |ts| && Visits(ts[i], beam, bin)
  }

  /** LastByte comes from some covering tile, or there is none and it is the base. */
  lemma {:induction false} LastByteOrigin(ts: seq<M0Tile>, bin: nat, beam: nat, base: byte) returns (i: nat)
    ensures Covered(ts, bin, beam) ==>
              i < |ts| && Visits(ts[i], beam, bin) && LastByte(ts, bin, beam, base) == TileByte(ts[i], bin, beam)
    ensures !Covered(ts, bin, beam) ==> LastByte(ts, bin, beam, base) == base
  {
    hide Visits, TileByte;
    i := 0;
    if ts == [] {
    } else {
      var front, last := ts[..|ts| - 1], ts[|ts| - 1];
      if Visits(last, beam, bin) {
        i := |ts| - 1;
      } else {
        i := LastByteOrigin(front, bin, beam, base);
        if Covered(ts, bin, beam) {
          var j :| 0 <= j < |ts| && Visits(ts[j], beam, bin);
          assert front[j] == ts[j];
        }
        if Covered(front, bin, beam) {
          assert front[i] == ts[i];
        }
      }
    }
  }

  /** The same header fields and the same payload; what lies in memory behind the payload may differ. */
  ghost predicate SameTile(t: M0Tile, u: M0Tile) {
    && t.(bytes := u.bytes) == u
    && forall k :: 0 <= k < t.bins * t.beams ==> t.bytes(k) == u.bytes(k)
  }

  ghost predicate Among(t: M0Tile, us: seq<M0Tile>) {
    exists j :: 0 <= j < |us| && SameTile(t, us[j])
  }

  /** Every tile of ts is among us, too. */
  ghost predicate Included(ts: seq<M0Tile>, us: seq<M0Tile>) {
    forall i :: 0 <= i < |ts| ==> Among(ts[i], us)
  }

  lemma {:induction false} SameTileSameBytes(t: M0Tile, u: M0Tile, bin: nat, beam: nat)
    requires SameTile(t, u)
    ensures Visits(t, beam, bin) <==> Visits(u, beam, bin)
    ensures Visits(t, beam, bin) ==> TileByte(t, bin, beam) == TileByte(u, bin, beam)
  {
    hide LocalIndex;
    if Visits(t, beam, bin) {
      SameLocalIndex(t, u, bin, beam);
      assert t.bytes(LocalIndex(t, beam, bin)) == u.bytes(LocalIndex(t, beam, bin));
    }
  }

  lemma {:induction false} SameLocalIndex(t: M0Tile, u: M0Tile, bin: nat, beam: nat)
    requires t.(bytes := u.bytes) == u && Visits(t, beam, bin)
    ensures Visits(u, beam, bin) && LocalIndex(t, beam, bin) == LocalIndex(u, beam, bin)
  {
  }

  /** A covered cell has a covering tile with the same byte on the other side. */
  lemma {:induction false} TwinOf(ts: seq<M0Tile>, us: seq<M0Tile>, i: nat, bin: nat, beam: nat) returns (j: nat)
    requires Included(ts, us) && i < |ts| && Visits(ts[i], beam, bin)
    ensures j < |us| && Visits(us[j], beam, bin) && TileByte(us[j], bin, beam) == TileByte(ts[i], bin, beam)
  {
    hide Visits, TileByte, SameTile;
    assert Among(ts[i], us);
    j :| 0 <= j < |us| && SameTile(ts[i], us[j]);
    SameTileSameBytes(ts[i], us[j], bin, beam);
  }

  /** The order and the multiplicity in which the tiles arrive do not matter. */
  lemma {:induction false} LastByteOfSet(ts: seq<M0Tile>, us: seq<M0Tile>, bin: nat, beam: nat, base: byte)
    requires Agree(ts) && Included(ts, us) && Included(us, ts)
    ensures LastByte(ts, bin, beam, base) == LastByte(us, bin, beam, base)
  {
    hide Visits, TileByte, SameTile, Included;
    var i := LastByteOrigin(ts, bin, beam, base);
    var j := LastByteOrigin(us, bin, beam, base);
    if Covered(ts, bin, beam) {
      var k := TwinOf(ts, us, i, bin, beam);
    }
    if Covered(us, bin, beam) {
      var k := TwinOf(us, ts, j, bin, beam);
    }
  }

  /** A buffer is determined by its pixels. */
  lemma {:induction false} SamePixels(a: seq<byte>, b: seq<byte>, totalBins: nat, totalBeams: nat)
    requires |a| == |b| == totalBins * totalBeams
    requires forall bin, beam :: 0 <= bin < totalBins && 0 <= beam < totalBeams ==>
      Pixel(a, totalBeams, bin, beam) == Pixel(b, totalBeams, bin, beam)
    ensures a == b
  {
    forall i | 0 <= i < |a| ensures a[i] == b[i] {
      var bin, beam := CellOf(i, totalBins, totalBeams);
      assert Pixel(a, totalBeams, bin, beam) == Pixel(b, totalBeams, bin, beam);
    }
  }

  lemma {:induction false} MulMonotone(a: nat, b: nat, c: nat)
    ensures a <= b ==> a * c <= b * c
  {
  }

  lemma {:induction false} CellOf(i: nat, totalBins: nat, totalBeams: nat) returns (bin: nat, beam: nat)
    requires i < totalBins * totalBeams
    ensures bin < totalBins && beam < totalBeams && i == bin * totalBeams + beam
  {
    bin, beam := i / totalBeams, i % totalBeams;
    MulMonotone(totalBins, bin, totalBeams);
  }

  lemma {:induction false} IncludedTilesOf(ts: seq<M0Tile>, us: seq<M0Tile>, totalBins: nat, totalBeams: nat)
    requires AllTilesOf(ts, totalBins, totalBeams) && Included(us, ts)
    ensures AllTilesOf(us, totalBins, totalBeams)
  {
    forall i | 0 <= i < |us| ensures TileOf(us[i], totalBins, totalBeams) {
      assert Among(us[i], ts);
      var j :| 0 <= j < |ts| && SameTile(us[i], ts[j]);
      assert TileOf(ts[j], totalBins, totalBeams);
    }
  }

  lemma {:induction false} BothOrNone(ts: seq<M0Tile>, us: seq<M0Tile>)
    requires Included(ts, us) && Included(us, ts)
    ensures ts == [] <==> us == []
  {
    hide SameTile;
    assert us != [] ==> Among(us[0], ts);
    assert ts != [] ==> Among(ts[0], us);
  }

  /** Order independence: two packet sequences that deliver the same tiles, in any order and with any
      repetition, leave the same image bytes. */
  lemma {:induction false} OrderIndependence(s: State, ps: seq<Aid0>, qs: seq<Aid0>, totalBins: nat, totalBeams: nat)
    requires AllTilesOf(Tiles(s, ps), totalBins, totalBeams) && Agree(Tiles(s, ps))
    requires Included(Tiles(s, ps), Tiles(s, qs)) && Included(Tiles(s, qs), Tiles(s, ps))
    ensures Feed(s, ps).image.data == Feed(s, qs).image.data
  {
    hide Pixel, TileOf, SameTile, Feed, Tiles;
    var ts, us := Tiles(s, ps), Tiles(s, qs);
    IncludedTilesOf(ts, us, totalBins, totalBeams);
    FeedSize(s, ps, totalBins, totalBeams);
    FeedSize(s, qs, totalBins, totalBeams);
    BothOrNone(ts, us);
    if ts != [] {
      forall bin, beam | 0 <= bin < totalBins && 0 <= beam < totalBeams
        ensures Pixel(Feed(s, ps).image.data, totalBeams, bin, beam)
             == Pixel(Feed(s, qs).image.data, totalBeams, bin, beam)
      {
        LastWriterWins(s, ps, totalBins, totalBeams, bin, beam);
        LastWriterWins(s, qs, totalBins, totalBeams, bin, beam);
        LastByteOfSet(ts, us, bin, beam, Base(s, totalBins, totalBeams, bin, beam));
      }
      SamePixels(Feed(s, ps).image.data, Feed(s, qs).image.data, totalBins, totalBeams);
    }
  }

  // ---- Cutting an image and putting it together ----

  /** Magnitudes by bin and beam. */
  type Matrix = (nat, nat) -> byte

  ghost predicate CutFrom(t: M0Tile, m: Matrix) {
    forall bin, beam :: Visits(t, beam, bin) ==> TileByte(t, bin, beam) == m(bin, beam)
  }

  ghost predicate AllCutFrom(ts: seq<M0Tile>, m: Matrix) {
    forall i :: 0 <= i < |ts| ==> CutFrom(ts[i], m)
  }

  ghost predicate IsImage(data: seq<byte>, m: Matrix, totalBins: nat, totalBeams: nat) {
    && |data| == totalBins * totalBeams
    && forall bin, beam :: 0 <= bin < totalBins && 0 <= beam < totalBeams ==>
         Pixel(data, totalBeams, bin, beam) == m(bin, beam)
  }

  /** Every cell that is not zero anyway is covered. */
  ghost predicate CoversNonzero(ts: seq<M0Tile>, m: Matrix, totalBins: nat, totalBeams: nat) {
    forall bin, beam :: 0 <= bin < totalBins && 0 <= beam < totalBeams && m(bin, beam) != 0 ==> Covered(ts, bin, beam)
  }

  /** Starting from an empty buffer, a cell gets its magnitude if it is covered and zero if not. */
  lemma {:induction false} CutPixel(s: State, ps: seq<Aid0>, m: Matrix, totalBins: nat, totalBeams: nat,
                                    bin: nat, beam: nat)
    requires s.image.data == [] && Tiles(s, ps) != []
    requires AllTilesOf(Tiles(s, ps), totalBins, totalBeams) && AllCutFrom(Tiles(s, ps), m)
    requires bin < totalBins && beam < totalBeams
    ensures Pixel(Feed(s, ps).image.data, totalBeams, bin, beam)
         == if Covered(Tiles(s, ps), bin, beam) then m(bin, beam) else 0
  {
    hide TileOf, Visits, TileByte, Pixel, Feed, Tiles;
    assert Base(s, totalBins, totalBeams, bin, beam) == 0 by {
      CellInside(totalBins, totalBeams, bin, beam);
    }
    LastWriterWins(s, ps, totalBins, totalBeams, bin, beam);
    var i := LastByteOrigin(Tiles(s, ps), bin, beam, 0);
  }

  /** Starting from an empty buffer, tiles cut from a matrix reassemble it if and only if they cover
      every cell that is not zero. */
  lemma {:induction false} ReassembledIff(s: State, ps: seq<Aid0>, m: Matrix, totalBins: nat, totalBeams: nat)
    requires s.image.data == [] && Tiles(s, ps) != []
    requires AllTilesOf(Tiles(s, ps), totalBins, totalBeams) && AllCutFrom(Tiles(s, ps), m)
    ensures IsImage(Feed(s, ps).image.data, m, totalBins, totalBeams)
       <==> CoversNonzero(Tiles(s, ps), m, totalBins, totalBeams)
  {
    hide TileOf, Visits, Pixel, Feed, Tiles, Covered;
    FeedSize(s, ps, totalBins, totalBeams);
    forall bin, beam | 0 <= bin < totalBins && 0 <= beam < totalBeams
      ensures Pixel(Feed(s, ps).image.data, totalBeams, bin, beam)
           == if Covered(Tiles(s, ps), bin, beam) then m(bin, beam) else 0
    {
      CutPixel(s, ps, m, totalBins, totalBeams, bin, beam);
    }
  }
}
