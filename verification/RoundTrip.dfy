/** Cutting an image into datagrams, sending them through the node among other pings, and getting the
    image back. */
module RoundTrip {
  import opened Bits
  import opened Bytes
  import opened Wrappers
  import opened Sections
  import opened Packets
  import opened AcousticImage
  import opened Reassembly
  import opened Node
  import opened Runs

  // ---- One ping alone: a header, then tiles ----

  predicate IsHeaderStep(st: Step, ping: u32) {
    WholeHeader(st.packet) && st.packet.m0.None? && st.packet.h0.value.ping == ping
  }

  predicate IsTileStep(st: Step, ping: u32) {
    st.packet.h0.None? && st.packet.m0.Some? && st.packet.m0.value.ping == ping
  }

  ghost predicate AllTileSteps(ts: seq<Step>, ping: u32) {
    forall i :: 0 <= i < |ts| ==> IsTileStep(ts[i], ping)
  }

  /** The tile reaches the last bin, which is what addPacket takes for completion. */
  predicate Reaches(st: Step) {
    st.packet.m0.Some? && BinEnd(st.packet.m0.value) >= st.packet.m0.value.totalBins
  }

  function TilesOf(ts: seq<Step>, ping: u32): (us: seq<M0Tile>)
    requires AllTileSteps(ts, ping)
    ensures |us| == |ts|
  {
    seq(|ts|, i requires 0 <= i < |ts| => ts[i].packet.m0.value)
  }

  /** The header starts an assembler with an empty buffer for its ping. */
  lemma {:induction false} LoneHeader(images: seq<Image>, h: Step, ping: u32) returns (s: State)
    requires IsHeaderStep(h, ping)
    ensures LoneStep(Lone(None, images), h) == Lone(Some(s), images)
    ensures s.h0 == Stored(ping, h.packet.h0.value.rxSampleRate)
    ensures s.image.data == [] && s.image.samplesPerBeam == 0 && HeadedBy(s.image, h.packet.h0.value, h.packet.angles)
  {
    hide AfterHeader, HeadedBy;
    HeaderEffect(New(h.junk), h.packet.h0.value, h.packet.angles);
    s := AfterPacket(New(h.junk), h.packet).0;
  }

  /** A tile of the ping is accepted; it completes the image if and only if it reaches the last bin. */
  lemma {:induction false} TileStep(s: State, t: Step, ping: u32)
    requires IsTileStep(t, ping) && s.h0.ping == ping
    ensures Accepts(s, t.packet) && AfterPacket(s, t.packet).0.h0.ping == ping
    ensures AfterPacket(s, t.packet).1.Complete? <==> Reaches(t)
    ensures !AfterPacket(s, t.packet).1.Threw?
  {
    hide BinEnd, AfterTile;
    TileEffect(s, t.packet.m0.value);
  }

  lemma {:induction false} PacketsOfSnoc(ts: seq<Step>)
    requires ts != []
    ensures PacketsOf(ts)[..|ts| - 1] == PacketsOf(ts[..|ts| - 1])
    ensures PacketsOf(ts)[|ts| - 1] == ts[|ts| - 1].packet
  {
  }

  /** Every tile of the ping is accepted, in order. */
  lemma {:induction false} AllAccepted(s: State, ts: seq<Step>, ping: u32)
    requires AllTileSteps(ts, ping) && s.h0.ping == ping
    ensures Feed(s, PacketsOf(ts)).h0.ping == ping
    ensures Tiles(s, PacketsOf(ts)) == TilesOf(ts, ping)
  {
    hide AfterPacket, IsTileStep;
    if ts == [] {
    } else {
      var before, last := ts[..|ts| - 1], ts[|ts| - 1];
      AllAccepted(s, before, ping);
      PacketsOfSnoc(ts);
      TileStep(Feed(s, PacketsOf(before)), last, ping);
      assert TilesOf(ts, ping) == TilesOf(before, ping) + [last.packet.m0.value];
    }
  }

  /** While no tile reaches the last bin the assembler only accumulates. */
  lemma {:induction false} LonePending(s: State, images: seq<Image>, ts: seq<Step>, ping: u32)
    requires AllTileSteps(ts, ping) && s.h0.ping == ping
    requires forall i :: 0 <= i < |ts| ==> !Reaches(ts[i])
    ensures LoneRun(Lone(Some(s), images), ts) == Lone(Some(Feed(s, PacketsOf(ts))), images)
  {
    hide AfterPacket, IsTileStep, Reaches;
    if ts == [] {
    } else {
      var before, last := ts[..|ts| - 1], ts[|ts| - 1];
      LonePending(s, images, before, ping);
      PacketsOfSnoc(ts);
      AllAccepted(s, before, ping);
      TileStep(Feed(s, PacketsOf(before)), last, ping);
    }
  }

  /** The first tile that reaches the last bin publishes what has been accumulated. */
  lemma {:induction false} LoneCompletes(s: State, images: seq<Image>, ts: seq<Step>, ping: u32)
    requires AllTileSteps(ts, ping) && s.h0.ping == ping && ts != []
    requires forall i :: 0 <= i < |ts| - 1 ==> !Reaches(ts[i])
    requires Reaches(ts[|ts| - 1])
    ensures LoneRun(Lone(Some(s), images), ts) == Lone(None, images + [Feed(s, PacketsOf(ts)).image])
  {
    hide AfterPacket, IsTileStep, Reaches;
    var before, last := ts[..|ts| - 1], ts[|ts| - 1];
    LonePending(s, images, before, ping);
    PacketsOfSnoc(ts);
    AllAccepted(s, before, ping);
    TileStep(Feed(s, PacketsOf(before)), last, ping);
  }

  /** A header and tiles of which only the last reaches the last bin publish what the tiles have assembled. */
  lemma {:induction false} LonePublishes(images: seq<Image>, h: Step, ts: seq<Step>, ping: u32) returns (s: State)
    requires WholeImage(h, ts, ping)
    ensures s.h0.ping == ping && s.image.data == [] && s.image.samplesPerBeam == 0
    ensures LoneRun(Lone(None, images), [h] + ts) == Lone(None, images + [Feed(s, PacketsOf(ts)).image])
    ensures HasHeaderOf(Feed(s, PacketsOf(ts)).image, h, ts[|ts| - 1])
  {
    hide IsHeaderStep, IsTileStep, Reaches, LoneStep, LoneRun, Feed, HasHeaderOf, HeadedBy;
    s := LoneHeader(images, h, ping);
    HeaderStays(s, h, ts, ping);
    LoneRunOne(Lone(None, images), h);
    LoneRunConcat(Lone(None, images), [h], ts);
    LoneCompletes(s, images, ts, ping);
  }

  /** A header of the ping, then tiles of the ping of which only the last one reaches the last bin. */
  ghost predicate WholeImage(h: Step, ts: seq<Step>, ping: u32) {
    && IsHeaderStep(h, ping) && AllTileSteps(ts, ping) && ts != []
    && forall i :: 0 <= i < |ts| ==> (Reaches(ts[i]) <==> i == |ts| - 1)
  }

  /** The image has everything the header says, and the sample rate of the header and of the last tile. */
  ghost predicate HasHeaderOf(image: Image, h: Step, last: Step) {
    && h.packet.h0.Some? && last.packet.m0.Some?
    && HeadedBy(image, h.packet.h0.value, h.packet.angles)
    && image.sampleRate == Some(Rate(h.packet.h0.value.rxSampleRate, last.packet.m0.value.totalBins,
                                     last.packet.m0.value.totalSamples))
  }

  lemma {:induction false} HeaderStays(s: State, h: Step, ts: seq<Step>, ping: u32)
    requires WholeImage(h, ts, ping) && s.h0 == Stored(ping, h.packet.h0.value.rxSampleRate)
    requires HeadedBy(s.image, h.packet.h0.value, h.packet.angles)
    ensures HasHeaderOf(Feed(s, PacketsOf(ts)).image, h, ts[|ts| - 1])
  {
    hide AfterPacket, HeadedBy, Reaches, SameHead;
    var ps, before, last := PacketsOf(ts), ts[..|ts| - 1], ts[|ts| - 1];
    forall i | 0 <= i < |ps| ensures ps[i].h0.None? {
      assert IsTileStep(ts[i], ping);
    }
    TilesKeepHead(s, ps);
    SameHeadHeaded(Feed(s, ps).image, s.image, h.packet);
    PacketsOfSnoc(ts);
    assert NoHeader(PacketsOf(before));
    TilesKeepHead(s, PacketsOf(before));
    TileStep(Feed(s, PacketsOf(before)), last, ping);
    CompletingTile(Feed(s, PacketsOf(before)), last.packet);
  }

  lemma {:induction false} LoneRunOne(l: Lone, st: Step)
    ensures LoneRun(l, [st]) == LoneStep(l, st)
  {
    assert [st][..0] == [];
  }

  lemma {:induction false} LoneRunConcat(l: Lone, a: seq<Step>, b: seq<Step>)
    ensures LoneRun(l, a + b) == LoneRun(LoneRun(l, a), b)
  {
    hide LoneStep;
    if b == [] {
      assert a + b == a;
    } else {
      var before, last := b[..|b| - 1], b[|b| - 1];
      LoneRunConcat(l, a, before);
      assert (a + b)[..|a + b| - 1] == a + before;
    }
  }

  // ---- What comes after the publication ----

  /** The ping number in the entry after these events, if they publish nothing. The first packet after the start or
      after an eviction makes a new entry over uninitialised memory; a header overwrites the number. */
  function StoredPing(es: seq<Event>): Option<u32> {
    if es == [] then None else
      match es[|es| - 1]
      case Evicted => None
      case Own(st) =>
        if st.packet.h0.Some? then Some(st.packet.h0.value.ping)
        else
          var before := StoredPing(es[..|es| - 1]);
          if before.Some? then before else Some(st.junk.ping)
  }

  /** The n-th event is a tile that reaches the last bin and finds its ping number stored. */
  predicate CompletesAgain(es: seq<Event>, n: nat)
    requires n < |es|
  {
    && es[n].Own? && es[n].step.packet.h0.None? && Reaches(es[n].step)
    && StoredPing(es[..n + 1]) == Some(es[n].step.packet.m0.value.ping)
  }

  ghost predicate IsQuiet(es: seq<Event>) {
    forall n :: 0 <= n < |es| ==> !CompletesAgain(es, n)
  }

  lemma {:induction false} QuietSnoc(es: seq<Event>)
    requires es != []
    ensures IsQuiet(es) <==> IsQuiet(es[..|es| - 1]) && !CompletesAgain(es, |es| - 1)
  {
    hide Reaches, StoredPing;
    var front := es[..|es| - 1];
    forall n | 0 <= n < |front| ensures CompletesAgain(front, n) <==> CompletesAgain(es, n) {
      assert front[..n + 1] == es[..n + 1];
    }
  }

  /** What one packet does to an entry, as far as its ping number and completion go. */
  lemma {:induction false} PacketOutcome(s: State, p: Aid0)
    ensures AfterPacket(s, p).0.h0.ping == if p.h0.Some? then p.h0.value.ping else s.h0.ping
    ensures AfterPacket(s, p).1.Complete? <==>
              && p.h0.None? && p.m0.Some? && p.m0.value.ping == s.h0.ping
              && BinEnd(p.m0.value) >= p.m0.value.totalBins
  {
    hide BinEnd, AfterTile, AfterHeader;
    if p.h0.Some? {
      HeaderEffect(s, p.h0.value, p.angles);
    } else if p.m0.Some? {
      TileEffect(s, p.m0.value);
    }
  }

  lemma {:induction false} LaterEvent(es: seq<Event>, l: Lone)
    requires es != []
    requires match StoredPing(es[..|es| - 1])
             case None => l.entry.None?
             case Some(number) => l.entry.Some? && l.entry.value.h0.ping == number
    ensures var next := LoneEvent(l, es[|es| - 1]);
            if CompletesAgain(es, |es| - 1) then l.images < next.images
            else
              && next.images == l.images
              && match StoredPing(es)
                 case None => next.entry.None?
                 case Some(number) => next.entry.Some? && next.entry.value.h0.ping == number
  {
    hide AfterPacket;
    assert es[..|es|] == es;
    if es[|es| - 1].Own? {
      var st := es[|es| - 1].step;
      PacketOutcome(if l.entry.Some? then l.entry.value else New(st.junk), st.packet);
    }
  }

  /** Images are never taken back. */
  lemma {:induction false} ImagesGrow(l: Lone, es: seq<Event>)
    ensures l.images <= LoneLife(l, es).images
  {
    hide AfterPacket;
    if es == [] {
    } else {
      ImagesGrow(l, es[..|es| - 1]);
    }
  }

  /** Whatever happens to a ping without an entry, it publishes nothing if and only if it is quiet: no tile that
      reaches the last bin finds its ping number stored, be it by a header or by uninitialised memory. */
  lemma {:induction false} QuietIff(images: seq<Image>, es: seq<Event>)
    ensures LoneLife(Lone(None, images), es).images == images <==> IsQuiet(es)
    ensures IsQuiet(es) ==>
              var l := LoneLife(Lone(None, images), es);
              match StoredPing(es)
              case None => l.entry.None?
              case Some(number) => l.entry.Some? && l.entry.value.h0.ping == number
  {
    if es == [] {
    } else {
      hide LoneEvent, StoredPing, CompletesAgain, IsQuiet;
      var front := es[..|es| - 1];
      QuietIff(images, front);
      QuietSnoc(es);
      ImagesGrow(Lone(None, images), front);
      EventGrows(LoneLife(Lone(None, images), front), es[|es| - 1]);
      if IsQuiet(front) {
        LaterEvent(es, LoneLife(Lone(None, images), front));
      }
    }
  }

  lemma {:induction false} EventGrows(l: Lone, e: Event)
    ensures l.images <= LoneEvent(l, e).images
  {
    hide AfterPacket;
  }

  lemma {:induction false} LoneLifeConcat(l: Lone, a: seq<Event>, b: seq<Event>)
    ensures LoneLife(l, a + b) == LoneLife(LoneLife(l, a), b)
  {
    hide LoneEvent;
    if b == [] {
      assert a + b == a;
    } else {
      var before, last := b[..|b| - 1], b[|b| - 1];
      LoneLifeConcat(l, a, before);
      assert (a + b)[..|a + b| - 1] == a + before;
    }
  }

  // ---- The ping among others ----

  /** In any run in which a ping gets its header and then tiles up to the first that reaches the last bin, without
      being evicted meanwhile, it is published on that tile. Whatever comes later, it is published once if and only
      if that is quiet. The published image has what the header says, and it is the matrix its tiles were cut from
      if and only if these cover every cell that is not zero. */
  lemma {:induction false} PublishedOnce(s: NodeState, steps: seq<Step>, ping: u32, h: Step, ts: seq<Step>,
                                         later: seq<Event>, m: Matrix, totalBins: nat, totalBeams: nat)
    returns (image: Image)
    requires ping !in s.assemblers && WholeImage(h, ts, ping)
    requires EventsOf(s, steps, ping) == Owns([h] + ts) + later
    requires AllTilesOf(TilesOf(ts, ping), totalBins, totalBeams) && AllCutFrom(TilesOf(ts, ping), m)
    ensures ImagesOf(s.published, ping) + [image] <= ImagesOf(Run(s, steps).published, ping)
    ensures ImagesOf(Run(s, steps).published, ping) == ImagesOf(s.published, ping) + [image] <==> IsQuiet(later)
    ensures IsImage(image.data, m, totalBins, totalBeams)
       <==> CoversNonzero(TilesOf(ts, ping), m, totalBins, totalBeams)
    ensures HasHeaderOf(image, h, ts[|ts| - 1])
    ensures image.samplesPerBeam == if totalBins * totalBeams == 0 then 0 else totalBins
    ensures later == [] ==> ping !in Run(s, steps).assemblers
  {
    hide Run, LoneRun, LoneLife, HasHeaderOf, IsHeaderStep, IsTileStep, Reaches, Feed, Tiles, ImagesOf, IsImage,
         CoversNonzero, AllTilesOf, AllCutFrom, IsQuiet, EventsOf;
    var images := ImagesOf(s.published, ping);
    LifeOfPing(s, steps, ping);
    LoneLifeConcat(Lone(None, images), Owns([h] + ts), later);
    LifeOfOwn(Lone(None, images), [h] + ts);
    var start := LonePublishes(images, h, ts, ping);
    image := Feed(start, PacketsOf(ts)).image;
    QuietIff(images + [image], later);
    ImagesGrow(Lone(None, images + [image]), later);
    assert later == [] ==> LoneLife(Lone(None, images + [image]), later).entry.None? by {
      LifeNone(Lone(None, images + [image]));
    }
    AllAccepted(start, ts, ping);
    ReassembledIff(start, PacketsOf(ts), m, totalBins, totalBeams);
    BinsNoted(start, PacketsOf(ts), totalBins, totalBeams);
  }

  lemma {:induction false} LifeNone(l: Lone)
    ensures LoneLife(l, []) == l
  {
  }

  // ---- Down to the bytes ----

  /** Where a tile is cut out of the image. */
  datatype Rect = Rect(firstBin: u32, bins: u16, firstBeam: u16, beams: u16)

  datatype Ping = Ping(number: u32, totalSamples: u32, totalBins: u32, totalBeams: u16)

  predicate Inside(r: Rect, p: Ping) {
    && r.firstBin + r.bins <= p.totalBins && r.firstBeam + r.beams <= p.totalBeams
    && p.totalBins <= 0x1_0000 && p.totalBins * p.totalBeams < 0x8000_0000
    && r.bins * r.beams + 36 < 0x1_0000
  }

  predicate InRect(r: Rect, bin: nat, beam: nat) {
    r.firstBin <= bin < r.firstBin + r.bins && r.firstBeam <= beam < r.firstBeam + r.beams
  }

  function PayloadAt(m: Matrix, r: Rect, k: nat): byte {
    if r.bins == 0 then 0 else m(r.firstBin + k % r.bins, r.firstBeam + k / r.bins)
  }

  /** The magnitudes of the rectangle, beam after beam. */
  function Payload(m: Matrix, r: Rect): (s: seq<byte>)
    ensures |s| == r.bins * r.beams
  {
    seq(r.bins * r.beams, k requires 0 <= k => PayloadAt(m, r, k))
  }

  function TileFields(p: Ping, r: Rect): seq<nat> {
    [p.number, 0, p.totalSamples, p.totalBins, r.firstBin, r.bins, p.totalBeams, r.firstBeam, r.beams, 0]
  }

  lemma {:induction false} TileFieldsFit(p: Ping, r: Rect)
    ensures Fit(M0Widths(), TileFields(p, r))
  {
    Width2();
    Width4();
  }

  /** The memory starts with the datagram of this tile of the matrix. */
  ghost predicate IsTileDatagram(mem: Memory, p: Ping, r: Rect, m: Matrix)
    requires Inside(r, p)
  {
    TileFieldsFit(p, r);
    TileWritable(p, r, m);
    IsDatagram(mem, TileContents(TileFields(p, r), Payload(m, r)))
  }

  lemma {:induction false} TileWritable(p: Ping, r: Rect, m: Matrix)
    requires Inside(r, p) && Fit(M0Widths(), TileFields(p, r))
    ensures Writable(AID0_CHAIN, TileContents(TileFields(p, r), Payload(m, r)))
  {
    M0Offsets();
  }

  lemma {:induction false} DivModOf(row: nat, col: nat, width: nat)
    requires col < width
    ensures (col + row * width) % width == col && (col + row * width) / width == row
  {
    var x := col + row * width;
    DivMod(x, width);
    SameQuotient(x, width, x / width, x % width, row, col);
  }

  lemma {:induction false} DivMod(x: nat, width: nat)
    requires width > 0
    ensures x == (x / width) * width + x % width && x % width < width
  {
  }

  lemma {:induction false} SameQuotient(x: nat, width: nat, q: nat, r: nat, row: nat, col: nat)
    requires x == q * width + r && r < width && x == row * width + col && col < width
    ensures q == row && r == col
  {
    if q < row {
      RowEnd(q, row, width);
    } else if row < q {
      RowEnd(row, q, width);
    }
  }

  /** A tile datagram decodes to a tile of the image, cut from the matrix. */
  lemma {:induction false} TileDatagramIsCut(mem: Memory, p: Ping, r: Rect, m: Matrix)
    requires Inside(r, p) && IsTileDatagram(mem, p, r, m)
    ensures var a := Decode(mem);
            && a.h0.None? && a.m0.Some? && a.m0.value.ping == p.number && a.m0.value.totalSamples == p.totalSamples
            && TileOf(a.m0.value, p.totalBins, p.totalBeams)
            && CutFrom(a.m0.value, m)
            && (BinEnd(a.m0.value) >= a.m0.value.totalBins <==> r.firstBin + r.bins == p.totalBins)
            && forall bin, beam :: Visits(a.m0.value, beam, bin) <==> InRect(r, bin, beam)
  {
    hide Decode, IsDatagram, Payload, DataIndex, MagnitudeIndex;
    TileFieldsFit(p, r);
    TileWritable(p, r, m);
    TileDatagramDecodes(mem, TileFields(p, r), Payload(m, r));
    var t := Decode(mem).m0.value;
    assert TileOf(t, p.totalBins, p.totalBeams);
    assert BinEnd(t) == r.firstBin + r.bins;
    forall bin, beam | Visits(t, beam, bin) ensures TileByte(t, bin, beam) == m(bin, beam) {
      PayloadByte(m, r, bin, beam);
    }
  }

  lemma {:induction false} PayloadByte(m: Matrix, r: Rect, bin: nat, beam: nat)
    requires InRect(r, bin, beam)
    ensures var k := (bin - r.firstBin) + (beam - r.firstBeam) * r.bins;
            0 <= k < |Payload(m, r)| && Payload(m, r)[k] == m(bin, beam)
  {
    var row, col := beam - r.firstBeam, bin - r.firstBin;
    RowEnd(row, r.beams, r.bins);
    DivModOf(row, col, r.bins);
  }

  /** A header datagram of the ping, with clear bytes behind it. */
  ghost predicate IsHeaderDatagram(mem: Memory, p: Ping, fields: seq<nat>, a1: seq<byte>) {
    && Fit(H0Widths(), fields) && fields[4] == p.number
    && Writable(AID0_CHAIN, HeaderContents(fields, a1))
    && IsDatagram(mem, HeaderContents(fields, a1))
    && !Exists(mem, MINI_HEADER + 120 + |a1|, M0)
  }

  lemma {:induction false} HeaderDatagramStarts(mem: Memory, p: Ping, fields: seq<nat>, a1: seq<byte>, junk: Stored)
    requires IsHeaderDatagram(mem, p, fields, a1)
    ensures IsHeaderStep(Step(Decode(mem), junk), p.number)
  {
    hide Decode, IsDatagram, Exists;
    HeaderDatagramDecodes(mem, fields, a1);
  }

  /** The rectangles cut the image up, and only the last one reaches the last bin. */
  ghost predicate Cuts(rects: seq<Rect>, p: Ping) {
    && rects != []
    && (forall i :: 0 <= i < |rects| ==> Inside(rects[i], p))
    && (forall bin, beam :: 0 <= bin < p.totalBins && 0 <= beam < p.totalBeams ==> InSome(rects, bin, beam))
    && (forall i :: 0 <= i < |rects| ==>
          (rects[i].firstBin + rects[i].bins == p.totalBins <==> i == |rects| - 1))
  }

  ghost predicate InSome(rects: seq<Rect>, bin: nat, beam: nat) {
    exists i :: 0 <= i < |rects| && InRect(rects[i], bin, beam)
  }

  /** These steps are the receipt of the datagrams of these tiles. */
  ghost predicate Received(ts: seq<Step>, mems: seq<Memory>, p: Ping, rects: seq<Rect>, m: Matrix)
    requires Cuts(rects, p)
  {
    && |ts| == |mems| == |rects|
    && forall i :: 0 <= i < |ts| ==> ts[i].packet == Decode(mems[i]) && IsTileDatagram(mems[i], p, rects[i], m)
  }

  lemma {:induction false} ReceivedTile(ts: seq<Step>, mems: seq<Memory>, p: Ping, rects: seq<Rect>, m: Matrix, i: nat)
    requires Cuts(rects, p) && Received(ts, mems, p, rects, m) && i < |ts|
    ensures IsTileStep(ts[i], p.number)
    ensures TileOf(ts[i].packet.m0.value, p.totalBins, p.totalBeams) && CutFrom(ts[i].packet.m0.value, m)
    ensures ts[i].packet.m0.value.totalBins == p.totalBins && ts[i].packet.m0.value.totalSamples == p.totalSamples
    ensures Reaches(ts[i]) <==> i == |ts| - 1
    ensures forall bin, beam :: Visits(ts[i].packet.m0.value, beam, bin) <==> InRect(rects[i], bin, beam)
  {
    hide Decode, CutFrom, IsTileDatagram, Visits, InRect, BinEnd, Inside;
    TileDatagramIsCut(mems[i], p, rects[i], m);
  }

  lemma {:induction false} CutIsWholeImage(steps: seq<Step>, p: Ping, m: Matrix, rects: seq<Rect>, fields: seq<nat>,
                                             a1: seq<byte>, header: Memory, mems: seq<Memory>, h: Step, ts: seq<Step>)
    requires Cuts(rects, p) && Received(ts, mems, p, rects, m)
    requires IsHeaderDatagram(header, p, fields, a1) && h.packet == Decode(header)
    requires Only(steps, p.number) == [h] + ts
    ensures WholeImage(h, ts, p.number)
  {
    hide Only, Reaches, IsHeaderStep, IsTileStep, IsHeaderDatagram, Visits, InRect, TileOf, CutFrom, Decode, Received;
    HeaderDatagramStarts(header, p, fields, a1, h.junk);
    assert h == Step(Decode(header), h.junk);
    ReceivedCount(ts, mems, p, rects, m);
    forall i | 0 <= i < |ts|
      ensures IsTileStep(ts[i], p.number) && (Reaches(ts[i]) <==> i == |ts| - 1)
    {
      ReceivedTile(ts, mems, p, rects, m, i);
    }
  }

  /** The image has everything the two kinds of datagrams say besides magnitudes. Fields 2, 3, 12, 17 and 25 of H0
      are the seconds, the nanoseconds, the transmit steering, the sample rate and the number of beams. */
  ghost predicate SaysWhatWasSent(image: Image, p: Ping, fields: seq<nat>, a1: seq<byte>) {
    && |fields| == 26
    && image.seconds == fields[2] && image.nanoseconds == fields[3] && image.beamCount == fields[25]
    && |image.txDelays| == |image.txAngles| == |image.rxAngles| == fields[25]
    && (forall i :: 0 <= i < fields[25] ==> image.txDelays[i] == 0 && image.txAngles[i] == fields[12])
    && (forall i :: 0 <= i < fields[25] && 24 + 4 * i + 4 <= |a1| ==>
          image.rxAngles[i] == BigEndian(a1[24 + 4 * i..24 + 4 * i + 4]))
    && image.samplesPerBeam == (if p.totalBins * p.totalBeams == 0 then 0 else p.totalBins)
    && image.sampleRate.Some? && image.sampleRate.value.rxSampleRate == fields[17]
    && image.sampleRate.value.totalBins == p.totalBins && image.sampleRate.value.totalSamples == p.totalSamples
  }

  lemma {:induction false} HeaderWasSent(mem: Memory, p: Ping, fields: seq<nat>, a1: seq<byte>, h: Step, last: Step,
                                         image: Image)
    requires IsHeaderDatagram(mem, p, fields, a1) && h.packet == Decode(mem) && HasHeaderOf(image, h, last)
    requires last.packet.m0.value.totalBins == p.totalBins && last.packet.m0.value.totalSamples == p.totalSamples
    requires image.samplesPerBeam == if p.totalBins * p.totalBeams == 0 then 0 else p.totalBins
    ensures SaysWhatWasSent(image, p, fields, a1)
  {
    hide Decode, IsDatagram, Exists, BigEndian, Writable, Pow256;
    HeaderDatagramDecodes(mem, fields, a1);
    assert |fields| == 26 by { H0Offsets(); }
    forall i | 0 <= i < fields[25] && 24 + 4 * i + 4 <= |a1|
      ensures image.rxAngles[i] == BigEndian(a1[24 + 4 * i..24 + 4 * i + 4])
    {
      HeaderAnglesDecode(mem, fields, a1, i);
    }
  }

  /** Cut and reassemble: cut any matrix into tiles of which only the last reaches the last bin, send
      the header datagram and the tile datagrams, interleaved with any packets of other pings that do not
      evict this one; the node publishes the ping exactly once, and the published image is the matrix and says what
      the datagrams say. What happens before its header or after its last tile does not matter: no entry can be
      evicted then. */
  lemma {:induction false} CutAndReassemble(s: NodeState, steps: seq<Step>, p: Ping, m: Matrix, rects: seq<Rect>,
                                            fields: seq<nat>, a1: seq<byte>, header: Memory, mems: seq<Memory>,
                                            h: Step, ts: seq<Step>) returns (image: Image)
    requires Cuts(rects, p) && Received(ts, mems, p, rects, m)
    requires IsHeaderDatagram(header, p, fields, a1) && h.packet == Decode(header)
    requires Only(steps, p.number) == [h] + ts
    requires p.number !in s.assemblers && Undisturbed(s, steps, p.number)
    ensures ImagesOf(Run(s, steps).published, p.number) == ImagesOf(s.published, p.number) + [image]
    ensures IsImage(image.data, m, p.totalBins, p.totalBeams) && SaysWhatWasSent(image, p, fields, a1)
    ensures p.number !in Run(s, steps).assemblers
  {
    hide Undisturbed, Run, Only, Reaches, IsHeaderStep, IsTileStep, IsHeaderDatagram, ImagesOf, Visits, InRect,
         TileOf, CutFrom, Decode, Received, IsImage, HasHeaderOf, SaysWhatWasSent;
    var ping := p.number;
    CutIsWholeImage(steps, p, m, rects, fields, a1, header, mems, h, ts);
    ReceivedCount(ts, mems, p, rects, m);
    var us := TilesOf(ts, ping);
    forall i | 0 <= i < |us|
      ensures TileOf(us[i], p.totalBins, p.totalBeams) && CutFrom(us[i], m)
      ensures forall bin, beam :: Visits(us[i], beam, bin) <==> InRect(rects[i], bin, beam)
    {
      ReceivedTile(ts, mems, p, rects, m, i);
    }
    CoveredByRects(us, rects, p, m);
    UndisturbedEvents(s, steps, ping);
    assert Owns([h] + ts) + [] == Owns([h] + ts);
    image := PublishedOnce(s, steps, ping, h, ts, [], m, p.totalBins, p.totalBeams);
    ReceivedTile(ts, mems, p, rects, m, |ts| - 1);
    HeaderWasSent(header, p, fields, a1, h, ts[|ts| - 1], image);
  }

  lemma {:induction false} ReceivedCount(ts: seq<Step>, mems: seq<Memory>, p: Ping, rects: seq<Rect>, m: Matrix)
    requires Cuts(rects, p) && Received(ts, mems, p, rects, m)
    ensures |ts| == |rects| > 0
  {
  }

  lemma {:induction false} CoveredByRects(us: seq<M0Tile>, rects: seq<Rect>, p: Ping, m: Matrix)
    requires Cuts(rects, p) && |us| == |rects|
    requires forall i, bin, beam :: 0 <= i < |us| ==> (Visits(us[i], beam, bin) <==> InRect(rects[i], bin, beam))
    ensures CoversNonzero(us, m, p.totalBins, p.totalBeams)
  {
    hide Visits, InRect, Inside;
    forall bin, beam | 0 <= bin < p.totalBins && 0 <= beam < p.totalBeams ensures Covered(us, bin, beam) {
      assert InSome(rects, bin, beam);
      var i :| 0 <= i < |rects| && InRect(rects[i], bin, beam);
      assert Visits(us[i], beam, bin);
    }
  }

  // ---- The node object, from datagrams to images ----

  /** A ping that is complete with its last packet is undisturbed when the pings in between are nearby. */
  lemma {:induction false} CompleteIsUndisturbed(s: NodeState, steps: seq<Step>, ping: u32, h: Step, ts: seq<Step>)
    requires ping !in s.assemblers && NearbyPings(steps, ping)
    requires Only(steps, ping) == [h] + ts && WholeImage(h, ts, ping)
    ensures Undisturbed(s, steps, ping)
  {
    hide Only, NearbyPings, WholeImage, LoneRun, Feed, Undisturbed, ImagesOf;
    var start := LonePublishes(ImagesOf(s.published, ping), h, ts, ping);
    NearbyIsUndisturbed(s, steps, ping);
  }

  lemma {:induction false} StepReceived(mems: seq<Memory>, junks: seq<Stored>, i: nat)
    requires |mems| == |junks| && i < |mems| && IsType(mems[i], AID0)
    ensures Step(Decode(mems[i]), junks[i]) in StepsOf(mems, junks)
  {
    hide Decode, IsType;
    var n := |mems| - 1;
    if i == n {
    } else {
      StepReceived(mems[..n], junks[..n], i);
    }
  }

  lemma {:induction false} OwnIsKept(steps: seq<Step>, ping: u32, i: nat)
    requires i < |steps| && steps[i].Ping() == ping
    ensures steps[i] in Only(steps, ping)
  {
    hide Aid0.PingNo;
    if i < |steps| - 1 {
      OwnIsKept(steps[..|steps| - 1], ping, i);
    }
  }

  /** The tile in this datagram, if there is one, is in bounds. */
  predicate TileInBounds(mem: Memory) {
    IsType(mem, AID0) && Decode(mem).m0.Some? ==> InBounds(Decode(mem).m0.value)
  }

  lemma {:induction false} OwnInBounds(p: Ping, m: Matrix, rects: seq<Rect>, fields: seq<nat>, a1: seq<byte>,
                                       header: Memory, mems: seq<Memory>, h: Step, ts: seq<Step>, st: Step)
    requires Cuts(rects, p) && Received(ts, mems, p, rects, m)
    requires IsHeaderDatagram(header, p, fields, a1) && h.packet == Decode(header)
    requires st in [h] + ts
    ensures st.packet.m0.Some? ==> InBounds(st.packet.m0.value)
  {
    hide Decode, IsHeaderDatagram, InBounds, TileOf, Received, Cuts, CutFrom, Reaches, Visits, InRect;
    if st == h {
      HeaderDatagramStarts(header, p, fields, a1, h.junk);
      assert h == Step(Decode(header), h.junk);
    } else {
      var i :| 0 <= i < |ts| && ts[i] == st;
      ReceivedTile(ts, mems, p, rects, m, i);
      TileOfBounds(st.packet.m0.value, p.totalBins, p.totalBeams);
    }
  }

  lemma {:induction false} InBoundsIsDefined(s: NodeState, mems: seq<Memory>, junks: seq<Stored>)
    requires |mems| == |junks| && forall i :: 0 <= i < |mems| ==> TileInBounds(mems[i])
    ensures AllDefined(s, mems, junks)
  {
    hide Decode, IsType, InBounds, Run, StepsOf, EntryFor, Aid0.PingNo;
    assert forall i :: 0 <= i < |mems| ==> TileInBounds(mems[i]);
  }

  /** The node object handles a series of datagrams in which those of one ping are its header and its tiles cut
      from a matrix. The rest may be anything whose tiles are in bounds, as long as the pings between the first
      and the last packet of this one are nearby: the node then has published the matrix, once. */
  method ReceiveImage(node: R2SonicNode, received: seq<Memory>, junks: seq<Stored>, ghost p: Ping, ghost m: Matrix,
                      ghost rects: seq<Rect>, ghost fields: seq<nat>, ghost a1: seq<byte>, ghost header: Memory,
                      ghost mems: seq<Memory>, ghost h: Step, ghost ts: seq<Step>) returns (ghost image: Image)
    requires node.Valid() && node.imageTopic && |received| == |junks|
    requires Cuts(rects, p) && Received(ts, mems, p, rects, m)
    requires IsHeaderDatagram(header, p, fields, a1) && h.packet == Decode(header)
    requires Only(StepsOf(received, junks), p.number) == [h] + ts
    requires p.number !in node.assemblers && NearbyPings(StepsOf(received, junks), p.number)
    requires forall i :: 0 <= i < |received| && Decode(received[i]).PingNo() != p.number ==> TileInBounds(received[i])
    modifies node, node.Repr
    ensures node.Valid()
    ensures ImagesOf(node.published, p.number) == ImagesOf(old(node.published), p.number) + [image]
    ensures IsImage(image.data, m, p.totalBins, p.totalBeams) && SaysWhatWasSent(image, p, fields, a1)
    ensures p.number !in node.assemblers
  {
    hide Decode, Cuts, Received, IsHeaderDatagram, Only, NearbyPings, Undisturbed, WholeImage, AllDefined, IsImage,
         SaysWhatWasSent, ImagesOf, Run, StepsOf, Assembler.View, IsType, InBounds;
    ghost var steps, start := StepsOf(received, junks), node.View();
    CutIsWholeImage(steps, p, m, rects, fields, a1, header, mems, h, ts);
    CompleteIsUndisturbed(start, steps, p.number, h, ts);
    forall i | 0 <= i < |received| ensures TileInBounds(received[i]) {
      AllInBounds(received, junks, i, p, m, rects, fields, a1, header, mems, h, ts);
    }
    InBoundsIsDefined(start, received, junks);
    ReceiveAll(node, received, junks);
    image := CutAndReassemble(start, steps, p, m, rects, fields, a1, header, mems, h, ts);
  }

  lemma {:induction false} AllInBounds(received: seq<Memory>, junks: seq<Stored>, i: nat, p: Ping, m: Matrix,
                                       rects: seq<Rect>, fields: seq<nat>, a1: seq<byte>, header: Memory,
                                       mems: seq<Memory>, h: Step, ts: seq<Step>)
    requires |received| == |junks| && i < |received|
    requires Cuts(rects, p) && Received(ts, mems, p, rects, m)
    requires IsHeaderDatagram(header, p, fields, a1) && h.packet == Decode(header)
    requires Only(StepsOf(received, junks), p.number) == [h] + ts
    requires Decode(received[i]).PingNo() != p.number ==> TileInBounds(received[i])
    ensures TileInBounds(received[i])
  {
    hide Decode, Cuts, Received, IsHeaderDatagram, Only, StepsOf, IsType, InBounds, Aid0.PingNo;
    if IsType(received[i], AID0) && Decode(received[i]).PingNo() == p.number {
      StepReceived(received, junks, i);
      var steps, st := StepsOf(received, junks), Step(Decode(received[i]), junks[i]);
      var k :| 0 <= k < |steps| && steps[k] == st;
      OwnIsKept(steps, p.number, k);
      OwnInBounds(p, m, rects, fields, a1, header, mems, h, ts, st);
    }
  }

  // ---- Any arrival order of the datagrams ----

  function Decoded(mems: seq<Memory>): (ps: seq<Aid0>)
    ensures |ps| == |mems|
  {
    seq(|mems|, i requires 0 <= i < |mems| => Decode(mems[i]))
  }

  /** The i-th memory holds the datagram of the tile number order[i], and anything behind it. */
  ghost predicate Arrive(mems: seq<Memory>, order: seq<nat>, p: Ping, rects: seq<Rect>, m: Matrix)
    requires forall i :: 0 <= i < |rects| ==> Inside(rects[i], p)
  {
    && |mems| == |order|
    && forall i :: 0 <= i < |order| ==> order[i] < |rects| && IsTileDatagram(mems[i], p, rects[order[i]], m)
  }

  /** Two receipts of one datagram are the same tile. */
  lemma {:induction false} ReceiptsAreSame(a: Memory, b: Memory, p: Ping, r: Rect, m: Matrix)
    requires Inside(r, p) && IsTileDatagram(a, p, r, m) && IsTileDatagram(b, p, r, m)
    ensures Decode(a).m0.Some? && Decode(b).m0.Some? && SameTile(Decode(a).m0.value, Decode(b).m0.value)
  {
    hide Decode, IsDatagram, Payload;
    TileFieldsFit(p, r);
    TileWritable(p, r, m);
    TileDatagramDecodes(a, TileFields(p, r), Payload(m, r));
    TileDatagramDecodes(b, TileFields(p, r), Payload(m, r));
    var t, u := Decode(a).m0.value, Decode(b).m0.value;
    forall k | 0 <= k < t.bins * t.beams ensures t.bytes(k) == u.bytes(k) {
      assert t.bytes(0 + k) == Payload(m, r)[k] == u.bytes(0 + k);
    }
  }

  lemma {:induction false} ArrivedTiles(s: State, mems: seq<Memory>, order: seq<nat>, p: Ping, rects: seq<Rect>,
                                        m: Matrix)
    requires forall i :: 0 <= i < |rects| ==> Inside(rects[i], p)
    requires Arrive(mems, order, p, rects, m) && s.h0.ping == p.number
    ensures |Tiles(s, Decoded(mems))| == |mems|
    ensures forall i :: 0 <= i < |mems| ==>
              && Decode(mems[i]).m0 == Some(Tiles(s, Decoded(mems))[i])
              && TileOf(Tiles(s, Decoded(mems))[i], p.totalBins, p.totalBeams)
              && CutFrom(Tiles(s, Decoded(mems))[i], m)
  {
    hide Decode, Tiles, TileOf, CutFrom, IsTileDatagram, Inside, Visits, InRect;
    var ts := seq(|mems|, i requires 0 <= i < |mems| => Step(Decode(mems[i]), s.h0));
    forall i | 0 <= i < |mems|
      ensures IsTileStep(ts[i], p.number)
      ensures TileOf(ts[i].packet.m0.value, p.totalBins, p.totalBeams) && CutFrom(ts[i].packet.m0.value, m)
    {
      TileDatagramIsCut(mems[i], p, rects[order[i]], m);
    }
    AllAccepted(s, ts, p.number);
    assert PacketsOf(ts) == Decoded(mems);
  }

  /** Every tile that arrives on one side arrives on the other. */
  lemma {:induction false} ArrivedToo(s: State, mems: seq<Memory>, order: seq<nat>, mems': seq<Memory>,
                                      order': seq<nat>, p: Ping, rects: seq<Rect>, m: Matrix)
    requires forall i :: 0 <= i < |rects| ==> Inside(rects[i], p)
    requires Arrive(mems, order, p, rects, m) && Arrive(mems', order', p, rects, m) && s.h0.ping == p.number
    requires forall k :: k in order ==> k in order'
    ensures Included(Tiles(s, Decoded(mems)), Tiles(s, Decoded(mems')))
  {
    hide Decode, Tiles, TileOf, CutFrom, IsTileDatagram, Inside, SameTile, Decoded;
    ArrivedTiles(s, mems, order, p, rects, m);
    ArrivedTiles(s, mems', order', p, rects, m);
    forall i | 0 <= i < |mems| ensures Among(Tiles(s, Decoded(mems))[i], Tiles(s, Decoded(mems'))) {
      assert order[i] in order';
      var j :| 0 <= j < |order'| && order'[j] == order[i];
      ReceiptsAreSame(mems[i], mems'[j], p, rects[order[i]], m);
      assert SameTile(Tiles(s, Decoded(mems))[i], Tiles(s, Decoded(mems'))[j]);
    }
  }

  lemma {:induction false} CutTilesAgree(ts: seq<M0Tile>, m: Matrix)
    requires AllCutFrom(ts, m)
    ensures Agree(ts)
  {
    hide Visits, TileByte;
    forall i, j, bin, beam | 0 <= i < |ts| && 0 <= j < |ts| && Visits(ts[i], beam, bin) && Visits(ts[j], beam, bin)
      ensures TileByte(ts[i], bin, beam) == TileByte(ts[j], bin, beam)
    {
      assert CutFrom(ts[i], m) && CutFrom(ts[j], m);
    }
  }

  /** The datagrams of the tiles of a matrix may arrive in any order and any number of times, each time in front
      of other stale bytes: the image bytes are the same. */
  lemma {:induction false} AnyArrivalOrder(s: State, mems: seq<Memory>, order: seq<nat>, mems': seq<Memory>,
                                           order': seq<nat>, p: Ping, rects: seq<Rect>, m: Matrix)
    requires forall i :: 0 <= i < |rects| ==> Inside(rects[i], p)
    requires Arrive(mems, order, p, rects, m) && Arrive(mems', order', p, rects, m) && s.h0.ping == p.number
    requires forall k :: k in order <==> k in order'
    ensures Feed(s, Decoded(mems)).image.data == Feed(s, Decoded(mems')).image.data
  {
    hide Decode, Tiles, Feed, TileOf, CutFrom, IsTileDatagram, Inside, Included, Decoded, Agree;
    ArrivedTiles(s, mems, order, p, rects, m);
    ArrivedToo(s, mems, order, mems', order', p, rects, m);
    ArrivedToo(s, mems', order', mems, order, p, rects, m);
    CutTilesAgree(Tiles(s, Decoded(mems)), m);
    OrderIndependence(s, Decoded(mems), Decoded(mems'), p.totalBins, p.totalBeams);
  }

  // ---- Where the driver does not reassemble ----

  /** One bin, eight beams, sent in two groups of four beams. */
  function HalfTile(firstBeam: u16): M0Tile {
    M0Tile(20, 1, 1, 0, 1, 8, firstBeam, 4, i => 1)
  }

  function HalfHeader(junk: Stored): Step {
    Step(Aid0(Some(H0Body(0, 0, 20, 0, 0, 8)), Some(i => 0), None), junk)
  }

  function HalfSteps(junk: Stored): (ts: seq<Step>)
    ensures |ts| == 2
  {
    [Step(Aid0(None, None, Some(HalfTile(0))), junk), Step(Aid0(None, None, Some(HalfTile(4))), junk)]
  }

  function Ones(bin: nat, beam: nat): byte {
    1
  }

  lemma {:induction false} HalfEvents(junk: Stored)
    requires junk.ping != 20
    ensures WholeImage(HalfHeader(junk), [HalfSteps(junk)[0]], 20)
    ensures var (h, ts) := (HalfHeader(junk), HalfSteps(junk));
            EventsOf(START, [h] + ts, 20) == Owns([h] + [ts[0]]) + [Own(ts[1])]
    ensures IsQuiet([Own(HalfSteps(junk)[1])])
    ensures TilesOf([HalfSteps(junk)[0]], 20) == [HalfTile(0)]
  {
    hide Undisturbed, Only, EventsOf;
    var steps := [HalfHeader(junk)] + HalfSteps(junk);
    assert forall i :: 0 <= i < |steps| ==> steps[i].Ping() == 20;
    AllOfOnePing(steps, 20);
    UndisturbedEvents(START, steps, 20);
    var last := Own(HalfSteps(junk)[1]);
    assert [last][..0] == [] && [last][..1] == [last];
    assert StoredPing([last]) == Some(junk.ping);
  }

  lemma {:induction false} FirstHalf()
    ensures TileOf(HalfTile(0), 1, 8) && CutFrom(HalfTile(0), Ones)
    ensures !CoversNonzero([HalfTile(0)], Ones, 1, 8)
  {
    assert !Covered([HalfTile(0)], 0, 4);
    assert Ones(0, 4) != 0;
  }

  /** Completion is judged from the bins alone, so the first beam group publishes the image without the
      second one, although every tile arrives, in order, and nothing else happens. */
  lemma {:induction false} BeamGroupsPublishTooEarly(junk: Stored) returns (image: Image)
    requires junk.ping != 20
    ensures ImagesOf(Run(START, [HalfHeader(junk)] + HalfSteps(junk)).published, 20) == [image]
    ensures !IsImage(image.data, Ones, 1, 8)
  {
    hide WholeImage, EventsOf, Run, IsImage, CoversNonzero, HalfHeader, HalfTile, HalfSteps, TileOf, CutFrom, Ones,
         ImagesOf, IsQuiet;
    var h, ts := HalfHeader(junk), HalfSteps(junk);
    HalfEvents(junk);
    FirstHalf();
    WholeImageHas(h, [ts[0]], 20);
    image := PublishedOnce(START, [h] + ts, 20, h, [ts[0]], [Own(ts[1])], Ones, 1, 8);
    NoImages(20);
  }

  lemma {:induction false} WholeImageHas(h: Step, ts: seq<Step>, ping: u32)
    requires WholeImage(h, ts, ping)
    ensures AllTileSteps(ts, ping)
  {
  }

  /** A whole image in one tile, received twice, is published twice when the assembler made for the second copy
      lies where the ping number is still stored. */
  lemma {:induction false} PublishedTwice(junk: Stored)
    requires junk.ping == 20
    ensures var steps := [HalfHeader(junk), HalfSteps(junk)[0], HalfSteps(junk)[0]];
            |ImagesOf(Run(START, steps).published, 20)| == 2
  {
    hide Run, ImagesOf, Undisturbed, AfterPacket, LoneRun, LoneStep;
    var h, t := HalfHeader(junk), HalfSteps(junk)[0];
    var steps := [h, t, t];
    AllOfOnePing(steps, 20);
    NonInterference(START, steps, 20);
    NoImages(20);
    var s := LoneHeader([], h, 20);
    var l := Lone(None, []);
    assert Project(START, 20) == l;
    assert steps == ([h] + [t]) + [t];
    LoneRunOne(l, h);
    LoneRunSnoc(l, [h], t);
    LoneRunSnoc(l, [h] + [t], t);
    TileCompletes(s, [], t, 20);
    var image := AfterPacket(s, t.packet).0.image;
    assert LoneRun(l, [h] + [t]) == Lone(None, [image]);
    NewIsJunk(t);
    TileCompletes(New(junk), [image], t, 20);
  }

  lemma {:induction false} TileCompletes(s: State, images: seq<Image>, t: Step, ping: u32)
    requires IsTileStep(t, ping) && Reaches(t) && s.h0.ping == ping
    ensures LoneStep(Lone(Some(s), images), t) == Lone(None, images + [AfterPacket(s, t.packet).0.image])
  {
    hide AfterPacket, BinEnd;
    PacketOutcome(s, t.packet);
  }

  lemma {:induction false} NewIsJunk(t: Step)
    ensures forall images :: LoneStep(Lone(None, images), t) == LoneStep(Lone(Some(New(t.junk)), images), t)
  {
    hide AfterPacket;
  }

  lemma {:induction false} NoImages(ping: u32)
    ensures ImagesOf([], ping) == []
  {
  }

  /** A run of packets of one ping only. */
  lemma {:induction false} AllOfOnePing(steps: seq<Step>, ping: u32)
    requires forall i :: 0 <= i < |steps| ==> steps[i].Ping() == ping
    ensures Only(steps, ping) == steps && Undisturbed(START, steps, ping)
  {
    hide Run, Publishes, Only, Aid0.PingNo;
    OnlyIsAll(steps, ping);
  }

  lemma {:induction false} OnlyIsAll(steps: seq<Step>, ping: u32)
    requires forall i :: 0 <= i < |steps| ==> steps[i].Ping() == ping
    ensures Only(steps, ping) == steps
  {
    hide Aid0.PingNo;
    if steps == [] {
    } else {
      OnlyIsAll(steps[..|steps| - 1], ping);
    }
  }
}
