/** The AID0 packet: its sections as values, and the bytes the sonar sends for them. */
module Packets {
  import opened Bits
  import opened Bytes
  import opened Wrappers
  import opened Sections

  const AID0: seq<byte> := [0x41, 0x49, 0x44, 0x30]
  const BTH0: seq<byte> := [0x42, 0x54, 0x48, 0x30]

  /** The H0 fields the assembler uses; floats are kept as their 32 bits. */
  datatype H0Body = H0Body(seconds: u32, nanoseconds: u32, ping: u32, txSteeringVert: u32,
                           rxSampleRate: u32, beams: u16)

  /** An M0 section. bytes(i) is the i-th byte after the fixed-size body. */
  datatype M0Tile = M0Tile(ping: u32, totalSamples: u32, totalBins: u32, firstBin: u32, bins: u16,
                           totalBeams: u16, firstBeam: u16, beams: u16, bytes: Memory)

  /** An AID0 packet as its accessors present it. angles(i) is A1's i-th float. */
  datatype Aid0 = Aid0(h0: Option<H0Body>, angles: Option<nat -> u32>, m0: Option<M0Tile>)
  {
    predicate IsFirstInSeries() {
      h0.Some?
    }

    /** The ping number of the M0 section if there is one, else that of H0, else zero. */
    function PingNo(): u32 {
      if m0.Some? then m0.value.ping else if h0.Some? then h0.value.ping else 0
    }
  }

  predicate IsType(mem: Memory, name: seq<byte>) {
    Holds(mem, 0, name)
  }

  /** The size the mini header reports, truncated to 16 bits by getSize. */
  function PacketSize(mem: Memory): u16 {
    U32(mem, 4) % 0x1_0000
  }

  // ---- Decoding: where each field lies in the packed structs ----

  function ReadH0(mem: Memory, at: nat): H0Body {
    H0Body(U32(mem, at + 24), U32(mem, at + 28), U32(mem, at + 32), U32(mem, at + 64),
           U32(mem, at + 80), U16(mem, at + 110))
  }

  function ReadM0(mem: Memory, at: nat): M0Tile {
    M0Tile(U32(mem, at), U32(mem, at + 8), U32(mem, at + 12), U32(mem, at + 16), U16(mem, at + 20),
           U16(mem, at + 22), U16(mem, at + 24), U16(mem, at + 26), (i: nat) => mem(at + 32 + i))
  }

  function Decode(mem: Memory): Aid0 {
    var h, a, m := Start(mem, AID0_CHAIN, 0), Start(mem, AID0_CHAIN, 1), Start(mem, AID0_CHAIN, 2);
    Aid0(if Exists(mem, h, H0) then Some(ReadH0(mem, h + INFO)) else None,
         if Exists(mem, a, A1) then Some((i: nat) => U32(mem, a + INFO + 24 + 4 * i)) else None,
         if Exists(mem, m, M0) then Some(ReadM0(mem, m + INFO)) else None)
  }

  lemma {:induction false} PacketLetters()
    ensures Spells(AID0, "AID0") && Spells(BTH0, "BTH0")
  {
  }

  /** A packet that starts with H0, by absolute addresses: the mini header takes twelve bytes, the name and the
      size of the section four. */
  lemma {:induction false} HeaderAddresses(mem: Memory)
    requires mem(12) == 'H' as int && mem(13) == '0' as int
    ensures Decode(mem).h0 == Some(H0Body(U32(mem, 40), U32(mem, 44), U32(mem, 48), U32(mem, 80), U32(mem, 96),
                                          U16(mem, 126)))
  {
    hide U32, U16, End;
    assert Start(mem, AID0_CHAIN, 0) == 12;
  }

  /** The same for a packet that starts with M0. */
  lemma {:induction false} TileAddresses(mem: Memory)
    requires mem(12) == 'M' as int && mem(13) == '0' as int
    ensures Decode(mem).h0.None? && Decode(mem).angles.None? && Decode(mem).m0.Some?
    ensures var t := Decode(mem).m0.value;
            && t.ping == U32(mem, 16) && t.totalSamples == U32(mem, 24) && t.totalBins == U32(mem, 28)
            && t.firstBin == U32(mem, 32) && t.bins == U16(mem, 36) && t.totalBeams == U16(mem, 38)
            && t.firstBeam == U16(mem, 40) && t.beams == U16(mem, 42)
            && forall i: nat :: t.bytes(i) == mem(48 + i)
  {
    hide U32, U16;
    assert Exists(mem, 12, M0);
    DifferentName(mem, 12, M0, H0);
    DifferentName(mem, 12, M0, A1);
    assert Start(mem, AID0_CHAIN, 0) == Start(mem, AID0_CHAIN, 1) == Start(mem, AID0_CHAIN, 2) == 12;
    assert Decode(mem).m0 == Some(ReadM0(mem, 16));
  }

  /** The ping a packet is filed under: that of its M0, else that of its H0, else zero. */
  lemma {:induction false} PingAddresses(mem: Memory)
    ensures mem(12) == 'M' as int && mem(13) == '0' as int ==> Decode(mem).PingNo() == U32(mem, 16)
    ensures mem(12) == 'H' as int && mem(13) == '0' as int && Decode(mem).m0.None? ==>
              Decode(mem).PingNo() == U32(mem, 48)
    ensures Decode(mem).h0.None? && Decode(mem).m0.None? ==> Decode(mem).PingNo() == 0
  {
    hide Decode, U32, U16;
    if mem(12) == 'M' as int && mem(13) == '0' as int {
      TileAddresses(mem);
    } else if mem(12) == 'H' as int && mem(13) == '0' as int {
      HeaderAddresses(mem);
    }
  }

  // ---- Encoding: the datagrams the sonar sends ----

  function M0Widths(): seq<nat> {
    seq(10, i => if 5 <= i < 9 then 2 else 4)
  }

  function H0Widths(): seq<nat> {
    seq(26, i => if i < 2 then 12 else if i == 14 || i == 15 || i >= 24 then 2 else 4)
  }

  lemma {:induction false} M0Offsets()
    ensures |M0Widths()| == 10
    ensures Offset(M0Widths(), 0) == 0 && Offset(M0Widths(), 2) == 8 && Offset(M0Widths(), 3) == 12
    ensures Offset(M0Widths(), 4) == 16 && Offset(M0Widths(), 5) == 20 && Offset(M0Widths(), 6) == 22
    ensures Offset(M0Widths(), 7) == 24 && Offset(M0Widths(), 8) == 26 && Offset(M0Widths(), 10) == 32
  {
    assert Offset(M0Widths(), 1) == 4;
    assert Offset(M0Widths(), 2) == 8;
    assert Offset(M0Widths(), 4) == 16;
    assert Offset(M0Widths(), 6) == 22;
    assert Offset(M0Widths(), 8) == 26;
  }

  lemma {:induction false} H0Offsets()
    ensures |H0Widths()| == 26
    ensures Offset(H0Widths(), 2) == 24 && Offset(H0Widths(), 3) == 28 && Offset(H0Widths(), 4) == 32
    ensures Offset(H0Widths(), 12) == 64 && Offset(H0Widths(), 17) == 80 && Offset(H0Widths(), 25) == 110
    ensures Offset(H0Widths(), 26) == 112
  {
    assert Offset(H0Widths(), 2) == 24;
    assert Offset(H0Widths(), 4) == 32;
    assert Offset(H0Widths(), 6) == 40;
    assert Offset(H0Widths(), 8) == 48;
    assert Offset(H0Widths(), 10) == 56;
    assert Offset(H0Widths(), 12) == 64;
    assert Offset(H0Widths(), 14) == 72;
    assert Offset(H0Widths(), 16) == 76;
    assert Offset(H0Widths(), 18) == 84;
    assert Offset(H0Widths(), 20) == 92;
    assert Offset(H0Widths(), 22) == 100;
    assert Offset(H0Widths(), 24) == 108;
  }

  /** A tile datagram carries one M0 section: its ten fields, then the magnitudes. */
  function TileContents(fields: seq<nat>, payload: seq<byte>): Contents
    requires Fit(M0Widths(), fields)
  {
    [None, None, Some(Fields(M0Widths(), fields, |M0Widths()|) + payload)]
  }

  /** A header datagram carries H0 and A1, and no M0. */
  function HeaderContents(fields: seq<nat>, a1: seq<byte>): Contents
    requires Fit(H0Widths(), fields)
  {
    [Some(Fields(H0Widths(), fields, |H0Widths()|)), Some(a1), None]
  }

  /** The memory starts with an AID0 datagram holding these sections. */
  ghost predicate IsDatagram(mem: Memory, contents: Contents)
    requires Writable(AID0_CHAIN, contents)
  {
    IsType(mem, AID0) && Holds(mem, MINI_HEADER, Written(AID0_CHAIN, contents, |AID0_CHAIN|))
  }

  lemma {:induction false} TileLayout(mem: Memory, fields: seq<nat>, payload: seq<byte>)
    requires Fit(M0Widths(), fields) && Writable(AID0_CHAIN, TileContents(fields, payload))
    requires IsDatagram(mem, TileContents(fields, payload))
    ensures !Exists(mem, MINI_HEADER, H0) && !Exists(mem, Start(mem, AID0_CHAIN, 1), A1)
    ensures Start(mem, AID0_CHAIN, 2) == MINI_HEADER && Exists(mem, MINI_HEADER, M0)
    ensures Holds(mem, MINI_HEADER + INFO, Fields(M0Widths(), fields, |M0Widths()|) + payload)
  {
    var contents := TileContents(fields, payload);
    assert contents[0].None? && contents[1].None? && contents[2].Some?;
    SkipAbsent(AID0_CHAIN, contents, 0, 2);
    HoldsSection(mem, AID0_CHAIN, contents, 2);
    DifferentName(mem, MINI_HEADER, M0, H0);
    DifferentName(mem, MINI_HEADER, M0, A1);
    assert Start(mem, AID0_CHAIN, 1) == End(mem, MINI_HEADER, H0);
  }

  /** A tile datagram decodes to its M0 section alone, field by field and byte by byte, whatever the
      bytes behind it: M0 is the last name of the chain. */
  lemma {:induction false} TileDatagramDecodes(mem: Memory, fields: seq<nat>, payload: seq<byte>)
    requires Fit(M0Widths(), fields) && Writable(AID0_CHAIN, TileContents(fields, payload))
    requires IsDatagram(mem, TileContents(fields, payload))
    ensures var p := Decode(mem); p.h0.None? && p.angles.None? && p.m0.Some?
    ensures var t := Decode(mem).m0.value;
            && t.ping == fields[0] && t.totalSamples == fields[2] && t.totalBins == fields[3]
            && t.firstBin == fields[4] && t.bins == fields[5] && t.totalBeams == fields[6]
            && t.firstBeam == fields[7] && t.beams == fields[8]
            && Holds(t.bytes, 0, payload)
  {
    TileLayout(mem, fields, payload);
    var at, s := MINI_HEADER + INFO, Fields(M0Widths(), fields, |M0Widths()|);
    HoldsConcat(mem, at, s, payload);
    TilePingDecodes(mem, at, fields);
    TileWordsDecode(mem, at, fields);
    TileHalvesDecode(mem, at, fields);
    assert |s| == 32 by { M0Offsets(); }
    assert Decode(mem).m0 == Some(ReadM0(mem, at));
  }

  lemma {:induction false} TileWordsDecode(mem: Memory, at: nat, fields: seq<nat>)
    requires Fit(M0Widths(), fields)
    requires Holds(mem, at, Fields(M0Widths(), fields, |M0Widths()|))
    ensures |fields| == 10
    ensures U32(mem, at + 8) == fields[2]
    ensures U32(mem, at + 12) == fields[3] && U32(mem, at + 16) == fields[4]
  {
    M0Offsets();
    Field32(mem, at, M0Widths(), fields, 2);
    Field32(mem, at, M0Widths(), fields, 3);
    Field32(mem, at, M0Widths(), fields, 4);
  }

  lemma {:induction false} TilePingDecodes(mem: Memory, at: nat, fields: seq<nat>)
    requires Fit(M0Widths(), fields)
    requires Holds(mem, at, Fields(M0Widths(), fields, |M0Widths()|))
    ensures |fields| == 10
    ensures U32(mem, at) == fields[0]
  {
    Field32(mem, at, M0Widths(), fields, 0);
  }

  lemma {:induction false} TileHalvesDecode(mem: Memory, at: nat, fields: seq<nat>)
    requires Fit(M0Widths(), fields)
    requires Holds(mem, at, Fields(M0Widths(), fields, |M0Widths()|))
    ensures |fields| == 10
    ensures U16(mem, at + 20) == fields[5] && U16(mem, at + 22) == fields[6]
    ensures U16(mem, at + 24) == fields[7] && U16(mem, at + 26) == fields[8]
  {
    M0Offsets();
    Field16(mem, at, M0Widths(), fields, 5);
    Field16(mem, at, M0Widths(), fields, 6);
    Field16(mem, at, M0Widths(), fields, 7);
    Field16(mem, at, M0Widths(), fields, 8);
  }

  /** The H0 fields the assembler uses, by their position in the struct. */
  ghost predicate IsHeader(h: H0Body, fields: seq<nat>)
    requires Fit(H0Widths(), fields)
  {
    && h.seconds == fields[2] && h.nanoseconds == fields[3] && h.ping == fields[4]
    && h.txSteeringVert == fields[12] && h.rxSampleRate == fields[17] && h.beams == fields[25]
  }

  lemma {:induction false} HeaderFieldsDecode(mem: Memory, at: nat, fields: seq<nat>)
    requires Fit(H0Widths(), fields)
    requires Holds(mem, at, Fields(H0Widths(), fields, |H0Widths()|))
    ensures IsHeader(ReadH0(mem, at), fields)
  {
    H0Offsets();
    Field32(mem, at, H0Widths(), fields, 2);
    Field32(mem, at, H0Widths(), fields, 3);
    Field32(mem, at, H0Widths(), fields, 4);
    Field32(mem, at, H0Widths(), fields, 12);
    Field32(mem, at, H0Widths(), fields, 17);
    Field16(mem, at, H0Widths(), fields, 25);
  }

  lemma {:induction false} HeaderPlaces(fields: seq<nat>, a1: seq<byte>)
    requires Fit(H0Widths(), fields) && Writable(AID0_CHAIN, HeaderContents(fields, a1))
    ensures Place(AID0_CHAIN, HeaderContents(fields, a1), 0) == MINI_HEADER
    ensures Place(AID0_CHAIN, HeaderContents(fields, a1), 1) == MINI_HEADER + 116
    ensures Place(AID0_CHAIN, HeaderContents(fields, a1), 2) == MINI_HEADER + 120 + |a1|
  {
    assert |Fields(H0Widths(), fields, |H0Widths()|)| == 112 by { H0Offsets(); }
    assert |Written(AID0_CHAIN, HeaderContents(fields, a1), 1)| == 116;
  }

  lemma {:induction false} HeaderLayout(mem: Memory, fields: seq<nat>, a1: seq<byte>)
    requires Fit(H0Widths(), fields) && Writable(AID0_CHAIN, HeaderContents(fields, a1))
    requires IsDatagram(mem, HeaderContents(fields, a1))
    ensures Exists(mem, MINI_HEADER, H0) && Start(mem, AID0_CHAIN, 1) == MINI_HEADER + 116
    ensures Exists(mem, MINI_HEADER + 116, A1) && Start(mem, AID0_CHAIN, 2) == MINI_HEADER + 120 + |a1|
    ensures Holds(mem, MINI_HEADER + INFO, Fields(H0Widths(), fields, |H0Widths()|))
    ensures Holds(mem, MINI_HEADER + 120, a1)
  {
    hide Holds, U16, Fields, SectionBytes;
    var contents := HeaderContents(fields, a1);
    HeaderPlaces(fields, a1);
    HoldsSection(mem, AID0_CHAIN, contents, 0);
    HoldsSection(mem, AID0_CHAIN, contents, 1);
    assert Start(mem, AID0_CHAIN, 1) == End(mem, MINI_HEADER, H0);
    assert Start(mem, AID0_CHAIN, 2) == End(mem, MINI_HEADER + 116, A1);
  }

  lemma {:induction false} AngleReadsBack(mem: Memory, at: nat, a1: seq<byte>, i: nat)
    requires Holds(mem, at, a1) && 24 + 4 * i + 4 <= |a1|
    ensures U32(mem, at + 24 + 4 * i) == BigEndian(a1[24 + 4 * i..24 + 4 * i + 4])
  {
    var part := a1[24 + 4 * i..24 + 4 * i + 4];
    HoldsPart(mem, at, a1, 24 + 4 * i, 24 + 4 * i + 4);
    U32IsBigEndian(mem, at + 24 + 4 * i, part);
  }

  /** A header datagram decodes to its H0 section with its A1 section; it decodes to no M0 section
      if and only if the two stale bytes behind it do not read "M0". */
  lemma {:induction false} HeaderDatagramDecodes(mem: Memory, fields: seq<nat>, a1: seq<byte>)
    requires Fit(H0Widths(), fields) && Writable(AID0_CHAIN, HeaderContents(fields, a1))
    requires IsDatagram(mem, HeaderContents(fields, a1))
    ensures var p := Decode(mem); p.h0.Some? && IsHeader(p.h0.value, fields) && p.angles.Some?
    ensures Decode(mem).m0.None? <==> !Exists(mem, MINI_HEADER + 120 + |a1|, M0)
  {
    HeaderLayout(mem, fields, a1);
    HeaderFieldsDecode(mem, MINI_HEADER + INFO, fields);
  }

  /** A mini header of this packet type, with any eight bytes behind the name. */
  function MiniHeader(name: seq<byte>, rest: seq<byte>): (s: seq<byte>)
    requires |name| == 4 && |rest| == 8
    ensures |s| == MINI_HEADER
  {
    name + rest
  }

  /** Any BTH0 datagram without Q0 that the driver accepts has a buffer in which Q0 is seen, and zeros behind it. */
  lemma {:induction false} StaleQualityFlags(rest: seq<byte>, contents: Contents) returns (mem: Memory)
    requires |rest| == 8 && Writable(BTH0_CHAIN, contents) && contents[7].None?
    ensures IsType(mem, BTH0) && Holds(mem, 4, rest)
    ensures Holds(mem, MINI_HEADER, Written(BTH0_CHAIN, contents, |BTH0_CHAIN|))
    ensures Exists(mem, Start(mem, BTH0_CHAIN, 7), Q0)
    ensures forall i: nat :: i >= Start(mem, BTH0_CHAIN, 7) + 2 ==> mem(i) == 0
    ensures forall k :: 0 <= k < |BTH0_CHAIN| ==> Start(mem, BTH0_CHAIN, k) == Place(BTH0_CHAIN, contents, k)
  {
    hide Faithful, Written, Holds, Exists, Distinct, Place;
    ChainsAreDistinct();
    mem := StaleBytesMislead(MiniHeader(BTH0, rest), BTH0_CHAIN, contents);
    HoldsConcat(mem, 0, BTH0, rest);
  }

  /** Any header datagram has a buffer in which the driver sees an M0 section in it that nobody sent. */
  lemma {:induction false} StaleTileInHeader(rest: seq<byte>, fields: seq<nat>, a1: seq<byte>) returns (mem: Memory)
    requires |rest| == 8 && Fit(H0Widths(), fields) && Writable(AID0_CHAIN, HeaderContents(fields, a1))
    ensures IsDatagram(mem, HeaderContents(fields, a1)) && Holds(mem, 4, rest)
    ensures Decode(mem).m0.Some?
  {
    hide Decode, Faithful, Written, Holds, Exists, Distinct, Fields;
    ChainsAreDistinct();
    mem := StaleBytesMislead(MiniHeader(AID0, rest), AID0_CHAIN, HeaderContents(fields, a1));
    HoldsConcat(mem, 0, AID0, rest);
    HeaderPlaces(fields, a1);
    SkipAbsent(AID0_CHAIN, HeaderContents(fields, a1), 2, 3);
    HeaderDatagramDecodes(mem, fields, a1);
  }

  /** The i-th angle of the A1 section is the i-th float after its 24 reserved bytes. */
  lemma {:induction false} HeaderAnglesDecode(mem: Memory, fields: seq<nat>, a1: seq<byte>, i: nat)
    requires Fit(H0Widths(), fields) && Writable(AID0_CHAIN, HeaderContents(fields, a1))
    requires IsDatagram(mem, HeaderContents(fields, a1))
    requires 24 + 4 * i + 4 <= |a1|
    ensures Decode(mem).angles.Some?
    ensures Decode(mem).angles.value(i) == BigEndian(a1[24 + 4 * i..24 + 4 * i + 4])
  {
    hide Holds, BigEndian, U32, ReadH0, ReadM0, IsDatagram;
    HeaderLayout(mem, fields, a1);
    AngleReadsBack(mem, MINI_HEADER + 120, a1, i);
  }
}
