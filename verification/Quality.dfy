/** The Q0 section: 4-bit quality flags, eight to a big-endian word. */
module Quality {
  import opened Bits
  import opened Bytes
  import opened Sections

  /** read_be_u32. */
  function ReadBeU32(p0: byte, p1: byte, p2: byte, p3: byte): bv32 {
    Word(Bv(p0), Bv(p1), Bv(p2), Bv(p3))
  }

  lemma {:induction false} ReadBeU32IsSum(p0: byte, p1: byte, p2: byte, p3: byte)
    ensures ReadBeU32(p0, p1, p2, p3) as nat
         == 0x100_0000 * (p0 as nat) + 0x1_0000 * (p1 as nat) + 0x100 * (p2 as nat) + p3
  {
    hide Bv;
    ByteRoundTrip(p0);
    ByteRoundTrip(p1);
    ByteRoundTrip(p2);
    ByteRoundTrip(p3);
    ShiftOr(Bv(p0), Bv(p1), Bv(p2), Bv(p3));
  }

  /** Decoders agree: shifting the bytes together, the arithmetic value of the field, the base-256 value
      of its bytes, and reversing them on a little-endian host are all the same number. */
  lemma {:induction false} DecodersAgree(mem: Memory, at: nat, p: seq<byte>)
    requires |p| == 4 && Holds(mem, at, p)
    ensures ReadBeU32(p[0], p[1], p[2], p[3]) as nat == U32(mem, at) == BigEndian(p) == LittleEndian(Reversed(p))
  {
    hide ReadBeU32, U32, BigEndian, LittleEndian;
    GetIsBigEndian(p);
    U32IsBigEndian(mem, at, p);
    BigEndian4(p);
    ReadBeU32IsSum(p[0], p[1], p[2], p[3]);
  }

  /** w >> (7 - nib) * 4, with the eight shift amounts spelled out. */
  function ShiftToNibble(w: bv32, nib: nat): bv32
    requires nib < 8
  {
    if nib == 0 then w >> 28 else if nib == 1 then w >> 24 else if nib == 2 then w >> 20 else if nib == 3 then w >> 16
    else if nib == 4 then w >> 12 else if nib == 5 then w >> 8 else if nib == 6 then w >> 4 else w
  }

  function WordNibble(w: bv32, nib: nat): bv8
    requires nib < 8
  {
    (ShiftToNibble(w, nib) & 0xF) as bv8
  }

  /** getQualityFlag of the Q0 section at address at. */
  function QualityFlag(mem: Memory, at: nat, beam: u16): bv8 {
    var word := at + INFO + beam / 8 * 4;
    WordNibble(ReadBeU32(mem(word), mem(word + 1), mem(word + 2), mem(word + 3)), beam % 8)
  }

  predicate PhaseDetect(mem: Memory, at: nat, beam: u16) {
    QualityFlag(mem, at, beam) & 0x8 != 0
  }

  predicate MagnitudeDetect(mem: Memory, at: nat, beam: u16) {
    QualityFlag(mem, at, beam) & 0x4 != 0
  }

  /** The nibble of a byte: the left one for even positions, the right one for odd ones. */
  function ByteNibble(b: bv8, i: nat): bv8 {
    if i % 2 == 0 then b >> 4 else b & 0xF
  }

  function Word(a: bv8, b: bv8, c: bv8, d: bv8): bv32 {
    ((a as bv32) << 24) | ((b as bv32) << 16) | ((c as bv32) << 8) | (d as bv32)
  }

  lemma {:induction false} LeftNibbles(a: bv8, b: bv8, c: bv8, d: bv8)
    ensures WordNibble(Word(a, b, c, d), 0) == ByteNibble(a, 0) && WordNibble(Word(a, b, c, d), 1) == ByteNibble(a, 1)
    ensures WordNibble(Word(a, b, c, d), 2) == ByteNibble(b, 2) && WordNibble(Word(a, b, c, d), 3) == ByteNibble(b, 3)
  {
  }

  lemma {:induction false} RightNibbles(a: bv8, b: bv8, c: bv8, d: bv8)
    ensures WordNibble(Word(a, b, c, d), 4) == ByteNibble(c, 4) && WordNibble(Word(a, b, c, d), 5) == ByteNibble(c, 5)
    ensures WordNibble(Word(a, b, c, d), 6) == ByteNibble(d, 6) && WordNibble(Word(a, b, c, d), 7) == ByteNibble(d, 7)
  {
  }

  lemma {:induction false} WordNibbleIsByteNibble(p: seq<bv8>, nib: nat)
    requires |p| == 4 && nib < 8
    ensures WordNibble(Word(p[0], p[1], p[2], p[3]), nib) == ByteNibble(p[nib / 2], nib)
  {
    hide WordNibble, Word, ByteNibble;
    LeftNibbles(p[0], p[1], p[2], p[3]);
    RightNibbles(p[0], p[1], p[2], p[3]);
  }

  /** The word form reads the nibble of byte beam / 2. */
  lemma {:induction false} FlagIsByteNibble(mem: Memory, at: nat, beam: u16)
    ensures QualityFlag(mem, at, beam) == ByteNibble(Bv(mem(at + INFO + beam / 2)), beam)
  {
    hide Bv, WordNibble, Word, ByteNibble;
    var word := at + INFO + beam / 8 * 4;
    var nib := beam % 8;
    assert at + INFO + beam / 2 == word + nib / 2;
    WordNibbleIsByteNibble([Bv(mem(word)), Bv(mem(word + 1)), Bv(mem(word + 2)), Bv(mem(word + 3))], nib);
    SameParity(Bv(mem(word + nib / 2)), beam, nib);
  }

  lemma {:induction false} SameParity(b: bv8, i: nat, j: nat)
    requires i % 2 == j % 2
    ensures ByteNibble(b, i) == ByteNibble(b, j)
  {
  }

  // ---- Packing ----

  predicate IsFlag(f: bv8) {
    f <= 0xF
  }

  /** The words the sonar sends for these flags: two flags to a byte, left to right, filled up with zeros
      to whole words of eight. */
  function Packed(flags: seq<bv8>): (s: seq<byte>)
    ensures |s| == (|flags| + 7) / 8 * 4
  {
    seq((|flags| + 7) / 8 * 4, j requires 0 <= j => PackedByte(flags, j))
  }

  function FlagOr0(flags: seq<bv8>, i: nat): bv8 {
    if i < |flags| then flags[i] else 0
  }

  function PackedByte(flags: seq<bv8>, j: nat): byte {
    ((FlagOr0(flags, 2 * j) << 4) | FlagOr0(flags, 2 * j + 1)) as nat
  }

  lemma {:induction false} NibblesOfPair(hi: bv8, lo: bv8)
    requires IsFlag(hi) && IsFlag(lo)
    ensures ((hi << 4) | lo) >> 4 == hi && ((hi << 4) | lo) & 0xF == lo
  {
  }

  /** Packing and reading back is the identity, and every byte read lies in the packed words. */
  lemma {:induction false} PackedReadsBack(mem: Memory, at: nat, flags: seq<bv8>, beam: u16)
    requires Holds(mem, at + INFO, Packed(flags)) && beam < |flags|
    requires forall i :: 0 <= i < |flags| ==> IsFlag(flags[i])
    ensures QualityFlag(mem, at, beam) == flags[beam]
    ensures beam / 8 * 4 + 3 < |Packed(flags)|
  {
    hide Bv, QualityFlag, PackedByte, IsFlag;
    FlagIsByteNibble(mem, at, beam);
    var j := beam / 2;
    assert j < |Packed(flags)| && Packed(flags)[j] == PackedByte(flags, j);
    assert mem(at + INFO + j) == PackedByte(flags, j);
    PackedNibble(flags, beam);
  }

  lemma {:induction false} PackedNibble(flags: seq<bv8>, beam: nat)
    requires beam < |flags| && forall i :: 0 <= i < |flags| ==> IsFlag(flags[i])
    ensures ByteNibble(Bv(PackedByte(flags, beam / 2)), beam) == flags[beam]
  {
    hide Bv, IsFlag;
    var j := beam / 2;
    var hi, lo := FlagOr0(flags, 2 * j), FlagOr0(flags, 2 * j + 1);
    BvOfNat((hi << 4) | lo);
    assert IsFlag(0) by { ZeroIsFlag(); }
    NibblesOfPair(hi, lo);
    assert beam == 2 * j || beam == 2 * j + 1;
  }

  lemma {:induction false} ZeroIsFlag()
    ensures IsFlag(0)
  {
  }

  /** Phase detection is the leftmost bit of the nibble, magnitude detection the next one. */
  lemma {:induction false} DetectionBits(mem: Memory, at: nat, beam: u16)
    ensures PhaseDetect(mem, at, beam) <==> QualityFlag(mem, at, beam) >= 8
    ensures MagnitudeDetect(mem, at, beam) <==> QualityFlag(mem, at, beam) in {4, 5, 6, 7, 12, 13, 14, 15}
  {
    hide QualityFlag;
    FlagIsNibble(mem, at, beam);
    NibbleBits(QualityFlag(mem, at, beam));
  }

  lemma {:induction false} NibbleBits(f: bv8)
    requires f <= 0xF
    ensures f & 0x8 != 0 <==> f >= 8
    ensures f & 0x4 != 0 <==> f in {4, 5, 6, 7, 12, 13, 14, 15}
  {
  }

  /** A beam is good exactly when its nibble is at least four. */
  lemma {:induction false} GoodIsAtLeastFour(mem: Memory, at: nat, beam: u16)
    ensures PhaseDetect(mem, at, beam) || MagnitudeDetect(mem, at, beam) <==> QualityFlag(mem, at, beam) >= 4
  {
    hide Bv, ReadBeU32;
    FlagIsNibble(mem, at, beam);
    AtLeastFour(QualityFlag(mem, at, beam));
  }

  lemma {:induction false} FlagIsNibble(mem: Memory, at: nat, beam: u16)
    ensures QualityFlag(mem, at, beam) <= 0xF
  {
    hide Bv, QualityFlag;
    FlagIsByteNibble(mem, at, beam);
    NibbleSmall(Bv(mem(at + INFO + beam / 2)), beam);
  }

  lemma {:induction false} NibbleSmall(b: bv8, i: nat)
    ensures ByteNibble(b, i) <= 0xF
  {
  }

  lemma {:induction false} AtLeastFour(f: bv8)
    requires f <= 0xF
    ensures f & 0x8 != 0 || f & 0x4 != 0 <==> f >= 4
  {
  }
}
