/** The BTH0 datagrams the sonar writes, and the detections message the driver makes of them. */
module BathyPackets {
  import opened Bits
  import opened Bytes
  import opened Wrappers
  import opened Sections
  import opened Packets
  import opened Quality
  import opened Detections

  // ---- Words, then half words ----

  /** The widths of a section body of some 32-bit words followed by some 16-bit values. */
  function ArrayWidths(words: nat, halves: nat): (ws: seq<nat>)
    ensures |ws| == words + halves
  {
    seq(words + halves, i requires 0 <= i => if i < words then 4 else 2)
  }

  lemma {:induction false} ArrayOffset(words: nat, halves: nat, k: nat)
    requires k <= words + halves
    ensures Offset(ArrayWidths(words, halves), k) == if k <= words then 4 * k else 4 * words + 2 * (k - words)
  {
    if k == 0 {
    } else {
      ArrayOffset(words, halves, k - 1);
    }
  }

  function Join(words: seq<u32>, halves: seq<u16>): (vs: seq<nat>)
    ensures |vs| == |words| + |halves|
  {
    seq(|words| + |halves|, i requires 0 <= i < |words| + |halves| =>
      if i < |words| then words[i] else halves[i - |words|])
  }

  lemma {:induction false} JoinFits(words: seq<u32>, halves: seq<u16>)
    ensures Fit(ArrayWidths(|words|, |halves|), Join(words, halves))
  {
    Width2();
    Width4();
  }

  function ArrayBytes(words: seq<u32>, halves: seq<u16>): (s: seq<byte>)
  {
    JoinFits(words, halves);
    Fields(ArrayWidths(|words|, |halves|), Join(words, halves), |words| + |halves|)
  }

  lemma {:induction false} WordReadsBack(mem: Memory, at: nat, words: seq<u32>, halves: seq<u16>, k: nat)
    requires Holds(mem, at, ArrayBytes(words, halves)) && k < |words|
    ensures U32(mem, at + 4 * k) == words[k]
  {
    hide Holds, U32, Fields, Fit;
    JoinFits(words, halves);
    ArrayOffset(|words|, |halves|, k);
    Field32(mem, at, ArrayWidths(|words|, |halves|), Join(words, halves), k);
  }

  lemma {:induction false} HalfReadsBack(mem: Memory, at: nat, words: seq<u32>, halves: seq<u16>, k: nat)
    requires Holds(mem, at, ArrayBytes(words, halves)) && k < |halves|
    ensures U16(mem, at + 4 * |words| + 2 * k) == halves[k]
  {
    hide Holds, U16, Fields, Fit;
    JoinFits(words, halves);
    ArrayOffset(|words|, |halves|, |words| + k);
    Field16(mem, at, ArrayWidths(|words|, |halves|), Join(words, halves), |words| + k);
  }

  // ---- The datagram ----

  /** A scaling factor and one value for each beam, as R0 and I1 have. */
  datatype Scaled = Scaled(factor: u32, values: seq<u16>)

  /** A0 and A2; more is what is reserved for future use. */
  datatype EqualAngles = EqualAngles(first: u32, last: u32, more: seq<u32>)

  datatype StepAngles = StepAngles(first: u32, factor: u32, more: seq<u32>, steps: seq<u16>)

  /** What the sonar has to say; floats are their 32 bits. H0 and R0 are always there. */
  datatype Bathy = Bathy(head: seq<nat>, ranges: Scaled, equal: Option<EqualAngles>, stepped: Option<StepAngles>,
                         intensities: Option<Scaled>, g0: Option<seq<byte>>, g1: Option<seq<byte>>,
                         flags: Option<seq<bv8>>)
  {
    /** Every section has one value for each beam of H0. */
    ghost predicate Shaped() {
      && Fit(H0Widths(), head) && |head| == 26 && |ranges.values| == head[25]
      && (equal.Some? ==> |equal.value.more| == 6)
      && (stepped.Some? ==> |stepped.value.more| == 6 && |stepped.value.steps| == head[25])
      && (intensities.Some? ==> |intensities.value.values| == head[25])
      && (flags.Some? ==> |flags.value| == head[25] && forall i :: 0 <= i < |flags.value| ==> IsFlag(flags.value[i]))
    }

    /** The bodies of the sections, in the order of the chain. */
    function Contents(): Contents
      requires Fit(H0Widths(), head)
    {
      [Some(Fields(H0Widths(), head, |H0Widths()|)),
       Some(ArrayBytes([ranges.factor], ranges.values)),
       if equal.Some? then Some(ArrayBytes([equal.value.first, equal.value.last] + equal.value.more, [])) else None,
       if stepped.Some? then
         Some(ArrayBytes([stepped.value.first, stepped.value.factor] + stepped.value.more, stepped.value.steps))
       else None,
       if intensities.Some? then Some(ArrayBytes([intensities.value.factor], intensities.value.values)) else None,
       g0, g1,
       if flags.Some? then Some(Packed(flags.value)) else None]
    }
  }

  /** The memory starts with this datagram, and the stale bytes behind it are clear. */
  ghost predicate Arrived(mem: Memory, b: Bathy)
    requires b.Shaped()
  {
    && IsType(mem, BTH0) && Writable(BTH0_CHAIN, b.Contents())
    && Holds(mem, MINI_HEADER, Written(BTH0_CHAIN, b.Contents(), |BTH0_CHAIN|))
    && TailClear(mem, BTH0_CHAIN, b.Contents())
  }

  /** The k-th accessor finds its section with its body, or finds that there is none. */
  lemma {:induction false} SectionFound(mem: Memory, b: Bathy, k: nat)
    requires b.Shaped() && Arrived(mem, b) && k < 8
    ensures Exists(mem, Start(mem, BTH0_CHAIN, k), BTH0_CHAIN[k]) <==> b.Contents()[k].Some?
    ensures b.Contents()[k].Some? ==> Holds(mem, Start(mem, BTH0_CHAIN, k) + INFO, b.Contents()[k].value)
  {
    hide Start, Holds, Bathy.Contents, Written, TailClear, Exists, Place;
    ChainsAreDistinct();
    AccessorsFind(mem, BTH0_CHAIN, b.Contents(), k);
    if b.Contents()[k].Some? {
      HoldsSection(mem, BTH0_CHAIN, b.Contents(), k);
    }
  }

  /** Every datagram can arrive so: in a buffer that is zero behind it. */
  lemma {:induction false} CanArrive(b: Bathy) returns (mem: Memory)
    requires b.Shaped() && Writable(BTH0_CHAIN, b.Contents())
    ensures Arrived(mem, b)
  {
    hide Bathy.Contents, Written;
    var w := Written(BTH0_CHAIN, b.Contents(), |BTH0_CHAIN|);
    mem := (i: nat) => if i < 4 then BTH0[i] else if i < MINI_HEADER then 0
                       else if i < MINI_HEADER + |w| then w[i - MINI_HEADER] else 0;
    NoNameIsZero();
  }

  lemma {:induction false} NoNameIsZero()
    ensures forall k :: 0 <= k < |BTH0_CHAIN| ==> BTH0_CHAIN[k][0] != 0
  {
  }

  // ---- What is read back ----

  lemma {:induction false} HeadReadsBack(mem: Memory, f: Float, b: Bathy)
    requires b.Shaped() && Arrived(mem, b)
    ensures Beams(mem) == b.head[25] == |b.ranges.values|
    ensures TxSteeringVert(mem, f) == f(b.head[12])
  {
    hide Holds, Exists, U32, U16, Start, Written, TailClear, Fields;
    SectionFound(mem, b, 0);
    H0Offsets();
    Field32(mem, HeadAt(mem) + INFO, H0Widths(), b.head, 12);
    Field16(mem, HeadAt(mem) + INFO, H0Widths(), b.head, 25);
  }

  lemma {:induction false} TimeReadsBack(mem: Memory, f: Float, b: Bathy, i: nat)
    requires b.Shaped() && Arrived(mem, b) && i < |b.ranges.values|
    ensures TravelTime(mem, f, i) == (b.ranges.values[i] as real) * f(b.ranges.factor)
  {
    hide Holds, Exists, U32, U16, Start, Written, TailClear, Fields, ArrayBytes;
    SectionFound(mem, b, 1);
    var at := RangesAt(mem) + INFO;
    WordReadsBack(mem, at, [b.ranges.factor], b.ranges.values, 0);
    HalfReadsBack(mem, at, [b.ranges.factor], b.ranges.values, i);
  }

  lemma {:induction false} IntensityReadsBack(mem: Memory, f: Float, b: Bathy, i: nat)
    requires b.Shaped() && Arrived(mem, b) && i < b.head[25]
    ensures HasI1(mem) <==> b.intensities.Some?
    ensures b.intensities.Some? ==>
              Intensity(mem, f, i) == (b.intensities.value.values[i] as real) * f(b.intensities.value.factor)
  {
    hide Holds, Exists, U32, U16, Start, Written, TailClear, Fields, ArrayBytes;
    SectionFound(mem, b, 4);
    if b.intensities.Some? {
      var at, s := IntensitiesAt(mem) + INFO, b.intensities.value;
      WordReadsBack(mem, at, [s.factor], s.values, 0);
      HalfReadsBack(mem, at, [s.factor], s.values, i);
    }
  }

  lemma {:induction false} GoodReadsBack(mem: Memory, b: Bathy, i: nat)
    requires b.Shaped() && Arrived(mem, b) && i < b.head[25] < 0x1_0000
    ensures Good(mem, i) <==> (b.flags.Some? ==> b.flags.value[i] >= 4)
  {
    hide Holds, Exists, Start, Written, TailClear, Packed, QualityFlag;
    SectionFound(mem, b, 7);
    if b.flags.Some? {
      PackedReadsBack(mem, QualityAt(mem), b.flags.value, i);
    }
  }

  function Sum(s: seq<u16>): nat {
    if s == [] then 0 else Sum(s[..|s| - 1]) + s[|s| - 1]
  }

  lemma {:induction false} StepsReadBack(mem: Memory, b: Bathy, n: nat)
    requires b.Shaped() && Arrived(mem, b) && b.stepped.Some? && n <= |b.stepped.value.steps|
    ensures StepSum(mem, n) == Sum(b.stepped.value.steps[..n])
  {
    hide Holds, Exists, U16, Start, Written, TailClear, Fields, ArrayBytes;
    if n == 0 {
    } else {
      StepsReadBack(mem, b, n - 1);
      SectionFound(mem, b, 3);
      var s := b.stepped.value;
      HalfReadsBack(mem, StepAnglesAt(mem) + INFO, [s.first, s.factor] + s.more, s.steps, n - 1);
      assert s.steps[..n][..n - 1] == s.steps[..n - 1];
    }
  }

  /** The angle of a beam as the sonar means it. A0 says nothing about a single beam. */
  function MeantAngle(b: Bathy, f: Float, i: nat): real
    requires b.stepped.Some? ==> i < |b.stepped.value.steps|
  {
    match b.stepped
    case Some(s) => f(s.first) + (Sum(s.steps[..i + 1]) as real) * f(s.factor)
    case None =>
      match b.equal
      case Some(e) =>
        if |b.ranges.values| > 1 then
          f(e.first) + (f(e.last) - f(e.first)) / ((|b.ranges.values| - 1) as real) * (i as real)
        else 0.0
      case None => 0.0
  }

  lemma {:induction false} SteppedReadsBack(mem: Memory, f: Float, b: Bathy)
    requires b.Shaped() && Arrived(mem, b)
    ensures HasA2(mem) <==> b.stepped.Some?
    ensures b.stepped.Some? ==> A2First(mem, f) == f(b.stepped.value.first)
    ensures b.stepped.Some? ==> A2Scale(mem, f) == f(b.stepped.value.factor)
  {
    hide Holds, Exists, U32, U16, Start, Written, TailClear, Fields, ArrayBytes;
    SectionFound(mem, b, 3);
    if b.stepped.Some? {
      var at, s := StepAnglesAt(mem) + INFO, b.stepped.value;
      WordReadsBack(mem, at, [s.first, s.factor] + s.more, s.steps, 0);
      WordReadsBack(mem, at, [s.first, s.factor] + s.more, s.steps, 1);
    }
  }

  lemma {:induction false} EqualReadsBack(mem: Memory, f: Float, b: Bathy)
    requires b.Shaped() && Arrived(mem, b)
    ensures HasA0(mem) <==> b.equal.Some?
    ensures b.equal.Some? ==> A0First(mem, f) == f(b.equal.value.first) && A0Last(mem, f) == f(b.equal.value.last)
  {
    hide Holds, Exists, U32, U16, Start, Written, TailClear, Fields, ArrayBytes;
    SectionFound(mem, b, 2);
    if b.equal.Some? {
      var at, e := EqualAnglesAt(mem) + INFO, b.equal.value;
      WordReadsBack(mem, at, [e.first, e.last] + e.more, [], 0);
      WordReadsBack(mem, at, [e.first, e.last] + e.more, [], 1);
    }
  }

  lemma {:induction false} AngleReadsBack(mem: Memory, f: Float, b: Bathy, i: nat)
    requires b.Shaped() && Arrived(mem, b) && i < b.head[25]
    ensures RxAngle(mem, f, i) == MeantAngle(b, f, i)
  {
    hide Arrived, HasA0, HasA2, A0First, A0Last, A2First, A2Scale, StepSum, Beams, Sum;
    HeadReadsBack(mem, f, b);
    SteppedReadsBack(mem, f, b);
    EqualReadsBack(mem, f, b);
    if b.stepped.Some? {
      StepsReadBack(mem, b, i + 1);
    }
  }

  /** From datagram to message: after a BTH0 datagram was handled, the message holds what the sonar wrote. */
  method Detect(d: SonarDetections, mem: Memory, f: Float, ghost b: Bathy)
    requires b.Shaped() && Arrived(mem, b)
    modifies d
    ensures var n := |b.ranges.values|;
            n == |d.twoWayTravelTimes| == |d.txDelays| == |d.intensities| == |d.txAngles| == |d.rxAngles| == |d.ok|
    ensures forall i :: 0 <= i < |b.ranges.values| ==>
              d.twoWayTravelTimes[i] == (b.ranges.values[i] as real) * f(b.ranges.factor)
    ensures forall i :: 0 <= i < |b.ranges.values| ==>
              d.intensities[i] ==
                if b.intensities.Some? then (b.intensities.value.values[i] as real) * f(b.intensities.value.factor)
                else 0.0
    ensures forall i :: 0 <= i < |b.ranges.values| ==> d.rxAngles[i] == MeantAngle(b, f, i)
    ensures forall i :: 0 <= i < |b.ranges.values| ==> d.txAngles[i] == f(b.head[12]) && d.txDelays[i] == 0.0
    ensures forall i :: 0 <= i < |b.ranges.values| ==> d.ok[i] == (b.flags.Some? ==> b.flags.value[i] >= 4)
  {
    hide Arrived, Beams, TravelTime, HasI1, Intensity, RxAngle, Good, TxSteeringVert, MeantAngle;
    d.Fill(mem, f);
    HeadReadsBack(mem, f, b);
    forall i | 0 <= i < |b.ranges.values|
      ensures TravelTime(mem, f, i) == (b.ranges.values[i] as real) * f(b.ranges.factor)
      ensures RxAngle(mem, f, i) == MeantAngle(b, f, i)
      ensures Good(mem, i) <==> (b.flags.Some? ==> b.flags.value[i] >= 4)
      ensures HasI1(mem) <==> b.intensities.Some?
      ensures b.intensities.Some? ==>
                Intensity(mem, f, i) == (b.intensities.value.values[i] as real) * f(b.intensities.value.factor)
    {
      TimeReadsBack(mem, f, b, i);
      AngleReadsBack(mem, f, b, i);
      GoodReadsBack(mem, b, i);
      IntensityReadsBack(mem, f, b, i);
    }
  }

  // ---- Stale flags ----

  /** Every datagram without flags has a buffer, with zeros behind a stale "Q0", for which the message marks every
      beam as bad; without flags every beam would be good. */
  lemma {:induction false} StaleFlagsReject(rest: seq<byte>, b: Bathy) returns (mem: Memory)
    requires |rest| == 8 && b.Shaped() && b.flags.None? && Writable(BTH0_CHAIN, b.Contents())
    ensures IsType(mem, BTH0) && Holds(mem, 4, rest)
    ensures Holds(mem, MINI_HEADER, Written(BTH0_CHAIN, b.Contents(), |BTH0_CHAIN|))
    ensures HasQ0(mem) && forall i: u16 :: !Good(mem, i)
  {
    hide IsType, Holds, Exists, Start, Written, Good;
    mem := StaleQualityFlags(rest, b.Contents());
    forall i: u16 ensures !Good(mem, i) {
      ZeroFlag(mem, i);
    }
  }

  lemma {:induction false} ZeroFlag(mem: Memory, i: u16)
    requires HasQ0(mem) && forall j: nat :: j >= QualityAt(mem) + 2 ==> mem(j) == 0
    ensures !Good(mem, i)
  {
    hide HasQ0, QualityAt, QualityFlag, Bv, ByteNibble;
    FlagIsByteNibble(mem, QualityAt(mem), i);
    Unique(0, 0);
    ZeroNibble(i);
  }

  lemma {:induction false} ZeroNibble(i: nat)
    ensures ByteNibble(0, i) == 0
  {
  }

  // ---- A single beam ----

  /** One beam at the angle first, equally spaced. */
  function OneBeam(first: u32): Bathy {
    Bathy(seq(26, i => if i == 25 then 1 else 0), Scaled(0, [0]), Some(EqualAngles(first, first, [0, 0, 0, 0, 0, 0])),
          None, None, None, None, None)
  }

  lemma {:induction false} OneBeamFits(first: u32)
    ensures OneBeam(first).Shaped() && Writable(BTH0_CHAIN, OneBeam(first).Contents())
  {
    H0Offsets();
    Width2();
    Width4();
    assert Pow256(12) > 0;
    ArraySize([0], [0]);
    ArraySize([first, first] + [0, 0, 0, 0, 0, 0], []);
  }

  lemma {:induction false} ArraySize(words: seq<u32>, halves: seq<u16>)
    ensures |ArrayBytes(words, halves)| == 4 * |words| + 2 * |halves|
  {
    JoinFits(words, halves);
    ArrayOffset(|words|, |halves|, |words| + |halves|);
  }

  /** Wherever a single beam is, there is a datagram that says so and is reported at angle zero. */
  lemma {:induction false} SingleBeamAtZero(first: u32, f: Float) returns (mem: Memory)
    ensures IsType(mem, BTH0) && HasA0(mem) && !HasA2(mem) && Beams(mem) == 1 && A0First(mem, f) == f(first)
    ensures RxAngle(mem, f, 0) == 0.0
  {
    hide OneBeam, HasA0, HasA2, Beams, A0First, RxAngle;
    var b := OneBeam(first);
    OneBeamFits(first);
    mem := CanArrive(b);
    HeadReadsBack(mem, f, b);
    SteppedReadsBack(mem, f, b);
    EqualReadsBack(mem, f, b);
    OneBeamIs(first);
    AngleReadsBack(mem, f, b, 0);
  }

  lemma {:induction false} OneBeamIs(first: u32)
    ensures var b := OneBeam(first);
            |b.head| == 26 && b.head[25] == 1 && |b.ranges.values| == 1 && b.stepped.None?
            && b.equal == Some(EqualAngles(first, first, [0, 0, 0, 0, 0, 0]))
  {
  }
}
