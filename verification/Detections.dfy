/** Turning a BTH0 packet into a detections message: angles, times, intensities and flags per beam. */
module Detections {
  import opened Bytes
  import opened Wrappers
  import opened Sections
  import opened Quality

  /** The value of an IEEE single from its bits. Arithmetic on the values is over the reals. */
  type Float = u32 -> real

  // ---- Where the BTH0 accessors point ----

  function HeadAt(mem: Memory): nat { Start(mem, BTH0_CHAIN, 0) }

  function RangesAt(mem: Memory): nat { Start(mem, BTH0_CHAIN, 1) }

  function EqualAnglesAt(mem: Memory): nat { Start(mem, BTH0_CHAIN, 2) }

  function StepAnglesAt(mem: Memory): nat { Start(mem, BTH0_CHAIN, 3) }

  function IntensitiesAt(mem: Memory): nat { Start(mem, BTH0_CHAIN, 4) }

  function QualityAt(mem: Memory): nat { Start(mem, BTH0_CHAIN, 7) }

  predicate HasA0(mem: Memory) { Exists(mem, EqualAnglesAt(mem), A0) }

  predicate HasA2(mem: Memory) { Exists(mem, StepAnglesAt(mem), A2) }

  predicate HasI1(mem: Memory) { Exists(mem, IntensitiesAt(mem), I1) }

  predicate HasQ0(mem: Memory) { Exists(mem, QualityAt(mem), Q0) }

  // ---- Fields ----

  function Beams(mem: Memory): u16 { U16(mem, HeadAt(mem) + INFO + 110) }

  function TxSteeringVert(mem: Memory, f: Float): real { f(U32(mem, HeadAt(mem) + INFO + 64)) }

  function A0First(mem: Memory, f: Float): real { f(U32(mem, EqualAnglesAt(mem) + INFO)) }

  function A0Last(mem: Memory, f: Float): real { f(U32(mem, EqualAnglesAt(mem) + INFO + 4)) }

  function A2First(mem: Memory, f: Float): real { f(U32(mem, StepAnglesAt(mem) + INFO)) }

  function A2Scale(mem: Memory, f: Float): real { f(U32(mem, StepAnglesAt(mem) + INFO + 4)) }

  function AngleStep(mem: Memory, i: nat): u16 { U16(mem, StepAnglesAt(mem) + INFO + 32 + 2 * i) }

  function TravelTime(mem: Memory, f: Float, i: nat): real {
    (U16(mem, RangesAt(mem) + INFO + 4 + 2 * i) as real) * f(U32(mem, RangesAt(mem) + INFO))
  }

  function Intensity(mem: Memory, f: Float, i: nat): real {
    (U16(mem, IntensitiesAt(mem) + INFO + 4 + 2 * i) as real) * f(U32(mem, IntensitiesAt(mem) + INFO))
  }

  // ---- What the message should say ----

  /** The exact sum of the first n angle steps. */
  function StepSum(mem: Memory, n: nat): nat {
    if n == 0 then 0 else StepSum(mem, n - 1) + AngleStep(mem, n - 1)
  }

  /** The receive angle: A2's formula if A2 is there, else A0's interpolation, else zero. A0 is not used
      for a single beam. */
  function RxAngle(mem: Memory, f: Float, i: nat): real {
    if HasA2(mem) then A2First(mem, f) + (StepSum(mem, i + 1) as real) * A2Scale(mem, f)
    else if HasA0(mem) && Beams(mem) > 1 then
      A0First(mem, f) + (A0Last(mem, f) - A0First(mem, f)) / ((Beams(mem) - 1) as real) * (i as real)
    else 0.0
  }

  /** A beam is good unless Q0 is there and its flag says neither phase nor magnitude detection. */
  predicate Good(mem: Memory, i: u16) {
    HasQ0(mem) ==> QualityFlag(mem, QualityAt(mem), i) >= 4
  }

  /** The 32-bit running sum of the loop never wraps. */
  lemma {:induction false} StepSumBound(mem: Memory, n: nat)
    ensures StepSum(mem, n) <= 0xFFFF * n
  {
    if n == 0 {
    } else {
      StepSumBound(mem, n - 1);
    }
  }

  lemma {:induction false} StepSumAscending(mem: Memory, m: nat, n: nat)
    requires m <= n
    ensures StepSum(mem, m) <= StepSum(mem, n)
    decreases n
  {
    if m == n {
    } else {
      StepSumAscending(mem, m, n - 1);
    }
  }

  /** The message buffer, reused from packet to packet. */
  class SonarDetections {
    var twoWayTravelTimes: seq<real>
    var txDelays: seq<real>
    var intensities: seq<real>
    var txAngles: seq<real>
    var rxAngles: seq<real>
    var ok: seq<bool>

    /** bth02SonarDetections. */
    method Fill(mem: Memory, f: Float)
      modifies this
      ensures |twoWayTravelTimes| == |txDelays| == |intensities| == |txAngles| == |rxAngles| == |ok| == Beams(mem)
      ensures forall i :: 0 <= i < Beams(mem) ==> rxAngles[i] == RxAngle(mem, f, i)
      ensures forall i :: 0 <= i < Beams(mem) ==> ok[i] == Good(mem, i)
      ensures forall i :: 0 <= i < Beams(mem) ==> twoWayTravelTimes[i] == TravelTime(mem, f, i)
      ensures forall i :: 0 <= i < Beams(mem) ==> intensities[i] == if HasI1(mem) then Intensity(mem, f, i) else 0.0
      ensures forall i :: 0 <= i < Beams(mem) ==> txDelays[i] == 0.0 && txAngles[i] == TxSteeringVert(mem, f)
    {
      hide HasA2, HasA0, HasI1, HasQ0, A2First, A2Scale, A0First, A0Last, AngleStep, Beams, TravelTime, Intensity,
           TxSteeringVert, PhaseDetect, MagnitudeDetect, QualityFlag, QualityAt;
      var n := Beams(mem);
      twoWayTravelTimes, txDelays := Resized(twoWayTravelTimes, n, 0.0), Resized(txDelays, n, 0.0);
      intensities, txAngles := Resized(intensities, n, 0.0), Resized(txAngles, n, 0.0);
      rxAngles := Resized(rxAngles, n, 0.0);
      ok := Resized(ok, n, false);
      hide RxAngle, Good, StepSum;
      var stepSum: u32, i: u16 := 0, 0;
      assert StepSum(mem, 0) == 0 by { NoSteps(mem); }
      while i < n
        invariant 0 <= i <= n
        invariant |twoWayTravelTimes| == |txDelays| == |intensities| == |txAngles| == |rxAngles| == |ok| == n
        invariant HasA2(mem) ==> stepSum == StepSum(mem, i)
        invariant forall j :: 0 <= j < i ==> rxAngles[j] == RxAngle(mem, f, j)
        invariant forall j :: 0 <= j < i ==> ok[j] == Good(mem, j)
        invariant forall j :: 0 <= j < i ==> twoWayTravelTimes[j] == TravelTime(mem, f, j)
        invariant forall j :: 0 <= j < i ==> intensities[j] == if HasI1(mem) then Intensity(mem, f, j) else 0.0
        invariant forall j :: 0 <= j < i ==> txDelays[j] == 0.0 && txAngles[j] == TxSteeringVert(mem, f)
      {
        var intensity := if HasI1(mem) then Intensity(mem, f, i) else 0.0;
        var angle;
        stepSum, angle := NextAngle(mem, f, i, stepSum);
        var good := BeamFlag(mem, i);
        StoreBeam(i, TravelTime(mem, f, i), intensity, TxSteeringVert(mem, f), angle, good);
        i := i + 1;
      }
    }

    method StoreBeam(i: nat, time: real, intensity: real, txAngle: real, rxAngle: real, good: bool)
      requires i < |twoWayTravelTimes| == |txDelays| == |intensities| == |txAngles| == |rxAngles| == |ok|
      modifies this
      ensures twoWayTravelTimes == old(twoWayTravelTimes)[i := time] && txDelays == old(txDelays)[i := 0.0]
      ensures intensities == old(intensities)[i := intensity] && txAngles == old(txAngles)[i := txAngle]
      ensures rxAngles == old(rxAngles)[i := rxAngle] && ok == old(ok)[i := good]
    {
      twoWayTravelTimes, txDelays := twoWayTravelTimes[i := time], txDelays[i := 0.0];
      intensities, txAngles := intensities[i := intensity], txAngles[i := txAngle];
      rxAngles, ok := rxAngles[i := rxAngle], ok[i := good];
    }
  }

  lemma {:induction false} NoSteps(mem: Memory)
    ensures StepSum(mem, 0) == 0
  {
  }

  /** The receive angle of one beam, with the running 32-bit sum of the steps. */
  method NextAngle(mem: Memory, f: Float, i: u16, sum: u32) returns (stepSum: u32, angle: real)
    requires i < Beams(mem) && (HasA2(mem) ==> sum == StepSum(mem, i))
    ensures HasA2(mem) ==> stepSum == StepSum(mem, i + 1)
    ensures angle == RxAngle(mem, f, i)
  {
    hide HasA2, HasA0, A2First, A2Scale, A0First, A0Last, AngleStep, Beams;
    stepSum, angle := sum, 0.0;
    if HasA2(mem) {
      StepSumBound(mem, i + 1);
      stepSum := (sum + AngleStep(mem, i)) % 0x1_0000_0000;
      angle := A2First(mem, f) + (stepSum as real) * A2Scale(mem, f);
    } else if HasA0(mem) {
      var first, delta := 0.0, 0.0;
      if Beams(mem) > 1 {
        first := A0First(mem, f);
        delta := (A0Last(mem, f) - first) / ((Beams(mem) - 1) as real);
      }
      angle := first + delta * (i as real);
    }
  }

  method BeamFlag(mem: Memory, i: u16) returns (good: bool)
    ensures good == Good(mem, i)
  {
    hide PhaseDetect, MagnitudeDetect, QualityFlag, HasQ0, QualityAt;
    if HasQ0(mem) {
      GoodIsAtLeastFour(mem, QualityAt(mem), i);
      good := PhaseDetect(mem, QualityAt(mem), i) || MagnitudeDetect(mem, QualityAt(mem), i);
    } else {
      good := true;
    }
  }

  // ---- Properties of the angles ----

  lemma {:induction false} ScaleAscending(a: real, b: real, scale: real)
    requires a <= b && scale >= 0.0
    ensures a * scale <= b * scale
  {
  }

  /** A2 angles do not decrease from beam to beam when the scaling factor is not negative. */
  lemma {:induction false} StepAnglesAscending(mem: Memory, f: Float, i: nat, j: nat)
    requires HasA2(mem) && A2Scale(mem, f) >= 0.0 && i <= j
    ensures RxAngle(mem, f, i) <= RxAngle(mem, f, j)
  {
    hide HasA2, A2First, A2Scale, StepSum;
    StepSumAscending(mem, i + 1, j + 1);
    ScaleAscending(StepSum(mem, i + 1) as real, StepSum(mem, j + 1) as real, A2Scale(mem, f));
  }

  lemma {:induction false} Interpolates(first: real, last: real, n: nat, i: nat)
    requires n > 1
    ensures first + (last - first) / ((n - 1) as real) * (0 as real) == first
    ensures first + (last - first) / ((n - 1) as real) * ((n - 1) as real) == last
    ensures (first + (last - first) / ((n - 1) as real) * ((i + 1) as real))
          - (first + (last - first) / ((n - 1) as real) * (i as real)) == (last - first) / ((n - 1) as real)
    ensures first < last ==> (last - first) / ((n - 1) as real) > 0.0
  {
    var delta := (last - first) / ((n - 1) as real);
    assert delta * ((i + 1) as real) == delta * (i as real) + delta;
  }

  /** A0 angles run from AngleFirst to AngleLast in equal steps, upwards when AngleFirst < AngleLast. */
  lemma {:induction false} EqualAnglesInterpolate(mem: Memory, f: Float, i: nat)
    requires HasA0(mem) && !HasA2(mem) && Beams(mem) > 1 && i + 1 < Beams(mem)
    ensures RxAngle(mem, f, 0) == A0First(mem, f)
    ensures RxAngle(mem, f, Beams(mem) - 1) == A0Last(mem, f)
    ensures RxAngle(mem, f, i + 1) - RxAngle(mem, f, i)
         == (A0Last(mem, f) - A0First(mem, f)) / ((Beams(mem) - 1) as real)
    ensures A0First(mem, f) < A0Last(mem, f) ==> RxAngle(mem, f, i) < RxAngle(mem, f, i + 1)
  {
    hide HasA2, HasA0, A0First, A0Last, Beams;
    Interpolates(A0First(mem, f), A0Last(mem, f), Beams(mem), i);
  }

  /** The first beam gets A0's AngleFirst if and only if there is more than one beam or that angle is
      zero: a single beam is always reported at angle zero. */
  lemma {:induction false} FirstBeamAtAngleFirst(mem: Memory, f: Float)
    requires HasA0(mem) && !HasA2(mem)
    ensures RxAngle(mem, f, 0) == A0First(mem, f) <==> Beams(mem) > 1 || A0First(mem, f) == 0.0
  {
    hide HasA2, HasA0, A0First, A0Last, Beams;
    if Beams(mem) > 1 {
      Interpolates(A0First(mem, f), A0Last(mem, f), Beams(mem), 0);
    }
  }
}
