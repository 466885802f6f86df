/** Four adjacent bytes, of which only the first and the last differ: they never collide. A collision would be a
    short vector of a lattice; up to sign there are ten, and exclusive or forbids each of them. */
module FourBytes {
  import opened Bits
  import opened Bytes
  import opened Words
  import opened Fnv

  // ---- The short vectors ----

  /** Difference of the xored states after the first byte, and half of what xoring the second and the third byte
      adds to it. */
  datatype Drifts = Drifts(d: int, a: int, b: int) {
    predicate IsShort() {
      || this == Drifts(56, 79, 100) || this == Drifts(112, 158, 200) || this == Drifts(108, -172, 69)
      || this == Drifts(164, -93, 169) || this == Drifts(52, -251, -31) || this == Drifts(7, -223, 192)
      || this == Drifts(101, 51, -123) || this == Drifts(157, 130, -23) || this == Drifts(213, 209, 77)
      || this == Drifts(45, -28, -223)
    }

    function Negated(): Drifts {
      Drifts(-d, -a, -b)
    }
  }

  /** The difference of the states after three rounds, for some z. */
  function Third(v: Drifts, z: int): int {
    ((v.d * PRIME + 2 * v.a) * PRIME + 2 * v.b) * PRIME - z * 0x1_0000_0000
  }

  /** In the reduced basis of the lattice only three small coefficients are left. */
  lemma {:induction false} SmallCoefficients(p: int, q: int, r: int, s: int)
    requires -255 <= -56 * p + 108 * q - 101 * r - 336 * s <= 255
    requires -255 <= -79 * p - 172 * q - 51 * r - 63 * s <= 255
    requires -255 <= -100 * p + 69 * q + 123 * r + 290 * s <= 255
    requires -255 <= -14 * p - 54 * q + 213 * r - 274 * s <= 255
    ensures s == 0 && -1 <= r <= 1 && -1 <= q <= 1 && -2 <= p <= 2
  {
  }

  /** The difference in the coordinates of that basis. */
  lemma {:induction false} Coordinates(v: Drifts, z: int) returns (p: int, q: int, r: int, s: int)
    ensures v.d == -56 * p + 108 * q - 101 * r - 336 * s
    ensures v.a == -79 * p - 172 * q - 51 * r - 63 * s
    ensures v.b == -100 * p + 69 * q + 123 * r + 290 * s
    ensures Third(v, z) == -14 * p - 54 * q + 213 * r - 274 * s
  {
    var d, a, b := v.d, v.a, v.b;
    var k := 0x100_04B9_076F * d + 0x2_0006 * a - z;
    assert Third(v, z) == 0x3EE6_B34B * d + 0x4C04_F4D2 * a + 0x200_0326 * b + 0x1_0000_0000 * k;
    p := 139_260 * d + 168_303 * a + 4_428 * b + 566_771 * k;
    q := -595_251 * d - 719_392 * a - 18_927 * b - 2_422_598 * k;
    r := 3_271_663 * d + 3_953_976 * a + 104_028 * b + 13_315_264 * k;
    s := -1_197_987 * d - 1_447_830 * a - 38_092 * b - 4_875_659 * k;
  }

  lemma {:induction false} ShortVectors(v: Drifts, z: int)
    requires -255 <= v.d <= 255 && v.d != 0 && -255 <= v.a <= 255 && -255 <= v.b <= 255
    requires -255 <= Third(v, z) <= 255
    ensures v.IsShort() || v.Negated().IsShort()
  {
    hide Third;
    var p, q, r, s := Coordinates(v, z);
    SmallCoefficients(p, q, r, s);
    assert (r == 0 || r == 1 || r == -1) && (q == 0 || q == 1 || q == -1);
    assert p == 0 || p == 1 || p == -1 || p == 2 || p == -2;
  }

  // ---- The low byte of a state ----

  /** The low byte of PRIME times a state with low byte x. */
  function Low(x: bv8): bv8 {
    0x93 * x
  }

  lemma {:induction false} LowZero()
    ensures Low(0) == 0
  {
  }

  lemma {:induction false} LowNext(x: bv8)
    ensures Low(x + 1) == Plus8(Low(x), 0x93)
  {
  }

  /** The same on numbers. */
  function Times(x: byte): byte {
    (0x93 * x) % 256
  }

  lemma {:induction false} TimesNext(x: byte)
    requires x > 0
    ensures Times(x) == ByteSum(Times(x - 1), 0x93)
  {
    var y := 0x93 * (x - 1);
    Modulo(y % 256 + 0x93, y / 256);
  }

  lemma {:induction false} LowOfProduct(x: byte)
    ensures Bv(Times(x)) == Low(Bv(x))
  {
    hide Bv, Low, Plus8, ByteSum;
    if x == 0 {
      Unique(0, 0);
      LowZero();
    } else {
      hide Times;
      LowOfProduct(x - 1);
      TimesNext(x);
      BvNext(x - 1);
      ByteSumSmall(x);
      LowNext(Bv(x - 1));
      BvSum(Times(x - 1), 0x93);
      Unique(0x93, 0x93);
    }
  }

  // ---- Exclusive or forbids the short vectors ----

  /** The low byte after the second round. */
  function Next(x: bv8, b: bv8): bv8 {
    Low(Low(x) ^ b)
  }

  /** x - y is k. */
  predicate Rises(x: bv8, y: bv8, k: bv8) {
    Wide(x) == Plus(Wide(y), Wide(k))
  }

  /** Xoring b adds 2 * k to x - y. */
  predicate Drifted(x: bv8, y: bv8, b: bv8, k: bv8) {
    Plus(Wide(x ^ b), Wide(y)) == Plus(Plus(Wide(y ^ b), Wide(x)), Plus(Wide(k), Wide(k)))
  }

  lemma {:induction false} FirstXorForbids(x: bv8, y: bv8, b: bv8)
    ensures Rises(x, y, 56) ==> !Drifted(Low(x), Low(y), b, 79)
    ensures Rises(x, y, 112) ==> !Drifted(Low(x), Low(y), b, 158)
    ensures Rises(x, y, 108) ==> !Drifted(Low(y), Low(x), b, 172)
    ensures Rises(x, y, 164) ==> !Drifted(Low(y), Low(x), b, 93)
    ensures Rises(x, y, 52) ==> !Drifted(Low(y), Low(x), b, 251)
    ensures Rises(x, y, 7) ==> !Drifted(Low(y), Low(x), b, 223)
  {
  }

  lemma {:induction false} Forbids101(x: bv8, y: bv8, b: bv8, c: bv8)
    requires Rises(x, y, 101) && Drifted(Low(x), Low(y), b, 51)
    ensures !Drifted(Next(y, b), Next(x, b), c, 123)
  {
  }

  lemma {:induction false} Forbids157(x: bv8, y: bv8, b: bv8, c: bv8)
    requires Rises(x, y, 157) && Drifted(Low(x), Low(y), b, 130)
    ensures !Drifted(Next(y, b), Next(x, b), c, 23)
  {
  }

  lemma {:induction false} Forbids213(x: bv8, y: bv8, b: bv8, c: bv8)
    requires Rises(x, y, 213) && Drifted(Low(x), Low(y), b, 209)
    ensures !Drifted(Next(x, b), Next(y, b), c, 77)
  {
  }

  lemma {:induction false} Forbids45(x: bv8, y: bv8, b: bv8, c: bv8)
    requires Rises(x, y, 45) && Drifted(Low(y), Low(x), b, 28)
    ensures !Drifted(Next(y, b), Next(x, b), c, 223)
  {
  }

  lemma {:induction false} DifferenceRises(x: byte, y: byte, k: bv8)
    requires x - y == k as nat
    ensures Rises(Bv(x), Bv(y), k)
  {
    hide Bv, Plus;
    BvWide(x);
    BvWide(y);
    BvWide(k as nat);
    BvOfNat(k);
    AsWordSum(y, k as nat);
  }

  lemma {:induction false} XorIsXor(x: byte, b: byte)
    ensures Bv(Xor8(x, b)) == Bv(x) ^ Bv(b)
  {
    hide Bv;
    BvOfNat(Bv(x) ^ Bv(b));
  }

  lemma {:induction false} DifferenceDrifts(x: byte, y: byte, b: byte, k: bv8)
    requires (Xor8(x, b) - Xor8(y, b)) - (x - y) == 2 * (k as nat)
    ensures Drifted(Bv(x), Bv(y), Bv(b), k)
  {
    hide Bv, Plus, Xor8, AsWord, Wide;
    var p, q, n := Xor8(x, b), Xor8(y, b), k as nat;
    XorIsXor(x, b);
    XorIsXor(y, b);
    BvWide(x);
    BvWide(y);
    BvWide(p);
    BvWide(q);
    BvWide(n);
    BvOfNat(k);
    AsWordSum(p, y);
    AsWordSum(q, x);
    AsWordSum(n, n);
    AsWordSum(q + x, n + n);
  }

  /** What xoring b adds to x - y. */
  function Drift(x: byte, y: byte, b: byte): int {
    (Xor8(x, b) - Xor8(y, b)) - (x - y)
  }

  /** The drifts of two states with low bytes x and y through the bytes b and c. */
  predicate AreDrifts(v: Drifts, x: byte, y: byte, b: byte, c: byte) {
    && v.d == x - y && 2 * v.a == Drift(Times(x), Times(y), b)
    && 2 * v.b == Drift(Times(Xor8(Times(x), b)), Times(Xor8(Times(y), b)), c)
  }

  lemma {:induction false} AsBits(x: byte, b: byte)
    ensures Bv(Times(x)) == Low(Bv(x))
    ensures Bv(Times(Xor8(Times(x), b))) == Next(Bv(x), Bv(b))
  {
    hide Bv, Low, Xor8;
    LowOfProduct(x);
    XorIsXor(Times(x), b);
    LowOfProduct(Xor8(Times(x), b));
  }

  lemma {:induction false} NotByFirst(x: byte, y: byte, b: byte, c: byte, v: Drifts)
    requires AreDrifts(v, x, y, b, c)
    ensures v != Drifts(56, 79, 100) && v != Drifts(112, 158, 200) && v != Drifts(108, -172, 69)
    ensures v != Drifts(164, -93, 169) && v != Drifts(52, -251, -31) && v != Drifts(7, -223, 192)
  {
    hide Bv, Low, Next, Xor8, Times, Rises, Drifted;
    AsBits(x, b);
    AsBits(y, b);
    FirstXorForbids(Bv(x), Bv(y), Bv(b));
    if v.d == 56 && v.a == 79 {
      DifferenceRises(x, y, 56);
      DifferenceDrifts(Times(x), Times(y), b, 79);
    }
    if v.d == 112 && v.a == 158 {
      DifferenceRises(x, y, 112);
      DifferenceDrifts(Times(x), Times(y), b, 158);
    }
    if v.d == 108 && v.a == -172 {
      DifferenceRises(x, y, 108);
      DifferenceDrifts(Times(y), Times(x), b, 172);
    }
    if v.d == 164 && v.a == -93 {
      DifferenceRises(x, y, 164);
      DifferenceDrifts(Times(y), Times(x), b, 93);
    }
    if v.d == 52 && v.a == -251 {
      DifferenceRises(x, y, 52);
      DifferenceDrifts(Times(y), Times(x), b, 251);
    }
    if v.d == 7 && v.a == -223 {
      DifferenceRises(x, y, 7);
      DifferenceDrifts(Times(y), Times(x), b, 223);
    }
  }

  lemma {:induction false} NotBySecond(x: byte, y: byte, b: byte, c: byte, v: Drifts)
    requires AreDrifts(v, x, y, b, c)
    ensures v != Drifts(101, 51, -123) && v != Drifts(157, 130, -23)
    ensures v != Drifts(213, 209, 77) && v != Drifts(45, -28, -223)
  {
    hide Bv, Low, Next, Xor8, Times, Rises, Drifted;
    AsBits(x, b);
    AsBits(y, b);
    var p, q := Times(Xor8(Times(x), b)), Times(Xor8(Times(y), b));
    if v == Drifts(101, 51, -123) {
      DifferenceRises(x, y, 101);
      DifferenceDrifts(Times(x), Times(y), b, 51);
      DifferenceDrifts(q, p, c, 123);
      Forbids101(Bv(x), Bv(y), Bv(b), Bv(c));
    } else if v == Drifts(157, 130, -23) {
      DifferenceRises(x, y, 157);
      DifferenceDrifts(Times(x), Times(y), b, 130);
      DifferenceDrifts(q, p, c, 23);
      Forbids157(Bv(x), Bv(y), Bv(b), Bv(c));
    } else if v == Drifts(213, 209, 77) {
      DifferenceRises(x, y, 213);
      DifferenceDrifts(Times(x), Times(y), b, 209);
      DifferenceDrifts(p, q, c, 77);
      Forbids213(Bv(x), Bv(y), Bv(b), Bv(c));
    } else if v == Drifts(45, -28, -223) {
      DifferenceRises(x, y, 45);
      DifferenceDrifts(Times(y), Times(x), b, 28);
      DifferenceDrifts(q, p, c, 223);
      Forbids45(Bv(x), Bv(y), Bv(b), Bv(c));
    }
  }

  /** The drifts of actual states are never short. */
  lemma {:induction false} NotShort(x: byte, y: byte, b: byte, c: byte, v: Drifts)
    requires AreDrifts(v, x, y, b, c)
    ensures !v.IsShort() && !v.Negated().IsShort()
  {
    hide Drift, Times, Xor8;
    NotByFirst(x, y, b, c, v);
    NotBySecond(x, y, b, c, v);
    Mirrored(x, y, b, c, v);
    NotByFirst(y, x, b, c, v.Negated());
    NotBySecond(y, x, b, c, v.Negated());
  }

  lemma {:induction false} Mirrored(x: byte, y: byte, b: byte, c: byte, v: Drifts)
    requires AreDrifts(v, x, y, b, c)
    ensures AreDrifts(v.Negated(), y, x, b, c)
  {
    hide Times, Xor8;
  }

  // ---- Four bytes ----

  predicate Odd(x: bv8) {
    x & 1 == 1
  }

  lemma {:induction false} OddIs(x: bv8)
    ensures Odd(x) <==> x as nat % 2 == 1
  {
  }

  lemma {:induction false} OddXor(x: bv8, b: bv8)
    ensures Odd(x ^ b) <==> (Odd(x) <==> !Odd(b))
  {
  }

  lemma {:induction false} OddByte(x: byte)
    ensures Odd(Bv(x)) <==> x % 2 == 1
  {
    hide Bv, Odd;
    ByteRoundTrip(x);
    OddIs(Bv(x));
  }

  lemma {:induction false} XorParity(x: byte, b: byte)
    ensures Xor8(x, b) % 2 == 1 <==> (x % 2 == 1 <==> b % 2 == 0)
  {
    hide Bv, Odd, XorNat;
    OddByte(x);
    OddByte(b);
    XorNatParity(Bv(x), Bv(b));
  }

  lemma {:induction false} XorNatParity(x: bv8, b: bv8)
    ensures XorNat(x, b) % 2 == 1 <==> (Odd(x) <==> !Odd(b))
  {
    hide Odd;
    OddIs(x ^ b);
    OddXor(x, b);
  }

  lemma {:induction false} HalfDrift(x: byte, y: byte, b: byte) returns (a: int)
    ensures 2 * a == Drift(x, y, b) && -255 <= a <= 255
  {
    hide Xor8;
    XorParity(x, b);
    XorParity(y, b);
    a := Drift(x, y, b) / 2;
  }

  lemma {:induction false} XorByteLow(h: u32, b: byte)
    ensures XorByte(h, b) % 256 == Xor8(h % 256, b)
  {
    hide Xor8;
  }

  lemma {:induction false} MixLow(h: u32, b: byte)
    ensures Mix(h, b) % 256 == Times(Xor8(h % 256, b))
  {
    hide XorByte, Xor8;
    XorByteLow(h, b);
    var x := XorByte(h, b);
    var z, y := (x * PRIME) / 0x1_0000_0000, x / 256;
    assert x == 256 * y + x % 256;
    assert Mix(h, b) == x * PRIME - z * 0x1_0000_0000;
    Modulo(0x93 * (x % 256), PRIME * y + 0x1_0001 * (x % 256) - z * 0x100_0000);
  }

  /** A difference of states after a round, for some z. */
  function Rounded(d: int, z: int): int {
    d * PRIME - z * 0x1_0000_0000
  }

  /** One round with the same byte. */
  lemma {:induction false} SameByteRound(h: u32, k: u32, b: byte) returns (a: int, z: int)
    ensures 2 * a == Drift(h % 256, k % 256, b) && -255 <= a <= 255
    ensures Mix(h, b) - Mix(k, b) == Rounded(h - k + 2 * a, z)
  {
    hide Mix, Xor8;
    a := HalfDrift(h % 256, k % 256, b);
    var d;
    d, z := MixDifference(h, k, b, b);
  }

  lemma {:induction false} LowBytes(h: u32, b: byte, c: byte, b1: byte, b2: byte, v: Drifts)
    requires v.d == Xor8(h % 256, b) - Xor8(h % 256, c)
    requires 2 * v.a == Drift(Mix(h, b) % 256, Mix(h, c) % 256, b1)
    requires 2 * v.b == Drift(Mix(Mix(h, b), b1) % 256, Mix(Mix(h, c), b1) % 256, b2)
    ensures AreDrifts(v, Xor8(h % 256, b), Xor8(h % 256, c), b1, b2)
  {
    hide Mix, Drift, Times, Xor8;
    MixLow(h, b);
    MixLow(h, c);
    MixLow(Mix(h, b), b1);
    MixLow(Mix(h, c), b1);
  }

  /** The difference of two states after three rounds that differ in the first byte. */
  lemma {:induction false} AfterThree(h: u32, b: byte, c: byte, b1: byte, b2: byte) returns (v: Drifts, w: int)
    requires b != c
    ensures AreDrifts(v, Xor8(h % 256, b), Xor8(h % 256, c), b1, b2)
    ensures -255 <= v.d <= 255 && v.d != 0 && -255 <= v.a <= 255 && -255 <= v.b <= 255
    ensures Mix(Mix(Mix(h, b), b1), b2) - Mix(Mix(Mix(h, c), b1), b2) == Third(v, w)
  {
    hide Mix, XorByte, Drift, AreDrifts, Xor8, Third;
    var s, t := Mix(h, b), Mix(h, c);
    var d, z := FirstDifference(h, b, c);
    FirstIs(h, b, c);
    var a, e;
    a, e, w := TwoMoreRounds(s, t, b1, b2, d, z);
    v := Drifts(d, a, e);
    LowBytes(h, b, c, b1, b2, v);
  }

  lemma {:induction false} TwoMoreRounds(s: u32, t: u32, b1: byte, b2: byte, d: int, z: int)
    returns (a: int, e: int, w: int)
    requires s - t == Rounded(d, z)
    ensures 2 * a == Drift(s % 256, t % 256, b1) && -255 <= a <= 255
    ensures 2 * e == Drift(Mix(s, b1) % 256, Mix(t, b1) % 256, b2) && -255 <= e <= 255
    ensures Mix(Mix(s, b1), b2) - Mix(Mix(t, b1), b2) == Third(Drifts(d, a, e), w)
  {
    hide Mix, Drift, Third, Rounded;
    var z1, z2;
    a, z1 := SameByteRound(s, t, b1);
    e, z2 := SameByteRound(Mix(s, b1), Mix(t, b1), b2);
    var s2, t2 := Mix(s, b1), Mix(t, b1);
    var s3, t3 := Mix(s2, b2), Mix(t2, b2);
    w := ThirdIs(Drifts(d, a, e), s as int - t, s2 as int - t2, s3 as int - t3, z, z1, z2);
  }

  /** A different first byte cannot be made up for by the fourth when the second and the third are the same. */
  lemma {:induction false} FirstAndLastDiffer(h: u32, b: byte, c: byte, b1: byte, b2: byte, b3: byte, c3: byte)
    requires b != c
    ensures Mix(Mix(Mix(Mix(h, b), b1), b2), b3) != Mix(Mix(Mix(Mix(h, c), b1), b2), c3)
  {
    hide Mix, AreDrifts, Third, Drifts.IsShort, Drifts.Negated;
    var v, w := AfterThree(h, b, c, b1, b2);
    NotShort(Xor8(h % 256, b), Xor8(h % 256, c), b1, b2, v);
    var s, t := Mix(Mix(Mix(h, b), b1), b2), Mix(Mix(Mix(h, c), b1), b2);
    if Mix(s, b3) == Mix(t, c3) {
      MixInjective(s, t, b3, c3);
      ShortVectors(v, w);
    }
  }

  lemma {:induction false} ThirdIs(v: Drifts, d1: int, d2: int, d3: int, z: int, z1: int, z2: int) returns (w: int)
    requires d1 == Rounded(v.d, z) && d2 == Rounded(d1 + 2 * v.a, z1) && d3 == Rounded(d2 + 2 * v.b, z2)
    ensures d3 == Third(v, w)
  {
    w := z * PRIME * PRIME + z1 * PRIME + z2;
  }

  lemma {:induction false} FirstIs(h: u32, b: byte, c: byte)
    ensures XorByte(h, b) - XorByte(h, c) == Xor8(h % 256, b) - Xor8(h % 256, c)
  {
    hide Xor8;
  }

  // ---- Which changes of four bytes are always seen ----

  /** The positions in which two strings of four bytes differ. */
  function Changed(s: seq<byte>, t: seq<byte>): set<nat>
    requires |s| == |t| == 4
  {
    set i | 0 <= i < 4 && s[i] != t[i]
  }

  /** The positions lie within three adjacent bytes, or are the first and the last. */
  predicate AlwaysSeen(positions: set<nat>) {
    0 !in positions || 3 !in positions || positions == {0, 3}
  }

  /** Such a change always changes the hash. */
  lemma {:induction false} SeenChangeDiffers(before: seq<byte>, s: seq<byte>, t: seq<byte>, after: seq<byte>)
    requires |s| == |t| == 4 && s != t && AlwaysSeen(Changed(s, t))
    ensures Hash(before + s + after) != Hash(before + t + after)
  {
    hide Hash;
    if 0 !in Changed(s, t) {
      assert before + s + after == (before + [s[0]]) + s[1..] + after;
      assert before + t + after == (before + [s[0]]) + t[1..] + after;
      WindowDiffers(before + [s[0]], s[1..], t[1..], after);
    } else if 3 !in Changed(s, t) {
      assert before + s + after == before + s[..3] + ([s[3]] + after);
      assert before + t + after == before + t[..3] + ([s[3]] + after);
      WindowDiffers(before, s[..3], t[..3], [s[3]] + after);
    } else {
      assert 1 !in Changed(s, t) && 2 !in Changed(s, t);
      EndsDiffer(before, s, t, after);
    }
  }

  lemma {:induction false} EndsDiffer(before: seq<byte>, s: seq<byte>, t: seq<byte>, after: seq<byte>)
    requires |s| == |t| == 4 && s[0] != t[0] && s[1] == t[1] && s[2] == t[2]
    ensures Hash(before + s + after) != Hash(before + t + after)
  {
    hide HashFrom, Mix;
    var h := HashFrom(OFFSET_BASIS, before);
    HashFromConcat(OFFSET_BASIS, before, s);
    HashFromConcat(OFFSET_BASIS, before, t);
    HashFromConcat(OFFSET_BASIS, before + s, after);
    HashFromConcat(OFFSET_BASIS, before + t, after);
    HashUnroll(h, s);
    HashUnroll(h, t);
    FirstAndLastDiffer(h, s[0], t[0], s[1], s[2], s[3], t[3]);
    HashFromInjective(HashFrom(h, s), HashFrom(h, t), after);
  }

  lemma {:induction false} Hash00E60568()
    ensures HashFrom(OFFSET_BASIS, [0x00, 0xE6, 0x05, 0x68]) == 0x2611_D336
  {
    hide Mix;
    HashUnroll(OFFSET_BASIS, [0x00, 0xE6, 0x05, 0x68]);
    Round(0x811C_9DC5, 0x00, 0xC5, 0x00, 0x811C_9DC5, 0x050C_5D1F);
    Round(0x050C_5D1F, 0xE6, 0x1F, 0xE6, 0x050C_5DF9, 0xEB77_EEFB);
    Round(0xEB77_EEFB, 0x05, 0xFB, 0x05, 0xEB77_EEFE, 0xABCD_39DA);
    Round(0xABCD_39DA, 0x68, 0xDA, 0x68, 0xABCD_39B2, 0x2611_D336);
  }

  lemma {:induction false} Hash06708003()
    ensures HashFrom(OFFSET_BASIS, [0x06, 0x70, 0x80, 0x03]) == 0x2611_D336
  {
    hide Mix;
    HashUnroll(OFFSET_BASIS, [0x06, 0x70, 0x80, 0x03]);
    Round(0x811C_9DC5, 0x06, 0xC5, 0x06, 0x811C_9DC3, 0x030C_59F9);
    Round(0x030C_59F9, 0x70, 0xF9, 0x70, 0x030C_5989, 0x5570_F2AB);
    Round(0x5570_F2AB, 0x80, 0xAB, 0x80, 0x5570_F22B, 0xABCD_39B1);
    Round(0xABCD_39B1, 0x03, 0xB1, 0x03, 0xABCD_39B2, 0x2611_D336);
  }

  lemma {:induction false} Hash3CC01500()
    ensures HashFrom(OFFSET_BASIS, [0x3C, 0xC0, 0x15, 0x00]) == 0x39BB_6214
  {
    hide Mix;
    HashUnroll(OFFSET_BASIS, [0x3C, 0xC0, 0x15, 0x00]);
    Round(0x811C_9DC5, 0x3C, 0xC5, 0x3C, 0x811C_9DF9, 0x390C_AEFB);
    Round(0x390C_AEFB, 0xC0, 0xFB, 0xC0, 0x390C_AE3B, 0x09F6_46E1);
    Round(0x09F6_46E1, 0x15, 0xE1, 0x15, 0x09F6_46F4, 0xA2B1_B21C);
    Round(0xA2B1_B21C, 0x00, 0x1C, 0x00, 0xA2B1_B21C, 0x39BB_6214);
  }

  lemma {:induction false} Hash6CF91545()
    ensures HashFrom(OFFSET_BASIS, [0x6C, 0xF9, 0x15, 0x45]) == 0x39BB_6214
  {
    hide Mix;
    HashUnroll(OFFSET_BASIS, [0x6C, 0xF9, 0x15, 0x45]);
    Round(0x811C_9DC5, 0x6C, 0xC5, 0x6C, 0x811C_9DA9, 0xE90C_310B);
    Round(0xE90C_310B, 0xF9, 0x0B, 0xF9, 0xE90C_31F2, 0xD032_9FF6);
    Round(0xD032_9FF6, 0x15, 0xF6, 0x15, 0xD032_9FE3, 0xA2B1_B259);
    Round(0xA2B1_B259, 0x45, 0x59, 0x45, 0xA2B1_B21C, 0x39BB_6214);
  }

  lemma {:induction false} Hash604DF600()
    ensures HashFrom(OFFSET_BASIS, [0x60, 0x4D, 0xF6, 0x00]) == 0x47A2_2A00
  {
    hide Mix;
    HashUnroll(OFFSET_BASIS, [0x60, 0x4D, 0xF6, 0x00]);
    Round(0x811C_9DC5, 0x60, 0xC5, 0x60, 0x811C_9DA5, 0xE50C_2ABF);
    Round(0xE50C_2ABF, 0x4D, 0xBF, 0x4D, 0xE50C_2AF2, 0x8427_9AF6);
    Round(0x8427_9AF6, 0xF6, 0xF6, 0xF6, 0x8427_9A00, 0x0A57_6E00);
    Round(0x0A57_6E00, 0x00, 0x00, 0x00, 0x0A57_6E00, 0x47A2_2A00);
  }

  lemma {:induction false} Hash854D00D5()
    ensures HashFrom(OFFSET_BASIS, [0x85, 0x4D, 0x00, 0xD5]) == 0x47A2_2A00
  {
    hide Mix;
    HashUnroll(OFFSET_BASIS, [0x85, 0x4D, 0x00, 0xD5]);
    Round(0x811C_9DC5, 0x85, 0xC5, 0x85, 0x811C_9D40, 0x800B_8BC0);
    Round(0x800B_8BC0, 0x4D, 0xC0, 0x4D, 0x800B_8B8D, 0x1F2C_AEF7);
    Round(0x1F2C_AEF7, 0x00, 0xF7, 0x00, 0x1F2C_AEF7, 0x0A57_6ED5);
    Round(0x0A57_6ED5, 0xD5, 0xD5, 0xD5, 0x0A57_6E00, 0x47A2_2A00);
  }

  lemma {:induction false} SameStart(s: seq<byte>, t: seq<byte>, after: seq<byte>)
    requires HashFrom(OFFSET_BASIS, s) == HashFrom(OFFSET_BASIS, t)
    ensures Hash(s + after) == Hash(t + after)
  {
    hide HashFrom;
    HashFromConcat(OFFSET_BASIS, s, after);
    HashFromConcat(OFFSET_BASIS, t, after);
  }

  /** These pairs collide, whatever follows. */
  lemma {:induction false} FourBytesCollide(after: seq<byte>)
    ensures Hash([0x00, 0xE6, 0x05, 0x68] + after) == Hash([0x06, 0x70, 0x80, 0x03] + after)
    ensures Hash([0x3C, 0xC0, 0x15, 0x00] + after) == Hash([0x6C, 0xF9, 0x15, 0x45] + after)
    ensures Hash([0x60, 0x4D, 0xF6, 0x00] + after) == Hash([0x85, 0x4D, 0x00, 0xD5] + after)
  {
    hide Hash, HashFrom;
    SameStart([0x00, 0xE6, 0x05, 0x68], [0x06, 0x70, 0x80, 0x03], after) by {
      Hash00E60568();
      Hash06708003();
    }
    SameStart([0x3C, 0xC0, 0x15, 0x00], [0x6C, 0xF9, 0x15, 0x45], after) by {
      Hash3CC01500();
      Hash6CF91545();
    }
    SameStart([0x60, 0x4D, 0xF6, 0x00], [0x85, 0x4D, 0x00, 0xD5], after) by {
      Hash604DF600();
      Hash854D00D5();
    }
  }

  // ---- The same collisions after other bytes ----

  function PrimePower(n: nat): int {
    if n == 0 then 1 else PrimePower(n - 1) * PRIME
  }

  lemma {:induction false} LowBytesStay(h: u32, k: u32, s: seq<byte>)
    requires h % 256 == k % 256
    ensures HashFrom(h, s) % 256 == HashFrom(k, s) % 256
  {
    if s == [] {
    } else {
      hide Mix, Times, Xor8;
      var front, last := s[..|s| - 1], s[|s| - 1];
      LowBytesStay(h, k, front);
      MixLow(HashFrom(h, front), last);
      MixLow(HashFrom(k, front), last);
    }
  }

  /** A multiple of d, modulo 2^32. */
  function Multiple(d: int, power: int, z: int): int {
    d * power - z * 0x1_0000_0000
  }

  /** Two states with the same low byte keep a difference that does not depend on the bytes hashed. */
  lemma {:induction false} SameLowByte(h: u32, k: u32, s: seq<byte>) returns (z: int)
    requires h % 256 == k % 256
    ensures HashFrom(k, s) as int - HashFrom(h, s) as int == Multiple(k as int - h as int, PrimePower(|s|), z)
  {
    hide Mix, PrimePower, Multiple;
    z := 0;
    if s == [] {
      Once(k as int - h as int);
    } else {
      var front, last := s[..|s| - 1], s[|s| - 1];
      var z1 := SameLowByte(h, k, front);
      LowBytesStay(h, k, front);
      var u, v := HashFrom(h, front), HashFrom(k, front);
      var z2 := SameLowRound(u, v, last);
      PowerNext(|front|);
      z := Product(k as int - h as int, v as int - u as int, PrimePower(|front|), z1, z2);
    }
  }

  lemma {:induction false} Once(d: int)
    ensures Multiple(d, PrimePower(0), 0) == d
  {
  }

  lemma {:induction false} SameLowRound(u: u32, v: u32, b: byte) returns (z: int)
    requires u % 256 == v % 256
    ensures Mix(v, b) as int - Mix(u, b) as int == Multiple(v as int - u as int, PRIME, z)
  {
    hide Mix, XorByte;
    var d;
    d, z := MixDifference(v, u, b, b);
    SameXor(v, u, b);
  }

  lemma {:induction false} SameXor(h: u32, k: u32, b: byte)
    requires h % 256 == k % 256
    ensures XorByte(h, b) - XorByte(k, b) == h - k
  {
    hide Xor8;
  }

  lemma {:induction false} PowerNext(n: nat)
    ensures PrimePower(n + 1) == PrimePower(n) * PRIME
  {
  }

  lemma {:induction false} Product(d: int, e: int, power: int, z1: int, z2: int) returns (z: int)
    requires e == Multiple(d, power, z1)
    ensures Multiple(e, PRIME, z2) == Multiple(d, power * PRIME, z)
  {
    z := z1 * PRIME + z2;
    assert d * (power * PRIME) == (d * power) * PRIME;
  }

  /** What collides from one state collides from every state with the same low byte. */
  lemma {:induction false} CollisionMoves(h: u32, k: u32, s: seq<byte>, t: seq<byte>)
    requires h % 256 == k % 256 && |s| == |t| && HashFrom(h, s) == HashFrom(h, t)
    ensures HashFrom(k, s) == HashFrom(k, t)
  {
    hide HashFrom, PrimePower;
    var z := SameLowByte(h, k, s);
    var y := SameLowByte(h, k, t);
    CloseIsSame(HashFrom(k, s), HashFrom(k, t), y - z);
  }

  lemma {:induction false} CloseIsSame(x: u32, y: u32, z: int)
    requires x - y == z * 0x1_0000_0000
    ensures x == y
  {
  }

  /** Two strings that differ in exactly these positions. */
  function CollidingPair(positions: set<nat>): (pair: (seq<byte>, seq<byte>))
    ensures |pair.0| == |pair.1| == 4
  {
    if 1 !in positions then ([0x60, 0x4D, 0xF6, 0x00], [0x85, 0x4D, 0x00, 0xD5])
    else if 2 !in positions then ([0x3C, 0xC0, 0x15, 0x00], [0x6C, 0xF9, 0x15, 0x45])
    else ([0x00, 0xE6, 0x05, 0x68], [0x06, 0x70, 0x80, 0x03])
  }

  lemma {:induction false} PairChanges(positions: set<nat>)
    requires positions <= {0, 1, 2, 3} && !AlwaysSeen(positions)
    ensures var (s, t) := CollidingPair(positions); s != t && Changed(s, t) == positions
  {
  }

  /** Every set of positions that is not always seen has a change that is not seen, after any bytes that bring the
      hash to the low byte of the offset basis. */
  lemma {:induction false} PairCollides(positions: set<nat>, before: seq<byte>, after: seq<byte>)
    requires positions <= {0, 1, 2, 3} && !AlwaysSeen(positions)
    requires HashFrom(OFFSET_BASIS, before) % 256 == OFFSET_BASIS % 256
    ensures var (s, t) := CollidingPair(positions); Hash(before + s + after) == Hash(before + t + after)
  {
    hide HashFrom;
    var (s, t) := CollidingPair(positions);
    Hash00E60568();
    Hash06708003();
    Hash3CC01500();
    Hash6CF91545();
    Hash604DF600();
    Hash854D00D5();
    CollisionMoves(OFFSET_BASIS, HashFrom(OFFSET_BASIS, before), s, t);
    HashFromConcat(OFFSET_BASIS, before, s);
    HashFromConcat(OFFSET_BASIS, before, t);
    HashFromConcat(OFFSET_BASIS, before + s, after);
    HashFromConcat(OFFSET_BASIS, before + t, after);
  }

  /** There is a byte that does so, after any bytes. */
  lemma {:induction false} SteeringByte(h: u32) returns (b: byte)
    ensures Mix(h, b) % 256 == OFFSET_BASIS % 256
  {
    hide Mix, Xor8;
    b := Xor8(h % 256, 0x47);
    XorTwice(h % 256, 0x47);
    MixLow(h, b);
  }

  lemma {:induction false} XorTwice(x: byte, y: byte)
    ensures Xor8(x, Xor8(x, y)) == y
  {
    hide Bv, Xor8;
    var z := Xor8(x, y);
    XorIsXor(x, y);
    XorIsXor(z, x);
    XorSelf(Bv(x), Bv(y));
    XorIsXor(x, z);
    BvInjective(Xor8(x, z), y);
  }

  lemma {:induction false} XorSelf(x: bv8, y: bv8)
    ensures x ^ (x ^ y) == y
  {
  }
}
