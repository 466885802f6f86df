/** The 32-bit FNV-1a hash of draft-eastlake-fnv, section 2, and how well it tells byte strings apart. */
module Fnv {
  import opened Bits
  import opened Bytes

  const OFFSET_BASIS: u32 := 0x811C_9DC5
  const PRIME: u32 := 0x0100_0193
  /** PRIME * INVERSE is 1 modulo 2^32. */
  const INVERSE: u32 := 0x359C_449B

  /** hash ^= byte: only the low eight bits change. */
  function XorByte(h: u32, b: byte): u32 {
    h - h % 256 + Xor8(h % 256, b)
  }

  /** One round: hash ^= byte, then hash *= FNV_PRIME in 32 bits. */
  function Mix(h: u32, b: byte): u32 {
    (XorByte(h, b) * PRIME) % 0x1_0000_0000
  }

  /** The state after hashing s from state h. */
  function HashFrom(h: u32, s: seq<byte>): u32 {
    if s == [] then h else Mix(HashFrom(h, s[..|s| - 1]), s[|s| - 1])
  }

  function Hash(s: seq<byte>): u32 {
    HashFrom(OFFSET_BASIS, s)
  }

  method Fnv1aHash(data: seq<byte>) returns (hash: u32)
    ensures hash == Hash(data)
  {
    hide Mix;
    hash := OFFSET_BASIS;
    var i := 0;
    while i < |data|
      invariant 0 <= i <= |data|
      invariant hash == HashFrom(OFFSET_BASIS, data[..i])
    {
      assert data[..i + 1][..i] == data[..i];
      hash := Mix(hash, data[i]);
      i := i + 1;
    }
    assert data[..i] == data;
  }

  // ---- Each round is a bijection on the state ----

  lemma {:induction false} TimesPrimeInvertible(x: u32)
    ensures ((x * PRIME) % 0x1_0000_0000 * INVERSE) % 0x1_0000_0000 == x
  {
    var i := (x * PRIME) / 0x1_0000_0000;
    var r := (x * PRIME) % 0x1_0000_0000;
    assert r == x * PRIME - i * 0x1_0000_0000;
    assert r * INVERSE == x + (x * 0x35_9C99 - i * INVERSE) * 0x1_0000_0000;
    PlusMultiple(x, x * 0x35_9C99 - i * INVERSE);
  }

  lemma {:induction false} PlusMultiple(x: u32, k: int)
    ensures (x + k * 0x1_0000_0000) % 0x1_0000_0000 == x
  {
  }

  lemma {:induction false} TimesPrimeInjective(x: u32, y: u32)
    requires (x * PRIME) % 0x1_0000_0000 == (y * PRIME) % 0x1_0000_0000
    ensures x == y
  {
    TimesPrimeInvertible(x);
    TimesPrimeInvertible(y);
  }

  lemma {:induction false} XorByteInjective(h: u32, k: u32, b: byte, c: byte)
    requires XorByte(h, b) == XorByte(k, c)
    ensures b == c ==> h == k
    ensures h == k ==> b == c
    ensures -255 <= h - k <= 255
  {
    hide Xor8;
    Xor8Cancels(h % 256, b, k % 256);
    Xor8Cancels(h % 256, b, c);
  }

  /** For a fixed byte different states stay different, and for a fixed state different bytes give
      different states. */
  lemma {:induction false} MixInjective(h: u32, k: u32, b: byte, c: byte)
    requires Mix(h, b) == Mix(k, c)
    ensures b == c ==> h == k
    ensures h == k ==> b == c
    ensures -255 <= h - k <= 255
  {
    hide XorByte;
    TimesPrimeInjective(XorByte(h, b), XorByte(k, c));
    XorByteInjective(h, k, b, c);
  }

  lemma {:induction false} HashFromInjective(h: u32, k: u32, s: seq<byte>)
    requires h != k
    ensures HashFrom(h, s) != HashFrom(k, s)
  {
    hide Mix;
    if s == [] {
    } else {
      var front, last := s[..|s| - 1], s[|s| - 1];
      HashFromInjective(h, k, front);
      if Mix(HashFrom(h, front), last) == Mix(HashFrom(k, front), last) {
        MixInjective(HashFrom(h, front), HashFrom(k, front), last, last);
      }
    }
  }

  lemma {:induction false} HashFromConcat(h: u32, a: seq<byte>, b: seq<byte>)
    ensures HashFrom(h, a + b) == HashFrom(HashFrom(h, a), b)
  {
    hide Mix;
    if b == [] {
      assert a + b == a;
    } else {
      HashFromConcat(h, a, b[..|b| - 1]);
      assert (a + b)[..|a + b| - 1] == a + b[..|b| - 1];
    }
  }

  // ---- Three adjacent bytes ----

  /** A round turns a small difference d of xored states into d * PRIME. */
  lemma {:induction false} MixDifference(h: u32, k: u32, b: byte, c: byte) returns (d: int, z: int)
    ensures d == XorByte(h, b) - XorByte(k, c)
    ensures Mix(h, b) - Mix(k, c) == d * PRIME - z * 0x1_0000_0000
  {
    hide XorByte;
    var x, y := XorByte(h, b), XorByte(k, c);
    d := x - y;
    z := (x * PRIME) / 0x1_0000_0000 - (y * PRIME) / 0x1_0000_0000;
  }

  /** Xoring bytes changes the difference of two states by less than 511. */
  lemma {:induction false} XorByteNear(h: u32, k: u32, b: byte, c: byte)
    ensures -510 <= (XorByte(h, b) - XorByte(k, c)) - (h - k) <= 510
  {
    hide Xor8;
  }

  /** One prime times a byte difference is never within a byte of a multiple of 2^32. */
  lemma {:induction false} FarAfterOne(d: int, z: int)
    requires -255 <= d <= 255 && d != 0
    ensures !(-255 <= d * PRIME - z * 0x1_0000_0000 <= 255)
  {
  }

  lemma {:induction false} NearMultiple(q: int, k: int)
    requires -103_275 <= k <= 103_275
    ensures -255 <= q * 0x100_0000 + 403 * k <= 255 ==>
              || (q == 0 && k == 0)
              || (q == 1 && k == -41_631) || (q == -1 && k == 41_631)
              || (q == 2 && (k == -83_262 || k == -83_261)) || (q == -2 && (k == 83_262 || k == 83_261))
  {
  }

  /** Nor is it after a second round. With T = 2^24 and PRIME = T + 403, the product is
      q*T + 403*k modulo 2^32, and a multiple of 403 comes that close to q*T only for five values of q. */
  lemma {:induction false} FarAfterTwo(d: int, e: int, z: int)
    requires -255 <= d <= 255 && d != 0 && -510 <= e <= 510
    ensures !(-255 <= (d * PRIME + e) * PRIME - z * 0x1_0000_0000 <= 255)
  {
    var k := 403 * d + e;
    var q := 806 * d + e - 256 * (z - 65536 * d);
    assert (d * PRIME + e) * PRIME - z * 0x1_0000_0000 == q * 0x100_0000 + 403 * k;
    NearMultiple(q, k);
    if -255 <= q * 0x100_0000 + 403 * k <= 255 {
      assert false;
    }
  }

  /** Two different first bytes cannot be made up for by the second. */
  lemma {:induction false} TwoBytesDiffer(h: u32, b: byte, c: byte, b1: byte, c1: byte)
    requires b != c
    ensures Mix(Mix(h, b), b1) != Mix(Mix(h, c), c1)
  {
    hide Mix, XorByte;
    var d, z := FirstDifference(h, b, c);
    FarAfterOne(d, z);
    if Mix(Mix(h, b), b1) == Mix(Mix(h, c), c1) {
      MixInjective(Mix(h, b), Mix(h, c), b1, c1);
    }
  }

  lemma {:induction false} FirstDifference(h: u32, b: byte, c: byte) returns (d: int, z: int)
    requires b != c
    ensures -255 <= d <= 255 && d != 0 && d == XorByte(h, b) - XorByte(h, c)
    ensures Mix(h, b) - Mix(h, c) == d * PRIME - z * 0x1_0000_0000
  {
    hide Mix, Xor8;
    d, z := MixDifference(h, h, b, c);
    if XorByte(h, b) == XorByte(h, c) {
      XorByteInjective(h, h, b, c);
    }
  }

  /** Nor by the second and the third. */
  lemma {:induction false} ThreeBytesDiffer(h: u32, b: byte, c: byte, b1: byte, c1: byte, b2: byte, c2: byte)
    requires b != c
    ensures Mix(Mix(Mix(h, b), b1), b2) != Mix(Mix(Mix(h, c), c1), c2)
  {
    hide Mix, XorByte;
    var u, v := Mix(h, b), Mix(h, c);
    var d, z := FirstDifference(h, b, c);
    var d1, z1 := MixDifference(u, v, b1, c1);
    XorByteNear(u, v, b1, c1);
    var e := d1 - (u as int - v as int);
    assert d1 * PRIME - z1 * 0x1_0000_0000 == (d * PRIME + e) * PRIME - (z * PRIME + z1) * 0x1_0000_0000;
    FarAfterTwo(d, e, z * PRIME + z1);
    if Mix(Mix(u, b1), b2) == Mix(Mix(v, c1), c2) {
      MixInjective(Mix(u, b1), Mix(v, c1), b2, c2);
    }
  }

  lemma {:induction false} HashUnroll(h: u32, s: seq<byte>)
    ensures |s| == 1 ==> HashFrom(h, s) == Mix(h, s[0])
    ensures |s| == 2 ==> HashFrom(h, s) == Mix(Mix(h, s[0]), s[1])
    ensures |s| == 3 ==> HashFrom(h, s) == Mix(Mix(Mix(h, s[0]), s[1]), s[2])
    ensures |s| == 4 ==> HashFrom(h, s) == Mix(Mix(Mix(Mix(h, s[0]), s[1]), s[2]), s[3])
  {
    hide Mix;
    if 0 < |s| <= 4 {
      HashUnroll(h, s[..|s| - 1]);
    }
  }

  /** Any two different strings of the same length up to three take a state to different states. */
  lemma {:induction false} ShortDiffer(h: u32, s: seq<byte>, t: seq<byte>)
    requires |s| == |t| <= 3 && s != t
    ensures HashFrom(h, s) != HashFrom(h, t)
    decreases |s|
  {
    hide Mix, HashFrom;
    HashUnroll(h, s);
    HashUnroll(h, t);
    if s[0] == t[0] {
      assert s == [s[0]] + s[1..] && t == [t[0]] + t[1..];
      ShortDiffer(HashFrom(h, [s[0]]), s[1..], t[1..]);
      HashFromConcat(h, [s[0]], s[1..]);
      HashFromConcat(h, [s[0]], t[1..]);
    } else if |s| == 1 {
      if Mix(h, s[0]) == Mix(h, t[0]) {
        MixInjective(h, h, s[0], t[0]);
      }
    } else if |s| == 2 {
      TwoBytesDiffer(h, s[0], t[0], s[1], t[1]);
    } else {
      ThreeBytesDiffer(h, s[0], t[0], s[1], t[1], s[2], t[2]);
    }
  }

  /** Two strings that differ only within three adjacent bytes always have different hashes. */
  lemma {:induction false} WindowDiffers(before: seq<byte>, s: seq<byte>, t: seq<byte>, after: seq<byte>)
    requires |s| == |t| <= 3 && s != t
    ensures Hash(before + s + after) != Hash(before + t + after)
  {
    hide HashFrom;
    var h := HashFrom(OFFSET_BASIS, before);
    HashFromConcat(OFFSET_BASIS, before, s);
    HashFromConcat(OFFSET_BASIS, before, t);
    HashFromConcat(OFFSET_BASIS, before + s, after);
    HashFromConcat(OFFSET_BASIS, before + t, after);
    ShortDiffer(h, s, t);
    HashFromInjective(HashFrom(h, s), HashFrom(h, t), after);
  }

  /** One round of a concrete hash; u and v are the low byte of h and b as bit vectors. */
  lemma {:induction false} Round(h: u32, b: byte, u: bv8, v: bv8, x: u32, next: u32)
    requires u as nat == h % 256 && v as nat == b && x == h - h % 256 + XorNat(u, v)
    requires (x * PRIME) % 0x1_0000_0000 == next
    ensures Mix(h, b) == next
  {
    Xor8Is(h % 256, b, u, v);
  }

  // ---- Known hashes ----

  lemma {:induction false} HashOfNothing()
    ensures Hash([]) == 0x811C_9DC5
  {
  }

  /** One more byte of a concrete hash; u and v are the low byte of h and b as bit vectors. */
  lemma {:induction false} Append(s: seq<byte>, b: byte, h: u32, u: bv8, v: bv8, x: u32, next: u32)
    returns (longer: seq<byte>)
    requires Hash(s) == h
    requires u as nat == h % 256 && v as nat == b && x == h - h % 256 + XorNat(u, v)
    requires (x * PRIME) % 0x1_0000_0000 == next
    ensures longer == s + [b] && Hash(longer) == next
  {
    hide Mix;
    longer := s + [b];
    Round(h, b, u, v, x, next);
    assert longer[..|s|] == s;
  }

  /** Two test vectors of draft-eastlake-fnv: the hashes of "a" and "foobar". */
  lemma {:induction false} TestVectors()
    ensures Hash([0x61]) == 0xE40C_292C
    ensures Hash([0x66, 0x6F, 0x6F, 0x62, 0x61, 0x72]) == 0xBF9C_F968
  {
    hide Hash;
    HashOfNothing();
    var s: seq<byte> := [];
    s := Append(s, 0x61, 0x811C_9DC5, 0xC5, 0x61, 0x811C_9DA4, 0xE40C_292C);
    assert s == [0x61];
    s := [];
    s := Append(s, 0x66, 0x811C_9DC5, 0xC5, 0x66, 0x811C_9DA3, 0xE30C_2799);
    s := Append(s, 0x6F, 0xE30C_2799, 0x99, 0x6F, 0xE30C_27F6, 0x6222_E842);
    s := Append(s, 0x6F, 0x6222_E842, 0x42, 0x6F, 0x6222_E82D, 0xA9F3_7ED7);
    s := Append(s, 0x62, 0xA9F3_7ED7, 0xD7, 0x62, 0xA9F3_7EB5, 0x3F50_76EF);
    s := Append(s, 0x61, 0x3F50_76EF, 0xEF, 0x61, 0x3F50_768E, 0x39AA_A18A);
    s := Append(s, 0x72, 0x39AA_A18A, 0x8A, 0x72, 0x39AA_A1F8, 0xBF9C_F968);
    assert s == [0x66, 0x6F, 0x6F, 0x62, 0x61, 0x72];
  }
}
