/** Bytes as numbers and as bit vectors. Kept apart so that only these lemmas reason about both. */
module Bits {
  type byte = x: nat | x < 256

  function Bv(x: byte): bv8 {
    x as bv8
  }

  /** A byte survives the conversion to a bit vector. Proved by counting up, because the solver is
      slow on the conversion itself. */
  lemma {:induction false} ByteRoundTrip(x: byte)
    ensures Bv(x) as nat == x
  {
    var b := Representation(x);
    Unique(x, b);
  }

  lemma {:induction false} Representation(x: nat) returns (b: bv8)
    requires x < 256
    ensures b as nat == x
  {
    if x == 0 {
      b := 0;
    } else {
      var c := Representation(x - 1);
      Successor(c);
      b := c + 1;
    }
  }

  lemma {:induction false} Successor(c: bv8)
    requires c as nat < 255
    ensures (c + 1) as nat == c as nat + 1
  {
  }

  lemma {:induction false} Unique(x: nat, b: bv8)
    requires x < 256 && b as nat == x
    ensures Bv(x) == b
  {
  }

  /** Shifting the bytes together is adding them with their weights. */
  lemma {:induction false} ShiftOr(a: bv8, b: bv8, c: bv8, d: bv8)
    ensures (((a as bv32) << 24) | ((b as bv32) << 16) | ((c as bv32) << 8) | (d as bv32)) as nat
         == a as nat * 0x100_0000 + b as nat * 0x1_0000 + c as nat * 0x100 + d as nat
  {
  }

  function XorNat(x: bv8, y: bv8): byte {
    (x ^ y) as nat
  }

  function Xor8(a: byte, b: byte): byte {
    XorNat(Bv(a), Bv(b))
  }

  lemma {:induction false} BvInjective(x: byte, y: byte)
    requires Bv(x) == Bv(y)
    ensures x == y
  {
    hide Bv;
    ByteRoundTrip(x);
    ByteRoundTrip(y);
  }

  lemma {:induction false} Xor8Cancels(a: byte, b: byte, c: byte)
    ensures Xor8(a, b) == Xor8(a, c) ==> b == c
    ensures Xor8(a, b) == Xor8(c, b) ==> a == c
  {
    hide Bv, XorNat;
    XorNatCancels(Bv(a), Bv(b), Bv(c));
    if Bv(b) == Bv(c) {
      BvInjective(b, c);
    }
    if Bv(a) == Bv(c) {
      BvInjective(a, c);
    }
  }

  lemma {:induction false} BvOfNat(b: bv8)
    ensures Bv(b as nat) == b
  {
  }

  lemma {:induction false} XorCancels(a: bv8, b: bv8, c: bv8)
    ensures a ^ b == a ^ c ==> b == c
    ensures a ^ b == c ^ b ==> a == c
  {
  }

  lemma {:induction false} XorNatCancels(a: bv8, b: bv8, c: bv8)
    ensures XorNat(a, b) == XorNat(a, c) ==> b == c
    ensures XorNat(a, b) == XorNat(c, b) ==> a == c
  {
    hide Bv;
    BvOfNat(a ^ b);
    BvOfNat(a ^ c);
    BvOfNat(c ^ b);
    XorCancels(a, b, c);
  }

  /** c is the exclusive or of a and b, and so any two of them give the third. */
  predicate XorsTo(a: bv8, b: bv8, c: bv8) {
    a ^ b == c && c ^ b == a && c ^ a == b
  }

  lemma {:induction false} XorBack(a: bv8, b: bv8)
    ensures XorsTo(a, b, a ^ b)
  {
  }

  /** Xor of literals. */
  lemma {:induction false} Xor8Is(a: byte, b: byte, x: bv8, y: bv8)
    requires x as nat == a && y as nat == b
    ensures Xor8(a, b) == XorNat(x, y)
  {
    hide Bv;
    Unique(a, x);
    Unique(b, y);
  }
}
