/** Sums of bytes as sums of bit vectors. Proved by counting up, because the solver is slow on the conversions. */
module Words {
  import opened Bits

  function Plus(a: bv10, b: bv10): bv10 {
    a + b
  }

  function AsWord(i: int): bv10
    decreases if i < 0 then -i else i
  {
    if i == 0 then 0 else if i > 0 then AsWord(i - 1) + 1 else AsWord(i + 1) - 1
  }

  lemma {:induction false} AsWordZero()
    ensures AsWord(0) == 0
  {
  }

  lemma {:induction false} AsWordNext(i: int)
    ensures AsWord(i + 1) == AsWord(i) + 1
  {
    if i >= 0 {
      assert AsWord(i + 1) == AsWord(i) + 1;
    } else {
      assert AsWord(i) == AsWord(i + 1) - 1;
      MinusPlus(AsWord(i + 1));
    }
  }

  lemma {:induction false} MinusPlus(c: bv10)
    ensures (c - 1) + 1 == c
  {
  }

  lemma {:induction false} PlusZero(a: bv10)
    ensures Plus(a, 0) == a
  {
  }

  lemma {:induction false} PlusNext(a: bv10, b: bv10)
    ensures Plus(a, b + 1) == Plus(a, b) + 1
  {
  }

  lemma {:induction false} Cancel(a: bv10, b: bv10)
    requires a + 1 == b + 1
    ensures a == b
  {
  }

  lemma {:induction false} AsWordSum(i: int, j: int)
    ensures AsWord(i + j) == Plus(AsWord(i), AsWord(j))
    decreases if j < 0 then -j else j
  {
    hide AsWord, Plus;
    if j == 0 {
      AsWordZero();
      PlusZero(AsWord(i));
    } else if j > 0 {
      AsWordSum(i, j - 1);
      SumNext(i, j - 1);
    } else {
      AsWordSum(i, j + 1);
      SumNext(i, j);
      Cancel(AsWord(i + j), Plus(AsWord(i), AsWord(j)));
    }
  }

  /** Both sides of the sum grow by one. */
  lemma {:induction false} SumNext(i: int, j: int)
    ensures AsWord(i + (j + 1)) == AsWord(i + j) + 1
    ensures Plus(AsWord(i), AsWord(j + 1)) == Plus(AsWord(i), AsWord(j)) + 1
  {
    hide AsWord, Plus;
    assert i + (j + 1) == (i + j) + 1;
    AsWordNext(i + j);
    AsWordNext(j);
    PlusNext(AsWord(i), AsWord(j));
  }

  function Wide(x: bv8): bv10 {
    x as bv10
  }

  lemma {:induction false} WideNext(c: bv8)
    requires c as nat < 255
    ensures Wide(c + 1) == Wide(c) + 1
  {
  }

  /** The sum of two bytes in eight bits. */
  function ByteSum(x: byte, y: byte): byte {
    (x + y) % 256
  }

  lemma {:induction false} ByteSumNext(x: byte, y: byte)
    requires y > 0
    ensures ByteSum(x, y) == ByteSum(ByteSum(x, y - 1), 1)
  {
    var z := x + (y - 1);
    Modulo(z % 256 + 1, z / 256);
  }

  lemma {:induction false} ByteSumSmall(x: byte)
    ensures ByteSum(x, 0) == x
    ensures x > 0 ==> ByteSum(x - 1, 1) == x
  {
  }

  lemma {:induction false} BvNext(x: byte)
    ensures Bv(ByteSum(x, 1)) == Bv(x) + 1
  {
    hide Bv;
    ByteRoundTrip(x);
    if x == 255 {
      Unique(255, 255);
      Unique(0, 0);
    } else {
      Successor(Bv(x));
      Unique(x + 1, Bv(x) + 1);
    }
  }

  lemma {:induction false} BvWide(x: byte)
    ensures Wide(Bv(x)) == AsWord(x)
  {
    hide Bv, ByteSum;
    if x == 0 {
      Unique(0, 0);
    } else {
      BvWide(x - 1);
      BvNext(x - 1);
      ByteSumSmall(x);
      ByteRoundTrip(x - 1);
      WideNext(Bv(x - 1));
    }
  }

  function Plus8(a: bv8, b: bv8): bv8 {
    a + b
  }

  lemma {:induction false} Plus8Zero(a: bv8)
    ensures Plus8(a, 0) == a
  {
  }

  lemma {:induction false} Plus8Next(a: bv8, b: bv8)
    ensures Plus8(a, b + 1) == Plus8(a, b) + 1
  {
  }

  lemma {:induction false} Modulo(v: int, k: int)
    ensures (v + k * 256) % 256 == v % 256
  {
  }

  lemma {:induction false} BvSum(x: byte, y: byte)
    ensures Bv(ByteSum(x, y)) == Plus8(Bv(x), Bv(y))
  {
    hide Bv, Plus8, ByteSum;
    if y == 0 {
      Unique(0, 0);
      ByteSumSmall(x);
      Plus8Zero(Bv(x));
    } else {
      BvSum(x, y - 1);
      ByteSumNext(x, y);
      BvNext(ByteSum(x, y - 1));
      BvNext(y - 1);
      ByteSumSmall(y);
      Plus8Next(Bv(x), Bv(y - 1));
    }
  }
}
