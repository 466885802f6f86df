/** Bytes, memory and the big-endian primitives every R2Sonic datagram is made of. */
module Bytes {

  import opened Bits

  type u16 = x: nat | x < 0x1_0000
  type u32 = x: nat | x < 0x1_0000_0000

  /** The address space seen from the first byte of the receive buffer. A packet is a pointer into
      it and nothing in the source bounds an accessor, so memory is a total function. */
  type Memory = nat -> byte

  /** The bytes s are stored at address at. */
  predicate Holds(mem: Memory, at: nat, s: seq<byte>) {
    forall i :: 0 <= i < |s| ==> mem(at + i) == s[i]
  }

  lemma {:induction false} HoldsConcat(mem: Memory, at: nat, a: seq<byte>, b: seq<byte>)
    ensures Holds(mem, at, a + b) <==> Holds(mem, at, a) && Holds(mem, at + |a|, b)
  {
    if Holds(mem, at, a + b) {
      forall i | 0 <= i < |b| ensures mem(at + |a| + i) == b[i] {
        assert (a + b)[|a| + i] == b[i];
      }
      forall i | 0 <= i < |a| ensures mem(at + i) == a[i] {
        assert (a + b)[i] == a[i];
      }
    }
  }

  lemma {:induction false} HoldsPart(mem: Memory, at: nat, s: seq<byte>, i: nat, j: nat)
    requires i <= j <= |s| && Holds(mem, at, s)
    ensures Holds(mem, at + i, s[i..j])
  {
    forall k | 0 <= k < j - i ensures mem(at + i + k) == s[i..j][k] {
      assert s[i..j][k] == s[i + k];
    }
  }

  /** The letters of a name. */
  predicate Spells(s: seq<byte>, letters: string) {
    |s| == |letters| && forall i :: 0 <= i < |s| ==> s[i] == letters[i] as int
  }

  // ---- Reference meaning of a byte string ----

  function Pow256(n: nat): (p: nat)
    ensures p > 0
  {
    if n == 0 then 1 else Pow256(n - 1) * 256
  }

  /** Most significant byte first. */
  function BigEndian(s: seq<byte>): nat {
    if s == [] then 0 else BigEndian(s[..|s| - 1]) * 256 + s[|s| - 1]
  }

  function ToBigEndian(v: nat, width: nat): (s: seq<byte>)
    ensures |s| == width
  {
    if width == 0 then [] else ToBigEndian(v / 256, width - 1) + [v % 256]
  }

  lemma {:induction false} BigEndianSnoc(front: seq<byte>, last: byte)
    ensures BigEndian(front + [last]) == BigEndian(front) * 256 + last
  {
    assert (front + [last])[..|front|] == front;
  }

  lemma {:induction false} DivBelow(v: nat, p: nat)
    requires v < p * 256
    ensures v / 256 < p && v == (v / 256) * 256 + v % 256
  {
  }

  lemma {:induction false} BigEndianRoundTrip(v: nat, width: nat)
    requires v < Pow256(width)
    ensures BigEndian(ToBigEndian(v, width)) == v
  {
    if width == 0 {
    } else {
      DivBelow(v, Pow256(width - 1));
      BigEndianRoundTrip(v / 256, width - 1);
      var front, last := ToBigEndian(v / 256, width - 1), v % 256;
      BigEndianSnoc(front, last);
    }
  }

  lemma {:induction false} BigEndianOnto(s: seq<byte>)
    ensures BigEndian(s) < Pow256(|s|)
    ensures ToBigEndian(BigEndian(s), |s|) == s
  {
    if s == [] {
    } else {
      var front, last := s[..|s| - 1], s[|s| - 1];
      BigEndianOnto(front);
      assert BigEndian(s) / 256 == BigEndian(front);
      assert BigEndian(s) % 256 == last;
      assert s == front + [last];
    }
  }

  /** The number a little-endian host stores in the bytes s. */
  function LittleEndian(s: seq<byte>): nat {
    if s == [] then 0 else s[0] + LittleEndian(s[1..]) * 256
  }

  function ToLittleEndian(v: nat, width: nat): (s: seq<byte>)
    ensures |s| == width
  {
    if width == 0 then [] else [v % 256] + ToLittleEndian(v / 256, width - 1)
  }

  function Reversed(s: seq<byte>): (r: seq<byte>)
    ensures |r| == |s|
    ensures forall i :: 0 <= i < |s| ==> r[i] == s[|s| - 1 - i]
  {
    seq(|s|, i requires 0 <= i < |s| => s[|s| - 1 - i])
  }

  // ---- revPrimitive and BigEndianPrimative ----

  /** The byte-reversal loop, over the two members of the union. */
  method RevPrimitive(source: array<byte>) returns (dest: array<byte>)
    ensures fresh(dest) && dest[..] == Reversed(source[..])
  {
    dest := new byte[source.Length];
    var k := 0;
    while k < source.Length
      invariant 0 <= k <= source.Length
      invariant forall j :: 0 <= j < k ==> dest[j] == source[source.Length - j - 1]
    {
      dest[k] := source[source.Length - k - 1];
      k := k + 1;
    }
  }

  /** A primitive kept in wire order; raw is its storage on a little-endian host. */
  class BigEndianPrimative {
    var raw: array<byte>

    constructor (width: nat)
      ensures fresh(raw) && raw.Length == width
    {
      raw := new byte[width];
    }

    method Get() returns (v: nat)
      ensures v == BigEndian(raw[..])
    {
      var rev := RevPrimitive(raw);
      v := LittleEndian(rev[..]);
      GetIsBigEndian(raw[..]);
    }

    method Set(v: nat)
      requires v < Pow256(raw.Length)
      modifies this
      ensures fresh(raw) && raw.Length == old(raw.Length)
      ensures raw[..] == ToBigEndian(v, raw.Length)
    {
      var host := ToLittleEndian(v, raw.Length);
      var tmp := new byte[raw.Length](i requires 0 <= i < |host| => host[i]);
      assert tmp[..] == host;
      raw := RevPrimitive(tmp);
      SetIsBigEndian(v, raw.Length);
    }
  }

  lemma {:induction false} ReversedInvolution(s: seq<byte>)
    ensures Reversed(Reversed(s)) == s
  {
  }

  /** get() on a little-endian host is the base-256 value of the wire bytes, at every width. */
  lemma {:induction false} GetIsBigEndian(raw: seq<byte>)
    ensures LittleEndian(Reversed(raw)) == BigEndian(raw)
  {
    if raw == [] {
    } else {
      var front := raw[..|raw| - 1];
      GetIsBigEndian(front);
      assert Reversed(raw)[1..] == Reversed(front);
    }
  }

  /** set() stores the wire bytes of its argument, at every width. */
  lemma {:induction false} SetIsBigEndian(v: nat, width: nat)
    ensures Reversed(ToLittleEndian(v, width)) == ToBigEndian(v, width)
  {
    if width == 0 {
    } else {
      SetIsBigEndian(v / 256, width - 1);
      var rest := ToLittleEndian(v / 256, width - 1);
      assert Reversed([v % 256] + rest) == Reversed(rest) + [v % 256];
    }
  }

  lemma {:induction false} BigEndian4(p: seq<byte>)
    requires |p| == 4
    ensures BigEndian(p) == 0x100_0000 * (p[0] as nat) + 0x1_0000 * (p[1] as nat) + 0x100 * (p[2] as nat) + p[3]
  {
    BigEndian2(p[..2]);
    assert p[..3][..2] == p[..2];
    assert BigEndian(p[..3]) == BigEndian(p[..2]) * 256 + p[2];
  }

  lemma {:induction false} BigEndian2(p: seq<byte>)
    requires |p| == 2
    ensures BigEndian(p) == 0x100 * (p[0] as nat) + p[1]
  {
    assert p[..1] == [p[0]];
    assert BigEndian([p[0]]) == BigEndian([]) * 256 + p[0];
  }

  // ---- Reading a datagram ----

  function U16(mem: Memory, at: nat): u16 {
    0x100 * (mem(at) as nat) + mem(at + 1)
  }

  function U32(mem: Memory, at: nat): u32 {
    0x100_0000 * (mem(at) as nat) + 0x1_0000 * (mem(at + 1) as nat) + 0x100 * (mem(at + 2) as nat) + mem(at + 3)
  }

  /** Reading a field is decoding the bytes stored there. */
  lemma {:induction false} U16IsBigEndian(mem: Memory, at: nat, s: seq<byte>)
    requires |s| == 2 && Holds(mem, at, s)
    ensures U16(mem, at) == BigEndian(s)
  {
    BigEndian2(s);
  }

  lemma {:induction false} U32IsBigEndian(mem: Memory, at: nat, s: seq<byte>)
    requires |s| == 4 && Holds(mem, at, s)
    ensures U32(mem, at) == BigEndian(s)
  {
    BigEndian4(s);
  }

  function Put16(v: u16): (s: seq<byte>)
    ensures |s| == 2
  {
    ToBigEndian(v, 2)
  }

  function Put32(v: u32): (s: seq<byte>)
    ensures |s| == 4
  {
    ToBigEndian(v, 4)
  }

  lemma {:induction false} Width2()
    ensures Pow256(2) == 0x1_0000
  {
    assert Pow256(1) == 0x100;
  }

  lemma {:induction false} Width4()
    ensures Pow256(4) == 0x1_0000_0000
  {
    Width2();
    assert Pow256(3) == 0x100_0000;
  }

  lemma {:induction false} ReadBack16(mem: Memory, at: nat, v: u16)
    requires Holds(mem, at, Put16(v))
    ensures U16(mem, at) == v
  {
    Width2();
    BigEndianRoundTrip(v, 2);
    U16IsBigEndian(mem, at, Put16(v));
  }

  lemma {:induction false} ReadBack32(mem: Memory, at: nat, v: u32)
    requires Holds(mem, at, Put32(v))
    ensures U32(mem, at) == v
  {
    Width4();
    BigEndianRoundTrip(v, 4);
    U32IsBigEndian(mem, at, Put32(v));
  }

  // ---- Packed structs: consecutive big-endian fields of given widths ----

  predicate Fit(ws: seq<nat>, vs: seq<nat>) {
    && |ws| == |vs|
    && forall i :: 0 <= i < |ws| ==> vs[i] < Pow256(ws[i])
  }

  function Offset(ws: seq<nat>, k: nat): nat
    requires k <= |ws|
  {
    if k == 0 then 0 else Offset(ws, k - 1) + ws[k - 1]
  }

  /** The first k fields of the struct. */
  function Fields(ws: seq<nat>, vs: seq<nat>, k: nat): (s: seq<byte>)
    requires Fit(ws, vs) && k <= |ws|
    ensures |s| == Offset(ws, k)
  {
    if k == 0 then [] else Fields(ws, vs, k - 1) + ToBigEndian(vs[k - 1], ws[k - 1])
  }

  /** Every field of a packed struct is found at its offset. */
  lemma {:induction false} FieldInMemory(mem: Memory, at: nat, ws: seq<nat>, vs: seq<nat>, k: nat, n: nat)
    requires Fit(ws, vs) && k < n <= |ws|
    requires Holds(mem, at, Fields(ws, vs, n))
    ensures Holds(mem, at + Offset(ws, k), ToBigEndian(vs[k], ws[k]))
    decreases n
  {
    HoldsConcat(mem, at, Fields(ws, vs, n - 1), ToBigEndian(vs[n - 1], ws[n - 1]));
    if k < n - 1 {
      FieldInMemory(mem, at, ws, vs, k, n - 1);
    }
  }

  lemma {:induction false} ReadField16(mem: Memory, at: nat, v: nat, width: nat)
    requires width == 2 && v < Pow256(width) && Holds(mem, at, ToBigEndian(v, width))
    ensures U16(mem, at) == v
  {
    Width2();
    ReadBack16(mem, at, v);
  }

  lemma {:induction false} ReadField32(mem: Memory, at: nat, v: nat, width: nat)
    requires width == 4 && v < Pow256(width) && Holds(mem, at, ToBigEndian(v, width))
    ensures U32(mem, at) == v
  {
    Width4();
    ReadBack32(mem, at, v);
  }

  lemma {:induction false} Field32(mem: Memory, at: nat, ws: seq<nat>, vs: seq<nat>, k: nat)
    requires Fit(ws, vs) && k < |ws| && ws[k] == 4
    requires Holds(mem, at, Fields(ws, vs, |ws|))
    ensures U32(mem, at + Offset(ws, k)) == vs[k]
  {
    FieldInMemory(mem, at, ws, vs, k, |ws|);
    ReadField32(mem, at + Offset(ws, k), vs[k], ws[k]);
  }

  lemma {:induction false} Field16(mem: Memory, at: nat, ws: seq<nat>, vs: seq<nat>, k: nat)
    requires Fit(ws, vs) && k < |ws| && ws[k] == 2
    requires Holds(mem, at, Fields(ws, vs, |ws|))
    ensures U16(mem, at + Offset(ws, k)) == vs[k]
  {
    FieldInMemory(mem, at, ws, vs, k, |ws|);
    ReadField16(mem, at + Offset(ws, k), vs[k], ws[k]);
  }
}
