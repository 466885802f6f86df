/** The optional-section chain: every accessor starts where the previous section ends, and an
    absent section has size zero. */
module Sections {
  import opened Bits
  import opened Bytes
  import opened Wrappers

  /** A two-character section name. */
  type Name = s: seq<byte> | |s| == 2 witness [0, 0]

  const MINI_HEADER: nat := 12
  const INFO: nat := 4

  const H0: Name := [0x48, 0x30]
  const R0: Name := [0x52, 0x30]
  const A0: Name := [0x41, 0x30]
  const A1: Name := [0x41, 0x31]
  const A2: Name := [0x41, 0x32]
  const I1: Name := [0x49, 0x31]
  const G0: Name := [0x47, 0x30]
  const G1: Name := [0x47, 0x31]
  const Q0: Name := [0x51, 0x30]
  const M0: Name := [0x4D, 0x30]

  /** The order in which each packet class nests its accessors. */
  const BTH0_CHAIN: seq<Name> := [H0, R0, A0, A2, I1, G0, G1, Q0]
  const AID0_CHAIN: seq<Name> := [H0, A1, M0]

  predicate ChainSpells(chain: seq<Name>, names: seq<string>) {
    |chain| == |names| && forall k :: 0 <= k < |chain| ==> Spells(chain[k], names[k])
  }

  /** The letters each accessor looks for, in the order in which the accessors nest. */
  lemma {:induction false} ChainLetters()
    ensures ChainSpells(BTH0_CHAIN, ["H0", "R0", "A0", "A2", "I1", "G0", "G1", "Q0"])
    ensures ChainSpells(AID0_CHAIN, ["H0", "A1", "M0"])
  {
  }

  // ---- The accessors, as the source computes them ----

  predicate Exists(mem: Memory, at: nat, name: Name) {
    mem(at) == name[0] && mem(at + 1) == name[1]
  }

  function Size(mem: Memory, at: nat, name: Name): u16 {
    if !Exists(mem, at, name) then 0 else U16(mem, at + 2)
  }

  function End(mem: Memory, at: nat, name: Name): nat {
    at + Size(mem, at, name)
  }

  /** Address of the k-th accessor of a chain. */
  function Start(mem: Memory, chain: seq<Name>, k: nat): nat
    requires k <= |chain|
  {
    if k == 0 then MINI_HEADER else End(mem, Start(mem, chain, k - 1), chain[k - 1])
  }

  // ---- The writer: what the sonar sends ----

  /** For each name of the chain, the body of the section or nothing. */
  type Contents = seq<Option<seq<byte>>>

  predicate Writable(chain: seq<Name>, contents: Contents) {
    && |contents| == |chain|
    && forall k :: 0 <= k < |contents| && contents[k].Some? ==> INFO + |contents[k].value| < 0x1_0000
  }

  function SectionBytes(name: Name, body: seq<byte>): (s: seq<byte>)
    requires INFO + |body| < 0x1_0000
    ensures |s| == INFO + |body|
  {
    name + Put16(INFO + |body|) + body
  }

  /** The bytes section k contributes: none when it is absent. */
  function Piece(chain: seq<Name>, contents: Contents, k: nat): seq<byte>
    requires Writable(chain, contents) && k < |chain|
  {
    match contents[k]
    case None => []
    case Some(body) => SectionBytes(chain[k], body)
  }

  /** The bytes of the first k sections. */
  function Written(chain: seq<Name>, contents: Contents, k: nat): seq<byte>
    requires Writable(chain, contents) && k <= |chain|
  {
    if k == 0 then [] else Written(chain, contents, k - 1) + Piece(chain, contents, k - 1)
  }

  /** Where section k belongs: after the mini header and the present earlier sections. */
  function Place(chain: seq<Name>, contents: Contents, k: nat): nat
    requires Writable(chain, contents) && k <= |chain|
  {
    MINI_HEADER + |Written(chain, contents, k)|
  }

  ghost predicate Distinct(chain: seq<Name>) {
    forall i, j :: 0 <= i < j < |chain| ==> chain[i] != chain[j]
  }

  /** Section k and every later one were left out. */
  predicate NoneFrom(contents: Contents, k: nat) {
    forall j :: k <= j < |contents| ==> contents[j].None?
  }

  /** The bytes behind the datagram do not spell the name of section k, if it and all later ones are absent. */
  predicate ClearFor(mem: Memory, chain: seq<Name>, contents: Contents, k: nat)
    requires Writable(chain, contents) && k < |chain|
  {
    NoneFrom(contents, k) ==> !Exists(mem, Place(chain, contents, |chain|), chain[k])
  }

  /** The two bytes after the last section spell no trailing absent section's name. The receive
      buffer is reused, so they are whatever an earlier, longer datagram left there. */
  ghost predicate TailClear(mem: Memory, chain: seq<Name>, contents: Contents)
    requires Writable(chain, contents)
  {
    forall k :: 0 <= k < |chain| ==> ClearFor(mem, chain, contents, k)
  }

  /** Every accessor points at its section, and exists() tells the present sections apart. */
  ghost predicate Faithful(mem: Memory, chain: seq<Name>, contents: Contents)
    requires Writable(chain, contents)
  {
    forall k :: 0 <= k < |chain| ==>
      && Start(mem, chain, k) == Place(chain, contents, k)
      && (Exists(mem, Start(mem, chain, k), chain[k]) <==> contents[k].Some?)
  }

  lemma {:induction false} HoldsPiece(mem: Memory, chain: seq<Name>, contents: Contents, k: nat, n: nat)
    requires Writable(chain, contents) && k < n <= |chain| && contents[k].Some?
    requires Holds(mem, MINI_HEADER, Written(chain, contents, n))
    ensures Holds(mem, Place(chain, contents, k), SectionBytes(chain[k], contents[k].value))
    decreases n
  {
    hide Holds, SectionBytes;
    HoldsConcat(mem, MINI_HEADER, Written(chain, contents, n - 1), Piece(chain, contents, n - 1));
    if k < n - 1 {
      HoldsPiece(mem, chain, contents, k, n - 1);
    }
  }

  lemma {:induction false} SectionReadsBack(mem: Memory, at: nat, name: Name, body: seq<byte>)
    requires INFO + |body| < 0x1_0000 && Holds(mem, at, SectionBytes(name, body))
    ensures Exists(mem, at, name)
    ensures End(mem, at, name) == at + INFO + |body|
    ensures Holds(mem, at + INFO, body)
  {
    HoldsConcat(mem, at, name + Put16(INFO + |body|), body);
    HoldsConcat(mem, at, name, Put16(INFO + |body|));
    ReadBack16(mem, at + 2, INFO + |body|);
  }

  /** A written section is found at its place with its name, size and body. */
  lemma {:induction false} HoldsSection(mem: Memory, chain: seq<Name>, contents: Contents, k: nat)
    requires Writable(chain, contents) && k < |chain| && contents[k].Some?
    requires Holds(mem, MINI_HEADER, Written(chain, contents, |chain|))
    ensures Exists(mem, Place(chain, contents, k), chain[k])
    ensures End(mem, Place(chain, contents, k), chain[k]) == Place(chain, contents, k + 1)
    ensures Holds(mem, Place(chain, contents, k) + INFO, contents[k].value)
  {
    HoldsPiece(mem, chain, contents, k, |chain|);
    SectionReadsBack(mem, Place(chain, contents, k), chain[k], contents[k].value);
  }

  lemma {:induction false} SkipAbsent(chain: seq<Name>, contents: Contents, k: nat, j: nat)
    requires Writable(chain, contents) && k <= j <= |chain|
    requires forall i :: k <= i < j ==> contents[i].None?
    ensures Place(chain, contents, k) == Place(chain, contents, j)
    decreases j
  {
    if k == j {
    } else {
      SkipAbsent(chain, contents, k, j - 1);
    }
  }

  /** The next section after k that was written, or the end of the chain. */
  function NextPresent(contents: Contents, k: nat): (j: nat)
    requires k <= |contents|
    ensures k <= j <= |contents|
    ensures forall i :: k <= i < j ==> contents[i].None?
    ensures j < |contents| ==> contents[j].Some?
    decreases |contents| - k
  {
    if k < |contents| && contents[k].None? then NextPresent(contents, k + 1) else k
  }

  /** An absent section does not exist at its place: the next present section has another name, and
      past the last one the tail is clear. */
  lemma {:induction false} AbsentIsAbsent(mem: Memory, chain: seq<Name>, contents: Contents, k: nat)
    requires Writable(chain, contents) && Distinct(chain) && k < |chain| && contents[k].None?
    requires Holds(mem, MINI_HEADER, Written(chain, contents, |chain|)) && ClearFor(mem, chain, contents, k)
    ensures !Exists(mem, Place(chain, contents, k), chain[k])
  {
    var j := NextPresent(contents, k);
    SkipAbsent(chain, contents, k, j);
    if j == |chain| {
      assert NoneFrom(contents, k);
    } else {
      HoldsSection(mem, chain, contents, j);
      DifferentName(mem, Place(chain, contents, j), chain[j], chain[k]);
    }
  }

  lemma {:induction false} DifferentName(mem: Memory, at: nat, name: Name, other: Name)
    requires Exists(mem, at, name) && name != other
    ensures !Exists(mem, at, other)
  {
    assert name[0] != other[0] || name[1] != other[1];
  }

  /** An accessor stands at its place as soon as the tail is clear for the sections before it. */
  lemma {:induction false} AccessorStands(mem: Memory, chain: seq<Name>, contents: Contents, k: nat)
    requires Writable(chain, contents) && Distinct(chain) && k <= |chain|
    requires Holds(mem, MINI_HEADER, Written(chain, contents, |chain|))
    requires forall j :: 0 <= j < k ==> ClearFor(mem, chain, contents, j)
    ensures Start(mem, chain, k) == Place(chain, contents, k)
  {
    hide ClearFor;
    if k == 0 {
    } else {
      AccessorStands(mem, chain, contents, k - 1);
      if contents[k - 1].Some? {
        HoldsSection(mem, chain, contents, k - 1);
      } else {
        AbsentIsAbsent(mem, chain, contents, k - 1);
      }
    }
  }

  lemma {:induction false} AccessorsFind(mem: Memory, chain: seq<Name>, contents: Contents, k: nat)
    requires Writable(chain, contents) && Distinct(chain) && k <= |chain|
    requires Holds(mem, MINI_HEADER, Written(chain, contents, |chain|))
    requires TailClear(mem, chain, contents)
    ensures Start(mem, chain, k) == Place(chain, contents, k)
    ensures k < |chain| ==> (Exists(mem, Start(mem, chain, k), chain[k]) <==> contents[k].Some?)
  {
    assert forall j :: 0 <= j < |chain| ==> ClearFor(mem, chain, contents, j);
    AccessorStands(mem, chain, contents, k);
    if k < |chain| {
      if contents[k].Some? {
        HoldsSection(mem, chain, contents, k);
      } else {
        AbsentIsAbsent(mem, chain, contents, k);
      }
    }
  }

  /** Section-chain round trip, for every subset of optional sections: the accessors recover exactly
      what was written if and only if the stale bytes behind the datagram are clear. */
  lemma {:induction false} ChainRoundTrip(mem: Memory, chain: seq<Name>, contents: Contents)
    requires Writable(chain, contents) && Distinct(chain)
    requires Holds(mem, MINI_HEADER, Written(chain, contents, |chain|))
    ensures Faithful(mem, chain, contents) <==> TailClear(mem, chain, contents)
  {
    if TailClear(mem, chain, contents) {
      forall k | 0 <= k < |chain|
        ensures Start(mem, chain, k) == Place(chain, contents, k)
        ensures Exists(mem, Start(mem, chain, k), chain[k]) <==> contents[k].Some?
      {
        AccessorsFind(mem, chain, contents, k);
      }
    }
    if Faithful(mem, chain, contents) {
      forall k | 0 <= k < |chain| && NoneFrom(contents, k)
        ensures !Exists(mem, Place(chain, contents, |chain|), chain[k])
      {
        SkipAbsent(chain, contents, k, |chain|);
        assert contents[k].None?;
      }
    }
  }

  /** A buffer that holds these bytes, then this name, then zeros. */
  function StaleBuffer(bytes: seq<byte>, name: Name): Memory {
    (i: nat) => if i < |bytes| then bytes[i] else if i < |bytes| + 2 then name[i - |bytes|] else 0
  }

  lemma {:induction false} StaleBufferHolds(header: seq<byte>, w: seq<byte>, name: Name)
    ensures var mem, end := StaleBuffer(header + w, name), |header| + |w|;
            && Holds(mem, 0, header) && Holds(mem, |header|, w) && Exists(mem, end, name)
            && forall i: nat :: i >= end + 2 ==> mem(i) == 0
  {
    var mem := StaleBuffer(header + w, name);
    assert Holds(mem, 0, header + w);
    HoldsConcat(mem, 0, header, w);
  }

  /** Nothing but luck keeps the tail clear: whatever the mini header, whenever the last section of the chain is
      absent there is a buffer holding the datagram, and zeros behind it, in which it is seen. */
  lemma {:induction false} StaleBytesMislead(header: seq<byte>, chain: seq<Name>, contents: Contents)
    returns (mem: Memory)
    requires |header| == MINI_HEADER
    requires Writable(chain, contents) && Distinct(chain) && chain != [] && contents[|chain| - 1].None?
    ensures Holds(mem, 0, header) && Holds(mem, MINI_HEADER, Written(chain, contents, |chain|))
    ensures forall k :: 0 <= k < |chain| ==> Start(mem, chain, k) == Place(chain, contents, k)
    ensures var end := Place(chain, contents, |chain|);
            && Start(mem, chain, |chain| - 1) == end && Exists(mem, end, chain[|chain| - 1])
            && forall i: nat :: i >= end + 2 ==> mem(i) == 0
    ensures !Faithful(mem, chain, contents)
  {
    hide Exists, Holds, Written, Start, StaleBuffer, Distinct;
    var w, last := Written(chain, contents, |chain|), |chain| - 1;
    var end := MINI_HEADER + |w|;
    mem := StaleBuffer(header + w, chain[last]);
    StaleBufferHolds(header, w, chain[last]);
    forall j | 0 <= j < last ensures ClearFor(mem, chain, contents, j) {
      AllDiffer(chain, j, last);
      DifferentName(mem, end, chain[last], chain[j]);
    }
    forall k | 0 <= k < |chain| ensures Start(mem, chain, k) == Place(chain, contents, k) {
      AccessorStands(mem, chain, contents, k);
    }
    SkipAbsent(chain, contents, last, |chain|);
  }

  lemma {:induction false} AllDiffer(chain: seq<Name>, i: nat, j: nat)
    requires Distinct(chain) && i < j < |chain|
    ensures chain[i] != chain[j]
  {
  }

  /** Both packet classes meet the hypothesis on names. */
  lemma {:induction false} ChainsAreDistinct()
    ensures Distinct(BTH0_CHAIN) && Distinct(AID0_CHAIN)
  {
  }
}
