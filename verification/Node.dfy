/** The map of assemblers kept by the node, one per ping, and what publishing an AID0 packet does to it. */
module Node {
  import opened Bits
  import opened Bytes
  import opened Packets
  import opened AcousticImage

  // ---- Pruning ----

  /** ping_no - 10 in 32 bits: it wraps for the first ten pings after power-up. */
  function Threshold(ping: u32): u32 {
    (ping - 10) % 0x1_0000_0000
  }

  /** What cleanMsgMap leaves. */
  function Prune<V>(m: map<u32, V>, ping: u32): map<u32, V> {
    map k | k in m && k >= Threshold(ping) :: m[k]
  }

  /** What cleanMsgMap is documented to leave: the messages that are not too old. */
  function Recent<V>(m: map<u32, V>, ping: u32): map<u32, V> {
    map k | k in m && k + 10 >= ping :: m[k]
  }

  /** Pruning removes exactly the entries more than ten pings old if and only if the ping number is at
      least ten or every entry happens to be newer than the wrapped threshold. */
  lemma {:induction false} PruneIsRecent<V>(m: map<u32, V>, ping: u32)
    ensures Prune(m, ping) == Recent(m, ping)
       <==> ping >= 10 || forall k :: k in m ==> k >= ping + 0xFFFF_FFF6
  {
    if ping < 10 {
      assert Threshold(ping) == ping + 0xFFFF_FFF6;
      forall k | k in m && k < ping + 0xFFFF_FFF6
        ensures k in Recent(m, ping) && k !in Prune(m, ping)
      {
      }
    }
  }

  ghost predicate IsLeast(k: u32, s: set<u32>) {
    k in s && forall j :: j in s ==> k <= j
  }

  lemma {:induction false} HasLeast(s: set<u32>)
    requires s != {}
    ensures exists k :: IsLeast(k, s)
    decreases |s|
  {
    var k :| k in s;
    if !IsLeast(k, s) {
      var j :| j in s && j < k;
      var rest := s - {k};
      assert j in rest;
      HasLeast(rest);
      var l :| IsLeast(l, rest);
      assert IsLeast(l, s) by {
        assert forall i :: i in s ==> i == k || i in rest;
      }
    }
  }

  // ---- The step of the node, on values ----

  datatype Publication = Publication(ping: u32, image: Image)

  datatype NodeState = NodeState(assemblers: map<u32, State>, published: seq<Publication>)

  /** operator[]: the entry of the ping, or a new one over uninitialised memory. */
  function EntryFor(assemblers: map<u32, State>, ping: u32, junk: Stored): State {
    if ping in assemblers then assemblers[ping] else New(junk)
  }

  function AfterPublish(s: NodeState, p: Aid0, junk: Stored): (NodeState, Outcome) {
    var ping := p.PingNo();
    var (a, outcome) := AfterPacket(EntryFor(s.assemblers, ping, junk), p);
    if outcome.Complete? then
      (NodeState(Prune(s.assemblers - {ping}, ping), s.published + [Publication(ping, a.image)]), outcome)
    else
      (s.(assemblers := s.assemblers[ping := a]), outcome)
  }

  lemma {:induction false} UpdateTwice<V>(m: map<u32, V>, k: u32, v: V, w: V)
    ensures m[k := v][k := w] == m[k := w]
    ensures m[k := v][k := w] - {k} == m - {k}
  {
  }

  /** The bytes packet2RawPacket copies. */
  function RawPacket(mem: Memory): seq<byte> {
    seq(PacketSize(mem), i requires 0 <= i => mem(i))
  }

  /** The raw message is what memory holds from the start of the packet, as long as its own size field says. */
  lemma {:induction false} RawPacketIsWhole(mem: Memory)
    ensures Holds(mem, 0, RawPacket(mem)) && |RawPacket(mem)| == U16(mem, 6)
  {
  }

  /** A datagram that states its length in its mini header is republished byte for byte, whatever lies behind it. */
  lemma {:induction false} RawPacketIsDatagram(mem: Memory, datagram: seq<byte>)
    requires Holds(mem, 0, datagram) && 8 <= |datagram| < 0x1_0000
    requires BigEndian(datagram[4..8]) == |datagram|
    ensures RawPacket(mem) == datagram
  {
    hide U32, BigEndian;
    HoldsPart(mem, 0, datagram, 4, 8);
    U32IsBigEndian(mem, 4, datagram[4..8]);
  }

  // ---- The node ----

  class R2SonicNode {
    const imageTopic: bool
    const rawTopic: bool
    var assemblers: map<u32, Assembler>
    var published: seq<Publication>
    var rawPublished: seq<seq<byte>>
    ghost var Repr: set<object>

    /** The entries and their buffers belong to the node, and no two entries share one. */
    ghost predicate Valid()
      reads `assemblers, `Repr, Repr
    {
      && this !in Repr
      && (forall k :: k in assemblers ==> assemblers[k] in Repr && assemblers[k].data in Repr)
      && (forall j, k :: j in assemblers && k in assemblers && j != k ==>
            assemblers[j] != assemblers[k] && assemblers[j].data != assemblers[k].data)
    }

    ghost function Entries(): map<u32, State>
      requires Valid()
      reads `assemblers, `Repr, Repr
    {
      map k | k in assemblers :: assemblers[k].View()
    }

    ghost function View(): NodeState
      requires Valid()
      reads `assemblers, `published, `Repr, Repr
    {
      NodeState(Entries(), published)
    }

    constructor (imageTopic: bool, rawTopic: bool)
      ensures Valid() && View() == NodeState(map[], []) && rawPublished == [] && Repr == {}
      ensures this.imageTopic == imageTopic && this.rawTopic == rawTopic
    {
      this.imageTopic, this.rawTopic := imageTopic, rawTopic;
      assemblers, published, rawPublished, Repr := map[], [], [], {};
    }

    /** publish(AID0&), from the bytes of the receive buffer. */
    method Publish(mem: Memory, junk: Stored) returns (outcome: Outcome)
      requires Valid()
      requires IsType(mem, AID0) && imageTopic ==>
                 Defined(EntryFor(Entries(), Decode(mem).PingNo(), junk), Decode(mem))
      modifies this, Repr
      ensures Valid() && fresh(Repr - old(Repr))
      ensures IsType(mem, AID0) && imageTopic ==>
                (View(), outcome) == old(AfterPublish(View(), Decode(mem), junk))
      ensures !(IsType(mem, AID0) && imageTopic) ==> View() == old(View()) && outcome == Incomplete
      ensures rawPublished ==
                if IsType(mem, AID0) && rawTopic then old(rawPublished) + [RawPacket(mem)] else old(rawPublished)
      ensures rawPublished != old(rawPublished) ==>
                var r := rawPublished[|rawPublished| - 1]; Holds(mem, 0, r) && |r| == U16(mem, 6)
    {
      hide Decode, IsType, RawPacket, Holds, U16, AfterPublish, Defined, EntryFor, Assembler.View;
      if !IsType(mem, AID0) {
        return Incomplete;
      }
      if rawTopic {
        RawPacketIsWhole(mem);
        rawPublished := rawPublished + [RawPacket(mem)];
      }
      if !imageTopic {
        return Incomplete;
      }
      outcome := Assemble(Decode(mem), junk);
    }

    method Assemble(p: Aid0, junk: Stored) returns (outcome: Outcome)
      requires Valid() && Defined(EntryFor(Entries(), p.PingNo(), junk), p)
      modifies `assemblers, `published, `Repr, Repr
      ensures Valid() && fresh(Repr - old(Repr))
      ensures (View(), outcome) == old(AfterPublish(View(), p, junk))
    {
      hide AfterPacket, Defined, Assembler.View, Aid0.PingNo, EntryFor, Prune;
      var ping := p.PingNo();
      ghost var before, entry := Entries(), EntryFor(Entries(), ping, junk);
      FindOrCreate(ping, junk);
      assert assemblers[ping].View() == Entries()[ping];
      outcome := FeedEntry(ping, p);
      UpdateTwice(before, ping, entry, assemblers[ping].View());
      if outcome.Complete? {
        published := published + [Publication(ping, assemblers[ping].View().image)];
        EraseAndClean(ping);
      }
    }

    method FindOrCreate(ping: u32, junk: Stored)
      requires Valid()
      modifies `assemblers, `Repr
      ensures Valid() && fresh(Repr - old(Repr)) && ping in assemblers
      ensures Entries() == old(Entries()[ping := EntryFor(Entries(), ping, junk)])
    {
      hide New, Assembler.View;
      if ping !in assemblers {
        var assembler := new Assembler(junk);
        assemblers := assemblers[ping := assembler];
        Repr := Repr + {assembler, assembler.data};
      }
    }

    method FeedEntry(ping: u32, p: Aid0) returns (outcome: Outcome)
      requires Valid() && ping in assemblers
      requires Defined(assemblers[ping].View(), p)
      modifies `Repr, assemblers[ping], assemblers[ping].data
      ensures Valid() && fresh(Repr - old(Repr))
      ensures (assemblers[ping].View(), outcome) == old(AfterPacket(assemblers[ping].View(), p))
      ensures Entries() == old(Entries())[ping := assemblers[ping].View()]
    {
      hide AfterPacket, Defined, Assembler.View;
      outcome := assemblers[ping].AddPacket(p);
      Repr := Repr + {assemblers[ping].data};
    }

    method EraseAndClean(ping: u32)
      requires Valid()
      modifies `assemblers
      ensures Valid()
      ensures Entries() == Prune(old(Entries()) - {ping}, ping)
    {
      hide Assembler.View, Threshold;
      assemblers := assemblers - {ping};
      CleanMsgMap(ping);
    }

    /** The iterator loop, in key order. */
    method CleanMsgMap(ping: u32)
      modifies `assemblers
      ensures assemblers == Prune(old(assemblers), ping)
    {
      hide Threshold;
      ghost var start := assemblers;
      var ahead := assemblers.Keys;
      while ahead != {}
        invariant ahead <= assemblers.Keys <= start.Keys
        invariant forall k :: k in assemblers ==> assemblers[k] == start[k]
        invariant forall k :: k in start && k !in ahead ==> (k in assemblers <==> k >= Threshold(ping))
        decreases |ahead|
      {
        var key := First(ahead);
        ahead := ahead - {key};
        if Threshold(ping) > key {
          assemblers := assemblers - {key};
        }
      }
    }

    static method First(keys: set<u32>) returns (key: u32)
      requires keys != {}
      ensures IsLeast(key, keys)
    {
      HasLeast(keys);
      key :| key in keys && forall j :: j in keys ==> key <= j;
    }
  }
}
