/** Whole runs of the node: any interleaving of packets of any pings. */
module Runs {
  import opened Bytes
  import opened Wrappers
  import opened Packets
  import opened AcousticImage
  import opened Reassembly
  import opened Node

  /** A received packet, and what uninitialised memory holds should it need a new assembler. */
  datatype Step = Step(packet: Aid0, junk: Stored) {
    function Ping(): u32 {
      packet.PingNo()
    }
  }

  function Next(s: NodeState, st: Step): NodeState {
    AfterPublish(s, st.packet, st.junk).0
  }

  predicate Publishes(s: NodeState, st: Step) {
    AfterPublish(s, st.packet, st.junk).1.Complete?
  }

  function Run(s: NodeState, steps: seq<Step>): NodeState {
    if steps == [] then s else Next(Run(s, steps[..|steps| - 1]), steps[|steps| - 1])
  }

  const START: NodeState := NodeState(map[], [])

  // ---- Non-interference ----

  /** One ping alone: its assembler, if there is one, and the images published so far. */
  datatype Lone = Lone(entry: Option<State>, images: seq<Image>)

  function LoneStep(l: Lone, st: Step): Lone {
    var (a, outcome) := AfterPacket(if l.entry.Some? then l.entry.value else New(st.junk), st.packet);
    if outcome.Complete? then Lone(None, l.images + [a.image]) else Lone(Some(a), l.images)
  }

  function LoneRun(l: Lone, steps: seq<Step>): Lone {
    if steps == [] then l else LoneStep(LoneRun(l, steps[..|steps| - 1]), steps[|steps| - 1])
  }

  function ImagesOf(log: seq<Publication>, ping: u32): seq<Image> {
    if log == [] then [] else
      var last := log[|log| - 1];
      ImagesOf(log[..|log| - 1], ping) + (if last.ping == ping then [last.image] else [])
  }

  /** What the node knows about one ping. */
  function Project(s: NodeState, ping: u32): Lone {
    Lone(if ping in s.assemblers then Some(s.assemblers[ping]) else None, ImagesOf(s.published, ping))
  }

  /** The steps of one ping. */
  function Only(steps: seq<Step>, ping: u32): seq<Step> {
    if steps == [] then [] else
      var last := steps[|steps| - 1];
      Only(steps[..|steps| - 1], ping) + (if last.Ping() == ping then [last] else [])
  }

  /** Publishing another ping prunes the entry of this one. */
  predicate Evicts(s: NodeState, st: Step, ping: u32) {
    ping in s.assemblers && st.Ping() != ping && Publishes(s, st) && Threshold(st.Ping()) > ping
  }

  lemma {:induction false} ImagesOfSnoc(log: seq<Publication>, p: Publication, ping: u32)
    ensures ImagesOf(log + [p], ping) == ImagesOf(log, ping) + (if p.ping == ping then [p.image] else [])
  {
    assert (log + [p])[..|log|] == log;
  }

  /** A step of the ping itself does what it would do to a lone assembler. */
  lemma {:induction false} OwnStep(s: NodeState, st: Step, ping: u32)
    requires st.Ping() == ping
    ensures Project(Next(s, st), ping) == LoneStep(Project(s, ping), st)
  {
    hide AfterPacket, New, Threshold, ImagesOf;
    var (a, outcome) := AfterPacket(EntryFor(s.assemblers, ping, st.junk), st.packet);
    ImagesOfSnoc(s.published, Publication(ping, a.image), ping);
  }

  /** A step of another ping leaves this one alone if and only if it does not evict its entry. */
  lemma {:induction false} OtherStep(s: NodeState, st: Step, ping: u32)
    requires st.Ping() != ping
    ensures Project(Next(s, st), ping) == Project(s, ping) <==> !Evicts(s, st, ping)
  {
    hide AfterPacket, New, Threshold, ImagesOf;
    var (a, outcome) := AfterPacket(EntryFor(s.assemblers, st.Ping(), st.junk), st.packet);
    ImagesOfSnoc(s.published, Publication(st.Ping(), a.image), ping);
  }

  /** No step of the run evicts the entry of this ping. */
  ghost predicate Undisturbed(s: NodeState, steps: seq<Step>, ping: u32) {
    forall i :: 0 <= i < |steps| ==> !Evicts(Run(s, steps[..i]), steps[i], ping)
  }

  lemma {:induction false} UndisturbedPrefix(s: NodeState, steps: seq<Step>, ping: u32)
    requires steps != [] && Undisturbed(s, steps, ping)
    ensures Undisturbed(s, steps[..|steps| - 1], ping)
    ensures !Evicts(Run(s, steps[..|steps| - 1]), steps[|steps| - 1], ping)
  {
    hide Evicts, Run;
    var before := steps[..|steps| - 1];
    forall i | 0 <= i < |before| ensures !Evicts(Run(s, before[..i]), before[i], ping) {
      assert before[..i] == steps[..i];
    }
  }

  lemma {:induction false} LoneRunSnoc(l: Lone, steps: seq<Step>, st: Step)
    ensures LoneRun(l, steps + [st]) == LoneStep(LoneRun(l, steps), st)
  {
    assert (steps + [st])[..|steps|] == steps;
  }

  lemma {:induction false} OnlySnoc(steps: seq<Step>, st: Step, ping: u32)
    ensures Only(steps + [st], ping) == if st.Ping() == ping then Only(steps, ping) + [st] else Only(steps, ping)
  {
    assert (steps + [st])[..|steps|] == steps;
  }

  lemma {:induction false} RunSnoc(s: NodeState, steps: seq<Step>, st: Step)
    ensures Run(s, steps + [st]) == Next(Run(s, steps), st)
  {
    assert (steps + [st])[..|steps|] == steps;
  }

  // ---- What happens to one ping: its own packets, and evictions ----

  datatype Event = Own(step: Step) | Evicted

  function LoneEvent(l: Lone, e: Event): Lone {
    match e
    case Own(st) => LoneStep(l, st)
    case Evicted => Lone(None, l.images)
  }

  function LoneLife(l: Lone, es: seq<Event>): Lone {
    if es == [] then l else LoneEvent(LoneLife(l, es[..|es| - 1]), es[|es| - 1])
  }

  /** What this run means to the ping. */
  function EventsOf(s: NodeState, steps: seq<Step>, ping: u32): seq<Event> {
    if steps == [] then [] else
      var before, last := steps[..|steps| - 1], steps[|steps| - 1];
      EventsOf(s, before, ping) + (if last.Ping() == ping then [Own(last)]
                                   else if Evicts(Run(s, before), last, ping) then [Evicted] else [])
  }

  function Owns(steps: seq<Step>): (es: seq<Event>)
    ensures |es| == |steps|
  {
    seq(|steps|, i requires 0 <= i < |steps| => Own(steps[i]))
  }

  lemma {:induction false} EvictingStep(s: NodeState, st: Step, ping: u32)
    requires Evicts(s, st, ping)
    ensures Project(Next(s, st), ping) == Lone(None, Project(s, ping).images)
  {
    hide AfterPacket, New, Threshold, ImagesOf;
    var (a, outcome) := AfterPacket(EntryFor(s.assemblers, st.Ping(), st.junk), st.packet);
    ImagesOfSnoc(s.published, Publication(st.Ping(), a.image), ping);
  }

  lemma {:induction false} LoneLifeSnoc(l: Lone, es: seq<Event>, e: Event)
    ensures LoneLife(l, es + [e]) == LoneEvent(LoneLife(l, es), e)
  {
    assert (es + [e])[..|es|] == es;
  }

  /** Non-interference without a hypothesis: over any interleaving of packets of any pings, the node does for one
      ping exactly what a lone assembler does with that ping's packets when it is discarded at the evictions. */
  lemma {:induction false} LifeOfPing(s: NodeState, steps: seq<Step>, ping: u32)
    ensures Project(Run(s, steps), ping) == LoneLife(Project(s, ping), EventsOf(s, steps, ping))
  {
    if steps == [] {
    } else {
      hide Next, Run, LoneLife, LoneStep, Project, Evicts, Aid0.PingNo;
      var before, last := steps[..|steps| - 1], steps[|steps| - 1];
      LifeOfPing(s, before, ping);
      assert steps == before + [last];
      RunSnoc(s, before, last);
      var es := EventsOf(s, before, ping);
      assert es + [] == es;
      if last.Ping() == ping {
        OwnStep(Run(s, before), last, ping);
        LoneLifeSnoc(Project(s, ping), es, Own(last));
      } else if Evicts(Run(s, before), last, ping) {
        EvictingStep(Run(s, before), last, ping);
        LoneLifeSnoc(Project(s, ping), es, Evicted);
      } else {
        OtherStep(Run(s, before), last, ping);
      }
    }
  }

  lemma {:induction false} OwnsSnoc(steps: seq<Step>, st: Step)
    ensures Owns(steps + [st]) == Owns(steps) + [Own(st)]
  {
  }

  lemma {:induction false} LifeOfOwn(l: Lone, steps: seq<Step>)
    ensures LoneLife(l, Owns(steps)) == LoneRun(l, steps)
  {
    if steps == [] {
    } else {
      hide LoneStep;
      var before, last := steps[..|steps| - 1], steps[|steps| - 1];
      LifeOfOwn(l, before);
      assert steps == before + [last];
      OwnsSnoc(before, last);
      LoneLifeSnoc(l, Owns(before), Own(last));
    }
  }

  /** Without evictions the events are the packets of the ping. */
  lemma {:induction false} UndisturbedEvents(s: NodeState, steps: seq<Step>, ping: u32)
    requires Undisturbed(s, steps, ping)
    ensures EventsOf(s, steps, ping) == Owns(Only(steps, ping))
  {
    if steps == [] {
    } else {
      hide Run, Evicts, Undisturbed, Owns, Aid0.PingNo;
      var before, last := steps[..|steps| - 1], steps[|steps| - 1];
      UndisturbedPrefix(s, steps, ping);
      UndisturbedEvents(s, before, ping);
      assert EventsOf(s, before, ping) + [] == EventsOf(s, before, ping);
      assert Only(before, ping) + [] == Only(before, ping);
      OwnsSnoc(Only(before, ping), last);
    }
  }

  /** The packets among these events. */
  function StepsIn(es: seq<Event>): seq<Step> {
    if es == [] then [] else
      StepsIn(es[..|es| - 1]) + (if es[|es| - 1].Own? then [es[|es| - 1].step] else [])
  }

  lemma {:induction false} StepsInSnoc(es: seq<Event>, e: Event)
    ensures StepsIn(es + [e]) == if e.Own? then StepsIn(es) + [e.step] else StepsIn(es)
  {
    assert (es + [e])[..|es|] == es;
  }

  /** The packets among the events of a ping are all packets of the ping. */
  lemma {:induction false} EventsHoldOnly(s: NodeState, steps: seq<Step>, ping: u32)
    ensures StepsIn(EventsOf(s, steps, ping)) == Only(steps, ping)
  {
    if steps == [] {
    } else {
      hide Run, Evicts, StepsIn, Aid0.PingNo;
      var before, last := steps[..|steps| - 1], steps[|steps| - 1];
      EventsHoldOnly(s, before, ping);
      var es := EventsOf(s, before, ping);
      assert es + [] == es && Only(before, ping) + [] == Only(before, ping);
      StepsInSnoc(es, Own(last));
      StepsInSnoc(es, Evicted);
    }
  }

  /** Non-interference: in a run that does not evict its entry, the node does for one ping exactly what a lone
      assembler fed with that ping's packets does. */
  lemma {:induction false} NonInterference(s: NodeState, steps: seq<Step>, ping: u32)
    requires Undisturbed(s, steps, ping)
    ensures Project(Run(s, steps), ping) == LoneRun(Project(s, ping), Only(steps, ping))
  {
    hide Run, Only, LoneRun, LoneLife, Project, Undisturbed, EventsOf, Owns;
    LifeOfPing(s, steps, ping);
    UndisturbedEvents(s, steps, ping);
    LifeOfOwn(Project(s, ping), Only(steps, ping));
  }

  /** At every moment of the run the node has done for the ping what a lone assembler does. */
  ghost predicate AlwaysAlone(s: NodeState, steps: seq<Step>, ping: u32) {
    forall n :: 0 <= n <= |steps| ==>
      Project(Run(s, steps[..n]), ping) == LoneRun(Project(s, ping), Only(steps[..n], ping))
  }

  lemma {:induction false} UndisturbedUpTo(s: NodeState, steps: seq<Step>, ping: u32, n: nat)
    requires Undisturbed(s, steps, ping) && n <= |steps|
    ensures Undisturbed(s, steps[..n], ping)
  {
    hide Evicts, Run;
    forall i | 0 <= i < n ensures !Evicts(Run(s, steps[..n][..i]), steps[..n][i], ping) {
      assert steps[..n][..i] == steps[..i];
    }
  }

  /** The hypothesis is exact: a lone assembler explains the node at every moment if and only if no
      publication of another ping evicts an entry of this one. */
  lemma {:induction false} AloneIffUndisturbed(s: NodeState, steps: seq<Step>, ping: u32)
    ensures AlwaysAlone(s, steps, ping) <==> Undisturbed(s, steps, ping)
  {
    hide Run, Only, LoneRun, Project, Evicts, Aid0.PingNo;
    if Undisturbed(s, steps, ping) {
      forall n | 0 <= n <= |steps|
        ensures Project(Run(s, steps[..n]), ping) == LoneRun(Project(s, ping), Only(steps[..n], ping))
      {
        UndisturbedUpTo(s, steps, ping, n);
        NonInterference(s, steps[..n], ping);
      }
    }
    if AlwaysAlone(s, steps, ping) {
      forall i | 0 <= i < |steps| ensures !Evicts(Run(s, steps[..i]), steps[i], ping) {
        NotEvictedWhenAlone(s, steps, ping, i);
      }
    }
  }

  lemma {:induction false} NotEvictedWhenAlone(s: NodeState, steps: seq<Step>, ping: u32, i: nat)
    requires AlwaysAlone(s, steps, ping) && i < |steps|
    ensures !Evicts(Run(s, steps[..i]), steps[i], ping)
  {
    hide Run, Only, LoneRun, Project, Aid0.PingNo, Publishes, Next;
    if Evicts(Run(s, steps[..i]), steps[i], ping) {
      assert steps[..i + 1] == steps[..i] + [steps[i]];
      RunSnoc(s, steps[..i], steps[i]);
      OnlySnoc(steps[..i], steps[i], ping);
      OtherStep(Run(s, steps[..i]), steps[i], ping);
    }
  }

  /** Among pings from 10 on that are at most ten ahead of it, a ping is never disturbed. */
  lemma {:induction false} CloseIsUndisturbed(s: NodeState, steps: seq<Step>, ping: u32)
    requires forall i :: 0 <= i < |steps| && steps[i].Ping() != ping ==> 10 <= steps[i].Ping() <= ping + 10
    ensures Undisturbed(s, steps, ping)
  {
    hide Run, Publishes, Aid0.PingNo;
  }

  /** A condition on the input alone: no packet that arrives between two packets of this ping is of another ping
      whose publication could prune it. What arrives before the first or after the last does not matter. */
  ghost predicate NearbyPings(steps: seq<Step>, ping: u32) {
    forall i, j, k :: 0 <= i < j < k < |steps| && steps[i].Ping() == ping && steps[k].Ping() == ping ==>
      steps[j].Ping() == ping || Threshold(steps[j].Ping()) <= ping
  }

  /** It is enough for a ping that is complete when its last packet is handled. */
  lemma {:induction false} NearbyIsUndisturbed(s: NodeState, steps: seq<Step>, ping: u32)
    requires ping !in s.assemblers && NearbyPings(steps, ping)
    requires LoneRun(Project(s, ping), Only(steps, ping)).entry.None?
    ensures Undisturbed(s, steps, ping)
  {
    hide Run, Only, LoneRun, Project, Evicts, Undisturbed, NearbyPings;
    NearbyUpTo(s, steps, ping, |steps|);
    assert steps[..|steps|] == steps;
  }

  lemma {:induction false} NearbyUpTo(s: NodeState, steps: seq<Step>, ping: u32, n: nat)
    requires ping !in s.assemblers && NearbyPings(steps, ping) && n <= |steps|
    requires LoneRun(Project(s, ping), Only(steps, ping)).entry.None?
    ensures Undisturbed(s, steps[..n], ping)
  {
    hide Run, Only, LoneRun, Project, Evicts, NearbyPings;
    if n == 0 {
    } else {
      NearbyUpTo(s, steps, ping, n - 1);
      NearbyStep(s, steps, ping, n - 1);
      forall i | 0 <= i < n ensures !Evicts(Run(s, steps[..n][..i]), steps[..n][i], ping) {
        assert steps[..n][..i] == steps[..i];
        assert i < n - 1 ==> steps[..n - 1][..i] == steps[..i] && steps[..n - 1][i] == steps[i];
      }
    }
  }

  /** While an entry is present, its ping has had a packet and is going to have another one. */
  lemma {:induction false} NearbyStep(s: NodeState, steps: seq<Step>, ping: u32, i: nat)
    requires ping !in s.assemblers && NearbyPings(steps, ping) && i < |steps|
    requires LoneRun(Project(s, ping), Only(steps, ping)).entry.None?
    requires Undisturbed(s, steps[..i], ping)
    ensures !Evicts(Run(s, steps[..i]), steps[i], ping)
  {
    hide Run, Only, LoneRun, Aid0.PingNo, Publishes, Threshold, Undisturbed;
    NonInterference(s, steps[..i], ping);
    if ping in Run(s, steps[..i]).assemblers && steps[i].Ping() != ping {
      var a := SomeBefore(steps, ping, i, Project(s, ping));
      var b := SomeAfter(steps, ping, i, Project(s, ping));
    }
  }

  lemma {:induction false} SomeBefore(steps: seq<Step>, ping: u32, n: nat, l: Lone) returns (a: nat)
    requires n <= |steps| && l.entry.None? && LoneRun(l, Only(steps[..n], ping)).entry.Some?
    ensures a < n && steps[a].Ping() == ping
  {
    hide LoneStep, Aid0.PingNo;
    a := 0;
    if n == 0 {
    } else if steps[n - 1].Ping() == ping {
      a := n - 1;
    } else {
      assert steps[..n][..n - 1] == steps[..n - 1];
      assert Only(steps[..n - 1], ping) + [] == Only(steps[..n - 1], ping);
      a := SomeBefore(steps, ping, n - 1, l);
    }
  }

  lemma {:induction false} SomeAfter(steps: seq<Step>, ping: u32, n: nat, l: Lone) returns (b: nat)
    requires n <= |steps| && LoneRun(l, Only(steps, ping)).entry.None? && LoneRun(l, Only(steps[..n], ping)).entry.Some?
    ensures n <= b < |steps| && steps[b].Ping() == ping
    decreases |steps| - n
  {
    hide LoneStep, LoneRun, Aid0.PingNo;
    b := n;
    assert steps[..|steps|] == steps;
    if n == |steps| {
    } else if steps[n].Ping() != ping {
      assert steps[..n + 1][..n] == steps[..n];
      assert Only(steps[..n], ping) + [] == Only(steps[..n], ping);
      b := SomeAfter(steps, ping, n + 1, l);
    }
  }

  // ---- Provenance ----

  /** Everything an assembler has been given since it was created. */
  datatype Input = Input(junk: Stored, packets: seq<Aid0>)

  function Assembled(i: Input): State {
    Feed(New(i.junk), i.packets)
  }

  predicate CompletesAt(i: Input, n: nat)
    requires n < |i.packets|
  {
    AfterPacket(Feed(New(i.junk), i.packets[..n]), i.packets[n]).1.Complete?
  }

  /** A run that also records, for each present entry and for each publication, its input. */
  datatype Traced = Traced(node: NodeState, fed: map<u32, Input>, sources: seq<Input>)

  function InputWith(t: Traced, st: Step): Input {
    if st.Ping() in t.fed then Input(t.fed[st.Ping()].junk, t.fed[st.Ping()].packets + [st.packet])
    else Input(st.junk, [st.packet])
  }

  function TracedNext(t: Traced, st: Step): Traced {
    if Publishes(t.node, st) then
      Traced(Next(t.node, st), Prune(t.fed - {st.Ping()}, st.Ping()), t.sources + [InputWith(t, st)])
    else
      Traced(Next(t.node, st), t.fed[st.Ping() := InputWith(t, st)], t.sources)
  }

  function TracedRun(steps: seq<Step>): Traced {
    if steps == [] then Traced(START, map[], [])
    else TracedNext(TracedRun(steps[..|steps| - 1]), steps[|steps| - 1])
  }

  /** The recording does not change the run. */
  lemma {:induction false} TracedRunIsRun(steps: seq<Step>)
    ensures TracedRun(steps).node == Run(START, steps)
  {
    if steps == [] {
    } else {
      TracedRunIsRun(steps[..|steps| - 1]);
    }
  }

  predicate AllOfPing(ps: seq<Aid0>, ping: u32) {
    forall i :: 0 <= i < |ps| ==> ps[i].PingNo() == ping
  }

  /** The packets in this input are all of one ping and have not completed the image. */
  ghost predicate Pending(i: Input, ping: u32) {
    i.packets != [] && AllOfPing(i.packets, ping) && forall n :: 0 <= n < |i.packets| ==> !CompletesAt(i, n)
  }

  /** The packets in this input are all of one ping and the last one, and only that, completed the image. */
  ghost predicate Finished(i: Input, ping: u32) {
    && i.packets != [] && AllOfPing(i.packets, ping)
    && CompletesAt(i, |i.packets| - 1)
    && forall n :: 0 <= n < |i.packets| - 1 ==> !CompletesAt(i, n)
  }

  ghost predicate EntriesExplained(t: Traced) {
    && t.fed.Keys == t.node.assemblers.Keys
    && forall k :: k in t.fed ==> Pending(t.fed[k], k) && t.node.assemblers[k] == Assembled(t.fed[k])
  }

  ghost predicate PublicationsExplained(t: Traced) {
    && |t.sources| == |t.node.published|
    && forall i :: 0 <= i < |t.sources| ==>
         && Finished(t.sources[i], t.node.published[i].ping)
         && t.node.published[i].image == Assembled(t.sources[i]).image
  }

  // The recorded inputs, from the run itself.

  function PacketsOf(ts: seq<Step>): (ps: seq<Aid0>)
    ensures |ps| == |ts|
  {
    seq(|ts|, i requires 0 <= i < |ts| => ts[i].packet)
  }

  /** These packets of the ping in a row, the first of which found the uninitialised memory. */
  ghost predicate IsSlice(i: Input, own: seq<Step>, from: nat, to: nat) {
    from < to <= |own| && i.junk == own[from].junk && i.packets == PacketsOf(own[from..to])
  }

  ghost predicate IsSuffixOf(i: Input, own: seq<Step>) {
    exists from: nat :: IsSlice(i, own, from, |own|)
  }

  ghost predicate IsPartOf(i: Input, own: seq<Step>) {
    exists from: nat, to: nat :: IsSlice(i, own, from, to)
  }

  /** Each entry was fed the latest packets of its ping, each publication came from packets of its ping in a row. */
  ghost predicate FromRun(t: Traced, steps: seq<Step>) {
    && (forall k :: k in t.fed ==> IsSuffixOf(t.fed[k], Only(steps, k)))
    && |t.sources| == |t.node.published|
    && forall i :: 0 <= i < |t.sources| ==> IsPartOf(t.sources[i], Only(steps, t.node.published[i].ping))
  }

  lemma {:induction false} SliceGrows(i: Input, own: seq<Step>, from: nat, to: nat, st: Step)
    requires IsSlice(i, own, from, to)
    ensures IsSlice(i, own + [st], from, to)
    ensures to == |own| ==> IsSlice(Input(i.junk, i.packets + [st.packet]), own + [st], from, to + 1)
  {
    assert (own + [st])[from..to] == own[from..to];
    if to == |own| {
      assert (own + [st])[from..to + 1] == own[from..to] + [st];
    }
  }

  lemma {:induction false} SliceStarts(own: seq<Step>, st: Step)
    ensures IsSlice(Input(st.junk, [st.packet]), own + [st], |own|, |own| + 1)
  {
    assert (own + [st])[|own|..|own| + 1] == [st];
  }

  lemma {:induction false} PartGrows(i: Input, own: seq<Step>, st: Step)
    requires IsPartOf(i, own)
    ensures IsPartOf(i, own + [st])
  {
    hide IsSlice;
    var from: nat, to: nat :| IsSlice(i, own, from, to);
    SliceGrows(i, own, from, to, st);
  }

  lemma {:induction false} InputIsSuffix(t: Traced, steps: seq<Step>, st: Step)
    requires FromRun(t, steps)
    ensures IsSuffixOf(InputWith(t, st), Only(steps, st.Ping()) + [st])
  {
    hide IsSlice, Only, Aid0.PingNo;
    var own := Only(steps, st.Ping());
    if st.Ping() in t.fed {
      var from: nat :| IsSlice(t.fed[st.Ping()], own, from, |own|);
      SliceGrows(t.fed[st.Ping()], own, from, |own|, st);
      assert IsSlice(InputWith(t, st), own + [st], from, |own + [st]|);
    } else {
      SliceStarts(own, st);
      assert IsSlice(InputWith(t, st), own + [st], |own|, |own + [st]|);
    }
  }

  lemma {:induction false} FromRunStep(t: Traced, steps: seq<Step>, st: Step)
    requires FromRun(t, steps)
    ensures FromRun(TracedNext(t, st), steps + [st])
  {
    hide IsSlice, Only, AfterPacket, EntryFor, Threshold, InputWith, Aid0.PingNo;
    var u, input := TracedNext(t, st), InputWith(t, st);
    InputIsSuffix(t, steps, st);
    forall k ensures Only(steps + [st], k) == if st.Ping() == k then Only(steps, k) + [st] else Only(steps, k) {
      OnlySnoc(steps, st, k);
    }
    forall k | k in u.fed ensures IsSuffixOf(u.fed[k], Only(steps + [st], k)) {
      assert k == st.Ping() || (k in t.fed && u.fed[k] == t.fed[k]);
    }
    forall i | 0 <= i < |u.sources| ensures IsPartOf(u.sources[i], Only(steps + [st], u.node.published[i].ping)) {
      if i < |t.sources| {
        var own := Only(steps, t.node.published[i].ping);
        PartGrows(t.sources[i], own, st);
      }
    }
  }

  lemma {:induction false} FeedSnoc(s: State, ps: seq<Aid0>, p: Aid0)
    ensures Feed(s, ps + [p]) == AfterPacket(Feed(s, ps), p).0
  {
    assert (ps + [p])[..|ps|] == ps;
  }

  /** The entry a step works on was assembled from the recorded input. */
  lemma {:induction false} StepInput(t: Traced, st: Step)
    requires EntriesExplained(t)
    ensures var i, a := InputWith(t, st), EntryFor(t.node.assemblers, st.Ping(), st.junk);
            && AfterPacket(a, st.packet).0 == Assembled(i)
            && AllOfPing(i.packets, st.Ping()) && i.packets != []
            && (AfterPacket(a, st.packet).1.Complete? <==> CompletesAt(i, |i.packets| - 1))
            && forall n :: 0 <= n < |i.packets| - 1 ==> !CompletesAt(i, n)
  {
    hide AfterPacket, Feed, New;
    var i, ping := InputWith(t, st), st.Ping();
    if ping in t.fed {
      var earlier := t.fed[ping];
      FeedSnoc(New(earlier.junk), earlier.packets, st.packet);
      assert i.packets[..|i.packets| - 1] == earlier.packets;
      forall n | 0 <= n < |i.packets| - 1 ensures !CompletesAt(i, n) {
        assert i.packets[..n] == earlier.packets[..n] && i.packets[n] == earlier.packets[n];
        assert !CompletesAt(earlier, n);
      }
    } else {
      FeedSnoc(New(st.junk), [], st.packet);
      FeedNothing(New(st.junk));
      assert [] + [st.packet] == [st.packet] && i.packets[..0] == [];
    }
  }

  lemma {:induction false} FeedNothing(s: State)
    ensures Feed(s, []) == s
  {
  }

  lemma {:induction false} EntriesStep(t: Traced, st: Step)
    requires EntriesExplained(t)
    ensures EntriesExplained(TracedNext(t, st))
  {
    hide AfterPacket, Assembled, CompletesAt, Threshold, InputWith, EntryFor, AllOfPing, Aid0.PingNo;
    StepInput(t, st);
    assert !Publishes(t.node, st) ==> Pending(InputWith(t, st), st.Ping());
  }

  lemma {:induction false} PublicationsStep(t: Traced, st: Step)
    requires EntriesExplained(t) && PublicationsExplained(t)
    ensures PublicationsExplained(TracedNext(t, st))
  {
    hide AfterPacket, Assembled, CompletesAt, Prune, InputWith, EntryFor, AllOfPing, Aid0.PingNo;
    StepInput(t, st);
  }

  /** Provenance: in every run from power-up, each present assembler is what a new assembler becomes
      when fed the latest packets of its own ping, none left out, and each published image was assembled the
      same way from packets of its ping in a row, by the first packet that completed it. */
  lemma {:induction false} Provenance(steps: seq<Step>)
    ensures EntriesExplained(TracedRun(steps)) && PublicationsExplained(TracedRun(steps))
    ensures FromRun(TracedRun(steps), steps)
    ensures TracedRun(steps).node == Run(START, steps)
  {
    hide TracedNext, EntriesExplained, PublicationsExplained, FromRun;
    TracedRunIsRun(steps);
    if steps == [] {
      StartExplained();
    } else {
      var before, last := steps[..|steps| - 1], steps[|steps| - 1];
      Provenance(before);
      EntriesStep(TracedRun(before), last);
      PublicationsStep(TracedRun(before), last);
      FromRunStep(TracedRun(before), before, last);
      assert before + [last] == steps;
    }
  }

  lemma {:induction false} StartExplained()
    ensures EntriesExplained(Traced(START, map[], [])) && PublicationsExplained(Traced(START, map[], []))
    ensures FromRun(Traced(START, map[], []), [])
  {
  }

  // ---- Single-ping purity ----

  /** As documented, a header packet carries no M0 section; one of the same ping would do no harm. */
  predicate Documented(p: Aid0) {
    p.h0.Some? ==> p.m0.None? || p.m0.value.ping == p.h0.value.ping
  }

  /** A header packet stores the number of the ping it is filed under if and only if it carries no M0
      section of another ping. */
  lemma {:induction false} HeaderFiledUnderItsPing(s: State, p: Aid0)
    requires p.h0.Some?
    ensures AfterPacket(s, p).0.h0.ping == p.PingNo() <==> Documented(p)
  {
  }

  predicate HasHeader(ps: seq<Aid0>) {
    exists i :: 0 <= i < |ps| && ps[i].h0.Some?
  }

  /** After any packets of one ping, the stored ping is that ping once a header has come, and still the
      initial one before. Every accepted tile is of that ping. */
  lemma {:induction false} FedFromOnePing(s: State, ps: seq<Aid0>, ping: u32)
    requires AllOfPing(ps, ping) && forall i :: 0 <= i < |ps| ==> Documented(ps[i])
    ensures Feed(s, ps).h0.ping == if HasHeader(ps) then ping else s.h0.ping
    ensures forall i :: 0 <= i < |Tiles(s, ps)| ==> Tiles(s, ps)[i].ping == ping
  {
    if ps == [] {
    } else {
      hide AfterPacket;
      var before, p := ps[..|ps| - 1], ps[|ps| - 1];
      FedFromOnePing(s, before, ping);
      assert HasHeader(ps) <==> HasHeader(before) || p.h0.Some? by {
        assert forall i :: 0 <= i < |before| ==> before[i] == ps[i];
      }
      if p.h0.Some? {
        HeaderFiledUnderItsPing(Feed(s, before), p);
      } else {
        TileKeepsPing(Feed(s, before), p);
      }
    }
  }

  lemma {:induction false} TileKeepsPing(s: State, p: Aid0)
    requires p.h0.None?
    ensures AfterPacket(s, p).0.h0.ping == s.h0.ping
  {
  }

  /** Only an accepted tile completes an image. */
  lemma {:induction false} CompletesOnTile(s: State, p: Aid0)
    requires AfterPacket(s, p).1.Complete?
    ensures Accepts(s, p)
  {
  }

  /** Purity: when headers are as documented, every assembler that received a header stores the ping it
      is filed under; and every published image consists of tiles of the ping it is published under, with
      a header of that ping unless uninitialised memory happened to hold that number. */
  lemma {:induction false} Purity(steps: seq<Step>)
    requires forall i :: 0 <= i < |steps| ==> Documented(steps[i].packet)
    ensures var t := TracedRun(steps);
            && (forall k :: k in t.fed && HasHeader(t.fed[k].packets) ==>
                  k in t.node.assemblers && t.node.assemblers[k].h0.ping == k)
            && (forall i :: 0 <= i < |t.sources| ==>
                  i < |t.node.published| && PublishedPure(t.sources[i], t.node.published[i].ping))
  {
    hide TracedRun, Feed, Tiles, CompletesAt, AllOfPing;
    var t := TracedRun(steps);
    Provenance(steps);
    InputsDocumented(steps);
    forall k | k in t.fed && HasHeader(t.fed[k].packets)
      ensures t.node.assemblers[k].h0.ping == k
    {
      FedFromOnePing(New(t.fed[k].junk), t.fed[k].packets, k);
    }
    forall i | 0 <= i < |t.sources|
      ensures PublishedPure(t.sources[i], t.node.published[i].ping)
    {
      FinishedIsPure(t.sources[i], t.node.published[i].ping);
    }
  }

  ghost predicate PublishedPure(i: Input, ping: u32) {
    && (forall j :: 0 <= j < |Tiles(New(i.junk), i.packets)| ==> Tiles(New(i.junk), i.packets)[j].ping == ping)
    && (HasHeader(i.packets) || i.junk.ping == ping)
  }

  lemma {:induction false} FinishedIsPure(i: Input, ping: u32)
    requires Finished(i, ping) && forall n :: 0 <= n < |i.packets| ==> Documented(i.packets[n])
    ensures PublishedPure(i, ping)
  {
    hide Tiles, AfterPacket;
    var s, n := New(i.junk), |i.packets| - 1;
    FedFromOnePing(s, i.packets, ping);
    var before := i.packets[..n];
    forall k | 0 <= k < |before| ensures Documented(before[k]) && before[k].PingNo() == ping {
      assert before[k] == i.packets[k];
    }
    FedFromOnePing(s, before, ping);
    CompletesOnTile(Feed(s, before), i.packets[n]);
    assert i.packets[n].PingNo() == ping;
    if HasHeader(before) {
      var k :| 0 <= k < |before| && before[k].h0.Some?;
      assert i.packets[k].h0.Some?;
    }
  }

  predicate InputDocumented(i: Input) {
    forall n :: 0 <= n < |i.packets| ==> Documented(i.packets[n])
  }

  lemma {:induction false} InputsDocumented(steps: seq<Step>)
    requires forall i :: 0 <= i < |steps| ==> Documented(steps[i].packet)
    ensures forall k :: k in TracedRun(steps).fed ==> InputDocumented(TracedRun(steps).fed[k])
    ensures forall i :: 0 <= i < |TracedRun(steps).sources| ==> InputDocumented(TracedRun(steps).sources[i])
  {
    hide Documented, Publishes, Next, Aid0.PingNo, Threshold;
    if steps == [] {
    } else {
      var before, last := steps[..|steps| - 1], steps[|steps| - 1];
      assert forall i :: 0 <= i < |before| ==> before[i] == steps[i];
      InputsDocumented(before);
      assert InputDocumented(InputWith(TracedRun(before), last));
    }
  }

  /** In every run from power-up, every cell of every published image holds the byte of the last tile of
      that ping covering it, among those accepted since its assembler was created, and zero if there is none. */
  lemma {:induction false} PublishedPixel(steps: seq<Step>, i: nat, totalBins: nat, totalBeams: nat,
                                          bin: nat, beam: nat)
    requires i < |TracedRun(steps).sources| && bin < totalBins && beam < totalBeams
    requires var src := TracedRun(steps).sources[i];
             AllTilesOf(Tiles(New(src.junk), src.packets), totalBins, totalBeams)
    ensures i < |Run(START, steps).published|
    ensures var src, image := TracedRun(steps).sources[i], Run(START, steps).published[i].image;
            Pixel(image.data, totalBeams, bin, beam) == LastByte(Tiles(New(src.junk), src.packets), bin, beam, 0)
  {
    hide TracedRun, Run, Feed, LastByte, Pixel, AllOfPing, CompletesAt, AllTilesOf, Tiles;
    Provenance(steps);
    var src := TracedRun(steps).sources[i];
    LastIsAccepted(src, TracedRun(steps).node.published[i].ping);
    EmptyBase(src.junk, totalBins, totalBeams, bin, beam);
    LastWriterWins(New(src.junk), src.packets, totalBins, totalBeams, bin, beam);
  }

  /** In every run from power-up, every published image has the stamp, the beams, the steering and the angles of
      the last header among the packets it was assembled from, and the sample rate of that header and of the tile
      that completed it. */
  lemma {:induction false} PublishedHeader(steps: seq<Step>, i: nat, k: nat)
    requires i < |TracedRun(steps).sources|
    requires var ps := TracedRun(steps).sources[i].packets;
             k < |ps| && WholeHeader(ps[k]) && forall j :: k < j < |ps| ==> ps[j].h0.None?
    ensures i < |Run(START, steps).published|
    ensures var ps, image := TracedRun(steps).sources[i].packets, Run(START, steps).published[i].image;
            && HeadedBy(image, ps[k].h0.value, ps[k].angles)
            && var last := ps[|ps| - 1];
               && last.m0.Some?
               && image.sampleRate == Some(Rate(ps[k].h0.value.rxSampleRate, last.m0.value.totalBins,
                                                last.m0.value.totalSamples))
  {
    hide TracedRun, Run, Feed, AllOfPing, AfterPacket, HeadedBy;
    Provenance(steps);
    var src := TracedRun(steps).sources[i];
    FinishedHeader(src, TracedRun(steps).node.published[i].ping, k);
  }

  lemma {:induction false} FinishedHeader(i: Input, ping: u32, k: nat)
    requires Finished(i, ping)
    requires k < |i.packets| && WholeHeader(i.packets[k])
    requires forall j :: k < j < |i.packets| ==> i.packets[j].h0.None?
    ensures var image, last := Assembled(i).image, i.packets[|i.packets| - 1];
            && HeadedBy(image, i.packets[k].h0.value, i.packets[k].angles) && last.m0.Some?
            && image.sampleRate == Some(Rate(i.packets[k].h0.value.rxSampleRate, last.m0.value.totalBins,
                                             last.m0.value.totalSamples))
  {
    hide AfterPacket, HeadedBy;
    var n, s := |i.packets| - 1, New(i.junk);
    CompletingTile(Feed(s, i.packets[..n]), i.packets[n]);
    LastHeaderWins(s, i.packets, k);
    LastHeaderWins(s, i.packets[..n], k);
  }

  /** Without a header among them it says nothing. */
  lemma {:induction false} PublishedWithoutHeader(steps: seq<Step>, i: nat)
    requires i < |TracedRun(steps).sources| && NoHeader(TracedRun(steps).sources[i].packets)
    ensures i < |Run(START, steps).published|
    ensures var image := Run(START, steps).published[i].image;
            && image.seconds == image.nanoseconds == image.beamCount == 0
            && image.txDelays == image.txAngles == image.rxAngles == []
  {
    hide TracedRun, Run, Feed, AllOfPing, CompletesAt;
    Provenance(steps);
    var src := TracedRun(steps).sources[i];
    TilesKeepHead(New(src.junk), src.packets);
  }

  lemma {:induction false} LastIsAccepted(i: Input, ping: u32)
    requires Finished(i, ping)
    ensures Tiles(New(i.junk), i.packets) != []
  {
    hide AfterPacket, New, Accepts, Feed;
    var n := |i.packets| - 1;
    CompletesOnTile(Feed(New(i.junk), i.packets[..n]), i.packets[n]);
  }

  lemma {:induction false} EmptyBase(junk: Stored, totalBins: nat, totalBeams: nat, bin: nat, beam: nat)
    requires bin < totalBins && beam < totalBeams
    ensures Base(New(junk), totalBins, totalBeams, bin, beam) == 0
  {
    CellInside(totalBins, totalBeams, bin, beam);
  }

  // ---- The node itself makes these runs ----

  /** The AID0 datagrams of a series, decoded; other datagrams are ignored. */
  function StepsOf(mems: seq<Memory>, junks: seq<Stored>): seq<Step>
    requires |mems| == |junks|
  {
    if mems == [] then [] else
      var n := |mems| - 1;
      StepsOf(mems[..n], junks[..n]) + (if IsType(mems[n], AID0) then [Step(Decode(mems[n]), junks[n])] else [])
  }

  /** Every step of the series is defined behaviour. */
  ghost predicate AllDefined(s: NodeState, mems: seq<Memory>, junks: seq<Stored>)
    requires |mems| == |junks|
  {
    forall i :: 0 <= i < |mems| && IsType(mems[i], AID0) ==>
      var before, p := Run(s, StepsOf(mems[..i], junks[..i])), Decode(mems[i]);
      Defined(EntryFor(before.assemblers, p.PingNo(), junks[i]), p)
  }

  lemma {:induction false} StepsOfNext(mems: seq<Memory>, junks: seq<Stored>, i: nat, s: NodeState)
    requires |mems| == |junks| && i < |mems|
    ensures Run(s, StepsOf(mems[..i + 1], junks[..i + 1]))
         == if IsType(mems[i], AID0) then Next(Run(s, StepsOf(mems[..i], junks[..i])), Step(Decode(mems[i]), junks[i]))
            else Run(s, StepsOf(mems[..i], junks[..i]))
  {
    hide Run, Next, Decode, IsType;
    assert mems[..i + 1][..i] == mems[..i] && junks[..i + 1][..i] == junks[..i];
    var before := StepsOf(mems[..i], junks[..i]);
    assert before + [] == before;
    if IsType(mems[i], AID0) {
      RunSnoc(s, StepsOf(mems[..i], junks[..i]), Step(Decode(mems[i]), junks[i]));
    }
  }

  /** The receive loop: publishing the datagrams one after the other is the run of their decoded packets. */
  method ReceiveAll(node: R2SonicNode, mems: seq<Memory>, junks: seq<Stored>)
    requires node.Valid() && node.imageTopic && |mems| == |junks|
    requires AllDefined(node.View(), mems, junks)
    modifies node, node.Repr
    ensures node.Valid() && fresh(node.Repr - old(node.Repr))
    ensures node.View() == Run(old(node.View()), StepsOf(mems, junks))
  {
    hide Run, Next, Decode, IsType, Defined, EntryFor, AfterPublish, Aid0.PingNo, StepsOf;
    ghost var start := node.View();
    var i := 0;
    assert Run(start, StepsOf(mems[..0], junks[..0])) == start by { NothingReceived(mems, junks, start); }
    while i < |mems|
      invariant 0 <= i <= |mems| && node.Valid() && fresh(node.Repr - old(node.Repr))
      invariant node.View() == Run(start, StepsOf(mems[..i], junks[..i]))
    {
      StepsOfNext(mems, junks, i, start);
      NextIsPublish(node.View(), Step(Decode(mems[i]), junks[i]));
      var outcome := node.Publish(mems[i], junks[i]);
      i := i + 1;
    }
    assert mems[..i] == mems && junks[..i] == junks;
  }

  lemma {:induction false} NothingReceived(mems: seq<Memory>, junks: seq<Stored>, s: NodeState)
    requires |mems| == |junks|
    ensures Run(s, StepsOf(mems[..0], junks[..0])) == s
  {
  }

  lemma {:induction false} NextIsPublish(s: NodeState, st: Step)
    ensures Next(s, st) == AfterPublish(s, st.packet, st.junk).0
  {
  }

  // ---- Pruning keeps the map small ----

  lemma {:induction false} WindowSize(keys: set<u32>, low: nat, high: nat)
    requires low <= high && forall k :: k in keys ==> low <= k < high
    ensures |keys| <= high - low
    decreases high
  {
    if low == high {
      assert keys == {};
    } else {
      var rest := keys - {high - 1};
      WindowSize(rest, low, high - 1);
      assert keys == rest || keys == rest + {high - 1};
    }
  }

  ghost predicate Ascending(steps: seq<Step>) {
    forall i, j :: 0 <= i < j < |steps| ==> steps[i].Ping() <= steps[j].Ping()
  }

  lemma {:induction false} KeysUpToLast(steps: seq<Step>)
    requires Ascending(steps) && steps != []
    ensures forall k :: k in Run(START, steps).assemblers ==> k <= steps[|steps| - 1].Ping()
  {
    hide AfterPacket, Aid0.PingNo, Threshold;
    var before, last := steps[..|steps| - 1], steps[|steps| - 1];
    if before == [] {
    } else {
      assert forall i :: 0 <= i < |before| ==> before[i] == steps[i];
      KeysUpToLast(before);
    }
  }

  /** Boundedness: when ping numbers do not decrease, at most ten assemblers remain right after a ping
      numbered ten or more is published. */
  lemma {:induction false} AtMostTenRemain(steps: seq<Step>)
    requires Ascending(steps) && steps != []
    requires steps[|steps| - 1].Ping() >= 10
    requires Publishes(Run(START, steps[..|steps| - 1]), steps[|steps| - 1])
    ensures |Run(START, steps).assemblers| <= 10
  {
    hide AfterPacket, Aid0.PingNo, Run;
    var before, last := steps[..|steps| - 1], steps[|steps| - 1];
    KeysUpToLast(steps);
    LeftByPublishing(Run(START, before), last);
    assert steps == before + [last];
    RunSnoc(START, before, last);
    WindowSize(Run(START, steps).assemblers.Keys, last.Ping() - 10, last.Ping());
  }

  lemma {:induction false} LeftByPublishing(s: NodeState, st: Step)
    requires Publishes(s, st)
    ensures forall k :: k in Next(s, st).assemblers
                   <==> k in s.assemblers && k != st.Ping() && k >= Threshold(st.Ping())
  {
    hide AfterPacket, Aid0.PingNo, Threshold;
  }

  // ---- Where pruning removes too much ----

  function HeaderOf(ping: u32): Aid0 {
    Aid0(Some(H0Body(0, 0, ping, 0, 0, 0)), None, None)
  }

  /** A whole image in one tile of one cell. */
  function WholeTile(ping: u32): Aid0 {
    Aid0(None, None, Some(M0Tile(ping, 1, 1, 0, 1, 1, 0, 1, i => 1)))
  }

  /** Right after power-up: ping 20 has begun when ping 5 is published, and that discards ping 20. */
  lemma {:induction false} YoungPingDiscarded(junk: Stored)
    ensures var steps := [Step(HeaderOf(20), junk), Step(HeaderOf(5), junk), Step(WholeTile(5), junk)];
            20 in Run(START, steps[..2]).assemblers && 20 !in Run(START, steps).assemblers
  {
    hide Run, Scatter, Prepared;
    var a, b, c := Step(HeaderOf(20), junk), Step(HeaderOf(5), junk), Step(WholeTile(5), junk);
    RunNone(START);
    RunSnoc(START, [], a);
    RunSnoc(START, [a], b);
    RunSnoc(START, [a, b], c);
    assert [] + [a] == [a] && [a] + [b] == [a, b] && [a, b] + [c] == [a, b, c] && [a, b, c][..2] == [a, b];
    assert BinEnd(c.packet.m0.value) == 1;
    assert Threshold(5) == 0xFFFF_FFFB;
  }

  lemma {:induction false} RunNone(s: NodeState)
    ensures Run(s, []) == s
  {
  }
}
