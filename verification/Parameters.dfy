/** The command tables of the node: parameter updates, and the packets sent from them. */
module Parameters {
  import opened Bits
  import opened Bytes
  import opened Wrappers
  import opened Commands

  /** A row of a table: the command name sent to the sonar and the stored value. */
  datatype Row<V> = Row(cmd: string, value: V)

  /** The four std::maps. Floats are kept as their 32 bits. */
  datatype Tables = Tables(simInts: map<string, Row<int>>, simIps: map<string, Row<string>>,
                           headFloats: map<string, Row<u32>>, headInts: map<string, Row<int>>)

  datatype Variant = IntParam(i: int) | DoubleParam(d: real) | StringParam(s: string) | OtherParam

  datatype Param = Param(name: string, value: Variant)

  datatype Reason = Updated | InvalidIp(key: string) | UnknownSim(key: string) | UnknownHead(key: string)
                  | UnknownParameter(name: string) | WrongType

  /** Library conversions: inet_pton with ntohl, and double to float. */
  datatype Library = Library(parseIp: string -> Option<u32>, toFloat: real -> u32)

  const SIM: string := "sim_commands."
  const HEAD: string := "head_commands."

  /** Narrowing to a 32-bit int. */
  function ToInt32(v: int): int {
    (v + 0x8000_0000) % 0x1_0000_0000 - 0x8000_0000
  }

  function Store<V>(m: map<string, Row<V>>, key: string, v: V): map<string, Row<V>>
    requires key in m
  {
    m[key := Row(m[key].cmd, v)]
  }

  // ---- One update ----

  function UpdateSim(t: Tables, key: string, v: Variant, lib: Library): (Tables, Reason) {
    if key in t.simInts then
      if v.IntParam? then (t.(simInts := Store(t.simInts, key, ToInt32(v.i))), Updated) else (t, WrongType)
    else if key in t.simIps then
      if !v.StringParam? then (t, WrongType)
      else if lib.parseIp(v.s).None? then (t, InvalidIp(key))
      else (t.(simIps := Store(t.simIps, key, v.s)), Updated)
    else (t, UnknownSim(key))
  }

  function UpdateHead(t: Tables, key: string, v: Variant, lib: Library): (Tables, Reason) {
    if key in t.headFloats then
      if v.DoubleParam? then (t.(headFloats := Store(t.headFloats, key, lib.toFloat(v.d))), Updated) else (t, WrongType)
    else if key in t.headInts then
      if v.IntParam? then (t.(headInts := Store(t.headInts, key, ToInt32(v.i))), Updated) else (t, WrongType)
    else (t, UnknownHead(key))
  }

  function Update(t: Tables, p: Param, lib: Library): (Tables, Reason) {
    if SIM <= p.name then UpdateSim(t, p.name[|SIM|..], p.value, lib)
    else if HEAD <= p.name then UpdateHead(t, p.name[|HEAD|..], p.value, lib)
    else (t, UnknownParameter(p.name))
  }

  /** The tables after a list of updates; a failing one is skipped and the others still apply. */
  function UpdateAll(t: Tables, ps: seq<Param>, lib: Library): Tables {
    if ps == [] then t else Update(UpdateAll(t, ps[..|ps| - 1], lib), ps[|ps| - 1], lib).0
  }

  /** The reported result: the reason of the last failure, or success. */
  function ResultOf(t: Tables, ps: seq<Param>, lib: Library): Reason {
    if ps == [] then Updated else
      var front, last := ps[..|ps| - 1], ps[|ps| - 1];
      var reason := Update(UpdateAll(t, front, lib), last, lib).1;
      if reason.Updated? then ResultOf(t, front, lib) else reason
  }

  // ---- The invariant of the tables ----

  ghost predicate SameRows<V>(a: map<string, Row<V>>, b: map<string, Row<V>>) {
    a.Keys == b.Keys && forall k :: k in a ==> a[k].cmd == b[k].cmd
  }

  /** The same keys with the same command names. */
  ghost predicate SameLayout(a: Tables, b: Tables) {
    && SameRows(a.simInts, b.simInts) && SameRows(a.simIps, b.simIps)
    && SameRows(a.headFloats, b.headFloats) && SameRows(a.headInts, b.headInts)
  }

  ghost predicate IpsValid(m: map<string, Row<string>>, lib: Library) {
    forall k :: k in m ==> lib.parseIp(m[k].value).Some?
  }

  ghost predicate SimIpsValid(t: Tables, lib: Library) {
    IpsValid(t.simIps, lib)
  }

  lemma {:induction false} StoreKeeps<V>(m: map<string, Row<V>>, key: string, v: V)
    requires key in m
    ensures SameRows(m, Store(m, key, v))
  {
  }

  lemma {:induction false} SimKeeps(t: Tables, key: string, v: Variant, lib: Library)
    ensures SameLayout(t, UpdateSim(t, key, v, lib).0)
    ensures SimIpsValid(t, lib) ==> SimIpsValid(UpdateSim(t, key, v, lib).0, lib)
  {
    hide SameRows;
    Reflexive(t);
    if key in t.simInts && v.IntParam? {
      StoreKeeps(t.simInts, key, ToInt32(v.i));
    } else if key in t.simIps && v.StringParam? {
      StoreKeeps(t.simIps, key, v.s);
    }
  }

  lemma {:induction false} HeadKeeps(t: Tables, key: string, v: Variant, lib: Library)
    ensures SameLayout(t, UpdateHead(t, key, v, lib).0)
    ensures SimIpsValid(t, lib) ==> SimIpsValid(UpdateHead(t, key, v, lib).0, lib)
  {
    hide SameRows, SimIpsValid;
    Reflexive(t);
    assert UpdateHead(t, key, v, lib).0.simIps == t.simIps;
    if key in t.headFloats && v.DoubleParam? {
      StoreKeeps(t.headFloats, key, lib.toFloat(v.d));
    } else if key in t.headInts && v.IntParam? {
      StoreKeeps(t.headInts, key, ToInt32(v.i));
    }
    SameIps(t, UpdateHead(t, key, v, lib).0, lib);
  }

  lemma {:induction false} SameIps(t: Tables, u: Tables, lib: Library)
    requires t.simIps == u.simIps
    ensures SimIpsValid(t, lib) <==> SimIpsValid(u, lib)
  {
  }

  lemma {:induction false} Reflexive(t: Tables)
    ensures SameLayout(t, t)
  {
  }

  lemma {:induction false} UpdateKeeps(t: Tables, p: Param, lib: Library)
    ensures SameLayout(t, Update(t, p, lib).0)
    ensures SimIpsValid(t, lib) ==> SimIpsValid(Update(t, p, lib).0, lib)
  {
    hide UpdateSim, UpdateHead, SameLayout, SimIpsValid;
    Reflexive(t);
    if SIM <= p.name {
      SimKeeps(t, p.name[|SIM|..], p.value, lib);
    } else if HEAD <= p.name {
      HeadKeeps(t, p.name[|HEAD|..], p.value, lib);
    }
  }

  /** Whatever is requested, the tables keep their keys and command names, and stored addresses that
      were valid at the start stay valid. */
  lemma {:induction false} UpdatesKeep(t: Tables, ps: seq<Param>, lib: Library)
    ensures SameLayout(t, UpdateAll(t, ps, lib))
    ensures SimIpsValid(t, lib) ==> SimIpsValid(UpdateAll(t, ps, lib), lib)
  {
    hide Update;
    if ps == [] {
    } else {
      UpdatesKeep(t, ps[..|ps| - 1], lib);
      UpdateKeeps(UpdateAll(t, ps[..|ps| - 1], lib), ps[|ps| - 1], lib);
    }
  }

  /** A failing update leaves the tables alone. */
  lemma {:induction false} FailureChangesNothing(t: Tables, p: Param, lib: Library)
    requires !Update(t, p, lib).1.Updated?
    ensures Update(t, p, lib).0 == t
  {
  }

  // ---- Calls that are reported as failed ----

  /** The value a key refers to. */
  datatype Slot = NoSlot | IntSlot(i: int) | TextSlot(s: string) | FloatSlot(bits: u32)

  function SimSlot(t: Tables, key: string): Slot {
    if key in t.simInts then IntSlot(t.simInts[key].value)
    else if key in t.simIps then TextSlot(t.simIps[key].value) else NoSlot
  }

  function HeadSlot(t: Tables, key: string): Slot {
    if key in t.headFloats then FloatSlot(t.headFloats[key].value)
    else if key in t.headInts then IntSlot(t.headInts[key].value) else NoSlot
  }

  /** The value a parameter name refers to. */
  function SlotOf(t: Tables, name: string): Slot {
    if SIM <= name then SimSlot(t, name[|SIM|..])
    else if HEAD <= name then HeadSlot(t, name[|HEAD|..]) else NoSlot
  }

  lemma {:induction false} SamePrefixSameRest(a: string, b: string, prefix: string)
    requires prefix <= a && prefix <= b && a != b
    ensures a[|prefix|..] != b[|prefix|..]
  {
    assert a == prefix + a[|prefix|..] && b == prefix + b[|prefix|..];
  }

  lemma {:induction false} SimIsLocal(t: Tables, key: string, v: Variant, lib: Library, other: string)
    ensures var u := UpdateSim(t, key, v, lib).0;
            && (other != key ==> SimSlot(u, other) == SimSlot(t, other)) && HeadSlot(u, other) == HeadSlot(t, other)
            && (u != t <==> SimSlot(u, key) != SimSlot(t, key))
  {
    hide ToInt32;
  }

  lemma {:induction false} HeadIsLocal(t: Tables, key: string, v: Variant, lib: Library, other: string)
    ensures var u := UpdateHead(t, key, v, lib).0;
            && (other != key ==> HeadSlot(u, other) == HeadSlot(t, other)) && SimSlot(u, other) == SimSlot(t, other)
            && (u != t <==> HeadSlot(u, key) != HeadSlot(t, key))
  {
    hide ToInt32;
  }

  /** An update touches the slot of its own name only, and changes the tables exactly if it changes that. */
  lemma {:induction false} UpdateIsLocal(t: Tables, p: Param, lib: Library, name: string)
    ensures name != p.name ==> SlotOf(Update(t, p, lib).0, name) == SlotOf(t, name)
    ensures Update(t, p, lib).0 != t <==> SlotOf(Update(t, p, lib).0, p.name) != SlotOf(t, p.name)
  {
    hide UpdateSim, UpdateHead, SimSlot, HeadSlot;
    if name != p.name && SIM <= name && SIM <= p.name {
      SamePrefixSameRest(name, p.name, SIM);
    }
    if name != p.name && HEAD <= name && HEAD <= p.name {
      SamePrefixSameRest(name, p.name, HEAD);
    }
    var rest := if SIM <= name then name[|SIM|..] else if HEAD <= name then name[|HEAD|..] else name;
    if SIM <= p.name {
      SimIsLocal(t, p.name[|SIM|..], p.value, lib, rest);
    } else if HEAD <= p.name {
      HeadIsLocal(t, p.name[|HEAD|..], p.value, lib, rest);
    }
  }

  /** The value a variant stores in a slot of the same type, or nothing when the update is refused. */
  function Accepted(slot: Slot, v: Variant, lib: Library): Option<Slot> {
    match (slot, v)
    case (IntSlot(_), IntParam(i)) => Some(IntSlot(ToInt32(i)))
    case (FloatSlot(_), DoubleParam(d)) => Some(FloatSlot(lib.toFloat(d)))
    case (TextSlot(_), StringParam(s)) => if lib.parseIp(s).Some? then Some(TextSlot(s)) else None
    case _ => None
  }

  lemma {:induction false} SimOutcome(t: Tables, key: string, v: Variant, lib: Library)
    ensures var (u, reason) := UpdateSim(t, key, v, lib);
            && (reason.Updated? <==> Accepted(SimSlot(t, key), v, lib).Some?)
            && (reason.Updated? ==> SimSlot(u, key) == Accepted(SimSlot(t, key), v, lib).value)
  {
    hide ToInt32;
  }

  lemma {:induction false} HeadOutcome(t: Tables, key: string, v: Variant, lib: Library)
    ensures var (u, reason) := UpdateHead(t, key, v, lib);
            && (reason.Updated? <==> Accepted(HeadSlot(t, key), v, lib).Some?)
            && (reason.Updated? ==> HeadSlot(u, key) == Accepted(HeadSlot(t, key), v, lib).value)
  {
    hide ToInt32;
  }

  /** An update succeeds exactly when the name refers to a slot of the type of the value, and the value
      is a valid address where one is due; it then stores that value. */
  lemma {:induction false} UpdateOutcome(t: Tables, p: Param, lib: Library)
    ensures Update(t, p, lib).1.Updated? <==> Accepted(SlotOf(t, p.name), p.value, lib).Some?
    ensures Update(t, p, lib).1.Updated? ==>
              SlotOf(Update(t, p, lib).0, p.name) == Accepted(SlotOf(t, p.name), p.value, lib).value
  {
    hide UpdateSim, UpdateHead, SimSlot, HeadSlot;
    if SIM <= p.name {
      SimOutcome(t, p.name[|SIM|..], p.value, lib);
    } else if HEAD <= p.name {
      HeadOutcome(t, p.name[|HEAD|..], p.value, lib);
    }
  }

  /** The two tables of a group may share a key: then only the first one is ever updated. */
  predicate SameHidden(a: Tables, b: Tables) {
    && (forall k :: k in a.simInts && k in a.simIps ==> k in b.simIps && a.simIps[k] == b.simIps[k])
    && (forall k :: k in a.headFloats && k in a.headInts ==> k in b.headInts && a.headInts[k] == b.headInts[k])
  }

  lemma {:induction false} HiddenKept(t: Tables, u: Tables, p: Param, lib: Library)
    requires SameLayout(t, u) && SameHidden(t, u)
    ensures SameHidden(t, Update(u, p, lib).0)
  {
    hide ToInt32;
  }

  lemma {:induction false} AllHiddenKept(t: Tables, ps: seq<Param>, lib: Library)
    ensures SameHidden(t, UpdateAll(t, ps, lib))
  {
    hide Update, SameHidden, SameLayout;
    if ps == [] {
      HiddenReflexive(t);
    } else {
      var front := ps[..|ps| - 1];
      AllHiddenKept(t, front, lib);
      UpdatesKeep(t, front, lib);
      HiddenKept(t, UpdateAll(t, front, lib), ps[|ps| - 1], lib);
    }
  }

  lemma {:induction false} HiddenReflexive(t: Tables)
    ensures SameHidden(t, t)
  {
  }

  /** Tables with the same layout, the same slots and the same hidden rows are the same. */
  lemma {:induction false} SameSlotsSameTables(t: Tables, u: Tables)
    requires SameLayout(t, u) && SameHidden(t, u)
    requires forall name :: SlotOf(t, name) == SlotOf(u, name)
    ensures t == u
  {
    forall k ensures SimSlot(t, k) == SimSlot(u, k) && HeadSlot(t, k) == HeadSlot(u, k) {
      assert (SIM + k)[|SIM|..] == k && (HEAD + k)[|HEAD|..] == k;
      assert SlotOf(t, SIM + k) == SlotOf(u, SIM + k) && SlotOf(t, HEAD + k) == SlotOf(u, HEAD + k);
      PrefixesDiffer(HEAD + k);
    }
    hide SlotOf;
    SameMaps(t, u);
  }

  lemma {:induction false} PrefixesDiffer(name: string)
    requires HEAD <= name
    ensures !(SIM <= name)
  {
    assert name[0] == HEAD[0] != SIM[0];
  }

  lemma {:induction false} SameMaps(t: Tables, u: Tables)
    requires SameLayout(t, u) && SameHidden(t, u)
    requires forall k :: SimSlot(t, k) == SimSlot(u, k) && HeadSlot(t, k) == HeadSlot(u, k)
    ensures t == u
  {
    forall k | k in t.simInts ensures t.simInts[k] == u.simInts[k] { SameSimRow(t, u, k); }
    forall k | k in t.simIps ensures t.simIps[k] == u.simIps[k] { SameSimRow(t, u, k); }
    forall k | k in t.headFloats ensures t.headFloats[k] == u.headFloats[k] { SameHeadRow(t, u, k); }
    forall k | k in t.headInts ensures t.headInts[k] == u.headInts[k] { SameHeadRow(t, u, k); }
  }

  lemma {:induction false} SameSimRow(t: Tables, u: Tables, k: string)
    requires SameLayout(t, u) && SameHidden(t, u) && SimSlot(t, k) == SimSlot(u, k)
    ensures k in t.simInts ==> t.simInts[k] == u.simInts[k]
    ensures k in t.simIps ==> t.simIps[k] == u.simIps[k]
  {
  }

  lemma {:induction false} SameHeadRow(t: Tables, u: Tables, k: string)
    requires SameLayout(t, u) && SameHidden(t, u) && HeadSlot(t, k) == HeadSlot(u, k)
    ensures k in t.headFloats ==> t.headFloats[k] == u.headFloats[k]
    ensures k in t.headInts ==> t.headInts[k] == u.headInts[k]
  {
  }

  /** What the last accepted parameter of this name stores, if there is one. */
  function LastAccepted(t: Tables, ps: seq<Param>, lib: Library, name: string): Option<Slot> {
    if ps == [] then None else
      var last := ps[|ps| - 1];
      if last.name == name && Accepted(SlotOf(t, name), last.value, lib).Some? then
        Accepted(SlotOf(t, name), last.value, lib)
      else LastAccepted(t, ps[..|ps| - 1], lib, name)
  }

  lemma {:induction false} SameTypes(t: Tables, u: Tables, name: string, v: Variant, lib: Library)
    requires SameLayout(t, u)
    ensures Accepted(SlotOf(u, name), v, lib) == Accepted(SlotOf(t, name), v, lib)
  {
    hide ToInt32;
  }

  /** After any call every slot holds what the last accepted parameter of its name stores. */
  lemma {:induction false} SlotAfterAll(t: Tables, ps: seq<Param>, lib: Library, name: string)
    ensures SlotOf(UpdateAll(t, ps, lib), name)
         == match LastAccepted(t, ps, lib, name) case Some(slot) => slot case None => SlotOf(t, name)
  {
    hide Update, SlotOf, SameLayout, Accepted;
    if ps == [] {
    } else {
      var front, last := ps[..|ps| - 1], ps[|ps| - 1];
      var u := UpdateAll(t, front, lib);
      SlotAfterAll(t, front, lib, name);
      UpdateIsLocal(u, last, lib, name);
      UpdatesKeep(t, front, lib);
      SameTypes(t, u, name, last.value, lib);
      UpdateOutcome(u, last, lib);
      if !Update(u, last, lib).1.Updated? {
        FailureChangesNothing(u, last, lib);
      }
    }
  }

  /** Every call, reported as failed or not, leaves the tables as they were if and only if for each name the last
      acceptable parameter stores what is stored already, or there is none. */
  lemma {:induction false} CallChangesNothingIff(t: Tables, ps: seq<Param>, lib: Library)
    ensures UpdateAll(t, ps, lib) == t
       <==> forall name :: LastAccepted(t, ps, lib, name) in {None, Some(SlotOf(t, name))}
  {
    hide UpdateAll, SlotOf, SameLayout, SameHidden, LastAccepted;
    forall name
      ensures SlotOf(UpdateAll(t, ps, lib), name) == SlotOf(t, name)
         <==> LastAccepted(t, ps, lib, name) in {None, Some(SlotOf(t, name))}
    {
      SlotAfterAll(t, ps, lib, name);
    }
    if forall name :: LastAccepted(t, ps, lib, name) in {None, Some(SlotOf(t, name))} {
      UpdatesKeep(t, ps, lib);
      AllHiddenKept(t, ps, lib);
      SameSlotsSameTables(t, UpdateAll(t, ps, lib));
    }
  }

  /** A call is reported as successful if and only if every parameter is acceptable. */
  lemma {:induction false} CallSucceedsIff(t: Tables, ps: seq<Param>, lib: Library)
    ensures ResultOf(t, ps, lib).Updated?
       <==> forall i :: 0 <= i < |ps| ==> Accepted(SlotOf(t, ps[i].name), ps[i].value, lib).Some?
  {
    hide Update, SlotOf, SameLayout, Accepted;
    if ps == [] {
    } else {
      var front, last := ps[..|ps| - 1], ps[|ps| - 1];
      CallSucceedsIff(t, front, lib);
      UpdatesKeep(t, front, lib);
      SameTypes(t, UpdateAll(t, front, lib), last.name, last.value, lib);
      UpdateOutcome(UpdateAll(t, front, lib), last, lib);
      assert forall i :: 0 <= i < |front| ==> front[i] == ps[i];
    }
  }

  /** Which failure a parameter meets, and what it names. */
  lemma {:induction false} FailureReasons(t: Tables, p: Param, lib: Library)
    ensures var reason, slot := Update(t, p, lib).1, SlotOf(t, p.name);
            && (reason.UnknownParameter? <==> !("sim_commands." <= p.name) && !("head_commands." <= p.name))
            && (reason.UnknownParameter? ==> reason.name == p.name)
            && (reason.UnknownSim? <==> "sim_commands." <= p.name && slot.NoSlot?)
            && (reason.UnknownSim? ==> p.name == "sim_commands." + reason.key)
            && (reason.UnknownHead? <==> "head_commands." <= p.name && slot.NoSlot?)
            && (reason.UnknownHead? ==> p.name == "head_commands." + reason.key)
            && (reason.InvalidIp? <==> slot.TextSlot? && p.value.StringParam? && lib.parseIp(p.value.s).None?)
            && (reason.InvalidIp? ==> p.name == "sim_commands." + reason.key)
            && (reason.WrongType? <==> || (slot.IntSlot? && !p.value.IntParam?)
                                       || (slot.FloatSlot? && !p.value.DoubleParam?)
                                       || (slot.TextSlot? && !p.value.StringParam?))
  {
    hide ToInt32;
    if "head_commands." <= p.name {
      PrefixesDiffer(p.name);
    }
  }

  lemma {:induction false} SameReason(t: Tables, u: Tables, p: Param, lib: Library)
    requires SameLayout(t, u)
    ensures Update(u, p, lib).1 == Update(t, p, lib).1
  {
    hide ToInt32;
  }

  /** A call with a failure reports its last one, as this parameter would have failed alone. */
  lemma {:induction false} LastFailureReported(t: Tables, ps: seq<Param>, lib: Library, k: nat)
    requires k < |ps| && !Update(t, ps[k], lib).1.Updated?
    requires forall i :: k < i < |ps| ==> Update(t, ps[i], lib).1.Updated?
    ensures ResultOf(t, ps, lib) == Update(t, ps[k], lib).1
  {
    hide Update, SameLayout;
    var front, last := ps[..|ps| - 1], ps[|ps| - 1];
    UpdatesKeep(t, front, lib);
    SameReason(t, UpdateAll(t, front, lib), last, lib);
    if k < |ps| - 1 {
      LastFailureReported(t, front, lib, k);
    }
  }

  /** A number that fits 32 bits is stored as it is, under the command name that was there. */
  lemma {:induction false} IntIsStored(t: Tables, key: string, i: int, lib: Library)
    requires -0x8000_0000 <= i < 0x8000_0000
    ensures key in t.simInts ==>
              Update(t, Param("sim_commands." + key, IntParam(i)), lib)
              == (t.(simInts := t.simInts[key := Row(t.simInts[key].cmd, i)]), Updated)
    ensures key in t.headInts && key !in t.headFloats ==>
              Update(t, Param("head_commands." + key, IntParam(i)), lib)
              == (t.(headInts := t.headInts[key := Row(t.headInts[key].cmd, i)]), Updated)
  {
    SimUpdate(t, Param("sim_commands." + key, IntParam(i)), key, lib);
    PrefixesDiffer("head_commands." + key);
    assert ("head_commands." + key)[|HEAD|..] == key;
  }

  /** A valid address is stored as its text, a double as the float the library makes of it. */
  lemma {:induction false} TextAndFloatAreStored(t: Tables, key: string, ip: string, d: real, lib: Library)
    ensures key in t.simIps && key !in t.simInts && lib.parseIp(ip).Some? ==>
              Update(t, Param("sim_commands." + key, StringParam(ip)), lib)
              == (t.(simIps := t.simIps[key := Row(t.simIps[key].cmd, ip)]), Updated)
    ensures key in t.headFloats ==>
              Update(t, Param("head_commands." + key, DoubleParam(d)), lib)
              == (t.(headFloats := t.headFloats[key := Row(t.headFloats[key].cmd, lib.toFloat(d))]), Updated)
  {
    SimUpdate(t, Param("sim_commands." + key, StringParam(ip)), key, lib);
    PrefixesDiffer("head_commands." + key);
    assert ("head_commands." + key)[|HEAD|..] == key;
  }

  /** A call that sets a parameter and then misspells it is reported as failed but has changed the tables. */
  lemma {:induction false} FailedCallChanges(t: Tables, lib: Library)
    requires "pps_edge" in t.simInts && t.simInts["pps_edge"].value == 1
    requires "pps_egde" !in t.simInts && "pps_egde" !in t.simIps
    ensures var ps := [Param("sim_commands.pps_edge", IntParam(2)), Param("sim_commands.pps_egde", IntParam(2))];
            && ResultOf(t, ps, lib) == UnknownSim("pps_egde")
            && UpdateAll(t, ps, lib) == t.(simInts := Store(t.simInts, "pps_edge", 2)) != t
  {
    hide Update;
    var u := t.(simInts := Store(t.simInts, "pps_edge", 2));
    var p, q := Param("sim_commands.pps_edge", IntParam(2)), Param("sim_commands.pps_egde", IntParam(2));
    assert Update(t, p, lib) == (u, Updated) by { SimUpdate(t, p, "pps_edge", lib); }
    assert Update(u, q, lib) == (u, UnknownSim("pps_egde")) by { SimUpdate(u, q, "pps_egde", lib); }
    TwoUpdates(t, p, q, lib);
    assert u.simInts["pps_edge"].value == 2;
  }

  lemma {:induction false} TwoUpdates(t: Tables, p: Param, q: Param, lib: Library)
    ensures UpdateAll(t, [p, q], lib) == Update(Update(t, p, lib).0, q, lib).0
    ensures var reason := Update(Update(t, p, lib).0, q, lib).1;
            !reason.Updated? ==> ResultOf(t, [p, q], lib) == reason
  {
    hide Update;
    assert [p, q][..1] == [p] && [p][..0] == [];
    assert UpdateAll(t, [p], lib) == Update(t, p, lib).0;
  }

  lemma {:induction false} SimUpdate(t: Tables, p: Param, key: string, lib: Library)
    requires p.name == SIM + key
    ensures Update(t, p, lib) == UpdateSim(t, key, p.value, lib)
  {
    assert p.name[|SIM|..] == key;
  }

  // ---- The packets ----

  predicate FourCharacters<V>(m: map<string, Row<V>>) {
    forall k :: k in m ==> StrLen(m[k].cmd) == 4
  }

  predicate NamesAreFour(t: Tables) {
    FourCharacters(t.simInts) && FourCharacters(t.simIps) && FourCharacters(t.headFloats) && FourCharacters(t.headInts)
  }

  /** An iteration order of a map: every key once. std::map iterates in ascending order; what follows
      holds for any. */
  ghost predicate Enumerates<V>(order: seq<string>, m: map<string, Row<V>>) {
    |order| == |m| && forall k :: k in m <==> k in order
  }

  /** The unsigned value of a stored int. */
  function Unsigned(v: int): u32 {
    v % 0x1_0000_0000
  }

  function CmdFor(cmd: string, v: Value): Cmd
    requires StrLen(cmd) == 4
  {
    MakeCmd(cmd, v).value
  }

  function IntCmds(m: map<string, Row<int>>, order: seq<string>): (cs: seq<Cmd>)
    requires FourCharacters(m) && forall k :: k in order ==> k in m
    ensures |cs| == |order|
  {
    seq(|order|, i requires 0 <= i < |order| => CmdFor(m[order[i]].cmd, IntValue(Unsigned(m[order[i]].value))))
  }

  function FloatCmds(m: map<string, Row<u32>>, order: seq<string>): (cs: seq<Cmd>)
    requires FourCharacters(m) && forall k :: k in order ==> k in m
    ensures |cs| == |order|
  {
    seq(|order|, i requires 0 <= i < |order| => CmdFor(m[order[i]].cmd, FloatValue(m[order[i]].value)))
  }

  ghost function IpCmds(m: map<string, Row<string>>, order: seq<string>, lib: Library): (cs: seq<Cmd>)
    requires FourCharacters(m) && forall k :: k in order ==> k in m
    requires IpsValid(m, lib)
    ensures |cs| == |order|
  {
    seq(|order|, i requires 0 <= i < |order| =>
      CmdFor(m[order[i]].cmd, IntValue(lib.parseIp(m[order[i]].value).value)))
  }

  // ---- What the sonar reads in the packets ----

  /** The four characters of the command name, in order. */
  predicate Named(r: Received, cmd: string) {
    |cmd| >= 4 && forall j :: 0 <= j < 4 ==> (cmd[j] as int < 256 ==> r.name[j] == cmd[j] as int)
  }

  /** A 32-bit int in two's complement. */
  predicate TwosComplement(wire: u32, v: int) {
    && (0 <= v < 0x8000_0000 ==> wire == v)
    && (-0x8000_0000 <= v < 0 ==> wire == v + 0x1_0000_0000)
  }

  /** From position at on, the list has the ints of this table in this order. */
  ghost predicate ListsInts(rs: seq<Received>, at: nat, m: map<string, Row<int>>, order: seq<string>)
    requires Enumerates(order, m)
  {
    && at + |order| <= |rs|
    && forall i :: 0 <= i < |order| ==>
         Named(rs[at + i], m[order[i]].cmd) && TwosComplement(rs[at + i].wire, m[order[i]].value)
  }

  ghost predicate ListsFloats(rs: seq<Received>, at: nat, m: map<string, Row<u32>>, order: seq<string>)
    requires Enumerates(order, m)
  {
    && at + |order| <= |rs|
    && forall i :: 0 <= i < |order| ==>
         Named(rs[at + i], m[order[i]].cmd) && rs[at + i].wire == m[order[i]].value
  }

  ghost predicate ListsIps(rs: seq<Received>, at: nat, m: map<string, Row<string>>, order: seq<string>, lib: Library)
    requires Enumerates(order, m)
  {
    && at + |order| <= |rs|
    && forall i :: 0 <= i < |order| ==>
         Named(rs[at + i], m[order[i]].cmd) && lib.parseIp(m[order[i]].value) == Some(rs[at + i].wire)
  }

  /** Whoever reads this packet finds the ints of the table and then its addresses, in the given orders. */
  ghost predicate SaysSim(packet: seq<byte>, t: Tables, ints: seq<string>, ips: seq<string>, lib: Library)
    requires Enumerates(ints, t.simInts) && Enumerates(ips, t.simIps)
  {
    && |packet| >= 4 && Spells(packet[..4], "CMD0") && Parse(packet).Some?
    && |Parse(packet).value| == |ints| + |ips|
    && ListsInts(Parse(packet).value, 0, t.simInts, ints)
    && ListsIps(Parse(packet).value, |ints|, t.simIps, ips, lib)
  }

  /** Whoever reads this packet finds the floats of the table and then its ints, in the given orders. */
  ghost predicate SaysHead(packet: seq<byte>, t: Tables, floats: seq<string>, ints: seq<string>)
    requires Enumerates(floats, t.headFloats) && Enumerates(ints, t.headInts)
  {
    && |packet| >= 4 && Spells(packet[..4], "CMD0") && Parse(packet).Some?
    && |Parse(packet).value| == |floats| + |ints|
    && ListsFloats(Parse(packet).value, 0, t.headFloats, floats)
    && ListsInts(Parse(packet).value, |floats|, t.headInts, ints)
  }

  lemma {:induction false} CmdSays(cmd: string, v: Value)
    requires StrLen(cmd) == 4
    ensures Named(Received(CmdFor(cmd, v).name, CmdFor(cmd, v).value.Wire()), cmd)
    ensures CmdFor(cmd, v).value.Wire() == match v case IntValue(i) => i case FloatValue(bits) => bits
  {
  }

  lemma {:induction false} UnsignedSays(v: int)
    ensures TwosComplement(Unsigned(v), v)
  {
  }

  lemma {:induction false} PacketNamed(cs: seq<Cmd>)
    ensures |Serialized(cs)| >= 4 && Spells(Serialized(cs)[..4], "CMD0")
  {
  }

  lemma {:induction false} IntCmdsSay(m: map<string, Row<int>>, order: seq<string>, a: seq<Cmd>, b: seq<Cmd>)
    requires Enumerates(order, m) && FourCharacters(m)
    ensures ListsInts(Seen(a + IntCmds(m, order) + b), |a|, m, order)
  {
    hide StrLen, Unsigned, Named, TwosComplement, CmdFor, Value.Wire;
    var all := a + IntCmds(m, order) + b;
    forall i | 0 <= i < |order|
      ensures Named(Seen(all)[|a| + i], m[order[i]].cmd)
      ensures TwosComplement(Seen(all)[|a| + i].wire, m[order[i]].value)
    {
      assert all[|a| + i] == IntCmds(m, order)[i];
      CmdSays(m[order[i]].cmd, IntValue(Unsigned(m[order[i]].value)));
      UnsignedSays(m[order[i]].value);
    }
  }

  lemma {:induction false} FloatCmdsSay(m: map<string, Row<u32>>, order: seq<string>, a: seq<Cmd>, b: seq<Cmd>)
    requires Enumerates(order, m) && FourCharacters(m)
    ensures ListsFloats(Seen(a + FloatCmds(m, order) + b), |a|, m, order)
  {
    hide StrLen, Named, CmdFor, Value.Wire;
    var all := a + FloatCmds(m, order) + b;
    forall i | 0 <= i < |order|
      ensures Named(Seen(all)[|a| + i], m[order[i]].cmd) && Seen(all)[|a| + i].wire == m[order[i]].value
    {
      assert all[|a| + i] == FloatCmds(m, order)[i];
      CmdSays(m[order[i]].cmd, FloatValue(m[order[i]].value));
    }
  }

  lemma {:induction false} IpCmdsSay(m: map<string, Row<string>>, order: seq<string>, lib: Library, a: seq<Cmd>,
                                     b: seq<Cmd>)
    requires Enumerates(order, m) && FourCharacters(m) && IpsValid(m, lib)
    ensures ListsIps(Seen(a + IpCmds(m, order, lib) + b), |a|, m, order, lib)
  {
    hide StrLen, Named, CmdFor, Value.Wire;
    var all := a + IpCmds(m, order, lib) + b;
    forall i | 0 <= i < |order|
      ensures Named(Seen(all)[|a| + i], m[order[i]].cmd)
      ensures lib.parseIp(m[order[i]].value) == Some(Seen(all)[|a| + i].wire)
    {
      assert all[|a| + i] == IpCmds(m, order, lib)[i];
      CmdSays(m[order[i]].cmd, IntValue(lib.parseIp(m[order[i]].value).value));
    }
  }

  lemma {:induction false} SimPacketSays(t: Tables, ints: seq<string>, ips: seq<string>, lib: Library)
    requires Enumerates(ints, t.simInts) && Enumerates(ips, t.simIps)
    requires FourCharacters(t.simInts) && FourCharacters(t.simIps) && IpsValid(t.simIps, lib)
    ensures SaysSim(Serialized(IntCmds(t.simInts, ints) + IpCmds(t.simIps, ips, lib)), t, ints, ips, lib)
  {
    hide FourCharacters, IpsValid, Serialized, Parse, IntCmds, IpCmds, Seen, ListsInts, ListsIps, Spells;
    var a, b := IntCmds(t.simInts, ints), IpCmds(t.simIps, ips, lib);
    PacketNamed(a + b);
    PacketReadsBack(a + b);
    assert [] + a + b == a + b == a + b + [];
    IntCmdsSay(t.simInts, ints, [], b);
    IpCmdsSay(t.simIps, ips, lib, a, []);
  }

  lemma {:induction false} HeadPacketSays(t: Tables, floats: seq<string>, ints: seq<string>)
    requires Enumerates(floats, t.headFloats) && Enumerates(ints, t.headInts)
    requires FourCharacters(t.headFloats) && FourCharacters(t.headInts)
    ensures SaysHead(Serialized(FloatCmds(t.headFloats, floats) + IntCmds(t.headInts, ints)), t, floats, ints)
  {
    hide FourCharacters, Serialized, Parse, IntCmds, FloatCmds, Seen, ListsInts, ListsFloats, Spells;
    var a, b := FloatCmds(t.headFloats, floats), IntCmds(t.headInts, ints);
    PacketNamed(a + b);
    PacketReadsBack(a + b);
    assert [] + a + b == a + b == a + b + [];
    FloatCmdsSay(t.headFloats, floats, [], b);
    IntCmdsSay(t.headInts, ints, a, []);
  }

  class ParameterStore {
    var tables: Tables

    constructor (tables: Tables)
      ensures this.tables == tables
    {
      this.tables := tables;
    }

    /** onParameterUpdate: the loop over the parameters, with its catch. */
    method OnParameterUpdate(ps: seq<Param>, lib: Library) returns (reason: Reason)
      modifies this
      ensures tables == UpdateAll(old(tables), ps, lib)
      ensures reason == ResultOf(old(tables), ps, lib)
    {
      hide Update;
      reason := Updated;
      var i := 0;
      while i < |ps|
        invariant 0 <= i <= |ps|
        invariant tables == UpdateAll(old(tables), ps[..i], lib)
        invariant reason == ResultOf(old(tables), ps[..i], lib)
      {
        assert ps[..i + 1][..i] == ps[..i];
        var failure := ApplyParameter(ps[i], lib);
        if !failure.Updated? {
          reason := failure;
        }
        i := i + 1;
      }
      assert ps[..i] == ps;
    }

    /** The body of the loop. */
    method ApplyParameter(p: Param, lib: Library) returns (reason: Reason)
      modifies this
      ensures (tables, reason) == Update(old(tables), p, lib)
    {
      if SIM <= p.name {
        var key := p.name[|SIM|..];
        if key in tables.simInts {
          if !p.value.IntParam? { return WrongType; }
          tables := tables.(simInts := Store(tables.simInts, key, ToInt32(p.value.i)));
          return Updated;
        }
        if key in tables.simIps {
          if !p.value.StringParam? { return WrongType; }
          if lib.parseIp(p.value.s).None? { return InvalidIp(key); }
          tables := tables.(simIps := Store(tables.simIps, key, p.value.s));
          return Updated;
        }
        return UnknownSim(key);
      } else if HEAD <= p.name {
        var key := p.name[|HEAD|..];
        if key in tables.headFloats {
          if !p.value.DoubleParam? { return WrongType; }
          tables := tables.(headFloats := Store(tables.headFloats, key, lib.toFloat(p.value.d)));
        } else if key in tables.headInts {
          if !p.value.IntParam? { return WrongType; }
          tables := tables.(headInts := Store(tables.headInts, key, ToInt32(p.value.i)));
        } else {
          return UnknownHead(key);
        }
        return Updated;
      }
      return UnknownParameter(p.name);
    }

    /** The loop over a table of ints; false when a command name makes it throw. */
    static method AppendInts(pkt: CmdSet, m: map<string, Row<int>>, order: seq<string>) returns (ok: bool)
      requires Enumerates(order, m)
      modifies pkt`commands
      ensures ok <==> FourCharacters(m)
      ensures ok ==> pkt.commands == old(pkt.commands) + IntCmds(m, order)
    {
      hide StrLen, Ascii, Value.Wire;
      ghost var before := pkt.commands;
      var i := 0;
      while i < |order|
        invariant 0 <= i <= |order| && |pkt.commands| == |before| + i && before <= pkt.commands
        invariant forall j :: 0 <= j < i ==> StrLen(m[order[j]].cmd) == 4
        invariant forall j :: 0 <= j < i ==>
                    pkt.commands[|before| + j] == CmdFor(m[order[j]].cmd, IntValue(Unsigned(m[order[j]].value)))
      {
        var row := m[order[i]];
        var cmd := MakeCmd(row.cmd, IntValue(Unsigned(row.value)));
        if cmd.Failure? {
          assert order[i] in m;
          return false;
        }
        pkt.Append(cmd.value);
        i := i + 1;
      }
      assert pkt.commands == before + IntCmds(m, order);
      return true;
    }

    /** The loop over a table of floats. */
    static method AppendFloats(pkt: CmdSet, m: map<string, Row<u32>>, order: seq<string>) returns (ok: bool)
      requires Enumerates(order, m)
      modifies pkt`commands
      ensures ok <==> FourCharacters(m)
      ensures ok ==> pkt.commands == old(pkt.commands) + FloatCmds(m, order)
    {
      hide StrLen, Ascii, Value.Wire;
      ghost var before := pkt.commands;
      var i := 0;
      while i < |order|
        invariant 0 <= i <= |order| && |pkt.commands| == |before| + i && before <= pkt.commands
        invariant forall j :: 0 <= j < i ==> StrLen(m[order[j]].cmd) == 4
        invariant forall j :: 0 <= j < i ==>
                    pkt.commands[|before| + j] == CmdFor(m[order[j]].cmd, FloatValue(m[order[j]].value))
      {
        var row := m[order[i]];
        var cmd := MakeCmd(row.cmd, FloatValue(row.value));
        if cmd.Failure? {
          assert order[i] in m;
          return false;
        }
        pkt.Append(cmd.value);
        i := i + 1;
      }
      assert pkt.commands == before + FloatCmds(m, order);
      return true;
    }

    /** The loop over a table of addresses; an invalid address throws, too. */
    static method AppendIps(pkt: CmdSet, m: map<string, Row<string>>, order: seq<string>, lib: Library)
      returns (ok: bool)
      requires Enumerates(order, m)
      modifies pkt`commands
      ensures ok <==> FourCharacters(m) && IpsValid(m, lib)
      ensures ok ==> pkt.commands == old(pkt.commands) + IpCmds(m, order, lib)
    {
      hide StrLen, Ascii, Value.Wire;
      ghost var before := pkt.commands;
      var i := 0;
      while i < |order|
        invariant 0 <= i <= |order| && |pkt.commands| == |before| + i && before <= pkt.commands
        invariant forall j :: 0 <= j < i ==> StrLen(m[order[j]].cmd) == 4 && lib.parseIp(m[order[j]].value).Some?
        invariant forall j :: 0 <= j < i ==>
                    pkt.commands[|before| + j]
                      == CmdFor(m[order[j]].cmd, IntValue(lib.parseIp(m[order[j]].value).value))
      {
        var row := m[order[i]];
        var ip := lib.parseIp(row.value);
        if ip.None? {
          assert order[i] in m;
          return false;
        }
        var cmd := MakeCmd(row.cmd, IntValue(ip.value));
        if cmd.Failure? {
          assert order[i] in m;
          return false;
        }
        pkt.Append(cmd.value);
        i := i + 1;
      }
      assert pkt.commands == before + IpCmds(m, order, lib);
      return true;
    }

    /** send_sim_cmds, with the iteration orders of its two maps: the packet, or nothing when it throws. */
    method SendSimCmds(ints: seq<string>, ips: seq<string>, lib: Library) returns (packet: Option<seq<byte>>)
      requires Enumerates(ints, tables.simInts) && Enumerates(ips, tables.simIps)
      ensures packet.Some? <==>
                FourCharacters(tables.simInts) && FourCharacters(tables.simIps) && IpsValid(tables.simIps, lib)
      ensures packet.Some? ==>
                && packet.value == Serialized(IntCmds(tables.simInts, ints) + IpCmds(tables.simIps, ips, lib))
                && SaysSim(packet.value, tables, ints, ips, lib)
                && |packet.value| == 4 + 8 * (|tables.simInts| + |tables.simIps|)
    {
      hide FourCharacters, IpsValid, Serialized, SaysSim;
      var pkt := new CmdSet();
      var ok := AppendInts(pkt, tables.simInts, ints);
      if !ok {
        return None;
      }
      ok := AppendIps(pkt, tables.simIps, ips, lib);
      if !ok {
        return None;
      }
      assert pkt.commands == IntCmds(tables.simInts, ints) + IpCmds(tables.simIps, ips, lib);
      var buffer := pkt.Serialize();
      PacketReadsBack(pkt.commands);
      SimPacketSays(tables, ints, ips, lib);
      return Some(buffer);
    }

    /** send_head_cmds, with the iteration orders of its two maps. */
    method SendHeadCmds(floats: seq<string>, ints: seq<string>) returns (packet: Option<seq<byte>>)
      requires Enumerates(floats, tables.headFloats) && Enumerates(ints, tables.headInts)
      ensures packet.Some? <==> FourCharacters(tables.headFloats) && FourCharacters(tables.headInts)
      ensures packet.Some? ==>
                && packet.value == Serialized(FloatCmds(tables.headFloats, floats) + IntCmds(tables.headInts, ints))
                && SaysHead(packet.value, tables, floats, ints)
                && |packet.value| == 4 + 8 * (|tables.headFloats| + |tables.headInts|)
    {
      hide FourCharacters, Serialized, SaysHead;
      var pkt := new CmdSet();
      var ok := AppendFloats(pkt, tables.headFloats, floats);
      if !ok {
        return None;
      }
      ok := AppendInts(pkt, tables.headInts, ints);
      if !ok {
        return None;
      }
      assert pkt.commands == FloatCmds(tables.headFloats, floats) + IntCmds(tables.headInts, ints);
      var buffer := pkt.Serialize();
      PacketReadsBack(pkt.commands);
      HeadPacketSays(tables, floats, ints);
      return Some(buffer);
    }
  }

  /** The command names of a packet, in iteration order. */
  function NamesOf<V>(m: map<string, Row<V>>, order: seq<string>): seq<string>
    requires forall k :: k in order ==> k in m
  {
    seq(|order|, i requires 0 <= i < |order| => m[order[i]].cmd)
  }

  lemma {:induction false} SameRowsSendAlike<V>(a: map<string, Row<V>>, b: map<string, Row<V>>, order: seq<string>)
    requires SameRows(a, b) && Enumerates(order, a)
    ensures Enumerates(order, b) && |a| == |b| && NamesOf(b, order) == NamesOf(a, order)
    ensures FourCharacters(a) ==> FourCharacters(b)
  {
    hide StrLen;
    assert |a| == |a.Keys| == |b.Keys| == |b|;
  }

  /** Over any history of updates both send methods keep succeeding, for the same iteration orders, and
      their packets keep their length and every command name in its place. */
  lemma {:induction false} SendingStaysPossible(t: Tables, ps: seq<Param>, lib: Library, simInts: seq<string>,
                                                simIps: seq<string>, headFloats: seq<string>, headInts: seq<string>)
    requires NamesAreFour(t) && SimIpsValid(t, lib)
    requires Enumerates(simInts, t.simInts) && Enumerates(simIps, t.simIps)
    requires Enumerates(headFloats, t.headFloats) && Enumerates(headInts, t.headInts)
    ensures var u := UpdateAll(t, ps, lib);
            && NamesAreFour(u) && SimIpsValid(u, lib)
            && Enumerates(simInts, u.simInts) && Enumerates(simIps, u.simIps)
            && Enumerates(headFloats, u.headFloats) && Enumerates(headInts, u.headInts)
            && |u.simInts| + |u.simIps| == |t.simInts| + |t.simIps|
            && |u.headFloats| + |u.headInts| == |t.headFloats| + |t.headInts|
            && NamesOf(u.simInts, simInts) == NamesOf(t.simInts, simInts)
            && NamesOf(u.simIps, simIps) == NamesOf(t.simIps, simIps)
            && NamesOf(u.headFloats, headFloats) == NamesOf(t.headFloats, headFloats)
            && NamesOf(u.headInts, headInts) == NamesOf(t.headInts, headInts)
  {
    hide FourCharacters, UpdateAll, NamesOf;
    UpdatesKeep(t, ps, lib);
    var u := UpdateAll(t, ps, lib);
    SameRowsSendAlike(t.simInts, u.simInts, simInts);
    SameRowsSendAlike(t.simIps, u.simIps, simIps);
    SameRowsSendAlike(t.headFloats, u.headFloats, headFloats);
    SameRowsSendAlike(t.headInts, u.headInts, headInts);
  }
}
