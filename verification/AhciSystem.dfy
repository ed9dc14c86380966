/**
  Whole runs of one disk port: one caller of `runCommand`, a disk that
  completes commands at any time, and the memory that both work on
  (kernel/devices/ahci.c).
*/
module AhciSystem {
  import opened AhciBuild
  import opened AhciCommand
  import opened AhciLayout
  import opened AhciRun
  import opened AhciTable
  import opened Bytes
  import opened Options
  import Slots = AhciSlots

  /** Memory, the port with its caller, the command that has been built but not
      issued, and the last command issued to each slot. */
  datatype Sys = Sys(m: seq<Byte>, port: Slots.Port, built: Option<Request>, sent: map<nat, Request>)

  datatype Action =
    | Protocol(e: Slots.Event)
    | Build(r: Request)
    /** Anyone writes anywhere but to headers and tables; the disk reports byte counts in headers. */
    | Elsewhere

  function EventOf(a: Action): Slots.Event { if a.Protocol? then a.e else Slots.Other }

  ghost predicate Step(port: nat, s: Sys, a: Action, s': Sys) {
    match a
    case Protocol(e) =>
      && Slots.Step(s.port, e, s'.port) && s'.m == s.m
      && (match e
          case Issued(slot) => s.built.Some? && s'.sent == s.sent[slot := s.built.value] && s'.built == None
          case Hung => s'.sent == s.sent && s'.built == None
          case _ => s'.sent == s.sent && s'.built == s.built)
    case Build(r) =>
      && s.port.caller.Picked? && r.Valid() && TableSize(r.count) <= 256
      && CommandIn(s.m, s'.m, port, s.port.caller.slot, r) && s' == s.(m := s'.m, built := Some(r))
    case Elsewhere =>
      && s' == s.(m := s'.m) && |s'.m| == |s.m|
      && forall i {:trigger SlotSame(s.m, s'.m, port, i)} :: 0 <= i < SLOTS ==> SlotSame(s.m, s'.m, port, i)
  }

  ghost predicate Run(port: nat, states: seq<Sys>, acts: seq<Action>) {
    && |states| == |acts| + 1
    && forall k {:trigger acts[k]} :: 0 <= k < |acts| ==> Step(port, states[k], acts[k], states[k + 1])
  }

  // ---------- what every step keeps ----------

  ghost predicate BuiltIn(m: seq<Byte>, port: nat, slot: nat, r: Request) {
    r.Valid() && TableSize(r.count) <= 256 && Built(m, Header(port, slot), Table(port, slot).Start(), r)
  }

  /** The command in slot `slot`, if it is in flight, is the one issued there. */
  ghost predicate FlightIntact(port: nat, s: Sys, slot: nat) {
    slot < SLOTS && slot in s.sent && s.port.ci[slot] ==> BuiltIn(s.m, port, slot, s.sent[slot])
  }

  ghost predicate Inv(port: nat, s: Sys) {
    && port < PORTS && END <= |s.m| && Slots.Inv(s.port)
    && (s.built.Some? ==> s.port.caller.Picked? && BuiltIn(s.m, port, s.port.caller.slot, s.built.value))
    && forall slot {:trigger FlightIntact(port, s, slot)} :: 0 <= slot < SLOTS ==> FlightIntact(port, s, slot)
  }

  /** Whatever was in the port before, the run starts with no command of its own. */
  lemma InvStarts(port: nat, s: Sys)
    requires port < PORTS && END <= |s.m| && s.port.caller == Slots.IDLE && s.built == None && s.sent == map[]
    ensures Inv(port, s)
  {
  }

  lemma DescriptorsSame(m: seq<Byte>, m': seq<Byte>, port: nat, slot: nat, r: Request, j: nat)
    requires SlotSame(m, m', port, slot) && END <= |m| && port < PORTS && slot < SLOTS
    requires r.Valid() && TableSize(r.count) <= 256 && j < TableLength(r.count)
    ensures PrdAddress(Table(port, slot).Start(), j) + PRD_SIZE <= |m|
    ensures PrdAt(m', PrdAddress(Table(port, slot).Start(), j)) == PrdAt(m, PrdAddress(Table(port, slot).Start(), j))
  {
    var a := PrdAddress(Table(port, slot).Start(), j);
    assert a + PRD_SIZE <= Table(port, slot).Start() + 256;
    PrdKept(m, m', a);
  }

  lemma FisSame(m: seq<Byte>, m': seq<Byte>, t: nat, command: Byte, sector: nat, count: nat)
    requires FisAt(m, t, command, sector, count) && |m'| == |m|
    requires forall x {:trigger At(m', x)} :: t <= x < t + 20 ==> At(m', x) == At(m, x)
    ensures FisAt(m', t, command, sector, count)
  {
    NumberSame(m, m', t + 4, 3);
    NumberSame(m, m', t + 8, 3);
    NumberSame(m, m', t + 12, Word());
  }

  lemma HeaderSame(m: seq<Byte>, m': seq<Byte>, h: nat, r: Request)
    requires r.Valid() && HeaderAt(m, h, r) && |m'| == |m|
    requires forall x {:trigger At(m', x)} :: h <= x < h + 4 ==> At(m', x) == At(m, x)
    requires forall x {:trigger At(m', x)} :: h + 8 <= x < h + 16 ==> At(m', x) == At(m, x)
    ensures HeaderAt(m', h, r) && NumberAt(m', h + 8, Dword()) == NumberAt(m, h + 8, Dword())
    ensures TableAddress(m', h) == TableAddress(m, h)
  {
    NumberSame(m, m', h + 2, Word());
    NumberSame(m, m', h + 8, Dword());
    NumberSame(m, m', h + 12, Dword());
    assert At(m', h) == At(m, h);
  }

  /** A command stays built while its slot's memory stays the same. */
  lemma BuiltStays(m: seq<Byte>, m': seq<Byte>, port: nat, slot: nat, r: Request)
    requires port < PORTS && slot < SLOTS && END <= |m| && BuiltIn(m, port, slot, r) && SlotSame(m, m', port, slot)
    ensures BuiltIn(m', port, slot, r)
  {
    var h, t := Header(port, slot), Table(port, slot).Start();
    HeaderSame(m, m', h, r);
    FisSame(m, m', t, r.command, r.Sector(), Remaining(r.count) % U16);
    forall j | 0 <= j < TableLength(r.count) ensures PrdAt(m', PrdAddress(t, j)) == Descriptor(r.buf, r.count, j) {
      DescriptorsSame(m, m', port, slot, r, j);
    }
  }

  /** The slot that a caller has picked is free until it issues the command. */
  lemma PickedIsFree(p: Slots.Port)
    requires Slots.Inv(p) && p.caller.Picked?
    ensures p.caller.slot < SLOTS && Slots.IsFree(p.sact, p.ci, p.caller.slot)
  {
    assert Slots.IsFree(p.caller.readSact, p.caller.readCi, p.caller.slot);
  }

  lemma BuildKeeps(port: nat, s: Sys, r: Request, s': Sys, slot: nat)
    requires Inv(port, s) && Step(port, s, Build(r), s') && slot < SLOTS
    ensures FlightIntact(port, s', slot)
  {
    PickedIsFree(s.port);
    if slot in s.sent && s.port.ci[slot] {
      assert FlightIntact(port, s, slot);
      OtherSlotSame(s.m, s'.m, port, s.port.caller.slot, TableSize(r.count), slot);
      BuiltStays(s.m, s'.m, port, slot, s.sent[slot]);
    }
  }

  lemma ProtocolKeeps(port: nat, s: Sys, e: Slots.Event, s': Sys, slot: nat)
    requires Inv(port, s) && Step(port, s, Protocol(e), s') && slot < SLOTS
    ensures FlightIntact(port, s', slot)
  {
    assert FlightIntact(port, s, slot);
  }

  lemma ElsewhereKeeps(port: nat, s: Sys, s': Sys, slot: nat)
    requires Inv(port, s) && Step(port, s, Elsewhere, s') && slot < SLOTS
    ensures FlightIntact(port, s', slot)
  {
    assert FlightIntact(port, s, slot) && SlotSame(s.m, s'.m, port, slot);
    if slot in s.sent && s.port.ci[slot] {
      BuiltStays(s.m, s'.m, port, slot, s.sent[slot]);
    }
  }

  lemma BuiltKeeps(port: nat, s: Sys, a: Action, s': Sys)
    requires Inv(port, s) && Step(port, s, a, s') && s'.built.Some?
    ensures s'.port.caller.Picked? && BuiltIn(s'.m, port, s'.port.caller.slot, s'.built.value)
  {
    if a.Elsewhere? {
      assert s.port.caller.slot < SLOTS && SlotSame(s.m, s'.m, port, s.port.caller.slot);
      BuiltStays(s.m, s'.m, port, s.port.caller.slot, s.built.value);
    }
  }

  lemma StepKeepsInv(port: nat, s: Sys, a: Action, s': Sys)
    requires Inv(port, s) && Step(port, s, a, s')
    ensures Inv(port, s')
  {
    assert Slots.Step(s.port, EventOf(a), s'.port);
    Slots.StepKeepsInv(s.port, EventOf(a), s'.port);
    if s'.built.Some? { BuiltKeeps(port, s, a, s'); }
    forall slot | 0 <= slot < SLOTS ensures FlightIntact(port, s', slot) {
      match a
      case Protocol(e) => ProtocolKeeps(port, s, e, s', slot);
      case Build(r) => BuildKeeps(port, s, r, s', slot);
      case Elsewhere => ElsewhereKeeps(port, s, s', slot);
    }
  }

  lemma {:induction false} RunKeepsInv(port: nat, states: seq<Sys>, acts: seq<Action>, k: nat)
    requires Run(port, states, acts) && Inv(port, states[0]) && k < |states|
    ensures Inv(port, states[k])
  {
    if k > 0 {
      RunKeepsInv(port, states, acts, k - 1);
      assert Step(port, states[k - 1], acts[k - 1], states[k]);
      StepKeepsInv(port, states[k - 1], acts[k - 1], states[k]);
    }
  }

  /** Over every run of commands of at most 128 sectors: whatever the disk has
      not completed yet is still in memory as it was built. */
  lemma CommandsInFlightIntact(port: nat, states: seq<Sys>, acts: seq<Action>, k: nat, slot: nat)
    requires Run(port, states, acts) && Inv(port, states[0]) && k < |states| && slot < SLOTS
    requires slot in states[k].sent && states[k].port.ci[slot]
    ensures BuiltIn(states[k].m, port, slot, states[k].sent[slot])
  {
    RunKeepsInv(port, states, acts, k);
    assert FlightIntact(port, states[k], slot);
  }

  // ---------- the protocol within ----------

  function Ports(states: seq<Sys>): seq<Slots.Port> { seq(|states|, k requires 0 <= k < |states| => states[k].port) }

  function Events(acts: seq<Action>): seq<Slots.Event> { seq(|acts|, k requires 0 <= k < |acts| => EventOf(acts[k])) }

  /** A run of the system is a run of the protocol, so the protocol's theorems hold of it. */
  lemma RunProjects(port: nat, states: seq<Sys>, acts: seq<Action>)
    requires Run(port, states, acts)
    ensures Slots.Run(Ports(states), Events(acts))
  {
    forall k | 0 <= k < |Events(acts)| ensures Slots.Step(Ports(states)[k], Events(acts)[k], Ports(states)[k + 1]) {
      assert Step(port, states[k], acts[k], states[k + 1]);
    }
  }

  /** Each slot has at most one command in flight, and gets one only while it is free. */
  lemma OneCommandPerSlot(port: nat, states: seq<Sys>, acts: seq<Action>, slot: nat)
    requires Run(port, states, acts) && Inv(port, states[0]) && slot < SLOTS
    ensures Slots.Bit(states[0].port.ci[slot]) + Slots.Count(Events(acts), Slots.Issued(slot))
            == Slots.Bit(states[|acts|].port.ci[slot]) + Slots.Count(Events(acts), Slots.CiCleared(slot))
    ensures forall k :: 0 <= k < |acts| && acts[k] == Protocol(Slots.Issued(slot))
              ==> Slots.IsFree(states[k].port.sact, states[k].port.ci, slot)
  {
    RunProjects(port, states, acts);
    Slots.OneInFlight(Ports(states), Events(acts), slot);
    forall k | 0 <= k < |acts| && acts[k] == Protocol(Slots.Issued(slot))
      ensures Slots.IsFree(states[k].port.sact, states[k].port.ci, slot)
    {
      assert Events(acts)[k] == Slots.Issued(slot);
      Slots.IssueIsToFreeSlot(Ports(states), Events(acts), k);
    }
  }

  // ---------- runCommand makes these steps ----------

  lemma Extend(port: nat, states: seq<Sys>, acts: seq<Action>, a: Action, s: Sys)
    requires Run(port, states, acts) && Step(port, states[|acts|], a, s)
    ensures Run(port, states + [s], acts + [a])
  {
    var longer, all := states + [s], acts + [a];
    forall k | 0 <= k < |all| ensures Step(port, longer[k], all[k], longer[k + 1]) {
      if k < |acts| { assert all[k] == acts[k] && Step(port, states[k], acts[k], states[k + 1]); }
    }
  }

  function SactAs(s: Sys, r: Slots.Register): Sys { s.(port := s.port.(sact := r)) }

  function CiAs(s: Sys, r: Slots.Register): Sys { s.(port := s.port.(ci := r)) }

  /** The disk clears the bits of SACT from slot `i` on, one by one. */
  lemma {:induction false} ClearSact(port: nat, states: seq<Sys>, acts: seq<Action>, target: Slots.Register, i: nat)
    returns (states': seq<Sys>, acts': seq<Action>)
    requires Run(port, states, acts) && i <= SLOTS && Slots.Below(target, states[|acts|].port.sact)
    requires forall k :: 0 <= k < i ==> states[|acts|].port.sact[k] == target[k]
    ensures Run(port, states', acts') && states'[0] == states[0] && states'[|acts'|] == SactAs(states[|acts|], target)
    decreases SLOTS - i
  {
    var s := states[|acts|];
    if i == SLOTS {
      assert s.port.sact == target;
      states', acts' := states, acts;
    } else if s.port.sact[i] == target[i] {
      states', acts' := ClearSact(port, states, acts, target, i + 1);
    } else {
      var next, a := SactAs(s, s.port.sact[i := false]), Protocol(Slots.SactCleared(i));
      Extend(port, states, acts, a, next);
      states', acts' := ClearSact(port, states + [next], acts + [a], target, i + 1);
    }
  }

  lemma {:induction false} ClearCi(port: nat, states: seq<Sys>, acts: seq<Action>, target: Slots.Register, i: nat)
    returns (states': seq<Sys>, acts': seq<Action>)
    requires Run(port, states, acts) && i <= SLOTS && Slots.Below(target, states[|acts|].port.ci)
    requires forall k :: 0 <= k < i ==> states[|acts|].port.ci[k] == target[k]
    ensures Run(port, states', acts') && states'[0] == states[0] && states'[|acts'|] == CiAs(states[|acts|], target)
    decreases SLOTS - i
  {
    var s := states[|acts|];
    if i == SLOTS {
      assert s.port.ci == target;
      states', acts' := states, acts;
    } else if s.port.ci[i] == target[i] {
      states', acts' := ClearCi(port, states, acts, target, i + 1);
    } else {
      var next, a := CiAs(s, s.port.ci[i := false]), Protocol(Slots.CiCleared(i));
      Extend(port, states, acts, a, next);
      states', acts' := ClearCi(port, states + [next], acts + [a], target, i + 1);
    }
  }

  function RegistersOf(s: Sys): Registers { Registers(s.port.sact, s.port.ci) }

  function WithRegisters(s: Sys, r: Registers): Sys { s.(port := s.port.(sact := r.sact, ci := r.ci)) }

  lemma ClearTo(port: nat, states: seq<Sys>, acts: seq<Action>, target: Registers)
    returns (states': seq<Sys>, acts': seq<Action>)
    requires Run(port, states, acts) && Fades(RegistersOf(states[|acts|]), target)
    ensures Run(port, states', acts') && states'[0] == states[0]
    ensures states'[|acts'|] == WithRegisters(states[|acts|], target)
  {
    states', acts' := ClearSact(port, states, acts, target.sact, 0);
    states', acts' := ClearCi(port, states', acts', target.ci, 0);
  }

  lemma Act(port: nat, states: seq<Sys>, acts: seq<Action>, a: Action, s: Sys)
    returns (states': seq<Sys>, acts': seq<Action>)
    requires Run(port, states, acts) && Step(port, states[|acts|], a, s)
    ensures Run(port, states', acts') && states'[0] == states[0] && states'[|acts'|] == s
  {
    Extend(port, states, acts, a, s);
    states', acts' := states + [s], acts + [a];
  }

  /** The two readings, with the disk at work before and between. */
  lemma ReadBoth(port: nat, s: Sys, d: Disk) returns (states: seq<Sys>, acts: seq<Action>)
    requires s.port.caller == Slots.IDLE && d.Valid() && Fades(RegistersOf(s), d.First())
    ensures Run(port, states, acts) && states[0] == s
    ensures states[|acts|] == s.(port := Slots.Port(d.Second().sact, d.Second().ci, HaveRead(d)))
  {
    var sact, ci := Some(d.atSact.sact), Some(d.atCi.ci);
    states, acts := ClearTo(port, [s], [], d.First());
    var s1 := states[|acts|];
    var once := if d.sactFirst then Slots.Reading(sact, None) else Slots.Reading(None, ci);
    states, acts := Act(port, states, acts, Protocol(if d.sactFirst then Slots.SactRead else Slots.CiRead),
                        s1.(port := s1.port.(caller := once)));
    states, acts := ClearTo(port, states, acts, d.Second());
    var s2 := states[|acts|];
    states, acts := Act(port, states, acts, Protocol(if d.sactFirst then Slots.CiRead else Slots.SactRead),
                        s2.(port := s2.port.(caller := HaveRead(d))));
  }

  function HaveRead(d: Disk): Slots.Caller { Slots.Reading(Some(d.atSact.sact), Some(d.atCi.ci)) }

  /** Picking the slot, building the command there, and what the disk does until the issue. */
  lemma PickAndBuild(port: nat, states: seq<Sys>, acts: seq<Action>, m': seq<Byte>, r: Request, d: Disk, slot: nat)
    returns (states': seq<Sys>, acts': seq<Action>)
    requires Run(port, states, acts) && d.Valid() && r.Valid() && TableSize(r.count) <= 256
    requires states[|acts|].port == Slots.Port(d.Second().sact, d.Second().ci, HaveRead(d))
    requires Slots.LowestFree(d.atSact.sact, d.atCi.ci, SLOTS, slot) && CommandIn(states[|acts|].m, m', port, slot, r)
    ensures Run(port, states', acts') && states'[0] == states[0]
    ensures states'[|acts'|]
            == Sys(m', Slots.Port(d.atIssue.sact, d.atIssue.ci, Slots.Picked(slot, d.atSact.sact, d.atCi.ci)),
                   Some(r), states[|acts|].sent)
  {
    var s := states[|acts|];
    var picked := s.(port := s.port.(caller := Slots.Picked(slot, d.atSact.sact, d.atCi.ci)));
    states', acts' := Act(port, states, acts, Protocol(Slots.Found(slot)), picked);
    states', acts' := Act(port, states', acts', Build(r), picked.(m := m', built := Some(r)));
    states', acts' := ClearTo(port, states', acts', d.atIssue);
  }

  /** Where a call leaves the system: waiting, or idle again. */
  function After(s: Sys, m': seq<Byte>, r: Request, d: Disk, o: Outcome): Sys {
    match o
    case NoSlot => Sys(m', Slots.Port(d.Second().sact, d.Second().ci, Slots.IDLE), s.built, s.sent)
    case Hung(_) => Sys(m', Slots.Port(d.atIssue.sact, d.atIssue.ci, Slots.IDLE), None, s.sent)
    case Issued(slot, ci) => Sys(m', Slots.Port(d.atIssue.sact, ci, Slots.Waiting(slot)), None, s.sent[slot := r])
  }

  /** What `runCommand` does is a run of the system: the readings, the search,
      the command, the issue, and the disk at work in between. */
  lemma CommandIsRun(port: nat, s: Sys, m': seq<Byte>, r: Request, d: Disk, o: Outcome)
    returns (states: seq<Sys>, acts: seq<Action>)
    requires s.port.caller == Slots.IDLE && d.Valid() && Fades(RegistersOf(s), d.First())
    requires r.Valid() && TableSize(r.count) <= 256 && Ran(s.m, m', port, r, d, o)
    ensures Run(port, states, acts) && states[0] == s && states[|acts|] == After(s, m', r, d, o)
  {
    states, acts := ReadBoth(port, s, d);
    match o
    case NoSlot =>
      var read := states[|acts|];
      states, acts := Act(port, states, acts, Protocol(Slots.NoSlot), read.(port := read.port.(caller := Slots.IDLE)));
    case Hung(slot) =>
      states, acts := PickAndBuild(port, states, acts, m', r, d, slot);
      var built := states[|acts|];
      states, acts := Act(port, states, acts, Protocol(Slots.Hung),
                          built.(port := built.port.(caller := Slots.IDLE), built := None));
    case Issued(slot, ci) =>
      states, acts := PickAndBuild(port, states, acts, m', r, d, slot);
      states, acts := Act(port, states, acts, Protocol(Slots.Issued(slot)), After(s, m', r, d, o));
  }
}
