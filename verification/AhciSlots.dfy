/**
  The command slots of a disk port: the search for a free slot, and the
  protocol between one caller of `runCommand` and a disk that completes
  commands at any time (kernel/devices/ahci.c).
*/
module AhciSlots {
  import AhciLayout
  import opened Options

  const SLOTS: nat := AhciLayout.SLOTS

  /** A 32-bit register, bit 0 first. */
  type Register = r: seq<bool> | |r| == 32 witness seq(32, i => false)

  /** Whether both registers have a zero for the slot; behind bit 31 zeros are shifted in. */
  predicate IsFree(sact: Register, ci: Register, slot: nat) { slot < SLOTS ==> !sact[slot] && !ci[slot] }

  function Or(a: Register, b: Register): (r: Register)
    ensures forall i :: 0 <= i < SLOTS ==> r[i] == (a[i] || b[i])
  {
    seq(32, i requires 0 <= i < 32 => a[i] || b[i])
  }

  /** A shift to the right by one bit. */
  function Shifted(r: Register): (s: Register)
    ensures forall i :: 0 <= i < SLOTS ==> s[i] == (i + 1 < SLOTS && r[i + 1])
  {
    r[1..] + [false]
  }

  /** The lowest slot that is free, or -1 if the first `cmdSlots` are all taken. */
  ghost predicate LowestFree(sact: Register, ci: Register, cmdSlots: nat, r: int) {
    && (r == -1 || (0 <= r < cmdSlots && IsFree(sact, ci, r)))
    && forall i :: 0 <= i < (if r == -1 then cmdSlots else r) ==> !IsFree(sact, ci, i)
  }

  /** One of the two registers has a one for the slot. */
  predicate TakenIn(sact: Register, ci: Register, slot: nat) { slot < 32 && (sact[slot] || ci[slot]) }

  method FindCmdSlot(sact: Register, ci: Register, cmdSlots: nat) returns (r: int)
    ensures LowestFree(sact, ci, cmdSlots, r)
    ensures -1 <= r < cmdSlots && (0 <= r < 32 ==> !sact[r] && !ci[r])
    ensures forall i :: 0 <= i < (if r == -1 then cmdSlots else r) ==> TakenIn(sact, ci, i)
  {
    var slots := Or(sact, ci);
    for i := 0 to cmdSlots
      invariant forall k :: 0 <= k < SLOTS ==> slots[k] == (k + i < SLOTS && (sact[k + i] || ci[k + i]))
      invariant forall k :: 0 <= k < i ==> !IsFree(sact, ci, k) && TakenIn(sact, ci, k)
    {
      if !slots[0] {
        return i;
      }
      slots := Shifted(slots);
    }
    return -1;
  }

  // ---------- the protocol ----------

  /** Where the caller is: it reads the two registers, in either order, picks a
      slot, issues the command and waits for it. What it has read is kept for the statements. */
  datatype Caller =
    | Reading(sact: Option<Register>, ci: Option<Register>)
    | Picked(slot: nat, readSact: Register, readCi: Register)
    | Waiting(slot: nat)

  const IDLE: Caller := Reading(None, None)

  datatype Port = Port(sact: Register, ci: Register, caller: Caller)

  /** Events: steps of the caller, and the disk clearing a bit that is set. */
  datatype Event =
    | SactRead
    | CiRead
    | Found(slot: nat)
    | NoSlot
    /** The port stayed busy for too long. */
    | Hung
    | Issued(slot: nat)
    /** The wait has ended: the bit was clear, or the disk has reported an error. */
    | Completed
    | Failed
    | SactCleared(slot: nat)
    | CiCleared(slot: nat)
    /** Something that concerns neither registers nor the caller's progress. */
    | Other

  predicate HasRead(c: Caller) { c.Reading? && c.sact.Some? && c.ci.Some? }

  ghost predicate Step(p: Port, e: Event, p': Port) {
    match e
    case SactRead => p.caller.Reading? && p.caller.sact.None? && p' == p.(caller := Reading(Some(p.sact), p.caller.ci))
    case CiRead => p.caller.Reading? && p.caller.ci.None? && p' == p.(caller := Reading(p.caller.sact, Some(p.ci)))
    case Found(slot) =>
      && HasRead(p.caller) && LowestFree(p.caller.sact.value, p.caller.ci.value, SLOTS, slot)
      && p' == p.(caller := Picked(slot, p.caller.sact.value, p.caller.ci.value))
    case NoSlot =>
      HasRead(p.caller) && LowestFree(p.caller.sact.value, p.caller.ci.value, SLOTS, -1) && p' == p.(caller := IDLE)
    case Hung => p.caller.Picked? && p' == p.(caller := IDLE)
    case Issued(slot) =>
      p.caller.Picked? && slot == p.caller.slot < SLOTS && p' == p.(ci := p.ci[slot := true], caller := Waiting(slot))
    case Completed => p.caller.Waiting? && p.caller.slot < SLOTS && !p.ci[p.caller.slot] && p' == p.(caller := IDLE)
    case Failed => p.caller.Waiting? && p' == p.(caller := IDLE)
    case SactCleared(slot) => slot < SLOTS && p.sact[slot] && p' == p.(sact := p.sact[slot := false])
    case CiCleared(slot) => slot < SLOTS && p.ci[slot] && p' == p.(ci := p.ci[slot := false])
    case Other => p' == p
  }

  /** A run: the ports before and after each event. */
  ghost predicate Run(ports: seq<Port>, events: seq<Event>) {
    && |ports| == |events| + 1
    && forall k {:trigger events[k]} :: 0 <= k < |events| ==> Step(ports[k], events[k], ports[k + 1])
  }

  /** Every bit that is set was already set when the caller read it. */
  predicate Below(now: Register, read: Register) { forall i :: 0 <= i < SLOTS && now[i] ==> read[i] }

  /** What the caller knows about the registers. */
  ghost predicate Inv(p: Port) {
    match p.caller
    case Reading(sact, ci) => (sact.Some? ==> Below(p.sact, sact.value)) && (ci.Some? ==> Below(p.ci, ci.value))
    case Picked(slot, sact, ci) =>
      slot < SLOTS && LowestFree(sact, ci, SLOTS, slot) && Below(p.sact, sact) && Below(p.ci, ci)
    case Waiting(slot) => slot < SLOTS
  }

  lemma StepKeepsInv(p: Port, e: Event, p': Port)
    requires Inv(p) && Step(p, e, p')
    ensures Inv(p')
  {
  }

  lemma {:induction false} RunKeepsInv(ports: seq<Port>, events: seq<Event>)
    requires Run(ports, events) && Inv(ports[0])
    ensures forall k :: 0 <= k < |ports| ==> Inv(ports[k])
    decreases |events|
  {
    if events != [] {
      var n := |events| - 1;
      var before, earlier := ports[..n + 1], events[..n];
      assert forall k :: 0 <= k < n ==> earlier[k] == events[k];
      RunKeepsInv(before, earlier);
      assert before[n] == ports[n] && Step(ports[n], events[n], ports[n + 1]);
      StepKeepsInv(ports[n], events[n], ports[n + 1]);
    }
  }

  /** Bits clear while the caller is between reading and issuing, never the other way. */
  lemma IssueIsToFreeSlot(ports: seq<Port>, events: seq<Event>, k: nat)
    requires Run(ports, events) && Inv(ports[0]) && k < |events| && events[k].Issued?
    ensures ports[k].caller.Picked?
    ensures var Picked(slot, sact, ci) := ports[k].caller;
            slot == events[k].slot && LowestFree(sact, ci, SLOTS, slot) && IsFree(ports[k].sact, ports[k].ci, slot)
  {
    RunKeepsInv(ports, events);
    assert Step(ports[k], events[k], ports[k + 1]) && Inv(ports[k]);
  }

  // ---------- commands in flight ----------

  function Bit(b: bool): nat { if b then 1 else 0 }

  function Count(events: seq<Event>, e: Event): nat {
    if events == [] then 0 else Count(events[..|events| - 1], e) + Bit(events[|events| - 1] == e)
  }

  lemma InFlightStep(p: Port, e: Event, p': Port, slot: nat)
    requires Inv(p) && Step(p, e, p') && slot < SLOTS
    ensures Bit(p.ci[slot]) + Bit(e == Issued(slot)) == Bit(p'.ci[slot]) + Bit(e == CiCleared(slot))
  {
  }

  /** Of the commands issued to a slot, all but the completed ones are in flight,
      and the slot's CI bit says whether there is one: never two. */
  lemma {:induction false} OneInFlight(ports: seq<Port>, events: seq<Event>, slot: nat)
    requires Run(ports, events) && Inv(ports[0]) && slot < SLOTS
    ensures Bit(ports[0].ci[slot]) + Count(events, Issued(slot))
            == Bit(ports[|events|].ci[slot]) + Count(events, CiCleared(slot))
    ensures !ports[0].ci[slot] ==>
              Count(events, CiCleared(slot)) <= Count(events, Issued(slot)) <= Count(events, CiCleared(slot)) + 1
    decreases |events|
  {
    if events != [] {
      var n := |events| - 1;
      RunKeepsInv(ports, events);
      assert forall k :: 0 <= k < n ==> events[..n][k] == events[k];
      OneInFlight(ports[..n + 1], events[..n], slot);
      assert Step(ports[n], events[n], ports[n + 1]);
      InFlightStep(ports[n], events[n], ports[n + 1], slot);
    }
  }

  // ---------- what the search has seen ----------

  predicate IsReading(e: Event) { e == SactRead || e == CiRead }

  /** Event `j` is the last reading of that register before the `k`-th port. */
  ghost predicate LastReading(events: seq<Event>, e: Event, k: nat, j: nat) {
    j < k <= |events| && events[j] == e && forall i :: j < i < k ==> events[i] != e
  }

  /** What the caller remembers of a reading, until it has picked a slot. */
  function Remembered(c: Caller, e: Event): Option<Register> {
    if !c.Reading? then None else if e == SactRead then c.sact else c.ci
  }

  function RegisterRead(p: Port, e: Event): Register { if e == SactRead then p.sact else p.ci }

  lemma {:induction false} RemembersLastReading(ports: seq<Port>, events: seq<Event>, e: Event, k: nat, j: nat)
    requires Run(ports, events) && IsReading(e) && LastReading(events, e, k, j)
    ensures Remembered(ports[k].caller, e).Some? ==> Remembered(ports[k].caller, e).value == RegisterRead(ports[j], e)
    decreases k
  {
    assert Step(ports[k - 1], events[k - 1], ports[k]);
    if k > j + 1 {
      RemembersLastReading(ports, events, e, k - 1, j);
    }
  }

  /** The slot found is the lowest one that was free when SACT and CI were read;
      without a slot, each of the 32 was taken in one of the two readings. */
  lemma SearchSawTheRegisters(ports: seq<Port>, events: seq<Event>, k: nat, s: nat, c: nat)
    requires Run(ports, events) && k < |events|
    requires LastReading(events, SactRead, k, s) && LastReading(events, CiRead, k, c)
    ensures events[k].Found? ==> LowestFree(ports[s].sact, ports[c].ci, SLOTS, events[k].slot)
    ensures events[k].NoSlot? ==> forall slot :: 0 <= slot < SLOTS ==> ports[s].sact[slot] || ports[c].ci[slot]
  {
    RemembersLastReading(ports, events, SactRead, k, s);
    RemembersLastReading(ports, events, CiRead, k, c);
    assert Step(ports[k], events[k], ports[k + 1]);
    forall slot | events[k].NoSlot? && 0 <= slot < SLOTS ensures ports[s].sact[slot] || ports[c].ci[slot] {
      assert !IsFree(ports[s].sact, ports[c].ci, slot);
    }
  }
}
