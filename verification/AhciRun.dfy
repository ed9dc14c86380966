/**
  `runCommand` of kernel/devices/ahci.c on a rebased port: it picks a slot,
  builds the command there and issues it, while the disk completes commands.
*/
module AhciRun {
  import opened AhciBuild
  import opened AhciCommand
  import opened AhciLayout
  import opened Bytes
  import Slots = AhciSlots

  /** Every header of the port names its own table. */
  ghost predicate Ready(m: seq<Byte>, port: nat) {
    END <= |m| && forall i {:trigger Header(port, i)} :: 0 <= i < SLOTS ==> HeaderReady(m, port, i)
  }

  ghost predicate HeaderReady(m: seq<Byte>, port: nat, i: nat) {
    && Header(port, i) + HEADER_SIZE <= |m| && NumberAt(m, Header(port, i) + 8, Dword()) == Table(port, i).Start()
    && NumberAt(m, Header(port, i) + 12, Dword()) == 0
  }

  lemma RebasedIsReady(m: seq<Byte>, port: nat)
    requires END <= |m| && forall i :: 0 <= i < SLOTS ==> SlotRebased(m, port, i)
    ensures Ready(m, port)
  {
    forall i | 0 <= i < SLOTS ensures HeaderReady(m, port, i) {
      assert SlotRebased(m, port, i);
    }
  }

  ghost predicate CommandIn(m: seq<Byte>, m': seq<Byte>, port: nat, slot: nat, r: Request) {
    && slot < SLOTS && r.Valid()
    && Built(m', Header(port, slot), Table(port, slot).Start(), r)
    && OnlyCommand(m, m', Header(port, slot), Table(port, slot).Start(), TableSize(r.count))
  }

  lemma AddressBytesSame(m: seq<Byte>, m': seq<Byte>, port: nat, slot: nat, size: nat, i: nat)
    requires port < PORTS && slot < SLOTS && i < SLOTS && Header(port, i) + HEADER_SIZE <= |m|
    requires OnlyCommand(m, m', Header(port, slot), Table(port, slot).Start(), size)
    ensures forall x {:trigger At(m', x)} :: Header(port, i) + 8 <= x < Header(port, i) + 16 ==> At(m', x) == At(m, x)
  {
    var a, h := Header(port, i) + 8, Header(port, slot);
    assert a + 8 <= Table(port, slot).Start() && (a + 8 <= h || h + 4 <= a);
  }

  lemma HeaderStaysReady(m: seq<Byte>, m': seq<Byte>, port: nat, slot: nat, size: nat, i: nat)
    requires port < PORTS && slot < SLOTS && i < SLOTS && HeaderReady(m, port, i)
    requires OnlyCommand(m, m', Header(port, slot), Table(port, slot).Start(), size)
    ensures HeaderReady(m', port, i)
  {
    AddressBytesSame(m, m', port, slot, size, i);
    NumberSame(m, m', Header(port, i) + 8, Dword());
    NumberSame(m, m', Header(port, i) + 12, Dword());
  }

  lemma CommandKeepsReady(m: seq<Byte>, m': seq<Byte>, port: nat, slot: nat, size: nat)
    requires port < PORTS && slot < SLOTS && Ready(m, port)
    requires OnlyCommand(m, m', Header(port, slot), Table(port, slot).Start(), size)
    ensures Ready(m', port)
  {
    forall i | 0 <= i < SLOTS ensures HeaderReady(m', port, i) {
      HeaderStaysReady(m, m', port, slot, size, i);
    }
  }

  // ---------- one command ----------

  /** The two registers, as the disk has them at some moment. */
  datatype Registers = Registers(sact: Slots.Register, ci: Slots.Register)

  /** The disk clears bits and sets none. */
  ghost predicate Fades(a: Registers, b: Registers) {
    Slots.Below(b.sact, a.sact) && Slots.Below(b.ci, a.ci)
  }

  /** What the disk does while the command is prepared: the registers when SACT
      is read, when CI is read, and at the issue, and whether the port stays
      busy. C leaves open which of the two registers is read first. */
  datatype Disk = Disk(sactFirst: bool, atSact: Registers, atCi: Registers, atIssue: Registers, hung: bool) {
    function First(): Registers { if sactFirst then atSact else atCi }

    function Second(): Registers { if sactFirst then atCi else atSact }

    ghost predicate Valid() { Fades(First(), Second()) && Fades(Second(), atIssue) }
  }

  datatype Outcome = NoSlot | Hung(slot: nat) | Issued(slot: nat, ci: Slots.Register)

  /** What a call of `runCommand` has done up to the wait for completion. */
  ghost predicate Ran(m: seq<Byte>, m': seq<Byte>, port: nat, r: Request, d: Disk, o: Outcome) {
    match o
    case NoSlot => Slots.LowestFree(d.atSact.sact, d.atCi.ci, SLOTS, -1) && m' == m
    case Hung(slot) =>
      d.hung && Slots.LowestFree(d.atSact.sact, d.atCi.ci, SLOTS, slot) && CommandIn(m, m', port, slot, r)
    case Issued(slot, ci) =>
      && !d.hung && Slots.LowestFree(d.atSact.sact, d.atCi.ci, SLOTS, slot) && CommandIn(m, m', port, slot, r)
      && Slots.IsFree(d.atIssue.sact, d.atIssue.ci, slot) && ci == d.atIssue.ci[slot := true]
  }

  /** The command, in the memory of its slot. */
  method BuildIn(mem: array<Byte>, port: nat, slot: nat, r: Request)
    requires port < PORTS && slot < SLOTS && r.Valid() && Ready(mem[..], port)
    requires Table(port, slot).Start() + TableSize(r.count) <= mem.Length
    modifies mem
    ensures Ready(mem[..], port) && CommandIn(old(mem[..]), mem[..], port, slot, r)
  {
    ghost var m := mem[..];
    assert HeaderReady(m, port, slot);
    BuildCommand(mem, CommandList(port).Start(), slot, r);
    CommandKeepsReady(m, mem[..], port, slot, TableSize(r.count));
  }

  /** The slot is free when the command is issued, since the disk only clears bits. */
  method RunCommand(mem: array<Byte>, port: nat, r: Request, d: Disk) returns (o: Outcome)
    requires port < PORTS && r.Valid() && d.Valid() && Ready(mem[..], port)
    requires forall slot :: 0 <= slot < SLOTS ==> Table(port, slot).Start() + TableSize(r.count) <= mem.Length
    modifies mem
    ensures Ready(mem[..], port) && Ran(old(mem[..]), mem[..], port, r, d, o)
  {
    var slot := Slots.FindCmdSlot(d.atSact.sact, d.atCi.ci, SLOTS);
    if slot == -1 {
      return NoSlot;
    }
    BuildIn(mem, port, slot, r);
    if d.hung {
      return Hung(slot);
    }
    return Issued(slot, d.atIssue.ci[slot := true]);
  }

  // ---------- commands in flight ----------

  /** The header and the table of a slot are the same, but for the byte count
      that the disk reports in the header. */
  ghost predicate SlotSame(m: seq<Byte>, m': seq<Byte>, port: nat, slot: nat) {
    && |m| == |m'|
    && (forall x {:trigger At(m', x)} ::
          Header(port, slot) <= x < Header(port, slot) + 4 && x < |m| ==> At(m', x) == At(m, x))
    && (forall x {:trigger At(m', x)} ::
          Header(port, slot) + 8 <= x < Header(port, slot + 1) && x < |m| ==> At(m', x) == At(m, x))
    && (forall x {:trigger At(m', x)} :: 0 <= x < |m| && Table(port, slot).Contains(x) ==> At(m', x) == At(m, x))
  }

  /** Two slots of a port have neither header nor table in common. */
  lemma SlotsApart(port: nat, slot: nat, other: nat)
    requires port < PORTS && slot < SLOTS && other < SLOTS && other != slot
    ensures Header(port, other + 1) <= Header(port, slot) || Header(port, slot + 1) <= Header(port, other)
    ensures Table(port, other).Start() + 256 <= Table(port, slot).Start()
            || Table(port, slot).Start() + 256 <= Table(port, other).Start()
    ensures Header(port, other + 1) <= Table(port, slot).Start() && Header(port, slot + 1) <= Table(port, other).Start()
  {
  }

  lemma OtherSlotSame(m: seq<Byte>, m': seq<Byte>, port: nat, slot: nat, size: nat, other: nat)
    requires port < PORTS && slot < SLOTS && other < SLOTS && other != slot && size <= 256
    requires OnlyCommand(m, m', Header(port, slot), Table(port, slot).Start(), size)
    ensures SlotSame(m, m', port, other)
  {
    SlotsApart(port, slot, other);
    OtherTableSame(m, m', Header(port, slot), Table(port, slot).Start(), size, Table(port, other));
  }

  lemma OtherTableSame(m: seq<Byte>, m': seq<Byte>, h: nat, t: nat, size: nat, other: Area)
    requires OnlyCommand(m, m', h, t, size) && size <= 256 && other.Table? && h + 4 <= other.Start()
    requires other.Start() + 256 <= t || t + 256 <= other.Start()
    ensures forall x {:trigger At(m', x)} :: 0 <= x < |m| && other.Contains(x) ==> At(m', x) == At(m, x)
  {
  }

  /** Commands in flight keep what the disk reads for them: a new command
      touches neither the header nor the table of a slot that was taken. */
  lemma TakenSlotsKept(m: seq<Byte>, m': seq<Byte>, port: nat, slot: nat, r: Request,
                       sact: Slots.Register, ci: Slots.Register, other: nat)
    requires port < PORTS && CommandIn(m, m', port, slot, r) && TableSize(r.count) <= 256
    requires Slots.LowestFree(sact, ci, SLOTS, slot) && other < SLOTS && (sact[other] || ci[other])
    ensures SlotSame(m, m', port, other)
  {
    assert Slots.IsFree(sact, ci, slot) && !Slots.IsFree(sact, ci, other);
    OtherSlotSame(m, m', port, slot, TableSize(r.count), other);
  }
}
