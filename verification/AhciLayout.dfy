/**
  Where the disk driver puts its structures: `portRebase` of
  kernel/devices/ahci.c.
*/
module AhciLayout {
  import opened Arithmetic
  import opened Bytes
  import opened CString

  const BASE: nat := 0x40_0000
  const PORTS: nat := 32
  const SLOTS: nat := 32
  const KIB: nat := 1024
  const HEADER_SIZE: nat := 32
  const END: nat := BASE + 296 * KIB

  /** A port's command list, the area where it receives FISes, and the command table of one slot. */
  datatype Area = CommandList(port: nat) | Received(port: nat) | Table(port: nat, slot: nat) {
    predicate Valid() { port < PORTS && (Table? ==> slot < SLOTS) }

    function Start(): nat {
      match this
      case CommandList(p) => BASE + KIB * p
      case Received(p) => BASE + 32 * KIB + 256 * p
      case Table(p, i) => BASE + 40 * KIB + 8 * KIB * p + 256 * i
    }

    function Size(): nat { if CommandList? then KIB else 256 }

    predicate Contains(x: nat) { Start() <= x < Start() + Size() }
  }

  /** The only area that can contain `x`. */
  function AreaOf(x: nat): Area
    requires BASE <= x < END
  {
    var o := x - BASE;
    if o < 32 * KIB then CommandList(o / KIB)
    else if o < 40 * KIB then Received((o - 32 * KIB) / 256)
    else Table((o - 40 * KIB) / (8 * KIB), (o - 40 * KIB) % (8 * KIB) / 256)
  }

  /** Areas of one kind, `size` bytes each, side by side from `start`. */
  lemma SideBySide(x: nat, start: nat, size: nat, i: nat)
    requires x >= start && size >= 1
    ensures start + size * i <= x < start + size * i + size <==> (x - start) / size == i
  {
    var o := x - start;
    Euclid(o, size);
    if start + size * i <= x < start + size * i + size {
      QuotientUnique(o, size, i, o - size * i);
    }
  }

  lemma ListPartition(p: nat, x: nat)
    requires p < PORTS
    ensures CommandList(p).Contains(x) <==> BASE <= x < END && CommandList(p) == AreaOf(x)
  {
    if x >= BASE { SideBySide(x, BASE, KIB, p); }
  }

  lemma ReceivedPartition(p: nat, x: nat)
    requires p < PORTS
    ensures Received(p).Contains(x) <==> BASE <= x < END && Received(p) == AreaOf(x)
  {
    if x >= BASE + 32 * KIB { SideBySide(x, BASE + 32 * KIB, 256, p); }
  }

  lemma TablePartition(p: nat, i: nat, x: nat)
    requires p < PORTS && i < SLOTS
    ensures Table(p, i).Contains(x) <==> BASE <= x < END && Table(p, i) == AreaOf(x)
  {
    var start := BASE + 40 * KIB;
    if x >= start {
      var o := x - start;
      SideBySide(x, start, 256, 32 * p + i);
      Euclid(o / 256, 32);
      QuotientOfTable(o);
      if o / 256 == 32 * p + i { QuotientUnique(o / 256, 32, p, i); }
    }
  }

  /** The table that an offset lies in, counted through all ports. */
  lemma QuotientOfTable(o: nat)
    ensures o / (8 * KIB) == o / 256 / 32 && o % (8 * KIB) / 256 == o / 256 % 32
  {
    DigitsOfRemainder(o, 256, 32);
    SplitDigit(o, 256, 32);
  }

  /** The areas of all ports lie side by side: each address is in exactly one. */
  lemma AreasPartition(a: Area, x: nat)
    requires a.Valid()
    ensures a.Contains(x) <==> 0x40_0000 <= x < 0x44_A000 && a == AreaOf(x)
  {
    match a
    case CommandList(p) => ListPartition(p, x);
    case Received(p) => ReceivedPartition(p, x);
    case Table(p, i) => TablePartition(p, i, x);
  }

  /** The hardware's alignment: 1024 bytes for lists, 256 for received FISes, 128 for tables. */
  lemma AreasAligned(a: Area)
    ensures a.Start() % a.Size() == 0 && a.Size() % 128 == 0
  {
  }

  function Header(port: nat, slot: nat): nat { CommandList(port).Start() + HEADER_SIZE * slot }

  /** The areas of one port. */
  predicate InPort(port: nat, x: nat) {
    || CommandList(port).Contains(x) || Received(port).Contains(x)
    || Table(port, 0).Start() <= x < Table(port, SLOTS).Start()
  }

  lemma InPortIff(port: nat, a: Area, x: nat)
    requires port < PORTS && a.Valid() && a.Contains(x)
    ensures InPort(port, x) <==> a.port == port
  {
    AreasPartition(a, x);
    AreasPartition(CommandList(port), x);
    AreasPartition(Received(port), x);
    var tables := Table(port, 0).Start();
    if tables <= x < Table(port, SLOTS).Start() {
      var i := (x - tables) / 256;
      SideBySide(x, tables, 256, i);
      AreasPartition(Table(port, i), x);
    }
  }

  // ---------- what rebasing leaves ----------

  /** A header names its table and is otherwise zero. */
  ghost predicate HeaderRebased(m: seq<Byte>, port: nat, slot: nat) {
    var h := Header(port, slot);
    && h + HEADER_SIZE <= |m|
    && NumberAt(m, h + 2, Word()) == 8
    && NumberAt(m, h + 8, Dword()) == Table(port, slot).Start() && NumberAt(m, h + 12, Dword()) == 0
    && ZeroAt(m, h, 2) && ZeroAt(m, h + 4, 4) && ZeroAt(m, h + 16, 16)
  }

  ghost predicate SlotRebased(m: seq<Byte>, port: nat, slot: nat) {
    HeaderRebased(m, port, slot) && ZeroAt(m, Table(port, slot).Start(), 256)
  }

  /** The first `n` slots are set up, the headers of the others are still zero. */
  ghost predicate Progress(m0: seq<Byte>, m: seq<Byte>, port: nat, n: nat) {
    && n <= SLOTS
    && (forall i {:trigger SlotRebased(m, port, i)} :: 0 <= i < n ==> SlotRebased(m, port, i))
    && ZeroAt(m, Header(port, n), HEADER_SIZE * (SLOTS - n))
    && ZeroAt(m, Received(port).Start(), 256)
    && OnlyPort(m0, m, port)
  }

  ghost predicate OnlyPort(m: seq<Byte>, m': seq<Byte>, port: nat) {
    |m| == |m'| && forall x {:trigger At(m', x)} :: 0 <= x < |m| && !InPort(port, x) ==> At(m', x) == At(m, x)
  }

  /** Setting up a port leaves every area of the other ports alone. */
  lemma OtherPortsKept(m: seq<Byte>, m': seq<Byte>, port: nat, a: Area, x: nat)
    requires port < PORTS && OnlyPort(m, m', port) && a.Valid() && a.port != port && a.Contains(x) && x < |m|
    ensures At(m', x) == At(m, x)
  {
    InPortIff(port, a, x);
  }

  lemma RebasedSlotKept(m: seq<Byte>, m': seq<Byte>, port: nat, i: nat)
    requires SlotRebased(m, port, i) && |m'| == |m|
    requires forall x {:trigger At(m', x)} ::
               Header(port, i) <= x < Header(port, i) + HEADER_SIZE && x < |m| ==> At(m', x) == At(m, x)
    requires forall x {:trigger At(m', x)} :: 0 <= x < |m| && Table(port, i).Contains(x) ==> At(m', x) == At(m, x)
    ensures SlotRebased(m', port, i)
  {
    var h := Header(port, i);
    NumberSame(m, m', h + 2, Word());
    NumberSame(m, m', h + 8, Dword());
    NumberSame(m, m', h + 12, Dword());
  }

  ghost predicate OnlySlot(m: seq<Byte>, m': seq<Byte>, port: nat, i: nat) {
    |m| == |m'|
    && forall x {:trigger At(m', x)} ::
         0 <= x < |m| && !(Header(port, i) <= x < Header(port, i) + HEADER_SIZE) && !Table(port, i).Contains(x)
         ==> At(m', x) == At(m, x)
  }

  lemma RebaseStep(m0: seq<Byte>, m: seq<Byte>, m': seq<Byte>, port: nat, i: nat)
    requires i < SLOTS && port < PORTS && Progress(m0, m, port, i) && OnlySlot(m, m', port, i)
    requires SlotRebased(m', port, i)
    ensures Progress(m0, m', port, i + 1)
  {
    forall j | 0 <= j < i + 1 ensures SlotRebased(m', port, j) {
      if j < i {
        assert SlotRebased(m, port, j);
        EarlierSlotKept(m, m', port, i, j);
      }
    }
    OtherBytesKept(m0, m, m', port, i);
  }

  lemma EarlierSlotKept(m: seq<Byte>, m': seq<Byte>, port: nat, i: nat, j: nat)
    requires j < i < SLOTS && port < PORTS && OnlySlot(m, m', port, i) && SlotRebased(m, port, j)
    ensures SlotRebased(m', port, j)
  {
    RebasedSlotKept(m, m', port, j);
  }

  /** The later headers and the received FISes are still zero, and other ports are not touched. */
  lemma OtherBytesKept(m0: seq<Byte>, m: seq<Byte>, m': seq<Byte>, port: nat, i: nat)
    requires i < SLOTS && port < PORTS && OnlySlot(m, m', port, i) && OnlyPort(m0, m, port)
    requires ZeroAt(m, Header(port, i), HEADER_SIZE * (SLOTS - i)) && ZeroAt(m, Received(port).Start(), 256)
    ensures ZeroAt(m', Header(port, i + 1), HEADER_SIZE * (SLOTS - (i + 1)))
    ensures ZeroAt(m', Received(port).Start(), 256) && OnlyPort(m0, m', port)
  {
  }

  method Clear(mem: array<Byte>, a: nat, n: nat)
    requires a + n <= mem.Length
    modifies mem
    ensures OnlyAt(old(mem[..]), mem[..], a, n) && ZeroAt(mem[..], a, n)
  {
    Memset(mem, a, 0, n);
  }

  /** The three fields that `portRebase` writes into a zero header. */
  method RebaseHeader(mem: array<Byte>, port: nat, i: nat)
    requires port < PORTS && i < SLOTS && END <= mem.Length && ZeroAt(mem[..], Header(port, i), HEADER_SIZE)
    modifies mem
    ensures HeaderRebased(mem[..], port, i) && OnlyAt(old(mem[..]), mem[..], Header(port, i), HEADER_SIZE)
  {
    var h := Header(port, i);
    ghost var m := mem[..];
    FitsWord(8);
    FitsDword(Table(port, i).Start());
    FitsDword(0);
    StoreNumber(mem, h + 2, Word(), 8);
    ghost var m1 := mem[..];
    StoreNumber(mem, h + 8, Dword(), Table(port, i).Start());
    ghost var m2 := mem[..];
    StoreNumber(mem, h + 12, Dword(), 0);
    HeaderWritten(m, m1, m2, mem[..], port, i);
  }

  lemma HeaderWritten(m: seq<Byte>, m1: seq<Byte>, m2: seq<Byte>, m3: seq<Byte>, port: nat, i: nat)
    requires var h := Header(port, i);
      && h + HEADER_SIZE <= |m| && ZeroAt(m, h, HEADER_SIZE)
      && OnlyAt(m, m1, h + 2, Word()) && NumberAt(m1, h + 2, Word()) == 8
      && OnlyAt(m1, m2, h + 8, Dword()) && NumberAt(m2, h + 8, Dword()) == Table(port, i).Start()
      && OnlyAt(m2, m3, h + 12, Dword()) && NumberAt(m3, h + 12, Dword()) == 0
    ensures HeaderRebased(m3, port, i) && OnlyAt(m, m3, Header(port, i), HEADER_SIZE)
  {
    var h := Header(port, i);
    NumberSame(m1, m3, h + 2, Word());
    NumberSame(m2, m3, h + 8, Dword());
  }

  class Port {
    const mem: array<Byte>
    var clb: nat
    var clbu: nat
    var fb: nat
    var fbu: nat

    constructor (mem: array<Byte>)
      ensures this.mem == mem
    {
      this.mem := mem;
      clb, clbu, fb, fbu := 0, 0, 0, 0;
    }

    /** The registers name the port's areas. */
    predicate Names(port: nat)
      reads this
    {
      clb == CommandList(port).Start() && clbu == 0 && fb == Received(port).Start() && fbu == 0
    }

    /** One round of the loop over the headers. */
    method RebaseSlot(port: nat, i: nat, ghost m0: seq<Byte>)
      requires port < PORTS && i < SLOTS && END <= mem.Length && Progress(m0, mem[..], port, i)
      modifies mem
      ensures Progress(m0, mem[..], port, i + 1)
    {
      ghost var m := mem[..];
      RebaseHeader(mem, port, i);
      ghost var m1 := mem[..];
      Clear(mem, Table(port, i).Start(), 256);
      TableCleared(m, m1, mem[..], port, i);
      RebaseStep(m0, m, mem[..], port, i);
    }

    /** All 32 slots of the port get their tables; memory of other ports is not touched. */
    method Rebase(port: nat)
      requires port < PORTS && END <= mem.Length
      modifies this, mem
      ensures Names(port)
      ensures forall i :: 0 <= i < SLOTS ==> SlotRebased(mem[..], port, i)
      ensures ZeroAt(mem[..], Received(port).Start(), 256) && OnlyPort(old(mem[..]), mem[..], port)
      ensures clb == 0x40_0000 + 1024 * port && fb == 0x40_8000 + 256 * port && clbu == 0 && fbu == 0
      ensures forall i {:trigger RebasedInOrder(mem[..], port, i)} :: 0 <= i < 32 ==> RebasedInOrder(mem[..], port, i)
    {
      ghost var m0 := mem[..];
      clb, clbu := BASE + KIB * port, 0;
      Clear(mem, clb, 0x400);
      fb, fbu := BASE + 32 * KIB + 256 * port, 0;
      Clear(mem, fb, 0x100);
      for i := 0 to SLOTS
        invariant Names(port) && Progress(m0, mem[..], port, i)
      {
        RebaseSlot(port, i, m0);
      }
      HeadersHaveOrder(mem[..], port);
    }
  }

  /** A header with eight descriptors and its cleared table, as the hardware
      reads it (section 4.2.2 of the AHCI specification). */
  ghost predicate RebasedInOrder(m: seq<Byte>, port: nat, i: nat) {
    var h, t := 0x40_0000 + 1024 * port + 32 * i, 0x40_A000 + 8192 * port + 256 * i;
    && h + 32 <= |m| && NumberAt(m, h + 2, Word()) == 8
    && NumberAt(m, h + 8, Dword()) == t && NumberAt(m, h + 12, Dword()) == 0
    && ZeroAt(m, t, 256)
  }

  lemma HeadersHaveOrder(m: seq<Byte>, port: nat)
    requires port < PORTS && forall i :: 0 <= i < SLOTS ==> SlotRebased(m, port, i)
    ensures forall i {:trigger RebasedInOrder(m, port, i)} :: 0 <= i < 32 ==> RebasedInOrder(m, port, i)
  {
    forall i | 0 <= i < 32 ensures RebasedInOrder(m, port, i) {
      assert SlotRebased(m, port, i);
    }
  }

  lemma TableCleared(m: seq<Byte>, m1: seq<Byte>, m2: seq<Byte>, port: nat, i: nat)
    requires port < PORTS && i < SLOTS && OnlyAt(m, m1, Header(port, i), HEADER_SIZE) && HeaderRebased(m1, port, i)
    requires OnlyAt(m1, m2, Table(port, i).Start(), 256) && ZeroAt(m2, Table(port, i).Start(), 256)
    ensures SlotRebased(m2, port, i) && OnlySlot(m, m2, port, i)
  {
    var h := Header(port, i);
    NumberSame(m1, m2, h + 2, Word());
    NumberSame(m1, m2, h + 8, Dword());
    NumberSame(m1, m2, h + 12, Dword());
  }
}
