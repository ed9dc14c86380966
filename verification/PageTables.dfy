/**
  The four-level page tables of kernel/memory/paging.c on plain values: what
  an entry holds, how an address is walked, and what mapping a page changes.
  Physical memory is the frames that a 40-bit entry field can name, each seen
  as 512 entries. Section 4.5 of the Intel SDM, Volume 3A, describes the walk.
*/
module PageTables {
  import Bytes

  /** Frame numbers that the 40-bit field of an entry holds. */
  const FRAMES: nat := 0x100_0000_0000
  /** Frame numbers that are left when the field is shifted within its 40 bits. */
  const LOW_FRAMES: nat := 0x1000_0000
  const PAGE_SIZE: nat := 4096
  const PAGES: nat := 0x10_0000_0000
  const ADDRESSES: nat := 0x1_0000_0000_0000_0000

  type Byte = Bytes.Byte
  type Address = a: int | 0 <= a < ADDRESSES

  datatype PageEntry = PageEntry(
    present: bool,
    writable: bool,
    userAccessible: bool,
    writeThroughCaching: bool,
    disableCache: bool,
    accessed: bool,
    dirty: bool,
    null_: bool,
    global: bool,
    avl1: nat,
    physicalAddress: nat,
    avl2: nat,
    noExecute: bool)

  /** `memory` gives every frame its 512 entries; `pool` lists the frames that
      the allocator will hand out next. */
  datatype Space = Space(memory: map<nat, seq<PageEntry>>, pml4: nat, pool: seq<nat>) {
    ghost predicate Total() {
      && (forall f :: 0 <= f < FRAMES ==> f in memory && |memory[f]| == 512)
      && (forall f, i :: 0 <= f < FRAMES && 0 <= i < 512 ==> memory[f][i].physicalAddress < FRAMES)
      && pml4 < FRAMES
      && (forall k :: 0 <= k < |pool| ==> pool[k] < FRAMES)
    }

    function Entry(t: nat, i: nat): PageEntry
      requires Total() && t < FRAMES && i < 512
    {
      memory[t][i]
    }

    function WithEntry(t: nat, i: nat, e: PageEntry): (r: Space)
      requires Total() && t < FRAMES && i < 512 && e.physicalAddress < FRAMES
      ensures r.Total() && r.pml4 == pml4 && r.pool == pool
      ensures forall u, j :: 0 <= u < FRAMES && 0 <= j < 512 ==>
                r.Entry(u, j) == if u == t && j == i then e else Entry(u, j)
    {
      this.(memory := memory[t := memory[t][i := e]])
    }
  }

  /** The bit of `flags` that becomes the entry's present bit. */
  predicate PresentFlag(flags: Byte) { flags / 2 % 2 == 1 }

  /** Four fields take bit 0 of a number whose bit 0 is masked off, so they are always cleared;
      the accessed and dirty bits stay. */
  function FilledEntry(e: PageEntry, flags: Byte, frame: nat, available: nat): PageEntry {
    PageEntry(
      flags / 2 % 2 == 1, flags / 4 % 2 == 1, flags / 8 % 2 == 1, false, false, e.accessed, e.dirty, false, false,
      available % 4, frame % FRAMES, available / 8 % 2048, flags / 128 % 2 == 1)
  }

  /** The index that level `d` of the walk takes from a virtual address; the root is level 0. */
  function Index(v: nat, d: nat): (i: nat)
    requires d < 4
    ensures i < 512
  {
    match d
    case 0 => v / 0x80_0000_0000 % 512
    case 1 => v / 0x4000_0000 % 512
    case 2 => v / 0x20_0000 % 512
    case _ => v / 0x1000 % 512
  }

  /** The number of the page that bits 12 to 47 of an address name. */
  function Page(v: nat): (p: nat)
    ensures p < PAGES
  {
    v / PAGE_SIZE % PAGES
  }

  /** The level of the tables that hold the page entries. */
  function LeafLevel(): nat { 3 }

  /** The table that the walk of `v` reaches after `d` steps. */
  function Walk(s: Space, v: nat, d: nat): (t: nat)
    requires s.Total() && d <= 3
    ensures t < FRAMES
  {
    if d == 0 then s.pml4 else s.Entry(Walk(s, v, d - 1), Index(v, d - 1)).physicalAddress
  }

  function Leaf(s: Space, v: nat): PageEntry
    requires s.Total()
  {
    s.Entry(Walk(s, v, LeafLevel()), Index(v, 3))
  }

  /** The last shift is done on the 40-bit field, so it drops the field's 12 highest bits. */
  function PhysicalAddress(s: Space, v: nat): nat
    requires s.Total()
  {
    Leaf(s, v).physicalAddress * PAGE_SIZE % FRAMES + v % PAGE_SIZE
  }

  /** Points entry `i` of `t` at a newly allocated frame; NULL makes it frame 0. */
  function AllocatedEntry(s: Space, t: nat, i: nat, flags: Byte): (r: Space)
    requires s.Total() && t < FRAMES && i < 512
    ensures r.Total() && r.pml4 == s.pml4
  {
    var frame := if s.pool == [] then 0 else s.pool[0];
    s.WithEntry(t, i, FilledEntry(s.Entry(t, i), flags, frame, 0)).(pool := if s.pool == [] then [] else s.pool[1..])
  }

  function EnsuredEntry(s: Space, t: nat, i: nat, flags: Byte): (r: Space)
    requires s.Total() && t < FRAMES && i < 512
    ensures r.Total() && r.pml4 == s.pml4
  {
    if s.Entry(t, i).present then s else AllocatedEntry(s, t, i, flags)
  }

  /** The table that an entry leads `mapPage` to: here the shift is on the 40-bit field too. */
  function NextTable(s: Space, t: nat, i: nat): (r: nat)
    requires s.Total() && t < FRAMES && i < 512
    ensures r < LOW_FRAMES
  {
    s.Entry(t, i).physicalAddress * PAGE_SIZE % FRAMES / PAGE_SIZE
  }

  /** The tables of the first `d` levels are made present, top down; the last one reached comes along. */
  function Descended(s: Space, v: nat, flags: Byte, d: nat): (r: (Space, nat))
    requires s.Total() && d <= 3
    ensures r.0.Total() && r.0.pml4 == s.pml4 && r.1 < FRAMES
  {
    if d == 0 then (s, s.pml4)
    else
      var (u, t) := Descended(s, v, flags, d - 1);
      var w := EnsuredEntry(u, t, Index(v, d - 1), flags);
      (w, NextTable(w, t, Index(v, d - 1)))
  }

  function Mapped(s: Space, v: nat, p: nat, flags: Byte): (r: Space)
    requires s.Total()
    ensures r.Total() && r.pml4 == s.pml4
  {
    var (u, t) := Descended(s, v, flags, LeafLevel());
    u.WithEntry(t, Index(v, 3), FilledEntry(u.Entry(t, Index(v, 3)), flags, p / PAGE_SIZE, 0))
  }
}
