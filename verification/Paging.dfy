/**
  The code of kernel/memory/paging.c, which changes the tables in place.
*/
module Paging {
  import opened PageTables

  class AddressSpace {
    var memory: map<nat, seq<PageEntry>>
    var pml4: nat
    /** The frames that `k_malloc` will hand out. */
    var pool: seq<nat>

    ghost function State(): Space
      reads this
    {
      Space(memory, pml4, pool)
    }

    ghost predicate Valid()
      reads this
    {
      State().Total()
    }

    method SetPageTableEntry(t: nat, i: nat, flags: Byte, frame: nat, available: nat)
      requires Valid() && t < FRAMES && i < 512
      modifies `memory
      ensures Valid()
      ensures State() == old(State().WithEntry(t, i, FilledEntry(State().Entry(t, i), flags, frame, available)))
      ensures var e, was := memory[t][i], old(memory[t][i]);
              && (e.present <==> flags / 2 % 2 == 1) && (e.writable <==> flags / 4 % 2 == 1)
              && (e.userAccessible <==> flags / 8 % 2 == 1) && (e.noExecute <==> flags >= 128)
              && !e.writeThroughCaching && !e.disableCache && !e.null_ && !e.global
              && e.accessed == was.accessed && e.dirty == was.dirty && e.physicalAddress == frame % 0x100_0000_0000
              && e.avl1 == available % 4 && e.avl2 == available / 8 % 2048
    {
      var e := memory[t][i];
      e := e.(present := flags / 2 % 2 == 1,
              writable := flags / 4 % 2 == 1,
              userAccessible := flags / 8 % 2 == 1,
              writeThroughCaching := false,
              disableCache := false,
              null_ := false,
              global := false,
              avl1 := available % 4,
              physicalAddress := frame % FRAMES,
              avl2 := available / 8 % 2048,
              noExecute := flags / 128 % 2 == 1);
      ghost var was := State();
      memory := memory[t := memory[t][i := e]];
      assert State() == was.WithEntry(t, i, e);
    }

    method GetPhysicalAddress(virtualAddress: Address) returns (r: nat)
      requires Valid()
      ensures r == PhysicalAddress(State(), virtualAddress)
    {
      ghost var s := State();
      var offset := virtualAddress % PAGE_SIZE;
      var pageDirectoryPointer := memory[pml4][Index(virtualAddress, 0)].physicalAddress;
      assert pageDirectoryPointer == Walk(s, virtualAddress, 1) by { assert Walk(s, virtualAddress, 0) == pml4; }
      var pageDirectory := memory[pageDirectoryPointer][Index(virtualAddress, 1)].physicalAddress;
      assert pageDirectory == Walk(s, virtualAddress, 2);
      var pageTable := memory[pageDirectory][Index(virtualAddress, 2)].physicalAddress;
      assert pageTable == Walk(s, virtualAddress, LeafLevel());
      r := memory[pageTable][Index(virtualAddress, 3)].physicalAddress * PAGE_SIZE % FRAMES + offset;
    }

    method AllocateEntry(t: nat, i: nat, flags: Byte)
      requires Valid() && t < FRAMES && i < 512
      modifies `memory, `pool
      ensures Valid() && State() == old(AllocatedEntry(State(), t, i, flags))
    {
      var frame := 0;
      if pool != [] {
        frame := pool[0];
        pool := pool[1..];
      }
      SetPageTableEntry(t, i, flags, frame, 0);
    }

    /** Makes entry `i` of `t` present and gives the table that it leads to. */
    method Descend(t: nat, i: nat, flags: Byte) returns (next: nat)
      requires Valid() && t < FRAMES && i < 512
      modifies `memory, `pool
      ensures Valid() && State() == old(EnsuredEntry(State(), t, i, flags))
      ensures next == NextTable(State(), t, i)
    {
      if !memory[t][i].present {
        AllocateEntry(t, i, flags);
      }
      next := memory[t][i].physicalAddress * PAGE_SIZE % FRAMES / PAGE_SIZE;
    }

    method MapPage(virtualAddress: Address, physicalAddress: Address, flags: Byte)
      requires Valid()
      modifies `memory, `pool
      ensures Valid() && State() == old(Mapped(State(), virtualAddress, physicalAddress, flags))
    {
      ghost var s := State();
      assert Descended(s, virtualAddress, flags, 0) == (s, pml4);
      var pageDirectoryPointer := Descend(pml4, Index(virtualAddress, 0), flags);
      assert Descended(s, virtualAddress, flags, 1) == (State(), pageDirectoryPointer);
      var pageDirectory := Descend(pageDirectoryPointer, Index(virtualAddress, 1), flags);
      assert Descended(s, virtualAddress, flags, 2) == (State(), pageDirectory);
      var pageTable := Descend(pageDirectory, Index(virtualAddress, 2), flags);
      assert Descended(s, virtualAddress, flags, LeafLevel()) == (State(), pageTable);
      SetPageTableEntry(pageTable, Index(virtualAddress, 3), flags, physicalAddress / PAGE_SIZE, 0);
    }
  }
}
