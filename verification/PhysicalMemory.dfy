/**
  The allocator as the rest of the kernel sees it: the selected memory map
  entry is the region, and `k_malloc` and `k_free` change memory in place.
*/
module PhysicalMemory {
  import opened Allocator
  import opened AllocatorRuns
  import opened HalvingTree
  import opened Options

  class KernelHeap {
    const mem: array<Word>
    const memmap: Region
    /** The blocks handed out so far. */
    ghost var blocks: seq<Block>

    ghost function State(): Heap
      reads this, mem
    {
      Heap(mem[..], blocks)
    }

    /** The region and all blocks handed out are in memory. */
    ghost predicate Valid()
      reads this, mem
    {
      mem.Length <= ADDRESS_LIMIT && Placed(memmap, State())
    }

    /** Selects a zeroed region of memory. */
    constructor (mem: array<Word>, base: nat, length: nat)
      requires 1 <= length && base + length <= mem.Length <= ADDRESS_LIMIT
      requires forall i :: base <= i < base + length ==> mem[i] == 0
      ensures Valid() && Fresh(memmap, State()) && forall k :: Packed(memmap, State(), k)
      ensures this.mem == mem && memmap == Region(base, length)
    {
      this.mem := mem;
      this.memmap := Region(base, length);
      this.blocks := [];
    }

    /** One `Malloc` step, in any heap: NULL leaves everything as it was, any
        other result is the payload of the new last block. In a heap as runs
        keep it, a request that does not go deeper keeps it so. */
    method KMalloc(size: nat) returns (r: Option<nat>)
      requires Valid() && Legal(memmap, State(), Malloc(size))
      modifies this, mem
      ensures Valid() && State() == Step(memmap, old(State()), Malloc(size))
      ensures match r
              case None => State() == old(State())
              case Some(p) => |blocks| == old(|blocks|) + 1 && p == blocks[old(|blocks|)].addr + 1
      ensures forall k :: FitLevel(memmap.length, size) <= k && old(Packed(memmap, State(), k))
                ==> Packed(memmap, State(), FitLevel(memmap.length, size))
    {
      ghost var before := State();
      SearchAtFitLevel(before.mem, memmap.base, memmap.length, size);
      r := BMalloc(mem, memmap.base, memmap.length, size);
      if r.Some? {
        blocks := blocks + [Block(r.value - 1, size)];
      }
      MallocKeeps(memmap, before, size, State());
    }

    /** One `Free` step; the bytes that the header counts must be in memory. */
    method KFree(p: nat, ghost b: nat)
      requires Valid() && b < |blocks| && p == blocks[b].addr + 1 && p + (mem[p - 1] as int + 7) / 8 <= mem.Length
      modifies mem
      ensures Valid() && State() == Step(memmap, old(State()), Free(b))
      ensures forall k :: old(Packed(memmap, State(), k)) ==> Packed(memmap, State(), k)
    {
      ghost var before := State();
      assert blocks[b] in blocks;
      Allocator.KFree(mem, p);
      FreeKeeps(memmap, before, b, State());
    }
  }

  lemma FreeKeeps(g: Region, h: Heap, b: nat, h': Heap)
    requires Placed(g, h) && Legal(g, h, Free(b)) && h' == Step(g, h, Free(b))
    ensures forall k :: Packed(g, h, k) ==> Packed(g, h', k)
  {
    forall k | Packed(g, h, k) ensures Packed(g, h', k) {
      TouchKeepsPacked(g, h, Free(b), k, h');
    }
  }

  lemma MallocKeeps(g: Region, h: Heap, size: nat, h': Heap)
    requires Placed(g, h) && Legal(g, h, Malloc(size)) && h' == Step(g, h, Malloc(size))
    ensures forall k :: FitLevel(g.length, size) <= k && Packed(g, h, k) ==> Packed(g, h', FitLevel(g.length, size))
  {
    forall k | FitLevel(g.length, size) <= k && Packed(g, h, k) ensures Packed(g, h', FitLevel(g.length, size)) {
      PackedAtShallowerLevel(g, h, FitLevel(g.length, size), k);
      MallocKeepsPacked(g, h, size, h');
    }
  }
}
