/**
  The kernel's own start, from the selected region to the listed ramdisk
  (kernel/kernel.c): it asks for a buffer, reads a sector into it, asks for
  another one, writes a text into it, and then starts the ramdisk.
*/
module KernelBoot {
  import opened Allocator
  import opened AllocatorRuns
  import opened HalvingTree
  import opened Options
  import opened PhysicalMemory
  import opened Ramdisk
  import opened RamdiskAllocation
  import opened RamdiskImage
  import opened RequestPairs
  import opened WordBytes
  import Bytes

  /** Only the words of the payload have changed. */
  ghost predicate OnlyWords(words: seq<Word>, words': seq<Word>, a: nat, n: nat) {
    |words| == |words'| && forall i :: 0 <= i < |words| && !(a <= i < a + n) ==> words'[i] == words[i]
  }

  method WriteWords(mem: array<Word>, a: nat, data: seq<Word>)
    requires a + |data| <= mem.Length
    modifies mem
    ensures OnlyWords(old(mem[..]), mem[..], a, |data|)
  {
    for k := 0 to |data|
      invariant OnlyWords(old(mem[..]), mem[..], a, |data|)
    {
      mem[a + k] := data[k];
    }
  }

  lemma SectorTaken(g: Region, h: Heap, h1: Heap, words: seq<Word>)
    requires Fresh(g, h) && g.length > SECTOR_BUFFER && h1 == Step(g, h, Malloc(SECTOR_BUFFER))
    requires OnlyWords(h1.mem, words, g.base + 1, SECTOR_WORDS)
    ensures h1.blocks == [Block(g.base, SECTOR_BUFFER)]
    ensures g.base + g.length <= |words| && OneTaken(g, words) && OnlyRegion(g, h.mem, words)
  {
    FreshGrantsBase(g, h, SECTOR_BUFFER);
    MallocStep(g, h, SECTOR_BUFFER, h1);
  }

  /** The first buffer, with a sector in it. */
  method GetSector(heap: KernelHeap, sector: seq<Word>)
    requires heap.Valid() && Fresh(heap.memmap, heap.State()) && heap.memmap.length > SECTOR_BUFFER
    requires |sector| == SECTOR_WORDS
    modifies heap, heap.mem
    ensures heap.Valid() && OneTaken(heap.memmap, heap.mem[..])
    ensures OnlyRegion(heap.memmap, old(heap.mem[..]), heap.mem[..])
  {
    ghost var h := heap.State();
    var s := heap.KMalloc(SECTOR_BUFFER);
    ghost var h1 := heap.State();
    SectorTaken(heap.memmap, h, h1, h1.mem);
    WriteWords(heap.mem, s.value, sector);
    SectorTaken(heap.memmap, h, h1, heap.mem[..]);
  }

  lemma TextTaken(g: Region, h: Heap, h1: Heap, words: seq<Word>)
    requires Placed(g, h) && g.length > SECTOR_BUFFER && OneTaken(g, h.mem) && h1 == Step(g, h, Malloc(TEXT_BUFFER))
    requires OnlyWords(h1.mem, words, TextBufferAt(g) + 1, TEXT_WORDS)
    ensures h1.blocks == h.blocks + [Block(TextBufferAt(g), TEXT_BUFFER)]
    ensures g.base + g.length <= |words| && TwoTaken(g, words, TextBufferAt(g)) && OnlyRegion(g, h.mem, words)
  {
    TextBufferInside(g);
    TextBufferGranted(g, h.mem);
    MallocStep(g, h, TEXT_BUFFER, h1);
  }

  /** The second buffer, with a text in it. */
  method GetText(heap: KernelHeap, text: seq<Word>)
    requires heap.Valid() && OneTaken(heap.memmap, heap.mem[..]) && heap.memmap.length > SECTOR_BUFFER
    requires |text| == TEXT_WORDS
    modifies heap, heap.mem
    ensures heap.Valid() && TwoTaken(heap.memmap, heap.mem[..], TextBufferAt(heap.memmap))
    ensures OnlyRegion(heap.memmap, old(heap.mem[..]), heap.mem[..])
  {
    ghost var h := heap.State();
    var c := heap.KMalloc(TEXT_BUFFER);
    ghost var h1 := heap.State();
    TextTaken(heap.memmap, h, h1, h1.mem);
    WriteWords(heap.mem, c.value, text);
    TextTaken(heap.memmap, h, h1, heap.mem[..]);
  }

  /** On a zeroed region: every entry of the boot loader's image is listed
      exactly under a condition on the levels of three requests. */
  method StartKernel(heap: KernelHeap, sector: seq<Word>, text: seq<Word>, location: nat, size: nat, count: nat,
                     buf: nat, ghost m0: seq<Bytes.Byte>, ghost files: seq<File>) returns (lines: Option<seq<Line>>)
    requires heap.Valid() && Fresh(heap.memmap, heap.State()) && heap.memmap.length > 0x8000
    requires |sector| == 64 && |text| == 2 && EntriesFit(heap.memmap, count)
    requires SameMemory(heap.mem[..], m0) && HoldsImage(m0, Place(location, size, count, 0), files)
    requires |files| + 2 < 0x8000_0000
    requires OutsideRegion(heap.memmap, location, size) && OutsideRegion(heap.memmap, buf, LISTING_BUFFER)
    requires buf + LISTING_BUFFER <= |m0| && (buf + LISTING_BUFFER <= location || location + size <= buf)
    modifies heap, heap.mem
    ensures heap.Valid() && OnlyRegion(heap.memmap, old(heap.mem[..]), heap.mem[..])
    ensures lines.Some?
            <==> GrantedAfterKernel(heap.memmap.length, 88 * (count + 2), 132 * (count + 2))
    ensures lines.Some? ==>
              |lines.value| == |files| + 2 && Listing(m0, Place(location, size, count, 0), files, lines.value)
  {
    ghost var g, words0 := heap.memmap, heap.mem[..];
    GetSector(heap, sector);
    ghost var words1 := heap.mem[..];
    GetText(heap, text);
    OnlyRegionTwice(g, words0, words1, heap.mem[..]);
    KernelServesIff(g, heap.mem[..], NODE_SIZE * (count + 2), DIRENT_SIZE * (count + 2));
    lines := BootRamdisk(heap, location, size, count, buf, words0, m0, files);
  }
}
