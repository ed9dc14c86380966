/**
  Mounting in the memory that the allocator hands out: the image lies outside
  the allocator's region, so it stays, and the words of a new block read as
  zero bytes, which is what the copies of the names rely on.
*/
module RamdiskAllocation {
  import opened Allocator
  import opened AllocatorRuns
  import opened Arithmetic
  import opened HalvingTree
  import opened Options
  import opened PhysicalMemory
  import opened Ramdisk
  import opened RamdiskImage
  import opened RamdiskMount
  import opened RequestPairs
  import opened WordBytes
  import Bytes

  /** The size of a node, in bytes. */
  const NODE_SIZE: nat := 88

  method ReadAsBytes(words: seq<Word>) returns (mem: array<Bytes.Byte>)
    ensures fresh(mem) && SameMemory(words, mem[..])
  {
    mem := new Bytes.Byte[8 * |words|](x requires 0 <= x < 8 * |words| => ByteOf(words, x));
  }

  lemma ZeroWordBytes(words: seq<Word>, x: nat)
    requires x < 8 * |words| && words[x / 8] == 0
    ensures ByteOf(words, x) == 0
  {
    QuotientUnique(0, Pow256(x % 8), 0, 0);
  }

  /** A request for the entries' bytes gets that many words, and all bytes of the entries read as zero. */
  lemma GrantedEntriesAreZero(words: seq<Word>, a: nat, size: Word, m: seq<Bytes.Byte>, p: Place)
    requires size == DIRENT_SIZE * (p.count + 2) && a + size + 1 <= |words| && p.dirents == 8 * (a + 1)
    requires SameMemory(Claimed(words, a, size), m)
    ensures ZeroFrom(m, p, 0)
  {
    var after := Claimed(words, a, size);
    forall x | p.Dirent(0) <= x < p.Dirent(p.count + 2) && x < |m| ensures Bytes.At(m, x) == 0 {
      assert a < x / 8 <= a + size;
      ZeroWordBytes(after, x);
    }
  }

  // ---------- the image stays ----------

  /** `n` bytes at `a` are not in the allocator's region. */
  predicate OutsideRegion(g: Region, a: nat, n: nat) { a + n <= 8 * g.base || 8 * (g.base + g.length) <= a }

  /** No word outside the region has changed. */
  ghost predicate OnlyRegion(g: Region, words: seq<Word>, words': seq<Word>) {
    |words| == |words'| && forall i :: 0 <= i < |words| && !(g.base <= i < g.base + g.length) ==> words'[i] == words[i]
  }

  /** A granted block lies in the region. */
  lemma MallocStep(g: Region, h: Heap, size: nat, h': Heap)
    requires Placed(g, h) && Legal(g, h, Malloc(size)) && h' == AllocatorRuns.Step(g, h, Malloc(size))
    ensures OnlyRegion(g, h.mem, h'.mem)
    ensures |h'.blocks| > |h.blocks| ==>
              var a := h'.blocks[|h.blocks|].addr;
              g.base <= a && a + size + 1 <= g.base + g.length <= |h.mem| && h'.mem == Claimed(h.mem, a, size)
  {
    SearchAtFitLevel(h.mem, g.base, g.length, size);
    NodesShape(g.base, g.length, FitLevel(g.length, size));
  }

  lemma BytesOutsideSame(g: Region, words: seq<Word>, words': seq<Word>, m: seq<Bytes.Byte>, m': seq<Bytes.Byte>,
                         a: nat, n: nat)
    requires OnlyRegion(g, words, words') && SameMemory(words, m) && SameMemory(words', m')
    requires OutsideRegion(g, a, n) && a + n <= |m|
    ensures Same(m, m', a, a + n)
  {
    forall x | a <= x < a + n && x < |m| ensures Bytes.At(m', x) == Bytes.At(m, x) {
      assert !(g.base <= x / 8 < g.base + g.length);
    }
  }

  /** Memory holds the image; where the entries will be does not matter yet. */
  ghost predicate HoldsImage(m: seq<Bytes.Byte>, p: Place, files: seq<File>) {
    && p.Data() <= p.End() <= |m| < Bytes.U64 && p.count == |files| && p.count + 2 <= Bytes.U32
    && Bytes.NumberAt(m, p.location, Bytes.Qword()) == p.count
    && forall k {:trigger HeaderHolds(m, p, k, files[k])} :: 0 <= k < |files| ==> HeaderHolds(m, p, k, files[k])
  }

  lemma HeaderStays(m: seq<Bytes.Byte>, m': seq<Bytes.Byte>, p: Place, k: nat, f: File)
    requires HeaderHolds(m, p, k, f) && p.Header(k + 1) <= p.End() && Same(m, m', p.location, p.End())
    ensures HeaderHolds(m', p, k, f)
  {
    SameString(m, m', p.Header(k) + NAME_FIELD, f.name);
    SameNumber(m, m', p.Header(k) + OFFSET_FIELD, Bytes.Qword());
    SameNumber(m, m', p.Header(k) + LENGTH_FIELD, Bytes.Qword());
  }

  lemma ImageStays(m: seq<Bytes.Byte>, m': seq<Bytes.Byte>, p: Place, files: seq<File>)
    requires HoldsImage(m, p, files) && Same(m, m', p.location, p.End()) && p.Fits(|m|)
    ensures Holds(m', p, files)
  {
    SameNumber(m, m', p.location, Bytes.Qword());
    forall k | 0 <= k < |files| ensures HeaderHolds(m', p, k, files[k]) {
      assert HeaderHolds(m, p, k, files[k]) && p.Header(k + 1) <= p.End();
      HeaderStays(m, m', p, k, files[k]);
    }
  }

  lemma ShownStays(m: seq<Bytes.Byte>, m': seq<Bytes.Byte>, p: Place, files: seq<File>, k: nat,
                   buffer: seq<Bytes.Byte>, cleared: bool)
    requires HoldsImage(m, p, files) && Same(m, m', p.location, p.End()) && k < |files|
    requires ShowsFile(m', p, files[k], buffer, cleared)
    ensures ShowsFile(m, p, files[k], buffer, cleared)
  {
    assert HeaderHolds(m, p, k, files[k]);
    SameBytes(m, m', p.location + files[k].offset, files[k].length, p.location, p.End());
  }

  /** A listing of the image after the allocation is one of the image before. */
  lemma ListingStays(m: seq<Bytes.Byte>, m': seq<Bytes.Byte>, p: Place, files: seq<File>, lines: seq<Line>)
    requires HoldsImage(m, p, files) && Same(m, m', p.location, p.End()) && Listing(m', p, files, lines)
    ensures Listing(m, p, files, lines)
  {
    forall i | 0 <= i < |lines| ensures Shows(m, p, files, i, lines[i], UsedBefore(lines, i)) {
      assert Shows(m', p, files, i, lines[i], UsedBefore(lines, i));
      if lines[i].node >= 2 {
        ShownStays(m, m', p, files, lines[i].node - 2, lines[i].buffer, UsedBefore(lines, i));
      }
    }
  }

  // ---------- allocating and mounting ----------

  /** The region can hold the larger one of the two blocks. */
  predicate EntriesFit(g: Region, count: nat) {
    DIRENT_SIZE * (count + 2) + 1 <= g.length && DIRENT_SIZE * (count + 2) < ADDRESS_LIMIT
  }

  /** The heap grants both requests of `initialise_initrd`. */
  ghost predicate ServesRamdisk(g: Region, mem: seq<Word>, count: nat)
    requires 1 <= g.length && g.base + g.length <= |mem|
  {
    ServesBoth(g, mem, 88 * (count + 2), 132 * (count + 2))
  }

  /** The block with this payload has just been granted for the entries. */
  ghost predicate EntriesIn(g: Region, words: seq<Word>, words': seq<Word>, payload: nat, count: nat) {
    var size := DIRENT_SIZE * (count + 2);
    && 1 <= payload && g.base <= payload - 1 && payload + size <= g.base + g.length <= |words| && size < WORD_LIMIT
    && words' == Claimed(words, payload - 1, size)
  }

  /** The two blocks that were granted last are apart. */
  ghost predicate LastTwoApart(blocks: seq<Block>, n: nat) {
    |blocks| == n + 2 && blocks[n].End() <= blocks[n + 1].addr
  }

  /** What the two requests have done to the heap `h`. */
  ghost predicate Allocated(g: Region, h: Heap, h': Heap, count: nat, dirents: Option<nat>, words: seq<Word>)
    requires Placed(g, h)
  {
    && OnlyRegion(g, h.mem, h'.mem)
    && (dirents.Some? <==> ServesRamdisk(g, h.mem, count))
    && (dirents.Some? ==> EntriesIn(g, words, h'.mem, dirents.value, count) && LastTwoApart(h'.blocks, |h.blocks|))
  }

  lemma TwoSteps(g: Region, h: Heap, count: nat, h1: Heap, h2: Heap, dirents: Option<nat>)
    requires Placed(g, h) && EntriesFit(g, count)
    requires h1 == AllocatorRuns.Step(g, h, Malloc(NODE_SIZE * (count + 2)))
    requires h2 == AllocatorRuns.Step(g, h1, Malloc(DIRENT_SIZE * (count + 2)))
    requires match dirents
             case None => h2 == h1
             case Some(p) => |h2.blocks| == |h1.blocks| + 1 && p == h2.blocks[|h1.blocks|].addr + 1
    ensures Allocated(g, h, h2, count, dirents, h1.mem)
  {
    var first, second := NODE_SIZE * (count + 2), DIRENT_SIZE * (count + 2);
    MallocStep(g, h, first, h1);
    MallocStep(g, h1, second, h2);
    OnlyRegionTwice(g, h.mem, h1.mem, h2.mem);
    SecondGrantedIff(g, h, first, second, h1);
    GrantedBlocks(g, h, first, h1);
    GrantedBlocks(g, h1, second, h2);
    if dirents.Some? {
      PairApart(g, h, first, second, h1, h1.blocks[|h.blocks|].addr, dirents.value - 1);
    }
  }

  /** The two requests of `initialise_initrd`, in any heap; the second one gets NULL if the first one does. */
  method Allocate(heap: KernelHeap, count: nat) returns (dirents: Option<nat>, ghost words: seq<Word>)
    requires heap.Valid() && EntriesFit(heap.memmap, count)
    modifies heap, heap.mem
    ensures heap.Valid() && Allocated(heap.memmap, old(heap.State()), heap.State(), count, dirents, words)
  {
    ghost var h := heap.State();
    var nodes := heap.KMalloc(NODE_SIZE * (count + 2));
    ghost var h1 := heap.State();
    words := h1.mem;
    dirents := heap.KMalloc(DIRENT_SIZE * (count + 2));
    TwoSteps(heap.memmap, h, count, h1, heap.State(), dirents);
  }

  lemma OnlyRegionTwice(g: Region, words: seq<Word>, words': seq<Word>, words'': seq<Word>)
    requires OnlyRegion(g, words, words') && OnlyRegion(g, words', words'')
    ensures OnlyRegion(g, words, words'')
  {
  }

  /** The memory that the allocator leaves is what the mount asks for. */
  lemma ReadyToMount(g: Region, words0: seq<Word>, words: seq<Word>, words': seq<Word>, payload: nat,
                     m0: seq<Bytes.Byte>, m: seq<Bytes.Byte>, p: Place, files: seq<File>)
    requires OnlyRegion(g, words0, words') && SameMemory(words0, m0) && SameMemory(words', m)
    requires EntriesIn(g, words, words', payload, p.count) && p.dirents == 8 * payload
    requires HoldsImage(m0, p, files) && OutsideRegion(g, p.location, p.size)
    ensures Holds(m, p, files) && ZeroFrom(m, p, 0) && Same(m0, m, p.location, p.End())
  {
    BytesOutsideSame(g, words0, words', m0, m, p.location, p.size);
    GrantedEntriesAreZero(words, payload - 1, DIRENT_SIZE * (p.count + 2), m, p);
    ImageStays(m0, m, p, files);
  }

  /** From the boot loader's image to the listing, with any heap and whatever
      overlaps in it: the entries of the image are all listed if the heap grants
      both requests, which can be told before, and nothing is listed otherwise.
      `words0` is memory as the boot loader left it. */
  method BootRamdisk(heap: KernelHeap, location: nat, size: nat, count: nat, buf: nat,
                     ghost words0: seq<Word>, ghost m0: seq<Bytes.Byte>, ghost files: seq<File>)
    returns (lines: Option<seq<Line>>)
    requires heap.Valid() && EntriesFit(heap.memmap, count) && OnlyRegion(heap.memmap, words0, heap.mem[..])
    requires SameMemory(words0, m0) && HoldsImage(m0, Place(location, size, count, 0), files)
    requires |files| + 2 < 0x8000_0000
    requires OutsideRegion(heap.memmap, location, size) && OutsideRegion(heap.memmap, buf, LISTING_BUFFER)
    requires buf + LISTING_BUFFER <= |m0| && (buf + LISTING_BUFFER <= location || location + size <= buf)
    modifies heap, heap.mem
    ensures heap.Valid() && OnlyRegion(heap.memmap, words0, heap.mem[..])
    ensures lines.Some? <==> old(ServesRamdisk(heap.memmap, heap.mem[..], count))
    ensures lines.Some? ==>
              && LastTwoApart(heap.blocks, old(|heap.blocks|))
              && |lines.value| == |files| + 2 && Listing(m0, Place(location, size, count, 0), files, lines.value)
  {
    ghost var g, words1 := heap.memmap, heap.mem[..];
    var payload, words := Allocate(heap, count);
    OnlyRegionTwice(g, words0, words1, heap.mem[..]);
    if payload == None {
      return None;
    }
    var listed := MountWords(heap.mem[..], location, size, count, payload.value, buf, g, words0, words, m0, files);
    return Some(listed);
  }

  /** Mounting and listing in the memory that the allocator has left. */
  method MountWords(words': seq<Word>, location: nat, size: nat, count: nat, payload: nat, buf: nat, ghost g: Region,
                    ghost words0: seq<Word>, ghost words: seq<Word>, ghost m0: seq<Bytes.Byte>, ghost files: seq<File>)
    returns (lines: seq<Line>)
    requires OnlyRegion(g, words0, words') && SameMemory(words0, m0) && EntriesIn(g, words, words', payload, count)
    requires HoldsImage(m0, Place(location, size, count, 0), files) && |files| + 2 < 0x8000_0000
    requires OutsideRegion(g, location, size) && OutsideRegion(g, buf, LISTING_BUFFER)
    requires buf + LISTING_BUFFER <= |m0| && (buf + LISTING_BUFFER <= location || location + size <= buf)
    ensures |lines| == |files| + 2 && Listing(m0, Place(location, size, count, 0), files, lines)
  {
    var mem := ReadAsBytes(words');
    ghost var p, m := Place(location, size, count, 8 * payload), mem[..];
    PlaceDoesNotMatter(m0, Place(location, size, count, 0), p, files);
    ReadyToMount(g, words0, words, words', payload, m0, m, p, files);
    var initrd := new Initrd(mem);
    lines := initrd.MountAndList(location, 8 * payload, buf, p, files);
    ListingStays(m0, m, p, files, lines);
    ListingPlace(m0, p, Place(location, size, count, 0), files, lines);
  }

  lemma PlaceDoesNotMatter(m: seq<Bytes.Byte>, p: Place, p': Place, files: seq<File>)
    requires HoldsImage(m, p, files) && p' == p.(dirents := p'.dirents)
    ensures HoldsImage(m, p', files)
  {
    forall k | 0 <= k < |files| ensures HeaderHolds(m, p', k, files[k]) {
      assert HeaderHolds(m, p, k, files[k]);
    }
  }

  lemma ListingPlace(m: seq<Bytes.Byte>, p: Place, p': Place, files: seq<File>, lines: seq<Line>)
    requires Listing(m, p, files, lines) && p' == p.(dirents := p'.dirents)
    ensures Listing(m, p', files, lines)
  {
    forall i | 0 <= i < |lines| ensures Shows(m, p', files, i, lines[i], UsedBefore(lines, i)) {
      assert Shows(m, p, files, i, lines[i], UsedBefore(lines, i));
    }
  }
}
