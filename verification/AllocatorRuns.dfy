/**
  Whole runs of the allocator: clients request blocks, write anything into
  their own payloads and free them, in any order.
*/
module AllocatorRuns {
  import opened Allocator
  import opened HalvingTree
  import opened Options

  datatype Block = Block(addr: nat, size: nat) {
    /** One past the last word of the block. */
    function End(): nat { addr + size + 1 }

    predicate Covers(i: nat) { addr <= i < End() }
  }

  /** Memory, with the blocks handed out so far in order. */
  datatype Heap = Heap(mem: seq<Word>, blocks: seq<Block>)

  datatype Op =
    | Malloc(size: nat)
    | Write(block: nat, offset: nat, value: Word)
    | Free(block: nat)

  /** The memory that the allocator works in. */
  datatype Region = Region(base: nat, length: nat)

  ghost predicate Placed(g: Region, h: Heap) {
    && 1 <= g.length && g.base + g.length <= |h.mem|
    && forall b :: b in h.blocks ==> 1 <= b.size && b.End() <= |h.mem|
  }

  /** Every block still has its size in its header. */
  ghost predicate ValidHeap(g: Region, h: Heap) {
    Placed(g, h) && forall b :: b in h.blocks ==> h.mem[b.addr] == b.size
  }

  /** What a client may do: request a size that fits, and touch or free what it was given. */
  predicate Legal(g: Region, h: Heap, op: Op) {
    match op
    case Malloc(size) => 1 <= size && size + 1 <= g.length && size < ADDRESS_LIMIT
    case Write(b, offset, _) => b < |h.blocks| && offset < h.blocks[b].size
    case Free(b) => b < |h.blocks|
  }

  /** Freeing through a damaged header can run off the end of memory; that write is not modelled. */
  function Step(g: Region, h: Heap, op: Op): (r: Heap)
    requires Placed(g, h) && Legal(g, h, op)
    ensures Placed(g, r)
  {
    match op
    case Malloc(size) =>
      SearchAtFitLevel(h.mem, g.base, g.length, size);
      (match Search(h.mem, g.base, g.length, size)
       case None => h
       case Some(a) => Heap(Claimed(h.mem, a, size), h.blocks + [Block(a, size)]))
    case Write(b, offset, value) =>
      assert h.blocks[b] in h.blocks;
      h.(mem := h.mem[h.blocks[b].addr + 1 + offset := value])
    case Free(b) =>
      assert h.blocks[b] in h.blocks;
      var p := h.blocks[b].addr + 1;
      var size := h.mem[p - 1] as int;
      if p + (size + 7) / 8 <= |h.mem| then h.(mem := BytesCleared(h.mem, p, size)) else h
  }

  ghost predicate Separate(g: Region, blocks: seq<Block>) {
    && (forall i :: 0 <= i < |blocks| ==> g.base <= blocks[i].addr && blocks[i].End() <= g.base + g.length)
    && (forall i, j :: 0 <= i < j < |blocks| ==>
          blocks[i].End() <= blocks[j].addr || blocks[j].End() <= blocks[i].addr)
  }

  // ---------- the invariant ----------

  ghost predicate InNode(g: Region, k: nat, a: nat, b: Block) {
    a <= b.addr && b.End() <= a + LevelLength(g.length, k)
  }

  ghost predicate Taken(blocks: seq<Block>, a: nat) {
    exists b :: b in blocks && b.addr == a
  }

  /** Every block lies in a node of level `k`. */
  ghost predicate Housed(g: Region, blocks: seq<Block>, k: nat) {
    forall b :: b in blocks ==> exists a :: a in Nodes(g.base, g.length, k) && InNode(g, k, a, b)
  }

  /** The nodes of level `k` up to the last block's each have a block at their own address. */
  ghost predicate Prefixed(g: Region, blocks: seq<Block>, k: nat) {
    forall a, b :: a in Nodes(g.base, g.length, k) && b in blocks && a <= b.addr ==> Taken(blocks, a)
  }

  ghost predicate Outside(blocks: seq<Block>, i: nat) {
    forall b :: b in blocks ==> !b.Covers(i)
  }

  ghost predicate ZeroOutside(g: Region, h: Heap)
    requires g.base + g.length <= |h.mem|
  {
    forall i :: g.base <= i < g.base + g.length && Outside(h.blocks, i) ==> h.mem[i] == 0
  }

  /** The heap as runs keep it. */
  ghost predicate Packed(g: Region, h: Heap, k: nat) {
    && ValidHeap(g, h)
    && Separate(g, h.blocks)
    && Housed(g, h.blocks, k)
    && Prefixed(g, h.blocks, k)
    && ZeroOutside(g, h)
  }

  /** A heap packed at one level is packed at every shallower one. */
  lemma PackedAtShallowerLevel(g: Region, h: Heap, j: nat, k: nat)
    requires Packed(g, h, k) && j <= k
    ensures Packed(g, h, j)
  {
    forall b | b in h.blocks
      ensures exists a :: a in Nodes(g.base, g.length, j) && InNode(g, j, a, b)
    {
      var a :| a in Nodes(g.base, g.length, k) && InNode(g, k, a, b);
      var p := Ancestor(g.base, g.length, j, k, a);
      assert InNode(g, j, p, b);
    }
    forall a, b | a in Nodes(g.base, g.length, j) && b in h.blocks && a <= b.addr
      ensures Taken(h.blocks, a)
    {
      NodesOfShallowerLevel(g.base, g.length, j, k, a);
    }
  }

  /** In a packed heap the header of a node reads as free exactly when no
      block starts there, and then all blocks end before it. */
  lemma FreeIffNotTaken(g: Region, h: Heap, k: nat, a: nat)
    requires Packed(g, h, k) && a in Nodes(g.base, g.length, k) && a < g.base + g.length
    ensures h.mem[a] == 0 <==> !Taken(h.blocks, a)
    ensures !Taken(h.blocks, a) ==> forall b :: b in h.blocks ==> b.End() <= a
  {
    NodesShape(g.base, g.length, k);
    if !Taken(h.blocks, a) {
      forall b | b in h.blocks
        ensures b.End() <= a
      {
        var n :| n in Nodes(g.base, g.length, k) && InNode(g, k, n, b);
        assert b.addr < a;
        NodesDisjoint(g.base, g.length, k, n, a);
      }
      assert Outside(h.blocks, a);
    }
  }

  /** The node that a request gets is the lowest one that is not taken, and all blocks end before it. */
  lemma GrantedNode(g: Region, h: Heap, size: nat, a: nat)
    requires size + 1 <= g.length && Packed(g, h, FitLevel(g.length, size))
    requires Search(h.mem, g.base, g.length, size) == Some(a)
    ensures var k := FitLevel(g.length, size);
            && a in Nodes(g.base, g.length, k) && g.base <= a && a + size + 1 <= g.base + g.length
            && InNode(g, k, a, Block(a, size))
            && (forall b :: b in h.blocks ==> b.End() <= a)
            && (forall n :: n in Nodes(g.base, g.length, k) && n < a ==> Taken(h.blocks, n))
  {
    var k := FitLevel(g.length, size);
    SearchAtFitLevel(h.mem, g.base, g.length, size);
    NodesShape(g.base, g.length, k);
    FreeIffNotTaken(g, h, k, a);
    FitLevelIsDeepestUsable(g.length, size, k);
    forall n | n in Nodes(g.base, g.length, k) && n < a
      ensures Taken(h.blocks, n)
    {
      FreeIffNotTaken(g, h, k, n);
    }
  }

  lemma AppendKeepsPrefixed(g: Region, blocks: seq<Block>, k: nat, block: Block)
    requires Prefixed(g, blocks, k)
    requires forall n :: n in Nodes(g.base, g.length, k) && n < block.addr ==> Taken(blocks, n)
    ensures Prefixed(g, blocks + [block], k)
  {
    var all := blocks + [block];
    assert block in all;
    forall n, b | n in Nodes(g.base, g.length, k) && b in all && n <= b.addr
      ensures Taken(all, n)
    {
      if n != block.addr {
        assert Taken(blocks, n);
        var t :| t in blocks && t.addr == n;
        assert t in all;
      }
    }
  }

  lemma AppendKeepsSeparate(g: Region, blocks: seq<Block>, block: Block)
    requires Separate(g, blocks) && g.base <= block.addr && block.End() <= g.base + g.length
    requires forall b :: b in blocks ==> b.End() <= block.addr
    ensures Separate(g, blocks + [block])
  {
    var all := blocks + [block];
    forall i, j | 0 <= i < j < |all| ensures all[i].End() <= all[j].addr || all[j].End() <= all[i].addr {
      assert all[i] == blocks[i] && blocks[i] in blocks;
    }
  }

  lemma AppendKeepsHoused(g: Region, blocks: seq<Block>, k: nat, block: Block)
    requires Housed(g, blocks, k) && block.addr in Nodes(g.base, g.length, k) && InNode(g, k, block.addr, block)
    ensures Housed(g, blocks + [block], k)
  {
  }

  lemma AppendKeepsLayout(g: Region, h: Heap, size: nat, a: nat, k: nat, block: Block)
    requires size + 1 <= g.length && k == FitLevel(g.length, size) && block == Block(a, size) && Packed(g, h, k)
    requires Search(h.mem, g.base, g.length, size) == Some(a)
    ensures Separate(g, h.blocks + [block]) && Housed(g, h.blocks + [block], k) && Prefixed(g, h.blocks + [block], k)
  {
    GrantedNode(g, h, size, a);
    AppendKeepsSeparate(g, h.blocks, block);
    AppendKeepsHoused(g, h.blocks, k, block);
    AppendKeepsPrefixed(g, h.blocks, k, block);
  }

  lemma GrantKeepsHeaders(g: Region, h: Heap, block: Block, h': Heap)
    requires ValidHeap(g, h) && 1 <= block.size < WORD_LIMIT && block.End() <= |h.mem|
    requires forall b :: b in h.blocks ==> b.End() <= block.addr
    requires h' == Heap(Claimed(h.mem, block.addr, block.size), h.blocks + [block])
    ensures ValidHeap(g, h')
  {
    assert forall b :: b in h'.blocks <==> b in h.blocks || b == block;
  }

  lemma GrantKeepsZeros(g: Region, h: Heap, block: Block, h': Heap)
    requires g.base + g.length <= |h.mem| && ZeroOutside(g, h) && block.size < WORD_LIMIT && block.End() <= |h.mem|
    requires h' == Heap(Claimed(h.mem, block.addr, block.size), h.blocks + [block])
    ensures ZeroOutside(g, h')
  {
    assert block in h'.blocks;
    forall i | g.base <= i < g.base + g.length && Outside(h'.blocks, i)
      ensures h'.mem[i] == 0
    {
      assert !block.Covers(i);
      assert Outside(h.blocks, i);
    }
  }

  /** A granted request extends the packed heap by one block. */
  lemma MallocKeepsPacked(g: Region, h: Heap, size: nat, h': Heap)
    requires ValidHeap(g, h) && Legal(g, h, Malloc(size)) && Packed(g, h, FitLevel(g.length, size))
    requires h' == Step(g, h, Malloc(size))
    ensures Packed(g, h', FitLevel(g.length, size))
  {
    match Search(h.mem, g.base, g.length, size)
    case None =>
    case Some(a) =>
      var block := Block(a, size);
      GrantedNode(g, h, size, a);
      AppendKeepsLayout(g, h, size, a, FitLevel(g.length, size), block);
      GrantKeepsHeaders(g, h, block, h');
      GrantKeepsZeros(g, h, block, h');
  }

  /** Only the payload of one block differs. */
  ghost predicate LocalTo(h: Heap, h': Heap, own: Block) {
    && h'.blocks == h.blocks && |h'.mem| == |h.mem|
    && forall i :: 0 <= i < |h.mem| && !(own.addr < i < own.End()) ==> h'.mem[i] == h.mem[i]
  }

  /** Writing and freeing change only the payload of one block. */
  lemma TouchIsLocal(g: Region, h: Heap, op: Op)
    requires ValidHeap(g, h) && Legal(g, h, op) && !op.Malloc?
    ensures LocalTo(h, Step(g, h, op), h.blocks[op.block])
  {
    assert h.blocks[op.block] in h.blocks;
  }

  lemma LocalKeepsHeaders(g: Region, h: Heap, h': Heap, n: nat)
    requires ValidHeap(g, h) && Separate(g, h.blocks) && n < |h.blocks| && LocalTo(h, h', h.blocks[n])
    ensures ValidHeap(g, h')
  {
    forall b | b in h.blocks ensures h'.mem[b.addr] == b.size {
      var m :| 0 <= m < |h.blocks| && h.blocks[m] == b;
      assert m < n || m == n || n < m;
    }
  }

  lemma LocalKeepsZeros(g: Region, h: Heap, h': Heap, n: nat)
    requires g.base + g.length <= |h.mem| && ZeroOutside(g, h) && n < |h.blocks| && LocalTo(h, h', h.blocks[n])
    ensures ZeroOutside(g, h')
  {
    forall i | g.base <= i < g.base + g.length && Outside(h'.blocks, i) ensures h'.mem[i] == 0 {
      assert h.blocks[n] in h.blocks && !h.blocks[n].Covers(i);
    }
  }

  lemma TouchKeepsPacked(g: Region, h: Heap, op: Op, k: nat, h': Heap)
    requires Packed(g, h, k) && Legal(g, h, op) && !op.Malloc? && h' == Step(g, h, op)
    ensures Packed(g, h', k) && h'.blocks == h.blocks
  {
    TouchIsLocal(g, h, op);
    LocalKeepsHeaders(g, h, h', op.block);
    LocalKeepsZeros(g, h, h', op.block);
  }

  // ---------- runs ----------

  ghost predicate LegalRun(g: Region, h: Heap, ops: seq<Op>)
    requires Placed(g, h)
    decreases |ops|
  {
    ops == [] || (Legal(g, h, ops[0]) && LegalRun(g, Step(g, h, ops[0]), ops[1..]))
  }

  ghost function Run(g: Region, h: Heap, ops: seq<Op>): (r: Heap)
    requires Placed(g, h) && LegalRun(g, h, ops)
    ensures Placed(g, r)
    decreases |ops|
  {
    if ops == [] then h else Run(g, Step(g, h, ops[0]), ops[1..])
  }

  /** A zeroed region with no block handed out. */
  ghost predicate Fresh(g: Region, h: Heap) {
    && Placed(g, h) && h.blocks == []
    && forall i :: g.base <= i < g.base + g.length ==> h.mem[i] == 0
  }

  /** No request falls on a deeper level than the one before it, nor than `k`. */
  ghost predicate NeverDeeper(g: Region, ops: seq<Op>, k: nat)
    decreases |ops|
  {
    ops == [] ||
    if ops[0].Malloc? then
      FitLevel(g.length, ops[0].size) <= k && NeverDeeper(g, ops[1..], FitLevel(g.length, ops[0].size))
    else NeverDeeper(g, ops[1..], k)
  }

  /** The level of the last request, or `k` if there is none. */
  ghost function LastLevel(g: Region, ops: seq<Op>, k: nat): nat
    decreases |ops|
  {
    if ops == [] then k else LastLevel(g, ops[1..], if ops[0].Malloc? then FitLevel(g.length, ops[0].size) else k)
  }

  lemma {:induction false} RunKeepsPacked(g: Region, h: Heap, ops: seq<Op>, k: nat)
    requires Packed(g, h, k) && LegalRun(g, h, ops) && NeverDeeper(g, ops, k)
    ensures Packed(g, Run(g, h, ops), LastLevel(g, ops, k))
    decreases |ops|
  {
    if ops != [] {
      var h' := Step(g, h, ops[0]);
      match ops[0]
      case Malloc(size) =>
        PackedAtShallowerLevel(g, h, FitLevel(g.length, size), k);
        MallocKeepsPacked(g, h, size, h');
        RunKeepsPacked(g, h', ops[1..], FitLevel(g.length, size));
      case _ =>
        TouchKeepsPacked(g, h, ops[0], k, h');
        RunKeepsPacked(g, h', ops[1..], k);
    }
  }

  /** Every request falls on a level that is no deeper than this one. */
  ghost function DeepestLevel(g: Region): nat { FitLevel(g.length, 0) }

  lemma FreshIsPacked(g: Region, h: Heap, k: nat)
    requires Fresh(g, h)
    ensures Packed(g, h, k)
  {
  }

  /** Over every run of requests whose levels never deepen, with writes and
      frees in between, all blocks lie in the region, are pairwise disjoint,
      and keep their headers. */
  lemma BlocksNeverOverlap(g: Region, h: Heap, ops: seq<Op>)
    requires Fresh(g, h) && LegalRun(g, h, ops) && NeverDeeper(g, ops, DeepestLevel(g))
    ensures Separate(g, Run(g, h, ops).blocks) && ValidHeap(g, Run(g, h, ops))
  {
    FreshIsPacked(g, h, DeepestLevel(g));
    RunKeepsPacked(g, h, ops, DeepestLevel(g));
  }

  /** No request is smaller than one before it, nor than `least`. */
  ghost predicate NonDecreasing(ops: seq<Op>, least: nat)
    decreases |ops|
  {
    ops == [] ||
    if ops[0].Malloc? then least <= ops[0].size && NonDecreasing(ops[1..], ops[0].size)
    else NonDecreasing(ops[1..], least)
  }

  /** Requests that never shrink are such a run. */
  lemma {:induction false} GrowingSizesNeverDeeper(g: Region, ops: seq<Op>, least: nat)
    requires NonDecreasing(ops, least)
    ensures NeverDeeper(g, ops, FitLevel(g.length, least))
    decreases |ops|
  {
    if ops != [] {
      if ops[0].Malloc? {
        FitLevelAntitone(g.length, least, ops[0].size);
        GrowingSizesNeverDeeper(g, ops[1..], ops[0].size);
      } else {
        GrowingSizesNeverDeeper(g, ops[1..], least);
      }
    }
  }

  // ---------- when a smaller request is safe ----------

  lemma {:induction false} RunThenStep(g: Region, h: Heap, ops: seq<Op>, op: Op)
    requires Placed(g, h) && LegalRun(g, h, ops + [op])
    ensures LegalRun(g, h, ops) && Legal(g, Run(g, h, ops), op)
    ensures Run(g, h, ops + [op]) == Step(g, Run(g, h, ops), op)
    decreases |ops|
  {
    if ops == [] {
      assert [op][1..] == [];
    } else {
      assert (ops + [op])[1..] == ops[1..] + [op];
      RunThenStep(g, Step(g, h, ops[0]), ops[1..], op);
    }
  }

  /** The levels of the run never deepen, and do not get shallower than that of `m`. */
  ghost predicate DownToLevelOf(g: Region, h: Heap, ops: seq<Op>, m: nat)
    requires Placed(g, h)
  {
    && LegalRun(g, h, ops) && NeverDeeper(g, ops, DeepestLevel(g))
    && LastLevel(g, ops, DeepestLevel(g)) >= FitLevel(g.length, m)
  }

  /** On a zeroed region the first node of the level is granted. */
  lemma FreshGrantsBase(g: Region, h: Heap, m: nat)
    requires Fresh(g, h) && Legal(g, h, Malloc(m))
    ensures Search(h.mem, g.base, g.length, m) == Some(g.base)
  {
    SearchAtFitLevel(h.mem, g.base, g.length, m);
    NodesShape(g.base, g.length, FitLevel(g.length, m));
    assert g.base in Nodes(g.base, g.length, FitLevel(g.length, m));
  }

  lemma {:induction false} SecondNode(base: nat, length: nat, k: nat)
    requires k >= 1
    ensures Pow2(k) >= 2 && |Nodes(base, length, k)| == Pow2(k)
    ensures Nodes(base, length, k)[1] == base + LevelLength(length, k)
    decreases k
  {
    NodesShape(base, length, k);
    if k > 1 {
      SecondNode(base, length / 2, k - 1);
    } else {
      assert Nodes(base, length / 2, 0) == [base];
      assert LevelLength(length, 1) == LevelLength(length / 2, 0);
    }
  }

  /** A request on a deeper level than the one block at the region's start is granted inside that block. */
  lemma SmallRequestLandsInside(g: Region, h: Heap, m: nat, s: nat)
    requires Fresh(g, h) && Legal(g, h, Malloc(m)) && Legal(g, h, Malloc(s))
    requires FitLevel(g.length, s) > FitLevel(g.length, m)
    ensures Step(g, h, Malloc(m)).blocks == [Block(g.base, m)]
    ensures exists a :: g.base < a <= g.base + m && Search(Step(g, h, Malloc(m)).mem, g.base, g.length, s) == Some(a)
  {
    FreshGrantsBase(g, h, m);
    var h' := Step(g, h, Malloc(m));
    var k := FitLevel(g.length, s);
    var nodes := Nodes(g.base, g.length, k);
    SecondNode(g.base, g.length, k);
    NodesShape(g.base, g.length, k);
    assert nodes[1] in nodes;
    FitLevelIsDeepestUsable(g.length, s, k);
    FitLevelIsDeepestUsable(g.length, m, k);
    SearchAtFitLevel(h'.mem, g.base, g.length, s);
  }

  lemma RunFirst(g: Region, h: Heap, op: Op, h1: Heap, rest: seq<Op>)
    requires Placed(g, h) && Legal(g, h, op) && h1 == Step(g, h, op) && LegalRun(g, h1, rest)
    ensures LegalRun(g, h, [op] + rest) && Run(g, h, [op] + rest) == Run(g, h1, rest)
  {
    var ops := [op] + rest;
    assert ops[0] == op && ops[1..] == rest;
  }

  lemma RunOfOne(g: Region, h: Heap, op: Op)
    requires Placed(g, h) && Legal(g, h, op)
    ensures LegalRun(g, h, [op]) && Run(g, h, [op]) == Step(g, h, op)
  {
    assert [op] + [] == [op];
    RunFirst(g, h, op, Step(g, h, op), []);
  }

  lemma RunOfTwo(g: Region, h: Heap, op: Op, op': Op)
    requires Placed(g, h) && Legal(g, h, op) && Legal(g, Step(g, h, op), op')
    ensures LegalRun(g, h, [op] + [op']) && Run(g, h, [op] + [op']) == Step(g, Step(g, h, op), op')
  {
    RunOfOne(g, Step(g, h, op), op');
    RunFirst(g, h, op, Step(g, h, op), [op']);
  }

  lemma OverlapAfterGrowth(g: Region, h: Heap, m: nat, s: nat)
    requires Fresh(g, h) && Legal(g, h, Malloc(m)) && Legal(g, h, Malloc(s))
    requires FitLevel(g.length, s) > FitLevel(g.length, m)
    ensures DownToLevelOf(g, h, [Malloc(m)], m) && LegalRun(g, h, [Malloc(m)] + [Malloc(s)])
    ensures !Separate(g, Run(g, h, [Malloc(m)] + [Malloc(s)]).blocks)
  {
    RunOfOne(g, h, Malloc(m));
    RunOfTwo(g, h, Malloc(m), Malloc(s));
    assert [Malloc(m)][1..] == [];
    FitLevelAntitone(g.length, 0, m);
    SmallRequestLandsInside(g, h, m, s);
    var blocks := Run(g, h, [Malloc(m)] + [Malloc(s)]).blocks;
    assert blocks[0] == Block(g.base, m) && g.base < blocks[1].addr <= g.base + m;
  }

  /** After runs down to the level of requests of size `m`, a further request
      is safe whatever the history was if and only if its level is not deeper
      than that of `m`. */
  lemma SafeAfterGrowthIff(g: Region, h: Heap, m: nat, s: nat)
    requires Fresh(g, h) && Legal(g, h, Malloc(m)) && Legal(g, h, Malloc(s))
    ensures (forall ops :: DownToLevelOf(g, h, ops, m) && LegalRun(g, h, ops + [Malloc(s)])
                     ==> Separate(g, Run(g, h, ops + [Malloc(s)]).blocks))
            <==> FitLevel(g.length, s) <= FitLevel(g.length, m)
  {
    if FitLevel(g.length, s) <= FitLevel(g.length, m) {
      forall ops | DownToLevelOf(g, h, ops, m) && LegalRun(g, h, ops + [Malloc(s)])
        ensures Separate(g, Run(g, h, ops + [Malloc(s)]).blocks)
      {
        SafeAfterRun(g, h, ops, s);
      }
    } else {
      OverlapAfterGrowth(g, h, m, s);
    }
  }

  lemma SafeAfterRun(g: Region, h: Heap, ops: seq<Op>, s: nat)
    requires Fresh(g, h) && LegalRun(g, h, ops + [Malloc(s)])
    requires LegalRun(g, h, ops) && NeverDeeper(g, ops, DeepestLevel(g))
    requires LastLevel(g, ops, DeepestLevel(g)) >= FitLevel(g.length, s)
    ensures Separate(g, Run(g, h, ops + [Malloc(s)]).blocks)
  {
    var h1 := Run(g, h, ops);
    RunThenStep(g, h, ops, Malloc(s));
    FreshIsPacked(g, h, DeepestLevel(g));
    RunKeepsPacked(g, h, ops, DeepestLevel(g));
    PackedAtShallowerLevel(g, h1, FitLevel(g.length, s), LastLevel(g, ops, DeepestLevel(g)));
    MallocKeepsPacked(g, h1, s, Step(g, h1, Malloc(s)));
  }

  // ---------- capacity for one size ----------

  ghost function Mallocs(ops: seq<Op>): nat
    decreases |ops|
  {
    if ops == [] then 0 else (if ops[0].Malloc? then 1 else 0) + Mallocs(ops[1..])
  }

  ghost predicate AllOfSize(ops: seq<Op>, size: nat) {
    forall i :: 0 <= i < |ops| && ops[i].Malloc? ==> ops[i].size == size
  }

  /** The first `n` nodes of the level, and no others, have blocks of `size` words. */
  ghost predicate Filled(g: Region, h: Heap, size: nat, n: nat) {
    var k := FitLevel(g.length, size);
    && n == |h.blocks| <= |Nodes(g.base, g.length, k)|
    && forall i :: 0 <= i < n ==> h.blocks[i] == Block(Nodes(g.base, g.length, k)[i], size)
  }

  lemma NodeFreeIff(g: Region, h: Heap, size: nat, n: nat, nodes: seq<nat>, i: nat)
    requires 1 <= size && size + 1 <= g.length && Packed(g, h, FitLevel(g.length, size)) && Filled(g, h, size, n)
    requires nodes == Nodes(g.base, g.length, FitLevel(g.length, size)) && i < |nodes|
    ensures nodes[i] < g.base + g.length <= |h.mem| && (h.mem[nodes[i]] == 0 <==> n <= i)
  {
    var k := FitLevel(g.length, size);
    NodesShape(g.base, g.length, k);
    FitLevelIsDeepestUsable(g.length, size, k);
    FreeIffNotTaken(g, h, k, nodes[i]);
    if i < n { assert h.blocks[i] in h.blocks; }
  }

  lemma NextNodeIsGranted(g: Region, h: Heap, size: nat, n: nat, nodes: seq<nat>)
    requires 1 <= size && size + 1 <= g.length && Packed(g, h, FitLevel(g.length, size)) && Filled(g, h, size, n)
    requires nodes == Nodes(g.base, g.length, FitLevel(g.length, size))
    ensures Search(h.mem, g.base, g.length, size) == if n < |nodes| then Some(nodes[n]) else None
  {
    SearchAtFitLevel(h.mem, g.base, g.length, size);
    NodesShape(g.base, g.length, FitLevel(g.length, size));
    forall i | 0 <= i < |nodes|
      ensures nodes[i] < |h.mem| && (h.mem[nodes[i]] == 0 <==> n <= i)
    {
      NodeFreeIff(g, h, size, n, nodes, i);
    }
    if n < |nodes| { assert nodes[n] in nodes; }
  }

  lemma GrantedBlocks(g: Region, h: Heap, size: nat, h': Heap)
    requires Placed(g, h) && Legal(g, h, Malloc(size)) && h' == Step(g, h, Malloc(size))
    ensures h'.blocks == match Search(h.mem, g.base, g.length, size)
                         case None => h.blocks
                         case Some(a) => h.blocks + [Block(a, size)]
  {
  }

  lemma FilledMalloc(g: Region, h: Heap, size: nat, n: nat, nodes: seq<nat>, blocks: seq<Block>)
    requires 1 <= size && size + 1 <= g.length && Packed(g, h, FitLevel(g.length, size)) && Filled(g, h, size, n)
    requires nodes == Nodes(g.base, g.length, FitLevel(g.length, size))
    requires blocks == match Search(h.mem, g.base, g.length, size)
                       case None => h.blocks
                       case Some(a) => h.blocks + [Block(a, size)]
    ensures blocks == if n < |nodes| then h.blocks + [Block(nodes[n], size)] else h.blocks
  {
    NextNodeIsGranted(g, h, size, n, nodes);
  }

  lemma FilledByOne(g: Region, h: Heap, size: nat, n: nat, nodes: seq<nat>, h': Heap)
    requires nodes == Nodes(g.base, g.length, FitLevel(g.length, size)) && Filled(g, h, size, n) && n < |nodes|
    requires h'.blocks == h.blocks + [Block(nodes[n], size)]
    ensures Filled(g, h', size, n + 1)
  {
  }

  lemma FilledStep(g: Region, h: Heap, op: Op, size: nat, n: nat, nodes: seq<nat>, h': Heap)
    requires 1 <= size && size + 1 <= g.length && Packed(g, h, FitLevel(g.length, size)) && Filled(g, h, size, n)
    requires nodes == Nodes(g.base, g.length, FitLevel(g.length, size))
    requires Legal(g, h, op) && (op.Malloc? ==> op.size == size)
    requires h' == Step(g, h, op)
    ensures Packed(g, h', FitLevel(g.length, size))
    ensures Filled(g, h', size, if op.Malloc? && n < |nodes| then n + 1 else n)
  {
    if op.Malloc? {
      MallocKeepsPacked(g, h, size, h');
      GrantedBlocks(g, h, size, h');
      FilledMalloc(g, h, size, n, nodes, h'.blocks);
      if n < |nodes| { FilledByOne(g, h, size, n, nodes, h'); }
    } else {
      TouchKeepsPacked(g, h, op, FitLevel(g.length, size), h');
    }
  }

  lemma {:induction false} FilledRun(g: Region, h: Heap, ops: seq<Op>, size: nat, n: nat, nodes: seq<nat>)
    requires 1 <= size && size + 1 <= g.length && Packed(g, h, FitLevel(g.length, size)) && Filled(g, h, size, n)
    requires nodes == Nodes(g.base, g.length, FitLevel(g.length, size)) && LegalRun(g, h, ops) && AllOfSize(ops, size)
    ensures Packed(g, Run(g, h, ops), FitLevel(g.length, size))
    ensures Filled(g, Run(g, h, ops), size, if n + Mallocs(ops) <= |nodes| then n + Mallocs(ops) else |nodes|)
    decreases |ops|
  {
    if ops != [] {
      var h' := Step(g, h, ops[0]);
      FilledStep(g, h, ops[0], size, n, nodes, h');
      FilledRun(g, h', ops[1..], size, if ops[0].Malloc? && n < |nodes| then n + 1 else n, nodes);
    }
  }

  /** With requests of one size only, exactly as many succeed as the level has
      nodes, at the nodes' ascending addresses, and every later one gets NULL;
      frees in between change nothing, since freed blocks are never reused. */
  lemma ExactCapacity(g: Region, h: Heap, ops: seq<Op>, size: nat)
    requires Fresh(g, h) && LegalRun(g, h, ops) && AllOfSize(ops, size) && 1 <= size && size + 1 <= g.length
    ensures var d, blocks := FitLevel(g.length, size), Run(g, h, ops).blocks;
            && |blocks| == (if Mallocs(ops) <= Pow2(d) then Mallocs(ops) else Pow2(d))
            && (forall i, j :: 0 <= i < j < |blocks| ==> blocks[i].addr + LevelLength(g.length, d) <= blocks[j].addr)
            && (Search(Run(g, h, ops).mem, g.base, g.length, size) == None <==> Mallocs(ops) >= Pow2(d))
  {
    var nodes := Nodes(g.base, g.length, FitLevel(g.length, size));
    NodesShape(g.base, g.length, FitLevel(g.length, size));
    FilledRun(g, h, ops, size, 0, nodes);
    NextNodeIsGranted(g, Run(g, h, ops), size, |Run(g, h, ops).blocks|, nodes);
  }
}
