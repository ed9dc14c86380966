/**
  Two requests in a row, the second one not smaller, in any heap: when both are
  granted, and that their blocks are apart. `initialise_initrd` of
  kernel/filesystem/initrd.c makes such a pair, after the two requests of
  kernel/kernel.c that leave the heap with overlapping blocks.
*/
module RequestPairs {
  import opened Allocator
  import opened AllocatorRuns
  import opened HalvingTree
  import opened Options

  /** Both requests are granted: the level of the second one has a free node
      that the first one does not get. */
  ghost predicate ServesBoth(g: Region, mem: seq<Word>, first: nat, second: nat)
    requires 1 <= g.length && g.base + g.length <= |mem|
  {
    exists b: nat :: FreeNode(g, mem, FitLevel(g.length, second), b) && Search(mem, g.base, g.length, first) != Some(b)
  }

  ghost predicate FreeNode(g: Region, mem: seq<Word>, k: nat, b: nat) {
    b in Nodes(g.base, g.length, k) && b < |mem| && mem[b] == 0
  }

  ghost predicate HasFreeNode(g: Region, mem: seq<Word>, k: nat) {
    exists b: nat :: FreeNode(g, mem, k, b)
  }

  /** A request is granted exactly if its level has a free node. */
  lemma GrantedIff(g: Region, mem: seq<Word>, size: nat)
    requires size + 1 <= g.length && g.base + g.length <= |mem|
    ensures Search(mem, g.base, g.length, size).Some? <==> HasFreeNode(g, mem, FitLevel(g.length, size))
  {
    var k := FitLevel(g.length, size);
    SearchAtFitLevel(mem, g.base, g.length, size);
    match Search(mem, g.base, g.length, size)
    case None =>
    case Some(a) =>
      assert FreeNode(g, mem, k, a);
  }

  /** What a granted request does to the nodes of its own level. */
  ghost predicate OnlyNodeTaken(g: Region, mem: seq<Word>, mem': seq<Word>, k: nat, a: nat) {
    && |mem'| == |mem| && FreeNode(g, mem, k, a)
    && forall b: nat :: FreeNode(g, mem', k, b) <==> FreeNode(g, mem, k, b) && b != a
  }

  lemma ClaimTakesOneNode(g: Region, mem: seq<Word>, size: nat, a: nat, mem': seq<Word>)
    requires 1 <= size && size + 1 <= g.length && g.base + g.length <= |mem| && size < WORD_LIMIT
    requires Search(mem, g.base, g.length, size) == Some(a) && a + size + 1 <= |mem| && mem' == Claimed(mem, a, size)
    ensures OnlyNodeTaken(g, mem, mem', FitLevel(g.length, size), a)
    ensures g.base <= a && a + size + 1 <= g.base + g.length
  {
    var k := FitLevel(g.length, size);
    SearchAtFitLevel(mem, g.base, g.length, size);
    FitLevelIsDeepestUsable(g.length, size, k);
    NodesShape(g.base, g.length, k);
    forall b | b in Nodes(g.base, g.length, k)
      ensures b < a || b == a || a + size < b
    {
      if a < b { NodesDisjoint(g.base, g.length, k, a, b); }
    }
  }

  /** A node of the second request's level is one of the first one's, too. */
  lemma SharedNode(g: Region, mem: seq<Word>, first: nat, second: nat, b: nat)
    requires first <= second && FreeNode(g, mem, FitLevel(g.length, second), b)
    ensures FreeNode(g, mem, FitLevel(g.length, first), b)
  {
    FitLevelAntitone(g.length, first, second);
    NodesOfShallowerLevel(g.base, g.length, FitLevel(g.length, second), FitLevel(g.length, first), b);
  }

  /** Of two nodes of the second level the one that is free is free for both. */
  lemma FreeAfterFirst(g: Region, mem: seq<Word>, mem': seq<Word>, first: nat, second: nat, a: nat, b: nat)
    requires first <= second && OnlyNodeTaken(g, mem, mem', FitLevel(g.length, first), a)
    ensures FreeNode(g, mem', FitLevel(g.length, second), b)
            <==> FreeNode(g, mem, FitLevel(g.length, second), b) && b != a
  {
    var j, k := FitLevel(g.length, second), FitLevel(g.length, first);
    if FreeNode(g, mem', j, b) { SharedNode(g, mem', first, second, b); }
    if FreeNode(g, mem, j, b) { SharedNode(g, mem, first, second, b); }
    assert FreeNode(g, mem', k, b) <==> FreeNode(g, mem, k, b) && b != a;
  }

  lemma FreeBesideFirst(g: Region, mem: seq<Word>, mem': seq<Word>, j: nat, a: nat, first: nat, second: nat)
    requires 1 <= g.length && g.base + g.length <= |mem| && j == FitLevel(g.length, second)
    requires Search(mem, g.base, g.length, first) == Some(a)
    requires forall b: nat :: FreeNode(g, mem', j, b) <==> FreeNode(g, mem, j, b) && b != a
    ensures HasFreeNode(g, mem', j) <==> ServesBoth(g, mem, first, second)
  {
    if HasFreeNode(g, mem', j) {
      var b: nat :| FreeNode(g, mem', j, b);
      assert FreeNode(g, mem, j, b);
    }
    if ServesBoth(g, mem, first, second) {
      var b: nat :| FreeNode(g, mem, j, b) && Search(mem, g.base, g.length, first) != Some(b);
      assert FreeNode(g, mem', j, b);
    }
  }

  /** In any heap: whether the second request is granted after the first one
      can be told before; and if the first one gets NULL, so does the second. */
  lemma SecondGrantedIff(g: Region, h: Heap, first: nat, second: nat, h': Heap)
    requires Placed(g, h) && Legal(g, h, Malloc(first)) && Legal(g, h, Malloc(second)) && first <= second
    requires h' == Step(g, h, Malloc(first))
    ensures Search(h'.mem, g.base, g.length, second).Some? <==> ServesBoth(g, h.mem, first, second)
    ensures Search(h.mem, g.base, g.length, first) == None ==> Search(h'.mem, g.base, g.length, second) == None
  {
    var j := FitLevel(g.length, second);
    GrantedIff(g, h.mem, first);
    GrantedIff(g, h'.mem, second);
    match Search(h.mem, g.base, g.length, first)
    case None =>
      forall b: nat ensures !FreeNode(g, h.mem, j, b) {
        if FreeNode(g, h.mem, j, b) { SharedNode(g, h.mem, first, second, b); }
      }
    case Some(a) =>
      SearchAtFitLevel(h.mem, g.base, g.length, first);
      ClaimTakesOneNode(g, h.mem, first, a, h'.mem);
      forall b: nat ensures FreeNode(g, h'.mem, j, b) <==> FreeNode(g, h.mem, j, b) && b != a {
        FreeAfterFirst(g, h.mem, h'.mem, first, second, a, b);
      }
      FreeBesideFirst(g, h.mem, h'.mem, j, a, first, second);
  }

  /** In any heap, whatever overlaps in it: the second block lies behind the first one. */
  lemma PairApart(g: Region, h: Heap, first: nat, second: nat, h': Heap, a: nat, b: nat)
    requires Placed(g, h) && Legal(g, h, Malloc(first)) && Legal(g, h, Malloc(second)) && first <= second
    requires h' == Step(g, h, Malloc(first)) && Search(h.mem, g.base, g.length, first) == Some(a)
    requires Search(h'.mem, g.base, g.length, second) == Some(b)
    ensures a + first + 1 <= b
  {
    var j, k := FitLevel(g.length, second), FitLevel(g.length, first);
    SearchAtFitLevel(h.mem, g.base, g.length, first);
    SearchAtFitLevel(h'.mem, g.base, g.length, second);
    ClaimTakesOneNode(g, h.mem, first, a, h'.mem);
    NodesShape(g.base, g.length, j);
    assert FreeNode(g, h'.mem, j, b);
    SharedNode(g, h'.mem, first, second, b);
    assert FreeNode(g, h.mem, k, b) && b != a;
    FitLevelIsDeepestUsable(g.length, first, k);
    NodesDisjoint(g.base, g.length, k, a, b);
  }

  /** On a zeroed region both requests are granted exactly if the second one falls below the top level. */
  lemma FreshServesBothIff(g: Region, h: Heap, first: nat, second: nat)
    requires Fresh(g, h) && Legal(g, h, Malloc(first)) && Legal(g, h, Malloc(second))
    ensures ServesBoth(g, h.mem, first, second) <==> FitLevel(g.length, second) >= 1
  {
    var j := FitLevel(g.length, second);
    FreshGrantsBase(g, h, first);
    NodesShape(g.base, g.length, j);
    if j >= 1 {
      SecondNode(g.base, g.length, j);
      FitLevelIsDeepestUsable(g.length, second, j);
      assert FreeNode(g, h.mem, j, Nodes(g.base, g.length, j)[1]);
    }
  }

  // ---------- the kernel's own requests ----------

  /** What kernel.c asks for before the ramdisk: a buffer for a sector, and one for a text. */
  const SECTOR_BUFFER: nat := 0x8000
  const TEXT_BUFFER: nat := 4096

  lemma {:induction false} TextBufferIsDeeper(length: nat)
    requires length > SECTOR_BUFFER
    ensures FitLevel(length, TEXT_BUFFER) > FitLevel(length, SECTOR_BUFFER)
    decreases length
  {
    if length / 2 > SECTOR_BUFFER {
      TextBufferIsDeeper(length / 2);
    }
  }

  /** The search gives node `i` if that one is free and the nodes before it are not. */
  lemma SearchGivesNode(g: Region, mem: seq<Word>, size: nat, nodes: seq<nat>, i: nat)
    requires size + 1 <= g.length && g.base + g.length <= |mem|
    requires nodes == Nodes(g.base, g.length, FitLevel(g.length, size)) && i < |nodes|
    requires nodes[i] < |mem| && mem[nodes[i]] == 0
    requires forall j :: 0 <= j < i ==> nodes[j] < |mem| && mem[nodes[j]] != 0
    ensures Search(mem, g.base, g.length, size) == Some(nodes[i])
  {
    SearchAtFitLevel(mem, g.base, g.length, size);
    NodesShape(g.base, g.length, FitLevel(g.length, size));
    assert nodes[i] in nodes;
    var a := Search(mem, g.base, g.length, size).value;
    var j :| 0 <= j < |nodes| && nodes[j] == a;
    assert j < i || j == i || i < j;
  }

  /** The words that the kernel writes into its two buffers: a sector, and a text of nine bytes. */
  const SECTOR_WORDS: nat := 64
  const TEXT_WORDS: nat := 2

  /** The second node of the text buffer's level. */
  function TextBufferAt(g: Region): nat { g.base + LevelLength(g.length, FitLevel(g.length, TEXT_BUFFER)) }

  /** A zeroed region, but for a header at its start and a sector behind it. */
  ghost predicate OneTaken(g: Region, mem: seq<Word>)
    requires g.base + g.length <= |mem|
  {
    forall i :: g.base <= i < g.base + g.length && !(g.base < i <= g.base + SECTOR_WORDS)
      ==> (mem[i] == 0 <==> i != g.base)
  }

  /** A zeroed region, but for headers at its start and at `c`, and for what the buffers behind them hold. */
  ghost predicate TwoTaken(g: Region, mem: seq<Word>, c: nat)
    requires g.base + g.length <= |mem|
  {
    forall i ::
      g.base <= i < g.base + g.length && !(g.base < i <= g.base + SECTOR_WORDS) && !(c < i <= c + TEXT_WORDS)
      ==> (mem[i] == 0 <==> i != g.base && i != c)
  }

  /** The text buffer lies wholly inside the sector buffer, behind the sector. */
  lemma TextBufferInside(g: Region)
    requires g.length > SECTOR_BUFFER
    ensures g.base + SECTOR_WORDS < TextBufferAt(g)
    ensures TextBufferAt(g) + TEXT_BUFFER <= g.base + SECTOR_BUFFER < g.base + g.length
  {
    FitLevelIsDeepestUsable(g.length, TEXT_BUFFER, FitLevel(g.length, TEXT_BUFFER));
    FitLevelStops(g.length, TEXT_BUFFER);
  }

  lemma TextBufferGranted(g: Region, mem: seq<Word>)
    requires g.length > SECTOR_BUFFER && g.base + g.length <= |mem| && OneTaken(g, mem)
    ensures Search(mem, g.base, g.length, TEXT_BUFFER) == Some(TextBufferAt(g))
  {
    var k := FitLevel(g.length, TEXT_BUFFER);
    TextBufferIsDeeper(g.length);
    TextBufferInside(g);
    NodesShape(g.base, g.length, k);
    SecondNode(g.base, g.length, k);
    SearchGivesNode(g, mem, TEXT_BUFFER, Nodes(g.base, g.length, k), 1);
  }

  /** In every region that can hold them: the text buffer lies wholly inside the payload of the sector buffer. */
  lemma KernelRequestsOverlap(g: Region, h: Heap)
    requires Fresh(g, h) && g.length > 0x8000
    ensures LegalRun(g, h, [Malloc(0x8000)] + [Malloc(4096)])
    ensures var r := Run(g, h, [Malloc(0x8000)] + [Malloc(4096)]);
            && r.blocks == [Block(g.base, 0x8000), Block(TextBufferAt(g), 4096)]
            && g.base < r.blocks[1].addr && r.blocks[1].End() <= r.blocks[0].End()
  {
    var h1 := Step(g, h, Malloc(SECTOR_BUFFER));
    FreshGrantsBase(g, h, SECTOR_BUFFER);
    TextBufferInside(g);
    TextBufferGranted(g, h1.mem);
    RunOfTwo(g, h, Malloc(SECTOR_BUFFER), Malloc(TEXT_BUFFER));
  }

  // ---------- the ramdisk after them ----------

  /** Both requests are granted after the kernel's own: their levels, and that of the text buffer, decide. */
  predicate GrantedAfterKernel(length: nat, first: nat, second: nat) {
    var text, j, k := FitLevel(length, 4096), FitLevel(length, second), FitLevel(length, first);
    j >= 2 || (j == 1 && k >= 2 && text >= 2 && !(k == 2 && text == 2))
  }

  lemma {:induction false} ThirdNode(base: nat, length: nat, k: nat)
    requires k >= 2
    ensures Pow2(k) >= 4 && |Nodes(base, length, k)| == Pow2(k)
    ensures Nodes(base, length, k)[2] == base + LevelLength(length, k - 1)
    decreases k
  {
    SecondNode(base, length / 2, k - 1);
    SecondNode(base, length, k - 1);
    NodesShape(base, length, k);
    NodesShape(base, length / 2, k - 1);
    NodesShape(base + length / 2, length / 2, k - 1);
    if k > 2 {
      ThirdNode(base, length / 2, k - 1);
    }
  }

  /** Two levels that are in use have nodes of different lengths. */
  lemma LengthsDiffer(length: nat, size: nat, size': nat, j: nat, k: nat)
    requires size + 1 <= length && size' + 1 <= length && j <= FitLevel(length, size) && k <= FitLevel(length, size')
    ensures LevelLength(length, j) == LevelLength(length, k) <==> j == k
  {
    FitLevelIsDeepestUsable(length, size, j);
    FitLevelIsDeepestUsable(length, size', k);
    if j < k { LevelsShrink(length, j, k); }
    if k < j { LevelsShrink(length, k, j); }
  }

  /** Nodes below the top are far apart, so none but the first one is in what the buffers hold. */
  lemma NodesOutsideBuffers(g: Region, size: nat, k: nat, x: nat)
    requires size + 1 <= g.length && g.length > SECTOR_BUFFER && k == FitLevel(g.length, size)
    requires x in Nodes(g.base, g.length, k)
    ensures !(g.base < x <= g.base + SECTOR_WORDS) && !(TextBufferAt(g) < x <= TextBufferAt(g) + TEXT_WORDS)
  {
    var text := FitLevel(g.length, TEXT_BUFFER);
    var deep := if text < k then k else text;
    TextBufferIsDeeper(g.length);
    FitLevelIsDeepestUsable(g.length, size, k);
    FitLevelIsDeepestUsable(g.length, TEXT_BUFFER, text);
    LevelLengthHalves(g.length, deep - 1);
    SecondNode(g.base, g.length, text);
    NodesShape(g.base, g.length, deep);
    NodesOfShallowerLevel(g.base, g.length, k, deep, x);
    NodesOfShallowerLevel(g.base, g.length, text, deep, TextBufferAt(g));
    NodesOfShallowerLevel(g.base, g.length, 0, deep, g.base);
    if g.base < x { NodesDisjoint(g.base, g.length, deep, g.base, x); }
    if TextBufferAt(g) < x { NodesDisjoint(g.base, g.length, deep, TextBufferAt(g), x); }
  }

  /** So a node is free unless one of the two buffers starts there. */
  lemma NodeFreeUnlessBuffer(g: Region, mem: seq<Word>, size: nat, k: nat, x: nat)
    requires size + 1 <= g.length && g.length > SECTOR_BUFFER && k == FitLevel(g.length, size)
    requires g.base + g.length <= |mem| && TwoTaken(g, mem, TextBufferAt(g)) && x in Nodes(g.base, g.length, k)
    ensures g.base <= x < g.base + g.length && (mem[x] == 0 <==> x != g.base && x != TextBufferAt(g))
  {
    NodesOutsideBuffers(g, size, k, x);
    NodesShape(g.base, g.length, k);
    FitLevelIsDeepestUsable(g.length, size, k);
  }

  /** Of the four nodes of a level, or more, at most three are taken. */
  lemma DeepServes(g: Region, mem: seq<Word>, first: nat, second: nat)
    requires g.base + g.length <= |mem| && TwoTaken(g, mem, TextBufferAt(g)) && g.length > SECTOR_BUFFER
    requires second + 1 <= g.length && FitLevel(g.length, second) >= 2
    ensures ServesBoth(g, mem, first, second)
  {
    var j := FitLevel(g.length, second);
    var nodes := Nodes(g.base, g.length, j);
    ThirdNode(g.base, g.length, j);
    NodesShape(g.base, g.length, j);
    FitLevelIsDeepestUsable(g.length, second, j);
    var c, taken := TextBufferAt(g), Search(mem, g.base, g.length, first);
    var i := if nodes[1] != c && taken != Some(nodes[1]) then 1
             else if nodes[2] != c && taken != Some(nodes[2]) then 2 else 3;
    assert g.base < nodes[1] < nodes[2] < nodes[3];
    NodeFreeUnlessBuffer(g, mem, second, j, nodes[i]);
    assert FreeNode(g, mem, j, nodes[i]);
  }

  /** Where the first request goes, if there are two nodes of the second one's level. */
  lemma FirstGoes(g: Region, mem: seq<Word>, first: nat, k: nat)
    requires g.base + g.length <= |mem| && TwoTaken(g, mem, TextBufferAt(g)) && g.length > SECTOR_BUFFER
    requires first + 1 <= g.length && k == FitLevel(g.length, first) >= 1
    ensures k != FitLevel(g.length, TEXT_BUFFER) ==>
              Search(mem, g.base, g.length, first) == Some(g.base + LevelLength(g.length, k))
    ensures k == FitLevel(g.length, TEXT_BUFFER) >= 2 ==>
              Search(mem, g.base, g.length, first) == Some(g.base + LevelLength(g.length, k - 1))
  {
    var nodes := Nodes(g.base, g.length, k);
    SecondNode(g.base, g.length, k);
    NodesShape(g.base, g.length, k);
    FitLevelIsDeepestUsable(g.length, first, k);
    LengthsDiffer(g.length, first, TEXT_BUFFER, k, FitLevel(g.length, TEXT_BUFFER));
    forall x | x in nodes ensures x < |mem| && (mem[x] == 0 <==> x != g.base && x != TextBufferAt(g)) {
      NodeFreeUnlessBuffer(g, mem, first, k, x);
    }
    if k != FitLevel(g.length, TEXT_BUFFER) {
      SearchGivesNode(g, mem, first, nodes, 1);
    } else if k >= 2 {
      ThirdNode(g.base, g.length, k);
      SearchGivesNode(g, mem, first, nodes, 2);
    }
  }

  /** The level of two nodes: the left one is taken, so all depends on the right one. */
  lemma ShallowServesIff(g: Region, mem: seq<Word>, first: nat, second: nat)
    requires g.base + g.length <= |mem| && TwoTaken(g, mem, TextBufferAt(g)) && g.length > SECTOR_BUFFER
    requires first <= second && second + 1 <= g.length && FitLevel(g.length, second) == 1
    ensures ServesBoth(g, mem, first, second) <==> GrantedAfterKernel(g.length, first, second)
  {
    var text, k := FitLevel(g.length, TEXT_BUFFER), FitLevel(g.length, first);
    var right := g.base + LevelLength(g.length, 1);
    SecondNode(g.base, g.length, 1);
    NodesShape(g.base, g.length, 1);
    assert Nodes(g.base, g.length, 1) == [g.base, right];
    FitLevelAntitone(g.length, first, second);
    FitLevelIsDeepestUsable(g.length, second, 1);
    FirstGoes(g, mem, first, k);
    TextBufferIsDeeper(g.length);
    LengthsDiffer(g.length, second, TEXT_BUFFER, 1, text);
    LengthsDiffer(g.length, second, first, 1, k);
    LengthsDiffer(g.length, second, first, 1, k - 1);
    NodeFreeUnlessBuffer(g, mem, second, 1, g.base);
    NodeFreeUnlessBuffer(g, mem, second, 1, right);
    assert FreeNode(g, mem, 1, right) <==> text != 1;
    assert forall b: nat :: FreeNode(g, mem, 1, b) ==> b == right;
  }

  /** After the kernel's own requests a pair is granted exactly under a condition on three levels. */
  lemma KernelServesIff(g: Region, mem: seq<Word>, first: nat, second: nat)
    requires g.base + g.length <= |mem| && TwoTaken(g, mem, TextBufferAt(g)) && g.length > SECTOR_BUFFER
    requires first <= second && second + 1 <= g.length
    ensures ServesBoth(g, mem, first, second) <==> GrantedAfterKernel(g.length, first, second)
  {
    var j := FitLevel(g.length, second);
    if j >= 2 {
      DeepServes(g, mem, first, second);
    } else if j == 1 {
      ShallowServesIff(g, mem, first, second);
    } else {
      assert Nodes(g.base, g.length, 0) == [g.base];
      assert forall b: nat :: !FreeNode(g, mem, 0, b);
    }
  }
}
