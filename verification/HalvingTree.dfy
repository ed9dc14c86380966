/**
  The tree of halved blocks that the allocator of kernel/memory/pmm.c walks.
  It is never stored: a node is only an address (the word that would be the
  block's header), and its children are its own address and the address half
  a length further on.
*/
module HalvingTree {

  const BLOCK_SIZE: nat := 4096

  /** The number of nodes of level `k`. */
  function Pow2(k: nat): (r: nat)
    ensures r >= 1
  {
    if k == 0 then 1 else 2 * Pow2(k - 1)
  }

  /** The length, in words, of every node of level `k`; halving rounds down. */
  function LevelLength(length: nat, k: nat): nat
    decreases k
  {
    if k == 0 then length else LevelLength(length / 2, k - 1)
  }

  /** The addresses of the nodes of level `k`, from left to right. */
  function Nodes(base: nat, length: nat, k: nat): seq<nat>
    decreases k
  {
    if k == 0 then [base] else Nodes(base, length / 2, k - 1) + Nodes(base + length / 2, length / 2, k - 1)
  }

  /** Level `k` can serve a request: its nodes hold `size` words and a header,
      and only nodes longer than BLOCK_SIZE were halved to reach it. */
  ghost predicate Usable(length: nat, size: nat, k: nat) {
    LevelLength(length, k) >= size + 1 && forall j :: 0 <= j < k ==> LevelLength(length, j) > BLOCK_SIZE
  }

  /** The level that a request falls on. */
  function FitLevel(length: nat, size: nat): nat
    decreases length
  {
    if length <= BLOCK_SIZE || length / 2 <= size then 0 else 1 + FitLevel(length / 2, size)
  }

  lemma {:induction false} LevelLengthAntitone(length: nat, j: nat, k: nat)
    requires j <= k
    ensures LevelLength(length, k) <= LevelLength(length, j)
    decreases k
  {
    if j > 0 {
      LevelLengthAntitone(length / 2, j - 1, k - 1);
    } else if k > 0 {
      LevelLengthAntitone(length / 2, 0, k - 1);
    }
  }

  /** FitLevel is the deepest usable level, so its nodes are the smallest that fit. */
  lemma {:induction false} FitLevelIsDeepestUsable(length: nat, size: nat, k: nat)
    requires size + 1 <= length
    ensures Usable(length, size, k) <==> k <= FitLevel(length, size)
    decreases length
  {
    if k > 0 {
      var half := length / 2;
      assert LevelLength(length, 0) == length;
      if length > BLOCK_SIZE && half > size {
        FitLevelIsDeepestUsable(half, size, k - 1);
        assert forall j :: 0 < j <= k ==> LevelLength(length, j) == LevelLength(half, j - 1);
        if Usable(half, size, k - 1) {
          forall j | 0 <= j < k
            ensures LevelLength(length, j) > BLOCK_SIZE
          {
            if j > 0 { assert LevelLength(half, j - 1) > BLOCK_SIZE; }
          }
        }
        if Usable(length, size, k) {
          forall j | 0 <= j < k - 1
            ensures LevelLength(half, j) > BLOCK_SIZE
          {
            assert LevelLength(length, j + 1) > BLOCK_SIZE;
          }
        }
      } else if length > BLOCK_SIZE {
        LevelLengthAntitone(half, 0, k - 1);
      }
    }
  }

  lemma {:induction false} FitLevelAntitone(length: nat, small: nat, large: nat)
    requires small <= large
    ensures FitLevel(length, large) <= FitLevel(length, small)
    decreases length
  {
    if length > BLOCK_SIZE && length / 2 > large {
      FitLevelAntitone(length / 2, small, large);
    }
  }

  /** The nodes of a level are as many as a full binary tree has, lie inside
      the region, and follow each other without overlap. */
  lemma {:induction false} NodesShape(base: nat, length: nat, k: nat)
    ensures |Nodes(base, length, k)| == Pow2(k)
    ensures Nodes(base, length, k)[0] == base
    ensures forall i :: 0 <= i < Pow2(k) ==>
              base <= Nodes(base, length, k)[i] && Nodes(base, length, k)[i] + LevelLength(length, k) <= base + length
    ensures forall i, j :: 0 <= i < j < Pow2(k) ==>
              Nodes(base, length, k)[i] + LevelLength(length, k) <= Nodes(base, length, k)[j]
    decreases k
  {
    if k > 0 {
      NodesShape(base, length / 2, k - 1);
      NodesShape(base + length / 2, length / 2, k - 1);
    }
  }

  /** A request leaves the whole of a region exactly if the region is longer
      than 4096 words and half of it is longer than the request. */
  lemma HalvedIff(length: nat, size: nat)
    ensures FitLevel(length, size) >= 1 <==> length > 4096 && length / 2 > size
    ensures length > 4096 && length / 2 > size ==> FitLevel(length, size) == 1 + FitLevel(length / 2, size)
  {
  }

  /** The smallest blocks that are ever handed out: from 2048 to 4096 words, if the region is larger. */
  lemma {:induction false} SmallestBlocks(length: nat)
    requires length > 4096
    ensures 2048 <= LevelLength(length, FitLevel(length, 0)) <= 4096
    decreases length
  {
    if length / 2 > 4096 {
      SmallestBlocks(length / 2);
    }
  }

  lemma {:induction false} LevelLengthHalves(length: nat, k: nat)
    ensures LevelLength(length, k + 1) == LevelLength(length, k) / 2
    decreases k
  {
    if k > 0 {
      LevelLengthHalves(length / 2, k - 1);
    }
  }

  /** Below a node that was halved all nodes are shorter. */
  lemma LevelsShrink(length: nat, j: nat, k: nat)
    requires j < k && LevelLength(length, j) > BLOCK_SIZE
    ensures LevelLength(length, k) < LevelLength(length, j)
  {
    LevelLengthHalves(length, j);
    LevelLengthAntitone(length, j + 1, k);
  }

  /** The halving stops at small nodes, or where the halves are too small. */
  lemma {:induction false} FitLevelStops(length: nat, size: nat)
    ensures var last := LevelLength(length, FitLevel(length, size)); last <= BLOCK_SIZE || last / 2 <= size
    decreases length
  {
    if length > BLOCK_SIZE && length / 2 > size {
      FitLevelStops(length / 2, size);
    }
  }

  /** Two nodes of one level are the same node or disjoint. */
  lemma NodesDisjoint(base: nat, length: nat, k: nat, a: nat, b: nat)
    requires a in Nodes(base, length, k) && b in Nodes(base, length, k) && a < b
    ensures a + LevelLength(length, k) <= b
  {
    NodesShape(base, length, k);
  }

  lemma InEither(left: seq<nat>, right: seq<nat>, a: nat)
    ensures a in left + right <==> a in left || a in right
  {
  }

  /** Every node of a shallower level is also a node of each deeper one. */
  lemma {:induction false} NodesOfShallowerLevel(base: nat, length: nat, j: nat, k: nat, a: nat)
    requires j <= k && a in Nodes(base, length, j)
    ensures a in Nodes(base, length, k)
    decreases j
  {
    if j == 0 {
      NodesShape(base, length, k);
      assert Nodes(base, length, k)[0] == base;
    } else {
      var half := length / 2;
      if a in Nodes(base, half, j - 1) {
        NodesOfShallowerLevel(base, half, j - 1, k - 1, a);
      } else {
        NodesOfShallowerLevel(base + half, half, j - 1, k - 1, a);
      }
      InEither(Nodes(base, half, k - 1), Nodes(base + half, half, k - 1), a);
    }
  }

  /** The ancestor at level `j` of a node of the deeper level `k`. */
  ghost function Ancestor(base: nat, length: nat, j: nat, k: nat, a: nat): (p: nat)
    requires j <= k && a in Nodes(base, length, k)
    ensures p in Nodes(base, length, j)
    ensures p <= a && a + LevelLength(length, k) <= p + LevelLength(length, j)
    decreases j
  {
    if j == 0 then
      NodesShape(base, length, k);
      base
    else
      var half := length / 2;
      if a in Nodes(base, half, k - 1) then Ancestor(base, half, j - 1, k - 1, a)
      else Ancestor(base + half, half, j - 1, k - 1, a)
  }
}
