/**
  The physical memory allocator of kernel/memory/pmm.c. Physical memory is one
  array of 64-bit words; addresses, lengths and sizes are counted in words.
  Every block is a header word that holds the block's size, then the payload.
*/
module Allocator {
  import opened Arithmetic
  import opened HalvingTree
  import opened Options

  const WORD_LIMIT: nat := 0x1_0000_0000_0000_0000
  /** The words that 64-bit byte addresses can reach. */
  const ADDRESS_LIMIT: nat := 0x2000_0000_0000_0000

  type Word = w: int | 0 <= w < WORD_LIMIT

  // ---------- what the allocator computes ----------

  ghost predicate AllBelow(nodes: seq<nat>, limit: nat) {
    forall i :: 0 <= i < |nodes| ==> nodes[i] < limit
  }

  /** The first of `nodes` whose header reads as free. */
  function FirstFree(mem: seq<Word>, nodes: seq<nat>): Option<nat>
    requires AllBelow(nodes, |mem|)
  {
    if nodes == [] then None
    else if mem[nodes[0]] == 0 then Some(nodes[0])
    else FirstFree(mem, nodes[1..])
  }

  /** The header address that a request gets. Only the smallest region checks that the request fits. */
  function Search(mem: seq<Word>, base: nat, length: nat, size: nat): Option<nat>
    requires 1 <= length && base + length <= |mem|
  {
    if length <= BLOCK_SIZE && length < size + 1 then None
    else
      NodesBelow(base, length, FitLevel(length, size), |mem|);
      FirstFree(mem, Nodes(base, length, FitLevel(length, size)))
  }

  function Zeros(n: nat): (z: seq<Word>)
    ensures |z| == n
  {
    seq(n, _ => 0)
  }

  /** Memory after a block of `size` words is claimed at header address `a`. */
  function Claimed(mem: seq<Word>, a: nat, size: Word): (r: seq<Word>)
    requires a + size + 1 <= |mem|
    ensures |r| == |mem|
    ensures forall i :: 0 <= i < |mem| ==>
              r[i] == if i == a then size else if a < i <= a + size then 0 else mem[i]
  {
    mem[..a] + [size] + Zeros(size) + mem[a + size + 1..]
  }

  function Pow256(k: nat): (r: nat)
    requires k <= 8
    ensures r >= 1
  {
    if k == 0 then 1 else if k == 1 then 0x100 else if k == 2 then 0x1_0000 else if k == 3 then 0x100_0000
    else if k == 4 then 0x1_0000_0000 else if k == 5 then 0x100_0000_0000 else if k == 6 then 0x1_0000_0000_0000
    else if k == 7 then 0x100_0000_0000_0000 else WORD_LIMIT
  }

  /** A word with its `k` lowest bytes cleared. */
  function ClearLowBytes(w: Word, k: nat): Word
    requires k <= 8
  {
    w - w % Pow256(k)
  }

  /** Word number `i` once the first `q` words, and `r` bytes of the next one, are cleared. */
  function ClearedWord(w: Word, i: int, q: nat, r: nat): Word
    requires r < 8
  {
    if 0 <= i < q then 0 else if i == q then ClearLowBytes(w, r) else w
  }

  /** Memory after the first `n` bytes from word `p` are cleared. */
  function BytesCleared(mem: seq<Word>, p: nat, n: nat): seq<Word>
    requires p + (n + 7) / 8 <= |mem|
  {
    seq(|mem|, i requires 0 <= i < |mem| => ClearedWord(mem[i], i - p, n / 8, n % 8))
  }

  // ---------- what the search means ----------

  lemma NodesBelow(base: nat, length: nat, k: nat, limit: nat)
    requires 1 <= length && base + length <= limit
    ensures AllBelow(Nodes(base, length, k), limit)
  {
    NodesShape(base, length, k);
    if k > 0 { NodesBelowDeep(base, length, k, limit); }
  }

  lemma {:induction false} NodesBelowDeep(base: nat, length: nat, k: nat, limit: nat)
    requires 1 <= length && base + length <= limit
    ensures AllBelow(Nodes(base, length, k), limit)
    decreases k
  {
    if k > 0 && length > 1 {
      NodesBelowDeep(base, length / 2, k - 1, limit);
      NodesBelowDeep(base + length / 2, length / 2, k - 1, limit);
    } else if k > 0 {
      NodesOfEmpty(base, k);
    }
  }

  lemma {:induction false} NodesOfEmpty(base: nat, k: nat)
    ensures AllBelow(Nodes(base, 0, k), base + 1)
    ensures AllBelow(Nodes(base, 1, k), base + 1)
  {
    if k > 0 { NodesOfEmpty(base, k - 1); }
  }

  lemma {:induction false} FirstFreeIsFirst(mem: seq<Word>, nodes: seq<nat>)
    requires AllBelow(nodes, |mem|)
    ensures match FirstFree(mem, nodes)
            case None => forall i :: 0 <= i < |nodes| ==> mem[nodes[i]] != 0
            case Some(a) => exists i :: 0 <= i < |nodes| && nodes[i] == a && mem[a] == 0 &&
                              forall j :: 0 <= j < i ==> mem[nodes[j]] != 0
  {
    if nodes != [] && mem[nodes[0]] != 0 {
      FirstFreeIsFirst(mem, nodes[1..]);
      match FirstFree(mem, nodes[1..])
      case None =>
        forall i | 0 <= i < |nodes| ensures mem[nodes[i]] != 0 {
          if i > 0 { assert nodes[i] == nodes[1..][i - 1]; }
        }
      case Some(a) =>
        var i :| 0 <= i < |nodes[1..]| && nodes[1..][i] == a && mem[a] == 0 &&
          forall j :: 0 <= j < i ==> mem[nodes[1..][j]] != 0;
        assert nodes[i + 1] == a;
        forall j | 0 <= j < i + 1 ensures mem[nodes[j]] != 0 {
          if j > 0 { assert nodes[j] == nodes[1..][j - 1]; }
        }
    } else if nodes != [] {
      assert nodes[0] == nodes[0];
    }
  }

  /** First fit: among all nodes of the deepest level that holds the request,
      the search gives the lowest-addressed one with a zero header, and NULL
      exactly when there is none. */
  lemma SearchIsLowestFree(mem: seq<Word>, base: nat, length: nat, size: nat)
    requires size + 1 <= length && base + length <= |mem|
    ensures exists k ::
              (forall j :: Usable(length, size, j) <==> 0 <= j <= k) && SearchAtLevel(mem, base, length, size, k)
  {
    var k := FitLevel(length, size);
    forall j: nat ensures Usable(length, size, j) <==> j <= k {
      FitLevelIsDeepestUsable(length, size, j);
    }
    SearchAtFitLevel(mem, base, length, size);
  }

  /** The result of the search, said of the nodes of level `k` alone. */
  ghost predicate SearchAtLevel(mem: seq<Word>, base: nat, length: nat, size: nat, k: nat)
    requires 1 <= length && base + length <= |mem|
  {
    match Search(mem, base, length, size)
    case None => forall b :: b in Nodes(base, length, k) ==> b < |mem| && mem[b] != 0
    case Some(a) =>
      && a in Nodes(base, length, k) && a + size + 1 <= base + length && mem[a] == 0
      && forall b :: b in Nodes(base, length, k) && b < a ==> mem[b] != 0
  }

  lemma SearchAtFitLevel(mem: seq<Word>, base: nat, length: nat, size: nat)
    requires size + 1 <= length && base + length <= |mem|
    ensures SearchAtLevel(mem, base, length, size, FitLevel(length, size))
  {
    var k := FitLevel(length, size);
    var nodes := Nodes(base, length, k);
    NodesBelow(base, length, k, |mem|);
    NodesShape(base, length, k);
    FirstFreeIsFirst(mem, nodes);
    FitLevelIsDeepestUsable(length, size, k);
  }

  lemma {:induction false} FirstFreeOfConcat(mem: seq<Word>, left: seq<nat>, right: seq<nat>)
    requires AllBelow(left, |mem|) && AllBelow(right, |mem|)
    ensures FirstFree(mem, left + right) ==
            if FirstFree(mem, left).Some? then FirstFree(mem, left) else FirstFree(mem, right)
  {
    if left == [] {
      assert left + right == right;
    } else {
      assert (left + right)[1..] == left[1..] + right;
      FirstFreeOfConcat(mem, left[1..], right);
    }
  }

  /** One level of halving: the search of a region is the search of its left half, then of its right half. */
  lemma SearchHalves(mem: seq<Word>, base: nat, length: nat, size: nat)
    requires BLOCK_SIZE < length && length / 2 > size && base + length <= |mem|
    ensures var half := length / 2;
            Search(mem, base, length, size) ==
            if Search(mem, base, half, size).Some? then Search(mem, base, half, size)
            else Search(mem, base + half, half, size)
    ensures mem[base] == 0 ==> Search(mem, base, length, size) == Some(base)
  {
    var half, k := length / 2, FitLevel(length, size);
    NodesBelow(base, length, k, |mem|);
    NodesBelow(base, half, k - 1, |mem|);
    NodesBelow(base + half, half, k - 1, |mem|);
    FirstFreeOfConcat(mem, Nodes(base, half, k - 1), Nodes(base + half, half, k - 1));
    NodesShape(base, length, k);
  }

  lemma OneNode(mem: seq<Word>, base: nat, length: nat)
    requires 1 <= length && base + length <= |mem|
    ensures AllBelow(Nodes(base, length, 0), |mem|)
    ensures FirstFree(mem, Nodes(base, length, 0)) == if mem[base] == 0 then Some(base) else None
  {
    assert Nodes(base, length, 0) == [base];
    assert [base][1..] == [];
  }

  /** A block leaves the region exactly when a request is granted that is larger than the region. */
  lemma GrantedBlockStaysInside(mem: seq<Word>, base: nat, length: nat, size: nat)
    requires 1 <= length && base + length <= |mem|
    requires Search(mem, base, length, size).Some?
    ensures Search(mem, base, length, size).value + size + 1 <= base + length <==> size + 1 <= length
  {
    if size + 1 <= length {
      SearchAtFitLevel(mem, base, length, size);
    } else {
      OneNode(mem, base, length);
    }
  }

  /** An oversized request on an empty large region is granted, past the region's end. */
  lemma OversizedRequestIsGranted(mem: seq<Word>, base: nat, length: nat, size: nat)
    requires BLOCK_SIZE < length < size + 1 && base + length <= |mem| && mem[base] == 0
    ensures Search(mem, base, length, size) == Some(base)
  {
    OneNode(mem, base, length);
  }

  // ---------- the code ----------

  /** memset of `n` whole words with zero. */
  method ZeroWords(mem: array<Word>, p: nat, n: nat)
    requires p + n <= mem.Length
    modifies mem
    ensures forall i :: 0 <= i < mem.Length ==> mem[i] == if p <= i < p + n then 0 else old(mem[i])
  {
    for i := 0 to n
      invariant forall j :: 0 <= j < mem.Length ==> mem[j] == if p <= j < p + i then 0 else old(mem[j])
    {
      mem[p + i] := 0;
    }
  }

  /** Writes the header, clears the payload and returns the payload's address. */
  method Claim(mem: array<Word>, a: nat, size: Word) returns (p: nat)
    requires a + size + 1 <= mem.Length
    modifies mem
    ensures p == a + 1
    ensures mem[..] == Claimed(old(mem[..]), a, size)
  {
    mem[a] := size;
    ZeroWords(mem, a + 1, size);
    p := a + 1;
  }

  /** The block that was found is claimed, and the address behind its header returned. */
  ghost predicate Granted(mem: seq<Word>, mem': seq<Word>, found: Option<nat>, size: nat, r: Option<nat>) {
    match found
    case None => r == None && mem' == mem
    case Some(a) => r == Some(a + 1) && a + size + 1 <= |mem| && size < WORD_LIMIT && mem' == Claimed(mem, a, size)
  }

  /** What the search finds is granted. */
  ghost predicate Served(mem: seq<Word>, mem': seq<Word>, base: nat, length: nat, size: nat, r: Option<nat>)
    requires 1 <= length && base + length <= |mem|
  {
    Granted(mem, mem', Search(mem, base, length, size), size, r)
  }

  lemma ServedBlock(mem: seq<Word>, base: nat, length: nat, size: nat)
    requires 1 <= length <= BLOCK_SIZE && base + length <= |mem| && size < WORD_LIMIT
    ensures size + 1 <= length && mem[base] == 0 ==>
              Served(mem, Claimed(mem, base, size), base, length, size, Some(base + 1))
    ensures !(size + 1 <= length && mem[base] == 0) ==> Served(mem, mem, base, length, size, None)
  {
    OneNode(mem, base, length);
  }

  /** The first node of a large region, when the halves are too small or just large enough. */
  lemma ServedWhole(mem: seq<Word>, base: nat, length: nat, size: nat)
    requires BLOCK_SIZE < length && length / 2 <= size + 1 && base + length <= |mem|
    requires base + size + 1 <= |mem| && size < WORD_LIMIT
    ensures mem[base] == 0 ==> Served(mem, Claimed(mem, base, size), base, length, size, Some(base + 1))
    ensures length / 2 <= size && mem[base] != 0 ==> Served(mem, mem, base, length, size, None)
  {
    if length / 2 <= size {
      OneNode(mem, base, length);
    } else {
      SearchHalves(mem, base, length, size);
    }
  }

  lemma ServedHalves(mem: seq<Word>, mem1: seq<Word>, mem2: seq<Word>, base: nat, length: nat, size: nat,
                     r1: Option<nat>, r2: Option<nat>)
    requires BLOCK_SIZE < length && length / 2 > size && base + length <= |mem|
    requires Served(mem, mem1, base, length / 2, size, r1)
    requires r1 == None ==> Served(mem1, mem2, base + length / 2, length / 2, size, r2)
    ensures r1 == None ==> Served(mem, mem2, base, length, size, r2)
    ensures r1 != None ==> Served(mem, mem1, base, length, size, r1)
  {
    SearchHalves(mem, base, length, size);
  }

  method BMalloc(mem: array<Word>, base: nat, length: nat, size: nat) returns (r: Option<nat>)
    requires 1 <= length && base + length <= mem.Length <= ADDRESS_LIMIT
    requires BLOCK_SIZE < length ==> base + size + 1 <= mem.Length  // the code does not look
    requires size < ADDRESS_LIMIT
    modifies mem
    ensures Served(old(mem[..]), mem[..], base, length, size, r)
    decreases length
  {
    ghost var before := mem[..];
    if length <= BLOCK_SIZE {
      ServedBlock(before, base, length, size);
      if size + 1 <= length && mem[base] == 0 {
        var p := Claim(mem, base, size);
        return Some(p);
      } else {
        return None;
      }
    }

    var half := length / 2;
    if half <= size + 1 {
      ServedWhole(before, base, length, size);
    }
    if half <= size + 1 && mem[base] == 0 {
      var p := Claim(mem, base, size);
      return Some(p);
    } else if half > size {
      var b := BMalloc(mem, base, half, size);
      ghost var left, after := b, mem[..];
      if b == None {
        b := BMalloc(mem, base + half, half, size);
      }
      ServedHalves(before, after, mem[..], base, length, size, left, b);
      return b;
    }
    return None;
  }

  lemma ClearNextByte(w: Word, k: nat)
    requires k < 8
    ensures var v := ClearLowBytes(w, k);
            ClearLowBytes(w, k + 1) == v - (v / Pow256(k) % 256) * Pow256(k)
  {
    var p := Pow256(k);
    assert Pow256(k + 1) == 256 * p;
    SplitDigit(w, p, 256);
    WithoutRemainder(w, p);
  }

  /** A word without its `k`-th byte. */
  function WithoutByte(w: Word, k: nat): Word
    requires k < 8
  {
    var p := Pow256(k);
    DropByte(w, p);
    w - (w / p % 256) * p
  }

  lemma DropByte(w: Word, p: nat)
    requires p >= 1
    ensures 0 <= w - (w / p % 256) * p <= w
  {
    SplitDigit(w, p, 256);
    Euclid(w, 256 * p);
    MulMonotone(p, 0, w / p % 256);
  }

  lemma NextByteOfWord(w: Word, r: nat)
    requires r < 8
    ensures ClearLowBytes(w, r + 1) == WithoutByte(ClearLowBytes(w, r), r)
  {
    ClearNextByte(w, r);
  }

  lemma NoByteLeft(w: Word)
    ensures ClearLowBytes(w, 8) == 0
  {
    QuotientUnique(w, WORD_LIMIT, 0, w);
  }

  lemma NoByteCleared(w: Word)
    ensures ClearLowBytes(w, 0) == w
  {
    QuotientUnique(w, 1, w, 0);
  }

  /** The word in which byte `r` is cleared, and the words around it. */
  lemma NextByteAt(w: Word, i: int, q: nat, r: nat)
    requires r < 8
    ensures ClearedWord(w, i, if r == 7 then q + 1 else q, if r == 7 then 0 else r + 1)
            == if i == q then WithoutByte(ClearedWord(w, i, q, r), r) else ClearedWord(w, i, q, r)
  {
    if i == q {
      NextByteOfWord(w, r);
      if r == 7 { NoByteLeft(w); }
    } else if i == q + 1 && r == 7 {
      NoByteCleared(w);
    }
  }

  lemma NextDigit(n: nat) returns (q: nat, r: nat)
    ensures q == n / 8 && r == n % 8 < 8 && (n + 8) / 8 == q + 1
    ensures (n + 1) / 8 == (if r == 7 then q + 1 else q) && (n + 1) % 8 == if r == 7 then 0 else r + 1
  {
    q, r := n / 8, n % 8;
  }

  lemma NextByteCleared(before: seq<Word>, p: nat, n: nat, m: seq<Word>, m': seq<Word>)
    requires p + (n + 8) / 8 <= |before| && m == BytesCleared(before, p, n)
    requires m' == m[p + n / 8 := WithoutByte(m[p + n / 8], n % 8)]
    ensures m' == BytesCleared(before, p, n + 1)
  {
    var q, r := NextDigit(n);
    forall j | 0 <= j < |m'| ensures m'[j] == BytesCleared(before, p, n + 1)[j] {
      NextByteAt(before[j], j - p, q, r);
    }
  }

  /** memset of `n` bytes with zero, one byte after the other. */
  method ZeroBytes(mem: array<Word>, p: nat, n: nat)
    requires p + (n + 7) / 8 <= mem.Length
    modifies mem
    ensures mem[..] == BytesCleared(old(mem[..]), p, n)
  {
    ghost var before := mem[..];
    for i := 0 to n
      invariant mem[..] == BytesCleared(before, p, i)
    {
      ghost var m := mem[..];
      mem[p + i / 8] := WithoutByte(mem[p + i / 8], i % 8);
      NextByteCleared(before, p, i, m, mem[..]);
    }
  }

  /** The size that the header gives counts words, but as many bytes are cleared. */
  method KFree(mem: array<Word>, p: nat)
    requires 1 <= p <= mem.Length && p + (mem[p - 1] as int + 7) / 8 <= mem.Length
    modifies mem
    ensures mem[..] == BytesCleared(old(mem[..]), p, old(mem[p - 1]))
  {
    var size := mem[p - 1];
    ZeroBytes(mem, p, size);
  }
}
