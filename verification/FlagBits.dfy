/**
  What an addition does to the flags, bit by bit: six bits are set by the sum
  and all others stay (section 3.4.3.1 of the Intel SDM, Volume 1).
*/
module FlagBits {
  import opened Arithmetic
  import opened Machine

  /** The worth of bit `k`. */
  function Weight(k: nat): (w: nat)
    ensures w >= 1
  {
    if k == 0 then 1 else 2 * Weight(k - 1)
  }

  predicate BitAt(f: int, k: nat) { f / Weight(k) % 2 == 1 }

  // ---------- bits of integers ----------

  lemma QuotientIs(x: int, p: int, q: int, r: int)
    requires 0 <= r < p && x == p * q + r
    ensures x / p == q && x % p == r
  {
    var e := q - x / p;
    assert p * e == x % p - r;
    if e > 0 { MulMonotone(p, 1, e); }
    if e < 0 { MulMonotone(p, e, -1); }
  }

  lemma QuotientShifts(x: int, p: int, n: int)
    requires p >= 1
    ensures (x + n * p) / p == x / p + n
  {
    assert p * (x / p + n) == p * (x / p) + n * p;
    QuotientIs(x + n * p, p, x / p + n, x % p);
  }

  lemma QuotientTwice(x: int, p: int, m: int)
    requires p >= 1 && m >= 1
    ensures p * m >= 1 && x / (p * m) == x / p / m
  {
    var q := x / p;
    assert p * (q % m) + x % p < p * m by {
      assert p * (q % m) <= p * (m - 1);
      assert p * (m - 1) == p * m - p;
    }
    assert 0 <= p * (q % m) && p * m >= p;
    assert x == (p * m) * (q / m) + (p * (q % m) + x % p) by {
      assert q == m * (q / m) + q % m;
      assert p * q == p * (m * (q / m)) + p * (q % m);
      assert p * (m * (q / m)) == (p * m) * (q / m);
    }
    QuotientIs(x, p * m, q / m, p * (q % m) + x % p);
  }

  lemma {:induction false} WeightSplits(j: nat, k: nat)
    requires j < k
    ensures Weight(k) == Weight(j) * (2 * Weight(k - j - 1))
    decreases k
  {
    if k > j + 1 {
      WeightSplits(j, k - 1);
      var w, m := Weight(j), Weight(k - j - 2);
      assert 2 * (w * (2 * m)) == w * (2 * (2 * m));
    } else {
      assert Weight(0) == 1;
    }
  }

  // ---------- setting one bit ----------

  /** Setting a bit adds its worth, takes it away, or does nothing. */
  lemma WithFlagAdds(f: int, w: nat, b: bool) returns (n: int)
    requires w > 0
    ensures WithFlag(f, w, b) == f + n * w && (f / w + n) / 2 == f / w / 2
    ensures (f / w + n) % 2 == if b then 1 else 0
  {
    n := (if b then 1 else 0) - f / w % 2;
    assert n * w == (if b then w else 0) - f / w % 2 * w;
  }

  lemma WithFlagSets(f: int, w: nat, b: bool)
    requires w > 0
    ensures WithFlag(f, w, b) / w % 2 == if b then 1 else 0
  {
    var n := WithFlagAdds(f, w, b);
    QuotientShifts(f, w, n);
  }

  lemma HigherBitStays(f: int, f': int, w: int, m: int, n: int)
    requires w >= 1 && m >= 1 && f' == f + n * w && (f / w + n) / 2 == f / w / 2
    ensures w * (2 * m) >= 1 && f' / (w * (2 * m)) == f / (w * (2 * m))
  {
    QuotientShifts(f, w, n);
    QuotientTwice(f, w, 2 * m);
    QuotientTwice(f', w, 2 * m);
    QuotientTwice(f / w, 2, m);
    QuotientTwice(f' / w, 2, m);
  }

  lemma LowerBitStays(f: int, f': int, v: int, m: int, n: int)
    requires v >= 1 && f' == f + n * (v * (2 * m))
    ensures f' / v % 2 == f / v % 2
  {
    assert n * (v * (2 * m)) == (2 * (n * m)) * v;
    QuotientShifts(f, v, 2 * (n * m));
    QuotientIs(f / v + 2 * (n * m), 2, f / v / 2 + n * m, f / v % 2);
  }

  /** Setting one bit leaves every other one. */
  lemma WithFlagKeeps(f: int, j: nat, b: bool, k: nat)
    requires j != k
    ensures BitAt(WithFlag(f, Weight(j), b), k) == BitAt(f, k)
  {
    var n := WithFlagAdds(f, Weight(j), b);
    if j < k {
      WeightSplits(j, k);
      HigherBitStays(f, WithFlag(f, Weight(j), b), Weight(j), Weight(k - j - 1), n);
    } else {
      WeightSplits(k, j);
      LowerBitStays(f, WithFlag(f, Weight(j), b), Weight(k), Weight(j - k - 1), n);
    }
  }

  // ---------- the flags of an addition ----------

  /** How many of the eight bits of `b` are set. */
  function Ones(b: nat): nat {
    b % 2 + b / 2 % 2 + b / 4 % 2 + b / 8 % 2 + b / 16 % 2 + b / 32 % 2 + b / 64 % 2 + b / 128 % 2
  }

  lemma EvenPart(sum: nat, q: nat, r: nat)
    requires sum == 2 * q + r
    ensures sum % 2 == r % 2
  {
  }

  lemma FourHalves(a: nat, b: nat, c: nat, d: nat) returns (q: nat)
    ensures a + b + c + d == 2 * q + (a % 2 + b % 2 + c % 2 + d % 2)
  {
    q := a / 2 + b / 2 + c / 2 + d / 2;
  }

  lemma ParityOfOnes(b: nat)
    ensures EvenParity(b) <==> Ones(b) % 2 == 0
  {
    var low := FourHalves(b, b / 2, b / 4, b / 8);
    var high := FourHalves(b / 16, b / 32, b / 64, b / 128);
    EvenPart(b + b / 2 + b / 4 + b / 8 + b / 16 + b / 32 + b / 64 + b / 128, low + high, Ones(b));
  }

  /** The carry (bit 0), parity (2), adjust (4), zero (6), sign (7) and overflow
      (11) flags tell of the 64-bit sum; all other bits are as before, so
      interrupts (9) are as allowed, and strings go as far up or down (10), as before. */
  ghost predicate AddedFlags(before: int, after: int, x: int, y: int) {
    var sum := if x + y >= 0x1_0000_0000_0000_0000 then x + y - 0x1_0000_0000_0000_0000 else x + y;
    var negative := sum >= 0x8000_0000_0000_0000;
    && (after % 2 == 1 <==> x + y >= 0x1_0000_0000_0000_0000)
    && (after / 0x4 % 2 == 1 <==> sum >= 0 && Ones(sum % 256) % 2 == 0)
    && (after / 0x10 % 2 == 1 <==> x % 16 + y % 16 >= 16)
    && (after / 0x40 % 2 == 1 <==> sum == 0)
    && (after / 0x80 % 2 == 1 <==> negative)
    && (after / 0x800 % 2 == 1 <==>
          (x >= 0x8000_0000_0000_0000) == (y >= 0x8000_0000_0000_0000) != negative)
    && after / 0x200 % 2 == before / 0x200 % 2 && after / 0x400 % 2 == before / 0x400 % 2
    && OthersKept(before, after)
  }

  ghost predicate OthersKept(before: int, after: int) {
    forall k: nat :: k !in {0, 2, 4, 6, 7, 11} ==> (BitAt(after, k) <==> BitAt(before, k))
  }

  lemma Weights()
    ensures Weight(0) == 0x1 && Weight(2) == 0x4 && Weight(4) == 0x10 && Weight(6) == 0x40 && Weight(7) == 0x80
    ensures Weight(9) == 0x200 && Weight(10) == 0x400 && Weight(11) == 0x800
  {
    WeightsBelow8();
    assert Weight(8) == 2 * Weight(7) && Weight(9) == 2 * Weight(8);
    assert Weight(10) == 2 * Weight(9) && Weight(11) == 2 * Weight(10);
  }

  lemma WeightsBelow8()
    ensures Weight(0) == 1 && Weight(2) == 4 && Weight(4) == 16 && Weight(6) == 64 && Weight(7) == 128
  {
    assert Weight(1) == 2 * Weight(0) && Weight(2) == 2 * Weight(1) && Weight(3) == 2 * Weight(2);
    assert Weight(4) == 2 * Weight(3) && Weight(5) == 2 * Weight(4) && Weight(6) == 2 * Weight(5);
  }

  /** `f'` is `f` but for bit `j`, which is `b`. */
  ghost predicate OneBit(f: int, f': int, j: nat, b: bool) {
    (BitAt(f', j) <==> b) && forall k: nat :: k != j ==> (BitAt(f', k) <==> BitAt(f, k))
  }

  lemma WithFlagIsOneBit(f: int, f': int, w: nat, j: nat, b: bool)
    requires w == Weight(j) && f' == WithFlag(f, w, b)
    ensures OneBit(f, f', j, b)
  {
    WithFlagSets(f, w, b);
    forall k: nat | k != j ensures BitAt(f', k) <==> BitAt(f, k) {
      WithFlagKeeps(f, j, b, k);
    }
  }

  /** The six bits are as told, and the others as before. */
  ghost predicate SixBits(f: int, f': int, c: bool, p: bool, a: bool, z: bool, n: bool, o: bool) {
    && (BitAt(f', 0) <==> c) && (BitAt(f', 2) <==> p) && (BitAt(f', 4) <==> a)
    && (BitAt(f', 6) <==> z) && (BitAt(f', 7) <==> n) && (BitAt(f', 11) <==> o)
    && OthersKept(f, f')
  }

  lemma SixFlagsSetBits(f: int, c: bool, p: bool, a: bool, z: bool, n: bool, o: bool)
    ensures SixBits(f, SixFlags(f, c, p, a, z, n, o), c, p, a, z, n, o)
  {
    Weights();
    var f1 := WithFlag(f, 0x1, c);
    var f2 := WithFlag(f1, 0x4, p);
    var f3 := WithFlag(f2, 0x10, a);
    var f4 := WithFlag(f3, 0x40, z);
    var f5 := WithFlag(f4, 0x80, n);
    var f6 := WithFlag(f5, 0x800, o);
    WithFlagIsOneBit(f, f1, 0x1, 0, c);
    WithFlagIsOneBit(f1, f2, 0x4, 2, p);
    WithFlagIsOneBit(f2, f3, 0x10, 4, a);
    WithFlagIsOneBit(f3, f4, 0x40, 6, z);
    WithFlagIsOneBit(f4, f5, 0x80, 7, n);
    WithFlagIsOneBit(f5, f6, 0x800, 11, o);
    SixSteps(f, f1, f2, f3, f4, f5, f6, c, p, a, z, n, o);
  }

  lemma SixSteps(f: int, f1: int, f2: int, f3: int, f4: int, f5: int, f6: int,
                 c: bool, p: bool, a: bool, z: bool, n: bool, o: bool)
    requires OneBit(f, f1, 0, c) && OneBit(f1, f2, 2, p) && OneBit(f2, f3, 4, a)
    requires OneBit(f3, f4, 6, z) && OneBit(f4, f5, 7, n) && OneBit(f5, f6, 11, o)
    ensures SixBits(f, f6, c, p, a, z, n, o)
  {
  }

  /** What an addition does to the flags, bit by bit. */
  lemma AddFlagsAre(flags: int, x: int, y: int)
    requires 0 <= x < 0x1_0000_0000_0000_0000 && 0 <= y < 0x1_0000_0000_0000_0000
    ensures AddedFlags(flags, AddFlags(flags, x, y), x, y)
  {
    var sum := Wrap(x + y);
    var half := WORDS / 2;
    SixFlagsSetBits(flags, x + y >= WORDS, EvenParity(sum % 256), x % 16 + y % 16 >= 16, sum == 0, sum >= half,
                    (x >= half) == (y >= half) && (x >= half) != (sum >= half));
    ParityOfOnes(sum % 256);
    SixBitsAdded(flags, AddFlags(flags, x, y), x, y, sum);
  }

  lemma SixBitsAdded(f: int, f': int, x: int, y: int, sum: int)
    requires 0 <= x < 0x1_0000_0000_0000_0000 && 0 <= y < 0x1_0000_0000_0000_0000 && sum == Wrap(x + y)
    requires SixBits(f, f', x + y >= WORDS, Ones(sum % 256) % 2 == 0, x % 16 + y % 16 >= 16, sum == 0,
                     sum >= 0x8000_0000_0000_0000,
                     (x >= 0x8000_0000_0000_0000) == (y >= 0x8000_0000_0000_0000)
                     && (x >= 0x8000_0000_0000_0000) != (sum >= 0x8000_0000_0000_0000))
    ensures AddedFlags(f, f', x, y)
  {
    Weights();
    assert BitAt(f', 9) <==> BitAt(f, 9);
    assert BitAt(f', 10) <==> BitAt(f, 10);
  }
}
