/**
  The allocator's words as bytes: a word is eight bytes, least significant
  first, as the rest of the kernel reads them.
*/
module WordBytes {
  import opened Allocator
  import opened Arithmetic
  import Bytes

  /** The byte at address `x` of a memory of words. */
  function ByteOf(words: seq<Word>, x: nat): Bytes.Byte
    requires x < 8 * |words|
  {
    words[x / 8] / Pow256(x % 8) % 256
  }

  /** The same memory, byte by byte. */
  ghost predicate SameMemory(words: seq<Word>, m: seq<Bytes.Byte>) {
    |m| == 8 * |words| && forall x {:trigger Bytes.At(m, x)} :: 0 <= x < |m| ==> Bytes.At(m, x) == ByteOf(words, x)
  }

  lemma Pow256Step(k: nat)
    requires k < 8
    ensures Pow256(k + 1) == 256 * Pow256(k)
  {
  }

  lemma ByteIn(words: seq<Word>, i: nat, k: nat)
    requires i < |words| && k < 8
    ensures ByteOf(words, 8 * i + k) == words[i] / Pow256(k) % 256
  {
  }

  /** What is left of the word above byte `k`. */
  lemma DropOne(w: Word, k: nat) returns (low: nat, rest: nat)
    requires k < 8
    ensures low == w / Pow256(k) % 256 && rest == w / Pow256(k + 1) && w / Pow256(k) == low + 256 * rest
  {
    low, rest := w / Pow256(k) % 256, w / Pow256(k + 1);
    Pow256Step(k);
    SplitDigit(w, Pow256(k), 256);
    Euclid(w / Pow256(k), 256);
  }

  lemma {:induction false} NumberFromByte(words: seq<Word>, m: seq<Bytes.Byte>, i: nat, k: nat, n: nat)
    requires SameMemory(words, m) && i < |words| && k + n == 8
    ensures Bytes.NumberAt(m, 8 * i + k, n) == words[i] / Pow256(k)
    decreases n
  {
    if n > 0 {
      var low, rest := DropOne(words[i], k);
      NumberFromByte(words, m, i, k + 1, n - 1);
      ByteIn(words, i, k);
      assert Bytes.At(m, 8 * i + k) == low;
    } else {
      QuotientUnique(words[i], Pow256(8), 0, words[i]);
    }
  }

  /** A number of eight bytes at a word's address is the word. */
  lemma WordIsNumber(words: seq<Word>, m: seq<Bytes.Byte>, i: nat)
    requires SameMemory(words, m) && i < |words|
    ensures 8 * i + 8 <= |m| && Bytes.NumberAt(m, 8 * i, Bytes.Qword()) == words[i]
  {
    NumberFromByte(words, m, i, 0, Bytes.Qword());
    assert words[i] / Pow256(0) == words[i];
  }

  // ---------- clearing bytes ----------

  lemma {:induction false} Pow256Splits(a: nat, b: nat)
    requires a + b <= 8
    ensures Pow256(a + b) == Pow256(a) * Pow256(b)
    decreases b
  {
    if b > 0 {
      Pow256Splits(a, b - 1);
      Pow256Step(a + b - 1);
      Pow256Step(b - 1);
      Associate(Pow256(a), 256, Pow256(b - 1));
    }
  }

  /** A multiple of a higher power has a zero in a lower place. */
  lemma LowerByteIsZero(p: nat, high: nat, q: nat)
    requires p >= 1
    ensures p * (256 * high) * q / p % 256 == 0
  {
    var x := 256 * high * q;
    assert p * (256 * high) * q == p * x;
    QuotientUnique(p * x, p, x, 0);
    QuotientUnique(x, 256, high * q, 0);
  }

  /** Places from `p` on do not see what was below. */
  lemma HigherByteStays(x: nat, w: nat, p: nat, m: nat, place: nat)
    requires p >= 1 && m >= 1 && x / p == w / p && place == p * m
    ensures place >= 1 && x / place == w / place
  {
    SplitDigit(w, p, m);
    SplitDigit(x, p, m);
  }

  /** Clearing the `r` lowest bytes of a word clears those and no others. */
  lemma ClearedByte(w: Word, r: nat, k: nat)
    requires r <= 8 && k < 8
    ensures ClearLowBytes(w, r) / Pow256(k) % 256 == if k < r then 0 else w / Pow256(k) % 256
  {
    if k < r {
      Pow256Splits(k, r - k);
      Pow256Step(r - k - 1);
      var q := w / Pow256(r);
      Euclid(w, Pow256(r));
      assert ClearLowBytes(w, r) == Pow256(k) * (256 * Pow256(r - k - 1)) * q;
      LowerByteIsZero(Pow256(k), Pow256(r - k - 1), q);
    } else {
      Pow256Splits(r, k - r);
      WithoutRemainder(w, Pow256(r));
      HigherByteStays(ClearLowBytes(w, r), w, Pow256(r), Pow256(k - r), Pow256(k));
    }
  }

  /** `k_free` and the bytes: exactly `n` of them are cleared, from the start of word `p` on. */
  lemma ClearedBytesAre(words: seq<Word>, p: nat, n: nat, x: nat)
    requires p + (n + 7) / 8 <= |words| && x < 8 * |words|
    ensures ByteOf(BytesCleared(words, p, n), x) == if 8 * p <= x < 8 * p + n then 0 else ByteOf(words, x)
  {
    var i, k, q, r := x / 8, x % 8, n / 8, n % 8;
    assert BytesCleared(words, p, n)[i] == ClearedWord(words[i], i - p, q, r);
    if i == p + q {
      ClearedByte(words[i], r, k);
    } else if p <= i < p + q {
      QuotientUnique(0, Pow256(k), 0, 0);
    }
  }
}
