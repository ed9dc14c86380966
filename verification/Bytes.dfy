/** Memory as bytes, and numbers in it, least significant byte first. */
module Bytes {
  type Byte = b: int | 0 <= b < 256

  const U16: nat := 0x1_0000
  const U32: nat := 0x1_0000_0000
  const U64: nat := 0x1_0000_0000_0000_0000

  /** 64-bit wrap-around of the sum of two 64-bit numbers. */
  function Wrapped(sum: nat): nat { if sum < U64 then sum else sum - U64 }

  /** The widths of stored numbers, in bytes. */
  function Word(): nat { 2 }
  function Dword(): nat { 4 }
  function Qword(): nat { 8 }

  /** The byte at `a`. Statements about parts of memory speak of this function,
      so that the solver uses them only where it is mentioned. */
  function At(mem: seq<Byte>, a: nat): Byte
    requires a < |mem|
  {
    mem[a]
  }

  /** The number of `n` bytes at `a`. */
  function NumberAt(mem: seq<Byte>, a: nat, n: nat): nat
    requires a + n <= |mem|
    decreases n
  {
    if n == 0 then 0 else mem[a] + 256 * NumberAt(mem, a + 1, n - 1)
  }

  predicate Fits(v: nat, n: nat) {
    if n == 0 then v == 0 else Fits(v / 256, n - 1)
  }

  lemma {:induction false} FitsAfter(v: nat, n: nat)
    requires n >= 2
    ensures Fits(v, n) <==> Fits(v / U16, n - 2)
  {
    assert Fits(v, n) == Fits(v / 256, n - 1);
    assert v / 256 / 256 == v / U16;
  }

  lemma FitsWord(v: nat)
    requires v < U16
    ensures Fits(v, Word())
  {
    FitsAfter(v, Word());
    assert Fits(0, 0);
  }

  lemma FitsDword(v: nat)
    requires v < U32
    ensures Fits(v, Dword())
  {
    FitsAfter(v, Dword());
    FitsWord(v / U16);
  }

  lemma FitsQword(v: nat)
    requires v < U64
    ensures Fits(v, Qword())
  {
    FitsAfter(v, Qword());
    FitsAfter(v / U16, Qword() - 2);
    assert v / U16 / U16 == v / U32;
    FitsDword(v / U32);
  }

  lemma SliceOfSlice(m: seq<Byte>, a: nat, n: nat, from: nat, to: nat)
    requires a + n <= |m| && from <= to <= n
    ensures m[a..a + n][from..to] == m[a + from..a + to]
  {
    var s, t := m[a..a + n][from..to], m[a + from..a + to];
    forall i | 0 <= i < to - from ensures s[i] == t[i] {
      assert s[i] == m[a..a + n][from + i] == m[a + (from + i)];
    }
  }

  lemma StoredSlice(m: seq<Byte>, a: nat, bytes: seq<Byte>)
    requires a + |bytes| <= |m|
    ensures Stored(m, a, bytes)[a..a + |bytes|] == bytes
    ensures OnlyAt(m, Stored(m, a, bytes), a, |bytes|)
  {
  }

  /** Memory with `bytes` at `a`. */
  function Stored(mem: seq<Byte>, a: nat, bytes: seq<Byte>): (r: seq<Byte>)
    requires a + |bytes| <= |mem|
    ensures |r| == |mem|
    ensures forall i :: 0 <= i < |mem| ==> r[i] == if a <= i < a + |bytes| then bytes[i - a] else mem[i]
  {
    seq(|mem|, i requires 0 <= i < |mem| => if a <= i < a + |bytes| then bytes[i - a] else mem[i])
  }

  /** `m'` is `m` but for the `n` bytes at `a`. */
  ghost predicate OnlyAt(m: seq<Byte>, m': seq<Byte>, a: nat, n: nat) {
    |m| == |m'| && forall x {:trigger At(m', x)} :: 0 <= x < |m| && !(a <= x < a + n) ==> At(m', x) == At(m, x)
  }

  /** The `n` bytes at `a` are zero. */
  ghost predicate ZeroAt(m: seq<Byte>, a: nat, n: nat) {
    forall x {:trigger At(m, x)} :: a <= x < a + n && x < |m| ==> At(m, x) == 0
  }

  lemma {:induction false} NumberSame(m: seq<Byte>, m': seq<Byte>, a: nat, n: nat)
    requires a + n <= |m| && a + n <= |m'| && forall x {:trigger At(m', x)} :: a <= x < a + n ==> At(m', x) == At(m, x)
    ensures NumberAt(m', a, n) == NumberAt(m, a, n)
    decreases n
  {
    if n > 0 {
      assert At(m', a) == At(m, a);
      NumberSame(m, m', a + 1, n - 1);
    }
  }

  /** Writes the `n` bytes of `v`, least significant first. */
  method StoreNumber(mem: array<Byte>, a: nat, n: nat, v: nat)
    requires a + n <= mem.Length && Fits(v, n)
    modifies mem
    ensures NumberAt(mem[..], a, n) == v && OnlyAt(old(mem[..]), mem[..], a, n)
    decreases n
  {
    if n > 0 {
      mem[a] := v % 256;
      ghost var m := mem[..];
      StoreNumber(mem, a + 1, n - 1, v / 256);
      assert At(mem[..], a) == At(m, a);
    }
  }
}
