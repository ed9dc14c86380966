/**
  How `runCommand` of kernel/devices/ahci.c writes a command into memory: the
  header of its slot, and the table that the header names.
*/
module AhciTable {
  import opened AhciCommand
  import opened AhciLayout
  import opened Arithmetic
  import opened Bytes

  const FIS_REG_H2D: Byte := 0x27
  /** The length of the command's FIS in words of four bytes. */
  const FIS_WORDS: nat := 5
  const TABLE_HEAD: nat := 128
  const PRD_SIZE: nat := 16
  const INTERRUPT_BIT: nat := 0x8000_0000

  // ---------- a descriptor in memory ----------

  /** The descriptor at `a`, as the hardware reads it. */
  function PrdAt(m: seq<Byte>, a: nat): Prd
    requires a + PRD_SIZE <= |m|
  {
    Prd(NumberAt(m, a, Dword()) + U32 * NumberAt(m, a + 4, Dword()),
        NumberAt(m, a + 12, Dword()) % COUNT_LIMIT + 1,
        NumberAt(m, a + 12, Dword()) >= INTERRUPT_BIT)
  }

  lemma DwordBelow(m: seq<Byte>, a: nat)
    requires a + 4 <= |m|
    ensures NumberAt(m, a, Dword()) < U32
  {
    assert NumberAt(m, a, Dword()) == m[a] + 256 * NumberAt(m, a + 1, Dword() - 1);
    assert NumberAt(m, a + 1, Dword() - 1) == m[a + 1] + 256 * NumberAt(m, a + 2, Dword() - 2);
    assert NumberAt(m, a + 2, Dword() - 2) == m[a + 2] + 256 * NumberAt(m, a + 3, Dword() - 3);
    assert NumberAt(m, a + 3, Dword() - 3) == m[a + 3] + 256 * NumberAt(m, a + 4, Dword() - 4);
  }

  lemma {:induction false} ZeroNumber(m: seq<Byte>, a: nat, n: nat)
    requires a + n <= |m| && ZeroAt(m, a, n)
    ensures NumberAt(m, a, n) == 0
    decreases n
  {
    if n > 0 {
      assert At(m, a) == 0;
      ZeroNumber(m, a + 1, n - 1);
    }
  }

  /** The two bit fields of the last word. */
  function WithCount(v: nat, c: nat): nat
    requires c < COUNT_LIMIT
  {
    v - v % COUNT_LIMIT + c
  }

  function WithInterrupt(v: nat): nat { v % INTERRUPT_BIT + INTERRUPT_BIT }

  lemma FieldsHold(v: nat, c: nat)
    requires v < U32 && c < COUNT_LIMIT
    ensures WithCount(v, c) < U32 && WithInterrupt(WithCount(v, c)) < U32
    ensures WithInterrupt(WithCount(v, c)) % COUNT_LIMIT == c && WithInterrupt(WithCount(v, c)) >= INTERRUPT_BIT
  {
    var q := v / COUNT_LIMIT;
    QuotientUnique(WithCount(v, c), COUNT_LIMIT, q, c);
    QuotientUnique(WithCount(v, c), INTERRUPT_BIT, q / 512, COUNT_LIMIT * (q % 512) + c);
    QuotientUnique(WithInterrupt(WithCount(v, c)), COUNT_LIMIT, q % 512 + 512, c);
  }

  /** One descriptor; the upper half of its address stays what it was. */
  method WritePrd(mem: array<Byte>, a: nat, address: nat, c: nat)
    requires a + PRD_SIZE <= mem.Length && c < COUNT_LIMIT
    modifies mem
    ensures OnlyAt(old(mem[..]), mem[..], a, PRD_SIZE)
    ensures NumberAt(old(mem[..]), a + 4, Dword()) == 0 ==> PrdAt(mem[..], a) == Prd(address % U32, c + 1, true)
  {
    ghost var m := mem[..];
    FitsDword(address % U32);
    StoreNumber(mem, a, Dword(), address % U32);
    ghost var m1 := mem[..];
    WriteFields(mem, a + 12, c);
    PrdWritten(m, m1, mem[..], a);
  }

  /** The two bit fields, one after the other. */
  method WriteFields(mem: array<Byte>, a: nat, c: nat)
    requires a + 4 <= mem.Length && c < COUNT_LIMIT
    modifies mem
    ensures OnlyAt(old(mem[..]), mem[..], a, Dword())
    ensures NumberAt(mem[..], a, Dword()) % COUNT_LIMIT == c && NumberAt(mem[..], a, Dword()) >= INTERRUPT_BIT
  {
    var v := NumberAt(mem[..], a, Dword());
    DwordBelow(mem[..], a);
    FieldsHold(v, c);
    FitsDword(WithCount(v, c));
    StoreNumber(mem, a, Dword(), WithCount(v, c));
    v := NumberAt(mem[..], a, Dword());
    FitsDword(WithInterrupt(v));
    StoreNumber(mem, a, Dword(), WithInterrupt(v));
  }

  lemma PrdWritten(m: seq<Byte>, m1: seq<Byte>, m2: seq<Byte>, a: nat)
    requires a + PRD_SIZE <= |m| && OnlyAt(m, m1, a, Dword()) && OnlyAt(m1, m2, a + 12, Dword())
    ensures OnlyAt(m, m2, a, PRD_SIZE) && NumberAt(m2, a, Dword()) == NumberAt(m1, a, Dword())
    ensures NumberAt(m2, a + 4, Dword()) == NumberAt(m, a + 4, Dword())
  {
    NumberSame(m1, m2, a, Dword());
    NumberSame(m, m2, a + 4, Dword());
  }

  lemma PrdKept(m: seq<Byte>, m': seq<Byte>, a: nat)
    requires a + PRD_SIZE <= |m| == |m'|
    requires forall x {:trigger At(m', x)} :: a <= x < a + PRD_SIZE ==> At(m', x) == At(m, x)
    ensures PrdAt(m', a) == PrdAt(m, a)
  {
    NumberSame(m, m', a, Dword());
    NumberSame(m, m', a + 4, Dword());
    NumberSame(m, m', a + 12, Dword());
  }

  // ---------- the descriptors ----------

  function PrdAddress(t: nat, j: nat): nat { t + TABLE_HEAD + PRD_SIZE * j }

  /** The first `n` descriptors are there, and the ones up to `end` are still zero. */
  ghost predicate Filled(m0: seq<Byte>, m: seq<Byte>, t: nat, buf: nat, count: nat, n: nat, end: nat) {
    && count < U32 && n <= end && PrdAddress(t, end) <= |m|
    && (forall j {:trigger Descriptor(buf, count, j)} :: 0 <= j < n
          ==> PrdAt(m, PrdAddress(t, j)) == Descriptor(buf, count, j))
    && ZeroAt(m, PrdAddress(t, n), PRD_SIZE * (end - n))
    && OnlyAt(m0, m, t + TABLE_HEAD, PRD_SIZE * end)
  }

  lemma FillStep(m0: seq<Byte>, m: seq<Byte>, m': seq<Byte>, t: nat, buf: nat, count: nat, n: nat, end: nat)
    requires Filled(m0, m, t, buf, count, n, end) && n < end
    requires OnlyAt(m, m', PrdAddress(t, n), PRD_SIZE) && PrdAt(m', PrdAddress(t, n)) == Descriptor(buf, count, n)
    ensures Filled(m0, m', t, buf, count, n + 1, end)
  {
    forall j | 0 <= j < n + 1 ensures PrdAt(m', PrdAddress(t, j)) == Descriptor(buf, count, j) {
      if j < n {
        assert PrdAt(m, PrdAddress(t, j)) == Descriptor(buf, count, j);
        PrdKept(m, m', PrdAddress(t, j));
      }
    }
  }

  method FillOne(mem: array<Byte>, t: nat, b: nat, c: nat, ghost m0: seq<Byte>, ghost buf: nat, ghost count: nat,
                 i: nat, ghost end: nat)
    requires i < end && Filled(m0, mem[..], t, buf, count, i, end) && c < COUNT_LIMIT
    requires Descriptor(buf, count, i) == Prd(b % U32, c + 1, true)
    modifies mem
    ensures Filled(m0, mem[..], t, buf, count, i + 1, end)
  {
    ghost var m := mem[..];
    ZeroNumber(m, PrdAddress(t, i) + 4, Dword());
    WritePrd(mem, PrdAddress(t, i), b, c);
    FillStep(m0, m, mem[..], t, buf, count, i, end);
  }

  /** The loop over the whole chunks, and the last descriptor; what is left of
      the count goes into the command. A length of zero still writes one descriptor. */
  method FillTable(mem: array<Byte>, t: nat, prdtl: nat, buf: nat, count: nat) returns (rest: nat)
    requires count < U32 && prdtl == TableLength(count) && t + TableSize(count) <= mem.Length
    requires ZeroAt(mem[..], t + TABLE_HEAD, PRD_SIZE * prdtl)
    modifies mem
    ensures rest == Remaining(count)
    ensures prdtl > 0 ==> Filled(old(mem[..]), mem[..], t, buf, count, prdtl, prdtl)
    ensures OnlyAt(old(mem[..]), mem[..], t + TABLE_HEAD, TableSize(count) - TABLE_HEAD)
  {
    ghost var m0 := mem[..];
    var b, i := buf, 0;
    rest := count;
    RoundsFit(count);
    while i < prdtl - 1
      invariant 0 <= i <= Rounds(count) && b == buf + CHUNK_BYTES * i && rest == count - CHUNK * i
      invariant if prdtl > 0 then Filled(m0, mem[..], t, buf, count, i, prdtl) else mem[..] == m0
    {
      FillOne(mem, t, b, CHUNK_BYTES - 1, m0, buf, count, i, prdtl);
      b, rest, i := b + CHUNK_BYTES, rest - CHUNK, i + 1;
    }
    ghost var m := mem[..];
    if prdtl > 0 {
      ZeroNumber(m, PrdAddress(t, i) + 4, Dword());
    }
    WritePrd(mem, PrdAddress(t, i), b, CountField(rest));
    if prdtl > 0 {
      FillStep(m0, m, mem[..], t, buf, count, i, prdtl);
    }
  }

  // ---------- the command ----------

  /** The 48 bits of the first sector, in two groups of three bytes. */
  function SectorAt(m: seq<Byte>, t: nat): nat
    requires t + 20 <= |m|
  {
    NumberAt(m, t + 4, 3) + 0x100_0000 * NumberAt(m, t + 8, 3)
  }

  /** A register FIS with this command, first sector and count; the rest of its 20 bytes is fixed. */
  ghost predicate FisAt(m: seq<Byte>, t: nat, command: Byte, sector: nat, count: nat) {
    && t + 20 <= |m|
    && At(m, t) == FIS_REG_H2D && At(m, t + 1) == 128 && At(m, t + 2) == command && At(m, t + 3) == 0
    && SectorAt(m, t) == sector && At(m, t + 7) == 64 && At(m, t + 11) == 0
    && NumberAt(m, t + 12, Word()) == count && ZeroAt(m, t + 14, 6)
  }

  lemma FourDigits(v: nat)
    requires v < U32
    ensures v == v % 256 + 256 * (v / 256 % 256) + U16 * (v / U16 % 256) + 0x100_0000 * (v / 0x100_0000 % 256)
  {
    assert v / U16 == v / 256 / 256 && v / 0x100_0000 == v / 256 / 256 / 256;
  }

  /** The stores, byte by byte. */
  predicate FisBytes(m: seq<Byte>, t: nat, command: Byte, startL: nat, startH: nat, rest: nat) {
    && t + 20 <= |m| && m[t] == FIS_REG_H2D && m[t + 1] == 128 && m[t + 2] == command && m[t + 7] == 64
    && m[t + 4] == startL % 256 && m[t + 5] == startL / 256 % 256 && m[t + 6] == startL / U16 % 256
    && m[t + 8] == startL / 0x100_0000 % 256 && m[t + 9] == startH % 256 && m[t + 10] == startH / 256 % 256
    && m[t + 12] == rest % 256 && m[t + 13] == rest / 256 % 256
    && m[t + 3] == 0 && m[t + 11] == 0
  }

  lemma SectorIs(m: seq<Byte>, t: nat, command: Byte, startL: nat, startH: nat, rest: nat)
    requires FisBytes(m, t, command, startL, startH, rest) && startL < U32
    ensures SectorAt(m, t) == startL + U32 * (startH % U16)
  {
    ThreeBytes(m, t + 4);
    ThreeBytes(m, t + 8);
    FourDigits(startL);
    assert startH % U16 == startH % 256 + 256 * (startH / 256 % 256);
  }

  lemma ThreeBytes(m: seq<Byte>, a: nat)
    requires a + 3 <= |m|
    ensures NumberAt(m, a, 3) == m[a] + 256 * m[a + 1] + U16 * m[a + 2]
  {
    assert NumberAt(m, a + 3, 0) == 0;
  }

  lemma TwoBytes(m: seq<Byte>, a: nat, v: nat)
    requires a + 2 <= |m| && m[a] == v % 256 && m[a + 1] == v / 256 % 256
    ensures NumberAt(m, a, Word()) == v % U16
  {
    assert NumberAt(m, a + 2, Word() - 2) == 0;
    assert NumberAt(m, a + 1, Word() - 1) == m[a + 1];
    assert v % U16 == v % 256 + 256 * (v / 256 % 256);
  }

  /** The bytes that are the same for all sectors. */
  method WriteFisHead(mem: array<Byte>, t: nat, command: Byte)
    requires t + 20 <= mem.Length && mem[t + 1] == 0
    modifies mem
    ensures mem[..] == old(mem[..])[t := FIS_REG_H2D][t + 1 := 128][t + 2 := command][t + 7 := 64]
  {
    mem[t], mem[t + 2] := FIS_REG_H2D, command;
    mem[t + 1] := mem[t + 1] % 128 + 128;
    mem[t + 7] := 64;
  }

  /** The stores into the command's FIS, over zeros. */
  method WriteFis(mem: array<Byte>, t: nat, command: Byte, startL: nat, startH: nat, rest: nat)
    requires t + 20 <= mem.Length && ZeroAt(mem[..], t, 20) && startL < U32
    modifies mem
    ensures FisAt(mem[..], t, command, startL + U32 * (startH % U16), rest % U16)
    ensures OnlyAt(old(mem[..]), mem[..], t, 20)
  {
    ghost var m := mem[..];
    assert At(m, t + 1) == 0 && At(m, t + 3) == 0 && At(m, t + 11) == 0;
    WriteFisHead(mem, t, command);
    mem[t + 4], mem[t + 5], mem[t + 6] := startL % 256, startL / 256 % 256, startL / U16 % 256;
    mem[t + 8], mem[t + 9], mem[t + 10] := startL / 0x100_0000 % 256, startH % 256, startH / 256 % 256;
    mem[t + 12], mem[t + 13] := rest % 256, rest / 256 % 256;
    FisWritten(m, mem[..], t, command, startL, startH, rest);
  }

  lemma FisWritten(m: seq<Byte>, m': seq<Byte>, t: nat, command: Byte, startL: nat, startH: nat, rest: nat)
    requires FisBytes(m', t, command, startL, startH, rest) && startL < U32
    requires OnlyAt(m, m', t, 14) && ZeroAt(m, t, 20)
    ensures FisAt(m', t, command, startL + U32 * (startH % U16), rest % U16) && OnlyAt(m, m', t, 20)
  {
    SectorIs(m', t, command, startL, startH, rest);
    TwoBytes(m', t + 12, rest);
  }
}
