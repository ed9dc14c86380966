/**
  The descriptors of one disk command, as `runCommand` of
  kernel/devices/ahci.c computes them: how the requested sectors are cut into
  pieces of 8 KiB, and what count the command itself carries.
*/
module AhciCommand {
  import opened Arithmetic
  import opened Bytes

  const SECTOR: nat := 512
  const CHUNK: nat := 16
  const CHUNK_BYTES: nat := 8192
  /** The byte count of a descriptor has 22 bits, and is one less than it means. */
  const COUNT_LIMIT: nat := 0x40_0000

  /** A physical region descriptor: an address, how many bytes it stands for, and the interrupt bit. */
  datatype Prd = Prd(address: nat, bytes: nat, interrupt: bool)

  /** The table's length: the quotient is cut to 16 bits, and so is the sum. */
  function TableLength(count: nat): nat
    requires count < U32
  {
    ((if count == 0 then U32 - 1 else count - 1) / CHUNK % U16 + 1) % U16
  }

  /** How often the loop runs: never, if the length has been cut to zero. */
  function Rounds(count: nat): nat
    requires count < U32
  {
    if TableLength(count) == 0 then 0 else TableLength(count) - 1
  }

  /** The sectors that the loop leaves to the last descriptor. */
  function Remaining(count: nat): (rest: nat)
    requires count < U32
  {
    if TableLength(count) == 0 then count else count - CHUNK * Rounds(count)
  }

  lemma RoundsFit(count: nat)
    requires count < U32
    ensures CHUNK * Rounds(count) <= count && Rounds(count) < U16
  {
  }

  /** One less than the bytes of so many sectors, in 32 bits, cut to the field of 22 bits. */
  function CountField(sectors: nat): nat {
    (sectors * SECTOR % U32 + U32 - 1) % U32 % COUNT_LIMIT
  }

  /** Descriptor `j`: addresses have 32 bits, byte counts 22. */
  function Descriptor(buf: nat, count: nat, j: nat): Prd
    requires count < U32
  {
    var address := (buf + CHUNK_BYTES * j) % U32;
    if j < Rounds(count) then Prd(address, CHUNK_BYTES, true)
    else Prd(address, CountField(Remaining(count)) + 1, true)
  }

  /** The descriptors that the hardware will use. */
  function Descriptors(buf: nat, count: nat): seq<Prd>
    requires count < U32
  {
    seq(TableLength(count), j requires 0 <= j < TableLength(count) => Descriptor(buf, count, j))
  }

  // ---------- what a table covers ----------

  /** From descriptor `j` on, the table covers the bytes from `a` to `b`, in order and in pieces of at most 8 KiB. */
  predicate Tiles(table: seq<Prd>, j: nat, a: nat, b: nat)
    requires j <= |table|
    decreases |table| - j
  {
    if j == |table| then a == b
    else table[j].address == a && 1 <= table[j].bytes <= 8192 && Tiles(table, j + 1, a + table[j].bytes, b)
  }

  function Total(table: seq<Prd>, j: nat): nat
    requires j <= |table|
    decreases |table| - j
  {
    if j == |table| then 0 else table[j].bytes + Total(table, j + 1)
  }

  lemma {:induction false} TilesTotal(table: seq<Prd>, j: nat, a: nat, b: nat)
    requires j <= |table| && Tiles(table, j, a, b)
    ensures b == a + Total(table, j)
    decreases |table| - j
  {
    if j < |table| {
      TilesTotal(table, j + 1, a + table[j].bytes, b);
    }
  }

  /** Where the last descriptor starts, if the addresses are not cut. */
  function LastStart(buf: nat, count: nat): nat
    requires count < U32
  {
    buf + CHUNK_BYTES * Rounds(count)
  }

  lemma SmallCount(count: nat)
    requires 1 <= count <= CHUNK * (U16 - 1)
    ensures TableLength(count) == (count - 1) / CHUNK + 1 == (count + CHUNK - 1) / CHUNK
    ensures Remaining(count) == (count - 1) % CHUNK + 1
  {
  }

  lemma FieldOfCount(k: nat, r: nat)
    requires 1 <= r <= CHUNK
    ensures CountField(0x10_0000 * k + r) == SECTOR * r - 1
  {
    var x := (0x10_0000 * k + r) * SECTOR;
    assert x == U32 * (k / 8) + (0x2000_0000 * (k % 8) + SECTOR * r);
    QuotientUnique(x, U32, k / 8, 0x2000_0000 * (k % 8) + SECTOR * r);
    var y := 0x2000_0000 * (k % 8) + SECTOR * r - 1;
    QuotientUnique(y, COUNT_LIMIT, 128 * (k % 8), SECTOR * r - 1);
  }

  /** The bytes of the last descriptor, whatever the count. */
  lemma LastBytes(count: nat)
    requires count < U32 && TableLength(count) > 0
    ensures count >= 1 && Remaining(count) % 0x10_0000 == (count - 1) % CHUNK + 1
    ensures CountField(Remaining(count)) + 1 == SECTOR * ((count - 1) % CHUNK + 1)
  {
    var q := (count - 1) / CHUNK;
    var k, r := q / U16, (count - 1) % CHUNK + 1;
    assert Rounds(count) == q % U16;
    assert Remaining(count) == 0x10_0000 * k + r;
    QuotientUnique(Remaining(count), 0x10_0000, k, r);
    FieldOfCount(k, r);
  }

  /** The sum of the byte counts: the request, but for the bits that have been cut. */
  lemma {:induction false} TotalFrom(buf: nat, count: nat, j: nat)
    requires count < U32 && j < TableLength(count)
    ensures Total(Descriptors(buf, count), j) == CHUNK_BYTES * (Rounds(count) - j) + SECTOR * ((count - 1) % CHUNK + 1)
    decreases TableLength(count) - j
  {
    LastBytes(count);
    if j < Rounds(count) {
      TotalFrom(buf, count, j + 1);
    }
  }

  lemma {:induction false} TilesFrom(buf: nat, count: nat, j: nat)
    requires 1 <= count <= CHUNK * (U16 - 1) && j < TableLength(count) && LastStart(buf, count) < U32
    ensures Tiles(Descriptors(buf, count), j, buf + CHUNK_BYTES * j, buf + SECTOR * count)
    decreases TableLength(count) - j
  {
    LastBytes(count);
    SmallCount(count);
    var table := Descriptors(buf, count);
    assert table[j].address == buf + CHUNK_BYTES * j;
    if j < Rounds(count) {
      TilesFrom(buf, count, j + 1);
    } else {
      assert Tiles(table, j + 1, buf + SECTOR * count, buf + SECTOR * count);
    }
  }

  lemma {:induction false} TiledAddress(table: seq<Prd>, j: nat, a: nat, b: nat, i: nat, size: nat)
    requires j <= i < |table| && Tiles(table, j, a, b) && forall k :: 0 <= k < i ==> table[k].bytes == size
    ensures table[i].address == a + size * (i - j)
    decreases i - j
  {
    if j < i {
      TiledAddress(table, j + 1, a + size, b, i, size);
    }
  }

  /** A table loses bytes as soon as its length is cut. */
  lemma TotalIsRequestIff(buf: nat, count: nat)
    requires count < U32
    ensures Total(Descriptors(buf, count), 0) == 512 * count <==> count <= 1048560
  {
    if TableLength(count) > 0 {
      TotalFrom(buf, count, 0);
      var q, r := (count - 1) / CHUNK, (count - 1) % CHUNK;
      assert Rounds(count) == q % U16 && count == CHUNK * q + r + 1;
      assert q % U16 == q <==> q < U16;
    }
  }

  /** In a table that covers its buffer the last address has not been cut. */
  lemma LastAddress(buf: nat, count: nat, b: nat)
    requires count < U32 && TableLength(count) > 0 && Tiles(Descriptors(buf, count), 0, buf, b)
    ensures LastStart(buf, count) < U32
  {
    var table := Descriptors(buf, count);
    TiledAddress(table, 0, buf, b, Rounds(count), CHUNK_BYTES);
    assert table[Rounds(count)] == Descriptor(buf, count, Rounds(count));
  }

  /** The table covers the whole buffer exactly if the sectors are at most
      1048560 and its last piece starts below 4 GiB. */
  lemma CoversBufferIff(buf: nat, count: nat)
    requires count < U32
    ensures Tiles(Descriptors(buf, count), 0, buf, buf + 512 * count)
            <==> count == 0 || (count <= 1048560 && buf + 8192 * ((count - 1) / 16) < 0x1_0000_0000)
  {
    var table := Descriptors(buf, count);
    TotalIsRequestIff(buf, count);
    if 1 <= count <= CHUNK * (U16 - 1) {
      SmallCount(count);
      if LastStart(buf, count) < U32 { TilesFrom(buf, count, 0); }
    }
    if count > 0 && Tiles(table, 0, buf, buf + SECTOR * count) {
      TilesTotal(table, 0, buf, buf + SECTOR * count);
      LastAddress(buf, count, buf + SECTOR * count);
    }
  }

  lemma LastPieceCount(count: nat)
    requires count < U32 && TableLength(count) > 0
    ensures count >= 1 && Remaining(count) % U16 == (count - 1) % CHUNK + 1
  {
    LastBytes(count);
    DigitsOfRemainder(Remaining(count), U16, 16);
    QuotientUnique((count - 1) % CHUNK + 1, U16, 0, (count - 1) % CHUNK + 1);
  }

  /** The count in the command is that of the last piece, so it is the request exactly for at most 16 sectors. */
  lemma CommandCountIff(count: nat)
    requires count < U32
    ensures TableLength(count) > 0 ==> Remaining(count) % 0x1_0000 == (count - 1) % 16 + 1
    ensures Remaining(count) % 0x1_0000 == count <==> count <= 16
  {
    if TableLength(count) > 0 {
      LastPieceCount(count);
    } else if count > 0 {
      assert count > CHUNK * (U16 - 1);
    }
  }

  /** A table for so many descriptors; there is always one. */
  function TableSize(count: nat): nat
    requires count < U32
  {
    128 + 16 * (Rounds(count) + 1)
  }

  /** A table covers its buffer and fits its slot's 256 bytes exactly for at most 128 sectors. */
  lemma FitsSlotIff(buf: nat, count: nat)
    requires count < U32
    ensures Tiles(Descriptors(buf, count), 0, buf, buf + 512 * count) && TableSize(count) <= 256
            <==> count == 0 || (count <= 128 && buf + 8192 * ((count - 1) / 16) < 0x1_0000_0000)
  {
    CoversBufferIff(buf, count);
    if 1 <= count <= CHUNK * (U16 - 1) {
      SmallCount(count);
    }
  }
}
