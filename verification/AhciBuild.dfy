/**
  A whole command of `runCommand` (kernel/devices/ahci.c): its header, its
  table, and what the hardware reads from them.
*/
module AhciBuild {
  import opened AhciCommand
  import opened AhciLayout
  import opened AhciTable
  import opened Arithmetic
  import opened Bytes

  /** What a caller asks for. */
  datatype Request = Request(command: Byte, write: nat, startL: nat, startH: nat, count: nat, buf: nat) {
    predicate Valid() { startL < U32 && startH < U32 && count < U32 }

    /** The first sector; numbers of sectors have 48 bits. */
    function Sector(): nat { startL + U32 * (startH % U16) }
  }

  // ---------- the header ----------

  /** The fields of the header's first byte: length of the command, and direction. */
  function WithLength(b: Byte): Byte { b - b % 32 + FIS_WORDS }

  function WithDirection(b: Byte, write: nat): Byte { b - 64 * (b / 64 % 2) + 64 * (write % 2) }

  ghost predicate HeaderAt(m: seq<Byte>, h: nat, r: Request)
    requires r.Valid()
  {
    && h + HEADER_SIZE <= |m|
    && At(m, h) % 32 == FIS_WORDS && At(m, h) / 64 % 2 == r.write % 2
    && NumberAt(m, h + 2, Word()) == TableLength(r.count)
  }

  ghost predicate OnlyHeader(m: seq<Byte>, m': seq<Byte>, h: nat)
    requires h < |m|
  {
    && |m'| == |m| && At(m', h) / 32 % 2 == At(m, h) / 32 % 2 && At(m', h) / 128 == At(m, h) / 128
    && forall x {:trigger At(m', x)} :: 0 <= x < |m| && x != h && !(h + 2 <= x < h + 4) ==> At(m', x) == At(m, x)
  }

  lemma LengthBits(b: Byte)
    ensures WithLength(b) % 32 == FIS_WORDS && WithLength(b) / 32 == b / 32
  {
  }

  lemma DirectionBits(b: Byte, write: nat)
    ensures WithDirection(b, write) % 64 == b % 64 && WithDirection(b, write) / 128 == b / 128
    ensures WithDirection(b, write) / 64 % 2 == write % 2
  {
    var low, high := b % 64, b / 128;
    SplitDigit(b, 64, 2);
    Euclid(b, 128);
    QuotientUnique(WithDirection(b, write), 64, 2 * high + write % 2, low);
    QuotientUnique(WithDirection(b, write), 128, high, 64 * (write % 2) + low);
  }

  lemma LowBits(x: Byte, y: Byte)
    requires x % 64 == y % 64
    ensures x % 32 == y % 32 && x / 32 % 2 == y / 32 % 2
  {
    DigitsOfRemainder(x, 32, 2);
    DigitsOfRemainder(y, 32, 2);
  }

  lemma HeaderByte(b: Byte, write: nat)
    ensures var r := WithDirection(WithLength(b), write);
            r % 32 == FIS_WORDS && r / 64 % 2 == write % 2 && r / 32 % 2 == b / 32 % 2 && r / 128 == b / 128
  {
    LengthBits(b);
    DirectionBits(WithLength(b), write);
    LowBits(WithDirection(WithLength(b), write), WithLength(b));
    assert b / 32 / 4 == b / 128 && WithLength(b) / 32 / 4 == WithLength(b) / 128;
  }

  /** The other bits of the first byte, and the other bytes, are kept. */
  method WriteHeader(mem: array<Byte>, h: nat, r: Request)
    requires r.Valid() && h + HEADER_SIZE <= mem.Length
    modifies mem
    ensures HeaderAt(mem[..], h, r) && OnlyHeader(old(mem[..]), mem[..], h)
  {
    ghost var m := mem[..];
    mem[h] := WithLength(mem[h]);
    mem[h] := WithDirection(mem[h], r.write);
    HeaderByte(m[h], r.write);
    ghost var m1 := mem[..];
    FitsWord(TableLength(r.count));
    StoreNumber(mem, h + 2, Word(), TableLength(r.count));
    assert At(mem[..], h) == At(m1, h);
  }

  // ---------- the whole command ----------

  /** The address of the table that the hardware reads from a header; the driver reads its lower half only. */
  function TableAddress(m: seq<Byte>, h: nat): nat
    requires h + HEADER_SIZE <= |m|
  {
    NumberAt(m, h + 8, Dword()) + U32 * NumberAt(m, h + 12, Dword())
  }

  /** Header and table are written, the table at `t`, which the lower half of the header's address names. */
  ghost predicate Composed(m: seq<Byte>, h: nat, t: nat, r: Request) {
    && r.Valid() && HeaderAt(m, h, r) && NumberAt(m, h + 8, Dword()) == t
    && PrdAddress(t, TableLength(r.count)) <= |m|
    && (forall j {:trigger Descriptor(r.buf, r.count, j)} :: 0 <= j < TableLength(r.count) ==>
          PrdAt(m, PrdAddress(t, j)) == Descriptor(r.buf, r.count, j))
    && FisAt(m, t, r.command, r.Sector(), Remaining(r.count) % U16) && ZeroAt(m, t + 20, TABLE_HEAD - 20)
  }

  /** The hardware finds the table there as well. */
  ghost predicate Built(m: seq<Byte>, h: nat, t: nat, r: Request) {
    Composed(m, h, t, r) && TableAddress(m, h) == t
  }

  /** Only one byte and the table length of the header, and `size` bytes of the table, have changed. */
  ghost predicate OnlyCommand(m: seq<Byte>, m': seq<Byte>, h: nat, t: nat, size: nat) {
    |m| == |m'|
    && forall x {:trigger At(m', x)} ::
         0 <= x < |m| && x != h && !(h + 2 <= x < h + 4) && !(t <= x < t + size) ==> At(m', x) == At(m, x)
  }

  /** The table, in the memory that its header names. */
  method WriteTable(mem: array<Byte>, t: nat, prdtl: nat, r: Request)
    requires r.Valid() && prdtl == TableLength(r.count) && t + TableSize(r.count) <= mem.Length
    modifies mem
    ensures forall j {:trigger Descriptor(r.buf, r.count, j)} :: 0 <= j < prdtl ==>
              PrdAt(mem[..], PrdAddress(t, j)) == Descriptor(r.buf, r.count, j)
    ensures FisAt(mem[..], t, r.command, r.Sector(), Remaining(r.count) % U16)
    ensures ZeroAt(mem[..], t + 20, TABLE_HEAD - 20)
    ensures OnlyAt(old(mem[..]), mem[..], t, TableSize(r.count))
  {
    ghost var m := mem[..];
    Clear(mem, t, TABLE_HEAD + PRD_SIZE * prdtl);
    ghost var m1 := mem[..];
    var rest := FillTable(mem, t, prdtl, r.buf, r.count);
    ghost var m2 := mem[..];
    WriteFis(mem, t, r.command, r.startL, r.startH, rest);
    TableWritten(m, m1, m2, mem[..], t, r);
  }

  lemma TableWritten(m: seq<Byte>, m1: seq<Byte>, m2: seq<Byte>, m3: seq<Byte>, t: nat, r: Request)
    requires r.Valid() && t + TableSize(r.count) <= |m|
    requires OnlyAt(m, m1, t, TABLE_HEAD + PRD_SIZE * TableLength(r.count)) && ZeroAt(m1, t, TABLE_HEAD)
    requires OnlyAt(m1, m2, t + TABLE_HEAD, TableSize(r.count) - TABLE_HEAD) && OnlyAt(m2, m3, t, 20)
    requires TableLength(r.count) > 0 ==> Filled(m1, m2, t, r.buf, r.count, TableLength(r.count), TableLength(r.count))
    ensures forall j {:trigger Descriptor(r.buf, r.count, j)} :: 0 <= j < TableLength(r.count) ==>
              PrdAt(m3, PrdAddress(t, j)) == Descriptor(r.buf, r.count, j)
    ensures OnlyAt(m, m3, t, TableSize(r.count)) && ZeroAt(m3, t + 20, TABLE_HEAD - 20)
  {
    forall j | 0 <= j < TableLength(r.count) ensures PrdAt(m3, PrdAddress(t, j)) == Descriptor(r.buf, r.count, j) {
      PrdKept(m2, m3, PrdAddress(t, j));
    }
  }

  // ---------- the command, byte by byte ----------

  /** The header: its length in words, the direction, and the table's length. */
  ghost predicate HeaderInOrder(m: seq<Byte>, h: nat, r: Request) {
    && h + 32 <= |m| && At(m, h) % 32 == 5 && At(m, h) / 64 % 2 == r.write % 2
    && (1 <= r.count <= 1048560 ==> NumberAt(m, h + 2, Word()) == (r.count - 1) / 16 + 1)
  }

  /** The register FIS from host to device of section 5.5.2 of the Serial ATA
      specification: type, command bit, command, 48-bit sector number in LBA
      mode, and count. */
  ghost predicate FisInOrder(m: seq<Byte>, t: nat, r: Request) {
    && t + 20 <= |m| && At(m, t) == 0x27 && At(m, t + 1) == 0x80 && At(m, t + 2) == r.command && At(m, t + 3) == 0
    && NumberAt(m, t + 4, 3) + 0x100_0000 * NumberAt(m, t + 8, 3) == r.startL + 0x1_0000_0000 * (r.startH % 0x1_0000)
    && At(m, t + 7) == 0x40 && At(m, t + 11) == 0
    && (1 <= r.count <= 1048560 ==> NumberAt(m, t + 12, Word()) == (r.count - 1) % 16 + 1)
    && At(m, t + 14) == 0 && At(m, t + 15) == 0 && At(m, t + 16) == 0
    && At(m, t + 17) == 0 && At(m, t + 18) == 0 && At(m, t + 19) == 0
  }

  /** A descriptor: 64 bits of address, and at 12 one less than the bytes in 22 bits, and the interrupt bit. */
  ghost predicate PieceInOrder(m: seq<Byte>, a: nat, address: nat, bytes: nat) {
    && a + 16 <= |m|
    && NumberAt(m, a, Dword()) + 0x1_0000_0000 * NumberAt(m, a + 4, Dword()) == address % 0x1_0000_0000
    && NumberAt(m, a + 12, Dword()) % 0x40_0000 == bytes - 1 && NumberAt(m, a + 12, Dword()) >= 0x8000_0000
  }

  /** Pieces of 8 KiB, and what is left in the last one, from 128 bytes behind the table's start on. */
  ghost predicate PiecesInOrder(m: seq<Byte>, t: nat, r: Request) {
    1 <= r.count <= 1048560 ==>
      forall j {:trigger PrdAddress(t, j)} :: 0 <= j <= (r.count - 1) / 16 ==>
        && PrdAddress(t, j) == t + 128 + 16 * j
        && PieceInOrder(m, PrdAddress(t, j), r.buf + 8192 * j,
                        if j < (r.count - 1) / 16 then 8192 else 512 * ((r.count - 1) % 16 + 1))
  }

  ghost predicate CommandInOrder(m: seq<Byte>, h: nat, t: nat, r: Request) {
    && HeaderInOrder(m, h, r) && NumberAt(m, h + 8, Dword()) == t
    && FisInOrder(m, t, r) && PiecesInOrder(m, t, r)
  }

  lemma HeaderHasOrder(m: seq<Byte>, h: nat, r: Request)
    requires r.Valid() && HeaderAt(m, h, r)
    ensures HeaderInOrder(m, h, r)
  {
    if 1 <= r.count <= 1048560 { SmallCount(r.count); }
  }

  lemma FisHasOrder(m: seq<Byte>, t: nat, r: Request)
    requires r.Valid() && FisAt(m, t, r.command, r.Sector(), Remaining(r.count) % U16)
    ensures FisInOrder(m, t, r)
  {
    CommandCountIff(r.count);
    if 1 <= r.count <= 1048560 { SmallCount(r.count); }
  }

  lemma PieceHasOrder(m: seq<Byte>, t: nat, r: Request, j: nat)
    requires r.Valid() && 1 <= r.count <= 1048560 && j <= (r.count - 1) / 16 && PrdAddress(t, j) + PRD_SIZE <= |m|
    requires PrdAt(m, PrdAddress(t, j)) == Descriptor(r.buf, r.count, j)
    ensures PieceInOrder(m, PrdAddress(t, j), r.buf + 8192 * j,
                         if j < (r.count - 1) / 16 then 8192 else 512 * ((r.count - 1) % 16 + 1))
  {
    SmallCount(r.count);
    LastBytes(r.count);
  }

  lemma PiecesHaveOrder(m: seq<Byte>, h: nat, t: nat, r: Request)
    requires Composed(m, h, t, r)
    ensures PiecesInOrder(m, t, r)
  {
    if 1 <= r.count <= 1048560 {
      SmallCount(r.count);
      forall j | 0 <= j <= (r.count - 1) / 16
        ensures PrdAddress(t, j) == t + 128 + 16 * j
        ensures PieceInOrder(m, PrdAddress(t, j), r.buf + 8192 * j,
                             if j < (r.count - 1) / 16 then 8192 else 512 * ((r.count - 1) % 16 + 1))
      {
        assert PrdAt(m, PrdAddress(t, j)) == Descriptor(r.buf, r.count, j);
        PieceHasOrder(m, t, r, j);
      }
    }
  }

  lemma ComposedInOrder(m: seq<Byte>, h: nat, t: nat, r: Request)
    requires Composed(m, h, t, r)
    ensures CommandInOrder(m, h, t, r)
  {
    HeaderHasOrder(m, h, r);
    FisHasOrder(m, t, r);
    PiecesHaveOrder(m, h, t, r);
  }

  /** The header of the slot and the table it names, which must lie behind the
      header; the hardware finds it exactly if the address has no upper half. */
  method BuildCommand(mem: array<Byte>, clb: nat, slot: nat, r: Request)
    requires r.Valid()
    requires var h := clb + HEADER_SIZE * slot;
             h + HEADER_SIZE <= mem.Length
             && var t := NumberAt(mem[..], h + 8, Dword()); h + HEADER_SIZE <= t && t + TableSize(r.count) <= mem.Length
    modifies mem
    ensures var h := clb + HEADER_SIZE * slot;
            var t := NumberAt(old(mem[..]), h + 8, Dword());
            && Composed(mem[..], h, t, r) && OnlyCommand(old(mem[..]), mem[..], h, t, TableSize(r.count))
            && CommandInOrder(mem[..], h, t, r)
            && (Built(mem[..], h, t, r) <==> NumberAt(old(mem[..]), h + 12, Dword()) == 0)
  {
    ghost var m := mem[..];
    var h := clb + HEADER_SIZE * slot;
    WriteHeader(mem, h, r);
    ghost var m1 := mem[..];
    NumberSame(m, m1, h + 8, Dword());
    var t := NumberAt(mem[..], h + 8, Dword());
    WriteTable(mem, t, NumberAt(mem[..], h + 2, Word()), r);
    CommandWritten(m, m1, mem[..], h, t, r);
    UpperHalfKept(m, mem[..], h, t, TableSize(r.count));
    ComposedInOrder(mem[..], h, t, r);
  }

  lemma UpperHalfKept(m: seq<Byte>, m': seq<Byte>, h: nat, t: nat, size: nat)
    requires h + HEADER_SIZE <= |m| && h + HEADER_SIZE <= t && OnlyCommand(m, m', h, t, size)
    ensures NumberAt(m', h + 12, Dword()) == NumberAt(m, h + 12, Dword())
  {
    NumberSame(m, m', h + 12, Dword());
  }

  lemma CommandWritten(m: seq<Byte>, m1: seq<Byte>, m2: seq<Byte>, h: nat, t: nat, r: Request)
    requires r.Valid() && h < |m| && HeaderAt(m1, h, r) && h + HEADER_SIZE <= t && NumberAt(m1, h + 8, Dword()) == t
    requires OnlyHeader(m, m1, h) && OnlyAt(m1, m2, t, TableSize(r.count))
    ensures HeaderAt(m2, h, r) && NumberAt(m2, h + 8, Dword()) == t
    ensures OnlyCommand(m, m2, h, t, TableSize(r.count))
  {
    NumberSame(m1, m2, h + 8, Dword());
    NumberSame(m1, m2, h + 2, Word());
    assert At(m2, h) == At(m1, h);
  }

  // ---------- what the hardware reads ----------

  /** The descriptors of the command whose header is at `h`. */
  function HardwareTable(m: seq<Byte>, h: nat): seq<Prd>
    requires h + HEADER_SIZE <= |m| && PrdAddress(TableAddress(m, h), NumberAt(m, h + 2, Word())) <= |m|
  {
    seq(NumberAt(m, h + 2, Word()),
        j requires 0 <= j < NumberAt(m, h + 2, Word()) => PrdAt(m, PrdAddress(TableAddress(m, h), j)))
  }

  lemma HardwareReadsDescriptors(m: seq<Byte>, h: nat, t: nat, r: Request)
    requires Built(m, h, t, r)
    ensures HardwareTable(m, h) == Descriptors(r.buf, r.count)
  {
    var seen, meant := HardwareTable(m, h), Descriptors(r.buf, r.count);
    forall j | 0 <= j < |seen| ensures seen[j] == meant[j] {
      assert meant[j] == Descriptor(r.buf, r.count, j);
    }
  }

  lemma TransfersIff(table: seq<Prd>, r: Request)
    requires r.Valid() && table == Descriptors(r.buf, r.count)
    ensures Tiles(table, 0, r.buf, r.buf + 512 * r.count)
            <==> r.count == 0 || (r.count <= 1048560 && r.buf + 8192 * ((r.count - 1) / 16) < 0x1_0000_0000)
  {
    CoversBufferIff(r.buf, r.count);
  }

  /** The hardware transfers the caller's buffer, all of it and in order, exactly
      if the request is at most 1048560 sectors and the last piece starts below 4 GiB. */
  lemma HardwareTransfersIff(m: seq<Byte>, h: nat, t: nat, r: Request)
    requires Built(m, h, t, r)
    ensures Tiles(HardwareTable(m, h), 0, r.buf, r.buf + 512 * r.count)
            <==> r.count == 0 || (r.count <= 1048560 && r.buf + 8192 * ((r.count - 1) / 16) < 0x1_0000_0000)
  {
    HardwareReadsDescriptors(m, h, t, r);
    TransfersIff(HardwareTable(m, h), r);
  }

  /** On a rebased port a command whose table fits changes only its own header and its own table. */
  lemma CommandStaysInSlot(m: seq<Byte>, m': seq<Byte>, port: nat, slot: nat, r: Request, x: nat)
    requires port < PORTS && slot < SLOTS && r.Valid() && TableSize(r.count) <= 256
    requires OnlyCommand(m, m', Header(port, slot), Table(port, slot).Start(), TableSize(r.count))
    requires x < |m| && x != Header(port, slot) && !(Header(port, slot) + 2 <= x < Header(port, slot) + 4)
    requires !(BASE <= x < END && AreaOf(x) == Table(port, slot))
    ensures At(m', x) == At(m, x)
  {
    AreasPartition(Table(port, slot), x);
  }
}
