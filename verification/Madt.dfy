/**
  The walk over the records of the MADT: `parseMADT` of
  kernel/interfaces/description_tables/madt.c.
*/
module Madt {
  import opened Bytes

  /** The table's own header and its two fixed fields. */
  const FIRST: nat := 44
  const LENGTH_FIELD: nat := 4
  const KINDS: nat := 7
  const ROOM: nat := 32

  /** The rows of the seven global arrays, in the order of their declarations. */
  const PROCESSOR_APICS: nat := 0
  const IOAPICS: nat := 1
  const IOAPIC_SOURCE_OVERRIDES: nat := 2
  const IOAPIC_INTERRUPT_SOURCES: nat := 3
  const IOAPIC_INTERRUPTS: nat := 4
  const LAPIC_ADDRESS_OVERRIDES: nat := 5
  const X2_LAPICS: nat := 6

  /** The table at `base`, and its length. */
  datatype Table = Table(m: seq<Byte>, base: nat, total: nat) {
    /** The record that starts last can be one byte long, and two bytes of it are read. */
    predicate InMemory() { base + FIRST <= |m| && base + total + 1 <= |m| && total < U32 }

    function Kind(pos: nat): Byte
      requires InMemory() && pos < total
    {
      m[base + pos]
    }

    function Size(pos: nat): Byte
      requires InMemory() && pos < total
    {
      m[base + pos + 1]
    }
  }

  /** The record types of the switch, in the order of its cases. */
  predicate Known(kind: Byte) { kind <= 5 || kind == 9 }

  function Row(kind: Byte): nat
    requires Known(kind)
  {
    if kind == 9 then 6 else kind
  }

  /** One iteration: an unknown type leaves the position where it is. */
  function Next(t: Table, pos: nat): nat
    requires t.InMemory() && pos < t.total
  {
    if Known(t.Kind(pos)) then (pos + t.Size(pos)) % U32 else pos
  }

  /** The position after `n` iterations. */
  function After(t: Table, pos: nat, n: nat): nat
    requires t.InMemory()
    decreases n
  {
    if n == 0 || pos >= t.total then pos else After(t, Next(t, pos), n - 1)
  }

  /** From `pos` on every record has a known type and a length, and the sums stay within 32 bits. */
  predicate Ends(t: Table, pos: nat)
    requires t.InMemory()
    decreases t.total - pos
  {
    pos >= t.total || (Known(t.Kind(pos)) && t.Size(pos) >= 1 && pos + t.Size(pos) < U32 && Ends(t, pos + t.Size(pos)))
  }

  ghost predicate Leaves(t: Table, pos: nat)
    requires t.InMemory()
  {
    exists n: nat :: After(t, pos, n) >= t.total
  }

  lemma {:induction false} EndsLeaves(t: Table, pos: nat) returns (n: nat)
    requires t.InMemory() && Ends(t, pos)
    ensures After(t, pos, n) >= t.total
    decreases t.total - pos
  {
    if pos >= t.total {
      n := 0;
    } else {
      var k := EndsLeaves(t, pos + t.Size(pos));
      n := k + 1;
    }
  }

  lemma {:induction false} LeavesEnds(t: Table, pos: nat, n: nat)
    requires t.InMemory() && t.total + 255 <= U32 && After(t, pos, n) >= t.total
    ensures Ends(t, pos)
    decreases n
  {
    if pos < t.total {
      LeavesEnds(t, Next(t, pos), n - 1);
    }
  }

  /** The loop ends exactly if every record it meets has a known type and is
      not empty: record by record, byte 0 is the type and byte 1 the length. */
  lemma LoopEndsIff(t: Table, pos: nat)
    requires t.InMemory() && t.total + 255 <= U32
    ensures Leaves(t, pos) <==> Ends(t, pos)
    ensures pos >= t.total ==> Ends(t, pos)
    ensures pos < t.total ==>
              var kind, size := t.m[t.base + pos], t.m[t.base + pos + 1];
              Ends(t, pos) <==> kind in {0, 1, 2, 3, 4, 5, 9} && size >= 1 && Ends(t, pos + size)
  {
    if Ends(t, pos) {
      var n := EndsLeaves(t, pos);
    }
    if Leaves(t, pos) {
      var n: nat :| After(t, pos, n) >= t.total;
      LeavesEnds(t, pos, n);
    }
  }

  // ---------- the records ----------

  /** Positions of records, in the order of the table. */
  predicate AllRecords(t: Table, rs: seq<nat>) {
    && t.InMemory() && (forall k :: 0 <= k < |rs| ==> rs[k] < t.total && Known(t.Kind(rs[k])))
    && (forall k, j :: 0 <= k < j < |rs| ==> rs[k] < rs[j])
  }

  /** Where the records from `pos` on start. */
  function Records(t: Table, pos: nat): (rs: seq<nat>)
    requires t.InMemory() && Ends(t, pos)
    ensures AllRecords(t, rs) && forall k :: 0 <= k < |rs| ==> rs[k] >= pos
    decreases t.total - pos
  {
    if pos >= t.total then [] else [pos] + Records(t, pos + t.Size(pos))
  }

  /** The addresses of those records that belong to a row, in order. */
  function InRow(t: Table, rs: seq<nat>, row: nat): seq<nat>
    requires AllRecords(t, rs)
  {
    if rs == [] then []
    else
      var n := |rs| - 1;
      InRow(t, rs[..n], row) + (if Row(t.Kind(rs[n])) == row then [t.base + rs[n]] else [])
  }

  /** Nothing else is in a row. */
  lemma {:induction false} RowHasOnly(t: Table, rs: seq<nat>, row: nat, i: nat) returns (k: nat)
    requires AllRecords(t, rs) && i < |InRow(t, rs, row)|
    ensures k < |rs| && InRow(t, rs, row)[i] == t.base + rs[k] && Row(t.Kind(rs[k])) == row
    decreases |rs|
  {
    k := |rs| - 1;
    if i < |InRow(t, rs[..|rs| - 1], row)| {
      k := RowHasOnly(t, rs[..|rs| - 1], row, i);
    }
  }

  lemma {:induction false} RowHas(t: Table, rs: seq<nat>, row: nat, k: nat) returns (i: nat)
    requires AllRecords(t, rs) && k < |rs| && Row(t.Kind(rs[k])) == row
    ensures i < |InRow(t, rs, row)| && InRow(t, rs, row)[i] == t.base + rs[k]
    decreases |rs|
  {
    i := |InRow(t, rs[..|rs| - 1], row)|;
    if k < |rs| - 1 {
      i := RowHas(t, rs[..|rs| - 1], row, k);
    }
  }

  lemma {:induction false} RowAscends(t: Table, rs: seq<nat>, row: nat, i: nat, j: nat)
    requires AllRecords(t, rs) && i < j < |InRow(t, rs, row)|
    ensures InRow(t, rs, row)[i] < InRow(t, rs, row)[j]
    decreases |rs|
  {
    var before := rs[..|rs| - 1];
    if j < |InRow(t, before, row)| {
      RowAscends(t, before, row, i, j);
    } else {
      var k := RowHasOnly(t, before, row, i);
    }
  }

  /** The list has exactly the records whose first byte is `kind`, in the order of the table. */
  ghost predicate ListsExactly(t: Table, rs: seq<nat>, kind: nat, list: seq<nat>)
    requires AllRecords(t, rs)
  {
    && (forall i, j :: 0 <= i < j < |list| ==> list[i] < list[j])
    && (forall i {:trigger list[i]} :: 0 <= i < |list| ==> exists k :: 0 <= k < |rs| && list[i] == t.base + rs[k])
    && (forall k {:trigger rs[k]} :: 0 <= k < |rs| ==>
          (t.m[t.base + rs[k]] == kind <==> exists i :: 0 <= i < |list| && list[i] == t.base + rs[k]))
  }

  /** Rows 0 to 5 are for the types 0 to 5, and row 6 for type 9. */
  lemma RowListsExactly(t: Table, rs: seq<nat>, row: nat)
    requires AllRecords(t, rs) && row < 7
    ensures ListsExactly(t, rs, if row < 6 then row else 9, InRow(t, rs, row))
  {
    var list := InRow(t, rs, row);
    forall i, j | 0 <= i < j < |list| ensures list[i] < list[j] {
      RowAscends(t, rs, row, i, j);
    }
    forall i | 0 <= i < |list| ensures exists k :: 0 <= k < |rs| && list[i] == t.base + rs[k] {
      var k := RowHasOnly(t, rs, row, i);
    }
    forall k | 0 <= k < |rs|
      ensures t.m[t.base + rs[k]] == (if row < 6 then row else 9)
              <==> exists i :: 0 <= i < |list| && list[i] == t.base + rs[k]
    {
      RowMember(t, rs, row, k);
      RowOfKind(t.Kind(rs[k]), row);
    }
  }

  lemma RowOfKind(kind: Byte, row: nat)
    requires Known(kind) && row < 7
    ensures Row(kind) == row <==> kind == if row < 6 then row else 9
  {
  }

  lemma RowMember(t: Table, rs: seq<nat>, row: nat, k: nat)
    requires AllRecords(t, rs) && k < |rs|
    ensures Row(t.Kind(rs[k])) == row
            <==> exists i :: 0 <= i < |InRow(t, rs, row)| && InRow(t, rs, row)[i] == t.base + rs[k]
  {
    var list := InRow(t, rs, row);
    if Row(t.Kind(rs[k])) == row {
      var i := RowHas(t, rs, row, k);
    }
    if i :| 0 <= i < |list| && list[i] == t.base + rs[k] {
      var k' := RowHasOnly(t, rs, row, i);
    }
  }

  function Sizes(t: Table, rs: seq<nat>): nat
    requires AllRecords(t, rs)
  {
    if rs == [] then 0 else t.Size(rs[0]) + Sizes(t, rs[1..])
  }

  lemma SizesFrom(t: Table, pos: nat) returns (next: nat)
    requires t.InMemory() && Ends(t, pos) && pos < t.total
    ensures next == pos + t.Size(pos) > pos && Ends(t, next)
    ensures Sizes(t, Records(t, pos)) == t.Size(pos) + Sizes(t, Records(t, next))
    ensures EndsExactly(t, pos) == EndsExactly(t, next)
  {
    next := pos + t.Size(pos);
    assert Records(t, pos)[1..] == Records(t, next);
  }

  /** The lengths of the records fill the table behind its header, exactly if the last one ends where the table does. */
  lemma {:induction false} SizesFillTable(t: Table, pos: nat)
    requires t.InMemory() && Ends(t, pos) && pos <= t.total
    ensures t.total <= pos + Sizes(t, Records(t, pos)) <= t.total + 254
    ensures Sizes(t, Records(t, pos)) == t.total - pos <==> EndsExactly(t, pos)
    decreases t.total - pos
  {
    if pos < t.total {
      var next := SizesFrom(t, pos);
      if next <= t.total {
        SizesFillTable(t, next);
      }
    }
  }

  /** The last record ends with the table. */
  predicate EndsExactly(t: Table, pos: nat)
    requires t.InMemory() && Ends(t, pos)
    decreases t.total - pos
  {
    if pos >= t.total then pos == t.total else EndsExactly(t, pos + t.Size(pos))
  }

  /** The seven lists together have as many members as there are records. */
  lemma {:induction false} EachRecordInOneRow(t: Table, rs: seq<nat>)
    requires AllRecords(t, rs)
    ensures |InRow(t, rs, 0)| + |InRow(t, rs, 1)| + |InRow(t, rs, 2)| + |InRow(t, rs, 3)| + |InRow(t, rs, 4)|
            + |InRow(t, rs, 5)| + |InRow(t, rs, 6)| == |rs|
    decreases |rs|
  {
    if rs != [] {
      EachRecordInOneRow(t, rs[..|rs| - 1]);
    }
  }

  // ---------- the loop ----------

  lemma {:induction false} RowGrows(t: Table, seen: seq<nat>, rest: seq<nat>, row: nat)
    requires AllRecords(t, seen + rest)
    ensures AllRecords(t, seen) && |InRow(t, seen, row)| <= |InRow(t, seen + rest, row)|
    decreases |rest|
  {
    assert forall k :: 0 <= k < |seen| ==> (seen + rest)[k] == seen[k];
    if rest == [] {
      assert seen + rest == seen;
    } else {
      var n := |rest| - 1;
      assert (seen + rest)[..|seen| + n] == seen + rest[..n];
      RowGrows(t, seen, rest[..n], row);
    }
  }

  /** The seven lists. */
  ghost function Rows(t: Table, rs: seq<nat>): (rows: seq<seq<nat>>)
    requires AllRecords(t, rs)
    ensures |rows| == KINDS && forall row :: 0 <= row < KINDS ==> rows[row] == InRow(t, rs, row)
  {
    seq(KINDS, row requires 0 <= row < KINDS => InRow(t, rs, row))
  }

  /** The row of one more record has room for it. */
  lemma RecordFits(t: Table, all: seq<nat>, seen: seq<nat>, pos: nat, rest: seq<nat>)
    requires AllRecords(t, all) && all == seen + [pos] + rest
    ensures AllRecords(t, seen) && AllRecords(t, seen + [pos]) && pos < t.total && Known(t.Kind(pos))
    ensures |InRow(t, seen, Row(t.Kind(pos)))| < |InRow(t, all, Row(t.Kind(pos)))|
  {
    var row := Row(t.Kind(all[|seen|]));
    RowGrows(t, seen + [pos], rest, row);
    RowGrows(t, seen, [pos], row);
    RowOfMore(t, seen, pos, row);
  }

  lemma RowOfMore(t: Table, seen: seq<nat>, pos: nat, row: nat)
    requires AllRecords(t, seen) && AllRecords(t, seen + [pos]) && pos < t.total && Known(t.Kind(pos))
    ensures InRow(t, seen + [pos], row)
            == InRow(t, seen, row) + (if Row(t.Kind(pos)) == row then [t.base + pos] else [])
  {
    assert (seen + [pos])[..|seen|] == seen;
  }

  /** One more record goes to the end of its own row. */
  lemma RowsOfMore(t: Table, seen: seq<nat>, pos: nat)
    requires AllRecords(t, seen) && AllRecords(t, seen + [pos]) && pos < t.total && Known(t.Kind(pos))
    ensures var rows, row := Rows(t, seen), Row(t.Kind(pos));
      Rows(t, seen + [pos]) == rows[row := rows[row] + [t.base + pos]]
  {
    var rows, row := Rows(t, seen), Row(t.Kind(pos));
    var longer := rows[row := rows[row] + [t.base + pos]];
    forall r | 0 <= r < KINDS ensures Rows(t, seen + [pos])[r] == longer[r] {
      RowOfMore(t, seen, pos, r);
    }
  }

  class Lists {
    /** The seven global arrays of 32 pointers, one to a row. */
    const lists: array2<nat>

    constructor ()
      ensures fresh(lists) && lists.Length0 == KINDS && lists.Length1 == ROOM
    {
      lists := new nat[KINDS, ROOM];
    }

    /** What is in the arrays. */
    ghost function Contents(): (rows: seq<seq<nat>>)
      requires lists.Length0 == KINDS && lists.Length1 == ROOM
      reads lists
    {
      seq(KINDS, r requires 0 <= r < KINDS reads lists =>
        seq(ROOM, c requires 0 <= c < ROOM reads lists => lists[r, c]))
    }

    /** The first `used[row]` pointers of each row are its list, the others are as they were. */
    ghost predicate AllHold(rows: seq<seq<nat>>, used: array<nat>, before: seq<seq<nat>>)
      reads lists, used
    {
      && lists.Length0 == KINDS == used.Length == |before| == |rows| && lists.Length1 == ROOM
      && forall row {:trigger used[row]} :: 0 <= row < KINDS ==> RowHolds(rows[row], row, used[row], before[row])
    }

    /** The lists are those of the records seen. */
    ghost predicate Hold(t: Table, seen: seq<nat>, used: array<nat>, before: seq<seq<nat>>)
      reads lists, used
    {
      AllRecords(t, seen) && AllHold(Rows(t, seen), used, before)
    }

    /** The first `n` pointers of a row. */
    ghost function Listed(row: nat, n: nat): (list: seq<nat>)
      requires row < lists.Length0 && n <= lists.Length1
      reads lists
      ensures |list| == n && forall c :: 0 <= c < n ==> list[c] == lists[row, c]
    {
      seq(n, c requires 0 <= c < n reads lists => lists[row, c])
    }

    /** The first `n` pointers of a row are exactly the records of one type, in
        the order of the table; the others are as they were. */
    ghost predicate ArrayLists(t: Table, row: nat, kind: nat, n: nat, before: seq<nat>)
      requires t.InMemory() && Ends(t, 44) && row < lists.Length0 && lists.Length1 == 32
      reads lists
    {
      && n <= 32 == |before| && ListsExactly(t, Records(t, 44), kind, Listed(row, n))
      && forall c :: n <= c < 32 ==> lists[row, c] == before[c]
    }

    lemma ListedIs(list: seq<nat>, row: nat, n: nat, before: seq<nat>)
      requires row < lists.Length0 && lists.Length1 == ROOM && RowHolds(list, row, n, before)
      ensures n <= 32 == |before| && Listed(row, n) == list
      ensures forall c :: n <= c < 32 ==> lists[row, c] == before[c]
    {
      var listed := Listed(row, n);
      forall c | 0 <= c < n ensures listed[c] == list[c] {
        assert lists[row, c] == list[c];
      }
    }

    lemma RowIsList(t: Table, used: array<nat>, before: seq<seq<nat>>, row: nat)
      requires t.InMemory() && Ends(t, FIRST) && row < 7 && Hold(t, Records(t, FIRST), used, before)
      ensures ArrayLists(t, row, if row < 6 then row else 9, used[row], before[row])
    {
      var rs := Records(t, FIRST);
      RowListsExactly(t, rs, row);
      assert RowHolds(InRow(t, rs, row), row, used[row], before[row]);
      ListedIs(InRow(t, rs, row), row, used[row], before[row]);
    }

    ghost predicate RowHolds(list: seq<nat>, row: nat, n: nat, before: seq<nat>)
      requires row < lists.Length0 && lists.Length1 == ROOM
      reads lists
    {
      && n == |list| <= ROOM == |before|
      && forall c :: 0 <= c < ROOM ==> lists[row, c] == if c < n then list[c] else before[c]
    }

    /** One more pointer at the end of a row; the other rows keep what they list. */
    method Append(ghost rows: seq<seq<nat>>, row: nat, used: array<nat>, ghost before: seq<seq<nat>>, address: nat)
      requires AllHold(rows, used, before) && row < KINDS && |rows[row]| < ROOM
      modifies lists, used
      ensures AllHold(rows[row := rows[row] + [address]], used, before)
    {
      assert RowHolds(rows[row], row, used[row], before[row]);
      lists[row, used[row]] := address;
      used[row] := used[row] + 1;
    }

    /** One case of the switch. */
    method AddRecord(t: Table, ghost all: seq<nat>, ghost seen: seq<nat>, pos: nat, used: array<nat>,
                     ghost before: seq<seq<nat>>)
      requires t.InMemory() && Ends(t, pos) && pos < t.total && AllRecords(t, all) && all == seen + Records(t, pos)
      requires Hold(t, seen, used, before)
      requires forall row :: 0 <= row < KINDS ==> |InRow(t, all, row)| <= ROOM
      modifies lists, used
      ensures Hold(t, seen + [pos], used, before) && all == (seen + [pos]) + Records(t, pos + t.Size(pos))
    {
      RecordFits(t, all, seen, pos, Records(t, pos + t.Size(pos)));
      RowsOfMore(t, seen, pos);
      var row := Row(t.Kind(pos));
      Append(Rows(t, seen), row, used, before, t.base + pos);
    }

    /** The loop. */
    method Walk(t: Table, used: array<nat>, ghost before: seq<seq<nat>>)
      requires t.InMemory() && NumberAt(t.m, t.base + LENGTH_FIELD, Dword()) == t.total && Ends(t, FIRST)
      requires Hold(t, [], used, before)
      requires forall row :: 0 <= row < KINDS ==> |InRow(t, Records(t, FIRST), row)| <= ROOM
      modifies lists, used
      ensures Hold(t, Records(t, FIRST), used, before)
    {
      ghost var all := Records(t, FIRST);
      var length := FIRST;
      ghost var seen: seq<nat> := [];
      while length < t.total
        invariant Ends(t, length) && all == seen + Records(t, length) && Hold(t, seen, used, before)
        decreases t.total - length
      {
        AddRecord(t, all, seen, length, used, before);
        seen, length := seen + [length], length + t.Size(length);
      }
      assert seen == all;
    }

    /** The walk ends, and each array lists the records of its type. */
    method ParseMADT(t: Table) returns (used: array<nat>)
      requires lists.Length0 == 7 && lists.Length1 == 32
      requires t.InMemory() && NumberAt(t.m, t.base + 4, Dword()) == t.total && Ends(t, 44)
      requires forall row :: 0 <= row < 7 ==> |InRow(t, Records(t, 44), row)| <= 32
      modifies lists
      ensures Hold(t, Records(t, FIRST), used, old(Contents()))
      ensures ArrayLists(t, PROCESSOR_APICS, 0, used[0], old(Contents())[0])
      ensures ArrayLists(t, IOAPICS, 1, used[1], old(Contents())[1])
      ensures ArrayLists(t, IOAPIC_SOURCE_OVERRIDES, 2, used[2], old(Contents())[2])
      ensures ArrayLists(t, IOAPIC_INTERRUPT_SOURCES, 3, used[3], old(Contents())[3])
      ensures ArrayLists(t, IOAPIC_INTERRUPTS, 4, used[4], old(Contents())[4])
      ensures ArrayLists(t, LAPIC_ADDRESS_OVERRIDES, 5, used[5], old(Contents())[5])
      ensures ArrayLists(t, X2_LAPICS, 9, used[6], old(Contents())[6])
    {
      used := new nat[KINDS](_ => 0);
      ghost var before := Contents();
      Walk(t, used, before);
      forall row | 0 <= row < 7 ensures ArrayLists(t, row, if row < 6 then row else 9, used[row], before[row]) {
        RowIsList(t, used, before, row);
      }
    }
  }
}
