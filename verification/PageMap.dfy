/**
  The page tables as a plain map from page numbers to frame numbers: what
  `getPhysicalAddress` gives after any sequence of `mapPage` calls.
*/
module PageMap {
  import opened PageTables
  import opened PageTree

  /** An address of the page. */
  function PageAddress(page: nat): nat { page * PAGE_SIZE }

  /** The walk of page `q` is present down to its leaf exactly if `m` has the
      page, and ends at the frame that `m` gives. */
  ghost predicate PageAgrees(s: Space, m: map<nat, nat>, q: nat)
    requires s.Total()
  {
    && (PathPresent(s, PageAddress(q), 4) <==> q in m)
    && (q in m ==> Leaf(s, PageAddress(q)).physicalAddress == m[q])
  }

  /** The tables map exactly the pages of `m`, to the frames that `m` gives. */
  ghost predicate Agrees(s: Space, m: map<nat, nat>)
    requires s.Total()
  {
    && (forall q :: q in m ==> q < PAGES)
    && (forall q {:trigger PageAgrees(s, m, q)} :: 0 <= q < PAGES ==> PageAgrees(s, m, q))
  }

  /** Tables without present entries map nothing. */
  lemma EmptyTablesAgree(s: Space)
    requires s.Total() && forall i :: 0 <= i < 512 ==> !s.Entry(s.pml4, i).present
    ensures Agrees(s, map[])
  {
    forall q | 0 <= q < PAGES ensures PageAgrees(s, map[], q) {
      assert !s.Entry(Walk(s, PageAddress(q), 0), Index(PageAddress(q), 0)).present;
    }
  }

  /** Walks depend on the page number alone. */
  lemma {:induction false} WalkOfPage(s: Space, v: nat, w: nat, d: nat)
    requires s.Total() && d <= 3 && Page(v) == Page(w)
    ensures Walk(s, v, d) == Walk(s, w, d)
    ensures forall j :: 0 <= j < 4 ==> Index(v, j) == Index(w, j)
  {
    SamePageIff(v, w);
    if d > 0 {
      WalkOfPage(s, v, w, d - 1);
    }
  }

  lemma PageOfPageAddress(q: nat)
    requires q < PAGES
    ensures Page(PageAddress(q)) == q
  {
  }

  lemma LeafWritten(s: Space, dep: map<nat, nat>, v: nat, e: PageEntry)
    requires Levelled(s, dep) && WalkLevels(s, dep, v, LeafLevel()) && e.physicalAddress < FRAMES
    ensures var r := s.WithEntry(Walk(s, v, LeafLevel()), Index(v, 3), e);
            Leaf(r, v) == e && (PathPresent(s, v, 3) ==> PathPresent(r, v, 3))
  {
    var t := Walk(s, v, LeafLevel());
    WalkUnaffected(s, s.WithEntry(t, Index(v, 3), e), v, LeafLevel(), t);
  }

  /** Right after the call, whatever the flags, the walk of `v` ends at the new leaf. */
  lemma MappedLeaf(s: Space, dep: map<nat, nat>, v: nat, p: nat, flags: Byte)
    requires Levelled(s, dep) && Supply(s, dep, 3)
    ensures var r := Mapped(s, v, p, flags);
            && Leaf(r, v).physicalAddress == p / 4096 % 0x100_0000_0000
            && (Leaf(r, v).present <==> flags / 2 % 2 == 1)
            && (PresentFlag(flags) ==> PathPresent(r, v, 4))
  {
    DescendedKeepsLevels(s, dep, v, flags, LeafLevel());
    DescendedKeepsRoots(s, dep, v, flags, LeafLevel());
    var (u, t) := Descended(s, v, flags, LeafLevel());
    LeafWritten(u, DescendedLevels(s, dep, v, flags, LeafLevel()), v,
                FilledEntry(u.Entry(t, Index(v, 3)), flags, p / PAGE_SIZE, 0));
    PathPresentStep(Mapped(s, v, p, flags), v, 3);
  }

  /** The way down keeps the walks and leaves that were present. */
  lemma DescendedKeepsWalk(s: Space, dep: map<nat, nat>, v: nat, flags: Byte, w: nat)
    requires Levelled(s, dep) && Supply(s, dep, 3) && PathPresent(s, w, 3)
    ensures var u := Descended(s, v, flags, LeafLevel()).0;
            PathPresent(u, w, 3) && Walk(u, w, LeafLevel()) == Walk(s, w, LeafLevel()) && Leaf(u, w) == Leaf(s, w)
  {
    DescendedKeepsLevels(s, dep, v, flags, LeafLevel());
    WalkGrows(s, dep, Descended(s, v, flags, LeafLevel()).0, DescendedLevels(s, dep, v, flags, LeafLevel()), w,
              LeafLevel());
  }

  /** Present walks of different pages end at different leaf entries. */
  lemma LeavesDiffer(s: Space, dep: map<nat, nat>, v: nat, w: nat)
    requires Levelled(s, dep) && PathPresent(s, v, 3) && PathPresent(s, w, 3) && Page(v) != Page(w)
    ensures Walk(s, v, LeafLevel()) != Walk(s, w, LeafLevel()) || Index(v, 3) != Index(w, 3)
  {
    if Walk(s, v, LeafLevel()) == Walk(s, w, LeafLevel()) {
      WalksMeetOnce(s, dep, v, w, LeafLevel());
      SamePageIff(v, w);
    }
  }

  /** Writing one leaf entry keeps the walks of all pages. */
  lemma LeafWriteKeepsWalk(s: Space, dep: map<nat, nat>, t: nat, i: nat, e: PageEntry, w: nat)
    requires Levelled(s, dep) && t in dep && dep[t] == 3 && i < 512 && e.physicalAddress < FRAMES
    requires PathPresent(s, w, 3)
    requires Walk(s, w, LeafLevel()) != t || Index(w, 3) != i
    ensures var r := s.WithEntry(t, i, e);
            PathPresent(r, w, 3) && Leaf(r, w) == Leaf(s, w)
  {
    var r := s.WithEntry(t, i, e);
    assert Grows(s, dep, r, dep);
    WalkGrows(s, dep, r, dep, w, LeafLevel());
  }

  /** A table that the walks of `dep` do not know, without a present entry. */
  ghost predicate Detached(s: Space, dep: map<nat, nat>, t: nat)
    requires s.Total()
  {
    t !in dep && t < FRAMES && forall i :: 0 <= i < 512 ==> !s.Entry(t, i).present
  }

  /** From an entry that is not present the way leads to a fresh table. */
  lemma AllocatedIsDetached(u: Space, dep: map<nat, nat>, t: nat, i: nat, flags: Byte, r: Space)
    requires Levelled(u, dep) && Supply(u, dep, 1) && t in dep && dep[t] < 3 && i < 512
    requires !u.Entry(t, i).present && r == EnsuredEntry(u, t, i, flags)
    ensures Detached(r, dep, NextTable(r, t, i))
  {
    EnsuredEntryChanges(u, dep, t, i, flags);
    assert FreshFrame(u, dep, u.pool[0]);
  }

  /** If the way was not present, it leaves the old tables, and ends at a fresh one. */
  ghost predicate LeavesOld(s: Space, dep: map<nat, nat>, u: Space, v: nat, t: nat, d: nat)
    requires s.Total() && u.Total() && d <= 3
  {
    !PathPresent(s, v, d) ==> Detached(u, dep, t)
  }

  lemma LeavesOldStep(s: Space, dep: map<nat, nat>, u: Space, dep': map<nat, nat>, v: nat, t: nat, d: nat, flags: Byte,
                      r: Space)
    requires s.Total() && d < 3 && Underway(s, dep, u, dep', v, t, d) && Supply(u, dep', 1)
    requires LeavesOld(s, dep, u, v, t, d) && (PathPresent(s, v, d) ==> u == s)
    requires r == EnsuredEntry(u, t, Index(v, d), flags)
    ensures LeavesOld(s, dep, r, v, NextTable(r, t, Index(v, d)), d + 1)
  {
    PathPresentStep(s, v, d);
    if !u.Entry(t, Index(v, d)).present {
      AllocatedIsDetached(u, dep', t, Index(v, d), flags, r);
    }
  }

  lemma DescendedLeavesStep(s: Space, dep: map<nat, nat>, v: nat, flags: Byte, d: nat)
    requires Levelled(s, dep) && d < 3 && Supply(s, dep, d + 1)
    requires LeavesOld(s, dep, Descended(s, v, flags, d).0, v, Descended(s, v, flags, d).1, d)
    ensures LeavesOld(s, dep, Descended(s, v, flags, d + 1).0, v, Descended(s, v, flags, d + 1).1, d + 1)
  {
    DescendedKeepsLevels(s, dep, v, flags, d);
    DescendedKeepsRoots(s, dep, v, flags, d);
    DescendedOnce(s, dep, v, flags, d);
    var (u, t) := Descended(s, v, flags, d);
    LeavesOldStep(s, dep, u, DescendedLevels(s, dep, v, flags, d), v, t, d, flags, Descended(s, v, flags, d + 1).0);
  }

  lemma {:induction false} DescendedLeavesOld(s: Space, dep: map<nat, nat>, v: nat, flags: Byte, d: nat)
    requires Levelled(s, dep) && d <= 3 && Supply(s, dep, d)
    ensures LeavesOld(s, dep, Descended(s, v, flags, d).0, v, Descended(s, v, flags, d).1, d)
  {
    if d > 0 {
      DescendedLeavesOld(s, dep, v, flags, d - 1);
      DescendedLeavesStep(s, dep, v, flags, d - 1);
    }
  }

  /** Whatever the flags, the leaf entry that is written is not that of another page that was present. */
  lemma LeafIsOther(s: Space, dep: map<nat, nat>, v: nat, flags: Byte, w: nat, u: Space, t: nat)
    requires Levelled(s, dep) && Supply(s, dep, 3) && PathPresent(s, w, 3) && Page(w) != Page(v)
    requires (u, t) == Descended(s, v, flags, LeafLevel())
    ensures Walk(s, w, LeafLevel()) != t || Index(w, 3) != Index(v, 3)
  {
    WalkGrows(s, dep, s, dep, w, LeafLevel());
    DescendedLeavesOld(s, dep, v, flags, LeafLevel());
    if PathPresent(s, v, 3) {
      DescendedKeepsRoots(s, dep, v, flags, LeafLevel());
      DescendedKeepsLevels(s, dep, v, flags, LeafLevel());
      LeavesDiffer(s, dep, v, w);
    }
  }

  /** Pages that were present keep their leaf, unless they are the page mapped. */
  lemma OtherLeafKept(s: Space, dep: map<nat, nat>, v: nat, p: nat, flags: Byte, w: nat)
    requires Levelled(s, dep) && Supply(s, dep, 3) && PathPresent(s, w, 4) && Page(w) != Page(v)
    ensures var r := Mapped(s, v, p, flags); PathPresent(r, w, 4) && Leaf(r, w) == Leaf(s, w)
  {
    DescendedKeepsLevels(s, dep, v, flags, LeafLevel());
    PathPresentStep(s, w, 3);
    DescendedKeepsWalk(s, dep, v, flags, w);
    var (u, t) := Descended(s, v, flags, LeafLevel());
    var dep' := DescendedLevels(s, dep, v, flags, LeafLevel());
    LeafIsOther(s, dep, v, flags, w, u, t);
    LeafWriteKeepsWalk(u, dep', t, Index(v, 3), FilledEntry(u.Entry(t, Index(v, 3)), flags, p / PAGE_SIZE, 0), w);
    PathPresentStep(Mapped(s, v, p, flags), w, 3);
  }

  lemma PathOfPage(s: Space, v: nat, w: nat)
    requires s.Total() && Page(v) == Page(w) && PathPresent(s, v, 4)
    ensures PathPresent(s, w, 4) && Leaf(s, w) == Leaf(s, v)
  {
    forall j | 0 <= j < 4
      ensures s.Entry(Walk(s, w, j), Index(w, j)).present
    {
      WalkOfPage(s, v, w, j);
    }
    WalkOfPage(s, v, w, LeafLevel());
  }

  // ---------- pages that were not present ----------

  /** Ensuring an entry above the leaf level does not change where a present walk goes. */
  lemma StepWasThere(s: Space, dep: map<nat, nat>, t: nat, i: nat, flags: Byte, r: Space, x: nat, j: nat, k: nat)
    requires Levelled(s, dep) && Supply(s, dep, 1) && t in dep && dep[t] < 3 && i < 512
    requires r == EnsuredEntry(s, t, i, flags)
    requires x in dep && j < 512 && k < 512 && r.Entry(r.Entry(x, j).physicalAddress, k).present
    ensures r.Entry(x, j) == s.Entry(x, j)
  {
    EnsuredEntryChanges(s, dep, t, i, flags);
    if !s.Entry(t, i).present { AllocatedIsDetached(s, dep, t, i, flags, r); }
  }

  lemma {:induction false} PathWasThere(s: Space, dep: map<nat, nat>, t: nat, i: nat, flags: Byte, r: Space, w: nat,
                                        d: nat)
    requires Levelled(s, dep) && Supply(s, dep, 1) && t in dep && dep[t] < 3 && i < 512
    requires r == EnsuredEntry(s, t, i, flags) && PathPresent(r, w, 4) && d <= 3
    ensures PathPresent(s, w, d) && Walk(r, w, d) == Walk(s, w, d)
  {
    if d > 0 {
      PathWasThere(s, dep, t, i, flags, r, w, d - 1);
      WalkGrows(s, dep, s, dep, w, d - 1);
      StepWasThere(s, dep, t, i, flags, r, Walk(s, w, d - 1), Index(w, d - 1), Index(w, d));
      PathPresentStep(s, w, d - 1);
    }
  }

  /** No page becomes present in the second one. */
  ghost predicate NoNewPage(s: Space, u: Space, w: nat)
    requires s.Total() && u.Total()
  {
    PathPresent(u, w, 4) ==> PathPresent(s, w, 4)
  }

  lemma EnsuredMakesNoPage(s: Space, dep: map<nat, nat>, t: nat, i: nat, flags: Byte, r: Space, w: nat)
    requires Levelled(s, dep) && Supply(s, dep, 1) && t in dep && dep[t] < 3 && i < 512
    requires r == EnsuredEntry(s, t, i, flags)
    ensures NoNewPage(s, r, w)
  {
    if PathPresent(r, w, 4) {
      PathWasThere(s, dep, t, i, flags, r, w, LeafLevel());
      WalkGrows(s, dep, s, dep, w, LeafLevel());
      EnsuredEntryChanges(s, dep, t, i, flags);
      PathPresentStep(s, w, 3);
      PathPresentStep(r, w, 3);
    }
  }

  lemma DescendedPageStep(s: Space, dep: map<nat, nat>, v: nat, flags: Byte, d: nat, w: nat)
    requires Levelled(s, dep) && d < 3 && Supply(s, dep, d + 1)
    requires NoNewPage(s, Descended(s, v, flags, d).0, w)
    ensures NoNewPage(s, Descended(s, v, flags, d + 1).0, w)
  {
    DescendedKeepsLevels(s, dep, v, flags, d);
    DescendedOnce(s, dep, v, flags, d);
    var (u, t) := Descended(s, v, flags, d);
    EnsuredMakesNoPage(u, DescendedLevels(s, dep, v, flags, d), t, Index(v, d), flags,
                       Descended(s, v, flags, d + 1).0, w);
  }

  lemma {:induction false} DescendedMakesNoPage(s: Space, dep: map<nat, nat>, v: nat, flags: Byte, d: nat, w: nat)
    requires Levelled(s, dep) && d <= 3 && Supply(s, dep, d)
    ensures NoNewPage(s, Descended(s, v, flags, d).0, w)
  {
    if d > 0 {
      DescendedMakesNoPage(s, dep, v, flags, d - 1, w);
      DescendedPageStep(s, dep, v, flags, d - 1, w);
    }
  }

  /** After writing a leaf entry, the walks of present pages are those of before. */
  lemma LeafWriteWalk(u: Space, dep: map<nat, nat>, t: nat, i: nat, e: PageEntry, r: Space, w: nat)
    requires Levelled(u, dep) && Supply(u, dep, 0) && t in dep && dep[t] == 3 && i < 512 && e.physicalAddress < FRAMES
    requires r == u.WithEntry(t, i, e) && PathPresent(r, w, 4)
    ensures PathPresent(u, w, 3) && Walk(u, w, LeafLevel()) == Walk(r, w, LeafLevel())
  {
    LeafWriteKeepsTree(u, dep, t, i, e, 0);
    forall j | 0 <= j < 3 ensures Walk(r, w, j) != t {
      WalkGrows(r, dep, r, dep, w, j);
    }
    WalkUnaffected(r, u, w, LeafLevel(), t);
  }

  /** The leaf entry that is written makes at most the page mapped present. */
  lemma LeafWriteMakesOnePage(u: Space, dep: map<nat, nat>, v: nat, e: PageEntry, r: Space, w: nat, t: nat)
    requires Levelled(u, dep) && Supply(u, dep, 0) && t in dep && dep[t] == 3 && e.physicalAddress < FRAMES
    requires t == Walk(u, v, LeafLevel()) && (e.present ==> PathPresent(u, v, 3))
    requires r == u.WithEntry(t, Index(v, 3), e) && Page(w) != Page(v)
    ensures NoNewPage(u, r, w)
  {
    if PathPresent(r, w, 4) {
      LeafWriteWalk(u, dep, t, Index(v, 3), e, r, w);
      PathPresentStep(r, w, 3);
      PathPresentStep(u, w, 3);
      if Walk(u, w, LeafLevel()) == t && Index(w, 3) == Index(v, 3) {
        LeavesDiffer(u, dep, v, w);
      }
    }
  }

  /** Whatever the flags, no other page becomes present. */
  lemma OtherPageStaysAbsent(s: Space, dep: map<nat, nat>, v: nat, p: nat, flags: Byte, w: nat)
    requires Levelled(s, dep) && Supply(s, dep, 3) && Page(w) != Page(v) && !PathPresent(s, w, 4)
    ensures !PathPresent(Mapped(s, v, p, flags), w, 4)
  {
    DescendedKeepsLevels(s, dep, v, flags, LeafLevel());
    DescendedKeepsRoots(s, dep, v, flags, LeafLevel());
    DescendedMakesNoPage(s, dep, v, flags, LeafLevel(), w);
    var (u, t) := Descended(s, v, flags, LeafLevel());
    LeafWriteMakesOnePage(u, DescendedLevels(s, dep, v, flags, LeafLevel()), v,
                          FilledEntry(u.Entry(t, Index(v, 3)), flags, p / PAGE_SIZE, 0), Mapped(s, v, p, flags), w, t);
  }

  // ---------- the plain map ----------

  /** What one call makes of the map: with bit 1 of the flags set it adds the page, otherwise it takes it away. */
  function Updated(m: map<nat, nat>, v: nat, p: nat, flags: Byte): map<nat, nat> {
    if PresentFlag(flags) then m[Page(v) := p / PAGE_SIZE % FRAMES] else m - {Page(v)}
  }

  lemma MappedPageAgrees(s: Space, dep: map<nat, nat>, m: map<nat, nat>, v: nat, p: nat, flags: Byte, q: nat, r: Space)
    requires Levelled(s, dep) && Supply(s, dep, 3) && q == Page(v) && r == Mapped(s, v, p, flags)
    ensures PageAgrees(r, Updated(m, v, p, flags), q)
  {
    PageOfPageAddress(q);
    MappedLeaf(s, dep, v, p, flags);
    PathPresentStep(r, v, 3);
    if PathPresent(r, v, 4) { PathOfPage(r, v, PageAddress(q)); }
    if PathPresent(r, PageAddress(q), 4) { PathOfPage(r, PageAddress(q), v); }
  }

  lemma OtherPageAgrees(s: Space, dep: map<nat, nat>, m: map<nat, nat>, v: nat, p: nat, flags: Byte, q: nat, r: Space)
    requires Levelled(s, dep) && Supply(s, dep, 3) && q < PAGES && q != Page(v) && r == Mapped(s, v, p, flags)
    requires PageAgrees(s, m, q)
    ensures PageAgrees(r, Updated(m, v, p, flags), q)
  {
    PageOfPageAddress(q);
    if q in m {
      OtherLeafKept(s, dep, v, p, flags, PageAddress(q));
    } else {
      OtherPageStaysAbsent(s, dep, v, p, flags, PageAddress(q));
    }
  }

  /** One call updates the plain map at one page. */
  lemma MappedRefines(s: Space, dep: map<nat, nat>, m: map<nat, nat>, v: nat, p: nat, flags: Byte, r: Space,
                      m': map<nat, nat>)
    requires Levelled(s, dep) && Supply(s, dep, 3) && Agrees(s, m)
    requires r == Mapped(s, v, p, flags) && m' == Updated(m, v, p, flags)
    ensures Agrees(r, m')
  {
    forall q | 0 <= q < PAGES ensures PageAgrees(r, m', q) {
      assert PageAgrees(s, m, q);
      if q == Page(v) {
        MappedPageAgrees(s, dep, m, v, p, flags, q, r);
      } else {
        OtherPageAgrees(s, dep, m, v, p, flags, q, r);
      }
    }
  }

  // ---------- runs ----------

  datatype Call = Call(virtualAddress: Address, physicalAddress: Address, flags: Byte)

  ghost function MapAll(s: Space, calls: seq<Call>): (r: Space)
    requires s.Total()
    ensures r.Total()
    decreases |calls|
  {
    if calls == [] then s
    else MapAll(Mapped(s, calls[0].virtualAddress, calls[0].physicalAddress, calls[0].flags), calls[1..])
  }

  /** The plain map: the last call for a page decides. */
  ghost function PlainMap(m: map<nat, nat>, calls: seq<Call>): map<nat, nat>
    decreases |calls|
  {
    if calls == [] then m
    else PlainMap(Updated(m, calls[0].virtualAddress, calls[0].physicalAddress, calls[0].flags), calls[1..])
  }

  ghost function LevelsAfter(s: Space, dep: map<nat, nat>, calls: seq<Call>): map<nat, nat>
    requires s.Total()
    decreases |calls|
  {
    if calls == [] then dep
    else
      var Call(v, p, flags) := calls[0];
      LevelsAfter(Mapped(s, v, p, flags), DescendedLevels(s, dep, v, flags, LeafLevel()), calls[1..])
  }

  /** `r`, `dep'` and `m'` are what one call makes of `s`, `dep` and `m`. */
  ghost predicate Called(s: Space, dep: map<nat, nat>, m: map<nat, nat>, c: Call, r: Space, dep': map<nat, nat>,
                         m': map<nat, nat>)
    requires s.Total()
  {
    && r == Mapped(s, c.virtualAddress, c.physicalAddress, c.flags)
    && dep' == DescendedLevels(s, dep, c.virtualAddress, c.flags, LeafLevel())
    && m' == Updated(m, c.virtualAddress, c.physicalAddress, c.flags)
  }

  /** Tables that keep their levels and agree with the map, with room for `n` more tables. */
  ghost predicate Refines(s: Space, dep: map<nat, nat>, m: map<nat, nat>, n: nat) {
    Levelled(s, dep) && Supply(s, dep, n) && Agrees(s, m)
  }

  lemma OneCall(s: Space, dep: map<nat, nat>, m: map<nat, nat>, c: Call, n: nat, r: Space, dep': map<nat, nat>,
                m': map<nat, nat>)
    requires Refines(s, dep, m, n + 3) && Called(s, dep, m, c, r, dep', m')
    ensures Refines(r, dep', m', n) && |dep'| <= |dep| + 3
    ensures Tree(s, dep) && PresentFlag(c.flags) ==> Tree(r, dep')
  {
    MappedKeepsTree(s, dep, c.virtualAddress, c.physicalAddress, c.flags);
    MappedRefines(s, dep, m, c.virtualAddress, c.physicalAddress, c.flags, r, m');
  }

  /** The functions of a run, after its first call. */
  lemma FirstCall(s: Space, dep: map<nat, nat>, m: map<nat, nat>, calls: seq<Call>, r: Space, dep': map<nat, nat>,
                  m': map<nat, nat>)
    requires s.Total() && calls != [] && Called(s, dep, m, calls[0], r, dep', m')
    ensures r.Total() && MapAll(s, calls) == MapAll(r, calls[1..])
    ensures PlainMap(m, calls) == PlainMap(m', calls[1..])
  {
  }

  lemma FirstLevels(s: Space, dep: map<nat, nat>, m: map<nat, nat>, calls: seq<Call>, r: Space, dep': map<nat, nat>,
                    m': map<nat, nat>)
    requires s.Total() && r.Total() && calls != [] && Called(s, dep, m, calls[0], r, dep', m')
    ensures LevelsAfter(s, dep, calls) == LevelsAfter(r, dep', calls[1..])
  {
  }

  /** Every call sets the present bit. */
  ghost predicate AllPresent(calls: seq<Call>) {
    forall k :: 0 <= k < |calls| ==> PresentFlag(calls[k].flags)
  }

  lemma RestPresent(calls: seq<Call>)
    requires calls != [] && AllPresent(calls)
    ensures PresentFlag(calls[0].flags) && AllPresent(calls[1..])
  {
  }

  /** Over any sequence of calls, with any flags, the tables keep their levels
      and map exactly what the plain map does; and they stay a tree if every
      call sets the present bit. */
  lemma {:induction false} MapAllRefines(s: Space, dep: map<nat, nat>, m: map<nat, nat>, calls: seq<Call>)
    requires Refines(s, dep, m, 3 * |calls|)
    ensures Refines(MapAll(s, calls), LevelsAfter(s, dep, calls), PlainMap(m, calls), 0)
    ensures |LevelsAfter(s, dep, calls)| <= |dep| + 3 * |calls|
    ensures Tree(s, dep) && AllPresent(calls) ==> Tree(MapAll(s, calls), LevelsAfter(s, dep, calls))
    decreases |calls|
  {
    if calls != [] {
      var c, rest := calls[0], calls[1..];
      var r := Mapped(s, c.virtualAddress, c.physicalAddress, c.flags);
      var dep' := DescendedLevels(s, dep, c.virtualAddress, c.flags, LeafLevel());
      var m' := Updated(m, c.virtualAddress, c.physicalAddress, c.flags);
      OneCall(s, dep, m, c, 3 * |rest|, r, dep', m');
      MapAllRefines(r, dep', m', rest);
      FirstCall(s, dep, m, calls, r, dep', m');
      FirstLevels(s, dep, m, calls, r, dep', m');
      if AllPresent(calls) { RestPresent(calls); }
    }
  }

  /** After any sequence of calls the pages that are present are those of the
      plain map, and every address of such a page gives its frame's address, as
      far as 40 bits hold it, with the offset kept. */
  lemma TranslationAgreesWithMap(s: Space, dep: map<nat, nat>, m: map<nat, nat>, calls: seq<Call>, v: Address)
    requires Refines(s, dep, m, 3 * |calls|)
    ensures PathPresent(MapAll(s, calls), v, 4) <==> Page(v) in PlainMap(m, calls)
    ensures Page(v) in PlainMap(m, calls) ==>
              PhysicalAddress(MapAll(s, calls), v) == PlainMap(m, calls)[Page(v)] * 4096 % 0x100_0000_0000 + v % 4096
  {
    MapAllRefines(s, dep, m, calls);
    AgreedTranslation(MapAll(s, calls), PlainMap(m, calls), v);
  }

  lemma AgreedTranslation(r: Space, m: map<nat, nat>, v: Address)
    requires r.Total() && Agrees(r, m)
    ensures PathPresent(r, v, 4) <==> Page(v) in m
    ensures Page(v) in m ==> PhysicalAddress(r, v) == m[Page(v)] * PAGE_SIZE % FRAMES + v % PAGE_SIZE
  {
    var q := Page(v);
    assert PageAgrees(r, m, q);
    PageOfPageAddress(q);
    if PathPresent(r, v, 4) { PathOfPage(r, v, PageAddress(q)); }
    if PathPresent(r, PageAddress(q), 4) { PathOfPage(r, PageAddress(q), v); }
  }

  lemma FortyBits(p: Address)
    ensures p / PAGE_SIZE % FRAMES * PAGE_SIZE % FRAMES == p - p % PAGE_SIZE <==> p < FRAMES
  {
    assert p == p / PAGE_SIZE * PAGE_SIZE + p % PAGE_SIZE;
  }

  /** A page maps to the address it was given exactly if that address is below 2^40. */
  lemma TranslationExactIff(s: Space, dep: map<nat, nat>, v: Address, p: Address, flags: Byte)
    requires Levelled(s, dep) && Supply(s, dep, 3)
    ensures PhysicalAddress(Mapped(s, v, p, flags), v) == p - p % 4096 + v % 4096 <==> p < 0x100_0000_0000
  {
    MappedLeaf(s, dep, v, p, flags);
    FortyBits(p);
  }

  /** A page is present for the processor exactly if bit 1 of the flags was set. */
  lemma PagePresentIff(s: Space, dep: map<nat, nat>, v: Address, p: Address, flags: Byte)
    requires Levelled(s, dep) && Supply(s, dep, 3)
    ensures PathPresent(Mapped(s, v, p, flags), v, 4) <==> flags / 2 % 2 == 1
  {
    MappedLeaf(s, dep, v, p, flags);
    PathPresentStep(Mapped(s, v, p, flags), v, 3);
  }
}
