/**
  What the entries on the way to a mapped page say, bit by bit: which rights
  the flags of `mapPage` give, and to which pages.
*/
module PageRights {
  import opened PageTables
  import opened PageTree

  /** An entry as the flags say: bit 1 makes it present, bit 2 writable, bit 3
      user accessible, and bit 7 forbids execution. The hardware's accessed and
      dirty bits are those of `old`, and everything else is clear. */
  ghost predicate EntrySays(e: PageEntry, old_: PageEntry, flags: Byte) {
    && (e.present <==> flags / 2 % 2 == 1) && (e.writable <==> flags / 4 % 2 == 1)
    && (e.userAccessible <==> flags / 8 % 2 == 1) && (e.noExecute <==> flags >= 128)
    && !e.writeThroughCaching && !e.disableCache && !e.null_ && !e.global && e.avl1 == 0 && e.avl2 == 0
    && e.accessed == old_.accessed && e.dirty == old_.dirty
  }

  lemma FilledEntrySays(e: PageEntry, flags: Byte, frame: nat)
    ensures EntrySays(FilledEntry(e, flags, frame, 0), e, flags)
  {
  }

  /** Entry (`t`, `i`) after the call: an upper entry that was present is the
      same, and any other one that is passed says what the flags say. */
  ghost predicate PassedEntry(s: Space, u: Space, t: nat, i: nat, flags: Byte)
    requires s.Total() && u.Total() && t < FRAMES && i < 512
  {
    if s.Entry(t, i).present then u.Entry(t, i) == s.Entry(t, i)
    else EntrySays(u.Entry(t, i), s.Entry(t, i), flags)
  }

  /** The entries of level `d` and below, and of frames that are no tables yet, are still those of before. */
  ghost predicate NotYet(s: Space, u: Space, dep': map<nat, nat>, d: nat)
    requires s.Total() && u.Total()
  {
    forall t, i {:trigger u.Entry(t, i)} ::
      0 <= t < FRAMES && 0 <= i < 512 && (t in dep' ==> dep'[t] >= d) ==> u.Entry(t, i) == s.Entry(t, i)
  }

  /** The entry at step `j` of the walk. */
  ghost predicate PassedAt(s: Space, u: Space, v: nat, flags: Byte, j: nat)
    requires s.Total() && u.Total() && j <= 3
  {
    PassedEntry(s, u, Walk(u, v, j), Index(v, j), flags)
  }

  /** The first `d` entries of the walk of `v` have been passed. */
  ghost predicate Passed(s: Space, u: Space, v: nat, flags: Byte, d: nat)
    requires s.Total() && u.Total() && d <= 3
  {
    forall j {:trigger PassedAt(s, u, v, flags, j)} :: 0 <= j < d ==> PassedAt(s, u, v, flags, j)
  }

  /** From the first entry on that was not present, the tables of the walk had no present entries. */
  ghost predicate EmptyAt(s: Space, u: Space, v: nat, j: nat)
    requires s.Total() && u.Total() && j <= 3
  {
    !PathPresent(s, v, j) ==> forall i :: 0 <= i < 512 ==> !s.Entry(Walk(u, v, j), i).present
  }

  ghost predicate EmptyBelow(s: Space, u: Space, v: nat, d: nat)
    requires s.Total() && u.Total() && d <= 3
  {
    forall j {:trigger EmptyAt(s, u, v, j)} :: 0 <= j <= d ==> EmptyAt(s, u, v, j)
  }

  // ---------- one step down ----------

  lemma StepNotYet(s: Space, u: Space, dep: map<nat, nat>, t: nat, i: nat, flags: Byte, r: Space, dep': map<nat, nat>)
    requires s.Total() && Levelled(u, dep) && Supply(u, dep, 1) && t in dep && dep[t] < 3 && i < 512
    requires NotYet(s, u, dep, dep[t])
    requires r == EnsuredEntry(u, t, i, flags) && dep' == GrownBy(u, dep, t, i)
    ensures NotYet(s, r, dep', dep[t] + 1)
    ensures PassedEntry(s, r, t, i, flags)
  {
    EnsuredEntryChanges(u, dep, t, i, flags);
    assert u.Entry(t, i) == s.Entry(t, i);
    assert u.pool != [] && FreshFrame(u, dep, u.pool[0]);
    if !u.Entry(t, i).present { FilledEntrySays(u.Entry(t, i), flags, u.pool[0]); }
  }

  lemma StepPassed(s: Space, dep: map<nat, nat>, u: Space, v: nat, d: nat, flags: Byte, r: Space)
    requires s.Total() && d < 3 && Levelled(u, dep) && Supply(u, dep, 1) && WalkLevels(u, dep, v, d)
    requires r == EnsuredEntry(u, Walk(u, v, d), Index(v, d), flags)
    requires forall j :: 0 <= j <= d ==> Walk(r, v, j) == Walk(u, v, j)
    requires Passed(s, u, v, flags, d) && PassedEntry(s, r, Walk(u, v, d), Index(v, d), flags)
    ensures Passed(s, r, v, flags, d + 1)
  {
    EnsuredEntryChanges(u, dep, Walk(u, v, d), Index(v, d), flags);
    forall j | 0 <= j < d + 1 ensures PassedAt(s, r, v, flags, j) {
      if j < d { assert PassedAt(s, u, v, flags, j); }
    }
  }

  lemma StepEmpty(s: Space, dep: map<nat, nat>, u: Space, v: nat, d: nat, flags: Byte, r: Space)
    requires s.Total() && d < 3 && Levelled(u, dep) && Supply(u, dep, 1) && WalkLevels(u, dep, v, d)
    requires r == EnsuredEntry(u, Walk(u, v, d), Index(v, d), flags) && NotYet(s, u, dep, d)
    requires forall j :: 0 <= j <= d ==> Walk(r, v, j) == Walk(u, v, j)
    requires Walk(r, v, d + 1) == NextTable(r, Walk(u, v, d), Index(v, d))
    requires EmptyBelow(s, u, v, d) && (PathPresent(s, v, d) ==> u == s)
    ensures EmptyBelow(s, r, v, d + 1)
  {
    var t, i := Walk(u, v, d), Index(v, d);
    EnsuredEntryChanges(u, dep, t, i, flags);
    PathPresentStep(s, v, d);
    assert EmptyAt(s, u, v, d) && u.Entry(t, i) == s.Entry(t, i);
    forall j | 0 <= j <= d + 1 ensures EmptyAt(s, r, v, j) {
      if j <= d {
        assert EmptyAt(s, u, v, j);
      } else if !PathPresent(s, v, d + 1) {
        FreshIsEmpty(s, u, dep, d);
        assert Walk(r, v, d + 1) == u.pool[0];
      }
    }
  }

  lemma FreshIsEmpty(s: Space, u: Space, dep: map<nat, nat>, d: nat)
    requires s.Total() && u.Total() && Supply(u, dep, 1) && NotYet(s, u, dep, d)
    ensures u.pool[0] < FRAMES && forall i :: 0 <= i < 512 ==> !s.Entry(u.pool[0], i).present
  {
    assert FreshFrame(u, dep, u.pool[0]);
    forall i | 0 <= i < 512 ensures !s.Entry(u.pool[0], i).present {
      assert u.Entry(u.pool[0], i) == s.Entry(u.pool[0], i);
    }
  }

  // ---------- the way down ----------

  /** What holds after `d` steps. */
  ghost predicate WayDown(s: Space, u: Space, dep': map<nat, nat>, v: nat, flags: Byte, d: nat)
    requires s.Total() && u.Total() && d <= 3
  {
    NotYet(s, u, dep', d) && Passed(s, u, v, flags, d) && EmptyBelow(s, u, v, d)
  }

  lemma WayDownStep(s: Space, dep: map<nat, nat>, u: Space, dep': map<nat, nat>, v: nat, d: nat, flags: Byte,
                    r: Space, dep'': map<nat, nat>)
    requires s.Total() && u.Total() && d < 3
    requires Underway(s, dep, u, dep', v, Walk(u, v, d), d) && Supply(u, dep', 1)
    requires WayDown(s, u, dep', v, flags, d) && (PathPresent(s, v, d) ==> u == s)
    requires r == EnsuredEntry(u, Walk(u, v, d), Index(v, d), flags)
    requires dep'' == GrownBy(u, dep', Walk(u, v, d), Index(v, d))
    ensures WayDown(s, r, dep'', v, flags, d + 1)
  {
    StepDown(u, dep', v, flags, d);
    StepNotYet(s, u, dep', Walk(u, v, d), Index(v, d), flags, r, dep'');
    StepPassed(s, dep', u, v, d, flags, r);
    StepEmpty(s, dep', u, v, d, flags, r);
  }

  lemma DescendedWayStep(s: Space, dep: map<nat, nat>, v: nat, flags: Byte, d: nat)
    requires Levelled(s, dep) && d < 3 && Supply(s, dep, d + 1)
    requires WayDown(s, Descended(s, v, flags, d).0, DescendedLevels(s, dep, v, flags, d), v, flags, d)
    ensures WayDown(s, Descended(s, v, flags, d + 1).0, DescendedLevels(s, dep, v, flags, d + 1), v, flags, d + 1)
  {
    DescendedKeepsLevels(s, dep, v, flags, d);
    DescendedKeepsRoots(s, dep, v, flags, d);
    DescendedOnce(s, dep, v, flags, d);
    var u := Descended(s, v, flags, d).0;
    WayDownStep(s, dep, u, DescendedLevels(s, dep, v, flags, d), v, d, flags,
                Descended(s, v, flags, d + 1).0, DescendedLevels(s, dep, v, flags, d + 1));
  }

  lemma {:induction false} DescendedWayDown(s: Space, dep: map<nat, nat>, v: nat, flags: Byte, d: nat)
    requires Levelled(s, dep) && d <= 3 && Supply(s, dep, d)
    ensures WayDown(s, Descended(s, v, flags, d).0, DescendedLevels(s, dep, v, flags, d), v, flags, d)
  {
    if d > 0 {
      DescendedWayDown(s, dep, v, flags, d - 1);
      DescendedWayStep(s, dep, v, flags, d - 1);
    } else {
      assert EmptyAt(s, s, v, 0);
    }
  }

  // ---------- the mapped page ----------

  /** Writing the leaf entry keeps the entries above, and where the walk goes. */
  lemma LeafWritePasses(s: Space, u: Space, dep: map<nat, nat>, v: nat, flags: Byte, e: PageEntry, r: Space)
    requires s.Total() && Levelled(u, dep) && WalkLevels(u, dep, v, 3) && WayDown(s, u, dep, v, flags, 3)
    requires e.physicalAddress < FRAMES && r == u.WithEntry(Walk(u, v, LeafLevel()), Index(v, 3), e)
    ensures Passed(s, r, v, flags, 3) && EmptyBelow(s, r, v, 3)
    ensures Leaf(r, v) == e && Walk(r, v, LeafLevel()) == Walk(u, v, LeafLevel())
    ensures u.Entry(Walk(u, v, LeafLevel()), Index(v, 3)) == s.Entry(Walk(u, v, LeafLevel()), Index(v, 3))
  {
    WalkUnaffected(u, r, v, LeafLevel(), Walk(u, v, LeafLevel()));
    forall j | 0 <= j < 3 ensures PassedAt(s, r, v, flags, j) {
      assert PassedAt(s, u, v, flags, j);
    }
    forall j | 0 <= j <= 3 ensures EmptyAt(s, r, v, j) {
      assert EmptyAt(s, u, v, j);
    }
  }

  /** After a call, whatever the flags: the upper entries of the walk that were
      present are the same, and the others, and the leaf entry always, say what
      the flags say. */
  lemma MappedEntriesSay(s: Space, dep: map<nat, nat>, v: nat, p: nat, flags: Byte)
    requires Levelled(s, dep) && Supply(s, dep, 3)
    ensures var r := Mapped(s, v, p, flags);
            && Passed(s, r, v, flags, 3) && EmptyBelow(s, r, v, 3)
            && EntrySays(Leaf(r, v), s.Entry(Walk(r, v, LeafLevel()), Index(v, 3)), flags)
  {
    DescendedKeepsLevels(s, dep, v, flags, LeafLevel());
    DescendedWayDown(s, dep, v, flags, LeafLevel());
    var (u, t) := Descended(s, v, flags, LeafLevel());
    var e := FilledEntry(u.Entry(t, Index(v, 3)), flags, p / PAGE_SIZE, 0);
    FilledEntrySays(u.Entry(t, Index(v, 3)), flags, p / PAGE_SIZE);
    LeafWritePasses(s, u, DescendedLevels(s, dep, v, flags, LeafLevel()), v, flags, e, Mapped(s, v, p, flags));
  }

  // ---------- rights over the whole walk ----------

  /** The entry of step `j`. */
  function StepEntry(s: Space, v: nat, j: nat): PageEntry
    requires s.Total() && j < 4
  {
    s.Entry(Walk(s, v, j), Index(v, j))
  }

  /** What the processor asks of all four entries: section 4.6 of the Intel SDM, Volume 3A. */
  ghost predicate Writable(s: Space, v: nat)
    requires s.Total()
  {
    forall j {:trigger StepEntry(s, v, j)} :: 0 <= j < 4 ==> StepEntry(s, v, j).writable
  }

  ghost predicate UserAccessible(s: Space, v: nat)
    requires s.Total()
  {
    forall j {:trigger StepEntry(s, v, j)} :: 0 <= j < 4 ==> StepEntry(s, v, j).userAccessible
  }

  ghost predicate Executable(s: Space, v: nat)
    requires s.Total()
  {
    forall j {:trigger StepEntry(s, v, j)} :: 0 <= j < 4 ==> !StepEntry(s, v, j).noExecute
  }

  /** The upper entries that were there before the call; nothing changes them. */
  ghost predicate OldStep(s: Space, r: Space, v: nat, j: nat)
    requires s.Total() && r.Total() && j < 3
  {
    s.Entry(Walk(r, v, j), Index(v, j)).present
  }

  /** Step `j` is an old entry, or says what the flags say. */
  ghost predicate StepSaid(s: Space, r: Space, v: nat, flags: Byte, j: nat)
    requires s.Total() && r.Total() && j < 4
  {
    var e, was := StepEntry(r, v, j), s.Entry(Walk(r, v, j), Index(v, j));
    if j < 3 && OldStep(s, r, v, j) then e == was else EntrySays(e, was, flags)
  }

  lemma StepSays(s: Space, r: Space, v: nat, flags: Byte, j: nat)
    requires s.Total() && r.Total() && Passed(s, r, v, flags, 3) && j < 4
    requires EntrySays(Leaf(r, v), s.Entry(Walk(r, v, LeafLevel()), Index(v, 3)), flags)
    ensures StepSaid(s, r, v, flags, j)
  {
    if j < 3 { assert PassedAt(s, r, v, flags, j); }
  }

  ghost predicate StepsSaid(s: Space, r: Space, v: nat, flags: Byte)
    requires s.Total() && r.Total()
  {
    forall j {:trigger StepSaid(s, r, v, flags, j)} :: 0 <= j < 4 ==> StepSaid(s, r, v, flags, j)
  }

  lemma MappedStepsSay(s: Space, dep: map<nat, nat>, v: nat, p: nat, flags: Byte, r: Space)
    requires Levelled(s, dep) && Supply(s, dep, 3) && r == Mapped(s, v, p, flags)
    ensures StepsSaid(s, r, v, flags) && EmptyBelow(s, r, v, 3)
  {
    MappedEntriesSay(s, dep, v, p, flags);
    forall j | 0 <= j < 4 ensures StepSaid(s, r, v, flags, j) {
      StepSays(s, r, v, flags, j);
    }
  }

  /** The old tables of the walk allow writing. */
  ghost predicate OldWritable(s: Space, r: Space, v: nat)
    requires s.Total() && r.Total()
  {
    forall j {:trigger OldStep(s, r, v, j)} :: 0 <= j < 3 && OldStep(s, r, v, j) ==> StepEntry(r, v, j).writable
  }

  ghost predicate OldUserAccessible(s: Space, r: Space, v: nat)
    requires s.Total() && r.Total()
  {
    forall j {:trigger OldStep(s, r, v, j)} :: 0 <= j < 3 && OldStep(s, r, v, j) ==> StepEntry(r, v, j).userAccessible
  }

  ghost predicate OldExecutable(s: Space, r: Space, v: nat)
    requires s.Total() && r.Total()
  {
    forall j {:trigger OldStep(s, r, v, j)} :: 0 <= j < 3 && OldStep(s, r, v, j) ==> !StepEntry(r, v, j).noExecute
  }

  lemma StepRights(s: Space, r: Space, v: nat, flags: Byte, j: nat)
    requires s.Total() && r.Total() && j < 4 && StepSaid(s, r, v, flags, j)
    ensures !(j < 3 && OldStep(s, r, v, j)) ==>
              && (StepEntry(r, v, j).writable <==> flags / 4 % 2 == 1)
              && (StepEntry(r, v, j).userAccessible <==> flags / 8 % 2 == 1)
              && (StepEntry(r, v, j).noExecute <==> flags >= 128)
  {
  }

  lemma RightsIff(s: Space, r: Space, v: nat, flags: Byte)
    requires s.Total() && r.Total() && StepsSaid(s, r, v, flags)
    ensures Writable(r, v) <==> flags / 4 % 2 == 1 && OldWritable(s, r, v)
    ensures UserAccessible(r, v) <==> flags / 8 % 2 == 1 && OldUserAccessible(s, r, v)
    ensures Executable(r, v) <==> flags < 128 && OldExecutable(s, r, v)
  {
    forall j | 0 <= j < 4
      ensures !(j < 3 && OldStep(s, r, v, j)) ==>
                && (StepEntry(r, v, j).writable <==> flags / 4 % 2 == 1)
                && (StepEntry(r, v, j).userAccessible <==> flags / 8 % 2 == 1)
                && (StepEntry(r, v, j).noExecute <==> flags >= 128)
    {
      assert StepSaid(s, r, v, flags, j);
      StepRights(s, r, v, flags, j);
    }
    assert StepEntry(r, v, 3) == StepEntry(r, v, 3);
  }

  /** A page is writable after its mapping exactly if bit 2 of the flags is set
      and the tables that were there before allow it; bit 3 is for user access,
      and bit 7 forbids execution, in the same way. */
  lemma MappedRightsIff(s: Space, dep: map<nat, nat>, v: nat, p: nat, flags: Byte, r: Space)
    requires Levelled(s, dep) && Supply(s, dep, 3) && r == Mapped(s, v, p, flags)
    ensures Writable(r, v) <==> flags / 4 % 2 == 1 && OldWritable(s, r, v)
    ensures UserAccessible(r, v) <==> flags / 8 % 2 == 1 && OldUserAccessible(s, r, v)
    ensures Executable(r, v) <==> flags < 128 && OldExecutable(s, r, v)
  {
    MappedStepsSay(s, dep, v, p, flags, r);
    RightsIff(s, r, v, flags);
  }

  lemma NoOldStep(s: Space, r: Space, v: nat)
    requires s.Total() && r.Total() && s.pml4 == r.pml4 && EmptyBelow(s, r, v, 3)
    requires !s.Entry(s.pml4, Index(v, 0)).present
    ensures forall j :: 0 <= j < 3 ==> !OldStep(s, r, v, j)
  {
    PathPresentStep(s, v, 0);
    PathPresentStep(s, v, 1);
    assert EmptyAt(s, r, v, 1) && EmptyAt(s, r, v, 2);
    assert !OldStep(s, r, v, 0) && !OldStep(s, r, v, 1) && !OldStep(s, r, v, 2);
  }

  /** If nothing was there below the root, the flags alone decide. */
  lemma NewPageRightsIff(s: Space, dep: map<nat, nat>, v: nat, p: nat, flags: Byte, r: Space)
    requires Levelled(s, dep) && Supply(s, dep, 3) && r == Mapped(s, v, p, flags)
    requires !s.Entry(s.pml4, Index(v, 0)).present
    ensures Writable(r, v) <==> flags / 4 % 2 == 1
    ensures UserAccessible(r, v) <==> flags / 8 % 2 == 1
    ensures Executable(r, v) <==> flags < 128
  {
    MappedStepsSay(s, dep, v, p, flags, r);
    RightsIff(s, r, v, flags);
    NoOldStep(s, r, v);
  }
}
