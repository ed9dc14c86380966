/**
  The shape of the page tables: a tree of depth four below the root table, and
  what mapping a page keeps of it. `dep` gives every table its level; the root
  is at level 0 and the tables of leaf entries are at level 3.
*/
module PageTree {
  import opened Arithmetic
  import opened PageTables

  /** A present slot of a table above the leaf level. */
  ghost predicate Slot(s: Space, dep: map<nat, nat>, t: nat, i: nat)
    requires s.Total()
  {
    t in dep && dep[t] < 3 && t < FRAMES && i < 512 && s.Entry(t, i).present
  }

  ghost predicate Child(s: Space, dep: map<nat, nat>, t: nat, i: nat, c: nat)
    requires s.Total()
  {
    Slot(s, dep, t, i) && s.Entry(t, i).physicalAddress == c
  }

  /** Levels never mix, and no table has two parent slots. */
  ghost predicate Levelled(s: Space, dep: map<nat, nat>) {
    && s.Total()
    && s.pml4 in dep && dep[s.pml4] == 0
    && (forall t :: t in dep ==> t < LOW_FRAMES && dep[t] <= 3 && (dep[t] == 0 ==> t == s.pml4))
    && (forall t, i, c :: Child(s, dep, t, i, c) ==> c in dep && dep[c] == dep[t] + 1)
    && (forall t, i, u, j, c :: Child(s, dep, t, i, c) && Child(s, dep, u, j, c) ==> t == u && i == j)
  }

  /** Every table below the root has a parent slot. */
  ghost predicate Rooted(s: Space, dep: map<nat, nat>)
    requires s.Total()
  {
    forall c :: c in dep && dep[c] > 0 ==> exists t, i :: Child(s, dep, t, i, c)
  }

  ghost predicate Tree(s: Space, dep: map<nat, nat>) {
    Levelled(s, dep) && Rooted(s, dep)
  }

  ghost predicate FreshFrame(s: Space, dep: map<nat, nat>, f: nat)
    requires s.Total()
  {
    f < LOW_FRAMES && f !in dep && forall i :: 0 <= i < 512 ==> !s.Entry(f, i).present
  }

  /** What is asked of the allocator: at least `n` more frames, distinct, not
      yet tables, and without a present entry. */
  ghost predicate Supply(s: Space, dep: map<nat, nat>, n: nat)
    requires s.Total()
  {
    && n <= |s.pool|
    && (forall k :: 0 <= k < |s.pool| ==> FreshFrame(s, dep, s.pool[k]))
    && (forall j, k :: 0 <= j < k < |s.pool| ==> s.pool[j] != s.pool[k])
  }

  /** A root table without present entries, with distinct fresh frames to come, is a tree. */
  lemma EmptyTablesAreTree(s: Space)
    requires s.Total() && s.pml4 < LOW_FRAMES && forall i :: 0 <= i < 512 ==> !s.Entry(s.pml4, i).present
    requires forall k :: 0 <= k < |s.pool| ==> s.pool[k] != s.pml4 && FreshFrame(s, map[], s.pool[k])
    requires forall j, k :: 0 <= j < k < |s.pool| ==> s.pool[j] != s.pool[k]
    ensures Tree(s, map[s.pml4 := 0]) && Supply(s, map[s.pml4 := 0], |s.pool|)
  {
    var dep := map[s.pml4 := 0];
    forall k | 0 <= k < |s.pool| ensures FreshFrame(s, dep, s.pool[k]) {
      assert FreshFrame(s, map[], s.pool[k]);
    }
    assert forall t, i, c :: !Child(s, dep, t, i, c);
  }

  /** `t` is one step further down in the same tree or a grown one: present
      upper entries, and all tables, are as they were. */
  ghost predicate Grows(s: Space, dep: map<nat, nat>, t: Space, dep': map<nat, nat>) {
    && s.Total() && t.Total() && s.pml4 == t.pml4
    && (forall u :: u in dep ==> u in dep' && dep'[u] == dep[u])
    && (forall u, i :: Slot(s, dep, u, i) ==> t.Entry(u, i) == s.Entry(u, i))
  }

  /** The levels once entry `i` of `t` was ensured. */
  ghost function GrownBy(s: Space, dep: map<nat, nat>, t: nat, i: nat): map<nat, nat>
    requires s.Total() && t in dep && t < FRAMES && i < 512
  {
    if s.Entry(t, i).present || s.pool == [] then dep else dep[s.pool[0] := dep[t] + 1]
  }

  lemma EnsuredEntryChanges(s: Space, dep: map<nat, nat>, t: nat, i: nat, flags: Byte)
    requires Levelled(s, dep) && Supply(s, dep, 1) && t in dep && dep[t] < 3 && i < 512
    ensures var r := EnsuredEntry(s, t, i, flags);
            && (forall u, j :: 0 <= u < FRAMES && 0 <= j < 512 && !(u == t && j == i)
                  ==> r.Entry(u, j) == s.Entry(u, j))
            && NextTable(r, t, i) == r.Entry(t, i).physicalAddress
            && (s.Entry(t, i).present ==> r == s)
            && (!s.Entry(t, i).present ==>
                  r.Entry(t, i).physicalAddress == s.pool[0] && r.pool == s.pool[1..]
                  && (r.Entry(t, i).present <==> PresentFlag(flags)))
  {
    if s.Entry(t, i).present {
      assert Child(s, dep, t, i, s.Entry(t, i).physicalAddress);
    } else {
      assert FreshFrame(s, dep, s.pool[0]);
    }
  }

  lemma EnsuredEntryKeepsLevels(s: Space, dep: map<nat, nat>, t: nat, i: nat, flags: Byte)
    requires Levelled(s, dep) && Supply(s, dep, 1) && t in dep && dep[t] < 3 && i < 512
    ensures var r, dep' := EnsuredEntry(s, t, i, flags), GrownBy(s, dep, t, i);
            && Levelled(r, dep') && Supply(r, dep', |s.pool| - 1) && Grows(s, dep, r, dep')
            && NextTable(r, t, i) in dep' && dep'[NextTable(r, t, i)] == dep[t] + 1
  {
    EnsuredEntryChanges(s, dep, t, i, flags);
    if s.Entry(t, i).present {
      assert Child(s, dep, t, i, s.Entry(t, i).physicalAddress);
    } else {
      var r, dep', f := EnsuredEntry(s, t, i, flags), GrownBy(s, dep, t, i), s.pool[0];
      assert FreshFrame(s, dep, f);
      forall u, j, c | Child(r, dep', u, j, c)
        ensures (u == t && j == i && c == f) || (Child(s, dep, u, j, c) && c != f)
      {
        if !(u == t && j == i) { assert Child(s, dep, u, j, c); }
      }
      forall k | 0 <= k < |r.pool|
        ensures FreshFrame(r, dep', r.pool[k])
      {
        assert r.pool[k] == s.pool[k + 1] && FreshFrame(s, dep, s.pool[k + 1]);
      }
    }
  }

  /** Allocating a table adds one slot, if its entry is made present, and takes none away. */
  lemma AllocatedChildren(s: Space, dep: map<nat, nat>, t: nat, i: nat, flags: Byte)
    requires Levelled(s, dep) && Supply(s, dep, 1) && t in dep && dep[t] < 3 && i < 512 && !s.Entry(t, i).present
    ensures var r, dep', f := EnsuredEntry(s, t, i, flags), GrownBy(s, dep, t, i), s.pool[0];
            forall u, j, c :: Child(r, dep', u, j, c) <==>
                              Child(s, dep, u, j, c) || (PresentFlag(flags) && u == t && j == i && c == f)
  {
    EnsuredEntryChanges(s, dep, t, i, flags);
    assert FreshFrame(s, dep, s.pool[0]);
  }

  /** A table that was added has a parent exactly when its entry was made present. */
  lemma EnsuredEntryRooted(s: Space, dep: map<nat, nat>, t: nat, i: nat, flags: Byte)
    requires Levelled(s, dep) && Supply(s, dep, 1) && t in dep && dep[t] < 3 && i < 512
    ensures Rooted(EnsuredEntry(s, t, i, flags), GrownBy(s, dep, t, i))
            <==> Rooted(s, dep) && (PresentFlag(flags) || s.Entry(t, i).present)
  {
    if !s.Entry(t, i).present {
      AllocatedChildren(s, dep, t, i, flags);
      var r, dep', f := EnsuredEntry(s, t, i, flags), GrownBy(s, dep, t, i), s.pool[0];
      assert FreshFrame(s, dep, f);
      assert forall u, j :: !Child(s, dep, u, j, f);
      if PresentFlag(flags) {
        assert Child(r, dep', t, i, f);
        RootedIff(s, dep, r, dep', f);
      } else {
        assert dep'[f] > 0;
        assert forall u, j :: !Child(r, dep', u, j, f);
      }
    }
  }

  lemma RootedIff(s: Space, dep: map<nat, nat>, r: Space, dep': map<nat, nat>, f: nat)
    requires s.Total() && r.Total() && f !in dep && f in dep' && dep' == dep[f := dep'[f]]
    requires exists u, j :: Child(r, dep', u, j, f)
    requires forall u, j, c :: c != f ==> (Child(r, dep', u, j, c) <==> Child(s, dep, u, j, c))
    ensures Rooted(r, dep') <==> Rooted(s, dep)
  {
    if Rooted(s, dep) {
      forall c | c in dep' && dep'[c] > 0
        ensures exists u, j :: Child(r, dep', u, j, c)
      {
        if c != f {
          var u, j :| Child(s, dep, u, j, c);
          assert Child(r, dep', u, j, c);
        }
      }
    }
    if Rooted(r, dep') {
      forall c | c in dep && dep[c] > 0
        ensures exists u, j :: Child(s, dep, u, j, c)
      {
        assert c in dep' && dep'[c] > 0;
        var u, j :| Child(r, dep', u, j, c);
        assert Child(s, dep, u, j, c);
      }
    }
  }

  /** The first `d` steps of the walk of `v` go through present entries. */
  ghost predicate PathPresent(s: Space, v: nat, d: nat)
    requires s.Total() && d <= 4
  {
    forall j :: 0 <= j < d ==> s.Entry(Walk(s, v, j), Index(v, j)).present
  }

  ghost predicate WalkLevels(s: Space, dep: map<nat, nat>, v: nat, d: nat)
    requires s.Total() && d <= 3
  {
    forall j :: 0 <= j <= d ==> Walk(s, v, j) in dep && dep[Walk(s, v, j)] == j
  }

  /** A walk does not see entries of tables that it does not pass. */
  lemma {:induction false} WalkUnaffected(s: Space, r: Space, v: nat, d: nat, t: nat)
    requires s.Total() && r.Total() && s.pml4 == r.pml4 && d <= 3
    requires forall u, j :: 0 <= u < FRAMES && 0 <= j < 512 && u != t ==> r.Entry(u, j) == s.Entry(u, j)
    requires forall j :: 0 <= j < d ==> Walk(s, v, j) != t
    ensures forall j :: 0 <= j <= d ==> Walk(r, v, j) == Walk(s, v, j)
    ensures PathPresent(s, v, d) ==> PathPresent(r, v, d)
  {
    if d > 0 {
      WalkUnaffected(s, r, v, d - 1, t);
    }
  }

  /** One step down from the end of a walk of `d` steps. */
  lemma StepDown(s: Space, dep: map<nat, nat>, v: nat, flags: Byte, d: nat)
    requires Levelled(s, dep) && d < 3 && Supply(s, dep, 1) && WalkLevels(s, dep, v, d)
    ensures var t, i := Walk(s, v, d), Index(v, d);
            var r, dep' := EnsuredEntry(s, t, i, flags), GrownBy(s, dep, t, i);
            && (forall j :: 0 <= j <= d ==> Walk(r, v, j) == Walk(s, v, j))
            && NextTable(r, t, i) == Walk(r, v, d + 1) && WalkLevels(r, dep', v, d + 1)
            && (PathPresent(s, v, d) && (PresentFlag(flags) || s.Entry(t, i).present) ==> PathPresent(r, v, d + 1))
  {
    var t, i := Walk(s, v, d), Index(v, d);
    var r := EnsuredEntry(s, t, i, flags);
    EnsuredEntryChanges(s, dep, t, i, flags);
    EnsuredEntryKeepsLevels(s, dep, t, i, flags);
    WalkUnaffected(s, r, v, d, t);
  }

  lemma GrowsTransitive(s: Space, dep: map<nat, nat>, t: Space, dep': map<nat, nat>, u: Space, dep'': map<nat, nat>)
    requires Grows(s, dep, t, dep') && Grows(t, dep', u, dep'')
    ensures Grows(s, dep, u, dep'')
  {
    forall f, i | Slot(s, dep, f, i)
      ensures u.Entry(f, i) == s.Entry(f, i)
    {
      assert Slot(t, dep', f, i);
    }
  }

  /** The levels after the way down. */
  ghost function DescendedLevels(s: Space, dep: map<nat, nat>, v: nat, flags: Byte, d: nat): map<nat, nat>
    requires s.Total() && d <= 3
  {
    if d == 0 then dep
    else
      var dep1 := DescendedLevels(s, dep, v, flags, d - 1);
      var (u, t) := Descended(s, v, flags, d - 1);
      if t in dep1 then GrownBy(u, dep1, t, Index(v, d - 1)) else dep1
  }

  /** The entries of the leaf tables are the same in both. */
  ghost predicate LeavesKept(s: Space, dep: map<nat, nat>, u: Space)
    requires s.Total() && u.Total()
  {
    forall t, i :: t in dep && dep[t] == 3 && t < FRAMES && 0 <= i < 512 ==> u.Entry(t, i) == s.Entry(t, i)
  }

  /** `u`, with levels `dep'`, is `s` after `d` steps down `v`, now at table `t`. */
  ghost predicate Underway(s: Space, dep: map<nat, nat>, u: Space, dep': map<nat, nat>, v: nat, t: nat, d: nat)
    requires s.Total() && d <= 3
  {
    && Levelled(u, dep') && Grows(s, dep, u, dep')
    && t == Walk(u, v, d) && WalkLevels(u, dep', v, d)
    && |dep'| + |u.pool| == |dep| + |s.pool| <= |dep| + |u.pool| + d
    && LeavesKept(s, dep, u)
  }

  /** Ensuring an entry above the leaf level changes no entry of a leaf table. */
  lemma EnsuredEntryKeepsLeaves(s: Space, dep: map<nat, nat>, u: Space, dep': map<nat, nat>, t: nat, i: nat,
                                flags: Byte, r: Space)
    requires Grows(s, dep, u, dep') && LeavesKept(s, dep, u) && Levelled(u, dep') && Supply(u, dep', 1)
    requires t in dep' && dep'[t] < 3 && i < 512 && r == EnsuredEntry(u, t, i, flags)
    ensures LeavesKept(s, dep, r)
  {
    EnsuredEntryChanges(u, dep', t, i, flags);
  }

  lemma UnderwayStep(s: Space, dep: map<nat, nat>, u: Space, dep': map<nat, nat>, v: nat, t: nat, d: nat, flags: Byte,
                     r: Space, dep'': map<nat, nat>)
    requires s.Total() && d < 3 && Underway(s, dep, u, dep', v, t, d) && Supply(u, dep', 1)
    requires r == EnsuredEntry(u, t, Index(v, d), flags) && dep'' == GrownBy(u, dep', t, Index(v, d))
    ensures Underway(s, dep, r, dep'', v, NextTable(r, t, Index(v, d)), d + 1) && Supply(r, dep'', |u.pool| - 1)
  {
    EnsuredEntryKeepsLevels(u, dep', t, Index(v, d), flags);
    StepDown(u, dep', v, flags, d);
    GrowsTransitive(s, dep, u, dep', r, dep'');
    EnsuredEntryKeepsLeaves(s, dep, u, dep', t, Index(v, d), flags, r);
    assert FreshFrame(u, dep', u.pool[0]);
    assert !u.Entry(t, Index(v, d)).present ==> |dep''| == |dep'| + 1;
  }

  lemma DescendedOnce(s: Space, dep: map<nat, nat>, v: nat, flags: Byte, d: nat)
    requires s.Total() && d < 3 && Descended(s, v, flags, d).1 in DescendedLevels(s, dep, v, flags, d)
    ensures var (u, t) := Descended(s, v, flags, d);
            var r := EnsuredEntry(u, t, Index(v, d), flags);
            && Descended(s, v, flags, d + 1) == (r, NextTable(r, t, Index(v, d)))
            && DescendedLevels(s, dep, v, flags, d + 1)
               == GrownBy(u, DescendedLevels(s, dep, v, flags, d), t, Index(v, d))
  {
  }

  /** The way down keeps the levels, and reaches the table that a later walk
      of the same address reaches, whatever the flags. */
  lemma {:induction false} DescendedKeepsLevels(s: Space, dep: map<nat, nat>, v: nat, flags: Byte, d: nat)
    requires Levelled(s, dep) && d <= 3 && Supply(s, dep, d)
    ensures Underway(s, dep, Descended(s, v, flags, d).0, DescendedLevels(s, dep, v, flags, d), v,
                     Descended(s, v, flags, d).1, d)
    ensures Supply(Descended(s, v, flags, d).0, DescendedLevels(s, dep, v, flags, d), |s.pool| - d)
  {
    if d > 0 {
      DescendedKeepsLevels(s, dep, v, flags, d - 1);
      DescendedLevelsStep(s, dep, v, flags, d - 1);
    }
  }

  lemma DescendedLevelsStep(s: Space, dep: map<nat, nat>, v: nat, flags: Byte, d: nat)
    requires Levelled(s, dep) && d < 3 && Supply(s, dep, d + 1)
    requires Underway(s, dep, Descended(s, v, flags, d).0, DescendedLevels(s, dep, v, flags, d), v,
                      Descended(s, v, flags, d).1, d)
    requires Supply(Descended(s, v, flags, d).0, DescendedLevels(s, dep, v, flags, d), |s.pool| - d)
    ensures Underway(s, dep, Descended(s, v, flags, d + 1).0, DescendedLevels(s, dep, v, flags, d + 1), v,
                     Descended(s, v, flags, d + 1).1, d + 1)
    ensures Supply(Descended(s, v, flags, d + 1).0, DescendedLevels(s, dep, v, flags, d + 1), |s.pool| - d - 1)
  {
    DescendedOnce(s, dep, v, flags, d);
    var (u, t) := Descended(s, v, flags, d);
    UnderwayStep(s, dep, u, DescendedLevels(s, dep, v, flags, d), v, t, d, flags,
                 Descended(s, v, flags, d + 1).0, DescendedLevels(s, dep, v, flags, d + 1));
  }

  lemma PathPresentStep(s: Space, v: nat, d: nat)
    requires s.Total() && d <= 3
    ensures PathPresent(s, v, d + 1) <==> PathPresent(s, v, d) && s.Entry(Walk(s, v, d), Index(v, d)).present
  {
  }

  /** The way down is present afterwards if it was before or the flags say so;
      and the tables stay rooted in exactly those cases. */
  ghost predicate RootsKept(s: Space, dep: map<nat, nat>, u: Space, dep': map<nat, nat>, v: nat, flags: Byte, d: nat)
    requires s.Total() && u.Total() && d <= 3
  {
    && (PresentFlag(flags) || PathPresent(s, v, d) ==> PathPresent(u, v, d))
    && (PathPresent(s, v, d) ==> u == s && dep' == dep)
    && (Rooted(u, dep') <==> Rooted(s, dep) && (PresentFlag(flags) || PathPresent(s, v, d)))
  }

  lemma RootsKeptStep(s: Space, dep: map<nat, nat>, u: Space, dep': map<nat, nat>, v: nat, t: nat, d: nat, flags: Byte,
                      r: Space, dep'': map<nat, nat>)
    requires s.Total() && d < 3 && Underway(s, dep, u, dep', v, t, d) && Supply(u, dep', 1)
    requires RootsKept(s, dep, u, dep', v, flags, d)
    requires r == EnsuredEntry(u, t, Index(v, d), flags) && dep'' == GrownBy(u, dep', t, Index(v, d))
    ensures RootsKept(s, dep, r, dep'', v, flags, d + 1)
  {
    PathPresentStep(s, v, d);
    EnsuredEntryRooted(u, dep', t, Index(v, d), flags);
    StepDown(u, dep', v, flags, d);
  }

  lemma DescendedRootsStep(s: Space, dep: map<nat, nat>, v: nat, flags: Byte, d: nat)
    requires Levelled(s, dep) && d < 3 && Supply(s, dep, d + 1)
    requires RootsKept(s, dep, Descended(s, v, flags, d).0, DescendedLevels(s, dep, v, flags, d), v, flags, d)
    ensures RootsKept(s, dep, Descended(s, v, flags, d + 1).0, DescendedLevels(s, dep, v, flags, d + 1), v,
                      flags, d + 1)
  {
    DescendedKeepsLevels(s, dep, v, flags, d);
    DescendedOnce(s, dep, v, flags, d);
    var (u, t) := Descended(s, v, flags, d);
    RootsKeptStep(s, dep, u, DescendedLevels(s, dep, v, flags, d), v, t, d, flags,
                  Descended(s, v, flags, d + 1).0, DescendedLevels(s, dep, v, flags, d + 1));
  }

  lemma {:induction false} DescendedKeepsRoots(s: Space, dep: map<nat, nat>, v: nat, flags: Byte, d: nat)
    requires Levelled(s, dep) && d <= 3 && Supply(s, dep, d)
    ensures RootsKept(s, dep, Descended(s, v, flags, d).0, DescendedLevels(s, dep, v, flags, d), v, flags, d)
  {
    if d > 0 {
      DescendedKeepsRoots(s, dep, v, flags, d - 1);
      DescendedRootsStep(s, dep, v, flags, d - 1);
    }
  }

  // ---------- one mapPage ----------

  /** Writing a leaf entry does not touch the tree. */
  lemma LeafWriteKeepsTree(s: Space, dep: map<nat, nat>, t: nat, i: nat, e: PageEntry, n: nat)
    requires Levelled(s, dep) && Supply(s, dep, n) && t in dep && dep[t] == 3 && i < 512 && e.physicalAddress < FRAMES
    ensures var r := s.WithEntry(t, i, e);
            && Levelled(r, dep) && Supply(r, dep, n) && Grows(s, dep, r, dep)
            && (Rooted(r, dep) <==> Rooted(s, dep))
  {
    var r := s.WithEntry(t, i, e);
    assert forall u, j, c :: Child(r, dep, u, j, c) <==> Child(s, dep, u, j, c);
    forall k | 0 <= k < |r.pool|
      ensures FreshFrame(r, dep, r.pool[k])
    {
      assert FreshFrame(s, dep, s.pool[k]);
    }
  }

  /** Every mapPage keeps the levels and all present upper entries, adds at
      most three tables and removes none; and the tables are a tree afterwards
      exactly if they were one before, and the flags set the present bit or no
      table had to be added. */
  lemma MappedKeepsTree(s: Space, dep: map<nat, nat>, v: nat, p: nat, flags: Byte)
    requires Levelled(s, dep) && Supply(s, dep, 3)
    ensures var r, dep' := Mapped(s, v, p, flags), DescendedLevels(s, dep, v, flags, LeafLevel());
            && Levelled(r, dep') && Grows(s, dep, r, dep') && Supply(r, dep', |s.pool| - 3)
            && |dep'| <= |dep| + 3
            && (Tree(r, dep') <==> Tree(s, dep) && (PresentFlag(flags) || PathPresent(s, v, 3)))
  {
    DescendedKeepsLevels(s, dep, v, flags, LeafLevel());
    DescendedKeepsRoots(s, dep, v, flags, LeafLevel());
    var (u, t) := Descended(s, v, flags, LeafLevel());
    var dep', i := DescendedLevels(s, dep, v, flags, LeafLevel()), Index(v, LeafLevel());
    var e := FilledEntry(u.Entry(t, i), flags, p / PAGE_SIZE, 0);
    LeafWriteKeepsTree(u, dep', t, i, e, |s.pool| - 3);
    GrowsTransitive(s, dep, u, dep', u.WithEntry(t, i, e), dep');
  }

  // ---------- walks ----------

  /** Present walks of a growing tree stay as they are. */
  lemma {:induction false} WalkGrows(s: Space, dep: map<nat, nat>, r: Space, dep': map<nat, nat>, v: nat, d: nat)
    requires Levelled(s, dep) && Grows(s, dep, r, dep') && d <= 3 && PathPresent(s, v, d)
    ensures Walk(r, v, d) == Walk(s, v, d) && Walk(s, v, d) in dep && dep[Walk(s, v, d)] == d
    ensures PathPresent(r, v, d)
  {
    if d > 0 {
      PathPresentStep(s, v, d - 1);
      WalkGrows(s, dep, r, dep', v, d - 1);
      var t, i := Walk(s, v, d - 1), Index(v, d - 1);
      assert Slot(s, dep, t, i);
      assert Child(s, dep, t, i, Walk(s, v, d));
      PathPresentStep(r, v, d - 1);
    }
  }

  /** Two present walks that meet at a table came the same way. */
  lemma {:induction false} WalksMeetOnce(s: Space, dep: map<nat, nat>, v: nat, w: nat, d: nat)
    requires Levelled(s, dep) && d <= 3 && PathPresent(s, v, d) && PathPresent(s, w, d)
    requires Walk(s, v, d) == Walk(s, w, d)
    ensures forall j :: 0 <= j < d ==> Index(v, j) == Index(w, j)
  {
    if d > 0 {
      PathPresentStep(s, v, d - 1);
      PathPresentStep(s, w, d - 1);
      WalkGrows(s, dep, s, dep, v, d - 1);
      WalkGrows(s, dep, s, dep, w, d - 1);
      var c := Walk(s, v, d);
      assert Child(s, dep, Walk(s, v, d - 1), Index(v, d - 1), c);
      assert Child(s, dep, Walk(s, w, d - 1), Index(w, d - 1), c);
      WalksMeetOnce(s, dep, v, w, d - 1);
    }
  }

  /** The page number gives the four indices, nine bits each. */
  lemma IndicesOfPage(v: nat)
    ensures Page(v) == v / 4096 % 0x10_0000_0000
    ensures Index(v, 3) == Page(v) % 512 && Index(v, 2) == Page(v) / 512 % 512
    ensures Index(v, 1) == Page(v) / 512 / 512 % 512 && Index(v, 0) == Page(v) / 512 / 512 / 512
  {
    var q := v / PAGE_SIZE;
    assert v / 0x20_0000 == q / 512 && v / 0x4000_0000 == q / 512 / 512 && v / 0x80_0000_0000 == q / 512 / 512 / 512;
    DigitsOfRemainder(q, 512, 0x800_0000);
    DigitsOfRemainder(q / 512, 512, 0x4_0000);
    DigitsOfRemainder(q / 512 / 512, 512, 512);
  }

  /** Two addresses have the same indices exactly if their pages, bits 12 to 47, are the same. */
  lemma SamePageIff(v: nat, w: nat)
    ensures Page(v) == Page(w) <==> forall j :: 0 <= j < 4 ==> Index(v, j) == Index(w, j)
    ensures Page(v) == Page(w) <==> v / 4096 % 0x10_0000_0000 == w / 4096 % 0x10_0000_0000
  {
    IndicesOfPage(v);
    IndicesOfPage(w);
    if forall j :: 0 <= j < 4 ==> Index(v, j) == Index(w, j) {
      assert Index(v, 0) == Index(w, 0) && Index(v, 1) == Index(w, 1);
      assert Index(v, 2) == Index(w, 2) && Index(v, 3) == Index(w, 3);
    }
  }
}
