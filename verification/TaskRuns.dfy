/**
  The ring of tasks of kernel/process/task.c, and whole runs of it: tasks
  compute, are interrupted anywhere, and yield to the next task of the ring.
*/
module TaskRuns {
  import opened ContextSwitch
  import opened FlagBits
  import opened InterruptedCode
  import opened InterruptedSwitch
  import opened Interrupts
  import opened Machine

  /** `struct Task`: the saved registers with cr3, and the link. */
  const CR3_FIELD: nat := 144
  const NEXT_FIELD: nat := 152
  const TASK_SIZE: nat := 160

  datatype Stack = Stack(low: int, high: int) {
    predicate Holds(a: int) { low <= a && a + 8 <= high }
  }

  /** Where the tasks and their stacks are, and which task follows which. */
  datatype Layout = Layout(tasks: seq<int>, stacks: seq<Stack>, next: seq<int>) {
    predicate Task(i: int) { 0 <= i < |tasks| && |stacks| == |tasks| == |next| }

    /** The word at `a` is in the task's structure. */
    predicate InTask(i: int, a: int)
      requires Task(i)
    {
      tasks[i] <= a && a + 8 <= tasks[i] + TASK_SIZE
    }

    /** The word at `a` is on the task's stack. */
    predicate InStack(i: int, a: int)
      requires Task(i)
    {
      stacks[i].Holds(a)
    }

    predicate Placed(i: int)
      requires Task(i)
    {
      && 0 <= stacks[i].low && stacks[i].low + 24 <= stacks[i].high < WORDS
      && 0 <= next[i] < |tasks| && next[i] != i
    }

    predicate Disjoint(i: int, j: int)
      requires Task(i) && Task(j)
    {
      && (tasks[i] + TASK_SIZE <= stacks[j].low || stacks[j].high <= tasks[i])
      && (i != j ==>
            && (tasks[i] + TASK_SIZE <= tasks[j] || tasks[j] + TASK_SIZE <= tasks[i])
            && (stacks[i].high <= stacks[j].low || stacks[j].high <= stacks[i].low))
    }

    /** Tasks and stacks are disjoint, and no task follows itself. */
    ghost predicate Valid() {
      && |stacks| == |tasks| == |next|
      && (forall i {:trigger Placed(i)} :: Task(i) ==> Placed(i))
      && (forall i, j {:trigger Disjoint(i, j)} :: Task(i) && Task(j) ==> Disjoint(i, j))
    }
  }

  datatype System = System(cpu: Cpu, running: int)

  /** The stack pointer that task `i` is saved with. */
  function SavedRsp(l: Layout, s: Cpu, i: int): int
    requires l.Task(i)
  {
    s.Read(l.tasks[i] + Field(RSP))
  }

  /** Task `i` can be resumed: its saved stack pointer is in its own stack, with room for one word below. */
  ghost predicate Ready(l: Layout, s: Cpu, i: int)
    requires l.Task(i)
  {
    l.stacks[i].low + 8 <= SavedRsp(l, s, i) <= l.stacks[i].high
  }

  predicate Link(l: Layout, s: Cpu, i: int)
    requires l.Task(i) && l.Placed(i)
  {
    s.Read(l.tasks[i] + NEXT_FIELD) == l.tasks[l.next[i]]
  }

  ghost predicate Inv(l: Layout, s: System) {
    && l.Valid() && l.Task(s.running)
    && (forall i {:trigger Link(l, s.cpu, i)} :: l.Task(i) ==> l.Placed(i) && Link(l, s.cpu, i))
    && (forall i {:trigger Ready(l, s.cpu, i)} :: l.Task(i) && i != s.running ==> Ready(l, s.cpu, i))
  }

  // ---------- steps ----------

  /** The running task does anything to registers, flags, its own stack and
      memory that belongs to no task. */
  ghost predicate Computes(l: Layout, s: System, t: System)
    requires l.Valid()
  {
    && t.running == s.running
    && (forall i, a :: l.Task(i) && l.InTask(i, a) ==> t.cpu.Read(a) == s.cpu.Read(a))
    && (forall i, a :: l.Task(i) && i != s.running && l.InStack(i, a) ==> t.cpu.Read(a) == s.cpu.Read(a))
  }

  /** `yield` is about to enter `switchTask`, with the return address on top of the running task's stack. */
  ghost predicate AtSwitch(l: Layout, s: System)
    requires l.Valid() && l.Task(s.running)
  {
    && l.Placed(s.running)
    && s.cpu.Get(RDI) == l.tasks[s.running]
    && s.cpu.Get(RSI) == l.tasks[l.next[s.running]]
    && l.stacks[s.running].low + 16 <= s.cpu.Get(RSP) <= l.stacks[s.running].high - 8
  }

  /** What interrupt handlers leave alone while they use the stack of task
      `i`: the tasks' structures and the other stacks, that of `j` from `bound` up. */
  ghost predicate KeptWord(l: Layout, i: int, j: int, bound: int, a: int) {
    exists k :: l.Task(k) && (l.InTask(k, a) || (k != i && l.InStack(k, a) && (k == j ==> bound <= a)))
  }

  ghost function StackGuard(l: Layout, i: int, j: int, bound: int): Guard
    requires l.Task(i)
  {
    Guard(l.stacks[i].low, l.stacks[i].high, a => KeptWord(l, i, j, bound, a))
  }

  const NOBODY: int := -1

  lemma GuardValid(l: Layout, i: int, j: int, bound: int)
    requires l.Valid() && l.Task(i)
    ensures StackGuard(l, i, j, bound).Valid()
  {
    assert l.Placed(i);
    forall a | KeptWord(l, i, j, bound, a) ensures Outside(a, l.stacks[i].low, l.stacks[i].high - l.stacks[i].low) {
      var k :| l.Task(k) && (l.InTask(k, a) || (k != i && l.InStack(k, a) && (k == j ==> bound <= a)));
      assert l.Disjoint(k, i);
    }
  }

  ghost function OldGuard(l: Layout, s: System): Guard
    requires l.Valid() && l.Task(s.running)
  {
    StackGuard(l, s.running, NOBODY, 0)
  }

  /** The running task is interrupted, with interrupts nested at will. */
  ghost predicate Interrupted(l: Layout, s: System, t: System)
    requires l.Valid() && l.Task(s.running)
  {
    && t.running == s.running
    && exists p :: Happens(s.cpu, p, OldGuard(l, s)) && t.cpu == Left(p.back)
  }

  ghost function NewGuard(l: Layout, s: System): Guard
    requires l.Valid() && l.Task(s.running) && l.Placed(s.running)
  {
    StackGuard(l, l.next[s.running], s.running, s.cpu.Get(RSP))
  }

  /** `switchTask` runs, and is interrupted anywhere. */
  ghost predicate Switches(l: Layout, s: System, t: System)
    requires l.Valid() && l.Task(s.running)
  {
    && AtSwitch(l, s) && t.running == l.next[s.running]
    && SwitchMayEnd(s.cpu, t.cpu, OldGuard(l, s), NewGuard(l, s))
  }

  ghost predicate Step(l: Layout, s: System, t: System)
    requires l.Valid() && l.Task(s.running)
  {
    Computes(l, s, t) || Interrupted(l, s, t) || Switches(l, s, t)
  }

  /** The word at `a` belongs to no task: kernel data, for instance. */
  ghost predicate OwnedByNobody(l: Layout, a: int)
    requires l.Valid()
  {
    forall k {:trigger l.Task(k)} :: l.Task(k) ==>
      Outside(a, l.tasks[k], TASK_SIZE) && Outside(a, l.stacks[k].low, l.stacks[k].high - l.stacks[k].low)
  }

  lemma FreeWord(l: Layout, i: int, j: int, bound: int, a: int)
    requires l.Valid() && l.Task(i) && OwnedByNobody(l, a)
    ensures Free(a, StackGuard(l, i, j, bound))
  {
    forall b | KeptWord(l, i, j, bound, b) ensures Outside(b, a, 8) {
      var k :| l.Task(k) && (l.InTask(k, b) || (k != i && l.InStack(k, b) && (k == j ==> bound <= b)));
    }
  }

  /** With enough stack, such steps exist in every state: for every vector, with
      handlers that write kernel data, nested to any depth. */
  lemma TaskCanBeInterrupted(l: Layout, s: System, vector: nat, error: int, returnAddress: int, depth: nat,
                             a: int, v: int) returns (t: System)
    requires Inv(l, s) && OwnedByNobody(l, a)
    requires l.stacks[s.running].low + ROOM * (depth + 1) <= s.cpu.Get(RSP) <= l.stacks[s.running].high
    ensures Interrupted(l, s, t)
  {
    var g := OldGuard(l, s);
    GuardValid(l, s.running, NOBODY, 0);
    FreeWord(l, s.running, NOBODY, 0, a);
    var p := NestingCanHappen(s.cpu, vector, error, returnAddress, depth, a, v, g);
    t := System(Left(p.back), s.running);
  }

  // ---------- what a yield does ----------

  /** The structures of all tasks but for the saved area of the running one,
      and all stacks from their live ends up, read the same. */
  ghost predicate KeepsOthers(l: Layout, s: System, t: System)
    requires l.Valid() && l.Task(s.running)
  {
    && (forall i, a :: l.Task(i) && l.InTask(i, a) && (i == s.running ==> a >= l.tasks[i] + SAVED_SIZE)
          ==> t.cpu.Read(a) == s.cpu.Read(a))
    && (forall i, a :: l.Task(i) && l.InStack(i, a)
          && (i == s.running ==> a >= s.cpu.Get(RSP)) && (i == t.running ==> a >= SavedRsp(l, s.cpu, i))
          ==> t.cpu.Read(a) == s.cpu.Read(a))
  }

  ghost predicate Yields(l: Layout, s: System, t: System)
    requires l.Valid() && l.Task(s.running)
  {
    && AtSwitch(l, s) && t.running == l.next[s.running]
    && SavedAt(s.cpu, t.cpu, s.cpu.Get(RDI)) && ResumedFrom(s.cpu, t.cpu, s.cpu.Get(RSI))
    && KeepsOthers(l, s, t)
  }

  lemma SwitchIsSeparated(l: Layout, s: System)
    requires Inv(l, s) && AtSwitch(l, s)
    ensures Separated(s.cpu) && l.Task(l.next[s.running]) && Ready(l, s.cpu, l.next[s.running])
    ensures s.cpu.Read(s.cpu.Get(RSI) + Field(RSP)) == SavedRsp(l, s.cpu, l.next[s.running])
  {
    var i, j := s.running, l.next[s.running];
    assert Ready(l, s.cpu, j);
    assert l.Placed(i) && l.Placed(j);
    assert l.Disjoint(i, j) && l.Disjoint(j, i) && l.Disjoint(i, i) && l.Disjoint(j, j);
  }

  /** Words outside the saved area, the two words below the stack pointer, and
      the word below the next task's stack pointer. */
  lemma SwitchedSame(l: Layout, s: System, t: System, a: int)
    requires Inv(l, s) && AtSwitch(l, s) && t.running == l.next[s.running] && Switched(s.cpu, t.cpu)
    requires Outside(a, l.tasks[s.running], SAVED_SIZE) && Outside(a, s.cpu.Get(RSP) - 16, 16)
    requires l.Task(t.running) && Outside(a, SavedRsp(l, s.cpu, t.running) - 8, 8)
    ensures t.cpu.Read(a) == s.cpu.Read(a)
  {
  }

  /** The words that are written lie on the two stacks and in the saved area. */
  lemma WritesAreOwn(l: Layout, s: System, j: int)
    requires Inv(l, s) && AtSwitch(l, s) && j == l.next[s.running]
    ensures l.Task(j) && l.stacks[s.running].low <= s.cpu.Get(RSP) - 16 && s.cpu.Get(RSP) <= l.stacks[s.running].high
    ensures l.stacks[j].low <= SavedRsp(l, s.cpu, j) - 8 && SavedRsp(l, s.cpu, j) <= l.stacks[j].high
  {
    assert l.Placed(s.running) && Ready(l, s.cpu, j);
  }

  lemma SwitchedKeepsTask(l: Layout, s: System, t: System, i: int, a: int)
    requires Inv(l, s) && AtSwitch(l, s) && t.running == l.next[s.running] && Switched(s.cpu, t.cpu)
    requires l.Task(i) && l.InTask(i, a) && (i == s.running ==> a >= l.tasks[i] + SAVED_SIZE)
    ensures t.cpu.Read(a) == s.cpu.Read(a)
  {
    WritesAreOwn(l, s, t.running);
    assert l.Disjoint(i, s.running) && l.Disjoint(i, t.running);
    SwitchedSame(l, s, t, a);
  }

  lemma SwitchedKeepsStack(l: Layout, s: System, t: System, i: int, a: int)
    requires Inv(l, s) && AtSwitch(l, s) && t.running == l.next[s.running] && Switched(s.cpu, t.cpu)
    requires l.Task(i) && l.InStack(i, a)
    requires (i == s.running ==> a >= s.cpu.Get(RSP)) && (i == t.running ==> a >= SavedRsp(l, s.cpu, i))
    ensures t.cpu.Read(a) == s.cpu.Read(a)
  {
    WritesAreOwn(l, s, t.running);
    assert l.Disjoint(s.running, i) && l.Disjoint(i, t.running) && l.Disjoint(i, s.running);
    SwitchedSame(l, s, t, a);
  }

  /** Memory outside what `switchTask` writes includes everything that is kept. */
  lemma SwitchedYields(l: Layout, s: System, t: System)
    requires Inv(l, s) && AtSwitch(l, s) && t.running == l.next[s.running] && Switched(s.cpu, t.cpu)
    ensures Yields(l, s, t)
  {
    forall i, a | l.Task(i) && l.InTask(i, a) && (i == s.running ==> a >= l.tasks[i] + SAVED_SIZE)
      ensures t.cpu.Read(a) == s.cpu.Read(a)
    {
      SwitchedKeepsTask(l, s, t, i, a);
    }
    forall i, a | l.Task(i) && l.InStack(i, a)
                  && (i == s.running ==> a >= s.cpu.Get(RSP)) && (i == t.running ==> a >= SavedRsp(l, s.cpu, i))
      ensures t.cpu.Read(a) == s.cpu.Read(a)
    {
      SwitchedKeepsStack(l, s, t, i, a);
    }
  }

  /** The code of `switchTask`, uninterrupted, makes the step. */
  lemma SwitchTaskYields(l: Layout, s: System, t: System)
    requires Inv(l, s) && AtSwitch(l, s) && t == System(Run(s.cpu, SWITCH_TASK), l.next[s.running])
    ensures Yields(l, s, t)
  {
    SwitchIsSeparated(l, s);
    SwitchTaskSwitches(s.cpu);
    SwitchedYields(l, s, t);
  }

  lemma SwitchTaskSteps(l: Layout, s: System, t: System)
    requires Inv(l, s) && AtSwitch(l, s) && t == System(Run(s.cpu, SWITCH_TASK), l.next[s.running])
    ensures Switches(l, s, t)
  {
    var before, a, after := RunSwitchExecutes(s.cpu, OldGuard(l, s), NewGuard(l, s));
  }

  lemma SwitchGuardsFit(l: Layout, s: System, g: Guard, g': Guard)
    requires Inv(l, s) && AtSwitch(l, s) && g == OldGuard(l, s) && g' == NewGuard(l, s)
    ensures GuardsFit(s.cpu, g, g')
  {
    var i, j := s.running, l.next[s.running];
    SwitchIsSeparated(l, s);
    assert l.Placed(i) && l.Placed(j);
    forall a | l.InTask(j, a) ensures g.kept(a) && g'.kept(a) {
      assert KeptWord(l, i, NOBODY, 0, a) && KeptWord(l, j, i, s.cpu.Get(RSP), a);
    }
    forall a | g'.kept(a) ensures g.kept(a) || (s.cpu.Get(RSP) <= a && a + 8 <= g.top) {
      var k :| l.Task(k) && (l.InTask(k, a) || (k != j && l.InStack(k, a) && (k == i ==> s.cpu.Get(RSP) <= a)));
      assert k != i || l.InTask(k, a) ==> KeptWord(l, i, NOBODY, 0, a);
    }
    forall a | SavedRsp(l, s.cpu, j) <= a && a + 8 <= g'.top ensures g.kept(a) {
      assert l.InStack(j, a) && KeptWord(l, i, NOBODY, 0, a);
    }
  }

  /** With enough of both stacks, a switch can be interrupted at any point on
      the old one and at any point on the new one, at every depth. */
  lemma SwitchCanBeInterrupted(l: Layout, s: System, n: nat, n': nat, vector: nat, error: int, returnAddress: int,
                               depth: nat, a: int, v: int)
    returns (before: Script, m: Cpu, after: Script, t: System)
    requires Inv(l, s) && AtSwitch(l, s) && OwnedByNobody(l, a) && n <= |ON_OLD_STACK| && n' <= |ON_NEW_STACK|
    requires l.stacks[s.running].low + ROOM * (depth + 1) + 8 * n <= s.cpu.Get(RSP)
    requires var j := l.next[s.running];
             l.Task(j) && l.stacks[j].low + ROOM * (depth + 1) + 8 * n' <= SavedRsp(l, s.cpu, j)
    ensures Switches(l, s, t) && BreaksAt(before, n) && BreaksAt(after, n')
    ensures SwitchExecutes(s.cpu, before, m, after, t.cpu, OldGuard(l, s), NewGuard(l, s))
  {
    var g, g', j := OldGuard(l, s), NewGuard(l, s), l.next[s.running];
    SwitchIsSeparated(l, s);
    SwitchGuardsFit(l, s, g, g');
    GuardValid(l, s.running, NOBODY, 0);
    GuardValid(l, j, s.running, s.cpu.Get(RSP));
    FreeWord(l, s.running, NOBODY, 0, a);
    FreeWord(l, j, s.running, s.cpu.Get(RSP), a);
    var cpu: Cpu;
    before, m, after, cpu := SwitchCanBreak(s.cpu, n, n', g, g', vector, error, returnAddress, depth, a, v);
    t := System(cpu, j);
  }

  /** What agrees with a yield is one. */
  lemma AgreedYields(l: Layout, s: System, u: System, t: System, base: int, g': Guard)
    requires Inv(l, s) && Yields(l, s, u) && t.running == u.running
    requires base == SavedRsp(l, s.cpu, u.running) && g' == NewGuard(l, s) && Agree(u.cpu, t.cpu, base, g')
    ensures Yields(l, s, t)
  {
    var i, j := s.running, u.running;
    forall k, a | l.Task(k) && l.InTask(k, a) ensures t.cpu.Read(a) == u.cpu.Read(a) {
      assert KeptWord(l, j, i, s.cpu.Get(RSP), a) && g'.kept(a);
    }
    AgreedSaved(l, s, u, t);
    forall k, a | l.Task(k) && l.InStack(k, a)
                  && (k == i ==> a >= s.cpu.Get(RSP)) && (k == j ==> a >= SavedRsp(l, s.cpu, k))
      ensures t.cpu.Read(a) == s.cpu.Read(a)
    {
      assert u.cpu.Read(a) == s.cpu.Read(a);
      if k != j { assert KeptWord(l, j, i, s.cpu.Get(RSP), a) && g'.kept(a); }
    }
  }

  lemma AgreedSaved(l: Layout, s: System, u: System, t: System)
    requires l.Valid() && l.Task(s.running) && Yields(l, s, u)
    requires forall a :: l.InTask(s.running, a) ==> t.cpu.Read(a) == u.cpu.Read(a)
    requires (forall r :: t.cpu.Get(r) == u.cpu.Get(r)) && t.cpu.flags == u.cpu.flags && t.cpu.rip == u.cpu.rip
    requires t.cpu.cs == u.cpu.cs && t.cpu.ss == u.cpu.ss
    ensures SavedAt(s.cpu, t.cpu, s.cpu.Get(RDI)) && ResumedFrom(s.cpu, t.cpu, s.cpu.Get(RSI))
  {
    var area := s.cpu.Get(RDI);
    forall r ensures t.cpu.Read(area + Field(r)) == u.cpu.Read(area + Field(r)) {
      assert l.InTask(s.running, area + Field(r));
    }
    assert l.InTask(s.running, area + RFLAGS_FIELD) && l.InTask(s.running, area + RIP_FIELD);
  }

  lemma EndsLikeYield(l: Layout, s: System, end: Cpu, t: System)
    requires Inv(l, s) && AtSwitch(l, s) && t.running == l.next[s.running]
    requires EndsLike(s.cpu, end, t.cpu, NewGuard(l, s))
    ensures Yields(l, s, t)
  {
    var m := System(end, t.running);
    SwitchIsSeparated(l, s);
    SwitchedYields(l, s, m);
    AgreedYields(l, s, m, t, SavedRsp(l, s.cpu, t.running), NewGuard(l, s));
  }

  /** However `switchTask` is interrupted, it makes a yield. */
  lemma SwitchesYields(l: Layout, s: System, t: System)
    requires Inv(l, s) && Switches(l, s, t)
    ensures Yields(l, s, t)
  {
    SwitchIsSeparated(l, s);
    SwitchGuardsFit(l, s, OldGuard(l, s), NewGuard(l, s));
    var end := InterruptedSwitchSwitches(s.cpu, t.cpu, OldGuard(l, s), NewGuard(l, s));
    EndsLikeYield(l, s, end, t);
  }

  /** An interrupt changes no more than a computing task may. */
  lemma InterruptedComputes(l: Layout, s: System, t: System)
    requires Inv(l, s) && Interrupted(l, s, t)
    ensures Computes(l, s, t)
  {
    var g := OldGuard(l, s);
    var p :| Happens(s.cpu, p, g) && t.cpu == Left(p.back);
    EpisodeRestores(s.cpu, p, g, t.cpu);
    RestoredComputes(l, s, t, g);
  }

  lemma RestoredComputes(l: Layout, s: System, t: System, g: Guard)
    requires l.Valid() && l.Task(s.running) && t.running == s.running && g == OldGuard(l, s)
    requires Restored(s.cpu, t.cpu, g)
    ensures Computes(l, s, t)
  {
    forall a | KeptWord(l, s.running, NOBODY, 0, a) ensures t.cpu.Read(a) == s.cpu.Read(a) {
      assert g.kept(a);
    }
    KeptComputes(l, s, t);
  }

  lemma KeptComputes(l: Layout, s: System, t: System)
    requires l.Valid() && l.Task(s.running) && t.running == s.running
    requires forall a :: KeptWord(l, s.running, NOBODY, 0, a) ==> t.cpu.Read(a) == s.cpu.Read(a)
    ensures Computes(l, s, t)
  {
    forall i, a | l.Task(i) && l.InTask(i, a) ensures t.cpu.Read(a) == s.cpu.Read(a) {
      assert KeptWord(l, s.running, NOBODY, 0, a);
    }
    forall i, a | l.Task(i) && i != s.running && l.InStack(i, a) ensures t.cpu.Read(a) == s.cpu.Read(a) {
      assert KeptWord(l, s.running, NOBODY, 0, a);
    }
  }

  lemma StepComputesOrYields(l: Layout, s: System, t: System)
    requires Inv(l, s) && Step(l, s, t)
    ensures Computes(l, s, t) || Yields(l, s, t)
    ensures t.running != s.running ==> Yields(l, s, t)
  {
    if Interrupted(l, s, t) { InterruptedComputes(l, s, t); }
    if Switches(l, s, t) { SwitchesYields(l, s, t); }
  }

  // ---------- the ring ----------

  /** Every step keeps the ring, and keeps all waiting tasks ready. */
  lemma StepKeepsInv(l: Layout, s: System, t: System)
    requires Inv(l, s) && Step(l, s, t)
    ensures Inv(l, t)
  {
    StepComputesOrYields(l, s, t);
    EffectKeepsInv(l, s, t);
  }

  lemma EffectKeepsInv(l: Layout, s: System, t: System)
    requires Inv(l, s) && (Computes(l, s, t) || Yields(l, s, t))
    ensures Inv(l, t)
  {
    assert l.Placed(s.running);
    forall i | l.Task(i)
      ensures l.Placed(i) && Link(l, t.cpu, i)
      ensures i != t.running ==> Ready(l, t.cpu, i)
    {
      assert l.Placed(i) && Link(l, s.cpu, i);
      if Computes(l, s, t) {
        ComputeKeepsTask(l, s, t, i);
      } else {
        YieldKeepsTask(l, s, t, i);
      }
    }
  }

  lemma YieldKeepsTask(l: Layout, s: System, t: System, i: int)
    requires Inv(l, s) && Yields(l, s, t) && l.Task(i)
    ensures t.cpu.Read(l.tasks[i] + NEXT_FIELD) == s.cpu.Read(l.tasks[i] + NEXT_FIELD)
    ensures i != t.running ==> Ready(l, t.cpu, i)
  {
    assert l.InTask(i, l.tasks[i] + NEXT_FIELD);
    if i != s.running {
      assert Ready(l, s.cpu, i) && l.InTask(i, l.tasks[i] + Field(RSP));
    } else {
      YielderIsReady(l, s, t);
    }
  }

  lemma ComputeKeepsTask(l: Layout, s: System, t: System, i: int)
    requires Inv(l, s) && Computes(l, s, t) && l.Task(i)
    ensures t.cpu.Read(l.tasks[i] + NEXT_FIELD) == s.cpu.Read(l.tasks[i] + NEXT_FIELD)
    ensures i != s.running ==> Ready(l, t.cpu, i)
  {
    assert l.InTask(i, l.tasks[i] + NEXT_FIELD) && l.InTask(i, l.tasks[i] + Field(RSP));
    if i != s.running { assert Ready(l, s.cpu, i); }
  }

  lemma YielderIsReady(l: Layout, s: System, t: System)
    requires Inv(l, s) && Yields(l, s, t)
    ensures Ready(l, t.cpu, s.running) && SavedRsp(l, t.cpu, s.running) == s.cpu.Get(RSP) + 8
  {
  }

  // ---------- runs ----------

  ghost predicate Trace(l: Layout, tr: seq<System>) {
    && |tr| > 0 && Inv(l, tr[0])
    && forall k :: 0 <= k < |tr| - 1 ==> l.Task(tr[k].running) && Step(l, tr[k], tr[k + 1])
  }

  lemma {:induction false} TraceInv(l: Layout, tr: seq<System>, k: nat)
    requires Trace(l, tr) && k < |tr|
    ensures Inv(l, tr[k])
  {
    if k > 0 {
      TraceInv(l, tr, k - 1);
      StepKeepsInv(l, tr[k - 1], tr[k]);
    }
  }

  /** The saved area of task `i`, and its stack from `sp` up, read the same. */
  ghost predicate KeptFor(l: Layout, s: Cpu, t: Cpu, i: int, sp: int)
    requires l.Valid() && l.Task(i)
  {
    && (forall a :: l.InTask(i, a) ==> t.Read(a) == s.Read(a))
    && (forall a :: l.InStack(i, a) && a >= sp ==> t.Read(a) == s.Read(a))
  }

  /** No step of another task changes what task `i` will find, up to and including the yield that resumes it. */
  lemma StepKeepsOthers(l: Layout, s: System, t: System, i: int)
    requires Inv(l, s) && Step(l, s, t) && l.Task(i) && i != s.running
    ensures KeptFor(l, s.cpu, t.cpu, i, SavedRsp(l, s.cpu, i))
  {
    StepComputesOrYields(l, s, t);
  }

  lemma {:induction false} OthersKeep(l: Layout, tr: seq<System>, a: nat, b: nat, i: int)
    requires Trace(l, tr) && a <= b < |tr| && l.Valid() && l.Task(i)
    requires forall k :: a <= k < b ==> tr[k].running != i
    ensures KeptFor(l, tr[a].cpu, tr[b].cpu, i, SavedRsp(l, tr[a].cpu, i))
    decreases b - a
  {
    if a < b {
      TraceInv(l, tr, b - 1);
      OthersKeep(l, tr, a, b - 1, i);
      StepKeepsOthers(l, tr[b - 1], tr[b], i);
      KeptTwice(l, tr[a].cpu, tr[b - 1].cpu, tr[b].cpu, i);
    }
  }

  lemma KeptTwice(l: Layout, s: Cpu, t: Cpu, u: Cpu, i: int)
    requires l.Valid() && l.Task(i)
    requires KeptFor(l, s, t, i, SavedRsp(l, s, i)) && KeptFor(l, t, u, i, SavedRsp(l, t, i))
    ensures KeptFor(l, s, u, i, SavedRsp(l, s, i))
  {
    assert l.InTask(i, l.tasks[i] + Field(RSP));
  }

  /** `t` is as `s` was after the call of `switchTask` returned, but that rcx
      is lost, rax holds the old rcx, and six flags, which neither allow
      interrupts nor direct strings, are those of an addition. */
  ghost predicate Continues(s: Cpu, t: Cpu, stack: Stack) {
    && (forall r :: r != RAX && r != RCX && r != RSP ==> t.Get(r) == s.Get(r))
    && t.Get(RAX) == s.Get(RCX)
    && t.Get(RSP) == s.Get(RSP) + 8
    && t.rip == s.Read(s.Get(RSP))
    && t.flags == AddFlags(s.flags, s.Get(RSP), 8) && AddedFlags(s.flags, t.flags, s.Get(RSP), 8)
    && forall a :: stack.Holds(a) && a >= s.Get(RSP) + 8 ==> t.Read(a) == s.Read(a)
  }

  /** Over every run: a task that yielded continues where it was once the
      ring comes back to it, whatever the other tasks did meanwhile, and
      wherever they, or the switches themselves, were interrupted. */
  lemma TaskContinues(l: Layout, tr: seq<System>, a: nat, b: nat, i: int)
    requires Trace(l, tr) && a < b < |tr| - 1 && l.Valid() && l.Task(i)
    requires tr[a].running == i && tr[b + 1].running == i
    requires forall k :: a < k <= b ==> tr[k].running != i
    ensures Continues(tr[a].cpu, tr[b + 1].cpu, l.stacks[i])
  {
    TraceInv(l, tr, a);
    TraceInv(l, tr, a + 1);
    TraceInv(l, tr, b);
    OthersKeep(l, tr, a + 1, b, i);
    StepKeepsOthers(l, tr[b], tr[b + 1], i);
    StepComputesOrYields(l, tr[a], tr[a + 1]);
    StepComputesOrYields(l, tr[b], tr[b + 1]);
    ContinuesAfter(l, tr[a], tr[a + 1], tr[b], tr[b + 1]);
  }

  /** From the yield of a task, over memory kept for it, to the yield back. */
  lemma ContinuesAfter(l: Layout, s: System, m: System, u: System, t: System)
    requires Inv(l, s) && Yields(l, s, m) && Inv(l, u) && Yields(l, u, t) && t.running == s.running != u.running
    requires KeptFor(l, m.cpu, u.cpu, s.running, SavedRsp(l, m.cpu, s.running))
    requires KeptFor(l, u.cpu, t.cpu, s.running, SavedRsp(l, u.cpu, s.running))
    ensures Continues(s.cpu, t.cpu, l.stacks[s.running])
  {
    var i := s.running;
    YielderIsReady(l, s, m);
    SavedAreaKept(l, s.cpu, m.cpu, u.cpu, i);
    forall a | l.InStack(i, a) && a >= s.cpu.Get(RSP) + 8
      ensures t.cpu.Read(a) == s.cpu.Read(a)
    {
      assert m.cpu.Read(a) == s.cpu.Read(a);
    }
    ResumesSaved(s.cpu, u.cpu, t.cpu, l.tasks[i]);
    AddFlagsAre(s.cpu.flags, s.cpu.Get(RSP), 8);
  }

  lemma SavedAreaKept(l: Layout, s: Cpu, m: Cpu, u: Cpu, i: int)
    requires l.Valid() && l.Task(i) && SavedAt(s, m, l.tasks[i]) && KeptFor(l, m, u, i, SavedRsp(l, m, i))
    ensures SavedAt(s, u, l.tasks[i]) && SavedRsp(l, u, i) == SavedRsp(l, m, i)
  {
    var area := l.tasks[i];
    forall r
      ensures u.Read(area + Field(r)) == m.Read(area + Field(r))
    {
      assert l.InTask(i, area + Field(r));
    }
    assert l.InTask(i, area + RFLAGS_FIELD) && l.InTask(i, area + RIP_FIELD);
  }

  lemma ResumesSaved(s: Cpu, u: Cpu, t: Cpu, area: int)
    requires SavedAt(s, u, area) && ResumedFrom(u, t, area)
    ensures (forall r :: r != RAX && r != RCX && r != RSP ==> t.Get(r) == s.Get(r))
    ensures t.Get(RAX) == s.Get(RCX) && t.Get(RSP) == s.Get(RSP) + 8
    ensures t.rip == s.Read(s.Get(RSP)) && t.flags == AddFlags(s.flags, s.Get(RSP), 8)
  {
  }
}
