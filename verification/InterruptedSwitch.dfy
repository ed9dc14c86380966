/**
  `switchTask` with interrupts between any two of its instructions, on the old
  stack until the stack pointer is loaded, and on the new one from then on.
*/
module InterruptedSwitch {
  import opened ContextSwitch
  import opened InterruptedCode
  import opened Interrupts
  import opened Machine

  /** The code before and after the instruction that changes stacks. */
  const LOAD_BASE: seq<Instr> := [Load(RBP, RSI, 56)]

  const ON_OLD_STACK: seq<Instr> := SAVE + (LOAD_REGISTERS + (LOAD_FLAGS + LOAD_BASE))

  const CHANGE_STACK: Instr := Load(RSP, RSI, 48)

  const ON_NEW_STACK: seq<Instr> := [Load(RAX, RSI, 136), Push(RAX)] + RESUME

  lemma SwitchTaskInParts()
    ensures SWITCH_TASK == ON_OLD_STACK + ([CHANGE_STACK] + ON_NEW_STACK)
  {
    assert LOAD_STACK == LOAD_BASE + ([CHANGE_STACK] + [Load(RAX, RSI, 136), Push(RAX)]);
    Regroup(SAVE, LOAD_REGISTERS, LOAD_FLAGS, LOAD_BASE, [CHANGE_STACK], [Load(RAX, RSI, 136), Push(RAX)], RESUME);
  }

  lemma Regroup(a: seq<Instr>, b: seq<Instr>, c: seq<Instr>, d: seq<Instr>, e: seq<Instr>, f: seq<Instr>, h: seq<Instr>)
    ensures a + (b + c + ((d + (e + f)) + h)) == (a + (b + (c + d))) + (e + (f + h))
  {
  }

  /** What the old guard must name: the words of the two areas. */
  ghost predicate NamesArea(g: Guard, area: int) {
    (forall r :: g.kept(area + Field(r))) && g.kept(area + RFLAGS_FIELD) && g.kept(area + RIP_FIELD)
  }

  /** The guards for the two stacks: what the second one names, and the new
      stack from the saved pointer up, was kept by the first one. */
  ghost predicate GuardsFit(s: Cpu, g: Guard, g': Guard) {
    var base, base' := s.Get(RSP), s.Read(s.Get(RSI) + Field(RSP));
    && NamesArea(g, s.Get(RSI)) && NamesArea(g', s.Get(RSI))
    && base + 8 <= g.top && base' <= g'.top
    && (forall a :: g'.kept(a) ==> g.kept(a) || (base <= a && a + 8 <= g.top))
    && (forall a :: base' <= a && a + 8 <= g'.top ==> g.kept(a))
  }

  /** The code ends in `t`, with interrupts anywhere. */
  ghost predicate SwitchExecutes(s: Cpu, before: Script, a: Cpu, after: Script, t: Cpu, g: Guard, g': Guard) {
    Executes(s, ON_OLD_STACK, before, a, g) && Executes(a.Exec(CHANGE_STACK), ON_NEW_STACK, after, t, g')
  }

  ghost predicate SwitchMayEnd(s: Cpu, t: Cpu, g: Guard, g': Guard) {
    exists before, a, after :: SwitchExecutes(s, before, a, after, t, g, g')
  }

  /** Without interrupts it is a plain run of the code. */
  lemma RunSwitchExecutes(s: Cpu, g: Guard, g': Guard) returns (before: Script, a: Cpu, after: Script)
    ensures SwitchExecutes(s, before, a, after, Run(s, SWITCH_TASK), g, g')
  {
    a := Run(s, ON_OLD_STACK);
    before := RunExecutes(s, ON_OLD_STACK, g);
    after := RunExecutes(a.Exec(CHANGE_STACK), ON_NEW_STACK, g');
    SwitchTaskInParts();
    RunConcat(s, ON_OLD_STACK, [CHANGE_STACK] + ON_NEW_STACK);
    RunConcat(a, [CHANGE_STACK], ON_NEW_STACK);
    Run1(a, CHANGE_STACK);
  }

  // ---------- the code looks at nothing else ----------

  /** Stack pointer and the address of the area to load. */
  ghost predicate Points(u: Cpu, sp: int, to: int) { u.Get(RSP) == sp && u.Get(RSI) == to }

  lemma SaveRegistersSafe(u: Cpu, g: Guard, m: Cpu)
    requires 8 <= u.Get(RSP) < WORDS - 8 && m == Run(u, SAVE_RAX + SAVE_REGISTERS)
    ensures RunSafe(u, SAVE_RAX + SAVE_REGISTERS, u.Get(RSP), g) && Points(m, u.Get(RSP), u.Get(RSI))
  {
    Safe3(u, Store(RDI, 0, RAX), Move(RAX, RSP), Add(RAX, 8), u.Get(RSP), g);
    SaveRaxCode(u);
    var a := Run(u, SAVE_RAX);
    SaveRax(u, a);
    SaveRegistersSavesAll();
    RunStores(a, SAVE_REGISTERS, RDI);
    StoresSafe(a, SAVE_REGISTERS, u.Get(RSP), g);
    RunSafeConcat(u, SAVE_RAX, SAVE_REGISTERS, u.Get(RSP), g);
    RunConcat(u, SAVE_RAX, SAVE_REGISTERS);
    assert forall r :: Run(a, SAVE_REGISTERS).Get(r) == a.Get(r);
  }

  lemma SaveFlagsSafe(u: Cpu, g: Guard, m: Cpu)
    requires 8 <= u.Get(RSP) < WORDS - 8 && u.Get(RSP) + 8 <= g.top && m == Run(u, SAVE_FLAGS)
    ensures RunSafe(u, SAVE_FLAGS, u.Get(RSP), g) && Points(m, u.Get(RSP), u.Get(RSI))
  {
    Safe3(u, Pushfq, Pop(RAX), Store(RDI, 128, RAX), u.Get(RSP), g);
    SaveFlagsCode(u);
    SaveFlags(u, m);
  }

  lemma SaveReturnSafe(u: Cpu, g: Guard, m: Cpu)
    requires 8 <= u.Get(RSP) < WORDS - 8 && u.Get(RSP) + 8 <= g.top && m == Run(u, SAVE_RETURN)
    ensures RunSafe(u, SAVE_RETURN, u.Get(RSP), g) && Points(m, u.Get(RSP) - 8, u.Get(RSI))
  {
    Safe3(u, Load(RAX, RSP, 0), Store(RDI, 136, RAX), Push(RAX), u.Get(RSP), g);
    SaveReturnCode(u);
    SaveReturn(u, m);
  }

  lemma SaveSafe(u: Cpu, g: Guard, m: Cpu)
    requires 8 <= u.Get(RSP) < WORDS - 8 && u.Get(RSP) + 8 <= g.top && m == Run(u, SAVE)
    ensures RunSafe(u, SAVE, u.Get(RSP), g) && Points(m, u.Get(RSP) - 8, u.Get(RSI))
  {
    var b := Run(u, SAVE_RAX + SAVE_REGISTERS);
    SaveRegistersSafe(u, g, b);
    var c := Run(b, SAVE_FLAGS);
    SaveFlagsSafe(b, g, c);
    SaveReturnSafe(c, g, Run(c, SAVE_RETURN));
    RunConcat(b, SAVE_FLAGS, SAVE_RETURN);
    RunSafeConcat(b, SAVE_FLAGS, SAVE_RETURN, u.Get(RSP), g);
    RunConcat(u, SAVE_RAX + SAVE_REGISTERS, SAVE_FLAGS + SAVE_RETURN);
    RunSafeConcat(u, SAVE_RAX + SAVE_REGISTERS, SAVE_FLAGS + SAVE_RETURN, u.Get(RSP), g);
  }

  lemma LoadRegistersSafe(u: Cpu, code: seq<Instr>, base: int, g: Guard)
    requires LoadsAll(code) && NamesArea(g, u.Get(RSI))
    ensures RunSafe(u, code, base, g) && Points(Run(u, code), u.Get(RSP), u.Get(RSI))
  {
    LoadRegisters(u, code);
    forall k | 0 <= k < |code| ensures code[k].dst != RSP && g.kept(u.Get(RSI) + code[k].offset) {
      FieldOfLoad(code, k);
    }
    LoadsSafe(u, code, RSI, base, g);
  }

  lemma FieldOfLoad(code: seq<Instr>, k: nat)
    requires LoadsAll(code) && k < |code|
    ensures code[k].dst != RSP && code[k].offset == Field(code[k].dst)
  {
    var r := code[k].dst;
    var j :| 0 <= j < |code| && code[j] == Load(r, RSI, Field(r));
    assert j < k || j == k || k < j;
  }

  lemma LoadFlagsSafe(u: Cpu, base: int, g: Guard, m: Cpu)
    requires 8 <= u.Get(RSP) <= base < WORDS && (base - u.Get(RSP)) % 8 == 0 && u.Get(RSP) <= g.top
    requires NamesArea(g, u.Get(RSI)) && m == Run(u, LOAD_FLAGS)
    ensures RunSafe(u, LOAD_FLAGS, base, g) && Points(m, u.Get(RSP), u.Get(RSI))
  {
    Safe3(u, Load(RAX, RSI, 128), Push(RAX), Popfq, base, g);
    LoadFlagsCode(u);
    LoadFlags(u, m);
  }

  lemma LastLoadSafe(u: Cpu, base: int, g: Guard, m: Cpu)
    requires NamesArea(g, u.Get(RSI)) && m == Run(u, LOAD_BASE)
    ensures RunSafe(u, LOAD_BASE, base, g) && Points(m, u.Get(RSP), u.Get(RSI)) && m.mem == u.mem
  {
    assert g.kept(u.Get(RSI) + Field(RBP));
    assert LOAD_BASE == [Load(RBP, RSI, 56)] + [];
    SafeFirst(u, Load(RBP, RSI, 56), [], base, g);
    Run1(u, Load(RBP, RSI, 56));
  }

  lemma TailSafe(u: Cpu, base: int, g: Guard, m: Cpu)
    requires 8 <= u.Get(RSP) <= base < WORDS && (base - u.Get(RSP)) % 8 == 0 && u.Get(RSP) <= g.top
    requires NamesArea(g, u.Get(RSI)) && m == Run(u, LOAD_FLAGS + LOAD_BASE)
    ensures RunSafe(u, LOAD_FLAGS + LOAD_BASE, base, g) && Points(m, u.Get(RSP), u.Get(RSI))
  {
    var c := Run(u, LOAD_FLAGS);
    LoadFlagsSafe(u, base, g, c);
    LastLoadSafe(c, base, g, Run(c, LOAD_BASE));
    RunConcat(u, LOAD_FLAGS, LOAD_BASE);
    RunSafeConcat(u, LOAD_FLAGS, LOAD_BASE, base, g);
  }

  lemma LoadsAndTailSafe(u: Cpu, base: int, g: Guard, m: Cpu)
    requires 8 <= u.Get(RSP) <= base < WORDS && (base - u.Get(RSP)) % 8 == 0 && u.Get(RSP) <= g.top
    requires NamesArea(g, u.Get(RSI)) && m == Run(u, LOAD_REGISTERS + (LOAD_FLAGS + LOAD_BASE))
    ensures RunSafe(u, LOAD_REGISTERS + (LOAD_FLAGS + LOAD_BASE), base, g) && Points(m, u.Get(RSP), u.Get(RSI))
  {
    var b := Run(u, LOAD_REGISTERS);
    LoadRegistersLoadsAll();
    LoadRegistersSafe(u, LOAD_REGISTERS, base, g);
    TailSafe(b, base, g, Run(b, LOAD_FLAGS + LOAD_BASE));
    RunConcat(u, LOAD_REGISTERS, LOAD_FLAGS + LOAD_BASE);
    RunSafeConcat(u, LOAD_REGISTERS, LOAD_FLAGS + LOAD_BASE, base, g);
  }

  lemma OldStackSafe(u: Cpu, g: Guard, m: Cpu)
    requires 16 <= u.Get(RSP) < WORDS - 8 && u.Get(RSP) + 8 <= g.top && NamesArea(g, u.Get(RSI))
    requires m == Run(u, ON_OLD_STACK)
    ensures RunSafe(u, ON_OLD_STACK, u.Get(RSP), g) && Points(m, u.Get(RSP) - 8, u.Get(RSI))
  {
    var base, a, rest := u.Get(RSP), Run(u, SAVE), LOAD_REGISTERS + (LOAD_FLAGS + LOAD_BASE);
    SaveSafe(u, g, a);
    LoadsAndTailSafe(a, base, g, Run(a, rest));
    RunConcat(u, SAVE, rest);
    RunSafeConcat(u, SAVE, rest, base, g);
  }

  lemma NewStackSafe(u: Cpu, g: Guard)
    requires 8 <= u.Get(RSP) < WORDS && u.Get(RSP) <= g.top && NamesArea(g, u.Get(RSI))
    ensures RunSafe(u, ON_NEW_STACK, u.Get(RSP), g)
  {
    var first := [Load(RAX, RSI, 136), Push(RAX)];
    Safe2(u, Load(RAX, RSI, 136), Push(RAX), u.Get(RSP), g);
    Run2(u, Load(RAX, RSI, 136), Push(RAX));
    var a := Run(u, first);
    assert g.kept(u.Get(RSI) + Field(RCX)) && g.kept(u.Get(RSI) + Field(RSI));
    Safe3(a, Load(RAX, RSI, 16), Load(RSI, RSI, 32), Ret, u.Get(RSP), g);
    RunSafeConcat(u, first, RESUME, u.Get(RSP), g);
  }

  // ---------- the whole code ----------

  /** Changing stacks, what has to agree from then on is what agreed before. */
  lemma ChangeAgrees(s: Cpu, u: Cpu, v: Cpu, g: Guard, g': Guard)
    requires GuardsFit(s, g, g') && u.Get(RSI) == s.Get(RSI) && Agree(u, v, s.Get(RSP), g)
    requires u.Read(s.Get(RSI) + Field(RSP)) == s.Read(s.Get(RSI) + Field(RSP))
    ensures var base := s.Read(s.Get(RSI) + Field(RSP));
            Agree(u.Exec(CHANGE_STACK), v.Exec(CHANGE_STACK), base, g') && u.Exec(CHANGE_STACK).Get(RSP) == base
  {
    var x, y, base := u.Exec(CHANGE_STACK), v.Exec(CHANGE_STACK), s.Read(s.Get(RSI) + Field(RSP));
    assert v.Get(RSI) == u.Get(RSI) && g.kept(u.Get(RSI) + Field(RSP));
    assert v.Read(u.Get(RSI) + 48) == u.Read(u.Get(RSI) + 48);
    forall r ensures y.Get(r) == x.Get(r) { assert v.Get(r) == u.Get(r); }
    forall a | InWindow(a, base, base, g'.top) || g'.kept(a) ensures y.Read(a) == x.Read(a) {
      assert v.Read(a) == u.Read(a);
    }
  }

  /** Loading registers and flags writes only below the stack pointer. */
  lemma LoadsKeep(u: Cpu, m: Cpu, x: int)
    requires 8 <= u.Get(RSP) < WORDS && Outside(x, u.Get(RSP) - 8, 8)
    requires m == Run(u, LOAD_REGISTERS + (LOAD_FLAGS + LOAD_BASE))
    ensures m.Read(x) == u.Read(x)
  {
    var b := Run(u, LOAD_REGISTERS);
    LoadRegistersLoadsAll();
    LoadRegisters(u, LOAD_REGISTERS);
    RunConcat(u, LOAD_REGISTERS, LOAD_FLAGS + LOAD_BASE);
    TailKeeps(b, m, x);
  }

  lemma TailKeeps(b: Cpu, m: Cpu, x: int)
    requires 8 <= b.Get(RSP) < WORDS && Outside(x, b.Get(RSP) - 8, 8) && m == Run(b, LOAD_FLAGS + LOAD_BASE)
    ensures m.Read(x) == b.Read(x)
  {
    var c := Run(b, LOAD_FLAGS);
    LoadFlagsCode(b);
    LoadFlags(b, c);
    RunConcat(b, LOAD_FLAGS, LOAD_BASE);
    Run1(c, Load(RBP, RSI, 56));
  }

  /** The word at `x` is the same, and will not be pushed upon. */
  ghost predicate WillStay(s: Cpu, a: Cpu, x: int) {
    a.Read(x) == s.Read(x) && 8 <= a.Get(RSP) < WORDS && Outside(x, a.Get(RSP) - 8, 8)
  }

  lemma SaveKeepsPointer(s: Cpu, a: Cpu)
    requires Separated(s) && a == Run(s, SAVE)
    ensures WillStay(s, a, s.Get(RSI) + Field(RSP))
  {
    SaveSaves(s);
    SavedKeepsPointer(s, a);
  }

  lemma LoadsKeepWord(s: Cpu, a: Cpu, u: Cpu, x: int)
    requires WillStay(s, a, x) && u == Run(a, LOAD_REGISTERS + (LOAD_FLAGS + LOAD_BASE))
    ensures u.Read(x) == s.Read(x)
  {
    LoadsKeep(a, u, x);
  }

  lemma OldStackRun(s: Cpu, a: Cpu)
    requires a == Run(s, SAVE)
    ensures Run(s, ON_OLD_STACK) == Run(a, LOAD_REGISTERS + (LOAD_FLAGS + LOAD_BASE))
  {
    RunConcat(s, SAVE, LOAD_REGISTERS + (LOAD_FLAGS + LOAD_BASE));
  }

  /** The pointer that will be loaded is not touched before. */
  lemma PointerKept(s: Cpu, u: Cpu)
    requires Separated(s) && u == Run(s, ON_OLD_STACK)
    ensures u.Read(s.Get(RSI) + Field(RSP)) == s.Read(s.Get(RSI) + Field(RSP))
  {
    var a := Run(s, SAVE);
    SaveKeepsPointer(s, a);
    OldStackRun(s, a);
    LoadsKeepWord(s, a, u, s.Get(RSI) + Field(RSP));
  }

  lemma SavedKeepsPointer(s: Cpu, a: Cpu)
    requires Separated(s) && Saved(s, a)
    ensures var x := s.Get(RSI) + Field(RSP);
            a.Read(x) == s.Read(x) && 8 <= a.Get(RSP) < WORDS && Outside(x, a.Get(RSP) - 8, 8)
  {
  }

  lemma NewStackAgrees(x: Cpu, y: Cpu, after: Script, t: Cpu, base': int, g': Guard)
    requires Agree(x, y, base', g') && x.Get(RSP) == base' && 8 <= base' < WORDS && base' <= g'.top
    requires NamesArea(g', x.Get(RSI)) && Executes(y, ON_NEW_STACK, after, t, g')
    ensures Agree(Run(x, ON_NEW_STACK), t, base', g')
  {
    NewStackSafe(x, g');
    ExecutesAgrees(x, y, ON_NEW_STACK, after, t, base', g');
  }

  lemma SelfAgrees(s: Cpu, g: Guard)
    ensures Agree(s, s, s.Get(RSP), g)
  {
  }

  lemma OldStackAgrees(s: Cpu, u: Cpu, before: Script, a: Cpu, g: Guard)
    requires 16 <= s.Get(RSP) < WORDS - 8 && s.Get(RSP) + 8 <= g.top && NamesArea(g, s.Get(RSI))
    requires u == Run(s, ON_OLD_STACK) && Executes(s, ON_OLD_STACK, before, a, g)
    ensures Agree(u, a, s.Get(RSP), g) && u.Get(RSI) == s.Get(RSI)
  {
    OldStackSafe(s, g, u);
    SelfAgrees(s, g);
    ExecutesAgrees(s, s, ON_OLD_STACK, before, a, s.Get(RSP), g);
  }

  lemma EndOfSwitch(s: Cpu, u: Cpu)
    requires u == Run(s, ON_OLD_STACK)
    ensures Run(s, SWITCH_TASK) == Run(u.Exec(CHANGE_STACK), ON_NEW_STACK)
  {
    SwitchTaskInParts();
    RunConcat(s, ON_OLD_STACK, [CHANGE_STACK] + ON_NEW_STACK);
    RunConcat(u, [CHANGE_STACK], ON_NEW_STACK);
    Run1(u, CHANGE_STACK);
  }

  lemma FirstPartAgrees(s: Cpu, u: Cpu, before: Script, a: Cpu, g: Guard, g': Guard)
    requires Separated(s) && GuardsFit(s, g, g')
    requires u == Run(s, ON_OLD_STACK) && Executes(s, ON_OLD_STACK, before, a, g)
    ensures var base := s.Read(s.Get(RSI) + Field(RSP));
            && Agree(u.Exec(CHANGE_STACK), a.Exec(CHANGE_STACK), base, g')
            && Points(u.Exec(CHANGE_STACK), base, s.Get(RSI))
  {
    OldStackAgrees(s, u, before, a, g);
    PointerKept(s, u);
    ChangeAgrees(s, u, a, g, g');
  }

  lemma SecondPartAgrees(s: Cpu, x: Cpu, y: Cpu, after: Script, t: Cpu, g: Guard, g': Guard)
    requires Separated(s) && GuardsFit(s, g, g') && Executes(y, ON_NEW_STACK, after, t, g')
    requires var base := s.Read(s.Get(RSI) + Field(RSP)); Agree(x, y, base, g') && Points(x, base, s.Get(RSI))
    ensures Agree(Run(x, ON_NEW_STACK), t, s.Read(s.Get(RSI) + Field(RSP)), g')
  {
    NewStackAgrees(x, y, after, t, s.Read(s.Get(RSI) + Field(RSP)), g');
  }

  lemma SwitchExecutesAgrees(s: Cpu, u: Cpu, before: Script, a: Cpu, after: Script, t: Cpu, g: Guard, g': Guard)
    requires Separated(s) && GuardsFit(s, g, g') && u == Run(s, ON_OLD_STACK)
    requires Executes(s, ON_OLD_STACK, before, a, g) && Executes(a.Exec(CHANGE_STACK), ON_NEW_STACK, after, t, g')
    ensures Agree(Run(u.Exec(CHANGE_STACK), ON_NEW_STACK), t, s.Read(s.Get(RSI) + Field(RSP)), g')
  {
    FirstPartAgrees(s, u, before, a, g, g');
    SecondPartAgrees(s, u.Exec(CHANGE_STACK), a.Exec(CHANGE_STACK), after, t, g, g');
  }

  lemma InterruptedSwitchAgrees(s: Cpu, t: Cpu, end: Cpu, g: Guard, g': Guard)
    requires Separated(s) && GuardsFit(s, g, g') && SwitchMayEnd(s, t, g, g') && end == Run(s, SWITCH_TASK)
    ensures Agree(end, t, s.Read(s.Get(RSI) + Field(RSP)), g')
  {
    var before, a, after :| SwitchExecutes(s, before, a, after, t, g, g');
    var u := Run(s, ON_OLD_STACK);
    SwitchExecutesAgrees(s, u, before, a, after, t, g, g');
    EndOfSwitch(s, u);
  }

  /** `end` is where the uninterrupted code ends, and `t` looks the same. */
  ghost predicate EndsLike(s: Cpu, end: Cpu, t: Cpu, g': Guard) {
    Switched(s, end) && Agree(end, t, s.Read(s.Get(RSI) + Field(RSP)), g')
  }

  /** However `switchTask` is interrupted, it ends as if it had not been, as
      far as registers, the two areas and live stacks go. */
  lemma InterruptedSwitchSwitches(s: Cpu, t: Cpu, g: Guard, g': Guard) returns (end: Cpu)
    requires Separated(s) && GuardsFit(s, g, g') && SwitchMayEnd(s, t, g, g')
    ensures EndsLike(s, end, t, g')
  {
    end := Run(s, SWITCH_TASK);
    SwitchTaskSwitches(s);
    InterruptedSwitchAgrees(s, t, end, g, g');
  }

  // ---------- interrupted switches exist ----------

  lemma OldStackCanBreak(s: Cpu, n: nat, g: Guard, vector: nat, error: int, returnAddress: int, depth: nat,
                         a: int, v: int)
    returns (before: Script, m: Cpu)
    requires 16 <= s.Get(RSP) < WORDS - 8 && s.Get(RSP) + 8 <= g.top && NamesArea(g, s.Get(RSI)) && n <= |ON_OLD_STACK|
    requires g.Valid() && g.low + ROOM * (depth + 1) + 8 * n <= s.Get(RSP) && Free(a, g)
    ensures Executes(s, ON_OLD_STACK, before, m, g) && BreaksAt(before, n)
  {
    OldStackSafe(s, g, Run(s, ON_OLD_STACK));
    before, m := CanBreak(s, ON_OLD_STACK, n, s.Get(RSP), g, vector, error, returnAddress, depth, a, v);
  }

  lemma NewStackCanBreak(y: Cpu, n: nat, g: Guard, vector: nat, error: int, returnAddress: int, depth: nat,
                         a: int, v: int)
    returns (after: Script, t: Cpu)
    requires 8 <= y.Get(RSP) < WORDS && y.Get(RSP) <= g.top && NamesArea(g, y.Get(RSI)) && n <= |ON_NEW_STACK|
    requires g.Valid() && g.low + ROOM * (depth + 1) + 8 * n <= y.Get(RSP) && Free(a, g)
    ensures Executes(y, ON_NEW_STACK, after, t, g) && BreaksAt(after, n)
  {
    NewStackSafe(y, g);
    after, t := CanBreak(y, ON_NEW_STACK, n, y.Get(RSP), g, vector, error, returnAddress, depth, a, v);
  }

  /** However the first part was interrupted, the second one starts with the saved stack pointer. */
  lemma NewStackStarts(s: Cpu, before: Script, m: Cpu, g: Guard, g': Guard)
    requires Separated(s) && GuardsFit(s, g, g') && Executes(s, ON_OLD_STACK, before, m, g)
    ensures Points(m.Exec(CHANGE_STACK), s.Read(s.Get(RSI) + Field(RSP)), s.Get(RSI))
  {
    FirstPartAgrees(s, Run(s, ON_OLD_STACK), before, m, g, g');
  }

  /** With enough of both stacks, `switchTask` can be interrupted after any
      number of instructions on the old one, and after any number on the new one. */
  lemma SwitchCanBreak(s: Cpu, n: nat, n': nat, g: Guard, g': Guard, vector: nat, error: int, returnAddress: int,
                       depth: nat, a: int, v: int) returns (before: Script, m: Cpu, after: Script, t: Cpu)
    requires Separated(s) && GuardsFit(s, g, g') && n <= |ON_OLD_STACK| && n' <= |ON_NEW_STACK|
    requires g.Valid() && g.low + ROOM * (depth + 1) + 8 * n <= s.Get(RSP) && Free(a, g)
    requires g'.Valid() && Free(a, g')
    requires g'.low + ROOM * (depth + 1) + 8 * n' <= s.Read(s.Get(RSI) + Field(RSP))
    ensures SwitchExecutes(s, before, m, after, t, g, g') && BreaksAt(before, n) && BreaksAt(after, n')
  {
    before, m := OldStackCanBreak(s, n, g, vector, error, returnAddress, depth, a, v);
    NewStackStarts(s, before, m, g, g');
    after, t := NewStackCanBreak(m.Exec(CHANGE_STACK), n', g', vector, error, returnAddress, depth, a, v);
  }
}
