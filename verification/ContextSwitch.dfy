/**
  `switchTask` of kernel/process/switch.asm, and what it does: it saves the
  running task in the area that rdi points to and resumes the task saved in
  the area that rsi points to.
*/
module ContextSwitch {
  import opened FlagBits
  import opened Machine

  /** The place of a register in `struct Registers` of kernel/process/task.h. */
  function Field(r: Reg): (f: nat)
    ensures f <= 120 && f % 8 == 0
  {
    match r
    case RAX => 0 case RBX => 8 case RCX => 16 case RDX => 24
    case RSI => 32 case RDI => 40 case RSP => 48 case RBP => 56
    case R8 => 64 case R9 => 72 case R10 => 80 case R11 => 88
    case R12 => 96 case R13 => 104 case R14 => 112 case R15 => 120
  }

  const RFLAGS_FIELD: nat := 128
  const RIP_FIELD: nat := 136
  /** The part of the structure that is saved; cr3 follows and is not used. */
  const SAVED_SIZE: nat := 144

  // ---------- the code ----------

  const SAVE_RAX: seq<Instr> := [Store(RDI, 0, RAX), Move(RAX, RSP), Add(RAX, 8)]

  const SAVE_REGISTERS: seq<Instr> := [
    Store(RDI, 8, RBX),
    Store(RDI, 16, RCX),
    Store(RDI, 24, RDX),
    Store(RDI, 32, RSI),
    Store(RDI, 40, RDI),
    Store(RDI, 48, RAX),
    Store(RDI, 56, RBP),
    Store(RDI, 64, R8),
    Store(RDI, 72, R9),
    Store(RDI, 80, R10),
    Store(RDI, 88, R11),
    Store(RDI, 96, R12),
    Store(RDI, 104, R13),
    Store(RDI, 112, R14),
    Store(RDI, 120, R15)]

  const SAVE_FLAGS: seq<Instr> := [Pushfq, Pop(RAX), Store(RDI, 128, RAX)]

  const SAVE_RETURN: seq<Instr> := [Load(RAX, RSP, 0), Store(RDI, 136, RAX), Push(RAX)]

  const LOAD_REGISTERS: seq<Instr> := [
    Load(RAX, RSI, 0),
    Load(RBX, RSI, 8),
    Load(RDX, RSI, 24),
    Load(RDI, RSI, 40),
    Load(R8, RSI, 64),
    Load(R9, RSI, 72),
    Load(R10, RSI, 80),
    Load(R11, RSI, 88),
    Load(R12, RSI, 96),
    Load(R13, RSI, 104),
    Load(R14, RSI, 112),
    Load(R15, RSI, 120)]

  const LOAD_FLAGS: seq<Instr> := [Load(RAX, RSI, 128), Push(RAX), Popfq]

  const LOAD_STACK: seq<Instr> := [Load(RBP, RSI, 56), Load(RSP, RSI, 48), Load(RAX, RSI, 136), Push(RAX)]

  const RESUME: seq<Instr> := [Load(RAX, RSI, 16), Load(RSI, RSI, 32), Ret]

  const SAVE: seq<Instr> := SAVE_RAX + SAVE_REGISTERS + (SAVE_FLAGS + SAVE_RETURN)

  const SWITCH: seq<Instr> := LOAD_REGISTERS + LOAD_FLAGS + (LOAD_STACK + RESUME)

  const SWITCH_TASK: seq<Instr> := SAVE + SWITCH

  // ---------- what it does ----------

  /** What the caller of `switchTask` will find once it is resumed: the state
      after the call returned, but for six arithmetic flags. */
  ghost predicate SavedAt(s: Cpu, t: Cpu, area: int) {
    && (forall r :: r != RSP ==> t.Read(area + Field(r)) == s.Get(r))
    && t.Read(area + Field(RSP)) == s.Get(RSP) + 8
    && t.Read(area + RFLAGS_FIELD) == AddFlags(s.flags, s.Get(RSP), 8)
    && t.Read(area + RIP_FIELD) == s.Read(s.Get(RSP))
  }

  /** The registers of `t` come from the area saved in `s`, but rcx stays what
      it was and rax gets the saved rcx. */
  ghost predicate ResumedFrom(s: Cpu, t: Cpu, area: int) {
    && (forall r :: r != RAX && r != RCX ==> t.Get(r) == s.Read(area + Field(r)))
    && t.Get(RAX) == s.Read(area + Field(RCX))
    && t.Get(RCX) == s.Get(RCX)
    && t.flags == s.Read(area + RFLAGS_FIELD)
    && t.rip == s.Read(area + RIP_FIELD)
    && t.cs == s.cs && t.ss == s.ss
  }

  /** Memory changes in the saved area, in the two cells below the stack
      pointer, and in the cell below the stack pointer that is resumed. */
  ghost predicate Switched(s: Cpu, t: Cpu) {
    && SavedAt(s, t, s.Get(RDI))
    && ResumedFrom(s, t, s.Get(RSI))
    && (forall a ::
          Outside(a, s.Get(RDI), SAVED_SIZE) && Outside(a, s.Get(RSP) - 16, 16) && Outside(a, t.Get(RSP) - 8, 8)
          ==> t.Read(a) == s.Read(a))
  }

  /** The saved area at `area` reads the same in both states. */
  ghost predicate SameArea(s: Cpu, t: Cpu, area: int) {
    forall a :: area <= a && a + 8 <= area + SAVED_SIZE ==> t.Read(a) == s.Read(a)
  }

  ghost predicate Apart(a: int, size: nat, b: int, size': nat) {
    a + size <= b || b + size' <= a
  }

  /** The two areas and the cells pushed below the two stack pointers do not overlap. */
  ghost predicate Separated(s: Cpu) {
    var from, to, sp, sp' := s.Get(RDI), s.Get(RSI), s.Get(RSP), s.Read(s.Get(RSI) + Field(RSP));
    && 16 <= sp < WORDS - 8 && 8 <= sp' < WORDS
    && Apart(from, SAVED_SIZE, to, SAVED_SIZE)
    && Apart(from, SAVED_SIZE, sp - 16, 24) && Apart(to, SAVED_SIZE, sp - 16, 24)
    && Apart(from, SAVED_SIZE, sp' - 8, 8) && Apart(to, SAVED_SIZE, sp' - 8, 8)
  }

  // ---------- why ----------

  /** Every register but rax is stored where the structure has its field; rax holds the stack pointer by then. */
  ghost predicate SavesAll(code: seq<Instr>) {
    && Stores(code, RDI)
    && (forall k :: 0 <= k < |code| ==> 8 <= code[k].offset <= 120)
    && (forall r :: r != RAX ==> Store(RDI, Field(r), if r == RSP then RAX else r) in code)
  }

  lemma SaveRegistersSavesAll()
    ensures SavesAll(SAVE_REGISTERS)
  {
    var code := SAVE_REGISTERS;
    assert forall k :: 0 <= k < 15 ==> code[k].Store? && code[k].base == RDI && code[k].offset == 8 * k + 8;
    forall r | r != RAX
      ensures Store(RDI, Field(r), if r == RSP then RAX else r) in code
    {
      assert code[Field(r) / 8 - 1] == Store(RDI, Field(r), if r == RSP then RAX else r);
    }
  }

  predicate LoadedEarly(r: Reg) { r != RCX && r != RSI && r != RSP && r != RBP }

  /** Every register but rcx, rsi, rsp and rbp is loaded from its field. */
  ghost predicate LoadsAll(code: seq<Instr>) {
    && Loads(code, RSI)
    && (forall k :: 0 <= k < |code| ==> LoadedEarly(code[k].dst))
    && (forall r :: LoadedEarly(r) ==> Load(r, RSI, Field(r)) in code)
  }

  /** The order in which the registers are loaded. */
  function LoadIndex(r: Reg): nat {
    match r
    case RAX => 0 case RBX => 1 case RDX => 2 case RDI => 3
    case R8 => 4 case R9 => 5 case R10 => 6 case R11 => 7
    case R12 => 8 case R13 => 9 case R14 => 10 case R15 => 11
    case _ => 12
  }

  lemma LoadRegistersLoadsAll()
    ensures LoadsAll(LOAD_REGISTERS)
  {
    var code := LOAD_REGISTERS;
    assert forall k :: 0 <= k < 12 ==>
      code[k].Load? && code[k].base == RSI && LoadIndex(code[k].dst) == k && LoadedEarly(code[k].dst);
    forall r | LoadedEarly(r)
      ensures Load(r, RSI, Field(r)) in code
    {
      assert code[LoadIndex(r)] == Load(r, RSI, Field(r));
    }
  }

  ghost predicate RegistersSaved(s: Cpu, t: Cpu) {
    && (forall r :: r != RSP ==> t.Read(s.Get(RDI) + Field(r)) == s.Get(r))
    && t.Read(s.Get(RDI) + Field(RSP)) == s.Get(RSP) + 8
    && (forall a :: Outside(a, s.Get(RDI), 128) ==> t.Read(a) == s.Read(a))
    && (forall r :: r != RAX ==> t.Get(r) == s.Get(r))
    && t.flags == AddFlags(s.flags, s.Get(RSP), 8) && t.cs == s.cs && t.ss == s.ss
  }

  /** The first three instructions leave the later stack pointer in rax. */
  ghost predicate RaxSaved(s: Cpu, t: Cpu) {
    && t.Read(s.Get(RDI)) == s.Get(RAX) && (forall a :: Outside(a, s.Get(RDI), 8) ==> t.Read(a) == s.Read(a))
    && t.Get(RAX) == s.Get(RSP) + 8 && (forall r :: r != RAX ==> t.Get(r) == s.Get(r))
    && t.flags == AddFlags(s.flags, s.Get(RSP), 8) && t.cs == s.cs && t.ss == s.ss
  }

  lemma SaveRax(s: Cpu, t: Cpu)
    requires 0 <= s.Get(RSP) < WORDS - 8
    requires t == s.Exec(Store(RDI, 0, RAX)).Exec(Move(RAX, RSP)).Exec(Add(RAX, 8))
    ensures RaxSaved(s, t)
  {
  }

  lemma SaveRaxCode(s: Cpu)
    ensures Run(s, SAVE_RAX) == s.Exec(Store(RDI, 0, RAX)).Exec(Move(RAX, RSP)).Exec(Add(RAX, 8))
  {
    Run3(s, Store(RDI, 0, RAX), Move(RAX, RSP), Add(RAX, 8));
  }

  /** The fields hold the registers, and nothing else has changed. */
  ghost predicate FieldsStored(m: Cpu, t: Cpu) {
    && (forall r :: r != RAX ==> t.Read(m.Get(RDI) + Field(r)) == if r == RSP then m.Get(RAX) else m.Get(r))
    && (forall r :: t.Get(r) == m.Get(r)) && t.flags == m.flags && t.cs == m.cs && t.ss == m.ss
    && (forall a :: Outside(a, m.Get(RDI) + 8, 120) ==> t.Read(a) == m.Read(a))
  }

  lemma StoredField(m: Cpu, t: Cpu, code: seq<Instr>, r: Reg)
    requires SavesAll(code) && Stored(m, t, code, RDI) && r != RAX
    ensures t.Read(m.Get(RDI) + Field(r)) == if r == RSP then m.Get(RAX) else m.Get(r)
  {
    assert Store(RDI, Field(r), if r == RSP then RAX else r) in code;
    var k :| 0 <= k < |code| && code[k] == Store(RDI, Field(r), if r == RSP then RAX else r);
  }

  lemma StoredKeepsCell(m: Cpu, t: Cpu, code: seq<Instr>, a: int)
    requires SavesAll(code) && Stored(m, t, code, RDI) && Outside(a, m.Get(RDI) + 8, 120)
    ensures t.Read(a) == m.Read(a)
  {
    assert Away(a, m.Get(RDI), code);
  }

  lemma StoreFields(m: Cpu, t: Cpu, code: seq<Instr>)
    requires SavesAll(code) && Stored(m, t, code, RDI)
    ensures FieldsStored(m, t)
  {
    forall a | Outside(a, m.Get(RDI) + 8, 120)
      ensures t.Read(a) == m.Read(a)
    {
      StoredKeepsCell(m, t, code, a);
    }
    forall r | r != RAX
      ensures t.Read(m.Get(RDI) + Field(r)) == if r == RSP then m.Get(RAX) else m.Get(r)
    {
      StoredField(m, t, code, r);
    }
  }

  lemma SaveRegisters(s: Cpu, m: Cpu, t: Cpu)
    requires RaxSaved(s, m) && FieldsStored(m, t)
    ensures RegistersSaved(s, t)
  {
  }

  ghost predicate FlagsAndReturnSaved(s: Cpu, t: Cpu) {
    && t.Read(s.Get(RDI) + RFLAGS_FIELD) == s.flags
    && t.Read(s.Get(RDI) + RIP_FIELD) == s.Read(s.Get(RSP))
    && (forall a :: Outside(a, s.Get(RDI) + RFLAGS_FIELD, 16) && Outside(a, s.Get(RSP) - 8, 8)
          ==> t.Read(a) == s.Read(a))
    && (forall r :: r != RAX && r != RSP ==> t.Get(r) == s.Get(r))
    && t.Get(RSP) == s.Get(RSP) - 8 && t.cs == s.cs && t.ss == s.ss
  }

  ghost predicate FlagsSaved(s: Cpu, t: Cpu) {
    && t.Read(s.Get(RDI) + RFLAGS_FIELD) == s.flags
    && (forall a :: Outside(a, s.Get(RDI) + RFLAGS_FIELD, 8) && Outside(a, s.Get(RSP) - 8, 8)
          ==> t.Read(a) == s.Read(a))
    && (forall r :: r != RAX ==> t.Get(r) == s.Get(r)) && t.cs == s.cs && t.ss == s.ss
  }

  lemma SaveFlags(s: Cpu, t: Cpu)
    requires 8 <= s.Get(RSP) < WORDS
    requires t == s.Exec(Pushfq).Exec(Pop(RAX)).Exec(Store(RDI, 128, RAX))
    ensures FlagsSaved(s, t)
  {
  }

  lemma SaveFlagsCode(s: Cpu)
    ensures Run(s, SAVE_FLAGS) == s.Exec(Pushfq).Exec(Pop(RAX)).Exec(Store(RDI, 128, RAX))
  {
    Run3(s, Pushfq, Pop(RAX), Store(RDI, 128, RAX));
  }

  ghost predicate ReturnSaved(s: Cpu, t: Cpu) {
    && (Outside(s.Get(RDI) + RIP_FIELD, s.Get(RSP) - 8, 8) ==> t.Read(s.Get(RDI) + RIP_FIELD) == s.Read(s.Get(RSP)))
    && (forall a :: Outside(a, s.Get(RDI) + RIP_FIELD, 8) && Outside(a, s.Get(RSP) - 8, 8) ==> t.Read(a) == s.Read(a))
    && (forall r :: r != RAX && r != RSP ==> t.Get(r) == s.Get(r))
    && t.Get(RSP) == s.Get(RSP) - 8 && t.cs == s.cs && t.ss == s.ss
  }

  lemma SaveReturn(s: Cpu, t: Cpu)
    requires 8 <= s.Get(RSP) < WORDS
    requires t == s.Exec(Load(RAX, RSP, 0)).Exec(Store(RDI, 136, RAX)).Exec(Push(RAX))
    ensures ReturnSaved(s, t)
  {
  }

  lemma SaveReturnCode(s: Cpu)
    ensures Run(s, SAVE_RETURN) == s.Exec(Load(RAX, RSP, 0)).Exec(Store(RDI, 136, RAX)).Exec(Push(RAX))
  {
    Run3(s, Load(RAX, RSP, 0), Store(RDI, 136, RAX), Push(RAX));
  }

  lemma SaveFlagsAndReturn(s: Cpu, m: Cpu, t: Cpu)
    requires FlagsSaved(s, m) && ReturnSaved(m, t) && Apart(s.Get(RDI), SAVED_SIZE, s.Get(RSP) - 8, 16)
    ensures FlagsAndReturnSaved(s, t)
  {
  }

  ghost predicate Saved(s: Cpu, t: Cpu) {
    && SavedAt(s, t, s.Get(RDI))
    && (forall a :: Outside(a, s.Get(RDI), SAVED_SIZE) && Outside(a, s.Get(RSP) - 8, 8) ==> t.Read(a) == s.Read(a))
    && t.Get(RCX) == s.Get(RCX) && t.Get(RSI) == s.Get(RSI) && t.Get(RSP) == s.Get(RSP) - 8
    && t.cs == s.cs && t.ss == s.ss
  }

  lemma SavedTogether(s: Cpu, m: Cpu, t: Cpu)
    requires RegistersSaved(s, m) && FlagsAndReturnSaved(m, t)
    requires Apart(s.Get(RDI), SAVED_SIZE, s.Get(RSP) - 8, 16)
    ensures Saved(s, t)
  {
  }

  ghost predicate RegistersLoaded(s: Cpu, t: Cpu) {
    && (forall r :: LoadedEarly(r) ==> t.Get(r) == s.Read(s.Get(RSI) + Field(r)))
    && (forall r :: !LoadedEarly(r) ==> t.Get(r) == s.Get(r))
    && t.cs == s.cs && t.ss == s.ss && t.mem == s.mem
  }

  lemma LoadRegisters(s: Cpu, code: seq<Instr>)
    requires LoadsAll(code)
    ensures RegistersLoaded(s, Run(s, code))
  {
    RunLoads(s, code, RSI);
    forall r | LoadedEarly(r)
      ensures Run(s, code).Get(r) == s.Read(s.Get(RSI) + Field(r))
    {
      var k :| 0 <= k < |code| && code[k] == Load(r, RSI, Field(r));
    }
  }

  ghost predicate FlagsLoaded(s: Cpu, t: Cpu) {
    && t.flags == s.Read(s.Get(RSI) + RFLAGS_FIELD)
    && (forall r :: r != RAX ==> t.Get(r) == s.Get(r)) && t.cs == s.cs && t.ss == s.ss
    && (forall a :: Outside(a, s.Get(RSP) - 8, 8) ==> t.Read(a) == s.Read(a))
  }

  lemma LoadFlags(s: Cpu, t: Cpu)
    requires 8 <= s.Get(RSP) < WORDS
    requires t == s.Exec(Load(RAX, RSI, 128)).Exec(Push(RAX)).Exec(Popfq)
    ensures FlagsLoaded(s, t)
  {
  }

  lemma LoadFlagsCode(s: Cpu)
    ensures Run(s, LOAD_FLAGS) == s.Exec(Load(RAX, RSI, 128)).Exec(Push(RAX)).Exec(Popfq)
  {
    Run3(s, Load(RAX, RSI, 128), Push(RAX), Popfq);
  }

  ghost predicate StackLoaded(s: Cpu, t: Cpu) {
    var to, sp := s.Get(RSI), s.Read(s.Get(RSI) + Field(RSP));
    && t.Get(RBP) == s.Read(to + Field(RBP)) && t.Get(RSP) == sp - 8 && t.Read(sp - 8) == s.Read(to + RIP_FIELD)
    && (forall r :: r != RAX && r != RBP && r != RSP ==> t.Get(r) == s.Get(r))
    && t.cs == s.cs && t.ss == s.ss && t.flags == s.flags
    && (forall a :: Outside(a, sp - 8, 8) ==> t.Read(a) == s.Read(a))
  }

  lemma LoadStack(s: Cpu, t: Cpu)
    requires 8 <= s.Read(s.Get(RSI) + Field(RSP)) < WORDS
    requires t == s.Exec(Load(RBP, RSI, 56)).Exec(Load(RSP, RSI, 48)).Exec(Load(RAX, RSI, 136)).Exec(Push(RAX))
    ensures StackLoaded(s, t)
  {
  }

  lemma LoadStackCode(s: Cpu)
    ensures Run(s, LOAD_STACK)
            == s.Exec(Load(RBP, RSI, 56)).Exec(Load(RSP, RSI, 48)).Exec(Load(RAX, RSI, 136)).Exec(Push(RAX))
  {
    Run4(s, Load(RBP, RSI, 56), Load(RSP, RSI, 48), Load(RAX, RSI, 136), Push(RAX));
  }

  ghost predicate Resumed(s: Cpu, t: Cpu) {
    && t.Get(RAX) == s.Read(s.Get(RSI) + Field(RCX)) && t.Get(RSI) == s.Read(s.Get(RSI) + Field(RSI))
    && t.Get(RSP) == s.Get(RSP) + 8 && t.rip == s.Read(s.Get(RSP))
    && (forall r :: r != RAX && r != RSI && r != RSP ==> t.Get(r) == s.Get(r))
    && t.cs == s.cs && t.ss == s.ss && t.flags == s.flags && t.mem == s.mem
  }

  lemma Resume(s: Cpu, t: Cpu)
    requires 0 <= s.Get(RSP) < WORDS - 8
    requires t == s.Exec(Load(RAX, RSI, 16)).Exec(Load(RSI, RSI, 32)).Exec(Ret)
    ensures Resumed(s, t)
  {
  }

  lemma ResumeCode(s: Cpu)
    ensures Run(s, RESUME) == s.Exec(Load(RAX, RSI, 16)).Exec(Load(RSI, RSI, 32)).Exec(Ret)
  {
    Run3(s, Load(RAX, RSI, 16), Load(RSI, RSI, 32), Ret);
  }

  /** The saved area can be loaded: no push on the way lands in it. */
  ghost predicate Loadable(s: Cpu) {
    var sp' := s.Read(s.Get(RSI) + Field(RSP));
    && 8 <= s.Get(RSP) < WORDS && 8 <= sp' < WORDS
    && Apart(s.Get(RSI), SAVED_SIZE, s.Get(RSP) - 8, 8) && Apart(s.Get(RSI), SAVED_SIZE, sp' - 8, 8)
  }

  ghost predicate Loaded(s: Cpu, t: Cpu) {
    && ResumedFrom(s, t, s.Get(RSI))
    && (forall a :: Outside(a, s.Get(RSP) - 8, 8) && Outside(a, t.Get(RSP) - 8, 8) ==> t.Read(a) == s.Read(a))
  }

  /** Registers and flags are loaded: the area is still there. */
  lemma FlagsKeepArea(s: Cpu, a: Cpu, b: Cpu)
    requires Loadable(s) && RegistersLoaded(s, a) && FlagsLoaded(a, b)
    ensures b.Get(RSI) == s.Get(RSI) && SameArea(s, b, s.Get(RSI))
    ensures forall x :: Outside(x, s.Get(RSP) - 8, 8) ==> b.Read(x) == s.Read(x)
  {
    assert a.Get(RSI) == s.Get(RSI) && a.Get(RSP) == s.Get(RSP);
    forall x | Outside(x, s.Get(RSP) - 8, 8) ensures b.Read(x) == s.Read(x) {
      assert b.Read(x) == a.Read(x);
    }
  }

  /** The new stack pointer is loaded, and the return address pushed below it. */
  lemma StackKeepsArea(s: Cpu, b: Cpu, c: Cpu)
    requires Loadable(s) && b.Get(RSI) == s.Get(RSI) && SameArea(s, b, s.Get(RSI)) && StackLoaded(b, c)
    ensures var sp := s.Read(s.Get(RSI) + Field(RSP));
            && c.Get(RSP) == sp - 8 && c.Get(RSI) == s.Get(RSI) && SameArea(s, c, s.Get(RSI))
            && (forall x :: Outside(x, sp - 8, 8) ==> c.Read(x) == b.Read(x))
  {
    assert b.Read(s.Get(RSI) + Field(RSP)) == s.Read(s.Get(RSI) + Field(RSP));
  }

  lemma LoadedMemory(s: Cpu, a: Cpu, b: Cpu, c: Cpu, t: Cpu)
    requires Loadable(s) && RegistersLoaded(s, a) && FlagsLoaded(a, b) && StackLoaded(b, c) && Resumed(c, t)
    ensures var to := s.Get(RSI);
            && SameArea(s, b, to) && SameArea(s, c, to)
            && t.Get(RSP) == s.Read(to + Field(RSP))
            && (forall x :: Outside(x, s.Get(RSP) - 8, 8) && Outside(x, t.Get(RSP) - 8, 8) ==> t.Read(x) == s.Read(x))
  {
    FlagsKeepArea(s, a, b);
    StackKeepsArea(s, b, c);
  }

  lemma LoadedRegister(s: Cpu, a: Cpu, b: Cpu, c: Cpu, t: Cpu, r: Reg)
    requires RegistersLoaded(s, a) && FlagsLoaded(a, b) && StackLoaded(b, c) && Resumed(c, t)
    requires r != RAX && r != RCX && r != RSI && r != RSP && r != RBP
    ensures t.Get(r) == s.Read(s.Get(RSI) + Field(r))
  {
    assert LoadedEarly(r);
    assert c.Get(r) == b.Get(r) == a.Get(r);
  }

  lemma LoadedRest(s: Cpu, a: Cpu, b: Cpu, c: Cpu, t: Cpu)
    requires RegistersLoaded(s, a) && FlagsLoaded(a, b) && StackLoaded(b, c) && Resumed(c, t)
    requires SameArea(s, b, s.Get(RSI)) && SameArea(s, c, s.Get(RSI))
    ensures t.Get(RAX) == s.Read(s.Get(RSI) + Field(RCX)) && t.Get(RCX) == s.Get(RCX)
    ensures t.Get(RSI) == s.Read(s.Get(RSI) + Field(RSI)) && t.Get(RBP) == s.Read(s.Get(RSI) + Field(RBP))
    ensures t.flags == s.Read(s.Get(RSI) + RFLAGS_FIELD) && t.rip == s.Read(s.Get(RSI) + RIP_FIELD)
    ensures t.cs == s.cs && t.ss == s.ss
  {
    assert c.Get(RSI) == b.Get(RSI) == a.Get(RSI) == s.Get(RSI);
    assert c.Get(RCX) == b.Get(RCX) == a.Get(RCX) == s.Get(RCX);
    assert a.Read(s.Get(RSI) + RFLAGS_FIELD) == s.Read(s.Get(RSI) + RFLAGS_FIELD);
  }

  lemma LoadedTogether(s: Cpu, a: Cpu, b: Cpu, c: Cpu, t: Cpu)
    requires Loadable(s) && RegistersLoaded(s, a) && FlagsLoaded(a, b) && StackLoaded(b, c) && Resumed(c, t)
    ensures Loaded(s, t)
  {
    LoadedMemory(s, a, b, c, t);
    LoadedRest(s, a, b, c, t);
    forall r | r != RAX && r != RCX
      ensures t.Get(r) == s.Read(s.Get(RSI) + Field(r))
    {
      if r != RSI && r != RSP && r != RBP { LoadedRegister(s, a, b, c, t, r); }
    }
  }

  /** `struct Registers` of kernel/process/task.h at `area`, in its order: the state after the call returned. */
  ghost predicate SavedInOrder(s: Cpu, t: Cpu, area: int) {
    && t.Read(area) == s.Get(RAX) && t.Read(area + 8) == s.Get(RBX) && t.Read(area + 16) == s.Get(RCX)
    && t.Read(area + 24) == s.Get(RDX) && t.Read(area + 32) == s.Get(RSI) && t.Read(area + 40) == s.Get(RDI)
    && t.Read(area + 48) == s.Get(RSP) + 8 && t.Read(area + 56) == s.Get(RBP)
    && t.Read(area + 64) == s.Get(R8) && t.Read(area + 72) == s.Get(R9) && t.Read(area + 80) == s.Get(R10)
    && t.Read(area + 88) == s.Get(R11) && t.Read(area + 96) == s.Get(R12) && t.Read(area + 104) == s.Get(R13)
    && t.Read(area + 112) == s.Get(R14) && t.Read(area + 120) == s.Get(R15)
    && AddedFlags(s.flags, t.Read(area + 128), s.Get(RSP), 8)
    && t.Read(area + 136) == s.Read(s.Get(RSP))
  }

  /** The registers of `t` come from the structure at `area`, but rcx is lost and rax gets the saved rcx. */
  ghost predicate LoadedInOrder(s: Cpu, t: Cpu, area: int) {
    && t.Get(RAX) == s.Read(area + 16) && t.Get(RBX) == s.Read(area + 8) && t.Get(RCX) == s.Get(RCX)
    && t.Get(RDX) == s.Read(area + 24) && t.Get(RSI) == s.Read(area + 32) && t.Get(RDI) == s.Read(area + 40)
    && t.Get(RSP) == s.Read(area + 48) && t.Get(RBP) == s.Read(area + 56)
    && t.Get(R8) == s.Read(area + 64) && t.Get(R9) == s.Read(area + 72) && t.Get(R10) == s.Read(area + 80)
    && t.Get(R11) == s.Read(area + 88) && t.Get(R12) == s.Read(area + 96) && t.Get(R13) == s.Read(area + 104)
    && t.Get(R14) == s.Read(area + 112) && t.Get(R15) == s.Read(area + 120)
    && t.flags == s.Read(area + 128) && t.rip == s.Read(area + 136)
  }

  lemma SavedHasOrder(s: Cpu, t: Cpu, area: int)
    requires SavedAt(s, t, area) && 0 <= s.Get(RSP) < WORDS
    ensures SavedInOrder(s, t, area)
  {
    AddFlagsAre(s.flags, s.Get(RSP), 8);
    SavedRegistersInOrder(s, t, area);
  }

  lemma SavedRegistersInOrder(s: Cpu, t: Cpu, area: int)
    requires forall r :: r != RSP ==> t.Read(area + Field(r)) == s.Get(r)
    ensures t.Read(area) == s.Get(RAX) && t.Read(area + 8) == s.Get(RBX) && t.Read(area + 16) == s.Get(RCX)
    ensures t.Read(area + 24) == s.Get(RDX) && t.Read(area + 32) == s.Get(RSI) && t.Read(area + 40) == s.Get(RDI)
    ensures t.Read(area + 56) == s.Get(RBP)
    ensures t.Read(area + 64) == s.Get(R8) && t.Read(area + 72) == s.Get(R9) && t.Read(area + 80) == s.Get(R10)
    ensures t.Read(area + 88) == s.Get(R11) && t.Read(area + 96) == s.Get(R12) && t.Read(area + 104) == s.Get(R13)
    ensures t.Read(area + 112) == s.Get(R14) && t.Read(area + 120) == s.Get(R15)
  {
    FieldsInOrder();
  }

  lemma LoadedHasOrder(s: Cpu, t: Cpu, area: int)
    requires ResumedFrom(s, t, area)
    ensures LoadedInOrder(s, t, area)
  {
    FieldsInOrder();
  }

  lemma FieldsInOrder()
    ensures Field(RAX) == 0 && Field(RBX) == 8 && Field(RCX) == 16 && Field(RDX) == 24
    ensures Field(RSI) == 32 && Field(RDI) == 40 && Field(RSP) == 48 && Field(RBP) == 56
    ensures Field(R8) == 64 && Field(R9) == 72 && Field(R10) == 80 && Field(R11) == 88
    ensures Field(R12) == 96 && Field(R13) == 104 && Field(R14) == 112 && Field(R15) == 120
  {
  }

  /** The whole code: for every state whose areas and stacks are apart. */
  lemma SwitchTaskSwitches(s: Cpu)
    requires Separated(s)
    ensures Switched(s, Run(s, SWITCH_TASK))
    ensures SavedInOrder(s, Run(s, SWITCH_TASK), s.Get(RDI)) && LoadedInOrder(s, Run(s, SWITCH_TASK), s.Get(RSI))
  {
    RunConcat(s, SAVE, SWITCH);
    SaveSaves(s);
    SavedLoadable(s, Run(s, SAVE));
    SwitchLoads(Run(s, SAVE));
    SwitchedTogether(s, Run(s, SAVE), Run(s, SWITCH_TASK));
    SwitchedInOrder(s, Run(s, SWITCH_TASK));
  }

  lemma SwitchedInOrder(s: Cpu, t: Cpu)
    requires Separated(s) && Switched(s, t)
    ensures SavedInOrder(s, t, s.Get(RDI)) && LoadedInOrder(s, t, s.Get(RSI))
  {
    SavedHasOrder(s, t, s.Get(RDI));
    LoadedHasOrder(s, t, s.Get(RSI));
  }

  lemma SaveSaves(s: Cpu)
    requires 8 <= s.Get(RSP) < WORDS - 8 && Apart(s.Get(RDI), SAVED_SIZE, s.Get(RSP) - 8, 16)
    ensures Saved(s, Run(s, SAVE))
  {
    var (a, b, c, d) := SaveStates(s);
    SaveRax(s, a);
    SaveRegistersSavesAll();
    RunStores(a, SAVE_REGISTERS, RDI);
    StoreFields(a, b, SAVE_REGISTERS);
    SaveRegisters(s, a, b);
    SaveFlags(b, c);
    SaveReturn(c, d);
    SaveFlagsAndReturn(b, c, d);
    SavedTogether(s, b, d);
  }

  /** The states between the pieces of SAVE. */
  ghost function SaveStates(s: Cpu): (r: (Cpu, Cpu, Cpu, Cpu))
    ensures r.0 == s.Exec(Store(RDI, 0, RAX)).Exec(Move(RAX, RSP)).Exec(Add(RAX, 8))
    ensures r.1 == Run(r.0, SAVE_REGISTERS)
    ensures r.2 == r.1.Exec(Pushfq).Exec(Pop(RAX)).Exec(Store(RDI, 128, RAX))
    ensures r.3 == r.2.Exec(Load(RAX, RSP, 0)).Exec(Store(RDI, 136, RAX)).Exec(Push(RAX))
    ensures r.3 == Run(s, SAVE)
  {
    RunConcat(s, SAVE_RAX + SAVE_REGISTERS, SAVE_FLAGS + SAVE_RETURN);
    RunConcat(s, SAVE_RAX, SAVE_REGISTERS);
    SaveRaxCode(s);
    var a := Run(s, SAVE_RAX);
    var b := Run(a, SAVE_REGISTERS);
    RunConcat(b, SAVE_FLAGS, SAVE_RETURN);
    SaveFlagsCode(b);
    var c := Run(b, SAVE_FLAGS);
    SaveReturnCode(c);
    (a, b, c, Run(c, SAVE_RETURN))
  }

  lemma SwitchLoads(s: Cpu)
    requires Loadable(s)
    ensures Loaded(s, Run(s, SWITCH))
  {
    var (a, b, c, d) := SwitchStates(s);
    LoadRegistersLoadsAll();
    LoadRegisters(s, LOAD_REGISTERS);
    SwitchLoadsFrom(s, a, b, c, d);
  }

  lemma SwitchLoadsFrom(s: Cpu, a: Cpu, b: Cpu, c: Cpu, d: Cpu)
    requires Loadable(s) && RegistersLoaded(s, a)
    requires b == a.Exec(Load(RAX, RSI, 128)).Exec(Push(RAX)).Exec(Popfq)
    requires c == b.Exec(Load(RBP, RSI, 56)).Exec(Load(RSP, RSI, 48)).Exec(Load(RAX, RSI, 136)).Exec(Push(RAX))
    requires d == c.Exec(Load(RAX, RSI, 16)).Exec(Load(RSI, RSI, 32)).Exec(Ret)
    ensures Loaded(s, d)
  {
    FlagsLoadFrom(s, a, b);
    FlagsKeepArea(s, a, b);
    LoadStack(b, c);
    StackKeepsArea(s, b, c);
    Resume(c, d);
    LoadedTogether(s, a, b, c, d);
  }

  lemma FlagsLoadFrom(s: Cpu, a: Cpu, b: Cpu)
    requires Loadable(s) && RegistersLoaded(s, a)
    requires b == a.Exec(Load(RAX, RSI, 128)).Exec(Push(RAX)).Exec(Popfq)
    ensures FlagsLoaded(a, b)
  {
    assert a.Get(RSP) == s.Get(RSP) && a.Get(RSI) == s.Get(RSI);
    LoadFlags(a, b);
  }

  /** The states between the pieces of SWITCH. */
  ghost function SwitchStates(s: Cpu): (r: (Cpu, Cpu, Cpu, Cpu))
    ensures r.0 == Run(s, LOAD_REGISTERS)
    ensures r.1 == r.0.Exec(Load(RAX, RSI, 128)).Exec(Push(RAX)).Exec(Popfq)
    ensures r.2 == r.1.Exec(Load(RBP, RSI, 56)).Exec(Load(RSP, RSI, 48)).Exec(Load(RAX, RSI, 136)).Exec(Push(RAX))
    ensures r.3 == r.2.Exec(Load(RAX, RSI, 16)).Exec(Load(RSI, RSI, 32)).Exec(Ret)
    ensures r.3 == Run(s, SWITCH)
  {
    RunConcat(s, LOAD_REGISTERS + LOAD_FLAGS, LOAD_STACK + RESUME);
    RunConcat(s, LOAD_REGISTERS, LOAD_FLAGS);
    var a := Run(s, LOAD_REGISTERS);
    LoadFlagsCode(a);
    var b := Run(a, LOAD_FLAGS);
    RunConcat(b, LOAD_STACK, RESUME);
    LoadStackCode(b);
    var c := Run(b, LOAD_STACK);
    ResumeCode(c);
    (a, b, c, Run(c, RESUME))
  }

  lemma SavedLoadable(s: Cpu, m: Cpu)
    requires Separated(s) && Saved(s, m)
    ensures Loadable(m)
  {
    assert SameArea(s, m, s.Get(RSI));
  }

  lemma SwitchedTogether(s: Cpu, m: Cpu, t: Cpu)
    requires Separated(s) && Saved(s, m) && Loaded(m, t)
    ensures Switched(s, t)
  {
    SwitchedSaved(s, m, t);
    SwitchedResumed(s, m, t);
    SwitchedMemory(s, m, t);
  }

  lemma SwitchedSaved(s: Cpu, m: Cpu, t: Cpu)
    requires Separated(s) && Saved(s, m) && Loaded(m, t)
    ensures SavedAt(s, t, s.Get(RDI))
  {
    assert m.Read(s.Get(RSI) + Field(RSP)) == s.Read(s.Get(RSI) + Field(RSP));
    assert SameArea(m, t, s.Get(RDI));
  }

  lemma SwitchedResumed(s: Cpu, m: Cpu, t: Cpu)
    requires Separated(s) && Saved(s, m) && Loaded(m, t)
    ensures ResumedFrom(s, t, s.Get(RSI))
  {
    assert SameArea(s, m, s.Get(RSI));
  }

  lemma SwitchedMemory(s: Cpu, m: Cpu, t: Cpu)
    requires Saved(s, m) && Loaded(m, t) && Separated(s)
    ensures forall a ::
              Outside(a, s.Get(RDI), SAVED_SIZE) && Outside(a, s.Get(RSP) - 16, 16) && Outside(a, t.Get(RSP) - 8, 8)
              ==> t.Read(a) == s.Read(a)
  {
  }
}
