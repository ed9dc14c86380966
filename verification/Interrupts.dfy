/**
  The interrupt stubs of kernel/interrupts/interrupt.asm, from the moment the
  processor delivers an interrupt to the `iretq`, with handlers that are
  themselves interrupted any number of times and to any depth.
*/
module Interrupts {
  import opened FlagBits
  import opened Machine

  // ---------- the code ----------

  const PUSHAD: seq<Instr> := [
    Push(RAX), Push(RCX), Push(RDX), Push(RDI), Push(RSI), Push(R8), Push(R9), Push(R10), Push(R11)]

  const POPAD: seq<Instr> := [Pop(R11), Pop(R10), Pop(R9), Pop(R8), Pop(RSI), Pop(RDI), Pop(RDX), Pop(RCX), Pop(RAX)]

  /** The vectors whose stub expects an error code from the processor. */
  predicate HasErrorStub(vector: nat) {
    vector == 8 || 10 <= vector <= 14 || vector == 17 || vector == 30
  }

  /** The stub of a vector: exceptions below 32, device interrupts from 32 on. */
  function Stub(vector: nat): seq<Instr> {
    if vector >= 32 then [Cli, PushImmediate(0), PushImmediate(vector)]
    else if HasErrorStub(vector) then [PushImmediate(vector)]
    else [PushImmediate(0), PushImmediate(vector)]
  }

  /** The handler gets the address of what was pushed so far. */
  function CallHandler(returnAddress: int): seq<Instr> {
    [Cld, Lea(RDI, RSP), Call(returnAddress)]
  }

  /** The vectors for which the stub is right if the processor pushes an error code, and only then. */
  predicate Expected(vector: nat) { vector in {8, 10, 11, 12, 13, 14, 17, 30} }

  // ---------- delivery ----------

  function AlignDown(a: int): int { a - a % 16 }

  /** Interrupt gates clear the trap, interrupt, nested-task, resume and virtual-8086 flags. */
  function GateFlags(flags: int): int {
    var f1 := WithFlag(flags, 0x100, false);
    var f2 := WithFlag(f1, 0x200, false);
    var f3 := WithFlag(f2, 0x4000, false);
    var f4 := WithFlag(f3, 0x1_0000, false);
    WithFlag(f4, 0x2_0000, false)
  }

  /** The processor aligns the stack and pushes ss, rsp, rflags, cs, rip and
      for some exceptions an error code, as sections 6.12.1 and 6.14 of the
      Intel SDM, Volume 3A, describe it. */
  function Deliver(s: Cpu, pushesError: bool, error: int): Cpu {
    var framed := s.Set(RSP, AlignDown(s.Get(RSP))).PushWord(s.ss).PushWord(s.Get(RSP)).PushWord(s.flags)
        .PushWord(s.cs).PushWord(s.rip);
    (if pushesError then framed.PushWord(error) else framed).(flags := GateFlags(s.flags))
  }

  /** The state in which the handler starts. */
  function Entered(s: Cpu, vector: nat, pushesError: bool, error: int, returnAddress: int): Cpu {
    Run(Run(Run(Deliver(s, pushesError, error), Stub(vector)), PUSHAD), CallHandler(returnAddress))
  }

  /** The state at the `iretq`, once the handler returned and the interrupt number and error code were dropped. */
  function AtIretq(h: Cpu): Cpu { Run(h.Exec(Ret), POPAD).Exec(Add(RSP, 0x10)) }

  function Left(h: Cpu): Cpu { AtIretq(h).Exec(Iretq) }

  /** Room below the stack pointer for what the processor and the stub push. */
  const ROOM: int := 160

  // ---------- the saved area ----------

  /** Caller-saved registers, in the order in which they are pushed. */
  function PushIndex(r: Reg): nat {
    match r
    case RAX => 0 case RCX => 1 case RDX => 2 case RDI => 3 case RSI => 4
    case R8 => 5 case R9 => 6 case R10 => 7 case R11 => 8
    case _ => 9
  }

  predicate CallerSaved(r: Reg) { PushIndex(r) < 9 }

  function PushedAt(k: nat): (r: Reg)
    requires k < 9
    ensures PushIndex(r) == k && r != RSP
  {
    match k
    case 0 => RAX case 1 => RCX case 2 => RDX case 3 => RDI case 4 => RSI
    case 5 => R8 case 6 => R9 case 7 => R10 case _ => R11
  }

  lemma PushedAtIndex(r: Reg)
    requires CallerSaved(r)
    ensures PushedAt(PushIndex(r)) == r
  {
  }

  /** Registers in the order of `struct InterruptFrame`, whose first field is r11. */
  function FrameField(r: Reg): int
  {
    8 * (8 - PushIndex(r))
  }

  /** At `f` the handler finds the interrupted registers, the vector and the
      error code as `struct InterruptFrame` names them; after them come rip,
      cs, rflags, rsp and ss. */
  ghost predicate FrameHolds(s: Cpu, e: Cpu, f: int, vector: nat, error: int) {
    && (forall r :: CallerSaved(r) ==> e.Read(f + FrameField(r)) == s.Get(r))
    && e.Read(f + 72) == vector && e.Read(f + 80) == error
    && e.Read(f + 88) == s.rip && e.Read(f + 96) == s.cs && e.Read(f + 104) == s.flags
    && e.Read(f + 112) == s.Get(RSP) && e.Read(f + 120) == s.ss
  }

  // ---------- what the pieces of code do ----------

  ghost predicate Delivered(s: Cpu, d: Cpu, pushesError: bool, error: int) {
    var top := AlignDown(s.Get(RSP));
    && d.Get(RSP) == top - 40 - (if pushesError then 8 else 0)
    && (forall r :: r != RSP ==> d.Get(r) == s.Get(r))
    && (pushesError ==> d.Read(top - 48) == error)
    && d.Read(top - 40) == s.rip && d.Read(top - 32) == s.cs && d.Read(top - 24) == s.flags
    && d.Read(top - 16) == s.Get(RSP) && d.Read(top - 8) == s.ss
    && (forall a :: Outside(a, d.Get(RSP), top - d.Get(RSP)) ==> d.Read(a) == s.Read(a))
  }

  lemma DeliverDelivers(s: Cpu, pushesError: bool, error: int)
    requires ROOM <= s.Get(RSP) < WORDS
    ensures Delivered(s, Deliver(s, pushesError, error), pushesError, error)
  {
  }

  /** Words that the stub adds to what the processor pushed. */
  function StubWords(vector: nat): nat { if vector < 32 && HasErrorStub(vector) then 1 else 2 }

  ghost predicate Stubbed(d: Cpu, t: Cpu, vector: nat) {
    var n := StubWords(vector);
    && t.Get(RSP) == d.Get(RSP) - 8 * n
    && (forall r :: r != RSP ==> t.Get(r) == d.Get(r))
    && t.Read(t.Get(RSP)) == vector
    && (n == 2 ==> t.Read(t.Get(RSP) + 8) == 0)
    && (forall a :: Outside(a, t.Get(RSP), 8 * n) ==> t.Read(a) == d.Read(a))
  }

  lemma StubStubs(d: Cpu, vector: nat)
    requires 16 <= d.Get(RSP) < WORDS
    ensures Stubbed(d, Run(d, Stub(vector)), vector)
  {
    if vector >= 32 {
      assert Stub(vector) == [Cli] + [PushImmediate(0), PushImmediate(vector)];
      RunConcat(d, [Cli], [PushImmediate(0), PushImmediate(vector)]);
      Run1(d, Cli);
      Run2(d.Exec(Cli), PushImmediate(0), PushImmediate(vector));
    } else if HasErrorStub(vector) {
      Run1(d, PushImmediate(vector));
    } else {
      Run2(d, PushImmediate(0), PushImmediate(vector));
    }
  }

  /** The nine registers are pushed, and popped, in the frame's order. */
  ghost predicate PushesFrame(code: seq<Instr>) {
    |code| == 9 && forall k :: 0 <= k < 9 ==> code[k] == Push(PushedAt(k))
  }

  ghost predicate PopsFrame(code: seq<Instr>) {
    |code| == 9 && forall k :: 0 <= k < 9 ==> code[k] == Pop(PushedAt(8 - k))
  }

  lemma PushadPushesFrame()
    ensures PushesFrame(PUSHAD)
  {
  }

  lemma PopadPopsFrame()
    ensures PopsFrame(POPAD)
  {
  }

  ghost predicate RegistersPushed(s: Cpu, t: Cpu) {
    && PushedBelow(s, t, 9)
    && (forall r :: CallerSaved(r) ==> t.Read(t.Get(RSP) + FrameField(r)) == s.Get(r))
  }

  lemma PushadPushes(s: Cpu, code: seq<Instr>)
    requires 72 <= s.Get(RSP) < WORDS && PushesFrame(code)
    ensures RegistersPushed(s, Run(s, code))
  {
    RunPushes(s, code);
    var t := Run(s, code);
    forall r | CallerSaved(r)
      ensures t.Read(t.Get(RSP) + FrameField(r)) == s.Get(r)
    {
      PushedAtIndex(r);
      assert t.Read(s.Get(RSP) - 8 * (PushIndex(r) + 1)) == s.Get(code[PushIndex(r)].src);
    }
  }

  ghost predicate HandlerCalled(s: Cpu, t: Cpu) {
    && t.Get(RSP) == s.Get(RSP) - 8 && t.Get(RDI) == s.Get(RSP)
    && (forall r :: r != RSP && r != RDI ==> t.Get(r) == s.Get(r))
    && t.cs == s.cs && t.ss == s.ss
    && (forall a :: Outside(a, t.Get(RSP), 8) ==> t.Read(a) == s.Read(a))
  }

  lemma HandlerCalls(s: Cpu, t: Cpu, returnAddress: int)
    requires 8 <= s.Get(RSP) < WORDS && t == s.Exec(Cld).Exec(Lea(RDI, RSP)).Exec(Call(returnAddress))
    ensures HandlerCalled(s, t)
  {
  }

  lemma CallHandlerCalls(s: Cpu, returnAddress: int)
    requires 8 <= s.Get(RSP) < WORDS
    ensures HandlerCalled(s, Run(s, CallHandler(returnAddress)))
  {
    RunConcat(s, [Cld], [Lea(RDI, RSP), Call(returnAddress)]);
    assert CallHandler(returnAddress) == [Cld] + [Lea(RDI, RSP), Call(returnAddress)];
    Run1(s, Cld);
    Run2(s.Exec(Cld), Lea(RDI, RSP), Call(returnAddress));
    HandlerCalls(s, Run(s, CallHandler(returnAddress)), returnAddress);
  }

  /** The handler's entry: it gets the frame's address in rdi, and has its return address below the frame. */
  ghost predicate HandlerEntry(s: Cpu, e: Cpu, f: int) {
    && e.Get(RDI) == f && e.Get(RSP) == f - 8
    && (forall r :: r != RSP && r != RDI ==> e.Get(r) == s.Get(r))
    && (forall a :: Outside(a, e.Get(RSP), AlignDown(s.Get(RSP)) - e.Get(RSP)) ==> e.Read(a) == s.Read(a))
  }

  function FrameAddress(s: Cpu, vector: nat, pushesError: bool): int {
    AlignDown(s.Get(RSP)) - 112 - (if pushesError then 8 else 0) - 8 * StubWords(vector)
  }

  lemma EnteredEnters(s: Cpu, vector: nat, pushesError: bool, error: int, returnAddress: int)
    requires ROOM <= s.Get(RSP) < WORDS
    ensures HandlerEntry(s, Entered(s, vector, pushesError, error, returnAddress), FrameAddress(s, vector, pushesError))
    ensures (pushesError <==> Expected(vector)) ==>
              FrameHolds(s, Entered(s, vector, pushesError, error, returnAddress), FrameAddress(s, vector, pushesError),
                         vector, if pushesError then error else 0)
  {
    var d := Deliver(s, pushesError, error);
    DeliverDelivers(s, pushesError, error);
    var t := Run(d, Stub(vector));
    StubStubs(d, vector);
    PushadPushesFrame();
    var p := Run(t, PUSHAD);
    PushadPushes(t, PUSHAD);
    CallHandlerCalls(p, returnAddress);
    EntryTogether(s, d, t, p, Entered(s, vector, pushesError, error, returnAddress), vector, pushesError, error);
  }

  // ---------- what the handler finds, field by field ----------

  lemma StubFlags(d: Cpu, vector: nat)
    ensures Run(d, Stub(vector)).flags == if vector >= 32 then WithFlag(d.flags, 0x200, false) else d.flags
  {
    if vector >= 32 {
      Run3(d, Cli, PushImmediate(0), PushImmediate(vector));
    } else if HasErrorStub(vector) {
      Run1(d, PushImmediate(vector));
    } else {
      Run2(d, PushImmediate(0), PushImmediate(vector));
    }
  }

  lemma CallHandlerFlags(s: Cpu, returnAddress: int)
    ensures Run(s, CallHandler(returnAddress)).flags == WithFlag(s.flags, 0x400, false)
    ensures Run(s, CallHandler(returnAddress)).Read(Wrap(s.Get(RSP) - 8)) == returnAddress
  {
    Run3(s, Cld, Lea(RDI, RSP), Call(returnAddress));
  }

  /** The six flags are clear, and all other bits are as they were. */
  ghost predicate HandlerFlags(before: int, after: int) {
    && after / 0x100 % 2 == 0 && after / 0x200 % 2 == 0 && after / 0x400 % 2 == 0
    && after / 0x4000 % 2 == 0 && after / 0x1_0000 % 2 == 0 && after / 0x2_0000 % 2 == 0
    && forall k: nat :: k !in {8, 9, 10, 14, 16, 17} ==> (BitAt(after, k) <==> BitAt(before, k))
  }

  lemma GateWeights()
    ensures Weight(8) == 0x100 && Weight(14) == 0x4000 && Weight(16) == 0x1_0000 && Weight(17) == 0x2_0000
  {
    Weights();
    assert Weight(12) == 2 * Weight(11) && Weight(13) == 2 * Weight(12) && Weight(14) == 2 * Weight(13);
    assert Weight(15) == 2 * Weight(14) && Weight(16) == 2 * Weight(15) && Weight(17) == 2 * Weight(16);
  }

  lemma FlagsMasked(f: int, f1: int, f2: int, f3: int, f4: int, f5: int, f6: int, f7: int)
    requires OneBit(f, f1, 8, false) && OneBit(f1, f2, 9, false) && OneBit(f2, f3, 14, false)
    requires OneBit(f3, f4, 16, false) && OneBit(f4, f5, 17, false)
    requires (f6 == f5 || OneBit(f5, f6, 9, false)) && OneBit(f6, f7, 10, false)
    ensures HandlerFlags(f, f7)
  {
    Weights();
    GateWeights();
    assert !BitAt(f7, 8) && !BitAt(f7, 9) && !BitAt(f7, 10) && !BitAt(f7, 14) && !BitAt(f7, 16) && !BitAt(f7, 17);
  }

  /** Handlers start with interrupts off and strings going up. */
  lemma HandlerFlagsAre(f: int, device: bool, f6: int)
    requires f6 == if device then WithFlag(GateFlags(f), 0x200, false) else GateFlags(f)
    ensures HandlerFlags(f, WithFlag(f6, 0x400, false))
  {
    Weights();
    GateWeights();
    var f1 := WithFlag(f, 0x100, false);
    var f2 := WithFlag(f1, 0x200, false);
    var f3 := WithFlag(f2, 0x4000, false);
    var f4 := WithFlag(f3, 0x1_0000, false);
    var f5 := WithFlag(f4, 0x2_0000, false);
    WithFlagIsOneBit(f, f1, 0x100, 8, false);
    WithFlagIsOneBit(f1, f2, 0x200, 9, false);
    WithFlagIsOneBit(f2, f3, 0x4000, 14, false);
    WithFlagIsOneBit(f3, f4, 0x1_0000, 16, false);
    WithFlagIsOneBit(f4, f5, 0x2_0000, 17, false);
    if device { WithFlagIsOneBit(f5, f6, 0x200, 9, false); }
    WithFlagIsOneBit(f6, WithFlag(f6, 0x400, false), 0x400, 10, false);
    FlagsMasked(f, f1, f2, f3, f4, f5, f6, WithFlag(f6, 0x400, false));
  }

  lemma EntryTogether(s: Cpu, d: Cpu, t: Cpu, p: Cpu, e: Cpu, vector: nat, pushesError: bool, error: int)
    requires ROOM <= s.Get(RSP) < WORDS
    requires Delivered(s, d, pushesError, error) && Stubbed(d, t, vector) && RegistersPushed(t, p)
    requires HandlerCalled(p, e)
    ensures HandlerEntry(s, e, FrameAddress(s, vector, pushesError))
    ensures (pushesError <==> Expected(vector)) ==>
              FrameHolds(s, e, FrameAddress(s, vector, pushesError), vector, if pushesError then error else 0)
  {
    EntryState(s, d, t, p, e, vector, pushesError, error);
    if pushesError <==> Expected(vector) {
      EntryFrame(s, d, t, p, e, vector, pushesError, error);
    }
  }

  lemma EntryState(s: Cpu, d: Cpu, t: Cpu, p: Cpu, e: Cpu, vector: nat, pushesError: bool, error: int)
    requires Delivered(s, d, pushesError, error) && Stubbed(d, t, vector) && RegistersPushed(t, p)
    requires HandlerCalled(p, e)
    ensures HandlerEntry(s, e, FrameAddress(s, vector, pushesError))
  {
  }

  lemma EntryFrame(s: Cpu, d: Cpu, t: Cpu, p: Cpu, e: Cpu, vector: nat, pushesError: bool, error: int)
    requires pushesError <==> Expected(vector)
    requires Delivered(s, d, pushesError, error) && Stubbed(d, t, vector) && RegistersPushed(t, p)
    requires HandlerCalled(p, e)
    ensures FrameHolds(s, e, FrameAddress(s, vector, pushesError), vector, if pushesError then error else 0)
  {
    var f := FrameAddress(s, vector, pushesError);
    assert p.Get(RSP) == f && t.Get(RSP) == f + 72;
  }

  /** `struct InterruptFrame` at `f`, in its order, and the processor's frame behind it. */
  ghost predicate FrameInOrder(s: Cpu, e: Cpu, f: int, vector: nat, error: int) {
    && e.Read(f) == s.Get(R11) && e.Read(f + 8) == s.Get(R10) && e.Read(f + 16) == s.Get(R9)
    && e.Read(f + 24) == s.Get(R8) && e.Read(f + 32) == s.Get(RSI) && e.Read(f + 40) == s.Get(RDI)
    && e.Read(f + 48) == s.Get(RDX) && e.Read(f + 56) == s.Get(RCX) && e.Read(f + 64) == s.Get(RAX)
    && e.Read(f + 72) == vector && e.Read(f + 80) == error
    && e.Read(f + 88) == s.rip && e.Read(f + 96) == s.cs && e.Read(f + 104) == s.flags
    && e.Read(f + 112) == s.Get(RSP) && e.Read(f + 120) == s.ss
  }

  lemma FrameHasOrder(s: Cpu, e: Cpu, f: int, vector: nat, error: int)
    requires FrameHolds(s, e, f, vector, error)
    ensures FrameInOrder(s, e, f, vector, error)
  {
    assert CallerSaved(R11) && CallerSaved(R10) && CallerSaved(R9) && CallerSaved(R8) && CallerSaved(RSI);
    assert CallerSaved(RDI) && CallerSaved(RDX) && CallerSaved(RCX) && CallerSaved(RAX);
  }

  /** A handler's first state: the frame at an aligned address that is in rdi,
      the return address below it, and the flags as the gate and `cld` leave them. */
  ghost predicate HandlerStarts(s: Cpu, e: Cpu, vector: nat, error: int, returnAddress: int) {
    var f := s.Get(RSP) - s.Get(RSP) % 16 - 128;
    && FrameInOrder(s, e, f, vector, error) && e.Get(RDI) == f && e.Get(RSP) == f - 8
    && e.Read(f - 8) == returnAddress && HandlerFlags(s.flags, e.flags)
  }

  /** The flags from the delivery to the handler's entry. */
  lemma EntryFlags(d: Cpu, t: Cpu, p: Cpu, e: Cpu, vector: nat, returnAddress: int)
    requires t == Run(d, Stub(vector)) && RegistersPushed(t, p) && e == Run(p, CallHandler(returnAddress))
    requires 8 <= p.Get(RSP) < WORDS
    ensures e.flags == WithFlag(if vector >= 32 then WithFlag(d.flags, 0x200, false) else d.flags, 0x400, false)
    ensures e.Read(p.Get(RSP) - 8) == returnAddress
  {
    StubFlags(d, vector);
    CallHandlerFlags(p, returnAddress);
  }

  /** The states between the pieces of the way in. */
  lemma EntryStates(s: Cpu, vector: nat, pushesError: bool, error: int, returnAddress: int)
    returns (d: Cpu, t: Cpu, p: Cpu, e: Cpu)
    requires ROOM <= s.Get(RSP) < WORDS
    ensures d.flags == GateFlags(s.flags) && t == Run(d, Stub(vector)) && RegistersPushed(t, p)
    ensures 8 <= p.Get(RSP) < WORDS && e == Run(p, CallHandler(returnAddress)) && HandlerCalled(p, e)
    ensures e == Entered(s, vector, pushesError, error, returnAddress)
  {
    d := Deliver(s, pushesError, error);
    DeliverDelivers(s, pushesError, error);
    t := Run(d, Stub(vector));
    StubStubs(d, vector);
    PushadPushesFrame();
    p := Run(t, PUSHAD);
    PushadPushes(t, PUSHAD);
    CallHandlerCalls(p, returnAddress);
    e := Run(p, CallHandler(returnAddress));
  }

  /** What the flags are, and where the return address is. */
  ghost predicate MaskedAt(f: int, vector: nat, e: Cpu, returnAddress: int) {
    && e.flags == WithFlag(if vector >= 32 then WithFlag(GateFlags(f), 0x200, false) else GateFlags(f), 0x400, false)
    && e.Read(e.Get(RSP)) == returnAddress
  }

  lemma EnteredFlags(s: Cpu, vector: nat, pushesError: bool, error: int, returnAddress: int)
    requires ROOM <= s.Get(RSP) < WORDS
    ensures MaskedAt(s.flags, vector, Entered(s, vector, pushesError, error, returnAddress), returnAddress)
  {
    var d, t, p, e := EntryStates(s, vector, pushesError, error, returnAddress);
    EntryFlags(d, t, p, e, vector, returnAddress);
  }

  /** With a processor that pushes error codes as table 6-1 of the Intel SDM,
      Volume 3A, says, and for vectors 29 and 30 as AMD's manual does: for
      every vector but 21 and 29 the handler finds its frame. */
  lemma EveryVectorEnters(s: Cpu, vector: nat, pushesError: bool, error: int, returnAddress: int)
    requires 160 <= s.Get(RSP) < WORDS && vector != 21 && vector != 29
    requires pushesError <==> vector in {8, 10, 11, 12, 13, 14, 17, 21, 29, 30}
    ensures HandlerStarts(s, Entered(s, vector, pushesError, error, returnAddress), vector,
                          if vector in {8, 10, 11, 12, 13, 14, 17, 30} then error else 0, returnAddress)
  {
    var e := Entered(s, vector, pushesError, error, returnAddress);
    EnteredEnters(s, vector, pushesError, error, returnAddress);
    EnteredFlags(s, vector, pushesError, error, returnAddress);
    HandlerFlagsAre(s.flags, vector >= 32,
                    if vector >= 32 then WithFlag(GateFlags(s.flags), 0x200, false) else GateFlags(s.flags));
    FrameHasOrder(s, e, FrameAddress(s, vector, pushesError), vector, if pushesError then error else 0);
  }

  // ---------- the way back ----------

  /** What the code after the handler's return does to a handler's last state with the frame at `f`. */
  ghost predicate FramePopped(h: Cpu, t: Cpu, f: int) {
    && t.Get(RSP) == f + 88
    && (forall r :: CallerSaved(r) ==> t.Get(r) == h.Read(f + FrameField(r)))
    && (forall r :: r != RSP && !CallerSaved(r) ==> t.Get(r) == h.Get(r))
    && (forall a :: t.Read(a) == h.Read(a))
  }

  lemma PopadPops(h: Cpu, code: seq<Instr>, f: int)
    requires PopsFrame(code) && h.Get(RSP) == f - 8 && 8 <= f < WORDS - 88
    ensures FramePopped(h, Run(h.Exec(Ret), code).Exec(Add(RSP, 0x10)), f)
  {
    RetReturns(h);
    PopsPop(h.Exec(Ret), code, f);
    AddDrops(Run(h.Exec(Ret), code));
  }

  lemma RetReturns(h: Cpu)
    requires 0 <= h.Get(RSP) < WORDS - 8
    ensures var g := h.Exec(Ret);
            && g.Get(RSP) == h.Get(RSP) + 8 && (forall r :: r != RSP ==> g.Get(r) == h.Get(r))
            && (forall a :: g.Read(a) == h.Read(a))
  {
  }

  lemma PopsPop(g: Cpu, code: seq<Instr>, f: int)
    requires PopsFrame(code) && g.Get(RSP) == f && 0 <= f < WORDS - 88
    ensures var t := Run(g, code);
            && t.Get(RSP) == f + 72
            && (forall r :: CallerSaved(r) ==> t.Get(r) == g.Read(f + FrameField(r)))
            && (forall r :: r != RSP && !CallerSaved(r) ==> t.Get(r) == g.Get(r))
            && (forall a :: t.Read(a) == g.Read(a))
  {
    assert Pops(code) by {
      forall j, k | 0 <= j < k < |code| ensures code[j].dst != code[k].dst {
        assert PushIndex(code[j].dst) == 8 - j && PushIndex(code[k].dst) == 8 - k;
      }
    }
    RunPops(g, code);
    var t := Run(g, code);
    forall r | CallerSaved(r)
      ensures t.Get(r) == g.Read(f + FrameField(r))
    {
      PushedAtIndex(r);
      assert t.Get(code[8 - PushIndex(r)].dst) == g.Read(f + 8 * (8 - PushIndex(r)));
    }
    forall r | r != RSP && !CallerSaved(r)
      ensures t.Get(r) == g.Get(r)
    {
      assert forall k :: 0 <= k < |code| ==> CallerSaved(code[k].dst);
    }
  }

  lemma AddDrops(t: Cpu)
    requires 0 <= t.Get(RSP) < WORDS - 16
    ensures var u := t.Exec(Add(RSP, 0x10));
            && u.Get(RSP) == t.Get(RSP) + 16 && (forall r :: r != RSP ==> u.Get(r) == t.Get(r))
            && (forall a :: u.Read(a) == t.Read(a))
  {
  }

  /** The stack that is interrupted, from `low` up to `top`, and the words
      elsewhere that no handler changes. Handlers may write all other memory. */
  datatype Guard = Guard(low: int, top: int, kept: int -> bool) {
    ghost predicate Valid() {
      0 <= low <= top < WORDS && forall a :: kept(a) ==> Outside(a, low, top - low)
    }
  }

  /** The stack from `bound` up to its top, and the words elsewhere, read the same. */
  ghost predicate Kept(s: Cpu, t: Cpu, bound: int, g: Guard) {
    && (forall a :: bound <= a && a + 8 <= g.top ==> t.Read(a) == s.Read(a))
    && (forall a :: g.kept(a) ==> t.Read(a) == s.Read(a))
  }

  /** All registers, the flags, the instruction pointer and the selectors are
      back, and so is the stack from the interrupted stack pointer up. */
  ghost predicate Restored(s: Cpu, t: Cpu, g: Guard) {
    && (forall r :: t.Get(r) == s.Get(r))
    && t.flags == s.flags && t.rip == s.rip && t.cs == s.cs && t.ss == s.ss
    && Kept(s, t, AlignDown(s.Get(RSP)), g)
  }

  predicate CalleeSaved(r: Reg) { r in {RBX, RBP, R12, R13, R14, R15} }

  /** A handler that follows the calling convention (section 3.2.1 of the
      System V AMD64 ABI): it ends with the stack pointer and the callee-saved
      registers that it started with, and leaves its caller's stack alone. */
  ghost predicate HandlerKeeps(e: Cpu, h: Cpu, g: Guard) {
    && h.Get(RSP) == e.Get(RSP)
    && (forall r :: CalleeSaved(r) ==> h.Get(r) == e.Get(r))
    && Kept(e, h, e.Get(RSP), g)
  }

  /** There is room on the stack for what the processor and the stub push. */
  ghost predicate HasRoom(s: Cpu, g: Guard) {
    g.Valid() && g.low + 160 <= s.Get(RSP) <= g.top
  }

  lemma LeftRestores(s: Cpu, e: Cpu, h: Cpu, f: int, vector: nat, error: int, g: Guard)
    requires HasRoom(s, g) && f == AlignDown(s.Get(RSP)) - 128
    requires HandlerEntry(s, e, f) && FrameHolds(s, e, f, vector, error) && HandlerKeeps(e, h, g)
    ensures Restored(s, Left(h), g)
  {
    PopadPopsFrame();
    PopadPops(h, POPAD, f);
    IretqRestores(s, e, h, f, vector, error, AtIretq(h), g);
  }

  lemma IretqRestores(s: Cpu, e: Cpu, h: Cpu, f: int, vector: nat, error: int, t: Cpu, g: Guard)
    requires HasRoom(s, g) && f == AlignDown(s.Get(RSP)) - 128
    requires HandlerEntry(s, e, f) && FrameHolds(s, e, f, vector, error) && HandlerKeeps(e, h, g)
    requires FramePopped(h, t, f)
    ensures Restored(s, t.Exec(Iretq), g)
  {
    var u := t.Exec(Iretq);
    forall r
      ensures u.Get(r) == s.Get(r)
    {
      if r != RSP && !CallerSaved(r) { assert CalleeSaved(r); }
    }
  }

  /** The stack pointer before the `iretq`. */
  lemma ReturnPointer(s: Cpu, vector: nat, pushesError: bool, error: int, returnAddress: int, h: Cpu)
    requires ROOM <= s.Get(RSP) < WORDS && h.Get(RSP) == Entered(s, vector, pushesError, error, returnAddress).Get(RSP)
    ensures AtIretq(h).Get(RSP) == FrameAddress(s, vector, pushesError) + 88
  {
    EnteredEnters(s, vector, pushesError, error, returnAddress);
    PopadPopsFrame();
    PopadPops(h, POPAD, FrameAddress(s, vector, pushesError));
  }

  lemma FrameAddressIs(s: Cpu, vector: nat, pushesError: bool)
    ensures FrameAddress(s, vector, pushesError)
            == AlignDown(s.Get(RSP)) - 128 - (if pushesError then 8 else 0) + (if Expected(vector) then 8 else 0)
  {
  }

  /** Before the `iretq` the stack pointer is where the processor put the
      return frame exactly if the stub matches what the processor pushed. */
  lemma ReturnFrameFoundIff(s: Cpu, vector: nat, pushesError: bool, error: int, returnAddress: int, h: Cpu)
    requires ROOM <= s.Get(RSP) < WORDS && h.Get(RSP) == Entered(s, vector, pushesError, error, returnAddress).Get(RSP)
    ensures AtIretq(h).Get(RSP) == AlignDown(s.Get(RSP)) - 40 <==> (pushesError <==> Expected(vector))
  {
    ReturnPointer(s, vector, pushesError, error, returnAddress, h);
    FrameAddressIs(s, vector, pushesError);
  }

  /** With a processor that pushes error codes as the tables say, for every
      vector, the return frame is missed exactly for 21 and 29, and then by the
      word that was pushed too many. */
  lemma EveryVectorReturns(s: Cpu, vector: nat, pushesError: bool, error: int, returnAddress: int, h: Cpu)
    requires ROOM <= s.Get(RSP) < WORDS && h.Get(RSP) == Entered(s, vector, pushesError, error, returnAddress).Get(RSP)
    requires pushesError <==> vector in {8, 10, 11, 12, 13, 14, 17, 21, 29, 30}
    ensures AtIretq(h).Get(RSP)
            == s.Get(RSP) - s.Get(RSP) % 16 - (if vector == 21 || vector == 29 then 48 else 40)
  {
    ReturnPointer(s, vector, pushesError, error, returnAddress, h);
    FrameAddressIs(s, vector, pushesError);
  }

  // ---------- the processor executing it ----------

  /** From the delivery to the handler's first instruction. */
  method EnterHandler(p: Processor, vector: nat, pushesError: bool, error: int, returnAddress: int)
    requires ROOM <= p.cpu.Get(RSP) < WORDS
    modifies p
    ensures HandlerEntry(old(p.cpu), p.cpu, FrameAddress(old(p.cpu), vector, pushesError))
    ensures (pushesError <==> Expected(vector)) ==>
              FrameHolds(old(p.cpu), p.cpu, FrameAddress(old(p.cpu), vector, pushesError), vector,
                         if pushesError then error else 0)
    ensures vector != 21 && vector != 29 && (pushesError <==> vector in {8, 10, 11, 12, 13, 14, 17, 21, 29, 30}) ==>
              HandlerStarts(old(p.cpu), p.cpu, vector, if pushesError then error else 0, returnAddress)
  {
    EnteredEnters(p.cpu, vector, pushesError, error, returnAddress);
    if vector != 21 && vector != 29 && (pushesError <==> vector in {8, 10, 11, 12, 13, 14, 17, 21, 29, 30}) {
      EveryVectorEnters(p.cpu, vector, pushesError, error, returnAddress);
    }
    p.cpu := Deliver(p.cpu, pushesError, error);
    p.Execute(Stub(vector));
    p.Execute(PUSHAD);
    p.Execute(CallHandler(returnAddress));
  }

  /** From the handler's return to the interrupted code, which was in state `s`. */
  method LeaveHandler(p: Processor, ghost s: Cpu, ghost e: Cpu, ghost vector: nat, ghost error: int, ghost g: Guard)
    requires HasRoom(s, g) && HandlerEntry(s, e, AlignDown(s.Get(RSP)) - 128)
    requires FrameHolds(s, e, AlignDown(s.Get(RSP)) - 128, vector, error) && HandlerKeeps(e, p.cpu, g)
    modifies p
    ensures Restored(s, p.cpu, g)
  {
    LeftRestores(s, e, p.cpu, AlignDown(s.Get(RSP)) - 128, vector, error, g);
    p.cpu := p.cpu.Exec(Ret);
    p.Execute(POPAD);
    p.cpu := p.cpu.Exec(Add(RSP, 0x10));
    p.cpu := p.cpu.Exec(Iretq);
  }

  // ---------- nested interrupts ----------

  /** One interrupt: what the processor delivers, what the handler does, and
      the state in which the handler is about to return. */
  datatype Episode = Episode(vector: nat, pushesError: bool, error: int, returnAddress: int, body: Events, back: Cpu)

  /** What happens while a handler runs: it computes, or is interrupted itself. */
  datatype Events =
    | Done
    | Work(after: Cpu, rest: Events)
    | Interrupt(episode: Episode, rest: Events)

  /** The handler, entered in `s`, does `events` and ends in `end`; until then
      it may use all registers, its stack below `limit`, and all memory that the guard does not name. */
  ghost predicate HandlerRuns(s: Cpu, events: Events, end: Cpu, limit: int, g: Guard)
    decreases events
  {
    match events
    case Done => end == s
    case Work(after, rest) =>
      after.Get(RSP) <= limit && Kept(s, after, limit, g) && HandlerRuns(after, rest, end, limit, g)
    case Interrupt(episode, rest) =>
      Happens(s, episode, g) && HandlerRuns(Left(episode.back), rest, end, limit, g)
  }

  /** The episode can happen in state `s`, to handlers that follow the calling convention and never run out of stack. */
  ghost predicate Happens(s: Cpu, p: Episode, g: Guard)
    decreases p
  {
    var e := Entered(s, p.vector, p.pushesError, p.error, p.returnAddress);
    && HasRoom(s, g)
    && (p.pushesError <==> Expected(p.vector))
    && HandlerRuns(e, p.body, p.back, e.Get(RSP), g)
    && p.back.Get(RSP) == e.Get(RSP) && (forall r :: CalleeSaved(r) ==> p.back.Get(r) == e.Get(r))
  }

  lemma KeptAfter(s: Cpu, t: Cpu, u: Cpu, limit: int, g: Guard)
    requires s.Get(RSP) <= limit && Restored(s, t, g) && Kept(t, u, limit, g)
    ensures Kept(s, u, limit, g)
  {
    assert AlignDown(s.Get(RSP)) <= limit;
  }

  /** Whatever interrupts a handler, its caller's stack is kept. */
  lemma {:induction false} HandlerKeepsStack(s: Cpu, events: Events, end: Cpu, limit: int, g: Guard)
    requires HandlerRuns(s, events, end, limit, g) && s.Get(RSP) <= limit
    ensures Kept(s, end, limit, g)
    decreases events
  {
    match events
    case Done =>
    case Work(after, rest) =>
      HandlerKeepsStack(after, rest, end, limit, g);
    case Interrupt(episode, rest) =>
      var t := Left(episode.back);
      InterruptIsTransparent(s, episode, g);
      HandlerKeepsStack(t, rest, end, limit, g);
      KeptAfter(s, t, end, limit, g);
  }

  /** For every interrupted state and every well-bracketed nesting, the
      interrupted code finds everything as it was: handlers may write any
      memory but the interrupted stack and what the guard names. */
  lemma {:induction false} InterruptIsTransparent(s: Cpu, p: Episode, g: Guard)
    requires Happens(s, p, g)
    ensures Restored(s, Left(p.back), g)
    decreases p
  {
    var e := Entered(s, p.vector, p.pushesError, p.error, p.returnAddress);
    EnteredEnters(s, p.vector, p.pushesError, p.error, p.returnAddress);
    HandlerKeepsStack(e, p.body, p.back, e.Get(RSP), g);
    LeftRestores(s, e, p.back, FrameAddress(s, p.vector, p.pushesError), p.vector,
                 if p.pushesError then p.error else 0, g);
  }

  lemma EpisodeRestores(s: Cpu, p: Episode, g: Guard, t: Cpu)
    requires Happens(s, p, g) && t == Left(p.back)
    ensures Restored(s, t, g)
  {
    InterruptIsTransparent(s, p, g);
  }

  // ---------- handlers exist ----------

  lemma HappensIf(s: Cpu, p: Episode, e: Cpu, g: Guard)
    requires HasRoom(s, g) && (p.pushesError <==> Expected(p.vector))
    requires e == Entered(s, p.vector, p.pushesError, p.error, p.returnAddress)
    requires HandlerRuns(e, p.body, p.back, e.Get(RSP), g)
    requires p.back.Get(RSP) == e.Get(RSP) && (forall r :: CalleeSaved(r) ==> p.back.Get(r) == e.Get(r))
    ensures Happens(s, p, g)
  {
  }

  /** The word at `a` is neither on the stack nor named by the guard. */
  ghost predicate Free(a: int, g: Guard) {
    Outside(a, g.low, g.top - g.low) && forall b :: g.kept(b) ==> Outside(b, a, 8)
  }

  /** A handler that writes a word of the kernel's data. */
  lemma WritesData(e: Cpu, a: int, v: int, limit: int, g: Guard, w: Cpu)
    requires g.Valid() && g.low <= limit <= g.top && e.Get(RSP) <= limit && Free(a, g) && w == e.Write(a, v)
    ensures w.Get(RSP) == e.Get(RSP) && (forall r :: w.Get(r) == e.Get(r)) && w.Read(a) == v && Kept(e, w, limit, g)
    ensures HandlerRuns(e, Work(w, Done), w, limit, g)
  {
    assert HandlerRuns(w, Done, w, limit, g);
  }

  /** And is then interrupted. */
  lemma WritesAndIsInterrupted(e: Cpu, limit: int, g: Guard, w: Cpu, inner: Episode, end: Cpu)
    requires w.Get(RSP) == e.Get(RSP) <= limit && (forall r :: w.Get(r) == e.Get(r)) && Kept(e, w, limit, g)
    requires Happens(w, inner, g) && end == Left(inner.back)
    ensures HandlerRuns(e, Work(w, Interrupt(inner, Done)), end, limit, g)
    ensures end.Get(RSP) == e.Get(RSP) && forall r :: end.Get(r) == e.Get(r)
  {
    InterruptIsTransparent(w, inner, g);
    assert HandlerRuns(end, Done, end, limit, g);
    assert HandlerRuns(w, Interrupt(inner, Done), end, limit, g);
  }

  /** The interrupts that such a processor delivers can be those of an episode
      for every vector but 21 and 29, and for these two they cannot. */
  lemma DeliveredAsExpectedIff(vector: nat, pushesError: bool)
    requires pushesError <==> vector in {8, 10, 11, 12, 13, 14, 17, 21, 29, 30}
    ensures (pushesError <==> Expected(vector)) <==> vector != 21 && vector != 29
  {
  }

  lemma EntryRoom(s: Cpu, vector: nat, error: int, returnAddress: int)
    requires ROOM <= s.Get(RSP) < WORDS
    ensures s.Get(RSP) - ROOM
            <= Entered(s, vector, Expected(vector), error, returnAddress).Get(RSP) < s.Get(RSP)
  {
    EnteredEnters(s, vector, Expected(vector), error, returnAddress);
  }

  /** With enough stack every vector can interrupt every state, with handlers
      that write any word outside the stack and are interrupted `depth` times deep. */
  lemma {:induction false} NestingCanHappen(s: Cpu, vector: nat, error: int, returnAddress: int, depth: nat, a: int,
                                            v: int, g: Guard)
    returns (p: Episode)
    requires HasRoom(s, g) && g.low + ROOM * (depth + 1) <= s.Get(RSP) && Free(a, g)
    ensures Happens(s, p, g) && p.vector == vector
    ensures p.pushesError <==> vector in {8, 10, 11, 12, 13, 14, 17, 30}
    ensures p.body.Work? && p.body.after.Read(a) == v && (p.body.rest == Done <==> depth == 0)
    decreases depth
  {
    var e := Entered(s, vector, Expected(vector), error, returnAddress);
    EntryRoom(s, vector, error, returnAddress);
    var w := e.Write(a, v);
    WritesData(e, a, v, e.Get(RSP), g, w);
    var body, back := Work(w, Done), w;
    if depth > 0 {
      var inner := NestingCanHappen(w, vector, error, returnAddress, depth - 1, a, v, g);
      WritesAndIsInterrupted(e, e.Get(RSP), g, w, inner, Left(inner.back));
      body, back := Work(w, Interrupt(inner, Done)), Left(inner.back);
    }
    p := Episode(vector, Expected(vector), error, returnAddress, body, back);
    HappensIf(s, p, e, g);
  }
}
