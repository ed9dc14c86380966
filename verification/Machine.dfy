/**
  The part of an x86-64 processor that the kernel's assembly uses: sixteen
  registers, the flags, the instruction pointer, two segment selectors, and
  memory as the word of eight bytes that starts at each address. A store
  overlaps the words that start up to seven bytes before and behind it, so
  every statement about memory is about words that were stored as such, or
  that lie wholly outside what was stored.
*/
module Machine {

  /** Words are kept as integers; arithmetic on addresses wraps around here. */
  const WORDS: int := 0x1_0000_0000_0000_0000

  datatype Reg =
    | RAX | RBX | RCX | RDX | RSI | RDI | RSP | RBP
    | R8 | R9 | R10 | R11 | R12 | R13 | R14 | R15

  /** 64-bit wrap-around of the sum or difference of two words. */
  function Wrap(x: int): int {
    if x < 0 then x + WORDS else if x >= WORDS then x - WORDS else x
  }

  /** The remainder, for every sum and difference of two words. */
  lemma WrapIsRemainder(x: int)
    requires -0x1_0000_0000_0000_0000 < x < 0x2_0000_0000_0000_0000
    ensures Wrap(x) == x % 0x1_0000_0000_0000_0000
  {
  }

  /** The word at `a` and the `size` bytes at `from` have no byte in common. */
  predicate Outside(a: int, from: int, size: int) { a + 8 <= from || from + size <= a }

  // ---------- flags ----------

  /** `flags` with the bit worth `weight` set to `b`. */
  function WithFlag(flags: int, weight: nat, b: bool): int
    requires weight > 0
  {
    flags - flags / weight % 2 * weight + (if b then weight else 0)
  }

  predicate EvenParity(b: nat) {
    (b + b / 2 + b / 4 + b / 8 + b / 16 + b / 32 + b / 64 + b / 128) % 2 == 0
  }

  /** `flags` with carry, parity, adjust, zero, sign and overflow as told. */
  function SixFlags(flags: int, carry: bool, parity: bool, adjust: bool, zero: bool, sign: bool, overflow: bool): int {
    var f1 := WithFlag(flags, 0x1, carry);
    var f2 := WithFlag(f1, 0x4, parity);
    var f3 := WithFlag(f2, 0x10, adjust);
    var f4 := WithFlag(f3, 0x40, zero);
    var f5 := WithFlag(f4, 0x80, sign);
    WithFlag(f5, 0x800, overflow)
  }

  /** The flags after an addition. */
  function AddFlags(flags: int, x: int, y: int): int {
    var sum := Wrap(x + y);
    var half := WORDS / 2;
    SixFlags(flags, x + y >= WORDS, EvenParity(sum % 256), x % 16 + y % 16 >= 16, sum == 0, sum >= half,
             (x >= half) == (y >= half) && (x >= half) != (sum >= half))
  }

  // ---------- the processor ----------

  datatype Instr =
    | Store(base: Reg, offset: nat, src: Reg)  // mov [base + offset], src
    | Load(dst: Reg, base: Reg, offset: nat)   // mov dst, [base + offset]
    | Move(dst: Reg, src: Reg)                 // mov dst, src
    | Add(dst: Reg, n: int)                    // add dst, n
    | Lea(dst: Reg, base: Reg)                 // lea dst, [base]
    | Push(src: Reg)
    | PushImmediate(n: int)
    | Pop(dst: Reg)
    | Pushfq
    | Popfq
    | Cld
    | Cli
    | Call(returnAddress: int)                 // what a call does to the stack
    | Ret
    | Iretq

  datatype Cpu = Cpu(regs: Reg -> int, flags: int, rip: int, cs: int, ss: int, mem: int -> int) {

    function Get(r: Reg): int { regs(r) }

    function Read(a: int): int { mem(a) }

    function Set(r: Reg, w: int): Cpu { this.(regs := (q: Reg) => if q == r then w else regs(q)) }

    function Write(a: int, w: int): Cpu { this.(mem := (b: int) => if b == a then w else mem(b)) }

    function PushWord(w: int): Cpu {
      var top := Wrap(Get(RSP) - 8);
      Set(RSP, top).Write(top, w)
    }

    function Drop(): Cpu { Set(RSP, Wrap(Get(RSP) + 8)) }

    function Exec(i: Instr): Cpu {
      match i
      case Store(base, offset, src) => Write(Get(base) + offset, Get(src))
      case Load(dst, base, offset) => Set(dst, Read(Get(base) + offset))
      case Move(dst, src) => Set(dst, Get(src))
      case Add(dst, n) => Set(dst, Wrap(Get(dst) + n)).(flags := AddFlags(flags, Get(dst), n))
      case Lea(dst, base) => Set(dst, Get(base))
      case Push(src) => PushWord(Get(src))
      case PushImmediate(n) => PushWord(n)
      case Pop(dst) => Drop().Set(dst, Read(Get(RSP)))
      case Pushfq => PushWord(flags)
      case Popfq => Drop().(flags := Read(Get(RSP)))
      case Cld => this.(flags := WithFlag(flags, 0x400, false))
      case Cli => this.(flags := WithFlag(flags, 0x200, false))
      case Call(returnAddress) => PushWord(returnAddress)
      case Ret => Drop().(rip := Read(Get(RSP)))
      case Iretq =>
        var sp := Get(RSP);
        Set(RSP, Read(sp + 24)).(rip := Read(sp), cs := Read(sp + 8), flags := Read(sp + 16), ss := Read(sp + 32))
    }
  }

  /** Runs straight-line code. */
  function Run(s: Cpu, code: seq<Instr>): Cpu
    decreases |code|
  {
    if code == [] then s else Run(s.Exec(code[0]), code[1..])
  }

  // Short code, instruction by instruction.

  lemma Run1(s: Cpu, a: Instr)
    ensures Run(s, [a]) == s.Exec(a)
  {
    assert [a][1..] == [];
  }

  lemma Run2(s: Cpu, a: Instr, b: Instr)
    ensures Run(s, [a, b]) == s.Exec(a).Exec(b)
  {
    assert [a, b][1..] == [b];
    Run1(s.Exec(a), b);
  }

  lemma Run3(s: Cpu, a: Instr, b: Instr, c: Instr)
    ensures Run(s, [a, b, c]) == s.Exec(a).Exec(b).Exec(c)
  {
    assert [a, b, c][1..] == [b, c];
    Run2(s.Exec(a), b, c);
  }

  lemma Run4(s: Cpu, a: Instr, b: Instr, c: Instr, d: Instr)
    ensures Run(s, [a, b, c, d]) == s.Exec(a).Exec(b).Exec(c).Exec(d)
  {
    assert [a, b, c, d][1..] == [b, c, d];
    Run3(s.Exec(a), b, c, d);
  }

  class Processor {
    var cpu: Cpu

    constructor (cpu: Cpu)
      ensures this.cpu == cpu
    {
      this.cpu := cpu;
    }

    method Execute(code: seq<Instr>)
      modifies this
      ensures cpu == Run(old(cpu), code)
    {
      for k := 0 to |code|
        invariant Run(cpu, code[k..]) == Run(old(cpu), code)
      {
        assert code[k..][1..] == code[k + 1..];
        cpu := cpu.Exec(code[k]);
      }
    }
  }

  // ---------- blocks of like instructions ----------

  lemma {:induction false} RunConcat(s: Cpu, a: seq<Instr>, b: seq<Instr>)
    ensures Run(s, a + b) == Run(Run(s, a), b)
    decreases |a|
  {
    if a == [] {
      assert a + b == b;
    } else {
      assert (a + b)[1..] == a[1..] + b;
      RunConcat(s.Exec(a[0]), a[1..], b);
    }
  }

  /** Stores of registers at different places from one base. */
  ghost predicate Stores(code: seq<Instr>, base: Reg) {
    && (forall k :: 0 <= k < |code| ==> code[k].Store? && code[k].base == base)
    && (forall j, k :: 0 <= j < k < |code| ==> Outside(code[j].offset, code[k].offset, 8))
  }

  lemma {:induction false} StoresKeep(s: Cpu, code: seq<Instr>, base: Reg, a: int)
    requires Stores(code, base) && Away(a, s.Get(base), code)
    ensures Run(s, code).Read(a) == s.Read(a)
    decreases |code|
  {
    if code != [] {
      assert forall k :: 0 < k < |code| ==> code[k] == code[1..][k - 1];
      StoresKeep(s.Exec(code[0]), code[1..], base, a);
    }
  }

  lemma {:induction false} StoresAt(s: Cpu, code: seq<Instr>, base: Reg, k: nat)
    requires Stores(code, base) && k < |code|
    ensures Run(s, code).Read(s.Get(base) + code[k].offset) == s.Get(code[k].src)
    decreases |code|
  {
    var t, rest := s.Exec(code[0]), code[1..];
    assert forall j :: 0 < j < |code| ==> code[j] == rest[j - 1];
    if k == 0 {
      StoresKeep(t, rest, base, s.Get(base) + code[0].offset);
    } else {
      StoresAt(t, rest, base, k - 1);
    }
  }

  lemma {:induction false} StoresKeepRegisters(s: Cpu, code: seq<Instr>, base: Reg)
    requires Stores(code, base)
    ensures Run(s, code) == s.(mem := Run(s, code).mem)
    decreases |code|
  {
    if code != [] {
      assert forall k :: 0 < k < |code| ==> code[k] == code[1..][k - 1];
      StoresKeepRegisters(s.Exec(code[0]), code[1..], base);
    }
  }

  /** The word at `a` is outside all places that the code stores to. */
  ghost predicate Away(a: int, at: int, code: seq<Instr>)
    requires forall k :: 0 <= k < |code| ==> code[k].Store?
  {
    forall k :: 0 <= k < |code| ==> Outside(a, at + code[k].offset, 8)
  }

  /** Every register is stored in its place, and nothing else has changed. */
  ghost predicate Stored(s: Cpu, t: Cpu, code: seq<Instr>, base: Reg)
    requires Stores(code, base)
  {
    && t == s.(mem := t.mem)
    && (forall k :: 0 <= k < |code| ==> t.Read(s.Get(base) + code[k].offset) == s.Get(code[k].src))
    && (forall a {:trigger Away(a, s.Get(base), code)} :: Away(a, s.Get(base), code) ==> t.Read(a) == s.Read(a))
  }

  lemma RunStores(s: Cpu, code: seq<Instr>, base: Reg)
    requires Stores(code, base)
    ensures Stored(s, Run(s, code), code, base)
  {
    StoresKeepRegisters(s, code, base);
    forall k | 0 <= k < |code|
      ensures Run(s, code).Read(s.Get(base) + code[k].offset) == s.Get(code[k].src)
    {
      StoresAt(s, code, base, k);
    }
    forall a | Away(a, s.Get(base), code)
      ensures Run(s, code).Read(a) == s.Read(a)
    {
      StoresKeep(s, code, base, a);
    }
  }

  /** Loads of different registers, other than the base itself. */
  ghost predicate Loads(code: seq<Instr>, base: Reg) {
    && (forall k :: 0 <= k < |code| ==> code[k].Load? && code[k].base == base && code[k].dst != base)
    && (forall j, k :: 0 <= j < k < |code| ==> code[j].dst != code[k].dst)
  }

  lemma {:induction false} RunLoads(s: Cpu, code: seq<Instr>, base: Reg)
    requires Loads(code, base)
    ensures Run(s, code) == s.(regs := Run(s, code).regs)
    ensures forall k :: 0 <= k < |code| ==> Run(s, code).Get(code[k].dst) == s.Read(s.Get(base) + code[k].offset)
    ensures forall r :: (forall k :: 0 <= k < |code| ==> r != code[k].dst) ==> Run(s, code).Get(r) == s.Get(r)
    decreases |code|
  {
    if code != [] {
      var t := s.Exec(code[0]);
      RunLoads(t, code[1..], base);
      assert forall k :: 0 < k < |code| ==> code[k] == code[1..][k - 1];
      assert Run(s, code) == Run(t, code[1..]);
      forall k | 0 <= k < |code|
        ensures Run(s, code).Get(code[k].dst) == s.Read(s.Get(base) + code[k].offset)
      {
        if k == 0 {
          assert forall j :: 0 <= j < |code[1..]| ==> code[1..][j].dst != code[0].dst;
        }
      }
    }
  }

  /** Pushes of registers other than the stack pointer. */
  ghost predicate Pushes(code: seq<Instr>) {
    forall k :: 0 <= k < |code| ==> code[k].Push? && code[k].src != RSP
  }

  /** `t` is `s` with `n` words pushed. */
  ghost predicate PushedBelow(s: Cpu, t: Cpu, n: nat) {
    && t.Get(RSP) == s.Get(RSP) - 8 * n
    && (forall r :: r != RSP ==> t.Get(r) == s.Get(r))
    && t.flags == s.flags && t.rip == s.rip && t.cs == s.cs && t.ss == s.ss
    && (forall a :: Outside(a, t.Get(RSP), 8 * n) ==> t.Read(a) == s.Read(a))
  }

  lemma {:induction false} RunPushes(s: Cpu, code: seq<Instr>)
    requires Pushes(code) && 8 * |code| <= s.Get(RSP) < WORDS
    ensures PushedBelow(s, Run(s, code), |code|)
    ensures forall k :: 0 <= k < |code| ==> Run(s, code).Read(s.Get(RSP) - 8 * (k + 1)) == s.Get(code[k].src)
    decreases |code|
  {
    if code != [] {
      var t, rest := s.Exec(code[0]), code[1..];
      assert forall k :: 0 < k < |code| ==> code[k] == rest[k - 1];
      RunPushes(t, rest);
      forall k | 0 <= k < |code|
        ensures Run(s, code).Read(s.Get(RSP) - 8 * (k + 1)) == s.Get(code[k].src)
      {
        if k > 0 { assert Run(t, rest).Read(t.Get(RSP) - 8 * (k - 1 + 1)) == t.Get(rest[k - 1].src); }
      }
    }
  }

  /** Pops into different registers other than the stack pointer. */
  ghost predicate Pops(code: seq<Instr>) {
    && (forall k :: 0 <= k < |code| ==> code[k].Pop? && code[k].dst != RSP)
    && (forall j, k :: 0 <= j < k < |code| ==> code[j].dst != code[k].dst)
  }

  lemma {:induction false} RunPops(s: Cpu, code: seq<Instr>)
    requires Pops(code) && 0 <= s.Get(RSP) && s.Get(RSP) + 8 * |code| < WORDS
    ensures Run(s, code) == s.(regs := Run(s, code).regs)
    ensures Run(s, code).Get(RSP) == s.Get(RSP) + 8 * |code|
    ensures forall k :: 0 <= k < |code| ==> Run(s, code).Get(code[k].dst) == s.Read(s.Get(RSP) + 8 * k)
    ensures forall r :: r != RSP && (forall k :: 0 <= k < |code| ==> r != code[k].dst)
              ==> Run(s, code).Get(r) == s.Get(r)
    decreases |code|
  {
    if code != [] {
      var t, rest := s.Exec(code[0]), code[1..];
      assert forall k :: 0 < k < |code| ==> code[k] == rest[k - 1];
      RunPops(t, rest);
      forall k | 0 <= k < |code|
        ensures Run(s, code).Get(code[k].dst) == s.Read(s.Get(RSP) + 8 * k)
      {
        if k == 0 {
          assert forall j :: 0 <= j < |rest| ==> rest[j].dst != code[0].dst;
        } else {
          assert Run(t, rest).Get(rest[k - 1].dst) == t.Read(t.Get(RSP) + 8 * (k - 1));
        }
      }
    }
  }
}
