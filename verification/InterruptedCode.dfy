/**
  Straight-line code that is interrupted between any two of its instructions,
  and why it does what it does without interrupts: each interrupt gives back
  the registers, the stack from the stack pointer up and the words that the
  guard names, and the code looks at nothing else.
*/
module InterruptedCode {
  import opened Interrupts
  import opened Machine

  /** The order of instructions and interrupts. */
  datatype Script =
    | End
    | Next(rest: Script)
    | Break(episode: Episode, rest: Script)

  /** The code, started in `s` and interrupted as the script says, ends in `t`. */
  ghost predicate Executes(s: Cpu, code: seq<Instr>, script: Script, t: Cpu, g: Guard)
    decreases script
  {
    match script
    case End => code == [] && t == s
    case Next(rest) => code != [] && Executes(s.Exec(code[0]), code[1..], rest, t, g)
    case Break(episode, rest) => Happens(s, episode, g) && Executes(Left(episode.back), code, rest, t, g)
  }

  /** Without interrupts it is a plain run. */
  lemma {:induction false} RunExecutes(s: Cpu, code: seq<Instr>, g: Guard) returns (script: Script)
    ensures Executes(s, code, script, Run(s, code), g)
    decreases |code|
  {
    if code == [] {
      script := End;
    } else {
      var rest := RunExecutes(s.Exec(code[0]), code[1..], g);
      script := Next(rest);
    }
  }

  /** The first interrupt comes after `n` instructions. */
  ghost predicate BreaksAt(script: Script, n: nat)
    decreases script
  {
    match script
    case End => false
    case Next(rest) => n > 0 && BreaksAt(rest, n - 1)
    case Break(_, _) => n == 0
  }

  /** The script with `n` more instructions at its start. */
  function Delayed(script: Script, n: nat): Script {
    if n == 0 then script else Next(Delayed(script, n - 1))
  }

  lemma {:induction false} DelayedBreaks(script: Script, n: nat)
    requires BreaksAt(script, 0)
    ensures BreaksAt(Delayed(script, n), n)
  {
    if n > 0 {
      DelayedBreaks(script, n - 1);
    }
  }

  lemma FirstOfConcat(a: seq<Instr>, b: seq<Instr>)
    requires a != []
    ensures a + b != [] && (a + b)[0] == a[0] && (a + b)[1..] == a[1..] + b
  {
  }

  lemma DelayedOnce(s: Cpu, code: seq<Instr>, later: Script, n: nat, t: Cpu, g: Guard)
    requires code != [] && Executes(s.Exec(code[0]), code[1..], Delayed(later, n), t, g)
    ensures Executes(s, code, Delayed(later, n + 1), t, g)
  {
  }

  lemma {:induction false} DelayedExecutes(s: Cpu, a: seq<Instr>, b: seq<Instr>, m: Cpu, later: Script, t: Cpu,
                                           g: Guard)
    requires m == Run(s, a) && Executes(m, b, later, t, g)
    ensures Executes(s, a + b, Delayed(later, |a|), t, g)
    decreases |a|
  {
    if a == [] {
      assert a + b == b;
    } else {
      DelayedExecutes(s.Exec(a[0]), a[1..], b, m, later, t, g);
      FirstOfConcat(a, b);
      DelayedOnce(s, a + b, later, |a| - 1, t, g);
    }
  }

  /** The words of the stack that matter while the stack pointer is `rsp`: all
      from `base` up, and below it those that the code has pushed. */
  predicate InWindow(a: int, rsp: int, base: int, top: int) {
    a + 8 <= top && (base <= a || (rsp <= a && (base - a) % 8 == 0))
  }

  /** The two states cannot be told apart by the code. */
  ghost predicate Agree(u: Cpu, v: Cpu, base: int, g: Guard) {
    && (forall r :: v.Get(r) == u.Get(r))
    && v.flags == u.flags && v.rip == u.rip && v.cs == u.cs && v.ss == u.ss
    && u.Get(RSP) <= base && (base - u.Get(RSP)) % 8 == 0
    && (forall a {:trigger v.Read(a)} :: InWindow(a, u.Get(RSP), base, g.top) ==> v.Read(a) == u.Read(a))
    && (forall a {:trigger v.Read(a)} :: g.kept(a) ==> v.Read(a) == u.Read(a))
  }

  lemma RestoredAgrees(u: Cpu, v: Cpu, w: Cpu, base: int, g: Guard)
    requires Agree(u, v, base, g) && Restored(v, w, g)
    ensures Agree(u, w, base, g)
  {
    forall a | InWindow(a, u.Get(RSP), base, g.top) || g.kept(a) ensures w.Read(a) == u.Read(a) {
      assert v.Read(a) == u.Read(a);
    }
  }

  /** An interrupt does not change what the code can see. */
  lemma BreakAgrees(u: Cpu, v: Cpu, p: Episode, base: int, g: Guard)
    requires Agree(u, v, base, g) && Happens(v, p, g)
    ensures Agree(u, Left(p.back), base, g)
  {
    var w := Left(p.back);
    EpisodeRestores(v, p, g, w);
    RestoredAgrees(u, v, w, base, g);
  }

  // ---------- one instruction ----------

  ghost predicate Visible(u: Cpu, a: int, base: int, g: Guard) {
    g.kept(a) || InWindow(a, u.Get(RSP), base, g.top)
  }

  /** The instruction reads only what is visible, and moves the stack pointer by words below the base. */
  ghost predicate Safe(u: Cpu, i: Instr, base: int, g: Guard) {
    match i
    case Load(dst, b, offset) => dst != RSP && Visible(u, u.Get(b) + offset, base, g)
    case Move(dst, _) => dst != RSP
    case Add(dst, _) => dst != RSP
    case Lea(dst, _) => dst != RSP
    case Push(_) => Down(u)
    case PushImmediate(_) => Down(u)
    case Pushfq => Down(u)
    case Call(_) => Down(u)
    case Pop(dst) => dst != RSP && Up(u, base, g)
    case Popfq => Up(u, base, g)
    case Ret => Up(u, base, g)
    case Iretq => false
    case _ => true
  }

  predicate Down(u: Cpu) { 8 <= u.Get(RSP) < WORDS }

  predicate Up(u: Cpu, base: int, g: Guard) {
    0 <= u.Get(RSP) && u.Get(RSP) + 8 <= base < WORDS && u.Get(RSP) + 8 <= g.top
  }

  lemma WindowBelow(a: int, rsp: int, base: int, top: int)
    requires rsp <= base && (base - rsp) % 8 == 0
    ensures InWindow(a, rsp - 8, base, top) ==> a == rsp - 8 || InWindow(a, rsp, base, top)
    ensures InWindow(a, rsp + 8, base, top) ==> InWindow(a, rsp, base, top)
  {
    if InWindow(a, rsp - 8, base, top) && a < base && a != rsp - 8 {
      assert base - a == 8 * ((base - a) / 8) && base - rsp == 8 * ((base - rsp) / 8);
    }
  }

  lemma PushAgrees(u: Cpu, v: Cpu, w: int, base: int, g: Guard)
    requires Agree(u, v, base, g) && Down(u)
    ensures Agree(u.PushWord(w), v.PushWord(w), base, g)
  {
    var x, y := u.PushWord(w), v.PushWord(w);
    forall r ensures y.Get(r) == x.Get(r) { assert v.Get(r) == u.Get(r); }
    forall a | InWindow(a, x.Get(RSP), base, g.top) || g.kept(a) ensures y.Read(a) == x.Read(a) {
      WindowBelow(a, u.Get(RSP), base, g.top);
      assert a != u.Get(RSP) - 8 ==> v.Read(a) == u.Read(a);
    }
  }

  lemma DropAgrees(u: Cpu, v: Cpu, base: int, g: Guard)
    requires Agree(u, v, base, g) && Up(u, base, g)
    ensures Agree(u.Drop(), v.Drop(), base, g) && v.Read(v.Get(RSP)) == u.Read(u.Get(RSP))
  {
    var x, y := u.Drop(), v.Drop();
    forall r ensures y.Get(r) == x.Get(r) { assert v.Get(r) == u.Get(r); }
    forall a | InWindow(a, x.Get(RSP), base, g.top) || g.kept(a) ensures y.Read(a) == x.Read(a) {
      WindowBelow(a, u.Get(RSP), base, g.top);
      assert v.Read(a) == u.Read(a);
    }
    assert InWindow(u.Get(RSP), u.Get(RSP), base, g.top);
  }

  lemma SetAgrees(u: Cpu, v: Cpu, r: Reg, w: int, base: int, g: Guard)
    requires Agree(u, v, base, g) && r != RSP
    ensures Agree(u.Set(r, w), v.Set(r, w), base, g)
  {
    var x, y := u.Set(r, w), v.Set(r, w);
    forall q ensures y.Get(q) == x.Get(q) { assert v.Get(q) == u.Get(q); }
    forall a | InWindow(a, x.Get(RSP), base, g.top) || g.kept(a) ensures y.Read(a) == x.Read(a) {
      assert v.Read(a) == u.Read(a);
    }
  }

  lemma WriteAgrees(u: Cpu, v: Cpu, at: int, w: int, base: int, g: Guard)
    requires Agree(u, v, base, g)
    ensures Agree(u.Write(at, w), v.Write(at, w), base, g)
  {
    var x, y := u.Write(at, w), v.Write(at, w);
    forall q ensures y.Get(q) == x.Get(q) { assert v.Get(q) == u.Get(q); }
    forall a | InWindow(a, x.Get(RSP), base, g.top) || g.kept(a) ensures y.Read(a) == x.Read(a) {
      assert v.Read(a) == u.Read(a);
    }
  }

  lemma FlagsAgree(u: Cpu, v: Cpu, flags: int, rip: int, base: int, g: Guard)
    requires Agree(u, v, base, g)
    ensures Agree(u.(flags := flags, rip := rip), v.(flags := flags, rip := rip), base, g)
  {
    var x, y := u.(flags := flags, rip := rip), v.(flags := flags, rip := rip);
    forall q ensures y.Get(q) == x.Get(q) { assert v.Get(q) == u.Get(q); }
    forall a | InWindow(a, x.Get(RSP), base, g.top) || g.kept(a) ensures y.Read(a) == x.Read(a) {
      assert v.Read(a) == u.Read(a);
    }
  }

  /** The same instruction keeps the two states alike. */
  lemma ExecAgrees(u: Cpu, v: Cpu, i: Instr, base: int, g: Guard)
    requires Agree(u, v, base, g) && Safe(u, i, base, g)
    ensures Agree(u.Exec(i), v.Exec(i), base, g)
  {
    match i
    case Store(b, offset, src) => WriteAgrees(u, v, u.Get(b) + offset, u.Get(src), base, g);
    case Load(dst, b, offset) =>
      assert v.Read(u.Get(b) + offset) == u.Read(u.Get(b) + offset);
      SetAgrees(u, v, dst, u.Read(u.Get(b) + offset), base, g);
    case Move(dst, src) => SetAgrees(u, v, dst, u.Get(src), base, g);
    case Add(dst, n) =>
      var x, y := u.Set(dst, Wrap(u.Get(dst) + n)), v.Set(dst, Wrap(u.Get(dst) + n));
      SetAgrees(u, v, dst, Wrap(u.Get(dst) + n), base, g);
      FlagsAgree(x, y, AddFlags(u.flags, u.Get(dst), n), u.rip, base, g);
    case Lea(dst, b) => SetAgrees(u, v, dst, u.Get(b), base, g);
    case Push(src) => PushAgrees(u, v, u.Get(src), base, g);
    case PushImmediate(n) => PushAgrees(u, v, n, base, g);
    case Pushfq => PushAgrees(u, v, u.flags, base, g);
    case Call(n) => PushAgrees(u, v, n, base, g);
    case Pop(dst) =>
      DropAgrees(u, v, base, g);
      SetAgrees(u.Drop(), v.Drop(), dst, u.Read(u.Get(RSP)), base, g);
    case Popfq =>
      DropAgrees(u, v, base, g);
      FlagsAgree(u.Drop(), v.Drop(), u.Read(u.Get(RSP)), u.rip, base, g);
    case Ret =>
      DropAgrees(u, v, base, g);
      FlagsAgree(u.Drop(), v.Drop(), u.flags, u.Read(u.Get(RSP)), base, g);
    case Cld => FlagsAgree(u, v, WithFlag(u.flags, 0x400, false), u.rip, base, g);
    case Cli => FlagsAgree(u, v, WithFlag(u.flags, 0x200, false), u.rip, base, g);
  }

  // ---------- whole code ----------

  ghost predicate RunSafe(u: Cpu, code: seq<Instr>, base: int, g: Guard)
    decreases |code|
  {
    code == [] || (Safe(u, code[0], base, g) && RunSafe(u.Exec(code[0]), code[1..], base, g))
  }

  /** However it is interrupted, safe code ends as it does without interrupts. */
  lemma {:induction false} ExecutesAgrees(u: Cpu, v: Cpu, code: seq<Instr>, script: Script, t: Cpu, base: int, g: Guard)
    requires Agree(u, v, base, g) && RunSafe(u, code, base, g) && Executes(v, code, script, t, g)
    ensures Agree(Run(u, code), t, base, g)
    decreases script
  {
    match script
    case End =>
    case Next(rest) =>
      ExecAgrees(u, v, code[0], base, g);
      ExecutesAgrees(u.Exec(code[0]), v.Exec(code[0]), code[1..], rest, t, base, g);
    case Break(episode, rest) =>
      BreakAgrees(u, v, episode, base, g);
      ExecutesAgrees(u, Left(episode.back), code, rest, t, base, g);
  }

  lemma StepBound(u: Cpu, i: Instr, base: int, g: Guard)
    requires Safe(u, i, base, g) && 8 <= u.Get(RSP) <= base < WORDS
    ensures u.Get(RSP) - 8 <= u.Exec(i).Get(RSP) <= base
  {
  }

  /** Safe code keeps the stack pointer below its base, and lowers it by at most a word with each instruction. */
  lemma {:induction false} StackBound(u: Cpu, a: seq<Instr>, b: seq<Instr>, base: int, g: Guard)
    requires RunSafe(u, a + b, base, g) && 8 * |a| <= u.Get(RSP) <= base < WORDS
    ensures u.Get(RSP) - 8 * |a| <= Run(u, a).Get(RSP) <= base
    decreases |a|
  {
    if a != [] {
      FirstOfConcat(a, b);
      StepBound(u, a[0], base, g);
      StackBound(u.Exec(a[0]), a[1..], b, base, g);
    }
  }

  /** Code that is interrupted before its first instruction, with handlers that write kernel data. */
  lemma BreakFirst(m: Cpu, code: seq<Instr>, g: Guard, vector: nat, error: int, returnAddress: int, depth: nat, x: int,
                   v: int) returns (script: Script, t: Cpu)
    requires HasRoom(m, g) && g.low + ROOM * (depth + 1) <= m.Get(RSP) && Free(x, g)
    ensures Executes(m, code, script, t, g) && BreaksAt(script, 0)
  {
    var p := NestingCanHappen(m, vector, error, returnAddress, depth, x, v, g);
    t := Run(Left(p.back), code);
    var rest := RunExecutes(Left(p.back), code, g);
    script := Break(p, rest);
  }

  lemma CanBreakBetween(u: Cpu, a: seq<Instr>, b: seq<Instr>, base: int, g: Guard, vector: nat, error: int,
                        returnAddress: int, depth: nat, x: int, v: int) returns (script: Script, t: Cpu)
    requires RunSafe(u, a + b, base, g) && u.Get(RSP) <= base < WORDS && base <= g.top
    requires g.Valid() && g.low + ROOM * (depth + 1) + 8 * |a| <= u.Get(RSP) && Free(x, g)
    ensures Executes(u, a + b, script, t, g) && BreaksAt(script, |a|)
  {
    StackBound(u, a, b, base, g);
    var later: Script;
    later, t := BreakFirst(Run(u, a), b, g, vector, error, returnAddress, depth, x, v);
    DelayedExecutes(u, a, b, Run(u, a), later, t, g);
    DelayedBreaks(later, |a|);
    script := Delayed(later, |a|);
  }

  /** With enough stack, safe code can be interrupted after any number of its instructions. */
  lemma CanBreak(u: Cpu, code: seq<Instr>, n: nat, base: int, g: Guard, vector: nat, error: int, returnAddress: int,
                 depth: nat, x: int, v: int) returns (script: Script, t: Cpu)
    requires RunSafe(u, code, base, g) && n <= |code| && u.Get(RSP) <= base < WORDS && base <= g.top
    requires g.Valid() && g.low + ROOM * (depth + 1) + 8 * n <= u.Get(RSP) && Free(x, g)
    ensures Executes(u, code, script, t, g) && BreaksAt(script, n)
  {
    var a, b := code[..n], code[n..];
    assert code == a + b && |a| == n;
    script, t := CanBreakBetween(u, a, b, base, g, vector, error, returnAddress, depth, x, v);
  }

  lemma {:induction false} RunSafeConcat(u: Cpu, a: seq<Instr>, b: seq<Instr>, base: int, g: Guard)
    requires RunSafe(u, a, base, g) && RunSafe(Run(u, a), b, base, g)
    ensures RunSafe(u, a + b, base, g)
    decreases |a|
  {
    if a == [] {
      assert a + b == b;
    } else {
      assert (a + b)[0] == a[0] && (a + b)[1..] == a[1..] + b;
      RunSafeConcat(u.Exec(a[0]), a[1..], b, base, g);
    }
  }

  lemma SafeFirst(u: Cpu, a: Instr, rest: seq<Instr>, base: int, g: Guard)
    requires Safe(u, a, base, g) && RunSafe(u.Exec(a), rest, base, g)
    ensures RunSafe(u, [a] + rest, base, g)
  {
    var code := [a] + rest;
    assert code[0] == a && code[1..] == rest;
  }

  lemma Safe2(u: Cpu, a: Instr, b: Instr, base: int, g: Guard)
    requires Safe(u, a, base, g) && Safe(u.Exec(a), b, base, g)
    ensures RunSafe(u, [a, b], base, g)
  {
    SafeFirst(u.Exec(a), b, [], base, g);
    SafeFirst(u, a, [b], base, g);
    assert [a] + [b] == [a, b] && [b] + [] == [b];
  }

  lemma Safe3(u: Cpu, a: Instr, b: Instr, c: Instr, base: int, g: Guard)
    requires Safe(u, a, base, g) && Safe(u.Exec(a), b, base, g) && Safe(u.Exec(a).Exec(b), c, base, g)
    ensures RunSafe(u, [a, b, c], base, g)
  {
    Safe2(u.Exec(a), b, c, base, g);
    SafeFirst(u, a, [b, c], base, g);
    assert [a] + [b, c] == [a, b, c];
  }

  lemma {:induction false} StoresSafe(u: Cpu, code: seq<Instr>, base: int, g: Guard)
    requires forall k :: 0 <= k < |code| ==> code[k].Store?
    ensures RunSafe(u, code, base, g)
    decreases |code|
  {
    if code != [] {
      assert forall k :: 0 < k < |code| ==> code[1..][k - 1] == code[k];
      StoresSafe(u.Exec(code[0]), code[1..], base, g);
    }
  }

  /** Loads from words that the guard names. */
  lemma {:induction false} LoadsSafe(u: Cpu, code: seq<Instr>, b: Reg, base: int, g: Guard)
    requires Loads(code, b) && forall k :: 0 <= k < |code| ==> code[k].dst != RSP && g.kept(u.Get(b) + code[k].offset)
    ensures RunSafe(u, code, base, g)
    decreases |code|
  {
    if code != [] {
      assert forall k :: 0 < k < |code| ==> code[1..][k - 1] == code[k];
      LoadsSafe(u.Exec(code[0]), code[1..], b, base, g);
    }
  }
}
