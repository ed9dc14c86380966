/**
  The code of kernel/process/task.c: it sets up the ring of two tasks and
  advances the running task.
*/
module Tasking {
  import opened ContextSwitch
  import opened Machine
  import opened TaskRuns

  const NEW_STACK: int := 0x1000

  class Scheduler {
    var processor: Processor
    /** The address of the running task's structure. */
    var runningTask: int
    ghost var layout: Layout
    ghost var running: int

    ghost function State(): System
      reads this, processor
    {
      System(processor.cpu, running)
    }

    ghost predicate Valid()
      reads this, processor
    {
      Inv(layout, State()) && layout.tasks[running] == runningTask
    }

    constructor (processor: Processor)
      ensures this.processor == processor
    {
      this.processor := processor;
      this.runningTask := 0;
      this.layout := Layout([], [], []);
      this.running := 0;
    }

    method SetField(task: int, offset: int, value: int)
      modifies processor
      ensures processor.cpu == old(processor.cpu).(mem := processor.cpu.mem)
      ensures processor.cpu.Read(task + offset) == value
      ensures forall a :: Outside(a, task + offset, 8) ==> processor.cpu.Read(a) == old(processor.cpu).Read(a)
    {
      processor.cpu := processor.cpu.Write(task + offset, value);
    }

    /** The six registers that start as zero are the first fields. */
    method ClearRegisters(task: int)
      modifies processor
      ensures var s, t := old(processor.cpu), processor.cpu;
              && t == s.(mem := t.mem)
              && (forall r :: r in {RAX, RBX, RCX, RDX, RSI, RDI} ==> t.Read(task + Field(r)) == 0)
              && (forall a :: Outside(a, task, 48) ==> t.Read(a) == s.Read(a))
    {
      SetField(task, 0, 0);
      SetField(task, 8, 0);
      SetField(task, 16, 0);
      SetField(task, 24, 0);
      SetField(task, 32, 0);
      SetField(task, 40, 0);
    }

    /** rbp and r8 to r15 keep what memory held. */
    method CreateTask(task: int, entry: int, flags: int, cr3: int, stack: int)
      modifies processor
      ensures var s, t := old(processor.cpu), processor.cpu;
              && t == s.(mem := t.mem)
              && (forall r :: r in {RAX, RBX, RCX, RDX, RSI, RDI} ==> t.Read(task + Field(r)) == 0)
              && t.Read(task + Field(RSP)) == stack + 0x1000
              && t.Read(task + RFLAGS_FIELD) == flags && t.Read(task + RIP_FIELD) == entry
              && t.Read(task + CR3_FIELD) == cr3 && t.Read(task + NEXT_FIELD) == 0
              && (forall a :: Outside(a, task, 160) ==> t.Read(a) == s.Read(a))
    {
      ClearRegisters(task);
      SetField(task, 128, flags);
      SetField(task, 136, entry);
      SetField(task, 144, cr3);
      SetField(task, 48, stack + NEW_STACK);
      SetField(task, 152, 0);
    }

    /** The two assembly statements: cr3 and the flags. */
    method SaveMainTask(task: int, cr3: int)
      modifies processor
      ensures processor.cpu.Read(task + RFLAGS_FIELD) == old(processor.cpu.flags)
      ensures processor.cpu.Read(task + CR3_FIELD) == cr3
      ensures forall a :: Outside(a, task, TASK_SIZE) ==> processor.cpu.Read(a) == old(processor.cpu).Read(a)
    {
      SetField(task, 144, cr3);
      SetField(task, 128, processor.cpu.flags);
    }

    method LinkTasks(mainTask: int, otherTask: int)
      requires mainTask + TASK_SIZE <= otherTask || otherTask + TASK_SIZE <= mainTask
      modifies processor
      ensures processor.cpu.Read(mainTask + NEXT_FIELD) == otherTask
      ensures processor.cpu.Read(otherTask + NEXT_FIELD) == mainTask
      ensures forall a :: Outside(a, mainTask + NEXT_FIELD, 8) && Outside(a, otherTask + NEXT_FIELD, 8)
                ==> processor.cpu.Read(a) == old(processor.cpu).Read(a)
    {
      SetField(mainTask, 152, otherTask);
      SetField(otherTask, 152, mainTask);
    }

    /** Both structures filled in and linked. */
    method PrepareTasks(mainTask: int, otherTask: int, otherMain: int, cr3: int, stack: int)
      requires mainTask + TASK_SIZE <= otherTask || otherTask + TASK_SIZE <= mainTask
      modifies processor
      ensures processor.cpu.Read(mainTask + NEXT_FIELD) == otherTask
      ensures processor.cpu.Read(otherTask + NEXT_FIELD) == mainTask
      ensures processor.cpu.Read(otherTask + Field(RSP)) == stack + NEW_STACK
      ensures processor.cpu.Read(otherTask + RIP_FIELD) == otherMain
      ensures processor.cpu.Read(otherTask + RFLAGS_FIELD) == old(processor.cpu.flags)
      ensures KeptOutside(old(processor.cpu), processor.cpu, mainTask, otherTask)
    {
      ghost var s0 := processor.cpu;
      SaveMainTask(mainTask, cr3);
      ghost var s1 := processor.cpu;
      var flags := processor.cpu.Read(mainTask + RFLAGS_FIELD);
      CreateTask(otherTask, otherMain, flags, processor.cpu.Read(mainTask + CR3_FIELD), stack);
      ghost var s2 := processor.cpu;
      LinkTasks(mainTask, otherTask);
      KeptThrough(s0, s1, s2, processor.cpu, mainTask, otherTask);
    }

    /** The ring of the main task, which runs, and one other task, which will
        start at its entry on a new stack. */
    method InitTasking(mainTask: int, otherTask: int, otherMain: int, cr3: int, stack: int, ghost l: Layout)
      requires TwoTasks(l, mainTask, otherTask) && l.stacks[1] == Stack(stack, stack + NEW_STACK)
      modifies this, processor
      ensures processor == old(processor) && layout == l && Valid() && running == 0
      ensures SavedRsp(l, processor.cpu, 1) == stack + NEW_STACK
      ensures processor.cpu.Read(otherTask + RIP_FIELD) == otherMain
      ensures processor.cpu.Read(otherTask + RFLAGS_FIELD) == old(processor.cpu.flags)
      ensures KeptOutside(old(processor.cpu), processor.cpu, mainTask, otherTask)
    {
      assert l.Disjoint(0, 1);
      PrepareTasks(mainTask, otherTask, otherMain, cr3, stack);
      RingOfTwo(l, processor.cpu);
      layout := l;
      runningTask := mainTask;
      running := 0;
    }

    /** The C function passes the two register areas and calls `switchTask`. */
    method Yield(returnAddress: int) returns (ghost s: System)
      requires Valid()
      requires layout.stacks[running].low + 24 <= processor.cpu.Get(RSP) <= layout.stacks[running].high
      modifies this, processor
      ensures processor == old(processor) && layout == old(layout) && Valid()
      ensures Computes(layout, old(State()), s) && Switches(layout, s, State()) && Yields(layout, s, State())
      ensures s.cpu.Get(RSP) == old(processor.cpu.Get(RSP)) - 8 && s.cpu.Read(s.cpu.Get(RSP)) == returnAddress
      ensures SavedInOrder(s.cpu, processor.cpu, old(runningTask))
      ensures LoadedInOrder(s.cpu, processor.cpu, runningTask)
    {
      ghost var s0 := State();
      assert layout.Placed(running) && Link(layout, processor.cpu, running);
      var last := runningTask;
      runningTask := processor.cpu.Read(runningTask + 152);
      processor.cpu := processor.cpu.Set(RDI, last).Set(RSI, runningTask).Exec(Call(returnAddress));
      s := State();
      CallComputes(layout, s0, s, last, runningTask, returnAddress);
      EffectKeepsInv(layout, s0, s);
      processor.Execute(SWITCH_TASK);
      running := layout.next[running];
      SwitchTaskSteps(layout, s, State());
      SwitchTaskYields(layout, s, State());
      SavedHasOrder(s.cpu, processor.cpu, last);
      LoadedHasOrder(s.cpu, processor.cpu, runningTask);
      EffectKeepsInv(layout, s, State());
    }
  }

  ghost predicate TwoTasks(l: Layout, first: int, second: int) {
    && l.Valid() && l.Task(0) && l.Task(1) && !l.Task(2)
    && l.tasks[0] == first && l.tasks[1] == second && l.next[0] == 1 && l.next[1] == 0
  }

  /** Memory outside the two tasks is the same. */
  ghost predicate KeptOutside(s: Cpu, t: Cpu, first: int, second: int) {
    forall a :: Outside(a, first, TASK_SIZE) && Outside(a, second, TASK_SIZE) ==> t.Read(a) == s.Read(a)
  }

  lemma KeptThrough(s0: Cpu, s1: Cpu, s2: Cpu, t: Cpu, first: int, second: int)
    requires forall a :: Outside(a, first, TASK_SIZE) ==> s1.Read(a) == s0.Read(a)
    requires forall a :: Outside(a, second, TASK_SIZE) ==> s2.Read(a) == s1.Read(a)
    requires forall a :: Outside(a, first + NEXT_FIELD, 8) && Outside(a, second + NEXT_FIELD, 8)
               ==> t.Read(a) == s2.Read(a)
    ensures KeptOutside(s0, t, first, second)
  {
  }

  lemma RingOfTwo(l: Layout, s: Cpu)
    requires l.Valid() && l.Task(1) && TwoTasks(l, l.tasks[0], l.tasks[1])
    requires s.Read(l.tasks[0] + 152) == l.tasks[1] && s.Read(l.tasks[1] + 152) == l.tasks[0]
    requires l.stacks[1].low + 8 <= s.Read(l.tasks[1] + 48) <= l.stacks[1].high
    ensures Inv(l, System(s, 0))
  {
    forall i | l.Task(i)
      ensures l.Placed(i) && Link(l, s, i) && (i != 0 ==> Ready(l, s, i))
    {
      assert l.Placed(i);
      assert i == 0 || i == 1;
    }
  }

  /** Calling `switchTask` writes the return address on the running task's own stack. */
  lemma CallComputes(l: Layout, s: System, t: System, from: int, to: int, returnAddress: int)
    requires Inv(l, s) && l.Placed(s.running) && from == l.tasks[s.running] && to == l.tasks[l.next[s.running]]
    requires l.stacks[s.running].low + 24 <= s.cpu.Get(RSP) <= l.stacks[s.running].high
    requires t == System(s.cpu.Set(RDI, from).Set(RSI, to).Exec(Call(returnAddress)), s.running)
    ensures Computes(l, s, t) && AtSwitch(l, t)
    ensures t.cpu.Get(RSP) == s.cpu.Get(RSP) - 8 && t.cpu.Read(t.cpu.Get(RSP)) == returnAddress
  {
    var top := s.cpu.Get(RSP) - 8;
    assert l.InStack(s.running, top);
    forall i, a | l.Task(i) && l.InTask(i, a)
      ensures t.cpu.Read(a) == s.cpu.Read(a)
    {
      assert l.Disjoint(i, s.running);
    }
    forall i, a | l.Task(i) && i != s.running && l.InStack(i, a)
      ensures t.cpu.Read(a) == s.cpu.Read(a)
    {
      assert l.Disjoint(i, s.running);
    }
  }
}
