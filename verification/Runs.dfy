/** Runs of the operations of `KernelState`, in any order: what they do to the frames, and to the
    tasks (src/task.c, src/scheduler.c, src/timer.c). */
module Runs {
  import opened Accounts
  import opened Base
  import opened Processes
  import ElfFormat
  import Heap
  import Kernel
  import Lifecycle
  import Paging
  import Pmm
  import Tasks

  /** A kernel operation of the current task, or a timer interrupt. */
  datatype Command = CreateTask | CreateUser(code: seq<byte>) | CreateElf(file: seq<byte>)
                   | SetParent(child: Lifecycle.Ref) | Add(t: Lifecycle.Ref)
                   | Yield | TimerTick | Exit(status: int) | Wait

  /** What one command does: a step of the abstract state machine, or none, and a move of frames. */
  ghost predicate Effect(s: Lifecycle.Sys, op: Option<Lifecycle.Op>, s': Lifecycle.Sys) {
    && Lifecycle.Inv(s)
    && match op
       case None => s' == s
       case Some(o) => Lifecycle.Enabled(s, o) && s' == Lifecycle.Step(s, o)
  }

  function Ops(op: Option<Lifecycle.Op>): seq<Lifecycle.Op> {
    match op case None => [] case Some(o) => [o]
  }

  function Taken(steps: seq<Option<Lifecycle.Op>>): seq<Lifecycle.Op> {
    if steps == [] then [] else Taken(steps[..|steps| - 1]) + Ops(steps[|steps| - 1])
  }

  // ---------------------------------------------------------------- what a command means

  /** The step is taken if it is one that the current task may take. */
  ghost predicate IfEnabled(s: Lifecycle.Sys, o: Lifecycle.Op, op: Option<Lifecycle.Op>)
    requires Lifecycle.RingOk(s)
  {
    op == if Lifecycle.Enabled(s, o) then Some(o) else None
  }

  /** A child of the current task. */
  predicate ChildCreated(s: Lifecycle.Sys, op: Option<Lifecycle.Op>, t: Lifecycle.Ref)
    requires Lifecycle.RingOk(s)
  {
    op.Some? && op.value.CreateOp? && op.value.t == t && op.value.ppid == s.tasks[s.ring[0]].pid
  }

  /** The creation of a task. Nothing is created from a file that the loader rejects, and frames
      are lost exactly when pages of the program overlap. */
  ghost predicate Creates(s: Lifecycle.Sys, kernelCr3: nat, c: Command, op: Option<Lifecycle.Op>, e: Event)
    requires Lifecycle.RingOk(s)
  {
    match c
    case CreateTask => e.Created? && e.lost == {} && op == Some(Lifecycle.CreateOp(e.t, kernelCr3, 0))
    case CreateUser(code) => 0 < |code| <= PAGE_SIZE && e.Created? && e.lost == {} && ChildCreated(s, op, e.t)
    case CreateElf(file) =>
      && ElfFormat.Readable(file)
      && if !ElfFormat.Acceptable(file) then op == None && e == RejectedFile
         else e.Created? && ChildCreated(s, op, e.t) && (e.lost == {} <==> NoOverlap(ElfFormat.Segments(file)))
    case _ => false
  }

  /** The first child in the list that has ended is reaped. */
  function WaitEvent(s: Lifecycle.Sys): Event
    requires Lifecycle.RingOk(s)
  {
    match Lifecycle.FirstZombie(s, s.tasks[s.ring[0]].kids)
    case Some(z) => ReapedTask(z)
    case None => Quiet
  }

  /** What command `c` comes to in state `s`. The conditions are those under which the kernel's
      code calls the operation: a task inside `task_wait` goes on there, the idle task neither waits
      nor ends, a task is queued once, and a live child without a parent is adopted. Otherwise
      nothing happens. */
  ghost predicate Asked(s: Lifecycle.Sys, kernelCr3: nat, c: Command, op: Option<Lifecycle.Op>, e: Event) {
    && Lifecycle.RingOk(s)
    && match c
       case TimerTick => e == Quiet && op == Some(Lifecycle.TickOp)
       case Wait => if s.ring[0] == s.idle then e == Quiet && op == None
                    else e == WaitEvent(s) && op == Some(Lifecycle.WaitOp)
       case Yield => e == Quiet && IfEnabled(s, Lifecycle.YieldOp, op)
       case Exit(status) => e == Quiet && IfEnabled(s, Lifecycle.ExitOp(status), op)
       case SetParent(child) => e == Quiet && IfEnabled(s, Lifecycle.SetParentOp(child), op)
       case Add(t) => e == Quiet && IfEnabled(s, Lifecycle.AddOp(t), op)
       case _ => if s.tasks[s.ring[0]].waiting then e == Quiet && op == None else Creates(s, kernelCr3, c, op, e)
  }

  predicate Creation(c: Command) {
    c.CreateTask? || c.CreateUser? || c.CreateElf?
  }

  /** Code for which `task_create_user` fails its ASSERT. */
  predicate BadCode(c: Command) {
    c.CreateUser? && !(0 < |c.code| <= PAGE_SIZE)
  }

  /** The commands so far, each with the states around it, its step, and its event. */
  ghost predicate History(kernelCr3: nat, commands: seq<Command>, states: seq<Lifecycle.Sys>,
                          steps: seq<Option<Lifecycle.Op>>, events: seq<Event>) {
    && |steps| == |events| <= |commands| && |states| == |events| + 1
    && forall i | 0 <= i < |events| ::
        && Effect(states[i], steps[i], states[i + 1])
        && Asked(states[i], kernelCr3, commands[i], steps[i], events[i])
  }

  lemma HistoryMore(kernelCr3: nat, commands: seq<Command>, states: seq<Lifecycle.Sys>,
                    steps: seq<Option<Lifecycle.Op>>, events: seq<Event>, op: Option<Lifecycle.Op>, e: Event,
                    s': Lifecycle.Sys)
    requires History(kernelCr3, commands, states, steps, events) && |events| < |commands|
    requires Effect(states[|events|], op, s') && Asked(states[|events|], kernelCr3, commands[|events|], op, e)
    ensures History(kernelCr3, commands, states + [s'], steps + [op], events + [e])
    ensures Taken(steps + [op]) == Taken(steps) + Ops(op)
  {
    hide Effect, Asked;
    var states', steps', events' := states + [s'], steps + [op], events + [e];
    assert steps'[..|steps|] == steps;
    forall i | 0 <= i < |events'|
      ensures Effect(states'[i], steps'[i], states'[i + 1])
        && Asked(states'[i], kernelCr3, commands[i], steps'[i], events'[i])
    {
      if i < |events| {
        assert Effect(states[i], steps[i], states[i + 1])
            && Asked(states[i], kernelCr3, commands[i], steps[i], events[i]);
      }
    }
  }

  /** From state `s0` to `s`: a run of the state machine, and the moves of frames, step by step. */
  ghost predicate Trace(s0: Lifecycle.Sys, s: Lifecycle.Sys, ops: seq<Lifecycle.Op>,
                        owners: seq<Owners>, frees: seq<set<nat>>, events: seq<Event>) {
    && Lifecycle.Inv(s0) && Lifecycle.Run(s0, ops) && s == Lifecycle.After(s0, ops)
    && FrameRun(owners, frees, events)
  }

  lemma TraceStart(s: Lifecycle.Sys, owner: Owners, free: set<nat>)
    requires Lifecycle.Inv(s) && owner.Keys !! free
    ensures Trace(s, s, [], [owner], [free], [])
  {
    hide Lifecycle.Inv;
  }

  lemma TraceMore(s0: Lifecycle.Sys, s: Lifecycle.Sys, ops: seq<Lifecycle.Op>, owners: seq<Owners>,
                  frees: seq<set<nat>>,
                  events: seq<Event>, op: Option<Lifecycle.Op>, s': Lifecycle.Sys, e: Event, owner: Owners,
                      free: set<nat>)
    requires Trace(s0, s, ops, owners, frees, events) && Effect(s, op, s')
    requires Moves(owners[|events|], frees[|events|], e, owner, free)
    ensures Trace(s0, s', ops + Ops(op), owners + [owner], frees + [free], events + [e])
    ensures |owners| == |events| + 1 == |frees|
  {
    hide Lifecycle.Inv, Lifecycle.Run, Lifecycle.After, Lifecycle.Enabled, Lifecycle.Step, Moves;
    if op.Some? { Lifecycle.RunMore(s0, ops, op.value); } else { assert ops + [] == ops; }
    var owners', frees', events' := owners + [owner], frees + [free], events + [e];
    forall i | 0 <= i < |events'| ensures Moves(owners'[i], frees'[i], events'[i], owners'[i + 1], frees'[i + 1]) {
      if i < |events| { assert Moves(owners[i], frees[i], events[i], owners[i + 1], frees[i + 1]); }
    }
  }

  /** Whether a structure is in the run queue, by the scan that `task_find_by_pid` makes. */
  method OnQueue(tasks: Tasks.TaskTable, t: Lifecycle.Ref) returns (found: bool)
    requires tasks.Valid()
    ensures found <==> t in tasks.sys.ring
  {
    hide Lifecycle.Inv, Tasks.Links, Tasks.FieldsOk, Tasks.ChainsOk, Lifecycle.NoDup;
    ghost var ring := tasks.sys.ring;
    RingFacts(tasks);
    var u := tasks.current;
    ghost var k := 0;
    while true
      invariant 0 <= k < |ring| && u == ring[k] && u in tasks.store && t !in ring[..k]
      decreases |ring| - k
    {
      if u == t { return true; }
      Tasks.NextAlong(tasks.store, ring, k);
      assert ring[..k + 1] == ring[..k] + [ring[k]];
      u := tasks.store[u].next;
      if u == tasks.current {
        CameAround(tasks.store, ring, k);
        assert ring[..k + 1] == ring;
        return false;
      }
      k := k + 1;
    }
  }

  lemma RingFacts(tasks: Tasks.TaskTable)
    requires tasks.Valid()
    ensures var ring := tasks.sys.ring;
      |ring| > 0 && ring[0] == tasks.current && tasks.current in tasks.store && Tasks.Links(tasks.store, ring)
          && Lifecycle.NoDup(ring)
  {
    hide Tasks.FieldsOk, Tasks.ChainsOk, Lifecycle.NoDup, Lifecycle.StatesOk, Lifecycle.FamilyOk, Lifecycle.WakeOk,
        Lifecycle.PidsOk;
    Tasks.NextAlong(tasks.store, tasks.sys.ring, 0);
  }

  lemma CameAround(store: Tasks.Store, ring: seq<Lifecycle.Ref>, k: nat)
    requires Lifecycle.NoDup(ring) && Tasks.Links(store, ring) && k < |ring| && ring[k] in store
      && store[ring[k]].next == ring[0]
    ensures k + 1 == |ring|
  {
    Tasks.NextAlong(store, ring, k);
  }

  // ---------------------------------------------------------------- single commands

  lemma StepDone(s: Lifecycle.Sys, op: Lifecycle.Op)
    requires Lifecycle.Inv(s) && Lifecycle.Enabled(s, op)
    ensures Effect(s, Some(op), Lifecycle.Step(s, op))
    ensures Lifecycle.Waiters(Lifecycle.Step(s, op)) ==
      if !op.WaitOp? then Lifecycle.Waiters(s)
      else if Lifecycle.Blocks(s) then Lifecycle.Waiters(s) + {s.ring[0]} else Lifecycle.Waiters(s) - {s.ring[0]}
  {
    hide Lifecycle.Inv, Lifecycle.Enabled, Lifecycle.Step;
    Lifecycle.StepWaiters(s, op);
  }

  lemma CreateDone(s: Lifecycle.Sys, t: Lifecycle.Ref, cr3: nat, ppid: nat)
    requires Lifecycle.Inv(s) && Lifecycle.Inv(Lifecycle.Create(s, t, cr3, ppid)) && t !in s.tasks
    requires s.ring[0] !in Lifecycle.Waiters(s)
    ensures var op := Lifecycle.CreateOp(t, cr3, ppid); var s' := Lifecycle.Create(s, t, cr3, ppid);
      Effect(s, Some(op), s') && Lifecycle.Waiters(s') == Lifecycle.Waiters(s)
  {
    hide Lifecycle.NoDup, Lifecycle.FamilyOk, Lifecycle.WakeOk, Lifecycle.PidsOk;
    assert t in Lifecycle.Create(s, t, cr3, ppid).tasks;
    StepDone(s, Lifecycle.CreateOp(t, cr3, ppid));
  }

  lemma SetParentDone(s: Lifecycle.Sys, child: Lifecycle.Ref)
    requires Lifecycle.Inv(s) && Lifecycle.RingOk(s) && Lifecycle.Enabled(s, Lifecycle.SetParentOp(child))
    ensures var s' := Lifecycle.SetParent(s, child);
      Effect(s, Some(Lifecycle.SetParentOp(child)), s') && Lifecycle.Waiters(s') == Lifecycle.Waiters(s)
  {
    hide Lifecycle.Inv, Lifecycle.RingOk, Lifecycle.SetParent, Effect, Lifecycle.Waiters;
    StepDone(s, Lifecycle.SetParentOp(child));
  }

  lemma AddDone(s: Lifecycle.Sys, t: Lifecycle.Ref)
    requires Lifecycle.Inv(s) && Lifecycle.RingOk(s) && Lifecycle.Enabled(s, Lifecycle.AddOp(t))
    ensures var s' := Lifecycle.Add(s, t);
        Effect(s, Some(Lifecycle.AddOp(t)), s') && Lifecycle.Waiters(s') == Lifecycle.Waiters(s)
  {
    hide Lifecycle.Inv, Lifecycle.RingOk, Lifecycle.Add, Effect, Lifecycle.Waiters;
    StepDone(s, Lifecycle.AddOp(t));
  }

  lemma YieldDone(s: Lifecycle.Sys)
    requires Lifecycle.Inv(s) && Lifecycle.RingOk(s) && Lifecycle.Enabled(s, Lifecycle.YieldOp)
    ensures var s' := Lifecycle.Yield(s);
        Effect(s, Some(Lifecycle.YieldOp), s') && Lifecycle.Waiters(s') == Lifecycle.Waiters(s)
  {
    hide Lifecycle.Inv, Lifecycle.RingOk, Lifecycle.Yield, Effect, Lifecycle.Waiters;
    StepDone(s, Lifecycle.YieldOp);
  }

  lemma TickDone(s: Lifecycle.Sys)
    requires Lifecycle.Inv(s) && Lifecycle.RingOk(s)
    ensures var s' := Lifecycle.Tick(s);
        Effect(s, Some(Lifecycle.TickOp), s') && Lifecycle.Waiters(s') == Lifecycle.Waiters(s)
  {
    hide Lifecycle.Inv, Lifecycle.RingOk, Lifecycle.Tick, Effect, Lifecycle.Waiters;
    StepDone(s, Lifecycle.TickOp);
  }

  lemma ExitDone(s: Lifecycle.Sys, status: int)
    requires Lifecycle.Inv(s) && Lifecycle.RingOk(s) && Lifecycle.Enabled(s, Lifecycle.ExitOp(status))
    requires Lifecycle.RingOk(Lifecycle.Ended(s, status))
    ensures var s' := Lifecycle.Exit(s, status);
      Effect(s, Some(Lifecycle.ExitOp(status)), s') && Lifecycle.Waiters(s') == Lifecycle.Waiters(s)
  {
    hide Lifecycle.Inv, Lifecycle.RingOk, Lifecycle.Exit, Lifecycle.Ended, Effect, Lifecycle.Waiters;
    StepDone(s, Lifecycle.ExitOp(status));
  }

  /** After a step of `task_wait`, the task is inside exactly if nothing was returned. */
  lemma WaitDone(s: Lifecycle.Sys, s': Lifecycle.Sys, pid: Option<int>, status: Option<int>,
                 z: Option<Lifecycle.Ref>)
    requires Waited(s, s', pid, status, z) && Lifecycle.RingOk(s)
    ensures Effect(s, Some(Lifecycle.WaitOp), s')
    ensures Lifecycle.Waiters(s') == if pid.None? then Lifecycle.Waiters(s) + {s.ring[0]}
        else Lifecycle.Waiters(s) - {s.ring[0]}
  {
    hide Lifecycle.Inv, Lifecycle.Wait, Lifecycle.RingOk, Effect, Lifecycle.Waiters, Lifecycle.FirstZombie;
    StepDone(s, Lifecycle.WaitOp);
  }

  lemma TableFacts(tasks: Tasks.TaskTable)
    requires tasks.Valid()
    ensures Lifecycle.Inv(tasks.sys) && Lifecycle.RingOk(tasks.sys) && tasks.sys.ring[0] == tasks.current
    ensures tasks.sys.idle == tasks.idle && tasks.store.Keys == tasks.sys.tasks.Keys && tasks.current in tasks.store
    ensures tasks.current in Lifecycle.Waiters(tasks.sys) <==> tasks.sys.tasks[tasks.current].waiting
    ensures forall t | t in tasks.store ::
      tasks.store[t].parent == tasks.sys.tasks[t].parent && tasks.store[t].state == tasks.sys.tasks[t].state
  {
    hide Tasks.Links, Tasks.ChainsOk, Lifecycle.NoDup, Lifecycle.StatesOk, Lifecycle.FamilyOk, Lifecycle.WakeOk,
        Lifecycle.PidsOk;
    forall t | t in tasks.store
      ensures tasks.store[t].parent == tasks.sys.tasks[t].parent && tasks.store[t].state == tasks.sys.tasks[t].state
    {
      Tasks.FieldsAt(tasks.store, tasks.sys.tasks, t);
    }
  }

  class Machine {
    const kernel: KernelState
    /** The tasks that are inside `task_wait`, as their stacks show. */
    var inside: set<Lifecycle.Ref>

    ghost predicate Valid()
      reads this, kernel, kernel.res, kernel.res.pmm, kernel.res.pmm.bitmap, kernel.res.machine, kernel.res.heap,
          kernel.tasks
    {
      kernel.Valid() && inside == Lifecycle.Waiters(kernel.tasks.sys)
    }

    constructor (kernel: KernelState)
      requires kernel.Valid() && Lifecycle.Waiters(kernel.tasks.sys) == {}
      ensures Valid() && this.kernel == kernel
    {
      hide KernelState.Valid, Lifecycle.Waiters;
      this.kernel, inside := kernel, {};
    }

    /** From state `s` with these frames, the command has been executed: the step `op` has been taken,
        and `e` says what became of the frames. */
    ghost predicate Did(s: Lifecycle.Sys, owner0: Owners, free0: set<nat>, c: Command, op: Option<Lifecycle.Op>,
                        e: Event)
      reads this, kernel, kernel.res, kernel.res.pmm, kernel.res.pmm.bitmap, kernel.res.machine, kernel.res.heap,
          kernel.tasks
    {
      && Valid() && Effect(s, op, kernel.tasks.sys) && Asked(s, kernel.res.kernel * PAGE_SIZE, c, op, e)
      && Moves(owner0, free0, e, kernel.res.owner, kernel.res.pmm.free)
    }

    /** The three ways to create a task; none is created for a rejected file. */
    method Make(c: Command) returns (halted: bool, ghost op: Option<Lifecycle.Op>, ghost e: Event)
      requires kernel.Valid() && (c.CreateElf? ==> Sound(c.file)) && Creation(c) && Lifecycle.RingOk(kernel.tasks.sys)
      modifies kernel.tasks, kernel.res`owner, kernel.res.machine`mem, kernel.res.pmm`freeFrames, kernel.res.pmm`free,
               kernel.res.pmm.bitmap, kernel.res.heap`cells, kernel.res.heap`arenas
      ensures halted ==> kernel.res.pmm.free == {} || BadCode(c)
      ensures !halted ==> kernel.Valid() && Creates(old(kernel.tasks.sys), kernel.res.kernel * PAGE_SIZE, c, op, e)
                          && Moves(old(kernel.res.owner), old(kernel.res.pmm.free), e, kernel.res.owner,
                                   kernel.res.pmm.free)
      ensures !halted && op.None? ==> kernel.tasks.sys == old(kernel.tasks.sys)
      ensures !halted && op.Some? ==>
                op.value.CreateOp? && op.value.t !in old(kernel.tasks.store)
                && kernel.tasks.sys ==
                     Lifecycle.Create(old(kernel.tasks.sys), op.value.t, op.value.cr3, op.value.ppid)
    {
      hide KernelState.Valid, Gained, UserImage, Loaded, NoOverlap, Kernel.Stable, Lifecycle.Create, Sound, HeapAll,
          ElfFormat.Acceptable, ElfFormat.Segments, Lifecycle.NoDup;
      halted, op, e := false, None, RejectedFile;
      ghost var s := kernel.tasks.sys;
      ghost var ppid := s.tasks[s.ring[0]].pid;
      match c {
        case CreateTask =>
          var r := kernel.CreateTask();
          if r.Halted? { return true, None, Quiet; }
          op, e := Some(Lifecycle.CreateOp(r.value, kernel.res.kernel * PAGE_SIZE, 0)), Created(r.value, {});
        case CreateUser(code) =>
          var r := kernel.CreateUser(code);
          if r.Halted? { return true, None, Quiet; }
          op := Some(Lifecycle.CreateOp(r.value, kernel.tasks.store[r.value].cr3, ppid));
          e := Created(r.value, {});
        case CreateElf(file) =>
          SoundReadable(file);
          var r;
          ghost var lost;
          r, lost := kernel.CreateElf(file);
          if r.Halted? { return true, None, Quiet; }
          if r.value.Some? {
            op := Some(Lifecycle.CreateOp(r.value.value, kernel.tasks.store[r.value.value].cr3, ppid));
            e := Created(r.value.value, lost);
          }
      }
    }

    /** The same as a step. */
    method Create(c: Command) returns (halted: bool, ghost op: Option<Lifecycle.Op>, ghost e: Event)
      requires Valid() && (c.CreateElf? ==> Sound(c.file)) && Creation(c)
      requires kernel.tasks.current !in inside
      modifies this, kernel.tasks, kernel.res`owner, kernel.res.machine`mem, kernel.res.pmm`freeFrames,
          kernel.res.pmm`free,
               kernel.res.pmm.bitmap, kernel.res.heap`cells, kernel.res.heap`arenas
      ensures halted ==> kernel.res.pmm.free == {} || BadCode(c)
      ensures !halted ==> Did(old(kernel.tasks.sys), old(kernel.res.owner), old(kernel.res.pmm.free), c, op, e)
    {
      hide Kernel.Resources.Working, Tasks.TaskTable.Valid, Effect, Creates, Lifecycle.Core, Lifecycle.Inv,
          Lifecycle.Waiters, Sound, Lifecycle.RingOk, HandFrames, Moves, Lifecycle.Create;
      TableFacts(kernel.tasks);
      ghost var s := kernel.tasks.sys;
      NothingDone(s);
      halted, op, e := Make(c);
      if halted { return; }
      TableFacts(kernel.tasks);
      if op.Some? { CreateDone(s, op.value.t, op.value.cr3, op.value.ppid); }
    }

    /** `task_wait`, called or gone on with. */
    method Wait() returns (ghost op: Option<Lifecycle.Op>, ghost e: Event)
      requires Valid()
      modifies this, kernel.tasks, kernel.res`owner, kernel.res.machine`mem, kernel.res.pmm`freeFrames,
          kernel.res.pmm`free,
               kernel.res.pmm.bitmap, kernel.res.heap`cells, kernel.res.heap`arenas
      ensures Did(old(kernel.tasks.sys), old(kernel.res.owner), old(kernel.res.pmm.free), Command.Wait, op, e)
    {
      hide Kernel.Resources.Working, Tasks.TaskTable.Valid, Effect, Gained, Lifecycle.Core, Lifecycle.Inv,
          Lifecycle.Waiters, Sound,
           Lifecycle.RingOk, Lifecycle.Step, Lifecycle.Yield, Lifecycle.Tick, Lifecycle.Exit, Lifecycle.Wait,
               TaskFrames, UserImage,
           Loaded, NoOverlap, Kernel.Stable, Lifecycle.FirstZombie, HandFrames;
      op, e := None, Quiet;
      TableFacts(kernel.tasks);
      ghost var s := kernel.tasks.sys;
      NothingDone(s);
      var cur := kernel.tasks.current;
      if cur == kernel.tasks.idle { return; }
      var pid, status;
      ghost var z;
      pid, status, z := kernel.Wait();
      WaitDone(s, kernel.tasks.sys, pid, status, z);
      inside := if pid.None? then inside + {cur} else inside - {cur};
      op := Some(Lifecycle.WaitOp);
      e := if z.Some? then ReapedTask(z.value) else Quiet;
    }

    /** A task is adopted or queued. */
    method Link(c: Command) returns (ghost op: Option<Lifecycle.Op>)
      requires Valid() && (c.SetParent? || c.Add?) && kernel.tasks.current !in inside
      modifies kernel.tasks
      ensures Did(old(kernel.tasks.sys), old(kernel.res.owner), old(kernel.res.pmm.free), c, op, Quiet)
    {
      hide Kernel.Resources.Working, Tasks.TaskTable.Valid, Effect, Gained, Lifecycle.Core, Lifecycle.Inv,
          Lifecycle.Waiters, Sound,
           Lifecycle.RingOk, Lifecycle.Step, Lifecycle.Yield, Lifecycle.Tick, Lifecycle.Exit, Lifecycle.Wait,
               TaskFrames, UserImage,
           Loaded, NoOverlap, Kernel.Stable, Lifecycle.FirstZombie, HandFrames;
      op := None;
      TableFacts(kernel.tasks);
      ghost var s := kernel.tasks.sys;
      NothingDone(s);
      match c {
        case SetParent(child) =>
          if child in kernel.tasks.store && child != kernel.tasks.current
              && kernel.tasks.store[child].parent == Lifecycle.NULL
             && kernel.tasks.store[child].state != Lifecycle.Zombie {
            kernel.SetParent(child);
            op := Some(Lifecycle.SetParentOp(child));
            SetParentDone(s, child);
          }
        case Add(t) =>
          var queued := OnQueue(kernel.tasks, t);
          if t in kernel.tasks.store && !queued {
            kernel.Add(t);
            op := Some(Lifecycle.AddOp(t));
            AddDone(s, t);
          }
      }
    }

    /** The current task gives up the CPU, or ends. */
    method Leave(c: Command) returns (ghost op: Option<Lifecycle.Op>)
      requires Valid() && (c.TimerTick? || ((c.Yield? || c.Exit?) && kernel.tasks.current !in inside))
      modifies kernel.tasks
      ensures Did(old(kernel.tasks.sys), old(kernel.res.owner), old(kernel.res.pmm.free), c, op, Quiet)
    {
      hide Kernel.Resources.Working, Tasks.TaskTable.Valid, Effect, Gained, Lifecycle.Core, Lifecycle.Inv,
          Lifecycle.Waiters, Sound,
           Lifecycle.RingOk, Lifecycle.Step, Lifecycle.Yield, Lifecycle.Tick, Lifecycle.Exit, Lifecycle.Wait,
               TaskFrames, UserImage,
           Loaded, NoOverlap, Kernel.Stable, Lifecycle.FirstZombie, HandFrames;
      op := None;
      TableFacts(kernel.tasks);
      ghost var s := kernel.tasks.sys;
      NothingDone(s);
      match c {
        case Yield =>
          kernel.Yield();
          op := Some(Lifecycle.YieldOp);
          YieldDone(s);
        case TimerTick =>
          kernel.TimerTick();
          op := Some(Lifecycle.TickOp);
          TickDone(s);
        case Exit(status) =>
          if kernel.tasks.current != kernel.tasks.idle {
            kernel.Exit(status);
            op := Some(Lifecycle.ExitOp(status));
            ExitDone(s, status);
          }
      }
    }

    /** One command, as `Asked` says. The kernel halts in a creation only: when no frame is free, or
        for code that is empty or too long. */
    method Execute(c: Command) returns (halted: bool, ghost op: Option<Lifecycle.Op>, ghost e: Event)
      requires Valid() && (c.CreateElf? ==> Sound(c.file))
      modifies this, kernel.tasks, kernel.res`owner, kernel.res.machine`mem, kernel.res.pmm`freeFrames,
          kernel.res.pmm`free,
               kernel.res.pmm.bitmap, kernel.res.heap`cells, kernel.res.heap`arenas
      ensures halted ==> Creation(c) && (kernel.res.pmm.free == {} || BadCode(c))
      ensures !halted ==> Did(old(kernel.tasks.sys), old(kernel.res.owner), old(kernel.res.pmm.free), c, op, e)
    {
      hide Did, Valid, Sound, Effect, Moves;
      halted, op, e := false, None, Quiet;
      if c.Wait? {
        op, e := Wait();
      } else if c.TimerTick? {
        op := Leave(c);
      } else if kernel.tasks.current in inside {
        Skipped(c);
      } else if c.Yield? || c.Exit? {
        op := Leave(c);
      } else if c.SetParent? || c.Add? {
        op := Link(c);
      } else {
        halted, op, e := Create(c);
      }
    }

    lemma Skipped(c: Command)
      requires Valid() && kernel.tasks.current in inside && !c.TimerTick? && !c.Wait?
      ensures Did(kernel.tasks.sys, kernel.res.owner, kernel.res.pmm.free, c, None, Quiet)
    {
      hide Kernel.Resources.Working, Tasks.TaskTable.Valid, Effect, Lifecycle.Inv, Lifecycle.Waiters,
          Lifecycle.RingOk, HandFrames;
      TableFacts(kernel.tasks);
      NothingDone(kernel.tasks.sys);
    }

    /** Any number of commands. Up to the end, or to a halt in a creation for which no frame is free
        or the code is bad, every command does what `Asked` says; what has happened is a run of
        the state machine of `Lifecycle`, so that its theorems hold of it; and every frame that was
        free is free, the heap's, lost, or owned by a task that the run created and has not reaped. */
    method Run(commands: seq<Command>)
        returns (halted: bool, ghost states: seq<Lifecycle.Sys>, ghost steps: seq<Option<Lifecycle.Op>>,
            ghost owners: seq<Owners>, ghost frees: seq<set<nat>>, ghost events: seq<Event>)
      requires Valid() && forall c | c in commands && c.CreateElf? :: Sound(c.file)
      modifies this, kernel.tasks, kernel.res`owner, kernel.res.machine`mem, kernel.res.pmm`freeFrames,
          kernel.res.pmm`free,
               kernel.res.pmm.bitmap, kernel.res.heap`cells, kernel.res.heap`arenas
      ensures History(kernel.res.kernel * PAGE_SIZE, commands, states, steps, events)
              && states[0] == old(kernel.tasks.sys)
      ensures Trace(states[0], states[|events|], Taken(steps), owners, frees, events)
              && owners[0] == old(kernel.res.owner) && frees[0] == old(kernel.res.pmm.free)
      ensures halted ==> |events| < |commands| && Creation(commands[|events|])
                         && (kernel.res.pmm.free == {} || BadCode(commands[|events|]))
      ensures !halted ==> |events| == |commands| && Valid() && states[|events|] == kernel.tasks.sys
                          && owners[|events|] == kernel.res.owner && frees[|events|] == kernel.res.pmm.free
      ensures !halted && OwnReaps(events) && Alive(events, |events|) == {} ==>
                AllBack(old(kernel.res.owner), old(kernel.res.pmm.free), kernel.res.owner, kernel.res.pmm.free,
                    LostIn(events, |events|))
    {
      hide KernelState.Valid, Effect, Asked, Moves, Sound, OwnReaps, Alive, LostIn, AllBack, Trace, History, Taken;
      ghost var s0, owner0, free0 := kernel.tasks.sys, kernel.res.owner, kernel.res.pmm.free;
      states, steps, owners, frees, events := [s0], [], [owner0], [free0], [];
      KernelFacts(kernel);
      TraceStart(s0, owner0, free0);
      HistoryStart(kernel.res.kernel * PAGE_SIZE, commands, s0);
      for i := 0 to |commands|
        invariant Valid() && |events| == i && |states| == i + 1 && states[0] == s0 && states[i] == kernel.tasks.sys
        invariant History(kernel.res.kernel * PAGE_SIZE, commands, states, steps, events)
        invariant Trace(s0, kernel.tasks.sys, Taken(steps), owners, frees, events)
        invariant |owners| == |events| + 1 == |frees| && owners[0] == owner0 && frees[0] == free0
        invariant owners[|events|] == kernel.res.owner && frees[|events|] == kernel.res.pmm.free
      {
        ghost var s, op, e := kernel.tasks.sys, None, Quiet;
        halted, op, e := Execute(commands[i]);
        if halted { return; }
        TraceMore(s0, s, Taken(steps), owners, frees, events, op, kernel.tasks.sys, e, kernel.res.owner,
                  kernel.res.pmm.free);
        HistoryMore(kernel.res.kernel * PAGE_SIZE, commands, states, steps, events, op, e, kernel.tasks.sys);
        states, steps, events := states + [kernel.tasks.sys], steps + [op], events + [e];
        owners, frees := owners + [kernel.res.owner], frees + [kernel.res.pmm.free];
      }
      halted := false;
      if OwnReaps(events) && Alive(events, |events|) == {} {
        TraceFrames(s0, kernel.tasks.sys, Taken(steps), owners, frees, events);
      }
    }
  }

  /** From boot: the scheduler is initialized, and the commands are executed. As long as the PIDs
      have not wrapped around, no PID is returned by two waits, and every return tells about the
      exit of a child of the waiter that is gone. */
  method BootAndRun(pmm: Pmm.FrameAllocator, machine: Paging.Machine, heap: Heap.KernelHeap, kernel: nat,
                    commands: seq<Command>)
      returns (m: Outcome<Machine>, ghost states: seq<Lifecycle.Sys>, ghost steps: seq<Option<Lifecycle.Op>>,
          ghost events: seq<Event>)
    requires machine.pmm == pmm && heap.pmm == pmm && machine.Valid() && heap.Valid() && kernel != 0
      && pmm.frameCount <= Paging.ADDR_FRAMES
    requires BootTables(machine.mem, kernel, pmm.free, heap.arenas)
    requires forall i, f | 0 <= i < |heap.arenas| && f in Heap.Frames(heap.arenas[i]) :: f < pmm.frameCount
    requires forall c | c in commands && c.CreateElf? :: Sound(c.file)
    modifies pmm`freeFrames, pmm`free, pmm.bitmap, heap`cells, heap`arenas, machine`mem
    ensures m.Halted? ==> pmm.free == {} || exists c :: c in commands && BadCode(c)
    ensures m.Done? ==>
      && m.value.Valid() && History(kernel * PAGE_SIZE, commands, states, steps, events) && |events| == |commands|
      && (exists boot, idle :: states[0] == Lifecycle.Boot(boot, idle, kernel * PAGE_SIZE))
      && states[|commands|] == m.value.kernel.tasks.sys
    ensures m.Done? ==> var s := m.value.kernel.tasks.sys; s.created <= Lifecycle.PID_SPACE ==> Lifecycle.WaitsOk(s)
  {
    hide pmm.Valid, heap.Shape, BootTables, Heap.Frames, KernelState.Valid, Sound, History, Taken, Trace,
        Lifecycle.Boot,
        Lifecycle.WaitsOk, OwnReaps, Alive, LostIn, AllBack, Machine.Valid;
    states, steps, events := [], [], [];
    var k := StartKernel(pmm, machine, heap, kernel);
    if k.Halted? { return Halted, states, steps, events; }
    ghost var boot, idle :| boot in k.value.tasks.store && idle in k.value.tasks.store
      && k.value.tasks.sys == Lifecycle.Boot(boot, idle, kernel * PAGE_SIZE);
    NobodyWaits(boot, idle, kernel * PAGE_SIZE);
    var state := new Machine(k.value);
    var halted;
    ghost var owners, frees;
    halted, states, steps, owners, frees, events := state.Run(commands);
    if halted { return Halted, states, steps, events; }
    m := Done(state);
    if state.kernel.tasks.sys.created <= Lifecycle.PID_SPACE {
      RunWaits(boot, idle, kernel * PAGE_SIZE, state.kernel.tasks.sys, Taken(steps), owners, frees, events);
    }
  }

  lemma NobodyWaits(boot: Lifecycle.Ref, idle: Lifecycle.Ref, kernelCr3: nat)
    ensures Lifecycle.Waiters(Lifecycle.Boot(boot, idle, kernelCr3)) == {}
  {
  }

  lemma RunWaits(boot: Lifecycle.Ref, idle: Lifecycle.Ref, kernelCr3: nat, s: Lifecycle.Sys, ops: seq<Lifecycle.Op>,
                 owners: seq<Owners>, frees: seq<set<nat>>, events: seq<Event>)
    requires Trace(Lifecycle.Boot(boot, idle, kernelCr3), s, ops, owners, frees, events)
    requires s.created <= Lifecycle.PID_SPACE
    ensures Lifecycle.WaitsOk(s)
  {
    hide Lifecycle.Inv, Lifecycle.Boot, Lifecycle.Run, Lifecycle.After, Lifecycle.WaitsOk, FrameRun;
    Lifecycle.BootTasks(boot, idle, kernelCr3);
    Lifecycle.WaitsOnce(boot, idle, kernelCr3, ops);
  }

  lemma HistoryStart(kernelCr3: nat, commands: seq<Command>, s: Lifecycle.Sys)
    ensures History(kernelCr3, commands, [s], [], []) && Taken([]) == []
  {
  }

  lemma SoundReadable(file: seq<byte>)
    requires Sound(file)
    ensures ElfFormat.Readable(file)
  {
  }

  /** Every frame that was free is free again, but for new heap arenas and the frames in `lost`;
      all other frames have the owner they had. */
  ghost predicate AllBack(owner0: Owners, free0: set<nat>, owner: Owners, free: set<nat>, lost: set<nat>) {
    && free <= free0 && lost <= free0 - free
    && (forall f | f in free0 - free && f !in lost :: f in owner && owner[f] == HeapArena)
    && (forall f | f in owner0 :: f in owner && owner[f] == owner0[f])
  }

  lemma TraceFrames(s0: Lifecycle.Sys, s: Lifecycle.Sys, ops: seq<Lifecycle.Op>, owners: seq<Owners>,
                    frees: seq<set<nat>>,
                    events: seq<Event>)
    requires Trace(s0, s, ops, owners, frees, events) && OwnReaps(events) && Alive(events, |events|) == {}
    ensures |owners| == |events| + 1 == |frees|
    ensures AllBack(owners[0], frees[0], owners[|events|], frees[|events|], LostIn(events, |events|))
  {
    hide OwnReaps, Alive, LostIn, FrameRun, Lifecycle.Inv, Lifecycle.Run, Lifecycle.After;
    RunLengths(owners, frees, events);
    FramesComeBack(owners, frees, events);
  }

  lemma KernelFacts(kernel: KernelState)
    requires kernel.Valid()
    ensures Lifecycle.Inv(kernel.tasks.sys) && kernel.res.owner.Keys !! kernel.res.pmm.free
  {
    hide BooksOk;
    BooksParts(kernel.res.TheBooks(kernel.tasks.store));
  }

  lemma NothingDone(s: Lifecycle.Sys)
    requires Lifecycle.Inv(s)
    ensures Effect(s, None, s)
  {
  }
}
