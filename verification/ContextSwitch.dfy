/** Saving and restoring the state of a task on its kernel stack (src/context_switch.S, and the
    stack frame that task creation prepares in src/task.c). */
module ContextSwitch {
  import opened Base

  const STACK_SIZE: nat := 4096
  /** Six registers and a return address. */
  const FRAME: nat := 56

  /** Memory by 8-byte words at addresses that are multiples of 8. */
  type Words = map<nat, nat>

  function Load(mem: Words, a: nat): nat {
    if a in mem then mem[a] else 0
  }

  /** What a task must find again: the callee-saved registers, the stack pointer and the address
      where it goes on. */
  datatype Context = Context(rbp: nat, rbx: nat, r12: nat, r13: nat, r14: nat, r15: nat, rsp: nat, rip: nat)

  /** The context that is stored at `sp`. */
  function Frozen(mem: Words, sp: nat): Context {
    Context(Load(mem, sp + 40), Load(mem, sp + 32), Load(mem, sp + 24), Load(mem, sp + 16), Load(mem, sp + 8),
        Load(mem, sp),
            sp + FRAME, Load(mem, sp + 48))
  }

  /** The processor, memory, and the `rsp` fields of the task structures. When `context_switch` is
      called, the return address lies on top of the stack. */
  datatype Machine = Machine(mem: Words, cpu: Context, saved: map<nat, nat>, current: nat)

  /** The context with which the caller of `context_switch` has to go on. */
  function AtCall(m: Machine): Context {
    m.cpu.(rsp := m.cpu.rsp + 8, rip := Load(m.mem, m.cpu.rsp))
  }

  function Pushed(m: Machine): Words
    requires m.cpu.rsp >= 48
  {
    m.mem[m.cpu.rsp - 8 := m.cpu.rbp][m.cpu.rsp - 16 := m.cpu.rbx][m.cpu.rsp - 24 := m.cpu.r12]
         [m.cpu.rsp - 32 := m.cpu.r13][m.cpu.rsp - 40 := m.cpu.r14][m.cpu.rsp - 48 := m.cpu.r15]
  }

  /** The effect of `context_switch`: the old context is stored below the stack pointer, and the
      processor goes on with the context stored for `to`. */
  function Switched(m: Machine, to: nat): Machine
    requires m.cpu.rsp >= 48 && to in m.saved && to != m.current
  {
    var mem := Pushed(m);
    Machine(mem, Frozen(mem, m.saved[to]), m.saved[m.current := m.cpu.rsp - 48], to)
  }

  /** What is stored for the old task is what it has to go on with. */
  lemma SwitchSaves(m: Machine, to: nat)
    requires m.cpu.rsp >= 48 && to in m.saved && to != m.current
    ensures var m' := Switched(m, to); Frozen(m'.mem, m'.saved[m.current]) == AtCall(m)
  {
  }

  // ---------------------------------------------------------------- the code itself

  class Processor {
    var mem: Words
    var saved: map<nat, nat>
    var rbp: nat
    var rbx: nat
    var r12: nat
    var r13: nat
    var r14: nat
    var r15: nat
    var rsp: nat
    var rip: nat

    ghost function View(current: nat): Machine
      reads this
    {
      Machine(mem, Context(rbp, rbx, r12, r13, r14, r15, rsp, rip), saved, current)
    }

    constructor (m: Machine)
      ensures View(m.current) == m
    {
      mem, saved := m.mem, m.saved;
      rbp, rbx, r12, r13, r14, r15 := m.cpu.rbp, m.cpu.rbx, m.cpu.r12, m.cpu.r13, m.cpu.r14, m.cpu.r15;
      rsp, rip := m.cpu.rsp, m.cpu.rip;
    }

    /** `pushq`. */
    method Push(word: nat)
      requires rsp >= 8
      modifies this`mem, this`rsp
      ensures rsp == old(rsp) - 8 && mem == old(mem)[rsp := word]
    {
      rsp := rsp - 8;
      mem := mem[rsp := word];
    }

    /** `popq`, and the pop of `ret`. */
    method Pop() returns (word: nat)
      modifies this`rsp
      ensures rsp == old(rsp) + 8 && word == Load(mem, old(rsp))
    {
      word := Load(mem, rsp);
      rsp := rsp + 8;
    }

    /** `context_switch`. */
    method Switch(from: nat, to: nat)
      requires rsp >= 48 && to in saved && to != from
      modifies this
      ensures View(to) == Switched(old(View(from)), to)
    {
      hide Pushed, Frozen;
      Save(from);
      saved := saved[from := rsp];
      rsp := saved[to];
      Restore(to);
    }

    /** The six pushes. */
    method Save(ghost from: nat)
      requires rsp >= 48
      modifies this`mem, this`rsp
      ensures rsp == old(rsp) - 48 && mem == Pushed(old(View(from)))
    {
      Push(rbp);
      Push(rbx);
      Push(r12);
      Push(r13);
      Push(r14);
      Push(r15);
    }

    /** The six pops and the return. */
    method Restore(ghost to: nat)
      modifies this`rbp, this`rbx, this`r12, this`r13, this`r14, this`r15, this`rsp, this`rip
      ensures View(to).cpu == Frozen(mem, old(rsp))
    {
      hide Load;
      ghost var sp := rsp;
      RestoreExtended();
      rbx := Pop();
      rbp := Pop();
      rip := Pop();
      assert rsp == sp + FRAME;
    }

    method RestoreExtended()
      modifies this`r12, this`r13, this`r14, this`r15, this`rsp
      ensures rsp == old(rsp) + 32
      ensures r15 == Load(mem, old(rsp)) && r14 == Load(mem, old(rsp) + 8) && r13 == Load(mem, old(rsp) + 16)
        && r12 == Load(mem, old(rsp) + 24)
    {
      hide Load;
      r15 := Pop();
      r14 := Pop();
      r13 := Pop();
      r12 := Pop();
    }

    /** The end of task creation: the frame from which the first switch starts the task. */
    method PrepareStack(t: nat, stackBase: nat, trampoline: nat)
      modifies this`mem, this`saved
      ensures mem == Prepared(old(mem), stackBase, trampoline)
        && saved == old(saved)[t := stackBase + STACK_SIZE - FRAME]
      ensures Frozen(mem, saved[t]) == Context(0, 0, 0, 0, 0, 0, stackBase + STACK_SIZE, trampoline)
        && SameOutside(old(mem), mem, stackBase)
    {
      NewTaskStarts(mem, stackBase, trampoline);
      hide Frozen, SameOutside;
      var sp := stackBase + STACK_SIZE;
      sp := sp - 8;
      mem := mem[sp := trampoline];
      var i := 0;
      while i < 6
        invariant 0 <= i <= 6 && saved == old(saved) && sp == stackBase + STACK_SIZE - 8 - 8 * i
        invariant mem == Zeroed(old(mem)[stackBase + STACK_SIZE - 8 := trampoline], stackBase + STACK_SIZE - 8, i)
      {
        sp := sp - 8;
        mem := mem[sp := 0];
        i := i + 1;
      }
      saved := saved[t := sp];
    }
  }

  /** `n` words below `top` are zero. */
  function Zeroed(mem: Words, top: nat, n: nat): Words
    requires 8 * n <= top
  {
    if n == 0 then mem else Zeroed(mem, top, n - 1)[top - 8 * n := 0]
  }

  function Prepared(mem: Words, stackBase: nat, trampoline: nat): Words {
    Zeroed(mem[stackBase + STACK_SIZE - 8 := trampoline], stackBase + STACK_SIZE - 8, 6)
  }

  lemma {:induction false} ZeroedAt(mem: Words, top: nat, n: nat, a: nat)
    requires 8 * n <= top
    ensures a < top - 8 * n || a >= top ==> Load(Zeroed(mem, top, n), a) == Load(mem, a)
    ensures forall i: nat | 1 <= i <= n && a == top - 8 * i :: Load(Zeroed(mem, top, n), a) == 0
  {
    if n == 0 {
    } else {
      ZeroedAt(mem, top, n - 1, a);
    }
  }

  /** A new task starts in its trampoline with an empty stack and zeroed registers; only its own
      stack has been written. */
  lemma NewTaskStarts(mem: Words, stackBase: nat, trampoline: nat)
    ensures Frozen(Prepared(mem, stackBase, trampoline), stackBase + STACK_SIZE - FRAME)
            == Context(0, 0, 0, 0, 0, 0, stackBase + 4096, trampoline)
    ensures SameOutside(mem, Prepared(mem, stackBase, trampoline), stackBase)
  {
    var top := stackBase + STACK_SIZE - 8;
    var mem1 := mem[top := trampoline];
    forall a: nat ensures a < top - 48 || a >= top ==> Load(Prepared(mem, stackBase, trampoline), a) == Load(mem1, a) {
      ZeroedAt(mem1, top, 6, a);
    }
    forall i: nat | 1 <= i <= 6 ensures Load(Prepared(mem, stackBase, trampoline), top - 8 * i) == 0 {
      ZeroedAt(mem1, top, 6, top - 8 * i);
    }
    var sp := top - 48;
    assert sp == top - 8 * 6 && sp + 8 == top - 8 * 5 && sp + 16 == top - 8 * 4 && sp + 24 == top - 8 * 3
        && sp + 32 == top - 8 * 2 && sp + 40 == top - 8 * 1;
  }

  // ---------------------------------------------------------------- stacks and runs

  predicate InStack(stackBase: nat, a: nat) {
    stackBase <= a < stackBase + STACK_SIZE
  }

  /** Memory differs at most in one stack. */
  ghost predicate SameOutside(mem: Words, mem': Words, stackBase: nat) {
    forall a: nat | !InStack(stackBase, a) :: Load(mem', a) == Load(mem, a)
  }

  /** The kernel stacks of the tasks are disjoint. */
  predicate DisjointStacks(stacks: map<nat, nat>) {
    forall t, u | t in stacks && u in stacks && t != u ::
        stacks[t] + STACK_SIZE <= stacks[u] || stacks[u] + STACK_SIZE <= stacks[t]
  }

  /** Every task that is not running has its context stored in its own stack. */
  ghost predicate Valid(m: Machine, stacks: map<nat, nat>) {
    && DisjointStacks(stacks) && m.current in stacks
    && (forall t | t in m.saved && t != m.current :: t in stacks && Stored(m, stacks, t))
  }

  predicate Stored(m: Machine, stacks: map<nat, nat>, t: nat)
    requires t in m.saved && t in stacks
  {
    stacks[t] <= m.saved[t] && m.saved[t] + FRAME <= stacks[t] + STACK_SIZE
  }

  /** One step: the running task computes and changes registers and memory, but no other task's
      stack; it is switched out; it creates a task with a new stack; it reaps another task, whose
      structure and stack may be used again. */
  datatype Op = Work(mem: Words, cpu: Context) | SwitchTo(t: nat) | NewTask(t: nat, stackBase: nat,
      trampoline: nat) | Reap(t: nat)

  ghost predicate Enabled(m: Machine, stacks: map<nat, nat>, op: Op) {
    match op
    case Work(mem, cpu) => forall t, a: nat | t in stacks && t != m.current && InStack(stacks[t], a) ::
        Load(mem, a) == Load(m.mem, a)
    case SwitchTo(t) => t in m.saved && t != m.current && m.current in stacks && stacks[m.current] + 48 <= m.cpu.rsp
        && m.cpu.rsp + 8 <= stacks[m.current] + STACK_SIZE
    case NewTask(t, stackBase, trampoline) => t !in stacks && t !in m.saved && DisjointStacks(stacks[t := stackBase])
    case Reap(t) => t in m.saved && t != m.current
  }

  function Step(m: Machine, stacks: map<nat, nat>, op: Op): (Machine, map<nat, nat>)
    requires op.SwitchTo? ==> m.cpu.rsp >= 48 && op.t in m.saved && op.t != m.current
  {
    match op
    case Work(mem, cpu) => (m.(mem := mem, cpu := cpu), stacks)
    case SwitchTo(t) => (Switched(m, t), stacks)
    case NewTask(t, stackBase, trampoline) =>
      (m.(mem := Prepared(m.mem, stackBase, trampoline), saved := m.saved[t := stackBase + STACK_SIZE - FRAME]),
          stacks[t := stackBase])
    case Reap(t) => (m.(saved := m.saved - {t}), stacks - {t})
  }

  /** The run neither switches to task `t` nor reaps it. */
  predicate LeavesAlone(ops: seq<Op>, t: nat) {
    SwitchTo(t) !in ops && Reap(t) !in ops
  }

  /** A stored context outlives a change of memory outside its task's stack. */
  lemma FrozenKept(mem: Words, mem': Words, stackBase: nat, sp: nat)
    requires forall a: nat | InStack(stackBase, a) :: Load(mem', a) == Load(mem, a)
    requires stackBase <= sp && sp + FRAME <= stackBase + STACK_SIZE
    ensures Frozen(mem', sp) == Frozen(mem, sp)
  {
  }

  /** A switch writes into the stack of the old task only. */
  lemma PushedOutside(m: Machine, stackBase: nat)
    requires stackBase + 48 <= m.cpu.rsp <= stackBase + STACK_SIZE
    ensures SameOutside(m.mem, Pushed(m), stackBase)
  {
  }

  lemma StepValid(m: Machine, stacks: map<nat, nat>, op: Op)
    requires Valid(m, stacks) && Enabled(m, stacks, op)
    ensures var (m', stacks') := Step(m, stacks, op); Valid(m', stacks')
  {
    hide Frozen, Pushed, Prepared;
    assert op.SwitchTo? ==> Stored(m, stacks, op.t);
  }

  /** One step keeps the invariant, and the context of every task that stays switched out. */
  lemma StepKeeps(m: Machine, stacks: map<nat, nat>, op: Op, t: nat)
    requires Valid(m, stacks) && Enabled(m, stacks, op)
    requires t in m.saved && t != m.current && op != SwitchTo(t) && op != Reap(t)
    ensures var (m', stacks') := Step(m, stacks, op);
      && Valid(m', stacks') && t in m'.saved && t != m'.current
      && Frozen(m'.mem, m'.saved[t]) == Frozen(m.mem, m.saved[t])
  {
    hide Frozen, Valid, Enabled, DisjointStacks;
    StepValid(m, stacks, op);
    assert t in stacks && Stored(m, stacks, t) by { StoredAt(m, stacks, t); }
    match op
    case Work(mem, cpu) => WorkKeeps(m, stacks, mem, cpu, t);
    case SwitchTo(u) => SwitchKeeps(m, stacks, u, t);
    case NewTask(u, stackBase, trampoline) => NewTaskKeeps(m, stacks, u, stackBase, trampoline, t);
    case Reap(u) =>
  }

  lemma StoredAt(m: Machine, stacks: map<nat, nat>, t: nat)
    requires Valid(m, stacks) && t in m.saved && t != m.current
    ensures t in stacks && Stored(m, stacks, t)
  {
    hide DisjointStacks;
  }

  lemma WorkKeeps(m: Machine, stacks: map<nat, nat>, mem: Words, cpu: Context, t: nat)
    requires Enabled(m, stacks, Work(mem, cpu)) && t in stacks && t in m.saved && t != m.current && Stored(m, stacks, t)
    ensures Frozen(mem, m.saved[t]) == Frozen(m.mem, m.saved[t])
  {
    hide Frozen, Load;
    FrozenKept(m.mem, mem, stacks[t], m.saved[t]);
  }

  lemma SwitchKeeps(m: Machine, stacks: map<nat, nat>, u: nat, t: nat)
    requires Valid(m, stacks) && Enabled(m, stacks, SwitchTo(u)) && t in stacks && t in m.saved && t != m.current
      && Stored(m, stacks, t)
    ensures Frozen(Switched(m, u).mem, Switched(m, u).saved[t]) == Frozen(m.mem, m.saved[t])
  {
    hide Frozen, Pushed, Load;
    PushedOutside(m, stacks[m.current]);
    StacksApart(stacks, t, m.current);
    FrozenKept(m.mem, Pushed(m), stacks[t], m.saved[t]);
  }

  lemma NewTaskKeeps(m: Machine, stacks: map<nat, nat>, u: nat, stackBase: nat, trampoline: nat, t: nat)
    requires Enabled(m, stacks, NewTask(u, stackBase, trampoline)) && t in stacks && t in m.saved
      && Stored(m, stacks, t)
    ensures u != t && Frozen(Prepared(m.mem, stackBase, trampoline), m.saved[t]) == Frozen(m.mem, m.saved[t])
  {
    hide Frozen, Prepared, Load;
    NewTaskStarts(m.mem, stackBase, trampoline);
    StacksApart(stacks[u := stackBase], t, u);
    FrozenKept(m.mem, Prepared(m.mem, stackBase, trampoline), stacks[t], m.saved[t]);
  }

  lemma StacksApart(stacks: map<nat, nat>, t: nat, u: nat)
    requires DisjointStacks(stacks) && t in stacks && u in stacks && t != u
    ensures forall a: nat | InStack(stacks[t], a) :: !InStack(stacks[u], a)
  {
  }

  /** After a reap the stack may become that of a new task. */
  lemma StackReused(m: Machine, stacks: map<nat, nat>, t: nat, u: nat, trampoline: nat)
    requires Valid(m, stacks) && Enabled(m, stacks, Reap(t)) && u !in stacks - {t} && u !in m.saved - {t}
    ensures var (m', stacks') := Step(m, stacks, Reap(t)); Enabled(m', stacks', NewTask(u, stacks[t], trampoline))
  {
    assert Stored(m, stacks, t);
  }

  ghost predicate Run(m: Machine, stacks: map<nat, nat>, ops: seq<Op>)
    requires Valid(m, stacks)
    decreases |ops|
  {
    ops == [] || (Enabled(m, stacks, ops[0])
        && (StepValid(m, stacks, ops[0]); var (m', stacks') := Step(m, stacks, ops[0]); Run(m', stacks', ops[1..])))
  }

  ghost function After(m: Machine, stacks: map<nat, nat>, ops: seq<Op>): (r: (Machine, map<nat, nat>))
    requires Valid(m, stacks) && Run(m, stacks, ops)
    ensures Valid(r.0, r.1)
    decreases |ops|
  {
    if ops == [] then (m, stacks) else
    StepValid(m, stacks, ops[0]); var (m', stacks') := Step(m, stacks, ops[0]); After(m', stacks', ops[1..])
  }

  /** However long a task is switched out, whatever the others do, also with the structures and
      stacks of tasks that were reaped: the context stored for it stays what it was. */
  lemma {:induction false} ContextKept(m: Machine, stacks: map<nat, nat>, ops: seq<Op>, t: nat)
    requires Valid(m, stacks) && Run(m, stacks, ops) && t in m.saved && t != m.current && LeavesAlone(ops, t)
    ensures var (m', stacks') := After(m, stacks, ops);
      t in m'.saved && t != m'.current && Frozen(m'.mem, m'.saved[t]) == Frozen(m.mem, m.saved[t])
    decreases |ops|
  {
    hide Valid, Frozen;
    if ops == [] {
    } else {
      assert ops[0] in ops && forall o | o in ops[1..] :: o in ops;
      StepValid(m, stacks, ops[0]);
      StepKeeps(m, stacks, ops[0], t);
      var (m1, stacks1) := Step(m, stacks, ops[0]);
      ContextKept(m1, stacks1, ops[1..], t);
    }
  }

  /** A switch back to a task whose context is stored. */
  lemma SwitchBack(m: Machine, stacks: map<nat, nat>, t: nat)
    requires Valid(m, stacks) && Enabled(m, stacks, SwitchTo(t))
    ensures m.cpu.rsp >= 48 && t in m.saved && t != m.current && Switched(m, t).cpu == Frozen(m.mem, m.saved[t])
  {
    hide Frozen, Pushed, Load;
    StoredAt(m, stacks, t);
    PushedOutside(m, stacks[m.current]);
    StacksApart(stacks, t, m.current);
    FrozenKept(m.mem, Pushed(m), stacks[t], m.saved[t]);
  }

  /** A task that is switched out and later resumed gets back its registers, its stack pointer
      and its return address. */
  lemma Resumed(m: Machine, stacks: map<nat, nat>, to: nat, ops: seq<Op>)
    requires Valid(m, stacks) && Enabled(m, stacks, SwitchTo(to)) && Valid(Switched(m, to), stacks)
    requires Run(Switched(m, to), stacks, ops) && LeavesAlone(ops, m.current)
    requires var (m', stacks') := After(Switched(m, to), stacks, ops); Enabled(m', stacks', SwitchTo(m.current))
    ensures var (m', stacks') := After(Switched(m, to), stacks, ops);
      m'.cpu.rsp >= 48 && m.current in m'.saved && m.current != m'.current && Switched(m', m.current).cpu == AtCall(m)
  {
    hide Frozen, Pushed, AtCall, Valid, Run, After, LeavesAlone;
    var t := m.current;
    SwitchSaves(m, to);
    ContextKept(Switched(m, to), stacks, ops, t);
    var (m', stacks') := After(Switched(m, to), stacks, ops);
    SwitchBack(m', stacks', t);
  }

  /** A task that is created and later switched to for the first time starts in its trampoline
      with its whole stack. */
  lemma Started(m: Machine, stacks: map<nat, nat>, t: nat, stackBase: nat, trampoline: nat, ops: seq<Op>)
    requires Valid(m, stacks) && Enabled(m, stacks, NewTask(t, stackBase, trampoline)) && t != m.current
    requires var (m1, stacks1) := Step(m, stacks, NewTask(t, stackBase, trampoline));
      && Valid(m1, stacks1) && Run(m1, stacks1, ops) && LeavesAlone(ops, t)
      && var (m', stacks') := After(m1, stacks1, ops); Enabled(m', stacks', SwitchTo(t))
    ensures var (m1, stacks1) := Step(m, stacks, NewTask(t, stackBase, trampoline));
        var (m', stacks') := After(m1, stacks1, ops);
      && m'.cpu.rsp >= 48 && t in m'.saved && t != m'.current
      && Switched(m', t).cpu == Context(0, 0, 0, 0, 0, 0, stackBase + STACK_SIZE, trampoline)
  {
    hide Frozen, Pushed, Prepared, Valid, Enabled, Run, After, LeavesAlone, SameOutside;
    var (m1, stacks1) := Step(m, stacks, NewTask(t, stackBase, trampoline));
    NewTaskStarts(m.mem, stackBase, trampoline);
    ContextKept(m1, stacks1, ops, t);
    var (m', stacks') := After(m1, stacks1, ops);
    SwitchBack(m', stacks', t);
  }
}
