/** Processes and the scheduler as a state machine over atomic kernel steps (src/task.c,
    src/scheduler.c, src/timer.c). Tasks are known by the address of their structure. */
module Lifecycle {
  import opened Base

  type Ref = nat
  const NULL: Ref := 0
  const SLICE: nat := 5
  const PID_SPACE: nat := 0x1_0000_0000

  datatype State = Ready | Running | Blocked | Zombie

  /** A task. `kids` lists its children, newest first; `waiting` says that the task is inside
      `task_wait`. */
  datatype Task = Task(state: State, pid: nat, ppid: nat, parent: Ref, kids: seq<Ref>, code: int,
                       ticks: nat, cr3: nat, waiting: bool)

  /** A call of `task_exit`: who ended, how, and under which parent. */
  datatype ExitRecord = ExitRecord(pid: nat, code: int, parent: nat)

  /** A successful return of `task_wait`. */
  datatype WaitRecord = WaitRecord(waiter: nat, pid: nat, code: int)

  /** `ring` is the run queue in cyclic order, starting at the current task; `loaded` is the CR3
      register; `created` counts the tasks ever created, the first of which got PID 0. */
  datatype Sys = Sys(ring: seq<Ref>, tasks: map<Ref, Task>, idle: Ref, loaded: nat, created: nat,
                     exits: set<ExitRecord>, waits: seq<WaitRecord>)
  {
    function Current(): Ref
      requires |ring| > 0
    {
      ring[0]
    }
  }

  // ---------------------------------------------------------------- invariant

  predicate NoDup<T(==)>(s: seq<T>) {
    forall i, j :: 0 <= i < j < |s| ==> s[i] != s[j]
  }

  /** The run queue is one cycle of live tasks that contains the idle task; every ended task is
      still in it, and a task outside it has not started. */
  ghost predicate RingOk(s: Sys) {
    && |s.ring| > 0 && NoDup(s.ring) && NULL !in s.tasks && s.idle in s.ring
    && (forall t | t in s.ring :: t in s.tasks)
    && (forall t | t in s.tasks && t !in s.ring :: s.tasks[t].state == Ready && !s.tasks[t].waiting)
  }

  /** States other than the current task's. */
  ghost predicate StatesOk(s: Sys)
    requires |s.ring| > 0
  {
    && (forall t | t in s.tasks && t != s.Current() :: s.tasks[t].state != Running)
    && (forall t | t in s.tasks :: s.tasks[t].state == Blocked ==> s.tasks[t].waiting)
    && (forall t | t in s.tasks :: s.tasks[t].state == Zombie ==> s.tasks[t].kids == [] && !s.tasks[t].waiting)
    && (forall t | t in s.tasks :: s.tasks[t].cr3 != 0)
    && s.idle in s.tasks && s.tasks[s.idle].state != Blocked && s.tasks[s.idle].state != Zombie
    && !s.tasks[s.idle].waiting
  }

  /** Child lists have no repetition, `c` is in p's list iff `c.parent` is p, and no parent or
      child pointer refers to a task that is gone. */
  ghost predicate FamilyOk(s: Sys) {
    KidsOk(s) && ParentsOk(s)
  }

  ghost predicate KidsOk(s: Sys) {
    && (forall p | p in s.tasks :: NoDup(s.tasks[p].kids))
    && (forall p, c | p in s.tasks && c in s.tasks[p].kids :: c in s.tasks && s.tasks[c].parent == p)
  }

  ghost predicate ParentsOk(s: Sys) {
    && (forall c | c in s.tasks :: s.tasks[c].parent != c)
    && (forall c | c in s.tasks && s.tasks[c].parent != NULL ::
          s.tasks[c].parent in s.tasks && c in s.tasks[s.tasks[c].parent].kids)
  }

  ghost predicate HasZombie(s: Sys, p: Ref)
    requires p in s.tasks
  {
    exists c :: c in s.tasks[p].kids && c in s.tasks && s.tasks[c].state == Zombie
  }

  /** No lost wakeup: a task inside `task_wait` has a child, and it is blocked exactly when none
      of its children has ended. */
  ghost predicate WakeOk(s: Sys) {
    forall p | p in s.tasks && s.tasks[p].waiting ::
      s.tasks[p].kids != [] && (s.tasks[p].state == Blocked <==> !HasZombie(s, p))
  }

  /** While PIDs have not wrapped around: they are unique, also against those of reaped tasks,
      and every exit and wait record tells about one task. */
  ghost predicate PidsOk(s: Sys) {
    s.created <= PID_SPACE ==> TaskPids(s) && ExitsOk(s) && WaitsOk(s)
  }

  ghost predicate TaskPids(s: Sys) {
    && (forall t | t in s.tasks :: s.tasks[t].pid < s.created)
    && (forall t, u | t in s.tasks && u in s.tasks && s.tasks[t].pid == s.tasks[u].pid :: t == u)
  }

  /** A PID ends once; an ended task in a family has its exit on record, under that parent. */
  ghost predicate ExitsOk(s: Sys) {
    && (forall t | t in s.tasks && s.tasks[t].state == Zombie && s.tasks[t].parent in s.tasks ::
          ExitRecord(s.tasks[t].pid, s.tasks[t].code, s.tasks[s.tasks[t].parent].pid) in s.exits)
    && (forall e | e in s.exits :: e.pid < s.created)
    && (forall e, t | e in s.exits && t in s.tasks && s.tasks[t].pid == e.pid :: s.tasks[t].state == Zombie)
    && (forall e, e' | e in s.exits && e' in s.exits && e.pid == e'.pid :: e == e')
  }

  /** A PID is returned by one wait at most, after the exit that the record tells about, to the
      parent of that exit; the task is gone by then. */
  ghost predicate WaitsOk(s: Sys) {
    && (forall i | 0 <= i < |s.waits| :: ExitRecord(s.waits[i].pid, s.waits[i].code, s.waits[i].waiter) in s.exits)
    && (forall i, t | 0 <= i < |s.waits| && t in s.tasks :: s.tasks[t].pid != s.waits[i].pid)
    && (forall i, j | 0 <= i < j < |s.waits| :: s.waits[i].pid != s.waits[j].pid)
  }

  /** What holds even in the middle of a step, before the scheduler has picked the next task. */
  ghost predicate Core(s: Sys) {
    && RingOk(s) && StatesOk(s) && FamilyOk(s) && WakeOk(s) && PidsOk(s)
    && s.loaded == s.tasks[s.Current()].cr3
  }

  /** The invariant between steps: also, the current task is the one that is Running, and it has
      some of its slice left. */
  ghost predicate Inv(s: Sys) {
    && Core(s)
    && s.tasks[s.Current()].state == Running
    && 1 <= s.tasks[s.Current()].ticks <= SLICE
  }

  // ---------------------------------------------------------------- steps

  predicate Stops(s: Sys, t: Ref) {
    t == s.idle || (t in s.tasks && (s.tasks[t].state == Ready || s.tasks[t].state == Running))
  }

  /** The first ring index, from `e` on, whose task the scheduler stops at. */
  function FirstStop(s: Sys, e: nat): (r: nat)
    requires 1 <= e <= |s.ring|
    ensures e <= r <= |s.ring|
    ensures forall i | e <= i < r :: !Stops(s, s.ring[i])
    ensures r < |s.ring| ==> Stops(s, s.ring[r])
    decreases |s.ring| - e
  {
    if e == |s.ring| || Stops(s, s.ring[e]) then e else FirstStop(s, e + 1)
  }

  function Rotate(ring: seq<Ref>, e: nat): seq<Ref>
    requires e <= |ring|
  {
    ring[e..] + ring[..e]
  }

  function WithState(s: Sys, t: Ref, st: State): map<Ref, Task>
    requires t in s.tasks
  {
    s.tasks[t := s.tasks[t].(state := st)]
  }

  /** `scheduler_yield`: the current task gives up the CPU to the next task in the ring that is
      ready to run, or to the idle task. */
  function Yield(s: Sys): Sys
    requires RingOk(s)
  {
    var e := FirstStop(s, 1);
    var ring := Rotate(s.ring, e);
    var old_, next := s.ring[0], ring[0];
    var tasks := if s.tasks[old_].state == Running then WithState(s, old_, Ready) else s.tasks;
    assert next in s.ring by { if e < |s.ring| { assert next == s.ring[e]; } }
    s.(ring := ring,
       tasks := tasks[next := tasks[next].(state := Running, ticks := SLICE)],
       loaded := if next == old_ then s.loaded else tasks[next].cr3)
  }

  /** The two states agree on everything but the ring order, slices, and who is ready or running. */
  ghost predicate SameLife(s: Sys, s': Sys) {
    && s'.tasks.Keys == s.tasks.Keys && s'.idle == s.idle && s'.created == s.created
    && s'.exits == s.exits && s'.waits == s.waits
    && (forall t | t in s.tasks :: SameTask(s.tasks[t], s'.tasks[t]))
  }

  predicate SameTask(t: Task, t': Task) {
    && t' == t.(state := t'.state, ticks := t'.ticks)
    && (t'.state == Blocked <==> t.state == Blocked)
    && (t'.state == Zombie <==> t.state == Zombie)
  }

  lemma SameLifeZombies(s: Sys, s': Sys, p: Ref)
    requires SameLife(s, s') && p in s.tasks
    ensures HasZombie(s', p) <==> HasZombie(s, p)
  {
    assert SameTask(s.tasks[p], s'.tasks[p]);
    if HasZombie(s', p) {
      var c :| c in s'.tasks[p].kids && c in s'.tasks && s'.tasks[c].state == Zombie;
      assert SameTask(s.tasks[c], s'.tasks[c]);
    }
    if HasZombie(s, p) {
      var c :| c in s.tasks[p].kids && c in s.tasks && s.tasks[c].state == Zombie;
      assert SameTask(s.tasks[c], s'.tasks[c]);
    }
  }

  lemma SameLifeFamily(s: Sys, s': Sys)
    requires SameLife(s, s') && FamilyOk(s)
    ensures FamilyOk(s')
  {
    hide NoDup;
    assert forall t | t in s'.tasks :: SameTask(s.tasks[t], s'.tasks[t]);
  }

  lemma SameLifeWake(s: Sys, s': Sys)
    requires SameLife(s, s') && WakeOk(s)
    ensures WakeOk(s')
  {
    hide HasZombie;
    forall p | p in s'.tasks && s'.tasks[p].waiting
      ensures s'.tasks[p].kids != [] && (s'.tasks[p].state == Blocked <==> !HasZombie(s', p))
    {
      assert SameTask(s.tasks[p], s'.tasks[p]);
      SameLifeZombies(s, s', p);
    }
  }

  lemma SameLifePids(s: Sys, s': Sys)
    requires SameLife(s, s') && PidsOk(s)
    ensures PidsOk(s')
  {
    assert forall t | t in s'.tasks :: SameTask(s.tasks[t], s'.tasks[t]);
  }

  lemma RotateNoDup(ring: seq<Ref>, e: nat)
    requires NoDup(ring) && e <= |ring| && |ring| > 0
    ensures NoDup(Rotate(ring, e)) && |Rotate(ring, e)| == |ring|
    ensures forall t :: t in Rotate(ring, e) <==> t in ring
    ensures Rotate(ring, e)[0] == if e < |ring| then ring[e] else ring[0]
    ensures forall i | 0 <= i < |ring| ::
        Rotate(ring, e)[i] == if i + e < |ring| then ring[i + e] else ring[i + e - |ring|]
  {
    var r := Rotate(ring, e);
    forall i | 0 <= i < |ring| ensures r[i] == if i + e < |ring| then ring[i + e] else ring[i + e - |ring|] { }
    forall t ensures t in r <==> t in ring {
      if t in ring {
        var j :| 0 <= j < |ring| && ring[j] == t;
        assert r[if j >= e then j - e else j + |ring| - e] == t;
      }
    }
  }

  /** The scheduler stops at a task that is ready or running. */
  lemma YieldTarget(s: Sys)
    requires RingOk(s) && StatesOk(s)
    ensures var e := FirstStop(s, 1); var next := if e < |s.ring| then s.ring[e] else s.ring[0];
      && next in s.tasks && s.tasks[next].state != Blocked && s.tasks[next].state != Zombie
      && (next == s.ring[0] <==> e == |s.ring|)
      && |Rotate(s.ring, e)| == |s.ring| && Rotate(s.ring, e)[0] == next
  {
    var e := FirstStop(s, 1);
    if e == |s.ring| {
      var k :| 0 <= k < |s.ring| && s.ring[k] == s.idle;
      if k > 0 { assert Stops(s, s.ring[k]); }
    }
  }

  /** What a yield does to each task. */
  lemma YieldEffect(s: Sys)
    requires Core(s)
    ensures var s' := Yield(s);
      && SameLife(s, s')
      && s'.ring == Rotate(s.ring, FirstStop(s, 1)) && |s'.ring| > 0
      && (forall t | t in s.tasks && t != s.ring[0] && t != s'.ring[0] :: s'.tasks[t] == s.tasks[t])
      && s'.ring[0] in s.tasks && s'.tasks[s'.ring[0]].state == Running && s'.tasks[s'.ring[0]].ticks == SLICE
      && (s'.ring[0] != s.ring[0] ==> s'.tasks[s.ring[0]].state != Running)
      && s'.loaded == s'.tasks[s'.ring[0]].cr3
  {
    hide FamilyOk, WakeOk, PidsOk, NoDup, FirstStop, Rotate;
    YieldTarget(s);
  }

  lemma YieldKeeps(s: Sys)
    requires Core(s)
    ensures Inv(Yield(s))
  {
    hide FamilyOk, WakeOk, PidsOk, Rotate, FirstStop, Yield, NoDup;
    var s' := Yield(s);
    YieldEffect(s);
    RotateNoDup(s.ring, FirstStop(s, 1));
    SameLifeFamily(s, s');
    SameLifeWake(s, s');
    SameLifePids(s, s');
    SameLifeRing(s, s');
  }

  lemma SameLifeRing(s: Sys, s': Sys)
    requires SameLife(s, s') && RingOk(s) && StatesOk(s) && |s'.ring| > 0 && NoDup(s'.ring)
    requires forall t :: t in s'.ring <==> t in s.ring
    requires forall t | t in s.tasks && t != s'.ring[0] :: s'.tasks[t].state != Running
    requires forall t | t in s.tasks && t !in s.ring :: s'.tasks[t].state == Ready
    ensures RingOk(s') && StatesOk(s')
  {
    hide NoDup;
    assert forall t | t in s'.tasks :: SameTask(s.tasks[t], s'.tasks[t]);
  }

  /** The scheduler is round robin: the ring turns to the first task that can run, or to the idle
      task; that one runs on its own address space for five ticks, and nobody behind it changes. */
  lemma RoundRobin(s: Sys) returns (e: nat)
    requires Inv(s)
    ensures var s' := Yield(s);
      && 1 <= e <= |s.ring| && s'.ring == s.ring[e..] + s.ring[..e]
      && (forall i | 1 <= i < e :: s.ring[i] in s.tasks && s.ring[i] != s.idle
            && s.tasks[s.ring[i]].state in {Blocked, Zombie})
      && s'.ring[0] in s.tasks && s.tasks[s'.ring[0]].state !in {Blocked, Zombie} && s'.ring[0] in s'.tasks
      && s'.tasks[s'.ring[0]] == s.tasks[s'.ring[0]].(state := Running, ticks := 5)
      && s'.loaded == s.tasks[s'.ring[0]].cr3
      && (forall t | t in s.tasks && t != s.ring[0] && t != s'.ring[0] :: t in s'.tasks && s'.tasks[t] == s.tasks[t])
  {
    hide FamilyOk, WakeOk, PidsOk, NoDup, FirstStop, Yield;
    var s' := Yield(s);
    e := FirstStop(s, 1);
    YieldEffect(s);
    YieldTarget(s);
    assert s'.ring == s.ring[e..] + s.ring[..e];
    assert SameTask(s.tasks[s'.ring[0]], s'.tasks[s'.ring[0]]);
    forall i | 1 <= i < e ensures s.ring[i] in s.tasks && s.ring[i] != s.idle
      && s.tasks[s.ring[i]].state in {Blocked, Zombie} {
      assert !Stops(s, s.ring[i]);
    }
  }

  // ---------------------------------------------------------------- ticks and the run queue

  function WithTicks(s: Sys, ticks: nat): Sys
    requires RingOk(s)
  {
    s.(tasks := s.tasks[s.ring[0] := s.tasks[s.ring[0]].(ticks := ticks)])
  }

  /** The timer branch of `irq_handler`: one tick off the running task's slice; when the slice is
      used up, the scheduler runs. */
  function Tick(s: Sys): Sys
    requires RingOk(s)
  {
    var t := s.tasks[s.ring[0]];
    if t.state != Running then s else
    var left := if t.ticks > 0 then t.ticks - 1 else 0;
    if left == 0 then Yield(WithTicks(s, 0)) else WithTicks(s, left)
  }

  lemma WithTicksKeeps(s: Sys, ticks: nat)
    requires Core(s)
    ensures Core(WithTicks(s, ticks))
  {
    hide FamilyOk, WakeOk, PidsOk, NoDup;
    var s' := WithTicks(s, ticks);
    SameLifeFamily(s, s');
    SameLifeWake(s, s');
    SameLifePids(s, s');
    SameLifeRing(s, s');
  }

  lemma TickKeeps(s: Sys)
    requires Inv(s)
    ensures Inv(Tick(s))
  {
    hide StatesOk, FamilyOk, WakeOk, PidsOk, NoDup, Yield;
    WithTicksKeeps(s, s.tasks[s.ring[0]].ticks - 1);
    if s.tasks[s.ring[0]].ticks == 1 { YieldKeeps(WithTicks(s, 0)); }
  }

  /** `scheduler_add`: the task goes right behind the current one. */
  function Add(s: Sys, t: Ref): Sys
    requires |s.ring| > 0
  {
    s.(ring := [s.ring[0], t] + s.ring[1..])
  }

  lemma AddKeeps(s: Sys, t: Ref)
    requires Inv(s) && t in s.tasks && t !in s.ring
    ensures Inv(Add(s, t))
  {
    hide NoDup, FamilyOk, WakeOk, PidsOk;
    var s' := Add(s, t);
    SameLifeFamily(s, s');
    SameLifeWake(s, s');
    SameLifePids(s, s');
    Inserted(s.ring, t);
  }

  lemma Inserted(ring: seq<Ref>, t: Ref)
    requires |ring| > 0 && NoDup(ring) && t !in ring
    ensures NoDup([ring[0], t] + ring[1..])
    ensures forall u :: u in [ring[0], t] + ring[1..] <==> u == t || u in ring
  {
    assert ring == [ring[0]] + ring[1..];
  }

  // ---------------------------------------------------------------- creation and families

  /** A new task structure: ready, in no queue and in no family. */
  function Create(s: Sys, t: Ref, cr3: nat, ppid: nat): Sys {
    s.(tasks := s.tasks[t := Task(Ready, s.created % PID_SPACE, ppid, NULL, [], 0, SLICE, cr3, false)],
       created := s.created + 1)
  }

  lemma CreateKeeps(s: Sys, t: Ref, cr3: nat, ppid: nat)
    requires Inv(s) && t !in s.tasks && t != NULL && cr3 != 0
    ensures Inv(Create(s, t, cr3, ppid))
  {
    hide NoDup, RingOk, StatesOk, KidsOk, ParentsOk, WakeOk, PidsOk;
    CreateRing(s, t, cr3, ppid);
    CreateFamily(s, t, cr3, ppid);
    CreateWake(s, t, cr3, ppid);
    CurrentKnown(s);
    CreatePids(s, t, cr3, ppid);
  }

  lemma CurrentKnown(s: Sys)
    requires RingOk(s)
    ensures |s.ring| > 0 && s.ring[0] in s.tasks && NULL !in s.tasks
  {
  }

  lemma CreateRing(s: Sys, t: Ref, cr3: nat, ppid: nat)
    requires RingOk(s) && StatesOk(s) && t !in s.tasks && t != NULL && cr3 != 0
    ensures RingOk(Create(s, t, cr3, ppid)) && StatesOk(Create(s, t, cr3, ppid))
  {
    hide NoDup;
  }

  lemma CreateFamily(s: Sys, t: Ref, cr3: nat, ppid: nat)
    requires FamilyOk(s) && t !in s.tasks && t != NULL
    ensures FamilyOk(Create(s, t, cr3, ppid))
  {
    hide NoDup, KidsOk, ParentsOk;
    NoDupEmpty();
    var s' := Create(s, t, cr3, ppid);
    forall u | u in s'.tasks ensures KidsGood(s', u) && ParentGood(s', u) {
      if u in s.tasks { FamilyAt(s, u); }
    }
    FamilyIntro(s');
  }

  lemma CreatePids(s: Sys, t: Ref, cr3: nat, ppid: nat)
    requires PidsOk(s) && ParentsOk(s) && t !in s.tasks && NULL !in s.tasks && t != NULL
    ensures PidsOk(Create(s, t, cr3, ppid))
  {
    hide NoDup;
    var s' := Create(s, t, cr3, ppid);
    if s'.created <= PID_SPACE {
      hide TaskPids, ExitsOk, WaitsOk;
      CreateTaskPids(s, t, cr3, ppid);
      CreateExits(s, t, cr3, ppid);
      CreateWaits(s, t, cr3, ppid);
    }
  }

  lemma CreateTaskPids(s: Sys, t: Ref, cr3: nat, ppid: nat)
    requires TaskPids(s) && t !in s.tasks && s.created < PID_SPACE
    ensures TaskPids(Create(s, t, cr3, ppid))
  {
  }

  lemma CreateExits(s: Sys, t: Ref, cr3: nat, ppid: nat)
    requires ExitsOk(s) && ParentsOk(s) && t !in s.tasks && NULL !in s.tasks && t != NULL && s.created < PID_SPACE
    ensures ExitsOk(Create(s, t, cr3, ppid))
  {
    hide NoDup;
  }

  lemma CreateWaits(s: Sys, t: Ref, cr3: nat, ppid: nat)
    requires WaitsOk(s) && ExitsOk(s) && t !in s.tasks && s.created < PID_SPACE
    ensures WaitsOk(Create(s, t, cr3, ppid))
  {
  }

  lemma NoDupEmpty()
    ensures NoDup<Ref>([])
  {
  }

  lemma CreateWake(s: Sys, t: Ref, cr3: nat, ppid: nat)
    requires WakeOk(s) && KidsOk(s) && t !in s.tasks
    ensures WakeOk(Create(s, t, cr3, ppid))
  {
    hide NoDup;
    var s' := Create(s, t, cr3, ppid);
    forall p | p in s'.tasks && s'.tasks[p].waiting
      ensures s'.tasks[p].kids != [] && (s'.tasks[p].state == Blocked <==> !HasZombie(s', p))
    {
      assert forall c | c in s.tasks[p].kids :: c in s.tasks && c != t;
      assert HasZombie(s', p) <==> HasZombie(s, p);
    }
  }

  /** `task_set_parent` with the current task as the parent: the child goes to the head of its
      list. */
  function SetParent(s: Sys, c: Ref): Sys
    requires RingOk(s) && c in s.tasks
  {
    var p := s.ring[0];
    var tasks := s.tasks[c := s.tasks[c].(parent := p, ppid := s.tasks[p].pid)];
    s.(tasks := tasks[p := tasks[p].(kids := [c] + tasks[p].kids)])
  }

  lemma SetParentKeeps(s: Sys, c: Ref)
    requires Inv(s) && !s.tasks[s.ring[0]].waiting
    requires c in s.tasks && c != s.ring[0] && s.tasks[c].parent == NULL && s.tasks[c].state != Zombie
    ensures Inv(SetParent(s, c))
  {
    hide NoDup, StatesOk, FamilyOk, WakeOk, PidsOk;
    SetParentRing(s, c);
    SetParentFamily(s, c);
    SetParentWake(s, c);
    SetParentPids(s, c);
  }

  lemma SetParentRing(s: Sys, c: Ref)
    requires RingOk(s) && StatesOk(s) && s.tasks[s.ring[0]].state == Running && c in s.tasks
    ensures RingOk(SetParent(s, c)) && StatesOk(SetParent(s, c))
  {
    hide NoDup;
    CurrentKnown(s);
    var s' := SetParent(s, c);
    assert s'.ring == s.ring && s'.tasks.Keys == s.tasks.Keys && s'.idle == s.idle;
    assert forall t | t in s.tasks ::
      s'.tasks[t].state == s.tasks[t].state && s'.tasks[t].waiting == s.tasks[t].waiting
          && s'.tasks[t].cr3 == s.tasks[t].cr3
      && (t != s.ring[0] ==> s'.tasks[t].kids == s.tasks[t].kids);
    hide SetParent;
  }

  /** The family of `p` alone: its children, and its own parent. */
  ghost predicate KidsGood(s: Sys, p: Ref)
    requires p in s.tasks
  {
    NoDup(s.tasks[p].kids) && forall c | c in s.tasks[p].kids :: c in s.tasks && s.tasks[c].parent == p
  }

  ghost predicate ParentGood(s: Sys, c: Ref)
    requires c in s.tasks
  {
    s.tasks[c].parent != c
    && (s.tasks[c].parent != NULL ==> s.tasks[c].parent in s.tasks && c in s.tasks[s.tasks[c].parent].kids)
  }

  lemma FamilyAt(s: Sys, t: Ref)
    requires KidsOk(s) && ParentsOk(s) && t in s.tasks
    ensures KidsGood(s, t) && ParentGood(s, t)
  {
    hide NoDup;
  }

  lemma FamilyIntro(s: Sys)
    requires forall t | t in s.tasks :: KidsGood(s, t) && ParentGood(s, t)
    ensures FamilyOk(s)
  {
    hide NoDup;
  }

  /** A change that touches neither parents nor child lists. */
  lemma SameFamily(s: Sys, s': Sys)
    requires FamilyOk(s) && s'.tasks.Keys == s.tasks.Keys
    requires forall t | t in s.tasks :: s'.tasks[t].kids == s.tasks[t].kids && s'.tasks[t].parent == s.tasks[t].parent
    ensures FamilyOk(s')
  {
    hide NoDup, KidsOk, ParentsOk;
    forall t | t in s'.tasks ensures KidsGood(s', t) && ParentGood(s', t) { FamilyAt(s, t); }
    FamilyIntro(s');
  }

  /** The tasks of `SetParent`, one by one. */
  lemma SetParentTasks(s: Sys, c: Ref)
    requires RingOk(s) && c in s.tasks && c != s.ring[0]
    ensures var s' := SetParent(s, c); var p := s.ring[0];
      && p in s.tasks && s'.tasks.Keys == s.tasks.Keys
      && s'.created == s.created && s'.exits == s.exits && s'.waits == s.waits
      && (forall t | t in s.tasks :: s'.tasks[t].kids == (if t == p then [c] + s.tasks[t].kids else s.tasks[t].kids)
            && s'.tasks[t].parent == (if t == c then p else s.tasks[t].parent)
            && s'.tasks[t].pid == s.tasks[t].pid && s'.tasks[t].state == s.tasks[t].state
            && s'.tasks[t].code == s.tasks[t].code)
  {
    hide NoDup;
  }

  lemma SetParentFamily(s: Sys, c: Ref)
    requires RingOk(s) && FamilyOk(s) && c in s.tasks && c != s.ring[0] && s.tasks[c].parent == NULL
    ensures FamilyOk(SetParent(s, c))
  {
    hide RingOk, NoDup, KidsOk, ParentsOk, SetParent;
    CurrentKnown(s);
    SetParentTasks(s, c);
    var p, s' := s.ring[0], SetParent(s, c);
    FamilyAt(s, p);
    NoDupCons(c, s.tasks[p].kids);
    forall t | t in s'.tasks ensures KidsGood(s', t) && ParentGood(s', t) { FamilyAt(s, t); }
    FamilyIntro(s');
  }

  lemma NoDupCons(c: Ref, kids: seq<Ref>)
    requires NoDup(kids) && c !in kids
    ensures NoDup([c] + kids)
  {
  }

  /** Neither PIDs nor records change, nor who has ended in which family. */
  ghost predicate SameRecords(s: Sys, s': Sys) {
    && s'.tasks.Keys == s.tasks.Keys && s'.created == s.created && s'.exits == s.exits && s'.waits == s.waits
    && (forall t | t in s.tasks :: s'.tasks[t].pid == s.tasks[t].pid && s'.tasks[t].code == s.tasks[t].code
          && (s'.tasks[t].state == Zombie <==> s.tasks[t].state == Zombie)
          && (s.tasks[t].state == Zombie ==> s'.tasks[t].parent == s.tasks[t].parent))
  }

  lemma SamePids(s: Sys, s': Sys)
    requires PidsOk(s) && SameRecords(s, s')
    ensures PidsOk(s')
  {
    hide TaskPids, ExitsOk, WaitsOk;
    if s'.created <= PID_SPACE {
      assert TaskPids(s') by { SameTaskPids(s, s'); }
      assert ExitsOk(s') by { SameExits(s, s'); }
      assert WaitsOk(s') by { SameWaits(s, s'); }
    }
  }

  lemma SameTaskPids(s: Sys, s': Sys)
    requires TaskPids(s) && SameRecords(s, s')
    ensures TaskPids(s')
  {
  }

  lemma SameExits(s: Sys, s': Sys)
    requires ExitsOk(s) && SameRecords(s, s')
    ensures ExitsOk(s')
  {
  }

  lemma SameWaits(s: Sys, s': Sys)
    requires WaitsOk(s) && SameRecords(s, s')
    ensures WaitsOk(s')
  {
  }

  lemma SetParentPids(s: Sys, c: Ref)
    requires RingOk(s) && PidsOk(s) && c in s.tasks && c != s.ring[0] && s.tasks[c].state != Zombie
    ensures PidsOk(SetParent(s, c))
  {
    hide RingOk, PidsOk, SetParent;
    SetParentTasks(s, c);
    SamePids(s, SetParent(s, c));
  }

  lemma SetParentWake(s: Sys, c: Ref)
    requires RingOk(s) && WakeOk(s) && FamilyOk(s) && !s.tasks[s.ring[0]].waiting
    requires c in s.tasks && c != s.ring[0]
    ensures WakeOk(SetParent(s, c))
  {
    hide NoDup;
    var s' := SetParent(s, c);
    forall p | p in s'.tasks && s'.tasks[p].waiting
      ensures s'.tasks[p].kids != [] && (s'.tasks[p].state == Blocked <==> !HasZombie(s', p))
    {
      assert HasZombie(s', p) <==> HasZombie(s, p);
    }
  }

  // ---------------------------------------------------------------- exit

  /** `task_exit` up to its yield: the current task leaves its children without a parent, becomes
      a zombie and wakes its own parent if that one is blocked. */
  function Ended(s: Sys, code: int): Sys
    requires RingOk(s)
  {
    var cur := s.ring[0];
    var kids := s.tasks[cur].kids;
    var orphaned := map t | t in s.tasks :: if t in kids then s.tasks[t].(parent := NULL, ppid := 0) else s.tasks[t];
    var ended := orphaned[cur := orphaned[cur].(code := code, kids := [], state := Zombie)];
    var parent := ended[cur].parent;
    s.(tasks := if parent in ended && ended[parent].state == Blocked
                then ended[parent := ended[parent].(state := Ready)] else ended,
       exits := s.exits + {ExitRecord(s.tasks[cur].pid, code, if parent in s.tasks then s.tasks[parent].pid else 0)})
  }

  function Exit(s: Sys, code: int): Sys
    requires RingOk(s) && RingOk(Ended(s, code))
  {
    Yield(Ended(s, code))
  }

  /** What the end of task `cur` does to another task. */
  predicate EndedOther(t: Task, t': Task, cur: Ref, isParent: bool) {
    && t'.parent == (if t.parent == cur then NULL else t.parent)
    && t'.ppid == (if t.parent == cur then 0 else t.ppid)
    && t'.state == (if isParent && t.state == Blocked then Ready else t.state)
    && t'.pid == t.pid && t'.kids == t.kids && t'.code == t.code && t'.ticks == t.ticks && t'.cr3 == t.cr3
    && t'.waiting == t.waiting
  }

  /** The tasks of `Ended`, one by one. */
  lemma EndedTasks(s: Sys, code: int)
    requires RingOk(s) && FamilyOk(s)
    ensures var s' := Ended(s, code); var cur := s.ring[0]; var parent := s.tasks[cur].parent;
      && s'.tasks.Keys == s.tasks.Keys
      && s'.tasks[cur] == s.tasks[cur].(code := code, kids := [], state := Zombie)
      && (forall t | t in s.tasks && t != cur :: EndedOther(s.tasks[t], s'.tasks[t], cur, t == parent))
  {
    hide NoDup;
    var cur := s.ring[0];
    assert s.tasks[cur].parent != cur;
    assert cur !in s.tasks[cur].kids;
    assert forall t | t in s.tasks :: t in s.tasks[cur].kids <==> s.tasks[t].parent == cur;
  }

  lemma EndedKeeps(s: Sys, code: int)
    requires Inv(s) && s.ring[0] != s.idle && !s.tasks[s.ring[0]].waiting
    ensures Core(Ended(s, code))
  {
    hide NoDup, RingOk, StatesOk, FamilyOk, WakeOk, PidsOk, Ended;
    CurrentKnown(s);
    EndedTasks(s, code);
    EndedRing(s, code);
    EndedFamily(s, code);
    EndedWake(s, code);
    EndedPids(s, code);
    EndedRest(s, code);
  }

  lemma EndedRest(s: Sys, code: int)
    requires RingOk(s)
    ensures var s' := Ended(s, code);
      s'.ring == s.ring && s'.idle == s.idle && s'.loaded == s.loaded && s'.created == s.created && s'.waits == s.waits
      && s'.exits == s.exits + {ExitRecord(s.tasks[s.ring[0]].pid, code,
                                if s'.tasks[s.ring[0]].parent in s.tasks then s.tasks[s'.tasks[s.ring[0]].parent].pid
                                    else 0)}
  {
  }

  lemma EndedRing(s: Sys, code: int)
    requires Inv(s) && s.ring[0] != s.idle && !s.tasks[s.ring[0]].waiting
    ensures RingOk(Ended(s, code)) && StatesOk(Ended(s, code))
  {
    hide NoDup, FamilyOk, WakeOk, PidsOk, Ended;
    EndedTasks(s, code);
    EndedRest(s, code);
  }

  lemma EndedFamily(s: Sys, code: int)
    requires RingOk(s) && FamilyOk(s)
    ensures FamilyOk(Ended(s, code))
  {
    hide NoDup, Ended, RingOk;
    CurrentKnown(s);
    EndedTasks(s, code);
    NoDupEmpty();
    var s', cur := Ended(s, code), s.ring[0];
    assert forall p | p in s'.tasks && p != cur :: s'.tasks[p].kids == s.tasks[p].kids;
    assert KidsOk(s') by { hide ParentsOk; }
    assert ParentsOk(s') by {
      forall c | c in s'.tasks && s'.tasks[c].parent != NULL
        ensures s'.tasks[c].parent in s'.tasks && c in s'.tasks[s'.tasks[c].parent].kids
      {
        assert s'.tasks[c].parent == s.tasks[c].parent != cur;
      }
    }
  }

  lemma EndedWake(s: Sys, code: int)
    requires RingOk(s) && StatesOk(s) && FamilyOk(s) && WakeOk(s) && !s.tasks[s.ring[0]].waiting
    ensures WakeOk(Ended(s, code))
  {
    hide NoDup, Ended;
    EndedTasks(s, code);
    var s', cur := Ended(s, code), s.ring[0];
    forall p | p in s'.tasks && s'.tasks[p].waiting
      ensures s'.tasks[p].kids != [] && (s'.tasks[p].state == Blocked <==> !HasZombie(s', p))
    {
      assert p != cur;
      EndedZombies(s, code, p);
    }
  }

  lemma EndedZombies(s: Sys, code: int, p: Ref)
    requires RingOk(s) && FamilyOk(s) && p in s.tasks && p != s.ring[0]
    ensures p in Ended(s, code).tasks
    ensures HasZombie(Ended(s, code), p) <==> HasZombie(s, p) || s.tasks[s.ring[0]].parent == p
  {
    hide NoDup, Ended, RingOk, KidsOk, ParentsOk;
    CurrentKnown(s);
    EndedTasks(s, code);
    var s', cur := Ended(s, code), s.ring[0];
    FamilyAt(s, cur);
    FamilyAt(s, p);
    if s.tasks[cur].parent == p { assert cur in s'.tasks[p].kids; }
    if HasZombie(s, p) {
      var c :| c in s.tasks[p].kids && c in s.tasks && s.tasks[c].state == Zombie;
      assert c in s'.tasks[p].kids && s'.tasks[c].state == Zombie;
    }
    if HasZombie(s', p) {
      var c :| c in s'.tasks[p].kids && c in s'.tasks && s'.tasks[c].state == Zombie;
      assert c in s.tasks[p].kids && (c == cur || s.tasks[c].state == Zombie);
    }
  }

  lemma EndedPids(s: Sys, code: int)
    requires Inv(s)
    ensures PidsOk(Ended(s, code))
  {
    hide NoDup, Ended, WakeOk, KidsOk, StatesOk;
    EndedTasks(s, code);
    EndedRest(s, code);
    var s' := Ended(s, code);
    if s'.created <= PID_SPACE {
      assert TaskPids(s') by { hide ParentsOk, ExitsOk, WaitsOk; }
      assert ExitsOk(s') by { hide WaitsOk, ParentsOk; EndedExits(s, code); }
      assert WaitsOk(s') by { hide TaskPids, ExitsOk, ParentsOk; }
    }
  }

  lemma EndedExits(s: Sys, code: int)
    requires RingOk(s) && FamilyOk(s) && TaskPids(s) && ExitsOk(s) && s.tasks[s.ring[0]].state == Running
    ensures ExitsOk(Ended(s, code))
  {
    hide NoDup, Ended, KidsOk, ParentsOk, RingOk, TaskPids, ExitsOk;
    CurrentKnown(s);
    EndedTasks(s, code);
    EndedRest(s, code);
    var s' := Ended(s, code);
    forall t | t in s'.tasks && s'.tasks[t].state == Zombie && s'.tasks[t].parent in s'.tasks
      ensures ExitRecord(s'.tasks[t].pid, s'.tasks[t].code, s'.tasks[s'.tasks[t].parent].pid) in s'.exits
    {
      EndedRecord(s, code, t);
    }
    EndedRecords(s, code);
    ExitsIntro(s');
  }

  /** The four parts of `ExitsOk`. */
  lemma ExitsIntro(s: Sys)
    requires forall t | t in s.tasks && s.tasks[t].state == Zombie && s.tasks[t].parent in s.tasks ::
               ExitRecord(s.tasks[t].pid, s.tasks[t].code, s.tasks[s.tasks[t].parent].pid) in s.exits
    requires forall e | e in s.exits :: e.pid < s.created
    requires forall e, t | e in s.exits && t in s.tasks && s.tasks[t].pid == e.pid :: s.tasks[t].state == Zombie
    requires forall e, e' | e in s.exits && e' in s.exits && e.pid == e'.pid :: e == e'
    ensures ExitsOk(s)
  {
  }

  lemma EndedRecord(s: Sys, code: int, t: Ref)
    requires RingOk(s) && FamilyOk(s) && ExitsOk(s) && s.tasks[s.ring[0]].state == Running
    requires var s' := Ended(s, code); t in s'.tasks && s'.tasks[t].state == Zombie && s'.tasks[t].parent in s'.tasks
    ensures var s' := Ended(s, code);
        ExitRecord(s'.tasks[t].pid, s'.tasks[t].code, s'.tasks[s'.tasks[t].parent].pid) in s'.exits
  {
    hide NoDup, Ended, KidsOk, ParentsOk, RingOk;
    CurrentKnown(s);
    EndedTasks(s, code);
    EndedRest(s, code);
    if t != s.ring[0] { assert Ended(s, code).tasks[t].parent == s.tasks[t].parent; }
  }

  /** The PID of the current task was on no record, so the new one is the only one about it. */
  lemma EndedRecords(s: Sys, code: int)
    requires RingOk(s) && FamilyOk(s) && TaskPids(s) && ExitsOk(s) && s.tasks[s.ring[0]].state == Running
    ensures var s' := Ended(s, code);
      && (forall e | e in s'.exits :: e.pid < s'.created)
      && (forall e, t | e in s'.exits && t in s'.tasks && s'.tasks[t].pid == e.pid :: s'.tasks[t].state == Zombie)
      && (forall e, e' | e in s'.exits && e' in s'.exits && e.pid == e'.pid :: e == e')
  {
    hide NoDup, Ended, KidsOk, ParentsOk, RingOk;
    CurrentKnown(s);
    EndedTasks(s, code);
    EndedRest(s, code);
    assert forall e | e in s.exits :: e.pid != s.tasks[s.ring[0]].pid;
  }

  // ---------------------------------------------------------------- wait and reap

  /** The first zombie of a list of tasks. */
  function FirstZombie(s: Sys, kids: seq<Ref>): (r: Option<Ref>)
    ensures r.Some? ==> r.value in kids && r.value in s.tasks && s.tasks[r.value].state == Zombie
    ensures r.None? ==> forall c | c in kids && c in s.tasks :: s.tasks[c].state != Zombie
  {
    if kids == [] then None
    else if kids[0] in s.tasks && s.tasks[kids[0]].state == Zombie then Some(kids[0])
    else FirstZombie(s, kids[1..])
  }

  /** `xs` without its first `x`. */
  function Without(xs: seq<Ref>, x: Ref): seq<Ref> {
    if xs == [] then [] else if xs[0] == x then xs[1..] else [xs[0]] + Without(xs[1..], x)
  }

  lemma {:induction false} WithoutMembers(xs: seq<Ref>, x: Ref)
    requires NoDup(xs)
    ensures NoDup(Without(xs, x))
    ensures forall y :: y in Without(xs, x) <==> y in xs && y != x
  {
    if xs == [] {
    } else {
      assert xs == [xs[0]] + xs[1..];
      if xs[0] != x {
        WithoutMembers(xs[1..], x);
        NoDupCons(xs[0], Without(xs[1..], x));
      }
    }
  }

  /** A successful `task_wait` of the current task: its ended child `z` leaves the child list and
      the run queue, and its structure is freed. */
  function Reaped(s: Sys, z: Ref): Sys
    requires RingOk(s) && z in s.tasks && z != s.ring[0]
  {
    var cur := s.ring[0];
    s.(ring := Without(s.ring, z),
       tasks := (s.tasks - {z})[cur := s.tasks[cur].(kids := Without(s.tasks[cur].kids, z), waiting := false)],
       waits := s.waits + [WaitRecord(s.tasks[cur].pid, s.tasks[z].pid, s.tasks[z].code)])
  }

  /** The current task blocks inside `task_wait`. */
  function Blocking(s: Sys): Sys
    requires RingOk(s)
  {
    s.(tasks := s.tasks[s.ring[0] := s.tasks[s.ring[0]].(state := Blocked, waiting := true)])
  }

  /** `task_wait`, from its call or from the point where it was woken, to its return or to the
      point where it blocks. Without children it returns at once. */
  function Wait(s: Sys): Sys
    requires Inv(s) && s.ring[0] != s.idle
  {
    var cur := s.tasks[s.ring[0]];
    if cur.kids == [] && !cur.waiting then s else
    match FirstZombie(s, cur.kids)
    case Some(z) => Reaped(s, z)
    case None => BlockingKeeps(s); Yield(Blocking(s))
  }

  lemma BlockingKeeps(s: Sys)
    requires Inv(s) && s.ring[0] != s.idle && FirstZombie(s, s.tasks[s.ring[0]].kids).None?
    requires s.tasks[s.ring[0]].kids != []
    ensures Core(Blocking(s))
  {
    hide NoDup, FamilyOk, WakeOk, PidsOk;
    var s' := Blocking(s);
    assert FamilyOk(s') by { BlockingFamily(s); }
    assert WakeOk(s') by { BlockingWake(s); }
    assert PidsOk(s') by { BlockingPids(s); }
  }

  lemma BlockingFamily(s: Sys)
    requires RingOk(s) && FamilyOk(s)
    ensures FamilyOk(Blocking(s))
  {
    hide RingOk, FamilyOk;
    CurrentKnown(s);
    SameFamily(s, Blocking(s));
  }

  lemma BlockingPids(s: Sys)
    requires RingOk(s) && PidsOk(s) && s.tasks[s.ring[0]].state == Running
    ensures PidsOk(Blocking(s))
  {
    hide RingOk, PidsOk;
    CurrentKnown(s);
    SamePids(s, Blocking(s));
  }

  lemma BlockingWake(s: Sys)
    requires RingOk(s) && WakeOk(s) && s.tasks[s.ring[0]].state == Running
    requires s.tasks[s.ring[0]].kids != [] && FirstZombie(s, s.tasks[s.ring[0]].kids).None?
    ensures WakeOk(Blocking(s))
  {
    hide NoDup;
    var s', cur := Blocking(s), s.ring[0];
    forall p | p in s'.tasks && s'.tasks[p].waiting
      ensures s'.tasks[p].kids != [] && (s'.tasks[p].state == Blocked <==> !HasZombie(s', p))
    {
      assert HasZombie(s', p) <==> HasZombie(s, p);
    }
  }

  lemma ReapedKeeps(s: Sys, z: Ref)
    requires Inv(s) && z in s.tasks && z in s.tasks[s.ring[0]].kids && s.tasks[z].state == Zombie
    ensures z != s.ring[0] && z != s.idle
    ensures Inv(Reaped(s, z))
  {
    hide NoDup, KidsOk, ParentsOk, WakeOk, PidsOk, Without;
    assert FamilyOk(Reaped(s, z)) by { ReapedFamily(s, z); }
    assert WakeOk(Reaped(s, z)) by { ReapedWake(s, z); }
    assert PidsOk(Reaped(s, z)) by { ReapedPids(s, z); }
    assert RingOk(Reaped(s, z)) && StatesOk(Reaped(s, z)) && Reaped(s, z).ring[0] == s.ring[0] by { ReapedRing(s, z); }
  }

  lemma ReapedRing(s: Sys, z: Ref)
    requires RingOk(s) && StatesOk(s) && z in s.tasks && z != s.ring[0] && z != s.idle
    requires s.tasks[s.ring[0]].state == Running
    ensures RingOk(Reaped(s, z)) && StatesOk(Reaped(s, z)) && Reaped(s, z).ring[0] == s.ring[0]
  {
    hide NoDup, Without;
    WithoutMembers(s.ring, z);
    WithoutFirst(s.ring, z);
    var s' := Reaped(s, z);
    assert RingOk(s') by { hide StatesOk; ReapedRingOnly(s, z); }
    assert StatesOk(s') by { hide RingOk; }
  }

  lemma WithoutFirst(xs: seq<Ref>, x: Ref)
    requires |xs| > 0 && xs[0] != x
    ensures |Without(xs, x)| > 0 && Without(xs, x)[0] == xs[0]
  {
  }

  lemma ReapedRingOnly(s: Sys, z: Ref)
    requires RingOk(s) && z in s.tasks && z != s.ring[0] && z != s.idle
    ensures RingOk(Reaped(s, z))
  {
    hide NoDup, Without;
    WithoutMembers(s.ring, z);
    WithoutFirst(s.ring, z);
  }

  lemma ReapedFamily(s: Sys, z: Ref)
    requires RingOk(s) && StatesOk(s) && FamilyOk(s)
    requires z in s.tasks && z in s.tasks[s.ring[0]].kids && s.tasks[z].state == Zombie && z != s.ring[0]
    ensures FamilyOk(Reaped(s, z))
  {
    hide NoDup, Without, RingOk, KidsOk, ParentsOk;
    CurrentKnown(s);
    var s', cur := Reaped(s, z), s.ring[0];
    FamilyAt(s, cur);
    WithoutMembers(s.tasks[cur].kids, z);
    FamilyAt(s, z);
    assert s.tasks[z].kids == [];
    forall t | t in s'.tasks ensures KidsGood(s', t) && ParentGood(s', t) { FamilyAt(s, t); }
    FamilyIntro(s');
  }

  lemma ReapedWake(s: Sys, z: Ref)
    requires RingOk(s) && KidsOk(s) && WakeOk(s)
    requires z in s.tasks && z in s.tasks[s.ring[0]].kids && z != s.ring[0]
    ensures WakeOk(Reaped(s, z))
  {
    hide NoDup, Without, RingOk;
    CurrentKnown(s);
    var s', cur := Reaped(s, z), s.ring[0];
    forall p | p in s'.tasks && s'.tasks[p].waiting
      ensures s'.tasks[p].kids != [] && (s'.tasks[p].state == Blocked <==> !HasZombie(s', p))
    {
      assert p != cur && z !in s.tasks[p].kids;
      assert HasZombie(s', p) <==> HasZombie(s, p);
    }
  }

  lemma ReapedPids(s: Sys, z: Ref)
    requires RingOk(s) && PidsOk(s) && KidsOk(s) && s.tasks[s.ring[0]].state != Zombie
    requires z in s.tasks && z in s.tasks[s.ring[0]].kids && s.tasks[z].state == Zombie && z != s.ring[0]
    ensures PidsOk(Reaped(s, z))
  {
    hide NoDup, Without, RingOk;
    CurrentKnown(s);
    var s', cur := Reaped(s, z), s.ring[0];
    if s'.created <= PID_SPACE {
      hide TaskPids, ExitsOk, WaitsOk;
      ReapedTaskPids(s, z);
      ReapedExits(s, z);
      ReapedWaits(s, z);
    }
  }

  lemma ReapedTaskPids(s: Sys, z: Ref)
    requires RingOk(s) && TaskPids(s) && z in s.tasks && z != s.ring[0]
    ensures TaskPids(Reaped(s, z))
  {
    hide NoDup, Without;
  }

  lemma ReapedExits(s: Sys, z: Ref)
    requires RingOk(s) && ExitsOk(s) && KidsOk(s) && s.tasks[s.ring[0]].state != Zombie && z in s.tasks
      && z != s.ring[0]
    ensures ExitsOk(Reaped(s, z))
  {
    hide NoDup, Without;
  }

  lemma ReapedWaits(s: Sys, z: Ref)
    requires RingOk(s) && TaskPids(s) && ExitsOk(s) && WaitsOk(s) && KidsOk(s) && z != s.ring[0]
    requires z in s.tasks && z in s.tasks[s.ring[0]].kids && s.tasks[z].state == Zombie
    ensures WaitsOk(Reaped(s, z))
  {
    hide NoDup, Without;
    assert ExitRecord(s.tasks[z].pid, s.tasks[z].code, s.tasks[s.ring[0]].pid) in s.exits;
  }

  /** A woken waiter finds an ended child at its first retry. */
  lemma WokenFinds(s: Sys)
    requires Inv(s) && s.tasks[s.ring[0]].waiting
    ensures FirstZombie(s, s.tasks[s.ring[0]].kids).Some?
  {
    assert HasZombie(s, s.ring[0]);
  }

  lemma WaitKeeps(s: Sys)
    requires Inv(s) && s.ring[0] != s.idle
    ensures Inv(Wait(s))
  {
    hide Core, RingOk, StatesOk, Yield, Blocking, Reaped;
    assert RingOk(s) by { CoreRing(s); }
    CurrentKnown(s);
    var cur := s.tasks[s.ring[0]];
    if !(cur.kids == [] && !cur.waiting) {
      if cur.waiting { WokenFinds(s); }
      match FirstZombie(s, cur.kids)
      case Some(z) => ReapedKeeps(s, z);
      case None =>
        BlockingKeeps(s);
        YieldKeeps(Blocking(s));
    }
  }

  lemma CoreRing(s: Sys)
    requires Core(s)
    ensures RingOk(s)
  {
  }

  // ---------------------------------------------------------------- runs

  datatype Op = YieldOp | TickOp | AddOp(t: Ref) | CreateOp(t: Ref, cr3: nat, ppid: nat) | SetParentOp(t: Ref)
              | ExitOp(code: int) | WaitOp

  /** When the current task may take a step: a task that was woken inside `task_wait` goes on
      there, and the idle task only yields. The conditions on `t` are those of the kernel's
      callers: a fresh structure is created, a live child without a parent is adopted, and a task
      is queued once. The timer may interrupt anything. */
  ghost predicate Enabled(s: Sys, op: Op)
    requires RingOk(s)
  {
    match op
    case TickOp => true
    case WaitOp => s.ring[0] != s.idle
    case YieldOp => !s.tasks[s.ring[0]].waiting
    case AddOp(t) => !s.tasks[s.ring[0]].waiting && t in s.tasks && t !in s.ring
    case CreateOp(t, cr3, ppid) => !s.tasks[s.ring[0]].waiting && t !in s.tasks && t != NULL && cr3 != 0
    case SetParentOp(t) => !s.tasks[s.ring[0]].waiting && t in s.tasks && t != s.ring[0]
                           && s.tasks[t].parent == NULL && s.tasks[t].state != Zombie
    case ExitOp(code) => !s.tasks[s.ring[0]].waiting && s.ring[0] != s.idle
  }

  function Step(s: Sys, op: Op): Sys
    requires Inv(s) && Enabled(s, op)
  {
    match op
    case TickOp => Tick(s)
    case WaitOp => Wait(s)
    case YieldOp => Yield(s)
    case AddOp(t) => Add(s, t)
    case CreateOp(t, cr3, ppid) => Create(s, t, cr3, ppid)
    case SetParentOp(t) => SetParent(s, t)
    case ExitOp(code) => EndedKeeps(s, code); Exit(s, code)
  }

  /** Every step keeps the invariant. */
  lemma StepKeeps(s: Sys, op: Op)
    requires Inv(s) && Enabled(s, op)
    ensures Inv(Step(s, op))
  {
    hide Core, Tick, Wait, Yield, Add, Create, SetParent, RingOk, NoDup;
    assert RingOk(s) by { CoreRing(s); }
    match op
    case TickOp => TickKeeps(s);
    case WaitOp => WaitKeeps(s);
    case YieldOp => YieldKeeps(s);
    case AddOp(t) => AddKeeps(s, t);
    case CreateOp(t, cr3, ppid) => CreateKeeps(s, t, cr3, ppid);
    case SetParentOp(t) => SetParentKeeps(s, t);
    case ExitOp(code) =>
      EndedKeeps(s, code);
      YieldKeeps(Ended(s, code));
  }

  /** `ops` can be taken one after the other from `s`. */
  ghost predicate Run(s: Sys, ops: seq<Op>)
    requires Inv(s)
    decreases |ops|
  {
    ops == [] || (Enabled(s, ops[0]) && (StepKeeps(s, ops[0]); Run(Step(s, ops[0]), ops[1..])))
  }

  /** The state after a run. */
  ghost function After(s: Sys, ops: seq<Op>): (s': Sys)
    requires Inv(s) && Run(s, ops)
    ensures Inv(s')
    decreases |ops|
  {
    if ops == [] then s else
    StepKeeps(s, ops[0]); After(Step(s, ops[0]), ops[1..])
  }

  /** One more step at the end of a run. */
  lemma {:induction false} RunMore(s: Sys, ops: seq<Op>, op: Op)
    requires Inv(s) && Run(s, ops) && Enabled(After(s, ops), op)
    ensures Run(s, ops + [op]) && After(s, ops + [op]) == Step(After(s, ops), op)
    decreases |ops|
  {
    hide Inv, Enabled, Step;
    if ops == [] {
      StepKeeps(s, op);
      assert [op][1..] == [];
      assert [] + [op] == [op];
    } else {
      StepKeeps(s, ops[0]);
      RunMore(Step(s, ops[0]), ops[1..], op);
      assert (ops + [op])[1..] == ops[1..] + [op];
    }
  }

  /** The tasks inside `task_wait`. */
  function Waiters(s: Sys): set<Ref> {
    set t | t in s.tasks && s.tasks[t].waiting
  }

  lemma SameLifeWaiters(s: Sys, s': Sys)
    requires SameLife(s, s')
    ensures Waiters(s') == Waiters(s)
  {
    assert forall t | t in s'.tasks :: SameTask(s.tasks[t], s'.tasks[t]);
  }

  /** Only `task_wait` itself changes who is inside it. */
  lemma StepWaiters(s: Sys, op: Op)
    requires Inv(s) && Enabled(s, op)
    ensures Waiters(Step(s, op)) ==
      if !op.WaitOp? then Waiters(s)
      else if Blocks(s) then Waiters(s) + {s.ring[0]} else Waiters(s) - {s.ring[0]}
  {
    hide Core, NoDup, RingOk, Tick, Wait, Yield, Ended, Waiters, FamilyOk;
    assert RingOk(s) by { CoreRing(s); }
    CurrentKnown(s);
    match op
    case TickOp => TickWaiters(s);
    case WaitOp => WaitWaiters(s);
    case YieldOp =>
      YieldEffect(s);
      SameLifeWaiters(s, Yield(s));
    case AddOp(t) => SameLifeWaiters(s, Add(s, t));
    case CreateOp(t, cr3, ppid) => CreateWaiters(s, t, cr3, ppid);
    case SetParentOp(t) => SetParentWaiters(s, t);
    case ExitOp(code) =>
      EndedKeeps(s, code);
      CoreRing(Ended(s, code));
      CoreFamilies(s);
      EndedWaiters(s, code);
      YieldEffect(Ended(s, code));
      SameLifeWaiters(Ended(s, code), Yield(Ended(s, code)));
  }

  /** A wait of the current task blocks. */
  predicate Blocks(s: Sys)
    requires RingOk(s)
  {
    s.tasks[s.ring[0]].kids != [] && FirstZombie(s, s.tasks[s.ring[0]].kids).None?
  }

  lemma CoreFamilies(s: Sys)
    requires Core(s)
    ensures FamilyOk(s)
  {
  }

  lemma TickWaiters(s: Sys)
    requires Inv(s)
    ensures Waiters(Tick(s)) == Waiters(s)
  {
    hide FamilyOk, WakeOk, PidsOk, NoDup, Yield;
    var t := s.tasks[s.ring[0]];
    SameLifeWaiters(s, WithTicks(s, t.ticks - 1));
    if t.ticks == 1 {
      WithTicksKeeps(s, 0);
      YieldEffect(WithTicks(s, 0));
      SameLifeWaiters(WithTicks(s, 0), Yield(WithTicks(s, 0)));
    }
  }

  lemma CreateWaiters(s: Sys, t: Ref, cr3: nat, ppid: nat)
    requires t !in s.tasks
    ensures Waiters(Create(s, t, cr3, ppid)) == Waiters(s)
  {
  }

  lemma SetParentWaiters(s: Sys, c: Ref)
    requires RingOk(s) && c in s.tasks
    ensures Waiters(SetParent(s, c)) == Waiters(s)
  {
    hide NoDup;
  }

  lemma EndedWaiters(s: Sys, code: int)
    requires RingOk(s) && FamilyOk(s)
    ensures Waiters(Ended(s, code)) == Waiters(s)
  {
    hide RingOk, FamilyOk, Ended;
    EndedTasks(s, code);
    CurrentKnown(s);
  }

  lemma WaitWaiters(s: Sys)
    requires Inv(s) && s.ring[0] != s.idle
    ensures Waiters(Wait(s)) == if Blocks(s) then Waiters(s) + {s.ring[0]} else Waiters(s) - {s.ring[0]}
  {
    hide FamilyOk, PidsOk, NoDup, Yield, FirstZombie, Without;
    CurrentKnown(s);
    var cur := s.tasks[s.ring[0]];
    if Blocks(s) {
      BlockingKeeps(s);
      YieldEffect(Blocking(s));
      SameLifeWaiters(Blocking(s), Yield(Blocking(s)));
    } else if cur.kids != [] {
      ReapedKeeps(s, FirstZombie(s, cur.kids).value);
      ReapedWaiters(s, FirstZombie(s, cur.kids).value);
    }
  }

  lemma ReapedWaiters(s: Sys, z: Ref)
    requires RingOk(s) && StatesOk(s) && z in s.tasks && z != s.ring[0] && s.tasks[z].state == Zombie
    ensures Waiters(Reaped(s, z)) == Waiters(s) - {s.ring[0]}
  {
    hide NoDup, Without;
    CurrentKnown(s);
  }

  /** `scheduler_init`: the bootstrap task runs, with the idle task behind it. */
  function Boot(bootstrap: Ref, idle: Ref, kernelCr3: nat): Sys {
    Sys([bootstrap, idle],
        map[bootstrap := Task(Running, 0, 0, NULL, [], 0, SLICE, kernelCr3, false),
            idle := Task(Ready, 1, 0, NULL, [], 0, SLICE, kernelCr3, false)],
        idle, kernelCr3, 2, {}, [])
  }

  lemma BootInv(bootstrap: Ref, idle: Ref, kernelCr3: nat)
    requires bootstrap != idle && bootstrap != NULL && idle != NULL && kernelCr3 != 0
    ensures Inv(Boot(bootstrap, idle, kernelCr3))
  {
    hide NoDup, RingOk, StatesOk, FamilyOk, WakeOk, PidsOk;
    var s := Boot(bootstrap, idle, kernelCr3);
    assert s.ring[1] == idle;
    assert RingOk(s) && StatesOk(s) by { BootRing(bootstrap, idle, kernelCr3); }
    assert FamilyOk(s) && WakeOk(s) by { BootFamily(bootstrap, idle, kernelCr3); }
    assert PidsOk(s) by { BootPids(bootstrap, idle, kernelCr3); }
  }

  lemma BootRing(bootstrap: Ref, idle: Ref, kernelCr3: nat)
    requires bootstrap != idle && bootstrap != NULL && idle != NULL && kernelCr3 != 0
    ensures RingOk(Boot(bootstrap, idle, kernelCr3)) && StatesOk(Boot(bootstrap, idle, kernelCr3))
  {
    assert Boot(bootstrap, idle, kernelCr3).ring[1] == idle;
  }

  lemma BootFamily(bootstrap: Ref, idle: Ref, kernelCr3: nat)
    requires bootstrap != idle && bootstrap != NULL && idle != NULL
    ensures FamilyOk(Boot(bootstrap, idle, kernelCr3)) && WakeOk(Boot(bootstrap, idle, kernelCr3))
  {
    NoDupEmpty();
  }

  lemma BootPids(bootstrap: Ref, idle: Ref, kernelCr3: nat)
    requires bootstrap != idle && bootstrap != NULL && idle != NULL
    ensures PidsOk(Boot(bootstrap, idle, kernelCr3))
  {
  }

  // ---------------------------------------------------------------- what runs guarantee

  /** Exactly the current task is Running, on its own address space. */
  lemma OneRunning(s: Sys, ops: seq<Op>)
    requires Inv(s) && Run(s, ops)
    ensures var s' := After(s, ops);
      && s'.ring[0] in s'.tasks
      && (forall t | t in s'.tasks :: s'.tasks[t].state == Running <==> t == s'.ring[0])
      && s'.loaded == s'.tasks[s'.ring[0]].cr3
  {
  }

  /** The records tell what happened: an exit is put on record by the exit of the current task
      under its parent at that time, and a wait by the reaping of an ended child. */
  lemma StepLogs(s: Sys, op: Op)
    requires Inv(s) && Enabled(s, op)
    ensures Step(s, op).exits == s.exits + (if op.ExitOp? then {CurrentExit(s, op.code)} else {})
    ensures Step(s, op).waits == s.waits || (op.WaitOp? && exists z :: ReapedBy(s, Step(s, op), z))
  {
    hide KidsOk, ParentsOk, WakeOk, PidsOk, NoDup, StatesOk, Rotate, FirstStop, Without, FirstZombie, Ended;
    assert RingOk(s) by { CoreRing(s); }
    match op
    case TickOp => { assert Step(s, op) == Tick(s); }
    case WaitOp =>
      if !(s.tasks[s.ring[0]].kids == [] && !s.tasks[s.ring[0]].waiting)
          && FirstZombie(s, s.tasks[s.ring[0]].kids).Some? {
        var z := FirstZombie(s, s.tasks[s.ring[0]].kids).value;
        assert ReapedBy(s, Step(s, op), z) by { assert z != s.ring[0]; }
      }
    case ExitOp(code) => { EndedKeeps(s, code); EndedExitLog(s, code); }
    case _ =>
  }

  /** The record of an exit of the current task. */
  function CurrentExit(s: Sys, code: int): ExitRecord
    requires RingOk(s)
  {
    var cur := s.tasks[s.ring[0]];
    ExitRecord(cur.pid, code, if cur.parent in s.tasks then s.tasks[cur.parent].pid else 0)
  }

  /** Between `s` and `s'` the current task has reaped its ended child `z`. */
  ghost predicate ReapedBy(s: Sys, s': Sys, z: Ref)
    requires RingOk(s)
  {
    var cur := s.tasks[s.ring[0]];
    && z in cur.kids && z in s.tasks && s.tasks[z].state == Zombie && z !in s'.tasks
    && s'.waits == s.waits + [WaitRecord(cur.pid, s.tasks[z].pid, s.tasks[z].code)]
  }

  lemma EndedExitLog(s: Sys, code: int)
    requires RingOk(s) && KidsOk(s) && ParentsOk(s)
    ensures Ended(s, code).waits == s.waits && Ended(s, code).exits == s.exits + {CurrentExit(s, code)}
  {
    hide NoDup;
  }

  /** Over any run from the start in which the PIDs have not wrapped around: no PID is returned by
      two waits, and every return tells about the exit of a child of the waiter that is gone. */
  lemma WaitsOnce(bootstrap: Ref, idle: Ref, kernelCr3: nat, ops: seq<Op>)
    requires bootstrap != idle && bootstrap != NULL && idle != NULL && kernelCr3 != 0
      && Inv(Boot(bootstrap, idle, kernelCr3))
    requires Run(Boot(bootstrap, idle, kernelCr3), ops)
    requires After(Boot(bootstrap, idle, kernelCr3), ops).created <= PID_SPACE
    ensures WaitsOk(After(Boot(bootstrap, idle, kernelCr3), ops))
  {
    hide RingOk, StatesOk, FamilyOk, WakeOk, Run, Step;
  }

  /** The two tasks of a valid start state. */
  lemma BootTasks(bootstrap: Ref, idle: Ref, kernelCr3: nat)
    requires Inv(Boot(bootstrap, idle, kernelCr3))
    ensures bootstrap != idle && bootstrap != NULL && idle != NULL && kernelCr3 != 0
  {
    var s := Boot(bootstrap, idle, kernelCr3);
    assert s.ring[0] == bootstrap && s.ring[1] == idle;
  }

  /** The PPID of a task in a family is the PID of its parent. */
  ghost predicate ParentPids(s: Sys) {
    forall t | t in s.tasks && s.tasks[t].parent in s.tasks :: s.tasks[t].ppid == s.tasks[s.tasks[t].parent].pid
  }

  /** So it is at the end of every run from the start. */
  lemma {:induction false} ParentPidsAlways(s: Sys, ops: seq<Op>)
    requires Inv(s) && Run(s, ops) && ParentPids(s)
    ensures ParentPids(After(s, ops))
    decreases |ops|
  {
    hide Inv, Enabled, Step, ParentPids;
    if ops == [] {
    } else {
      StepKeeps(s, ops[0]);
      StepParentPids(s, ops[0]);
      ParentPidsAlways(Step(s, ops[0]), ops[1..]);
    }
  }

  lemma BootParentPids(bootstrap: Ref, idle: Ref, kernelCr3: nat)
    requires bootstrap != NULL && idle != NULL
    ensures ParentPids(Boot(bootstrap, idle, kernelCr3))
  {
  }

  /** Families, PIDs and PPIDs of the tasks that are left are the same, but for those of orphans. */
  ghost predicate SameFamilies(s: Sys, s': Sys) {
    forall t | t in s'.tasks :: t in s.tasks && s'.tasks[t].pid == s.tasks[t].pid
      && (s'.tasks[t].parent == NULL
            || (s'.tasks[t].parent == s.tasks[t].parent && s'.tasks[t].ppid == s.tasks[t].ppid))
  }

  lemma SameParentPids(s: Sys, s': Sys)
    requires ParentPids(s) && SameFamilies(s, s') && NULL !in s'.tasks
    ensures ParentPids(s')
  {
  }

  lemma SameLifeFamilies(s: Sys, s': Sys)
    requires SameLife(s, s')
    ensures SameFamilies(s, s')
  {
    forall t | t in s'.tasks ensures t in s.tasks && SameTask(s.tasks[t], s'.tasks[t]) { }
  }

  /** Every step keeps that. */
  lemma StepParentPids(s: Sys, op: Op)
    requires Inv(s) && Enabled(s, op) && ParentPids(s)
    ensures ParentPids(Step(s, op))
  {
    hide Core, Tick, Wait, Yield, Add, Create, SetParent, Ended, NoDup, ParentPids, SameFamilies;
    StepKeeps(s, op);
    assert RingOk(s) by { CoreRing(s); }
    var s' := Step(s, op);
    assert RingOk(s') by { CoreRing(s'); }
    CurrentKnown(s');
    match op
    case TickOp => TickFamilies(s); SameParentPids(s, s');
    case WaitOp => WaitFamilies(s); SameParentPids(s, s');
    case YieldOp => YieldEffect(s); SameLifeFamilies(s, s'); SameParentPids(s, s');
    case AddOp(t) => AddTasks(s, t); assert SameFamilies(s, s') by { SameTasksFamilies(s, s'); } SameParentPids(s, s');
    case CreateOp(t, cr3, ppid) => CreateParentPids(s, t, cr3, ppid);
    case SetParentOp(t) => SetParentParentPids(s, t);
    case ExitOp(code) => ExitFamilies(s, code); SameParentPids(s, s');
  }

  lemma SameTasksFamilies(s: Sys, s': Sys)
    requires s'.tasks == s.tasks
    ensures SameFamilies(s, s')
  {
  }

  lemma TickFamilies(s: Sys)
    requires Inv(s)
    ensures SameFamilies(s, Tick(s))
  {
    hide FamilyOk, WakeOk, PidsOk, NoDup, Yield, StatesOk;
    WithTicksKeeps(s, s.tasks[s.ring[0]].ticks - 1);
    if s.tasks[s.ring[0]].ticks == 1 {
      YieldEffect(WithTicks(s, 0));
      SameLifeFamilies(WithTicks(s, 0), Tick(s));
    }
  }

  lemma WaitFamilies(s: Sys)
    requires Inv(s) && s.ring[0] != s.idle
    ensures SameFamilies(s, Wait(s))
  {
    hide FamilyOk, WakeOk, PidsOk, NoDup, Yield, StatesOk;
    var cur := s.tasks[s.ring[0]];
    if !(cur.kids == [] && !cur.waiting) && FirstZombie(s, cur.kids).None? {
      if cur.waiting { WokenFinds(s); }
      BlockingKeeps(s);
      YieldEffect(Blocking(s));
      SameLifeFamilies(Blocking(s), Wait(s));
    }
  }

  lemma CreateParentPids(s: Sys, t: Ref, cr3: nat, ppid: nat)
    requires Inv(s) && ParentPids(s) && t !in s.tasks && t != NULL
    ensures ParentPids(Create(s, t, cr3, ppid))
  {
    hide WakeOk, PidsOk, NoDup, StatesOk;
  }

  lemma SetParentParentPids(s: Sys, c: Ref)
    requires Inv(s) && ParentPids(s) && c in s.tasks && c != s.ring[0]
    ensures ParentPids(SetParent(s, c))
  {
    hide WakeOk, PidsOk, NoDup, StatesOk, FamilyOk;
  }

  lemma ExitFamilies(s: Sys, code: int)
    requires Inv(s) && s.ring[0] != s.idle && !s.tasks[s.ring[0]].waiting
    ensures RingOk(Ended(s, code)) && SameFamilies(s, Exit(s, code))
  {
    hide KidsOk, ParentsOk, WakeOk, PidsOk, NoDup, Yield, Ended, StatesOk;
    EndedKeeps(s, code);
    EndedTasks(s, code);
    YieldEffect(Ended(s, code));
    SameLifeFamilies(Ended(s, code), Exit(s, code));
  }

  /** What an exit leaves behind: a zombie with the exit code, children without a parent, and a
      parent that is not blocked any more. */
  lemma ExitEffect(s: Sys, code: int)
    requires Inv(s) && Enabled(s, ExitOp(code))
    ensures var s' := Step(s, ExitOp(code)); var z := s.ring[0];
      && s'.tasks.Keys == s.tasks.Keys && z in s.tasks
      && s'.tasks[z].state == Zombie && s'.tasks[z].code == code && s'.tasks[z].kids == []
      && s'.tasks[z].parent == s.tasks[z].parent
      && (s.tasks[z].parent in s.tasks ==> s'.tasks[s.tasks[z].parent].state != Blocked)
      && (forall c | c in s.tasks && s.tasks[c].parent == z :: s'.tasks[c].parent == NULL && s'.tasks[c].ppid == 0)
      && (forall t | t in s.tasks && t != z && t != s.tasks[z].parent ::
            && (s'.tasks[t].state == Blocked <==> s.tasks[t].state == Blocked)
            && (s'.tasks[t].state == Zombie <==> s.tasks[t].state == Zombie))
  {
    hide Core, NoDup, Yield, Ended, RingOk;
    EndedKeeps(s, code);
    assert RingOk(s) && RingOk(Ended(s, code)) by { CoreRing(s); CoreRing(Ended(s, code)); }
    EndedFields(s, code);
    YieldEffect(Ended(s, code));
    var s1, s' := Ended(s, code), Exit(s, code);
    forall t | t in s.tasks ensures SameTask(s1.tasks[t], s'.tasks[t]) { }
  }

  lemma EndedFields(s: Sys, code: int)
    requires Inv(s) && RingOk(s)
    ensures var s' := Ended(s, code); var z := s.ring[0];
      && s'.tasks.Keys == s.tasks.Keys && z in s.tasks
      && s'.tasks[z].state == Zombie && s'.tasks[z].code == code && s'.tasks[z].kids == []
      && s'.tasks[z].parent == s.tasks[z].parent
      && (s.tasks[z].parent in s.tasks ==> s'.tasks[s.tasks[z].parent].state != Blocked)
      && (forall c | c in s.tasks && s.tasks[c].parent == z :: s'.tasks[c].parent == NULL && s'.tasks[c].ppid == 0)
      && (forall t | t in s.tasks && t != z && t != s.tasks[z].parent :: s'.tasks[t].state == s.tasks[t].state)
  {
    hide KidsOk, WakeOk, PidsOk, NoDup, Ended, StatesOk;
    EndedTasks(s, code);
    var z := s.ring[0];
    assert s.tasks[z].parent != z;
    forall t | t in s.tasks && t != z
      ensures EndedOther(s.tasks[t], Ended(s, code).tasks[t], z, t == s.tasks[z].parent) { }
  }

  /** A zombie stays one until it is reaped. */
  lemma ZombieStays(s: Sys, op: Op, z: Ref)
    requires Inv(s) && Enabled(s, op) && z in s.tasks && s.tasks[z].state == Zombie
    ensures var s' := Step(s, op); z in s'.tasks ==> s'.tasks[z].state == Zombie && s'.ring[0] != z
  {
    hide Core, Tick, Wait, Yield, Add, Create, SetParent, Ended, NoDup;
    StepKeeps(s, op);
    assert RingOk(s) by { CoreRing(s); }
    var s' := Step(s, op);
    if z in s'.tasks {
      assert s'.tasks[z].state == Zombie by {
        match op
        case TickOp => TickZombie(s, z);
        case WaitOp => WaitZombie(s, z);
        case YieldOp => YieldEffect(s); assert SameTask(s.tasks[z], s'.tasks[z]);
        case AddOp(t) => assert Add(s, t).tasks == s.tasks by { AddTasks(s, t); }
        case CreateOp(t, cr3, ppid) => OtherTasks(s, t, cr3, ppid, z);
        case SetParentOp(t) => SetParentZombie(s, t, z);
        case ExitOp(code) => ExitZombie(s, code, z);
      }
      CurrentRuns(s');
    }
  }

  lemma CurrentRuns(s: Sys)
    requires Inv(s)
    ensures |s.ring| > 0 && s.ring[0] in s.tasks && s.tasks[s.ring[0]].state == Running
  {
  }

  lemma AddTasks(s: Sys, t: Ref)
    requires |s.ring| > 0
    ensures Add(s, t).tasks == s.tasks
  {
  }

  lemma OtherTasks(s: Sys, t: Ref, cr3: nat, ppid: nat, z: Ref)
    requires z in s.tasks && t !in s.tasks
    ensures Create(s, t, cr3, ppid).tasks[z] == s.tasks[z]
  {
  }

  lemma SetParentZombie(s: Sys, t: Ref, z: Ref)
    requires RingOk(s) && t in s.tasks && z in s.tasks
    ensures z in SetParent(s, t).tasks && SetParent(s, t).tasks[z].state == s.tasks[z].state
  {
  }

  lemma TickZombie(s: Sys, z: Ref)
    requires Inv(s) && z in s.tasks && s.tasks[z].state == Zombie
    ensures z in Tick(s).tasks && Tick(s).tasks[z].state == Zombie
  {
    hide FamilyOk, WakeOk, PidsOk, NoDup, Yield, StatesOk;
    WithTicksKeeps(s, s.tasks[s.ring[0]].ticks - 1);
    if s.tasks[s.ring[0]].ticks == 1 {
      YieldEffect(WithTicks(s, 0));
      assert SameTask(WithTicks(s, 0).tasks[z], Tick(s).tasks[z]);
    }
  }

  lemma WaitZombie(s: Sys, z: Ref)
    requires Inv(s) && s.ring[0] != s.idle && z in s.tasks && s.tasks[z].state == Zombie
    ensures z in Wait(s).tasks ==> Wait(s).tasks[z].state == Zombie
  {
    hide FamilyOk, WakeOk, PidsOk, NoDup, Yield, StatesOk;
    var cur := s.tasks[s.ring[0]];
    if !(cur.kids == [] && !cur.waiting) && FirstZombie(s, cur.kids).None? {
      if cur.waiting { WokenFinds(s); }
      BlockingKeeps(s);
      YieldEffect(Blocking(s));
      assert SameTask(Blocking(s).tasks[z], Wait(s).tasks[z]);
    }
  }

  lemma ExitZombie(s: Sys, code: int, z: Ref)
    requires Inv(s) && s.ring[0] != s.idle && !s.tasks[s.ring[0]].waiting && z in s.tasks && s.tasks[z].state == Zombie
    ensures RingOk(Ended(s, code)) && z in Exit(s, code).tasks && Exit(s, code).tasks[z].state == Zombie
  {
    hide KidsOk, ParentsOk, WakeOk, PidsOk, NoDup, Yield, Ended, StatesOk;
    EndedKeeps(s, code);
    EndedTasks(s, code);
    YieldEffect(Ended(s, code));
    assert SameTask(Ended(s, code).tasks[z], Exit(s, code).tasks[z]);
  }

  // ---------------------------------------------------------------- bounded waiting

  /** Ticks that a task at ring distance `d` waits at most. */
  function Potential(s: Sys, d: nat): int
    requires RingOk(s)
  {
    SLICE * (d - 1) + s.tasks[s.ring[0]].ticks
  }

  /** Task `t` is ready at ring distance `d` from the current task. */
  ghost predicate ReadyAt(s: Sys, t: Ref, d: nat) {
    1 <= d < |s.ring| && s.ring[d] == t && t in s.tasks && s.tasks[t].state == Ready
  }

  lemma YieldPotential(s: Sys, t: Ref, d: nat) returns (d': nat)
    requires Core(s) && ReadyAt(s, t, d)
    ensures Inv(Yield(s))
    ensures Yield(s).ring[0] == t || (ReadyAt(Yield(s), t, d') && Potential(Yield(s), d') <= SLICE * (d - 1))
  {
    hide FamilyOk, WakeOk, PidsOk, StatesOk, Yield, Rotate, NoDup, Core, FirstStop;
    assert RingOk(s) by { CoreRing(s); }
    YieldKeeps(s);
    YieldEffect(s);
    var e := FirstStop(s, 1);
    RotateNoDup(s.ring, e);
    assert Stops(s, s.ring[d]);
    assert 1 <= e <= d;
    d' := d - e;
    if d' > 0 { RingDistinct(s.ring, d, e); RingDistinct(s.ring, d, 0); }
  }

  lemma RingDistinct(ring: seq<Ref>, i: nat, j: nat)
    requires NoDup(ring) && i < |ring| && j < |ring| && i != j
    ensures ring[i] != ring[j]
  {
  }

  lemma {:induction false} WithoutIndex(xs: seq<Ref>, x: Ref, d: nat) returns (d': nat)
    requires d < |xs| && xs[d] != x
    ensures d' <= d && d' < |Without(xs, x)| && Without(xs, x)[d'] == xs[d]
    ensures d > 0 && xs[0] != x ==> d' > 0
  {
    if xs[0] == x {
      d' := d - 1;
    } else if d == 0 {
      d' := 0;
    } else {
      var e := WithoutIndex(xs[1..], x, d - 1);
      d' := e + 1;
    }
  }

  function Cost(op: Op): int {
    if op.TickOp? || op.YieldOp? then 1 else if op.AddOp? then 0 - SLICE as int else 0
  }

  /** Every tick and every yield takes at least 1 off the potential of a ready task, a
      `scheduler_add` puts a slice on it, and nothing else raises it; until the task runs. */
  lemma StepPotential(s: Sys, op: Op, t: Ref, d: nat) returns (d': nat)
    requires Inv(s) && Enabled(s, op) && ReadyAt(s, t, d)
    ensures Inv(Step(s, op))
    ensures var s' := Step(s, op);
            s'.ring[0] == t || (ReadyAt(s', t, d') && Potential(s', d') <= Potential(s, d) - Cost(op))
  {
    hide FamilyOk, WakeOk, PidsOk, StatesOk, Yield, NoDup, Ended, Reaped, Blocking, Create, SetParent, FirstZombie,
        Without;
    StepKeeps(s, op);
    CurrentKnown(s);
    d' := d;
    match op {
      case TickOp =>
        WithTicksKeeps(s, s.tasks[s.ring[0]].ticks - 1);
        CurrentIsNot(s, t, d);
        if s.tasks[s.ring[0]].ticks == 1 { d' := YieldPotential(WithTicks(s, 0), t, d); }
      case YieldOp => d' := YieldPotential(s, t, d);
      case AddOp(u) => d' := d + 1;
      case CreateOp(u, cr3, ppid) => CreatePotential(s, u, cr3, ppid, t, d);
      case SetParentOp(u) => CurrentIsNot(s, t, d); SetParentPotential(s, u, t, d);
      case ExitOp(code) =>
        EndedKeeps(s, code);
        CurrentIsNot(s, t, d);
        EndedReady(s, code, t, d);
        d' := YieldPotential(Ended(s, code), t, d);
      case WaitOp => d' := WaitPotential(s, t, d);
    }
  }

  lemma CurrentIsNot(s: Sys, t: Ref, d: nat)
    requires RingOk(s) && ReadyAt(s, t, d)
    ensures t != s.ring[0]
  {
  }

  lemma CreatePotential(s: Sys, u: Ref, cr3: nat, ppid: nat, t: Ref, d: nat)
    requires RingOk(s) && ReadyAt(s, t, d) && u !in s.tasks && RingOk(Create(s, u, cr3, ppid))
    ensures ReadyAt(Create(s, u, cr3, ppid), t, d) && Potential(Create(s, u, cr3, ppid), d) == Potential(s, d)
  {
  }

  lemma SetParentPotential(s: Sys, u: Ref, t: Ref, d: nat)
    requires RingOk(s) && ReadyAt(s, t, d) && u in s.tasks && u != s.ring[0] && RingOk(SetParent(s, u))
    ensures ReadyAt(SetParent(s, u), t, d) && Potential(SetParent(s, u), d) == Potential(s, d)
  {
  }

  lemma EndedReady(s: Sys, code: int, t: Ref, d: nat)
    requires RingOk(s) && FamilyOk(s) && ReadyAt(s, t, d) && t != s.ring[0]
    ensures ReadyAt(Ended(s, code), t, d)
  {
    hide NoDup, FamilyOk, Ended, RingOk;
    EndedTasks(s, code);
    EndedRest(s, code);
  }

  lemma WaitPotential(s: Sys, t: Ref, d: nat) returns (d': nat)
    requires Inv(s) && s.ring[0] != s.idle && ReadyAt(s, t, d)
    ensures Inv(Wait(s))
    ensures Wait(s).ring[0] == t || (ReadyAt(Wait(s), t, d') && Potential(Wait(s), d') <= Potential(s, d))
  {
    hide FamilyOk, WakeOk, PidsOk, StatesOk, NoDup, Yield;
    WaitKeeps(s);
    CurrentKnown(s);
    CurrentIsNot(s, t, d);
    d' := d;
    var cur := s.tasks[s.ring[0]];
    if !(cur.kids == [] && !cur.waiting) {
      if cur.waiting { WokenFinds(s); }
      match FirstZombie(s, cur.kids) {
        case Some(z) =>
          ReapedKeeps(s, z);
          d' := WithoutIndex(s.ring, z, d);
        case None =>
          BlockingKeeps(s);
          d' := YieldPotential(Blocking(s), t, d);
      }
    }
  }

  /** At some point of the run `t` has the CPU. */
  ghost predicate GetsCpu(s: Sys, ops: seq<Op>, t: Ref)
    requires Inv(s) && Run(s, ops)
    decreases |ops|
  {
    s.ring[0] == t || (ops != [] && (StepKeeps(s, ops[0]); GetsCpu(Step(s, ops[0]), ops[1..], t)))
  }

  function TotalCost(ops: seq<Op>): int {
    if ops == [] then 0 else Cost(ops[0]) + TotalCost(ops[1..])
  }

  /** A ready task at ring distance `d` from the current one, which has r ticks left, gets the
      CPU within 5 * (d - 1) + r timer ticks, plus 5 for every `scheduler_add` meanwhile,
      whatever the tasks do. */
  lemma {:induction false} BoundedWait(s: Sys, ops: seq<Op>, t: Ref, d: nat)
    requires Inv(s) && Run(s, ops) && ReadyAt(s, t, d)
    requires TotalCost(ops) >= Potential(s, d)
    ensures GetsCpu(s, ops, t)
    decreases |ops|
  {
    hide RingOk, StatesOk, FamilyOk, WakeOk, PidsOk, Step;
    PotentialPositive(s, d);
    StepKeeps(s, ops[0]);
    var s' := Step(s, ops[0]);
    var d' := StepPotential(s, ops[0], t, d);
    CurrentRuns(s');
    if s'.ring[0] == t {
    } else {
      BoundedWait(s', ops[1..], t, d');
    }
  }

  lemma PotentialPositive(s: Sys, d: nat)
    requires Inv(s) && d >= 1
    ensures RingOk(s) && Potential(s, d) >= 1
  {
  }

  function TickRun(n: nat): seq<Op> {
    if n == 0 then [] else [TickOp] + TickRun(n - 1)
  }

  /** The bound is exact: when every task of the ring is ready and only the timer is at work, no
      smaller number of ticks is enough. */
  lemma {:induction false} BoundIsExact(s: Sys, n: nat, t: Ref, d: nat)
    requires Inv(s) && ReadyAt(s, t, d) && forall i | 1 <= i < |s.ring| :: s.tasks[s.ring[i]].state == Ready
    requires n < Potential(s, d)
    ensures Run(s, TickRun(n)) && !GetsCpu(s, TickRun(n), t)
    decreases n
  {
    hide Core, Yield, NoDup, Rotate, Tick;
    assert RingOk(s) by { CoreRing(s); }
    CurrentIsNot(s, t, d);
    if n == 0 {
    } else {
      StepKeeps(s, TickOp);
      assert TickRun(n)[1..] == TickRun(n - 1);
      var s' := Tick(s);
      assert RingOk(s') by { CoreRing(s'); }
      if s.tasks[s.ring[0]].ticks > 1 {
        TickStays(s);
        BoundIsExact(s', n - 1, t, d);
      } else {
        TickRotates(s);
        BoundIsExact(s', n - 1, t, d - 1);
      }
    }
  }

  /** A tick within the slice of the current task. */
  lemma TickStays(s: Sys)
    requires Inv(s) && s.tasks[s.ring[0]].ticks > 1
    ensures Tick(s) == WithTicks(s, s.tasks[s.ring[0]].ticks - 1) && Tick(s).ring == s.ring
    ensures forall i | 1 <= i < |s.ring| :: s.ring[i] in s.tasks && Tick(s).tasks[s.ring[i]] == s.tasks[s.ring[i]]
  {
    hide Yield;
  }

  /** With every task ready, a tick that ends a slice moves the ring on by one. */
  lemma TickRotates(s: Sys)
    requires Inv(s) && |s.ring| > 1 && s.tasks[s.ring[0]].ticks == 1
    requires forall i | 1 <= i < |s.ring| :: s.tasks[s.ring[i]].state == Ready
    ensures var s' := Tick(s);
      && |s'.ring| == |s.ring| && (forall i | 1 <= i < |s.ring| :: s'.ring[i - 1] == s.ring[i])
      && (forall i | 1 <= i < |s'.ring| :: s'.ring[i] in s'.tasks && s'.tasks[s'.ring[i]].state == Ready)
      && s'.ring[0] in s'.tasks && s'.tasks[s'.ring[0]].ticks == SLICE
  {
    hide FamilyOk, WakeOk, PidsOk, Core, Yield, Rotate, NoDup, StatesOk, Inv, RingOk, FirstStop;
    InvRing(s);
    var r := WithTicks(s, 0);
    WithTicksKeeps(s, 0);
    FirstDiffers(s.ring);
    assert FirstStop(r, 1) == 1 by { assert Stops(r, r.ring[1]); }
    YieldEffect(r);
    RotateNoDup(r.ring, 1);
    assert RingOk(r) by { CoreRing(r); }
    var s' := Yield(r);
    forall i | 1 <= i < |s'.ring| ensures s'.ring[i] in s'.tasks && s'.tasks[s'.ring[i]].state == Ready {
      if i + 1 < |s.ring| { assert s'.ring[i] == s.ring[i + 1] && s.ring[i + 1] in s.ring; }
      else {
        assert s'.ring[i] == s.ring[0] && s.ring[0] in s.ring && SameTask(r.tasks[s.ring[0]], s'.tasks[s.ring[0]]);
      }
    }
  }

  lemma InvRing(s: Sys)
    requires Inv(s)
    ensures Core(s) && RingOk(s) && |s.ring| > 0 && NoDup(s.ring) && (forall t | t in s.ring :: t in s.tasks)
    ensures s.tasks[s.ring[0]].state == Running && s.tasks[s.ring[0]].ticks > 0
  {
  }

  /** The second task of a run queue is none of the others. */
  lemma FirstDiffers(ring: seq<Ref>)
    requires NoDup(ring) && |ring| > 1
    ensures forall i | 0 <= i < |ring| && i != 1 :: ring[i] != ring[1]
  {
  }

  // ---------------------------------------------------------------- ends without task_exit

  /** The end of a task through `task_trampoline` or a user fault, up to the yield: the state
      changes and nobody is told. */
  function Died(s: Sys): Sys
    requires RingOk(s)
  {
    s.(tasks := WithState(s, s.ring[0], Zombie))
  }

  /** Such an end loses a wakeup exactly when the parent is blocked at that moment. */
  lemma DiedWake(s: Sys)
    requires Inv(s) && !s.tasks[s.ring[0]].waiting
    ensures WakeOk(Died(s)) <==>
      !(s.tasks[s.ring[0]].parent in s.tasks && s.tasks[s.tasks[s.ring[0]].parent].state == Blocked)
  {
    hide PidsOk, NoDup;
    var s', cur := Died(s), s.ring[0];
    forall p | p in s.tasks && p != cur ensures HasZombie(s', p) <==> HasZombie(s, p) || s.tasks[cur].parent == p {
      if s.tasks[cur].parent == p { assert cur in s'.tasks[p].kids; }
      if HasZombie(s, p) {
        var c :| c in s.tasks[p].kids && c in s.tasks && s.tasks[c].state == Zombie;
        assert c in s'.tasks[p].kids && s'.tasks[c].state == Zombie;
      }
    }
    var parent := s.tasks[cur].parent;
    if parent in s.tasks { assert parent != cur; }
  }

  /** A wait that blocks hands the CPU to a ready task right behind the current one. */
  lemma WaitHandsOver(s: Sys)
    requires Inv(s) && |s.ring| >= 2 && s.ring[0] != s.idle && s.ring[1] in s.tasks && s.tasks[s.ring[1]].state == Ready
    requires s.tasks[s.ring[0]].kids != [] && FirstZombie(s, s.tasks[s.ring[0]].kids).None?
    ensures var s' := Wait(s);
      && s'.ring == Rotate(s.ring, 1) && s'.ring[0] == s.ring[1] && s'.tasks.Keys == s.tasks.Keys
      && s'.tasks[s.ring[0]].state == Blocked && SameTask(s.tasks[s.ring[1]], s'.tasks[s.ring[1]])
  {
    hide NoDup, FamilyOk, WakeOk, PidsOk;
    BlockingKeeps(s);
    assert Stops(Blocking(s), s.ring[1]);
    YieldEffect(Blocking(s));
  }

  /** One step in front of a run. */
  lemma RunOne(s: Sys, op: Op, ops: seq<Op>)
    requires Inv(s) && Enabled(s, op) && Inv(Step(s, op)) && Run(Step(s, op), ops)
    ensures Run(s, [op] + ops) && After(s, [op] + ops) == After(Step(s, op), ops)
  {
    hide Inv, Enabled, Step;
    assert ([op] + ops)[1..] == ops;
  }

  /** A kernel can lose a wakeup: a task creates a child, queues it and waits, and the child ends
      through its trampoline. */
  lemma LostWakeup(boot: Ref, idle: Ref, c: Ref, cr3: nat)
    requires boot != NULL && idle != NULL && c != NULL && boot != idle && c != boot && c != idle && cr3 != 0
    ensures var s := Boot(boot, idle, cr3); var ops := [CreateOp(c, cr3, 0), SetParentOp(c), AddOp(c), WaitOp];
      && Inv(s) && Run(s, ops)
      && var s' := After(s, ops); s'.ring[0] == c && !s'.tasks[c].waiting && !WakeOk(Died(s'))
  {
    hide NoDup, PidsOk, FamilyOk, StatesOk, RingOk, Core, WakeOk, Yield, FirstStop, Rotate;
    var s0 := Boot(boot, idle, cr3);
    BootInv(boot, idle, cr3);
    var s1 := Create(s0, c, cr3, 0);
    CreateKeeps(s0, c, cr3, 0);
    CoreRing(s1);
    var s2 := SetParent(s1, c);
    SetParentKeeps(s1, c);
    var s3 := Add(s2, c);
    AddKeeps(s2, c);
    CoreRing(s0);
    CoreRing(s2);
    CoreRing(s3);
    assert s3.ring == [boot, c, idle];
    assert FirstZombie(s3, s3.tasks[boot].kids).None?;
    WaitHandsOver(s3);
    var s4 := Wait(s3);
    WaitKeeps(s3);
    RunOne(s3, WaitOp, []);
    RunOne(s2, AddOp(c), [WaitOp]);
    RunOne(s1, SetParentOp(c), [AddOp(c), WaitOp]);
    RunOne(s0, CreateOp(c, cr3, 0), [SetParentOp(c), AddOp(c), WaitOp]);
    DiedWake(s4);
  }
}
