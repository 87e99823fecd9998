/** The task structures themselves: circular run queue, child lists and scheduler variables as
    pointers between structures in the kernel heap (src/task.c, src/scheduler.c, src/timer.c).
    The methods refine the steps of `Lifecycle`. */
module Tasks {
  import opened Base
  import opened Lifecycle

  /** `task_t`. `stack` is the physical address of the kernel stack, 0 for none; `ownSpace` says
      that `pml4` is set. */
  datatype Struct = Struct(next: Ref, state: State, pid: nat, ppid: nat, parent: Ref, firstChild: Ref,
                           nextSibling: Ref, exitCode: int, ticks: nat, cr3: nat, stack: nat, ownSpace: bool)

  type Store = map<Ref, Struct>

  /** The `next` pointers run through `ring` and back to its start. */
  ghost predicate Links(store: Store, ring: seq<Ref>) {
    forall i | 0 <= i < |ring| :: ring[i] in store && store[ring[i]].next == Following(ring, i, ring[0])
  }

  /** The element behind index `i`, or `end` at the end. */
  function Following(xs: seq<Ref>, i: nat, end: Ref): Ref
    requires i < |xs|
  {
    if i + 1 < |xs| then xs[i + 1] else end
  }

  /** `head` and the `nextSibling` pointers run through `kids` and end with NULL. */
  ghost predicate Chain(store: Store, head: Ref, kids: seq<Ref>) {
    && head == (if kids == [] then NULL else kids[0])
    && forall i | 0 <= i < |kids| :: kids[i] in store && store[kids[i]].nextSibling == Following(kids, i, NULL)
  }

  predicate SameFields(c: Struct, t: Task) {
    && c.state == t.state && c.pid == t.pid && c.ppid == t.ppid && c.parent == t.parent
    && c.exitCode == t.code && c.ticks == t.ticks && c.cr3 == t.cr3
  }

  ghost predicate FieldsOk(store: Store, tasks: map<Ref, Task>) {
    forall t | t in tasks :: t in store && SameFields(store[t], tasks[t])
  }

  ghost predicate ChainsOk(store: Store, tasks: map<Ref, Task>) {
    forall t | t in tasks :: t in store && Chain(store, store[t].firstChild, tasks[t].kids)
  }

  /** The structures are the same, with the same kernel stacks and address spaces. */
  ghost predicate SameResources(store: Store, store': Store) {
    && store'.Keys == store.Keys
    && forall t | t in store ::
          store'[t].cr3 == store[t].cr3 && store'[t].stack == store[t].stack && store'[t].ownSpace == store[t].ownSpace
  }

  class TaskTable {
    /** The live structures, by address; reading through any other address is an error. */
    var store: Store
    var current: Ref
    var idle: Ref
    var nextPid: nat
    var cr3: nat

    /** The abstract state. */
    ghost var sys: Sys

    /** The structures represent `sys`; those in `loose` are linked nowhere any more but not yet
        freed. */
    ghost predicate Represents(loose: set<Ref>)
      reads this
    {
      && |sys.ring| > 0
      && store.Keys == sys.tasks.Keys + loose && sys.tasks.Keys !! loose
      && current == sys.ring[0] && idle == sys.idle && cr3 == sys.loaded && nextPid == sys.created % PID_SPACE
      && Links(store, sys.ring) && FieldsOk(store, sys.tasks) && ChainsOk(store, sys.tasks)
    }

    ghost predicate Valid()
      reads this
    {
      Represents({}) && Inv(sys)
    }

    /** `scheduler_init`: the bootstrap task runs, and the idle task is next in the queue. */
    constructor (bootstrap: Ref, idleTask: Ref, idleStack: nat, kernelCr3: nat)
      requires bootstrap != idleTask && bootstrap != NULL && idleTask != NULL && kernelCr3 != 0
      ensures Valid() && sys == Boot(bootstrap, idleTask, kernelCr3)
      ensures store.Keys == {bootstrap, idleTask} && current == bootstrap && idle == idleTask
      ensures store[bootstrap].pid == 0 && store[idleTask].pid == 1 && nextPid == 2
      ensures store[bootstrap].state == Running && store[idleTask].state == Ready
      ensures store[bootstrap].ticks == 5 && store[idleTask].ticks == 5
      ensures store[bootstrap].next == idleTask && store[idleTask].next == bootstrap
      ensures store[bootstrap].stack == 0 && !store[bootstrap].ownSpace && store[bootstrap].cr3 == kernelCr3
      ensures store[idleTask].stack == idleStack && !store[idleTask].ownSpace && store[idleTask].cr3 == kernelCr3
    {
      store := map[bootstrap := Struct(idleTask, Running, 0, 0, NULL, NULL, NULL, 0, SLICE, kernelCr3, 0, false),
                   idleTask := Struct(bootstrap, Ready, 1, 0, NULL, NULL, NULL, 0, SLICE, kernelCr3, idleStack, false)];
      current, idle, nextPid, cr3 := bootstrap, idleTask, 2, kernelCr3;
      sys := Boot(bootstrap, idleTask, kernelCr3);
      new;
      hide Inv, Links, FieldsOk, ChainsOk;
      BootInv(bootstrap, idleTask, kernelCr3);
      BootStore(store, bootstrap, idleTask, kernelCr3);
    }

    /** The search loop of `scheduler_yield`. */
    method PickNext() returns (next: Ref)
      requires Represents({}) && RingOk(sys) && StatesOk(sys)
      ensures next in store && next in sys.ring && next == Rotate(sys.ring, FirstStop(sys, 1))[0]
    {
      hide NoDup, RingOk, FirstStop, FieldsOk, ChainsOk, StatesOk, Stops, Links, Rotate;
      NextAlong(store, sys.ring, 0);
      var old_ := current;
      next := store[old_].next;
      ghost var k := 1;
      while (store[next].state == Zombie || store[next].state == Blocked) && next != idle
        invariant 1 <= k <= |sys.ring| && next == (if k < |sys.ring| then sys.ring[k] else sys.ring[0])
        invariant next in store && next in sys.ring
        invariant forall j | 1 <= j < k :: !Stops(sys, sys.ring[j])
        decreases |sys.ring| - k
      {
        StopsByState(store, sys, next);
        ScanNotDone(sys, k);
        NextAlong(store, sys.ring, k);
        next := store[next].next;
        if next == store[old_].next {
          next := idle;
          break;
        }
        k := k + 1;
      }
      StopsByState(store, sys, next);
      FirstStopIs(sys, k);
      YieldTarget(sys);
      if store[next].state == Zombie || store[next].state == Blocked {
        next := idle;
      }
    }

    /** `scheduler_yield`, without the register switch. */
    method SchedulerYield()
      requires Represents({}) && Core(sys)
      modifies this
      ensures Valid() && sys == Yield(old(sys)) && SameResources(old(store), store)
    {
      hide Core, Inv, RingOk, StatesOk, FirstStop, Rotate, Links, FieldsOk, ChainsOk, Yield, Switched, SameResources;
      CoreParts(sys);
      YieldStore(store, sys);
      YieldKeeps(sys);
      var next := PickNext();
      var old_ := current;
      SwitchedResources(store, old_, next);
      SwitchStates(old_, next);
      current := next;
      if old_ != next {
        if store[next].cr3 != 0 && store[next].cr3 != cr3 { cr3 := store[next].cr3; }
      }
      sys := Yield(sys);
    }

    /** The state updates of `scheduler_yield`. */
    method SwitchStates(old_: Ref, next: Ref)
      requires old_ in store && next in store
      modifies this`store
      ensures store == Switched(old(store), old_, next)
      ensures next in store && store[next].cr3 == old(store)[next].cr3
    {
      if store[old_].state == Running { store := store[old_ := store[old_].(state := Ready)]; }
      store := store[next := store[next].(state := Running)];
      store := store[next := store[next].(ticks := SLICE)];
    }

    /** The timer branch of `irq_handler`. */
    method TimerTick()
      requires Valid()
      modifies this
      ensures Valid() && sys == Tick(old(sys)) && SameResources(old(store), store)
    {
      hide Core, RingOk, Represents, Yield, SameResources;
      TickFacts();
      if current != NULL && store[current].state == Running {
        ghost var s := sys;
        CountDown();
        if store[current].ticks == 0 {
          ghost var store1 := store;
          SchedulerYield();
          ResourcesTrans(old(store), store1, store);
        } else {
          TickKeeps(s);
        }
      }
    }

    lemma TickFacts()
      requires Valid()
      ensures RingOk(sys) && current == sys.ring[0] && current in store && current in sys.tasks && current != NULL
      ensures store[current].state == sys.tasks[current].state && store[current].ticks == sys.tasks[current].ticks
      ensures Represents({})
    {
      hide Core, RingOk, Links, FieldsOk, ChainsOk;
      CoreParts(sys);
      CurrentKnown(sys);
      FieldsAt(store, sys.tasks, current);
    }

    /** One tick off the slice of the running task. */
    method CountDown()
      requires Valid()
      modifies this
      ensures Represents({}) && RingOk(old(sys)) && old(sys.tasks[sys.ring[0]].ticks >= 1)
      ensures Core(sys) && sys == WithTicks(old(sys), old(sys.tasks[sys.ring[0]].ticks) - 1)
      ensures current in store && store[current].ticks == old(sys.tasks[sys.ring[0]].ticks) - 1
      ensures SameResources(old(store), store)
    {
      hide Core, RingOk, Links, FieldsOk, ChainsOk, Chain, SameResources;
      CoreParts(sys);
      CurrentKnown(sys);
      TickStore(store, sys, store[current].ticks - 1);
      WithTicksKeeps(sys, sys.tasks[sys.ring[0]].ticks - 1);
      if store[current].ticks > 0 {
        store := store[current := store[current].(ticks := store[current].ticks - 1)];
      }
      ResourcesUpdate(old(store), store, current);
      sys := WithTicks(sys, sys.tasks[sys.ring[0]].ticks - 1);
    }

    /** `scheduler_add`. */
    method SchedulerAdd(t: Ref)
      requires Valid() && t in sys.tasks && t !in sys.ring
      modifies this
      ensures Valid() && sys == Add(old(sys), t) && SameResources(old(store), store)
      ensures t in store && current in store && t != current && store.Keys == old(store).Keys
      ensures store[current] == old(store)[current].(next := t)
      ensures store[t] == old(store)[t].(next := old(store)[current].next)
      ensures forall u | u in store && u != t && u != current :: store[u] == old(store)[u]
    {
      hide Core, RingOk, StatesOk, Links, FieldsOk, ChainsOk, Chain, SameResources;
      CoreParts(sys);
      AddKeeps(sys, t);
      AddStore(store, sys, t);
      store := store[t := store[t].(next := store[current].next)];
      store := store[current := store[current].(next := t)];
      AddedResources(old(store), current, t);
      sys := Add(sys, t);
    }

    /** The common end of `task_create`, `task_create_user` and `task_create_elf`: fills in a
        structure that was just allocated. */
    method InitStruct(t: Ref, space: nat, ppid: nat, stack: nat, ownSpace: bool)
      requires Valid() && t !in store && t != NULL && space != 0
      modifies this
      ensures Valid() && sys == Create(old(sys), t, space, ppid)
      ensures store.Keys == old(store.Keys) + {t} && store[t].stack == stack && store[t].ownSpace == ownSpace
      ensures store[t].cr3 == space && store[t].state == Ready && store[t].ticks == 5
      ensures store[t].pid == old(nextPid) && nextPid == (old(nextPid) + 1) % 0x1_0000_0000 && store[t].ppid == ppid
      ensures store[t].parent == store[t].firstChild == store[t].nextSibling == NULL
      ensures forall u | u in old(store) :: store[u] == old(store)[u]
    {
      hide Core, RingOk, StatesOk, Links, FieldsOk, ChainsOk, Chain;
      CoreParts(sys);
      CreateKeeps(sys, t, space, ppid);
      var c := Struct(NULL, Ready, nextPid, ppid, NULL, NULL, NULL, 0, SLICE, space, stack, ownSpace);
      CreateStore(store, sys, t, space, ppid, c);
      store := store[t := c];
      nextPid := (nextPid + 1) % PID_SPACE;
      PidStep(sys.created);
      sys := Create(sys, t, space, ppid);
    }

    /** `task_set_parent` with the current task as the parent. */
    method SetParentTo(child: Ref, parent: Ref)
      requires Valid() && parent == current && !sys.tasks[parent].waiting
      requires child in sys.tasks && child != parent && sys.tasks[child].parent == NULL
        && sys.tasks[child].state != Zombie
      modifies this
      ensures Valid() && sys == SetParent(old(sys), child) && SameResources(old(store), store)
      ensures child in store && parent in store && store.Keys == old(store).Keys
      ensures var c, p := old(store)[child], old(store)[parent];
        && store[child] == c.(parent := parent, ppid := p.pid, nextSibling := p.firstChild)
        && store[parent] == p.(firstChild := child)
      ensures forall t | t in store && t != child && t != parent :: store[t] == old(store)[t]
    {
      hide Core, RingOk, StatesOk, KidsOk, ParentsOk, Links, FieldsOk, ChainsOk, Chain, SameResources;
      CoreParts(sys);
      CoreFamily(sys);
      SetParentKeeps(sys, child);
      SetParentStore(store, sys, child);
      SetParentRest(sys, child);
      hide SetParent, Adopted;
      store := store[child := store[child].(parent := parent, ppid := store[parent].pid)];
      store := store[child := store[child].(nextSibling := store[parent].firstChild)];
      store := store[parent := store[parent].(firstChild := child)];
      AdoptedIs(old(store), child, parent);
      AdoptedResources(old(store), child, parent);
      sys := SetParent(sys, child);
    }

    /** The loop of `task_exit` over the children of the ending task. */
    method OrphanChildren(head: Ref, ghost kids: seq<Ref>)
      requires Chain(store, head, kids) && NULL !in store && NoDup(kids)
      modifies this`store
      ensures store == Orphaned(old(store), kids)
    {
      var child := head;
      ghost var i := 0;
      assert kids[..0] == [];
      while child != NULL
        invariant 0 <= i <= |kids| && child == (if i < |kids| then kids[i] else NULL)
        invariant store == Orphaned(old(store), kids[..i])
        invariant child != NULL ==> child in store
        decreases |kids| - i
      {
        OrphanedStep(old(store), kids, i);
        store := store[child := store[child].(parent := NULL, ppid := 0)];
        child := store[child].nextSibling;
        i := i + 1;
      }
      assert kids[..i] == kids;
    }

    /** `task_exit`. */
    method TaskExit(code: int)
      requires Valid() && current != idle && !sys.tasks[current].waiting
      modifies this
      ensures Valid() && RingOk(old(Ended(sys, code))) && sys == Exit(old(sys), code)
        && SameResources(old(store), store)
    {
      hide SameResources, Core, RingOk, StatesOk, KidsOk, ParentsOk, Links, FieldsOk, ChainsOk, Chain, Ended,
          EndStore, Yield;
      CoreParts(sys);
      CoreFamily(sys);
      EndedKeeps(sys, code);
      CoreParts(Ended(sys, code));
      EndedStore(store, sys, code);
      EndResources(store, current, sys.tasks[sys.ring[0]].kids, code);
      MarkEnded(code, sys.tasks[sys.ring[0]].kids);
      ghost var store1 := store;
      sys := Ended(sys, code);
      SchedulerYield();
      ResourcesTrans(old(store), store1, store);
    }

    /** `task_exit` up to its yield. */
    method MarkEnded(code: int, ghost kids: seq<Ref>)
      requires current in store && NULL !in store && NoDup(kids)
      requires var store0 := store[current := store[current].(exitCode := code)];
               Chain(store0, store0[current].firstChild, kids)
      requires var p := EndStore(store, current, kids, code)[current].parent; p != NULL ==> p in store
      modifies this`store
      ensures store == EndStore(old(store), current, kids, code)
    {
      hide NoDup, Chain, Orphaned;
      store := store[current := store[current].(exitCode := code)];
      OrphanChildren(store[current].firstChild, kids);
      store := store[current := store[current].(firstChild := NULL)];
      store := store[current := store[current].(state := Zombie)];
      var parent := store[current].parent;
      if parent != NULL && store[parent].state == Blocked {
        store := store[parent := store[parent].(state := Ready)];
      }
    }

    /** The search loop of `task_wait` over the children of the current task. */
    method FindZombie() returns (found: Option<Ref>)
      requires Valid()
      ensures found == FirstZombie(sys, sys.tasks[current].kids)
    {
      hide Core, RingOk, StatesOk, Links, FieldsOk, ChainsOk, FirstZombie;
      CoreParts(sys);
      CurrentKnown(sys);
      ghost var kids := sys.tasks[current].kids;
      ChainAt(store, sys.tasks, current);
      var child := store[current].firstChild;
      ghost var i := 0;
      assert kids[0..] == kids;
      while child != NULL
        invariant 0 <= i <= |kids| && child == (if i < |kids| then kids[i] else NULL)
        invariant FirstZombie(sys, kids) == FirstZombie(sys, kids[i..])
        decreases |kids| - i
      {
        ScanStep(store, sys, kids, i);
        if store[child].state == Zombie { return Some(child); }
        child := store[child].nextSibling;
        i := i + 1;
      }
      ScanEnd(sys, kids[i..]);
      return None;
    }

    /** `task_wait` when no child has ended: the task blocks. */
    method Block()
      requires Valid() && current != idle
      requires sys.tasks[current].kids != [] && FirstZombie(sys, sys.tasks[current].kids).None?
      modifies this
      ensures Valid() && RingOk(old(Blocking(sys))) && sys == Yield(old(Blocking(sys)))
        && SameResources(old(store), store)
    {
      hide SameResources, Core, RingOk, StatesOk, Links, FieldsOk, ChainsOk, FirstZombie, Yield;
      CoreParts(sys);
      BlockingKeeps(sys);
      CoreParts(Blocking(sys));
      BlockingStore(store, sys);
      store := store[current := store[current].(state := Blocked)];
      ghost var store1 := store;
      ResourcesUpdate(old(store), store, current);
      sys := Blocking(sys);
      SchedulerYield();
      ResourcesTrans(old(store), store1, store);
    }

    /** `remove_from_children_list`: exactly the child leaves the list. One that is in the list of
        nobody only loses its link to a next sibling, and NULL arguments change nothing. */
    method RemoveFromChildrenList(child: Ref, parent: Ref, ghost kids: seq<Ref>)
      requires NULL !in store && (child != NULL ==> child in store)
      requires parent != NULL ==>
          parent in store && Chain(store, store[parent].firstChild, kids) && NoDup(kids) && parent !in kids
      modifies this`store
      ensures store.Keys == old(store.Keys)
      ensures parent == NULL || child == NULL ==> store == old(store)
      ensures parent != NULL && child != NULL ==>
                && Chain(store, store[parent].firstChild, Without(kids, child))
                && (forall t | t in store ::
                      OnlySiblings(old(store)[t], store[t], t in kids || t == child, t == parent))
      ensures parent != NULL && child != NULL && child !in kids ==>
          store == old(store)[child := old(store)[child].(nextSibling := NULL)]
    {
      hide NoDup, Chain, Without;
      if parent == NULL || child == NULL { return; }
      ghost var store0, head := store, store[parent].firstChild;
      if store[parent].firstChild == child {
        HeadListed(store, head, kids, child);
        UnlinkHead(store, head, kids, child, parent);
        store := store[parent := store[parent].(firstChild := store[child].nextSibling)];
      } else {
        var prev := store[parent].firstChild;
        ghost var k := 0;
        NotHead(store, head, kids, child);
        while prev != NULL && store[prev].nextSibling != child
          invariant store == store0 && 0 <= k <= |kids| && prev == (if k < |kids| then kids[k] else NULL)
          invariant if prev == NULL then k == |kids| else prev in store
          invariant child !in (if k < |kids| then kids[..k + 1] else kids)
          decreases |kids| - k
        {
          ScanOn(store, head, kids, child, k);
          prev := store[prev].nextSibling;
          k := k + 1;
        }
        if prev != NULL {
          UnlinkAt(store, head, kids, child, k);
          store := store[prev := store[prev].(nextSibling := store[child].nextSibling)];
        } else {
          Unlisted(store, head, kids, child);
        }
      }
      store := store[child := store[child].(nextSibling := NULL)];
    }

    /** `remove_from_scheduler`: exactly the task leaves the ring; one that is not in the ring, or
        NULL, changes nothing. */
    method RemoveFromScheduler(t: Ref, ghost ring: seq<Ref>)
      requires |ring| > 0 && current == ring[0] && Links(store, ring) && NoDup(ring) && NULL !in ring
      modifies this`store
      ensures store.Keys == old(store.Keys) && Links(store, Without(ring, t))
      ensures t != current ==> Without(ring, t) != [] && Without(ring, t)[0] == ring[0]
      ensures forall u | u in store :: store[u] == old(store)[u].(next := store[u].next)
      ensures t !in ring ==> store == old(store)
    {
      hide NoDup, Links, Without;
      RingStart(ring, t);
      if t == NULL {
        NotInRing(ring, t);
        return;
      }
      var prev := current;
      ghost var k, store0 := 0, store;
      NextAlong(store, ring, k);
      while store[prev].next != t && store[prev].next != current
        invariant store == store0 && 0 <= k < |ring| && prev == ring[k] && t !in ring[1..k + 1]
        invariant prev in store && store[prev].next == (if k + 1 < |ring| then ring[k + 1] else ring[0])
        decreases |ring| - k
      {
        RingOn(ring, t, k);
        prev := store[prev].next;
        k := k + 1;
        NextAlong(store, ring, k);
      }
      if k + 1 < |ring| {
        RingStop(ring, k);
        RingUnlink(store, ring, k);
      } else if t == current {
        RingHeadOut(store, ring);
      } else {
        RingDone(ring, t);
      }
      if store[prev].next == t {
        store := store[prev := store[prev].(next := store[t].next)];
      }
    }

    /** The first half of `task_reap`: the zombie leaves its parent's list and the run queue. */
    method Unlink(z: Ref)
      requires Valid() && z in sys.tasks && z in sys.tasks[current].kids && sys.tasks[z].state == Zombie
      modifies this
      ensures z in store && z != current && old(z in store && RingOk(sys) && z != sys.ring[0])
      ensures Represents({z}) && Inv(sys) && sys == Reaped(old(sys), z)
      ensures SameResources(old(store), store)
    {
      hide SameResources, Core, RingOk, StatesOk, KidsOk, ParentsOk, Links, FieldsOk, ChainsOk, Reaped, Without;
      CoreParts(sys);
      CoreFamily(sys);
      ReapedShape(sys, z);
      ReapedKeeps(sys, z);
      UnlinkPointers(z);
      sys := Reaped(sys, z);
    }

    /** The two removals of `task_reap`. */
    method UnlinkPointers(z: Ref)
      requires Represents({}) && RingOk(sys) && StatesOk(sys) && FamilyOk(sys)
        && sys.tasks[sys.ring[0]].state == Running
      requires z in sys.tasks && z in sys.tasks[sys.ring[0]].kids && sys.tasks[z].state == Zombie
      modifies this`store
      ensures store.Keys == old(store.Keys) && z in store && z != sys.ring[0]
      ensures Without(sys.ring, z) != [] && Without(sys.ring, z)[0] == sys.ring[0] && Links(store, Without(sys.ring, z))
      ensures FieldsOk(store, Reaped(sys, z).tasks) && ChainsOk(store, Reaped(sys, z).tasks)
      ensures SameResources(old(store), store)
    {
      hide SameResources, RingOk, StatesOk, KidsOk, ParentsOk, Links, FieldsOk, ChainsOk, Chain, Without,
          OnlySiblings, Reaped;
      ReapFacts(store, sys, z);
      ghost var store0, kids := store, sys.tasks[sys.ring[0]].kids;
      RemoveFromChildrenList(z, store[z].parent, kids);
      ghost var store1 := store;
      SiblingsLinks(store0, store1, sys.ring, kids, current);
      RemoveFromScheduler(z, sys.ring);
      SiblingsResources(store0, store1, store, kids, current);
      UnlinkedStore(store0, store1, store, sys, z);
    }

    /** The end of `task_reap`: the structure goes back to the heap. */
    method Drop(z: Ref)
      requires Represents({z}) && Inv(sys)
      modifies this`store
      ensures Valid() && store == old(store) - {z}
    {
      hide Core, RingOk, KidsOk, Links, FieldsOk, ChainsOk;
      CoreParts(sys);
      CoreFamily(sys);
      DropStore(store, sys, z);
      store := store - {z};
    }
  }

  /** No pointer that the kernel follows refers to a structure that is gone: the parent, the head of
      the child list, the next task in the queue, and the next sibling of a task that is in a child
      list. After `Unlink` the structure in `loose` counts as gone. */
  lemma PointersLive(table: TaskTable, loose: set<Ref>, t: Ref)
    requires table.Represents(loose) && Inv(table.sys) && t in table.sys.tasks
    ensures t in table.store && var c, live := table.store[t], table.sys.tasks.Keys;
      && (c.parent == NULL || c.parent in live)
      && (c.firstChild == NULL || c.firstChild in live)
      && (t in table.sys.ring ==> c.next in live)
      && (c.parent != NULL ==> c.nextSibling == NULL || c.nextSibling in live)
  {
    hide Core, RingOk, KidsOk, ParentsOk, Chain, ChainsOk, FieldsOk, Links;
    CoreParts(table.sys);
    CoreFamily(table.sys);
    FieldsAt(table.store, table.sys.tasks, t);
    ChainAt(table.store, table.sys.tasks, t);
    ChainEnds(table.store, table.store[t].firstChild, table.sys.tasks[t].kids);
    FamilyAt(table.sys, t);
    if t in table.sys.ring { NextLive(table.store, table.sys, t); }
    var p := table.sys.tasks[t].parent;
    if p != NULL {
      FamilyAt(table.sys, p);
      ChainAt(table.store, table.sys.tasks, p);
      SiblingAlong(table.store, table.store[p].firstChild, table.sys.tasks[p].kids, t);
    }
  }

  lemma NextLive(store: Store, s: Sys, t: Ref)
    requires RingOk(s) && Links(store, s.ring) && t in s.ring
    ensures t in store && store[t].next in s.tasks
  {
    hide NoDup, Links;
    var i :| 0 <= i < |s.ring| && s.ring[i] == t;
    NextAlong(store, s.ring, i);
  }

  lemma ChainEnds(store: Store, head: Ref, kids: seq<Ref>)
    requires Chain(store, head, kids)
    ensures head == NULL || head in kids
  {
  }

  lemma SiblingAlong(store: Store, head: Ref, kids: seq<Ref>, c: Ref)
    requires Chain(store, head, kids) && c in kids
    ensures c in store && (store[c].nextSibling == NULL || store[c].nextSibling in kids)
  {
    var i :| 0 <= i < |kids| && kids[i] == c;
  }

  /** The next sibling of a task without a parent is another matter: `task_exit` takes the children
      of the ending task out of its list, but leaves their links to each other as they are. */
  lemma OrphansKeepLinks(store: Store, cur: Ref, kids: seq<Ref>, code: int, i: nat)
    requires cur in store && cur !in kids && NULL !in store && store[cur].parent != cur && i < |kids|
    requires store[cur].parent != NULL ==> store[cur].parent in store
    requires Chain(store, store[cur].firstChild, kids)
    ensures var c := EndStore(store, cur, kids, code)[kids[i]];
        c.parent == NULL && c.nextSibling == Following(kids, i, NULL)
  {
    hide EndStore;
    EndStructs(store, cur, kids, code);
  }

  lemma BootStore(store: Store, bootstrap: Ref, idleTask: Ref, kernelCr3: nat)
    requires bootstrap != idleTask && store.Keys == {bootstrap, idleTask}
    requires store[bootstrap].next == idleTask && store[idleTask].next == bootstrap
    requires store[bootstrap].firstChild == NULL && store[idleTask].firstChild == NULL
    requires SameFields(store[bootstrap], Boot(bootstrap, idleTask, kernelCr3).tasks[bootstrap])
    requires SameFields(store[idleTask], Boot(bootstrap, idleTask, kernelCr3).tasks[idleTask])
    ensures var s := Boot(bootstrap, idleTask, kernelCr3);
        Links(store, s.ring) && FieldsOk(store, s.tasks) && ChainsOk(store, s.tasks)
  {
    hide Chain;
    ChainEmpty(store);
  }

  lemma ResourcesTrans(store: Store, store1: Store, store2: Store)
    requires SameResources(store, store1) && SameResources(store1, store2)
    ensures SameResources(store, store2)
  {
  }

  lemma ResourcesUpdate(store: Store, store': Store, t: Ref)
    requires t in store && t in store' && store' == store[t := store'[t]]
    requires store'[t].cr3 == store[t].cr3 && store'[t].stack == store[t].stack
      && store'[t].ownSpace == store[t].ownSpace
    ensures SameResources(store, store')
  {
  }

  lemma SwitchedResources(store: Store, old_: Ref, next: Ref)
    requires old_ in store && next in store
    ensures SameResources(store, Switched(store, old_, next))
  {
  }

  lemma AddedResources(store: Store, cur: Ref, t: Ref)
    requires cur in store && t in store
    ensures SameResources(store, Added(store, cur, t))
  {
  }

  lemma AdoptedResources(store: Store, c: Ref, p: Ref)
    requires c in store && p in store
    ensures SameResources(store, Adopted(store, c, p))
  {
  }

  lemma EndResources(store: Store, cur: Ref, kids: seq<Ref>, code: int)
    requires cur in store
    ensures SameResources(store, EndStore(store, cur, kids, code))
  {
  }

  lemma CoreFamily(s: Sys)
    requires Core(s)
    ensures KidsOk(s) && ParentsOk(s)
  {
  }

  lemma CoreParts(s: Sys)
    requires Core(s)
    ensures RingOk(s) && StatesOk(s)
  {
  }

  lemma NextAlong(store: Store, ring: seq<Ref>, k: nat)
    requires Links(store, ring) && k < |ring|
    ensures ring[k] in store && store[ring[k]].next == (if k + 1 < |ring| then ring[k + 1] else ring[0])
    ensures ring[0] in store && (k + 1 < |ring| ==> ring[k + 1] in store)
  {
  }

  lemma StopsByState(store: Store, s: Sys, t: Ref)
    requires FieldsOk(store, s.tasks) && t in s.tasks && t in store
    requires s.tasks.Keys == store.Keys
    ensures Stops(s, t) <==> t == s.idle || !(store[t].state == Zombie || store[t].state == Blocked)
  {
  }

  lemma FirstStopIs(s: Sys, k: nat)
    requires 1 <= k <= |s.ring| && (forall j | 1 <= j < k :: !Stops(s, s.ring[j]))
    requires k < |s.ring| ==> Stops(s, s.ring[k])
    ensures FirstStop(s, 1) == k
  {
  }

  /** The scan meets the idle task before it comes around. */
  lemma ScanNotDone(s: Sys, k: nat)
    requires RingOk(s) && 1 <= k <= |s.ring| && (forall j | 1 <= j < k :: !Stops(s, s.ring[j]))
    requires !Stops(s, if k < |s.ring| then s.ring[k] else s.ring[0])
    ensures k < |s.ring|
    ensures k + 1 < |s.ring| ==> s.ring[k + 1] != s.ring[1]
    ensures s.ring[0] != s.ring[1]
  {
    var i :| 0 <= i < |s.ring| && s.ring[i] == s.idle;
    assert Stops(s, s.idle);
  }

  /** The writes of a yield from `old_` to `next`. */
  function Switched(store: Store, old_: Ref, next: Ref): Store
    requires old_ in store && next in store
  {
    var store1 := if store[old_].state == Running then store[old_ := store[old_].(state := Ready)] else store;
    var store2 := store1[next := store1[next].(state := Running)];
    store2[next := store2[next].(ticks := SLICE)]
  }

  /** The structures after a yield represent the abstract state after it. */
  lemma YieldStore(store: Store, s: Sys)
    requires Core(s) && store.Keys == s.tasks.Keys
    requires Links(store, s.ring) && FieldsOk(store, s.tasks) && ChainsOk(store, s.tasks)
    ensures var s' := Yield(s);
      && |s.ring| > 0 && |s'.ring| > 0 && s.ring[0] in store && s'.ring[0] in store
      && s'.ring == Rotate(s.ring, FirstStop(s, 1))
      && var store' := Switched(store, s.ring[0], s'.ring[0]);
      && store'.Keys == s'.tasks.Keys
      && Links(store', s'.ring) && FieldsOk(store', s'.tasks) && ChainsOk(store', s'.tasks)
      && s'.loaded == (if s'.ring[0] == s.ring[0] then s.loaded else store[s'.ring[0]].cr3)
      && store[s'.ring[0]].cr3 != 0 && s'.created == s.created && s'.idle == s.idle
  {
    hide NoDup, FamilyOk, WakeOk, PidsOk, Chain, Rotate, FirstStop, Yield, Links;
    YieldEffect(s);
    var s' := Yield(s);
    SwitchedFields(store, s);
    SwitchedRest(store, s.ring[0], s'.ring[0]);
    var store' := Switched(store, s.ring[0], s'.ring[0]);
    RotatedLinks(store, store', s.ring, FirstStop(s, 1));
    forall t | t in s'.tasks ensures t in store' && Chain(store', store'[t].firstChild, s'.tasks[t].kids) {
      assert SameTask(s.tasks[t], s'.tasks[t]);
      ChainKept(store, store', store[t].firstChild, s.tasks[t].kids);
    }
  }

  lemma SwitchedRest(store: Store, old_: Ref, next: Ref)
    requires old_ in store && next in store
    ensures Switched(store, old_, next).Keys == store.Keys
    ensures forall t | t in store :: var c := Switched(store, old_, next)[t];
      c.next == store[t].next && c.firstChild == store[t].firstChild && c.nextSibling == store[t].nextSibling
  {
  }

  lemma SwitchedFields(store: Store, s: Sys)
    requires RingOk(s) && s.ring[0] in store && Yield(s).ring != [] && Yield(s).ring[0] in store
    requires FieldsOk(store, s.tasks) && store.Keys == s.tasks.Keys
    ensures FieldsOk(Switched(store, s.ring[0], Yield(s).ring[0]), Yield(s).tasks)
    ensures Yield(s).loaded == (if Yield(s).ring[0] == s.ring[0] then s.loaded else store[Yield(s).ring[0]].cr3)
  {
    hide NoDup, Rotate, FirstStop;
  }

  lemma RotateAt(ring: seq<Ref>, e: nat, i: nat)
    requires 1 <= e <= |ring| && i < |ring|
    ensures |Rotate(ring, e)| == |ring| && Rotate(ring, e)[i] == if i + e < |ring| then ring[i + e]
        else ring[i + e - |ring|]
  {
  }

  lemma RotatedLinks(store: Store, store': Store, ring: seq<Ref>, e: nat)
    requires Links(store, ring) && 1 <= e <= |ring|
    requires forall t | t in ring && t in store :: t in store' && store'[t].next == store[t].next
    ensures Links(store', Rotate(ring, e))
  {
    hide Links, Rotate;
    RotateAt(ring, e, 0);
    var r := Rotate(ring, e);
    forall i | 0 <= i < |r| ensures r[i] in store' && store'[r[i]].next == Following(r, i, r[0]) {
      RotateAt(ring, e, i);
      RotateAt(ring, e, if i + 1 < |ring| then i + 1 else 0);
      NextAlong(store, ring, if i + e < |ring| then i + e else i + e - |ring|);
    }
    LinksIntro(store', r);
  }

  lemma ChainKept(store: Store, store': Store, head: Ref, kids: seq<Ref>)
    requires Chain(store, head, kids)
    requires forall t | t in store && t in kids :: t in store' && store'[t].nextSibling == store[t].nextSibling
    ensures Chain(store', head, kids)
  {
  }

  // ---------------------------------------------------------------- the writes of each operation

  lemma LinksKept(store: Store, store': Store, ring: seq<Ref>)
    requires Links(store, ring)
    requires forall t | t in store && t in ring :: t in store' && store'[t].next == store[t].next
    ensures Links(store', ring)
  {
  }

  lemma ChainsKept(store: Store, store': Store, tasks: map<Ref, Task>, tasks': map<Ref, Task>)
    requires ChainsOk(store, tasks)
    requires forall t | t in store ::
        t in store' && store'[t].firstChild == store[t].firstChild && store'[t].nextSibling == store[t].nextSibling
    requires forall t | t in tasks' :: if t in tasks then tasks'[t].kids == tasks[t].kids
                                       else t in store' && store'[t].firstChild == NULL && tasks'[t].kids == []
    ensures ChainsOk(store', tasks')
  {
    hide Chain;
    forall t | t in tasks' ensures t in store' && Chain(store', store'[t].firstChild, tasks'[t].kids) {
      if t in tasks { ChainKept(store, store', store[t].firstChild, tasks[t].kids); } else { ChainEmpty(store'); }
    }
  }

  lemma ChainEmpty(store: Store)
    ensures Chain(store, NULL, [])
  {
  }

  lemma TickStore(store: Store, s: Sys, ticks: int)
    requires RingOk(s) && store.Keys == s.tasks.Keys
    requires Links(store, s.ring) && FieldsOk(store, s.tasks) && ChainsOk(store, s.tasks)
    ensures s.ring[0] in store && SameFields(store[s.ring[0]], s.tasks[s.ring[0]])
    ensures ticks >= 0 ==>
      var store' := store[s.ring[0] := store[s.ring[0]].(ticks := ticks)];
      && Links(store', s.ring) && FieldsOk(store', WithTicks(s, ticks).tasks)
      && ChainsOk(store', WithTicks(s, ticks).tasks)
  {
    hide NoDup, Links, ChainsOk;
    if ticks >= 0 {
      var store' := store[s.ring[0] := store[s.ring[0]].(ticks := ticks)];
      LinksKept(store, store', s.ring);
      ChainsKept(store, store', s.tasks, WithTicks(s, ticks).tasks);
    }
  }

  function Added(store: Store, cur: Ref, t: Ref): Store
    requires cur in store && t in store
  {
    var store1 := store[t := store[t].(next := store[cur].next)];
    store1[cur := store1[cur].(next := t)]
  }

  lemma AddStore(store: Store, s: Sys, t: Ref)
    requires RingOk(s) && store.Keys == s.tasks.Keys && t in s.tasks && t !in s.ring
    requires Links(store, s.ring) && FieldsOk(store, s.tasks) && ChainsOk(store, s.tasks)
    ensures s.ring[0] in store
      && var store' := Added(store, s.ring[0], t);
      && store'.Keys == store.Keys
      && Links(store', Add(s, t).ring) && FieldsOk(store', s.tasks) && ChainsOk(store', s.tasks)
  {
    hide ChainsOk, Links;
    CurrentKnown(s);
    var store' := Added(store, s.ring[0], t);
    ChainsKept(store, store', s.tasks, s.tasks);
    AddLinks(store, s.ring, t);
  }

  lemma AddLinks(store: Store, ring: seq<Ref>, t: Ref)
    requires |ring| > 0 && NoDup(ring) && t in store && t !in ring && Links(store, ring) && ring[0] in store
    ensures Links(Added(store, ring[0], t), [ring[0], t] + ring[1..])
  {
    hide NoDup, Links;
    var ring', store' := [ring[0], t] + ring[1..], Added(store, ring[0], t);
    forall i | 0 <= i < |ring'| ensures ring'[i] in store' && store'[ring'[i]].next == Following(ring', i, ring'[0]) {
      NextAlong(store, ring, if i == 0 then 0 else i - 1);
      if i >= 2 { FirstOnly(ring, i - 1); }
    }
    assert Links(store', ring') by { LinksIntro(store', ring'); }
  }

  lemma FirstOnly(ring: seq<Ref>, i: nat)
    requires NoDup(ring) && 0 < i < |ring|
    ensures ring[i] != ring[0]
  {
  }

  lemma LinksIntro(store: Store, ring: seq<Ref>)
    requires forall i | 0 <= i < |ring| :: ring[i] in store && store[ring[i]].next == Following(ring, i, ring[0])
    ensures Links(store, ring)
  {
  }

  lemma CreateStore(store: Store, s: Sys, t: Ref, space: nat, ppid: nat, c: Struct)
    requires RingOk(s) && store.Keys == s.tasks.Keys && t !in store
    requires Links(store, s.ring) && FieldsOk(store, s.tasks) && ChainsOk(store, s.tasks)
    requires SameFields(c, Create(s, t, space, ppid).tasks[t]) && c.firstChild == NULL
    ensures var store' := store[t := c]; var s' := Create(s, t, space, ppid);
      Links(store', s'.ring) && FieldsOk(store', s'.tasks) && ChainsOk(store', s'.tasks)
  {
    hide NoDup, Links, ChainsOk;
    LinksKept(store, store[t := c], s.ring);
    ChainsKept(store, store[t := c], s.tasks, Create(s, t, space, ppid).tasks);
  }

  lemma PidStep(created: nat)
    ensures (created % PID_SPACE + 1) % PID_SPACE == (created + 1) % PID_SPACE
  {
  }

  function Adopted(store: Store, c: Ref, p: Ref): Store
    requires c in store && p in store
  {
    var store1 := store[c := store[c].(parent := p, ppid := store[p].pid)];
    var store2 := store1[c := store1[c].(nextSibling := store1[p].firstChild)];
    store2[p := store2[p].(firstChild := c)]
  }

  lemma AdoptedIs(store: Store, c: Ref, p: Ref)
    requires c in store && p in store
    ensures var store1 := store[c := store[c].(parent := p, ppid := store[p].pid)];
      && p in store1
      && var store2 := store1[c := store1[c].(nextSibling := store1[p].firstChild)];
      Adopted(store, c, p) == store2[p := store2[p].(firstChild := c)]
  {
  }

  lemma SetParentRest(s: Sys, c: Ref)
    requires RingOk(s) && c in s.tasks
    ensures var s' := SetParent(s, c);
      s'.ring == s.ring && s'.tasks.Keys == s.tasks.Keys && s'.idle == s.idle && s'.loaded == s.loaded
          && s'.created == s.created
  {
  }

  lemma AdoptedLinks(store: Store, c: Ref, p: Ref)
    requires c in store && p in store && c != p
    ensures var store' := Adopted(store, c, p);
      && store'.Keys == store.Keys && store'[p].firstChild == c && store'[c].nextSibling == store[p].firstChild
      && (forall t | t in store ::
            store'[t].next == store[t].next && (t != p ==> store'[t].firstChild == store[t].firstChild)
            && (t != c ==> store'[t].nextSibling == store[t].nextSibling))
  {
  }

  lemma SetParentFields(store: Store, s: Sys, c: Ref)
    requires RingOk(s) && store.Keys == s.tasks.Keys && c in s.tasks && c != s.ring[0] && FieldsOk(store, s.tasks)
    ensures s.ring[0] in store && FieldsOk(Adopted(store, c, s.ring[0]), SetParent(s, c).tasks)
  {
    hide NoDup;
  }

  /** A task without a parent is in no child list. */
  lemma SetParentKids(s: Sys, c: Ref)
    requires RingOk(s) && KidsOk(s) && c in s.tasks && c != s.ring[0] && s.tasks[c].parent == NULL
    ensures forall t | t in s.tasks :: c !in s.tasks[t].kids
    ensures forall t | t in s.tasks ::
        SetParent(s, c).tasks[t].kids == if t == s.ring[0] then [c] + s.tasks[t].kids else s.tasks[t].kids
  {
    hide NoDup;
  }

  lemma SetParentStore(store: Store, s: Sys, c: Ref)
    requires RingOk(s) && KidsOk(s) && store.Keys == s.tasks.Keys && c in s.tasks && c != s.ring[0]
      && s.tasks[c].parent == NULL
    requires Links(store, s.ring) && FieldsOk(store, s.tasks) && ChainsOk(store, s.tasks)
    ensures s.ring[0] in store
      && var store' := Adopted(store, c, s.ring[0]); var s' := SetParent(s, c);
      && store'.Keys == store.Keys
      && Links(store', s'.ring) && FieldsOk(store', s'.tasks) && ChainsOk(store', s'.tasks)
  {
    hide NoDup, Links, ChainsOk, Chain;
    CurrentKnown(s);
    var p, store', s' := s.ring[0], Adopted(store, c, s.ring[0]), SetParent(s, c);
    hide FieldsOk, KidsOk, RingOk, Adopted, SetParent;
    AdoptedLinks(store, c, p);
    SetParentRest(s, c);
    LinksKept(store, store', s.ring);
    SetParentFields(store, s, c);
    SetParentKids(s, c);
    forall t | t in s'.tasks ensures t in store' && Chain(store', store'[t].firstChild, s'.tasks[t].kids) {
      ChainAt(store, s.tasks, t);
      ChainKept(store, store', store[t].firstChild, s.tasks[t].kids);
      if t == p { ChainCons(store', c, store[p].firstChild, s.tasks[p].kids); }
    }
    ChainsIntro(store', s'.tasks);
  }

  lemma ChainAt(store: Store, tasks: map<Ref, Task>, t: Ref)
    requires ChainsOk(store, tasks) && t in tasks
    ensures t in store && Chain(store, store[t].firstChild, tasks[t].kids)
  {
  }

  lemma ChainsIntro(store: Store, tasks: map<Ref, Task>)
    requires forall t | t in tasks :: t in store && Chain(store, store[t].firstChild, tasks[t].kids)
    ensures ChainsOk(store, tasks)
  {
  }

  lemma ChainCons(store: Store, c: Ref, head: Ref, kids: seq<Ref>)
    requires Chain(store, head, kids) && c in store && store[c].nextSibling == head
    ensures Chain(store, c, [c] + kids)
  {
    var ks := [c] + kids;
    forall i | 0 <= i < |ks| ensures ks[i] in store && store[ks[i]].nextSibling == Following(ks, i, NULL) {
      if i > 0 { assert ks[i] == kids[i - 1]; }
    }
  }

  function Orphaned(store: Store, kids: seq<Ref>): (r: Store)
    ensures r.Keys == store.Keys
  {
    map t | t in store :: if t in kids then store[t].(parent := NULL, ppid := 0) else store[t]
  }

  lemma OrphanedStep(store: Store, kids: seq<Ref>, i: nat)
    requires i < |kids| && Chain(store, kids[0], kids) && NULL !in store && NoDup(kids)
    ensures kids[i] in store && kids[i] != NULL
    ensures var store1 := Orphaned(store, kids[..i]);
      && kids[i] in store1
      && store1[kids[i] := store1[kids[i]].(parent := NULL, ppid := 0)] == Orphaned(store, kids[..i + 1])
      && Orphaned(store, kids[..i + 1])[kids[i]].nextSibling == Following(kids, i, NULL)
      && (i + 1 < |kids| ==> kids[i + 1] in Orphaned(store, kids[..i + 1]))
  {
    hide NoDup, Orphaned;
    assert kids[..i + 1] == kids[..i] + [kids[i]];
    assert kids[i] !in kids[..i] by { NotBefore(kids, i); }
    OrphanNext(store, kids[..i], kids[i]);
    OrphanSiblings(store, kids[..i + 1], kids[i]);
  }

  lemma NotBefore(xs: seq<Ref>, i: nat)
    requires NoDup(xs) && i < |xs|
    ensures xs[i] !in xs[..i]
  {
  }

  lemma OrphanNext(store: Store, kids: seq<Ref>, c: Ref)
    requires c in store && c !in kids
    ensures Orphaned(store, kids)[c] == store[c]
    ensures Orphaned(store, kids)[c := store[c].(parent := NULL, ppid := 0)] == Orphaned(store, kids + [c])
  {
  }

  lemma OrphanSiblings(store: Store, kids: seq<Ref>, c: Ref)
    requires c in store
    ensures Orphaned(store, kids)[c].nextSibling == store[c].nextSibling
  {
  }

  /** The writes of `task_exit` up to its yield. */
  function EndStore(store: Store, cur: Ref, kids: seq<Ref>, code: int): (r: Store)
    requires cur in store
    ensures r.Keys == store.Keys
  {
    var store1 := Orphaned(store[cur := store[cur].(exitCode := code)], kids);
    var store2 := store1[cur := store1[cur].(firstChild := NULL)];
    var store3 := store2[cur := store2[cur].(state := Zombie)];
    var parent := store3[cur].parent;
    if parent != NULL && parent in store3 && store3[parent].state == Blocked
    then store3[parent := store3[parent].(state := Ready)] else store3
  }

  lemma EndedStore(store: Store, s: Sys, code: int)
    requires RingOk(s) && FamilyOk(s) && store.Keys == s.tasks.Keys
    requires Links(store, s.ring) && FieldsOk(store, s.tasks) && ChainsOk(store, s.tasks)
    ensures s.ring[0] in store && NULL !in store && NoDup(s.tasks[s.ring[0]].kids)
      && var store0 := store[s.ring[0] := store[s.ring[0]].(exitCode := code)];
      && Chain(store0, store0[s.ring[0]].firstChild, s.tasks[s.ring[0]].kids)
      && var store' := EndStore(store, s.ring[0], s.tasks[s.ring[0]].kids, code); var s' := Ended(s, code);
      && (store'[s.ring[0]].parent != NULL ==> store'[s.ring[0]].parent in store)
      && store'.Keys == store.Keys && s'.tasks.Keys == store.Keys && s'.ring == s.ring && s'.idle == s.idle
      && s'.loaded == s.loaded && s'.created == s.created
      && Links(store', s'.ring) && FieldsOk(store', s'.tasks) && ChainsOk(store', s'.tasks)
  {
    hide NoDup, Links, ChainsOk, FieldsOk, Chain, EndStore, Ended, KidsOk, ParentsOk, RingOk;
    CurrentKnown(s);
    EndedTasks(s, code);
    EndedRest(s, code);
    var cur, kids := s.ring[0], s.tasks[s.ring[0]].kids;
    var store', s' := EndStore(store, cur, kids, code), Ended(s, code);
    EndFacts(store, s);
    EndStructs(store, cur, kids, code);
    LinksKept(store, store', s.ring);
    ChainAt(store, s.tasks, cur);
    ChainKept(store, store[cur := store[cur].(exitCode := code)], store[cur].firstChild, kids);
    EndedFields(store, s, code);
    EndedChains(store, s, code);
  }

  lemma EndedFields(store: Store, s: Sys, code: int)
    requires RingOk(s) && FamilyOk(s) && store.Keys == s.tasks.Keys && FieldsOk(store, s.tasks) && s.ring[0] in store
    ensures FieldsOk(EndStore(store, s.ring[0], s.tasks[s.ring[0]].kids, code), Ended(s, code).tasks)
  {
    hide NoDup, FieldsOk, EndStore, Ended, KidsOk, ParentsOk, RingOk;
    CurrentKnown(s);
    EndedTasks(s, code);
    var cur, kids := s.ring[0], s.tasks[s.ring[0]].kids;
    var store', s' := EndStore(store, cur, kids, code), Ended(s, code);
    EndFacts(store, s);
    EndStructs(store, cur, kids, code);
    forall t | t in s'.tasks ensures t in store' && SameFields(store'[t], s'.tasks[t]) {
      FieldsAt(store, s.tasks, t);
    }
    FieldsIntro(store', s'.tasks);
  }

  lemma EndedChains(store: Store, s: Sys, code: int)
    requires RingOk(s) && FamilyOk(s) && store.Keys == s.tasks.Keys && FieldsOk(store, s.tasks)
      && ChainsOk(store, s.tasks)
    requires s.ring[0] in store
    ensures ChainsOk(EndStore(store, s.ring[0], s.tasks[s.ring[0]].kids, code), Ended(s, code).tasks)
  {
    hide NoDup, ChainsOk, FieldsOk, Chain, EndStore, Ended, KidsOk, ParentsOk, RingOk;
    CurrentKnown(s);
    EndedTasks(s, code);
    var cur, kids := s.ring[0], s.tasks[s.ring[0]].kids;
    var store', s' := EndStore(store, cur, kids, code), Ended(s, code);
    EndFacts(store, s);
    EndStructs(store, cur, kids, code);
    forall t | t in s'.tasks ensures t in store' && Chain(store', store'[t].firstChild, s'.tasks[t].kids) {
      ChainAt(store, s.tasks, t);
      if t == cur { ChainEmpty(store'); } else { ChainKept(store, store', store[t].firstChild, s.tasks[t].kids); }
    }
    ChainsIntro(store', s'.tasks);
  }

  lemma FieldsAt(store: Store, tasks: map<Ref, Task>, t: Ref)
    requires FieldsOk(store, tasks) && t in tasks
    ensures t in store && SameFields(store[t], tasks[t])
  {
  }

  lemma FieldsIntro(store: Store, tasks: map<Ref, Task>)
    requires forall t | t in tasks :: t in store && SameFields(store[t], tasks[t])
    ensures FieldsOk(store, tasks)
  {
  }

  lemma EndFacts(store: Store, s: Sys)
    requires RingOk(s) && FamilyOk(s) && store.Keys == s.tasks.Keys && FieldsOk(store, s.tasks)
    ensures var cur := s.ring[0];
      && cur in store && NULL !in store && NoDup(s.tasks[cur].kids) && cur !in s.tasks[cur].kids
      && store[cur].parent == s.tasks[cur].parent != cur
      && (store[cur].parent != NULL ==> store[cur].parent in store)
      && (forall t | t in store :: t in s.tasks[cur].kids <==> s.tasks[t].parent == cur)
  {
    hide NoDup;
  }

  function EndStruct(c: Struct, isKid: bool, isParent: bool): Struct {
    var o := if isKid then c.(parent := NULL, ppid := 0) else c;
    if isParent && o.state == Blocked then o.(state := Ready) else o
  }

  /** The writes of `task_exit`, structure by structure. */
  lemma EndStructs(store: Store, cur: Ref, kids: seq<Ref>, code: int)
    requires cur in store && cur !in kids && NULL !in store && store[cur].parent != cur
    requires store[cur].parent != NULL ==> store[cur].parent in store
    ensures EndStore(store, cur, kids, code).Keys == store.Keys
    ensures EndStore(store, cur, kids, code)[cur] == store[cur].(exitCode := code, firstChild := NULL, state := Zombie)
    ensures forall t | t in store && t != cur ::
              EndStore(store, cur, kids, code)[t] == EndStruct(store[t], t in kids, t == store[cur].parent)
  {
  }

  lemma ScanStep(store: Store, s: Sys, kids: seq<Ref>, i: nat)
    requires i < |kids| && Chain(store, kids[0], kids) && FieldsOk(store, s.tasks) && store.Keys == s.tasks.Keys
    ensures kids[i] in store && store[kids[i]].nextSibling == Following(kids, i, NULL)
    ensures FirstZombie(s, kids[i..]) == if store[kids[i]].state == Zombie then Some(kids[i])
        else FirstZombie(s, kids[i + 1..])
  {
    assert kids[i..][1..] == kids[i + 1..];
  }

  lemma ScanEnd(s: Sys, kids: seq<Ref>)
    requires kids == []
    ensures FirstZombie(s, kids) == None
  {
  }

  lemma BlockingStore(store: Store, s: Sys)
    requires RingOk(s) && store.Keys == s.tasks.Keys
    requires Links(store, s.ring) && FieldsOk(store, s.tasks) && ChainsOk(store, s.tasks)
    ensures s.ring[0] in store
      && var store' := store[s.ring[0] := store[s.ring[0]].(state := Blocked)]; var s' := Blocking(s);
      && Links(store', s'.ring) && FieldsOk(store', s'.tasks) && ChainsOk(store', s'.tasks)
  {
    hide NoDup, Links, ChainsOk;
    CurrentKnown(s);
    var store' := store[s.ring[0] := store[s.ring[0]].(state := Blocked)];
    LinksKept(store, store', s.ring);
    ChainsKept(store, store', s.tasks, Blocking(s).tasks);
  }

  /** Of a structure only the links of child lists may have changed: `nextSibling` of a listed
      child and `firstChild` of the parent. */
  predicate OnlySiblings(c: Struct, c': Struct, isKid: bool, isParent: bool) {
    && c' == c.(firstChild := c'.firstChild, nextSibling := c'.nextSibling)
    && (!isKid ==> c'.nextSibling == c.nextSibling)
    && (!isParent ==> c'.firstChild == c.firstChild)
  }

  lemma UnlinkHead(store: Store, head: Ref, kids: seq<Ref>, child: Ref, parent: Ref)
    requires Chain(store, head, kids) && NoDup(kids) && child in kids && head == child && child != NULL
    requires child in store && parent in store && parent !in kids
    ensures var store1 := store[parent := store[parent].(firstChild := store[child].nextSibling)];
            var store2 := store1[child := store1[child].(nextSibling := NULL)];
            Chain(store2, store[child].nextSibling, Without(kids, child))
  {
    assert kids[0] == child;
    var rest := kids[1..];
    forall i | 0 <= i < |rest| ensures rest[i] in store && store[rest[i]].nextSibling == Following(rest, i, NULL)
        && rest[i] != child {
      assert rest[i] == kids[i + 1];
    }
  }

  lemma HeadListed(store: Store, head: Ref, kids: seq<Ref>, child: Ref)
    requires Chain(store, head, kids) && head == child && child != NULL
    ensures child in kids
  {
  }

  lemma NotHead(store: Store, head: Ref, kids: seq<Ref>, child: Ref)
    requires Chain(store, head, kids) && head != child && NULL !in store
    ensures head != NULL <==> |kids| > 0
    ensures |kids| > 0 ==> kids[0] == head && kids[0] in store && child !in kids[..1]
  {
  }

  lemma ScanOn(store: Store, head: Ref, kids: seq<Ref>, child: Ref, k: nat)
    requires Chain(store, head, kids) && k < |kids| && child !in kids[..k + 1] && NULL !in store
    requires store[kids[k]].nextSibling != child
    ensures k + 1 < |kids| ==>
        store[kids[k]].nextSibling == kids[k + 1] && kids[k + 1] in store && child !in kids[..k + 2]
    ensures k + 1 == |kids| ==> store[kids[k]].nextSibling == NULL && child !in kids
  {
    if k + 1 < |kids| {
      assert kids[..k + 2] == kids[..k + 1] + [kids[k + 1]];
    } else {
      assert kids[..k + 1] == kids;
    }
  }

  /** The child is in no place of the list: only its own link is cleared. */
  lemma Unlisted(store: Store, head: Ref, kids: seq<Ref>, child: Ref)
    requires Chain(store, head, kids) && child !in kids && child in store
    ensures Without(kids, child) == kids && Chain(store[child := store[child].(nextSibling := NULL)], head, kids)
  {
    NotInRing(kids, child);
  }

  lemma {:induction false} WithoutAt(xs: seq<Ref>, x: Ref, m: nat)
    requires m < |xs| && xs[m] == x && x !in xs[..m]
    ensures Without(xs, x) == xs[..m] + xs[m + 1..]
  {
    if m == 0 {
    } else {
      assert xs[0] == xs[..m][0];
      assert xs[1..][..m - 1] == xs[..m][1..];
      WithoutAt(xs[1..], x, m - 1);
      assert xs[..m] + xs[m + 1..] == [xs[0]] + (xs[1..][..m - 1] + xs[1..][m..]);
    }
  }

  lemma SiblingNext(store: Store, head: Ref, kids: seq<Ref>, i: nat)
    requires Chain(store, head, kids) && i < |kids|
    ensures kids[i] in store && store[kids[i]].nextSibling == (if i + 1 < |kids| then kids[i + 1] else NULL)
    ensures head == kids[0]
  {
  }

  lemma ChainIntro(store: Store, kids: seq<Ref>)
    requires kids != [] && forall i | 0 <= i < |kids| ::
        kids[i] in store && store[kids[i]].nextSibling == Following(kids, i, NULL)
    ensures Chain(store, kids[0], kids)
  {
  }

  lemma UnlinkAt(store: Store, head: Ref, kids: seq<Ref>, child: Ref, k: nat)
    requires Chain(store, head, kids) && NoDup(kids) && child != NULL
    requires k < |kids| && kids[k] in store && store[kids[k]].nextSibling == child
    ensures child in kids && child in store
      && var store1 := store[kids[k] := store[kids[k]].(nextSibling := store[child].nextSibling)];
      && child in store1
      && var store2 := store1[child := store1[child].(nextSibling := NULL)];
      Chain(store2, head, Without(kids, child))
  {
    hide NoDup, Without, Chain;
    SiblingNext(store, head, kids, k);
    WithoutNext(kids, k);
    SiblingNext(store, head, kids, k + 1);
    var rest := kids[..k + 1] + kids[k + 2..];
    var store1 := store[kids[k] := store[kids[k]].(nextSibling := store[child].nextSibling)];
    var store2 := store1[child := store1[child].(nextSibling := NULL)];
    forall i | 0 <= i < |rest| ensures rest[i] in store2 && store2[rest[i]].nextSibling == Following(rest, i, NULL) {
      SiblingNext(store, head, kids, if i <= k then i else i + 1);
      OthersThan(kids, k + 1, if i <= k then i else i + 1);
    }
    ChainIntro(store2, rest);
  }

  lemma OthersThan(xs: seq<Ref>, k: nat, i: nat)
    requires NoDup(xs) && k < |xs| && i < |xs| && i != k
    ensures xs[i] != xs[k]
  {
  }

  lemma RingStart(ring: seq<Ref>, t: Ref)
    requires |ring| > 0
    ensures t !in ring[1..1]
  {
  }

  lemma RingOn(ring: seq<Ref>, t: Ref, k: nat)
    requires k + 1 < |ring| && t !in ring[1..k + 1] && ring[k + 1] != t
    ensures t !in ring[1..k + 2]
  {
    assert ring[1..k + 2] == ring[1..k + 1] + [ring[k + 1]];
  }

  lemma RingStop(ring: seq<Ref>, k: nat)
    requires NoDup(ring) && k + 1 < |ring|
    ensures ring[k + 1] != ring[0]
  {
  }

  lemma {:induction false} NotInRing(xs: seq<Ref>, x: Ref)
    requires x !in xs
    ensures Without(xs, x) == xs
  {
    if xs == [] {
    } else {
      NotInRing(xs[1..], x);
    }
  }

  /** The scan came around: the task is not in the ring. */
  lemma RingDone(ring: seq<Ref>, t: Ref)
    requires |ring| > 0 && t !in ring[1..] && t != ring[0]
    ensures t !in ring && Without(ring, t) == ring
  {
    assert ring == [ring[0]] + ring[1..];
    NotInRing(ring, t);
  }

  /** The current task itself leaves the ring. */
  lemma RingHeadOut(store: Store, ring: seq<Ref>)
    requires Links(store, ring) && NoDup(ring) && |ring| > 0
    ensures var last := ring[|ring| - 1]; var t := ring[0];
      && last in store && t in store && store[last].next == t
      && Links(store[last := store[last].(next := store[t].next)], Without(ring, t))
  {
    var rest, last, t := ring[1..], ring[|ring| - 1], ring[0];
    assert Without(ring, t) == rest;
    var store' := store[last := store[last].(next := store[t].next)];
    forall i | 0 <= i < |rest| ensures rest[i] in store' && store'[rest[i]].next == Following(rest, i, rest[0]) {
      assert rest[i] == ring[i + 1];
    }
  }

  /** Taking out the element behind index `k`. */
  lemma WithoutNext(ring: seq<Ref>, k: nat)
    requires NoDup(ring) && k + 1 < |ring|
    ensures Without(ring, ring[k + 1]) == ring[..k + 1] + ring[k + 2..]
    ensures forall i | 0 <= i < |ring| && i != k :: ring[i] != ring[k]
    ensures ring[k + 1] != ring[0]
  {
    NotBefore(ring, k + 1);
    WithoutAt(ring, ring[k + 1], k + 1);
  }

  lemma RingUnlink(store: Store, ring: seq<Ref>, k: nat)
    requires Links(store, ring) && NoDup(ring) && k + 1 < |ring|
    ensures var t := ring[k + 1];
      && ring[k] in store && t in store && t != ring[0]
      && var store' := store[ring[k] := store[ring[k]].(next := store[t].next)];
      Without(ring, t) != [] && Without(ring, t)[0] == ring[0] && Links(store', Without(ring, t))
  {
    hide NoDup, Without;
    var t, rest := ring[k + 1], ring[..k + 1] + ring[k + 2..];
    WithoutNext(ring, k);
    NextAlong(store, ring, k);
    NextAlong(store, ring, k + 1);
    var store' := store[ring[k] := store[ring[k]].(next := store[t].next)];
    hide Links;
    forall i | 0 <= i < |rest| ensures rest[i] in store' && store'[rest[i]].next == Following(rest, i, rest[0]) {
      NextAlong(store, ring, if i <= k then i else i + 1);
    }
    LinksIntro(store', rest);
  }

  lemma ReapedShape(s: Sys, z: Ref)
    requires RingOk(s) && StatesOk(s) && KidsOk(s) && s.tasks[s.ring[0]].state == Running
    requires z in s.tasks && z in s.tasks[s.ring[0]].kids && s.tasks[z].state == Zombie
    ensures z != s.ring[0]
      && var s' := Reaped(s, z);
      && s'.ring == Without(s.ring, z) && s'.tasks.Keys == s.tasks.Keys - {z}
      && s'.idle == s.idle && s'.loaded == s.loaded && s'.created == s.created
  {
    hide NoDup;
  }

  lemma ReapFacts(store: Store, s: Sys, z: Ref)
    requires RingOk(s) && StatesOk(s) && FamilyOk(s) && store.Keys == s.tasks.Keys && FieldsOk(store, s.tasks)
      && ChainsOk(store, s.tasks)
    requires z in s.tasks && z in s.tasks[s.ring[0]].kids && s.tasks[z].state == Zombie
      && s.tasks[s.ring[0]].state == Running
    ensures var cur := s.ring[0];
      && cur in store && z in store && z != cur && NULL !in store && cur != NULL && z != NULL && store[z].parent == cur
      && Chain(store, store[cur].firstChild, s.tasks[cur].kids) && NoDup(s.tasks[cur].kids) && cur !in s.tasks[cur].kids
      && NoDup(s.ring) && z in s.ring
  {
    hide NoDup, Chain;
    CurrentKnown(s);
    FieldsAt(store, s.tasks, z);
    ChainAt(store, s.tasks, s.ring[0]);
  }

  lemma SiblingsResources(store: Store, store1: Store, store2: Store, kids: seq<Ref>, cur: Ref)
    requires store1.Keys == store.Keys && store2.Keys == store.Keys
    requires forall t | t in store1 :: t in store && OnlySiblings(store[t], store1[t], t in kids, t == cur)
    requires forall u | u in store2 :: u in store1 && store2[u] == store1[u].(next := store2[u].next)
    ensures SameResources(store, store2)
  {
  }

  lemma SiblingsLinks(store: Store, store': Store, ring: seq<Ref>, kids: seq<Ref>, cur: Ref)
    requires Links(store, ring) && store'.Keys == store.Keys
    requires forall t | t in store' :: t in store && OnlySiblings(store[t], store'[t], t in kids, t == cur)
    ensures Links(store', ring)
  {
  }

  lemma UnlinkedStore(store: Store, store1: Store, store2: Store, s: Sys, z: Ref)
    requires RingOk(s) && KidsOk(s) && z in s.tasks && z in s.tasks[s.ring[0]].kids && z != s.ring[0]
    requires store.Keys == s.tasks.Keys && store1.Keys == store.Keys && store2.Keys == store.Keys
    requires FieldsOk(store, s.tasks) && ChainsOk(store, s.tasks)
    requires forall t | t in store1 ::
        t in store && OnlySiblings(store[t], store1[t], t in s.tasks[s.ring[0]].kids, t == s.ring[0])
    requires s.ring[0] in store1 && Chain(store1, store1[s.ring[0]].firstChild, Without(s.tasks[s.ring[0]].kids, z))
    requires forall u | u in store2 :: u in store1 && store2[u] == store1[u].(next := store2[u].next)
    ensures FieldsOk(store2, Reaped(s, z).tasks) && ChainsOk(store2, Reaped(s, z).tasks)
  {
    hide NoDup, Chain, ChainsOk, FieldsOk, Without, RingOk;
    CurrentKnown(s);
    var cur, tasks' := s.ring[0], Reaped(s, z).tasks;
    forall t | t in tasks'
      ensures t in store2 && SameFields(store2[t], tasks'[t]) && Chain(store2, store2[t].firstChild, tasks'[t].kids)
    {
      FieldsAt(store, s.tasks, t);
      ChainAt(store, s.tasks, t);
      if t == cur {
        ChainKept(store1, store2, store1[cur].firstChild, Without(s.tasks[cur].kids, z));
      } else {
        ChainKept(store, store2, store[t].firstChild, s.tasks[t].kids);
      }
    }
    FieldsIntro(store2, tasks');
    ChainsIntro(store2, tasks');
  }

  lemma DropStore(store: Store, s: Sys, z: Ref)
    requires RingOk(s) && KidsOk(s) && store.Keys == s.tasks.Keys + {z} && z !in s.tasks
    requires Links(store, s.ring) && FieldsOk(store, s.tasks) && ChainsOk(store, s.tasks)
    ensures Links(store - {z}, s.ring) && FieldsOk(store - {z}, s.tasks) && ChainsOk(store - {z}, s.tasks)
  {
    hide NoDup, Chain, ChainsOk, FieldsOk, Links;
    LinksKept(store, store - {z}, s.ring);
    forall t | t in s.tasks ensures t in store - {z} && SameFields((store - {z})[t], s.tasks[t]) {
      FieldsAt(store, s.tasks, t);
    }
    FieldsIntro(store - {z}, s.tasks);
    forall t | t in s.tasks ensures t in store - {z}
        && Chain(store - {z}, (store - {z})[t].firstChild, s.tasks[t].kids) {
      ChainAt(store, s.tasks, t);
      ChainKept(store, store - {z}, store[t].firstChild, s.tasks[t].kids);
    }
    ChainsIntro(store - {z}, s.tasks);
  }
}
