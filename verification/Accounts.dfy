/** Who owns which physical frame: the frame allocator, the kernel heap, the page tables and the
    task structures taken together (src/task.c, src/pmm.c, src/paging.c, src/heap.c). */
module Accounts {
  import opened Base
  import opened Heap
  import opened Ownership
  import opened PageTables
  import HeapLayout
  import Pmm
  import Tasks

  /** The one owner of a used frame. `Reserved` are the frames that are not the allocator's:
      firmware, kernel image, boot page tables. `InHand` are frames that the kernel operation in
      progress has taken and not yet given to anybody; `Lost` are frames that were mapped once,
      are mapped no more, and will never be freed. */
  datatype Owner = Reserved | HeapArena | KernelStack(task: nat) | TopTable(task: nat)
                 | InSpace(task: nat, pos: Pos) | InHand | Lost

  type Owners = map<nat, Owner>

  predicate OfTask(o: Owner, t: nat) {
    (o.KernelStack? || o.TopTable? || o.InSpace?) && o.task == t
  }

  /** Everything that a task owns. */
  function TaskFrames(owner: Owners, t: nat): set<nat> {
    set f | f in owner && OfTask(owner[f], t)
  }

  function HandFrames(owner: Owners): set<nat> {
    set f | f in owner && owner[f] == InHand
  }

  /** The user half of a task's address space. */
  function SpaceOf(owner: Owners, t: nat): map<nat, Pos> {
    map f | f in owner && owner[f].InSpace? && owner[f].task == t :: owner[f].pos
  }

  /** The state of memory, allocator, tasks and heap, with an owner for every used frame.
      `kernel` is the frame of the kernel's PML4. */
  datatype Books = Books(mem: Memory, free: set<nat>, store: Tasks.Store, arenas: seq<Arena>, owner: Owners,
      kernel: nat)

  /** Every frame is free or has an owner, and no frame both. */
  ghost predicate Accounted(b: Books) {
    && b.owner.Keys !! b.free
    && forall f: nat :: f in b.owner.Keys + b.free <==> f < |b.mem|
  }

  ghost predicate InArena(arenas: seq<Arena>, f: nat) {
    exists k :: 0 <= k < |arenas| && f in Frames(arenas[k])
  }

  ghost predicate HeapOwned(b: Books) {
    forall f | 0 <= f :: (f in b.owner && b.owner[f] == HeapArena) <==> InArena(b.arenas, f)
  }

  /** A task owns its kernel stack and its PML4. */
  ghost predicate TaskOwns(c: Tasks.Struct, t: nat, owner: Owners) {
    && c.stack % PAGE_SIZE == 0 && c.cr3 % PAGE_SIZE == 0
    && (c.stack != 0 ==> c.stack / PAGE_SIZE in owner && owner[c.stack / PAGE_SIZE] == KernelStack(t))
    && (c.ownSpace ==> c.cr3 / PAGE_SIZE in owner && owner[c.cr3 / PAGE_SIZE] == TopTable(t))
  }

  ghost predicate TasksOwn(b: Books) {
    forall t | t in b.store ::
        TaskOwns(b.store[t], t, b.owner) && (!b.store[t].ownSpace ==> b.store[t].cr3 == b.kernel * PAGE_SIZE)
  }

  /** No frame belongs to a task that is gone. */
  ghost predicate OwnerLive(b: Books, f: nat)
    requires f in b.owner
  {
    match b.owner[f]
    case KernelStack(t) => t in b.store && f != 0 && b.store[t].stack == f * PAGE_SIZE
    case TopTable(t) => t in b.store && f != 0 && b.store[t].ownSpace && b.store[t].cr3 == f * PAGE_SIZE
    case InSpace(t, _) => t in b.store && b.store[t].ownSpace
    case _ => true
  }

  ghost predicate OwnersLive(b: Books) {
    forall f | f in b.owner :: OwnerLive(b, f)
  }

  /** The tables of the kernel's address space are reserved. */
  ghost predicate KernelTables(b: Books) {
    forall d, p, f | d <= 3 && Node(b.mem, b.kernel, d, p) == Some(f) :: IsTable(b.mem, f) && IsReserved(b.owner, f)
  }

  predicate IsReserved(owner: Owners, f: nat) {
    f in owner && owner[f] == Reserved
  }

  /** The kernel half of the address space under `root` consists of reserved frames. */
  ghost predicate KernelHalf(mem: Memory, root: nat, owner: Owners) {
    forall d, p, f | 1 <= d <= 3 && !Lower(d, p) && Node(mem, root, d, p) == Some(f) :: IsReserved(owner, f)
  }

  ghost predicate UserSpace(mem: Memory, root: nat, t: nat, owner: Owners) {
    Owns(mem, root, SpaceOf(owner, t)) && KernelHalf(mem, root, owner)
  }

  ghost predicate UserSpaces(b: Books) {
    forall t | t in b.store && b.store[t].ownSpace :: UserSpace(b.mem, b.store[t].cr3 / PAGE_SIZE, t, b.owner)
  }

  /** `a` is the payload of a live heap block. */
  ghost predicate IsPayload(arenas: seq<Arena>, a: nat) {
    a >= HeapLayout.HEADER && IsLive(arenas, a - HeapLayout.HEADER)
  }

  /** Task structures are live heap blocks. */
  ghost predicate StructsLive(b: Books) {
    forall t | t in b.store :: IsPayload(b.arenas, t)
  }

  ghost predicate BooksOk(b: Books) {
    && Accounted(b) && HeapOwned(b) && TasksOwn(b) && OwnersLive(b)
    && KernelTables(b) && UserSpaces(b) && StructsLive(b)
  }

  // ---------------------------------------------------------------- what the books say

  /** The tables of a task's address space, kernel half included, are owned by the task or
      reserved. */
  lemma SpaceTables(b: Books, t: nat, d: nat, p: nat, f: nat)
    requires TasksOwn(b) && UserSpaces(b) && t in b.store && b.store[t].ownSpace
    requires d <= 3 && Node(b.mem, b.store[t].cr3 / PAGE_SIZE, d, p) == Some(f)
    ensures f in b.owner && (IsReserved(b.owner, f) || OfTask(b.owner[f], t)) && IsTable(b.mem, f)
  {
    hide Lower, UserTables, OwnedAt, Node, Slot, AllOwned, UserSpaces, TasksOwn;
    var root := b.store[t].cr3 / PAGE_SIZE;
    SpaceAt(b, t);
    OwnsRoot(b.mem, root, SpaceOf(b.owner, t));
    if d == 0 {
      NodeZero(b.mem, root, p);
      NodeRoot(b.mem, root);
    } else if Lower(d, p) {
      OwnedPos(b.mem, root, SpaceOf(b.owner, t), d, p, f);
      OwnedFrame(b.mem, root, SpaceOf(b.owner, t), f);
    }
  }

  /** The user halves of two tasks never share a frame, neither a table nor a mapped page. */
  lemma SpacesApart(b: Books, t: nat, u: nat, d: nat, p: nat, e: nat, q: nat)
    requires BooksOk(b) && t in b.store && u in b.store && b.store[t].ownSpace && b.store[u].ownSpace
    requires Lower(d, p) && Lower(e, q)
    requires Node(b.mem, b.store[t].cr3 / PAGE_SIZE, d, p).Some?
    requires Node(b.mem, b.store[t].cr3 / PAGE_SIZE, d, p) == Node(b.mem, b.store[u].cr3 / PAGE_SIZE, e, q)
    ensures t == u && d == e && p == q
  {
    hide Lower, Node, Owns, BooksOk, UserSpaces, TasksOwn, KernelHalf, TaskOwns;
    BooksParts(b);
    SpaceAt(b, t);
    SpaceAt(b, u);
    var f := Node(b.mem, b.store[t].cr3 / PAGE_SIZE, d, p).value;
    OwnedPos(b.mem, b.store[t].cr3 / PAGE_SIZE, SpaceOf(b.owner, t), d, p, f);
    OwnedPos(b.mem, b.store[u].cr3 / PAGE_SIZE, SpaceOf(b.owner, u), e, q, f);
  }

  lemma OwnedPos(mem: Memory, root: nat, own: map<nat, Pos>, d: nat, p: nat, f: nat)
    requires Owns(mem, root, own) && Lower(d, p) && Node(mem, root, d, p) == Some(f)
    ensures f in own && own[f] == Pos(d, p)
  {
    hide Lower, Node, UserTables, OwnedAt, KernelApart;
  }

  // ---------------------------------------------------------------- steps of kernel operations

  function InHandAll(s: set<nat>): Owners {
    map f | f in s :: InHand
  }

  /** Frames were taken from the allocator, and nothing was written but frames in hand and frames
      that were free. */
  lemma BooksTake(b: Books, mem: Memory, free: set<nat>)
    requires BooksOk(b) && |mem| == |b.mem| && free <= b.free
    requires forall f | f in b.owner && b.owner[f] != InHand :: SameFrame(b.mem, mem, f)
    ensures BooksOk(b.(mem := mem, free := free, owner := b.owner + InHandAll(b.free - free)))
  {
    hide BooksOk, UserSpaces, KernelTables, TaskOwns, OwnerLive, IsPayload, InArena, HeapOwned, TasksOwn, OwnersLive,
        Accounted, StructsLive;
    var b' := b.(mem := mem, free := free, owner := b.owner + InHandAll(b.free - free));
    BooksParts(b);
    assert Accounted(b') by { TakeAccounted(b, mem, free); }
    assert HeapOwned(b') && TasksOwn(b') && OwnersLive(b') by { TakeOwners(b, mem, free); }
    assert KernelTables(b') by { TakeKernel(b, mem, free); }
    assert UserSpaces(b') by { TakeSpaces(b, mem, free); }
    assert StructsLive(b') by { assert forall t | t in b'.store :: t in b.store; SameStructs(b, b'); }
    BooksWhole(b');
  }

  lemma BooksParts(b: Books)
    requires BooksOk(b)
    ensures Accounted(b) && HeapOwned(b) && TasksOwn(b) && OwnersLive(b) && KernelTables(b) && UserSpaces(b)
      && StructsLive(b)
  {
  }

  lemma BooksWhole(b: Books)
    requires Accounted(b) && HeapOwned(b) && TasksOwn(b) && OwnersLive(b) && KernelTables(b) && UserSpaces(b)
      && StructsLive(b)
    ensures BooksOk(b)
  {
  }

  lemma SameStructs(b: Books, b': Books)
    requires StructsLive(b) && b'.store == b.store && b'.arenas == b.arenas
    ensures StructsLive(b')
  {
  }

  lemma TakeAccounted(b: Books, mem: Memory, free: set<nat>)
    requires Accounted(b) && |mem| == |b.mem| && free <= b.free
    ensures Accounted(b.(mem := mem, free := free, owner := b.owner + InHandAll(b.free - free)))
  {
    var owner := b.owner + InHandAll(b.free - free);
    forall f: nat ensures f in owner.Keys + free <==> f < |mem| { assert f in b.owner.Keys + b.free <==> f < |b.mem|; }
  }

  lemma TakeOwners(b: Books, mem: Memory, free: set<nat>)
    requires Accounted(b) && free <= b.free && HeapOwned(b) && TasksOwn(b) && OwnersLive(b)
    ensures var b' := b.(mem := mem, free := free, owner := b.owner + InHandAll(b.free - free));
      HeapOwned(b') && TasksOwn(b') && OwnersLive(b')
  {
    hide InArena;
    var b' := b.(mem := mem, free := free, owner := b.owner + InHandAll(b.free - free));
    forall f | f in b'.owner ensures OwnerLive(b', f) { if f in b.owner { assert OwnerLive(b, f); } }
    forall t | t in b.store ensures TaskOwns(b.store[t], t, b'.owner) { assert TaskOwns(b.store[t], t, b.owner); }
  }

  lemma TakeKernel(b: Books, mem: Memory, free: set<nat>)
    requires Accounted(b) && |mem| == |b.mem| && free <= b.free && KernelTables(b)
    requires forall f | f in b.owner && b.owner[f] != InHand :: SameFrame(b.mem, mem, f)
    ensures KernelTables(b.(mem := mem, free := free, owner := b.owner + InHandAll(b.free - free)))
  {
    hide Node, Slot;
    assert SameTables(b.mem, mem, b.kernel);
    UnreachedWrite(b.mem, mem, b.kernel);
  }

  lemma TakeSpaces(b: Books, mem: Memory, free: set<nat>)
    requires Accounted(b) && |mem| == |b.mem| && free <= b.free && TasksOwn(b) && UserSpaces(b)
    requires forall f | f in b.owner && b.owner[f] != InHand :: SameFrame(b.mem, mem, f)
    ensures UserSpaces(b.(mem := mem, free := free, owner := b.owner + InHandAll(b.free - free)))
  {
    hide UserSpace, TaskOwns, Accounted;
    var b' := b.(mem := mem, free := free, owner := b.owner + InHandAll(b.free - free));
    forall t | t in b.store && b.store[t].ownSpace ensures UserSpace(mem, b.store[t].cr3 / PAGE_SIZE, t, b'.owner) {
      TakeSpace(b, mem, free, t);
    }
  }

  lemma TakeSpace(b: Books, mem: Memory, free: set<nat>, t: nat)
    requires Accounted(b) && |mem| == |b.mem| && free <= b.free && TasksOwn(b) && UserSpaces(b)
    requires forall f | f in b.owner && b.owner[f] != InHand :: SameFrame(b.mem, mem, f)
    requires t in b.store && b.store[t].ownSpace
    ensures UserSpace(mem, b.store[t].cr3 / PAGE_SIZE, t, b.owner + InHandAll(b.free - free))
  {
    hide Node, Slot, Lower, Owns, UserSpaces, TasksOwn;
    var root, owner := b.store[t].cr3 / PAGE_SIZE, b.owner + InHandAll(b.free - free);
    assert SpaceOf(owner, t) == SpaceOf(b.owner, t);
    assert UserSpace(b.mem, root, t, b.owner) && TaskOwns(b.store[t], t, b.owner) by { SpaceAt(b, t); }
    forall d: nat, p: nat, f: nat | d <= 3 && Node(b.mem, root, d, p) == Some(f) && f < |b.mem|
      ensures mem[f] == b.mem[f] {
      SpaceTables(b, t, d, p, f);
      assert SameFrame(b.mem, mem, f);
    }
    assert SameTables(b.mem, mem, root);
    forall f | f in SpaceOf(b.owner, t) ensures if SpaceOf(b.owner, t)[f].depth == 4 then IsPage(mem, f)
        else SameFrame(b.mem, mem, f) {
      OwnedFrame(b.mem, root, SpaceOf(b.owner, t), f);
      assert SameFrame(b.mem, mem, f);
    }
    SpaceKept(b.mem, mem, root, SpaceOf(b.owner, t));
  }

  lemma SpaceAt(b: Books, t: nat)
    requires TasksOwn(b) && UserSpaces(b) && t in b.store && b.store[t].ownSpace
    ensures UserSpace(b.mem, b.store[t].cr3 / PAGE_SIZE, t, b.owner) && TaskOwns(b.store[t], t, b.owner)
  {
  }

  /** Frames in hand were given back. */
  lemma BooksGive(b: Books, back: set<nat>)
    requires BooksOk(b) && back <= HandFrames(b.owner)
    ensures BooksOk(b.(free := b.free + back, owner := b.owner - back))
  {
    hide BooksOk, UserSpaces, KernelTables, TaskOwns, OwnerLive, IsPayload, InArena, HeapOwned, TasksOwn, OwnersLive,
        Accounted, StructsLive;
    var b' := b.(free := b.free + back, owner := b.owner - back);
    BooksParts(b);
    assert Accounted(b') by { GiveAccounted(b, back); }
    assert HeapOwned(b') && TasksOwn(b') && OwnersLive(b') by { GiveOwners(b, back); }
    assert KernelTables(b') by { GiveKernel(b, back); }
    assert UserSpaces(b') by { GiveSpaces(b, back); }
    SameStructs(b, b');
    BooksWhole(b');
  }

  lemma GiveAccounted(b: Books, back: set<nat>)
    requires Accounted(b) && back <= b.owner.Keys
    ensures Accounted(b.(free := b.free + back, owner := b.owner - back))
  {
    forall f: nat ensures f in (b.owner - back).Keys + (b.free + back) <==> f < |b.mem| {
      assert f in b.owner.Keys + b.free <==> f < |b.mem|;
    }
  }

  lemma GiveOwners(b: Books, back: set<nat>)
    requires back <= HandFrames(b.owner) && HeapOwned(b) && TasksOwn(b) && OwnersLive(b)
    ensures var b' := b.(free := b.free + back, owner := b.owner - back);
      HeapOwned(b') && TasksOwn(b') && OwnersLive(b')
  {
    hide InArena;
    var b' := b.(free := b.free + back, owner := b.owner - back);
    forall f | f in b'.owner ensures OwnerLive(b', f) { assert OwnerLive(b, f); }
    forall t | t in b.store ensures TaskOwns(b.store[t], t, b'.owner) { assert TaskOwns(b.store[t], t, b.owner); }
  }

  lemma GiveKernel(b: Books, back: set<nat>)
    requires back <= HandFrames(b.owner) && KernelTables(b)
    ensures KernelTables(b.(free := b.free + back, owner := b.owner - back))
  {
    hide Node;
  }

  lemma GiveSpaces(b: Books, back: set<nat>)
    requires back <= HandFrames(b.owner) && UserSpaces(b)
    ensures UserSpaces(b.(free := b.free + back, owner := b.owner - back))
  {
    hide Node, Lower, Owns;
    var b' := b.(free := b.free + back, owner := b.owner - back);
    forall t | t in b.store && b.store[t].ownSpace ensures UserSpace(b.mem, b.store[t].cr3 / PAGE_SIZE, t, b'.owner) {
      assert UserSpace(b.mem, b.store[t].cr3 / PAGE_SIZE, t, b.owner);
      assert SpaceOf(b'.owner, t) == SpaceOf(b.owner, t);
    }
  }

  function LostAll(s: set<nat>): Owners {
    map f | f in s :: Lost
  }

  /** Frames in hand were forgotten. */
  lemma BooksLose(b: Books, lost: set<nat>)
    requires BooksOk(b) && lost <= HandFrames(b.owner)
    ensures BooksOk(b.(owner := b.owner + LostAll(lost)))
    ensures HandFrames(b.owner + LostAll(lost)) == HandFrames(b.owner) - lost
  {
    hide BooksOk, UserSpaces, KernelTables, TaskOwns, OwnerLive, IsPayload, InArena, HeapOwned, TasksOwn, OwnersLive,
         Accounted, StructsLive;
    var b' := b.(owner := b.owner + LostAll(lost));
    BooksParts(b);
    assert b'.owner.Keys == b.owner.Keys;
    assert Accounted(b') by { LabelAccounted(b, b'); }
    assert HeapOwned(b') by { LabelHeap(b, b'); }
    assert KernelTables(b') by { LabelKernel(b, b'); }
    assert TasksOwn(b') && OwnersLive(b') by { LoseOwners(b, lost); }
    assert UserSpaces(b') by { LoseSpaces(b, lost); }
    SameStructs(b, b');
    BooksWhole(b');
  }

  lemma LoseOwners(b: Books, lost: set<nat>)
    requires lost <= HandFrames(b.owner) && TasksOwn(b) && OwnersLive(b)
    ensures var b' := b.(owner := b.owner + LostAll(lost)); TasksOwn(b') && OwnersLive(b')
  {
    var b' := b.(owner := b.owner + LostAll(lost));
    forall f | f in b'.owner ensures OwnerLive(b', f) { assert OwnerLive(b, f); }
    forall t | t in b.store ensures TaskOwns(b.store[t], t, b'.owner) { assert TaskOwns(b.store[t], t, b.owner); }
  }

  lemma LoseSpaces(b: Books, lost: set<nat>)
    requires lost <= HandFrames(b.owner) && UserSpaces(b)
    ensures UserSpaces(b.(owner := b.owner + LostAll(lost)))
  {
    hide Node, Lower, Owns;
    var owner := b.owner + LostAll(lost);
    forall t | t in b.store && b.store[t].ownSpace ensures UserSpace(b.mem, b.store[t].cr3 / PAGE_SIZE, t, owner) {
      assert UserSpace(b.mem, b.store[t].cr3 / PAGE_SIZE, t, b.owner);
      assert SpaceOf(owner, t) == SpaceOf(b.owner, t);
    }
  }

  // ---------------------------------------------------------------- the heap

  predicate SameExtents(arenas: seq<Arena>, arenas': seq<Arena>) {
    && |arenas| <= |arenas'|
    && forall k | 0 <= k < |arenas| :: arenas'[k].base == arenas[k].base && arenas'[k].total == arenas[k].total
  }

  /** Blocks were allocated or freed within the arenas. */
  lemma BooksBlocks(b: Books, arenas: seq<Arena>)
    requires BooksOk(b) && SameExtents(b.arenas, arenas) && |arenas| == |b.arenas| && StructsLive(b.(arenas := arenas))
    ensures BooksOk(b.(arenas := arenas))
  {
    hide UserSpaces, KernelTables, TaskOwns, OwnerLive, IsPayload, Frames;
    var b' := b.(arenas := arenas);
    forall f: nat ensures InArena(arenas, f) <==> InArena(b.arenas, f) { SameArenaFrames(b.arenas, arenas, f); }
    forall f | f in b.owner ensures OwnerLive(b', f) { OwnerSame(b, b', f); }
    assert TasksOwn(b');
    SameMemory(b, b');
  }

  lemma OwnerSame(b: Books, b': Books, f: nat)
    requires f in b.owner && b'.owner == b.owner && b'.store == b.store && OwnerLive(b, f)
    ensures OwnerLive(b', f)
  {
  }

  lemma SameMemory(b: Books, b': Books)
    requires b'.owner == b.owner && b'.store == b.store && b'.mem == b.mem && b'.kernel == b.kernel
    requires KernelTables(b) && UserSpaces(b)
    ensures KernelTables(b') && UserSpaces(b')
  {
    hide UserSpace, Node;
  }

  lemma SameArenaFrames(arenas: seq<Arena>, arenas': seq<Arena>, f: nat)
    requires SameExtents(arenas, arenas') && |arenas'| == |arenas|
    ensures InArena(arenas', f) <==> InArena(arenas, f)
  {
    hide Pmm.Run;
    forall k | 0 <= k < |arenas| ensures Frames(arenas'[k]) == Frames(arenas[k]) { }
    if InArena(arenas, f) { var k :| 0 <= k < |arenas| && f in Frames(arenas[k]); assert f in Frames(arenas'[k]); }
    if InArena(arenas', f) { var k :| 0 <= k < |arenas| && f in Frames(arenas'[k]); assert f in Frames(arenas[k]); }
  }

  function HeapAll(s: set<nat>): Owners {
    map f | f in s :: HeapArena
  }

  /** A new arena was made of free frames. */
  lemma BooksArena(b: Books, arenas: seq<Arena>, free: set<nat>)
    requires BooksOk(b) && |arenas| == |b.arenas| + 1 && SameExtents(b.arenas, arenas)
    requires free <= b.free && Frames(arenas[|b.arenas|]) == b.free - free && StructsLive(b.(arenas := arenas))
    ensures BooksOk(b.(arenas := arenas, free := free, owner := b.owner + HeapAll(b.free - free)))
  {
    hide BooksOk, UserSpaces, KernelTables, TaskOwns, OwnerLive, IsPayload, InArena, HeapOwned, TasksOwn, OwnersLive,
        Accounted, StructsLive, Frames;
    var b' := b.(arenas := arenas, free := free, owner := b.owner + HeapAll(b.free - free));
    BooksParts(b);
    assert Accounted(b') by { ArenaAccounted(b, arenas, free); }
    assert HeapOwned(b') by { ArenaHeap(b, arenas, free); }
    assert TasksOwn(b') && OwnersLive(b') by { ArenaOwners(b, arenas, free); }
    assert KernelTables(b') by { ArenaKernel(b, arenas, free); }
    assert UserSpaces(b') by { ArenaSpaces(b, arenas, free); }
    SameStructs(b.(arenas := arenas), b');
    BooksWhole(b');
  }

  lemma ArenaAccounted(b: Books, arenas: seq<Arena>, free: set<nat>)
    requires Accounted(b) && free <= b.free
    ensures Accounted(b.(arenas := arenas, free := free, owner := b.owner + HeapAll(b.free - free)))
  {
    var owner := b.owner + HeapAll(b.free - free);
    forall f: nat ensures f in owner.Keys + free <==> f < |b.mem| {
      assert f in b.owner.Keys + b.free <==> f < |b.mem|;
    }
  }

  lemma ArenaHeap(b: Books, arenas: seq<Arena>, free: set<nat>)
    requires Accounted(b) && HeapOwned(b) && |arenas| == |b.arenas| + 1 && SameExtents(b.arenas, arenas)
    requires free <= b.free && Frames(arenas[|b.arenas|]) == b.free - free
    ensures HeapOwned(b.(arenas := arenas, free := free, owner := b.owner + HeapAll(b.free - free)))
  {
    hide Frames;
    var n := |b.arenas|;
    forall f: nat ensures InArena(arenas, f) <==> InArena(b.arenas, f) || f in b.free - free {
      SameArenaFrames(b.arenas, arenas[..n], f);
      if InArena(arenas, f) {
        var k :| 0 <= k < |arenas| && f in Frames(arenas[k]);
        if k < n { assert f in Frames(arenas[..n][k]); }
      }
      if InArena(arenas[..n], f) { var k :| 0 <= k < n && f in Frames(arenas[..n][k]); assert f in Frames(arenas[k]); }
      if f in b.free - free { assert f in Frames(arenas[n]); }
    }
  }

  lemma ArenaOwners(b: Books, arenas: seq<Arena>, free: set<nat>)
    requires Accounted(b) && free <= b.free && TasksOwn(b) && OwnersLive(b)
    ensures var b' := b.(arenas := arenas, free := free, owner := b.owner + HeapAll(b.free - free));
      TasksOwn(b') && OwnersLive(b')
  {
    var b' := b.(arenas := arenas, free := free, owner := b.owner + HeapAll(b.free - free));
    forall f | f in b'.owner ensures OwnerLive(b', f) { if f in b.owner { assert OwnerLive(b, f); } }
    forall t | t in b.store ensures TaskOwns(b.store[t], t, b'.owner) { assert TaskOwns(b.store[t], t, b.owner); }
  }

  lemma ArenaKernel(b: Books, arenas: seq<Arena>, free: set<nat>)
    requires Accounted(b) && free <= b.free && KernelTables(b)
    ensures KernelTables(b.(arenas := arenas, free := free, owner := b.owner + HeapAll(b.free - free)))
  {
    hide Node;
  }

  lemma ArenaSpaces(b: Books, arenas: seq<Arena>, free: set<nat>)
    requires Accounted(b) && free <= b.free && UserSpaces(b)
    ensures UserSpaces(b.(arenas := arenas, free := free, owner := b.owner + HeapAll(b.free - free)))
  {
    hide Node, Lower, Owns;
    var owner := b.owner + HeapAll(b.free - free);
    forall t | t in b.store && b.store[t].ownSpace ensures UserSpace(b.mem, b.store[t].cr3 / PAGE_SIZE, t, owner) {
      assert UserSpace(b.mem, b.store[t].cr3 / PAGE_SIZE, t, b.owner);
      assert SpaceOf(owner, t) == SpaceOf(b.owner, t);
    }
  }

  // ---------------------------------------------------------------- tasks come and go

  /** The kernel changed task structures, but not which stacks and address spaces they have. */
  lemma BooksTasks(b: Books, store: Tasks.Store)
    requires BooksOk(b) && Tasks.SameResources(b.store, store)
    ensures BooksOk(b.(store := store))
  {
    hide KernelTables, UserSpace, IsPayload, InArena;
    var b' := b.(store := store);
    forall f | f in b.owner ensures OwnerLive(b', f) { assert OwnerLive(b, f); }
    forall t | t in store ensures TaskOwns(store[t], t, b.owner) { assert TaskOwns(b.store[t], t, b.owner); }
    SameKernel(b, b');
  }

  lemma SameKernel(b: Books, b': Books)
    requires b'.owner == b.owner && b'.mem == b.mem && b'.kernel == b.kernel && KernelTables(b)
    ensures KernelTables(b')
  {
    hide Node;
  }

  /** Frames in hand become those of task `t`. */
  function Labelled(owner: Owners, t: nat, c: Tasks.Struct, own: map<nat, Pos>): Owners {
    owner + (map f | f in own :: InSpace(t, own[f])) + map[c.stack / PAGE_SIZE := KernelStack(t)]
    + (if c.ownSpace then map[c.cr3 / PAGE_SIZE := TopTable(t)] else map[])
  }

  /** What a new task brings: a kernel stack and, for a user task, a PML4 with a user half. */
  ghost predicate NewTask(b: Books, t: nat, c: Tasks.Struct, own: map<nat, Pos>) {
    && t !in b.store && IsPayload(b.arenas, t)
    && c.stack % PAGE_SIZE == 0 && c.stack != 0 && c.cr3 % PAGE_SIZE == 0
    && c.stack / PAGE_SIZE in HandFrames(b.owner) && own.Keys <= HandFrames(b.owner) && c.stack / PAGE_SIZE !in own
    && (if c.ownSpace
        then c.cr3 != 0 && c.cr3 / PAGE_SIZE in HandFrames(b.owner) && c.cr3 != c.stack && c.cr3 / PAGE_SIZE !in own
             && Owns(b.mem, c.cr3 / PAGE_SIZE, own) && KernelHalf(b.mem, c.cr3 / PAGE_SIZE, b.owner)
        else own == map[] && c.cr3 == b.kernel * PAGE_SIZE)
  }

  lemma BooksNewTask(b: Books, t: nat, c: Tasks.Struct, own: map<nat, Pos>)
    requires BooksOk(b) && NewTask(b, t, c, own)
    ensures BooksOk(b.(store := b.store[t := c], owner := Labelled(b.owner, t, c, own)))
    ensures SpaceOf(Labelled(b.owner, t, c, own), t) == own
    ensures TaskFrames(Labelled(b.owner, t, c, own), t) ==
        own.Keys + {c.stack / PAGE_SIZE} + (if c.ownSpace then {c.cr3 / PAGE_SIZE} else {})
    ensures HandFrames(Labelled(b.owner, t, c, own)) ==
        HandFrames(b.owner) - TaskFrames(Labelled(b.owner, t, c, own), t)
  {
    hide BooksOk, UserSpaces, KernelTables, TaskOwns, OwnerLive, IsPayload, InArena, HeapOwned, TasksOwn, OwnersLive,
        Accounted, StructsLive,
         Labelled, Owns, KernelHalf, SpaceOf, TaskFrames;
    var b' := b.(store := b.store[t := c], owner := Labelled(b.owner, t, c, own));
    BooksParts(b);
    LabelledAt(b.owner, t, c, own);
    assert (forall f | f in b.owner :: b.owner[f] == InHand || !OfTask(b.owner[f], t)) by { NoFrames(b, t); }
    assert Accounted(b') by { LabelAccounted(b, b'); }
    assert HeapOwned(b') by { LabelHeap(b, b'); }
    assert TasksOwn(b') by { NewTasksOwn(b, t, c, own); }
    assert OwnersLive(b') by { NewOwnersLive(b, t, c, own); }
    assert KernelTables(b') by { LabelKernel(b, b'); }
    assert UserSpaces(b') by { NewSpaces(b, t, c, own); }
    assert StructsLive(b') by { NewStructs(b, b', t); }
    BooksWhole(b');
    LabelledFrames(b.owner, t, c, own);
  }

  lemma LabelledFrames(owner: Owners, t: nat, c: Tasks.Struct, own: map<nat, Pos>)
    requires forall f | f in owner :: owner[f] == InHand || !OfTask(owner[f], t)
    requires c.stack / PAGE_SIZE in HandFrames(owner) && own.Keys <= HandFrames(owner) && c.stack / PAGE_SIZE !in own
    requires c.ownSpace ==>
        c.cr3 / PAGE_SIZE in HandFrames(owner) && c.cr3 / PAGE_SIZE !in own && c.cr3 / PAGE_SIZE != c.stack / PAGE_SIZE
    ensures var owner' := Labelled(owner, t, c, own);
      && SpaceOf(owner', t) == own
      && TaskFrames(owner', t) == own.Keys + {c.stack / PAGE_SIZE} + (if c.ownSpace then {c.cr3 / PAGE_SIZE} else {})
      && HandFrames(owner') == HandFrames(owner) - TaskFrames(owner', t)
  {
    hide Labelled;
    LabelledAt(owner, t, c, own);
    assert SpaceOf(Labelled(owner, t, c, own), t) == own;
  }

  lemma NoFrames(b: Books, t: nat)
    requires OwnersLive(b) && t !in b.store
    ensures forall f | f in b.owner :: !OfTask(b.owner[f], t)
  {
    forall f | f in b.owner ensures !OfTask(b.owner[f], t) { assert OwnerLive(b, f); }
  }

  lemma LabelledAt(owner: Owners, t: nat, c: Tasks.Struct, own: map<nat, Pos>)
    requires c.stack / PAGE_SIZE in HandFrames(owner) && own.Keys <= HandFrames(owner) && c.stack / PAGE_SIZE !in own
    requires c.ownSpace ==>
        c.cr3 / PAGE_SIZE in HandFrames(owner) && c.cr3 / PAGE_SIZE !in own && c.cr3 / PAGE_SIZE != c.stack / PAGE_SIZE
    ensures var owner' := Labelled(owner, t, c, own);
      && owner'.Keys == owner.Keys
      && (forall f | f in owner' :: owner'[f] ==
            if c.ownSpace && f == c.cr3 / PAGE_SIZE then TopTable(t)
            else if f == c.stack / PAGE_SIZE then KernelStack(t)
            else if f in own then InSpace(t, own[f]) else owner[f])
      && (forall f | f in owner && owner[f] != InHand :: owner'[f] == owner[f])
  {
  }

  lemma LabelAccounted(b: Books, b': Books)
    requires Accounted(b) && b'.owner.Keys == b.owner.Keys && b'.free == b.free && b'.mem == b.mem
    ensures Accounted(b')
  {
  }

  lemma LabelHeap(b: Books, b': Books)
    requires HeapOwned(b) && b'.arenas == b.arenas && b'.owner.Keys == b.owner.Keys
    requires forall f | f in b'.owner :: b'.owner[f] == HeapArena <==> b.owner[f] == HeapArena
    ensures HeapOwned(b')
  {
    hide InArena;
  }

  lemma LabelKernel(b: Books, b': Books)
    requires KernelTables(b) && b'.kernel == b.kernel && b'.mem == b.mem && b'.owner.Keys == b.owner.Keys
    requires forall f | f in b.owner && b.owner[f] == Reserved :: b'.owner[f] == Reserved
    ensures KernelTables(b')
  {
    hide Node;
  }

  lemma NewTasksOwn(b: Books, t: nat, c: Tasks.Struct, own: map<nat, Pos>)
    requires TasksOwn(b) && NewTask(b, t, c, own)
    ensures TasksOwn(b.(store := b.store[t := c], owner := Labelled(b.owner, t, c, own)))
  {
    hide Owns, KernelHalf, Labelled;
    LabelledAt(b.owner, t, c, own);
    var b' := b.(store := b.store[t := c], owner := Labelled(b.owner, t, c, own));
    forall u | u in b'.store ensures TaskOwns(b'.store[u], u, b'.owner)
        && (!b'.store[u].ownSpace ==> b'.store[u].cr3 == b.kernel * PAGE_SIZE) {
      if u != t { assert TaskOwns(b.store[u], u, b.owner); }
    }
  }

  lemma NewOwnersLive(b: Books, t: nat, c: Tasks.Struct, own: map<nat, Pos>)
    requires OwnersLive(b) && NewTask(b, t, c, own)
    ensures OwnersLive(b.(store := b.store[t := c], owner := Labelled(b.owner, t, c, own)))
  {
    hide Owns, KernelHalf, Labelled, IsPayload;
    LabelledAt(b.owner, t, c, own);
    var b' := b.(store := b.store[t := c], owner := Labelled(b.owner, t, c, own));
    OwnsNothing(b, t, c, own);
    forall f | f in b'.owner ensures OwnerLive(b', f) { assert OwnerLive(b, f); }
  }

  lemma OwnsNothing(b: Books, t: nat, c: Tasks.Struct, own: map<nat, Pos>)
    requires NewTask(b, t, c, own)
    ensures !c.ownSpace ==> own == map[]
  {
  }

  lemma NewSpaces(b: Books, t: nat, c: Tasks.Struct, own: map<nat, Pos>)
    requires UserSpaces(b) && OwnersLive(b) && NewTask(b, t, c, own)
    ensures UserSpaces(b.(store := b.store[t := c], owner := Labelled(b.owner, t, c, own)))
  {
    hide Owns, Labelled, IsPayload, OwnersLive, KernelHalf, UserSpaces, SpaceOf, HandFrames;
    NoFrames(b, t);
    LabelledFrames(b.owner, t, c, own);
    LabelsHand(b.owner, t, c, own);
    var owner' := Labelled(b.owner, t, c, own);
    var b' := b.(store := b.store[t := c], owner := owner');
    forall u | u in b'.store && b'.store[u].ownSpace ensures UserSpace(b.mem, b'.store[u].cr3 / PAGE_SIZE, u, owner') {
      if u != t {
        OneSpace(b, u);
        OtherSpace(b.owner, owner', t, u);
      }
      HalfLabelled(b.mem, b'.store[u].cr3 / PAGE_SIZE, b.owner, owner', t);
    }
    SpacesWhole(b');
  }

  /** The new owners differ from the old ones in frames that were in hand and are the task's. */
  ghost predicate HandOnly(owner: Owners, owner': Owners, t: nat) {
    && owner'.Keys == owner.Keys
    && forall f | f in owner :: owner'[f] == owner[f] || (owner[f] == InHand && OfTask(owner'[f], t))
  }

  lemma LabelsHand(owner: Owners, t: nat, c: Tasks.Struct, own: map<nat, Pos>)
    requires c.stack / PAGE_SIZE in HandFrames(owner) && own.Keys <= HandFrames(owner) && c.stack / PAGE_SIZE !in own
    requires c.ownSpace ==>
        c.cr3 / PAGE_SIZE in HandFrames(owner) && c.cr3 / PAGE_SIZE !in own && c.cr3 / PAGE_SIZE != c.stack / PAGE_SIZE
    ensures HandOnly(owner, Labelled(owner, t, c, own), t)
  {
    hide Labelled;
    LabelledAt(owner, t, c, own);
  }

  lemma OtherSpace(owner: Owners, owner': Owners, t: nat, u: nat)
    requires HandOnly(owner, owner', t) && u != t
    ensures SpaceOf(owner', u) == SpaceOf(owner, u)
  {
  }

  lemma HalfLabelled(mem: Memory, root: nat, owner: Owners, owner': Owners, t: nat)
    requires KernelHalf(mem, root, owner) && HandOnly(owner, owner', t)
    ensures KernelHalf(mem, root, owner')
  {
    hide Node, Lower;
  }

  lemma OneSpace(b: Books, t: nat)
    requires UserSpaces(b) && t in b.store && b.store[t].ownSpace
    ensures UserSpace(b.mem, b.store[t].cr3 / PAGE_SIZE, t, b.owner)
  {
  }

  lemma SpacesWhole(b: Books)
    requires forall t | t in b.store && b.store[t].ownSpace :: UserSpace(b.mem, b.store[t].cr3 / PAGE_SIZE, t, b.owner)
    ensures UserSpaces(b)
  {
  }

  lemma NewStructs(b: Books, b': Books, t: nat)
    requires StructsLive(b) && b'.arenas == b.arenas && b'.store.Keys == b.store.Keys + {t} && IsPayload(b.arenas, t)
    ensures StructsLive(b')
  {
  }

  /** The frames of task `t` are in hand again. */
  function Unlabelled(owner: Owners, t: nat): Owners {
    map f | f in owner :: if OfTask(owner[f], t) then InHand else owner[f]
  }

  lemma BooksDropTask(b: Books, z: nat)
    requires BooksOk(b) && z in b.store
    ensures BooksOk(b.(store := b.store - {z}, owner := Unlabelled(b.owner, z)))
    ensures HandFrames(Unlabelled(b.owner, z)) == HandFrames(b.owner) + TaskFrames(b.owner, z)
    ensures forall t | t != z :: TaskFrames(Unlabelled(b.owner, z), t) == TaskFrames(b.owner, t)
  {
    hide BooksOk, UserSpaces, KernelTables, TaskOwns, OwnerLive, IsPayload, InArena, HeapOwned, TasksOwn, OwnersLive,
        Accounted, StructsLive;
    var b' := b.(store := b.store - {z}, owner := Unlabelled(b.owner, z));
    BooksParts(b);
    assert b'.owner.Keys == b.owner.Keys;
    assert Accounted(b') by { LabelAccounted(b, b'); }
    assert HeapOwned(b') by { LabelHeap(b, b'); }
    assert KernelTables(b') by { LabelKernel(b, b'); }
    assert TasksOwn(b') && OwnersLive(b') && StructsLive(b') by { DropOwners(b, z); }
    assert UserSpaces(b') by { DropSpaces(b, z); }
    BooksWhole(b');
  }

  lemma DropOwners(b: Books, z: nat)
    requires TasksOwn(b) && OwnersLive(b) && StructsLive(b)
    ensures var b' := b.(store := b.store - {z}, owner := Unlabelled(b.owner, z));
      TasksOwn(b') && OwnersLive(b') && StructsLive(b')
  {
    hide IsPayload;
    var b' := b.(store := b.store - {z}, owner := Unlabelled(b.owner, z));
    forall f | f in b'.owner ensures OwnerLive(b', f) { assert OwnerLive(b, f); }
    forall t | t in b'.store ensures TaskOwns(b'.store[t], t, b'.owner) { assert TaskOwns(b.store[t], t, b.owner); }
  }

  lemma DropSpaces(b: Books, z: nat)
    requires UserSpaces(b)
    ensures UserSpaces(b.(store := b.store - {z}, owner := Unlabelled(b.owner, z)))
  {
    hide Owns, Node, Lower;
    var owner := Unlabelled(b.owner, z);
    forall t | t in b.store && t != z && b.store[t].ownSpace
      ensures UserSpace(b.mem, b.store[t].cr3 / PAGE_SIZE, t, owner) {
      assert UserSpace(b.mem, b.store[t].cr3 / PAGE_SIZE, t, b.owner);
      assert SpaceOf(owner, t) == SpaceOf(b.owner, t);
    }
  }

  /** All that a task owns: its PML4, the user half below it, and its kernel stack. */
  lemma FramesOfTask(b: Books, t: nat)
    requires BooksOk(b) && t in b.store
    ensures TaskFrames(b.owner, t) ==
              (if b.store[t].stack != 0 then {b.store[t].stack / PAGE_SIZE} else {})
              + (if b.store[t].ownSpace then {b.store[t].cr3 / PAGE_SIZE} + SpaceOf(b.owner, t).Keys else {})
    ensures b.store[t].ownSpace ==> b.store[t].cr3 / PAGE_SIZE !in SpaceOf(b.owner, t)
    ensures b.store[t].stack != 0 ==> b.store[t].stack / PAGE_SIZE !in SpaceOf(b.owner, t)
    ensures b.store[t].stack != 0 && b.store[t].ownSpace ==> b.store[t].stack / PAGE_SIZE != b.store[t].cr3 / PAGE_SIZE
  {
    hide UserSpaces, KernelTables, InArena, IsPayload;
    assert TaskOwns(b.store[t], t, b.owner);
    forall f | f in b.owner ensures OwnerLive(b, f) { }
  }
}
