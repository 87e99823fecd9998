/** Creation and reaping of tasks: the heap, the frame allocator, the page tables and the task
    structures together (src/task.c). */
module Kernel {
  import opened Accounts
  import opened Base
  import opened Ownership
  import opened PageTables
  import opened Paging
  import opened Pmm
  import Elf
  import ElfFormat
  import Heap
  import HeapCells
  import HeapLayout
  import Lifecycle
  import Tasks

  /** Size of `task_t`. */
  const STRUCT_SIZE: nat := 152
  const USER_CODE_VADDR: nat := 0x40_0000
  const USER_STACK_VADDR: nat := 0x80_0000
  const ELF_STACK_TOP: nat := 0x7000_0000
  const ELF_STACK_PAGES: nat := 4

  // ---------------------------------------------------------------- heap blocks as payloads

  /** Allocation keeps live payloads live. */
  lemma AllocatedPayloads(cells: HeapCells.Cells, arenas: seq<Heap.Arena>, cells': HeapCells.Cells,
                          arenas': seq<Heap.Arena>, n: nat, k: nat, i: nat, a: nat)
    requires Heap.ArenasOk(arenas) && Heap.Allocated(cells, arenas, cells', arenas', n, k, i)
    ensures SameExtents(arenas, arenas') && |arenas'| == |arenas|
    ensures IsPayload(arenas, a) ==> IsPayload(arenas', a)
    ensures var ptr := arenas[k].blocks[i].Payload(); IsPayload(arenas', ptr) && !IsPayload(arenas, ptr)
  {
    hide Heap.ArenasOk, Heap.OthersKept, Heap.Filled, Heap.NoFit, Heap.NoFitIn, Heap.IsLive, HeapLayout.Carve;
    if IsPayload(arenas, a) { Heap.CarveLive(arenas, k, i, n, a - HeapLayout.HEADER); }
    Heap.CarvedIsLive(arenas, k, i, n);
    FreeIsNotLive(arenas, k, i);
  }

  /** The header of a free block is not that of a live one. */
  lemma FreeIsNotLive(arenas: seq<Heap.Arena>, k: nat, i: nat)
    requires Heap.ArenasOk(arenas) && k < |arenas| && i < |arenas[k].blocks| && arenas[k].blocks[i].free
    ensures !Heap.IsLive(arenas, arenas[k].blocks[i].addr)
  {
    hide Heap.ArenasOk;
    var x := arenas[k].blocks[i].addr;
    forall k': nat, i': nat | k' < |arenas| && i' < |arenas[k'].blocks| && arenas[k'].blocks[i'].addr == x
      ensures arenas[k'].blocks[i'].free
    {
      Heap.BlockInArena(arenas, k, i);
      Heap.BlockInArena(arenas, k', i');
      if (k', i') != (k, i) { Heap.BlocksApart(arenas, k, i, k', i'); }
    }
  }

  lemma AllocatedInNewPayloads(cells: HeapCells.Cells, arenas: seq<Heap.Arena>, cells': HeapCells.Cells,
                               arenas': seq<Heap.Arena>, n: nat,
                               free: set<nat>, free': set<nat>, a: nat)
    requires Heap.ArenasOk(arenas') && Heap.AllocatedInNew(cells, arenas, cells', arenas', n, free, free')
    ensures SameExtents(arenas, arenas') && |arenas'| == |arenas| + 1
    ensures free' <= free && Heap.Frames(arenas'[|arenas|]) == free - free'
    ensures IsPayload(arenas, a) ==> IsPayload(arenas', a)
    ensures var ptr := arenas'[|arenas|].base + HeapLayout.HEADER + HeapLayout.HEADER;
        IsPayload(arenas', ptr) && !IsPayload(arenas, ptr)
  {
    hide Heap.ArenasOk, Heap.OthersKept, Heap.Filled, Heap.IsLive, HeapLayout.Carve, Run;
    var new_ := arenas'[|arenas|];
    var fresh_ := Heap.NewArena(new_.base, Heap.PagesFor(n));
    assert arenas' == Heap.WithBlocks(arenas + [fresh_], |arenas|, HeapLayout.Carve(fresh_.blocks, 0, n));
    if IsPayload(arenas, a) {
      Heap.LiveInMore(arenas, fresh_, a - HeapLayout.HEADER);
      Heap.CarveLive(arenas + [fresh_], |arenas|, 0, n, a - HeapLayout.HEADER);
    }
    Heap.CarvedIsLive(arenas + [fresh_], |arenas|, 0, n);
    Heap.NewFrames(new_.base, Heap.PagesFor(n));
    NotInOlder(arenas, arenas', new_.base + HeapLayout.HEADER);
  }

  /** No block of an older arena starts inside the newest one. */
  lemma NotInOlder(arenas: seq<Heap.Arena>, arenas': seq<Heap.Arena>, x: nat)
    requires Heap.ArenasOk(arenas') && |arenas'| == |arenas| + 1 && arenas'[..|arenas|] == arenas
    requires arenas'[|arenas|].base <= x < arenas'[|arenas|].base + arenas'[|arenas|].total
    ensures !Heap.IsLive(arenas, x)
  {
    hide Heap.ArenaOk;
    forall k: nat, i: nat | k < |arenas| && i < |arenas[k].blocks| ensures arenas[k].blocks[i].addr != x {
      assert arenas'[k] == arenas[k];
      Heap.BlockInArena(arenas', k, i);
      assert Heap.Apart(arenas'[k], arenas'[|arenas|]);
    }
  }

  lemma FreedPayloads(cells: HeapCells.Cells, arenas: seq<Heap.Arena>, cells': HeapCells.Cells,
                      arenas': seq<Heap.Arena>, k: nat, i: nat, ptr: nat, a: nat)
    requires Heap.Freed(cells, arenas, cells', arenas', k, i) && Heap.LiveAt(arenas, k, i, ptr)
    ensures SameExtents(arenas, arenas') && |arenas'| == |arenas|
    ensures IsPayload(arenas, a) && a != ptr ==> IsPayload(arenas', a)
  {
    hide Heap.OthersKept, Heap.Filled, Heap.IsLive, HeapLayout.Release;
    if IsPayload(arenas, a) && a != ptr { Heap.ReleaseLive(arenas, k, i, a - HeapLayout.HEADER); }
  }

  // ---------------------------------------------------------------- address spaces in hand

  lemma KernelReady(b: Books)
    requires BooksOk(b)
    ensures Ready(b.mem, b.kernel, b.free) && IsTable(b.mem, b.kernel) && IsReserved(b.owner, b.kernel)
  {
    hide Node, UserSpaces;
    NodeRoot(b.mem, b.kernel);
  }

  /** A cloned PML4 has the reserved tables of the kernel in its kernel half. */
  lemma ClonedHalf(b: Books, mem: Memory, root: nat)
    requires BooksOk(b)
    requires forall d, p | 1 <= d <= 3 && !Lower(d, p) :: Node(mem, root, d, p) == Node(b.mem, b.kernel, d, p)
    ensures KernelHalf(mem, root, b.owner)
  {
    hide Node, Lower, UserSpaces;
  }

  lemma HalfKept(mem0: Memory, mem: Memory, root: nat, owner: Owners, owner': Owners)
    requires KernelHalf(mem0, root, owner) && SameKernelHalf(mem0, mem, root)
    requires forall f | f in owner && owner[f] == Reserved :: f in owner' && owner'[f] == Reserved
    ensures KernelHalf(mem, root, owner')
  {
    hide Node, Lower;
  }

  lemma FrameZero(b: Books)
    requires Accounted(b) && 0 !in b.free
    ensures forall f | f in b.free :: f != 0 && f !in b.owner && f < |b.mem|
  {
    forall f: nat | f in b.free ensures f < |b.mem| { assert f in b.owner.Keys + b.free; }
  }

  lemma HeapNotFree(b: Books)
    requires Accounted(b) && HeapOwned(b)
    ensures forall k | 0 <= k < |b.arenas| :: Heap.Frames(b.arenas[k]) !! b.free
  {
    hide Run, Heap.Frames;
    forall k | 0 <= k < |b.arenas| ensures Heap.Frames(b.arenas[k]) !! b.free {
      forall f | f in Heap.Frames(b.arenas[k]) ensures f !in b.free { assert InArena(b.arenas, f); }
    }
  }

  /** No frame that has an owner, but for those in hand, has changed its contents. */
  ghost predicate Stable(owner: Owners, mem: Memory, mem': Memory) {
    && |mem'| == |mem|
    && forall f | f in owner && owner[f] != InHand :: SameFrame(mem, mem', f)
  }

  lemma StableSame(b: Books)
    requires BooksOk(b)
    ensures Stable(b.owner, b.mem, b.mem)
  {
    hide BooksOk;
    BooksParts(b);
    forall f | f in b.owner ensures SameFrame(b.mem, b.mem, f) { assert f in b.owner.Keys + b.free; }
  }

  /** Two changes one after the other; in between frames came into hand. */
  lemma StableChain(owner: Owners, mem: Memory, owner1: Owners, mem1: Memory, mem2: Memory)
    requires Stable(owner, mem, mem1) && Stable(owner1, mem1, mem2)
    requires forall f | f in owner && owner[f] != InHand :: f in owner1 && owner1[f] != InHand
    ensures Stable(owner, mem, mem2)
  {
    forall f | f in owner && owner[f] != InHand ensures SameFrame(mem, mem2, f) {
      assert SameFrame(mem, mem1, f) && SameFrame(mem1, mem2, f);
    }
  }

  /** A change of one frame that is in hand, or not owned at all. */
  lemma StableWrite(b: Books, mem: Memory, f: nat)
    requires BooksOk(b) && |mem| == |b.mem| && (f in b.owner ==> b.owner[f] == InHand)
    requires forall g: nat | g < |mem| && g != f :: mem[g] == b.mem[g]
    ensures Stable(b.owner, b.mem, mem)
  {
    hide BooksOk;
    BooksParts(b);
    forall g | g in b.owner && b.owner[g] != InHand ensures SameFrame(b.mem, mem, g) {
      assert g in b.owner.Keys + b.free;
    }
  }

  /** The machine's memory as the task operations of the kernel see it. */
  class Resources {
    const pmm: FrameAllocator
    const machine: Machine
    const heap: Heap.KernelHeap
    /** Frame of the kernel's PML4. */
    const kernel: nat

    ghost var owner: Owners

    constructor (pmm: FrameAllocator, machine: Machine, heap: Heap.KernelHeap, kernel: nat, ghost owner: Owners)
      ensures this.pmm == pmm && this.machine == machine && this.heap == heap && this.kernel == kernel
        && this.owner == owner
    {
      this.pmm, this.machine, this.heap, this.kernel, this.owner := pmm, machine, heap, kernel, owner;
    }

    ghost function TheBooks(store: Tasks.Store): Books
      reads this, pmm, machine, heap
    {
      Books(machine.mem, pmm.free, store, heap.arenas, owner, kernel)
    }

    /** What holds while a kernel operation is in progress; `store` are the task structures that
        count. */
    ghost predicate Working(store: Tasks.Store)
      reads this, pmm, pmm.bitmap, machine, heap
    {
      && machine.pmm == pmm && heap.pmm == pmm
      && pmm.Valid() && |machine.mem| == pmm.frameCount <= ADDR_FRAMES && 0 !in pmm.free
      && heap.Shape() && BooksOk(TheBooks(store))
    }

    /** `kmalloc` of a task structure. It never returns NULL: the arena it would need is a single
        page, for which the frame allocator panics instead. */
    method AllocStruct(ghost store: Tasks.Store) returns (r: Outcome<nat>)
      requires Working(store)
      modifies this`owner, pmm`freeFrames, pmm`free, pmm.bitmap, heap`cells, heap`arenas
      ensures Working(store)
      ensures r.Halted? ==> pmm.free == {}
      ensures pmm.free <= old(pmm.free) && owner == old(owner) + HeapAll(old(pmm.free) - pmm.free)
      ensures r.Done? ==> r.value != 0 && IsPayload(heap.arenas, r.value) && r.value !in store
      ensures r.Done? ==> !IsPayload(old(heap.arenas), r.value) && PayloadsKept(old(heap.arenas), heap.arenas)
    {
      hide PayloadsKept, pmm.Valid, Heap.ArenasOk, Heap.HeapAt, BooksOk, Heap.Allocated, Heap.AllocatedInNew, Run,
          HasRun, Heap.NoFit, Heap.Frames, SameExtents, IsPayload;
      assert heap.Valid() by { BooksParts(TheBooks(store)); HeapNotFree(TheBooks(store)); }
      assert HeapLayout.AlignUp(STRUCT_SIZE) == 160 && Heap.PagesFor(160) == 1;
      ghost var b, cells := TheBooks(store), heap.cells;
      ghost var k, i;
      r, k, i := heap.KMalloc(STRUCT_SIZE);
      assert HasRun(b.free, 1) <==> b.free != {} by { SingleRuns(b.free); }
      if r.Halted? {
        assert b.owner + HeapAll(b.free - pmm.free) == b.owner;
        return;
      }
      if Heap.NoFit(b.arenas, 160, |b.arenas|) {
        GrewBooks(b, cells, heap.cells, heap.arenas, pmm.free);
        owner := owner + HeapAll(b.free - pmm.free);
      } else {
        CarvedBooks(b, cells, heap.cells, heap.arenas, k, i);
        assert b.owner + HeapAll(b.free - pmm.free) == b.owner;
      }
    }

    /** One frame from the allocator, in hand. */
    method TakeFrame(ghost store: Tasks.Store) returns (r: Outcome<nat>)
      requires Working(store)
      modifies this`owner, pmm`freeFrames, pmm`free, pmm.bitmap
      ensures Working(store)
      ensures r.Halted? ==> pmm.free == {} == old(pmm.free) && owner == old(owner)
      ensures r.Done? ==> r.value % PAGE_SIZE == 0 && r.value != 0 && r.value / PAGE_SIZE in old(pmm.free)
                          && pmm.free == old(pmm.free) - {r.value / PAGE_SIZE}
                          && r.value / PAGE_SIZE !in old(owner) && r.value / PAGE_SIZE < |machine.mem|
                          && owner == old(owner)[r.value / PAGE_SIZE := InHand]
    {
      hide pmm.Valid, BooksOk, heap.Shape;
      ghost var b := TheBooks(store);
      r := pmm.AllocFrame();
      if r.Halted? { return; }
      TakeOne(b, r.value / PAGE_SIZE, b.mem);
      owner := owner[r.value / PAGE_SIZE := InHand];
    }

    /** The frame's contents are read as bytes from now on, whatever was left in it. */
    method UseAsPage(f: nat, ghost store: Tasks.Store)
      requires Working(store) && f in HandFrames(owner)
      modifies machine`mem
      ensures Working(store) && IsPage(machine.mem, f) && Stable(owner, old(machine.mem), machine.mem)
      ensures forall g: nat | g < |machine.mem| && g != f :: machine.mem[g] == old(machine.mem)[g]
    {
      hide pmm.Valid, BooksOk, heap.Shape;
      ghost var b := TheBooks(store);
      assert f < |machine.mem| by { BooksParts(b); HandInMemory(b, f); }
      var stale: seq<byte> :| |stale| == PAGE_SIZE by { SomeBytes(); }
      machine.mem := machine.mem[f := PageFrame(stale)];
      WriteHand(b, machine.mem, f);
      StableWrite(b, machine.mem, f);
    }

    /** A new address space: a zeroed PML4 with the kernel's entries. */
    method NewSpace(ghost store: Tasks.Store) returns (r: Outcome<nat>)
      requires Working(store)
      modifies this`owner, machine`mem, pmm`freeFrames, pmm`free, pmm.bitmap
      ensures Working(store)
      ensures r.Halted? ==> pmm.free == {}
      ensures r.Done? ==> r.value % PAGE_SIZE == 0 && r.value != 0 && var root := r.value / PAGE_SIZE;
                          && root in old(pmm.free) && pmm.free == old(pmm.free) - {root} && root !in old(owner)
                          && owner == old(owner)[root := InHand]
                          && SpaceInHand(machine.mem, root, map[], owner, pmm.free)
                          && (forall q | Lower(4, q) :: Leaf(machine.mem, root, q) == EMPTY)
                          && Stable(old(owner), old(machine.mem), machine.mem)
    {
      hide pmm.Valid, BooksOk, heap.Shape, Owns, InUse, KernelHalf, Leaf, Ready, Cloned;
      ghost var b := TheBooks(store);
      r := TakeFrame(store);
      if r.Halted? { return; }
      var root := r.value / PAGE_SIZE;
      KernelReady(b);
      machine.mem := machine.mem[root := ZeroTable()];
      assert kernel != root && IsTable(machine.mem, kernel);
      machine.CloneKernelMappings(root, kernel);
      ClonedFrom(b.mem, machine.mem, kernel, root);
      ClonedOwns(b.mem, machine.mem, b.free, kernel, root);
      ClonedHalf(b, machine.mem, root);
      HalfMore(machine.mem, root, b.owner, root);
      WriteHand(b.(free := pmm.free, owner := owner), machine.mem, root);
      SpaceIsInHand(machine.mem, root, map[], owner, pmm.free);
      StableWrite(b, machine.mem, root);
    }

    /** Maps a page of frame `paddr` into an address space under construction. */
    method MapPage(root: nat, vaddr: nat, paddr: nat, writable: bool, executable: bool, ghost own: map<nat, Pos>,
                   ghost store: Tasks.Store)
        returns (r: MapResult, ghost own': map<nat, Pos>)
      requires Working(store) && SpaceInHand(machine.mem, root, own, owner, pmm.free)
      requires Lower(4, Vpn(vaddr))
      requires paddr / PAGE_SIZE in HandFrames(owner) && paddr / PAGE_SIZE != root && paddr / PAGE_SIZE !in own
      requires IsPage(machine.mem, paddr / PAGE_SIZE) && paddr / PAGE_SIZE != 0
      modifies this`owner, machine`mem, pmm`freeFrames, pmm`free, pmm.bitmap
      ensures !r.Failed?
      ensures r.Panicked? ==> pmm.free == {}
      ensures r.Mapped? ==>
                && Working(store) && SpaceInHand(machine.mem, root, own', owner, pmm.free)
                && UserPageMapped(old(machine.mem), old(pmm.free), machine.mem, pmm.free, root, own, own',
                      Vpn(vaddr), paddr / PAGE_SIZE, writable, executable)
                && owner == old(owner) + InHandAll(old(pmm.free) - pmm.free)
                && Stable(old(owner), old(machine.mem), machine.mem)
    {
      hide pmm.Valid, BooksOk, heap.Shape, Owns, InUse, KernelHalf, Leaf, UserPageMapped, Node, Lower, Vpn;
      ghost var b := TheBooks(store);
      assert paddr / PAGE_SIZE !in pmm.free by { BooksParts(b); HandNotFree(b, paddr / PAGE_SIZE); }
      r, own' := machine.MapUserPageIn(root, vaddr, paddr, writable, executable, own);
      if r.Mapped? {
        MappedBooks(b, machine.mem, pmm.free, root, own, own', Vpn(vaddr), paddr / PAGE_SIZE, writable, executable);
        owner := owner + InHandAll(b.free - pmm.free);
      }
    }

    /** Loads an ELF file into an empty address space under construction. The frames taken are
        those of the space and those lost on the way, of which there are none exactly if no page
        has two segments. */
    method LoadElf(file: seq<byte>, root: nat, ghost store: Tasks.Store)
        returns (r: Elf.LoadResult, ghost own: map<nat, Pos>, ghost lost: set<nat>)
      requires Working(store) && SpaceInHand(machine.mem, root, map[], owner, pmm.free)
      requires ElfFormat.Readable(file)
      requires ElfFormat.Acceptable(file) ==> ElfFormat.NoWrap(ElfFormat.Segments(file))
      modifies this`owner, machine`mem, pmm`freeFrames, pmm`free, pmm.bitmap
      ensures r.OutOfMemory? ==> pmm.free == {}
      ensures r.Rejected? <==> !ElfFormat.Acceptable(file)
      ensures r.Rejected? ==>
          Working(store) && machine.mem == old(machine.mem) && pmm.free == old(pmm.free) && owner == old(owner)
      ensures r.Loaded? ==>
                && Working(store) && SpaceInHand(machine.mem, root, own, owner, pmm.free)
                && pmm.free <= old(pmm.free) && own.Keys + lost == old(pmm.free) - pmm.free && own.Keys !! lost
                && (lost == {} <==> Elf.DisjointPages(ElfFormat.Segments(file)))
                && owner == old(owner) + InHandAll(old(pmm.free) - pmm.free)
                && Stable(old(owner), old(machine.mem), machine.mem)
                && r.info.entry == ElfFormat.ReadEhdr(file).entry
                && Elf.ElfImage(machine.mem, root, file, ElfFormat.Segments(file))
    {
      hide pmm.Valid, BooksOk, heap.Shape, Owns, InUse, KernelHalf, Elf.ElfImage, ElfFormat.HeaderOk,
          ElfFormat.Segments, ElfFormat.Acceptable,
           ElfFormat.Readable, ElfFormat.NoWrap, ElfFormat.ReadEhdr, Elf.DisjointPages, SameKernelHalf,
               ElfFormat.Bounds;
      ghost var b := TheBooks(store);
      r, own, lost := Elf.LoadInto(machine, file, root);
      if r.Loaded? {
        LoadedBooks(b, machine.mem, pmm.free, root, own, lost);
        owner := owner + InHandAll(b.free - pmm.free);
      }
    }

    /** `pmm_free_frame` on a frame in hand: its ASSERTs hold. */
    method GiveFrame(addr: nat, ghost store: Tasks.Store)
      requires Working(store) && addr % PAGE_SIZE == 0 && addr / PAGE_SIZE in HandFrames(owner) && addr != 0
      modifies this`owner, pmm`freeFrames, pmm`free, pmm.bitmap
      ensures Working(store) && pmm.free == old(pmm.free) + {addr / PAGE_SIZE}
        && owner == old(owner) - {addr / PAGE_SIZE}
    {
      hide pmm.Valid, BooksOk, heap.Shape;
      ghost var b := TheBooks(store);
      assert addr / PAGE_SIZE !in pmm.free && addr / PAGE_SIZE < |machine.mem| by {
        BooksParts(b);
        HandNotFree(b, addr / PAGE_SIZE);
      }
      var r := pmm.FreeFrame(addr);
      assert r.Done?;
      BooksGive(b, {addr / PAGE_SIZE});
      owner := owner - {addr / PAGE_SIZE};
    }

    /** `paging_free_user_pages` on an address space in hand: no ASSERT fails, every frame of the
        user half goes back. */
    method GiveSpace(root: nat, ghost own: map<nat, Pos>, ghost store: Tasks.Store)
      requires Working(store) && Owns(machine.mem, root, own) && own.Keys <= HandFrames(owner)
      modifies this`owner, pmm`freeFrames, pmm`free, pmm.bitmap
      ensures Working(store) && pmm.free == old(pmm.free) + own.Keys && owner == old(owner) - own.Keys
    {
      hide pmm.Valid, BooksOk, heap.Shape, Owns;
      ghost var b := TheBooks(store);
      assert own.Keys !! pmm.free by {
        BooksParts(b);
        forall f | f in own ensures f !in pmm.free { HandNotFree(b, f); }
      }
      OwnsRoot(machine.mem, root, own);
      var r := machine.FreeUserPages(root, own);
      BooksGive(b, own.Keys);
      owner := owner - own.Keys;
    }

    /** `kfree` of a task structure that counts no more. */
    method FreeStruct(ptr: nat, ghost store: Tasks.Store)
      requires Working(store) && IsPayload(heap.arenas, ptr) && ptr !in store
      modifies heap`cells, heap`arenas
      ensures Working(store) && SameExtents(old(heap.arenas), heap.arenas)
    {
      hide pmm.Valid, Heap.ArenasOk, Heap.HeapAt, BooksOk, Heap.Freed, Heap.Frames, SameExtents, Heap.IsLive;
      ghost var b, cells := TheBooks(store), heap.cells;
      assert heap.Valid() by { BooksParts(b); HeapNotFree(b); }
      ghost var k, i;
      var r;
      r, k, i := heap.KFree(ptr);
      assert r.Done?;
      FreedBooks(b, cells, heap.cells, heap.arenas, k, i, ptr);
    }
  }

  lemma HandNotFree(b: Books, f: nat)
    requires Accounted(b) && f in HandFrames(b.owner)
    ensures f !in b.free && f < |b.mem|
  {
    HandInMemory(b, f);
  }

  lemma MappedBooks(b: Books, mem: Memory, free: set<nat>, root: nat, own: map<nat, Pos>, own': map<nat, Pos>,
                    vpn: nat, frame: nat, w: bool, x: bool)
    requires BooksOk(b) && SpaceInHand(b.mem, root, own, b.owner, b.free) && frame in HandFrames(b.owner)
    requires UserPageMapped(b.mem, b.free, mem, free, root, own, own', vpn, frame, w, x)
    ensures var owner := b.owner + InHandAll(b.free - free);
      BooksOk(b.(mem := mem, free := free, owner := owner)) && SpaceInHand(mem, root, own', owner, free)
    ensures Stable(b.owner, b.mem, mem)
  {
    hide BooksOk, Owns, InUse, KernelHalf, Leaf, SameKernelHalf, UserFlags;
    BooksParts(b);
    InHandBooks(b, mem, free, root, own'.Keys);
    HalfKept(b.mem, mem, root, b.owner, b.owner + InHandAll(b.free - free));
  }

  /** Writes into frames in hand, and frames that were free, only. */
  lemma InHandBooks(b: Books, mem: Memory, free: set<nat>, root: nat, written: set<nat>)
    requires BooksOk(b) && |mem| == |b.mem| && free <= b.free
    requires root in HandFrames(b.owner) && written <= HandFrames(b.owner) + b.free
    requires forall f: nat | f < |b.mem| && f !in written && f != root :: SameFrame(b.mem, mem, f)
    ensures BooksOk(b.(mem := mem, free := free, owner := b.owner + InHandAll(b.free - free)))
    ensures forall f | f in b.owner && b.owner[f] == Reserved :: (b.owner + InHandAll(b.free - free))[f] == Reserved
    ensures Stable(b.owner, b.mem, mem)
  {
    hide BooksOk;
    BooksParts(b);
    forall f | f in b.owner && b.owner[f] != InHand ensures SameFrame(b.mem, mem, f) {
      assert f in b.owner.Keys + b.free;
    }
    BooksTake(b, mem, free);
  }

  lemma LoadedBooks(b: Books, mem: Memory, free: set<nat>, root: nat, own: map<nat, Pos>, lost: set<nat>)
    requires BooksOk(b) && SpaceInHand(b.mem, root, map[], b.owner, b.free)
    requires Owns(mem, root, own) && InUse(mem, root, own, free) && |mem| == |b.mem|
    requires free <= b.free && own.Keys + lost == b.free - free
    requires forall f: nat | f < |mem| && f !in own && f !in lost && f != root :: SameFrame(b.mem, mem, f)
    requires SameKernelHalf(b.mem, mem, root)
    ensures var owner := b.owner + InHandAll(b.free - free);
      BooksOk(b.(mem := mem, free := free, owner := owner)) && SpaceInHand(mem, root, own, owner, free)
    ensures Stable(b.owner, b.mem, mem)
  {
    hide BooksOk, Owns, InUse, KernelHalf, SameKernelHalf;
    BooksParts(b);
    InHandBooks(b, mem, free, root, own.Keys + lost);
    HalfKept(b.mem, mem, root, b.owner, b.owner + InHandAll(b.free - free));
  }

  lemma FreedBooks(b: Books, cells: HeapCells.Cells, cells': HeapCells.Cells, arenas: seq<Heap.Arena>, k: nat,
                   i: nat, ptr: nat)
    requires BooksOk(b) && Heap.Freed(cells, b.arenas, cells', arenas, k, i) && Heap.LiveAt(b.arenas, k, i, ptr)
      && ptr !in b.store
    ensures BooksOk(b.(arenas := arenas)) && SameExtents(b.arenas, arenas)
  {
    hide BooksOk, Heap.Freed, IsPayload, SameExtents, Heap.LiveAt;
    BooksParts(b);
    FreedPayloads(cells, b.arenas, cells', arenas, k, i, ptr, 0);
    forall t | t in b.store ensures IsPayload(arenas, t) {
      FreedPayloads(cells, b.arenas, cells', arenas, k, i, ptr, t);
    }
    BooksBlocks(b, arenas);
  }

  /** An address space that the operation in progress builds up: its frames are all in hand. */
  ghost predicate SpaceInHand(mem: Memory, root: nat, own: map<nat, Pos>, owner: Owners, free: set<nat>) {
    && Owns(mem, root, own) && InUse(mem, root, own, free) && KernelHalf(mem, root, owner)
    && root in HandFrames(owner) && own.Keys <= HandFrames(owner)
  }

  lemma SpaceIsInHand(mem: Memory, root: nat, own: map<nat, Pos>, owner: Owners, free: set<nat>)
    requires Owns(mem, root, own) && InUse(mem, root, own, free) && KernelHalf(mem, root, owner)
    requires root in HandFrames(owner) && own.Keys <= HandFrames(owner)
    ensures SpaceInHand(mem, root, own, owner, free)
  {
  }

  /** Another frame was taken. */
  lemma SpaceInHandTake(mem: Memory, root: nat, own: map<nat, Pos>, owner: Owners, free: set<nat>, f: nat)
    requires SpaceInHand(mem, root, own, owner, free) && f !in owner
    ensures SpaceInHand(mem, root, own, owner[f := InHand], free - {f})
  {
    hide Owns, KernelHalf, Node, Lower;
    HalfMore(mem, root, owner, f);
  }

  /** A write to a frame in hand that is no table of the space leaves the space as it is. */
  lemma SpaceInHandWrite(mem: Memory, mem': Memory, root: nat, own: map<nat, Pos>, owner: Owners, free: set<nat>,
                         f: nat)
    requires SpaceInHand(mem, root, own, owner, free) && f in HandFrames(owner) && f != root
    requires f in own ==> own[f].depth == 4 && IsPage(mem', f)
    requires |mem'| == |mem| && forall g: nat | g < |mem| && g != f :: mem'[g] == mem[g]
    ensures SpaceInHand(mem', root, own, owner, free)
    ensures forall q :: Leaf(mem', root, q) == Leaf(mem, root, q)
    ensures forall d, p | d <= 4 :: Node(mem', root, d, p) == Node(mem, root, d, p)
  {
    hide Owns, KernelHalf, InUse, Node, Lower, Leaf, Slot;
    forall d: nat, p: nat, g: nat | d <= 3 && Node(mem, root, d, p) == Some(g) && g < |mem| ensures mem'[g] == mem[g] {
      TablesOfSpace(mem, root, own, owner, free, d, p, g);
    }
    OwnsRoot(mem, root, own);
    forall g | g in own ensures if own[g].depth == 4 then IsPage(mem', g) else SameFrame(mem, mem', g) {
      OwnedFrame(mem, root, own, g);
    }
    SpaceKept(mem, mem', root, own);
    SameHalf(mem, mem', root, own, owner, free);
  }

  lemma SameHalf(mem: Memory, mem': Memory, root: nat, own: map<nat, Pos>, owner: Owners, free: set<nat>)
    requires KernelHalf(mem, root, owner) && InUse(mem, root, own, free)
    requires forall d, p | d <= 4 :: Node(mem', root, d, p) == Node(mem, root, d, p)
    ensures KernelHalf(mem', root, owner) && InUse(mem', root, own, free)
  {
    hide Node, Lower;
  }

  /** The tables of a space in hand: the PML4, tables of the user half, and reserved frames. */
  lemma TablesOfSpace(mem: Memory, root: nat, own: map<nat, Pos>, owner: Owners, free: set<nat>, d: nat, p: nat, g: nat)
    requires SpaceInHand(mem, root, own, owner, free) && d <= 3 && Node(mem, root, d, p) == Some(g)
    ensures g == root || (g in own && own[g].depth <= 3) || IsReserved(owner, g)
  {
    hide Node, Lower, OwnedAt, UserTables, KernelApart;
    if d == 0 {
      NodeZero(mem, root, p);
      NodeRoot(mem, root);
    } else if Lower(d, p) {
      OwnedPos(mem, root, own, d, p, g);
    }
  }

  lemma SomeBytes()
    ensures exists s: seq<byte> :: |s| == PAGE_SIZE
  {
    var s: seq<byte> := ZeroPage().bytes;
    assert |s| == PAGE_SIZE;
  }

  lemma ClonedFrom(mem: Memory, mem': Memory, kernel: nat, root: nat)
    requires root < |mem| && kernel != root && IsTable(mem, kernel)
      && Cloned(mem[root := ZeroTable()], mem', kernel, root)
    ensures Cloned(mem, mem', kernel, root)
  {
  }

  lemma HalfMore(mem: Memory, root: nat, owner: Owners, f: nat)
    requires KernelHalf(mem, root, owner) && f !in owner
    ensures KernelHalf(mem, root, owner[f := InHand])
  {
    hide Node, Lower;
  }

  lemma HandInMemory(b: Books, f: nat)
    requires Accounted(b) && f in HandFrames(b.owner)
    ensures f < |b.mem|
  {
    assert f in b.owner.Keys + b.free;
  }

  /** Taking one frame and writing at most into it. */
  lemma TakeOne(b: Books, f: nat, mem: Memory)
    requires BooksOk(b) && f in b.free && 0 !in b.free && |mem| == |b.mem|
    requires forall g: nat | g < |mem| && g != f :: mem[g] == b.mem[g]
    ensures BooksOk(b.(mem := mem, free := b.free - {f}, owner := b.owner[f := InHand]))
    ensures f !in b.owner && f < |mem| && f != 0
  {
    hide BooksOk;
    BooksParts(b);
    FrameZero(b);
    assert b.free - (b.free - {f}) == {f};
    assert b.owner + InHandAll({f}) == b.owner[f := InHand];
    forall g | g in b.owner ensures SameFrame(b.mem, mem, g) { assert g in b.owner.Keys + b.free; }
    BooksTake(b, mem, b.free - {f});
  }

  /** Writing into a frame in hand. */
  lemma WriteHand(b: Books, mem: Memory, f: nat)
    requires BooksOk(b) && f in HandFrames(b.owner) && |mem| == |b.mem|
    requires forall g: nat | g < |mem| && g != f :: mem[g] == b.mem[g]
    ensures BooksOk(b.(mem := mem))
  {
    hide BooksOk;
    BooksParts(b);
    assert b.owner + InHandAll(b.free - b.free) == b.owner;
    forall g | g in b.owner && b.owner[g] != InHand ensures SameFrame(b.mem, mem, g) {
      assert g in b.owner.Keys + b.free;
    }
    BooksTake(b, mem, b.free);
  }

  ghost predicate PayloadsKept(arenas: seq<Heap.Arena>, arenas': seq<Heap.Arena>) {
    forall a | IsPayload(arenas, a) :: IsPayload(arenas', a)
  }

  lemma CarvedBooks(b: Books, cells: HeapCells.Cells, cells': HeapCells.Cells, arenas: seq<Heap.Arena>, k: nat, i: nat)
    requires BooksOk(b) && Heap.ArenasOk(b.arenas) && Heap.Allocated(cells, b.arenas, cells', arenas, 160, k, i)
    ensures BooksOk(b.(arenas := arenas))
    ensures k < |b.arenas| && i < |b.arenas[k].blocks|
    ensures var ptr := b.arenas[k].blocks[i].Payload();
        IsPayload(arenas, ptr) && ptr !in b.store && ptr != 0 && !IsPayload(b.arenas, ptr)
    ensures PayloadsKept(b.arenas, arenas)
  {
    hide BooksOk, Heap.ArenasOk, Heap.OthersKept, Heap.Filled, Heap.NoFit, Heap.NoFitIn, HeapLayout.Carve, IsPayload;
    BooksParts(b);
    AllocatedPayloads(cells, b.arenas, cells', arenas, 160, k, i, 0);
    forall a: nat | IsPayload(b.arenas, a) ensures IsPayload(arenas, a) {
      AllocatedPayloads(cells, b.arenas, cells', arenas, 160, k, i, a);
    }
    BooksBlocks(b, arenas);
  }

  lemma GrewBooks(b: Books, cells: HeapCells.Cells, cells': HeapCells.Cells, arenas: seq<Heap.Arena>, free: set<nat>)
    requires BooksOk(b) && Heap.ArenasOk(arenas)
      && Heap.AllocatedInNew(cells, b.arenas, cells', arenas, 160, b.free, free)
    ensures free <= b.free
    ensures BooksOk(b.(arenas := arenas, free := free, owner := b.owner + HeapAll(b.free - free)))
    ensures |arenas| > |b.arenas| && var ptr := arenas[|b.arenas|].base + HeapLayout.HEADER + HeapLayout.HEADER;
      IsPayload(arenas, ptr) && ptr !in b.store && ptr != 0 && !IsPayload(b.arenas, ptr)
    ensures PayloadsKept(b.arenas, arenas)
  {
    hide BooksOk, Heap.ArenasOk, Heap.OthersKept, Heap.Filled, HeapLayout.Carve, IsPayload, Heap.AllocatedInNew,
        Heap.Frames;
    BooksParts(b);
    AllocatedInNewPayloads(cells, b.arenas, cells', arenas, 160, b.free, free, 0);
    forall a: nat | IsPayload(b.arenas, a) ensures IsPayload(arenas, a) {
      AllocatedInNewPayloads(cells, b.arenas, cells', arenas, 160, b.free, free, a);
    }
    BooksArena(b, arenas, free);
  }
}
