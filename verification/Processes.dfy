/** The whole life of a process: creation, waiting and reaping over all of the kernel's state
    (src/task.c). */
module Processes {
  import opened Accounts
  import opened Base
  import opened Kernel
  import opened Ownership
  import opened PageTables
  import opened Paging
  import ContextSwitch
  import Elf
  import ElfFormat
  import Heap
  import Lifecycle
  import Pmm
  import Tasks

  // ---------------------------------------------------------------- frames in transit

  /** During an operation: all frames that left the free set are in hand, became heap, or are
      `lost`. */
  ghost predicate Underway(owner0: Owners, free0: set<nat>, owner: Owners, free: set<nat>, lost: set<nat>) {
    && free <= free0 && owner.Keys == owner0.Keys + (free0 - free) && owner.Keys !! free
    && (forall f | f in owner0 :: owner[f] == owner0[f] != InHand)
    && (forall f | f in free0 - free && f !in lost :: owner[f] == HeapArena || owner[f] == InHand)
    && lost <= free0 - free && (forall f | f in lost :: owner[f] == Lost)
  }

  /** After the creation of task `t`: the frames that left the free set belong to `t`, or to a
      new heap arena, or are `lost`; every other frame has the owner it had. */
  ghost predicate Gained(owner0: Owners, free0: set<nat>, owner: Owners, free: set<nat>, t: nat, lost: set<nat>) {
    && free <= free0 && owner.Keys == owner0.Keys + (free0 - free)
    && (forall f | f in owner0 :: owner[f] == owner0[f])
    && (forall f | f in free0 - free && f !in lost :: owner[f] == HeapArena || OfTask(owner[f], t))
    && lost <= free0 - free && (forall f | f in lost :: owner[f] == Lost)
    && TaskFrames(owner0, t) == {}
  }

  lemma UnderwayStart(b: Books)
    requires BooksOk(b) && HandFrames(b.owner) == {}
    ensures Underway(b.owner, b.free, b.owner, b.free, {})
  {
    hide BooksOk;
    BooksParts(b);
    forall f | f in b.owner ensures b.owner[f] != InHand { assert f !in HandFrames(b.owner); }
  }

  lemma UnderwayHeap(owner0: Owners, free0: set<nat>, owner: Owners, free: set<nat>, free': set<nat>)
    requires Underway(owner0, free0, owner, free, {}) && free' <= free
    ensures Underway(owner0, free0, owner + HeapAll(free - free'), free', {})
    ensures HandFrames(owner + HeapAll(free - free')) == HandFrames(owner)
  {
  }

  lemma UnderwayTake(owner0: Owners, free0: set<nat>, owner: Owners, free: set<nat>, free': set<nat>)
    requires Underway(owner0, free0, owner, free, {}) && free' <= free
    ensures Underway(owner0, free0, owner + InHandAll(free - free'), free', {})
    ensures HandFrames(owner + InHandAll(free - free')) == HandFrames(owner) + (free - free')
  {
  }

  lemma UnderwayOne(owner0: Owners, free0: set<nat>, owner: Owners, free: set<nat>, f: nat)
    requires Underway(owner0, free0, owner, free, {}) && f in free
    ensures Underway(owner0, free0, owner[f := InHand], free - {f}, {})
    ensures HandFrames(owner[f := InHand]) == HandFrames(owner) + {f} && f !in HandFrames(owner)
  {
    assert free - (free - {f}) == {f};
    assert owner + InHandAll({f}) == owner[f := InHand];
    UnderwayTake(owner0, free0, owner, free, free - {f});
  }

  lemma UnderwayLose(owner0: Owners, free0: set<nat>, owner: Owners, free: set<nat>, lost: set<nat>)
    requires Underway(owner0, free0, owner, free, {}) && lost <= HandFrames(owner)
    ensures Underway(owner0, free0, owner + LostAll(lost), free, lost)
  {
    assert owner.Keys == (owner + LostAll(lost)).Keys;
  }

  lemma UnderwayLabelled(owner0: Owners, free0: set<nat>, owner: Owners, free: set<nat>, t: nat, c: Tasks.Struct,
                         own: map<nat, Pos>, lost: set<nat>)
    requires Underway(owner0, free0, owner, free, lost) && TaskFrames(owner0, t) == {}
    requires c.stack / PAGE_SIZE in HandFrames(owner) && own.Keys <= HandFrames(owner) && c.stack / PAGE_SIZE !in own
    requires c.ownSpace ==>
        c.cr3 / PAGE_SIZE in HandFrames(owner) && c.cr3 / PAGE_SIZE !in own && c.cr3 / PAGE_SIZE != c.stack / PAGE_SIZE
    requires HandFrames(owner) == own.Keys + {c.stack / PAGE_SIZE} + (if c.ownSpace then {c.cr3 / PAGE_SIZE} else {})
    ensures Gained(owner0, free0, Labelled(owner, t, c, own), free, t, lost)
  {
    hide Labelled;
    LabelledAt(owner, t, c, own);
  }

  lemma NewOwnsNothing(b: Books, t: nat)
    requires BooksOk(b) && t !in b.store
    ensures TaskFrames(b.owner, t) == {}
  {
    hide BooksOk;
    BooksParts(b);
    NoFrames(b, t);
  }

  // ---------------------------------------------------------------- user spaces

  /** A page with the program's code, readable and executable. */
  ghost predicate CodePage(mem: Memory, root: nat, q: nat, code: seq<byte>) {
    var e := Leaf(mem, root, q);
    && e.flags == UserFlags(false, true) && IsPage(mem, e.frame)
    && |code| <= PAGE_SIZE && mem[e.frame].bytes[..|code|] == code
  }

  /** A zeroed page, readable and writable. */
  ghost predicate StackPage(mem: Memory, root: nat, q: nat) {
    var e := Leaf(mem, root, q);
    e.flags == UserFlags(true, false) && IsPage(mem, e.frame) && mem[e.frame] == ZeroPage()
  }

  /** The user half that `task_create_user` makes: one code page, one stack page, nothing else. */
  ghost predicate UserImage(mem: Memory, root: nat, code: seq<byte>) {
    && CodePage(mem, root, USER_CODE_VADDR / PAGE_SIZE, code)
    && StackPage(mem, root, USER_STACK_VADDR / PAGE_SIZE)
    && forall q | Lower(4, q) && q != USER_CODE_VADDR / PAGE_SIZE && q != USER_STACK_VADDR / PAGE_SIZE ::
          !Leaf(mem, root, q).flags.present
  }

  lemma UserAddresses()
    ensures Vpn(USER_CODE_VADDR) == USER_CODE_VADDR / PAGE_SIZE && Lower(4, USER_CODE_VADDR / PAGE_SIZE)
    ensures Vpn(USER_STACK_VADDR) == USER_STACK_VADDR / PAGE_SIZE && Lower(4, USER_STACK_VADDR / PAGE_SIZE)
  {
    Elf.UserAddress(USER_CODE_VADDR);
    Elf.UserAddress(USER_STACK_VADDR);
  }

  lemma NothingKept(q: nat)
    ensures Kept(map[], q) == map[]
  {
  }

  lemma NotMappedAt(mem: Memory, root: nat, own: map<nat, Pos>, owner: Owners, free: set<nat>, q: nat)
    requires SpaceInHand(mem, root, own, owner, free) && Lower(4, q)
    ensures Leaf(mem, root, q).flags.present <==> At(own, Pos(4, q)) != {}
    ensures !Leaf(mem, root, q).flags.present ==> Kept(own, q) == own
  {
    hide Lower, Node, Slot, Owns, At;
    NodeUnfold(mem, root, 3, q);
    AtIsNode(mem, root, own, q);
  }

  /** The answers of the page walk differ for page `q` only. */
  ghost predicate LeafSet(mem0: Memory, mem: Memory, root: nat, q: nat, e: Pte) {
    forall r :: Leaf(mem, root, r) == if r == q then e else Leaf(mem0, root, r)
  }

  ghost predicate PagesKept(mem0: Memory, mem: Memory, free0: set<nat>) {
    forall f | IsPage(mem0, f) && f !in free0 :: SameFrame(mem0, mem, f)
  }

  lemma PageKeptAt(mem0: Memory, mem: Memory, free0: set<nat>, f: nat)
    requires PagesKept(mem0, mem, free0) && IsPage(mem0, f) && f !in free0
    ensures IsPage(mem, f) && mem[f] == mem0[f]
  {
    assert SameFrame(mem0, mem, f);
  }

  /** What is known of a space after a page was mapped in it. */
  lemma AfterMapping(mem0: Memory, free0: set<nat>, mem: Memory, free: set<nat>, root: nat, own: map<nat, Pos>,
                     own': map<nat, Pos>,
                     q: nat, frame: nat, w: bool, x: bool)
    requires UserPageMapped(mem0, free0, mem, free, root, own, own', q, frame, w, x)
    ensures |mem| == |mem0| && free <= free0 && Extends(Kept(own, q), own', map[frame := Pos(4, q)], free0 - free)
    ensures LeafSet(mem0, mem, root, q, Pte(frame, UserFlags(w, x))) && PagesKept(mem0, mem, free0)
  {
    hide Leaf, Owns, InUse, SameKernelHalf, IsPage, SameFrame, UserFlags;
  }

  /** The user half shows what it showed, and the frames of `keep` hold what they held. */
  ghost predicate SameLeaves(mem0: Memory, mem: Memory, root: nat) {
    |mem| == |mem0| && forall q :: Leaf(mem, root, q) == Leaf(mem0, root, q)
  }

  /** `pmm_alloc_frame` for a page of an address space under construction. */
  method TakePage(res: Resources, root: nat, ghost own: map<nat, Pos>, ghost store: Tasks.Store)
      returns (r: Outcome<nat>)
    requires res.Working(store) && SpaceInHand(res.machine.mem, root, own, res.owner, res.pmm.free)
    modifies res`owner, res.machine`mem, res.pmm`freeFrames, res.pmm`free, res.pmm.bitmap
    ensures r.Halted? ==> res.pmm.free == {}
    ensures r.Done? ==> r.value % PAGE_SIZE == 0 && r.value != 0 && var f := r.value / PAGE_SIZE;
              && res.Working(store) && SpaceInHand(res.machine.mem, root, own, res.owner, res.pmm.free)
              && f in old(res.pmm.free) && f !in old(res.owner) && f != root && f !in own && IsPage(res.machine.mem, f)
              && res.pmm.free == old(res.pmm.free) - {f} && res.owner == old(res.owner)[f := InHand]
              && SameLeaves(old(res.machine.mem), res.machine.mem, root)
              && Stable(old(res.owner), old(res.machine.mem), res.machine.mem)
              && (forall g: nat | g < |res.machine.mem| && g != f :: res.machine.mem[g] == old(res.machine.mem)[g])
  {
    hide res.pmm.Valid, res.heap.Shape, BooksOk, SpaceInHand, Leaf, Node;
    ghost var mem0, owner0, free0 := res.machine.mem, res.owner, res.pmm.free;
    RootInHand(mem0, root, own, owner0, free0);
    ghost var b0 := res.TheBooks(store);
    r := res.TakeFrame(store);
    if r.Halted? { return; }
    SpaceInHandTake(mem0, root, own, owner0, free0, r.value / PAGE_SIZE);
    res.UseAsPage(r.value / PAGE_SIZE, store);
    SpaceInHandWrite(mem0, res.machine.mem, root, own, res.owner, res.pmm.free, r.value / PAGE_SIZE);
    StableWrite(b0, res.machine.mem, r.value / PAGE_SIZE);
  }

  /** The two mappings of `task_create_user`. */
  ghost predicate TwoPages(mem: Memory, root: nat, own: map<nat, Pos>, codeFrame: nat, stackFrame: nat) {
    && codeFrame != stackFrame && codeFrame != root && stackFrame != root
    && codeFrame in own && own[codeFrame].depth == 4 && stackFrame in own && own[stackFrame].depth == 4
    && IsPage(mem, codeFrame) && IsPage(mem, stackFrame)
    && Leaf(mem, root, USER_CODE_VADDR / PAGE_SIZE) == Pte(codeFrame, UserFlags(false, true))
    && Leaf(mem, root, USER_STACK_VADDR / PAGE_SIZE) == Pte(stackFrame, UserFlags(true, false))
    && forall q | Lower(4, q) && q != USER_CODE_VADDR / PAGE_SIZE && q != USER_STACK_VADDR / PAGE_SIZE ::
          !Leaf(mem, root, q).flags.present
  }

  method MapTwoPages(res: Resources, root: nat, codeAddr: nat, stackAddr: nat, ghost store: Tasks.Store)
      returns (r: Outcome<()>, ghost own: map<nat, Pos>)
    requires res.Working(store) && SpaceInHand(res.machine.mem, root, map[], res.owner, res.pmm.free)
    requires forall q | Lower(4, q) :: !Leaf(res.machine.mem, root, q).flags.present
    requires codeAddr != 0 && stackAddr != 0 && codeAddr / PAGE_SIZE != stackAddr / PAGE_SIZE
    requires codeAddr / PAGE_SIZE != 0 && stackAddr / PAGE_SIZE != 0
    requires codeAddr / PAGE_SIZE in HandFrames(res.owner) && stackAddr / PAGE_SIZE in HandFrames(res.owner)
    requires codeAddr / PAGE_SIZE != root && stackAddr / PAGE_SIZE != root
    requires IsPage(res.machine.mem, codeAddr / PAGE_SIZE) && IsPage(res.machine.mem, stackAddr / PAGE_SIZE)
    modifies res`owner, res.machine`mem, res.pmm`freeFrames, res.pmm`free, res.pmm.bitmap
    ensures r.Halted? ==> res.pmm.free == {}
    ensures r.Done? ==>
              && res.Working(store) && SpaceInHand(res.machine.mem, root, own, res.owner, res.pmm.free)
              && res.pmm.free <= old(res.pmm.free)
              && own.Keys == (old(res.pmm.free) - res.pmm.free) + {codeAddr / PAGE_SIZE, stackAddr / PAGE_SIZE}
              && res.owner == old(res.owner) + InHandAll(old(res.pmm.free) - res.pmm.free)
              && TwoPages(res.machine.mem, root, own, codeAddr / PAGE_SIZE, stackAddr / PAGE_SIZE)
              && Stable(old(res.owner), old(res.machine.mem), res.machine.mem)
  {
    hide res.pmm.Valid, res.heap.Shape, BooksOk, SpaceInHand, Leaf, Node, Lower, UserPageMapped, Vpn, UserFlags,
        IsPage, PagesKept,
         LeafSet, Extends, InHandAll, HandFrames, TwoPages, Stable, Kept, At;
    UserAddresses();
    ghost var mem3, free3, owner3, b := res.machine.mem, res.pmm.free, res.owner, res.TheBooks(store);
    assert codeAddr / PAGE_SIZE !in free3 && stackAddr / PAGE_SIZE !in free3 by {
      BooksParts(b);
      HandNotFree(b, codeAddr / PAGE_SIZE);
      HandNotFree(b, stackAddr / PAGE_SIZE);
    }
    NothingKept(USER_CODE_VADDR / PAGE_SIZE);
    var ret;
    ghost var own1;
    ret, own1 := res.MapPage(root, USER_CODE_VADDR, codeAddr, false, true, map[], store);
    if ret.Panicked? { return Halted, own1; }
    ghost var mem4, free4, owner4 := res.machine.mem, res.pmm.free, res.owner;
    AfterMapping(mem3, free3, mem4, free4, root, map[], own1, USER_CODE_VADDR / PAGE_SIZE, codeAddr / PAGE_SIZE,
        false, true);
    PageKeptAt(mem3, mem4, free3, codeAddr / PAGE_SIZE);
    PageKeptAt(mem3, mem4, free3, stackAddr / PAGE_SIZE);
    HandKept(owner3, free3 - free4, stackAddr / PAGE_SIZE);
    FirstMapped(mem3, mem4, root, own1, codeAddr / PAGE_SIZE, stackAddr / PAGE_SIZE, free3, free4);
    NotMappedAt(mem4, root, own1, res.owner, res.pmm.free, USER_STACK_VADDR / PAGE_SIZE);
    ret, own := res.MapPage(root, USER_STACK_VADDR, stackAddr, true, false, own1, store);
    if ret.Panicked? { return Halted, own; }
    AfterMapping(mem4, free4, res.machine.mem, res.pmm.free, root, own1, own, USER_STACK_VADDR / PAGE_SIZE,
        stackAddr / PAGE_SIZE, true, false);
    PageKeptAt(mem4, res.machine.mem, free4, codeAddr / PAGE_SIZE);
    PageKeptAt(mem4, res.machine.mem, free4, stackAddr / PAGE_SIZE);
    TakenTwice(owner3, free3, free4, res.pmm.free);
    StableTaken(b, mem4, free4, res.machine.mem);
    BothMapped(mem3, mem4, res.machine.mem, root, own1, own, codeAddr / PAGE_SIZE, stackAddr / PAGE_SIZE, free3,
        free4, res.pmm.free);
    r := Done(());
  }

  /** Frames came into hand between two changes of memory. */
  lemma StableTaken(b: Books, mem1: Memory, free1: set<nat>, mem2: Memory)
    requires BooksOk(b) && Stable(b.owner, b.mem, mem1) && Stable(b.owner + InHandAll(b.free - free1), mem1, mem2)
    ensures Stable(b.owner, b.mem, mem2)
  {
    hide BooksOk, Stable;
    BooksParts(b);
    StableChain(b.owner, b.mem, b.owner + InHandAll(b.free - free1), mem1, mem2);
  }

  lemma HandKept(owner: Owners, more: set<nat>, f: nat)
    requires f in HandFrames(owner)
    ensures f in HandFrames(owner + InHandAll(more))
  {
  }

  lemma FirstMapped(mem3: Memory, mem4: Memory, root: nat, own1: map<nat, Pos>, codeFrame: nat, stackFrame: nat,
                    free3: set<nat>, free4: set<nat>)
    requires codeFrame != stackFrame && stackFrame !in free3 && free4 <= free3
    requires forall q | Lower(4, q) :: !Leaf(mem3, root, q).flags.present
    requires Extends(map[], own1, map[codeFrame := Pos(4, USER_CODE_VADDR / PAGE_SIZE)], free3 - free4)
    requires LeafSet(mem3, mem4, root, USER_CODE_VADDR / PAGE_SIZE, Pte(codeFrame, UserFlags(false, true)))
    requires Lower(4, USER_STACK_VADDR / PAGE_SIZE)
    ensures stackFrame !in own1 && !Leaf(mem4, root, USER_STACK_VADDR / PAGE_SIZE).flags.present
  {
    hide Lower, Leaf;
  }

  lemma BothMapped(mem3: Memory, mem4: Memory, mem5: Memory, root: nat, own1: map<nat, Pos>, own: map<nat, Pos>,
                   codeFrame: nat, stackFrame: nat,
                   free3: set<nat>, free4: set<nat>, free5: set<nat>)
    requires codeFrame != stackFrame && codeFrame != root && stackFrame != root
    requires free5 <= free4 <= free3 && IsPage(mem5, codeFrame) && IsPage(mem5, stackFrame)
    requires forall q | Lower(4, q) :: !Leaf(mem3, root, q).flags.present
    requires Extends(map[], own1, map[codeFrame := Pos(4, USER_CODE_VADDR / PAGE_SIZE)], free3 - free4)
    requires LeafSet(mem3, mem4, root, USER_CODE_VADDR / PAGE_SIZE, Pte(codeFrame, UserFlags(false, true)))
    requires Extends(own1, own, map[stackFrame := Pos(4, USER_STACK_VADDR / PAGE_SIZE)], free4 - free5)
    requires LeafSet(mem4, mem5, root, USER_STACK_VADDR / PAGE_SIZE, Pte(stackFrame, UserFlags(true, false)))
    ensures TwoPages(mem5, root, own, codeFrame, stackFrame)
    ensures own.Keys == (free3 - free5) + {codeFrame, stackFrame}
  {
    hide Lower, Leaf, IsPage;
  }

  lemma TakenTwice(owner: Owners, free: set<nat>, free1: set<nat>, free2: set<nat>)
    requires free2 <= free1 <= free
    ensures owner + InHandAll(free - free1) + InHandAll(free1 - free2) == owner + InHandAll(free - free2)
  {
  }

  /** The code is copied into its page and the stack page is zeroed. */
  method FillTwoPages(res: Resources, root: nat, code: seq<byte>, codeFrame: nat, stackFrame: nat,
                      ghost own: map<nat, Pos>, ghost store: Tasks.Store)
    requires res.Working(store) && SpaceInHand(res.machine.mem, root, own, res.owner, res.pmm.free)
    requires TwoPages(res.machine.mem, root, own, codeFrame, stackFrame) && |code| <= PAGE_SIZE
    modifies res.machine`mem
    ensures res.Working(store) && SpaceInHand(res.machine.mem, root, own, res.owner, res.pmm.free)
    ensures UserImage(res.machine.mem, root, code) && Stable(res.owner, old(res.machine.mem), res.machine.mem)
  {
    hide res.pmm.Valid, res.heap.Shape, BooksOk, SpaceInHand, Leaf, Node, Lower, UserFlags, Stable;
    ghost var mem5, b := res.machine.mem, res.TheBooks(store);
    RootInHand(mem5, root, own, res.owner, res.pmm.free);
    Elf.CopyIn(res.machine, codeFrame, 0, code, 0, |code|);
    ghost var mem6 := res.machine.mem;
    SpaceInHandWrite(mem5, mem6, root, own, res.owner, res.pmm.free, codeFrame);
    WriteHand(b, mem6, codeFrame);
    res.machine.mem := res.machine.mem[stackFrame := ZeroPage()];
    SpaceInHandWrite(mem6, res.machine.mem, root, own, res.owner, res.pmm.free, stackFrame);
    WriteHand(b.(mem := mem6), res.machine.mem, stackFrame);
    StableWrite(b, mem6, codeFrame);
    StableWrite(b.(mem := mem6), res.machine.mem, stackFrame);
    StableChain(res.owner, mem5, res.owner, mem6, res.machine.mem);
    assert res.machine.mem[codeFrame].bytes[..|code|] == code;
  }

  /** The pages of `task_create_user`: allocated, mapped, and filled. */
  method BuildUserSpace(res: Resources, root: nat, code: seq<byte>, ghost store: Tasks.Store)
      returns (r: Outcome<()>, ghost own: map<nat, Pos>)
    requires res.Working(store) && SpaceInHand(res.machine.mem, root, map[], res.owner, res.pmm.free)
    requires forall q | Lower(4, q) :: Leaf(res.machine.mem, root, q) == EMPTY
    requires 0 < |code| <= PAGE_SIZE
    modifies res`owner, res.machine`mem, res.pmm`freeFrames, res.pmm`free, res.pmm.bitmap
    ensures r.Halted? ==> res.pmm.free == {}
    ensures r.Done? ==>
              && res.Working(store) && SpaceInHand(res.machine.mem, root, own, res.owner, res.pmm.free)
              && res.pmm.free <= old(res.pmm.free) && own.Keys == old(res.pmm.free) - res.pmm.free
              && res.owner == old(res.owner) + InHandAll(old(res.pmm.free) - res.pmm.free)
              && UserImage(res.machine.mem, root, code) && Stable(old(res.owner), old(res.machine.mem), res.machine.mem)
  {
    hide res.pmm.Valid, res.heap.Shape, BooksOk, SpaceInHand, Leaf, Node, Lower, TwoPages, UserImage, InHandAll,
        HandFrames, Stable;
    own := map[];
    ghost var mem0, owner0, free0, b0 := res.machine.mem, res.owner, res.pmm.free, res.TheBooks(store);
    var c := TakePage(res, root, own, store);
    if c.Halted? { return Halted, own; }
    ghost var mem1, freeC := res.machine.mem, res.pmm.free;
    OneTaken(owner0, free0, c.value / PAGE_SIZE);
    var s := TakePage(res, root, own, store);
    if s.Halted? { return Halted, own; }
    ghost var owner1, free1, mem2 := res.owner, res.pmm.free, res.machine.mem;
    StableTaken(b0, mem1, freeC, mem2);
    BothTaken(owner0, free0, c.value / PAGE_SIZE, s.value / PAGE_SIZE);
    LeavesTwice(mem0, mem1, res.machine.mem, root);
    r, own := MapTwoPages(res, root, c.value, s.value, store);
    if r.Halted? { return; }
    StableTaken(b0, mem2, free1, res.machine.mem);
    ghost var mem3 := res.machine.mem;
    FillTwoPages(res, root, code, c.value / PAGE_SIZE, s.value / PAGE_SIZE, own, store);
    TakenTwice(owner0, free0, free1, res.pmm.free);
    StableTaken(b0, mem3, res.pmm.free, res.machine.mem);
    assert own.Keys == free0 - res.pmm.free;
  }

  lemma BothTaken(owner: Owners, free: set<nat>, f: nat, g: nat)
    requires f in free && g in free && f != g
    ensures var owner' := owner[f := InHand][g := InHand];
      f in HandFrames(owner') && g in HandFrames(owner') && owner' == owner + InHandAll(free - (free - {f} - {g}))
  {
    assert free - (free - {f} - {g}) == {f, g};
  }

  lemma LeavesTwice(mem0: Memory, mem1: Memory, mem2: Memory, root: nat)
    requires SameLeaves(mem0, mem1, root) && SameLeaves(mem1, mem2, root)
    requires forall q | Lower(4, q) :: Leaf(mem0, root, q) == EMPTY
    ensures forall q | Lower(4, q) :: !Leaf(mem2, root, q).flags.present
  {
    hide Leaf, Lower;
  }

  // ---------------------------------------------------------------- ELF processes

  const ELF_STACK_FIRST: nat := ELF_STACK_TOP / PAGE_SIZE - ELF_STACK_PAGES

  /** `v` is one of the first `n` pages of the user stack. */
  predicate OnStack(v: nat, n: nat) {
    ELF_STACK_FIRST <= v < ELF_STACK_FIRST + n
  }

  /** No segment touches the first `n` pages of the user stack. */
  ghost predicate StackClear(segs: seq<ElfFormat.Phdr>, n: nat) {
    forall v: nat | OnStack(v, n) :: Elf.Untouched(segs, v)
  }

  /** The user half shows the segments, over them `n` zeroed stack pages, and nothing else. */
  ghost predicate ElfSpace(mem: Memory, root: nat, file: seq<byte>, segs: seq<ElfFormat.Phdr>, n: nat) {
    && (forall i: nat, v: nat | Elf.LastToTouch(segs, i, v) && !OnStack(v, n) ::
          Elf.HoldsPage(mem, root, file, segs[i], v))
    && (forall v: nat | OnStack(v, n) :: StackPage(mem, root, v))
    && (forall v: nat | Lower(4, v) && Elf.Untouched(segs, v) && !OnStack(v, n) :: !Leaf(mem, root, v).flags.present)
  }

  lemma ElfSpaceStart(mem: Memory, root: nat, file: seq<byte>, segs: seq<ElfFormat.Phdr>)
    requires Elf.ElfImage(mem, root, file, segs)
    ensures ElfSpace(mem, root, file, segs, 0) && StackClear(segs, 0)
  {
    hide Elf.HoldsPage, StackPage, Leaf, Lower, Elf.LastToTouch, Elf.Untouched;
  }

  /** A page that is touched has a last segment that touches it. */
  lemma {:induction false} LastExists(segs: seq<ElfFormat.Phdr>, v: nat, n: nat) returns (i: nat)
    requires !Elf.Untouched(segs, v) && n <= |segs| && forall j: nat | Elf.Covers(segs, j, v) :: j < n
    ensures Elf.LastToTouch(segs, i, v)
  {
    if Elf.Covers(segs, n - 1, v) {
      i := n - 1;
    } else {
      i := LastExists(segs, v, n - 1);
    }
  }

  lemma AtOwned(own: map<nat, Pos>, pos: Pos)
    ensures At(own, pos) <= own.Keys
  {
  }

  /** The next stack page is free to be mapped exactly when no segment touches it. */
  lemma StackPageFree(mem: Memory, root: nat, own: map<nat, Pos>, owner: Owners, free: set<nat>,
                      file: seq<byte>, segs: seq<ElfFormat.Phdr>, n: nat)
    requires SpaceInHand(mem, root, own, owner, free) && ElfSpace(mem, root, file, segs, n)
      && Lower(4, ELF_STACK_FIRST + n)
    ensures At(own, Pos(4, ELF_STACK_FIRST + n)) == {} <==> Elf.Untouched(segs, ELF_STACK_FIRST + n)
    ensures StackClear(segs, n + 1) <==> StackClear(segs, n) && At(own, Pos(4, ELF_STACK_FIRST + n)) == {}
    ensures At(own, Pos(4, ELF_STACK_FIRST + n)) <= own.Keys
  {
    hide SpaceInHand, Leaf, Lower, StackPage, Elf.Untouched, Elf.LastToTouch, At, Elf.SegmentByte;
    var v := ELF_STACK_FIRST + n;
    AtOwned(own, Pos(4, v));
    NotMappedAt(mem, root, own, owner, free, v);
    if !Elf.Untouched(segs, v) {
      var i := LastExists(segs, v, |segs|);
      assert Elf.HoldsPage(mem, root, file, segs[i], v);
    }
  }

  /** The frames that the present pages of the user half are mapped to are in use. */
  lemma PresentInUse(mem: Memory, root: nat, own: map<nat, Pos>, owner: Owners, free: set<nat>, q: nat)
    requires SpaceInHand(mem, root, own, owner, free) && Lower(4, q) && Leaf(mem, root, q).flags.present
    ensures Leaf(mem, root, q).frame !in free
  {
    hide KernelHalf, Owns;
    Elf.MappedPageInUse(mem, root, own, free, q);
  }

  /** One more stack page was allocated, zeroed and mapped. */
  lemma ElfSpaceStep(mem0: Memory, mem1: Memory, mem: Memory, root: nat, own: map<nat, Pos>, owner: Owners,
                     free0: set<nat>,
                     file: seq<byte>, segs: seq<ElfFormat.Phdr>, n: nat, frame: nat)
    requires ElfSpace(mem0, root, file, segs, n) && n < ELF_STACK_PAGES
    requires SpaceInHand(mem0, root, own, owner, free0) && frame in free0
    requires SameLeaves(mem0, mem1, root) && (forall g: nat | g < |mem1| && g != frame :: mem1[g] == mem0[g])
    requires IsPage(mem1, frame) && mem1[frame] == ZeroPage()
    requires PagesKept(mem1, mem, free0 - {frame})
      && LeafSet(mem1, mem, root, ELF_STACK_FIRST + n, Pte(frame, UserFlags(true, false)))
    requires forall i: nat, v: nat | Elf.LastToTouch(segs, i, v) :: Lower(4, v)
    ensures ElfSpace(mem, root, file, segs, n + 1)
  {
    hide SpaceInHand, Leaf, Lower, Elf.Untouched, StackPage, Elf.SegmentByte, Elf.HoldsPage;
    forall i: nat, v: nat | Elf.LastToTouch(segs, i, v) && !OnStack(v, n + 1)
      ensures Elf.HoldsPage(mem, root, file, segs[i], v) {
      HoldsStill(mem0, mem1, mem, root, own, owner, free0, file, segs[i], v, ELF_STACK_FIRST + n, frame);
    }
    forall v: nat | OnStack(v, n + 1) ensures StackPage(mem, root, v) {
      StackStill(mem0, mem1, mem, root, own, owner, free0, v, ELF_STACK_FIRST + n, frame);
    }
  }

  lemma HoldsStill(mem0: Memory, mem1: Memory, mem: Memory, root: nat, own: map<nat, Pos>, owner: Owners,
                   free0: set<nat>,
                   file: seq<byte>, ph: ElfFormat.Phdr, v: nat, q: nat, frame: nat)
    requires SpaceInHand(mem0, root, own, owner, free0) && frame in free0 && v != q && Lower(4, v)
    requires Elf.HoldsPage(mem0, root, file, ph, v)
    requires SameLeaves(mem0, mem1, root) && (forall g: nat | g < |mem1| && g != frame :: mem1[g] == mem0[g])
    requires PagesKept(mem1, mem, free0 - {frame}) && LeafSet(mem1, mem, root, q, Pte(frame, UserFlags(true, false)))
    ensures Elf.HoldsPage(mem, root, file, ph, v)
  {
    hide SpaceInHand, Leaf, Lower, Elf.SegmentByte;
    PresentInUse(mem0, root, own, owner, free0, v);
    PageKeptAt(mem1, mem, free0 - {frame}, Leaf(mem0, root, v).frame);
  }

  lemma StackStill(mem0: Memory, mem1: Memory, mem: Memory, root: nat, own: map<nat, Pos>, owner: Owners,
                   free0: set<nat>,
                   v: nat, q: nat, frame: nat)
    requires SpaceInHand(mem0, root, own, owner, free0) && frame in free0
    requires if v == q then IsPage(mem1, frame)
      && mem1[frame] == ZeroPage() else StackPage(mem0, root, v) && v < 0x8_0000_0000
    requires SameLeaves(mem0, mem1, root) && (forall g: nat | g < |mem1| && g != frame :: mem1[g] == mem0[g])
    requires PagesKept(mem1, mem, free0 - {frame}) && LeafSet(mem1, mem, root, q, Pte(frame, UserFlags(true, false)))
    ensures StackPage(mem, root, v)
  {
    hide SpaceInHand, Leaf, Lower;
    if v == q {
      PageKeptAt(mem1, mem, free0 - {frame}, frame);
    } else {
      Elf.UserAddress(v * PAGE_SIZE);
      PresentInUse(mem0, root, own, owner, free0, v);
      PageKeptAt(mem1, mem, free0 - {frame}, Leaf(mem0, root, v).frame);
    }
  }

  /** One iteration of the stack loop of `task_create_elf`. A segment's page that is in the way is
      lost. */
  method AddStackPage(res: Resources, root: nat, n: nat, ghost own: map<nat, Pos>, ghost file: seq<byte>,
                      ghost segs: seq<ElfFormat.Phdr>,
                      ghost store: Tasks.Store) returns (r: Outcome<()>, ghost own': map<nat, Pos>)
    requires res.Working(store) && SpaceInHand(res.machine.mem, root, own, res.owner, res.pmm.free)
      && n < ELF_STACK_PAGES
    requires ElfSpace(res.machine.mem, root, file, segs, n)
    requires forall i: nat, v: nat | Elf.LastToTouch(segs, i, v) :: Lower(4, v)
    modifies res`owner, res.machine`mem, res.pmm`freeFrames, res.pmm`free, res.pmm.bitmap
    ensures r.Halted? ==> res.pmm.free == {}
    ensures r.Done? ==>
              && res.Working(store) && SpaceInHand(res.machine.mem, root, own', res.owner, res.pmm.free)
              && ElfSpace(res.machine.mem, root, file, segs, n + 1)
              && res.pmm.free <= old(res.pmm.free)
              && own'.Keys == own.Keys - At(own, Pos(4, ELF_STACK_FIRST + n)) + (old(res.pmm.free) - res.pmm.free)
              && res.owner == old(res.owner) + InHandAll(old(res.pmm.free) - res.pmm.free)
              && Stable(old(res.owner), old(res.machine.mem), res.machine.mem)
  {
    hide res.pmm.Valid, res.heap.Shape, BooksOk, SpaceInHand, Leaf, Node, Lower, UserPageMapped, Vpn, UserFlags,
        PagesKept,
         LeafSet, Extends, InHandAll, HandFrames, ElfSpace, Stable, At, Kept;
    own' := own;
    ghost var mem0, owner0, free0, b0 := res.machine.mem, res.owner, res.pmm.free, res.TheBooks(store);
    var page := TakePage(res, root, own, store);
    if page.Halted? { return Halted, own'; }
    var frame := page.value / PAGE_SIZE;
    ghost var mem1, b1 := res.machine.mem, res.TheBooks(store);
    OneTaken(owner0, free0, frame);
    RootInHand(mem1, root, own, res.owner, res.pmm.free);
    res.machine.mem := res.machine.mem[frame := ZeroPage()];
    ghost var mem2, free2, owner2 := res.machine.mem, res.pmm.free, res.owner;
    SpaceInHandWrite(mem1, mem2, root, own, owner2, free2, frame);
    WriteHand(b1, mem2, frame);
    StableWrite(b1, mem2, frame);
    StableTaken(b0, mem1, free2, mem2);
    LeavesOn(mem0, mem1, mem2, root);
    var vaddr := (ELF_STACK_TOP - ELF_STACK_PAGES * PAGE_SIZE) + n * 0x1000;
    StackAddress(n);
    var ret;
    ret, own' := res.MapPage(root, vaddr, page.value, true, false, own, store);
    if ret.Panicked? { return Halted, own'; }
    AfterMapping(mem2, free2, res.machine.mem, res.pmm.free, root, own, own', ELF_STACK_FIRST + n, frame, true, false);
    ElfSpaceStep(mem0, mem2, res.machine.mem, root, own, owner0, free0, file, segs, n, frame);
    StackFrames(own, own', frame, ELF_STACK_FIRST + n, free0, free2, res.pmm.free);
    TakenTwice(owner0, free0, free2, res.pmm.free);
    StableTaken(b0, mem2, free2, res.machine.mem);
    r := Done(());
  }

  lemma OneTaken(owner: Owners, free: set<nat>, f: nat)
    requires f in free
    ensures f in HandFrames(owner[f := InHand]) && owner[f := InHand] == owner + InHandAll(free - (free - {f}))
  {
    assert free - (free - {f}) == {f};
  }

  lemma LeavesOn(mem0: Memory, mem1: Memory, mem2: Memory, root: nat)
    requires SameLeaves(mem0, mem1, root) && |mem2| == |mem1| && forall q :: Leaf(mem2, root, q) == Leaf(mem1, root, q)
    ensures SameLeaves(mem0, mem2, root)
  {
    hide Leaf;
  }

  lemma StackAddress(n: nat)
    requires n < ELF_STACK_PAGES
    ensures var vaddr := (ELF_STACK_TOP - ELF_STACK_PAGES * PAGE_SIZE) + n * 0x1000;
      Vpn(vaddr) == ELF_STACK_FIRST + n && Lower(4, ELF_STACK_FIRST + n)
  {
    Elf.UserAddress((ELF_STACK_TOP - ELF_STACK_PAGES * PAGE_SIZE) + n * 0x1000);
  }

  lemma StackFrames(own: map<nat, Pos>, own': map<nat, Pos>, frame: nat, q: nat, free0: set<nat>, free2: set<nat>,
                    free3: set<nat>)
    requires frame in free0 && free2 == free0 - {frame} && free3 <= free2
    requires Extends(Kept(own, q), own', map[frame := Pos(4, q)], free2 - free3)
    ensures own'.Keys == own.Keys - At(own, Pos(4, q)) + (free0 - free3)
  {
    assert Kept(own, q).Keys == own.Keys - At(own, Pos(4, q));
  }

  lemma TouchedIsLower(file: seq<byte>)
    requires ElfFormat.Readable(file) && ElfFormat.Acceptable(file)
    ensures var segs := ElfFormat.Segments(file); forall i: nat, v: nat | Elf.LastToTouch(segs, i, v) :: Lower(4, v)
  {
    hide ElfFormat.Segments, ElfFormat.HeaderOk, Lower, ElfFormat.ReadEhdr;
    var segs := ElfFormat.Segments(file);
    forall i: nat, v: nat | Elf.LastToTouch(segs, i, v) ensures Lower(4, v) {
      assert ElfFormat.SegmentOk(segs[i], |file|);
      Elf.UserPages(segs[i], v);
    }
  }

  /** What the loader needs of a file to stay within it: see `ElfFormat.InFileIffNoWrap`. */
  ghost predicate Sound(file: seq<byte>) {
    ElfFormat.Readable(file) && (ElfFormat.Acceptable(file) ==> ElfFormat.NoWrap(ElfFormat.Segments(file)))
  }

  /** No page has two segments, or a segment and the stack. */
  ghost predicate NoOverlap(segs: seq<ElfFormat.Phdr>) {
    Elf.DisjointPages(segs) && StackClear(segs, ELF_STACK_PAGES)
  }

  /** Frames are lost in the creation of a process from a file that the loader accepts. */
  lemma OverlapHappens()
    ensures var file := ElfFormat.OverlapFile();
      Sound(file) && ElfFormat.Acceptable(file) && !NoOverlap(ElfFormat.Segments(file))
  {
    hide ElfFormat.OverlapFile, ElfFormat.Segments, ElfFormat.Acceptable, ElfFormat.NoWrap, Elf.DisjointPages;
    Elf.OverlapIsAccepted();
  }

  /** The user half that `task_create_elf` makes. */
  ghost predicate Loaded(mem: Memory, root: nat, file: seq<byte>) {
    && ElfFormat.Readable(file) && ElfFormat.HeaderOk(file)
    && ElfSpace(mem, root, file, ElfFormat.Segments(file), ELF_STACK_PAGES)
  }

  /** The program and its stack: loading, then the stack pages. Frames are lost exactly when pages
      overlap. */
  method BuildElfSpace(res: Resources, root: nat, file: seq<byte>, ghost store: Tasks.Store)
      returns (r: Elf.LoadResult, ghost own: map<nat, Pos>, ghost lost: set<nat>)
    requires res.Working(store) && SpaceInHand(res.machine.mem, root, map[], res.owner, res.pmm.free) && Sound(file)
    modifies res`owner, res.machine`mem, res.pmm`freeFrames, res.pmm`free, res.pmm.bitmap
    ensures r.OutOfMemory? ==> res.pmm.free == {}
    ensures r.Rejected? <==> !ElfFormat.Acceptable(file)
    ensures r.Rejected? ==> res.Working(store) && res.pmm.free == old(res.pmm.free) && res.owner == old(res.owner)
                            && res.machine.mem == old(res.machine.mem)
    ensures r.Loaded? ==>
              && res.Working(store) && SpaceInHand(res.machine.mem, root, own, res.owner, res.pmm.free)
              && res.pmm.free <= old(res.pmm.free) && own.Keys + lost == old(res.pmm.free) - res.pmm.free
              && own.Keys !! lost
              && res.owner == old(res.owner) + InHandAll(old(res.pmm.free) - res.pmm.free)
              && Loaded(res.machine.mem, root, file) && Stable(old(res.owner), old(res.machine.mem), res.machine.mem)
              && (lost == {} <==> NoOverlap(ElfFormat.Segments(file)))
  {
    hide Stable, res.pmm.Valid, res.heap.Shape, BooksOk, SpaceInHand, ElfFormat.Segments, ElfFormat.HeaderOk,
        ElfFormat.ReadEhdr,
         Lower, Elf.ElfImage, ElfSpace, StackClear, Elf.DisjointPages, ElfFormat.NoWrap, InHandAll,
             ElfFormat.AcceptableSegments,
         ElfFormat.Readable, At;
    ghost var owner0, free0, b0 := res.owner, res.pmm.free, res.TheBooks(store);
    r, own, lost := res.LoadElf(file, root, store);
    if !r.Loaded? { return; }
    TouchedIsLower(file);
    ghost var segs := ElfFormat.Segments(file);
    ElfSpaceStart(res.machine.mem, root, file, segs);
    var n := 0;
    while n < ELF_STACK_PAGES
      invariant n <= ELF_STACK_PAGES && res.Working(store)
        && SpaceInHand(res.machine.mem, root, own, res.owner, res.pmm.free)
      invariant ElfSpace(res.machine.mem, root, file, segs, n)
      invariant lost == {} <==> Elf.DisjointPages(segs) && StackClear(segs, n)
      invariant res.pmm.free <= free0 && own.Keys + lost == free0 - res.pmm.free && own.Keys !! lost
      invariant res.owner == owner0 + InHandAll(free0 - res.pmm.free)
      invariant Stable(owner0, b0.mem, res.machine.mem)
    {
      var added;
      ghost var free1, mem1, own1 := res.pmm.free, res.machine.mem, own;
      StackAddress(n);
      StackPageFree(mem1, root, own, res.owner, free1, file, segs, n);
      added, own := AddStackPage(res, root, n, own, file, segs, store);
      if added.Halted? { return Elf.OutOfMemory, own, lost; }
      TakenTwice(owner0, free0, free1, res.pmm.free);
      StableTaken(b0, mem1, free1, res.machine.mem);
      LostMore(own1.Keys, lost, At(own1, Pos(4, ELF_STACK_FIRST + n)), own.Keys, free0, free1, res.pmm.free);
      lost := lost + At(own1, Pos(4, ELF_STACK_FIRST + n));
      n := n + 1;
    }
  }

  lemma LostMore(own: set<nat>, lost: set<nat>, more: set<nat>, own': set<nat>, free0: set<nat>, free1: set<nat>,
                 free2: set<nat>)
    requires own + lost == free0 - free1 && own !! lost && free2 <= free1 <= free0 && more <= own
    requires own' == own - more + (free1 - free2)
    ensures own' + (lost + more) == free0 - free2 && own' !! lost + more
  {
  }

  lemma RootInHand(mem: Memory, root: nat, own: map<nat, Pos>, owner: Owners, free: set<nat>)
    requires SpaceInHand(mem, root, own, owner, free)
    ensures root in HandFrames(owner) && root !in own && own.Keys <= HandFrames(owner)
  {
    OwnsRoot(mem, root, own);
  }

  /** Memory from the start of an operation through two of its steps. */
  lemma StableStart(b0: Books, owner2: Owners, free2: set<nat>, mem3: Memory)
    requires Underway(b0.owner, b0.free, owner2, free2, {}) && Stable(owner2, b0.mem, mem3)
    ensures Stable(b0.owner, b0.mem, mem3)
  {
  }

  /** The failing return of `task_create_elf`. */
  method Abandon(res: Resources, t: Lifecycle.Ref, stack: nat, pml4: nat, ghost store: Tasks.Store)
    requires res.Working(store) && t !in store && IsPayload(res.heap.arenas, t)
    requires stack != 0 && stack % PAGE_SIZE == 0 && pml4 != 0 && pml4 % PAGE_SIZE == 0
      && pml4 / PAGE_SIZE != stack / PAGE_SIZE
    requires HandFrames(res.owner) == {pml4 / PAGE_SIZE, stack / PAGE_SIZE}
    modifies res`owner, res.pmm`freeFrames, res.pmm`free, res.pmm.bitmap, res.heap`cells, res.heap`arenas
    ensures res.Working(store) && res.owner == old(res.owner) - {pml4 / PAGE_SIZE} - {stack / PAGE_SIZE}
    ensures res.pmm.free == old(res.pmm.free) + {pml4 / PAGE_SIZE} + {stack / PAGE_SIZE}
  {
    hide res.pmm.Valid, res.heap.Shape, BooksOk, IsPayload, HandFrames;
    HandTwo(res.owner, pml4 / PAGE_SIZE, stack / PAGE_SIZE);
    res.GiveFrame(pml4, store);
    res.GiveFrame(stack, store);
    res.FreeStruct(t, store);
  }

  /** The giving back of everything that an ended task owned, in the order of `task_reap`. */
  method GiveTask(res: Resources, z: Lifecycle.Ref, c: Tasks.Struct, ghost own: map<nat, Pos>,
                  ghost frames: set<nat>, ghost rest: Tasks.Store)
    requires res.Working(rest) && res.kernel != 0 && z !in rest && IsPayload(res.heap.arenas, z)
    requires frames == HandFrames(res.owner) && OwnedByTask(res.machine.mem, c, own, frames, res.kernel)
    modifies res`owner, res.pmm`freeFrames, res.pmm`free, res.pmm.bitmap, res.heap`cells, res.heap`arenas
    ensures res.Working(rest) && res.pmm.free == old(res.pmm.free) + frames && res.owner == old(res.owner) - frames
  {
    hide res.pmm.Valid, res.heap.Shape, BooksOk, Owns, IsPayload, HandFrames;
    ghost var owner1, free0 := res.owner, res.pmm.free;
    ghost var spaceFrames := if c.ownSpace then own.Keys + {c.cr3 / PAGE_SIZE} else {};
    GiveTables(res, c, own, frames, rest);
    if c.stack != 0 {
      HandLess(owner1, spaceFrames, c.stack / PAGE_SIZE);
      res.GiveFrame(c.stack, rest);
    }
    res.FreeStruct(z, rest);
    assert res.owner == owner1 - frames && res.pmm.free == free0 + frames;
  }

  /** The address space of the ended task: its user half, then its PML4. */
  method GiveTables(res: Resources, c: Tasks.Struct, ghost own: map<nat, Pos>, ghost frames: set<nat>,
                    ghost rest: Tasks.Store)
    requires res.Working(rest)
    requires frames == HandFrames(res.owner) && OwnedByTask(res.machine.mem, c, own, frames, res.kernel)
    modifies res`owner, res.pmm`freeFrames, res.pmm`free, res.pmm.bitmap
    ensures res.Working(rest)
    ensures var spaceFrames := if c.ownSpace then own.Keys + {c.cr3 / PAGE_SIZE} else {};
              res.pmm.free == old(res.pmm.free) + spaceFrames && res.owner == old(res.owner) - spaceFrames
  {
    hide res.pmm.Valid, res.heap.Shape, BooksOk, Owns, HandFrames;
    ghost var owner1 := res.owner;
    if c.ownSpace && c.cr3 != res.kernel * PAGE_SIZE {
      res.GiveSpace(c.cr3 / PAGE_SIZE, own, rest);
      HandLess(owner1, own.Keys, c.cr3 / PAGE_SIZE);
      res.GiveFrame(c.cr3, rest);
    }
  }

  /** `frames` is what a task with structure `c` owns, each frame once. */
  ghost predicate OwnedByTask(mem: Memory, c: Tasks.Struct, own: map<nat, Pos>, frames: set<nat>, kernel: nat) {
    && c.stack % PAGE_SIZE == 0 && c.cr3 % PAGE_SIZE == 0
    && (c.ownSpace ==>
          c.cr3 != 0 && c.cr3 != kernel * PAGE_SIZE && Owns(mem, c.cr3 / PAGE_SIZE, own) && c.cr3 / PAGE_SIZE !in own)
    && (c.stack != 0 ==> c.stack / PAGE_SIZE !in own && (c.ownSpace ==> c.stack / PAGE_SIZE != c.cr3 / PAGE_SIZE))
    && frames ==
          (if c.stack != 0 then {c.stack / PAGE_SIZE} else {}) + (if c.ownSpace then {c.cr3 / PAGE_SIZE} + own.Keys
              else {})
  }

  /** What a step of `task_wait` returns: -1 without children; PID (as an `int`) and exit code of
      the first child in the list that has ended, which is `z`; nothing yet when the task blocks. */
  ghost predicate Waited(s: Lifecycle.Sys, s': Lifecycle.Sys, pid: Option<int>, status: Option<int>,
                         z: Option<Lifecycle.Ref>) {
    && Lifecycle.Inv(s) && |s.ring| > 0 && s.ring[0] != s.idle && s.ring[0] in s.tasks && s' == Lifecycle.Wait(s)
    && var cur := s.tasks[s.ring[0]];
    z == Lifecycle.FirstZombie(s, cur.kids) &&
    if cur.kids == [] then pid == Some(-1) && s' == s
    else match z
      case None => pid == None
      case Some(c) => c in s.tasks && pid == Some(AsInt(s.tasks[c].pid)) && status == Some(s.tasks[c].code)
                      && s'.waits == s.waits + [Lifecycle.WaitRecord(cur.pid, s.tasks[c].pid, s.tasks[c].code)]
  }

  class KernelState {
    const res: Resources
    const tasks: Tasks.TaskTable

    /** The invariant between operations: every used frame has exactly one owner, no owner is
        gone, and the task structures represent a good scheduler state. */
    ghost predicate Valid()
      reads res, res.pmm, res.pmm.bitmap, res.machine, res.heap, tasks
    {
      res.Working(tasks.store) && HandFrames(res.owner) == {} && res.kernel != 0 && tasks.Valid()
    }

    constructor (res: Resources, tasks: Tasks.TaskTable)
      ensures this.res == res && this.tasks == tasks
    {
      this.res, this.tasks := res, tasks;
    }

    /** The common end of the three ways of creating a task: the structure is filled in, and what
        is in hand becomes the task's. */
    method Adopt(t: Lifecycle.Ref, space: nat, ppid: nat, stack: nat, ownSpace: bool, ghost own: map<nat, Pos>,
                 ghost owner0: Owners, ghost free0: set<nat>, ghost lost: set<nat>)
      requires res.Working(tasks.store) && tasks.Valid() && t != 0 && space != 0
      requires NewTask(res.TheBooks(tasks.store), t, NewStruct(space, stack, ownSpace), own)
      requires Underway(owner0, free0, res.owner, res.pmm.free, lost) && TaskFrames(owner0, t) == {}
      requires HandFrames(res.owner) == own.Keys + {stack / PAGE_SIZE} + (if ownSpace then {space / PAGE_SIZE} else {})
      modifies tasks, res`owner
      ensures res.Working(tasks.store) && HandFrames(res.owner) == {} && tasks.Valid()
      ensures tasks.sys == Lifecycle.Create(old(tasks.sys), t, space, ppid)
      ensures Gained(owner0, free0, res.owner, res.pmm.free, t, lost) && SpaceOf(res.owner, t) == own
      ensures TaskFrames(res.owner, t) ==
          own.Keys + {stack / PAGE_SIZE} + (if ownSpace then {space / PAGE_SIZE} else {})
      ensures t in tasks.store && tasks.store[t].cr3 == space && tasks.store[t].stack == stack
        && tasks.store[t].ownSpace == ownSpace
    {
      hide tasks.Valid, res.pmm.Valid, res.heap.Shape, BooksOk, Owns, KernelHalf, IsPayload, Labelled, Underway, Gained;
      ghost var b, c := res.TheBooks(tasks.store), NewStruct(space, stack, ownSpace);
      SameNeeds(b, t, c, own);
      tasks.InitStruct(t, space, ppid, stack, ownSpace);
      ghost var made := tasks.store[t];
      assert tasks.store == b.store[t := made];
      SameNewTask(b, t, c, made, own);
      BooksNewTask(b, t, made, own);
      UnderwayLabelled(owner0, free0, b.owner, b.free, t, made, own, lost);
      res.owner := Labelled(res.owner, t, made, own);
    }

    /** `task_create`: a kernel task with a stack, on the kernel's address space. */
    method CreateTask() returns (r: Outcome<Lifecycle.Ref>)
      requires Valid()
      modifies tasks, res`owner, res.pmm`freeFrames, res.pmm`free, res.pmm.bitmap, res.heap`cells, res.heap`arenas
      ensures r.Halted? ==> res.pmm.free == {}
      ensures r.Done? ==> Valid() && r.value !in old(tasks.store)
      ensures r.Done? ==> tasks.sys == Lifecycle.Create(old(tasks.sys), r.value, res.kernel * PAGE_SIZE, 0)
      ensures r.Done? ==>
          Gained(old(res.owner), old(res.pmm.free), res.owner, res.pmm.free, r.value, {})
              && |TaskFrames(res.owner, r.value)| == 1
    {
      hide tasks.Valid, res.pmm.Valid, res.heap.Shape, BooksOk, Owns, KernelHalf, IsPayload, Underway, Gained;
      ghost var owner0, free0 := res.owner, res.pmm.free;
      UnderwayStart(res.TheBooks(tasks.store));
      r := res.AllocStruct(tasks.store);
      if r.Halted? { return; }
      UnderwayHeap(owner0, free0, owner0, free0, res.pmm.free);
      NewOwnsNothing(old(res.TheBooks(tasks.store)), r.value);
      ghost var owner, free := res.owner, res.pmm.free;
      var stack := res.TakeFrame(tasks.store);
      if stack.Halted? { return Halted; }
      UnderwayOne(owner0, free0, owner, free, stack.value / PAGE_SIZE);
      PageAddress(res.kernel);
      Adopt(r.value, res.kernel * PAGE_SIZE, 0, stack.value, false, map[], owner0, free0, {});
    }

    /** The common start of `task_create_user` and `task_create_elf`: a structure, a kernel stack,
        and an address space with an empty user half, all in hand. */
    method BeginProcess() returns (r: Outcome<(Lifecycle.Ref, nat, nat)>)
      requires Valid()
      modifies res`owner, res.machine`mem, res.pmm`freeFrames, res.pmm`free, res.pmm.bitmap, res.heap`cells,
          res.heap`arenas
      ensures r.Halted? ==> res.pmm.free == {}
      ensures r.Done? ==> var (t, stack, pml4) := r.value;
                && res.Working(tasks.store) && tasks.Valid()
                && t !in tasks.store && t != 0 && IsPayload(res.heap.arenas, t) && TaskFrames(old(res.owner), t) == {}
                && InTransit(old(res.TheBooks(tasks.store)), res.TheBooks(tasks.store), stack, pml4)
                && (forall q | Lower(4, q) :: Leaf(res.machine.mem, pml4 / PAGE_SIZE, q) == EMPTY)
    {
      hide Stable, tasks.Valid, res.pmm.Valid, res.heap.Shape, BooksOk, Owns, KernelHalf, IsPayload, Underway,
          HandFrames, Leaf, Lower,
           SpaceInHand;
      ghost var owner0, free0, b0 := res.owner, res.pmm.free, res.TheBooks(tasks.store);
      UnderwayStart(b0);
      var t := res.AllocStruct(tasks.store);
      if t.Halted? { return Halted; }
      UnderwayHeap(owner0, free0, owner0, free0, res.pmm.free);
      NewOwnsNothing(b0, t.value);
      ghost var owner1, free1 := res.owner, res.pmm.free;
      var stack := res.TakeFrame(tasks.store);
      if stack.Halted? { return Halted; }
      UnderwayOne(owner0, free0, owner1, free1, stack.value / PAGE_SIZE);
      ghost var owner2, free2 := res.owner, res.pmm.free;
      var pml4 := res.NewSpace(tasks.store);
      if pml4.Halted? { return Halted; }
      UnderwayOne(owner0, free0, owner2, free2, pml4.value / PAGE_SIZE);
      StableStart(b0, owner2, free2, res.machine.mem);
      r := Done((t.value, stack.value, pml4.value));
    }

    /** `task_create_user`: a process with one page of code and one page of stack. */
    method CreateUser(code: seq<byte>) returns (r: Outcome<Lifecycle.Ref>)
      requires Valid()
      modifies tasks, res`owner, res.machine`mem, res.pmm`freeFrames, res.pmm`free, res.pmm.bitmap, res.heap`cells,
          res.heap`arenas
      ensures r.Halted? ==> !(0 < |code| <= PAGE_SIZE) || res.pmm.free == {}
      ensures r.Done? ==> Valid() && r.value !in old(tasks.store) && 0 < |code| <= PAGE_SIZE
      ensures r.Done? ==> NewProcess(r.value, old(tasks.store), old(tasks.sys), tasks.store, tasks.sys)
                          && UserImage(res.machine.mem, tasks.store[r.value].cr3 / PAGE_SIZE, code)
      ensures r.Done? ==> Gained(old(res.owner), old(res.pmm.free), res.owner, res.pmm.free, r.value, {})
      ensures r.Done? ==> Stable(old(res.owner), old(res.machine.mem), res.machine.mem)
    {
      hide Stable, tasks.Valid, res.pmm.Valid, res.heap.Shape, BooksOk, Owns, KernelHalf, IsPayload, Underway,
          Gained, UserImage,
           HandFrames, Leaf, Lower, SpaceInHand, NewTask, LostAll, InTransit;
      if !(0 < |code| <= PAGE_SIZE) { return Halted; }
      ghost var b0 := res.TheBooks(tasks.store);
      CurrentInStore(tasks);
      var begun := BeginProcess();
      if begun.Halted? { return Halted; }
      var t, stack, pml4 := begun.value.0, begun.value.1, begun.value.2;
      ghost var b3 := res.TheBooks(tasks.store);
      TransitSpace(b0, b3, stack, pml4);
      var built;
      ghost var own;
      built, own := BuildUserSpace(res, pml4 / PAGE_SIZE, code, tasks.store);
      if built.Halted? { return Halted; }
      BuiltSpace(b0, b3, res.TheBooks(tasks.store), t, stack, pml4, own, {});
      assert b3.owner + InHandAll(b3.free - res.pmm.free) + LostAll({}) == res.owner by { NothingLost(res.owner); }
      Adopt(t, pml4, tasks.store[tasks.current].pid, stack, true, own, b0.owner, b0.free, {});
      r := Done(t);
    }

    /** `task_create_elf`: a process from an executable file. It returns NULL exactly for a file
        that the loader rejects, and then every frame it took is back, but for those of a new
        heap arena. Frames are lost exactly when pages of the program overlap. */
    method CreateElf(file: seq<byte>) returns (r: Outcome<Option<Lifecycle.Ref>>, ghost lost: set<nat>)
      requires Valid() && Sound(file)
      modifies tasks, res`owner, res.machine`mem, res.pmm`freeFrames, res.pmm`free, res.pmm.bitmap, res.heap`cells,
          res.heap`arenas
      ensures r.Halted? ==> res.pmm.free == {}
      ensures r.Done? ==> Valid() && (r.value.None? <==> !ElfFormat.Acceptable(file))
      ensures r == Done(None) ==> lost == {} && tasks.sys == old(tasks.sys) && tasks.store == old(tasks.store)
                                  && res.pmm.free <= old(res.pmm.free)
                                  && res.owner == old(res.owner) + HeapAll(old(res.pmm.free) - res.pmm.free)
      ensures r.Done? && r.value.Some? ==>
                && NewProcess(r.value.value, old(tasks.store), old(tasks.sys), tasks.store, tasks.sys)
                && Loaded(res.machine.mem, tasks.store[r.value.value].cr3 / PAGE_SIZE, file)
                && (lost == {} <==> NoOverlap(ElfFormat.Segments(file)))
                && Gained(old(res.owner), old(res.pmm.free), res.owner, res.pmm.free, r.value.value, lost)
      ensures r.Done? ==> Stable(old(res.owner), old(res.machine.mem), res.machine.mem)
    {
      hide Stable, tasks.Valid, res.pmm.Valid, res.heap.Shape, BooksOk, Owns, KernelHalf, IsPayload, Underway,
          Gained, Loaded,
           HandFrames, Leaf, Lower, HeapAll, Sound, ElfFormat.Acceptable, SpaceInHand, NewTask, NoOverlap, LostAll,
           ElfFormat.Segments, InTransit;
      lost := {};
      ghost var b0 := res.TheBooks(tasks.store);
      if |file| == 0 {
        EmptyFile(file);
        NothingTaken(b0.owner, b0.free);
        StableSame(b0);
        return Done(None), lost;
      }
      CurrentInStore(tasks);
      var begun := BeginProcess();
      if begun.Halted? { return Halted, lost; }
      var t, stack, pml4 := begun.value.0, begun.value.1, begun.value.2;
      ghost var b3 := res.TheBooks(tasks.store);
      TransitSpace(b0, b3, stack, pml4);
      var built;
      ghost var own;
      built, own, lost := BuildElfSpace(res, pml4 / PAGE_SIZE, file, tasks.store);
      if built.OutOfMemory? { return Halted, lost; }
      if built.Rejected? {
        Abandon(res, t, stack, pml4, tasks.store);
        GaveBoth(b0.owner, b0.free, b3.owner, b3.free, pml4 / PAGE_SIZE, stack / PAGE_SIZE);
        return Done(None), {};
      }
      BuiltSpace(b0, b3, res.TheBooks(tasks.store), t, stack, pml4, own, lost);
      BooksLose(res.TheBooks(tasks.store), lost);
      res.owner := res.owner + LostAll(lost);
      Adopt(t, pml4, tasks.store[tasks.current].pid, stack, true, own, b0.owner, b0.free, lost);
      r := Done(Some(t));
    }

    /** `task_reap`. None of the ASSERTs of `pmm_free_frame` and `kfree` fails; exactly the frames
        of the ended task become free, all others keep their owner. */
    method Reap(z: Lifecycle.Ref)
      requires Valid() && z in tasks.sys.tasks && z in tasks.sys.tasks[tasks.current].kids
        && tasks.sys.tasks[z].state == Lifecycle.Zombie
      modifies tasks, res`owner, res.pmm`freeFrames, res.pmm`free, res.pmm.bitmap, res.heap`cells, res.heap`arenas
      ensures Valid() && z !in tasks.store
      ensures old(Lifecycle.RingOk(tasks.sys) && z != tasks.sys.ring[0])
        && tasks.sys == Lifecycle.Reaped(old(tasks.sys), z)
      ensures res.pmm.free == old(res.pmm.free) + TaskFrames(old(res.owner), z)
      ensures res.owner == old(res.owner) - TaskFrames(old(res.owner), z)
    {
      hide res.pmm.Valid, res.heap.Shape, BooksOk, Owns, KernelHalf, IsPayload, Lifecycle.Reaped, Lifecycle.Inv,
          Unlabelled, HandFrames, SpaceOf, TaskFrames,
           Tasks.SameResources, Tasks.Links, Tasks.FieldsOk, Tasks.ChainsOk;
      ghost var owner0, b0 := res.owner, res.TheBooks(tasks.store);
      tasks.Unlink(z);
      ghost var b1, rest := b0.(store := tasks.store), tasks.store - {z};
      BooksTasks(b0, tasks.store);
      ZombieFacts(b1, z);
      BooksDropTask(b1, z);
      res.owner := Unlabelled(res.owner, z);
      GiveTask(res, z, tasks.store[z], SpaceOf(owner0, z), TaskFrames(owner0, z), rest);
      tasks.Drop(z);
      AllGiven(owner0, z, res.owner);
    }

    /** `task_wait` of the current task, from its call or its wakeup to its return or to the
        point where it blocks: the return value, or None when it blocks. */
    method Wait() returns (pid: Option<int>, status: Option<int>, ghost z: Option<Lifecycle.Ref>)
      requires Valid() && tasks.current != tasks.idle
      modifies tasks, res`owner, res.pmm`freeFrames, res.pmm`free, res.pmm.bitmap, res.heap`cells, res.heap`arenas
      ensures Valid() && Waited(old(tasks.sys), tasks.sys, pid, status, z)
      ensures z.Some? ==> z.value !in tasks.store
      ensures res.pmm.free == old(res.pmm.free) + (if z.Some? then TaskFrames(old(res.owner), z.value) else {})
      ensures res.owner == if z.Some? then old(res.owner) - TaskFrames(old(res.owner), z.value) else old(res.owner)
    {
      hide res.pmm.Valid, res.heap.Shape, BooksOk, Lifecycle.Core, Lifecycle.Reaped, HandFrames, TaskFrames,
          Lifecycle.Yield, Lifecycle.Blocking, Lifecycle.FirstZombie,
           Tasks.SameResources, Tasks.Links, Tasks.FieldsOk, Tasks.ChainsOk, Lifecycle.RingOk;
      WaitFacts(tasks);
      if tasks.store[tasks.current].firstChild == 0 { return Some(-1), None, None; }
      var child := tasks.FindZombie();
      if child.Some? {
        z := child;
        ZombieFields(tasks, child.value);
        status := Some(tasks.store[child.value].exitCode);
        pid := Some(AsInt(tasks.store[child.value].pid));
        ReapedWaits(tasks.sys, child.value);
        Reap(child.value);
        return;
      }
      ghost var b := res.TheBooks(tasks.store);
      tasks.Block();
      BooksTasks(b, tasks.store);
      return None, None, None;
    }

    /** `scheduler_add` of a task that is in no queue. */
    method Add(t: Lifecycle.Ref)
      requires Valid() && t in tasks.sys.tasks && t !in tasks.sys.ring
      modifies tasks
      ensures Valid() && tasks.sys == Lifecycle.Add(old(tasks.sys), t)
    {
      hide tasks.Valid, BooksOk, Tasks.SameResources, res.pmm.Valid, res.heap.Shape;
      ghost var b := res.TheBooks(tasks.store);
      tasks.SchedulerAdd(t);
      BooksTasks(b, tasks.store);
    }

    /** `task_set_parent` with the current task as the parent. */
    method SetParent(child: Lifecycle.Ref)
      requires Valid() && !tasks.sys.tasks[tasks.current].waiting
      requires child in tasks.sys.tasks && child != tasks.current && tasks.sys.tasks[child].parent == 0
        && tasks.sys.tasks[child].state != Lifecycle.Zombie
      modifies tasks
      ensures Valid() && tasks.sys == Lifecycle.SetParent(old(tasks.sys), child)
    {
      hide BooksOk, Tasks.SameResources, res.pmm.Valid, res.heap.Shape, Lifecycle.Inv, Lifecycle.SetParent;
      ghost var b := res.TheBooks(tasks.store);
      tasks.SetParentTo(child, tasks.current);
      BooksTasks(b, tasks.store);
    }

    /** `task_yield`. */
    method Yield()
      requires Valid()
      modifies tasks
      ensures Valid() && old(Lifecycle.RingOk(tasks.sys)) && tasks.sys == Lifecycle.Yield(old(tasks.sys))
    {
      hide BooksOk, Tasks.SameResources, res.pmm.Valid, res.heap.Shape, Lifecycle.Yield, Lifecycle.Core, Tasks.Links,
          Tasks.FieldsOk, Tasks.ChainsOk, Lifecycle.RingOk;
      ghost var b := res.TheBooks(tasks.store);
      Lifecycle.CoreRing(tasks.sys);
      tasks.SchedulerYield();
      BooksTasks(b, tasks.store);
    }

    /** The timer interrupt. */
    method TimerTick()
      requires Valid()
      modifies tasks
      ensures Valid() && old(Lifecycle.RingOk(tasks.sys)) && tasks.sys == Lifecycle.Tick(old(tasks.sys))
    {
      hide BooksOk, Tasks.SameResources, res.pmm.Valid, res.heap.Shape, Lifecycle.Tick, Lifecycle.Core, Tasks.Links,
          Tasks.FieldsOk, Tasks.ChainsOk, Lifecycle.RingOk;
      ghost var b := res.TheBooks(tasks.store);
      Lifecycle.CoreRing(tasks.sys);
      tasks.TimerTick();
      BooksTasks(b, tasks.store);
    }

    /** `task_exit`. */
    method Exit(code: int)
      requires Valid() && tasks.current != tasks.idle && !tasks.sys.tasks[tasks.current].waiting
      modifies tasks
      ensures Valid() && old(Lifecycle.RingOk(tasks.sys) && Lifecycle.RingOk(Lifecycle.Ended(tasks.sys, code)))
        && tasks.sys == Lifecycle.Exit(old(tasks.sys), code)
    {
      hide BooksOk, Tasks.SameResources, res.pmm.Valid, res.heap.Shape, Lifecycle.Exit, Lifecycle.Core,
          Lifecycle.Ended, Tasks.Links, Tasks.FieldsOk, Tasks.ChainsOk, Lifecycle.RingOk;
      ghost var b := res.TheBooks(tasks.store);
      Lifecycle.CoreRing(tasks.sys);
      tasks.TaskExit(code);
      BooksTasks(b, tasks.store);
    }
  }

  /** A process `t` with an address space of its own was created by the current task. */
  ghost predicate NewProcess(t: Lifecycle.Ref, store: Tasks.Store, s: Lifecycle.Sys, store': Tasks.Store,
                             s': Lifecycle.Sys) {
    && t !in store && t in store' && store'[t].ownSpace && store'[t].stack != 0
    && |s.ring| > 0 && s.ring[0] in s.tasks
    && s' == Lifecycle.Create(s, t, store'[t].cr3, s.tasks[s.ring[0]].pid)
  }

  /** Of a new process, the kernel stack and an empty address space are in hand. */
  ghost predicate InTransit(b0: Books, b: Books, stack: nat, pml4: nat) {
    && stack % PAGE_SIZE == 0 && stack != 0 && pml4 % PAGE_SIZE == 0 && pml4 != 0
    && stack / PAGE_SIZE != pml4 / PAGE_SIZE
    && HandFrames(b.owner) == {pml4 / PAGE_SIZE, stack / PAGE_SIZE}
    && Underway(b0.owner, b0.free, b.owner, b.free, {}) && Stable(b0.owner, b0.mem, b.mem)
    && SpaceInHand(b.mem, pml4 / PAGE_SIZE, map[], b.owner, b.free)
  }

  lemma TransitSpace(b0: Books, b: Books, stack: nat, pml4: nat)
    requires InTransit(b0, b, stack, pml4)
    ensures SpaceInHand(b.mem, pml4 / PAGE_SIZE, map[], b.owner, b.free)
    ensures stack % PAGE_SIZE == 0 && stack != 0 && pml4 % PAGE_SIZE == 0 && pml4 != 0
      && pml4 / PAGE_SIZE != stack / PAGE_SIZE
    ensures HandFrames(b.owner) == {pml4 / PAGE_SIZE, stack / PAGE_SIZE}
      && Underway(b0.owner, b0.free, b.owner, b.free, {})
    ensures Stable(b0.owner, b0.mem, b.mem)
  {
    hide SpaceInHand, Underway, Stable;
  }

  /** The user half was built up: everything is ready for `Adopt`, once the frames that were lost
      are no longer in hand. */
  lemma BuiltSpace(b0: Books, b3: Books, b: Books, t: nat, stack: nat, pml4: nat, own: map<nat, Pos>, lost: set<nat>)
    requires InTransit(b0, b3, stack, pml4) && b.store == b0.store && t !in b.store && IsPayload(b.arenas, t)
    requires SpaceInHand(b.mem, pml4 / PAGE_SIZE, own, b.owner, b.free) && b.free <= b3.free
    requires own.Keys + lost == b3.free - b.free && own.Keys !! lost
      && b.owner == b3.owner + InHandAll(b3.free - b.free)
    requires Stable(b3.owner, b3.mem, b.mem)
    ensures Stable(b0.owner, b0.mem, b.mem) && lost <= HandFrames(b.owner)
    ensures NewTask(b.(owner := b.owner + LostAll(lost)), t, NewStruct(pml4, stack, true), own)
    ensures HandFrames(b.owner + LostAll(lost)) == own.Keys + {stack / PAGE_SIZE} + {pml4 / PAGE_SIZE}
    ensures Underway(b0.owner, b0.free, b.owner + LostAll(lost), b.free, lost)
  {
    hide SpaceInHand, Stable, IsPayload, NewTask, HandFrames;
    StableOn(b0, b3, b.mem);
    UnderwayTake(b0.owner, b0.free, b3.owner, b3.free, b.free);
    SpaceOfNewTask(b, t, pml4, stack, own, lost, b3.owner, b3.free);
    UnderwayLose(b0.owner, b0.free, b.owner, b.free, lost);
  }

  lemma StableOn(b0: Books, b: Books, mem: Memory)
    requires Underway(b0.owner, b0.free, b.owner, b.free, {}) && Stable(b0.owner, b0.mem, b.mem)
      && Stable(b.owner, b.mem, mem)
    ensures Stable(b0.owner, b0.mem, mem)
  {
    hide Stable;
    StableChain(b0.owner, b0.mem, b.owner, b.mem, mem);
  }

  lemma NothingLost(owner: Owners)
    ensures owner + LostAll({}) == owner
  {
  }

  lemma EmptyFile(file: seq<byte>)
    requires |file| == 0 && ElfFormat.Readable(file)
    ensures !ElfFormat.Acceptable(file)
  {
  }

  lemma NothingTaken(owner: Owners, free: set<nat>)
    ensures owner == owner + HeapAll(free - free)
  {
  }

  lemma HandTwo(owner: Owners, f: nat, g: nat)
    requires HandFrames(owner) == {f, g}
    ensures f in HandFrames(owner) && g in HandFrames(owner)
    ensures f != g ==> g in HandFrames(owner - {f})
  {
  }

  /** Both frames in hand were given back. */
  lemma GaveBoth(owner0: Owners, free0: set<nat>, owner: Owners, free: set<nat>, f: nat, g: nat)
    requires Underway(owner0, free0, owner, free, {}) && HandFrames(owner) == {f, g}
    ensures var owner' := owner - {f} - {g}; var free' := free + {f} + {g};
      HandFrames(owner') == {} && free' <= free0 && owner' == owner0 + HeapAll(free0 - free')
  {
    var owner', free' := owner - {f} - {g}, free + {f} + {g};
    assert f in HandFrames(owner) && g in HandFrames(owner);
    assert free0 - free' == (free0 - free) - {f, g};
    forall x | x in owner' ensures owner'[x] != InHand { assert x !in HandFrames(owner); }
    assert owner'.Keys == (owner0 + HeapAll(free0 - free')).Keys;
  }

  lemma HandLess(owner: Owners, back: set<nat>, f: nat)
    requires f in HandFrames(owner) && f !in back
    ensures f in HandFrames(owner - back)
  {
  }

  /** What a task owns, for `task_reap`. */
  lemma ZombieFacts(b: Books, z: nat)
    requires BooksOk(b) && z in b.store
    ensures IsPayload(b.arenas, z)
    ensures OwnedByTask(b.mem, b.store[z], SpaceOf(b.owner, z), TaskFrames(b.owner, z), b.kernel)
  {
    hide BooksOk, Owns, KernelHalf, IsPayload, TaskFrames, Node;
    BooksParts(b);
    FramesOfTask(b, z);
    KernelReady(b);
    PageAddress(b.kernel);
    assert TaskOwns(b.store[z], z, b.owner);
    if b.store[z].ownSpace {
      SpaceAt(b, z);
      assert OwnerLive(b, b.store[z].cr3 / PAGE_SIZE);
    }
  }

  lemma WaitFacts(tasks: Tasks.TaskTable)
    requires tasks.Valid()
    ensures Lifecycle.Inv(tasks.sys) && Lifecycle.RingOk(tasks.sys) && tasks.sys.ring[0] == tasks.current
      && tasks.sys.idle == tasks.idle
    ensures tasks.current in tasks.store && tasks.current in tasks.sys.tasks
    ensures tasks.store[tasks.current].firstChild == 0 <==> tasks.sys.tasks[tasks.current].kids == []
    ensures tasks.sys.tasks[tasks.current].kids == [] ==> !tasks.sys.tasks[tasks.current].waiting
    ensures forall c | c in tasks.sys.tasks[tasks.current].kids :: c in tasks.sys.tasks && c != tasks.current
  {
    hide Tasks.Links, Tasks.FieldsOk, Lifecycle.StatesOk, Lifecycle.HasZombie, Lifecycle.PidsOk, Lifecycle.NoDup;
    Lifecycle.CurrentKnown(tasks.sys);
    Tasks.ChainAt(tasks.store, tasks.sys.tasks, tasks.current);
  }

  lemma ZombieFields(tasks: Tasks.TaskTable, z: Lifecycle.Ref)
    requires tasks.Valid() && z in tasks.sys.tasks
    ensures z in tasks.store && tasks.store[z].exitCode == tasks.sys.tasks[z].code
      && tasks.store[z].pid == tasks.sys.tasks[z].pid
  {
    hide Tasks.Links, Tasks.ChainsOk, Lifecycle.Inv;
    Tasks.FieldsAt(tasks.store, tasks.sys.tasks, z);
  }

  lemma ReapedWaits(s: Lifecycle.Sys, z: Lifecycle.Ref)
    requires Lifecycle.RingOk(s) && z in s.tasks && z != s.ring[0]
    ensures Lifecycle.Reaped(s, z).waits ==
        s.waits + [Lifecycle.WaitRecord(s.tasks[s.ring[0]].pid, s.tasks[z].pid, s.tasks[z].code)]
  {
  }

  lemma AllGiven(owner0: Owners, z: nat, owner: Owners)
    requires owner == Unlabelled(owner0, z) - TaskFrames(owner0, z)
    requires HandFrames(Unlabelled(owner0, z)) == TaskFrames(owner0, z)
    ensures owner == owner0 - TaskFrames(owner0, z) && HandFrames(owner) == {}
  {
  }

  lemma CurrentInStore(tasks: Tasks.TaskTable)
    requires tasks.Valid()
    ensures tasks.current in tasks.store && |tasks.sys.ring| > 0 && tasks.sys.ring[0] == tasks.current
    ensures tasks.current in tasks.sys.tasks && tasks.store[tasks.current].pid == tasks.sys.tasks[tasks.current].pid
  {
    hide Tasks.Links, Tasks.ChainsOk, Lifecycle.FamilyOk, Lifecycle.WakeOk, Lifecycle.PidsOk, Lifecycle.StatesOk;
    Tasks.FieldsAt(tasks.store, tasks.sys.tasks, tasks.current);
  }

  /** The frames of a new user task are as `Adopt` needs them, once those that were lost are no
      longer in hand. */
  lemma SpaceOfNewTask(b: Books, t: nat, space: nat, stack: nat, own: map<nat, Pos>, lost: set<nat>, owner: Owners,
                       free: set<nat>)
    requires t !in b.store && IsPayload(b.arenas, t) && stack % PAGE_SIZE == 0 && stack != 0 && space % PAGE_SIZE == 0
      && space != 0
    requires SpaceInHand(b.mem, space / PAGE_SIZE, own, b.owner, b.free)
    requires HandFrames(b.owner) == HandFrames(owner) + own.Keys + lost && own.Keys !! lost
    requires HandFrames(owner) == {stack / PAGE_SIZE, space / PAGE_SIZE} && own.Keys + lost <= free
      && owner.Keys !! free
    requires stack / PAGE_SIZE != space / PAGE_SIZE
    ensures lost <= HandFrames(b.owner)
    ensures NewTask(b.(owner := b.owner + LostAll(lost)), t, NewStruct(space, stack, true), own)
    ensures HandFrames(b.owner + LostAll(lost)) == own.Keys + {stack / PAGE_SIZE} + {space / PAGE_SIZE}
  {
    hide Owns, KernelHalf, InUse, IsPayload;
    OwnsRoot(b.mem, space / PAGE_SIZE, own);
    HalfLost(b.mem, space / PAGE_SIZE, b.owner, lost);
    assert HandFrames(b.owner + LostAll(lost)) == HandFrames(b.owner) - lost;
  }

  lemma HalfLost(mem: Memory, root: nat, owner: Owners, lost: set<nat>)
    requires KernelHalf(mem, root, owner) && lost <= HandFrames(owner)
    ensures KernelHalf(mem, root, owner + LostAll(lost))
  {
    hide Node, Lower;
  }

  /** The fields of a new structure that say what the task owns. */
  function NewStruct(space: nat, stack: nat, ownSpace: bool): Tasks.Struct {
    Tasks.Struct(0, Lifecycle.Ready, 0, 0, 0, 0, 0, 0, 0, space, stack, ownSpace)
  }

  lemma SameNeeds(b: Books, t: nat, c: Tasks.Struct, own: map<nat, Pos>)
    requires NewTask(b, t, c, own)
    ensures t !in b.store && c.stack / PAGE_SIZE in HandFrames(b.owner) && own.Keys <= HandFrames(b.owner)
      && c.stack / PAGE_SIZE !in own
    ensures c.ownSpace ==>
        c.cr3 / PAGE_SIZE in HandFrames(b.owner) && c.cr3 / PAGE_SIZE !in own
            && c.cr3 / PAGE_SIZE != c.stack / PAGE_SIZE
    ensures !c.ownSpace ==> own == map[]
  {
  }

  lemma SameNewTask(b: Books, t: nat, c: Tasks.Struct, c': Tasks.Struct, own: map<nat, Pos>)
    requires NewTask(b, t, c, own) && c'.cr3 == c.cr3 && c'.stack == c.stack && c'.ownSpace == c.ownSpace
    ensures NewTask(b, t, c', own)
  {
  }

  lemma PageAddress(f: nat)
    ensures (f * PAGE_SIZE) / PAGE_SIZE == f && (f * PAGE_SIZE) % PAGE_SIZE == 0 && (f != 0 ==> f * PAGE_SIZE != 0)
  {
  }

  // ---------------------------------------------------------------- start

  /** Owners when the heap is up and no task exists: arenas are heap, all other used frames are
      reserved. */
  function BootOwners(frames: nat, free: set<nat>, arenaFrames: set<nat>): Owners {
    map f: nat | f < frames && f !in free :: if f in arenaFrames then HeapArena else Reserved
  }

  ghost function ArenaFrames(frames: nat, arenas: seq<Heap.Arena>): set<nat> {
    set f: nat | f < frames && InArena(arenas, f)
  }

  /** The boot page tables are in use and not in the heap. */
  ghost predicate BootTables(mem: Memory, kernel: nat, free: set<nat>, arenas: seq<Heap.Arena>) {
    forall d, p, f | d <= 3 && Node(mem, kernel, d, p) == Some(f) ::
        IsTable(mem, f) && f !in free && !InArena(arenas, f)
  }

  lemma BootBooks(mem: Memory, free: set<nat>, arenas: seq<Heap.Arena>, kernel: nat)
    requires BootTables(mem, kernel, free, arenas)
    requires forall f | f in free :: f < |mem|
    requires forall k | 0 <= k < |arenas| ::
        Heap.Frames(arenas[k]) !! free && (forall f | f in Heap.Frames(arenas[k]) :: f < |mem|)
    ensures var owner := BootOwners(|mem|, free, ArenaFrames(|mem|, arenas));
      BooksOk(Books(mem, free, map[], arenas, owner, kernel)) && HandFrames(owner) == {}
  {
    hide Node, Heap.Frames, BooksOk;
    var owner := BootOwners(|mem|, free, ArenaFrames(|mem|, arenas));
    var b := Books(mem, free, map[], arenas, owner, kernel);
    forall f: nat ensures f in owner.Keys + free <==> f < |mem| { }
    forall f: nat | InArena(arenas, f) ensures f < |mem| && f !in free {
      var k :| 0 <= k < |arenas| && f in Heap.Frames(arenas[k]);
    }
    assert HeapOwned(b);
    forall f | f in owner ensures OwnerLive(b, f) { }
    assert KernelTables(b);
    BooksWhole(b);
  }

  /** The structures of the bootstrap task and of the idle task. */
  lemma FirstTasks(b: Books, store: Tasks.Store, boot: nat, idle: nat, stack: nat)
    requires BooksOk(b) && b.store == map[] && store.Keys == {boot, idle} && boot != idle
    requires IsPayload(b.arenas, boot) && IsPayload(b.arenas, idle) && stack % PAGE_SIZE == 0 && stack != 0
    requires HandFrames(b.owner) == {stack / PAGE_SIZE}
    requires store[boot].stack == 0 && !store[boot].ownSpace && store[boot].cr3 == b.kernel * PAGE_SIZE
    requires store[idle].stack == stack && !store[idle].ownSpace && store[idle].cr3 == b.kernel * PAGE_SIZE
    ensures var owner := b.owner[stack / PAGE_SIZE := KernelStack(idle)];
      BooksOk(b.(store := store, owner := owner)) && HandFrames(owner) == {}
  {
    hide BooksOk, IsPayload, InArena, Node;
    BooksParts(b);
    var owner := b.owner[stack / PAGE_SIZE := KernelStack(idle)];
    var b' := b.(store := store, owner := owner);
    assert stack / PAGE_SIZE in HandFrames(b.owner);
    forall f | f in owner ensures owner[f] != InHand {
      assert f in b.owner ==> (b.owner[f] == InHand ==> f in HandFrames(b.owner));
    }
    LabelHeap(b, b');
    LabelKernel(b, b');
    PageAddress(b.kernel);
    forall t | t in store ensures TaskOwns(store[t], t, owner) { }
    forall f | f in owner ensures OwnerLive(b', f) { if f != stack / PAGE_SIZE { assert OwnerLive(b, f); } }
    BooksWhole(b');
  }

  /** From a memory map with a working heap to a running scheduler: `scheduler_init`. */
  method SchedulerInit(res: Resources) returns (k: Outcome<KernelState>)
    requires res.Working(map[]) && HandFrames(res.owner) == {} && res.kernel != 0
    modifies res`owner, res.pmm`freeFrames, res.pmm`free, res.pmm.bitmap, res.heap`cells, res.heap`arenas
    ensures k.Halted? ==> res.pmm.free == {}
    ensures k.Done? ==> k.value.res == res && fresh(k.value) && fresh(k.value.tasks) && k.value.Valid()
    ensures k.Done? ==> exists boot, idle :: boot in k.value.tasks.store && idle in k.value.tasks.store
                          && k.value.tasks.sys == Lifecycle.Boot(boot, idle, res.kernel * PAGE_SIZE)
  {
    hide res.pmm.Valid, res.heap.Shape, BooksOk, IsPayload, HandFrames, Lifecycle.Inv, Lifecycle.Boot,
         Tasks.TaskTable.Valid, Tasks.TaskTable.Represents;
    var f := FirstMemory(res);
    if f.Halted? { return Halted; }
    var boot, idle, stack := f.value.0, f.value.1, f.value.2;
    ghost var b := res.TheBooks(map[]);
    PageAddress(res.kernel);
    var tasks := new Tasks.TaskTable(boot, idle, stack, res.kernel * PAGE_SIZE);
    FirstTasks(b, tasks.store, boot, idle, stack);
    res.owner := res.owner[stack / PAGE_SIZE := KernelStack(idle)];
    var state := new KernelState(res, tasks);
    k := Done(state);
  }

  /** The same from what boot leaves behind: a frame allocator, page tables in use outside the heap,
      and a heap with its first arena. */
  method StartKernel(pmm: Pmm.FrameAllocator, machine: Machine, heap: Heap.KernelHeap, kernel: nat)
      returns (k: Outcome<KernelState>)
    requires machine.pmm == pmm && heap.pmm == pmm && machine.Valid() && heap.Valid() && kernel != 0
      && pmm.frameCount <= ADDR_FRAMES
    requires BootTables(machine.mem, kernel, pmm.free, heap.arenas)
    requires forall i, f | 0 <= i < |heap.arenas| && f in Heap.Frames(heap.arenas[i]) :: f < pmm.frameCount
    modifies pmm`freeFrames, pmm`free, pmm.bitmap, heap`cells, heap`arenas
    ensures k.Halted? ==> pmm.free == {}
    ensures k.Done? ==>
        && k.value.Valid() && k.value.res.pmm == pmm && k.value.res.machine == machine && k.value.res.heap == heap
        && k.value.res.kernel == kernel && fresh(k.value) && fresh(k.value.res) && fresh(k.value.tasks)
    ensures k.Done? ==> exists boot, idle :: boot in k.value.tasks.store && idle in k.value.tasks.store
                          && k.value.tasks.sys == Lifecycle.Boot(boot, idle, kernel * PAGE_SIZE)
  {
    hide pmm.Valid, heap.Shape, BooksOk, BootTables, Heap.Frames, KernelState.Valid;
    pmm.FreeInRange();
    BootBooks(machine.mem, pmm.free, heap.arenas, kernel);
    var res := new Resources(pmm, machine, heap, kernel,
        BootOwners(|machine.mem|, pmm.free, ArenaFrames(|machine.mem|, heap.arenas)));
    k := SchedulerInit(res);
  }

  /** Memory for the first two tasks: two structures and the stack of the idle task. */
  method FirstMemory(res: Resources) returns (r: Outcome<(nat, nat, nat)>)
    requires res.Working(map[]) && HandFrames(res.owner) == {}
    modifies res`owner, res.pmm`freeFrames, res.pmm`free, res.pmm.bitmap, res.heap`cells, res.heap`arenas
    ensures r.Halted? ==> res.pmm.free == {}
    ensures r.Done? ==> var (boot, idle, stack) := r.value;
              && res.Working(map[]) && HandFrames(res.owner) == {stack / PAGE_SIZE} && stack % PAGE_SIZE == 0
              && stack != 0
              && IsPayload(res.heap.arenas, boot) && IsPayload(res.heap.arenas, idle) && boot != idle && boot != 0
              && idle != 0
  {
    hide res.pmm.Valid, res.heap.Shape, BooksOk, IsPayload, Underway, HandFrames, PayloadsKept, HeapAll;
    ghost var owner0, free0 := res.owner, res.pmm.free;
    UnderwayStart(res.TheBooks(map[]));
    var boot := res.AllocStruct(map[]);
    if boot.Halted? { return Halted; }
    UnderwayHeap(owner0, free0, owner0, free0, res.pmm.free);
    ghost var owner1, free1, arenas1 := res.owner, res.pmm.free, res.heap.arenas;
    var idle := res.AllocStruct(map[]);
    if idle.Halted? { return Halted; }
    UnderwayHeap(owner0, free0, owner1, free1, res.pmm.free);
    StillPayload(arenas1, res.heap.arenas, boot.value);
    ghost var owner2, free2 := res.owner, res.pmm.free;
    var stack := res.TakeFrame(map[]);
    if stack.Halted? { return Halted; }
    UnderwayOne(owner0, free0, owner2, free2, stack.value / PAGE_SIZE);
    r := Done((boot.value, idle.value, stack.value));
  }

  lemma StillPayload(arenas: seq<Heap.Arena>, arenas': seq<Heap.Arena>, a: nat)
    requires PayloadsKept(arenas, arenas') && IsPayload(arenas, a)
    ensures IsPayload(arenas', a)
  {
  }

  // ---------------------------------------------------------------- conservation over runs

  /** What an operation of `KernelState` does to the frames: the creation of a task, a rejected
      executable, the reaping of a task, or nothing. A creation may lose frames. */
  datatype Event = Created(t: nat, lost: set<nat>) | RejectedFile | ReapedTask(t: nat) | Quiet

  ghost predicate Moves(owner: Owners, free: set<nat>, e: Event, owner': Owners, free': set<nat>) {
    match e
    case Created(t, lost) => Gained(owner, free, owner', free', t, lost)
    case RejectedFile => free' <= free && owner' == owner + HeapAll(free - free')
    case ReapedTask(t) => owner' == owner - TaskFrames(owner, t) && free' == free + TaskFrames(owner, t)
    case Quiet => owner' == owner && free' == free
  }

  /** The states of a run, one more than its events. */
  ghost predicate FrameRun(owners: seq<Owners>, frees: seq<set<nat>>, events: seq<Event>) {
    && |owners| == |events| + 1 && |frees| == |events| + 1
    && owners[0].Keys !! frees[0]
    && forall i | 0 <= i < |events| :: Moves(owners[i], frees[i], events[i], owners[i + 1], frees[i + 1])
  }

  /** Tasks created among the first `n` events and not reaped since. */
  function Alive(events: seq<Event>, n: nat): set<nat>
    requires n <= |events|
  {
    if n == 0 then {} else
    match events[n - 1]
    case Created(t, _) => Alive(events, n - 1) + {t}
    case ReapedTask(t) => Alive(events, n - 1) - {t}
    case _ => Alive(events, n - 1)
  }

  /** The frames that were lost in the first `n` events. */
  function LostIn(events: seq<Event>, n: nat): set<nat>
    requires n <= |events|
  {
    if n == 0 then {} else LostIn(events, n - 1) + (if events[n - 1].Created? then events[n - 1].lost else {})
  }

  /** Only tasks of this run are reaped in it. */
  ghost predicate OwnReaps(events: seq<Event>) {
    forall i | 0 <= i < |events| && events[i].ReapedTask? :: events[i].t in Alive(events, i)
  }

  /** Where the frames are after `n` events: those owned at the start have the owner they had;
      those free at the start are free, heap, lost, or owned by a task of this run that is
      alive. */
  ghost predicate Placed(owners: seq<Owners>, frees: seq<set<nat>>, events: seq<Event>, n: nat)
    requires n < |owners| && n < |frees| && n <= |events| && |owners| > 0 && |frees| > 0
  {
    && owners[n].Keys + frees[n] == owners[0].Keys + frees[0] && owners[n].Keys !! frees[n]
    && (forall f | f in owners[0] :: f in owners[n] && owners[n][f] == owners[0][f])
    && (forall f | f in owners[n] && f !in owners[0] ::
          owners[n][f] == HeapArena || f in LostIn(events, n)
              || exists t :: t in Alive(events, n) && OfTask(owners[n][f], t))
    && (forall f | f in LostIn(events, n) :: f in frees[0] && f in owners[n] && owners[n][f] == Lost)
    && (forall t | t in Alive(events, n) :: TaskFrames(owners[0], t) == {})
  }

  lemma {:induction false} RunPlaces(owners: seq<Owners>, frees: seq<set<nat>>, events: seq<Event>, n: nat)
    requires FrameRun(owners, frees, events) && OwnReaps(events) && n <= |events|
    ensures Placed(owners, frees, events, n)
  {
    hide FrameRun, OwnReaps, Placed, Alive, LostIn;
    RunLengths(owners, frees, events);
    if n == 0 {
      PlacedStart(owners, frees, events);
    } else {
      RunPlaces(owners, frees, events, n - 1);
      PlacedStep(owners, frees, events, n - 1);
    }
  }

  lemma PlacedStart(owners: seq<Owners>, frees: seq<set<nat>>, events: seq<Event>)
    requires |owners| > 0 && |frees| > 0 && owners[0].Keys !! frees[0]
    ensures Placed(owners, frees, events, 0)
  {
  }

  lemma NoneAtStart(owner0: Owners, owner: Owners, t: nat)
    requires (forall f | f in owner0 :: f in owner && owner[f] == owner0[f]) && TaskFrames(owner, t) == {}
    ensures TaskFrames(owner0, t) == {}
  {
    forall f | f in owner0 ensures !OfTask(owner0[f], t) { assert f !in TaskFrames(owner, t); }
  }

  lemma PlacedStep(owners: seq<Owners>, frees: seq<set<nat>>, events: seq<Event>, n: nat)
    requires n < |events| && FrameRun(owners, frees, events) && OwnReaps(events) && Placed(owners, frees, events, n)
    ensures Placed(owners, frees, events, n + 1)
  {
    hide Moves, Alive, LostIn, TaskFrames;
    var o, o', e := owners[n], owners[n + 1], events[n];
    assert Moves(o, frees[n], e, o', frees[n + 1]);
    AliveStep(events, n);
    StepTotal(o, frees[n], e, o', frees[n + 1]);
    StepStart(owners[0], o, frees[n], e, o', frees[n + 1]);
    forall f | f in o' && f !in owners[0]
      ensures o'[f] == HeapArena || f in LostIn(events, n + 1)
        || exists t :: t in Alive(events, n + 1) && OfTask(o'[f], t)
    {
      StepFrame(o, frees[n], e, o', frees[n + 1], f);
      if f in o && o'[f] == o[f] && o[f] != HeapArena && f !in LostIn(events, n) {
        var t :| t in Alive(events, n) && OfTask(o[f], t);
        assert t in Alive(events, n + 1) && OfTask(o'[f], t);
      }
      if e.Created? && OfTask(o'[f], e.t) { assert e.t in Alive(events, n + 1); }
    }
    forall f | f in LostIn(events, n + 1) ensures f in frees[0] && f in o' && o'[f] == Lost {
      StepLost(o, frees[n], e, o', frees[n + 1], f);
    }
    if e.Created? { NoneAtStart(owners[0], o, e.t); }
  }

  lemma AliveStep(events: seq<Event>, n: nat)
    requires n < |events|
    ensures var e := events[n];
      && Alive(events, n + 1) == (match e case Created(t, _) => Alive(events, n) + {t}
                                          case ReapedTask(t) => Alive(events, n) - {t} case _ => Alive(events, n))
      && LostIn(events, n + 1) == LostIn(events, n) + (if e.Created? then e.lost else {})
  {
  }

  /** A move creates and destroys no frame. */
  lemma StepTotal(owner: Owners, free: set<nat>, e: Event, owner': Owners, free': set<nat>)
    requires Moves(owner, free, e, owner', free') && owner.Keys !! free
    ensures owner'.Keys + free' == owner.Keys + free && owner'.Keys !! free'
    ensures e.Created? ==> TaskFrames(owner, e.t) == {}
  {
  }

  /** Where a frame may be after a move: with its old owner, which is not a task that was reaped,
      or, if it was free, with the heap, the new task, or lost. */
  lemma StepFrame(owner: Owners, free: set<nat>, e: Event, owner': Owners, free': set<nat>, f: nat)
    requires Moves(owner, free, e, owner', free') && owner.Keys !! free && f in owner'
    ensures f in owner ==> owner'[f] == owner[f] && !(e.ReapedTask? && OfTask(owner[f], e.t))
    ensures f !in owner ==> owner'[f] == HeapArena || (e.Created? && (f in e.lost || OfTask(owner'[f], e.t)))
  {
  }

  lemma StepLost(owner: Owners, free: set<nat>, e: Event, owner': Owners, free': set<nat>, f: nat)
    requires Moves(owner, free, e, owner', free') && owner.Keys !! free
    ensures f in owner && owner[f] == Lost ==> f in owner' && owner'[f] == Lost
    ensures e.Created? && f in e.lost ==> f in free && f in owner' && owner'[f] == Lost
  {
  }

  /** What had an owner at the start keeps it, since only tasks of the run are reaped. */
  lemma StepStart(owner0: Owners, owner: Owners, free: set<nat>, e: Event, owner': Owners, free': set<nat>)
    requires Moves(owner, free, e, owner', free') && forall f | f in owner0 :: f in owner && owner[f] == owner0[f]
    requires owner.Keys !! free && (e.ReapedTask? ==> TaskFrames(owner0, e.t) == {})
    ensures forall f | f in owner0 :: f in owner' && owner'[f] == owner0[f]
  {
    forall f | f in owner0 ensures f in owner' && owner'[f] == owner0[f] {
      if e.ReapedTask? { assert f in TaskFrames(owner, e.t) <==> f in TaskFrames(owner0, e.t); }
    }
  }

  /** A run in which every task that was created has been reaped leaves the free set as it was,
      but for frames that became heap arenas and frames that were lost. */
  lemma FramesComeBack(owners: seq<Owners>, frees: seq<set<nat>>, events: seq<Event>)
    requires FrameRun(owners, frees, events) && OwnReaps(events)
    requires Alive(events, |events|) == {}
    ensures frees[|events|] <= frees[0]
    ensures LostIn(events, |events|) <= frees[0] - frees[|events|]
    ensures forall f | f in frees[0] - frees[|events|] && f !in LostIn(events, |events|) ::
      f in owners[|events|] && owners[|events|][f] == HeapArena
    ensures forall f | f in owners[0] :: f in owners[|events|] && owners[|events|][f] == owners[0][f]
  {
    hide FrameRun, OwnReaps, Alive, LostIn;
    RunLengths(owners, frees, events);
    RunPlaces(owners, frees, events, |events|);
    forall f | f in frees[|events|] ensures f in frees[0] { assert f in owners[0].Keys + frees[0]; }
    forall f | f in frees[0] - frees[|events|] ensures f in owners[|events|] && f !in owners[0] {
      assert f in owners[|events|].Keys + frees[|events|];
    }
  }

  lemma RunLengths(owners: seq<Owners>, frees: seq<set<nat>>, events: seq<Event>)
    requires FrameRun(owners, frees, events)
    ensures |owners| == |events| + 1 && |frees| == |events| + 1 && owners[0].Keys !! frees[0]
  {
  }

  /** None of the frames of the current task is among those that a reap gives back: not the PML4, the
      tables and the pages of its user half, nor its kernel stack; and not the PML4 it runs on. */
  lemma ActiveKept(b: Books, cur: nat, z: nat)
    requires BooksOk(b) && cur in b.store && z != cur
    ensures b.store[cur].stack != 0 ==> b.store[cur].stack / PAGE_SIZE !in TaskFrames(b.owner, z)
    ensures b.store[cur].cr3 / PAGE_SIZE !in TaskFrames(b.owner, z)
    ensures TaskFrames(b.owner, cur) !! TaskFrames(b.owner, z)
  {
    hide UserSpaces, KernelTables, HeapOwned, StructsLive;
    assert TaskOwns(b.store[cur], cur, b.owner);
    KernelReady(b);
    PageAddress(b.kernel);
  }

  /** What a program sees is not changed by an operation that leaves owned frames alone: its page
      walk and the contents of its pages are the same. */
  lemma SpaceUntouched(b: Books, t: nat, mem: Memory)
    requires BooksOk(b) && t in b.store && b.store[t].ownSpace && HandFrames(b.owner) == {}
      && Stable(b.owner, b.mem, mem)
    ensures var root := b.store[t].cr3 / PAGE_SIZE;
      && (forall q :: Leaf(mem, root, q) == Leaf(b.mem, root, q))
      && (forall q | Lower(4, q) && Leaf(mem, root, q).flags.present :: SameFrame(b.mem, mem, Leaf(mem, root, q).frame))
  {
    hide BooksOk, Node, Slot, Lower, Owns, KernelHalf, TasksOwn, UserSpaces, TaskOwns, SameFrame;
    BooksParts(b);
    var root := b.store[t].cr3 / PAGE_SIZE;
    forall f | f in b.owner ensures SameFrame(b.mem, mem, f) { assert f !in HandFrames(b.owner); }
    SpaceAt(b, t);
    forall d: nat, p: nat, f: nat | d <= 3 && Node(b.mem, root, d, p) == Some(f) && f < |b.mem|
      ensures mem[f] == b.mem[f] {
      SpaceTables(b, t, d, p, f);
      FrameSame(b.mem, mem, f);
    }
    UnreachedWrite(b.mem, mem, root);
    forall q: nat | Lower(4, q) && Leaf(mem, root, q).flags.present
      ensures SameFrame(b.mem, mem, Leaf(mem, root, q).frame) {
      NodeUnfold(b.mem, root, 3, q);
      OwnedPos(b.mem, root, SpaceOf(b.owner, t), 4, q, Leaf(b.mem, root, q).frame);
    }
  }

  lemma FrameSame(mem: Memory, mem': Memory, f: nat)
    requires SameFrame(mem, mem', f)
    ensures f < |mem| && f < |mem'| && mem'[f] == mem[f]
  {
  }

  // ---------------------------------------------------------------- consequences

  /** What the program of a process made from an ELF file sees at every user address: a zeroed
      stack of 16 KB it may write but not execute; elsewhere the bytes of the last segment on the
      page, with its rights; and nothing else. */
  lemma ProcessView(mem: Memory, root: nat, own: map<nat, Pos>, file: seq<byte>, a: nat)
    requires Owns(mem, root, own) && Loaded(mem, root, file) && a < 0x8000_0000_0000
    ensures var segs := ElfFormat.Segments(file); var v := a / PAGE_SIZE;
      if 0x6FFF_C000 <= a < 0x7000_0000
      then Elf.WalkByte(mem, root, a) == Some(0) && Elf.WalkRights(mem, root, v) == Elf.Rights(true, true, false)
      else
        && (forall i: nat | Elf.LastToTouch(segs, i, v) :: Elf.Shows(mem, root, a, file, segs[i]))
        && (Elf.Untouched(segs, v) ==> Elf.WalkByte(mem, root, a) == None)
  {
    hide Owns, Lower, PathPos, Node, ElfFormat.Segments, ElfFormat.HeaderOk, ElfFormat.Readable, Vpn, Elf.Untouched,
        Elf.Shows, Elf.HoldsPage;
    var segs, v := ElfFormat.Segments(file), a / PAGE_SIZE;
    Elf.UserAddress(a);
    assert OnStack(v, ELF_STACK_PAGES) <==> 0x6FFF_C000 <= a < 0x7000_0000;
    if OnStack(v, ELF_STACK_PAGES) {
      assert StackPage(mem, root, v);
      Elf.UserWalk(mem, root, own, v);
    } else {
      forall i: nat | Elf.LastToTouch(segs, i, v) ensures Elf.Shows(mem, root, a, file, segs[i]) {
        assert Elf.HoldsPage(mem, root, file, segs[i], v);
        Elf.PageShows(mem, root, own, file, segs[i], a);
      }
    }
  }

  /** The same for a process of `task_create_user`: the code at 0x40_0000, which it may execute but
      not write, one zeroed stack page at 0x80_0000 with the opposite rights, and nothing else. */
  lemma UserView(mem: Memory, root: nat, own: map<nat, Pos>, code: seq<byte>, a: nat)
    requires Owns(mem, root, own) && UserImage(mem, root, code) && a < 0x8000_0000_0000
    ensures
      if 0x40_0000 <= a < 0x40_1000
      then Elf.WalkByte(mem, root, a).Some? && Elf.WalkRights(mem, root, a / PAGE_SIZE) == Elf.Rights(true, false, true)
        && (a - 0x40_0000 < |code| ==> Elf.WalkByte(mem, root, a) == Some(code[a - 0x40_0000]))
      else if 0x80_0000 <= a < 0x80_1000
      then Elf.WalkByte(mem, root, a) == Some(0)
        && Elf.WalkRights(mem, root, a / PAGE_SIZE) == Elf.Rights(true, true, false)
      else Elf.WalkByte(mem, root, a) == None
  {
    hide Owns, Lower, PathPos, Node, Vpn;
    var v := a / PAGE_SIZE;
    Elf.UserAddress(a);
    if v == 0x400 || v == 0x800 { Elf.UserWalk(mem, root, own, v); }
    if v == 0x400 {
      assert CodePage(mem, root, v, code);
      var bytes := mem[Leaf(mem, root, v).frame].bytes;
      if a - 0x40_0000 < |code| { assert bytes[..|code|][a % PAGE_SIZE] == code[a % PAGE_SIZE]; }
    }
  }

  /** The kernel stacks of the tasks are disjoint, as the context switch needs it. */
  lemma KernelStacksApart(b: Books)
    requires BooksOk(b)
    ensures ContextSwitch.DisjointStacks(map t | t in b.store && b.store[t].stack != 0 :: b.store[t].stack)
  {
    hide UserSpaces, KernelTables, HeapOwned, StructsLive, Accounted, OwnersLive;
    forall t, u | t in b.store && u in b.store && t != u && b.store[t].stack != 0 && b.store[u].stack != 0
      ensures b.store[t].stack + PAGE_SIZE <= b.store[u].stack || b.store[u].stack + PAGE_SIZE <= b.store[t].stack
    {
      assert TaskOwns(b.store[t], t, b.owner) && TaskOwns(b.store[u], u, b.owner);
    }
  }
}
