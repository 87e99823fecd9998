/** Which frames the user half of an address space owns. */
module Ownership {
  import opened Base
  import opened PageTables

  /** Positions under PML4 entries 0-255, the user half. */
  predicate Lower(d: nat, p: nat) {
    1 <= d <= 4 && Up(p, d - 1) < 256
  }

  /** Flags that `MapPageIn` gives to the intermediate entries of user mappings. */
  const USER_TABLE := NO_FLAGS.(present := true, writable := true, user := true)

  /** `own` holds exactly the frames of the user half, each with its one position: page tables
      at depths 1-3 and mapped pages at depth 4. Since `own` is a function of the frame, no
      frame is reached twice. The kernel half shares nothing with it. */
  ghost predicate Owns(mem: Memory, root: nat, own: map<nat, Pos>) {
    && AllOwned(mem, root, own)
    && (forall f | f in own :: OwnedAt(mem, root, f, own[f]))
    && IsTable(mem, root) && root !in own && 0 !in own
    && KernelApart(mem, root, own)
    && UserTables(mem, root)
  }

  ghost predicate AllOwned(mem: Memory, root: nat, own: map<nat, Pos>) {
    forall d, p, f | Lower(d, p) && Node(mem, root, d, p) == Some(f) :: f in own && own[f] == Pos(d, p)
  }

  ghost predicate KernelApart(mem: Memory, root: nat, own: map<nat, Pos>) {
    forall d, p, f | 1 <= d <= 3 && !Lower(d, p) && Node(mem, root, d, p) == Some(f) ::
      IsTable(mem, f) && f !in own && f != root
  }

  ghost predicate UserTables(mem: Memory, root: nat) {
    forall d: nat, p: nat | d <= 2 && Lower(d + 1, p) ::
      Slot(mem, root, d, p) == EMPTY || Slot(mem, root, d, p).flags == USER_TABLE
  }

  ghost predicate OwnedAt(mem: Memory, root: nat, f: nat, pos: Pos) {
    && Lower(pos.depth, pos.index)
    && Node(mem, root, pos.depth, pos.index) == Some(f)
    && (if pos.depth == 4 then IsPage(mem, f) else IsTable(mem, f))
  }

  /** Nothing that the address space is made of is free. */
  ghost predicate InUse(mem: Memory, root: nat, own: map<nat, Pos>, free: set<nat>) {
    && root !in free && own.Keys !! free
    && forall d, p, f | 1 <= d <= 3 && !Lower(d, p) && Node(mem, root, d, p) == Some(f) :: f !in free
  }

  lemma OwnsReady(mem: Memory, root: nat, own: map<nat, Pos>, free: set<nat>, vpn: nat)
    requires Owns(mem, root, own) && InUse(mem, root, own, free)
    requires Lower(4, vpn)
    ensures Ready(mem, root, free)
    ensures PathPrivate(mem, root, vpn)
  {
    hide Slot, Lower, Up, PathPos, IsTable, IsPage, UserTables;
    forall d: nat, p: nat, f | d <= 3 && Node(mem, root, d, p) == Some(f) ensures IsTable(mem, f) && f !in free {
      if d > 0 && Lower(d, p) { assert OwnedAt(mem, root, f, own[f]); }
    }
    forall d | 0 <= d <= 3 && Node(mem, root, d, PathPos(vpn, d)).Some? ensures Private(mem, root, d, PathPos(vpn, d)) {
      if d > 0 { PathLower(vpn, d); }
      OwnsPrivate(mem, root, own, d, PathPos(vpn, d));
    }
  }

  /** The tables of the user half, and the PML4 itself, are reached at one position only. */
  lemma OwnsPrivate(mem: Memory, root: nat, own: map<nat, Pos>, d: nat, p: nat)
    requires Owns(mem, root, own) && d <= 3 && (d > 0 ==> Lower(d, p)) && Node(mem, root, d, p).Some?
    ensures Private(mem, root, d, p)
  {
    hide Slot, Lower, Up, IsTable, IsPage, UserTables, OwnedAt;
    var f := Node(mem, root, d, p).value;
    forall d', p' | d' <= 3 && Node(mem, root, d', p') == Some(f) ensures d' == d && p' == p {
      if d > 0 { assert f in own; }
      if d' > 0 && Lower(d', p') { assert f in own; }
    }
  }

  lemma {:induction false} UpUp(p: nat, j: nat, k: nat)
    ensures Up(Up(p, j), k) == Up(p, j + k)
  {
    if j == 0 {
    } else {
      UpUp(p / 512, j - 1, k);
    }
  }

  /** The tables on the walk to a user page belong to the user half. */
  lemma PathLower(vpn: nat, d: nat)
    requires Lower(4, vpn) && 1 <= d <= 4
    ensures Lower(d, PathPos(vpn, d))
  {
    UpUp(vpn, 4 - d, d - 1);
  }

  // ---------------------------------------------------------------- mapping a page

  lemma NodeRoot(mem: Memory, root: nat)
    ensures Node(mem, root, 0, 0) == Some(root)
  {
  }

  lemma NodeUnfold(mem: Memory, root: nat, d: nat, p: nat)
    ensures Node(mem, root, d + 1, p) == Target(d, Slot(mem, root, d, p))
    ensures Node(mem, root, 4, p) == if Leaf(mem, root, p).flags.present then Some(Leaf(mem, root, p).frame) else None
  {
  }

  /** Nodes after a user page was mapped: the added tables and the page itself are new. */
  lemma NodesMapped(mem0: Memory, free0: set<nat>, mem: Memory, free: set<nat>, root: nat,
                    vpn: nat, leaf: Pte, added: map<nat, Pos>, d: nat, p: nat, f: nat)
    requires MapSlots(mem0, mem, root, vpn, true, 3, Some(leaf)) && leaf.flags.present
    requires MapNodes(mem0, free0, mem, free, root, vpn, added, 3)
    requires d <= 4
    ensures Node(mem, root, d, p) == Some(f) <==>
      (if d == 4 && p == vpn then f == leaf.frame
       else Node(mem0, root, d, p) == Some(f) || (d <= 3 && f in added && added[f] == Pos(d, p)))
  {
    hide Node, Slot;
    NodeUnfold(mem, root, d, p);
    NodeUnfold(mem0, root, d, p);
  }

  /** A mapping leaves the contents of pages alone. */
  lemma PageKept(mem0: Memory, free0: set<nat>, mem: Memory, free: set<nat>, root: nat,
                 vpn: nat, added: map<nat, Pos>, f: nat)
    requires Ready(mem0, root, free0) && IsPage(mem0, f) && f !in free0
    requires MapNodes(mem0, free0, mem, free, root, vpn, added, 3) && MapFrames(mem0, mem, root, vpn)
    ensures IsPage(mem, f) && mem[f] == mem0[f]
  {
    hide Node, Slot, PathPos;
    assert !OnPath(mem, root, vpn, f);
  }

  lemma UserTablesMapped(mem0: Memory, mem: Memory, root: nat, vpn: nat, leaf: Pte)
    requires UserTables(mem0, root) && MapSlots(mem0, mem, root, vpn, true, 3, Some(leaf))
    ensures UserTables(mem, root)
  {
    hide Node, Slot, PathPos;
  }

  /** No huge page is in the way of a user mapping. */
  lemma NoHugeOnPath(mem: Memory, root: nat, vpn: nat)
    requires UserTables(mem, root) && Lower(4, vpn)
    ensures !Slot(mem, root, 1, PathPos(vpn, 2)).flags.huge && !Slot(mem, root, 2, PathPos(vpn, 3)).flags.huge
  {
    PathLower(vpn, 2);
    PathLower(vpn, 3);
  }

  /** The owned frame at one position, if any. */
  function At(own: map<nat, Pos>, pos: Pos): set<nat> {
    set f | f in own && own[f] == pos
  }

  /** What the space keeps when page `vpn` is mapped again: everything but the frame that the page
      was mapped to. */
  function Kept(own: map<nat, Pos>, vpn: nat): map<nat, Pos> {
    own - At(own, Pos(4, vpn))
  }

  lemma AtIsNode(mem: Memory, root: nat, own: map<nat, Pos>, vpn: nat)
    requires Owns(mem, root, own) && Lower(4, vpn)
    ensures match Node(mem, root, 4, vpn) case None => At(own, Pos(4, vpn)) ==
        {} case Some(f) => At(own, Pos(4, vpn)) == {f}
    ensures Node(mem, root, 4, vpn) == None ==> Kept(own, vpn) == own
  {
    hide Node, Lower, KernelApart, UserTables;
    forall f | f in At(own, Pos(4, vpn)) ensures Node(mem, root, 4, vpn) == Some(f) {
      assert OwnedAt(mem, root, f, own[f]);
    }
  }

  /** A user page was mapped in a space that owned `own`: what is known before and after. */
  ghost predicate PageMapped(mem0: Memory, free0: set<nat>, mem: Memory, free: set<nat>, root: nat,
                             own: map<nat, Pos>, vpn: nat, leaf: Pte, added: map<nat, Pos>) {
    && Owns(mem0, root, own) && InUse(mem0, root, own, free0)
    && Lower(4, vpn)
    && IsPage(mem0, leaf.frame) && leaf.frame !in free0 && leaf.frame !in own && leaf.frame != 0 && 0 !in free0
    && leaf.flags.user && leaf.flags.present
    && MapSlots(mem0, mem, root, vpn, true, 3, Some(leaf))
    && MapNodes(mem0, free0, mem, free, root, vpn, added, 3)
    && MapFrames(mem0, mem, root, vpn) && Ready(mem, root, free)
  }

  function Owned(own: map<nat, Pos>, added: map<nat, Pos>, frame: nat, vpn: nat): map<nat, Pos> {
    Kept(own, vpn) + added + map[frame := Pos(4, vpn)]
  }

  lemma AllOwnedMapped(mem0: Memory, free0: set<nat>, mem: Memory, free: set<nat>, root: nat,
                       own: map<nat, Pos>, vpn: nat, leaf: Pte, added: map<nat, Pos>)
    requires PageMapped(mem0, free0, mem, free, root, own, vpn, leaf, added)
    ensures AllOwned(mem, root, Owned(own, added, leaf.frame, vpn))
  {
    hide Node, Slot, Lower, Leaf, MapSlots, IsTable, IsPage, MapFrames, KernelApart, UserTables, Ready, PathPos;
    forall d: nat, p: nat, f | Lower(d, p) && Node(mem, root, d, p) == Some(f)
      ensures f in Owned(own, added, leaf.frame, vpn) && Owned(own, added, leaf.frame, vpn)[f] == Pos(d, p)
    {
      assert d <= 4 by { LowerDepth(d, p); }
      NodesMapped(mem0, free0, mem, free, root, vpn, leaf, added, d, p, f);
    }
  }

  lemma LowerDepth(d: nat, p: nat)
    requires Lower(d, p)
    ensures 1 <= d <= 4
  {
  }

  lemma OwnedAtMapped(mem0: Memory, free0: set<nat>, mem: Memory, free: set<nat>, root: nat,
                      own: map<nat, Pos>, vpn: nat, leaf: Pte, added: map<nat, Pos>, f: nat)
    requires PageMapped(mem0, free0, mem, free, root, own, vpn, leaf, added)
    requires f in Owned(own, added, leaf.frame, vpn)
    ensures OwnedAt(mem, root, f, Owned(own, added, leaf.frame, vpn)[f])
  {
    hide Node, Slot, Lower, PathPos, Leaf, MapSlots, MapFrames, KernelApart, UserTables, AllOwned, IsPage, IsTable,
        Ready;
    OwnsReady(mem0, root, own, free0, vpn);
    var pos := Owned(own, added, leaf.frame, vpn)[f];
    if f in own && f != leaf.frame && f !in added {
      assert OwnedAt(mem0, root, f, own[f]);
      LowerDepth(own[f].depth, own[f].index);
    } else if f in added {
      PathLower(vpn, added[f].depth);
    }
    NodesMapped(mem0, free0, mem, free, root, vpn, leaf, added, pos.depth, pos.index, f);
    if pos.depth == 4 {
      PageKept(mem0, free0, mem, free, root, vpn, added, f);
    } else {
      ReadyAt(mem, root, free, pos.depth, pos.index, f);
    }
  }

  lemma ReadyAt(mem: Memory, root: nat, free: set<nat>, d: nat, p: nat, f: nat)
    requires Ready(mem, root, free) && d <= 3 && Node(mem, root, d, p) == Some(f)
    ensures IsTable(mem, f)
  {
    hide Node;
  }

  lemma KernelApartMapped(mem0: Memory, free0: set<nat>, mem: Memory, free: set<nat>, root: nat,
                          own: map<nat, Pos>, vpn: nat, leaf: Pte, added: map<nat, Pos>)
    requires PageMapped(mem0, free0, mem, free, root, own, vpn, leaf, added)
    ensures KernelApart(mem, root, Owned(own, added, leaf.frame, vpn))
    ensures InUse(mem, root, Owned(own, added, leaf.frame, vpn), free)
  {
    hide Node, Slot, Up, PathPos, Leaf, MapSlots, MapFrames, UserTables, AllOwned;
    var own' := Owned(own, added, leaf.frame, vpn);
    forall d: nat, p: nat, f | 1 <= d <= 3 && !Lower(d, p) && Node(mem, root, d, p) == Some(f)
      ensures IsTable(mem, f) && f !in own' && f != root && f !in free
    {
      if f in added { PathLower(vpn, added[f].depth); }
      NodesMapped(mem0, free0, mem, free, root, vpn, leaf, added, d, p, f);
      assert Node(mem0, root, d, p) == Some(f);
    }
  }

  /** Ownership after a user page was mapped. */
  lemma OwnsMapped(mem0: Memory, free0: set<nat>, mem: Memory, free: set<nat>, root: nat,
                   own: map<nat, Pos>, vpn: nat, leaf: Pte, added: map<nat, Pos>)
    requires PageMapped(mem0, free0, mem, free, root, own, vpn, leaf, added)
    ensures Owns(mem, root, Owned(own, added, leaf.frame, vpn))
    ensures InUse(mem, root, Owned(own, added, leaf.frame, vpn), free)
  {
    hide Node, Slot, Up, PathPos, Leaf, MapSlots, MapFrames, UserTables, AllOwned, OwnedAt, KernelApart, InUse, IsPage;
    var own' := Owned(own, added, leaf.frame, vpn);
    AllOwnedMapped(mem0, free0, mem, free, root, own, vpn, leaf, added);
    forall f | f in own' ensures OwnedAt(mem, root, f, own'[f]) {
      OwnedAtMapped(mem0, free0, mem, free, root, own, vpn, leaf, added, f);
    }
    KernelApartMapped(mem0, free0, mem, free, root, own, vpn, leaf, added);
    UserTablesMapped(mem0, mem, root, vpn, leaf);
    RootApart(mem0, free0, mem, free, root, own, vpn, leaf, added);
  }

  lemma RootApart(mem0: Memory, free0: set<nat>, mem: Memory, free: set<nat>, root: nat,
                  own: map<nat, Pos>, vpn: nat, leaf: Pte, added: map<nat, Pos>)
    requires PageMapped(mem0, free0, mem, free, root, own, vpn, leaf, added)
    ensures IsTable(mem, root) && root !in Owned(own, added, leaf.frame, vpn)
      && 0 !in Owned(own, added, leaf.frame, vpn)
  {
    hide Node, Slot, PathPos, Lower, Leaf, MapSlots, MapFrames, MapNodes, Owns, Ready;
    NodeRoot(mem, root);
    ReadyAt(mem, root, free, 0, 0, root);
    OwnsRoot(mem0, root, own);
    AddedWasFree(mem0, free0, mem, free, root, vpn, added);
  }

  lemma AddedWasFree(mem0: Memory, free0: set<nat>, mem: Memory, free: set<nat>, root: nat, vpn: nat,
                     added: map<nat, Pos>)
    requires MapNodes(mem0, free0, mem, free, root, vpn, added, 3)
    ensures added.Keys <= free0
  {
    hide Node, PathPos;
  }

  function UserFlags(writable: bool, executable: bool): Flags {
    NO_FLAGS.(present := true, user := true, writable := writable, noExecute := !executable)
  }

  /** The whole effect of mapping a user page. */
  ghost predicate UserPageMapped(mem0: Memory, free0: set<nat>, mem: Memory, free: set<nat>, root: nat,
                                 own: map<nat, Pos>, own': map<nat, Pos>, vpn: nat, frame: nat,
                                 writable: bool, executable: bool) {
    && |mem| == |mem0| && free <= free0
    && Extends(Kept(own, vpn), own', map[frame := Pos(4, vpn)], free0 - free)
    && (forall q ::
          Leaf(mem, root, q) == if q == vpn then Pte(frame, UserFlags(writable, executable)) else Leaf(mem0, root, q))
    && (forall f | IsPage(mem0, f) && f !in free0 :: SameFrame(mem0, mem, f))
    && (forall f: nat | f < |mem0| && f !in own' && f != root :: SameFrame(mem0, mem, f))
    && Owns(mem, root, own') && InUse(mem, root, own', free)
    && SameKernelHalf(mem0, mem, root)
  }

  /** The tables of the kernel half are where they were. */
  ghost predicate SameKernelHalf(mem0: Memory, mem: Memory, root: nat) {
    forall d, p | 1 <= d <= 3 && !Lower(d, p) :: Node(mem, root, d, p) == Node(mem0, root, d, p)
  }

  lemma KernelHalfMapped(mem0: Memory, free0: set<nat>, mem: Memory, free: set<nat>, root: nat, vpn: nat, leaf: Pte,
                         added: map<nat, Pos>)
    requires Lower(4, vpn) && leaf.flags.present
    requires MapSlots(mem0, mem, root, vpn, true, 3, Some(leaf))
      && MapNodes(mem0, free0, mem, free, root, vpn, added, 3)
    ensures SameKernelHalf(mem0, mem, root)
  {
    hide Node, Slot, Lower, PathPos, MapSlots;
    forall d: nat, p: nat | 1 <= d <= 3 && !Lower(d, p) ensures Node(mem, root, d, p) == Node(mem0, root, d, p) {
      forall f: nat ensures Node(mem, root, d, p) == Some(f) <==> Node(mem0, root, d, p) == Some(f) {
        NodesMapped(mem0, free0, mem, free, root, vpn, leaf, added, d, p, f);
        if f in added { PathLower(vpn, added[f].depth); }
      }
    }
  }

  predicate SameFrame(mem0: Memory, mem: Memory, f: nat) {
    f < |mem0| && f < |mem| && mem[f] == mem0[f]
  }

  /** `own'` is `own`, the entries `new_`, and positions for the frames in `more`. */
  ghost predicate Extends(own: map<nat, Pos>, own': map<nat, Pos>, new_: map<nat, Pos>, more: set<nat>) {
    && own'.Keys == own.Keys + new_.Keys + more
    && (forall f | f in own && f !in new_ :: f in own' && own'[f] == own[f])
    && (forall f | f in new_ :: f in own' && own'[f] == new_[f])
  }

  lemma UserPageMappedBy(mem0: Memory, free0: set<nat>, mem: Memory, free: set<nat>, root: nat,
                         own: map<nat, Pos>, vpn: nat, frame: nat, writable: bool, executable: bool,
                             added: map<nat, Pos>)
    requires PageMapped(mem0, free0, mem, free, root, own, vpn, Pte(frame, UserFlags(writable, executable)), added)
    ensures UserPageMapped(mem0, free0, mem, free, root, own, Owned(own, added, frame, vpn), vpn, frame, writable,
        executable)
  {
    hide Node, Slot, PathPos, Leaf, UserTables, AllOwned, OwnedAt, KernelApart, IsTable, SameKernelHalf;
    var own' := Owned(own, added, frame, vpn);
    OwnsMapped(mem0, free0, mem, free, root, own, vpn, Pte(frame, UserFlags(writable, executable)), added);
    OwnsReady(mem0, root, own, free0, vpn);
    KernelHalfMapped(mem0, free0, mem, free, root, vpn, Pte(frame, UserFlags(writable, executable)), added);
    assert free0 - free == added.Keys;
    assert own'.Keys == Kept(own, vpn).Keys + {frame} + added.Keys;
    assert Extends(Kept(own, vpn), own', map[frame := Pos(4, vpn)], free0 - free);
    forall f: nat | IsPage(mem0, f) && f !in free0 ensures SameFrame(mem0, mem, f) {
      PageKept(mem0, free0, mem, free, root, vpn, added, f);
    }
    forall f: nat | f < |mem0| && f !in own' && f != root ensures SameFrame(mem0, mem, f) {
      if OnPath(mem, root, vpn, f) { OnPathOwned(mem, root, own', vpn, f); }
    }
  }

  lemma OnPathOwned(mem: Memory, root: nat, own: map<nat, Pos>, vpn: nat, f: nat)
    requires Owns(mem, root, own) && Lower(4, vpn) && OnPath(mem, root, vpn, f)
    ensures f in own || f == root
  {
    hide Slot, Lower, PathPos;
    PathLower(vpn, 1);
    PathLower(vpn, 2);
    PathLower(vpn, 3);
    assert PathPos(vpn, 0) == 0 || Node(mem, root, 0, PathPos(vpn, 0)) == None;
  }

  /** Frame `f` is at some position of the user half, where freeing the space finds it. */
  ghost predicate Reached(mem: Memory, root: nat, f: nat) {
    exists d: nat, p: nat :: Lower(d, p) && Node(mem, root, d, p) == Some(f)
  }

  lemma ReachedIsOwned(mem: Memory, root: nat, own: map<nat, Pos>, f: nat)
    requires Owns(mem, root, own)
    ensures Reached(mem, root, f) <==> f in own
  {
    hide Node, Lower, KernelApart, UserTables;
    if f in own {
      assert OwnedAt(mem, root, f, own[f]);
      assert Lower(own[f].depth, own[f].index);
    }
  }

  /** A mapping loses no frame of the space exactly when the page was not mapped before; otherwise
      it loses the frame that the page was mapped to, which is at no position any more, so that
      `paging_free_user_pages` will not give it back. */
  lemma RemapLoses(mem0: Memory, free0: set<nat>, mem: Memory, free: set<nat>, root: nat,
                   own: map<nat, Pos>, vpn: nat, leaf: Pte, added: map<nat, Pos>)
    requires PageMapped(mem0, free0, mem, free, root, own, vpn, leaf, added)
    ensures forall f | f in own :: Reached(mem, root, f) <==> Node(mem0, root, 4, vpn) != Some(f)
    ensures (forall f | f in own :: Reached(mem, root, f)) <==> Node(mem0, root, 4, vpn) == None
  {
    hide Node, Lower, Owns, InUse, PageMapped, Reached;
    OwnsMapped(mem0, free0, mem, free, root, own, vpn, leaf, added);
    MappedFacts(mem0, free0, mem, free, root, own, vpn, leaf, added);
    AtIsNode(mem0, root, own, vpn);
    forall f ensures Reached(mem, root, f) <==> f in Owned(own, added, leaf.frame, vpn) {
      ReachedIsOwned(mem, root, Owned(own, added, leaf.frame, vpn), f);
    }
  }

  lemma MappedFacts(mem0: Memory, free0: set<nat>, mem: Memory, free: set<nat>, root: nat,
                    own: map<nat, Pos>, vpn: nat, leaf: Pte, added: map<nat, Pos>)
    requires PageMapped(mem0, free0, mem, free, root, own, vpn, leaf, added)
    ensures Owns(mem0, root, own) && Lower(4, vpn) && leaf.frame !in own && added.Keys !! own.Keys
  {
    hide Node, Owns, Lower;
  }

  // ---------------------------------------------------------------- freeing

  /** Owned frames at the positions [lo, hi) of depth d + 1 and at all positions below them. */
  function Doomed(own: map<nat, Pos>, d: nat, lo: nat, hi: nat): set<nat> {
    set f | f in own && own[f].depth > d && lo <= Up(own[f].index, own[f].depth - d - 1) < hi
  }

  lemma DoomedParts(own: map<nat, Pos>, d: nat, lo: nat, c: nat)
    requires lo <= c
    ensures Doomed(own, d, lo, c + 1) == Doomed(own, d, lo, c) + Doomed(own, d, c, c + 1)
    ensures Doomed(own, d, lo, c) !! Doomed(own, d, c, c + 1)
    ensures Doomed(own, d, c, c + 1) == At(own, Pos(d + 1, c)) + Doomed(own, d + 1, 512 * c, 512 * c + 512)
    ensures At(own, Pos(d + 1, c)) !! Doomed(own, d + 1, 512 * c, 512 * c + 512)
  {
    hide Up;
    forall f | f in own && own[f].depth == d + 1 ensures Up(own[f].index, 0) == own[f].index { UpZero(own[f].index); }
    forall f | f in own && own[f].depth > d + 1
      ensures Up(own[f].index, own[f].depth - d - 1) == Up(own[f].index, own[f].depth - d - 2) / 512
    {
      UpDiv(own[f].index, own[f].depth - d - 2);
    }
  }

  lemma UpZero(p: nat)
    ensures Up(p, 0) == p
  {
  }

  /** The owned frames at one position of depth d + 1 and below it: the frame at the position
      itself, if any, and those of the table found there. */
  lemma DoomedSplit(mem: Memory, root: nat, own: map<nat, Pos>, d: nat, c: nat)
    requires Owns(mem, root, own) && d <= 3 && Lower(d + 1, c)
    ensures match Node(mem, root, d + 1, c)
            case None => At(own, Pos(d + 1, c)) == {} && Doomed(own, d + 1, 512 * c, 512 * c + 512) == {}
            case Some(f) => f in own && own[f] == Pos(d + 1, c) && At(own, Pos(d + 1, c)) == {f}
    ensures d == 3 ==> Doomed(own, d + 1, 512 * c, 512 * c + 512) == {}
  {
    hide Slot, Node, Up, UserTables, KernelApart, IsTable, IsPage, Lower;
    forall f | f in own ensures OwnedAt(mem, root, f, own[f]) && own[f].depth <= 4 {
      LowerDepth(own[f].depth, own[f].index);
    }
    var below := Doomed(own, d + 1, 512 * c, 512 * c + 512);
    if Node(mem, root, d + 1, c) == None {
      if f :| f in below {
        UpDiv(own[f].index, own[f].depth - d - 2);
        AncestorSome(mem, root, own[f].depth, own[f].index, own[f].depth - d - 1);
      }
    }
  }

  lemma {:induction false} AncestorSome(mem: Memory, root: nat, d: nat, p: nat, k: nat)
    requires k <= d && Node(mem, root, d, p).Some?
    ensures Node(mem, root, d - k, Up(p, k)).Some?
  {
    if k == 0 {
    } else {
      assert Slot(mem, root, d - 1, p).flags.present;
      AncestorSome(mem, root, d - 1, p / 512, k - 1);
    }
  }

  lemma DoomedNone(own: map<nat, Pos>, d: nat, lo: nat)
    ensures Doomed(own, d, lo, lo) == {}
  {
  }

  lemma DoomedWithin(own: map<nat, Pos>, d: nat, lo: nat, c: nat, hi: nat)
    requires lo <= c < hi
    ensures Doomed(own, d, c, c + 1) <= Doomed(own, d, lo, hi)
    ensures Doomed(own, d, c, c + 1) <= own.Keys
  {
  }

  lemma NodeZero(mem: Memory, root: nat, q: nat)
    ensures Node(mem, root, 0, q).Some? ==> q == 0
  {
  }

  lemma NodeEntry(mem: Memory, root: nat, d: nat, c: nat)
    requires Node(mem, root, d, c / 512).Some?
    ensures Node(mem, root, d + 1, c) == Target(d, Entry(mem, Node(mem, root, d, c / 512).value, c % 512))
  {
  }

  lemma OwnsUserTables(mem: Memory, root: nat, own: map<nat, Pos>)
    requires Owns(mem, root, own)
    ensures UserTables(mem, root)
  {
  }

  lemma ChildLower(d: nat, q: nat, i: nat)
    requires d <= 3 && (d > 0 ==> Lower(d, q)) && (d == 0 ==> q == 0 && i < 256) && i < 512
    ensures Lower(d + 1, 512 * q + i)
    ensures (512 * q + i) / 512 == q && (512 * q + i) % 512 == i
  {
  }

  lemma OwnedInMemory(mem: Memory, root: nat, own: map<nat, Pos>, f: nat)
    requires Owns(mem, root, own) && f in own
    ensures f < |mem| && f != 0
  {
    assert OwnedAt(mem, root, f, own[f]);
  }

  /** Everything owned lies below the 256 user entries of the PML4. */
  lemma DoomedAll(mem: Memory, root: nat, own: map<nat, Pos>)
    requires Owns(mem, root, own)
    ensures Doomed(own, 0, 0, 256) == own.Keys
  {
    forall f | f in own ensures f in Doomed(own, 0, 0, 256) { assert OwnedAt(mem, root, f, own[f]); }
  }

  // ---------------------------------------------------------------- new and other spaces

  /** A PML4 with an empty user half and the kernel's entries 256-511. */
  ghost predicate Cloned(mem: Memory, mem': Memory, kernelRoot: nat, root: nat) {
    && IsTable(mem, kernelRoot) && IsTable(mem', root) && |mem'| == |mem|
    && (forall f: nat | f < |mem| && f != root :: mem'[f] == mem[f])
    && (forall i: nat | i < 256 :: Entry(mem', root, i) == EMPTY)
    && (forall i: nat | 256 <= i < 512 :: Entry(mem', root, i) == Entry(mem, kernelRoot, i))
  }

  lemma {:induction false} ClonedSlot(mem: Memory, mem': Memory, free: set<nat>, kernelRoot: nat, root: nat, d: nat,
                                      p: nat)
    requires Ready(mem, kernelRoot, free) && root in free && Cloned(mem, mem', kernelRoot, root) && d <= 3
    ensures Slot(mem', root, d, p) == if Lower(d + 1, p) then EMPTY else Slot(mem, kernelRoot, d, p)
  {
    if d == 0 {
    } else {
      ClonedSlot(mem, mem', free, kernelRoot, root, d - 1, p / 512);
    }
    var n := Node(mem, kernelRoot, d, p / 512);
    assert Lower(d + 1, p) <==> (if d == 0 then p < 256 else Lower(d, p / 512));
    if d > 0 && n.Some? && !Lower(d, p / 512) {
      assert IsTable(mem, n.value) && n.value != root;
      assert Entry(mem', n.value, p % 512) == Entry(mem, n.value, p % 512);
    }
  }

  /** A fresh address space owns nothing. */
  lemma ClonedOwns(mem: Memory, mem': Memory, free: set<nat>, kernelRoot: nat, root: nat)
    requires Ready(mem, kernelRoot, free) && root in free && Cloned(mem, mem', kernelRoot, root)
    ensures Owns(mem', root, map[]) && InUse(mem', root, map[], free - {root})
    ensures forall q | Lower(4, q) :: Leaf(mem', root, q) == EMPTY
    ensures forall d, p | 1 <= d <= 3 && !Lower(d, p) :: Node(mem', root, d, p) == Node(mem, kernelRoot, d, p)
    ensures Ready(mem', kernelRoot, free - {root})
  {
    hide Up, Lower, Slot, Node;
    forall d: nat, p: nat | d <= 3
      ensures Slot(mem', root, d, p) == if Lower(d + 1, p) then EMPTY else Slot(mem, kernelRoot, d, p)
    {
      ClonedSlot(mem, mem', free, kernelRoot, root, d, p);
    }
    forall d: nat, p: nat | 1 <= d <= 4
      ensures Node(mem', root, d, p) == if Lower(d, p) then None else Node(mem, kernelRoot, d, p)
    {
      ClonedSlot(mem, mem', free, kernelRoot, root, d - 1, p);
      NodeUnfold(mem', root, d - 1, p);
      NodeUnfold(mem, kernelRoot, d - 1, p);
    }
    forall d: nat, p: nat, f | Lower(d, p) && Node(mem', root, d, p) == Some(f) ensures false {
      LowerDepth(d, p);
    }
    forall d: nat, p: nat, f | 1 <= d <= 3 && !Lower(d, p) && Node(mem', root, d, p) == Some(f)
      ensures IsTable(mem', f) && f != root && f !in free
    {
      TableKept(mem, mem', f);
    }
    assert SameTables(mem, mem', kernelRoot);
    UnreachedWrite(mem, mem', kernelRoot);
    forall d: nat, p: nat, f | d <= 3 && Node(mem', kernelRoot, d, p) == Some(f)
      ensures IsTable(mem', f) && f !in free - {root}
    {
      TableKept(mem, mem', f);
    }
  }

  /** Writes elsewhere, or into its pages, leave the tree of an address space as it is. */
  lemma SpaceKept(mem: Memory, mem': Memory, root: nat, own: map<nat, Pos>)
    requires Owns(mem, root, own) && SameTables(mem, mem', root)
    requires SameFrame(mem, mem', root)
    requires forall f | f in own :: if own[f].depth == 4 then IsPage(mem', f) else SameFrame(mem, mem', f)
    ensures Owns(mem', root, own)
    ensures forall q :: Leaf(mem', root, q) == Leaf(mem, root, q)
    ensures forall d, p | d <= 4 :: Node(mem', root, d, p) == Node(mem, root, d, p)
  {
    hide Slot, Node, Lower, Up;
    UnreachedWrite(mem, mem', root);
    forall f | f in own ensures OwnedAt(mem', root, f, own[f]) {
      assert OwnedAt(mem, root, f, own[f]);
      LowerDepth(own[f].depth, own[f].index);
    }
    forall d: nat, p: nat, f | 1 <= d <= 3 && !Lower(d, p) && Node(mem', root, d, p) == Some(f)
      ensures IsTable(mem', f) && f !in own && f != root
    {
      assert Node(mem, root, d, p) == Some(f);
      TableKept(mem, mem', f);
    }
    forall d: nat, p: nat, f | Lower(d, p) && Node(mem', root, d, p) == Some(f)
      ensures f in own && own[f] == Pos(d, p) {
      LowerDepth(d, p);
    }
  }

  lemma LowerZero()
    ensures Lower(4, 0)
  {
    UpUp(0, 1, 2);
  }

  lemma OwnedFrame(mem: Memory, root: nat, own: map<nat, Pos>, f: nat)
    requires Owns(mem, root, own) && f in own
    ensures f < |mem| && f != 0 && f != root && 1 <= own[f].depth <= 4
    ensures if own[f].depth == 4 then IsPage(mem, f) else IsTable(mem, f)
    ensures Node(mem, root, own[f].depth, own[f].index) == Some(f)
  {
    assert OwnedAt(mem, root, f, own[f]);
  }

  lemma OwnsRoot(mem: Memory, root: nat, own: map<nat, Pos>)
    requires Owns(mem, root, own)
    ensures IsTable(mem, root) && root !in own && 0 !in own
  {
  }
}
