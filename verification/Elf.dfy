/** Loading an ELF executable into an address space (`elf_load_into` of src/elf.c). */
module Elf {
  import opened Base
  import opened ElfFormat
  import opened Ownership
  import opened PageTables
  import opened Paging

  /** The byte that a segment puts at virtual address `a`. */
  function SegmentByte(file: seq<byte>, ph: Phdr, a: nat): byte {
    if ph.vaddr <= a < ph.vaddr + ph.filesz && ph.offset + (a - ph.vaddr) < |file|
    then file[ph.offset + (a - ph.vaddr)] else 0
  }

  /** Page `v` is mapped with the segment's rights and shows the segment's bytes. */
  ghost predicate HoldsPage(mem: Memory, root: nat, file: seq<byte>, ph: Phdr, v: nat) {
    var e := Leaf(mem, root, v);
    && e.flags == UserFlags(ph.Writable(), ph.Executable())
    && IsPage(mem, e.frame)
    && forall j | 0 <= j < PAGE_SIZE :: mem[e.frame].bytes[j] == SegmentByte(file, ph, v * PAGE_SIZE + j)
  }

  /** The whole effect of loading one page. */
  ghost predicate PageLoaded(mem0: Memory, free0: set<nat>, mem: Memory, free: set<nat>, root: nat,
                             own: map<nat, Pos>, own': map<nat, Pos>, file: seq<byte>, ph: Phdr, v: nat) {
    && |mem| == |mem0| && free <= free0
    && Extends(Kept(own, v), own', map[], free0 - free)
    && (forall q | q != v :: Leaf(mem, root, q) == Leaf(mem0, root, q))
    && HoldsPage(mem, root, file, ph, v)
    && (forall f | IsPage(mem0, f) && f !in free0 :: SameFrame(mem0, mem, f))
    && (forall f: nat | f < |mem0| && f !in own' && f != root :: SameFrame(mem0, mem, f))
    && Owns(mem, root, own') && InUse(mem, root, own', free) && SameKernelHalf(mem0, mem, root)
  }

  /** Zeroing a frame that was free a moment ago keeps the address space. */
  lemma AfterZeroing(mem0: Memory, free0: set<nat>, mem1: Memory, root: nat, own: map<nat, Pos>, f: nat)
    requires Owns(mem0, root, own) && InUse(mem0, root, own, free0)
    requires f in free0 && f < |mem0| && mem1 == mem0[f := ZeroPage()]
    ensures Owns(mem1, root, own) && InUse(mem1, root, own, free0 - {f})
    ensures IsPage(mem1, f) && f !in own
    ensures forall q :: Leaf(mem1, root, q) == Leaf(mem0, root, q)
    ensures forall d, p | d <= 4 :: Node(mem1, root, d, p) == Node(mem0, root, d, p)
    ensures forall g: nat | g < |mem0| && g != f :: SameFrame(mem0, mem1, g)
  {
    hide Slot, Node, Up, Lower, UserTables, AllOwned, KernelApart, OwnedAt;
    OwnsReady(mem0, root, own, free0, 0) by { LowerZero(); }
    forall g | g in own ensures if own[g].depth == 4 then IsPage(mem1, g) else SameFrame(mem0, mem1, g) {
      OwnedFrame(mem0, root, own, g);
    }
    SpaceKept(mem0, mem1, root, own);
  }

  /** The copy loop: `length` bytes of the file from `fileOffset` on to offset `pageOffset` of a
      page. */
  method CopyIn(m: Machine, frame: nat, pageOffset: nat, file: seq<byte>, fileOffset: nat, length: nat)
    requires m.Valid() && IsPage(m.mem, frame)
    requires pageOffset + length <= PAGE_SIZE && fileOffset + length <= |file|
    modifies m`mem
    ensures m.Valid() && |m.mem| == |old(m.mem)| && IsPage(m.mem, frame)
    ensures forall f: nat | f < |m.mem| && f != frame :: m.mem[f] == old(m.mem)[f]
    ensures forall j | 0 <= j < PAGE_SIZE :: m.mem[frame].bytes[j] ==
              if pageOffset <= j < pageOffset + length then file[fileOffset + (j - pageOffset)]
                  else old(m.mem)[frame].bytes[j]
  {
    for k := 0 to length
      invariant m.Valid() && |m.mem| == |old(m.mem)| && IsPage(m.mem, frame)
      invariant forall f: nat | f < |m.mem| && f != frame :: m.mem[f] == old(m.mem)[f]
      invariant forall j | 0 <= j < PAGE_SIZE :: m.mem[frame].bytes[j] ==
                  if pageOffset <= j < pageOffset + k then file[fileOffset + (j - pageOffset)]
                      else old(m.mem)[frame].bytes[j]
    {
      m.mem := m.mem[frame := PageFrame(m.mem[frame].bytes[pageOffset + k := file[fileOffset + k]])];
    }
  }

  /** One iteration of the page loop: a zeroed frame, mapped, with the file bytes that fall into
      the page copied in. A page that was mapped before shows its new segment only. */
  method LoadPage(m: Machine, file: seq<byte>, ph: Phdr, root: nat, vaddr: nat, ghost own: map<nat, Pos>)
      returns (r: Outcome<()>, ghost own': map<nat, Pos>)
    requires m.Valid() && Owns(m.mem, root, own) && InUse(m.mem, root, own, m.pmm.free)
    requires vaddr % PAGE_SIZE == 0 && Lower(4, vaddr / PAGE_SIZE) && Vpn(vaddr) == vaddr / PAGE_SIZE
    requires ph.offset + ph.filesz <= |file| && m.pmm.frameCount <= ADDR_FRAMES
    modifies m`mem, m.pmm`freeFrames, m.pmm`free, m.pmm.bitmap
    ensures m.Valid()
    ensures r.Halted? ==> m.pmm.free == {}
    ensures r.Done? ==>
        PageLoaded(old(m.mem), old(m.pmm.free), m.mem, m.pmm.free, root, own, own', file, ph, vaddr / PAGE_SIZE)
  {
    hide Node, Slot, Lower, Owns, InUse, UserPageMapped, PageLoaded, m.pmm.Valid, Leaf, Vpn, SegmentByte;
    own' := own;
    m.pmm.FreeInRange();
    var a := m.pmm.AllocFrame();
    if a.Halted? { return Halted, own'; }
    var frame := a.value / PAGE_SIZE;
    m.mem := m.mem[frame := ZeroPage()];
    AfterZeroing(old(m.mem), old(m.pmm.free), m.mem, root, own, frame);
    ghost var mem1, free1 := m.mem, m.pmm.free;

    var mapped;
    mapped, own' := m.MapUserPageIn(root, vaddr, a.value, ph.Writable(), ph.Executable(), own);
    if mapped != Mapped { return Halted, own'; }
    ghost var mem2 := m.mem;

    StillZero(mem1, free1, m.mem, m.pmm.free, root, own, own', vaddr / PAGE_SIZE, frame, ph);

    // the overlap of this page with the file part of the segment
    var copyStart := if vaddr < ph.vaddr then ph.vaddr else vaddr;
    var copyEnd := if vaddr + PAGE_SIZE > ph.vaddr + ph.filesz then ph.vaddr + ph.filesz else vaddr + PAGE_SIZE;
    if copyStart < copyEnd {
      CopyIn(m, frame, copyStart - vaddr, file, ph.offset + (copyStart - ph.vaddr), copyEnd - copyStart);
    }
    forall j | 0 <= j < PAGE_SIZE ensures m.mem[frame].bytes[j] == SegmentByte(file, ph, vaddr + j) {
      SegmentByteIs(file, ph, vaddr, j);
    }
    PageLoadedBy(old(m.mem), old(m.pmm.free), mem1, mem2, m.mem, m.pmm.free, root, own, own', file, ph,
        vaddr / PAGE_SIZE, frame);
    r := Done(());
  }

  lemma SegmentByteIs(file: seq<byte>, ph: Phdr, vaddr: nat, j: nat)
    requires j < PAGE_SIZE && ph.offset + ph.filesz <= |file|
    ensures
      var copyStart := if vaddr < ph.vaddr then ph.vaddr else vaddr;
      var copyEnd := if vaddr + PAGE_SIZE > ph.vaddr + ph.filesz then ph.vaddr + ph.filesz else vaddr + PAGE_SIZE;
      SegmentByte(file, ph, vaddr + j) ==
        if copyStart - vaddr <= j < copyEnd - vaddr
        then file[ph.offset + (copyStart - ph.vaddr) + (j - (copyStart - vaddr))] else 0
  {
  }

  lemma StillZero(mem1: Memory, free1: set<nat>, mem2: Memory, free2: set<nat>, root: nat,
                  own: map<nat, Pos>, own': map<nat, Pos>, v: nat, frame: nat, ph: Phdr)
    requires UserPageMapped(mem1, free1, mem2, free2, root, own, own', v, frame, ph.Writable(), ph.Executable())
    requires IsPage(mem1, frame) && frame !in free1
    ensures IsPage(mem2, frame) && mem2[frame] == mem1[frame]
  {
    hide Leaf, Owns, InUse, Extends;
  }

  lemma PageLoadedBy(mem0: Memory, free0: set<nat>, mem1: Memory, mem2: Memory, mem: Memory, free: set<nat>, root: nat,
                     own: map<nat, Pos>, own': map<nat, Pos>, file: seq<byte>, ph: Phdr, v: nat, frame: nat)
    requires frame in free0 && frame < |mem0| && frame !in own && mem1 == mem0[frame := ZeroPage()]
    requires UserPageMapped(mem1, free0 - {frame}, mem2, free, root, own, own', v, frame, ph.Writable(),
        ph.Executable())
    requires |mem| == |mem2| && forall f: nat | f < |mem| && f != frame :: mem[f] == mem2[f]
    requires IsPage(mem2, frame) && IsPage(mem, frame)
    requires forall q :: Leaf(mem1, root, q) == Leaf(mem0, root, q)
    requires SameKernelHalf(mem0, mem1, root)
    requires forall j | 0 <= j < PAGE_SIZE :: mem[frame].bytes[j] == SegmentByte(file, ph, v * PAGE_SIZE + j)
    ensures PageLoaded(mem0, free0, mem, free, root, own, own', file, ph, v)
  {
    hide Slot, Node, Up, Lower, Leaf, SegmentByte, UserTables, AllOwned, KernelApart, OwnedAt, Owns;
    assert own'[frame] == Pos(4, v);
    forall g | g in own' ensures if own'[g].depth == 4 then IsPage(mem, g) else SameFrame(mem2, mem, g) {
      OwnedFrame(mem2, root, own', g);
    }
    OwnedFrame(mem2, root, own', frame);
    OwnsReady(mem2, root, own', free, 0) by { LowerZero(); }
    OwnsRoot(mem2, root, own');
    SpaceKept(mem2, mem, root, own');
    assert free0 - free == (free0 - {frame} - free) + {frame};
    forall f: nat | IsPage(mem0, f) && f !in free0 ensures SameFrame(mem0, mem, f) {
      assert IsPage(mem1, f);
    }
  }

  // ---------------------------------------------------------------- all segments

  /** No two loadable segments touch the same page. */
  predicate DisjointPages(segs: seq<Phdr>) {
    forall i, j | 0 <= i < j < |segs| && segs[i].Loadable() && segs[j].Loadable() ::
      segs[i].EndPage() <= segs[j].FirstPage() || segs[j].EndPage() <= segs[i].FirstPage()
  }

  /** Segment `i` is loadable and touches page `v`. */
  predicate Covers(segs: seq<Phdr>, i: nat, v: nat) {
    i < |segs| && segs[i].Loadable() && segs[i].Touches(v)
  }

  /** Segment `i` is the last one in the program header table to touch page `v`. */
  ghost predicate LastToTouch(segs: seq<Phdr>, i: nat, v: nat) {
    Covers(segs, i, v) && forall j: nat | Covers(segs, j, v) :: j <= i
  }

  ghost predicate Untouched(segs: seq<Phdr>, v: nat) {
    forall i: nat :: !Covers(segs, i, v)
  }

  /** Pages are disjoint exactly when every segment that touches a page is the only one. */
  lemma DisjointIsOnce(segs: seq<Phdr>)
    ensures DisjointPages(segs) <==> forall i: nat, j: nat, v: nat | Covers(segs, i, v) && Covers(segs, j, v) :: i == j
  {
    if !DisjointPages(segs) {
      var i, j :| 0 <= i < j < |segs| && segs[i].Loadable() && segs[j].Loadable()
        && segs[j].FirstPage() < segs[i].EndPage() && segs[i].FirstPage() < segs[j].EndPage();
      PagesNotEmpty(segs[i]);
      PagesNotEmpty(segs[j]);
      var v := if segs[i].FirstPage() <= segs[j].FirstPage() then segs[j].FirstPage() else segs[i].FirstPage();
      assert Covers(segs, i, v) && Covers(segs, j, v);
    }
  }

  lemma PagesNotEmpty(ph: Phdr)
    requires ph.Loadable()
    ensures ph.FirstPage() < ph.EndPage()
  {
  }

  /** A file with two segments on one page is accepted. */
  lemma OverlapIsAccepted()
    ensures var file := OverlapFile();
      Readable(file) && Acceptable(file) && NoWrap(Segments(file)) && !DisjointPages(Segments(file))
  {
    hide OverlapFile, Segments, Acceptable;
    OverlapSegments();
    var segs := [OverlapFirst(), OverlapSecond()];
    assert segs[0].Loadable() && segs[1].Loadable();
    assert segs[0].FirstPage() == segs[1].FirstPage() == 16 && segs[0].EndPage() == segs[1].EndPage() == 17;
  }

  /** The pages in `placed` hold their segment's page; the rest of the user half is not mapped. */
  ghost predicate Image(mem: Memory, root: nat, file: seq<byte>, segs: seq<Phdr>, placed: map<nat, nat>) {
    forall v | Lower(4, v) ::
      if v in placed then placed[v] < |segs| && HoldsPage(mem, root, file, segs[placed[v]], v)
      else !Leaf(mem, root, v).flags.present
  }

  /** The pass has been at page `v` of segment `i` when it is at page `cur` of segment `n`. */
  predicate Passed(i: nat, v: nat, n: nat, cur: nat) {
    i < n || (i == n && v < cur)
  }

  /** `placed` has the pages that the pass has been at, each with the last segment to touch it. */
  ghost predicate PlacedUpTo(segs: seq<Phdr>, placed: map<nat, nat>, n: nat, cur: nat) {
    && (forall v | v in placed :: Covers(segs, placed[v], v) && Passed(placed[v], v, n, cur))
    && (forall i: nat, v: nat | Covers(segs, i, v) && Passed(i, v, n, cur) :: v in placed && i <= placed[v])
  }

  /** No page was touched a second time. */
  ghost predicate OnceUpTo(segs: seq<Phdr>, n: nat, cur: nat) {
    forall i: nat, j: nat, v: nat | Covers(segs, i, v) && Covers(segs, j, v) && Passed(i, v, n, cur)
        && Passed(j, v, n, cur) :: i == j
  }

  /** State of the second pass, over memory and the free set of its start. The frames in `lost`
      were mapped and are mapped no more. */
  ghost predicate Loading(mem0: Memory, free0: set<nat>, mem: Memory, free: set<nat>, root: nat,
                          own: map<nat, Pos>, lost: set<nat>, file: seq<byte>, segs: seq<Phdr>, placed: map<nat, nat>) {
    && |mem| == |mem0| && free <= free0 && own.Keys + lost == free0 - free && own.Keys !! lost
    && (forall f: nat | f < |mem0| && f !in own && f !in lost && f != root :: SameFrame(mem0, mem, f))
    && Owns(mem, root, own) && InUse(mem, root, own, free) && SameKernelHalf(mem0, mem, root)
    && Image(mem, root, file, segs, placed)
  }

  lemma LoadingStep(mem0: Memory, free0: set<nat>, mem: Memory, free: set<nat>, mem': Memory, free': set<nat>,
                    root: nat, own: map<nat, Pos>, own': map<nat, Pos>, lost: set<nat>,
                    file: seq<byte>, segs: seq<Phdr>, placed: map<nat, nat>, i: nat, v: nat)
    requires Loading(mem0, free0, mem, free, root, own, lost, file, segs, placed) && i < |segs|
    requires PageLoaded(mem, free, mem', free', root, own, own', file, segs[i], v)
    ensures Loading(mem0, free0, mem', free', root, own', lost + At(own, Pos(4, v)), file, segs, placed[v := i])
  {
    hide Slot, Node, Lower, SegmentByte, Leaf, Owns, InUse;
    LoadingFrames(mem0, free0, mem, free, mem', free', root, own, own', lost, file, segs, placed, i, v);
    forall q | Lower(4, q) && q in placed && q != v ensures HoldsPage(mem', root, file, segs[placed[q]], q) {
      MappedPageInUse(mem, root, own, free, q);
    }
  }

  lemma LoadingFrames(mem0: Memory, free0: set<nat>, mem: Memory, free: set<nat>, mem': Memory, free': set<nat>,
                      root: nat, own: map<nat, Pos>, own': map<nat, Pos>, lost: set<nat>,
                      file: seq<byte>, segs: seq<Phdr>, placed: map<nat, nat>, i: nat, v: nat)
    requires Loading(mem0, free0, mem, free, root, own, lost, file, segs, placed) && i < |segs|
    requires PageLoaded(mem, free, mem', free', root, own, own', file, segs[i], v)
    ensures var lost' := lost + At(own, Pos(4, v));
      && own'.Keys + lost' == free0 - free' && own'.Keys !! lost'
      && (forall f: nat | f < |mem0| && f !in own' && f !in lost' && f != root :: SameFrame(mem0, mem', f))
    ensures SameKernelHalf(mem0, mem', root)
  {
    hide Slot, Node, Lower, SegmentByte, Leaf, Owns, InUse, HoldsPage, Image;
    assert own'.Keys == Kept(own, v).Keys + (free - free');
    assert Kept(own, v).Keys == own.Keys - At(own, Pos(4, v));
    forall f: nat | f < |mem0| && f !in own' && f !in lost + At(own, Pos(4, v)) && f != root
      ensures SameFrame(mem0, mem', f) {
      assert SameFrame(mem0, mem, f) && SameFrame(mem, mem', f);
    }
  }

  lemma MappedPageInUse(mem: Memory, root: nat, own: map<nat, Pos>, free: set<nat>, q: nat)
    requires Owns(mem, root, own) && own.Keys !! free && Lower(4, q) && Leaf(mem, root, q).flags.present
    ensures Leaf(mem, root, q).frame !in free
  {
    NodeUnfold(mem, root, 3, q);
  }

  /** The address space shows the segments, on every page the last one that touches it, and
      nothing else. */
  ghost predicate ElfImage(mem: Memory, root: nat, file: seq<byte>, segs: seq<Phdr>) {
    && (forall i: nat, v: nat | LastToTouch(segs, i, v) :: HoldsPage(mem, root, file, segs[i], v))
    && (forall v | Lower(4, v) && Untouched(segs, v) :: !Leaf(mem, root, v).flags.present)
  }

  /** The pages of a valid segment are pages of the user half. */
  lemma UserPages(ph: Phdr, v: nat)
    requires ph.InUserRange() && ph.Touches(v)
    ensures Lower(4, v) && Vpn(v * PAGE_SIZE) == v
  {
    assert v < 0x8_0000_0000;
    assert Up(v, 3) == v / 512 / 512 / 512 by { UpDiv(v, 2); UpDiv(v, 1); UpDiv(v, 0); }
  }

  lemma LoadingDone(mem: Memory, root: nat, file: seq<byte>, segs: seq<Phdr>, placed: map<nat, nat>)
    requires PlacedUpTo(segs, placed, |segs|, 0) && Image(mem, root, file, segs, placed)
    requires forall i | 0 <= i < |segs| && segs[i].Loadable() :: segs[i].InUserRange()
    ensures ElfImage(mem, root, file, segs)
  {
    hide HoldsPage, Leaf, Lower;
    forall i: nat, v: nat | LastToTouch(segs, i, v) ensures HoldsPage(mem, root, file, segs[i], v) {
      UserPages(segs[i], v);
      assert Passed(i, v, |segs|, 0);
    }
  }

  lemma LoadingStart(mem: Memory, free: set<nat>, root: nat, file: seq<byte>, segs: seq<Phdr>)
    requires Owns(mem, root, map[]) && InUse(mem, root, map[], free)
    ensures Loading(mem, free, mem, free, root, map[], {}, file, segs, map[])
  {
    hide Slot, Node, Lower;
    forall v: nat | Lower(4, v) ensures !Leaf(mem, root, v).flags.present { NodeUnfold(mem, root, 3, v); }
  }

  /** A page is lost when the pass comes to it a second time, and only then. */
  lemma PageAgain(mem: Memory, root: nat, own: map<nat, Pos>, file: seq<byte>, segs: seq<Phdr>,
                  placed: map<nat, nat>, n: nat, v: nat)
    requires Owns(mem, root, own) && Image(mem, root, file, segs, placed) && PlacedUpTo(segs, placed, n, v)
    requires Covers(segs, n, v) && Lower(4, v)
    ensures At(own, Pos(4, v)) == {} <==> v !in placed
    ensures PlacedUpTo(segs, placed[v := n], n, v + 1)
    ensures OnceUpTo(segs, n, v + 1) <==> OnceUpTo(segs, n, v) && v !in placed
  {
    hide HoldsPage, Lower, Node, Slot, Owns, At, Covers;
    NodeUnfold(mem, root, 3, v);
    AtIsNode(mem, root, own, v);
    if v in placed { HeldIsPresent(mem, root, file, segs, placed, v); }
    OnceStep(segs, placed, n, v);
  }

  lemma HeldIsPresent(mem: Memory, root: nat, file: seq<byte>, segs: seq<Phdr>, placed: map<nat, nat>, v: nat)
    requires Image(mem, root, file, segs, placed) && Lower(4, v) && v in placed
    ensures Leaf(mem, root, v).flags.present
  {
    hide Lower, Leaf, SegmentByte;
  }

  lemma OnceStep(segs: seq<Phdr>, placed: map<nat, nat>, n: nat, v: nat)
    requires PlacedUpTo(segs, placed, n, v) && Covers(segs, n, v)
    ensures OnceUpTo(segs, n, v + 1) <==> OnceUpTo(segs, n, v) && v !in placed
  {
    hide Covers;
    if v in placed {
      assert Covers(segs, placed[v], v) && Passed(placed[v], v, n, v + 1) && Passed(n, v, n, v + 1);
    }
  }

  lemma NextSegment(segs: seq<Phdr>, placed: map<nat, nat>, n: nat, cur: nat)
    requires PlacedUpTo(segs, placed, n, cur) && n < |segs|
    requires segs[n].Loadable() ==> cur >= segs[n].EndPage()
    ensures var next := if n + 1 < |segs| then segs[n + 1].FirstPage() else 0;
      PlacedUpTo(segs, placed, n + 1, next) && (OnceUpTo(segs, n + 1, next) <==> OnceUpTo(segs, n, cur))
  {
    var next := if n + 1 < |segs| then segs[n + 1].FirstPage() else 0;
    forall i: nat, v: nat | Covers(segs, i, v) ensures Passed(i, v, n + 1, next) <==> Passed(i, v, n, cur) { }
    hide Covers, Passed;
  }

  lemma OnceAtEnd(segs: seq<Phdr>)
    ensures OnceUpTo(segs, |segs|, 0) <==> DisjointPages(segs)
  {
    hide DisjointPages;
    DisjointIsOnce(segs);
    forall i: nat, v: nat | Covers(segs, i, v) ensures Passed(i, v, |segs|, 0) { }
  }

  /** The second pass of `elf_load_into`. Frames are lost exactly when two segments share a page. */
  method SecondPass(m: Machine, file: seq<byte>, segs: seq<Phdr>, root: nat)
      returns (r: Outcome<()>, ghost own: map<nat, Pos>, ghost lost: set<nat>)
    requires m.Valid() && Owns(m.mem, root, map[]) && InUse(m.mem, root, map[], m.pmm.free)
    requires m.pmm.frameCount <= ADDR_FRAMES
    requires forall i | 0 <= i < |segs| && segs[i].Loadable() ::
               segs[i].InUserRange() && segs[i].offset + segs[i].filesz <= |file|
    modifies m`mem, m.pmm`freeFrames, m.pmm`free, m.pmm.bitmap
    ensures m.Valid()
    ensures r.Halted? ==> m.pmm.free == {}
    ensures r.Done? ==> SpaceLoaded(old(m.mem), old(m.pmm.free), m.mem, m.pmm.free, root, own, lost, file, segs)
  {
    hide Owns, InUse, Image, PageLoaded, Lower, Node, PlacedUpTo, OnceUpTo, DisjointPages, m.pmm.Valid, ElfImage,
        Leaf, Vpn, At;
    own, lost := map[], {};
    ghost var placed: map<nat, nat> := map[];
    LoadingStart(m.mem, m.pmm.free, root, file, segs);
    NonePlaced(segs);
    var i := 0;
    while i < |segs|
      invariant 0 <= i <= |segs| && m.Valid()
      invariant PlacedUpTo(segs, placed, i, if i < |segs| then segs[i].FirstPage() else 0)
      invariant lost == {} <==> OnceUpTo(segs, i, if i < |segs| then segs[i].FirstPage() else 0)
      invariant Loading(old(m.mem), old(m.pmm.free), m.mem, m.pmm.free, root, own, lost, file, segs, placed)
    {
      var ph := segs[i];
      ghost var page := ph.FirstPage();
      if ph.Loadable() {
        var pageStart := ph.vaddr - ph.vaddr % 0x1000;
        var pageEnd := (ph.vaddr + ph.memsz + 0xFFF) - (ph.vaddr + ph.memsz + 0xFFF) % 0x1000;
        var vaddr := pageStart;
        while vaddr < pageEnd
          invariant m.Valid() && vaddr == page * 0x1000 && page >= ph.FirstPage()
          invariant PlacedUpTo(segs, placed, i, page) && (lost == {} <==> OnceUpTo(segs, i, page))
          invariant Loading(old(m.mem), old(m.pmm.free), m.mem, m.pmm.free, root, own, lost, file, segs, placed)
        {
          UserPages(ph, page);
          PageAgain(m.mem, root, own, file, segs, placed, i, page);
          ghost var mem, free, before := m.mem, m.pmm.free, own;
          r, own := LoadPage(m, file, ph, root, vaddr, own);
          if r.Halted? { return; }
          LoadingStep(old(m.mem), old(m.pmm.free), mem, free, m.mem, m.pmm.free, root, before, own, lost, file, segs,
              placed, i, page);
          placed, lost := placed[page := i], lost + At(before, Pos(4, page));
          vaddr := vaddr + 0x1000;
          page := page + 1;
        }
      }
      NextSegment(segs, placed, i, page);
      i := i + 1;
    }
    OnceAtEnd(segs);
    LoadingDone(m.mem, root, file, segs, placed);
    r := Done(());
  }

  /** The effect of loading: the user half shows the segments; the frames taken are those that it
      owns and those that were lost, of which there are none exactly if no page has two segments. */
  ghost predicate SpaceLoaded(mem0: Memory, free0: set<nat>, mem: Memory, free: set<nat>, root: nat,
                              own: map<nat, Pos>, lost: set<nat>, file: seq<byte>, segs: seq<Phdr>) {
    && Owns(mem, root, own) && InUse(mem, root, own, free) && SameKernelHalf(mem0, mem, root)
    && |mem| == |mem0| && free <= free0 && own.Keys + lost == free0 - free && own.Keys !! lost
    && (forall f: nat | f < |mem| && f !in own && f !in lost && f != root :: SameFrame(mem0, mem, f))
    && ElfImage(mem, root, file, segs)
    && (lost == {} <==> DisjointPages(segs))
  }

  lemma NonePlaced(segs: seq<Phdr>)
    ensures var first := if 0 < |segs| then segs[0].FirstPage() else 0;
      PlacedUpTo(segs, map[], 0, first) && OnceUpTo(segs, 0, first)
  {
  }

  lemma SegmentWords(file: seq<byte>)
    requires HeaderOk(file) && Readable(file)
    ensures forall i | 0 <= i < |Segments(file)| :: Segments(file)[i].vaddr < WORD && Segments(file)[i].memsz < WORD
    ensures |file| >= EHDR_SIZE && ReadEhdr(file).entry < WORD
  {
    hide ReadPhdr, Readable, PhdrOffset;
  }

  lemma SegmentsLoad(segs: seq<Phdr>, entry: nat, size: nat)
    requires AcceptableSegments(segs, entry, size) && NoWrap(segs)
    ensures forall i | 0 <= i < |segs| && segs[i].Loadable() ::
        segs[i].InUserRange() && segs[i].offset + segs[i].filesz <= size
  {
    forall i | 0 <= i < |segs| && segs[i].Loadable()
      ensures segs[i].InUserRange() && segs[i].offset + segs[i].filesz <= size {
      assert SegmentOk(segs[i], size);
    }
  }

  datatype LoadResult = Loaded(info: Info) | Rejected | OutOfMemory

  /** `elf_load_into`. A file is rejected exactly when it is not acceptable, and then nothing has
      been mapped or taken; otherwise the empty user half comes to show the file's segments. */
  method LoadInto(m: Machine, file: seq<byte>, root: nat)
      returns (r: LoadResult, ghost own: map<nat, Pos>, ghost lost: set<nat>)
    requires m.Valid() && Owns(m.mem, root, map[]) && InUse(m.mem, root, map[], m.pmm.free)
    requires m.pmm.frameCount <= ADDR_FRAMES
    requires Readable(file)
    requires Acceptable(file) ==> NoWrap(Segments(file))
    modifies m`mem, m.pmm`freeFrames, m.pmm`free, m.pmm.bitmap
    ensures m.Valid()
    ensures r.Rejected? <==> !Acceptable(file)
    ensures r.Rejected? ==> m.mem == old(m.mem) && m.pmm.free == old(m.pmm.free)
    ensures r.OutOfMemory? ==> m.pmm.free == {}
    ensures r.Loaded? ==>
              && r.info.entry == ReadEhdr(file).entry && Bounds(Segments(file), r.info)
              && SpaceLoaded(old(m.mem), old(m.pmm.free), m.mem, m.pmm.free, root, own, lost, file, Segments(file))
  {
    hide Owns, InUse, SpaceLoaded, m.pmm.Valid, Bounds, HeaderOk, Readable, Segments, AcceptableSegments, ReadEhdr,
        NoWrap;
    own, lost := map[], {};
    if !HeaderOk(file) { return Rejected, own, lost; }
    var segs := Segments(file);
    SegmentWords(file);
    var info := FirstPass(segs, ReadEhdr(file).entry, |file|);
    if info.None? { return Rejected, own, lost; }
    SegmentsLoad(segs, ReadEhdr(file).entry, |file|);
    var done;
    done, own, lost := SecondPass(m, file, segs, root);
    if done.Halted? { return OutOfMemory, own, lost; }
    r := Loaded(info.value);
  }

  // ---------------------------------------------------------------- what the program sees

  /** The byte that the page walk finds at a virtual address. */
  function WalkByte(mem: Memory, root: nat, a: nat): Option<byte> {
    var e := Leaf(mem, root, Vpn(a));
    if e.flags.present && IsPage(mem, e.frame) then Some(mem[e.frame].bytes[a % PAGE_SIZE]) else None
  }

  /** Rights of an access, combined over the four levels of the walk (Intel SDM vol. 3A,
      section 4.6): user and write need every level, one no-execute bit suffices. */
  datatype Rights = Rights(user: bool, write: bool, execute: bool)

  function WalkRights(mem: Memory, root: nat, v: nat): Rights {
    var f0 := Slot(mem, root, 0, PathPos(v, 1)).flags;
    var f1 := Slot(mem, root, 1, PathPos(v, 2)).flags;
    var f2 := Slot(mem, root, 2, PathPos(v, 3)).flags;
    var f3 := Slot(mem, root, 3, v).flags;
    Rights(f0.user && f1.user && f2.user && f3.user,
           f0.writable && f1.writable && f2.writable && f3.writable,
           !f0.noExecute && !f1.noExecute && !f2.noExecute && !f3.noExecute)
  }

  /** What a segment asks for: its byte at an address, or zero behind the file part, and user rights
      by PF_W (2) and PF_X (1) of p_flags. */
  ghost predicate Shows(mem: Memory, root: nat, a: nat, file: seq<byte>, ph: Phdr) {
    && WalkByte(mem, root, a) == Some(if ph.vaddr <= a < ph.vaddr + ph.filesz && ph.offset + (a - ph.vaddr) < |file|
                                      then file[ph.offset + (a - ph.vaddr)] else 0)
    && WalkRights(mem, root, a / PAGE_SIZE) == Rights(true, (ph.flags / 2) % 2 == 1, ph.flags % 2 == 1)
  }

  /** The rights for PF_R alone, and with PF_X, PF_W, and both. */
  lemma FlagRights(mem: Memory, root: nat, a: nat, file: seq<byte>, ph: Phdr)
    requires Shows(mem, root, a, file, ph)
    ensures ph.flags == 4 ==> WalkRights(mem, root, a / PAGE_SIZE) == Rights(true, false, false)
    ensures ph.flags == 5 ==> WalkRights(mem, root, a / PAGE_SIZE) == Rights(true, false, true)
    ensures ph.flags == 6 ==> WalkRights(mem, root, a / PAGE_SIZE) == Rights(true, true, false)
    ensures ph.flags == 7 ==> WalkRights(mem, root, a / PAGE_SIZE) == Rights(true, true, true)
  {
    hide WalkRights, WalkByte;
  }

  /** A loaded program sees, at every user address, the byte of the file or the zero that the last
      segment on that page puts there, with the rights which that segment asks for, or no page. */
  lemma ProgramView(mem: Memory, root: nat, own: map<nat, Pos>, file: seq<byte>, segs: seq<Phdr>, a: nat)
    requires Owns(mem, root, own) && ElfImage(mem, root, file, segs)
    requires a < 0x8000_0000_0000
    ensures forall i: nat | LastToTouch(segs, i, a / PAGE_SIZE) :: Shows(mem, root, a, file, segs[i])
    ensures Untouched(segs, a / PAGE_SIZE) ==> WalkByte(mem, root, a) == None
  {
    hide Node, Owns, Lower, PathPos, Untouched;
    var v := a / PAGE_SIZE;
    UserAddress(a);
    forall i: nat | LastToTouch(segs, i, v) ensures Shows(mem, root, a, file, segs[i]) {
      assert HoldsPage(mem, root, file, segs[i], v);
      PageShows(mem, root, own, file, segs[i], a);
    }
  }

  lemma PageShows(mem: Memory, root: nat, own: map<nat, Pos>, file: seq<byte>, ph: Phdr, a: nat)
    requires Owns(mem, root, own) && Lower(4, a / PAGE_SIZE) && Vpn(a) == a / PAGE_SIZE
    requires HoldsPage(mem, root, file, ph, a / PAGE_SIZE)
    ensures Shows(mem, root, a, file, ph)
  {
    hide Node, Owns, Lower, PathPos, Vpn;
    var v := a / PAGE_SIZE;
    assert v * PAGE_SIZE + a % PAGE_SIZE == a;
    UserWalk(mem, root, own, v);
  }

  /** Byte by byte: a loadable segment of which no later one has a byte on the same page shows at
      each of its addresses; a user address without a segment on its page has no page. */
  lemma SegmentView(mem: Memory, root: nat, own: map<nat, Pos>, file: seq<byte>, segs: seq<Phdr>, a: nat)
    requires Owns(mem, root, own) && ElfImage(mem, root, file, segs) && a < 0x8000_0000_0000
    ensures forall i: nat |
      && i < |segs| && segs[i].type_ == 1 && InSegment(segs[i], a)
      && (forall j: nat, b: nat | i < j < |segs| && segs[j].type_ == 1 && InSegment(segs[j], b) ::
            b / PAGE_SIZE != a / PAGE_SIZE) :: Shows(mem, root, a, file, segs[i])
    ensures (forall j: nat, b: nat | j < |segs| && segs[j].type_ == 1 && InSegment(segs[j], b) ::
              b / PAGE_SIZE != a / PAGE_SIZE) ==> WalkByte(mem, root, a) == None
  {
    hide Owns, ElfImage, Shows, WalkByte;
    var v := a / PAGE_SIZE;
    ProgramView(mem, root, own, file, segs, a);
    forall i: nat |
      && i < |segs| && segs[i].type_ == 1 && InSegment(segs[i], a)
      && (forall j: nat, b: nat | i < j < |segs| && segs[j].type_ == 1 && InSegment(segs[j], b) ::
            b / PAGE_SIZE != a / PAGE_SIZE)
      ensures Shows(mem, root, a, file, segs[i])
    {
      TouchedPages(segs[i], v);
      forall j: nat | Covers(segs, j, v) ensures j <= i { TouchedPages(segs[j], v); }
      assert LastToTouch(segs, i, v);
    }
    if forall j: nat, b: nat | j < |segs| && segs[j].type_ == 1 && InSegment(segs[j], b) ::
         b / PAGE_SIZE != a / PAGE_SIZE {
      forall j: nat ensures !Covers(segs, j, v) { if j < |segs| && segs[j].memsz > 0 { TouchedPages(segs[j], v); } }
    }
  }

  /** When no page has two segments, every segment is the last one on each of its pages. */
  lemma OwnPage(segs: seq<Phdr>, i: nat, v: nat)
    requires DisjointPages(segs) && Covers(segs, i, v)
    ensures LastToTouch(segs, i, v)
  {
    DisjointIsOnce(segs);
  }

  lemma UserAddress(a: nat)
    requires a < 0x8000_0000_0000
    ensures Vpn(a) == a / PAGE_SIZE && Lower(4, a / PAGE_SIZE)
  {
    var v := a / PAGE_SIZE;
    assert Up(v, 3) == v / 512 / 512 / 512 by { UpDiv(v, 2); UpDiv(v, 1); UpDiv(v, 0); }
  }

  /** On the way to a mapped user page every level allows what the leaf allows. */
  lemma UserWalk(mem: Memory, root: nat, own: map<nat, Pos>, v: nat)
    requires Owns(mem, root, own) && Lower(4, v) && Leaf(mem, root, v).flags.present
    ensures Slot(mem, root, 0, PathPos(v, 1)).flags == USER_TABLE
    ensures Slot(mem, root, 1, PathPos(v, 2)).flags == USER_TABLE
    ensures Slot(mem, root, 2, PathPos(v, 3)).flags == USER_TABLE
  {
    hide Node, Lower, PathPos;
    PathStep(v, 3);
    PathStep(v, 2);
    PathStep(v, 1);
    PathLower(v, 1);
    PathLower(v, 2);
    PathLower(v, 3);
    NodeUnfold(mem, root, 2, PathPos(v, 3));
    NodeUnfold(mem, root, 1, PathPos(v, 2));
    NodeUnfold(mem, root, 0, PathPos(v, 1));
  }
}
