/** The kernel heap (src/heap.c): arenas taken from the frame allocator, each a doubly linked list
    of blocks. Addresses are physical; the direct map adds one constant to all of them. */
module Heap {
  import opened Base
  import opened HeapCells
  import opened HeapLayout
  import opened Pmm

  datatype Arena = Arena(base: nat, total: nat, blocks: seq<Blk>)

  /** The blocks tile the arena exactly from byte 32 to its end, no two neighbours are both free. */
  ghost predicate ArenaOk(a: Arena) {
    && a.base > 0 && a.base % PAGE_SIZE == 0 && a.total % PAGE_SIZE == 0
    && a.blocks != [] && Tiles(a.blocks, a.base + HEADER, a.base + a.total)
    && NoFreeNeighbours(a.blocks)
  }

  predicate Apart(a: Arena, b: Arena) {
    a.base + a.total <= b.base || b.base + b.total <= a.base
  }

  function NextArena(arenas: seq<Arena>, k: nat): nat
    requires k < |arenas|
  {
    if k + 1 < |arenas| then arenas[k + 1].base else NULL
  }

  /** Arena `k` in memory: its own header and those of its blocks. */
  ghost predicate ArenaAt(cells: Cells, arenas: seq<Arena>, k: nat) {
    && k < |arenas|
    && At(cells, arenas[k].base) == ArenaHeader(NextArena(arenas, k), arenas[k].total, arenas[k].base + HEADER)
    && Linked(cells, arenas[k].blocks)
  }

  /** `a` is the header address of a live block. */
  ghost predicate IsLive(arenas: seq<Arena>, a: nat) {
    exists k, i ::
        0 <= k < |arenas| && 0 <= i < |arenas[k].blocks| && arenas[k].blocks[i].addr == a && !arenas[k].blocks[i].free
  }

  ghost predicate ArenasOk(arenas: seq<Arena>) {
    && (forall k | 0 <= k < |arenas| :: ArenaOk(arenas[k]))
    && (forall j, k | 0 <= j < k < |arenas| :: Apart(arenas[j], arenas[k]))
  }

  /** The heap in memory. Headers left behind by merges are marked free. */
  ghost predicate HeapAt(cells: Cells, arenas: seq<Arena>) {
    && (forall k: nat | k < |arenas| :: ArenaAt(cells, arenas, k))
    && (forall a | At(cells, a).Header? && !At(cells, a).free :: IsLive(arenas, a))
  }

  /** Frames of an arena. */
  function Frames(a: Arena): set<nat> {
    Run(a.base / PAGE_SIZE, a.total / PAGE_SIZE)
  }

  // ---------------------------------------------------------------- first fit

  ghost predicate NoFitIn(blocks: seq<Blk>, n: nat, i: nat) {
    forall j | 0 <= j < i && j < |blocks| :: !Fits(blocks[j], n)
  }

  ghost predicate NoFit(arenas: seq<Arena>, n: nat, k: nat) {
    forall j | 0 <= j < k && j < |arenas| :: NoFitIn(arenas[j].blocks, n, |arenas[j].blocks|)
  }

  /** Block `i` of arena `k` is the first free block, in list order, with `n` bytes. */
  ghost predicate FirstFit(arenas: seq<Arena>, n: nat, k: nat, i: nat) {
    && k < |arenas| && i < |arenas[k].blocks| && Fits(arenas[k].blocks[i], n)
    && NoFit(arenas, n, k) && NoFitIn(arenas[k].blocks, n, i)
  }

  function WithBlocks(arenas: seq<Arena>, k: nat, blocks: seq<Blk>): seq<Arena>
    requires k < |arenas|
  {
    arenas[k := arenas[k].(blocks := blocks)]
  }

  // ---------------------------------------------------------------- separation

  /** `x` is a payload byte of live block `i` of arena `k`. */
  predicate InLivePayload(arenas: seq<Arena>, k: nat, i: nat, x: nat) {
    && k < |arenas| && i < |arenas[k].blocks| && !arenas[k].blocks[i].free
    && arenas[k].blocks[i].Payload() <= x < arenas[k].blocks[i].End()
  }

  /** Every payload byte of every live block, but for block (k, i), holds what it held. */
  ghost predicate OthersKept(cells: Cells, cells': Cells, arenas: seq<Arena>, k: nat, i: nat) {
    forall k': nat, i': nat, x: nat | InLivePayload(arenas, k', i', x) && (k', i') != (k, i) ::
        At(cells', x) == At(cells, x)
  }

  /** A block lies inside its arena, behind the arena header. */
  lemma BlockInArena(arenas: seq<Arena>, k: nat, i: nat)
    requires ArenasOk(arenas) && k < |arenas| && i < |arenas[k].blocks|
    ensures var b := arenas[k].blocks[i];
      arenas[k].base + HEADER <= b.addr && b.End() <= arenas[k].base + arenas[k].total && b.size > 0
          && b.size % ALIGN == 0 && b.addr % ALIGN == 0
  {
    hide Tiles;
    assert ArenaOk(arenas[k]);
    Aligned(arenas[k].base);
    TilesAt(arenas[k].blocks, arenas[k].base + HEADER, arenas[k].base + arenas[k].total, i);
  }

  lemma Aligned(base: nat)
    requires base % PAGE_SIZE == 0
    ensures (base + HEADER) % ALIGN == 0
  {
  }

  /** Two different blocks of the heap do not overlap, headers included. */
  lemma BlocksApart(arenas: seq<Arena>, k: nat, i: nat, k': nat, i': nat)
    requires ArenasOk(arenas) && k < |arenas| && i < |arenas[k].blocks| && k' < |arenas| && i' < |arenas[k'].blocks|
    requires (k, i) != (k', i')
    ensures arenas[k].blocks[i].End() <= arenas[k'].blocks[i'].addr
      || arenas[k'].blocks[i'].End() <= arenas[k].blocks[i].addr
  {
    BlockInArena(arenas, k, i);
    BlockInArena(arenas, k', i');
    if k == k' {
      var a := arenas[k];
      if i < i' { TilesOrder(a.blocks, a.base + HEADER, a.base + a.total, i, i'); }
      else { TilesOrder(a.blocks, a.base + HEADER, a.base + a.total, i', i); }
    } else {
      assert Apart(arenas[if k < k' then k else k'], arenas[if k < k' then k' else k]);
    }
  }

  /** Live payloads are 16-aligned and pairwise disjoint. */
  lemma LivePayloads(arenas: seq<Arena>, k: nat, i: nat, k': nat, i': nat, x: nat)
    requires ArenasOk(arenas) && InLivePayload(arenas, k, i, x) && InLivePayload(arenas, k', i', x)
    ensures k == k' && i == i' && arenas[k].blocks[i].addr % ALIGN == 0 && HEADER % ALIGN == 0
  {
    hide ArenasOk;
    BlockInArena(arenas, k, i);
    if (k, i) != (k', i') { BlocksApart(arenas, k, i, k', i'); }
  }

  // ---------------------------------------------------------------- allocation in place

  /** What `kmalloc` writes lies in the chosen block or is the header of the next block. */
  lemma CarveOutside(cells: Cells, arenas: seq<Arena>, k: nat, i: nat, n: nat, x: nat)
    requires ArenasOk(arenas) && HeapAt(cells, arenas) && k < |arenas| && i < |arenas[k].blocks|
      && 0 < n <= arenas[k].blocks[i].size
    ensures GoodBlock(cells, arenas[k].blocks[i].addr)
      && At(cells, arenas[k].blocks[i].addr).size == arenas[k].blocks[i].size
    ensures var b := arenas[k].blocks[i];
      !(b.addr <= x < b.End()) && x != NextAddr(arenas[k].blocks, i) ==>
          At(CarveCells(cells, b.addr, n), x) == At(cells, x)
    ensures var b := arenas[k].blocks[i]; var c := At(CarveCells(cells, b.addr, n), x);
      c.Header? && !c.free && x != b.addr ==> At(cells, x).Header? && !At(cells, x).free
  {
    hide CarveCells, IsLive, NoFreeNeighbours;
    var a := arenas[k];
    assert ArenaAt(cells, arenas, k);
    BlockIsGood(cells, a.blocks, a.base + HEADER, a.base + a.total, i);
    CarveAt(cells, a.blocks[i].addr, n, x);
  }

  lemma CarveArenas(arenas: seq<Arena>, k: nat, i: nat, n: nat)
    requires ArenasOk(arenas) && k < |arenas| && i < |arenas[k].blocks|
    requires 0 < n <= arenas[k].blocks[i].size && n % ALIGN == 0 && arenas[k].blocks[i].free
    ensures ArenasOk(WithBlocks(arenas, k, Carve(arenas[k].blocks, i, n)))
  {
    hide Tiles, Carve, NoFreeNeighbours;
    var a := arenas[k];
    CarveTiles(a.blocks, a.base + HEADER, a.base + a.total, i, n);
    CarveNeighbours(a.blocks, i, n);
    CarveLength(a.blocks, i, n);
  }

  lemma CarveLive(arenas: seq<Arena>, k: nat, i: nat, n: nat, x: nat)
    requires k < |arenas| && i < |arenas[k].blocks| && n <= arenas[k].blocks[i].size
    requires IsLive(arenas, x) && arenas[k].blocks[i].free
    ensures IsLive(WithBlocks(arenas, k, Carve(arenas[k].blocks, i, n)), x)
  {
    var k', i' :| 0 <= k' < |arenas| && 0 <= i' < |arenas[k'].blocks| && arenas[k'].blocks[i'].addr == x
        && !arenas[k'].blocks[i'].free;
    var cs := Carve(arenas[k].blocks, i, n);
    var arenas' := WithBlocks(arenas, k, cs);
    if k' == k {
      var j := if i' < i then i' else i' + |Carved(arenas[k].blocks[i], n)| - 1;
      assert cs[j] == arenas[k].blocks[i'];
      assert arenas'[k].blocks[j].addr == x;
    } else {
      assert arenas'[k'].blocks[i'].addr == x;
    }
  }

  lemma CarvedIsLive(arenas: seq<Arena>, k: nat, i: nat, n: nat)
    requires k < |arenas| && i < |arenas[k].blocks| && n <= arenas[k].blocks[i].size
    ensures IsLive(WithBlocks(arenas, k, Carve(arenas[k].blocks, i, n)), arenas[k].blocks[i].addr)
  {
    var arenas' := WithBlocks(arenas, k, Carve(arenas[k].blocks, i, n));
    assert arenas'[k].blocks[i].addr == arenas[k].blocks[i].addr && !arenas'[k].blocks[i].free;
  }

  /** The next header lies in the same arena, behind the block. */
  lemma NextInArena(arenas: seq<Arena>, k: nat, i: nat)
    requires ArenasOk(arenas) && k < |arenas| && i < |arenas[k].blocks|
    ensures var x := NextAddr(arenas[k].blocks, i);
      x == NULL || (x == arenas[k].blocks[i].End() && x + HEADER <= arenas[k].base + arenas[k].total)
  {
    TilesAt(arenas[k].blocks, arenas[k].base + HEADER, arenas[k].base + arenas[k].total, i);
    if i + 1 < |arenas[k].blocks| { BlockInArena(arenas, k, i + 1); }
  }

  lemma CarveHeap(cells: Cells, arenas: seq<Arena>, k: nat, i: nat, n: nat)
    requires ArenasOk(arenas) && HeapAt(cells, arenas) && k < |arenas| && i < |arenas[k].blocks|
    requires 0 < n && n % ALIGN == 0 && Fits(arenas[k].blocks[i], n)
    ensures GoodBlock(cells, arenas[k].blocks[i].addr)
      && At(cells, arenas[k].blocks[i].addr).size == arenas[k].blocks[i].size
    ensures var cells' := CarveCells(cells, arenas[k].blocks[i].addr, n);
        var arenas' := WithBlocks(arenas, k, Carve(arenas[k].blocks, i, n));
      ArenasOk(arenas') && HeapAt(cells', arenas') && OthersKept(cells, cells', arenas, k, i)
  {
    hide CarveCells, Carve, Tiles, NoFreeNeighbours, ArenasOk, IsLive, Linked;
    CarveArenas(arenas, k, i, n);
    CarveOutside(cells, arenas, k, i, n, 0);
    NextInArena(arenas, k, i);
    BlockInArena(arenas, k, i);
    var b := arenas[k].blocks[i];
    var cells', arenas' := CarveCells(cells, b.addr, n), WithBlocks(arenas, k, Carve(arenas[k].blocks, i, n));
    forall k': nat | k' < |arenas'| ensures ArenaAt(cells', arenas', k') { CarveArenaAt(cells, arenas, k, i, n, k'); }
    forall a | At(cells', a).Header? && !At(cells', a).free ensures IsLive(arenas', a) {
      CarveOutside(cells, arenas, k, i, n, a);
      if a == b.addr { CarvedIsLive(arenas, k, i, n); } else { CarveLive(arenas, k, i, n, a); }
    }
    forall k': nat, i': nat, x: nat | InLivePayload(arenas, k', i', x) && (k', i') != (k, i)
      ensures At(cells', x) == At(cells, x) {
      CarveOutside(cells, arenas, k, i, n, x);
      OtherPayload(arenas, k, i, k', i', x);
    }
  }

  /** A payload byte of another block is neither in this block nor a header of its successor. */
  lemma OtherPayload(arenas: seq<Arena>, k: nat, i: nat, k': nat, i': nat, x: nat)
    requires ArenasOk(arenas) && k < |arenas| && i < |arenas[k].blocks| && InLivePayload(arenas, k', i', x)
      && (k', i') != (k, i)
    ensures !(arenas[k].blocks[i].addr <= x < arenas[k].blocks[i].End())
    ensures forall j | 0 <= j < |arenas[k].blocks| :: x != arenas[k].blocks[j].addr
    ensures x != NextAddr(arenas[k].blocks, i)
  {
    BlocksApart(arenas, k, i, k', i');
    BlockInArena(arenas, k', i');
    forall j: nat | j < |arenas[k].blocks| ensures x != arenas[k].blocks[j].addr {
      BlockInArena(arenas, k, j);
      if (k', i') != (k, j) { BlocksApart(arenas, k, j, k', i'); }
    }
  }

  lemma CarveArenaAt(cells: Cells, arenas: seq<Arena>, k: nat, i: nat, n: nat, k': nat)
    requires ArenasOk(arenas) && HeapAt(cells, arenas) && k < |arenas| && i < |arenas[k].blocks|
    requires 0 < n && n % ALIGN == 0 && Fits(arenas[k].blocks[i], n) && k' < |arenas|
    requires GoodBlock(cells, arenas[k].blocks[i].addr)
      && At(cells, arenas[k].blocks[i].addr).size == arenas[k].blocks[i].size
    ensures ArenaAt(CarveCells(cells, arenas[k].blocks[i].addr, n),
        WithBlocks(arenas, k, Carve(arenas[k].blocks, i, n)), k')
  {
    hide CarveCells, Carve, Tiles, NoFreeNeighbours, IsLive, Linked;
    var b := arenas[k].blocks[i];
    var cells' := CarveCells(cells, b.addr, n);
    NextInArena(arenas, k, i);
    BlockInArena(arenas, k, i);
    assert ArenaAt(cells, arenas, k') && ArenaAt(cells, arenas, k);
    assert k' != k ==> Apart(arenas[if k < k' then k else k'], arenas[if k < k' then k' else k]);
    ArenaSpans(arenas, k');
    CarveOutside(cells, arenas, k, i, n, arenas[k'].base);
    if k' == k {
      CarveLinked(cells, arenas[k].blocks, arenas[k].base + HEADER, arenas[k].base + arenas[k].total, i, n);
    } else {
      forall j: nat | j < |arenas[k'].blocks|
        ensures At(cells', arenas[k'].blocks[j].addr) == At(cells, arenas[k'].blocks[j].addr) {
        BlockInArena(arenas, k', j);
        CarveOutside(cells, arenas, k, i, n, arenas[k'].blocks[j].addr);
      }
      LinkedKept(cells, cells', arenas[k'].blocks);
    }
  }

  lemma ArenaSpans(arenas: seq<Arena>, k: nat)
    requires ArenasOk(arenas) && k < |arenas|
    ensures arenas[k].base > 0 && arenas[k].total > HEADER
  {
    assert ArenaOk(arenas[k]);
    TilesEnd(arenas[k].blocks, arenas[k].base + HEADER, arenas[k].base + arenas[k].total);
  }

  // ---------------------------------------------------------------- release in place

  /** The writes of `kfree` on the block at `b`. */
  function ReleaseCells(cells: Cells, b: nat): Cells
    requires At(cells, b).Header?
  {
    var cells1 := FreedCells(cells, b);
    var cells2 := if At(cells1, b).Header? then MergeIfFree(cells1, b) else cells1;
    if At(cells2, b).Header? && At(cells2, b).prev != NULL && At(cells2, At(cells2, b).prev).Header?
       && At(cells2, At(cells2, b).prev).free && At(cells2, At(cells2, b).prev).next == b
    then MergeCells(cells2, At(cells2, b).prev) else cells2
  }

  /** Merges the block at `b` with its successor if that one is free. */
  function MergeIfFree(cells: Cells, b: nat): Cells
    requires At(cells, b).Header?
  {
    if At(cells, b).next != NULL && At(cells, At(cells, b).next).Header? && At(cells, At(cells, b).next).free
    then MergeCells(cells, b) else cells
  }

  /** The three steps of `kfree` on one arena, with the layout of each. */
  lemma ReleaseSteps(cells: Cells, bs: seq<Blk>, at: nat, end: nat, i: nat)
      returns (cells1: Cells, cells2: Cells, bs1: seq<Blk>, bs2: seq<Blk>)
    requires Linked(cells, bs) && Tiles(bs, at, end) && at > 0 && i < |bs|
    ensures At(cells, bs[i].addr).Header? && cells1 == FreedCells(cells, bs[i].addr)
    ensures bs1 == bs[i := bs[i].(free := true)] && Linked(cells1, bs1) && Tiles(bs1, at, end)
    ensures At(cells1, bs[i].addr).Header? && cells2 == MergeIfFree(cells1, bs[i].addr)
    ensures bs2 == MergeNext(bs1, i) && Linked(cells2, bs2) && Tiles(bs2, at, end) && bs2[i].addr == bs[i].addr
    ensures Linked(ReleaseCells(cells, bs[i].addr), Release(bs, i))
  {
    hide Tiles, FreedCells, MergeCells;
    BlockIsGood(cells, bs, at, end, i);
    cells1 := FreedCells(cells, bs[i].addr);
    bs1 := bs[i := bs[i].(free := true)];
    FreedLinked(cells, bs, at, end, i);
    FreedTiles(bs, at, end, i);
    BlockIsGood(cells1, bs1, at, end, i);
    cells2 := MergeIfFree(cells1, bs[i].addr);
    bs2 := MergeNext(bs1, i);
    if i + 1 < |bs1| {
      BlockIsGood(cells1, bs1, at, end, i + 1);
      TilesAt(bs1, at, end, i + 1);
      MergedLinked(cells1, bs1, at, end, i);
      if bs1[i + 1].free { MergedTiles(bs1, at, end, i); }
    }
    BlockIsGood(cells2, bs2, at, end, i);
    if i > 0 {
      BlockIsGood(cells2, bs2, at, end, i - 1);
      TilesAt(bs2, at, end, i - 1);
      MergedLinked(cells2, bs2, at, end, i - 1);
    }
  }

  /** What one merge into a free block writes are headers of its arena, and no header becomes
      live. */
  lemma MergeOutside(cells: Cells, bs: seq<Blk>, at: nat, end: nat, i: nat, x: nat)
    requires Linked(cells, bs) && Tiles(bs, at, end) && at > 0 && i + 1 < |bs| && bs[i].free
    ensures At(cells, bs[i].addr).Header? && At(cells, At(cells, bs[i].addr).next).Header?
    ensures var c := At(MergeCells(cells, bs[i].addr), x);
      && ((forall j | 0 <= j < |bs| :: x != bs[j].addr) ==> c == At(cells, x))
      && (c.Header? && !c.free ==> At(cells, x).Header? && !At(cells, x).free)
  {
    hide Tiles, MergeCells, Linked;
    BlockIsGood(cells, bs, at, end, i);
    BlockIsGood(cells, bs, at, end, i + 1);
    TilesAt(bs, at, end, i);
    TilesAt(bs, at, end, i + 1);
    MergeAt(cells, bs[i].addr, x);
  }

  /** The blocks of an arena after a merge are at addresses where blocks were. */
  lemma MergeNextAddrs(bs: seq<Blk>, i: nat, x: nat)
    requires i < |bs| && forall j | 0 <= j < |bs| :: x != bs[j].addr
    ensures forall j | 0 <= j < |MergeNext(bs, i)| :: x != MergeNext(bs, i)[j].addr
  {
  }

  lemma FreedOutside(cells: Cells, b: Blk, x: nat)
    requires At(cells, b.addr).Header? && At(cells, b.addr).size == b.size
    ensures var c := At(FreedCells(cells, b.addr), x);
      && (!(b.Payload() <= x < b.End()) && x != b.addr ==> c == At(cells, x))
      && (c.Header? && !c.free ==> At(cells, x).Header? && !At(cells, x).free && x != b.addr)
  {
    FreedAt(cells, b.addr, x);
  }

  /** What `kfree` writes is the payload of the block or a header of its arena, and no header
      becomes live. */
  lemma ReleaseOutside(cells: Cells, bs: seq<Blk>, at: nat, end: nat, i: nat, x: nat)
    requires Linked(cells, bs) && Tiles(bs, at, end) && at > 0 && i < |bs|
    ensures At(cells, bs[i].addr).Header?
    ensures !(bs[i].Payload() <= x < bs[i].End()) && (forall j | 0 <= j < |bs| :: x != bs[j].addr) ==>
      At(ReleaseCells(cells, bs[i].addr), x) == At(cells, x)
    ensures var c := At(ReleaseCells(cells, bs[i].addr), x);
      c.Header? && !c.free ==> At(cells, x).Header? && !At(cells, x).free && x != bs[i].addr
  {
    hide Tiles, FreedCells, MergeCells, Linked, MergeNext, Release;
    var cells1, cells2, bs1, bs2 := ReleaseSteps(cells, bs, at, end, i);
    BlockIsGood(cells, bs, at, end, i);
    FreedOutside(cells, bs[i], x);
    BlockIsGood(cells1, bs1, at, end, i);
    if i + 1 < |bs1| {
      BlockIsGood(cells1, bs1, at, end, i + 1);
      TilesAt(bs1, at, end, i + 1);
      MergeOutside(cells1, bs1, at, end, i, x);
    }
    if forall j | 0 <= j < |bs1| :: x != bs1[j].addr { MergeNextAddrs(bs1, i, x); }
    BlockIsGood(cells2, bs2, at, end, i);
    if i > 0 {
      BlockIsGood(cells2, bs2, at, end, i - 1);
      TilesAt(bs2, at, end, i - 1);
      if bs2[i - 1].free { MergeOutside(cells2, bs2, at, end, i - 1, x); }
    }
  }

  lemma ReleaseArenas(arenas: seq<Arena>, k: nat, i: nat)
    requires ArenasOk(arenas) && k < |arenas| && i < |arenas[k].blocks| && !arenas[k].blocks[i].free
    ensures ArenasOk(WithBlocks(arenas, k, Release(arenas[k].blocks, i)))
  {
    hide Tiles, NoFreeNeighbours;
    var a := arenas[k];
    ReleaseTiles(a.blocks, a.base + HEADER, a.base + a.total, i);
    ReleaseNeighbours(a.blocks, i);
    assert Release(a.blocks, i) != [];
  }

  /** Every other live block is still there after a release. */
  lemma ReleaseKeepsLive(bs: seq<Blk>, i: nat, j: nat) returns (j': nat)
    requires i < |bs| && j < |bs| && j != i && !bs[j].free
    ensures j' < |Release(bs, i)| && Release(bs, i)[j'] == bs[j]
  {
    var bs1 := bs[i := bs[i].(free := true)];
    var bs2 := MergeNext(bs1, i);
    var m := |bs1| - |bs2|;
    j' := if j < i then j else j - m;
    assert bs2[j'] == bs[j];
    if i > 0 && bs2[i - 1].free {
      var l := if j' < i then j' else j' - 1;
      assert Merged(bs2, i - 1)[l] == bs[j];
      j' := l;
    }
  }

  lemma ReleaseLive(arenas: seq<Arena>, k: nat, i: nat, x: nat)
    requires k < |arenas| && i < |arenas[k].blocks| && IsLive(arenas, x) && x != arenas[k].blocks[i].addr
    ensures IsLive(WithBlocks(arenas, k, Release(arenas[k].blocks, i)), x)
  {
    hide Release;
    var k', i' :| 0 <= k' < |arenas| && 0 <= i' < |arenas[k'].blocks| && arenas[k'].blocks[i'].addr == x
        && !arenas[k'].blocks[i'].free;
    var arenas' := WithBlocks(arenas, k, Release(arenas[k].blocks, i));
    if k' == k {
      var j := ReleaseKeepsLive(arenas[k].blocks, i, i');
      assert arenas'[k].blocks[j].addr == x;
    } else {
      assert arenas'[k'].blocks[i'].addr == x;
    }
  }

  lemma ReleaseHeap(cells: Cells, arenas: seq<Arena>, k: nat, i: nat)
    requires ArenasOk(arenas) && HeapAt(cells, arenas) && k < |arenas| && i < |arenas[k].blocks|
      && !arenas[k].blocks[i].free
    ensures At(cells, arenas[k].blocks[i].addr).Header?
    ensures var cells' := ReleaseCells(cells, arenas[k].blocks[i].addr);
        var arenas' := WithBlocks(arenas, k, Release(arenas[k].blocks, i));
      ArenasOk(arenas') && HeapAt(cells', arenas') && OthersKept(cells, cells', arenas, k, i)
  {
    hide ReleaseCells, Release, Tiles, NoFreeNeighbours, ArenasOk, IsLive, Linked;
    var a := arenas[k];
    assert ArenaAt(cells, arenas, k);
    ReleaseArenas(arenas, k, i);
    ArenaTiles(arenas, k);
    ReleaseOutside(cells, a.blocks, a.base + HEADER, a.base + a.total, i, 0);
    var cells', arenas' := ReleaseCells(cells, a.blocks[i].addr), WithBlocks(arenas, k, Release(a.blocks, i));
    forall k': nat | k' < |arenas'| ensures ArenaAt(cells', arenas', k') { ReleaseArenaAt(cells, arenas, k, i, k'); }
    forall x | At(cells', x).Header? && !At(cells', x).free ensures IsLive(arenas', x) {
      ReleaseOutside(cells, a.blocks, a.base + HEADER, a.base + a.total, i, x);
      ReleaseLive(arenas, k, i, x);
    }
    forall k': nat, i': nat, x: nat | InLivePayload(arenas, k', i', x) && (k', i') != (k, i)
      ensures At(cells', x) == At(cells, x) {
      ReleaseOutside(cells, a.blocks, a.base + HEADER, a.base + a.total, i, x);
      OtherPayload(arenas, k, i, k', i', x);
    }
  }

  lemma ArenaTiles(arenas: seq<Arena>, k: nat)
    requires ArenasOk(arenas) && k < |arenas|
    ensures Tiles(arenas[k].blocks, arenas[k].base + HEADER, arenas[k].base + arenas[k].total)
  {
    assert ArenaOk(arenas[k]);
  }

  lemma ReleaseArenaAt(cells: Cells, arenas: seq<Arena>, k: nat, i: nat, k': nat)
    requires ArenasOk(arenas) && HeapAt(cells, arenas) && k < |arenas| && i < |arenas[k].blocks| && k' < |arenas|
    requires At(cells, arenas[k].blocks[i].addr).Header?
    ensures ArenaAt(ReleaseCells(cells, arenas[k].blocks[i].addr),
        WithBlocks(arenas, k, Release(arenas[k].blocks, i)), k')
  {
    hide ReleaseCells, Release, Tiles, NoFreeNeighbours, IsLive, Linked, ArenasOk;
    var a := arenas[k];
    var cells' := ReleaseCells(cells, a.blocks[i].addr);
    assert ArenaAt(cells, arenas, k') && ArenaAt(cells, arenas, k);
    ArenaTiles(arenas, k);
    ArenaSpans(arenas, k');
    OutsideArena(arenas, k, i, k', arenas[k'].base);
    ReleaseOutside(cells, a.blocks, a.base + HEADER, a.base + a.total, i, arenas[k'].base);
    if k' == k {
      var c1, c2, b1, b2 := ReleaseSteps(cells, a.blocks, a.base + HEADER, a.base + a.total, i);
    } else {
      forall j: nat | j < |arenas[k'].blocks|
        ensures At(cells', arenas[k'].blocks[j].addr) == At(cells, arenas[k'].blocks[j].addr) {
        BlockInArena(arenas, k', j);
        OutsideArena(arenas, k, i, k', arenas[k'].blocks[j].addr);
        ReleaseOutside(cells, a.blocks, a.base + HEADER, a.base + a.total, i, arenas[k'].blocks[j].addr);
      }
      LinkedKept(cells, cells', arenas[k'].blocks);
    }
  }

  /** Arena headers, and addresses of other arenas, are in no block of arena `k`. */
  lemma OutsideArena(arenas: seq<Arena>, k: nat, i: nat, k': nat, x: nat)
    requires ArenasOk(arenas) && k < |arenas| && i < |arenas[k].blocks| && k' < |arenas|
    requires arenas[k'].base <= x < arenas[k'].base + arenas[k'].total
    requires k' == k ==> x < arenas[k].base + HEADER
    ensures !(arenas[k].blocks[i].addr <= x < arenas[k].blocks[i].End())
    ensures forall j | 0 <= j < |arenas[k].blocks| :: x != arenas[k].blocks[j].addr
  {
    hide ArenaOk;
    assert k' != k ==> Apart(arenas[if k < k' then k else k'], arenas[if k < k' then k' else k]);
    BlockInArena(arenas, k, i);
    forall j: nat | j < |arenas[k].blocks| ensures x != arenas[k].blocks[j].addr { BlockInArena(arenas, k, j); }
  }

  // ---------------------------------------------------------------- a new arena

  /** Pages that an arena for `n` payload bytes takes. */
  function PagesFor(n: nat): nat {
    (HEADER + HEADER + n + PAGE_SIZE - 1) / PAGE_SIZE
  }

  /** A fresh arena: one free block over everything behind the two headers. */
  function NewArena(base: nat, pages: nat): Arena
    requires pages > 0
  {
    Arena(base, pages * PAGE_SIZE, [Blk(base + HEADER, pages * PAGE_SIZE - HEADER - HEADER, true)])
  }

  /** The writes of `heap_expand_size`. */
  function NewArenaCells(cells: Cells, base: nat, pages: nat): Cells
    requires pages > 0
  {
    var total := pages * PAGE_SIZE;
    PutHeader(PutHeader(cells, base, ArenaHeader(NULL, total, base + HEADER)),
              base + HEADER, Header(true, total - HEADER - HEADER, NULL, NULL))
  }

  lemma NewArenaCellsAt(cells: Cells, base: nat, pages: nat, x: nat)
    requires pages > 0
    ensures At(NewArenaCells(cells, base, pages), x) ==
      if x == base then ArenaHeader(NULL, pages * PAGE_SIZE, base + HEADER)
      else if x == base + HEADER then Header(true, pages * PAGE_SIZE - HEADER - HEADER, NULL, NULL)
      else if base < x < base + HEADER + HEADER then Inside
      else At(cells, x)
  {
    hide PutHeader;
    var cells1 := PutHeader(cells, base, ArenaHeader(NULL, pages * PAGE_SIZE, base + HEADER));
    PutHeaderAt(cells, base, ArenaHeader(NULL, pages * PAGE_SIZE, base + HEADER), x);
    PutHeaderAt(cells1, base + HEADER, Header(true, pages * PAGE_SIZE - HEADER - HEADER, NULL, NULL), x);
  }

  /** Arenas in different frames do not overlap. */
  lemma FramesApart(a: Arena, b: Arena)
    requires a.base % PAGE_SIZE == 0 && a.total % PAGE_SIZE == 0 && b.base % PAGE_SIZE == 0 && b.total % PAGE_SIZE == 0
    requires Frames(a) !! Frames(b) && a.total > 0 && b.total > 0
    ensures Apart(a, b)
  {
    assert a.base / PAGE_SIZE in Frames(a);
    assert b.base / PAGE_SIZE in Frames(b);
  }

  lemma NewArenaOk(base: nat, pages: nat)
    requires pages > 0 && base > 0 && base % PAGE_SIZE == 0
    ensures ArenaOk(NewArena(base, pages))
  {
    var bs := NewArena(base, pages).blocks;
    assert bs[1..] == [];
    assert (pages * PAGE_SIZE - HEADER - HEADER) % ALIGN == 0;
  }

  /** After `heap_expand_size` and the appending to the arena list. */
  lemma GrownHeap(cells: Cells, arenas: seq<Arena>, base: nat, pages: nat)
    requires ArenasOk(arenas) && HeapAt(cells, arenas) && |arenas| > 0 && pages > 0 && base > 0 && base % PAGE_SIZE == 0
    requires forall k | 0 <= k < |arenas| :: Frames(arenas[k]) !! Run(base / PAGE_SIZE, pages)
    ensures var last := arenas[|arenas| - 1].base; var cells1 := NewArenaCells(cells, base, pages);
      && At(cells1, last).ArenaHeader?
      && var cells2 := cells1[last := At(cells1, last).(nextArena := base)];
            var arenas' := arenas + [NewArena(base, pages)];
      ArenasOk(arenas') && HeapAt(cells2, arenas') && OthersKept(cells, cells2, arenas, |arenas|, 0)
  {
    hide ArenaOk, NewArenaCells, IsLive, Linked, Run;
    var new_ := NewArena(base, pages);
    var arenas' := arenas + [new_];
    var last := arenas[|arenas| - 1].base;
    var cells1 := NewArenaCells(cells, base, pages);
    assert Frames(new_) == Run(base / PAGE_SIZE, pages);
    NewArenaOk(base, pages);
    forall k: nat | k < |arenas| ensures Apart(arenas[k], new_) {
      ArenaSpans(arenas, k);
      ArenaAligned(arenas, k);
      FramesApart(arenas[k], new_);
    }
    assert ArenasOk(arenas');
    ArenaSpans(arenas, |arenas| - 1);
    assert ArenaAt(cells, arenas, |arenas| - 1);
    NewArenaCellsAt(cells, base, pages, last);
    var cells2 := cells1[last := At(cells1, last).(nextArena := base)];
    forall k: nat | k < |arenas'| ensures ArenaAt(cells2, arenas', k) { GrownArenaAt(cells, arenas, base, pages, k); }
    forall x | At(cells2, x).Header? && !At(cells2, x).free ensures IsLive(arenas', x) {
      NewArenaCellsAt(cells, base, pages, x);
      LiveInMore(arenas, new_, x);
    }
    forall k': nat, i': nat, x: nat | InLivePayload(arenas, k', i', x) ensures At(cells2, x) == At(cells, x) {
      BlockInArena(arenas, k', i');
      assert Apart(arenas[k'], new_);
      NewArenaCellsAt(cells, base, pages, x);
      if k' != |arenas| - 1 { assert Apart(arenas[k'], arenas[|arenas| - 1]); }
    }
  }

  lemma ArenaAligned(arenas: seq<Arena>, k: nat)
    requires ArenasOk(arenas) && k < |arenas|
    ensures arenas[k].base % PAGE_SIZE == 0 && arenas[k].total % PAGE_SIZE == 0
  {
    assert ArenaOk(arenas[k]);
  }

  lemma LiveInMore(arenas: seq<Arena>, a: Arena, x: nat)
    requires IsLive(arenas, x)
    ensures IsLive(arenas + [a], x)
  {
    var k, i :| 0 <= k < |arenas| && 0 <= i < |arenas[k].blocks| && arenas[k].blocks[i].addr == x
        && !arenas[k].blocks[i].free;
    assert (arenas + [a])[k].blocks[i].addr == x;
  }

  lemma GrownArenaAt(cells: Cells, arenas: seq<Arena>, base: nat, pages: nat, k: nat)
    requires pages > 0 && base > 0 && ArenasOk(arenas + [NewArena(base, pages)]) && HeapAt(cells, arenas)
      && |arenas| > 0
    requires k <= |arenas| && At(NewArenaCells(cells, base, pages), arenas[|arenas| - 1].base).ArenaHeader?
    ensures var last := arenas[|arenas| - 1].base; var cells1 := NewArenaCells(cells, base, pages);
      ArenaAt(cells1[last := At(cells1, last).(nextArena := base)], arenas + [NewArena(base, pages)], k)
  {
    hide ArenaOk, NewArenaCells, IsLive, Linked;
    var arenas' := arenas + [NewArena(base, pages)];
    var last := arenas[|arenas| - 1].base;
    var cells1 := NewArenaCells(cells, base, pages);
    var cells2 := cells1[last := At(cells1, last).(nextArena := base)];
    ArenaSpans(arenas', k);
    ArenaSpans(arenas', |arenas| - 1);
    ArenaSpans(arenas', |arenas|);
    assert Apart(arenas'[|arenas| - 1], arenas'[|arenas|]);
    NewArenaCellsAt(cells, base, pages, arenas'[k].base);
    if k < |arenas| {
      assert ArenaAt(cells, arenas, k);
      assert Apart(arenas'[k], arenas'[|arenas|]);
      if k < |arenas| - 1 { assert Apart(arenas'[k], arenas'[|arenas| - 1]); }
      forall j: nat | j < |arenas[k].blocks|
        ensures At(cells2, arenas[k].blocks[j].addr) == At(cells, arenas[k].blocks[j].addr) {
        BlockInArena(arenas', k, j);
        NewArenaCellsAt(cells, base, pages, arenas[k].blocks[j].addr);
      }
      LinkedKept(cells, cells2, arenas[k].blocks);
    } else {
      NewArenaCellsAt(cells, base, pages, base + HEADER);
      assert Linked(cells2, NewArena(base, pages).blocks) by { OneLinked(cells2, NewArena(base, pages).blocks); }
    }
  }

  lemma OneLinked(cells: Cells, bs: seq<Blk>)
    requires |bs| == 1 && At(cells, bs[0].addr) == Header(bs[0].free, bs[0].size, NULL, NULL)
    ensures Linked(cells, bs)
  {
  }

  // ---------------------------------------------------------------- the heap object

  class KernelHeap {
    var cells: Cells
    var arenaList: nat
    const pmm: FrameAllocator

    /** The abstract state: the arenas with their block layouts. */
    ghost var arenas: seq<Arena>

    /** The invariant of all runs of `KMalloc` and `KFree`. */
    ghost predicate Valid()
      reads this, pmm, pmm.bitmap
    {
      && pmm.Valid() && 0 !in pmm.free && Shape()
      && forall k | 0 <= k < |arenas| :: Frames(arenas[k]) !! pmm.free
    }

    /** Memory holds the arenas. */
    ghost predicate Shape()
      reads this
    {
      |arenas| > 0 && arenaList == arenas[0].base && ArenasOk(arenas) && HeapAt(cells, arenas)
    }

    constructor (pmm: FrameAllocator)
      ensures this.pmm == pmm && cells == map[] && arenaList == NULL && arenas == []
    {
      this.pmm, cells, arenaList, arenas := pmm, map[], NULL, [];
    }

    /** `heap_memset`. */
    method Memset(dest: nat, val: byte, count: nat)
      modifies this`cells
      ensures cells == Fill(old(cells), dest, count, Byte(val))
      ensures forall x: nat :: At(cells, x) == if dest <= x < dest + count then Byte(val) else At(old(cells), x)
    {
      forall x: nat ensures At(Fill(cells, dest, count, Byte(val)), x) == if dest <= x < dest + count then Byte(val)
          else At(cells, x) {
        FillAt(cells, dest, count, Byte(val), x);
      }
      for i := 0 to count
        invariant cells == Fill(old(cells), dest, i, Byte(val))
      {
        cells := cells[dest + i := Byte(val)];
      }
    }

    /** The two search loops of `kmalloc`: the address of the first block that fits, or NULL. */
    method FindBlock(n: nat) returns (block: nat, ghost k: nat, ghost i: nat)
      requires Valid()
      ensures block == NULL <==> NoFit(arenas, n, |arenas|)
      ensures block != NULL ==> FirstFit(arenas, n, k, i) && block == arenas[k].blocks[i].addr
    {
      hide pmm.Valid, ArenaOk, Tiles, IsLive, Linked, Run, Frames;
      var arena := arenaList;
      k, i := 0, 0;
      ArenaSpans(arenas, 0);
      while arena != NULL
        invariant k <= |arenas| && arena == (if k < |arenas| then arenas[k].base else NULL)
        invariant NoFit(arenas, n, k) && (k < |arenas| ==> arena > 0)
        decreases |arenas| - k
      {
        assert ArenaAt(cells, arenas, k);
        ArenaBlocks(arenas, k);
        block := At(cells, arena).first;
        i := 0;
        while block != NULL
          invariant i <= |arenas[k].blocks|
            && block == (if i < |arenas[k].blocks| then arenas[k].blocks[i].addr else NULL)
          invariant NoFitIn(arenas[k].blocks, n, i) && (i < |arenas[k].blocks| ==> block > 0)
          decreases |arenas[k].blocks| - i
        {
          assert HeaderIs(cells, arenas[k].blocks, i) by { LinkedAt(cells, arenas[k].blocks, i); }
          BlockInArena(arenas, k, i);
          if At(cells, block).free && At(cells, block).size >= n {
            FitIsPositive(arenas, n, k, i);
            return;
          }
          block := At(cells, block).next;
          i := i + 1;
          if i < |arenas[k].blocks| { BlockInArena(arenas, k, i); }
        }
        arena := At(cells, arena).nextArena;
        k := k + 1;
        if k < |arenas| { ArenaSpans(arenas, k); }
      }
      block := NULL;
    }

    /** What `kmalloc` does to the block it has found. */
    method TakeBlock(block: nat, n: nat)
      requires GoodBlock(cells, block) && n <= At(cells, block).size
      modifies this`cells
      ensures cells == CarveCells(old(cells), block, n)
    {
      var remainder := At(cells, block).size - n;
      ghost var h := At(cells, block);
      if remainder >= HEADER + ALIGN {
        var newBlock := block + HEADER + n;
        SplitAt(cells, block, n, block);
        var next := At(cells, block).next;
        cells := PutHeader(cells, newBlock, Header(true, remainder - HEADER, next, block));
        PutHeaderAt(old(cells), newBlock, Header(true, remainder - HEADER, next, block), next);
        PutHeaderAt(old(cells), newBlock, Header(true, remainder - HEADER, next, block), block);
        if next != NULL { cells := cells[next := At(cells, next).(prev := newBlock)]; }
        assert cells == SplitCells(old(cells), block, n);
        cells := cells[block := At(cells, block).(next := newBlock)];
        assert At(cells, block).Header?;
        cells := cells[block := At(cells, block).(size := n)];
        assert At(cells, block) == h.(size := n, next := newBlock);
      }
      cells := cells[block := At(cells, block).(free := false)];
      assert Splits(h, n) ==>
          cells == SplitCells(old(cells), block, n)[block := h.(free := false, size := n, next := block + HEADER + n)];
      Memset(block + HEADER, 0xAA, At(cells, block).size);
    }

    /** `heap_expand_size`: a new arena for `needed` payload bytes; the address 0 when there is no
        long enough run of frames. */
    method ExpandSize(needed: nat) returns (r: Outcome<nat>)
      requires pmm.Valid() && 0 !in pmm.free
      modifies this`cells, pmm`freeFrames, pmm`free, pmm.bitmap
      ensures pmm.Valid() && 0 !in pmm.free && PagesFor(needed) > 0
      ensures r.Halted? <==> PagesFor(needed) == 1 && old(pmm.free) == {}
      ensures r == Done(0) <==> !r.Halted? && !HasRun(old(pmm.free), PagesFor(needed))
      ensures r.Halted? || r == Done(0) ==> cells == old(cells) && pmm.free == old(pmm.free)
      ensures r.Done? && r.value != 0 ==>
                && r.value % PAGE_SIZE == 0 && LowestRun(old(pmm.free), PagesFor(needed), r.value / PAGE_SIZE)
                && pmm.free == old(pmm.free) - Run(r.value / PAGE_SIZE, PagesFor(needed))
                && cells == NewArenaCells(old(cells), r.value, PagesFor(needed))
    {
      hide pmm.Valid, PutHeader, HasRun, LowestRun, Run;
      var pages := PagesFor(needed);
      var first := pmm.AllocFramesContiguous(pages);
      if first.Halted? { return Halted; }
      RunNotZero(old(pmm.free), pages, first.value / PAGE_SIZE);
      if first.value == 0 { return Done(0); }
      var arena := first.value;
      cells := PutHeader(cells, arena, ArenaHeader(NULL, pages * PAGE_SIZE, arena + HEADER));
      cells := PutHeader(cells, arena + HEADER, Header(true, pages * PAGE_SIZE - HEADER - HEADER, NULL, NULL));
      return Done(arena);
    }

    /** `heap_init`: the first arena, for one page of payload. Without it the heap stays unusable;
        that is so exactly when no two adjacent frames are free. */
    method HeapInit()
      requires pmm.Valid() && 0 !in pmm.free && cells == map[] && arenas == []
      modifies this, pmm`freeFrames, pmm`free, pmm.bitmap
      ensures arenaList != NULL <==> HasRun(old(pmm.free), 2)
      ensures arenaList == NULL ==> pmm.Valid() && pmm.free == old(pmm.free) && arenas == []
      ensures arenaList != NULL ==>
                && Valid() && arenas == [NewArena(arenaList, 2)] && LowestRun(old(pmm.free), 2, arenaList / PAGE_SIZE)
                && pmm.free == old(pmm.free) - Run(arenaList / PAGE_SIZE, 2)
    {
      hide pmm.Valid, Run, HasRun, LowestRun, NewArenaCells, ArenasOk, HeapAt;
      var a := ExpandSize(PAGE_SIZE);
      assert PagesFor(PAGE_SIZE) == 2;
      arenaList := a.value;
      if a.value != 0 {
        arenas := [NewArena(a.value, 2)];
        FirstArena(cells, a.value);
        NewFrames(a.value, 2);
      }
    }

    /** The appending of a new arena at the end of the list. `before` is the memory without the
        headers of the new arena. */
    method AppendArena(newArena: nat, ghost pages: nat, ghost before: Cells)
      requires |arenas| > 0 && arenaList == arenas[0].base && ArenasOk(arenas)
      requires pages > 0 && newArena > 0 && newArena % PAGE_SIZE == 0
      requires HeapAt(before, arenas) && cells == NewArenaCells(before, newArena, pages)
      requires forall k | 0 <= k < |arenas| :: Frames(arenas[k]) !! Run(newArena / PAGE_SIZE, pages)
      modifies this`cells, this`arenas
      ensures arenas == old(arenas) + [NewArena(newArena, pages)] && ArenasOk(arenas) && HeapAt(cells, arenas)
      ensures OthersKept(before, cells, old(arenas), |old(arenas)|, 0)
    {
      hide NewArenaCells, IsLive, Linked, Run, Frames, HeapAt, ArenasOk;
      var arena := arenaList;
      ghost var k := 0;
      OldArenaHeader(before, arenas, newArena, pages, 0);
      while At(cells, arena).nextArena != NULL
        invariant arenas == old(arenas) && cells == old(cells)
        invariant k < |arenas| && arena == arenas[k].base
        invariant At(cells, arena) == ArenaHeader(NextArena(arenas, k), arenas[k].total, arena + HEADER)
        decreases |arenas| - k
      {
        arena := At(cells, arena).nextArena;
        k := k + 1;
        OldArenaHeader(before, arenas, newArena, pages, k);
      }
      if k + 1 < |arenas| { OldArenaHeader(before, arenas, newArena, pages, k + 1); }
      GrownHeap(before, arenas, newArena, pages);
      cells := cells[arena := At(cells, arena).(nextArena := newArena)];
      arenas := arenas + [NewArena(newArena, pages)];
    }

    /** The end of `kmalloc` once a block is found. */
    method Allocate(block: nat, n: nat, ghost k: nat, ghost i: nat)
      requires Valid() && n > 0 && n % ALIGN == 0
      requires FirstFit(arenas, n, k, i) && block == arenas[k].blocks[i].addr
      modifies this`cells, this`arenas
      ensures Valid() && Allocated(old(cells), old(arenas), cells, arenas, n, k, i)
    {
      hide pmm.Valid, ArenasOk, HeapAt, OthersKept, CarveCells, Carve, NoFit, NoFitIn, Run;
      CarveHeap(cells, arenas, k, i, n);
      CarveFills(cells, block, n);
      assert At(cells, block).size == arenas[k].blocks[i].size by { SizeHere(cells, arenas, k, i); }
      TakeBlock(block, n);
      arenas := WithBlocks(arenas, k, Carve(arenas[k].blocks, i, n));
    }

    /** `kmalloc`. The result 0 is NULL; (k, i) is the block that has been allocated, if any. */
    method KMalloc(size: nat) returns (r: Outcome<nat>, ghost k: nat, ghost i: nat)
      requires Valid()
      modifies this`cells, this`arenas, pmm`freeFrames, pmm`free, pmm.bitmap
      ensures Valid()
      ensures size == 0 ==> r == Done(NULL)
      ensures size > 0 && !NoFit(old(arenas), AlignUp(size), |old(arenas)|) ==>
                && Allocated(old(cells), old(arenas), cells, arenas, AlignUp(size), k, i)
                && r == Done(old(arenas)[k].blocks[i].Payload()) && pmm.free == old(pmm.free)
      ensures size > 0 && NoFit(old(arenas), AlignUp(size), |old(arenas)|) ==> var pages := PagesFor(AlignUp(size));
                && (r.Halted? <==> pages == 1 && old(pmm.free) == {})
                && (r == Done(NULL) <==> !r.Halted? && !HasRun(old(pmm.free), pages))
                && (r.Done? && r.value != NULL ==>
                      k == |old(arenas)| < |arenas| && i == 0 && r.value == arenas[k].base + HEADER + HEADER
                      && AllocatedInNew(old(cells), old(arenas), cells, arenas, AlignUp(size), old(pmm.free), pmm.free))
      ensures r.Halted? || r == Done(NULL) ==> cells == old(cells) && arenas == old(arenas) && pmm.free == old(pmm.free)
      ensures size > 0 && |arenas| == |old(arenas)| ==>
                if r.Done? && r.value != NULL
                then TakenIn(old(arenas), arenas, k, i, AlignUp(size), r.value)
                else forall j | 0 <= j < |arenas| :: AllShort(arenas[j].blocks, |arenas[j].blocks|, AlignUp(size))
      ensures |arenas| != |old(arenas)| ==>
                r.Done? && TakenInNew(old(arenas), arenas, AlignUp(size), r.value)
      decreases if NoFit(arenas, AlignUp(size), |arenas|) then 1 else 0
    {
      hide pmm.Valid, ArenasOk, HeapAt, OthersKept, Run, Carve, ArenaOk, LowestRun, HasRun, NewArenaCells, FirstFit,
          NoFit, AllShort, TakenIn, TakenInNew;
      k, i := 0, 0;
      if size == 0 { return Done(NULL), k, i; }
      var n := AlignUp(size);
      var block;
      block, k, i := FindBlock(n);
      if block != NULL {
        FitIsPositive(arenas, n, k, i);
        ghost var before := arenas;
        Allocate(block, n, k, i);
        FitTakes(before, k, i, n);
        return Done(block + HEADER), k, i;
      }
      NoneFits(arenas, n, |arenas|);
      var newArena := ExpandSize(n);
      if newArena.Halted? { return Halted, k, i; }
      if newArena.value == NULL { return Done(NULL), k, i; }
      ghost var pages := PagesFor(n);
      assert forall j | 0 <= j < |arenas| :: Frames(arenas[j]) !! Run(newArena.value / PAGE_SIZE, pages) by {
        RunInFree(old(pmm.free), pages, newArena.value / PAGE_SIZE);
      }
      AppendArena(newArena.value, pages, old(cells));
      NewArenaFits(old(arenas), newArena.value, n);
      NewFrames(newArena.value, pages);
      ghost var mid, midCells := arenas, cells;
      r, k, i := KMalloc(size);
      OnlyNewFits(old(arenas), newArena.value, n, k, i);
      NewTakes(old(arenas), mid, arenas, newArena.value, n, r.value);
      KeptThrough(old(cells), midCells, cells, old(arenas), newArena.value, pages);
    }

    /** The merging of a block with its free successor. */
    method MergeWithNext(block: nat)
      requires GoodBlock(cells, block) && block != NULL && At(cells, block).next != NULL
        && GoodBlock(cells, At(cells, block).next)
      modifies this`cells
      ensures cells == MergeCells(old(cells), block)
    {
      var next := At(cells, block).next;
      cells := cells[block := At(cells, block).(size := At(cells, block).size + HEADER + At(cells, next).size)];
      assert At(cells, block).Header?;
      cells := cells[block := At(cells, block).(next := At(cells, next).next)];
      var after := At(cells, next).next;
      if after != NULL {
        assert At(cells, after).Header?;
        cells := cells[after := At(cells, after).(prev := block)];
      }
    }

    /** The merging of a block into its free predecessor. */
    method MergeIntoPrev(block: nat)
      requires GoodBlock(cells, block) && At(cells, block).prev != NULL && GoodBlock(cells, At(cells, block).prev)
      requires At(cells, At(cells, block).prev).next == block && block != NULL
      modifies this`cells
      ensures cells == MergeCells(old(cells), old(At(cells, block).prev))
    {
      var prev := At(cells, block).prev;
      cells := cells[prev := At(cells, prev).(size := At(cells, prev).size + HEADER + At(cells, block).size)];
      assert At(cells, prev).Header?;
      cells := cells[prev := At(cells, prev).(next := At(cells, block).next)];
      var after := At(cells, block).next;
      if after != NULL {
        assert At(cells, after).Header?;
        cells := cells[after := At(cells, after).(prev := prev)];
      }
    }

    /** What `kfree` does to a live block. */
    method ReleaseBlock(block: nat, ghost k: nat, ghost i: nat)
      requires ArenasOk(arenas) && HeapAt(cells, arenas) && k < |arenas| && i < |arenas[k].blocks|
      requires !arenas[k].blocks[i].free && block == arenas[k].blocks[i].addr && At(cells, block).Header?
      modifies this`cells
      ensures cells == ReleaseCells(old(cells), block)
    {
      hide ArenasOk, FreedCells, MergeCells, HeapAt, Tiles, Linked, Release, ArenaOk, GoodBlock;
      ghost var bs, at, end := arenas[k].blocks, arenas[k].base + HEADER, arenas[k].base + arenas[k].total;
      assert ArenaAt(cells, arenas, k) by { HeapArena(cells, arenas, k); }
      ArenaTiles(arenas, k);
      ghost var cells1, cells2, bs1, bs2 := ReleaseSteps(cells, bs, at, end, i);
      cells := cells[block := At(cells, block).(free := true)];
      Memset(block + HEADER, 0xDD, At(cells, block).size);
      assert cells == cells1 by { FreedIs(old(cells), block); }
      StepFacts(cells1, bs1, at, end, i);
      if At(cells, block).next != NULL && At(cells, At(cells, block).next).Header?
          && At(cells, At(cells, block).next).free {
        MergeWithNext(block);
      }
      assert cells == cells2;
      StepFacts(cells2, bs2, at, end, i);
      if At(cells, block).prev != NULL && At(cells, At(cells, block).prev).Header?
          && At(cells, At(cells, block).prev).free {
        MergeIntoPrev(block);
      }
    }

    /** `kfree`. It halts unless `ptr` is NULL or the payload address of a live block. */
    method KFree(ptr: nat) returns (r: Outcome<()>, ghost k: nat, ghost i: nat)
      requires Valid()
      modifies this`cells, this`arenas
      ensures Valid()
      ensures r.Done? <==> ptr == NULL || (ptr >= HEADER && IsLive(old(arenas), ptr - HEADER))
      ensures ptr == NULL || r.Halted? ==> cells == old(cells) && arenas == old(arenas)
      ensures ptr != NULL && r.Done? ==>
          LiveAt(old(arenas), k, i, ptr) && Freed(old(cells), old(arenas), cells, arenas, k, i)
    {
      hide pmm.Valid, ArenasOk, HeapAt, OthersKept, Release, ReleaseCells, Run;
      k, i := 0, 0;
      if ptr == NULL { return Done(()), k, i; }
      if ptr < HEADER { return Halted, k, i; }
      var block := ptr - HEADER;
      LiveHeaders(cells, arenas, block);
      if !At(cells, block).Header? { return Halted, k, i; }
      if At(cells, block).free { return Halted, k, i; }
      k, i :| 0 <= k < |arenas| && 0 <= i < |arenas[k].blocks| && arenas[k].blocks[i].addr == block
          && !arenas[k].blocks[i].free;
      ReleaseHeap(cells, arenas, k, i);
      ReleaseFills(cells, arenas, k, i);
      ReleaseBlock(block, k, i);
      arenas := WithBlocks(arenas, k, Release(arenas[k].blocks, i));
      return Done(()), k, i;
    }
  }

  // ---------------------------------------------------------------- what the calls promise

  /** Block (k, i), the first that fits, has been allocated for `n` bytes and filled with 0xAA;
      no payload byte of any other live block has changed. */
  ghost predicate Allocated(cells: Cells, arenas: seq<Arena>, cells': Cells, arenas': seq<Arena>, n: nat, k: nat,
                            i: nat) {
    && FirstFit(arenas, n, k, i)
    && arenas' == WithBlocks(arenas, k, Carve(arenas[k].blocks, i, n))
    && OthersKept(cells, cells', arenas, k, i)
    && Filled(cells', arenas[k].blocks[i].Payload(), Carved(arenas[k].blocks[i], n)[0].size, 0xAA)
  }

  /** `n` bytes from `a` on are `v`. */
  ghost predicate Filled(cells: Cells, a: nat, n: nat, v: byte) {
    forall x | a <= x < a + n :: At(cells, x) == Byte(v)
  }

  /** The same in a new arena at the end of the list, in the lowest run of free frames. */
  ghost predicate AllocatedInNew(cells: Cells, arenas: seq<Arena>, cells': Cells, arenas': seq<Arena>, n: nat,
                                 free: set<nat>, free': set<nat>) {
    && |arenas'| == |arenas| + 1 && PagesFor(n) > 0
    && var new_ := arenas'[|arenas|]; var blocks := NewArena(new_.base, PagesFor(n)).blocks;
    && n <= blocks[0].size
    && arenas' == arenas + [NewArena(new_.base, PagesFor(n)).(blocks := Carve(blocks, 0, n))]
    && new_.base % PAGE_SIZE == 0 && LowestRun(free, PagesFor(n), new_.base / PAGE_SIZE)
    && free' == free - Run(new_.base / PAGE_SIZE, PagesFor(n))
    && OthersKept(cells, cells', arenas, |arenas|, 0)
    && Filled(cells', blocks[0].Payload(), Carved(blocks[0], n)[0].size, 0xAA)
  }

  /** `ptr` is the payload address of live block (k, i). */
  ghost predicate LiveAt(arenas: seq<Arena>, k: nat, i: nat, ptr: nat) {
    k < |arenas| && i < |arenas[k].blocks| && !arenas[k].blocks[i].free && arenas[k].blocks[i].Payload() == ptr
  }

  /** Block (k, i) has been freed and merged with its free neighbours. */
  ghost predicate Freed(cells: Cells, arenas: seq<Arena>, cells': Cells, arenas': seq<Arena>, k: nat, i: nat) {
    && k < |arenas| && i < |arenas[k].blocks|
    && arenas' == WithBlocks(arenas, k, Release(arenas[k].blocks, i))
    && OthersKept(cells, cells', arenas, k, i)
    && Filled(cells', arenas[k].blocks[i].Payload(), arenas[k].blocks[i].size, 0xDD)
  }

  /** Of the first `n` blocks, the free ones are shorter than `size`. */
  ghost predicate AllShort(blocks: seq<Blk>, n: nat, size: nat) {
    forall i | 0 <= i < n && i < |blocks| :: blocks[i].free ==> blocks[i].size < size
  }

  /** `n` bytes at `ptr` were taken of block (k, i), and all free blocks before it are shorter; all
      other blocks are as before. */
  ghost predicate TakenIn(arenas: seq<Arena>, arenas': seq<Arena>, k: nat, i: nat, n: nat, ptr: nat) {
    && |arenas'| == |arenas| && k < |arenas| && i < |arenas'[k].blocks|
    && arenas'[k].base == arenas[k].base && arenas'[k].total == arenas[k].total
    && (forall j | 0 <= j < |arenas| && j != k :: arenas'[j] == arenas[j])
    && Taken(arenas[k].blocks, arenas'[k].blocks, i, n) && ptr == arenas'[k].blocks[i].addr + 32
    && AllShort(arenas[k].blocks, i, n)
    && forall j | 0 <= j < k :: AllShort(arenas[j].blocks, |arenas[j].blocks|, n)
  }

  /** No block was long enough, and `n` bytes were taken in a new arena of as many pages as are
      needed for them and two headers. */
  ghost predicate TakenInNew(arenas: seq<Arena>, arenas': seq<Arena>, n: nat, ptr: nat) {
    && |arenas'| == |arenas| + 1 && arenas'[..|arenas|] == arenas
    && (forall j | 0 <= j < |arenas| :: AllShort(arenas[j].blocks, |arenas[j].blocks|, n))
    && var a := arenas'[|arenas|];
    && a.total % PAGE_SIZE == 0 && n + 64 <= a.total < n + 64 + PAGE_SIZE && a.blocks != []
    && Taken([Blk(a.base + 32, a.total - 64, true)], a.blocks, 0, n) && ptr == a.base + 64
  }

  lemma NoneFits(arenas: seq<Arena>, n: nat, k: nat)
    requires NoFit(arenas, n, k) && k <= |arenas|
    ensures forall j | 0 <= j < k :: AllShort(arenas[j].blocks, |arenas[j].blocks|, n)
  {
    forall j | 0 <= j < k ensures AllShort(arenas[j].blocks, |arenas[j].blocks|, n) {
      ShortIn(arenas[j].blocks, n, |arenas[j].blocks|);
    }
  }

  lemma ShortIn(blocks: seq<Blk>, n: nat, i: nat)
    requires NoFitIn(blocks, n, i)
    ensures AllShort(blocks, i, n)
  {
  }

  lemma FitTakes(arenas: seq<Arena>, k: nat, i: nat, n: nat)
    requires FirstFit(arenas, n, k, i)
    ensures TakenIn(arenas, WithBlocks(arenas, k, Carve(arenas[k].blocks, i, n)), k, i, n,
                    arenas[k].blocks[i].addr + HEADER)
  {
    hide Carve, AllShort;
    CarveTakes(arenas[k].blocks, i, n);
    NoneFits(arenas, n, k);
    ShortIn(arenas[k].blocks, n, i);
  }

  lemma NewTakes(arenas: seq<Arena>, mid: seq<Arena>, arenas': seq<Arena>, base: nat, n: nat,
                 ptr: nat)
    requires NoFit(arenas, n, |arenas|) && PagesFor(n) > 0 && mid == arenas + [NewArena(base, PagesFor(n))]
    requires TakenIn(mid, arenas', |arenas|, 0, n, ptr)
    ensures TakenInNew(arenas, arenas', n, ptr)
  {
    hide AllShort;
    NoneFits(arenas, n, |arenas|);
    var a := arenas'[|arenas|];
    assert mid[|arenas|].blocks == [Blk(a.base + 32, a.total - 64, true)];
    assert a.total == PAGE_SIZE * PagesFor(n);
    assert forall j | 0 <= j < |arenas| :: arenas'[j] == mid[j] == arenas[j];
  }

  /** The blocks that are live after `kfree` are those that were, but for the one given back. */
  lemma FreedLives(cells: Cells, arenas: seq<Arena>, cells': Cells, arenas': seq<Arena>, k: nat, i: nat, j: nat,
                   addr: nat, size: nat)
    requires ArenasOk(arenas) && Freed(cells, arenas, cells', arenas', k, i) && !arenas[k].blocks[i].free
    requires j < |arenas|
    ensures |arenas'| == |arenas|
    ensures LiveIn(arenas'[j].blocks, addr, size)
      <==> LiveIn(arenas[j].blocks, addr, size) && (j == k ==> addr != arenas[k].blocks[i].addr)
  {
    hide Release, LiveIn, Tiles;
    assert ArenaOk(arenas[k]);
    if j == k {
      OneEnds(arenas[k].blocks, arenas[k].base + HEADER, arenas[k].base + arenas[k].total, i, addr, size);
    }
  }

  lemma CarveFills(cells: Cells, b: nat, n: nat)
    requires GoodBlock(cells, b) && n <= At(cells, b).size
    ensures Filled(CarveCells(cells, b, n), b + HEADER, if Splits(At(cells, b), n) then n else At(cells, b).size, 0xAA)
  {
    hide CarveCells;
    forall x | b + HEADER <= x < b + HEADER + (if Splits(At(cells, b), n) then n else At(cells, b).size)
      ensures At(CarveCells(cells, b, n), x) == Byte(0xAA) {
      CarveAt(cells, b, n, x);
    }
  }

  lemma ReleaseFills(cells: Cells, arenas: seq<Arena>, k: nat, i: nat)
    requires ArenasOk(arenas) && HeapAt(cells, arenas) && k < |arenas| && i < |arenas[k].blocks|
    ensures At(cells, arenas[k].blocks[i].addr).Header?
    ensures Filled(ReleaseCells(cells, arenas[k].blocks[i].addr), arenas[k].blocks[i].Payload(),
        arenas[k].blocks[i].size, 0xDD)
  {
    hide ReleaseCells, Tiles, Linked, ArenasOk, HeapAt;
    HeapArena(cells, arenas, k);
    ArenaTiles(arenas, k);
    var a := arenas[k];
    var b := a.blocks[i];
    HeaderHere(cells, a.blocks, i);
    forall x | b.Payload() <= x < b.End() ensures At(ReleaseCells(cells, b.addr), x) == Byte(0xDD) {
      ReleasePayload(cells, a.blocks, a.base + HEADER, a.base + a.total, i, x);
    }
  }

  lemma HeaderHere(cells: Cells, bs: seq<Blk>, i: nat)
    requires Linked(cells, bs) && i < |bs|
    ensures At(cells, bs[i].addr).Header?
  {
    assert HeaderIs(cells, bs, i);
  }

  lemma ReleasePayload(cells: Cells, bs: seq<Blk>, at: nat, end: nat, i: nat, x: nat)
    requires Linked(cells, bs) && Tiles(bs, at, end) && at > 0 && i < |bs| && bs[i].Payload() <= x < bs[i].End()
    ensures At(cells, bs[i].addr).Header? && At(ReleaseCells(cells, bs[i].addr), x) == Byte(0xDD)
  {
    hide Tiles, FreedCells, MergeCells, Linked;
    var cells1, cells2, bs1, bs2 := ReleaseSteps(cells, bs, at, end, i);
    BlockIsGood(cells, bs, at, end, i);
    BlockIsGood(cells1, bs1, at, end, i);
    FreedAt(cells, bs[i].addr, x);
    TilesAt(bs, at, end, i);
    if i + 1 < |bs1| {
      BlockIsGood(cells1, bs1, at, end, i + 1);
      TilesAt(bs1, at, end, i + 1);
      MergeAt(cells1, bs[i].addr, x);
    }
    BlockIsGood(cells2, bs2, at, end, i);
    if i > 0 {
      BlockIsGood(cells2, bs2, at, end, i - 1);
      TilesOrder(bs, at, end, i - 1, i);
      TilesAt(bs2, at, end, i - 1);
      MergeAt(cells2, bs2[i - 1].addr, x);
    }
  }

  lemma SizeHere(cells: Cells, arenas: seq<Arena>, k: nat, i: nat)
    requires HeapAt(cells, arenas) && k < |arenas| && i < |arenas[k].blocks|
    ensures At(cells, arenas[k].blocks[i].addr).Header?
      && At(cells, arenas[k].blocks[i].addr).size == arenas[k].blocks[i].size
  {
    hide Linked;
    HeapArena(cells, arenas, k);
    LinkedAt(cells, arenas[k].blocks, i);
  }

  lemma FitIsPositive(arenas: seq<Arena>, n: nat, k: nat, i: nat)
    requires FirstFit(arenas, n, k, i)
    ensures k < |arenas| && i < |arenas[k].blocks| && !NoFit(arenas, n, |arenas|)
  {
    assert Fits(arenas[k].blocks[i], n);
    assert !NoFitIn(arenas[k].blocks, n, |arenas[k].blocks|);
  }

  lemma RunInFree(free: set<nat>, count: nat, s: nat)
    requires LowestRun(free, count, s)
    ensures Run(s, count) <= free
  {
  }

  lemma NewFrames(base: nat, pages: nat)
    requires pages > 0
    ensures Frames(NewArena(base, pages)) == Run(base / PAGE_SIZE, pages)
  {
  }

  /** The one block of a new arena is long enough. */
  lemma NewArenaFits(arenas: seq<Arena>, base: nat, n: nat)
    requires PagesFor(n) > 0
    ensures !NoFit(arenas + [NewArena(base, PagesFor(n))], n, |arenas| + 1)
  {
    var arenas' := arenas + [NewArena(base, PagesFor(n))];
    assert Fits(arenas'[|arenas|].blocks[0], n);
    assert !NoFitIn(arenas'[|arenas|].blocks, n, |arenas'[|arenas|].blocks|);
  }

  lemma OnlyNewFits(arenas: seq<Arena>, base: nat, n: nat, k: nat, i: nat)
    requires PagesFor(n) > 0 && NoFit(arenas, n, |arenas|) && FirstFit(arenas + [NewArena(base, PagesFor(n))], n, k, i)
    ensures k == |arenas| && i == 0 && n <= NewArena(base, PagesFor(n)).blocks[0].size
  {
    var arenas' := arenas + [NewArena(base, PagesFor(n))];
    assert Fits(arenas'[k].blocks[i], n);
    forall j | 0 <= j < |arenas| ensures NoFitIn(arenas'[j].blocks, n, |arenas'[j].blocks|) {
      assert arenas'[j] == arenas[j];
    }
  }

  lemma KeptThrough(cells: Cells, cells1: Cells, cells2: Cells, arenas: seq<Arena>, base: nat, pages: nat)
    requires pages > 0 && OthersKept(cells, cells1, arenas, |arenas|, 0)
    requires OthersKept(cells1, cells2, arenas + [NewArena(base, pages)], |arenas|, 0)
    ensures OthersKept(cells, cells2, arenas, |arenas|, 0)
  {
    forall k': nat, i': nat, x: nat | InLivePayload(arenas, k', i', x) ensures At(cells2, x) == At(cells, x) {
      assert InLivePayload(arenas + [NewArena(base, pages)], k', i', x);
    }
  }

  /** The header of an arena is not touched by the making of a new one. */
  lemma OldArenaHeader(before: Cells, arenas: seq<Arena>, base: nat, pages: nat, k: nat)
    requires ArenasOk(arenas) && HeapAt(before, arenas) && k < |arenas| && pages > 0 && base % PAGE_SIZE == 0
    requires Frames(arenas[k]) !! Run(base / PAGE_SIZE, pages)
    ensures At(NewArenaCells(before, base, pages), arenas[k].base) ==
        ArenaHeader(NextArena(arenas, k), arenas[k].total, arenas[k].base + HEADER)
    ensures arenas[k].base > 0
  {
    hide NewArenaCells, Linked, IsLive;
    assert ArenaAt(before, arenas, k);
    ArenaSpans(arenas, k);
    NewFrames(base, pages);
    FramesApart(arenas[k], NewArena(base, pages));
    NewArenaCellsAt(before, base, pages, arenas[k].base);
  }

  lemma HeapArena(cells: Cells, arenas: seq<Arena>, k: nat)
    requires HeapAt(cells, arenas) && k < |arenas|
    ensures ArenaAt(cells, arenas, k)
  {
  }

  lemma FreedIs(cells: Cells, b: nat)
    requires At(cells, b).Header?
    ensures var cells1 := cells[b := At(cells, b).(free := true)];
      At(cells1, b).Header? && FreedCells(cells, b) == Fill(cells1, b + HEADER, At(cells1, b).size, Byte(0xDD))
  {
  }

  /** The neighbours that `kfree` looks at are headers of this arena. */
  lemma StepFacts(cells: Cells, bs: seq<Blk>, at: nat, end: nat, i: nat)
    requires Linked(cells, bs) && Tiles(bs, at, end) && at > 0 && i < |bs|
    ensures GoodBlock(cells, bs[i].addr) && bs[i].addr > 0
    ensures At(cells, bs[i].addr).Header?
    ensures At(cells, bs[i].addr).next != NULL ==> GoodBlock(cells, At(cells, bs[i].addr).next)
    ensures At(cells, bs[i].addr).prev != NULL ==>
              GoodBlock(cells, At(cells, bs[i].addr).prev) && At(cells, At(cells, bs[i].addr).prev).Header?
                  && At(cells, At(cells, bs[i].addr).prev).next == bs[i].addr
  {
    hide Tiles, Linked;
    BlockIsGood(cells, bs, at, end, i);
    TilesAt(bs, at, end, i);
    if i + 1 < |bs| { BlockIsGood(cells, bs, at, end, i + 1); }
    if i > 0 { BlockIsGood(cells, bs, at, end, i - 1); }
  }

  /** A header in memory that is not marked free is that of a live block, and conversely. */
  lemma LiveHeaders(cells: Cells, arenas: seq<Arena>, a: nat)
    requires HeapAt(cells, arenas)
    ensures At(cells, a).Header? && !At(cells, a).free <==> IsLive(arenas, a)
  {
    if IsLive(arenas, a) {
      var k: nat, i: nat :| k < |arenas| && i < |arenas[k].blocks| && arenas[k].blocks[i].addr == a
          && !arenas[k].blocks[i].free;
      assert ArenaAt(cells, arenas, k);
      assert HeaderIs(cells, arenas[k].blocks, i);
    }
  }

  /** `kfree` of the pointer that `kmalloc` has returned from an existing arena restores every
      layout, and no payload byte of another live block differs. */
  lemma FreeUndoesMalloc(cells: Cells, arenas: seq<Arena>, cells1: Cells, arenas1: seq<Arena>, cells2: Cells,
                         arenas2: seq<Arena>,
                         n: nat, k: nat, i: nat, k2: nat, i2: nat)
    requires ArenasOk(arenas) && ArenasOk(arenas1)
    requires Allocated(cells, arenas, cells1, arenas1, n, k, i)
    requires LiveAt(arenas1, k2, i2, arenas[k].blocks[i].Payload()) && Freed(cells1, arenas1, cells2, arenas2, k2, i2)
    ensures arenas2 == arenas && OthersKept(cells, cells2, arenas, k, i)
  {
    hide Release, NoFit, NoFitIn;
    assert ArenaOk(arenas[k]);
    CarvedBlock(arenas, k, i, n);
    OneLiveAt(arenas1, k, i, k2, i2, arenas[k].blocks[i].Payload());
    ReleaseCarve(arenas[k].blocks, i, n);
    forall k': nat, i': nat, x: nat | InLivePayload(arenas, k', i', x) && (k', i') != (k, i)
      ensures At(cells2, x) == At(cells, x) {
      CarvedPayload(arenas, k, i, n, k', i', x);
    }
  }

  lemma CarvedBlock(arenas: seq<Arena>, k: nat, i: nat, n: nat)
    requires k < |arenas| && i < |arenas[k].blocks| && n <= arenas[k].blocks[i].size
    ensures LiveAt(WithBlocks(arenas, k, Carve(arenas[k].blocks, i, n)), k, i, arenas[k].blocks[i].Payload())
  {
  }

  /** A pointer belongs to at most one live block. */
  lemma OneLiveAt(arenas: seq<Arena>, k: nat, i: nat, k2: nat, i2: nat, ptr: nat)
    requires ArenasOk(arenas) && LiveAt(arenas, k, i, ptr) && LiveAt(arenas, k2, i2, ptr)
    ensures k == k2 && i == i2
  {
    hide ArenasOk;
    BlockInArena(arenas, k, i);
    BlockInArena(arenas, k2, i2);
    LivePayloads(arenas, k, i, k2, i2, ptr);
  }

  /** When `kmalloc` had to add an arena, `kfree` leaves that arena empty. */
  lemma FreeAfterGrowth(cells: Cells, arenas: seq<Arena>, cells1: Cells, arenas1: seq<Arena>, cells2: Cells,
                        arenas2: seq<Arena>,
                        n: nat, free: set<nat>, free1: set<nat>)
    requires AllocatedInNew(cells, arenas, cells1, arenas1, n, free, free1)
      && Freed(cells1, arenas1, cells2, arenas2, |arenas|, 0)
    ensures arenas2 == arenas + [NewArena(arenas1[|arenas|].base, PagesFor(n))]
  {
    hide Release, LowestRun;
    ReleaseCarve(NewArena(arenas1[|arenas|].base, PagesFor(n)).blocks, 0, n);
  }

  /** The live blocks besides (k, i) are live after the carving, under a new index if they lie
      behind it. */
  lemma CarvedPayload(arenas: seq<Arena>, k: nat, i: nat, n: nat, k': nat, i': nat, x: nat)
    requires k < |arenas| && i < |arenas[k].blocks| && n <= arenas[k].blocks[i].size
      && InLivePayload(arenas, k', i', x) && (k', i') != (k, i)
    ensures var j := if k' == k && i' > i then i' + |Carved(arenas[k].blocks[i], n)| - 1 else i';
      InLivePayload(WithBlocks(arenas, k, Carve(arenas[k].blocks, i, n)), k', j, x) && (k', j) != (k, i)
  {
  }

  lemma ArenaBlocks(arenas: seq<Arena>, k: nat)
    requires ArenasOk(arenas) && k < |arenas|
    ensures |arenas[k].blocks| > 0 && arenas[k].blocks[0].addr == arenas[k].base + HEADER && arenas[k].base > 0
  {
    assert ArenaOk(arenas[k]);
  }

  lemma LinkedAt(cells: Cells, bs: seq<Blk>, i: nat)
    requires Linked(cells, bs) && i < |bs|
    ensures HeaderIs(cells, bs, i)
  {
  }

  lemma RunNotZero(free: set<nat>, count: nat, s: nat)
    requires 0 !in free && count > 0
    ensures LowestRun(free, count, s) ==> s > 0
  {
    assert s in Run(s, count);
  }

  lemma FirstArena(cells: Cells, base: nat)
    requires base > 0 && base % PAGE_SIZE == 0 && cells == NewArenaCells(map[], base, 2)
    ensures ArenasOk([NewArena(base, 2)]) && HeapAt(cells, [NewArena(base, 2)])
  {
    hide NewArenaCells, ArenaOk;
    NewArenaOk(base, 2);
    NewArenaCellsAt(map[], base, 2, base);
    NewArenaCellsAt(map[], base, 2, base + HEADER);
    OneLinked(cells, NewArena(base, 2).blocks);
    forall a: nat ensures At(cells, a).Header? ==> At(cells, a).free { NewArenaCellsAt(map[], base, 2, a); }
    assert ArenaAt(cells, [NewArena(base, 2)], 0);
  }
}
