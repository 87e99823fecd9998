/** Block headers and payload bytes of the kernel heap in memory (src/heap.c). */
module HeapCells {
  import opened Base
  import opened HeapLayout

  const NULL: nat := 0

  /** What memory holds at an address: a block header (with its magic number) or an arena header
      at its first byte, another byte of a header, or a plain byte. */
  datatype Cell = Header(free: bool, size: nat, next: nat, prev: nat)
                | ArenaHeader(nextArena: nat, total: nat, first: nat)
                | Inside
                | Byte(value: byte)

  type Cells = map<nat, Cell>

  function At(cells: Cells, a: nat): Cell {
    if a in cells then cells[a] else Inside
  }

  /** `n` cells from `a` on set to `c`. */
  function Fill(cells: Cells, a: nat, n: nat, c: Cell): Cells {
    if n == 0 then cells else Fill(cells, a, n - 1, c)[a + n - 1 := c]
  }

  lemma {:induction false} FillAt(cells: Cells, a: nat, n: nat, c: Cell, x: nat)
    ensures At(Fill(cells, a, n, c), x) == if a <= x < a + n then c else At(cells, x)
  {
    if n == 0 {
    } else {
      FillAt(cells, a, n - 1, c, x);
    }
  }

  /** A whole header of 32 bytes. */
  function PutHeader(cells: Cells, a: nat, h: Cell): Cells {
    Fill(cells, a, HEADER, Inside)[a := h]
  }

  lemma PutHeaderAt(cells: Cells, a: nat, h: Cell, x: nat)
    ensures At(PutHeader(cells, a, h), x) ==
            if x == a then h else if a < x < a + HEADER then Inside else At(cells, x)
  {
    FillAt(cells, a, HEADER, Inside, x);
  }

  // ---------------------------------------------------------------- block lists

  function NextAddr(bs: seq<Blk>, i: nat): nat
    requires i < |bs|
  {
    if i + 1 < |bs| then bs[i + 1].addr else NULL
  }

  function PrevAddr(bs: seq<Blk>, i: nat): nat
    requires i < |bs|
  {
    if i > 0 then bs[i - 1].addr else NULL
  }

  /** The headers in memory are those of `bs`, doubly linked in that order: next and prev are
      mutual inverses. */
  ghost predicate Linked(cells: Cells, bs: seq<Blk>) {
    forall i: nat | i < |bs| :: HeaderIs(cells, bs, i)
  }

  ghost predicate HeaderIs(cells: Cells, bs: seq<Blk>, i: nat) {
    i < |bs| && At(cells, bs[i].addr) == Header(bs[i].free, bs[i].size, NextAddr(bs, i), PrevAddr(bs, i))
  }

  /** Headers survive writes elsewhere. */
  lemma LinkedKept(cells: Cells, cells': Cells, bs: seq<Blk>)
    requires Linked(cells, bs)
    requires forall i | 0 <= i < |bs| :: At(cells', bs[i].addr) == At(cells, bs[i].addr)
    ensures Linked(cells', bs)
  {
    forall i: nat | i < |bs| ensures HeaderIs(cells', bs, i) { assert HeaderIs(cells, bs, i); }
  }

  // ---------------------------------------------------------------- writes of kmalloc

  /** The writes of `kmalloc` on the block it has chosen, with `n` the aligned size. */
  function CarveCells(cells: Cells, b: nat, n: nat): Cells
    requires At(cells, b).Header? && n <= At(cells, b).size
  {
    var h := At(cells, b);
    if h.size >= n + HEADER + ALIGN
    then Fill(SplitCells(cells, b, n)[b := h.(free := false, size := n, next := b + HEADER + n)], b + HEADER, n,
        Byte(0xAA))
    else Fill(cells[b := h.(free := false)], b + HEADER, h.size, Byte(0xAA))
  }

  /** The new header behind the first `n` bytes, and the back pointer of the block that follows. */
  function SplitCells(cells: Cells, b: nat, n: nat): Cells
    requires At(cells, b).Header? && At(cells, b).size >= n + HEADER
  {
    var h := At(cells, b);
    var cells1 := PutHeader(cells, b + HEADER + n, Header(true, h.size - n - HEADER, h.next, b));
    if h.next != NULL && At(cells1, h.next).Header? then cells1[h.next := At(cells1, h.next).(prev := b + HEADER + n)]
        else cells1
  }

  /** A header whose successor, if any, is a header that lies behind the block. */
  predicate GoodBlock(cells: Cells, b: nat) {
    && At(cells, b).Header? && At(cells, b).size > 0
    && (At(cells, b).next != NULL ==>
          At(cells, At(cells, b).next).Header? && b + HEADER + At(cells, b).size <= At(cells, b).next)
  }

  predicate Splits(h: Cell, n: nat)
    requires h.Header?
  {
    h.size >= n + HEADER + ALIGN
  }

  /** Cell by cell: only the block itself and the header behind it are written. */
  lemma CarveAt(cells: Cells, b: nat, n: nat, x: nat)
    requires GoodBlock(cells, b) && n <= At(cells, b).size
    ensures var h := At(cells, b); var new_ := b + HEADER + n;
      At(CarveCells(cells, b, n), x) ==
        if x == b then
            h.(free := false, size := if Splits(h, n) then n else h.size, next := if Splits(h, n) then new_ else h.next)
        else if b + HEADER <= x < b + HEADER + (if Splits(h, n) then n else h.size) then Byte(0xAA)
        else if Splits(h, n) && x == new_ then Header(true, h.size - n - HEADER, h.next, b)
        else if Splits(h, n) && new_ < x < new_ + HEADER then Inside
        else if Splits(h, n) && x == h.next && x != NULL then At(cells, x).(prev := new_)
        else At(cells, x)
  {
    var h := At(cells, b);
    var new_ := b + HEADER + n;
    var split := if Splits(h, n) then SplitCells(cells, b, n) else cells;
    if Splits(h, n) { SplitAt(cells, b, n, x); }
    var taken := split[b := h.(free := false, size := if Splits(h, n) then n
        else h.size, next := if Splits(h, n) then new_ else h.next)];
    FillAt(taken, b + HEADER, if Splits(h, n) then n else h.size, Byte(0xAA), x);
  }

  lemma SplitAt(cells: Cells, b: nat, n: nat, x: nat)
    requires GoodBlock(cells, b) && Splits(At(cells, b), n)
    ensures var h := At(cells, b); var new_ := b + HEADER + n;
      At(SplitCells(cells, b, n), x) ==
        if x == new_ then Header(true, h.size - n - HEADER, h.next, b)
        else if new_ < x < new_ + HEADER then Inside
        else if x == h.next && x != NULL then At(cells, x).(prev := new_)
        else At(cells, x)
  {
    hide PutHeader;
    var h := At(cells, b);
    PutHeaderAt(cells, b + HEADER + n, Header(true, h.size - n - HEADER, h.next, b), x);
    PutHeaderAt(cells, b + HEADER + n, Header(true, h.size - n - HEADER, h.next, b), h.next);
  }

  lemma BlockIsGood(cells: Cells, bs: seq<Blk>, at: nat, end: nat, i: nat)
    requires Linked(cells, bs) && Tiles(bs, at, end) && i < |bs|
    ensures GoodBlock(cells, bs[i].addr) && At(cells, bs[i].addr).size == bs[i].size
      && At(cells, bs[i].addr).free == bs[i].free
    ensures At(cells, bs[i].addr).next == NextAddr(bs, i) && At(cells, bs[i].addr).prev == PrevAddr(bs, i)
    ensures NextAddr(bs, i) != NULL ==> NextAddr(bs, i) == bs[i].End()
  {
    TilesAt(bs, at, end, i);
    assert HeaderIs(cells, bs, i);
    if i + 1 < |bs| { assert HeaderIs(cells, bs, i + 1); }
  }

  lemma CarveBefore(cells: Cells, bs: seq<Blk>, at: nat, end: nat, i: nat, n: nat, j: nat)
    requires Linked(cells, bs) && Tiles(bs, at, end) && at > 0 && i < |bs| && 0 < n <= bs[i].size && j < i
    requires GoodBlock(cells, bs[i].addr) && At(cells, bs[i].addr).size == bs[i].size
    ensures HeaderIs(CarveCells(cells, bs[i].addr, n), Carve(bs, i, n), j)
  {
    hide CarveCells, Tiles;
    BlockIsGood(cells, bs, at, end, i);
    var cs := Carve(bs, i, n);
    assert cs[j] == bs[j] && cs[j + 1].addr == bs[j + 1].addr && (j > 0 ==> cs[j - 1] == bs[j - 1]);
    assert HeaderIs(cells, bs, j);
    TilesOrder(bs, at, end, j, i);
    CarveAt(cells, bs[i].addr, n, bs[j].addr);
  }

  lemma CarveAfter(cells: Cells, bs: seq<Blk>, at: nat, end: nat, i: nat, n: nat, j: nat)
    requires Linked(cells, bs) && Tiles(bs, at, end) && at > 0 && i < |bs| && 0 < n <= bs[i].size
    requires GoodBlock(cells, bs[i].addr) && At(cells, bs[i].addr).size == bs[i].size
    requires var k := |Carved(bs[i], n)| - 1; i + k < j < |bs| + k
    ensures HeaderIs(CarveCells(cells, bs[i].addr, n), Carve(bs, i, n), j)
  {
    hide CarveCells, Tiles;
    BlockIsGood(cells, bs, at, end, i);
    var cs, k := Carve(bs, i, n), |Carved(bs[i], n)| - 1;
    var o := j - k;
    assert cs[j] == bs[o] && (j + 1 < |cs| ==> cs[j + 1] == bs[o + 1]);
    assert HeaderIs(cells, bs, o);
    TilesOrder(bs, at, end, i, o);
    TilesAt(bs, at, end, i);
    TilesAt(bs, at, end, o);
    CarveAt(cells, bs[i].addr, n, bs[o].addr);
    if o > i + 1 {
      assert cs[j - 1] == bs[o - 1];
      TilesOrder(bs, at, end, i + 1, o);
    } else {
      assert cs[j - 1] == Carved(bs[i], n)[k];
    }
  }

  lemma CarveHere(cells: Cells, bs: seq<Blk>, at: nat, end: nat, i: nat, n: nat, j: nat)
    requires Linked(cells, bs) && Tiles(bs, at, end) && at > 0 && i < |bs| && 0 < n <= bs[i].size
    requires GoodBlock(cells, bs[i].addr) && At(cells, bs[i].addr).size == bs[i].size
    requires i <= j < i + |Carved(bs[i], n)|
    ensures HeaderIs(CarveCells(cells, bs[i].addr, n), Carve(bs, i, n), j)
  {
    hide CarveCells, Tiles;
    BlockIsGood(cells, bs, at, end, i);
    TilesAt(bs, at, end, i);
    var cs, k := Carve(bs, i, n), |Carved(bs[i], n)| - 1;
    assert cs[j] == Carved(bs[i], n)[j - i];
    assert i + 1 < |bs| ==> cs[i + k + 1] == bs[i + 1];
    assert i > 0 ==> cs[i - 1] == bs[i - 1];
    assert j == i && k == 1 ==> cs[i + 1] == Carved(bs[i], n)[1];
    assert j > i ==> cs[i] == Carved(bs[i], n)[0];
    CarveAt(cells, bs[i].addr, n, cs[j].addr);
  }

  /** After the writes of `kmalloc` the headers are those of the carved layout. */
  lemma CarveLinked(cells: Cells, bs: seq<Blk>, at: nat, end: nat, i: nat, n: nat)
    requires Linked(cells, bs) && Tiles(bs, at, end) && at > 0 && i < |bs| && 0 < n <= bs[i].size
    ensures GoodBlock(cells, bs[i].addr) && At(cells, bs[i].addr).size == bs[i].size
    ensures Linked(CarveCells(cells, bs[i].addr, n), Carve(bs, i, n))
  {
    hide CarveCells, Tiles, Carve, Carved;
    BlockIsGood(cells, bs, at, end, i);
    CarveLength(bs, i, n);
    var cs := Carve(bs, i, n);
    forall j: nat | j < |cs| ensures HeaderIs(CarveCells(cells, bs[i].addr, n), cs, j) {
      if j < i { CarveBefore(cells, bs, at, end, i, n, j); }
      else if j < i + |Carved(bs[i], n)| { CarveHere(cells, bs, at, end, i, n, j); }
      else { CarveAfter(cells, bs, at, end, i, n, j); }
    }
  }

  lemma CarveLength(bs: seq<Blk>, i: nat, n: nat)
    requires i < |bs| && n <= bs[i].size
    ensures |Carve(bs, i, n)| == |bs| + |Carved(bs[i], n)| - 1 && 1 <= |Carved(bs[i], n)| <= 2
  {
  }

  // ---------------------------------------------------------------- writes of kfree

  /** The first writes of `kfree`: the block is marked free and its payload is overwritten. */
  function FreedCells(cells: Cells, b: nat): Cells
    requires At(cells, b).Header?
  {
    Fill(cells[b := At(cells, b).(free := true)], b + HEADER, At(cells, b).size, Byte(0xDD))
  }

  lemma FreedAt(cells: Cells, b: nat, x: nat)
    requires At(cells, b).Header?
    ensures At(FreedCells(cells, b), x) ==
      if x == b then At(cells, b).(free := true)
      else if b + HEADER <= x < b + HEADER + At(cells, b).size then Byte(0xDD) else At(cells, x)
  {
    FillAt(cells[b := At(cells, b).(free := true)], b + HEADER, At(cells, b).size, Byte(0xDD), x);
  }

  lemma FreedLinked(cells: Cells, bs: seq<Blk>, at: nat, end: nat, i: nat)
    requires Linked(cells, bs) && Tiles(bs, at, end) && i < |bs|
    ensures At(cells, bs[i].addr).Header?
    ensures Linked(FreedCells(cells, bs[i].addr), bs[i := bs[i].(free := true)])
  {
    hide FreedCells, Tiles;
    BlockIsGood(cells, bs, at, end, i);
    var cs := bs[i := bs[i].(free := true)];
    forall j: nat | j < |cs| ensures HeaderIs(FreedCells(cells, bs[i].addr), cs, j) {
      assert HeaderIs(cells, bs, j);
      FreedAt(cells, bs[i].addr, bs[j].addr);
      if j < i { TilesOrder(bs, at, end, j, i); } else if j > i { TilesOrder(bs, at, end, i, j); }
    }
  }

  /** Merging the block at `b` with its successor. */
  function MergeCells(cells: Cells, b: nat): Cells
    requires At(cells, b).Header? && At(cells, At(cells, b).next).Header?
  {
    var h := At(cells, b);
    var g := At(cells, h.next);
    var cells1 := cells[b := h.(size := h.size + HEADER + g.size, next := g.next)];
    if g.next != NULL && At(cells1, g.next).Header? then cells1[g.next := At(cells1, g.next).(prev := b)] else cells1
  }

  lemma MergeAt(cells: Cells, b: nat, x: nat)
    requires GoodBlock(cells, b) && At(cells, b).next != NULL && GoodBlock(cells, At(cells, b).next) && b != NULL
    ensures var h := At(cells, b); var g := At(cells, h.next);
      At(MergeCells(cells, b), x) ==
        if x == b then h.(size := h.size + HEADER + g.size, next := g.next)
        else if x == g.next && x != NULL then At(cells, x).(prev := b) else At(cells, x)
  {
  }

  lemma MergedAt(cells: Cells, bs: seq<Blk>, at: nat, end: nat, i: nat, j: nat)
    requires Linked(cells, bs) && Tiles(bs, at, end) && at > 0 && i + 1 < |bs| && j + 1 < |bs|
    requires GoodBlock(cells, bs[i].addr) && At(cells, bs[i].addr).next == bs[i + 1].addr
      && GoodBlock(cells, bs[i + 1].addr)
    ensures HeaderIs(MergeCells(cells, bs[i].addr), Merged(bs, i), j)
  {
    hide Tiles, MergeCells;
    BlockIsGood(cells, bs, at, end, i);
    BlockIsGood(cells, bs, at, end, i + 1);
    TilesAt(bs, at, end, i);
    TilesAt(bs, at, end, i + 1);
    var cs := Merged(bs, i);
    var o := if j <= i then j else j + 1;
    assert HeaderIs(cells, bs, o);
    assert cs[j].addr == bs[o].addr && (j != i ==> cs[j] == bs[o]);
    assert j + 1 < |cs| ==> cs[j + 1].addr == bs[if j + 1 <= i then j + 1 else j + 2].addr;
    assert j > 0 ==> cs[j - 1].addr == bs[if j <= i + 1 then j - 1 else j].addr;
    MergeAt(cells, bs[i].addr, bs[o].addr);
    if o < i { TilesOrder(bs, at, end, o, i); TilesOrder(bs, at, end, i, i + 1); }
    if o > i + 1 { TilesOrder(bs, at, end, i, o); }
    if o > i + 2 { TilesOrder(bs, at, end, i + 2, o); TilesAt(bs, at, end, i + 2); }
  }

  lemma MergedLinked(cells: Cells, bs: seq<Blk>, at: nat, end: nat, i: nat)
    requires Linked(cells, bs) && Tiles(bs, at, end) && at > 0 && i + 1 < |bs|
    ensures At(cells, bs[i].addr).Header? && At(cells, bs[i].addr).next == bs[i + 1].addr
      && At(cells, bs[i + 1].addr).Header?
    ensures Linked(MergeCells(cells, bs[i].addr), Merged(bs, i))
  {
    hide Tiles, MergeCells;
    BlockIsGood(cells, bs, at, end, i);
    BlockIsGood(cells, bs, at, end, i + 1);
    forall j: nat | j < |Merged(bs, i)| ensures HeaderIs(MergeCells(cells, bs[i].addr), Merged(bs, i), j) {
      MergedAt(cells, bs, at, end, i, j);
    }
  }
}
