/** Block layouts of the kernel heap (src/heap.c) as values. */
module HeapLayout {
  import opened Base

  const ALIGN: nat := 16
  /** Sizes of `block_t` and of `arena_t` rounded up to ALIGN. */
  const HEADER: nat := 32

  /** A block: address of its header, payload size, free or live. */
  datatype Blk = Blk(addr: nat, size: nat, free: bool)
  {
    function Payload(): nat { addr + HEADER }
    function End(): nat { addr + HEADER + size }
  }

  function AlignUp(n: nat): (r: nat)
    ensures n <= r < n + ALIGN && r % ALIGN == 0
  {
    var k := (n + ALIGN - 1) / ALIGN;
    Multiple(k);
    k * ALIGN
  }

  /** The blocks lie back to back from `at` to `end`, with positive aligned sizes. */
  predicate Tiles(blocks: seq<Blk>, at: nat, end: nat)
    decreases |blocks|
  {
    if blocks == [] then at == end
    else blocks[0].addr == at && blocks[0].size > 0 && blocks[0].size % ALIGN == 0 && Tiles(blocks[1..],
        blocks[0].End(), end)
  }

  predicate NoFreeNeighbours(blocks: seq<Blk>) {
    forall i | 0 <= i < |blocks| - 1 :: !(blocks[i].free && blocks[i + 1].free)
  }

  /** Where the tiling of `blocks` from `at` ends. */
  function EndOf(blocks: seq<Blk>, at: nat): nat {
    if blocks == [] then at else EndOf(blocks[1..], at + HEADER + blocks[0].size)
  }

  lemma {:induction false} TilesEnd(blocks: seq<Blk>, at: nat, end: nat)
    requires Tiles(blocks, at, end)
    ensures EndOf(blocks, at) == end && at <= end
    ensures blocks != [] ==> at < end
  {
    if blocks == [] {
    } else {
      TilesEnd(blocks[1..], blocks[0].End(), end);
    }
  }

  lemma {:induction false} TilesConcat(xs: seq<Blk>, ys: seq<Blk>, at: nat, end: nat)
    ensures Tiles(xs + ys, at, end) <==> Tiles(xs, at, EndOf(xs, at)) && Tiles(ys, EndOf(xs, at), end)
  {
    if xs == [] {
      assert xs + ys == ys;
    } else {
      assert (xs + ys)[1..] == xs[1..] + ys;
      TilesConcat(xs[1..], ys, at + HEADER + xs[0].size, end);
    }
  }

  /** Block `i` of a tiling, by position: inside the range, and behind all earlier blocks. */
  lemma TilesAt(blocks: seq<Blk>, at: nat, end: nat, i: nat)
    requires Tiles(blocks, at, end) && i < |blocks|
    ensures at <= blocks[i].addr && blocks[i].End() <= end && blocks[i].size > 0 && blocks[i].size % ALIGN == 0
    ensures at % ALIGN == 0 ==> blocks[i].addr % ALIGN == 0
    ensures i == 0 ==> blocks[i].addr == at
    ensures i + 1 < |blocks| ==> blocks[i + 1].addr == blocks[i].End()
    ensures i + 1 == |blocks| ==> blocks[i].End() == end
  {
    TilesPlace(blocks, at, end, i);
    TilesAligned(blocks, at, end, i);
  }

  lemma {:induction false} TilesPlace(blocks: seq<Blk>, at: nat, end: nat, i: nat)
    requires Tiles(blocks, at, end) && i < |blocks|
    ensures at <= blocks[i].addr && blocks[i].End() <= end && blocks[i].size > 0
    ensures i == 0 ==> blocks[i].addr == at
    ensures i + 1 < |blocks| ==> blocks[i + 1].addr == blocks[i].End()
    ensures i + 1 == |blocks| ==> blocks[i].End() == end
  {
    TilesEnd(blocks[1..], blocks[0].End(), end);
    if i == 0 {
    } else {
      TilesPlace(blocks[1..], blocks[0].End(), end, i - 1);
    }
  }

  lemma {:induction false} TilesAligned(blocks: seq<Blk>, at: nat, end: nat, i: nat)
    requires Tiles(blocks, at, end) && i < |blocks|
    ensures blocks[i].size % ALIGN == 0 && (at % ALIGN == 0 ==> blocks[i].addr % ALIGN == 0)
  {
    if i == 0 {
    } else {
      if at % ALIGN == 0 { AlignedSum(at, blocks[0].size); }
      TilesAligned(blocks[1..], blocks[0].End(), end, i - 1);
    }
  }

  lemma AlignedSum(a: nat, b: nat)
    requires a % ALIGN == 0 && b % ALIGN == 0
    ensures (a + HEADER + b) % ALIGN == 0
  {
    var k, l := a / ALIGN, b / ALIGN;
    assert a == ALIGN * k && b == ALIGN * l;
    Multiple(k + 2 + l);
  }

  lemma Multiple(k: nat)
    ensures (ALIGN * k) % ALIGN == 0
  {
  }

  /** Earlier blocks end before later ones begin. */
  lemma {:induction false} TilesOrder(blocks: seq<Blk>, at: nat, end: nat, i: nat, j: nat)
    requires Tiles(blocks, at, end) && i < j < |blocks|
    ensures blocks[i].End() <= blocks[j].addr
    decreases j
  {
    TilesAt(blocks, at, end, j - 1);
    TilesAt(blocks, at, end, i);
    if i == j - 1 {
    } else {
      TilesOrder(blocks, at, end, i, j - 1);
    }
  }

  // ---------------------------------------------------------------- allocation

  predicate Fits(b: Blk, n: nat) {
    b.free && b.size >= n
  }

  /** Block `i` is allocated for `n` bytes; what is left over becomes a free block if it can hold
      a header and 16 bytes. */
  function Carve(blocks: seq<Blk>, i: nat, n: nat): seq<Blk>
    requires i < |blocks| && n <= blocks[i].size
  {
    blocks[..i] + Carved(blocks[i], n) + blocks[i + 1..]
  }

  function Carved(b: Blk, n: nat): seq<Blk>
    requires n <= b.size
  {
    if b.size - n >= HEADER + ALIGN
    then [Blk(b.addr, n, false), Blk(b.addr + HEADER + n, b.size - n - HEADER, true)]
    else [b.(free := false)]
  }

  /** Block `i` of `before`, a free one, has been taken for `n` bytes: it is at most 47 bytes longer;
      what would have been left over with 48 bytes or more is a free block behind it. */
  ghost predicate Taken(before: seq<Blk>, after: seq<Blk>, i: nat, n: nat) {
    && i < |before| && i < |after| && before[i].free && !after[i].free && after[i].addr == before[i].addr
    && n <= after[i].size < n + 48 && after[..i] == before[..i]
    && if before[i].size >= n + 48
       then
         && after[i].size == n && |after| == |before| + 1 && after[i + 2..] == before[i + 1..]
         && after[i + 1].free && after[i + 1].addr == after[i].End() && after[i + 1].End() == before[i].End()
       else |after| == |before| && after[i].size == before[i].size && after[i + 1..] == before[i + 1..]
  }

  lemma CarveTakes(blocks: seq<Blk>, i: nat, n: nat)
    requires i < |blocks| && Fits(blocks[i], n)
    ensures Taken(blocks, Carve(blocks, i, n), i, n)
  {
    var after, mid := Carve(blocks, i, n), Carved(blocks[i], n);
    assert after[..i] == blocks[..i] && after[i] == mid[0];
    assert after[i + |mid|..] == blocks[i + 1..];
    if |mid| == 2 { assert after[i + 1] == mid[1]; }
  }

  /** A live block of this size at this address. */
  ghost predicate LiveIn(blocks: seq<Blk>, addr: nat, size: nat) {
    exists i :: 0 <= i < |blocks| && !blocks[i].free && blocks[i].addr == addr && blocks[i].size == size
  }

  /** A tiling cut at block `i`. */
  lemma TilesCut(blocks: seq<Blk>, at: nat, end: nat, i: nat)
    requires Tiles(blocks, at, end) && i <= |blocks|
    ensures var mid := if i < |blocks| then blocks[i].addr else end;
      Tiles(blocks[..i], at, mid) && Tiles(blocks[i..], mid, end)
  {
    var pre, post := blocks[..i], blocks[i..];
    assert blocks == pre + post;
    TilesConcat(pre, post, at, end);
    if post != [] { assert post[0] == blocks[i]; }
  }

  lemma TilesJoin(xs: seq<Blk>, ys: seq<Blk>, at: nat, mid: nat, end: nat)
    requires Tiles(xs, at, mid) && Tiles(ys, mid, end)
    ensures Tiles(xs + ys, at, end)
  {
    hide Tiles;
    TilesEnd(xs, at, mid);
    TilesConcat(xs, ys, at, end);
  }

  /** Replacing the blocks [i, j) of a tiling by others that tile the same range. */
  lemma TilesReplace(blocks: seq<Blk>, at: nat, end: nat, i: nat, j: nat, mid: seq<Blk>)
    requires Tiles(blocks, at, end) && i < j <= |blocks|
    requires Tiles(mid, blocks[i].addr, blocks[j - 1].End())
    ensures Tiles(blocks[..i] + mid + blocks[j..], at, end)
  {
    hide Tiles;
    TilesCut(blocks, at, end, i);
    TilesCut(blocks, at, end, j);
    TilesPlace(blocks, at, end, j - 1);
    TilesJoin(blocks[..i], mid, at, blocks[i].addr, blocks[j - 1].End());
    TilesJoin(blocks[..i] + mid, blocks[j..], at, blocks[j - 1].End(), end);
  }

  lemma CarveTiles(blocks: seq<Blk>, at: nat, end: nat, i: nat, n: nat)
    requires Tiles(blocks, at, end) && i < |blocks| && n <= blocks[i].size && n > 0 && n % ALIGN == 0
    ensures Tiles(Carve(blocks, i, n), at, end)
  {
    TilesAt(blocks, at, end, i);
    var b := blocks[i];
    var mid := Carved(b, n);
    assert Tiles(mid, b.addr, b.End()) by {
      if |mid| == 2 { assert mid[1..] == [mid[1]] && mid[1..][1..] == []; } else { assert mid[1..] == []; }
    }
    TilesReplace(blocks, at, end, i, i + 1, mid);
  }

  lemma CarveNeighbours(blocks: seq<Blk>, i: nat, n: nat)
    requires NoFreeNeighbours(blocks) && i < |blocks| && n <= blocks[i].size && blocks[i].free
    ensures NoFreeNeighbours(Carve(blocks, i, n))
  {
    var bs := Carve(blocks, i, n);
    var k := |Carved(blocks[i], n)| - 1;
    forall j | 0 <= j < |bs| - 1 ensures !(bs[j].free && bs[j + 1].free) {
      if j < i { assert bs[j] == blocks[j]; }
      if j > i + k { assert bs[j] == blocks[j - k] && bs[j + 1] == blocks[j - k + 1]; }
      if j == i + k { assert bs[j + 1] == blocks[i + 1]; }
    }
  }

  // ---------------------------------------------------------------- release

  /** Block `i` is freed and merged with a free successor and a free predecessor. */
  function Release(blocks: seq<Blk>, i: nat): seq<Blk>
    requires i < |blocks|
  {
    MergePrev(MergeNext(blocks[i := blocks[i].(free := true)], i), i)
  }

  function MergeNext(blocks: seq<Blk>, i: nat): (r: seq<Blk>)
    requires i < |blocks|
    ensures i < |r|
  {
    if i + 1 < |blocks| && blocks[i + 1].free then Merged(blocks, i) else blocks
  }

  function MergePrev(blocks: seq<Blk>, i: nat): seq<Blk>
    requires i < |blocks|
  {
    if i > 0 && blocks[i - 1].free then Merged(blocks, i - 1) else blocks
  }

  /** Blocks `i` and i + 1 become one. */
  function Merged(blocks: seq<Blk>, i: nat): seq<Blk>
    requires i + 1 < |blocks|
  {
    blocks[..i] + [blocks[i].(size := blocks[i].size + HEADER + blocks[i + 1].size)] + blocks[i + 2..]
  }

  lemma MergedTiles(blocks: seq<Blk>, at: nat, end: nat, i: nat)
    requires Tiles(blocks, at, end) && i + 1 < |blocks|
    ensures Tiles(Merged(blocks, i), at, end)
  {
    hide Tiles;
    TilesAt(blocks, at, end, i);
    TilesAt(blocks, at, end, i + 1);
    AlignedSum(blocks[i].size, blocks[i + 1].size);
    var b := blocks[i].(size := blocks[i].size + HEADER + blocks[i + 1].size);
    TilesOne(b);
    TilesReplace(blocks, at, end, i, i + 2, [b]);
  }

  lemma TilesOne(b: Blk)
    requires b.size > 0 && b.size % ALIGN == 0
    ensures Tiles([b], b.addr, b.End())
  {
    assert [b][1..] == [];
  }

  lemma FreedTiles(blocks: seq<Blk>, at: nat, end: nat, i: nat)
    requires Tiles(blocks, at, end) && i < |blocks|
    ensures Tiles(blocks[i := blocks[i].(free := true)], at, end)
  {
    hide Tiles;
    TilesAt(blocks, at, end, i);
    TilesOne(blocks[i].(free := true));
    TilesReplace(blocks, at, end, i, i + 1, [blocks[i].(free := true)]);
    assert blocks[i := blocks[i].(free := true)] == blocks[..i] + [blocks[i].(free := true)] + blocks[i + 1..];
  }

  lemma ReleaseTiles(blocks: seq<Blk>, at: nat, end: nat, i: nat)
    requires Tiles(blocks, at, end) && i < |blocks|
    ensures Tiles(Release(blocks, i), at, end)
  {
    var bs := blocks[i := blocks[i].(free := true)];
    FreedTiles(blocks, at, end, i);
    if i + 1 < |bs| && bs[i + 1].free { MergedTiles(bs, at, end, i); }
    var cs := MergeNext(bs, i);
    if i > 0 && cs[i - 1].free { MergedTiles(cs, at, end, i - 1); }
  }

  /** Freeing ends the life of block `i` and of no other. */
  lemma OneEnds(blocks: seq<Blk>, at: nat, end: nat, i: nat, addr: nat, size: nat)
    requires Tiles(blocks, at, end) && i < |blocks| && !blocks[i].free
    ensures LiveIn(Release(blocks, i), addr, size) <==> LiveIn(blocks, addr, size) && addr != blocks[i].addr
  {
    hide Tiles, Merged, LiveIn;
    var bs := blocks[i := blocks[i].(free := true)];
    FreedLive(blocks, at, end, i, addr, size);
    if i + 1 < |bs| && bs[i + 1].free { MergedLive(bs, i, addr, size); }
    var cs := MergeNext(bs, i);
    assert cs[i].free by { if i + 1 < |bs| && bs[i + 1].free { MergedIs(bs, i, i); } }
    if i > 0 && cs[i - 1].free { MergedLive(cs, i - 1, addr, size); }
  }

  lemma FreedLive(blocks: seq<Blk>, at: nat, end: nat, i: nat, addr: nat, size: nat)
    requires Tiles(blocks, at, end) && i < |blocks|
    ensures LiveIn(blocks[i := blocks[i].(free := true)], addr, size)
      <==> LiveIn(blocks, addr, size) && addr != blocks[i].addr
  {
    hide Tiles;
    var bs := blocks[i := blocks[i].(free := true)];
    forall j: nat | j < |blocks| && j != i ensures blocks[j].addr != blocks[i].addr && bs[j] == blocks[j] {
      if j < i { TilesOrder(blocks, at, end, j, i); } else { TilesOrder(blocks, at, end, i, j); }
    }
    if LiveIn(blocks, addr, size) && addr != blocks[i].addr {
      var j :| 0 <= j < |blocks| && !blocks[j].free && blocks[j].addr == addr && blocks[j].size == size;
      assert bs[j] == blocks[j];
    }
  }

  lemma MergedLive(blocks: seq<Blk>, i: nat, addr: nat, size: nat)
    requires i + 1 < |blocks| && blocks[i].free && blocks[i + 1].free
    ensures LiveIn(Merged(blocks, i), addr, size) <==> LiveIn(blocks, addr, size)
  {
    var r := Merged(blocks, i);
    forall j | 0 <= j < |r| && j != i ensures r[j] == blocks[if j < i then j else j + 1] { }
    if j :| 0 <= j < |blocks| && !blocks[j].free && blocks[j].addr == addr && blocks[j].size == size {
      assert r[if j < i then j else j - 1] == blocks[j];
    }
  }

  /** Freeing leaves no two free blocks side by side. */
  lemma ReleaseNeighbours(blocks: seq<Blk>, i: nat)
    requires NoFreeNeighbours(blocks) && i < |blocks| && !blocks[i].free
    ensures NoFreeNeighbours(Release(blocks, i))
  {
    hide MergeNext, MergePrev, NoFreeNeighbours, ApartBut;
    FreedApart(blocks, i);
    var bs := blocks[i := blocks[i].(free := true)];
    MergeNextApart(bs, i);
    MergePrevApart(MergeNext(bs, i), i);
  }

  /** No two free neighbours, except that block `i` is free and may have free ones. */
  ghost predicate ApartBut(blocks: seq<Blk>, i: nat) {
    && i < |blocks| && blocks[i].free
    && forall j | 0 <= j < |blocks| - 1 && j != i && j + 1 != i :: !(blocks[j].free && blocks[j + 1].free)
  }

  lemma ApartAt(blocks: seq<Blk>, i: nat, j: nat)
    requires ApartBut(blocks, i) && j + 1 < |blocks| && j != i && j + 1 != i
    ensures !(blocks[j].free && blocks[j + 1].free)
  {
  }

  lemma FreedApart(blocks: seq<Blk>, i: nat)
    requires NoFreeNeighbours(blocks) && i < |blocks| && !blocks[i].free
    ensures ApartBut(blocks[i := blocks[i].(free := true)], i)
  {
  }

  lemma MergedIs(blocks: seq<Blk>, i: nat, j: nat)
    requires i + 1 < |blocks| && j + 1 < |blocks|
    ensures |Merged(blocks, i)| == |blocks| - 1
    ensures Merged(blocks, i)[j].free == blocks[if j <= i then j else j + 1].free
  {
  }

  /** Merged with a free successor, block `i` has no free successor any more. */
  lemma MergeNextApart(blocks: seq<Blk>, i: nat)
    requires ApartBut(blocks, i)
    ensures var r := MergeNext(blocks, i); ApartBut(r, i) && (i + 1 < |r| ==> !r[i + 1].free)
  {
    hide Merged;
    if i + 1 < |blocks| && blocks[i + 1].free {
      var r := MergeNext(blocks, i);
      MergedIs(blocks, i, i);
      forall j | 0 <= j < |r| - 1 && j != i && j + 1 != i ensures !(r[j].free && r[j + 1].free) {
        MergedIs(blocks, i, j);
        MergedIs(blocks, i, j + 1);
        ApartAt(blocks, i, if j < i then j else j + 1);
      }
      if i + 1 < |r| {
        MergedIs(blocks, i, i + 1);
        ApartAt(blocks, i, i + 1);
      }
    }
  }

  lemma MergePrevApart(blocks: seq<Blk>, i: nat)
    requires ApartBut(blocks, i) && (i + 1 < |blocks| ==> !blocks[i + 1].free)
    ensures NoFreeNeighbours(MergePrev(blocks, i))
  {
    hide Merged;
    if i > 0 && blocks[i - 1].free {
      var r := MergePrev(blocks, i);
      MergedIs(blocks, i - 1, i - 1);
      forall j | 0 <= j < |r| - 1 ensures !(r[j].free && r[j + 1].free) {
        MergedIs(blocks, i - 1, j);
        MergedIs(blocks, i - 1, j + 1);
        if j >= i { ApartAt(blocks, i, j + 1); } else if j + 1 < i { ApartAt(blocks, i, j); }
      }
    } else if i > 0 {
      forall j | 0 <= j < |blocks| - 1 ensures !(blocks[j].free && blocks[j + 1].free) {
        if j != i && j + 1 != i { ApartAt(blocks, i, j); }
      }
    }
  }

  /** `kfree` undoes `kmalloc`: the layout is back, block for block. */
  lemma ReleaseCarve(blocks: seq<Blk>, i: nat, n: nat)
    requires NoFreeNeighbours(blocks) && i < |blocks| && blocks[i].free && n <= blocks[i].size
    ensures Release(Carve(blocks, i, n), i) == blocks
  {
    hide Carve, MergeNext;
    CarvedBack(blocks, i, n);
    if i > 0 { assert !blocks[i - 1].free; }
  }

  /** The block that was split is made whole by the merge with its rest. */
  lemma CarvedBack(blocks: seq<Blk>, i: nat, n: nat)
    requires NoFreeNeighbours(blocks) && i < |blocks| && blocks[i].free && n <= blocks[i].size
    ensures i < |Carve(blocks, i, n)|
    ensures var cs := Carve(blocks, i, n); MergeNext(cs[i := cs[i].(free := true)], i) == blocks
  {
    var b, rest, cs := blocks[i], blocks[i + 1..], Carve(blocks, i, n);
    assert blocks == blocks[..i] + [b] + rest;
    if b.size - n >= HEADER + ALIGN {
      var c, d := Blk(b.addr, n, false), Blk(b.addr + HEADER + n, b.size - n - HEADER, true);
      var bs := cs[i := c.(free := true)];
      assert cs[i] == c && bs[i + 1] == d && bs[..i] == blocks[..i] && bs[i + 2..] == rest;
    } else {
      var bs := cs[i := b];
      assert cs[i] == b.(free := false) && bs == blocks;
      if i + 1 < |bs| { assert !blocks[i + 1].free; }
    }
  }
}
