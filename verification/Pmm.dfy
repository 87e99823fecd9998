/** The physical frame allocator (src/pmm.c): one bit per frame, 1 = used. */
module Pmm {
  import opened Base

  // ---------------------------------------------------------------- bitmap bytes

  /** The byte `1 << k`. */
  function Mask(k: nat): bv8
    requires k < 8
  {
    [1, 2, 4, 8, 16, 32, 64, 128][k]
  }

  lemma MaskIsShift(k: nat)
    requires k < 8
    ensures Mask(k) == (1 as bv8) << k
  {
    var m: seq<bv8> := [1, 2, 4, 8, 16, 32, 64, 128];
    assert m[0] == 1 << 0 && m[1] == 1 << 1 && m[2] == 1 << 2 && m[3] == 1 << 3;
    assert m[4] == 1 << 4 && m[5] == 1 << 5 && m[6] == 1 << 6 && m[7] == 1 << 7;
    assert k == 0 || k == 1 || k == 2 || k == 3 || k == 4 || k == 5 || k == 6 || k == 7;
  }

  predicate TestBit(b: bv8, k: nat)
    requires k < 8
  {
    b & Mask(k) != 0
  }

  lemma SetBitInByte(b: bv8, k: nat, j: nat)
    requires k < 8 && j < 8
    ensures TestBit(b | Mask(k), j) <==> j == k || TestBit(b, j)
  {
  }

  lemma ClearBitInByte(b: bv8, k: nat, j: nat)
    requires k < 8 && j < 8
    ensures TestBit(b & !Mask(k), j) <==> j != k && TestBit(b, j)
  {
  }

  // ---------------------------------------------------------------- memory map

  datatype RegionKind = Usable | BootloaderReclaimable | ExecutableAndModules | OtherRegion

  /** One entry of the Limine memory map. */
  datatype Region = Region(base: nat, length: nat, kind: RegionKind)
  {
    predicate Counted() {
      kind.Usable? || kind.BootloaderReclaimable? || kind.ExecutableAndModules?
    }

    /** All bytes of the frame lie in the entry. */
    predicate Holds(frame: nat) {
      base <= frame * PAGE_SIZE && (frame + 1) * PAGE_SIZE <= base + length
    }
  }

  /** What the Limine protocol promises of USABLE entries: page-aligned and disjoint. */
  ghost predicate WellFormedMap(map_: seq<Region>) {
    && (forall i :: 0 <= i < |map_| && map_[i].kind.Usable? ==>
          map_[i].base % PAGE_SIZE == 0 && map_[i].length % PAGE_SIZE == 0)
    && (forall i, j :: 0 <= i < j < |map_| && map_[i].kind.Usable? && map_[j].kind.Usable? ==>
          map_[i].base + map_[i].length <= map_[j].base || map_[j].base + map_[j].length <= map_[i].base)
  }

  /** `frame` lies in one of the first `n` entries, and that entry is USABLE. */
  ghost predicate InUsable(map_: seq<Region>, n: nat, frame: nat)
    requires n <= |map_|
  {
    exists i :: 0 <= i < n && map_[i].kind.Usable? && map_[i].Holds(frame)
  }

  /** The highest end of a counted region among the first `n` entries. */
  function MaxEnd(map_: seq<Region>, n: nat): (m: nat)
    requires n <= |map_|
    ensures forall i :: 0 <= i < n && !map_[i].kind.OtherRegion? ==> map_[i].base + map_[i].length <= m
    ensures m == 0 || exists i :: 0 <= i < n && !map_[i].kind.OtherRegion? && map_[i].base + map_[i].length == m
  {
    if n == 0 then 0 else
    var m := MaxEnd(map_, n - 1);
    var r := map_[n - 1];
    if r.Counted() && r.base + r.length > m then r.base + r.length else m
  }

  /** `i` is the first USABLE entry with room for `size` bytes. */
  ghost predicate FirstFitting(map_: seq<Region>, size: nat, i: nat) {
    && i < |map_| && map_[i].kind.Usable? && map_[i].length >= size
    && forall j :: 0 <= j < i ==> !(map_[j].kind.Usable? && map_[j].length >= size)
  }

  /** `i` is the first kernel image entry that starts at `kernelBase`. */
  ghost predicate KernelEntry(map_: seq<Region>, kernelBase: nat, i: nat) {
    && i < |map_| && map_[i].kind.ExecutableAndModules? && map_[i].base == kernelBase
    && forall j :: 0 <= j < i ==> !(map_[j].kind.ExecutableAndModules? && map_[j].base == kernelBase)
  }

  lemma BitmapAligned(map_: seq<Region>, size: nat, base: nat)
    requires WellFormedMap(map_) && exists i: nat :: FirstFitting(map_, size, i) && map_[i].base == base
    ensures base % PAGE_SIZE == 0
  {
  }

  function CeilFrames(bytes: nat): nat { (bytes + PAGE_SIZE - 1) / PAGE_SIZE }

  predicate InRange(a: nat, base: nat, length: nat) {
    base <= a < base + length
  }

  /** A byte of the frame is in the range of `length` bytes from `base` on. */
  ghost predicate Touches(base: nat, length: nat, frame: nat) {
    exists a: nat :: InRange(a, base, length) && a / PAGE_SIZE == frame
  }

  /** The loops over frames meet exactly the touched ones. */
  lemma TouchedFrames(base: nat, length: nat, frame: nat)
    ensures Touches(base, length, frame) <==> length > 0 && base / PAGE_SIZE <= frame < CeilFrames(base + length)
  {
    if length > 0 && base / PAGE_SIZE <= frame < CeilFrames(base + length) {
      var a := if base <= frame * PAGE_SIZE then frame * PAGE_SIZE else base;
      assert InRange(a, base, length) && a / PAGE_SIZE == frame;
    }
  }

  /** The frames of a USABLE entry, as the loop over them counts. */
  lemma HeldFrames(e: Region, frame: nat)
    requires e.base % PAGE_SIZE == 0 && e.length % PAGE_SIZE == 0
    ensures e.Holds(frame) <==> e.base / PAGE_SIZE <= frame < (e.base + e.length) / PAGE_SIZE
  {
  }

  ghost predicate InKernelImage(map_: seq<Region>, kernelBase: nat, frame: nat) {
    exists i: nat :: KernelEntry(map_, kernelBase, i) && Touches(kernelBase, map_[i].length, frame)
  }

  // ---------------------------------------------------------------- frame sets

  /** The `count` frames from `start` on. */
  function Run(start: nat, count: nat): (s: set<nat>)
    ensures forall f :: f in s <==> start <= f < start + count
    ensures |s| == count
  {
    if count == 0 then {} else Run(start, count - 1) + {start + count - 1}
  }

  ghost predicate HasRun(free: set<nat>, count: nat) {
    exists s :: Run(s, count) <= free
  }

  ghost predicate LowestRun(free: set<nat>, count: nat, s: nat) {
    Run(s, count) <= free && forall t :: Run(t, count) <= free ==> s <= t
  }

  /** A run of `count` frames from `start` on meets a used frame below `bound`. */
  ghost predicate Interrupted(free: set<nat>, count: nat, start: int, bound: nat) {
    exists g :: start <= g < bound && g < start + count && g !in free
  }

  /** Every run of `count` frames that starts below `low` meets a used frame below `low`. */
  ghost predicate NoRunBelow(free: set<nat>, count: nat, low: nat) {
    forall t | 0 <= t < low :: Interrupted(free, count, t, low)
  }

  lemma InterruptedIsNoRun(free: set<nat>, count: nat, low: nat)
    requires NoRunBelow(free, count, low)
    ensures forall t: nat :: Run(t, count) <= free ==> low <= t
  {
    forall t: nat | t < low ensures !(Run(t, count) <= free) {
      assert Interrupted(free, count, t, low);
      var g :| t <= g < low && g < t + count && g !in free;
      assert g in Run(t, count);
    }
  }

  lemma InterruptedByFrame(free: set<nat>, count: nat, low: nat, frame: nat)
    requires NoRunBelow(free, count, low)
    requires low <= frame < low + count && frame !in free
    ensures NoRunBelow(free, count, frame + 1)
  {
    ghost var next := frame + 1;
    forall t | 0 <= t < next ensures Interrupted(free, count, t, next) {
      if t < low {
        assert Interrupted(free, count, t, low);
        var g :| t <= g < low && g < t + count && g !in free;
      }
    }
  }

  lemma ExtendRun(free: set<nat>, low: nat, n: nat)
    requires Run(low, n) <= free && low + n in free
    ensures Run(low, n + 1) <= free
  {
  }

  lemma FoundLowest(free: set<nat>, count: nat, low: nat)
    requires NoRunBelow(free, count, low) && Run(low, count) <= free
    ensures HasRun(free, count) && LowestRun(free, count, low)
  {
    InterruptedIsNoRun(free, count, low);
  }

  lemma FoundNone(free: set<nat>, count: nat, low: nat, frameCount: nat)
    requires count > 0 && NoRunBelow(free, count, low) && frameCount < low + count
    requires forall f :: f in free ==> f < frameCount
    ensures !HasRun(free, count)
  {
    InterruptedIsNoRun(free, count, low);
    forall t: nat | t >= low ensures !(Run(t, count) <= free) {
      assert t + count - 1 in Run(t, count);
    }
  }

  lemma SingleRuns(free: set<nat>)
    ensures HasRun(free, 1) <==> free != {}
    ensures forall f :: f in free ==> Run(f, 1) == {f} && Run(f, 1) <= free
    ensures forall f :: f in free && (forall g :: g in free ==> f <= g) ==> LowestRun(free, 1, f)
  {
    forall f | f in free ensures Run(f, 1) == {f} { }
    forall t: nat | Run(t, 1) <= free ensures t in free { assert t in Run(t, 1); }
    if f :| f in free { assert Run(f, 1) <= free; }
  }

  /** The lowest free frame as a run. */
  lemma SingleRun(free: set<nat>, f: nat)
    requires forall g :: g in free ==> f <= g
    ensures HasRun(free, 1) <==> free != {}
    ensures f in free ==> LowestRun(free, 1, f) && Run(f, 1) == {f} && (f == 0 <==> Run(0, 1) <= free)
  {
    SingleRuns(free);
    if f in free { LowestAtZero(free, 1, f); }
  }

  lemma RunStep(free: set<nat>, start: nat, i: nat, count: nat)
    requires i < count && Run(start, count) <= free
    ensures start + i in free - Run(start, i)
    ensures free - Run(start, i + 1) == free - Run(start, i) - {start + i}
  {
    assert start + i in Run(start, count);
    assert Run(start, i + 1) == Run(start, i) + {start + i};
  }

  lemma RunAtZero(free: set<nat>, count: nat)
    ensures Run(0, count) <= free ==> HasRun(free, count)
    ensures Run(0, count) <= free && count > 0 ==> 0 in free
  {
    assert count > 0 ==> 0 in Run(0, count);
  }

  /** The lowest run starts at frame 0 exactly when the run at frame 0 is free. */
  lemma LowestAtZero(free: set<nat>, count: nat, start: nat)
    requires LowestRun(free, count, start)
    ensures start == 0 <==> Run(0, count) <= free
    ensures Run(start, count) <= free
  {
  }

  // ---------------------------------------------------------------- the allocator

  class FrameAllocator {
    var bitmap: array<bv8>
    var frameCount: nat
    var freeFrames: nat

    /** The abstract state: the set of free frames. */
    ghost var free: set<nat>

    /** The bitmap represents `free`: a frame is free iff its bit is clear. */
    ghost predicate Shape()
      reads this`bitmap, this`frameCount, this`free, bitmap
    {
      && bitmap.Length == (frameCount + 7) / 8
      && forall f: nat :: f in free <==> f < frameCount && !TestBit(bitmap[f / 8], f % 8)
    }

    /** The free counter is the number of clear bits below the frame count. */
    ghost predicate Valid()
      reads this, bitmap
    {
      Shape() && freeFrames == |free|
    }

    constructor ()
      ensures Valid() && free == {} && fresh(bitmap)
    {
      bitmap := new bv8[0];
      frameCount, freeFrames, free := 0, 0, {};
    }

    method BitmapSet(frame: nat)
      requires Shape() && frame < frameCount
      modifies this`free, bitmap
      ensures Shape() && free == old(free) - {frame}
    {
      bitmap[frame / 8] := bitmap[frame / 8] | Mask(frame % 8);
      free := free - {frame};
      forall f: nat | f < frameCount
        ensures f in free <==> !TestBit(bitmap[f / 8], f % 8)
      {
        if f / 8 == frame / 8 { SetBitInByte(old(bitmap[frame / 8]), frame % 8, f % 8); }
      }
    }

    method BitmapClear(frame: nat)
      requires Shape() && frame < frameCount
      modifies this`free, bitmap
      ensures Shape() && free == old(free) + {frame}
    {
      bitmap[frame / 8] := bitmap[frame / 8] & !Mask(frame % 8);
      free := free + {frame};
      forall f: nat | f < frameCount
        ensures f in free <==> !TestBit(bitmap[f / 8], f % 8)
      {
        if f / 8 == frame / 8 { ClearBitInByte(old(bitmap[frame / 8]), frame % 8, f % 8); }
      }
    }

    lemma FreeInRange()
      requires Valid()
      ensures forall f :: f in free ==> f < frameCount
    {
    }

    /** Marks a free frame as used and counts it. */
    method Take(frame: nat)
      requires Valid() && frame in free
      modifies this`freeFrames, this`free, bitmap
      ensures Valid() && free == old(free) - {frame}
    {
      BitmapSet(frame);
      freeFrames := freeFrames - 1;
    }

    /** Marks a used frame as free and counts it. */
    method Release(frame: nat)
      requires Valid() && frame < frameCount && frame !in free
      modifies this`freeFrames, this`free, bitmap
      ensures Valid() && free == old(free) + {frame}
    {
      BitmapClear(frame);
      freeFrames := freeFrames + 1;
    }

    method BitmapTest(frame: nat) returns (used: bool)
      requires Valid() && frame < frameCount
      ensures used <==> frame !in free
    {
      used := TestBit(bitmap[frame / 8], frame % 8);
    }

    /** Takes the lowest free frame and returns its address; panics when there is none. */
    method AllocFrame() returns (r: Outcome<nat>)
      requires Valid()
      modifies this`freeFrames, this`free, bitmap
      ensures Valid()
      ensures r.Halted? <==> old(free) == {}
      ensures r.Halted? ==> free == old(free)
      ensures r.Done? ==> r.value % PAGE_SIZE == 0 && var f := r.value / PAGE_SIZE;
                          && f in old(free) && (forall g :: g in old(free) ==> f <= g)
                          && free == old(free) - {f}
    {
      hide Valid;
      var frame := 0;
      while frame < frameCount
        invariant frame <= frameCount && Valid() && free == old(free)
        invariant forall g :: g in free ==> frame <= g
      {
        var used := BitmapTest(frame);
        if !used {
          Take(frame);
          return Done(frame * PAGE_SIZE);
        }
        frame := frame + 1;
      }
      FreeInRange();
      assert free == {} by {
        if f :| f in free { assert frame <= f; }
      }
      return Halted;
    }

    /** Takes the lowest run of `count` free frames; one frame is taken through `AllocFrame`, with
        its panic. The address 0, which callers read as a failure, is the answer when there is no
        run, and also when the run at frame 0 is taken; so it means failure while frame 0 is not
        free. */
    method AllocFramesContiguous(count: nat) returns (r: Outcome<nat>)
      requires Valid()
      modifies this`freeFrames, this`free, bitmap
      ensures Valid()
      ensures count == 0 ==> r == Done(0) && free == old(free)
      ensures r.Halted? <==> count == 1 && old(free) == {}
      ensures r.Halted? ==> free == old(free)
      ensures count >= 1 && r.Done? && !HasRun(old(free), count) ==> r.value == 0 && free == old(free)
      ensures count >= 1 && r.Done? && HasRun(old(free), count) ==>
                && r.value % PAGE_SIZE == 0
                && LowestRun(old(free), count, r.value / PAGE_SIZE)
                && free == old(free) - Run(r.value / PAGE_SIZE, count)
      ensures count >= 1 && r.Done? ==> (r.value == 0 <==> !HasRun(old(free), count) || Run(0, count) <= old(free))
      ensures count >= 1 && r.Done? && 0 !in old(free) ==> (r.value == 0 <==> !HasRun(old(free), count))
    {
      hide Valid, HasRun, LowestRun, Run;
      RunAtZero(free, count);
      if count == 0 { return Done(0); }
      if count == 1 {
        r := AllocFrame();
        SingleRun(old(free), if r.Done? then r.value / PAGE_SIZE else 0);
        return;
      }
      var start := FindRun(count);
      if start == None { return Done(0); }
      LowestAtZero(free, count, start.value);
      TakeRun(start.value, count);
      return Done(start.value * PAGE_SIZE);
    }

    /** The search loop of `AllocFramesContiguous`. */
    method FindRun(count: nat) returns (r: Option<nat>)
      requires Valid() && count > 0
      ensures r.None? <==> !HasRun(free, count)
      ensures r.Some? ==> LowestRun(free, count, r.value)
    {
      hide Valid, Run, HasRun, LowestRun, Interrupted;
      var runStart, runLength := 0, 0;
      ghost var low := 0;  // where the current run starts, or `frame` when there is none
      var frame := 0;
      while frame < frameCount
        invariant frame <= frameCount && runLength < count
        invariant low + runLength == frame && (runLength > 0 ==> runStart == low)
        invariant Run(low, runLength) <= free
        invariant NoRunBelow(free, count, low)
      {
        var used := BitmapTest(frame);
        if !used {
          if runLength == 0 { runStart := frame; }
          ExtendRun(free, low, runLength);
          runLength := runLength + 1;
          if runLength == count {
            FoundLowest(free, count, low);
            return Some(runStart);
          }
        } else {
          InterruptedByFrame(free, count, low, frame);
          low := frame + 1;
          runLength := 0;
        }
        frame := frame + 1;
      }
      FreeInRange();
      FoundNone(free, count, low, frameCount);
      return None;
    }

    /** The marking loop of `AllocFramesContiguous`. */
    method TakeRun(start: nat, count: nat)
      requires Valid() && Run(start, count) <= free
      modifies this`freeFrames, this`free, bitmap
      ensures Valid() && free == old(free) - Run(start, count)
    {
      hide Valid, Run;
      for i := 0 to count
        invariant free == old(free) - Run(start, i)
        invariant Valid()
      {
        RunStep(old(free), start, i, count);
        Take(start + i);
      }
    }

    /** Gives a frame back. The three ASSERTs of the source are the cases of `Halted`. */
    method FreeFrame(physAddr: nat) returns (r: Outcome<()>)
      requires Valid()
      modifies this`freeFrames, this`free, bitmap
      ensures Valid()
      ensures r.Done? <==> physAddr % PAGE_SIZE == 0 && physAddr / PAGE_SIZE < frameCount
                           && physAddr / PAGE_SIZE !in old(free)
      ensures free == if r.Done? then old(free) + {physAddr / PAGE_SIZE} else old(free)
    {
      hide Valid;
      if physAddr % PAGE_SIZE != 0 { return Halted; }
      var frame := physAddr / PAGE_SIZE;
      if frame >= frameCount { return Halted; }
      var used := BitmapTest(frame);
      if !used { return Halted; }
      Release(frame);
      return Done(());
    }

    /** Builds the bitmap from the boot loader's memory map. `bitmapBase` is where the bitmap
        itself is placed. */
    method Init(map_: seq<Region>, kernelBase: nat) returns (r: Outcome<nat>)
      requires WellFormedMap(map_)
      modifies this
      ensures frameCount == MaxEnd(map_, |map_|) / PAGE_SIZE
      ensures r.Done? <==> exists i: nat :: FirstFitting(map_, (frameCount + 7) / 8, i) && map_[i].base != 0
      ensures r.Done? ==> exists i: nat :: FirstFitting(map_, (frameCount + 7) / 8, i) && map_[i].base == r.value
      ensures r.Done? ==> Valid() && fresh(bitmap)
      ensures r.Done? ==> forall f: nat :: f in free <==>
                            && InUsable(map_, |map_|, f)
                            && !Touches(r.value, (frameCount + 7) / 8, f)
                            && !InKernelImage(map_, kernelBase, f)
    {
      hide Valid, Shape, MaxEnd, FirstFitting, KernelEntry, WellFormedMap;
      var maxPhys := HighestEnd(map_);
      frameCount := maxPhys / PAGE_SIZE;
      var bitmapSize := (frameCount + 7) / 8;
      var bitmapPhys := PlaceBitmap(map_, bitmapSize);
      if bitmapPhys == 0 { return Halted; }

      assert bitmapPhys % PAGE_SIZE == 0 by { BitmapAligned(map_, bitmapSize, bitmapPhys); }
      ClearAll(bitmapSize);
      FreeUsable(map_);
      ReserveBytes(bitmapPhys, bitmapSize);
      hide InUsable, InKernelImage;
      ReserveKernel(map_, kernelBase);
      r := Done(bitmapPhys);
    }

    /** Step 4 of `Init`: every frame is marked used. */
    method ClearAll(bitmapSize: nat)
      requires bitmapSize == (frameCount + 7) / 8
      modifies this`bitmap, this`freeFrames, this`free
      ensures Valid() && free == {} && fresh(bitmap)
    {
      bitmap := new bv8[bitmapSize](_ => 0xFF);
      freeFrames, free := 0, {};
      forall k: nat | k < 8 ensures TestBit(0xFF, k) { }
    }

    /** Step 1 of `Init`. */
    method HighestEnd(map_: seq<Region>) returns (maxPhys: nat)
      ensures maxPhys == MaxEnd(map_, |map_|)
    {
      maxPhys := 0;
      for i := 0 to |map_|
        invariant maxPhys == MaxEnd(map_, i)
      {
        var e := map_[i];
        if e.Counted() && e.base + e.length > maxPhys { maxPhys := e.base + e.length; }
      }
    }

    /** Step 3 of `Init`: the base of the first USABLE entry with room for the bitmap, or 0. */
    method PlaceBitmap(map_: seq<Region>, bitmapSize: nat) returns (bitmapPhys: nat)
      ensures forall i: nat :: FirstFitting(map_, bitmapSize, i) ==> bitmapPhys == map_[i].base
      ensures bitmapPhys != 0 ==> exists i: nat :: FirstFitting(map_, bitmapSize, i)
    {
      bitmapPhys := 0;
      var n := 0;
      while n < |map_|
        invariant n <= |map_| && bitmapPhys == 0
        invariant forall j :: 0 <= j < n ==> !(map_[j].kind.Usable? && map_[j].length >= bitmapSize)
      {
        if map_[n].kind.Usable? && map_[n].length >= bitmapSize {
          assert FirstFitting(map_, bitmapSize, n);
          return map_[n].base;
        }
        n := n + 1;
      }
    }

    /** Clears the bits of `[start, end)`. */
    method FreeRange(start: nat, end: nat)
      requires Valid() && end <= frameCount
      requires forall f :: start <= f < end ==> f !in free
      modifies this`freeFrames, this`free, bitmap
      ensures Valid() && forall f :: f in free <==> f in old(free) || start <= f < end
    {
      hide Valid;
      var frame := start;
      while frame < end
        invariant start <= frame
        invariant frame <= end || frame == start
        invariant Valid()
        invariant forall f :: f in free <==> f in old(free) || start <= f < frame
      {
        Release(frame);
        frame := frame + 1;
      }
    }

    /** Step 5 of `Init`: clear the bits of all USABLE entries. */
    method FreeUsable(map_: seq<Region>)
      requires WellFormedMap(map_) && Valid() && free == {}
      requires frameCount == MaxEnd(map_, |map_|) / PAGE_SIZE
      modifies this`freeFrames, this`free, bitmap
      ensures Valid() && forall f: nat :: f in free <==> InUsable(map_, |map_|, f)
    {
      hide Valid;
      for i := 0 to |map_|
        invariant Valid()
        invariant forall f: nat :: f in free <==> InUsable(map_, i, f)
      {
        var e := map_[i];
        if e.kind.Usable? {
          forall f: nat ensures e.Holds(f) <==> e.base / PAGE_SIZE <= f < (e.base + e.length) / PAGE_SIZE {
            HeldFrames(e, f);
          }
          assert forall f: nat :: e.Holds(f) ==> f !in free;
          FreeRange(e.base / PAGE_SIZE, (e.base + e.length) / PAGE_SIZE);
          assert forall f: nat :: InUsable(map_, i + 1, f) <==> InUsable(map_, i, f) || e.Holds(f);
        } else {
          assert forall f: nat :: InUsable(map_, i + 1, f) <==> InUsable(map_, i, f);
        }
      }
    }

    /** Marks the frames of `[start, end)` that are free as used. */
    method ReserveRange(start: nat, end: nat)
      requires Valid()
      modifies this`freeFrames, this`free, bitmap
      ensures Valid() && forall f :: f in free <==> f in old(free) && !(start <= f < end)
    {
      hide Valid;
      var frame := start;
      while frame < end
        invariant start <= frame
        invariant frame <= end || frame == start
        invariant Valid()
        invariant forall f :: f in free <==> f in old(free) && !(start <= f < frame)
      {
        FreeInRange();
        if frame < frameCount {
          var used := BitmapTest(frame);
          if !used {
            Take(frame);
          }
        }
        frame := frame + 1;
      }
    }

    /** Marks every frame with a byte of the range as used. */
    method ReserveBytes(base: nat, length: nat)
      requires Valid() && (length > 0 || base % PAGE_SIZE == 0)
      modifies this`freeFrames, this`free, bitmap
      ensures Valid() && forall f :: f in free <==> f in old(free) && !Touches(base, length, f)
    {
      assert length == 0 ==> CeilFrames(base + length) == base / PAGE_SIZE;
      hide Valid, Touches, CeilFrames;
      ReserveRange(base / PAGE_SIZE, CeilFrames(base + length));
      forall f | f in old(free) ensures f in free <==> !Touches(base, length, f) { TouchedFrames(base, length, f); }
    }

    /** Step 7 of `Init`: reserve the kernel image. */
    method ReserveKernel(map_: seq<Region>, kernelBase: nat)
      requires Valid()
      modifies this`freeFrames, this`free, bitmap
      ensures Valid() && forall f :: f in free <==> f in old(free) && !InKernelImage(map_, kernelBase, f)
    {
      var kernelSize := 0;
      var n := 0;
      while n < |map_|
        invariant n <= |map_| && kernelSize == 0
        invariant forall j :: 0 <= j < n ==> !(map_[j].kind.ExecutableAndModules? && map_[j].base == kernelBase)
      {
        if map_[n].kind.ExecutableAndModules? && map_[n].base == kernelBase {
          kernelSize := map_[n].length;
          break;
        }
        n := n + 1;
      }
      if kernelSize > 0 {
        ReserveBytes(kernelBase, kernelSize);
      }
      assert n < |map_| ==> KernelEntry(map_, kernelBase, n);
      assert forall i: nat :: KernelEntry(map_, kernelBase, i) ==> i == n;
    }
  }
}
