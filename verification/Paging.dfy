/** The operations of src/paging.c on physical memory. */
module Paging {
  import opened Base
  import opened Ownership
  import opened PageTables
  import opened Pmm

  datatype MapResult = Mapped | Failed | Panicked

  lemma NodeStep(mem: Memory, root: nat, d: nat, p: nat)
    ensures Node(mem, root, d + 1, p) == Target(d, Slot(mem, root, d, p))
    ensures IsTable([ZeroTable()], 0)
  {
  }

  /** Hanging a zeroed free frame into an empty slot. */
  lemma DescendNew(mem: Memory, free: set<nat>, root: nat, d: nat, p: nat, user: bool, n: nat)
    requires Ready(mem, root, free) && n in free && n < |mem| && d <= 2
    requires Node(mem, root, d, p / 512).Some? && Private(mem, root, d, p / 512)
    requires !Slot(mem, root, d, p).flags.present
    ensures var t := Node(mem, root, d, p / 512).value;
            var zeroed := mem[n := ZeroTable()];
            && IsTable(zeroed, t)
            && var mem' := Written(zeroed, t, p % 512, Passed(Slot(mem, root, d, p), n, user));
            Descended(mem, free, mem', free - {n}, root, d, p, user, n) && Ready(mem', root, free - {n})
  {
    hide Node, Slot, Entry, ZeroTable, Up, PathPos;
    NodeStep(mem, root, d, p);
    var t := Node(mem, root, d, p / 512).value;
    assert IsTable(mem, t);
    var zeroed := mem[n := ZeroTable()];
    var e := Passed(Slot(mem, root, d, p), n, user);
    UnreachedWrite(mem, zeroed, root);
    WriteEffect(zeroed, root, d, p, e);
    DescendedReady(mem, free, Written(zeroed, t, p % 512, e), free - {n}, root, d, p, user, n);
  }

  /** Passing through a present slot. */
  lemma DescendPresent(mem: Memory, free: set<nat>, root: nat, d: nat, p: nat, user: bool)
    requires Ready(mem, root, free) && d <= 2
    requires Node(mem, root, d, p / 512).Some? && Private(mem, root, d, p / 512)
    requires Slot(mem, root, d, p).flags.present && (d >= 1 ==> !Slot(mem, root, d, p).flags.huge)
    ensures var t := Node(mem, root, d, p / 512).value;
            var e := Slot(mem, root, d, p);
            && IsTable(mem, t)
            && var mem' := Written(mem, t, p % 512, Passed(e, e.frame, user));
            Descended(mem, free, mem', free, root, d, p, user, e.frame) && Ready(mem', root, free)
  {
    hide Node, Slot, Entry, Up, PathPos;
    NodeStep(mem, root, d, p);
    var t := Node(mem, root, d, p / 512).value;
    assert IsTable(mem, t);
    var e := Slot(mem, root, d, p);
    WriteEffect(mem, root, d, p, Passed(e, e.frame, user));
    DescendedReady(mem, free, Written(mem, t, p % 512, Passed(e, e.frame, user)), free, root, d, p, user, e.frame);
  }

  /** Bits 12-51 of an address select one of this many frames. */
  const ADDR_FRAMES: nat := 0x100_0000_0000

  class Machine {
    var mem: Memory
    const pmm: FrameAllocator

    /** Frame 0 is never free, so that the source can read the address 0 as a failure. */
    ghost predicate Valid()
      reads this, pmm, pmm.bitmap
    {
      pmm.Valid() && |mem| == pmm.frameCount && 0 !in pmm.free
    }

    constructor (pmm: FrameAllocator, mem: Memory)
      requires pmm.Valid() && |mem| == pmm.frameCount && 0 !in pmm.free
      ensures Valid() && this.pmm == pmm && this.mem == mem
    {
      this.pmm, this.mem := pmm, mem;
    }

    /** A zeroed frame for a page table. */
    method AllocPageTable() returns (r: Outcome<nat>)
      requires Valid()
      modifies this`mem, pmm`freeFrames, pmm`free, pmm.bitmap
      ensures Valid()
      ensures r.Halted? ==> mem == old(mem) && pmm.free == old(pmm.free) == {}
      ensures r.Done? ==> r.value in old(pmm.free) && r.value < |mem|
                          && pmm.free == old(pmm.free) - {r.value} && mem == old(mem)[r.value := ZeroTable()]
    {
      pmm.FreeInRange();
      var a := pmm.AllocFrame();
      if a.Halted? { return Halted; }
      var f := a.value / PAGE_SIZE;
      mem := mem[f := ZeroTable()];
      return Done(f);
    }

    /** One level of `MapPageIn`: from entry `i` of table `t` at depth `d` to the next table. */
    method Descend(t: nat, i: nat, d: nat, user: bool, ghost root: nat, ghost p: nat) returns (r: Outcome<Option<nat>>)
      requires Valid() && d <= 2
      requires Node(mem, root, d, p / 512) == Some(t) && i == p % 512
      requires Ready(mem, root, pmm.free) && Private(mem, root, d, p / 512)
      modifies this`mem, pmm`freeFrames, pmm`free, pmm.bitmap
      ensures Valid()
      ensures r.Halted? ==> mem == old(mem) && pmm.free == old(pmm.free) == {}
      ensures r == Done(None) <==> d >= 1 && Slot(old(mem), root, d, p).flags.huge
      ensures r == Done(None) ==> mem == old(mem) && pmm.free == old(pmm.free)
      ensures r.Done? && r.value.Some? ==>
                && Descended(old(mem), old(pmm.free), mem, pmm.free, root, d, p, user, r.value.value)
                && Ready(mem, root, pmm.free)
    {
      hide pmm.Valid, Up, PathPos;
      var e := Entry(mem, t, i);
      if d >= 1 && e.flags.huge { return Done(None); }
      if !e.flags.present {
        var a := AllocPageTable();
        if a.Halted? { return Halted; }
        e := Pte(a.value, NO_FLAGS.(present := true, writable := true, user := user));
        DescendNew(old(mem), old(pmm.free), root, d, p, user, a.value);
      } else {
        if user { e := e.(flags := e.flags.(user := true)); }
        DescendPresent(mem, pmm.free, root, d, p, user);
      }
      mem := Written(mem, t, i, e);
      return Done(Some(e.frame));
    }

    /** `paging_map_page_in`: maps the page of `vaddr` to the frame of `paddr`. The page walk's
        answer changes for that page only, and nothing is mapped or taken on failure, which
        means that a huge page is in the way. */
    method MapPageIn(root: nat, vaddr: nat, paddr: nat, flags: Flags) returns (r: MapResult, ghost added: map<nat, Pos>)
      requires Valid()
      requires Ready(mem, root, pmm.free) && PathPrivate(mem, root, Vpn(vaddr))
      modifies this`mem, pmm`freeFrames, pmm`free, pmm.bitmap
      ensures Valid()
      ensures r.Mapped? ==>
                && MapSlots(old(mem), mem, root, Vpn(vaddr), flags.user, 3,
                      Some(Pte((paddr / PAGE_SIZE) % ADDR_FRAMES, flags)))
                && MapNodes(old(mem), old(pmm.free), mem, pmm.free, root, Vpn(vaddr), added, 3)
                && MapFrames(old(mem), mem, root, Vpn(vaddr)) && Ready(mem, root, pmm.free)
      ensures r.Failed? ==>
                && (Slot(old(mem), root, 1, PathPos(Vpn(vaddr), 2)).flags.huge
                    || Slot(old(mem), root, 2, PathPos(Vpn(vaddr), 3)).flags.huge)
                && pmm.free == old(pmm.free)
                && (forall q :: Leaf(mem, root, q) == Leaf(old(mem), root, q))
                && (forall d, p | d <= 3 :: Node(mem, root, d, p) == Node(old(mem), root, d, p))
      ensures r.Panicked? ==> pmm.free == {}
    {
      hide pmm.Valid, MapSlots, MapNodes, MapFrames, Node, Slot, PathPos;
      ghost var vpn := Vpn(vaddr);
      PathIndices(vaddr);
      MappingStart(mem, pmm.free, root, vpn, flags.user);
      added := map[];
      r := Panicked;
      var table := root;
      ghost var mem0, free0 := mem, pmm.free;

      var c := Descend(table, (vaddr / 0x80_0000_0000) % 512, 0, flags.user, root, PathPos(vpn, 1));
      if c.Halted? { return; }
      added := MappingStep(mem0, free0, mem0, free0, mem, pmm.free, root, vpn, flags.user, added, 0, c.value.value);
      table := c.value.value;

      ghost var mem1, free1 := mem, pmm.free;
      c := Descend(table, (vaddr / 0x4000_0000) % 512, 1, flags.user, root, PathPos(vpn, 2));
      if c.Halted? { return; }
      if c.value == None {
        MappingBlocked(mem0, free0, mem, pmm.free, root, vpn, flags.user, added, 1);
        return Failed, added;
      }
      added := MappingStep(mem0, free0, mem1, free1, mem, pmm.free, root, vpn, flags.user, added, 1, c.value.value);
      table := c.value.value;

      ghost var mem2, free2 := mem, pmm.free;
      c := Descend(table, (vaddr / 0x20_0000) % 512, 2, flags.user, root, PathPos(vpn, 3));
      if c.Halted? { return; }
      if c.value == None {
        MappingBlocked(mem0, free0, mem, pmm.free, root, vpn, flags.user, added, 2);
        return Failed, added;
      }
      added := MappingStep(mem0, free0, mem2, free2, mem, pmm.free, root, vpn, flags.user, added, 2, c.value.value);
      table := c.value.value;

      var leaf := Pte((paddr / PAGE_SIZE) % ADDR_FRAMES, flags);
      MappingEnd(mem0, free0, mem, pmm.free, root, vpn, flags.user, added, leaf);
      mem := Written(mem, table, (vaddr / 0x1000) % 512, leaf);
      r := Mapped;
    }

    /** `paging_map_user_page_in`: the space comes to own the frame and the tables that were added;
        what the page was mapped to before, it owns no more. */
    method MapUserPageIn(root: nat, vaddr: nat, paddr: nat, writable: bool, executable: bool, ghost own: map<nat, Pos>)
        returns (r: MapResult, ghost own': map<nat, Pos>)
      requires Valid()
      requires Owns(mem, root, own) && InUse(mem, root, own, pmm.free)
      requires Lower(4, Vpn(vaddr))
      requires paddr / PAGE_SIZE < ADDR_FRAMES
      requires IsPage(mem, paddr / PAGE_SIZE) && paddr / PAGE_SIZE !in pmm.free && paddr / PAGE_SIZE !in own
        && paddr / PAGE_SIZE != 0
      modifies this`mem, pmm`freeFrames, pmm`free, pmm.bitmap
      ensures Valid()
      ensures !r.Failed?
      ensures r.Panicked? ==> pmm.free == {}
      ensures r.Mapped? ==> UserPageMapped(old(mem), old(pmm.free), mem, pmm.free, root, own, own',
                                           Vpn(vaddr), paddr / PAGE_SIZE, writable, executable)
    {
      hide pmm.Valid, Node, Slot, PathPos, Leaf, Owns, InUse, MapSlots, MapNodes, MapFrames, Ready, PathPrivate,
          UserPageMapped;
      OwnsReady(mem, root, own, pmm.free, Vpn(vaddr));
      OwnsUserTables(mem, root, own);
      NoHugeOnPath(mem, root, Vpn(vaddr));
      var flags := UserFlags(writable, executable);
      ghost var added;
      r, added := MapPageIn(root, vaddr, paddr, flags);
      own' := own;
      if r.Mapped? {
        own' := Owned(own, added, paddr / PAGE_SIZE, Vpn(vaddr));
        UserPageMappedBy(old(mem), old(pmm.free), mem, pmm.free, root, own, Vpn(vaddr), paddr / PAGE_SIZE,
                         writable, executable, added);
      }
    }

    /** One subtree of `FreeUserPages`; the source spells this recursion out as four nested
        loops. Frees what hangs below the table `t` at depth `d`, not the table itself. */
    method FreeBelow(t: nat, d: nat, ghost root: nat, ghost q: nat, ghost own: map<nat, Pos>) returns (r: Outcome<()>)
      requires Valid() && d <= 3 && Owns(mem, root, own)
      requires Node(mem, root, d, q) == Some(t) && (d > 0 ==> Lower(d, q))
      requires Doomed(own, d, 512 * q, 512 * q + (if d == 0 then 256 else 512)) !! pmm.free
      modifies pmm`freeFrames, pmm`free, pmm.bitmap
      ensures Valid()
      ensures r.Done?
      ensures pmm.free == old(pmm.free) + Doomed(own, d, 512 * q, 512 * q + (if d == 0 then 256 else 512))
      decreases 4 - d
    {
      hide Doomed, At, Node, Slot, Owns, pmm.Valid;
      assert d == 0 ==> q == 0 by { NodeZero(mem, root, q); }
      assert Doomed(own, d, 512 * q, 512 * q) == {} by { DoomedNone(own, d, 512 * q); }
      var n := if d == 0 then 256 else 512;
      var i := 0;
      while i < n
        invariant 0 <= i <= n && Valid()
        invariant pmm.free == old(pmm.free) + Doomed(own, d, 512 * q, 512 * q + i)
      {
        ghost var c, before := 512 * q + i, pmm.free;
        ChildLower(d, q, i);
        DoomedParts(own, d, 512 * q, c);
        DoomedSplit(mem, root, own, d, c);
        DoomedWithin(own, d, 512 * q, c, 512 * q + n);
        NodeEntry(mem, root, d, c);
        var e := Entry(mem, t, i);
        if e.flags.present && !(e.flags.huge && (d == 1 || d == 2)) {
          if d < 3 {
            r := FreeBelow(e.frame, d + 1, root, c, own);
          }
          OwnedInMemory(mem, root, own, e.frame);
          r := pmm.FreeFrame(e.frame * PAGE_SIZE);
          if r.Halted? { return; }
        }
        assert 512 * q + (i + 1) == c + 1;
        assert pmm.free == before + Doomed(own, d, c, c + 1);
        i := i + 1;
      }
      r := Done(());
    }

    /** `paging_free_user_pages`: every frame of the user half goes back, once, and no other.
        The tables themselves keep their contents. */
    method FreeUserPages(root: nat, ghost own: map<nat, Pos>) returns (r: Outcome<()>)
      requires Valid() && Owns(mem, root, own) && own.Keys !! pmm.free
      modifies pmm`freeFrames, pmm`free, pmm.bitmap
      ensures Valid()
      ensures r.Done?
      ensures pmm.free == old(pmm.free) + own.Keys
      ensures pmm.freeFrames == old(pmm.freeFrames) + |own.Keys|
    {
      NodeRoot(mem, root);
      DoomedAll(mem, root, own);
      r := FreeBelow(root, 0, root, 0, own);
    }

    /** The copy loop of `paging_clone_kernel_mappings`, on a zeroed PML4. */
    method CloneKernelMappings(dst: nat, src: nat)
      requires Valid() && IsTable(mem, src) && dst != src && dst < |mem| && mem[dst] == ZeroTable()
      modifies this`mem
      ensures Valid()
      ensures Cloned(old(mem), mem, src, dst)
    {
      hide pmm.Valid;
      for i := 256 to 512
        invariant |mem| == old(|mem|) && IsTable(mem, dst)
        invariant forall f: nat | f < |mem| && f != dst :: mem[f] == old(mem)[f]
        invariant forall j: nat | j < 512 ::
            Entry(mem, dst, j) == if 256 <= j < i then Entry(old(mem), src, j) else EMPTY
      {
        ghost var before := mem;
        assert Entry(mem, src, i) == Entry(old(mem), src, i);
        mem := Written(mem, dst, i, Entry(mem, src, i));
        forall j: nat | j < 512 ensures Entry(mem, dst, j) == if j == i then Entry(old(mem), src, i)
            else Entry(before, dst, j) {
          EntryWritten(before, dst, i, Entry(before, src, i), dst, j);
        }
      }
    }
  }
}
