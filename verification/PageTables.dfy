/** The x86-64 4-level page-table tree as a value (src/paging.c; Intel SDM vol. 3A, section 4.5).

    Positions in the tree are numbered level by level: the tables at depth 0 (PML4), 1 (PDPT),
    2 (PD) and 3 (PT), and the mapped pages at depth 4. Position `p` at depth d + 1 hangs under
    position `p / 512` at depth d, in entry `p % 512`; so positions at depth 4 are the 36-bit
    virtual page numbers. */
module PageTables {
  import opened Base

  /** All bits of an entry other than the address: bits 0-11 and 52-63. */
  datatype Flags = Flags(present: bool, writable: bool, user: bool, caching: bv4,
                         huge: bool, global: bool, available: bv3, high: bv11, noExecute: bool)

  /** A page-table word: the frame number in bits 12-51 and the flags. */
  datatype Pte = Pte(frame: nat, flags: Flags)

  const NO_FLAGS := Flags(false, false, false, 0, false, false, 0, 0, false)
  const EMPTY := Pte(0, NO_FLAGS)

  /** Contents of one physical frame: 512 page-table words or 4096 bytes. A frame read as a
      table while it holds bytes shows 512 empty entries. */
  datatype Frame = TableFrame(entries: seq<Pte>) | PageFrame(bytes: seq<byte>)

  type Memory = seq<Frame>

  predicate IsTable(mem: Memory, f: nat) {
    f < |mem| && mem[f].TableFrame? && |mem[f].entries| == 512
  }

  predicate IsPage(mem: Memory, f: nat) {
    f < |mem| && mem[f].PageFrame? && |mem[f].bytes| == 4096
  }

  function ZeroTable(): Frame {
    TableFrame(seq(512, _ => EMPTY))
  }

  function ZeroPage(): Frame {
    PageFrame(seq(4096, _ => 0))
  }

  function Entry(mem: Memory, t: nat, i: nat): Pte {
    if IsTable(mem, t) && i < 512 then mem[t].entries[i] else EMPTY
  }

  /** What an entry of a table at depth `d` leads to. A huge entry of a PDPT or a PD maps
      memory itself and leads to no table. */
  function Target(d: nat, e: Pte): Option<nat> {
    if e.flags.present && !(e.flags.huge && (d == 1 || d == 2)) then Some(e.frame) else None
  }

  /** The frame at a position: a table at depths 0-3, a mapped page at depth 4. */
  function Node(mem: Memory, root: nat, d: nat, p: nat): Option<nat>
    decreases d, 0
  {
    if d == 0 then (if p == 0 then Some(root) else None) else Target(d - 1, Slot(mem, root, d - 1, p))
  }

  /** The entry, in a table at depth `d`, that position `p` of depth d + 1 hangs on. */
  function Slot(mem: Memory, root: nat, d: nat, p: nat): Pte
    decreases d, 1
  {
    match Node(mem, root, d, p / 512)
    case None => EMPTY
    case Some(t) => Entry(mem, t, p % 512)
  }

  function FrameAt(mem: Memory, root: nat, d: nat, p: nat): nat {
    match Node(mem, root, d, p)
    case None => 0
    case Some(f) => f
  }

  /** The flat map: the leaf entry for a virtual page number. */
  function Leaf(mem: Memory, root: nat, vpn: nat): Pte {
    Slot(mem, root, 3, vpn)
  }

  /** The position `k` levels above `p`. */
  function Up(p: nat, k: nat): nat {
    if k == 0 then p else Up(p / 512, k - 1)
  }

  /** The position at depth `d` on the walk to page number `vpn`. */
  function PathPos(vpn: nat, d: nat): nat
    requires d <= 4
  {
    Up(vpn, 4 - d)
  }

  // ---------------------------------------------------------------- writes

  /** Nothing but tables that the tree does not reach differs. */
  ghost predicate SameTables(mem: Memory, mem': Memory, root: nat) {
    && |mem'| == |mem|
    && forall d, p, f: nat | d <= 3 && Node(mem, root, d, p) == Some(f) && f < |mem| :: mem'[f] == mem[f]
  }

  lemma {:induction false} SlotUnreached(mem: Memory, mem': Memory, root: nat, d: nat, p: nat)
    requires SameTables(mem, mem', root) && d <= 3
    ensures Slot(mem', root, d, p) == Slot(mem, root, d, p)
  {
    if d == 0 {
    } else {
      SlotUnreached(mem, mem', root, d - 1, p / 512);
    }
    assert Node(mem', root, d, p / 512) == Node(mem, root, d, p / 512);
  }

  /** A write to frames that the tree does not reach changes no entry. */
  lemma UnreachedWrite(mem: Memory, mem': Memory, root: nat)
    requires SameTables(mem, mem', root)
    ensures forall d, p | d <= 3 :: Slot(mem', root, d, p) == Slot(mem, root, d, p)
    ensures forall d, p | d <= 4 :: Node(mem', root, d, p) == Node(mem, root, d, p)
  {
    forall d: nat, p: nat | d <= 3 ensures Slot(mem', root, d, p) == Slot(mem, root, d, p) {
      SlotUnreached(mem, mem', root, d, p);
    }
    forall d: nat, p: nat | d <= 4 ensures Node(mem', root, d, p) == Node(mem, root, d, p) {
      if d > 0 { SlotUnreached(mem, mem', root, d - 1, p); }
    }
  }

  /** The table at depth `d`, position `p`, is reached at no other position. */
  ghost predicate Private(mem: Memory, root: nat, d: nat, p: nat) {
    forall d', p' | d' <= 3 && Node(mem, root, d', p') == Node(mem, root, d, p) :: d' == d && p' == p
  }

  /** `n` is an all-zero table that the tree does not reach. */
  ghost predicate FreshTable(mem: Memory, root: nat, n: nat) {
    && IsTable(mem, n) && mem[n] == ZeroTable()
    && forall d, p | d <= 3 :: Node(mem, root, d, p) != Some(n)
  }

  /** Writing `e` to slot (d, p) changes a leaf, or keeps what the slot leads to, or hangs a
      fresh table into an empty slot. */
  ghost predicate GoodWrite(mem: Memory, root: nat, d: nat, p: nat, e: Pte) {
    && d <= 3
    && Node(mem, root, d, p / 512).Some?
    && IsTable(mem, Node(mem, root, d, p / 512).value)
    && Private(mem, root, d, p / 512)
    && (|| d == 3
        || Target(d, e) == Target(d, Slot(mem, root, d, p))
        || (Target(d, Slot(mem, root, d, p)) == None && Target(d, e).Some?
              && FreshTable(mem, root, Target(d, e).value)))
  }

  function Written(mem: Memory, t: nat, i: nat, e: Pte): (mem': Memory)
    requires IsTable(mem, t) && i < 512
  {
    mem[t := TableFrame(mem[t].entries[i := e])]
  }

  lemma EntryWritten(mem: Memory, t: nat, i: nat, e: Pte, f: nat, j: nat)
    requires IsTable(mem, t) && i < 512
    ensures Entry(Written(mem, t, i, e), f, j) == if f == t && j == i then e else Entry(mem, f, j)
  {
  }

  lemma {:induction false} SlotWritten(mem: Memory, root: nat, d: nat, p: nat, e: Pte, d': nat, p': nat)
    requires GoodWrite(mem, root, d, p, e) && d' <= 3
    ensures var mem' := Written(mem, Node(mem, root, d, p / 512).value, p % 512, e);
            Slot(mem', root, d', p') == if d' == d && p' == p then e else Slot(mem, root, d', p')
  {
    hide Entry, Written, Target;
    var t := Node(mem, root, d, p / 512).value;
    var mem' := Written(mem, t, p % 512, e);
    var q := p' / 512;
    if d' == 0 {
    } else {
      SlotWritten(mem, root, d, p, e, d' - 1, q);
    }
    var n := Node(mem', root, d', q);
    if n.Some? { EntryWritten(mem, t, p % 512, e, n.value, p' % 512); }
    if d' == d + 1 && q == p {
      assert n == Target(d, e);
      if n.Some? { FreshOrOld(mem, root, d, p, e, p' % 512); }
    } else {
      assert n == Node(mem, root, d', q);
    }
  }

  /** The table that slot (d, p) leads to after a good write shows what it showed before. */
  lemma FreshOrOld(mem: Memory, root: nat, d: nat, p: nat, e: Pte, j: nat)
    requires GoodWrite(mem, root, d, p, e) && d < 3 && Target(d, e).Some?
    ensures Target(d, e) != Node(mem, root, d, p / 512)
    ensures var old_ := Node(mem, root, d + 1, p);
            Entry(mem, Target(d, e).value, j) == if old_.Some? then Entry(mem, old_.value, j) else EMPTY
  {
    assert Node(mem, root, d + 1, p) == Target(d, Slot(mem, root, d, p));
  }

  /** The effect of one entry write on the whole tree. */
  lemma WriteEffect(mem: Memory, root: nat, d: nat, p: nat, e: Pte)
    requires GoodWrite(mem, root, d, p, e)
    ensures var mem' := Written(mem, Node(mem, root, d, p / 512).value, p % 512, e);
      && (forall d', p' | d' <= 3 :: Slot(mem', root, d', p')
            == if d' == d && p' == p then e else Slot(mem, root, d', p'))
      && (forall d', p' | d' <= 4 :: Node(mem', root, d', p')
            == if d' == d + 1 && p' == p then Target(d, e) else Node(mem, root, d', p'))
  {
    var mem' := Written(mem, Node(mem, root, d, p / 512).value, p % 512, e);
    forall d': nat, p': nat | d' <= 3
      ensures Slot(mem', root, d', p') == if d' == d && p' == p then e else Slot(mem, root, d', p')
    {
      SlotWritten(mem, root, d, p, e, d', p');
    }
    forall d': nat, p': nat | d' <= 4
      ensures Node(mem', root, d', p') == if d' == d + 1 && p' == p then Target(d, e) else Node(mem, root, d', p')
    {
      if d' > 0 { SlotWritten(mem, root, d, p, e, d' - 1, p'); }
    }
  }

  // ---------------------------------------------------------------- walks

  /** Position of a tree node. */
  datatype Pos = Pos(depth: nat, index: nat)

  /** The virtual page number of an address, by its bits 12-47. */
  function Vpn(vaddr: nat): (vpn: nat)
    ensures vpn < 512 * 512 * 512 * 512
  {
    (vaddr / PAGE_SIZE) % (512 * 512 * 512 * 512)
  }

  lemma DivMod(w: nat, n: nat)
    requires n > 0
    ensures (w % (512 * n)) / 512 == (w / 512) % n
    ensures (w % (512 * n)) % 512 == w % 512
  {
    var q := w / 512;
    assert w == 512 * q + w % 512;
    assert q == n * (q / n) + q % n;
    var m := 512 * (q % n) + w % 512;
    assert w == (512 * n) * (q / n) + m by {
      assert 512 * (n * (q / n)) == (512 * n) * (q / n);
    }
    ModIs(w, 512 * n, q / n, m);
  }

  lemma ModIs(w: nat, k: nat, q: nat, m: nat)
    requires k > 0 && w == k * q + m && m < k
    ensures w % k == m
  {
    SmallMultiple(k, w / k - q, m - w % k);
  }

  lemma SmallMultiple(k: int, x: int, y: int)
    requires k * x == y && -k < y < k
    ensures x == 0
  {
  }

  /** The four 9-bit index fields of an address are the steps of the walk to its page number. */
  lemma WalkIndices(vaddr: nat)
    ensures var vpn := Vpn(vaddr);
      && vpn % 512 == (vaddr / 0x1000) % 512
      && (vpn / 512) % 512 == (vaddr / 0x20_0000) % 512
      && (vpn / 512 / 512) % 512 == (vaddr / 0x4000_0000) % 512
      && vpn / 512 / 512 / 512 == (vaddr / 0x80_0000_0000) % 512
  {
    var w := vaddr / PAGE_SIZE;
    assert vaddr / 0x20_0000 == w / 512;
    assert vaddr / 0x4000_0000 == w / 512 / 512;
    assert vaddr / 0x80_0000_0000 == w / 512 / 512 / 512;
    DivMod(w, 512 * 512 * 512);
    DivMod(w / 512, 512 * 512);
    DivMod(w / 512 / 512, 512);
  }

  lemma SmallDiv(x: nat)
    requires x < 512
    ensures x / 512 == 0
  {
  }

  lemma PathIndices(vaddr: nat)
    ensures var vpn := Vpn(vaddr);
      && PathPos(vpn, 4) % 512 == (vaddr / 0x1000) % 512
      && PathPos(vpn, 3) % 512 == (vaddr / 0x20_0000) % 512
      && PathPos(vpn, 2) % 512 == (vaddr / 0x4000_0000) % 512
      && PathPos(vpn, 1) % 512 == (vaddr / 0x80_0000_0000) % 512
      && PathPos(vpn, 0) == 0
      && (forall d | 0 <= d < 4 :: PathPos(vpn, d + 1) / 512 == PathPos(vpn, d)) && PathPos(vpn, 4) == vpn
  {
    hide PathPos, Vpn;
    var vpn := Vpn(vaddr);
    WalkIndices(vaddr);
    PathStep(vpn, 3);
    PathStep(vpn, 2);
    PathStep(vpn, 1);
    PathStep(vpn, 0);
    SmallDiv(PathPos(vpn, 1));
    forall d: nat | d < 4 ensures PathPos(vpn, d + 1) / 512 == PathPos(vpn, d) { PathStep(vpn, d); }
  }

  /** The walk of the processor: four entries, each in the table that the one before names, at the
      index that nine bits of the address give; a huge entry ends it. */
  lemma ProcessorWalk(mem: Memory, root: nat, vaddr: nat)
    ensures var v := Vpn(vaddr);
      var e4 := Entry(mem, root, (vaddr / 0x80_0000_0000) % 512);
      var e3 := if e4.flags.present then Entry(mem, e4.frame, (vaddr / 0x4000_0000) % 512) else EMPTY;
      var e2 := if e3.flags.present && !e3.flags.huge then Entry(mem, e3.frame, (vaddr / 0x20_0000) % 512) else EMPTY;
      var e1 := if e2.flags.present && !e2.flags.huge then Entry(mem, e2.frame, (vaddr / 0x1000) % 512) else EMPTY;
      && Slot(mem, root, 0, PathPos(v, 1)) == e4 && Slot(mem, root, 1, PathPos(v, 2)) == e3
      && Slot(mem, root, 2, PathPos(v, 3)) == e2 && Slot(mem, root, 3, v) == Leaf(mem, root, v) == e1
  {
    hide PathPos, Vpn, Entry;
    PathIndices(vaddr);
    var v := Vpn(vaddr);
    WalkStep(mem, root, 0, PathPos(v, 1));
    WalkStep(mem, root, 1, PathPos(v, 2));
    WalkStep(mem, root, 2, PathPos(v, 3));
    WalkStep(mem, root, 3, PathPos(v, 4));
    hide Node, Slot;
  }

  lemma WalkStep(mem: Memory, root: nat, d: nat, p: nat)
    requires d <= 3 && (d == 0 ==> p / 512 == 0)
    ensures Slot(mem, root, d, p) ==
      if d == 0 then Entry(mem, root, p % 512)
      else var e := Slot(mem, root, d - 1, p / 512);
        if e.flags.present && !(e.flags.huge && d > 1) then Entry(mem, e.frame, p % 512) else EMPTY
  {
  }

  /** Every table that the tree reaches is a table in memory, and its frame is in use. */
  ghost predicate Ready(mem: Memory, root: nat, free: set<nat>) {
    forall d, p, f | d <= 3 && Node(mem, root, d, p) == Some(f) :: IsTable(mem, f) && f !in free
  }

  /** The tables on the walk to `vpn` are reached at one position only. */
  ghost predicate PathPrivate(mem: Memory, root: nat, vpn: nat) {
    forall d | 0 <= d <= 3 && Node(mem, root, d, PathPos(vpn, d)).Some? :: Private(mem, root, d, PathPos(vpn, d))
  }

  /** `f` is one of the tables on the walk to `vpn`. */
  predicate OnPath(mem: Memory, root: nat, vpn: nat, f: nat) {
    || Node(mem, root, 0, PathPos(vpn, 0)) == Some(f) || Node(mem, root, 1, PathPos(vpn, 1)) == Some(f)
    || Node(mem, root, 2, PathPos(vpn, 2)) == Some(f) || Node(mem, root, 3, PathPos(vpn, 3)) == Some(f)
  }

  /** An intermediate entry after a mapping passed through it. */
  function Passed(e: Pte, child: nat, user: bool): Pte {
    if e.flags.present then (if user then e.(flags := e.flags.(user := true)) else e)
    else Pte(child, NO_FLAGS.(present := true, writable := true, user := user))
  }

  /** One level of a mapping: slot (d, p) of the tree leads to `child` afterwards, either as
      before or as a fresh table; all other slots and nodes are as before. */
  ghost predicate Descended(mem: Memory, free: set<nat>, mem': Memory, free': set<nat>,
                            root: nat, d: nat, p: nat, user: bool, child: nat) {
    && |mem'| == |mem|
    && (forall d', p' | d' <= 3 :: Slot(mem', root, d', p')
          == if d' == d && p' == p then Passed(Slot(mem, root, d, p), child, user) else Slot(mem, root, d', p'))
    && (forall d', p' | d' <= 4 :: Node(mem', root, d', p')
          == if d' == d + 1 && p' == p then Some(child) else Node(mem, root, d', p'))
    && (if Node(mem, root, d + 1, p).Some?
        then child == Node(mem, root, d + 1, p).value && free' == free
        else child in free && free' == free - {child} && IsTable(mem', child))
    && forall f: nat | f < |mem| && Some(f) != Node(mem, root, d, p / 512) && f !in free - free' :: mem'[f] == mem[f]
  }

  lemma DescendedReady(mem: Memory, free: set<nat>, mem': Memory, free': set<nat>,
                       root: nat, d: nat, p: nat, user: bool, child: nat)
    requires Descended(mem, free, mem', free', root, d, p, user, child) && d <= 2
    requires Ready(mem, root, free)
    requires Node(mem, root, d, p / 512).Some? && IsTable(mem', Node(mem, root, d, p / 512).value)
    ensures Ready(mem', root, free')
  {
    hide Node, Slot;
    forall d', p', f | d' <= 3 && Node(mem', root, d', p') == Some(f)
      ensures IsTable(mem', f) && f !in free'
    {
      if !(d' == d + 1 && p' == p && f in free) {
        assert Node(mem, root, d', p') == Some(f);
        if Some(f) != Node(mem, root, d, p / 512) { TableKept(mem, mem', f); }
      }
    }
  }

  lemma TableKept(mem: Memory, mem': Memory, f: nat)
    requires IsTable(mem, f) && |mem'| == |mem| && mem'[f] == mem[f]
    ensures IsTable(mem', f)
  {
  }

  lemma DescendedPrivate(mem: Memory, free: set<nat>, mem': Memory, free': set<nat>,
                         root: nat, d: nat, p: nat, user: bool, child: nat, vpn: nat)
    requires Descended(mem, free, mem', free', root, d, p, user, child) && d <= 2 && p == PathPos(vpn, d + 1)
    requires Ready(mem, root, free) && PathPrivate(mem, root, vpn)
    ensures PathPrivate(mem', root, vpn)
  {
    hide Node, Slot, PathPos;
    forall e | 0 <= e <= 3 && Node(mem', root, e, PathPos(vpn, e)).Some?
      ensures Private(mem', root, e, PathPos(vpn, e))
    {
      var q := PathPos(vpn, e);
      forall d', p' | d' <= 3 && Node(mem', root, d', p') == Node(mem', root, e, q)
        ensures d' == e && p' == q
      {
        if Node(mem, root, e, q).Some? { assert Private(mem, root, e, q); }
      }
    }
  }

  // ---------------------------------------------------------------- a whole mapping

  lemma {:induction false} UpDiv(p: nat, k: nat)
    ensures Up(p, k + 1) == Up(p, k) / 512
  {
    if k == 0 {
    } else {
      UpDiv(p / 512, k - 1);
    }
  }

  lemma PathStep(vpn: nat, d: nat)
    requires d < 4
    ensures PathPos(vpn, d + 1) / 512 == PathPos(vpn, d)
    ensures PathPos(vpn, 4) == vpn
  {
    UpDiv(vpn, 3 - d);
  }

  /** Entries after a mapping of page `vpn` that has passed the tables above depth `k`; `leaf` is
      the leaf entry once it is written. */
  ghost predicate MapSlots(mem0: Memory, mem: Memory, root: nat, vpn: nat, user: bool, k: nat, leaf: Option<Pte>) {
    && (forall q :: Leaf(mem, root, q) == if q == vpn && leaf.Some? then leaf.value else Leaf(mem0, root, q))
    && (forall d: nat, p: nat | d <= 2 :: Slot(mem, root, d, p) == (
          if d < k && p == PathPos(vpn, d + 1)
          then Passed(Slot(mem0, root, d, p), FrameAt(mem, root, d + 1, p), user)
          else Slot(mem0, root, d, p)))
  }

  /** The tables after a mapping: those of before and the ones in `added`, each on the walk. */
  ghost predicate MapNodes(mem0: Memory, free0: set<nat>, mem: Memory, free: set<nat>, root: nat, vpn: nat,
                           added: map<nat, Pos>, k: nat) {
    && (forall d, p, f | d <= 3 :: Node(mem, root, d, p) == Some(f) <==>
          Node(mem0, root, d, p) == Some(f) || (f in added && added[f] == Pos(d, p)))
    && (forall f | f in added ::
          && f in free0 && 1 <= added[f].depth <= k <= 3 && added[f].index == PathPos(vpn, added[f].depth)
          && Node(mem0, root, added[f].depth, added[f].index) == None)
    && free == free0 - added.Keys
  }

  /** Only tables on the walk were written. */
  ghost predicate MapFrames(mem0: Memory, mem: Memory, root: nat, vpn: nat) {
    && |mem| == |mem0|
    && forall f: nat | f < |mem| && !OnPath(mem, root, vpn, f) :: mem[f] == mem0[f]
  }

  /** State of a mapping of page `vpn` that has reached the table at depth `k`. */
  ghost predicate Mapping(mem0: Memory, free0: set<nat>, mem: Memory, free: set<nat>, root: nat,
                          vpn: nat, user: bool, added: map<nat, Pos>, k: nat)
  {
    && k <= 3 && Node(mem, root, k, PathPos(vpn, k)).Some?
    && MapSlots(mem0, mem, root, vpn, user, k, None)
    && MapNodes(mem0, free0, mem, free, root, vpn, added, k)
    && MapFrames(mem0, mem, root, vpn)
    && Ready(mem, root, free) && PathPrivate(mem, root, vpn)
  }

  lemma MappingStart(mem: Memory, free: set<nat>, root: nat, vpn: nat, user: bool)
    requires Ready(mem, root, free) && PathPrivate(mem, root, vpn) && PathPos(vpn, 0) == 0
    ensures Mapping(mem, free, mem, free, root, vpn, user, map[], 0)
    ensures Node(mem, root, 0, 0) == Some(root)
  {
  }

  lemma MapSlotsStep(mem0: Memory, mem: Memory, free: set<nat>, mem': Memory, free': set<nat>,
                     root: nat, vpn: nat, user: bool, k: nat, child: nat)
    requires k <= 2 && MapSlots(mem0, mem, root, vpn, user, k, None)
    requires Descended(mem, free, mem', free', root, k, PathPos(vpn, k + 1), user, child)
    ensures MapSlots(mem0, mem', root, vpn, user, k + 1, None)
  {
    hide Node, Slot, PathPos, Passed;
  }

  lemma MapNodesStep(mem0: Memory, free0: set<nat>, mem: Memory, free: set<nat>, mem': Memory, free': set<nat>,
                     root: nat, vpn: nat, user: bool, added: map<nat, Pos>, k: nat, child: nat)
    requires k <= 2 && MapNodes(mem0, free0, mem, free, root, vpn, added, k)
    requires Descended(mem, free, mem', free', root, k, PathPos(vpn, k + 1), user, child)
    ensures MapNodes(mem0, free0, mem', free', root, vpn,
                     if Node(mem, root, k + 1, PathPos(vpn, k + 1)).Some? then added
                     else added[child := Pos(k + 1, PathPos(vpn, k + 1))], k + 1)
  {
    hide Node, Slot, PathPos, Passed;
  }

  lemma MapFramesStep(mem0: Memory, mem: Memory, free: set<nat>, mem': Memory, free': set<nat>,
                      root: nat, vpn: nat, user: bool, k: nat, child: nat)
    requires k <= 2 && MapFrames(mem0, mem, root, vpn)
    requires Descended(mem, free, mem', free', root, k, PathPos(vpn, k + 1), user, child)
    ensures MapFrames(mem0, mem', root, vpn)
  {
    hide Node, Slot, PathPos, Passed;
    PathStep(vpn, k);
    assert Node(mem', root, k + 1, PathPos(vpn, k + 1)) == Some(child);
    forall f: nat | f < |mem| && !OnPath(mem', root, vpn, f) ensures mem'[f] == mem0[f] {
      assert !OnPath(mem, root, vpn, f);
    }
  }

  lemma MappingStep(mem0: Memory, free0: set<nat>, mem: Memory, free: set<nat>, mem': Memory, free': set<nat>,
                    root: nat, vpn: nat, user: bool, added: map<nat, Pos>, k: nat, child: nat)
      returns (added': map<nat, Pos>)
    requires k <= 2 && Mapping(mem0, free0, mem, free, root, vpn, user, added, k)
    requires Descended(mem, free, mem', free', root, k, PathPos(vpn, k + 1), user, child)
    requires Ready(mem', root, free')
    ensures Mapping(mem0, free0, mem', free', root, vpn, user, added', k + 1)
  {
    hide Node, Slot, PathPos, MapSlots, MapNodes, MapFrames;
    var p := PathPos(vpn, k + 1);
    added' := if Node(mem, root, k + 1, p).Some? then added else added[child := Pos(k + 1, p)];
    DescendedPrivate(mem, free, mem', free', root, k, p, user, child, vpn);
    MapSlotsStep(mem0, mem, free, mem', free', root, vpn, user, k, child);
    MapNodesStep(mem0, free0, mem, free, mem', free', root, vpn, user, added, k, child);
    MapFramesStep(mem0, mem, free, mem', free', root, vpn, user, k, child);
  }

  /** The leaf write at the end of a mapping. */
  lemma MappingEnd(mem0: Memory, free0: set<nat>, mem: Memory, free: set<nat>, root: nat,
                   vpn: nat, user: bool, added: map<nat, Pos>, e: Pte)
    requires Mapping(mem0, free0, mem, free, root, vpn, user, added, 3)
    ensures var t := FrameAt(mem, root, 3, PathPos(vpn, 3));
            && IsTable(mem, t)
            && var mem' := Written(mem, t, vpn % 512, e);
            && MapSlots(mem0, mem', root, vpn, user, 3, Some(e))
            && MapNodes(mem0, free0, mem', free, root, vpn, added, 3)
            && MapFrames(mem0, mem', root, vpn)
            && Ready(mem', root, free)
  {
    hide Node, Slot, Passed, PathPos, Target;
    PathStep(vpn, 3);
    var t := FrameAt(mem, root, 3, PathPos(vpn, 3));
    assert Node(mem, root, 3, vpn / 512) == Some(t);
    assert Private(mem, root, 3, PathPos(vpn, 3));
    WriteEffect(mem, root, 3, vpn, e);
    var mem' := Written(mem, t, vpn % 512, e);
    forall f: nat | f < |mem| && !OnPath(mem', root, vpn, f) ensures mem'[f] == mem0[f] {
      assert !OnPath(mem, root, vpn, f);
    }
  }

  /** A huge entry on the walk stops a mapping before it has added a table. */
  lemma MappingBlocked(mem0: Memory, free0: set<nat>, mem: Memory, free: set<nat>, root: nat,
                       vpn: nat, user: bool, added: map<nat, Pos>, k: nat)
    requires 1 <= k <= 2 && Mapping(mem0, free0, mem, free, root, vpn, user, added, k)
    requires Slot(mem, root, k, PathPos(vpn, k + 1)).flags.huge
    ensures Slot(mem0, root, k, PathPos(vpn, k + 1)).flags.huge
    ensures free == free0
    ensures forall q :: Leaf(mem, root, q) == Leaf(mem0, root, q)
    ensures forall d, p | d <= 3 :: Node(mem, root, d, p) == Node(mem0, root, d, p)
  {
    hide Ready, PathPrivate, MapFrames, PathPos;
    PathStep(vpn, k);
    PathStep(vpn, k - 1);
    assert Slot(mem0, root, k, PathPos(vpn, k + 1)).flags.huge;
    assert Node(mem0, root, k, PathPos(vpn, k)).Some?;
    assert k == 2 ==> Node(mem0, root, 1, PathPos(vpn, 1)).Some?;
    assert added == map[];
  }
}
