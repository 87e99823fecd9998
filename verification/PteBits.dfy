/** Page-table words bit by bit (src/paging.c, include/paging.h; section 4.5 of Intel SDM vol. 3A):
    the masks that the code applies to a 64-bit word are updates of the `Pte` that it stands for. */
module PteBits {
  import opened Base
  import opened Ownership
  import opened PageTables
  import opened Paging

  const PTE_PRESENT: bv64 := 1
  const PTE_WRITABLE: bv64 := 2
  const PTE_USER: bv64 := 4
  const PTE_NX: bv64 := 0x8000_0000_0000_0000
  const PTE_ADDR_MASK: bv64 := 0x000F_FFFF_FFFF_F000

  function Bit(b: bool, w: bv64): bv64 {
    if b then w else 0
  }

  // ---------------------------------------------------------------- words as numbers

  /** The fields of a word, lowest first: bits 0-11, three parts of the address, bits 52-63. */
  function Low(w: bv64): bv12 { (w & 0xFFF) as bv12 }
  function Addr0(w: bv64): bv16 { ((w >> 12) & 0xFFFF) as bv16 }
  function Addr1(w: bv64): bv16 { ((w >> 28) & 0xFFFF) as bv16 }
  function Addr2(w: bv64): bv8 { ((w >> 44) & 0xFF) as bv8 }
  function High(w: bv64): bv12 { (w >> 52) as bv12 }

  function Nat16(x: bv16): (n: nat)
    ensures n < 0x1_0000
  {
    x as nat
  }

  function Nat12(x: bv12): (n: nat)
    ensures n < PAGE_SIZE
  {
    x as nat
  }

  function Nat8(x: bv8): (n: nat)
    ensures n < 0x100
  {
    x as nat
  }

  lemma Nat16Injective(x: bv16, y: bv16)
    requires Nat16(x) == Nat16(y)
    ensures x == y
  {
    assert (x as nat) as bv16 == x;
    assert (y as nat) as bv16 == y;
  }

  lemma Nat8Injective(x: bv8, y: bv8)
    requires Nat8(x) == Nat8(y)
    ensures x == y
  {
    assert (x as nat) as bv8 == x;
    assert (y as nat) as bv8 == y;
  }

  /** A number in three parts. */
  function Parts(a: nat, b: nat, c: nat): (f: nat)
    requires a < 0x1_0000 && b < 0x1_0000 && c < 0x100
    ensures f < ADDR_FRAMES
  {
    a + 0x1_0000 * b + 0x1_0000_0000 * c
  }

  function Number(a: bv16, b: bv16, c: bv8): (f: nat)
    ensures f < ADDR_FRAMES
  {
    Parts(Nat16(a), Nat16(b), Nat8(c))
  }

  lemma SameNumbers(a: nat, b: nat, c: nat, a': nat, b': nat, c': nat)
    requires a < 0x1_0000 && b < 0x1_0000 && c < 0x100 && a' < 0x1_0000 && b' < 0x1_0000 && c' < 0x100
    requires Parts(a, b, c) == Parts(a', b', c')
    ensures a == a' && b == b' && c == c'
  {
  }

  lemma SameParts(a: bv16, b: bv16, c: bv8, a': bv16, b': bv16, c': bv8)
    requires Number(a, b, c) == Number(a', b', c')
    ensures a == a' && b == b' && c == c'
  {
    hide Nat16, Nat8, Parts;
    SameNumbers(Nat16(a), Nat16(b), Nat8(c), Nat16(a'), Nat16(b'), Nat8(c'));
    Nat16Injective(a, a');
    Nat16Injective(b, b');
    Nat8Injective(c, c');
  }

  /** The number in bits 12-51. */
  function FrameOf(w: bv64): (f: nat)
    ensures f < ADDR_FRAMES
  {
    Number(Addr0(w), Addr1(w), Addr2(w))
  }

  /** The unsigned value of a word. */
  function Value(w: bv64): nat {
    Nat12(Low(w)) + PAGE_SIZE * (FrameOf(w) + ADDR_FRAMES * Nat12(High(w)))
  }

  /** The frame number of a word is that of the address which it is. */
  lemma FrameOfValue(w: bv64)
    ensures FrameOf(w) == (Value(w) / PAGE_SIZE) % ADDR_FRAMES
  {
    hide Nat12, FrameOf;
    Remainder(Nat12(Low(w)), FrameOf(w) + ADDR_FRAMES * Nat12(High(w)), PAGE_SIZE);
    Remainder(FrameOf(w), Nat12(High(w)), ADDR_FRAMES);
  }

  lemma Remainder(r: nat, q: nat, n: nat)
    requires r < n
    ensures (r + n * q) / n == q && (r + n * q) % n == r
  {
    ModIs(r + n * q, n, q, r);
    assert n * ((r + n * q) / n) + r == r + n * q;
    SameQuotient((r + n * q) / n, q, n);
  }

  lemma SameQuotient(a: nat, b: nat, n: nat)
    requires n > 0 && n * a == n * b
    ensures a == b
  {
  }

  /** What the mask leaves is the address of that frame. */
  lemma MaskedValue(w: bv64)
    ensures FrameOf(w & PTE_ADDR_MASK) == FrameOf(w) && Value(w & PTE_ADDR_MASK) == PAGE_SIZE * FrameOf(w)
  {
    var m := w & PTE_ADDR_MASK;
    assert Low(m) == 0 && High(m) == 0 && Addr0(m) == Addr0(w) && Addr1(m) == Addr1(w) && Addr2(m) == Addr2(w);
    assert Nat12(0) == 0;
  }

  lemma SameFrameBits(w: bv64, w': bv64)
    requires FrameOf(w) == FrameOf(w')
    ensures w & PTE_ADDR_MASK == w' & PTE_ADDR_MASK
  {
    SameParts(Addr0(w), Addr1(w), Addr2(w), Addr0(w'), Addr1(w'), Addr2(w'));
    SameAddr(w, w');
  }

  lemma SameAddr(w: bv64, w': bv64)
    requires Addr0(w) == Addr0(w') && Addr1(w) == Addr1(w') && Addr2(w) == Addr2(w')
    ensures w & PTE_ADDR_MASK == w' & PTE_ADDR_MASK
  {
    assert (w >> 12) & 0xFFFF == (w' >> 12) & 0xFFFF;
    assert (w >> 28) & 0xFFFF == (w' >> 28) & 0xFFFF;
    assert (w >> 44) & 0xFF == (w' >> 44) & 0xFF;
  }

  // ---------------------------------------------------------------- words as entries

  /** The flags in a word. */
  function FlagsOf(w: bv64): Flags {
    Flags(w & 1 != 0, w & 2 != 0, w & 4 != 0, ((w >> 3) & 0xF) as bv4,
          w & 0x80 != 0, w & 0x100 != 0, ((w >> 9) & 7) as bv3, ((w >> 52) & 0x7FF) as bv11,
          w & 0x8000_0000_0000_0000 != 0)
  }

  /** The entry that a word stands for. */
  function PteOf(w: bv64): Pte {
    Pte(FrameOf(w), FlagsOf(w))
  }

  /** A word is its frame number and its flags. */
  lemma WordIsEntry(w: bv64, w': bv64)
    requires PteOf(w) == PteOf(w')
    ensures w == w'
  {
    SameFrameBits(w, w');
    SameFlagBits(w, w');
  }

  lemma SameFlagBits(w: bv64, w': bv64)
    requires FlagsOf(w) == FlagsOf(w') && w & PTE_ADDR_MASK == w' & PTE_ADDR_MASK
    ensures w == w'
  {
    assert w & 0x78 == w' & 0x78 by { assert ((w >> 3) & 0xF) as bv4 == ((w' >> 3) & 0xF) as bv4; }
    assert w & 0xE00 == w' & 0xE00 by { assert ((w >> 9) & 7) as bv3 == ((w' >> 9) & 7) as bv3; }
    assert w & 0x7FF0_0000_0000_0000 == w' & 0x7FF0_0000_0000_0000 by {
      assert ((w >> 52) & 0x7FF) as bv11 == ((w' >> 52) & 0x7FF) as bv11;
    }
  }

  /** The empty word is the empty entry. */
  lemma EmptyWord()
    ensures PteOf(0) == EMPTY
  {
    assert Addr0(0) == 0 && Addr1(0) == 0 && Addr2(0) == 0;
  }

  /** `entry |= PTE_USER`: what a user mapping does to a present entry on its way. */
  lemma OrUser(w: bv64, child: nat)
    requires FlagsOf(w).present
    ensures PteOf(w | PTE_USER) == Passed(PteOf(w), child, true)
  {
    hide FlagsOf, Number;
    OrUserFlags(w);
    OrUserFrame(w);
  }

  lemma OrUserFrame(w: bv64)
    ensures FrameOf(w | PTE_USER) == FrameOf(w)
  {
    hide Number;
    var u := w | PTE_USER;
    assert Addr0(u) == Addr0(w) && Addr1(u) == Addr1(w) && Addr2(u) == Addr2(w);
  }

  lemma OrUserFlags(w: bv64)
    ensures FlagsOf(w | PTE_USER) == FlagsOf(w).(user := true)
  {
  }

  /** The word for a new table. */
  function TableWord(table: bv64, user: bool): bv64 {
    table | PTE_PRESENT | PTE_WRITABLE | Bit(user, PTE_USER)
  }

  /** `table | PTE_PRESENT | PTE_WRITABLE`, and with PTE_USER for user mappings: the entry that a
      mapping puts in front of a new table. */
  lemma NewTableEntry(e: Pte, table: bv64, user: bool)
    requires table & PTE_ADDR_MASK == table && !e.flags.present
    ensures PteOf(TableWord(table, user)) == Passed(e, Value(table) / PAGE_SIZE, user)
  {
    hide FlagsOf, FrameOf, TableWord, Value;
    MaskedValue(table);
    TableFrameIs(table, user);
    NewTableFlags(table, user);
    WholePages(FrameOf(table));
  }

  lemma WholePages(f: nat)
    ensures PAGE_SIZE * f / PAGE_SIZE == f
  {
  }

  lemma TableFrameIs(table: bv64, user: bool)
    ensures FrameOf(TableWord(table, user)) == FrameOf(table)
  {
    hide Number;
    var w := TableWord(table, user);
    assert Addr0(w) == Addr0(table) && Addr1(w) == Addr1(table) && Addr2(w) == Addr2(table);
  }

  lemma NewTableFlags(table: bv64, user: bool)
    requires table & PTE_ADDR_MASK == table
    ensures FlagsOf(TableWord(table, user)) == NO_FLAGS.(present := true, writable := true, user := user)
  {
  }

  /** The word for the leaf of a user page. */
  function LeafWord(paddr: bv64, writable: bool, executable: bool): bv64 {
    (paddr & PTE_ADDR_MASK) | PTE_PRESENT | PTE_USER | Bit(writable, PTE_WRITABLE) | Bit(!executable, PTE_NX)
  }

  /** `(paddr & PTE_ADDR_MASK) | flags` with the flags of a user page: the leaf that a user mapping
      writes. */
  lemma LeafEntry(paddr: bv64, writable: bool, executable: bool)
    ensures PteOf(LeafWord(paddr, writable, executable))
            == Pte((Value(paddr) / PAGE_SIZE) % ADDR_FRAMES, UserFlags(writable, executable))
  {
    hide FlagsOf, FrameOf, LeafWord, Value, UserFlags;
    FrameOfValue(paddr);
    LeafFrame(paddr, writable, executable);
    LeafFlags(paddr, writable, executable);
  }

  lemma LeafFrame(paddr: bv64, writable: bool, executable: bool)
    ensures FrameOf(LeafWord(paddr, writable, executable)) == FrameOf(paddr)
  {
    hide Number;
    var w := LeafWord(paddr, writable, executable);
    assert Addr0(w) == Addr0(paddr) && Addr1(w) == Addr1(paddr) && Addr2(w) == Addr2(paddr);
  }

  lemma LeafFlags(paddr: bv64, writable: bool, executable: bool)
    ensures FlagsOf(LeafWord(paddr, writable, executable)) == UserFlags(writable, executable)
  {
  }

  /** `entry & PTE_ADDR_MASK` is the address of the frame that the entry names. */
  lemma EntryAddress(w: bv64)
    ensures Value(w & PTE_ADDR_MASK) == PAGE_SIZE * PteOf(w).frame
  {
    MaskedValue(w);
  }
}
