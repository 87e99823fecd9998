/** ELF64 files as src/elf.c reads them (System V gABI, chapters 4 and 5). */
module ElfFormat {
  import opened Base

  const WORD: nat := 0x1_0000_0000_0000_0000
  const USER_ADDR_MIN: nat := 0x10000
  const USER_ADDR_MAX: nat := 0x7FFF_FFFF_FFFF
  const EHDR_SIZE: nat := 64
  const PHDR_SIZE: nat := 56

  /** Little-endian fields. */
  function U16(file: seq<byte>, at: nat): (r: nat)
    requires at + 2 <= |file|
    ensures r < 0x1_0000
  {
    var lo: int, hi: int := file[at], file[at + 1];
    lo + 0x100 * hi
  }

  function U32(file: seq<byte>, at: nat): (r: nat)
    requires at + 4 <= |file|
    ensures r < 0x1_0000_0000
  {
    U16(file, at) + 0x1_0000 * U16(file, at + 2)
  }

  function U64(file: seq<byte>, at: nat): (r: nat)
    requires at + 8 <= |file|
    ensures r < WORD
  {
    U32(file, at) + 0x1_0000_0000 * U32(file, at + 4)
  }

  /** Little-endian fields are read back. */
  lemma U16Le(file: seq<byte>, at: nat, n: nat)
    requires at + 2 <= |file| && n < 0x1_0000 && file[at..at + 2] == Le(n, 2)
    ensures U16(file, at) == n
  {
    assert Above(n, 0) == n;
    hide ByteOf, Above;
    assert file[at] == file[at..at + 2][0] && file[at + 1] == file[at..at + 2][1];
    ByteStep(n, 0);
    ByteStep(n, 1);
  }

  lemma U32Le(file: seq<byte>, at: nat, n: nat)
    requires at + 4 <= |file| && n < 0x1_0000_0000 && file[at..at + 4] == Le(n, 4)
    ensures U32(file, at) == n
  {
    hide ByteOf;
    LeAt(file, at, n, 4);
    FourBytes(n);
  }

  lemma U64Le(file: seq<byte>, at: nat, n: nat)
    requires at + 8 <= |file| && n < WORD && file[at..at + 8] == Le(n, 8)
    ensures U64(file, at) == n
  {
    hide ByteOf;
    LeAt(file, at, n, 8);
    EightBytes(n);
  }

  lemma LeAt(file: seq<byte>, at: nat, n: nat, k: nat)
    requires at + k <= |file| && file[at..at + k] == Le(n, k)
    ensures forall i | at <= i < at + k :: file[i] == ByteOf(n, i - at)
  {
    hide ByteOf;
    forall i | at <= i < at + k ensures file[i] == ByteOf(n, i - at) { assert file[i] == file[at..at + k][i - at]; }
  }

  lemma EightBytes(n: nat)
    requires n < WORD
    ensures
      var b0: int, b1: int, b2: int, b3: int := ByteOf(n, 0), ByteOf(n, 1), ByteOf(n, 2), ByteOf(n, 3);
      var b4: int, b5: int, b6: int, b7: int := ByteOf(n, 4), ByteOf(n, 5), ByteOf(n, 6), ByteOf(n, 7);
      ((b0 + 0x100 * b1) + 0x1_0000 * (b2 + 0x100 * b3))
        + 0x1_0000_0000 * ((b4 + 0x100 * b5) + 0x1_0000 * (b6 + 0x100 * b7)) == n
  {
    assert Above(n, 0) == n;
    hide ByteOf, Above;
    ByteStep(n, 0);
    ByteStep(n, 1);
    ByteStep(n, 2);
    ByteStep(n, 3);
    assert n == ((ByteOf(n, 0) as int + 0x100 * ByteOf(n, 1)) + 0x1_0000 * (ByteOf(n, 2) as int + 0x100 * ByteOf(n, 3)))
      + 0x1_0000_0000 * Above(n, 4);
    ByteStep(n, 4);
    ByteStep(n, 5);
    ByteStep(n, 6);
    ByteStep(n, 7);
  }

  datatype Ehdr = Ehdr(ident: seq<byte>, type_: nat, machine: nat, entry: nat, phoff: nat, phentsize: nat, phnum: nat)

  function ReadEhdr(file: seq<byte>): Ehdr
    requires |file| >= EHDR_SIZE
  {
    Ehdr(file[..16], U16(file, 16), U16(file, 18), U64(file, 24), U64(file, 32), U16(file, 54), U16(file, 56))
  }

  datatype Phdr = Phdr(type_: nat, flags: nat, offset: nat, vaddr: nat, filesz: nat, memsz: nat)
  {
    /** A PT_LOAD segment that is not empty. */
    predicate Loadable() { type_ == 1 && memsz != 0 }
    predicate Executable() { flags % 2 == 1 }
    predicate Writable() { (flags / 2) % 2 == 1 }

    /** The virtual pages that the segment touches. */
    function FirstPage(): nat { vaddr / PAGE_SIZE }
    function EndPage(): nat { (vaddr + memsz + 0xFFF) / PAGE_SIZE }
    predicate Touches(page: nat) { FirstPage() <= page < EndPage() }

    /** The segment lies in the user address range and its file part fits into its memory part. */
    predicate InUserRange() {
      memsz >= filesz && vaddr >= USER_ADDR_MIN && vaddr + memsz <= USER_ADDR_MAX
    }
  }

  /** A segment touches exactly the pages that hold a byte of it. */
  lemma TouchedPages(ph: Phdr, page: nat)
    requires ph.memsz > 0
    ensures ph.Touches(page) <==> exists a: nat :: InSegment(ph, a) && a / PAGE_SIZE == page
  {
    if ph.Touches(page) {
      var a := if ph.vaddr <= page * PAGE_SIZE then page * PAGE_SIZE else ph.vaddr;
      assert InSegment(ph, a) && a / PAGE_SIZE == page;
    }
  }

  predicate InSegment(ph: Phdr, a: nat) {
    ph.vaddr <= a < ph.vaddr + ph.memsz
  }

  function ReadPhdr(file: seq<byte>, at: nat): (ph: Phdr)
    requires at + PHDR_SIZE <= |file|
    ensures ph.vaddr < WORD && ph.memsz < WORD && ph.offset < WORD && ph.filesz < WORD
  {
    Phdr(U32(file, at), U32(file, at + 4), U64(file, at + 8), U64(file, at + 16), U64(file, at + 32),
        U64(file, at + 40))
  }

  /** The 64 bytes of a file header; `rest` are the fields that the loader does not look at: version,
      section header offset, flags and header size, and the sizes of section headers. */
  function EhdrBytes(h: Ehdr, rest: (seq<byte>, seq<byte>, seq<byte>)): seq<byte> {
    h.ident + Le(h.type_, 2) + Le(h.machine, 2) + rest.0 + Le(h.entry, 8) + Le(h.phoff, 8) + rest.1
    + Le(h.phentsize, 2) + Le(h.phnum, 2) + rest.2
  }

  /** What is written as a file header is read back. */
  lemma EhdrRoundTrip(file: seq<byte>, h: Ehdr, rest: (seq<byte>, seq<byte>, seq<byte>))
    requires |h.ident| == 16 && |rest.0| == 4 && |rest.1| == 14 && |rest.2| == 6
    requires h.type_ < 0x1_0000 && h.machine < 0x1_0000 && h.entry < WORD && h.phoff < WORD
      && h.phentsize < 0x1_0000 && h.phnum < 0x1_0000
    requires |file| >= 64 && file[..64] == EhdrBytes(h, rest)
    ensures ReadEhdr(file) == h
  {
    hide Le;
    var bs := EhdrBytes(h, rest);
    assert bs[..16] == h.ident && bs[16..18] == Le(h.type_, 2) && bs[18..20] == Le(h.machine, 2);
    assert bs[24..32] == Le(h.entry, 8) && bs[32..40] == Le(h.phoff, 8);
    assert bs[54..56] == Le(h.phentsize, 2) && bs[56..58] == Le(h.phnum, 2);
    hide EhdrBytes;
    Within(file, 0, 64, 0, 16);
    Within(file, 0, 64, 16, 18);
    Within(file, 0, 64, 18, 20);
    Within(file, 0, 64, 24, 32);
    Within(file, 0, 64, 32, 40);
    Within(file, 0, 64, 54, 56);
    Within(file, 0, 64, 56, 58);
    U16Le(file, 16, h.type_);
    U16Le(file, 18, h.machine);
    U64Le(file, 24, h.entry);
    U64Le(file, 32, h.phoff);
    U16Le(file, 54, h.phentsize);
    U16Le(file, 56, h.phnum);
    hide U16, U64;
  }

  lemma Within(file: seq<byte>, at: nat, end: nat, i: nat, j: nat)
    requires at + j <= end <= |file| && i <= j
    ensures file[at..end][i..j] == file[at + i..at + j]
  {
    var l, r := file[at..end][i..j], file[at + i..at + j];
    forall k | 0 <= k < j - i ensures l[k] == r[k] { }
  }

  /** The 56 bytes of a program header. */
  function PhdrBytes(ph: Phdr, paddr: nat, align: nat): seq<byte> {
    Le(ph.type_, 4) + Le(ph.flags, 4) + Le(ph.offset, 8) + Le(ph.vaddr, 8) + Le(paddr, 8) + Le(ph.filesz, 8)
    + Le(ph.memsz, 8) + Le(align, 8)
  }

  /** What is written as a program header is read back. */
  lemma PhdrRoundTrip(file: seq<byte>, at: nat, ph: Phdr, paddr: nat, align: nat)
    requires ph.type_ < 0x1_0000_0000 && ph.flags < 0x1_0000_0000 && ph.offset < WORD && ph.vaddr < WORD
      && ph.filesz < WORD && ph.memsz < WORD
    requires at + 56 <= |file| && file[at..at + 56] == PhdrBytes(ph, paddr, align)
    ensures ReadPhdr(file, at) == ph
  {
    hide Le;
    var bs := PhdrBytes(ph, paddr, align);
    assert bs[0..4] == Le(ph.type_, 4) && bs[4..8] == Le(ph.flags, 4);
    assert bs[8..16] == Le(ph.offset, 8) && bs[16..24] == Le(ph.vaddr, 8);
    assert bs[32..40] == Le(ph.filesz, 8) && bs[40..48] == Le(ph.memsz, 8);
    hide PhdrBytes;
    Within(file, at, at + 56, 0, 4);
    Within(file, at, at + 56, 4, 8);
    Within(file, at, at + 56, 8, 16);
    Within(file, at, at + 56, 16, 24);
    Within(file, at, at + 56, 32, 40);
    Within(file, at, at + 56, 40, 48);
    U32Le(file, at, ph.type_);
    U32Le(file, at + 4, ph.flags);
    U64Le(file, at + 8, ph.offset);
    U64Le(file, at + 16, ph.vaddr);
    U64Le(file, at + 32, ph.filesz);
    U64Le(file, at + 40, ph.memsz);
    hide U32, U64;
  }

  /** The header passes `elf_validate_header`. */
  predicate HeaderOk(file: seq<byte>) {
    |file| >= EHDR_SIZE && var h := ReadEhdr(file);
    && h.ident[0] == 0x7f && h.ident[1] == 'E' as int && h.ident[2] == 'L' as int && h.ident[3] == 'F' as int
    && h.ident[4] == 2 && h.ident[5] == 1
    && (h.type_ == 2 || h.type_ == 3) && h.machine == 62
    && h.phoff != 0 && h.phnum != 0
    && (h.phoff + h.phnum * h.phentsize) % WORD <= |file|
  }

  /** What the loader needs of a file to read it in bounds: entries of full size and a program
      header table that does not wrap around the 64-bit range. */
  predicate Readable(file: seq<byte>) {
    HeaderOk(file) ==>
      var h := ReadEhdr(file); h.phentsize >= PHDR_SIZE && h.phoff + h.phnum * h.phentsize < WORD
  }

  function PhdrOffset(h: Ehdr, i: nat): nat {
    h.phoff + i * h.phentsize
  }

  lemma PhdrInBounds(file: seq<byte>, i: nat)
    requires HeaderOk(file) && Readable(file) && i < ReadEhdr(file).phnum
    ensures PhdrOffset(ReadEhdr(file), i) + PHDR_SIZE <= |file|
  {
    hide ReadEhdr;
    var h := ReadEhdr(file);
    RowEnd(i, h.phnum, h.phentsize);
  }

  lemma RowEnd(i: nat, n: nat, size: nat)
    requires i < n
    ensures i * size + size <= n * size
  {
    Distribute(i, 1, size);
    Distribute(i + 1, n - (i + 1), size);
    ProductNotNegative(n - (i + 1), size);
  }

  lemma Distribute(a: nat, b: nat, c: nat)
    ensures (a + b) * c == a * c + b * c
  {
  }

  lemma ProductNotNegative(a: nat, b: nat)
    ensures a * b >= 0
  {
  }

  function Segment(file: seq<byte>, i: nat): Phdr
    requires HeaderOk(file) && Readable(file) && i < ReadEhdr(file).phnum
  {
    PhdrInBounds(file, i);
    ReadPhdr(file, PhdrOffset(ReadEhdr(file), i))
  }

  /** The program headers, in order. */
  function Segments(file: seq<byte>): seq<Phdr>
    requires HeaderOk(file) && Readable(file)
  {
    seq(ReadEhdr(file).phnum, i requires 0 <= i < ReadEhdr(file).phnum => Segment(file, i))
  }

  predicate SegmentOk(ph: Phdr, size: nat) {
    ph.Loadable() ==> ph.InUserRange() && (ph.offset + ph.filesz) % WORD <= size
  }

  /** No loadable segment wraps around when its file range is computed. */
  predicate NoWrap(segs: seq<Phdr>) {
    forall i :: 0 <= i < |segs| && segs[i].Loadable() ==> segs[i].offset + segs[i].filesz < WORD
  }

  /** The file is one that the loader must accept: a valid header, valid segments, at least one
      of them loadable, and an entry point between the lowest start and the highest end. */
  predicate Acceptable(file: seq<byte>)
    requires Readable(file)
  {
    HeaderOk(file) && AcceptableSegments(Segments(file), ReadEhdr(file).entry, |file|)
  }

  predicate AcceptableSegments(segs: seq<Phdr>, entry: nat, size: nat) {
    && (forall i :: 0 <= i < |segs| ==> SegmentOk(segs[i], size))
    && (exists i :: 0 <= i < |segs| && segs[i].Loadable() && segs[i].vaddr <= entry)
    && (exists i :: 0 <= i < |segs| && segs[i].Loadable() && entry < segs[i].vaddr + segs[i].memsz)
  }

  /** The same on the numbers in the program headers. */
  lemma AcceptExact(segs: seq<Phdr>, entry: nat, size: nat)
    ensures AcceptableSegments(segs, entry, size) <==>
      && (forall ph | ph in segs && ph.type_ == 1 && ph.memsz > 0 ::
            && ph.filesz <= ph.memsz && 0x1_0000 <= ph.vaddr && ph.vaddr + ph.memsz <= 0x7FFF_FFFF_FFFF
            && (ph.offset + ph.filesz) % 0x1_0000_0000_0000_0000 <= size)
      && (exists ph :: ph in segs && ph.type_ == 1 && ph.memsz > 0 && ph.vaddr <= entry)
      && (exists ph :: ph in segs && ph.type_ == 1 && ph.memsz > 0 && entry < ph.vaddr + ph.memsz)
  {
    if ph :| ph in segs && ph.type_ == 1 && ph.memsz > 0 && ph.vaddr <= entry {
      var i :| 0 <= i < |segs| && segs[i] == ph;
      assert segs[i].Loadable();
    }
    if ph :| ph in segs && ph.type_ == 1 && ph.memsz > 0 && entry < ph.vaddr + ph.memsz {
      var i :| 0 <= i < |segs| && segs[i] == ph;
      assert segs[i].Loadable();
    }
    if AcceptableSegments(segs, entry, size) {
      forall ph | ph in segs && ph.type_ == 1 && ph.memsz > 0 ensures SegmentOk(ph, size) {
        var i :| 0 <= i < |segs| && segs[i] == ph;
        assert SegmentOk(segs[i], size);
      }
      var i :| 0 <= i < |segs| && segs[i].Loadable() && segs[i].vaddr <= entry;
      assert segs[i] in segs;
      var j :| 0 <= j < |segs| && segs[j].Loadable() && entry < segs[j].vaddr + segs[j].memsz;
      assert segs[j] in segs;
    }
  }

  /** Every loadable segment lies in a file of `size` bytes. */
  predicate InFile(segs: seq<Phdr>, size: nat) {
    forall i :: 0 <= i < |segs| && segs[i].Loadable() ==> segs[i].offset + segs[i].filesz <= size
  }

  /** The test of the file range is made on 64 bits: it means what it should exactly when no sum
      wraps around. */
  lemma InFileIffNoWrap(segs: seq<Phdr>, entry: nat, size: nat)
    requires AcceptableSegments(segs, entry, size) && size < WORD
    ensures InFile(segs, size) <==> NoWrap(segs)
  {
    if NoWrap(segs) {
      forall i | 0 <= i < |segs| && segs[i].Loadable() ensures segs[i].offset + segs[i].filesz <= size {
        assert SegmentOk(segs[i], size);
      }
    }
  }

  /** A file with entry point 0x10000 and program headers right behind the header. */
  function SmallFile(phdrs: seq<byte>, n: nat): seq<byte> {
    EhdrBytes(SmallHeader(n), (Zeros(4), Zeros(14), Zeros(6))) + phdrs
  }

  function SmallHeader(n: nat): Ehdr {
    Ehdr([0x7f, 'E' as int, 'L' as int, 'F' as int, 2, 1] + Zeros(10), 2, 62, 0x1_0000, 64, 56, n)
  }

  function Zeros(n: nat): (s: seq<byte>)
    ensures |s| == n
  {
    seq<byte>(n, _ => 0)
  }

  lemma SmallFileHeader(phdrs: seq<byte>, n: nat)
    requires 0 < n < 0x1_0000 && |phdrs| == 56 * n
    ensures var file := SmallFile(phdrs, n);
      |file| == 64 + 56 * n && file[64..] == phdrs && HeaderOk(file) && Readable(file)
          && ReadEhdr(file) == SmallHeader(n)
  {
    hide Le, Zeros;
    var file := SmallFile(phdrs, n);
    assert file[..64] == EhdrBytes(SmallHeader(n), (Zeros(4), Zeros(14), Zeros(6)));
    EhdrRoundTrip(file, SmallHeader(n), (Zeros(4), Zeros(14), Zeros(6)));
    assert SmallHeader(n).ident[..6] == [0x7f, 'E' as int, 'L' as int, 'F' as int, 2, 1];
    hide ReadEhdr, SmallFile;
  }

  /** A file of 120 bytes whose one segment is said to lie at offset 2^64 - 1. */
  function WrapFile(): seq<byte> {
    SmallFile(PhdrBytes(WrapSegment(), 0, 0), 1)
  }

  function WrapSegment(): Phdr {
    Phdr(1, 5, WORD - 1, 0x1_0000, 16, 16)
  }

  /** It is accepted. */
  lemma WrapIsAccepted()
    ensures var file := WrapFile();
      |file| == 120 && Readable(file) && Acceptable(file) && !NoWrap(Segments(file)) && !InFile(Segments(file), |file|)
  {
    hide HeaderOk, ReadEhdr, ReadPhdr, SmallFile, PhdrBytes, Readable;
    var ph, file := WrapSegment(), WrapFile();
    PhdrLength(ph, 0, 0);
    SmallFileHeader(PhdrBytes(ph, 0, 0), 1);
    assert file[64..64 + 56] == PhdrBytes(ph, 0, 0);
    PhdrRoundTrip(file, 64, ph, 0, 0);
    var segs := Segments(file);
    assert segs[0] == Segment(file, 0) == ph;
    assert segs[0].Loadable() && SegmentOk(segs[0], 120);
  }

  /** `elf_validate_header` on the numbers in a header. */
  lemma HeaderExact(file: seq<byte>, h: Ehdr, rest: (seq<byte>, seq<byte>, seq<byte>))
    requires |h.ident| == 16 && |rest.0| == 4 && |rest.1| == 14 && |rest.2| == 6
    requires h.type_ < 0x1_0000 && h.machine < 0x1_0000 && h.entry < WORD && h.phoff < WORD
      && h.phentsize < 0x1_0000 && h.phnum < 0x1_0000
    requires |file| >= 64 && file[..64] == EhdrBytes(h, rest)
    ensures HeaderOk(file) <==>
      && h.ident[..6] == [0x7f, 'E' as int, 'L' as int, 'F' as int, 2, 1]
      && h.type_ in {2, 3} && h.machine == 62 && h.phoff != 0 && h.phnum != 0
      && (h.phoff + h.phnum * h.phentsize) % WORD <= |file|
  {
    hide EhdrBytes, ReadEhdr;
    EhdrRoundTrip(file, h, rest);
    assert h.ident[..6][0] == h.ident[0] && h.ident[..6][1] == h.ident[1] && h.ident[..6][2] == h.ident[2];
    assert h.ident[..6][3] == h.ident[3] && h.ident[..6][4] == h.ident[4] && h.ident[..6][5] == h.ident[5];
  }

  /** The program headers of a file stand one entry size apart. */
  lemma SegmentRoundTrip(file: seq<byte>, h: Ehdr, i: nat, at: nat, ph: Phdr, paddr: nat, align: nat)
    requires HeaderOk(file) && Readable(file) && h == ReadEhdr(file) && i < h.phnum
    requires ph.type_ < 0x1_0000_0000 && ph.flags < 0x1_0000_0000 && ph.offset < WORD && ph.vaddr < WORD
      && ph.filesz < WORD && ph.memsz < WORD
    requires at == h.phoff + i * h.phentsize && at + 56 <= |file| && file[at..at + 56] == PhdrBytes(ph, paddr, align)
    ensures |Segments(file)| == h.phnum && Segments(file)[i] == ph
  {
    hide HeaderOk, Readable, ReadEhdr, ReadPhdr, PhdrBytes;
    PhdrRoundTrip(file, at, ph, paddr, align);
    assert PhdrOffset(h, i) == at;
    hide PhdrOffset;
    assert Segments(file)[i] == Segment(file, i);
  }

  lemma PhdrLength(ph: Phdr, paddr: nat, align: nat)
    ensures |PhdrBytes(ph, paddr, align)| == 56
  {
  }

  /** A file of 176 bytes with two segments of 16 bytes on page 16. */
  function OverlapFile(): seq<byte> {
    SmallFile(PhdrBytes(OverlapFirst(), 0, 0) + PhdrBytes(OverlapSecond(), 0, 0), 2)
  }

  function OverlapFirst(): Phdr { Phdr(1, 5, 0, 0x1_0000, 16, 16) }

  function OverlapSecond(): Phdr { Phdr(1, 6, 16, 0x1_0800, 16, 16) }

  lemma OverlapSegments()
    ensures var file := OverlapFile();
      |file| == 176 && Readable(file) && Acceptable(file) && Segments(file) == [OverlapFirst(), OverlapSecond()]
  {
    hide HeaderOk, ReadEhdr, ReadPhdr, SmallFile, PhdrBytes, Readable;
    var file, ph1, ph2 := OverlapFile(), OverlapFirst(), OverlapSecond();
    PhdrLength(ph1, 0, 0);
    PhdrLength(ph2, 0, 0);
    SmallFileHeader(PhdrBytes(ph1, 0, 0) + PhdrBytes(ph2, 0, 0), 2);
    assert file[64..64 + 56] == file[64..][..56] == PhdrBytes(ph1, 0, 0);
    assert file[120..120 + 56] == file[64..][56..112] == PhdrBytes(ph2, 0, 0);
    PhdrRoundTrip(file, 64, ph1, 0, 0);
    PhdrRoundTrip(file, 120, ph2, 0, 0);
    var segs := Segments(file);
    assert segs[0] == Segment(file, 0) == ph1;
    assert segs[1] == Segment(file, 1) == ph2;
    assert segs[0].Loadable() && SegmentOk(segs[0], 176) && SegmentOk(segs[1], 176);
  }

  datatype Info = Info(entry: nat, loadBase: nat, loadEnd: nat)

  /** `info` carries the exact bounds of the loadable segments. */
  ghost predicate Bounds(segs: seq<Phdr>, info: Info) {
    && (forall i :: 0 <= i < |segs| && segs[i].Loadable() ==>
          info.loadBase <= segs[i].vaddr && segs[i].vaddr + segs[i].memsz <= info.loadEnd)
    && (exists i :: 0 <= i < |segs| && segs[i].Loadable() && segs[i].vaddr == info.loadBase)
    && (exists i :: 0 <= i < |segs| && segs[i].Loadable() && segs[i].vaddr + segs[i].memsz == info.loadEnd)
  }

  /** `elf_validate_segment`; the sum may wrap, and the second test catches that. */
  method ValidateSegment(ph: Phdr) returns (ok: bool)
    requires ph.vaddr < WORD && ph.memsz < WORD
    ensures ok <==> ph.InUserRange()
    ensures ok <==> ph.filesz <= ph.memsz && 0x1_0000 <= ph.vaddr && ph.vaddr + ph.memsz <= 0x7FFF_FFFF_FFFF
  {
    if ph.memsz < ph.filesz { return false; }
    if ph.vaddr < USER_ADDR_MIN { return false; }
    var segEnd := (ph.vaddr + ph.memsz) % WORD;
    if segEnd > USER_ADDR_MAX || segEnd < ph.vaddr { return false; }
    return true;
  }

  /** The first `i` segments are valid; `hasLoad` says whether one of them is loadable, and `info`
      has the bounds of those that are. */
  ghost predicate Scanned(segs: seq<Phdr>, i: nat, size: nat, hasLoad: bool, info: Info) {
    && i <= |segs|
    && (forall j :: 0 <= j < i ==> SegmentOk(segs[j], size))
    && (if hasLoad then Bounds(segs[..i], info)
        else info.loadBase == WORD - 1 && info.loadEnd == 0 && forall j :: 0 <= j < i ==> !segs[j].Loadable())
  }

  function Least(a: nat, b: nat): nat { if b < a then b else a }
  function Most(a: nat, b: nat): nat { if b > a then b else a }

  lemma ScanMore(segs: seq<Phdr>, i: nat, size: nat, hasLoad: bool, info: Info)
    requires Scanned(segs, i, size, hasLoad, info) && i < |segs| && SegmentOk(segs[i], size)
    requires segs[i].vaddr < WORD
    ensures if segs[i].Loadable()
            then Scanned(segs, i + 1, size, true, Info(info.entry, Least(info.loadBase, segs[i].vaddr),
                                                       Most(info.loadEnd, segs[i].vaddr + segs[i].memsz)))
            else Scanned(segs, i + 1, size, hasLoad, info)
  {
    hide SegmentOk;
    var pre, ph := segs[..i], segs[i];
    assert segs[..i + 1] == pre + [ph];
    if ph.Loadable() {
      BoundsMore(pre, ph, hasLoad, info);
    } else if hasLoad {
      BoundsSame(pre, ph, info);
    }
  }

  lemma BoundsMore(pre: seq<Phdr>, ph: Phdr, hasLoad: bool, info: Info)
    requires ph.Loadable() && ph.vaddr < WORD
    requires if hasLoad then Bounds(pre, info)
             else info.loadBase == WORD - 1 && info.loadEnd == 0 && forall j :: 0 <= j < |pre| ==> !pre[j].Loadable()
    ensures Bounds(pre + [ph],
        Info(info.entry, Least(info.loadBase, ph.vaddr), Most(info.loadEnd, ph.vaddr + ph.memsz)))
  {
    var segs := pre + [ph];
    assert segs[|pre|] == ph;
    if hasLoad {
      var i :| 0 <= i < |pre| && pre[i].Loadable() && pre[i].vaddr == info.loadBase;
      var j :| 0 <= j < |pre| && pre[j].Loadable() && pre[j].vaddr + pre[j].memsz == info.loadEnd;
      assert segs[i] == pre[i] && segs[j] == pre[j];
    }
  }

  lemma BoundsSame(pre: seq<Phdr>, ph: Phdr, info: Info)
    requires !ph.Loadable() && Bounds(pre, info)
    ensures Bounds(pre + [ph], info)
  {
    var segs := pre + [ph];
    var i :| 0 <= i < |pre| && pre[i].Loadable() && pre[i].vaddr == info.loadBase;
    var j :| 0 <= j < |pre| && pre[j].Loadable() && pre[j].vaddr + pre[j].memsz == info.loadEnd;
    assert segs[i] == pre[i] && segs[j] == pre[j];
  }

  /** When all segments were scanned, only the entry point is left to be checked. */
  lemma ScanDone(segs: seq<Phdr>, size: nat, hasLoad: bool, info: Info)
    requires Scanned(segs, |segs|, size, hasLoad, info)
    ensures AcceptableSegments(segs, info.entry, size) <==> hasLoad && info.loadBase <= info.entry < info.loadEnd
    ensures hasLoad ==> Bounds(segs, info)
  {
    hide SegmentOk;
    assert segs[..|segs|] == segs;
  }

  lemma NotAcceptable(segs: seq<Phdr>, entry: nat, size: nat, i: nat)
    requires i < |segs| && !SegmentOk(segs[i], size)
    ensures !AcceptableSegments(segs, entry, size)
  {
    hide SegmentOk;
  }

  /** The first pass of `elf_load_into`: everything is validated before anything is mapped. */
  method FirstPass(segs: seq<Phdr>, entry: nat, size: nat) returns (r: Option<Info>)
    requires forall i :: 0 <= i < |segs| ==> segs[i].vaddr < WORD && segs[i].memsz < WORD
    requires entry < WORD
    ensures r.Some? <==> AcceptableSegments(segs, entry, size)
    ensures r.Some? ==> r.value.entry == entry && Bounds(segs, r.value)
  {
    hide Scanned, Bounds, AcceptableSegments;
    var loadBase: nat, loadEnd: nat := WORD - 1, 0;
    var hasLoad := false;
    var i := 0;
    assert Scanned(segs, 0, size, hasLoad, Info(entry, loadBase, loadEnd)) by { NoneScanned(segs, size, entry); }
    while i < |segs|
      invariant 0 <= i <= |segs| && Scanned(segs, i, size, hasLoad, Info(entry, loadBase, loadEnd))
    {
      var ph := segs[i];
      if ph.Loadable() {
        var ok := ValidateSegment(ph);
        if !ok || (ph.offset + ph.filesz) % WORD > size {
          NotAcceptable(segs, entry, size, i);
          return None;
        }
        ScanMore(segs, i, size, hasLoad, Info(entry, loadBase, loadEnd));
        hasLoad := true;
        if ph.vaddr < loadBase { loadBase := ph.vaddr; }
        var segEnd := ph.vaddr + ph.memsz;
        if segEnd > loadEnd { loadEnd := segEnd; }
      } else {
        ScanMore(segs, i, size, hasLoad, Info(entry, loadBase, loadEnd));
      }
      i := i + 1;
    }
    ScanDone(segs, size, hasLoad, Info(entry, loadBase, loadEnd));
    if !hasLoad { return None; }
    if entry < loadBase || entry >= loadEnd { return None; }
    return Some(Info(entry, loadBase, loadEnd));
  }

  lemma NoneScanned(segs: seq<Phdr>, size: nat, entry: nat)
    ensures Scanned(segs, 0, size, false, Info(entry, WORD - 1, 0))
  {
  }
}
