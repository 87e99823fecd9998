/** The FAT32 driver: open-file table, shared sector buffer, and the loops over chains and
    directories (src/fat32.c). */
module Fat32 {
  import opened Base
  import opened FatFormat

  const MAX_OPEN: nat := 16

  /** `fat_file_t`. */
  datatype Handle = Handle(inUse: bool, first: nat, size: nat, position: nat, current: nat, offset: nat)

  /** A handle is a function of its position: the cluster is that of the position, or the end of
      the chain, and the offset is the position within the cluster. */
  predicate HandleOk(v: Volume, h: Handle)
    requires v.Valid()
  {
    h.inUse ==>
      && h.position <= h.size < W32 && h.first < W32
      && AtPosition(v, h, h.position)
  }

  predicate AtPosition(v: Volume, h: Handle, p: nat)
    requires v.Valid()
  {
    && h.current == ChainAt(v, h.first, ClusterNo(v, p))
    && (h.current < EOC ==> h.offset == ClusterPos(v, p))
  }

  // ---------------------------------------------------------------- searching the root

  /** The first `k` entries were seen; none is the end or has this name. */
  ghost predicate Searched(v: Volume, name: seq<byte>, k: nat)
    requires v.Valid()
  {
    forall j: nat | j < k ::
        Readable(v, j) && !RootEntry(v, j).IsEnd() && !(RootEntry(v, j).Visible() && RootEntry(v, j).name == name)
  }

  lemma NoMatch(v: Volume, name: seq<byte>, k: nat)
    requires v.Valid() && Searched(v, name, k) && (!Readable(v, k) || RootEntry(v, k).IsEnd())
    ensures forall i: nat :: !FirstMatch(v, name, i)
  {
    hide RootEntry, Readable, Reached;
    forall i: nat ensures !FirstMatch(v, name, i) {
      if i >= k && Reached(v, i) { ReachedBefore(v, i, k); }
    }
  }

  lemma ReachedBefore(v: Volume, i: nat, k: nat)
    requires v.Valid() && Reached(v, i) && k <= i
    ensures Readable(v, k) && !RootEntry(v, k).IsEnd()
  {
  }

  lemma Matched(v: Volume, name: seq<byte>, k: nat)
    requires v.Valid() && Searched(v, name, k) && Readable(v, k)
    requires !RootEntry(v, k).IsEnd() && RootEntry(v, k).Visible() && RootEntry(v, k).name == name
    ensures FirstMatch(v, name, k)
  {
    hide RootEntry, Readable;
  }

  /** Number of the first entry in sector `s` of cluster number `ci` of the root. */
  function EntryNo(v: Volume, ci: nat, s: nat): nat {
    16 * (ci * v.spc + s)
  }

  lemma EntrySteps(v: Volume, ci: nat)
    ensures EntryNo(v, 0, 0) == 0
    ensures EntryNo(v, ci, v.spc) == EntryNo(v, ci + 1, 0)
    ensures v.spc > 0 ==> EntryNo(v, ci, 0) < EntryNo(v, ci + 1, 0)
  {
    assert (ci + 1) * v.spc == ci * v.spc + v.spc;
  }

  lemma EntryNext(v: Volume, ci: nat, s: nat)
    ensures EntryNo(v, ci, s + 1) == EntryNo(v, ci, s) + 16
  {
  }

  /** Entry `i` of sector `s` of cluster number `ci` of the root. */
  lemma EntryIndex(v: Volume, ci: nat, s: nat, i: nat)
    requires v.Valid() && s < v.spc && i < 16
    ensures var k := EntryNo(v, ci, s) + i;
      && k / 16 == ci * v.spc + s && k % 16 == i && k / 16 / v.spc == ci && (k / 16) % v.spc == s
  {
    Quotient(EntryNo(v, ci, s) + i, 16, ci * v.spc + s, i);
    Quotient(ci * v.spc + s, v.spc, ci, s);
  }

  /** The sector at that place of the root. */
  function SectorAt(v: Volume, ci: nat, s: nat): nat {
    (FirstSector(v, ChainAt(v, v.root, ci)) + s) % W32
  }

  /** What lies in one sector of the root directory. */
  lemma SectorEntry(v: Volume, ci: nat, s: nat, i: nat)
    requires v.Valid() && s < v.spc && i < 16
    ensures var k := EntryNo(v, ci, s) + i;
      && RootEntry(v, k) == DirentAt(v, SectorAt(v, ci, s), i)
      && (Readable(v, k) <==> ChainAt(v, v.root, ci) < EOC && SectorAt(v, ci, s) !in v.bad)
      && (RootAtEnd(v, k) <==> ChainAt(v, v.root, ci) >= EOC)
  {
    hide DirentAt, FirstSector, EntryNo;
    EntryIndex(v, ci, s, i);
  }

  datatype Search = Found(entry: Dirent) | Absent | More

  datatype Scan = Hit(index: nat) | Ended(at: nat) | GoOn

  /** Entries before `n` of a directory sector are neither the end nor a match. */
  ghost predicate Passed(v: Volume, sector: nat, name: seq<byte>, n: nat) {
    forall i: nat | i < n ::
        !DirentAt(v, sector, i).IsEnd() && !(DirentAt(v, sector, i).Visible() && DirentAt(v, sector, i).name == name)
  }

  lemma SearchedMore(v: Volume, name: seq<byte>, ci: nat, s: nat, n: nat)
    requires v.Valid() && s < v.spc && n <= 16 && Searched(v, name, EntryNo(v, ci, s))
    requires ChainAt(v, v.root, ci) < EOC && SectorAt(v, ci, s) !in v.bad && Passed(v, SectorAt(v, ci, s), name, n)
    ensures Searched(v, name, EntryNo(v, ci, s) + n)
  {
    hide RootEntry, Readable, DirentAt, SectorAt, EntryNo, ChainAt;
    var base := EntryNo(v, ci, s);
    forall j: nat | j < base + n
      ensures Readable(v, j) && !RootEntry(v, j).IsEnd() && !(RootEntry(v, j).Visible() && RootEntry(v, j).name == name)
    {
      if j >= base { SectorEntry(v, ci, s, j - base); }
    }
  }

  /** The three ways in which the search of a name ends in a sector. */
  lemma BadSector(v: Volume, name: seq<byte>, ci: nat, s: nat)
    requires v.Valid() && s < v.spc && Searched(v, name, EntryNo(v, ci, s)) && SectorAt(v, ci, s) in v.bad
    ensures forall i: nat :: !FirstMatch(v, name, i)
  {
    hide RootEntry, Readable, Searched, FirstMatch, SectorAt, EntryNo, DirentAt;
    SectorEntry(v, ci, s, 0);
    NoMatch(v, name, EntryNo(v, ci, s));
  }

  lemma EndInSector(v: Volume, name: seq<byte>, ci: nat, s: nat, n: nat)
    requires v.Valid() && s < v.spc && n < 16 && Searched(v, name, EntryNo(v, ci, s))
    requires ChainAt(v, v.root, ci) < EOC && SectorAt(v, ci, s) !in v.bad && Passed(v, SectorAt(v, ci, s), name, n)
    requires DirentAt(v, SectorAt(v, ci, s), n).IsEnd()
    ensures forall i: nat :: !FirstMatch(v, name, i)
  {
    hide RootEntry, Readable, Searched, FirstMatch, SectorAt, EntryNo, DirentAt, Passed, ChainAt;
    SearchedMore(v, name, ci, s, n);
    SectorEntry(v, ci, s, n);
    NoMatch(v, name, EntryNo(v, ci, s) + n);
  }

  lemma HitInSector(v: Volume, name: seq<byte>, ci: nat, s: nat, n: nat)
    requires v.Valid() && s < v.spc && n < 16 && Searched(v, name, EntryNo(v, ci, s))
    requires ChainAt(v, v.root, ci) < EOC && SectorAt(v, ci, s) !in v.bad && Passed(v, SectorAt(v, ci, s), name, n)
    requires var d := DirentAt(v, SectorAt(v, ci, s), n); !d.IsEnd() && d.Visible() && d.name == name
    ensures FirstMatch(v, name, EntryNo(v, ci, s) + n)
      && RootEntry(v, EntryNo(v, ci, s) + n) == DirentAt(v, SectorAt(v, ci, s), n)
  {
    hide RootEntry, Readable, Searched, FirstMatch, SectorAt, EntryNo, DirentAt, Passed, ChainAt;
    SearchedMore(v, name, ci, s, n);
    SectorEntry(v, ci, s, n);
    Matched(v, name, EntryNo(v, ci, s) + n);
  }

  // ---------------------------------------------------------------- listing

  /** The first `k` entries can be read and are not the end. */
  ghost predicate Listable(v: Volume, k: nat)
    requires v.Valid()
  {
    forall j: nat | j < k :: Readable(v, j) && !RootEntry(v, j).IsEnd()
  }

  /** The scan for a name stops at entry `k`, if not before: it is a match, the end marker, beyond
      the chain, or in a sector that cannot be read. */
  predicate SearchStops(v: Volume, name: seq<byte>, k: nat)
    requires v.Valid()
  {
    !Readable(v, k) || RootEntry(v, k).IsEnd() || (RootEntry(v, k).Visible() && RootEntry(v, k).name == name)
  }

  predicate ListingStops(v: Volume, k: nat)
    requires v.Valid()
  {
    !Readable(v, k) || RootEntry(v, k).IsEnd()
  }

  lemma NotBeyond(v: Volume, name: seq<byte>, k: nat, stop: nat)
    requires v.Valid() && Searched(v, name, k) && SearchStops(v, name, stop)
    ensures k <= stop
  {
    hide RootEntry, Readable;
  }

  lemma NotListedBeyond(v: Volume, k: nat, stop: nat)
    requires v.Valid() && Listable(v, k) && ListingStops(v, stop)
    ensures k <= stop
  {
    hide RootEntry, Readable;
  }

  /** A root directory whose chain ends stops every scan, a cyclic one stops those that meet a
      match, an end marker or an unreadable sector. */
  lemma EndStops(v: Volume, name: seq<byte>, ci: nat)
    requires v.Valid() && ChainAt(v, v.root, ci) >= EOC
    ensures SearchStops(v, name, EntryNo(v, ci, 0)) && ListingStops(v, EntryNo(v, ci, 0))
  {
    hide RootEntry, Readable;
    EndOfRoot(v, ci);
  }

  // ---------------------------------------------------------------- arithmetic of positions

  /** The part of a sector behind an offset lies in the same cluster. */
  lemma InCluster(v: Volume, p: nat, c: nat)
    requires v.Valid() && p % SECTOR + c <= SECTOR
    ensures ClusterPos(v, p) + c <= v.ClusterBytes()
    ensures ClusterPos(v, p) % SECTOR == p % SECTOR && ClusterPos(v, p) / SECTOR == (p / SECTOR) % v.spc
    ensures p / v.ClusterBytes() == ClusterNo(v, p)
  {
    DivTwice(p, v.spc);
    var m := ClusterPos(v, p);
    assert m / SECTOR <= v.spc - 1;
    assert m == SECTOR * (m / SECTOR) + m % SECTOR;
  }

  /** Moving on by `c` bytes of a sector. */
  lemma MovedOn(v: Volume, p: nat, c: nat)
    requires v.Valid() && p % SECTOR + c <= SECTOR
    ensures ClusterPos(v, p) + c <= v.ClusterBytes()
    ensures ClusterPos(v, p) + c < v.ClusterBytes() ==>
        ClusterNo(v, p + c) == ClusterNo(v, p) && ClusterPos(v, p + c) == ClusterPos(v, p) + c
    ensures ClusterPos(v, p) + c == v.ClusterBytes() ==>
        ClusterNo(v, p + c) == ClusterNo(v, p) + 1 && ClusterPos(v, p + c) == 0
  {
    InCluster(v, p, c);
    Advance(p, c, v.ClusterBytes());
    DivTwice(p + c, v.spc);
  }

  lemma ModAdd(p: nat, c: nat)
    ensures (p % W32 + c) % W32 == (p + c) % W32
  {
    var q, r := (p % W32 + c) / W32, (p % W32 + c) % W32;
    Quotient(p + c, W32, p / W32 + q, r);
  }

  /** Where in its cluster a handle is. */
  lemma AtCluster(v: Volume, h: Handle, p: nat, c: nat)
    requires v.Valid() && AtPosition(v, h, p) && h.current < EOC && p % SECTOR + c <= SECTOR
    ensures h.offset == ClusterPos(v, p) && h.offset + c <= v.ClusterBytes()
  {
    hide ChainAt, ClusterNo, ClusterPos, Volume.ClusterBytes;
    MovedOn(v, p, c);
  }

  /** The handle has come to the end of its cluster. */
  lemma NextCluster(v: Volume, h: Handle, h': Handle, p: nat, c: nat)
    requires v.Valid() && AtPosition(v, h, p) && h.current < EOC && p % SECTOR + c <= SECTOR
    requires h.offset + c >= v.ClusterBytes()
    requires h'.first == h.first && h'.current == FatEntry(v, h.current) && h'.offset == 0
    ensures AtPosition(v, h', p + c)
  {
    hide ChainAt, FatEntry, ClusterNo, ClusterPos, Volume.ClusterBytes;
    MovedOn(v, p, c);
    ChainNext(v, h.first, ClusterNo(v, p));
  }

  lemma SameCluster(v: Volume, h: Handle, h': Handle, p: nat, c: nat)
    requires v.Valid() && AtPosition(v, h, p) && h.current < EOC && p % SECTOR + c <= SECTOR
    requires h.offset + c < v.ClusterBytes()
    requires h'.first == h.first && h'.current == h.current && h'.offset == h.offset + c
    ensures AtPosition(v, h', p + c)
  {
    hide ChainAt, ClusterNo, ClusterPos, Volume.ClusterBytes;
    MovedOn(v, p, c);
  }

  /** A FAT entry lies within one sector. */
  lemma EntryInSector(cluster: nat)
    ensures ((cluster * 4) % W32) % SECTOR + 3 < SECTOR
  {
    var r := cluster % 0x4000_0000;
    Quotient(cluster * 4, W32, cluster / 0x4000_0000, 4 * r);
    Quotient(4 * r, SECTOR, r / 128, 4 * (r % 128));
  }

  lemma MoreAvailable(v: Volume, first: nat, pos: nat, p: nat, c: nat)
    requires v.Valid() && pos <= p && AllAvailable(v, first, pos, p) && Available(v, first, p)
      && p % SECTOR + c <= SECTOR
    ensures AllAvailable(v, first, pos, p + c)
  {
    hide Available;
    forall i | p <= i < p + c ensures Available(v, first, i) { SameSector(v, first, p, i - p); }
  }

  lemma MoreBytes(v: Volume, first: nat, pos: nat, n: nat, c: nat, chunk: seq<byte>)
    requires v.Valid() && |chunk| == c && (pos + n) % SECTOR + c <= SECTOR
    requires forall i | 0 <= i < c :: chunk[i] == v.disk(ByteSector(v, first, pos + n), (pos + n) % SECTOR + i)
    ensures Bytes(v, first, pos, n + c) == Bytes(v, first, pos, n) + chunk
  {
    hide ByteSector;
    forall i: nat | i < c ensures FileByte(v, first, (pos + n) + i) == chunk[i] { SameSector(v, first, pos + n, i); }
    SplitBytes(v, first, pos, n, c);
    assert Bytes(v, first, pos + n, c) == chunk;
  }

  /** A read of `n` bytes through handle `h` has returned `r` and turned the buffer from `before`
      into `after`: all three as `ReadSpec` says. */
  ghost predicate HasRead(v: Volume, h: Handle, h': Handle, n: nat, r: int, before: seq<byte>, after: seq<byte>)
    requires v.Valid()
  {
    var spec := ReadSpec(v, h.first, h.size, h.position, n);
    && r == spec.ret && |spec.data| <= |before| && after == spec.data + before[|spec.data|..]
    && h' == h.(position := spec.position, current := h'.current, offset := h'.offset)
  }

  /** The same with the final position of the handle in the chain. */
  ghost predicate FileRead(v: Volume, h: Handle, h': Handle, n: nat, r: int, before: seq<byte>, after: seq<byte>)
    requires v.Valid()
  {
    var m := Clamp(h.position, n, h.size);
    var k := Progress(v, h.first, h.position, m);
    && r == (if k < m && !AtEnd(v, h.first, h.position + k) then -1 else AsInt(k))
    && k <= |before| && after == Bytes(v, h.first, h.position, k) + before[k..]
    && h' == h.(position := (h.position + k) % W32, current := h'.current, offset := h'.offset)
    && AtPosition(v, h', h.position + k)
  }

  /** The loop of `fat_read`, started with handle `h` and buffer `before`, has read `k` bytes. */
  ghost predicate ReadSoFar(v: Volume, h: Handle, h': Handle, k: nat, before: seq<byte>, after: seq<byte>)
    requires v.Valid()
  {
    && h' == h.(position := (h.position + k) % W32, current := h'.current, offset := h'.offset)
    && AtPosition(v, h', h.position + k)
    && AllAvailable(v, h.first, h.position, h.position + k)
    && k <= |before| && after == Bytes(v, h.first, h.position, k) + before[k..]
  }

  lemma ReadStart(v: Volume, h: Handle, before: seq<byte>)
    requires v.Valid() && h.position < W32 && AtPosition(v, h, h.position)
    ensures ReadSoFar(v, h, h, 0, before, before)
  {
    hide AtPosition, Available;
    BytesNone(v, h.first, h.position);
  }

  lemma SoFarAt(v: Volume, h: Handle, h': Handle, k: nat, before: seq<byte>, after: seq<byte>)
    requires v.Valid() && ReadSoFar(v, h, h', k, before, after)
    ensures h'.first == h.first && h'.position == (h.position + k) % W32 && AtPosition(v, h', h.position + k)
    ensures |after| == |before|
  {
    hide AtPosition, AllAvailable;
  }

  /** One more piece was read. */
  lemma ReadMore(v: Volume, h: Handle, h1: Handle, h2: Handle, k: nat, c: nat, before: seq<byte>, after1: seq<byte>,
                 after2: seq<byte>,
                 chunk: seq<byte>)
    requires v.Valid() && ReadSoFar(v, h, h1, k, before, after1) && Available(v, h.first, h.position + k)
    requires h2 == h1.(position := (h.position + k + c) % W32, current := h2.current, offset := h2.offset)
    requires AtPosition(v, h2, h.position + k + c)
    requires |chunk| == c && (h.position + k) % SECTOR + c <= SECTOR && k + c <= |before|
    requires forall i | 0 <= i < c ::
        chunk[i] == v.disk(ByteSector(v, h.first, h.position + k), (h.position + k) % SECTOR + i)
    requires after2 == after1[..k] + chunk + after1[k + c..]
    ensures ReadSoFar(v, h, h2, k + c, before, after2)
  {
    hide AtPosition, Available, ByteSector, Bytes, AllAvailable;
    MoreAvailable(v, h.first, h.position, h.position + k, c);
    MoreBytes(v, h.first, h.position, k, c, chunk);
    BytesCount(v, h.first, h.position, k);
    assert after1[..k] == Bytes(v, h.first, h.position, k);
    assert after1[k + c..] == before[k + c..];
  }

  /** The three ways in which the loop ends: at the limit, at the end of the chain, or at a sector
      that cannot be read. */
  lemma ReadFull(v: Volume, h: Handle, h': Handle, n: nat, k: nat, before: seq<byte>, after: seq<byte>)
    requires v.Valid() && ReadSoFar(v, h, h', k, before, after) && k == Clamp(h.position, n, h.size)
    ensures FileRead(v, h, h', n, AsInt(k), before, after)
  {
    hide AtPosition, Available, Bytes, AllAvailable, Clamp, AtEnd;
    ProgressIs(v, h.first, h.position, k, k);
  }

  lemma ReadEnds(v: Volume, h: Handle, h': Handle, n: nat, k: nat, before: seq<byte>, after: seq<byte>)
    requires v.Valid() && ReadSoFar(v, h, h', k, before, after) && k < Clamp(h.position, n, h.size) && h'.current >= EOC
    ensures FileRead(v, h, h', n, AsInt(k), before, after)
  {
    hide AtPosition, Available, Bytes, AllAvailable, Clamp, AtEnd;
    EndAt(v, h', h.position + k);
    ProgressIs(v, h.first, h.position, Clamp(h.position, n, h.size), k);
  }

  lemma ReadStops(v: Volume, h: Handle, h': Handle, n: nat, k: nat, before: seq<byte>, after: seq<byte>)
    requires v.Valid() && ReadSoFar(v, h, h', k, before, after) && k < Clamp(h.position, n, h.size) && h'.current < EOC
    requires !Available(v, h.first, h.position + k)
    ensures FileRead(v, h, h', n, -1, before, after)
  {
    hide AtPosition, Available, Bytes, AllAvailable, Clamp, AtEnd;
    EndAt(v, h', h.position + k);
    ProgressIs(v, h.first, h.position, Clamp(h.position, n, h.size), k);
  }

  // ---------------------------------------------------------------- the driver

  class FatDriver {
    const vol: Volume
    const sectorBuf: array<byte>
    const files: array<Handle>

    ghost predicate Mounted() {
      vol.Valid() && sectorBuf.Length == SECTOR && files.Length == MAX_OPEN
    }

    /** Every open file is at its position. */
    ghost predicate Valid()
      reads files
    {
      Mounted() && forall i | 0 <= i < MAX_OPEN :: HandleOk(vol, files[i])
    }

    /** The fields of every open file are 32-bit words. This is all that a wrapped read leaves. */
    ghost predicate Open()
      reads files
    {
      Mounted() && forall i | 0 <= i < MAX_OPEN && files[i].inUse :: files[i].size < W32 && files[i].first < W32
    }

    constructor (vol: Volume)
      requires vol.Valid()
      ensures Valid() && this.vol == vol && files.Length == 16 && fresh(files) && fresh(sectorBuf)
        && forall i | 0 <= i < MAX_OPEN ::
          !files[i].inUse
    {
      this.vol := vol;
      sectorBuf := new byte[SECTOR](_ => 0);
      files := new Handle[MAX_OPEN](_ => Handle(false, 0, 0, 0, 0, 0));
    }

    ghost predicate Holds(sector: nat)
      reads sectorBuf
    {
      sectorBuf.Length == SECTOR && forall o | 0 <= o < SECTOR :: sectorBuf[o] == vol.disk(sector, o)
    }

    /** `block_read` of one sector into the shared buffer. */
    method BlockRead(sector: nat) returns (ok: bool)
      requires Mounted()
      modifies sectorBuf
      ensures ok <==> sector !in vol.bad
      ensures ok ==> Holds(sector)
    {
      ok := sector !in vol.bad;
      if ok {
        forall o | 0 <= o < SECTOR { sectorBuf[o] := vol.disk(sector, o); }
      }
    }

    function Buf16(at: nat): nat
      requires at + 1 < sectorBuf.Length
      reads sectorBuf
    {
      var lo: int, hi: int := sectorBuf[at], sectorBuf[at + 1];
      lo + 0x100 * hi
    }

    function Buf32(at: nat): nat
      requires at + 3 < sectorBuf.Length
      reads sectorBuf
    {
      Buf16(at) + 0x1_0000 * Buf16(at + 2)
    }

    /** `fat_get_entry`. */
    method FatGetEntry(cluster: nat) returns (entry: nat)
      requires Mounted() && cluster < EOC
      modifies sectorBuf
      ensures entry == FatEntry(vol, cluster)
    {
      var fatOffset := (cluster * 4) % W32;
      var fatSector := (vol.fatStart + fatOffset / SECTOR) % W32;
      var entryOffset := fatOffset % SECTOR;
      EntryInSector(cluster);
      var ok := BlockRead(fatSector);
      if !ok { return EOC; }
      BufWord(fatSector, entryOffset);
      entry := Buf32(entryOffset) % 0x1000_0000;
    }

    lemma BufWord(sector: nat, at: nat)
      requires Holds(sector) && at + 3 < SECTOR
      ensures sectorBuf.Length == SECTOR && Buf32(at) == Word32(vol, sector, at)
    {
    }

    /** The copy loop of `fat_read`. */
    method CopyOut(dst: array<byte>, at: nat, from: nat, count: nat)
      requires dst != sectorBuf && at + count <= dst.Length && from + count <= sectorBuf.Length
      modifies dst
      ensures forall x | 0 <= x < dst.Length ::
          dst[x] == if at <= x < at + count then sectorBuf[from + (x - at)] else old(dst[x])
    {
      for i := 0 to count
        invariant forall x | 0 <= x < dst.Length ::
            dst[x] == if at <= x < at + i then sectorBuf[from + (x - at)] else old(dst[x])
      {
        dst[at + i] := sectorBuf[from + i];
      }
    }

    /** `fat_read`: the result, the bytes stored, and the new position are those of `ReadSpec`;
        other handles are untouched. The handle stays at its position unless position + n wraps
        around and the chain goes on behind the file. */
    method FatRead(fd: int, buf: array?<byte>, n: nat) returns (r: int)
      requires Open() && n < W32 && (buf != null ==> buf != sectorBuf && buf.Length >= n)
      requires 0 <= fd < MAX_OPEN ==> HandleOk(vol, files[fd])
      modifies sectorBuf, files, if buf == null then {} else {buf}
      ensures !(0 <= fd < MAX_OPEN && old(files[fd].inUse)) ==> r == -1 && files[..] == old(files[..])
      ensures 0 <= fd < MAX_OPEN && old(files[fd].inUse) && (buf == null || n == 0) ==>
          r == 0 && files[..] == old(files[..])
      ensures 0 <= fd < MAX_OPEN && old(files[fd].inUse) && buf != null && n > 0 ==>
                && HasRead(vol, old(files[fd]), files[fd], n, r, old(buf[..]), buf[..])
                && files[..] == old(files[..])[fd := files[fd]]
      ensures Open()
      ensures 0 <= fd < MAX_OPEN ==>
                (old(files[fd].position) + n < W32 || AtEnd(vol, old(files[fd].first), old(files[fd].size))) ==>
                HandleOk(vol, files[fd]) && (old(Valid()) ==> Valid())
      ensures buf != null && !(0 <= fd < MAX_OPEN && old(files[fd].inUse)) ==> buf[..] == old(buf[..])
    {
      if !(0 <= fd < MAX_OPEN) { return -1; }
      if !files[fd].inUse { return -1; }
      if buf == null || n == 0 { return 0; }
      hide HasRead, FileRead, HandleOk, Clamp;
      ghost var h, before := files[fd], buf[..];
      HandleBounds(vol, h);
      LimitSmall(h.position, n, h.size);
      r := ReadFile(fd, buf, n);
      ReadSpecIs(vol, h, files[fd], n, r, before, buf[..]);
      if h.position + n < W32 || AtEnd(vol, h.first, h.size) { ReadKeeps(vol, h, files[fd], n, r, before, buf[..]); }
    }

    /** The loop of `fat_read`. */
    method ReadFile(fd: int, buf: array<byte>, n: nat) returns (r: int)
      requires Mounted() && 0 <= fd < MAX_OPEN && n < W32 && buf != sectorBuf && buf.Length >= n
      requires var h := files[fd];
          h.position < W32 && AtPosition(vol, h, h.position) && Clamp(h.position, n, h.size) <= n
      modifies sectorBuf, files, buf
      ensures FileRead(vol, old(files[fd]), files[fd], n, r, old(buf[..]), buf[..])
      ensures files[..] == old(files[..])[fd := files[fd]]
    {
      hide ReadSoFar, Available, AtPosition;
      ghost var h, before := files[fd], buf[..];
      var limit := n;
      if (files[fd].position + limit) % W32 > files[fd].size { limit := (files[fd].size - files[fd].position) % W32; }
      var bytesRead := 0;
      ReadStart(vol, h, before);
      hide Clamp;
      while bytesRead < limit
        invariant bytesRead <= limit == Clamp(h.position, n, h.size) <= n && |before| == buf.Length
        invariant ReadSoFar(vol, h, files[fd], bytesRead, before, buf[..])
        invariant files[..] == old(files[..])[fd := files[fd]]
        decreases limit - bytesRead
      {
        if files[fd].current >= EOC {
          ReadEnds(vol, h, files[fd], n, bytesRead, before, buf[..]);
          return AsInt(bytesRead);
        }
        var c := ReadPiece(fd, buf, bytesRead, limit, h, before);
        if c == 0 {
          ReadStops(vol, h, files[fd], n, bytesRead, before, buf[..]);
          return -1;
        }
        bytesRead := bytesRead + c;
      }
      ReadFull(vol, h, files[fd], n, bytesRead, before, buf[..]);
      r := AsInt(bytesRead);
    }

    /** One iteration of the loop of `fat_read`; 0 when the sector cannot be read. */
    method ReadPiece(fd: int, buf: array<byte>, bytesRead: nat, limit: nat, ghost h: Handle, ghost before: seq<byte>)
        returns (c: nat)
      requires Mounted() && 0 <= fd < MAX_OPEN && bytesRead < limit <= buf.Length && buf != sectorBuf
      requires ReadSoFar(vol, h, files[fd], bytesRead, before, buf[..]) && files[fd].current < EOC
        && |before| == buf.Length
      modifies sectorBuf, files, buf
      ensures bytesRead + c <= limit
      ensures c == 0 <==> !Available(vol, h.first, h.position + bytesRead)
      ensures c == 0 ==> files[fd] == old(files[fd])
      ensures files[..] == old(files[..])[fd := files[fd]]
      ensures ReadSoFar(vol, h, files[fd], bytesRead + c, before, buf[..])
    {
      hide Available, ByteSector, AtPosition, ReadSoFar;
      ghost var p, h1, after1 := h.position + bytesRead, files[fd], buf[..];
      SoFarAt(vol, h, h1, bytesRead, before, after1);
      ghost var chunk;
      c, chunk := CopyPiece(fd, buf, bytesRead, limit, p);
      if c == 0 { return; }
      MoveHandle(fd, c, p);
      ReadMore(vol, h, h1, files[fd], bytesRead, c, before, after1, buf[..], chunk);
    }

    /** The sector at the handle is read, and what is wanted of it is copied out. */
    method CopyPiece(fd: int, buf: array<byte>, bytesRead: nat, limit: nat, ghost p: nat)
        returns (c: nat, ghost chunk: seq<byte>)
      requires Mounted() && 0 <= fd < MAX_OPEN && bytesRead < limit <= buf.Length && buf != sectorBuf
      requires AtPosition(vol, files[fd], p) && files[fd].current < EOC
      modifies sectorBuf, buf
      ensures bytesRead + c <= limit && |chunk| == c && p % SECTOR + c <= SECTOR
      ensures c == 0 <==> !Available(vol, files[fd].first, p)
      ensures forall i | 0 <= i < c :: chunk[i] == vol.disk(ByteSector(vol, files[fd].first, p), p % SECTOR + i)
      ensures buf[..] == old(buf[..])[..bytesRead] + chunk + old(buf[..])[bytesRead + c..]
      ensures c == 0 ==> buf[..] == old(buf[..])
    {
      hide Available, ByteSector, FirstSector, AtPosition;
      SectorHere(vol, files[fd], p);
      var sectorInCluster := files[fd].offset / SECTOR;
      var offsetInSector := files[fd].offset % SECTOR;
      var sector := (FirstSector(vol, files[fd].current) + sectorInCluster) % W32;
      var ok := BlockRead(sector);
      if !ok { return 0, []; }
      c := limit - bytesRead;
      if c > SECTOR - offsetInSector { c := SECTOR - offsetInSector; }
      CopyOut(buf, bytesRead, offsetInSector, c);
      chunk := sectorBuf[offsetInSector..offsetInSector + c];
      assert sector == ByteSector(vol, files[fd].first, p) && offsetInSector == p % SECTOR;
      forall i | 0 <= i < c ensures chunk[i] == vol.disk(sector, p % SECTOR + i) {
        assert chunk[i] == sectorBuf[offsetInSector + i];
      }
      Copied(old(buf[..]), buf[..], bytesRead, chunk);
    }

    /** The end of one iteration: the handle moves on by `c` bytes, to the next cluster if it has
        come to the end of this one. */
    method MoveHandle(fd: int, c: nat, ghost p: nat)
      requires Mounted() && 0 <= fd < MAX_OPEN && p % SECTOR + c <= SECTOR
      requires AtPosition(vol, files[fd], p) && files[fd].current < EOC && files[fd].position == p % W32
      modifies sectorBuf, files
      ensures files[fd] ==
          old(files[fd]).(position := (p + c) % W32, current := files[fd].current, offset := files[fd].offset)
      ensures files[..] == old(files[..])[fd := files[fd]]
      ensures AtPosition(vol, files[fd], p + c)
    {
      hide ChainAt, FatEntry, ClusterNo, ClusterPos, AtPosition, Volume.ClusterBytes;
      ghost var h0 := files[fd];
      ModAdd(p, c);
      AtCluster(vol, h0, p, c);
      files[fd] := files[fd].(position := (files[fd].position + c) % W32);
      files[fd] := files[fd].(offset := files[fd].offset + c);
      if files[fd].offset >= vol.ClusterBytes() {
        var next := FatGetEntry(files[fd].current);
        files[fd] := files[fd].(current := next);
        files[fd] := files[fd].(offset := 0);
        NextCluster(vol, h0, files[fd], p, c);
      } else {
        SameCluster(vol, h0, files[fd], p, c);
      }
    }

    /** `fat_seek`: the position is the offset or the end of the file, and the handle is there,
        wherever it was before. */
    method FatSeek(fd: int, offset: nat) returns (r: int)
      requires Open() && offset < W32
      modifies sectorBuf, files
      ensures !(0 <= fd < MAX_OPEN && old(files[fd].inUse)) ==> r == -1 && files[..] == old(files[..])
      ensures 0 <= fd < MAX_OPEN && old(files[fd].inUse) ==>
                && r == 0 && files[..] == old(files[..])[fd := files[fd]]
                && files[fd] ==
                      old(files[fd]).(position := Least(offset, old(files[fd]).size), current := files[fd].current,
                          offset := files[fd].offset)
                && HandleOk(vol, files[fd])
      ensures Open()
      ensures old(forall i | 0 <= i < MAX_OPEN && i != fd :: HandleOk(vol, files[i])) ==> Valid()
    {
      if !(0 <= fd < MAX_OPEN) { return -1; }
      if !files[fd].inUse { return -1; }
      hide HandleOk, AtPosition;
      ghost var h := files[fd];
      var left := offset;
      if left > files[fd].size { left := files[fd].size; }
      SeekTo(fd, left);
      SeekKeeps(vol, h, files[fd], left);
      r := 0;
    }

    /** The rest of `fat_seek`: the handle goes back to the start and skips whole clusters. */
    method SeekTo(fd: int, offset: nat)
      requires Mounted() && 0 <= fd < MAX_OPEN
      modifies sectorBuf, files
      ensures files[fd] == old(files[fd]).(position := offset, current := files[fd].current, offset := files[fd].offset)
      ensures AtPosition(vol, files[fd], offset) && files[..] == old(files[..])[fd := files[fd]]
    {
      hide ChainAt, FatEntry, ClusterNo, ClusterPos;
      ghost var h := files[fd];
      files[fd] := files[fd].(position := 0);
      files[fd] := files[fd].(current := files[fd].first);
      files[fd] := files[fd].(offset := 0);
      var left: nat := offset;
      ghost var k: nat := 0;
      ChainStart(vol, h.first);
      while left >= vol.ClusterBytes() && files[fd].current < EOC
        invariant k * vol.ClusterBytes() + left == offset
        invariant files[fd] == h.(position := k * vol.ClusterBytes(), current := ChainAt(vol, h.first, k), offset := 0)
        invariant files[..] == old(files[..])[fd := files[fd]]
        decreases left
      {
        ChainNext(vol, h.first, k);
        var next := FatGetEntry(files[fd].current);
        files[fd] := files[fd].(current := next);
        left := left - vol.ClusterBytes();
        files[fd] := files[fd].(position := files[fd].position + vol.ClusterBytes());
        k := k + 1;
        OneMore(k, vol.ClusterBytes());
      }
      files[fd] := files[fd].(offset := left);
      files[fd] := files[fd].(position := files[fd].position + left);
      SeekEnd(vol, h.first, k, left);
    }

    /** `fat_close`. */
    method FatClose(fd: int) returns (r: int)
      requires Open()
      modifies files
      ensures Open() && (old(Valid()) ==> Valid())
      ensures r == 0 <==> 0 <= fd < MAX_OPEN && old(files[fd].inUse)
      ensures r == 0 ==> files[..] == old(files[..])[fd := old(files[fd]).(inUse := false)]
      ensures r != 0 ==> r == -1 && files[..] == old(files[..])
    {
      if !(0 <= fd < MAX_OPEN) { return -1; }
      if !files[fd].inUse { return -1; }
      files[fd] := files[fd].(inUse := false);
      r := 0;
    }

    /** `fat_get_size`. */
    method FatGetSize(fd: int) returns (size: nat)
      requires Mounted()
      ensures size == if 0 <= fd < MAX_OPEN && files[fd].inUse then files[fd].size else 0
    {
      if !(0 <= fd < MAX_OPEN) { return 0; }
      if !files[fd].inUse { return 0; }
      return files[fd].size;
    }

    /** The part of `task_create_from_path` that gets the file: it is opened, its size is asked for, it
        is read and closed. A file that is on the disk comes as it is there. In general the result is
        the whole file of the first matching entry; only a file of 2^32 - 1 bytes is taken for read
        when a sector of it could not be read. `stop` is as for `FatOpen`. */
    method LoadFile(path: seq<byte>, ghost stop: nat) returns (r: Option<seq<byte>>, ghost k: nat)
      requires Open() && 0 !in path
      requires (exists i :: 0 <= i < MAX_OPEN && !files[i].inUse) ==> SearchStops(vol, Target(path), stop)
      modifies sectorBuf, files
      ensures Open() && forall i | 0 <= i < MAX_OPEN ::
          files[i].inUse == old(files[i].inUse) && (files[i].inUse ==> files[i] == old(files[i]))
      ensures r.Some? ==> FirstMatch(vol, Target(path), k) && var d := RootEntry(vol, k);
                && |r.value| == d.size > 0
                && ((r.value == Bytes(vol, d.cluster, 0, d.size) && Complete(vol, d.cluster, d.size))
                    || (d.size == 0xFFFF_FFFF && ReadFails(vol, d.cluster, d.size, 0, d.size)))
      ensures (exists i :: 0 <= i < MAX_OPEN && !old(files[i].inUse)) ==>
                forall content | OnDisk(vol, Target(path), content) && 0 < |content| :: r == Some(content)
    {
      hide Target, HandleOk, FirstMatch, RootEntry, SearchStops, OnDisk, HasRead, Bytes, Complete, ReadFails;
      var fd;
      fd, k := FatOpen(path, stop);
      FoundOnDisk(path);
      if fd < 0 { return None, k; }
      ghost var d := RootEntry(vol, k);
      EntryWords(vol, k);
      var size := FatGetSize(fd);
      if size == 0 {
        var closed := FatClose(fd);
        return None, k;
      }
      var buf := new byte[size](_ => 0);
      OpensOk(vol, d);
      ghost var h, before := files[fd], buf[..];
      var bytesRead := FatRead(fd, buf, size);
      HasReadAll(vol, h, files[fd], bytesRead, before, buf[..]);
      var closed := FatClose(fd);
      if bytesRead != AsInt(size) { return None, k; }
      r := Some(buf[..]);
    }

    lemma FoundOnDisk(path: seq<byte>)
      requires vol.Valid()
      ensures forall content | OnDisk(vol, Target(path), content) :: exists k: nat ::
          IsFile(vol, Target(path), content, k)
    {
      hide Target, OnDisk, IsFile;
      forall content | OnDisk(vol, Target(path), content)
        ensures exists k: nat :: IsFile(vol, Target(path), content, k) {
        var k := OnDiskFound(vol, Target(path), content);
      }
    }

    /** The directory entry `i` of the sector in the buffer. */
    function BufDirent(i: nat): (d: Dirent)
      requires sectorBuf.Length == SECTOR && i < 16
      reads sectorBuf
      ensures |d.name| == 11
    {
      Dirent(sectorBuf[32 * i..32 * i + 11], sectorBuf[32 * i + 11],
             Buf16(32 * i + 20) * 0x1_0000 + Buf16(32 * i + 26), Buf32(32 * i + 28))
    }

    lemma BufDirentIs(sector: nat, i: nat)
      requires Holds(sector) && i < 16
      ensures BufDirent(i) == DirentAt(vol, sector, i)
    {
      assert BufDirent(i).name == DirentAt(vol, sector, i).name;
    }

    /** The loop of `fat_open` over the entries of one sector. */
    method ScanSector(ghost sector: nat, path: seq<byte>) returns (r: Scan)
      requires Holds(sector) && 0 !in path
      ensures r.Hit? ==>
          r.index < 16 && Passed(vol, sector, Target(path), r.index) && var d := DirentAt(vol, sector, r.index);
                !d.IsEnd() && d.Visible() && d.name == Target(path)
      ensures r.Ended? ==> r.at < 16 && Passed(vol, sector, Target(path), r.at) && DirentAt(vol, sector, r.at).IsEnd()
      ensures r.GoOn? ==> Passed(vol, sector, Target(path), 16)
    {
      hide DirentAt, Target, Holds;
      var i := 0;
      while i < 16
        invariant 0 <= i <= 16 && Passed(vol, sector, Target(path), i)
      {
        BufLength(sector);
        BufDirentIs(sector, i);
        var d := BufDirent(i);
        if d.name[0] == 0 { return Ended(i); }
        var skip := d.name[0] == 0xE5 || d.attr == 0x0F || (d.attr / 8) % 2 == 1;
        if !skip {
          var match_ := NameMatch(d.name, path);
          if match_ { return Hit(i); }
        }
        i := i + 1;
      }
      return GoOn;
    }

    lemma BufLength(sector: nat)
      requires Holds(sector)
      ensures sectorBuf.Length == SECTOR
    {
    }

    /** `fat_open`: the first matching entry of the root directory before the end marker opens
        in the lowest free slot, at position 0; otherwise nothing changes. `stop` is any entry at
        which the scan would stop. */
    method FatOpen(path: seq<byte>, ghost stop: nat) returns (fd: int, ghost k: nat)
      requires Open() && 0 !in path
      requires (exists i :: 0 <= i < MAX_OPEN && !files[i].inUse) ==> SearchStops(vol, Target(path), stop)
      modifies sectorBuf, files
      ensures Open() && (old(Valid()) ==> Valid())
      ensures fd == -1 ==> files[..] == old(files[..])
                           && ((forall i | 0 <= i < MAX_OPEN :: old(files[i].inUse))
                                 || (forall i: nat :: !FirstMatch(vol, Target(path), i)))
      ensures fd != -1 ==>
          0 <= fd < MAX_OPEN && !old(files[fd].inUse) && (forall i | 0 <= i < fd :: old(files[i].inUse))
                           && FirstMatch(vol, Target(path), k) && var d := RootEntry(vol, k);
                           files[..] == old(files[..])[fd := Handle(true, d.cluster, d.size, 0, d.cluster, 0)]
    {
      hide Target, HandleOk, FirstMatch, RootEntry, DirentAt, SearchStops;
      k := 0;
      fd := FreeSlot();
      if fd < 0 { return -1, k; }
      var found;
      found, k := FindEntry(path, stop);
      if found.None? { return -1, k; }
      OpensOk(vol, found.value);
      files[fd] := Handle(true, found.value.cluster, found.value.size, 0, found.value.cluster, 0);
    }

    /** The loops of `fat_open` over the clusters of the root directory and their sectors. */
    method FindEntry(path: seq<byte>, ghost stop: nat) returns (found: Option<Dirent>, ghost k: nat)
      requires Mounted() && 0 !in path && SearchStops(vol, Target(path), stop)
      modifies sectorBuf
      ensures found.None? ==> forall i: nat :: !FirstMatch(vol, Target(path), i)
      ensures found.Some? ==>
          FirstMatch(vol, Target(path), k) && found.value == RootEntry(vol, k) && found.value.size < W32
              && found.value.cluster < W32
    {
      hide Target, FirstMatch, Searched, RootEntry, ChainAt, SearchStops, EntryNo;
      k := 0;
      var cluster := vol.root;
      ghost var ci: nat := 0;
      EntrySteps(vol, 0);
      NoneSearched(vol, Target(path));
      ChainStart(vol, vol.root);
      while cluster < EOC
        invariant cluster == ChainAt(vol, vol.root, ci)
        invariant Searched(vol, Target(path), EntryNo(vol, ci, 0))
        decreases stop - EntryNo(vol, ci, 0)
      {
        var s := 0;
        while s < vol.spc
          invariant 0 <= s <= vol.spc
          invariant Searched(vol, Target(path), EntryNo(vol, ci, s))
        {
          var r;
          r, k := SearchSector(path, cluster, s, ci);
          match r {
            case Found(d) => return Some(d), k;
            case Absent => return None, k;
            case More =>
          }
          s := s + 1;
        }
        ChainNext(vol, vol.root, ci);
        EntrySteps(vol, ci);
        cluster := FatGetEntry(cluster);
        ci := ci + 1;
        NotBeyond(vol, Target(path), EntryNo(vol, ci, 0), stop);
      }
      EndOfRoot(vol, ci);
      NoMatch(vol, Target(path), EntryNo(vol, ci, 0));
      return None, k;
    }

    /** One sector of a root cluster in `fat_open`. */
    method SearchSector(path: seq<byte>, cluster: nat, s: nat, ghost ci: nat) returns (r: Search, ghost k: nat)
      requires Mounted() && 0 !in path && s < vol.spc && cluster == ChainAt(vol, vol.root, ci) < EOC
      requires Searched(vol, Target(path), EntryNo(vol, ci, s))
      modifies sectorBuf
      ensures r.Found? ==>
          FirstMatch(vol, Target(path), k) && r.entry == RootEntry(vol, k) && r.entry.size < W32
              && r.entry.cluster < W32
      ensures r.Absent? ==> forall i: nat :: !FirstMatch(vol, Target(path), i)
      ensures r.More? ==> Searched(vol, Target(path), EntryNo(vol, ci, s + 1))
    {
      hide Target, FirstMatch, Searched, Passed, RootEntry, DirentAt, ChainAt, FirstSector, EntryNo, Holds;
      k := EntryNo(vol, ci, s);
      var sector := (FirstSector(vol, cluster) + s) % W32;
      assert sector == SectorAt(vol, ci, s);
      hide SectorAt;
      var ok := BlockRead(sector);
      if !ok {
        BadSector(vol, Target(path), ci, s);
        return Absent, k;
      }
      var found := ScanSector(sector, path);
      match found {
        case Ended(i) =>
          EndInSector(vol, Target(path), ci, s, i);
          return Absent, k;
        case Hit(i) =>
          HitInSector(vol, Target(path), ci, s, i);
          BufLength(sector);
          BufDirentIs(sector, i);
          return Found(BufDirent(i)), k + i;
        case GoOn =>
          SearchedMore(vol, Target(path), ci, s, 16);
          EntryNext(vol, ci, s);
          return More, k;
      }
    }

    /** The loop of `fat_list_root` over the entries of one sector: `out` is the list so far. */
    method ListSector(listing: seq<Listed>, ghost ci: nat, ghost s: nat)
        returns (ended: bool, out: seq<Listed>, ghost n: nat)
      requires Mounted() && s < vol.spc && ChainAt(vol, vol.root, ci) < EOC
      requires Holds(SectorAt(vol, ci, s)) && SectorAt(vol, ci, s) !in vol.bad
      requires Listable(vol, EntryNo(vol, ci, s)) && listing == ListUpTo(vol, EntryNo(vol, ci, s))
      ensures n <= 16 && Listable(vol, EntryNo(vol, ci, s) + n) && out == ListUpTo(vol, EntryNo(vol, ci, s) + n)
      ensures if ended then n < 16 && Readable(vol, EntryNo(vol, ci, s) + n)
        && RootEntry(vol, EntryNo(vol, ci, s) + n).IsEnd() else n == 16
    {
      hide DirentAt, Holds, Listable, ListUpTo, RootEntry, Readable, SectorAt, ChainAt, Printed, CString, EntryNo;
      ghost var base, sector := EntryNo(vol, ci, s), SectorAt(vol, ci, s);
      out := listing;
      n := 0;
      var i := 0;
      while i < 16
        invariant 0 <= i <= 16 && n == i && Listable(vol, base + i) && out == ListUpTo(vol, base + i)
      {
        BufLength(sector);
        BufDirentIs(sector, i);
        SectorEntry(vol, ci, s, i);
        var d := BufDirent(i);
        if d.name[0] == 0 { return true, out, i; }
        ListMore(vol, base + i);
        var skip := d.name[0] == 0xE5 || d.attr == 0x0F || (d.attr / 8) % 2 == 1;
        if !skip {
          var name := PrintName(d.name);
          out := out + [Listed(CString(name), d.size, d.attr)];
        }
        i := i + 1;
        n := i;
      }
      return false, out, n;
    }

    /** `fat_list_root`: everything visible before the end marker, in order. The result is -1
        exactly when a sector cannot be read. `stop` is any entry at which the scan would stop. */
    method FatListRoot(ghost stop: nat) returns (r: int, listing: seq<Listed>, ghost k: nat)
      requires Mounted() && ListingStops(vol, stop)
      modifies sectorBuf
      ensures Listable(vol, k) && listing == ListUpTo(vol, k)
      ensures r == 0 <==> RootAtEnd(vol, k) || (Readable(vol, k) && RootEntry(vol, k).IsEnd())
      ensures r == -1 <==> !RootAtEnd(vol, k) && !Readable(vol, k)
    {
      hide Listable, ListUpTo, RootEntry, Readable, ChainAt, FirstSector, DirentAt, Holds, ListingStops, EntryNo,
          RootAtEnd;
      var cluster := vol.root;
      ghost var ci: nat := 0;
      listing, k := [], 0;
      EntrySteps(vol, 0);
      NoneListed(vol);
      ChainStart(vol, vol.root);
      while cluster < EOC
        invariant cluster == ChainAt(vol, vol.root, ci)
        invariant k == EntryNo(vol, ci, 0) && Listable(vol, k) && listing == ListUpTo(vol, k)
        decreases stop - k
      {
        var sector := FirstSector(vol, cluster);
        var s := 0;
        while s < vol.spc
          invariant 0 <= s <= vol.spc
          invariant k == EntryNo(vol, ci, s) && Listable(vol, k) && listing == ListUpTo(vol, k)
        {
          SectorEntry(vol, ci, s, 0);
          assert (sector + s) % W32 == SectorAt(vol, ci, s);
          var ok := BlockRead((sector + s) % W32);
          if !ok { return -1, listing, k; }
          var ended;
          ghost var n;
          ended, listing, n := ListSector(listing, ci, s);
          k := k + n;
          if ended {
            SectorEntry(vol, ci, s, n);
            return 0, listing, k;
          }
          EntryNext(vol, ci, s);
          s := s + 1;
        }
        ChainNext(vol, vol.root, ci);
        EntrySteps(vol, ci);
        cluster := FatGetEntry(cluster);
        ci := ci + 1;
        NotListedBeyond(vol, k, stop);
      }
      EndOfRoot(vol, ci);
      return 0, listing, k;
    }

    /** The search for a free file descriptor. */
    method FreeSlot() returns (fd: int)
      requires Mounted()
      ensures fd == -1 ==> forall i | 0 <= i < MAX_OPEN :: files[i].inUse
      ensures fd != -1 ==> 0 <= fd < MAX_OPEN && !files[fd].inUse && forall i | 0 <= i < fd :: files[i].inUse
    {
      for i := 0 to MAX_OPEN
        invariant forall j | 0 <= j < i :: files[j].inUse
      {
        if !files[i].inUse { return i; }
      }
      return -1;
    }
  }

  /** `fat_name_match`. */
  method NameMatch(name: seq<byte>, path: seq<byte>) returns (same: bool)
    requires |name| == 11 && 0 !in path
    ensures same <==> name == Target(path)
  {
    hide FirstOf;
    var target := new byte[11](_ => SPACE);
    var i, j := 0, 0;
    while i < |path| && path[i] != DOT && j < 8
      invariant 0 <= i == j <= 8 && i <= |path| && target.Length == 11
      invariant forall x | 0 <= x < i :: path[x] != DOT && target[x] == Upper(path[x])
      invariant forall x | i <= x < 11 :: target[x] == SPACE
    {
      var c := path[i];
      if 97 <= c <= 122 { c := c - 32; }
      target[j] := c;
      i, j := i + 1, j + 1;
    }
    ghost var base := i;
    while i < |path| && path[i] != DOT
      invariant base <= i <= |path| && forall x | 0 <= x < i :: path[x] != DOT
    {
      i := i + 1;
    }
    ghost var dot := i;
    FirstOfIs(path, DOT, dot);
    if i < |path| && path[i] == DOT { i := i + 1; }
    j := 8;
    while i < |path| && j < 11
      invariant 8 <= j <= 11 && i <= |path| && target.Length == 11
      invariant dot < |path| ==> i == dot + 1 + (j - 8)
      invariant dot == |path| ==> i == |path| && j == 8
      invariant forall x | 0 <= x < j :: target[x] == TargetByte(path, dot, x)
      invariant forall x | j <= x < 11 :: target[x] == SPACE
    {
      var c := path[i];
      if 97 <= c <= 122 { c := c - 32; }
      target[j] := c;
      i, j := i + 1, j + 1;
    }
    assert forall x | 0 <= x < 11 :: target[x] == TargetByte(path, dot, x) == Target(path)[x];
    for n := 0 to 11
      invariant forall x | 0 <= x < n :: name[x] == target[x]
    {
      if name[n] != target[n] { return false; }
    }
    return true;
  }

  /** The building of the name string in `fat_list_root`. */
  method PrintName(name: seq<byte>) returns (s: seq<byte>)
    requires |name| == 11
    ensures s == Printed(name)
  {
    s := [];
    var j := 0;
    while j < 8 && name[j] != SPACE
      invariant 0 <= j <= 8 && s == name[..j] && forall x | 0 <= x < j :: name[x] != SPACE
    {
      s := s + [name[j]];
      j := j + 1;
    }
    FirstOfIs(name[..8], SPACE, j);
    if name[8] != SPACE {
      ghost var base := s;
      s := s + [DOT];
      j := 8;
      while j < 11 && name[j] != SPACE
        invariant 8 <= j <= 11 && s == base + [DOT] + name[8..j] && forall x | 8 <= x < j :: name[x] != SPACE
      {
        s := s + [name[j]];
        j := j + 1;
      }
      FirstOfIs(name[8..], SPACE, j - 8);
      SliceOfTail(name, j);
    }
  }

  lemma SliceOfTail(name: seq<byte>, j: nat)
    requires |name| == 11 && 8 <= j <= 11
    ensures name[8..][..j - 8] == name[8..j]
  {
    var l, r := name[8..][..j - 8], name[8..j];
    forall i | 0 <= i < j - 8 ensures l[i] == r[i] { }
  }

  /** The root chain has no cluster for entry `k`. */
  predicate RootAtEnd(v: Volume, k: nat)
    requires v.Valid()
  {
    ChainAt(v, v.root, k / 16 / v.spc) >= EOC
  }

  lemma NoneListed(v: Volume)
    requires v.Valid()
    ensures Listable(v, 0) && ListUpTo(v, 0) == []
  {
  }

  lemma ListMore(v: Volume, k: nat)
    requires v.Valid() && Listable(v, k) && Readable(v, k) && !RootEntry(v, k).IsEnd()
    ensures Listable(v, k + 1)
    ensures var d := RootEntry(v, k);
      ListUpTo(v, k + 1) ==
          ListUpTo(v, k) + (if d.Visible() then [Listed(CString(Printed(d.name)), d.size, d.attr)] else [])
  {
    hide RootEntry, Readable, Printed, CString;
  }

  lemma ChainStart(v: Volume, first: nat)
    ensures ChainAt(v, first, 0) == first
  {
  }

  lemma OneMore(k: nat, n: nat)
    requires k > 0
    ensures k * n == (k - 1) * n + n
  {
  }

  lemma NoneSearched(v: Volume, name: seq<byte>)
    requires v.Valid()
    ensures Searched(v, name, 0)
  {
  }

  lemma OpensOk(v: Volume, d: Dirent)
    requires v.Valid() && d.size < W32 && d.cluster < W32
    ensures HandleOk(v, Handle(true, d.cluster, d.size, 0, d.cluster, 0))
  {
    Quotient(0, v.ClusterBytes(), 0, 0);
    Quotient(0, v.spc, 0, 0);
  }

  lemma EndOfRoot(v: Volume, ci: nat)
    requires v.Valid() && ChainAt(v, v.root, ci) >= EOC
    ensures !Readable(v, EntryNo(v, ci, 0)) && RootAtEnd(v, EntryNo(v, ci, 0))
  {
    hide EntryNo, ChainAt, Readable, RootAtEnd, RootEntry, DirentAt;
    SectorEntry(v, ci, 0, 0);
  }

  /** The end of a seek, `left` bytes behind the start of cluster number `k`. */
  lemma SeekEnd(v: Volume, first: nat, k: nat, left: nat)
    requires v.Valid() && (left < v.ClusterBytes() || ChainAt(v, first, k) >= EOC)
    ensures ChainAt(v, first, ClusterNo(v, k * v.ClusterBytes() + left)) == ChainAt(v, first, k)
    ensures ChainAt(v, first, k) < EOC ==> ClusterPos(v, k * v.ClusterBytes() + left) == left
  {
    hide ChainAt;
    var p := k * v.ClusterBytes() + left;
    InCluster(v, p, 0);
    if left < v.ClusterBytes() {
      Quotient(p, v.ClusterBytes(), k, left);
    } else {
      NotBefore(p, v.ClusterBytes(), k);
      ChainEnds(v, first, k, ClusterNo(v, p));
    }
  }

  lemma NotBefore(p: nat, n: nat, k: nat)
    requires n > 0 && p >= k * n
    ensures p / n >= k
  {
    Whole(p / n, p % n, n, k);
  }

  lemma Whole(q: nat, r: nat, n: nat, k: nat)
    requires r < n && n * q + r >= k * n
    ensures q >= k
  {
    if q < k { Monotone(q + 1, k, n); }
  }

  lemma Monotone(a: nat, b: nat, n: nat)
    requires a <= b
    ensures a * n <= b * n
  {
  }

  lemma SeekKeeps(v: Volume, h: Handle, h': Handle, p: nat)
    requires v.Valid() && p <= h.size < W32 && h.first < W32
    requires h' == h.(position := p, current := h'.current, offset := h'.offset) && AtPosition(v, h', p)
    ensures HandleOk(v, h')
  {
    hide AtPosition;
  }

  lemma ReadSpecIs(v: Volume, h: Handle, h': Handle, n: nat, r: int, before: seq<byte>, after: seq<byte>)
    requires v.Valid() && FileRead(v, h, h', n, r, before, after)
    ensures HasRead(v, h, h', n, r, before, after)
  {
    hide Progress, AtEnd, AtPosition, Clamp;
  }

  /** A read of a file that is on the disk fills the buffer with its content. */
  lemma StoredHasRead(v: Volume, h: Handle, h': Handle, n: nat, r: int, before: seq<byte>, after: seq<byte>,
                      content: seq<byte>)
    requires v.Valid() && StoredFrom(v, h.first, content) && h.size == |content| && h.position <= h.size < W32
    requires h.position + n < W32 && HasRead(v, h, h', n, r, before, after)
    ensures var end := Least(h.position + n, |content|); var piece := content[h.position..end];
      && |piece| <= |before| && after == piece + before[|piece|..] && r == AsInt(|piece|) && h'.position == end
  {
    hide StoredFrom, Complete, Bytes, ReadSpec, AsInt;
    StoredFromComplete(v, h.first, content);
    CompleteRead(v, h.first, h.size, h.position, n);
  }

  lemma EntryWords(v: Volume, k: nat)
    requires v.Valid()
    ensures RootEntry(v, k).cluster < W32 && RootEntry(v, k).size < W32
  {
    hide RootSector;
  }

  /** A read of a whole file from its start: what the result says about the bytes. */
  lemma HasReadAll(v: Volume, h: Handle, h': Handle, r: int, before: seq<byte>, after: seq<byte>)
    requires v.Valid() && h.position == 0 && h.size < W32 && |before| == h.size
    requires HasRead(v, h, h', h.size, r, before, after)
    ensures Complete(v, h.first, h.size) ==> r == AsInt(h.size) && after == Bytes(v, h.first, 0, h.size)
    ensures r == AsInt(h.size) ==>
              && |after| == h.size
              && ((Complete(v, h.first, h.size) && after == Bytes(v, h.first, 0, h.size))
                  || (h.size == 0xFFFF_FFFF && ReadFails(v, h.first, h.size, 0, h.size)))
  {
    hide Complete, Available, ReadFails, Progress, Bytes, ReadSpec, AsInt;
    var first, size := h.first, h.size;
    var k := Progress(v, first, 0, size);
    SmallRead(v, first, size, 0, size);
    BytesCount(v, first, 0, k);
    if Complete(v, first, size) {
      CompleteRead(v, first, size, 0, size);
      BytesCount(v, first, 0, size);
      assert Bytes(v, first, 0, size)[0..size] == Bytes(v, first, 0, size);
    } else {
      ProgressAll(v, first, 0, size);
      NotAll(v, first, size, k);
      OtherInts(k, size);
    }
  }

  lemma NotAll(v: Volume, first: nat, size: nat, k: nat)
    requires v.Valid() && !Complete(v, first, size) && AllAvailable(v, first, 0, k) && k <= size
    ensures k < size
  {
    hide Available;
  }

  lemma OtherInts(k: nat, size: nat)
    requires k < size < W32
    ensures AsInt(k) != AsInt(size) && (AsInt(size) == -1 <==> size == 0xFFFF_FFFF)
  {
  }

  lemma HandleBounds(v: Volume, h: Handle)
    requires v.Valid() && h.inUse && HandleOk(v, h)
    ensures h.position <= h.size < W32 && AtPosition(v, h, h.position)
  {
  }

  /** A read that does not wrap around, or whose chain ends with the file, keeps the handle at its
      position. */
  lemma ReadKeeps(v: Volume, h: Handle, h': Handle, n: nat, r: int, before: seq<byte>, after: seq<byte>)
    requires v.Valid() && h.inUse && HandleOk(v, h) && FileRead(v, h, h', n, r, before, after)
    requires h.position + n < W32 || AtEnd(v, h.first, h.size)
    ensures HandleOk(v, h')
  {
    hide Progress, AtPosition, Bytes, AtEnd, Clamp;
    WithinFile(v, h.first, h.size, h.position, n);
  }

  lemma WithinFile(v: Volume, first: nat, size: nat, pos: nat, n: nat)
    requires v.Valid() && pos <= size < W32 && (pos + n < W32 || AtEnd(v, first, size))
    ensures var k := Progress(v, first, pos, Clamp(pos, n, size)); (pos + k) % W32 == pos + k <= size
  {
    hide Progress, AtEnd, Available, Clamp;
    if pos + n < W32 {
      ClampExact(pos, n, size);
    } else {
      ProgressAll(v, first, pos, Clamp(pos, n, size));
      NotAvailable(v, first, size);
    }
  }

  lemma EndAt(v: Volume, h: Handle, p: nat)
    requires v.Valid() && AtPosition(v, h, p)
    ensures h.current >= EOC <==> AtEnd(v, h.first, p)
    ensures AtEnd(v, h.first, p) ==> !Available(v, h.first, p)
  {
    hide ChainAt, ClusterNo, ClusterPos;
  }

  /** A chunk was copied to offset `at` of a buffer. */
  lemma Copied(before: seq<byte>, after: seq<byte>, at: nat, chunk: seq<byte>)
    requires |after| == |before| && at + |chunk| <= |before|
    requires forall x | 0 <= x < |after| :: after[x] == if at <= x < at + |chunk| then chunk[x - at] else before[x]
    ensures after == before[..at] + chunk + before[at + |chunk|..]
  {
  }

  lemma LimitSmall(pos: nat, n: nat, size: nat)
    requires pos <= size < W32 && n < W32
    ensures Clamp(pos, n, size) <= n
  {
    ClampExact(pos, n, size);
    if pos + n >= W32 { assert (pos + n) % W32 == pos + n - W32; }
  }

  lemma BytesNone(v: Volume, first: nat, pos: nat)
    requires v.Valid()
    ensures Bytes(v, first, pos, 0) == []
  {
  }

  lemma SectorHere(v: Volume, h: Handle, p: nat)
    requires v.Valid() && AtPosition(v, h, p) && h.current < EOC
    ensures (FirstSector(v, h.current) + h.offset / SECTOR) % W32 == ByteSector(v, h.first, p)
    ensures Available(v, h.first, p) <==> ByteSector(v, h.first, p) !in v.bad
    ensures h.offset % SECTOR == p % SECTOR
  {
    hide FirstSector, ChainAt, ClusterPos, ClusterNo;
    InCluster(v, p, 0);
  }
}
