/** A FAT32 volume as a value: cluster chains, the bytes of a file, and the root directory
    (src/fat32.c; "FAT Data Structure" and "FAT Directory Structure" of Microsoft's FAT32
    specification 1.03). */
module FatFormat {
  import opened Base

  const W32: nat := 0x1_0000_0000
  const SECTOR: nat := 512
  /** The least cluster number that means end of chain. */
  const EOC: nat := 0x0FFF_FFF8

  /** The disk, as a byte for every sector and offset, with the sectors whose reading fails, and
      what `fat_mount` has computed from the boot sector. */
  datatype Volume = Volume(disk: (nat, nat) -> byte, bad: set<nat>, spc: nat, fatStart: nat, dataStart: nat, root: nat)
  {
    predicate Valid() { 0 < spc < 256 && fatStart < W32 && dataStart < W32 && root < W32 }
    function ClusterBytes(): nat { SECTOR * spc }
  }

  /** `cluster_to_sector`, on 32 bits. */
  function FirstSector(v: Volume, cluster: nat): nat {
    (v.dataStart + (cluster - 2) * v.spc) % W32
  }

  /** Cluster 2 lies at the start of the data area, and the clusters lie back to back. */
  lemma ClusterPlaces(v: Volume, cluster: nat)
    requires v.Valid()
    ensures FirstSector(v, 2) == v.dataStart
    ensures cluster >= 2 && FirstSector(v, cluster) + v.spc < W32 ==>
        FirstSector(v, cluster + 1) == FirstSector(v, cluster) + v.spc
  {
    if cluster >= 2 {
      var p := v.dataStart + (cluster - 2) * v.spc;
      assert v.dataStart + (cluster + 1 - 2) * v.spc == p + v.spc;
      if p % W32 + v.spc < W32 { Quotient(p + v.spc, W32, p / W32, p % W32 + v.spc); }
    }
  }

  function Word16(v: Volume, sector: nat, at: nat): (r: nat)
    ensures r < 0x1_0000
  {
    var lo: int, hi: int := v.disk(sector, at), v.disk(sector, at + 1);
    lo + 0x100 * hi
  }

  function Word32(v: Volume, sector: nat, at: nat): (r: nat)
    ensures r < W32
  {
    Word16(v, sector, at) + 0x1_0000 * Word16(v, sector, at + 2)
  }

  /** The FAT entry of a cluster; an unreadable FAT sector reads as the end of the chain. */
  function FatEntry(v: Volume, cluster: nat): nat {
    var offset := (cluster * 4) % W32;
    var sector := (v.fatStart + offset / SECTOR) % W32;
    if sector in v.bad then EOC else Word32(v, sector, offset % SECTOR) % 0x1000_0000
  }

  /** The cluster at index `i` of the chain that starts at `first`; the end marker repeats. */
  function ChainAt(v: Volume, first: nat, i: nat): nat {
    if i == 0 then first else
    var c := ChainAt(v, first, i - 1);
    if c >= EOC then c else FatEntry(v, c)
  }

  lemma ChainNext(v: Volume, first: nat, i: nat)
    requires ChainAt(v, first, i) < EOC
    ensures ChainAt(v, first, i + 1) == FatEntry(v, ChainAt(v, first, i))
  {
  }

  lemma {:induction false} ChainEnds(v: Volume, first: nat, i: nat, j: nat)
    requires ChainAt(v, first, i) >= EOC && i <= j
    ensures ChainAt(v, first, j) == ChainAt(v, first, i)
    decreases j
  {
    if i == j {
    } else {
      ChainEnds(v, first, i, j - 1);
    }
  }

  // ---------------------------------------------------------------- file bytes

  /** Number in the chain of the cluster that holds byte `i`, and the place of the byte in it. */
  function ClusterNo(v: Volume, i: nat): nat
    requires v.Valid()
  {
    i / SECTOR / v.spc
  }

  function ClusterPos(v: Volume, i: nat): nat
    requires v.Valid()
  {
    i % v.ClusterBytes()
  }

  /** The sector that holds byte `i` of the file whose chain starts at `first`. */
  function ByteSector(v: Volume, first: nat, i: nat): nat
    requires v.Valid()
  {
    (FirstSector(v, ChainAt(v, first, ClusterNo(v, i))) + (i / SECTOR) % v.spc) % W32
  }

  /** Byte `i` lies in a cluster of the chain, in a sector that can be read. */
  predicate Available(v: Volume, first: nat, i: nat)
    requires v.Valid()
  {
    ChainAt(v, first, ClusterNo(v, i)) < EOC && ByteSector(v, first, i) !in v.bad
  }

  function FileByte(v: Volume, first: nat, i: nat): byte
    requires v.Valid()
  {
    v.disk(ByteSector(v, first, i), i % SECTOR)
  }

  /** `n` bytes of the file from `pos` on. */
  function Bytes(v: Volume, first: nat, pos: nat, n: nat): seq<byte>
    requires v.Valid()
  {
    seq<byte>(n, i requires 0 <= i < n => FileByte(v, first, pos + i))
  }

  /** How many of the `n` bytes from `pos` on come before the first that is not available. */
  function Progress(v: Volume, first: nat, pos: nat, n: nat): (k: nat)
    requires v.Valid()
    ensures k <= n
    decreases n
  {
    if n == 0 || !Available(v, first, pos) then 0 else 1 + Progress(v, first, pos + 1, n - 1)
  }

  /** The chain has no cluster for byte `i`. */
  predicate AtEnd(v: Volume, first: nat, i: nat)
    requires v.Valid()
  {
    ChainAt(v, first, ClusterNo(v, i)) >= EOC
  }

  /** All bytes in [lo, hi) are available. */
  ghost predicate AllAvailable(v: Volume, first: nat, lo: nat, hi: nat)
    requires v.Valid()
  {
    forall i | lo <= i < hi :: Available(v, first, i)
  }

  lemma {:induction false} ProgressIs(v: Volume, first: nat, pos: nat, n: nat, k: nat)
    requires v.Valid() && k <= n && AllAvailable(v, first, pos, pos + k)
    requires k == n || !Available(v, first, pos + k)
    ensures Progress(v, first, pos, n) == k
    decreases k
  {
    hide Available;
    if k == 0 {
    } else {
      ProgressIs(v, first, pos + 1, n - 1, k - 1);
    }
  }

  lemma {:induction false} ProgressAll(v: Volume, first: nat, pos: nat, n: nat)
    requires v.Valid()
    ensures var k := Progress(v, first, pos, n);
      AllAvailable(v, first, pos, pos + k) && (k < n ==> !Available(v, first, pos + k))
    decreases n
  {
    hide Available;
    if n == 0 || !Available(v, first, pos) {
    } else {
      ProgressAll(v, first, pos + 1, n - 1);
    }
  }

  // ---------------------------------------------------------------- reading

  /** The length that `fat_read` limits itself to; the sum of position and length is one of
      32 bits. */
  function Clamp(pos: nat, n: nat, size: nat): nat {
    if (pos + n) % W32 > size then (size - pos) % W32 else n
  }

  /** The limit is the rest of the file exactly when the sum does not wrap around. */
  lemma ClampExact(pos: nat, n: nat, size: nat)
    requires pos <= size < W32 && n < W32
    ensures Clamp(pos, n, size) == (if n <= size - pos then n else size - pos) <==> pos + n < W32
  {
    if pos + n >= W32 { assert (pos + n) % W32 == pos + n - W32; }
  }

  datatype ReadResult = ReadResult(ret: int, data: seq<byte>, position: nat)

  /** A read of `n` bytes from `pos` on meets a sector that cannot be read. */
  predicate ReadFails(v: Volume, first: nat, size: nat, pos: nat, n: nat)
    requires v.Valid()
  {
    var m := Clamp(pos, n, size);
    var k := Progress(v, first, pos, m);
    k < m && !AtEnd(v, first, pos + k)
  }

  /** What `fat_read` of `n` bytes at position `pos` returns, stores, and moves the position to:
      the bytes up to the limit, the end of the chain, or an unreadable sector (-1). Their number
      is returned as an `int`. */
  function ReadSpec(v: Volume, first: nat, size: nat, pos: nat, n: nat): ReadResult
    requires v.Valid()
  {
    var k := Progress(v, first, pos, Clamp(pos, n, size));
    ReadResult(if ReadFails(v, first, size, pos, n) then -1 else AsInt(k),
               Bytes(v, first, pos, k), (pos + k) % W32)
  }

  lemma SplitProgress(v: Volume, first: nat, pos: nat, a: nat, b: nat)
    requires v.Valid()
    ensures var k := Progress(v, first, pos, a);
      Progress(v, first, pos, a + b) == if k < a then k else a + Progress(v, first, pos + a, b)
  {
    hide Available, Progress;
    var k := Progress(v, first, pos, a);
    ProgressAll(v, first, pos, a);
    if k < a {
      ProgressIs(v, first, pos, a + b, k);
    } else {
      ProgressAll(v, first, pos + a, b);
      ProgressIs(v, first, pos, a + b, a + Progress(v, first, pos + a, b));
    }
  }

  lemma SplitBytes(v: Volume, first: nat, pos: nat, a: nat, b: nat)
    requires v.Valid()
    ensures Bytes(v, first, pos, a + b) == Bytes(v, first, pos, a) + Bytes(v, first, pos + a, b)
  {
    hide FileByte;
    var all, l, r := Bytes(v, first, pos, a + b), Bytes(v, first, pos, a), Bytes(v, first, pos + a, b);
    forall i | 0 <= i < a + b ensures all[i] == (l + r)[i] {
      if i >= a { assert r[i - a] == FileByte(v, first, (pos + a) + (i - a)); }
    }
  }

  /** Reading `a` bytes and then `b` bytes stores and fails as reading a + b bytes does. */
  lemma SplitData(v: Volume, first: nat, size: nat, pos: nat, a: nat, b: nat)
    requires v.Valid() && pos <= size < W32 && pos + a + b < W32
    ensures var r1, r := ReadSpec(v, first, size, pos, a), ReadSpec(v, first, size, pos, a + b);
      var r2 := ReadSpec(v, first, size, r1.position, b);
      if ReadFails(v, first, size, pos, a) then r == r1
      else
        && r.data == r1.data + r2.data && r.position == r2.position
        && (ReadFails(v, first, size, pos, a + b) <==> ReadFails(v, first, size, r1.position, b))
  {
    hide Available, AtEnd, Bytes, Progress, ReadSpec, ReadFails;
    var m1 := Least(a, size - pos);
    var k1 := Progress(v, first, pos, m1);
    var p := pos + k1;
    var m, m2 := Least(a + b, size - pos), Least(b, size - p);
    SmallRead(v, first, size, pos, a);
    SmallRead(v, first, size, pos, a + b);
    SmallRead(v, first, size, p, b);
    SplitProgress(v, first, pos, m1, m - m1);
    if k1 == m1 {
      SplitBytes(v, first, pos, k1, Progress(v, first, p, m2));
    } else {
      ProgressAll(v, first, pos, m1);
      ProgressIs(v, first, p, m2, 0);
      SplitBytes(v, first, pos, k1, 0);
    }
  }

  /** The result of a read, by the bytes that it stores. */
  lemma ReadResults(v: Volume, first: nat, size: nat, pos: nat, n: nat)
    requires v.Valid() && pos <= size < W32 && pos + n < W32
    ensures var r := ReadSpec(v, first, size, pos, n);
      && |r.data| <= n && r.position == pos + |r.data| <= size
      && r.ret == if ReadFails(v, first, size, pos, n) then -1 else AsInt(|r.data|)
  {
    hide Bytes, Progress, ReadSpec, ReadFails;
    SmallRead(v, first, size, pos, n);
    BytesCount(v, first, pos, Progress(v, first, pos, Least(n, size - pos)));
  }

  /** Reading `a` bytes and then `b` bytes is reading a + b bytes; below 2^31 bytes the results
      add up, and are negative exactly if a read fails. */
  lemma SplitRead(v: Volume, first: nat, size: nat, pos: nat, a: nat, b: nat)
    requires v.Valid() && pos <= size < W32 && pos + a + b < W32
    ensures var r1, r := ReadSpec(v, first, size, pos, a), ReadSpec(v, first, size, pos, a + b);
      var r2 := ReadSpec(v, first, size, r1.position, b);
      && (if ReadFails(v, first, size, pos, a) then r == r1
          else
            && r.data == r1.data + r2.data && r.position == r2.position
            && (ReadFails(v, first, size, pos, a + b) <==> ReadFails(v, first, size, r1.position, b)))
      && (a + b < 0x8000_0000 ==>
            && (r1.ret < 0 <==> ReadFails(v, first, size, pos, a))
            && (r2.ret < 0 <==> ReadFails(v, first, size, r1.position, b))
            && r.ret == if r1.ret < 0 || r2.ret < 0 then -1 else r1.ret + r2.ret)
  {
    hide ReadSpec, ReadFails, AsInt;
    ReadResults(v, first, size, pos, a);
    ReadResults(v, first, size, pos, a + b);
    var p := ReadSpec(v, first, size, pos, a).position;
    SplitData(v, first, size, pos, a, b);
    ReadResults(v, first, size, p, b);
  }

  function Least(a: nat, b: nat): nat { if a <= b then a else b }

  /** A read without wrap-around. */
  lemma SmallRead(v: Volume, first: nat, size: nat, pos: nat, n: nat)
    requires v.Valid() && pos <= size < W32 && pos + n < W32
    ensures var m := Least(n, size - pos); var k := Progress(v, first, pos, m);
      && (ReadFails(v, first, size, pos, n) <==> k < m && !AtEnd(v, first, pos + k))
      && ReadSpec(v, first, size, pos, n) ==
           ReadResult(if ReadFails(v, first, size, pos, n) then -1 else AsInt(k), Bytes(v, first, pos, k), pos + k)
  {
    hide AtEnd, Bytes, Progress;
    ClampExact(pos, n, size);
  }

  /** Every byte of the file is there. */
  ghost predicate Complete(v: Volume, first: nat, size: nat)
    requires v.Valid()
  {
    AllAvailable(v, first, 0, size)
  }

  /** On a complete file a read stores exactly the bytes from the position to the end of the read
      or of the file, whatever was done before. */
  lemma CompleteRead(v: Volume, first: nat, size: nat, pos: nat, n: nat)
    requires v.Valid() && Complete(v, first, size) && pos <= size < W32 && pos + n < W32
    ensures var end := Least(pos + n, size);
      ReadSpec(v, first, size, pos, n) == ReadResult(AsInt(end - pos), Bytes(v, first, 0, size)[pos..end], end)
  {
    hide Available, AtEnd, Bytes, Progress;
    var m := Clamp(pos, n, size);
    ClampExact(pos, n, size);
    hide Clamp;
    ProgressIs(v, first, pos, m, m);
    BytesSlice(v, first, size, pos, pos + m);
  }

  /** For any length: on a complete file a read stores exactly the bytes to its end or to that of
      the file, and returns their number, when position + n does not wrap around or the chain ends
      with the file, and the number is below 2^31; in all other cases it does not. */
  lemma ReadExact(v: Volume, first: nat, size: nat, pos: nat, n: nat)
    requires v.Valid() && Complete(v, first, size) && pos <= size < W32 && n < W32
    ensures var end := Least(pos + n, size);
      ReadSpec(v, first, size, pos, n) == ReadResult(end - pos, Bytes(v, first, 0, size)[pos..end], end)
      <==> (pos + n < W32 || AtEnd(v, first, size)) && end - pos < 0x8000_0000
  {
    hide Available, AtEnd, Bytes, Clamp, Progress;
    if pos + n < W32 {
      CompleteRead(v, first, size, pos, n);
    } else {
      ClampWrapped(pos, n, size);
      var k := Progress(v, first, pos, n);
      ProgressAll(v, first, pos, n);
      assert k >= size - pos;
      NotAvailable(v, first, size);
      BytesSlice(v, first, size, pos, size);
      BytesCount(v, first, pos, k);
    }
  }

  lemma ClampWrapped(pos: nat, n: nat, size: nat)
    requires pos <= size < W32 && n < W32 <= pos + n
    ensures Clamp(pos, n, size) == n
  {
    Quotient(pos + n, W32, 1, pos + n - W32);
  }

  lemma BytesCount(v: Volume, first: nat, pos: nat, n: nat)
    requires v.Valid()
    ensures |Bytes(v, first, pos, n)| == n
  {
  }

  lemma BytesSlice(v: Volume, first: nat, size: nat, pos: nat, end: nat)
    requires v.Valid() && pos <= end <= size
    ensures |Bytes(v, first, 0, size)| == size
    ensures Bytes(v, first, 0, size)[pos..end] == Bytes(v, first, pos, end - pos)
  {
    hide FileByte;
  }

  lemma NotAvailable(v: Volume, first: nat, i: nat)
    requires v.Valid()
    ensures AtEnd(v, first, i) ==> !Available(v, first, i)
  {
  }

  lemma EntryIs(v: Volume, cluster: nat, sector: nat, at: nat, n: nat)
    requires sector == (v.fatStart + ((cluster * 4) % W32) / SECTOR) % W32 && at == ((cluster * 4) % W32) % SECTOR
    requires sector !in v.bad && n < W32 && forall j: nat | j < 4 :: v.disk(sector, at + j) == ByteOf(n, j)
    ensures FatEntry(v, cluster) == n % 0x1000_0000
  {
    hide ByteOf;
    FourBytes(n);
    assert v.disk(sector, at + 0) == ByteOf(n, 0) && v.disk(sector, at + 3) == ByteOf(n, 3);
    assert v.disk(sector, (at + 2) + 1) == v.disk(sector, at + 3);
  }

  /** A volume with a file of one byte, alone in its cluster. */
  function OneByteFile(): Volume {
    Volume((sector, offset) => 255, {}, 1, 0, 0, 2)
  }

  /** At the end of that file a read of 2^32 - 1 bytes returns the 511 bytes that follow in the
      cluster, and leaves the position behind the end of the file. */
  lemma SlackRead()
    ensures var v := OneByteFile(); var r := ReadSpec(v, 2, 1, 1, 0xFFFF_FFFF);
      v.Valid() && Complete(v, 2, 1) && r.ret == |r.data| == 511 && r.position == 512
  {
    hide Progress, Clamp, Bytes, Available, AtEnd, OneByteFile;
    var v := OneByteFile();
    OneByteChain();
    ClampWrapped(1, 0xFFFF_FFFF, 1);
    SlackProgress();
    BytesCount(v, 2, 1, 511);
  }

  lemma SlackProgress()
    ensures OneByteFile().Valid() && Progress(OneByteFile(), 2, 1, 0xFFFF_FFFF) == 511
  {
    hide Progress, Available, AtEnd;
    OneByteChain();
    ProgressIs(OneByteFile(), 2, 1, 0xFFFF_FFFF, 511);
  }

  lemma OneByteEntry()
    ensures FatEntry(OneByteFile(), 2) == 0x0FFF_FFFF
  {
  }

  lemma OneByteChain()
    ensures var v := OneByteFile(); v.Valid() && AllAvailable(v, 2, 0, 512) && AtEnd(v, 2, 512) && !Available(v, 2, 512)
  {
    hide FatEntry;
    var v := OneByteFile();
    assert FatEntry(v, 2) == 0x0FFF_FFFF by { OneByteEntry(); }
    forall i | 0 <= i < 512 ensures Available(v, 2, i) { assert ClusterNo(v, i) == 0; }
    assert ClusterNo(v, 512) == 1;
    assert ChainAt(v, 2, 1) == FatEntry(v, 2);
  }

  /** The FAT entries of a volume whose chain from cluster 2 on is 2, 3, 4, ..., 65537. */
  function LongNext(cluster: nat): nat {
    if cluster < 65537 then cluster + 1 else 0x0FFF_FFFF
  }

  /** That volume: a file of 2^16 clusters of 64 KB. */
  function LongFile(): Volume {
    Volume((sector, at) => if sector < 32 then 0 else ByteOf(LongNext((sector - 32) * 128 + at / 4), at % 4),
           {}, 128, 32, 545, 2)
  }

  lemma LongFileByte(q: nat, r: nat, j: nat)
    requires r < 128 && j < 4
    ensures LongFile().disk(32 + q, 4 * r + j) == ByteOf(LongNext(128 * q + r), j)
  {
    hide ByteOf, LongNext;
    Quotient(4 * r + j, 4, r, j);
  }

  lemma LongFileFields()
    ensures LongFile().bad == {} && LongFile().fatStart == 32
  {
  }

  lemma EntryPlace(q: nat, r: nat)
    requires r < 128 && q < 0x1_0000
    ensures var offset := ((128 * q + r) * 4) % W32;
      (32 + offset / SECTOR) % W32 == 32 + q && offset % SECTOR == 4 * r
  {
    var offset := (128 * q + r) * 4;
    Quotient(offset, W32, 0, offset);
    Quotient(offset, SECTOR, q, 4 * r);
    Quotient(32 + q, W32, 0, 32 + q);
  }

  lemma LongFileEntry(cluster: nat)
    requires cluster <= 65537
    ensures FatEntry(LongFile(), cluster) == LongNext(cluster)
  {
    hide FatEntry, ByteOf, LongFile;
    var v, q, r := LongFile(), cluster / 128, cluster % 128;
    LongFileFields();
    EntryPlace(q, r);
    forall j: nat | j < 4 ensures v.disk(32 + q, 4 * r + j) == ByteOf(LongNext(cluster), j) { LongFileByte(q, r, j); }
    EntryIs(v, cluster, 32 + q, 4 * r, LongNext(cluster));
  }

  lemma {:induction false} LongFileChain(i: nat)
    requires i <= 0xFFFF
    ensures ChainAt(LongFile(), 2, i) == 2 + i
  {
    hide LongFile, FatEntry;
    if i > 0 {
      LongFileChain(i - 1);
      LongFileEntry(1 + i);
    }
  }

  /** All of that file, 2^32 - 1 bytes, is read from its start: the bytes are stored, and the result
      is -1, as for a sector that cannot be read. */
  lemma LongRead()
    ensures var v := LongFile(); var r := ReadSpec(v, 2, 0xFFFF_FFFF, 0, 0xFFFF_FFFF);
      && v.Valid() && Complete(v, 2, 0xFFFF_FFFF) && !ReadFails(v, 2, 0xFFFF_FFFF, 0, 0xFFFF_FFFF)
      && r == ReadResult(-1, Bytes(v, 2, 0, 0xFFFF_FFFF), 0xFFFF_FFFF)
  {
    hide Progress, Bytes, FileByte, ChainAt;
    var v := LongFile();
    forall i | 0 <= i < 0xFFFF_FFFF ensures Available(v, 2, i) {
      assert ClusterNo(v, i) <= 0xFFFF;
      LongFileChain(ClusterNo(v, i));
    }
    ProgressIs(v, 2, 0, 0xFFFF_FFFF, 0xFFFF_FFFF);
  }

  // ---------------------------------------------------------------- positions and clusters

  lemma DivTwice(p: nat, n: nat)
    requires n > 0
    ensures p / (SECTOR * n) == p / SECTOR / n
    ensures (p % (SECTOR * n)) / SECTOR == (p / SECTOR) % n
    ensures (p % (SECTOR * n)) % SECTOR == p % SECTOR
  {
    var q := p / SECTOR;
    var m := SECTOR * (q % n) + p % SECTOR;
    assert p == (SECTOR * n) * (q / n) + m by {
      assert q == n * (q / n) + q % n;
      assert SECTOR * (n * (q / n)) == (SECTOR * n) * (q / n);
    }
    assert 0 <= m < SECTOR * n by { assert q % n <= n - 1; assert SECTOR * (q % n) <= SECTOR * (n - 1); }
    Quotient(p, SECTOR * n, q / n, m);
  }

  lemma Quotient(p: nat, n: nat, q: nat, r: nat)
    requires n > 0 && p == n * q + r && r < n
    ensures p / n == q && p % n == r
  {
    NoMultiple(n, p / n - q, r - p % n);
  }

  lemma NoMultiple(n: int, x: int, y: int)
    requires n * x == y && -n < y < n
    ensures x == 0
  {
  }

  /** Going on by `c` bytes within a cluster, or up to its end. */
  lemma Advance(p: nat, c: nat, n: nat)
    requires n > 0 && p % n + c <= n
    ensures p % n + c < n ==> (p + c) / n == p / n && (p + c) % n == p % n + c
    ensures p % n + c == n ==> (p + c) / n == p / n + 1 && (p + c) % n == 0
  {
    if p % n + c < n { Quotient(p + c, n, p / n, p % n + c); }
    else { assert p + c == n * (p / n + 1); Quotient(p + c, n, p / n + 1, 0); }
  }

  /** The bytes behind `p` in the same sector. */
  lemma SameSector(v: Volume, first: nat, p: nat, i: nat)
    requires v.Valid() && p % SECTOR + i < SECTOR
    ensures ByteSector(v, first, p + i) == ByteSector(v, first, p)
      && (Available(v, first, p + i) <==> Available(v, first, p))
    ensures (p + i) % SECTOR == p % SECTOR + i && (p + i) / SECTOR == p / SECTOR
  {
    Advance(p, i, SECTOR);
  }

  // ---------------------------------------------------------------- files on the disk

  /** The FAT on the disk links a cluster to `next`: four bytes, at byte 4 * cluster of the FAT. */
  ghost predicate Linked(v: Volume, cluster: nat, next: nat) {
    var sector := v.fatStart + 4 * cluster / 512;
    && sector < W32 && sector !in v.bad && next < 0x1000_0000
    && forall j: nat | j < 4 :: v.disk(sector, 4 * cluster % 512 + j) == ByteOf(next, j)
  }

  /** `content` is on the disk as a file: its clusters are linked in the FAT, the last one to an end
      marker, and hold it piece by piece. Cluster c is the (c - 2)nd of the data area. */
  ghost predicate Stored(v: Volume, clusters: seq<nat>, last: nat, content: seq<byte>) {
    && |clusters| > 0 && |content| <= ClusterStart(v, |clusters|) && 0x0FFF_FFF8 <= last < 0x1000_0000
    && (forall j | 0 <= j < |clusters| ::
          && 2 <= clusters[j] < 0x0FFF_FFF8 && DataSector(v, clusters[j]) + v.spc <= W32
          && Linked(v, clusters[j], Following(clusters, last, j)))
    && forall j: nat, s: nat, o: nat | j < |clusters| && s < v.spc && o < 512 ::
         Piece(v, clusters[j], s, o, content, ClusterStart(v, j))
  }

  /** Where in a file its `j`th cluster starts. */
  function ClusterStart(v: Volume, j: nat): nat {
    j * v.ClusterBytes()
  }

  /** The cluster behind the `j`th, or the end marker. */
  function Following(clusters: seq<nat>, last: nat, j: nat): nat {
    if j + 1 < |clusters| then clusters[j + 1] else last
  }

  /** Byte `o` of sector `s` of the cluster that holds `content` from byte `base` on. */
  predicate Piece(v: Volume, cluster: nat, s: nat, o: nat, content: seq<byte>, base: nat) {
    cluster >= 2 && (base + 512 * s + o < |content| ==>
      Holds(v, DataSector(v, cluster) + s, o, content[base + 512 * s + o]))
  }

  /** Where a cluster lies on the disk: in the data area, counted from 2. */
  function DataSector(v: Volume, cluster: nat): nat
    requires cluster >= 2
  {
    v.dataStart + (cluster - 2) * v.spc
  }

  /** The sector can be read and has this byte. */
  predicate Holds(v: Volume, sector: nat, at: nat, b: byte) {
    sector !in v.bad && v.disk(sector, at) == b
  }

  lemma LinkedEntry(v: Volume, cluster: nat, next: nat)
    requires v.Valid() && Linked(v, cluster, next) && cluster < EOC
    ensures FatEntry(v, cluster) == next
  {
    EntryIs(v, cluster, v.fatStart + 4 * cluster / 512, 4 * cluster % 512, next);
  }

  /** The chain runs through the clusters of a stored file and ends behind them. */
  lemma {:induction false} StoredChain(v: Volume, clusters: seq<nat>, last: nat, content: seq<byte>, j: nat)
    requires v.Valid() && Stored(v, clusters, last, content) && j <= |clusters|
    ensures ChainAt(v, clusters[0], j) == if j < |clusters| then clusters[j] else last
  {
    hide FatEntry, Linked, Piece, ClusterStart, DataSector;
    if j == 0 {
    } else {
      StoredChain(v, clusters, last, content, j - 1);
      StoredLink(v, clusters, last, content, j - 1);
    }
  }

  lemma StoredLink(v: Volume, clusters: seq<nat>, last: nat, content: seq<byte>, j: nat)
    requires v.Valid() && Stored(v, clusters, last, content) && j < |clusters|
    ensures clusters[j] < EOC && FatEntry(v, clusters[j]) == Following(clusters, last, j)
  {
    hide FatEntry, Piece, ClusterStart, DataSector;
    LinkedEntry(v, clusters[j], Following(clusters, last, j));
  }

  lemma StoredByte(v: Volume, clusters: seq<nat>, last: nat, content: seq<byte>, i: nat)
    requires v.Valid() && Stored(v, clusters, last, content) && i < |content|
    ensures Available(v, clusters[0], i) && FileByte(v, clusters[0], i) == content[i]
  {
    hide FatEntry, Linked, ChainAt, FirstSector, DataSector;
    var j, s, o := ClusterNo(v, i), i / 512 % v.spc, i % 512;
    ByteIndex(i, v.spc, |clusters|);
    StoredChain(v, clusters, last, content, j);
    StoredPiece(v, clusters, last, content, j, s, o);
    StoredSector(v, clusters[j], s);
    hide Stored, ClusterNo;
  }

  lemma StoredPiece(v: Volume, clusters: seq<nat>, last: nat, content: seq<byte>, j: nat, s: nat, o: nat)
    requires v.Valid() && Stored(v, clusters, last, content) && j < |clusters| && s < v.spc && o < 512
    ensures 2 <= clusters[j] < EOC && DataSector(v, clusters[j]) + v.spc <= W32
    ensures Piece(v, clusters[j], s, o, content, ClusterStart(v, j))
  {
    hide Linked, DataSector, Piece, ClusterStart;
  }

  /** The place of byte `i` in a chain of `n` clusters of `spc` sectors. */
  lemma ByteIndex(i: nat, spc: nat, n: nat)
    requires spc > 0
    ensures i / 512 % spc < spc && i / 512 / spc * (512 * spc) + 512 * (i / 512 % spc) + i % 512 == i
    ensures i < n * (512 * spc) ==> i / 512 / spc < n
  {
    var q := i / 512;
    var j, s := q / spc, q % spc;
    assert q == spc * j + s;
    TimesTwice(j, spc);
    if i < n * (512 * spc) && j >= n { MoreTimes(j, n, 512 * spc); }
  }

  lemma TimesTwice(j: nat, spc: nat)
    ensures j * (512 * spc) == 512 * (spc * j)
  {
  }

  lemma MoreTimes(j: nat, n: nat, k: nat)
    requires j >= n
    ensures j * k >= n * k
  {
  }

  lemma StoredSector(v: Volume, cluster: nat, s: nat)
    requires v.Valid() && cluster >= 2 && s < v.spc && DataSector(v, cluster) + v.spc <= W32
    ensures (FirstSector(v, cluster) + s) % W32 == DataSector(v, cluster) + s
  {
    Quotient(DataSector(v, cluster), W32, 0, DataSector(v, cluster));
  }

  lemma StoredComplete(v: Volume, clusters: seq<nat>, last: nat, content: seq<byte>)
    requires v.Valid() && Stored(v, clusters, last, content)
    ensures Complete(v, clusters[0], |content|) && Bytes(v, clusters[0], 0, |content|) == content
  {
    hide Available, FileByte, Stored;
    assert |clusters| > 0 by { StoredNotEmpty(v, clusters, last, content); }
    forall i: nat | i < |content|
      ensures Available(v, clusters[0], i) && FileByte(v, clusters[0], i) == content[i] {
      StoredByte(v, clusters, last, content, i);
    }
  }

  lemma StoredNotEmpty(v: Volume, clusters: seq<nat>, last: nat, content: seq<byte>)
    requires Stored(v, clusters, last, content)
    ensures |clusters| > 0
  {
  }

  /** Reading a file that is on the disk gives its content, from the position to the end of the read
      or of the file. */
  lemma StoredRead(v: Volume, clusters: seq<nat>, last: nat, content: seq<byte>, pos: nat, n: nat)
    requires v.Valid() && Stored(v, clusters, last, content) && pos <= |content| < W32 && n < W32
    requires pos + n < W32 || |content| == ClusterStart(v, |clusters|)
    ensures |clusters| > 0 && var end := Least(pos + n, |content|);
      && ReadSpec(v, clusters[0], |content|, pos, n).data == content[pos..end]
      && ReadSpec(v, clusters[0], |content|, pos, n).position == end
      && ReadSpec(v, clusters[0], |content|, pos, n).ret == AsInt(end - pos)
  {
    hide Stored, Complete, AtEnd, ReadSpec, Bytes;
    StoredNotEmpty(v, clusters, last, content);
    StoredComplete(v, clusters, last, content);
    if pos + n < W32 {
      CompleteRead(v, clusters[0], |content|, pos, n);
    } else {
      StoredEnd(v, clusters, last, content);
      WholeRead(v, clusters[0], |content|, pos, n);
    }
  }

  lemma StoredEnd(v: Volume, clusters: seq<nat>, last: nat, content: seq<byte>)
    requires v.Valid() && Stored(v, clusters, last, content) && |content| == ClusterStart(v, |clusters|)
    ensures AtEnd(v, clusters[0], |content|)
  {
    hide Linked, Piece, ChainAt;
    TimesTwice(|clusters|, v.spc);
    Quotient(|content|, 512, v.spc * |clusters|, 0);
    Quotient(v.spc * |clusters|, v.spc, |clusters|, 0);
    StoredChain(v, clusters, last, content, |clusters|);
  }

  /** A read that reaches the end of the chain with the end of the file. */
  lemma WholeRead(v: Volume, first: nat, size: nat, pos: nat, n: nat)
    requires v.Valid() && Complete(v, first, size) && pos <= size < W32 && n < W32 <= pos + n && AtEnd(v, first, size)
    ensures ReadSpec(v, first, size, pos, n) ==
      ReadResult(AsInt(size - pos), Bytes(v, first, 0, size)[pos..size], size)
  {
    hide Available, AtEnd, Bytes, Clamp, Progress;
    ClampWrapped(pos, n, size);
    NotAvailable(v, first, size);
    ProgressIs(v, first, pos, n, size - pos);
    BytesSlice(v, first, size, pos, size);
  }

  // ---------------------------------------------------------------- directory entries

  /** The fields of a directory entry that the driver looks at. */
  datatype Dirent = Dirent(name: seq<byte>, attr: nat, cluster: nat, size: nat)
  {
    predicate IsEnd() requires |name| == 11 { name[0] == 0 }

    /** Neither deleted nor a long-name entry nor a volume label. */
    predicate Visible() requires |name| == 11 { name[0] != 0xE5 && attr != 0x0F && (attr / 8) % 2 == 0 }
  }

  function DirentAt(v: Volume, sector: nat, i: nat): (d: Dirent)
    ensures |d.name| == 11 && d.cluster < W32 && d.size < W32
  {
    var at := 32 * i;
    Dirent(seq<byte>(11, j requires 0 <= j < 11 => v.disk(sector, at + j)), v.disk(sector, at + 11),
           Word16(v, sector, at + 20) * 0x1_0000 + Word16(v, sector, at + 26), Word32(v, sector, at + 28))
  }

  /** Entry `k` of the root directory, in chain order. */
  function RootSector(v: Volume, k: nat): nat
    requires v.Valid()
  {
    (FirstSector(v, ChainAt(v, v.root, k / 16 / v.spc)) + (k / 16) % v.spc) % W32
  }

  function RootEntry(v: Volume, k: nat): (d: Dirent)
    requires v.Valid()
    ensures |d.name| == 11
  {
    DirentAt(v, RootSector(v, k), k % 16)
  }

  /** Entry `k` of a directory, by its 32 bytes: name, attributes, first cluster in two halves, and
      size. */
  ghost predicate EntryBytes(dir: seq<byte>, k: nat, d: Dirent) {
    && 32 * k + 32 <= |dir| && d.cluster < W32 && d.size < W32
    && dir[32 * k..32 * k + 11] == d.name && dir[32 * k + 11] == d.attr
    && dir[32 * k + 26] == ByteOf(d.cluster, 0) && dir[32 * k + 27] == ByteOf(d.cluster, 1)
    && dir[32 * k + 20] == ByteOf(d.cluster, 2) && dir[32 * k + 21] == ByteOf(d.cluster, 3)
    && dir[32 * k + 28] == ByteOf(d.size, 0) && dir[32 * k + 29] == ByteOf(d.size, 1)
    && dir[32 * k + 30] == ByteOf(d.size, 2) && dir[32 * k + 31] == ByteOf(d.size, 3)
  }

  /** The root directory is read like a file: byte `j` of entry `k` is byte 32 * k + j. */
  lemma EntryByte(v: Volume, k: nat, j: nat)
    requires v.Valid() && j < 32
    ensures v.disk(RootSector(v, k), 32 * (k % 16) + j) == FileByte(v, v.root, 32 * k + j)
    ensures Readable(v, k) <==> Available(v, v.root, 32 * k + j)
  {
    hide ChainAt, FirstSector;
    Quotient(32 * k + j, 512, k / 16, 32 * (k % 16) + j);
  }

  /** The entry lies on the disk where the driver looks for it. */
  lemma EntryThere(v: Volume, clusters: seq<nat>, last: nat, dir: seq<byte>, k: nat)
    requires v.Valid() && Stored(v, clusters, last, dir) && clusters[0] == v.root && 32 * k + 32 <= |dir|
    ensures Readable(v, k) && DiskBytes(v, RootSector(v, k), 32 * (k % 16), 32) == dir[32 * k..32 * k + 32]
  {
    hide Stored, RootSector, FileByte, Available, Readable;
    var bytes, piece := DiskBytes(v, RootSector(v, k), 32 * (k % 16), 32), dir[32 * k..32 * k + 32];
    forall j: nat | j < 32 ensures bytes[j] == piece[j] {
      EntryByte(v, k, j);
      StoredByte(v, clusters, last, dir, 32 * k + j);
    }
    EntryByte(v, k, 0);
    StoredByte(v, clusters, last, dir, 32 * k);
  }

  /** What is stored in an entry is what the driver takes from it. */
  lemma EntryRoundTrip(v: Volume, clusters: seq<nat>, last: nat, dir: seq<byte>, k: nat, d: Dirent)
    requires v.Valid() && Stored(v, clusters, last, dir) && clusters[0] == v.root && EntryBytes(dir, k, d)
    ensures Readable(v, k) && RootEntry(v, k) == d
  {
    hide Stored, RootSector, ByteOf, Readable, DiskBytes;
    EntryThere(v, clusters, last, dir, k);
    EntryFields(v, RootSector(v, k), k % 16, dir, k, d);
  }

  /** Name and attributes of any entry. */
  lemma EntryHead(v: Volume, clusters: seq<nat>, last: nat, dir: seq<byte>, k: nat)
    requires v.Valid() && Stored(v, clusters, last, dir) && clusters[0] == v.root && 32 * k + 32 <= |dir|
    ensures Readable(v, k) && RootEntry(v, k).name == dir[32 * k..32 * k + 11]
      && RootEntry(v, k).attr == dir[32 * k + 11]
  {
    hide Stored, RootSector, Readable;
    EntryThere(v, clusters, last, dir, k);
    var d, sector, at := RootEntry(v, k), RootSector(v, k), 32 * (k % 16);
    var bytes, piece := DiskBytes(v, sector, at, 32), dir[32 * k..32 * k + 32];
    assert bytes[11] == piece[11];
    forall j: nat | j < 11 ensures d.name[j] == dir[32 * k..32 * k + 11][j] { assert bytes[j] == piece[j]; }
  }

  /** Entry `k` of the directory is not deleted, is no long-name entry (attributes 0x0F), and no
      volume label (bit 3). */
  ghost predicate InSight(dir: seq<byte>, k: nat)
    requires 32 * k + 32 <= |dir|
  {
    dir[32 * k] != 0xE5 && dir[32 * k + 11] != 0x0F && (dir[32 * k + 11] / 8) % 2 == 0
  }

  /** Entry `k` of the directory is the first with this name in sight before the end marker. */
  ghost predicate HasName(dir: seq<byte>, k: nat, name: seq<byte>) {
    && 32 * k + 32 <= |dir| && dir[32 * k] != 0 && InSight(dir, k) && dir[32 * k..32 * k + 11] == name
    && forall j: nat | j < k :: dir[32 * j] != 0 && !(InSight(dir, j) && dir[32 * j..32 * j + 11] == name)
  }

  /** That is the entry which opens, and it is listed with its size and attributes. */
  lemma StoredMatch(v: Volume, clusters: seq<nat>, last: nat, dir: seq<byte>, k: nat, name: seq<byte>, d: Dirent)
    requires v.Valid() && Stored(v, clusters, last, dir) && clusters[0] == v.root
    requires HasName(dir, k, name) && EntryBytes(dir, k, d)
    ensures FirstMatch(v, name, k) && RootEntry(v, k) == d
    ensures forall i: nat | FirstMatch(v, name, i) :: i == k
    ensures forall n: nat | k < n :: Listed(CString(Printed(name)), d.size, d.attr) in ListUpTo(v, n)
  {
    hide Stored, EntryBytes, Readable, ListUpTo, Printed, CString;
    EntryRoundTrip(v, clusters, last, dir, k, d);
    hide RootEntry;
    forall j: nat | j <= k
      ensures Readable(v, j) && RootEntry(v, j).name == dir[32 * j..32 * j + 11]
        && RootEntry(v, j).attr == dir[32 * j + 11]
    {
      EntryHead(v, clusters, last, dir, j);
    }
    forall n: nat | k < n ensures Listed(CString(Printed(name)), d.size, d.attr) in ListUpTo(v, n) {
      OpenedIsListed(v, name, k, n);
    }
  }

  /** The file lies in the chain of a cluster. */
  ghost predicate StoredFrom(v: Volume, first: nat, content: seq<byte>) {
    exists clusters, last :: Stored(v, clusters, last, content) && clusters[0] == first
  }

  lemma StoredFromComplete(v: Volume, first: nat, content: seq<byte>)
    requires v.Valid() && StoredFrom(v, first, content)
    ensures Complete(v, first, |content|) && Bytes(v, first, 0, |content|) == content
  {
    hide Stored, Complete, Bytes;
    var clusters, last :| Stored(v, clusters, last, content) && (StoredNotEmpty(v, clusters, last, content);
      clusters[0] == first);
    StoredComplete(v, clusters, last, content);
  }

  /** A file of this name and content is on the disk: an entry of the root directory, which is a file
      itself, gives its first cluster and its size. */
  ghost predicate OnDisk(v: Volume, name: seq<byte>, content: seq<byte>) {
    exists dir, k, d :: StoredFrom(v, v.root, dir) && HasName(dir, k, name) && EntryBytes(dir, k, d)
      && StoredFrom(v, d.cluster, content) && d.size == |content|
  }

  /** Entry `k` alone is found under this name, and all of the content is there. */
  ghost predicate IsFile(v: Volume, name: seq<byte>, content: seq<byte>, k: nat)
    requires v.Valid()
  {
    && FirstMatch(v, name, k) && (forall i: nat | FirstMatch(v, name, i) :: i == k)
    && var d := RootEntry(v, k);
       d.size == |content| && Complete(v, d.cluster, d.size) && Bytes(v, d.cluster, 0, d.size) == content
  }

  /** So it is for a file that is on the disk. */
  lemma OnDiskFound(v: Volume, name: seq<byte>, content: seq<byte>) returns (k: nat)
    requires v.Valid() && OnDisk(v, name, content)
    ensures IsFile(v, name, content, k)
  {
    hide StoredFrom, HasName, EntryBytes, FirstMatch, RootEntry, Complete, Bytes;
    var dir, k0, d :| StoredFrom(v, v.root, dir) && HasName(dir, k0, name) && EntryBytes(dir, k0, d)
      && StoredFrom(v, d.cluster, content) && d.size == |content|;
    k := k0;
    StoredFromMatch(v, dir, k, name, d);
    StoredFromComplete(v, d.cluster, content);
  }

  lemma StoredFromMatch(v: Volume, dir: seq<byte>, k: nat, name: seq<byte>, d: Dirent)
    requires v.Valid() && StoredFrom(v, v.root, dir) && HasName(dir, k, name) && EntryBytes(dir, k, d)
    ensures FirstMatch(v, name, k) && RootEntry(v, k) == d && forall i: nat | FirstMatch(v, name, i) :: i == k
  {
    hide Stored, HasName, EntryBytes, FirstMatch, RootEntry;
    var clusters, last :| Stored(v, clusters, last, dir) && (StoredNotEmpty(v, clusters, last, dir);
      clusters[0] == v.root);
    StoredMatch(v, clusters, last, dir, k, name, d);
  }

  /** A disk with one file, HELLO.TXT, whose content is "Hi!": FAT at sector 32, root directory in
      cluster 2 and file in cluster 3, one sector each, from sector 40 on. */
  function HelloDisk(): Volume {
    Volume((sector, at) => HelloByte(sector, at), {}, 1, 32, 40, 2)
  }

  function HelloByte(sector: nat, at: nat): byte {
    if sector == 32 then HelloFat(at) else if sector == 40 then HelloDir(at) else HelloText(at)
  }

  function HelloFat(at: nat): byte { if at % 4 == 3 then 0x0F else 0xFF }

  function HelloText(at: nat): byte { if at == 0 then 72 else if at == 1 then 105 else 33 }

  function HelloName(): seq<byte> { [72, 69, 76, 76, 79, 32, 32, 32, 84, 88, 84] }

  function HelloDir(at: nat): byte {
    if at < 11 then HelloName()[at] else if at == 11 then 0x20 else if at == 26 || at == 28 then 3 else 0
  }

  lemma HelloLinked(cluster: nat)
    requires 2 <= cluster <= 3
    ensures Linked(HelloDisk(), cluster, 0x0FFF_FFFF)
  {
    hide HelloDir, HelloText, HelloName, HelloFat, ByteOf;
    var at := 4 * cluster % 512;
    assert 4 * cluster / 512 == 0 && (at == 8 || at == 12);
    forall j: nat | j < 4 ensures HelloFat(at + j) == ByteOf(0x0FFF_FFFF, j) { HelloMarker(at, j); }
  }

  lemma HelloMarker(at: nat, j: nat)
    requires (at == 8 || at == 12) && j < 4
    ensures HelloFat(at + j) == ByteOf(0x0FFF_FFFF, j)
  {
    var n: nat := 0x0FFF_FFFF;
    assert ByteOf(n, 1) == ByteOf(0x0F_FFFF, 0) && ByteOf(n, 2) == ByteOf(0x0F_FFFF, 1) == ByteOf(0x0FFF, 0);
    assert ByteOf(n, 3) == ByteOf(0x0F_FFFF, 2) == ByteOf(0x0FFF, 1) == ByteOf(0x0F, 0);
  }

  lemma HelloFields()
    ensures var v := HelloDisk(); v.bad == {} && v.spc == 1 && v.dataStart == 40 && v.ClusterBytes() == 512
  {
  }

  lemma HelloStored(cluster: nat, content: seq<byte>)
    requires 2 <= cluster <= 3 && |content| <= 512
    requires forall i | 0 <= i < |content| :: content[i] == HelloDisk().disk(38 + cluster, i)
    ensures StoredFrom(HelloDisk(), cluster, content)
  {
    hide HelloDisk, Linked;
    var v, clusters, last := HelloDisk(), [cluster], 0x0FFF_FFFF;
    HelloFields();
    HelloLinked(cluster);
    forall j: nat, s: nat, o: nat | j < 1 && s < v.spc && o < 512
      ensures Piece(v, clusters[j], s, o, content, ClusterStart(v, j)) { }
    hide Piece;
    assert Stored(v, clusters, last, content);
  }

  function HelloRoot(): (dir: seq<byte>)
    ensures |dir| == 32
  {
    seq<byte>(32, i requires 0 <= i < 32 => HelloDir(i))
  }

  lemma HelloEntry()
    ensures HasName(HelloRoot(), 0, HelloName())
    ensures EntryBytes(HelloRoot(), 0, Dirent(HelloName(), 0x20, 3, 3))
  {
    var dir := HelloRoot();
    assert dir[32 * 0..32 * 0 + 11] == HelloName();
    assert ByteOf(3, 0) == 3 && ByteOf(3, 1) == 0 && ByteOf(3, 2) == 0 && ByteOf(3, 3) == 0;
  }

  /** So files on the disk as `OnDisk` has them do exist. */
  lemma HelloOnDisk()
    ensures Target([104, 101, 108, 108, 111, 46, 116, 120, 116]) == HelloName()
    ensures HelloDisk().Valid() && OnDisk(HelloDisk(), HelloName(), [72, 105, 33])
  {
    HelloTarget();
    var text: seq<byte> := [72, 105, 33];
    assert forall i | 0 <= i < 3 :: text[i] == HelloText(i);
    HelloStored(2, HelloRoot());
    HelloStored(3, text);
    HelloEntry();
    hide HasName, EntryBytes, StoredFrom, HelloRoot;
    var v, dir, d := HelloDisk(), HelloRoot(), Dirent(HelloName(), 0x20, 3, 3);
    assert StoredFrom(v, v.root, dir) && HasName(dir, 0, HelloName()) && EntryBytes(dir, 0, d);
  }

  lemma HelloTarget()
    ensures Target([104, 101, 108, 108, 111, 46, 116, 120, 116]) == HelloName()
  {
    hide Target;
    TargetOf([104, 101, 108, 108, 111], [116, 120, 116]);
    assert [104, 101, 108, 108, 111] + [DOT] + [116, 120, 116] == [104, 101, 108, 108, 111, 46, 116, 120, 116];
  }

  function DiskBytes(v: Volume, sector: nat, at: nat, n: nat): seq<byte> {
    seq<byte>(n, j requires 0 <= j < n => v.disk(sector, at + j))
  }

  lemma EntryFields(v: Volume, sector: nat, i: nat, dir: seq<byte>, k: nat, d: Dirent)
    requires EntryBytes(dir, k, d) && DiskBytes(v, sector, 32 * i, 32) == dir[32 * k..32 * k + 32]
    ensures DirentAt(v, sector, i) == d
  {
    hide ByteOf;
    var at, e := 32 * i, DirentAt(v, sector, i);
    var bytes, piece := DiskBytes(v, sector, at, 32), dir[32 * k..32 * k + 32];
    forall j: nat | j < 32 ensures v.disk(sector, at + j) == piece[j] == dir[32 * k + j] {
      assert bytes[j] == piece[j];
    }
    assert v.disk(sector, at + 20) == dir[32 * k + 20] && v.disk(sector, at + 21) == dir[32 * k + 21];
    assert v.disk(sector, at + 26) == dir[32 * k + 26] && v.disk(sector, at + 27) == dir[32 * k + 27];
    assert v.disk(sector, at + 28) == dir[32 * k + 28] && v.disk(sector, at + 29) == dir[32 * k + 29];
    assert v.disk(sector, at + 30) == dir[32 * k + 30] && v.disk(sector, at + 31) == dir[32 * k + 31];
    assert v.disk(sector, at + 11) == dir[32 * k + 11];
    FourBytes(d.cluster);
    FourBytes(d.size);
    assert e.cluster == d.cluster && e.size == d.size && e.attr == d.attr;
    forall j: nat | j < 11 ensures e.name[j] == d.name[j] { assert d.name[j] == dir[32 * k + j]; }
  }

  /** The scan of the root directory gets to entry `k`, which is not the end marker. */
  ghost predicate Reached(v: Volume, k: nat)
    requires v.Valid()
  {
    forall j: nat | j <= k :: Readable(v, j) && !RootEntry(v, j).IsEnd()
  }

  predicate Readable(v: Volume, k: nat)
    requires v.Valid()
  {
    ChainAt(v, v.root, k / 16 / v.spc) < EOC && RootSector(v, k) !in v.bad
  }

  /** Entry `k` is the first visible one before the end marker with this name. */
  ghost predicate FirstMatch(v: Volume, name: seq<byte>, k: nat)
    requires v.Valid()
  {
    && Reached(v, k) && RootEntry(v, k).Visible() && RootEntry(v, k).name == name
    && forall j: nat | j < k :: !(RootEntry(v, j).Visible() && RootEntry(v, j).name == name)
  }

  datatype Listed = Listed(name: seq<byte>, size: nat, attr: nat)

  /** What `fat_list_root` reports of the first `k` entries. */
  function ListUpTo(v: Volume, k: nat): seq<Listed>
    requires v.Valid()
  {
    if k == 0 then [] else
    var d := RootEntry(v, k - 1);
    ListUpTo(v, k - 1) + (if d.Visible() then [Listed(CString(Printed(d.name)), d.size, d.attr)] else [])
  }

  // ---------------------------------------------------------------- names

  const SPACE: byte := 32
  const DOT: byte := 46

  function Upper(c: byte): byte {
    if 97 <= c <= 122 then c - 32 else c
  }

  function FirstOf(s: seq<byte>, c: byte): (r: nat)
    ensures r <= |s| && (forall i | 0 <= i < r :: s[i] != c) && (r < |s| ==> s[r] == c)
  {
    if s == [] || s[0] == c then 0 else 1 + FirstOf(s[1..], c)
  }

  /** The characters of a C string before its terminator. */
  function CString(s: seq<byte>): (r: seq<byte>)
    ensures 0 !in r
  {
    s[..FirstOf(s, 0)]
  }

  /** The 11 bytes that `fat_name_match` compares with: up to 8 characters before the first dot,
      up to 3 behind it, in upper case, padded with spaces. */
  function Target(path: seq<byte>): (r: seq<byte>)
    ensures |r| == 11
  {
    var dot := FirstOf(path, DOT);
    seq<byte>(11, j requires 0 <= j < 11 => TargetByte(path, dot, j))
  }

  function TargetByte(path: seq<byte>, dot: nat, j: nat): byte
    requires dot <= |path|
  {
    if j < 8 then (if j < dot then Upper(path[j]) else SPACE)
    else if dot + 1 + (j - 8) < |path| then Upper(path[dot + 1 + (j - 8)]) else SPACE
  }

  /** The string that `fat_list_root` builds of a name. */
  function Printed(name: seq<byte>): seq<byte>
    requires |name| == 11
  {
    name[..FirstOf(name[..8], SPACE)]
    + (if name[8] != SPACE then [DOT] + name[8..][..FirstOf(name[8..], SPACE)] else [])
  }

  /** Spaces at the end only. */
  predicate Padded(s: seq<byte>) {
    forall i | FirstOf(s, SPACE) <= i < |s| :: s[i] == SPACE
  }

  /** No terminator and no lower-case letter. */
  predicate PlainChars(s: seq<byte>) {
    forall i | 0 <= i < |s| :: s[i] != 0 && Upper(s[i]) == s[i]
  }

  /** A name in the form that the FAT32 specification prescribes, as far as it matters here. */
  predicate ShortName(name: seq<byte>)
    requires |name| == 11
  {
    PlainChars(name) && Padded(name[..8]) && Padded(name[8..]) && DOT !in name[..8]
  }

  lemma NoZero(s: seq<byte>)
    requires 0 !in s
    ensures CString(s) == s
  {
    FirstOfIs(s, 0, |s|);
  }

  /** What every target looks like: it is a short name. */
  lemma TargetShort(path: seq<byte>)
    requires 0 !in path
    ensures forall i | 0 <= i < 11 :: Target(path)[i] != 0 && Upper(Target(path)[i]) == Target(path)[i]
    ensures DOT !in Target(path)[..8]
  {
    var t, dot := Target(path), FirstOf(path, DOT);
    forall i | 0 <= i < 11 ensures t[i] != 0 && Upper(t[i]) == t[i] && (i < 8 ==> t[i] != DOT) {
      assert t[i] == TargetByte(path, dot, i);
      if i < 8 && i < dot { assert path[i] in path; }
      if i >= 8 && dot + 1 + (i - 8) < |path| { assert path[dot + 1 + (i - 8)] in path; }
    }
  }

  /** The target of base.ext: both parts in upper case, padded to 8 and 3 characters. */
  lemma TargetOf(base: seq<byte>, ext: seq<byte>)
    requires |base| <= 8 && |ext| <= 3 && DOT !in base
    ensures var t := Target(base + [DOT] + ext);
      && (forall i | 0 <= i < 8 :: t[i] == if i >= |base| then 32
            else if 97 <= base[i] <= 122 then base[i] - 32 else base[i])
      && (forall i | 8 <= i < 11 :: t[i] == if i - 8 >= |ext| then 32
            else if 97 <= ext[i - 8] <= 122 then ext[i - 8] - 32 else ext[i - 8])
  {
    var path := base + [DOT] + ext;
    assert forall i | 0 <= i < |base| :: path[i] == base[i];
    FirstOfIs(path, DOT, |base|);
    forall i | 0 <= i < 11 ensures Target(path)[i] == TargetByte(path, |base|, i) { }
  }

  /** A printed name parses back to the same 11 bytes exactly when it is a short name. */
  lemma NameRoundTrip(name: seq<byte>)
    requires |name| == 11
    ensures Target(CString(Printed(name))) == name <==> ShortName(name)
  {
    if ShortName(name) { ShortNameBack(name); }
    if Target(CString(Printed(name))) == name { BackIsShort(name); }
  }

  lemma ShortNameBack(name: seq<byte>)
    requires |name| == 11 && ShortName(name)
    ensures Target(CString(Printed(name))) == name
  {
    var p := Printed(name);
    var b, e := FirstOf(name[..8], SPACE), FirstOf(name[8..], SPACE);
    forall i | 0 <= i < |p| ensures p[i] != 0 && (i < b ==> p[i] == name[i] != DOT) && (i == b ==> p[i] == DOT)
        && (i > b ==> p[i] == name[8 + (i - b - 1)]) {
      if i < b { assert name[i] in name[..8]; }
    }
    NoZero(p);
    FirstOfIs(p, DOT, b);
    forall j | 0 <= j < 11 ensures Target(p)[j] == name[j] {
      assert Target(p)[j] == TargetByte(p, b, j);
      if j < 8 && j >= b { assert name[..8][j] == SPACE; }
      if j >= 8 && j - 8 >= e { assert name[8..][j - 8] == SPACE; }
      if 8 <= j && j - 8 < e { assert name[8..][0] != SPACE; assert |p| == b + 1 + e; }
    }
  }

  lemma {:induction false} FirstOfIs(s: seq<byte>, c: byte, r: nat)
    requires r <= |s| && (forall i | 0 <= i < r :: s[i] != c) && (r < |s| ==> s[r] == c)
    ensures FirstOf(s, c) == r
  {
    if r == 0 {
    } else {
      FirstOfIs(s[1..], c, r - 1);
    }
  }

  lemma BackIsShort(name: seq<byte>)
    requires |name| == 11 && Target(CString(Printed(name))) == name
    ensures ShortName(name)
  {
    var s := CString(Printed(name));
    TargetShort(s);
    PrintedParts(name);
    var dot := FirstOf(s, DOT);
    var b, e := FirstOf(name[..8], SPACE), FirstOf(name[8..], SPACE);
    forall i | b <= i < 8 ensures name[..8][i] == SPACE {
      assert name[i] == TargetByte(s, dot, i);
      assert dot <= b;
    }
    forall i | e <= i < 3 ensures name[8..][i] == SPACE {
      assert name[8 + i] == TargetByte(s, dot, 8 + i);
      ExtPadded(name, i);
    }
  }

  /** The printed string before its first dot is not longer than the base name. */
  lemma PrintedParts(name: seq<byte>)
    requires |name| == 11
    ensures FirstOf(CString(Printed(name)), DOT) <= FirstOf(name[..8], SPACE)
  {
    var p := Printed(name);
    var s := CString(p);
    var b := FirstOf(name[..8], SPACE);
    if |s| > b { assert s[b] == p[b] == DOT; }
  }

  lemma ExtPadded(name: seq<byte>, i: nat)
    requires |name| == 11 && Target(CString(Printed(name))) == name && FirstOf(name[8..], SPACE) <= i < 3
    ensures name[8 + i] == SPACE
  {
    var p := Printed(name);
    var s := CString(p);
    var b, e, dot := FirstOf(name[..8], SPACE), FirstOf(name[8..], SPACE), FirstOf(s, DOT);
    TargetShort(s);
    PrintedParts(name);
    assert name[8 + i] == TargetByte(s, dot, 8 + i);
    assert |s| <= |p|;
    assert dot >= b by { assert forall j | 0 <= j < 8 :: name[..8][j] == name[j] && name[j] != DOT; }
    assert |p| <= b + 1 + e;
  }

  /** With unique names, what is listed opens to its own entry. */
  lemma ListedOpens(v: Volume, k: nat)
    requires v.Valid() && Reached(v, k) && RootEntry(v, k).Visible() && ShortName(RootEntry(v, k).name)
    requires forall j: nat | j < k && RootEntry(v, j).Visible() :: RootEntry(v, j).name != RootEntry(v, k).name
    ensures FirstMatch(v, Target(CString(Printed(RootEntry(v, k).name))), k)
  {
    NameRoundTrip(RootEntry(v, k).name);
  }

  /** What opens is listed: the entry that a name opens is in every listing that gets beyond it. */
  lemma {:induction false} OpenedIsListed(v: Volume, name: seq<byte>, k: nat, n: nat)
    requires v.Valid() && FirstMatch(v, name, k) && k < n
    ensures Listed(CString(Printed(name)), RootEntry(v, k).size, RootEntry(v, k).attr) in ListUpTo(v, n)
    decreases n
  {
    hide RootEntry, Printed, CString;
    if n == k + 1 {
    } else {
      OpenedIsListed(v, name, k, n - 1);
    }
  }
}
