/** A FAT16 partition as the format lays it out, one part after the other, and what the reader of
    `Fat16` gives on a disk that holds it. Nothing here is defined by the reader's arithmetic. */
module Fat16Image {
  import opened Arithmetic
  import opened Common
  import opened Disks
  import opened Fat16

  /** Reserved sectors, copies of the allocation table, root directory, clusters from number 2 on. */
  datatype Image = Image(boot: seq<byte>, tables: seq<seq<byte>>, root: seq<byte>, data: seq<byte>)

  const RECORD := 32

  /** The parts have the sizes the boot sector gives. The root directory takes whole sectors, as few
      as hold its records. */
  ghost predicate Sized(v: Volume, im: Image) {
    && |im.boot| == SECTOR * v.reserved
    && |im.tables| == v.tableCount >= 1 && (forall i :: 0 <= i < |im.tables| ==> |im.tables[i]| == SECTOR * v.tableSize)
    && |im.root| % SECTOR == 0 && v.rootEntries * RECORD <= |im.root| < v.rootEntries * RECORD + SECTOR
  }

  function Joined(parts: seq<seq<byte>>): seq<byte> {
    if parts == [] then [] else parts[0] + Joined(parts[1..])
  }

  function Bytes(im: Image): seq<byte> {
    im.boot + (Joined(im.tables) + (im.root + im.data))
  }

  /** The disk has these bytes from sector `lba` on. */
  ghost predicate Stored(d: Disk, lba: nat, bytes: seq<byte>) {
    forall n :: 0 <= n < |bytes| ==> StoredAt(d, lba, n, bytes[n])
  }

  ghost predicate StoredAt(d: Disk, lba: nat, n: nat, x: byte) {
    lba + n / SECTOR in d && d[lba + n / SECTOR][n % SECTOR] == x
  }

  ghost predicate Formatted(v: Volume, d: Disk, im: Image) {
    Sized(v, im) && Stored(d, v.startLba, Bytes(im)) && v.startLba + |Bytes(im)| < WORD
  }

  // ------------------------------------------------------------------
  // Where the parts lie
  // ------------------------------------------------------------------

  /** What follows a part of whole sectors starts on the sector after it. */
  lemma StoredRest(d: Disk, lba: nat, a: seq<byte>, b: seq<byte>, n: nat)
    requires Stored(d, lba, a + b) && |a| == SECTOR * n
    ensures Stored(d, lba, a) && Stored(d, lba + n, b)
  {
    hide StoredAt;
    forall i | 0 <= i < |a| ensures StoredAt(d, lba, i, a[i]) { assert (a + b)[i] == a[i]; }
    forall i | 0 <= i < |b| ensures StoredAt(d, lba + n, i, b[i]) {
      assert (a + b)[|a| + i] == b[i];
      Shifted(d, lba, n, i, b[i]);
    }
  }

  lemma Shifted(d: Disk, lba: nat, n: nat, i: nat, x: byte)
    requires StoredAt(d, lba, SECTOR * n + i, x)
    ensures StoredAt(d, lba + n, i, x)
  {
    assert (SECTOR * n + i) / SECTOR == n + i / SECTOR && (SECTOR * n + i) % SECTOR == i % SECTOR;
  }

  lemma {:induction false} JoinedLength(parts: seq<seq<byte>>, size: nat)
    requires forall i :: 0 <= i < |parts| ==> |parts[i]| == SECTOR * size
    ensures |Joined(parts)| == SECTOR * (|parts| * size)
  {
    if parts != [] {
      JoinedLength(parts[1..], size);
      assert |parts| * size == (|parts| - 1) * size + size;
    }
  }

  /** The first allocation table follows the reserved sectors, the root directory the last table,
      and the clusters the root directory. */
  lemma Parts(v: Volume, d: Disk, im: Image)
    requires Formatted(v, d, im)
    ensures Stored(d, v.startLba + v.reserved, im.tables[0])
    ensures Stored(d, RootDirSector(v), im.root) && FirstDataSector(v) == RootDirSector(v) + |im.root| / SECTOR
    ensures Stored(d, FirstDataSector(v), im.data)
  {
    hide Stored;
    var tables, rest := Joined(im.tables), im.root + im.data;
    JoinedLength(im.tables, v.tableSize);
    MulNat(v.tableCount, v.tableSize);
    StoredRest(d, v.startLba, im.boot, tables + rest, v.reserved);
    StoredRest(d, v.startLba + v.reserved, tables, rest, v.tableCount * v.tableSize);
    StoredRest(d, v.startLba + v.reserved, im.tables[0], Joined(im.tables[1..]), v.tableSize);
    assert |im.root| == SECTOR * (|im.root| / SECTOR);
    StoredRest(d, RootDirSector(v), im.root, im.data, |im.root| / SECTOR);
  }

  /** Every byte of every root record lies between the tables and the first cluster. */
  lemma RootRecords(v: Volume, d: Disk, im: Image, e: nat, k: nat)
    requires Formatted(v, d, im) && e < v.rootEntries && k < RECORD
    ensures var n := RECORD * e + k; n < |im.root| && StoredAt(d, RootDirSector(v), n, im.root[n])
    ensures RootDirSector(v) <= RootDirSector(v) + (RECORD * e + k) / SECTOR < FirstDataSector(v) == ClusterToSector(v, 2)
  {
    hide RootDirSector, FirstDataSector;
    Parts(v, d, im);
    BytesSpan(v, d, im);
    assert StoredAt(d, RootDirSector(v), RECORD * e + k, im.root[RECORD * e + k]);
    NoWrap(v, 2);
  }

  /** The partition ends where its bytes end. */
  lemma BytesSpan(v: Volume, d: Disk, im: Image)
    requires Formatted(v, d, im)
    ensures v.startLba <= FirstDataSector(v) && SECTOR * (FirstDataSector(v) - v.startLba) + |im.data| == |Bytes(im)|
  {
    hide Stored, FirstDataSector;
    JoinedLength(im.tables, v.tableSize);
    MulNat(v.tableCount, v.tableSize);
    Parts(v, d, im);
    assert |im.root| == SECTOR * (|im.root| / SECTOR);
  }

  /** Byte `j` of cluster `c` is byte `j` of its stretch of the data. */
  lemma ClusterStored(v: Volume, d: Disk, im: Image, c: nat, j: nat)
    requires Formatted(v, d, im) && c >= 2 && (c - 1) * ClusterSize(v) <= |im.data| && j < ClusterSize(v)
    ensures 0 <= (c - 2) * ClusterSize(v) + j < |im.data|
    ensures StoredAt(d, SectorOf(v, c, 0), j, im.data[(c - 2) * ClusterSize(v) + j])
  {
    hide FirstDataSector, StoredAt, ClusterToSector;
    var before := (c - 2) * v.sectorsPerCluster;
    MulNat(c - 2, v.sectorsPerCluster);
    assert (c - 1) * ClusterSize(v) == (c - 2) * ClusterSize(v) + ClusterSize(v);
    assert (c - 2) * ClusterSize(v) == SECTOR * before;
    Parts(v, d, im);
    var n := SECTOR * before + j;
    assert StoredAt(d, FirstDataSector(v), n, im.data[n]);
    Shifted(d, FirstDataSector(v), before, j, im.data[n]);
    BytesSpan(v, d, im);
    NoWrap(v, c);
  }

  // ------------------------------------------------------------------
  // Files
  // ------------------------------------------------------------------

  /** Entry `n` of the first allocation table. */
  function Link(im: Image, n: nat): nat
    requires im.tables != [] && 2 * n + 1 < |im.tables[0]|
  {
    im.tables[0][2 * n] as int + 256 * (im.tables[0][2 * n + 1] as int)
  }

  /** `c` is a cluster of the partition with an entry in its table. */
  predicate InPartition(v: Volume, im: Image, c: nat) {
    im.tables != [] && 2 <= c && 2 * c + 1 < |im.tables[0]| && (c - 1) * ClusterSize(v) <= |im.data|
  }

  /** The chain of a file: linked in the table, with an end mark behind the last cluster. */
  ghost predicate Linked(v: Volume, im: Image, chain: seq<nat>) {
    && chain != [] && (forall n :: 0 <= n < |chain| ==> InPartition(v, im, chain[n]))
    && (forall n :: 0 < n < |chain| ==> Link(im, chain[n - 1]) == chain[n] < 0xFFF8)
    && Link(im, chain[|chain| - 1]) >= 0xFFF8
  }

  /** The stretch of the data that is cluster `c`. */
  function Stretch(v: Volume, im: Image, c: nat): seq<byte>
    requires InPartition(v, im, c)
  {
    assert (c - 1) * ClusterSize(v) == (c - 2) * ClusterSize(v) + ClusterSize(v);
    MulNat(c - 2, ClusterSize(v));
    im.data[(c - 2) * ClusterSize(v)..(c - 1) * ClusterSize(v)]
  }

  /** The clusters of a chain one after the other. */
  function FileBytes(v: Volume, im: Image, chain: seq<nat>): seq<byte>
    requires forall n :: 0 <= n < |chain| ==> InPartition(v, im, chain[n])
  {
    if chain == [] then [] else FileBytes(v, im, chain[..|chain| - 1]) + Stretch(v, im, chain[|chain| - 1])
  }

  lemma NextIsLink(v: Volume, d: Disk, im: Image, c: nat)
    requires Formatted(v, d, im) && InPartition(v, im, c)
    ensures NextCluster(v, d, c) == if Link(im, c) >= 0xFFF8 then None else Some(Link(im, c))
  {
    hide NextCluster;
    Parts(v, d, im);
    NextClusterEntry(v, d, c);
    assert StoredAt(d, v.startLba + v.reserved, 2 * c, im.tables[0][2 * c]);
    assert StoredAt(d, v.startLba + v.reserved, 2 * c + 1, im.tables[0][2 * c + 1]);
  }

  lemma {:induction false} FollowsChain(v: Volume, d: Disk, im: Image, chain: seq<nat>, n: nat)
    requires Formatted(v, d, im) && Linked(v, im, chain) && n <= |chain|
    ensures Follow(v, d, chain[0], n) == if n < |chain| then Some(chain[n]) else None
  {
    hide Formatted, NextCluster, Link, InPartition;
    if n > 0 {
      FollowsChain(v, d, im, chain, n - 1);
      assert InPartition(v, im, chain[n - 1]);
      NextIsLink(v, d, im, chain[n - 1]);
    }
  }

  lemma ChainReadable(v: Volume, d: Disk, im: Image, chain: seq<nat>)
    requires Formatted(v, d, im) && Linked(v, im, chain)
    ensures Chain(v, d, chain[0], chain)
  {
    hide Formatted, Follow, Link, SectorOf;
    forall n | 0 <= n < |chain| ensures Follow(v, d, chain[0], n) == Some(chain[n]) { FollowsChain(v, d, im, chain, n); }
    forall n, i | 0 <= n < |chain| && 0 <= i < v.sectorsPerCluster ensures SectorOf(v, chain[n], i) in d {
      assert InPartition(v, im, chain[n]);
      ClusterSector(v, d, im, chain[n], i);
    }
  }

  lemma ClusterSector(v: Volume, d: Disk, im: Image, c: nat, i: nat)
    requires Formatted(v, d, im) && InPartition(v, im, c) && i < v.sectorsPerCluster
    ensures SectorOf(v, c, i) in d
  {
    hide Formatted, ClusterToSector;
    ClusterStored(v, d, im, c, SECTOR * i);
  }

  lemma ClusterIsStretch(v: Volume, d: Disk, im: Image, c: nat)
    requires Formatted(v, d, im) && InPartition(v, im, c)
    requires forall i :: 0 <= i < v.sectorsPerCluster ==> SectorOf(v, c, i) in d
    ensures ClusterBytes(v, d, c) == Stretch(v, im, c)
  {
    hide Formatted, ClusterToSector;
    var a, b := ClusterBytes(v, d, c), Stretch(v, im, c);
    assert (c - 1) * ClusterSize(v) == (c - 2) * ClusterSize(v) + ClusterSize(v);
    forall j | 0 <= j < ClusterSize(v) ensures a[j] == b[j] { ClusterStored(v, d, im, c, j); }
  }

  lemma {:induction false} ConcatenationIsFile(v: Volume, d: Disk, im: Image, start: nat, chain: seq<nat>)
    requires Formatted(v, d, im) && Chain(v, d, start, chain) && forall n :: 0 <= n < |chain| ==> InPartition(v, im, chain[n])
    ensures Concatenation(v, d, start, chain) == FileBytes(v, im, chain)
  {
    hide Formatted, InPartition, ClusterBytes, Stretch, SectorOf, Follow;
    if chain != [] {
      ConcatenationIsFile(v, d, im, start, chain[..|chain| - 1]);
      ClusterIsStretch(v, d, im, chain[|chain| - 1]);
    }
  }

  /** On a formatted partition a read gives the wanted part of the file whose clusters the table
      links, all of it while the chain is long enough for the file's size. */
  lemma ReadsFile(v: Volume, d: Disk, im: Image, chain: seq<nat>, node: Node, offset: nat, len: nat, data: seq<byte>)
    requires Formatted(v, d, im) && Linked(v, im, chain) && v.sectorsPerCluster > 0
    requires node.startCluster == chain[0] && !node.isDirectory && node.size <= |FileBytes(v, im, chain)|
    requires ReadsPrefix(data, Wanted(node, offset, len), offset, Content(v, d, node.startCluster))
    ensures data == if offset >= node.size then [] else FileBytes(v, im, chain)[offset..Min(offset + len, node.size)]
  {
    hide Formatted, FileBytes, Concatenation, Content, ClusterSize;
    ChainReadable(v, d, im, chain);
    ConcatenationIsFile(v, d, im, node.startCluster, chain);
    ConcatenationBytes(v, d, node.startCluster, chain);
    assert InPartition(v, im, chain[0]);
    if offset < node.size { ReadIsSlice(v, d, node, offset, len, chain, data); }
  }
}
