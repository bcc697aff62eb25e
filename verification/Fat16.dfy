/** Reading files of a FAT16 volume (src/fs/fat/mod.rs, src/fs/fat/volume.rs). */
module Fat16 {
  import opened Arithmetic
  import opened Common
  import opened Disks

  /** The boot-sector fields the reader uses; sectors are 512 bytes. */
  datatype Volume = Volume(startLba: nat, reserved: nat, tableCount: nat, tableSize: nat, rootEntries: nat, sectorsPerCluster: nat)

  function RootDirSector(v: Volume): nat {
    v.startLba + v.reserved + v.tableCount * v.tableSize
  }

  function FirstDataSector(v: Volume): nat {
    RootDirSector(v) + (v.rootEntries * 32 + (SECTOR - 1)) / SECTOR
  }

  /** Clusters are numbered from 2; the arithmetic is on 64-bit words. */
  function ClusterToSector(v: Volume, cluster: nat): nat {
    (FirstDataSector(v) + (cluster - 2) * v.sectorsPerCluster) % WORD
  }

  /** Sector `i` of cluster `c`. */
  function SectorOf(v: Volume, c: nat, i: nat): nat {
    ClusterToSector(v, c) + i
  }

  function ClusterSize(v: Volume): nat {
    SECTOR * v.sectorsPerCluster
  }

  /** The successor of a cluster in the first allocation table; `None` at the end of the chain
      or if the table cannot be read. */
  function NextCluster(v: Volume, d: Disk, cluster: nat): Option<nat> {
    var at, index := v.startLba + v.reserved + cluster * 2 / SECTOR, cluster * 2 % SECTOR;
    if at !in d then None
    else
      assert index == cluster % 256 * 2;
      var next := LittleEndian(d[at][index..index + 2]);
      if next >= 0xFFF8 then None else Some(next)
  }

  /** Byte `j` of the first allocation table. */
  function TableByte(v: Volume, d: Disk, j: nat): Option<byte> {
    var at := v.startLba + v.reserved + j / SECTOR;
    if at in d then Some(d[at][j % SECTOR]) else None
  }

  lemma EntryPlace(c: nat)
    ensures (2 * c + 1) / SECTOR == 2 * c / SECTOR == c * 2 / SECTOR && (2 * c + 1) % SECTOR == 2 * c % SECTOR + 1 == c * 2 % SECTOR + 1
  {
    var q, r := c / 256, c % 256;
    assert c == 256 * q + r;
    assert 2 * c == SECTOR * q + 2 * r;
  }

  /** The successor is the 16-bit entry at twice the cluster number, counted through the whole
      table: an entry never straddles two sectors. */
  lemma NextClusterEntry(v: Volume, d: Disk, c: nat)
    ensures var (lo, hi) := (TableByte(v, d, 2 * c), TableByte(v, d, 2 * c + 1));
      && (lo.Some? <==> hi.Some?)
      && (lo.None? ==> NextCluster(v, d, c) == None)
      && (lo.Some? ==> var entry: nat := lo.value as int + 256 * (hi.value as int);
            NextCluster(v, d, c) == if entry >= 0xFFF8 then None else Some(entry))
  {
    EntryPlace(c);
    var at, index := v.startLba + v.reserved + c * 2 / SECTOR, c * 2 % SECTOR;
    if at in d { TwoBytes(d[at], index); }
  }

  lemma TwoBytes(b: seq<byte>, at: nat)
    requires at + 2 <= |b|
    ensures LittleEndian(b[at..at + 2]) == b[at] as int + 256 * (b[at + 1] as int)
  {
    var e := b[at..at + 2];
    assert e[1..][1..] == [] && LittleEndian(e[1..]) == e[1];
  }

  lemma NoWrap(v: Volume, c: nat)
    requires c >= 2 && FirstDataSector(v) + (c - 2) * v.sectorsPerCluster < WORD
    ensures ClusterToSector(v, c) == FirstDataSector(v) + (c - 2) * v.sectorsPerCluster
  {
    hide FirstDataSector;
  }

  /** Clusters occupy different sectors, all after the root directory. */
  lemma ClustersApart(v: Volume, a: nat, b: nat, i: nat)
    requires 2 <= a < b && i < v.sectorsPerCluster && FirstDataSector(v) + (b - 2) * v.sectorsPerCluster < WORD
    ensures FirstDataSector(v) <= SectorOf(v, a, i) < SectorOf(v, b, 0)
  {
    hide FirstDataSector, ClusterToSector;
    MulStrict(a - 2, b - 2, v.sectorsPerCluster);
    NoWrap(v, a);
    NoWrap(v, b);
  }

  // ------------------------------------------------------------------
  // What a file holds
  // ------------------------------------------------------------------

  /** The cluster `n` links down the chain. */
  function Follow(v: Volume, d: Disk, start: nat, n: nat): Option<nat> {
    if n == 0 then Some(start)
    else
      var before := Follow(v, d, start, n - 1);
      if before.None? then None else NextCluster(v, d, before.value)
  }

  /** Byte `i` of the file whose chain starts at `start`. */
  function FileByte(v: Volume, d: Disk, start: nat, i: nat): Option<byte>
    requires v.sectorsPerCluster > 0
  {
    match Follow(v, d, start, i / ClusterSize(v))
    case None => None
    case Some(c) =>
      var at := SectorOf(v, c, i % ClusterSize(v) / SECTOR);
      if at in d then Some(d[at][i % SECTOR]) else None
  }

  /** The bytes of one cluster. */
  ghost function ClusterBytes(v: Volume, d: Disk, c: nat): (r: seq<byte>)
    ensures |r| == ClusterSize(v)
    requires forall i :: 0 <= i < v.sectorsPerCluster ==> SectorOf(v, c, i) in d
  {
    seq(ClusterSize(v), j requires 0 <= j < ClusterSize(v) => d[SectorOf(v, c, j / SECTOR)][j % SECTOR])
  }

  /** `chain` is linked from `start` and every sector of it can be read. */
  ghost predicate Chain(v: Volume, d: Disk, start: nat, chain: seq<nat>) {
    && (forall n :: 0 <= n < |chain| ==> Follow(v, d, start, n) == Some(chain[n]))
    && (forall n, i :: 0 <= n < |chain| && 0 <= i < v.sectorsPerCluster ==> SectorOf(v, chain[n], i) in d)
  }

  /** The cluster contents one after the other. */
  ghost function Concatenation(v: Volume, d: Disk, start: nat, chain: seq<nat>): seq<byte>
    requires Chain(v, d, start, chain)
  {
    if chain == [] then []
    else Concatenation(v, d, start, chain[..|chain| - 1]) + ClusterBytes(v, d, chain[|chain| - 1])
  }

  lemma {:induction false} ConcatenationBytes(v: Volume, d: Disk, start: nat, chain: seq<nat>)
    requires Chain(v, d, start, chain) && v.sectorsPerCluster > 0
    ensures |Concatenation(v, d, start, chain)| == |chain| * ClusterSize(v)
    ensures forall i :: 0 <= i < |Concatenation(v, d, start, chain)| ==> FileByte(v, d, start, i) == Some(Concatenation(v, d, start, chain)[i])
  {
    hide FileByte, ClusterSize, ClusterBytes, Follow, SectorOf;
    if chain != [] {
      var n, all := |chain| - 1, Concatenation(v, d, start, chain);
      ConcatenationBytes(v, d, start, chain[..n]);
      forall i | n * ClusterSize(v) <= i < |all| ensures FileByte(v, d, start, i) == Some(all[i]) {
        LastClusterByte(v, d, start, chain, i - n * ClusterSize(v));
      }
    }
  }

  // ------------------------------------------------------------------
  // Reading
  // ------------------------------------------------------------------

  datatype Node = Node(startCluster: nat, isDirectory: bool, size: nat)

  /** How many bytes a read is after. */
  function Wanted(node: Node, offset: nat, len: nat): nat {
    if node.isDirectory || offset >= node.size || node.startCluster == 0 then 0 else Min(len, node.size - offset)
  }

  ghost function Content(v: Volume, d: Disk, start: nat): nat -> Option<byte>
    requires v.sectorsPerCluster > 0
  {
    (i: nat) => FileByte(v, d, start, i)
  }

  lemma Regroup(k: nat, n: nat, o: nat)
    ensures (k * (SECTOR * n) + o) % SECTOR == o % SECTOR
  {
    assert k * (SECTOR * n) == SECTOR * (k * n);
    SectorMod(k * n, o);
  }

  lemma SectorMod(x: nat, o: nat)
    ensures (SECTOR * x + o) % SECTOR == o % SECTOR
  {}

  /** Byte `o` of the `k`th cluster of a file. */
  lemma ByteAt(v: Volume, d: Disk, start: nat, k: nat, c: nat, o: nat)
    requires v.sectorsPerCluster > 0 && Follow(v, d, start, k) == Some(c) && o < ClusterSize(v)
    ensures FileByte(v, d, start, k * ClusterSize(v) + o)
      == if SectorOf(v, c, o / SECTOR) in d then Some(d[SectorOf(v, c, o / SECTOR)][o % SECTOR]) else None
  {
    hide Follow, SectorOf, ClusterSize;
    var size := ClusterSize(v);
    DivMod(k, size, o);
    SizeInSectors(v);
    Regroup(k, v.sectorsPerCluster, o);
  }

  lemma SizeInSectors(v: Volume)
    ensures ClusterSize(v) == SECTOR * v.sectorsPerCluster
  {}

  lemma LastClusterByte(v: Volume, d: Disk, start: nat, chain: seq<nat>, j: nat)
    requires Chain(v, d, start, chain) && chain != [] && v.sectorsPerCluster > 0 && j < ClusterSize(v)
    ensures FileByte(v, d, start, (|chain| - 1) * ClusterSize(v) + j) == Some(ClusterBytes(v, d, chain[|chain| - 1])[j])
  {
    hide Follow, FileByte;
    var n := |chain| - 1;
    assert Follow(v, d, start, n) == Some(chain[n]);
    ByteAt(v, d, start, n, chain[n], j);
    assert SectorOf(v, chain[n], j / SECTOR) in d;
  }

  lemma {:induction false} FollowEnds(v: Volume, d: Disk, start: nat, k: nat, n: nat)
    requires k <= n && Follow(v, d, start, k).None?
    ensures Follow(v, d, start, n).None?
  {
    if k < n { FollowEnds(v, d, start, k, n - 1); }
  }

  /** Nothing can be read past the end of the chain. */
  lemma PastEnd(v: Volume, d: Disk, start: nat, k: nat, o: nat)
    requires v.sectorsPerCluster > 0 && Follow(v, d, start, k).None? && o < ClusterSize(v)
    ensures FileByte(v, d, start, k * ClusterSize(v) + o).None?
  {
    DivMod(k, ClusterSize(v), o);
  }

  /** Walks `skip` links. */
  method SkipClusters(v: Volume, d: Disk, start: nat, skip: nat) returns (r: Option<nat>)
    ensures r == Follow(v, d, start, skip)
  {
    var cluster := start;
    for i := 0 to skip
      invariant Follow(v, d, start, i) == Some(cluster)
    {
      var next := NextCluster(v, d, cluster);
      if next.None? {
        FollowEnds(v, d, start, i + 1, skip);
        return None;
      }
      cluster := next.value;
    }
    return Some(cluster);
  }

  /** Fills the front of `buf` with the file's bytes from `offset` on: as many as fit and
      exist, or those before the first broken link or unreadable sector. The loops end even if
      the chain runs in a circle. */
  method Read(v: Volume, d: Disk, node: Node, offset: nat, buf: array<byte>) returns (n: nat)
    requires v.sectorsPerCluster > 0
    modifies buf
    ensures n <= buf.Length && buf[n..] == old(buf[n..])
    ensures ReadsPrefix(buf[..n], Wanted(node, offset, buf.Length), offset, Content(v, d, node.startCluster))
  {
    hide FileByte, SectorOf, NextCluster, ClusterSize;
    if node.isDirectory || offset >= node.size || node.startCluster == 0 || buf.Length == 0 { return 0; }
    var want, size := Min(buf.Length, node.size - offset), ClusterSize(v);
    ClusterNotEmpty(v);
    var skip, o := offset / size, offset % size;
    assert offset == skip * size + o;
    var found := SkipClusters(v, d, node.startCluster, skip);
    if found.None? {
      PastEnd(v, d, node.startCluster, skip, o);
      return 0;
    }
    n := ReadChain(v, d, node.startCluster, found.value, size, o, want, buf, skip, offset);
  }

  lemma ClusterNotEmpty(v: Volume)
    requires v.sectorsPerCluster > 0
    ensures ClusterSize(v) > 0
  {}

  /** The copying loop, from byte `o` of cluster `first`, the `skip`th of the file. */
  method ReadChain(v: Volume, d: Disk, start: nat, first: nat, size: nat, o0: nat, want: nat, buf: array<byte>,
                   ghost skip: nat, ghost offset: nat) returns (n: nat)
    requires v.sectorsPerCluster > 0 && size == ClusterSize(v) && Follow(v, d, start, skip) == Some(first)
    requires offset == skip * size + o0 && o0 < size && want <= buf.Length
    modifies buf
    ensures n <= want && buf[n..] == old(buf[n..])
    ensures ReadsPrefix(buf[..n], want, offset, Content(v, d, start))
  {
    hide FileByte, SectorOf, NextCluster, ClusterSize;
    var cluster, o := first, o0;
    ghost var k: nat := skip;
    n := 0;
    while n < want
      invariant 0 <= n <= want && Follow(v, d, start, k) == Some(cluster)
      invariant offset + n == k * size + o && 0 <= o < size
      invariant forall x :: offset <= x < offset + n ==> FileByte(v, d, start, x) == Some(buf[x - offset])
      invariant forall i :: n <= i < buf.Length ==> buf[i] == old(buf[i])
    {
      var at, inSector := SectorOf(v, cluster, o / SECTOR), o % SECTOR;
      if at !in d {
        ByteAt(v, d, start, k, cluster, o);
        return;
      }
      var chunk := Min(SECTOR - inSector, want - n);
      forall i | n <= i < n + chunk { buf[i] := d[at][inSector + (i - n)]; }
      SameSector(v, d, start, k, cluster, o, chunk, offset + n);
      n, o := n + chunk, o + chunk;
      if o == size {
        var next := NextCluster(v, d, cluster);
        assert Follow(v, d, start, k + 1) == next;
        assert offset + n == (k + 1) * size;
        k := k + 1;
        if next.None? {
          PastEnd(v, d, start, k, 0);
          return;
        }
        o, cluster := 0, next.value;
      }
    }
  }

  /** Bytes of one sector lie next to each other. */
  lemma SameSector(v: Volume, d: Disk, start: nat, k: nat, c: nat, o: nat, chunk: nat, base: nat)
    requires v.sectorsPerCluster > 0 && Follow(v, d, start, k) == Some(c) && o < ClusterSize(v) && base == k * ClusterSize(v) + o
    requires chunk <= SECTOR - o % SECTOR && SectorOf(v, c, o / SECTOR) in d
    ensures o + chunk <= ClusterSize(v)
    ensures forall x :: base <= x < base + chunk ==>
      FileByte(v, d, start, x) == Some(d[SectorOf(v, c, o / SECTOR)][o % SECTOR + (x - base)])
  {
    hide Follow, SectorOf, FileByte;
    forall x | base <= x < base + chunk
      ensures FileByte(v, d, start, x) == Some(d[SectorOf(v, c, o / SECTOR)][o % SECTOR + (x - base)])
    {
      var i := x - base;
      assert (o + i) / SECTOR == o / SECTOR && (o + i) % SECTOR == o % SECTOR + i;
      ByteAt(v, d, start, k, c, o + i);
    }
  }

  /** A read that the readable clusters `chain` cover is a slice of their concatenation. */
  lemma ReadIsSlice(v: Volume, d: Disk, node: Node, offset: nat, len: nat, chain: seq<nat>, data: seq<byte>)
    requires v.sectorsPerCluster > 0 && Chain(v, d, node.startCluster, chain)
    requires ReadsPrefix(data, Wanted(node, offset, len), offset, Content(v, d, node.startCluster))
    requires offset + Wanted(node, offset, len) <= |chain| * ClusterSize(v)
    ensures |Concatenation(v, d, node.startCluster, chain)| == |chain| * ClusterSize(v)
    ensures data == Concatenation(v, d, node.startCluster, chain)[offset..offset + Wanted(node, offset, len)]
  {
    hide FileByte, ClusterSize, Chain, Concatenation, Wanted;
    ConcatenationBytes(v, d, node.startCluster, chain);
    PrefixSlice(data, Wanted(node, offset, len), offset, Content(v, d, node.startCluster), Concatenation(v, d, node.startCluster, chain));
  }
}
