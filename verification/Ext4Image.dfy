/** Well-formed ext4 images and what single-block changes leave intact. */
module Ext4Image {
  import opened Arithmetic
  import opened Bits
  import opened Common
  import opened Disks
  import opened Words
  import opened Ext4Layout
  import opened Ext4Files
  import opened Ext4Directory
  import opened Ext4Volume

  /** What a block of the volume is for. */
  datatype Role = Descriptors | InodeMap | BlockMap | Table(group: nat) | FileData(ino: nat, logical: nat)

  function TableBlocks(v: Volume): nat
    requires v.blockSize > 0
  {
    CeilDiv(v.inodesPerGroup * INODE_SIZE, v.blockSize)
  }

  function TableStart(v: Volume, d: Disk, g: nat): nat
    requires BgdSector(v) in d
  {
    Descriptor(v, d, g, 8)
  }

  /** Block `x` serves `role`, where `inodes` are the inodes in use. */
  ghost predicate Holds(v: Volume, d: Disk, inodes: set<nat>, role: Role, x: nat)
    requires Geometry(v) && BgdSector(v) in d
  {
    match role
    case Descriptors => x == BgdBlock(v)
    case InodeMap => x == Descriptor(v, d, 0, 4)
    case BlockMap => x == Descriptor(v, d, 0, 0)
    case Table(g) => g * v.inodesPerGroup < v.inodesCount && TableStart(v, d, g) <= x < TableStart(v, d, g) + TableBlocks(v)
    case FileData(m, lb) => m in inodes && ReadInode(v, d, m).Ok? && PhysicalBlock(ReadInode(v, d, m).value, lb) == Some(x)
  }

  ghost predicate Mounted(v: Volume, d: Disk) {
    Geometry(v) && BgdSector(v) in d && BitmapSector(v, d, 0) in d && BitmapSector(v, d, 4) in d
  }

  /** Bit `i` of the inode bitmap is inode `i + 1`. */
  ghost predicate InodesMarked(v: Volume, d: Disk, inodes: set<nat>)
    requires Mounted(v, d)
  {
    && (forall m :: m in inodes ==> 1 <= m <= v.inodesCount && ReadInode(v, d, m).Ok?)
    && (forall m :: m in inodes && m <= BITS ==> Bit(d[BitmapSector(v, d, 4)], m - 1))
  }

  /** Bit `i` of the block bitmap is the `i`th block from the first data block on. */
  ghost predicate BlocksMarked(v: Volume, d: Disk, inodes: set<nat>)
    requires Mounted(v, d)
  {
    forall role, x: nat :: Holds(v, d, inodes, role, x) && v.firstDataBlock <= x < v.firstDataBlock + BITS ==>
      Bit(d[BitmapSector(v, d, 0)], x - v.firstDataBlock)
  }

  ghost predicate OneRoleEach(v: Volume, d: Disk, inodes: set<nat>)
    requires Mounted(v, d)
  {
    forall a, b, x: nat :: Holds(v, d, inodes, a, x) && Holds(v, d, inodes, b, x) ==> a == b
  }

  /** Every block serves one purpose, and whatever is in use is marked in its bitmap. Block numbers
      start at 0: see `HandedOutIff`. */
  ghost predicate Structured(v: Volume, d: Disk, inodes: set<nat>) {
    v.firstDataBlock == 0 && Mounted(v, d) && InodesMarked(v, d, inodes) && BlocksMarked(v, d, inodes) && OneRoleEach(v, d, inodes)
  }

  /** The bitmap marks exactly the blocks in use, as the format has it; what lies before the first
      data block is never free. */
  ghost predicate MarkedExactly(v: Volume, d: Disk, used: set<nat>) {
    && BgdSector(v) in d && BitmapSector(v, d, 0) in d
    && (forall i :: 0 <= i < BITS ==> (Bit(d[BitmapSector(v, d, 0)], i) <==> v.firstDataBlock + i in used))
    && forall x: nat :: x < v.firstDataBlock ==> x in used
  }

  /** The driver takes a bit's index for its block. On every exactly marked volume, the block handed
      out is unused exactly if the first data block is 0; otherwise it always is in use. */
  lemma HandedOutIff(v: Volume, d: Disk, e: Disk, used: set<nat>, b: nat)
    requires Reserved(v, d, e, 0, b) && MarkedExactly(v, d, used)
    ensures b !in used <==> v.firstDataBlock == 0
  {
    hide Bit;
    var map0, first := d[BitmapSector(v, d, 0)], v.firstDataBlock;
    if first > 0 && b >= first {
      assert Bit(map0, b - first);
      assert first + (b - first) in used;
    } else if first == 0 {
      assert first + b == b;
    }
  }

  // ------------------------------------------------------------------
  // Where things are
  // ------------------------------------------------------------------

  lemma FirstSector(v: Volume, b: nat)
    requires Geometry(v)
    ensures InBlock(v, b, BlockSector(v, b))
  {}

  /** Sector `j` counted from block `t` lies in block `t + j / n`. */
  lemma SectorBlock(v: Volume, t: nat, j: nat)
    requires Geometry(v)
    ensures SectorsPerBlock(v) > 0 && InBlock(v, t + j / SectorsPerBlock(v), BlockSector(v, t) + j)
  {
    var n := SectorsPerBlock(v);
    assert n > 0;
    var q, r := j / n, j % n;
    assert j == q * n + r;
    assert (t + q) * n == t * n + q * n;
  }

  /** The block an inode's slot is in. */
  function SlotBlock(v: Volume, d: Disk, ino: nat): nat
    requires Geometry(v) && ino >= 1 && BgdSector(v) in d
  {
    TableStart(v, d, GroupOf(v, ino)) + (ino - 1) % v.inodesPerGroup / 2 / SectorsPerBlock(v)
  }

  lemma TableFits(v: Volume, k: nat)
    requires Geometry(v) && k < v.inodesPerGroup
    ensures k / 2 / SectorsPerBlock(v) < TableBlocks(v)
  {
    var bs, n, tb := v.blockSize, SectorsPerBlock(v), TableBlocks(v);
    WholeSectors(v, 0);
    var q := k / 2 / n;
    assert q * n <= k / 2;
    assert q * bs == q * n * SECTOR by { WholeSectors(v, q); }
    assert q * bs <= k * INODE_SIZE < v.inodesPerGroup * INODE_SIZE;
    CeilCovers(v.inodesPerGroup * INODE_SIZE, bs);
    if q >= tb {
      if q > tb { MulStrict(tb, q, bs); }
    }
  }

  lemma CeilCovers(x: nat, n: nat)
    requires n > 0
    ensures x <= CeilDiv(x, n) * n
  {
    var q, r := (x + n - 1) / n, (x + n - 1) % n;
    assert x + n - 1 == q * n + r;
  }

  lemma GroupExists(v: Volume, ino: nat)
    requires Geometry(v) && 1 <= ino <= v.inodesCount
    ensures GroupOf(v, ino) * v.inodesPerGroup < v.inodesCount
  {
    var g, k := GroupOf(v, ino), (ino - 1) % v.inodesPerGroup;
    assert ino - 1 == g * v.inodesPerGroup + k;
  }

  /** Slots lie in the inode table of their group. */
  lemma SlotInTable(v: Volume, d: Disk, inodes: set<nat>, ino: nat)
    requires Geometry(v) && BgdSector(v) in d && 1 <= ino <= v.inodesCount
    ensures Holds(v, d, inodes, Table(GroupOf(v, ino)), SlotBlock(v, d, ino)) && InBlock(v, SlotBlock(v, d, ino), SlotOf(v, d, ino).sector)
  {
    hide Descriptor, GroupOf, BlockSector, InBlock, SectorsPerBlock, SlotOf, TableBlocks;
    var k := (ino - 1) % v.inodesPerGroup;
    SlotShape(v, d, ino);
    SectorBlock(v, TableStart(v, d, GroupOf(v, ino)), k / 2);
    TableFits(v, k);
    GroupExists(v, ino);
  }

  /** Different inodes have different slots. */
  lemma SlotsDiffer(v: Volume, d: Disk, inodes: set<nat>, a: nat, b: nat)
    requires Structured(v, d, inodes) && 1 <= a <= v.inodesCount && 1 <= b <= v.inodesCount && a != b
    ensures SlotOf(v, d, a).sector != SlotOf(v, d, b).sector || SlotOf(v, d, a).offset != SlotOf(v, d, b).offset
  {
    hide Descriptor, BlockSector, InBlock, SectorsPerBlock, SlotOf, Bit, Holds, ReadInode, PhysicalBlock;
    var ipg := v.inodesPerGroup;
    var j, k := (a - 1) % ipg, (b - 1) % ipg;
    assert a - 1 == GroupOf(v, a) * ipg + j && b - 1 == GroupOf(v, b) * ipg + k;
    SlotShape(v, d, a);
    SlotShape(v, d, b);
    SlotInTable(v, d, inodes, a);
    SlotInTable(v, d, inodes, b);
    if SlotOf(v, d, a).sector == SlotOf(v, d, b).sector {
      BlocksApart(v, SlotBlock(v, d, a), SlotBlock(v, d, b), SlotOf(v, d, a).sector);
      assert Table(GroupOf(v, a)) == Table(GroupOf(v, b));
      assert j != k;
    }
  }

  // ------------------------------------------------------------------
  // Changes that leave the metadata alone
  // ------------------------------------------------------------------

  /** Same descriptors and same inodes. */
  ghost predicate MetaSame(v: Volume, d: Disk, e: Disk)
    requires Geometry(v)
  {
    && BgdSector(v) in d && BgdSector(v) in e && e[BgdSector(v)] == d[BgdSector(v)]
    && forall ino: nat :: ReadInode(v, e, ino) == ReadInode(v, d, ino)
  }

  /** A block outside descriptors and inode tables may change freely. */
  lemma KeepsMeta(v: Volume, d: Disk, e: Disk, inodes: set<nat>, x: nat)
    requires Structured(v, d, inodes) && OnlyBlock(v, d, e, x)
    requires x != BgdBlock(v) && forall g :: !Holds(v, d, inodes, Table(g), x)
    ensures MetaSame(v, d, e)
  {
    hide Descriptor, GroupOf, BlockSector, InBlock, SectorsPerBlock, Bit, Holds, PhysicalBlock, SlotOf;
    FirstSector(v, BgdBlock(v));
    assert !InBlock(v, x, BgdSector(v)) by {
      if InBlock(v, x, BgdSector(v)) { BlocksApart(v, x, BgdBlock(v), BgdSector(v)); }
    }
    forall ino: nat ensures ReadInode(v, e, ino) == ReadInode(v, d, ino) {
      if 1 <= ino <= v.inodesCount {
        SameSlot(v, d, e, ino);
        SlotInTable(v, d, inodes, ino);
        var s := SlotOf(v, d, ino).sector;
        if InBlock(v, x, s) { BlocksApart(v, x, SlotBlock(v, d, ino), s); }
      }
    }
  }

  lemma SameSlot(v: Volume, d: Disk, e: Disk, ino: nat)
    requires Geometry(v) && ino >= 1 && BgdSector(v) in d && BgdSector(v) in e && e[BgdSector(v)] == d[BgdSector(v)]
    ensures SlotOf(v, d, ino) == SlotOf(v, e, ino)
  {}

  lemma SameRoles(v: Volume, d: Disk, e: Disk, inodes: set<nat>, role: Role, x: nat)
    requires Geometry(v) && MetaSame(v, d, e)
    ensures Holds(v, d, inodes, role, x) <==> Holds(v, e, inodes, role, x)
  {
    hide ReadInode, PhysicalBlock;
  }

  /** Bits may be added to the bitmaps but not taken away. */
  ghost predicate BitsKept(v: Volume, d: Disk, e: Disk, field: nat)
    requires BgdSector(v) in d && field <= 8
  {
    var s := BitmapSector(v, d, field);
    s in d && s in e && forall i :: 0 <= i < BITS && Bit(d[s], i) ==> Bit(e[s], i)
  }

  lemma KeepsStructure(v: Volume, d: Disk, e: Disk, inodes: set<nat>)
    requires Structured(v, d, inodes) && MetaSame(v, d, e) && BitsKept(v, d, e, 0) && BitsKept(v, d, e, 4)
    ensures Structured(v, e, inodes)
  {
    hide ReadInode, PhysicalBlock, Bit, Holds;
    assert BitmapSector(v, e, 0) == BitmapSector(v, d, 0) && BitmapSector(v, e, 4) == BitmapSector(v, d, 4);
    forall role, x: nat ensures Holds(v, e, inodes, role, x) <==> Holds(v, d, inodes, role, x) {
      SameRoles(v, d, e, inodes, role, x);
    }
    assert InodesMarked(v, e, inodes);
    assert BlocksMarked(v, e, inodes);
    assert OneRoleEach(v, e, inodes);
  }

  /** A file keeps its bytes if none of its blocks changed. */
  lemma SameFile(v: Volume, d: Disk, e: Disk, i: Inode, x: nat, n: nat)
    requires Geometry(v) && OnlyBlock(v, d, e, x) && PhysicalBlock(i, n / v.blockSize % U32) != Some(x)
    ensures FileByte(v, e, i, n) == FileByte(v, d, i, n)
  {
    hide PhysicalBlock;
    var b := PhysicalBlock(i, n / v.blockSize % U32);
    if b.Some? {
      var s := BlockSector(v, b.value) + n % v.blockSize / SECTOR;
      assert InBlock(v, b.value, s) by { WholeSectors(v, 0); }
      if InBlock(v, x, s) { BlocksApart(v, x, b.value, s); }
    }
  }
}
