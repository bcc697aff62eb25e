/** Two small images. The first is well-formed: the hypotheses under which files are created can
    be met. The second has blocks of 1 KiB and so, by the format, first data block 1: there the
    driver hands out a block in use. */
module Ext4Sample {
  import opened Bits
  import opened Common
  import opened Disks
  import opened Words
  import opened Ext4Layout
  import opened Ext4Files
  import opened Ext4Directory
  import opened Ext4Volume
  import opened Ext4Image
  import opened Ext4Create
  import opened Records
  import opened Ext4Format

  /** A volume with eight inodes, the blocks of its bitmaps, inode table and root directory, and
      the first byte of its block bitmap. */
  datatype Plan = Plan(volume: Volume, blockMap: nat, inodeMap: nat, table: nat, rootBlock: nat, marks: byte)

  /** Blocks of 4 KiB: descriptors in block 1, then bitmaps, inode table, root directory. */
  const LARGE := Plan(Volume(0, 4096, 8, 8, 0), 2, 3, 4, 5, 63)

  /** Blocks of 1 KiB: the superblock in block 1, descriptors in 2, a table of two blocks. */
  const SMALL := Plan(Volume(0, 1024, 8, 8, 1), 3, 4, 5, 7, 127)

  function RootInode(p: Plan): Inode {
    Bytes16(0x41ED) + BuildFileInode(p.volume.blockSize, p.rootBlock)[2..]
  }

  function Descriptions(p: Plan): Sector {
    Bytes32(p.blockMap) + Bytes32(p.inodeMap) + Bytes32(p.table) + Zeros(500)
  }

  function BlockMapSector(p: Plan): Sector {
    [p.marks] + Zeros(511)
  }

  function InodeMapSector(): Sector {
    [2] + Zeros(511)
  }

  function InodeSector(p: Plan): Sector {
    Zeros(256) + RootInode(p) + Zeros(140)
  }

  /** One record, for the directory itself. */
  function RecordSector(p: Plan): Sector {
    NewRecord(2, p.volume.blockSize, [46]) + Zeros(503)
  }

  function SectorAt(p: Plan, s: nat): Sector {
    if s == BgdSector(p.volume) then Descriptions(p)
    else if s == BlockSector(p.volume, p.blockMap) then BlockMapSector(p)
    else if s == BlockSector(p.volume, p.inodeMap) then InodeMapSector()
    else if s == BlockSector(p.volume, p.table) then InodeSector(p)
    else if s == BlockSector(p.volume, p.rootBlock) then RecordSector(p)
    else Zeros(512)
  }

  function DiskOf(p: Plan): Disk {
    map s: nat | s < 48 :: SectorAt(p, s)
  }

  ghost predicate Sample(p: Plan) {
    p == LARGE || p == SMALL
  }

  lemma BlockPlace(b: nat)
    ensures BlockSector(LARGE.volume, b) == 8 * b && BlockSector(SMALL.volume, b) == 2 * b
  {
    assert SectorsPerBlock(LARGE.volume) == 8 && SectorsPerBlock(SMALL.volume) == 2;
  }

  /** Where the parts of the images lie. */
  lemma Places(p: Plan)
    requires Sample(p)
    ensures p == LARGE ==> BgdSector(p.volume) == 8 && BlockSector(p.volume, 2) == 16 && BlockSector(p.volume, 3) == 24
    ensures p == LARGE ==> BlockSector(p.volume, 4) == 32 && BlockSector(p.volume, 5) == 40
    ensures p == SMALL ==> BgdSector(p.volume) == 4 && BlockSector(p.volume, 3) == 6 && BlockSector(p.volume, 4) == 8
    ensures p == SMALL ==> BlockSector(p.volume, 5) == 10 && BlockSector(p.volume, 7) == 14
  {
    hide BlockSector;
    BlockPlace(1);
    BlockPlace(2);
    BlockPlace(3);
    BlockPlace(4);
    BlockPlace(5);
    BlockPlace(7);
  }

  lemma DescriptorFields(p: Plan)
    requires Sample(p)
    ensures Geometry(p.volume) && BgdSector(p.volume) in DiskOf(p)
    ensures Descriptor(p.volume, DiskOf(p), 0, 0) == p.blockMap && Descriptor(p.volume, DiskOf(p), 0, 4) == p.inodeMap
    ensures Descriptor(p.volume, DiskOf(p), 0, 8) == p.table
  {
    hide DiskOf, Word32, Descriptions, BgdSector;
    DescriptorSector(p);
    DescriptionWords(p);
  }

  lemma DescriptorSector(p: Plan)
    requires Sample(p)
    ensures BgdSector(p.volume) in DiskOf(p) && DiskOf(p)[BgdSector(p.volume)] == Descriptions(p)
  {
    hide RecordSector, InodeSector, Descriptions, BlockMapSector, InodeMapSector, BlockSector, BgdSector;
    Places(p);
  }

  lemma DescriptionWords(p: Plan)
    requires p.blockMap < U32 && p.inodeMap < U32 && p.table < U32
    ensures Word32(Descriptions(p), 0) == p.blockMap && Word32(Descriptions(p), 4) == p.inodeMap && Word32(Descriptions(p), 8) == p.table
  {
    hide Word32, Bytes32;
    var s := Descriptions(p);
    WideBytes(p.blockMap);
    WideBytes(p.inodeMap);
    WideBytes(p.table);
    assert s[0..4] == Bytes32(p.blockMap) && s[4..8] == Bytes32(p.inodeMap) && s[8..12] == Bytes32(p.table);
    Stored32(s, 0, p.blockMap);
    Stored32(s, 4, p.inodeMap);
    Stored32(s, 8, p.table);
  }

  lemma WideBytes(x: nat)
    ensures |Bytes32(x)| == 4
  {}

  lemma {:induction false} SameExtents(i: Inode, j: Inode, lb: nat, k: nat)
    requires forall n :: 2 <= n < INODE_BYTES ==> i[n] == j[n]
    ensures FindExtent(i, lb, k) == FindExtent(j, lb, k)
    decreases 4 - k
  {
    hide Word16, Word32;
    if k < 4 {
      SameWords(i, j, 42);
      SameWords(i, j, 52 + 12 * k);
      SameWords(i, j, 56 + 12 * k);
      SameWords(i, j, 58 + 12 * k);
      SameWords(i, j, 60 + 12 * k);
      SameExtents(i, j, lb, k + 1);
    }
  }

  lemma SameWords(i: Inode, j: Inode, at: nat)
    requires (forall n :: 2 <= n < INODE_BYTES ==> i[n] == j[n]) && 2 <= at <= INODE_BYTES - 4
    ensures Word16(i, at) == Word16(j, at) && Word32(i, at) == Word32(j, at)
  {}

  /** Nothing but the mode differs between the root's inode and a file's. */
  lemma SameButMode(i: Inode, j: Inode)
    requires forall n :: 2 <= n < INODE_BYTES ==> i[n] == j[n]
    ensures SizeOf(i) == SizeOf(j) && forall lb: nat :: PhysicalBlock(i, lb) == PhysicalBlock(j, lb)
  {
    forall lb: nat ensures PhysicalBlock(i, lb) == PhysicalBlock(j, lb) { SameExtents(i, j, lb, 0); }
  }

  lemma RootFields(p: Plan)
    requires Sample(p)
    ensures IsDirectory(RootInode(p)) && SizeOf(RootInode(p)) == p.volume.blockSize
    ensures forall lb: nat :: PhysicalBlock(RootInode(p), lb) == if lb == 0 then Some(p.rootBlock) else None
  {
    hide BuildFileInode, PhysicalBlock, SizeOf;
    var i, j := RootInode(p), BuildFileInode(p.volume.blockSize, p.rootBlock);
    BuiltInode(p.volume.blockSize, p.rootBlock);
    assert i[0..2] == Bytes16(0x41ED);
    Stored16(i, 0, 0x41ED);
    SameButMode(i, j);
  }

  lemma RootRead(p: Plan)
    requires Sample(p)
    ensures Geometry(p.volume) && ReadInode(p.volume, DiskOf(p), 2) == Ok(RootInode(p))
  {
    hide Descriptor, BuildFileInode, SlotOf, RootInode, NewRecord;
    DescriptorFields(p);
    SlotShape(p.volume, DiskOf(p), 2);
    var at := BlockSector(p.volume, p.table);
    assert SlotOf(p.volume, DiskOf(p), 2) == Slot(at, 256);
    assert DiskOf(p)[at] == InodeSector(p) && InodeSector(p)[256..372] == RootInode(p);
  }

  lemma Bitmaps(p: Plan)
    requires Sample(p)
    ensures DiskOf(p)[BlockSector(p.volume, p.blockMap)] == BlockMapSector(p)
    ensures DiskOf(p)[BlockSector(p.volume, p.inodeMap)] == InodeMapSector() && Bit(InodeMapSector(), 1)
  {
    hide RecordSector, InodeSector, Descriptions, BlockMapSector, InodeMapSector, Bit, BlockSector, BgdSector;
    RootMarked();
    Places(p);
  }

  lemma RootMarked()
    ensures Bit(InodeMapSector(), 1)
  {
    assert InodeMapSector()[0] == 2 && TestBit(2, 1);
  }

  // ------------------------------------------------------------------
  // The image of 4 KiB blocks is well-formed
  // ------------------------------------------------------------------

  function RoleOf(x: nat): Role {
    if x == 1 then Descriptors else if x == 2 then BlockMap else if x == 3 then InodeMap
    else if x == 4 then Table(0) else FileData(2, 0)
  }

  /** The block each role is served by. */
  lemma Roles(role: Role, x: nat)
    ensures Geometry(LARGE.volume) && BgdSector(LARGE.volume) in DiskOf(LARGE)
    ensures Holds(LARGE.volume, DiskOf(LARGE), {2}, role, x) ==> x < 6 && role == RoleOf(x)
  {
    hide Descriptor, ReadInode, PhysicalBlock, RootInode, DiskOf;
    DescriptorFields(LARGE);
    RootRead(LARGE);
    RootFields(LARGE);
  }

  lemma Marks(x: nat)
    requires x < 6
    ensures Bit(BlockMapSector(LARGE), x)
  {
    assert 63 == Pow2(6) - 1;
    AllOnes(x, 6);
  }

  lemma SampleStructured()
    ensures Structured(LARGE.volume, DiskOf(LARGE), {2})
  {
    hide Descriptor, ReadInode, PhysicalBlock, Holds, Bit, DiskOf, BlockMapSector, InodeMapSector;
    DescriptorFields(LARGE);
    RootRead(LARGE);
    Bitmaps(LARGE);
    assert Mounted(LARGE.volume, DiskOf(LARGE)) by { hide *; SampleMounted(); }
    forall role, x: nat
      ensures Holds(LARGE.volume, DiskOf(LARGE), {2}, role, x) ==> x < 6 && role == RoleOf(x) && Bit(BlockMapSector(LARGE), x)
    {
      Roles(role, x);
      if x < 6 { Marks(x); }
    }
  }

  lemma SampleMounted()
    ensures Mounted(LARGE.volume, DiskOf(LARGE))
  {
    hide Descriptor, BuildFileInode, NewRecord;
    DescriptorFields(LARGE);
  }

  lemma RootBytes(n: nat)
    requires n < 4096
    ensures Geometry(LARGE.volume) && FileByte(LARGE.volume, DiskOf(LARGE), RootInode(LARGE), n) == Some((RecordSector(LARGE) + Zeros(3584))[n])
  {
    hide PhysicalBlock, IsDirectory, SizeOf, RootInode, RecordSector, DiskOf, FileByte, BlockBytes;
    RootFields(LARGE);
    RootReadable();
    FirstBlockBytes(LARGE.volume, DiskOf(LARGE), RootInode(LARGE), 5, n);
    RootBlockByte(n);
  }

  lemma RootSector(j: nat)
    requires j < 8
    ensures 40 + j in DiskOf(LARGE) && DiskOf(LARGE)[40 + j] == if j == 0 then RecordSector(LARGE) else Zeros(512)
  {
    hide RecordSector, InodeSector, Descriptions, BlockMapSector, InodeMapSector, BlockSector, BgdSector;
    Places(LARGE);
  }

  lemma RootReadable()
    ensures Readable(LARGE.volume, DiskOf(LARGE), 5)
  {
    hide SectorAt;
  }

  lemma RootBlockByte(n: nat)
    requires n < 4096
    ensures Readable(LARGE.volume, DiskOf(LARGE), 5) && BlockBytes(LARGE.volume, DiskOf(LARGE), 5)[n] == (RecordSector(LARGE) + Zeros(3584))[n]
  {
    hide DiskOf, RecordSector;
    RootReadable();
    assert BlockSector(LARGE.volume, 5) == 40;
    RootSector(n / 512);
    if n < 512 { assert n / 512 == 0 && n % 512 == n; }
  }

  lemma RootListing(data: seq<byte>)
    requires data == RecordSector(LARGE) + Zeros(3584)
    ensures Tiled(data, 0) && Listing(data, 0) == [(2, [46])]
  {
    hide EntryInode, EntryLen, NameLen;
    assert data[0..9] == NewRecord(2, 4096, [46]);
    NewRecordFields(data, 0, 2, 4096, [46]);
    assert Tiled(data, 4096) && Listing(data, 4096) == [];
    assert Record(data, 0) && Listed(data, 0) == [(2, [46])];
  }

  /** The image is well-formed and has room for further names. */
  lemma SampleImage(name: Name)
    requires name != [46]
    ensures Image(LARGE.volume, DiskOf(LARGE), {2}, RootInode(LARGE)) && Absent(LARGE.volume, DiskOf(LARGE), RootInode(LARGE), {2}, name)
  {
    hide Structured, ReadInode, FileByte, PhysicalBlock, SizeOf, IsDirectory, Tiled, Listing, RootInode, DiskOf, RecordSector;
    SampleStructured();
    RootRead(LARGE);
    RootFields(LARGE);
    var d, root, whole := DiskOf(LARGE), RootInode(LARGE), RecordSector(LARGE) + Zeros(3584);
    forall n | 0 <= n < 4096 ensures FileByte(LARGE.volume, d, root, n) == Some(whole[n]) {
      RootBytes(n);
    }
    var data := FileBytes(LARGE.volume, d, root);
    assert data == whole;
    assert data[..4096] == data && data[4096..] == [];
    RootListing(data);
    EmptyListing();
  }

  lemma EmptyListing()
    ensures Tiled([], 0) && Listing([], 0) == []
  {}

  // ------------------------------------------------------------------
  // The image of 1 KiB blocks
  // ------------------------------------------------------------------

  /** Its bitmap marks blocks 1 to 7 by the format's rule, and the driver's next block is 7: the
      root directory's. */
  lemma HandsOutRootBlock()
    ensures MarkedExactly(SMALL.volume, DiskOf(SMALL), {0, 1, 2, 3, 4, 5, 6, 7})
    ensures exists e :: Reserved(SMALL.volume, DiskOf(SMALL), e, 0, 7)
    ensures Geometry(SMALL.volume) && Holds(SMALL.volume, DiskOf(SMALL), {2}, FileData(2, 0), 7)
  {
    hide Descriptor, BuildFileInode, NewRecord, RootInode, ReadInode, PhysicalBlock, Bit;
    DescriptorFields(SMALL);
    RootRead(SMALL);
    RootFields(SMALL);
    Bitmaps(SMALL);
    var s := BlockMapSector(SMALL);
    forall i | 0 <= i < BITS ensures Bit(s, i) <==> i < 7 {
      SmallMarks(i);
    }
    var at := BitmapSector(SMALL.volume, DiskOf(SMALL), 0);
    assert at == 6 && DiskOf(SMALL)[at] == s;
    assert Reserved(SMALL.volume, DiskOf(SMALL), DiskOf(SMALL)[at := WithBit(s, 7)], 0, 7);
  }

  lemma SmallMarks(i: nat)
    requires i < BITS
    ensures Bit(BlockMapSector(SMALL), i) <==> i < 7
  {
    assert 127 == Pow2(7) - 1;
    if i < 7 {
      AllOnes(i, 7);
    } else if i == 7 {
      assert !TestBit(127, 7) by { NoBitsAbove(127, 7); }
    } else {
      NoBitsAbove(0, i % 8);
    }
  }

  lemma {:induction false} NoBitsAbove(x: nat, k: nat)
    requires x < Pow2(k)
    ensures !TestBit(x, k)
  {
    if k > 0 { NoBitsAbove(x / 2, k - 1); }
  }

  // ------------------------------------------------------------------
  // A second group
  // ------------------------------------------------------------------

  /** Sixteen inodes in two groups, whose inode tables are blocks 4 and 6. */
  const PAIR := Volume(0, 4096, 16, 8, 0)

  function PairGroups(): seq<Group> {
    [Group(2, 3, 4, Zeros(20)), Group(10, 11, 6, Zeros(20))]
  }

  /** Of the volume only the descriptors and one sector of the second table can be read. */
  function PairDisk(i: Inode): Disk {
    PairTable();
    map[8 := GroupTable(PairGroups()) + Zeros(448), 48 := i + Zeros(396)]
  }

  lemma PairTable()
    ensures |GroupTable(PairGroups())| == 64 && forall g :: 0 <= g < 2 ==> GroupFits(PairGroups()[g])
  {
    Limits();
    hide Digits, Limit;
    var all := PairGroups();
    assert all[1..] == [all[1]] && all[1..][1..] == [];
    assert GroupTable(all[1..]) == GroupBytes(all[1]) + GroupTable([]);
  }

  /** Inode 9 is the first of the second group and is read from that group's table; inode 1, the
      first of the first group, is looked for elsewhere. */
  lemma SecondGroup(i: Inode)
    ensures ReadInode(PAIR, PairDisk(i), 9) == Ok(i) && ReadInode(PAIR, PairDisk(i), 1) == Err(BlockRead)
  {
    hide GroupTable, ReadInode, BgdSector, GroupFits;
    var d := PairDisk(i);
    PairTable();
    assert BgdSector(PAIR) == 8 by { Places(LARGE); SameDescriptors(); }
    assert Describes(PAIR, d, PairGroups());
    ReadsSlot(PAIR, d, PairGroups(), 9);
    ReadsSlot(PAIR, d, PairGroups(), 1);
    var r, q := ReadInode(PAIR, d, 9), ReadInode(PAIR, d, 1);
    assert VolumeByte(PAIR, d, 4 * 4096) == None && VolumeByte(PAIR, d, 6 * 4096).Some?;
    assert q == Err(BlockRead) && r.Ok?;
    forall j | 0 <= j < INODE_BYTES ensures r.value[j] == i[j] {
      assert VolumeByte(PAIR, d, 6 * 4096 + j) == Some(r.value[j]);
      assert (6 * 4096 + j) / SECTOR == 48 && (6 * 4096 + j) % SECTOR == j;
    }
    assert r.value == i;
  }

  lemma SameDescriptors()
    ensures BgdSector(PAIR) == BgdSector(LARGE.volume)
  {}
}
