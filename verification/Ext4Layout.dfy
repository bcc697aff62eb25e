/** Fixed-width little-endian fields inside a buffer. */
module Words {
  import opened Common

  const U16 := 0x1_0000
  const U32 := 0x1_0000_0000

  function Word16(b: seq<byte>, at: nat): (r: nat)
    requires at + 2 <= |b|
    ensures r < U16
  {
    b[at] as int + 256 * (b[at + 1] as int)
  }

  function Word32(b: seq<byte>, at: nat): (r: nat)
    requires at + 4 <= |b|
    ensures r < U32
  {
    Word16(b, at) + U16 * Word16(b, at + 2)
  }

  /** The bytes a 16-bit store of `x` leaves behind; wider values are cut off. */
  function Bytes16(x: nat): seq<byte> {
    [x % 256, x / 256 % 256]
  }

  function Bytes32(x: nat): seq<byte> {
    Bytes16(x) + Bytes16(x / U16)
  }

  lemma Stored16(b: seq<byte>, at: nat, x: nat)
    requires at + 2 <= |b| && b[at..at + 2] == Bytes16(x)
    ensures Word16(b, at) == x % U16
  {
    assert b[at] == b[at..at + 2][0] && b[at + 1] == b[at..at + 2][1];
  }

  lemma Stored32(b: seq<byte>, at: nat, x: nat)
    requires at + 4 <= |b| && b[at..at + 4] == Bytes32(x)
    ensures Word32(b, at) == x % U32
  {
    assert b[at..at + 2] == b[at..at + 4][..2] == Bytes16(x);
    assert b[at + 2..at + 4] == b[at..at + 4][2..] == Bytes16(x / U16);
    Stored16(b, at, x);
    Stored16(b, at + 2, x / U16);
  }
}

/** On-disk structures of an ext4 volume and how they are located (src/fs/ext4/volume.rs,
    src/fs/ext4/inode.rs, src/fs/ext4/extents.rs). */
module Ext4Layout {
  import opened Arithmetic
  import opened Common
  import opened Disks
  import opened Words

  datatype FsError = BlockRead | BlockWrite | OutOfInodes | OutOfBlocks | CorruptedDirectory | NoSpace
  datatype Result<+T> = Ok(value: T) | Err(error: FsError)

  /** What the model keeps of the superblock. The driver never looks at the first data block; the
      format puts it at 1 for blocks of 1 KiB and at 0 for larger ones. */
  datatype Volume = Volume(startLba: nat, blockSize: nat, inodesCount: nat, inodesPerGroup: nat, firstDataBlock: nat)

  /** Volumes the driver handles: blocks up to 32 KiB and at most sixteen block groups, whose
      descriptors fit one sector. */
  predicate Geometry(v: Volume) {
    v.blockSize in {1024, 2048, 4096, 8192, 16384, 32768} && v.inodesPerGroup > 0 && v.inodesCount <= 16 * v.inodesPerGroup
  }

  function SectorsPerBlock(v: Volume): nat {
    v.blockSize / SECTOR
  }

  function BlockSector(v: Volume, b: nat): nat {
    v.startLba + b * SectorsPerBlock(v)
  }

  predicate InBlock(v: Volume, b: nat, s: nat) {
    BlockSector(v, b) <= s < BlockSector(v, b) + SectorsPerBlock(v)
  }

  /** Blocks do not overlap. */
  lemma BlocksApart(v: Volume, a: nat, b: nat, s: nat)
    requires InBlock(v, a, s) && InBlock(v, b, s)
    ensures a == b
  {
    if a < b { MulStrict(a, b, SectorsPerBlock(v)); }
    if b < a { MulStrict(b, a, SectorsPerBlock(v)); }
  }

  function BgdBlock(v: Volume): nat {
    if v.blockSize == 1024 then 2 else 1
  }

  function BgdSector(v: Volume): nat {
    BlockSector(v, BgdBlock(v))
  }

  /** The descriptor fields of group `g`: block bitmap at 0, inode bitmap at 4, inode table at 8. */
  function Descriptor(v: Volume, d: Disk, g: nat, field: nat): nat
    requires BgdSector(v) in d && field <= 8
  {
    Word32(d[BgdSector(v)], 32 * g % SECTOR + field)
  }

  const INODE_SIZE := 256

  /** Sector and offset in it of an inode's slot. */
  datatype Slot = Slot(sector: nat, offset: nat)

  function GroupOf(v: Volume, ino: nat): nat
    requires v.inodesPerGroup > 0 && ino >= 1
  {
    (ino - 1) / v.inodesPerGroup
  }

  function SlotOf(v: Volume, d: Disk, ino: nat): Slot
    requires v.inodesPerGroup > 0 && ino >= 1 && BgdSector(v) in d
  {
    var table, index := Descriptor(v, d, GroupOf(v, ino), 8), (ino - 1) % v.inodesPerGroup;
    MulNat(table, v.blockSize);
    var absolute := table * v.blockSize + index * INODE_SIZE;
    Slot(v.startLba + absolute / SECTOR, absolute % SECTOR)
  }

  lemma WholeSectors(v: Volume, b: nat)
    requires Geometry(v)
    ensures v.blockSize == SectorsPerBlock(v) * SECTOR && b * v.blockSize == b * SectorsPerBlock(v) * SECTOR
  {
    assert v.blockSize == SectorsPerBlock(v) * SECTOR;
    assert b * (SectorsPerBlock(v) * SECTOR) == b * SectorsPerBlock(v) * SECTOR;
  }

  /** Two slots per sector. */
  lemma SlotShape(v: Volume, d: Disk, ino: nat)
    requires Geometry(v) && ino >= 1 && BgdSector(v) in d
    ensures var k := (ino - 1) % v.inodesPerGroup;
      SlotOf(v, d, ino) == Slot(BlockSector(v, Descriptor(v, d, GroupOf(v, ino), 8)) + k / 2, k % 2 * INODE_SIZE)
  {
    hide Descriptor, GroupOf;
    var k, t := (ino - 1) % v.inodesPerGroup, Descriptor(v, d, GroupOf(v, ino), 8);
    WholeSectors(v, t);
    assert t * v.blockSize + k * INODE_SIZE == (t * SectorsPerBlock(v) + k / 2) * SECTOR + k % 2 * INODE_SIZE;
    DivMod(t * SectorsPerBlock(v) + k / 2, SECTOR, k % 2 * INODE_SIZE);
  }

  // ------------------------------------------------------------------
  // Inodes
  // ------------------------------------------------------------------

  const INODE_BYTES := 116

  /** The part of a slot the driver copies. */
  type Inode = s: seq<byte> | |s| == INODE_BYTES witness Zeros(INODE_BYTES)

  /** `(i_mode & 0xF000) == 0x4000`. */
  predicate IsDirectory(i: Inode) {
    Word16(i, 0) / 0x1000 == 4
  }

  /** `(i_mode & 0xF000) == 0x8000`. */
  predicate IsRegular(i: Inode) {
    Word16(i, 0) / 0x1000 == 8
  }

  function SizeOf(i: Inode): nat {
    Word32(i, 4) + U32 * Word32(i, 108)
  }

  /** Searches the extents from the `k`th on; an inode has room for four. */
  function FindExtent(i: Inode, logical: nat, k: nat): Option<nat>
    decreases 4 - k
  {
    if k >= 4 || k >= Word16(i, 42) then None
    else
      var first, length := Word32(i, 52 + 12 * k), Word16(i, 56 + 12 * k);
      if first <= logical < (first + length) % U32 then
        Some(Word16(i, 58 + 12 * k) * U32 + Word32(i, 60 + 12 * k) + (logical - first))
      else FindExtent(i, logical, k + 1)
  }

  /** The block a logical block of a file is stored in. Only trees of depth 0 are followed. */
  function PhysicalBlock(i: Inode, logical: nat): Option<nat> {
    if Word16(i, 40) != 0xF30A || Word16(i, 46) != 0 then None else FindExtent(i, logical, 0)
  }

  /** Extent `k` exists and contains the logical block. */
  predicate Contains(i: Inode, k: nat, logical: nat)
    requires k < 4
  {
    k < Word16(i, 42) && Word32(i, 52 + 12 * k) <= logical < (Word32(i, 52 + 12 * k) + Word16(i, 56 + 12 * k)) % U32
  }

  /** Where extent `j` stores the logical block. */
  function BlockIn(i: Inode, j: nat, logical: nat): int
    requires j < 4
  {
    Word16(i, 58 + 12 * j) * U32 + Word32(i, 60 + 12 * j) + (logical - Word32(i, 52 + 12 * j))
  }

  ghost predicate FirstContaining(i: Inode, logical: nat, k: nat, j: nat) {
    k <= j < 4 && Contains(i, j, logical) && forall h :: k <= h < j ==> !Contains(i, h, logical)
  }

  /** The search finds the first extent that contains the logical block, and nothing exactly if
      no extent does. */
  lemma {:induction false} FindExtentFirst(i: Inode, logical: nat, k: nat)
    requires k <= 4
    ensures match FindExtent(i, logical, k)
            case None => forall j :: k <= j < 4 ==> !Contains(i, j, logical)
            case Some(b) => exists j :: FirstContaining(i, logical, k, j) && b == BlockIn(i, j, logical)
    decreases 4 - k
  {
    hide Word16, Word32;
    if k < 4 && Contains(i, k, logical) {
      assert FirstContaining(i, logical, k, k);
    } else if k < 4 && k < Word16(i, 42) {
      FindExtentFirst(i, logical, k + 1);
      if FindExtent(i, logical, k + 1).Some? {
        var j :| FirstContaining(i, logical, k + 1, j) && FindExtent(i, logical, k + 1).value == BlockIn(i, j, logical);
        assert FirstContaining(i, logical, k, j);
      }
    }
  }

  function ReadInode(v: Volume, d: Disk, ino: nat): Result<Inode>
    requires Geometry(v)
  {
    if ino < 1 || ino > v.inodesCount then Err(CorruptedDirectory)
    else if BgdSector(v) !in d then Err(BlockRead)
    else
      var slot := SlotOf(v, d, ino);
      if slot.sector !in d then Err(BlockRead)
      else
        SlotShape(v, d, ino);
        Ok(d[slot.sector][slot.offset..slot.offset + INODE_BYTES])
  }

  /** The fields of a regular file's inode before its extent tree. */
  function InodeHead(size: nat): (r: seq<byte>)
    ensures |r| == 40
  {
    Bytes16(0x81A4) + Zeros(2) + Bytes32(size) + Zeros(18) + Bytes16(1) + Bytes32(8) + Bytes32(0x80000) + Zeros(4)
  }

  /** The header of a tree of depth 0 with one of four entries used. */
  function TreeHeader(): (r: seq<byte>)
    ensures |r| == 12
  {
    Bytes16(0xF30A) + Bytes16(1) + Bytes16(4) + Zeros(6)
  }

  /** The extent that maps logical block 0 to `block`. */
  function ExtentTo(block: nat): (r: seq<byte>)
    ensures |r| == 12
  {
    Zeros(4) + Bytes16(1) + Zeros(2) + Bytes32(block)
  }

  /** A regular file of one extent with one block. */
  function BuildFileInode(size: nat, block: nat): Inode {
    InodeHead(size) + (TreeHeader() + (ExtentTo(block) + Zeros(52)))
  }

  lemma HeadFields(size: nat)
    requires size < U32
    ensures var h := InodeHead(size);
      Word16(h, 0) == 0x81A4 && Word32(h, 4) == size && Word16(h, 26) == 1 && Word32(h, 28) == 8 && Word32(h, 32) == 0x80000
  {
    var h := InodeHead(size);
    assert h[0..2] == Bytes16(0x81A4) && h[4..8] == Bytes32(size) && h[26..28] == Bytes16(1);
    assert h[28..32] == Bytes32(8) && h[32..36] == Bytes32(0x80000);
    Stored16(h, 0, 0x81A4);
    Stored32(h, 4, size);
    Stored16(h, 26, 1);
    Stored32(h, 28, 8);
    Stored32(h, 32, 0x80000);
  }

  lemma TreeFields()
    ensures var t := TreeHeader(); Word16(t, 0) == 0xF30A && Word16(t, 2) == 1 && Word16(t, 4) == 4 && Word16(t, 6) == 0
  {
    var t := TreeHeader();
    assert t[0..2] == Bytes16(0xF30A) && t[2..4] == Bytes16(1) && t[4..6] == Bytes16(4);
    Stored16(t, 0, 0xF30A);
    Stored16(t, 2, 1);
    Stored16(t, 4, 4);
  }

  lemma ExtentFields(block: nat)
    requires block < U32
    ensures var e := ExtentTo(block); Word32(e, 0) == 0 && Word16(e, 4) == 1 && Word16(e, 6) == 0 && Word32(e, 8) == block
  {
    var e := ExtentTo(block);
    assert e[4..6] == Bytes16(1) && e[8..12] == Bytes32(block);
    Stored16(e, 4, 1);
    Stored32(e, 8, block);
  }

  /** The sector count stored in every inode is that of one block exactly for 4 KiB blocks. */
  lemma SectorCountIff(v: Volume, size: nat, block: nat)
    requires Geometry(v) && size < U32
    ensures Word32(BuildFileInode(size, block), 28) == SectorsPerBlock(v) <==> v.blockSize == 4096
  {
    hide BuildFileInode, Word32;
    BuiltHead(size, block);
  }

  /** Fields keep their values when buffers are put together. */
  lemma WordsLeft(a: seq<byte>, b: seq<byte>, at: nat)
    ensures at + 2 <= |a| ==> Word16(a + b, at) == Word16(a, at)
    ensures at + 4 <= |a| ==> Word32(a + b, at) == Word32(a, at)
  {}

  lemma WordsRight(a: seq<byte>, b: seq<byte>, at: nat)
    ensures at + 2 <= |b| ==> Word16(a + b, |a| + at) == Word16(b, at)
    ensures at + 4 <= |b| ==> Word32(a + b, |a| + at) == Word32(b, at)
  {}

  lemma BuiltHead(size: nat, block: nat)
    requires size < U32
    ensures var i := BuildFileInode(size, block);
      Word16(i, 0) == 0x81A4 && Word32(i, 4) == size && Word16(i, 26) == 1 && Word32(i, 28) == 8 && Word32(i, 32) == 0x80000
  {
    hide InodeHead, TreeHeader, ExtentTo, Word16, Word32;
    var h, rest := InodeHead(size), TreeHeader() + (ExtentTo(block) + Zeros(52));
    HeadFields(size);
    WordsLeft(h, rest, 0);
    WordsLeft(h, rest, 4);
    WordsLeft(h, rest, 26);
    WordsLeft(h, rest, 28);
    WordsLeft(h, rest, 32);
  }

  lemma BuiltTree(size: nat, block: nat)
    ensures var i := BuildFileInode(size, block); Word16(i, 40) == 0xF30A && Word16(i, 42) == 1 && Word16(i, 46) == 0
  {
    hide InodeHead, TreeHeader, ExtentTo, Word16, Word32;
    var h, t, rest := InodeHead(size), TreeHeader(), ExtentTo(block) + Zeros(52);
    TreeFields();
    forall at | at in {0, 2, 6} ensures Word16(h + (t + rest), 40 + at) == Word16(t, at) {
      WordsLeft(t, rest, at);
      WordsRight(h, t + rest, at);
    }
  }

  lemma BuiltExtent(size: nat, block: nat)
    requires block < U32
    ensures var i := BuildFileInode(size, block);
      Word32(i, 52) == 0 && Word16(i, 56) == 1 && Word16(i, 58) == 0 && Word32(i, 60) == block && Word32(i, 108) == 0
  {
    hide InodeHead, TreeHeader, ExtentTo, Word16, Word32;
    var h, t, e, rest := InodeHead(size), TreeHeader(), ExtentTo(block), Zeros(52);
    ExtentFields(block);
    forall at | at in {0, 4, 6, 8, 56}
      ensures at <= 62 ==> Word16(h + (t + (e + rest)), 52 + at) == Word16(e + rest, at)
      ensures at <= 60 ==> Word32(h + (t + (e + rest)), 52 + at) == Word32(e + rest, at)
    {
      WordsRight(t, e + rest, at);
      WordsRight(h, t + (e + rest), 12 + at);
    }
    WordsLeft(e, rest, 0);
    WordsLeft(e, rest, 4);
    WordsLeft(e, rest, 6);
    WordsLeft(e, rest, 8);
    WordsRight(e, rest, 44);
    ZeroWord(rest, 44);
  }

  lemma ZeroWord(b: seq<byte>, at: nat)
    requires at + 4 <= |b| && forall k :: 0 <= k < |b| ==> b[k] == 0
    ensures Word32(b, at) == 0
  {}

  /** The inode describes exactly the file it was built for. */
  lemma BuiltInode(size: nat, block: nat)
    requires size < U32 && block < U32
    ensures var i := BuildFileInode(size, block);
      && Word16(i, 0) == 0x81A4 && Word16(i, 26) == 1 && Word32(i, 28) == 8 && Word32(i, 32) == 0x80000 && SizeOf(i) == size
      && forall lb: nat :: PhysicalBlock(i, lb) == if lb == 0 then Some(block) else None
  {
    hide BuildFileInode, Word16, Word32;
    var i := BuildFileInode(size, block);
    BuiltHead(size, block);
    BuiltTree(size, block);
    BuiltExtent(size, block);
    forall lb: nat ensures PhysicalBlock(i, lb) == if lb == 0 then Some(block) else None {
      assert FindExtent(i, lb, 1) == None;
    }
  }
}
