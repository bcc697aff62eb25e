/** The operations on a mounted ext4 volume, updating the disk in place (src/fs/ext4/volume.rs,
    src/fs/ext4/mod.rs). */
module Ext4Volume {
  import opened Arithmetic
  import opened Bits
  import opened Common
  import opened Disks
  import opened Words
  import opened Ext4Layout
  import opened Ext4Files
  import opened Ext4Directory

  class Device {
    var disk: Disk
    /** Sectors whose writes fail. */
    const readOnly: set<nat>

    constructor (disk: Disk, readOnly: set<nat>)
      ensures this.disk == disk && this.readOnly == readOnly
    {
      this.disk, this.readOnly := disk, readOnly;
    }

    method WriteSector(lba: nat, data: Sector) returns (ok: bool)
      modifies this`disk
      ensures ok <==> lba in old(disk) && lba !in readOnly
      ensures disk == if ok then old(disk)[lba := data] else old(disk)
    {
      ok := lba in disk && lba !in readOnly;
      if ok { disk := disk[lba := data]; }
    }
  }

  // ------------------------------------------------------------------
  // Whole blocks
  // ------------------------------------------------------------------

  ghost predicate Readable(v: Volume, d: Disk, b: nat) {
    forall s :: InBlock(v, b, s) ==> s in d
  }

  /** Every sector of block `b` exists and can be written. */
  ghost predicate Writable(v: Volume, d: Disk, readOnly: set<nat>, b: nat) {
    forall s :: InBlock(v, b, s) ==> s in d && s !in readOnly
  }

  ghost function BlockBytes(v: Volume, d: Disk, b: nat): (r: seq<byte>)
    requires Geometry(v) && Readable(v, d, b)
    ensures |r| == v.blockSize
  {
    seq(v.blockSize, j requires 0 <= j < v.blockSize =>
      assert InBlock(v, b, BlockSector(v, b) + j / SECTOR);
      d[BlockSector(v, b) + j / SECTOR][j % SECTOR])
  }

  /** The disk after the first `n` sectors of block `b` were overwritten. */
  ghost function StoredPart(v: Volume, d: Disk, b: nat, bytes: seq<byte>, n: nat): Disk
    requires Geometry(v) && |bytes| == v.blockSize && n <= SectorsPerBlock(v)
  {
    map s | s in d :: if BlockSector(v, b) <= s < BlockSector(v, b) + n then
      bytes[(s - BlockSector(v, b)) * SECTOR..(s - BlockSector(v, b)) * SECTOR + SECTOR] else d[s]
  }

  ghost function Stored(v: Volume, d: Disk, b: nat, bytes: seq<byte>): Disk
    requires Geometry(v) && |bytes| == v.blockSize
  {
    StoredPart(v, d, b, bytes, SectorsPerBlock(v))
  }

  /** Nothing outside block `b` differs. */
  ghost predicate OnlyBlock(v: Volume, d: Disk, e: Disk, b: nat) {
    d.Keys == e.Keys && forall s :: s in d && !InBlock(v, b, s) ==> e[s] == d[s]
  }

  lemma StoredSector(v: Volume, d: Disk, b: nat, bytes: seq<byte>, i: nat)
    requires Geometry(v) && |bytes| == v.blockSize && i < SectorsPerBlock(v) && BlockSector(v, b) + i in d
    ensures i * SECTOR + SECTOR <= |bytes|
    ensures Stored(v, d, b, bytes)[BlockSector(v, b) + i] == bytes[i * SECTOR..i * SECTOR + SECTOR]
  {
    hide BlockSector;
    WholeSectors(v, 0);
  }

  lemma SliceByte(bytes: seq<byte>, j: nat)
    requires j < |bytes| && |bytes| % SECTOR == 0
    ensures j / SECTOR * SECTOR + SECTOR <= |bytes| && bytes[j / SECTOR * SECTOR..j / SECTOR * SECTOR + SECTOR][j % SECTOR] == bytes[j]
  {}

  /** What was stored is what is read back. */
  lemma StoredBytes(v: Volume, d: Disk, b: nat, bytes: seq<byte>)
    requires Geometry(v) && Readable(v, d, b) && |bytes| == v.blockSize
    ensures Readable(v, Stored(v, d, b, bytes), b) && BlockBytes(v, Stored(v, d, b, bytes), b) == bytes
    ensures OnlyBlock(v, d, Stored(v, d, b, bytes), b)
  {
    StoredElsewhere(v, d, b, bytes);
    hide BlockSector, Geometry, Stored;
    WholeSectors(v, 0);
    var e := Stored(v, d, b, bytes);
    forall j | 0 <= j < v.blockSize ensures BlockBytes(v, e, b)[j] == bytes[j] {
      assert InBlock(v, b, BlockSector(v, b) + j / SECTOR);
      StoredSector(v, d, b, bytes, j / SECTOR);
      SliceByte(bytes, j);
    }
  }

  lemma StoredElsewhere(v: Volume, d: Disk, b: nat, bytes: seq<byte>)
    requires Geometry(v) && |bytes| == v.blockSize
    ensures OnlyBlock(v, d, Stored(v, d, b, bytes), b)
  {
    hide BlockSector;
  }

  method ReadWhole(v: Volume, d: Disk, b: nat) returns (r: Result<seq<byte>>)
    requires Geometry(v)
    ensures r.Ok? ==> Readable(v, d, b) && r.value == BlockBytes(v, d, b)
    ensures r.Err? ==> r.error == BlockRead && !Readable(v, d, b)
  {
    hide BlockSector, Geometry;
    BlockSizePositive(v);
    WholeSectors(v, 0);
    var bytes: seq<byte> := [];
    for i := 0 to SectorsPerBlock(v)
      invariant |bytes| == i * SECTOR
      invariant forall s :: BlockSector(v, b) <= s < BlockSector(v, b) + i ==> s in d
      invariant forall j :: 0 <= j < i * SECTOR ==> bytes[j] == d[BlockSector(v, b) + j / SECTOR][j % SECTOR]
    {
      var at := BlockSector(v, b) + i;
      if at !in d {
        assert InBlock(v, b, at);
        return Err(BlockRead);
      }
      bytes := bytes + d[at];
    }
    assert bytes == BlockBytes(v, d, b);
    return Ok(bytes);
  }

  method WriteWhole(dev: Device, v: Volume, b: nat, bytes: seq<byte>) returns (ok: bool)
    requires Geometry(v) && |bytes| == v.blockSize
    modifies dev`disk
    ensures OnlyBlock(v, old(dev.disk), dev.disk, b)
    ensures ok ==> Readable(v, old(dev.disk), b) && dev.disk == Stored(v, old(dev.disk), b, bytes)
    ensures ok <==> Writable(v, old(dev.disk), dev.readOnly, b)
  {
    hide BlockSector, Geometry;
    WholeSectors(v, 0);
    ghost var d := dev.disk;
    assert dev.disk == StoredPart(v, d, b, bytes, 0);
    for i := 0 to SectorsPerBlock(v)
      invariant dev.disk == StoredPart(v, d, b, bytes, i)
      invariant forall s :: BlockSector(v, b) <= s < BlockSector(v, b) + i ==> s in d && s !in dev.readOnly
    {
      var done := dev.WriteSector(BlockSector(v, b) + i, bytes[i * SECTOR..i * SECTOR + SECTOR]);
      if !done {
        assert InBlock(v, b, BlockSector(v, b) + i);
        return false;
      }
      assert dev.disk == StoredPart(v, d, b, bytes, i + 1);
    }
    return true;
  }

  /** Stores data at the start of a block and zeros behind it. */
  method WriteDataToBlock(dev: Device, v: Volume, b: nat, data: seq<byte>) returns (r: Result<()>)
    requires Geometry(v)
    modifies dev`disk
    ensures OnlyBlock(v, old(dev.disk), dev.disk, b)
    ensures |data| > v.blockSize ==> r == Err(CorruptedDirectory) && dev.disk == old(dev.disk)
    ensures |data| <= v.blockSize ==> r == if Writable(v, old(dev.disk), dev.readOnly, b) then Ok(()) else Err(BlockWrite)
    ensures r.Ok? ==> |data| <= v.blockSize && Readable(v, old(dev.disk), b)
    ensures r.Ok? ==> dev.disk == Stored(v, old(dev.disk), b, data + Zeros(v.blockSize - |data|))
  {
    if |data| > v.blockSize { return Err(CorruptedDirectory); }
    var ok := WriteWhole(dev, v, b, data + Zeros(v.blockSize - |data|));
    if !ok { return Err(BlockWrite); }
    return Ok(());
  }

  // ------------------------------------------------------------------
  // Bitmaps
  // ------------------------------------------------------------------

  const BITS := 4096

  predicate Bit(s: Sector, i: nat)
    requires i < BITS
  {
    TestBit(s[i / 8], i % 8)
  }

  function WithBit(s: Sector, i: nat): (r: Sector)
    requires i < BITS
  {
    BitOpsFit(s[i / 8], i % 8, 8);
    s[i / 8 := SetBit(s[i / 8], i % 8)]
  }

  /** Marking a bit changes no other. */
  lemma BitAfter(s: Sector, i: nat, j: nat)
    requires i < BITS && j < BITS
    ensures Bit(WithBit(s, i), j) <==> j == i || Bit(s, j)
  {
    TestAfterSet(s[i / 8], i % 8, j % 8);
  }

  /** The lowest clear bit of a bitmap sector; full bytes are skipped whole. */
  method FindClear(s: Sector) returns (r: Option<nat>)
    ensures r.Some? ==> r.value < BITS && !Bit(s, r.value) && forall j :: 0 <= j < r.value ==> Bit(s, j)
    ensures r.None? ==> forall j :: 0 <= j < BITS ==> Bit(s, j)
  {
    for byteIndex := 0 to SECTOR
      invariant forall j :: 0 <= j < byteIndex * 8 ==> Bit(s, j)
    {
      if s[byteIndex] != 0xFF {
        for bitIndex := 0 to 8
          invariant forall j :: 0 <= j < byteIndex * 8 + bitIndex ==> Bit(s, j)
        {
          if !TestBit(s[byteIndex], bitIndex) {
            assert (byteIndex * 8 + bitIndex) / 8 == byteIndex && (byteIndex * 8 + bitIndex) % 8 == bitIndex;
            return Some(byteIndex * 8 + bitIndex);
          }
        }
      } else {
        forall j | byteIndex * 8 <= j < byteIndex * 8 + 8 ensures Bit(s, j) {
          assert Pow2(8) - 1 == 255;
          AllOnes(j % 8, 8);
        }
      }
    }
    return None;
  }

  function BitmapSector(v: Volume, d: Disk, field: nat): nat
    requires BgdSector(v) in d && field <= 8
  {
    BlockSector(v, Descriptor(v, d, 0, field))
  }

  /** What a successful reservation did: the lowest clear bit of the bitmap is now set. */
  ghost predicate Reserved(v: Volume, d: Disk, e: Disk, field: nat, bit: nat)
    requires field <= 8
  {
    && BgdSector(v) in d && BitmapSector(v, d, field) in d && bit < BITS
    && !Bit(d[BitmapSector(v, d, field)], bit)
    && (forall j :: 0 <= j < bit ==> Bit(d[BitmapSector(v, d, field)], j))
    && e == d[BitmapSector(v, d, field) := WithBit(d[BitmapSector(v, d, field)], bit)]
  }

  /** The bitmap named by a descriptor field can be read, has a clear bit and can be written. */
  ghost predicate Reservable(v: Volume, d: Disk, readOnly: set<nat>, field: nat)
    requires field <= 8
  {
    BgdSector(v) in d && BitmapSector(v, d, field) in d && !AllTaken(v, d, field) && BitmapSector(v, d, field) !in readOnly
  }

  ghost predicate AllTaken(v: Volume, d: Disk, field: nat)
    requires field <= 8
  {
    && BgdSector(v) in d && BitmapSector(v, d, field) in d
    && forall j :: 0 <= j < BITS ==> Bit(d[BitmapSector(v, d, field)], j)
  }

  /** Reserves the first free bit of the bitmap named by a field of the first descriptor. */
  method Reserve(dev: Device, v: Volume, field: nat, full: FsError) returns (r: Result<nat>)
    requires field <= 8 && full != BlockRead && full != BlockWrite
    modifies dev`disk
    ensures r.Ok? ==> Reserved(v, old(dev.disk), dev.disk, field, r.value)
    ensures r.Ok? <==> Reservable(v, old(dev.disk), dev.readOnly, field)
    ensures r.Err? ==> dev.disk == old(dev.disk) && r.error in {BlockRead, BlockWrite, full}
    ensures r == Err(full) <==> AllTaken(v, old(dev.disk), field)
    ensures r == Err(BlockRead) <==> !(BgdSector(v) in old(dev.disk) && BitmapSector(v, old(dev.disk), field) in old(dev.disk))
  {
    if BgdSector(v) !in dev.disk { return Err(BlockRead); }
    var at := BitmapSector(v, dev.disk, field);
    if at !in dev.disk { return Err(BlockRead); }
    var clear := FindClear(dev.disk[at]);
    if clear.None? { return Err(full); }
    var ok := dev.WriteSector(at, WithBit(dev.disk[at], clear.value));
    if !ok { return Err(BlockWrite); }
    return Ok(clear.value);
  }

  /** Inode numbers start at 1. */
  method AllocateInode(dev: Device, v: Volume) returns (r: Result<nat>)
    modifies dev`disk
    ensures r.Ok? ==> r.value > 0 && Reserved(v, old(dev.disk), dev.disk, 4, r.value - 1)
    ensures r.Ok? <==> Reservable(v, old(dev.disk), dev.readOnly, 4)
    ensures r.Err? ==> dev.disk == old(dev.disk)
    ensures r == Err(OutOfInodes) <==> AllTaken(v, old(dev.disk), 4)
  {
    r := Reserve(dev, v, 4, OutOfInodes);
    if r.Ok? { r := Ok(r.value + 1); }
  }

  method AllocateBlock(dev: Device, v: Volume) returns (r: Result<nat>)
    modifies dev`disk
    ensures r.Ok? ==> Reserved(v, old(dev.disk), dev.disk, 0, r.value)
    ensures r.Ok? <==> Reservable(v, old(dev.disk), dev.readOnly, 0)
    ensures r.Err? ==> dev.disk == old(dev.disk)
    ensures r == Err(OutOfBlocks) <==> AllTaken(v, old(dev.disk), 0)
  {
    r := Reserve(dev, v, 0, OutOfBlocks);
  }

  // ------------------------------------------------------------------
  // Inodes
  // ------------------------------------------------------------------

  /** The sector an inode is stored in, if it has one. */
  ghost function SlotSector(v: Volume, d: Disk, ino: nat): nat
    requires Geometry(v)
  {
    if ino >= 1 && BgdSector(v) in d then SlotOf(v, d, ino).sector else 0
  }

  /** The disk with an inode stored in its slot, the rest of the sector kept. */
  ghost function WithInode(v: Volume, d: Disk, ino: nat, inode: Inode): Disk
    requires Geometry(v) && ReadInode(v, d, ino).Ok?
  {
    SlotShape(v, d, ino);
    var slot := SlotOf(v, d, ino);
    d[slot.sector := Splice(d[slot.sector], slot.offset, inode)]
  }

  method WriteInode(dev: Device, v: Volume, ino: nat, inode: Inode) returns (r: Result<()>)
    requires Geometry(v)
    modifies dev`disk
    ensures r.Ok? ==> 1 <= ino <= v.inodesCount && ReadInode(v, old(dev.disk), ino).Ok? && dev.disk == WithInode(v, old(dev.disk), ino, inode)
    ensures r.Err? ==> dev.disk == old(dev.disk)
    ensures match ReadInode(v, old(dev.disk), ino)
            case Err(e) => r == Err(e)
            case Ok(_) => r == if SlotSector(v, old(dev.disk), ino) in dev.readOnly then Err(BlockWrite) else Ok(())
  {
    if ino < 1 || ino > v.inodesCount { return Err(CorruptedDirectory); }
    if BgdSector(v) !in dev.disk { return Err(BlockRead); }
    SlotShape(v, dev.disk, ino);
    var slot := SlotOf(v, dev.disk, ino);
    if slot.sector !in dev.disk { return Err(BlockRead); }
    var ok := dev.WriteSector(slot.sector, Splice(dev.disk[slot.sector], slot.offset, inode));
    if !ok { return Err(BlockWrite); }
    return Ok(());
  }

  // ------------------------------------------------------------------
  // Directories
  // ------------------------------------------------------------------

  datatype Node = Node(ino: nat, inode: Inode, isDirectory: bool, size: nat)

  function NodeOf(ino: nat, inode: Inode): Node {
    Node(ino, inode, IsDirectory(inode), SizeOf(inode))
  }

  /** The root directory is inode 2; one that cannot be read counts as all zeros. */
  function NewRoot(v: Volume, d: Disk): Node
    requires Geometry(v)
  {
    match ReadInode(v, d, 2)
    case Ok(inode) => NodeOf(2, inode)
    case Err(_) => NodeOf(2, Zeros(INODE_BYTES))
  }

  /** Walks the records of any block to where the walk ends. */
  method FindLast(block: seq<byte>) returns (r: End)
    ensures r == EndOf(block, 0)
    ensures r.Last? ==> r.offset + HEADER_READ <= |block| && r.offset + EntryLen(block, r.offset) == |block|
  {
    hide EntryLen, NameLen;
    var o := 0;
    while o + HEADER_READ <= |block|
      invariant 0 <= o && EndOf(block, o) == EndOf(block, 0)
      decreases |block| - o
    {
      var len := EntryLen(block, o);
      if o + len == |block| { return Last(o); }
      o := o + len;
      if o >= |block| || len == 0 { return Nowhere; }
    }
    return End.Outside;
  }

  /** What adding an entry makes of the disk, if nothing fails while writing. */
  ghost function EntryAdded(v: Volume, d: Disk, node: Node, name: Name, ino: nat): Edit<Disk>
    requires Geometry(v)
  {
    var b := PhysicalBlock(node.inode, 0);
    if !node.isDirectory || b.None? then Refused(CorruptedDirectory)
    else if !Readable(v, d, b.value) then Refused(BlockRead)
    else
      match Insertion(BlockBytes(v, d, b.value), ino, name)
      case Done(block) => InsertionSize(BlockBytes(v, d, b.value), ino, name); Done(Stored(v, d, b.value, block))
      case Refused(error) => Refused(error)
      case Overrun => Overrun
  }

  lemma InsertionSize(block: seq<byte>, ino: nat, name: Name)
    ensures Insertion(block, ino, name).Done? ==> |Insertion(block, ino, name).value| == |block|
  {}

  /** On any disk: cuts down the last record of the directory's first block and puts the new one
      behind it. A refusal leaves the disk as it was, and so does an overrun, which happens in
      memory before anything is written. */
  method AddEntry(dev: Device, v: Volume, node: Node, name: Name, ino: nat) returns (r: Edit<()>)
    requires Geometry(v)
    modifies dev`disk
    ensures r.Done? ==> EntryAdded(v, old(dev.disk), node, name, ino) == Done(dev.disk)
    ensures r.Overrun? <==> EntryAdded(v, old(dev.disk), node, name, ino).Overrun?
    ensures r.Overrun? || (r.Refused? && r.error != BlockWrite) ==> dev.disk == old(dev.disk)
    ensures r.Refused? && r.error != BlockWrite ==> EntryAdded(v, old(dev.disk), node, name, ino) == Refused(r.error)
    ensures r == Refused(BlockWrite) ==> PhysicalBlock(node.inode, 0).Some? && OnlyBlock(v, old(dev.disk), dev.disk, PhysicalBlock(node.inode, 0).value)
    ensures dev.disk == old(dev.disk) || (PhysicalBlock(node.inode, 0).Some? && OnlyBlock(v, old(dev.disk), dev.disk, PhysicalBlock(node.inode, 0).value))
    ensures r.Done? <==> EntryAdded(v, old(dev.disk), node, name, ino).Done? && Writable(v, old(dev.disk), dev.readOnly, PhysicalBlock(node.inode, 0).value)
  {
    hide PhysicalBlock, BlockBytes, Readable, Writable, Stored, EndOf, EntryLen, NameLen, NewRecord, Aligned;
    if !node.isDirectory { return Refused(CorruptedDirectory); }
    var b := PhysicalBlock(node.inode, 0);
    if b.None? { return Refused(CorruptedDirectory); }
    var read := ReadWhole(v, dev.disk, b.value);
    if read.Err? { return Refused(BlockRead); }
    var buffer := read.value;
    var last := FindLast(buffer);
    if last.Outside? { return Overrun; }
    if last.Nowhere? { return Refused(CorruptedDirectory); }
    var o := last.offset;
    var used := Aligned(8 + NameLen(buffer, o));
    var left := (EntryLen(buffer, o) - used) % WORD;
    if left < Aligned(8 + |name|) { return Refused(NoSpace); }
    if o + used + 8 + |name| > |buffer| { return Overrun; }
    buffer := Splice(buffer, o + 4, Bytes16(used));
    buffer := Splice(buffer, o + used, NewRecord(ino, left, name));
    var ok := WriteWhole(dev, v, b.value, buffer);
    if !ok { return Refused(BlockWrite); }
    return Done(());
  }

  /** The insertion leaves its buffer exactly on directories whose first block can be read and has
      a reachable fatal record. */
  lemma EntryOverrunIff(v: Volume, d: Disk, node: Node, name: Name, ino: nat)
    requires Geometry(v) && |name| < WORD / 2
    ensures EntryAdded(v, d, node, name, ino).Overrun? <==>
      && node.isDirectory && PhysicalBlock(node.inode, 0).Some? && Readable(v, d, PhysicalBlock(node.inode, 0).value)
      && Unsafe(BlockBytes(v, d, PhysicalBlock(node.inode, 0).value))
  {
    hide PhysicalBlock, BlockBytes, Insertion, Unsafe, Stored;
    var b := PhysicalBlock(node.inode, 0);
    if b.Some? && Readable(v, d, b.value) {
      OverrunIff(BlockBytes(v, d, b.value), ino, name);
    }
  }

  /** Walks the records of the bytes read. */
  method Search(v: Volume, d: Disk, bytes: seq<byte>, name: Name) returns (r: Option<Node>)
    requires Geometry(v)
    ensures r == match Find(v, d, bytes, 0, name) case None => None case Some(found) => Some(NodeOf(found.0, found.1))
  {
    hide Geometry, ReadInode, EntryInode, EntryLen, NameLen, NodeOf;
    var o := 0;
    while o < |bytes|
      invariant Find(v, d, bytes, o, name) == Find(v, d, bytes, 0, name)
      decreases |bytes| - o
    {
      var len, ino, nameLen := EntryLen(bytes, o), EntryInode(bytes, o), NameLen(bytes, o);
      if len == 0 { break; }
      if ino != 0 {
        if o + 8 + nameLen > |bytes| { break; }
        if bytes[o + 8..o + 8 + nameLen] == name {
          var child := ReadInode(v, d, ino);
          if child.Ok? { return Some(NodeOf(ino, child.value)); }
        }
      }
      o := o + len;
    }
    return None;
  }

  /** Reads the whole directory and looks a name up in it; `data` is what could be read. */
  method Lookup(v: Volume, d: Disk, node: Node, name: Name) returns (r: Option<Node>, ghost data: seq<byte>)
    requires Geometry(v)
    ensures !node.isDirectory ==> r == None
    ensures node.isDirectory ==> ReadsPrefix(data, node.size, 0, Content(v, d, node.inode))
    ensures node.isDirectory ==>
      r == match Find(v, d, data, 0, name) case None => None case Some(found) => Some(NodeOf(found.0, found.1))
  {
    hide Geometry, Content, Find, NodeOf;
    if !node.isDirectory { return None, []; }
    var buffer := new byte[node.size](_ => 0);
    var n := Read(v, d, node.inode, node.size, 0, buffer);
    var bytes := buffer[..n];
    assert Wanted(node.size, 0, buffer.Length) == node.size;
    r := Search(v, d, bytes, name);
    return r, bytes;
  }
}
