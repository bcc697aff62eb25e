/** On-disk ext4 structures as the format writes them: group descriptors, inodes, extents and
    directory records as encodings of their fields, one after the other, and what the driver reads
    from them (src/fs/ext4/block_group.rs, inode.rs, extents.rs, dir_entry.rs). */
module Ext4Format {
  import opened Arithmetic
  import opened Common
  import opened Disks
  import opened Records
  import opened Words
  import opened Ext4Layout
  import opened Ext4Files
  import opened Ext4Directory

  /** Fixed-width fields are little-endian numbers. */
  lemma WordsRead(b: seq<byte>, at: nat, x: nat)
    ensures Has(b, at, 2, x) ==> Word16(b, at) == x
    ensures Has(b, at, 4, x) ==> Word32(b, at) == x
  {
    hide Limit;
    if Has(b, at, 2, x) { ReadTwo(b, at, x); }
    if Has(b, at, 4, x) { ReadFour(b, at, x); }
  }

  lemma ReadTwo(b: seq<byte>, at: nat, x: nat)
    requires Has(b, at, 2, x)
    ensures Word16(b, at) == x
  {
    Limits();
    TwoDigits(x);
    assert b[at] == b[at..at + 2][0] && b[at + 1] == b[at..at + 2][1];
  }

  lemma ReadFour(b: seq<byte>, at: nat, x: nat)
    requires Has(b, at, 4, x)
    ensures Word32(b, at) == x
  {
    Limits();
    FourDigits(x);
    var e := b[at..at + 4];
    assert b[at] == e[0] && b[at + 1] == e[1] && b[at + 2] == e[2] && b[at + 3] == e[3];
  }

  lemma TwoDigits(x: nat)
    ensures Digits(x, 2) == [x % 256, x / 256 % 256]
  {
    assert Digits(x / 256, 1) == [x / 256 % 256];
  }

  lemma FourDigits(x: nat)
    ensures Digits(x, 4) == [x % 256, x / 256 % 256, x / 256 / 256 % 256, x / 256 / 256 / 256 % 256]
  {
    TwoDigits(x / 256 / 256);
    assert Digits(x / 256, 3) == [x / 256 % 256] + Digits(x / 256 / 256, 2);
  }

  // ------------------------------------------------------------------
  // Group descriptors
  // ------------------------------------------------------------------

  const DESCRIPTOR := 32

  /** A group's descriptor; `rest` is what the driver does not look at. */
  datatype Group = Group(blockMap: nat, inodeMap: nat, table: nat, rest: seq<byte>)

  predicate GroupFits(g: Group) {
    g.blockMap < Limit(4) && g.inodeMap < Limit(4) && g.table < Limit(4) && |g.rest| == DESCRIPTOR - 12
  }

  function GroupBytes(g: Group): seq<byte> {
    Digits(g.blockMap, 4) + Digits(g.inodeMap, 4) + Digits(g.table, 4) + g.rest
  }

  /** The descriptors one after the other. */
  function GroupTable(groups: seq<Group>): seq<byte> {
    if groups == [] then [] else GroupBytes(groups[0]) + GroupTable(groups[1..])
  }

  /** The volume's descriptor table is `groups`; the driver looks at its first sector only. */
  ghost predicate Describes(v: Volume, d: Disk, groups: seq<Group>) {
    && (forall g :: 0 <= g < |groups| ==> GroupFits(groups[g]))
    && BgdSector(v) in d
    && forall n :: 0 <= n < SECTOR && n < |GroupTable(groups)| ==> d[BgdSector(v)][n] == GroupTable(groups)[n]
  }

  lemma {:induction false} GroupAt(groups: seq<Group>, g: nat)
    requires g < |groups| && forall i :: 0 <= i < |groups| ==> GroupFits(groups[i])
    ensures DESCRIPTOR * (g + 1) <= |GroupTable(groups)| && GroupTable(groups)[DESCRIPTOR * g..DESCRIPTOR * (g + 1)] == GroupBytes(groups[g])
  {
    hide Digits, GroupBytes, Limit;
    GroupSize(groups[0]);
    var rest := GroupTable(groups[1..]);
    if g > 0 {
      GroupAt(groups[1..], g - 1);
      assert GroupTable(groups)[DESCRIPTOR * g..DESCRIPTOR * (g + 1)] == rest[DESCRIPTOR * (g - 1)..DESCRIPTOR * g];
    }
  }

  lemma GroupSize(g: Group)
    requires GroupFits(g)
    ensures |GroupBytes(g)| == DESCRIPTOR
  {}

  lemma GroupFields(g: Group)
    requires GroupFits(g)
    ensures var b := GroupBytes(g); Has(b, 0, 4, g.blockMap) && Has(b, 4, 4, g.inodeMap) && Has(b, 8, 4, g.table)
  {
    hide Digits, Limit;
    var b := GroupBytes(g);
    assert b[0..4] == Digits(g.blockMap, 4) && b[4..8] == Digits(g.inodeMap, 4) && b[8..12] == Digits(g.table, 4);
  }

  /** What the driver takes for group `g`'s descriptor is record `g` modulo 16. */
  lemma DescriptorRead(v: Volume, d: Disk, groups: seq<Group>, g: nat)
    requires Describes(v, d, groups) && g % 16 < |groups|
    ensures Descriptor(v, d, g, 0) == groups[g % 16].blockMap && Descriptor(v, d, g, 4) == groups[g % 16].inodeMap
    ensures Descriptor(v, d, g, 8) == groups[g % 16].table
  {
    GroupSlice(v, d, groups, g % 16);
    assert GroupFits(groups[g % 16]);
    GroupFields(groups[g % 16]);
    hide Digits, Limit, GroupBytes, Has, GroupTable, BgdSector, Word32, Describes, GroupFits;
    var k, s, b := g % 16, d[BgdSector(v)], GroupBytes(groups[g % 16]);
    assert 32 * g % SECTOR == DESCRIPTOR * k;
    HasWithin(s, DESCRIPTOR * k, b, 0, 4, groups[k].blockMap);
    HasWithin(s, DESCRIPTOR * k, b, 4, 4, groups[k].inodeMap);
    HasWithin(s, DESCRIPTOR * k, b, 8, 4, groups[k].table);
    WordsRead(s, DESCRIPTOR * k, groups[k].blockMap);
    WordsRead(s, DESCRIPTOR * k + 4, groups[k].inodeMap);
    WordsRead(s, DESCRIPTOR * k + 8, groups[k].table);
  }

  lemma GroupSlice(v: Volume, d: Disk, groups: seq<Group>, k: nat)
    requires Describes(v, d, groups) && k < |groups| && k < 16
    ensures |GroupBytes(groups[k])| == DESCRIPTOR
    ensures d[BgdSector(v)][DESCRIPTOR * k..DESCRIPTOR * k + DESCRIPTOR] == GroupBytes(groups[k])
  {
    hide Limit, GroupBytes, GroupTable, BgdSector;
    GroupAt(groups, k);
    GroupSize(groups[k]);
    var s, all, b := d[BgdSector(v)], GroupTable(groups), GroupBytes(groups[k]);
    var c := s[DESCRIPTOR * k..DESCRIPTOR * k + DESCRIPTOR];
    forall i | 0 <= i < DESCRIPTOR ensures c[i] == b[i] {
      assert all[DESCRIPTOR * k..DESCRIPTOR * (k + 1)][i] == b[i];
      assert s[DESCRIPTOR * k + i] == all[DESCRIPTOR * k + i];
    }
    assert c == b;
  }

  /** Descriptors of which only the last has an inode table elsewhere than at block 0. */
  function OneOdd(g: nat): (r: seq<Group>)
    ensures |r| == g + 1 && forall i :: 0 <= i <= g ==> GroupFits(r[i]) && r[i].table == if i == g then 1 else 0
  {
    Limits();
    seq(g + 1, i => Group(0, 0, if i == g then 1 else 0, Zeros(DESCRIPTOR - 12)))
  }

  /** The inode table the driver finds is the group's own, on every volume, exactly for the first
      sixteen groups. */
  lemma DescriptorIff(v: Volume, g: nat)
    ensures (forall d: Disk, groups: seq<Group> :: Describes(v, d, groups) && g < |groups| ==> Descriptor(v, d, g, 8) == groups[g].table) <==> g < 16
  {
    forall d: Disk, groups: seq<Group> | Describes(v, d, groups) && g < |groups| && g < 16 ensures Descriptor(v, d, g, 8) == groups[g].table {
      DescriptorRead(v, d, groups, g);
    }
    if g >= 16 { WrongTable(v, g); }
  }

  lemma WrongTable(v: Volume, g: nat)
    requires g >= 16
    ensures exists d: Disk, groups: seq<Group> :: Describes(v, d, groups) && g < |groups| && Descriptor(v, d, g, 8) != groups[g].table
  {
    hide Digits, GroupTable, Descriptor, GroupBytes;
    Limits();
    var groups := OneOdd(g);
    GroupAt(groups, 15);
    var sector: Sector := GroupTable(groups)[..SECTOR];
    var d: Disk := map[BgdSector(v) := sector];
    assert Describes(v, d, groups);
    DescriptorRead(v, d, groups, g);
  }

  /** Byte `n` of the volume. */
  function VolumeByte(v: Volume, d: Disk, n: nat): Option<byte> {
    var at := v.startLba + n / SECTOR;
    if at in d then Some(d[at][n % SECTOR]) else None
  }

  /** The table follows the block that holds the superblock, which is byte 1024 on. */
  lemma DescriptorsFollowSuperblock(v: Volume)
    requires Geometry(v)
    ensures BgdBlock(v) == 1024 / v.blockSize + 1
    ensures BgdSector(v) == v.startLba + (1024 / v.blockSize + 1) * v.blockSize / SECTOR
  {
    WholeSectors(v, BgdBlock(v));
  }

  /** `read_inode` copies the slot of 256 bytes that is the inode's in the table of its group, and
      fails exactly if that cannot be read. */
  lemma ReadsSlot(v: Volume, d: Disk, groups: seq<Group>, ino: nat)
    requires Geometry(v) && Describes(v, d, groups) && 1 <= ino <= v.inodesCount && (ino - 1) / v.inodesPerGroup < |groups|
    ensures var first := groups[(ino - 1) / v.inodesPerGroup].table * v.blockSize + 256 * ((ino - 1) % v.inodesPerGroup);
      if VolumeByte(v, d, first).None? then ReadInode(v, d, ino) == Err(BlockRead)
      else ReadInode(v, d, ino).Ok? && forall j :: 0 <= j < INODE_BYTES ==> VolumeByte(v, d, first + j) == Some(ReadInode(v, d, ino).value[j])
  {
    hide Descriptor, Describes, BgdSector, Word32, SlotOf, VolumeByte;
    var first := groups[(ino - 1) / v.inodesPerGroup].table * v.blockSize + 256 * ((ino - 1) % v.inodesPerGroup);
    DescribedVolume(v, d, groups);
    SlotPlace(v, d, groups, ino);
    SlotByte(v, d, first, 0);
    if ReadInode(v, d, ino).Ok? {
      var i := ReadInode(v, d, ino).value;
      forall j | 0 <= j < INODE_BYTES ensures VolumeByte(v, d, first + j) == Some(i[j]) { SlotByte(v, d, first, j); }
    }
  }

  lemma SlotPlace(v: Volume, d: Disk, groups: seq<Group>, ino: nat)
    requires Geometry(v) && Describes(v, d, groups) && 1 <= ino <= v.inodesCount && (ino - 1) / v.inodesPerGroup < |groups|
    ensures BgdSector(v) in d
    ensures var first := groups[(ino - 1) / v.inodesPerGroup].table * v.blockSize + 256 * ((ino - 1) % v.inodesPerGroup);
      first >= 0 && SlotOf(v, d, ino) == Slot(v.startLba + first / SECTOR, first % SECTOR) && first % SECTOR <= 256
  {
    hide Descriptor, Describes, BgdSector, Word32;
    DescribedVolume(v, d, groups);
    GroupInReach(v, ino);
    DescriptorRead(v, d, groups, (ino - 1) / v.inodesPerGroup);
    MulNat(groups[(ino - 1) / v.inodesPerGroup].table, v.blockSize);
    SlotShape(v, d, ino);
  }

  /** A slot never straddles two sectors. */
  lemma SlotByte(v: Volume, d: Disk, first: nat, j: nat)
    requires first % SECTOR <= 256 && j < INODE_BYTES
    ensures VolumeByte(v, d, first + j) == if v.startLba + first / SECTOR in d then Some(d[v.startLba + first / SECTOR][first % SECTOR + j]) else None
  {
    assert (first + j) / SECTOR == first / SECTOR && (first + j) % SECTOR == first % SECTOR + j;
  }

  lemma DescribedVolume(v: Volume, d: Disk, groups: seq<Group>)
    requires Describes(v, d, groups)
    ensures BgdSector(v) in d
  {}

  lemma GroupInReach(v: Volume, ino: nat)
    requires Geometry(v) && 1 <= ino <= v.inodesCount
    ensures (ino - 1) / v.inodesPerGroup < 16
  {
    Quotient(ino - 1, v.inodesPerGroup, 16);
  }

  lemma Quotient(x: nat, n: nat, k: nat)
    requires n > 0 && x < k * n
    ensures x / n < k
  {
    var q := x / n;
    assert x == q * n + x % n;
    if k < q { MulStrict(k, q, n); }
  }

  // ------------------------------------------------------------------
  // Inodes and extents
  // ------------------------------------------------------------------

  /** A stretch of a file: `length` logical blocks from `first` on, stored from `block` on. */
  datatype Extent = Extent(first: nat, length: nat, block: nat)

  predicate ExtentFits(e: Extent) {
    e.first < Limit(4) && e.length < Limit(2) && e.block < Limit(6)
  }

  /** The block number is split: its high 16 bits come before its low 32. */
  function ExtentBytes(e: Extent): seq<byte> {
    Digits(e.first, 4) + Digits(e.length, 2) + Digits(e.block / U32, 2) + Digits(e.block % U32, 4)
  }

  /** `room` slots for extents, of which the first are used. */
  function ExtentSlots(extents: seq<Extent>, room: nat): (r: seq<byte>) {
    if extents == [] then Zeros(12 * room)
    else ExtentBytes(extents[0]) + ExtentSlots(extents[1..], if room > 0 then room - 1 else 0)
  }

  /** What `i_block` holds: a tree node of the given depth with room for four. */
  datatype Node = Node(magic: nat, depth: nat, generation: nat, extents: seq<Extent>)

  predicate NodeFits(t: Node) {
    && t.magic < Limit(2) && t.depth < Limit(2) && t.generation < Limit(4) && |t.extents| <= 4
    && forall k :: 0 <= k < |t.extents| ==> ExtentFits(t.extents[k])
  }

  function NodeHead(t: Node): seq<byte> {
    Digits(t.magic, 2) + Digits(|t.extents|, 2) + Digits(4, 2) + Digits(t.depth, 2) + Digits(t.generation, 4)
  }

  function NodeBytes(t: Node): seq<byte> {
    NodeHead(t) + ExtentSlots(t.extents, 4)
  }

  /** An inode; `times` are four time stamps. */
  datatype InodeRecord = InodeRecord(mode: nat, uid: nat, size: nat, times: seq<byte>, gid: nat, links: nat, sectors: nat, flags: nat, osd1: nat,
                           tree: Node, generation: nat, acl: nat, faddr: nat)

  predicate RecordFits(r: InodeRecord) {
    r.mode < Limit(2) && r.size < Limit(8) && |r.times| == 16 && NodeFits(r.tree)
  }

  /** The fields before the tree and those after it; the size is split between the two. */
  function Front(r: InodeRecord): seq<byte> {
    Digits(r.mode, 2) + Digits(r.uid, 2) + Digits(r.size % U32, 4) + r.times + Digits(r.gid, 2) + Digits(r.links, 2) + Digits(r.sectors, 4)
      + Digits(r.flags, 4) + Digits(r.osd1, 4)
  }

  function Back(r: InodeRecord): seq<byte> {
    Digits(r.generation, 4) + Digits(r.acl, 4) + Digits(r.size / U32, 4) + Digits(r.faddr, 4)
  }

  function RecordBytes(r: InodeRecord): seq<byte> {
    Front(r) + NodeBytes(r.tree) + Back(r)
  }

  /** The extent that holds a logical block, by the format's rule. */
  predicate Covers(e: Extent, lb: nat) {
    e.first <= lb < e.first + e.length
  }

  /** Where the extents store a logical block. */
  function Resolve(extents: seq<Extent>, lb: nat): Option<nat> {
    if extents == [] then None
    else if Covers(extents[0], lb) then Some(extents[0].block + (lb - extents[0].first))
    else Resolve(extents[1..], lb)
  }

  /** The driver's 32-bit sum keeps to the rule for every logical block exactly if it does not wrap,
      or the extent is empty. */
  lemma ExtentRuleIff(e: Extent)
    requires e.first < U32 && e.length < U16
    ensures (forall lb: nat :: lb < U32 ==> (e.first <= lb < (e.first + e.length) % U32 <==> Covers(e, lb)))
        <==> e.first + e.length < U32 || e.length == 0
  {
    if e.first + e.length >= U32 && e.length > 0 { assert Covers(e, e.first); }
  }

  lemma {:induction false} SlotsAt(extents: seq<Extent>, room: nat, k: nat)
    requires |extents| <= room && forall i :: 0 <= i < |extents| ==> ExtentFits(extents[i])
    ensures |ExtentSlots(extents, room)| == 12 * room
    ensures k < |extents| ==> ExtentSlots(extents, room)[12 * k..12 * k + 12] == ExtentBytes(extents[k])
    decreases room
  {
    hide Digits, ExtentBytes, Limit;
    if extents != [] {
      ExtentSize(extents[0]);
      SlotsAt(extents[1..], room - 1, if k > 0 then k - 1 else 0);
      var rest := ExtentSlots(extents[1..], room - 1);
      if 0 < k < |extents| {
        assert ExtentSlots(extents, room)[12 * k..12 * k + 12] == rest[12 * (k - 1)..12 * (k - 1) + 12];
      }
    }
  }

  lemma ExtentSize(e: Extent)
    ensures |ExtentBytes(e)| == 12
  {}

  lemma ExtentParts(e: Extent)
    requires ExtentFits(e)
    ensures var b := ExtentBytes(e); Has(b, 0, 4, e.first) && Has(b, 4, 2, e.length) && Has(b, 6, 2, e.block / U32) && Has(b, 8, 4, e.block % U32)
  {
    hide Digits;
    Limits();
    assert Limit(6) == U32 * U16 by { assert Limit(5) == 256 * Limit(4); }
    assert e.block / U32 < U16;
    hide Limit;
    var b := ExtentBytes(e);
    assert b[0..4] == Digits(e.first, 4) && b[4..6] == Digits(e.length, 2) && b[6..8] == Digits(e.block / U32, 2) && b[8..12] == Digits(e.block % U32, 4);
  }

  lemma NodeHeadParts(t: Node)
    requires NodeFits(t)
    ensures var b := NodeHead(t); |b| == 12 && Has(b, 0, 2, t.magic) && Has(b, 2, 2, |t.extents|) && Has(b, 6, 2, t.depth)
  {
    Limits();
    hide Digits, Limit, ExtentFits;
    var b := NodeHead(t);
    assert b[0..2] == Digits(t.magic, 2) && b[2..4] == Digits(|t.extents|, 2) && b[6..8] == Digits(t.depth, 2);
  }

  lemma NodeParts(t: Node)
    requires NodeFits(t)
    ensures var b := NodeBytes(t); |b| == 60 && Has(b, 0, 2, t.magic) && Has(b, 2, 2, |t.extents|) && Has(b, 6, 2, t.depth)
  {
    NodeHeadParts(t);
    SlotsAt(t.extents, 4, 0);
    hide Digits, Limit, NodeHead, ExtentSlots, ExtentFits, Has;
    var b, h := NodeBytes(t), NodeHead(t);
    assert b[0..0 + |h|] == h;
    HasWithin(b, 0, h, 0, 2, t.magic);
    HasWithin(b, 0, h, 2, 2, |t.extents|);
    HasWithin(b, 0, h, 6, 2, t.depth);
  }

  lemma NodeExtent(t: Node, k: nat)
    requires NodeFits(t) && k < |t.extents|
    ensures |NodeBytes(t)| == 60 && NodeBytes(t)[12 + 12 * k..24 + 12 * k] == ExtentBytes(t.extents[k])
  {
    NodeHeadParts(t);
    SlotsAt(t.extents, 4, k);
    hide Digits, Limit, NodeHead, ExtentSlots, ExtentFits, Has, ExtentBytes;
    var b, slots := NodeBytes(t), ExtentSlots(t.extents, 4);
    assert b[12..60] == slots;
    SliceOfSlice(b, 12, 60, 12 * k, 12 * k + 12);
  }

  lemma SliceOfSlice(s: seq<byte>, lo: nat, hi: nat, a: nat, b: nat)
    requires lo <= hi <= |s| && a <= b <= hi - lo
    ensures s[lo..hi][a..b] == s[lo + a..lo + b]
  {
    var x, y := s[lo..hi][a..b], s[lo + a..lo + b];
    forall i | 0 <= i < |x| ensures x[i] == y[i] {}
    assert x == y;
  }

  lemma RecordParts(r: InodeRecord)
    requires RecordFits(r)
    ensures var b := RecordBytes(r);
      |b| == INODE_BYTES && Has(b, 0, 2, r.mode) && Has(b, 4, 4, r.size % U32) && Has(b, 108, 4, r.size / U32) && b[40..100] == NodeBytes(r.tree)
  {
    Limits();
    hide Digits, Limit, NodeBytes;
    NodeParts(r.tree);
    var b, f, k := RecordBytes(r), Front(r), Back(r);
    assert |f| == 40 && f[0..2] == Digits(r.mode, 2) && f[4..8] == Digits(r.size % U32, 4);
    assert |k| == 16 && k[8..12] == Digits(r.size / U32, 4);
    assert b[..40] == f && b[40..100] == NodeBytes(r.tree) && b[100..] == k;
    assert b[0..2] == f[0..2] && b[4..8] == f[4..8] && b[108..112] == k[8..12];
  }

  /** Mode and size are read as they were written. */
  lemma InodeRead(r: InodeRecord)
    requires RecordFits(r)
    ensures |RecordBytes(r)| == INODE_BYTES && SizeOf(RecordBytes(r)) == r.size
    ensures (IsDirectory(RecordBytes(r)) <==> r.mode / 0x1000 == 4) && (IsRegular(RecordBytes(r)) <==> r.mode / 0x1000 == 8)
  {
    RecordParts(r);
    hide RecordBytes, Has, Word16, Word32, Limit;
    var b := RecordBytes(r);
    WordsRead(b, 0, r.mode);
    WordsRead(b, 4, r.size % U32);
    WordsRead(b, 108, r.size / U32);
  }

  lemma NodeRead(i: Inode, t: Node)
    requires NodeFits(t) && i[40..100] == NodeBytes(t)
    ensures Word16(i, 40) == t.magic && Word16(i, 42) == |t.extents| && Word16(i, 46) == t.depth
  {
    NodeParts(t);
    hide NodeBytes, Has, Word16, Word32, Limit;
    var b := NodeBytes(t);
    HasWithin(i, 40, b, 0, 2, t.magic);
    HasWithin(i, 40, b, 2, 2, |t.extents|);
    HasWithin(i, 40, b, 6, 2, t.depth);
    WordsRead(i, 40, t.magic);
    WordsRead(i, 42, |t.extents|);
    WordsRead(i, 46, t.depth);
  }

  lemma ExtentSlice(i: Inode, t: Node, k: nat)
    requires NodeFits(t) && i[40..100] == NodeBytes(t) && k < |t.extents|
    ensures i[52 + 12 * k..64 + 12 * k] == ExtentBytes(t.extents[k])
  {
    NodeExtent(t, k);
    hide NodeBytes, ExtentBytes, NodeFits;
    SliceOfSlice(i, 40, 100, 12 + 12 * k, 24 + 12 * k);
  }

  lemma ExtentRead(i: Inode, t: Node, k: nat)
    requires NodeFits(t) && i[40..100] == NodeBytes(t) && k < |t.extents|
    ensures var e := t.extents[k];
      Word32(i, 52 + 12 * k) == e.first && Word16(i, 56 + 12 * k) == e.length
      && Word16(i, 58 + 12 * k) * U32 + Word32(i, 60 + 12 * k) == e.block
  {
    ExtentSlice(i, t, k);
    assert ExtentFits(t.extents[k]);
    ExtentParts(t.extents[k]);
    ExtentSize(t.extents[k]);
    hide NodeBytes, Has, Word16, Word32, Limit, ExtentBytes, NodeFits, ExtentFits;
    var e, x := t.extents[k], ExtentBytes(t.extents[k]);
    HasWithin(i, 52 + 12 * k, x, 0, 4, e.first);
    HasWithin(i, 52 + 12 * k, x, 4, 2, e.length);
    HasWithin(i, 52 + 12 * k, x, 6, 2, e.block / U32);
    HasWithin(i, 52 + 12 * k, x, 8, 4, e.block % U32);
    WordsRead(i, 52 + 12 * k, e.first);
    WordsRead(i, 56 + 12 * k, e.length);
    WordsRead(i, 58 + 12 * k, e.block / U32);
    WordsRead(i, 60 + 12 * k, e.block % U32);
  }

  lemma {:induction false} FindsExtent(i: Inode, t: Node, lb: nat, k: nat)
    requires NodeFits(t) && i[40..100] == NodeBytes(t) && k <= |t.extents|
    requires forall j :: 0 <= j < |t.extents| ==> t.extents[j].first + t.extents[j].length < U32
    ensures FindExtent(i, lb, k) == Resolve(t.extents[k..], lb)
    decreases 4 - k
  {
    hide NodeBytes, NodeFits, Word16, Word32;
    NodeRead(i, t);
    NodeRoom(t);
    if k < |t.extents| {
      ExtentRead(i, t, k);
      FindsExtent(i, t, lb, k + 1);
      assert t.extents[k..][0] == t.extents[k] && t.extents[k..][1..] == t.extents[k + 1..];
    }
  }

  lemma NodeRoom(t: Node)
    requires NodeFits(t)
    ensures |t.extents| <= 4
  {}

  /** A leaf node gives the block of its first extent that covers the logical one; anything else
      gives nothing. */
  lemma TreeRead(r: InodeRecord, lb: nat)
    requires RecordFits(r) && forall j :: 0 <= j < |r.tree.extents| ==> r.tree.extents[j].first + r.tree.extents[j].length < U32
    ensures |RecordBytes(r)| == INODE_BYTES
    ensures PhysicalBlock(RecordBytes(r), lb) == if r.tree.magic == 0xF30A && r.tree.depth == 0 then Resolve(r.tree.extents, lb) else None
  {
    RecordParts(r);
    hide RecordBytes, NodeBytes, Word16, Word32, FindExtent, NodeFits;
    NodeRead(RecordBytes(r), r.tree);
    FindsExtent(RecordBytes(r), r.tree, lb, 0);
    assert r.tree.extents[0..] == r.tree.extents;
  }

  lemma SameBytes(x: nat)
    ensures Bytes16(x) == Digits(x, 2) && Bytes32(x) == Digits(x, 4)
  {
    TwoDigits(x);
    FourDigits(x);
    TwoBytesUp(x);
    hide Digits;
    assert Bytes16(x / U16) == [x / 256 / 256 % 256, x / 256 / 256 / 256 % 256];
  }

  lemma TwoBytesUp(x: nat)
    ensures x / U16 == x / 256 / 256
  {
    var q, r := x / U16, x % U16;
    assert x == 256 * (256 * q) + r;
    assert x / 256 == 256 * q + r / 256;
  }

  lemma {:induction false} ZeroDigits(n: nat)
    ensures Digits(0, n) == Zeros(n)
  {
    if n > 0 { ZeroDigits(n - 1); }
  }

  /** The inode the driver builds for a file with one block. */
  function BuiltRecord(size: nat, block: nat): InodeRecord {
    InodeRecord(0x81A4, 0, size, Zeros(16), 0, 1, 8, 0x80000, 0, Node(0xF30A, 0, 0, [Extent(0, 1, block)]), 0, 0, 0)
  }

  /** It is the encoding of these fields: a regular file, readable by all, of one extent. */
  lemma BuiltEncoded(size: nat, block: nat)
    requires size < U32 && block < U32
    ensures BuildFileInode(size, block) == RecordBytes(BuiltRecord(size, block))
  {
    BuiltFront(size, block);
    BuiltNode(block);
    BuiltBack(size, block);
    hide Front, Back, NodeBytes, InodeHead, TreeHeader, ExtentTo;
  }

  lemma BuiltFront(size: nat, block: nat)
    requires size < U32
    ensures InodeHead(size) == Front(BuiltRecord(size, block))
  {
    SameBytes(0x81A4);
    SameBytes(size);
    SameBytes(1);
    SameBytes(8);
    SameBytes(0x80000);
    ZeroDigits(2);
    ZeroDigits(4);
    hide Digits, Bytes16, Bytes32;
    assert size % U32 == size;
    ZerosJoin(Digits(0x81A4, 2) + Zeros(2) + Digits(size, 4));
  }

  lemma ZerosJoin(q: seq<byte>)
    ensures q + Zeros(16) + Zeros(2) == q + Zeros(18)
  {}

  lemma BuiltBack(size: nat, block: nat)
    requires size < U32
    ensures Back(BuiltRecord(size, block)) == Zeros(16)
  {
    ZeroDigits(4);
  }

  lemma BuiltNode(block: nat)
    requires block < U32
    ensures NodeBytes(Node(0xF30A, 0, 0, [Extent(0, 1, block)])) == TreeHeader() + (ExtentTo(block) + Zeros(36))
  {
    SameBytes(0xF30A);
    SameBytes(1);
    SameBytes(4);
    SameBytes(block);
    ZeroDigits(2);
    ZeroDigits(4);
    hide Digits, Bytes16, Bytes32;
    var e := Extent(0, 1, block);
    assert [e][1..] == [] && ExtentSlots([e], 4) == ExtentBytes(e) + Zeros(36);
    assert ExtentBytes(e) == ExtentTo(block);
    assert NodeHead(Node(0xF30A, 0, 0, [e])) == TreeHeader();
  }

  /** Byte `j` of a logical block is byte `j` of the block it is stored in. */
  lemma FileByteStored(v: Volume, d: Disk, i: Inode, lb: nat, b: nat, j: nat)
    requires Geometry(v) && lb < U32 && PhysicalBlock(i, lb) == Some(b) && j < v.blockSize
    ensures lb * v.blockSize + j >= 0 && b * v.blockSize + j >= 0
    ensures FileByte(v, d, i, lb * v.blockSize + j) == VolumeByte(v, d, b * v.blockSize + j)
  {
    hide PhysicalBlock, Geometry;
    DivMod(lb, v.blockSize, j);
    MulNat(lb, v.blockSize);
    MulNat(b, v.blockSize);
    WholeSectors(v, lb);
    WholeSectors(v, b);
    InSectors(lb * SectorsPerBlock(v), j);
    InSectors(b * SectorsPerBlock(v), j);
  }

  lemma InSectors(x: nat, j: nat)
    ensures (x * SECTOR + j) / SECTOR == x + j / SECTOR && (x * SECTOR + j) % SECTOR == j % SECTOR
  {}

  /** What a file holds, from the fields of its inode: the bytes of the blocks its extents name. */
  lemma FileRead(v: Volume, d: Disk, r: InodeRecord, n: nat)
    requires Geometry(v) && RecordFits(r) && r.tree.magic == 0xF30A && r.tree.depth == 0 && n / v.blockSize < U32
    requires forall j :: 0 <= j < |r.tree.extents| ==> r.tree.extents[j].first + r.tree.extents[j].length < U32
    ensures |RecordBytes(r)| == INODE_BYTES
    ensures FileByte(v, d, RecordBytes(r), n) == match Resolve(r.tree.extents, n / v.blockSize)
      case None => None
      case Some(b) => VolumeByte(v, d, b * v.blockSize + n % v.blockSize)
  {
    hide RecordFits, RecordBytes, PhysicalBlock, VolumeByte, Resolve;
    TreeRead(r, n / v.blockSize);
    var b := PhysicalBlock(RecordBytes(r), n / v.blockSize);
    if b.Some? {
      FileByteStored(v, d, RecordBytes(r), n / v.blockSize, b.value, n % v.blockSize);
      assert n == n / v.blockSize * v.blockSize + n % v.blockSize;
    }
  }

  // ------------------------------------------------------------------
  // Directories
  // ------------------------------------------------------------------

  /** A directory record: inode, type and name, and bytes that only take up room. */
  datatype DirRecord = DirRecord(ino: nat, kind: nat, name: Name, slack: seq<byte>)

  function DirLength(r: DirRecord): nat {
    8 + |r.name| + |r.slack|
  }

  predicate DirRecordFits(r: DirRecord) {
    r.ino < Limit(4) && r.kind < Limit(1) && |r.name| < 256 && Aligned(8 + |r.name|) <= DirLength(r) < Limit(2)
  }

  function DirHead(r: DirRecord): seq<byte> {
    Digits(r.ino, 4) + Digits(DirLength(r), 2) + Digits(|r.name|, 1) + Digits(r.kind, 1)
  }

  function DirRecordBytes(r: DirRecord): seq<byte> {
    DirHead(r) + r.name + r.slack
  }

  function DirBytes(records: seq<DirRecord>): seq<byte> {
    if records == [] then [] else DirRecordBytes(records[0]) + DirBytes(records[1..])
  }

  /** The inodes and names of the records in use, in order. */
  function Entries(records: seq<DirRecord>): seq<(nat, Name)> {
    if records == [] then []
    else (if records[0].ino == 0 then [] else [(records[0].ino, records[0].name)]) + Entries(records[1..])
  }

  lemma DirHeadParts(r: DirRecord)
    requires DirRecordFits(r)
    ensures var b := DirHead(r); |b| == 8 && Has(b, 0, 4, r.ino) && Has(b, 4, 2, DirLength(r)) && b[6] == |r.name| && b[7] == r.kind
  {
    Limits();
    var b := DirHead(r);
    assert Digits(|r.name|, 1) == [|r.name|] && Digits(r.kind, 1) == [r.kind] by { OneDigit(|r.name|); OneDigit(r.kind); }
    hide Digits, Limit;
    assert b[0..4] == Digits(r.ino, 4) && b[4..6] == Digits(DirLength(r), 2);
  }

  lemma OneDigit(x: nat)
    requires x < 256
    ensures Digits(x, 1) == [x]
  {
    assert Digits(x / 256, 0) == [];
  }

  lemma HeadPadded(data: seq<byte>, head: seq<byte>, width: nat, at: nat, x: nat)
    requires |head| == 8 <= |data| && data[..8] == head && Has(head, at, width, x)
    ensures Has(Padded(data), at, width, x)
  {
    hide Digits, Limit;
    assert Padded(data)[0..0 + |head|] == head;
    HasWithin(Padded(data), 0, head, at, width, x);
  }

  lemma RecordRead(r: DirRecord)
    requires DirRecordFits(r)
    ensures var b := DirRecordBytes(r);
      |b| == DirLength(r) && EntryInode(b, 0) == r.ino && EntryLen(b, 0) == |b| && NameLen(b, 0) == |r.name| && b[8..8 + |r.name|] == r.name
  {
    DirHeadParts(r);
    hide DirHead, Has, Limit, Word16, Word32;
    var b := DirRecordBytes(r);
    assert b[..8] == DirHead(r) && b[8..8 + |r.name|] == r.name && Padded(b)[6] == DirHead(r)[6];
    HeadPadded(b, DirHead(r), 4, 0, r.ino);
    HeadPadded(b, DirHead(r), 2, 4, DirLength(r));
    WordsRead(Padded(b), 0, r.ino);
    WordsRead(Padded(b), 4, DirLength(r));
  }

  lemma RecordLists(r: DirRecord)
    requires DirRecordFits(r)
    ensures Tiled(DirRecordBytes(r), 0) && Listing(DirRecordBytes(r), 0) == if r.ino == 0 then [] else [(r.ino, r.name)]
  {
    RecordRead(r);
    hide EntryInode, EntryLen, NameLen, DirRecordBytes, Limit;
    var b := DirRecordBytes(r);
    assert Tiled(b, |b|) && Listing(b, |b|) == [];
  }

  /** Written one after the other, records tile the directory, which lists just those in use. */
  lemma {:induction false} DirectoryLists(records: seq<DirRecord>)
    requires forall k :: 0 <= k < |records| ==> DirRecordFits(records[k])
    ensures Tiled(DirBytes(records), 0) && Listing(DirBytes(records), 0) == Entries(records)
  {
    hide DirRecordBytes, DirRecordFits;
    if records != [] {
      RecordLists(records[0]);
      DirectoryLists(records[1..]);
      ListingAppend(DirRecordBytes(records[0]), DirBytes(records[1..]), 0);
    }
  }

  /** A search finds the first record in use with the name whose inode can be read. */
  lemma DirectorySearch(v: Volume, d: Disk, records: seq<DirRecord>, name: Name)
    requires Geometry(v) && forall k :: 0 <= k < |records| ==> DirRecordFits(records[k])
    ensures Find(v, d, DirBytes(records), 0, name) == FirstMatch(v, d, Entries(records), name)
  {
    hide DirBytes, DirRecordFits, Find, FirstMatch;
    DirectoryLists(records);
    FindIsFirstMatch(v, d, DirBytes(records), 0, name);
  }

  /** The record an insertion writes is the encoding of its fields, for names that fit. */
  lemma NewRecordEncoded(ino: nat, name: Name, slack: seq<byte>)
    requires DirRecordFits(DirRecord(ino, 1, name, slack))
    ensures NewRecord(ino, DirLength(DirRecord(ino, 1, name, slack)), name) + slack == DirRecordBytes(DirRecord(ino, 1, name, slack))
  {
    var r := DirRecord(ino, 1, name, slack);
    Limits();
    FourDigits(ino);
    TwoDigits(DirLength(r));
    OneDigit(|name|);
    OneDigit(1);
  }
}
