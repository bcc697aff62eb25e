/** Creating a file and reading it back (src/fs/manager.rs), on every well-formed image. */
module Ext4Create {
  import opened Common
  import opened Disks
  import opened Words
  import opened Ext4Layout
  import opened Ext4Files
  import opened Ext4Directory
  import opened Ext4Volume
  import opened Ext4Image

  /** The inode of the root directory. */
  const ROOT := 2

  // ------------------------------------------------------------------
  // Frames
  // ------------------------------------------------------------------

  /** Inode `m` and the file it describes are as they were. */
  ghost predicate FileKept(v: Volume, d: Disk, e: Disk, m: nat)
    requires Geometry(v)
  {
    && ReadInode(v, e, m) == ReadInode(v, d, m)
    && (ReadInode(v, d, m).Ok? ==> forall n: nat :: FileByte(v, e, ReadInode(v, d, m).value, n) == FileByte(v, d, ReadInode(v, d, m).value, n))
  }

  ghost predicate FilesKept(v: Volume, d: Disk, e: Disk, inodes: set<nat>)
    requires Geometry(v)
  {
    forall m :: m in inodes ==> FileKept(v, d, e, m)
  }

  /** A change in a block that is not the file's does not show in the file. */
  lemma FileUnaffected(v: Volume, d: Disk, e: Disk, inodes: set<nat>, x: nat, m: nat)
    requires Geometry(v) && BgdSector(v) in d && m in inodes && ReadInode(v, e, m) == ReadInode(v, d, m)
    requires OnlyBlock(v, d, e, x) && forall lb :: !Holds(v, d, inodes, FileData(m, lb), x)
    ensures FileKept(v, d, e, m)
  {
    hide ReadInode, PhysicalBlock, Geometry, FileByte;
    if ReadInode(v, d, m).Ok? {
      var i := ReadInode(v, d, m).value;
      BlockSizePositive(v);
      forall n: nat ensures FileByte(v, e, i, n) == FileByte(v, d, i, n) {
        var lb := n / v.blockSize % U32;
        assert !Holds(v, d, inodes, FileData(m, lb), x);
        SameFile(v, d, e, i, x, n);
      }
    }
  }

  /** Reserving a bit changes only its bitmap block. */
  lemma ReservedBlock(v: Volume, d: Disk, e: Disk, field: nat, bit: nat)
    requires Geometry(v) && field <= 8 && Reserved(v, d, e, field, bit)
    ensures OnlyBlock(v, d, e, Descriptor(v, d, 0, field))
  {
    FirstSector(v, Descriptor(v, d, 0, field));
  }

  lemma ReservedBits(v: Volume, d: Disk, e: Disk, inodes: set<nat>, field: nat, bit: nat)
    requires Structured(v, d, inodes) && (field == 0 || field == 4) && Reserved(v, d, e, field, bit)
    ensures BitsKept(v, d, e, 0) && BitsKept(v, d, e, 4) && Bit(e[BitmapSector(v, d, field)], bit)
  {
    hide Descriptor, Bit, ReadInode, PhysicalBlock, InodesMarked, BlocksMarked;
    var other := 4 - field;
    assert BitmapSector(v, d, field) != BitmapSector(v, d, other) by {
      FirstSector(v, Descriptor(v, d, 0, field));
      FirstSector(v, Descriptor(v, d, 0, other));
      assert Holds(v, d, inodes, InodeMap, Descriptor(v, d, 0, 4)) && Holds(v, d, inodes, BlockMap, Descriptor(v, d, 0, 0));
      if BitmapSector(v, d, field) == BitmapSector(v, d, other) {
        BlocksApart(v, Descriptor(v, d, 0, field), Descriptor(v, d, 0, other), BitmapSector(v, d, field));
      }
    }
    forall i | 0 <= i < BITS && Bit(d[BitmapSector(v, d, field)], i) ensures Bit(e[BitmapSector(v, d, field)], i) {
      BitAfter(d[BitmapSector(v, d, field)], bit, i);
    }
    BitAfter(d[BitmapSector(v, d, field)], bit, bit);
  }

  /** A reservation touches no inode and no file. */
  lemma ReserveStep(v: Volume, d: Disk, e: Disk, inodes: set<nat>, field: nat, bit: nat)
    requires Structured(v, d, inodes) && (field == 0 || field == 4) && Reserved(v, d, e, field, bit)
    ensures Structured(v, e, inodes) && MetaSame(v, d, e) && FilesKept(v, d, e, inodes)
    ensures BitsKept(v, d, e, 0) && BitsKept(v, d, e, 4) && Bit(e[BitmapSector(v, d, field)], bit)
  {
    hide Descriptor, Bit, ReadInode, PhysicalBlock, InodesMarked, BlocksMarked, FileKept, MetaSame, Reserved;
    var x := Descriptor(v, d, 0, field);
    ReservedBlock(v, d, e, field, bit);
    ReservedBits(v, d, e, inodes, field, bit);
    assert Holds(v, d, inodes, if field == 4 then InodeMap else BlockMap, x);
    ChangeKeeps(v, d, e, inodes, x, if field == 4 then InodeMap else BlockMap);
    KeepsStructure(v, d, e, inodes);
  }

  /** Changing a block whose role is neither descriptors, table nor file data keeps everything. */
  lemma ChangeKeeps(v: Volume, d: Disk, e: Disk, inodes: set<nat>, x: nat, role: Role)
    requires Structured(v, d, inodes) && OnlyBlock(v, d, e, x) && (role == InodeMap || role == BlockMap) && Holds(v, d, inodes, role, x)
    ensures MetaSame(v, d, e) && FilesKept(v, d, e, inodes)
  {
    hide Descriptor, Bit, ReadInode, PhysicalBlock, InodesMarked, BlocksMarked, Holds, FileKept, OnlyBlock;
    assert x != BgdBlock(v) by { BgdRole(v, d, inodes); }
    KeepsMeta(v, d, e, inodes, x);
    forall m | m in inodes ensures FileKept(v, d, e, m) {
      FileUnaffected(v, d, e, inodes, x, m);
    }
  }

  lemma BgdRole(v: Volume, d: Disk, inodes: set<nat>)
    requires Geometry(v) && BgdSector(v) in d
    ensures Holds(v, d, inodes, Descriptors, BgdBlock(v))
  {}

  /** Writing a block nobody uses touches no inode and no file. */
  lemma DataStep(v: Volume, d: Disk, e: Disk, inodes: set<nat>, b: nat)
    requires Structured(v, d, inodes) && OnlyBlock(v, d, e, b) && forall role :: !Holds(v, d, inodes, role, b)
    ensures Structured(v, e, inodes) && MetaSame(v, d, e) && FilesKept(v, d, e, inodes)
    ensures BitsKept(v, d, e, 0) && BitsKept(v, d, e, 4)
  {
    hide Descriptor, Bit, ReadInode, PhysicalBlock, InodesMarked, BlocksMarked, FileKept, MetaSame;
    assert b != BgdBlock(v) by { assert !Holds(v, d, inodes, Descriptors, b); }
    KeepsMeta(v, d, e, inodes, b);
    assert !Holds(v, d, inodes, BlockMap, b) && !Holds(v, d, inodes, InodeMap, b);
    BitmapUntouched(v, d, e, 0, b);
    BitmapUntouched(v, d, e, 4, b);
    KeepsStructure(v, d, e, inodes);
    forall m | m in inodes ensures FileKept(v, d, e, m) {
      SameInodeIn(v, d, e, m);
      FileUnaffected(v, d, e, inodes, b, m);
    }
  }

  lemma SameInodeIn(v: Volume, d: Disk, e: Disk, m: nat)
    requires Geometry(v) && MetaSame(v, d, e)
    ensures ReadInode(v, e, m) == ReadInode(v, d, m)
  {}

  lemma BitmapUntouched(v: Volume, d: Disk, e: Disk, field: nat, x: nat)
    requires Mounted(v, d) && (field == 0 || field == 4) && OnlyBlock(v, d, e, x) && x != Descriptor(v, d, 0, field)
    ensures BitsKept(v, d, e, field) && e[BitmapSector(v, d, field)] == d[BitmapSector(v, d, field)]
  {
    hide Descriptor;
    var b := Descriptor(v, d, 0, field);
    FirstSector(v, b);
    if InBlock(v, x, BitmapSector(v, d, field)) { BlocksApart(v, x, b, BitmapSector(v, d, field)); }
  }

  // ------------------------------------------------------------------
  // Storing the inode
  // ------------------------------------------------------------------

  /** `n` may become an inode in use whose only block is `b`. */
  ghost predicate Allotted(v: Volume, d: Disk, inodes: set<nat>, n: nat, b: nat) {
    && Structured(v, d, inodes) && n !in inodes && 1 <= n <= v.inodesCount && n <= BITS && b < BITS
    && ReadInode(v, d, n).Ok? && Bit(d[BitmapSector(v, d, 4)], n - 1) && Bit(d[BitmapSector(v, d, 0)], b)
    && forall role :: !Holds(v, d, inodes, role, b)
  }

  ghost predicate OneBlock(inode: Inode, b: nat) {
    forall lb: nat :: PhysicalBlock(inode, lb) == if lb == 0 then Some(b) else None
  }

  lemma OtherHalf(s: Sector, inode: Inode, o: nat, p: nat)
    requires (o == 0 || o == INODE_SIZE) && (p == 0 || p == INODE_SIZE)
    ensures Splice(s, o, inode)[p..p + INODE_BYTES] == if o == p then inode else s[p..p + INODE_BYTES]
  {}

  /** Storing an inode changes what is read for that inode and for no other. */
  lemma OtherInodes(v: Volume, d: Disk, inodes: set<nat>, n: nat, inode: Inode, m: nat)
    requires Structured(v, d, inodes) && 1 <= n <= v.inodesCount && ReadInode(v, d, n).Ok?
    ensures BgdSector(v) in WithInode(v, d, n, inode) && WithInode(v, d, n, inode)[BgdSector(v)] == d[BgdSector(v)]
    ensures ReadInode(v, WithInode(v, d, n, inode), m) == if m == n then Ok(inode) else ReadInode(v, d, m)
  {
    hide Descriptor, Bit, PhysicalBlock, InodesMarked, BlocksMarked, BlockSector, InBlock, Holds, SlotOf, Splice, BgdSector, BitmapSector;
    var e := WithInode(v, d, n, inode);
    SlotNotBgd(v, d, inodes, n);
    SlotShape(v, d, n);
    if 1 <= m <= v.inodesCount {
      SameSlot(v, d, e, m);
      SlotShape(v, d, m);
      if m != n { SlotsDiffer(v, d, inodes, m, n); }
      OtherHalf(d[SlotOf(v, d, n).sector], inode, SlotOf(v, d, n).offset, SlotOf(v, d, m).offset);
    }
  }

  lemma SlotNotBgd(v: Volume, d: Disk, inodes: set<nat>, n: nat)
    requires Structured(v, d, inodes) && 1 <= n <= v.inodesCount
    ensures SlotOf(v, d, n).sector != BgdSector(v)
  {
    hide Descriptor, Bit, PhysicalBlock, InodesMarked, BlocksMarked, BlockSector, InBlock, Holds, SlotOf, ReadInode;
    SlotInTable(v, d, inodes, n);
    FirstSector(v, BgdBlock(v));
    BgdRole(v, d, inodes);
    if SlotOf(v, d, n).sector == BgdSector(v) {
      BlocksApart(v, SlotBlock(v, d, n), BgdBlock(v), BgdSector(v));
    }
  }

  lemma InodeBlockOnly(v: Volume, d: Disk, inodes: set<nat>, n: nat, inode: Inode)
    requires Structured(v, d, inodes) && 1 <= n <= v.inodesCount && ReadInode(v, d, n).Ok?
    ensures OnlyBlock(v, d, WithInode(v, d, n, inode), SlotBlock(v, d, n))
  {
    hide Descriptor, Bit, PhysicalBlock, InodesMarked, BlocksMarked, BlockSector, InBlock, Holds;
    SlotInTable(v, d, inodes, n);
    SlotShape(v, d, n);
  }

  lemma NewRoles(v: Volume, d: Disk, inodes: set<nat>, n: nat, inode: Inode, b: nat, role: Role, x: nat)
    requires Allotted(v, d, inodes, n, b) && OneBlock(inode, b)
    ensures BgdSector(v) in WithInode(v, d, n, inode)
    ensures Holds(v, WithInode(v, d, n, inode), inodes + {n}, role, x) <==> Holds(v, d, inodes, role, x) || (role == FileData(n, 0) && x == b)
  {
    hide Bit, InodesMarked, BlocksMarked, BlockSector, InBlock, OneRoleEach, WithInode, ReadInode, PhysicalBlock;
    OtherInodes(v, d, inodes, n, inode, if role.FileData? then role.ino else n);
  }

  lemma NewInodeBits(v: Volume, d: Disk, inodes: set<nat>, n: nat, inode: Inode, b: nat)
    requires Allotted(v, d, inodes, n, b)
    ensures Mounted(v, WithInode(v, d, n, inode))
    ensures forall f :: (f == 0 || f == 4) ==> WithInode(v, d, n, inode)[BitmapSector(v, WithInode(v, d, n, inode), f)] == d[BitmapSector(v, d, f)]
  {
    hide Bit, PhysicalBlock, InodesMarked, BlocksMarked, WithInode, ReadInode, SlotBlock, SlotOf;
    var e := WithInode(v, d, n, inode);
    OtherInodes(v, d, inodes, n, inode, n);
    InodeBlockOnly(v, d, inodes, n, inode);
    SlotInTable(v, d, inodes, n);
    assert Holds(v, d, inodes, BlockMap, Descriptor(v, d, 0, 0)) && Holds(v, d, inodes, InodeMap, Descriptor(v, d, 0, 4));
    BitmapUntouched(v, d, e, 0, SlotBlock(v, d, n));
    BitmapUntouched(v, d, e, 4, SlotBlock(v, d, n));
  }

  /** The stored inode joins the others; nothing else about the volume changes. */
  lemma InodeStep(v: Volume, d: Disk, inodes: set<nat>, n: nat, inode: Inode, b: nat)
    requires Allotted(v, d, inodes, n, b) && OneBlock(inode, b)
    ensures Structured(v, WithInode(v, d, n, inode), inodes + {n})
    ensures ReadInode(v, WithInode(v, d, n, inode), n) == Ok(inode)
  {
    hide Bit, PhysicalBlock, WithInode, ReadInode, Holds, BitmapSector, OneBlock, Geometry;
    var e := WithInode(v, d, n, inode);
    NewInodeBits(v, d, inodes, n, inode, b);
    forall role, x: nat
      ensures Holds(v, e, inodes + {n}, role, x) <==> Holds(v, d, inodes, role, x) || (role == FileData(n, 0) && x == b)
    {
      NewRoles(v, d, inodes, n, inode, b, role, x);
    }
    forall m: nat ensures ReadInode(v, e, m) == if m == n then Ok(inode) else ReadInode(v, d, m) {
      OtherInodes(v, d, inodes, n, inode, m);
    }
    assert InodesMarked(v, e, inodes + {n}) by { hide OneRoleEach, BlocksMarked; }
    assert BlocksMarked(v, e, inodes + {n}) by { hide OneRoleEach, InodesMarked; }
    assert OneRoleEach(v, e, inodes + {n}) by { hide BlocksMarked, InodesMarked; }
  }

  lemma InodeStepKeeps(v: Volume, d: Disk, inodes: set<nat>, n: nat, inode: Inode)
    requires Structured(v, d, inodes) && n !in inodes && 1 <= n <= v.inodesCount && ReadInode(v, d, n).Ok?
    ensures FilesKept(v, d, WithInode(v, d, n, inode), inodes)
  {
    hide Bit, PhysicalBlock, WithInode, ReadInode, BlockSector, InBlock, Holds, BitmapSector, FileKept, InodesMarked, BlocksMarked;
    InodeBlockOnly(v, d, inodes, n, inode);
    SlotInTable(v, d, inodes, n);
    forall m | m in inodes ensures FileKept(v, d, WithInode(v, d, n, inode), m) {
      OtherInodes(v, d, inodes, n, inode, m);
      FileUnaffected(v, d, WithInode(v, d, n, inode), inodes, SlotBlock(v, d, n), m);
    }
  }

  // ------------------------------------------------------------------
  // The directory
  // ------------------------------------------------------------------

  ghost predicate Complete(v: Volume, d: Disk, i: Inode)
    requires Geometry(v)
  {
    forall n :: 0 <= n < SizeOf(i) ==> FileByte(v, d, i, n).Some?
  }

  /** The bytes of a completely readable file. */
  ghost function FileBytes(v: Volume, d: Disk, i: Inode): (r: seq<byte>)
    requires Geometry(v) && Complete(v, d, i)
    ensures |r| == SizeOf(i)
  {
    seq(SizeOf(i), n requires 0 <= n < SizeOf(i) => FileByte(v, d, i, n).value)
  }

  /** A directory of whole blocks of records, listing only inodes in use. */
  ghost predicate DirectoryOk(v: Volume, d: Disk, i: Inode, inodes: set<nat>)
    requires Geometry(v)
  {
    && IsDirectory(i) && v.blockSize <= SizeOf(i) <= v.blockSize * U32 && Complete(v, d, i)
    && Tiled(FileBytes(v, d, i)[..v.blockSize], 0) && Tiled(FileBytes(v, d, i)[v.blockSize..], 0)
    && ListsOnly(Listing(FileBytes(v, d, i)[..v.blockSize], 0), inodes)
    && ListsOnly(Listing(FileBytes(v, d, i)[v.blockSize..], 0), inodes)
  }

  ghost predicate ListsOnly(list: seq<(nat, Name)>, inodes: set<nat>) {
    forall i :: 0 <= i < |list| ==> list[i].0 in inodes
  }

  /** What the root directory lists. */
  ghost function Names(v: Volume, d: Disk, i: Inode, inodes: set<nat>): seq<(nat, Name)>
    requires Geometry(v) && DirectoryOk(v, d, i, inodes)
  {
    Listing(FileBytes(v, d, i)[..v.blockSize], 0) + Listing(FileBytes(v, d, i)[v.blockSize..], 0)
  }

  /** Looking a name up in the directory `i`. */
  ghost function Resolve(v: Volume, d: Disk, i: Inode, name: Name): Option<(nat, Inode)>
    requires Geometry(v) && Complete(v, d, i)
  {
    Find(v, d, FileBytes(v, d, i), 0, name)
  }

  lemma ResolveIsFirstMatch(v: Volume, d: Disk, i: Inode, inodes: set<nat>, name: Name)
    requires Geometry(v) && DirectoryOk(v, d, i, inodes)
    ensures Resolve(v, d, i, name) == FirstMatch(v, d, Names(v, d, i, inodes), name)
  {
    hide FileBytes, Find, FirstMatch, Listing, Tiled;
    var data := FileBytes(v, d, i);
    ListingAppend(data[..v.blockSize], data[v.blockSize..], 0);
    assert data == data[..v.blockSize] + data[v.blockSize..];
    FindIsFirstMatch(v, d, data, 0, name);
  }

  /** A directory whose bytes did not change is still in order, and lists the same. */
  lemma SameDirectory(v: Volume, d: Disk, e: Disk, i: Inode, inodes: set<nat>, more: set<nat>)
    requires Geometry(v) && DirectoryOk(v, d, i, inodes) && inodes <= more
    requires forall n: nat :: FileByte(v, e, i, n) == FileByte(v, d, i, n)
    ensures DirectoryOk(v, e, i, more) && Names(v, e, i, more) == Names(v, d, i, inodes) && FileBytes(v, e, i) == FileBytes(v, d, i)
  {
    hide Tiled, Listing, FileByte;
    assert FileBytes(v, e, i) == FileBytes(v, d, i);
  }

  lemma {:induction false} FirstMatchSame(v: Volume, d: Disk, e: Disk, list: seq<(nat, Name)>, name: Name)
    requires Geometry(v) && forall k :: 0 <= k < |list| ==> ReadInode(v, e, list[k].0) == ReadInode(v, d, list[k].0)
    ensures FirstMatch(v, e, list, name) == FirstMatch(v, d, list, name)
  {
    hide ReadInode;
    if list != [] { FirstMatchSame(v, d, e, list[1..], name); }
  }

  /** The first block of a file, byte by byte. */
  lemma FirstBlockBytes(v: Volume, d: Disk, i: Inode, b: nat, n: nat)
    requires Geometry(v) && PhysicalBlock(i, 0) == Some(b) && Readable(v, d, b) && n < v.blockSize
    ensures FileByte(v, d, i, n) == Some(BlockBytes(v, d, b)[n])
  {
    hide PhysicalBlock;
    WholeSectors(v, 0);
    assert n / v.blockSize == 0 && n % v.blockSize == n;
    assert InBlock(v, b, BlockSector(v, b) + n / SECTOR);
  }

  lemma FirstBlock(v: Volume, d: Disk, i: Inode, inodes: set<nat>, b: nat)
    requires Geometry(v) && DirectoryOk(v, d, i, inodes) && PhysicalBlock(i, 0) == Some(b) && Readable(v, d, b)
    ensures FileBytes(v, d, i)[..v.blockSize] == BlockBytes(v, d, b)
  {
    hide PhysicalBlock, FileByte, BlockBytes, Tiled, Listing;
    forall n | 0 <= n < v.blockSize ensures FileBytes(v, d, i)[n] == BlockBytes(v, d, b)[n] {
      FirstBlockBytes(v, d, i, b, n);
    }
  }

  /** Overwriting the first block of a file replaces its first bytes. */
  lemma RewrittenFile(v: Volume, d: Disk, i: Inode, b: nat, bytes: seq<byte>)
    requires Geometry(v) && Complete(v, d, i) && PhysicalBlock(i, 0) == Some(b) && Readable(v, d, b) && |bytes| == v.blockSize
    requires v.blockSize <= SizeOf(i) <= v.blockSize * U32 && forall lb: nat :: lb > 0 ==> PhysicalBlock(i, lb) != Some(b)
    ensures Complete(v, Stored(v, d, b, bytes), i)
    ensures FileBytes(v, Stored(v, d, b, bytes), i) == bytes + FileBytes(v, d, i)[v.blockSize..]
  {
    hide PhysicalBlock, FileByte, BlockBytes, Stored;
    var e := Stored(v, d, b, bytes);
    StoredBytes(v, d, b, bytes);
    forall n | 0 <= n < SizeOf(i)
      ensures FileByte(v, e, i, n) == if n < v.blockSize then Some(bytes[n]) else FileByte(v, d, i, n)
    {
      if n < v.blockSize {
        FirstBlockBytes(v, e, i, b, n);
      } else {
        LaterBlock(v, n);
        SameFile(v, d, e, i, b, n);
      }
    }
  }

  lemma LaterBlock(v: Volume, n: nat)
    requires Geometry(v) && v.blockSize <= n < v.blockSize * U32
    ensures n / v.blockSize % U32 > 0
  {
    assert 1 <= n / v.blockSize < U32;
  }

  /** A well-formed volume with its root directory. */
  ghost predicate Image(v: Volume, d: Disk, inodes: set<nat>, root: Inode) {
    Structured(v, d, inodes) && ROOT in inodes && ReadInode(v, d, ROOT) == Ok(root) && DirectoryOk(v, d, root, inodes)
  }

  /** As long as no file in use changes, neither does what names stand for. */
  lemma ImageKept(v: Volume, d: Disk, e: Disk, inodes: set<nat>, more: set<nat>, root: Inode)
    requires Image(v, d, inodes, root) && Structured(v, e, more) && inodes <= more && FilesKept(v, d, e, inodes)
    ensures Image(v, e, more, root) && Names(v, e, root, more) == Names(v, d, root, inodes)
    ensures forall name :: Resolve(v, e, root, name) == Resolve(v, d, root, name)
  {
    hide Structured, Resolve, Names, ReadInode, FileByte, Tiled, Listing;
    StructuredGeometry(v, d, inodes);
    assert FileKept(v, d, e, ROOT);
    SameDirectory(v, d, e, root, inodes, more);
    forall name ensures Resolve(v, e, root, name) == Resolve(v, d, root, name) {
      SameResolve(v, d, e, inodes, more, root, name);
    }
  }

  lemma StructuredGeometry(v: Volume, d: Disk, inodes: set<nat>)
    requires Structured(v, d, inodes)
    ensures Geometry(v)
  {}

  lemma SameResolve(v: Volume, d: Disk, e: Disk, inodes: set<nat>, more: set<nat>, root: Inode, name: Name)
    requires Geometry(v) && DirectoryOk(v, d, root, inodes) && DirectoryOk(v, e, root, more) && FilesKept(v, d, e, inodes)
    requires Names(v, e, root, more) == Names(v, d, root, inodes)
    ensures Resolve(v, e, root, name) == Resolve(v, d, root, name)
  {
    hide Resolve, ReadInode, FileByte, Tiled, Listing;
    ResolveIsFirstMatch(v, d, root, inodes, name);
    ResolveIsFirstMatch(v, e, root, more, name);
    var list := Names(v, d, root, inodes);
    forall k | 0 <= k < |list| ensures ReadInode(v, e, list[k].0) == ReadInode(v, d, list[k].0) {
      assert list[k].0 in inodes;
      assert FileKept(v, d, e, list[k].0);
    }
    FirstMatchSame(v, d, e, list, name);
  }

  /** `name` is in no record of the directory. */
  ghost predicate Absent(v: Volume, d: Disk, i: Inode, inodes: set<nat>, name: Name)
    requires Geometry(v) && DirectoryOk(v, d, i, inodes)
  {
    forall k :: 0 <= k < |Names(v, d, i, inodes)| ==> Names(v, d, i, inodes)[k].1 != name
  }

  /** The block add_entry rewrites belongs to the root directory and to nothing else. */
  lemma RootBlock(v: Volume, d: Disk, e: Disk, inodes: set<nat>, root: Inode, b: nat)
    requires Image(v, d, inodes, root) && PhysicalBlock(root, 0) == Some(b) && OnlyBlock(v, d, e, b)
    ensures Structured(v, e, inodes) && MetaSame(v, d, e)
    ensures forall m :: m in inodes && m != ROOT ==> FileKept(v, d, e, m)
    ensures forall lb: nat :: lb > 0 ==> PhysicalBlock(root, lb) != Some(b)
  {
    hide ReadInode, PhysicalBlock, Bit, BitmapSector, InodesMarked, BlocksMarked, FileKept, DirectoryOk, OnlyBlock, MetaSame, Descriptor;
    assert Holds(v, d, inodes, FileData(ROOT, 0), b);
    BgdRole(v, d, inodes);
    KeepsMeta(v, d, e, inodes, b);
    assert Holds(v, d, inodes, BlockMap, Descriptor(v, d, 0, 0)) && Holds(v, d, inodes, InodeMap, Descriptor(v, d, 0, 4));
    BitmapUntouched(v, d, e, 0, b);
    BitmapUntouched(v, d, e, 4, b);
    KeepsStructure(v, d, e, inodes);
    forall m | m in inodes && m != ROOT ensures FileKept(v, d, e, m) {
      SameInodeIn(v, d, e, m);
      FileUnaffected(v, d, e, inodes, b, m);
    }
    forall lb: nat | lb > 0 ensures PhysicalBlock(root, lb) != Some(b) {
      assert Holds(v, d, inodes, FileData(ROOT, lb), b) <==> PhysicalBlock(root, lb) == Some(b);
    }
  }

  /** The directory after an insertion: the new pair follows those of the first block. */
  lemma InsertedDirectory(v: Volume, d: Disk, inodes: set<nat>, root: Inode, b: nat, o: nat, ino: nat, name: Name)
    requires Image(v, d, inodes, root) && PhysicalBlock(root, 0) == Some(b) && Readable(v, d, b)
    requires ino in inodes && 0 < ino < U32 && |name| <= 255
    requires EndOf(BlockBytes(v, d, b), 0) == Last(o) && Fits(BlockBytes(v, d, b), o, name)
    requires forall lb: nat :: lb > 0 ==> PhysicalBlock(root, lb) != Some(b)
    ensures var e := Stored(v, d, b, Inserted(BlockBytes(v, d, b), o, ino, name));
      && DirectoryOk(v, e, root, inodes)
      && Names(v, e, root, inodes) == Listing(FileBytes(v, d, root)[..v.blockSize], 0) + [(ino, name)] + Listing(FileBytes(v, d, root)[v.blockSize..], 0)
  {
    hide Structured, ReadInode, PhysicalBlock, FileByte, BlockBytes, Stored, Inserted, Fits, EndOf, Listing, Tiled, IsDirectory, Complete, Readable;
    StructuredGeometry(v, d, inodes);
    var block, whole := BlockBytes(v, d, b), FileBytes(v, d, root);
    var bytes := Inserted(block, o, ino, name);
    var e := Stored(v, d, b, bytes);
    FirstBlock(v, d, root, inodes, b);
    InsertedListing(block, 0, o, ino, name);
    RewrittenFile(v, d, root, b, bytes);
    var now := FileBytes(v, e, root);
    assert now[..v.blockSize] == bytes && now[v.blockSize..] == whole[v.blockSize..];
  }

  /** Adding an entry: the new name stands for the new inode, every other name for what it did,
      and no other file changes. */
  lemma DirectoryStep(v: Volume, d: Disk, e: Disk, inodes: set<nat>, root: Inode, ino: nat, name: Name, other: Name)
    requires Image(v, d, inodes, root) && ino in inodes && 0 < ino < U32 && |name| <= 255 && Absent(v, d, root, inodes, name)
    requires EntryAdded(v, d, NodeOf(ROOT, root), name, ino) == Done(e)
    ensures Image(v, e, inodes, root) && MetaSame(v, d, e) && forall m :: m in inodes && m != ROOT ==> FileKept(v, d, e, m)
    ensures Resolve(v, e, root, name) == Some((ino, ReadInode(v, d, ino).value))
    ensures other != name ==> Resolve(v, e, root, other) == Resolve(v, d, root, other)
  {
    hide ReadInode, PhysicalBlock, FileByte, BlockBytes, Stored, Inserted, Fits, EndOf, Listing, Tiled, IsDirectory, Complete, Bit, Holds,
      BlocksMarked, OneRoleEach, FileKept, FileBytes, FirstMatch, Resolve, Readable;
    var b := PhysicalBlock(root, 0).value;
    var block := BlockBytes(v, d, b);
    InsertionDone(block, ino, name, Insertion(block, ino, name).value);
    var o := EndOf(block, 0).offset;
    StoredBytes(v, d, b, Inserted(block, o, ino, name));
    RootBlock(v, d, e, inodes, root, b);
    InsertedDirectory(v, d, inodes, root, b, o, ino, name);
    SameInodeIn(v, d, e, ROOT);
    SameInodeIn(v, d, e, ino);
    var first, rest := Listing(FileBytes(v, d, root)[..v.blockSize], 0), Listing(FileBytes(v, d, root)[v.blockSize..], 0);
    ResolveIsFirstMatch(v, e, root, inodes, name);
    ResolveIsFirstMatch(v, e, root, inodes, other);
    ResolveIsFirstMatch(v, d, root, inodes, other);
    forall k | 0 <= k < |first| ensures first[k].1 != name {
      assert Names(v, d, root, inodes)[k] == first[k];
    }
    FirstMatchInserted(v, e, first, rest, ino, name, other);
    forall k | 0 <= k < |first + rest| ensures ReadInode(v, e, (first + rest)[k].0) == ReadInode(v, d, (first + rest)[k].0) {
      SameInodeIn(v, d, e, (first + rest)[k].0);
    }
    FirstMatchSame(v, d, e, first + rest, other);
  }

  // ------------------------------------------------------------------
  // Creating a file
  // ------------------------------------------------------------------

  /** Inode `n` describes a regular file holding exactly `data`. */
  ghost predicate HoldsData(v: Volume, d: Disk, inode: Inode, data: seq<byte>)
    requires Geometry(v)
  {
    && IsRegular(inode) && SizeOf(inode) == |data|
    && forall k :: 0 <= k < |data| ==> FileByte(v, d, inode, k) == Some(data[k])
  }

  /** What the creation of `name` with `data` as inode `n` amounts to. */
  ghost predicate Created(v: Volume, d: Disk, e: Disk, inodes: set<nat>, root: Inode, n: nat, name: Name, data: seq<byte>)
    requires Image(v, d, inodes, root)
  {
    && n !in inodes && Image(v, e, inodes + {n}, root)
    && ReadInode(v, e, n).Ok? && HoldsData(v, e, ReadInode(v, e, n).value, data)
    && Resolve(v, e, root, name) == Some((n, ReadInode(v, e, n).value))
    && (forall m :: m in inodes && m != ROOT ==> FileKept(v, d, e, m))
    && (forall other :: other != name ==> Resolve(v, e, root, other) == Resolve(v, d, root, other))
  }

  /** The two reservations give an inode and a block that nothing uses. */
  lemma ReservationsAllot(v: Volume, d0: Disk, d1: Disk, d2: Disk, inodes: set<nat>, n: nat, b: nat)
    requires Structured(v, d0, inodes) && n >= 1 && Reserved(v, d0, d1, 4, n - 1) && Reserved(v, d1, d2, 0, b)
    ensures Structured(v, d2, inodes) && FilesKept(v, d0, d2, inodes) && n !in inodes && forall role :: !Holds(v, d2, inodes, role, b)
    ensures Bit(d2[BitmapSector(v, d2, 4)], n - 1) && Bit(d2[BitmapSector(v, d2, 0)], b)
  {
    hide Bit, ReadInode, PhysicalBlock, Holds, FileByte, Descriptor, OneRoleEach;
    ReserveStep(v, d0, d1, inodes, 4, n - 1);
    ReserveStep(v, d1, d2, inodes, 0, b);
    assert BitmapSector(v, d2, 4) == BitmapSector(v, d0, 4) == BitmapSector(v, d1, 4) by { SameBitmaps(v, d0, d1); SameBitmaps(v, d1, d2); }
    assert BitmapSector(v, d2, 0) == BitmapSector(v, d1, 0) by { SameBitmaps(v, d1, d2); }
    forall role ensures !Holds(v, d2, inodes, role, b) {
      SameRoles(v, d1, d2, inodes, role, b);
    }
    forall m | m in inodes ensures FileKept(v, d0, d2, m) {
      assert FileKept(v, d0, d1, m) && FileKept(v, d1, d2, m);
    }
  }

  lemma SameBitmaps(v: Volume, d: Disk, e: Disk)
    requires Geometry(v) && MetaSame(v, d, e)
    ensures BitmapSector(v, e, 0) == BitmapSector(v, d, 0) && BitmapSector(v, e, 4) == BitmapSector(v, d, 4)
  {}

  lemma KeptTwice(v: Volume, d: Disk, e: Disk, f: Disk, inodes: set<nat>)
    requires Geometry(v) && FilesKept(v, d, e, inodes) && FilesKept(v, e, f, inodes)
    ensures FilesKept(v, d, f, inodes)
  {
    hide ReadInode, FileByte;
    forall m | m in inodes ensures FileKept(v, d, f, m) {
      assert FileKept(v, d, e, m) && FileKept(v, e, f, m);
    }
  }

  /** On a well-formed image adding an entry never overruns. */
  lemma RootSafe(v: Volume, d: Disk, inodes: set<nat>, root: Inode, name: Name, ino: nat)
    requires Image(v, d, inodes, root) && |name| < WORD / 2
    ensures !EntryAdded(v, d, NodeOf(ROOT, root), name, ino).Overrun?
  {
    hide Structured, ReadInode, PhysicalBlock, Readable, BlockBytes, Tiled, Listing, Insertion, Stored;
    StructuredGeometry(v, d, inodes);
    var b := PhysicalBlock(root, 0);
    if b.Some? && Readable(v, d, b.value) {
      FirstBlock(v, d, root, inodes, b.value);
      BlockSizePositive(v);
      TiledSafe(BlockBytes(v, d, b.value), ino, name);
    }
  }

  /** The data written before the inode is what the inode leads to afterwards. */
  lemma DataInPlace(v: Volume, d: Disk, inodes: set<nat>, n: nat, b: nat, data: seq<byte>)
    requires Geometry(v) && Readable(v, d, b) && |data| <= v.blockSize
    requires var e := Stored(v, d, b, data + Zeros(v.blockSize - |data|)); Allotted(v, e, inodes, n, b)
    ensures var e := Stored(v, d, b, data + Zeros(v.blockSize - |data|));
      HoldsData(v, WithInode(v, e, n, BuildFileInode(|data|, b)), BuildFileInode(|data|, b), data)
  {
    hide Stored, Bit, PhysicalBlock, ReadInode, BuildFileInode, WithInode, Holds, FileByte, Readable, BlockBytes, InodesMarked,
      BlocksMarked, OneRoleEach;
    var bytes, inode := data + Zeros(v.blockSize - |data|), BuildFileInode(|data|, b);
    var e := Stored(v, d, b, bytes);
    var f := WithInode(v, e, n, inode);
    StoredBytes(v, d, b, bytes);
    BuiltInode(|data|, b);
    InodeBlockOnly(v, e, inodes, n, inode);
    SlotInTable(v, e, inodes, n);
    assert SlotBlock(v, e, n) != b;
    forall k | 0 <= k < |data| ensures FileByte(v, f, inode, k) == Some(data[k]) {
      FirstBlockBytes(v, e, inode, b, k);
      InFirstBlock(v, k);
      SameFile(v, e, f, inode, SlotBlock(v, e, n), k);
    }
  }

  lemma InFirstBlock(v: Volume, k: nat)
    requires Geometry(v) && k < v.blockSize
    ensures k / v.blockSize % U32 == 0
  {}

  /** Inode, data and directory entry together make the file. */
  lemma CreationComplete(v: Volume, d: Disk, f: Disk, g: Disk, inodes: set<nat>, root: Inode, n: nat, name: Name, data: seq<byte>)
    requires Image(v, d, inodes, root) && |name| <= 255 && Absent(v, d, root, inodes, name)
    requires n !in inodes && 0 < n < U32 && Structured(v, f, inodes + {n}) && FilesKept(v, d, f, inodes)
    requires ReadInode(v, f, n).Ok? && HoldsData(v, f, ReadInode(v, f, n).value, data)
    requires EntryAdded(v, f, NodeOf(ROOT, root), name, n) == Done(g)
    ensures Created(v, d, g, inodes, root, n, name, data)
  {
    hide Structured, ReadInode, FileByte, Tiled, Listing, Resolve, EntryAdded, Names, MetaSame;
    StructuredGeometry(v, d, inodes);
    ImageKept(v, d, f, inodes, inodes + {n}, root);
    DirectoryStep(v, f, g, inodes + {n}, root, n, name, name);
    SameInodeIn(v, f, g, n);
    forall other | other != name ensures Resolve(v, g, root, other) == Resolve(v, d, root, other) {
      DirectoryStep(v, f, g, inodes + {n}, root, n, name, other);
    }
    assert FileKept(v, f, g, n);
    forall m | m in inodes && m != ROOT ensures FileKept(v, d, g, m) {
      assert FileKept(v, d, f, m) && FileKept(v, f, g, m);
    }
  }

  lemma AllottedAfterData(v: Volume, d: Disk, e: Disk, inodes: set<nat>, n: nat, b: nat)
    requires Structured(v, d, inodes) && n !in inodes && 1 <= n <= BITS && b < BITS && OnlyBlock(v, d, e, b)
    requires Bit(d[BitmapSector(v, d, 4)], n - 1) && Bit(d[BitmapSector(v, d, 0)], b) && forall role :: !Holds(v, d, inodes, role, b)
    ensures Structured(v, e, inodes) && FilesKept(v, d, e, inodes)
    ensures n <= v.inodesCount && ReadInode(v, e, n).Ok? ==> Allotted(v, e, inodes, n, b)
    ensures Geometry(v) && MetaSame(v, d, e)
  {
    hide Bit, ReadInode, PhysicalBlock, Holds, FileKept, Descriptor, InodesMarked, BlocksMarked, OneRoleEach;
    DataStep(v, d, e, inodes, b);
    SameBitmaps(v, d, e);
    forall role ensures !Holds(v, e, inodes, role, b) {
      SameRoles(v, d, e, inodes, role, b);
    }
  }

  // ------------------------------------------------------------------
  // When creating a file succeeds
  // ------------------------------------------------------------------

  /** The lowest clear bit of a bitmap sector from `i` on. */
  ghost function FirstClear(s: Sector, i: nat): nat
    decreases BITS - i
  {
    if i >= BITS || !Bit(s, i) then i else FirstClear(s, i + 1)
  }

  lemma {:induction false} FirstClearIs(s: Sector, i: nat, bit: nat)
    requires i <= bit < BITS && !Bit(s, bit) && forall j :: i <= j < bit ==> Bit(s, j)
    ensures FirstClear(s, i) == bit
    decreases bit - i
  {
    hide Bit;
    if i < bit { FirstClearIs(s, i + 1, bit); }
  }

  /** The bit the next reservation takes. */
  ghost function NextBit(v: Volume, d: Disk, field: nat): nat
    requires field <= 8 && BgdSector(v) in d && BitmapSector(v, d, field) in d
  {
    FirstClear(d[BitmapSector(v, d, field)], 0)
  }

  lemma ReservedNext(v: Volume, d: Disk, e: Disk, field: nat, bit: nat)
    requires field <= 8 && Reserved(v, d, e, field, bit)
    ensures NextBit(v, d, field) == bit && e.Keys == d.Keys
  {
    hide Bit;
    FirstClearIs(d[BitmapSector(v, d, field)], 0, bit);
  }

  /** The first block of the directory ends in a record with room for `name`. */
  ghost predicate HasRoom(v: Volume, d: Disk, root: Inode, name: Name)
    requires Geometry(v)
  {
    var b := PhysicalBlock(root, 0);
    && b.Some? && Readable(v, d, b.value)
    && var end := EndOf(BlockBytes(v, d, b.value), 0); end.Last? && Fits(BlockBytes(v, d, b.value), end.offset, name)
  }

  /** What creating a file takes, all of it to be seen beforehand: a free inode and a free block, data
      that fits one block, room in the directory, and sectors that can be written. */
  ghost predicate CanCreate(v: Volume, d: Disk, readOnly: set<nat>, root: Inode, name: Name, data: seq<byte>)
    requires Geometry(v)
  {
    && Reservable(v, d, readOnly, 4) && Reservable(v, d, readOnly, 0)
    && (var (n, b) := (NextBit(v, d, 4) + 1, NextBit(v, d, 0));
        && |data| <= v.blockSize && Writable(v, d, readOnly, b)
        && ReadInode(v, d, n).Ok? && SlotSector(v, d, n) !in readOnly)
    && HasRoom(v, d, root, name) && Writable(v, d, readOnly, PhysicalBlock(root, 0).value)
  }

  /** Reserving an inode does not touch the block bitmap. */
  lemma OtherBitmap(v: Volume, d: Disk, e: Disk, inodes: set<nat>, n: nat, readOnly: set<nat>)
    requires Structured(v, d, inodes) && n >= 1 && Reserved(v, d, e, 4, n - 1)
    ensures BgdSector(v) in d && BitmapSector(v, d, 0) in d && BgdSector(v) in e && BitmapSector(v, e, 0) in e
    ensures NextBit(v, e, 0) == NextBit(v, d, 0) && (Reservable(v, e, readOnly, 0) <==> Reservable(v, d, readOnly, 0))
  {
    hide Bit, ReadInode, PhysicalBlock, Descriptor, FilesKept;
    ReserveStep(v, d, e, inodes, 4, n - 1);
    SameBitmaps(v, d, e);
    assert Holds(v, d, inodes, BlockMap, Descriptor(v, d, 0, 0)) && Holds(v, d, inodes, InodeMap, Descriptor(v, d, 0, 4));
    ReservedBlock(v, d, e, 4, n - 1);
    BitmapUntouched(v, d, e, 0, Descriptor(v, d, 0, 4));
  }

  lemma WritableSame(v: Volume, d: Disk, e: Disk, readOnly: set<nat>, b: nat)
    requires d.Keys == e.Keys
    ensures Writable(v, d, readOnly, b) == Writable(v, e, readOnly, b) && Readable(v, d, b) == Readable(v, e, b)
  {
    hide InBlock;
    forall s ensures s in d <==> s in e { assert s in d.Keys <==> s in e.Keys; }
  }

  lemma SlotSame(v: Volume, d: Disk, e: Disk, n: nat)
    requires Geometry(v) && MetaSame(v, d, e)
    ensures SlotSector(v, e, n) == SlotSector(v, d, n) && ReadInode(v, e, n) == ReadInode(v, d, n)
  {
    hide ReadInode;
  }

  /** Both reservations together, seen from the start. */
  lemma BothReserved(v: Volume, d0: Disk, d1: Disk, d2: Disk, inodes: set<nat>, n: nat, b: nat)
    requires Structured(v, d0, inodes) && n >= 1 && Reserved(v, d0, d1, 4, n - 1) && Reserved(v, d1, d2, 0, b)
    ensures Geometry(v) && d2.Keys == d0.Keys && MetaSame(v, d0, d2)
    ensures BgdSector(v) in d0 && BitmapSector(v, d0, 4) in d0 && BitmapSector(v, d0, 0) in d0
    ensures NextBit(v, d0, 4) == n - 1 && NextBit(v, d0, 0) == b
  {
    hide Bit, ReadInode, PhysicalBlock, Descriptor, FilesKept, NextBit, Reservable;
    ReservedNext(v, d0, d1, 4, n - 1);
    ReserveStep(v, d0, d1, inodes, 4, n - 1);
    OtherBitmap(v, d0, d1, inodes, n, {});
    ReservedNext(v, d1, d2, 0, b);
    ReserveStep(v, d1, d2, inodes, 0, b);
  }

  /** The directory has room after the preparations exactly if it had room before. */
  lemma RoomSame(v: Volume, d: Disk, e: Disk, inodes: set<nat>, more: set<nat>, root: Inode, name: Name)
    requires Image(v, d, inodes, root) && Image(v, e, more, root) && FileKept(v, d, e, ROOT) && d.Keys == e.Keys
    ensures Geometry(v) && HasRoom(v, e, root, name) == HasRoom(v, d, root, name)
  {
    hide Structured, ReadInode, PhysicalBlock, FileByte, BlockBytes, Tiled, Listing, EndOf, Fits, Readable;
    StructuredGeometry(v, d, inodes);
    var b := PhysicalBlock(root, 0);
    if b.Some? {
      WritableSame(v, d, e, {}, b.value);
      if Readable(v, d, b.value) {
        FirstBlock(v, d, root, inodes, b.value);
        FirstBlock(v, e, root, more, b.value);
        assert FileBytes(v, e, root) == FileBytes(v, d, root);
      }
    }
  }

  /** On a well-formed image an entry can be added exactly if there is room for it. */
  lemma RoomDecides(v: Volume, d: Disk, inodes: set<nat>, root: Inode, name: Name, ino: nat)
    requires Image(v, d, inodes, root) && |name| <= 255
    ensures Geometry(v) && (EntryAdded(v, d, NodeOf(ROOT, root), name, ino).Done? <==> HasRoom(v, d, root, name))
  {
    hide Structured, ReadInode, PhysicalBlock, FileByte, BlockBytes, Tiled, Listing, EndOf, Fits, Readable, Insertion, Stored;
    StructuredGeometry(v, d, inodes);
    var b := PhysicalBlock(root, 0);
    if b.Some? && Readable(v, d, b.value) {
      FirstBlock(v, d, root, inodes, b.value);
      BlockSizePositive(v);
      RoomInBlock(BlockBytes(v, d, b.value), ino, name);
    }
  }

  lemma RoomInBlock(block: seq<byte>, ino: nat, name: Name)
    requires Tiled(block, 0) && 0 < |block| <= 32768 && |name| <= 255
    ensures Insertion(block, ino, name).Done? <==> EndOf(block, 0).Last? && Fits(block, EndOf(block, 0).offset, name)
  {
    hide EndOf, Tiled, Unsafe, NewRecord;
    TiledSafe(block, ino, name);
    if Insertion(block, ino, name).Done? {
      InsertionDone(block, ino, name, Insertion(block, ino, name).value);
    }
  }

  /** Every file but the root directory is as it was. */
  ghost predicate OthersKept(v: Volume, d: Disk, e: Disk, inodes: set<nat>)
    requires Geometry(v)
  {
    forall m :: m in inodes && m != ROOT ==> FileKept(v, d, e, m)
  }

  lemma KeptSelf(v: Volume, d: Disk, inodes: set<nat>)
    requires Geometry(v)
    ensures OthersKept(v, d, d, inodes)
  {
    hide ReadInode, FileByte;
  }

  lemma KeptFirst(v: Volume, d: Disk, e: Disk, inodes: set<nat>, n: nat)
    requires Structured(v, d, inodes) && n >= 1 && Reserved(v, d, e, 4, n - 1)
    ensures Geometry(v) && OthersKept(v, d, e, inodes)
  {
    hide FileKept, Bit, ReadInode;
    ReserveStep(v, d, e, inodes, 4, n - 1);
  }

  /** The inode's slot is where it was, and the disk has the sectors it had. */
  lemma SlotStill(v: Volume, d: Disk, e: Disk, f: Disk, n: nat, b: nat)
    requires Geometry(v) && MetaSame(v, d, e) && MetaSame(v, e, f) && e.Keys == d.Keys && OnlyBlock(v, e, f, b)
    ensures f.Keys == d.Keys && SlotSector(v, f, n) == SlotSector(v, d, n) && ReadInode(v, f, n) == ReadInode(v, d, n)
  {
    hide MetaSame, ReadInode, SlotSector;
    SlotSame(v, d, e, n);
    SlotSame(v, e, f, n);
  }

  lemma StoredKeys(v: Volume, d: Disk, e: Disk, n: nat, inode: Inode, ok: bool)
    requires Geometry(v) && (ok ==> ReadInode(v, d, n).Ok? && e == WithInode(v, d, n, inode)) && (!ok ==> e == d)
    ensures e.Keys == d.Keys
  {}

  /** Before the entry is added: whether it can be is decided by the disk at the start. */
  lemma RoomAfter(v: Volume, d: Disk, e: Disk, inodes: set<nat>, more: set<nat>, root: Inode, name: Name, ino: nat, readOnly: set<nat>)
    requires Image(v, d, inodes, root) && Image(v, e, more, root) && Geometry(v) && FilesKept(v, d, e, inodes) && d.Keys == e.Keys && |name| <= 255
    ensures EntryAdded(v, e, NodeOf(ROOT, root), name, ino).Done? <==> HasRoom(v, d, root, name)
    ensures HasRoom(v, d, root, name) ==> PhysicalBlock(root, 0).Some?
    ensures PhysicalBlock(root, 0).Some? ==> Writable(v, e, readOnly, PhysicalBlock(root, 0).value) == Writable(v, d, readOnly, PhysicalBlock(root, 0).value)
  {
    hide Structured, ReadInode, PhysicalBlock, DirectoryOk, FileKept, EntryAdded, Writable, Readable, BlockBytes, EndOf, Fits;
    assert FileKept(v, d, e, ROOT);
    RoomSame(v, d, e, inodes, more, root, name);
    RoomDecides(v, e, more, root, name, ino);
    if PhysicalBlock(root, 0).Some? { WritableSame(v, d, e, readOnly, PhysicalBlock(root, 0).value); }
  }

  lemma OthersAfter(v: Volume, d: Disk, e: Disk, f: Disk, inodes: set<nat>, more: set<nat>, root: Inode)
    requires Image(v, e, more, root) && inodes <= more && Geometry(v) && FilesKept(v, d, e, inodes)
    requires f == e || (PhysicalBlock(root, 0).Some? && OnlyBlock(v, e, f, PhysicalBlock(root, 0).value))
    ensures OthersKept(v, d, f, inodes)
  {
    hide Structured, ReadInode, PhysicalBlock, DirectoryOk, OnlyBlock, FileByte;
    if f != e { RootBlock(v, e, f, more, root, PhysicalBlock(root, 0).value); }
    forall m | m in inodes && m != ROOT ensures FileKept(v, d, f, m) {
      assert FileKept(v, d, e, m);
    }
  }

  /** Allocates an inode and a block, writes data, inode and directory entry. Like the original
      it goes on after a failed write; the file counts as created only if all of them worked,
      which can be told beforehand. No other file is touched whatever happens. */
  method CreateFile(dev: Device, v: Volume, node: Node, name: Name, data: seq<byte>, ghost inodes: set<nat>) returns (r: Option<nat>)
    requires Image(v, dev.disk, inodes, node.inode) && node == NodeOf(ROOT, node.inode)
    requires |name| <= 255 && |data| < U32 && Absent(v, dev.disk, node.inode, inodes, name)
    modifies dev`disk
    ensures r.Some? ==> Created(v, old(dev.disk), dev.disk, inodes, node.inode, r.value, name, data)
    ensures r.Some? <==> old(CanCreate(v, dev.disk, dev.readOnly, node.inode, name, data))
    ensures OthersKept(v, old(dev.disk), dev.disk, inodes)
  {
    hide NextBit, Reservable, Writable, SlotSector, HasRoom, MetaSame, FileKept, OthersKept, Structured, Image, Absent, Created, Allotted,
      FilesKept, NodeOf, Reserved, OnlyBlock, Stored, Readable, HoldsData, BlockBytes, BgdSector, BitmapSector, PhysicalBlock, ReadInode, WithInode, EntryAdded, BuildFileInode, Geometry, Bit, Holds;
    ghost var root, d0 := node.inode, dev.disk;
    ImageStructured(v, d0, inodes, root);
    KeptSelf(v, d0, inodes);
    var inode := AllocateInode(dev, v);
    if inode.Err? { return None; }
    ghost var d1 := dev.disk;
    OtherBitmap(v, d0, d1, inodes, inode.value, dev.readOnly);
    KeptFirst(v, d0, d1, inodes, inode.value);
    var block := AllocateBlock(dev, v);
    if block.Err? { return None; }
    ghost var d2 := dev.disk;
    var n, b := inode.value, block.value;
    BothReserved(v, d0, d1, d2, inodes, n, b);
    WritableSame(v, d0, d2, dev.readOnly, b);
    ReservedRange(v, d0, d1, 4, n - 1);
    ReservedRange(v, d1, d2, 0, b);
    ReservationsAllot(v, d0, d1, d2, inodes, n, b);
    StructuredGeometry(v, d2, inodes);
    var written := WriteDataToBlock(dev, v, b, data);
    ghost var d3 := dev.disk;
    AllottedAfterData(v, d2, d3, inodes, n, b);
    KeptTwice(v, d0, d2, d3, inodes);
    SlotStill(v, d0, d2, d3, n, b);
    var meta := BuildFileInode(|data|, b);
    var stored := WriteInode(dev, v, n, meta);
    ghost var d4 := dev.disk;
    ghost var inUse := inodes;
    if stored.Ok? {
      BuiltOneBlock(|data|, b);
      InodeStored(v, d0, d3, inodes, n, meta, b);
      inUse := inodes + {n};
      if written.Ok? { DataInPlace(v, d2, inodes, n, b, data); }
    }
    ImageKept(v, d0, d4, inodes, inUse, root);
    RootSafe(v, d4, inUse, root, name, n);
    StoredKeys(v, d3, d4, n, meta, stored.Ok?);
    RoomAfter(v, d0, d4, inodes, inUse, root, name, n, dev.readOnly);
    var linked := AddEntry(dev, v, node, name, n);
    assert !linked.Overrun?;
    OthersAfter(v, d0, d4, dev.disk, inodes, inUse, root);
    if written.Err? || stored.Err? || !linked.Done? { return None; }
    CreationComplete(v, d0, d4, dev.disk, inodes, root, n, name, data);
    return Some(n);
  }

  lemma ImageStructured(v: Volume, d: Disk, inodes: set<nat>, root: Inode)
    requires Image(v, d, inodes, root)
    ensures Structured(v, d, inodes) && Geometry(v)
  {}

  lemma ReservedRange(v: Volume, d: Disk, e: Disk, field: nat, bit: nat)
    requires field <= 8 && Reserved(v, d, e, field, bit)
    ensures bit < BITS
  {}

  lemma BuiltOneBlock(size: nat, b: nat)
    requires size < U32 && b < BITS
    ensures OneBlock(BuildFileInode(size, b), b)
  {
    BuiltInode(size, b);
  }

  lemma InodeStored(v: Volume, d: Disk, e: Disk, inodes: set<nat>, n: nat, inode: Inode, b: nat)
    requires Geometry(v) && Allotted(v, e, inodes, n, b) && OneBlock(inode, b) && FilesKept(v, d, e, inodes)
    ensures Structured(v, WithInode(v, e, n, inode), inodes + {n}) && FilesKept(v, d, WithInode(v, e, n, inode), inodes)
    ensures ReadInode(v, WithInode(v, e, n, inode), n) == Ok(inode)
  {
    hide Structured, OneBlock, FilesKept, WithInode, ReadInode, Holds, Bit;
    InodeStep(v, e, inodes, n, inode, b);
    InodeStepKeeps(v, e, inodes, n, inode);
    KeptTwice(v, d, e, WithInode(v, e, n, inode), inodes);
  }

  /** Opens the root directory, creates a file, looks it up under its name and reads it: the
      data comes back. */
  method CreateAndReadBack(dev: Device, v: Volume, name: Name, data: seq<byte>, ghost inodes: set<nat>, ghost root: Inode)
    returns (r: Option<nat>, back: seq<byte>)
    requires Image(v, dev.disk, inodes, root)
    requires |name| <= 255 && |data| < U32 && Absent(v, dev.disk, root, inodes, name)
    modifies dev`disk
    ensures r.Some? ==> Created(v, old(dev.disk), dev.disk, inodes, root, r.value, name, data) && back == data
    ensures Geometry(v) && (r.Some? <==> old(CanCreate(v, dev.disk, dev.readOnly, root, name, data)))
    ensures OthersKept(v, old(dev.disk), dev.disk, inodes)
  {
    hide CanCreate, OthersKept, Absent, Created, HoldsData, Content, Find, ReadsPrefix, Geometry, Structured, DirectoryOk, ReadInode;
    ghost var d := dev.disk;
    ImageStructured(v, d, inodes, root);
    var node := NewRoot(v, dev.disk);
    r := CreateFile(dev, v, node, name, data, inodes);
    back := [];
    if r.None? { return; }
    RootIsDirectory(v, d, inodes, node.inode);
    var found, seen := Lookup(v, dev.disk, node, name);
    CreatedFound(v, d, dev.disk, inodes, node.inode, r.value, name, data, seen);
    var file := found.value;
    var buf := new byte[file.size](_ => 0);
    var n := Read(v, dev.disk, file.inode, file.size, 0, buf);
    back := buf[..n];
    ReadsData(v, dev.disk, file.inode, data, back);
  }

  lemma RootIsDirectory(v: Volume, d: Disk, inodes: set<nat>, root: Inode)
    requires Image(v, d, inodes, root)
    ensures IsDirectory(root)
  {}

  lemma CreatedFound(v: Volume, d: Disk, e: Disk, inodes: set<nat>, root: Inode, n: nat, name: Name, data: seq<byte>, seen: seq<byte>)
    requires Geometry(v) && Image(v, d, inodes, root) && Created(v, d, e, inodes, root, n, name, data)
    requires ReadsPrefix(seen, SizeOf(root), 0, Content(v, e, root))
    ensures var f := Find(v, e, seen, 0, name); f.Some? && f.value.0 == n && HoldsData(v, e, f.value.1, data)
  {
    hide Image, HoldsData, Content, Find, FileKept, ReadInode;
    FoundFile(v, e, inodes + {n}, root, name, seen);
  }

  /** Looking up reads the whole directory. */
  lemma FoundFile(v: Volume, d: Disk, inodes: set<nat>, root: Inode, name: Name, seen: seq<byte>)
    requires Image(v, d, inodes, root)
    ensures Geometry(v) && Complete(v, d, root) && IsDirectory(root)
    ensures ReadsPrefix(seen, SizeOf(root), 0, Content(v, d, root)) ==> Find(v, d, seen, 0, name) == Resolve(v, d, root, name)
  {
    hide Structured, ReadInode, FileByte, Tiled, Listing, Find, IsDirectory;
    StructuredGeometry(v, d, inodes);
    if ReadsPrefix(seen, SizeOf(root), 0, Content(v, d, root)) {
      PrefixSlice(seen, SizeOf(root), 0, Content(v, d, root), FileBytes(v, d, root));
      assert FileBytes(v, d, root)[0..SizeOf(root)] == FileBytes(v, d, root);
    }
  }

  lemma ReadsData(v: Volume, d: Disk, inode: Inode, data: seq<byte>, back: seq<byte>)
    requires Geometry(v) && HoldsData(v, d, inode, data)
    requires ReadsPrefix(back, Wanted(SizeOf(inode), 0, SizeOf(inode)), 0, Content(v, d, inode))
    ensures back == data
  {
    hide FileByte, IsRegular, SizeOf;
    PrefixSlice(back, |data|, 0, Content(v, d, inode), data);
    assert data[0..|data|] == data;
  }
}
