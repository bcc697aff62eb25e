/** Reading ext4 files through their extents (src/fs/ext4/mod.rs). */
module Ext4Files {
  import opened Arithmetic
  import opened Common
  import opened Disks
  import opened Words
  import opened Ext4Layout

  /** Byte `n` of the file an inode describes; `None` where no block is mapped or the sector
      cannot be read. Logical block numbers are 32 bits wide. */
  function FileByte(v: Volume, d: Disk, i: Inode, n: nat): Option<byte>
    requires Geometry(v)
  {
    match PhysicalBlock(i, n / v.blockSize % U32)
    case None => None
    case Some(b) =>
      var at := BlockSector(v, b) + n % v.blockSize / SECTOR;
      if at in d then Some(d[at][n % SECTOR]) else None
  }

  ghost function Content(v: Volume, d: Disk, i: Inode): nat -> Option<byte>
    requires Geometry(v)
  {
    (n: nat) => FileByte(v, d, i, n)
  }

  lemma ModShift(x: nat, r: nat)
    ensures (x * SECTOR + r) % SECTOR == r % SECTOR
  {}

  lemma InsideBlock(r: nat, j: nat, k: nat)
    requires r < k * SECTOR && r % SECTOR + j < SECTOR
    ensures r + j < k * SECTOR && (r + j) / SECTOR == r / SECTOR && (r + j) % SECTOR == r % SECTOR + j
  {}

  /** Neighbouring bytes of a sector belong to the same block. */
  lemma SameSector(v: Volume, n: nat, j: nat)
    requires Geometry(v) && n % SECTOR + j < SECTOR
    ensures (n + j) / v.blockSize == n / v.blockSize && (n + j) % v.blockSize / SECTOR == n % v.blockSize / SECTOR
    ensures (n + j) % SECTOR == n % SECTOR + j
  {
    hide Geometry, SectorsPerBlock;
    BlockSizePositive(v);
    var bs, q, r, k := v.blockSize, n / v.blockSize, n % v.blockSize, SectorsPerBlock(v);
    assert n == q * bs + r;
    WholeSectors(v, q);
    ModShift(q * k, r);
    InsideBlock(r, j, k);
    ModShift(q * k, r + j);
    DivMod(q, bs, r + j);
  }

  lemma ChunkBytes(v: Volume, d: Disk, i: Inode, n: nat, b: nat, chunk: nat)
    requires Geometry(v) && PhysicalBlock(i, n / v.blockSize % U32) == Some(b) && n % SECTOR + chunk <= SECTOR
    requires BlockSector(v, b) + n % v.blockSize / SECTOR in d
    ensures forall x :: n <= x < n + chunk ==>
      FileByte(v, d, i, x) == Some(d[BlockSector(v, b) + n % v.blockSize / SECTOR][n % SECTOR + (x - n)])
  {
    hide PhysicalBlock, BlockSector;
    forall x | n <= x < n + chunk
      ensures FileByte(v, d, i, x) == Some(d[BlockSector(v, b) + n % v.blockSize / SECTOR][n % SECTOR + (x - n)])
    {
      SameSector(v, n, x - n);
    }
  }

  /** How many bytes a read is after. */
  function Wanted(size: nat, offset: nat, len: nat): nat {
    if offset >= size then 0 else Min(len, size - offset)
  }

  /** Fills the front of `buf` with the file's bytes from `offset` on, up to the first that is
      not mapped or cannot be read. */
  method Read(v: Volume, d: Disk, i: Inode, size: nat, offset: nat, buf: array<byte>) returns (n: nat)
    requires Geometry(v)
    modifies buf
    ensures n <= buf.Length && buf[n..] == old(buf[n..])
    ensures ReadsPrefix(buf[..n], Wanted(size, offset, buf.Length), offset, Content(v, d, i))
  {
    hide FileByte, PhysicalBlock, Geometry, ReadsPrefix, BlockSector;
    if offset >= size || buf.Length == 0 {
      Delivered(v, d, i, offset, 0, []);
      return 0;
    }
    var want, current := Min(buf.Length, size - offset), offset;
    n := 0;
    while n < want
      invariant 0 <= n <= want && current == offset + n
      invariant forall x :: offset <= x < offset + n ==> FileByte(v, d, i, x) == Some(buf[x - offset])
      invariant forall j :: n <= j < buf.Length ==> buf[j] == old(buf[j])
    {
      BlockSizePositive(v);
      var block := PhysicalBlock(i, current / v.blockSize % U32);
      if block.None? || BlockSector(v, block.value) + current % v.blockSize / SECTOR !in d {
        NotThere(v, d, i, current);
        Delivered(v, d, i, offset, want, buf[..n]);
        return;
      }
      var at := BlockSector(v, block.value) + current % v.blockSize / SECTOR;
      var inSector := current % SECTOR;
      var chunk := Min(SECTOR - inSector, want - n);
      ChunkBytes(v, d, i, current, block.value, chunk);
      forall j | n <= j < n + chunk { buf[j] := d[at][inSector + (j - n)]; }
      n, current := n + chunk, current + chunk;
    }
    Delivered(v, d, i, offset, want, buf[..n]);
  }

  lemma Delivered(v: Volume, d: Disk, i: Inode, offset: nat, want: nat, data: seq<byte>)
    requires Geometry(v) && |data| <= want && forall x :: offset <= x < offset + |data| ==> FileByte(v, d, i, x) == Some(data[x - offset])
    requires |data| < want ==> FileByte(v, d, i, offset + |data|) == None
    ensures ReadsPrefix(data, want, offset, Content(v, d, i))
  {
    hide FileByte, Geometry;
  }

  lemma BlockSizePositive(v: Volume)
    requires Geometry(v)
    ensures v.blockSize > 0
  {}

  lemma NotThere(v: Volume, d: Disk, i: Inode, n: nat)
    requires Geometry(v)
    ensures (match PhysicalBlock(i, n / v.blockSize % U32)
             case None => true
             case Some(b) => BlockSector(v, b) + n % v.blockSize / SECTOR !in d) ==> FileByte(v, d, i, n) == None
  {}

  /** Reading `n + m` bytes is reading `n` and then, unless that fell short, `m` more. */
  lemma ReadSplit(v: Volume, d: Disk, i: Inode, size: nat, offset: nat, n: nat, m: nat, all: seq<byte>, first: seq<byte>, rest: seq<byte>)
    requires Geometry(v)
    requires ReadsPrefix(all, Wanted(size, offset, n + m), offset, Content(v, d, i))
    requires ReadsPrefix(first, Wanted(size, offset, n), offset, Content(v, d, i))
    requires ReadsPrefix(rest, Wanted(size, offset + n, m), offset + n, Content(v, d, i))
    ensures all == if |first| < Wanted(size, offset, n) then first else first + rest
  {
    hide FileByte, Geometry;
    var a, b := Wanted(size, offset, n), Wanted(size, offset + n, m);
    PrefixSplit(all, first, rest, a, b, offset, Content(v, d, i));
  }
}
