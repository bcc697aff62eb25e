/** Loading an ELF64 image into an address space (src/task/elf.rs). */
module ElfLoader {
  import opened Common
  import opened FrameState
  import opened PageTables
  import opened Paging
  import opened Lookups
  import opened World
  import opened AddressSpaces
  import opened Machines
  import opened CopyOnWrite
  import opened Budgets
  import opened Records
  import opened ElfFormat

  // ------------------------------------------------------------------
  // The file
  // ------------------------------------------------------------------

  function Field(elf: seq<byte>, at: nat, width: nat): nat {
    if at + width <= |elf| then LittleEndian(elf[at..at + width]) else 0
  }

  datatype ElfError = TooSmall | InvalidMagicNumber | Not64Bit | MemoryMappingFailed

  datatype LoadResult = Entry(entry: nat) | Failed(error: ElfError)

  /** The checks made before anything is mapped. */
  function HeaderError(elf: seq<byte>): (r: Option<ElfError>)
    ensures r == Some(TooSmall) <==> |elf| < FILE_HEADER
  {
    if |elf| < 64 then Some(TooSmall)
    else if elf[0..4] != [0x7F, 0x45, 0x4C, 0x46] then Some(InvalidMagicNumber)
    else if elf[4] != 2 then Some(Not64Bit)
    else None
  }

  function HeaderCount(elf: seq<byte>): nat {
    Field(elf, 0x38, 2)
  }

  /** File offset of program header `i`; the index product is taken in 16 bits. */
  function HeaderAt(elf: seq<byte>, i: nat): nat {
    Field(elf, 0x20, 8) + i * Field(elf, 0x36, 2) % 65536
  }

  datatype Segment = Segment(offset: nat, vaddr: nat, filesz: nat, memsz: nat)

  /** The segment the program header at offset `h` asks to load, if any. */
  function SegmentIn(elf: seq<byte>, h: nat): Option<Segment> {
    if Field(elf, h, 4) != 1 || Field(elf, h + 0x28, 8) == 0 then None
    else Some(Segment(Field(elf, h + 0x08, 8), Field(elf, h + 0x10, 8), Field(elf, h + 0x20, 8), Field(elf, h + 0x28, 8)))
  }

  /** The segment the loader finds in program header `i`. */
  function SegmentAt(elf: seq<byte>, i: nat): Option<Segment> {
    SegmentIn(elf, HeaderAt(elf, i))
  }

  /** The segment the format puts in program header `i`. */
  function FormatSegment(elf: seq<byte>, i: nat): Option<Segment> {
    SegmentIn(elf, Field(elf, 0x20, 8) + i * Field(elf, 0x36, 2))
  }

  /** The loader looks at the header the ELF format means exactly while the product fits 16 bits. */
  lemma HeaderAtIff(elf: seq<byte>, i: nat)
    ensures HeaderAt(elf, i) == Field(elf, 0x20, 8) + i * Field(elf, 0x36, 2) <==> i * Field(elf, 0x36, 2) < 65536
  {}

  /** The segment a program header asks to load: that of a loadable one that is not empty. */
  function Loadable(h: ProgramHeader): Option<Segment> {
    if h.kind == PT_LOAD && h.memsz > 0 then Some(Segment(h.offset, h.vaddr, h.filesz, h.memsz)) else None
  }

  /** Header fields are read as they were written. */
  lemma FileHeaderParsed(elf: seq<byte>, fh: FileHeader, phs: seq<ProgramHeader>)
    requires Encodes(elf, fh, phs)
    ensures Field(elf, 0x18, 8) == fh.entry && Field(elf, 0x20, 8) == fh.phoff && Field(elf, 0x36, 2) == fh.phentsize
    ensures HeaderCount(elf) == fh.phnum
    ensures HeaderError(elf) == if fh.ident[..4] != MAGIC then Some(InvalidMagicNumber) else if fh.ident[4] != CLASS64 then Some(Not64Bit) else None
  {
    hide Digits, Limit, Has, LittleEndian, FileHeaderBytes;
    FileHeaderFields(fh);
    var b := FileHeaderBytes(fh);
    assert elf[0..64] == elf[..64] == b;
    FieldParsed(elf, 0, b, 0x18, 8, fh.entry);
    FieldParsed(elf, 0, b, 0x20, 8, fh.phoff);
    FieldParsed(elf, 0, b, 0x36, 2, fh.phentsize);
    FieldParsed(elf, 0, b, 0x38, 2, fh.phnum);
    assert elf[0..4] == b[..16][..4] && elf[4] == b[..16][4];
  }

  lemma FieldParsed(elf: seq<byte>, at: nat, record: seq<byte>, field: nat, width: nat, x: nat)
    requires at + |record| <= |elf| && elf[at..at + |record|] == record && Has(record, field, width, x)
    ensures Field(elf, at + field, width) == x
  {
    hide Digits, Limit, LittleEndian;
    HasWithin(elf, at, record, field, width, x);
    HasRead(elf, at + field, width, x);
  }

  lemma SegmentParsed(elf: seq<byte>, at: nat, h: ProgramHeader)
    requires HeaderIn(elf, at, h)
    ensures SegmentIn(elf, at) == Loadable(h)
  {
    hide Digits, Limit, Has, LittleEndian, ProgramHeaderBytes, Field;
    ProgramHeaderFields(h);
    var b := ProgramHeaderBytes(h);
    FieldParsed(elf, at, b, 0, 4, h.kind);
    FieldParsed(elf, at, b, 8, 8, h.offset);
    FieldParsed(elf, at, b, 0x10, 8, h.vaddr);
    FieldParsed(elf, at, b, 0x20, 8, h.filesz);
    FieldParsed(elf, at, b, 0x28, 8, h.memsz);
  }

  /** The loader finds in header `i` the segment it describes exactly as long as it looks at that
      header, or at one with the same fields. */
  lemma SegmentsParsed(elf: seq<byte>, fh: FileHeader, phs: seq<ProgramHeader>, i: nat)
    requires Encodes(elf, fh, phs) && i < |phs|
    ensures FormatSegment(elf, i) == Loadable(phs[i])
    ensures i * fh.phentsize < 65536 ==> SegmentAt(elf, i) == Loadable(phs[i])
  {
    hide Encodes, Field, SegmentIn, HeaderCount, HeaderIn;
    FileHeaderParsed(elf, fh, phs);
    HeaderEncoded(elf, fh, phs, i);
    SegmentParsed(elf, fh.phoff + i * fh.phentsize, phs[i]);
    HeaderAtIff(elf, i);
  }

  lemma HeadersCounted(elf: seq<byte>, fh: FileHeader, phs: seq<ProgramHeader>)
    requires Encodes(elf, fh, phs)
    ensures |phs| == fh.phnum
  {}

  lemma HeaderEncoded(elf: seq<byte>, fh: FileHeader, phs: seq<ProgramHeader>, i: nat)
    requires Encodes(elf, fh, phs) && i < |phs|
    ensures fh.phoff + i * fh.phentsize >= 0 && HeaderIn(elf, fh.phoff + i * fh.phentsize, phs[i]) && |phs| == fh.phnum
  {}

  predicate InSegment(g: Segment, a: nat) {
    g.vaddr <= a < g.vaddr + g.memsz
  }

  /** The byte a segment puts at `a`: file contents, then zeros. A segment at address 0 is not copied. */
  function ImageByte(elf: seq<byte>, g: Segment, a: nat): byte
    requires g.offset + g.filesz <= |elf| && g.vaddr <= a
  {
    if g.vaddr != 0 && a < g.vaddr + g.filesz then elf[g.offset + (a - g.vaddr)] else 0
  }

  /** The image agrees with the format's rule for every file exactly when the segment does not
      start at address 0 with file contents. */
  lemma ImageRuleIff(g: Segment)
    requires g.filesz <= g.memsz
    ensures (forall elf: seq<byte>, a: nat :: g.offset + g.filesz <= |elf| && InSegment(g, a) ==>
               ImageByte(elf, g, a) == FormatByte(elf, g, a))
        <==> (g.vaddr != 0 || g.filesz == 0)
  {
    if g.vaddr == 0 && g.filesz > 0 {
      var elf: seq<byte> := seq(g.offset + g.filesz, _ => 1);
      assert InSegment(g, 0) && ImageByte(elf, g, 0) != elf[g.offset];
    }
  }

  /** The byte the format puts at `a`. */
  function FormatByte(elf: seq<byte>, g: Segment, a: nat): byte
    requires g.offset + g.filesz <= |elf| && g.vaddr <= a
  {
    if a < g.vaddr + g.filesz then elf[g.offset + (a - g.vaddr)] else 0
  }

  /** No header lies past the reach of a 16-bit product, and no segment has contents at address 0. */
  ghost predicate Ordinary(elf: seq<byte>) {
    forall i :: 0 <= i < HeaderCount(elf) ==>
      i * Field(elf, 0x36, 2) < 65536 && (SegmentAt(elf, i).Some? ==> SegmentAt(elf, i).value.vaddr != 0 || SegmentAt(elf, i).value.filesz == 0)
  }

  predicate SegmentFits(elf: seq<byte>, g: Segment) {
    g.offset + g.filesz <= |elf| && g.filesz <= g.memsz && g.vaddr + g.memsz <= USER_PAGES * FRAME_SIZE
  }

  /** Every loadable segment lies in the file and in user space, and no two share a byte. */
  ghost predicate WellFormed(elf: seq<byte>) {
    && (forall i :: 0 <= i < HeaderCount(elf) && SegmentAt(elf, i).Some? ==> SegmentFits(elf, SegmentAt(elf, i).value))
    && (forall i, j, a :: 0 <= i < j < HeaderCount(elf) && SegmentAt(elf, i).Some? && SegmentAt(elf, j).Some? ==>
          !(InSegment(SegmentAt(elf, i).value, a) && InSegment(SegmentAt(elf, j).value, a)))
  }

  // ------------------------------------------------------------------
  // The image in memory
  // ------------------------------------------------------------------

  /** Reading one byte through the page tables of `root`. */
  function ReadByte(m: Memory, root: nat, a: nat): Option<byte> {
    match Lookup(m, root, PathOf(a / FRAME_SIZE))
    case None => None
    case Some(e) => Some(BytesOf(m, e.frame)[a % FRAME_SIZE])
  }

  /** Page `p` is mapped on a frame of its own, can be written, and holds the bytes of `img`. */
  ghost predicate Shows(m: Memory, s: Frames, root: nat, p: nat, img: nat -> byte) {
    var e := Lookup(m, root, PathOf(p));
    && e.Some? && Count(s, e.value.frame) == 1 && WriteAccess(m, root, PathOf(p))
    && forall a: nat :: a / FRAME_SIZE == p ==> img(a) == BytesOf(m, e.value.frame)[a % FRAME_SIZE]
  }

  /** Page `p` is not mapped and `img` is blank on it. */
  ghost predicate Blank(m: Memory, root: nat, p: nat, img: nat -> byte) {
    Lookup(m, root, PathOf(p)).None? && forall a: nat :: a / FRAME_SIZE == p ==> img(a) == 0
  }

  /** Of the pages of interest, those in `loaded` show `img` and the others are blank. */
  ghost predicate Loaded(m: Memory, s: Frames, roots: seq<nat>, k: nat, pages: set<nat>, loaded: set<nat>, img: nat -> byte) {
    && Target(m, s, roots, k, pages) && loaded <= pages
    && (forall p :: p in loaded ==> Shows(m, s, roots[k], p, img))
    && (forall p :: p in pages && p !in loaded ==> Blank(m, roots[k], p, img))
  }

  /** Mapping page `p` leaves another loaded page as it was. */
  lemma KeepsShown(m: Memory, s: Frames, n: Memory, t: Frames, roots: seq<nat>, k: nat, pages: set<nat>, p: nat, q: nat, img: nat -> byte)
    requires Target(m, s, roots, k, pages) && p in pages && q in pages && p != q
    requires MapFrame(m, s, n, roots[k], PathOf(p)) && KeepsCounts(s, t)
    ensures Lookup(n, roots[k], PathOf(q)) == Lookup(m, roots[k], PathOf(q))
    ensures Shows(m, s, roots[k], q, img) ==> Shows(n, t, roots[k], q, img)
  {
    hide RefsFrom, EntryRefs, TableFrom, EntryTable, Walk, Sub;
    PathsDiffer(p, q);
    if Shows(m, s, roots[k], q, img) {
      var x := Lookup(m, roots[k], PathOf(q)).value.frame;
      PageIsPlain(m, s, roots, k, PathOf(q));
      assert SameFrame(m, n, x);
      assert BytesOf(n, x) == BytesOf(m, x);
    }
  }

  /** Mapping a page that was blank loads it. */
  lemma FreshLoads(m: Memory, s: Frames, n: Memory, t: Frames, roots: seq<nat>, k: nat, pages: set<nat>, loaded: set<nat>,
                   img: nat -> byte, p: nat, d: nat)
    requires Loaded(m, s, roots, k, pages, loaded, img) && p in pages && p !in loaded
    requires MappedFresh(m, s, n, t, roots, k, PathOf(p), d)
    ensures Loaded(n, t, roots, k, pages, loaded + {p}, img)
  {
    hide RefsFrom, EntryRefs, TableFrom, EntryTable, Walk, Sub, Total, BytesOf, Refs, PathOf;
    forall q | q in pages && q != p
      ensures Lookup(n, roots[k], PathOf(q)) == Lookup(m, roots[k], PathOf(q))
      ensures q in loaded ==> Shows(n, t, roots[k], q, img)
    {
      KeepsShown(m, s, n, t, roots, k, pages, p, q, img);
    }
    FreshShows(m, s, n, t, roots, k, p, d, img);
  }

  /** One page of a segment: it is loaded afterwards unless mapping failed. */
  lemma MapLoads(m: Memory, s: Frames, n: Memory, t: Frames, roots: seq<nat>, k: nat, pages: set<nat>, loaded: set<nat>,
                 img: nat -> byte, p: nat, r: MapStatus, leak: Option<nat>)
    requires Loaded(m, s, roots, k, pages, loaded, img) && p in pages
    requires MapSpec(m, s, n, t, roots, k, PathOf(p), r, leak) && r == Mapped
    ensures Loaded(n, t, roots, k, pages, loaded + {p}, img)
  {
    hide RefsFrom, EntryRefs, TableFrom, EntryTable, Walk, Sub, Total, BytesOf, Refs, PathOf, MappedFresh;
    if p in loaded {
      assert Shows(m, s, roots[k], p, img);
      assert loaded + {p} == loaded;
    } else {
      assert Blank(m, roots[k], p, img);
      var d: nat :| MappedFresh(m, s, n, t, roots, k, PathOf(p), d);
      FreshLoads(m, s, n, t, roots, k, pages, loaded, img, p, d);
    }
  }

  lemma FreshShows(m: Memory, s: Frames, n: Memory, t: Frames, roots: seq<nat>, k: nat, p: nat, d: nat, img: nat -> byte)
    requires k < |roots| && p < USER_PAGES && MappedFresh(m, s, n, t, roots, k, PathOf(p), d) && Blank(m, roots[k], p, img)
    ensures Shows(n, t, roots[k], p, img)
  {}

  // Copying ------------------------------------------------------------

  /** The bytes of frame `x` with `chunk` written at `o`. */
  function Patched(m: Memory, x: nat, o: nat, chunk: seq<byte>): Memory
    requires o + |chunk| <= FRAME_SIZE
  {
    m[x := Data(Splice(BytesOf(m, x), o, chunk))]
  }

  /** `img` with `chunk` painted at address `a`. */
  function Painted(img: nat -> byte, a: nat, chunk: seq<byte>): nat -> byte {
    (b: nat) => if a <= b < a + |chunk| then chunk[b - a] else img(b)
  }

  /** Loaded pages lie on different frames. */
  lemma DistinctFrames(m: Memory, s: Frames, roots: seq<nat>, k: nat, pages: set<nat>, p: nat, q: nat)
    requires Target(m, s, roots, k, pages) && p in pages && q in pages && p != q
    requires Lookup(m, roots[k], PathOf(p)).Some? && Lookup(m, roots[k], PathOf(q)).Some?
    requires Count(s, Lookup(m, roots[k], PathOf(p)).value.frame) == 1
    ensures Lookup(m, roots[k], PathOf(p)).value.frame != Lookup(m, roots[k], PathOf(q)).value.frame
  {
    hide RefsFrom, EntryRefs, TableFrom, EntryTable, Walk;
    var x := Lookup(m, roots[k], PathOf(p)).value.frame;
    PathsDiffer(p, q);
    assert Sub(m, s, roots[k], 4);
    if Lookup(m, roots[k], PathOf(q)).value.frame == x {
      SharedFrame(m, s, roots[k], PathOf(p), PathOf(q), x);
    }
  }

  lemma PatchShows(m: Memory, s: Frames, roots: seq<nat>, k: nat, pages: set<nat>, img: nat -> byte, p: nat, q: nat, o: nat, chunk: seq<byte>)
    requires Target(m, s, roots, k, pages) && p in pages && q in pages && o + |chunk| <= FRAME_SIZE
    requires Shows(m, s, roots[k], p, img) && Shows(m, s, roots[k], q, img)
    ensures var x := Lookup(m, roots[k], PathOf(p)).value.frame;
      Shows(Patched(m, x, o, chunk), s, roots[k], q, Painted(img, p * FRAME_SIZE + o, chunk))
  {
    hide RefsFrom, EntryRefs, TableFrom, EntryTable, Walk, Sub, Refs, PathOf;
    var x := Lookup(m, roots[k], PathOf(p)).value.frame;
    var c := Data(Splice(BytesOf(m, x), o, chunk));
    PageIsPlain(m, s, roots, k, PathOf(p));
    WriteKeepsPages(m, s, roots, x, c, k, PathOf(q));
    if q == p {
      PatchBytes(m, x, o, chunk, img, p);
    } else {
      DistinctFrames(m, s, roots, k, pages, p, q);
      var y := Lookup(m, roots[k], PathOf(q)).value.frame;
      assert BytesOf(Patched(m, x, o, chunk), y) == BytesOf(m, y);
    }
  }

  lemma PatchBytes(m: Memory, x: nat, o: nat, chunk: seq<byte>, img: nat -> byte, p: nat)
    requires o + |chunk| <= FRAME_SIZE && forall a: nat :: a / FRAME_SIZE == p ==> img(a) == BytesOf(m, x)[a % FRAME_SIZE]
    ensures forall a: nat :: a / FRAME_SIZE == p ==>
      Painted(img, p * FRAME_SIZE + o, chunk)(a) == BytesOf(Patched(m, x, o, chunk), x)[a % FRAME_SIZE]
  {
    var b := Splice(BytesOf(m, x), o, chunk);
    forall i | 0 <= i < |chunk| ensures b[o + i] == chunk[i] {
      assert b[o..o + |chunk|][i] == chunk[i];
    }
    forall a: nat | a / FRAME_SIZE == p
      ensures Painted(img, p * FRAME_SIZE + o, chunk)(a) == BytesOf(Patched(m, x, o, chunk), x)[a % FRAME_SIZE]
    {
      assert a == p * FRAME_SIZE + a % FRAME_SIZE;
      assert img(a) == BytesOf(m, x)[a % FRAME_SIZE];
      if o <= a % FRAME_SIZE < o + |chunk| { assert b[o + (a % FRAME_SIZE - o)] == chunk[a % FRAME_SIZE - o]; }
    }
  }

  /** Writing file bytes into a loaded page paints exactly those bytes of the image. */
  lemma PatchLoads(m: Memory, s: Frames, roots: seq<nat>, k: nat, pages: set<nat>, loaded: set<nat>, img: nat -> byte,
                   p: nat, o: nat, chunk: seq<byte>)
    requires Loaded(m, s, roots, k, pages, loaded, img) && p in loaded && o + |chunk| <= FRAME_SIZE
    ensures var x := Lookup(m, roots[k], PathOf(p)).value.frame;
      Loaded(Patched(m, x, o, chunk), s, roots, k, pages, loaded, Painted(img, p * FRAME_SIZE + o, chunk))
  {
    hide RefsFrom, EntryRefs, TableFrom, EntryTable, Walk, Sub, Total, BytesOf, Refs, PathOf;
    assert Shows(m, s, roots[k], p, img);
    var x := Lookup(m, roots[k], PathOf(p)).value.frame;
    var n := Patched(m, x, o, chunk);
    PatchTarget(m, s, roots, k, pages, p, o, chunk);
    forall q | q in loaded ensures Shows(n, s, roots[k], q, Painted(img, p * FRAME_SIZE + o, chunk)) {
      assert Shows(m, s, roots[k], q, img);
      PatchShows(m, s, roots, k, pages, img, p, q, o, chunk);
    }
    forall q | q in pages && q !in loaded ensures Blank(n, roots[k], q, Painted(img, p * FRAME_SIZE + o, chunk)) {
      assert Blank(m, roots[k], q, img);
      PageIsPlain(m, s, roots, k, PathOf(p));
      WriteKeepsPages(m, s, roots, x, n[x], k, PathOf(q));
    }
  }

  /** Writing into any mapped page keeps the world consistent. */
  lemma PatchTarget(m: Memory, s: Frames, roots: seq<nat>, k: nat, pages: set<nat>, p: nat, o: nat, chunk: seq<byte>)
    requires Target(m, s, roots, k, pages) && p in pages && o + |chunk| <= FRAME_SIZE && Lookup(m, roots[k], PathOf(p)).Some?
    ensures Target(Patched(m, Lookup(m, roots[k], PathOf(p)).value.frame, o, chunk), s, roots, k, pages)
  {
    hide RefsFrom, EntryRefs, TableFrom, EntryTable, Walk, Sub, Total, BytesOf, Refs, PathOf;
    var x := Lookup(m, roots[k], PathOf(p)).value.frame;
    var c := Data(Splice(BytesOf(m, x), o, chunk));
    PageIsPlain(m, s, roots, k, PathOf(p));
    WorldWrite(m, s, roots, x, c);
    forall q | q in pages ensures Enters(Patched(m, x, o, chunk), roots[k], PathOf(q)) {
      WriteKeepsPages(m, s, roots, x, c, k, PathOf(q));
    }
  }

  // ------------------------------------------------------------------
  // The loader
  // ------------------------------------------------------------------

  /** Allocates every page the segment touches; a failure is remembered and the loop goes on. */
  method MapSegment(mc: Machine, root: nat, g: Segment, ok: bool,
                    ghost k: nat, ghost pages: set<nat>, ghost loaded: set<nat>, ghost img: nat -> byte, ghost budget: nat)
    returns (success: bool, ghost now: set<nat>)
    requires Target(mc.mem, mc.frames, mc.roots, k, pages) && mc.roots[k] == root && g.memsz > 0
    requires ok ==> Loaded(mc.mem, mc.frames, mc.roots, k, pages, loaded, img)
    requires forall a: nat :: InSegment(g, a) ==> a / FRAME_SIZE in pages
    requires ok ==> Free(mc.frames) + 4 * |loaded| >= budget
    modifies mc`frames, mc`mem
    ensures Target(mc.mem, mc.frames, mc.roots, k, pages)
    ensures success ==> ok && Loaded(mc.mem, mc.frames, mc.roots, k, pages, now, img) && loaded <= now
    ensures success ==> forall a: nat :: InSegment(g, a) ==> a / FRAME_SIZE in now
    ensures success ==> Free(mc.frames) + 4 * |now| >= budget
    ensures ok && 4 * |pages| <= budget ==> success
  {
    hide Free, Cost, TablesGrow, Verdict, Target, Loaded, MapSpec, PathOf, Consistent, Enters, Lookup, Walk, Inv, Sub, Total, IsPath, IsIndices, Good;
    success, now := ok, loaded;
    var endPage := CeilDiv(g.vaddr + g.memsz, FRAME_SIZE) * FRAME_SIZE;
    var page := g.vaddr / FRAME_SIZE * FRAME_SIZE;
    while page < endPage
      invariant page % FRAME_SIZE == 0 && g.vaddr / FRAME_SIZE * FRAME_SIZE <= page <= endPage
      invariant Target(mc.mem, mc.frames, mc.roots, k, pages)
      invariant success ==> ok && Loaded(mc.mem, mc.frames, mc.roots, k, pages, now, img) && loaded <= now
      invariant success ==> forall p :: g.vaddr / FRAME_SIZE <= p < page / FRAME_SIZE ==> p in now
      invariant success ==> Free(mc.frames) + 4 * |now| >= budget
      invariant ok && 4 * |pages| <= budget ==> success
    {
      ghost var m, s, p := mc.mem, mc.frames, page / FRAME_SIZE;
      assert InSegment(g, if page < g.vaddr then g.vaddr else page);
      TargetPage(m, s, mc.roots, k, pages, p);
      if success { PagePaidFor(m, s, mc.roots, k, pages, now, img, p, budget); }
      var status, leak := mc.AllocateAndMapUserPage(root, page / FRAME_SIZE, k);
      TargetKept(m, s, mc.mem, mc.frames, mc.roots, k, pages, p, status, leak);
      if status != Mapped {
        success := false;
      } else if success {
        MapLoads(m, s, mc.mem, mc.frames, mc.roots, k, pages, now, img, p, status, leak);
        now := now + {p};
      }
      page := page + FRAME_SIZE;
    }
  }

  /** One more page costs four frames at most, and nothing if it is loaded. */
  lemma PagePaidFor(m: Memory, s: Frames, roots: seq<nat>, k: nat, pages: set<nat>, loaded: set<nat>, img: nat -> byte, p: nat, budget: nat)
    requires Loaded(m, s, roots, k, pages, loaded, img) && p in pages && Free(s) + 4 * |loaded| >= budget
    ensures Free(s) - Cost(m, roots[k], PathOf(p)) + 4 * |loaded + {p}| >= budget
    ensures 4 * |pages| <= budget ==> Verdict(m, s, roots[k], PathOf(p)) == Mapped
  {
    hide Free, Target, Shows, Blank, PathOf, Lookup, Missing;
    TargetPage(m, s, roots, k, pages, p);
    CostBound(m, roots[k], PathOf(p));
    if p in loaded {
      LoadedPage(m, s, roots, k, pages, loaded, img, p);
      assert loaded + {p} == loaded;
    } else {
      assert |loaded + {p}| == |loaded| + 1;
      Fewer(loaded + {p}, pages);
    }
  }

  lemma Fewer(a: set<nat>, b: set<nat>)
    requires a <= b
    ensures |a| <= |b|
  {
    assert b == a + (b - a);
  }

  lemma LoadedPage(m: Memory, s: Frames, roots: seq<nat>, k: nat, pages: set<nat>, loaded: set<nat>, img: nat -> byte, p: nat)
    requires Loaded(m, s, roots, k, pages, loaded, img) && p in loaded
    ensures p in pages && Shows(m, s, roots[k], p, img) && Lookup(m, roots[k], PathOf(p)).Some?
  {}

  /** Copies the file bytes page by page through the page tables. */
  method CopySegment(mc: Machine, root: nat, elf: seq<byte>, g: Segment, ok: bool,
                     ghost k: nat, ghost pages: set<nat>, ghost loaded: set<nat>, ghost img: nat -> byte)
    returns (success: bool, ghost shown: nat -> byte)
    requires Target(mc.mem, mc.frames, mc.roots, k, pages) && mc.roots[k] == root && SegmentFits(elf, g)
    requires forall a: nat :: InSegment(g, a) ==> a / FRAME_SIZE in pages
    requires ok ==> Loaded(mc.mem, mc.frames, mc.roots, k, pages, loaded, img)
    requires ok ==> forall a: nat :: InSegment(g, a) ==> a / FRAME_SIZE in loaded
    modifies mc`mem
    ensures Target(mc.mem, mc.frames, mc.roots, k, pages)
    ensures success ==> Loaded(mc.mem, mc.frames, mc.roots, k, pages, loaded, shown)
    ensures success == ok
    ensures forall a: nat :: shown(a) == if g.vaddr <= a < g.vaddr + g.filesz then elf[g.offset + (a - g.vaddr)] else img(a)
  {
    hide Target, Loaded, PathOf, Shows, Lookup, Consistent, Enters, Walk, Inv, Sub, Total, IsPath, IsIndices, Good, Patched, BytesOf, Splice;
    success, shown := ok, img;
    var remaining, fileOffset, vaddr := g.filesz, g.offset, g.vaddr;
    while remaining > 0
      invariant 0 <= remaining <= g.filesz && fileOffset + remaining == g.offset + g.filesz && vaddr + remaining == g.vaddr + g.filesz
      invariant Target(mc.mem, mc.frames, mc.roots, k, pages)
      invariant success ==> Loaded(mc.mem, mc.frames, mc.roots, k, pages, loaded, shown)
      invariant success == ok
      invariant forall a: nat :: shown(a) == if g.vaddr <= a < vaddr then elf[g.offset + (a - g.vaddr)] else img(a)
    {
      var page, offset := vaddr / FRAME_SIZE, vaddr % FRAME_SIZE;
      var n := Min(remaining, FRAME_SIZE - offset);
      var chunk := elf[fileOffset..fileOffset + n];
      assert InSegment(g, vaddr);
      TargetPage(mc.mem, mc.frames, mc.roots, k, pages, page);
      if success { LoadedPage(mc.mem, mc.frames, mc.roots, k, pages, loaded, shown, page); }
      var found := Lookup(mc.mem, root, PathOf(page));
      if found.Some? {
        PatchTarget(mc.mem, mc.frames, mc.roots, k, pages, page, offset, chunk);
        if success { PatchLoads(mc.mem, mc.frames, mc.roots, k, pages, loaded, shown, page, offset, chunk); }
        mc.mem := Patched(mc.mem, found.value.frame, offset, chunk);
      } else {
        success := false;
      }
      shown := Painted(shown, vaddr, chunk);
      vaddr, fileOffset, remaining := vaddr + n, fileOffset + n, remaining - n;
    }
  }

  // The whole image ------------------------------------------------------

  ghost predicate CoveredBefore(elf: seq<byte>, i: nat, a: nat) {
    exists j :: 0 <= j < i && SegmentAt(elf, j).Some? && InSegment(SegmentAt(elf, j).value, a)
  }

  /** `img` holds what the first `i` program headers ask for, and zeros everywhere else. */
  ghost predicate ImageUpTo(elf: seq<byte>, i: nat, img: nat -> byte)
    requires WellFormed(elf) && i <= HeaderCount(elf)
  {
    && (forall j, a: nat :: 0 <= j < i && SegmentAt(elf, j).Some? && InSegment(SegmentAt(elf, j).value, a) ==>
          img(a) == ImageByte(elf, SegmentAt(elf, j).value, a))
    && (forall a: nat :: !CoveredBefore(elf, i, a) ==> img(a) == 0)
  }

  /** Copying one segment extends the image; segments do not disturb each other. */
  lemma ImageStep(elf: seq<byte>, i: nat, g: Segment, img: nat -> byte, shown: nat -> byte)
    requires WellFormed(elf) && i < HeaderCount(elf) && ImageUpTo(elf, i, img) && SegmentAt(elf, i) == Some(g)
    requires forall a: nat :: shown(a) == if g.vaddr != 0 && g.vaddr <= a < g.vaddr + g.filesz then elf[g.offset + (a - g.vaddr)] else img(a)
    ensures ImageUpTo(elf, i + 1, shown)
  {
    hide SegmentAt, LittleEndian, Field, HeaderCount;
    forall j, a: nat | 0 <= j < i + 1 && SegmentAt(elf, j).Some? && InSegment(SegmentAt(elf, j).value, a)
      ensures shown(a) == ImageByte(elf, SegmentAt(elf, j).value, a)
    {
      if j < i {
        assert !InSegment(g, a);
        assert img(a) == ImageByte(elf, SegmentAt(elf, j).value, a);
      } else {
        assert !CoveredBefore(elf, i, a);
      }
    }
    forall a: nat | !CoveredBefore(elf, i + 1, a) ensures shown(a) == 0 {
      assert !InSegment(g, a);
      assert !CoveredBefore(elf, i, a);
    }
  }

  lemma ImageSkip(elf: seq<byte>, i: nat, img: nat -> byte)
    requires WellFormed(elf) && i < HeaderCount(elf) && ImageUpTo(elf, i, img) && SegmentAt(elf, i).None?
    ensures ImageUpTo(elf, i + 1, img)
  {
    forall a: nat | !CoveredBefore(elf, i + 1, a) ensures img(a) == 0 {
      assert !CoveredBefore(elf, i, a);
    }
  }

  /** The pages the loadable segments touch. */
  ghost function PagesOf(elf: seq<byte>): set<nat> {
    set p: nat | p < USER_PAGES && Touched(elf, p)
  }

  ghost predicate Touched(elf: seq<byte>, p: nat) {
    exists i, a: nat :: 0 <= i < HeaderCount(elf) && SegmentAt(elf, i).Some? && InSegment(SegmentAt(elf, i).value, a) && a / FRAME_SIZE == p
  }

  lemma SegmentPages(elf: seq<byte>, i: nat)
    requires WellFormed(elf) && i < HeaderCount(elf) && SegmentAt(elf, i).Some?
    ensures forall a: nat :: InSegment(SegmentAt(elf, i).value, a) ==> a / FRAME_SIZE in PagesOf(elf)
  {
    hide SegmentAt, LittleEndian, Field, HeaderCount;
    forall a: nat | InSegment(SegmentAt(elf, i).value, a) ensures a / FRAME_SIZE in PagesOf(elf) {
      assert Touched(elf, a / FRAME_SIZE);
    }
  }

  /** Everything the image promises can be read back through the page tables. */
  lemma ImageReadable(m: Memory, s: Frames, roots: seq<nat>, k: nat, pages: set<nat>, loaded: set<nat>, img: nat -> byte, a: nat)
    requires Loaded(m, s, roots, k, pages, loaded, img) && a / FRAME_SIZE in loaded
    ensures ReadByte(m, roots[k], a) == Some(img(a))
  {
    LoadedPage(m, s, roots, k, pages, loaded, img, a / FRAME_SIZE);
  }

  /** Reading through the page tables of `root` gives what every loadable segment asks for. */
  ghost predicate ShowsImage(m: Memory, root: nat, elf: seq<byte>)
    requires WellFormed(elf)
  {
    forall i, a: nat :: 0 <= i < HeaderCount(elf) && SegmentAt(elf, i).Some? && InSegment(SegmentAt(elf, i).value, a) ==>
      ReadByte(m, root, a) == Some(ImageByte(elf, SegmentAt(elf, i).value, a))
  }

  /** Reading through the page tables of `root` gives the image the ELF format prescribes. */
  ghost predicate ShowsFormatImage(m: Memory, root: nat, elf: seq<byte>) {
    forall i, a: nat :: 0 <= i < HeaderCount(elf) && FormatSegment(elf, i).Some? ==> Prescribed(m, root, elf, FormatSegment(elf, i).value, a)
  }

  ghost predicate Prescribed(m: Memory, root: nat, elf: seq<byte>, g: Segment, a: nat) {
    InSegment(g, a) ==> SegmentFits(elf, g) && ReadByte(m, root, a) == Some(FormatByte(elf, g, a))
  }

  lemma SameSegment(elf: seq<byte>, i: nat)
    requires i < HeaderCount(elf) && Ordinary(elf)
    ensures SegmentAt(elf, i) == FormatSegment(elf, i)
  {
    HeaderAtIff(elf, i);
  }

  /** For ordinary files the loader's image is the format's. */
  lemma FormatImage(m: Memory, root: nat, elf: seq<byte>)
    requires WellFormed(elf) && Ordinary(elf) && ShowsImage(m, root, elf)
    ensures ShowsFormatImage(m, root, elf)
  {
    hide SegmentAt, FormatSegment, LittleEndian, Field, HeaderCount, ReadByte;
    forall i, a: nat | 0 <= i < HeaderCount(elf) && FormatSegment(elf, i).Some?
      ensures Prescribed(m, root, elf, FormatSegment(elf, i).value, a)
    {
      SameSegment(elf, i);
      assert SegmentFits(elf, SegmentAt(elf, i).value);
      assert InSegment(SegmentAt(elf, i).value, a) ==> ReadByte(m, root, a) == Some(ImageByte(elf, SegmentAt(elf, i).value, a));
    }
  }

  /** The program headers are within reach of a 16-bit product and no loadable segment has contents
      at address 0. */
  ghost predicate OrdinaryProgram(fh: FileHeader, phs: seq<ProgramHeader>) {
    forall i :: 0 <= i < |phs| ==>
      i * fh.phentsize < 65536 && (Loadable(phs[i]).Some? ==> phs[i].vaddr != 0 || phs[i].filesz == 0)
  }

  /** Reading through the page tables of `root` gives, for every loadable program header, its file
      bytes at its address and zeros up to its size in memory. */
  ghost predicate ShowsProgram(m: Memory, root: nat, elf: seq<byte>, phs: seq<ProgramHeader>) {
    forall i, a: nat :: 0 <= i < |phs| && Loadable(phs[i]).Some? ==> Prescribed(m, root, elf, Loadable(phs[i]).value, a)
  }

  /** For every ordinary program, whatever its fields, the loader's image is the program's. */
  lemma ProgramImage(m: Memory, root: nat, elf: seq<byte>, fh: FileHeader, phs: seq<ProgramHeader>)
    requires WellFormed(elf) && ShowsImage(m, root, elf) && Encodes(elf, fh, phs) && OrdinaryProgram(fh, phs)
    ensures ShowsProgram(m, root, elf, phs)
  {
    hide SegmentAt, FormatSegment, LittleEndian, Field, HeaderCount, ReadByte, Encodes, Loadable;
    FileHeaderParsed(elf, fh, phs);
    forall i, a: nat | 0 <= i < |phs| && Loadable(phs[i]).Some? ensures Prescribed(m, root, elf, Loadable(phs[i]).value, a) {
      HeaderEncoded(elf, fh, phs, i);
      SegmentsParsed(elf, fh, phs, i);
      LoadedFields(phs[i]);
      assert SegmentFits(elf, SegmentAt(elf, i).value);
      assert InSegment(SegmentAt(elf, i).value, a) ==> ReadByte(m, root, a) == Some(ImageByte(elf, SegmentAt(elf, i).value, a));
    }
  }

  lemma LoadedFields(h: ProgramHeader)
    ensures Loadable(h).Some? ==> Loadable(h).value.vaddr == h.vaddr && Loadable(h).value.filesz == h.filesz
  {}

  /** What the loader asks of a file, in terms of its program headers: loadable segments lie in the
      file and in user space, and no two share a byte. */
  ghost predicate ProgramFits(elf: seq<byte>, phs: seq<ProgramHeader>) {
    && (forall i :: 0 <= i < |phs| && Loadable(phs[i]).Some? ==> SegmentFits(elf, Loadable(phs[i]).value))
    && (forall i, j, a :: 0 <= i < j < |phs| && Loadable(phs[i]).Some? && Loadable(phs[j]).Some? ==>
          !(InSegment(Loadable(phs[i]).value, a) && InSegment(Loadable(phs[j]).value, a)))
  }

  lemma ProgramWellFormed(elf: seq<byte>, fh: FileHeader, phs: seq<ProgramHeader>)
    requires Encodes(elf, fh, phs) && OrdinaryProgram(fh, phs)
    ensures WellFormed(elf) <==> ProgramFits(elf, phs)
  {
    hide SegmentAt, FormatSegment, LittleEndian, Field, HeaderCount, Encodes, Loadable, InSegment;
    FileHeaderParsed(elf, fh, phs);
    HeadersCounted(elf, fh, phs);
    forall i | 0 <= i < |phs| ensures SegmentAt(elf, i) == Loadable(phs[i]) { SegmentsParsed(elf, fh, phs, i); }
  }

  /** Nothing is mapped yet where the segments go, and their slots belong to the task. */
  ghost predicate Unmapped(m: Memory, s: Frames, roots: seq<nat>, k: nat, elf: seq<byte>) {
    && Target(m, s, roots, k, PagesOf(elf))
    && forall p :: p in PagesOf(elf) ==> Lookup(m, roots[k], PathOf(p)).None?
  }

  /** Maps and fills every loadable segment. On success the image is complete, even where
      segments share a page; any page that could not be mapped fails the load as a whole. */
  method LoadElf(mc: Machine, elf: seq<byte>, root: nat, ghost k: nat) returns (r: LoadResult)
    requires mc.Valid() && k < |mc.roots| && mc.roots[k] == root
    requires HeaderError(elf).None? ==> WellFormed(elf) && Unmapped(mc.mem, mc.frames, mc.roots, k, elf)
    modifies mc`frames, mc`mem
    ensures mc.Valid()
    ensures HeaderError(elf).Some? ==> r == Failed(HeaderError(elf).value) && mc.mem == old(mc.mem) && mc.frames == old(mc.frames)
    ensures HeaderError(elf).None? ==> r == Failed(MemoryMappingFailed) || (r == LoadResult.Entry(Field(elf, 0x18, 8)) && ShowsImage(mc.mem, root, elf))
    ensures r.Entry? && Ordinary(elf) ==> ShowsFormatImage(mc.mem, root, elf)
    ensures r.Entry? ==> forall fh, phs :: Encodes(elf, fh, phs) && OrdinaryProgram(fh, phs) ==>
      r.entry == fh.entry && ShowsProgram(mc.mem, root, elf, phs)
    ensures r.Entry? ==> forall p :: p in PagesOf(elf) ==> WriteAccess(mc.mem, root, PathOf(p))
    ensures HeaderError(elf).None? && 4 * |PagesOf(elf)| <= old(Free(mc.frames)) ==> r.Entry?
  {
    hide Target, Loaded, SegmentAt, LittleEndian, Field, HeaderCount, ImageUpTo, WellFormed, Consistent, Lookup, PathOf, InSegment,
      ShowsImage, ShowsFormatImage, Ordinary, Encodes, OrdinaryProgram, ShowsProgram, WriteAccess, Free, Touched;
    var error := HeaderError(elf);
    if error.Some? { return Failed(error.value); }
    ghost var pages, loaded, img := PagesOf(elf), {}, (_: nat) => 0 as byte;
    NothingLoaded(mc.mem, mc.frames, mc.roots, k, elf, img);
    ghost var budget := Free(mc.frames);
    var success, i := true, 0;
    while i < HeaderCount(elf)
      invariant 0 <= i <= HeaderCount(elf) && Target(mc.mem, mc.frames, mc.roots, k, pages)
      invariant success ==> Loaded(mc.mem, mc.frames, mc.roots, k, pages, loaded, img) && ImageUpTo(elf, i, img)
      invariant success ==> Free(mc.frames) + 4 * |loaded| >= budget
      invariant 4 * |pages| <= budget ==> success
      invariant success ==> forall j, a: nat :: 0 <= j < i && SegmentAt(elf, j).Some? && InSegment(SegmentAt(elf, j).value, a) ==> a / FRAME_SIZE in loaded
    {
      var seg := SegmentAt(elf, i);
      if seg.Some? {
        var g := seg.value;
        SegmentPages(elf, i);
        SegmentIsFit(elf, i, g);
        var mapped, now := MapSegment(mc, root, g, success, k, pages, loaded, img, budget);
        ghost var shown := img;
        success := mapped;
        if g.filesz > 0 && g.vaddr != 0 {
          success, shown := CopySegment(mc, root, elf, g, mapped, k, pages, now, img);
        }
        if success { ImageStep(elf, i, g, img, shown); }
        loaded, img := now, shown;
      } else if success {
        ImageSkip(elf, i, img);
      }
      i := i + 1;
    }
    TargetValid(mc.mem, mc.frames, mc.roots, k, pages);
    if !success { return Failed(MemoryMappingFailed); }
    ImageComplete(mc.mem, mc.frames, mc.roots, k, pages, loaded, img, elf);
    if Ordinary(elf) { FormatImage(mc.mem, root, elf); }
    forall fh, phs | Encodes(elf, fh, phs) && OrdinaryProgram(fh, phs)
      ensures Field(elf, 0x18, 8) == fh.entry && ShowsProgram(mc.mem, root, elf, phs)
    {
      FileHeaderParsed(elf, fh, phs);
      ProgramImage(mc.mem, root, elf, fh, phs);
    }
    AllWritable(mc.mem, mc.frames, mc.roots, k, elf, loaded, img);
    return LoadResult.Entry(Field(elf, 0x18, 8));
  }

  /** Every page a segment touches is loaded, so it can be written. */
  lemma AllWritable(m: Memory, s: Frames, roots: seq<nat>, k: nat, elf: seq<byte>, loaded: set<nat>, img: nat -> byte)
    requires Loaded(m, s, roots, k, PagesOf(elf), loaded, img)
    requires forall j, a: nat :: 0 <= j < HeaderCount(elf) && SegmentAt(elf, j).Some? && InSegment(SegmentAt(elf, j).value, a) ==> a / FRAME_SIZE in loaded
    ensures forall p :: p in PagesOf(elf) ==> WriteAccess(m, roots[k], PathOf(p))
  {
    hide SegmentAt, LittleEndian, Field, HeaderCount, Lookup, WriteAccess, PathOf, InSegment;
    forall p | p in PagesOf(elf) ensures WriteAccess(m, roots[k], PathOf(p)) {
      assert Touched(elf, p);
      LoadedPage(m, s, roots, k, PagesOf(elf), loaded, img, p);
    }
  }

  lemma SegmentIsFit(elf: seq<byte>, i: nat, g: Segment)
    requires WellFormed(elf) && i < HeaderCount(elf) && SegmentAt(elf, i) == Some(g)
    ensures SegmentFits(elf, g) && g.memsz > 0
  {}

  lemma NothingLoaded(m: Memory, s: Frames, roots: seq<nat>, k: nat, elf: seq<byte>, img: nat -> byte)
    requires WellFormed(elf) && Unmapped(m, s, roots, k, elf) && forall a: nat :: img(a) == 0
    ensures Loaded(m, s, roots, k, PagesOf(elf), {}, img) && ImageUpTo(elf, 0, img)
  {}

  lemma ImageComplete(m: Memory, s: Frames, roots: seq<nat>, k: nat, pages: set<nat>, loaded: set<nat>, img: nat -> byte, elf: seq<byte>)
    requires WellFormed(elf) && Loaded(m, s, roots, k, pages, loaded, img) && ImageUpTo(elf, HeaderCount(elf), img)
    requires forall j, a: nat :: 0 <= j < HeaderCount(elf) && SegmentAt(elf, j).Some? && InSegment(SegmentAt(elf, j).value, a) ==> a / FRAME_SIZE in loaded
    ensures ShowsImage(m, roots[k], elf)
  {
    hide SegmentAt, LittleEndian, Field, HeaderCount, Lookup;
    forall i, a: nat | 0 <= i < HeaderCount(elf) && SegmentAt(elf, i).Some? && InSegment(SegmentAt(elf, i).value, a)
      ensures ReadByte(m, roots[k], a) == Some(ImageByte(elf, SegmentAt(elf, i).value, a))
    {
      ImageReadable(m, s, roots, k, pages, loaded, img, a);
    }
  }
}
