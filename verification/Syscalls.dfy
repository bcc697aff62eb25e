/** The memory system calls: `brk`, anonymous `mmap` and the check of user buffers
    (src/core/syscall.rs, src/mm/memory.rs). */
module Syscalls {
  import opened Common
  import opened Bits
  import opened FrameState
  import opened PageTables
  import opened Paging
  import opened Lookups
  import opened World
  import opened AddressSpaces
  import opened Budgets
  import opened Machines

  const HEAP_START := 0x2_0000_0000
  const MMAP_BASE := 0x4000_0000_0000
  const BRK_LIMIT := 0x7000_0000_0000
  const USER_LIMIT := 0x7FFF_FFFF_FFFF
  /** `(length + 0xFFF) & !0xFFF` on 64-bit words. */
  function RoundUp(length: nat): (r: nat)
    ensures r % FRAME_SIZE == 0
  {
    (length + 0xFFF) % WORD / FRAME_SIZE * FRAME_SIZE
  }

  /** Rounding covers the requested length exactly while it does not wrap around. */
  lemma RoundUpCoversIff(length: nat)
    requires length < WORD
    ensures RoundUp(length) >= length <==> length <= WORD - FRAME_SIZE
    ensures length <= WORD - FRAME_SIZE ==> RoundUp(length) < length + FRAME_SIZE
  {
    assert WORD % FRAME_SIZE == 0;
    if length + 0xFFF >= WORD {
      assert (length + 0xFFF) % WORD == length + 0xFFF - WORD;
    }
  }

  lemma RoundsToPages(x: nat)
    requires x < BRK_LIMIT
    ensures RoundUp(x) == CeilDiv(x, FRAME_SIZE) * FRAME_SIZE && RoundUp(x) / FRAME_SIZE == CeilDiv(x, FRAME_SIZE)
  {}

  /** Every page of `lo .. hi` is among the task's own and mapped. */
  ghost predicate MappedPages(m: Memory, root: nat, own: set<nat>, lo: nat, hi: nat) {
    forall p :: lo <= p < hi ==> p in own && Lookup(m, root, PathOf(p)).Some?
  }

  /** A mapped page keeps its translation, its contents and its access; a page that becomes mapped
      can be written. */
  ghost predicate PageKept(m: Memory, n: Memory, root: nat, p: nat) {
    var (was, now) := (Lookup(m, root, PathOf(p)), Lookup(n, root, PathOf(p)));
    && (was.Some? ==> now == was && SameFrame(m, n, was.value.frame))
    && (WriteAccess(m, root, PathOf(p)) ==> WriteAccess(n, root, PathOf(p)))
    && (was.None? && now.Some? ==> WriteAccess(n, root, PathOf(p)))
  }

  ghost predicate KeepsPages(m: Memory, n: Memory, root: nat, own: set<nat>) {
    forall p :: p in own ==> PageKept(m, n, root, p)
  }

  lemma KeepsOn(m: Memory, n: Memory, o: Memory, root: nat, own: set<nat>)
    requires KeepsPages(m, n, root, own) && KeepsPages(n, o, root, own)
    ensures KeepsPages(m, o, root, own)
  {
    hide Lookup, PathOf, WriteAccess;
    forall p | p in own ensures PageKept(m, o, root, p) {
      assert PageKept(m, n, root, p) && PageKept(n, o, root, p);
    }
  }

  lemma KeepsMapped(m: Memory, n: Memory, root: nat, own: set<nat>, lo: nat, hi: nat)
    requires KeepsPages(m, n, root, own) && MappedPages(m, root, own, lo, hi)
    ensures MappedPages(n, root, own, lo, hi)
  {
    hide Lookup, PathOf, WriteAccess;
    forall p | lo <= p < hi ensures p in own && Lookup(n, root, PathOf(p)).Some? {
      assert p in own && PageKept(m, n, root, p);
    }
  }

  lemma KeepsItself(m: Memory, root: nat, own: set<nat>)
    ensures KeepsPages(m, m, root, own)
  {
    hide Lookup, PathOf, WriteAccess;
  }

  lemma MapKeepsPages(m: Memory, s: Frames, n: Memory, t: Frames, roots: seq<nat>, k: nat, own: set<nat>, p: nat, r: MapStatus, leak: Option<nat>)
    requires Target(m, s, roots, k, own) && p in own && MapSpec(m, s, n, t, roots, k, PathOf(p), r, leak)
    requires r == InvalidMapping ==> Lookup(n, roots[k], PathOf(p)).None?
    ensures KeepsPages(m, n, roots[k], own)
    ensures r == Mapped ==> Lookup(n, roots[k], PathOf(p)).Some?
  {
    hide RefsFrom, EntryRefs, TableFrom, EntryTable, Walk, Sub, Total, Refs, PathOf, Lookup, Inv, WriteAccess, PageKept, MapFrame;
    MapSpecKeeps(m, s, n, t, roots, k, PathOf(p), r, leak);
    forall q | q in own ensures PageKept(m, n, roots[k], q) {
      if q != p { OtherKept(m, s, n, roots, k, own, p, q); } else { SelfKept(m, s, n, t, roots, k, p, r, leak); }
    }
  }

  lemma OtherKept(m: Memory, s: Frames, n: Memory, roots: seq<nat>, k: nat, own: set<nat>, p: nat, q: nat)
    requires Target(m, s, roots, k, own) && p in own && q in own && p != q && MapFrame(m, s, n, roots[k], PathOf(p))
    ensures PageKept(m, n, roots[k], q)
  {
    hide RefsFrom, EntryRefs, TableFrom, EntryTable, Walk, Sub, Total, Refs, PathOf, Lookup, Inv, WriteAccess;
    PathsDiffer(p, q);
    assert Enters(m, roots[k], PathOf(q));
    if Lookup(m, roots[k], PathOf(q)).Some? {
      PageIsPlain(m, s, roots, k, PathOf(q));
      var x := Lookup(m, roots[k], PathOf(q)).value.frame;
      assert !Structural(m, roots[k], x);
      assert SameFrame(m, n, x);
    }
  }

  lemma SelfKept(m: Memory, s: Frames, n: Memory, t: Frames, roots: seq<nat>, k: nat, p: nat, r: MapStatus, leak: Option<nat>)
    requires k < |roots| && p < USER_PAGES && MapSpec(m, s, n, t, roots, k, PathOf(p), r, leak) && MapFrame(m, s, n, roots[k], PathOf(p))
    requires r == InvalidMapping ==> Lookup(n, roots[k], PathOf(p)).None?
    ensures PageKept(m, n, roots[k], p)
  {
    hide RefsFrom, EntryRefs, TableFrom, EntryTable, Walk, Sub, Total, Refs, PathOf, Lookup, Inv, WriteAccess, Consistent, Enters;
  }

  /** The mapping loop of both calls: stops at the first page that cannot be mapped. */
  method MapPages(mc: Machine, root: nat, start: nat, count: nat, ghost k: nat, ghost own: set<nat>) returns (ok: bool)
    requires Target(mc.mem, mc.frames, mc.roots, k, own) && mc.roots[k] == root
    requires forall p :: start / FRAME_SIZE <= p < start / FRAME_SIZE + count ==> p in own
    modifies mc`frames, mc`mem
    ensures Target(mc.mem, mc.frames, mc.roots, k, own) && KeepsPages(old(mc.mem), mc.mem, root, own)
    ensures ok ==> MappedPages(mc.mem, root, own, start / FRAME_SIZE, start / FRAME_SIZE + count)
    ensures 4 * count <= old(Free(mc.frames)) ==> ok && Free(mc.frames) >= old(Free(mc.frames)) - 4 * count
  {
    hide Free, Cost, TablesGrow, Target, MapSpec, PathOf, Consistent, Enters, Lookup, Walk, Inv, Sub, Total, IsPath, IsIndices, Good, KeepsPages;
    KeepsItself(mc.mem, root, own);
    var i := 0;
    while i < count
      invariant 0 <= i <= count && Target(mc.mem, mc.frames, mc.roots, k, own) && KeepsPages(old(mc.mem), mc.mem, root, own)
      invariant MappedPages(mc.mem, root, own, start / FRAME_SIZE, start / FRAME_SIZE + i)
      invariant Free(mc.frames) >= old(Free(mc.frames)) - 4 * i
    {
      ghost var m, s := mc.mem, mc.frames;
      CostBound(m, root, PathOf((start + i * FRAME_SIZE) / FRAME_SIZE));
      var page := (start + i * FRAME_SIZE) / FRAME_SIZE;
      assert page == start / FRAME_SIZE + i;
      TargetPage(m, s, mc.roots, k, own, page);
      var status, leak := mc.AllocateAndMapUserPage(root, page, k);
      TargetKept(m, s, mc.mem, mc.frames, mc.roots, k, own, page, status, leak);
      MapKeepsPages(m, s, mc.mem, mc.frames, mc.roots, k, own, page, status, leak);
      KeepsOn(old(mc.mem), m, mc.mem, root, own);
      KeepsMapped(m, mc.mem, root, own, start / FRAME_SIZE, start / FRAME_SIZE + i);
      if status != Mapped { return false; }
      i := i + 1;
    }
    return true;
  }

  // ------------------------------------------------------------------
  // The layout of a task's heap and anonymous mappings
  // ------------------------------------------------------------------

  datatype Range = Range(start: nat, size: nat)

  /** The ranges follow each other from `lo` to `hi` without gap or overlap, on page boundaries. */
  ghost predicate Tiles(ranges: seq<Range>, lo: nat, hi: nat)
    decreases |ranges|
  {
    if ranges == [] then lo == hi
    else
      var last := ranges[|ranges| - 1];
      && last.start + last.size == hi && last.size % FRAME_SIZE == 0 && last.start % FRAME_SIZE == 0
      && Tiles(ranges[..|ranges| - 1], lo, last.start)
  }

  lemma {:induction false} TilesWithin(ranges: seq<Range>, lo: nat, hi: nat, i: nat)
    requires Tiles(ranges, lo, hi) && i < |ranges|
    ensures lo <= ranges[i].start && ranges[i].start + ranges[i].size <= hi && ranges[i].start % FRAME_SIZE == 0
    decreases |ranges|
  {
    var n := |ranges| - 1;
    if i < n {
      TilesWithin(ranges[..n], lo, ranges[n].start, i);
    } else if n > 0 {
      TilesWithin(ranges[..n], lo, ranges[n].start, n - 1);
    }
  }

  /** Kernel-chosen ranges are pairwise disjoint. */
  lemma {:induction false} TilesDisjoint(ranges: seq<Range>, lo: nat, hi: nat, i: nat, j: nat)
    requires Tiles(ranges, lo, hi) && i < j < |ranges|
    ensures ranges[i].start + ranges[i].size <= ranges[j].start
    decreases |ranges|
  {
    var n := |ranges| - 1;
    if j < n {
      TilesDisjoint(ranges[..n], lo, ranges[n].start, i, j);
    } else {
      TilesWithin(ranges[..n], lo, ranges[n].start, i);
    }
  }

  lemma {:induction false} TilesCover(ranges: seq<Range>, lo: nat, hi: nat, a: nat)
    requires Tiles(ranges, lo, hi)
    ensures lo <= a < hi <==> exists i :: 0 <= i < |ranges| && ranges[i].start <= a < ranges[i].start + ranges[i].size
    decreases |ranges|
  {
    if ranges != [] {
      var n := |ranges| - 1;
      TilesCover(ranges[..n], lo, ranges[n].start, a);
      TilesWithin(ranges, lo, hi, n);
      if i :| 0 <= i < n && ranges[..n][i].start <= a < ranges[..n][i].start + ranges[..n][i].size {
        assert ranges[i].start <= a < ranges[i].start + ranges[i].size;
      }
      if i :| 0 <= i < n && ranges[i].start <= a < ranges[i].start + ranges[i].size {
        assert ranges[..n][i] == ranges[i];
      }
    }
  }

  /** Every mapped page can be written, but for the `sealed` ones. */
  ghost predicate Writables(m: Memory, root: nat, own: set<nat>, sealed: set<nat>) {
    forall p :: p in own && p !in sealed && Lookup(m, root, PathOf(p)).Some? ==> WriteAccess(m, root, PathOf(p))
  }

  lemma KeepsWritable(m: Memory, n: Memory, root: nat, own: set<nat>, sealed: set<nat>)
    requires KeepsPages(m, n, root, own) && Writables(m, root, own, sealed)
    ensures Writables(n, root, own, sealed)
  {
    hide Lookup, PathOf, WriteAccess;
    forall p | p in own && p !in sealed && Lookup(n, root, PathOf(p)).Some? ensures WriteAccess(n, root, PathOf(p)) {
      assert PageKept(m, n, root, p);
    }
  }

  /** What both calls keep. */
  lemma KeepsLayout(m: Memory, n: Memory, root: nat, own: set<nat>, sealed: set<nat>, a: nat, b: nat, c: nat, d: nat)
    requires KeepsPages(m, n, root, own) && Writables(m, root, own, sealed) && MappedPages(m, root, own, a, b) && MappedPages(m, root, own, c, d)
    ensures Writables(n, root, own, sealed) && MappedPages(n, root, own, a, b) && MappedPages(n, root, own, c, d)
  {
    KeepsWritable(m, n, root, own, sealed);
    KeepsMapped(m, n, root, own, a, b);
    KeepsMapped(m, n, root, own, c, d);
  }

  /** The memory-layout fields of a task and the machine its address space lives on. */
  class UserMemory {
    const mc: Machine
    const root: nat
    const heapStart: nat
    var programBreak: nat
    var mmapBase: nat
    ghost const k: nat
    /** Pages whose PML4 slots are not shared with the kernel. */
    ghost const own: set<nat>
    /** Pages that were mapped from the start and could not be written. */
    ghost const sealed: set<nat>
    /** What `mmap` handed out on its own choice of address, oldest first. */
    ghost var ranges: seq<Range>

    ghost predicate Valid()
      reads this, mc
    {
      && Target(mc.mem, mc.frames, mc.roots, k, own) && mc.roots[k] == root
      && heapStart % FRAME_SIZE == 0 && 0 < heapStart <= programBreak < BRK_LIMIT
      && MappedPages(mc.mem, root, own, heapStart / FRAME_SIZE, CeilDiv(programBreak, FRAME_SIZE))
      && mmapBase % FRAME_SIZE == 0 && MMAP_BASE <= mmapBase <= USER_LIMIT && Tiles(ranges, MMAP_BASE, mmapBase)
      && MappedPages(mc.mem, root, own, MMAP_BASE / FRAME_SIZE, mmapBase / FRAME_SIZE)
      && Writables(mc.mem, root, own, sealed)
    }

    constructor (mc: Machine, root: nat, ghost k: nat, ghost own: set<nat>)
      requires Target(mc.mem, mc.frames, mc.roots, k, own) && mc.roots[k] == root
      ensures Valid() && this.mc == mc && this.root == root && this.k == k && this.own == own && ranges == []
      ensures programBreak == heapStart == 0x2_0000_0000 && mmapBase == 0x4000_0000_0000
      ensures forall p :: p in sealed ==> p in own && Lookup(mc.mem, root, PathOf(p)).Some? && !WriteAccess(mc.mem, root, PathOf(p))
    {
      this.mc, this.root, this.k, this.own, ranges := mc, root, k, own, [];
      sealed := set p | p in own && Lookup(mc.mem, root, PathOf(p)).Some? && !WriteAccess(mc.mem, root, PathOf(p));
      heapStart, programBreak, mmapBase := HEAP_START, HEAP_START, MMAP_BASE;
    }

    /** Moves the end of the heap. Refused and failed requests leave it where it was. */
    method Brk(requested: nat) returns (r: nat)
      requires Valid()
      requires heapStart <= requested < BRK_LIMIT ==>
        forall p :: CeilDiv(programBreak, FRAME_SIZE) <= p < CeilDiv(requested, FRAME_SIZE) ==> p in own
      modifies this`programBreak, mc`frames, mc`mem
      ensures Valid() && r == programBreak
      ensures programBreak == requested || programBreak == old(programBreak)
      ensures requested < heapStart || requested >= BRK_LIMIT ==> programBreak == old(programBreak) && mc.mem == old(mc.mem)
      ensures heapStart <= requested < BRK_LIMIT && CeilDiv(requested, FRAME_SIZE) <= CeilDiv(old(programBreak), FRAME_SIZE) ==>
        r == requested && mc.mem == old(mc.mem)
      ensures heapStart <= requested < BRK_LIMIT && 4 * CeilDiv(requested, FRAME_SIZE) <= old(Free(mc.frames)) ==> r == requested
      ensures KeepsPages(old(mc.mem), mc.mem, root, own)
    {
      hide Target, Lookup, PathOf, Tiles, RoundUp, CeilDiv, Free, KeepsPages, Writables;
      KeepsItself(mc.mem, root, own);
      if requested == 0 { return programBreak; }
      if requested < heapStart || requested >= BRK_LIMIT { return programBreak; }
      var currentEnd, newEnd := RoundUp(programBreak), RoundUp(requested);
      RoundsToPages(programBreak);
      RoundsToPages(requested);
      if newEnd > currentEnd {
        ghost var m := mc.mem;
        var success := MapPages(mc, root, currentEnd, (newEnd - currentEnd) / FRAME_SIZE, k, own);
        KeepsLayout(m, mc.mem, root, own, sealed, heapStart / FRAME_SIZE, CeilDiv(programBreak, FRAME_SIZE), MMAP_BASE / FRAME_SIZE, mmapBase / FRAME_SIZE);
        if !success { return programBreak; }
      }
      programBreak := requested;
      return requested;
    }

    /** Anonymous mappings. With no address given the range starts at the cursor, which moves
        past it only on success. */
    method Mmap(addr: nat, length: nat, flags: nat) returns (r: Option<nat>)
      requires Valid() && length < WORD
      requires var start := if addr != 0 then addr else mmapBase;
        start + RoundUp(length) <= USER_LIMIT ==>
          forall p :: start / FRAME_SIZE <= p < start / FRAME_SIZE + RoundUp(length) / FRAME_SIZE ==> p in own
      modifies this`mmapBase, this`ranges, mc`frames, mc`mem
      ensures Valid() && KeepsPages(old(mc.mem), mc.mem, root, own)
      ensures r.None? || addr != 0 ==> mmapBase == old(mmapBase) && ranges == old(ranges)
      ensures !TestBit(flags, 5) ==> r.None? && mc.mem == old(mc.mem)
      ensures r.Some? ==> 0x1000 <= r.value && r.value + RoundUp(length) <= USER_LIMIT
      ensures r.Some? && addr == 0 ==> r.value == old(mmapBase) && ranges == old(ranges) + [Range(r.value, RoundUp(length))]
      ensures r.Some? && addr != 0 ==> r.value == addr
      ensures var start := if addr != 0 then addr else old(mmapBase);
        TestBit(flags, 5) && 0x1000 <= start && start + RoundUp(length) <= USER_LIMIT && 4 * (RoundUp(length) / FRAME_SIZE) <= old(Free(mc.frames)) ==>
          r.Some? && Free(mc.frames) >= old(Free(mc.frames)) - 4 * (RoundUp(length) / FRAME_SIZE)
      ensures r.Some? ==> MappedPages(mc.mem, root, own, r.value / FRAME_SIZE, r.value / FRAME_SIZE + RoundUp(length) / FRAME_SIZE)
    {
      hide Target, Lookup, PathOf, TestBit, Free, KeepsPages, Writables;
      KeepsItself(mc.mem, root, own);
      if !TestBit(flags, 5) { return None; }
      var size := RoundUp(length);
      var start := if addr != 0 then addr else mmapBase;
      if start < 0x1000 || start + size > USER_LIMIT { return None; }
      ghost var m := mc.mem;
      var ok := MapPages(mc, root, start, size / FRAME_SIZE, k, own);
      KeepsLayout(m, mc.mem, root, own, sealed, heapStart / FRAME_SIZE, CeilDiv(programBreak, FRAME_SIZE), MMAP_BASE / FRAME_SIZE, mmapBase / FRAME_SIZE);
      if !ok { return None; }
      if addr == 0 {
        ghost var handed := Range(mmapBase, size);
        mmapBase := mmapBase + size;
        assert (ranges + [handed])[..|ranges|] == ranges;
        ranges := ranges + [handed];
      }
      return Some(start);
    }
  }

  /** What the layout invariant means for the ranges `mmap` chose itself. */
  lemma RangesSeparate(u: UserMemory, i: nat, j: nat)
    requires u.Valid() && i < |u.ranges| && j < |u.ranges| && i != j
    ensures u.ranges[i].start % FRAME_SIZE == 0
    ensures MappedPages(u.mc.mem, u.root, u.own, u.ranges[i].start / FRAME_SIZE, (u.ranges[i].start + u.ranges[i].size) / FRAME_SIZE)
    ensures u.ranges[i].start + u.ranges[i].size <= u.ranges[j].start || u.ranges[j].start + u.ranges[j].size <= u.ranges[i].start
  {
    hide Target, Lookup, PathOf;
    TilesWithin(u.ranges, MMAP_BASE, u.mmapBase, i);
    TilesDisjoint(u.ranges, MMAP_BASE, u.mmapBase, if i < j then i else j, if i < j then j else i);
  }

  ghost predicate InHeap(u: UserMemory, a: nat)
    reads u
  {
    u.heapStart <= a < u.programBreak
  }

  ghost predicate InRanges(u: UserMemory, a: nat)
    reads u
  {
    exists i :: 0 <= i < |u.ranges| && u.ranges[i].start <= a < u.ranges[i].start + u.ranges[i].size
  }

  /** The heap may grow past the first mapping: the two stay apart exactly while the break is
      at most `MMAP_BASE`, or nothing was handed out. */
  lemma HeapApartIff(u: UserMemory)
    requires u.Valid() && u.heapStart <= MMAP_BASE
    ensures (forall a: nat :: !(InHeap(u, a) && InRanges(u, a))) <==> u.programBreak <= MMAP_BASE || u.mmapBase == MMAP_BASE
  {
    hide Target, Lookup, PathOf, Tiles;
    forall a: nat ensures InRanges(u, a) <==> MMAP_BASE <= a < u.mmapBase {
      TilesCover(u.ranges, MMAP_BASE, u.mmapBase, a);
    }
    if u.programBreak > MMAP_BASE && u.mmapBase > MMAP_BASE {
      assert InHeap(u, MMAP_BASE) && InRanges(u, MMAP_BASE);
    }
  }

  /** Such a state is reached: map one page, then grow the heap past it. With frames enough for
      the pages, the byte at `MMAP_BASE` belongs to both. */
  method GrowOverMapping(u: UserMemory)
    requires u.Valid() && u.ranges == [] && u.programBreak <= MMAP_BASE
    requires forall p :: u.heapStart / FRAME_SIZE <= p <= MMAP_BASE / FRAME_SIZE ==> p in u.own
    requires 4 * (MMAP_BASE / FRAME_SIZE + 2) <= Free(u.mc.frames)
    modifies u`programBreak, u`mmapBase, u`ranges, u.mc`frames, u.mc`mem
    ensures u.Valid() && InHeap(u, MMAP_BASE) && InRanges(u, MMAP_BASE)
  {
    hide Target, Lookup, PathOf, Free, Tiles, TestBit, MappedPages, KeepsPages;
    assert u.mmapBase == MMAP_BASE by { NoRanges(MMAP_BASE, u.mmapBase); }
    AnonymousFlag();
    var range := u.Mmap(0, FRAME_SIZE, 0x20);
    var end := u.Brk(MMAP_BASE + 1);
    assert u.ranges[0] == Range(MMAP_BASE, FRAME_SIZE);
  }

  lemma NoRanges(lo: nat, hi: nat)
    requires Tiles([], lo, hi)
    ensures lo == hi
  {}

  lemma AnonymousFlag()
    ensures TestBit(0x20, 5)
  {
    assert TestBit(1, 0) && TestBit(2, 1) && TestBit(4, 2) && TestBit(8, 3) && TestBit(16, 4);
  }

  // ------------------------------------------------------------------
  // Checking buffers passed by user code
  // ------------------------------------------------------------------

  /** What `is_user_page_mapped` accepts: present down to the page, and the deciding entry is
      user-accessible. */
  predicate UserMapped(m: Memory, f: nat, path: seq<nat>)
    requires IsIndices(path)
    decreases |path|
  {
    path != [] &&
    var e := Entries(m, f)[path[0]];
    e.present && if Decides(e, path) then e.user else UserMapped(m, e.frame, path[1..])
  }

  /** The walk stops at a level-1 entry or at a huge page of level 2 or 3. */
  predicate Decides(e: Entry, path: seq<nat>) {
    |path| == 1 || (|path| < 4 && e.huge)
  }

  /** What the processor lets user code reach: every entry on the way is present and
      user-accessible, and no PML4 entry is huge. */
  ghost predicate UserAccess(m: Memory, f: nat, path: seq<nat>)
    requires IsIndices(path)
    decreases |path|
  {
    path != [] &&
    var e := Entries(m, f)[path[0]];
    e.present && e.user && (Decides(e, path) || (!(|path| == 4 && e.huge) && UserAccess(m, e.frame, path[1..])))
  }

  /** Some present entry above the deciding one keeps user code out. */
  ghost predicate Shielded(m: Memory, f: nat, path: seq<nat>)
    requires IsIndices(path)
    decreases |path|
  {
    path != [] &&
    var e := Entries(m, f)[path[0]];
    e.present && !Decides(e, path) && (!e.user || (|path| == 4 && e.huge) || Shielded(m, e.frame, path[1..]))
  }

  /** On any tables at all: the kernel accepts what user code can reach, and besides only pages
      behind an entry that shields them. */
  lemma {:induction false} AcceptedIff(m: Memory, f: nat, path: seq<nat>)
    requires IsIndices(path)
    ensures UserAccess(m, f, path) <==> UserMapped(m, f, path) && !Shielded(m, f, path)
    decreases |path|
  {
    if path != [] { AcceptedIff(m, Entries(m, f)[path[0]].frame, path[1..]); }
  }

  /** Tables the two disagree on: a supervisor PML4 entry over user-accessible lower levels. */
  lemma ShieldedTables(m: Memory)
    requires forall f | 0 <= f < 4 :: Entries(m, f)[0] == Entry(f + 1, true, true, f > 0, false)
    ensures UserMapped(m, 0, [0, 0, 0, 0]) && Shielded(m, 0, [0, 0, 0, 0]) && !UserAccess(m, 0, [0, 0, 0, 0])
  {
    var p: seq<nat> := [0, 0, 0, 0];
    assert p[1..] == [0, 0, 0] && p[1..][1..] == [0, 0] && p[1..][1..][1..] == [0];
    assert UserMapped(m, 3, [0]) && UserMapped(m, 2, [0, 0]) && UserMapped(m, 1, [0, 0, 0]);
  }

  /** In a task's own slots nothing shields a page, so the kernel's test is exact there. */
  lemma {:induction false} NothingShields(m: Memory, s: Frames, f: nat, path: seq<nat>)
    requires IsPath(path) && Sub(m, s, f, |path|) && Enters(m, f, path)
    ensures !Shielded(m, f, path)
    decreases |path|
  {
    hide RefsFrom, EntryRefs, TableFrom, EntryTable, Refs;
    var e := Entries(m, f)[path[0]];
    if |path| > 1 && e.present {
      Descend(m, s, f, |path|, path[0], e.frame);
      NothingShields(m, s, e.frame, path[1..]);
    }
  }

  /** Every page of an address space that translates is accepted, and only those in its own slots. */
  lemma {:induction false} MappedIsAccepted(m: Memory, s: Frames, f: nat, path: seq<nat>)
    requires IsPath(path) && Sub(m, s, f, |path|) && Enters(m, f, path)
    ensures UserMapped(m, f, path) <==> Lookup(m, f, path).Some?
    decreases |path|
  {
    hide RefsFrom, EntryRefs, TableFrom, EntryTable, Refs;
    var e := Entries(m, f)[path[0]];
    if |path| > 1 && e.present {
      Descend(m, s, f, |path|, path[0], e.frame);
      MappedIsAccepted(m, s, e.frame, path[1..]);
    }
  }

  /** The kernel takes byte `a` for accessible. */
  ghost predicate Accepted(m: Memory, cr3: nat, a: nat) {
    UserMapped(m, cr3, PathOf(a / FRAME_SIZE))
  }

  /** User code can access byte `a`. */
  ghost predicate Reachable(m: Memory, cr3: nat, a: nat) {
    UserAccess(m, cr3, PathOf(a / FRAME_SIZE))
  }

  /** No entry above byte `a` shields it. */
  ghost predicate Open(m: Memory, cr3: nat, a: nat) {
    !Shielded(m, cr3, PathOf(a / FRAME_SIZE))
  }

  /** The buffer is one the kernel looks at: not null, not absurdly long, below the user limit. */
  predicate Plausible(ptr: nat, len: nat) {
    ptr != 0 && len < WORD / 2 && (len > 0 ==> ptr + len <= USER_LIMIT)
  }

  /** Accepts exactly the plausible buffers all of whose bytes the kernel takes for accessible;
      where nothing is shielded these are exactly the buffers user code can access. */
  method IsValidUserMemory(m: Memory, cr3: nat, ptr: nat, len: nat) returns (r: bool)
    requires ptr < WORD && len < WORD
    ensures r <==> Plausible(ptr, len) && forall a :: ptr <= a < ptr + len ==> Accepted(m, cr3, a)
    ensures (forall a :: ptr <= a < ptr + len ==> Open(m, cr3, a)) ==>
      (r <==> Plausible(ptr, len) && forall a :: ptr <= a < ptr + len ==> Reachable(m, cr3, a))
  {
    hide PathOf, UserMapped, UserAccess, Shielded, Lookup;
    forall a: nat ensures Reachable(m, cr3, a) <==> Accepted(m, cr3, a) && Open(m, cr3, a) {
      AcceptedIff(m, cr3, PathOf(a / FRAME_SIZE));
    }
    if ptr == 0 || len > WORD / 2 - 1 { return false; }
    if len == 0 { return true; }
    var end := Min(ptr + len, WORD - 1);
    if end > USER_LIMIT { return false; }
    var current, last := ptr / FRAME_SIZE * FRAME_SIZE, (end - 1) / FRAME_SIZE * FRAME_SIZE;
    while current <= last
      invariant current % FRAME_SIZE == 0 && ptr / FRAME_SIZE * FRAME_SIZE <= current <= last + FRAME_SIZE
      invariant forall a :: ptr <= a < ptr + len && a < current ==> Accepted(m, cr3, a)
    {
      if !UserMapped(m, cr3, PathOf(current / FRAME_SIZE)) {
        assert !Accepted(m, cr3, if current < ptr then ptr else current);
        return false;
      }
      forall a | ptr <= a < ptr + len && a < current + FRAME_SIZE ensures Accepted(m, cr3, a) {
        if current <= a { assert a / FRAME_SIZE == current / FRAME_SIZE; }
      }
      current := current + FRAME_SIZE;
    }
    return true;
  }

  /** In a consistent world, on pages in a task's own slots, the kernel's test is what the
      processor enforces and what translation says. */
  lemma OwnPagesExact(m: Memory, s: Frames, roots: seq<nat>, k: nat, a: nat)
    requires Consistent(m, s, roots) && k < |roots| && a / FRAME_SIZE < USER_PAGES && Enters(m, roots[k], PathOf(a / FRAME_SIZE))
    ensures Open(m, roots[k], a)
    ensures Accepted(m, roots[k], a) <==> Reachable(m, roots[k], a)
    ensures Accepted(m, roots[k], a) <==> Lookup(m, roots[k], PathOf(a / FRAME_SIZE)).Some?
  {
    hide PathOf, Lookup, UserMapped, UserAccess, Shielded, RefsFrom, EntryRefs, TableFrom, EntryTable, Refs, Sub, Total;
    var path := PathOf(a / FRAME_SIZE);
    assert Sub(m, s, roots[k], 4);
    NothingShields(m, s, roots[k], path);
    MappedIsAccepted(m, s, roots[k], path);
    AcceptedIff(m, roots[k], path);
  }

  /** Memory handed out by the kernel is memory the kernel accepts back: any part of the heap
      or of a chosen mapping passes the check while the task's tables are active. Unless the task
      started out with the page mapped read-only, it can also be written. */
  lemma OwnMemoryAccepted(u: UserMemory, a: nat)
    requires u.Valid() && (InHeap(u, a) || InRanges(u, a))
    ensures Accepted(u.mc.mem, u.root, a) && Reachable(u.mc.mem, u.root, a)
    ensures a / FRAME_SIZE !in u.sealed ==> WriteAccess(u.mc.mem, u.root, PathOf(a / FRAME_SIZE))
  {
    hide Tiles, PathOf, Lookup, Accepted, Reachable, Open, RefsFrom, EntryRefs, TableFrom, EntryTable, Refs, Sub, Total, WriteAccess;
    if InRanges(u, a) {
      TilesCover(u.ranges, MMAP_BASE, u.mmapBase, a);
      assert a / FRAME_SIZE < u.mmapBase / FRAME_SIZE;
    } else {
      assert a / FRAME_SIZE < CeilDiv(u.programBreak, FRAME_SIZE);
    }
    var p := a / FRAME_SIZE;
    TargetPage(u.mc.mem, u.mc.frames, u.mc.roots, u.k, u.own, p);
    OwnPagesExact(u.mc.mem, u.mc.frames, u.mc.roots, u.k, a);
  }

  /** So a whole buffer inside the heap or one chosen mapping is accepted, whatever its length. */
  method OwnBufferAccepted(u: UserMemory, ptr: nat, len: nat) returns (r: bool)
    requires u.Valid() && len > 0
    requires (forall a :: ptr <= a < ptr + len ==> InHeap(u, a)) || (forall a :: ptr <= a < ptr + len ==> InRanges(u, a))
    ensures r
  {
    hide Accepted, Reachable, WriteAccess, PathOf, Lookup, Target, MappedPages, Writables;
    assert InHeap(u, ptr) || InRanges(u, ptr);
    assert InHeap(u, ptr + len - 1) || InRanges(u, ptr + len - 1);
    RangeBounds(u, ptr);
    RangeBounds(u, ptr + len - 1);
    forall a | ptr <= a < ptr + len ensures Accepted(u.mc.mem, u.root, a) { OwnMemoryAccepted(u, a); }
    r := IsValidUserMemory(u.mc.mem, u.root, ptr, len);
  }

  lemma RangeBounds(u: UserMemory, a: nat)
    requires u.Valid() && (InHeap(u, a) || InRanges(u, a))
    ensures 0 < a < USER_LIMIT
  {
    hide Accepted, Reachable, WriteAccess, PathOf, Lookup, Target, MappedPages, Writables;
    TilesCover(u.ranges, MMAP_BASE, u.mmapBase, a);
  }
}
