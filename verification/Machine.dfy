/** The memory-management entry points of src/mm/memory.rs on one machine state: the frame
    allocator, physical memory, the active page-table root and the live address spaces. */
module Machines {
  import opened Common
  import opened FrameState
  import opened PageTables
  import opened Paging
  import opened Lookups
  import opened World
  import opened Teardown
  import opened AddressSpaces
  import opened Budgets

  datatype MapStatus = Mapped | OutOfFrames | InvalidMapping

  /** The entry a freshly mapped user page gets. */
  function UserLeaf(d: nat): Entry {
    Entry(d, true, true, true, false)
  }

  function ZeroPage(): Content {
    Data(Zeros(FRAME_SIZE))
  }

  /** What the lower half of a new PML4 takes over from the active one: kernel entries only. */
  function KernelSide(e: Entry): Entry {
    if e != UNUSED && !e.user then e else UNUSED
  }

  /** `copy` holds the upper half of `active` and its kernel-side lower half. */
  ghost predicate IsolatedCopy(active: seq<Entry>, copy: seq<Entry>) {
    && |active| == |copy| == 512
    && forall j :: 0 <= j < 512 ==> copy[j] == if j < 256 then KernelSide(active[j]) else active[j]
  }

  /** No table on the way down `path` is frame `c`. */
  predicate Avoids(m: Memory, f: nat, path: seq<nat>, c: nat)
    requires IsIndices(path)
    decreases |path|
  {
    |path| <= 1 || (Entries(m, f)[path[0]].frame != c && Avoids(m, Entries(m, f)[path[0]].frame, path[1..], c))
  }

  /** The new address space translates what user code cannot reach as the active one does, and of
      user space nothing. */
  ghost predicate Isolates(m: Memory, active: nat, n: Memory, c: nat, path: seq<nat>)
    requires IsIndices(path) && |path| == 4
  {
    Lookup(n, c, path) == if path[0] < 256 && Entries(m, active)[path[0]].user then None else Lookup(m, active, path)
  }

  lemma {:induction false} SameAway(m: Memory, n: Memory, f: nat, path: seq<nat>, c: nat)
    requires IsIndices(path) && OnlyAt(m, n, c) && f != c && Avoids(m, f, path, c)
    ensures Walk(n, f, path) == Walk(m, f, path)
    decreases |path|
  {
    assert SameFrame(m, n, f);
    if |path| > 1 { SameAway(m, n, Entries(m, f)[path[0]].frame, path[1..], c); }
  }

  lemma IsolatedTranslations(m: Memory, active: nat, n: Memory, c: nat, path: seq<nat>)
    requires OnlyAt(m, n, c) && IsolatedCopy(Entries(m, active), Entries(n, c)) && IsIndices(path) && |path| == 4
    requires Avoids(m, active, path, c)
    ensures Isolates(m, active, n, c, path)
  {
    SameAway(m, n, Entries(m, active)[path[0]].frame, path[1..], c);
  }

  /** What mapping one page of the address space `roots[k]` may do: translations of every other
      page, frames in use outside that space's tables and slot kinds all stay as they were, and
      what could be written still can. */
  ghost predicate MapFrame(m: Memory, s: Frames, n: Memory, root: nat, path: seq<nat>)
    requires IsPath(path)
  {
    && (forall g: nat :: Count(s, g) > 0 && !Structural(m, root, g) ==> SameFrame(m, n, g))
    && (forall q :: IsPath(q) && |q| == 4 && q != path && Enters(m, root, q) ==> Lookup(n, root, q) == Lookup(m, root, q))
    && (forall j :: 0 <= j < 512 && Good(Entries(m, root)[j]) ==> Good(Entries(n, root)[j]))
    && (forall g: nat :: Structural(n, root, g) ==> Structural(m, root, g) || Count(s, g) == 0)
    && (forall q :: IsPath(q) && |q| == 4 && WriteAccess(m, root, q) ==> WriteAccess(n, root, q))
  }

  /** A free frame may be mapped anywhere the page tables are the address space's own. */
  ghost predicate CanMapFresh(m: Memory, s: Frames, roots: seq<nat>, k: nat, path: seq<nat>, d: nat) {
    && Consistent(m, s, roots) && k < |roots| && IsPath(path) && |path| == 4 && Enters(m, roots[k], path)
    && Allocate(s).1 == Some(d)
  }

  function MapLeaf(m: Memory, s: Frames, root: nat, path: seq<nat>, d: nat): MapResult
    requires Inv(s) && path != [] && IsIndices(path)
  {
    AllocatePreserves(s);
    MapTo(m, Allocate(s).0, root, path, UserLeaf(d))
  }

  lemma MapReady(m: Memory, s: Frames, roots: seq<nat>, k: nat, path: seq<nat>, d: nat)
    requires CanMapFresh(m, s, roots, k, path, d)
    ensures var t := Allocate(s).0;
      && Sub(m, t, roots[k], 4) && d != roots[k] && Others(m, t, roots[k], 4, d) >= 1
      && Consistent(m, t, roots) && Outside(m, t, roots, d) >= 1 && Count(s, d) == 0
  {
    hide RefsFrom, EntryRefs, TableFrom, EntryTable;
    WorldAlloc(m, s, roots);
    assert Sub(m, s, roots[k], 4);
    assert Refs(m, roots[k], 4, d) <= Count(s, d);
    assert Total(m, roots, d) <= Count(s, d);
  }

  /** The world stays consistent; only a failed mapping leaves its data frame referenced by nobody. */
  lemma MapFreshWorld(m: Memory, s: Frames, roots: seq<nat>, k: nat, path: seq<nat>, d: nat)
    requires CanMapFresh(m, s, roots, k, path, d)
    ensures var r := MapLeaf(m, s, roots[k], path, d);
      && Consistent(r.mem, r.frames, roots)
      && forall x: nat :: Outside(r.mem, r.frames, roots, x)
           == Outside(m, s, roots, x) + if !r.ok && x == d then 1 else 0
  {
    hide RefsFrom, EntryRefs, TableFrom, EntryTable;
    MapReady(m, s, roots, k, path, d);
    WorldAlloc(m, s, roots);
    var t, r := Allocate(s).0, MapLeaf(m, s, roots[k], path, d);
    MapToEvolves(m, t, roots[k], path, UserLeaf(d));
    WorldStep(m, t, r.mem, r.frames, roots, k, if r.ok then Takes(d) else Same);
  }

  lemma MapFreshLookup(m: Memory, s: Frames, roots: seq<nat>, k: nat, path: seq<nat>, d: nat, q: seq<nat>)
    requires CanMapFresh(m, s, roots, k, path, d)
    requires IsPath(q) && |q| == 4 && Enters(m, roots[k], q)
    ensures q != path ==> Lookup(MapLeaf(m, s, roots[k], path, d).mem, roots[k], q) == Lookup(m, roots[k], q)
    ensures q == path && MapLeaf(m, s, roots[k], path, d).ok ==>
      Lookup(MapLeaf(m, s, roots[k], path, d).mem, roots[k], q) == Some(UserLeaf(d))
  {
    hide RefsFrom, EntryRefs, TableFrom, EntryTable;
    MapReady(m, s, roots, k, path, d);
    if q != path {
      MapToKeeps(m, Allocate(s).0, roots[k], path, UserLeaf(d), q);
    } else if MapLeaf(m, s, roots[k], path, d).ok {
      MapToFound(m, Allocate(s).0, roots[k], path, UserLeaf(d));
    }
  }

  lemma MapFreshUntouched(m: Memory, s: Frames, roots: seq<nat>, k: nat, path: seq<nat>, d: nat)
    requires CanMapFresh(m, s, roots, k, path, d)
    ensures var r := MapLeaf(m, s, roots[k], path, d);
      && (forall g: nat :: Count(s, g) > 0 && !Structural(m, roots[k], g) ==> SameFrame(m, r.mem, g))
      && (forall j :: 0 <= j < 512 && Good(Entries(m, roots[k])[j]) ==> Good(Entries(r.mem, roots[k])[j]))
      && KeepsCounts(s, r.frames) && Count(r.frames, d) == 1
  {
    hide RefsFrom, EntryRefs, TableFrom, EntryTable;
    MapReady(m, s, roots, k, path, d);
    WorldAlloc(m, s, roots);
    MapToEvolves(m, Allocate(s).0, roots[k], path, UserLeaf(d));
  }

  lemma MapFreshTables(m: Memory, s: Frames, roots: seq<nat>, k: nat, path: seq<nat>, d: nat)
    requires CanMapFresh(m, s, roots, k, path, d)
    ensures forall g: nat :: Structural(MapLeaf(m, s, roots[k], path, d).mem, roots[k], g) ==>
      Structural(m, roots[k], g) || Count(s, g) == 0
  {
    hide RefsFrom, EntryRefs, TableFrom, EntryTable;
    MapReady(m, s, roots, k, path, d);
    WorldAlloc(m, s, roots);
    MapToEvolves(m, Allocate(s).0, roots[k], path, UserLeaf(d));
  }

  /** The page mapped can be written, and so can every page that could be before. */
  lemma MapFreshAccess(m: Memory, s: Frames, roots: seq<nat>, k: nat, path: seq<nat>, d: nat, q: seq<nat>)
    requires CanMapFresh(m, s, roots, k, path, d) && IsPath(q) && |q| == 4
    ensures WriteAccess(m, roots[k], q) ==> WriteAccess(MapLeaf(m, s, roots[k], path, d).mem, roots[k], q)
    ensures MapLeaf(m, s, roots[k], path, d).ok ==> WriteAccess(MapLeaf(m, s, roots[k], path, d).mem, roots[k], path)
  {
    hide RefsFrom, EntryRefs, TableFrom, EntryTable, Refs, WriteAccess, Sub, FirstFree;
    MapReady(m, s, roots, k, path, d);
    if WriteAccess(m, roots[k], q) { MapToKeepsAccess(m, Allocate(s).0, roots[k], path, UserLeaf(d), q); }
    if MapLeaf(m, s, roots[k], path, d).ok { MapToWritable(m, Allocate(s).0, roots[k], path, UserLeaf(d)); }
  }

  /** Filling the new page with zeros does not matter to the tables. */
  lemma ZeroFillAccess(m: Memory, s: Frames, roots: seq<nat>, k: nat, path: seq<nat>, d: nat, q: seq<nat>)
    requires CanMapFresh(m, s, roots, k, path, d) && MapLeaf(m, s, roots[k], path, d).ok && IsPath(q) && |q| == 4
    ensures WriteAccess(m, roots[k], q) || q == path ==> WriteAccess(MapLeaf(m, s, roots[k], path, d).mem[d := ZeroPage()], roots[k], q)
  {
    hide RefsFrom, EntryRefs, TableFrom, EntryTable, Refs, Sub, FirstFree, MapLeaf;
    var r := MapLeaf(m, s, roots[k], path, d);
    MapFreshAccess(m, s, roots, k, path, d, q);
    MapFreshWorld(m, s, roots, k, path, d);
    ZeroFillLookups(m, s, roots, k, path, d, path);
    if WriteAccess(r.mem, roots[k], q) {
      assert Enters(r.mem, roots[k], q);
      WriteKeepsPages(r.mem, r.frames, roots, d, ZeroPage(), k, q);
    }
  }

  lemma MapFreshFrame(m: Memory, s: Frames, roots: seq<nat>, k: nat, path: seq<nat>, d: nat)
    requires CanMapFresh(m, s, roots, k, path, d)
    ensures var r := MapLeaf(m, s, roots[k], path, d);
      && MapFrame(m, s, r.mem, roots[k], path) && KeepsCounts(s, r.frames)
      && (r.ok ==> Lookup(r.mem, roots[k], path) == Some(UserLeaf(d)))
  {
    hide RefsFrom, EntryRefs, TableFrom, EntryTable;
    MapFreshUntouched(m, s, roots, k, path, d);
    MapFreshTables(m, s, roots, k, path, d);
    forall q | IsPath(q) && |q| == 4 && q != path && Enters(m, roots[k], q)
      ensures Lookup(MapLeaf(m, s, roots[k], path, d).mem, roots[k], q) == Lookup(m, roots[k], q)
    {
      MapFreshLookup(m, s, roots, k, path, d, q);
    }
    MapFreshLookup(m, s, roots, k, path, d, path);
    forall q | IsPath(q) && |q| == 4 && WriteAccess(m, roots[k], q) ensures WriteAccess(MapLeaf(m, s, roots[k], path, d).mem, roots[k], q) {
      MapFreshAccess(m, s, roots, k, path, d, q);
    }
  }

  /** The mapping goes through exactly if there are frames for the page and the missing tables. */
  lemma MapFreshCost(m: Memory, s: Frames, roots: seq<nat>, k: nat, path: seq<nat>, d: nat)
    requires CanMapFresh(m, s, roots, k, path, d) && Lookup(m, roots[k], path).None?
    ensures var r := MapLeaf(m, s, roots[k], path, d);
      (r.ok <==> Cost(m, roots[k], path) <= Free(s)) && (r.ok ==> Free(r.frames) == Free(s) - Cost(m, roots[k], path))
  {
    hide RefsFrom, EntryRefs, TableFrom, EntryTable, Sub, Refs, Total, MapTo, Free, Walk;
    MapReady(m, s, roots, k, path, d);
    AllocateTakesOne(s);
    MapToCost(m, Allocate(s).0, roots[k], path, UserLeaf(d));
  }

  /** Mapping `path` created the tables on it and no others. */
  ghost predicate TablesGrow(m: Memory, n: Memory, root: nat, path: seq<nat>)
    requires |path| == 4
  {
    forall q :: IsPath(q) && |q| == 4 && Enters(m, root, q) ==> Missing(n, root, q) == Min(Missing(m, root, q), 3 - Shared(path, q))
  }

  /** The new frame's contents do not matter to the tables. */
  lemma MapFreshTablesGrow(m: Memory, s: Frames, roots: seq<nat>, k: nat, path: seq<nat>, d: nat)
    requires CanMapFresh(m, s, roots, k, path, d) && MapLeaf(m, s, roots[k], path, d).ok
    ensures TablesGrow(m, MapLeaf(m, s, roots[k], path, d).mem[d := ZeroPage()], roots[k], path)
  {
    hide RefsFrom, EntryRefs, TableFrom, EntryTable, Refs, Total, MapTo, Missing, Walk, FirstFree;
    var r := MapLeaf(m, s, roots[k], path, d);
    MapReady(m, s, roots, k, path, d);
    MapFreshWorld(m, s, roots, k, path, d);
    MapFreshUntouched(m, s, roots, k, path, d);
    forall q | IsPath(q) && |q| == 4 && Enters(m, roots[k], q)
      ensures Missing(r.mem[d := ZeroPage()], roots[k], q) == Min(Missing(m, roots[k], q), 3 - Shared(path, q))
    {
      MissingAfter(m, Allocate(s).0, roots[k], path, UserLeaf(d), q);
      ZeroFillLookups(m, s, roots, k, path, d, q);
      WriteKeepsPages(r.mem, r.frames, roots, d, ZeroPage(), k, q);
    }
  }

  /** A mapping that fails half-way has used up every frame and left the page unmapped. */
  lemma MapFreshFails(m: Memory, s: Frames, roots: seq<nat>, k: nat, path: seq<nat>, d: nat)
    requires CanMapFresh(m, s, roots, k, path, d) && Lookup(m, roots[k], path).None? && !MapLeaf(m, s, roots[k], path, d).ok
    ensures var r := MapLeaf(m, s, roots[k], path, d); Free(r.frames) == 0 && Lookup(r.mem, roots[k], path).None?
  {
    hide RefsFrom, EntryRefs, TableFrom, EntryTable, Sub, Refs, Total, MapTo, Free, Walk;
    MapReady(m, s, roots, k, path, d);
    MapToFails(m, Allocate(s).0, roots[k], path, UserLeaf(d));
  }

  /** How a mapping attempt ends, decided by the state before it. The middle case loses the
      page's frame: there was one for the page, but not for all missing tables. */
  ghost function Verdict(m: Memory, s: Frames, root: nat, path: seq<nat>): MapStatus
    requires IsIndices(path)
  {
    if Cost(m, root, path) <= Free(s) then Mapped
    else if Free(s) > 0 then InvalidMapping
    else OutOfFrames
  }

  /** A page was mapped on the fresh, zero-filled frame `d` and can be written; nothing else changed. */
  ghost predicate MappedFresh(m: Memory, s: Frames, n: Memory, t: Frames, roots: seq<nat>, k: nat, path: seq<nat>, d: nat)
    requires k < |roots| && IsPath(path)
  {
    && Consistent(n, t, roots)
    && (forall x: nat :: Outside(n, t, roots, x) == Outside(m, s, roots, x))
    && MapFrame(m, s, n, roots[k], path) && KeepsCounts(s, t)
    && Count(s, d) == 0 && Count(t, d) == 1 && d in n && n[d] == ZeroPage()
    && Lookup(n, roots[k], path) == Some(UserLeaf(d)) && WriteAccess(n, roots[k], path)
  }

  lemma ZeroFillLookups(m: Memory, s: Frames, roots: seq<nat>, k: nat, path: seq<nat>, d: nat, q: seq<nat>)
    requires CanMapFresh(m, s, roots, k, path, d) && MapLeaf(m, s, roots[k], path, d).ok
    requires IsPath(q) && |q| == 4 && Enters(m, roots[k], q)
    ensures var n := MapLeaf(m, s, roots[k], path, d).mem[d := ZeroPage()];
      && PlainFrame(MapLeaf(m, s, roots[k], path, d).mem, roots, d)
      && Lookup(n, roots[k], q) == if q == path then Some(UserLeaf(d)) else Lookup(m, roots[k], q)
  {
    hide RefsFrom, EntryRefs, TableFrom, EntryTable;
    var r := MapLeaf(m, s, roots[k], path, d);
    MapFreshWorld(m, s, roots, k, path, d);
    MapFreshUntouched(m, s, roots, k, path, d);
    MapFreshLookup(m, s, roots, k, path, d, q);
    MapFreshLookup(m, s, roots, k, path, d, path);
    PageIsPlain(r.mem, r.frames, roots, k, path);
    WriteKeepsPages(r.mem, r.frames, roots, d, ZeroPage(), k, q);
  }

  lemma ZeroFillUntouched(m: Memory, s: Frames, roots: seq<nat>, k: nat, path: seq<nat>, d: nat)
    requires CanMapFresh(m, s, roots, k, path, d) && MapLeaf(m, s, roots[k], path, d).ok
    ensures var n := MapLeaf(m, s, roots[k], path, d).mem[d := ZeroPage()];
      && (forall g: nat :: Count(s, g) > 0 && !Structural(m, roots[k], g) ==> SameFrame(m, n, g))
      && (forall j :: 0 <= j < 512 && Good(Entries(m, roots[k])[j]) ==> Good(Entries(n, roots[k])[j]))
  {
    hide RefsFrom, EntryRefs, TableFrom, EntryTable;
    MapReady(m, s, roots, k, path, d);
    MapFreshUntouched(m, s, roots, k, path, d);
  }

  lemma ZeroFillTables(m: Memory, s: Frames, roots: seq<nat>, k: nat, path: seq<nat>, d: nat, g: nat)
    requires CanMapFresh(m, s, roots, k, path, d) && MapLeaf(m, s, roots[k], path, d).ok
    requires Structural(MapLeaf(m, s, roots[k], path, d).mem[d := ZeroPage()], roots[k], g)
    ensures Structural(m, roots[k], g) || Count(s, g) == 0
  {
    hide RefsFrom, EntryRefs, TableFrom, EntryTable;
    var r := MapLeaf(m, s, roots[k], path, d);
    ZeroFillLookups(m, s, roots, k, path, d, path);
    SameSpace(r.mem, r.mem[d := ZeroPage()], roots[k], g);
    MapFreshTables(m, s, roots, k, path, d);
  }

  lemma ZeroFillFrame(m: Memory, s: Frames, roots: seq<nat>, k: nat, path: seq<nat>, d: nat)
    requires CanMapFresh(m, s, roots, k, path, d) && MapLeaf(m, s, roots[k], path, d).ok
    ensures MapFrame(m, s, MapLeaf(m, s, roots[k], path, d).mem[d := ZeroPage()], roots[k], path)
  {
    hide RefsFrom, EntryRefs, TableFrom, EntryTable;
    var root := roots[k];
    var n := MapLeaf(m, s, root, path, d).mem[d := ZeroPage()];
    ZeroFillUntouched(m, s, roots, k, path, d);
    forall g: nat | Structural(n, root, g) ensures Structural(m, root, g) || Count(s, g) == 0 {
      ZeroFillTables(m, s, roots, k, path, d, g);
    }
    forall q | IsPath(q) && |q| == 4 && q != path && Enters(m, root, q) ensures Lookup(n, root, q) == Lookup(m, root, q) {
      ZeroFillLookups(m, s, roots, k, path, d, q);
    }
    forall q | IsPath(q) && |q| == 4 && WriteAccess(m, root, q) ensures WriteAccess(n, root, q) { ZeroFillAccess(m, s, roots, k, path, d, q); }
  }

  lemma ZeroFill(m: Memory, s: Frames, roots: seq<nat>, k: nat, path: seq<nat>, d: nat)
    requires CanMapFresh(m, s, roots, k, path, d) && MapLeaf(m, s, roots[k], path, d).ok
    ensures var r := MapLeaf(m, s, roots[k], path, d);
      MappedFresh(m, s, r.mem[d := ZeroPage()], r.frames, roots, k, path, d)
  {
    hide RefsFrom, EntryRefs, TableFrom, EntryTable;
    var r := MapLeaf(m, s, roots[k], path, d);
    assert Count(s, d) == 0 by { MapReady(m, s, roots, k, path, d); }
    assert KeepsCounts(s, r.frames) && Count(r.frames, d) == 1 by { MapFreshUntouched(m, s, roots, k, path, d); }
    MapFreshWorld(m, s, roots, k, path, d);
    ZeroFillFrame(m, s, roots, k, path, d);
    ZeroFillLookups(m, s, roots, k, path, d, path);
    ZeroFillAccess(m, s, roots, k, path, d, path);
    WorldWrite(r.mem, r.frames, roots, d, ZeroPage());
  }

  /** The page could not be mapped and frame `d` is now referenced but in no page table. */
  ghost predicate Leaked(m: Memory, s: Frames, n: Memory, t: Frames, roots: seq<nat>, k: nat, path: seq<nat>, d: nat)
    requires k < |roots| && IsPath(path)
  {
    && Consistent(n, t, roots)
    && (forall x: nat :: Outside(n, t, roots, x) == Outside(m, s, roots, x) + if x == d then 1 else 0)
    && MapFrame(m, s, n, roots[k], path) && KeepsCounts(s, t)
  }

  /** The contract of mapping one user page: an already mapped page is left alone, exhaustion
      changes nothing, and only `InvalidMapping` (a table could not be created or a huge page
      is in the way) costs a frame, `leak`. */
  ghost predicate MapSpec(m: Memory, s: Frames, n: Memory, t: Frames, roots: seq<nat>, k: nat, path: seq<nat>,
                          r: MapStatus, leak: Option<nat>)
    requires k < |roots| && IsPath(path)
  {
    if Lookup(m, roots[k], path).Some? then r == Mapped && n == m && t == s && leak == None
    else match r
      case OutOfFrames => n == m && t == s && leak == None && NoneFree(s)
      case InvalidMapping => leak.Some? && Leaked(m, s, n, t, roots, k, path, leak.value)
      case Mapped => leak == None && exists d: nat :: MappedFresh(m, s, n, t, roots, k, path, d)
  }

  /** No frame is free. */
  ghost predicate NoneFree(s: Frames) {
    forall f :: 0 <= f < |s.busy| ==> s.busy[f]
  }

  /** What every outcome of mapping a page has in common. */
  lemma MapSpecKeeps(m: Memory, s: Frames, n: Memory, t: Frames, roots: seq<nat>, k: nat, path: seq<nat>,
                     r: MapStatus, leak: Option<nat>)
    requires Consistent(m, s, roots) && k < |roots| && IsPath(path) && |path| == 4
    requires MapSpec(m, s, n, t, roots, k, path, r, leak)
    ensures Consistent(n, t, roots) && MapFrame(m, s, n, roots[k], path) && KeepsCounts(s, t)
    ensures forall x: nat :: Outside(n, t, roots, x) == Outside(m, s, roots, x) + if leak == Some(x) then 1 else 0
    ensures r == Mapped ==> Lookup(n, roots[k], path).Some?
    ensures leak.Some? <==> r == InvalidMapping
  {
    hide RefsFrom, EntryRefs, TableFrom, EntryTable, Sub, Walk, Total;
  }

  /** The pages of interest can be mapped in the address space `roots[k]`. */
  ghost predicate Target(m: Memory, s: Frames, roots: seq<nat>, k: nat, pages: set<nat>) {
    && Consistent(m, s, roots) && k < |roots|
    && forall p :: p in pages ==> p < USER_PAGES && Enters(m, roots[k], PathOf(p))
  }

  /** Whatever its outcome, mapping a page keeps the pages of interest mappable. */
  lemma TargetKept(m: Memory, s: Frames, n: Memory, t: Frames, roots: seq<nat>, k: nat, pages: set<nat>, p: nat, r: MapStatus, leak: Option<nat>)
    requires Target(m, s, roots, k, pages) && p in pages && MapSpec(m, s, n, t, roots, k, PathOf(p), r, leak)
    ensures Target(n, t, roots, k, pages)
  {
    hide RefsFrom, EntryRefs, TableFrom, EntryTable, Walk, Sub, Total, Refs;
    MapSpecKeeps(m, s, n, t, roots, k, PathOf(p), r, leak);
  }

  lemma TargetPage(m: Memory, s: Frames, roots: seq<nat>, k: nat, pages: set<nat>, p: nat)
    requires Target(m, s, roots, k, pages) && p in pages
    ensures Consistent(m, s, roots) && k < |roots| && p < USER_PAGES && Enters(m, roots[k], PathOf(p))
  {}

  lemma TargetValid(m: Memory, s: Frames, roots: seq<nat>, k: nat, pages: set<nat>)
    requires Target(m, s, roots, k, pages)
    ensures Consistent(m, s, roots)
  {}

  lemma MapFailed(m: Memory, s: Frames, roots: seq<nat>, k: nat, path: seq<nat>, d: nat)
    requires CanMapFresh(m, s, roots, k, path, d) && !MapLeaf(m, s, roots[k], path, d).ok
    ensures var r := MapLeaf(m, s, roots[k], path, d); Leaked(m, s, r.mem, r.frames, roots, k, path, d)
  {
    hide RefsFrom, EntryRefs, TableFrom, EntryTable;
    MapFreshWorld(m, s, roots, k, path, d);
    MapFreshFrame(m, s, roots, k, path, d);
  }

  lemma CreatedSpace(m: Memory, s: Frames, n: Memory, roots: seq<nat>, c: nat, cr3: nat)
    requires Consistent(m, s, roots) && Allocate(s).1 == Some(c) && c != cr3
    requires OnlyAt(m[c := Table(EmptyEntries())], n, c)
    requires IsolatedCopy(Entries(m[c := Table(EmptyEntries())], cr3), Entries(n, c))
    ensures Consistent(n, Allocate(s).0, roots + [c]) && OnlyAt(m, n, c)
    ensures forall x: nat :: Outside(n, Allocate(s).0, roots + [c], x) == Outside(m, s, roots, x)
  {
    hide RefsFrom, EntryRefs, TableFrom, EntryTable;
    WorldAlloc(m, s, roots);
    forall g: nat | g != c ensures SameFrame(m, n, g) {
      assert SameFrame(m[c := Table(EmptyEntries())], n, g);
    }
    WorldAdd(m, s, n, Allocate(s).0, roots, c);
  }

  /** Once the walk below a PML4 is over, releasing the PML4 completes the teardown. */
  lemma TeardownDone(m: Memory, s: Frames, n: Memory, t: Frames, r: nat)
    requires Sub(m, s, r, 4) && Released(m, s, n, t, r, 4)
    ensures Deallocate(t, r).1 == Done && Gone(m, s, n, Deallocate(t, r).0, r)
  {
    hide RefsFrom, EntryRefs, TableFrom, EntryTable;
    DropOne(t, r);
  }

  class Machine {
    var frames: Frames
    var mem: Memory
    var cr3: nat
    /** The PML4 frames of the live user address spaces. */
    ghost var roots: seq<nat>

    ghost predicate Valid()
      reads this
    {
      Consistent(mem, frames, roots)
    }

    /** `cow_deallocate_frame` on a frame number. */
    method Release(f: nat) returns (outcome: Outcome)
      requires Inv(frames)
      modifies this`frames
      ensures (frames, outcome) == Deallocate(old(frames), f) && Inv(frames)
    {
      var (t, o) := Deallocate(frames, f);
      DeallocatePreserves(frames, f);
      frames := t;
      return o;
    }

    /** Maps one page of the address space `root` on a fresh zeroed frame, unless it is mapped already. */
    method AllocateAndMapUserPage(root: nat, page: nat, ghost k: nat) returns (r: MapStatus, ghost leak: Option<nat>)
      requires Valid() && k < |roots| && roots[k] == root && page < USER_PAGES && Enters(mem, root, PathOf(page))
      modifies this`frames, this`mem
      ensures MapSpec(old(mem), old(frames), mem, frames, roots, k, PathOf(page), r, leak)
      ensures r == old(Verdict(mem, frames, root, PathOf(page)))
      ensures r == Mapped ==> Free(frames) == old(Free(frames)) - old(Cost(mem, root, PathOf(page)))
      ensures r == Mapped && old(Lookup(mem, root, PathOf(page))).None? ==> TablesGrow(old(mem), mem, root, PathOf(page))
      ensures r == InvalidMapping ==> Free(frames) == 0 && Lookup(mem, root, PathOf(page)).None?
    {
      hide TablesGrow, Missing, Free, FirstFree, RefsFrom, EntryRefs, TableFrom, EntryTable, Refs, Walk, MappedFresh, Leaked, MapFrame, Sub;
      var path := PathOf(page);
      if Lookup(mem, root, path).Some? { return Mapped, None; }
      ghost var m, s := mem, frames;
      AllocateTakesOne(s);
      var (t, frame) := Allocate(frames);
      if frame.None? { return OutOfFrames, None; }
      var d := frame.value;
      MapFreshCost(m, s, roots, k, path, d);
      AllocatePreserves(frames);
      frames := t;
      var mapped := MapTo(mem, frames, root, path, UserLeaf(d));
      mem, frames := mapped.mem, mapped.frames;
      if !mapped.ok {
        MapFailed(m, s, roots, k, path, d);
        MapFreshFails(m, s, roots, k, path, d);
        return InvalidMapping, Some(d);
      }
      ZeroFill(m, s, roots, k, path, d);
      MapFreshTablesGrow(m, s, roots, k, path, d);
      mem := mem[d := ZeroPage()];
      return Mapped, None;
    }

    /** Fills the zeroed PML4 `c` from the active one: the upper half verbatim, of the lower
        half only what is not user-accessible. */
    method CopyKernelEntries(c: nat)
      requires c != cr3 && Entries(mem, c) == EmptyEntries()
      modifies this`mem
      ensures OnlyAt(old(mem), mem, c) && IsolatedCopy(Entries(old(mem), cr3), Entries(mem, c))
    {
      ghost var m := mem;
      var i := 256;
      while i < 512
        invariant 256 <= i <= 512 && OnlyAt(m, mem, c)
        invariant forall j :: 256 <= j < i ==> Entries(mem, c)[j] == Entries(m, cr3)[j]
        invariant forall j :: 0 <= j < 256 ==> Entries(mem, c)[j] == UNUSED
      {
        assert SameFrame(m, mem, cr3);
        OnlyAtSet(m, mem, c, i, Entries(mem, cr3)[i]);
        mem := SetEntry(mem, c, i, Entries(mem, cr3)[i]);
        i := i + 1;
      }
      i := 0;
      while i < 256
        invariant 0 <= i <= 256 && OnlyAt(m, mem, c)
        invariant forall j :: 256 <= j < 512 ==> Entries(mem, c)[j] == Entries(m, cr3)[j]
        invariant forall j :: 0 <= j < i ==> Entries(mem, c)[j] == KernelSide(Entries(m, cr3)[j])
        invariant forall j :: i <= j < 256 ==> Entries(mem, c)[j] == UNUSED
      {
        assert SameFrame(m, mem, cr3);
        var e := Entries(mem, cr3)[i];
        if e != UNUSED && !e.user {
          OnlyAtSet(m, mem, c, i, e);
          mem := SetEntry(mem, c, i, e);
        }
        i := i + 1;
      }
    }

    /** A new address space: it shares the kernel's tables and maps no user page. */
    method CreateIsolatedPml4() returns (r: Option<nat>)
      requires Valid() && Count(frames, cr3) > 0
      modifies this`frames, this`mem, this`roots
      ensures Valid()
      ensures r.None? ==> mem == old(mem) && frames == old(frames) && roots == old(roots)
      ensures (r.None? <==> old(Free(frames)) == 0) && (r.Some? ==> Free(frames) == old(Free(frames)) - 1)
      ensures r.Some? ==> roots == old(roots) + [r.value] && old(Count(frames, r.value)) == 0 && r.value != cr3
      ensures r.Some? ==> OnlyAt(old(mem), mem, r.value) && KeepsCounts(old(frames), frames)
      ensures r.Some? ==> IsolatedCopy(old(Entries(mem, cr3)), Entries(mem, r.value))
      ensures r.Some? ==> forall path :: IsIndices(path) && |path| == 4 && Avoids(old(mem), cr3, path, r.value) ==>
        Isolates(old(mem), cr3, mem, r.value, path)
      ensures forall x: nat :: Outside(mem, frames, roots, x) == old(Outside(mem, frames, roots, x))
    {
      hide Free, FirstFree, RefsFrom, EntryRefs, TableFrom, EntryTable, Refs, Sub;
      ghost var m, s, before := mem, frames, roots;
      AllocateTakesOne(s);
      var (t, frame) := Allocate(frames);
      if frame.None? { return None; }
      var c := frame.value;
      WorldAlloc(m, s, roots);
      frames := t;
      mem := mem[c := Table(EmptyEntries())];
      CopyKernelEntries(c);
      roots := roots + [c];
      CreatedSpace(m, s, mem, before, c, cr3);
      assert IsolatedCopy(Entries(m, cr3), Entries(mem, c));
      forall path | IsIndices(path) && |path| == 4 && Avoids(m, cr3, path, c) ensures Isolates(m, cr3, mem, c, path) {
        IsolatedTranslations(m, cr3, mem, c, path);
      }
      return Some(c);
    }

    /** The nested teardown loops: the same walk at each of the four levels. Every table is
        emptied and released after everything below it. */
    method DestroyTable(f: nat, level: nat) returns (outcome: Outcome)
      requires 0 < level <= 4 && Sub(mem, frames, f, level)
      modifies this`frames, this`mem
      ensures outcome == Done && Inv(frames) && Released(old(mem), old(frames), mem, frames, f, level)
      decreases level
    {
      hide RefsFrom, EntryRefs, TableFrom, EntryTable, Released;
      ghost var m, s := mem, frames;
      WalkStarts(m, s, f, level);
      var i := 0;
      while i < Slots(level)
        invariant 0 <= i <= Slots(level) && Progress(m, s, mem, frames, f, level, i)
      {
        var e := Entries(mem, f)[i];
        if Live(e) {
          ghost var n, t := mem, frames;
          if level > 1 && Descends(e, level) {
            ChildReady(m, s, n, t, f, level, i, e.frame);
            var below := DestroyTable(e.frame, level - 1);
            InnerDone(m, s, n, t, mem, frames, f, level, i, e.frame);
          } else {
            LeafDone(m, s, n, t, f, level, i);
          }
          var o := Release(e.frame);
          assert o == Done;  // the double-free panic is never reached
          mem := SetEntry(mem, f, i, UNUSED);
        } else {
          DeadDone(m, s, mem, frames, f, level, i);
        }
        i := i + 1;
      }
      WalkEnds(m, s, mem, frames, f, level);
      return Done;
    }

    /** Releases everything the address space holds, its PML4 last. */
    method DestroyUserAddressSpace(pml4: nat, ghost k: nat) returns (outcome: Outcome)
      requires Valid() && k < |roots| && roots[k] == pml4
      modifies this`frames, this`mem, this`roots
      ensures Valid() && outcome == Done && roots == Without(old(roots), k)
      ensures Gone(old(mem), old(frames), mem, frames, pml4)
      ensures forall x: nat :: Outside(mem, frames, roots, x) == old(Outside(mem, frames, roots, x))
      ensures forall j :: 256 <= j < 512 ==> Entries(mem, pml4)[j] == old(Entries(mem, pml4))[j]
    {
      ghost var m, s, before := mem, frames, roots;
      outcome := DestroyTable(pml4, 4);
      TeardownDone(m, s, mem, frames, pml4);
      outcome := Release(pml4);
      roots := Without(roots, k);
      WorldRemove(m, s, mem, frames, before, k);
    }
  }
}
