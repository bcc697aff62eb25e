/** The life of an address space from creation to teardown, and why user pages must stay out
    of the PML4 slots that the kernel shares with every task. */
module LifeCycle {
  import opened Common
  import opened FrameState
  import opened PageTables
  import opened Paging
  import opened Lookups
  import opened Sums
  import opened World
  import opened Teardown
  import opened AddressSpaces
  import opened Budgets
  import opened Machines

  /** The frames and memory that existed at `(m, s)` are still as they were; the address space
      `root` is built on frames that were free then; `leaks` are the frames lost meanwhile. */
  ghost predicate Session(m: Memory, s: Frames, n: Memory, t: Frames, roots: seq<nat>, root: nat, leaks: multiset<nat>) {
    && Consistent(n, t, roots + [root]) && KeepsCounts(s, t)
    && (forall g: nat :: Count(s, g) > 0 ==> SameFrame(m, n, g))
    && (forall g: nat :: Structural(n, root, g) ==> Count(s, g) == 0)
    && forall x: nat :: Outside(n, t, roots + [root], x) == Outside(m, s, roots, x) + leaks[x]
  }

  function Lost(leaks: multiset<nat>, leak: Option<nat>): multiset<nat> {
    if leak.Some? then leaks + multiset{leak.value} else leaks
  }

  /** Mapping a page touches neither what was there before nor what was in use then. */
  lemma SessionFrames(m: Memory, s: Frames, n: Memory, t: Frames, o: Memory, u: Frames, root: nat, path: seq<nat>)
    requires IsPath(path) && MapFrame(n, t, o, root, path) && KeepsCounts(s, t) && KeepsCounts(t, u)
    requires forall g: nat :: Count(s, g) > 0 ==> SameFrame(m, n, g)
    requires forall g: nat :: Structural(n, root, g) ==> Count(s, g) == 0
    ensures KeepsCounts(s, u)
    ensures forall g: nat :: Count(s, g) > 0 ==> SameFrame(m, o, g)
    ensures forall g: nat :: Structural(o, root, g) ==> Count(s, g) == 0
  {
    hide RefsFrom, EntryRefs, TableFrom, EntryTable;
    forall g: nat | Count(s, g) > 0 ensures SameFrame(m, o, g) && !Structural(o, root, g) {
      assert SameFrame(m, n, g) && !Structural(n, root, g);
    }
  }

  lemma SessionMaps(m: Memory, s: Frames, n: Memory, t: Frames, o: Memory, u: Frames, roots: seq<nat>, root: nat,
                    leaks: multiset<nat>, path: seq<nat>, r: MapStatus, leak: Option<nat>)
    requires Session(m, s, n, t, roots, root, leaks) && IsPath(path) && |path| == 4
    requires MapSpec(n, t, o, u, roots + [root], |roots|, path, r, leak)
    ensures Session(m, s, o, u, roots, root, Lost(leaks, leak))
  {
    hide RefsFrom, EntryRefs, TableFrom, EntryTable, Refs, IsTable, Sub, Lookup, Walk, Total, Inv;
    MapSpecKeeps(n, t, o, u, roots + [root], |roots|, path, r, leak);
    SessionFrames(m, s, n, t, o, u, root, path);
    forall x: nat ensures Outside(o, u, roots + [root], x) == Outside(m, s, roots, x) + Lost(leaks, leak)[x] {
      assert Outside(n, t, roots + [root], x) == Outside(m, s, roots, x) + leaks[x];
    }
  }

  /** Frames in use that read the same belong to the same address spaces. */
  lemma SameTotals(m: Memory, s: Frames, n: Memory, roots: seq<nat>, x: nat)
    requires Consistent(m, s, roots) && forall g: nat :: Count(s, g) > 0 ==> SameFrame(m, n, g)
    ensures Total(n, roots, x) == Total(m, roots, x)
  {
    hide RefsFrom, EntryRefs, TableFrom, EntryTable;
    forall j | 0 <= j < |roots| ensures Shares(n, roots, x)[j] == Shares(m, roots, x)[j] {
      assert Sub(m, s, roots[j], 4);
      forall g: nat | Structural(m, roots[j], g) ensures Entries(m, g) == Entries(n, g) {
        assert Count(s, g) == 1;
      }
      SameSpace(m, n, roots[j], x);
    }
    assert Shares(n, roots, x) == Shares(m, roots, x);
  }

  /** After teardown every count is what it was before creation, plus the leaks. */
  lemma SessionEnds(m: Memory, s: Frames, n: Memory, t: Frames, o: Memory, u: Frames, roots: seq<nat>, root: nat, leaks: multiset<nat>)
    requires Consistent(m, s, roots) && Session(m, s, n, t, roots, root, leaks) && Gone(n, t, o, u, root)
    requires forall x: nat :: Outside(o, u, roots, x) == Outside(n, t, roots + [root], x)
    ensures forall x: nat :: Count(u, x) == Count(s, x) + leaks[x]
    ensures forall g: nat :: Count(s, g) > 0 ==> SameFrame(m, o, g)
  {
    hide RefsFrom, EntryRefs, TableFrom, EntryTable;
    forall g: nat | Count(s, g) > 0 ensures SameFrame(m, o, g) {
      assert SameFrame(m, n, g) && !Structural(n, root, g);
    }
    forall x: nat ensures Count(u, x) == Count(s, x) + leaks[x] {
      SameTotals(m, s, o, roots, x);
      assert Outside(o, u, roots, x) == Outside(n, t, roots + [root], x);
    }
  }

  /** Equal counts mean equal bitmaps. */
  lemma SameBits(s: Frames, t: Frames)
    requires Inv(s) && Inv(t) && |s.counts| == |t.counts| && forall x: nat :: Count(t, x) == Count(s, x)
    ensures s.busy == t.busy && s.counts == t.counts
  {
    forall f | 0 <= f < |s.counts| ensures s.counts[f] == t.counts[f] && s.busy[f] == t.busy[f] {
      assert Count(t, f) == Count(s, f);
    }
  }

  /** A page whose slot the kernel does not share with every task. */
  predicate UserPage(m: Memory, active: nat, page: nat) {
    page < USER_PAGES && KernelSide(Entries(m, active)[PathOf(page)[0]]) == UNUSED
  }

  // ------------------------------------------------------------------
  // Which mappings go through
  // ------------------------------------------------------------------

  /** The most tables page `page` shares with one of the pages mapped before it. */
  function Saved(mapped: seq<nat>, page: nat): (r: nat)
    ensures r <= 3
  {
    if mapped == [] then 0
    else
      var n := |mapped| - 1;
      var rest, last := Saved(mapped[..n], page), Shared(PathOf(mapped[n]), PathOf(page));
      if last > rest then last else rest
  }

  /** The frames `page` takes in an address space that holds just `mapped`. */
  function PageCost(mapped: seq<nat>, page: nat): nat {
    if page in mapped then 0 else 4 - Saved(mapped, page)
  }

  function With(mapped: seq<nat>, page: nat): seq<nat> {
    if page in mapped then mapped else mapped + [page]
  }

  /** The frames a list of pages takes altogether. */
  function Needed(mapped: seq<nat>, pages: seq<nat>): nat
    decreases |pages|
  {
    if pages == [] then 0 else PageCost(mapped, pages[0]) + Needed(With(mapped, pages[0]), pages[1..])
  }

  /** How each mapping ends when `free` frames are left: the first page that does not fit uses up
      what there is. */
  function Predict(free: nat, mapped: seq<nat>, pages: seq<nat>): seq<MapStatus>
    decreases |pages|
  {
    if pages == [] then []
    else if PageCost(mapped, pages[0]) <= free then
      [Mapped] + Predict(free - PageCost(mapped, pages[0]), With(mapped, pages[0]), pages[1..])
    else [if free > 0 then InvalidMapping else OutOfFrames] + Predict(0, mapped, pages[1..])
  }

  /** The free frames run out in the middle of the tables for some page. */
  ghost predicate Strands(free: nat, mapped: seq<nat>, pages: seq<nat>) {
    exists j :: 0 <= j < |pages| && Needed(mapped, pages[..j]) < free < Needed(mapped, pages[..j + 1])
  }

  lemma {:induction false} FailuresSplit(a: seq<MapStatus>, b: seq<MapStatus>)
    ensures Failures(a + b) == Failures(a) + Failures(b)
    decreases |b|
  {
    if b == [] {
      assert a + b == a;
    } else {
      var n := |b| - 1;
      FailuresSplit(a, b[..n]);
      assert (a + b)[..|a + b| - 1] == a + b[..n];
    }
  }

  lemma {:induction false} NeededFirst(mapped: seq<nat>, pages: seq<nat>, j: nat)
    requires 0 < j <= |pages|
    ensures Needed(mapped, pages[..j]) == PageCost(mapped, pages[0]) + Needed(With(mapped, pages[0]), pages[1..][..j - 1])
  {
    assert pages[..j][1..] == pages[1..][..j - 1];
  }

  /** One frame is lost exactly if the frames run out half-way, and never more than one. */
  lemma {:induction false} LeaksIff(free: nat, mapped: seq<nat>, pages: seq<nat>)
    ensures Failures(Predict(free, mapped, pages)) == if Strands(free, mapped, pages) then 1 else 0
    decreases |pages|
  {
    hide PageCost;
    if pages != [] {
      var c, rest, more := PageCost(mapped, pages[0]), pages[1..], With(mapped, pages[0]);
      assert Needed(mapped, pages[..0]) == 0;
      NeededFirst(mapped, pages, 1);
      assert rest[..0] == [];
      if c <= free {
        FailuresSplit([Mapped], Predict(free - c, more, rest));
        LeaksIff(free - c, more, rest);
        StrandsLater(free, mapped, pages);
      } else {
        FailuresSplit([if free > 0 then InvalidMapping else OutOfFrames], Predict(0, mapped, rest));
        LeaksIff(0, mapped, rest);
      }
    }
  }

  lemma StrandsLater(free: nat, mapped: seq<nat>, pages: seq<nat>)
    requires pages != [] && PageCost(mapped, pages[0]) <= free
    ensures Strands(free, mapped, pages) <==> Strands(free - PageCost(mapped, pages[0]), With(mapped, pages[0]), pages[1..])
  {
    hide PageCost, Needed;
    var c, rest, more := PageCost(mapped, pages[0]), pages[1..], With(mapped, pages[0]);
    forall j | 0 < j <= |pages| ensures Needed(mapped, pages[..j]) == c + Needed(more, rest[..j - 1]) {
      NeededFirst(mapped, pages, j);
    }
    NothingNeeded(mapped, pages);
    NothingNeeded(more, rest);
    if j :| 0 <= j < |pages| && Needed(mapped, pages[..j]) < free < Needed(mapped, pages[..j + 1]) {
      assert Needed(more, rest[..j]) == Needed(mapped, pages[..j + 1]) - c;
      assert j > 0;
      assert Needed(more, rest[..j - 1]) < free - c < Needed(more, rest[..j - 1 + 1]);
    }
    if j :| 0 <= j < |rest| && Needed(more, rest[..j]) < free - c < Needed(more, rest[..j + 1]) {
      assert Needed(mapped, pages[..j + 1]) < free < Needed(mapped, pages[..j + 1 + 1]);
    }
  }

  lemma NothingNeeded(mapped: seq<nat>, pages: seq<nat>)
    ensures Needed(mapped, pages[..0]) == 0
  {}

  /** Everything is mapped exactly if the frames suffice. */
  lemma {:induction false} AllMappedIff(free: nat, mapped: seq<nat>, pages: seq<nat>)
    ensures (forall j :: 0 <= j < |Predict(free, mapped, pages)| ==> Predict(free, mapped, pages)[j] == Mapped) <==> Needed(mapped, pages) <= free
    decreases |pages|
  {
    hide PageCost;
    if pages != [] {
      var c := PageCost(mapped, pages[0]);
      if c <= free {
        var rest := Predict(free - c, With(mapped, pages[0]), pages[1..]);
        AllMappedIff(free - c, With(mapped, pages[0]), pages[1..]);
        assert Predict(free, mapped, pages)[1..] == rest;
        assert forall j :: 0 <= j < |rest| ==> Predict(free, mapped, pages)[j + 1] == rest[j];
      } else {
        assert Predict(free, mapped, pages)[0] != Mapped;
      }
    }
  }

  lemma {:induction false} NeededBound(mapped: seq<nat>, pages: seq<nat>)
    ensures Needed(mapped, pages) <= 4 * |pages|
    decreases |pages|
  {
    if pages != [] { NeededBound(With(mapped, pages[0]), pages[1..]); }
  }

  lemma {:induction false} NeededGrows(mapped: seq<nat>, pages: seq<nat>, j: nat)
    requires j <= |pages|
    ensures Needed(mapped, pages[..j]) <= Needed(mapped, pages)
    decreases |pages|
  {
    hide PageCost;
    if j > 0 {
      NeededFirst(mapped, pages, j);
      NeededGrows(With(mapped, pages[0]), pages[1..], j - 1);
    }
  }

  /** Four frames a page are always enough: everything is mapped and nothing is lost. */
  lemma FourEach(free: nat, pages: seq<nat>)
    requires 4 * |pages| <= free
    ensures !Strands(free, [], pages) && forall j :: 0 <= j < |Predict(free, [], pages)| ==> Predict(free, [], pages)[j] == Mapped
  {
    hide Needed, Predict;
    NeededBound([], pages);
    AllMappedIff(free, [], pages);
    forall n | 0 <= n <= |pages| ensures Needed([], pages[..n]) <= free {
      NeededGrows([], pages, n);
    }
  }

  /** A state that loses a frame: an empty address space and one free frame. The frame allocated
      for the page ends up referenced once, by nobody's tables. */
  lemma LeakingState()
    ensures var (m, s, path) := (map[0 := Table(EmptyEntries())], Frames([true, false], [1, 0], 1), PathOf(0));
      && CanMapFresh(m, s, [0], 0, path, 1) && Verdict(m, s, 0, path) == InvalidMapping
      && var r := MapLeaf(m, s, 0, path, 1); !r.ok && Count(r.frames, 1) == 1 && Outside(r.mem, r.frames, [0], 1) == 1
  {
    hide RefsFrom, EntryRefs, TableFrom, EntryTable, MapLeaf, PathOf;
    var m, s, path := map[0 := Table(EmptyEntries())], Frames([true, false], [1, 0], 1), PathOf(0);
    LeakingWorld(m, s);
    assert Allocate(s).1 == Some(1) by { FirstFreeUnique(s.busy, 0, 1); }
    assert FreeSet(s) == {1};
    EmptyLookup(m, 0, path);
    assert Outside(m, s, [0], 1) == 0;
    MapFreshCost(m, s, [0], 0, path, 1);
    MapFreshWorld(m, s, [0], 0, path, 1);
    MapFreshUntouched(m, s, [0], 0, path, 1);
  }

  lemma LeakingWorld(m: Memory, s: Frames)
    requires m == map[0 := Table(EmptyEntries())] && s == Frames([true, false], [1, 0], 1)
    ensures Consistent(m, s, [0]) && Total(m, [0], 1) == 0
  {
    hide RefsFrom, EntryRefs, TableFrom, EntryTable;
    forall x: nat ensures Refs(m, 0, 4, x) == 0 && !IsTable(m, 0, 4, x) && Total(m, [0], x) == if x == 0 then 1 else 0 {
      EmptyBelow(m, 0, 4, 0, x);
      var shares := Shares(m, [0], x);
      assert shares[1..] == [] && Sum(shares[1..]) == 0;
      assert Sum(shares) == shares[0] + Sum(shares[1..]);
    }
  }

  // ------------------------------------------------------------------
  // The prediction comes true
  // ------------------------------------------------------------------

  /** The tables of `root` are those the pages mapped so far need; once no frame is free only
      which pages are mapped matters. */
  ghost predicate Foreseen(m: Memory, s: Frames, root: nat, mapped: seq<nat>, pages: seq<nat>) {
    forall j :: 0 <= j < |pages| ==> PageForeseen(m, s, root, mapped, pages[j])
  }

  ghost predicate PageForeseen(m: Memory, s: Frames, root: nat, mapped: seq<nat>, page: nat) {
    && (Lookup(m, root, PathOf(page)).Some? <==> page in mapped)
    && (Free(s) > 0 ==> Missing(m, root, PathOf(page)) == 3 - Saved(mapped, page))
  }

  lemma SameShared(p: seq<nat>)
    requires |p| == 4
    ensures Shared(p, p) == 3
  {
    assert Shared(p[1..], p[1..]) == 1 + Shared(p[1..][1..], p[1..][1..]);
  }

  lemma MappedForeseen(m: Memory, s: Frames, n: Memory, t: Frames, root: nat, mapped: seq<nat>, page: nat, other: nat)
    requires page < USER_PAGES && other < USER_PAGES && Enters(m, root, PathOf(other)) && page !in mapped
    requires PageForeseen(m, s, root, mapped, other) && Free(t) <= Free(s)
    requires MapFrame(m, s, n, root, PathOf(page)) && TablesGrow(m, n, root, PathOf(page)) && Lookup(n, root, PathOf(page)).Some?
    ensures PageForeseen(n, t, root, mapped + [page], other)
  {
    hide Lookup, Missing, PathOf, Structural, Free;
    assert (mapped + [page])[..|mapped|] == mapped;
    if other == page {
      SameShared(PathOf(page));
    } else {
      PathsDiffer(page, other);
    }
  }

  lemma FailedForeseen(m: Memory, s: Frames, n: Memory, t: Frames, root: nat, mapped: seq<nat>, page: nat, other: nat)
    requires page < USER_PAGES && other < USER_PAGES && Enters(m, root, PathOf(other)) && page !in mapped
    requires PageForeseen(m, s, root, mapped, other) && Free(t) == 0
    requires MapFrame(m, s, n, root, PathOf(page)) && Lookup(n, root, PathOf(page)).None?
    ensures PageForeseen(n, t, root, mapped, other)
  {
    hide Lookup, Missing, PathOf, Structural, Free;
    if other != page { PathsDiffer(page, other); }
  }

  /** One mapping attempt ends as predicted and leaves things as foreseen. */
  lemma ForeseenStep(m: Memory, s: Frames, n: Memory, t: Frames, roots: seq<nat>, k: nat, mapped: seq<nat>, pages: seq<nat>, i: nat,
                     r: MapStatus, leak: Option<nat>)
    requires Consistent(m, s, roots) && k < |roots| && i < |pages| && Foreseen(m, s, roots[k], mapped, pages)
    requires Mappable(m, roots[k], pages)
    requires MapSpec(m, s, n, t, roots, k, PathOf(pages[i]), r, leak) && r == Verdict(m, s, roots[k], PathOf(pages[i]))
    requires r == Mapped ==> Free(t) == Free(s) - Cost(m, roots[k], PathOf(pages[i]))
    requires r == Mapped && Lookup(m, roots[k], PathOf(pages[i])).None? ==> TablesGrow(m, n, roots[k], PathOf(pages[i]))
    requires r == InvalidMapping ==> Free(t) == 0 && Lookup(n, roots[k], PathOf(pages[i])).None?
    ensures Foreseen(n, t, roots[k], if r == Mapped then With(mapped, pages[i]) else mapped, pages)
    ensures [r] + Predict(Free(t), if r == Mapped then With(mapped, pages[i]) else mapped, pages[i + 1..]) == Predict(Free(s), mapped, pages[i..])
  {
    hide Consistent, MappedFresh, Leaked, Lookup, Missing, PathOf, Free, Saved, TablesGrow;
    var p := pages[i];
    assert PageForeseen(m, s, roots[k], mapped, p);
    assert pages[i..][0] == p && pages[i..][1..] == pages[i + 1..];
    MapSpecKeeps(m, s, n, t, roots, k, PathOf(p), r, leak);
    if r == Mapped && p !in mapped {
      forall j | 0 <= j < |pages| ensures PageForeseen(n, t, roots[k], mapped + [p], pages[j]) {
        assert PageForeseen(m, s, roots[k], mapped, pages[j]);
        MappedForeseen(m, s, n, t, roots[k], mapped, p, pages[j]);
      }
    } else if r == InvalidMapping {
      forall j | 0 <= j < |pages| ensures PageForeseen(n, t, roots[k], mapped, pages[j]) {
        assert PageForeseen(m, s, roots[k], mapped, pages[j]);
        FailedForeseen(m, s, n, t, roots[k], mapped, p, pages[j]);
      }
    }
  }

  lemma FreshForeseen(n: Memory, t: Frames, root: nat, pages: seq<nat>)
    requires forall j :: 0 <= j < |pages| ==> Entries(n, root)[PathOf(pages[j])[0]] == UNUSED
    ensures Foreseen(n, t, root, [], pages)
  {
    hide PathOf;
  }

  /** Create an address space, try to map any pages in it, tear it down: no release ever panics,
      every frame that was in use keeps its contents, kernel tables included, and each mapping ends
      as the number of free frames beforehand foretells. Every bit and count is restored exactly
      if those frames do not run out half-way through a page; otherwise a single reference is lost. */
  method CreateUseDestroy(mc: Machine, pages: seq<nat>) returns (root: Option<nat>, statuses: seq<MapStatus>, ghost leaks: multiset<nat>)
    requires mc.Valid() && Count(mc.frames, mc.cr3) > 0
    requires forall i :: 0 <= i < |pages| ==> UserPage(mc.mem, mc.cr3, pages[i])
    modifies mc`frames, mc`mem, mc`roots
    ensures mc.Valid() && mc.roots == old(mc.roots)
    ensures root.None? <==> old(Free(mc.frames)) == 0
    ensures root.None? ==> mc.frames == old(mc.frames) && mc.mem == old(mc.mem)
    ensures root.Some? ==> statuses == Predict(old(Free(mc.frames)) - 1, [], pages)
    ensures forall x: nat :: Count(mc.frames, x) == old(Count(mc.frames, x)) + leaks[x]
    ensures |leaks| == if root.Some? && Strands(old(Free(mc.frames)) - 1, [], pages) then 1 else 0
    ensures mc.frames.busy == old(mc.frames.busy) && mc.frames.counts == old(mc.frames.counts) <==> leaks == multiset{}
    ensures forall g: nat :: old(Count(mc.frames, g)) > 0 ==> SameFrame(old(mc.mem), mc.mem, g)
  {
    hide RefsFrom, EntryRefs, TableFrom, EntryTable, Refs, IsTable, Sub, Lookup, Walk, Total, Inv, Free, Foreseen, Predict, Strands, PathOf, Gone;
    ghost var m, s, before := mc.mem, mc.frames, mc.roots;
    leaks, statuses := multiset{}, [];
    root := mc.CreateIsolatedPml4();
    if root.None? {
      RestoredIff(s, mc.frames, leaks);
      return;
    }
    FreshSession(m, s, mc.mem, mc.frames, before, root.value, mc.cr3);
    FreshForeseen(mc.mem, mc.frames, root.value, pages);
    statuses, leaks := MapAll(mc, root.value, pages, m, s, before);
    LeaksIff(Free(s) - 1, [], pages);
    ghost var n, t := mc.mem, mc.frames;
    var outcome := mc.DestroyUserAddressSpace(root.value, |before|);
    assert Without(before + [root.value], |before|) == before;
    SessionEnds(m, s, n, t, mc.mem, mc.frames, before, root.value, leaks);
    RestoredIff(s, mc.frames, leaks);
  }

  /** The pages can be mapped in the address space `root`. */
  ghost predicate Mappable(m: Memory, root: nat, pages: seq<nat>) {
    forall j :: 0 <= j < |pages| ==> pages[j] < USER_PAGES && Enters(m, root, PathOf(pages[j]))
  }

  /** Tries to map all pages, one after the other. */
  method MapAll(mc: Machine, root: nat, pages: seq<nat>, ghost m: Memory, ghost s: Frames, ghost before: seq<nat>)
    returns (statuses: seq<MapStatus>, ghost leaks: multiset<nat>)
    requires mc.roots == before + [root] && Session(m, s, mc.mem, mc.frames, before, root, multiset{})
    requires Mappable(mc.mem, root, pages) && Foreseen(mc.mem, mc.frames, root, [], pages)
    modifies mc`frames, mc`mem
    ensures Session(m, s, mc.mem, mc.frames, before, root, leaks) && |leaks| == Failures(statuses)
    ensures statuses == Predict(old(Free(mc.frames)), [], pages)
  {
    hide Consistent, Lookup, Free, Foreseen, Predict, TablesGrow, Verdict, Cost, MapSpec, PathOf, Session, Mappable, With, IsPath, IsIndices, Enters;
    ghost var mapped, foretold := [], Predict(Free(mc.frames), [], pages);
    leaks, statuses := multiset{}, [];
    var i := 0;
    assert pages[i..] == pages && statuses + foretold == foretold;
    while i < |pages|
      invariant 0 <= i <= |pages| && |leaks| == Failures(statuses) && Session(m, s, mc.mem, mc.frames, before, root, leaks)
      invariant Mappable(mc.mem, root, pages) && Foreseen(mc.mem, mc.frames, root, mapped, pages)
      invariant statuses + Predict(Free(mc.frames), mapped, pages[i..]) == foretold
    {
      ghost var n, t := mc.mem, mc.frames;
      SessionPage(m, s, n, t, before, root, leaks, pages, i);
      var status, leak := mc.AllocateAndMapUserPage(root, pages[i], |before|);
      ForeseenStep(n, t, mc.mem, mc.frames, mc.roots, |before|, mapped, pages, i, status, leak);
      SessionMaps(m, s, n, t, mc.mem, mc.frames, before, root, leaks, PathOf(pages[i]), status, leak);
      StillMappable(n, t, mc.mem, mc.frames, mc.roots, |before|, pages, i, status, leak);
      assert statuses + ([status] + Predict(Free(mc.frames), if status == Mapped then With(mapped, pages[i]) else mapped, pages[i + 1..])) == foretold;
      if status == Mapped { mapped := With(mapped, pages[i]); }
      leaks, statuses := Lost(leaks, leak), statuses + [status];
      i := i + 1;
    }
    NothingPredicted(Free(mc.frames), mapped, pages[i..]);
  }

  lemma SessionPage(m: Memory, s: Frames, n: Memory, t: Frames, roots: seq<nat>, root: nat, leaks: multiset<nat>, pages: seq<nat>, i: nat)
    requires Session(m, s, n, t, roots, root, leaks) && Mappable(n, root, pages) && i < |pages|
    ensures Consistent(n, t, roots + [root]) && pages[i] < USER_PAGES && IsPath(PathOf(pages[i])) && Enters(n, root, PathOf(pages[i]))
  {}

  lemma StillMappable(m: Memory, s: Frames, n: Memory, t: Frames, roots: seq<nat>, k: nat, pages: seq<nat>, i: nat, r: MapStatus, leak: Option<nat>)
    requires Consistent(m, s, roots) && k < |roots| && i < |pages| && Mappable(m, roots[k], pages)
    requires MapSpec(m, s, n, t, roots, k, PathOf(pages[i]), r, leak)
    ensures Mappable(n, roots[k], pages) && (leak.Some? <==> r == InvalidMapping)
  {
    hide Consistent, MapSpec;
    MapSpecKeeps(m, s, n, t, roots, k, PathOf(pages[i]), r, leak);
  }

  lemma NothingPredicted(free: nat, mapped: seq<nat>, pages: seq<nat>)
    requires pages == []
    ensures Predict(free, mapped, pages) == []
  {}

  /** How many mappings failed with `InvalidMapping`. */
  function Failures(statuses: seq<MapStatus>): nat {
    if statuses == [] then 0
    else Failures(statuses[..|statuses| - 1]) + if statuses[|statuses| - 1] == InvalidMapping then 1 else 0
  }

  /** Bits and counts are what they were exactly if nothing leaked. */
  lemma RestoredIff(s: Frames, t: Frames, leaks: multiset<nat>)
    requires Inv(s) && Inv(t) && |s.counts| == |t.counts| && forall x: nat :: Count(t, x) == Count(s, x) + leaks[x]
    ensures t.busy == s.busy && t.counts == s.counts <==> leaks == multiset{}
  {
    if leaks == multiset{} {
      SameBits(s, t);
    } else {
      var x :| x in leaks;
      assert Count(t, x) != Count(s, x);
    }
  }

  lemma FreshSession(m: Memory, s: Frames, n: Memory, t: Frames, roots: seq<nat>, root: nat, active: nat)
    requires Consistent(n, t, roots + [root]) && KeepsCounts(s, t) && Count(s, root) == 0 && OnlyAt(m, n, root)
    requires IsolatedCopy(Entries(m, active), Entries(n, root))
    requires forall x: nat :: Outside(n, t, roots + [root], x) == Outside(m, s, roots, x)
    ensures Session(m, s, n, t, roots, root, multiset{})
  {
    hide RefsFrom, EntryRefs, TableFrom, EntryTable;
    forall g: nat | Structural(n, root, g) ensures Count(s, g) == 0 {
      NothingLive(n, root, 0, g);
    }
    forall g: nat | Count(s, g) > 0 ensures SameFrame(m, n, g) {}
  }

  // ------------------------------------------------------------------
  // Slots shared with the kernel
  // ------------------------------------------------------------------

  /** Mapping into a slot shared with the kernel makes the kernel's table part of the task's
      tree without a reference of its own, so teardown would release it. */
  lemma SharedSlotHazard(m: Memory, s: Frames, root: nat, path: seq<nat>, leaf: Entry)
    requires IsPath(path) && |path| == 4 && Sub(m, s, root, 4) && Live(leaf) && Good(leaf)
    requires var e := Entries(m, root)[path[0]];
      KernelSide(e) == e != UNUSED && !e.huge && Count(s, e.frame) > 0 && Refs(m, root, 4, e.frame) == 0
    ensures var (r, e) := (MapTo(m, s, root, path, leaf), Entries(m, root)[path[0]]);
      Others(r.mem, r.frames, root, 4, e.frame) < Others(m, s, root, 4, e.frame)
  {
    var e, k := Entries(m, root)[path[0]], path[0];
    var n := SetEntry(m, root, k, WithFlags(e, leaf));
    MapToPersists(n, s, e.frame, path[1..], leaf, root, k);
    MapToPersists(n, s, e.frame, path[1..], leaf, e.frame, 0);
    var o := MapTo(m, s, root, path, leaf).mem;
    assert EntryRefs(o, root, 4, k, e.frame) >= 1;
    EntryWithin(o, root, 4, 0, k, e.frame);
  }

  /** Mapping a page conserves the references held outside the task's tree, up to the mapped
      frame's own, exactly when the page's PML4 slot is not one the kernel shares. */
  lemma ConservesIffOwnSlot(m: Memory, s: Frames, root: nat, path: seq<nat>, leaf: Entry)
    requires IsPath(path) && |path| == 4 && Sub(m, s, root, 4) && Live(leaf) && Good(leaf)
    requires leaf.frame != root && Others(m, s, root, 4, leaf.frame) >= 1
    requires var e := Entries(m, root)[path[0]];
      Good(e) || (KernelSide(e) == e && !e.huge && Count(s, e.frame) > 0 && Refs(m, root, 4, e.frame) == 0 && e.frame != leaf.frame)
    ensures var r := MapTo(m, s, root, path, leaf);
      (forall x: nat :: Others(r.mem, r.frames, root, 4, x)
        == Others(m, s, root, 4, x) - Delta(if r.ok then Takes(leaf.frame) else Same, x)) <==> Enters(m, root, path)
  {
    hide RefsFrom, EntryRefs, TableFrom, EntryTable, MapTo;
    var e := Entries(m, root)[path[0]];
    if Good(e) {
      MapToEvolves(m, s, root, path, leaf);
    } else {
      SharedSlotHazard(m, s, root, path, leaf);
    }
  }
}
