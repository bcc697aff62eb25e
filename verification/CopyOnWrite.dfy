/** Resolving a write fault on a shared page (src/mm/memory.rs, `resolve_cow_fault`). */
module CopyOnWrite {
  import opened Common
  import opened FrameState
  import opened PageTables
  import opened Paging
  import opened Lookups
  import opened World
  import Sums
  import opened AddressSpaces
  import opened Machines

  /** Overwrites the level-1 entry that `path` leads to; `update_flags` and `unmap` do this. */
  function SetLeaf(m: Memory, f: nat, path: seq<nat>, e: Entry): Memory
    requires IsIndices(path) && path != []
    decreases |path|
  {
    if |path| == 1 then SetEntry(m, f, path[0], e)
    else SetLeaf(m, Entries(m, f)[path[0]].frame, path[1..], e)
  }

  /** The new entry keeps the page on its frame or unmaps it. */
  predicate Replaces(was: Entry, e: Entry) {
    e == UNUSED || (Live(e) && Good(e) && e.frame == was.frame)
  }

  function ChangeOf(was: Entry, e: Entry): Change {
    if e == UNUSED then Gives(was.frame) else Same
  }

  lemma ReplaceRefs(m: Memory, f: nat, k: nat, e: Entry, x: nat)
    requires k < 512 && Live(Entries(m, f)[k]) && Replaces(Entries(m, f)[k], e)
    ensures Refs(SetEntry(m, f, k, e), f, 1, x) == Refs(m, f, 1, x) + Delta(ChangeOf(Entries(m, f)[k], e), x)
  {
    OneChange(m, SetEntry(m, f, k, e), f, 1, 0, k, x);
  }

  lemma ReplaceEvolves(m: Memory, s: Frames, f: nat, k: nat, e: Entry)
    requires k < 512 && Sub(m, s, f, 1) && Live(Entries(m, f)[k]) && Replaces(Entries(m, f)[k], e)
    ensures Evolves(m, s, SetEntry(m, f, k, e), s, f, 1, ChangeOf(Entries(m, f)[k], e))
  {
    hide RefsFrom, EntryRefs, TableFrom, EntryTable;
    var n := SetEntry(m, f, k, e);
    forall x: nat
      ensures Refs(n, f, 1, x) == Refs(m, f, 1, x) + Delta(ChangeOf(Entries(m, f)[k], e), x)
      ensures !IsTable(m, f, 1, x) && !IsTable(n, f, 1, x)
    {
      ReplaceRefs(m, f, k, e, x);
      NoTablesAtLevelOne(m, f, 0, x);
      NoTablesAtLevelOne(n, f, 0, x);
    }
  }

  /** Replacing a leaf changes the references by exactly the one it may give up. */
  lemma {:induction false} SetLeafEvolves(m: Memory, s: Frames, f: nat, path: seq<nat>, e: Entry)
    requires IsPath(path) && Sub(m, s, f, |path|) && Enters(m, f, path) && Lookup(m, f, path).Some?
    requires Replaces(Lookup(m, f, path).value, e)
    ensures Evolves(m, s, SetLeaf(m, f, path, e), s, f, |path|, ChangeOf(Lookup(m, f, path).value, e))
    decreases |path|
  {
    hide RefsFrom, EntryRefs, TableFrom, EntryTable;
    if |path| == 1 {
      ReplaceEvolves(m, s, f, path[0], e);
    } else {
      var c := Entries(m, f)[path[0]].frame;
      Descend(m, s, f, |path|, path[0], c);
      SetLeafEvolves(m, s, c, path[1..], e);
      AscendEvolves(m, s, SetLeaf(m, f, path, e), s, f, |path|, path[0], c, ChangeOf(Lookup(m, f, path).value, e));
    }
  }

  /** The replaced leaf is found where the old one was, and no other page is affected. */
  lemma {:induction false} SetLeafLookups(m: Memory, s: Frames, f: nat, path: seq<nat>, e: Entry, q: seq<nat>)
    requires IsPath(path) && Sub(m, s, f, |path|) && Enters(m, f, path) && Lookup(m, f, path).Some?
    requires Replaces(Lookup(m, f, path).value, e)
    requires IsPath(q) && |q| == |path| && Enters(m, f, q)
    ensures Walk(SetLeaf(m, f, path, e), f, q) == if q == path then Some(e) else Walk(m, f, q)
    decreases |path|
  {
    hide RefsFrom, EntryRefs, TableFrom, EntryTable;
    if |path| > 1 {
      var c := Entries(m, f)[path[0]].frame;
      var n := SetLeaf(m, f, path, e);
      Descend(m, s, f, |path|, path[0], c);
      SetLeafEvolves(m, s, c, path[1..], e);
      SiblingsSame(m, s, n, s, f, |path|, path[0], c, ChangeOf(Lookup(m, f, path).value, e));
      if q[0] == path[0] {
        assert q == [q[0]] + q[1..] && path == [path[0]] + path[1..];
        SetLeafLookups(m, s, c, path[1..], e, q[1..]);
      } else {
        SameLookup(m, n, s, f, q);
      }
    } else {
      assert q != path ==> q[0] != path[0];
    }
  }

  /** The tables above the last give write access; the page itself may be read-only. */
  predicate OpenAbove(m: Memory, f: nat, path: seq<nat>)
    requires IsIndices(path)
    decreases |path|
  {
    path != [] &&
    var e := Entries(m, f)[path[0]];
    |path| == 1 || (e.present && e.user && e.writable && !e.huge && OpenAbove(m, e.frame, path[1..]))
  }

  /** A page made writable can be written exactly if the tables above let it. */
  lemma {:induction false} SetLeafAccess(m: Memory, s: Frames, f: nat, path: seq<nat>, e: Entry)
    requires IsPath(path) && Sub(m, s, f, |path|) && Enters(m, f, path) && Lookup(m, f, path).Some?
    requires Replaces(Lookup(m, f, path).value, e) && e.writable
    ensures WriteAccess(SetLeaf(m, f, path, e), f, path) <==> OpenAbove(m, f, path)
    decreases |path|
  {
    hide RefsFrom, EntryRefs, TableFrom, EntryTable;
    if |path| > 1 {
      var c := Entries(m, f)[path[0]].frame;
      var n := SetLeaf(m, f, path, e);
      Descend(m, s, f, |path|, path[0], c);
      SetLeafEvolves(m, s, c, path[1..], e);
      SiblingsSame(m, s, n, s, f, |path|, path[0], c, ChangeOf(Lookup(m, f, path).value, e));
      SetLeafAccess(m, s, c, path[1..], e);
    }
  }

  /** Mapping where the tables exist already and the slot is empty needs no frame and succeeds. */
  lemma {:induction false} RemapSucceeds(m: Memory, s: Frames, f: nat, path: seq<nat>, leaf: Entry)
    requires IsPath(path) && Sub(m, s, f, |path|) && Enters(m, f, path) && Walk(m, f, path) == Some(UNUSED)
    requires Live(leaf) && Good(leaf) && leaf.frame != f && Others(m, s, f, |path|, leaf.frame) >= 1
    ensures MapTo(m, s, f, path, leaf).ok && MapTo(m, s, f, path, leaf).frames == s
    decreases |path|
  {
    hide RefsFrom, EntryRefs, TableFrom, EntryTable;
    if |path| > 1 {
      var e := Entries(m, f)[path[0]];
      var n := SetEntry(m, f, path[0], WithFlags(e, leaf));
      FlagEvolves(m, s, f, |path|, path[0], WithFlags(e, leaf));
      FlagWalk(m, s, f, path, leaf);
      BelowReady(n, s, f, path, leaf, e.frame);
      RemapSucceeds(n, s, e.frame, path[1..], leaf);
    }
  }

  lemma FlagWalk(m: Memory, s: Frames, f: nat, path: seq<nat>, leaf: Entry)
    requires IsPath(path) && |path| > 1 && Sub(m, s, f, |path|) && Links(m, f, |path|, path[0], Entries(m, f)[path[0]].frame)
    ensures var e := Entries(m, f)[path[0]];
      Walk(SetEntry(m, f, path[0], WithFlags(e, leaf)), e.frame, path[1..]) == Walk(m, e.frame, path[1..])
  {
    hide RefsFrom, EntryRefs, TableFrom, EntryTable;
    var e := Entries(m, f)[path[0]];
    var n := SetEntry(m, f, path[0], WithFlags(e, leaf));
    forall t | EntryTable(m, f, |path|, path[0], t) ensures Entries(m, t) == Entries(n, t) {
      TableFacts(m, s, f, |path|, path[0], t);
    }
    SameLookupBelow(m, n, s, f, path, e.frame);
  }

  // ------------------------------------------------------------------
  // The repair
  // ------------------------------------------------------------------

  /** The page a fault concerns: a mapped page of the address space `roots[k]`. */
  ghost predicate Faults(m: Memory, s: Frames, roots: seq<nat>, k: nat, path: seq<nat>) {
    && Consistent(m, s, roots) && k < |roots| && IsPath(path) && |path| == 4
    && Enters(m, roots[k], path) && Lookup(m, roots[k], path).Some?
  }

  /** The references outside page tables are as before, every other page of every address space
      translates as before, and frames in use other than this space's tables keep their bytes. */
  ghost predicate CowKeeps(m: Memory, s: Frames, n: Memory, t: Frames, roots: seq<nat>, k: nat, path: seq<nat>)
    requires k < |roots|
  {
    && Consistent(n, t, roots)
    && (forall x: nat :: Outside(n, t, roots, x) == Outside(m, s, roots, x))
    && (forall j, q :: 0 <= j < |roots| && IsPath(q) && |q| == 4 && (j != k || q != path) && Enters(m, roots[j], q) ==>
          Lookup(n, roots[j], q) == Lookup(m, roots[j], q))
    && (forall g: nat :: Count(s, g) > 0 && !Structural(m, roots[k], g) ==> SameFrame(m, n, g))
  }

  /** The page is writable and its frame is referenced by this one mapping only. */
  ghost predicate SoleWriter(n: Memory, t: Frames, roots: seq<nat>, k: nat, path: seq<nat>)
    requires k < |roots| && IsIndices(path)
  {
    var e := Lookup(n, roots[k], path);
    e.Some? && e.value.writable && Count(t, e.value.frame) == 1 && Total(n, roots, e.value.frame) == 1
  }

  /** A mapped page accounts for a reference of its address space. */
  lemma MappedIsOwned(m: Memory, s: Frames, roots: seq<nat>, k: nat, path: seq<nat>)
    requires Faults(m, s, roots, k, path)
    ensures var x := Lookup(m, roots[k], path).value.frame;
      1 <= Total(m, roots, x) <= Count(s, x) && Live(Lookup(m, roots[k], path).value) && Good(Lookup(m, roots[k], path).value)
  {
    hide RefsFrom, EntryRefs, TableFrom, EntryTable;
    var x := Lookup(m, roots[k], path).value.frame;
    assert Sub(m, s, roots[k], 4);
    LookupIsRef(m, s, roots[k], path);
    LeafIsGood(m, s, roots[k], path);
    EntryWithin(m, roots[k], 4, 0, path[0], x);
    Sums.SumOne(Shares(m, roots, x), k);
  }

  lemma {:induction false} LeafIsGood(m: Memory, s: Frames, f: nat, path: seq<nat>)
    requires IsPath(path) && Sub(m, s, f, |path|) && Enters(m, f, path) && Lookup(m, f, path).Some?
    ensures Live(Lookup(m, f, path).value) && Good(Lookup(m, f, path).value)
    decreases |path|
  {
    hide RefsFrom, EntryRefs, TableFrom, EntryTable;
    if |path| > 1 {
      Descend(m, s, f, |path|, path[0], Entries(m, f)[path[0]].frame);
      LeafIsGood(m, s, Entries(m, f)[path[0]].frame, path[1..]);
    }
  }

  /** Replacing the faulting page's entry touches no other page and no frame outside its tables. */
  lemma ReplacedPages(m: Memory, s: Frames, roots: seq<nat>, k: nat, path: seq<nat>, e: Entry, j: nat, q: seq<nat>)
    requires Faults(m, s, roots, k, path) && Replaces(Lookup(m, roots[k], path).value, e)
    requires j < |roots| && IsPath(q) && |q| == 4 && Enters(m, roots[j], q)
    ensures var n := SetLeaf(m, roots[k], path, e);
      && (j != k || q != path ==> Lookup(n, roots[j], q) == Lookup(m, roots[j], q))
      && (j == k && q == path ==> Walk(n, roots[j], q) == Some(e))
      && Enters(n, roots[j], q)
  {
    hide RefsFrom, EntryRefs, TableFrom, EntryTable;
    assert Sub(m, s, roots[k], 4);
    SetLeafEvolves(m, s, roots[k], path, e);
    if j == k {
      SetLeafLookups(m, s, roots[k], path, e, q);
    } else {
      OtherPages(m, s, SetLeaf(m, roots[k], path, e), s, roots, k, ChangeOf(Lookup(m, roots[k], path).value, e), j, q);
    }
  }

  /** The sole owner's page is made writable in place. */
  lemma SoleOwner(m: Memory, s: Frames, roots: seq<nat>, k: nat, path: seq<nat>)
    requires Faults(m, s, roots, k, path) && Count(s, Lookup(m, roots[k], path).value.frame) == 1
    ensures var e := Lookup(m, roots[k], path).value.(writable := true);
      var n := SetLeaf(m, roots[k], path, e);
      CowKeeps(m, s, n, s, roots, k, path) && SoleWriter(n, s, roots, k, path) && Lookup(n, roots[k], path) == Some(e)
  {
    hide RefsFrom, EntryRefs, TableFrom, EntryTable, SetLeaf, Sub;
    var e := Lookup(m, roots[k], path).value.(writable := true);
    var n := SetLeaf(m, roots[k], path, e);
    MappedIsOwned(m, s, roots, k, path);
    assert Sub(m, s, roots[k], 4);
    SetLeafEvolves(m, s, roots[k], path, e);
    WorldStep(m, s, n, s, roots, k, Same);
    forall j, q | 0 <= j < |roots| && IsPath(q) && |q| == 4 && (j != k || q != path) && Enters(m, roots[j], q)
      ensures Lookup(n, roots[j], q) == Lookup(m, roots[j], q)
    {
      ReplacedPages(m, s, roots, k, path, e, j, q);
    }
    ReplacedPages(m, s, roots, k, path, e, k, path);
    assert Outside(n, s, roots, e.frame) == Outside(m, s, roots, e.frame);
  }

  // ------------------------------------------------------------------
  // Cloning a shared page
  // ------------------------------------------------------------------

  /** An intermediate state of the clone: nothing but the faulting page is affected yet. */
  ghost predicate Stage(m: Memory, s: Frames, n: Memory, t: Frames, roots: seq<nat>, k: nat, path: seq<nat>)
    requires k < |roots| && IsPath(path)
  {
    && Consistent(n, t, roots) && KeepsCounts(s, t) && Enters(n, roots[k], path)
    && (forall j, q :: 0 <= j < |roots| && IsPath(q) && |q| == 4 && (j != k || q != path) && Enters(m, roots[j], q) ==>
          Lookup(n, roots[j], q) == Lookup(m, roots[j], q) && Enters(n, roots[j], q))
    && (forall g: nat :: Count(s, g) > 0 && !Structural(m, roots[k], g) ==>
          SameFrame(m, n, g) && !Structural(n, roots[k], g))
  }

  lemma StageEvolves(m: Memory, s: Frames, n: Memory, t: Frames, o: Memory, u: Frames, roots: seq<nat>, k: nat, path: seq<nat>, d: Change)
    requires k < |roots| && IsPath(path) && Stage(m, s, n, t, roots, k, path) && Evolves(n, t, o, u, roots[k], 4, d)
    requires d.Takes? ==> Outside(n, t, roots, d.frame) >= 1
    requires forall q :: IsPath(q) && |q| == 4 && q != path && Enters(n, roots[k], q) ==> Lookup(o, roots[k], q) == Lookup(n, roots[k], q)
    ensures Stage(m, s, o, u, roots, k, path)
  {
    hide RefsFrom, EntryRefs, TableFrom, EntryTable, Walk, Sub;
    WorldStep(n, t, o, u, roots, k, d);
    forall j, q | 0 <= j < |roots| && IsPath(q) && |q| == 4 && (j != k || q != path) && Enters(m, roots[j], q)
      ensures Lookup(o, roots[j], q) == Lookup(m, roots[j], q) && Enters(o, roots[j], q)
    {
      assert Lookup(n, roots[j], q) == Lookup(m, roots[j], q);
      if j != k { OtherPages(n, t, o, u, roots, k, d, j, q); }
    }
    forall g: nat | Count(s, g) > 0 && !Structural(m, roots[k], g)
      ensures SameFrame(m, o, g) && !Structural(o, roots[k], g)
    {
      assert SameFrame(m, n, g) && !Structural(n, roots[k], g) && Count(t, g) > 0;
    }
  }

  /** The copy lands in a frame that was free. */
  lemma CopyStage(m: Memory, s: Frames, roots: seq<nat>, k: nat, path: seq<nat>, d: nat, c: Content)
    requires Faults(m, s, roots, k, path) && Allocate(s).1 == Some(d)
    ensures var n, t := m[d := c], Allocate(s).0;
      && Stage(m, s, n, t, roots, k, path) && Faults(n, t, roots, k, path)
      && Lookup(n, roots[k], path) == Lookup(m, roots[k], path) && Count(s, d) == 0
      && forall x: nat :: Outside(n, t, roots, x) == Outside(m, s, roots, x) + if x == d then 1 else 0
  {
    hide RefsFrom, EntryRefs, TableFrom, EntryTable, Walk, Sub, Refs, IsTable, Entries;
    var n, t := m[d := c], Allocate(s).0;
    WorldAlloc(m, s, roots);
    FreeIsPlain(m, s, roots, d);
    WorldWrite(m, t, roots, d, c);
    forall j, q | 0 <= j < |roots| && IsPath(q) && |q| == 4 && Enters(m, roots[j], q)
      ensures Lookup(n, roots[j], q) == Lookup(m, roots[j], q) && Enters(n, roots[j], q)
    {
      WriteKeepsPages(m, t, roots, d, c, j, q);
    }
    forall g: nat | Count(s, g) > 0 && !Structural(m, roots[k], g)
      ensures SameFrame(m, n, g) && !Structural(n, roots[k], g)
    {
      WriteTables(m, roots[k], d, c, g);
    }
  }

  lemma WriteTables(m: Memory, r: nat, d: nat, c: Content, g: nat)
    requires !Structural(m, r, d)
    ensures Structural(m[d := c], r, g) <==> Structural(m, r, g)
  {
    hide RefsFrom, EntryRefs, TableFrom, EntryTable;
    forall u: nat | Structural(m, r, u) ensures Entries(m, u) == Entries(m[d := c], u) {}
    SameSpace(m, m[d := c], r, g);
  }

  lemma UnmapStage(m: Memory, s: Frames, n: Memory, t: Frames, roots: seq<nat>, k: nat, path: seq<nat>)
    requires Faults(n, t, roots, k, path) && Stage(m, s, n, t, roots, k, path)
    ensures var x := Lookup(n, roots[k], path).value.frame;
      var o := SetLeaf(n, roots[k], path, UNUSED);
      && Stage(m, s, o, t, roots, k, path) && Walk(o, roots[k], path) == Some(UNUSED)
      && forall y: nat :: Outside(o, t, roots, y) == Outside(n, t, roots, y) + if y == x then 1 else 0
  {
    hide RefsFrom, EntryRefs, TableFrom, EntryTable;
    var x := Lookup(n, roots[k], path).value.frame;
    var o := SetLeaf(n, roots[k], path, UNUSED);
    assert Sub(n, t, roots[k], 4);
    SetLeafEvolves(n, t, roots[k], path, UNUSED);
    WorldStep(n, t, o, t, roots, k, Gives(x));
    forall q | IsPath(q) && |q| == 4 && q != path && Enters(n, roots[k], q) ensures Lookup(o, roots[k], q) == Lookup(n, roots[k], q) {
      ReplacedPages(n, t, roots, k, path, UNUSED, k, q);
    }
    StageEvolves(m, s, n, t, o, t, roots, k, path, Gives(x));
    ReplacedPages(n, t, roots, k, path, UNUSED, k, path);
  }

  lemma RemapStage(m: Memory, s: Frames, n: Memory, t: Frames, roots: seq<nat>, k: nat, path: seq<nat>, leaf: Entry)
    requires k < |roots| && IsPath(path) && |path| == 4 && Stage(m, s, n, t, roots, k, path)
    requires Walk(n, roots[k], path) == Some(UNUSED) && Live(leaf) && Good(leaf) && Outside(n, t, roots, leaf.frame) >= 1
    ensures var r := MapTo(n, t, roots[k], path, leaf);
      && r.ok && r.frames == t && Stage(m, s, r.mem, t, roots, k, path) && Lookup(r.mem, roots[k], path) == Some(leaf)
      && (leaf.writable ==> WriteAccess(r.mem, roots[k], path))
      && forall y: nat :: Outside(r.mem, t, roots, y) == Outside(n, t, roots, y) - if y == leaf.frame then 1 else 0
  {
    hide RefsFrom, EntryRefs, TableFrom, EntryTable;
    TakesReady(n, t, roots, k, leaf.frame);
    RemapSucceeds(n, t, roots[k], path, leaf);
    MapToEvolves(n, t, roots[k], path, leaf);
    MapToFound(n, t, roots[k], path, leaf);
    if leaf.writable { MapToWritable(n, t, roots[k], path, leaf); }
    hide WriteAccess;
    var r := MapTo(n, t, roots[k], path, leaf);
    WorldStep(n, t, r.mem, t, roots, k, Takes(leaf.frame));
    forall q | IsPath(q) && |q| == 4 && q != path && Enters(n, roots[k], q) ensures Lookup(r.mem, roots[k], q) == Lookup(n, roots[k], q) {
      MapToKeeps(n, t, roots[k], path, leaf, q);
    }
    StageEvolves(m, s, n, t, r.mem, t, roots, k, path, Takes(leaf.frame));
  }

  /** A reference held outside page tables may be moved into any address space. */
  lemma TakesReady(n: Memory, t: Frames, roots: seq<nat>, k: nat, d: nat)
    requires Consistent(n, t, roots) && k < |roots| && Outside(n, t, roots, d) >= 1
    ensures Sub(n, t, roots[k], 4) && d != roots[k] && Others(n, t, roots[k], 4, d) >= 1
  {
    hide RefsFrom, EntryRefs, TableFrom, EntryTable;
    assert Sub(n, t, roots[k], 4);
    Sums.SumOne(Shares(n, roots, d), k);
  }

  // ------------------------------------------------------------------
  // Bytes
  // ------------------------------------------------------------------

  /** The 64-bit word of an entry: frame address plus the PRESENT, WRITABLE, USER and HUGE bits. */
  function EntryWord(e: Entry): nat {
    e.frame * 4096 + (if e.present then 1 else 0) + (if e.writable then 2 else 0)
    + (if e.user then 4 else 0) + (if e.huge then 128 else 0)
  }

  /** Byte `i`, least significant first, of a word. */
  function WordByte(w: nat, i: nat): byte {
    if i == 0 then w % 256 else WordByte(w / 256, i - 1)
  }

  /** The 4096 bytes of frame `g`. */
  function BytesOf(m: Memory, g: nat): (r: seq<byte>)
    ensures |r| == FRAME_SIZE
  {
    if g in m && m[g].Data? && |m[g].bytes| == FRAME_SIZE then m[g].bytes
    else seq(FRAME_SIZE, i requires 0 <= i < FRAME_SIZE => WordByte(EntryWord(Entries(m, g)[i / 8]), i % 8))
  }

  /** What the clone copies: 4096 bytes from the faulting address on, not from its page's start. */
  function CopiedBytes(m: Memory, x: nat, offset: nat): (r: seq<byte>)
    requires offset < FRAME_SIZE
    ensures |r| == FRAME_SIZE
  {
    BytesOf(m, x)[offset..] + BytesOf(m, x + 1)[..offset]
  }

  /** Byte `a` of physical memory. */
  function PhysicalByte(m: Memory, a: nat): byte {
    BytesOf(m, a / FRAME_SIZE)[a % FRAME_SIZE]
  }

  /** These are consecutive bytes of physical memory, running on into the next frame. */
  lemma CopiedIsPhysical(m: Memory, x: nat, offset: nat, i: nat)
    requires offset < FRAME_SIZE && i < FRAME_SIZE
    ensures CopiedBytes(m, x, offset)[i] == PhysicalByte(m, x * FRAME_SIZE + offset + i)
  {
    hide BytesOf;
    var a := x * FRAME_SIZE + offset + i;
    if offset + i < FRAME_SIZE {
      assert a / FRAME_SIZE == x && a % FRAME_SIZE == offset + i;
    } else {
      assert a / FRAME_SIZE == x + 1 && a % FRAME_SIZE == offset + i - FRAME_SIZE;
    }
  }

  /** The bytes of a mapped page. */
  function PageBytes(m: Memory, root: nat, path: seq<nat>): seq<byte>
    requires IsIndices(path) && Lookup(m, root, path).Some?
  {
    BytesOf(m, Lookup(m, root, path).value.frame)
  }

  /** The clone holds the page's contents, whatever memory holds, exactly for page-aligned faults. */
  lemma ClonePreservesIff(x: nat, offset: nat)
    requires offset < FRAME_SIZE
    ensures (forall m: Memory :: CopiedBytes(m, x, offset) == BytesOf(m, x)) <==> offset == 0
  {
    if offset == 0 {
      forall m: Memory ensures CopiedBytes(m, x, 0) == BytesOf(m, x) {}
    } else {
      var page := Zeros(FRAME_SIZE)[offset := 1];
      var m: Memory := map[x := Data(page)];
      assert CopiedBytes(m, x, offset)[0] == 1 && BytesOf(m, x)[0] == 0;
    }
  }

  // ------------------------------------------------------------------
  // The whole repair
  // ------------------------------------------------------------------

  /** The state after cloning the page on `path` into frame `d`. */
  function Clone(m: Memory, s: Frames, root: nat, path: seq<nat>, offset: nat, d: nat): (Memory, Frames)
    requires Inv(s) && IsPath(path) && offset < FRAME_SIZE && Lookup(m, root, path).Some?
  {
    var e := Lookup(m, root, path).value;
    AllocatePreserves(s);
    var t := Allocate(s).0;
    var n := SetLeaf(m[d := Data(CopiedBytes(m, e.frame, offset))], root, path, UNUSED);
    var r := MapTo(n, t, root, path, e.(frame := d, writable := true));
    (r.mem, Deallocate(r.frames, e.frame).0)
  }

  lemma CloneStages(m: Memory, s: Frames, roots: seq<nat>, k: nat, path: seq<nat>, offset: nat, d: nat)
    requires Faults(m, s, roots, k, path) && Allocate(s).1 == Some(d) && offset < FRAME_SIZE
    ensures var e := Lookup(m, roots[k], path).value;
      var n, t := m[d := Data(CopiedBytes(m, e.frame, offset))], Allocate(s).0;
      var o := SetLeaf(n, roots[k], path, UNUSED);
      var r := MapTo(o, t, roots[k], path, e.(frame := d, writable := true));
      && r.ok && r.frames == t && Stage(n, t, r.mem, t, roots, k, path) && Stage(m, s, n, t, roots, k, path)
      && Lookup(r.mem, roots[k], path) == Some(e.(frame := d, writable := true)) && Count(s, d) == 0 && WriteAccess(r.mem, roots[k], path)
      && (forall y: nat :: Outside(r.mem, t, roots, y) == Outside(m, s, roots, y) + if y == e.frame then 1 else 0)
  {
    hide RefsFrom, EntryRefs, TableFrom, EntryTable, Walk, Sub, MapTo, SetLeaf, WriteAccess;
    var e := Lookup(m, roots[k], path).value;
    var c := Data(CopiedBytes(m, e.frame, offset));
    var n, t := m[d := c], Allocate(s).0;
    MappedIsOwned(m, s, roots, k, path);
    CopyStage(m, s, roots, k, path, d, c);
    StageRefl(n, t, roots, k, path);
    UnmapStage(n, t, n, t, roots, k, path);
    var o := SetLeaf(n, roots[k], path, UNUSED);
    assert Outside(m, s, roots, d) == 0 by { assert Total(m, roots, d) <= Count(s, d); }
    RemapStage(n, t, o, t, roots, k, path, e.(frame := d, writable := true));
  }

  lemma StageRefl(n: Memory, t: Frames, roots: seq<nat>, k: nat, path: seq<nat>)
    requires Faults(n, t, roots, k, path)
    ensures Stage(n, t, n, t, roots, k, path)
  {
    hide RefsFrom, EntryRefs, TableFrom, EntryTable, Walk, Sub;
  }

  /** Cloning a shared page: the faulting page moves to its own writable copy, one reference to
      the shared frame is dropped, and nothing else changes. */
  lemma CloneShared(m: Memory, s: Frames, roots: seq<nat>, k: nat, path: seq<nat>, offset: nat, d: nat)
    requires Faults(m, s, roots, k, path) && Allocate(s).1 == Some(d) && offset < FRAME_SIZE
    ensures var e := Lookup(m, roots[k], path).value;
      var (n, t) := Clone(m, s, roots[k], path, offset, d);
      && CowKeeps(m, s, n, t, roots, k, path)
      && Lookup(n, roots[k], path) == Some(e.(frame := d, writable := true))
      && BytesOf(n, d) == CopiedBytes(m, e.frame, offset)
  {
    hide RefsFrom, EntryRefs, TableFrom, EntryTable, Walk, Sub, MapTo, SetLeaf, CopiedBytes, Refs, IsTable, WriteAccess;
    CloneStages(m, s, roots, k, path, offset, d);
    var e := Lookup(m, roots[k], path).value;
    var n1, t1 := m[d := Data(CopiedBytes(m, e.frame, offset))], Allocate(s).0;
    var r := MapTo(SetLeaf(n1, roots[k], path, UNUSED), t1, roots[k], path, e.(frame := d, writable := true));
    assert Outside(m, s, roots, e.frame) >= 0 by { assert Total(m, roots, e.frame) <= Count(s, e.frame); }
    WorldDrop(r.mem, t1, roots, e.frame);
    FreeIsPlain(m, s, roots, d);
    WriteTables(m, roots[k], d, Data(CopiedBytes(m, e.frame, offset)), d);
    WorldAlloc(m, s, roots);
    assert SameFrame(n1, r.mem, d);
    forall j, q | 0 <= j < |roots| && IsPath(q) && |q| == 4 && (j != k || q != path) && Enters(m, roots[j], q)
      ensures Lookup(r.mem, roots[j], q) == Lookup(m, roots[j], q)
    {
      assert Lookup(n1, roots[j], q) == Lookup(m, roots[j], q);
    }
    forall g: nat | Count(s, g) > 0 && !Structural(m, roots[k], g) ensures SameFrame(m, r.mem, g) {
      assert SameFrame(m, n1, g) && !Structural(n1, roots[k], g);
    }
  }

  lemma CloneIsSole(m: Memory, s: Frames, roots: seq<nat>, k: nat, path: seq<nat>, offset: nat, d: nat)
    requires Faults(m, s, roots, k, path) && Allocate(s).1 == Some(d) && offset < FRAME_SIZE
    ensures var (n, t) := Clone(m, s, roots[k], path, offset, d); SoleWriter(n, t, roots, k, path) && WriteAccess(n, roots[k], path)
  {
    hide RefsFrom, EntryRefs, TableFrom, EntryTable, Walk, Sub, MapTo, SetLeaf, WriteAccess;
    CloneStages(m, s, roots, k, path, offset, d);
    CloneShared(m, s, roots, k, path, offset, d);
    MappedIsOwned(m, s, roots, k, path);
    WorldAlloc(m, s, roots);
    var e := Lookup(m, roots[k], path).value;
    var (n, t) := Clone(m, s, roots[k], path, offset, d);
    assert e.frame != d && Count(Allocate(s).0, d) == 1;
    assert Count(t, d) == 1;
    assert Outside(n, t, roots, d) == Outside(m, s, roots, d) == 0 by { assert Total(m, roots, d) <= Count(s, d); }
  }

  /** The physical frame a huge page maps `path` to, if the walk meets one. */
  function HugeAt(m: Memory, f: nat, path: seq<nat>): Option<nat>
    requires IsIndices(path)
    decreases |path|
  {
    if |path| <= 1 then None
    else
      var e := Entries(m, f)[path[0]];
      if !e.present then None
      else if e.huge then Some(e.frame + PageNumber(path[1..]))
      else HugeAt(m, e.frame, path[1..])
  }

  /** A huge page has no level-1 entry: translating a page of it finds nothing. */
  lemma {:induction false} HugeHasNoEntry(m: Memory, f: nat, path: seq<nat>)
    requires IsIndices(path) && HugeAt(m, f, path).Some?
    ensures Lookup(m, f, path) == None
    decreases |path|
  {
    if !Entries(m, f)[path[0]].huge { HugeHasNoEntry(m, Entries(m, f)[path[0]].frame, path[1..]); }
  }

  function PageNumber(path: seq<nat>): nat {
    if path == [] then 0 else PageNumber(path[..|path| - 1]) * 512 + path[|path| - 1]
  }

  /** User pages are never huge. */
  lemma {:induction false} NoHugePage(m: Memory, s: Frames, f: nat, path: seq<nat>)
    requires IsPath(path) && Sub(m, s, f, |path|) && Enters(m, f, path)
    ensures HugeAt(m, f, path) == None
    decreases |path|
  {
    hide RefsFrom, EntryRefs, TableFrom, EntryTable;
    var e := Entries(m, f)[path[0]];
    if |path| > 1 && e.present {
      Descend(m, s, f, |path|, path[0], e.frame);
      NoHugePage(m, s, e.frame, path[1..]);
    }
  }

  /** Whether a write fault cannot be repaired: the page is not mapped, or it is shared and no
      frame is free for a copy. */
  ghost predicate Unrepairable(m: Memory, s: Frames, root: nat, path: seq<nat>)
    requires IsIndices(path)
  {
    var e := Lookup(m, root, path);
    e.None? || (Count(s, e.value.frame) > 1 && NoneFree(s))
  }

  /** What the page holds after a repair: its own bytes for a sole owner, the copy otherwise. */
  ghost function RepairedBytes(m: Memory, s: Frames, root: nat, path: seq<nat>, offset: nat): seq<byte>
    requires IsIndices(path) && offset < FRAME_SIZE && Lookup(m, root, path).Some?
  {
    var x := Lookup(m, root, path).value.frame;
    if Count(s, x) > 1 then CopiedBytes(m, x, offset) else BytesOf(m, x)
  }

  /** The page was repaired: what it holds and whether it can be written now. For aligned faults
      its bytes are as before. */
  ghost predicate Repaired(m: Memory, s: Frames, n: Memory, root: nat, path: seq<nat>, offset: nat)
    requires IsIndices(path) && offset < FRAME_SIZE
  {
    && Lookup(m, root, path).Some? && Lookup(n, root, path).Some?
    && PageBytes(n, root, path) == RepairedBytes(m, s, root, path, offset)
    && (offset == 0 ==> PageBytes(n, root, path) == PageBytes(m, root, path))
    && (WriteAccess(n, root, path) <==> OpenAbove(m, root, path) || Count(s, Lookup(m, root, path).value.frame) > 1)
  }

  lemma SoleAccess(m: Memory, s: Frames, roots: seq<nat>, k: nat, path: seq<nat>)
    requires Faults(m, s, roots, k, path)
    ensures var e := Lookup(m, roots[k], path).value;
      WriteAccess(SetLeaf(m, roots[k], path, e.(writable := true)), roots[k], path) <==> OpenAbove(m, roots[k], path)
  {
    hide RefsFrom, EntryRefs, TableFrom, EntryTable, Walk, Sub, SetLeaf, WriteAccess, OpenAbove;
    MappedIsOwned(m, s, roots, k, path);
    assert Sub(m, s, roots[k], 4);
    SetLeafAccess(m, s, roots[k], path, Lookup(m, roots[k], path).value.(writable := true));
  }

  /** A present page that is written while read-only: flipped to writable for its sole owner,
      cloned otherwise. `false` means that nothing was changed. After a repair the store that
      faulted goes through, unless for a sole owner some table above the page is read-only. */
  method ResolveCowFault(mc: Machine, fault: nat, ghost k: nat) returns (r: bool)
    requires mc.Valid() && k < |mc.roots| && mc.roots[k] == mc.cr3
    requires fault / FRAME_SIZE < USER_PAGES && Enters(mc.mem, mc.cr3, PathOf(fault / FRAME_SIZE))
    modifies mc`frames, mc`mem
    ensures mc.Valid()
    ensures !r <==> old(Unrepairable(mc.mem, mc.frames, mc.cr3, PathOf(fault / FRAME_SIZE)))
    ensures !r ==> mc.mem == old(mc.mem) && mc.frames == old(mc.frames)
    ensures r ==>
      var path := PathOf(fault / FRAME_SIZE);
      && CowKeeps(old(mc.mem), old(mc.frames), mc.mem, mc.frames, mc.roots, k, path)
      && SoleWriter(mc.mem, mc.frames, mc.roots, k, path)
      && Repaired(old(mc.mem), old(mc.frames), mc.mem, mc.cr3, path, fault % FRAME_SIZE)
  {
    hide RefsFrom, EntryRefs, TableFrom, EntryTable, Walk, Sub, Total, BytesOf, Refs, MapTo, SetLeaf, SoleWriter, WriteAccess, OpenAbove;
    var path, offset := PathOf(fault / FRAME_SIZE), fault % FRAME_SIZE;
    ghost var m, s := mc.mem, mc.frames;
    var found := Lookup(mc.mem, mc.cr3, path);  // no huge page translates here: NoHugePage
    if found.None? { return false; }
    var e := found.value;
    MappedIsOwned(m, s, mc.roots, k, path);
    var count := if e.frame < |mc.frames.counts| then mc.frames.counts[e.frame] else 1;
    if count == 0 { return false; }
    if count == 1 {
      SoleOwner(m, s, mc.roots, k, path);
      SoleBytes(m, s, mc.roots, k, path);
      SoleAccess(m, s, mc.roots, k, path);
      mc.mem := SetLeaf(mc.mem, mc.cr3, path, e.(writable := true));
      return true;
    }
    var (t, frame) := Allocate(mc.frames);
    if frame.None? { return false; }
    var d := frame.value;
    CloneShared(m, s, mc.roots, k, path, offset, d);
    CloneIsSole(m, s, mc.roots, k, path, offset, d);
    AlignedCopy(m, e.frame);
    AllocatePreserves(mc.frames);
    mc.frames := t;
    mc.mem := mc.mem[d := Data(CopiedBytes(mc.mem, e.frame, offset))];
    mc.mem := SetLeaf(mc.mem, mc.cr3, path, UNUSED);
    var remapped := MapTo(mc.mem, mc.frames, mc.cr3, path, e.(frame := d, writable := true));
    mc.mem, mc.frames := remapped.mem, remapped.frames;
    var dropped := mc.Release(e.frame);
    return true;
  }

  lemma AlignedCopy(m: Memory, x: nat)
    ensures CopiedBytes(m, x, 0) == BytesOf(m, x)
  {}

  lemma SoleBytes(m: Memory, s: Frames, roots: seq<nat>, k: nat, path: seq<nat>)
    requires Faults(m, s, roots, k, path) && Count(s, Lookup(m, roots[k], path).value.frame) == 1
    ensures var e := Lookup(m, roots[k], path).value;
      BytesOf(SetLeaf(m, roots[k], path, e.(writable := true)), e.frame) == BytesOf(m, e.frame)
  {
    hide RefsFrom, EntryRefs, TableFrom, EntryTable, Walk, Sub;
    SoleOwner(m, s, roots, k, path);
    PageIsPlain(m, s, roots, k, path);
    var e := Lookup(m, roots[k], path).value;
    assert SameFrame(m, SetLeaf(m, roots[k], path, e.(writable := true)), e.frame);
  }
}
