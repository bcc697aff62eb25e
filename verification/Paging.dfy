/** Building page tables: the mapping call the kernel makes on the paging library, and what
    it keeps of the reference bookkeeping between the frame allocator and the tables. */
module Paging {
  import opened Common
  import opened FrameState
  import opened PageTables

  datatype MapResult = MapResult(mem: Memory, frames: Frames, ok: bool)

  /** An intermediate entry that is already in use gains the flags of the new mapping. */
  function WithFlags(e: Entry, leaf: Entry): Entry {
    e.(present := e.present || leaf.present, writable := e.writable || leaf.writable, user := e.user || leaf.user)
  }

  /** A run of table indices. */
  predicate IsIndices(path: seq<nat>) {
    forall i :: 0 <= i < |path| ==> path[i] < 512
  }

  /** The indices walked below a table of level `|path|`; user pages use the lower half. */
  predicate IsPath(path: seq<nat>) {
    0 < |path| <= 4 && IsIndices(path) && (|path| == 4 ==> path[0] < 256)
  }

  /** `map_to`: walks down `path` from table `f`, creating missing tables with zeroed frames,
      and installs `leaf` if its slot is empty. On failure the tables created so far stay. */
  function MapTo(m: Memory, s: Frames, f: nat, path: seq<nat>, leaf: Entry): (r: MapResult)
    requires Inv(s) && path != [] && IsIndices(path)
    ensures Inv(r.frames)
    decreases |path|
  {
    var e := Entries(m, f)[path[0]];
    if |path| == 1 then
      if e != UNUSED then MapResult(m, s, false)
      else MapResult(SetEntry(m, f, path[0], leaf), s, true)
    else if e == UNUSED then
      match Allocate(s) {
        case (_, None) => MapResult(m, s, false)
        case (t, Some(c)) =>
          AllocatePreserves(s);
          MapTo(LinkTable(m, f, path[0], c, leaf), t, c, path[1..], leaf)
      }
    else
      var n := SetEntry(m, f, path[0], WithFlags(e, leaf));
      if e.huge then MapResult(n, s, false) else MapTo(n, s, e.frame, path[1..], leaf)
  }

  /** Frame `c`, zeroed, becomes the table behind entry `k` of `f`. */
  function LinkTable(m: Memory, f: nat, k: nat, c: nat, leaf: Entry): Memory
    requires k < 512
  {
    SetEntry(m[c := Table(EmptyEntries())], f, k, Entry(c, leaf.present, leaf.writable, leaf.user, false))
  }

  // ------------------------------------------------------------------
  // What a changing tree keeps
  // ------------------------------------------------------------------

  ghost predicate SameFrame(m: Memory, n: Memory, g: nat) {
    (g in m <==> g in n) && (g in m ==> m[g] == n[g])
  }

  /** Frames in use that are not part of the tree keep their contents. */
  ghost predicate Untouched(m: Memory, s: Frames, n: Memory, f: nat, level: nat)
    requires level > 0
  {
    forall g: nat :: Count(s, g) > 0 && g != f && !IsTable(m, f, level, g) ==> SameFrame(m, n, g)
  }

  /** Only free frames change their count. */
  ghost predicate KeepsCounts(s: Frames, t: Frames) {
    && Inv(t) && |t.counts| == |s.counts|
    && forall x: nat :: Count(s, x) > 0 ==> Count(t, x) == Count(s, x)
  }

  /** What happens to the references a tree holds: one taken over, one given up, or neither. */
  datatype Change = Same | Takes(frame: nat) | Gives(frame: nat)

  ghost function Delta(d: Change, x: nat): int {
    match d
    case Same => 0
    case Takes(y) => if x == y then 1 else 0
    case Gives(y) => if x == y then -1 else 0
  }

  /** The tree under `f` went from `(m, s)` to `(n, t)`: tables may only be added, from free
      frames, and apart from them exactly the reference change `d` took place. */
  ghost predicate Evolves(m: Memory, s: Frames, n: Memory, t: Frames, f: nat, level: nat, d: Change)
    requires level > 0
  {
    && Sub(n, t, f, level)
    && KeepsCounts(s, t)
    && Untouched(m, s, n, f, level)
    && (forall x: nat :: Others(n, t, f, level, x) == Others(m, s, f, level, x) - Delta(d, x))
    && (forall g: nat :: IsTable(n, f, level, g) ==> IsTable(m, f, level, g) || Count(s, g) == 0)
    && (forall j :: 0 <= j < 512 && Good(Entries(m, f)[j]) ==> Good(Entries(n, f)[j]))
  }

  lemma {:induction false} NoTablesAtLevelOne(m: Memory, f: nat, i: nat, t: nat)
    requires i <= 512
    ensures !TableFrom(m, f, 1, i, t)
    decreases 512 - i
  {
    if i < 512 { NoTablesAtLevelOne(m, f, i + 1, t); }
  }

  lemma LeafRefs(m: Memory, f: nat, k: nat, leaf: Entry, x: nat)
    requires k < 512 && Entries(m, f)[k] == UNUSED && Live(leaf)
    ensures Refs(SetEntry(m, f, k, leaf), f, 1, x) == Refs(m, f, 1, x) + Delta(Takes(leaf.frame), x)
  {
    OneChange(m, SetEntry(m, f, k, leaf), f, 1, 0, k, x);
  }

  /** Installing a leaf in an empty slot adds exactly one reference. */
  lemma LeafEvolves(m: Memory, s: Frames, f: nat, k: nat, leaf: Entry)
    requires k < 512 && Sub(m, s, f, 1) && Entries(m, f)[k] == UNUSED
    requires Live(leaf) && Good(leaf) && leaf.frame != f && Others(m, s, f, 1, leaf.frame) >= 1
    ensures Evolves(m, s, SetEntry(m, f, k, leaf), s, f, 1, Takes(leaf.frame))
  {
    hide RefsFrom, EntryRefs, TableFrom, EntryTable;
    var n := SetEntry(m, f, k, leaf);
    forall x: nat
      ensures Refs(n, f, 1, x) == Refs(m, f, 1, x) + Delta(Takes(leaf.frame), x)
      ensures !IsTable(m, f, 1, x) && !IsTable(n, f, 1, x)
    {
      LeafRefs(m, f, k, leaf, x);
      NoTablesAtLevelOne(m, f, 0, x);
      NoTablesAtLevelOne(n, f, 0, x);
    }
  }

  /** The tables below entries other than `k` read the same in `m` and `n`. */
  ghost predicate OthersSame(m: Memory, n: Memory, f: nat, level: nat, k: nat)
    requires level > 0
  {
    && (forall j :: 0 <= j < 512 && j != k ==> Entries(m, f)[j] == Entries(n, f)[j])
    && forall j, t :: 0 <= j < Slots(level) && j != k && EntryTable(m, f, level, j, t) ==> Entries(m, t) == Entries(n, t)
  }

  lemma EntryChange(m: Memory, n: Memory, f: nat, level: nat, k: nat, x: nat)
    requires level > 0 && k < Slots(level) && OthersSame(m, n, f, level, k)
    ensures Refs(n, f, level, x) + EntryRefs(m, f, level, k, x) == Refs(m, f, level, x) + EntryRefs(n, f, level, k, x)
    ensures IsTable(n, f, level, x) ==> IsTable(m, f, level, x) || EntryTable(n, f, level, k, x)
  {
    forall j | 0 <= j < Slots(level) && j != k
      ensures EntryRefs(m, f, level, j, x) == EntryRefs(n, f, level, j, x)
      ensures EntryTable(m, f, level, j, x) <==> EntryTable(n, f, level, j, x)
    {
      SameEntry(m, n, f, level, j, x);
    }
    OneChange(m, n, f, level, 0, k, x);
    if IsTable(n, f, level, x) {
      var j := FindTable(n, f, level, 0, x);
      if j != k { EntryWithin(m, f, level, 0, j, x); }
    }
  }

  /** A table below entry `j` is in use, differs from the tree's root and holds user entries. */
  lemma TableFacts(m: Memory, s: Frames, f: nat, level: nat, j: nat, t: nat)
    requires level > 0 && j < Slots(level) && Sub(m, s, f, level) && EntryTable(m, f, level, j, t)
    ensures IsTable(m, f, level, t) && Count(s, t) == 1 && t != f && Refs(m, f, level, t) == 1
  {
    EntryWithin(m, f, level, 0, j, t);
    TableIsRef(m, f, level, 0, t);
  }

  // Linking a fresh table ---------------------------------------------

  lemma LinkRefs(m: Memory, s: Frames, f: nat, level: nat, k: nat, c: nat, leaf: Entry, x: nat)
    requires level > 1 && k < Slots(level) && Sub(m, s, f, level)
    requires Entries(m, f)[k] == UNUSED && Count(s, c) == 0 && Live(leaf) && Good(leaf)
    ensures Refs(LinkTable(m, f, k, c, leaf), f, level, x) == Refs(m, f, level, x) + Delta(Takes(c), x)
    ensures IsTable(LinkTable(m, f, k, c, leaf), f, level, x) ==> IsTable(m, f, level, x) || x == c
  {
    var n := LinkTable(m, f, k, c, leaf);
    forall j, t | 0 <= j < Slots(level) && j != k && EntryTable(m, f, level, j, t) ensures Entries(m, t) == Entries(n, t) {
      TableFacts(m, s, f, level, j, t);
    }
    EntryChange(m, n, f, level, k, x);
    EmptyBelow(n, c, level - 1, 0, x);
  }

  lemma LinkEvolves(m: Memory, s: Frames, f: nat, level: nat, k: nat, leaf: Entry)
    requires level > 1 && k < Slots(level) && Sub(m, s, f, level) && Allocate(s).1.Some?
    requires Entries(m, f)[k] == UNUSED && Live(leaf) && Good(leaf)
    ensures var (t, c) := Allocate(s);
      Evolves(m, s, LinkTable(m, f, k, c.value, leaf), t, f, level, Same)
  {
    hide RefsFrom, EntryRefs, TableFrom, EntryTable;
    var (t, r) := Allocate(s);
    var c := r.value;
    var n := LinkTable(m, f, k, c, leaf);
    AllocatePreserves(s);
    forall x: nat
      ensures Refs(n, f, level, x) == Refs(m, f, level, x) + Delta(Takes(c), x)
      ensures IsTable(n, f, level, x) ==> IsTable(m, f, level, x) || x == c
      ensures IsTable(n, f, level, x) ==> Count(t, x) == 1 && AllGood(n, x)
    {
      LinkRefs(m, s, f, level, k, c, leaf, x);
      if IsTable(m, f, level, x) {
        TableIsRef(m, f, level, 0, x);
        assert Entries(n, x) == Entries(m, x);
      } else if x == c {
        assert Entries(n, c) == EmptyEntries();
      }
    }
  }

  // Refreshing the flags of an existing link ---------------------------

  lemma FlagRefs(m: Memory, s: Frames, f: nat, level: nat, k: nat, e: Entry, x: nat)
    requires level > 1 && k < Slots(level) && Sub(m, s, f, level)
    requires Live(Entries(m, f)[k]) && Live(e) && e.frame == Entries(m, f)[k].frame && e.huge == Entries(m, f)[k].huge
    ensures Refs(SetEntry(m, f, k, e), f, level, x) == Refs(m, f, level, x)
    ensures IsTable(SetEntry(m, f, k, e), f, level, x) ==> IsTable(m, f, level, x)
  {
    var n := SetEntry(m, f, k, e);
    forall j, t | 0 <= j < Slots(level) && EntryTable(m, f, level, j, t) ensures Entries(m, t) == Entries(n, t) {
      TableFacts(m, s, f, level, j, t);
    }
    EntryChange(m, n, f, level, k, x);
    if Descends(e, level) {
      var c := e.frame;
      forall t | IsTable(m, c, level - 1, t) || t == c ensures Entries(m, t) == Entries(n, t) {
        ChildTables(m, f, level, k, c, t);
      }
      SameBelow(m, n, c, level - 1, 0, x);
      if IsTable(m, c, level - 1, x) || x == c { ChildTables(m, f, level, k, c, x); }
    }
  }

  lemma FlagEvolves(m: Memory, s: Frames, f: nat, level: nat, k: nat, e: Entry)
    requires level > 1 && k < Slots(level) && Sub(m, s, f, level)
    requires Live(Entries(m, f)[k]) && Live(e) && Good(e)
    requires e.frame == Entries(m, f)[k].frame && e.huge == Entries(m, f)[k].huge
    ensures Evolves(m, s, SetEntry(m, f, k, e), s, f, level, Same)
  {
    hide RefsFrom, EntryRefs, TableFrom, EntryTable;
    var n := SetEntry(m, f, k, e);
    forall x: nat
      ensures Refs(n, f, level, x) == Refs(m, f, level, x)
      ensures IsTable(n, f, level, x) ==> IsTable(m, f, level, x)
      ensures IsTable(n, f, level, x) ==> AllGood(n, x)
    {
      FlagRefs(m, s, f, level, k, e, x);
      if IsTable(m, f, level, x) { TableIsRef(m, f, level, 0, x); }
    }
  }

  // Changes inside a child ---------------------------------------------

  /** The tables a child's change may touch do not lie below the parent's other entries. */
  lemma SiblingsSame(m: Memory, s: Frames, n: Memory, t: Frames, f: nat, level: nat, k: nat, c: nat, d: Change)
    requires Links(m, f, level, k, c) && Sub(m, s, f, level) && Evolves(m, s, n, t, c, level - 1, d)
    ensures OthersSame(m, n, f, level, k) && SameFrame(m, n, f) && c != f
  {
    Descend(m, s, f, level, k, c);
    TableIsRef(m, f, level, 0, c);
    if IsTable(m, c, level - 1, f) {
      ChildTables(m, f, level, k, c, f);
      TableIsRef(m, f, level, 0, f);
    }
    forall j, u | 0 <= j < Slots(level) && j != k && EntryTable(m, f, level, j, u) ensures Entries(m, u) == Entries(n, u) {
      TableFacts(m, s, f, level, j, u);
      if u == c || IsTable(m, c, level - 1, u) {
        ChildTables(m, f, level, k, c, u);
        EntryTableIsRef(m, f, level, k, u);
        OnlyBelow(m, f, level, j, k, u);
      }
    }
  }

  lemma AscendRefs(m: Memory, s: Frames, n: Memory, t: Frames, f: nat, level: nat, k: nat, c: nat, d: Change, x: nat)
    requires Links(m, f, level, k, c) && Sub(m, s, f, level) && Evolves(m, s, n, t, c, level - 1, d)
    ensures Refs(n, f, level, x) - Refs(m, f, level, x) == Refs(n, c, level - 1, x) - Refs(m, c, level - 1, x)
    ensures IsTable(n, f, level, x) ==> IsTable(m, f, level, x) || IsTable(n, c, level - 1, x)
  {
    SiblingsSame(m, s, n, t, f, level, k, c, d);
    EntryChange(m, n, f, level, k, x);
    ChildRefs(m, f, level, k, c, x);
    ChildRefs(n, f, level, k, c, x);
    if x == c { ChildTables(m, f, level, k, c, c); }
  }

  lemma AscendTables(m: Memory, s: Frames, n: Memory, t: Frames, f: nat, level: nat, k: nat, c: nat, d: Change, x: nat)
    requires Links(m, f, level, k, c) && Sub(m, s, f, level) && Evolves(m, s, n, t, c, level - 1, d)
    requires IsTable(n, f, level, x)
    ensures Count(t, x) == 1 && AllGood(n, x)
    ensures IsTable(m, f, level, x) || Count(s, x) == 0
  {
    SiblingsSame(m, s, n, t, f, level, k, c, d);
    var j := FindTable(n, f, level, 0, x);
    if j == k {
      assert x == c || IsTable(n, c, level - 1, x);
      OwnTables(m, s, n, t, f, level, k, c, d, x);
    } else {
      SameEntry(m, n, f, level, j, x);
      TableFacts(m, s, f, level, j, x);
    }
  }

  lemma OwnTables(m: Memory, s: Frames, n: Memory, t: Frames, f: nat, level: nat, k: nat, c: nat, d: Change, x: nat)
    requires Links(m, f, level, k, c) && Sub(m, s, f, level) && Evolves(m, s, n, t, c, level - 1, d)
    requires x == c || IsTable(n, c, level - 1, x)
    ensures Count(t, x) == 1 && AllGood(n, x)
    ensures IsTable(m, f, level, x) || Count(s, x) == 0
  {
    hide RefsFrom, EntryRefs, TableFrom, EntryTable;
    if x == c || IsTable(m, c, level - 1, x) { ChildTables(m, f, level, k, c, x); }
  }

  lemma AscendEvolves(m: Memory, s: Frames, n: Memory, t: Frames, f: nat, level: nat, k: nat, c: nat, d: Change)
    requires Links(m, f, level, k, c) && Sub(m, s, f, level) && Evolves(m, s, n, t, c, level - 1, d)
    requires d.Takes? ==> d.frame != f && Others(m, s, f, level, d.frame) >= 1
    ensures Evolves(m, s, n, t, f, level, d)
  {
    hide RefsFrom, EntryRefs, TableFrom, EntryTable;
    SiblingsSame(m, s, n, t, f, level, k, c, d);
    forall x: nat
      ensures Others(n, t, f, level, x) == Others(m, s, f, level, x) - Delta(d, x)
      ensures IsTable(n, f, level, x) ==> Count(t, x) == 1 && AllGood(n, x)
      ensures IsTable(n, f, level, x) ==> IsTable(m, f, level, x) || Count(s, x) == 0
      ensures Refs(n, f, level, x) <= Count(t, x)
    {
      AscendRefs(m, s, n, t, f, level, k, c, d, x);
      if IsTable(n, f, level, x) { AscendTables(m, s, n, t, f, level, k, c, d, x); }
    }
    AscendUntouched(m, s, n, t, f, level, k, c, d);
  }

  lemma AscendUntouched(m: Memory, s: Frames, n: Memory, t: Frames, f: nat, level: nat, k: nat, c: nat, d: Change)
    requires Links(m, f, level, k, c) && Sub(m, s, f, level) && Evolves(m, s, n, t, c, level - 1, d)
    ensures Untouched(m, s, n, f, level)
  {
    hide RefsFrom, EntryRefs, TableFrom, EntryTable;
    forall g: nat | Count(s, g) > 0 && g != f && !IsTable(m, f, level, g) ensures SameFrame(m, n, g) {
      if g == c || IsTable(m, c, level - 1, g) { ChildTables(m, f, level, k, c, g); }
    }
  }

  lemma EvolvesTrans(m: Memory, s: Frames, n: Memory, t: Frames, o: Memory, u: Frames, f: nat, level: nat, d: Change)
    requires level > 0 && Evolves(m, s, n, t, f, level, Same) && Evolves(n, t, o, u, f, level, d)
    ensures Evolves(m, s, o, u, f, level, d)
  {}

  /** `map_to` extends the tree: on success one reference to the leaf's frame moves into it, on
      failure none does, and every frame outside the tree is left alone. */
  lemma {:induction false} MapToEvolves(m: Memory, s: Frames, f: nat, path: seq<nat>, leaf: Entry)
    requires IsPath(path) && Sub(m, s, f, |path|) && Good(Entries(m, f)[path[0]])
    requires Live(leaf) && Good(leaf) && leaf.frame != f && Others(m, s, f, |path|, leaf.frame) >= 1
    ensures var r := MapTo(m, s, f, path, leaf);
      Evolves(m, s, r.mem, r.frames, f, |path|, if r.ok then Takes(leaf.frame) else Same)
    decreases |path|
  {
    hide RefsFrom, EntryRefs, TableFrom, EntryTable;
    var level, k := |path|, path[0];
    var e := Entries(m, f)[k];
    var r := MapTo(m, s, f, path, leaf);
    if level == 1 {
      if e == UNUSED { LeafEvolves(m, s, f, k, leaf); }
    } else if e == UNUSED {
      var (t, c) := Allocate(s);
      if c.Some? {
        LinkEvolves(m, s, f, level, k, leaf);
        MapBelowEvolves(LinkTable(m, f, k, c.value, leaf), t, f, path, leaf, c.value);
        EvolvesTrans(m, s, LinkTable(m, f, k, c.value, leaf), t, r.mem, r.frames, f, level, if r.ok then Takes(leaf.frame) else Same);
      }
    } else {
      var n := SetEntry(m, f, k, WithFlags(e, leaf));
      FlagEvolves(m, s, f, level, k, WithFlags(e, leaf));
      if !e.huge {
        MapBelowEvolves(n, s, f, path, leaf, e.frame);
        EvolvesTrans(m, s, n, s, r.mem, r.frames, f, level, if r.ok then Takes(leaf.frame) else Same);
      }
    }
  }

  lemma {:induction false} MapBelowEvolves(m: Memory, s: Frames, f: nat, path: seq<nat>, leaf: Entry, c: nat)
    requires IsPath(path) && |path| > 1 && Sub(m, s, f, |path|) && Links(m, f, |path|, path[0], c)
    requires Live(leaf) && Good(leaf) && leaf.frame != f && Others(m, s, f, |path|, leaf.frame) >= 1
    ensures var r := MapTo(m, s, c, path[1..], leaf);
      Evolves(m, s, r.mem, r.frames, f, |path|, if r.ok then Takes(leaf.frame) else Same)
    decreases |path|, 0
  {
    hide RefsFrom, EntryRefs, TableFrom, EntryTable;
    var level, k := |path|, path[0];
    var r := MapTo(m, s, c, path[1..], leaf);
    Descend(m, s, f, level, k, c);
    ChildRefs(m, f, level, k, c, leaf.frame);
    TableIsRef(m, f, level, 0, c);
    MapToEvolves(m, s, c, path[1..], leaf);
    AscendEvolves(m, s, r.mem, r.frames, f, level, k, c, if r.ok then Takes(leaf.frame) else Same);
  }
}
