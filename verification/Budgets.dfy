/** How many frames mapping a page takes, and when there are enough (src/mm/memory.rs). */
module Budgets {
  import opened Common
  import opened FrameState
  import opened PageTables
  import opened Paging
  import opened Lookups

  ghost function FreeSet(s: Frames): set<nat> {
    set f: nat | f < |s.busy| && !s.busy[f]
  }

  /** The number of free frames. */
  ghost function Free(s: Frames): nat {
    |FreeSet(s)|
  }

  /** Allocation takes one free frame, and fails exactly if there is none. */
  lemma AllocateTakesOne(s: Frames)
    requires Inv(s)
    ensures Allocate(s).1.None? <==> Free(s) == 0
    ensures Allocate(s).1.Some? ==> Free(Allocate(s).0) == Free(s) - 1
  {
    var (t, d) := Allocate(s);
    if d.Some? {
      assert d.value in FreeSet(s);
      assert FreeSet(t) == FreeSet(s) - {d.value};
    } else {
      assert FreeSet(s) == {};
    }
  }

  /** The tables that do not exist yet on the way down `path` from table `f`. */
  function Missing(m: Memory, f: nat, path: seq<nat>): nat
    requires IsIndices(path)
    decreases |path|
  {
    if |path| <= 1 then 0
    else
      var e := Entries(m, f)[path[0]];
      if e == UNUSED then |path| - 1 else Missing(m, e.frame, path[1..])
  }

  lemma {:induction false} MissingBound(m: Memory, f: nat, path: seq<nat>)
    requires IsIndices(path) && path != []
    ensures Missing(m, f, path) <= |path| - 1
    decreases |path|
  {
    if |path| > 1 { MissingBound(m, Entries(m, f)[path[0]].frame, path[1..]); }
  }

  /** What is missing depends only on the first entry and the tables below it. */
  lemma {:induction false} SameMissing(m: Memory, n: Memory, s: Frames, f: nat, path: seq<nat>)
    requires IsPath(path) && Sub(m, s, f, |path|) && Enters(m, f, path)
    requires Entries(m, f)[path[0]] == Entries(n, f)[path[0]]
    requires forall t :: EntryTable(m, f, |path|, path[0], t) ==> Entries(m, t) == Entries(n, t)
    ensures Missing(m, f, path) == Missing(n, f, path)
    decreases |path|
  {
    var e := Entries(m, f)[path[0]];
    if |path| > 1 && e != UNUSED { SameMissingBelow(m, n, s, f, path, e.frame); }
  }

  lemma {:induction false} SameMissingBelow(m: Memory, n: Memory, s: Frames, f: nat, path: seq<nat>, c: nat)
    requires IsPath(path) && |path| > 1 && Sub(m, s, f, |path|) && Links(m, f, |path|, path[0], c)
    requires forall t :: EntryTable(m, f, |path|, path[0], t) ==> Entries(m, t) == Entries(n, t)
    ensures Missing(m, c, path[1..]) == Missing(n, c, path[1..])
    decreases |path|, 0
  {
    hide RefsFrom, EntryRefs, TableFrom, Refs;
    var level, k := |path|, path[0];
    Descend(m, s, f, level, k, c);
    assert EntryTable(m, f, level, k, c);
    forall t | EntryTable(m, c, level - 1, path[1], t) ensures Entries(m, t) == Entries(n, t) {
      EntryWithin(m, c, level - 1, 0, path[1], t);
      ChildTables(m, f, level, k, c, t);
    }
    SameMissing(m, n, s, c, path[1..]);
  }

  /** Below an empty table everything has to be created. */
  lemma {:induction false} MapIntoEmpty(m: Memory, s: Frames, f: nat, path: seq<nat>, leaf: Entry)
    requires Inv(s) && path != [] && IsIndices(path) && Entries(m, f) == EmptyEntries() && Count(s, f) > 0
    ensures MapTo(m, s, f, path, leaf).ok <==> |path| - 1 <= Free(s)
    ensures MapTo(m, s, f, path, leaf).ok ==> Free(MapTo(m, s, f, path, leaf).frames) == Free(s) - (|path| - 1)
    decreases |path|
  {
    hide Free, FirstFree;
    if |path| > 1 {
      var (t, c) := Allocate(s);
      AllocateTakesOne(s);
      AllocatePreserves(s);
      if c.Some? {
        var n := LinkTable(m, f, path[0], c.value, leaf);
        assert c.value != f && Entries(n, c.value) == EmptyEntries();
        MapIntoEmpty(n, t, c.value, path[1..], leaf);
      }
    }
  }

  /** Mapping succeeds exactly if there are frames for the missing tables, and takes just those. */
  lemma {:induction false} MapToCost(m: Memory, s: Frames, f: nat, path: seq<nat>, leaf: Entry)
    requires IsPath(path) && Sub(m, s, f, |path|) && Enters(m, f, path) && Lookup(m, f, path).None?
    requires Live(leaf) && Good(leaf) && leaf.frame != f && Others(m, s, f, |path|, leaf.frame) >= 1
    ensures MapTo(m, s, f, path, leaf).ok <==> Missing(m, f, path) <= Free(s)
    ensures MapTo(m, s, f, path, leaf).ok ==> Free(MapTo(m, s, f, path, leaf).frames) == Free(s) - Missing(m, f, path)
    decreases |path|
  {
    hide RefsFrom, EntryRefs, TableFrom, EntryTable, Free, FirstFree, Refs, IsTable, Delta, AllGood;
    var level, k := |path|, path[0];
    var e := Entries(m, f)[k];
    if level > 1 && e == UNUSED {
      var (t, c) := Allocate(s);
      AllocateTakesOne(s);
      AllocatePreserves(s);
      if c.Some? {
        assert c.value != f;
        MapIntoEmpty(LinkTable(m, f, k, c.value, leaf), t, c.value, path[1..], leaf);
      }
    } else if level > 1 {
      CostBelow(m, s, f, path, leaf);
      MapToCost(SetEntry(m, f, k, WithFlags(e, leaf)), s, e.frame, path[1..], leaf);
    }
  }

  /** Updating the flags on the way changes neither what is missing below nor the premises there. */
  lemma CostBelow(m: Memory, s: Frames, f: nat, path: seq<nat>, leaf: Entry)
    requires IsPath(path) && |path| > 1 && Sub(m, s, f, |path|) && Enters(m, f, path) && Lookup(m, f, path).None?
    requires Live(leaf) && Good(leaf) && leaf.frame != f && Others(m, s, f, |path|, leaf.frame) >= 1
    requires Entries(m, f)[path[0]] != UNUSED
    ensures var e := Entries(m, f)[path[0]];
      var n := SetEntry(m, f, path[0], WithFlags(e, leaf));
      && Sub(n, s, e.frame, |path| - 1) && Enters(n, e.frame, path[1..]) && Lookup(n, e.frame, path[1..]).None?
      && leaf.frame != e.frame && Others(n, s, e.frame, |path| - 1, leaf.frame) >= 1
      && Missing(n, e.frame, path[1..]) == Missing(m, e.frame, path[1..])
  {
    hide RefsFrom, EntryRefs, TableFrom, EntryTable, Refs, IsTable, AllGood;
    var level, e := |path|, Entries(m, f)[path[0]];
    var n := SetEntry(m, f, path[0], WithFlags(e, leaf));
    FlagEvolves(m, s, f, level, path[0], WithFlags(e, leaf));
    FlagKeeps(m, s, f, path, leaf, path);
    BelowReady(n, s, f, path, leaf, e.frame);
    forall t | EntryTable(m, f, level, path[0], t) ensures Entries(m, t) == Entries(n, t) {
      TableFacts(m, s, f, level, path[0], t);
    }
    SameMissingBelow(m, n, s, f, path, e.frame);
  }

  /** The frames mapping a page takes: none if it is mapped, else one for the page and one for
      each missing table. */
  ghost function Cost(m: Memory, root: nat, path: seq<nat>): nat
    requires IsIndices(path)
  {
    if Lookup(m, root, path).Some? then 0 else 1 + Missing(m, root, path)
  }

  lemma CostBound(m: Memory, root: nat, path: seq<nat>)
    requires IsIndices(path) && |path| == 4
    ensures Cost(m, root, path) <= 4
  {
    MissingBound(m, root, path);
  }

  // ------------------------------------------------------------------
  // What one mapping saves the next
  // ------------------------------------------------------------------

  /** How many tables below the top one two paths share. */
  function Shared(p: seq<nat>, q: seq<nat>): (r: nat)
    requires |p| == |q|
    ensures p != [] ==> r <= |p| - 1
  {
    if |p| <= 1 || p[0] != q[0] then 0 else 1 + Shared(p[1..], q[1..])
  }

  /** A successful mapping creates the tables on its own path and no others. */
  lemma {:induction false} MissingAfter(m: Memory, s: Frames, f: nat, path: seq<nat>, leaf: Entry, q: seq<nat>)
    requires IsPath(path) && Sub(m, s, f, |path|) && Enters(m, f, path)
    requires Live(leaf) && Good(leaf) && leaf.frame != f && Others(m, s, f, |path|, leaf.frame) >= 1
    requires IsPath(q) && |q| == |path| && Enters(m, f, q) && MapTo(m, s, f, path, leaf).ok
    ensures Missing(MapTo(m, s, f, path, leaf).mem, f, q) == Min(Missing(m, f, q), |path| - 1 - Shared(path, q))
    decreases |path|, 2
  {
    hide RefsFrom, EntryRefs, TableFrom, EntryTable, Refs, IsTable, AllGood, FirstFree, Walk, Delta;
    MissingBound(m, f, q);
    if |path| > 1 && Entries(m, f)[path[0]] == UNUSED {
      MissingLinked(m, s, f, path, leaf, q);
    } else if |path| > 1 {
      MissingFlagged(m, s, f, path, leaf, q);
    }
  }

  lemma {:induction false} MissingLinked(m: Memory, s: Frames, f: nat, path: seq<nat>, leaf: Entry, q: seq<nat>)
    requires IsPath(path) && |path| > 1 && Sub(m, s, f, |path|) && Entries(m, f)[path[0]] == UNUSED
    requires Live(leaf) && Good(leaf) && leaf.frame != f && Others(m, s, f, |path|, leaf.frame) >= 1
    requires IsPath(q) && |q| == |path| && Enters(m, f, q) && MapTo(m, s, f, path, leaf).ok
    ensures Missing(MapTo(m, s, f, path, leaf).mem, f, q) == Min(Missing(m, f, q), |path| - 1 - Shared(path, q))
    decreases |path|, 1
  {
    hide Sub, Evolves, Others, Missing, FirstFree;
    SubInv(m, s, f, |path|);
    var (t, c) := Allocate(s);
    MissingBound(m, f, q);
    LinkEvolves(m, s, f, |path|, path[0], leaf);
    StillReady(m, s, LinkTable(m, f, path[0], c.value, leaf), t, f, |path|, leaf.frame);
    LinkMissing(m, s, f, path, leaf, q, c.value);
    MissingBelow(LinkTable(m, f, path[0], c.value, leaf), t, f, path, leaf, q, c.value);
  }

  lemma {:induction false} MissingFlagged(m: Memory, s: Frames, f: nat, path: seq<nat>, leaf: Entry, q: seq<nat>)
    requires IsPath(path) && |path| > 1 && Sub(m, s, f, |path|) && Enters(m, f, path) && Entries(m, f)[path[0]] != UNUSED
    requires Live(leaf) && Good(leaf) && leaf.frame != f && Others(m, s, f, |path|, leaf.frame) >= 1
    requires IsPath(q) && |q| == |path| && Enters(m, f, q) && MapTo(m, s, f, path, leaf).ok
    ensures Missing(MapTo(m, s, f, path, leaf).mem, f, q) == Min(Missing(m, f, q), |path| - 1 - Shared(path, q))
    decreases |path|, 1
  {
    hide Sub, Evolves, Others, Missing, FirstFree;
    SubInv(m, s, f, |path|);
    var e := Entries(m, f)[path[0]];
    MissingBound(m, f, q);
    FlagEvolves(m, s, f, |path|, path[0], WithFlags(e, leaf));
    StillReady(m, s, SetEntry(m, f, path[0], WithFlags(e, leaf)), s, f, |path|, leaf.frame);
    FlagMissing(m, s, f, path, leaf, q);
    MissingBelow(SetEntry(m, f, path[0], WithFlags(e, leaf)), s, f, path, leaf, q, e.frame);
  }

  lemma SubInv(m: Memory, s: Frames, f: nat, level: nat)
    requires level > 0 && Sub(m, s, f, level)
    ensures Inv(s)
  {}

  lemma StillReady(m: Memory, s: Frames, n: Memory, t: Frames, f: nat, level: nat, x: nat)
    requires level > 0 && Evolves(m, s, n, t, f, level, Same) && Others(m, s, f, level, x) >= 1
    ensures Sub(n, t, f, level) && Others(n, t, f, level, x) >= 1
  {
    hide Sub, Others, Refs;
  }

  lemma LinkMissing(m: Memory, s: Frames, f: nat, path: seq<nat>, leaf: Entry, q: seq<nat>, c: nat)
    requires IsPath(path) && |path| > 1 && Sub(m, s, f, |path|) && Entries(m, f)[path[0]] == UNUSED && Count(s, c) == 0 && Live(leaf)
    requires IsPath(q) && |q| == |path| && Enters(m, f, q)
    ensures Missing(LinkTable(m, f, path[0], c, leaf), f, q) == if q[0] == path[0] then |path| - 2 else Missing(m, f, q)
    ensures q[0] == path[0] ==> Missing(m, f, q) == |path| - 1
  {
    var n := LinkTable(m, f, path[0], c, leaf);
    if q[0] != path[0] {
      forall t | EntryTable(m, f, |path|, q[0], t) ensures Entries(m, t) == Entries(n, t) {
        TableFacts(m, s, f, |path|, q[0], t);
      }
      SameMissing(m, n, s, f, q);
    } else {
      assert c != f && Entries(n, c) == EmptyEntries();
    }
  }

  lemma FlagMissing(m: Memory, s: Frames, f: nat, path: seq<nat>, leaf: Entry, q: seq<nat>)
    requires IsPath(path) && |path| > 1 && Sub(m, s, f, |path|) && Entries(m, f)[path[0]] != UNUSED && Enters(m, f, path)
    requires IsPath(q) && |q| == |path| && Enters(m, f, q)
    ensures Missing(SetEntry(m, f, path[0], WithFlags(Entries(m, f)[path[0]], leaf)), f, q) == Missing(m, f, q)
  {
    var level, e := |path|, Entries(m, f)[path[0]];
    var n := SetEntry(m, f, path[0], WithFlags(e, leaf));
    forall t | EntryTable(m, f, level, q[0], t) ensures Entries(m, t) == Entries(n, t) {
      TableFacts(m, s, f, level, q[0], t);
    }
    if q[0] != path[0] {
      SameMissing(m, n, s, f, q);
    } else {
      SameMissingBelow(m, n, s, f, q, e.frame);
    }
  }

  lemma {:induction false} MissingBelow(m: Memory, s: Frames, f: nat, path: seq<nat>, leaf: Entry, q: seq<nat>, c: nat)
    requires IsPath(path) && |path| > 1 && Sub(m, s, f, |path|) && Links(m, f, |path|, path[0], c)
    requires Live(leaf) && Good(leaf) && leaf.frame != f && Others(m, s, f, |path|, leaf.frame) >= 1
    requires IsPath(q) && |q| == |path| && Enters(m, f, q) && MapTo(m, s, c, path[1..], leaf).ok
    ensures Missing(MapTo(m, s, c, path[1..], leaf).mem, f, q)
      == if q[0] == path[0] then Min(Missing(m, f, q), |path| - 1 - Shared(path, q)) else Missing(m, f, q)
    decreases |path|, 0
  {
    hide RefsFrom, EntryRefs, TableFrom, EntryTable, Refs, IsTable, Others, Delta, AllGood, Evolves, MapTo, Walk, Good;
    var r := MapTo(m, s, c, path[1..], leaf);
    BelowReady(m, s, f, path, leaf, c);
    MapToEvolves(m, s, c, path[1..], leaf);
    SiblingsSame(m, s, r.mem, r.frames, f, |path|, path[0], c, Takes(leaf.frame));
    if q[0] == path[0] {
      BelowReady(m, s, f, q, leaf, c);
      MissingAfter(m, s, c, path[1..], leaf, q[1..]);
    } else {
      SameMissing(m, r.mem, s, f, q);
    }
  }

  // ------------------------------------------------------------------
  // A failed mapping
  // ------------------------------------------------------------------

  /** A mapping that fails has used up every free frame and left its page unmapped. */
  lemma {:induction false} MapToFails(m: Memory, s: Frames, f: nat, path: seq<nat>, leaf: Entry)
    requires IsPath(path) && Sub(m, s, f, |path|) && Enters(m, f, path) && Lookup(m, f, path).None?
    requires Live(leaf) && Good(leaf) && leaf.frame != f && Others(m, s, f, |path|, leaf.frame) >= 1
    requires !MapTo(m, s, f, path, leaf).ok
    ensures Free(MapTo(m, s, f, path, leaf).frames) == 0 && Lookup(MapTo(m, s, f, path, leaf).mem, f, path).None?
    decreases |path|
  {
    hide RefsFrom, EntryRefs, TableFrom, EntryTable, Free, FirstFree, Refs, IsTable, AllGood;
    var level, k := |path|, path[0];
    var e := Entries(m, f)[k];
    if level > 1 && e == UNUSED {
      var (t, c) := Allocate(s);
      AllocateTakesOne(s);
      if c.Some? {
        var n := LinkTable(m, f, k, c.value, leaf);
        LinkEvolves(m, s, f, level, k, leaf);
        LinkKeeps(m, s, f, path, leaf, path, c.value);
        FailsBelow(n, t, f, path, leaf, c.value);
      }
    } else if level > 1 {
      FlagEvolves(m, s, f, level, k, WithFlags(e, leaf));
      FlagKeeps(m, s, f, path, leaf, path);
      FailsBelow(SetEntry(m, f, k, WithFlags(e, leaf)), s, f, path, leaf, e.frame);
    }
  }

  lemma {:induction false} FailsBelow(m: Memory, s: Frames, f: nat, path: seq<nat>, leaf: Entry, c: nat)
    requires IsPath(path) && |path| > 1 && Sub(m, s, f, |path|) && Links(m, f, |path|, path[0], c)
    requires Entries(m, f)[path[0]].present && !Entries(m, f)[path[0]].huge && Lookup(m, f, path).None?
    requires Live(leaf) && Good(leaf) && leaf.frame != f && Others(m, s, f, |path|, leaf.frame) >= 1
    requires !MapTo(m, s, c, path[1..], leaf).ok
    ensures var r := MapTo(m, s, c, path[1..], leaf); Free(r.frames) == 0 && Lookup(r.mem, f, path).None?
    decreases |path|, 0
  {
    hide RefsFrom, EntryRefs, TableFrom, EntryTable, Refs, IsTable, Others, Delta, AllGood, Evolves, MapTo, Good, Free;
    var r := MapTo(m, s, c, path[1..], leaf);
    BelowReady(m, s, f, path, leaf, c);
    MapToEvolves(m, s, c, path[1..], leaf);
    MapToFails(m, s, c, path[1..], leaf);
    SiblingsSame(m, s, r.mem, r.frames, f, |path|, path[0], c, Same);
  }
}
