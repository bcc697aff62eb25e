/** Translating pages through the tables, and what mapping one page does to the others. */
module Lookups {
  import opened Common
  import opened FrameState
  import opened PageTables
  import opened Paging

  /** The level-1 entry `path` leads to, in use or not. Upper levels must be present and not huge. */
  function Walk(m: Memory, f: nat, path: seq<nat>): Option<Entry>
    requires IsIndices(path)
    decreases |path|
  {
    if path == [] then None
    else
      var e := Entries(m, f)[path[0]];
      if |path| == 1 then Some(e)
      else if !e.present || e.huge then None
      else Walk(m, e.frame, path[1..])
  }

  /** `translate_page`: the level-1 entry `path` leads to, if the page is mapped. */
  function Lookup(m: Memory, f: nat, path: seq<nat>): Option<Entry>
    requires IsIndices(path)
  {
    var e := Walk(m, f, path);
    if e == Some(UNUSED) then None else e
  }

  /** The slot a path starts with is empty or leads into the user tree. */
  predicate Enters(m: Memory, f: nat, path: seq<nat>)
    requires IsPath(path)
  {
    Good(Entries(m, f)[path[0]])
  }

  /** What the processor asks of a store by user code: every entry on the way down is present,
      user-accessible and writable, and none above the last is huge. */
  predicate WriteAccess(m: Memory, f: nat, path: seq<nat>)
    requires IsIndices(path)
    decreases |path|
  {
    path != [] &&
    var e := Entries(m, f)[path[0]];
    e.present && e.user && e.writable && (|path| == 1 || (!e.huge && WriteAccess(m, e.frame, path[1..])))
  }

  /** A lookup depends only on its first entry and the tables below that entry. */
  lemma {:induction false} SameLookup(m: Memory, n: Memory, s: Frames, f: nat, path: seq<nat>)
    requires IsPath(path) && Sub(m, s, f, |path|) && Enters(m, f, path)
    requires Entries(m, f)[path[0]] == Entries(n, f)[path[0]]
    requires forall t :: EntryTable(m, f, |path|, path[0], t) ==> Entries(m, t) == Entries(n, t)
    ensures Walk(m, f, path) == Walk(n, f, path) && WriteAccess(m, f, path) == WriteAccess(n, f, path)
    decreases |path|
  {
    var e := Entries(m, f)[path[0]];
    if |path| > 1 && e.present && !e.huge {
      SameLookupBelow(m, n, s, f, path, e.frame);
    }
  }

  lemma {:induction false} SameLookupBelow(m: Memory, n: Memory, s: Frames, f: nat, path: seq<nat>, c: nat)
    requires IsPath(path) && |path| > 1 && Sub(m, s, f, |path|) && Links(m, f, |path|, path[0], c)
    requires forall t :: EntryTable(m, f, |path|, path[0], t) ==> Entries(m, t) == Entries(n, t)
    ensures Walk(m, c, path[1..]) == Walk(n, c, path[1..]) && WriteAccess(m, c, path[1..]) == WriteAccess(n, c, path[1..])
    decreases |path|, 0
  {
    var level, k := |path|, path[0];
    Descend(m, s, f, level, k, c);
    assert EntryTable(m, f, level, k, c);
    forall t | EntryTable(m, c, level - 1, path[1], t) ensures Entries(m, t) == Entries(n, t) {
      EntryWithin(m, c, level - 1, 0, path[1], t);
      ChildTables(m, f, level, k, c, t);
    }
    SameLookup(m, n, s, c, path[1..]);
  }

  lemma {:induction false} EmptyLookup(m: Memory, f: nat, path: seq<nat>)
    requires IsIndices(path) && Entries(m, f) == EmptyEntries()
    ensures Lookup(m, f, path) == None
  {}

  /** A successful mapping is found by the next lookup. */
  lemma {:induction false} MapToFound(m: Memory, s: Frames, f: nat, path: seq<nat>, leaf: Entry)
    requires IsPath(path) && Sub(m, s, f, |path|) && Enters(m, f, path)
    requires Live(leaf) && Good(leaf) && leaf.frame != f && Others(m, s, f, |path|, leaf.frame) >= 1
    requires MapTo(m, s, f, path, leaf).ok
    ensures Lookup(MapTo(m, s, f, path, leaf).mem, f, path) == Some(leaf)
    decreases |path|
  {
    hide RefsFrom, EntryRefs, TableFrom, EntryTable;
    var level, k := |path|, path[0];
    var e := Entries(m, f)[k];
    if level > 1 {
      if e == UNUSED {
        var (t, c) := Allocate(s);
        LinkEvolves(m, s, f, level, k, leaf);
        FoundBelow(LinkTable(m, f, k, c.value, leaf), t, f, path, leaf, c.value);
      } else {
        FlagEvolves(m, s, f, level, k, WithFlags(e, leaf));
        FoundBelow(SetEntry(m, f, k, WithFlags(e, leaf)), s, f, path, leaf, e.frame);
      }
    }
  }

  lemma {:induction false} FoundBelow(m: Memory, s: Frames, f: nat, path: seq<nat>, leaf: Entry, c: nat)
    requires IsPath(path) && |path| > 1 && Sub(m, s, f, |path|) && Links(m, f, |path|, path[0], c)
    requires Entries(m, f)[path[0]].present && !Entries(m, f)[path[0]].huge
    requires Live(leaf) && Good(leaf) && leaf.frame != f && Others(m, s, f, |path|, leaf.frame) >= 1
    requires MapTo(m, s, c, path[1..], leaf).ok
    ensures Lookup(MapTo(m, s, c, path[1..], leaf).mem, f, path) == Some(leaf)
    decreases |path|, 0
  {
    hide RefsFrom, EntryRefs, TableFrom, EntryTable;
    var r := MapTo(m, s, c, path[1..], leaf);
    BelowReady(m, s, f, path, leaf, c);
    MapToEvolves(m, s, c, path[1..], leaf);
    MapToFound(m, s, c, path[1..], leaf);
    SiblingsSame(m, s, r.mem, r.frames, f, |path|, path[0], c, Takes(leaf.frame));
  }

  /** The premises of a mapping carry over to the child the path enters. */
  lemma BelowReady(m: Memory, s: Frames, f: nat, path: seq<nat>, leaf: Entry, c: nat)
    requires IsPath(path) && |path| > 1 && Sub(m, s, f, |path|) && Links(m, f, |path|, path[0], c)
    requires Others(m, s, f, |path|, leaf.frame) >= 1
    ensures Sub(m, s, c, |path| - 1) && Enters(m, c, path[1..])
    ensures leaf.frame != c && Others(m, s, c, |path| - 1, leaf.frame) >= 1
  {
    Descend(m, s, f, |path|, path[0], c);
    ChildRefs(m, f, |path|, path[0], c, leaf.frame);
    TableIsRef(m, f, |path|, 0, c);
  }

  /** Mapping one page changes no other page's translation. */
  lemma {:induction false} MapToKeeps(m: Memory, s: Frames, f: nat, path: seq<nat>, leaf: Entry, q: seq<nat>)
    requires IsPath(path) && Sub(m, s, f, |path|) && Enters(m, f, path)
    requires Live(leaf) && Good(leaf) && leaf.frame != f && Others(m, s, f, |path|, leaf.frame) >= 1
    requires IsPath(q) && |q| == |path| && q != path && Enters(m, f, q)
    ensures Lookup(MapTo(m, s, f, path, leaf).mem, f, q) == Lookup(m, f, q)
    decreases |path|
  {
    hide RefsFrom, EntryRefs, TableFrom, EntryTable;
    var level, k := |path|, path[0];
    var e := Entries(m, f)[k];
    if level > 1 {
      if e == UNUSED {
        var (t, c) := Allocate(s);
        if c.Some? {
          LinkEvolves(m, s, f, level, k, leaf);
          LinkKeeps(m, s, f, path, leaf, q, c.value);
          KeepsBelow(LinkTable(m, f, k, c.value, leaf), t, f, path, leaf, q, c.value);
        }
      } else {
        var n := SetEntry(m, f, k, WithFlags(e, leaf));
        FlagEvolves(m, s, f, level, k, WithFlags(e, leaf));
        FlagKeeps(m, s, f, path, leaf, q);
        if !e.huge { KeepsBelow(n, s, f, path, leaf, q, e.frame); }
      }
    } else {
      assert q[0] != path[0];
    }
  }

  lemma LinkKeeps(m: Memory, s: Frames, f: nat, path: seq<nat>, leaf: Entry, q: seq<nat>, c: nat)
    requires IsPath(path) && |path| > 1 && Sub(m, s, f, |path|) && Entries(m, f)[path[0]] == UNUSED && Count(s, c) == 0
    requires IsPath(q) && |q| == |path| && Enters(m, f, q)
    ensures Lookup(LinkTable(m, f, path[0], c, leaf), f, q) == Lookup(m, f, q)
  {
    var n := LinkTable(m, f, path[0], c, leaf);
    if q[0] == path[0] {
      EmptyLookup(n, c, q[1..]);
    } else {
      forall t | EntryTable(m, f, |path|, q[0], t) ensures Entries(m, t) == Entries(n, t) {
        TableFacts(m, s, f, |path|, q[0], t);
      }
      SameLookup(m, n, s, f, q);
    }
  }

  lemma FlagKeeps(m: Memory, s: Frames, f: nat, path: seq<nat>, leaf: Entry, q: seq<nat>)
    requires IsPath(path) && |path| > 1 && Sub(m, s, f, |path|) && Entries(m, f)[path[0]] != UNUSED && Enters(m, f, path)
    requires IsPath(q) && |q| == |path| && Enters(m, f, q)
    ensures Lookup(SetEntry(m, f, path[0], WithFlags(Entries(m, f)[path[0]], leaf)), f, q) == Lookup(m, f, q)
  {
    var level, e := |path|, Entries(m, f)[path[0]];
    var n := SetEntry(m, f, path[0], WithFlags(e, leaf));
    forall t | EntryTable(m, f, level, q[0], t) ensures Entries(m, t) == Entries(n, t) {
      TableFacts(m, s, f, level, q[0], t);
    }
    if q[0] != path[0] {
      SameLookup(m, n, s, f, q);
    } else if !e.huge {
      SameLookupBelow(m, n, s, f, q, e.frame);
    }
  }

  lemma {:induction false} KeepsBelow(m: Memory, s: Frames, f: nat, path: seq<nat>, leaf: Entry, q: seq<nat>, c: nat)
    requires IsPath(path) && |path| > 1 && Sub(m, s, f, |path|) && Links(m, f, |path|, path[0], c)
    requires Live(leaf) && Good(leaf) && leaf.frame != f && Others(m, s, f, |path|, leaf.frame) >= 1
    requires IsPath(q) && |q| == |path| && q != path && Enters(m, f, q)
    ensures Lookup(MapTo(m, s, c, path[1..], leaf).mem, f, q) == Lookup(m, f, q)
    decreases |path|, 0
  {
    hide RefsFrom, EntryRefs, TableFrom, EntryTable, Refs, IsTable, Others, Delta, AllGood, Evolves, MapTo, Walk, Good;
    var r := MapTo(m, s, c, path[1..], leaf);
    BelowReady(m, s, f, path, leaf, c);
    MapToEvolves(m, s, c, path[1..], leaf);
    SiblingsSame(m, s, r.mem, r.frames, f, |path|, path[0], c, if r.ok then Takes(leaf.frame) else Same);
    if q[0] == path[0] {
      assert q[1..] != path[1..] by { assert q == [q[0]] + q[1..] && path == [path[0]] + path[1..]; }
      BelowReady(m, s, f, q, leaf, c);
      MapToKeeps(m, s, c, path[1..], leaf, q[1..]);
      LookupBelow(m, r.mem, f, q, c);
    } else {
      SameLookup(m, r.mem, s, f, q);
    }
  }

  /** A lookup goes on in the table its first entry links to. */
  lemma LookupBelow(m: Memory, n: Memory, f: nat, q: seq<nat>, c: nat)
    requires IsPath(q) && |q| > 1 && Links(m, f, |q|, q[0], c) && Enters(m, f, q) && SameFrame(m, n, f)
    requires Lookup(n, c, q[1..]) == Lookup(m, c, q[1..])
    ensures Lookup(n, f, q) == Lookup(m, f, q)
  {}

  // ------------------------------------------------------------------
  // Distinct pages
  // ------------------------------------------------------------------

  /** A page's frame is referenced through the entry its path starts with. */
  lemma {:induction false} LookupIsRef(m: Memory, s: Frames, f: nat, path: seq<nat>)
    requires IsPath(path) && Sub(m, s, f, |path|) && Enters(m, f, path) && Lookup(m, f, path).Some?
    ensures EntryRefs(m, f, |path|, path[0], Lookup(m, f, path).value.frame) >= 1
    ensures Lookup(m, f, path).value.user || |path| == 1
    decreases |path|
  {
    var level, e := |path|, Entries(m, f)[path[0]];
    if level > 1 {
      Descend(m, s, f, level, path[0], e.frame);
      LookupIsRef(m, s, e.frame, path[1..]);
      EntryWithin(m, e.frame, level - 1, 0, path[1], Lookup(m, f, path).value.frame);
      ChildRefs(m, f, level, path[0], e.frame, Lookup(m, f, path).value.frame);
    }
  }

  /** Two different pages on the same frame account for two references. */
  lemma {:induction false} SharedFrame(m: Memory, s: Frames, f: nat, p: seq<nat>, q: seq<nat>, x: nat)
    requires IsPath(p) && IsPath(q) && |p| == |q| && p != q && Sub(m, s, f, |p|)
    requires Enters(m, f, p) && Lookup(m, f, p).Some? && Lookup(m, f, p).value.frame == x
    requires Enters(m, f, q) && Lookup(m, f, q).Some? && Lookup(m, f, q).value.frame == x
    ensures Refs(m, f, |p|, x) >= 2
    decreases |p|
  {
    var level := |p|;
    if p[0] != q[0] {
      LookupIsRef(m, s, f, p);
      LookupIsRef(m, s, f, q);
      if p[0] < q[0] { TwoEntries(m, f, level, 0, p[0], q[0], x); } else { TwoEntries(m, f, level, 0, q[0], p[0], x); }
    } else {
      assert p[1..] != q[1..] by { assert p == [p[0]] + p[1..] && q == [q[0]] + q[1..]; }
      var c := Entries(m, f)[p[0]].frame;
      Descend(m, s, f, level, p[0], c);
      SharedFrame(m, s, c, p[1..], q[1..], x);
      ChildRefs(m, f, level, p[0], c, x);
    }
  }

  /** A frame that is both a table and a mapped page accounts for two references. */
  lemma {:induction false} TableAndPage(m: Memory, s: Frames, f: nat, path: seq<nat>, x: nat)
    requires IsPath(path) && Sub(m, s, f, |path|) && Enters(m, f, path)
    requires Lookup(m, f, path).Some? && Lookup(m, f, path).value.frame == x && IsTable(m, f, |path|, x)
    ensures Refs(m, f, |path|, x) >= 2
    decreases |path|
  {
    var level, k := |path|, path[0];
    LookupIsRef(m, s, f, path);
    var j := FindTable(m, f, level, 0, x);
    if j != k {
      EntryTableIsRef(m, f, level, j, x);
      if j < k { TwoEntries(m, f, level, 0, j, k, x); } else { TwoEntries(m, f, level, 0, k, j, x); }
    } else {
      var c := Entries(m, f)[k].frame;
      Descend(m, s, f, level, k, c);
      LookupIsRef(m, s, c, path[1..]);
      EntryWithin(m, c, level - 1, 0, path[1], x);
      ChildRefs(m, f, level, k, c, x);
      if x != c { TableAndPage(m, s, c, path[1..], x); }
    }
  }

  // ------------------------------------------------------------------
  // Write access
  // ------------------------------------------------------------------

  /** An entry in use keeps its frame and its flags. */
  predicate Persists(e: Entry, f: Entry) {
    e == UNUSED || (f != UNUSED && f.frame == e.frame && f.huge == e.huge && (e.user ==> f.user) && (e.present ==> f.present) && (e.writable ==> f.writable))
  }

  /** Mapping never unmaps: entries of tables in use persist, whatever tree they belong to. */
  lemma {:induction false} MapToPersists(m: Memory, s: Frames, f: nat, path: seq<nat>, leaf: Entry, g: nat, j: nat)
    requires Inv(s) && path != [] && IsIndices(path) && Count(s, g) > 0 && j < 512 && leaf.present
    ensures Persists(Entries(m, g)[j], Entries(MapTo(m, s, f, path, leaf).mem, g)[j])
    ensures Count(MapTo(m, s, f, path, leaf).frames, g) == Count(s, g)
    decreases |path|
  {
    hide FirstFree;
    if |path| > 1 {
      var e := Entries(m, f)[path[0]];
      if e == UNUSED {
        var (t, c) := Allocate(s);
        if c.Some? {
          AllocatePreserves(s);
          MapToPersists(LinkTable(m, f, path[0], c.value, leaf), t, c.value, path[1..], leaf, g, j);
        }
      } else if !e.huge {
        MapToPersists(SetEntry(m, f, path[0], WithFlags(e, leaf)), s, e.frame, path[1..], leaf, g, j);
      }
    }
  }

  /** A tree whose entries persist stays as accessible as it was. */
  lemma {:induction false} AccessPersists(m: Memory, n: Memory, s: Frames, f: nat, q: seq<nat>)
    requires IsPath(q) && Sub(m, s, f, |q|) && WriteAccess(m, f, q)
    requires forall g: nat, j :: Count(s, g) > 0 && 0 <= j < 512 ==> Persists(Entries(m, g)[j], Entries(n, g)[j])
    ensures WriteAccess(n, f, q)
    decreases |q|
  {
    hide RefsFrom, EntryRefs, TableFrom, EntryTable, Refs;
    var e := Entries(m, f)[q[0]];
    assert Persists(e, Entries(n, f)[q[0]]);
    if |q| > 1 {
      Descend(m, s, f, |q|, q[0], e.frame);
      AccessPersists(m, n, s, e.frame, q[1..]);
    }
  }

  /** Mapping takes no access away. */
  lemma MapToKeepsAccess(m: Memory, s: Frames, f: nat, path: seq<nat>, leaf: Entry, q: seq<nat>)
    requires IsPath(path) && IsPath(q) && |q| == |path| && Sub(m, s, f, |path|) && leaf.present && WriteAccess(m, f, q)
    ensures WriteAccess(MapTo(m, s, f, path, leaf).mem, f, q)
  {
    hide MapTo, Persists, Refs, IsTable;
    var n := MapTo(m, s, f, path, leaf).mem;
    forall g: nat, j | Count(s, g) > 0 && 0 <= j < 512 ensures Persists(Entries(m, g)[j], Entries(n, g)[j]) {
      MapToPersists(m, s, f, path, leaf, g, j);
    }
    AccessPersists(m, n, s, f, q);
  }

  /** A page mapped writable can be written: every entry on its path gives access. */
  lemma {:induction false} MapToWritable(m: Memory, s: Frames, f: nat, path: seq<nat>, leaf: Entry)
    requires IsPath(path) && Sub(m, s, f, |path|) && Enters(m, f, path)
    requires Live(leaf) && Good(leaf) && leaf.writable && leaf.frame != f && Others(m, s, f, |path|, leaf.frame) >= 1
    requires MapTo(m, s, f, path, leaf).ok
    ensures WriteAccess(MapTo(m, s, f, path, leaf).mem, f, path)
    decreases |path|
  {
    hide RefsFrom, EntryRefs, TableFrom, EntryTable;
    var level, k := |path|, path[0];
    var e := Entries(m, f)[k];
    if level > 1 {
      if e == UNUSED {
        var (t, c) := Allocate(s);
        LinkEvolves(m, s, f, level, k, leaf);
        WritableBelow(LinkTable(m, f, k, c.value, leaf), t, f, path, leaf, c.value);
      } else {
        FlagEvolves(m, s, f, level, k, WithFlags(e, leaf));
        WritableBelow(SetEntry(m, f, k, WithFlags(e, leaf)), s, f, path, leaf, e.frame);
      }
    }
  }

  lemma {:induction false} WritableBelow(m: Memory, s: Frames, f: nat, path: seq<nat>, leaf: Entry, c: nat)
    requires IsPath(path) && |path| > 1 && Sub(m, s, f, |path|) && Links(m, f, |path|, path[0], c)
    requires var e := Entries(m, f)[path[0]]; e.present && e.user && e.writable && !e.huge
    requires Live(leaf) && Good(leaf) && leaf.writable && leaf.frame != f && Others(m, s, f, |path|, leaf.frame) >= 1
    requires MapTo(m, s, c, path[1..], leaf).ok
    ensures WriteAccess(MapTo(m, s, c, path[1..], leaf).mem, f, path)
    decreases |path|, 0
  {
    hide RefsFrom, EntryRefs, TableFrom, EntryTable;
    BelowReady(m, s, f, path, leaf, c);
    MapToWritable(m, s, c, path[1..], leaf);
    MapToPersists(m, s, c, path[1..], leaf, f, path[0]);
  }
}
