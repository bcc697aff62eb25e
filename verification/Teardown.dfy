/** Tearing an address space down: the nested walk over its tables. */
module Teardown {
  import opened Common
  import opened FrameState
  import opened PageTables
  import opened Paging

  /** The walk below table `f` has finished: every reference in the tree was dropped once,
      and nothing but the tree's own tables was written. */
  ghost predicate Released(m: Memory, s: Frames, n: Memory, t: Frames, f: nat, level: nat)
    requires level > 0
  {
    && Inv(t) && |t.counts| == |s.counts|
    && (forall x: nat :: Count(t, x) == Count(s, x) - Refs(m, f, level, x))
    && (forall g: nat :: g != f && !IsTable(m, f, level, g) ==> SameFrame(m, n, g))
    && (forall j :: Slots(level) <= j < 512 ==> Entries(n, f)[j] == Entries(m, f)[j])
  }

  /** The walk over table `f` has dealt with the entries before `i`. */
  ghost predicate Progress(m: Memory, s: Frames, n: Memory, t: Frames, f: nat, level: nat, i: nat)
    requires level > 0 && i <= 512
  {
    && Inv(t) && |t.counts| == |s.counts|
    && (forall x: nat :: Count(t, x) + Refs(m, f, level, x) == Count(s, x) + RefsFrom(m, f, level, i, x))
    && (forall g: nat :: g != f && !IsTable(m, f, level, g) ==> SameFrame(m, n, g))
    && (forall j :: i <= j < 512 ==> Entries(n, f)[j] == Entries(m, f)[j])
    && (forall u: nat :: TableFrom(m, f, level, i, u) ==> Entries(n, u) == Entries(m, u))
  }

  lemma {:induction false} SuffixWithin(m: Memory, f: nat, level: nat, i: nat, x: nat)
    requires level > 0 && i <= 512
    ensures RefsFrom(m, f, level, i, x) <= Refs(m, f, level, x)
    ensures TableFrom(m, f, level, i, x) ==> IsTable(m, f, level, x)
    decreases i
  {
    if i > 0 { SuffixWithin(m, f, level, i - 1, x); }
  }

  /** Tables below later entries are none of the tables below entry `i`. */
  lemma LaterTable(m: Memory, s: Frames, f: nat, level: nat, i: nat, c: nat, u: nat)
    requires Links(m, f, level, i, c) && Sub(m, s, f, level) && TableFrom(m, f, level, i + 1, u)
    ensures u != f && u != c && !IsTable(m, c, level - 1, u)
  {
    SuffixWithin(m, f, level, i + 1, u);
    TableIsRef(m, f, level, 0, u);
    if u == c || IsTable(m, c, level - 1, u) {
      ChildTables(m, f, level, i, c, u);
      EntryTableIsRef(m, f, level, i, u);
      var j := FindTable(m, f, level, i + 1, u);
      OnlyBelow(m, f, level, j, i, u);
    }
  }

  /** The child behind entry `i` is still intact when the walk reaches it. */
  lemma ChildIntact(m: Memory, s: Frames, n: Memory, t: Frames, f: nat, level: nat, i: nat, c: nat, x: nat)
    requires Links(m, f, level, i, c) && Sub(m, s, f, level) && Progress(m, s, n, t, f, level, i)
    ensures Refs(n, c, level - 1, x) == Refs(m, c, level - 1, x) <= Count(t, x)
    ensures IsTable(n, c, level - 1, x) <==> IsTable(m, c, level - 1, x)
    ensures x == c || IsTable(m, c, level - 1, x) ==> Count(t, x) == 1
  {
    forall u: nat | u == c || IsTable(m, c, level - 1, u) ensures Entries(n, u) == Entries(m, u) {
      ChildTables(m, f, level, i, c, u);
      assert TableFrom(m, f, level, i, u);
    }
    SameBelow(m, n, c, level - 1, 0, x);
    ChildRefs(m, f, level, i, c, x);
    SuffixWithin(m, f, level, i, x);
    if x == c || IsTable(m, c, level - 1, x) {
      ChildTables(m, f, level, i, c, x);
      EntryTableIsRef(m, f, level, i, x);
      assert Count(s, x) == 1;
    }
  }

  lemma ChildReady(m: Memory, s: Frames, n: Memory, t: Frames, f: nat, level: nat, i: nat, c: nat)
    requires Links(m, f, level, i, c) && Sub(m, s, f, level) && Progress(m, s, n, t, f, level, i)
    ensures Sub(n, t, c, level - 1)
  {
    Descend(m, s, f, level, i, c);
    forall x: nat
      ensures Refs(n, c, level - 1, x) <= Count(t, x)
      ensures IsTable(n, c, level - 1, x) ==> Count(t, x) == 1 && AllGood(n, x)
    {
      ChildIntact(m, s, n, t, f, level, i, c, x);
      if IsTable(m, c, level - 1, x) {
        ChildTables(m, f, level, i, c, x);
        assert TableFrom(m, f, level, i, x);
      }
    }
    ChildIntact(m, s, n, t, f, level, i, c, c);
  }

  /** Dropping one reference to a frame that has one. */
  lemma DropOne(s: Frames, f: nat)
    requires Inv(s) && Count(s, f) >= 1
    ensures var (t, o) := Deallocate(s, f);
      && o == Done && Inv(t) && |t.counts| == |s.counts|
      && forall x: nat :: Count(t, x) == Count(s, x) - if x == f then 1 else 0
  {
    DeallocatePreserves(s, f);
  }

  /** Later entries' tables survive emptying entry `i`. */
  lemma LaterIntact(m: Memory, s: Frames, n: Memory, t: Frames, o: Memory, u: Frames, f: nat, level: nat, i: nat, c: nat)
    requires Links(m, f, level, i, c) && Sub(m, s, f, level) && Progress(m, s, n, t, f, level, i)
    requires Released(n, t, o, u, c, level - 1)
    ensures SameFrame(n, o, f)
    ensures forall g: nat :: g != f && !IsTable(m, f, level, g) ==> SameFrame(m, o, g)
    ensures forall v: nat :: TableFrom(m, f, level, i + 1, v) ==> v != f && Entries(o, v) == Entries(m, v)
  {
    forall g: nat | g == f || !IsTable(m, f, level, g) ensures SameFrame(n, o, g) {
      ChildIntact(m, s, n, t, f, level, i, c, g);
      if g == c || IsTable(m, c, level - 1, g) {
        ChildTables(m, f, level, i, c, g);
        TableIsRef(m, f, level, 0, g);
      }
    }
    forall v: nat | TableFrom(m, f, level, i + 1, v) ensures v != f && Entries(o, v) == Entries(m, v) {
      LaterTable(m, s, f, level, i, c, v);
      ChildIntact(m, s, n, t, f, level, i, c, v);
      assert TableFrom(m, f, level, i, v);
    }
  }

  lemma InnerDone(m: Memory, s: Frames, n: Memory, t: Frames, o: Memory, u: Frames, f: nat, level: nat, i: nat, c: nat)
    requires Links(m, f, level, i, c) && Sub(m, s, f, level) && Progress(m, s, n, t, f, level, i)
    requires Released(n, t, o, u, c, level - 1)
    ensures Deallocate(u, c).1 == Done
    ensures Progress(m, s, SetEntry(o, f, i, UNUSED), Deallocate(u, c).0, f, level, i + 1)
  {
    ChildIntact(m, s, n, t, f, level, i, c, c);
    ChildRefs(m, f, level, i, c, c);
    assert Refs(m, c, level - 1, c) == 0 by { Descend(m, s, f, level, i, c); }
    DropOne(u, c);
    var v := Deallocate(u, c).0;
    LaterIntact(m, s, n, t, o, u, f, level, i, c);
    forall x: nat ensures Count(v, x) + Refs(m, f, level, x) == Count(s, x) + RefsFrom(m, f, level, i + 1, x) {
      ChildIntact(m, s, n, t, f, level, i, c, x);
      ChildRefs(m, f, level, i, c, x);
    }
  }

  lemma LeafDone(m: Memory, s: Frames, n: Memory, t: Frames, f: nat, level: nat, i: nat)
    requires level > 0 && i < Slots(level) && Sub(m, s, f, level) && Progress(m, s, n, t, f, level, i)
    requires Live(Entries(m, f)[i]) && !(level > 1 && Descends(Entries(m, f)[i], level))
    ensures var x := Entries(m, f)[i].frame;
      && Deallocate(t, x).1 == Done
      && Progress(m, s, SetEntry(n, f, i, UNUSED), Deallocate(t, x).0, f, level, i + 1)
  {
    var y := Entries(m, f)[i].frame;
    assert EntryRefs(m, f, level, i, y) == 1;
    assert Refs(m, f, level, y) <= Count(s, y);
    DropOne(t, y);
    var u := Deallocate(t, y).0;
    forall x: nat ensures Count(u, x) + Refs(m, f, level, x) == Count(s, x) + RefsFrom(m, f, level, i + 1, x) {
      assert EntryRefs(m, f, level, i, x) == if x == y then 1 else 0;
    }
    forall v: nat | TableFrom(m, f, level, i + 1, v) ensures v != f && TableFrom(m, f, level, i, v) {
      SuffixWithin(m, f, level, i + 1, v);
      TableIsRef(m, f, level, 0, v);
    }
    var o := SetEntry(n, f, i, UNUSED);
    assert forall v: nat :: TableFrom(m, f, level, i + 1, v) ==> Entries(o, v) == Entries(m, v);
    assert forall g: nat :: g != f && !IsTable(m, f, level, g) ==> SameFrame(m, o, g);
  }

  lemma DeadDone(m: Memory, s: Frames, n: Memory, t: Frames, f: nat, level: nat, i: nat)
    requires level > 0 && i < Slots(level) && Progress(m, s, n, t, f, level, i) && !Live(Entries(m, f)[i])
    ensures Progress(m, s, n, t, f, level, i + 1)
  {
    forall x: nat ensures RefsFrom(m, f, level, i, x) == RefsFrom(m, f, level, i + 1, x) {}
    forall v: nat | TableFrom(m, f, level, i + 1, v) ensures TableFrom(m, f, level, i, v) {}
  }

  lemma WalkStarts(m: Memory, s: Frames, f: nat, level: nat)
    requires level > 0 && Inv(s)
    ensures Progress(m, s, m, s, f, level, 0)
  {}

  lemma WalkEnds(m: Memory, s: Frames, n: Memory, t: Frames, f: nat, level: nat)
    requires level > 0 && Progress(m, s, n, t, f, level, Slots(level))
    ensures Released(m, s, n, t, f, level)
  {
    hide EntryRefs, TableFrom, EntryTable;
    forall x: nat ensures RefsFrom(m, f, level, Slots(level), x) == 0 {}
  }
}
