/** Finite sums of natural numbers. */
module Sums {
  ghost function Sum(xs: seq<nat>): nat {
    if xs == [] then 0 else xs[0] + Sum(xs[1..])
  }

  lemma {:induction false} SumOne(xs: seq<nat>, k: nat)
    requires k < |xs|
    ensures xs[k] <= Sum(xs)
  {
    if k > 0 { SumOne(xs[1..], k - 1); }
  }

  lemma {:induction false} SumTwo(xs: seq<nat>, j: nat, k: nat)
    requires j < k < |xs|
    ensures xs[j] + xs[k] <= Sum(xs)
  {
    if j > 0 { SumTwo(xs[1..], j - 1, k - 1); } else { SumOne(xs[1..], k - 1); }
  }

  /** Sums of sequences that differ in one place differ by that difference. */
  lemma {:induction false} SumStep(xs: seq<nat>, ys: seq<nat>, k: nat)
    requires |xs| == |ys| && k < |xs| && forall j :: 0 <= j < |xs| && j != k ==> xs[j] == ys[j]
    ensures Sum(ys) + xs[k] == Sum(xs) + ys[k]
  {
    if k > 0 { SumStep(xs[1..], ys[1..], k - 1); } else { assert xs[1..] == ys[1..]; }
  }

  lemma {:induction false} SumAppend(xs: seq<nat>, y: nat)
    ensures Sum(xs + [y]) == Sum(xs) + y
  {
    if xs == [] {
      assert xs + [y] == [y];
    } else {
      assert (xs + [y])[1..] == xs[1..] + [y];
      SumAppend(xs[1..], y);
    }
  }

  lemma {:induction false} SumRemove(xs: seq<nat>, k: nat)
    requires k < |xs|
    ensures Sum(xs[..k] + xs[k + 1..]) == Sum(xs) - xs[k]
  {
    if k == 0 {
      assert xs[..0] + xs[1..] == xs[1..];
    } else {
      assert (xs[..k] + xs[k + 1..])[1..] == xs[1..][..k - 1] + xs[1..][k..];
      SumRemove(xs[1..], k - 1);
    }
  }
}

/** All live address spaces together: how the allocator's counts are shared out between the
    page tables of every task and the references held outside them. */
module World {
  import opened Sums
  import opened Common
  import opened FrameState
  import opened PageTables
  import opened Paging
  import opened Lookups
  import opened Budgets

  /** References to `x` held by the address space rooted at `r`, its own PML4 included. */
  ghost function Owned(m: Memory, r: nat, x: nat): nat {
    Refs(m, r, 4, x) + if x == r then 1 else 0
  }

  ghost function Shares(m: Memory, roots: seq<nat>, x: nat): (r: seq<nat>)
    ensures |r| == |roots| && forall j :: 0 <= j < |roots| ==> r[j] == Owned(m, roots[j], x)
  {
    seq(|roots|, j requires 0 <= j < |roots| => Owned(m, roots[j], x))
  }

  ghost function Total(m: Memory, roots: seq<nat>, x: nat): nat {
    Sum(Shares(m, roots, x))
  }

  /** Every address space is well formed and the counts cover all of them at once. */
  ghost predicate Consistent(m: Memory, s: Frames, roots: seq<nat>) {
    && Inv(s)
    && (forall j :: 0 <= j < |roots| ==> Sub(m, s, roots[j], 4))
    && forall x: nat :: Total(m, roots, x) <= Count(s, x)
  }

  /** References to `x` held by nobody's page tables. */
  ghost function Outside(m: Memory, s: Frames, roots: seq<nat>, x: nat): int {
    Count(s, x) - Total(m, roots, x)
  }

  /** `g` is the PML4 or another page table of the address space rooted at `r`. */
  ghost predicate Structural(m: Memory, r: nat, g: nat) {
    g == r || IsTable(m, r, 4, g)
  }

  lemma StructuralIsOwned(m: Memory, r: nat, g: nat)
    requires Structural(m, r, g)
    ensures Owned(m, r, g) >= 1
  {
    hide RefsFrom, EntryRefs, TableFrom, EntryTable;
    if IsTable(m, r, 4, g) { TableIsRef(m, r, 4, 0, g); }
  }

  /** Different address spaces share no page table. */
  lemma Disjoint(m: Memory, s: Frames, roots: seq<nat>, j: nat, k: nat, g: nat)
    requires Consistent(m, s, roots) && j < |roots| && k < |roots| && j != k && Structural(m, roots[j], g)
    ensures !Structural(m, roots[k], g) && Owned(m, roots[k], g) == 0 && Count(s, g) == 1
  {
    hide RefsFrom, EntryRefs, TableFrom, EntryTable;
    StructuralIsOwned(m, roots[j], g);
    assert Sub(m, s, roots[j], 4);
    SumTwo(Shares(m, roots, g), if j < k then j else k, if j < k then k else j);
    if Structural(m, roots[k], g) { StructuralIsOwned(m, roots[k], g); }
  }

  /** An address space whose tables read the same references the same frames. */
  lemma SameSpace(m: Memory, n: Memory, r: nat, x: nat)
    requires forall g: nat :: Structural(m, r, g) ==> Entries(m, g) == Entries(n, g)
    ensures Refs(n, r, 4, x) == Refs(m, r, 4, x) && (IsTable(n, r, 4, x) <==> IsTable(m, r, 4, x))
  {
    hide RefsFrom, EntryRefs, TableFrom, EntryTable;
    assert Structural(m, r, r);
    forall t | TableFrom(m, r, 4, 0, t) ensures Entries(m, t) == Entries(n, t) {
      assert Structural(m, r, t);
    }
    SameBelow(m, n, r, 4, 0, x);
  }

  lemma SameSub(m: Memory, n: Memory, s: Frames, t: Frames, r: nat)
    requires Sub(m, s, r, 4) && Inv(t)
    requires forall g: nat :: Structural(m, r, g) ==> Entries(m, g) == Entries(n, g) && Count(t, g) == 1
    requires forall x: nat :: Refs(m, r, 4, x) <= Count(t, x)
    ensures Sub(n, t, r, 4)
  {
    hide RefsFrom, EntryRefs, TableFrom, EntryTable;
    assert Structural(m, r, r);
    forall x: nat
      ensures Refs(n, r, 4, x) == Refs(m, r, 4, x)
      ensures IsTable(n, r, 4, x) ==> Count(t, x) == 1 && AllGood(n, x)
    {
      SameSpace(m, n, r, x);
      assert IsTable(m, r, 4, x) ==> Structural(m, r, x);
    }
  }

  lemma SamePage(m: Memory, n: Memory, s: Frames, r: nat, path: seq<nat>)
    requires Sub(m, s, r, 4) && IsPath(path) && |path| == 4 && Enters(m, r, path)
    requires forall g: nat :: Structural(m, r, g) ==> Entries(m, g) == Entries(n, g)
    ensures Lookup(n, r, path) == Lookup(m, r, path) && Missing(n, r, path) == Missing(m, r, path)
    ensures WriteAccess(n, r, path) == WriteAccess(m, r, path)
  {
    hide RefsFrom, EntryRefs, TableFrom, EntryTable;
    assert Structural(m, r, r);
    forall t | EntryTable(m, r, 4, path[0], t) ensures Entries(m, t) == Entries(n, t) {
      EntryWithin(m, r, 4, 0, path[0], t);
      assert Structural(m, r, t);
    }
    SameLookup(m, n, s, r, path);
    SameMissing(m, n, s, r, path);
  }

  // ------------------------------------------------------------------
  // One address space changes
  // ------------------------------------------------------------------

  /** A change inside one address space leaves the tables of the others alone. */
  lemma OtherSpace(m: Memory, s: Frames, n: Memory, t: Frames, roots: seq<nat>, k: nat, d: Change, j: nat, g: nat)
    requires Consistent(m, s, roots) && k < |roots| && Evolves(m, s, n, t, roots[k], 4, d)
    requires j < |roots| && j != k && Structural(m, roots[j], g)
    ensures Entries(m, g) == Entries(n, g) && Count(t, g) == 1
  {
    hide RefsFrom, EntryRefs, TableFrom, EntryTable;
    Disjoint(m, s, roots, j, k, g);
  }

  lemma OtherOwned(m: Memory, s: Frames, n: Memory, t: Frames, roots: seq<nat>, k: nat, d: Change, j: nat, x: nat)
    requires Consistent(m, s, roots) && k < |roots| && Evolves(m, s, n, t, roots[k], 4, d)
    requires j < |roots| && j != k
    ensures Owned(n, roots[j], x) == Owned(m, roots[j], x)
  {
    hide RefsFrom, EntryRefs, TableFrom, EntryTable;
    forall g: nat | Structural(m, roots[j], g) ensures Entries(m, g) == Entries(n, g) {
      OtherSpace(m, s, n, t, roots, k, d, j, g);
    }
    SameSpace(m, n, roots[j], x);
  }

  lemma OutsideStep(m: Memory, s: Frames, n: Memory, t: Frames, roots: seq<nat>, k: nat, d: Change, x: nat)
    requires Consistent(m, s, roots) && k < |roots| && Evolves(m, s, n, t, roots[k], 4, d)
    ensures Outside(n, t, roots, x) == Outside(m, s, roots, x) - Delta(d, x)
  {
    hide RefsFrom, EntryRefs, TableFrom, EntryTable;
    forall j | 0 <= j < |roots| && j != k ensures Owned(n, roots[j], x) == Owned(m, roots[j], x) {
      OtherOwned(m, s, n, t, roots, k, d, j, x);
    }
    SumStep(Shares(m, roots, x), Shares(n, roots, x), k);
    assert Others(n, t, roots[k], 4, x) == Others(m, s, roots[k], 4, x) - Delta(d, x);
  }

  /** A change inside one address space keeps the whole world consistent, and the references
      outside all page tables change by exactly the one taken over or given up. */
  lemma WorldStep(m: Memory, s: Frames, n: Memory, t: Frames, roots: seq<nat>, k: nat, d: Change)
    requires Consistent(m, s, roots) && k < |roots| && Evolves(m, s, n, t, roots[k], 4, d)
    requires d.Takes? ==> Outside(m, s, roots, d.frame) >= 1
    ensures Consistent(n, t, roots)
    ensures forall x: nat :: Outside(n, t, roots, x) == Outside(m, s, roots, x) - Delta(d, x)
  {
    hide RefsFrom, EntryRefs, TableFrom, EntryTable;
    forall x: nat ensures Outside(n, t, roots, x) == Outside(m, s, roots, x) - Delta(d, x) {
      OutsideStep(m, s, n, t, roots, k, d, x);
    }
    forall x: nat ensures Total(n, roots, x) <= Count(t, x) {
      assert Outside(n, t, roots, x) == Outside(m, s, roots, x) - Delta(d, x);
    }
    forall j | 0 <= j < |roots| ensures Sub(n, t, roots[j], 4) {
      if j != k { OtherSub(m, s, n, t, roots, k, d, j); }
    }
  }

  lemma OtherSub(m: Memory, s: Frames, n: Memory, t: Frames, roots: seq<nat>, k: nat, d: Change, j: nat)
    requires Consistent(m, s, roots) && k < |roots| && Evolves(m, s, n, t, roots[k], 4, d)
    requires j < |roots| && j != k
    ensures Sub(n, t, roots[j], 4)
  {
    hide RefsFrom, EntryRefs, TableFrom, EntryTable;
    forall g: nat | Structural(m, roots[j], g) ensures Entries(m, g) == Entries(n, g) && Count(t, g) == 1 {
      OtherSpace(m, s, n, t, roots, k, d, j, g);
    }
    assert Sub(m, s, roots[j], 4);
    forall x: nat ensures Refs(m, roots[j], 4, x) <= Count(t, x) {
      assert Refs(m, roots[j], 4, x) <= Count(s, x);
    }
    SameSub(m, n, s, t, roots[j]);
  }

  // ------------------------------------------------------------------
  // Memory written without touching any page table
  // ------------------------------------------------------------------

  /** No live address space uses `g` as a page table. */
  ghost predicate PlainFrame(m: Memory, roots: seq<nat>, g: nat) {
    forall j :: 0 <= j < |roots| ==> !Structural(m, roots[j], g)
  }

  /** A mapped page never lies on a page table of any address space. */
  lemma PageIsPlain(m: Memory, s: Frames, roots: seq<nat>, k: nat, path: seq<nat>)
    requires Consistent(m, s, roots) && k < |roots| && IsPath(path) && |path| == 4
    requires Enters(m, roots[k], path) && Lookup(m, roots[k], path).Some?
    ensures PlainFrame(m, roots, Lookup(m, roots[k], path).value.frame) && Count(s, Lookup(m, roots[k], path).value.frame) > 0
  {
    hide RefsFrom, EntryRefs, TableFrom, EntryTable;
    var x := Lookup(m, roots[k], path).value.frame;
    assert Sub(m, s, roots[k], 4);
    LookupIsRef(m, s, roots[k], path);
    EntryWithin(m, roots[k], 4, 0, path[0], x);
    forall j | 0 <= j < |roots| ensures !Structural(m, roots[j], x) {
      if Structural(m, roots[j], x) {
        if j == k {
          TableAndPage(m, s, roots[k], path, x);
        } else {
          Disjoint(m, s, roots, j, k, x);
        }
      }
    }
  }

  lemma WriteSpace(m: Memory, s: Frames, r: nat, g: nat, c: Content, x: nat)
    requires Sub(m, s, r, 4) && !Structural(m, r, g)
    ensures Owned(m[g := c], r, x) == Owned(m, r, x) && Sub(m[g := c], s, r, 4)
  {
    hide RefsFrom, EntryRefs, TableFrom, EntryTable;
    var n := m[g := c];
    forall u: nat | Structural(m, r, u) ensures Entries(m, u) == Entries(n, u) {}
    SameSpace(m, n, r, x);
    SameSub(m, n, s, s, r);
  }

  /** Writing a frame that is nobody's page table changes no reference. */
  lemma WorldWrite(m: Memory, s: Frames, roots: seq<nat>, g: nat, c: Content)
    requires Consistent(m, s, roots) && PlainFrame(m, roots, g)
    ensures Consistent(m[g := c], s, roots)
    ensures forall x: nat :: Outside(m[g := c], s, roots, x) == Outside(m, s, roots, x)
  {
    hide RefsFrom, EntryRefs, TableFrom, EntryTable;
    var n := m[g := c];
    forall x: nat ensures Total(n, roots, x) == Total(m, roots, x) {
      forall j | 0 <= j < |roots| ensures Shares(n, roots, x)[j] == Shares(m, roots, x)[j] {
        WriteSpace(m, s, roots[j], g, c, x);
      }
      assert Shares(n, roots, x) == Shares(m, roots, x);
    }
    forall j | 0 <= j < |roots| ensures Sub(n, s, roots[j], 4) {
      WriteSpace(m, s, roots[j], g, c, 0);
    }
    forall x: nat ensures Total(n, roots, x) <= Count(s, x) {
      assert Total(m, roots, x) <= Count(s, x);
    }
  }

  /** ... and no translation. */
  lemma WriteKeepsPages(m: Memory, s: Frames, roots: seq<nat>, g: nat, c: Content, j: nat, q: seq<nat>)
    requires Consistent(m, s, roots) && PlainFrame(m, roots, g) && j < |roots|
    requires IsPath(q) && |q| == 4 && Enters(m, roots[j], q)
    ensures Lookup(m[g := c], roots[j], q) == Lookup(m, roots[j], q) && Enters(m[g := c], roots[j], q)
    ensures Missing(m[g := c], roots[j], q) == Missing(m, roots[j], q)
    ensures WriteAccess(m[g := c], roots[j], q) == WriteAccess(m, roots[j], q)
  {
    hide RefsFrom, EntryRefs, TableFrom, EntryTable;
    var n := m[g := c];
    assert Sub(m, s, roots[j], 4);
    forall u: nat | Structural(m, roots[j], u) ensures Entries(m, u) == Entries(n, u) {}
    assert Structural(m, roots[j], roots[j]);
    SamePage(m, n, s, roots[j], q);
  }

  /** Handing out a free frame to nobody in particular. */
  lemma WorldAlloc(m: Memory, s: Frames, roots: seq<nat>)
    requires Consistent(m, s, roots) && Allocate(s).1.Some?
    ensures var (t, d) := Allocate(s);
      && Consistent(m, t, roots) && Count(s, d.value) == 0
      && (forall x: nat :: Count(t, x) == Count(s, x) + if x == d.value then 1 else 0)
      && forall x: nat :: Outside(m, t, roots, x) == Outside(m, s, roots, x) + if x == d.value then 1 else 0
  {
    hide RefsFrom, EntryRefs, TableFrom, EntryTable;
    var (t, d) := Allocate(s);
    AllocatePreserves(s);
    forall x: nat ensures Count(t, x) == Count(s, x) + if x == d.value then 1 else 0 {}
    forall j | 0 <= j < |roots| ensures Sub(m, t, roots[j], 4) {
      assert Sub(m, s, roots[j], 4);
      forall g: nat | Structural(m, roots[j], g) ensures Count(t, g) == 1 {
        assert Count(s, g) == 1;
      }
      forall x: nat ensures Refs(m, roots[j], 4, x) <= Count(t, x) {
        assert Refs(m, roots[j], 4, x) <= Count(s, x);
      }
      SameSub(m, m, s, t, roots[j]);
    }
    forall x: nat ensures Total(m, roots, x) <= Count(t, x) {
      assert Total(m, roots, x) <= Count(s, x);
    }
  }

  /** Giving back a reference that no page table accounts for. */
  lemma WorldDrop(m: Memory, s: Frames, roots: seq<nat>, f: nat)
    requires Consistent(m, s, roots) && Outside(m, s, roots, f) >= 1
    ensures var (t, o) := Deallocate(s, f);
      && o == Done && Consistent(m, t, roots)
      && (forall x: nat :: Count(t, x) == Count(s, x) - if x == f then 1 else 0)
      && forall x: nat :: Outside(m, t, roots, x) == Outside(m, s, roots, x) - if x == f then 1 else 0
  {
    hide RefsFrom, EntryRefs, TableFrom, EntryTable;
    var t := Deallocate(s, f).0;
    DeallocatePreserves(s, f);
    forall x: nat ensures Count(t, x) == Count(s, x) - if x == f then 1 else 0 {}
    forall x: nat ensures Total(m, roots, x) <= Count(t, x) {
      assert Total(m, roots, x) <= Count(s, x);
    }
    forall j | 0 <= j < |roots| ensures Sub(m, t, roots[j], 4) {
      DropSpace(m, s, t, roots, f, j);
    }
  }

  lemma DropSpace(m: Memory, s: Frames, t: Frames, roots: seq<nat>, f: nat, j: nat)
    requires Consistent(m, s, roots) && Outside(m, s, roots, f) >= 1 && j < |roots| && Inv(t)
    requires forall x: nat :: Count(t, x) == Count(s, x) - if x == f then 1 else 0
    ensures Sub(m, t, roots[j], 4)
  {
    hide RefsFrom, EntryRefs, TableFrom, EntryTable;
    assert Sub(m, s, roots[j], 4);
    forall g: nat | Structural(m, roots[j], g) ensures Count(t, g) == 1 {
      StructuralIsOwned(m, roots[j], g);
      SumOne(Shares(m, roots, g), j);
    }
    forall x: nat ensures Refs(m, roots[j], 4, x) <= Count(t, x) {
      SumOne(Shares(m, roots, x), j);
      assert Total(m, roots, x) <= Count(s, x);
    }
    SameSub(m, m, s, t, roots[j]);
  }

  /** A frame nobody refers to is nobody's page table. */
  lemma FreeIsPlain(m: Memory, s: Frames, roots: seq<nat>, g: nat)
    requires Consistent(m, s, roots) && Count(s, g) == 0
    ensures PlainFrame(m, roots, g)
  {
    hide RefsFrom, EntryRefs, TableFrom, EntryTable;
    forall j | 0 <= j < |roots| ensures !Structural(m, roots[j], g) {
      assert Sub(m, s, roots[j], 4);
    }
  }

  /** A change inside one address space changes no translation of another. */
  lemma OtherPages(m: Memory, s: Frames, n: Memory, t: Frames, roots: seq<nat>, k: nat, d: Change, j: nat, q: seq<nat>)
    requires Consistent(m, s, roots) && k < |roots| && Evolves(m, s, n, t, roots[k], 4, d)
    requires j < |roots| && j != k && IsPath(q) && |q| == 4 && Enters(m, roots[j], q)
    ensures Lookup(n, roots[j], q) == Lookup(m, roots[j], q) && Enters(n, roots[j], q)
  {
    hide RefsFrom, EntryRefs, TableFrom, EntryTable;
    forall g: nat | Structural(m, roots[j], g) ensures Entries(m, g) == Entries(n, g) {
      OtherSpace(m, s, n, t, roots, k, d, j, g);
    }
    assert Sub(m, s, roots[j], 4) && Structural(m, roots[j], roots[j]);
    SamePage(m, n, s, roots[j], q);
  }
}
