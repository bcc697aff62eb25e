/** User address spaces: creation, page mapping and teardown (src/mm/memory.rs). */
module AddressSpaces {
  import opened Common
  import opened FrameState
  import opened PageTables
  import opened Paging
  import opened Lookups
  import opened Sums
  import opened World
  import opened Teardown

  /** One past the last page number of the lower canonical half. */
  const USER_PAGES := 0x8_0000_0000

  /** The four table indices of a page number, top level first. */
  function PathOf(page: nat): (path: seq<nat>)
    ensures |path| == 4 && IsIndices(path)
    ensures page < USER_PAGES ==> IsPath(path)
  {
    [page / 512 / 512 / 512 % 512, page / 512 / 512 % 512, page / 512 % 512, page % 512]
  }

  /** The page the hardware finds behind four indices: nine address bits each, the top ones first. */
  function PageOf(path: seq<nat>): nat
    requires |path| == 4
  {
    ((path[0] * 512 + path[1]) * 512 + path[2]) * 512 + path[3]
  }

  lemma PathRoundTrip(page: nat)
    requires page < 512 * 512 * 512 * 512
    ensures PageOf(PathOf(page)) == page
  {
    assert page / 512 / 512 / 512 < 512;
    assert page / 512 / 512 == page / 512 / 512 / 512 * 512 + page / 512 / 512 % 512;
    assert page / 512 == page / 512 / 512 * 512 + page / 512 % 512;
  }

  /** Pages of the lower half have different paths. */
  lemma PathsDiffer(a: nat, b: nat)
    requires a < USER_PAGES && b < USER_PAGES && a != b
    ensures PathOf(a) != PathOf(b)
  {
    hide PathOf;
    PathRoundTrip(a);
    PathRoundTrip(b);
  }

  // ------------------------------------------------------------------
  // The world gains and loses an address space
  // ------------------------------------------------------------------

  ghost predicate OnlyAt(m: Memory, n: Memory, c: nat) {
    forall g: nat :: g != c ==> SameFrame(m, n, g)
  }

  lemma OnlyAtSet(m: Memory, n: Memory, c: nat, i: nat, e: Entry)
    requires OnlyAt(m, n, c) && i < 512
    ensures OnlyAt(m, SetEntry(n, c, i, e), c)
  {
    forall g: nat | g != c ensures SameFrame(m, SetEntry(n, c, i, e), g) {
      assert SameFrame(m, n, g);
    }
  }

  lemma {:induction false} NothingLive(m: Memory, f: nat, i: nat, x: nat)
    requires i <= 512 && forall j :: i <= j < 256 ==> !Live(Entries(m, f)[j])
    ensures RefsFrom(m, f, 4, i, x) == 0 && !TableFrom(m, f, 4, i, x)
    decreases 512 - i
  {
    if i < 256 { NothingLive(m, f, i + 1, x); }
  }

  lemma WorldAdd(m: Memory, s: Frames, n: Memory, t: Frames, roots: seq<nat>, c: nat)
    requires Consistent(m, s, roots) && OnlyAt(m, n, c) && Inv(t) && Count(s, c) == 0
    requires forall x: nat :: Count(t, x) == Count(s, x) + if x == c then 1 else 0
    requires forall j :: 0 <= j < 256 ==> !Live(Entries(n, c)[j])
    ensures Consistent(n, t, roots + [c])
    ensures forall x: nat :: Outside(n, t, roots + [c], x) == Outside(m, s, roots, x)
  {
    hide RefsFrom, EntryRefs, TableFrom, EntryTable;
    var all := roots + [c];
    forall x: nat ensures Total(n, all, x) == Total(m, roots, x) + if x == c then 1 else 0 {
      NothingLive(n, c, 0, x);
      forall j | 0 <= j < |roots| ensures Owned(n, roots[j], x) == Owned(m, roots[j], x) {
        OldSpace(m, s, n, t, roots, c, j, x);
      }
      assert Shares(n, all, x) == Shares(m, roots, x) + [if x == c then 1 else 0];
      SumAppend(Shares(m, roots, x), if x == c then 1 else 0);
    }
    forall j | 0 <= j < |all| ensures Sub(n, t, all[j], 4) {
      if j < |roots| {
        OldSpace(m, s, n, t, roots, c, j, 0);
      } else {
        NewSpace(n, t, c);
        assert Count(t, c) == 1;
      }
    }
  }

  lemma NewSpace(n: Memory, t: Frames, c: nat)
    requires Inv(t) && Count(t, c) == 1 && forall j :: 0 <= j < 256 ==> !Live(Entries(n, c)[j])
    ensures Sub(n, t, c, 4)
  {
    hide RefsFrom, EntryRefs, TableFrom, EntryTable;
    forall x: nat ensures Refs(n, c, 4, x) == 0 && !IsTable(n, c, 4, x) {
      NothingLive(n, c, 0, x);
    }
  }

  lemma OldSpace(m: Memory, s: Frames, n: Memory, t: Frames, roots: seq<nat>, c: nat, j: nat, x: nat)
    requires Consistent(m, s, roots) && OnlyAt(m, n, c) && Inv(t) && Count(s, c) == 0 && j < |roots|
    requires forall y: nat :: Count(t, y) == Count(s, y) + if y == c then 1 else 0
    ensures Owned(n, roots[j], x) == Owned(m, roots[j], x) && Sub(n, t, roots[j], 4)
  {
    hide RefsFrom, EntryRefs, TableFrom, EntryTable;
    assert Sub(m, s, roots[j], 4);
    forall g: nat | Structural(m, roots[j], g) ensures Entries(m, g) == Entries(n, g) && Count(t, g) == 1 {
      assert Count(s, g) == 1;
      assert SameFrame(m, n, g);
    }
    SameSpace(m, n, roots[j], x);
    forall y: nat ensures Refs(m, roots[j], 4, y) <= Count(t, y) {
      assert Refs(m, roots[j], 4, y) <= Count(s, y);
    }
    SameSub(m, n, s, t, roots[j]);
  }

  function Without(roots: seq<nat>, k: nat): seq<nat>
    requires k < |roots|
  {
    roots[..k] + roots[k + 1..]
  }

  /** Releasing one address space and its PML4. */
  ghost predicate Gone(m: Memory, s: Frames, n: Memory, t: Frames, r: nat) {
    && Inv(t) && |t.counts| == |s.counts|
    && (forall x: nat :: Count(t, x) == Count(s, x) - Owned(m, r, x))
    && (forall g: nat :: !Structural(m, r, g) ==> SameFrame(m, n, g))
  }

  lemma Survivor(m: Memory, s: Frames, n: Memory, t: Frames, roots: seq<nat>, k: nat, j: nat, x: nat)
    requires Consistent(m, s, roots) && k < |roots| && Gone(m, s, n, t, roots[k]) && j < |roots| && j != k
    ensures Owned(n, roots[j], x) == Owned(m, roots[j], x) && Sub(n, t, roots[j], 4)
  {
    hide RefsFrom, EntryRefs, TableFrom, EntryTable;
    assert Sub(m, s, roots[j], 4);
    forall g: nat | Structural(m, roots[j], g) ensures Entries(m, g) == Entries(n, g) && Count(t, g) == 1 {
      Disjoint(m, s, roots, j, k, g);
      assert SameFrame(m, n, g);
    }
    SameSpace(m, n, roots[j], x);
    forall y: nat ensures Refs(m, roots[j], 4, y) <= Count(t, y) {
      SumTwo(Shares(m, roots, y), if j < k then j else k, if j < k then k else j);
      assert Total(m, roots, y) <= Count(s, y);
    }
    SameSub(m, n, s, t, roots[j]);
  }

  lemma TotalWithout(m: Memory, s: Frames, n: Memory, t: Frames, roots: seq<nat>, k: nat, x: nat)
    requires Consistent(m, s, roots) && k < |roots| && Gone(m, s, n, t, roots[k])
    ensures Total(n, Without(roots, k), x) == Total(m, roots, x) - Owned(m, roots[k], x)
  {
    hide RefsFrom, EntryRefs, TableFrom, EntryTable;
    var rest := Without(roots, k);
    var xs := Shares(m, roots, x);
    forall j | 0 <= j < |rest| ensures Shares(n, rest, x)[j] == (xs[..k] + xs[k + 1..])[j] {
      Survivor(m, s, n, t, roots, k, if j < k then j else j + 1, x);
    }
    assert Shares(n, rest, x) == xs[..k] + xs[k + 1..];
    SumRemove(xs, k);
  }

  lemma WorldRemove(m: Memory, s: Frames, n: Memory, t: Frames, roots: seq<nat>, k: nat)
    requires Consistent(m, s, roots) && k < |roots| && Gone(m, s, n, t, roots[k])
    ensures Consistent(n, t, Without(roots, k))
    ensures forall x: nat :: Outside(n, t, Without(roots, k), x) == Outside(m, s, roots, x)
  {
    hide RefsFrom, EntryRefs, TableFrom, EntryTable;
    var rest := Without(roots, k);
    forall x: nat
      ensures Outside(n, t, rest, x) == Outside(m, s, roots, x) && Total(n, rest, x) <= Count(t, x)
    {
      TotalWithout(m, s, n, t, roots, k, x);
      assert Total(m, roots, x) <= Count(s, x);
    }
    forall j | 0 <= j < |rest| ensures Sub(n, t, rest[j], 4) {
      Survivor(m, s, n, t, roots, k, if j < k then j else j + 1, 0);
    }
  }
}
