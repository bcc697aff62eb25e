/** Physical memory as frames, page tables as frames of 512 entries, and the multiset of
    references a table tree holds. A table at level `L` is named by the index path walked
    below it, so a page of an address space is a path of length 4 under its PML4. */
module PageTables {
  import opened Common
  import opened FrameState

  datatype Entry = Entry(frame: nat, present: bool, writable: bool, user: bool, huge: bool)

  const UNUSED := Entry(0, false, false, false, false)

  /** A frame in use either as a page table or as plain bytes. */
  datatype Content = Table(entries: seq<Entry>) | Data(bytes: seq<byte>)

  type Memory = map<nat, Content>

  function EmptyEntries(): (r: seq<Entry>)
    ensures |r| == 512 && forall i :: 0 <= i < 512 ==> r[i] == UNUSED
  {
    seq(512, _ => UNUSED)
  }

  /** The 512 entries of frame `f` read as a table. */
  function Entries(m: Memory, f: nat): (r: seq<Entry>)
    ensures |r| == 512
  {
    if f in m && m[f].Table? && |m[f].entries| == 512 then m[f].entries else EmptyEntries()
  }

  function SetEntry(m: Memory, f: nat, i: nat, e: Entry): (r: Memory)
    requires i < 512
    ensures Entries(r, f) == Entries(m, f)[i := e]
    ensures forall g :: g != f ==> Entries(r, g) == Entries(m, g)
  {
    m[f := Table(Entries(m, f)[i := e])]
  }

  /** Reference count of `f`, 0 for a frame that does not exist. */
  function Count(s: Frames, f: nat): nat {
    if f < |s.counts| then s.counts[f] else 0
  }

  /** An entry that teardown follows and releases. */
  predicate Live(e: Entry) {
    e != UNUSED && e.user
  }

  /** Teardown looks at the lower half of a PML4 only. */
  function Slots(level: nat): nat {
    if level == 4 then 256 else 512
  }

  /** A live entry at `level` that names a table rather than memory. */
  predicate Descends(e: Entry, level: nat) {
    level == 4 || (level > 1 && !e.huge)
  }

  // ------------------------------------------------------------------
  // References and tables below a table
  // ------------------------------------------------------------------

  /** How often frame `x` is referenced through entry `i` of table `f`. */
  ghost function EntryRefs(m: Memory, f: nat, level: nat, i: nat, x: nat): nat
    requires level > 0 && i < 512
    decreases level, 512 - i, 0
  {
    var e := Entries(m, f)[i];
    if !Live(e) then 0
    else (if e.frame == x then 1 else 0)
         + (if level > 1 && Descends(e, level) then RefsFrom(m, e.frame, level - 1, 0, x) else 0)
  }

  ghost function RefsFrom(m: Memory, f: nat, level: nat, i: nat, x: nat): nat
    requires level > 0 && i <= 512
    decreases level, 512 - i, 1
  {
    if i >= Slots(level) then 0
    else EntryRefs(m, f, level, i, x) + RefsFrom(m, f, level, i + 1, x)
  }

  /** How often frame `x` is referenced anywhere below table `f`. */
  ghost function Refs(m: Memory, f: nat, level: nat, x: nat): nat
    requires level > 0
  {
    RefsFrom(m, f, level, 0, x)
  }

  /** Frame `t` is a page table strictly below entry `i` of table `f`. */
  ghost predicate EntryTable(m: Memory, f: nat, level: nat, i: nat, t: nat)
    requires level > 0 && i < 512
    decreases level, 512 - i, 0
  {
    var e := Entries(m, f)[i];
    Live(e) && level > 1 && Descends(e, level) && (e.frame == t || TableFrom(m, e.frame, level - 1, 0, t))
  }

  ghost predicate TableFrom(m: Memory, f: nat, level: nat, i: nat, t: nat)
    requires level > 0 && i <= 512
    decreases level, 512 - i, 1
  {
    i < Slots(level) && (EntryTable(m, f, level, i, t) || TableFrom(m, f, level, i + 1, t))
  }

  ghost predicate IsTable(m: Memory, f: nat, level: nat, t: nat)
    requires level > 0
  {
    TableFrom(m, f, level, 0, t)
  }

  /** A huge page is released but not followed; a PML4 entry is always followed. */
  lemma HugeNotFollowed(m: Memory, f: nat, level: nat, i: nat, x: nat)
    requires level > 0 && i < 512 && Live(Entries(m, f)[i]) && Entries(m, f)[i].huge
    ensures level < 4 ==> EntryRefs(m, f, level, i, x) == (if Entries(m, f)[i].frame == x then 1 else 0) && !EntryTable(m, f, level, i, x)
    ensures level == 4 ==> EntryTable(m, f, level, i, Entries(m, f)[i].frame)
  {}

  /** Every table is itself referenced. */
  lemma {:induction false} TableIsRef(m: Memory, f: nat, level: nat, i: nat, t: nat)
    requires level > 0 && i <= 512 && TableFrom(m, f, level, i, t)
    ensures RefsFrom(m, f, level, i, t) >= 1
    decreases level, 512 - i, 1
  {
    if EntryTable(m, f, level, i, t) {
      EntryTableIsRef(m, f, level, i, t);
    } else {
      TableIsRef(m, f, level, i + 1, t);
    }
  }

  lemma {:induction false} EntryTableIsRef(m: Memory, f: nat, level: nat, i: nat, t: nat)
    requires level > 0 && i < 512 && EntryTable(m, f, level, i, t)
    ensures EntryRefs(m, f, level, i, t) >= 1
    decreases level, 512 - i, 0
  {
    var c := Entries(m, f)[i].frame;
    if c != t { TableIsRef(m, c, level - 1, 0, t); }
  }

  /** What lies below an entry depends only on the entries walked. */
  lemma {:induction false} SameEntry(m: Memory, n: Memory, f: nat, level: nat, i: nat, x: nat)
    requires level > 0 && i < 512
    requires Entries(m, f)[i] == Entries(n, f)[i]
    requires forall t :: EntryTable(m, f, level, i, t) ==> Entries(m, t) == Entries(n, t)
    ensures EntryRefs(m, f, level, i, x) == EntryRefs(n, f, level, i, x)
    ensures EntryTable(m, f, level, i, x) <==> EntryTable(n, f, level, i, x)
    decreases level, 512 - i, 0
  {
    var e := Entries(m, f)[i];
    if Live(e) && level > 1 && Descends(e, level) {
      assert EntryTable(m, f, level, i, e.frame);
      SameBelow(m, n, e.frame, level - 1, 0, x);
    }
  }

  lemma {:induction false} SameBelow(m: Memory, n: Memory, f: nat, level: nat, i: nat, x: nat)
    requires level > 0 && i <= 512
    requires forall j :: i <= j < 512 ==> Entries(m, f)[j] == Entries(n, f)[j]
    requires forall t :: TableFrom(m, f, level, i, t) ==> Entries(m, t) == Entries(n, t)
    ensures RefsFrom(m, f, level, i, x) == RefsFrom(n, f, level, i, x)
    ensures TableFrom(m, f, level, i, x) <==> TableFrom(n, f, level, i, x)
    decreases level, 512 - i, 1
  {
    if i < Slots(level) {
      SameEntry(m, n, f, level, i, x);
      SameBelow(m, n, f, level, i + 1, x);
    }
  }

  /** What one entry references is part of what the table references. */
  lemma {:induction false} EntryWithin(m: Memory, f: nat, level: nat, i: nat, k: nat, x: nat)
    requires level > 0 && i <= k < Slots(level)
    ensures EntryRefs(m, f, level, k, x) <= RefsFrom(m, f, level, i, x)
    ensures EntryTable(m, f, level, k, x) ==> TableFrom(m, f, level, i, x)
    decreases k - i
  {
    if i < k { EntryWithin(m, f, level, i + 1, k, x); }
  }

  /** Two entries of a table contribute separately. */
  lemma {:induction false} TwoEntries(m: Memory, f: nat, level: nat, i: nat, j: nat, k: nat, x: nat)
    requires level > 0 && i <= j < k < Slots(level)
    ensures EntryRefs(m, f, level, j, x) + EntryRefs(m, f, level, k, x) <= RefsFrom(m, f, level, i, x)
    decreases j - i
  {
    if i < j {
      TwoEntries(m, f, level, i + 1, j, k, x);
    } else {
      EntryWithin(m, f, level, i + 1, k, x);
    }
  }

  /** A frame referenced once below `f` and below entry `k` is not a table below another entry. */
  lemma OnlyBelow(m: Memory, f: nat, level: nat, j: nat, k: nat, t: nat)
    requires level > 0 && j < Slots(level) && k < Slots(level) && j != k
    requires Refs(m, f, level, t) == 1 && EntryRefs(m, f, level, k, t) >= 1
    ensures !EntryTable(m, f, level, j, t)
  {
    if EntryTable(m, f, level, j, t) { EntryTableIsRef(m, f, level, j, t); }
    if j < k { TwoEntries(m, f, level, 0, j, k, t); } else { TwoEntries(m, f, level, 0, k, j, t); }
  }

  /** A table below `f` is below one of its entries. */
  lemma {:induction false} FindTable(m: Memory, f: nat, level: nat, i: nat, t: nat) returns (k: nat)
    requires level > 0 && i <= 512 && TableFrom(m, f, level, i, t)
    ensures i <= k < Slots(level) && EntryTable(m, f, level, k, t)
    decreases 512 - i
  {
    if EntryTable(m, f, level, i, t) { k := i; } else { k := FindTable(m, f, level, i + 1, t); }
  }

  /** When only entry `k` contributes differently, the totals differ by that difference. */
  lemma {:induction false} OneChange(m: Memory, n: Memory, f: nat, level: nat, i: nat, k: nat, x: nat)
    requires level > 0 && i <= k < Slots(level)
    requires forall j :: i <= j < Slots(level) && j != k ==> EntryRefs(m, f, level, j, x) == EntryRefs(n, f, level, j, x)
    ensures RefsFrom(n, f, level, i, x) + EntryRefs(m, f, level, k, x)
         == RefsFrom(m, f, level, i, x) + EntryRefs(n, f, level, k, x)
    decreases 512 - i
  {
    if i < k {
      OneChange(m, n, f, level, i + 1, k, x);
    } else {
      NoChange(m, n, f, level, i + 1, x);
    }
  }

  lemma {:induction false} NoChange(m: Memory, n: Memory, f: nat, level: nat, i: nat, x: nat)
    requires level > 0 && i <= 512
    requires forall j :: i <= j < Slots(level) ==> EntryRefs(m, f, level, j, x) == EntryRefs(n, f, level, j, x)
    ensures RefsFrom(n, f, level, i, x) == RefsFrom(m, f, level, i, x)
    decreases 512 - i
  {
    if i < Slots(level) { NoChange(m, n, f, level, i + 1, x); }
  }

  /** An empty table references nothing. */
  lemma {:induction false} EmptyBelow(m: Memory, f: nat, level: nat, i: nat, x: nat)
    requires level > 0 && i <= 512 && Entries(m, f) == EmptyEntries()
    ensures RefsFrom(m, f, level, i, x) == 0 && !TableFrom(m, f, level, i, x)
    decreases 512 - i
  {
    if i < Slots(level) { EmptyBelow(m, f, level, i + 1, x); }
  }

  // ------------------------------------------------------------------
  // Well-formed subtrees
  // ------------------------------------------------------------------

  /** A user-tree entry: empty, or present, user-accessible and not huge. The kernel maps user
      memory in 4 KiB pages only. */
  predicate Good(e: Entry) {
    e == UNUSED || (e.present && e.user && !e.huge)
  }

  ghost predicate AllGood(m: Memory, t: nat) {
    forall j :: 0 <= j < 512 ==> Good(Entries(m, t)[j])
  }

  /** A well-formed subtree under `f`: the counts cover all its references, and the root and
      every table below it are referenced exactly once, tables holding user entries only. */
  ghost predicate Sub(m: Memory, s: Frames, f: nat, level: nat)
    requires level > 0
  {
    && Inv(s)
    && (forall x: nat :: Refs(m, f, level, x) <= Count(s, x))
    && (forall t: nat :: IsTable(m, f, level, t) ==> Count(s, t) == 1 && AllGood(m, t))
    && Count(s, f) == 1 && Refs(m, f, level, f) == 0
  }

  /** References to `x` held by anything other than the subtree under `f`. */
  ghost function Others(m: Memory, s: Frames, f: nat, level: nat, x: nat): int
    requires level > 0
  {
    Count(s, x) - Refs(m, f, level, x)
  }

  /** Entry `k` of table `f` leads to table `c`. */
  ghost predicate Links(m: Memory, f: nat, level: nat, k: nat, c: nat) {
    && level > 1 && k < Slots(level)
    && Live(Entries(m, f)[k]) && Descends(Entries(m, f)[k], level) && Entries(m, f)[k].frame == c
  }

  lemma ChildRefs(m: Memory, f: nat, level: nat, k: nat, c: nat, x: nat)
    requires Links(m, f, level, k, c)
    ensures EntryRefs(m, f, level, k, x) == Refs(m, c, level - 1, x) + if x == c then 1 else 0
    ensures EntryRefs(m, f, level, k, x) <= Refs(m, f, level, x)
  {
    EntryWithin(m, f, level, 0, k, x);
  }

  lemma ChildTables(m: Memory, f: nat, level: nat, k: nat, c: nat, t: nat)
    requires Links(m, f, level, k, c)
    requires t == c || IsTable(m, c, level - 1, t)
    ensures EntryTable(m, f, level, k, t) && IsTable(m, f, level, t)
  {
    EntryWithin(m, f, level, 0, k, t);
  }

  /** A child of a well-formed subtree is a well-formed subtree. */
  lemma Descend(m: Memory, s: Frames, f: nat, level: nat, k: nat, c: nat)
    requires Links(m, f, level, k, c) && Sub(m, s, f, level)
    ensures Sub(m, s, c, level - 1) && IsTable(m, f, level, c)
  {
    ChildTables(m, f, level, k, c, c);
    ChildRefs(m, f, level, k, c, c);
    forall x: nat
      ensures Refs(m, c, level - 1, x) <= Count(s, x)
      ensures IsTable(m, c, level - 1, x) ==> Count(s, x) == 1 && AllGood(m, x)
    {
      ChildRefs(m, f, level, k, c, x);
      if IsTable(m, c, level - 1, x) { ChildTables(m, f, level, k, c, x); }
    }
  }
}
