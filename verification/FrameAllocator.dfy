/** The abstract state of the physical frame allocator and what each of its
    operations does to it. Frame `f` covers physical bytes `[4096 * f, 4096 * (f + 1))`. */
module FrameState {
  import opened Common

  /** `busy[f]` is the bitmap bit, `counts[f]` the 16-bit reference count. */
  datatype Frames = Frames(busy: seq<bool>, counts: seq<nat>, hint: nat)

  const MAX_COUNT := 65535

  /** What every run keeps: a bit is set exactly when its count is positive, counts fit
      in 16 bits, and the search hint has only busy frames below it. */
  ghost predicate Inv(s: Frames) {
    && |s.busy| == |s.counts|
    && s.hint <= |s.busy|
    && (forall f :: 0 <= f < |s.busy| ==> (s.busy[f] <==> s.counts[f] > 0))
    && (forall f :: 0 <= f < |s.counts| ==> s.counts[f] <= MAX_COUNT)
    && (forall f :: 0 <= f < s.hint ==> s.busy[f])
  }

  /** The lowest index at or after `i` whose bit is clear, or `|busy|`. */
  function FirstFree(busy: seq<bool>, i: nat): (r: nat)
    requires i <= |busy|
    ensures i <= r <= |busy|
    ensures forall f :: i <= f < r ==> busy[f]
    ensures r < |busy| ==> !busy[r]
    decreases |busy| - i
  {
    if i == |busy| || !busy[i] then i else FirstFree(busy, i + 1)
  }

  lemma {:induction false} FirstFreeUnique(busy: seq<bool>, i: nat, r: nat)
    requires i <= r <= |busy|
    requires forall f :: i <= f < r ==> busy[f]
    requires r < |busy| ==> !busy[r]
    ensures FirstFree(busy, i) == r
    decreases r - i
  {
    if i < r { FirstFreeUnique(busy, i + 1, r); }
  }

  /** Takes the lowest free frame. */
  function Allocate(s: Frames): (Frames, Option<nat>)
    requires Inv(s)
  {
    var f := FirstFree(s.busy, 0);
    if f == |s.busy| then (s, None)
    else (Frames(s.busy[f := true], s.counts[f := 1], f + 1), Some(f))
  }

  /** The two ways an operation can abort the kernel, and normal completion. */
  datatype Outcome = Done | Panic

  /** Drops one reference; the frame becomes free when the last one goes. */
  function Deallocate(s: Frames, f: nat): (Frames, Outcome)
    requires Inv(s)
  {
    if f >= |s.counts| || s.counts[f] == 0 then (s, Panic)
    else if s.counts[f] == 1 then
      (Frames(s.busy[f := false], s.counts[f := 0], Min(f, s.hint)), Done)
    else (s.(counts := s.counts[f := s.counts[f] - 1]), Done)
  }

  /** Adds one reference; the 16-bit increment wraps. */
  function Reference(s: Frames, f: nat): (Frames, Outcome)
    requires Inv(s)
  {
    if f >= |s.counts| || s.counts[f] == 0 then (s, Panic)
    else (s.(counts := s.counts[f := (s.counts[f] + 1) % 65536]), Done)
  }

  /** Frames `[i, i + n)` all exist and are free. */
  ghost predicate FreeRun(busy: seq<bool>, i: nat, n: nat) {
    i + n <= |busy| && forall f :: i <= f < i + n ==> !busy[f]
  }

  /** A busy frame at `i + n` rules out every run of more than `n` frames starting in `[i, i + n]`. */
  lemma NoRunAcross(busy: seq<bool>, i: nat, n: nat, count: nat)
    requires n < count && (i + n >= |busy| || busy[i + n])
    ensures forall j: nat :: i <= j < i + n + 1 ==> !FreeRun(busy, j, count)
  {
    forall j: nat | i <= j < i + n + 1 ensures !FreeRun(busy, j, count) {
      assert j <= i + n < j + count;
    }
  }

  /** `s` with those of frames `[i, i + n)` that exist reserved, each with one reference. */
  function ReserveRun(s: Frames, i: nat, n: nat): (r: Frames)
    requires |s.busy| == |s.counts|
  {
    Frames(
      seq(|s.busy|, f requires 0 <= f < |s.busy| => s.busy[f] || i <= f < i + n),
      seq(|s.busy|, f requires 0 <= f < |s.busy| => if i <= f < i + n then 1 else s.counts[f]),
      s.hint)
  }

  lemma AllocatePreserves(s: Frames)
    requires Inv(s)
    ensures Inv(Allocate(s).0)
  {}

  lemma DeallocatePreserves(s: Frames, f: nat)
    requires Inv(s)
    ensures Inv(Deallocate(s, f).0)
  {}

  /** Sharing a frame keeps the invariant exactly when the frame does not already
      carry 65535 references: the wrapped count would be 0 under a set bit. */
  lemma ReferencePreservesIff(s: Frames, f: nat)
    requires Inv(s)
    ensures Inv(Reference(s, f).0) <==> !(f < |s.counts| && s.counts[f] == MAX_COUNT)
  {
    if f < |s.counts| && s.counts[f] == MAX_COUNT {
      var t := Reference(s, f).0;
      assert t.counts[f] == 0 && t.busy[f];
    }
  }

  lemma ReserveRunPreserves(s: Frames, i: nat, n: nat)
    requires Inv(s) && FreeRun(s.busy, i, n)
    ensures Inv(ReserveRun(s, i, n))
  {}

  // ------------------------------------------------------------------
  // Runs
  // ------------------------------------------------------------------

  datatype Op = Alloc | Dealloc(f: nat) | Share(f: nat) | AllocRun(n: nat)

  /** The contiguous allocator's contract as a relation (see `Allocator.AllocateContiguousFrames`). */
  ghost predicate AllocRunStep(s: Frames, n: nat, t: Frames, r: Option<nat>)
    requires |s.busy| == |s.counts|
  {
    match r
    case None => t == s && (n == 0 || forall i: nat :: !FreeRun(s.busy, i, n))
    case Some(i) =>
      && n > 0 && FreeRun(s.busy, i, n)
      && (forall j: nat :: j < i ==> !FreeRun(s.busy, j, n))
      && t == ReserveRun(s, i, n)
  }

  /** One allocator call that did not abort the kernel and did not overflow a count,
      together with the references it handed out (`+1`) or took back (`-1`) per frame. */
  ghost predicate Step(s: Frames, op: Op, t: Frames, delta: nat -> int)
    requires Inv(s)
  {
    match op
    case Alloc =>
      var (u, r) := Allocate(s);
      t == u && forall f: nat :: delta(f) == if r == Some(f) then 1 else 0
    case Dealloc(g) =>
      Deallocate(s, g) == (t, Done) && forall f: nat :: delta(f) == if f == g then -1 else 0
    case Share(g) =>
      && Reference(s, g) == (t, Done) && s.counts[g] < MAX_COUNT
      && forall f: nat :: delta(f) == if f == g then 1 else 0
    case AllocRun(n) =>
      exists r: Option<nat> :: AllocRunStep(s, n, t, r)
        && forall f: nat :: delta(f) == if r.Some? && r.value <= f < r.value + n then 1 else 0
  }

  /** `states` is a run of the allocator under `ops`. */
  ghost predicate Run(states: seq<Frames>, ops: seq<Op>, deltas: seq<nat -> int>) {
    && |states| == |ops| + 1 && |deltas| == |ops|
    && forall i :: 0 <= i < |ops| ==> Inv(states[i]) ==> Step(states[i], ops[i], states[i + 1], deltas[i])
  }

  /** References to `f` handed out minus references taken back, over a whole run. */
  ghost function Ledger(deltas: seq<nat -> int>, f: nat): int {
    if deltas == [] then 0 else Ledger(deltas[..|deltas| - 1], f) + deltas[|deltas| - 1](f)
  }

  lemma StepPreserves(s: Frames, op: Op, t: Frames, delta: nat -> int)
    requires Inv(s) && Step(s, op, t, delta)
    ensures Inv(t) && |t.counts| == |s.counts|
    ensures forall f :: 0 <= f < |s.counts| ==> t.counts[f] == s.counts[f] + delta(f)
  {
    match op
    case Alloc => AllocatePreserves(s);
    case Dealloc(g) => DeallocatePreserves(s, g);
    case Share(g) =>
    case AllocRun(n) =>
      var r: Option<nat> :| AllocRunStep(s, n, t, r)
        && forall f: nat :: delta(f) == if r.Some? && r.value <= f < r.value + n then 1 else 0;
      if r.Some? { ReserveRunPreserves(s, r.value, n); }
  }

  /** On every run: the bitmap and the counts agree at every frame, everything below the
      hint is busy, and each count equals the initial count plus the outstanding references. */
  lemma {:induction false} RunInvariant(states: seq<Frames>, ops: seq<Op>, deltas: seq<nat -> int>)
    requires Run(states, ops, deltas) && Inv(states[0])
    ensures Inv(states[|ops|]) && |states[|ops|].counts| == |states[0].counts|
    ensures forall f :: 0 <= f < |states[0].counts| ==>
      states[|ops|].counts[f] == states[0].counts[f] + Ledger(deltas, f)
  {
    var n := |ops|;
    if n > 0 {
      RunInvariant(states[..n], ops[..n - 1], deltas[..n - 1]);
      StepPreserves(states[n - 1], ops[n - 1], states[n], deltas[n - 1]);
    }
  }
}

/** The bitmap allocator of src/mm/memory.rs over its two parallel arrays. */
module FrameAllocator {
  import opened Common
  import opened Bits
  import opened FrameState

  /** The kinds of memory-map entry the allocator distinguishes. */
  datatype Kind = Usable | BootloaderReclaimable | ExecutableAndModules | Framebuffer | OtherKind

  datatype Region = Region(base: nat, length: nat, kind: Kind)

  /** One past the highest byte of any entry the kernel can touch. */
  function MaxTop(entries: seq<Region>): nat {
    if entries == [] then 0
    else
      var last := entries[|entries| - 1];
      var rest := MaxTop(entries[..|entries| - 1]);
      if !last.kind.OtherKind? && last.base + last.length > rest then last.base + last.length else rest
  }

  /** No entry the kernel can touch ends above `top`, and one ends there, if there is any. */
  ghost predicate IsHighestEnd(entries: seq<Region>, top: nat) {
    && (forall i :: 0 <= i < |entries| && !entries[i].kind.OtherKind? ==> entries[i].base + entries[i].length <= top)
    && (top == 0 || exists i :: 0 <= i < |entries| && !entries[i].kind.OtherKind? && entries[i].base + entries[i].length == top)
  }

  lemma {:induction false} MaxTopIsHighest(entries: seq<Region>)
    ensures IsHighestEnd(entries, MaxTop(entries))
  {
    if entries != [] {
      var n, rest := |entries| - 1, entries[..|entries| - 1];
      MaxTopIsHighest(rest);
      forall i | 0 <= i < n ensures rest[i] == entries[i] {}
      if MaxTop(entries) == MaxTop(rest) && MaxTop(rest) > 0 {
        var i :| 0 <= i < |rest| && !rest[i].kind.OtherKind? && rest[i].base + rest[i].length == MaxTop(rest);
        assert entries[i].base + entries[i].length == MaxTop(entries);
      }
    }
  }

  function TotalFrames(entries: seq<Region>): nat {
    CeilDiv(MaxTop(entries), FRAME_SIZE)
  }

  /** Where the counts start: behind the bitmap, on a multiple of 8. */
  function CountsStart(total: nat): nat {
    CeilDiv(CeilDiv(total, 8), 8) * 8
  }

  /** Bytes of bitmap (rounded to 8) plus two bytes of count per frame. */
  function MetadataSize(total: nat): nat {
    CountsStart(total) + total * 2
  }

  /** Bit and count of every frame have their place in the metadata, which is no larger than needed. */
  lemma MetadataFits(total: nat, f: nat)
    requires f < total
    ensures f / 8 < CeilDiv(total, 8) <= CountsStart(total) < CeilDiv(total, 8) + 8 && CountsStart(total) % 8 == 0
    ensures CountsStart(total) + 2 * f + 2 <= MetadataSize(total)
    ensures f == total - 1 ==> MetadataSize(total) == CountsStart(total) + 2 * f + 2
  {}

  /** Every byte the kernel can touch is in one of the frames counted, and in no fewer. */
  lemma TopFrame(entries: seq<Region>, i: nat)
    requires i < |entries| && !entries[i].kind.OtherKind?
    ensures entries[i].base + entries[i].length <= TotalFrames(entries) * FRAME_SIZE < MaxTop(entries) + FRAME_SIZE
    ensures forall f: nat :: entries[i].length > 0 && Covers(entries[i], f) ==> f < TotalFrames(entries)
  {
    hide MaxTop;
    MaxTopIsHighest(entries);
  }

  /** The frame lies wholly inside some usable entry. */
  ghost predicate WhollyUsable(entries: seq<Region>, f: nat) {
    exists i :: 0 <= i < |entries| && entries[i].kind.Usable? && Covers(entries[i], f)
  }

  predicate Covers(r: Region, f: nat) {
    r.base <= FRAME_SIZE * f && FRAME_SIZE * (f + 1) <= r.base + r.length
  }

  /** The first usable entry that can hold the metadata. */
  ghost predicate IsMetadataHost(entries: seq<Region>, i: nat) {
    && i < |entries| && Hosts(entries, i)
    && forall j :: 0 <= j < i ==> !Hosts(entries, j)
  }

  ghost predicate Hosts(entries: seq<Region>, i: nat)
    requires i < |entries|
  {
    entries[i].kind.Usable? && entries[i].length >= MetadataSize(TotalFrames(entries))
  }

  /** The frames set aside for the metadata parked at physical address `base`. */
  predicate Reserved(base: nat, total: nat, f: nat) {
    base / FRAME_SIZE <= f < base / FRAME_SIZE + CeilDiv(MetadataSize(total), FRAME_SIZE)
  }

  /** Some metadata byte lives in frame `f`. */
  predicate HoldsMetadata(base: nat, total: nat, f: nat) {
    base < FRAME_SIZE * (f + 1) && FRAME_SIZE * f < base + MetadataSize(total)
  }

  /** Every frame holding metadata is reserved exactly when the metadata, counted from the
      start of its first frame, does not spill past the frames its size alone accounts for. */
  lemma MetadataReservedIff(base: nat, total: nat)
    requires MetadataSize(total) > 0
    ensures (forall f: nat :: HoldsMetadata(base, total, f) ==> Reserved(base, total, f))
        <==> base % FRAME_SIZE + MetadataSize(total) <= CeilDiv(MetadataSize(total), FRAME_SIZE) * FRAME_SIZE
  {
    var first := base / FRAME_SIZE;
    var size := MetadataSize(total);
    var n := CeilDiv(size, FRAME_SIZE);
    if base % FRAME_SIZE + size > n * FRAME_SIZE {
      assert HoldsMetadata(base, total, first + n);
      assert !Reserved(base, total, first + n);
    }
  }

  /** With an aligned host exactly the frames that hold metadata are set aside. */
  lemma AlignedMetadataReserved(base: nat, total: nat, f: nat)
    requires base % FRAME_SIZE == 0
    ensures Reserved(base, total, f) <==> HoldsMetadata(base, total, f)
  {}

  /** The first `total` bits of `bitmap`. */
  ghost function BusyBits(bitmap: seq<byte>, total: nat): (r: seq<bool>)
    requires |bitmap| == CeilDiv(total, 8)
    ensures |r| == total
  {
    seq(total, f requires 0 <= f < total => TestBit(bitmap[f / 8], f % 8))
  }

  lemma SetInBitmap(bitmap: seq<byte>, total: nat, f: nat)
    requires |bitmap| == CeilDiv(total, 8) && f < total
    requires SetBit(bitmap[f / 8], f % 8) < 256
    ensures BusyBits(bitmap[f / 8 := SetBit(bitmap[f / 8], f % 8)], total) == BusyBits(bitmap, total)[f := true]
  {
    forall g | 0 <= g < total {
      TestAfterSet(bitmap[f / 8], f % 8, g % 8);
    }
  }

  lemma ClearInBitmap(bitmap: seq<byte>, total: nat, f: nat)
    requires |bitmap| == CeilDiv(total, 8) && f < total
    requires ClearBit(bitmap[f / 8], f % 8) < 256
    ensures BusyBits(bitmap[f / 8 := ClearBit(bitmap[f / 8], f % 8)], total) == BusyBits(bitmap, total)[f := false]
  {
    forall g | 0 <= g < total {
      TestAfterClear(bitmap[f / 8], f % 8, g % 8);
    }
  }

  /** `s` with frame `f`, when it exists, forced busy with one reference or free with none. */
  function Marked(s: Frames, f: nat, taken: bool): Frames
    requires |s.busy| == |s.counts|
  {
    if f >= |s.busy| then s
    else s.(busy := s.busy[f := taken], counts := s.counts[f := if taken then 1 else 0])
  }

  /** The state `init` builds: one reference per busy frame, none per free frame. */
  ghost predicate CountsFollowBits(s: Frames) {
    && |s.busy| == |s.counts|
    && forall f :: 0 <= f < |s.busy| ==> s.counts[f] == if s.busy[f] then 1 else 0
  }

  lemma AllBitsSet(bitmap: seq<byte>, total: nat)
    requires |bitmap| == CeilDiv(total, 8) && forall i :: 0 <= i < |bitmap| ==> bitmap[i] == 255
    ensures forall f :: 0 <= f < total ==> BusyBits(bitmap, total)[f]
  {
    forall f | 0 <= f < total ensures BusyBits(bitmap, total)[f] {
      AllOnes(f % 8, 8);
      assert Pow2(8) == 256;
    }
  }

  lemma UsableAppend(entries: seq<Region>, i: nat)
    requires i < |entries|
    ensures forall f: nat :: WhollyUsable(entries[..i + 1], f) <==>
      WhollyUsable(entries[..i], f) || (entries[i].kind.Usable? && Covers(entries[i], f))
  {
    forall f: nat
      ensures WhollyUsable(entries[..i + 1], f) <==>
        WhollyUsable(entries[..i], f) || (entries[i].kind.Usable? && Covers(entries[i], f))
    {
      if WhollyUsable(entries[..i], f) {
        var j :| 0 <= j < i && entries[..i][j].kind.Usable? && Covers(entries[..i][j], f);
        assert entries[..i + 1][j] == entries[j];
      }
      if WhollyUsable(entries[..i + 1], f) && !(entries[i].kind.Usable? && Covers(entries[i], f)) {
        var j :| 0 <= j < i + 1 && entries[..i + 1][j].kind.Usable? && Covers(entries[..i + 1][j], f);
        assert entries[..i][j] == entries[j];
      }
      assert entries[..i + 1][i] == entries[i];
    }
  }

  /** What `init` leaves behind when the metadata is parked at `base`. */
  ghost function InitState(entries: seq<Region>, base: nat): (s: Frames) {
    var total := TotalFrames(entries);
    Frames(seq(total, f requires 0 <= f < total => !FreeAtInit(entries, base, f)),
           seq(total, f requires 0 <= f < total => if FreeAtInit(entries, base, f) then 0 else 1), 0)
  }

  ghost predicate FreeAtInit(entries: seq<Region>, base: nat, f: nat) {
    WhollyUsable(entries, f) && !Reserved(base, TotalFrames(entries), f) && f != 0
  }

  lemma OnesFollow(s: Frames)
    requires |s.busy| == |s.counts| && forall f :: 0 <= f < |s.busy| ==> s.busy[f] && s.counts[f] == 1
    ensures CountsFollowBits(s)
  {}

  /** Reserving the metadata frames and frame 0 after freeing the usable ones gives that state. */
  lemma InitReached(entries: seq<Region>, base: nat, s: Frames)
    requires CountsFollowBits(s) && |s.busy| == TotalFrames(entries) && s.hint == 0
    requires forall f :: 0 <= f < |s.busy| ==> (!s.busy[f] <==> WhollyUsable(entries, f))
    ensures var size := MetadataSize(TotalFrames(entries));
      Marked(ReserveRun(s, base / FRAME_SIZE, CeilDiv(size, FRAME_SIZE)), 0, true) == InitState(entries, base)
  {
    hide WhollyUsable, MaxTop, MetadataSize;
    var r := Marked(ReserveRun(s, base / FRAME_SIZE, CeilDiv(MetadataSize(TotalFrames(entries)), FRAME_SIZE)), 0, true);
    assert r.busy == InitState(entries, base).busy;
    assert r.counts == InitState(entries, base).counts;
  }

  lemma AlignedInit(entries: seq<Region>, base: nat)
    requires base % FRAME_SIZE == 0
    ensures var s := InitState(entries, base); |s.busy| == TotalFrames(entries) && forall f :: 0 <= f < |s.busy| ==>
      (!s.busy[f] <==> WhollyUsable(entries, f) && !HoldsMetadata(base, |s.busy|, f) && f != 0)
  {
    hide WhollyUsable, MaxTop, MetadataSize, Reserved, HoldsMetadata;
    forall f: nat ensures Reserved(base, TotalFrames(entries), f) <==> HoldsMetadata(base, TotalFrames(entries), f) {
      AlignedMetadataReserved(base, TotalFrames(entries), f);
    }
  }

  lemma InitStateInv(entries: seq<Region>, base: nat)
    ensures Inv(InitState(entries, base))
  {
    hide WhollyUsable, MaxTop, MetadataSize;
  }

  method HighestTop(entries: seq<Region>) returns (maxAddr: nat)
    ensures maxAddr == MaxTop(entries) && IsHighestEnd(entries, maxAddr)
  {
    MaxTopIsHighest(entries);
    maxAddr := 0;
    for i := 0 to |entries|
      invariant maxAddr == MaxTop(entries[..i])
    {
      assert entries[..i + 1][..i] == entries[..i];
      if !entries[i].kind.OtherKind? {
        var top := entries[i].base + entries[i].length;
        if top > maxAddr { maxAddr := top; }
      }
    }
    assert entries[..|entries|] == entries;
  }

  method FindHost(entries: seq<Region>, size: nat) returns (host: Option<nat>)
    requires size == MetadataSize(TotalFrames(entries))
    ensures host.None? <==> forall i :: 0 <= i < |entries| ==> !Hosts(entries, i)
    ensures host.Some? ==> IsMetadataHost(entries, host.value)
  {
    var i := 0;
    while i < |entries|
      invariant 0 <= i <= |entries|
      invariant forall j :: 0 <= j < i ==> !Hosts(entries, j)
    {
      if entries[i].kind.Usable? && entries[i].length >= size {
        assert Hosts(entries, i);
        return Some(i);
      }
      i := i + 1;
    }
    return None;
  }

  class Allocator {
    var bitmap: array<byte>
    var refCounts: array<nat>
    var totalFrames: nat
    var hint: nat

    ghost predicate Shaped()
      reads this, bitmap, refCounts
    {
      && bitmap.Length == CeilDiv(totalFrames, 8)
      && refCounts.Length == totalFrames
      && bitmap as object != refCounts
    }

    /** The allocator's abstract state: bit `f % 8` of byte `f / 8` is frame `f`. */
    ghost function State(): (s: Frames)
      requires Shaped()
      reads this, bitmap, refCounts
      ensures |s.busy| == |s.counts| == totalFrames
    {
      Frames(BusyBits(bitmap[..], totalFrames), refCounts[..], hint)
    }

    ghost predicate Valid()
      reads this, bitmap, refCounts
    {
      Shaped() && Inv(State())
    }

    constructor Empty()
      ensures Shaped() && hint == 0 && totalFrames == 0
      ensures fresh(bitmap) && fresh(refCounts)
    {
      bitmap := new byte[0];
      refCounts := new nat[0];
      totalFrames, hint := 0, 0;
    }

    /** Builds the state from the memory map; `None` stands for the panic taken when no
        usable entry can hold the metadata. Afterwards a frame is free exactly when it lies
        wholly in a usable entry, is not reserved for the metadata and is not frame 0; with a
        page-aligned host, reserved means that it holds a byte of metadata. */
    method Init(entries: seq<Region>) returns (host: Option<nat>)
      requires Shaped() && hint == 0
      modifies this
      ensures host.None? <==> forall i :: 0 <= i < |entries| ==> !Hosts(entries, i)
      ensures host.Some? ==> IsMetadataHost(entries, host.value)
      ensures host.Some? ==> Valid() && fresh(bitmap) && fresh(refCounts) && hint == 0
      ensures host.Some? ==> State() == InitState(entries, entries[host.value].base)
      ensures host.Some? && entries[host.value].base % FRAME_SIZE == 0 ==> forall f :: 0 <= f < totalFrames ==>
        (!State().busy[f] <==> WhollyUsable(entries, f) && !HoldsMetadata(entries[host.value].base, totalFrames, f) && f != 0)
    {
      hide TestBit, MaxTop, MetadataSize, Inv, InitState, ReserveRun, Marked, WhollyUsable, CountsFollowBits;
      var maxAddr := HighestTop(entries);
      var total := CeilDiv(maxAddr, FRAME_SIZE);
      var size := MetadataSize(total);
      host := FindHost(entries, size);
      if host.None? { return; }

      bitmap := new byte[CeilDiv(total, 8)](_ => 255);
      refCounts := new nat[total](_ => 1);
      totalFrames := total;
      AllBitsSet(bitmap[..], total);
      OnesFollow(State());
      FreeUsable(entries);
      ghost var freed := State();
      var base := entries[host.value].base;
      MarkRun(base / FRAME_SIZE, CeilDiv(size, FRAME_SIZE));
      ForceSetBit(0);  // frame 0 stays reserved
      InitReached(entries, base, freed);
      InitStateInv(entries, base);
      if base % FRAME_SIZE == 0 { AlignedInit(entries, base); }
    }

    method FreeUsable(entries: seq<Region>)
      requires Shaped() && CountsFollowBits(State())
      requires forall f :: 0 <= f < totalFrames ==> State().busy[f]
      modifies bitmap, refCounts
      ensures Shaped() && CountsFollowBits(State())
      ensures forall f :: 0 <= f < totalFrames ==> (!State().busy[f] <==> WhollyUsable(entries, f))
    {
      for i := 0 to |entries|
        invariant Shaped() && CountsFollowBits(State())
        invariant forall f :: 0 <= f < totalFrames ==> (!State().busy[f] <==> WhollyUsable(entries[..i], f))
      {
        if entries[i].kind.Usable? {
          FreeRegion(entries[..i], entries[i]);
        }
        UsableAppend(entries, i);
      }
      assert entries[..|entries|] == entries;
    }

    /** Frees every frame that lies wholly inside `region`. */
    method FreeRegion(ghost before: seq<Region>, region: Region)
      requires Shaped() && CountsFollowBits(State())
      requires forall f :: 0 <= f < totalFrames ==> (!State().busy[f] <==> WhollyUsable(before, f))
      modifies bitmap, refCounts
      ensures Shaped() && CountsFollowBits(State())
      ensures forall f :: 0 <= f < totalFrames ==> (!State().busy[f] <==> WhollyUsable(before, f) || Covers(region, f))
    {
      var endFrame := (region.base + region.length) / FRAME_SIZE;
      var i := CeilDiv(region.base, FRAME_SIZE);
      ghost var start := i;
      while i < endFrame
        invariant start <= i
        invariant Shaped() && CountsFollowBits(State())
        invariant forall f :: 0 <= f < totalFrames ==>
          (!State().busy[f] <==> WhollyUsable(before, f) || (Covers(region, f) && f < i))
      {
        ForceFreeBit(i);
        i := i + 1;
      }
    }

    method ForceSetBit(frame: nat)
      requires Shaped()
      modifies bitmap, refCounts
      ensures Shaped()
      ensures State() == Marked(old(State()), frame, true)
    {
      if frame >= totalFrames { return; }
      BitOpsFit(bitmap[frame / 8], frame % 8, 8);
      SetInBitmap(bitmap[..], totalFrames, frame);
      bitmap[frame / 8] := SetBit(bitmap[frame / 8], frame % 8);
      refCounts[frame] := 1;
    }

    method ForceFreeBit(frame: nat)
      requires Shaped()
      modifies bitmap, refCounts
      ensures Shaped()
      ensures State() == Marked(old(State()), frame, false)
    {
      if frame >= totalFrames { return; }
      BitOpsFit(bitmap[frame / 8], frame % 8, 8);
      ClearInBitmap(bitmap[..], totalFrames, frame);
      bitmap[frame / 8] := ClearBit(bitmap[frame / 8], frame % 8);
      refCounts[frame] := 0;
    }

    /** Out-of-range frames read as busy. */
    method BitIsSet(frame: nat) returns (r: bool)
      requires Shaped()
      ensures r <==> frame >= totalFrames || State().busy[frame]
    {
      if frame >= totalFrames { return true; }
      r := TestBit(bitmap[frame / 8], frame % 8);
    }

    /** Starts at the cached hint and wraps once; the result is always the globally
        lowest free frame, and `None` means that no frame at all is free. */
    method AllocateFrame() returns (r: Option<nat>)
      requires Valid()
      modifies this`hint, bitmap, refCounts
      ensures Valid()
      ensures var (t, g) := Allocate(old(State()));
              State() == t && r == if g.Some? then Some(g.value * FRAME_SIZE) else None
    {
      ghost var s := State();
      var i := hint;
      while i < totalFrames
        invariant hint <= i <= totalFrames
        invariant Shaped() && State() == s
        invariant forall f :: 0 <= f < i ==> s.busy[f]
      {
        var taken := BitIsSet(i);
        if !taken {
          FirstFreeUnique(s.busy, 0, i);
          AllocatePreserves(s);
          ForceSetBit(i);
          hint := i + 1;
          return Some(i * FRAME_SIZE);
        }
        i := i + 1;
      }
      i := 0;
      while i < hint
        invariant 0 <= i <= hint
        invariant Shaped() && State() == s
      {
        var taken := BitIsSet(i);
        assert taken;  // the wrap-around search never succeeds
        i := i + 1;
      }
      FirstFreeUnique(s.busy, 0, totalFrames);
      return None;
    }

    method DeallocateFrame(physAddr: nat) returns (outcome: Outcome)
      requires Valid()
      modifies this`hint, bitmap, refCounts
      ensures Valid()
      ensures (State(), outcome) == Deallocate(old(State()), physAddr / FRAME_SIZE)
    {
      ghost var s := State();
      var frame := physAddr / FRAME_SIZE;
      DeallocatePreserves(s, frame);
      if frame >= totalFrames { return Panic; }
      if refCounts[frame] > 0 {
        refCounts[frame] := refCounts[frame] - 1;
        if refCounts[frame] == 0 {
          BitOpsFit(bitmap[frame / 8], frame % 8, 8);
          ClearInBitmap(bitmap[..], totalFrames, frame);
          bitmap[frame / 8] := ClearBit(bitmap[frame / 8], frame % 8);
          if frame < hint { hint := frame; }
        }
      } else {
        return Panic;
      }
      return Done;
    }

    method ReferenceFrame(physAddr: nat) returns (outcome: Outcome)
      requires Valid()
      modifies refCounts
      ensures Shaped()
      ensures (State(), outcome) == Reference(old(State()), physAddr / FRAME_SIZE)
    {
      var frame := physAddr / FRAME_SIZE;
      if frame >= totalFrames { return Panic; }
      if refCounts[frame] == 0 { return Panic; }
      refCounts[frame] := (refCounts[frame] + 1) % 65536;
      return Done;
    }

    method GetRefCount(physAddr: nat) returns (r: nat)
      requires Shaped()
      ensures physAddr / FRAME_SIZE < totalFrames ==> r == State().counts[physAddr / FRAME_SIZE]
      ensures physAddr / FRAME_SIZE >= totalFrames ==> r == 1
    {
      var frame := physAddr / FRAME_SIZE;
      if frame >= totalFrames { return 1; }
      r := refCounts[frame];
    }

    /** First fit: despite jumping past each busy frame, the result is the lowest start of a
        free run of `count` frames, and `None` means there is no such run (or `count` is 0). */
    method AllocateContiguousFrames(count: nat) returns (r: Option<nat>)
      requires Valid()
      modifies bitmap, refCounts
      ensures Valid()
      ensures r.Some? ==> r.value % FRAME_SIZE == 0
      ensures AllocRunStep(old(State()), count, State(),
                           if r.Some? then Some(r.value / FRAME_SIZE) else None)
    {
      if count == 0 { return None; }
      ghost var s := State();
      var i := 0;
      while i <= if totalFrames >= count then totalFrames - count else 0
        invariant Shaped() && State() == s
        invariant forall j: nat :: j < i ==> !FreeRun(s.busy, j, count)
        decreases totalFrames + 1 - i
      {
        var freeRun := RunLength(i, count);
        if freeRun == count {
          ReserveRunPreserves(s, i, count);
          MarkRun(i, count);
          return Some(i * FRAME_SIZE);
        }
        NoRunAcross(s.busy, i, freeRun, count);
        i := i + freeRun + 1;
      }
      return None;
    }

    /** How many of the `count` frames from `i` on are free before the first busy one. */
    method RunLength(i: nat, count: nat) returns (n: nat)
      requires Shaped() && i <= totalFrames
      ensures n <= count && FreeRun(State().busy, i, n)
      ensures n < count ==> i + n >= totalFrames || State().busy[i + n]
    {
      n := 0;
      while n < count
        invariant n <= count && FreeRun(State().busy, i, n)
      {
        var taken := BitIsSet(i + n);
        if taken { return; }
        n := n + 1;
      }
    }

    method MarkRun(start: nat, count: nat)
      requires Shaped()
      modifies bitmap, refCounts
      ensures Shaped() && State() == ReserveRun(old(State()), start, count)
    {
      var j := start;
      while j < start + count
        invariant start <= j <= start + count
        invariant Shaped()
        invariant State() == ReserveRun(old(State()), start, j - start)
      {
        ForceSetBit(j);
        j := j + 1;
      }
    }
  }
}
