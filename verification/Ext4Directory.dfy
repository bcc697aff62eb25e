/** Linear directory blocks: searching and inserting records (src/fs/ext4/mod.rs,
    src/fs/ext4/dir_entry.rs). */
module Ext4Directory {
  import opened Common
  import opened Disks
  import opened Words
  import opened Ext4Layout

  type Name = seq<byte>

  /** The buffer a record header is read from; what lies past the data reads as zeros. */
  function Padded(data: seq<byte>): seq<byte> {
    data + Zeros(8)
  }

  function EntryInode(data: seq<byte>, o: nat): nat
    requires o < |data|
  {
    Word32(Padded(data), o)
  }

  function EntryLen(data: seq<byte>, o: nat): nat
    requires o < |data|
  {
    Word16(Padded(data), o + 4)
  }

  function NameLen(data: seq<byte>, o: nat): (r: nat)
    requires o < |data|
    ensures r < 256
  {
    Padded(data)[o + 6]
  }

  /** `(x + 3) & !3`: the next multiple of 4. */
  function Aligned(x: nat): (r: nat)
    ensures r % 4 == 0 && x <= r < x + 4
  {
    (x + 3) / 4 * 4
  }

  // ------------------------------------------------------------------
  // Searching
  // ------------------------------------------------------------------

  /** The walk of `lookup` from offset `o`: the first record with the name whose inode can be
      read. A zero length or a name past the end stops the search. */
  function Find(v: Volume, d: Disk, data: seq<byte>, o: nat, name: Name): Option<(nat, Inode)>
    requires Geometry(v)
    decreases |data| - o
  {
    if o >= |data| || EntryLen(data, o) == 0 then None
    else if EntryInode(data, o) != 0 && o + 8 + NameLen(data, o) > |data| then None
    else if EntryInode(data, o) != 0 && data[o + 8..o + 8 + NameLen(data, o)] == name && ReadInode(v, d, EntryInode(data, o)).Ok? then
      Some((EntryInode(data, o), ReadInode(v, d, EntryInode(data, o)).value))
    else Find(v, d, data, o + EntryLen(data, o), name)
  }

  // ------------------------------------------------------------------
  // Well-formed blocks and what they list
  // ------------------------------------------------------------------

  /** A record with room for its own header and name that ends inside the data. */
  ghost predicate Record(data: seq<byte>, o: nat) {
    o + 8 <= |data| && Aligned(8 + NameLen(data, o)) <= EntryLen(data, o) && o + EntryLen(data, o) <= |data|
  }

  /** Records tile the data exactly from `o` on. */
  ghost predicate Tiled(data: seq<byte>, o: nat)
    decreases |data| - o
  {
    o == |data| || (Record(data, o) && Tiled(data, o + EntryLen(data, o)))
  }

  /** The record at `o`, unless it is unused. */
  ghost function Listed(data: seq<byte>, o: nat): seq<(nat, Name)>
    requires Record(data, o)
  {
    if EntryInode(data, o) == 0 then [] else [(EntryInode(data, o), data[o + 8..o + 8 + NameLen(data, o)])]
  }

  /** The (inode, name) pairs a directory lists, in order. */
  ghost function Listing(data: seq<byte>, o: nat): seq<(nat, Name)>
    requires Tiled(data, o)
    decreases |data| - o
  {
    if o == |data| then [] else Listed(data, o) + Listing(data, o + EntryLen(data, o))
  }

  /** Lookup in a list of pairs. */
  ghost function FirstMatch(v: Volume, d: Disk, list: seq<(nat, Name)>, name: Name): Option<(nat, Inode)>
    requires Geometry(v)
  {
    if list == [] then None
    else if list[0].1 == name && ReadInode(v, d, list[0].0).Ok? then Some((list[0].0, ReadInode(v, d, list[0].0).value))
    else FirstMatch(v, d, list[1..], name)
  }

  /** In a well-formed directory the walk finds exactly what the listing says. */
  lemma {:induction false} FindIsFirstMatch(v: Volume, d: Disk, data: seq<byte>, o: nat, name: Name)
    requires Geometry(v) && Tiled(data, o)
    ensures Find(v, d, data, o, name) == FirstMatch(v, d, Listing(data, o), name)
    decreases |data| - o
  {
    hide ReadInode, EntryInode, EntryLen, NameLen;
    if o < |data| {
      var rest := Listing(data, o + EntryLen(data, o));
      FindIsFirstMatch(v, d, data, o + EntryLen(data, o), name);
      if EntryInode(data, o) == 0 {
        assert Listing(data, o) == rest;
      } else {
        assert Listing(data, o)[1..] == rest;
      }
    }
  }

  lemma {:induction false} FirstMatchAppend(v: Volume, d: Disk, a: seq<(nat, Name)>, b: seq<(nat, Name)>, name: Name)
    requires Geometry(v)
    ensures FirstMatch(v, d, a + b, name) == if FirstMatch(v, d, a, name).Some? then FirstMatch(v, d, a, name) else FirstMatch(v, d, b, name)
  {
    hide ReadInode;
    if a == [] {
      assert a + b == b;
    } else {
      assert (a + b)[1..] == a[1..] + b;
      FirstMatchAppend(v, d, a[1..], b, name);
    }
  }

  lemma {:induction false} FirstMatchAbsent(v: Volume, d: Disk, a: seq<(nat, Name)>, name: Name)
    requires Geometry(v) && forall i :: 0 <= i < |a| ==> a[i].1 != name
    ensures FirstMatch(v, d, a, name) == None
  {
    if a != [] { FirstMatchAbsent(v, d, a[1..], name); }
  }

  /** Only the pair added is found differently than before. */
  lemma FirstMatchInserted(v: Volume, d: Disk, a: seq<(nat, Name)>, b: seq<(nat, Name)>, ino: nat, name: Name, other: Name)
    requires Geometry(v) && ReadInode(v, d, ino).Ok? && forall i :: 0 <= i < |a| ==> a[i].1 != name
    ensures FirstMatch(v, d, a + [(ino, name)] + b, name) == Some((ino, ReadInode(v, d, ino).value))
    ensures other != name ==> FirstMatch(v, d, a + [(ino, name)] + b, other) == FirstMatch(v, d, a + b, other)
  {
    hide ReadInode;
    assert a + [(ino, name)] + b == a + ([(ino, name)] + b);
    FirstMatchAbsent(v, d, a, name);
    assert ([(ino, name)] + b)[1..] == b;
    FirstMatchAppend(v, d, a, [(ino, name)] + b, name);
    FirstMatchAppend(v, d, a, [(ino, name)] + b, other);
    FirstMatchAppend(v, d, a, b, other);
  }

  // Blocks one after the other

  lemma ShiftedHeader(a: seq<byte>, b: seq<byte>, o: nat)
    requires o + 8 <= |b|
    ensures EntryInode(a + b, |a| + o) == EntryInode(b, o) && EntryLen(a + b, |a| + o) == EntryLen(b, o) && NameLen(a + b, |a| + o) == NameLen(b, o)
  {
    forall k | o <= k < o + 8 ensures Padded(a + b)[|a| + k] == Padded(b)[k] {}
  }

  lemma PrefixHeader(a: seq<byte>, b: seq<byte>, o: nat)
    requires o + 8 <= |a|
    ensures EntryInode(a + b, o) == EntryInode(a, o) && EntryLen(a + b, o) == EntryLen(a, o) && NameLen(a + b, o) == NameLen(a, o)
  {
    forall k | o <= k < o + 8 ensures Padded(a + b)[k] == Padded(a)[k] {}
  }

  lemma {:induction false} ListingShift(a: seq<byte>, b: seq<byte>, o: nat)
    requires Tiled(b, o)
    ensures Tiled(a + b, |a| + o) && Listing(a + b, |a| + o) == Listing(b, o)
    decreases |b| - o
  {
    hide EntryInode, EntryLen, NameLen, Aligned;
    if o < |b| {
      ShiftedHeader(a, b, o);
      ListingShift(a, b, o + EntryLen(b, o));
      assert (a + b)[|a| + o + 8..|a| + o + 8 + NameLen(b, o)] == b[o + 8..o + 8 + NameLen(b, o)];
    }
  }

  /** A directory of several blocks lists what its blocks list. */
  lemma {:induction false} ListingAppend(a: seq<byte>, b: seq<byte>, o: nat)
    requires Tiled(a, o) && Tiled(b, 0)
    ensures Tiled(a + b, o) && Listing(a + b, o) == Listing(a, o) + Listing(b, 0)
    decreases |a| - o
  {
    hide EntryInode, EntryLen, NameLen, Aligned;
    if o == |a| {
      ListingShift(a, b, 0);
    } else {
      PrefixHeader(a, b, o);
      ListingAppend(a, b, o + EntryLen(a, o));
      assert (a + b)[o + 8..o + 8 + NameLen(a, o)] == a[o + 8..o + 8 + NameLen(a, o)];
    }
  }

  // ------------------------------------------------------------------
  // Inserting
  // ------------------------------------------------------------------

  /** Where the walk of `add_entry` ends: at the record that reaches the end of the block, at a
      length that leads nowhere, or with a header that is not wholly in the block. */
  datatype End = Last(offset: nat) | Nowhere | Outside

  /** The walk reads the length at bytes 4 and 5 of a record and the name length at byte 6. */
  const HEADER_READ := 7

  function EndOf(block: seq<byte>, o: nat): End
    decreases |block| - o
  {
    if o + HEADER_READ > |block| then Outside
    else
      var len := EntryLen(block, o);
      if o + len == |block| then Last(o)
      else if o + len >= |block| || len == 0 then Nowhere
      else EndOf(block, o + len)
  }

  /** The bytes of a new record; the length of the name is stored in one byte. */
  function NewRecord(ino: nat, len: nat, name: Name): (r: seq<byte>)
    ensures |r| == 8 + |name|
  {
    Bytes32(ino) + Bytes16(len) + [|name| % 256, 1] + name
  }

  function SpaceLeft(block: seq<byte>, o: nat): int
    requires o < |block|
  {
    EntryLen(block, o) - Aligned(8 + NameLen(block, o))
  }

  /** The record at `o` reaches the end of the block and has room for another behind its name. */
  predicate Fits(block: seq<byte>, o: nat, name: Name) {
    o + 8 <= |block| && o + EntryLen(block, o) == |block| && Aligned(8 + |name|) <= SpaceLeft(block, o)
  }

  /** The block with its last record, at `o`, cut down and a new one behind it. */
  function Inserted(block: seq<byte>, o: nat, ino: nat, name: Name): (r: seq<byte>)
    requires Fits(block, o, name)
    ensures |r| == |block|
  {
    var used := Aligned(8 + NameLen(block, o));
    Splice(Splice(block, o + 4, Bytes16(used)), o + used, NewRecord(ino, SpaceLeft(block, o), name))
  }

  // ------------------------------------------------------------------
  // Any bytes at all
  // ------------------------------------------------------------------

  /** An edit goes through, is refused, or leaves the buffer it works on. */
  datatype Edit<+T> = Done(value: T) | Refused(error: FsError) | Overrun

  /** What `add_entry` does to a block of arbitrary bytes. The space behind the last record's name
      is a 64-bit difference; if the record is shorter than its name, it wraps around. */
  function Insertion(block: seq<byte>, ino: nat, name: Name): Edit<seq<byte>> {
    match EndOf(block, 0)
    case Outside => Overrun
    case Nowhere => Refused(CorruptedDirectory)
    case Last(o) => LastInside(block, 0, o); AppendTo(block, o, ino, name)
  }

  /** Behind the last record, at `o`. */
  function AppendTo(block: seq<byte>, o: nat, ino: nat, name: Name): Edit<seq<byte>>
    requires o + HEADER_READ <= |block|
  {
    var used := Aligned(8 + NameLen(block, o));
    var left := (EntryLen(block, o) - used) % WORD;
    if left < Aligned(8 + |name|) then Refused(NoSpace)
    else if o + used + 8 + |name| > |block| then Overrun
    else Done(Splice(Splice(block, o + 4, Bytes16(used)), o + used, NewRecord(ino, left, name)))
  }

  lemma {:induction false} LastInside(block: seq<byte>, p: nat, o: nat)
    requires EndOf(block, p) == Last(o)
    ensures o + HEADER_READ <= |block| && o + EntryLen(block, o) == |block|
    decreases |block| - p
  {
    if p + EntryLen(block, p) != |block| { LastInside(block, p + EntryLen(block, p), o); }
  }

  /** `trail` follows record lengths from the start of the block; every record but the last one
      has its header in the block, a length, and the next record's start in the block. */
  ghost predicate Trail(block: seq<byte>, trail: seq<nat>) {
    trail != [] && trail[0] == 0 && forall i :: 0 < i < |trail| ==> Follows(block, trail[i - 1], trail[i])
  }

  ghost predicate Follows(block: seq<byte>, o: nat, next: nat) {
    o + HEADER_READ <= |block| && 0 < EntryLen(block, o) && o + EntryLen(block, o) == next < |block|
  }

  /** A record that makes the walk or the store leave the block: its header sticks out, or it
      ends the block but is shorter than its own name needs. */
  ghost predicate Fatal(block: seq<byte>, o: nat) {
    || o + HEADER_READ > |block|
    || (o + EntryLen(block, o) == |block| && EntryLen(block, o) < Aligned(8 + NameLen(block, o)))
  }

  /** The block has a fatal record that can be reached. */
  ghost predicate Unsafe(block: seq<byte>) {
    exists trail :: Trail(block, trail) && Fatal(block, trail[|trail| - 1])
  }

  /** The walk follows the one trail there is. */
  lemma {:induction false} TrailEnd(block: seq<byte>, trail: seq<nat>, i: nat)
    requires Trail(block, trail) && i < |trail|
    ensures EndOf(block, trail[i]) == EndOf(block, 0)
  {
    hide EntryLen;
    if i > 0 {
      assert Follows(block, trail[i - 1], trail[i]);
      TrailEnd(block, trail, i - 1);
    }
  }

  /** Wherever the walk ends, a trail leads there. */
  lemma {:induction false} EndHasTrail(block: seq<byte>, trail: seq<nat>) returns (whole: seq<nat>)
    requires Trail(block, trail) && trail[|trail| - 1] <= |block| && (trail[|trail| - 1] == |block| ==> |block| == 0)
    ensures Trail(block, whole) && var o := whole[|whole| - 1];
      && (EndOf(block, 0).Outside? ==> o + HEADER_READ > |block|)
      && (EndOf(block, 0).Last? ==> EndOf(block, 0) == Last(o))
    decreases |block| - trail[|trail| - 1]
  {
    hide EntryLen;
    var o := trail[|trail| - 1];
    TrailEnd(block, trail, |trail| - 1);
    if o + HEADER_READ <= |block| && 0 < EntryLen(block, o) < |block| - o {
      assert Follows(block, o, o + EntryLen(block, o));
      whole := EndHasTrail(block, trail + [o + EntryLen(block, o)]);
    } else {
      whole := trail;
    }
  }

  /** Appending overruns exactly if the record is shorter than its own name needs; otherwise it
      goes through exactly if there is room. */
  lemma AppendCases(block: seq<byte>, o: nat, ino: nat, name: Name)
    requires |block| <= 32768 && |name| < WORD / 2 && o + HEADER_READ <= |block| && o + EntryLen(block, o) == |block|
    ensures AppendTo(block, o, ino, name).Overrun? <==> SpaceLeft(block, o) < 0
    ensures AppendTo(block, o, ino, name).Done? <==> Fits(block, o, name)
    ensures Fits(block, o, name) ==> AppendTo(block, o, ino, name) == Done(Inserted(block, o, ino, name))
  {
    hide EntryLen, NameLen, NewRecord, Splice;
    Wraps(EntryLen(block, o), Aligned(8 + NameLen(block, o)));
    assert Aligned(8 + |name|) >= 8 + |name|;
  }

  /** The 64-bit difference of two small numbers. */
  lemma Wraps(a: nat, b: nat)
    requires a < 65536 && b < 65536
    ensures (a - b) % WORD == if a < b then a - b + WORD else a - b
  {}

  /** On every block of bytes, for every name a slice can hold: `add_entry` leaves its buffer
      exactly if the block has a reachable fatal record. */
  lemma OverrunIff(block: seq<byte>, ino: nat, name: Name)
    requires |block| <= 32768 && |name| < WORD / 2
    ensures Insertion(block, ino, name).Overrun? <==> Unsafe(block)
  {
    hide EntryLen, NameLen, AppendTo, Aligned;
    if Unsafe(block) {
      var trail :| Trail(block, trail) && Fatal(block, trail[|trail| - 1]);
      TrailEnd(block, trail, |trail| - 1);
    }
    if EndOf(block, 0).Last? {
      LastInside(block, 0, EndOf(block, 0).offset);
      AppendCases(block, EndOf(block, 0).offset, ino, name);
    }
    StartsTrail(block);
    var whole := EndHasTrail(block, [0]);
    assert Insertion(block, ino, name).Overrun? ==> Fatal(block, whole[|whole| - 1]);
  }

  lemma StartsTrail(block: seq<byte>)
    ensures Trail(block, [0])
  {}

  /** Where nothing overruns, the edit is the insertion behind a record with room for it. */
  lemma InsertionDone(block: seq<byte>, ino: nat, name: Name, now: seq<byte>)
    requires |block| <= 32768 && |name| < WORD / 2 && Insertion(block, ino, name) == Done(now)
    ensures EndOf(block, 0).Last? && Fits(block, EndOf(block, 0).offset, name) && now == Inserted(block, EndOf(block, 0).offset, ino, name)
  {
    hide EntryLen, NameLen, AppendTo, Inserted, Fits;
    var o := EndOf(block, 0).offset;
    LastInside(block, 0, o);
    AppendCases(block, o, ino, name);
  }

  /** Tiled blocks are safe. */
  lemma TiledSafe(block: seq<byte>, ino: nat, name: Name)
    requires Tiled(block, 0) && 0 < |block| <= 32768 && |name| < WORD / 2
    ensures !Insertion(block, ino, name).Overrun?
  {
    hide EntryLen, NameLen, AppendTo;
    TiledHasLast(block, 0);
    var o := EndOf(block, 0).offset;
    LastIsRecord(block, 0, o);
    AppendCases(block, o, ino, name);
  }

  /** A block whose last record, of 8 bytes, claims a name of one byte: every insertion overruns. */
  lemma ShortRecordOverruns(block: seq<byte>, ino: nat, name: Name)
    requires |block| == 1024 && |name| < WORD / 2
    requires block[4] == 248 && block[5] == 3 && block[1020] == 8 && block[1021] == 0 && block[1022] == 1
    ensures Unsafe(block) && Insertion(block, ino, name) == Overrun
  {
    assert EntryLen(block, 0) == 1016 && EntryLen(block, 1016) == 8 && NameLen(block, 1016) == 1;
    assert Follows(block, 0, 1016) && Trail(block, [0, 1016]) && Fatal(block, [0, 1016][1]);
    OverrunIff(block, ino, name);
  }

  /** A header cut off by the end of the block overruns too; seven bytes of it are enough. */
  lemma CutHeader(block: seq<byte>, ino: nat, name: Name)
    requires |block| == 1024 && |name| < WORD / 2 && (block[4] == 250 || block[4] == 249) && block[5] == 3
    requires block[4] == 249 ==> block[1021] == 0 && block[1022] == 0
    ensures Insertion(block, ino, name) == if block[4] == 250 then Overrun else Refused(CorruptedDirectory)
  {
    if block[4] == 250 {
      assert EntryLen(block, 0) == 1018 && EndOf(block, 1018) == Outside;
    } else {
      assert EntryLen(block, 0) == 1017 && EntryLen(block, 1017) == 0 && EndOf(block, 1017) == Nowhere;
    }
  }

  /** What an insertion at `o` leaves as it was. */
  lemma InsertedElsewhere(block: seq<byte>, o: nat, ino: nat, name: Name, k: nat)
    requires Fits(block, o, name)
    requires k < o + Aligned(8 + NameLen(block, o)) && k != o + 4 && k != o + 5
    ensures Inserted(block, o, ino, name)[k] == block[k]
  {
    hide EntryLen, NameLen, NewRecord;
  }

  /** Records before the last keep header and name. */
  lemma EarlierRecord(block: seq<byte>, o: nat, ino: nat, name: Name, p: nat)
    requires Fits(block, o, name)
    requires Record(block, p) && p + EntryLen(block, p) <= o
    ensures var n := Inserted(block, o, ino, name);
      && EntryInode(n, p) == EntryInode(block, p) && EntryLen(n, p) == EntryLen(block, p) && NameLen(n, p) == NameLen(block, p)
      && n[p + 8..p + 8 + NameLen(block, p)] == block[p + 8..p + 8 + NameLen(block, p)]
  {
    hide Inserted;
    var n := Inserted(block, o, ino, name);
    forall k | p <= k < p + 8 + NameLen(block, p) ensures n[k] == block[k] {
      InsertedElsewhere(block, o, ino, name, k);
    }
  }

  /** The record cut down keeps its inode and name. */
  lemma CutRecord(block: seq<byte>, o: nat, ino: nat, name: Name)
    requires Fits(block, o, name) && |block| <= 32768
    ensures var n := Inserted(block, o, ino, name);
      && EntryInode(n, o) == EntryInode(block, o) && EntryLen(n, o) == Aligned(8 + NameLen(block, o)) && NameLen(n, o) == NameLen(block, o)
      && n[o + 8..o + 8 + NameLen(block, o)] == block[o + 8..o + 8 + NameLen(block, o)]
  {
    var n, used := Inserted(block, o, ino, name), Aligned(8 + NameLen(block, o));
    assert n[o + 4..o + 6] == Bytes16(used) by {
      var cut := Splice(block, o + 4, Bytes16(used));
      assert cut[o + 4..o + 6] == Bytes16(used);
      hide NewRecord;
      assert n[o + 4] == cut[o + 4] && n[o + 5] == cut[o + 5];
    }
    CutFields(block, o, ino, name);
  }

  lemma CutFields(block: seq<byte>, o: nat, ino: nat, name: Name)
    requires Fits(block, o, name) && |block| <= 32768
    requires Inserted(block, o, ino, name)[o + 4..o + 6] == Bytes16(Aligned(8 + NameLen(block, o)))
    ensures var n := Inserted(block, o, ino, name);
      && EntryInode(n, o) == EntryInode(block, o) && EntryLen(n, o) == Aligned(8 + NameLen(block, o)) && NameLen(n, o) == NameLen(block, o)
      && n[o + 8..o + 8 + NameLen(block, o)] == block[o + 8..o + 8 + NameLen(block, o)]
  {
    hide Inserted;
    var n := Inserted(block, o, ino, name);
    forall k | o <= k < o + 8 + NameLen(block, o) && k != o + 4 && k != o + 5 ensures n[k] == block[k] {
      InsertedElsewhere(block, o, ino, name, k);
    }
    assert Padded(n)[o + 4..o + 6] == n[o + 4..o + 6];
    Stored16(Padded(n), o + 4, Aligned(8 + NameLen(block, o)));
  }

  /** The new record reads back what was stored, for names whose length fits a byte. */
  lemma NewRecordFields(n: seq<byte>, o: nat, ino: nat, len: nat, name: Name)
    requires o + 8 + |name| <= |n| && n[o..o + 8 + |name|] == NewRecord(ino, len, name) && ino < U32 && len < U16
    ensures EntryInode(n, o) == ino && EntryLen(n, o) == len && NameLen(n, o) == |name| % 256
    ensures n[o + 8..o + 8 + |name|] == name
  {
    var r, p := NewRecord(ino, len, name), Padded(n);
    assert p[o..o + 8 + |name|] == r;
    assert p[o..o + 4] == r[0..4] == Bytes32(ino);
    assert p[o + 4..o + 6] == r[4..6] == Bytes16(len);
    assert p[o + 6] == r[6];
    assert n[o + 8..o + 8 + |name|] == r[8..] == name;
    Stored32(p, o, ino);
    Stored16(p, o + 4, len);
  }

  lemma NewAtEnd(block: seq<byte>, o: nat, ino: nat, name: Name)
    requires Fits(block, o, name)
    ensures var at := o + Aligned(8 + NameLen(block, o));
      Inserted(block, o, ino, name)[at..at + 8 + |name|] == NewRecord(ino, SpaceLeft(block, o), name)
  {
    hide EntryLen, NameLen, NewRecord;
  }

  lemma InsertedLast(block: seq<byte>, o: nat, ino: nat, name: Name)
    requires Fits(block, o, name) && |block| <= 32768 && 0 < ino < U32 && |name| <= 255 && Record(block, o)
    ensures var n := Inserted(block, o, ino, name);
      Tiled(n, o) && Tiled(block, o) && Listing(n, o) == Listing(block, o) + [(ino, name)]
  {
    hide EntryInode, EntryLen, NameLen, Inserted, NewRecord;
    var n, at := Inserted(block, o, ino, name), o + Aligned(8 + NameLen(block, o));
    CutRecord(block, o, ino, name);
    NewAtEnd(block, o, ino, name);
    NewRecordFields(n, at, ino, SpaceLeft(block, o), name);
    assert Tiled(n, |n|) && Listing(n, |n|) == [];
    assert Record(n, at) && Listed(n, at) == [(ino, name)];
    assert Tiled(n, at) && Listing(n, at) == [(ino, name)];
    assert Record(n, o) && Listed(n, o) == Listed(block, o);
    assert Tiled(block, |block|) && Listing(block, |block|) == [];
  }

  /** Insertion keeps the block tiled, keeps every pair in order and adds the new one at the end. */
  lemma {:induction false} InsertedListing(block: seq<byte>, p: nat, o: nat, ino: nat, name: Name)
    requires Tiled(block, p) && EndOf(block, p) == Last(o) && |block| <= 32768
    requires Fits(block, o, name) && 0 < ino < U32 && |name| <= 255
    ensures var n := Inserted(block, o, ino, name); Tiled(n, p) && Listing(n, p) == Listing(block, p) + [(ino, name)]
    decreases |block| - p
  {
    hide EntryInode, EntryLen, NameLen, Inserted, Fits, Tiled, Listing, EndOf;
    LastIsRecord(block, p, o);
    if p == o {
      InsertedLast(block, o, ino, name);
    } else {
      var n, next := Inserted(block, o, ino, name), p + EntryLen(block, p);
      TiledNext(block, p);
      EarlierRecord(block, o, ino, name, p);
      InsertedListing(block, next, o, ino, name);
      assert Record(n, p) && Listed(n, p) == Listed(block, p);
      TiledFrom(n, p);
    }
  }

  lemma TiledNext(block: seq<byte>, p: nat)
    requires Tiled(block, p) && p < |block|
    ensures Record(block, p) && Tiled(block, p + EntryLen(block, p))
    ensures Listing(block, p) == Listed(block, p) + Listing(block, p + EntryLen(block, p))
  {
    hide EntryInode, EntryLen, NameLen;
  }

  lemma TiledFrom(block: seq<byte>, p: nat)
    requires Record(block, p) && Tiled(block, p + EntryLen(block, p))
    ensures Tiled(block, p) && Listing(block, p) == Listed(block, p) + Listing(block, p + EntryLen(block, p))
  {
    hide EntryInode, EntryLen, NameLen;
  }

  lemma {:induction false} LastIsRecord(block: seq<byte>, p: nat, o: nat)
    requires Tiled(block, p) && EndOf(block, p) == Last(o)
    ensures p <= o && Record(block, o) && o + EntryLen(block, o) == |block|
    ensures p < o ==> p + EntryLen(block, p) <= o && EndOf(block, p + EntryLen(block, p)) == Last(o)
    decreases |block| - p
  {
    hide EntryLen, NameLen;
    if p + EntryLen(block, p) != |block| { LastIsRecord(block, p + EntryLen(block, p), o); }
  }

  /** In a tiled, nonempty block the walk always arrives. */
  lemma {:induction false} TiledHasLast(block: seq<byte>, p: nat)
    requires Tiled(block, p) && p < |block|
    ensures EndOf(block, p).Last?
    decreases |block| - p
  {
    hide EntryLen, NameLen;
    if p + EntryLen(block, p) != |block| { TiledHasLast(block, p + EntryLen(block, p)); }
  }

  /** A name can be read back exactly when its length fits the one byte kept for it. */
  lemma NameKeptIff(n: seq<byte>, o: nat, ino: nat, len: nat, name: Name)
    requires o + 8 + |name| <= |n| && n[o..o + 8 + |name|] == NewRecord(ino, len, name) && ino < U32 && len < U16
    ensures o + 8 + NameLen(n, o) <= |n|
    ensures n[o + 8..o + 8 + NameLen(n, o)] == name <==> |name| <= 255
  {
    hide EntryInode, EntryLen, NameLen;
    NewRecordFields(n, o, ino, len, name);
    if |name| > 255 {
      assert |n[o + 8..o + 8 + NameLen(n, o)]| == |name| % 256 < |name|;
    }
  }
}
