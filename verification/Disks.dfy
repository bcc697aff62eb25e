/** Block devices with 512-byte sectors, and what it means to read a file from one. */
module Disks {
  import opened Common

  const SECTOR := 512

  type Sector = s: seq<byte> | |s| == SECTOR witness Zeros(SECTOR)

  /** A sector that is not in the map cannot be read. */
  type Disk = map<nat, Sector>

  /** `data` is what a read of `want` bytes at `offset` should give: consecutive bytes of
      `content`, as many as wanted, or all up to the first one that is not there. */
  ghost predicate ReadsPrefix(data: seq<byte>, want: nat, offset: nat, content: nat -> Option<byte>) {
    && |data| <= want
    && (forall i :: 0 <= i < |data| ==> content(offset + i) == Some(data[i]))
    && (|data| < want ==> content(offset + |data|) == None)
  }

  lemma PrefixHas(data: seq<byte>, want: nat, offset: nat, content: nat -> Option<byte>, i: nat)
    requires ReadsPrefix(data, want, offset, content) && i < |data|
    ensures content(offset + i).Some?
  {
    assert content(offset + i) == Some(data[i]);
  }

  /** There is exactly one such answer. */
  lemma PrefixUnique(a: seq<byte>, b: seq<byte>, want: nat, offset: nat, content: nat -> Option<byte>)
    requires ReadsPrefix(a, want, offset, content) && ReadsPrefix(b, want, offset, content)
    ensures a == b
  {
    if |a| < |b| { PrefixHas(b, want, offset, content, |a|); }
    if |b| < |a| { PrefixHas(a, want, offset, content, |b|); }
    forall i | 0 <= i < |a| ensures a[i] == b[i] {
      assert content(offset + i) == Some(a[i]) == Some(b[i]);
    }
  }

  /** A long read is a short one followed by a read of the rest. */
  lemma PrefixSplit(all: seq<byte>, first: seq<byte>, rest: seq<byte>, n: nat, m: nat, offset: nat, content: nat -> Option<byte>)
    requires ReadsPrefix(all, n + m, offset, content)
    requires ReadsPrefix(first, n, offset, content)
    requires ReadsPrefix(rest, m, offset + n, content)
    ensures all == if |first| < n then first else first + rest
  {
    var joined := if |first| < n then first else first + rest;
    forall i | 0 <= i < |joined| ensures content(offset + i) == Some(joined[i]) {
      if i >= |first| { assert content(offset + n + (i - n)) == Some(rest[i - n]); }
    }
    assert |first| == n && |rest| < m ==> content(offset + n + |rest|) == None;
    PrefixUnique(all, joined, n + m, offset, content);
  }

  /** When everything wanted is there, the answer is a slice of it. */
  lemma PrefixSlice(data: seq<byte>, want: nat, offset: nat, content: nat -> Option<byte>, whole: seq<byte>)
    requires ReadsPrefix(data, want, offset, content) && offset + want <= |whole|
    requires forall i :: 0 <= i < |whole| ==> content(i) == Some(whole[i])
    ensures data == whole[offset..offset + want]
  {
    var slice := whole[offset..offset + want];
    assert ReadsPrefix(slice, want, offset, content);
    PrefixUnique(data, slice, want, offset, content);
  }
}
