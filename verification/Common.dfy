/** Types shared by every component of the kernel model. */
module Common {
  datatype Option<+T> = None | Some(value: T)

  /** An unsigned 8-bit value. Arithmetic on it is ordinary integer arithmetic. */
  type byte = x: int | 0 <= x < 256

  const FRAME_SIZE := 4096

  /** 64-bit arithmetic is modulo `WORD`. */
  const WORD := 0x1_0000_0000_0000_0000

  function Min(a: nat, b: nat): nat {
    if a <= b then a else b
  }

  /** `(x + n - 1) / n` of the source: the number of `n`-sized units covering `x`. */
  function CeilDiv(x: nat, n: nat): nat
    requires n > 0
  {
    (x + n - 1) / n
  }

  function Zeros(n: nat): (r: seq<byte>)
    ensures |r| == n && forall i :: 0 <= i < n ==> r[i] == 0
  {
    seq(n, _ => 0)
  }

  /** Overwrites `data[at .. at + |patch|]` with `patch`. */
  function Splice(data: seq<byte>, at: nat, patch: seq<byte>): (r: seq<byte>)
    requires at + |patch| <= |data|
    ensures |r| == |data|
    ensures r[at..at + |patch|] == patch
    ensures forall i :: 0 <= i < |data| && !(at <= i < at + |patch|) ==> r[i] == data[i]
  {
    data[..at] + patch + data[at + |patch|..]
  }

  /** An unsigned little-endian number. */
  function LittleEndian(b: seq<byte>): nat {
    if b == [] then 0 else b[0] + 256 * LittleEndian(b[1..])
  }
}

/** Facts about products and quotients. */
module Arithmetic {
  lemma MulNat(a: nat, b: nat)
    ensures a * b >= 0
  {}

  lemma {:induction false} MulStrict(a: nat, b: nat, c: nat)
    requires a < b
    ensures a * c + c <= b * c
  {
    if a + 1 < b { MulStrict(a, b - 1, c); }
  }

  lemma DivMod(n: nat, size: nat, j: nat)
    requires j < size
    ensures (n * size + j) / size == n && (n * size + j) % size == j
  {
    var x := n * size + j;
    var q, r := x / size, x % size;
    assert x == q * size + r;
    if q < n { MulStrict(q, n, size); }
    if n < q { MulStrict(n, q, size); }
  }
}

/** Single-bit operations on machine words, written arithmetically: `TestBit` is
    `(b & (1 << k)) != 0`, `SetBit` is `b | (1 << k)`, `ClearBit` is `b & !(1 << k)`. */
module Bits {
  function Pow2(n: nat): (r: nat)
    ensures r >= 1
  {
    if n == 0 then 1 else 2 * Pow2(n - 1)
  }

  predicate TestBit(b: nat, k: nat) {
    if k == 0 then b % 2 == 1 else TestBit(b / 2, k - 1)
  }

  function SetBit(b: nat, k: nat): nat {
    if k == 0 then b / 2 * 2 + 1 else SetBit(b / 2, k - 1) * 2 + b % 2
  }

  function ClearBit(b: nat, k: nat): nat {
    if k == 0 then b / 2 * 2 else ClearBit(b / 2, k - 1) * 2 + b % 2
  }

  lemma {:induction false} TestAfterSet(b: nat, k: nat, j: nat)
    ensures TestBit(SetBit(b, k), j) <==> j == k || TestBit(b, j)
  {
    if j > 0 && k > 0 {
      TestAfterSet(b / 2, k - 1, j - 1);
    }
  }

  lemma {:induction false} TestAfterClear(b: nat, k: nat, j: nat)
    ensures TestBit(ClearBit(b, k), j) <==> j != k && TestBit(b, j)
  {
    if j > 0 && k > 0 {
      TestAfterClear(b / 2, k - 1, j - 1);
    }
  }

  /** Setting or clearing bit `k` of a `w`-bit word stays within `w` bits. */
  lemma {:induction false} BitOpsFit(b: nat, k: nat, w: nat)
    requires k < w && b < Pow2(w)
    ensures SetBit(b, k) < Pow2(w) && ClearBit(b, k) < Pow2(w)
  {
    if k > 0 {
      BitOpsFit(b / 2, k - 1, w - 1);
    }
  }

  /** Every bit of the all-ones `w`-bit word is set. */
  lemma {:induction false} AllOnes(k: nat, w: nat)
    requires k < w
    ensures TestBit(Pow2(w) - 1, k)
  {
    assert (Pow2(w) - 1) / 2 == Pow2(w - 1) - 1;
    if k > 0 {
      AllOnes(k - 1, w - 1);
    }
  }
}
