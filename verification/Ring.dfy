/** Ring buffers: the elements between a tail and a head that wraps, oldest first. */
module Ring {
  /** The slot `k` places after `tail` in a ring of `size` slots. */
  function Slot(size: nat, tail: nat, k: nat): (i: nat)
    requires tail < size && k < size
    ensures i < size
  {
    if tail + k < size then tail + k else tail + k - size
  }

  /** The `n` elements of a ring from slot `tail` on. */
  function Unroll<T>(b: seq<T>, tail: nat, n: nat): (s: seq<T>)
    requires tail < |b| && n < |b|
    ensures |s| == n
    ensures forall k :: 0 <= k < n ==> s[k] == b[Slot(|b|, tail, k)]
  {
    seq(n, k requires 0 <= k < n => b[Slot(|b|, tail, k)])
  }

  lemma UnrollUpdate<T>(b: seq<T>, tail: nat, n: nat, i: nat, x: T)
    requires i < n < |b| && tail < |b|
    ensures Unroll(b[Slot(|b|, tail, i) := x], tail, n) == Unroll(b, tail, n)[i := x]
  {
  }

  lemma UnrollAppend<T>(b: seq<T>, tail: nat, n: nat, x: T)
    requires tail < |b| && n + 1 < |b|
    ensures Unroll(b[Slot(|b|, tail, n) := x], tail, n + 1) == Unroll(b, tail, n) + [x]
  {
  }

  lemma UnrollRest<T>(b: seq<T>, tail: nat, n: nat)
    requires tail < |b| && 0 < n < |b|
    ensures Unroll(b, tail, n) == [b[tail]] + Unroll(b, if tail + 1 == |b| then 0 else tail + 1, n - 1)
  {
    var next := if tail + 1 == |b| then 0 else tail + 1;
    forall k | 0 <= k < n - 1 ensures Slot(|b|, next, k) == Slot(|b|, tail, k + 1) {
    }
  }
}
