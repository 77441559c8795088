/**
 * The slicing operations of `ArrayRef<T>` (src/FormatUtil.h), a non-owning
 * view of a contiguous array, modelled on `seq<T>`.
 */
module ArrayRef {
  import opened FormatUtil

  /** `slice(n, m)`: the `m` elements from position `n`; its debug assertion demands `n + m <= size()`. */
  function Slice<T>(a: seq<T>, n: nat, m: nat): (r: seq<T>)
    requires n + m <= |a|
    ensures |r| == m
    ensures forall i :: 0 <= i < m ==> r[i] == a[n + i]
  {
    a[n..n + m]
  }

  /** `drop_front(n)`: everything after the first `n` elements. */
  function DropFront<T>(a: seq<T>, n: nat): (r: seq<T>)
    requires n <= |a|
    ensures |r| == |a| - n && a == a[..n] + r
  {
    Slice(a, n, |a| - n)
  }

  /** `drop_back(n)`: everything before the last `n` elements. */
  function DropBack<T>(a: seq<T>, n: nat): (r: seq<T>)
    requires n <= |a|
    ensures |r| == |a| - n && r <= a
  {
    Slice(a, 0, |a| - n)
  }

  /** `take_front(n)`: the whole view when `n >= size()`, otherwise exactly its first `n` elements. */
  function TakeFront<T>(a: seq<T>, n: nat): (r: seq<T>)
    ensures |r| == Min(n, |a|) && r <= a
  {
    if n >= |a| then a else DropBack(a, |a| - n)
  }

  /** `take_back(n)`: the whole view when `n >= size()`, otherwise exactly its last `n` elements. */
  function TakeBack<T>(a: seq<T>, n: nat): (r: seq<T>)
    ensures |r| == Min(n, |a|) && r == a[|a| - |r|..]
  {
    if n >= |a| then a else DropFront(a, |a| - n)
  }

  /** Taking and dropping the same number of front elements splits the view. */
  lemma TakeDropFront<T>(a: seq<T>, n: nat)
    requires n <= |a|
    ensures TakeFront(a, n) + DropFront(a, n) == a
  {
  }
}
