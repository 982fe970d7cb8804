/** Small shared vocabulary: bytes, optional values, results and index permutations. */
module Basics {

  /** A byte of UTF-8 source text. */
  type byte = b: int | 0 <= b < 256

  const TAB: byte := 9
  const LF: byte := 10
  const CR: byte := 13
  const SPACE: byte := 32

  datatype Option<+T> = None | Some(value: T)

  datatype Result<+T, +E> = Ok(value: T) | Err(error: E)

  /** The bytes of an ASCII string literal (used to state the fixtures of the source's tests). */
  function Ascii(s: string): (b: seq<byte>)
    requires forall i :: 0 <= i < |s| ==> s[i] < 128 as char
    ensures |b| == |s|
    ensures forall i :: 0 <= i < |s| ==> b[i] == s[i] as int
  {
    seq(|s|, i requires 0 <= i < |s| => s[i] as int as byte)
  }

  /** The integers lo, lo+1, ..., hi-1. */
  function Range(lo: nat, hi: nat): (r: seq<nat>)
    requires lo <= hi
    ensures |r| == hi - lo
    ensures forall k :: 0 <= k < |r| ==> r[k] == lo + k
  {
    seq(hi - lo, k requires 0 <= k < hi - lo => lo + k)
  }

  /** `offs` lists every index 0..n-1 exactly once. */
  ghost predicate IsPermutation(offs: seq<nat>, n: nat) {
    && |offs| == n
    && (forall k :: 0 <= k < |offs| ==> offs[k] < n)
    && (forall i, j :: 0 <= i < j < |offs| ==> offs[i] != offs[j])
    && (forall v :: 0 <= v < n ==> v in offs)
  }

  /** Non-decreasing keys, the precondition of every binary search in the source. */
  ghost predicate Sorted(keys: seq<nat>) {
    forall i, j :: 0 <= i < j < |keys| ==> keys[i] <= keys[j]
  }

  ghost predicate StrictlyIncreasing(keys: seq<nat>) {
    forall i, j :: 0 <= i < j < |keys| ==> keys[i] < keys[j]
  }

  function Min(a: int, b: int): int { if a <= b then a else b }

  function Max(a: int, b: int): int { if a >= b then a else b }

  /**
   * Number of leading keys that are <= x (the partition point), found by bisection over
   * [lo, hi); everything left of lo is already known to be <= x and everything from hi on > x.
   */
  function PartitionPoint(keys: seq<nat>, x: nat, lo: nat, hi: nat): (r: nat)
    requires Sorted(keys)
    requires lo <= hi <= |keys|
    requires forall k :: 0 <= k < lo ==> keys[k] <= x
    requires forall k :: hi <= k < |keys| ==> keys[k] > x
    ensures lo <= r <= hi
    ensures forall k :: 0 <= k < r ==> keys[k] <= x
    ensures forall k :: r <= k < |keys| ==> keys[k] > x
    decreases hi - lo
  {
    if lo == hi then lo
    else
      var mid := lo + (hi - lo) / 2;
      if keys[mid] <= x then PartitionPoint(keys, x, mid + 1, hi)
      else PartitionPoint(keys, x, lo, mid)
  }

  /**
   * Index of the last key that is <= x, or 0 when there is none: the result of the source's
   * `binary_search_by` followed by `Ok(i) => i, Err(0) => 0, Err(i) => i - 1`.
   */
  function LastAtOrBefore(keys: seq<nat>, x: nat): (r: nat)
    requires Sorted(keys) && |keys| > 0
    ensures r < |keys|
    ensures keys[r] <= x || (r == 0 && keys[0] > x)
    ensures forall k :: r < k < |keys| ==> keys[k] > x
  {
    var p := PartitionPoint(keys, x, 0, |keys|);
    if p == 0 then 0 else p - 1
  }
}
