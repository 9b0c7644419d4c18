/** Small shared vocabulary: optional values and Python's slice-to-length. */
module Wrappers {

  /** A value that may be absent (Python's `None`, a missing document or field). */
  datatype Option<+T> = None | Some(value: T)

  function Min(a: int, b: int): int
  {
    if a <= b then a else b
  }

  /** Python's `s[:n]` for a non-negative `n`: the first `n` elements, or all of them if there are fewer. */
  function Prefix<T>(s: seq<T>, n: nat): (r: seq<T>)
    ensures |r| == Min(n, |s|)
    ensures forall i :: 0 <= i < |r| ==> r[i] == s[i]
    ensures |s| <= n ==> r == s
  {
    if |s| <= n then s else s[..n]
  }
}
