/** Python's subscript and slice semantics on sequences (lists and strings). */
module PySeq {
  import opened Wrappers

  function Min(a: int, b: int): int { if a <= b then a else b }

  /** How Python clamps one slice bound `i` of `s[lo:hi]` against a length `n`:
      a negative bound counts from the end, and every bound is clipped to [0, n]. */
  function SliceBound(i: int, n: nat): (b: nat)
    ensures b <= n
    ensures 0 <= i ==> b == Min(i, n)
  {
    if i < 0 then (if i + n < 0 then 0 else i + n)
    else if i > n then n
    else i
  }

  /** `s[lo:hi]`: never raises; an empty result when the clamped bounds cross. */
  function Slice<T>(s: seq<T>, lo: int, hi: int): (r: seq<T>)
    ensures |r| <= |s|
    ensures 0 <= lo <= hi ==> r == s[Min(lo, |s|)..Min(hi, |s|)]
  {
    var a := SliceBound(lo, |s|);
    var b := SliceBound(hi, |s|);
    if a <= b then s[a..b] else []
  }

  /** `s[k:]` for a non-negative `k`. */
  function Drop<T>(s: seq<T>, k: nat): (r: seq<T>)
    ensures r == if k <= |s| then s[k..] else []
  {
    Slice(s, k, |s|)
  }

  /** The position selected by the subscript `s[i]` on a sequence of length `n`,
      or None where Python raises IndexError; `-1` selects the last element. */
  function Position(n: nat, i: int): (r: Option<nat>)
    ensures r.Some? <==> -(n as int) <= i < n
    ensures r.Some? ==> r.value < n
    ensures 0 <= i < n ==> r == Some(i)
    ensures n > 0 && i == -1 ==> r == Some(n - 1)
  {
    if 0 <= i < n then Some(i)
    else if -(n as int) <= i < 0 then Some(i + n)
    else None
  }
}
