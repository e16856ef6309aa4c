/** The few Python built-in operations the miner relies on, with Python's
    own edge cases: truncating `int()`, flooring `% 1`, `math.ceil`, and
    string slicing and indexing with negative and out-of-range positions. */
module Builtins {

  import opened Wrappers

  /** `int(x)` for a number: truncation toward zero. */
  function Truncate(x: real): (r: int)
    ensures x >= 0.0 ==> r as real <= x < r as real + 1.0
    ensures x < 0.0 ==> r as real - 1.0 < x <= r as real
  {
    if x >= 0.0 then x.Floor else -((-x).Floor)
  }

  /** `x % 1`: Python's modulo follows the sign of the divisor, so this is
      the distance to the floor, in [0, 1) also for negative x. */
  function FracPart(x: real): (r: real)
    ensures 0.0 <= r < 1.0
    ensures x - r == (x - r).Floor as real
    ensures r == 0.0 <==> x == x.Floor as real
  {
    x - x.Floor as real
  }

  /** `math.ceil(x)`: the least integer not below x. */
  function Ceil(x: real): (r: int)
    ensures r as real - 1.0 < x <= r as real
  {
    -((-x).Floor)
  }

  /** How Python turns a slice bound into a position in a sequence of
      length n: negative bounds count from the end, then clamp to [0, n]. */
  function SliceBound(j: int, n: nat): (r: nat)
    ensures r <= n
    ensures 0 <= j <= n ==> r == j
    ensures j < 0 <= j + n ==> r == n + j
    ensures j + n < 0 ==> r == 0
    ensures n < j ==> r == n
  {
    if j < 0 then (if j + n < 0 then 0 else j + n)
    else if j > n then n
    else j
  }

  /** `s[j:]`. */
  function SliceFrom<T>(s: seq<T>, j: int): (r: seq<T>)
    ensures |r| == |s| - SliceBound(j, |s|) && r == s[|s| - |r|..]
  {
    s[SliceBound(j, |s|)..]
  }

  /** `s[:j]`. */
  function SliceTo<T>(s: seq<T>, j: int): (r: seq<T>)
    ensures |r| == SliceBound(j, |s|) && r <= s
  {
    s[..SliceBound(j, |s|)]
  }

  /** `s[j]`; None is the IndexError raised outside [-|s|, |s|). */
  function At<T>(s: seq<T>, j: int): (r: Option<T>)
    ensures r.Some? <==> -|s| <= j < |s|
    ensures 0 <= j < |s| ==> r == Some(s[j])
  {
    if 0 <= j < |s| then Some(s[j])
    else if -|s| <= j < 0 then Some(s[|s| + j])
    else None
  }

  /** `h.startswith(p)`. */
  predicate StartsWith(h: string, p: string): (b: bool)
    ensures b <==> |p| <= |h| && h[..|p|] == p
  {
    p <= h
  }
}
