/** Python's numeric built-ins that the modelled code relies on, written out
    over unbounded integers and exact reals. */
module Numbers {

  function Abs(r: real): real {
    if r < 0.0 then -r else r
  }

  function AbsInt(n: int): nat {
    if n < 0 then -n else n
  }

  function MinInt(a: int, b: int): int {
    if b < a then b else a
  }

  function MaxInt(a: int, b: int): int {
    if a < b then b else a
  }

  function MinReal(a: real, b: real): real {
    if b < a then b else a
  }

  /** `int(r)` on a float: truncation toward zero. The two ensures together
      determine the result uniquely. */
  function Trunc(r: real): (n: int)
    ensures r >= 0.0 ==> n as real <= r < n as real + 1.0
    ensures r < 0.0 ==> n as real - 1.0 < r <= n as real
  {
    if r >= 0.0 then r.Floor else -((-r).Floor)
  }

  /** `max(lo, min(v, hi))`, the clamping idiom of the generators. */
  function Clamp(lo: int, v: int, hi: int): (r: int)
    ensures lo <= hi ==> lo <= r <= hi
    ensures lo <= v <= hi ==> r == v
    ensures v < lo ==> r == lo
    ensures lo <= hi < v ==> r == hi
  {
    MaxInt(lo, MinInt(v, hi))
  }
}
