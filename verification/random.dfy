/** Python's `random` module as an oracle. The Mersenne Twister is not
    modelled: after seeding, the k-th call of the generator is fed the k-th
    raw natural of a stream, and each call maps its raw value into the range
    the call documents. Every value of that range is reachable, so a property
    proved for all streams holds for whatever the real generator produces. */
module Random {
  import opened Results

  /** The raw values the generator hands out, call by call. */
  type Stream = nat -> nat

  /** A generator for every seed: `mt(seed, k)` is the k-th raw value after
      `random.seed(seed)`. */
  type Seeded = (int, nat) -> nat

  const TwoTo53: nat := 0x20_0000_0000_0000

  /** `random.randint(lo, hi)`: a value of [lo, hi], or ValueError when the
      range is empty. */
  function RandInt(lo: int, hi: int, raw: nat): (r: Result<int>)
    ensures r.Success? <==> lo <= hi
    ensures r.Success? ==> lo <= r.value <= hi
    ensures r.Failure? ==> r.error == EmptyRange(lo, hi)
  {
    if hi < lo then Failure(EmptyRange(lo, hi)) else Success(lo + raw % (hi - lo + 1))
  }

  /** The abstraction loses nothing: every value of the range is drawn by some raw value. */
  lemma RandIntReachesRange(lo: int, hi: int, v: int)
    requires lo <= v <= hi
    ensures exists raw: nat :: RandInt(lo, hi, raw) == Success(v)
  {
    var raw: nat := v - lo;
    assert RandInt(lo, hi, raw) == Success(v);
  }

  /** `random.random()`: CPython returns k / 2^53 for a 53-bit k, so the
      result lies in [0, 1). */
  function RandFloat(raw: nat): (f: real)
    ensures 0.0 <= f < 1.0
  {
    (raw % TwoTo53) as real / TwoTo53 as real
  }

  /** Every value CPython's `random()` can return is drawn by some raw value. */
  lemma RandFloatReachesRange(k: nat)
    requires k < TwoTo53
    ensures exists raw: nat :: RandFloat(raw) == k as real / TwoTo53 as real
  {
    assert RandFloat(k) == k as real / TwoTo53 as real;
  }
}
