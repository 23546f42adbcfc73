/** The game's only source of randomness is `Math.floor(Math.random() * n)`.
    The model replaces each call by one natural-number draw taken from an
    explicit sequence, so that every run is a function of its draws. */
module Random {

  /** The integer `Math.floor(Math.random() * n)` yields when the random number
      is represented by the draw `d`: a value in `[0, n)`, and `0` when `n` is
      zero (the product is then zero). */
  function Below(d: nat, n: int): (k: int)
    requires n >= 0
    ensures n > 0 ==> 0 <= k < n
    ensures n == 0 ==> k == 0
  {
    if n == 0 then 0 else d % n
  }

  /** Every value the source can produce is reachable: a draw already in range
      is returned unchanged, so the draw sequences cover all behaviours. */
  lemma BelowReachesAll(k: nat, n: int)
    requires k < n
    ensures Below(k, n) == k
  {
  }
}
