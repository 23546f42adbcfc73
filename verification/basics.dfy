/** Shared building blocks: an optional value and the sum of a sequence of integers. */
module Basics {

  /** A value that may be missing; `None` stands for a loop that did not finish
      on the draws it was given. */
  datatype Option<+T> = None | Some(value: T)

  /** The sum of the elements of `s`. */
  function Sum(s: seq<int>): int
  {
    if |s| == 0 then 0 else s[0] + Sum(s[1..])
  }

  /** Summing distributes over concatenation. */
  lemma {:induction false} SumConcat(a: seq<int>, b: seq<int>)
    ensures Sum(a + b) == Sum(a) + Sum(b)
  {
    if |a| == 0 {
      assert a + b == b;
    } else {
      assert (a + b)[1..] == a[1..] + b;
      SumConcat(a[1..], b);
    }
  }

  /** Appending one element adds it to the sum. */
  lemma SumSnoc(s: seq<int>, x: int)
    ensures Sum(s + [x]) == Sum(s) + x
  {
    SumConcat(s, [x]);
  }

  /** The sum of a prefix grows by the next element. */
  lemma SumPrefix(s: seq<int>, k: nat)
    requires k < |s|
    ensures Sum(s[..k + 1]) == Sum(s[..k]) + s[k]
  {
    assert s[..k + 1] == s[..k] + [s[k]];
    SumSnoc(s[..k], s[k]);
  }

  /** Overwriting one element changes the sum by the difference. */
  lemma {:induction false} SumUpdate(s: seq<int>, i: nat, v: int)
    requires i < |s|
    ensures Sum(s[i := v]) == Sum(s) - s[i] + v
  {
    if i == 0 {
      assert s[i := v][1..] == s[1..];
    } else {
      assert s[i := v][1..] == s[1..][i - 1 := v];
      SumUpdate(s[1..], i - 1, v);
    }
  }

  /** `n` copies of `c` sum to `c * n`. */
  lemma {:induction false} SumConstant(c: int, n: nat)
    ensures Sum(seq(n, _ => c)) == c * n
  {
    if n > 0 {
      assert seq(n, _ => c)[1..] == seq(n - 1, _ => c);
      SumConstant(c, n - 1);
    }
  }

  /** A sum of non-negative elements is non-negative. */
  lemma {:induction false} SumNonNegative(s: seq<int>)
    requires forall i :: 0 <= i < |s| ==> s[i] >= 0
    ensures Sum(s) >= 0
  {
    if |s| > 0 {
      SumNonNegative(s[1..]);
    }
  }
}
