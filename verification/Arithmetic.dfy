/** Division facts with a divisor that is not a literal. */
module Arithmetic {

  function Div(x: nat, m: nat): (q: nat)
    requires m > 0
  {
    x / m
  }

  lemma MulSpread(d: int, m: int)
    requires m > 0
    ensures d >= 1 ==> d * m >= m
    ensures d <= -1 ==> d * m <= -m
  {
    if d >= 1 {
      assert (d - 1) * m >= 0;
    } else if d <= -1 {
      assert (-1 - d) * m >= 0;
    }
  }

  /** Quotient and remainder are the only way to split `x` by `m`. */
  lemma DivModUnique(x: int, q: int, r: int, m: int)
    requires m > 0 && x == q * m + r && 0 <= r < m
    ensures x / m == q && x % m == r
  {
    var d := q - x / m;
    assert d * m == q * m - x / m * m;
    MulSpread(d, m);
  }

  lemma Distribute(a: nat, b: nat, m: nat)
    ensures (a + b) * m == a * m + b * m
    ensures a * m >= 0 && b * m >= 0
  {
  }

  lemma MulMonotone(a: nat, b: nat, m: nat)
    requires a <= b
    ensures a * m <= b * m
  {
    assert (b - a) * m >= 0;
  }

  /** Among more values than there are places, two are equal. */
  lemma {:induction false} Pigeonhole(xs: seq<nat>, places: nat) returns (i: nat, j: nat)
    requires |xs| > places && forall k :: 0 <= k < |xs| ==> xs[k] < places
    ensures i < j < |xs| && xs[i] == xs[j]
    decreases places
  {
    var last := |xs| - 1;
    if k :| 0 <= k < last && xs[k] == xs[last] {
      return k, last;
    }
    var x := xs[last];
    var ys := seq(last, k requires 0 <= k < last => if xs[k] == places - 1 then x else xs[k]);
    i, j := Pigeonhole(ys, places - 1);
  }
}
