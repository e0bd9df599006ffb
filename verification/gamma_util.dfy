/** The evaluators of the gamma-function code: the same Horner fold and
    Clenshaw recurrence as in the Tools module, with coefficients of the
    argument's own type, a single coefficient returned as it is, and the
    sums written with the coefficient first. They compute the same
    polynomial and Chebyshev series. */
module GammaUtil {
  import opened Tools

  /** eval_poly: 0 without coefficients, c_0 with one, else the Horner fold
      of the rest started at c_0. */
  function EvalPoly(x: real, coeffs: seq<real>): (r: real)
    ensures r == PowerSum(x, coeffs)
  {
    if |coeffs| == 0 then 0.0
    else if |coeffs| == 1 then coeffs[0]
    else
      HornerFoldIsPowerSum(x, coeffs[0], coeffs[1..]);
      HornerFold(x, coeffs[0], coeffs[1..])
  }

  /** The documented values: 2, 1 and 3 for [1, 1] at 1, 0 and 2; and j
      whatever x for [j], [0, j] and [0, 0, j]. */
  lemma EvalPolyExamples(x: real, j: real)
    ensures EvalPoly(1.0, [1.0, 1.0]) == 2.0
    ensures EvalPoly(0.0, [1.0, 1.0]) == 1.0
    ensures EvalPoly(2.0, [1.0, 1.0]) == 3.0
    ensures EvalPoly(x, [j]) == j
    ensures EvalPoly(x, [0.0, j]) == j
    ensures EvalPoly(x, [0.0, 0.0, j]) == j
  {
    LeadingZero(x, [j]);
    assert [0.0, j] == [0.0] + [j];
    LeadingZero(x, [0.0, j]);
    assert [0.0, 0.0, j] == [0.0] + [0.0, j];
  }

  /** eval_cheby: 0, c_0 and c_1 + c_0 x for up to two coefficients,
      otherwise the Clenshaw loop over the interior coefficients. */
  method EvalCheby(x: real, coeffs: seq<real>) returns (r: real)
    ensures r == ChebySum(x, coeffs)
  {
    if |coeffs| <= 2 {
      ChebySumShort(x, coeffs);
    }
    if |coeffs| == 0 {
      r := 0.0;
    } else if |coeffs| == 1 {
      r := coeffs[0];
    } else if |coeffs| == 2 {
      r := coeffs[1] + coeffs[0] * x;
    } else {
      r := Clenshaw(x, coeffs);
    }
  }

  /** The arm for three or more coefficients: bk := c_i + 2x bk1 - bk2 over
      the interior coefficients, closed by c_(N-1) + x bk - bk1. */
  method Clenshaw(x: real, coeffs: seq<real>) returns (r: real)
    requires |coeffs| >= 3
    ensures r == ChebySum(x, coeffs)
  {
    var two := 1.0 + 1.0;
    var bk := coeffs[0];
    var bk1 := 0.0;
    var bk2 := 0.0;
    var lastElement := |coeffs| - 1;
    ghost var ts := ChebyValues(x, coeffs);
    for i := 1 to lastElement
      invariant PrefixOver(ts, coeffs, i) == bk * ts[|coeffs| - i] - bk1 * ts[|coeffs| - i - 1]
    {
      bk2 := bk1;
      bk1 := bk;
      bk := coeffs[i] + two * x * bk1 - bk2;
      ClenshawStep(x, ts, coeffs, i, bk1, bk2, bk);
    }
    ClenshawFinish(x, ts, coeffs, bk, bk1);
    r := coeffs[lastElement] + x * bk - bk1;
  }
}
