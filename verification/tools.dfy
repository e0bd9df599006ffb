/** Evaluation of a polynomial by Horner's rule and of a Chebyshev series by
    Clenshaw's recurrence. Coefficients are stored highest order first: the
    constant term is the last one. Arithmetic is over exact reals. */
module Tools {

  // ---------------------------------------------------------------------
  // The sums the evaluators compute
  // ---------------------------------------------------------------------

  function Pow(x: real, n: nat): real {
    if n == 0 then 1.0 else x * Pow(x, n - 1)
  }

  /** c_0 x^(N-1) + c_1 x^(N-2) + ... + c_(N-1), for N = |c|. */
  function PowerSum(x: real, c: seq<real>): real
    decreases |c|
  {
    if c == [] then 0.0 else c[0] * Pow(x, |c| - 1) + PowerSum(x, c[1..])
  }

  /** The Chebyshev polynomials of the first kind: T_0 = 1, T_1 = x and
      T_(i+1) = 2x T_i - T_(i-1). */
  function ChebyT(i: nat, x: real): real {
    if i == 0 then 1.0
    else if i == 1 then x
    else 2.0 * x * ChebyT(i - 1, x) - ChebyT(i - 2, x)
  }

  /** The first m terms c_k T_(N-1-k)(x), k < m, of the series of c. */
  function ChebyPrefix(x: real, c: seq<real>, m: nat): real
    requires m <= |c|
  {
    if m == 0 then 0.0 else ChebyPrefix(x, c, m - 1) + c[m - 1] * ChebyT(|c| - m, x)
  }

  /** The Chebyshev series c_(N-1) T_0(x) + c_(N-2) T_1(x) + ... + c_0 T_(N-1)(x). */
  function ChebySum(x: real, c: seq<real>): real {
    ChebyPrefix(x, c, |c|)
  }

  // ---------------------------------------------------------------------
  // eval_poly
  // ---------------------------------------------------------------------

  /** The fold of eval_poly: each coefficient c turns the running value v into
      v x + c. */
  function HornerFold(x: real, acc: real, cs: seq<real>): real
    decreases |cs|
  {
    if cs == [] then acc else HornerFold(x, acc * x + cs[0], cs[1..])
  }

  /** Folding cs into acc shifts acc up by |cs| powers and adds the
      polynomial of cs. */
  lemma {:induction false} HornerFoldIsPowerSum(x: real, acc: real, cs: seq<real>)
    ensures HornerFold(x, acc, cs) == acc * Pow(x, |cs|) + PowerSum(x, cs)
    decreases |cs|
  {
    if cs != [] {
      var a := acc * x + cs[0];
      var p := Pow(x, |cs| - 1);
      var s := PowerSum(x, cs[1..]);
      HornerFoldIsPowerSum(x, a, cs[1..]);
      HornerAlgebra(x, acc, cs[0], p, s, a);
    }
  }

  lemma HornerAlgebra(x: real, acc: real, c: real, p: real, s: real, a: real)
    requires a == acc * x + c
    ensures a * p + s == acc * (x * p) + (c * p + s)
  {
  }

  /** eval_poly: 0 without coefficients, c_0 with one, else the Horner fold
      of the rest started at c_0. The value is the polynomial. */
  function EvalPoly(x: real, coeffs: seq<real>): (r: real)
    ensures r == PowerSum(x, coeffs)
  {
    if |coeffs| == 0 then 0.0
    else if |coeffs| == 1 then 1.0 * coeffs[0]
    else
      HornerFoldIsPowerSum(x, 1.0 * coeffs[0], coeffs[1..]);
      HornerFold(x, 1.0 * coeffs[0], coeffs[1..])
  }

  /** A leading zero coefficient adds nothing. */
  lemma LeadingZero(x: real, c: seq<real>)
    ensures PowerSum(x, [0.0] + c) == PowerSum(x, c)
  {
    assert ([0.0] + c)[1..] == c;
  }

  /** The documented values: 0, 1 and 2 at [1, 1]; and j whatever x for [j],
      [0, j] and [0, 0, j]. */
  lemma EvalPolyExamples(x: real, j: real)
    ensures EvalPoly(1.0, [1.0, 1.0]) == 2.0
    ensures EvalPoly(0.0, [1.0, 1.0]) == 1.0
    ensures EvalPoly(2.0, [1.0, 1.0]) == 3.0
    ensures EvalPoly(x, [j]) == j
    ensures EvalPoly(x, [0.0, j]) == j
    ensures EvalPoly(x, [0.0, 0.0, j]) == j
  {
    LeadingZero(x, [j]);
    assert [0.0, j] == [0.0] + [j];
    LeadingZero(x, [0.0, j]);
    assert [0.0, 0.0, j] == [0.0] + [0.0, j];
  }

  // ---------------------------------------------------------------------
  // eval_cheby
  // ---------------------------------------------------------------------

  /** The series of up to two coefficients: [] is 0, [a] is a and [a, b]
      is a x + b. */
  lemma ChebySumShort(x: real, c: seq<real>)
    requires |c| <= 2
    ensures |c| == 0 ==> ChebySum(x, c) == 0.0
    ensures |c| == 1 ==> ChebySum(x, c) == c[0]
    ensures |c| == 2 ==> ChebySum(x, c) == x * c[0] + c[1]
  {
    if |c| >= 1 {
      assert ChebyPrefix(x, c, 1) == c[0] * ChebyT(|c| - 1, x);
    }
  }

  /** A leading zero coefficient adds nothing to the series either. */
  lemma ChebyLeadingZero(x: real, c: seq<real>)
    ensures ChebySum(x, [0.0] + c) == ChebySum(x, c)
  {
    ChebyPrefixShift(x, c, |c|);
  }

  lemma {:induction false} ChebyPrefixShift(x: real, c: seq<real>, m: nat)
    requires m <= |c|
    ensures ChebyPrefix(x, [0.0] + c, m + 1) == ChebyPrefix(x, c, m)
  {
    var d := [0.0] + c;
    if m == 0 {
      assert ChebyPrefix(x, d, 1) == 0.0 * ChebyT(|c|, x);
    } else {
      ChebyPrefixShift(x, c, m - 1);
      assert d[m] == c[m - 1];
    }
  }

  /** The documented quadratic and cubic: [1, 0, j] is 2x^2 - 1 + j and
      [1, 0, 0, j] is 4x^3 - 3x + j. */
  lemma ChebySumQuadratic(x: real, j: real)
    ensures ChebySum(x, [1.0, 0.0, j]) == 2.0 * x * x - 1.0 + j
  {
    var c := [1.0, 0.0, j];
    assert ChebyT(2, x) == 2.0 * x * x - 1.0;
    assert ChebyPrefix(x, c, 1) == ChebyT(2, x);
    assert ChebyPrefix(x, c, 2) == ChebyT(2, x);
  }

  lemma ChebySumCubic(x: real, j: real)
    ensures ChebySum(x, [1.0, 0.0, 0.0, j]) == 4.0 * x * x * x - 3.0 * x + j
  {
    var c := [1.0, 0.0, 0.0, j];
    var t2 := 2.0 * x * x - 1.0;
    assert ChebyT(2, x) == t2;
    assert ChebyT(3, x) == 2.0 * x * t2 - x;
    CubicAlgebra(x, t2);
    assert ChebyPrefix(x, c, 1) == ChebyT(3, x);
    assert ChebyPrefix(x, c, 3) == ChebyT(3, x);
  }

  lemma CubicAlgebra(x: real, t2: real)
    requires t2 == 2.0 * x * x - 1.0
    ensures 2.0 * x * t2 - x == 4.0 * x * x * x - 3.0 * x
  {
  }

  /** T_0(x), ..., T_(n-1)(x). */
  function ChebyTable(x: real, n: nat): (ts: seq<real>)
    ensures |ts| == n
    ensures forall i :: 0 <= i < n ==> ts[i] == ChebyT(i, x)
  {
    if n == 0 then [] else ChebyTable(x, n - 1) + [ChebyT(n - 1, x)]
  }

  lemma ChebyTableRecurrence(x: real, n: nat)
    ensures forall i :: 2 <= i < n ==> ChebyTable(x, n)[i] == 2.0 * x * ChebyTable(x, n)[i - 1] - ChebyTable(x, n)[i - 2]
  {
  }

  /** ChebyPrefix with the polynomial values read from the table ts. */
  function PrefixOver(ts: seq<real>, c: seq<real>, m: nat): real
    requires m <= |c| == |ts|
  {
    if m == 0 then 0.0 else PrefixOver(ts, c, m - 1) + c[m - 1] * ts[|c| - m]
  }

  lemma {:induction false} PrefixOverTable(x: real, c: seq<real>, m: nat)
    requires m <= |c|
    ensures PrefixOver(ChebyTable(x, |c|), c, m) == ChebyPrefix(x, c, m)
  {
    if m > 0 {
      PrefixOverTable(x, c, m - 1);
    }
  }

  /** Clenshaw's invariant: after the first m coefficients, with b = bk and
      b1 = bk1, the terms they stand for equal b T_(N-m) - b1 T_(N-m-1).
      One step of the recurrence, bk := p + 2x bk - bk2, keeps it. */
  lemma ClenshawStep(x: real, ts: seq<real>, c: seq<real>, m: nat, b: real, b1: real, nb: real)
    requires 1 <= m && m + 1 < |c| == |ts|
    requires forall i :: 2 <= i < |ts| ==> ts[i] == 2.0 * x * ts[i - 1] - ts[i - 2]
    requires PrefixOver(ts, c, m) == b * ts[|c| - m] - b1 * ts[|c| - m - 1]
    requires nb == 2.0 * x * b - b1 + c[m]
    ensures PrefixOver(ts, c, m + 1) == nb * ts[|c| - m - 1] - b * ts[|c| - m - 2]
  {
    var j := |c| - m;
    ClenshawAlgebra(x, c[m], b, b1, nb, ts[j], ts[j - 1], ts[j - 2], PrefixOver(ts, c, m), PrefixOver(ts, c, m + 1));
  }

  lemma ClenshawAlgebra(x: real, p: real, b: real, b1: real, nb: real, t: real, t1: real, t2: real,
                        pre: real, post: real)
    requires t == 2.0 * x * t1 - t2
    requires pre == b * t - b1 * t1
    requires post == pre + p * t1
    requires nb == 2.0 * x * b - b1 + p
    ensures post == nb * t1 - b * t2
  {
  }

  /** A table of T_0(x), ..., T_(N-1)(x) for the coefficients c, described
      only by its first two entries and the recurrence, through which the
      whole series is read. */
  lemma ChebyValues(x: real, c: seq<real>) returns (ts: seq<real>)
    requires |c| >= 2
    ensures |ts| == |c| && ts[0] == 1.0 && ts[1] == x
    ensures forall i :: 2 <= i < |ts| ==> ts[i] == 2.0 * x * ts[i - 1] - ts[i - 2]
    ensures PrefixOver(ts, c, |c|) == ChebySum(x, c)
  {
    ts := ChebyTable(x, |c|);
    ChebyTableRecurrence(x, |c|);
    PrefixOverTable(x, c, |c|);
  }

  /** Once all but the constant coefficient are folded in, adding it and
      closing with x bk - bk1 gives the whole series. */
  lemma ClenshawFinish(x: real, ts: seq<real>, c: seq<real>, b: real, b1: real)
    requires |c| >= 2 && |ts| == |c| && ts[0] == 1.0 && ts[1] == x
    requires PrefixOver(ts, c, |c| - 1) == b * ts[1] - b1 * ts[0]
    ensures c[|c| - 1] + x * b - b1 == PrefixOver(ts, c, |c|)
  {
  }

  /** eval_cheby: 0, c_0 and x c_0 + c_1 for up to two coefficients, otherwise
      the Clenshaw loop over the interior coefficients. The value is the
      Chebyshev series. */
  method EvalCheby(x: real, coeffs: seq<real>) returns (r: real)
    ensures r == ChebySum(x, coeffs)
  {
    if |coeffs| <= 2 {
      ChebySumShort(x, coeffs);
    }
    if |coeffs| == 0 {
      r := 0.0;
    } else if |coeffs| == 1 {
      r := 1.0 * coeffs[0];
    } else if |coeffs| == 2 {
      r := x * coeffs[0] + coeffs[1];
    } else {
      r := Clenshaw(x, coeffs);
    }
  }

  /** The arm of eval_cheby for three or more coefficients: Clenshaw's
      recurrence bk := c_i + 2x bk - bk2 over the interior coefficients,
      closed by x bk - bk1 plus the constant coefficient. */
  method Clenshaw(x: real, coeffs: seq<real>) returns (r: real)
    requires |coeffs| >= 3
    ensures r == ChebySum(x, coeffs)
  {
    var two := 1.0 + 1.0;
    var bk := 1.0 * coeffs[0];
    var bk1 := 0.0;
    var bk2 := 0.0;
    var lastElement := |coeffs| - 1;
    ghost var ts := ChebyValues(x, coeffs);
    for i := 1 to lastElement
      invariant PrefixOver(ts, coeffs, i) == bk * ts[|coeffs| - i] - bk1 * ts[|coeffs| - i - 1]
    {
      bk2 := bk1;
      bk1 := bk;
      bk := two * x * bk1 - bk2 + coeffs[i];
      ClenshawStep(x, ts, coeffs, i, bk1, bk2, bk);
    }
    ClenshawFinish(x, ts, coeffs, bk, bk1);
    r := x * bk - bk1 + coeffs[lastElement];
  }
}
