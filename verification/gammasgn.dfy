/** The sign of the gamma function: 1 on the positive axis, 0 at zero and at
    the negative integers (the poles), and on each interval (-n-1, -n) the
    sign (-1)^(n+1), read off the parity of the floor of |x|. The argument
    is an exact real; the float cast of the floor to `usize` is a range
    check on it. */
module GammaSgn {

  /** 2^64, one more than the largest `usize`. */
  const UsizeBound: real := 18446744073709551616.0

  predicate IsInteger(x: real) {
    x.Floor as real == x
  }

  /** The source casts floor(|x|) to `usize` only for a negative non-integer
      x, and panics when the cast fails. */
  predicate CastSucceeds(x: real) {
    x < 0.0 && !IsInteger(-x) ==> -x < UsizeBound
  }

  /** r_gammasgn. */
  function RGammaSgn(x: real): (r: real)
    requires CastSucceeds(x)
    ensures r == 1.0 || r == 0.0 || r == -1.0
    ensures r == 0.0 <==> x <= 0.0 && IsInteger(x)
  {
    if x > 0.0 then 1.0
    else if x == 0.0 then 0.0
    else
      var q := -x;
      var p := q.Floor;
      NegateInteger(x);
      if p as real == q then 0.0
      else if p % 2 == 1 then 1.0
      else -1.0
  }

  /** The reference: the sign Gamma takes by its functional equation
      Gamma(x) = Gamma(x + 1) / x. Positive for x > 0, zero at the poles,
      and for a negative non-integer x the opposite of the sign at x + 1. */
  function SignByRecurrence(x: real): (r: real)
    decreases if x > 0.0 then 0 else (-x).Floor + 1
  {
    if x > 0.0 then 1.0
    else if IsInteger(x) then 0.0
    else -SignByRecurrence(x + 1.0)
  }

  /** r_gammasgn agrees with the functional equation wherever it returns. */
  lemma {:induction false} RGammaSgnIsSign(x: real)
    requires CastSucceeds(x)
    ensures RGammaSgn(x) == SignByRecurrence(x)
    decreases if x > 0.0 then 0 else (-x).Floor + 1
  {
    if x <= 0.0 && !IsInteger(x) {
      FloorShift(x);
      NegateInteger(x);
      NegateInteger(x + 1.0);
      if x + 1.0 <= 0.0 {
        RGammaSgnIsSign(x + 1.0);
      }
    }
  }

  /** Integrality does not depend on the sign. */
  lemma NegateInteger(x: real)
    ensures IsInteger(-x) <==> IsInteger(x)
  {
    if IsInteger(x) {
      FloorOfInt(-x.Floor);
    }
    if IsInteger(-x) {
      FloorOfInt(-(-x).Floor);
    }
  }

  lemma FloorOfInt(k: int)
    ensures IsInteger(k as real)
  {
  }

  /** Moving one to the right lowers floor(-x) by one and keeps integrality. */
  lemma FloorShift(x: real)
    ensures (-(x + 1.0)).Floor == (-x).Floor - 1
    ensures IsInteger(x + 1.0) <==> IsInteger(x)
  {
    var k := (-x).Floor;
    assert k as real <= -x < k as real + 1.0;
    assert (k - 1) as real <= -(x + 1.0) < (k - 1) as real + 1.0;
    if IsInteger(x) {
      var j := x.Floor;
      assert x + 1.0 == (j + 1) as real;
    }
    if IsInteger(x + 1.0) {
      var j := (x + 1.0).Floor;
      assert x == (j - 1) as real;
    }
  }

  /** Between the poles the sign alternates from one unit interval to the
      next. */
  lemma Alternates(x: real)
    requires x < 0.0 && !IsInteger(x) && -x < UsizeBound
    ensures RGammaSgn(x) == -RGammaSgn(x + 1.0)
  {
    FloorShift(x);
    NegateInteger(x);
    NegateInteger(x + 1.0);
    RGammaSgnIsSign(x);
    RGammaSgnIsSign(x + 1.0);
  }

  /** On (-1, 0) the sign is negative. */
  lemma NegativeNearZero(x: real)
    requires -1.0 < x < 0.0
    ensures RGammaSgn(x) == -1.0
  {
  }

  /** The documented values: positive at 1..19 and a quarter and a half
      above them; -1 at -0.5, -2.5, -4.5, -6.5; +1 at -1.5, -3.5, -5.5,
      -7.5. */
  lemma Examples(i: int)
    requires 1 <= i < 20
    ensures RGammaSgn(i as real) == 1.0
    ensures RGammaSgn(i as real + 0.5) == 1.0 && RGammaSgn(i as real + 0.25) == 1.0
    ensures RGammaSgn(-0.5) == -1.0 && RGammaSgn(-2.5) == -1.0
    ensures RGammaSgn(-4.5) == -1.0 && RGammaSgn(-6.5) == -1.0
    ensures RGammaSgn(-1.5) == 1.0 && RGammaSgn(-3.5) == 1.0
    ensures RGammaSgn(-5.5) == 1.0 && RGammaSgn(-7.5) == 1.0
  {
    assert (2.5).Floor == 2 && (4.5).Floor == 4 && (6.5).Floor == 6;
    assert (1.5).Floor == 1 && (3.5).Floor == 3 && (5.5).Floor == 5 && (7.5).Floor == 7;
  }
}
