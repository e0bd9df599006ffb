/** Binomial coefficients, combinations with repetition and k-permutations of
    primitive integers, with the overflow-checked variants. */
module Combinatorics {
  import opened PrimInt
  import opened Factorial

  // ---------------------------------------------------------------------
  // Reference definitions
  // ---------------------------------------------------------------------

  /** The number of k-element subsets of an n-element set, by Pascal's rule;
      0 whenever n < 0, k < 0 or k > n. */
  function Binomial(n: int, k: int): nat
    decreases if n > 0 then n else 0
  {
    if n < 0 || k < 0 || k > n then 0
    else if k == 0 || k == n then 1
    else Binomial(n - 1, k - 1) + Binomial(n - 1, k)
  }

  /** The number of multisets of size k drawn from n kinds: either none of the
      last kind is taken, or at least one is. */
  function MultiChoose(n: nat, k: nat): nat
    decreases n + k
  {
    if k <= 0 then 1
    else if n <= 0 then 0
    else MultiChoose(n - 1, k) + MultiChoose(n, k - 1)
  }

  function Min(a: int, b: int): int {
    if a <= b then a else b
  }

  // ---------------------------------------------------------------------
  // Arithmetic helpers
  // ---------------------------------------------------------------------

  lemma DivExact(a: int, j: int)
    requires j > 0
    ensures (a * j) / j == a
  {
    var q, r := (a * j) / j, (a * j) % j;
    assert a * j == j * q + r && 0 <= r < j;
    assert j * (a - q) == r;
    if a - q >= 1 {
      MulLe(j, j, 1, a - q);
    } else if a - q <= -1 {
      MulLe(j, j, 1, q - a);
    }
  }

  lemma MulAssoc(a: int, b: int, c: int)
    ensures a * (b * c) == (a * b) * c
  {
  }

  /** The arithmetic step of the absorption identity. */
  lemma AbsorbArith(n: int, k: int, a: int, b: int, c: int, d: int)
    requires a == c + d && b * k == (n - 1) * d && a * (k - 1) == (n - 1) * c
    ensures (a + b) * k == n * a
  {
    calc {
      (a + b) * k;
      a * k + b * k;
      a * (k - 1) + a + b * k;
      (n - 1) * c + a + (n - 1) * d;
      (n - 1) * (c + d) + a;
      (n - 1) * a + a;
      n * a;
    }
  }

  /** The arithmetic step of the factorial formula. */
  lemma FactorialsArith(c: int, c': int, k: int, m: int, f: int, g: int, fk: int, fm: int, total: int)
    requires c * k == c' * m && fk == k * f && fm == m * g && c' * (f * fm) == total
    ensures c * (fk * g) == total
  {
    calc {
      c * (fk * g);
      c * ((k * f) * g);
      (c * k) * (f * g);
      (c' * m) * (f * g);
      c' * (f * (m * g));
      total;
    }
  }

  // ---------------------------------------------------------------------
  // Facts about binomial coefficients
  // ---------------------------------------------------------------------

  lemma {:induction false} BinomialSymmetric(n: int, k: int)
    ensures Binomial(n, k) == Binomial(n, n - k)
    decreases if n > 0 then n else 0
  {
    if 0 < k < n {
      BinomialSymmetric(n - 1, k - 1);
      BinomialSymmetric(n - 1, k);
    }
  }

  lemma {:induction false} BinomialOne(n: int)
    requires n >= 1
    ensures Binomial(n, 1) == n
  {
    if n > 1 {
      BinomialOne(n - 1);
    }
  }

  /** Absorption: k C(n, k) = n C(n-1, k-1). */
  lemma {:induction false} BinomialAbsorb(n: int, k: int)
    requires n >= 1 && k >= 1
    ensures Binomial(n, k) * k == n * Binomial(n - 1, k - 1)
  {
    if k == 1 {
      BinomialOne(n);
    } else if k < n {
      var a, b := Binomial(n - 1, k - 1), Binomial(n - 1, k);
      BinomialAbsorb(n - 1, k);
      BinomialAbsorb(n - 1, k - 1);
      var c, d := Binomial(n - 2, k - 2), Binomial(n - 2, k - 1);
      assert Binomial(n, k) == a + b;
      assert a == c + d;
      AbsorbArith(n, k, a, b, c, d);
    }
  }

  /** The complementary absorption: (n - k) C(n, k) = n C(n-1, k). */
  lemma BinomialAbsorbUpper(n: int, k: int)
    requires n >= 1 && k >= 0
    ensures Binomial(n, k) * (n - k) == n * Binomial(n - 1, k)
  {
    if k < n {
      BinomialSymmetric(n, k);
      BinomialAbsorb(n, n - k);
      BinomialSymmetric(n - 1, k);
    }
  }

  /** The identity the multiplicative formula rests on:
      C(n, i) i = C(n, i-1) (n + 1 - i). */
  lemma ChooseStepIdentity(n: int, i: int)
    requires 1 <= i <= n
    ensures Binomial(n, i) * i == Binomial(n, i - 1) * (n + 1 - i)
  {
    BinomialAbsorb(n, i);
    BinomialAbsorbUpper(n, i - 1);
  }

  /** C(n, k) = n! / (k! (n-k)!), the formula the documentation gives. */
  lemma {:induction false} BinomialFactorials(n: int, k: int)
    requires 0 <= k <= n
    ensures Binomial(n, k) * (Fact(k) * Fact(n - k)) == Fact(n)
  {
    if k > 0 {
      BinomialFactorials(n, k - 1);
      ChooseStepIdentity(n, k);
      var c, c' := Binomial(n, k), Binomial(n, k - 1);
      var f, g := Fact(k - 1), Fact(n - k);
      assert Fact(k) == k * f;
      assert Fact(n - (k - 1)) == (n + 1 - k) * g;
      FactorialsArith(c, c', k, n + 1 - k, f, g, Fact(k), Fact(n - (k - 1)), Fact(n));
    }
  }

  // ---------------------------------------------------------------------
  // choose
  // ---------------------------------------------------------------------

  /** The fold of choose after steps 1..j: each step multiplies by m - i and
      divides by i. */
  function ChooseFold(m: int, j: int): int
    decreases j
  {
    if j <= 0 then 1 else (ChooseFold(m, j - 1) * (m - j)) / j
  }

  /** Every intermediate value of the fold is a binomial coefficient, so every
      division is exact. */
  lemma {:induction false} ChooseFoldIsBinomial(n: int, j: nat)
    requires j <= n
    ensures ChooseFold(n + 1, j) == Binomial(n, j)
  {
    if j > 0 {
      ChooseFoldIsBinomial(n, j - 1);
      ChooseStepIdentity(n, j);
      DivExact(Binomial(n, j), j);
    }
  }

  /** n choose k by the multiplicative formula over min(k, n-k) steps. */
  function Choose(n: int, k: int): (r: int)
    ensures r == Binomial(n, k)
  {
    if k > n || n < 0 || k < 0 then 0
    else
      var m := n + 1;
      var nTerms := Min(k, n - k) + 1;
      ChooseFoldIsBinomial(n, nTerms - 1);
      BinomialSymmetric(n, k);
      ChooseFold(m, nTerms - 1)
  }

  /** C(n, k) k! (n-k)! = n!, and C(n, k) is 0 outside 0 <= k <= n. */
  lemma ChooseFactorials(n: int, k: int)
    ensures 0 <= k <= n ==> Choose(n, k) * (Fact(k) * Fact(n - k)) == Fact(n)
    ensures !(0 <= k <= n) ==> Choose(n, k) == 0
  {
    if 0 <= k <= n {
      BinomialFactorials(n, k);
    }
  }

  // ---------------------------------------------------------------------
  // choose_rep
  // ---------------------------------------------------------------------

  /** Combinations with repetition, (n + k - 1) choose k: the number of
      multisets of size k over n kinds, except that 0 kinds and size 0 give 0
      rather than 1 (the empty multiset, the one departure from the count);
      it is 0 for negative arguments. */
  function ChooseRep(n: int, k: int): (r: int)
    ensures n >= 1 && k >= 0 ==> r == MultiChoose(n, k)
    ensures n == 0 && k >= 1 ==> r == MultiChoose(n, k) == 0
    ensures n < 0 || k < 0 ==> r == 0
    ensures n == 0 && k == 0 ==> r == 0 && MultiChoose(n, k) == 1
  {
    if n >= 1 && k >= 0 then
      BinomialMultiChoose(n, k);
      Choose(n + k - 1, k)
    else
      Choose(n + k - 1, k)
  }

  /** C(n + k - 1, k) satisfies the multiset recurrence. */
  lemma {:induction false} BinomialMultiChoose(n: nat, k: nat)
    requires n >= 1
    ensures Binomial(n + k - 1, k) == MultiChoose(n, k)
    decreases n + k
  {
    if n == 1 {
      MultiChooseOneKind(k);
    } else if k >= 1 {
      BinomialMultiChoose(n - 1, k);
      BinomialMultiChoose(n, k - 1);
      assert Binomial(n + k - 1, k) == Binomial(n + k - 2, k - 1) + Binomial(n + k - 2, k);
    }
  }

  lemma {:induction false} MultiChooseOneKind(k: nat)
    ensures MultiChoose(1, k) == 1
  {
    if k > 0 {
      MultiChooseOneKind(k - 1);
    }
  }

  // ---------------------------------------------------------------------
  // perm
  // ---------------------------------------------------------------------

  /** The fold of perm: lo (lo + 1) ... (hi - 1), multiplied from the left. */
  function RangeProduct(lo: int, hi: int): int
    decreases hi - lo
  {
    if lo >= hi then 1 else RangeProduct(lo, hi - 1) * (hi - 1)
  }

  lemma {:induction false} RangeProductFact(lo: int, hi: int)
    requires 1 <= lo <= hi
    ensures RangeProduct(lo, hi) * Fact(lo - 1) == Fact(hi - 1)
    decreases hi - lo
  {
    if lo < hi {
      RangeProductFact(lo, hi - 1);
      MulRotate(RangeProduct(lo, hi - 1), hi - 1, Fact(lo - 1));
    }
  }

  lemma {:induction false} RangeProductPositive(lo: int, hi: int)
    requires lo >= 1
    ensures RangeProduct(lo, hi) >= 1
    decreases hi - lo
  {
    if lo < hi {
      RangeProductPositive(lo, hi - 1);
      MulLe(1, RangeProduct(lo, hi - 1), 1, hi - 1);
    }
  }

  /** The k-permutations of n: n! / (n-k)!, and 0 outside 0 <= k <= n. */
  function Perm(n: int, k: int): (r: int)
    ensures 0 <= k <= n ==> r * Fact(n - k) == Fact(n)
    ensures !(0 <= k <= n) ==> r == 0
  {
    if k > n || n < 0 || k < 0 then 0
    else
      var start := n - k + 1;
      var end := n + 1;
      RangeProductFact(start, end);
      RangeProduct(start, end)
  }

  /** An ordered selection is an unordered one in some order: P(n, k) = C(n, k) k!. */
  lemma PermIsChooseTimesOrders(n: int, k: int)
    ensures k >= 0 ==> Perm(n, k) == Binomial(n, k) * Fact(k)
  {
    if 0 <= k <= n {
      BinomialFactorials(n, k);
      var c, f, g := Binomial(n, k), Fact(k), Fact(n - k);
      MulAssoc(c, f, g);
      FactMonotone(n - k, 0);
      assert Perm(n, k) * g == (c * f) * g;
      CancelPositive(Perm(n, k), c * f, g);
    }
  }

  lemma CancelPositive(a: int, b: int, g: int)
    requires g > 0 && a * g == b * g
    ensures a == b
  {
    if a < b {
      MulLt(a, b, g);
    } else if a > b {
      MulLt(b, a, g);
    }
  }

  // ---------------------------------------------------------------------
  // checked_choose, checked_choose_rep, checked_perm
  // ---------------------------------------------------------------------

  /** The product formed in step i of checked_choose, before its division. */
  function ChooseStep(n: int, i: int): int {
    Binomial(n, i - 1) * (n + 1 - i)
  }

  /** What checked_choose returns: Some(0) outside 0 <= k <= n; None when n + 1
      or the product of some step exceeds the type's maximum, even if the
      coefficient itself would fit; otherwise Some(C(n, k)). */
  ghost function CheckedChooseSpec(t: IntType, n: int, k: int): Option<int> {
    if k > n || n < 0 || k < 0 then Some(0)
    else if n + 1 > t.Max() then None
    else if exists i :: 1 <= i <= Min(k, n - k) && ChooseStep(n, i) > t.Max() then None
    else Some(Binomial(n, k))
  }

  method CheckedChoose(t: IntType, n: int, k: int) returns (r: Option<int>)
    requires t.Contains(n) && t.Contains(k)
    ensures r == CheckedChooseSpec(t, n, k)
  {
    if k > n || n < 0 || k < 0 {
      return Some(0);
    }
    var m := CheckedAdd(t, n, 1);
    if m.None? {
      return None;
    }
    var nTerms := Min(k, n - k) + 1;
    var result := 1;
    for i := 1 to nTerms
      invariant result == Binomial(n, i - 1)
      invariant forall j :: 1 <= j < i ==> ChooseStep(n, j) <= t.Max()
    {
      ChooseLoopStep(n, i);
      var p := CheckedMul(t, result, m.value - i);
      if p.None? {
        return None;
      }
      result := p.value / i;
    }
    ChooseNoStepOverflows(t, n, k);
    r := Some(result);
  }

  /** When no step overflows, checked_choose returns the coefficient, which the
      fold reaches after min(k, n-k) steps. */
  lemma ChooseNoStepOverflows(t: IntType, n: int, k: int)
    requires 0 <= k <= n && n + 1 <= t.Max()
    requires forall j :: 1 <= j < Min(k, n - k) + 1 ==> ChooseStep(n, j) <= t.Max()
    ensures CheckedChooseSpec(t, n, k) == Some(Binomial(n, Min(k, n - k)))
  {
    BinomialSymmetric(n, k);
  }

  /** Step i of checked_choose forms ChooseStep(n, i) and divides it exactly. */
  lemma ChooseLoopStep(n: int, i: int)
    requires 1 <= i <= n
    ensures Binomial(n, i - 1) * (n + 1 - i) == ChooseStep(n, i) >= 0
    ensures ChooseStep(n, i) / i == Binomial(n, i)
  {
    ChooseStepIdentity(n, i);
    DivExact(Binomial(n, i), i);
    MulLe(0, Binomial(n, i - 1), 0, n + 1 - i);
  }

  /** Whatever checked_choose returns is the binomial coefficient. */
  lemma CheckedChooseSound(t: IntType, n: int, k: int)
    ensures CheckedChooseSpec(t, n, k).Some? ==> CheckedChooseSpec(t, n, k).value == Binomial(n, k)
  {
  }

  /** A coefficient too large for the type always gives None: the last step's
      product is at least the coefficient. */
  lemma CheckedChooseOverflow(t: IntType, n: int, k: int)
    requires 0 <= k <= n && Binomial(n, k) > t.Max()
    ensures CheckedChooseSpec(t, n, k) == None
  {
    var j := Min(k, n - k);
    BinomialSymmetric(n, k);
    if j == 0 {
      assert false;
    }
    ChooseStepIdentity(n, j);
    MulLe(Binomial(n, j), Binomial(n, j), 1, j);
    assert ChooseStep(n, j) > t.Max();
  }

  /** C(10, 5) = 252, which fits in a u8. (The arguments are parameters so
      that the coefficient is reached through the fold rather than by
      expanding Pascal's rule.) */
  lemma BinomialTenFive(n: int, k: int)
    requires n == 10 && k == 5
    ensures Binomial(n, k) == 252 <= U8.Max()
  {
    assert ChooseFold(11, 5) == 252;
    ChooseFoldIsBinomial(n, k);
  }

  /** The intermediate products can overflow although the result fits:
      checked_choose of 10 and 5 in u8 is None, because step 3 already forms
      C(10, 2) 8 = 360. */
  lemma CheckedChooseTenFiveU8(n: int, k: int)
    requires n == 10 && k == 5
    ensures CheckedChooseSpec(U8, n, k) == None
  {
    assert Binomial(10, 2) == 45;
    assert 1 <= 3 <= Min(k, n - k) && ChooseStep(n, 3) > U8.Max();
  }

  /** What checked_choose_rep returns: None when n + k or n + k - 1 leaves the
      type, otherwise checked_choose of n + k - 1 and k. */
  ghost function CheckedChooseRepSpec(t: IntType, n: int, k: int): Option<int> {
    if !t.Contains(n + k) || !t.Contains(n + k - 1) then None
    else CheckedChooseSpec(t, n + k - 1, k)
  }

  method CheckedChooseRep(t: IntType, n: int, k: int) returns (r: Option<int>)
    requires t.Contains(n) && t.Contains(k)
    ensures r == CheckedChooseRepSpec(t, n, k)
    ensures r.Some? ==> r.value == ChooseRep(n, k)
  {
    var s := CheckedAdd(t, n, k);
    if s.None? {
      return None;
    }
    var d := CheckedSub(t, s.value, 1);
    if d.None? {
      return None;
    }
    r := CheckedChoose(t, d.value, k);
  }

  /** What checked_perm returns: Some(0) outside 0 <= k <= n; None when n + 1 or
      the permutation count exceeds the type's maximum; otherwise Some(P(n, k)). */
  ghost function CheckedPermSpec(t: IntType, n: int, k: int): Option<int> {
    if k > n || n < 0 || k < 0 then Some(0)
    else if n + 1 > t.Max() || Perm(n, k) > t.Max() then None
    else Some(Perm(n, k))
  }

  method CheckedPerm(t: IntType, n: int, k: int) returns (r: Option<int>)
    requires t.Contains(n) && t.Contains(k)
    ensures r == CheckedPermSpec(t, n, k)
  {
    if k > n || n < 0 || k < 0 {
      return Some(0);
    }
    var start := CheckedAdd(t, n - k, 1);
    if start.None? {
      return None;
    }
    var end := CheckedAdd(t, n, 1);
    if end.None? {
      return None;
    }
    var result := 1;
    for i := start.value to end.value
      invariant result == RangeProduct(start.value, i)
      invariant 1 <= result <= t.Max()
    {
      PermLoopStep(start.value, i, end.value);
      var p := CheckedMul(t, result, i);
      if p.None? {
        return None;
      }
      result := p.value;
    }
    r := Some(result);
  }

  /** Step i of checked_perm: the next prefix of the product, which is positive
      and bounded by the whole product. */
  lemma PermLoopStep(lo: int, i: int, hi: int)
    requires 1 <= lo <= i < hi
    ensures RangeProduct(lo, i) * i == RangeProduct(lo, i + 1)
    ensures 1 <= RangeProduct(lo, i + 1) <= RangeProduct(lo, hi)
  {
    PartialProductBound(lo, i + 1, hi);
    RangeProductPositive(lo, i + 1);
  }

  /** A prefix of the product never exceeds the whole product. */
  lemma {:induction false} PartialProductBound(lo: int, mid: int, hi: int)
    requires 1 <= lo <= mid <= hi
    ensures RangeProduct(lo, mid) <= RangeProduct(lo, hi)
    decreases hi - mid
  {
    if mid < hi {
      PartialProductBound(lo, mid, hi - 1);
      RangeProductPositive(lo, hi - 1);
      MulLe(RangeProduct(lo, hi - 1), RangeProduct(lo, hi - 1), 1, hi - 1);
    }
  }
}
