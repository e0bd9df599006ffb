/** Integer factorial, double factorial and k-factorial: cached tables for
    small arguments and blocks of `MaxMultiplications + 1` factors computed
    by `partial_product`, plus the overflow-checked variants. */
module Factorial {
  import opened PrimInt

  /** Number of multiplications done in one block. */
  const MaxMultiplications: nat := 16
  const FactorialCacheLen: nat := MaxMultiplications + 1
  const Factorial2CacheLen: nat := 2 * MaxMultiplications + 1

  const FactorialCache: seq<nat> := [
    1, 1, 2, 6, 24, 120, 720, 5040, 40320, 362880, 3628800, 39916800, 479001600, 6227020800,
    87178291200, 1307674368000, 20922789888000
  ]

  const Factorial2Cache: seq<nat> := [
    1, 1, 2, 3, 8, 15, 48, 105, 384, 945, 3840, 10395, 46080, 135135, 645120, 2027025, 10321920,
    34459425, 185794560, 654729075, 3715891200, 13749310575, 81749606400, 316234143225,
    1961990553600, 7905853580625, 51011754393600, 213458046676875, 1428329123020800,
    6190283353629375, 42849873690624000, 191898783962510625, 1371195958099968000
  ]

  // ---------------------------------------------------------------------
  // Mathematical definitions the implementation is measured against
  // ---------------------------------------------------------------------

  /** n! = n (n-1) ... 1, with 0! = 1. */
  function Fact(n: nat): nat {
    if n == 0 then 1 else n * Fact(n - 1)
  }

  /** The k-factorial n (n-k) (n-2k) ..., down to its least positive term;
      the empty product 1 when n <= 0. MultiFact(n, 2) is the double factorial n!!. */
  function MultiFact(n: int, k: nat): nat
    requires k > 0
    decreases if n > 0 then n else 0
  {
    if n <= 0 then 1 else n * MultiFact(n - k, k)
  }

  /** start (start + step) (start + 2 step) ..., over the terms that do not exceed stop. */
  function StepProduct(start: int, stop: int, step: int): int
    requires step > 0
    decreases if start <= stop then stop - start + 1 else 0
  {
    if start > stop then 1 else start * StepProduct(start + step, stop, step)
  }

  /** The first term start + i step that exceeds stop: where the loop counter of
      `partial_product` ends. */
  function ExitValue(start: int, stop: int, step: int): int
    requires step > 0
    decreases if start <= stop then stop - start + 1 else 0
  {
    if start > stop then start else ExitValue(start + step, stop, step)
  }

  // ---------------------------------------------------------------------
  // Facts about the definitions
  // ---------------------------------------------------------------------

  lemma MulLe(a: int, b: int, c: int, d: int)
    requires 0 <= a <= b && 0 <= c <= d
    ensures a * c <= b * d
  {
    assert a * c <= b * c;
  }

  lemma MulLt(a: int, b: int, c: int)
    requires 0 <= a < b && c >= 1
    ensures a * c < b * c
  {
  }

  lemma MulOne(a: int, b: int)
    requires b == 1
    ensures a * b == a
  {
  }

  lemma MulRotate(a: int, b: int, c: int)
    ensures (a * b) * c == b * (a * c)
  {
  }

  lemma {:induction false} MultiFactPositive(n: int, k: nat)
    requires k > 0
    ensures MultiFact(n, k) >= 1
    ensures n >= 1 ==> MultiFact(n, k) >= n
    decreases if n > 0 then n else 0
  {
    if n > 0 {
      MultiFactPositive(n - k, k);
      MulLe(n, n, 1, MultiFact(n - k, k));
    }
  }

  lemma {:induction false} MultiFactOneIsFact(n: nat)
    ensures MultiFact(n, 1) == Fact(n)
  {
    if n > 0 {
      MultiFactOneIsFact(n - 1);
    }
  }

  /** The k-factorial is non-decreasing in n, and strictly increasing from 2 on. */
  lemma {:induction false} MultiFactMonotone(a: int, b: int, k: nat)
    requires k > 0 && a >= b
    ensures MultiFact(a, k) >= MultiFact(b, k)
    ensures a > b && a >= 2 ==> MultiFact(a, k) > MultiFact(b, k)
    decreases if a > 0 then a else 0
  {
    MultiFactPositive(a, k);
    MultiFactPositive(b, k);
    if b >= 1 {
      MultiFactMonotone(a - k, b - k, k);
      MultiFactPositive(a - k, k);
      var fa, fb := MultiFact(a - k, k), MultiFact(b - k, k);
      assert MultiFact(a, k) == a * fa;
      assert MultiFact(b, k) == b * fb;
      MulLe(b, b, fb, fa);
      if a > b {
        MulLt(b, a, fa);
      }
    }
  }

  lemma {:induction false} FactMonotone(a: nat, b: nat)
    requires a >= b
    ensures Fact(a) >= Fact(b)
    ensures a > b && a >= 2 ==> Fact(a) > Fact(b)
  {
    MultiFactMonotone(a, b, 1);
    MultiFactOneIsFact(a);
    MultiFactOneIsFact(b);
  }

  lemma {:induction false} StepProductPositive(start: int, stop: int, step: int)
    requires start >= 1 && step > 0
    ensures StepProduct(start, stop, step) >= 1
    decreases if start <= stop then stop - start + 1 else 0
  {
    if start <= stop {
      StepProductPositive(start + step, stop, step);
      MulLe(1, start, 1, StepProduct(start + step, stop, step));
    }
  }

  lemma {:induction false} ExitValueBounds(start: int, stop: int, step: int)
    requires step > 0
    ensures ExitValue(start, stop, step) >= start
    ensures start <= stop ==> stop < ExitValue(start, stop, step) <= stop + step
    decreases if start <= stop then stop - start + 1 else 0
  {
    if start <= stop {
      ExitValueBounds(start + step, stop, step);
    }
  }

  /** When the terms start, start + k, ... land exactly on stop, the loop exits at stop + k. */
  lemma {:induction false} ExitValueAligned(start: int, m: nat, k: nat)
    requires k > 0
    ensures ExitValue(start, start + m * k, k) == start + m * k + k
    decreases m
  {
    if m > 0 {
      assert start + m * k == (start + k) + (m - 1) * k;
      ExitValueAligned(start + k, m - 1, k);
    }
  }

  /** A block start, start + k, ..., stop that lands on stop extends the
      k-factorial of start - k to that of stop. */
  lemma {:induction false} StepProductMultiFact(start: int, stop: int, k: nat)
    requires start >= 1 && k > 0
    requires ExitValue(start, stop, k) == stop + k
    ensures StepProduct(start, stop, k) * MultiFact(start - k, k) == MultiFact(stop, k)
    decreases if start <= stop then stop - start + 1 else 0
  {
    if start <= stop {
      StepProductMultiFact(start + k, stop, k);
      var rest := StepProduct(start + k, stop, k);
      assert StepProduct(start, stop, k) == start * rest;
      assert MultiFact(start, k) == start * MultiFact(start - k, k);
      MulRotate(start, rest, MultiFact(start - k, k));
    }
  }

  /** A block of m + 1 terms with larger first term and larger step has a larger product. */
  lemma {:induction false} StepProductMonotone(s: int, s': int, m: nat, k: nat, k': nat)
    requires s >= s' >= 1 && k >= k' >= 1
    ensures StepProduct(s, s + m * k, k) >= StepProduct(s', s' + m * k', k') >= 1
    decreases m
  {
    StepProductPositive(s', s' + m * k', k');
    if m > 0 {
      assert s + m * k == (s + k) + (m - 1) * k;
      assert s' + m * k' == (s' + k') + (m - 1) * k';
      StepProductMonotone(s + k, s' + k', m - 1, k, k');
      var a := StepProduct(s + k, s + m * k, k);
      var b := StepProduct(s' + k', s' + m * k', k');
      assert StepProduct(s, s + m * k, k) == s * a;
      assert StepProduct(s', s' + m * k', k') == s' * b;
      MulLe(s', s, b, a);
    }
  }

  /** A block of m + 1 terms start, start + k, ..., start + m k: the loop exits
      right after it, and it extends the k-factorial of start - k to that of
      start + m k. */
  lemma BlockMultiFact(start: int, m: nat, k: nat)
    requires start >= 1 && k > 0
    ensures ExitValue(start, start + m * k, k) == start + m * k + k
    ensures StepProduct(start, start + m * k, k) * MultiFact(start - k, k) == MultiFact(start + m * k, k)
  {
    ExitValueAligned(start, m, k);
    StepProductMultiFact(start, start + m * k, k);
  }

  /** One block of 17 terms n - 16k, ..., n followed by a tail: exact when the
      tail is the k-factorial of n - 16k - 1 and that is the k-factorial of
      n - 17k (k = 1, or n <= 16k + 2); too large when k >= 2 and n >= 16k + 3,
      whatever tail at least that k-factorial is used. */
  lemma BlockThenTail(n: int, k: int, tail: int)
    requires k >= 1 && n > 16 * k
    requires tail >= MultiFact(n - 16 * k - 1, k)
    requires k == 1 || n <= 16 * k + 2 ==> tail == MultiFact(n - 16 * k - 1, k)
    ensures k == 1 || n <= 16 * k + 2 ==> StepProduct(n - 16 * k, n, k) * tail == MultiFact(n, k)
    ensures k >= 2 && n >= 16 * k + 3 ==> StepProduct(n - 16 * k, n, k) * tail > MultiFact(n, k)
  {
    var start := n - 16 * k;
    var rest := start - 1;
    BlockMultiFact(start, 16, k);
    var block := StepProduct(start, n, k);
    StepProductPositive(start, n, k);
    if k == 1 {
      assert rest == start - k;
    } else if n <= 16 * k + 2 {
      assert MultiFact(start - k, k) == 1;
      if rest == 1 {
        assert MultiFact(1, k) == 1 * MultiFact(1 - k, k);
      }
      assert MultiFact(rest, k) == 1;
    } else {
      MultiFactMonotone(rest, start - k, k);
      MulLt(MultiFact(start - k, k), tail, block);
    }
  }

  lemma DoubleFactThirtyFive()
    ensures MultiFact(35, 2) == 221643095476699771875
  {
    assert MultiFact(9, 2) == 945;
    assert MultiFact(17, 2) == 34459425;
    assert MultiFact(25, 2) == 7905853580625;
  }

  /** Values of the factorials just past the 64-bit range, reached in short steps. */
  lemma LargeValues()
    ensures Fact(20) == 2432902008176640000
    ensures Fact(21) == 51090942171709440000
    ensures MultiFact(33, 2) == 6332659870762850625
    ensures MultiFact(34, 2) == 46620662575398912000
    ensures MultiFact(35, 2) == 221643095476699771875
  {
    assert Fact(8) == 40320;
    assert Fact(16) == 20922789888000;
    assert MultiFact(9, 2) == 945;
    assert MultiFact(17, 2) == 34459425;
    assert MultiFact(25, 2) == 7905853580625;
    assert MultiFact(11, 2) == 10395;
    assert MultiFact(19, 2) == 654729075;
    assert MultiFact(27, 2) == 213458046676875;
    assert MultiFact(10, 2) == 3840;
    assert MultiFact(18, 2) == 185794560;
    assert MultiFact(26, 2) == 51011754393600;
  }

  lemma FactorialCacheIsFact()
    ensures |FactorialCache| == FactorialCacheLen
    ensures forall i :: 0 <= i < FactorialCacheLen ==> FactorialCache[i] == Fact(i)
  {
    assert Fact(8) == 40320;
    assert Fact(16) == 20922789888000;
    forall i | 0 <= i < FactorialCacheLen
      ensures FactorialCache[i] == Fact(i)
    {
      assert i == 0 || i == 1 || i == 2 || i == 3 || i == 4 || i == 5 || i == 6 || i == 7 || i == 8 || i == 9 || i == 10 || i == 11 || i == 12 || i == 13 || i == 14 || i == 15 || i == 16;
    }
  }

  lemma Factorial2CacheIsDoubleFact()
    ensures |Factorial2Cache| == Factorial2CacheLen
    ensures forall i :: 0 <= i < Factorial2CacheLen ==> Factorial2Cache[i] == MultiFact(i, 2)
  {
    Factorial2CacheFrom0();
    Factorial2CacheFrom9();
    Factorial2CacheFrom13();
    Factorial2CacheFrom17();
    Factorial2CacheFrom21();
    Factorial2CacheFrom25();
    Factorial2CacheFrom29();
  }

  lemma Factorial2CacheFrom0()
    ensures forall i :: 0 <= i < 9 ==> Factorial2Cache[i] == MultiFact(i, 2)
  {
    forall i | 0 <= i < 9
      ensures Factorial2Cache[i] == MultiFact(i, 2)
    {
      assert i == 0 || i == 1 || i == 2 || i == 3 || i == 4 || i == 5 || i == 6 || i == 7 || i == 8;
    }
  }

  lemma Factorial2CacheFrom9()
    ensures forall i :: 9 <= i < 13 ==> Factorial2Cache[i] == MultiFact(i, 2)
  {
    assert MultiFact(7, 2) == 105;
    assert MultiFact(8, 2) == 384;
    forall i | 9 <= i < 13
      ensures Factorial2Cache[i] == MultiFact(i, 2)
    {
      assert i == 9 || i == 10 || i == 11 || i == 12;
    }
  }

  lemma Factorial2CacheFrom13()
    ensures forall i :: 13 <= i < 17 ==> Factorial2Cache[i] == MultiFact(i, 2)
  {
    assert MultiFact(11, 2) == 10395;
    assert MultiFact(12, 2) == 46080;
    forall i | 13 <= i < 17
      ensures Factorial2Cache[i] == MultiFact(i, 2)
    {
      assert i == 13 || i == 14 || i == 15 || i == 16;
    }
  }

  lemma Factorial2CacheFrom17()
    ensures forall i :: 17 <= i < 21 ==> Factorial2Cache[i] == MultiFact(i, 2)
  {
    assert MultiFact(15, 2) == 2027025;
    assert MultiFact(16, 2) == 10321920;
    forall i | 17 <= i < 21
      ensures Factorial2Cache[i] == MultiFact(i, 2)
    {
      assert i == 17 || i == 18 || i == 19 || i == 20;
    }
  }

  lemma Factorial2CacheFrom21()
    ensures forall i :: 21 <= i < 25 ==> Factorial2Cache[i] == MultiFact(i, 2)
  {
    assert MultiFact(19, 2) == 654729075;
    assert MultiFact(20, 2) == 3715891200;
    forall i | 21 <= i < 25
      ensures Factorial2Cache[i] == MultiFact(i, 2)
    {
      assert i == 21 || i == 22 || i == 23 || i == 24;
    }
  }

  lemma Factorial2CacheFrom25()
    ensures forall i :: 25 <= i < 29 ==> Factorial2Cache[i] == MultiFact(i, 2)
  {
    assert MultiFact(23, 2) == 316234143225;
    assert MultiFact(24, 2) == 1961990553600;
    forall i | 25 <= i < 29
      ensures Factorial2Cache[i] == MultiFact(i, 2)
    {
      assert i == 25 || i == 26 || i == 27 || i == 28;
    }
  }

  lemma Factorial2CacheFrom29()
    ensures forall i :: 29 <= i < 33 ==> Factorial2Cache[i] == MultiFact(i, 2)
  {
    assert MultiFact(27, 2) == 213458046676875;
    assert MultiFact(28, 2) == 1428329123020800;
    forall i | 29 <= i < 33
      ensures Factorial2Cache[i] == MultiFact(i, 2)
    {
      assert i == 29 || i == 30 || i == 31 || i == 32;
    }
  }

  /** One entry of each cache. */
  lemma FactorialCacheAt(n: int)
    requires 0 <= n < FactorialCacheLen
    ensures FactorialCache[n] == Fact(n)
  {
    FactorialCacheIsFact();
  }

  lemma Factorial2CacheAt(n: int)
    requires 0 <= n < Factorial2CacheLen
    ensures Factorial2Cache[n] == MultiFact(n, 2)
  {
    Factorial2CacheIsDoubleFact();
  }

  // ---------------------------------------------------------------------
  // partial_product and checked_partial_product
  // ---------------------------------------------------------------------

  /** The product start (start + step) ... over the terms <= stop, computed by a
      loop that advances start. */
  method PartialProduct(start: int, stop: int, step: int) returns (result: int)
    requires step > 0
    ensures result == StepProduct(start, stop, step)
  {
    var s := start;
    result := 1;
    while s <= stop
      invariant result * StepProduct(s, stop, step) == StepProduct(start, stop, step)
      decreases stop - s
    {
      MulRotate(s, result, StepProduct(s + step, stop, step));
      result := result * s;
      s := s + step;
    }
  }

  /** What checked_partial_product returns, for a positive first term and step:
      None exactly when the product, or the loop counter's final value,
      exceeds the type's maximum. */
  function CheckedStepProduct(t: IntType, start: int, stop: int, step: int): Option<int>
    requires start >= 1 && step >= 1
  {
    if start <= stop && (StepProduct(start, stop, step) > t.Max() || ExitValue(start, stop, step) > t.Max())
    then None
    else Some(StepProduct(start, stop, step))
  }

  /** One multiplication of the checked loop keeps its invariant. */
  lemma CheckedProductStep(t: IntType, start: int, stop: int, step: int, acc: int, s: int)
    requires 1 <= s <= stop && step >= 1 && 1 <= acc
    requires acc * StepProduct(s, stop, step) == StepProduct(start, stop, step)
    ensures acc * s >= 1
    ensures (acc * s) * StepProduct(s + step, stop, step) == StepProduct(start, stop, step)
    ensures acc * s <= StepProduct(start, stop, step)
  {
    StepProductPositive(s + step, stop, step);
    var rest := StepProduct(s + step, stop, step);
    MulRotate(s, acc, rest);
    MulLe(acc * s, acc * s, 1, rest);
    MulLe(1, acc, 1, s);
  }

  /** The checked multiplication of the loop keeps its invariant, and fails
      only when the whole product overflows. */
  lemma CheckedMulStep(t: IntType, start: int, stop: int, step: int, acc: int, s: int)
    requires 1 <= s <= stop && step >= 1 && 1 <= acc
    requires acc * StepProduct(s, stop, step) == StepProduct(start, stop, step)
    ensures var m := CheckedMul(t, acc, s);
            (m.Some? ==> 1 <= m.value <= t.Max() &&
                         m.value * StepProduct(s + step, stop, step) == StepProduct(start, stop, step)) &&
            (m.None? ==> StepProduct(start, stop, step) > t.Max())
  {
    CheckedProductStep(t, start, stop, step, acc, s);
  }

  /** The loop with `checked_mul` and `checked_add`: any overflow yields None. */
  method CheckedPartialProduct(t: IntType, start: int, stop: int, step: int) returns (result: Option<int>)
    requires t.Contains(start) && t.Contains(stop) && t.Contains(step)
    requires start >= 1 && step >= 1
    ensures result == CheckedStepProduct(t, start, stop, step)
    ensures result.Some? ==> result.value == StepProduct(start, stop, step)
  {
    var s := start;
    result := Some(1);
    while s <= stop
      invariant start <= s && t.Contains(s)
      invariant ExitValue(s, stop, step) == ExitValue(start, stop, step)
      invariant result.Some? ==> 1 <= result.value <= t.Max()
      invariant result.Some? ==> result.value * StepProduct(s, stop, step) == StepProduct(start, stop, step)
      invariant result.None? ==> start <= stop && StepProduct(start, stop, step) > t.Max()
      decreases stop - s
    {
      if result.None? {
        return None;
      }
      CheckedMulStep(t, start, stop, step, result.value, s);
      result := CheckedMul(t, result.value, s);
      var next := CheckedAdd(t, s, step);
      if next.None? {
        ExitValueBounds(s + step, stop, step);
        return None;
      }
      s := next.value;
    }
  }

  // ---------------------------------------------------------------------
  // factorial, factorial2, factorialk (the Factorial trait impl)
  // ---------------------------------------------------------------------

  /** n! from the cache below 17, otherwise the block n-16, ..., n times (n-17)!. */
  function Factorial(n: int): (r: int)
    ensures n < 0 ==> r == 0
    ensures n >= 0 ==> r == Fact(n)
    decreases if n > 0 then n else 0
  {
    if n < 0 then 0
    else if n < FactorialCacheLen then FactorialCacheAt(n); FactorialCache[n]
    else
      var start := n - MaxMultiplications;
      MultiFactOneIsFact(n);
      MultiFactOneIsFact(n - FactorialCacheLen);
      BlockThenTail(n, 1, Fact(n - FactorialCacheLen));
      StepProduct(start, n, 1) * Factorial(n - FactorialCacheLen)
  }

  /** factorial2 as written: for n >= 33 it multiplies the block n-32, n-30, ..., n
      by (n-33)!!, whose terms have the wrong parity. It is n!! up to 34 and
      strictly larger than n!! from 35 on. */
  function Factorial2AsWritten(n: int): (r: int)
    ensures n < 0 ==> r == 0
    ensures 0 <= n <= 34 ==> r == MultiFact(n, 2)
    ensures n >= 35 ==> r > MultiFact(n, 2)
    decreases if n > 0 then n else 0
  {
    if n < 0 then 0
    else if n < Factorial2CacheLen then Factorial2CacheAt(n); Factorial2Cache[n]
    else
      var start := n - 2 * MaxMultiplications;
      var tail := Factorial2AsWritten(n - Factorial2CacheLen);
      BlockThenTail(n, 2, tail);
      StepProduct(start, n, 2) * tail
  }

  /** The evidently intended double factorial: the same cache and blocks, with the
      recursion continuing at n-34, the next term of the same parity. */
  function Factorial2(n: int): (r: int)
    ensures n < 0 ==> r == 0
    ensures n >= 0 ==> r == MultiFact(n, 2)
    decreases if n > 0 then n else 0
  {
    if n < 0 then 0
    else if n < Factorial2CacheLen then Factorial2CacheAt(n); Factorial2Cache[n]
    else
      var start := n - 2 * MaxMultiplications;
      var next := start - 2;
      BlockMultiFact(start, MaxMultiplications, 2);
      StepProduct(start, n, 2) * (if next <= 0 then 1 else Factorial2(next))
  }

  /** factorialk as written. For n > 16k it multiplies the block n-16k, ..., n
      (step k) by the k-factorial of n-16k-1 instead of n-17k. This is right
      for k = 1 and for n <= 16k+2, and strictly too large for k >= 2 and
      n >= 16k+3. A step k <= 0 with n >= 0 fails the source's assertion. */
  function FactorialkAsWritten(n: int, k: int): (r: int)
    requires n < 0 || k > 0
    ensures n < 0 ==> r == 0
    ensures n >= 0 && (k == 1 || n <= 16 * k + 2) ==> r == MultiFact(n, k)
    ensures k >= 2 && n >= 16 * k + 3 ==> r > MultiFact(n, k)
    decreases if n > 0 then n else 0
  {
    if n < 0 then 0
    else if n == 0 then 1
    else
      var maxWindow := k * MaxMultiplications;
      if n > maxWindow then
        var tail := FactorialkAsWritten(n - maxWindow - 1, k);
        BlockThenTail(n, k, tail);
        StepProduct(n - maxWindow, n, k) * tail
      else
        WindowStart(n, k);
        var window := k * (n / k);
        var window := if window == n then window - k else window;
        StepProduct(n - window, n, k)
  }

  /** The evidently intended k-factorial: the recursion after a block of 17 terms
      continues at n-17k. */
  function Factorialk(n: int, k: int): (r: int)
    requires n < 0 || k > 0
    ensures n < 0 ==> r == 0
    ensures n >= 0 ==> r == MultiFact(n, k)
    decreases if n > 0 then n else 0
  {
    if n < 0 then 0
    else if n == 0 then 1
    else
      var maxWindow := k * MaxMultiplications;
      if n > maxWindow then
        var start := n - maxWindow;
        var next := start - k;
        BlockMultiFact(start, MaxMultiplications, k);
        StepProduct(start, n, k) * (if next <= 0 then 1 else Factorialk(next, k))
      else
        WindowStart(n, k);
        var window := k * (n / k);
        var window := if window == n then window - k else window;
        StepProduct(n - window, n, k)
  }

  /** The window of the short path: its first term is the least positive term of
      the k-factorial of n, the block is that whole k-factorial, and the loop
      exits at n + k. */
  lemma WindowStart(n: int, k: int)
    requires n >= 1 && k >= 1
    ensures var w := k * (n / k);
            var w' := if w == n then w - k else w;
            1 <= n - w' <= k &&
            StepProduct(n - w', n, k) == MultiFact(n, k) &&
            ExitValue(n - w', n, k) == n + k
  {
    WindowOf(n, k, n / k, n % k);
  }

  /** WindowStart for n = k q + r written out. */
  lemma WindowOf(n: int, k: int, q: int, r: int)
    requires n >= 1 && k >= 1 && q >= 0 && 0 <= r < k && n == k * q + r
    ensures var w := k * q;
            var w' := if w == n then w - k else w;
            1 <= n - w' <= k &&
            StepProduct(n - w', n, k) == MultiFact(n, k) &&
            ExitValue(n - w', n, k) == n + k
  {
    if r == 0 {
      assert q >= 1;
      MulPred(k, q);
      WindowBlock(k, q - 1, k, n);
    } else {
      WindowBlock(r, q, k, n);
    }
  }

  lemma MulPred(k: int, q: int)
    ensures k * (q - 1) == k * q - k
  {
  }

  /** A window whose first term start lies in 1..k is a whole k-factorial. */
  lemma WindowBlock(start: int, m: nat, k: nat, n: int)
    requires 1 <= start <= k && n == start + k * m
    ensures StepProduct(start, n, k) == MultiFact(n, k)
    ensures ExitValue(start, n, k) == n + k
  {
    assert k * m == m * k;
    BlockMultiFact(start, m, k);
    assert MultiFact(start - k, k) == 1;
  }

  // ---------------------------------------------------------------------
  // Relations between the three
  // ---------------------------------------------------------------------

  /** factorialk with k = 1 is factorial. */
  lemma FactorialkOneIsFactorial(n: int)
    ensures FactorialkAsWritten(n, 1) == Factorial(n)
  {
    if n >= 0 {
      MultiFactOneIsFact(n);
    }
  }

  /** factorialk with k = 2 is factorial2: the two share the same parity slip, so
      they agree for every n. */
  lemma {:induction false} FactorialkTwoIsFactorial2(n: int)
    ensures FactorialkAsWritten(n, 2) == Factorial2AsWritten(n)
    decreases if n > 0 then n else 0
  {
    if n >= Factorial2CacheLen {
      FactorialkTwoIsFactorial2(n - Factorial2CacheLen);
    }
  }

  /** The concrete input that exposes the slip: 35!! = 35 33 ... 3 1, but
      factorial2(35) multiplies 35 33 ... 3 by 2!! = 2, and so does
      factorialk(35, 2). (The argument is a parameter so that the functions are
      unfolded once rather than evaluated.) */
  lemma Factorial2ThirtyFive(n: int)
    requires n == 35
    ensures Factorial2AsWritten(n) == 2 * MultiFact(n, 2)
    ensures FactorialkAsWritten(n, 2) == 2 * MultiFact(n, 2)
  {
    var k, start := 2, n - 32;
    BlockMultiFact(start, 16, k);
    var block := StepProduct(start, n, k);
    assert MultiFact(start - k, k) == 1;
    MulOne(block, MultiFact(start - k, k));
    assert Factorial2AsWritten(n - Factorial2CacheLen) == 2;
    assert Factorial2AsWritten(n) == block * 2;
    FactorialkTwoIsFactorial2(n);
  }

  // ---------------------------------------------------------------------
  // Checked variants for usize and isize (free functions)
  // ---------------------------------------------------------------------

  /** What the checked functions need about one block n - 16k, ..., n (n > 16k):
      its bounds, its exit value, and, in types of at most 64 bits, that it
      overflows whenever the as-written tail would be wrong. */
  lemma CheckedBlock(t: IntType, n: int, k: int)
    requires k >= 1 && n > 16 * k
    ensures var start := n - 16 * k;
            StepProduct(start, n, k) <= MultiFact(n, k) &&
            ExitValue(start, n, k) == n + k <= MultiFact(n, k) &&
            MultiFact(start - 1, k) <= MultiFact(n, k) &&
            (k == 1 || n <= 16 * k + 2 ==>
               StepProduct(start, n, k) * MultiFact(start - 1, k) == MultiFact(n, k)) &&
            (k >= 2 && n >= 16 * k + 3 && t.AtMost64Bits() ==>
               StepProduct(start, n, k) > t.Max())
  {
    var start := n - 16 * k;
    BlockBounds(n, k);
    MultiFactMonotone(n, start - 1, k);
    MultiFactPositive(start - 1, k);
    BlockThenTail(n, k, MultiFact(start - 1, k));
    if k >= 2 && n >= 16 * k + 3 && t.AtMost64Bits() {
      BlockOverflows64(t, n, k);
    }
  }

  lemma BlockBounds(n: int, k: int)
    requires k >= 1 && n > 16 * k
    ensures StepProduct(n - 16 * k, n, k) <= MultiFact(n, k)
    ensures ExitValue(n - 16 * k, n, k) == n + k <= MultiFact(n, k)
  {
    BlockProductBound(n, k);
    BlockExitBound(n, k);
  }

  lemma BlockProductBound(n: int, k: int)
    requires k >= 1 && n > 16 * k
    ensures StepProduct(n - 16 * k, n, k) <= MultiFact(n, k)
  {
    var start := n - 16 * k;
    BlockMultiFact(start, 16, k);
    var block, tail := StepProduct(start, n, k), MultiFact(start - k, k);
    MultiFactPositive(start - k, k);
    MulLe(block, block, 1, tail);
  }

  lemma BlockExitBound(n: int, k: int)
    requires k >= 1 && n > 16 * k
    ensures ExitValue(n - 16 * k, n, k) == n + k <= MultiFact(n, k)
  {
    ExitValueAligned(n - 16 * k, 16, k);
    var rest := MultiFact(n - k, k);
    MultiFactPositive(n - k, k);
    assert MultiFact(n, k) == n * rest;
    MulLe(n, n, 16, rest);
  }

  /** In types of at most 64 bits a block whose first term is at least 3 and
      whose step is at least 2 overflows: it is at least 3 5 ... 35 = 35!!. */
  lemma BlockOverflows64(t: IntType, n: int, k: int)
    requires k >= 2 && n >= 16 * k + 3 && t.AtMost64Bits()
    ensures StepProduct(n - 16 * k, n, k) > t.Max()
  {
    var start := n - 16 * k;
    assert start + 16 * k == n;
    StepProductMonotone(start, 3, 16, k, 2);
    BlockMultiFact(3, 16, 2);
    var least := StepProduct(3, 35, 2);
    assert MultiFact(1, 2) == 1;
    MulOne(least, MultiFact(1, 2));
    DoubleFactThirtyFive();
    assert least > U64.Max() >= t.Max();
  }

  /** checked_factorial: Some(n!) exactly when n! fits in the type, Some(0) for n < 0. */
  function CheckedFactorial(t: IntType, n: int): (r: Option<int>)
    requires t.Contains(n)
    ensures n < 0 ==> r == Some(0)
    ensures n >= 0 ==> r == if Fact(n) <= t.Max() then Some(Fact(n)) else None
    decreases if n > 0 then n else 0
  {
    if n < 0 then Some(0)
    else if n < FactorialCacheLen then FactorialCacheAt(n); FromU64(t, FactorialCache[n])
    else
      var start := n - MaxMultiplications;
      CheckedBlock(t, n, 1);
      MultiFactOneIsFact(n);
      MultiFactOneIsFact(n - FactorialCacheLen);
      match CheckedStepProduct(t, start, n, 1)
      case None => None
      case Some(p) =>
        match CheckedFactorial(t, n - FactorialCacheLen)
        case None => None
        case Some(f) => CheckedMul(t, p, f)
  }

  /** checked_factorial2 as written (same parity slip as factorial2). Exact for
      n <= 34 in every type; in types of at most 64 bits every n >= 34 already
      overflows in the first block, so there it is exact for all n. */
  function CheckedFactorial2(t: IntType, n: int): (r: Option<int>)
    requires t.Contains(n)
    ensures n < 0 ==> r == Some(0)
    ensures n >= 0 && (n <= 34 || t.AtMost64Bits()) ==>
              r == if MultiFact(n, 2) <= t.Max() then Some(MultiFact(n, 2)) else None
    decreases if n > 0 then n else 0
  {
    if n < 0 then Some(0)
    else if n < Factorial2CacheLen then Factorial2CacheAt(n); FromU64(t, Factorial2Cache[n])
    else
      var start := n - 2 * MaxMultiplications;
      CheckedBlock(t, n, 2);
      match CheckedStepProduct(t, start, n, 2)
      case None => None
      case Some(p) =>
        match CheckedFactorial2(t, n - Factorial2CacheLen)
        case None => None
        case Some(f) => CheckedMul(t, p, f)
  }

  /** checked_factorialk as written (same slip as factorialk). Whatever it returns
      fits in the type. It is the k-factorial when k = 1, when n <= 16k+2, or in
      types of at most 64 bits, where the slip is masked because the block
      already overflows; and then, for n >= 1, it returns None exactly when 16k,
      n + k or the k-factorial overflows (for n = 0 it returns 1 regardless). */
  function CheckedFactorialk(t: IntType, n: int, k: int): (r: Option<int>)
    requires t.Contains(n) && t.Contains(k)
    requires n < 0 || k > 0
    ensures n < 0 ==> r == Some(0)
    ensures r.Some? ==> r.value <= t.Max()
    ensures n >= 0 && (k == 1 || n <= 16 * k + 2 || t.AtMost64Bits()) ==>
              (r.Some? ==> r.value == MultiFact(n, k)) &&
              (r.None? ==> 16 * k > t.Max() || n + k > t.Max() || MultiFact(n, k) > t.Max())
    ensures n >= 1 && (k == 1 || n <= 16 * k + 2 || t.AtMost64Bits()) ==>
              (r.None? <==> 16 * k > t.Max() || n + k > t.Max() || MultiFact(n, k) > t.Max())
    decreases if n > 0 then n else 0
  {
    if n < 0 then Some(0)
    else if n == 0 then Some(1)
    else
      match CheckedMul(t, k, MaxMultiplications)
      case None => None
      case Some(maxWindow) =>
        if n > maxWindow then
          CheckedBlock(t, n, k);
          match CheckedStepProduct(t, n - maxWindow, n, k)
          case None => None
          case Some(p) =>
            match CheckedFactorialk(t, n - maxWindow - 1, k)
            case None => None
            case Some(f) => CheckedMul(t, p, f)
        else
          WindowStart(n, k);
          var window := k * (n / k);
          var window := if window == n then window - k else window;
          CheckedStepProduct(t, n - window, n, k)
  }

  // ---------------------------------------------------------------------
  // Checked variants for the types with a known largest argument (MaxFactorial)
  // ---------------------------------------------------------------------

  predicate HasMaxFactorial(t: IntType) {
    t in {U8, U16, U32, U64, I8, I16, I32, I64}
  }

  /** Largest n whose n! fits in the type. */
  function MaxFactorial(t: IntType): nat
    requires HasMaxFactorial(t)
  {
    match t
    case U8 => 5
    case U16 => 8
    case U32 => 12
    case U64 => 20
    case I8 => 5
    case I16 => 7
    case I32 => 12
    case I64 => 20
  }

  /** Largest n whose n!! fits in the type. */
  function MaxFactorial2(t: IntType): nat
    requires HasMaxFactorial(t)
  {
    match t
    case U8 => 7
    case U16 => 12
    case U32 => 20
    case U64 => 33
    case I8 => 7
    case I16 => 11
    case I32 => 19
    case I64 => 33
  }

  /** Values of the factorials around the limits of the types up to 32 bits. */
  lemma SmallValues()
    ensures Fact(5) == 120
    ensures Fact(6) == 720
    ensures Fact(7) == 5040
    ensures Fact(8) == 40320
    ensures Fact(9) == 362880
    ensures Fact(12) == 479001600
    ensures Fact(13) == 6227020800
    ensures MultiFact(7, 2) == 105
    ensures MultiFact(8, 2) == 384
    ensures MultiFact(11, 2) == 10395
    ensures MultiFact(12, 2) == 46080
    ensures MultiFact(13, 2) == 135135
    ensures MultiFact(19, 2) == 654729075
    ensures MultiFact(20, 2) == 3715891200
    ensures MultiFact(21, 2) == 13749310575
  {
    assert Fact(3) == 6;
    assert Fact(5) == 120;
    assert Fact(6) == 720;
    assert Fact(7) == 5040;
    assert Fact(8) == 40320;
    assert Fact(9) == 362880;
    assert Fact(10) == 3628800;
    assert Fact(11) == 39916800;
    assert Fact(12) == 479001600;
    assert Fact(13) == 6227020800;
    assert MultiFact(3, 2) == 3;
    assert MultiFact(4, 2) == 8;
    assert MultiFact(5, 2) == 15;
    assert MultiFact(6, 2) == 48;
    assert MultiFact(7, 2) == 105;
    assert MultiFact(8, 2) == 384;
    assert MultiFact(9, 2) == 945;
    assert MultiFact(10, 2) == 3840;
    assert MultiFact(11, 2) == 10395;
    assert MultiFact(12, 2) == 46080;
    assert MultiFact(13, 2) == 135135;
    assert MultiFact(15, 2) == 2027025;
    assert MultiFact(17, 2) == 34459425;
    assert MultiFact(19, 2) == 654729075;
    assert MultiFact(14, 2) == 645120;
    assert MultiFact(16, 2) == 10321920;
    assert MultiFact(18, 2) == 185794560;
    assert MultiFact(20, 2) == 3715891200;
    assert MultiFact(21, 2) == 13749310575;
  }

  /** The tabulated limits are exactly the last arguments whose result fits. */
  lemma MaxFactorialIsLargest(t: IntType)
    requires HasMaxFactorial(t)
    ensures Fact(MaxFactorial(t)) <= t.Max() < Fact(MaxFactorial(t) + 1)
    ensures MultiFact(MaxFactorial2(t), 2) <= t.Max() < MultiFact(MaxFactorial2(t) + 1, 2)
  {
    SmallValues();
    LargeValues();
  }

  /** Below and above the tabulated limits. */
  lemma MaxFactorialThreshold(t: IntType, n: nat)
    requires HasMaxFactorial(t)
    ensures n > MaxFactorial(t) <==> Fact(n) > t.Max()
    ensures n > MaxFactorial2(t) <==> MultiFact(n, 2) > t.Max()
  {
    MaxFactorialIsLargest(t);
    if n > MaxFactorial(t) {
      FactMonotone(n, MaxFactorial(t) + 1);
    } else {
      FactMonotone(MaxFactorial(t), n);
    }
    if n > MaxFactorial2(t) {
      MultiFactMonotone(n, MaxFactorial2(t) + 1, 2);
    } else {
      MultiFactMonotone(MaxFactorial2(t), n, 2);
    }
  }

  /** checked_factorial of the blanket impl: None above MAX_FACTORIAL. Returns
      Some(n!) exactly when n! fits, like the free function. */
  function CheckedFactorialByMax(t: IntType, n: int): (r: Option<int>)
    requires HasMaxFactorial(t) && t.Contains(n)
    ensures n < 0 ==> r == Some(0)
    ensures n >= 0 ==> r == if Fact(n) <= t.Max() then Some(Fact(n)) else None
  {
    if n < 0 then Some(Factorial(n))
    else
      MaxFactorialThreshold(t, n);
      if n > MaxFactorial(t) then None else Some(Factorial(n))
  }

  /** checked_factorial2 of the blanket impl: None above MAX_FACTORIAL2. Returns
      Some(n!!) exactly when n!! fits; its limits are at most 33, where
      factorial2 as written is still exact. */
  function CheckedFactorial2ByMax(t: IntType, n: int): (r: Option<int>)
    requires HasMaxFactorial(t) && t.Contains(n)
    ensures n < 0 ==> r == Some(0)
    ensures n >= 0 ==> r == if MultiFact(n, 2) <= t.Max() then Some(MultiFact(n, 2)) else None
  {
    if n < 0 then Some(Factorial2AsWritten(n))
    else
      MaxFactorialThreshold(t, n);
      if n > MaxFactorial2(t) then None else Some(Factorial2AsWritten(n))
  }
}
