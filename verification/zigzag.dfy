/** Tangent ("zag") and secant ("zig") numbers by the in-place algorithm of
    Brent and Harvey: a vector seeded with 0!, 1!, ..., (n-1)! is rewritten
    pass by pass, and each pass finishes one more entry. Arithmetic is on
    unbounded integers. */
module ZigZag {
  import opened Factorial
  import Bernoulli

  // ---------------------------------------------------------------------
  // The tables the passes build
  // ---------------------------------------------------------------------

  /** Entry j of the zag vector after pass k. Pass k rewrites the entries
      j >= k from left to right, each from the entry to its left (already
      rewritten in this pass) and its own previous value. */
  function ZagTable(k: nat, j: nat): int
    decreases k, j
  {
    if k == 0 then Fact(j)
    else if j < k then ZagTable(k - 1, j)
    else (j - k) * ZagTable(k, j - 1) + (j - k + 2) * ZagTable(k - 1, j)
  }

  /** Entry j of the zig vector after pass k. Pass k rewrites the entries
      j >= k + 1, with second factor j - k + 1. */
  function ZigTable(k: nat, j: nat): int
    decreases k, j
  {
    if k == 0 then Fact(j)
    else if j <= k then ZigTable(k - 1, j)
    else (j - k) * ZigTable(k, j - 1) + (j - k + 1) * ZigTable(k - 1, j)
  }

  /** The j-th tangent number (T_{j+1} in the usual numbering): entry j once
      pass j has finished it. */
  function Tangent(j: nat): int {
    ZagTable(j, j)
  }

  /** The j-th secant number: entry j once the passes have finished it. */
  function Secant(j: nat): int {
    ZigTable(j, j)
  }

  // ---------------------------------------------------------------------
  // Facts about the tables
  // ---------------------------------------------------------------------

  /** Passes after pass j leave entry j of the zag vector alone. */
  lemma {:induction false} ZagFinal(k: nat, j: nat)
    requires j <= k
    ensures ZagTable(k, j) == Tangent(j)
  {
    if j < k {
      ZagFinal(k - 1, j);
    }
  }

  /** Passes from pass j on leave entry j of the zig vector alone. */
  lemma {:induction false} ZigFinal(k: nat, j: nat)
    requires j <= k
    ensures ZigTable(k, j) == Secant(j)
  {
    if j < k {
      ZigFinal(k - 1, j);
    }
  }

  lemma {:induction false} ZagTablePositive(k: nat, j: nat)
    ensures ZagTable(k, j) >= 1
    decreases k, j
  {
    if k == 0 {
      FactMonotone(j, 0);
    } else if j < k {
      ZagTablePositive(k - 1, j);
    } else {
      ZagTablePositive(k, j - 1);
      ZagTablePositive(k - 1, j);
      MulLe(0, j - k, 1, ZagTable(k, j - 1));
      MulLe(1, j - k + 2, 1, ZagTable(k - 1, j));
    }
  }

  lemma {:induction false} ZigTablePositive(k: nat, j: nat)
    ensures ZigTable(k, j) >= 1
    decreases k, j
  {
    if k == 0 {
      FactMonotone(j, 0);
    } else if j <= k {
      ZigTablePositive(k - 1, j);
    } else {
      ZigTablePositive(k, j - 1);
      ZigTablePositive(k - 1, j);
      MulLe(0, j - k, 1, ZigTable(k, j - 1));
      MulLe(1, j - k + 1, 1, ZigTable(k - 1, j));
    }
  }

  /** Every tangent number is positive and at least twice the one before. */
  lemma TangentGrowth(j: nat)
    ensures Tangent(j) >= 1
    ensures Tangent(j + 1) >= 2 * Tangent(j)
  {
    ZagTablePositive(j, j);
    // Pass j + 1 finishes entry j + 1 as 0 * (...) + 2 * (entry j + 1 after pass j).
    assert Tangent(j + 1) == 2 * ZagTable(j, j + 1);
    if j >= 1 {
      // Pass j made entry j + 1 from the finished entry j and a positive value.
      ZagTablePositive(j - 1, j + 1);
      assert ZagTable(j, j + 1) == ZagTable(j, j) + 3 * ZagTable(j - 1, j + 1);
    }
  }

  /** Every secant number is positive, and from the second on they increase
      strictly. */
  lemma SecantGrowth(j: nat)
    ensures Secant(j) >= 1
    ensures Secant(j + 1) >= Secant(j)
    ensures j >= 1 ==> Secant(j + 1) > Secant(j)
  {
    ZigTablePositive(j, j);
    assert Secant(j + 1) == ZigTable(j, j + 1);
    if j >= 1 {
      ZigTablePositive(j - 1, j + 1);
      assert ZigTable(j, j + 1) == ZigTable(j, j) + 2 * ZigTable(j - 1, j + 1);
    }
  }

  /** The documented examples: the first five tangent numbers are
      1, 2, 16, 272, 7936. */
  lemma TangentFirstFive()
    ensures Tangent(0) == 1 && Tangent(1) == 2 && Tangent(2) == 16
    ensures Tangent(3) == 272 && Tangent(4) == 7936
  {
  }

  /** The first four secant numbers are 1, 1, 5, 61. */
  lemma SecantFirstFour()
    ensures Secant(0) == 1 && Secant(1) == 1 && Secant(2) == 5 && Secant(3) == 61
  {
  }

  // ---------------------------------------------------------------------
  // The documented link to the Bernoulli numbers
  // ---------------------------------------------------------------------

  function Pow4(e: nat): nat {
    if e == 0 then 1 else 4 * Pow4(e - 1)
  }

  function Abs(x: real): real {
    if x < 0.0 then -x else x
  }

  /** 2n T_n = 2^(2n) (2^(2n) - 1) |B_(2n)|, the classical formula for the
      n-th tangent number t in terms of the Bernoulli number b; the factor
      2^(2n) (2^(2n) - 1) is written 4^(2n) - 4^n. */
  predicate BernoulliRelation(n: nat, t: int, b: real) {
    (2 * n) as real * t as real == (Pow4(2 * n) - Pow4(n)) as real * Abs(b)
  }

  /** The table's diagonal agrees with the Bernoulli formula for T_1..T_5,
      with the Bernoulli numbers taken from the recurrence of bernoulli_rec. */
  lemma TangentBernoulli(n: nat)
    requires 1 <= n <= 5
    ensures BernoulliRelation(n, Tangent(n - 1), Bernoulli.Bernoulli(2 * n))
  {
    TangentValue(n - 1);
    Bernoulli.EvenBernoulliUpToTen(n);
    BernoulliRelationUpToFive(n, Tangent(n - 1), Bernoulli.Bernoulli(2 * n));
  }

  lemma TangentValue(j: nat)
    requires j < 5
    ensures Tangent(j) == [1, 2, 16, 272, 7936][j]
  {
    TangentFirstFive();
  }

  /** The formula on the known values, as plain arithmetic. */
  lemma BernoulliRelationUpToFive(n: nat, t: int, b: real)
    requires 1 <= n <= 5
    requires t == [1, 2, 16, 272, 7936][n - 1]
    requires b == [1.0 / 6.0, -1.0 / 30.0, 1.0 / 42.0, -1.0 / 30.0, 5.0 / 66.0][n - 1]
    ensures BernoulliRelation(n, t, b)
  {
    assert Pow4(1) == 4 && Pow4(2) == 16 && Pow4(3) == 64 && Pow4(4) == 256 && Pow4(5) == 1024;
    assert Pow4(6) == 4096 && Pow4(8) == 65536 && Pow4(10) == 1048576;
    if n == 1 {
    } else if n == 2 {
    } else if n == 3 {
    } else if n == 4 {
    } else {
    }
  }

  // ---------------------------------------------------------------------
  // zag_nums and zig_nums
  // ---------------------------------------------------------------------

  /** The rewrite of entry j in pass k of zag_nums yields the table entry. */
  lemma ZagStep(k: nat, j: nat, left: int, cur: int)
    requires 1 <= k <= j
    requires left == ZagTable(k, j - 1) && cur == ZagTable(k - 1, j)
    ensures (j - k) * left + (j - k + 2) * cur == ZagTable(k, j)
  {
  }

  /** The rewrite of entry j in pass k of zig_nums yields the table entry. */
  lemma ZigStep(k: nat, j: nat, left: int, cur: int)
    requires 1 <= k < j
    requires left == ZigTable(k, j - 1) && cur == ZigTable(k - 1, j)
    ensures (j - k) * left + (j - k + 1) * cur == ZigTable(k, j)
  {
  }

  /** Pass k of zag_nums: rewrites entries k.. in place. */
  method ZagPass(zags: array<int>, k: nat)
    requires 1 <= k < zags.Length
    requires forall i :: 0 <= i < zags.Length ==> zags[i] == ZagTable(k - 1, i)
    modifies zags
    ensures forall i :: 0 <= i < zags.Length ==> zags[i] == ZagTable(k, i)
  {
    for j := k to zags.Length
      invariant forall i {:trigger zags[i]} :: 0 <= i < j ==> zags[i] == ZagTable(k, i)
      invariant forall i {:trigger zags[i]} :: j <= i < zags.Length ==> zags[i] == ZagTable(k - 1, i)
    {
      ZagStep(k, j, zags[j - 1], zags[j]);
      zags[j] := (j - k) * zags[j - 1] + (j - k + 2) * zags[j];
    }
  }

  /** Pass k of zig_nums: rewrites entries k + 1.. in place. */
  method ZigPass(zigs: array<int>, k: nat)
    requires 1 <= k < zigs.Length
    requires forall i :: 0 <= i < zigs.Length ==> zigs[i] == ZigTable(k - 1, i)
    modifies zigs
    ensures forall i :: 0 <= i < zigs.Length ==> zigs[i] == ZigTable(k, i)
  {
    for j := k + 1 to zigs.Length
      invariant forall i {:trigger zigs[i]} :: 0 <= i < j ==> zigs[i] == ZigTable(k, i)
      invariant forall i {:trigger zigs[i]} :: j <= i < zigs.Length ==> zigs[i] == ZigTable(k - 1, i)
    {
      ZigStep(k, j, zigs[j - 1], zigs[j]);
      zigs[j] := (j - k) * zigs[j - 1] + (j - k + 1) * zigs[j];
    }
  }

  /** The first n tangent numbers, computed in place over the factorials. */
  method ZagNums(n: nat) returns (r: seq<int>)
    ensures |r| == n
    ensures forall j :: 0 <= j < n ==> r[j] == Tangent(j)
  {
    var zags := new int[n](k => Factorial.Factorial(k));
    var k := 1;
    while k < n
      invariant 1 <= k && (n >= 1 ==> k <= n)
      invariant forall i {:trigger zags[i]} :: 0 <= i < n ==> zags[i] == ZagTable(k - 1, i)
    {
      ZagPass(zags, k);
      k := k + 1;
    }
    forall j | 0 <= j < n
      ensures zags[j] == Tangent(j)
    {
      ZagFinal(n - 1, j);
    }
    r := zags[..];
  }

  /** The first n secant numbers, computed in place over the factorials. */
  method ZigNums(n: nat) returns (r: seq<int>)
    ensures |r| == n
    ensures forall j :: 0 <= j < n ==> r[j] == Secant(j)
  {
    var zigs := new int[n](k => Factorial.Factorial(k));
    var k := 1;
    while k < n
      invariant 1 <= k && (n >= 1 ==> k <= n)
      invariant forall i {:trigger zigs[i]} :: 0 <= i < n ==> zigs[i] == ZigTable(k - 1, i)
    {
      ZigPass(zigs, k);
      k := k + 1;
    }
    forall j | 0 <= j < n
      ensures zigs[j] == Secant(j)
    {
      ZigFinal(n - 1, j);
    }
    r := zigs[..];
  }
}
