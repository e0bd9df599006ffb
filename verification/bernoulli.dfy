/** Bernoulli numbers B_0, ..., B_n by their recurrence, over exact rationals.
    The first four are cached; every odd one from B_5 on is set to 0; every
    even one from B_4 on is -(sum of C(i+1, k) B_k for k < i) / (i + 1),
    summed over the values already stored. */
module Bernoulli {
  import opened Combinatorics

  /** Number of cached leading values. */
  const CacheSize: nat := 4

  const Cache: seq<real> := [1.0, -0.5, 1.0 / 6.0, 0.0]

  /** The sum of C(p, k) bs[k] over k < m. */
  function WeightedSum(p: nat, bs: seq<real>, m: nat): real
    requires m <= |bs|
  {
    if m == 0 then 0.0
    else WeightedSum(p, bs, m - 1) + Binomial(p, m - 1) as real * bs[m - 1]
  }

  /** The value appended after the values bs. */
  function Next(bs: seq<real>): real {
    var i := |bs|;
    if i < CacheSize then Cache[i]
    else if i % 2 == 1 then 0.0
    else -WeightedSum(i + 1, bs, i) / (i + 1) as real
  }

  /** The first n values of the recurrence. */
  function Table(n: nat): (r: seq<real>)
    ensures |r| == n
  {
    if n == 0 then [] else Table(n - 1) + [Next(Table(n - 1))]
  }

  function Bernoulli(i: nat): real {
    Table(i + 1)[i]
  }

  // ---------------------------------------------------------------------
  // bernoulli_rec
  // ---------------------------------------------------------------------

  /** The first n + 1 Bernoulli numbers. */
  method BernoulliRec(n: int) returns (result: seq<real>)
    requires n >= 0
    ensures result == Table(n + 1)
  {
    var resultLen := n + 1;
    result := Cache;
    CacheIsTable();
    if resultLen <= CacheSize {
      TablePrefix(resultLen, CacheSize);
      return result[..resultLen];
    }
    for i := CacheSize to resultLen
      invariant result == Table(i)
    {
      ghost var before := result;
      if i % 2 == 1 {
        result := result + [0.0];
      } else {
        var np1 := i + 1;
        var bn := SumStored(np1, result);
        bn := -bn / np1 as real;
        result := result + [bn];
      }
      TableStep(i, before, result);
    }
  }

  /** The inner loop of bernoulli_rec: the sum of C(np1, k) times each value
      stored so far. */
  method SumStored(np1: nat, result: seq<real>) returns (bn: real)
    ensures bn == WeightedSum(np1, result, |result|)
  {
    bn := 0.0;
    for k := 0 to |result|
      invariant bn == WeightedSum(np1, result, k)
    {
      WeightedSumStep(np1, result, k, Choose(np1, k));
      bn := bn + Choose(np1, k) as real * result[k];
    }
  }

  /** One pass of the outer loop of bernoulli_rec appends the next value. */
  lemma TableStep(i: nat, before: seq<real>, after: seq<real>)
    requires i >= CacheSize && before == Table(i)
    requires i % 2 == 1 ==> after == before + [0.0]
    requires i % 2 == 0 ==> after == before + [-WeightedSum(i + 1, before, i) / (i + 1) as real]
    ensures after == Table(i + 1)
  {
  }

  /** One term of the inner sum of bernoulli_rec. */
  lemma WeightedSumStep(p: nat, bs: seq<real>, k: nat, c: int)
    requires k < |bs| && c == Binomial(p, k)
    ensures WeightedSum(p, bs, k + 1) == WeightedSum(p, bs, k) + c as real * bs[k]
  {
  }

  // ---------------------------------------------------------------------
  // Facts about the recurrence
  // ---------------------------------------------------------------------

  /** The cache holds the first four values of the recurrence. */
  lemma CacheIsTable()
    ensures Table(CacheSize) == Cache
  {
    assert Table(1) == [1.0];
    assert Table(2) == [1.0, -0.5];
    assert Table(3) == [1.0, -0.5, 1.0 / 6.0];
  }

  /** Values are only appended: the first n values never change. */
  lemma {:induction false} TablePrefix(n: nat, m: nat)
    requires n <= m
    ensures Table(m)[..n] == Table(n)
    decreases m
  {
    if n < m {
      TablePrefix(n, m - 1);
      assert Table(m)[..m - 1] == Table(m - 1);
    }
  }

  /** Each Bernoulli(i) is the value the recurrence stores at index i of
      every longer table. */
  lemma BernoulliInTable(i: nat, m: nat)
    requires i < m
    ensures Table(m)[i] == Bernoulli(i)
  {
    TablePrefix(i + 1, m);
    assert Table(m)[i] == Table(m)[..i + 1][i];
  }

  /** The sum only reads the first m values. */
  lemma {:induction false} WeightedSumPrefix(p: nat, bs: seq<real>, cs: seq<real>, m: nat)
    requires m <= |bs| && m <= |cs| && bs[..m] == cs[..m]
    ensures WeightedSum(p, bs, m) == WeightedSum(p, cs, m)
  {
    if m > 0 {
      assert bs[m - 1] == bs[..m][m - 1] == cs[m - 1];
      assert bs[..m - 1] == bs[..m][..m - 1];
      assert cs[..m - 1] == cs[..m][..m - 1];
      WeightedSumPrefix(p, bs, cs, m - 1);
    }
  }

  /** The defining identity of the Bernoulli numbers, the sum over k <= m of
      C(m+1, k) B_k = 0, holds for every even m >= 4: the recurrence imposes
      it there. */
  lemma BernoulliIdentity(m: nat)
    requires m >= 4 && m % 2 == 0
    ensures WeightedSum(m + 1, Table(m + 1), m + 1) == 0.0
  {
    AppendNextIdentity(Table(m));
  }

  /** Appending the value the recurrence computes for an even index i >= 4
      makes the sum over k <= i of C(i+1, k) bs[k] vanish. */
  lemma AppendNextIdentity(bs: seq<real>)
    requires |bs| >= CacheSize && |bs| % 2 == 0
    ensures WeightedSum(|bs| + 1, bs + [Next(bs)], |bs| + 1) == 0.0
  {
    var m := |bs|;
    var cs := bs + [Next(bs)];
    var s := WeightedSum(m + 1, bs, m);
    assert cs[..m] == bs[..m];
    WeightedSumPrefix(m + 1, bs, cs, m);
    BinomialSymmetric(m + 1, m);
    BinomialOne(m + 1);
    WeightedSumStep(m + 1, cs, m, m + 1);
    CancelDivision(s, (m + 1) as real);
  }

  lemma CancelDivision(s: real, d: real)
    requires d != 0.0
    ensures s + d * (-s / d) == 0.0
  {
  }

  /** The cached values are the ones the identity demands: it holds for
      m = 1, 2, 3. */
  lemma CacheIdentity(m: nat)
    requires 1 <= m <= 3
    ensures WeightedSum(m + 1, Cache, m + 1) == 0.0
  {
    assert Binomial(2, 1) == 2 && Binomial(3, 1) == 3 && Binomial(3, 2) == 3;
    assert Binomial(4, 1) == 4 && Binomial(4, 2) == 6 && Binomial(4, 3) == 4;
  }

  /** From index 5 on, every odd-indexed value is 0. */
  lemma OddVanish(i: nat)
    requires i >= 5 && i % 2 == 1
    ensures Bernoulli(i) == 0.0
  {
  }

  /** The first values past the cache, as the tests expect them:
      B_4 = -1/30, B_5 = 0, B_6 = 1/42. */
  lemma TableFive()
    ensures Table(5) == Cache + [-1.0 / 30.0]
  {
    CacheIsTable();
    assert Binomial(5, 1) == 5 && Binomial(5, 2) == 10;
  }

  lemma TableSeven()
    ensures Table(7) == Table(5) + [0.0, 1.0 / 42.0]
  {
    TableFive();
    assert Binomial(7, 1) == 7 && Binomial(7, 2) == 21 && Binomial(7, 4) == 35;
  }

  /** B_7 = 0 and B_8 = -1/30. */
  lemma TableNine()
    ensures Table(9) == Table(7) + [0.0, -1.0 / 30.0]
  {
    TableSeven();
    TableFive();
    var b7 := Table(7);
    assert Table(8) == b7 + [0.0];
    var b8 := b7 + [0.0];
    assert b8 == [1.0, -0.5, 1.0 / 6.0, 0.0, -1.0 / 30.0, 0.0, 1.0 / 42.0, 0.0];
    SumNine(b8);
    assert Table(9) == b8 + [Next(b8)];
  }

  lemma SumNine(bs: seq<real>)
    requires bs == [1.0, -0.5, 1.0 / 6.0, 0.0, -1.0 / 30.0, 0.0, 1.0 / 42.0, 0.0]
    ensures WeightedSum(9, bs, 8) == 3.0 / 10.0
  {
    BinomialRowNine();
    WeightedSumStep(9, bs, 0, 1);
    WeightedSumStep(9, bs, 1, 9);
    WeightedSumStep(9, bs, 2, 36);
    WeightedSumStep(9, bs, 3, 84);
    WeightedSumStep(9, bs, 4, 126);
    WeightedSumStep(9, bs, 5, 126);
    WeightedSumStep(9, bs, 6, 84);
    WeightedSumStep(9, bs, 7, 36);
  }

  lemma BinomialRowNine()
    ensures Binomial(9, 0) == 1 && Binomial(9, 1) == 9 && Binomial(9, 2) == 36 && Binomial(9, 3) == 84
    ensures Binomial(9, 4) == 126 && Binomial(9, 5) == 126 && Binomial(9, 6) == 84 && Binomial(9, 7) == 36
  {
    ChooseStepIdentity(9, 1);
    ChooseStepIdentity(9, 2);
    ChooseStepIdentity(9, 3);
    ChooseStepIdentity(9, 4);
    ChooseStepIdentity(9, 5);
    ChooseStepIdentity(9, 6);
    ChooseStepIdentity(9, 7);
  }

  /** B_9 = 0 and B_10 = 5/66. */
  lemma TableEleven()
    ensures Table(11) == Table(9) + [0.0, 5.0 / 66.0]
  {
    TableNine();
    TableSeven();
    TableFive();
    var b9 := Table(9);
    assert Table(10) == b9 + [0.0];
    var b10 := b9 + [0.0];
    assert b10 == [1.0, -0.5, 1.0 / 6.0, 0.0, -1.0 / 30.0, 0.0, 1.0 / 42.0, 0.0, -1.0 / 30.0, 0.0];
    SumEleven(b10);
    assert Table(11) == b10 + [Next(b10)];
  }

  /** The even Bernoulli numbers B_2, ..., B_10. */
  lemma EvenBernoulliUpToTen(n: nat)
    requires 1 <= n <= 5
    ensures Bernoulli(2 * n) == [1.0 / 6.0, -1.0 / 30.0, 1.0 / 42.0, -1.0 / 30.0, 5.0 / 66.0][n - 1]
  {
    TableEleven();
    TableNine();
    TableSeven();
    TableFive();
    assert Table(11) == [1.0, -0.5, 1.0 / 6.0, 0.0, -1.0 / 30.0, 0.0, 1.0 / 42.0, 0.0, -1.0 / 30.0, 0.0, 5.0 / 66.0];
    BernoulliInTable(2 * n, 11);
  }

  lemma SumEleven(bs: seq<real>)
    requires bs == [1.0, -0.5, 1.0 / 6.0, 0.0, -1.0 / 30.0, 0.0, 1.0 / 42.0, 0.0, -1.0 / 30.0, 0.0]
    ensures WeightedSum(11, bs, 10) == -5.0 / 6.0
  {
    BinomialRowEleven();
    WeightedSumStep(11, bs, 0, 1);
    WeightedSumStep(11, bs, 1, 11);
    WeightedSumStep(11, bs, 2, 55);
    WeightedSumStep(11, bs, 3, 165);
    WeightedSumStep(11, bs, 4, 330);
    WeightedSumStep(11, bs, 5, 462);
    WeightedSumStep(11, bs, 6, 462);
    WeightedSumStep(11, bs, 7, 330);
    WeightedSumStep(11, bs, 8, 165);
    WeightedSumStep(11, bs, 9, 55);
  }

  lemma BinomialRowEleven()
    ensures Binomial(11, 0) == 1 && Binomial(11, 1) == 11 && Binomial(11, 2) == 55 && Binomial(11, 3) == 165
    ensures Binomial(11, 4) == 330 && Binomial(11, 5) == 462 && Binomial(11, 6) == 462
    ensures Binomial(11, 7) == 330 && Binomial(11, 8) == 165 && Binomial(11, 9) == 55
  {
    ChooseStepIdentity(11, 1);
    ChooseStepIdentity(11, 2);
    ChooseStepIdentity(11, 3);
    ChooseStepIdentity(11, 4);
    ChooseStepIdentity(11, 5);
    ChooseStepIdentity(11, 6);
    ChooseStepIdentity(11, 7);
    ChooseStepIdentity(11, 8);
    ChooseStepIdentity(11, 9);
  }
}
