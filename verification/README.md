# special-rs integer and series kernels in Dafny

This project models the exact-arithmetic core of the `special` module of
special-rs (sci-rs). It covers:

- the factorial family: `factorial`, `factorial2`, `factorialk`, their checked
  variants, the two caches, `partial_product` and `checked_partial_product`;
- the combinatorics: `choose`, `perm`, `choose_rep` and their checked variants;
- the tangent ("zag") and secant ("zig") number generators, and the separate
  tangent-number generator;
- the Bernoulli recurrence `bernoulli_rec`;
- the polynomial and Chebyshev-series evaluators `eval_poly` and `eval_cheby`,
  in both copies (the general tools and the gamma-function utilities);
- the sign of the gamma function, `r_gammasgn`.

Most operations are stated against a mathematical reference definition:

- `Fact` and `MultiFact` (the k-factorial n(n-k)(n-2k)...);
- `Binomial` (Pascal's rule), `MultiChoose` (multisets) and `RangeProduct`;
- `Table`, the Bernoulli recurrence over exact rationals;
- `PowerSum`, the power-form polynomial;
- `ChebySum`, the series over Chebyshev polynomials T_i given by their
  three-term recurrence;
- `SignByRecurrence`, the sign that follows from Gamma(x) = Gamma(x+1)/x.

The zig/zag generators are the exception. `ZagTable`/`ZigTable` restate the
Brent-Harvey passes as recursive tables, and `Tangent`/`Secant` are the
tables' diagonals. So they are the algorithm's own values, not an independent
definition of the tangent and secant numbers. What ties them to those numbers
is proved separately: the first values, and the Bernoulli formula for T_1 to
T_5.

The source's integer types are modelled by `PrimInt.IntType`:

- each of the 12 primitive integer types carries its range;
- `usize`/`isize` are taken as 64 bits;
- the checked operations return `None` exactly when Rust's `checked_add`,
  `checked_sub` and `checked_mul` do.

Loops that the source writes as loops become Dafny methods with invariants:

- `partial_product` and `checked_partial_product`;
- the `checked_choose` and `checked_perm` loops;
- the in-place zag/zig passes over an array;
- the outer and inner loops of `bernoulli_rec`;
- the Clenshaw loop of `eval_cheby`.

Code that the source writes as expressions, folds or recursion becomes functions.

## Model

| member | source | states |
|---|---|---|
| Factorial.FactorialCacheIsFact | src/special/factorial.rs:127-130 | the 17 cached values are 0!, 1!, ..., 16! |
| Factorial.Factorial2CacheIsDoubleFact | src/special/factorial.rs:133-139 | the 33 cached values are 0!!, 1!!, ..., 32!! |
| Factorial.PartialProduct | src/special/factorial.rs:402-412 | the loop returns the product of start, start+step, ... over the terms not above stop (1 when start > stop) |
| Factorial.CheckedPartialProduct | src/special/factorial.rs:382-392 | for a positive start and step, returns None exactly when the product, or the counter's value on leaving the loop, exceeds the type's maximum; otherwise Some of the product |
| Factorial.CheckedMulStep | src/special/factorial.rs:388-389 | one checked multiplication keeps the running product a prefix of the whole product, and fails only when the whole product exceeds the maximum |
| Factorial.StepProductMultiFact | src/special/factorial.rs:152-156 | a run of terms ending at n times the k-factorial below its first term is the k-factorial of n |
| Factorial.BlockThenTail | src/special/factorial.rs:183-185 | a block of 17 terms times the k-factorial of n-16k-1 equals the k-factorial of n when k = 1 or n <= 16k+2, and exceeds it for k >= 2 and n >= 16k+3 |
| Factorial.Factorial | src/special/factorial.rs:145-157 | n! for n >= 0, and 0 for negative n |
| Factorial.Factorial2AsWritten | src/special/factorial.rs:159-171 | 0 for negative n; n!! for 0 <= n <= 34; strictly more than n!! for every n >= 35 |
| Factorial.Factorial2 | src/special/factorial.rs:159-171 | the corrected recursion is n!! for every n >= 0, and 0 for negative n |
| Factorial.Factorial2ThirtyFive | src/special/factorial.rs:166-170 | for n = 35, factorial2 and factorialk(n, 2) as written both give 2 * 35!! |
| Factorial.FactorialkAsWritten | src/special/factorial.rs:173-190 | 0 for negative n; the k-factorial for k = 1 or n <= 16k+2; strictly more than the k-factorial for k >= 2 and n >= 16k+3 |
| Factorial.Factorialk | src/special/factorial.rs:173-190 | the corrected recursion is the k-factorial n(n-k)(n-2k)... for every n >= 0 and k >= 1 |
| Factorial.WindowStart | src/special/factorial.rs:187-189 | the short path's window starts at the least positive term of the same residue (between 1 and k), so its product is the whole k-factorial and its loop leaves at n + k |
| Factorial.FactorialkOneIsFactorial | src/special/factorial.rs:611-616 | factorialk with k = 1 agrees with factorial on every n |
| Factorial.FactorialkTwoIsFactorial2 | src/special/factorial.rs:618-624 | factorialk with k = 2 agrees with factorial2 on every n, both as written |
| Factorial.BlockOverflows64 | src/special/factorial.rs:307-309 | in types of at most 64 bits, a 17-term block with step >= 2 starting at 3 or more overflows, because it is at least 35!! |
| Factorial.CheckedBlock | src/special/factorial.rs:307-309 | one block is no larger than the k-factorial of n and neither is its exit value; in types of at most 64 bits it overflows wherever the as-written tail is wrong |
| Factorial.CheckedFactorial | src/special/factorial.rs:257-270 | Some(0) for negative n; for n >= 0, Some(n!) exactly when n! fits in the type, otherwise None |
| Factorial.CheckedFactorial2 | src/special/factorial.rs:272-291 | Some(0) for negative n; for n <= 34 in any type, and for every n in types of at most 64 bits, Some(n!!) exactly when n!! fits, otherwise None |
| Factorial.CheckedFactorialk | src/special/factorial.rs:293-314 | Some(0) for negative n; any Some fits in the type; when k = 1, n <= 16k+2 or the type has at most 64 bits, any Some holds the k-factorial, and for n >= 1 the result is None exactly when 16k, n + k or the k-factorial exceeds the maximum |
| Factorial.MaxFactorialIsLargest | src/special/factorial.rs:330-331 | each tabulated MAX_FACTORIAL and MAX_FACTORIAL2 is the last argument whose factorial, or double factorial, fits in its type |
| Factorial.MaxFactorialThreshold | src/special/factorial.rs:330-331 | n exceeds the tabulated limit if and only if n! (resp. n!!) exceeds the type's maximum |
| Factorial.CheckedFactorialByMax | src/special/factorial.rs:337-342 | for the eight types with a limit: Some(0) for negative n; Some(n!) exactly when n! fits, otherwise None |
| Factorial.CheckedFactorial2ByMax | src/special/factorial.rs:344-349 | for the eight types with a limit: Some(0) for negative n; Some(n!!) exactly when n!! fits, otherwise None |
| Factorial.SmallValues | src/special/factorial.rs:419-446 | the factorials and double factorials around the limits of the 8-, 16- and 32-bit types |
| Factorial.LargeValues | src/special/factorial.rs:449-458 | 20!, 21!, 33!!, 34!! and 35!!, around the 64-bit limits |
| Combinatorics.ChooseFoldIsBinomial | src/special/combinatorics.rs:147-150 | the fold result * (m-i) / i over i = 1..j divides exactly at each step and gives C(n, j) |
| Combinatorics.Choose | src/special/combinatorics.rs:143-151 | equals the binomial coefficient C(n, k): 0 outside 0 <= k <= n |
| Combinatorics.BinomialSymmetric | src/special/combinatorics.rs:148 | C(n, k) = C(n, n-k), which lets the fold stop after min(k, n-k) steps |
| Combinatorics.ChooseStepIdentity | src/special/combinatorics.rs:150 | C(n, i) i = C(n, i-1) (n+1-i), so each step's division is exact |
| Combinatorics.BinomialFactorials | src/special/combinatorics.rs:143-151 | C(n, k) k! (n-k)! = n! for 0 <= k <= n |
| Combinatorics.ChooseFactorials | src/special/combinatorics.rs:143-151 | choose times k! (n-k)! is n! inside the range, and choose is 0 outside it |
| Combinatorics.ChooseRep | src/special/combinatorics.rs:168-170 | choose_rep(n, k) counts the k-element multisets over n kinds for n >= 1, is 0 with no kinds and k >= 1, is 0 (not 1) for n = k = 0, and is 0 for negative arguments |
| Combinatorics.BinomialMultiChoose | src/special/combinatorics.rs:168-170 | C(n+k-1, k) is the number of k-element multisets over n >= 1 kinds |
| Combinatorics.MultiChooseOneKind | src/special/combinatorics.rs:274-278 | over one kind there is exactly one multiset of each size |
| Combinatorics.RangeProductFact | src/special/combinatorics.rs:181-183 | the product lo ... hi-1 times (lo-1)! is (hi-1)! |
| Combinatorics.Perm | src/special/combinatorics.rs:176-184 | inside 0 <= k <= n, perm(n, k) times (n-k)! is n!; outside it, 0 |
| Combinatorics.PermIsChooseTimesOrders | src/special/combinatorics.rs:176-184 | P(n, k) = C(n, k) k! for every k >= 0 |
| Combinatorics.CheckedChoose | src/special/combinatorics.rs:153-166 | Some(0) outside the range; None when n + 1 or the product of some step exceeds the maximum; otherwise Some(C(n, k)) |
| Combinatorics.ChooseLoopStep | src/special/combinatorics.rs:162-164 | step i forms C(n, i-1) (n+1-i), which is non-negative, and dividing it by i gives C(n, i) |
| Combinatorics.ChooseNoStepOverflows | src/special/combinatorics.rs:158-165 | when no step overflows, checked_choose yields C(n, min(k, n-k)), which is C(n, k) |
| Combinatorics.CheckedChooseSound | src/special/combinatorics.rs:153-166 | whatever value checked_choose returns is the binomial coefficient |
| Combinatorics.CheckedChooseOverflow | src/special/combinatorics.rs:153-166 | a coefficient larger than the maximum always gives None |
| Combinatorics.BinomialTenFive | src/special/combinatorics.rs:240 | C(10, 5) = 252 fits in a u8 |
| Combinatorics.CheckedChooseTenFiveU8 | src/special/combinatorics.rs:237 | checked_choose(10, 5) in u8 is None although the result fits: step 3 forms 360 |
| Combinatorics.CheckedChooseRep | src/special/combinatorics.rs:172-174 | None when n + k or n + k - 1 leaves the type, otherwise checked_choose(n+k-1, k); any Some holds choose_rep(n, k) |
| Combinatorics.CheckedPerm | src/special/combinatorics.rs:186-199 | Some(0) outside the range; None when n + 1 or P(n, k) exceeds the maximum; otherwise Some(P(n, k)) |
| Combinatorics.PermLoopStep | src/special/combinatorics.rs:194-197 | each step's partial product is the next prefix, positive and at most the whole product, so an intermediate overflow implies the result overflows |
| Combinatorics.PartialProductBound | src/special/combinatorics.rs:194-196 | a prefix of lo ... hi-1 is never larger than the whole product |
| ZigZag.ZagPass | src/special/zigzag.rs:76-79 | one pass turns the vector of pass k-1 into the vector of pass k, entry by entry |
| ZigZag.ZigPass | src/special/zigzag.rs:94-97 | one pass turns the vector of pass k-1 into the vector of pass k, entry by entry |
| ZigZag.ZagFinal | src/special/zigzag.rs:75-80 | after pass j, later passes leave entry j unchanged, so it is the j-th tangent number |
| ZigZag.ZigFinal | src/special/zigzag.rs:93-98 | after pass j, later passes leave entry j unchanged, so it is the j-th secant number |
| ZigZag.ZagNums | src/special/zigzag.rs:67-83 | returns n values, and value j is the diagonal entry j of the zag table, the value the passes finish at position j |
| ZigZag.ZigNums | src/special/zigzag.rs:85-100 | returns n values, and value j is the diagonal entry j of the zig table, the value the passes finish at position j |
| ZigZag.ZagTablePositive | src/special/zigzag.rs:71-78 | every entry of every pass is at least 1 |
| ZigZag.ZigTablePositive | src/special/zigzag.rs:89-96 | every entry of every pass is at least 1 |
| ZigZag.TangentGrowth | src/special/zigzag.rs:67-83 | tangent numbers are positive and at least double from one to the next |
| ZigZag.SecantGrowth | src/special/zigzag.rs:85-100 | secant numbers are positive, never decrease, and increase strictly from index 1 on |
| ZigZag.TangentFirstFive | src/special/zigzag.rs:20 | the first five tangent numbers are 1, 2, 16, 272, 7936 |
| ZigZag.SecantFirstFour | src/special/zigzag.rs:38 | the first four secant numbers are 1, 1, 5, 61 |
| ZigZag.TangentBernoulli | src/special/zigzag.rs:11-14 | for n = 1..5, the n-th tangent number the passes compute satisfies 2n T_n = 2^(2n) (2^(2n) - 1) \|B_2n\|, with B_2n from the Bernoulli recurrence |
| TangentNum.ZagNums | src/special/tangent_num.rs:39-55 | returns n values, and value j is the diagonal entry j of the zag table, the same values as the zig-zag module's generator |
| Bernoulli.BernoulliRec | src/special/bernoulli.rs:31-68 | returns the first n+1 values of the recurrence, including the short path that cuts the four cached values |
| Bernoulli.SumStored | src/special/bernoulli.rs:59-62 | the inner loop sums C(np1, k) times each stored value |
| Bernoulli.CacheIsTable | src/special/bernoulli.rs:39-45 | the cached 1, -1/2, 1/6, 0 are the first four values of the recurrence |
| Bernoulli.CacheIdentity | src/special/bernoulli.rs:39-45 | the cached values satisfy the Bernoulli identity (sum over k <= m of C(m+1, k) B_k = 0) for m = 1, 2, 3 |
| Bernoulli.TablePrefix | src/special/bernoulli.rs:48-50 | values are only appended, so the first n of a longer table are the table of n |
| Bernoulli.BernoulliInTable | src/special/bernoulli.rs:48-50 | entry i of every longer table is the same value B_i |
| Bernoulli.WeightedSumPrefix | src/special/bernoulli.rs:60-62 | the inner sum reads only the first m stored values |
| Bernoulli.BernoulliIdentity | src/special/bernoulli.rs:57-64 | for every even m >= 4, the sum over k <= m of C(m+1, k) B_k is 0 |
| Bernoulli.AppendNextIdentity | src/special/bernoulli.rs:57-64 | appending the computed value makes the weighted sum vanish |
| Bernoulli.OddVanish | src/special/bernoulli.rs:55-56 | every B_i with odd i >= 5 is 0 |
| Bernoulli.TableFive | src/special/bernoulli.rs:82-86 | B_4 = -1/30 |
| Bernoulli.TableSeven | src/special/bernoulli.rs:87 | B_5 = 0 and B_6 = 1/42 |
| Bernoulli.TableNine | src/special/bernoulli.rs:88-92 | B_7 = 0 and B_8 = -1/30 |
| Bernoulli.TableEleven | src/special/bernoulli.rs:93-97 | B_9 = 0 and B_10 = 5/66 |
| Bernoulli.EvenBernoulliUpToTen | src/special/bernoulli.rs:82-97 | B_2, B_4, ..., B_10 are 1/6, -1/30, 1/42, -1/30, 5/66 |
| Tools.HornerFoldIsPowerSum | src/special/tools.rs:23-25 | folding coefficients cs into acc gives acc x^|cs| plus the power-form polynomial of cs |
| Tools.EvalPoly | src/special/tools.rs:15-27 | equals c_0 x^(N-1) + ... + c_(N-1), and 0 with no coefficients |
| Tools.LeadingZero | src/special/tools.rs:125-127 | a leading zero coefficient does not change the polynomial |
| Tools.EvalPolyExamples | src/special/tools.rs:117-127 | [1, 1] at 1, 0 and 2 gives 2, 1 and 3; [j], [0, j] and [0, 0, j] give j at every x |
| Tools.ChebySumShort | src/special/tools.rs:61-64 | with no, one or two coefficients the series is 0, c_0, or x c_0 + c_1 |
| Tools.ChebyLeadingZero | src/special/tools.rs:155-157 | a leading zero coefficient does not change the series |
| Tools.ChebyPrefixShift | src/special/tools.rs:155-157 | a leading zero shifts the partial series by one term and adds nothing |
| Tools.ChebySumQuadratic | src/special/tools.rs:158 | [1, 0, j] is 2x^2 - 1 + j |
| Tools.ChebySumCubic | src/special/tools.rs:159-162 | [1, 0, 0, j] is 4x^3 - 3x + j |
| Tools.ChebyTable | src/special/tools.rs:31-34 | a table holding T_0(x), ..., T_(n-1)(x) |
| Tools.ChebyTableRecurrence | src/special/tools.rs:31-34 | the table satisfies T_i = 2x T_(i-1) - T_(i-2) |
| Tools.PrefixOverTable | src/special/tools.rs:31-34 | the partial series read from the table equals the partial series |
| Tools.ClenshawStep | src/special/tools.rs:73-77 | one update keeps Clenshaw's invariant: the first m+1 terms equal bk T_(N-m-2) - bk1 T_(N-m-3) in the new values |
| Tools.ChebyValues | src/special/tools.rs:31-34 | some table of T_i values satisfies the recurrence and sums the whole series |
| Tools.ClenshawFinish | src/special/tools.rs:78 | the final expression x bk - bk1 + c_last completes the series |
| Tools.EvalCheby | src/special/tools.rs:55-81 | equals the series sum over i of c_(N-1-i) T_i(x) for every number of coefficients |
| Tools.Clenshaw | src/special/tools.rs:65-79 | Clenshaw's loop for three or more coefficients returns the series |
| GammaUtil.EvalPoly | src/special/gamma/gamma_util.rs:29-41 | equals c_0 x^(N-1) + ... + c_(N-1), and 0 with no coefficients |
| GammaUtil.EvalPolyExamples | src/special/gamma/gamma_util.rs:141-151 | [1, 1] at 1, 0 and 2 gives 2, 1 and 3; [j], [0, j] and [0, 0, j] give j at every x |
| GammaUtil.EvalCheby | src/special/gamma/gamma_util.rs:69-94 | equals the series sum over i of c_(N-1-i) T_i(x) for every number of coefficients |
| GammaUtil.Clenshaw | src/special/gamma/gamma_util.rs:78-92 | the loop for three or more coefficients, with its operands in this copy's order, returns the series |
| GammaSgn.RGammaSgn | src/special/gamma/r_gammasgn.rs:21-43 | the result is 1, 0 or -1, and it is 0 exactly at zero and at the negative integers |
| GammaSgn.RGammaSgnIsSign | src/special/gamma/r_gammasgn.rs:21-43 | agrees everywhere with the sign Gamma takes by its functional equation: positive for x > 0, 0 at the poles, and the opposite of the sign at x + 1 elsewhere |
| GammaSgn.NegateInteger | src/special/gamma/r_gammasgn.rs:32-34 | testing floor(|x|) == |x| detects exactly the integers |
| GammaSgn.FloorShift | src/special/gamma/r_gammasgn.rs:32-38 | moving one to the right lowers floor(-x) by one and keeps integrality, so the parity flips |
| GammaSgn.Alternates | src/special/gamma/r_gammasgn.rs:38-42 | between two poles the sign is the opposite of the sign one unit to the right |
| GammaSgn.NegativeNearZero | src/special/gamma/r_gammasgn.rs:57 | the sign is -1 on (-1, 0) |
| GammaSgn.Examples | src/special/gamma/r_gammasgn.rs:50-67 | the asserted values: 1 at 1..19 and a quarter or half above them, -1 at -0.5, -2.5, -4.5, -6.5, and 1 at -1.5, -3.5, -5.5, -7.5 |

## Left out

- Unchecked integer overflow: `factorial`, `factorial2`, `factorialk`,
  `partial_product`, `choose`, `perm`, `choose_rep` and the zig/zag passes
  compute on unbounded integers. In Rust they panic (debug builds) or wrap
  (release builds) once a value leaves the type; the model says nothing about
  those overflowing cases.
- `usize` and `isize` are taken to be 64 bits wide.
- Panics are modelled as preconditions:
  - the `assert!(k > 0)` of `factorialk`/`checked_factorialk` (for n >= 0);
  - the `assert!(n >= 0)` of `bernoulli_rec`;
  - the `to_usize().unwrap()` of the zig/zag generators, for negative n.
  The generators take a natural number.
- Floating point: `eval_poly`, `eval_cheby`, `bernoulli_rec` and
  `r_gammasgn` are modelled over exact reals. Rounding, NaN and the
  infinities are not modelled. The tests' approximate comparisons
  (`assert_almost_eq!` on decimal inputs) are not modelled either.
- `GammaSgn.RGammaSgn`: the precondition `CastSucceeds` stands for the
  `cast::<T, usize>(p).unwrap()`, which panics when floor(|x|) is at least
  2^64. A non-integer `f32` or `f64` is always below 2^53, so this excludes
  only reals that have no float counterpart.
- `bernoulli_rec`: the doc comment shows a first value of 0.0, but the code
  (and this model) starts with 1. The code is followed.
- `choose_rep`: the doc comment says 0 is returned when n < 0, k < 0 or
  n < k (src/special/combinatorics.rs:86). The code returns C(n+k-1, k),
  which is positive for 1 <= n < k, and the reference test agrees with the
  code. The code is followed.
- `bernoulli_rec` uses the unchecked `usize::choose` in its inner sum. That
  sum is modelled with exact binomial coefficients, without its overflow for
  large n.
- `Bernoulli.OddVanish` is proved for the values the recurrence produces.
  That these values are the classical Bernoulli numbers for all n is not
  proved; only B_4 to B_10 are checked, and so is the identity each even
  value satisfies.
- The 17-entry OEIS reference tables in the zig/zag and tangent tests are not
  restated. Only the documented first five tangent numbers and first four
  secant numbers are proved.
- `ZigZag.ZagNums`: its contract ties value j to the diagonal of the zag
  table, which is the passes' own recurrence. That this diagonal is the
  tangent number T_(j+1) is proved only for j < 5, by the first values and
  the Bernoulli formula (`ZigZag.TangentBernoulli`), not for all j.
- `ZigZag.ZigNums`: its contract ties value j to the diagonal of the zig
  table. That this diagonal is the secant number S_j is proved only for
  j < 4, by the first values, not for all j.
- `TangentNum.ZagNums`: same as `ZigZag.ZagNums`. Its values equal the
  zig-zag generator's for every n, but they are the tangent numbers only as
  far as that generator's are, j < 5.
- `Factorial.CheckedFactorial2` is stated weaker than exact for n >= 35 in
  128-bit types. There it inherits the parity slip of `factorial2` (see
  Findings), and no corrected checked variant is modelled.
- `Factorial.CheckedFactorialk` is stated weaker than exact for k >= 2 and
  n >= 16k+3 in 128-bit types, for the same reason. Elsewhere its `None` case
  is an if-and-only-if for n >= 1. The condition names the loop counter
  `n + k` and `16k` besides the k-factorial, since their overflow also gives
  `None`. For n = 0 the source returns `Some(1)` before any of these
  (src/special/factorial.rs:301-303), so there is no `None` at all.
- `Factorial.CheckedFactorialk` also stands for the `checked_factorialk` of
  the blanket `MaxFactorial` impl (src/special/factorial.rs:351-374), which
  has the same body.
- The per-type macros (`impl_checkedfactorial!`, `impl_maxfactorial!`,
  `combinatorics_primint_impl!`, `zigzag_primint_impl!`) are modelled once,
  with the type as a parameter.
- `frexp`, `ldexp`, `euler_reflection_prefactor`, the Stirling table and the
  copy of `eval_poly` in src/special/gamma.rs are not part of this model.

## Findings

| source | as written | input that shows it | evidently intended | confidence | as-written member | corrected member |
|---|---|---|---|---|---|---|
| src/special/factorial.rs:166-170 | for n >= 33, `factorial2` multiplies the 17 terms n-32, n-30, ..., n by `(n-33).factorial2()`, which has the other parity | n = 35 in u128: gives 3*5*...*35 * 2!! = 2 * 35!! | continue at n-34, the next term of the same parity, using 1 when that is <= 0 | not executed; 35!! exceeds 64 bits, so only the 128-bit types reach it without overflow | Factorial.Factorial2AsWritten (Factorial.Factorial2ThirtyFive) | Factorial.Factorial2 |
| src/special/factorial.rs:183-185 | for n > 16k, `factorialk` multiplies the 17 terms n-16k, ..., n (step k) by `(n-16k-1).factorialk(k)` | n = 35, k = 2 in u128: gives 2 * 35!!; in general wrong for k >= 2 and n >= 16k+3 | continue at n-17k, using 1 when that is <= 0 | not executed | Factorial.FactorialkAsWritten (Factorial.Factorial2ThirtyFive) | Factorial.Factorialk |
