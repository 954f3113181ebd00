/** Quadratically weighted kappa between two reviewers' score lists, in exact arithmetic.

    The program weighs a disagreement by ((a - b) / 4) squared.  Every sum below is kept as the
    integer sixteen times that large, and divided by 16 only where the real quotients are formed. */
module Kappa {

  const TOP_SCORE: nat := 5

  function Weight(a: int, b: int): int { (a - b) * (a - b) }

  // ---------- the program ----------

  /** The sum over zip(left, right) of the weight, times 16. */
  function Disagreement(left: seq<int>, right: seq<int>): int
    requires |left| == |right|
  {
    if left == [] then 0 else Weight(left[0], right[0]) + Disagreement(left[1..], right[1..])
  }

  /** Counter(scores)[value]. */
  function Count(value: int, scores: seq<int>): nat {
    if scores == [] then 0 else (if scores[0] == value then 1 else 0) + Count(value, scores[1..])
  }

  function CellSum(a: int, left: seq<int>, right: seq<int>, top: nat): int {
    if top == 0 then 0
    else CellSum(a, left, right, top - 1) + Count(a, left) * Count(top, right) * Weight(a, top)
  }

  /** The sum over the table range(1, 6) x range(1, 6), times 16. */
  function TableSum(left: seq<int>, right: seq<int>, top: nat): int {
    if top == 0 then 0 else TableSum(left, right, top - 1) + CellSum(top, left, right, TOP_SCORE)
  }

  function Observed(left: seq<int>, right: seq<int>): real
    requires |left| == |right| > 0
  {
    Disagreement(left, right) as real / 16.0 / |left| as real
  }

  function Expected(left: seq<int>, right: seq<int>): real
    requires |left| == |right| > 0
  {
    TableSum(left, right, TOP_SCORE) as real / 16.0 / (|left| * |left|) as real
  }

  function WeightedKappa(left: seq<int>, right: seq<int>): real {
    if |left| != |right| || left == [] then 0.0
    else
      var observed, expected := Observed(left, right), Expected(left, right);
      if expected == 0.0 && observed == 0.0 then 1.0
      else if expected == 0.0 then 0.0
      else 1.0 - observed / expected
  }

  /** What score_evaluation guarantees about the lists it passes on. */
  predicate ValidScores(scores: seq<int>) { forall i :: 0 <= i < |scores| ==> 1 <= scores[i] <= TOP_SCORE }

  // ---------- the reference: every pair of ratings, one by one ----------

  function PairsWith(a: int, right: seq<int>): int {
    if right == [] then 0 else Weight(a, right[0]) + PairsWith(a, right[1..])
  }

  function AllPairs(left: seq<int>, right: seq<int>): int {
    if left == [] then 0 else PairsWith(left[0], right) + AllPairs(left[1..], right)
  }

  // ---------- arithmetic ----------

  lemma Distribute(a: int, b: int, c: int)
    ensures a * (b + c) == a * b + a * c
  {}

  lemma OneMore(c: int, w: int)
    ensures (c + 1) * w == c * w + w
  {}

  lemma Commute(s: int, t: int)
    ensures 2 * s * t == 2 * t * s
  {}

  lemma FactorOut(c: int, w: int, k: int, v: int)
    ensures c * w + c * k * v == c * (w + k * v)
  {
    assert c * k * v == c * (k * v);
  }

  lemma PairsStep(m: int, a: int, b: int, s: int, q: int)
    ensures Weight(a, b) + (m * (a * a) - 2 * a * s + q) == (m + 1) * (a * a) - 2 * a * (b + s) + (b * b + q)
  {
    OneMore(m, a * a);
    Distribute(2 * a, b, s);
    assert Weight(a, b) == a * a - 2 * a * b + b * b;
  }

  lemma MomentsStep(n: int, m: int, a: int, q: int, s: int, t: int, u: int)
    ensures n * (a * a) - 2 * a * t + u + (n * q - 2 * s * t + m * u)
         == n * (a * a + q) - 2 * (a + s) * t + (m + 1) * u
  {
    Distribute(n, a * a, q);
    OneMore(m, u);
    assert 2 * (a + s) * t == 2 * a * t + 2 * s * t;
  }

  /** From (s + t)^2 <= n * v and v + d = 2p + 2q: n * d is at most 2 * (n * p - 2 * s * t + n * q). */
  lemma BoundFromMoments(n: int, v: int, d: int, p: int, q: int, s: int, t: int)
    requires (s + t) * (s + t) <= n * v && v + d == 2 * p + 2 * q
    ensures n * d <= 2 * (n * p - 2 * s * t + n * q)
  {
    MeanInequality(s, t);
    Distribute(n, v, d);
    Distribute(n, 2 * p, 2 * q);
    assert 2 * s * t == 2 * (s * t);
  }

  lemma SquareOfSum(x: int, y: int)
    ensures (x + y) * (x + y) == x * x + 2 * x * y + y * y
  {}

  /** Four times a product is at most the square of the sum. */
  lemma MeanInequality(x: int, y: int)
    ensures 4 * (x * y) <= (x + y) * (x + y)
  {
    assert (x - y) * (x - y) >= 0;
  }

  /** How the quotient f = p / e behaves, for an integer numerator and a nonzero denominator. */
  lemma FractionBounds(p: int, e: int)
    requires e != 0
    ensures p == 0 <==> p as real / e as real == 0.0
    ensures 0 <= p <= 2 * e ==> 0.0 <= p as real / e as real <= 2.0
  {
    var f := p as real / e as real;
    assert f * e as real == p as real;
  }

  lemma SquareNonNegative(d: int)
    ensures d * d >= 0
    ensures d * d == 0 <==> d == 0
  {}

  lemma PositiveProduct(n: int, d: int)
    requires n > 0
    ensures d >= 0 ==> n * d >= 0
    ensures n * d == 0 <==> d == 0
  {}

  // ---------- the table is the double sum ----------

  function WeightedCounts(a: int, right: seq<int>, top: nat): int {
    if top == 0 then 0 else WeightedCounts(a, right, top - 1) + Count(top, right) * Weight(a, top)
  }

  lemma {:induction false} CellSumFactors(a: int, left: seq<int>, right: seq<int>, top: nat)
    ensures CellSum(a, left, right, top) == Count(a, left) * WeightedCounts(a, right, top)
  {
    if top > 0 {
      CellSumFactors(a, left, right, top - 1);
      FactorOut(Count(a, left), WeightedCounts(a, right, top - 1), Count(top, right), Weight(a, top));
    }
  }

  lemma {:induction false} CountsOfCons(a: int, right: seq<int>, top: nat)
    requires right != []
    ensures WeightedCounts(a, right, top)
         == WeightedCounts(a, right[1..], top) + if 1 <= right[0] <= top then Weight(a, right[0]) else 0
  {
    if top > 0 {
      CountsOfCons(a, right, top - 1);
      OneMore(Count(top, right[1..]), Weight(a, top));
    }
  }

  lemma {:induction false} CountsArePairs(a: int, right: seq<int>)
    requires ValidScores(right)
    ensures WeightedCounts(a, right, TOP_SCORE) == PairsWith(a, right)
  {
    if right == [] {
      NoCounts(a, TOP_SCORE);
    } else {
      CountsOfCons(a, right, TOP_SCORE);
      CountsArePairs(a, right[1..]);
    }
  }

  lemma {:induction false} NoCounts(a: int, top: nat)
    ensures WeightedCounts(a, [], top) == 0
  {
    if top > 0 { NoCounts(a, top - 1); }
  }

  lemma {:induction false} TableOfCons(left: seq<int>, right: seq<int>, top: nat)
    requires left != []
    ensures TableSum(left, right, top)
         == TableSum(left[1..], right, top)
          + if 1 <= left[0] <= top then WeightedCounts(left[0], right, TOP_SCORE) else 0
  {
    if top > 0 {
      TableOfCons(left, right, top - 1);
      CellSumFactors(top, left, right, TOP_SCORE);
      CellSumFactors(top, left[1..], right, TOP_SCORE);
      OneMore(Count(top, left[1..]), WeightedCounts(top, right, TOP_SCORE));
    }
  }

  lemma {:induction false} NoTable(right: seq<int>, top: nat)
    ensures TableSum([], right, top) == 0
  {
    if top > 0 {
      NoTable(right, top - 1);
      CellSumFactors(top, [], right, TOP_SCORE);
    }
  }

  /** The 5 x 5 contingency table computes the sum over all n * n pairs of ratings. */
  lemma {:induction false} TableIsAllPairs(left: seq<int>, right: seq<int>)
    requires ValidScores(left) && ValidScores(right)
    ensures TableSum(left, right, TOP_SCORE) == AllPairs(left, right)
  {
    if left == [] {
      NoTable(right, TOP_SCORE);
    } else {
      TableOfCons(left, right, TOP_SCORE);
      CountsArePairs(left[0], right);
      TableIsAllPairs(left[1..], right);
    }
  }

  // ---------- moments and Cauchy-Schwarz ----------

  function Sum(s: seq<int>): int { if s == [] then 0 else s[0] + Sum(s[1..]) }

  function SquareSum(s: seq<int>): int { if s == [] then 0 else s[0] * s[0] + SquareSum(s[1..]) }

  function Added(left: seq<int>, right: seq<int>): (sum: seq<int>)
    requires |left| == |right|
    ensures |sum| == |left|
  {
    if left == [] then [] else [left[0] + right[0]] + Added(left[1..], right[1..])
  }

  lemma {:induction false} PairsWithByMoments(a: int, right: seq<int>)
    ensures PairsWith(a, right) == |right| * (a * a) - 2 * a * Sum(right) + SquareSum(right)
  {
    if right != [] {
      PairsWithByMoments(a, right[1..]);
      PairsStep(|right| - 1, a, right[0], Sum(right[1..]), SquareSum(right[1..]));
    }
  }

  lemma {:induction false} AllPairsByMoments(left: seq<int>, right: seq<int>)
    ensures AllPairs(left, right)
         == |right| * SquareSum(left) - 2 * Sum(left) * Sum(right) + |left| * SquareSum(right)
  {
    if left != [] {
      PairsWithByMoments(left[0], right);
      AllPairsByMoments(left[1..], right);
      MomentsStep(|right|, |left| - 1, left[0], SquareSum(left[1..]), Sum(left[1..]), Sum(right), SquareSum(right));
    }
  }

  /** n * sum(x^2) dominates (sum x)^2: the spread around any one element is a sum of squares. */
  lemma {:induction false} CauchySchwarz(s: seq<int>)
    ensures |s| * SquareSum(s) >= Sum(s) * Sum(s)
  {
    if s != [] {
      CauchySchwarz(s[1..]);
      PairsWithByMoments(s[0], s[1..]);
      PairsNonNegative(s[0], s[1..]);
      OneMore(|s| - 1, s[0] * s[0] + SquareSum(s[1..]));
      Distribute(|s| - 1, s[0] * s[0], SquareSum(s[1..]));
      SquareOfSum(s[0], Sum(s[1..]));
    }
  }

  lemma {:induction false} PairsNonNegative(a: int, right: seq<int>)
    ensures PairsWith(a, right) >= 0
  {
    if right != [] {
      PairsNonNegative(a, right[1..]);
      assert Weight(a, right[0]) >= 0 by { SquareNonNegative(a - right[0]); }
    }
  }

  lemma {:induction false} AddedMoments(left: seq<int>, right: seq<int>)
    requires |left| == |right|
    ensures Sum(Added(left, right)) == Sum(left) + Sum(right)
    ensures SquareSum(Added(left, right)) + Disagreement(left, right) == 2 * SquareSum(left) + 2 * SquareSum(right)
  {
    if left != [] {
      AddedMoments(left[1..], right[1..]);
      var a, b := left[0], right[0];
      assert (a + b) * (a + b) + Weight(a, b) == 2 * (a * a) + 2 * (b * b);
      assert Added(left, right)[1..] == Added(left[1..], right[1..]);
    }
  }

  lemma {:induction false} ZeroDisagreement(left: seq<int>, right: seq<int>)
    requires |left| == |right|
    ensures Disagreement(left, right) >= 0
    ensures Disagreement(left, right) == 0 <==> left == right
  {
    if left != [] {
      ZeroDisagreement(left[1..], right[1..]);
      SquareNonNegative(left[0] - right[0]);
      assert left == [left[0]] + left[1..] && right == [right[0]] + right[1..];
    }
  }

  lemma AllPairsSymmetric(left: seq<int>, right: seq<int>)
    ensures AllPairs(left, right) == AllPairs(right, left)
  {
    AllPairsByMoments(left, right);
    AllPairsByMoments(right, left);
    Commute(Sum(left), Sum(right));
  }

  lemma {:induction false} DisagreementSymmetric(left: seq<int>, right: seq<int>)
    requires |left| == |right|
    ensures Disagreement(left, right) == Disagreement(right, left)
  {
    if left != [] { DisagreementSymmetric(left[1..], right[1..]); }
  }

  /** The inequality behind the lower bound: n times the paired sum is at most twice the double sum. */
  lemma DisagreementBound(left: seq<int>, right: seq<int>)
    requires |left| == |right|
    ensures |left| * Disagreement(left, right) <= 2 * AllPairs(left, right)
  {
    AllPairsByMoments(left, right);
    AddedMoments(left, right);
    CauchySchwarz(Added(left, right));
    BoundFromMoments(|left|, SquareSum(Added(left, right)), Disagreement(left, right),
                     SquareSum(left), SquareSum(right), Sum(left), Sum(right));
  }

  // ---------- the theorems ----------

  /** Zero expectation forces identical lists, so the fallback value 0.0 for it is unreachable. */
  lemma ZeroExpectationMeansAgreement(left: seq<int>, right: seq<int>)
    requires |left| == |right| > 0 && ValidScores(left) && ValidScores(right)
    requires Expected(left, right) == 0.0
    ensures left == right && Observed(left, right) == 0.0 && WeightedKappa(left, right) == 1.0
  {
    var n, d, e := |left|, Disagreement(left, right), TableSum(left, right, TOP_SCORE);
    QuotientZero(e, n * n);
    TableIsAllPairs(left, right);
    DisagreementBound(left, right);
    ZeroDisagreement(left, right);
    PositiveProduct(n, d);
  }

  lemma QuotientZero(x: int, n: int)
    requires n > 0
    ensures x as real / 16.0 / n as real == 0.0 <==> x == 0
  {
    var r, m := x as real / 16.0, n as real;
    assert r / m * m == r;
  }

  /** When the expectation is not zero, kappa is the exact fraction 1 - n * D / E. */
  lemma KappaAsFraction(left: seq<int>, right: seq<int>)
    requires |left| == |right| > 0 && TableSum(left, right, TOP_SCORE) != 0
    ensures WeightedKappa(left, right)
         == 1.0 - (|left| * Disagreement(left, right)) as real / TableSum(left, right, TOP_SCORE) as real
  {
    var n, d, e := |left|, Disagreement(left, right), TableSum(left, right, TOP_SCORE);
    ScaledQuotient(d, e, n);
  }

  lemma ScaledQuotient(d: int, e: int, n: int)
    requires n > 0 && e != 0
    ensures e as real / 16.0 / (n * n) as real != 0.0
    ensures (d as real / 16.0 / n as real) / (e as real / 16.0 / (n * n) as real) == (n * d) as real / e as real
  {
    FractionSimplifies(d as real, e as real, n as real);
    assert (n * n) as real == n as real * n as real;
    assert (n * d) as real == n as real * d as real;
  }

  lemma FractionSimplifies(d: real, e: real, n: real)
    requires n > 0.0 && e != 0.0
    ensures e / 16.0 / (n * n) != 0.0
    ensures (d / 16.0 / n) / (e / 16.0 / (n * n)) == n * d / e
  {
    var x, y := d / 16.0 / n, e / 16.0 / (n * n);
    assert x * n == d / 16.0;
    assert y * (n * n) == e / 16.0;
    assert y != 0.0;
    var k := n * d / e;
    assert k * e == n * d;
    assert k * (y * (n * n)) == k * (e / 16.0) == n * d / 16.0 == n * (x * n);
    assert (k * y) * (n * n) == x * (n * n);
    CancelFactor(k * y, x, n * n);
    assert x / y == k;
  }

  lemma CancelFactor(a: real, b: real, f: real)
    requires f != 0.0 && a * f == b * f
    ensures a == b
  {
    assert (a - b) * f == 0.0;
  }

  /** Kappa of two valid rating lists lies between -1 and 1. */
  lemma KappaInRange(left: seq<int>, right: seq<int>)
    requires ValidScores(left) && ValidScores(right)
    ensures -1.0 <= WeightedKappa(left, right) <= 1.0
  {
    if |left| == |right| > 0 {
      var n, d, e := |left|, Disagreement(left, right), TableSum(left, right, TOP_SCORE);
      QuotientZero(e, n * n);
      if e == 0 {
        ZeroExpectationMeansAgreement(left, right);
      } else {
        KappaAsFraction(left, right);
        TableIsAllPairs(left, right);
        DisagreementBound(left, right);
        ZeroDisagreement(left, right);
        PositiveProduct(n, d);
        FractionBounds(n * d, e);
      }
    }
  }

  /** Kappa is 1 exactly on identical, non-empty lists. */
  lemma KappaOneIffIdentical(left: seq<int>, right: seq<int>)
    requires ValidScores(left) && ValidScores(right)
    ensures WeightedKappa(left, right) == 1.0 <==> left == right && left != []
  {
    if |left| == |right| > 0 {
      var n, d, e := |left|, Disagreement(left, right), TableSum(left, right, TOP_SCORE);
      QuotientZero(e, n * n);
      ZeroDisagreement(left, right);
      if e == 0 {
        ZeroExpectationMeansAgreement(left, right);
      } else {
        KappaAsFraction(left, right);
        PositiveProduct(n, d);
        FractionBounds(n * d, e);
      }
    }
  }

  /** Swapping the reviewers changes nothing. */
  lemma KappaSymmetric(left: seq<int>, right: seq<int>)
    requires ValidScores(left) && ValidScores(right)
    ensures WeightedKappa(left, right) == WeightedKappa(right, left)
  {
    if |left| == |right| > 0 {
      DisagreementSymmetric(left, right);
      TableIsAllPairs(left, right);
      TableIsAllPairs(right, left);
      AllPairsSymmetric(left, right);
    }
  }

  /** The scores run from 1 to 5; disagreement counts by its square; lists that cannot be paired score 0. */
  lemma KnownKappa(scores: seq<int>, left: seq<int>, right: seq<int>)
    ensures ValidScores(scores) <==> forall i :: 0 <= i < |scores| ==> scores[i] in {1, 2, 3, 4, 5}
    ensures left == [1, 3] && right == [1, 5] ==> WeightedKappa(left, right) == 2.0 / 3.0
    ensures |left| != |right| || (left == [] && right == []) ==> WeightedKappa(left, right) == 0.0
  {
    if left == [1, 3] && right == [1, 5] {
      PairsWithTwo(1, 1, 5);
      PairsWithTwo(3, 1, 5);
      TwoAndTwo(1, 3, 1, 5);
      TableIsAllPairs(left, right);
      hide PairsWith, AllPairs, Disagreement, TableSum;
      KappaAsFraction(left, right);
    }
  }

  lemma PairsWithTwo(a: int, b: int, c: int)
    ensures PairsWith(a, [b, c]) == Weight(a, b) + Weight(a, c)
  {
    assert [b, c][1..] == [c] && [c][1..] == [] && PairsWith(a, [c]) == Weight(a, c);
  }

  lemma TwoAndTwo(a: int, b: int, c: int, d: int)
    ensures AllPairs([a, b], [c, d]) == PairsWith(a, [c, d]) + PairsWith(b, [c, d])
    ensures Disagreement([a, b], [c, d]) == Weight(a, c) + Weight(b, d)
  {
    hide PairsWith, Weight;
    assert [a, b][1..] == [b] && [b][1..] == [] && [c, d][1..] == [d];
    assert AllPairs([b], [c, d]) == PairsWith(b, [c, d]) && Disagreement([b], [d]) == Weight(b, d);
  }
}
