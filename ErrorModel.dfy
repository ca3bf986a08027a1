/**
  The error score of a candidate block allocation (app.py, berechne_fehler).

  A candidate gives `counts[i]` blocks of variety `i`, each weighing
  `blockWeights[i]`. Its score is the sum, over the varieties, of the squared
  difference between the variety's share of the total cheese mass and its
  ideal share `pizzaWeights[i] / sum(pizzaWeights)`. A candidate whose total
  mass is zero scores infinity.
 */
module ErrorModel {

  /** A score: a finite real, or the float('inf') of the source. */
  datatype Score = Inf | Fin(value: real)

  /**
    The source's `<` on scores, where either side may be infinite: an
    infinite score is less than nothing (so `inf < inf` is false), and every
    finite score is less than infinity.
   */
  predicate Less(a: Score, b: Score): (r: bool)
    ensures r ==> a.Fin?
    ensures a.Fin? && b.Inf? ==> r
  {
    match a
    case Inf => false
    case Fin(x) => b.Inf? || x < b.value
  }

  /** Not worse than: the negation of `Less` with the sides swapped. */
  predicate LessEq(a: Score, b: Score) {
    !Less(b, a)
  }

  /** `sum(xs)`, adding from the left. */
  function Sum(xs: seq<real>): real {
    if |xs| == 0 then 0.0 else Sum(xs[..|xs| - 1]) + xs[|xs| - 1]
  }

  /** `sum(np.array(counts) * np.array(weights))`: the total cheese mass. */
  function Mass(counts: seq<int>, weights: seq<real>): (r: real)
    requires |counts| == |weights|
    ensures (forall i :: 0 <= i < |counts| ==> counts[i] >= 0 && weights[i] >= 0.0) ==> r >= 0.0
  {
    if |counts| == 0 then 0.0
    else
      var k := |counts| - 1;
      Mass(counts[..k], weights[..k]) + counts[k] as real * weights[k]
  }

  /**
    The source reads `pizzaWeights[i]` and divides by `sum(pizzaWeights)`
    only once the total mass is known to be non-zero; this is what a caller
    must guarantee so that neither the indexing nor the division fails.
   */
  predicate Defined(counts: seq<int>, blockWeights: seq<real>, pizzaWeights: seq<real>)
    requires |counts| == |blockWeights|
  {
    Mass(counts, blockWeights) == 0.0 ||
    (|counts| <= |pizzaWeights| && Sum(pizzaWeights) != 0.0)
  }

  /** The mass share of variety `i` in a candidate of total mass `total`. */
  function ActualShare(counts: seq<int>, blockWeights: seq<real>, total: real, i: nat): real
    requires i < |counts| && i < |blockWeights| && total != 0.0
  {
    (counts[i] as real * blockWeights[i]) / total
  }

  /** The share of variety `i` that the pizza weights ask for. */
  function IdealShare(pizzaWeights: seq<real>, i: nat): real
    requires i < |pizzaWeights| && Sum(pizzaWeights) != 0.0
  {
    pizzaWeights[i] / Sum(pizzaWeights)
  }

  /** The sum of squared share deviations over the first `k` varieties. */
  function SquaredDeviation(counts: seq<int>, blockWeights: seq<real>, pizzaWeights: seq<real>,
                            total: real, k: nat): (r: real)
    requires k <= |counts| == |blockWeights| <= |pizzaWeights|
    requires total != 0.0 && Sum(pizzaWeights) != 0.0
    ensures r >= 0.0
  {
    if k == 0 then 0.0
    else
      var d := ActualShare(counts, blockWeights, total, k - 1) - IdealShare(pizzaWeights, k - 1);
      SquaredDeviation(counts, blockWeights, pizzaWeights, total, k - 1) + d * d
  }

  /**
    The score of a candidate. It is infinite exactly when the total mass is
    zero, and otherwise a sum of squares, hence never negative.
   */
  function Error(counts: seq<int>, blockWeights: seq<real>, pizzaWeights: seq<real>): (r: Score)
    requires |counts| == |blockWeights|
    requires Defined(counts, blockWeights, pizzaWeights)
    ensures r.Inf? <==> Mass(counts, blockWeights) == 0.0
    ensures r.Fin? ==> r.value >= 0.0
  {
    var total := Mass(counts, blockWeights);
    if total == 0.0 then Inf
    else Fin(SquaredDeviation(counts, blockWeights, pizzaWeights, total, |counts|))
  }

  /** berechne_fehler: the accumulation loop of the source, proved to compute `Error`. */
  method ComputeError(counts: seq<int>, blockWeights: seq<real>, pizzaWeights: seq<real>)
    returns (e: Score)
    requires |counts| == |blockWeights|
    requires Defined(counts, blockWeights, pizzaWeights)
    ensures e == Error(counts, blockWeights, pizzaWeights)
  {
    var total := Mass(counts, blockWeights);
    if total == 0.0 {
      return Inf;
    }
    var error := 0.0;
    for i := 0 to |counts|
      invariant error == SquaredDeviation(counts, blockWeights, pizzaWeights, total, i)
    {
      var ratio := (counts[i] as real * blockWeights[i]) / total;
      var idealRatio := pizzaWeights[i] / Sum(pizzaWeights);
      error := error + (ratio - idealRatio) * (ratio - idealRatio);
    }
    return Fin(error);
  }

  /**
    The deviation over `k` varieties is zero exactly when each of them gets
    its ideal share.
   */
  lemma {:induction false} SquaredDeviationZero(counts: seq<int>, blockWeights: seq<real>,
                                                pizzaWeights: seq<real>, total: real, k: nat)
    requires k <= |counts| == |blockWeights| <= |pizzaWeights|
    requires total != 0.0 && Sum(pizzaWeights) != 0.0
    ensures SquaredDeviation(counts, blockWeights, pizzaWeights, total, k) == 0.0
        <==> forall i :: 0 <= i < k ==>
               ActualShare(counts, blockWeights, total, i) == IdealShare(pizzaWeights, i)
  {
    if k > 0 {
      SquaredDeviationZero(counts, blockWeights, pizzaWeights, total, k - 1);
      AddSquareZero(SquaredDeviation(counts, blockWeights, pizzaWeights, total, k - 1),
                    ActualShare(counts, blockWeights, total, k - 1) - IdealShare(pizzaWeights, k - 1));
    }
  }

  /** A square added to something non-negative vanishes only when both parts do. */
  lemma AddSquareZero(a: real, d: real)
    requires a >= 0.0
    ensures a + d * d == 0.0 <==> a == 0.0 && d == 0.0
  {
    if a + d * d == 0.0 {
      SquareVanishes(a, d);
      ProductZero(d, d);
    }
  }

  /** Both summands of a vanishing sum of non-negatives vanish. */
  lemma SquareVanishes(a: real, d: real)
    requires a >= 0.0 && a + d * d == 0.0
    ensures a == 0.0 && d * d == 0.0
  {
  }

  /** A product is zero only when a factor is. */
  lemma ProductZero(x: real, y: real)
    requires x * y == 0.0
    ensures x == 0.0 || y == 0.0
  {
  }

  /**
    A candidate of non-zero mass scores exactly zero if and only if every
    variety's mass share equals its ideal share.
   */
  lemma ErrorZeroIffIdeal(counts: seq<int>, blockWeights: seq<real>, pizzaWeights: seq<real>)
    requires |counts| == |blockWeights| <= |pizzaWeights|
    requires Mass(counts, blockWeights) != 0.0 && Sum(pizzaWeights) != 0.0
    ensures Error(counts, blockWeights, pizzaWeights) == Fin(0.0)
        <==> forall i :: 0 <= i < |counts| ==>
               ActualShare(counts, blockWeights, Mass(counts, blockWeights), i) == IdealShare(pizzaWeights, i)
  {
    SquaredDeviationZero(counts, blockWeights, pizzaWeights, Mass(counts, blockWeights), |counts|);
  }

  /** `<` on scores is a strict total order, with infinity above every finite score. */
  lemma LessStrictOrder(a: Score, b: Score, c: Score)
    ensures !Less(a, a)
    ensures Less(a, b) && Less(b, c) ==> Less(a, c)
    ensures Less(a, b) || Less(b, a) || a == b
  {
  }

  /**
    Every allocation the search scores has at least one block of each
    variety; with positive block weights its mass is positive, so its score
    is finite.
   */
  lemma {:induction false} MassPositive(counts: seq<int>, weights: seq<real>)
    requires |counts| == |weights| > 0
    requires forall i :: 0 <= i < |counts| ==> counts[i] >= 1 && weights[i] > 0.0
    ensures Mass(counts, weights) > 0.0
  {
    var k := |counts| - 1;
    if k > 0 {
      MassPositive(counts[..k], weights[..k]);
    }
    PositiveProduct(counts[k] as real, weights[k]);
  }

  lemma PositiveProduct(x: real, y: real)
    requires x > 0.0 && y > 0.0
    ensures x * y > 0.0
  {
  }

  /** A sum of positive weights is positive, so the ideal shares are defined. */
  lemma {:induction false} SumPositive(xs: seq<real>)
    requires |xs| > 0 && forall i :: 0 <= i < |xs| ==> xs[i] > 0.0
    ensures Sum(xs) > 0.0
  {
    var k := |xs| - 1;
    if k > 0 {
      SumPositive(xs[..k]);
    }
  }
}
