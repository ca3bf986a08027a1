/**
  How many pizzas each variety's blocks are enough for (app.py, berechne_pizzen).

  Block weights are in kilograms and the cheese needed per pizza in grams,
  so a variety with `count` blocks of `blockWeight` kg yields
  `floor(count * blockWeight * 1000 / pizzaWeight)` pizzas.
 */
module YieldCalculator {
  import opened Arithmetic

  /** The cheese mass of `count` blocks, in grams. */
  function Grams(count: int, blockWeight: real): real {
    count as real * blockWeight * 1000.0
  }

  /**
    The source's `grams // pizzaWeight`, converted to an integer. Cheese
    of non-negative mass never yields a negative number of pizzas.
   */
  function UnitYield(count: int, blockWeight: real, pizzaWeight: real): (r: int)
    requires pizzaWeight != 0.0
    ensures pizzaWeight > 0.0 && Grams(count, blockWeight) >= 0.0 ==> r >= 0
  {
    var q := Grams(count, blockWeight) / pizzaWeight;
    NonNegativeQuotient(Grams(count, blockWeight), pizzaWeight);
    q.Floor
  }

  lemma NonNegativeQuotient(g: real, p: real)
    requires p != 0.0
    ensures g >= 0.0 && p > 0.0 ==> g / p >= 0.0
  {
  }

  /** The source needs one pizza weight per count and never divides by zero. */
  predicate YieldDefined(counts: seq<int>, blockWeights: seq<real>, pizzaWeights: seq<real>) {
    |counts| <= |blockWeights| && |counts| <= |pizzaWeights| &&
    forall i :: 0 <= i < |counts| ==> pizzaWeights[i] != 0.0
  }

  /** berechne_pizzen: one yield per variety, appended in order. */
  method ComputeYield(counts: seq<int>, blockWeights: seq<real>, pizzaWeights: seq<real>)
    returns (pizzas: seq<int>)
    requires YieldDefined(counts, blockWeights, pizzaWeights)
    ensures |pizzas| == |counts|
    ensures forall i :: 0 <= i < |counts| ==>
      pizzas[i] == UnitYield(counts[i], blockWeights[i], pizzaWeights[i])
  {
    pizzas := [];
    for i := 0 to |counts|
      invariant |pizzas| == i
      invariant forall j :: 0 <= j < i ==>
        pizzas[j] == UnitYield(counts[j], blockWeights[j], pizzaWeights[j])
    {
      var grams := counts[i] as real * blockWeights[i] * 1000.0;
      var n := (grams / pizzaWeights[i]).Floor;
      assert n == UnitYield(counts[i], blockWeights[i], pizzaWeights[i]);
      pizzas := pizzas + [n];
    }
  }

  /**
    The yield is the largest number of whole pizzas the cheese covers:
    that many fit, one more does not.
   */
  lemma YieldIsLargestFit(count: int, blockWeight: real, pizzaWeight: real)
    requires pizzaWeight > 0.0
    ensures var y := UnitYield(count, blockWeight, pizzaWeight);
      y as real * pizzaWeight <= Grams(count, blockWeight) < (y + 1) as real * pizzaWeight
  {
    var g := Grams(count, blockWeight);
    QuotientTimesDivisor(g, pizzaWeight);
    FloorBounds(g / pizzaWeight, pizzaWeight, g);
  }

  lemma QuotientTimesDivisor(g: real, p: real)
    requires p != 0.0
    ensures (g / p) * p == g
  {
  }

  /** Scaling `q.Floor <= q < q.Floor + 1` by the positive `p`. */
  lemma FloorBounds(q: real, p: real, g: real)
    requires p > 0.0 && q * p == g
    ensures q.Floor as real * p <= g < (q.Floor + 1) as real * p
  {
    FloorBelow(q, p, g);
    FloorAbove(q, p, g);
  }

  lemma FloorBelow(q: real, p: real, g: real)
    requires p > 0.0 && q * p == g
    ensures q.Floor as real * p <= g
  {
    FloorFacts(q);
    ScaleLe(q.Floor as real, q, p);
  }

  lemma FloorAbove(q: real, p: real, g: real)
    requires p > 0.0 && q * p == g
    ensures g < (q.Floor + 1) as real * p
  {
    FloorFacts(q);
    ScaleLt(q, (q.Floor + 1) as real, p);
  }

  lemma FloorFacts(q: real)
    ensures q.Floor as real <= q < (q.Floor + 1) as real
  {
  }

  /** No other whole number of pizzas has that property. */
  lemma YieldUnique(count: int, blockWeight: real, pizzaWeight: real, z: int)
    requires pizzaWeight > 0.0
    requires z as real * pizzaWeight <= Grams(count, blockWeight) < (z + 1) as real * pizzaWeight
    ensures z == UnitYield(count, blockWeight, pizzaWeight)
  {
    var y := UnitYield(count, blockWeight, pizzaWeight);
    YieldIsLargestFit(count, blockWeight, pizzaWeight);
    var g := Grams(count, blockWeight);
    FitOrder(z, y, pizzaWeight, g);
    FitOrder(y, z, pizzaWeight, g);
  }

  /** More blocks never give fewer pizzas. */
  lemma YieldMonotone(count: int, more: int, blockWeight: real, pizzaWeight: real)
    requires count <= more && blockWeight >= 0.0 && pizzaWeight > 0.0
    ensures UnitYield(count, blockWeight, pizzaWeight) <= UnitYield(more, blockWeight, pizzaWeight)
  {
    var w := blockWeight * 1000.0;
    assert Grams(count, blockWeight) == count as real * w;
    assert Grams(more, blockWeight) == more as real * w;
    ScaleLe(count as real, more as real, w);
    var a := Grams(count, blockWeight) / pizzaWeight;
    var b := Grams(more, blockWeight) / pizzaWeight;
    DivideLe(Grams(count, blockWeight), Grams(more, blockWeight), pizzaWeight);
    assert a.Floor as real <= a <= b;
  }

  /** If `a` pizzas fit in `g` and `b + 1` do not, then `a <= b`. */
  lemma FitOrder(a: int, b: int, p: real, g: real)
    requires p > 0.0 && a as real * p <= g < (b + 1) as real * p
    ensures a <= b
  {
    if b < a {
      ScaleLe((b + 1) as real, a as real, p);
    }
  }

  lemma ScaleLt(a: real, b: real, p: real)
    requires a < b && p > 0.0
    ensures a * p < b * p
  {
    assert b * p - a * p == (b - a) * p;
  }

  lemma DivideLe(a: real, b: real, p: real)
    requires a <= b && p > 0.0
    ensures a / p <= b / p
  {
    assert b / p - a / p == (b - a) / p;
  }

  /** Two blocks of 1 kg with 200 g per pizza make ten pizzas. */
  lemma TwoKilosMakeTenPizzas()
    ensures UnitYield(2, 1.0, 200.0) == 10
  {
    assert Grams(2, 1.0) == 2000.0;
    assert 2000.0 / 200.0 == 10.0;
  }
}
