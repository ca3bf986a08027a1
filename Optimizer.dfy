/**
  The exhaustive search for the best block allocation
  (app.py, berechne_optimal_bloecke).

  Every allocation in `[1..maxb]^n` is scored in row-major order: the
  source walks `np.ndindex(maxb, ..., maxb)`, whose last index moves
  fastest, and adds one to every index. The incumbent is replaced only on a
  strictly smaller score, so the first minimiser in that order wins.

  The enumeration is modelled as an odometer over 0-based digits: `Value`
  is the position of a digit tuple in row-major order, `Advance` moves to
  the next tuple.
 */
module Optimizer {
  import opened ErrorModel
  import opened Arithmetic

  /** A sequence of `n` copies of `x` (`np.ones(n)` for `x = 1`). */
  function Fill(n: nat, x: int): (r: seq<int>)
    ensures |r| == n && forall i :: 0 <= i < n ==> r[i] == x
  {
    seq(n, i => x)
  }

  function Pow(b: nat, e: nat): nat {
    if e == 0 then 1 else Pow(b, e - 1) * b
  }

  /** Every entry is a digit of base `m`. */
  predicate Digits(d: seq<int>, m: nat) {
    forall i :: 0 <= i < |d| ==> 0 <= d[i] < m
  }

  /** The row-major position of a digit tuple: base `m`, last digit least significant. */
  function Value(d: seq<int>, m: nat): int {
    if |d| == 0 then 0 else Value(d[..|d| - 1], m) * m + d[|d| - 1]
  }

  /** The allocations the source scores: `n` counts, each in `[1, maxb]`. */
  predicate InBox(c: seq<int>, n: nat, maxb: nat) {
    |c| == n && forall i :: 0 <= i < n ==> 1 <= c[i] <= maxb
  }

  /** The ndindex tuple an allocation came from. */
  function ToDigits(c: seq<int>): (d: seq<int>)
    ensures |d| == |c| && forall i :: 0 <= i < |c| ==> d[i] == c[i] - 1
  {
    seq(|c|, i requires 0 <= i < |c| => c[i] - 1)
  }

  /** `np.array(counts) + 1`. */
  function Plus1(d: seq<int>): (c: seq<int>)
    ensures |c| == |d| && forall i :: 0 <= i < |d| ==> c[i] == d[i] + 1
  {
    seq(|d|, i requires 0 <= i < |d| => d[i] + 1)
  }

  /** The position at which the source scores allocation `c`. */
  function Rank(c: seq<int>, maxb: nat): int {
    Value(ToDigits(c), maxb)
  }

  /** Every allocation of the box can be scored without a division by zero. */
  ghost predicate Scorable(blockWeights: seq<real>, pizzaWeights: seq<real>, maxb: nat) {
    forall c :: InBox(c, |blockWeights|, maxb) ==> Defined(c, blockWeights, pizzaWeights)
  }

  /**
    `best` lies in the box, scores no worse than any allocation of the box,
    and every allocation scored before it scores strictly worse.
   */
  ghost predicate IsFirstMinimiser(best: seq<int>, blockWeights: seq<real>, pizzaWeights: seq<real>, maxb: nat)
    requires Scorable(blockWeights, pizzaWeights, maxb)
  {
    InBox(best, |blockWeights|, maxb) &&
    (forall c :: InBox(c, |blockWeights|, maxb) ==>
       LessEq(Error(best, blockWeights, pizzaWeights), Error(c, blockWeights, pizzaWeights))) &&
    (forall c :: InBox(c, |blockWeights|, maxb) && Rank(c, maxb) < Rank(best, maxb) ==>
       Less(Error(best, blockWeights, pizzaWeights), Error(c, blockWeights, pizzaWeights)))
  }

  /**
    With positive block and pizza weights and a pizza weight per variety,
    every allocation of the box can be scored.
   */
  lemma PositiveWeightsScorable(blockWeights: seq<real>, pizzaWeights: seq<real>, maxb: nat)
    requires |blockWeights| <= |pizzaWeights|
    requires forall i :: 0 <= i < |blockWeights| ==> blockWeights[i] > 0.0
    requires forall i :: 0 <= i < |pizzaWeights| ==> pizzaWeights[i] > 0.0
    ensures Scorable(blockWeights, pizzaWeights, maxb)
  {
    if |blockWeights| > 0 {
      SumPositive(pizzaWeights);
    }
  }

  // ---------------------------------------------------------------------
  // The odometer

  /** Splitting a digit tuple splits its value. */
  lemma {:induction false} ValueConcat(a: seq<int>, b: seq<int>, m: nat)
    ensures Value(a + b, m) == Value(a, m) * Pow(m, |b|) + Value(b, m)
  {
    if |b| == 0 {
      assert a + b == a;
    } else {
      var b' := b[..|b| - 1];
      assert (a + b)[..|a + b| - 1] == a + b';
      ValueConcat(a, b', m);
      ShiftDigit(Value(a, m), Pow(m, |b'|), Value(b', m), m, b[|b| - 1]);
    }
  }

  /** Appending a digit to `x * p + y` in base `m`. */
  lemma ShiftDigit(x: int, p: int, y: int, m: int, z: int)
    ensures (x * p + y) * m + z == x * (p * m) + (y * m + z)
  {
  }

  /** All zeros is the first tuple. */
  lemma {:induction false} ValueOfZeros(n: nat, m: nat)
    ensures Value(Fill(n, 0), m) == 0
  {
    if n > 0 {
      assert Fill(n, 0)[..n - 1] == Fill(n - 1, 0);
      ValueOfZeros(n - 1, m);
    }
  }

  /** The value of a digit tuple is a position among the `m^n` tuples. */
  lemma {:induction false} ValueRange(d: seq<int>, m: nat)
    requires Digits(d, m)
    ensures 0 <= Value(d, m) < Pow(m, |d|)
  {
    if |d| > 0 {
      var init := d[..|d| - 1];
      assert Digits(init, m);
      ValueRange(init, m);
      var v, p := Value(init, m), Pow(m, |init|);
      MulMono(0, v, m);
      MulMono(v, p - 1, m);
      LastPosition(p, m);
    }
  }

  /** Two numbers written with a last digit of base `m` agree only if both parts agree. */
  lemma SplitLastDigit(a: int, x: int, b: int, y: int, m: nat)
    requires 0 <= x < m && 0 <= y < m
    requires a * m + x == b * m + y
    ensures a == b && x == y
  {
    LastDigitOrder(a, x, b, y, m);
    LastDigitOrder(b, y, a, x, m);
  }

  /** A smaller leading part gives a smaller number, whatever the last digits. */
  lemma LastDigitOrder(a: int, x: int, b: int, y: int, m: nat)
    requires 0 <= x < m && 0 <= y < m
    ensures a < b ==> a * m + x < b * m + y
  {
    if a < b {
      MulMono(a + 1, b, m);
    }
  }

  /** Distinct digit tuples of the same length have distinct positions. */
  lemma {:induction false} ValueInjective(d: seq<int>, e: seq<int>, m: nat)
    requires Digits(d, m) && Digits(e, m) && |d| == |e|
    requires Value(d, m) == Value(e, m)
    ensures d == e
  {
    if |d| > 0 {
      var k := |d| - 1;
      SplitLastDigit(Value(d[..k], m), d[k], Value(e[..k], m), e[k], m);
      ValueInjective(d[..k], e[..k], m);
      assert d == d[..k] + [d[k]] && e == e[..k] + [e[k]];
    }
  }

  /** The last tuple is the one with every digit maximal. */
  lemma {:induction false} ValueLastIff(d: seq<int>, m: nat)
    requires Digits(d, m)
    ensures Value(d, m) == Pow(m, |d|) - 1 <==> forall i :: 0 <= i < |d| ==> d[i] == m - 1
  {
    if |d| > 0 {
      var k := |d| - 1;
      var init := d[..k];
      assert Digits(init, m);
      ValueLastIff(init, m);
      var p := Pow(m, k);
      LastPosition(p, m);
      assert Value(d, m) == Value(init, m) * m + d[k];
      assert Pow(m, |d|) - 1 == (p - 1) * m + (m - 1);
      if Value(d, m) == Pow(m, |d|) - 1 {
        ValueRange(init, m);
        SplitLastDigit(Value(init, m), d[k], p - 1, m - 1, m);
      }
      assert forall i :: 0 <= i < k ==> init[i] == d[i];
    }
  }

  /** The tuple before position `p * m` ends in the digit `m - 1`. */
  lemma LastPosition(p: int, m: int)
    ensures (p - 1) * m + (m - 1) == p * m - 1
  {
  }

  /**
    One step of the odometer: add one to the last digit, carrying into the
    digits before it. `wrapped` reports that `d` was the last tuple.
   */
  method Advance(d: seq<int>, m: nat) returns (next: seq<int>, wrapped: bool)
    requires Digits(d, m)
    ensures wrapped <==> Value(d, m) == Pow(m, |d|) - 1
    ensures !wrapped ==> |next| == |d| && Digits(next, m) && Value(next, m) == Value(d, m) + 1
  {
    next := d;
    var j := |d|;
    while j > 0 && next[j - 1] == m - 1
      invariant 0 <= j <= |d| && |next| == |d|
      invariant next[..j] == d[..j]
      invariant forall i :: j <= i < |d| ==> next[i] == 0 && d[i] == m - 1
    {
      next := next[j - 1 := 0];
      j := j - 1;
    }
    ValueLastIff(d, m);
    if j == 0 {
      wrapped := true;
    } else {
      assert next[j - 1] == d[j - 1] by { assert next[..j][j - 1] == d[..j][j - 1]; }
      next := next[j - 1 := next[j - 1] + 1];
      wrapped := false;
      CarryDigits(d, next, j, m);
      CarryValue(d, next, j, m);
    }
  }

  /** The carry keeps every entry a digit. */
  lemma CarryDigits(d: seq<int>, next: seq<int>, j: nat, m: nat)
    requires Digits(d, m) && 0 < j <= |d| == |next|
    requires d[j - 1] < m - 1 && next[j - 1] == d[j - 1] + 1
    requires next[..j - 1] == d[..j - 1]
    requires forall i :: j <= i < |d| ==> next[i] == 0
    ensures Digits(next, m)
  {
    forall i | 0 <= i < |next|
      ensures 0 <= next[i] < m
    {
      if i < j - 1 {
        assert next[i] == next[..j - 1][i];
      }
    }
  }

  /** The value of `d` and of `d` with the carry applied at position `j - 1`. */
  lemma {:induction false} CarryValue(d: seq<int>, next: seq<int>, j: nat, m: nat)
    requires Digits(d, m) && 0 < j <= |d| == |next|
    requires d[j - 1] < m - 1 && next[j - 1] == d[j - 1] + 1
    requires next[..j - 1] == d[..j - 1]
    requires forall i :: j <= i < |d| ==> next[i] == 0 && d[i] == m - 1
    ensures Value(next, m) == Value(d, m) + 1
  {
    var t := |d| - j;
    var maxes, zeros := Fill(t, m - 1), Fill(t, 0);
    SplitTail(d, j, m - 1);
    SplitTail(next, j, 0);
    ValueConcat(d[..j], maxes, m);
    ValueConcat(next[..j], zeros, m);
    ValueOfZeros(t, m);
    ValueLastIff(maxes, m);
    var p := Pow(m, t);
    assert d[..j][..j - 1] == next[..j][..j - 1];
    IncrementLast(d[..j], next[..j], m);
    NextBlock(Value(d[..j], m), Value(next[..j], m), p);
  }

  /** Adding one to the last digit adds one to the value. */
  lemma IncrementLast(a: seq<int>, b: seq<int>, m: nat)
    requires |a| == |b| > 0 && a[..|a| - 1] == b[..|b| - 1] && b[|b| - 1] == a[|a| - 1] + 1
    ensures Value(b, m) == Value(a, m) + 1
  {
  }

  /** A tuple whose entries from `j` on are all `x`. */
  lemma SplitTail(d: seq<int>, j: nat, x: int)
    requires j <= |d| && forall i :: j <= i < |d| ==> d[i] == x
    ensures d == d[..j] + Fill(|d| - j, x)
  {
  }

  /** Adding one to a number whose last `t` digits are maximal. */
  lemma NextBlock(v: int, w: int, p: int)
    requires w == v + 1
    ensures w * p + 0 == v * p + (p - 1) + 1
  {
  }

  // ---------------------------------------------------------------------
  // Ranks of allocations

  lemma RankRange(c: seq<int>, n: nat, maxb: nat)
    requires InBox(c, n, maxb)
    ensures 0 <= Rank(c, maxb) < Pow(maxb, n)
  {
    ValueRange(ToDigits(c), maxb);
  }

  /** No two allocations of the box are scored at the same position. */
  lemma RankInjective(c: seq<int>, e: seq<int>, n: nat, maxb: nat)
    requires InBox(c, n, maxb) && InBox(e, n, maxb)
    requires Rank(c, maxb) == Rank(e, maxb)
    ensures c == e
  {
    ValueInjective(ToDigits(c), ToDigits(e), maxb);
    assert forall i :: 0 <= i < n ==> c[i] == ToDigits(c)[i] + 1 == ToDigits(e)[i] + 1 == e[i];
  }

  /** The all-ones allocation is scored first. */
  lemma OnesRankZero(n: nat, maxb: nat)
    ensures Rank(Fill(n, 1), maxb) == 0
  {
    assert ToDigits(Fill(n, 1)) == Fill(n, 0);
    ValueOfZeros(n, maxb);
  }

  /** The box holds exactly one first minimiser: the specification fixes the result. */
  lemma FirstMinimiserUnique(a: seq<int>, b: seq<int>, blockWeights: seq<real>,
                             pizzaWeights: seq<real>, maxb: nat)
    requires Scorable(blockWeights, pizzaWeights, maxb)
    requires IsFirstMinimiser(a, blockWeights, pizzaWeights, maxb)
    requires IsFirstMinimiser(b, blockWeights, pizzaWeights, maxb)
    ensures a == b
  {
    if Rank(a, maxb) == Rank(b, maxb) {
      RankInjective(a, b, |blockWeights|, maxb);
    }
  }

  // ---------------------------------------------------------------------
  // The search

  /**
    berechne_optimal_bloecke. With `maxb >= 1` (or no varieties at all) the
    result is the first minimiser of the box. With `maxb = 0` and at least
    one variety the enumeration is empty and the all-ones start value is
    returned, although it lies outside the box.
   */
  method OptimalBlocks(blockWeights: seq<real>, pizzaWeights: seq<real>, maxb: nat)
    returns (best: seq<int>)
    requires Scorable(blockWeights, pizzaWeights, maxb)
    ensures |best| == |blockWeights|
    ensures |blockWeights| > 0 && maxb == 0 ==> best == Fill(|blockWeights|, 1)
    ensures |blockWeights| == 0 || maxb >= 1 ==> IsFirstMinimiser(best, blockWeights, pizzaWeights, maxb)
  {
    var n := |blockWeights|;
    best := Fill(n, 1);
    var minError := Inf;
    var digits := Fill(n, 0);
    var done := n > 0 && maxb == 0;
    ghost var k := 0;
    ValueOfZeros(n, maxb);
    forall c | InBox(c, n, maxb)
      ensures Rank(c, maxb) >= 0
    {
      RankRange(c, n, maxb);
    }
    while !done
      invariant |best| == n && 0 <= k <= Pow(maxb, n)
      invariant !done ==> |digits| == n && Digits(digits, maxb) && Value(digits, maxb) == k
      invariant done ==> k == Pow(maxb, n)
      invariant minError.Inf? ==> best == Fill(n, 1)
      invariant minError.Fin? ==>
        InBox(best, n, maxb) && Rank(best, maxb) < k && minError == Error(best, blockWeights, pizzaWeights)
      invariant forall c :: InBox(c, n, maxb) && Rank(c, maxb) < k ==>
        LessEq(minError, Error(c, blockWeights, pizzaWeights))
      invariant minError.Fin? ==>
        forall c :: InBox(c, n, maxb) && Rank(c, maxb) < Rank(best, maxb) ==>
          Less(minError, Error(c, blockWeights, pizzaWeights))
      decreases Pow(maxb, n) - k
    {
      ValueRange(digits, maxb);
      var counts := Plus1(digits);
      assert ToDigits(counts) == digits;
      assert InBox(counts, n, maxb) && Rank(counts, maxb) == k;
      var currentError := ComputeError(counts, blockWeights, pizzaWeights);
      forall c | InBox(c, n, maxb) && Rank(c, maxb) == k
        ensures c == counts
      {
        RankInjective(c, counts, n, maxb);
      }
      if Less(currentError, minError) {
        minError := currentError;
        best := counts;
      }
      var wrapped;
      digits, wrapped := Advance(digits, maxb);
      done := wrapped;
      k := k + 1;
    }
    if minError.Inf? && (n == 0 || maxb >= 1) {
      assert InBox(best, n, maxb);
      OnesRankZero(n, maxb);
    }
    forall c | InBox(c, n, maxb)
      ensures Rank(c, maxb) < k
    {
      RankRange(c, n, maxb);
    }
  }

  // ---------------------------------------------------------------------
  // Tie-breaking on a concrete input

  /**
    Two equal varieties: `[1, 1]` and `[2, 2]` both hit the ideal shares,
    and the search keeps the one it meets first.
   */
  lemma TieGoesToFirst()
    ensures Scorable([1.0, 1.0], [1.0, 1.0], 2)
    ensures Error([2, 2], [1.0, 1.0], [1.0, 1.0]) == Error([1, 1], [1.0, 1.0], [1.0, 1.0])
    ensures IsFirstMinimiser([1, 1], [1.0, 1.0], [1.0, 1.0], 2)
    ensures !IsFirstMinimiser([2, 2], [1.0, 1.0], [1.0, 1.0], 2)
  {
    PairScorable();
    EqualCountsScoreZero(1);
    EqualCountsScoreZero(2);
    OnesFirst();
    TwosNotFirst();
  }

  lemma OnesFirst()
    requires Scorable([1.0, 1.0], [1.0, 1.0], 2)
    ensures IsFirstMinimiser([1, 1], [1.0, 1.0], [1.0, 1.0], 2)
  {
    var bw, pw := [1.0, 1.0], [1.0, 1.0];
    EqualCountsScoreZero(1);
    forall c | InBox(c, 2, 2)
      ensures LessEq(Error([1, 1], bw, pw), Error(c, bw, pw))
    {
      var e := Error(c, bw, pw);
      assert e.Fin? ==> e.value >= 0.0;
    }
    forall c | InBox(c, 2, 2)
      ensures Rank(c, 2) >= 0
    {
      RankRange(c, 2, 2);
    }
    OnesRankZero(2, 2);
    assert Fill(2, 1) == [1, 1];
    assert InBox([1, 1], 2, 2);
  }

  lemma TwosNotFirst()
    requires Scorable([1.0, 1.0], [1.0, 1.0], 2)
    ensures !IsFirstMinimiser([2, 2], [1.0, 1.0], [1.0, 1.0], 2)
  {
    EqualCountsScoreZero(1);
    EqualCountsScoreZero(2);
    OnesRankZero(2, 2);
    assert Fill(2, 1) == [1, 1];
    assert Rank([1, 1], 2) < Rank([2, 2], 2) by {
      assert ToDigits([2, 2]) == [1, 1];
      assert Value([1, 1], 2) == 3 by { assert [1, 1][..1] == [1]; assert [1][..0] == []; }
    }
    assert InBox([1, 1], 2, 2);
  }

  lemma PairScorable()
    ensures Scorable([1.0, 1.0], [1.0, 1.0], 2)
  {
    PairSum();
  }

  lemma PairSum()
    ensures Sum([1.0, 1.0]) == 2.0
  {
    assert [1.0, 1.0][..1] == [1.0];
    assert [1.0][..0] == [];
  }

  /** With two equal varieties, equal counts score exactly zero. */
  lemma EqualCountsScoreZero(x: int)
    requires x == 1 || x == 2
    ensures Error([x, x], [1.0, 1.0], [1.0, 1.0]) == Fin(0.0)
  {
    var c, bw, pw := [x, x], [1.0, 1.0], [1.0, 1.0];
    PairSum();
    assert c[..1] == [x] && [x][..0] == [];
    assert bw[..1] == [1.0] && [1.0][..0] == [];
    assert Mass([x], [1.0]) == x as real;
    var total := Mass(c, bw);
    assert total == 2.0 * x as real;
    if x == 1 {
      assert ActualShare(c, bw, total, 0) == 0.5 && ActualShare(c, bw, total, 1) == 0.5;
    } else {
      assert ActualShare(c, bw, total, 0) == 0.5 && ActualShare(c, bw, total, 1) == 0.5;
    }
    assert IdealShare(pw, 0) == 0.5 && IdealShare(pw, 1) == 0.5;
    ErrorZeroIffIdeal(c, bw, pw);
  }
}
