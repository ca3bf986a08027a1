/**
  Splitting the chosen blocks into delivery groups (app.py, aufteilen_in_gruppen).

  When the blocks add up to more than `maxTotal`, they are spread over
  `k = ceil(total / maxTotal)` groups: every group gets `c / k` blocks of a
  variety with `c` blocks, and the first `c % k` groups get one block more.
  Nothing guarantees that a group then holds at most `maxTotal` blocks.
 */
module GroupPartitioner {
  import opened Arithmetic

  datatype Option<T> = None | Some(value: T)

  /** `sum(counts)`, adding from the left. */
  function SumInts(xs: seq<int>): int {
    if |xs| == 0 then 0 else SumInts(xs[..|xs| - 1]) + xs[|xs| - 1]
  }

  /**
    `math.ceil(total / maxTotal)` on exact integers: the number `k` of groups
    with `(k - 1) * maxTotal < total <= k * maxTotal`, at least two once the
    total exceeds the limit.
   */
  function GroupCount(total: int, maxTotal: int): (k: int)
    requires maxTotal > 0
    ensures (k - 1) * maxTotal < total <= k * maxTotal
    ensures total > maxTotal ==> k >= 2
  {
    var n := total + maxTotal - 1;
    var q := n / maxTotal;
    assert n == q * maxTotal + n % maxTotal;
    ShiftDown(q, maxTotal);
    AtLeastTwo(q, maxTotal);
    q
  }

  /**
    The blocks of a variety with `c` blocks that group `g` of `k` receives:
    the base share `c / k`, or one more.
   */
  function Portion(c: int, k: int, g: int): (r: int)
    requires k > 0
    ensures c / k <= r <= c / k + 1
  {
    c / k + (if g < c % k then 1 else 0)
  }

  /** Group `g` of `k`: one portion per variety. */
  function Row(counts: seq<int>, k: int, g: int): seq<int>
    requires k > 0
  {
    seq(|counts|, i requires 0 <= i < |counts| => Portion(counts[i], k, g))
  }

  /** All `k` groups, in order. */
  function Groups(counts: seq<int>, k: int): seq<seq<int>>
    requires k > 0
  {
    seq(k, g requires 0 <= g < k => Row(counts, k, g))
  }

  /**
    The split the source returns. There is none exactly when the limit is not
    positive or the blocks already fit; otherwise the number of groups is the
    least whole number of groups of `maxTotal` that holds them all, it is at
    least two, and each group holds one portion per variety.
   */
  function Split(counts: seq<int>, maxTotal: int): (r: Option<seq<seq<int>>>)
    ensures r.None? <==> maxTotal <= 0 || SumInts(counts) <= maxTotal
    ensures r.Some? ==>
      var k := |r.value|;
      k >= 2 && (k - 1) * maxTotal < SumInts(counts) <= k * maxTotal
    ensures r.Some? ==>
      forall g :: 0 <= g < |r.value| ==>
        |r.value[g]| == |counts| &&
        forall i :: 0 <= i < |counts| ==> r.value[g][i] == Portion(counts[i], |r.value|, g)
  {
    var total := SumInts(counts);
    if maxTotal <= 0 || total <= maxTotal then None
    else
      Some(Groups(counts, GroupCount(total, maxTotal)))
  }

  /** aufteilen_in_gruppen: the nested append loops, proved to compute `Split`. */
  method SplitIntoGroups(counts: seq<int>, maxTotal: int) returns (r: Option<seq<seq<int>>>)
    ensures r == Split(counts, maxTotal)
  {
    var total := SumInts(counts);
    if maxTotal <= 0 || total <= maxTotal {
      return None;
    }
    var k := (total + maxTotal - 1) / maxTotal;
    assert k == GroupCount(total, maxTotal);
    var groups: seq<seq<int>> := [];
    for g := 0 to k
      invariant |groups| == g
      invariant forall h :: 0 <= h < g ==> groups[h] == Row(counts, k, h)
    {
      var group: seq<int> := [];
      for i := 0 to |counts|
        invariant |group| == i
        invariant forall j :: 0 <= j < i ==> group[j] == Portion(counts[j], k, g)
      {
        var basis := counts[i] / k;
        var rest := counts[i] % k;
        if g < rest {
          group := group + [basis + 1];
        } else {
          group := group + [basis];
        }
      }
      assert group == Row(counts, k, g);
      groups := groups + [group];
    }
    assert groups == Groups(counts, k);
    return Some(groups);
  }

  /** No other number of groups satisfies the bounds of `GroupCount`. */
  lemma GroupCountUnique(total: int, maxTotal: int, j: int)
    requires maxTotal > 0 && (j - 1) * maxTotal < total <= j * maxTotal
    ensures j == GroupCount(total, maxTotal)
  {
    var k := GroupCount(total, maxTotal);
    BracketOrder(j, k, maxTotal, total);
    BracketOrder(k, j, maxTotal, total);
  }

  /** If `a` groups hold `t` and `b - 1` groups do not, then `b <= a`. */
  lemma BracketOrder(a: int, b: int, m: int, t: int)
    requires m > 0 && t <= a * m
    ensures (b - 1) * m < t ==> b <= a
  {
    if a < b {
      MulMono(a, b - 1, m);
    }
  }

  lemma ShiftDown(k: int, m: int)
    ensures (k - 1) * m == k * m - m
  {
  }

  /** A multiple of a positive `m` above `m` has a factor of at least two. */
  lemma AtLeastTwo(k: int, m: int)
    requires m > 0
    ensures k * m > m ==> k >= 2
  {
    if k <= 1 {
      MulMono(k, 1, m);
    }
  }

  /** Blocks of variety `i` over the first `j` groups. */
  function ColumnTotal(groups: seq<seq<int>>, i: nat, j: nat): int
    requires j <= |groups|
    requires forall g :: 0 <= g < |groups| ==> i < |groups[g]|
  {
    if j == 0 then 0 else ColumnTotal(groups, i, j - 1) + groups[j - 1][i]
  }

  function Min(a: int, b: int): int {
    if a <= b then a else b
  }

  /** The first `j` groups hold `j` base portions plus one extra per group below the remainder. */
  lemma {:induction false} ColumnPrefix(counts: seq<int>, k: int, i: nat, j: nat)
    requires k > 0 && i < |counts| && j <= k
    ensures ColumnTotal(Groups(counts, k), i, j) == j * (counts[i] / k) + Min(j, counts[i] % k)
  {
    if j > 0 {
      ColumnPrefix(counts, k, i, j - 1);
      ShiftDown(j, counts[i] / k);
    }
  }

  /** Splitting loses and invents no block: each variety's portions add up to its count. */
  lemma SplitConserves(counts: seq<int>, maxTotal: int)
    requires Split(counts, maxTotal).Some?
    ensures var groups := Split(counts, maxTotal).value;
      forall i :: 0 <= i < |counts| ==> ColumnTotal(groups, i, |groups|) == counts[i]
  {
    var total := SumInts(counts);
    var k := GroupCount(total, maxTotal);
    var groups := Split(counts, maxTotal).value;
    assert groups == Groups(counts, k);
    forall i | 0 <= i < |counts|
      ensures ColumnTotal(groups, i, |groups|) == counts[i]
    {
      ColumnPrefix(counts, k, i, k);
      assert counts[i] == k * (counts[i] / k) + counts[i] % k;
    }
  }

  /**
    The split is as even as it can be: along the groups a variety's portion
    never grows, and any two portions of it differ by at most one block.
   */
  lemma SplitBalanced(counts: seq<int>, maxTotal: int)
    requires Split(counts, maxTotal).Some?
    ensures var groups := Split(counts, maxTotal).value;
      forall g, h, i :: 0 <= g <= h < |groups| && 0 <= i < |counts| ==>
        groups[h][i] <= groups[g][i] <= groups[h][i] + 1
  {
    var groups := Split(counts, maxTotal).value;
    forall g, h, i | 0 <= g <= h < |groups| && 0 <= i < |counts|
      ensures groups[h][i] <= groups[g][i] <= groups[h][i] + 1
    {
      PortionOrder(counts[i], |groups|, g, h);
    }
  }

  lemma PortionOrder(c: int, k: int, g: int, h: int)
    requires k > 0 && g <= h
    ensures Portion(c, k, h) <= Portion(c, k, g) <= Portion(c, k, h) + 1
  {
  }

  /** Ten blocks with at most four per group: three groups of two, two and one per variety. */
  lemma FiveAndFiveInThreeGroups()
    ensures Split([5, 5], 4) == Some([[2, 2], [2, 2], [1, 1]])
  {
    assert SumInts([5, 5]) == 10 by {
      assert [5, 5][..1] == [5];
      assert [5][..0] == [];
    }
    assert GroupCount(10, 4) == 3;
    assert Row([5, 5], 3, 0) == [2, 2];
    assert Row([5, 5], 3, 1) == [2, 2];
    assert Row([5, 5], 3, 2) == [1, 1];
    assert Groups([5, 5], 3) == [[2, 2], [2, 2], [1, 1]];
  }

  /** A group may exceed the limit: three single blocks with limit two put all three in the first group. */
  lemma FirstGroupOverLimit()
    ensures Split([1, 1, 1], 2) == Some([[1, 1, 1], [0, 0, 0]])
    ensures SumInts([1, 1, 1]) > 2
  {
    assert SumInts([1, 1, 1]) == 3 by {
      assert [1, 1, 1][..2] == [1, 1];
      assert [1, 1][..1] == [1];
      assert [1][..0] == [];
    }
    assert GroupCount(3, 2) == 2;
    assert Row([1, 1, 1], 2, 0) == [1, 1, 1];
    assert Row([1, 1, 1], 2, 1) == [0, 0, 0];
    assert Groups([1, 1, 1], 2) == [[1, 1, 1], [0, 0, 0]];
  }
}
