/** The promise of the `NumberService` interface stated over the sequence of
    numbers taken so far: the smallest, the largest and the average of them,
    and the four cells (min, max, sum, counter) that encode those answers. */
module NumberStats {
  import opened Wrappers

  function Min(a: int, b: int): int { if a <= b then a else b }
  function Max(a: int, b: int): int { if a >= b then a else b }

  /** The smallest element, folded from the left as `Collections.min` does. */
  function SeqMin(s: seq<int>): (m: int)
    requires |s| > 0
    ensures m in s
    ensures forall i :: 0 <= i < |s| ==> m <= s[i]
  {
    if |s| == 1 then s[0] else Min(SeqMin(s[..|s| - 1]), s[|s| - 1])
  }

  /** The largest element, folded from the left as `Collections.max` does. */
  function SeqMax(s: seq<int>): (m: int)
    requires |s| > 0
    ensures m in s
    ensures forall i :: 0 <= i < |s| ==> s[i] <= m
  {
    if |s| == 1 then s[0] else Max(SeqMax(s[..|s| - 1]), s[|s| - 1])
  }

  /** The exact total, as `reduce(BigInteger.ZERO, BigInteger::add)` gives it. */
  function Sum(s: seq<int>): int
  {
    if s == [] then 0 else Sum(s[..|s| - 1]) + s[|s| - 1]
  }

  /** The total of non-negative numbers is non-negative and at least each
      of them. */
  lemma {:induction false} SumOfNonNegatives(s: seq<int>)
    requires forall i :: 0 <= i < |s| ==> s[i] >= 0
    ensures Sum(s) >= 0
    ensures forall i :: 0 <= i < |s| ==> s[i] <= Sum(s)
  {
    if s != [] {
      SumOfNonNegatives(s[..|s| - 1]);
    }
  }

  /** Every element lies in [lo, hi], so the total lies in [|s| * lo, |s| * hi]. */
  lemma {:induction false} SumBounds(s: seq<int>, lo: int, hi: int)
    requires forall i :: 0 <= i < |s| ==> lo <= s[i] <= hi
    ensures |s| * lo <= Sum(s) <= |s| * hi
  {
    if s != [] {
      SumBounds(s[..|s| - 1], lo, hi);
      assert |s| * lo == (|s| - 1) * lo + lo;
      assert |s| * hi == (|s| - 1) * hi + hi;
    }
  }

  /** Division truncating toward zero, as `BigInteger.divide` does: the
      remainder is smaller than the divisor and takes the dividend's sign. */
  function TruncDiv(a: int, b: int): (q: int)
    requires b != 0
    ensures -Abs(b) < a - q * b < Abs(b)
    ensures a >= 0 ==> a - q * b >= 0
    ensures a <= 0 ==> a - q * b <= 0
  {
    if a >= 0 && b > 0 then DivRemainder(a, b); a / b
    else if a >= 0 then DivRemainder(a, -b); MulNeg(a / -b, b); -(a / -b)
    else if b > 0 then DivRemainder(-a, b); MulNeg(-a / b, b); -(-a / b)
    else DivRemainder(-a, -b); MulNeg(-a / -b, b); -a / -b
  }

  /** Euclidean division of a non-negative number leaves a remainder below
      the divisor. */
  lemma DivRemainder(a: int, b: int)
    requires a >= 0 && b > 0
    ensures 0 <= a - (a / b) * b < b
  {
  }

  lemma MulNeg(x: int, y: int)
    ensures (-x) * y == -(x * y) == x * (-y)
  {
  }

  function Abs(x: int): int { if x < 0 then -x else x }

  /** The four cells of the service: min, max and sum are unset (`None`,
      Java's `null`) until a number arrives; the counter starts at zero. */
  datatype Cells = Cells(min: Option<int>, max: Option<int>, sum: Option<int>, count: int)

  const Fresh: Cells := Cells(None, None, None, 0)

  /** `updateMinNumber`: the candidate becomes the cell if the cell is unset
      or the candidate is smaller. */
  function FoldMin(cell: Option<int>, x: int): (r: Option<int>)
    ensures r.Some? && r.value <= x
    ensures cell.Some? ==> r.value <= cell.value
    ensures r == Some(x) || r == cell
  {
    if cell.None? then Some(x) else Some(Min(cell.value, x))
  }

  /** `updateMaxNumber`: the candidate becomes the cell if the cell is unset
      or the candidate is larger. */
  function FoldMax(cell: Option<int>, x: int): (r: Option<int>)
    ensures r.Some? && x <= r.value
    ensures cell.Some? ==> cell.value <= r.value
    ensures r == Some(x) || r == cell
  {
    if cell.None? then Some(x) else Some(Max(cell.value, x))
  }

  /** `updateSumNumber`: an unset cell takes the candidate, a set one adds it. */
  function FoldSum(cell: Option<int>, x: int): (r: Option<int>)
    ensures r.Some?
    ensures cell.None? ==> r.value == x
    ensures cell.Some? ==> r.value - cell.value == x
  {
    if cell.None? then Some(x) else Some(cell.value + x)
  }

  /** The effect of `takeNumber(x)` on the cells, once `x` is accepted:
      max, min and sum fold in `x` and the counter grows by one. */
  function Step(c: Cells, x: int): (r: Cells)
    ensures r.count == c.count + 1
    ensures r.min.Some? && r.max.Some? && r.sum.Some?
    ensures r.min.value <= x <= r.max.value
    ensures c.min.Some? ==> r.min.value <= c.min.value
    ensures c.max.Some? ==> c.max.value <= r.max.value
    ensures r.sum.value == x + (if c.sum.Some? then c.sum.value else 0)
  {
    Cells(FoldMin(c.min, x), FoldMax(c.max, x), FoldSum(c.sum, x), c.count + 1)
  }

  /** `takeNumber` applied to each element of `xs` in turn. */
  function Steps(c: Cells, xs: seq<int>): (r: Cells)
    ensures r.count == c.count + |xs|
    ensures xs != [] ==> r.min.Some? && r.max.Some? && r.sum.Some?
    ensures r.min.Some? ==> forall i :: 0 <= i < |xs| ==> r.min.value <= xs[i]
    ensures r.max.Some? ==> forall i :: 0 <= i < |xs| ==> xs[i] <= r.max.value
  {
    if xs == [] then c else Step(Steps(c, xs[..|xs| - 1]), xs[|xs| - 1])
  }

  /** The effect of `takeNumbers(xs)` on the cells, once every element is
      accepted: the batch's own max, min and sum are each folded in once and
      the counter grows by the batch size. */
  function Batch(c: Cells, xs: seq<int>): (r: Cells)
    requires |xs| > 0
    ensures r.count == c.count + |xs|
    ensures r.min.Some? && r.max.Some? && r.sum.Some?
    ensures forall i :: 0 <= i < |xs| ==> r.min.value <= xs[i] <= r.max.value
    ensures c.min.Some? ==> r.min.value <= c.min.value
    ensures c.max.Some? ==> c.max.value <= r.max.value
  {
    Cells(FoldMin(c.min, SeqMin(xs)), FoldMax(c.max, SeqMax(xs)), FoldSum(c.sum, Sum(xs)), c.count + |xs|)
  }

  /** What the cells must hold after the numbers `s` have been taken by a
      fresh service: nothing while `s` is empty, otherwise its smallest
      element, largest element and total, and always its length. */
  function Abstract(s: seq<int>): (c: Cells)
    ensures c.count == |s|
    ensures c.min.None? <==> s == []
    ensures c.max.None? <==> s == []
    ensures c.sum.None? <==> c.count == 0
  {
    if s == [] then Fresh
    else Cells(Some(SeqMin(s)), Some(SeqMax(s)), Some(Sum(s)), |s|)
  }

  /** Folding two candidates one after the other is folding their min, max
      and sum once. */
  lemma FoldTwice(cell: Option<int>, a: int, b: int)
    ensures FoldMin(FoldMin(cell, a), b) == FoldMin(cell, Min(a, b))
    ensures FoldMax(FoldMax(cell, a), b) == FoldMax(cell, Max(a, b))
    ensures FoldSum(FoldSum(cell, a), b) == FoldSum(cell, a + b)
  {
  }

  /** A batch has the same effect on any cells as taking its elements one
      at a time, in order. */
  lemma {:induction false} BatchIsSteps(c: Cells, xs: seq<int>)
    requires |xs| > 0
    ensures Batch(c, xs) == Steps(c, xs)
  {
    if |xs| == 1 {
      assert xs[..0] == [];
      assert Sum(xs) == xs[0] by { assert xs[..0] == []; }
    } else {
      var init, last := xs[..|xs| - 1], xs[|xs| - 1];
      BatchIsSteps(c, init);
      FoldTwice(c.min, SeqMin(init), last);
      FoldTwice(c.max, SeqMax(init), last);
      FoldTwice(c.sum, Sum(init), last);
    }
  }

  /** Taking one number from the cells of `s` gives the cells of `s + [x]`. */
  lemma AbstractStep(s: seq<int>, x: int)
    ensures Step(Abstract(s), x) == Abstract(s + [x])
  {
    var t := s + [x];
    assert t[..|t| - 1] == s;
    if s == [] {
      assert t == [x];
      assert Sum(t) == x by { assert t[..0] == []; }
    }
  }

  lemma SplitLast(s: seq<int>, xs: seq<int>)
    requires xs != []
    ensures s + xs == (s + xs[..|xs| - 1]) + [xs[|xs| - 1]]
  {
    assert xs == xs[..|xs| - 1] + [xs[|xs| - 1]];
  }

  /** Taking numbers one by one from the cells of `s` gives the cells of
      `s + xs`. */
  lemma {:induction false} AbstractSteps(s: seq<int>, xs: seq<int>)
    ensures Steps(Abstract(s), xs) == Abstract(s + xs)
  {
    if xs == [] {
      assert s + xs == s;
    } else {
      var init, last := xs[..|xs| - 1], xs[|xs| - 1];
      AbstractSteps(s, init);
      AbstractStep(s + init, last);
      SplitLast(s, xs);
    }
  }

  /** Taking a batch from the cells of `s` gives the cells of `s + xs`. */
  lemma AbstractBatch(s: seq<int>, xs: seq<int>)
    requires |xs| > 0
    ensures Batch(Abstract(s), xs) == Abstract(s + xs)
  {
    BatchIsSteps(Abstract(s), xs);
    AbstractSteps(s, xs);
  }

  /** Taking numbers never raises the min, never lowers the max, keeps a set
      cell set and never lowers the counter; with non-negative numbers the
      sum never falls either. */
  lemma {:induction false} StepsMonotone(c: Cells, xs: seq<int>)
    requires forall i :: 0 <= i < |xs| ==> xs[i] >= 0
    ensures Steps(c, xs).count == c.count + |xs|
    ensures c.min.Some? ==> Steps(c, xs).min.Some? && Steps(c, xs).min.value <= c.min.value
    ensures c.max.Some? ==> Steps(c, xs).max.Some? && Steps(c, xs).max.value >= c.max.value
    ensures c.sum.Some? ==> Steps(c, xs).sum.Some? && Steps(c, xs).sum.value >= c.sum.value
  {
    if xs != [] {
      StepsMonotone(c, xs[..|xs| - 1]);
    }
  }

  /** Once a number has been taken, min <= max. */
  lemma MinAtMostMax(s: seq<int>)
    requires |s| > 0
    ensures Abstract(s).min.value <= Abstract(s).max.value
  {
    assert SeqMin(s) <= s[0] <= SeqMax(s);
  }

  lemma MulMonotone(a: int, b: int, n: nat)
    requires a <= b
    ensures a * n <= b * n
  {
  }

  /** For a non-negative dividend and a positive divisor, truncation is the
      floor: `q * b <= a < q * b + b`. */
  lemma TruncDivFloor(a: int, b: int)
    requires a >= 0 && b > 0
    ensures TruncDiv(a, b) * b <= a < TruncDiv(a, b) * b + b
  {
  }

  /** A quotient bracketed by `lo * n <= a < q * n + n` is at least `lo`. */
  lemma QuotientBounds(a: int, n: int, q: int, lo: int, hi: int)
    requires n > 0
    requires q * n <= a < q * n + n
    requires lo * n <= a <= hi * n
    ensures lo <= q <= hi
  {
    if q < lo {
      MulMonotone(q + 1, lo, n);
    }
    if q > hi {
      MulMonotone(hi + 1, q, n);
    }
  }

  /** The truncated average lies between the smallest and the largest
      number; with non-negative numbers it is the floor of the mean. */
  lemma AverageBetweenMinAndMax(s: seq<int>)
    requires |s| > 0
    requires forall i :: 0 <= i < |s| ==> s[i] >= 0
    ensures SeqMin(s) <= TruncDiv(Sum(s), |s|) <= SeqMax(s)
  {
    var lo, hi, n := SeqMin(s), SeqMax(s), |s|;
    SumBounds(s, lo, hi);
    MulMonotone(0, lo, n);
    TruncDivFloor(Sum(s), n);
    QuotientBounds(Sum(s), n, TruncDiv(Sum(s), n), lo, hi);
  }
}
