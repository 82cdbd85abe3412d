/**
 Sampling a tabulated distribution by inverting its cumulative distribution function, over exact
 reals.  A table of n weights stands for the density that is constant on each of n equal cells.
 */
module InverseTransform {
  import opened Arithmetic
  import opened Bytes

  // --- cumulative distribution functions ---------------------------------------------------------

  /** The sum of the first `k` weights. */
  function Prefix(w: seq<real>, k: nat): real
    requires k <= |w|
  {
    if k == 0 then 0.0 else Prefix(w, k - 1) + w[k - 1]
  }

  function Total(w: seq<real>): real {
    Prefix(w, |w|)
  }

  function PartialSums(w: seq<real>): (s: seq<real>)
    ensures |s| == |w|
  {
    seq(|w|, k requires 0 <= k < |w| => Prefix(w, k + 1))
  }

  function Divided(s: seq<real>, d: real): (r: seq<real>)
    requires d != 0.0
    ensures |r| == |s|
  {
    seq(|s|, k requires 0 <= k < |s| => s[k] / d)
  }

  function Cdf(w: seq<real>): (c: seq<real>)
    requires Total(w) != 0.0
    ensures |c| == |w|
  {
    Divided(PartialSums(w), Total(w))
  }

  /** Weights that make a distribution: none negative, not all zero. */
  ghost predicate Weights(w: seq<real>) {
    (forall k :: 0 <= k < |w| ==> w[k] >= 0.0) && Total(w) > 0.0
  }

  /** The value of the distribution function at the left end of cell `i`. */
  function Below(c: seq<real>, i: nat): real
    requires i <= |c|
  {
    if i == 0 then 0.0 else c[i - 1]
  }

  ghost predicate IsCdf(c: seq<real>) {
    && c != [] && c[|c| - 1] == 1.0
    && (forall i :: 0 <= i < |c| ==> Below(c, i) <= c[i])
  }

  /** The step of the distribution function over cell `i` is the cell's share of the weight. */
  lemma CdfStep(w: seq<real>, i: nat)
    requires Total(w) != 0.0 && i < |w|
    ensures Cdf(w)[i] - Below(Cdf(w), i) == w[i] / Total(w)
  {
    var t := Total(w);
    assert Cdf(w)[i] == Prefix(w, i + 1) / t;
    assert Below(Cdf(w), i) == Prefix(w, i) / t;
    SumOfQuotients(Prefix(w, i), w[i], t);
  }

  lemma SumOfQuotients(x: real, y: real, t: real)
    requires t != 0.0
    ensures (x + y) / t == x / t + y / t
  {
  }

  lemma QuotientSign(x: real, t: real)
    requires x >= 0.0 && t > 0.0
    ensures x / t >= 0.0
  {
  }

  lemma WeightsGiveCdf(w: seq<real>)
    requires Weights(w)
    ensures IsCdf(Cdf(w))
  {
    var c := Cdf(w);
    LastIsOne(w);
    forall i | 0 <= i < |c|
      ensures Below(c, i) <= c[i]
    {
      CdfRises(w, i);
    }
  }

  lemma LastIsOne(w: seq<real>)
    requires w != [] && Total(w) != 0.0
    ensures Cdf(w)[|w| - 1] == 1.0
  {
    assert Cdf(w)[|w| - 1] == Total(w) / Total(w);
    hide *;
  }

  lemma CdfRises(w: seq<real>, i: nat)
    requires Weights(w) && i < |w|
    ensures Below(Cdf(w), i) <= Cdf(w)[i]
  {
    CdfStep(w, i);
    QuotientSign(w[i], Total(w));
    hide *;
  }

  lemma {:induction false} CdfIsSorted(c: seq<real>, i: nat, j: nat)
    requires IsCdf(c) && i <= j <= |c|
    ensures Below(c, i) <= Below(c, j)
    decreases j - i
  {
    if i == j {
    } else {
      CdfIsSorted(c, i + 1, j);
    }
  }

  // --- drawing from one table --------------------------------------------------------------------

  /** What `std::lower_bound` finds: the first place whose value is not below `x`. */
  ghost predicate IsLowerBound(c: seq<real>, x: real, i: nat) {
    && i <= |c|
    && (forall k :: 0 <= k < i ==> c[k] < x)
    && (i < |c| ==> x <= c[i])
  }

  /** The place itself; there is always one. */
  ghost function FirstNotBelow(c: seq<real>, x: real): (i: nat)
    ensures IsLowerBound(c, x, i)
  {
    if c == [] then 0
    else
      var last := |c| - 1;
      var i := FirstNotBelow(c[..last], x);
      if i < last then i else if c[last] < x then |c| else last
  }

  // Quotients, like products, are named so that proofs can hide them from the solver.

  function Ratio(a: real, b: real): real
    requires b != 0.0
  {
    a / b
  }

  lemma ProductSign(a: real, b: real)
    requires b > 0.0
    ensures Product(a, b) > 0.0 <==> a > 0.0
    ensures Product(b, a) > 0.0 <==> a > 0.0
    ensures Product(b, a) == 0.0 <==> a == 0.0
  {
  }

  lemma ProductOfSum(a: real, b: real, n: real)
    ensures Product(a + b, n) == Product(a, n) + Product(b, n)
    ensures Product(a - b, n) == Product(a, n) - Product(b, n)
  {
  }

  lemma ProductOfRatio(a: real, n: real)
    requires n > 0.0
    ensures Product(Ratio(a, n), n) == a
  {
  }

  lemma RatioOfProduct(a: real, n: real, h: real)
    requires n > 0.0 && h > 0.0
    ensures Product(n, h) > 0.0
    ensures Product(Ratio(a, Product(n, h)), n) == Ratio(a, h)
  {
    var q := a / (n * h);
    assert q * (n * h) == a;
    assert (q * n) * h == q * (n * h);
    assert q * n == a / h;
  }

  lemma ShareBounds(a: real, h: real)
    requires 0.0 <= a <= h && h > 0.0
    ensures 0.0 <= Ratio(a, h) <= 1.0
    ensures Ratio(a, h) > 0.0 <==> a > 0.0
    ensures Product(Ratio(a, h), h) == a
  {
    var q := a / h;
    assert q * h == a;
    assert (1.0 - q) * h == h - a;
  }

  /** The value is `None` for the quotient 0 / 0. */
  datatype Draw = Draw(value: Option<real>, pdf: real, index: nat)

  /** The three branches of `sampleCdf1D` once the lower bound `i` is known. */
  function DrawFrom(c: seq<real>, x: real, i: nat): Draw
    requires 0 < |c| && i <= |c| && (i == |c| ==> |c| >= 2)
  {
    var n := |c| as real;
    if i == 0 then
      var pdf := Product(n, c[0]);
      Draw(if pdf == 0.0 then None else Some(Ratio(x, pdf)), pdf, 0)
    else if i == |c| then
      Draw(Some(1.0), Product(n, c[|c| - 1] - c[|c| - 2]), |c| - 1)
    else
      var pdf := Product(n, c[i] - c[i - 1]);
      Draw(if pdf == 0.0 then None else Some(Ratio(i as real, n) + Ratio(x - c[i - 1], pdf)), pdf, i)
  }

  /** The piecewise linear function through the tabulated values. */
  function Eval(c: seq<real>, v: real): real
    requires c != []
  {
    var cell := Product(v, |c| as real).Floor;
    if 0 <= cell < |c| then
      Below(c, cell) + Product(Product(v, |c| as real) - cell as real, c[cell] - Below(c, cell))
    else 1.0
  }

  /** The samples that belong to cell `i`; the first cell also has the sample 0. */
  predicate InSlice(c: seq<real>, x: real, i: nat) {
    i < |c| && x <= c[i] && (i == 0 || c[i - 1] < x)
  }

  /** Cell `i` is found exactly for the samples in its slice of the distribution function. */
  lemma LowerBoundIsSlice(c: seq<real>, x: real, i: nat)
    requires IsCdf(c) && 0.0 <= x <= 1.0
    ensures IsLowerBound(c, x, i) <==> InSlice(c, x, i)
  {
    if InSlice(c, x, i) {
      forall k | 0 <= k < i
        ensures c[k] < x
      {
        CdfIsSorted(c, k + 1, i);
      }
    }
  }

  lemma LowerBoundIsUnique(c: seq<real>, x: real, i: nat, j: nat)
    requires IsLowerBound(c, x, i) && IsLowerBound(c, x, j)
    ensures i == j
  {
  }

  /** The slope the draw divides by is not 0; it is only for sample 0 and a first cell without weight. */
  predicate HasDraw(c: seq<real>, x: real)
    requires c != []
  {
    x > 0.0 || c[0] > 0.0
  }

  /** The cell found has weight exactly when the draw has a value. */
  lemma CellHasWeight(c: seq<real>, x: real, i: nat)
    requires IsCdf(c) && 0.0 <= x <= 1.0 && InSlice(c, x, i)
    ensures Below(c, i) <= x <= c[i]
    ensures Below(c, i) < c[i] <==> HasDraw(c, x)
    ensures x > 0.0 ==> Below(c, i) < x
  {
    assert Below(c, i) <= c[i];
    if x == 0.0 {
      CdfIsSorted(c, 0, i);
    }
  }

  /** The value in units of cells: the cell's number and the share of its slice below the sample. */
  lemma ValueInCells(c: seq<real>, x: real, i: nat)
    requires i < |c| && Below(c, i) < c[i] && Below(c, i) <= x
    ensures var d := DrawFrom(c, x, i);
      && d.index == i && d.pdf == Product(|c| as real, c[i] - Below(c, i)) && d.pdf > 0.0 && d.value.Some?
      && Product(d.value.value, |c| as real) == i as real + Ratio(x - Below(c, i), c[i] - Below(c, i))
  {
    hide Product, Ratio;
    var n := |c| as real;
    var h := c[i] - Below(c, i);
    RatioOfProduct(x - Below(c, i), n, h);
    if i > 0 {
      ProductOfRatio(i as real, n);
      ProductOfSum(Ratio(i as real, n), Ratio(x - Below(c, i), Product(n, h)), n);
    }
  }

  lemma EvalInCells(c: seq<real>, v: real, i: nat, t: real)
    requires c != [] && c[|c| - 1] == 1.0 && i < |c|
    requires 0.0 <= t <= 1.0 && Product(v, |c| as real) == i as real + t
    ensures Eval(c, v) == Below(c, i) + Product(t, c[i] - Below(c, i))
  {
    var h := c[i] - Below(c, i);
    assert Product(1.0, h) == h;
    if t == 1.0 {
      if i + 1 < |c| {
        assert Product(0.0, c[i + 1] - Below(c, i + 1)) == 0.0;
      }
      hide Product;
      assert Product(v, |c| as real).Floor == i + 1;
    } else {
      hide Product;
      assert Product(v, |c| as real).Floor == i;
    }
  }

  lemma Unscale(v: real, n: real)
    requires n > 0.0 && 0.0 <= Product(v, n) <= n
    ensures 0.0 <= v <= 1.0
  {
    if v < 0.0 {
      ProductSign(-v, n);
    }
    if v > 1.0 {
      ProductSign(v - 1.0, n);
    }
  }

  /** A draw from a cell without weight is 0 / 0. */
  lemma NoValue(c: seq<real>, x: real, i: nat)
    requires IsCdf(c) && InSlice(c, x, i) && Below(c, i) == c[i]
    ensures DrawFrom(c, x, i) == Draw(None, 0.0, i)
  {
    assert Product(|c| as real, 0.0) == 0.0;
  }

  /** Where the value of a draw lies, in units of cells, and what the distribution function makes of it. */
  lemma ValueLies(c: seq<real>, x: real, i: nat)
    requires IsCdf(c) && 0.0 <= x <= 1.0 && InSlice(c, x, i) && HasDraw(c, x)
    ensures var d, n := DrawFrom(c, x, i), |c| as real;
      && d.index == i && d.pdf == Product(n, c[i] - Below(c, i)) && d.pdf > 0.0
      && d.value.Some? && 0.0 <= d.value.value <= 1.0 && Eval(c, d.value.value) == x
      && i as real <= Product(d.value.value, n) <= (i + 1) as real
      && (x > 0.0 ==> i as real < Product(d.value.value, n))
  {
    CellHasWeight(c, x, i);
    hide InSlice, DrawFrom, Eval, Product, Ratio;
    ValueInCells(c, x, i);
    var h, a := c[i] - Below(c, i), x - Below(c, i);
    ShareBounds(a, h);
    var v := DrawFrom(c, x, i).value.value;
    Unscale(v, |c| as real);
    EvalInCells(c, v, i, Ratio(a, h));
  }

  /**
   For every sample in [0, 1]: the draw has a value in [0, 1] that the distribution function maps back
   to the sample if and only if the sample is not 0 or the first cell has weight.  The value then lies
   in the cell found, and the density reported is always the slope over that cell.
   */
  lemma DrawInvertsCdf(c: seq<real>, x: real, i: nat)
    requires IsCdf(c) && 0.0 <= x <= 1.0 && IsLowerBound(c, x, i)
    ensures i < |c|
    ensures var d := DrawFrom(c, x, i);
      && d.index == i && d.pdf == Product(|c| as real, c[i] - Below(c, i))
      && (d.value.Some? && 0.0 <= d.value.value <= 1.0 && Eval(c, d.value.value) == x <==> HasDraw(c, x))
      && (d.pdf > 0.0 <==> HasDraw(c, x)) && (d.value.Some? <==> HasDraw(c, x))
      && (HasDraw(c, x) ==>
            && i as real <= Product(d.value.value, |c| as real) <= (i + 1) as real
            && (x > 0.0 ==> i as real < Product(d.value.value, |c| as real)))
  {
    LowerBoundIsSlice(c, x, i);
    CellHasWeight(c, x, i);
    if HasDraw(c, x) {
      ValueLies(c, x, i);
      hide *;
    } else {
      assert Below(c, i) <= c[i];
      NoValue(c, x, i);
      assert Product(|c| as real, 0.0) == 0.0;
    }
  }

  /** Sample 0 gives 0, which the distribution function maps to 0, unless the first cell has no weight. */
  lemma DrawOfZero(c: seq<real>, i: nat)
    requires IsCdf(c) && IsLowerBound(c, 0.0, i)
    ensures i == 0
    ensures DrawFrom(c, 0.0, 0).value == if c[0] == 0.0 then None else Some(0.0)
    ensures c[0] > 0.0 ==> Eval(c, 0.0) == 0.0
  {
    LowerBoundIsSlice(c, 0.0, i);
    CellHasWeight(c, 0.0, i);
    assert i == 0 by {
      CdfIsSorted(c, 0, i);
    }
    DrawInvertsCdf(c, 0.0, 0);
    assert c[0] > 0.0 ==> DrawFrom(c, 0.0, 0).value == Some(Ratio(0.0, Product(|c| as real, c[0])));
  }

  /** Larger samples give strictly larger values, from sample 0 on where it has one. */
  lemma DrawIsStrictlyIncreasing(c: seq<real>, x: real, i: nat, y: real, j: nat)
    requires IsCdf(c) && 0.0 <= x < y <= 1.0 && IsLowerBound(c, x, i) && IsLowerBound(c, y, j)
    ensures i <= j < |c| && DrawFrom(c, y, j).value.Some?
    ensures DrawFrom(c, x, i).value.Some? && DrawFrom(c, x, i).value.value < DrawFrom(c, y, j).value.value
      <==> HasDraw(c, x)
  {
    DrawInvertsCdf(c, x, i);
    DrawInvertsCdf(c, y, j);
    if HasDraw(c, x) {
      var v, w := DrawFrom(c, x, i).value.value, DrawFrom(c, y, j).value.value;
      DrawHasDistribution(c, y, j, v);
    }
  }

  // --- the distribution of the draws -------------------------------------------------------------

  lemma ProductIsMonotone(s: real, t: real, h: real)
    requires h >= 0.0
    ensures s <= t ==> Product(s, h) <= Product(t, h)
    ensures s < t && h > 0.0 ==> Product(s, h) < Product(t, h)
    ensures Product(0.0, h) == 0.0 && Product(1.0, h) == h
  {
    ProductOfSum(t, s, h);
    if s < t && h > 0.0 {
      ProductSign(t - s, h);
    }
  }

  /** Left of cell `i` the function is at most its value at the left end of that cell. */
  lemma EvalAtMost(c: seq<real>, v: real, i: nat)
    requires IsCdf(c) && i <= |c| && 0.0 <= Product(v, |c| as real) < i as real
    ensures Eval(c, v) <= Below(c, i)
  {
    var k: nat := Product(v, |c| as real).Floor;
    ProductIsMonotone(Product(v, |c| as real) - k as real, 1.0, c[k] - Below(c, k));
    CdfIsSorted(c, k + 1, i);
  }

  /** Right of it, at least. */
  lemma EvalAtLeast(c: seq<real>, v: real, i: nat)
    requires IsCdf(c) && i <= |c| && i as real <= Product(v, |c| as real) <= |c| as real
    ensures Eval(c, v) >= Below(c, i)
  {
    var k: nat := Product(v, |c| as real).Floor;
    if k < |c| {
      ProductIsMonotone(0.0, Product(v, |c| as real) - k as real, c[k] - Below(c, k));
      CdfIsSorted(c, i, k);
    } else {
      CdfIsSorted(c, i, |c|);
    }
  }

  /** Within one cell the function rises strictly. */
  lemma EvalWithinCell(c: seq<real>, v: real, w: real, i: nat)
    requires IsCdf(c) && i < |c| && Below(c, i) < c[i]
    requires i as real <= Product(v, |c| as real) <= (i + 1) as real
    requires i as real <= Product(w, |c| as real) <= (i + 1) as real
    ensures Eval(c, v) <= Eval(c, w) <==> v <= w
  {
    hide Eval, Product;
    var n, h := |c| as real, c[i] - Below(c, i);
    var s, t := Product(v, n) - i as real, Product(w, n) - i as real;
    EvalInCells(c, v, i, s);
    EvalInCells(c, w, i, t);
    ProductIsMonotone(s, t, h);
    ProductIsMonotone(t, s, h);
    ProductIsMonotone(v, w, n);
    ProductIsMonotone(w, v, n);
  }

  lemma ScaleUp(v: real, n: real)
    requires 0.0 <= v <= 1.0 && n > 0.0
    ensures 0.0 <= Product(v, n) <= n
  {
    ProductIsMonotone(0.0, v, n);
    ProductIsMonotone(v, 1.0, n);
  }

  /**
   The draws have the distribution the table defines: the draw of a sample is at most `v` exactly when
   the sample is at most the value of the distribution function at `v`.
   */
  lemma DrawHasDistribution(c: seq<real>, x: real, i: nat, v: real)
    requires IsCdf(c) && 0.0 <= x <= 1.0 && IsLowerBound(c, x, i) && HasDraw(c, x) && 0.0 <= v <= 1.0
    ensures i < |c| && DrawFrom(c, x, i).value.Some?
    ensures DrawFrom(c, x, i).value.value <= v <==> x <= Eval(c, v)
  {
    LowerBoundIsSlice(c, x, i);
    CellHasWeight(c, x, i);
    ValueLies(c, x, i);
    hide IsLowerBound, DrawFrom, Eval, Product, Ratio;
    var n, u := |c| as real, DrawFrom(c, x, i).value.value;
    ScaleUp(v, n);
    ProductIsMonotone(u, v, n);
    ProductIsMonotone(v, u, n);
    if Product(v, n) < i as real {
      EvalAtMost(c, v, i);
    } else if Product(v, n) > (i + 1) as real {
      EvalAtLeast(c, v, i + 1);
    } else {
      EvalWithinCell(c, u, v, i);
    }
  }

  // --- tables as the class holds them ------------------------------------------------------------

  /** A number of the source: a real, or the undefined result of 0 / 0, which no comparison holds of. */
  type Number = Option<real>

  function Times(n: real, x: Number): Number {
    if x.None? then None else Some(Product(n, x.value))
  }

  function Quotient(x: real, d: Number): Number {
    if d.None? || d.value == 0.0 then None else Some(Ratio(x, d.value))
  }

  predicate Less(a: Number, x: real) {
    a.Some? && a.value < x
  }

  function Numbers(s: seq<real>): (r: seq<Number>)
    ensures |r| == |s| && forall k :: 0 <= k < |s| ==> r[k] == Some(s[k])
  {
    seq(|s|, k requires 0 <= k < |s| => Some(s[k]))
  }

  /** The normalised running sums; undefined all the way if the weights add up to 0. */
  function Table(w: seq<real>): (t: seq<Number>)
    ensures |t| == |w|
  {
    seq(|w|, k requires 0 <= k < |w| => Quotient(Prefix(w, k + 1), Some(Total(w))))
  }

  ghost predicate NotNegative(w: seq<real>) {
    forall k :: 0 <= k < |w| ==> w[k] >= 0.0
  }

  lemma TableIsCdf(w: seq<real>)
    ensures Total(w) != 0.0 ==> Table(w) == Numbers(Cdf(w))
    ensures Total(w) == 0.0 ==> forall k :: 0 <= k < |w| ==> Table(w)[k] == None
  {
    hide Prefix;
    if Total(w) != 0.0 {
      forall k | 0 <= k < |w|
        ensures Table(w)[k] == Some(Cdf(w)[k])
      {
        assert Cdf(w)[k] == Prefix(w, k + 1) / Total(w);
      }
    }
  }

  /** No weight comes without a sum, so the only division by 0 is that of 0. */
  lemma {:induction false} SumsOfNothing(w: seq<real>, k: nat)
    requires NotNegative(w) && k <= |w|
    ensures 0.0 <= Prefix(w, k) <= Total(w)
    ensures k < |w| ==> w[k] <= Total(w)
    decreases |w| - k
  {
    PrefixIsNotNegative(w, k);
    if k == |w| {
    } else {
      SumsOfNothing(w, k + 1);
      assert Prefix(w, k + 1) == Prefix(w, k) + w[k];
    }
  }

  lemma {:induction false} PrefixIsNotNegative(w: seq<real>, k: nat)
    requires NotNegative(w) && k <= |w|
    ensures Prefix(w, k) >= 0.0
    decreases k
  {
    if k == 0 {
    } else {
      PrefixIsNotNegative(w, k - 1);
    }
  }

  /** What `sampleCdf1D` returns and reports. */
  datatype Drawn = Drawn(value: Number, pdf: Number, index: nat)

  function Reported(d: Draw): Drawn {
    Drawn(d.value, Some(d.pdf), d.index)
  }

  // --- the library loops and sampleCdf1D ---------------------------------------------------------

  predicate Ascending(a: array<Number>, first: nat, last: nat)
    requires first <= last <= a.Length
    reads a
  {
    forall p, q :: first <= p <= q < last ==>
      a[p].Some? == a[q].Some? && (a[p].Some? ==> a[p].value <= a[q].value)
  }

  /** `std::lower_bound` on [first, last). */
  method LowerBound(a: array<Number>, first: nat, last: nat, x: real) returns (it: nat)
    requires first <= last <= a.Length
    requires Ascending(a, first, last)
    ensures first <= it <= last
    ensures forall p :: first <= p < it ==> Less(a[p], x)
    ensures it < last ==> !Less(a[it], x)
  {
    it := first;
    var end := last;
    while it < end
      invariant first <= it <= end <= last
      invariant forall p :: first <= p < it ==> Less(a[p], x)
      invariant end < last ==> !Less(a[end], x)
    {
      var mid := it + (end - it) / 2;
      if Less(a[mid], x) {
        it := mid + 1;
      } else {
        end := mid;
      }
    }
  }

  /** A table without numbers draws nothing, and reports its first cell. */
  method SampleCdf1D(a: array<Number>, first: nat, last: nat, sample: real, ghost c: seq<real>) returns (d: Drawn)
    requires first < last <= a.Length
    requires Ascending(a, first, last) && (a[first].Some? ==> a[first..last] == Numbers(c))
    requires a[first].Some? ==> sample <= c[|c| - 1] || |c| >= 2
    ensures d ==
      if a[first].None? then Drawn(None, None, 0)
      else Reported(DrawFrom(c, sample, FirstNotBelow(c, sample)))
  {
    hide Product, Ratio, FirstNotBelow, IsLowerBound, Numbers;
    var n := (last - first) as real;
    var it := LowerBound(a, first, last, sample);
    hide Ascending;
    if a[first].Some? {
      FoundIsFirst(a, first, last, c, sample, it);
    }
    if it == first {
      var pdf := Times(n, a[first]);
      return Drawn(Quotient(sample, pdf), pdf, 0);
    }
    assert Less(a[first], sample);
    if it == last {
      d := Drawn(Some(1.0), Some(Product(n, a[last - 1].value - a[last - 2].value)), last - first - 1);
    } else {
      var prev := it - 1;
      var index := it - first;
      var pdf := Product(n, a[it].value - a[prev].value);
      if pdf == 0.0 {
        d := Drawn(None, Some(pdf), index);
      } else {
        var x0 := Ratio(index as real, n);
        d := Drawn(Some(x0 + Ratio(sample - a[prev].value, pdf)), Some(pdf), index);
      }
    }
  }

  lemma FoundIsFirst(a: array<Number>, first: nat, last: nat, c: seq<real>, x: real, it: nat)
    requires first <= it <= last <= a.Length && a[first..last] == Numbers(c)
    requires (forall p :: first <= p < it ==> Less(a[p], x)) && (it < last ==> !Less(a[it], x))
    ensures |c| == last - first && it - first == FirstNotBelow(c, x)
    ensures it < last ==> a[it] == Some(c[it - first])
    ensures it > first ==> a[it - 1] == Some(c[it - first - 1])
    ensures |c| >= 1 ==> a[last - 1] == Some(c[|c| - 1])
    ensures |c| >= 2 ==> a[last - 2] == Some(c[|c| - 2])
  {
    hide Numbers, FirstNotBelow;
    SliceIsNumbers(a, first, last, c);
    forall k | 0 <= k < it - first
      ensures c[k] < x
    {
      assert Less(a[first + k], x);
    }
    assert IsLowerBound(c, x, it - first);
    LowerBoundIsUnique(c, x, it - first, FirstNotBelow(c, x));
  }

  lemma SliceIsNumbers(a: array<Number>, first: nat, last: nat, c: seq<real>)
    requires first <= last <= a.Length && a[first..last] == Numbers(c)
    ensures |c| == last - first && forall p :: first <= p < last ==> a[p] == Some(c[p - first])
  {
    forall p | first <= p < last
      ensures a[p] == Some(c[p - first])
    {
      assert a[p] == a[first..last][p - first];
    }
  }

  /** `std::partial_sum` in place. */
  method PartialSum(a: array<Number>, first: nat, last: nat, ghost w: seq<real>)
    requires first < last <= a.Length && a[first..last] == Numbers(w)
    modifies a
    ensures a[first..last] == Numbers(PartialSums(w))
    ensures forall k :: 0 <= k < a.Length && !(first <= k < last) ==> a[k] == old(a[k])
  {
    SliceIsNumbers(a, first, last, w);
    assert Prefix(w, 1) == Prefix(w, 0) + w[0];
    hide Numbers;
    for k := first + 1 to last
      invariant forall p :: first <= p < k ==> a[p] == Some(Prefix(w, p - first + 1))
      invariant forall p :: k <= p < last ==> a[p] == Some(w[p - first])
      invariant forall p :: 0 <= p < a.Length && !(first <= p < last) ==> a[p] == old(a[p])
    {
      a[k] := Some(a[k - 1].value + a[k].value);
    }
  }

  /** `std::transform` in place with a division by `d`; only 0 is ever divided by 0. */
  method Divide(a: array<Number>, first: nat, last: nat, d: real, ghost s: seq<real>)
    requires first <= last <= a.Length && a[first..last] == Numbers(s)
    requires d == 0.0 ==> forall k :: 0 <= k < |s| ==> s[k] == 0.0
    modifies a
    ensures forall p :: first <= p < last ==> a[p] == Quotient(s[p - first], Some(d))
    ensures forall k :: 0 <= k < a.Length && !(first <= k < last) ==> a[k] == old(a[k])
  {
    hide Ratio;
    SliceIsNumbers(a, first, last, s);
    for k := first to last
      invariant forall p :: first <= p < k ==> a[p] == Quotient(s[p - first], Some(d))
      invariant forall p :: k <= p < last ==> a[p] == Some(s[p - first])
      invariant forall p :: 0 <= p < a.Length && !(first <= p < last) ==> a[p] == old(a[p])
    {
      a[k] := Quotient(a[k].value, Some(d));
    }
  }

  /** Prefix sums, then division by the last: the weights become their distribution function. */
  method ToCdf(a: array<Number>, first: nat, last: nat, ghost w: seq<real>) returns (max: real)
    requires first < last <= a.Length && a[first..last] == Numbers(w) && NotNegative(w)
    modifies a
    ensures max == Total(w)
    ensures a[first..last] == Table(w)
    ensures forall k :: 0 <= k < a.Length && !(first <= k < last) ==> a[k] == old(a[k])
  {
    PartialSum(a, first, last, w);
    SliceIsNumbers(a, first, last, PartialSums(w));
    max := a[last - 1].value;
    forall k | 0 <= k < |w|
      ensures 0.0 <= PartialSums(w)[k] <= Total(w)
    {
      SumsOfNothing(w, k + 1);
    }
    hide Quotient, Prefix;
    Divide(a, first, last, max, PartialSums(w));
    assert a[first..last] == Table(w);
  }
}
