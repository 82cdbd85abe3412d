/**
 `InverseTransformSampling2D`: the marginal distribution of the row and, per row, the conditional
 distribution of the column, both built in place by prefix sums and a division.  A row without weight
 becomes a row of undefined quotients.
 */
module InverseTransform2D {
  import opened Arithmetic
  import opened Bytes
  import opened InverseTransform
  import opened Rows

  // --- tables ------------------------------------------------------------------------------------

  function RowTotals(rows: seq<seq<real>>): (t: seq<real>)
    ensures |t| == |rows|
  {
    seq(|rows|, i requires 0 <= i < |rows| => Total(rows[i]))
  }

  lemma {:induction false} TotalOfConcat(a: seq<real>, b: seq<real>)
    ensures Total(a + b) == Total(a) + Total(b)
    decreases |b|
  {
    if b == [] {
      assert a + b == a;
    } else {
      var b' := b[..|b| - 1];
      TotalOfConcat(a, b');
      PrefixOfPrefix(a + b, |a + b| - 1);
      PrefixOfPrefix(b, |b| - 1);
      assert (a + b)[..|a + b| - 1] == a + b';
    }
  }

  lemma {:induction false} PrefixOfPrefix(w: seq<real>, k: nat)
    requires k <= |w|
    ensures Prefix(w, k) == Total(w[..k])
    decreases k
  {
    PrefixIsLocal(w, w[..k], k);
  }

  lemma {:induction false} PrefixIsLocal(w: seq<real>, v: seq<real>, k: nat)
    requires k <= |w| && k <= |v| && w[..k] == v[..k]
    ensures Prefix(w, k) == Prefix(v, k)
  {
    if k == 0 {
    } else {
      assert w[..k][..k - 1] == w[..k - 1] && v[..k][..k - 1] == v[..k - 1];
      assert w[k - 1] == w[..k][k - 1] == v[..k][k - 1] == v[k - 1];
      PrefixIsLocal(w, v, k - 1);
    }
  }

  lemma TotalOfFirst(row: seq<real>, rows: seq<seq<real>>)
    ensures Total(RowTotals([row] + rows)) == Total(row) + Total(RowTotals(rows))
  {
    var first := [Total(row)];
    assert RowTotals([row] + rows) == first + RowTotals(rows);
    TotalOfConcat(first, RowTotals(rows));
    assert Total(first) == Prefix(first, 0) + first[0];
  }

  /** Summing by rows is summing the table. */
  lemma {:induction false} TotalOfRows(s: seq<real>, width: nat, count: nat)
    requires width >= 1 && |s| == Offset(count, width)
    ensures Total(RowTotals(Split(s, width))) == Total(s)
    decreases count
  {
    hide RowTotals, Total;
    if count > 0 {
      TotalOfRows(s[width..], width, count - 1);
      TotalOfConcat(s[..width], s[width..]);
      assert s[..width] + s[width..] == s;
      TotalOfFirst(s[..width], Split(s[width..], width));
    } else {
      assert s == [];
      TotalOfNothing();
    }
  }

  lemma TotalOfNothing()
    ensures Total(RowTotals([])) == 0.0 && Total([]) == 0.0
  {
  }

  /** The tables the sampler takes: no weight is negative, but rows and even the whole table may be without weight. */
  ghost predicate TableWeights(rows: seq<seq<real>>) {
    rows != [] && forall i :: 0 <= i < |rows| ==> rows[i] != [] && NotNegative(rows[i])
  }

  lemma TotalNotNegative(w: seq<real>)
    requires NotNegative(w)
    ensures Total(w) >= 0.0
  {
    PrefixIsNotNegative(w, |w|);
  }

  lemma RowTotalsNotNegative(rows: seq<seq<real>>)
    requires TableWeights(rows)
    ensures NotNegative(RowTotals(rows)) && Total(RowTotals(rows)) >= 0.0
  {
    forall i | 0 <= i < |rows|
      ensures RowTotals(rows)[i] >= 0.0
    {
      TotalNotNegative(rows[i]);
    }
    TotalNotNegative(RowTotals(rows));
  }

  /** The density a table assigns to every point of cell (i, j) of the unit square. */
  function Density(rows: seq<seq<real>>, i: nat, j: nat): real
    requires i < |rows| && j < |rows[i]| && Total(RowTotals(rows)) != 0.0
  {
    Ratio(Product(Product(|rows| as real, |rows[i]| as real), rows[i][j]), Total(RowTotals(rows)))
  }

  /** Marginal slope times conditional slope is the density: the row totals cancel. */
  lemma SlopesMultiply(rows: seq<seq<real>>, i: nat, j: nat)
    requires i < |rows| && j < |rows[i]| && Total(rows[i]) > 0.0 && Total(RowTotals(rows)) > 0.0
    ensures var m, c := Cdf(RowTotals(rows)), Cdf(rows[i]);
      Product(Product(|rows| as real, m[i] - Below(m, i)), Product(|rows[i]| as real, c[j] - Below(c, j)))
      == Density(rows, i, j)
  {
    var totals := RowTotals(rows);
    CdfStep(totals, i);
    CdfStep(rows[i], j);
    RowTotalCancels(|rows| as real, Total(rows[i]), Total(totals), |rows[i]| as real, rows[i][j]);
  }

  lemma RowTotalCancels(u: real, r: real, t: real, v: real, w: real)
    requires r > 0.0 && t > 0.0
    ensures Product(Product(u, r / t), Product(v, w / r)) == Ratio(Product(Product(u, v), w), t)
  {
    var p, q := r / t, w / r;
    assert p * t == r && q * r == w;
    assert (u * p) * (v * q) * t == (u * v) * (q * (p * t));
    assert (u * p) * (v * q) * t == (u * v) * w;
  }

  // --- the sampler -------------------------------------------------------------------------------

  /** A sample in [0, 1] always finds a cell of a distribution. */
  lemma CellIsFound(w: seq<real>, x: real)
    requires Weights(w) && 0.0 <= x <= 1.0
    ensures IsCdf(Cdf(w)) && FirstNotBelow(Cdf(w), x) < |w|
    ensures IsLowerBound(Cdf(w), x, FirstNotBelow(Cdf(w), x))
  {
    WeightsGiveCdf(w);
    hide Cdf, Weights, Total;
    DrawInvertsCdf(Cdf(w), x, FirstNotBelow(Cdf(w), x));
  }

  /** What `sampleCdf1D` makes of the table of `w`. */
  ghost function TableDraw(w: seq<real>, x: real): (d: Drawn)
    requires w != [] && NotNegative(w) && 0.0 <= x <= 1.0
    ensures d.index < |w|
  {
    if Total(w) > 0.0 then
      CellIsFound(w, x);
      Reported(DrawFrom(Cdf(w), x, FirstNotBelow(Cdf(w), x)))
    else Drawn(None, None, 0)
  }

  datatype Sample2D = Sample2D(u: Number, v: Number, pdf: Number, i: nat, j: nat)

  function Multiply(x: Number, y: Number): Number {
    if x.None? then None else Times(x.value, y)
  }

  /** Where a sample of the unit square goes. */
  ghost function CellDraw(rows: seq<seq<real>>, x: real, y: real): (s: Sample2D)
    requires TableWeights(rows) && 0.0 <= x <= 1.0 && 0.0 <= y <= 1.0
    ensures s.i < |rows| && s.j < |rows[s.i]|
  {
    RowTotalsNotNegative(rows);
    var du := TableDraw(RowTotals(rows), x);
    var dv := TableDraw(rows[du.index], y);
    Sample2D(du.value, dv.value, Multiply(du.pdf, dv.pdf), du.index, dv.index)
  }

  function Tables(rows: seq<seq<real>>): (ts: seq<seq<Number>>)
    ensures |ts| == |rows|
  {
    seq(|rows|, i requires 0 <= i < |rows| => Table(rows[i]))
  }

  class InverseTransformSampling2D {
    var condCdfV: array<Number>
    var margCdfU: array<Number>
    var uSize: nat
    var vSize: nat

    /** The rows of weights the sampler was last reset to. */
    ghost var rows: seq<seq<real>>

    ghost predicate Valid()
      reads this, condCdfV, margCdfU
    {
      && condCdfV != margCdfU
      && TableWeights(rows)
      && uSize == |rows| && vSize >= 1 && (forall i :: 0 <= i < |rows| ==> |rows[i]| == vSize)
      && margCdfU[..] == Table(RowTotals(rows))
      && Split(condCdfV[..], vSize) == Tables(rows)
    }

    constructor ()
      ensures uSize == 0 && vSize == 0
    {
      condCdfV, margCdfU := new Number[0], new Number[0];
      uSize, vSize, rows := 0, 0, [];
    }

    /** An empty table is refused and leaves the sampler as it is. */
    method Reset(weights: seq<real>, uSize: nat, vSize: nat) returns (ok: bool)
      requires uSize > 0 && vSize > 0 ==> |weights| == Offset(uSize, vSize) && NotNegative(weights)
      modifies this
      ensures ok <==> uSize > 0 && vSize > 0
      ensures ok ==> Valid() && rows == Split(weights, vSize) && this.uSize == uSize && this.vSize == vSize
      ensures ok ==> Total(RowTotals(rows)) == Total(weights)
      ensures !ok ==> unchanged(this)
    {
      if !(uSize > 0 && vSize > 0) {
        return false;
      }
      hide Numbers, Table, Total;
      this.uSize, this.vSize := uSize, vSize;
      condCdfV := new Number[|weights|](k requires 0 <= k < |weights| => Some(weights[k]));
      margCdfU := new Number[uSize](_ => Some(0.0));
      rows := Split(weights, vSize);
      assert condCdfV[..] == Numbers(weights);
      SplitCount(weights, vSize, uSize);
      RowsNotNegative(weights, vSize);
      TotalOfRows(weights, vSize, uSize);
      SplitNumbers(weights, vSize, uSize);
      BuildCdf();
      ok := true;
    }

    /** One round of the loop of `buildCdf`. */
    method BuildRow(i: nat, ghost w: seq<real>)
      requires condCdfV != margCdfU && vSize >= 1 && i < margCdfU.Length
      requires i < |Split(condCdfV[..], vSize)| && Split(condCdfV[..], vSize)[i] == Numbers(w) && NotNegative(w)
      modifies condCdfV, margCdfU
      ensures Split(condCdfV[..], vSize) == old(Split(condCdfV[..], vSize))[i := Table(w)]
      ensures margCdfU[..] == old(margCdfU[..])[i := Some(Total(w))]
    {
      hide Table, Split, Total, Numbers, NotNegative;
      ghost var before := condCdfV[..];
      SplitRow(before, vSize, i);
      OffsetIsProduct(i, vSize);
      var firstCdfV := i * vSize;
      var lastCdfV := firstCdfV + vSize;
      assert condCdfV[firstCdfV..lastCdfV] == Numbers(w);
      var maxCdfV := ToCdf(condCdfV, firstCdfV, lastCdfV, w);
      margCdfU[i] := Some(maxCdfV);
      assert condCdfV[..] == Overwritten(before, firstCdfV, Table(w));
      SplitUpdate(before, vSize, i, Table(w));
    }

    method BuildCdf()
      requires condCdfV != margCdfU && vSize >= 1 && uSize == |rows| == margCdfU.Length
      requires TableWeights(rows) && |Split(condCdfV[..], vSize)| == uSize
      requires forall i :: 0 <= i < uSize ==> |rows[i]| == vSize && Split(condCdfV[..], vSize)[i] == Numbers(rows[i])
      modifies condCdfV, margCdfU
      ensures Valid()
    {
      hide Split, Table, Total, Numbers, NotNegative;
      for i := 0 to uSize
        invariant |Split(condCdfV[..], vSize)| == uSize
        invariant forall r :: 0 <= r < i ==> Split(condCdfV[..], vSize)[r] == Table(rows[r])
        invariant forall r :: i <= r < uSize ==> Split(condCdfV[..], vSize)[r] == Numbers(rows[r])
        invariant forall r :: 0 <= r < i ==> margCdfU[..][r] == Some(Total(rows[r]))
      {
        BuildRow(i, rows[i]);
      }
      RowTotalsNotNegative(rows);
      assert margCdfU[0..uSize] == margCdfU[..] == Numbers(RowTotals(rows));
      var maxCdfU := ToCdf(margCdfU, 0, uSize, RowTotals(rows));
      assert margCdfU[..] == margCdfU[0..uSize];
      assert Split(condCdfV[..], vSize) == Tables(rows);
    }

    /** `operator()`. */
    method Sample(x: real, y: real) returns (s: Sample2D)
      requires Valid() && 0.0 <= x <= 1.0 && 0.0 <= y <= 1.0
      ensures s == CellDraw(rows, x, y)
    {
      hide Split, Table, Total, TableDraw, Multiply, NotNegative;
      RowTotalsNotNegative(rows);
      assert margCdfU[0..uSize] == Table(RowTotals(rows));
      var du := SampleCdf(margCdfU, 0, uSize, x, RowTotals(rows));
      SplitRow(condCdfV[..], vSize, du.index);
      OffsetIsProduct(du.index, vSize);
      var cdfV := du.index * vSize;
      assert condCdfV[cdfV..cdfV + vSize] == Table(rows[du.index]);
      var dv := SampleCdf(condCdfV, cdfV, cdfV + vSize, y, rows[du.index]);
      s := Sample2D(du.value, dv.value, Multiply(du.pdf, dv.pdf), du.index, dv.index);
    }
  }

  lemma RowsNotNegative(weights: seq<real>, width: nat)
    requires width >= 1 && NotNegative(weights) && Split(weights, width) != []
    ensures TableWeights(Split(weights, width))
  {
    var rows := Split(weights, width);
    forall i | 0 <= i < |rows|
      ensures rows[i] != [] && NotNegative(rows[i])
    {
      SplitRow(weights, width, i);
    }
  }

  lemma SplitNumbers(weights: seq<real>, width: nat, count: nat)
    requires width >= 1 && |weights| == Offset(count, width)
    ensures |Split(Numbers(weights), width)| == |Split(weights, width)| == count
    ensures forall i :: 0 <= i < count ==>
      |Split(weights, width)[i]| == width && Split(Numbers(weights), width)[i] == Numbers(Split(weights, width)[i])
  {
    SplitCount(weights, width, count);
    SplitCount(Numbers(weights), width, count);
    forall i | 0 <= i < count
      ensures |Split(weights, width)[i]| == width
      ensures Split(Numbers(weights), width)[i] == Numbers(Split(weights, width)[i])
    {
      SplitRow(weights, width, i);
      SplitRow(Numbers(weights), width, i);
    }
  }

  /** `sampleCdf1D` on a slice that holds the table of `w`. */
  method SampleCdf(a: array<Number>, first: nat, last: nat, x: real, ghost w: seq<real>) returns (d: Drawn)
    requires first < last <= a.Length && a[first..last] == Table(w) && NotNegative(w) && 0.0 <= x <= 1.0
    ensures w != [] && d == TableDraw(w, x)
  {
    TotalNotNegative(w);
    ghost var c: seq<real> := [];
    if Total(w) > 0.0 {
      CellIsFound(w, x);
      c := Cdf(w);
      CdfSliceIsSorted(a, first, last, w);
    } else {
      EmptySliceIsSorted(a, first, last, w);
    }
    hide Table, Cdf, IsCdf, Ascending, DrawFrom, FirstNotBelow, Total, NotNegative;
    d := SampleCdf1D(a, first, last, x, c);
  }

  lemma CdfSliceIsSorted(a: array<Number>, first: nat, last: nat, w: seq<real>)
    requires first < last <= a.Length && a[first..last] == Table(w) && Weights(w)
    ensures Ascending(a, first, last) && a[first].Some? && a[first..last] == Numbers(Cdf(w))
    ensures |Cdf(w)| == last - first && Cdf(w)[|w| - 1] == 1.0
  {
    TableIsCdf(w);
    WeightsGiveCdf(w);
    hide Table, Cdf, Weights, Numbers, Ascending, Total;
    NumbersAreSorted(a, first, last, Cdf(w));
  }

  lemma NumbersAreSorted(a: array<Number>, first: nat, last: nat, c: seq<real>)
    requires first < last <= a.Length && a[first..last] == Numbers(c) && IsCdf(c)
    ensures Ascending(a, first, last) && a[first].Some? && |c| == last - first
  {
    hide IsCdf, Numbers;
    SliceIsNumbers(a, first, last, c);
    forall p, q | first <= p <= q < last
      ensures a[p].Some? && a[q].Some? && a[p].value <= a[q].value
    {
      CdfAscends(c, p - first, q - first);
    }
  }

  lemma CdfAscends(c: seq<real>, i: nat, j: nat)
    requires IsCdf(c) && i <= j < |c|
    ensures c[i] <= c[j]
  {
    CdfIsSorted(c, i + 1, j + 1);
  }

  lemma EmptySliceIsSorted(a: array<Number>, first: nat, last: nat, w: seq<real>)
    requires first < last <= a.Length && a[first..last] == Table(w) && Total(w) == 0.0
    ensures Ascending(a, first, last) && a[first].None?
  {
    TableIsCdf(w);
    hide Table;
    forall p | first <= p < last
      ensures a[p] == None
    {
      assert a[p] == a[first..last][p - first];
    }
  }

  // --- what the samples mean ---------------------------------------------------------------------

  /** The cell drawn from a table with weight, and all that is reported of it. */
  lemma DrawWithWeight(w: seq<real>, x: real)
    requires Weights(w) && 0.0 <= x <= 1.0
    ensures IsCdf(Cdf(w)) && w != [] && NotNegative(w)
    ensures var d := TableDraw(w, x);
      && IsLowerBound(Cdf(w), x, d.index)
      && d == Reported(DrawFrom(Cdf(w), x, d.index))
      && d.pdf == Some(Product(|w| as real, Cdf(w)[d.index] - Below(Cdf(w), d.index)))
      && (Cdf(w)[d.index] - Below(Cdf(w), d.index) > 0.0 <==> HasDraw(Cdf(w), x))
  {
    hide Cdf, FirstNotBelow, DrawFrom, IsCdf, IsLowerBound, HasDraw, Total, Product;
    CellIsFound(w, x);
    var c, i := Cdf(w), FirstNotBelow(Cdf(w), x);
    assert TableDraw(w, x) == Reported(DrawFrom(c, x, i));
    DrawInvertsCdf(c, x, i);
    ProductSign(c[i] - Below(c, i), |c| as real);
    EmptyHasNoWeight(w);
  }

  /**
   The row reported has no weight if and only if the sample is 0 and the first row has none; then it is
   the first row.  In all other cases the density reported is exactly that of the cell.
   */
  lemma ReportedDensity(rows: seq<seq<real>>, x: real, y: real)
    requires TableWeights(rows) && Total(RowTotals(rows)) > 0.0 && 0.0 <= x <= 1.0 && 0.0 <= y <= 1.0
    ensures var s := CellDraw(rows, x, y);
      && (Total(rows[s.i]) == 0.0 <==> x == 0.0 && Total(rows[0]) == 0.0)
      && (Total(rows[s.i]) == 0.0 ==> s.i == 0)
      && (HasDraw(Cdf(RowTotals(rows)), x) <==> Total(rows[s.i]) > 0.0)
      && s.pdf == if Total(rows[s.i]) > 0.0 then Some(Density(rows, s.i, s.j)) else None
  {
    hide Total, Cdf, DrawFrom, TableDraw, Density, NotNegative, IsLowerBound, Product, Multiply;
    RowTotalsNotNegative(rows);
    WeightsOf(RowTotals(rows));
    DrawWithWeight(RowTotals(rows), x);
    var s := CellDraw(rows, x, y);
    RowIsHit(rows, x, s.i);
    TotalNotNegative(rows[s.i]);
    if Total(rows[s.i]) > 0.0 {
      WeightsOf(rows[s.i]);
      DrawWithWeight(rows[s.i], y);
      SlopesMultiply(rows, s.i, s.j);
      MultiplySome(Product(|rows| as real, Cdf(RowTotals(rows))[s.i] - Below(Cdf(RowTotals(rows)), s.i)),
                   Product(|rows[s.i]| as real, Cdf(rows[s.i])[s.j] - Below(Cdf(rows[s.i]), s.j)));
    } else {
      NothingDrawn(rows[s.i], y);
      MultiplyNone(TableDraw(RowTotals(rows), x).pdf);
    }
  }

  lemma EmptyHasNoWeight(w: seq<real>)
    requires Weights(w)
    ensures w != []
  {
  }

  lemma WeightsOf(w: seq<real>)
    requires NotNegative(w) && Total(w) > 0.0
    ensures Weights(w) && w != []
  {
  }

  lemma NothingDrawn(w: seq<real>, x: real)
    requires w != [] && NotNegative(w) && Total(w) == 0.0 && 0.0 <= x <= 1.0
    ensures TableDraw(w, x) == Drawn(None, None, 0)
  {
  }

  lemma MultiplySome(a: real, b: real)
    ensures Multiply(Some(a), Some(b)) == Some(Product(a, b))
  {
  }

  lemma MultiplyNone(a: Number)
    ensures Multiply(a, None) == None
  {
  }

  /** A cell of the marginal table that is hit has weight, but for the sample 0 in a first row without. */
  lemma RowIsHit(rows: seq<seq<real>>, x: real, i: nat)
    requires TableWeights(rows) && Weights(RowTotals(rows)) && 0.0 <= x <= 1.0
    requires i < |rows| && IsLowerBound(Cdf(RowTotals(rows)), x, i)
    ensures HasDraw(Cdf(RowTotals(rows)), x) <==> Total(rows[i]) > 0.0
    ensures HasDraw(Cdf(RowTotals(rows)), x) <==> x > 0.0 || Total(rows[0]) > 0.0
    ensures Total(rows[i]) == 0.0 ==> i == 0
  {
    var m, t := Cdf(RowTotals(rows)), Total(RowTotals(rows));
    WeightsGiveCdf(RowTotals(rows));
    LowerBoundIsSlice(m, x, i);
    CellHasWeight(m, x, i);
    CdfStep(RowTotals(rows), i);
    CdfStep(RowTotals(rows), 0);
    TotalNotNegative(rows[i]);
    TotalNotNegative(rows[0]);
    hide Cdf, Total, IsLowerBound, IsCdf;
    ShareSign(Total(rows[i]), t);
    ShareSign(Total(rows[0]), t);
  }

  lemma ShareSign(a: real, t: real)
    requires t > 0.0
    ensures a / t > 0.0 <==> a > 0.0
  {
    var q := a / t;
    assert q * t == a;
  }

  /** A row without weight is drawn exactly by the sample 0, if it is the first. */
  lemma RowWithoutWeight(rows: seq<seq<real>>, x: real, y: real, i: nat)
    requires TableWeights(rows) && Total(RowTotals(rows)) > 0.0 && 0.0 <= x <= 1.0 && 0.0 <= y <= 1.0
    requires i < |rows| && Total(rows[i]) == 0.0
    ensures CellDraw(rows, x, y).i == i <==> x == 0.0 && i == 0
  {
    hide CellDraw, Total, Density;
    ReportedDensity(rows, x, y);
  }

  /**
   For every sample in the unit square, edges included: the row's coordinate lies in its cell and the
   marginal distribution undoes it if and only if the sample is above 0 or the first row has weight.  Then
   the column's does if and only if the sample is above 0 or the first cell of the row has weight, and
   exactly then the density reported is positive.
   */
  lemma DrawIsInverse(rows: seq<seq<real>>, x: real, y: real)
    requires TableWeights(rows) && Total(RowTotals(rows)) > 0.0 && 0.0 <= x <= 1.0 && 0.0 <= y <= 1.0
    ensures var m, s := Cdf(RowTotals(rows)), CellDraw(rows, x, y);
      && (s.u.Some? && 0.0 <= s.u.value <= 1.0 && Eval(m, s.u.value) == x <==> x > 0.0 || Total(rows[0]) > 0.0)
      && (s.u.Some? ==> s.i as real <= Product(s.u.value, |rows| as real) <= (s.i + 1) as real)
      && (s.u.Some? <==> Total(rows[s.i]) > 0.0)
      && (s.u.Some? ==>
            var c := Cdf(rows[s.i]);
            && (s.v.Some? && 0.0 <= s.v.value <= 1.0 && Eval(c, s.v.value) == y <==> HasDraw(c, y))
            && (s.v.Some? ==> s.j as real <= Product(s.v.value, |rows[s.i]| as real) <= (s.j + 1) as real)
            && (Density(rows, s.i, s.j) > 0.0 <==> HasDraw(c, y)))
  {
    hide Total, Cdf, DrawFrom, TableDraw, Density, NotNegative, IsLowerBound, Product, Multiply, Eval, HasDraw, IsCdf;
    RowTotalsNotNegative(rows);
    WeightsOf(RowTotals(rows));
    DrawWithWeight(RowTotals(rows), x);
    var s, m := CellDraw(rows, x, y), Cdf(RowTotals(rows));
    DrawInvertsCdf(m, x, s.i);
    RowIsHit(rows, x, s.i);
    if s.u.Some? {
      var c := Cdf(rows[s.i]);
      WeightsOf(rows[s.i]);
      DrawWithWeight(rows[s.i], y);
      DrawInvertsCdf(c, y, s.j);
      SlopesMultiply(rows, s.i, s.j);
      ProductSign(Product(|c| as real, c[s.j] - Below(c, s.j)), Product(|m| as real, m[s.i] - Below(m, s.i)));
    }
  }

  /** Of the draws, those left of `u` come from samples up to the marginal's value there; likewise within a row. */
  lemma DrawsHaveDistribution(rows: seq<seq<real>>, x: real, y: real, u: real, v: real)
    requires TableWeights(rows) && Total(RowTotals(rows)) > 0.0 && 0.0 <= x <= 1.0 && 0.0 <= y <= 1.0
    requires x > 0.0 || Total(rows[0]) > 0.0
    requires 0.0 <= u <= 1.0 && 0.0 <= v <= 1.0
    ensures var s := CellDraw(rows, x, y);
      && s.u.Some? && Total(rows[s.i]) > 0.0
      && (s.u.value <= u <==> x <= Eval(Cdf(RowTotals(rows)), u))
      && (HasDraw(Cdf(rows[s.i]), y) ==> s.v.Some? && (s.v.value <= v <==> y <= Eval(Cdf(rows[s.i]), v)))
  {
    hide Total, Cdf, DrawFrom, TableDraw, NotNegative, IsLowerBound, Product, Multiply, Eval, HasDraw, IsCdf;
    RowTotalsNotNegative(rows);
    WeightsOf(RowTotals(rows));
    DrawWithWeight(RowTotals(rows), x);
    var s := CellDraw(rows, x, y);
    RowIsHit(rows, x, s.i);
    DrawHasDistribution(Cdf(RowTotals(rows)), x, s.i, u);
    WeightsOf(rows[s.i]);
    DrawWithWeight(rows[s.i], y);
    if HasDraw(Cdf(rows[s.i]), y) {
      DrawHasDistribution(Cdf(rows[s.i]), y, s.j, v);
    }
  }

  /** The area of the rectangle of samples that hit cell (i, j); nothing for a row without weight. */
  function CellArea(rows: seq<seq<real>>, i: nat, j: nat): real
    requires i < |rows| && j < |rows[i]| && Total(RowTotals(rows)) != 0.0
  {
    var m := Cdf(RowTotals(rows));
    if Total(rows[i]) == 0.0 then 0.0
    else
      var c := Cdf(rows[i]);
      Product(m[i] - Below(m, i), c[j] - Below(c, j))
  }

  /** Cell (i, j) is hit by a rectangle of samples whose area is the cell's share of the weight. */
  lemma CellProbability(rows: seq<seq<real>>, i: nat, j: nat, x: real, y: real)
    requires TableWeights(rows) && Total(RowTotals(rows)) > 0.0 && i < |rows| && j < |rows[i]|
    requires 0.0 <= x <= 1.0 && 0.0 <= y <= 1.0 && Total(rows[i]) > 0.0
    ensures var s := CellDraw(rows, x, y);
      s.i == i && s.j == j <==> InSlice(Cdf(RowTotals(rows)), x, i) && InSlice(Cdf(rows[i]), y, j)
    ensures CellArea(rows, i, j) == Ratio(rows[i][j], Total(RowTotals(rows)))
  {
    AreaIsShare(rows, i, j);
    hide Total, Cdf, DrawFrom, TableDraw, NotNegative, IsLowerBound, InSlice, CellArea, Ratio, IsCdf;
    RowTotalsNotNegative(rows);
    WeightsOf(RowTotals(rows));
    DrawWithWeight(RowTotals(rows), x);
    WeightsOf(rows[i]);
    DrawWithWeight(rows[i], y);
    var m, c := Cdf(RowTotals(rows)), Cdf(rows[i]);
    LowerBoundIsSlice(m, x, i);
    LowerBoundIsSlice(c, y, j);
    if IsLowerBound(m, x, i) {
      LowerBoundIsUnique(m, x, i, TableDraw(RowTotals(rows), x).index);
    }
    if IsLowerBound(c, y, j) {
      LowerBoundIsUnique(c, y, j, TableDraw(rows[i], y).index);
    }
  }

  lemma AreaIsShare(rows: seq<seq<real>>, i: nat, j: nat)
    requires TableWeights(rows) && Total(RowTotals(rows)) > 0.0 && i < |rows| && j < |rows[i]|
    ensures CellArea(rows, i, j) == Ratio(rows[i][j], Total(RowTotals(rows)))
  {
    hide Cdf, Total, Weights, Below, Product;
    TotalNotNegative(rows[i]);
    if Total(rows[i]) == 0.0 {
      SumsOfNothing(rows[i], j);
      assert rows[i][j] == 0.0;
    } else {
      hide Ratio;
      CdfStep(RowTotals(rows), i);
      CdfStep(rows[i], j);
      SharesMultiply(Total(rows[i]), Total(RowTotals(rows)), rows[i][j]);
    }
  }

  lemma SharesMultiply(r: real, t: real, w: real)
    requires r > 0.0 && t > 0.0
    ensures Product(r / t, w / r) == Ratio(w, t)
  {
    var p, q := r / t, w / r;
    assert p * t == r && q * r == w;
    assert (p * q) * t == q * (p * t);
  }

  lemma {:induction false} TotalOfDivided(w: seq<real>, d: real, k: nat)
    requires d != 0.0 && k <= |w|
    ensures Prefix(Divided(w, d), k) == Prefix(w, k) / d
  {
    if k == 0 {
    } else {
      TotalOfDivided(w, d, k - 1);
      SumOfQuotients(Prefix(w, k - 1), w[k - 1], d);
    }
  }

  lemma TotalOfShares(w: seq<real>)
    requires Total(w) > 0.0
    ensures Total(Divided(w, Total(w))) == 1.0
  {
    TotalOfDivided(w, Total(w), |w|);
  }

  /** What each cell contributes to the integral of the reported density over the unit square. */
  function Integrals(rows: seq<seq<real>>): (t: seq<seq<real>>)
    requires Total(RowTotals(rows)) != 0.0
    ensures |t| == |rows|
  {
    seq(|rows|, i requires 0 <= i < |rows| =>
      seq(|rows[i]|, j requires 0 <= j < |rows[i]| =>
        DensityTimesArea(rows, i, j)))
  }

  /** The cells of the unit square are 1 / uSize by 1 / vSize. */
  function DensityTimesArea(rows: seq<seq<real>>, i: nat, j: nat): real
    requires i < |rows| && j < |rows[i]| && Total(RowTotals(rows)) != 0.0
  {
    SizeIsPositive(|rows|, |rows[i]|);
    Ratio(Density(rows, i, j), Product(|rows| as real, |rows[i]| as real))
  }

  lemma SizeIsPositive(m: nat, n: nat)
    requires m >= 1 && n >= 1
    ensures Product(m as real, n as real) > 0.0
  {
    ProductSign(m as real, n as real);
  }

  /** The areas of the sample rectangles, over the two tables the class builds. */
  function CellAreas(rows: seq<seq<real>>): (t: seq<seq<real>>)
    requires Total(RowTotals(rows)) != 0.0
    ensures |t| == |rows|
  {
    seq(|rows|, i requires 0 <= i < |rows| =>
      seq(|rows[i]|, j requires 0 <= j < |rows[i]| => CellArea(rows, i, j)))
  }

  lemma DensityTimesAreaIsShare(rows: seq<seq<real>>, i: nat, j: nat)
    requires i < |rows| && j < |rows[i]| && Total(RowTotals(rows)) > 0.0
    ensures DensityTimesArea(rows, i, j) == Ratio(rows[i][j], Total(RowTotals(rows)))
  {
    SizeIsPositive(|rows|, |rows[i]|);
    DivideOut(Product(|rows| as real, |rows[i]| as real), rows[i][j], Total(RowTotals(rows)));
  }

  lemma DivideOut(a: real, w: real, t: real)
    requires a > 0.0 && t > 0.0
    ensures Ratio(Ratio(Product(a, w), t), a) == Ratio(w, t)
  {
    var q, r := Ratio(w, t), Ratio(Product(a, w), t);
    assert q * t == w && r * t == a * w;
    assert (a * q) * t == a * (q * t);
    SameFactor(a * q, r, t);
    var p := Ratio(r, a);
    assert p * a == r;
    SameFactor(q, p, a);
  }

  lemma SameFactor(x: real, y: real, t: real)
    requires t > 0.0 && x * t == y * t
    ensures x == y
  {
    assert (x - y) * t == 0.0;
  }

  /** A table whose cells hold the shares of the weights adds up to 1. */
  lemma SharesAddUp(rows: seq<seq<real>>, shares: seq<seq<real>>)
    requires Total(RowTotals(rows)) > 0.0 && |shares| == |rows|
    requires forall i :: 0 <= i < |rows| ==> shares[i] == Divided(rows[i], Total(RowTotals(rows)))
    ensures Total(RowTotals(shares)) == 1.0
  {
    hide Divided, Total;
    var t := Total(RowTotals(rows));
    forall i | 0 <= i < |rows|
      ensures Total(shares[i]) == Total(rows[i]) / t
    {
      TotalOfQuotients(rows[i], t);
    }
    DividedAt(RowTotals(rows), t);
    assert RowTotals(shares) == Divided(RowTotals(rows), t);
    TotalOfShares(RowTotals(rows));
  }

  lemma TotalOfQuotients(w: seq<real>, d: real)
    requires d != 0.0
    ensures Total(Divided(w, d)) == Total(w) / d
  {
    TotalOfDivided(w, d, |w|);
  }

  lemma DividedAt(w: seq<real>, d: real)
    requires d != 0.0
    ensures |Divided(w, d)| == |w| && forall i :: 0 <= i < |w| ==> Divided(w, d)[i] == w[i] / d
  {
  }

  /** The density of the table, integrated over the unit square cell by cell, is 1. */
  lemma DensityIntegratesToOne(rows: seq<seq<real>>)
    requires Total(RowTotals(rows)) > 0.0
    ensures Total(RowTotals(Integrals(rows))) == 1.0
  {
    hide Total, Divided, DensityTimesArea;
    var t := Total(RowTotals(rows));
    forall i | 0 <= i < |rows|
      ensures Integrals(rows)[i] == Divided(rows[i], t)
    {
      DividedAt(rows[i], t);
      forall j | 0 <= j < |rows[i]|
        ensures Integrals(rows)[i][j] == Divided(rows[i], t)[j]
      {
        DensityTimesAreaIsShare(rows, i, j);
      }
    }
    SharesAddUp(rows, Integrals(rows));
  }

  /** The rectangles of samples that hit the cells have area 1 together. */
  lemma AreasAddUpToOne(rows: seq<seq<real>>)
    requires TableWeights(rows) && Total(RowTotals(rows)) > 0.0
    ensures Total(RowTotals(CellAreas(rows))) == 1.0
  {
    hide Total, Divided, CellArea;
    var t := Total(RowTotals(rows));
    forall i | 0 <= i < |rows|
      ensures CellAreas(rows)[i] == Divided(rows[i], t)
    {
      DividedAt(rows[i], t);
      forall j | 0 <= j < |rows[i]|
        ensures CellAreas(rows)[i][j] == Divided(rows[i], t)[j]
      {
        AreaIsShare(rows, i, j);
      }
    }
    SharesAddUp(rows, CellAreas(rows));
  }
}
