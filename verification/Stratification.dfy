/**
 Stratification of the radical inverse: of base^k draws in a row exactly one falls into each
 interval of length base^-k.  The 64-bit counter limits this; the exact limit is proved.
 */
module Stratification {
  import opened Arithmetic
  import opened RadicalInverse

  function Times(x: nat, y: nat): (p: nat) {
    MulMonotone(0, x, y);
    x * y
  }

  function Pow(base: nat, k: nat): (p: nat)
    requires base >= 1
    ensures p >= 1
  {
    if k == 0 then 1
    else
      MulAtLeast(base, Pow(base, k - 1));
      Times(base, Pow(base, k - 1))
  }

  // --- digit reversal ----------------------------------------------------------------------------

  /** The `k` low digits of `n` in the opposite order. */
  function Reversed(base: nat, k: nat, n: nat): nat
    requires base >= 2
    decreases k
  {
    if k == 0 then 0
    else
      DivModNat(n, base);
      Times(n % base, Pow(base, k - 1)) + Reversed(base, k - 1, n / base)
  }

  /** `n` without its `k` low digits. */
  function Rest(base: nat, k: nat, n: nat): nat
    requires base >= 2
    decreases k
  {
    if k == 0 then n else Rest(base, k - 1, n / base)
  }

  /** The number whose `k` digits read `j` from the other end. */
  function Unreversed(base: nat, k: nat, j: nat): nat
    requires base >= 2
    decreases k
  {
    if k == 0 then 0
    else
      DivModNat(j, Pow(base, k - 1));
      j / Pow(base, k - 1) + Times(base, Unreversed(base, k - 1, j % Pow(base, k - 1)))
  }

  lemma QuotientBound(j: nat, base: nat, p: nat)
    requires p >= 1 && j < base * p
    ensures j / p < base
  {
    DivModNat(j, p);
    if j / p >= base {
      MulMonotone(base, j / p, p);
    }
  }

  lemma {:induction false} ReversedBound(base: nat, k: nat, n: nat)
    requires base >= 2
    ensures Reversed(base, k, n) < Pow(base, k)
    decreases k
  {
    if k == 0 {
    } else {
      ReversedBound(base, k - 1, n / base);
      DigitBound(n % base, Reversed(base, k - 1, n / base), base, Pow(base, k - 1));
    }
  }

  lemma AppendBound(base: nat, p: nat, high: nat, digit: nat)
    requires high < p && digit < base
    ensures digit + Times(base, high) < Times(base, p)
  {
    DigitBound(high, digit, p, base);
  }

  /** The digit that reversal moves from the front to the end. */
  lemma FirstDigit(base: nat, k: nat, j: nat) returns (digit: nat, low: nat)
    requires base >= 2 && k > 0 && j < Pow(base, k)
    ensures digit < base && low < Pow(base, k - 1)
    ensures Unreversed(base, k, j) == digit + Times(base, Unreversed(base, k - 1, low))
  {
    var p := Pow(base, k - 1);
    assert Pow(base, k) == Times(base, p);
    hide Pow;
    DivModNat(j, p);
    QuotientBound(j, base, p);
    digit, low := j / p, j % p;
  }

  lemma {:induction false} UnreversedBound(base: nat, k: nat, j: nat)
    requires base >= 2 && j < Pow(base, k)
    ensures Unreversed(base, k, j) < Pow(base, k)
    decreases k
  {
    if k == 0 {
    } else {
      var digit, low := FirstDigit(base, k, j);
      assert Pow(base, k) == Times(base, Pow(base, k - 1));
      hide Pow, Unreversed, Times;
      UnreversedBound(base, k - 1, low);
      AppendBound(base, Pow(base, k - 1), Unreversed(base, k - 1, low), digit);
    }
  }

  lemma AppendDigit(base: nat, high: nat, digit: nat)
    requires digit < base
    ensures (digit + Times(base, high)) % base == digit
    ensures (digit + Times(base, high)) / base == high
  {
    DivModUnique(digit + base * high, base, high, digit);
  }

  lemma LowDigit(base: nat, k: nat, j: nat)
    requires base >= 2 && k > 0 && j / Pow(base, k - 1) < base
    ensures Unreversed(base, k, j) % base == j / Pow(base, k - 1)
    ensures Unreversed(base, k, j) / base == Unreversed(base, k - 1, j % Pow(base, k - 1))
  {
    hide Pow, Times;
    var p := Pow(base, k - 1);
    var high, digit := Unreversed(base, k - 1, j % p), j / p;
    assert Unreversed(base, k, j) == digit + Times(base, high);
    hide Unreversed;
    AppendDigit(base, high, digit);
  }

  lemma {:induction false} ReversedOfUnreversed(base: nat, k: nat, j: nat)
    requires base >= 2 && j < Pow(base, k)
    ensures Reversed(base, k, Unreversed(base, k, j)) == j
    decreases k
  {
    if k == 0 {
    } else {
      var p, n := Pow(base, k - 1), Unreversed(base, k, j);
      QuotientBound(j, base, p);
      LowDigit(base, k, j);
      ReversedOfUnreversed(base, k - 1, j % p);
      assert Reversed(base, k, n) == Times(n % base, p) + Reversed(base, k - 1, n / base);
      hide Pow, Reversed, Unreversed;
      DivModNat(j, p);
    }
  }

  lemma {:induction false} UnreversedOfReversed(base: nat, k: nat, n: nat)
    requires base >= 2
    ensures Unreversed(base, k, Reversed(base, k, n)) == n % Pow(base, k)
    decreases k
  {
    if k == 0 {
    } else {
      var p := Pow(base, k - 1);
      var low := Reversed(base, k - 1, n / base);
      ReversedBound(base, k - 1, n / base);
      DivModUnique(Reversed(base, k, n), p, n % base, low);
      UnreversedOfReversed(base, k - 1, n / base);
      ModSplit(n, base, p);
    }
  }

  /** The reversal of `n` is `j` exactly for one residue of `n` modulo base^k. */
  lemma ReversedIsResidue(base: nat, k: nat, n: nat, j: nat)
    requires base >= 2 && j < Pow(base, k)
    ensures Reversed(base, k, n) == j <==> n % Pow(base, k) == Unreversed(base, k, j)
  {
    hide Reversed, Unreversed, Pow;
    UnreversedOfReversed(base, k, n);
    ReversedBound(base, k, n);
    ReversedOfUnreversed(base, k, Reversed(base, k, n));
    ReversedOfUnreversed(base, k, j);
  }

  // --- the radical inverse and its first k digits ------------------------------------------------

  lemma UnfoldDigits(base: nat, k: nat, n: nat)
    requires base >= 2 && k > 0
    ensures 0 <= n / base
    ensures Pow(base, k) == Times(base, Pow(base, k - 1))
    ensures Reversed(base, k, n) == Times(n % base, Pow(base, k - 1)) + Reversed(base, k - 1, n / base)
    ensures Rest(base, k, n) == Rest(base, k - 1, n / base)
  {
  }

  function Scale(x: real, p: nat): real {
    x * p as real
  }

  lemma PhiMovePoint(n: nat, base: nat, p: nat)
    requires base >= 2
    ensures 0 <= n / base
    ensures Scale(Phi(n, base), Times(base, p)) == Times(n % base, p) as real + Scale(Phi(n / base, base), p)
  {
    hide *;
    PhiTimesBase(n, base);
    MovePoint(Phi(n, base), base, p, n % base, Phi(n / base, base));
  }

  /** The first `k` digits behind the radix point are the `k` low digits of `n`, reversed. */
  lemma {:induction false} PhiDigits(base: nat, k: nat, n: nat)
    requires base >= 2
    ensures Scale(Phi(n, base), Pow(base, k)) == Reversed(base, k, n) as real + Phi(Rest(base, k, n), base)
    decreases k
  {
    if k == 0 {
    } else {
      hide *;
      UnfoldDigits(base, k, n);
      PhiMovePoint(n, base, Pow(base, k - 1));
      PhiDigits(base, k - 1, n / base);
    }
  }

  lemma MovePoint(x: real, base: nat, p: nat, digit: nat, y: real)
    requires x * base as real == digit as real + y
    ensures Scale(x, Times(base, p)) == Times(digit, p) as real + Scale(y, p)
  {
    var b, q := base as real, p as real;
    assert (base * p) as real == b * q;
    assert (digit * p) as real == digit as real * q;
    assert x * (b * q) == (x * b) * q;
  }

  predicate InCell(x: real, j: nat, cells: nat) {
    j as real <= Scale(x, cells) < (j + 1) as real
  }

  lemma CellIsReversal(base: nat, k: nat, n: nat, j: nat)
    requires base >= 2
    ensures InCell(Phi(n, base), j, Pow(base, k)) <==> Reversed(base, k, n) == j
  {
    PhiDigits(base, k, n);
    hide Phi, Reversed, Pow, Rest, Scale;
    var r := Reversed(base, k, n);
    assert r as real <= Scale(Phi(n, base), Pow(base, k)) < r as real + 1.0;
    if InCell(Phi(n, base), j, Pow(base, k)) {
      assert j as real < r as real + 1.0 && r as real < j as real + 1.0;
    }
  }

  // --- stratification ----------------------------------------------------------------------------

  /** Exactly one of the base^k draws after `index` falls into cell `j`. */
  ghost predicate OneInCell(base: nat, index: nat, k: nat, j: nat)
    requires base >= 2
  {
    exists i :: 0 <= i < Pow(base, k) && OnlyOneInCell(base, index, k, j, i)
  }

  ghost predicate OnlyOneInCell(base: nat, index: nat, k: nat, j: nat, i: nat)
    requires base >= 2
  {
    forall i' :: 0 <= i' < Pow(base, k) ==>
      (InCell(Sample(base, index, i'), j, Pow(base, k)) <==> i' == i)
  }

  ghost predicate Stratified(base: nat, index: nat, k: nat)
    requires base >= 2
  {
    forall j :: 0 <= j < Pow(base, k) ==> OneInCell(base, index, k, j)
  }

  /** The residue of the counter `i` steps after `first`. */
  function Residue(first: nat, m: nat, i: nat): nat
    requires m >= 1
  {
    Wrap(first + i) % m
  }

  /** Exactly one of the `m` counter values from `first` on has residue `r`. */
  ghost predicate OneResidue(first: nat, m: nat, r: nat)
    requires m >= 1
  {
    exists i :: 0 <= i < m && OnlyResidue(first, m, r, i)
  }

  ghost predicate OnlyResidue(first: nat, m: nat, r: nat, i: nat)
    requires m >= 1
  {
    forall i' :: 0 <= i' < m ==> (Residue(first, m, i') == r <==> i' == i)
  }

  ghost predicate CompleteResidues(first: nat, m: nat)
    requires m >= 1
  {
    forall r :: 0 <= r < m ==> OneResidue(first, m, r)
  }

  lemma SampleIsResidue(base: nat, index: nat, k: nat, j: nat, i: nat)
    requires base >= 2 && j < Pow(base, k)
    ensures InCell(Sample(base, index, i), j, Pow(base, k)) <==>
            Residue(index + 1, Pow(base, k), i) == Unreversed(base, k, j)
  {
    hide Pow, Phi, Wrap, Reversed, Unreversed, InCell;
    CellIsReversal(base, k, Wrap(index + 1 + i), j);
    ReversedIsResidue(base, k, Wrap(index + 1 + i), j);
  }

  lemma CellIsResidue(base: nat, index: nat, k: nat, j: nat)
    requires base >= 2 && j < Pow(base, k)
    ensures OneInCell(base, index, k, j) <==> OneResidue(index + 1, Pow(base, k), Unreversed(base, k, j))
  {
    hide Pow, Phi, Residue, Unreversed, InCell, Sample;
    var m, first, u := Pow(base, k), index + 1, Unreversed(base, k, j);
    forall i: nat
      ensures InCell(Sample(base, index, i), j, m) <==> Residue(first, m, i) == u
    {
      SampleIsResidue(base, index, k, j, i);
    }
    forall i: nat
      ensures OnlyOneInCell(base, index, k, j, i) <==> OnlyResidue(first, m, u, i)
    {
    }
  }

  lemma StratifiedIsCompleteResidues(base: nat, index: nat, k: nat)
    requires base >= 2
    ensures Stratified(base, index, k) <==> CompleteResidues(index + 1, Pow(base, k))
  {
    hide Pow, OneInCell, OneResidue, Reversed, Unreversed;
    var m, first := Pow(base, k), index + 1;
    if CompleteResidues(first, m) {
      forall j | 0 <= j < m
        ensures OneInCell(base, index, k, j)
      {
        UnreversedBound(base, k, j);
        CellIsResidue(base, index, k, j);
      }
    }
    if Stratified(base, index, k) {
      forall r | 0 <= r < m
        ensures OneResidue(first, m, r)
      {
        var j := Reversed(base, k, r);
        ReversedBound(base, k, r);
        ReversedIsResidue(base, k, r, j);
        DivModUnique(r, m, 0, r);
        CellIsResidue(base, index, k, j);
      }
    }
  }

  // --- residues of consecutive counter values ----------------------------------------------------

  lemma ModOfMultiple(n: nat, m: nat, q: nat)
    requires m >= 1
    ensures (n + q * m) % m == n % m
  {
    DivModNat(n, m);
    assert n + q * m == (n / m + q) * m + n % m by {
      assert (n / m + q) * m == (n / m) * m + q * m;
    }
    DivModUnique(n + q * m, m, n / m + q, n % m);
  }

  lemma SameResidue(x: nat, y: nat, m: nat)
    requires m >= 1 && x <= y < x + m && x % m == y % m
    ensures x == y
  {
    DivModNat(x, m);
    DivModNat(y, m);
    assert y - x == (y / m - x / m) * m;
    MulAtLeast(y / m - x / m, m);
  }

  /** Consecutive numbers run through all residues. */
  lemma Consecutive(c: nat, m: nat, r: nat) returns (i: nat)
    requires r < m
    ensures i < m && (c + i) % m == r
  {
    var low := c % m;
    DivModNat(c, m);
    i := if r >= low then r - low else r + m - low;
    var q := if r >= low then c / m else c / m + 1;
    assert c + i == q * m + r;
    DivModUnique(c + i, m, q, r);
  }

  lemma ConsecutiveOnce(c: nat, m: nat, i: nat, i': nat)
    requires i < m && i' < m
    ensures (c + i) % m == (c + i') % m <==> i == i'
  {
    if (c + i) % m == (c + i') % m {
      if i <= i' {
        SameResidue(c + i, c + i', m);
      } else {
        SameResidue(c + i', c + i, m);
      }
    }
  }

  lemma CompleteIfConsecutive(first: nat, m: nat, c: nat)
    requires m >= 1
    requires forall i :: 0 <= i < m ==> Residue(first, m, i) == (c + i) % m
    ensures CompleteResidues(first, m)
  {
    hide Residue;
    forall r | 0 <= r < m
      ensures OneResidue(first, m, r)
    {
      var i := Consecutive(c, m, r);
      forall i' | 0 <= i' < m
        ensures Residue(first, m, i') == r <==> i' == i
      {
        ConsecutiveOnce(c, m, i, i');
      }
      assert OnlyResidue(first, m, r, i);
    }
  }

  lemma CollisionSpoils(first: nat, m: nat, i: nat, i': nat)
    requires i < m && i' < m && i != i' && Residue(first, m, i) == Residue(first, m, i')
    ensures !CompleteResidues(first, m)
  {
    var r := Residue(first, m, i);
    DivModNat(Wrap(first + i), m);
    hide Residue;
    forall k | 0 <= k < m
      ensures !OnlyResidue(first, m, r, k)
    {
      assert Residue(first, m, i) == r && Residue(first, m, i') == r;
    }
    assert !OneResidue(first, m, r);
  }

  lemma CompleteWithoutWrap(first: nat, m: nat)
    requires m >= 1 && first <= RANGE64 && Wrap(first) + m <= RANGE64
    ensures CompleteResidues(first, m)
  {
    forall i | 0 <= i < m
      ensures Residue(first, m, i) == (Wrap(first) + i) % m
    {
      assert Wrap(first + i) == Wrap(first) + i;
    }
    CompleteIfConsecutive(first, m, Wrap(first));
  }

  lemma CompleteWithWrapAtMultiple(first: nat, m: nat)
    requires m >= 1 && RANGE64 % m == 0
    ensures CompleteResidues(first, m)
  {
    forall i | 0 <= i < m
      ensures Residue(first, m, i) == (first + i) % m
    {
      var n := first + i;
      DivModNat(RANGE64, m);
      var q := n / 0x1_0000_0000_0000_0000;
      assert n == Wrap(n) + q * RANGE64;
      assert q * RANGE64 == (q * (RANGE64 / m)) * m;
      ModOfMultiple(Wrap(n), m, q * (RANGE64 / m));
    }
    CompleteIfConsecutive(first, m, first);
  }

  lemma WrapCollides(first: nat, m: nat)
    requires m >= 1 && first <= RANGE64
    requires Wrap(first) + m > RANGE64 && RANGE64 % m != 0
    ensures !CompleteResidues(first, m)
  {
    if m > RANGE64 {
      assert Wrap(first + RANGE64) == Wrap(first + 0);
      CollisionSpoils(first, m, 0, RANGE64);
    } else {
      DivModNat(RANGE64, m);
      WrapCollidesBehind(first, m, RANGE64 / m, RANGE64 % m);
    }
  }

  /** The residues just before the end of the counter's range come again just behind it. */
  lemma WrapCollidesBehind(first: nat, m: nat, t: nat, r: nat)
    requires 1 <= r < m <= RANGE64 == t * m + r && first < RANGE64 < first + m
    ensures !CompleteResidues(first, m)
  {
    var p := RANGE64 - first;
    hide CompleteResidues;
    if r <= p {
      DivModUnique(RANGE64 - r, m, t, 0);
      DivModUnique(0, m, 0, 0);
      assert Wrap(first + (p - r)) == RANGE64 - r && Wrap(first + p) == 0;
      CollisionSpoils(first, m, p - r, p);
    } else {
      DivModUnique(RANGE64 - p, m, t, r - p);
      DivModUnique(r - p, m, 0, r - p);
      assert Wrap(first + 0) == RANGE64 - p && Wrap(first + r) == r - p;
      CollisionSpoils(first, m, 0, r);
    }
  }

  /**
   The base^k draws after counter value `index` fall one into each interval [j, j + 1) / base^k if
   and only if the counter does not wrap around between two of them, or wraps around at a multiple
   of base^k.
   */
  lemma StratifiedExactly(base: nat, index: nat, k: nat)
    requires base >= 2 && index < RANGE64
    ensures Stratified(base, index, k) <==>
      Wrap(index + 1) + Pow(base, k) <= RANGE64 || RANGE64 % Pow(base, k) == 0
  {
    hide Stratified, CompleteResidues, Pow, Wrap;
    var first, m := index + 1, Pow(base, k);
    StratifiedIsCompleteResidues(base, index, k);
    if Wrap(first) + m <= RANGE64 {
      CompleteWithoutWrap(first, m);
    } else if RANGE64 % m == 0 {
      CompleteWithWrapAtMultiple(first, m);
    } else {
      WrapCollides(first, m);
    }
  }

  /** Exactly one of the numbers lies in cell `j`. */
  ghost predicate OneOf(xs: seq<real>, j: nat, cells: nat) {
    exists i :: 0 <= i < |xs| && OnlyAt(xs, j, cells, i)
  }

  ghost predicate OnlyAt(xs: seq<real>, j: nat, cells: nat, i: nat) {
    forall i' :: 0 <= i' < |xs| ==> (InCell(xs[i'], j, cells) <==> i' == i)
  }

  /** The same for the generator itself, whatever it drew before. */
  method StratifiedDraws(g: RandomRadicalInverse, k: nat) returns (xs: seq<real>)
    requires g.Valid()
    requires Wrap(g.index + 1) + Pow(g.base, k) <= RANGE64 || RANGE64 % Pow(g.base, k) == 0
    modifies g
    ensures g.Valid() && |xs| == Pow(g.base, k)
    ensures forall j :: 0 <= j < |xs| ==> OneOf(xs, j, |xs|)
  {
    ghost var index := g.index;
    StratifiedExactly(g.base, index, k);
    hide Pow, InCell, Sample, Wrap;
    var count := Pow(g.base, k);
    xs := g.Draws(count);
    forall j | 0 <= j < count
      ensures OneOf(xs, j, count)
    {
      assert OneInCell(g.base, index, k, j);
      var i :| 0 <= i < count && OnlyOneInCell(g.base, index, k, j, i);
      assert OnlyAt(xs, j, count, i);
    }
  }
}
