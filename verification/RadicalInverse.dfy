/**
 `RandomRadicalInverse`, the van der Corput sequence, over exact reals: the digits of a counter,
 mirrored at the radix point.  The counter is a 64-bit word and wraps around.
 */
module RadicalInverse {
  import opened Arithmetic

  /** A digit and a fraction, moved one place to the right. */
  function Shift(digit: nat, fraction: real, base: nat): real
    requires base > 0
  {
    (digit as real + fraction) / base as real
  }

  lemma ShiftBounds(digit: nat, fraction: real, base: nat)
    requires digit < base && 0.0 <= fraction < 1.0
    ensures 0.0 <= Shift(digit, fraction, base) < 1.0
  {
    ShiftTimesBase(digit, fraction, base);
    SignOfProduct(Shift(digit, fraction, base), base as real);
    SignOfProduct(1.0 - Shift(digit, fraction, base), base as real);
  }

  lemma ShiftTimesBase(digit: nat, fraction: real, base: nat)
    requires base > 0
    ensures Shift(digit, fraction, base) * base as real == digit as real + fraction
  {
  }

  lemma SignOfProduct(x: real, b: real)
    requires b > 0.0
    ensures x * b >= 0.0 ==> x >= 0.0
    ensures x * b > 0.0 ==> x > 0.0
  {
  }

  /** The radical inverse of `n`: its digits, the lowest first, behind the radix point. */
  function Phi(n: nat, base: nat): (r: real)
    requires base >= 2
    ensures 0.0 <= r < 1.0
  {
    if n == 0 then 0.0
    else
      QuotientIsSmaller(n, base);
      ShiftBounds(n % base, Phi(n / base, base), base);
      Shift(n % base, Phi(n / base, base), base)
  }

  lemma QuotientIsSmaller(n: nat, base: nat)
    requires base >= 2 && n > 0
    ensures 0 <= n / base < n
  {
  }

  class RandomRadicalInverse {
    var index: nat
    const base: nat
    const invBase: real

    ghost predicate Valid()
      reads this
    {
      base >= 2 && invBase == 1.0 / base as real && index < RANGE64
    }

    constructor (base: nat)
      requires base >= 1
      ensures index == 0 && this.base == base && (base >= 2 ==> Valid())
    {
      index := 0;
      this.base := base;
      invBase := 1.0 / base as real;
    }

    method Seed(index: nat)
      requires Valid() && index < RANGE64
      modifies this
      ensures Valid() && this.index == index
    {
      this.index := index;
    }

    method Next() returns (result: real)
      requires Valid()
      modifies this
      ensures Valid() && index == Wrap(old(index) + 1)
      ensures result == Phi(index, base)
    {
      hide Phi, Wrap;
      result := 0.0;
      var f := 1.0;
      index := Wrap(index + 1);
      var n: nat := index;
      ghost var total := Phi(n, base);
      while n != 0
        invariant index == Wrap(old(index) + 1)
        invariant result + f * Phi(n, base) == total
        decreases n
      {
        var r := n % base;
        QuotientIsSmaller(n, base);
        AddDigit(result, f, n, base);
        n := n / base;
        f := f * invBase;
        result := result + r as real * f;
      }
      PhiOfZero(base);
    }

    method Draws(count: nat) returns (xs: seq<real>)
      requires Valid()
      modifies this
      ensures Valid() && index == Wrap(old(index) + count)
      ensures |xs| == count && forall i :: 0 <= i < count ==> xs[i] == Sample(base, old(index), i)
    {
      hide Phi, Wrap;
      xs := [];
      for i := 0 to count
        invariant Valid() && index == Wrap(old(index) + i)
        invariant |xs| == i && forall j :: 0 <= j < i ==> xs[j] == Sample(base, old(index), j)
      {
        WrapStep(old(index) + i);
        var x := Next();
        xs := xs + [x];
      }
    }
  }

  lemma PhiUnfold(n: nat, base: nat)
    requires base >= 2 && n != 0
    ensures 0 <= n / base
    ensures Phi(n, base) == Shift(n % base, Phi(n / base, base), base)
  {
  }

  lemma PhiTimesBase(n: nat, base: nat)
    requires base >= 2
    ensures 0 <= n / base
    ensures Phi(n, base) * base as real == (n % base) as real + Phi(n / base, base)
  {
    hide Phi, Shift;
    if n != 0 {
      PhiUnfold(n, base);
      ShiftTimesBase(n % base, Phi(n / base, base), base);
    } else {
      DivModUnique(0, base, 0, 0);
      PhiOfZero(base);
    }
  }

  lemma PhiOfZero(base: nat)
    requires base >= 2
    ensures Phi(0, base) == 0.0
  {
  }

  /** One round of the digit loop keeps the total. */
  lemma AddDigit(result: real, f: real, n: nat, base: nat)
    requires base >= 2 && n != 0
    ensures var g := f * (1.0 / base as real);
      (result + (n % base) as real * g) + g * Phi(n / base, base) == result + f * Phi(n, base)
  {
    hide *;
    PhiTimesBase(n, base);
    AddDigitOverReals(result, f, base as real, (n % base) as real, Phi(n / base, base), Phi(n, base));
  }

  lemma AddDigitOverReals(result: real, f: real, b: real, d: real, p: real, s: real)
    requires b > 0.0 && s * b == d + p
    ensures var g := f * (1.0 / b); (result + d * g) + g * p == result + f * s
  {
    var g := f * (1.0 / b);
    Cancel(f, b);
    Reassociate(g, b, s);
    Distribute(g, d, p);
  }

  lemma Cancel(f: real, b: real)
    requires b > 0.0
    ensures (f * (1.0 / b)) * b == f
  {
    assert (1.0 / b) * b == 1.0;
    Reassociate(f, 1.0 / b, b);
  }

  lemma Reassociate(x: real, y: real, z: real)
    ensures (x * y) * z == x * (y * z)
    ensures x * (y * z) == x * (z * y)
  {
  }

  lemma Distribute(x: real, y: real, z: real)
    ensures x * (y + z) == y * x + x * z
  {
  }

  /** The i-th draw (from 0) of a generator whose counter stands at `index`. */
  function Sample(base: nat, index: nat, i: nat): real
    requires base >= 2
  {
    Phi(Wrap(index + 1 + i), base)
  }
}
