/** Words of 64 bits, and the few facts about products and quotients that the verifier needs spelled out. */
module Arithmetic {

  const RANGE64: nat := 0x1_0000_0000_0000_0000

  /** What a 64-bit word keeps of a number. */
  function Wrap(i: nat): (r: nat)
    ensures r < RANGE64
    ensures i < RANGE64 ==> r == i
  {
    i % RANGE64
  }

  lemma WrapStep(i: nat)
    ensures Wrap(Wrap(i) + 1) == Wrap(i + 1)
  {
  }

  lemma WrapSum(a: nat, b: nat)
    requires a < RANGE64 && b < RANGE64
    ensures Wrap(a + b) == if a + b < RANGE64 then a + b else a + b - RANGE64
  {
  }

  lemma MulAtLeast(d: int, m: int)
    requires m > 0
    ensures d >= 1 ==> d * m >= m
    ensures d <= -1 ==> d * m <= -m
  {
  }

  /** Division with remainder is unique. */
  lemma DivModUnique(v: int, m: int, q: int, r: int)
    requires m > 0 && 0 <= r < m && v == q * m + r
    ensures v / m == q && v % m == r
  {
    MulAtLeast(q - v / m, m);
    assert (q - v / m) * m == v % m - r;
  }

  lemma DivModNat(n: nat, m: nat)
    requires m >= 1
    ensures 0 <= n / m <= n && 0 <= n % m < m
    ensures n == (n / m) * m + n % m
  {
  }

  lemma MulMonotone(x: nat, y: nat, p: nat)
    requires x <= y
    ensures x * p <= y * p
  {
  }

  lemma DigitBound(high: nat, low: nat, base: nat, p: nat)
    requires high < base && low < p
    ensures high * p + low < base * p
  {
    MulMonotone(high, base - 1, p);
    assert (base - 1) * p == base * p - p;
  }

  lemma ModSplit(n: nat, base: nat, p: nat)
    requires base >= 1 && p >= 1
    ensures base * p >= 1
    ensures n % (base * p) == n % base + base * ((n / base) % p)
  {
    var q, r := (n / base) / p, (n / base) % p;
    MulAtLeast(base, p);
    DigitBound(r, n % base, p, base);
    assert n == base * (q * p + r) + n % base;
    assert base * (q * p) == q * (base * p);
    assert base * (q * p + r) == base * (q * p) + base * r;
    DivModUnique(n, base * p, q, n % base + base * r);
  }

  function Min(a: nat, b: nat): nat {
    if a < b then a else b
  }

  function Sum(counts: seq<nat>): nat {
    if counts == [] then 0 else counts[0] + Sum(counts[1..])
  }

  /** A product of reals, named so that proofs can hide it from the solver. */
  function Product(x: real, y: real): real { x * y }
}
