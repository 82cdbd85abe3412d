/**
 What the recurrence of `MersenneTwister` keeps over unboundedly many words: a window of 624
 words, less the 31 low bits of its first, determines the whole sequence in both directions.
 */
module MersenneTheorems {
  import opened MersenneTwister

  // --- tempering loses nothing -------------------------------------------------------------------

  function Untemper11(a: bv32): bv32 { a ^ (a >> 11) ^ (a >> 22) }

  function Untemper7(a: bv32): bv32 {
    var b := a ^ ((a << 7) & 0x9d2c5680);
    var c := a ^ ((b << 7) & 0x9d2c5680);
    var d := a ^ ((c << 7) & 0x9d2c5680);
    a ^ ((d << 7) & 0x9d2c5680)
  }

  // First on the expression, which the solver simplifies away, then on the function.

  lemma Temper11Expression(x: bv32)
    ensures Untemper11(x ^ (x >> 11)) == x
  {
  }

  lemma Untemper11Inverts(x: bv32)
    ensures Untemper11(Temper11(x)) == x
  {
    hide Untemper11;
    Temper11Expression(x);
  }

  lemma Untemper7Inverts(x: bv32)
    ensures Untemper7(Temper7(x)) == x
  {
  }

  lemma Temper15Inverts(x: bv32)
    ensures Temper15(Temper15(x)) == x
  {
  }

  function Untemper18(a: bv32): bv32 { a ^ (a >> 18) }

  lemma Temper18Expression(x: bv32)
    ensures Untemper18(x ^ (x >> 18)) == x
  {
  }

  lemma Untemper18Inverts(x: bv32)
    ensures Untemper18(Temper18(x)) == x
  {
    hide Untemper18;
    Temper18Expression(x);
  }

  function Untemper(y: bv32): bv32 {
    Untemper11(Untemper7(Temper15(Untemper18(y))))
  }

  lemma UntemperInverts(x: bv32)
    ensures Untemper(Temper(x)) == x
  {
    hide Temper11, Temper7, Temper15, Temper18, Untemper11, Untemper7, Untemper18;
    Untemper18Inverts(Temper15(Temper7(Temper11(x))));
    Temper15Inverts(Temper7(Temper11(x)));
    Untemper7Inverts(Temper11(x));
    Untemper11Inverts(x);
  }

  lemma TemperIsInjective(x: bv32, y: bv32)
    ensures Temper(x) == Temper(y) <==> x == y
  {
    hide Temper, Untemper;
    UntemperInverts(x);
    UntemperInverts(y);
  }

  // --- one step, forward and backward ------------------------------------------------------------

  /** The top bit of a twisted word tells whether the constant was added, so nothing is lost. */
  lemma TwistMapIsInjective(a: bv32, b: bv32, a': bv32, b': bv32)
    requires TwistMap(a, b) == TwistMap(a', b')
    ensures UpperBit(a) == UpperBit(a') && LowerBits(b) == LowerBits(b')
  {
  }

  lemma XorCancels(c: bv32, x: bv32, y: bv32)
    requires c ^ x == c ^ y
    ensures x == y
  {
  }

  lemma NextWordDetermines(a: bv32, b: bv32, a': bv32, b': bv32, c: bv32)
    requires NextWord(a, b, c) == NextWord(a', b', c)
    ensures UpperBit(a) == UpperBit(a') && LowerBits(b) == LowerBits(b')
  {
    hide TwistMap;
    XorCancels(c, TwistMap(a, b), TwistMap(a', b'));
    TwistMapIsInjective(a, b, a', b');
  }

  lemma NextWordUsesUpperBit(a: bv32, a': bv32, b: bv32, c: bv32)
    requires UpperBit(a) == UpperBit(a')
    ensures NextWord(a, b, c) == NextWord(a', b, c)
  {
    hide UpperBit, LowerBits, TwistBits;
  }

  lemma UpperAndLower(x: bv32, y: bv32)
    requires UpperBit(x) == UpperBit(y) && LowerBits(x) == LowerBits(y)
    ensures x == y
  {
  }

  /** Two sequences agree on the 19937 bits that matter at position `n`. */
  ghost predicate AgreeAt(s: seq<bv32>, t: seq<bv32>, n: nat)
    requires |s| == |t| == N
  {
    && UpperBit(Term(s, n)) == UpperBit(Term(t, n))
    && forall i :: n < i < n + N ==> Term(s, i) == Term(t, i)
  }

  lemma StepForward(s: seq<bv32>, t: seq<bv32>, n: nat)
    requires |s| == |t| == N && AgreeAt(s, t, n)
    ensures AgreeAt(s, t, n + 1)
  {
    hide Term, NextWord, UpperBit;
    TermStep(s, n);
    TermStep(t, n);
    NextWordUsesUpperBit(Term(s, n), Term(t, n), Term(s, n + 1), Term(s, n + M));
  }

  lemma StepBackward(s: seq<bv32>, t: seq<bv32>, n: nat)
    requires |s| == |t| == N && AgreeAt(s, t, n + 1)
    ensures AgreeAt(s, t, n)
  {
    hide Term, NextWord, UpperBit, LowerBits;
    TermStep(s, n);
    TermStep(t, n);
    assert Term(s, n + N) == Term(t, n + N) && Term(s, n + M) == Term(t, n + M);
    NextWordDetermines(Term(s, n), Term(s, n + 1), Term(t, n), Term(t, n + 1), Term(s, n + M));
    UpperAndLower(Term(s, n + 1), Term(t, n + 1));
  }

  /** Agreement anywhere is agreement everywhere. */
  lemma {:induction false} AgreementSpreads(s: seq<bv32>, t: seq<bv32>, n: nat)
    requires |s| == |t| == N
    ensures AgreeAt(s, t, n) <==> AgreeAt(s, t, 0)
  {
    hide AgreeAt;
    if n == 0 {
    } else {
      AgreementSpreads(s, t, n - 1);
      if AgreeAt(s, t, n) {
        StepBackward(s, t, n - 1);
      }
      if AgreeAt(s, t, n - 1) {
        StepForward(s, t, n - 1);
      }
    }
  }

  /** The state bits that matter: the top bit of word 0 and all other words. */
  ghost predicate SameEffectiveState(s: seq<bv32>, t: seq<bv32>)
    requires |s| == |t| == N
  {
    UpperBit(s[0]) == UpperBit(t[0]) && s[1..] == t[1..]
  }

  lemma EffectiveStateIsAgreement(s: seq<bv32>, t: seq<bv32>)
    requires |s| == |t| == N
    ensures SameEffectiveState(s, t) <==> AgreeAt(s, t, 0)
  {
    hide UpperBit;
    if AgreeAt(s, t, 0) {
      forall i | 0 <= i < N - 1
        ensures s[1..][i] == t[1..][i]
      {
        assert Term(s, i + 1) == Term(t, i + 1);
      }
    } else if SameEffectiveState(s, t) {
      forall i | 0 < i < N
        ensures Term(s, i) == Term(t, i)
      {
        assert s[1..][i - 1] == t[1..][i - 1];
      }
    }
  }

  /** Any number of reloads is injective on the 19937 bits that matter: none is ever lost. */
  lemma ReloadLosesNothing(s: seq<bv32>, t: seq<bv32>, reloads: nat)
    requires |s| == |t| == N
    ensures SameEffectiveState(Window(s, N * reloads), Window(t, N * reloads)) <==> SameEffectiveState(s, t)
  {
    hide AgreeAt, SameEffectiveState, Window, Term;
    var n := N * reloads;
    var v, w := Window(s, n), Window(t, n);
    EffectiveStateIsAgreement(s, t);
    AgreementSpreads(s, t, n);
    EffectiveStateIsAgreement(v, w);
    AgreementOfWindows(s, t, n);
  }

  lemma AgreementOfWindows(s: seq<bv32>, t: seq<bv32>, n: nat)
    requires |s| == |t| == N
    ensures AgreeAt(Window(s, n), Window(t, n), 0) <==> AgreeAt(s, t, n)
  {
    hide UpperBit, Term, Window;
    forall i | 0 <= i < N
      ensures Term(Window(s, n), i) == Term(s, n + i) && Term(Window(t, n), i) == Term(t, n + i)
    {
      TermOfWindow(s, n, i);
      TermOfWindow(t, n, i);
    }
    if AgreeAt(Window(s, n), Window(t, n), 0) {
      forall i | n < i < n + N
        ensures Term(s, i) == Term(t, i)
      {
        assert Term(Window(s, n), i - n) == Term(Window(t, n), i - n);
      }
    }
  }

  // --- what the draws reveal ---------------------------------------------------------------------

  /** The i-th draw of a generator that starts with the words `s`. */
  function Draw(s: seq<bv32>, i: nat): bv32
    requires |s| == N
  {
    Temper(Term(s, N + i))
  }

  ghost predicate SameDraws(s: seq<bv32>, t: seq<bv32>, from: nat, count: nat)
    requires |s| == |t| == N
  {
    forall i :: from <= i < from + count ==> Draw(s, i) == Draw(t, i)
  }

  /**
   624 equal draws in a row, wherever they occur, happen exactly when the two generators started
   with the same effective state, and then all their draws are equal.
   */
  lemma EqualStretchMeansEqualForever(s: seq<bv32>, t: seq<bv32>, from: nat)
    requires |s| == |t| == N
    ensures SameDraws(s, t, from, N) <==> SameEffectiveState(s, t)
    ensures SameEffectiveState(s, t) ==> forall i :: Draw(s, i) == Draw(t, i)
  {
    hide Temper, Term, SameEffectiveState;
    EffectiveStateIsAgreement(s, t);
    AgreementSpreads(s, t, N + from);
    if SameDraws(s, t, from, N) {
      forall i | N + from <= i < N + from + N
        ensures Term(s, i) == Term(t, i)
      {
        assert Draw(s, i - N) == Draw(t, i - N);
        TemperIsInjective(Term(s, i), Term(t, i));
      }
    }
    if SameEffectiveState(s, t) {
      forall i: nat
        ensures Draw(s, i) == Draw(t, i)
      {
        AgreementSpreads(s, t, N + i - 1);
      }
    }
  }

  // --- seeds -------------------------------------------------------------------------------------

  function Unmix(q: bv32): bv32 { q ^ (q >> 30) }

  lemma UnmixInverts(p: bv32)
    ensures Unmix(SeedMix(p)) == p
  {
  }

  /** 0x9638806d is the inverse of the multiplier modulo 2^32. */
  function SeedDivide(p: bv32): bv32 { 0x9638806d * p }

  lemma SeedDivideProduct(x: bv32)
    ensures SeedDivide(1812433253 * x) == x
  {
  }

  lemma SeedDivideInverts(x: bv32)
    ensures SeedDivide(SeedTimes(x)) == x
  {
    hide SeedDivide;
    SeedDivideProduct(x);
  }

  lemma SeedTimesIsInjective(x: bv32, y: bv32)
    requires SeedTimes(x) == SeedTimes(y)
    ensures x == y
  {
    hide *;
    SeedDivideInverts(x);
    SeedDivideInverts(y);
  }

  function LessOne(p: bv32): bv32 { p - 1 }

  lemma LessOneOfSum(x: bv32)
    ensures LessOne(x + 1) == x
  {
  }

  lemma SeedAddOne(x: bv32)
    ensures SeedAdd(x, 1) == x + 1
  {
  }

  lemma SeedAddIsInjective(x: bv32, y: bv32)
    requires SeedAdd(x, 1) == SeedAdd(y, 1)
    ensures x == y
  {
    hide *;
    SeedAddOne(x);
    SeedAddOne(y);
    LessOneOfSum(x);
    LessOneOfSum(y);
  }

  lemma SeedStepIsInjective(p: bv32, q: bv32)
    requires SeedStep(p, 1) == SeedStep(q, 1)
    ensures p == q
  {
    hide SeedMix, SeedTimes, SeedAdd, Unmix;
    SeedAddIsInjective(SeedTimes(SeedMix(p)), SeedTimes(SeedMix(q)));
    SeedTimesIsInjective(SeedMix(p), SeedMix(q));
    UnmixInverts(p);
    UnmixInverts(q);
  }

  /** Different seeds: no 624 draws in a row are equal, however far the generators have run. */
  lemma DifferentSeedsDiffer(seed: bv32, seed': bv32, from: nat)
    requires seed != seed'
    ensures !SameDraws(SeedState(seed), SeedState(seed'), from, N)
  {
    var s, t := SeedState(seed), SeedState(seed');
    EqualStretchMeansEqualForever(s, t, from);
    if s[1..] == t[1..] {
      assert s[1..][0] == SeedStep(seed, 1) && t[1..][0] == SeedStep(seed', 1);
      SeedStepIsInjective(seed, seed');
    }
  }

  const ZERO: seq<bv32> := seq(N, _ => 0)

  lemma {:induction false} ZeroStaysZero(k: nat)
    ensures Term(ZERO, k) == 0
  {
    if k < N {
    } else {
      ZeroStaysZero(k - N + M);
      ZeroStaysZero(k - N);
      ZeroStaysZero(k - N + 1);
    }
  }

  lemma SeedWordsAreNotBothZero(seed: bv32)
    ensures SeedWord(seed, 1) != 0 || SeedWord(seed, 2) != 0
  {
    hide SeedStep;
    SeedStepOfZero();
  }

  lemma SeedStepOfZero()
    ensures SeedStep(0, 2) == 2
  {
    assert SeedMix(0) == 0;
    assert SeedTimes(0) == 0;
  }

  /** From no seed does a window ever become all zero, which would be the end of all randomness. */
  lemma SeededStateNeverDies(seed: bv32, n: nat)
    ensures exists i :: n <= i < n + N && Term(SeedState(seed), i) != 0
  {
    hide SeedWord;
    var s := SeedState(seed);
    forall i
      ensures Term(ZERO, i) == 0
    {
      ZeroStaysZero(i);
    }
    AgreementSpreads(s, ZERO, n);
    SeedWordsAreNotBothZero(seed);
    assert Term(s, 1) == SeedWord(seed, 1) && Term(s, 2) == SeedWord(seed, 2);
    assert !AgreeAt(s, ZERO, 0);
    assert !AgreeAt(s, ZERO, n);
  }
}
