/**
 The generator MT19937: section 29.6.3.2 [rand.eng.mers] of ISO/IEC 14882:2017, and section 2.1
 of Matsumoto and Nishimura, "Mersenne Twister", 1998.  `Term` is the recurrence of those texts
 over an unbounded index; the class keeps only 624 words and overwrites them in place.
 */
module MersenneTwister {

  const N: nat := 624
  const M: nat := 397

  // --- the recurrence ----------------------------------------------------------------------------

  function UpperBit(x: bv32): bv32 { x & 0x80000000 }

  function LowerBits(x: bv32): bv32 { x & 0x7fffffff }

  /** The recurrence's linear map, on the top bit of one word and the low bits of the next. */
  function TwistBits(upper: bv32, lower: bv32): bv32 {
    var y := upper | lower;
    (y >> 1) ^ (if y & 1 == 1 then 0x9908b0df else 0)
  }

  function TwistMap(x: bv32, next: bv32): bv32 {
    TwistBits(UpperBit(x), LowerBits(next))
  }

  function NextWord(x: bv32, next: bv32, shifted: bv32): bv32 {
    shifted ^ TwistMap(x, next)
  }

  /** Term `k` of the sequence whose first 624 terms are `initial`. */
  function Term(initial: seq<bv32>, k: nat): bv32
    requires |initial| == N
  {
    if k < N then initial[k]
    else NextWord(Term(initial, k - N), Term(initial, k - N + 1), Term(initial, k - N + M))
  }

  lemma TermStep(initial: seq<bv32>, k: nat)
    requires |initial| == N
    ensures Term(initial, k + N) == NextWord(Term(initial, k), Term(initial, k + 1), Term(initial, k + M))
  {
  }

  /** Terms `from .. from + 624`. */
  function Window(initial: seq<bv32>, from: nat): (w: seq<bv32>)
    requires |initial| == N
    ensures |w| == N
  {
    seq(N, i requires 0 <= i < N => Term(initial, from + i))
  }

  function Temper11(x: bv32): bv32 { x ^ (x >> 11) }

  function Temper7(x: bv32): bv32 { x ^ ((x << 7) & 0x9d2c5680) }

  function Temper15(x: bv32): bv32 { x ^ ((x << 15) & 0xefc60000) }

  function Temper18(x: bv32): bv32 { x ^ (x >> 18) }

  function Temper(x: bv32): bv32 {
    Temper18(Temper15(Temper7(Temper11(x))))
  }

  function SeedMix(p: bv32): bv32 { p ^ (p >> 30) }

  function SeedTimes(p: bv32): bv32 { 1812433253 * p }

  function SeedAdd(p: bv32, i: nat): bv32
    requires i < N
  {
    p + i as bv32
  }

  function SeedStep(previous: bv32, i: nat): bv32
    requires i < N
  {
    SeedAdd(SeedTimes(SeedMix(previous)), i)
  }

  /** The words `seed` fills in. */
  function SeedWord(seed: bv32, i: nat): bv32
    requires i < N
  {
    if i == 0 then seed
    else SeedStep(SeedWord(seed, i - 1), i)
  }

  function SeedState(seed: bv32): (s: seq<bv32>)
    ensures |s| == N
  {
    seq(N, i requires 0 <= i < N => SeedWord(seed, i))
  }

  // --- sliding the window ------------------------------------------------------------------------

  /** A window is itself the start of the sequence that follows. */
  lemma {:induction false} TermOfWindow(initial: seq<bv32>, from: nat, k: nat)
    requires |initial| == N
    ensures Term(Window(initial, from), k) == Term(initial, from + k)
    decreases k
  {
    if k < N {
    } else {
      TermOfWindow(initial, from, k - N + M);
      TermOfWindow(initial, from, k - N);
      TermOfWindow(initial, from, k - N + 1);
    }
  }

  lemma WindowAtZero(initial: seq<bv32>)
    requires |initial| == N
    ensures Window(initial, 0) == initial
  {
  }

  /** `twist`, with its table of two words. */
  function Twist(a: bv32, b: bv32, c: bv32): bv32 {
    var y := UpperBit(a) | LowerBits(b);
    c ^ (y >> 1) ^ Magic01(y & 0x1)
  }

  function Magic01(bit: bv32): bv32 {
    if bit == 0 then 0x0 else 0x9908b0df
  }

  /** `twist`, with its table of two words, is one step of the recurrence. */
  lemma TwistIsNextWord(a: bv32, b: bv32, c: bv32)
    ensures Twist(a, b, c) == NextWord(a, b, c)
  {
    hide UpperBit, LowerBits;
    TwistWord(UpperBit(a) | LowerBits(b), c);
    hide Magic01;
  }

  lemma TwistWord(y: bv32, c: bv32)
    ensures c ^ (y >> 1) ^ Magic01(y & 0x1) == c ^ ((y >> 1) ^ (if y & 1 == 1 then 0x9908b0df else 0))
  {
    LowBit(y);
    XorAssociative(c, y >> 1, Magic01(y & 0x1));
  }

  lemma LowBit(y: bv32)
    ensures y & 1 == 1 <==> y & 1 != 0
  {
  }

  lemma XorAssociative(a: bv32, b: bv32, c: bv32)
    ensures (a ^ b) ^ c == a ^ (b ^ c)
  {
  }

  // --- the class ---------------------------------------------------------------------------------

  class RandomMT19937 {
    const state: array<bv32>
    var index: nat

    /** The 624 terms the generator's sequence starts with, and the index of the next term drawn. */
    ghost var initial: seq<bv32>
    ghost var next: nat

    ghost predicate Valid()
      reads this, state
    {
      && state.Length == N && |initial| == N
      && (index <= N ==> index <= next && state[..] == Window(initial, next - index))
      && (index == N + 1 ==> initial == SeedState(5489) && next == N)
      && (index > N + 1 ==> state[..] == initial && next == N)
    }

    /** The n-th number still to come. */
    ghost function Upcoming(n: nat): bv32
      reads this
      requires |initial| == N
    {
      Temper(Term(initial, next + n))
    }

    /** Not seeded yet: the words are whatever the memory holds. */
    constructor ()
      ensures Valid() && fresh(state)
      ensures initial == SeedState(5489) && next == N
    {
      state := new bv32[N];
      index := N + 1;
      initial, next := SeedState(5489), N;
    }

    constructor FromSeed(seed: bv32)
      ensures Valid() && fresh(state)
      ensures initial == SeedState(seed) && next == N
    {
      state := new bv32[N];
      index := 0;
      new;
      Seed(seed);
    }

    method Seed(seed: bv32)
      requires state.Length == N
      modifies this, state
      ensures Valid()
      ensures initial == SeedState(seed) && next == N && index == N
    {
      hide SeedStep, NextWord;
      state[0] := seed;
      for i := 1 to N
        modifies state
        invariant forall j :: 0 <= j < i ==> state[j] == SeedWord(seed, j)
      {
        state[i] := SeedStep(state[i - 1], i);
      }
      index := N;
      initial, next := SeedState(seed), N;
      WindowAtZero(initial);
      assert state[..] == initial;
    }

    method Reload()
      requires Valid() && index >= N
      modifies this, state
      ensures Valid()
      ensures initial == old(initial) && next == old(next) && index == 0
    {
      hide SeedWord, Term;
      if index == N + 1 {
        Seed(5489);
      }
      ghost var base := if index == N then next - N else 0;
      WindowAtZero(initial);
      assert state[..] == Window(initial, base);
      Regenerate(base);
      index := 0;
    }

    /** The words before `k` are already the next ones. */
    ghost predicate Mixed(base: nat, k: nat)
      requires state.Length == N && |initial| == N && k <= N
      reads this, state
    {
      && (forall j :: 0 <= j < k ==> state[j] == Term(initial, base + N + j))
      && (forall j :: k <= j < N ==> state[j] == Term(initial, base + j))
    }

    /** `reload` in place: from word 227 on it reads words it has just written. */
    method Regenerate(ghost base: nat)
      requires state.Length == N && |initial| == N && state[..] == Window(initial, base)
      modifies state
      ensures state[..] == Window(initial, base + N)
    {
      hide NextWord, Twist, Term;
      assert forall j :: 0 <= j < N ==> state[j] == state[..][j];
      RegenerateFront(base);
      RegenerateBack(base);
      TermStep(initial, base + N - 1);
      TwistIsNextWord(state[N - 1], state[0], state[M - 1]);
      state[N - 1] := Twist(state[N - 1], state[0], state[M - 1]);
    }

    /** The first loop: only words that are still the old ones are read. */
    method RegenerateFront(ghost base: nat)
      requires state.Length == N && |initial| == N && Mixed(base, 0)
      modifies state
      ensures Mixed(base, N - M)
    {
      hide NextWord, Twist, Term;
      var k := 0;
      while k < N - M
        invariant k <= N - M && Mixed(base, k)
      {
        TermStep(initial, base + k);
        TwistIsNextWord(state[k], state[k + 1], state[k + M]);
        state[k] := Twist(state[k], state[k + 1], state[k + M]);
        k := k + 1;
      }
    }

    /** The second loop: the third word read is one of the new ones. */
    method RegenerateBack(ghost base: nat)
      requires state.Length == N && |initial| == N && Mixed(base, N - M)
      modifies state
      ensures Mixed(base, N - 1)
    {
      hide NextWord, Twist, Term;
      var k := N - M;
      while k < N - 1
        invariant N - M <= k <= N - 1 && Mixed(base, k)
      {
        TermStep(initial, base + k);
        TwistIsNextWord(state[k], state[k + 1], state[k + M - N]);
        state[k] := Twist(state[k], state[k + 1], state[k + M - N]);
        k := k + 1;
      }
    }

    method Next() returns (y: bv32)
      requires Valid()
      modifies this, state
      ensures Valid() && initial == old(initial)
      ensures y == old(Upcoming(0)) && next == old(next) + 1
    {
      hide Temper11, Temper7, Temper15, Temper18, Term;
      if index >= N {
        Reload();
      }
      y := state[index];
      assert y == Term(initial, next);
      index := index + 1;
      next := next + 1;
      y := Temper11(y);
      y := Temper7(y);
      y := Temper15(y);
      y := Temper18(y);
    }

    /** Any number of draws, across any number of reloads. */
    method Draws(n: nat) returns (ys: seq<bv32>)
      requires Valid()
      modifies this, state
      ensures Valid() && initial == old(initial) && next == old(next) + n
      ensures |ys| == n && forall i :: 0 <= i < n ==> ys[i] == old(Upcoming(i))
    {
      ys := [];
      for i := 0 to n
        invariant Valid() && initial == old(initial) && next == old(next) + i
        invariant |ys| == i && forall j :: 0 <= j < i ==> ys[j] == old(Upcoming(j))
      {
        var y := Next();
        ys := ys + [y];
      }
    }

    /** The index, then the words. */
    method GetState() returns (i: nat, words: seq<bv32>)
      requires Valid()
      ensures i == index && words == state[..]
    {
      i, words := index, state[..];
    }

    method SetState(i: nat, words: seq<bv32>)
      requires |words| == N == state.Length
      modifies this, state
      ensures Valid() && index == i
      ensures initial == if i == N + 1 then SeedState(5489) else words
      ensures next == if i <= N then i else N
    {
      index := i;
      forall k | 0 <= k < N {
        state[k] := words[k];
      }
      initial := if i == N + 1 then SeedState(5489) else words;
      next := if i <= N then i else N;
      assert state[..] == words;
      WindowAtZero(words);
    }
  }

  /** A generator restored from another one's state continues that one's sequence. */
  method Restore(from: RandomMT19937, to: RandomMT19937)
    requires from.Valid() && to.state.Length == N
    requires from != to && from.state != to.state
    modifies to, to.state
    ensures from.Valid() && to.Valid()
    ensures forall n :: to.Upcoming(n) == from.Upcoming(n)
  {
    hide Temper, Term, SeedWord;
    var i, words := from.GetState();
    to.SetState(i, words);
    forall n
      ensures to.Upcoming(n) == from.Upcoming(n)
    {
      if from.index <= N {
        TermOfWindow(from.initial, from.next - from.index, to.next + n);
      }
    }
  }

  /** Unseeded and seeded with 5489: the same numbers, however many are drawn. */
  method DefaultIsSeed5489(n: nat) returns (a: seq<bv32>, b: seq<bv32>)
    ensures a == b && |a| == n
  {
    var g := new RandomMT19937();
    var h := new RandomMT19937.FromSeed(5489);
    a := g.Draws(n);
    b := h.Draws(n);
  }

  /** The i-th draw after seeding is tempered term 624 + i, for every seed and every i. */
  method SeededDraws(seed: bv32, n: nat) returns (ys: seq<bv32>)
    ensures |ys| == n && forall i :: 0 <= i < n ==> ys[i] == Temper(Term(SeedState(seed), N + i))
  {
    var g := new RandomMT19937.FromSeed(seed);
    ys := g.Draws(n);
  }
}
