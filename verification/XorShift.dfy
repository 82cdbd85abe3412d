/** The xorshift128+ generator: two 64-bit words of state and a step that can be undone. */
module XorShift {

  datatype State = State(s0: bv64, s1: bv64)

  const DEAD := State(0, 0)

  function ShiftUp(x: bv64): bv64 { x ^ (x << 23) }

  function Scramble(x: bv64, y: bv64): bv64 { x ^ y ^ (x >> 17) ^ (y >> 26) }

  function Sum(x: bv64, y: bv64): bv64 { x + y }

  function Step(s: State): State {
    State(s.s1, Scramble(ShiftUp(s.s0), s.s1))
  }

  /** The number returned together with state `s`. */
  function Output(s: State): bv64 {
    Sum(s.s1, s.s0)
  }

  /** The state after `n` draws. */
  function Run(s: State, n: nat): State {
    if n == 0 then s else Step(Run(s, n - 1))
  }

  function Seeded(seed: bv64): State {
    State(seed, 0xffff)
  }

  class RandomXorShift128Plus {
    const state: array<bv64>

    ghost predicate Valid()
      reads this
    {
      state.Length == 2
    }

    ghost function Model(): State
      requires Valid()
      reads this, state
    {
      State(state[0], state[1])
    }

    /** The words are whatever the memory holds. */
    constructor ()
      ensures Valid() && fresh(state)
    {
      state := new bv64[2];
    }

    constructor FromSeed(seed: bv64)
      ensures Valid() && fresh(state) && Model() == Seeded(seed)
    {
      state := new bv64[2];
      new;
      Seed(seed);
    }

    method Seed(seed: bv64)
      requires Valid()
      modifies state
      ensures Model() == Seeded(seed)
    {
      state[0] := seed;
      state[1] := 0xffff;
    }

    method Next() returns (r: bv64)
      requires Valid()
      modifies state
      ensures Model() == Step(old(Model())) && r == Output(Model())
    {
      hide ShiftUp, Scramble, Sum;
      var x := state[0];
      var y := state[1];
      state[0] := y;
      x := ShiftUp(x);
      state[1] := Scramble(x, y);
      r := Sum(state[1], y);
    }

    method Draws(n: nat) returns (rs: seq<bv64>)
      requires Valid()
      modifies state
      ensures Model() == Run(old(Model()), n)
      ensures |rs| == n && forall i :: 0 <= i < n ==> rs[i] == Output(Run(old(Model()), i + 1))
    {
      hide Step, Output;
      rs := [];
      for i := 0 to n
        invariant Model() == Run(old(Model()), i)
        invariant |rs| == i && forall j :: 0 <= j < i ==> rs[j] == Output(Run(old(Model()), j + 1))
      {
        var r := Next();
        rs := rs + [r];
      }
    }
  }

  // --- undoing a step ----------------------------------------------------------------------------

  function Xor(x: bv64, y: bv64): bv64 { x ^ y }

  function Shift17(x: bv64): bv64 { x ^ (x >> 17) }

  function Shift26(x: bv64): bv64 { x ^ (x >> 26) }

  function ShiftUpBack(a: bv64): bv64 { a ^ (a << 23) ^ (a << 46) }

  function Shift17Back(a: bv64): bv64 { a ^ (a >> 17) ^ (a >> 34) ^ (a >> 51) }

  function StepBack(s: State): State {
    State(ShiftUpBack(Shift17Back(Xor(s.s1, Shift26(s.s0)))), s.s0)
  }

  // Each pair first states the identity on the expression, which the solver simplifies away, and
  // then on the function, whose value is that expression.

  lemma ShiftUpExpression(x: bv64)
    ensures ShiftUpBack(x ^ (x << 23)) == x
    ensures ShiftUp(x ^ (x << 23) ^ (x << 46)) == x
  {
  }

  lemma ShiftUpInverse(x: bv64)
    ensures ShiftUpBack(ShiftUp(x)) == x
  {
    hide ShiftUpBack;
    ShiftUpExpression(x);
  }

  lemma ShiftUpBackInverse(x: bv64)
    ensures ShiftUp(ShiftUpBack(x)) == x
  {
    hide ShiftUp;
    ShiftUpExpression(x);
  }

  lemma Shift17Expression(x: bv64)
    ensures Shift17Back(x ^ (x >> 17)) == x
    ensures Shift17(x ^ (x >> 17) ^ (x >> 34) ^ (x >> 51)) == x
  {
  }

  lemma Shift17Inverse(x: bv64)
    ensures Shift17Back(Shift17(x)) == x
  {
    hide Shift17Back;
    Shift17Expression(x);
  }

  lemma Shift17BackInverse(x: bv64)
    ensures Shift17(Shift17Back(x)) == x
  {
    hide Shift17;
    Shift17Expression(x);
  }

  lemma ScrambleExpression(x: bv64, y: bv64)
    ensures Xor(x ^ (x >> 17), y ^ (y >> 26)) == x ^ y ^ (x >> 17) ^ (y >> 26)
  {
  }

  lemma ScrambleSeparates(x: bv64, y: bv64)
    ensures Scramble(x, y) == Xor(Shift17(x), Shift26(y))
  {
    hide Xor;
    ScrambleExpression(x, y);
  }

  lemma XorTwice(x: bv64, y: bv64)
    ensures Xor(Xor(x, y), y) == x
  {
  }

  lemma StepBackInverts(s: State)
    ensures StepBack(Step(s)) == s
  {
    hide ShiftUp, Scramble, ShiftUpBack, Shift17, Shift17Back, Shift26, Xor;
    var x := ShiftUp(s.s0);
    ScrambleSeparates(x, s.s1);
    XorTwice(Shift17(x), Shift26(s.s1));
    Shift17Inverse(x);
    ShiftUpInverse(s.s0);
  }

  lemma StepInvertsBack(s: State)
    ensures Step(StepBack(s)) == s
  {
    hide ShiftUp, Scramble, ShiftUpBack, Shift17, Shift17Back, Shift26, Xor;
    var z := Xor(s.s1, Shift26(s.s0));
    ShiftUpBackInverse(Shift17Back(z));
    ScrambleSeparates(Shift17Back(z), s.s0);
    Shift17BackInverse(z);
    XorTwice(s.s1, Shift26(s.s0));
  }

  lemma StepOfDead()
    ensures Step(DEAD) == DEAD
  {
    assert ShiftUp(0) == 0;
    assert Scramble(0, 0) == 0;
  }

  // --- whole runs --------------------------------------------------------------------------------

  function RunBack(s: State, n: nat): State
    decreases n
  {
    if n == 0 then s else RunBack(StepBack(s), n - 1)
  }

  /** A run is a bijection on the 2^128 states; this is its inverse. */
  lemma {:induction false} RunIsBijective(s: State, n: nat)
    ensures RunBack(Run(s, n), n) == s
    ensures Run(RunBack(s, n), n) == s
    decreases n
  {
    hide Step, StepBack;
    if n == 0 {
    } else {
      RunIsBijective(s, n - 1);
      StepBackInverts(Run(s, n - 1));
      RunIsBijective(StepBack(s), n - 1);
      StepInvertsBack(s);
    }
  }

  /** After the same number of draws two generators share a state only if they always did. */
  lemma RunsMeetOnlyIfEqual(s: State, t: State, n: nat)
    ensures Run(s, n) == Run(t, n) <==> s == t
  {
    RunIsBijective(s, n);
    RunIsBijective(t, n);
  }

  lemma {:induction false} DeadStaysDead(n: nat)
    ensures Run(DEAD, n) == DEAD
  {
    hide Step;
    if n == 0 {
    } else {
      DeadStaysDead(n - 1);
      StepOfDead();
    }
  }

  /** The all-zero state, from which every draw is zero, is reached from nowhere else. */
  lemma DeadIsIsolated(s: State, n: nat)
    ensures Run(s, n) == DEAD <==> s == DEAD
  {
    hide Run;
    DeadStaysDead(n);
    RunsMeetOnlyIfEqual(s, DEAD, n);
  }

  /** From no seed is it reached, and different seeds never share a state after equally many draws. */
  lemma SeededRuns(seed: bv64, seed': bv64, n: nat)
    ensures Run(Seeded(seed), n) != DEAD
    ensures seed != seed' ==> Run(Seeded(seed), n) != Run(Seeded(seed'), n)
  {
    hide Run;
    DeadIsIsolated(Seeded(seed), n);
    RunsMeetOnlyIfEqual(Seeded(seed), Seeded(seed'), n);
  }
}
