/** The numbers xorshift128+ draws: sums of words as integers, and the first draws of a seed. */
module XorShiftValues {
  import opened Arithmetic
  import opened XorShift

  // --- words and their halves --------------------------------------------------------------------

  /** The number a word stands for. */
  function Value(x: bv64): nat { x as nat }

  function Half(x: bv64): bv64 { x >> 1 }

  predicate Odd(x: bv64) { x & 1 == 1 }

  predicate Small(x: bv64) { x < 0x8000_0000_0000_0000 }

  function Low63(x: bv64): bv64 { x & 0x7fff_ffff_ffff_ffff }

  function Plus(x: bv64, y: bv64): bv64 { x + y }

  function Word(on: bool): bv64 {
    if on then 1 else 0
  }

  function One(on: bool): nat {
    if on then 1 else 0
  }

  /** The word with the bits of `half` moved up by one and the last bit given. */
  function Join(half: bv64, odd: bool): bv64 {
    Plus(Plus(half, half), Word(odd))
  }

  function AddWithCarry(x: bv64, y: bv64, carry: bool): bv64 {
    Plus(Plus(x, y), Word(carry))
  }

  lemma JoinHalf(x: bv64)
    ensures Join(Half(x), Odd(x)) == x && Small(Half(x))
  {
    if x & 1 == 1 {
      OddHalf(x);
    } else {
      EvenHalf(x);
    }
  }

  lemma OddHalf(x: bv64)
    requires x & 1 == 1
    ensures ((x >> 1) + (x >> 1)) + 1 == x
  {
  }

  lemma EvenHalf(x: bv64)
    requires x & 1 != 1
    ensures ((x >> 1) + (x >> 1)) + 0 == x
  {
  }

  lemma JoinValue(half: bv64, odd: bool)
    requires Small(half)
    ensures Value(Join(half, odd)) == 2 * Value(half) + One(odd)
  {
    hide Value;
    if odd {
      OddIsShift(half);
      OddValue(half);
    } else {
      EvenIsShift(half);
      EvenValue(half);
    }
  }

  lemma EvenIsShift(half: bv64)
    ensures Join(half, false) == half << 1
  {
  }

  lemma OddIsShift(half: bv64)
    ensures Join(half, true) == (half << 1) | 1
  {
  }

  lemma EvenValue(half: bv64)
    requires half < 0x8000_0000_0000_0000
    ensures Value(half << 1) == 2 * Value(half)
  {
  }

  lemma OddValue(half: bv64)
    requires half < 0x8000_0000_0000_0000
    ensures Value((half << 1) | 1) == 2 * Value(half) + 1
  {
  }

  /** The top bit of the half is lost. */
  lemma JoinLow(half: bv64, odd: bool)
    ensures Join(half, odd) == Join(Low63(half), odd) && Small(Low63(half))
  {
    ShiftLow(half);
    if odd {
      OddIsShift(half);
      OddIsShift(Low63(half));
    } else {
      EvenIsShift(half);
      EvenIsShift(Low63(half));
    }
    hide Join;
  }

  lemma ShiftLow(half: bv64)
    ensures half << 1 == Low63(half) << 1
  {
  }

  lemma TopBitClear(x: bv64)
    requires Small(x)
    ensures Low63(x) == x
  {
  }

  lemma TopBitSet(x: bv64)
    requires !Small(x)
    ensures Low63(x) | 0x8000_0000_0000_0000 == x && Small(Low63(x))
  {
  }

  lemma TopBitValue(low: bv64)
    requires Small(low)
    ensures Value(low | 0x8000_0000_0000_0000) == Value(low) + 0x8000_0000_0000_0000
  {
  }

  function Both(x: bv64, y: bv64): bv64 { x | y }

  predicate IsZero(x: bv64) { x == 0 }

  lemma Shorter(x: bv64, y: bv64)
    requires !IsZero(Both(x, y))
    ensures Both(Half(x), Half(y)) < Both(x, y)
  {
  }

  lemma HalvesOfSmall(x: bv64, y: bv64, c: bool)
    requires Small(x) && Small(y)
    ensures Small(AddWithCarry(Half(x), Half(y), c))
  {
  }

  lemma Nothing(x: bv64, y: bv64, c: bool)
    requires IsZero(Both(x, y))
    ensures Value(x) == 0 && Value(y) == 0 && Value(AddWithCarry(x, y, c)) == One(c)
  {
    assert x == 0 && y == 0;
  }

  // --- rearranging sums --------------------------------------------------------------------------

  lemma PlusAssociates(x: bv64, y: bv64, z: bv64)
    ensures Plus(Plus(x, y), z) == Plus(x, Plus(y, z))
  {
    assert Plus(x + y, z) == Plus(x, y + z);
  }

  lemma Interchange(p: bv64, q: bv64, r: bv64, s: bv64)
    ensures Plus(Plus(p, q), Plus(r, s)) == Plus(Plus(p, r), Plus(q, s))
  {
    assert Plus(p + q, r + s) == Plus(p + r, q + s);
  }

  /** Three bits added: a carry and a last bit. */
  lemma ThreeBits(a: bool, b: bool, c: bool)
    ensures var d, e := (a && b) || (a && c) || (b && c), (a != b) != c;
      Plus(Plus(Word(a), Word(b)), Word(c)) == Plus(Plus(Word(d), Word(d)), Word(e))
  {
  }

  lemma AddJoined(x: bv64, y: bv64, a: bool, b: bool, c: bool)
    ensures AddWithCarry(Join(x, a), Join(y, b), c) ==
      Join(AddWithCarry(x, y, (a && b) || (a && c) || (b && c)), (a != b) != c)
  {
    var d, e := (a && b) || (a && c) || (b && c), (a != b) != c;
    hide Plus, Word;
    ThreeBits(a, b, c);
    var s := Plus(x, y);
    Interchange(Plus(x, x), Word(a), Plus(y, y), Word(b));
    Interchange(x, x, y, y);
    PlusAssociates(Plus(s, s), Plus(Word(a), Word(b)), Word(c));
    Interchange(s, Word(d), s, Word(d));
    PlusAssociates(Plus(s, s), Plus(Word(d), Word(d)), Word(e));
  }

  // --- sums --------------------------------------------------------------------------------------

  /** One step of the addition: the last digits, the carry, and the halves. */
  lemma AddHalves(x: bv64, y: bv64, c: bool) returns (d: bool, e: bool)
    ensures AddWithCarry(x, y, c) == Join(AddWithCarry(Half(x), Half(y), d), e)
    ensures Value(x) + Value(y) + One(c) == 2 * (Value(Half(x)) + Value(Half(y)) + One(d)) + One(e)
  {
    var a, b := Odd(x), Odd(y);
    d, e := (a && b) || (a && c) || (b && c), (a != b) != c;
    hide Value, Half, Odd, Small, Join, AddWithCarry;
    JoinHalf(x);
    JoinHalf(y);
    JoinValue(Half(x), a);
    JoinValue(Half(y), b);
    AddJoined(Half(x), Half(y), a, b, c);
  }

  /** Words below 2^63 do not overflow. */
  lemma {:induction false} SmallSum(x: bv64, y: bv64, c: bool)
    requires Small(x) && Small(y)
    ensures Value(AddWithCarry(x, y, c)) == Value(x) + Value(y) + One(c)
    decreases Both(x, y)
  {
    hide Value, Half, Odd, Small, Join, AddWithCarry, Both, IsZero;
    if IsZero(Both(x, y)) {
      Nothing(x, y, c);
    } else {
      Shorter(x, y);
      JoinHalf(x);
      JoinHalf(y);
      var d, e := AddHalves(x, y, c);
      SmallSum(Half(x), Half(y), d);
      HalvesOfSmall(x, y, d);
      JoinValue(AddWithCarry(Half(x), Half(y), d), e);
    }
  }

  lemma LowValue(x: bv64)
    ensures Value(x) == Value(Low63(x)) + if Small(x) then 0 else 0x8000_0000_0000_0000
  {
    hide Value, Small, Low63;
    if Small(x) {
      TopBitClear(x);
    } else {
      TopBitSet(x);
      TopBitValue(Low63(x));
    }
  }

  /** Addition of words is addition modulo 2^64. */
  lemma SumIsModular(x: bv64, y: bv64)
    ensures Value(XorShift.Sum(x, y)) == (Value(x) + Value(y)) % RANGE64
  {
    hide Value, Half, Odd, Small, Low63, Join, AddWithCarry, XorShift.Sum;
    SumIsAdd(x, y);
    var d, e := AddHalves(x, y, false);
    var sum := AddWithCarry(Half(x), Half(y), d);
    JoinHalf(x);
    JoinHalf(y);
    SmallSum(Half(x), Half(y), d);
    JoinLow(sum, e);
    JoinValue(Low63(sum), e);
    LowValue(sum);
    ValueBound(Join(Low63(sum), e));
    Modulo(Value(Low63(sum)), Small(sum), e);
  }

  lemma ValueBound(x: bv64)
    ensures Value(x) < RANGE64
  {
  }

  lemma SumIsAdd(x: bv64, y: bv64)
    ensures XorShift.Sum(x, y) == AddWithCarry(x, y, false)
  {
    assert AddWithCarry(x, y, false) == (x + y) + 0;
  }

  lemma Modulo(low: nat, small: bool, e: bool)
    requires 2 * low + One(e) < RANGE64
    ensures 2 * low + One(e) == (2 * (low + if small then 0 else 0x8000_0000_0000_0000) + One(e)) % RANGE64
  {
  }

  /** The number drawn is the sum of the two words of the new state, modulo 2^64. */
  lemma DrawIsSumOfWords(s: State, n: nat)
    requires n >= 1
    ensures var t := Run(s, n); Value(Output(t)) == (Value(t.s0) + Value(t.s1)) % RANGE64
  {
    hide Value, XorShift.Sum, Run;
    var t := Run(s, n);
    SumIsModular(t.s1, t.s0);
  }

  /** The first draws after seeding with 42, worked out from the recurrence. */
  lemma FirstDraws()
    ensures Output(Run(Seeded(42), 1)) == 0x1501_f554
    ensures Output(Run(Seeded(42), 2)) == 0x7f_ffc0_eac4
    ensures Output(Run(Seeded(42), 3)) == 0xa_807f_ffc2_356f
    ensures Output(Run(Seeded(42), 4)) == 0x400a_407f_fa61_5bf5
  {
    assert Run(Seeded(42), 1) == State(0xffff, 0x1500_f555);
    assert Run(Seeded(42), 2) == State(0x1500_f555, 0x7f_eabf_f56f);
    assert Run(Seeded(42), 3) == State(0x7f_eabf_f56f, 0xa_8000_1502_4000);
    assert Run(Seeded(42), 4) == State(0xa_8000_1502_4000, 0x3fff_c07f_e55f_1bf5);
  }
}
