/**
 `BinaryIMemoryBlock`: an input stream over a block of memory, with a 64-bit position that
 wraps around.  `Cursor` is the same stream over unbounded integers; the class is proved to
 behave like it.
 */
module MemoryBlock {
  import opened Arithmetic
  import opened Bytes
  import opened StreamState

  const OFF_MIN: int := -0x8000_0000_0000_0000
  const OFF_MAX: int := 0x7fff_ffff_ffff_ffff

  datatype Direction = Beg | Cur | End

  // --- the stream over unbounded integers --------------------------------------------------------

  datatype Cursor = Cursor(block: Option<seq<byte>>, size: nat, position: nat, state: IoState) {

    ghost predicate Valid() {
      && size < RANGE64 && position < RANGE64
      && (block.Some? ==> |block.value| == size)
    }

    /** The bytes between the position and `n` bytes further, as far as the block goes. */
    function Ahead(n: nat): seq<byte>
      requires block.Some? && |block.value| == size
    {
      if position >= size then []
      else if position + n > size then block.value[position..]
      else block.value[position..position + n]
    }

    function Read(n: nat): (r: (Cursor, seq<byte>))
      requires block.Some? ==> |block.value| == size
    {
      if block.None? then (this.(state := state.(bad := true)), [])
      else if !state.IsGood() then (this, [])
      else if position >= size then (this.(state := state.(eof := true)), [])
      else (this.(position := position + |Ahead(n)|), Ahead(n))
    }

    /** Moves to `target` if that is a position at all. */
    function MoveTo(target: int): Cursor {
      if 0 <= target < RANGE64 then this.(position := target)
      else this.(state := state.(failed := true))
    }

    function SeekTo(target: nat): Cursor {
      var c := this.(state := state.WithoutEof());
      if c.state.IsGood() then c.(position := target) else c
    }

    function Seek(offset: int, direction: Direction): Cursor {
      var c := this.(state := state.WithoutEof());
      if c.state.IsGood() then
        var origin := match direction case Beg => 0 case Cur => position case End => size;
        c.MoveTo(origin + offset)
      else c
    }
  }

  /** A stream just opened over `data`. */
  function Open(data: seq<byte>): Cursor {
    Cursor(Some(data), |data|, 0, GOOD)
  }

  datatype Op = Read(n: nat) | SeekTo(target: nat) | Seek(offset: int, direction: Direction) {
    /** The arguments fit `size_t` and `off_type`; the least `off_type` is never negated. */
    predicate Representable() {
      match this
      case Read(n) => n < RANGE64
      case SeekTo(target) => target < RANGE64
      case Seek(offset, direction) => OFF_MIN <= offset <= OFF_MAX && (offset == OFF_MIN ==> direction == Beg)
    }
  }

  function Apply(c: Cursor, op: Op): (r: (Cursor, seq<byte>))
    requires c.block.Some? ==> |c.block.value| == c.size
    ensures r.0.block == c.block && r.0.size == c.size
  {
    match op
    case Read(n) => c.Read(n)
    case SeekTo(target) => (c.SeekTo(target), [])
    case Seek(offset, direction) => (c.Seek(offset, direction), [])
  }

  /** A whole run: the final stream and what each operation returned. */
  function Run(c: Cursor, ops: seq<Op>): (r: (Cursor, seq<seq<byte>>))
    requires c.block.Some? ==> |c.block.value| == c.size
    ensures |r.1| == |ops|
    decreases |ops|
  {
    if ops == [] then (c, [])
    else
      var (c', got) := Apply(c, ops[0]);
      var (last, rest) := Run(c', ops[1..]);
      (last, [got] + rest)
  }

  // --- what every run keeps ----------------------------------------------------------------------

  lemma {:induction false} RunKeepsValid(c: Cursor, ops: seq<Op>)
    requires c.Valid() && forall op :: op in ops ==> op.Representable()
    ensures Run(c, ops).0.Valid()
    ensures Run(c, ops).0.block == c.block
    decreases |ops|
  {
    if ops == [] {
    } else {
      assert ops[0].Representable();
      RunKeepsValid(Apply(c, ops[0]).0, ops[1..]);
    }
  }

  /** A seek fails exactly when its target is no position, and then leaves the position alone. */
  lemma SeekFailsExactlyOffTheRange(c: Cursor, offset: int, direction: Direction)
    requires c.Valid() && !c.state.failed && !c.state.bad
    ensures var target := offset + (match direction case Beg => 0 case Cur => c.position case End => c.size);
      var c' := c.Seek(offset, direction);
      && (c'.state.failed <==> !(0 <= target < RANGE64))
      && c'.position == (if c'.state.failed then c.position else target)
      && !c'.state.eof && !c'.state.bad
  {
  }

  /**
   Whatever was read before, up to the end included: after an absolute seek a read returns exactly the bytes
   from there on, as many as asked for or as there are.  From the end of the block on it ends the reading.
   */
  lemma SeekThenRead(c: Cursor, target: nat, n: nat)
    requires c.Valid() && c.block.Some? && !c.state.failed && !c.state.bad
    ensures var (d, got) := Run(c, [SeekTo(target), Op.Read(n)]);
      && d.block == c.block && d.size == c.size && got[0] == []
      && if target >= c.size then got[1] == [] && d.position == target && d.state == IoState(true, false, false)
         else
           var end := if target + n <= c.size then target + n else c.size;
           got[1] == c.block.value[target..end] && d.position == end && d.state == IoState(false, false, false)
  {
    RunTwo(c, SeekTo(target), Op.Read(n));
    hide Run;
  }

  lemma RunTwo(c: Cursor, first: Op, second: Op)
    requires c.block.Some? ==> |c.block.value| == c.size
    ensures var (d, got) := Apply(c, first);
      Run(c, [first, second]) == (Apply(d, second).0, [got, Apply(d, second).1])
  {
    var (d, got) := Apply(c, first);
    RunCons(c, first, [second]);
    RunCons(d, second, []);
    NoOps(Apply(d, second).0);
    hide Apply, Run;
    assert [second] + [] == [second] && [first] + [second] == [first, second];
    assert [Apply(d, second).1] + [] == [Apply(d, second).1];
    assert [got] + [Apply(d, second).1] == [got, Apply(d, second).1];
  }

  lemma RunCons(c: Cursor, op: Op, ops: seq<Op>)
    requires c.block.Some? ==> |c.block.value| == c.size
    ensures var (d, got) := Apply(c, op);
      Run(c, [op] + ops) == (Run(d, ops).0, [got] + Run(d, ops).1)
  {
    hide Apply;
    assert ([op] + ops)[1..] == ops;
  }

  lemma NoOps(c: Cursor)
    requires c.block.Some? ==> |c.block.value| == c.size
    ensures Run(c, []) == (c, [])
  {
  }

  /** Both ways to seek from the start of the block are the same, whatever state the stream is in. */
  lemma SeekToIsSeekFromTheStart(c: Cursor, target: nat)
    requires c.Valid() && target <= OFF_MAX
    ensures Run(c, [SeekTo(target)]) == Run(c, [Seek(target, Beg)])
  {
    assert [SeekTo(target)][1..] == [] && [Seek(target, Beg)][1..] == [];
  }

  /** Which bits a read sets: bad without a block, eof at the end of one; and it moves by what it returns. */
  lemma ReadSignals(c: Cursor, n: nat)
    requires c.Valid()
    ensures var (d, got) := Run(c, [Op.Read(n)]);
      && (d.state.bad <==> c.state.bad || c.block.None?)
      && (d.state.eof <==> c.state.eof || (c.block.Some? && c.state.IsGood() && c.position >= c.size))
      && d.state.failed == c.state.failed && d.position == c.position + |got[0]|
      && (got[0] != [] ==> c.state.IsGood() && c.block.Some? && got[0] <= c.block.value[c.position..])
      && (c.state.IsGood() && c.position < c.size && c.block.Some? ==>
            |got[0]| == if c.position + n <= c.size then n else c.size - c.position)
  {
    assert [Op.Read(n)][1..] == [];
  }

  /** Once the fail or bad bit is set, no later operation returns a byte or moves the position. */
  lemma {:induction false} FailureIsForever(c: Cursor, ops: seq<Op>)
    requires c.Valid() && (c.state.failed || c.state.bad)
    ensures var (last, got) := Run(c, ops);
      && last.position == c.position
      && (last.state.failed || last.state.bad)
      && forall i :: 0 <= i < |ops| ==> got[i] == []
    decreases |ops|
  {
    if ops == [] {
    } else {
      var c' := Apply(c, ops[0]).0;
      assert c'.position == c.position && (c'.state.failed || c'.state.bad);
      FailureIsForever(c', ops[1..]);
    }
  }

  function Concat(parts: seq<seq<byte>>): seq<byte> {
    if parts == [] then [] else parts[0] + Concat(parts[1..])
  }

  function Reads(counts: seq<nat>): seq<Op> {
    if counts == [] then [] else [Read(counts[0])] + Reads(counts[1..])
  }

  lemma RunReads(c: Cursor, counts: seq<nat>)
    requires c.Valid() && counts != []
    ensures Run(c, Reads(counts)).1 ==
      [c.Read(counts[0]).1] + Run(c.Read(counts[0]).0, Reads(counts[1..])).1
  {
    assert Reads(counts)[1..] == Reads(counts[1..]);
  }

  lemma AheadSplit(c: Cursor, m: nat, n: nat)
    requires c.Valid() && c.block.Some? && c.position < c.size
    ensures c.Ahead(m + n) == c.Ahead(m) + c.(position := c.position + |c.Ahead(m)|).Ahead(n)
  {
  }

  lemma NoReads(c: Cursor)
    requires c.Valid() && c.block.Some?
    ensures Concat(Run(c, Reads([])).1) == [] == c.Ahead(0)
  {
  }

  lemma ConcatCons(first: seq<byte>, rest: seq<seq<byte>>)
    ensures Concat([first] + rest) == first + Concat(rest)
  {
  }

  /** A read returns the bytes ahead and moves behind them, or returns nothing and ends the reading. */
  lemma ReadMoves(c: Cursor, n: nat, total: nat)
    requires c.Valid() && c.block.Some?
    ensures var (c', got) := c.Read(n);
      && c'.Valid() && c'.block == c.block
      && if c.state.IsGood() && c.position < c.size
         then c' == c.(position := c.position + |c.Ahead(n)|) && got == c.Ahead(n)
         else !c'.state.IsGood() && got == [] && (c.state.IsGood() ==> c.Ahead(total) == [])
  {
  }

  /** How reads are split does not matter: together they return the same stretch of the block. */
  lemma {:induction false} SplitReads(c: Cursor, counts: seq<nat>)
    requires c.Valid() && c.block.Some?
    ensures Concat(Run(c, Reads(counts)).1) == if c.state.IsGood() then c.Ahead(Sum(counts)) else []
    decreases |counts|
  {
    hide Run, Reads, Cursor.Read, Cursor.Ahead, Concat;
    if counts == [] {
      NoReads(c);
    } else {
      RunReads(c, counts);
      var (c', got) := c.Read(counts[0]);
      ReadMoves(c, counts[0], Sum(counts));
      SplitReads(c', counts[1..]);
      ConcatCons(got, Run(c', Reads(counts[1..])).1);
      if c.state.IsGood() && c.position < c.size {
        AheadSplit(c, counts[0], Sum(counts[1..]));
      }
    }
  }

  // --- the class ---------------------------------------------------------------------------------

  class BinaryIMemoryBlock {
    var begin: Option<seq<byte>>
    var size: nat
    var position: nat
    var state: IoState

    ghost function Model(): Cursor
      reads this
    {
      Cursor(begin, size, position, state)
    }

    ghost predicate Valid()
      reads this
    {
      Model().Valid()
    }

    constructor (data: seq<byte>)
      requires |data| < RANGE64
      ensures Valid() && Model() == Open(data)
    {
      begin, size, position, state := Some(data), |data|, 0, GOOD;
    }

    /** From a pointer to the first byte and one behind the last, which may be the wrong way round. */
    constructor Between(data: seq<byte>, distance: int)
      requires OFF_MIN <= distance <= OFF_MAX && (distance >= 0 ==> |data| == distance)
      ensures Valid()
      ensures if distance >= 0 then Model() == Open(data)
        else Model().size == 0 && Model().position == 0 && Model().state == GOOD.(bad := true)
    {
      begin, size, position, state := Some(if distance >= 0 then data else []), 0, 0, GOOD;
      new;
      if distance >= 0 {
        size := distance;
      } else {
        state := state.(bad := true);
      }
    }

    /** The stream without a block. */
    constructor Closed()
      ensures Valid() && Model() == Cursor(None, 0, 0, GOOD)
    {
      begin, size, position, state := None, 0, 0, GOOD;
    }

    /** `position_ + numberOfBytes` may wrap around; the second test catches that. */
    method DoRead(out: array<byte>, numberOfBytes: nat) returns (count: nat)
      requires Valid() && numberOfBytes <= out.Length && numberOfBytes < RANGE64
      modifies this, out
      ensures Valid()
      ensures var (c, got) := old(Model()).Read(numberOfBytes);
        && Model() == c
        && count == |got|
        && out[..] == got + old(out[..])[count..]
    {
      if begin.None? {
        state := state.(bad := true);
        return 0;
      }
      if !state.IsGood() {
        return 0;
      }
      if position >= size {
        state := state.(eof := true);
        return 0;
      }
      count := numberOfBytes;
      WrapSum(position, count);
      hide Wrap;
      var next := Wrap(position + count);
      if next > size || next < position {
        next := size;
        count := size - position;
      }
      forall i | 0 <= i < count {
        out[i] := begin.value[position + i];
      }
      position := next;
    }

    method SeekgTo(target: nat)
      requires Valid() && target < RANGE64
      modifies this
      ensures Valid() && Model() == old(Model()).SeekTo(target)
    {
      state := state.WithoutEof();
      if state.IsGood() {
        position := target;
      }
    }

    method Seekg(offset: int, direction: Direction)
      requires Valid() && Seek(offset, direction).Representable()
      modifies this
      ensures Valid() && Model() == old(Model()).Seek(offset, direction)
    {
      state := state.WithoutEof();
      if state.IsGood() {
        match direction {
          case Beg =>
            if offset < 0 {
              state := state.(failed := true);
              return;
            }
            position := offset;
          case Cur =>
            SeekFrom(position, offset);
          case End =>
            SeekFrom(size, offset);
        }
      }
    }

    /** The lambda of `doSeekg`: no sum is formed before it is known to fit. */
    method SeekFrom(current: nat, offset: int)
      requires Valid() && current < RANGE64 && OFF_MIN < offset <= OFF_MAX
      modifies this
      ensures Valid() && Model() == old(Model()).MoveTo(current + offset)
    {
      if offset < 0 {
        var negoffset := -offset;
        if negoffset > current {
          state := state.(failed := true);
          return;
        }
        position := current - negoffset;
      } else {
        if current > RANGE64 - 1 - offset {
          state := state.(failed := true);
          return;
        }
        position := current + offset;
      }
    }

    /** Any sequence of seeks and reads: the wrapping stream returns what the unbounded one does. */
    method Execute(ops: seq<Op>) returns (got: seq<seq<byte>>)
      requires Valid() && forall op :: op in ops ==> op.Representable()
      modifies this
      ensures Valid() && (Model(), got) == Run(old(Model()), ops)
      decreases |ops|
    {
      got := [];
      if ops == [] {
        return;
      }
      var result := [];
      assert ops[0].Representable();
      match ops[0] {
        case Read(n) =>
          var out := new byte[n];
          var count := DoRead(out, n);
          result := out[..count];
        case SeekTo(target) =>
          SeekgTo(target);
        case Seek(offset, direction) =>
          Seekg(offset, direction);
      }
      var rest := Execute(ops[1..]);
      got := [result] + rest;
    }
  }
}
