/**
 Typed values through a binary stream: fixed-width integers (a floating-point number counts as
 the unsigned integer with its bits), bools and length-prefixed strings.
 */
module Serialization {
  import opened Arithmetic
  import opened Bytes
  import opened Endian
  import opened MemoryBlock
  import opened StreamState

  datatype Kind = UIntKind(width: nat) | SIntKind(width: nat) | BoolKind | StringKind

  datatype Item = UInt(width: nat, value: nat) | SInt(width: nat, number: int) | Bool(b: bool) | String(chars: seq<byte>) {

    ghost predicate Valid() {
      match this
      case UInt(width, value) => width in {1, 2, 4, 8} && value < Pow256(width)
      case SInt(width, number) => width in {1, 2, 4, 8} && -(Pow256(width) as int) <= 2 * number < Pow256(width)
      case Bool(_) => true
      case String(chars) => |chars| < Pow256(8)
    }

    function Kind(): Kind {
      match this
      case UInt(width, _) => UIntKind(width)
      case SInt(width, _) => SIntKind(width)
      case Bool(_) => BoolKind
      case String(_) => StringKind
    }

    /** What `operator<<` appends to the stream. */
    function Written(stream: Endianness, system: Endianness): seq<byte> {
      match this
      case UInt(width, value) => WrittenBytes(value, width, stream, system)
      case SInt(width, number) => WrittenBytes(TwosComplement(number, width), width, stream, system)
      case Bool(b) => WrittenBytes(if b then 1 else 0, 1, stream, system)
      case String(chars) => WrittenBytes(|chars| % Pow256(8), 8, stream, system) + chars
    }
  }

  function TwosComplement(number: int, width: nat): (v: nat)
    ensures v < Pow256(width)
  {
    number % Pow256(width)
  }

  function FromTwosComplement(v: nat, width: nat): int {
    if 2 * v < Pow256(width) then v else v - Pow256(width)
  }

  lemma TwosComplementInverse(number: int, width: nat)
    requires -(Pow256(width) as int) <= 2 * number < Pow256(width)
    ensures FromTwosComplement(TwosComplement(number, width), width) == number
  {
    var m := Pow256(width);
    if number >= 0 {
      DivModUnique(number, m, 0, number);
    } else {
      DivModUnique(number, m, -1, number + m);
    }
  }

  function WrittenAll(items: seq<Item>, stream: Endianness, system: Endianness): seq<byte> {
    if items == [] then [] else items[0].Written(stream, system) + WrittenAll(items[1..], stream, system)
  }

  // --- reading -----------------------------------------------------------------------------------

  /** The byte orders involved, and what the uninitialised local of `readValue` happens to hold. */
  datatype Machine = Machine(stream: Endianness, system: Endianness, scratch: seq<byte>) {
    ghost predicate Valid() {
      |scratch| == 8
    }
  }

  /** `readValue`: `None` when the variable is left alone.  A short read is not noticed. */
  function ReadUInt(c: Cursor, width: nat, m: Machine): (r: (Cursor, Option<nat>))
    requires c.block.Some? ==> |c.block.value| == c.size
    requires width <= |m.scratch|
    ensures r.0.block == c.block && r.0.size == c.size
  {
    if !c.state.IsGood() then (c, None)
    else
      var (c', got) := c.Read(width);
      if !c'.state.IsGood() then (c', None)
      else (c', Some(ReadBack(got + m.scratch[|got|..width], m.stream, m.system)))
  }

  function Zeros(n: nat): (s: seq<byte>)
    ensures |s| == n
  {
    seq(n, _ => 0)
  }

  /** The string extractor: the buffer is zero-filled before the read. */
  function ReadString(c: Cursor, m: Machine): (r: (Cursor, Option<seq<byte>>))
    requires c.block.Some? ==> |c.block.value| == c.size
    requires m.Valid()
    ensures r.0.block == c.block && r.0.size == c.size
  {
    var (c', length) := ReadUInt(c, 8, m);
    if length.None? then (c', None)
    else
      var (c'', got) := c'.Read(length.value);
      if !c''.state.IsGood() then (c'', None)
      else (c'', Some(got + Zeros(length.value - |got|)))
  }

  function ReadItem(c: Cursor, kind: Kind, m: Machine): (r: (Cursor, Option<Item>))
    requires c.block.Some? ==> |c.block.value| == c.size
    requires m.Valid() && (kind.UIntKind? || kind.SIntKind? ==> kind.width <= 8)
    ensures r.0.block == c.block && r.0.size == c.size
  {
    match kind
    case UIntKind(width) =>
      var (c', v) := ReadUInt(c, width, m);
      (c', if v.None? then None else Some(UInt(width, v.value)))
    case SIntKind(width) =>
      var (c', v) := ReadUInt(c, width, m);
      (c', if v.None? then None else Some(SInt(width, FromTwosComplement(v.value, width))))
    case BoolKind =>
      var (c', v) := ReadUInt(c, 1, m);
      (c', if v.None? then None else Some(Bool(v.value != 0)))
    case StringKind =>
      var (c', s) := ReadString(c, m);
      (c', if s.None? then None else Some(String(s.value)))
  }

  ghost predicate Readable(kinds: seq<Kind>) {
    forall kind :: kind in kinds ==> kind.UIntKind? || kind.SIntKind? ==> kind.width <= 8
  }

  function ReadItems(c: Cursor, kinds: seq<Kind>, m: Machine): (Cursor, seq<Option<Item>>)
    requires c.block.Some? ==> |c.block.value| == c.size
    requires m.Valid() && Readable(kinds)
    decreases |kinds|
  {
    if kinds == [] then (c, [])
    else
      assert kinds[0] in kinds;
      var (c', item) := ReadItem(c, kinds[0], m);
      var (last, rest) := ReadItems(c', kinds[1..], m);
      (last, [item] + rest)
  }

  /**
   An integer extraction assigns its variable as soon as a single byte is left.  If fewer than
   `width` are, the rest of the value is what the uninitialised local happened to hold.
   */
  lemma TruncationGoesUnnoticed(c: Cursor, width: nat, m: Machine)
    requires c.Valid() && c.block.Some? && c.state.IsGood() && m.Valid() && 1 <= width <= 8
    ensures var (c', x) := ReadUInt(c, width, m);
      && (x.Some? <==> c.position < c.size)
      && (x.Some? <==> c'.state == GOOD)
      && (c.position < c.size < c.position + width ==>
            && c'.position == c.size
            && x == Some(ReadBack(c.block.value[c.position..] + m.scratch[c.size - c.position..width], m.stream, m.system)))
  {
    hide ReadBack;
    assert c.state == GOOD;
  }

  // --- round trip --------------------------------------------------------------------------------

  /** A good stream that has `before` behind it and `after` ahead of it. */
  function At(before: seq<byte>, after: seq<byte>): Cursor {
    Cursor(Some(before + after), |before| + |after|, |before|, GOOD)
  }

  lemma ReadAt(before: seq<byte>, bytes: seq<byte>, after: seq<byte>)
    requires bytes + after != []
    ensures At(before, bytes + after).Read(|bytes|) == (At(before + bytes, after), bytes)
  {
    assert before + (bytes + after) == (before + bytes) + after;
  }

  lemma ReadUIntAt(before: seq<byte>, v: nat, width: nat, after: seq<byte>, writer: Endianness, m: Machine)
    requires 1 <= width <= 8 && v < Pow256(width) && m.Valid()
    ensures ReadUInt(At(before, WrittenBytes(v, width, m.stream, writer) + after), width, m)
         == (At(before + WrittenBytes(v, width, m.stream, writer), after), Some(v))
  {
    hide WrittenBytes, ReadBack, Cursor.Read;
    var bytes := WrittenBytes(v, width, m.stream, writer);
    ReadAt(before, bytes, after);
    assert bytes + m.scratch[width..width] == bytes;
    ReadBackInvertsWritten(v, width, m.stream, writer, m.system);
  }

  /** The item whose zero-byte read at the very end of the block sets the eof bit. */
  predicate IsEmptyString(item: Item) {
    item == String([])
  }

  lemma ReadStringAt(before: seq<byte>, chars: seq<byte>, after: seq<byte>, writer: Endianness, m: Machine)
    requires |chars| < Pow256(8) && m.Valid()
    ensures var bytes := String(chars).Written(m.stream, writer);
      ReadString(At(before, bytes + after), m) ==
        if chars == [] && after == [] then (At(before + bytes, after).(state := GOOD.(eof := true)), None)
        else (At(before + bytes, after), Some(chars))
  {
    hide WrittenBytes, ReadUInt, Pow256;
    DivModUnique(|chars|, Pow256(8), 0, |chars|);
    var length := WrittenBytes(|chars|, 8, m.stream, writer);
    var bytes := length + chars;
    assert bytes + after == length + (chars + after);
    ReadUIntAt(before, |chars|, 8, chars + after, writer, m);
    if chars + after != [] {
      ReadAt(before + length, chars, after);
      assert (before + length) + chars == before + bytes;
    } else {
      assert before + bytes == before + length;
    }
    assert chars + Zeros(0) == chars;
  }

  /** One item: read back exactly, unless it is an empty string with nothing behind it. */
  lemma ReadItemAt(before: seq<byte>, item: Item, after: seq<byte>, writer: Endianness, m: Machine)
    requires item.Valid() && m.Valid()
    ensures var bytes := item.Written(m.stream, writer);
      ReadItem(At(before, bytes + after), item.Kind(), m) ==
        if IsEmptyString(item) && after == [] then (At(before + bytes, after).(state := GOOD.(eof := true)), None)
        else (At(before + bytes, after), Some(item))
  {
    hide WrittenBytes, ReadUInt, ReadString, Pow256;
    match item {
      case UInt(width, value) =>
        ReadUIntAt(before, value, width, after, writer, m);
      case SInt(width, number) =>
        ReadUIntAt(before, TwosComplement(number, width), width, after, writer, m);
        TwosComplementInverse(number, width);
      case Bool(b) =>
        assert 1 < Pow256(1) by { Pow256One(); }
        ReadUIntAt(before, if b then 1 else 0, 1, after, writer, m);
      case String(chars) =>
        ReadStringAt(before, chars, after, writer, m);
    }
  }

  lemma Pow256One()
    ensures Pow256(1) == 256
  {
  }

  function Kinds(items: seq<Item>): (ks: seq<Kind>)
    ensures |ks| == |items|
    ensures forall i :: 0 <= i < |items| ==> ks[i] == items[i].Kind()
  {
    if items == [] then [] else [items[0].Kind()] + Kinds(items[1..])
  }

  /** The items as an undisturbed reader gets them. */
  function Intact(items: seq<Item>): (r: seq<Option<Item>>)
    ensures |r| == |items|
  {
    if items == [] then [] else [Some(items[0])] + Intact(items[1..])
  }

  predicate EndsInEmptyString(items: seq<Item>) {
    items != [] && IsEmptyString(items[|items| - 1])
  }

  ghost predicate AllValid(items: seq<Item>) {
    forall item :: item in items ==> item.Valid()
  }

  lemma KindsAreReadable(items: seq<Item>)
    requires AllValid(items)
    ensures Readable(Kinds(items))
  {
    forall kind | kind in Kinds(items)
      ensures kind.UIntKind? || kind.SIntKind? ==> kind.width <= 8
    {
      var i :| 0 <= i < |items| && Kinds(items)[i] == kind;
      assert items[i] in items;
    }
  }

  lemma WrittenIsNotEmpty(item: Item, stream: Endianness, system: Endianness)
    requires item.Valid()
    ensures item.Written(stream, system) != []
  {
  }

  /** What an undisturbed reader ends up with: the last item is lost if it is an empty string. */
  function Received(items: seq<Item>): (r: seq<Option<Item>>)
    ensures |r| == |items|
  {
    if EndsInEmptyString(items) then Intact(items)[..|items| - 1] + [None] else Intact(items)
  }

  function EndOf(data: seq<byte>, items: seq<Item>): Cursor {
    if EndsInEmptyString(items) then At(data, []).(state := GOOD.(eof := true)) else At(data, [])
  }

  lemma UnfoldReceived(items: seq<Item>)
    requires items != []
    ensures Received(items) ==
      [if items[1..] == [] && IsEmptyString(items[0]) then None else Some(items[0])] + Received(items[1..])
  {
    hide IsEmptyString;
    if items[1..] != [] {
      assert items[|items| - 1] == items[1..][|items| - 2];
    }
  }

  lemma UnfoldReadItems(c: Cursor, items: seq<Item>, m: Machine)
    requires c.block.Some? ==> |c.block.value| == c.size
    requires m.Valid() && items != [] && Readable(Kinds(items)) && Readable(Kinds(items[1..]))
    ensures items[0].Kind() in Kinds(items)
    ensures var (c', item) := ReadItem(c, items[0].Kind(), m);
      var (last, rest) := ReadItems(c', Kinds(items[1..]), m);
      && ReadItems(c, Kinds(items), m) == (last, [item] + rest)
      && (items[1..] == [] ==> last == c' && rest == [])
  {
    hide ReadItem;
    assert Kinds(items)[0] == items[0].Kind() && Kinds(items)[1..] == Kinds(items[1..]);
  }

  lemma ReadSingleAt(before: seq<byte>, item: Item, writer: Endianness, m: Machine)
    requires item.Valid() && m.Valid() && Readable(Kinds([item]))
    ensures var all := WrittenAll([item], m.stream, writer);
      ReadItems(At(before, all), Kinds([item]), m) == (EndOf(before + all, [item]), Received([item]))
  {
    hide Item.Written, Item.Valid, ReadItem, IsEmptyString, ReadItems, Kinds, Intact;
    var bytes := item.Written(m.stream, writer);
    var items := [item];
    assert items[1..] == [];
    assert WrittenAll(items, m.stream, writer) == bytes + [];
    KindsAreReadable(items[1..]);
    UnfoldReadItems(At(before, bytes + []), items, m);
    UnfoldReceived(items);
    ReadItemAt(before, item, [], writer, m);
    assert bytes + [] == bytes;
  }

  lemma {:induction false} ReadItemsAt(before: seq<byte>, items: seq<Item>, writer: Endianness, m: Machine)
    requires AllValid(items) && m.Valid() && Readable(Kinds(items)) && items != []
    ensures var all := WrittenAll(items, m.stream, writer);
      ReadItems(At(before, all), Kinds(items), m) == (EndOf(before + all, items), Received(items))
    decreases |items|
  {
    hide Item.Written, Item.Valid, ReadItem, IsEmptyString, Intact, ReadItems, Kinds, Received;
    assert items[0] in items;
    if items[1..] == [] {
      assert items == [items[0]];
      ReadSingleAt(before, items[0], writer, m);
    } else {
      var bytes := items[0].Written(m.stream, writer);
      var after := WrittenAll(items[1..], m.stream, writer);
      KindsAreReadable(items[1..]);
      UnfoldReadItems(At(before, bytes + after), items, m);
      UnfoldReceived(items);
      ReadItemAt(before, items[0], after, writer, m);
      assert (before + bytes) + after == before + (bytes + after);
      assert items[1] in items;
      WrittenIsNotEmpty(items[1], m.stream, writer);
      ReadItemsAt(before + bytes, items[1..], writer, m);
      assert items[|items| - 1] == items[1..][|items| - 2];
    }
  }

  /**
   Reading a written list back in the same types gives the same list and leaves the stream good,
   if and only if the list does not end in an empty string.  The machines may differ.
   */
  lemma RoundTrip(items: seq<Item>, writer: Endianness, m: Machine)
    requires AllValid(items) && m.Valid()
    ensures Readable(Kinds(items))
    ensures var (c, got) := ReadItems(Open(WrittenAll(items, m.stream, writer)), Kinds(items), m);
      && (got == Intact(items) && c.state == GOOD <==> !EndsInEmptyString(items))
      && (EndsInEmptyString(items) ==> c.state.eof && got == Intact(items)[..|items| - 1] + [None])
      && c.position == |WrittenAll(items, m.stream, writer)|
  {
    KindsAreReadable(items);
    var all := WrittenAll(items, m.stream, writer);
    assert [] + all == all;
    assert At([], all) == Open(all);
    if items != [] {
      ReadItemsAt([], items, writer, m);
    }
  }

  // --- the inserters and extractors --------------------------------------------------------------

  /** An output stream whose `doWrite` appends to memory. */
  class ByteSink {
    var bytes: seq<byte>

    constructor ()
      ensures bytes == []
    {
      bytes := [];
    }

    method DoWrite(data: seq<byte>)
      modifies this
      ensures bytes == old(bytes) + data
    {
      bytes := bytes + data;
    }

    method WriteValue(x: nat, width: nat, stream: Endianness, system: Endianness)
      modifies this
      ensures bytes == old(bytes) + WrittenBytes(x, width, stream, system)
    {
      var temp := FixEndianness(InMemory(x, width, system), stream, system);
      DoWrite(temp);
    }

    method WriteString(chars: seq<byte>, stream: Endianness, system: Endianness)
      modifies this
      ensures bytes == old(bytes) + String(chars).Written(stream, system)
    {
      WriteValue(|chars| % Pow256(8), 8, stream, system);
      DoWrite(chars);
    }

    /** `operator<<`. */
    method Insert(item: Item, stream: Endianness, system: Endianness)
      modifies this
      ensures bytes == old(bytes) + item.Written(stream, system)
    {
      match item {
        case UInt(width, value) => WriteValue(value, width, stream, system);
        case SInt(width, number) => WriteValue(TwosComplement(number, width), width, stream, system);
        case Bool(b) => WriteValue(if b then 1 else 0, 1, stream, system);
        case String(chars) => WriteString(chars, stream, system);
      }
    }

    method InsertAll(items: seq<Item>, stream: Endianness, system: Endianness)
      modifies this
      ensures bytes == old(bytes) + WrittenAll(items, stream, system)
      decreases |items|
    {
      hide Item.Written;
      ghost var before := bytes;
      if items == [] {
        assert before + [] == before;
      } else {
        Insert(items[0], stream, system);
        InsertAll(items[1..], stream, system);
        Associate(before, items[0].Written(stream, system), WrittenAll(items[1..], stream, system));
      }
    }
  }

  lemma {:induction false} FromLowBytesBound(s: seq<byte>)
    ensures FromLowBytes(s) < Pow256(|s|)
  {
    if s == [] {
    } else {
      FromLowBytesBound(s[1..]);
    }
  }

  lemma ReadBackBound(s: seq<byte>, stream: Endianness, system: Endianness)
    ensures ReadBack(s, stream, system) < Pow256(|s|)
  {
    FromLowBytesBound(s);
    FromLowBytesBound(Reverse(s));
    FromLowBytesBound(Reverse(Reverse(s)));
  }

  lemma Pow256Eight()
    ensures Pow256(8) == RANGE64
  {
    assert Pow256(4) == 0x1_0000_0000;
  }

  method ReadValue(s: BinaryIMemoryBlock, width: nat, m: Machine) returns (x: Option<nat>)
    requires s.Valid() && m.Valid() && width <= 8
    modifies s
    ensures s.Valid() && (s.Model(), x) == ReadUInt(old(s.Model()), width, m)
    ensures x.Some? ==> x.value < Pow256(width)
  {
    hide ReadBack, Cursor.Ahead;
    x := None;
    if s.state.IsGood() {
      var temp := new byte[width](i requires 0 <= i < width && m.Valid() && width <= 8 => m.scratch[i]);
      assert temp[..] == m.scratch[..width];
      var count := s.DoRead(temp, width);
      if s.state.IsGood() {
        assert temp[..] == temp[..count] + m.scratch[count..width];
        x := Some(ReadBack(temp[..], m.stream, m.system));
        ReadBackBound(temp[..], m.stream, m.system);
      }
    }
  }

  method ExtractString(s: BinaryIMemoryBlock, m: Machine) returns (x: Option<seq<byte>>)
    requires s.Valid() && m.Valid()
    modifies s
    ensures s.Valid() && (s.Model(), x) == ReadString(old(s.Model()), m)
  {
    hide ReadUInt, Cursor.Ahead, ReadBack;
    x := None;
    var n := ReadValue(s, 8, m);
    if n.Some? {
      Pow256Eight();
      var length := n.value;
      var buffer := new byte[length](_ => 0);
      assert buffer[..] == Zeros(length);
      var count := s.DoRead(buffer, length);
      if s.state.IsGood() {
        assert buffer[..] == buffer[..count] + Zeros(length - count);
        x := Some(buffer[..]);
      }
    }
  }

  /** `operator>>`; `None` when the variable keeps its value. */
  method Extract(s: BinaryIMemoryBlock, kind: Kind, m: Machine) returns (x: Option<Item>)
    requires s.Valid() && m.Valid() && (kind.UIntKind? || kind.SIntKind? ==> kind.width <= 8)
    modifies s
    ensures s.Valid() && (s.Model(), x) == ReadItem(old(s.Model()), kind, m)
  {
    x := None;
    match kind {
      case UIntKind(width) =>
        var v := ReadValue(s, width, m);
        if v.Some? {
          x := Some(UInt(width, v.value));
        }
      case SIntKind(width) =>
        var v := ReadValue(s, width, m);
        if v.Some? {
          x := Some(SInt(width, FromTwosComplement(v.value, width)));
        }
      case BoolKind =>
        var temp := ReadValue(s, 1, m);
        if temp.Some? {
          x := Some(Bool(temp.value != 0));
        }
      case StringKind =>
        var chars := ExtractString(s, m);
        if chars.Some? {
          x := Some(String(chars.value));
        }
    }
  }

  method ExtractAll(s: BinaryIMemoryBlock, kinds: seq<Kind>, m: Machine) returns (xs: seq<Option<Item>>)
    requires s.Valid() && m.Valid() && Readable(kinds)
    modifies s
    ensures s.Valid() && (s.Model(), xs) == ReadItems(old(s.Model()), kinds, m)
    decreases |kinds|
  {
    xs := [];
    if kinds != [] {
      assert kinds[0] in kinds;
      var x := Extract(s, kinds[0], m);
      var rest := ExtractAll(s, kinds[1..], m);
      xs := [x] + rest;
    }
  }

  /**
   Insert a list, extract it again: the extracted items are the inserted ones and the stream is
   good if and only if the list does not end in an empty string.
   */
  method Transfer(items: seq<Item>, writer: Endianness, m: Machine) returns (xs: seq<Option<Item>>, state: IoState)
    requires AllValid(items) && m.Valid()
    requires |WrittenAll(items, m.stream, writer)| < RANGE64
    ensures xs == Intact(items) && state == GOOD <==> !EndsInEmptyString(items)
  {
    var sink := new ByteSink();
    sink.InsertAll(items, m.stream, writer);
    assert sink.bytes == WrittenAll(items, m.stream, writer);
    var source := new BinaryIMemoryBlock(sink.bytes);
    RoundTrip(items, writer, m);
    xs := ExtractAll(source, Kinds(items), m);
    state := source.state;
  }
}
