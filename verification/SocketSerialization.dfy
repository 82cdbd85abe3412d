/**
 Typed values over a socket: the extractors of `Serialization` on a `BinaryISocket`.  A read that ends
 early always leaves its mark on the stream's state, so nothing is ever half read.
 */
module SocketSerialization {
  import opened Arithmetic
  import opened Bytes
  import opened Endian
  import opened InputSocket
  import opened Serialization
  import opened StreamState

  /** `doRead` asserts that its count fits an `int`. */
  const INT_RANGE: nat := 0x8000_0000

  ghost predicate AllFit(items: seq<Item>) {
    forall item :: item in items && item.String? ==> |item.chars| < INT_RANGE
  }

  // --- the extractors ----------------------------------------------------------------------------

  /** `readValue`. */
  function ReadUInt(r: Reader, width: nat, m: Machine): (Reader, Option<nat>) {
    if !r.state.IsGood() then (r, None)
    else
      var (r', got, _) := r.Read(width);
      (r', if r'.state.IsGood() then Some(ReadBack(got, m.stream, m.system)) else None)
  }

  function ReadString(r: Reader, m: Machine): (Reader, Option<seq<byte>>) {
    var (r', length) := ReadUInt(r, 8, m);
    if length.None? then (r', None)
    else
      var (r'', got, _) := r'.Read(length.value);
      (r'', if r''.state.IsGood() then Some(got) else None)
  }

  function ReadItem(r: Reader, kind: Kind, m: Machine): (Reader, Option<Item>) {
    match kind
    case UIntKind(width) =>
      var (r', v) := ReadUInt(r, width, m);
      (r', if v.None? then None else Some(UInt(width, v.value)))
    case SIntKind(width) =>
      var (r', v) := ReadUInt(r, width, m);
      (r', if v.None? then None else Some(SInt(width, FromTwosComplement(v.value, width))))
    case BoolKind =>
      var (r', v) := ReadUInt(r, 1, m);
      (r', if v.None? then None else Some(Bool(v.value != 0)))
    case StringKind =>
      var (r', s) := ReadString(r, m);
      (r', if s.None? then None else Some(String(s.value)))
  }

  function ReadItems(r: Reader, kinds: seq<Kind>, m: Machine): (x: (Reader, seq<Option<Item>>))
    ensures |x.1| == |kinds|
    decreases |kinds|
  {
    if kinds == [] then (r, [])
    else
      var (r', item) := ReadItem(r, kinds[0], m);
      var (last, rest) := ReadItems(r', kinds[1..], m);
      (last, [item] + rest)
  }

  // --- what arrives ------------------------------------------------------------------------------

  /**
   The channel holds `s`, or the start of it if the writer failed or the connection ends.  This is what
   a good read makes of it.
   */
  lemma GoodRead(r: Reader, n: nat, s: seq<byte>)
    requires r.connected && r.incoming <= s
    ensures var (r', got, _) := r.Read(n);
      && r'.connected
      && (r'.state.IsGood() ==> n <= |s| && got == s[..n] && r'.incoming <= s[n..])
  {
    hide Take;
    var (r', got, _) := r.Read(n);
    if r'.state.IsGood() {
      assert r.incoming == got + r'.incoming && s == r.incoming + s[|r.incoming|..];
      assert s == got + (r'.incoming + s[|r.incoming|..]);
    }
  }

  lemma FirstBytes(a: seq<byte>, b: seq<byte>)
    ensures (a + b)[..|a|] == a && (a + b)[|a|..] == b
  {
  }

  /** A number arrives as it was written, or the stream is no longer good. */
  lemma UIntArrives(r: Reader, value: nat, width: nat, rest: seq<byte>, writer: Endianness, m: Machine)
    requires r.connected && value < Pow256(width)
    requires r.incoming <= WrittenBytes(value, width, m.stream, writer) + rest
    ensures var (r', x) := ReadUInt(r, width, m);
      && r'.connected
      && if r'.state.IsGood() then x == Some(value) && r'.incoming <= rest else x == None
  {
    hide WrittenBytes, ReadBack, Pow256, Reader.Read;
    var bytes := WrittenBytes(value, width, m.stream, writer);
    ReadBackInvertsWritten(value, width, m.stream, writer, m.system);
    FirstBytes(bytes, rest);
    GoodRead(r, width, bytes + rest);
  }

  lemma StringArrives(r: Reader, chars: seq<byte>, rest: seq<byte>, writer: Endianness, m: Machine)
    requires r.connected && |chars| < RANGE64
    requires r.incoming <= WrittenBytes(|chars|, 8, m.stream, writer) + (chars + rest)
    ensures var (r', x) := ReadString(r, m);
      && r'.connected
      && if r'.state.IsGood() then x == Some(chars) && r'.incoming <= rest else x == None
  {
    hide WrittenBytes, ReadUInt, Reader.Read, Pow256;
    Pow256Eight();
    UIntArrives(r, |chars|, 8, chars + rest, writer, m);
    var (r', length) := ReadUInt(r, 8, m);
    if r'.state.IsGood() {
      FirstBytes(chars, rest);
      GoodRead(r', |chars|, chars + rest);
    }
  }

  /** An item arrives whole or not at all, and then the stream is no longer good. */
  lemma ItemArrives(r: Reader, item: Item, rest: seq<byte>, writer: Endianness, m: Machine)
    requires r.connected && item.Valid() && r.incoming <= item.Written(m.stream, writer) + rest
    ensures var (r', x) := ReadItem(r, item.Kind(), m);
      && r'.connected
      && if r'.state.IsGood() then x == Some(item) && r'.incoming <= rest else x == None
  {
    hide WrittenBytes, ReadUInt, ReadString, TwosComplement, FromTwosComplement, Pow256;
    match item {
      case UInt(width, value) =>
        UIntArrives(r, value, width, rest, writer, m);
      case SInt(width, number) =>
        TwosComplementInverse(number, width);
        UIntArrives(r, TwosComplement(number, width), width, rest, writer, m);
      case Bool(b) =>
        Pow256One();
        UIntArrives(r, if b then 1 else 0, 1, rest, writer, m);
      case String(chars) =>
        Pow256Eight();
        Associate(WrittenBytes(|chars|, 8, m.stream, writer), chars, rest);
        StringArrives(r, chars, rest, writer, m);
    }
  }

  /** The first `n` items are there, and no other. */
  ghost predicate WholeUpTo(got: seq<Option<Item>>, items: seq<Item>, n: nat) {
    && n <= |items| == |got|
    && (forall k :: 0 <= k < n ==> got[k] == Some(items[k]))
    && (forall k :: n <= k < |items| ==> got[k] == None)
  }

  lemma {:induction false} NothingRead(r: Reader, kinds: seq<Kind>, m: Machine)
    requires !r.state.IsGood()
    ensures ReadItems(r, kinds, m).0 == r && forall k :: 0 <= k < |kinds| ==> ReadItems(r, kinds, m).1[k] == None
    decreases |kinds|
  {
    if kinds == [] {
    } else {
      NothingRead(r, kinds[1..], m);
    }
  }

  lemma UnfoldReadItems(r: Reader, items: seq<Item>, m: Machine)
    requires items != []
    ensures var (r', item) := ReadItem(r, items[0].Kind(), m);
      var (last, rest) := ReadItems(r', Kinds(items[1..]), m);
      ReadItems(r, Kinds(items), m) == (last, [item] + rest)
  {
    hide ReadItem;
    assert Kinds(items)[0] == items[0].Kind() && Kinds(items)[1..] == Kinds(items[1..]);
  }

  /**
   From a channel that holds the written list, or only the start of it, the reader gets some of the
   items from the first on, each whole, and no other; it gets all of them if and only if the stream is
   good afterwards.  A list that ends in an empty string is no exception, and a value that is cut off
   is never assigned.
   */
  lemma {:induction false} ItemsArrive(r: Reader, items: seq<Item>, rest: seq<byte>, writer: Endianness, m: Machine)
    returns (n: nat)
    requires AllValid(items) && AllFit(items) && r.connected && r.state.IsGood()
    requires r.incoming <= WrittenAll(items, m.stream, writer) + rest
    ensures var (r', got) := ReadItems(r, Kinds(items), m);
      && WholeUpTo(got, items, n)
      && (r'.state.IsGood() <==> n == |items|)
      && (r'.state.IsGood() ==> r'.connected && r'.incoming <= rest)
    decreases |items|
  {
    hide ReadItem, Item.Valid, Item.Written;
    n := 0;
    if items == [] {
      assert [] + rest == rest;
    } else {
      hide ReadItems, Kinds;
      assert items[0] in items;
      var bytes, more := items[0].Written(m.stream, writer), WrittenAll(items[1..], m.stream, writer);
      Associate(bytes, more, rest);
      ItemArrives(r, items[0], more + rest, writer, m);
      UnfoldReadItems(r, items, m);
      var (r', item) := ReadItem(r, items[0].Kind(), m);
      if r'.state.IsGood() {
        n := ItemsArrive(r', items[1..], rest, writer, m);
        n := n + 1;
      } else {
        NothingRead(r', Kinds(items[1..]), m);
      }
    }
  }

  // --- a connection that delivers ----------------------------------------------------------------

  /** Every receive delivers something, and there are enough of them. */
  ghost predicate Steady(r: Reader) {
    && r.connected && r.state.IsGood() && |r.incoming| <= |r.script|
    && SteadyScript(r.script)
  }

  ghost predicate SteadyScript(script: seq<Arrival>) {
    forall a :: a in script ==> a.Received? && a.n > 0
  }

  lemma {:induction false} SteadyTake(want: nat, incoming: seq<byte>, script: seq<Arrival>)
    requires want <= |incoming| <= |script| && SteadyScript(script)
    ensures var t := Take(want, incoming, script);
      t.outcome == Complete && |t.incoming| <= |t.script| && SteadyScript(t.script)
    decreases |script|
  {
    if want == 0 {
    } else {
      assert script[0] in script;
      var k := Min(script[0].n, Min(want, |incoming|));
      SteadyTake(want - k, incoming[k..], script[1..]);
    }
  }

  lemma SteadyRead(r: Reader, n: nat)
    requires Steady(r) && n <= |r.incoming|
    ensures Steady(r.Read(n).0) && r.Read(n).0.incoming == r.incoming[n..]
  {
    SteadyTake(n, r.incoming, r.script);
    hide Take, SteadyScript;
    var (r', got, _) := r.Read(n);
    assert (got + r'.incoming)[|got|..] == r'.incoming;
  }

  lemma SteadyItem(r: Reader, item: Item, rest: seq<byte>, writer: Endianness, m: Machine)
    requires Steady(r) && item.Valid() && r.incoming == item.Written(m.stream, writer) + rest
    ensures Steady(ReadItem(r, item.Kind(), m).0) && ReadItem(r, item.Kind(), m).0.incoming == rest
  {
    hide Reader.Read, WrittenBytes, ReadBack, Pow256, FromTwosComplement;
    ItemArrives(r, item, rest, writer, m);
    match item {
      case UInt(width, _) =>
        SteadyRead(r, width);
      case SInt(width, _) =>
        SteadyRead(r, width);
      case Bool(_) =>
        SteadyRead(r, 1);
      case String(chars) =>
        Pow256Eight();
        SteadyRead(r, 8);
        var (r', length) := ReadUInt(r, 8, m);
        Associate(WrittenBytes(|chars|, 8, m.stream, writer), chars, rest);
        FirstBytes(WrittenBytes(|chars|, 8, m.stream, writer), chars + rest);
        UIntArrives(r, |chars|, 8, chars + rest, writer, m);
        SteadyRead(r', |chars|);
        FirstBytes(chars, rest);
    }
  }

  /** If the connection delivers, all items arrive, however it cuts the bytes into pieces. */
  lemma {:induction false} EverythingArrives(r: Reader, items: seq<Item>, rest: seq<byte>, writer: Endianness,
                                             m: Machine)
    requires AllValid(items) && AllFit(items) && Steady(r)
    requires r.incoming == WrittenAll(items, m.stream, writer) + rest
    ensures var (r', got) := ReadItems(r, Kinds(items), m);
      r'.state.IsGood() && r'.incoming == rest && got == Intact(items)
    decreases |items|
  {
    hide ReadItem, Item.Valid, Item.Written, Steady;
    if items == [] {
      assert [] + rest == rest;
      assert Steady(r) ==> r.state.IsGood() by {
        SteadyIsGood(r);
      }
    } else {
      hide ReadItems, Kinds;
      assert items[0] in items;
      var bytes, more := items[0].Written(m.stream, writer), WrittenAll(items[1..], m.stream, writer);
      Associate(bytes, more, rest);
      SteadyIsGood(r);
      ItemArrives(r, items[0], more + rest, writer, m);
      SteadyItem(r, items[0], more + rest, writer, m);
      UnfoldReadItems(r, items, m);
      var (r', item) := ReadItem(r, items[0].Kind(), m);
      SteadyIsGood(r');
      EverythingArrives(r', items[1..], rest, writer, m);
    }
  }

  lemma SteadyIsGood(r: Reader)
    requires Steady(r)
    ensures r.connected && r.state.IsGood()
  {
  }

  // --- the extractors as methods -----------------------------------------------------------------

  method ExtractValue(s: BinaryISocket, width: nat, m: Machine, ghost channel: Channel) returns (x: Option<nat>)
    requires (s.socket == null || s.socket == channel) && m.Valid() && width <= 8
    modifies s`state, channel
    ensures (s.Model(channel), x) == ReadUInt(old(s.Model(channel)), width, m)
    ensures x.Some? ==> x.value < Pow256(width)
  {
    hide ReadBack, Take;
    x := None;
    if s.state.IsGood() {
      var temp := new byte[width](i requires 0 <= i < width && m.Valid() && width <= 8 => m.scratch[i]);
      ghost var before := temp[..];
      var count := s.DoRead(temp, width, channel);
      if s.state.IsGood() {
        assert temp[..] == temp[..width] + before[width..] == temp[..width];
        x := Some(ReadBack(temp[..], m.stream, m.system));
        ReadBackBound(temp[..], m.stream, m.system);
      }
    }
  }

  /** `fits` is the assertion of `doRead` on the length that was sent. */
  method ExtractString(s: BinaryISocket, m: Machine, ghost channel: Channel) returns (fits: bool, x: Option<seq<byte>>)
    requires (s.socket == null || s.socket == channel) && m.Valid()
    modifies s`state, channel
    ensures var length := ReadUInt(old(s.Model(channel)), 8, m).1;
      fits <==> length.None? || length.value < 0x8000_0000
    ensures fits ==> (s.Model(channel), x) == ReadString(old(s.Model(channel)), m)
  {
    hide ReadUInt, Reader.Read;
    x, fits := None, true;
    var n := ExtractValue(s, 8, m, channel);
    if n.Some? {
      var length := n.value;
      if length >= INT_RANGE {
        return false, None;
      }
      var buffer := new byte[length](_ => 0);
      ghost var before := buffer[..];
      var count := s.DoRead(buffer, length, channel);
      if s.state.IsGood() {
        assert buffer[..] == buffer[..length] + before[length..] == buffer[..length];
        x := Some(buffer[..]);
      }
    }
  }

  /** `operator>>`; `None` when the variable keeps its value. */
  method Extract(s: BinaryISocket, kind: Kind, m: Machine, ghost channel: Channel) returns (fits: bool, x: Option<Item>)
    requires (s.socket == null || s.socket == channel) && m.Valid()
    requires kind.UIntKind? || kind.SIntKind? ==> kind.width <= 8
    modifies s`state, channel
    ensures var length := ReadUInt(old(s.Model(channel)), 8, m).1;
      fits <==> !kind.StringKind? || length.None? || length.value < 0x8000_0000
    ensures fits ==> (s.Model(channel), x) == ReadItem(old(s.Model(channel)), kind, m)
  {
    hide ReadUInt, ReadString, FromTwosComplement;
    fits, x := true, None;
    match kind {
      case UIntKind(width) =>
        var v := ExtractValue(s, width, m, channel);
        if v.Some? {
          x := Some(UInt(width, v.value));
        }
      case SIntKind(width) =>
        var v := ExtractValue(s, width, m, channel);
        if v.Some? {
          x := Some(SInt(width, FromTwosComplement(v.value, width)));
        }
      case BoolKind =>
        var temp := ExtractValue(s, 1, m, channel);
        if temp.Some? {
          x := Some(Bool(temp.value != 0));
        }
      case StringKind =>
        var chars;
        fits, chars := ExtractString(s, m, channel);
        if chars.Some? {
          x := Some(String(chars.value));
        }
    }
  }

  /** The length of a string that was written arrives as it was, so the assertion holds. */
  lemma LengthFits(r: Reader, item: Item, rest: seq<byte>, writer: Endianness, m: Machine)
    requires r.connected && item.Valid() && item.String? && |item.chars| < INT_RANGE
    requires r.incoming <= item.Written(m.stream, writer) + rest
    ensures var length := ReadUInt(r, 8, m).1; length.None? || length.value < INT_RANGE
  {
    hide WrittenBytes, ReadUInt;
    Associate(WrittenBytes(|item.chars|, 8, m.stream, writer), item.chars, rest);
    UIntArrives(r, |item.chars|, 8, item.chars + rest, writer, m);
  }

  /** Extracts a list that the peer has written, as far as it arrives: no assertion of `doRead` fails. */
  method ExtractAll(s: BinaryISocket, kinds: seq<Kind>, m: Machine, ghost channel: Channel,
                    ghost items: seq<Item>, ghost rest: seq<byte>, ghost writer: Endianness)
    returns (xs: seq<Option<Item>>)
    requires s.socket == channel && m.Valid() && AllValid(items) && AllFit(items) && kinds == Kinds(items)
    requires s.state.IsGood() ==> channel.incoming <= WrittenAll(items, m.stream, writer) + rest
    modifies s`state, channel
    ensures (s.Model(channel), xs) == ReadItems(old(s.Model(channel)), kinds, m)
    decreases |kinds|
  {
    hide ReadItem, Item.Valid, Item.Written, ReadUInt;
    xs := [];
    if kinds != [] {
      ghost var r := s.Model(channel);
      ghost var bytes, more := items[0].Written(m.stream, writer), WrittenAll(items[1..], m.stream, writer);
      assert items[0] in items && kinds[0] == items[0].Kind() && kinds[1..] == Kinds(items[1..]);
      KindFits(items[0]);
      Associate(bytes, more, rest);
      if s.state.IsGood() {
        ItemArrives(r, items[0], more + rest, writer, m);
        if items[0].String? {
          LengthFits(r, items[0], more + rest, writer, m);
        }
      } else {
        BadLength(r, m);
      }
      var fits, x := Extract(s, kinds[0], m, channel);
      if s.state.IsGood() {
        GoodItem(r, kinds[0], m);
      }
      var tail := ExtractAll(s, kinds[1..], m, channel, items[1..], rest, writer);
      xs := [x] + tail;
    }
  }

  lemma KindFits(item: Item)
    requires item.Valid()
    ensures item.Kind().UIntKind? || item.Kind().SIntKind? ==> item.Kind().width <= 8
    ensures item.Kind().StringKind? <==> item.String?
  {
  }

  lemma BadLength(r: Reader, m: Machine)
    requires !r.state.IsGood()
    ensures ReadUInt(r, 8, m).1 == None
  {
  }

  lemma GoodItem(r: Reader, kind: Kind, m: Machine)
    requires ReadItem(r, kind, m).0.state.IsGood()
    ensures r.state.IsGood()
  {
  }
}
