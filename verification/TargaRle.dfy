/**
 Run-length coding of one TARGA scanline: image type 10 of the Truevision TGA File Format
 Specification, Version 2.0.  `PackLine` is the saver's loop, `UnpackLineInto` the loader's;
 `Unpack` is the format itself, written without either loop.
 */
module TargaRle {
  import opened Bytes
  import opened Packets
  import opened Parsing

  const LIMITS := Limits(2, 128)

  /** A packet as bytes: a tag with the count less one, then one pixel or all of them. */
  function PacketBytes(p: Packet<Bytes4>): seq<byte> {
    match p
    case Raw(items) => [(|items| - 1) % 256] + Flatten(items)
    case Run(item, count) => [SetHighBit((count - 1) % 256)] + item.ToBytes()
  }

  function LineBytes(ps: seq<Packet<Bytes4>>): seq<byte> {
    if ps == [] then [] else PacketBytes(ps[0]) + LineBytes(ps[1..])
  }

  lemma {:induction false} LineBytesAppend(ps: seq<Packet<Bytes4>>, p: Packet<Bytes4>)
    ensures LineBytes(ps + [p]) == LineBytes(ps) + PacketBytes(p)
  {
    hide PacketBytes;
    if ps == [] {
      assert (ps + [p])[1..] == [];
    } else {
      LineBytesAppend(ps[1..], p);
      assert (ps + [p])[1..] == ps[1..] + [p];
    }
  }

  /** `bytes` are what the saver writes for `line`. */
  ghost predicate Packed(bytes: seq<byte>, line: seq<Bytes4>) {
    exists ps :: Covers(ps, line, 0, |line|, LIMITS) && bytes == LineBytes(ps)
  }

  // --- the format --------------------------------------------------------------------------------

  /** `depth` bytes of a pixel (3 or 4); the bytes that are not stored stay zero. */
  function PixelOf(s: seq<byte>, depth: nat): Bytes4
    requires 3 <= depth <= 4 && depth <= |s|
  {
    Bytes4(s[0], s[1], s[2], if depth == 3 then 0 else s[3])
  }

  /** `n` pixels, one after the other. */
  function UnpackRaw(s: seq<byte>, n: nat, depth: nat): (u: Parsed<Bytes4>)
    requires 3 <= depth <= 4
    ensures u.Some? ==> |u.value.0| == n
  {
    if n == 0 then Some(([], s))
    else if |s| < depth then None
    else Prepend([PixelOf(s, depth)], UnpackRaw(s[depth..], n - 1, depth))
  }

  /**
   One packet, of which at most `want` pixels are still due.  There is no result when the
   bytes run out or when the packet reaches past the end of the line.
   */
  function UnpackOne(s: seq<byte>, want: nat, depth: nat): (u: Parsed<Bytes4>)
    requires 3 <= depth <= 4
    ensures u.Some? ==> 1 <= |u.value.0| <= want
  {
    if s == [] then None
    else
      var n := Low7(s[0]) + 1;
      if n > want then None
      else if !HighBit(s[0]) then UnpackRaw(s[1..], n, depth)
      else if |s| < 1 + depth then None
      else Some((seq(n, _ => PixelOf(s[1..], depth)), s[1 + depth..]))
  }

  /** Packets until `want` pixels are there: the pixels and the bytes left over. */
  function Unpack(s: seq<byte>, want: nat, depth: nat): (u: Parsed<Bytes4>)
    requires 3 <= depth <= 4
    ensures u.Some? ==> |u.value.0| == want
    decreases want
  {
    if want == 0 then Some(([], s))
    else
      match UnpackOne(s, want, depth)
      case None => None
      case Some((pixels, rest)) => Prepend(pixels, Unpack(rest, want - |pixels|, depth))
  }

  // --- round trip and size -----------------------------------------------------------------------

  lemma {:induction false} UnpackRawFlatten(items: seq<Bytes4>, rest: seq<byte>)
    ensures UnpackRaw(Flatten(items) + rest, |items|, 4) == Some((items, rest))
  {
    var s := Flatten(items) + rest;
    if items == [] {
      assert s == rest;
    } else {
      assert PixelOf(s, 4) == items[0];
      assert s[4..] == Flatten(items[1..]) + rest;
      UnpackRawFlatten(items[1..], rest);
      assert [items[0]] + items[1..] == items;
    }
  }

  lemma UnpackRawPacket(items: seq<Bytes4>, want: nat, rest: seq<byte>)
    requires 1 <= |items| <= 128 && |items| <= want
    ensures UnpackOne(PacketBytes(Raw(items)) + rest, want, 4) == Some((items, rest))
  {
    hide Flatten, UnpackRaw, PixelOf;
    var tag: byte := |items| - 1;
    var body := Flatten(items) + rest;
    assert PacketBytes(Raw(items)) + rest == [tag] + body;
    UnpackRawFlatten(items, rest);
    assert ([tag] + body)[1..] == body;
  }

  lemma UnpackRunPacket(item: Bytes4, count: nat, want: nat, rest: seq<byte>)
    requires 1 <= count <= 128 && count <= want
    ensures UnpackOne(PacketBytes(Run(item, count)) + rest, want, 4) == Some((seq(count, _ => item), rest))
  {
    var tag: byte := 0x80 + count - 1;
    var s := [tag] + (item.ToBytes() + rest);
    assert PacketBytes(Run(item, count)) + rest == s;
    assert PixelOf(s[1..], 4) == item;
    assert s[5..] == rest;
  }

  /** One packet is undone by one step of the format. */
  lemma UnpackPacket(p: Packet<Bytes4>, line: seq<Bytes4>, at: nat, rest: seq<byte>)
    requires Step(p, line, at, LIMITS)
    ensures UnpackOne(PacketBytes(p) + rest, |line| - at, 4) == Some((line[at..at + Length(p)], rest))
  {
    hide UnpackOne, PacketBytes, RunAt;
    match p {
      case Raw(items) =>
        UnpackRawPacket(items, |line| - at, rest);
      case Run(item, count) =>
        UnpackRunPacket(item, count, |line| - at, rest);
        assert seq(count, _ => item) == line[at..at + count];
    }
  }

  lemma LineBytesSplit(ps: seq<Packet<Bytes4>>, rest: seq<byte>)
    ensures LineBytes(ps) + rest ==
      if ps == [] then rest else PacketBytes(ps[0]) + (LineBytes(ps[1..]) + rest)
  {
  }

  /** Whatever covers a line unpacks to that line, and no byte of what follows is touched. */
  lemma {:induction false} UnpackCovering(ps: seq<Packet<Bytes4>>, line: seq<Bytes4>, from: nat, rest: seq<byte>)
    requires from <= |line|
    requires Covers(ps, line, from, |line|, LIMITS)
    ensures Unpack(LineBytes(ps) + rest, |line| - from, 4) == Some((line[from..], rest))
  {
    hide Covers, Step, Length, LineBytes, PacketBytes, UnpackOne;
    CoversUnfold(ps, line, from, |line|, LIMITS);
    LineBytesSplit(ps, rest);
    if ps == [] {
      assert line[from..] == [];
    } else {
      var next := from + Length(ps[0]);
      UnpackCovering(ps[1..], line, next, rest);
      UnpackPacket(ps[0], line, from, LineBytes(ps[1..]) + rest);
      assert line[from..next] + line[next..] == line[from..];
    }
  }

  lemma UnpackInvertsPack(bytes: seq<byte>, line: seq<Bytes4>, rest: seq<byte>)
    requires Packed(bytes, line)
    ensures Unpack(bytes + rest, |line|, 4) == Some((line, rest))
  {
    var ps :| Covers(ps, line, 0, |line|, LIMITS) && bytes == LineBytes(ps);
    UnpackCovering(ps, line, 0, rest);
    assert line[0..] == line;
  }

  /** The saver's bytes are a function of the line, and different lines get different bytes. */
  lemma PackedIsInjectiveFunction(bytes: seq<byte>, line: seq<Bytes4>, bytes': seq<byte>, line': seq<Bytes4>)
    requires Packed(bytes, line) && Packed(bytes', line') && |line| == |line'|
    ensures bytes == bytes' <==> line == line'
  {
    if line == line' {
      var ps :| Covers(ps, line, 0, |line|, LIMITS) && bytes == LineBytes(ps);
      var qs :| Covers(qs, line', 0, |line'|, LIMITS) && bytes' == LineBytes(qs);
      CoveringIsUnique(ps, qs, line, 0, LIMITS);
    } else {
      UnpackInvertsPack(bytes, line, []);
      UnpackInvertsPack(bytes', line', []);
    }
  }

  /** Amortised over packets: a short raw packet is paid for by the run that cut it short. */
  lemma {:induction false} CoveringSize(ps: seq<Packet<Bytes4>>, line: seq<Bytes4>, from: nat)
    requires from <= |line|
    requires Covers(ps, line, from, |line|, LIMITS)
    ensures |LineBytes(ps)| <= 4 * (|line| - from) + (|line| - from + 127) / 128
    decreases |ps|
  {
    if ps == [] {
    } else {
      var n := Length(ps[0]);
      if ps[0].Raw? && n < MAX_RAW && from + n < |line| {
        ShortRawIsFollowedByRun(ps[0], ps[1], line, from, LIMITS);
        CoveringSize(ps[2..], line, from + n + Length(ps[1]));
        assert ps[1..][1..] == ps[2..];
        assert LineBytes(ps[1..]) == PacketBytes(ps[1]) + LineBytes(ps[2..]);
      } else {
        CoveringSize(ps[1..], line, from + n);
      }
    }
  }

  /** A scanline of c pixels takes at most 4c + ceil(c / 128) bytes. */
  lemma WorstCaseSize(bytes: seq<byte>, line: seq<Bytes4>)
    requires Packed(bytes, line)
    ensures |bytes| <= 4 * |line| + (|line| + 127) / 128
  {
    var ps :| Covers(ps, line, 0, |line|, LIMITS) && bytes == LineBytes(ps);
    CoveringSize(ps, line, 0);
  }

  // --- the saver's loop --------------------------------------------------------------------------

  /** How many pixels from `x` on equal the one at `x`, counting at most 128. */
  method CountSame(buffer: array<Bytes4>, x: nat) returns (numSame: byte)
    requires x < buffer.Length
    ensures 1 <= numSame <= 128 && x + numSame <= buffer.Length
    ensures forall i :: x <= i < x + numSame ==> buffer[i] == buffer[x]
    ensures numSame < 128 && x + numSame < buffer.Length ==> buffer[x + numSame] != buffer[x]
  {
    var bytes := buffer[x];
    var x2 := x;
    numSame := 0;
    while x2 < buffer.Length && numSame < 128 && buffer[x2] == bytes
      invariant x2 == x + numSame <= buffer.Length && numSame <= 128
      invariant forall i :: x <= i < x2 ==> buffer[i] == bytes
    {
      x2 := x2 + 1;
      numSame := numSame + 1;
    }
  }

  /** Writes the pixels collected so far as one raw packet. */
  method WriteRaw(rleBuffer: array<Bytes4>, numDiff: byte) returns (bytes: seq<byte>)
    requires 1 <= numDiff <= 128 == rleBuffer.Length
    ensures bytes == PacketBytes(Raw(rleBuffer[..numDiff]))
  {
    hide Bytes4.ToBytes;
    bytes := [numDiff - 1];
    for i := 0 to numDiff
      invariant bytes == [numDiff - 1] + Flatten(rleBuffer[..i])
    {
      hide Flatten, PacketBytes;
      Associate([numDiff - 1], Flatten(rleBuffer[..i]), rleBuffer[i].ToBytes());
      bytes := bytes + rleBuffer[i].ToBytes();
      FlattenAppend(rleBuffer[..i], rleBuffer[i]);
      assert rleBuffer[..i + 1] == rleBuffer[..i] + [rleBuffer[i]];
    }
  }

  /** What the packets written so far must satisfy for one more packet to join them. */
  lemma AddPacket(ps: seq<Packet<Bytes4>>, p: Packet<Bytes4>, line: seq<Bytes4>, to: nat)
    requires Covers(ps, line, 0, to, LIMITS) && Step(p, line, to, LIMITS)
    ensures Covers(ps + [p], line, 0, to + Length(p), LIMITS)
    ensures LineBytes(ps + [p]) == LineBytes(ps) + PacketBytes(p)
  {
    hide *;
    CoversAppend(ps, p, line, 0, to, LIMITS);
    LineBytesAppend(ps, p);
  }

  lemma AddRaw(ps: seq<Packet<Bytes4>>, line: seq<Bytes4>, from: nat, to: nat)
    requires from < to <= |line| && to - from <= 128 && Covers(ps, line, 0, from, LIMITS)
    requires forall i :: from <= i < to ==> !RunAt(line, i, 2)
    requires to - from < 128 && to < |line| ==> RunAt(line, to, 2)
    ensures Covers(ps + [Raw(line[from..to])], line, 0, to, LIMITS)
    ensures LineBytes(ps + [Raw(line[from..to])]) == LineBytes(ps) + PacketBytes(Raw(line[from..to]))
  {
    hide RunAt, Covers, LineBytes, PacketBytes;
    AddPacket(ps, Raw(line[from..to]), line, from);
  }

  lemma AddRun(ps: seq<Packet<Bytes4>>, line: seq<Bytes4>, from: nat, count: nat)
    requires 2 <= count <= 128 && from + count <= |line| && Covers(ps, line, 0, from, LIMITS)
    requires forall i :: from <= i < from + count ==> line[i] == line[from]
    requires count < 128 && from + count < |line| ==> line[from + count] != line[from]
    ensures Covers(ps + [Run(line[from], count)], line, 0, from + count, LIMITS)
    ensures LineBytes(ps + [Run(line[from], count)]) ==
      LineBytes(ps) + [SetHighBit(count - 1)] + line[from].ToBytes()
  {
    hide RunAt, Covers, LineBytes, PacketBytes, Bytes4.ToBytes;
    RunPacketBytes(line[from], count);
    AddPacket(ps, Run(line[from], count), line, from);
    Associate(LineBytes(ps), [SetHighBit(count - 1)], line[from].ToBytes());
  }

  lemma RunOfTwo(line: seq<Bytes4>, x: nat, numSame: nat)
    requires 1 <= numSame <= 128 && x + numSame <= |line|
    requires forall i :: x <= i < x + numSame ==> line[i] == line[x]
    requires numSame < 128 && x + numSame < |line| ==> line[x + numSame] != line[x]
    ensures numSame > 1 <==> RunAt(line, x, 2)
  {
    assert numSame > 1 ==> line[x + 1] == line[x];
  }

  /** Run-length encodes one scanline; `rleBuffer` collects pixels that do not repeat. */
  method PackLine(buffer: array<Bytes4>, rleBuffer: array<Bytes4>) returns (out: seq<byte>)
    requires rleBuffer.Length == 128 && buffer != rleBuffer
    modifies rleBuffer
    ensures Packed(out, buffer[..])
  {
    hide Covers, LineBytes, PacketBytes, RunAt;
    var cols := buffer.Length;
    ghost var line := buffer[..];
    ghost var ps: seq<Packet<Bytes4>> := [];
    out := [];
    var numDiff: byte := 0;
    var x := 0;
    NothingPacked(line);
    while x < cols
      invariant numDiff <= x <= cols && numDiff < 128
      invariant x == cols ==> numDiff == 0
      invariant buffer[..] == line
      invariant Covers(ps, line, 0, x - numDiff, LIMITS) && out == LineBytes(ps)
      invariant rleBuffer[..numDiff] == line[x - numDiff..x]
      invariant forall i :: x - numDiff <= i < x ==> !RunAt(line, i, 2)
    {
      var bytes := buffer[x];
      var numSame := CountSame(buffer, x);
      var x2 := x + numSame;
      RunOfTwo(line, x, numSame);
      if numSame == 1 {
        rleBuffer[numDiff] := bytes;
        numDiff := numDiff + 1;
        x := x + 1;
        assert rleBuffer[..numDiff] == rleBuffer[..numDiff - 1] + [bytes];
      }
      if numDiff == 128 || ((numSame > 1 || x == cols) && numDiff > 0) {
        var raw := WriteRaw(rleBuffer, numDiff);
        out := out + raw;
        AddRaw(ps, line, x - numDiff, x);
        ps := ps + [Raw(line[x - numDiff..x])];
        numDiff := 0;
      }
      if numSame > 1 {
        out := out + [SetHighBit(numSame - 1)] + bytes.ToBytes();
        AddRun(ps, line, x, numSame);
        ps := ps + [Run(bytes, numSame)];
        x := x2;
      }
    }
  }

  lemma NothingPacked(line: seq<Bytes4>)
    ensures Covers([], line, 0, 0, LIMITS) && LineBytes([]) == []
  {
  }

  lemma RunPacketBytes(item: Bytes4, count: nat)
    requires 1 <= count <= 128
    ensures PacketBytes(Run(item, count)) == [SetHighBit(count - 1)] + item.ToBytes()
  {
  }

  // --- the loader's loop -------------------------------------------------------------------------

  /** One pixel, `packetSize` times. */
  method RepeatInto(bytes: Bytes4, packetSize: nat, buffer: array<Bytes4>, x: nat) returns (ok: bool, x': nat)
    requires x <= buffer.Length
    modifies buffer
    ensures buffer[..x] == old(buffer[..x])
    ensures ok <==> packetSize <= buffer.Length - x
    ensures ok ==> x' == x + packetSize && buffer[x..x'] == seq(packetSize, _ => bytes)
  {
    ok, x' := false, x;
    for i := 0 to packetSize
      invariant x' == x + i <= buffer.Length
      invariant buffer[..x] == old(buffer[..x])
      invariant forall j :: x <= j < x' ==> buffer[j] == bytes
    {
      if x' == buffer.Length {
        return;
      }
      buffer[x'] := bytes;
      x' := x' + 1;
    }
    ok := true;
  }

  /** `packetSize` pixels as they are. */
  method CopyInto(input: seq<byte>, start: nat, packetSize: nat, depth: nat, buffer: array<Bytes4>, x: nat)
    returns (ok: bool, pos: nat, x': nat)
    requires start <= |input| && 3 <= depth <= 4 && x <= buffer.Length
    modifies buffer
    ensures buffer[..x] == old(buffer[..x])
    ensures var u := UnpackRaw(input[start..], packetSize, depth);
      && (ok <==> u.Some? && packetSize <= buffer.Length - x)
      && (ok ==> pos <= |input| && x' == x + packetSize && u.value == (buffer[x..x'], input[pos..]))
  {
    ok, pos, x' := false, start, x;
    ghost var goal := UnpackRaw(input[start..], packetSize, depth);
    PrependTwice([], [], goal);
    assert buffer[x..x] == [];
    for i := 0 to packetSize
      invariant x' == x + i <= buffer.Length && pos <= |input|
      invariant buffer[..x] == old(buffer[..x])
      invariant goal == Prepend(buffer[x..x'], UnpackRaw(input[pos..], packetSize - i, depth))
    {
      if |input| - pos < depth {
        return;
      }
      var bytes := PixelOf(input[pos..], depth);
      assert input[pos..][depth..] == input[pos + depth..];
      pos := pos + depth;
      if x' == buffer.Length {
        return;
      }
      ghost var done := buffer[x..x'];
      buffer[x'] := bytes;
      x' := x' + 1;
      assert buffer[x..x'] == done + [bytes];
      PrependTwice(done, [bytes], UnpackRaw(input[pos..], packetSize - i - 1, depth));
    }
    ok := true;
    PrependToNothing(buffer[x..x'], input[pos..]);
  }

  /** Decodes the packet at `start` into `buffer` from position `x` on. */
  method UnpackPacketInto(input: seq<byte>, start: nat, depth: nat, buffer: array<Bytes4>, x: nat)
    returns (ok: bool, pos: nat, x': nat)
    requires start <= |input| && 3 <= depth <= 4 && x < buffer.Length
    modifies buffer
    ensures buffer[..x] == old(buffer[..x])
    ensures var u := UnpackOne(input[start..], buffer.Length - x, depth);
      && ok == u.Some?
      && (ok ==> pos <= |input| && x < x' <= buffer.Length && u.value == (buffer[x..x'], input[pos..]))
  {
    hide UnpackRaw, PixelOf;
    ok, pos, x' := false, start, x;
    if pos == |input| {
      return;
    }
    var code := input[pos];
    pos := pos + 1;
    assert input[start..][1..] == input[pos..];
    var packetSize := Low7(code) + 1;
    if HighBit(code) {
      if |input| - pos < depth {
        return;
      }
      var bytes := PixelOf(input[pos..], depth);
      assert input[start..][1 + depth..] == input[pos + depth..];
      pos := pos + depth;
      ok, x' := RepeatInto(bytes, packetSize, buffer, x);
    } else {
      ok, pos, x' := CopyInto(input, pos, packetSize, depth, buffer, x);
    }
  }

  /**
   Decodes one type-10 scanline into `buffer`, reading `input` from `start` on.  Running out of
   bytes and running past the end of the line both end the decoding without a result.
   */
  method UnpackLineInto(input: seq<byte>, start: nat, depth: nat, buffer: array<Bytes4>)
    returns (ok: bool, pos: nat)
    requires start <= |input| && 3 <= depth <= 4
    modifies buffer
    ensures var u := Unpack(input[start..], buffer.Length, depth);
      && ok == u.Some?
      && (ok ==> pos <= |input| && u.value == (buffer[..], input[pos..]))
  {
    hide UnpackOne;
    var cols := buffer.Length;
    ghost var goal := Unpack(input[start..], cols, depth);
    var x := 0;
    ok, pos := true, start;
    assert buffer[..0] == [];
    PrependTwice([], [], goal);
    while x < cols
      invariant x <= cols && pos <= |input|
      invariant goal == Prepend(buffer[..x], Unpack(input[pos..], cols - x, depth))
    {
      ghost var done := buffer[..x];
      var x';
      ok, pos, x' := UnpackPacketInto(input, pos, depth, buffer, x);
      if !ok {
        return;
      }
      assert buffer[..x'] == done + buffer[x..x'];
      PrependTwice(done, buffer[x..x'], Unpack(input[pos..], cols - x', depth));
      x := x';
    }
    assert buffer[..cols] == buffer[..];
    assert buffer[..] + [] == buffer[..];
  }
}
