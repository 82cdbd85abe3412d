/**
 Run-length coding of one component of a Radiance scanline.  `PackChannel` is the saver's loop,
 `RadianceReader.UnpackChannelInto` the loader's; `Unpack` is the format, written without either loop.
 */
module RadianceRle {
  import opened Bytes
  import opened Packets
  import opened Parsing

  const LIMITS := Limits(3, 127)

  /** A packet as bytes: the count, with the high bit set for a run, then one byte or all of them. */
  function PacketBytes(p: Packet<byte>): (s: seq<byte>)
    ensures s != []
  {
    match p
    case Raw(items) => [|items| % 256] + items
    case Run(item, count) => [SetHighBit(count % 256), item]
  }

  function ChannelBytes(ps: seq<Packet<byte>>): seq<byte> {
    if ps == [] then [] else PacketBytes(ps[0]) + ChannelBytes(ps[1..])
  }

  lemma {:induction false} ChannelBytesAppend(ps: seq<Packet<byte>>, p: Packet<byte>)
    ensures ChannelBytes(ps + [p]) == ChannelBytes(ps) + PacketBytes(p)
  {
    hide PacketBytes;
    if ps == [] {
      assert (ps + [p])[1..] == [];
    } else {
      ChannelBytesAppend(ps[1..], p);
      assert (ps + [p])[1..] == ps[1..] + [p];
    }
  }

  /** `bytes` are what the saver writes for the component values `line`. */
  ghost predicate Packed(bytes: seq<byte>, line: seq<byte>) {
    exists ps :: Covers(ps, line, 0, |line|, LIMITS) && bytes == ChannelBytes(ps)
  }

  /** Tags of raw packets are 1 to 128, tags of runs 131 to 255: they never collide. */
  lemma TagsNeverCollide(p: Packet<byte>, line: seq<byte>, at: nat)
    requires Step(p, line, at, LIMITS)
    ensures if p.Raw? then 1 <= PacketBytes(p)[0] <= 128 else 131 <= PacketBytes(p)[0] <= 255
  {
    hide RunAt;
  }

  // --- the format --------------------------------------------------------------------------------

  /**
   One span, of which at most `want` values are still due.  There is no result when the bytes run
   out or when the span reaches past the end of the scanline.
   */
  function UnpackOne(s: seq<byte>, want: nat): (u: Parsed<byte>)
    ensures u.Some? ==> |u.value.0| <= want && |u.value.1| < |s|
  {
    if s == [] then None
    else if s[0] > 128 then
      var n := Low7(s[0]);
      if n > want || |s| < 2 then None else Some((seq(n, _ => s[1]), s[2..]))
    else
      var n := s[0];
      if n > want || |s| < 1 + n then None else Some((s[1..1 + n], s[1 + n..]))
  }

  /** Spans until `want` values are there: the values and the bytes left over. */
  function Unpack(s: seq<byte>, want: nat): (u: Parsed<byte>)
    ensures u.Some? ==> |u.value.0| == want && |u.value.1| <= |s|
    decreases |s|
  {
    if want == 0 then Some(([], s))
    else
      match UnpackOne(s, want)
      case None => None
      case Some((values, rest)) => Prepend(values, Unpack(rest, want - |values|))
  }

  // --- round trip and size -----------------------------------------------------------------------

  lemma UnpackRawPacket(items: seq<byte>, want: nat, rest: seq<byte>)
    requires 1 <= |items| <= 128 && |items| <= want
    ensures UnpackOne(PacketBytes(Raw(items)) + rest, want) == Some((items, rest))
  {
    var tag: byte := |items|;
    var s := [tag] + (items + rest);
    assert PacketBytes(Raw(items)) + rest == s;
    hide PacketBytes;
    assert s[1..1 + |items|] == items && s[1 + |items|..] == rest;
  }

  lemma UnpackRunPacket(item: byte, count: nat, want: nat, rest: seq<byte>)
    requires 1 <= count <= 127 && count <= want
    ensures UnpackOne(PacketBytes(Run(item, count)) + rest, want) == Some((seq(count, _ => item), rest))
  {
    var s := [SetHighBit(count), item] + rest;
    assert PacketBytes(Run(item, count)) + rest == s;
    hide PacketBytes;
    assert s[2..] == rest;
  }

  /** One packet is undone by one step of the format. */
  lemma UnpackPacket(p: Packet<byte>, line: seq<byte>, at: nat, rest: seq<byte>)
    requires Step(p, line, at, LIMITS)
    ensures UnpackOne(PacketBytes(p) + rest, |line| - at) == Some((line[at..at + Length(p)], rest))
  {
    hide RunAt, UnpackOne, PacketBytes;
    match p {
      case Raw(items) =>
        UnpackRawPacket(items, |line| - at, rest);
      case Run(item, count) =>
        UnpackRunPacket(item, count, |line| - at, rest);
        assert seq(count, _ => item) == line[at..at + count];
    }
  }

  lemma ChannelBytesSplit(ps: seq<Packet<byte>>, rest: seq<byte>)
    ensures ChannelBytes(ps) + rest ==
      if ps == [] then rest else PacketBytes(ps[0]) + (ChannelBytes(ps[1..]) + rest)
  {
  }

  /** Whatever covers a line unpacks to that line, and no byte of what follows is touched. */
  lemma {:induction false} UnpackCovering(ps: seq<Packet<byte>>, line: seq<byte>, from: nat, rest: seq<byte>)
    requires from <= |line|
    requires Covers(ps, line, from, |line|, LIMITS)
    ensures Unpack(ChannelBytes(ps) + rest, |line| - from) == Some((line[from..], rest))
  {
    hide Covers, Step, Length, ChannelBytes, PacketBytes, UnpackOne;
    CoversUnfold(ps, line, from, |line|, LIMITS);
    ChannelBytesSplit(ps, rest);
    if ps == [] {
      assert line[from..] == [];
    } else {
      var next := from + Length(ps[0]);
      UnpackCovering(ps[1..], line, next, rest);
      UnpackPacket(ps[0], line, from, ChannelBytes(ps[1..]) + rest);
      assert line[from..next] + line[next..] == line[from..];
    }
  }

  lemma UnpackInvertsPack(bytes: seq<byte>, line: seq<byte>, rest: seq<byte>)
    requires Packed(bytes, line)
    ensures Unpack(bytes + rest, |line|) == Some((line, rest))
  {
    var ps :| Covers(ps, line, 0, |line|, LIMITS) && bytes == ChannelBytes(ps);
    UnpackCovering(ps, line, 0, rest);
    assert line[0..] == line;
  }

  /** The saver's bytes are a function of the values, and different values get different bytes. */
  lemma PackedIsInjectiveFunction(bytes: seq<byte>, line: seq<byte>, bytes': seq<byte>, line': seq<byte>)
    requires Packed(bytes, line) && Packed(bytes', line') && |line| == |line'|
    ensures bytes == bytes' <==> line == line'
  {
    if line == line' {
      var ps :| Covers(ps, line, 0, |line|, LIMITS) && bytes == ChannelBytes(ps);
      var qs :| Covers(qs, line', 0, |line'|, LIMITS) && bytes' == ChannelBytes(qs);
      CoveringIsUnique(ps, qs, line, 0, LIMITS);
    } else {
      UnpackInvertsPack(bytes, line, []);
      UnpackInvertsPack(bytes', line', []);
    }
  }

  /** Amortised over packets: a short raw packet is paid for by the run that cut it short. */
  lemma {:induction false} CoveringSize(ps: seq<Packet<byte>>, line: seq<byte>, from: nat)
    requires from <= |line|
    requires Covers(ps, line, from, |line|, LIMITS)
    ensures |ChannelBytes(ps)| <= (|line| - from) + (|line| - from + 127) / 128
    decreases |ps|
  {
    if ps == [] {
    } else {
      var n := Length(ps[0]);
      if ps[0].Raw? && n < MAX_RAW && from + n < |line| {
        ShortRawIsFollowedByRun(ps[0], ps[1], line, from, LIMITS);
        CoveringSize(ps[2..], line, from + n + Length(ps[1]));
        assert ps[1..][1..] == ps[2..];
        assert ChannelBytes(ps[1..]) == PacketBytes(ps[1]) + ChannelBytes(ps[2..]);
      } else {
        CoveringSize(ps[1..], line, from + n);
      }
    }
  }

  /** A component of c values takes at most c + ceil(c / 128) bytes. */
  lemma WorstCaseSize(bytes: seq<byte>, line: seq<byte>)
    requires Packed(bytes, line)
    ensures |bytes| <= |line| + (|line| + 127) / 128
  {
    var ps :| Covers(ps, line, 0, |line|, LIMITS) && bytes == ChannelBytes(ps);
    CoveringSize(ps, line, 0);
  }

  // --- the saver's loop --------------------------------------------------------------------------

  function Channel(pixels: seq<Bytes4>, k: nat): (line: seq<byte>)
    requires k < 4
    ensures |line| == |pixels|
  {
    seq(|pixels|, x requires 0 <= x < |pixels| => pixels[x].Get(k))
  }

  lemma ChannelAt(pixels: seq<Bytes4>, k: nat, x: nat)
    requires k < 4 && x < |pixels|
    ensures Channel(pixels, k)[x] == pixels[x].Get(k)
  {
  }

  /** How many values from `x` on equal the one at `x`, counting at most 127. */
  method CountSame(buffer: array<Bytes4>, k: nat, x: nat) returns (numSame: byte)
    requires k < 4 && x < buffer.Length
    ensures 1 <= numSame <= 127 && x + numSame <= buffer.Length
    ensures var line := Channel(buffer[..], k);
      && (forall i :: x <= i < x + numSame ==> line[i] == line[x])
      && (numSame < 127 && x + numSame < |line| ==> line[x + numSame] != line[x])
  {
    hide Bytes4.Get;
    var value := buffer[x].Get(k);
    var x2 := x;
    numSame := 0;
    while x2 < buffer.Length && numSame < 127 && buffer[x2].Get(k) == value
      invariant x2 == x + numSame <= buffer.Length && numSame <= 127
      invariant forall i :: x <= i < x2 ==> buffer[i].Get(k) == value
    {
      x2 := x2 + 1;
      numSame := numSame + 1;
    }
  }

  lemma AddPacket(ps: seq<Packet<byte>>, p: Packet<byte>, line: seq<byte>, to: nat)
    requires Covers(ps, line, 0, to, LIMITS) && Step(p, line, to, LIMITS)
    ensures Covers(ps + [p], line, 0, to + Length(p), LIMITS)
    ensures ChannelBytes(ps + [p]) == ChannelBytes(ps) + PacketBytes(p)
  {
    hide *;
    CoversAppend(ps, p, line, 0, to, LIMITS);
    ChannelBytesAppend(ps, p);
  }

  lemma NothingPacked(line: seq<byte>)
    ensures Covers([], line, 0, 0, LIMITS) && ChannelBytes([]) == []
  {
  }

  lemma AddRaw(ps: seq<Packet<byte>>, line: seq<byte>, from: nat, to: nat)
    requires from < to <= |line| && to - from <= 128 && Covers(ps, line, 0, from, LIMITS)
    requires forall i :: from <= i < to ==> !RunAt(line, i, 3)
    requires to - from < 128 && to < |line| ==> RunAt(line, to, 3)
    ensures Covers(ps + [Raw(line[from..to])], line, 0, to, LIMITS)
    ensures ChannelBytes(ps + [Raw(line[from..to])]) == ChannelBytes(ps) + ([to - from] + line[from..to])
  {
    hide RunAt, Covers, ChannelBytes;
    AddPacket(ps, Raw(line[from..to]), line, from);
  }

  lemma AddRun(ps: seq<Packet<byte>>, line: seq<byte>, from: nat, count: nat)
    requires 3 <= count <= 127 && from + count <= |line| && Covers(ps, line, 0, from, LIMITS)
    requires forall i :: from <= i < from + count ==> line[i] == line[from]
    requires count < 127 && from + count < |line| ==> line[from + count] != line[from]
    ensures Covers(ps + [Run(line[from], count)], line, 0, from + count, LIMITS)
    ensures ChannelBytes(ps + [Run(line[from], count)]) == ChannelBytes(ps) + ([SetHighBit(count)] + [line[from]])
  {
    hide RunAt, Covers, ChannelBytes;
    AddPacket(ps, Run(line[from], count), line, from);
  }

  /** Run-length encodes component `k`; `rleBuffer` collects values that do not repeat. */
  method PackChannel(buffer: array<Bytes4>, k: nat, rleBuffer: array<byte>) returns (out: seq<byte>)
    requires k < 4 && rleBuffer.Length == 128
    modifies rleBuffer
    ensures Packed(out, Channel(buffer[..], k))
  {
    hide Covers, ChannelBytes, Bytes4.Get, RunAt, Channel;
    var cols := buffer.Length;
    ghost var line := Channel(buffer[..], k);
    ghost var ps: seq<Packet<byte>> := [];
    out := [];
    var numDiff: byte := 0;
    var x := 0;
    NothingPacked(line);
    while x < cols
      invariant numDiff <= x <= cols && numDiff <= 128
      invariant line == Channel(buffer[..], k)
      invariant Covers(ps, line, 0, x - numDiff, LIMITS) && out == ChannelBytes(ps)
      invariant rleBuffer[..numDiff] == line[x - numDiff..x]
      invariant forall i :: x - numDiff <= i < x ==> !RunAt(line, i, 3)
    {
      var value := buffer[x].Get(k);
      ChannelAt(buffer[..], k, x);
      var numSame := CountSame(buffer, k, x);
      RunOfThree(line, x, numSame);
      if numSame > 2 {
        if numDiff > 0 {
          AddRaw(ps, line, x - numDiff, x);
          ps := ps + [Raw(line[x - numDiff..x])];
          out := out + ([numDiff] + rleBuffer[..numDiff]);
          numDiff := 0;
        }
        AddRun(ps, line, x, numSame);
        ps := ps + [Run(value, numSame)];
        out := out + ([SetHighBit(numSame)] + [value]);
        x := x + numSame;
      } else {
        if numDiff == 128 {
          AddRaw(ps, line, x - numDiff, x);
          ps := ps + [Raw(line[x - numDiff..x])];
          out := out + ([numDiff] + rleBuffer[..numDiff]);
          numDiff := 0;
        }
        rleBuffer[numDiff] := value;
        numDiff := numDiff + 1;
        x := x + 1;
        assert rleBuffer[..numDiff] == rleBuffer[..numDiff - 1] + [value];
      }
    }
    if numDiff > 0 {
      AddRaw(ps, line, x - numDiff, x);
      ps := ps + [Raw(line[x - numDiff..x])];
      out := out + ([numDiff] + rleBuffer[..numDiff]);
    }
  }

  lemma RunOfThree(line: seq<byte>, x: nat, numSame: nat)
    requires 1 <= numSame <= 127 && x + numSame <= |line|
    requires forall i :: x <= i < x + numSame ==> line[i] == line[x]
    requires numSame < 127 && x + numSame < |line| ==> line[x + numSame] != line[x]
    ensures numSame > 2 <==> RunAt(line, x, 3)
  {
  }
}
