/**
 The loops of the Radiance loader over one scanline.  Pixels come in file order; the loader stores
 them from the first column on or from the last one back.
 */
module RadianceReader {
  import opened Bytes
  import opened Parsing
  import opened RadianceRle
  import opened RadianceScanline
  import opened Rows

  /** A scanline in the other order: from buffer to file, and back. */
  function View<T>(s: seq<T>, increasing: bool): (t: seq<T>)
    ensures |t| == |s|
  {
    seq(|s|, p requires 0 <= p < |s| => s[Place(p, |s|, increasing)])
  }

  lemma ViewTwice<T>(s: seq<T>, increasing: bool)
    ensures View(View(s, increasing), increasing) == s
  {
  }

  lemma ViewUpdate<T>(s: seq<T>, increasing: bool, p: nat, v: T)
    requires p < |s|
    ensures View(s[Place(p, |s|, increasing) := v], increasing) == View(s, increasing)[p := v]
  {
  }

  /** `line` with other values for component `k` of the pixels from `from` on. */
  function WithPart(line: seq<Bytes4>, from: nat, k: nat, values: seq<byte>): (t: seq<Bytes4>)
    requires k < 4 && from + |values| <= |line|
    ensures |t| == |line|
  {
    seq(|line|, p requires 0 <= p < |line| =>
      if from <= p < from + |values| then line[p].With(k, values[p - from]) else line[p])
  }

  lemma WithPartNext(line: seq<Bytes4>, from: nat, k: nat, values: seq<byte>, v: byte)
    requires k < 4 && from + |values| < |line|
    ensures var p := from + |values|;
      var now := WithPart(line, from, k, values);
      now[p := now[p].With(k, v)] == WithPart(line, from, k, values + [v])
  {
    hide Bytes4.With;
  }

  lemma WithNoPart(line: seq<Bytes4>, from: nat, k: nat)
    requires k < 4 && from <= |line|
    ensures WithPart(line, from, k, []) == line
  {
    hide Bytes4.With;
  }

  lemma WithPartTwice(line: seq<Bytes4>, from: nat, k: nat, a: seq<byte>, b: seq<byte>)
    requires k < 4 && from + |a| + |b| <= |line|
    ensures WithPart(WithPart(line, from, k, a), from + |a|, k, b) == WithPart(line, from, k, a + b)
  {
    hide Bytes4.With;
  }

  method StoreByte(buffer: array<Bytes4>, p: nat, k: nat, v: byte, increasing: bool)
    requires k < 4 && p < buffer.Length
    modifies buffer
    ensures var before := old(View(buffer[..], increasing));
      View(buffer[..], increasing) == before[p := before[p].With(k, v)]
  {
    hide Bytes4.With;
    var column := Place(p, buffer.Length, increasing);
    ghost var before := buffer[..];
    buffer[column] := buffer[column].With(k, v);
    ViewUpdate(before, increasing, p, buffer[column]);
    assert buffer[..] == before[column := buffer[column]];
  }

  /** One span of component `k`, from pixel `from` on; at most `want` values are still due. */
  method UnpackSpanInto(input: seq<byte>, buffer: array<Bytes4>, from: nat, want: nat, k: nat, increasing: bool)
    returns (ok: bool, pos: nat, x2: nat, ghost values: seq<byte>)
    requires k < 4 && from + want <= buffer.Length
    modifies buffer
    ensures ok == UnpackOne(input, want).Some?
    ensures ok ==> pos <= |input| && x2 == from + |values|
    ensures ok ==> UnpackOne(input, want) == Some((values, input[pos..]))
    ensures ok ==> View(buffer[..], increasing) == WithPart(old(View(buffer[..], increasing)), from, k, values)
  {
    hide View, WithPart, Bytes4.With;
    ghost var before := View(buffer[..], increasing);
    ok, pos, x2, values := false, 0, from, [];
    if input == [] {
      return;
    }
    var spanField := input[0];
    pos := 1;
    var isHomogenousSpan := spanField > 128;
    var spanSize := if isHomogenousSpan then Low7(spanField) else spanField;
    var value: byte := 0;
    if isHomogenousSpan {
      if pos == |input| {
        return;
      }
      value := input[pos];
      pos := pos + 1;
    }
    WithNoPart(before, from, k);
    for i := 0 to spanSize
      invariant |values| == i <= want && x2 == from + i
      invariant View(buffer[..], increasing) == WithPart(before, from, k, values)
      invariant if isHomogenousSpan
                then pos == 2 <= |input| && value == input[1] && values == seq(i, _ => input[1])
                else pos == 1 + i <= |input| && values == input[1..1 + i]
    {
      if !isHomogenousSpan {
        if pos == |input| {
          return;
        }
        value := input[pos];
        pos := pos + 1;
      }
      if i == want {
        return;
      }
      if isHomogenousSpan {
        assert seq(i, _ => input[1]) + [value] == seq(i + 1, _ => input[1]);
      }
      WithPartNext(before, from, k, values, value);
      StoreByte(buffer, x2, k, value, increasing);
      x2 := x2 + 1;
      values := values + [value];
    }
    ok := true;
  }

  /** Component `k` of `width` pixels, span after span. */
  method UnpackChannelInto(input: seq<byte>, buffer: array<Bytes4>, from: nat, width: nat, k: nat, increasing: bool)
    returns (ok: bool, pos: nat, ghost values: seq<byte>)
    requires k < 4 && from + width <= buffer.Length
    modifies buffer
    ensures ok == Unpack(input, width).Some?
    ensures ok ==> pos <= |input| && Unpack(input, width) == Some((values, input[pos..]))
    ensures ok ==> View(buffer[..], increasing) == WithPart(old(View(buffer[..], increasing)), from, k, values)
  {
    hide View, WithPart, UnpackOne;
    ghost var before := View(buffer[..], increasing);
    pos, values := 0, [];
    WithNoPart(before, from, k);
    PrependTwice([], [], Unpack(input, width));
    var x2 := from;
    while x2 != from + width
      invariant x2 == from + |values| <= from + width && pos <= |input|
      invariant View(buffer[..], increasing) == WithPart(before, from, k, values)
      invariant Unpack(input, width) == Prepend(values, Unpack(input[pos..], width - |values|))
      decreases |input| - pos
    {
      var read, next;
      ghost var span;
      ok, read, next, span := UnpackSpanInto(input[pos..], buffer, x2, from + width - x2, k, increasing);
      if !ok {
        return;
      }
      assert input[pos..][read..] == input[pos + read..];
      WithPartTwice(before, from, k, values, span);
      PrependTwice(values, span, Unpack(input[pos + read..], width - |values| - |span|));
      pos := pos + read;
      values := values + span;
      x2 := next;
    }
    ok := true;
    PrependToNothing(values, input[pos..]);
  }

  /** `now` has the components `parts` in the `width` pixels from `from` on, and is `before` elsewhere. */
  ghost predicate HasParts(now: seq<Bytes4>, before: seq<Bytes4>, from: nat, width: nat, parts: seq<seq<byte>>) {
    && |now| == |before| && from + width <= |now| && |parts| <= 4
    && (forall part :: part in parts ==> |part| == width)
    && (forall p :: 0 <= p < |now| && !(from <= p < from + width) ==> now[p] == before[p])
    && (forall j: nat, p: nat :: j < |parts| && p < width ==> now[from + p].Get(j) == parts[j][p])
  }

  lemma NextPart(now: seq<Bytes4>, before: seq<Bytes4>, from: nat, width: nat, parts: seq<seq<byte>>, values: seq<byte>)
    requires HasParts(now, before, from, width, parts) && |parts| < 4 && |values| == width
    ensures HasParts(WithPart(now, from, |parts|, values), before, from, width, parts + [values])
  {
    var k, after := |parts|, WithPart(now, from, |parts|, values);
    forall j: nat, p: nat | j < k + 1 && p < width
      ensures after[from + p].Get(j) == (parts + [values])[j][p]
    {
      assert after[from + p] == now[from + p].With(k, values[p]);
      hide Bytes4.With, Bytes4.Get, WithPart;
    }
    hide Bytes4.With, Bytes4.Get;
  }

  lemma AllParts(now: seq<Bytes4>, before: seq<Bytes4>, from: nat, width: nat, parts: seq<seq<byte>>)
    requires HasParts(now, before, from, width, parts) && |parts| == 4
    ensures now == Overwritten(before, from, Zip(parts, width))
  {
    var line := Zip(parts, width);
    forall p | from <= p < from + width
      ensures now[p] == line[p - from]
    {
      PixelIsItsBytes(now[p]);
      assert forall j: nat :: j < 4 ==> now[from + (p - from)].Get(j) == parts[j][p - from];
      hide Bytes4.Get;
    }
    hide Zip, HasParts;
    IsOverwritten(before, now, from, line);
  }

  lemma PixelIsItsBytes(b: Bytes4)
    ensures b == Bytes4(b.Get(0), b.Get(1), b.Get(2), b.Get(3))
  {
  }

  lemma NoPartsYet(line: seq<Bytes4>, from: nat, width: nat)
    requires from + width <= |line|
    ensures HasParts(line, line, from, width, [])
  {
  }

  /** The four components of a coded piece. */
  method UnpackPartsInto(input: seq<byte>, buffer: array<Bytes4>, from: nat, width: nat, increasing: bool)
    returns (ok: bool, pos: nat, ghost parts: seq<seq<byte>>)
    requires from + width <= buffer.Length
    modifies buffer
    ensures ok == UnpackParts(input, width, 4).Some?
    ensures ok ==> pos <= |input| && UnpackParts(input, width, 4) == Some((parts, input[pos..]))
    ensures ok ==>
      View(buffer[..], increasing) == Overwritten(old(View(buffer[..], increasing)), from, Zip(parts, width))
  {
    hide View, WithPart, Unpack, UnpackParts, Zip, Overwritten, HasParts;
    ghost var before := View(buffer[..], increasing);
    pos, parts := 0, [];
    NoPartsYet(before, from, width);
    PrependTwice([], [], UnpackParts(input, width, 4));
    for k := 0 to 4
      invariant |parts| == k && pos <= |input|
      invariant HasParts(View(buffer[..], increasing), before, from, width, parts)
      invariant UnpackParts(input, width, 4) == Prepend(parts, UnpackParts(input[pos..], width, 4 - k))
    {
      PartsUnfold(input[pos..], width, 4 - k);
      ghost var now := View(buffer[..], increasing);
      var read;
      ghost var values;
      ok, read, values := UnpackChannelInto(input[pos..], buffer, from, width, k, increasing);
      if !ok {
        return;
      }
      assert input[pos..][read..] == input[pos + read..];
      NextPart(now, before, from, width, parts, values);
      PrependTwice(parts, [values], UnpackParts(input[pos + read..], width, 3 - k));
      pos := pos + read;
      parts := parts + [values];
    }
    ok := true;
    AllParts(View(buffer[..], increasing), before, from, width, parts);
    PartsUnfold(input[pos..], width, 0);
    PrependToNothing(parts, input[pos..]);
  }

  /** One coded piece or one pixel, from pixel `x` on. */
  method UnpackPieceInto(input: seq<byte>, buffer: array<Bytes4>, x: nat, increasing: bool)
    returns (ok: bool, pos: nat, x': nat, ghost pixels: seq<Bytes4>)
    requires x < buffer.Length
    modifies buffer
    ensures ok == UnpackPiece(input, buffer.Length - x).Some?
    ensures ok ==> pos <= |input| && x' == x + |pixels| <= buffer.Length
    ensures ok ==> UnpackPiece(input, buffer.Length - x) == Some((pixels, input[pos..]))
    ensures ok ==> View(buffer[..], increasing) == Overwritten(old(View(buffer[..], increasing)), x, pixels)
  {
    hide View, UnpackParts, Zip, Overwritten, MarkedWidth;
    ok, pos, x', pixels := false, 0, x, [];
    if |input| < 4 {
      return;
    }
    var rgbe := FirstFour(input);
    if IsMarker(rgbe) {
      var lineLength := MarkedWidth(rgbe);
      if x + lineLength > buffer.Length {
        return;
      }
      ghost var parts;
      ok, pos, parts := UnpackPartsInto(input[4..], buffer, x, lineLength, increasing);
      if !ok {
        return;
      }
      pixels := Zip(parts, lineLength);
      assert input[4..][pos..] == input[4 + pos..];
      pos := 4 + pos;
      x' := x + lineLength;
    } else {
      if IsOldRun(rgbe) {
        return;
      }
      ghost var before := buffer[..];
      var column := Place(x, buffer.Length, increasing);
      buffer[column] := rgbe;
      assert buffer[..] == before[column := rgbe];
      ViewUpdate(before, increasing, x, rgbe);
      UpdateIsOverwritten(View(before, increasing), x, rgbe);
      ok, pos, x', pixels := true, 4, x + 1, [rgbe];
    }
  }

  lemma UpdateIsOverwritten(line: seq<Bytes4>, x: nat, pixel: Bytes4)
    requires x < |line|
    ensures line[x := pixel] == Overwritten(line, x, [pixel])
  {
  }

  lemma OverwrittenPrefix(line: seq<Bytes4>, x: nat, pixels: seq<Bytes4>)
    requires x + |pixels| <= |line|
    ensures Overwritten(line, x, pixels)[..x + |pixels|] == line[..x] + pixels
  {
  }

  /** One scanline: its pixels end up in the buffer, in file order or the other way round. */
  method UnpackScanlineInto(input: seq<byte>, buffer: array<Bytes4>, increasing: bool) returns (ok: bool, pos: nat)
    modifies buffer
    ensures var u := UnpackScanline(input, buffer.Length);
      && ok == u.Some?
      && (ok ==> pos <= |input| && u.value == (View(buffer[..], increasing), input[pos..]))
  {
    hide View, UnpackPiece, UnpackScanline, Overwritten;
    var x, width := 0, buffer.Length;
    pos := 0;
    PrependTwice([], [], UnpackScanline(input, width));
    assert View(buffer[..], increasing)[..0] == [];
    while x != width
      invariant 0 <= x <= width && pos <= |input|
      invariant UnpackScanline(input, width) ==
        Prepend(View(buffer[..], increasing)[..x], UnpackScanline(input[pos..], width - x))
      decreases |input| - pos
    {
      ghost var done := View(buffer[..], increasing);
      var read, x';
      ghost var pixels;
      ScanlineUnfold(input[pos..], width - x);
      ok, read, x', pixels := UnpackPieceInto(input[pos..], buffer, x, increasing);
      if !ok {
        return;
      }
      assert input[pos..][read..] == input[pos + read..];
      OverwrittenPrefix(done, x, pixels);
      PrependTwice(done[..x], pixels, UnpackScanline(input[pos + read..], width - x'));
      pos := pos + read;
      x := x';
    }
    ok := true;
    ScanlineUnfold(input[pos..], 0);
    PrependToNothing(View(buffer[..], increasing), input[pos..]);
    assert View(buffer[..], increasing)[..width] == View(buffer[..], increasing);
  }
}
