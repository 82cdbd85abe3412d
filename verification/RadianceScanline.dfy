/**
 One scanline of a Radiance picture: the marker that holds its width and the four components, each
 coded by itself.  The loader also takes pixels that are not coded and scanlines in several pieces.
 */
module RadianceScanline {
  import opened Bytes
  import opened Parsing
  import opened RadianceRle

  const MAX_WIDTH := 0x7fff

  /** `2, 2` and the width in two bytes, of which the first has its high bit clear. */
  function Marker(cols: nat): (s: seq<byte>)
    ensures |s| == 4
  {
    [2, 2, (cols / 256) % 128, cols % 256]
  }

  /** Are these four bytes a marker, and not a pixel? */
  predicate IsMarker(b: Bytes4) {
    b.b0 == 2 && b.b1 == 2 && !HighBit(b.b2)
  }

  /** A repeat count of the older coding, which has no result here. */
  predicate IsOldRun(b: Bytes4) {
    b.b0 == 1 && b.b1 == 1 && b.b2 == 1
  }

  function FirstFour(s: seq<byte>): (b: Bytes4)
    requires |s| >= 4
    ensures b.ToBytes() == s[..4]
  {
    Bytes4(s[0], s[1], s[2], s[3])
  }

  function MarkedWidth(b: Bytes4): nat {
    b.b2 * 256 + b.b3
  }

  /** Every width the saver accepts is recovered from the marker. */
  lemma MarkerHoldsWidth(cols: nat, rest: seq<byte>)
    requires cols <= MAX_WIDTH
    ensures var b := FirstFour(Marker(cols) + rest);
      IsMarker(b) && MarkedWidth(b) == cols && (Marker(cols) + rest)[4..] == rest
  {
  }

  // --- what the saver writes ---------------------------------------------------------------------

  /** The components from `k` up to `to`, one after the other. */
  ghost predicate IsParts(bytes: seq<byte>, line: seq<Bytes4>, k: nat, to: nat)
    requires k <= to <= 4
    decreases 4 - k
  {
    if k == to then bytes == []
    else exists n :: 0 <= n <= |bytes| && Packed(bytes[..n], Channel(line, k)) && IsParts(bytes[n..], line, k + 1, to)
  }

  ghost predicate IsScanline(bytes: seq<byte>, line: seq<Bytes4>) {
    |bytes| >= 4 && bytes[..4] == Marker(|line|) && IsParts(bytes[4..], line, 0, 4)
  }

  lemma FirstPart(bytes: seq<byte>, line: seq<Bytes4>, k: nat, to: nat) returns (n: nat)
    requires k < to <= 4 && IsParts(bytes, line, k, to)
    ensures n <= |bytes| && Packed(bytes[..n], Channel(line, k)) && IsParts(bytes[n..], line, k + 1, to)
  {
    hide Packed, Channel;
    n :| 0 <= n <= |bytes| && Packed(bytes[..n], Channel(line, k)) && IsParts(bytes[n..], line, k + 1, to);
  }

  lemma PartsCons(first: seq<byte>, tail: seq<byte>, line: seq<Bytes4>, k: nat, to: nat)
    requires k < to <= 4 && Packed(first, Channel(line, k)) && IsParts(tail, line, k + 1, to)
    ensures IsParts(first + tail, line, k, to)
  {
    hide Packed, Channel;
    var bytes, n := first + tail, |first|;
    assert bytes[..n] == first && bytes[n..] == tail;
  }

  lemma NoParts(bytes: seq<byte>, line: seq<Bytes4>, k: nat)
    requires k <= 4
    ensures IsParts(bytes, line, k, k) <==> bytes == []
  {
  }

  // --- the format --------------------------------------------------------------------------------

  /** `count` components of `width` values each. */
  function UnpackParts(s: seq<byte>, width: nat, count: nat): (u: Parsed<seq<byte>>)
    ensures u.Some? ==> |u.value.0| == count && |u.value.1| <= |s|
    ensures u.Some? ==> forall part :: part in u.value.0 ==> |part| == width
    decreases count
  {
    if count == 0 then Some(([], s))
    else
      match Unpack(s, width)
      case None => None
      case Some((values, rest)) => Prepend([values], UnpackParts(rest, width, count - 1))
  }

  /** Pixels from their components. */
  function Zip(parts: seq<seq<byte>>, width: nat): (line: seq<Bytes4>)
    requires |parts| == 4 && forall part :: part in parts ==> |part| == width
    ensures |line| == width
  {
    seq(width, x requires 0 <= x < width => Bytes4(parts[0][x], parts[1][x], parts[2][x], parts[3][x]))
  }

  /** A coded piece of at most `want` pixels, or one pixel as it is. */
  function UnpackPiece(s: seq<byte>, want: nat): (u: Parsed<Bytes4>)
    ensures u.Some? ==> |u.value.0| <= want && |u.value.1| < |s|
  {
    if |s| < 4 || want == 0 then None
    else
      var rgbe := FirstFour(s);
      if IsMarker(rgbe) then
        var width := MarkedWidth(rgbe);
        if width > want then None
        else
          match UnpackParts(s[4..], width, 4)
          case None => None
          case Some((parts, rest)) => Some((Zip(parts, width), rest))
      else if IsOldRun(rgbe) then None
      else Some(([rgbe], s[4..]))
  }

  /** Pieces until `want` pixels are there: the pixels and the bytes left over. */
  function UnpackScanline(s: seq<byte>, want: nat): (u: Parsed<Bytes4>)
    ensures u.Some? ==> |u.value.0| == want && |u.value.1| <= |s|
    decreases |s|
  {
    if want == 0 then Some(([], s))
    else
      match UnpackPiece(s, want)
      case None => None
      case Some((pixels, rest)) => Prepend(pixels, UnpackScanline(rest, want - |pixels|))
  }

  lemma PartsUnfold(s: seq<byte>, width: nat, count: nat)
    ensures UnpackParts(s, width, count) ==
      if count == 0 then Some(([], s))
      else
        match Unpack(s, width)
        case None => None
        case Some((values, rest)) => Prepend([values], UnpackParts(rest, width, count - 1))
  {
  }

  lemma ScanlineUnfold(s: seq<byte>, want: nat)
    ensures UnpackScanline(s, want) ==
      if want == 0 then Some(([], s))
      else
        match UnpackPiece(s, want)
        case None => None
        case Some((pixels, rest)) => Prepend(pixels, UnpackScanline(rest, want - |pixels|))
  {
  }

  // --- round trip --------------------------------------------------------------------------------

  function Channels(line: seq<Bytes4>, k: nat): (parts: seq<seq<byte>>)
    requires k <= 4
    ensures |parts| == 4 - k
    ensures forall part :: part in parts ==> |part| == |line|
    decreases 4 - k
  {
    if k == 4 then [] else [Channel(line, k)] + Channels(line, k + 1)
  }

  lemma ChannelsUnfold(line: seq<Bytes4>, k: nat)
    requires k <= 4
    ensures Channels(line, k) == if k == 4 then [] else [Channel(line, k)] + Channels(line, k + 1)
  {
  }

  lemma PixelFromChannels(line: seq<Bytes4>, x: nat)
    requires x < |line|
    ensures Bytes4(Channel(line, 0)[x], Channel(line, 1)[x], Channel(line, 2)[x], Channel(line, 3)[x]) == line[x]
  {
  }

  lemma FourChannels(line: seq<Bytes4>)
    ensures Channels(line, 0) == [Channel(line, 0), Channel(line, 1), Channel(line, 2), Channel(line, 3)]
  {
    hide Channel;
    assert Channels(line, 4) == [];
    assert Channels(line, 3) == [Channel(line, 3)];
    assert Channels(line, 2) == [Channel(line, 2), Channel(line, 3)];
  }

  lemma ZipInvertsChannels(line: seq<Bytes4>)
    ensures Zip(Channels(line, 0), |line|) == line
  {
    hide Channel, Channels;
    FourChannels(line);
    forall x | 0 <= x < |line|
      ensures Zip(Channels(line, 0), |line|)[x] == line[x]
    {
      PixelFromChannels(line, x);
    }
  }

  lemma UnpackFirstPart(first: seq<byte>, tail: seq<byte>, part: seq<byte>, parts: seq<seq<byte>>, rest: seq<byte>)
    requires Packed(first, part) && UnpackParts(tail + rest, |part|, |parts|) == Some((parts, rest))
    ensures UnpackParts((first + tail) + rest, |part|, 1 + |parts|) == Some(([part] + parts, rest))
  {
    hide *;
    UnpackInvertsPack(first, part, tail + rest);
    PartsStep(first + (tail + rest), |part|, |parts|, part, tail + rest, parts, rest);
    Associate(first, tail, rest);
  }

  lemma PartsStep(s: seq<byte>, width: nat, count: nat, part: seq<byte>, s': seq<byte>, parts: seq<seq<byte>>,
                  rest: seq<byte>)
    requires Unpack(s, width) == Some((part, s')) && UnpackParts(s', width, count) == Some((parts, rest))
    ensures UnpackParts(s, width, 1 + count) == Some(([part] + parts, rest))
  {
    hide Unpack, UnpackParts;
    PartsUnfold(s, width, 1 + count);
  }

  lemma {:induction false} UnpackPartsInverts(bytes: seq<byte>, line: seq<Bytes4>, k: nat, rest: seq<byte>)
    requires k <= 4 && IsParts(bytes, line, k, 4)
    ensures UnpackParts(bytes + rest, |line|, 4 - k) == Some((Channels(line, k), rest))
    decreases 4 - k
  {
    hide Packed, UnpackParts, Channel, Channels, IsParts;
    ChannelsUnfold(line, k);
    if k == 4 {
      NoParts(bytes, line, k);
      PartsUnfold(bytes + rest, |line|, 0);
      assert bytes + rest == rest;
    } else {
      var n := FirstPart(bytes, line, k, 4);
      UnpackPartsInverts(bytes[n..], line, k + 1, rest);
      UnpackFirstPart(bytes[..n], bytes[n..], Channel(line, k), Channels(line, k + 1), rest);
      assert bytes == bytes[..n] + bytes[n..];
    }
  }

  /**
   A scanline is restored, whatever follows it, and all its bytes are used.  The one exception has
   no pixels at all: its marker is never read.
   */
  lemma ScanlineRoundTrip(bytes: seq<byte>, line: seq<Bytes4>, rest: seq<byte>)
    requires IsScanline(bytes, line) && |line| <= MAX_WIDTH
    ensures UnpackScanline(bytes + rest, |line|) == Some((line, if line == [] then bytes + rest else rest))
  {
    if line != [] {
      PieceRoundTrip(bytes, line, rest);
      PrependToNothing(line, rest);
      hide UnpackPiece;
    }
  }

  lemma UnpackCodedPiece(s: seq<byte>, want: nat, parts: seq<seq<byte>>, rest: seq<byte>)
    requires |s| >= 4 && want > 0 && IsMarker(FirstFour(s)) && MarkedWidth(FirstFour(s)) <= want
    requires UnpackParts(s[4..], MarkedWidth(FirstFour(s)), 4) == Some((parts, rest))
    ensures UnpackPiece(s, want) == Some((Zip(parts, MarkedWidth(FirstFour(s))), rest))
  {
    hide UnpackParts, Zip, MarkedWidth, IsMarker, FirstFour;
  }

  lemma PieceRoundTrip(bytes: seq<byte>, line: seq<Bytes4>, rest: seq<byte>)
    requires IsScanline(bytes, line) && 1 <= |line| <= MAX_WIDTH
    ensures UnpackPiece(bytes + rest, |line|) == Some((line, rest))
  {
    hide UnpackPiece, Marker, IsMarker, MarkedWidth, FirstFour, Zip, Channels, IsParts, UnpackParts;
    var body := bytes[4..];
    assert bytes + rest == Marker(|line|) + (body + rest);
    MarkerHoldsWidth(|line|, body + rest);
    UnpackPartsInverts(body, line, 0, rest);
    UnpackCodedPiece(bytes + rest, |line|, Channels(line, 0), rest);
    ZipInvertsChannels(line);
  }

  // --- uniqueness and size -----------------------------------------------------------------------

  lemma {:induction false} PartsAreFunction(bytes: seq<byte>, bytes': seq<byte>, line: seq<Bytes4>, k: nat)
    requires k <= 4 && IsParts(bytes, line, k, 4) && IsParts(bytes', line, k, 4)
    ensures bytes == bytes'
    decreases 4 - k
  {
    hide Packed, Channel, IsParts;
    if k == 4 {
      NoParts(bytes, line, k);
      NoParts(bytes', line, k);
    } else {
      var n := FirstPart(bytes, line, k, 4);
      var n' := FirstPart(bytes', line, k, 4);
      PartsAreFunction(bytes[n..], bytes'[n'..], line, k + 1);
      PackedIsInjectiveFunction(bytes[..n], Channel(line, k), bytes'[..n'], Channel(line, k));
      assert bytes == bytes[..n] + bytes[n..] && bytes' == bytes'[..n'] + bytes'[n'..];
    }
  }

  /** Equal pixels are saved as equal bytes, different pixels as different bytes. */
  lemma ScanlineIsInjectiveFunction(bytes: seq<byte>, line: seq<Bytes4>, bytes': seq<byte>, line': seq<Bytes4>)
    requires IsScanline(bytes, line) && IsScanline(bytes', line') && |line| == |line'| <= MAX_WIDTH
    ensures bytes == bytes' <==> line == line'
  {
    hide IsParts, UnpackScanline, Marker;
    if line == line' {
      PartsAreFunction(bytes[4..], bytes'[4..], line, 0);
      assert bytes == bytes[..4] + bytes[4..] && bytes' == bytes'[..4] + bytes'[4..];
    } else {
      ScanlineRoundTrip(bytes, line, []);
      ScanlineRoundTrip(bytes', line', []);
    }
  }

  lemma {:induction false} PartsSize(bytes: seq<byte>, line: seq<Bytes4>, k: nat, most: nat)
    requires k <= 4 && IsParts(bytes, line, k, 4) && most == |line| + (|line| + 127) / 128
    ensures |bytes| <= 4 * most - k * most
    decreases 4 - k
  {
    hide Packed, Channel;
    if k == 4 {
    } else {
      var n := FirstPart(bytes, line, k, 4);
      RadianceRle.WorstCaseSize(bytes[..n], Channel(line, k));
      PartsSize(bytes[n..], line, k + 1, most);
      assert (k + 1) * most == k * most + most;
    }
  }

  /** A scanline of c pixels takes at most 4 + 4 * (c + ceil(c / 128)) bytes. */
  lemma ScanlineSize(bytes: seq<byte>, line: seq<Bytes4>)
    requires IsScanline(bytes, line)
    ensures |bytes| <= 4 + 4 * (|line| + (|line| + 127) / 128)
  {
    hide IsParts, Marker;
    PartsSize(bytes[4..], line, 0, |line| + (|line| + 127) / 128);
  }

  // --- the saver's loop --------------------------------------------------------------------------

  lemma {:induction false} IsPartsAppend(bytes: seq<byte>, line: seq<Bytes4>, from: nat, k: nat, part: seq<byte>)
    requires from <= k < 4 && Packed(part, Channel(line, k)) && IsParts(bytes, line, from, k)
    ensures IsParts(bytes + part, line, from, k + 1)
    decreases k - from
  {
    hide *;
    if from == k {
      NoParts(bytes, line, k);
      NoParts([], line, k + 1);
      PartsCons(part, [], line, k, k + 1);
      assert bytes + part == part + [];
    } else {
      var n := FirstPart(bytes, line, from, k);
      IsPartsAppend(bytes[n..], line, from + 1, k, part);
      PartsCons(bytes[..n], bytes[n..] + part, line, from, k + 1);
      Associate(bytes[..n], bytes[n..], part);
      assert bytes == bytes[..n] + bytes[n..];
    }
  }

  /** Codes the pixels in `buffer`: the marker, then one component after the other. */
  method PackScanline(buffer: array<Bytes4>, rleBuffer: array<byte>) returns (out: seq<byte>)
    requires rleBuffer.Length == 128
    modifies rleBuffer
    ensures IsScanline(out, buffer[..])
  {
    hide Packed, Marker;
    var bytes := Marker(buffer.Length);
    var parts: seq<byte> := [];
    for k := 0 to 4
      invariant IsParts(parts, buffer[..], 0, k)
    {
      var part := PackChannel(buffer, k, rleBuffer);
      IsPartsAppend(parts, buffer[..], 0, k, part);
      parts := parts + part;
    }
    out := bytes + parts;
    assert out[4..] == parts;
  }
}
