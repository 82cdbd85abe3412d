/**
 Whole Radiance pictures: `saveRadianceHdr` and `openRadianceHdr` from the end of the text header on.
 The header's fields are values here.
 */
module RadianceImage {
  import opened Bytes
  import opened Parsing
  import opened RadianceReader
  import opened RadianceScanline
  import opened Rgbe
  import opened Rows

  datatype Header = Header(height: nat, width: nat, yIncreasing: bool, xIncreasing: bool, corrections: Color)

  datatype Error = BadFormat

  function EncodeLine(line: seq<Color>): (s: seq<Bytes4>)
    ensures |s| == |line|
  {
    seq(|line|, x requires 0 <= x < |line| => Encode(line[x]))
  }

  function DecodeLine(line: seq<Bytes4>, corrections: Color): (s: seq<Color>)
    ensures |s| == |line|
  {
    seq(|line|, x requires 0 <= x < |line| => Decode(line[x], corrections))
  }

  // --- the format --------------------------------------------------------------------------------

  /** `count` scanlines in the order of the file, and the bytes left over. */
  function UnpackLines(s: seq<byte>, count: nat, width: nat): (u: Parsed<seq<Bytes4>>)
    ensures u.Some? ==> |u.value.0| == count
    ensures u.Some? ==> forall line :: line in u.value.0 ==> |line| == width
    decreases count
  {
    if count == 0 then Some(([], s))
    else
      match UnpackScanline(s, width)
      case None => None
      case Some((line, rest)) => Prepend([line], UnpackLines(rest, count - 1, width))
  }

  lemma LinesUnfold(s: seq<byte>, count: nat, width: nat)
    ensures UnpackLines(s, count, width) ==
      if count == 0 then Some(([], s))
      else
        match UnpackScanline(s, width)
        case None => None
        case Some((line, rest)) => Prepend([line], UnpackLines(rest, count - 1, width))
  {
  }

  /** The picture in the scanlines of a file. */
  function Arranged(lines: seq<seq<Bytes4>>, h: Header): (r: seq<seq<Color>>)
    ensures |r| == |lines|
  {
    seq(|lines|, y requires 0 <= y < |lines| =>
      DecodeLine(View(lines[Place(y, |lines|, !h.yIncreasing)], h.xIncreasing), h.corrections))
  }

  function ParseBody(h: Header, body: seq<byte>): Option<(Picture<Color>, seq<byte>)> {
    match UnpackLines(body, h.height, h.width)
    case None => None
    case Some((lines, rest)) => Some((Picture(h.height, h.width, Arranged(lines, h)), rest))
  }

  // --- what the saver writes ---------------------------------------------------------------------

  function SavedHeader(rows: nat, cols: nat): Header {
    Header(rows, cols, false, true, NO_CORRECTION)
  }

  function Encoded(lines: seq<seq<Color>>): (r: seq<seq<Bytes4>>)
    ensures |r| == |lines|
  {
    seq(|lines|, y requires 0 <= y < |lines| => EncodeLine(lines[y]))
  }

  ghost predicate IsBody(bytes: seq<byte>, lines: seq<seq<Bytes4>>) {
    if lines == [] then bytes == []
    else exists n :: 0 <= n <= |bytes| && IsScanline(bytes[..n], lines[0]) && IsBody(bytes[n..], lines[1..])
  }

  /** What is left of a pixel in four bytes. */
  function Quantise(c: Color): Color {
    Decode(Encode(c), NO_CORRECTION)
  }

  function QuantiseLine(line: seq<Color>): (s: seq<Color>)
    ensures |s| == |line|
  {
    seq(|line|, x requires 0 <= x < |line| => Quantise(line[x]))
  }

  function QuantisedPicture(p: Picture<Color>): (q: Picture<Color>)
    ensures q.rows == p.rows && q.cols == p.cols && |q.lines| == |p.lines|
  {
    p.(lines := seq(|p.lines|, y requires 0 <= y < |p.lines| => QuantiseLine(p.lines[y])))
  }

  lemma DecodeEncodeLine(line: seq<Color>)
    ensures DecodeLine(View(EncodeLine(line), true), NO_CORRECTION) == QuantiseLine(line)
  {
    hide Encode, Decode;
    assert View(EncodeLine(line), true) == EncodeLine(line);
  }

  lemma ArrangedEncoded(p: Picture<Color>)
    requires Rectangular(p)
    ensures |Encoded(p.lines)| == p.rows
    ensures forall y :: 0 <= y < p.rows ==> |Encoded(p.lines)[y]| == p.cols
    ensures Arranged(Encoded(p.lines), SavedHeader(p.rows, p.cols)) == QuantisedPicture(p).lines
  {
    hide DecodeLine, EncodeLine, QuantiseLine, View;
    var lines, h := Encoded(p.lines), SavedHeader(p.rows, p.cols);
    forall y | 0 <= y < p.rows
      ensures Arranged(lines, h)[y] == QuantisedPicture(p).lines[y]
    {
      assert lines[y] == EncodeLine(p.lines[y]) && Place(y, |lines|, !h.yIncreasing) == y;
      DecodeEncodeLine(p.lines[y]);
    }
  }

  // --- round trip --------------------------------------------------------------------------------

  lemma UnpackFirstLine(first: seq<byte>, tail: seq<byte>, line: seq<Bytes4>, lines: seq<seq<Bytes4>>, rest: seq<byte>)
    requires IsScanline(first, line) && 1 <= |line| <= MAX_WIDTH
    requires UnpackLines(tail + rest, |lines|, |line|) == Some((lines, rest))
    ensures UnpackLines((first + tail) + rest, |[line] + lines|, |line|) == Some(([line] + lines, rest))
  {
    hide UnpackScanline, UnpackLines, IsScanline;
    ScanlineRoundTrip(first, line, tail + rest);
    assert first + (tail + rest) == (first + tail) + rest;
    LinesUnfold((first + tail) + rest, 1 + |lines|, |line|);
  }

  lemma {:induction false} UnpackWideBody(bytes: seq<byte>, lines: seq<seq<Bytes4>>, width: nat, rest: seq<byte>)
    requires IsBody(bytes, lines) && 1 <= width <= MAX_WIDTH && forall k :: 0 <= k < |lines| ==> |lines[k]| == width
    ensures UnpackLines(bytes + rest, |lines|, width) == Some((lines, rest))
    decreases |lines|
  {
    hide UnpackLines, IsScanline;
    if lines == [] {
      LinesUnfold(bytes + rest, 0, width);
      assert bytes + rest == rest;
    } else {
      var n :| 0 <= n <= |bytes| && IsScanline(bytes[..n], lines[0]) && IsBody(bytes[n..], lines[1..]);
      UnpackWideBody(bytes[n..], lines[1..], width, rest);
      UnpackFirstLine(bytes[..n], bytes[n..], lines[0], lines[1..], rest);
      assert bytes == bytes[..n] + bytes[n..] && lines == [lines[0]] + lines[1..];
    }
  }

  lemma {:induction false} EmptyLines(s: seq<byte>, lines: seq<seq<Bytes4>>)
    requires forall k :: 0 <= k < |lines| ==> lines[k] == []
    ensures UnpackLines(s, |lines|, 0) == Some((lines, s))
    decreases |lines|
  {
    LinesUnfold(s, |lines|, 0);
    hide UnpackLines;
    if lines == [] {
    } else {
      EmptyLines(s, lines[1..]);
      assert [lines[0]] + lines[1..] == lines;
    }
  }

  lemma UnpackBody(bytes: seq<byte>, lines: seq<seq<Bytes4>>, width: nat, rest: seq<byte>)
    requires IsBody(bytes, lines) && width <= MAX_WIDTH && forall k :: 0 <= k < |lines| ==> |lines[k]| == width
    ensures UnpackLines(bytes + rest, |lines|, width) == Some((lines, if width == 0 then bytes + rest else rest))
  {
    hide UnpackLines, IsBody;
    if width == 0 {
      EmptyLines(bytes + rest, lines);
    } else {
      UnpackWideBody(bytes, lines, width, rest);
    }
  }

  lemma {:induction false} BodyIsNotEmpty(bytes: seq<byte>, lines: seq<seq<Bytes4>>)
    requires IsBody(bytes, lines)
    ensures bytes == [] <==> lines == []
  {
  }

  /**
   Opening a saved picture gives the quantised picture, pixel by pixel.  What follows the picture is
   left over, and nothing more; only a picture with rows but no columns leaves its markers as well.
   */
  lemma OpenInvertsSave(bytes: seq<byte>, p: Picture<Color>, rest: seq<byte>)
    requires Rectangular(p) && p.cols <= MAX_WIDTH && IsBody(bytes, Encoded(p.lines))
    ensures var u := ParseBody(SavedHeader(p.rows, p.cols), bytes + rest);
      && u.Some? && u.value.0 == QuantisedPicture(p)
      && (u.value.1 == rest <==> p.cols > 0 || p.rows == 0)
  {
    hide UnpackLines, IsBody, Encoded, Arranged, QuantisedPicture;
    ArrangedEncoded(p);
    UnpackBody(bytes, Encoded(p.lines), p.cols, rest);
    BodyIsNotEmpty(bytes, Encoded(p.lines));
    hide Rectangular;
    if p.rows == 0 {
      assert bytes + rest == rest;
    }
    assert |bytes + rest| == |rest| <==> bytes == [];
  }

  // --- saving again ------------------------------------------------------------------------------

  lemma {:induction false} BodyIsFunction(bytes: seq<byte>, bytes': seq<byte>, lines: seq<seq<Bytes4>>, width: nat)
    requires IsBody(bytes, lines) && IsBody(bytes', lines) && width <= MAX_WIDTH
    requires forall k :: 0 <= k < |lines| ==> |lines[k]| == width
    ensures bytes == bytes'
    decreases |lines|
  {
    hide IsScanline;
    if lines == [] {
    } else {
      var n :| 0 <= n <= |bytes| && IsScanline(bytes[..n], lines[0]) && IsBody(bytes[n..], lines[1..]);
      var n' :| 0 <= n' <= |bytes'| && IsScanline(bytes'[..n'], lines[0]) && IsBody(bytes'[n'..], lines[1..]);
      ScanlineIsInjectiveFunction(bytes[..n], lines[0], bytes'[..n'], lines[0]);
      BodyIsFunction(bytes[n..], bytes'[n'..], lines[1..], width);
      assert bytes == bytes[..n] + bytes[n..] && bytes' == bytes'[..n'] + bytes'[n'..];
    }
  }

  /** Pixels that come back as the same four bytes. */
  ghost predicate Settled(c: Color) {
    c.Max() < THRESHOLD || c.Max() >= 208.0 * Pow2(-114)
  }

  ghost predicate AllSettled(p: Picture<Color>)
    requires Rectangular(p)
  {
    forall y: nat, x: nat :: y < p.rows && x < p.cols ==> Settled(p.lines[y][x])
  }

  lemma SettledExactly(p: Picture<Color>)
    requires Rectangular(p)
    ensures Encoded(QuantisedPicture(p).lines) == Encoded(p.lines) <==> AllSettled(p)
  {
    hide Settled, Encode, Quantise;
    var again, once := Encoded(QuantisedPicture(p).lines), Encoded(p.lines);
    forall y: nat, x: nat | y < p.rows && x < p.cols
      ensures again[y][x] == once[y][x] <==> Settled(p.lines[y][x])
    {
      PixelSettledExactly(p.lines[y][x]);
      assert again[y] == EncodeLine(QuantiseLine(p.lines[y])) && once[y] == EncodeLine(p.lines[y]);
    }
    if AllSettled(p) {
      forall y | 0 <= y < p.rows
        ensures again[y] == once[y]
      {
        assert |again[y]| == |once[y]| == p.cols;
      }
    }
  }

  lemma PixelSettledExactly(c: Color)
    ensures Encode(Quantise(c)) == Encode(c) <==> Settled(c)
  {
    hide Encode, Decode, Pow2;
    StableExactly(c);
  }

  /** Saving what was opened writes the same bytes again exactly when every pixel is settled. */
  lemma SavedAgain(bytes: seq<byte>, bytes': seq<byte>, p: Picture<Color>)
    requires Rectangular(p) && p.cols <= MAX_WIDTH
    requires IsBody(bytes, Encoded(p.lines)) && IsBody(bytes', Encoded(QuantisedPicture(p).lines))
    ensures bytes == bytes' <==> AllSettled(p)
  {
    hide IsBody, AllSettled;
    var q := QuantisedPicture(p);
    SettledExactly(p);
    ArrangedEncoded(p);
    ArrangedEncoded(q);
    hide Encoded, QuantisedPicture, Arranged, UnpackLines;
    if Encoded(q.lines) == Encoded(p.lines) {
      BodyIsFunction(bytes, bytes', Encoded(p.lines), p.cols);
    } else {
      UnpackBody(bytes, Encoded(p.lines), p.cols, []);
      UnpackBody(bytes', Encoded(q.lines), p.cols, []);
    }
  }

  lemma {:induction false} BodySize(bytes: seq<byte>, lines: seq<seq<Bytes4>>, width: nat)
    requires IsBody(bytes, lines) && forall k :: 0 <= k < |lines| ==> |lines[k]| == width
    ensures |bytes| <= Offset(|lines|, 4 + 4 * (width + (width + 127) / 128))
    decreases |lines|
  {
    hide IsScanline;
    if lines == [] {
    } else {
      var n :| 0 <= n <= |bytes| && IsScanline(bytes[..n], lines[0]) && IsBody(bytes[n..], lines[1..]);
      ScanlineSize(bytes[..n], lines[0]);
      BodySize(bytes[n..], lines[1..], width);
    }
  }

  // --- the image ---------------------------------------------------------------------------------

  lemma {:induction false} IsBodyAppend(body: seq<byte>, lines: seq<seq<Bytes4>>, bytes: seq<byte>, line: seq<Bytes4>)
    requires IsBody(body, lines) && IsScanline(bytes, line)
    ensures IsBody(body + bytes, lines + [line])
    decreases |lines|
  {
    hide IsScanline;
    var all, more := body + bytes, lines + [line];
    if lines == [] {
      assert all[..|all|] == bytes && all[|all|..] == [] && more[0] == line && more[1..] == [];
      assert IsBody([], []);
    } else {
      var n :| 0 <= n <= |body| && IsScanline(body[..n], lines[0]) && IsBody(body[n..], lines[1..]);
      IsBodyAppend(body[n..], lines[1..], bytes, line);
      assert all[..n] == body[..n] && all[n..] == body[n..] + bytes && more[1..] == lines[1..] + [line];
    }
  }

  lemma NoLines()
    ensures IsBody([], [])
  {
  }

  /** One round of the loader's loop over the scanlines. */
  lemma NextLine(done: seq<seq<Bytes4>>, s: seq<byte>, count: nat, width: nat)
    requires count > 0
    ensures Prepend(done, UnpackLines(s, count, width)) ==
      match UnpackScanline(s, width)
      case None => None
      case Some((line, rest)) => Prepend(done + [line], UnpackLines(rest, count - 1, width))
  {
    hide UnpackLines, UnpackScanline;
    LinesUnfold(s, count, width);
    match UnpackScanline(s, width) {
      case None =>
      case Some((line, rest)) =>
        PrependTwice(done, [line], UnpackLines(rest, count - 1, width));
    }
  }

  /** Decodes `buffer` into one line of the raster. */
  method DecodeInto(raster: array<Color>, start: nat, buffer: array<Bytes4>, corrections: Color)
    requires start + buffer.Length <= raster.Length
    modifies raster
    ensures raster[..] == Overwritten(old(raster[..]), start, DecodeLine(buffer[..], corrections))
  {
    hide Decode, Overwritten;
    ghost var before := raster[..];
    for x := 0 to buffer.Length
      invariant forall k :: 0 <= k < raster.Length && !(start <= k < start + x) ==> raster[k] == before[k]
      invariant forall k :: start <= k < start + x ==> raster[k] == Decode(buffer[k - start], corrections)
    {
      raster[start + x] := Decode(buffer[x], corrections);
    }
    IsOverwritten(before, raster[..], start, DecodeLine(buffer[..], corrections));
  }

  class Image {
    var rows: nat
    var cols: nat
    var raster: array<Color>

    ghost predicate Valid()
      reads this
    {
      raster.Length == Offset(rows, cols)
    }

    ghost function Model(): (p: Picture<Color>)
      requires Valid()
      reads this, raster
      ensures Rectangular(p)
    {
      Picture(rows, cols, Lines(raster[..], rows, cols))
    }

    constructor (rows: nat, cols: nat, pixels: seq<Color>)
      requires |pixels| == Offset(rows, cols)
      ensures Valid() && this.rows == rows && this.cols == cols && raster[..] == pixels
    {
      this.rows, this.cols := rows, cols;
      raster := new Color[|pixels|](k requires 0 <= k < |pixels| => pixels[k]);
    }

    /** One line of the raster in shared-exponent form. */
    method EncodeScanline(y: nat, buffer: array<Bytes4>)
      requires Valid() && y < rows && buffer.Length == cols
      modifies buffer
      ensures buffer[..] == EncodeLine(Model().lines[y])
    {
      hide Encode;
      OffsetIsProduct(y, cols);
      OffsetBound(y, rows, cols);
      var line := y * cols;
      for x := 0 to cols
        invariant forall k :: 0 <= k < x ==> buffer[k] == Encode(raster[line + k])
      {
        buffer[x] := Encode(raster[line + x]);
      }
      assert Model().lines[y] == Line(raster[..], y, cols);
    }

    /** `saveRadianceHdr`: header and body, or the exception for images that are too wide. */
    method SaveRadianceHdr() returns (r: Result<(Header, seq<byte>), Error>)
      requires Valid()
      ensures r.Failure? <==> cols > 0x7fff
      ensures r.Success? ==> r.value.0 == SavedHeader(rows, cols) && IsBody(r.value.1, Encoded(Model().lines))
    {
      if cols > MAX_WIDTH {
        return Failure(BadFormat);
      }
      var body := SaveLines();
      r := Success((SavedHeader(rows, cols), body));
    }

    /** The loop of `saveRadianceHdr`. */
    method SaveLines() returns (body: seq<byte>)
      requires Valid()
      ensures IsBody(body, Encoded(Model().lines))
    {
      hide IsScanline, IsBody, EncodeLine, Lines;
      var buffer := new Bytes4[cols](_ => ZERO4);
      var rleBuffer := new byte[128](_ => 0);
      ghost var lines := Encoded(Model().lines);
      body := [];
      NoLines();
      assert lines[..0] == [];
      for y := 0 to rows
        invariant lines == Encoded(Model().lines) && IsBody(body, lines[..y])
      {
        EncodeScanline(y, buffer);
        assert buffer[..] == lines[y];
        var bytes := PackScanline(buffer, rleBuffer);
        IsBodyAppend(body, lines[..y], bytes, lines[y]);
        assert lines[..y] + [lines[y]] == lines[..y + 1];
        body := body + bytes;
      }
      assert lines[..rows] == lines;
    }

    /** `resize`. */
    method Resize(rows: nat, cols: nat)
      modifies this
      ensures Valid() && fresh(raster) && this.rows == rows && this.cols == cols
    {
      this.rows, this.cols := rows, cols;
      raster := new Color[Offset(rows, cols)](_ => Color(0.0, 0.0, 0.0));
    }

    method DecodeScanline(y: nat, buffer: array<Bytes4>, corrections: Color)
      requires Valid() && y < rows && buffer.Length == cols
      modifies raster
      ensures Offset(y, cols) + cols <= raster.Length
      ensures raster[..] == Overwritten(old(raster[..]), Offset(y, cols), DecodeLine(buffer[..], corrections))
    {
      OffsetIsProduct(y, cols);
      OffsetBound(y, rows, cols);
      hide DecodeLine, Overwritten;
      DecodeInto(raster, y * cols, buffer, corrections);
    }

    /** The scanlines read so far stand where they belong. */
    ghost predicate Placed(done: seq<seq<Bytes4>>, h: Header)
      requires Valid() && |done| <= rows
      reads this, raster
    {
      forall j :: 0 <= j < |done| ==>
        Model().lines[Place(j, rows, !h.yIncreasing)] == DecodeLine(View(done[j], h.xIncreasing), h.corrections)
    }

    lemma NonePlaced(h: Header)
      requires Valid()
      ensures Placed([], h)
    {
    }

    lemma AllPlaced(done: seq<seq<Bytes4>>, h: Header)
      requires Valid() && |done| == rows && Placed(done, h)
      ensures Model().lines == Arranged(done, h)
    {
      hide DecodeLine, View, Lines;
      forall y | 0 <= y < rows
        ensures Model().lines[y] == Arranged(done, h)[y]
      {
        PlaceTwice(y, rows, !h.yIncreasing);
      }
    }

    method PlaceLine(y: nat, buffer: array<Bytes4>, ghost done: seq<seq<Bytes4>>, h: Header)
      requires Valid() && |done| < rows && y == Place(|done|, rows, !h.yIncreasing)
      requires buffer.Length == cols && Placed(done, h)
      modifies raster
      ensures Placed(done + [View(buffer[..], h.xIncreasing)], h)
    {
      hide DecodeLine, View, Line, Overwritten;
      ghost var before := raster[..];
      DecodeScanline(y, buffer, h.corrections);
      ViewTwice(buffer[..], h.xIncreasing);
      forall k | 0 <= k < rows
        ensures Model().lines[k] ==
          if k == y then DecodeLine(buffer[..], h.corrections) else old(Model().lines[k])
      {
        LineOfOverwritten(before, y, DecodeLine(buffer[..], h.corrections), k, rows, cols);
      }
    }

    /** The loop of `openRadianceHdr` over the scanlines of the file. */
    method ReadLines(h: Header, body: seq<byte>) returns (ok: bool, rest: seq<byte>)
      requires Valid() && rows == h.height && cols == h.width
      modifies raster
      ensures var u := UnpackLines(body, rows, cols);
        && ok == u.Some?
        && (ok ==> rest == u.value.1 && Model().lines == Arranged(u.value.0, h))
    {
      hide UnpackLines, UnpackScanline, DecodeLine, View, Lines, Placed, Arranged;
      ghost var done: seq<seq<Bytes4>> := [];
      var buffer := new Bytes4[cols](_ => ZERO4);
      var lastY := if !h.yIncreasing then rows else -1;
      var deltaY := if !h.yIncreasing then 1 else -1;
      var y: int := if !h.yIncreasing then 0 else rows - 1;
      rest := body;
      PrependTwice([], [], UnpackLines(body, rows, cols));
      NonePlaced(h);
      while y != lastY
        invariant |done| <= rows && y == if !h.yIncreasing then |done| else rows - 1 - |done|
        invariant UnpackLines(body, rows, cols) == Prepend(done, UnpackLines(rest, rows - |done|, cols))
        invariant Placed(done, h)
        decreases rows - |done|
      {
        var pos;
        ok, pos := UnpackScanlineInto(rest, buffer, h.xIncreasing);
        NextLine(done, rest, rows - |done|, cols);
        if !ok {
          return;
        }
        PlaceLine(y, buffer, done, h);
        done := done + [View(buffer[..], h.xIncreasing)];
        rest := rest[pos..];
        y := y + deltaY;
      }
      ok := true;
      LinesUnfold(rest, 0, cols);
      PrependToNothing(done, rest);
      AllPlaced(done, h);
    }

    /** `openRadianceHdr` after the header: the bytes left over in the stream. */
    method OpenRadianceHdr(header: Header, body: seq<byte>) returns (r: Option<seq<byte>>)
      modifies this
      ensures match ParseBody(header, body)
        case None => r == None
        case Some((p, rest)) => r == Some(rest) && Valid() && Model() == p
    {
      hide UnpackLines, Arranged, Lines, Offset;
      Resize(header.height, header.width);
      var ok, rest := ReadLines(header, body);
      r := if ok then Some(rest) else None;
    }

    /** Saving and opening in another image: every pixel quantised, in its place. */
    method Transfer(other: Image) returns (ok: bool)
      requires Valid() && other != this
      modifies other
      ensures ok <==> cols <= 0x7fff
      ensures ok ==> other.Valid() && other.Model() == QuantisedPicture(Model())
    {
      hide IsBody, ParseBody, Lines, QuantisedPicture, Encoded;
      ghost var p := Model();
      var saved := SaveRadianceHdr();
      if saved.Failure? {
        return false;
      }
      var (header, body) := saved.value;
      OpenInvertsSave(body, p, []);
      assert body + [] == body;
      var _ := other.OpenRadianceHdr(header, body);
      ok := true;
    }
  }
}
