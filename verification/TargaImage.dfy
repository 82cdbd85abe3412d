/**
 Whole TARGA files: `saveTarga` and `openTargaTrueColor`, at the level of bytes.  A pixel holds its
 four components as multiples of 1/255.
 */
module TargaImage {
  import opened Bytes
  import opened Endian
  import opened Parsing
  import opened Rows
  import opened TargaRle

  datatype Pixel = Pixel(r: byte, g: byte, b: byte, a: byte)

  datatype Error = BadNumCast | BadFormat | Unreadable

  function EncodePixel(p: Pixel): Bytes4 {
    Bytes4(p.b, p.g, p.r, p.a)
  }

  /** Three-byte pixels are opaque. */
  function DecodePixel(b: Bytes4, depth: nat): Pixel {
    Pixel(b.b2, b.b1, b.b0, if depth == 3 then 255 else b.b3)
  }

  function EncodeLine(line: seq<Pixel>): (s: seq<Bytes4>)
    ensures |s| == |line|
  {
    seq(|line|, x requires 0 <= x < |line| => EncodePixel(line[x]))
  }

  function DecodeLine(line: seq<Bytes4>, depth: nat, flip: bool): (s: seq<Pixel>)
    ensures |s| == |line|
  {
    seq(|line|, x requires 0 <= x < |line| => DecodePixel(line[if flip then |line| - 1 - x else x], depth))
  }

  lemma DecodeEncodeLine(line: seq<Pixel>)
    ensures DecodeLine(EncodeLine(line), 4, false) == line
  {
    forall x | 0 <= x < |line|
      ensures DecodeLine(EncodeLine(line), 4, false)[x] == line[x]
    {
      assert EncodeLine(line)[x] == EncodePixel(line[x]);
    }
  }

  // --- the header --------------------------------------------------------------------------------

  datatype Header = Header(idLength: nat, colorMapType: nat, imageType: nat, colorMapOrigin: nat,
                           colorMapLength: nat, colorMapEntrySize: nat, xOrigin: nat, yOrigin: nat,
                           width: nat, height: nat, pixelSize: nat, descriptor: nat) {
    ghost predicate Valid() {
      && idLength < 256 && colorMapType < 256 && imageType < 256
      && colorMapOrigin < 0x10000 && colorMapLength < 0x10000 && colorMapEntrySize < 256
      && xOrigin < 0x10000 && yOrigin < 0x10000 && width < 0x10000 && height < 0x10000
      && pixelSize < 256 && descriptor < 256
    }

    predicate FlipHorizontal() {
      (descriptor / 16) % 2 == 1
    }

    predicate FlipVertical() {
      (descriptor / 32) % 2 == 1
    }

    /** The bytes between header and image. */
    function Skipped(): nat {
      idLength + Offset(colorMapLength, colorMapEntrySize)
    }
  }

  /** The streams of writer and reader, each on its own machine. */
  datatype Streams = Streams(order: Endianness, writer: Endianness, reader: Endianness)

  function HeaderBytes(h: Header, s: Streams): (bytes: seq<byte>)
    ensures |bytes| == 18
  {
    (Put(h.idLength, 1, s) + Put(h.colorMapType, 1, s) + Put(h.imageType, 1, s))
    + (Put(h.colorMapOrigin, 2, s) + Put(h.colorMapLength, 2, s) + Put(h.colorMapEntrySize, 1, s))
    + (Put(h.xOrigin, 2, s) + Put(h.yOrigin, 2, s) + Put(h.width, 2, s))
    + (Put(h.height, 2, s) + Put(h.pixelSize, 1, s) + Put(h.descriptor, 1, s))
  }

  function Put(v: nat, width: nat, s: Streams): (bytes: seq<byte>)
    ensures |bytes| == width
  {
    WrittenBytes(v, width, s.order, s.writer)
  }

  function Get(bytes: seq<byte>, at: nat, width: nat, s: Streams): nat
    requires at + width <= |bytes|
  {
    ReadBack(bytes[at..at + width], s.order, s.reader)
  }

  function ReadHeader(b: seq<byte>, s: Streams): Header
    requires |b| >= 18
  {
    Header(Get(b, 0, 1, s), Get(b, 1, 1, s), Get(b, 2, 1, s), Get(b, 3, 2, s), Get(b, 5, 2, s), Get(b, 7, 1, s),
           Get(b, 8, 2, s), Get(b, 10, 2, s), Get(b, 12, 2, s), Get(b, 14, 2, s), Get(b, 16, 1, s), Get(b, 17, 1, s))
  }

  lemma GetPut(bytes: seq<byte>, at: nat, v: nat, width: nat, s: Streams)
    requires at + width <= |bytes| && bytes[at..at + width] == Put(v, width, s)
    requires (width == 1 && v < 256) || (width == 2 && v < 0x10000)
    ensures Get(bytes, at, width, s) == v
  {
    hide WrittenBytes, ReadBack;
    assert Pow256(1) == 256 && Pow256(2) == 0x10000;
    ReadBackInvertsWritten(v, width, s.order, s.writer, s.reader);
  }

  /** Three neighbouring fields somewhere in a file. */
  lemma GetThree(pre: seq<byte>, v1: nat, w1: nat, v2: nat, w2: nat, v3: nat, w3: nat, post: seq<byte>, s: Streams)
    requires (w1 == 1 && v1 < 256) || (w1 == 2 && v1 < 0x10000)
    requires (w2 == 1 && v2 < 256) || (w2 == 2 && v2 < 0x10000)
    requires (w3 == 1 && v3 < 256) || (w3 == 2 && v3 < 0x10000)
    ensures var b := pre + (Put(v1, w1, s) + Put(v2, w2, s) + Put(v3, w3, s)) + post;
      && Get(b, |pre|, w1, s) == v1
      && Get(b, |pre| + w1, w2, s) == v2
      && Get(b, |pre| + w1 + w2, w3, s) == v3
  {
    hide Put, Get;
    var b := pre + (Put(v1, w1, s) + Put(v2, w2, s) + Put(v3, w3, s)) + post;
    assert b[|pre|..|pre| + w1] == Put(v1, w1, s);
    GetPut(b, |pre|, v1, w1, s);
    assert b[|pre| + w1..|pre| + w1 + w2] == Put(v2, w2, s);
    GetPut(b, |pre| + w1, v2, w2, s);
    assert b[|pre| + w1 + w2..|pre| + w1 + w2 + w3] == Put(v3, w3, s);
    GetPut(b, |pre| + w1 + w2, v3, w3, s);
  }

  lemma ReadHeaderInverts(h: Header, s: Streams, rest: seq<byte>)
    requires h.Valid()
    ensures ReadHeader(HeaderBytes(h, s) + rest, s) == h
  {
    hide Put, Get;
    var a := Put(h.idLength, 1, s) + Put(h.colorMapType, 1, s) + Put(h.imageType, 1, s);
    var b := Put(h.colorMapOrigin, 2, s) + Put(h.colorMapLength, 2, s) + Put(h.colorMapEntrySize, 1, s);
    var c := Put(h.xOrigin, 2, s) + Put(h.yOrigin, 2, s) + Put(h.width, 2, s);
    var d := Put(h.height, 2, s) + Put(h.pixelSize, 1, s) + Put(h.descriptor, 1, s);
    GetThree([], h.idLength, 1, h.colorMapType, 1, h.imageType, 1, b + c + d + rest, s);
    GetThree(a, h.colorMapOrigin, 2, h.colorMapLength, 2, h.colorMapEntrySize, 1, c + d + rest, s);
    GetThree(a + b, h.xOrigin, 2, h.yOrigin, 2, h.width, 2, d + rest, s);
    GetThree(a + b + c, h.height, 2, h.pixelSize, 1, h.descriptor, 1, rest, s);
    Regroup(a, b, c, d, rest);
  }

  lemma Regroup(a: seq<byte>, b: seq<byte>, c: seq<byte>, d: seq<byte>, rest: seq<byte>)
    ensures a + b + c + d + rest == [] + a + (b + c + d + rest)
    ensures a + b + c + d + rest == a + b + (c + d + rest)
    ensures a + b + c + d + rest == a + b + c + (d + rest)
  {
  }

  // --- the file as a format ----------------------------------------------------------------------

  /** One line: packets for type 10, plain pixels for type 2. */
  function UnpackLine(s: seq<byte>, width: nat, depth: nat, packed: bool): (u: Parsed<Bytes4>)
    requires 3 <= depth <= 4
    ensures u.Some? ==> |u.value.0| == width
  {
    if packed then Unpack(s, width, depth) else UnpackRaw(s, width, depth)
  }

  /** `count` lines of `width` pixels, in the order of the file, and the bytes left over. */
  function UnpackLines(s: seq<byte>, count: nat, width: nat, depth: nat, packed: bool): (u: Parsed<seq<Bytes4>>)
    requires 3 <= depth <= 4
    ensures u.Some? ==> |u.value.0| == count
    ensures u.Some? ==> forall line :: line in u.value.0 ==> |line| == width
    decreases count
  {
    if count == 0 then Some(([], s))
    else
      match UnpackLine(s, width, depth, packed)
      case None => None
      case Some((line, rest)) =>
        Prepend([line], UnpackLines(rest, count - 1, width, depth, packed))
  }

  /** The image in the bytes of a file, and the bytes left over. */
  function Parse(input: seq<byte>, s: Streams): Result<(Picture<Pixel>, seq<byte>), Error> {
    if |input| < 18 then Failure(Unreadable)
    else
      var h := ReadHeader(input, s);
      if h.imageType != 2 && h.imageType != 10 then Failure(BadFormat)
      else if h.pixelSize != 24 && h.pixelSize != 32 then Failure(BadFormat)
      else
        ParseBody(h, BodyOf(input, h))
  }

  /** What follows header and skipped bytes; a seek past the end leaves nothing. */
  function BodyOf(input: seq<byte>, h: Header): seq<byte> {
    var start := 18 + h.Skipped();
    if start <= |input| then input[start..] else []
  }

  /** Every line of the image, from the lines of the file. */
  function Arranged(lines: seq<seq<Bytes4>>, h: Header): (r: seq<seq<Pixel>>)
    ensures |r| == |lines|
  {
    seq(|lines|, y requires 0 <= y < |lines| =>
      DecodeLine(lines[Place(y, |lines|, h.FlipVertical())], h.pixelSize / 8, h.FlipHorizontal()))
  }

  function ParseBody(h: Header, body: seq<byte>): Result<(Picture<Pixel>, seq<byte>), Error>
    requires h.pixelSize == 24 || h.pixelSize == 32
  {
    match UnpackLines(body, h.height, h.width, h.pixelSize / 8, h.imageType == 10)
    case None => Failure(Unreadable)
    case Some((lines, rest)) => Success((Picture(h.height, h.width, Arranged(lines, h)), rest))
  }

  /** The saver's packets for the lines, in that order. */
  ghost predicate IsBody(bytes: seq<byte>, lines: seq<seq<Bytes4>>) {
    if lines == [] then bytes == []
    else exists n :: 0 <= n <= |bytes| && Packed(bytes[..n], lines[0]) && IsBody(bytes[n..], lines[1..])
  }

  function SavedHeader(rows: nat, cols: nat): Header {
    Header(0, 0, 10, 0, 0, 0, 0, 0, cols, rows, 32, 0x08)
  }

  /** The lines of a picture in the order of the file: the last line first. */
  function Bottom(lines: seq<seq<Pixel>>): (r: seq<seq<Bytes4>>)
    ensures |r| == |lines|
  {
    seq(|lines|, k requires 0 <= k < |lines| => EncodeLine(lines[|lines| - 1 - k]))
  }

  lemma BottomLines(p: Picture<Pixel>)
    requires Rectangular(p)
    ensures |Bottom(p.lines)| == p.rows
    ensures forall k :: 0 <= k < p.rows ==> |Bottom(p.lines)[k]| == p.cols
    ensures Arranged(Bottom(p.lines), SavedHeader(p.rows, p.cols)) == p.lines
  {
    hide DecodeLine, EncodeLine;
    var h := SavedHeader(p.rows, p.cols);
    assert !h.FlipVertical() && !h.FlipHorizontal() && h.pixelSize / 8 == 4;
    forall y | 0 <= y < p.rows
      ensures Arranged(Bottom(p.lines), h)[y] == p.lines[y]
    {
      DecodeEncodeLine(p.lines[y]);
    }
  }

  /** What `saveTarga` writes for a picture. */
  ghost predicate IsFile(bytes: seq<byte>, p: Picture<Pixel>, s: Streams) {
    && |bytes| >= 18
    && bytes[..18] == HeaderBytes(SavedHeader(p.rows, p.cols), s)
    && IsBody(bytes[18..], Bottom(p.lines))
  }

  // --- round trip --------------------------------------------------------------------------------

  lemma UnpackFirstLine(first: seq<byte>, tail: seq<byte>, line: seq<Bytes4>, lines: seq<seq<Bytes4>>, rest: seq<byte>)
    requires Packed(first, line) && UnpackLines(tail + rest, |lines|, |line|, 4, true) == Some((lines, rest))
    ensures UnpackLines((first + tail) + rest, |[line] + lines|, |line|, 4, true) == Some(([line] + lines, rest))
  {
    hide Unpack, UnpackLines, Packed;
    UnpackInvertsPack(first, line, tail + rest);
    assert first + (tail + rest) == (first + tail) + rest;
    LinesUnfold((first + tail) + rest, 1 + |lines|, |line|, 4, true);
  }

  lemma {:induction false} UnpackBody(bytes: seq<byte>, lines: seq<seq<Bytes4>>, width: nat, rest: seq<byte>)
    requires IsBody(bytes, lines) && forall k :: 0 <= k < |lines| ==> |lines[k]| == width
    ensures UnpackLines(bytes + rest, |lines|, width, 4, true) == Some((lines, rest))
    decreases |lines|
  {
    hide UnpackLines, Packed;
    if lines == [] {
      LinesUnfold(bytes + rest, 0, width, 4, true);
      assert bytes + rest == rest;
    } else {
      var n :| 0 <= n <= |bytes| && Packed(bytes[..n], lines[0]) && IsBody(bytes[n..], lines[1..]);
      UnpackBody(bytes[n..], lines[1..], width, rest);
      UnpackFirstLine(bytes[..n], bytes[n..], lines[0], lines[1..], rest);
      assert bytes == bytes[..n] + bytes[n..] && lines == [lines[0]] + lines[1..];
    }
  }

  /**
   Opening a saved file gives the picture back, line by line and pixel by pixel, and leaves over
   exactly what followed the file; the two machines may differ in byte order.
   */
  lemma OpenInvertsSave(bytes: seq<byte>, p: Picture<Pixel>, s: Streams, rest: seq<byte>)
    requires Rectangular(p) && p.rows <= 0xffff && p.cols <= 0xffff
    requires IsFile(bytes, p, s)
    ensures Parse(bytes + rest, s) == Success((p, rest))
  {
    hide HeaderBytes, UnpackLines, IsBody, Bottom, Arranged;
    var h := SavedHeader(p.rows, p.cols);
    var input := bytes + rest;
    var body := bytes[18..] + rest;
    assert input == HeaderBytes(h, s) + body;
    ReadHeaderInverts(h, s, body);
    hide ReadHeader, Rectangular;
    assert input[18..] == body;
    BottomLines(p);
    UnpackBody(bytes[18..], Bottom(p.lines), p.cols, rest);
  }

  // --- size --------------------------------------------------------------------------------------

  lemma {:induction false} BodySize(bytes: seq<byte>, lines: seq<seq<Bytes4>>, width: nat)
    requires IsBody(bytes, lines) && forall k :: 0 <= k < |lines| ==> |lines[k]| == width
    ensures |bytes| <= Offset(|lines|, 4 * width + (width + 127) / 128)
    decreases |lines|
  {
    hide Packed;
    if lines == [] {
    } else {
      var n :| 0 <= n <= |bytes| && Packed(bytes[..n], lines[0]) && IsBody(bytes[n..], lines[1..]);
      WorstCaseSize(bytes[..n], lines[0]);
      BodySize(bytes[n..], lines[1..], width);
    }
  }

  /** A file is never longer than header, pixels and one tag per 128 pixels of each line. */
  lemma FileSize(bytes: seq<byte>, p: Picture<Pixel>, s: Streams)
    requires Rectangular(p) && IsFile(bytes, p, s)
    ensures |bytes| <= 18 + Offset(p.rows, 4 * p.cols + (p.cols + 127) / 128)
  {
    hide IsBody, Bottom, HeaderBytes;
    BottomLines(p);
    BodySize(bytes[18..], Bottom(p.lines), p.cols);
  }

  // --- the image ---------------------------------------------------------------------------------

  lemma {:induction false} IsBodyAppend(body: seq<byte>, lines: seq<seq<Bytes4>>, bytes: seq<byte>, line: seq<Bytes4>)
    requires IsBody(body, lines) && Packed(bytes, line)
    ensures IsBody(body + bytes, lines + [line])
    decreases |lines|
  {
    hide Packed;
    var all, more := body + bytes, lines + [line];
    if lines == [] {
      assert all[..|all|] == bytes && all[|all|..] == [] && more[0] == line && more[1..] == [];
      assert IsBody([], []);
    } else {
      var n :| 0 <= n <= |body| && Packed(body[..n], lines[0]) && IsBody(body[n..], lines[1..]);
      IsBodyAppend(body[n..], lines[1..], bytes, line);
      assert all[..n] == body[..n] && all[n..] == body[n..] + bytes && more[1..] == lines[1..] + [line];
    }
  }

  /** Type 2: one line of pixels as they are. */
  method UnpackPlainLineInto(input: seq<byte>, depth: nat, buffer: array<Bytes4>)
    returns (ok: bool, pos: nat)
    requires 3 <= depth <= 4
    modifies buffer
    ensures var u := UnpackRaw(input, buffer.Length, depth);
      && ok == u.Some?
      && (ok ==> pos <= |input| && u.value == (buffer[..], input[pos..]))
  {
    var cols := buffer.Length;
    ghost var goal := UnpackRaw(input, cols, depth);
    pos := 0;
    assert input[0..] == input && buffer[..0] == [];
    PrependTwice([], [], goal);
    for x := 0 to cols
      invariant pos <= |input|
      invariant goal == Prepend(buffer[..x], UnpackRaw(input[pos..], cols - x, depth))
    {
      if |input| - pos < depth {
        return false, pos;
      }
      ghost var done := buffer[..x];
      var bytes := PixelOf(input[pos..], depth);
      assert input[pos..][depth..] == input[pos + depth..];
      pos := pos + depth;
      buffer[x] := bytes;
      assert buffer[..x + 1] == done + [bytes];
      PrependTwice(done, [bytes], UnpackRaw(input[pos..], cols - x - 1, depth));
    }
    ok := true;
    assert buffer[..cols] == buffer[..] && buffer[..] + [] == buffer[..];
  }

  lemma LinesUnfold(s: seq<byte>, count: nat, width: nat, depth: nat, packed: bool)
    requires 3 <= depth <= 4
    ensures UnpackLines(s, count, width, depth, packed) ==
      if count == 0 then Some(([], s))
      else
        match UnpackLine(s, width, depth, packed)
        case None => None
        case Some((line, rest)) => Prepend([line], UnpackLines(rest, count - 1, width, depth, packed))
  {
  }

  /** One round of the loop over the lines. */
  lemma NextLine(done: seq<seq<Bytes4>>, s: seq<byte>, count: nat, width: nat, depth: nat, packed: bool)
    requires 3 <= depth <= 4 && count > 0
    ensures Prepend(done, UnpackLines(s, count, width, depth, packed)) ==
      match UnpackLine(s, width, depth, packed)
      case None => None
      case Some((line, rest)) => Prepend(done + [line], UnpackLines(rest, count - 1, width, depth, packed))
  {
    hide UnpackLines, UnpackLine;
    LinesUnfold(s, count, width, depth, packed);
    match UnpackLine(s, width, depth, packed) {
      case None =>
      case Some((line, rest)) =>
        PrependTwice(done, [line], UnpackLines(rest, count - 1, width, depth, packed));
    }
  }

  method ReadLine(input: seq<byte>, depth: nat, packed: bool, buffer: array<Bytes4>) returns (ok: bool, pos: nat)
    requires 3 <= depth <= 4
    modifies buffer
    ensures var u := UnpackLine(input, buffer.Length, depth, packed);
      && ok == u.Some?
      && (ok ==> pos <= |input| && u.value == (buffer[..], input[pos..]))
  {
    if packed {
      assert input[0..] == input;
      ok, pos := UnpackLineInto(input, 0, depth, buffer);
    } else {
      ok, pos := UnpackPlainLineInto(input, depth, buffer);
    }
  }

  class Image {
    var rows: nat
    var cols: nat
    var raster: array<Pixel>

    ghost predicate Valid()
      reads this
    {
      raster.Length == Offset(rows, cols)
    }

    ghost function Model(): (p: Picture<Pixel>)
      requires Valid()
      reads this, raster
      ensures Rectangular(p)
    {
      Picture(rows, cols, Lines(raster[..], rows, cols))
    }

    constructor (rows: nat, cols: nat, pixels: seq<Pixel>)
      requires |pixels| == Offset(rows, cols)
      ensures Valid() && this.rows == rows && this.cols == cols && raster[..] == pixels
    {
      this.rows, this.cols := rows, cols;
      raster := new Pixel[|pixels|](k requires 0 <= k < |pixels| => pixels[k]);
    }

    /** One line of the raster as bytes. */
    method EncodeScanline(y: nat, buffer: array<Bytes4>)
      requires Valid() && y < rows && buffer.Length == cols
      modifies buffer
      ensures buffer[..] == EncodeLine(Model().lines[y])
    {
      hide EncodePixel;
      OffsetIsProduct(y, cols);
      OffsetBound(y, rows, cols);
      var scanline := y * cols;
      for x := 0 to cols
        invariant forall k :: 0 <= k < x ==> buffer[k] == EncodePixel(raster[scanline + k])
      {
        buffer[x] := EncodePixel(raster[scanline + x]);
      }
      assert Model().lines[y] == Line(raster[..], y, cols);
    }

    /** `saveTarga`: throws when a dimension does not fit 16 bits. */
    method SaveTarga(s: Streams) returns (r: Result<seq<byte>, Error>)
      requires Valid()
      ensures r.Failure? <==> rows > 0xffff || cols > 0xffff
      ensures r.Success? ==> IsFile(r.value, Model(), s)
    {
      if cols > 0xffff || rows > 0xffff {
        return Failure(BadNumCast);
      }
      hide HeaderBytes, IsBody, Bottom;
      var header := HeaderBytes(SavedHeader(rows, cols), s);
      var body := SaveLines();
      var file := header + body;
      assert file[..18] == header && file[18..] == body;
      r := Success(file);
    }

    /** The loop of `saveTarga`, from the last line up. */
    method SaveLines() returns (body: seq<byte>)
      requires Valid()
      ensures IsBody(body, Bottom(Model().lines))
    {
      hide Packed, IsBody, EncodeLine, Lines;
      var buffer := new Bytes4[cols](_ => ZERO4);
      var rleBuffer := new Bytes4[128](_ => ZERO4);
      ghost var lines := Bottom(Model().lines);
      ghost var count := |lines|;
      assert count == rows;
      body := [];
      var y := rows;
      NoLines();
      assert lines[..0] == [];
      while y > 0
        invariant 0 <= y <= count == rows
        invariant IsBody(body, lines[..count - y])
      {
        EncodeScanline(y - 1, buffer);
        assert buffer[..] == lines[count - y];
        var packets := PackLine(buffer, rleBuffer);
        IsBodyAppend(body, lines[..count - y], packets, lines[count - y]);
        assert lines[..count - y] + [lines[count - y]] == lines[..count - y + 1];
        body := body + packets;
        y := y - 1;
      }
      assert lines[..count] == lines;
    }

    method DecodeScanline(y: nat, buffer: array<Bytes4>, depth: nat, flip: bool)
      requires Valid() && y < rows && buffer.Length == cols
      modifies raster
      ensures Offset(y, cols) + cols <= raster.Length
      ensures raster[..] == Overwritten(old(raster[..]), Offset(y, cols), DecodeLine(buffer[..], depth, flip))
    {
      OffsetIsProduct(y, cols);
      OffsetBound(y, rows, cols);
      hide DecodeLine, Overwritten;
      DecodeInto(raster, y * cols, buffer, depth, flip);
    }

    /** The lines read so far stand where they belong. */
    ghost predicate Placed(done: seq<seq<Bytes4>>, h: Header)
      requires Valid() && |done| <= rows
      reads this, raster
    {
      forall j :: 0 <= j < |done| ==>
        Model().lines[Place(j, rows, h.FlipVertical())] == DecodeLine(done[j], h.pixelSize / 8, h.FlipHorizontal())
    }

    /** The loop of `openTargaTrueColor` over the lines of the file. */
    method ReadLines(h: Header, body: seq<byte>) returns (ok: bool, rest: seq<byte>)
      requires Valid() && rows == h.height && cols == h.width && (h.pixelSize == 24 || h.pixelSize == 32)
      modifies raster
      ensures var u := UnpackLines(body, rows, cols, h.pixelSize / 8, h.imageType == 10);
        && ok == u.Some?
        && (ok ==> rest == u.value.1 && Model().lines == Arranged(u.value.0, h))
    {
      hide UnpackLines, UnpackLine, DecodeLine, Lines, Placed, Arranged, Header.FlipVertical, Header.FlipHorizontal;
      var depth, packed := h.pixelSize / 8, h.imageType == 10;
      var flip := h.FlipVertical();
      ghost var goal := UnpackLines(body, rows, cols, depth, packed);
      ghost var done: seq<seq<Bytes4>> := [];
      var buffer := new Bytes4[cols](_ => ZERO4);
      var yEnd := if flip then rows else -1;
      var yDelta := if flip then 1 else -1;
      var y: int := if flip then 0 else rows - 1;
      rest := body;
      PrependTwice([], [], goal);
      NonePlaced(h);
      while y != yEnd
        invariant |done| <= rows && y == if flip then |done| else rows - 1 - |done|
        invariant goal == Prepend(done, UnpackLines(rest, rows - |done|, cols, depth, packed))
        invariant Placed(done, h)
        decreases rows - |done|
      {
        var pos;
        ok, pos := ReadLine(rest, depth, packed, buffer);
        NextLine(done, rest, rows - |done|, cols, depth, packed);
        if !ok {
          return;
        }
        PlaceLine(y, buffer, done, h);
        done := done + [buffer[..]];
        rest := rest[pos..];
        y := y + yDelta;
      }
      ok := true;
      LinesUnfold(rest, 0, cols, depth, packed);
      PrependToNothing(done, rest);
      AllPlaced(done, h);
    }

    lemma NonePlaced(h: Header)
      requires Valid()
      ensures Placed([], h)
    {
    }

    lemma AllPlaced(done: seq<seq<Bytes4>>, h: Header)
      requires Valid() && |done| == rows && Placed(done, h)
      ensures Model().lines == Arranged(done, h)
    {
      hide DecodeLine, Lines, Header.FlipVertical, Header.FlipHorizontal;
      forall k | 0 <= k < rows
        ensures Model().lines[k] == Arranged(done, h)[k]
      {
        PlaceTwice(k, rows, h.FlipVertical());
      }
    }

    method PlaceLine(y: nat, buffer: array<Bytes4>, ghost done: seq<seq<Bytes4>>, h: Header)
      requires Valid() && |done| < rows && y == Place(|done|, rows, h.FlipVertical())
      requires buffer.Length == cols && Placed(done, h)
      modifies raster
      ensures Placed(done + [buffer[..]], h)
    {
      hide DecodeLine, Header.FlipVertical, Header.FlipHorizontal, Line, Overwritten;
      ghost var before := raster[..];
      DecodeScanline(y, buffer, h.pixelSize / 8, h.FlipHorizontal());
      forall k | 0 <= k < rows
        ensures Model().lines[k] ==
          if k == y then DecodeLine(buffer[..], h.pixelSize / 8, h.FlipHorizontal()) else old(Model().lines[k])
      {
        LineOfOverwritten(before, y, DecodeLine(buffer[..], h.pixelSize / 8, h.FlipHorizontal()), k, rows, cols);
      }
    }

    /** `resize`. */
    method Resize(rows: nat, cols: nat)
      modifies this
      ensures Valid() && fresh(raster) && this.rows == rows && this.cols == cols
    {
      this.rows, this.cols := rows, cols;
      raster := new Pixel[Offset(rows, cols)](_ => Pixel(0, 0, 0, 0));
    }

    method OpenTargaTrueColor(header: Header, body: seq<byte>) returns (r: Result<seq<byte>, Error>)
      requires Valid() && rows == header.height && cols == header.width
      requires header.pixelSize == 24 || header.pixelSize == 32
      modifies raster
      ensures match ParseBody(header, body)
        case Failure(e) => r == Failure(e)
        case Success((p, rest)) => r == Success(rest) && Model() == p
    {
      hide UnpackLines, Arranged, Lines, Offset;
      var ok, rest := ReadLines(header, body);
      r := if ok then Success(rest) else Failure(Unreadable);
    }

    /** `openTarga`: the bytes left over in the stream, or the exception. */
    method OpenTarga(input: seq<byte>, s: Streams) returns (r: Result<seq<byte>, Error>)
      modifies this
      ensures match Parse(input, s)
        case Failure(e) => r == Failure(e)
        case Success((p, rest)) => r == Success(rest) && Valid() && Model() == p
    {
      if |input| < 18 {
        return Failure(Unreadable);
      }
      hide ReadHeader, ParseBody, Lines, Offset, BodyOf;
      var header := ReadHeader(input, s);
      Resize(header.height, header.width);
      if header.imageType != 2 && header.imageType != 10 {
        return Failure(BadFormat);
      }
      if header.pixelSize != 24 && header.pixelSize != 32 {
        return Failure(BadFormat);
      }
      r := OpenTargaTrueColor(header, BodyOf(input, header));
    }

    /** Saving and opening in another image, on another machine: the same picture, nothing left over. */
    method Transfer(other: Image, s: Streams) returns (ok: bool)
      requires Valid() && other != this
      modifies other
      ensures ok <==> rows <= 0xffff && cols <= 0xffff
      ensures ok ==> other.Valid() && other.rows == rows && other.cols == cols && other.raster[..] == raster[..]
    {
      hide IsFile, Parse, Lines;
      ghost var p := Model();
      var saved := SaveTarga(s);
      if saved.Failure? {
        return false;
      }
      OpenInvertsSave(saved.value, p, s, []);
      assert saved.value + [] == saved.value;
      var result := other.OpenTarga(saved.value, s);
      LinesAreAll(raster[..], other.raster[..], rows, cols);
      ok := true;
    }
  }

  /** The pixel pointer runs through a line; `x` runs through the buffer, either way. */
  method DecodeInto(raster: array<Pixel>, start: nat, buffer: array<Bytes4>, depth: nat, flip: bool)
    requires start + buffer.Length <= raster.Length
    modifies raster
    ensures raster[..] == Overwritten(old(raster[..]), start, DecodeLine(buffer[..], depth, flip))
  {
    ghost var before := raster[..];
    hide DecodePixel, Overwritten;
    var cols := buffer.Length;
    var pixel := start;
    var xEnd := if flip then -1 else cols;
    var xDelta := if flip then -1 else 1;
    var x := if flip then cols - 1 else 0;
    while x != xEnd
      invariant start <= pixel <= start + cols
      invariant x == if flip then cols - 1 - (pixel - start) else pixel - start
      invariant forall k :: 0 <= k < raster.Length && !(start <= k < pixel) ==> raster[k] == before[k]
      invariant forall k :: start <= k < pixel ==>
        raster[k] == DecodePixel(buffer[if flip then cols - 1 - (k - start) else k - start], depth)
      decreases start + cols - pixel
    {
      raster[pixel] := DecodePixel(buffer[x], depth);
      pixel := pixel + 1;
      x := x + xDelta;
    }
    IsOverwritten(before, raster[..], start, DecodeLine(buffer[..], depth, flip));
  }

  lemma NoLines()
    ensures IsBody([], [])
  {
  }
}
