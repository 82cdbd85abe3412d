/**
 TARGA files by coordinates: where each byte of a file ends up in the image, for every header the loader
 accepts, and which files it refuses.  Nothing here shares a definition with the loader's loops.
 */
module TargaFormat {
  import opened Arithmetic
  import opened Bytes
  import opened Endian
  import opened Packets
  import opened Parsing
  import opened Rows
  import TargaRle
  import opened TargaImage
  import opened WireFormat

  // --- the header --------------------------------------------------------------------------------

  function TwoBytes(low: byte, high: byte, order: Endianness): nat {
    if order == LittleEndian then low + 256 * high else 256 * low + high
  }

  /** The fields of a header by their places in the file. */
  lemma HeaderFields(b: seq<byte>, s: Streams)
    requires |b| >= 18
    ensures var h := ReadHeader(b, s);
      && h.idLength == b[0] && h.colorMapType == b[1] && h.imageType == b[2]
      && h.colorMapOrigin == TwoBytes(b[3], b[4], s.order) && h.colorMapLength == TwoBytes(b[5], b[6], s.order)
      && h.colorMapEntrySize == b[7]
      && h.xOrigin == TwoBytes(b[8], b[9], s.order) && h.yOrigin == TwoBytes(b[10], b[11], s.order)
      && h.width == TwoBytes(b[12], b[13], s.order) && h.height == TwoBytes(b[14], b[15], s.order)
      && h.pixelSize == b[16] && h.descriptor == b[17]
  {
    hide ReadBack;
    OneByteField(b, 0, s);
    OneByteField(b, 1, s);
    OneByteField(b, 2, s);
    TwoByteField(b, 3, s);
    TwoByteField(b, 5, s);
    OneByteField(b, 7, s);
    TwoByteField(b, 8, s);
    TwoByteField(b, 10, s);
    TwoByteField(b, 12, s);
    TwoByteField(b, 14, s);
    OneByteField(b, 16, s);
    OneByteField(b, 17, s);
    hide Get;
  }

  lemma OneByteField(b: seq<byte>, at: nat, s: Streams)
    requires at < |b|
    ensures Get(b, at, 1, s) == b[at]
  {
    hide ReadBack;
    assert b[at..at + 1] == [b[at]];
    SmallNumbers(b[at], 0, s.reader, s.order);
  }

  lemma TwoByteField(b: seq<byte>, at: nat, s: Streams)
    requires at + 1 < |b|
    ensures Get(b, at, 2, s) == TwoBytes(b[at], b[at + 1], s.order)
  {
    hide ReadBack;
    assert b[at..at + 2] == [b[at], b[at + 1]];
    SmallNumbers(b[at], b[at + 1], s.reader, s.order);
  }

  /** The first 18 bytes of a saved file, in the default order of the stream. */
  lemma SavedHeaderBytes(bytes: seq<byte>, p: Picture<Pixel>, s: Streams)
    requires IsFile(bytes, p, s) && p.rows <= 0xffff && p.cols <= 0xffff && s.order == LittleEndian
    ensures bytes[..18] ==
      [0, 0, 10, 0, 0, 0, 0, 0, 0, 0, 0, 0, p.cols % 256, p.cols / 256, p.rows % 256, p.rows / 256, 32, 0x08]
  {
    hide WrittenBytes, IsBody;
    PutOne(0, s);
    PutOne(10, s);
    PutOne(32, s);
    PutOne(8, s);
    PutTwo(0, s);
    PutTwo(p.cols, s);
    PutTwo(p.rows, s);
    hide Put;
    assert 0 % 256 == 0 && 0 / 256 == 0;
  }

  lemma PutOne(v: nat, s: Streams)
    requires v < 256 && s.order == LittleEndian
    ensures Put(v, 1, s) == [v]
  {
    hide WrittenBytes;
    assert Pow256(0) == 1 && (v / 1) % 256 == v;
    WrittenByteIsDigit(v, 1, 0, s.writer);
  }

  lemma PutTwo(v: nat, s: Streams)
    requires v < 0x10000 && s.order == LittleEndian
    ensures Put(v, 2, s) == [v % 256, v / 256]
  {
    hide WrittenBytes;
    assert Pow256(0) == 1 && Pow256(1) == 256 && v / 1 == v;
    WrittenByteIsDigit(v, 2, 0, s.writer);
    WrittenByteIsDigit(v, 2, 1, s.writer);
  }

  /** Other image types and pixel sizes are refused, whatever else the file holds. */
  lemma OtherFilesAreRefused(input: seq<byte>, s: Streams)
    requires |input| >= 18
    ensures Parse(input, s) == Failure(BadFormat) <==>
      (input[2] != 2 && input[2] != 10) || (input[16] != 24 && input[16] != 32)
  {
    hide ReadHeader, UnpackLines, BodyOf, Arranged;
    HeaderFields(input, s);
  }

  // --- where a pixel goes ------------------------------------------------------------------------

  /** The line of the file that is row `y`: the file starts at the bottom unless bit 5 is set. */
  function FileRow(h: Header, y: nat): nat
    requires y < h.height
  {
    if (h.descriptor / 32) % 2 == 1 then y else h.height - 1 - y
  }

  /** The pixel of a line that is column `x`: lines run to the right unless bit 4 is set. */
  function FileColumn(h: Header, x: nat): nat
    requires x < h.width
  {
    if (h.descriptor / 16) % 2 == 1 then h.width - 1 - x else x
  }

  lemma ArrangedAt(lines: seq<seq<Bytes4>>, h: Header, y: nat, x: nat)
    requires y < |lines| == h.height && x < h.width && (h.pixelSize == 24 || h.pixelSize == 32)
    requires forall line :: line in lines ==> |line| == h.width
    ensures |Arranged(lines, h)[y]| == h.width && FileRow(h, y) < |lines| && FileColumn(h, x) < |lines[FileRow(h, y)]|
    ensures var b := lines[FileRow(h, y)][FileColumn(h, x)];
      Arranged(lines, h)[y][x] == Pixel(b.b2, b.b1, b.b0, if h.pixelSize == 24 then 255 else b.b3)
  {
    hide Arranged, DecodeLine, FileColumn;
    RowOfArranged(lines, h, y);
    assert lines[FileRow(h, y)] in lines;
    PixelOfRow(lines[FileRow(h, y)], h, x);
  }

  lemma PixelOfRow(line: seq<Bytes4>, h: Header, x: nat)
    requires x < h.width == |line|
    ensures FileColumn(h, x) < |line|
    ensures var b, depth := line[FileColumn(h, x)], if h.pixelSize == 24 then 3 else 4;
      DecodeLine(line, depth, (h.descriptor / 16) % 2 == 1)[x] ==
        Pixel(b.b2, b.b1, b.b0, if h.pixelSize == 24 then 255 else b.b3)
  {
  }

  lemma RowOfArranged(lines: seq<seq<Bytes4>>, h: Header, y: nat)
    requires y < |lines| == h.height && (h.pixelSize == 24 || h.pixelSize == 32)
    ensures FileRow(h, y) < |lines|
    ensures Arranged(lines, h)[y] ==
      DecodeLine(lines[FileRow(h, y)], if h.pixelSize == 24 then 3 else 4, (h.descriptor / 16) % 2 == 1)
  {
    hide DecodeLine;
    assert Place(y, |lines|, h.FlipVertical()) == FileRow(h, y);
  }

  // --- type 2: plain pixels ----------------------------------------------------------------------

  /** The bytes at `at` are blue, green, red and, in four-byte pixels, alpha. */
  predicate PixelAt(p: Pixel, input: seq<byte>, at: nat, depth: nat) {
    && at + depth <= |input| && 3 <= depth <= 4
    && p.b == input[at] && p.g == input[at + 1] && p.r == input[at + 2]
    && p.a == (if depth == 3 then 255 else input[at + 3])
  }

  function Stride(depth: nat, n: nat): nat {
    if depth == 3 then 3 * n else 4 * n
  }

  predicate QuadAt(b: Bytes4, s: seq<byte>, at: nat, depth: nat) {
    && at + depth <= |s| && 3 <= depth <= 4
    && b.b0 == s[at] && b.b1 == s[at + 1] && b.b2 == s[at + 2]
    && (depth == 4 ==> b.b3 == s[at + 3])
  }

  lemma {:induction false} RawPixels(s: seq<byte>, n: nat, depth: nat)
    requires 3 <= depth <= 4
    ensures TargaRle.UnpackRaw(s, n, depth).Some? <==> Stride(depth, n) <= |s|
    ensures var u := TargaRle.UnpackRaw(s, n, depth); u.Some? ==>
      && u.value.1 == s[Stride(depth, n)..]
      && forall i :: 0 <= i < n ==> QuadAt(u.value.0[i], s, Stride(depth, i), depth)
    decreases n
  {
    RawUnfold(s, n, depth);
    OneStride(depth, n);
    hide TargaRle.UnpackRaw, QuadAt, TargaRle.PixelOf, Stride;
    if n > 0 && |s| >= depth {
      RawPixels(s[depth..], n - 1, depth);
      var v := TargaRle.UnpackRaw(s[depth..], n - 1, depth);
      if v.Some? {
        SliceTwice(s, depth, Stride(depth, n - 1));
        FirstQuad(s, depth);
        hide Prepend;
        PrependValue(TargaRle.PixelOf(s, depth), v.value.0, v.value.1);
        QuadsBehind(TargaRle.PixelOf(s, depth), v.value.0, s, depth);
      }
    }
  }

  lemma RawUnfold(s: seq<byte>, n: nat, depth: nat)
    requires 3 <= depth <= 4
    ensures TargaRle.UnpackRaw(s, n, depth) ==
      if n == 0 then Some(([], s))
      else if |s| < depth then None
      else Prepend([TargaRle.PixelOf(s, depth)], TargaRle.UnpackRaw(s[depth..], n - 1, depth))
  {
  }

  lemma OneStride(depth: nat, n: nat)
    requires 3 <= depth <= 4
    ensures Stride(depth, 0) == 0 && (n > 0 ==> Stride(depth, n) == depth + Stride(depth, n - 1) >= depth)
  {
  }

  lemma PrependValue(first: Bytes4, more: seq<Bytes4>, rest: seq<byte>)
    ensures Prepend([first], Some((more, rest))) == Some(([first] + more, rest))
  {
  }

  lemma FirstQuad(s: seq<byte>, depth: nat)
    requires 3 <= depth <= 4 && depth <= |s|
    ensures QuadAt(TargaRle.PixelOf(s, depth), s, 0, depth)
  {
  }

  lemma QuadsBehind(first: Bytes4, more: seq<Bytes4>, s: seq<byte>, depth: nat)
    requires 3 <= depth <= 4 && depth <= |s| && QuadAt(first, s, 0, depth)
    requires forall i :: 0 <= i < |more| ==> QuadAt(more[i], s[depth..], Stride(depth, i), depth)
    ensures forall i :: 0 <= i <= |more| ==> QuadAt(([first] + more)[i], s, Stride(depth, i), depth)
  {
    hide QuadAt;
    forall i | 0 <= i <= |more|
      ensures QuadAt(([first] + more)[i], s, Stride(depth, i), depth)
    {
      if i > 0 {
        QuadBehind(more[i - 1], s, depth, Stride(depth, i - 1), depth);
      }
    }
  }

  /** Pixel `i` of line `k` lies where plain lines put it. */
  ghost predicate QuadsAt(lines: seq<seq<Bytes4>>, s: seq<byte>, width: nat, depth: nat) {
    forall k: nat, i: nat :: k < |lines| && i < |lines[k]| ==>
      QuadAt(lines[k][i], s, Stride(depth, Offset(k, width) + i), depth)
  }

  lemma NextQuads(s: seq<byte>, first: seq<Bytes4>, lines: seq<seq<Bytes4>>, width: nat, depth: nat)
    requires 3 <= depth <= 4 && |first| == width && Stride(depth, width) <= |s|
    requires forall i :: 0 <= i < width ==> QuadAt(first[i], s, Stride(depth, i), depth)
    requires QuadsAt(lines, s[Stride(depth, width)..], width, depth)
    ensures QuadsAt([first] + lines, s, width, depth)
  {
    hide QuadAt;
    var all := [first] + lines;
    forall k: nat, i: nat | k < |all| && i < |all[k]|
      ensures QuadAt(all[k][i], s, Stride(depth, Offset(k, width) + i), depth)
    {
      if k > 0 {
        assert all[k] == lines[k - 1];
        QuadsAtOne(lines, s[Stride(depth, width)..], width, depth, k - 1, i);
        StrideSum(depth, width, Offset(k - 1, width) + i);
        QuadBehind(lines[k - 1][i], s, Stride(depth, width), Stride(depth, Offset(k - 1, width) + i), depth);
      }
    }
  }

  lemma QuadBehind(b: Bytes4, s: seq<byte>, skip: nat, at: nat, depth: nat)
    requires skip <= |s| && QuadAt(b, s[skip..], at, depth)
    ensures QuadAt(b, s, skip + at, depth)
  {
  }

  lemma {:induction false} RawLines(s: seq<byte>, count: nat, width: nat, depth: nat)
    requires 3 <= depth <= 4
    ensures UnpackLines(s, count, width, depth, false).Some? <==> Stride(depth, Offset(count, width)) <= |s|
    ensures var u := UnpackLines(s, count, width, depth, false); u.Some? ==>
      u.value.1 == s[Stride(depth, Offset(count, width))..] && QuadsAt(u.value.0, s, width, depth)
    decreases count
  {
    hide UnpackLines, UnpackLine, TargaRle.UnpackRaw, QuadsAt, QuadAt, Stride, Offset;
    RawLinesUnfold(s, count, width, depth);
    OffsetUnfold(count, width);
    StrideSum(depth, 0, 0);
    if count == 0 {
      NoQuads(s, width, depth);
    } else {
      RawPixels(s, width, depth);
      StrideSum(depth, Offset(count - 1, width), width);
      if Stride(depth, width) <= |s| {
        var rest := s[Stride(depth, width)..];
        RawLines(rest, count - 1, width, depth);
        SliceTwice(s, Stride(depth, width), Stride(depth, Offset(count - 1, width)));
        var v := UnpackLines(rest, count - 1, width, depth, false);
        if v.Some? {
          NextQuads(s, TargaRle.UnpackRaw(s, width, depth).value.0, v.value.0, width, depth);
        }
      }
    }
  }

  lemma OffsetUnfold(count: nat, width: nat)
    ensures Offset(count, width) == if count == 0 then 0 else Offset(count - 1, width) + width
  {
  }

  lemma RawLinesUnfold(s: seq<byte>, count: nat, width: nat, depth: nat)
    requires 3 <= depth <= 4
    ensures UnpackLines(s, count, width, depth, false) ==
      if count == 0 then Some(([], s))
      else
        match TargaRle.UnpackRaw(s, width, depth)
        case None => None
        case Some((line, rest)) => Prepend([line], UnpackLines(rest, count - 1, width, depth, false))
  {
    hide TargaRle.UnpackRaw;
  }

  lemma StrideSum(depth: nat, a: nat, b: nat)
    ensures Stride(depth, a + b) == Stride(depth, a) + Stride(depth, b) && Stride(depth, 0) == 0
  {
  }

  lemma SliceTwice(s: seq<byte>, a: nat, b: nat)
    ensures a + b <= |s| ==> s[a..][b..] == s[a + b..]
  {
  }

  lemma NoQuads(s: seq<byte>, width: nat, depth: nat)
    ensures QuadsAt([], s, width, depth)
  {
  }

  lemma PixelBehind(lines: seq<seq<Bytes4>>, h: Header, input: seq<byte>, depth: nat, y: nat, x: nat)
    requires y < |lines| == h.height && x < h.width && (h.pixelSize == 24 || h.pixelSize == 32)
    requires depth == if h.pixelSize == 24 then 3 else 4
    requires (forall line :: line in lines ==> |line| == h.width) && QuadsAt(lines, BodyOf(input, h), h.width, depth)
    ensures |Arranged(lines, h)[y]| == h.width
    ensures PixelAt(Arranged(lines, h)[y][x], input,
                    18 + h.Skipped() + Stride(depth, Offset(FileRow(h, y), h.width) + FileColumn(h, x)), depth)
  {
    hide Arranged, Offset, Stride, QuadsAt, FileRow, FileColumn, QuadAt, PixelAt, Header.Skipped, BodyOf;
    ArrangedAt(lines, h, y, x);
    var k, i := FileRow(h, y), FileColumn(h, x);
    var at := Stride(depth, Offset(k, h.width) + i);
    QuadsAtOne(lines, BodyOf(input, h), h.width, depth, k, i);
    QuadIsThere(lines[k][i], input, h, at, depth);
    QuadIsPixel(lines[k][i], input, 18 + h.Skipped() + at, depth);
  }

  lemma QuadsAtOne(lines: seq<seq<Bytes4>>, s: seq<byte>, width: nat, depth: nat, k: nat, i: nat)
    requires QuadsAt(lines, s, width, depth) && k < |lines| && i < |lines[k]|
    ensures QuadAt(lines[k][i], s, Stride(depth, Offset(k, width) + i), depth)
  {
  }

  lemma QuadIsThere(b: Bytes4, input: seq<byte>, h: Header, at: nat, depth: nat)
    requires QuadAt(b, BodyOf(input, h), at, depth)
    ensures QuadAt(b, input, 18 + h.Skipped() + at, depth)
  {
    hide Header.Skipped;
    if 18 + h.Skipped() <= |input| {
      QuadBehind(b, input, 18 + h.Skipped(), at, depth);
    }
  }

  lemma QuadIsPixel(b: Bytes4, input: seq<byte>, at: nat, depth: nat)
    requires QuadAt(b, input, at, depth)
    ensures PixelAt(Pixel(b.b2, b.b1, b.b0, if depth == 3 then 255 else b.b3), input, at, depth)
  {
  }

  /** Coordinates as products. */
  lemma StrideIsProduct(depth: nat, y: nat, x: nat, width: nat)
    requires 3 <= depth <= 4
    ensures Stride(depth, Offset(y, width) + x) == Times(depth, Times(y, width) + x)
  {
    OffsetIsProduct(y, width);
  }

  function Times(x: nat, y: nat): (p: nat)
    ensures p == x * y
  {
    MulMonotone(0, x, y);
    x * y
  }

  /** The pixels lie behind header, image identification and colour map. */
  function PixelStart(h: Header): nat {
    18 + h.idLength + Times(h.colorMapLength, h.colorMapEntrySize)
  }

  /** Where pixel (y, x) of the image lies in the file. */
  function PixelPlace(h: Header, depth: nat, y: nat, x: nat): nat
    requires y < h.height && x < h.width
  {
    PixelStart(h) + Times(depth, Times(FileRow(h, y), h.width) + FileColumn(h, x))
  }

  /** The picture whose pixels lie in the file, in the order the header gives. */
  ghost predicate IsPlainPicture(p: Picture<Pixel>, h: Header, input: seq<byte>, depth: nat) {
    && p.rows == h.height && p.cols == h.width && Rectangular(p)
    && forall y: nat, x: nat :: y < p.rows && x < p.cols ==>
         PixelAt(p.lines[y][x], input, PixelPlace(h, depth, y, x), depth)
  }

  /**
   A type-2 file: pixel (y, x) comes from the bytes at depth * (fy * width + fx) behind header, image
   identification and colour map, and what follows the pixels is left over.  There is no result if and
   only if these bytes are not all there.
   */
  lemma PlainFile(input: seq<byte>, s: Streams)
    requires |input| >= 18 && input[2] == 2 && (input[16] == 24 || input[16] == 32)
    ensures var h, depth := ReadHeader(input, s), if input[16] == 24 then 3 else 4;
      var start, size := PixelStart(h), Times(depth, Times(h.height, h.width));
      match Parse(input, s)
      case Failure(e) => e == Unreadable && size > 0 && |input| < start + size
      case Success((p, rest)) =>
        && (size == 0 || start + size <= |input|)
        && rest == (if start + size <= |input| then input[start + size..] else [])
        && IsPlainPicture(p, h, input, depth)
  {
    hide Times, PixelStart, ReadHeader, UnpackLines, Arranged, Parse, BodyOf, Offset, Stride, QuadsAt, IsPlainPicture;
    HeaderFields(input, s);
    var h, depth := ReadHeader(input, s), if input[16] == 24 then 3 else 4;
    var lines, body := UnpackLines(BodyOf(input, h), h.height, h.width, depth, false), BodyOf(input, h);
    FileParse(input, s, h, depth);
    SizesAreProducts(h, depth);
    RawLines(body, h.height, h.width, depth);
    BodyBounds(input, h, Stride(depth, Offset(h.height, h.width)));
    if lines.Some? {
      PlainPicture(lines.value.0, h, input, depth);
    }
  }

  lemma PlainPicture(lines: seq<seq<Bytes4>>, h: Header, input: seq<byte>, depth: nat)
    requires |lines| == h.height && (h.pixelSize == 24 || h.pixelSize == 32)
    requires depth == if h.pixelSize == 24 then 3 else 4
    requires (forall line :: line in lines ==> |line| == h.width) && QuadsAt(lines, BodyOf(input, h), h.width, depth)
    ensures IsPlainPicture(Picture(h.height, h.width, Arranged(lines, h)), h, input, depth)
  {
    hide PixelPlace, Offset, Arranged, Stride, QuadsAt, PixelAt, FileRow, FileColumn, BodyOf, Header.Skipped;
    RowLengths(lines, h);
    forall y: nat, x: nat | y < h.height && x < h.width
      ensures PixelAt(Arranged(lines, h)[y][x], input, PixelPlace(h, depth, y, x), depth)
    {
      PixelBehind(lines, h, input, depth, y, x);
      PlaceIsStride(h, depth, y, x);
    }
  }

  lemma SizesAreProducts(h: Header, depth: nat)
    requires 3 <= depth <= 4
    ensures 18 + h.Skipped() == PixelStart(h)
    ensures Stride(depth, Offset(h.height, h.width)) == Times(depth, Times(h.height, h.width))
  {
    OffsetIsProduct(h.colorMapLength, h.colorMapEntrySize);
    OffsetIsProduct(h.height, h.width);
  }

  lemma PlaceIsStride(h: Header, depth: nat, y: nat, x: nat)
    requires 3 <= depth <= 4 && y < h.height && x < h.width
    ensures PixelPlace(h, depth, y, x) ==
      18 + h.Skipped() + Stride(depth, Offset(FileRow(h, y), h.width) + FileColumn(h, x))
  {
    SizesAreProducts(h, depth);
    hide Times, PixelStart, Stride, Offset, FileRow, FileColumn, Header.Skipped;
    StrideIsProduct(depth, FileRow(h, y), FileColumn(h, x), h.width);
  }

  lemma FileParse(input: seq<byte>, s: Streams, h: Header, depth: nat)
    requires |input| >= 18 && h == ReadHeader(input, s) && (h.imageType == 2 || h.imageType == 10)
    requires (h.pixelSize == 24 && depth == 3) || (h.pixelSize == 32 && depth == 4)
    ensures Parse(input, s) ==
      match UnpackLines(BodyOf(input, h), h.height, h.width, depth, h.imageType == 10)
      case None => Failure(Unreadable)
      case Some((lines, rest)) => Success((Picture(h.height, h.width, Arranged(lines, h)), rest))
  {
    hide ReadHeader, UnpackLines, Arranged, BodyOf;
  }

  lemma BodyBounds(input: seq<byte>, h: Header, size: nat)
    ensures var start, body := 18 + h.Skipped(), BodyOf(input, h);
      && (size <= |body| <==> size == 0 || start + size <= |input|)
      && (size <= |body| ==> body[size..] == if start + size <= |input| then input[start + size..] else [])
  {
  }

  lemma RowLengths(lines: seq<seq<Bytes4>>, h: Header)
    requires |lines| == h.height && forall line :: line in lines ==> |line| == h.width
    ensures Rectangular(Picture(h.height, h.width, Arranged(lines, h)))
  {
    forall y | 0 <= y < |lines|
      ensures |Arranged(lines, h)[y]| == h.width
    {
      assert lines[Place(y, |lines|, h.FlipVertical())] in lines;
    }
  }

  // --- type 10: packets --------------------------------------------------------------------------

  /** A pixel as a file stores it: blue, green, red and, in four bytes, alpha. */
  function Stored(p: Pixel, depth: nat): (s: seq<byte>)
    ensures |s| == if depth == 3 then 3 else 4
  {
    if depth == 3 then [p.b, p.g, p.r] else [p.b, p.g, p.r, p.a]
  }

  function StoredAll(ps: seq<Pixel>, depth: nat): seq<byte> {
    if ps == [] then [] else Stored(ps[0], depth) + StoredAll(ps[1..], depth)
  }

  /** A raw packet is its length less 1 and its pixels; a run packet is 127 more than its length and one pixel. */
  function StoredPacket(p: Packet<Pixel>, depth: nat): seq<byte>
    requires 1 <= Length(p) <= 128
  {
    match p
    case Raw(items) => [|items| - 1] + StoredAll(items, depth)
    case Run(item, count) => [127 + count] + Stored(item, depth)
  }

  predicate Storable(ps: seq<Packet<Pixel>>) {
    forall p :: p in ps ==> 1 <= Length(p) <= 128
  }

  function StoredLine(ps: seq<Packet<Pixel>>, depth: nat): seq<byte>
    requires Storable(ps)
  {
    if ps == [] then [] else StoredPacket(ps[0], depth) + StoredLine(ps[1..], depth)
  }

  /** The pixels a packet stands for. */
  function Pixels(p: Packet<Pixel>): (s: seq<Pixel>)
    ensures |s| == Length(p)
  {
    match p
    case Raw(items) => items
    case Run(item, count) => seq(count, _ => item)
  }

  function LinePixels(ps: seq<Packet<Pixel>>): seq<Pixel> {
    if ps == [] then [] else Pixels(ps[0]) + LinePixels(ps[1..])
  }

  function StoredLines(lines: seq<seq<Packet<Pixel>>>, depth: nat): seq<byte>
    requires forall ps :: ps in lines ==> Storable(ps)
  {
    if lines == [] then [] else StoredLine(lines[0], depth) + StoredLines(lines[1..], depth)
  }

  /** The four bytes the loader holds for a stored pixel. */
  function Quad(p: Pixel, depth: nat): Bytes4 {
    Bytes4(p.b, p.g, p.r, if depth == 3 then 0 else p.a)
  }

  function Quads(ps: seq<Pixel>, depth: nat): (s: seq<Bytes4>)
    ensures |s| == |ps| && forall i :: 0 <= i < |ps| ==> s[i] == Quad(ps[i], depth)
  {
    seq(|ps|, i requires 0 <= i < |ps| => Quad(ps[i], depth))
  }

  lemma {:induction false} UnpackStoredPixels(ps: seq<Pixel>, depth: nat, rest: seq<byte>)
    requires 3 <= depth <= 4
    ensures TargaRle.UnpackRaw(StoredAll(ps, depth) + rest, |ps|, depth) == Some((Quads(ps, depth), rest))
  {
    var s := StoredAll(ps, depth) + rest;
    if ps == [] {
      assert s == rest;
    } else {
      UnpackStoredPixels(ps[1..], depth, rest);
      Associate(Stored(ps[0], depth), StoredAll(ps[1..], depth), rest);
      FirstPixel(ps[0], StoredAll(ps[1..], depth) + rest, depth);
      hide Stored, Quads, TargaRle.PixelOf;
      QuadsCons(ps[0], ps[1..], depth);
      assert [ps[0]] + ps[1..] == ps;
    }
  }

  lemma FirstPixel(p: Pixel, rest: seq<byte>, depth: nat)
    requires 3 <= depth <= 4
    ensures var s := Stored(p, depth) + rest;
      |s| >= depth && TargaRle.PixelOf(s, depth) == Quad(p, depth) && s[depth..] == rest
  {
  }

  lemma QuadsCons(p: Pixel, ps: seq<Pixel>, depth: nat)
    ensures Quads([p] + ps, depth) == [Quad(p, depth)] + Quads(ps, depth)
  {
  }

  lemma QuadsAppend(a: seq<Pixel>, b: seq<Pixel>, depth: nat)
    ensures Quads(a + b, depth) == Quads(a, depth) + Quads(b, depth)
  {
  }

  lemma UnpackStoredPacket(p: Packet<Pixel>, depth: nat, want: nat, rest: seq<byte>)
    requires 3 <= depth <= 4 && 1 <= Length(p) <= 128 && Length(p) <= want
    ensures TargaRle.UnpackOne(StoredPacket(p, depth) + rest, want, depth) == Some((Quads(Pixels(p), depth), rest))
  {
    match p {
      case Raw(items) =>
        UnpackStoredRaw(items, depth, want, rest);
      case Run(item, count) =>
        UnpackStoredRun(item, count, depth, want, rest);
    }
  }

  lemma UnpackStoredRaw(items: seq<Pixel>, depth: nat, want: nat, rest: seq<byte>)
    requires 3 <= depth <= 4 && 1 <= |items| <= 128 && |items| <= want
    ensures TargaRle.UnpackOne(StoredPacket(Raw(items), depth) + rest, want, depth) == Some((Quads(items, depth), rest))
  {
    hide StoredAll, TargaRle.UnpackRaw, Quads, TargaRle.PixelOf;
    UnpackStoredPixels(items, depth, rest);
    var tag: byte := |items| - 1;
    BehindTag(tag, StoredAll(items, depth), rest);
  }

  lemma UnpackStoredRun(item: Pixel, count: nat, depth: nat, want: nat, rest: seq<byte>)
    requires 3 <= depth <= 4 && 1 <= count <= 128 && count <= want
    ensures TargaRle.UnpackOne(StoredPacket(Run(item, count), depth) + rest, want, depth) ==
      Some((Quads(Pixels(Run(item, count)), depth), rest))
  {
    hide Stored, TargaRle.PixelOf, Quads, TargaRle.UnpackRaw;
    FirstPixel(item, rest, depth);
    var tag: byte := 127 + count;
    BehindTag(tag, Stored(item, depth), rest);
    SliceTwice(([tag] + Stored(item, depth)) + rest, 1, depth);
    assert Quads(Pixels(Run(item, count)), depth) == seq(count, _ => Quad(item, depth));
  }

  lemma BehindTag(tag: byte, bytes: seq<byte>, rest: seq<byte>)
    ensures var s := ([tag] + bytes) + rest; s[0] == tag && s[1..] == bytes + rest
  {
  }

  lemma {:induction false} UnpackStoredLine(ps: seq<Packet<Pixel>>, depth: nat, rest: seq<byte>)
    requires 3 <= depth <= 4 && Storable(ps)
    ensures TargaRle.Unpack(StoredLine(ps, depth) + rest, |LinePixels(ps)|, depth)
      == Some((Quads(LinePixels(ps), depth), rest))
    decreases |ps|
  {
    hide Quads, StoredPacket, TargaRle.UnpackOne, Pixels;
    if ps == [] {
      assert StoredLine(ps, depth) + rest == rest;
      NoPixels(depth);
    } else {
      assert ps[0] in ps;
      var more := StoredLine(ps[1..], depth);
      UnpackStoredLine(ps[1..], depth, rest);
      Associate(StoredPacket(ps[0], depth), more, rest);
      UnpackStoredPacket(ps[0], depth, |LinePixels(ps)|, more + rest);
      QuadsAppend(Pixels(ps[0]), LinePixels(ps[1..]), depth);
    }
  }

  lemma NoPixels(depth: nat)
    ensures Quads([], depth) == []
  {
  }

  function AllPixels(lines: seq<seq<Packet<Pixel>>>): (s: seq<seq<Pixel>>)
    ensures |s| == |lines| && forall k :: 0 <= k < |lines| ==> s[k] == LinePixels(lines[k])
  {
    seq(|lines|, k requires 0 <= k < |lines| => LinePixels(lines[k]))
  }

  function AllQuads(lines: seq<seq<Packet<Pixel>>>, depth: nat): (s: seq<seq<Bytes4>>)
    ensures |s| == |lines| && forall k :: 0 <= k < |lines| ==> s[k] == Quads(LinePixels(lines[k]), depth)
  {
    seq(|lines|, k requires 0 <= k < |lines| => Quads(LinePixels(lines[k]), depth))
  }

  lemma {:induction false} UnpackStoredLines(lines: seq<seq<Packet<Pixel>>>, width: nat, depth: nat, rest: seq<byte>)
    requires 3 <= depth <= 4 && (forall ps :: ps in lines ==> Storable(ps) && |LinePixels(ps)| == width)
    ensures UnpackLines(StoredLines(lines, depth) + rest, |lines|, width, depth, true)
      == Some((AllQuads(lines, depth), rest))
    decreases |lines|
  {
    hide UnpackLines, StoredLine, TargaRle.Unpack, LinePixels, Quads, Storable;
    if lines == [] {
      assert StoredLines(lines, depth) + rest == rest;
      LinesUnfold(rest, 0, width, depth, true);
    } else {
      assert lines[0] in lines;
      var more := StoredLines(lines[1..], depth);
      UnpackStoredLines(lines[1..], width, depth, rest);
      Associate(StoredLine(lines[0], depth), more, rest);
      UnpackStoredLine(lines[0], depth, more + rest);
      LinesUnfold(StoredLines(lines, depth) + rest, |lines|, width, depth, true);
      assert AllQuads(lines, depth) == [Quads(LinePixels(lines[0]), depth)] + AllQuads(lines[1..], depth);
    }
  }

  /** The picture whose lines are stored in the order the header gives; three-byte pixels are opaque. */
  ghost predicate IsStoredPicture(p: Picture<Pixel>, h: Header, stored: seq<seq<Pixel>>) {
    && |stored| == h.height && (forall line :: line in stored ==> |line| == h.width)
    && p.rows == h.height && p.cols == h.width && Rectangular(p)
    && forall y: nat, x: nat :: y < p.rows && x < p.cols ==> StoredAt(p.lines[y][x], h, stored, y, x)
  }

  predicate StoredAt(p: Pixel, h: Header, stored: seq<seq<Pixel>>, y: nat, x: nat)
    requires y < h.height && x < h.width
  {
    && FileRow(h, y) < |stored| && FileColumn(h, x) < |stored[FileRow(h, y)]|
    && var q := stored[FileRow(h, y)][FileColumn(h, x)];
       p == if h.pixelSize == 24 then q.(a := 255) else q
  }

  /**
   A type-10 file with any packets of up to 128 pixels that end with their lines, of three or four bytes
   a pixel, under any header of that type: every pixel comes to its place and what follows is left over.
   */
  lemma PackedFile(input: seq<byte>, s: Streams, skipped: seq<byte>, lines: seq<seq<Packet<Pixel>>>, rest: seq<byte>)
    requires |input| >= 18 && input[2] == 10 && (input[16] == 24 || input[16] == 32)
    requires forall ps :: ps in lines ==> Storable(ps) && |LinePixels(ps)| == ReadHeader(input, s).width
    requires |lines| == ReadHeader(input, s).height && 18 + |skipped| == PixelStart(ReadHeader(input, s))
    requires input == input[..18] + skipped + StoredLines(lines, if input[16] == 24 then 3 else 4) + rest
    ensures Parse(input, s).Success? && Parse(input, s).value.1 == rest
    ensures IsStoredPicture(Parse(input, s).value.0, ReadHeader(input, s), AllPixels(lines))
  {
    hide ReadHeader, UnpackLines, Arranged, Storable, LinePixels, StoredLines, IsStoredPicture, Times, Offset;
    hide Parse, BodyOf, PixelStart, Header.Skipped, AllQuads, AllPixels;
    HeaderFields(input, s);
    var h, depth := ReadHeader(input, s), if input[16] == 24 then 3 else 4;
    SizesAreProducts(h, depth);
    FileParse(input, s, h, depth);
    BodyBehind(input, h, skipped, StoredLines(lines, depth), rest);
    UnpackStoredLines(lines, h.width, depth, rest);
    StoredPicture(lines, h, depth);
  }

  lemma BodyBehind(input: seq<byte>, h: Header, skipped: seq<byte>, stored: seq<byte>, rest: seq<byte>)
    requires |input| >= 18 && 18 + |skipped| == 18 + h.Skipped()
    requires input == input[..18] + skipped + stored + rest
    ensures BodyOf(input, h) == stored + rest
  {
    var a := input[..18] + skipped;
    assert input == a + (stored + rest);
    assert (a + (stored + rest))[|a|..] == stored + rest;
  }

  lemma StoredPicture(lines: seq<seq<Packet<Pixel>>>, h: Header, depth: nat)
    requires |lines| == h.height && (forall ps :: ps in lines ==> |LinePixels(ps)| == h.width)
    requires (h.pixelSize == 24 && depth == 3) || (h.pixelSize == 32 && depth == 4)
    ensures IsStoredPicture(Picture(h.height, h.width, Arranged(AllQuads(lines, depth), h)), h, AllPixels(lines))
  {
    hide Arranged, LinePixels, Quads;
    var quads, stored := AllQuads(lines, depth), AllPixels(lines);
    QuadLines(lines, h.width, depth);
    RowLengths(quads, h);
    forall y: nat, x: nat | y < h.height && x < h.width
      ensures StoredAt(Arranged(quads, h)[y][x], h, stored, y, x)
    {
      ArrangedAt(quads, h, y, x);
      assert stored[FileRow(h, y)] in stored;
    }
  }

  lemma QuadLines(lines: seq<seq<Packet<Pixel>>>, width: nat, depth: nat)
    requires forall ps :: ps in lines ==> |LinePixels(ps)| == width
    ensures forall line :: line in AllQuads(lines, depth) ==> |line| == width
    ensures forall line :: line in AllPixels(lines) ==> |line| == width
  {
    hide LinePixels, Quads;
    forall k | 0 <= k < |lines|
      ensures |AllQuads(lines, depth)[k]| == width && |AllPixels(lines)[k]| == width
    {
      assert lines[k] in lines;
    }
  }

  // --- what the saver writes for a line ----------------------------------------------------------

  /**
   A saved line starts with a run of 2 to 128 equal pixels, as long as it can be, if its first two pixels
   are equal; otherwise with 1 to 128 pixels as they are, up to the next two equal ones.  What follows is
   the saved rest of the line.
   */
  lemma SavedLineStarts(bytes: seq<byte>, line: seq<Bytes4>) returns (n: nat)
    requires TargaRle.Packed(bytes, line) && line != []
    ensures 1 <= n <= 128 && n <= |line|
    ensures if |line| >= 2 && line[0] == line[1] then
        && 2 <= n && (forall i :: 0 <= i < n ==> line[i] == line[0])
        && (n < 128 && n < |line| ==> line[n] != line[0])
        && |bytes| >= 5 && bytes[..5] == [127 + n, line[0].b0, line[0].b1, line[0].b2, line[0].b3]
        && TargaRle.Packed(bytes[5..], line[n..])
      else
        && (forall i :: 0 <= i < n && i + 1 < |line| ==> line[i] != line[i + 1])
        && (n < 128 && n < |line| ==> n + 1 < |line| && line[n] == line[n + 1])
        && |bytes| >= 1 + 4 * n && bytes[..1 + 4 * n] == [n - 1] + Flatten(line[..n])
        && TargaRle.Packed(bytes[1 + 4 * n..], line[n..])
  {
    var p, tail := FirstPacket(bytes, line);
    n := Length(p);
    StepMeans(p, line);
    PacketInFront(p, tail, line);
    hide Flatten, TargaRle.PacketBytes, Step, TargaRle.Packed;
  }

  lemma FirstPacket(bytes: seq<byte>, line: seq<Bytes4>) returns (p: Packet<Bytes4>, tail: seq<byte>)
    requires TargaRle.Packed(bytes, line) && line != []
    ensures Step(p, line, 0, TargaRle.LIMITS) && 1 <= Length(p) <= |line|
    ensures bytes == TargaRle.PacketBytes(p) + tail && TargaRle.Packed(tail, line[Length(p)..])
  {
    hide Step, Covers, Length, TargaRle.PacketBytes;
    var ps :| Covers(ps, line, 0, |line|, TargaRle.LIMITS) && bytes == TargaRle.LineBytes(ps);
    CoversUnfold(ps, line, 0, |line|, TargaRle.LIMITS);
    CoversNothing(line, TargaRle.LIMITS);
    p, tail := ps[0], TargaRle.LineBytes(ps[1..]);
    CoversBehind(ps[1..], line, Length(p), 0, TargaRle.LIMITS);
  }

  lemma StepMeans(p: Packet<Bytes4>, line: seq<Bytes4>)
    requires Step(p, line, 0, TargaRle.LIMITS)
    ensures 1 <= Length(p) <= 128 && Length(p) <= |line|
    ensures p.Run? <==> |line| >= 2 && line[0] == line[1]
    ensures p.Run? ==>
      && p.item == line[0] && 2 <= p.count && (forall i :: 0 <= i < p.count ==> line[i] == line[0])
      && (p.count < 128 && p.count < |line| ==> line[p.count] != line[0])
    ensures p.Raw? ==>
      var n := |p.items|;
      && p.items == line[..n] && (forall i :: 0 <= i < n && i + 1 < |line| ==> line[i] != line[i + 1])
      && (n < 128 && n < |line| ==> n + 1 < |line| && line[n] == line[n + 1])
  {
    hide RunAt;
    RunOfTwo(line, 0);
    if p.Raw? {
      forall i: nat | i < |line|
        ensures RunAt(line, i, 2) <==> i + 1 < |line| && line[i] == line[i + 1]
      {
        RunOfTwo(line, i);
      }
      if |p.items| < |line| {
        RunOfTwo(line, |p.items|);
      }
    }
  }

  lemma PacketInFront(p: Packet<Bytes4>, tail: seq<byte>, line: seq<Bytes4>)
    requires 1 <= Length(p) <= 128 && Length(p) <= |line|
    ensures var bytes := TargaRle.PacketBytes(p) + tail;
      && (p.Run? && p.count >= 2 ==>
            |bytes| >= 5 && bytes[..5] == [127 + p.count, p.item.b0, p.item.b1, p.item.b2, p.item.b3]
            && bytes[5..] == tail)
      && (p.Raw? ==>
            var n := |p.items|;
            |bytes| >= 1 + 4 * n && bytes[..1 + 4 * n] == [n - 1] + Flatten(p.items) && bytes[1 + 4 * n..] == tail)
  {
    match p {
      case Raw(items) =>
        var tag: byte := |items| - 1;
        InFront([tag] + Flatten(items), tail);
      case Run(item, count) =>
        if count >= 2 {
          var tag: byte := 127 + count;
          InFront([tag, item.b0, item.b1, item.b2, item.b3], tail);
        }
    }
    hide Flatten;
  }

  lemma InFront(first: seq<byte>, tail: seq<byte>)
    ensures (first + tail)[..|first|] == first && (first + tail)[|first|..] == tail
  {
  }

  lemma RunOfTwo(line: seq<Bytes4>, i: nat)
    ensures RunAt(line, i, 2) <==> i + 1 < |line| && line[i] == line[i + 1]
  {
  }
}
