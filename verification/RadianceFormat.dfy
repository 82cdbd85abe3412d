/**
 Radiance bodies by coordinates: which bytes become which pixel, for plain pixels and for coded pieces of
 any spans, under any orders and colour corrections.  Nothing here shares a definition with the loader's
 loops.
 */
module RadianceFormat {
  import opened Arithmetic
  import opened Bytes
  import opened Packets
  import opened Parsing
  import RadianceRle
  import opened RadianceScanline
  import opened RadianceImage
  import opened RadianceReader
  import opened Rgbe
  import opened Rows

  // --- colours -----------------------------------------------------------------------------------

  /** `a * b * 2^e`. */
  function InPlaces(a: real, b: real, e: int): real {
    (a * b) * Pow2(e)
  }

  /** Correction, byte and 2^(exponent byte - 136) multiplied; pixels of exponent byte 0 are black. */
  predicate ColorOf(c: Color, b: Bytes4, corrections: Color) {
    if b.b3 == 0 then c == Color(0.0, 0.0, 0.0)
    else
      && c.r == InPlaces(corrections.r, b.b0 as real, b.b3 - 136)
      && c.g == InPlaces(corrections.g, b.b1 as real, b.b3 - 136)
      && c.b == InPlaces(corrections.b, b.b2 as real, b.b3 - 136)
  }

  lemma ComponentScaled(b: byte, correction: real, exponent: byte)
    ensures Scaled(b, correction, exponent) ==
      if exponent == 0 then 0.0 else InPlaces(correction, b as real, exponent - 136)
  {
    hide Pow2;
    if exponent == 0 {
      assert (b as real * correction) * 0.0 == 0.0;
    } else {
      assert b as real * correction == correction * b as real;
    }
  }

  lemma DecodedColor(b: Bytes4, corrections: Color)
    ensures ColorOf(Decode(b, corrections), b, corrections)
  {
    hide Scaled, InPlaces;
    ComponentScaled(b.b0, corrections.r, b.b3);
    ComponentScaled(b.b1, corrections.g, b.b3);
    ComponentScaled(b.b2, corrections.b, b.b3);
  }

  predicate ScaledBy(c: Color, q: Color, corrections: Color) {
    c.r == corrections.r * q.r && c.g == corrections.g * q.g && c.b == corrections.b * q.b
  }

  /** Corrections scale each component of what is read without them. */
  lemma CorrectionsScale(b: Bytes4, corrections: Color)
    ensures ScaledBy(Decode(b, corrections), Decode(b, NO_CORRECTION), corrections)
  {
    hide Scaled;
    ScaledByCorrection(b.b0, corrections.r, b.b3);
    ScaledByCorrection(b.b1, corrections.g, b.b3);
    ScaledByCorrection(b.b2, corrections.b, b.b3);
  }

  lemma ScaledByCorrection(b: byte, correction: real, exponent: byte)
    ensures Scaled(b, correction, exponent) == correction * Scaled(b, 1.0, exponent)
  {
    hide ExponentValue;
    var x, e := b as real, ExponentValue(exponent);
    assert (x * correction) * e == correction * (x * e);
    assert x * 1.0 == x;
  }

  // --- where a pixel goes ------------------------------------------------------------------------

  /** The scanline of the file that is row `y`: the file starts at the top unless y increases. */
  function FileRow(h: Header, y: nat): nat
    requires y < h.height
  {
    if h.yIncreasing then h.height - 1 - y else y
  }

  /** The pixel of a scanline that is column `x`: scanlines run to the right if x increases. */
  function FileColumn(h: Header, x: nat): nat
    requires x < h.width
  {
    if h.xIncreasing then x else h.width - 1 - x
  }

  /** The picture whose scanlines are `stored` in the order of the file. */
  ghost predicate IsStoredPicture(p: Picture<Color>, h: Header, stored: seq<seq<Bytes4>>) {
    && |stored| == h.height && (forall line :: line in stored ==> |line| == h.width)
    && p.rows == h.height && p.cols == h.width && Rectangular(p)
    && forall y: nat, x: nat :: y < p.rows && x < p.cols ==> StoredAt(p.lines[y][x], h, stored, y, x)
  }

  predicate StoredAt(c: Color, h: Header, stored: seq<seq<Bytes4>>, y: nat, x: nat)
    requires y < h.height && x < h.width
  {
    && FileRow(h, y) < |stored| && FileColumn(h, x) < |stored[FileRow(h, y)]|
    && ColorOf(c, stored[FileRow(h, y)][FileColumn(h, x)], h.corrections)
  }

  lemma ArrangedAt(lines: seq<seq<Bytes4>>, h: Header, y: nat, x: nat)
    requires y < |lines| == h.height && x < h.width && forall line :: line in lines ==> |line| == h.width
    ensures FileRow(h, y) < |lines| && |lines[FileRow(h, y)]| == |Arranged(lines, h)[y]| == h.width
    ensures Arranged(lines, h)[y][x] == Decode(lines[FileRow(h, y)][FileColumn(h, x)], h.corrections)
  {
    assert lines[FileRow(h, y)] in lines;
    RowOfArranged(lines, h, y);
    ColumnOfRow(lines[FileRow(h, y)], h, x);
  }

  lemma RowOfArranged(lines: seq<seq<Bytes4>>, h: Header, y: nat)
    requires y < |lines| == h.height
    ensures FileRow(h, y) < |lines|
    ensures Arranged(lines, h)[y] == DecodeLine(View(lines[FileRow(h, y)], h.xIncreasing), h.corrections)
  {
    hide DecodeLine, View;
    assert Place(y, |lines|, !h.yIncreasing) == FileRow(h, y);
  }

  lemma ColumnOfRow(line: seq<Bytes4>, h: Header, x: nat)
    requires x < h.width == |line|
    ensures DecodeLine(View(line, h.xIncreasing), h.corrections)[x] == Decode(line[FileColumn(h, x)], h.corrections)
  {
    hide Decode;
  }

  lemma RowLengths(lines: seq<seq<Bytes4>>, h: Header)
    requires |lines| == h.height && forall line :: line in lines ==> |line| == h.width
    ensures Rectangular(Picture(h.height, h.width, Arranged(lines, h)))
  {
    hide Arranged;
    forall y | 0 <= y < |lines|
      ensures |Arranged(lines, h)[y]| == h.width
    {
      RowOfArranged(lines, h, y);
      assert lines[FileRow(h, y)] in lines;
    }
  }

  /** Every pixel goes to its row and column, and is scaled. */
  lemma ArrangedIsStored(lines: seq<seq<Bytes4>>, h: Header)
    requires |lines| == h.height && forall line :: line in lines ==> |line| == h.width
    ensures IsStoredPicture(Picture(h.height, h.width, Arranged(lines, h)), h, lines)
  {
    hide Decode, Arranged, ColorOf, FileRow, FileColumn;
    RowLengths(lines, h);
    forall y: nat, x: nat | y < h.height && x < h.width
      ensures StoredAt(Arranged(lines, h)[y][x], h, lines, y, x)
    {
      ArrangedAt(lines, h, y, x);
      ColumnBound(h, x);
      DecodedColor(lines[FileRow(h, y)][FileColumn(h, x)], h.corrections);
    }
  }

  lemma ColumnBound(h: Header, x: nat)
    requires x < h.width
    ensures FileColumn(h, x) < h.width
  {
  }

  // --- saved pictures under other headers --------------------------------------------------------

  /** The quantised picture in the orders of the header, each component times its correction. */
  ghost predicate IsScaledPicture(q: Picture<Color>, h: Header, p: Picture<Color>) {
    && q.rows == p.rows == h.height && q.cols == p.cols == h.width && Rectangular(p) && Rectangular(q)
    && forall y: nat, x: nat :: y < q.rows && x < q.cols ==> ScaledAt(q.lines[y][x], h, p, y, x)
  }

  ghost predicate ScaledAt(c: Color, h: Header, p: Picture<Color>, y: nat, x: nat)
    requires y < h.height && x < h.width
  {
    && FileRow(h, y) < |p.lines| && FileColumn(h, x) < |p.lines[FileRow(h, y)]|
    && ScaledBy(c, Quantise(p.lines[FileRow(h, y)][FileColumn(h, x)]), h.corrections)
  }

  /** Opening a saved body under a header of its size, with any orders and any corrections. */
  lemma SavedBodyOpens(bytes: seq<byte>, p: Picture<Color>, h: Header, rest: seq<byte>)
    requires Rectangular(p) && p.cols <= MAX_WIDTH && IsBody(bytes, Encoded(p.lines))
    requires h.height == p.rows && h.width == p.cols
    ensures var u := ParseBody(h, bytes + rest);
      u.Some? && IsScaledPicture(u.value.0, h, p) && u.value.1 == if p.cols == 0 then bytes + rest else rest
  {
    hide UnpackLines, IsBody, Arranged, Encoded;
    EncodedLines(p);
    UnpackBody(bytes, Encoded(p.lines), p.cols, rest);
    ScaledPicture(p, h);
  }

  lemma EncodedLines(p: Picture<Color>)
    requires Rectangular(p)
    ensures |Encoded(p.lines)| == p.rows
    ensures forall y :: 0 <= y < p.rows ==> |Encoded(p.lines)[y]| == p.cols
    ensures forall line :: line in Encoded(p.lines) ==> |line| == p.cols
    ensures forall y: nat, x: nat :: y < p.rows && x < p.cols ==>
      Encoded(p.lines)[y][x] == Encode(p.lines[y][x])
  {
    hide Encode;
  }

  lemma ScaledPicture(p: Picture<Color>, h: Header)
    requires Rectangular(p) && h.height == p.rows && h.width == p.cols
    ensures IsScaledPicture(Picture(h.height, h.width, Arranged(Encoded(p.lines), h)), h, p)
  {
    EncodedLines(p);
    RowLengths(Encoded(p.lines), h);
    hide Encode, Decode, Arranged, Encoded, ScaledBy;
    forall y: nat, x: nat | y < h.height && x < h.width
      ensures ScaledAt(Arranged(Encoded(p.lines), h)[y][x], h, p, y, x)
    {
      ArrangedAt(Encoded(p.lines), h, y, x);
      CorrectionsScale(Encode(p.lines[FileRow(h, y)][FileColumn(h, x)]), h.corrections);
    }
  }

  // --- plain pixels ------------------------------------------------------------------------------

  /** Four bytes that are neither a marker (2, 2, below 128) nor a repeat count (1, 1, 1). */
  predicate IsPlain(b: Bytes4) {
    !(b.b0 == 2 && b.b1 == 2 && b.b2 < 128) && !(b.b0 == 1 && b.b1 == 1 && b.b2 == 1)
  }

  /** The bytes at `4 * i`. */
  function QuadAt(s: seq<byte>, i: nat): Bytes4
    requires 4 * i + 4 <= |s|
  {
    Bytes4(s[4 * i], s[4 * i + 1], s[4 * i + 2], s[4 * i + 3])
  }

  /** The first `n` pixels of `s`, as far as they are there, are plain. */
  ghost predicate AllPlain(s: seq<byte>, n: nat) {
    forall i: nat :: i < n && 4 * i + 4 <= |s| ==> IsPlain(QuadAt(s, i))
  }

  lemma PlainPiece(s: seq<byte>, want: nat)
    requires want > 0 && AllPlain(s, 1)
    ensures UnpackPiece(s, want) == if |s| < 4 then None else Some(([QuadAt(s, 0)], s[4..]))
  {
    hide Zip, UnpackParts, AllPlain;
    if |s| >= 4 {
      FirstIsPlain(s);
      assert FirstFour(s) == QuadAt(s, 0);
    }
  }

  lemma FirstIsPlain(s: seq<byte>)
    requires AllPlain(s, 1) && |s| >= 4
    ensures !IsMarker(QuadAt(s, 0)) && !IsOldRun(QuadAt(s, 0))
  {
    assert IsPlain(QuadAt(s, 0));
  }

  lemma PlainTail(s: seq<byte>, k: nat, n: nat)
    requires AllPlain(s, k + n) && 4 * k <= |s|
    ensures AllPlain(s[4 * k..], n)
  {
    hide IsPlain;
    forall i: nat | i < n && 4 * i + 4 <= |s[4 * k..]|
      ensures IsPlain(QuadAt(s[4 * k..], i))
    {
      assert QuadAt(s[4 * k..], i) == QuadAt(s, k + i);
    }
  }

  lemma {:induction false} PlainScanline(s: seq<byte>, n: nat)
    requires AllPlain(s, n)
    ensures UnpackScanline(s, n).Some? <==> 4 * n <= |s|
    ensures var u := UnpackScanline(s, n); u.Some? ==>
      u.value.1 == s[4 * n..] && forall i: nat :: i < n ==> u.value.0[i] == QuadAt(s, i)
    decreases n
  {
    ScanlineUnfold(s, n);
    hide UnpackPiece, UnpackScanline, IsPlain;
    if n > 0 {
      PlainPiece(s, n);
      if |s| >= 4 {
        PlainTail(s, 1, n - 1);
        PlainScanline(s[4..], n - 1);
        var u, v := UnpackScanline(s, n), UnpackScanline(s[4..], n - 1);
        if u.Some? {
          assert s[4..][4 * (n - 1)..] == s[4 * n..];
          forall i: nat | i < n
            ensures u.value.0[i] == QuadAt(s, i)
          {
            if i > 0 {
              assert u.value.0[i] == v.value.0[i - 1] == QuadAt(s[4..], i - 1);
            }
          }
        }
      }
    }
  }

  /** Pixel `q` of scanline `p` is quad number `p * width + q`. */
  ghost predicate QuadsAt(lines: seq<seq<Bytes4>>, s: seq<byte>, width: nat) {
    forall p: nat, q: nat :: p < |lines| && q < |lines[p]| ==> IsQuad(lines[p][q], s, Offset(p, width) + q)
  }

  predicate IsQuad(b: Bytes4, s: seq<byte>, i: nat) {
    4 * i + 4 <= |s| && b == QuadAt(s, i)
  }

  lemma NextQuads(s: seq<byte>, first: seq<Bytes4>, lines: seq<seq<Bytes4>>, width: nat)
    requires |first| == width && 4 * width <= |s| && forall i: nat :: i < width ==> first[i] == QuadAt(s, i)
    requires QuadsAt(lines, s[4 * width..], width)
    ensures QuadsAt([first] + lines, s, width)
  {
    var all := [first] + lines;
    forall p: nat, q: nat | p < |all| && q < |all[p]|
      ensures IsQuad(all[p][q], s, Offset(p, width) + q)
    {
      if p > 0 {
        assert all[p] == lines[p - 1];
        QuadBehind(lines[p - 1][q], s, width, Offset(p - 1, width) + q);
      }
    }
  }

  lemma QuadBehind(b: Bytes4, s: seq<byte>, skip: nat, i: nat)
    requires 4 * skip <= |s| && IsQuad(b, s[4 * skip..], i)
    ensures IsQuad(b, s, skip + i)
  {
  }

  lemma {:induction false} PlainLines(s: seq<byte>, count: nat, width: nat)
    requires AllPlain(s, Offset(count, width))
    ensures UnpackLines(s, count, width).Some? <==> 4 * Offset(count, width) <= |s|
    ensures var u := UnpackLines(s, count, width); u.Some? ==>
      u.value.1 == s[4 * Offset(count, width)..] && QuadsAt(u.value.0, s, width)
    decreases count
  {
    LinesUnfold(s, count, width);
    hide UnpackLines, UnpackScanline, AllPlain, QuadsAt;
    if count == 0 {
      NoQuads(s, width);
    } else {
      var n := Offset(count - 1, width);
      assert Offset(count, width) == width + n;
      hide Offset;
      FirstPlain(s, width, n);
      PlainScanline(s, width);
      if 4 * width <= |s| {
        PlainTail(s, width, n);
        PlainLines(s[4 * width..], count - 1, width);
        SliceTwice(s, 4 * width, 4 * n);
        var v := UnpackLines(s[4 * width..], count - 1, width);
        if v.Some? {
          NextQuads(s, UnpackScanline(s, width).value.0, v.value.0, width);
        }
      }
    }
  }

  lemma FirstPlain(s: seq<byte>, n: nat, more: nat)
    requires AllPlain(s, n + more)
    ensures AllPlain(s, n)
  {
  }

  lemma SliceTwice(s: seq<byte>, a: nat, b: nat)
    ensures a + b <= |s| ==> s[a..][b..] == s[a + b..]
  {
  }

  lemma NoQuads(s: seq<byte>, width: nat)
    ensures QuadsAt([], s, width)
  {
  }

  /** Pixel (y, x) comes from the four bytes at `4 * (p * width + q)`, its place in the file. */
  ghost predicate IsPlainPicture(p: Picture<Color>, h: Header, body: seq<byte>) {
    && p.rows == h.height && p.cols == h.width && Rectangular(p)
    && forall y: nat, x: nat :: y < p.rows && x < p.cols ==> PlainAt(p.lines[y][x], h, body, y, x)
  }

  function PixelNumber(h: Header, y: nat, x: nat): nat
    requires y < h.height && x < h.width
  {
    FileRow(h, y) * h.width + FileColumn(h, x)
  }

  predicate PlainAt(c: Color, h: Header, body: seq<byte>, y: nat, x: nat)
    requires y < h.height && x < h.width
  {
    4 * PixelNumber(h, y, x) + 4 <= |body| && ColorOf(c, QuadAt(body, PixelNumber(h, y, x)), h.corrections)
  }

  function Area(h: Header): nat {
    h.height * h.width
  }

  /**
   A body of plain pixels under any header: every pixel comes to its place, scaled, and what follows the
   pixels is left over.  There is no result if and only if the pixels are not all there.
   */
  lemma PlainBody(h: Header, body: seq<byte>)
    requires AllPlain(body, Area(h))
    ensures match ParseBody(h, body)
      case None => |body| < 4 * Area(h)
      case Some((p, rest)) => 4 * Area(h) <= |body| && rest == body[4 * Area(h)..] && IsPlainPicture(p, h, body)
  {
    hide UnpackLines, Arranged, AllPlain, QuadsAt, IsPlainPicture;
    OffsetIsProduct(h.height, h.width);
    PlainLines(body, h.height, h.width);
    var u := UnpackLines(body, h.height, h.width);
    if u.Some? {
      PlainPicture(u.value.0, h, body);
    }
  }

  lemma PlainPicture(lines: seq<seq<Bytes4>>, h: Header, body: seq<byte>)
    requires |lines| == h.height && (forall line :: line in lines ==> |line| == h.width)
    requires QuadsAt(lines, body, h.width)
    ensures IsPlainPicture(Picture(h.height, h.width, Arranged(lines, h)), h, body)
  {
    hide Arranged, Decode, ColorOf, QuadsAt;
    RowLengths(lines, h);
    forall y: nat, x: nat | y < h.height && x < h.width
      ensures PlainAt(Arranged(lines, h)[y][x], h, body, y, x)
    {
      ArrangedAt(lines, h, y, x);
      var p, q := FileRow(h, y), FileColumn(h, x);
      DecodedColor(lines[p][q], h.corrections);
      QuadsAtOne(lines, body, h.width, p, q);
      OffsetIsProduct(p, h.width);
    }
  }

  lemma QuadsAtOne(lines: seq<seq<Bytes4>>, s: seq<byte>, width: nat, p: nat, q: nat)
    requires QuadsAt(lines, s, width) && p < |lines| && q < |lines[p]|
    ensures IsQuad(lines[p][q], s, Offset(p, width) + q)
  {
  }

  // --- coded pieces ------------------------------------------------------------------------------

  /** A literal span is its length and its values; a repeated value is 128 more than its count and the value. */
  function SpanBytes(p: Packet<byte>): seq<byte>
    requires IsSpan(p)
  {
    match p
    case Raw(values) => [|values|] + values
    case Run(value, count) => [128 + count, value]
  }

  predicate IsSpan(p: Packet<byte>) {
    1 <= Length(p) <= if p.Raw? then 128 else 127
  }

  function SpanValues(p: Packet<byte>): (s: seq<byte>)
    ensures |s| == Length(p)
  {
    match p
    case Raw(values) => values
    case Run(value, count) => seq(count, _ => value)
  }

  predicate AreSpans(ps: seq<Packet<byte>>) {
    forall p :: p in ps ==> IsSpan(p)
  }

  function PartBytes(ps: seq<Packet<byte>>): seq<byte>
    requires AreSpans(ps)
  {
    if ps == [] then [] else SpanBytes(ps[0]) + PartBytes(ps[1..])
  }

  function PartValues(ps: seq<Packet<byte>>): seq<byte> {
    if ps == [] then [] else SpanValues(ps[0]) + PartValues(ps[1..])
  }

  /** One pixel as it is, or `width` pixels in four components of spans. */
  datatype Piece =
    | Plain(pixel: Bytes4)
    | Coded(width: nat, r: seq<Packet<byte>>, g: seq<Packet<byte>>, b: seq<Packet<byte>>, e: seq<Packet<byte>>)

  predicate IsPart(ps: seq<Packet<byte>>, width: nat) {
    AreSpans(ps) && |PartValues(ps)| == width
  }

  predicate IsPiece(p: Piece) {
    match p
    case Plain(pixel) => IsPlain(pixel)
    case Coded(width, r, g, b, e) =>
      1 <= width <= 0x7fff && IsPart(r, width) && IsPart(g, width) && IsPart(b, width) && IsPart(e, width)
  }

  function PieceBytes(p: Piece): seq<byte>
    requires IsPiece(p)
  {
    match p
    case Plain(pixel) => [pixel.b0, pixel.b1, pixel.b2, pixel.b3]
    case Coded(width, r, g, b, e) =>
      [2, 2, width / 256, width % 256] + (PartBytes(r) + (PartBytes(g) + (PartBytes(b) + PartBytes(e))))
  }

  function PiecePixels(p: Piece): (s: seq<Bytes4>)
    requires IsPiece(p)
    ensures |s| >= 1
  {
    match p
    case Plain(pixel) => [pixel]
    case Coded(width, r, g, b, e) =>
      seq(width, x requires 0 <= x < width =>
        Bytes4(PartValues(r)[x], PartValues(g)[x], PartValues(b)[x], PartValues(e)[x]))
  }

  predicate ArePieces(ps: seq<Piece>) {
    forall p :: p in ps ==> IsPiece(p)
  }

  function LineBytes(ps: seq<Piece>): seq<byte>
    requires ArePieces(ps)
  {
    if ps == [] then [] else PieceBytes(ps[0]) + LineBytes(ps[1..])
  }

  function LinePixels(ps: seq<Piece>): seq<Bytes4>
    requires ArePieces(ps)
  {
    if ps == [] then [] else PiecePixels(ps[0]) + LinePixels(ps[1..])
  }

  predicate AreLines(lines: seq<seq<Piece>>) {
    forall ps :: ps in lines ==> ArePieces(ps)
  }

  function BodyBytes(lines: seq<seq<Piece>>): seq<byte>
    requires AreLines(lines)
  {
    if lines == [] then [] else LineBytes(lines[0]) + BodyBytes(lines[1..])
  }

  function BodyPixels(lines: seq<seq<Piece>>): (s: seq<seq<Bytes4>>)
    requires AreLines(lines)
    ensures |s| == |lines|
    ensures forall k: nat :: k < |lines| ==> (AreLinesAt(lines, k); s[k] == LinePixels(lines[k]))
  {
    if lines == [] then [] else [LinePixels(lines[0])] + BodyPixels(lines[1..])
  }

  lemma AreLinesAt(lines: seq<seq<Piece>>, k: nat)
    requires AreLines(lines) && k < |lines|
    ensures ArePieces(lines[k])
  {
  }

  lemma UnpackSpan(p: Packet<byte>, want: nat, rest: seq<byte>)
    requires IsSpan(p) && Length(p) <= want
    ensures RadianceRle.UnpackOne(SpanBytes(p) + rest, want) == Some((SpanValues(p), rest))
  {
    match p {
      case Raw(values) =>
        UnpackLiteral(values, want, rest);
      case Run(value, count) =>
        UnpackRepeat(value, count, want, rest);
    }
  }

  lemma UnpackLiteral(values: seq<byte>, want: nat, rest: seq<byte>)
    requires 1 <= |values| <= 128 && |values| <= want
    ensures RadianceRle.UnpackOne(SpanBytes(Raw(values)) + rest, want) == Some((values, rest))
  {
    var tag: byte := |values|;
    var s := [tag] + (values + rest);
    assert SpanBytes(Raw(values)) + rest == s;
    hide SpanBytes;
    assert s[1..1 + |values|] == values && s[1 + |values|..] == rest;
  }

  lemma UnpackRepeat(value: byte, count: nat, want: nat, rest: seq<byte>)
    requires 1 <= count <= 127 && count <= want
    ensures RadianceRle.UnpackOne(SpanBytes(Run(value, count)) + rest, want) == Some((seq(count, _ => value), rest))
  {
    var tag: byte := 128 + count;
    var s := [tag, value] + rest;
    assert SpanBytes(Run(value, count)) + rest == s;
    hide SpanBytes;
    assert s[2..] == rest;
  }

  lemma {:induction false} UnpackPart(ps: seq<Packet<byte>>, rest: seq<byte>)
    requires AreSpans(ps)
    ensures RadianceRle.Unpack(PartBytes(ps) + rest, |PartValues(ps)|) == Some((PartValues(ps), rest))
    decreases |ps|
  {
    hide SpanBytes, SpanValues, RadianceRle.UnpackOne;
    if ps == [] {
      assert PartBytes(ps) + rest == rest;
    } else {
      assert ps[0] in ps;
      var more := PartBytes(ps[1..]);
      UnpackPart(ps[1..], rest);
      Associate(SpanBytes(ps[0]), more, rest);
      UnpackSpan(ps[0], |PartValues(ps)|, more + rest);
    }
  }

  lemma PartsStep(ps: seq<Packet<byte>>, width: nat, tail: seq<byte>, count: nat, parts: seq<seq<byte>>,
                  rest: seq<byte>)
    requires IsPart(ps, width) && UnpackParts(tail, width, count) == Some((parts, rest))
    ensures UnpackParts(PartBytes(ps) + tail, width, count + 1) == Some(([PartValues(ps)] + parts, rest))
  {
    hide UnpackParts, PartBytes, PartValues, AreSpans, RadianceRle.Unpack;
    UnpackPart(ps, tail);
    PartsUnfold(PartBytes(ps) + tail, width, count + 1);
  }

  lemma UnpackFourParts(p: Piece, rest: seq<byte>)
    requires IsPiece(p) && p.Coded?
    ensures UnpackParts(PartBytes(p.r) + (PartBytes(p.g) + (PartBytes(p.b) + (PartBytes(p.e) + rest))), p.width, 4)
      == Some(([PartValues(p.r), PartValues(p.g), PartValues(p.b), PartValues(p.e)], rest))
  {
    hide UnpackParts, PartBytes, PartValues, AreSpans;
    var r, g, b, e := PartValues(p.r), PartValues(p.g), PartValues(p.b), PartValues(p.e);
    PartsUnfold(rest, p.width, 0);
    PartsStep(p.e, p.width, rest, 0, [], rest);
    assert [e] + [] == [e];
    PartsStep(p.b, p.width, PartBytes(p.e) + rest, 1, [e], rest);
    assert [b] + [e] == [b, e];
    PartsStep(p.g, p.width, PartBytes(p.b) + (PartBytes(p.e) + rest), 2, [b, e], rest);
    assert [g] + [b, e] == [g, b, e];
    PartsStep(p.r, p.width, PartBytes(p.g) + (PartBytes(p.b) + (PartBytes(p.e) + rest)), 3, [g, b, e], rest);
    assert [r] + [g, b, e] == [r, g, b, e];
  }

  lemma FourAndRest(a: seq<byte>, b: seq<byte>, c: seq<byte>, d: seq<byte>, rest: seq<byte>)
    ensures (a + (b + (c + d))) + rest == a + (b + (c + (d + rest)))
  {
    Associate(a, b + (c + d), rest);
    Associate(b, c + d, rest);
    Associate(c, d, rest);
  }

  lemma UnpackStoredPiece(p: Piece, want: nat, rest: seq<byte>)
    requires IsPiece(p) && |PiecePixels(p)| <= want
    ensures UnpackPiece(PieceBytes(p) + rest, want) == Some((PiecePixels(p), rest))
  {
    hide UnpackPiece, UnpackParts, PartBytes, PartValues, AreSpans, Zip, IsMarker, MarkedWidth, FirstFour;
    match p {
      case Plain(pixel) =>
        UnpackPlain(pixel, want, rest);
      case Coded(width, r, g, b, e) =>
        hide PieceBytes;
        CodedBytes(p, rest);
        UnpackFourParts(p, rest);
        var values := [PartValues(r), PartValues(g), PartValues(b), PartValues(e)];
        UnpackCodedPiece(PieceBytes(p) + rest, want, values, rest);
        ZippedPixels(p);
    }
  }

  lemma UnpackPlain(pixel: Bytes4, want: nat, rest: seq<byte>)
    requires IsPlain(pixel) && want >= 1
    ensures UnpackPiece([pixel.b0, pixel.b1, pixel.b2, pixel.b3] + rest, want) == Some(([pixel], rest))
  {
    var s := [pixel.b0, pixel.b1, pixel.b2, pixel.b3] + rest;
    assert s[4..] == rest && FirstFour(s) == pixel;
  }

  lemma CodedBytes(p: Piece, rest: seq<byte>)
    requires IsPiece(p) && p.Coded?
    ensures var s := PieceBytes(p) + rest;
      && |s| >= 4 && IsMarker(FirstFour(s)) && MarkedWidth(FirstFour(s)) == p.width
      && s[4..] == PartBytes(p.r) + (PartBytes(p.g) + (PartBytes(p.b) + (PartBytes(p.e) + rest)))
  {
    hide PartBytes, PartValues, AreSpans, IsMarker, MarkedWidth, FirstFour;
    FourAndRest(PartBytes(p.r), PartBytes(p.g), PartBytes(p.b), PartBytes(p.e), rest);
    var parts := PartBytes(p.r) + (PartBytes(p.g) + (PartBytes(p.b) + PartBytes(p.e)));
    BehindFour(p.width, parts, rest);
  }

  lemma BehindFour(width: nat, parts: seq<byte>, rest: seq<byte>)
    requires width <= 0x7fff
    ensures var s := ([2, 2, width / 256, width % 256] + parts) + rest;
      IsMarker(FirstFour(s)) && MarkedWidth(FirstFour(s)) == width && s[4..] == parts + rest
  {
  }

  lemma ZippedPixels(p: Piece)
    requires IsPiece(p) && p.Coded?
    ensures Zip([PartValues(p.r), PartValues(p.g), PartValues(p.b), PartValues(p.e)], p.width) == PiecePixels(p)
  {
    hide PartValues, AreSpans;
  }

  lemma {:induction false} UnpackStoredLine(ps: seq<Piece>, rest: seq<byte>)
    requires ArePieces(ps)
    ensures UnpackScanline(LineBytes(ps) + rest, |LinePixels(ps)|) == Some((LinePixels(ps), rest))
    decreases |ps|
  {
    hide PieceBytes, PiecePixels, UnpackPiece, IsPiece, UnpackScanline;
    ScanlineUnfold(LineBytes(ps) + rest, |LinePixels(ps)|);
    if ps == [] {
      assert LineBytes(ps) + rest == rest;
    } else {
      assert ps[0] in ps;
      var more := LineBytes(ps[1..]);
      UnpackStoredLine(ps[1..], rest);
      Associate(PieceBytes(ps[0]), more, rest);
      UnpackStoredPiece(ps[0], |LinePixels(ps)|, more + rest);
    }
  }

  lemma {:induction false} UnpackStoredLines(lines: seq<seq<Piece>>, width: nat, rest: seq<byte>)
    requires AreLines(lines) && forall line :: line in BodyPixels(lines) ==> |line| == width
    ensures UnpackLines(BodyBytes(lines) + rest, |lines|, width) == Some((BodyPixels(lines), rest))
    decreases |lines|
  {
    hide LineBytes, LinePixels, UnpackScanline, ArePieces, UnpackLines;
    LinesUnfold(BodyBytes(lines) + rest, |lines|, width);
    if lines == [] {
      assert BodyBytes(lines) + rest == rest;
    } else {
      assert lines[0] in lines;
      var more := BodyBytes(lines[1..]);
      assert LinePixels(lines[0]) in BodyPixels(lines);
      assert forall line :: line in BodyPixels(lines[1..]) ==> line in BodyPixels(lines);
      UnpackStoredLines(lines[1..], width, rest);
      Associate(LineBytes(lines[0]), more, rest);
      UnpackStoredLine(lines[0], more + rest);
    }
  }

  /**
   A body whose scanlines are plain pixels and coded pieces in any order, of any spans that end with their
   piece, under any header: every pixel comes to its place, scaled, and what follows is left over.
   */
  lemma StoredBody(h: Header, lines: seq<seq<Piece>>, rest: seq<byte>)
    requires AreLines(lines) && |lines| == h.height && forall line :: line in BodyPixels(lines) ==> |line| == h.width
    ensures var u := ParseBody(h, BodyBytes(lines) + rest);
      u.Some? && u.value.1 == rest && IsStoredPicture(u.value.0, h, BodyPixels(lines))
  {
    hide UnpackLines, Arranged, BodyPixels, BodyBytes, AreLines, IsStoredPicture;
    UnpackStoredLines(lines, h.width, rest);
    ArrangedIsStored(BodyPixels(lines), h);
  }

  // --- what the saver writes for a component -----------------------------------------------------

  /**
   A saved component starts with a run of 3 to 127 equal values, as long as it can be, if its first three
   values are equal; otherwise with 1 to 128 values as they are, up to the next three equal ones.  What
   follows is the saved rest of the component.
   */
  lemma SavedChannelStarts(bytes: seq<byte>, line: seq<byte>) returns (n: nat)
    requires RadianceRle.Packed(bytes, line) && line != []
    ensures 1 <= n <= 128 && n <= |line|
    ensures if ThreeEqual(line, 0) then
        && 3 <= n <= 127 && (forall i :: 0 <= i < n ==> line[i] == line[0])
        && (n < 127 && n < |line| ==> line[n] != line[0])
        && bytes == [128 + n, line[0]] + bytes[2..] && RadianceRle.Packed(bytes[2..], line[n..])
      else
        && (forall i :: 0 <= i < n ==> !ThreeEqual(line, i)) && (n < 128 && n < |line| ==> ThreeEqual(line, n))
        && |bytes| >= 1 + n && bytes[..1 + n] == [n] + line[..n] && RadianceRle.Packed(bytes[1 + n..], line[n..])
  {
    var p, tail := FirstPacket(bytes, line);
    n := Length(p);
    StepMeans(p, line);
    PacketInFront(p, tail);
    hide RadianceRle.PacketBytes, Step, RadianceRle.Packed, ThreeEqual;
  }

  predicate ThreeEqual(line: seq<byte>, i: nat) {
    i + 2 < |line| && line[i] == line[i + 1] == line[i + 2]
  }

  lemma FirstPacket(bytes: seq<byte>, line: seq<byte>) returns (p: Packet<byte>, tail: seq<byte>)
    requires RadianceRle.Packed(bytes, line) && line != []
    ensures Step(p, line, 0, RadianceRle.LIMITS) && 1 <= Length(p) <= |line|
    ensures bytes == RadianceRle.PacketBytes(p) + tail && RadianceRle.Packed(tail, line[Length(p)..])
  {
    hide Step, Covers, Length, RadianceRle.PacketBytes;
    var ps :| Covers(ps, line, 0, |line|, RadianceRle.LIMITS) && bytes == RadianceRle.ChannelBytes(ps);
    CoversUnfold(ps, line, 0, |line|, RadianceRle.LIMITS);
    CoversNothing(line, RadianceRle.LIMITS);
    p, tail := ps[0], RadianceRle.ChannelBytes(ps[1..]);
    CoversBehind(ps[1..], line, Length(p), 0, RadianceRle.LIMITS);
  }

  lemma RunOfThree(line: seq<byte>)
    ensures forall i: nat :: RunAt(line, i, 3) <==> ThreeEqual(line, i)
  {
  }

  lemma StepMeans(p: Packet<byte>, line: seq<byte>)
    requires Step(p, line, 0, RadianceRle.LIMITS)
    ensures 1 <= Length(p) <= 128 && Length(p) <= |line|
    ensures p.Run? <==> ThreeEqual(line, 0)
    ensures p.Run? ==>
      && p.item == line[0] && 3 <= p.count <= 127 && (forall i :: 0 <= i < p.count ==> line[i] == line[0])
      && (p.count < 127 && p.count < |line| ==> line[p.count] != line[0])
    ensures p.Raw? ==>
      var n := |p.items|;
      && p.items == line[..n] && (forall i :: 0 <= i < n ==> !ThreeEqual(line, i))
      && (n < 128 && n < |line| ==> ThreeEqual(line, n))
  {
    RunOfThree(line);
    hide RunAt;
  }

  lemma PacketInFront(p: Packet<byte>, tail: seq<byte>)
    requires 1 <= Length(p) <= 128
    ensures var bytes := RadianceRle.PacketBytes(p) + tail;
      && (p.Run? && p.count <= 127 ==> bytes == [128 + p.count, p.item] + bytes[2..] && bytes[2..] == tail)
      && (p.Raw? ==>
            var n := |p.items|;
            |bytes| >= 1 + n && bytes[..1 + n] == [n] + p.items && bytes[1 + n..] == tail)
  {
    var first := RadianceRle.PacketBytes(p);
    assert (first + tail)[..|first|] == first && (first + tail)[|first|..] == tail;
  }

  // --- black pixels ------------------------------------------------------------------------------

  /** Exactly the pixels whose largest component is below 10^-32 are saved as four zero bytes. */
  lemma BlackExactly(p: Color)
    ensures Encode(p) == Bytes4(0, 0, 0, 0) <==> p.Max() * 100000000000000000000000000000000.0 < 1.0
  {
    if p.Max() >= THRESHOLD {
      EncodedBytes(p, 0);
    }
    hide Normalized, Mantissa, Exponent, Pow2;
  }

  // --- the marker --------------------------------------------------------------------------------

  /** A saved scanline starts with 2, 2 and its width, highest byte first. */
  lemma SavedScanlineStarts(bytes: seq<byte>, line: seq<Bytes4>)
    requires IsScanline(bytes, line) && |line| <= 0x7fff
    ensures |bytes| >= 4 && bytes[..4] == [2, 2, |line| / 256, |line| % 256]
  {
    hide IsParts;
  }
}
