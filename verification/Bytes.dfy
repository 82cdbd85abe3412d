/** Bytes, four-byte pixels and the tag-bit arithmetic the image codecs share. */
module Bytes {

  type byte = b: int | 0 <= b < 256

  /** `impl::Bytes4`: four bytes, all zero by default. */
  datatype Bytes4 = Bytes4(b0: byte, b1: byte, b2: byte, b3: byte) {
    function ToBytes(): (s: seq<byte>)
      ensures |s| == 4
    {
      [b0, b1, b2, b3]
    }

    /** `operator[]`. */
    function Get(k: nat): byte
      requires k < 4
    {
      ToBytes()[k]
    }

    function With(k: nat, v: byte): (b: Bytes4)
      requires k < 4
      ensures forall j :: 0 <= j < 4 ==> b.Get(j) == if j == k then v else Get(j)
    {
      match k
      case 0 => this.(b0 := v)
      case 1 => this.(b1 := v)
      case 2 => this.(b2 := v)
      case _ => this.(b3 := v)
    }
  }

  const ZERO4 := Bytes4(0, 0, 0, 0)

  datatype Option<+T> = None | Some(value: T)

  datatype Result<+T, +E> = Success(value: T) | Failure(error: E)

  /** `b & 0x80` as a truth value. */
  predicate HighBit(b: byte) {
    b >= 0x80
  }

  /** `b & 0x7f`. */
  function Low7(b: byte): byte {
    b % 0x80
  }

  /** `b | 0x80`. */
  function SetHighBit(b: byte): byte {
    if b < 0x80 then b + 0x80 else b
  }

  /** The three functions above are the bit operations of the source. */
  lemma TagBitsAreBitOperations(b: bv8)
    ensures HighBit(b as int) <==> b & 0x80 != 0
    ensures Low7(b as int) == (b & 0x7f) as int
    ensures SetHighBit(b as int) == (b | 0x80) as int
  {
    assert b & 0x80 != 0 <==> b >= 0x80;
    if b < 0x80 {
      assert b & 0x7f == b;
      assert b | 0x80 == b + 0x80;
    } else {
      assert b & 0x7f == b - 0x80;
      assert b | 0x80 == b;
    }
  }

  /** The bytes of a sequence of pixels, in order. */
  function Flatten(pixels: seq<Bytes4>): (s: seq<byte>)
    ensures |s| == 4 * |pixels|
  {
    if pixels == [] then [] else pixels[0].ToBytes() + Flatten(pixels[1..])
  }

  lemma {:induction false} FlattenAppend(pixels: seq<Bytes4>, p: Bytes4)
    ensures Flatten(pixels + [p]) == Flatten(pixels) + p.ToBytes()
  {
    if pixels == [] {
      assert (pixels + [p])[1..] == [];
    } else {
      FlattenAppend(pixels[1..], p);
      assert (pixels + [p])[1..] == pixels[1..] + [p];
    }
  }

  lemma Rejoin(s: seq<byte>, k: nat, a: seq<byte>, b: seq<byte>)
    requires k <= |s| && a + b == s[k..]
    ensures (s[..k] + a) + b == s
  {
    assert (s[..k] + a) + b == s[..k] + (a + b);
  }

  lemma Associate(a: seq<byte>, b: seq<byte>, c: seq<byte>)
    ensures (a + b) + c == a + (b + c)
  {
  }
}
