/**
 Fixed-width integers as bytes, and the byte-order correction that `readValue` and
 `writeValue` apply.  An integer lives in memory in the order of the machine
 (`systemEndian`); `fixEndianness` reverses it when the stream asks for the other order.
 */
module Endian {
  import opened Arithmetic
  import opened Bytes

  datatype Endianness = LittleEndian | BigEndian

  function Pow256(n: nat): (r: nat)
    ensures r >= 1
  {
    if n == 0 then 1 else 256 * Pow256(n - 1)
  }

  /** The `width` low bytes of `v`, least significant first. */
  function LowBytes(v: nat, width: nat): (s: seq<byte>)
    ensures |s| == width
  {
    if width == 0 then [] else [v % 256] + LowBytes(v / 256, width - 1)
  }

  function FromLowBytes(s: seq<byte>): nat {
    if s == [] then 0 else s[0] + 256 * FromLowBytes(s[1..])
  }

  function Reverse(s: seq<byte>): (r: seq<byte>)
    ensures |r| == |s|
    ensures forall i :: 0 <= i < |s| ==> r[i] == s[|s| - 1 - i]
  {
    if s == [] then [] else Reverse(s[1..]) + [s[0]]
  }

  /** The object representation of an unsigned value on a machine of byte order `system`. */
  function InMemory(v: nat, width: nat, system: Endianness): (s: seq<byte>)
    ensures |s| == width
  {
    if system == LittleEndian then LowBytes(v, width) else Reverse(LowBytes(v, width))
  }

  function FromMemory(s: seq<byte>, system: Endianness): nat {
    FromLowBytes(if system == LittleEndian then s else Reverse(s))
  }

  /** `fixEndianness` on an object representation. */
  function FixEndianness(s: seq<byte>, stream: Endianness, system: Endianness): (r: seq<byte>)
    ensures |r| == |s|
  {
    if stream == system then s else Reverse(s)
  }

  /** The bytes `writeValue` hands to `doWrite`. */
  function WrittenBytes(v: nat, width: nat, stream: Endianness, system: Endianness): (s: seq<byte>)
    ensures |s| == width
  {
    FixEndianness(InMemory(v, width, system), stream, system)
  }

  /** The value `readValue` makes of the bytes it got from `doRead`. */
  function ReadBack(s: seq<byte>, stream: Endianness, system: Endianness): nat {
    FromMemory(FixEndianness(s, stream, system), system)
  }

  lemma {:induction false} LowBytesInverse(v: nat, width: nat)
    ensures FromLowBytes(LowBytes(v, width)) == v % Pow256(width)
  {
    if width == 0 {
    } else {
      LowBytesInverse(v / 256, width - 1);
      assert LowBytes(v, width)[1..] == LowBytes(v / 256, width - 1);
      ModSplit(v, 256, Pow256(width - 1));
    }
  }

  lemma ReverseTwice(s: seq<byte>)
    ensures Reverse(Reverse(s)) == s
  {
  }

  /**
   What one machine writes another reads back, whatever the byte orders of the two machines,
   as long as both streams use the same order.
   */
  lemma ReadBackInvertsWritten(v: nat, width: nat, stream: Endianness, writer: Endianness, reader: Endianness)
    requires v < Pow256(width)
    ensures ReadBack(WrittenBytes(v, width, stream, writer), stream, reader) == v
  {
    var low := LowBytes(v, width);
    LowBytesInverse(v, width);
    ReverseTwice(low);
    DivModUnique(v, Pow256(width), 0, v);
  }

  /** The bytes in the stream depend on the order of the stream, never on the machine. */
  lemma WrittenBytesArePortable(v: nat, width: nat, stream: Endianness, system: Endianness)
    ensures WrittenBytes(v, width, stream, system)
         == if stream == LittleEndian then LowBytes(v, width) else Reverse(LowBytes(v, width))
  {
    ReverseTwice(LowBytes(v, width));
  }
}
