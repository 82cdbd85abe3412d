/** The bytes of numbers, written out: which byte of a number goes where. */
module WireFormat {
  import opened Arithmetic
  import opened Bytes
  import opened Endian

  /** Byte `k` of a number, the lowest first, is its digit `k` to base 256. */
  lemma {:induction false} LowByteIsDigit(v: nat, width: nat, k: nat)
    requires k < width
    ensures LowBytes(v, width)[k] == (v / Pow256(k)) % 256
    decreases k
  {
    if k == 0 {
      assert Pow256(0) == 1;
    } else {
      LowByteIsDigit(v / 256, width - 1, k - 1);
      DivideTwice(v, 256, Pow256(k - 1));
    }
  }

  lemma DivideTwice(v: nat, a: nat, b: nat)
    requires a >= 1 && b >= 1
    ensures a * b >= 1 && (v / a) / b == v / (a * b)
  {
    MulAtLeast(a, b);
    ModSplit(v, a, b);
    var q := (v / a) / b;
    var r := v % a + a * ((v / a) % b);
    assert v == a * (v / a) + v % a;
    assert v / a == b * q + (v / a) % b;
    assert a * (b * q + (v / a) % b) == a * (b * q) + a * ((v / a) % b);
    assert a * (b * q) == q * (a * b);
    DivModUnique(v, a * b, q, r);
  }

  /** The stream's order alone decides, not the machine's. */
  lemma StreamOrder(v: nat, width: nat, bytes: seq<byte>, system: Endianness)
    ensures WrittenBytes(v, width, LittleEndian, system) == LowBytes(v, width)
    ensures WrittenBytes(v, width, BigEndian, system) == Reverse(LowBytes(v, width))
    ensures ReadBack(bytes, LittleEndian, system) == FromLowBytes(bytes)
    ensures ReadBack(bytes, BigEndian, system) == FromLowBytes(Reverse(bytes))
  {
    hide LowBytes, FromLowBytes, Reverse;
    ReverseTwice(LowBytes(v, width));
    ReverseTwice(bytes);
  }

  /** Lowest byte first in little-endian order, last in big-endian order. */
  lemma WrittenByteIsDigit(v: nat, width: nat, k: nat, system: Endianness)
    requires k < width
    ensures WrittenBytes(v, width, LittleEndian, system)[k] == (v / Pow256(k)) % 256
    ensures WrittenBytes(v, width, BigEndian, system)[width - 1 - k] == (v / Pow256(k)) % 256
  {
    LowByteIsDigit(v, width, k);
    hide Pow256, LowBytes, WrittenBytes, Reverse;
    StreamOrder(v, width, [], system);
    assert Reverse(LowBytes(v, width))[width - 1 - k] == LowBytes(v, width)[k];
  }

  /** One byte and two bytes, read. */
  lemma SmallNumbers(a: byte, b: byte, system: Endianness, order: Endianness)
    ensures ReadBack([a], order, system) == a
    ensures ReadBack([a, b], LittleEndian, system) == a + 256 * b
    ensures ReadBack([a, b], BigEndian, system) == 256 * a + b
  {
    StreamOrder(0, 0, [a], system);
    StreamOrder(0, 0, [a, b], system);
    hide ReadBack;
    assert Reverse([a, b]) == [b, a] && Reverse([a]) == [a];
    TwoLowBytes(a, b);
    TwoLowBytes(b, a);
  }

  lemma TwoLowBytes(a: byte, b: byte)
    ensures FromLowBytes([a]) == a && FromLowBytes([a, b]) == a + 256 * b
  {
    assert [a, b][1..] == [b] && [a][1..] == [] && [b][1..] == [];
    assert FromLowBytes([b]) == b;
  }
}
