/** The bytes of typed values, written out, and what single bytes are extracted as. */
module ItemFormat {
  import opened Bytes
  import opened Endian
  import opened MemoryBlock
  import opened Serialization
  import opened StreamState
  import opened WireFormat
  import InputSocket
  import SocketSerialization

  /** A bool is one byte, 1 or 0, in either order. */
  lemma WrittenBool(b: bool, stream: Endianness, system: Endianness)
    ensures Bool(b).Written(stream, system) == [if b then 1 else 0]
  {
    hide WrittenBytes;
    assert Pow256(0) == 1 && (if b then 1 else 0) / 1 == if b then 1 else 0;
    WrittenByteIsDigit(if b then 1 else 0, 1, 0, system);
    assert |WrittenBytes(if b then 1 else 0, 1, stream, system)| == 1;
  }

  /** From memory: 0 is false and each of the other 255 bytes is true; at the end of the block there is nothing. */
  lemma ExtractedBool(c: Cursor, m: Machine)
    requires c.Valid() && c.block.Some? && c.state == GOOD && m.Valid()
    ensures ReadItem(c, BoolKind, m) ==
      if c.position < c.size then (c.(position := c.position + 1), Some(Bool(c.block.value[c.position] != 0)))
      else (c.(state := IoState(true, false, false)), None)
  {
    hide ReadBack;
    if c.position < c.size {
      var v := c.block.value[c.position];
      assert c.Ahead(1) == [v];
      assert [v] + m.scratch[1..1] == [v];
      SmallNumbers(v, 0, m.system, m.stream);
    }
  }

  /** From a socket: the same of the next byte, unless the read fails. */
  lemma ReceivedBool(r: InputSocket.Reader, m: Machine)
    requires r.state == GOOD && r.connected
    ensures var (d, x) := SocketSerialization.ReadItem(r, BoolKind, m);
      && (d.state.IsGood() ==>
            r.incoming != [] && x == Some(Bool(r.incoming[0] != 0)) && d.incoming == r.incoming[1..])
      && (!d.state.IsGood() ==> x == None && d.incoming == r.incoming)
  {
    hide ReadBack, InputSocket.Take;
    var (d, got, _) := r.Read(1);
    if d.state.IsGood() {
      assert got == [got[0]] && r.incoming == [got[0]] + d.incoming;
      SmallNumbers(got[0], 0, m.system, m.stream);
    } else {
      assert got == [];
      assert d.incoming == got + d.incoming;
    }
  }

  /** Where the byte of digit `k` stands among `width` bytes. */
  function DigitPlace(k: nat, width: nat, stream: Endianness): nat
    requires k < width
  {
    if stream == LittleEndian then k else width - 1 - k
  }

  /** Byte `k` from the low end is digit `k` to base 256. */
  ghost predicate HoldsDigits(bytes: seq<byte>, v: nat, stream: Endianness) {
    forall k: nat :: k < |bytes| ==> bytes[DigitPlace(k, |bytes|, stream)] == (v / Pow256(k)) % 256
  }

  lemma NumberHoldsDigits(v: nat, width: nat, stream: Endianness, system: Endianness)
    ensures HoldsDigits(WrittenBytes(v, width, stream, system), v, stream)
  {
    var bytes := WrittenBytes(v, width, stream, system);
    assert |bytes| == width;
    hide WrittenBytes;
    forall k: nat | k < width
      ensures bytes[DigitPlace(k, width, stream)] == (v / Pow256(k)) % 256
    {
      WrittenByteIsDigit(v, width, k, system);
    }
  }

  /** Numbers are the digits of their value, signed ones modulo 256^width. */
  lemma WrittenNumber(width: nat, value: nat, number: int, stream: Endianness, system: Endianness)
    ensures var bytes := UInt(width, value).Written(stream, system);
      |bytes| == width && HoldsDigits(bytes, value, stream)
    ensures var bytes := SInt(width, number).Written(stream, system);
      |bytes| == width && HoldsDigits(bytes, number % Pow256(width), stream)
  {
    hide HoldsDigits, WrittenBytes, Pow256;
    NumberHoldsDigits(value, width, stream, system);
    NumberHoldsDigits(TwosComplement(number, width), width, stream, system);
  }

  /** A string is eight bytes with its length and then its characters. */
  lemma WrittenString(chars: seq<byte>, stream: Endianness, system: Endianness)
    requires |chars| < 0x1_0000_0000_0000_0000
    ensures var bytes := String(chars).Written(stream, system);
      |bytes| == 8 + |chars| && HoldsDigits(bytes[..8], |chars|, stream) && bytes[8..] == chars
  {
    hide HoldsDigits, WrittenBytes, Pow256;
    NumberHoldsDigits(|chars|, 8, stream, system);
    Pow256Eight();
    var length := WrittenBytes(|chars|, 8, stream, system);
    assert String(chars).Written(stream, system) == length + chars by {
      assert |chars| % Pow256(8) == |chars|;
    }
    InFront(length, chars);
  }

  /**
   A string that the block cuts off after some of its characters is extracted with the others zero, on a good
   stream; one that is cut off right behind its length is not extracted.
   */
  lemma CutString(before: seq<byte>, n: nat, part: seq<byte>, writer: Endianness, m: Machine)
    requires |part| < n < Pow256(8) && m.Valid()
    ensures var c := At(before, WrittenBytes(n, 8, m.stream, writer) + part);
      var (d, x) := ReadString(c, m);
      && d.position == d.size == c.size
      && (part == [] ==> x == None && d.state == IoState(true, false, false))
      && (part != [] ==>
            && d.state.IsGood() && x.Some? && |x.value| == n && x.value[..|part|] == part
            && forall i :: |part| <= i < n ==> x.value[i] == 0)
  {
    hide WrittenBytes, ReadUInt, Pow256;
    var length := WrittenBytes(n, 8, m.stream, writer);
    ReadUIntAt(before, n, 8, part, writer, m);
    assert before + (length + part) == (before + length) + part;
    var c := At(before + length, part);
    assert c.block.value[c.position..] == part;
  }

  lemma InFront(a: seq<byte>, b: seq<byte>)
    ensures (a + b)[..|a|] == a && (a + b)[|a|..] == b
  {
  }
}
