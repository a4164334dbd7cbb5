// The checksum of a string of bytes: bytes as numbers, bytes as bits (src/util/crc32.cpp:54-70).
module Checksums {
  import opened Bytes
  import Crc32

  function Bit(on: bool, at: bv8): bv8 {
    if on then at else 0
  }

  /** The bits of a byte, from its binary digits. */
  function Digits(d7: bool, d6: bool, d5: bool, d4: bool, d3: bool, d2: bool, d1: bool, d0: bool): bv8 {
    Bit(d7, 0x80) | Bit(d6, 0x40) | Bit(d5, 0x20) | Bit(d4, 0x10) | Bit(d3, 8) | Bit(d2, 4) | Bit(d1, 2) | Bit(d0, 1)
  }

  function Without(n: Byte, weight: Byte): Byte {
    if n >= weight then n - weight else n
  }

  function ByteBits(b: Byte): bv8 {
    var r6 := Without(b, 0x80);
    var r5 := Without(r6, 0x40);
    var r4 := Without(r5, 0x20);
    var r3 := Without(r4, 0x10);
    var r2 := Without(r3, 8);
    var r1 := Without(r2, 4);
    var r0 := Without(r1, 2);
    Digits(b >= 0x80, r6 >= 0x40, r5 >= 0x20, r4 >= 0x10, r3 >= 8, r2 >= 4, r1 >= 2, r0 >= 1)
  }

  function Bits(bytes: seq<Byte>): (bits: seq<bv8>)
    ensures |bits| == |bytes|
  {
    seq(|bytes|, i requires 0 <= i < |bytes| => ByteBits(bytes[i]))
  }

  function Checksum(page: seq<Byte>): U32 {
    Crc32.Calculate(Bits(page)) as int
  }

  lemma BitsConcat(a: seq<Byte>, b: seq<Byte>)
    ensures Bits(a + b) == Bits(a) + Bits(b)
  {
    hide ByteBits;
  }

  function Digit(on: bool, weight: int): int {
    if on then weight else 0
  }

  /** The number with the given binary digits. */
  function Number(d7: bool, d6: bool, d5: bool, d4: bool, d3: bool, d2: bool, d1: bool, d0: bool): int {
    Digit(d7, 0x80) + Digit(d6, 0x40) + Digit(d5, 0x20) + Digit(d4, 0x10) + Digit(d3, 8) + Digit(d2, 4) + Digit(d1, 2) + Digit(d0, 1)
  }

  function ByteNumber(x: bv8): int {
    Number(x & 0x80 != 0, x & 0x40 != 0, x & 0x20 != 0, x & 0x10 != 0, x & 8 != 0, x & 4 != 0, x & 2 != 0, x & 1 != 0)
  }

  lemma DigitsNumber(d7: bool, d6: bool, d5: bool, d4: bool, d3: bool, d2: bool, d1: bool, d0: bool)
    ensures ByteNumber(Digits(d7, d6, d5, d4, d3, d2, d1, d0)) == Number(d7, d6, d5, d4, d3, d2, d1, d0)
  {
    hide Number;
    var x := Digits(d7, d6, d5, d4, d3, d2, d1, d0);
    assert d7 == (x & 0x80 != 0) && d6 == (x & 0x40 != 0) && d5 == (x & 0x20 != 0) && d4 == (x & 0x10 != 0);
    assert d3 == (x & 8 != 0) && d2 == (x & 4 != 0) && d1 == (x & 2 != 0) && d0 == (x & 1 != 0);
  }

  lemma TakeDigit(n: Byte, weight: Byte)
    requires n < 2 * weight
    ensures n == Digit(n >= weight, weight) + Without(n, weight) && Without(n, weight) < weight
  {
  }

  lemma DigitsOf(b: Byte)
    ensures var r6 := Without(b, 0x80);
            var r5 := Without(r6, 0x40);
            var r4 := Without(r5, 0x20);
            var r3 := Without(r4, 0x10);
            var r2 := Without(r3, 8);
            var r1 := Without(r2, 4);
            var r0 := Without(r1, 2);
            Number(b >= 0x80, r6 >= 0x40, r5 >= 0x20, r4 >= 0x10, r3 >= 8, r2 >= 4, r1 >= 2, r0 >= 1) == b
  {
    hide Digit, Without;
    var r6 := Without(b, 0x80);
    var r5 := Without(r6, 0x40);
    var r4 := Without(r5, 0x20);
    var r3 := Without(r4, 0x10);
    var r2 := Without(r3, 8);
    var r1 := Without(r2, 4);
    var r0 := Without(r1, 2);
    TakeDigit(b, 0x80);
    TakeDigit(r6, 0x40);
    TakeDigit(r5, 0x20);
    TakeDigit(r4, 0x10);
    TakeDigit(r3, 8);
    TakeDigit(r2, 4);
    TakeDigit(r1, 2);
    TakeDigit(r0, 1);
  }

  lemma ByteBitsBack(b: Byte)
    ensures ByteNumber(ByteBits(b)) == b
  {
    hide Digits, ByteNumber, Number, Without;
    var r6 := Without(b, 0x80);
    var r5 := Without(r6, 0x40);
    var r4 := Without(r5, 0x20);
    var r3 := Without(r4, 0x10);
    var r2 := Without(r3, 8);
    var r1 := Without(r2, 4);
    var r0 := Without(r1, 2);
    DigitsOf(b);
    DigitsNumber(b >= 0x80, r6 >= 0x40, r5 >= 0x20, r4 >= 0x10, r3 >= 8, r2 >= 4, r1 >= 2, r0 >= 1);
  }

  lemma BitsInjective(a: seq<Byte>, b: seq<Byte>)
    requires Bits(a) == Bits(b)
    ensures a == b
  {
    hide ByteBits, ByteNumber;
    assert |Bits(a)| == |Bits(b)|;
    forall i | 0 <= i < |a| ensures a[i] == b[i] {
      assert Bits(a)[i] == Bits(b)[i];
      ByteBitsBack(a[i]);
      ByteBitsBack(b[i]);
    }
  }

  lemma SumBits(x: bv32, y: bv32)
    requires x as int == y as int
    ensures x == y
  {
    assert (x as int) as bv32 == x && (y as int) as bv32 == y;
  }

  /** Strings that differ only within four consecutive bytes have different checksums. */
  lemma ChecksumDetects(head: seq<Byte>, a: seq<Byte>, b: seq<Byte>, tail: seq<Byte>)
    requires |a| == |b| <= 4 && Checksum(head + a + tail) == Checksum(head + b + tail)
    ensures a == b
  {
    hide Bits, Crc32.Calculate;
    BitsConcat(head + a, tail);
    BitsConcat(head + b, tail);
    BitsConcat(head, a);
    BitsConcat(head, b);
    SumBits(Crc32.Calculate(Bits(head + a + tail)), Crc32.Calculate(Bits(head + b + tail)));
    Crc32.BurstDetected(Bits(head), Bits(a), Bits(b), Bits(tail));
    BitsInjective(a, b);
  }
}
