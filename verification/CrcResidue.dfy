/** The check value of CRC-32: a message followed by its own CRC always has the same CRC, whatever the message. */
module CrcResidue {
  import opened Bits
  import opened Bytes
  import opened Crc32

  /** Feeding k bits and then the bits of z is feeding them all. */
  lemma {:induction false} SerialBitsConcat(c: nat, x: nat, k: nat, z: nat)
    requires x < Pow2(k) && z >= 1
    ensures SerialBits(c, x + Pow2(k) * z) == SerialBits(SerialBits(c, Pow2(k) + x), z)
    decreases k
  {
    if k > 0 {
      var p := Pow2(k - 1);
      PowPositive(k - 1);
      Halves(x, p, z);
      Halves(x, p, 1);
      FirstBit(c, x, x + Pow2(k) * z);
      FirstBit(c, x, Pow2(k) + x);
      SerialBitsConcat(SerialStep(c, x), x / 2, k - 1, z);
    }
  }

  /** The first of several bits. */
  lemma FirstBit(c: nat, x: nat, v: nat)
    requires v > 1 && v % 2 == x % 2
    ensures SerialBits(c, v) == SerialBits(SerialStep(c, x), v / 2)
  {
  }

  lemma Halves(x: nat, p: nat, z: nat)
    requires p >= 1 && z >= 1
    ensures x + 2 * p * z > 1 && (x + 2 * p * z) % 2 == x % 2 && (x + 2 * p * z) / 2 == x / 2 + p * z
  {
    var y := p * z;
    Positive(p, z);
    assert x + 2 * p * z == x + 2 * y;
  }

  lemma {:induction false} PowPositive(k: nat)
    ensures Pow2(k) >= 1
  {
    if k > 0 { PowPositive(k - 1); }
  }

  lemma Positive(p: nat, z: nat)
    requires z >= 1
    ensures p >= 1 ==> p * z >= 1
  {
  }

  /** A byte and what follows it. */
  lemma ByteFirst(c: nat, x: Byte, z: nat, v: nat) returns (c': nat)
    requires z >= 1 && v == x + 0x100 * z
    ensures c' == SerialByte(c, x) && SerialBits(c, v) == SerialBits(c', z)
  {
    PowWord();
    SerialBitsConcat(c, x, BYTE_BITS, z);
    c' := SerialByte(c, x);
  }

  lemma SerialNext(c: nat, a: Byte, rest: seq<Byte>, c': nat)
    requires c' == SerialByte(c, a)
    ensures Serial(c, [a] + rest) == Serial(c', rest)
  {
    assert ([a] + rest)[1..] == rest;
  }

  /** The bits of a byte and of what follows it. */
  lemma ByteThen(c: nat, a: Byte, rest: seq<Byte>, x: nat, z: nat, c': nat)
    requires z >= 1 && x == a + 0x100 * z && c' == SerialByte(c, a) && Serial(c', rest) == SerialBits(c', z)
    ensures Serial(c, [a] + rest) == SerialBits(c, x)
  {
    var _ := ByteFirst(c, a, z, x);
    SerialNext(c, a, rest, c');
  }

  /** The four bytes of a word, low byte first, are its 32 bits. */
  lemma WordSerial(c: nat, a: Byte, b: Byte, d: Byte, e: Byte, x: nat, y: nat, z: nat)
    requires x == a + 0x100 * y && y == b + 0x100 * z && z == d + 0x100 * (0x100 + e)
    ensures Serial(c, [a, b, d, e]) == SerialBits(c, x)
  {
    var c1 := SerialByte(c, a);
    var c2 := SerialByte(c1, b);
    var c3 := SerialByte(c2, d);
    SerialNext(c3, e, [], SerialByte(c3, e));
    ByteThen(c2, d, [e], z, 0x100 + e, c3);
    ByteThen(c1, b, [d, e], y, z, c2);
    ByteThen(c, a, [b, d, e], x, y, c1);
    assert [a] + [b, d, e] == [a, b, d, e] && [b] + [d, e] == [b, d, e] && [d] + [e] == [d, e] && [e] + [] == [e];
  }

  lemma WordFed(c: nat, w: Word)
    ensures Serial(c, PutWord(w)) == Steps(Xor(c, w), 32)
  {
    var z := w / 0x1_0000 % 0x100 + 0x100 * (0x100 + w / 0x100_0000);
    var y := w / 0x100 % 0x100 + 0x100 * z;
    assert z == w / 0x1_0000 + 0x1_0000;
    assert y == w / 0x100 + 0x100_0000;
    WordSerial(c, w % 0x100, w / 0x100 % 0x100, w / 0x1_0000 % 0x100, w / 0x100_0000, w + 0x1_0000_0000, y, z);
    PowWord();
    SerialBitsAreSteps(c, w, 32);
  }

  /** A word and its complement differ in every bit. */
  lemma {:induction false} XorComplement(c: nat, n: nat)
    requires c < Pow2(n)
    ensures Xor(c, Pow2(n) - 1 - c) == Pow2(n) - 1
    decreases n
  {
    if n > 0 {
      var d, p := Pow2(n) - 1 - c, Pow2(n - 1);
      assert d / 2 == p - 1 - c / 2 && d % 2 != c % 2;
      XorComplement(c / 2, n - 1);
      XorHalves(c, d);
    }
  }

  lemma ComplementIs(c: nat, w: nat, ones: nat)
    requires ones == 0xFFFF_FFFF && c <= ones && w == ones - c
    ensures Xor(c, w) == ones
  {
    PowWord();
    XorComplement(c, 32);
  }

  lemma ResidueIs(m: seq<Byte>, ones: nat)
    requires ones == 0xFFFF_FFFF
    ensures Serial(ones, m + PutWord(Crc(m))) == Steps(ones, 32)
  {
    var c, w := Serial(ones, m), Crc(m);
    SerialIsWord(ones, m);
    SerialAppend(ones, m, PutWord(w));
    WordFed(c, w);
    ComplementIs(c, w, ones);
  }

  /** A message followed by its own CRC, low byte first, has the same CRC whatever the message. */
  lemma Residue(m: seq<Byte>, m': seq<Byte>)
    ensures Crc(m + PutWord(Crc(m))) == Crc(m' + PutWord(Crc(m')))
  {
    ResidueIs(m, 0xFFFF_FFFF);
    ResidueIs(m', 0xFFFF_FFFF);
  }

  // ---- The polynomial ----

  /** The polynomial of IEEE 802.3, its coefficients from x^31 down to 1 in bits 0 to 31. */
  lemma IeeePolynomial()
    ensures POLY == Pow2(5) + Pow2(8) + Pow2(9) + Pow2(15) + Pow2(19) + Pow2(20) + Pow2(21) + Pow2(23) + Pow2(24)
      + Pow2(26) + Pow2(27) + Pow2(29) + Pow2(30) + Pow2(31)
  {
    assert Pow2(5) == 0x20 && Pow2(8) == 0x100 && Pow2(9) == 0x200 && Pow2(15) == 0x8000;
    assert Pow2(19) == 0x8_0000 && Pow2(20) == 0x10_0000 && Pow2(21) == 0x20_0000 && Pow2(23) == 0x80_0000;
    assert Pow2(24) == 0x100_0000 && Pow2(26) == 0x400_0000 && Pow2(27) == 0x800_0000;
    assert Pow2(29) == 0x2000_0000 && Pow2(30) == 0x4000_0000 && Pow2(31) == 0x8000_0000;
  }

  /** A register of k ones is used up by k ones. */
  lemma {:induction false} OnesFed(k: nat, c: nat, x: nat)
    requires c == Pow2(k) - 1 && x == 2 * Pow2(k) - 1
    ensures SerialBits(c, x) == 0
    decreases k
  {
    if k > 0 {
      assert c % 2 == 1 && x % 2 == 1 && c / 2 == Pow2(k - 1) - 1 && x / 2 == 2 * Pow2(k - 1) - 1;
      PowPositive(k - 1);
      OnesFed(k - 1, c / 2, x / 2);
    }
  }

  /** Zeros leave an empty register empty. */
  lemma {:induction false} ZerosFed(c: nat, k: nat, x: nat)
    requires c == 0 && x == Pow2(k)
    ensures SerialBits(c, x) == 0
    decreases k
  {
    if k > 0 {
      assert x % 2 == 0 && x / 2 == Pow2(k - 1);
      PowPositive(k - 1);
      ZerosFed(c, k - 1, x / 2);
    }
  }

  /** A single bit brings the polynomial into an empty register. */
  lemma OneFed(c: nat, x: nat, poly: nat)
    requires c == 0 && x == 3 && poly == POLY
    ensures SerialBits(c, x) == poly
  {
    var half := c / 2;
    XorComm(half, poly);
    XorZero(poly);
    assert SerialStep(c, x) == poly;
    assert SerialBits(c, x) == SerialBits(poly, x / 2);
  }

  lemma OneByteFed(c: nat, b: Byte)
    requires c == 0 && b == 0x80
    ensures SerialByte(c, b) == POLY
  {
    PowWord();
    assert Pow2(7) == 0x80;
    SerialBitsConcat(c, 0, 7, 3);
    ZerosFed(c, 7, 0x80);
    OneFed(c, 3, POLY);
  }

  lemma FourOnesFed(c: nat, b: Byte)
    requires c == 0xFFFF_FFFF && b == 0xFF
    ensures Serial(c, [b, b, b, b]) == 0
  {
    PowWord();
    WordSerial(c, b, b, b, b, 0x1_FFFF_FFFF, 0x1FF_FFFF, 0x1_FFFF);
    OnesFed(32, c, 0x1_FFFF_FFFF);
  }

  /** A vector that shows the start value, the bit order, the polynomial and the final complement. */
  lemma CheckVector(b: Byte, last: Byte)
    requires b == 0xFF && last == 0x80
    ensures Crc([b, b, b, b] + [last]) == 0x1247_7CDF
  {
    SerialAppend(0xFFFF_FFFF, [b, b, b, b], [last]);
    FourOnesFed(0xFFFF_FFFF, b);
    OneByteFed(0, last);
    assert [last][1..] == [];
  }
}
