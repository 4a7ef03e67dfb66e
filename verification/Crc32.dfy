/**
 * CRC-32 of the OTA component: the table-driven computation, and the bit-serial definition it must equal.
 * Machine words are natural numbers; exclusive-or is spelled out bit by bit.
 */
module Crc32 {
  import opened Bits
  import opened Bytes

  const POLY: nat := 0xEDB8_8320
  const BYTE_BITS: nat := 8

  function Xor(a: nat, b: nat): nat {
    if a == 0 && b == 0 then 0
    else (if a % 2 == b % 2 then 0 else 1) + 2 * Xor(a / 2, b / 2)
  }

  lemma {:induction false} XorBelow(a: nat, b: nat, n: nat)
    requires a < Pow2(n) && b < Pow2(n)
    ensures Xor(a, b) < Pow2(n)
    decreases n
  {
    if n > 0 { XorBelow(a / 2, b / 2, n - 1); }
  }

  lemma {:induction false} XorComm(a: nat, b: nat)
    ensures Xor(a, b) == Xor(b, a)
  {
    if a != 0 || b != 0 { XorComm(a / 2, b / 2); }
  }

  lemma {:induction false} XorAssoc(a: nat, b: nat, c: nat)
    ensures Xor(Xor(a, b), c) == Xor(a, Xor(b, c))
    decreases a + b + c
  {
    if a != 0 || b != 0 || c != 0 {
      XorAssoc(a / 2, b / 2, c / 2);
      XorHalves(a, b);
      XorHalves(b, c);
      XorHalves(Xor(a, b), c);
      XorHalves(a, Xor(b, c));
    }
  }

  lemma XorHalves(a: nat, b: nat)
    ensures Xor(a, b) / 2 == Xor(a / 2, b / 2)
    ensures Xor(a, b) % 2 == if a % 2 == b % 2 then 0 else 1
  {
    if a == 0 && b == 0 { assert Xor(0, 0) == 0; }
  }

  lemma {:induction false} XorZero(a: nat)
    ensures Xor(a, 0) == a
  {
    if a != 0 { XorZero(a / 2); }
  }

  lemma XorSwapLast(a: nat, b: nat, c: nat)
    ensures Xor(Xor(a, b), c) == Xor(Xor(a, c), b)
  {
    XorAssoc(a, b, c);
    XorAssoc(a, c, b);
    XorComm(b, c);
  }

  /** One division step of the reflected register. */
  function BitStep(c: nat): nat {
    if c % 2 == 1 then Xor(c / 2, POLY) else c / 2
  }

  function Steps(c: nat, n: nat): nat
    decreases n
  {
    if n == 0 then c else Steps(BitStep(c), n - 1)
  }

  /** One division step that also shifts in the low bit of x. */
  function SerialStep(c: nat, x: nat): nat {
    if c % 2 != x % 2 then Xor(c / 2, POLY) else c / 2
  }

  /** The register after the bits of x below its leading one, least significant first. */
  function SerialBits(c: nat, x: nat): nat
    decreases x
  {
    if x <= 1 then c else SerialBits(SerialStep(c, x), x / 2)
  }

  /** The register after one byte; the ninth bit marks where the byte ends. */
  function SerialByte(c: nat, x: Byte): nat {
    SerialBits(c, 0x100 + x)
  }

  /** The register after a message, one bit at a time. */
  function Serial(c: nat, data: seq<Byte>): nat
    decreases |data|
  {
    if data == [] then c else Serial(SerialByte(c, data[0]), data[1..])
  }

  /** The CRC-32 of section 8 of RFC 1952, by its bit-serial definition. */
  function Crc(data: seq<Byte>): (r: Word)
  {
    SerialIsWord(0xFFFF_FFFF, data);
    0xFFFF_FFFF - Serial(0xFFFF_FFFF, data)
  }

  lemma PowWord()
    ensures Pow2(BYTE_BITS) == 0x100 && Pow2(32) == 0x1_0000_0000
  {
    assert Pow2(8) == 0x100;
    assert Pow2(16) == 0x1_0000;
    assert Pow2(24) == 0x100_0000;
  }

  lemma {:induction false} SerialBitsIsWord(c: nat, x: nat)
    requires c < 0x1_0000_0000
    ensures SerialBits(c, x) < 0x1_0000_0000
    decreases x
  {
    if x > 1 {
      PowWord();
      XorBelow(c / 2, POLY, 32);
      SerialBitsIsWord(SerialStep(c, x), x / 2);
    }
  }

  lemma SerialByteIsWord(c: nat, x: Byte)
    requires c < 0x1_0000_0000
    ensures SerialByte(c, x) < 0x1_0000_0000
  {
    SerialBitsIsWord(c, 0x100 + x);
  }

  lemma {:induction false} SerialIsWord(c: nat, data: seq<Byte>)
    requires c < 0x1_0000_0000
    ensures Serial(c, data) < 0x1_0000_0000
    decreases |data|
  {
    if data != [] {
      SerialByteIsWord(c, data[0]);
      SerialIsWord(SerialByte(c, data[0]), data[1..]);
    }
  }

  /** A message may be fed in any two pieces. */
  lemma {:induction false} SerialAppend(c: nat, a: seq<Byte>, b: seq<Byte>)
    ensures Serial(c, a + b) == Serial(Serial(c, a), b)
    decreases |a|
  {
    if a == [] {
      assert a + b == b;
    } else {
      assert (a + b)[1..] == a[1..] + b;
      SerialAppend(SerialByte(c, a[0]), a[1..], b);
    }
  }

  lemma StepXorEqual(c: nat, x: nat)
    requires c % 2 == x % 2
    ensures BitStep(Xor(c, x)) == Xor(c / 2, x / 2)
  {
    XorHalves(c, x);
  }

  lemma StepXorDifferent(c: nat, x: nat)
    requires c % 2 != x % 2
    ensures BitStep(Xor(c, x)) == Xor(Xor(c / 2, POLY), x / 2)
  {
    XorHalves(c, x);
    XorSwapLast(c / 2, x / 2, POLY);
  }

  lemma StepXor(c: nat, x: nat)
    ensures BitStep(Xor(c, x)) == Xor(SerialStep(c, x), x / 2)
  {
    if c % 2 == x % 2 {
      StepXorEqual(c, x);
    } else {
      StepXorDifferent(c, x);
    }
  }

  /** Feeding n bits of x one by one is the same as n steps after one exclusive-or with x. */
  lemma {:induction false} SerialBitsAreSteps(c: nat, x: nat, n: nat)
    requires x < Pow2(n)
    ensures Steps(Xor(c, x), n) == SerialBits(c, Pow2(n) + x)
    decreases n
  {
    if n == 0 {
      XorZero(c);
    } else {
      var c', x' := SerialStep(c, x), Pow2(n) + x;
      assert x' / 2 == Pow2(n - 1) + x / 2 && x' % 2 == x % 2 && x' > 1;
      assert BitStep(Xor(c, x)) == Xor(c', x / 2) by { StepXor(c, x); }
      assert SerialStep(c, x') == c';
      SerialBitsAreSteps(c', x / 2, n - 1);
    }
  }

  function Shl(y: nat, n: nat): nat {
    if n == 0 then y else 2 * Shl(y, n - 1)
  }

  function Shr(y: nat, n: nat): nat
    decreases n
  {
    if n == 0 then y else Shr(y / 2, n - 1)
  }

  lemma ByteShifts(y: nat)
    ensures Shl(y, BYTE_BITS) == 0x100 * y && Shr(y, BYTE_BITS) == y / 0x100
  {
    NibbleShifts(y);
    NibbleShifts(y / 16);
    assert Shl(y, 8) == 2 * Shl(y, 7) == 4 * Shl(y, 6) == 8 * Shl(y, 5) == 16 * Shl(y, 4);
    assert Shr(y, 8) == Shr(y / 2, 7) == Shr(y / 4, 6) == Shr(y / 8, 5) == Shr(y / 16, 4);
  }

  lemma NibbleShifts(y: nat)
    ensures Shl(y, 4) == 16 * y && Shr(y, 4) == y / 16
  {
    assert Shl(y, 4) == 2 * Shl(y, 3) == 4 * Shl(y, 2) == 8 * Shl(y, 1);
    assert Shr(y, 4) == Shr(y / 2, 3) == Shr(y / 4, 2) == Shr(y / 8, 1);
  }

  /** Bits above the low n never meet the polynomial during n steps. */
  lemma {:induction false} HighBitsShift(c: nat, y: nat, n: nat)
    ensures Steps(Xor(c, Shl(y, n)), n) == Xor(Steps(c, n), y)
    decreases n
  {
    if n > 0 {
      var high := Shl(y, n);
      assert BitStep(Xor(c, high)) == Xor(BitStep(c), Shl(y, n - 1)) by { StepXor(c, high); }
      HighBitsShift(BitStep(c), y, n - 1);
    }
  }

  /** A number is the exclusive-or of its low n bits and the rest. */
  lemma {:induction false} XorSplit(low: nat, y: nat, n: nat)
    requires low < Pow2(n)
    ensures Xor(low, Shl(y, n)) == low + Shl(y, n)
    decreases n
  {
    if n == 0 {
      XorZero(y);
      XorComm(0, y);
    } else {
      XorSplit(low / 2, y, n - 1);
      XorHalves(low, Shl(y, n));
    }
  }

  /** An n-bit operand leaves the bits above the lowest n alone. */
  lemma {:induction false} XorHigh(c: nat, x: nat, n: nat)
    requires x < Pow2(n)
    ensures Shr(Xor(c, x), n) == Shr(c, n)
    decreases n
  {
    if n == 0 {
      XorZero(c);
    } else {
      XorHigh(c / 2, x / 2, n - 1);
      XorHalves(c, x);
    }
  }

  /** One lookup in the table of 256 eight-step images does what eight bit-serial steps do. */
  lemma TableStep(c: nat, x: Byte, n: nat)
    requires n == BYTE_BITS
    ensures Xor(c / 0x100, Steps(Xor(c, x) % 0x100, n)) == SerialByte(c, x)
  {
    var d := Xor(c, x);
    var low, high := d % 0x100, d / 0x100;
    assert high == c / 0x100 by { PowWord(); XorHigh(c, x, n); ByteShifts(c); ByteShifts(d); }
    assert Xor(low, Shl(high, n)) == d by { PowWord(); ByteShifts(high); XorSplit(low, high, n); }
    assert SerialByte(c, x) == Steps(d, n) by { PowWord(); SerialBitsAreSteps(c, x, n); }
    assert Steps(d, n) == Xor(Steps(low, n), high) by { HighBitsShift(low, high, n); }
    XorComm(high, Steps(low, n));
  }

  predicate IsEntry(i: nat, w: nat) {
    w == Steps(i, BYTE_BITS)
  }

  /** The inner loop of the table initialisation. */
  method EntryFor(i: nat) returns (crc: Word)
    requires i < 256
    ensures IsEntry(i, crc)
  {
    ghost var n := BYTE_BITS;
    PowWord();
    crc := i;
    for j := 0 to 8
      invariant Steps(crc, n - j) == Steps(i, n)
    {
      XorBelow(crc / 2, POLY, 32);
      if crc % 2 == 1 {
        crc := Xor(crc / 2, POLY);
      } else {
        crc := crc / 2;
      }
    }
  }

  /** The lookup table that the firmware fills on first use. */
  class Table {
    const entry: array<Word>
    var initialized: bool

    ghost predicate Valid()
      reads this, entry
    {
      && entry.Length == 256
      && (initialized ==> forall i :: 0 <= i < 256 ==> IsEntry(i, entry[i]))
    }

    constructor ()
      ensures Valid() && !initialized && fresh(entry)
    {
      entry := new Word[256](_ => 0);
      initialized := false;
    }

    method Init()
      requires Valid()
      modifies this, entry
      ensures Valid() && initialized
    {
      if initialized { return; }
      for i := 0 to 256
        invariant forall k :: 0 <= k < i ==> IsEntry(k, entry[k])
      {
        entry[i] := EntryFor(i);
      }
      initialized := true;
    }

    /** Runs the register over a buffer. */
    method Update(start: Word, data: seq<Byte>) returns (crc: Word)
      requires Valid() && initialized
      ensures crc == Serial(start, data)
    {
      crc := start;
      for i := 0 to |data|
        invariant crc == Serial(start, data[..i])
      {
        ghost var n := BYTE_BITS;
        TableStep(crc, data[i], n);
        SerialByteIsWord(crc, data[i]);
        SerialAppend(start, data[..i], [data[i]]);
        assert data[..i + 1] == data[..i] + [data[i]];
        crc := Xor(crc / 0x100, entry[Xor(crc, data[i]) % 0x100]);
      }
      assert data[..|data|] == data;
    }

    method Calculate(data: seq<Byte>) returns (crc: Word)
      requires Valid()
      modifies this, entry
      ensures Valid() && crc == Crc(data)
    {
      Init();
      crc := Update(0xFFFF_FFFF, data);
      crc := 0xFFFF_FFFF - crc;
    }
  }
}
