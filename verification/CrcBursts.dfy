/** Error detection: two messages of the same length that differ in one word only never have the same CRC-32. */
module CrcBursts {
  import opened Bits
  import opened Bytes
  import opened Crc32
  import opened CrcResidue

  // ---- The register loses nothing ----

  lemma {:induction false} XorSelf(a: nat)
    ensures Xor(a, a) == 0
  {
    if a != 0 {
      XorSelf(a / 2);
      XorHalves(a, a);
    }
  }

  lemma XorCancel(a: nat, a': nat, b: nat)
    requires Xor(a, b) == Xor(a', b)
    ensures a == a'
  {
    XorAssoc(a, b, b);
    XorAssoc(a', b, b);
    XorSelf(b);
    XorZero(a);
    XorZero(a');
  }

  /** A bit above the other operand's bits stays. */
  lemma {:induction false} XorTop(x: nat, y: nat, n: nat)
    requires x < Pow2(n) && Pow2(n) <= y < 2 * Pow2(n)
    ensures Xor(x, y) >= Pow2(n)
    decreases n
  {
    XorHalves(x, y);
    if n > 0 { XorTop(x / 2, y / 2, n - 1); }
  }

  /** After a step the top bit tells whether the bit shifted out was one. */
  lemma StepTop(c: nat, poly: nat)
    requires c < 0x1_0000_0000 && poly == POLY
    ensures BitStep(c) == (if c % 2 == 1 then Xor(c / 2, poly) else c / 2)
    ensures c % 2 == 1 ==> Xor(c / 2, poly) >= 0x8000_0000
  {
    PowWord();
    assert Pow2(31) == 0x8000_0000;
    XorTop(c / 2, poly, 31);
  }

  lemma BitStepInjective(a: nat, b: nat)
    requires a < 0x1_0000_0000 && b < 0x1_0000_0000 && BitStep(a) == BitStep(b)
    ensures a == b
  {
    var poly := POLY;
    StepTop(a, poly);
    StepTop(b, poly);
    assert a % 2 == b % 2;
    if a % 2 == 1 { XorCancel(a / 2, b / 2, poly); }
  }

  lemma BitStepIsWord(c: nat)
    requires c < 0x1_0000_0000
    ensures BitStep(c) < 0x1_0000_0000
  {
    PowWord();
    XorBelow(c / 2, POLY, 32);
  }

  lemma {:induction false} StepsInjective(a: nat, b: nat, n: nat)
    requires a < 0x1_0000_0000 && b < 0x1_0000_0000 && Steps(a, n) == Steps(b, n)
    ensures a == b
    decreases n
  {
    if n > 0 {
      BitStepIsWord(a);
      BitStepIsWord(b);
      StepsInjective(BitStep(a), BitStep(b), n - 1);
      BitStepInjective(a, b);
    }
  }

  lemma XorIsWord(a: nat, b: nat)
    requires a < 0x1_0000_0000 && b < 0x1_0000_0000
    ensures Xor(a, b) < 0x1_0000_0000
  {
    PowWord();
    XorBelow(a, b, 32);
  }

  lemma ByteInjective(c: nat, c': nat, x: Byte)
    requires c < 0x1_0000_0000 && c' < 0x1_0000_0000 && SerialByte(c, x) == SerialByte(c', x)
    ensures c == c'
  {
    PowWord();
    SerialBitsAreSteps(c, x, BYTE_BITS);
    SerialBitsAreSteps(c', x, BYTE_BITS);
    XorIsWord(c, x);
    XorIsWord(c', x);
    StepsInjective(Xor(c, x), Xor(c', x), BYTE_BITS);
    XorCancel(c, c', x);
  }

  /** Different registers stay different, whatever follows. */
  lemma {:induction false} SerialInjective(c: nat, c': nat, data: seq<Byte>)
    requires c < 0x1_0000_0000 && c' < 0x1_0000_0000 && Serial(c, data) == Serial(c', data)
    ensures c == c'
    decreases |data|
  {
    if data != [] {
      SerialByteIsWord(c, data[0]);
      SerialByteIsWord(c', data[0]);
      SerialInjective(SerialByte(c, data[0]), SerialByte(c', data[0]), data[1..]);
      ByteInjective(c, c', data[0]);
    }
  }

  lemma WordInjective(c: nat, w: Word, w': Word)
    requires c < 0x1_0000_0000 && Serial(c, PutWord(w)) == Serial(c, PutWord(w'))
    ensures w == w'
  {
    WordFed(c, w);
    WordFed(c, w');
    XorIsWord(c, w);
    XorIsWord(c, w');
    StepsInjective(Xor(c, w), Xor(c, w'), 32);
    XorComm(c, w);
    XorComm(c, w');
    XorCancel(w, w', c);
  }

  /** Every change of one 32-bit word, anywhere in a message, changes the CRC. */
  lemma WordChangeDetected(a: seq<Byte>, w: Word, w': Word, b: seq<Byte>)
    ensures Crc(a + PutWord(w) + b) == Crc(a + PutWord(w') + b) <==> w == w'
  {
    var ones: nat := 0xFFFF_FFFF;
    var c := Serial(ones, a);
    SerialIsWord(ones, a);
    WordWithin(ones, a, w, b, c);
    WordWithin(ones, a, w', b, c);
    SerialIsWord(c, PutWord(w));
    SerialIsWord(c, PutWord(w'));
    if Crc(a + PutWord(w) + b) == Crc(a + PutWord(w') + b) {
      SerialInjective(Serial(c, PutWord(w)), Serial(c, PutWord(w')), b);
      WordInjective(c, w, w');
    }
  }

  lemma WordWithin(ones: nat, a: seq<Byte>, w: Word, b: seq<Byte>, c: nat)
    requires c == Serial(ones, a)
    ensures Serial(ones, a + PutWord(w) + b) == Serial(Serial(c, PutWord(w)), b)
  {
    SerialAppend(ones, a + PutWord(w), b);
    SerialAppend(ones, a, PutWord(w));
  }
}
