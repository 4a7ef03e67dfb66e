/** Single bits of machine words, and the operations the kernel and the file system use on them. */
module Bits {

  predicate Bit(w: nat, i: nat)
    decreases i
  {
    if i == 0 then w % 2 == 1 else Bit(w / 2, i - 1)
  }

  /** w | (1 << i) */
  function SetBit(w: nat, i: nat): nat
    decreases i
  {
    if i == 0 then w / 2 * 2 + 1 else 2 * SetBit(w / 2, i - 1) + w % 2
  }

  /** w & ~(1 << i) */
  function ClearBit(w: nat, i: nat): nat
    decreases i
  {
    if i == 0 then w / 2 * 2 else 2 * ClearBit(w / 2, i - 1) + w % 2
  }

  lemma {:induction false} SetBitAt(w: nat, i: nat, j: nat)
    ensures Bit(SetBit(w, i), j) <==> i == j || Bit(w, j)
    decreases i
  {
    if i > 0 && j > 0 { SetBitAt(w / 2, i - 1, j - 1); }
  }

  lemma {:induction false} ClearBitAt(w: nat, i: nat, j: nat)
    ensures Bit(ClearBit(w, i), j) <==> i != j && Bit(w, j)
    decreases i
  {
    if i > 0 && j > 0 { ClearBitAt(w / 2, i - 1, j - 1); }
  }

  function Pow2(n: nat): nat {
    if n == 0 then 1 else 2 * Pow2(n - 1)
  }

  lemma {:induction false} BitsBelow(w: nat, i: nat, n: nat)
    requires w < Pow2(n) && i < n
    ensures SetBit(w, i) < Pow2(n) && ClearBit(w, i) < Pow2(n)
    decreases i
  {
    if i > 0 { BitsBelow(w / 2, i - 1, n - 1); }
  }

  /** Number of trailing zero bits. */
  function Ctz(w: nat): (n: nat)
    requires w > 0
    ensures Bit(w, n) && forall j :: 0 <= j < n ==> !Bit(w, j)
    decreases w
  {
    if w % 2 == 1 then 0
    else
      assert forall j :: 0 <= j < 1 + Ctz(w / 2) ==> !Bit(w, j);
      1 + Ctz(w / 2)
  }

  lemma {:induction false} ZeroHasNoBits(i: nat)
    ensures !Bit(0, i)
  {
    if i > 0 { ZeroHasNoBits(i - 1); }
  }
}
