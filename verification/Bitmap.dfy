/** The block bitmap: one bit for each block, kept in memory, and the first-fit allocator over it. */
module Bitmap {
  import opened Bits
  import opened Bytes
  import opened BlockCache

  const MAX_BLOCKS := 1024
  const BITMAP_BYTES := 128

  predicate Marked(bits: seq<Byte>, i: nat)
    requires i < 8 * |bits|
  {
    Bit(bits[i / 8], i % 8)
  }

  /** The blocks whose bits are set. */
  ghost function Used(bits: seq<Byte>): set<nat> { set i | 0 <= i < 8 * |bits| && Marked(bits, i) }

  /** The first unused block from i on, or NO_BLOCK. */
  ghost function FirstFree(used: set<nat>, i: nat, total: nat): (b: nat)
    requires i <= total < NO_BLOCK
    ensures b == NO_BLOCK || (i <= b < total && b !in used)
    ensures forall j :: i <= j < total && j !in used ==> b <= j
    decreases total - i
  {
    if i == total then NO_BLOCK else if i !in used then i else FirstFree(used, i + 1, total)
  }

  lemma ByteBits(w: Byte, i: nat)
    requires i < 8
    ensures SetBit(w, i) < 0x100 && ClearBit(w, i) < 0x100
  {
    var n: nat := 8;
    assert Pow2(8) == 0x100;
    BitsBelow(w, i, n);
  }

  lemma MarkOne(bits: seq<Byte>, i: nat)
    requires i < 8 * |bits|
    ensures SetBit(bits[i / 8], i % 8) < 0x100
    ensures Used(bits[i / 8 := SetBit(bits[i / 8], i % 8)]) == Used(bits) + {i}
  {
    ByteBits(bits[i / 8], i % 8);
    var bits' := bits[i / 8 := SetBit(bits[i / 8], i % 8)];
    forall j: nat | j < 8 * |bits| ensures Marked(bits', j) <==> j == i || Marked(bits, j) {
      SetBitAt(bits[i / 8], i % 8, j % 8);
    }
  }

  lemma ClearOne(bits: seq<Byte>, i: nat)
    requires i < 8 * |bits|
    ensures ClearBit(bits[i / 8], i % 8) < 0x100
    ensures Used(bits[i / 8 := ClearBit(bits[i / 8], i % 8)]) == Used(bits) - {i}
  {
    ByteBits(bits[i / 8], i % 8);
    var bits' := bits[i / 8 := ClearBit(bits[i / 8], i % 8)];
    forall j: nat | j < 8 * |bits| ensures Marked(bits', j) <==> j != i && Marked(bits, j) {
      ClearBitAt(bits[i / 8], i % 8, j % 8);
    }
  }

  class Allocator {
    const bits: array<Byte>
    const first: nat
    const total: nat
    var free: int

    /** All blocks free except the reserved ones before the data area. */
    constructor (first: nat, total: nat)
      requires first <= total <= MAX_BLOCKS
      ensures this.first == first && this.total == total && free == total - first && fresh(bits)
      ensures bits.Length == BITMAP_BYTES && forall j :: j in Used(bits[..]) <==> 0 <= j < first
    {
      this.first, this.total, free := first, total, total - first;
      bits := new Byte[BITMAP_BYTES](_ => 0);
      new;
      forall j: nat | j < 8 * |bits[..]| ensures !Marked(bits[..], j) { ZeroHasNoBits(j % 8); }
      for i := 0 to first
        invariant free == total - first && forall j :: j in Used(bits[..]) <==> 0 <= j < i
      {
        MarkOne(bits[..], i);
        bits[i / 8] := SetBit(bits[i / 8], i % 8);
      }
    }

    ghost predicate Valid() {
      bits.Length == BITMAP_BYTES && first <= total <= MAX_BLOCKS
    }

    /** fs_alloc_block: first fit. */
    method AllocBlock() returns (b: nat)
      requires Valid()
      modifies this, bits
      ensures b == FirstFree(old(Used(bits[..])), first, total)
      ensures Used(bits[..]) == if b == NO_BLOCK then old(Used(bits[..])) else old(Used(bits[..])) + {b}
      ensures free == if b == NO_BLOCK then old(free) else old(free) - 1
    {
      ghost var used := Used(bits[..]);
      for i := first to total
        invariant bits[..] == old(bits[..]) && free == old(free)
        invariant FirstFree(used, first, total) == FirstFree(used, i, total)
      {
        assert Marked(bits[..], i) <==> i in used;
        if !Bit(bits[i / 8], i % 8) {
          MarkOne(bits[..], i);
          bits[i / 8] := SetBit(bits[i / 8], i % 8);
          free := free - 1;
          return i;
        }
      }
      return NO_BLOCK;
    }

    /** fs_free_block, which refuses only blocks past the end of the device. */
    method FreeBlock(b: Word) returns (ok: bool)
      requires Valid()
      modifies this, bits
      ensures ok == (b < total)
      ensures Used(bits[..]) == if ok then old(Used(bits[..])) - {b} else old(Used(bits[..]))
      ensures free == if ok then old(free) + 1 else old(free)
    {
      ok := b < total;
      if ok {
        ClearOne(bits[..], b);
        bits[b / 8] := ClearBit(bits[b / 8], b % 8);
        free := free + 1;
      }
    }
  }
}
