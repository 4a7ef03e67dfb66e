/** The Internet checksum of sections 1 and 2 of RFC 1071, as the network layer computes it. */
module Checksum {
  import opened Bytes

  /** The 16-bit words of a buffer on a little-endian machine; an odd last byte counts as a low byte. */
  function Words(data: seq<Byte>): (ws: seq<Half>)
    ensures |ws| == (|data| + 1) / 2
  {
    if data == [] then []
    else if |data| == 1 then [data[0]]
    else
      var low: int, high: int := data[0], data[1];
      [low + 0x100 * high] + Words(data[2..])
  }

  function Sum(ws: seq<Half>): nat {
    if ws == [] then 0
    else
      var w: int := ws[0];
      w + Sum(ws[1..])
  }

  /** Adds the carries back in until the sum fits 16 bits. */
  function Fold(sum: nat): nat {
    if sum < 0x1_0000 then sum else Fold(sum % 0x1_0000 + sum / 0x1_0000)
  }

  /** Ones'-complement addition: a carry out of the top bit is added at the bottom. */
  function OnesAdd(a: Half, b: Half): Half {
    var x: int, y: int := a, b;
    if x + y < 0x1_0000 then x + y else x + y - 0xFFFF
  }

  function OnesSum(ws: seq<Half>): Half {
    if ws == [] then 0 else OnesAdd(ws[0], OnesSum(ws[1..]))
  }

  /** The checksum stored in a packet. */
  function Checksum(data: seq<Byte>): Half {
    FoldBelow(Sum(Words(data)));
    0xFFFF - Fold(Sum(Words(data)))
  }

  lemma {:induction false} FoldBelow(sum: nat)
    ensures Fold(sum) < 0x1_0000
  {
    if sum >= 0x1_0000 { FoldBelow(sum % 0x1_0000 + sum / 0x1_0000); }
  }

  /** Folding is the residue modulo 65535, with 65535 standing for a non-zero multiple. */
  lemma {:induction false} FoldIsResidue(sum: nat)
    ensures Fold(sum) == if sum == 0 then 0 else (sum - 1) % 0xFFFF + 1
  {
    if sum >= 0x1_0000 {
      var next := sum % 0x1_0000 + sum / 0x1_0000;
      FoldIsResidue(next);
      assert sum - 1 == (next - 1) + 0xFFFF * (sum / 0x1_0000);
      Residue(next - 1, sum / 0x1_0000);
    }
  }

  lemma Residue(a: nat, k: nat)
    ensures (a + 0xFFFF * k) % 0xFFFF == a % 0xFFFF
  {
  }

  lemma ResidueAdd(w: nat, s: nat)
    requires w < 0x1_0000 && s > 0
    ensures (w + s - 1) % 0xFFFF == var x := w + (s - 1) % 0xFFFF; if x < 0xFFFF then x else x - 0xFFFF
  {
    var q, r := (s - 1) / 0xFFFF, (s - 1) % 0xFFFF;
    if w + r < 0xFFFF { Residue(w + r, q); } else { Residue(w + r - 0xFFFF, q + 1); }
  }

  /** A folded sum may be added to in ones'-complement. */
  lemma FoldAdd(w: Half, rest: nat)
    ensures Fold(rest) < 0x1_0000 && Fold(w + rest) == OnesAdd(w, Fold(rest))
  {
    FoldIsResidue(rest);
    FoldIsResidue(w + rest);
    if rest > 0 { ResidueAdd(w, rest); }
  }

  /** Which addend completes a sum to all ones. */
  lemma FoldComplement(sum: nat, c: Half)
    ensures Fold(sum + c) == 0xFFFF <==> c == 0xFFFF - Fold(sum) || (Fold(sum) == 0xFFFF && c == 0xFFFF)
  {
    FoldAdd(c, sum);
    FoldIsResidue(sum);
  }

  /** The 32-bit accumulation with folding computes the ones'-complement sum of the words. */
  lemma {:induction false} FoldIsOnesSum(ws: seq<Half>)
    ensures Fold(Sum(ws)) == OnesSum(ws)
  {
    if ws != [] {
      FoldIsOnesSum(ws[1..]);
      FoldAdd(ws[0], Sum(ws[1..]));
    }
  }

  lemma {:induction false} SumBound(ws: seq<Half>)
    ensures Sum(ws) <= 0xFFFF * |ws|
  {
    if ws != [] { SumBound(ws[1..]); }
  }

  lemma {:induction false} SumAppend(a: seq<Half>, b: seq<Half>)
    ensures Sum(a + b) == Sum(a) + Sum(b)
  {
    if a == [] {
      assert a + b == b;
    } else {
      assert (a + b)[1..] == a[1..] + b;
      SumAppend(a[1..], b);
    }
  }

  lemma SumRemove(b: seq<Half>, k: nat)
    requires k < |b|
    ensures Sum(b) == b[k] + Sum(b[..k] + b[k + 1..])
  {
    assert b == b[..k] + ([b[k]] + b[k + 1..]);
    SumAppend(b[..k], [b[k]] + b[k + 1..]);
    SumAppend([b[k]], b[k + 1..]);
    SumAppend(b[..k], b[k + 1..]);
  }

  lemma MultisetRemove(a: seq<Half>, k: nat)
    requires k < |a|
    ensures multiset(a[..k] + a[k + 1..]) == multiset(a) - multiset{a[k]}
  {
    assert a == a[..k] + [a[k]] + a[k + 1..];
  }

  /** The order of the words does not matter. */
  lemma {:induction false} SumOfPermutation(a: seq<Half>, b: seq<Half>)
    requires multiset(a) == multiset(b)
    ensures Sum(a) == Sum(b)
    decreases |a|
  {
    assert |multiset(a)| == |a| && |multiset(b)| == |b|;
    if a != [] {
      assert a[0] in multiset(b);
      var k :| 0 <= k < |b| && b[k] == a[0];
      MultisetRemove(a, 0);
      MultisetRemove(b, k);
      SumRemove(a, 0);
      SumRemove(b, k);
      SumOfPermutation(a[..0] + a[1..], b[..k] + b[k + 1..]);
    }
  }

  lemma SumReplace(ws: seq<Half>, k: nat, w: Half)
    requires k < |ws|
    ensures Sum(ws[k := w]) == Sum(ws) - ws[k] + w
  {
    assert ws == ws[..k] + [ws[k]] + ws[k + 1..];
    assert ws[k := w] == ws[..k] + [w] + ws[k + 1..];
    SumAppend(ws[..k] + [ws[k]], ws[k + 1..]);
    SumAppend(ws[..k], [ws[k]]);
    SumAppend(ws[..k] + [w], ws[k + 1..]);
    SumAppend(ws[..k], [w]);
  }

  /** Storing a word at an even offset replaces exactly that word. */
  function Store(data: seq<Byte>, k: nat, w: Half): (r: seq<Byte>)
    requires 2 * k + 1 < |data|
  {
    data[2 * k := w % 0x100][2 * k + 1 := w / 0x100]
  }

  lemma {:induction false} StoreWord(data: seq<Byte>, k: nat, w: Half)
    requires 2 * k + 1 < |data|
    ensures Words(Store(data, k, w)) == Words(data)[k := w]
  {
    var d := Store(data, k, w);
    if k == 0 {
      assert d[2..] == data[2..];
    } else {
      assert d[2..] == Store(data[2..], k - 1, w);
      StoreWord(data[2..], k - 1, w);
    }
  }

  /**
   * A receiver that sums a buffer including a stored checksum c finds all ones exactly when c is the checksum
   * of the buffer with that word zeroed, or c is the other representation of zero.
   */
  lemma StoredChecksum(data: seq<Byte>, k: nat, c: Half)
    requires 2 * k + 1 < |data| && Words(data)[k] == 0
    ensures OnesSum(Words(Store(data, k, c))) == 0xFFFF
      <==> c == Checksum(data) || (Checksum(data) == 0 && c == 0xFFFF)
  {
    StoreWord(data, k, c);
    SumReplace(Words(data), k, c);
    FoldIsOnesSum(Words(Store(data, k, c)));
    FoldComplement(Sum(Words(data)), c);
  }

  /** The check of a received header: its checksum field against the checksum of the header with that field zeroed. */
  predicate HeaderAccepted(header: seq<Byte>, k: nat)
    requires 2 * k + 1 < |header|
  {
    Words(header)[k] == Checksum(Store(header, k, 0))
  }

  lemma {:induction false} StoreStored(data: seq<Byte>, k: nat)
    requires 2 * k + 1 < |data|
    ensures Store(Store(data, k, 0), k, Words(data)[k]) == data
  {
    if k > 0 {
      StoreStored(data[2..], k - 1);
      assert Store(data[2..], k - 1, 0) == Store(data, k, 0)[2..];
      assert data == data[..2] + data[2..];
    }
  }

  /** Accepted are exactly the headers that sum to all ones, except those that store all ones for a checksum of zero. */
  lemma AcceptedIff(header: seq<Byte>, k: nat)
    requires 2 * k + 1 < |header|
    ensures HeaderAccepted(header, k) <==>
      OnesSum(Words(header)) == 0xFFFF && !(Words(header)[k] == 0xFFFF && Checksum(Store(header, k, 0)) == 0)
  {
    var zeroed, c := Store(header, k, 0), Words(header)[k];
    StoreWord(header, k, 0);
    StoreStored(header, k);
    StoredChecksum(zeroed, k, c);
  }

  // ---- Words and bytes ----

  /** Word i is made of bytes 2i and 2i + 1, the low one first; behind an odd last byte there is a zero. */
  lemma {:induction false} WordAt(data: seq<Byte>, i: nat)
    requires 2 * i < |data|
    ensures Words(data)[i] == data[2 * i] as int + 256 * (if 2 * i + 1 < |data| then data[2 * i + 1] as int else 0)
    decreases i
  {
    if i > 0 { WordAt(data[2..], i - 1); }
  }

  /** A buffer of odd length has the checksum of the buffer with a zero byte behind it. */
  lemma {:induction false} OddIsPadded(data: seq<Byte>)
    requires |data| % 2 == 1
    ensures Words(data) == Words(data + [0]) && Checksum(data) == Checksum(data + [0])
    decreases |data|
  {
    if |data| > 1 {
      OddIsPadded(data[2..]);
      assert (data + [0])[2..] == data[2..] + [0];
    }
  }

  /** The word with its bytes exchanged. */
  function Swap(w: Half): Half { w % 0x100 * 0x100 + w / 0x100 }

  function Swapped(ws: seq<Half>): (r: seq<Half>)
    ensures |r| == |ws|
  {
    seq(|ws|, i requires 0 <= i < |ws| => Swap(ws[i]))
  }

  lemma SwapAdd(a: Half, b: Half)
    ensures OnesAdd(Swap(a), Swap(b)) == Swap(OnesAdd(a, b))
  {
    var a1: int, a0: int, b1: int, b0: int := a / 0x100, a % 0x100, b / 0x100, b % 0x100;
    var high, low := a1 + b1, a0 + b0;
    assert a == 0x100 * a1 + a0 && b == 0x100 * b1 + b0;
    if high + (if low >= 0x100 then 1 else 0) < 0x100 {
      SwapOf(high + (if low >= 0x100 then 1 else 0), if low >= 0x100 then low - 0x100 else low, OnesAdd(a, b));
    } else {
      CarryAdd(a1, a0, b1, b0, OnesAdd(a, b));
    }
  }

  lemma SwapOf(high: int, low: int, w: Half)
    requires 0 <= high < 0x100 && 0 <= low < 0x100 && w == 0x100 * high + low
    ensures Swap(w) == 0x100 * low + high
  {
    assert w / 0x100 == high && w % 0x100 == low;
  }

  lemma CarryAdd(a1: int, a0: int, b1: int, b0: int, w: Half)
    requires 0 <= a1 < 0x100 && 0 <= a0 < 0x100 && 0 <= b1 < 0x100 && 0 <= b0 < 0x100
    requires 0x100 * (a1 + b1) + (a0 + b0) >= 0x1_0000 && w == 0x100 * (a1 + b1) + (a0 + b0) - 0xFFFF
    ensures Swap(w) == OnesAdd(0x100 * a0 + a1, 0x100 * b0 + b1)
  {
    var low := a0 + b0 + 1;
    if low >= 0x200 {
      assert false;
    } else if low >= 0x100 {
      SwapOf(a1 + b1 - 0x100 + 1, low - 0x100, w);
    } else {
      SwapOf(a1 + b1 - 0x100, low, w);
    }
  }

  /** The sum does not depend on the byte order: exchanging the bytes of every word exchanges those of the sum. */
  lemma {:induction false} SwapSum(ws: seq<Half>)
    ensures OnesSum(Swapped(ws)) == Swap(OnesSum(ws))
  {
    if ws != [] {
      assert Swapped(ws)[1..] == Swapped(ws[1..]);
      SwapSum(ws[1..]);
      SwapAdd(ws[0], OnesSum(ws[1..]));
    }
  }

  /** The computation of the network layer; the accumulator never exceeds 32 bits. */
  method NetChecksum(data: seq<Byte>) returns (r: Half)
    requires |data| <= 0xFFFF
    ensures r == Checksum(data)
    ensures r == 0xFFFF - OnesSum(Words(data))
  {
    var sum: Word := 0;
    var pos, length := 0, |data|;
    ghost var ws := Words(data);
    while length > 1
      invariant 0 <= length && 0 <= pos && pos + length == |data|
      invariant sum + Sum(Words(data[pos..])) == Sum(ws)
    {
      SumBound(ws);
      assert data[pos..][2..] == data[pos + 2..];
      var low: int, high: int := data[pos], data[pos + 1];
      var acc: int := sum;
      sum := acc + low + 0x100 * high;
      pos, length := pos + 2, length - 2;
    }
    if length > 0 {
      SumBound(ws);
      var acc: int, last: int := sum, data[pos];
      assert data[pos..] == [data[pos]] && Sum([data[pos]]) == last;
      sum := acc + last;
    }
    assert sum == Sum(ws);
    FoldIsOnesSum(ws);
    while sum >= 0x1_0000
      invariant Fold(sum) == Fold(Sum(ws))
      decreases sum
    {
      sum := sum % 0x1_0000 + sum / 0x1_0000;
    }
    r := 0xFFFF - sum;
  }
}
