/** Bytes, 32-bit words and their little-endian layout in memory. */
module Bytes {

  type Byte = x: int | 0 <= x < 0x100

  type Half = x: int | 0 <= x < 0x1_0000
  type Word = x: int | 0 <= x < 0x1_0000_0000

  lemma Regroup(a: seq<Byte>, b: seq<Byte>, c: seq<Byte>)
    ensures a + (b + c) == (a + b) + c
  {
  }

  /** The four bytes of a word as a little-endian machine stores them. */
  function PutWord(w: Word): (s: seq<Byte>)
    ensures |s| == 4
  {
    [w % 0x100, w / 0x100 % 0x100, w / 0x1_0000 % 0x100, w / 0x100_0000]
  }

  /** The word stored at offset `at`. */
  function GetWord(s: seq<Byte>, at: nat): Word
    requires at + 4 <= |s|
  {
    var a: int, b: int, c: int, d: int := s[at], s[at + 1], s[at + 2], s[at + 3];
    a + 0x100 * b + 0x1_0000 * c + 0x100_0000 * d
  }

  /** The bytes of a word are its digits to the base 256, the lowest first. */
  lemma LowByteFirst(s: seq<Byte>, at: nat)
    requires at + 4 <= |s|
    ensures var w := GetWord(s, at);
            && w % 0x100 == s[at] && w / 0x100 % 0x100 == s[at + 1]
            && w / 0x1_0000 % 0x100 == s[at + 2] && w / 0x100_0000 == s[at + 3]
  {
    var a: int, b: int, c: int, d: int := s[at], s[at + 1], s[at + 2], s[at + 3];
    assert GetWord(s, at) == 0x100 * (0x100 * (0x100 * d + c) + b) + a;
    assert GetWord(s, at) / 0x100 == 0x100 * (0x100 * d + c) + b;
    assert GetWord(s, at) / 0x1_0000 == 0x100 * d + c;
  }

  lemma PutThenGet(w: Word)
    ensures GetWord(PutWord(w), 0) == w
  {
    var a, b := w / 0x100, w / 0x1_0000;
    assert b == a / 0x100;
    assert w / 0x100_0000 == b / 0x100;
  }

  /** Words at equal byte quadruples are equal. */
  lemma GetWordSame(s: seq<Byte>, at: nat, t: seq<Byte>, at': nat)
    requires at + 4 <= |s| && at' + 4 <= |t|
    requires s[at..at + 4] == t[at'..at' + 4]
    ensures GetWord(s, at) == GetWord(t, at')
  {
    var p, q := s[at..at + 4], t[at'..at' + 4];
    assert p[0] == q[0] && p[1] == q[1] && p[2] == q[2] && p[3] == q[3];
  }
}
