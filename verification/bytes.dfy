/** Bytes, machine integers, little-endian 32-bit words inside a byte buffer, and C strings. */
module Bytes {
  type Byte = x: int | 0 <= x < 0x100
  type Word = x: int | 0 <= x < 0x1_0000_0000
  type U64 = x: int | 0 <= x < 0x1_0000_0000_0000_0000

  const U64_MAX: U64 := 0xFFFF_FFFF_FFFF_FFFF

  /** `*((uint32_t *)b + i)`. */
  function WordAt(b: seq<Byte>, i: nat): Word
    requires 4 * i + 4 <= |b|
  {
    FromBytes(b[4 * i], b[4 * i + 1], b[4 * i + 2], b[4 * i + 3])
  }

  function FromBytes(b0: int, b1: int, b2: int, b3: int): int {
    b0 + 0x100 * (b1 + 0x100 * (b2 + 0x100 * b3))
  }

  /** The four bytes of a word, least significant first. */
  function WordBytes(w: Word): (r: seq<Byte>)
    ensures |r| == 4 && FromBytes(r[0], r[1], r[2], r[3]) == w
  {
    var q1 := w / 0x100;
    var q2 := q1 / 0x100;
    [w % 0x100, q1 % 0x100, q2 % 0x100, q2 / 0x100]
  }

  /** `*((uint32_t *)b + i) = w`. */
  function PutWord(b: seq<Byte>, i: nat, w: Word): (r: seq<Byte>)
    requires 4 * i + 4 <= |b|
    ensures |r| == |b|
    ensures r[..4 * i] == b[..4 * i] && r[4 * i + 4..] == b[4 * i + 4..]
    ensures WordAt(r, i) == w
  {
    b[..4 * i] + WordBytes(w) + b[4 * i + 4..]
  }

  /** Words are stored little-endian, and the 64-bit limit is the largest value of its type. */
  lemma ByteOrder(b: seq<Byte>, i: nat, w: Word, n: U64)
    requires 4 * i + 4 <= |b|
    ensures var r := PutWord(b, i, w);
      && r[4 * i] == w % 256 && r[4 * i + 1] == w / 256 % 256
      && r[4 * i + 2] == w / 65536 % 256 && r[4 * i + 3] == w / 16777216
    ensures n <= U64_MAX
  {
  }

  lemma PutWordOther(b: seq<Byte>, i: nat, w: Word, j: nat)
    requires 4 * i + 4 <= |b| && 4 * j + 4 <= |b| && i != j
    ensures WordAt(PutWord(b, i, w), j) == WordAt(b, j)
  {
  }

  /** The buffer seen as an array of 32-bit words. */
  function Words(b: seq<Byte>): (ws: seq<Word>)
    requires |b| % 4 == 0
    ensures |ws| == |b| / 4
    ensures forall i :: 0 <= i < |ws| ==> ws[i] == WordAt(b, i)
  {
    seq(|b| / 4, i requires 0 <= i < |b| / 4 => WordAt(b, i))
  }

  /** Store consecutive words, starting with word `at`. */
  function PutWords(b: seq<Byte>, at: nat, ws: seq<Word>): (r: seq<Byte>)
    requires 4 * (at + |ws|) <= |b|
    ensures |r| == |b|
    decreases |ws|
  {
    if ws == [] then b else PutWords(PutWord(b, at, ws[0]), at + 1, ws[1..])
  }

  lemma {:induction false} PutWordsAt(b: seq<Byte>, at: nat, ws: seq<Word>, j: nat)
    requires 4 * (at + |ws|) <= |b| && 4 * j + 4 <= |b|
    ensures WordAt(PutWords(b, at, ws), j) == if at <= j < at + |ws| then ws[j - at] else WordAt(b, j)
    decreases |ws|
  {
    if ws != [] {
      PutWordsAt(PutWord(b, at, ws[0]), at + 1, ws[1..], j);
      if j != at {
        PutWordOther(b, at, ws[0], j);
      }
    }
  }

  lemma {:induction false} PutWordsPrefix(b: seq<Byte>, at: nat, ws: seq<Word>)
    requires 4 * (at + |ws|) <= |b|
    ensures PutWords(b, at, ws)[..4 * at] == b[..4 * at]
    decreases |ws|
  {
    if ws != [] {
      var b' := PutWord(b, at, ws[0]);
      PutWordsPrefix(b', at + 1, ws[1..]);
      var r := PutWords(b, at, ws);
      assert r[..4 * at] == r[..4 * (at + 1)][..4 * at] == b'[..4 * at];
    }
  }

  /** `strlen`: the offset of the first zero byte; the whole buffer when it has none. */
  function StrLen(b: seq<Byte>): (n: nat)
    ensures n <= |b|
    ensures forall k :: 0 <= k < n ==> b[k] != 0
    ensures n < |b| ==> b[n] == 0
  {
    if b == [] || b[0] == 0 then 0 else 1 + StrLen(b[1..])
  }

  /** A little-endian word below 2^16 stops `strlen` before its third byte. */
  lemma SmallWordStopsStrLen(b: seq<Byte>)
    requires |b| >= 4 && WordAt(b, 0) < 0x1_0000
    ensures StrLen(b) / 4 == 0
  {
  }
}
