/** Words in memory, least significant byte first. */
module LittleEndian {
  import opened Buffers

  type Word = x: int | 0 <= x < 0x1_0000_0000

  function Le16(x: nat): (s: seq<Byte>)
    requires x < 0x10000
    ensures |s| == 2
  {
    [x % 256, x / 256]
  }

  function Le32(x: Word): (s: seq<Byte>)
    ensures |s| == 4
  {
    [x % 256, x / 256 % 256, x / 0x10000 % 256, x / 0x1000000]
  }

  function Get16(b: seq<Byte>, i: nat): (x: nat)
    requires i + 2 <= |b|
    ensures x < 0x10000
  {
    var lo: nat, hi: nat := b[i], b[i + 1];
    lo + 256 * hi
  }

  function Get32(b: seq<Byte>, i: nat): (x: Word)
    requires i + 4 <= |b|
  {
    var b0: nat, b1: nat, b2: nat, b3: nat := b[i], b[i + 1], b[i + 2], b[i + 3];
    b0 + 256 * b1 + 0x10000 * b2 + 0x1000000 * b3
  }

  lemma Le16Back(b: seq<Byte>, i: nat, x: nat)
    requires i + 2 <= |b| && x < 0x10000 && b[i..i + 2] == Le16(x)
    ensures Get16(b, i) == x
  {
    assert b[i] == b[i..i + 2][0] && b[i + 1] == b[i..i + 2][1];
  }

  lemma Le32Back(b: seq<Byte>, i: nat, x: Word)
    requires i + 4 <= |b| && b[i..i + 4] == Le32(x)
    ensures Get32(b, i) == x
  {
    assert b[i] == b[i..i + 4][0] && b[i + 1] == b[i..i + 4][1] && b[i + 2] == b[i..i + 4][2] && b[i + 3] == b[i..i + 4][3];
    Digits(x);
  }

  lemma Digits(x: Word)
    ensures x == x % 256 + 256 * (x / 256 % 256) + 0x10000 * (x / 0x10000 % 256) + 0x1000000 * (x / 0x1000000)
  {
    assert x / 0x10000 == x / 256 / 256 && x / 0x1000000 == x / 0x10000 / 256;
  }
}
