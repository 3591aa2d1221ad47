/** SHA-1 in streaming form, for any block function: however the data is cut into pieces, the
    digest is that of the whole message with the padding of section 5.1.1 of FIPS 180-4. */
module Sha1 {
  import opened Arithmetic
  import opened Buffers

  const WORD := 0x1_0000_0000
  const COUNT := 0x1_0000_0000_0000_0000

  type Word = x: int | 0 <= x < 0x1_0000_0000
  type State = s: seq<Word> | |s| == 5 witness [0, 0, 0, 0, 0]

  const INIT: State := [0x67452301, 0xEFCDAB89, 0x98BADCFE, 0x10325476, 0xC3D2E1F0]

  /** SHA1Transform */
  type Transform = (State, seq<Byte>) -> State

  // ---------- the message as a whole

  /** The block function over all the 64-byte blocks of d. */
  function Fold(tr: Transform, s: State, d: seq<Byte>): State
    decreases |d|
  {
    if |d| < 64 then s else Fold(tr, tr(s, d[..64]), d[64..])
  }

  lemma {:induction false} FoldJoin(tr: Transform, s: State, a: seq<Byte>, b: seq<Byte>)
    requires |a| % 64 == 0
    ensures Fold(tr, s, a + b) == Fold(tr, Fold(tr, s, a), b)
    decreases |a|
  {
    if a == [] {
      assert a + b == b;
    } else {
      assert (a + b)[..64] == a[..64] && (a + b)[64..] == a[64..] + b;
      FoldJoin(tr, tr(s, a[..64]), a[64..], b);
    }
  }

  lemma FoldOne(tr: Transform, s: State, a: seq<Byte>, block: seq<Byte>)
    requires |a| % 64 == 0 && |block| == 64
    ensures Fold(tr, s, a + block) == tr(Fold(tr, s, a), block)
  {
    FoldJoin(tr, s, a, block);
    assert block[..64] == block;
  }

  function Zeros(n: nat): (z: seq<Byte>)
    ensures |z| == n && forall i :: 0 <= i < n ==> z[i] == 0
  {
    seq(n, _ => 0)
  }

  /** A 64-bit number, high byte first. */
  function Be64(x: nat): (b: seq<Byte>)
    requires x < COUNT
    ensures |b| == 8
  {
    Be32(x / WORD) + Be32(x % WORD)
  }

  function Be32(x: Word): (b: seq<Byte>)
    ensures |b| == 4
  {
    [x / 0x1000000, x / 0x10000 % 256, x / 256 % 256, x % 256]
  }

  /** The number of zero bytes after the one bit and its byte. */
  function ZerosFor(n: nat): (k: nat)
    ensures k < 64 && (n + 1 + k) % 64 == 56
  {
    (119 - n % 64) % 64
  }

  /** Section 5.1.1 of FIPS 180-4, for messages of whole bytes. */
  function Padded(d: seq<Byte>): (p: seq<Byte>)
    requires 8 * |d| < COUNT
  {
    d + [0x80] + Zeros(ZerosFor(|d|)) + Be64(8 * |d|)
  }

  function Digest(s: State): seq<Byte> {
    Be32(s[0]) + Be32(s[1]) + Be32(s[2]) + Be32(s[3]) + Be32(s[4])
  }

  function Hash(tr: Transform, d: seq<Byte>): seq<Byte>
    requires 8 * |d| < COUNT
  {
    Digest(Fold(tr, INIT, Padded(d)))
  }

  // ---------- the context

  /** What a context holds after d. */
  ghost predicate Holds(tr: Transform, state: State, buffer: seq<Byte>, d: seq<Byte>) {
    && |buffer| == 64
    && var n := |d| / 64 * 64;
       state == Fold(tr, INIT, d[..n]) && buffer[..|d| - n] == d[n..]
  }

  /** The two counters hold the number of bits modulo 2^64. */
  ghost predicate Counts(count0: nat, count1: nat, n: nat) {
    count0 < WORD && count1 < WORD && count0 + WORD * count1 == 8 * n % COUNT
  }

  lemma CountedBytes(count0: nat, count1: nat, n: nat)
    requires Counts(count0, count1, n)
    ensures count0 / 8 % 64 == n % 64
  {
    var q := 8 * n / COUNT;
    assert 8 * n == COUNT * q + count0 + WORD * count1;
    assert count0 % 8 == 0;
    var c := count0 / 8;
    assert n == 0x2000_0000_0000_0000 * q + c + 0x2000_0000 * count1;
    assert n - c == 64 * (0x80_0000_0000_0000 * q + 0x80_0000 * count1);
    Mod64(c, 0x80_0000_0000_0000 * q + 0x80_0000 * count1);
  }

  lemma Mod64(c: nat, q: nat)
    ensures (64 * q + c) % 64 == c % 64
  {
  }

  /** The carry out of the low counter is noticed by comparing with what was added. */
  lemma CountAdd(count0: nat, count1: nat, n: nat, len: nat)
    requires Counts(count0, count1, n) && len < WORD
    ensures var low := len * 8 % WORD;
            var c0 := (count0 + low) % WORD;
            var carried := if c0 < low then (count1 + 1) % WORD else count1;
            Counts(c0, (carried + len / 0x2000_0000) % WORD, n + len)
  {
    var low, high := len * 8 % WORD, len / 0x2000_0000;
    assert len * 8 == low + WORD * high;
    var c0 := (count0 + low) % WORD;
    var carry := if c0 < low then 1 else 0;
    assert count0 + low == c0 + WORD * carry;
    var c1 := (count1 + carry + high) % WORD;
    var x := (count1 + carry + high) / WORD;
    assert c0 + WORD * c1 + COUNT * x == count0 + WORD * count1 + 8 * len;
    var q := 8 * n / COUNT;
    assert 8 * (n + len) == COUNT * (q + x) + (c0 + WORD * c1);
    ModCount(q + x, c0 + WORD * c1);
    CarryMod(count1, carry, high);
  }

  lemma ModCount(q: nat, r: nat)
    requires r < COUNT
    ensures (COUNT * q + r) % COUNT == r
  {
  }

  lemma CarryMod(count1: nat, carry: nat, high: nat)
    requires count1 < WORD && carry <= 1
    ensures ((if carry == 1 then (count1 + 1) % WORD else count1) + high) % WORD == (count1 + carry + high) % WORD
  {
  }

  // ---------- one update, on values

  /** All of the data fits into the buffer. */
  lemma SmallUpdate(tr: Transform, state: State, buffer: seq<Byte>, buffer': seq<Byte>, d: seq<Byte>, more: seq<Byte>)
    requires Holds(tr, state, buffer, d) && |d| % 64 + |more| < 64
    requires |buffer'| == 64 && buffer'[..|d| % 64 + |more|] == buffer[..|d| % 64] + more
    ensures Holds(tr, state, buffer', d + more)
  {
    hide Fold;
    SameBlocks(|d|, |more|);
    CutLeft(d, more, |d| / 64 * 64);
  }

  lemma Remainder(n: nat)
    ensures n == n / 64 * 64 + n % 64 && (n / 64 * 64) % 64 == 0 && (n + (64 - n % 64)) % 64 == 0
  {
  }

  lemma SumMod(a: nat, b: nat)
    ensures (a % 64 + b) % 64 == (a + b) % 64
  {
  }

  lemma WholeCount(n: nat)
    requires n % 64 == 0
    ensures n / 64 * 64 == n
  {
  }

  lemma SameBlocks(a: nat, b: nat)
    requires a % 64 + b < 64
    ensures (a + b) / 64 == a / 64 && (a + b) % 64 == a % 64 + b
  {
  }

  /** The buffer is filled up and transformed, then whole blocks of the data follow, and the
      rest goes to the buffer: i bytes of the data have been transformed. */
  lemma LargeUpdate(tr: Transform, state: State, d: seq<Byte>, more: seq<Byte>, i: nat, buffer: seq<Byte>)
    requires i <= |more| < i + 64 && (|d| + i) % 64 == 0 && |buffer| == 64
    requires state == Fold(tr, INIT, d + more[..i]) && buffer[..|more| - i] == more[i..]
    ensures Holds(tr, state, buffer, d + more)
  {
    hide Fold;
    SameBlocks(|d| + i, |more| - i);
    CutRight(d, more, i);
    WholeCount(|d| + i);
  }

  lemma HoldsSize(tr: Transform, state: State, buffer: seq<Byte>, d: seq<Byte>)
    requires Holds(tr, state, buffer, d)
    ensures |buffer| == 64
  {
    hide Fold;
  }

  lemma FirstBlock(tr: Transform, state: State, buffer: seq<Byte>, d: seq<Byte>, more: seq<Byte>, block: seq<Byte>)
    requires Holds(tr, state, buffer, d) && |d| % 64 + |more| > 63
    requires var j := |d| % 64; block == buffer[..j] + more[..64 - j]
    ensures var i := 64 - |d| % 64;
            (|d| + i) % 64 == 0 && tr(state, block) == Fold(tr, INIT, d + more[..i])
  {
    hide Fold;
    var j := |d| % 64;
    var n := |d| / 64 * 64;
    Remainder(|d|);
    assert buffer[..j] == d[n..];
    FoldOne(tr, INIT, d[..n], block);
    Whole(d, n);
    Regroup(d[..n], d[n..], more[..64 - j]);
  }

  lemma NextBlock(tr: Transform, state: State, d: seq<Byte>, more: seq<Byte>, i: nat)
    requires i + 64 <= |more| && (|d| + i) % 64 == 0 && state == Fold(tr, INIT, d + more[..i])
    ensures (|d| + (i + 64)) % 64 == 0 && tr(state, more[i..i + 64]) == Fold(tr, INIT, d + more[..i + 64])
  {
    hide Fold;
    FoldOne(tr, INIT, d + more[..i], more[i..i + 64]);
    Regroup(d, more[..i], more[i..i + 64]);
    CutLeft(more[..i + 64], more[i + 64..], i);
    assert more[..i] + more[i..i + 64] == more[..i + 64];
  }

  /** The sum of two 32-bit numbers. */
  function Sum32(a: nat, b: nat): Word {
    (a + b) % WORD
  }

  /** The 32-bit test whether the buffer fills up is right exactly when its sum does not
      wrap: with a longer piece the function would copy past the buffer instead. */
  lemma UpdateTest(j: nat, len: Word)
    requires j < 64
    ensures (Sum32(j, len) > 63 <==> j + len > 63) <==> j + len < WORD
  {
  }

  /** The shortest piece for which it fails, behind a buffer with one byte free. */
  lemma UpdateTestFails()
    ensures var len: Word := WORD - 63; !(Sum32(63, len) > 63) && 63 + len > 64
  {
  }

  /** When the first test is right, so is every test of the loop over whole blocks. */
  lemma LoopTest(j: nat, len: Word, i: nat)
    requires j < 64 && j + len < WORD && i <= len && (j + i) % 64 == 0
    ensures Sum32(i, 63) == i + 63
  {
  }

  // ---------- the context as a class

  class Context {
    const transform: Transform
    var state: State
    var count0: Word
    var count1: Word
    const buffer: array<Byte>
    ghost var message: seq<Byte>  // everything so far

    ghost predicate Valid()
      reads this, buffer
    {
      && buffer.Length == 64 && Holds(transform, state, buffer[..], message) && Counts(count0, count1, |message|)
    }

    /** SHA1Init */
    constructor (transform: Transform)
      ensures Valid() && message == [] && this.transform == transform && fresh(buffer)
    {
      this.transform := transform;
      state, count0, count1, message := INIT, 0, 0, [];
      buffer := new Byte[64](_ => 0);
    }

    /** memcpy into the buffer. */
    method CopyIn(at: nat, d: seq<Byte>)
      requires buffer.Length == 64 && at + |d| <= 64
      modifies buffer
      ensures buffer[..at + |d|] == old(buffer[..at]) + d && buffer[at..at + |d|] == d
    {
      forall i | 0 <= i < |d| { buffer[at + i] := d[i]; }
    }

    /** The bit counters, with the carry between them. */
    method CountBits(len: nat)
      requires Counts(count0, count1, |message|) && len < WORD
      modifies this`count0, this`count1
      ensures Counts(count0, count1, |message| + len)
    {
      CountAdd(count0, count1, |message|, len);
      var low := len * 8 % WORD;
      count0 := (count0 + low) % WORD;
      if count0 < low { count1 := (count1 + 1) % WORD; }
      count1 := (count1 + len / 0x2000_0000) % WORD;
    }

    /** SHA1Update. The 32-bit sum of what is in the buffer and the piece must not wrap: that
        is the exact condition, by UpdateTest. */
    method Update(d: seq<Byte>)
      requires Valid() && |message| % 64 + |d| < WORD
      modifies this`state, this`count0, this`count1, this`message, buffer
      ensures Valid() && message == old(message) + d
    {
      hide Fold, Counts, Holds, Sum32;
      HoldsSize(transform, state, buffer[..], message);
      CountedBytes(count0, count1, |message|);
      var j := count0 / 8 % 64;
      CountBits(|d|);
      UpdateTest(j, |d|);
      if Sum32(j, |d|) > 63 {
        TakeBlocks(j, d);
      } else {
        ghost var buf := buffer[..];
        CopyIn(j, d);
        assert buffer[..j] == buf[..j];
        SmallUpdate(transform, state, buf, buffer[..], message, d);
      }
      message := message + d;
    }

    /** Fill the buffer up, transform it and the whole blocks behind, and keep the rest. */
    method TakeBlocks(j: nat, d: seq<Byte>)
      requires buffer.Length == 64 && Holds(transform, state, buffer[..], message) && j == |message| % 64 && 63 < j + |d| < WORD
      modifies this`state, buffer
      ensures Holds(transform, state, buffer[..], message + d)
    {
      hide Fold, Holds, Sum32;
      ghost var buf := buffer[..];
      var i := 64 - j;
      CopyIn(j, d[..i]);
      FirstBlock(transform, state, buf, message, d, buffer[..]);
      state := transform(state, buffer[..]);
      SumMod(|message|, i);
      LoopTest(j, |d|, i);
      while Sum32(i, 63) < |d|
        invariant 64 - j <= i <= |d| && (|message| + i) % 64 == 0 && state == Fold(transform, INIT, message + d[..i])
        invariant Sum32(i, 63) == i + 63
        decreases |d| - i
      {
        NextBlock(transform, state, message, d, i);
        state := transform(state, d[i..i + 64]);
        i := i + 64;
        SumMod(|message|, i);
        LoopTest(j, |d|, i);
      }
      CopyIn(0, d[i..]);
      LargeUpdate(transform, state, message, d, i, buffer[..]);
    }

    /** SHA1Final. The context is wiped. */
    method Final() returns (digest: seq<Byte>)
      requires Valid() && 8 * |message| < COUNT
      modifies this`state, this`count0, this`count1, this`message, buffer
      ensures digest == Hash(transform, old(message))
      ensures state == [0, 0, 0, 0, 0] && count0 == 0 && count1 == 0 && forall i :: 0 <= i < 64 ==> buffer[i] == 0
    {
      hide Fold, Be32, Be64, Holds, Counts, ZerosFor, Padded, Digest;
      ghost var d := message;
      var finalcount := Be32(count1) + Be32(count0);
      BitCount(count0, count1, |message|);
      Update([0x80]);
      ghost var k := 0;
      NothingMore(d + [0x80]);
      while count0 / 8 % 64 != 56
        invariant Valid() && k <= ZerosFor(|d|) && message == d + [0x80] + Zeros(k)
        decreases ZerosFor(|d|) - k
      {
        CountedBytes(count0, count1, |message|);
        Enough(|d|, k);
        Update([0]);
        Regroup(d + [0x80], Zeros(k), [0]);
        k := k + 1;
        assert Zeros(k) == Zeros(k - 1) + [0];
      }
      CountedBytes(count0, count1, |message|);
      Enough(|d|, k);
      Update(finalcount);
      PaddedParts(d, finalcount);
      WholeBlocks(transform, state, buffer[..], message);
      digest := Digest(state);
      Wipe();
    }

    method Wipe()
      requires buffer.Length == 64
      modifies this`state, this`count0, this`count1, buffer
      ensures state == [0, 0, 0, 0, 0] && count0 == 0 && count1 == 0 && forall i :: 0 <= i < 64 ==> buffer[i] == 0
    {
      forall i | 0 <= i < 64 { buffer[i] := 0; }
      state := [0, 0, 0, 0, 0];
      count0, count1 := 0, 0;
    }
  }

  /** The byte counter reaches 56 modulo 64 exactly after the zeros of the padding. */
  lemma Enough(n: nat, k: nat)
    requires k <= ZerosFor(n)
    ensures (n + 1 + k) % 64 == 56 <==> k == ZerosFor(n)
  {
  }

  lemma PaddedParts(d: seq<Byte>, bits: seq<Byte>)
    requires 8 * |d| < COUNT && bits == Be64(8 * |d|)
    ensures d + [0x80] + Zeros(ZerosFor(|d|)) + bits == Padded(d) && |Padded(d)| % 64 == 0
  {
    hide Be64, Zeros, ZerosFor;
    SumOf56(|d| + 1 + ZerosFor(|d|));
  }

  lemma SumOf56(n: nat)
    requires n % 64 == 56
    ensures (n + 8) % 64 == 0
  {
  }

  lemma BitCount(count0: nat, count1: nat, n: nat)
    requires Counts(count0, count1, n) && 8 * n < COUNT
    ensures Be32(count1) + Be32(count0) == Be64(8 * n)
  {
    hide Be32;
    assert 8 * n == count0 + WORD * count1;
    assert 8 * n / WORD == count1 && 8 * n % WORD == count0;
  }

  lemma WholeBlocks(tr: Transform, state: State, buffer: seq<Byte>, d: seq<Byte>)
    requires Holds(tr, state, buffer, d) && |d| % 64 == 0
    ensures state == Fold(tr, INIT, d)
  {
    hide Fold;
    WholeCount(|d|);
    assert d[..|d|] == d;
  }

  function Joined(pieces: seq<seq<Byte>>): seq<Byte> {
    if pieces == [] then [] else Joined(pieces[..|pieces| - 1]) + pieces[|pieces| - 1]
  }

  /** No piece is so long that the 32-bit test fails when its turn comes. */
  predicate Digestible(pieces: seq<seq<Byte>>) {
    forall i :: 0 <= i < |pieces| ==> |Joined(pieces[..i])| % 64 + |pieces[i]| < WORD
  }

  /** The digest of a message does not depend on how it is cut into pieces. */
  method HashPieces(tr: Transform, pieces: seq<seq<Byte>>) returns (digest: seq<Byte>)
    requires 8 * |Joined(pieces)| < COUNT && Digestible(pieces)
    ensures digest == Hash(tr, Joined(pieces))
  {
    var c := new Context(tr);
    for i := 0 to |pieces|
      invariant c.Valid() && c.message == Joined(pieces[..i]) && c.transform == tr && fresh(c) && fresh(c.buffer)
    {
      c.Update(pieces[i]);
      assert pieces[..i + 1][..i] == pieces[..i];
    }
    assert pieces[..|pieces|] == pieces;
    digest := c.Final();
  }
}
