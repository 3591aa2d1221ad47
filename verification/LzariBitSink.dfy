/** The encoder's output side: a byte under construction, its mask, and the
    destination buffer. */
module LzariBitSink {
  import opened Buffers
  import opened Arithmetic
  import opened LzariModel
  import opened LzariCode

  /** buffer |= mask, for a mask with a single bit. */
  function OrMask(buffer: nat, mask: nat): nat
    requires mask > 0
  {
    if (buffer / mask) % 2 == 1 then buffer else buffer + mask
  }

  /** The byte whose leading bits are given. */
  function ByteOf(bits: seq<nat>): (b: nat)
    requires |bits| <= 8
  {
    if bits == [] then 0 else ByteOf(bits[..|bits| - 1]) + (if bits[|bits| - 1] == 0 then 0 else MaskOf(|bits| - 1))
  }

  predicate AreBits(bits: seq<nat>) {
    forall i :: 0 <= i < |bits| ==> bits[i] <= 1
  }

  lemma {:induction false} ByteOfShape(bits: seq<nat>)
    requires |bits| <= 8 && AreBits(bits)
    ensures |bits| < 8 ==> exists q: nat :: ByteOf(bits) == q * (2 * MaskOf(|bits|))
    ensures |bits| < 8 ==> ByteOf(bits) + 2 * MaskOf(|bits|) <= 256
    ensures ByteOf(bits) < 256
  {
    if bits == [] {
      assert ByteOf(bits) == 0 * (2 * MaskOf(0));
    } else {
      var k := |bits| - 1;
      ByteOfShape(bits[..k]);
      if k < 7 {
        assert MaskOf(k) == 2 * MaskOf(k + 1);
        var q: nat :| ByteOf(bits[..k]) == q * (2 * MaskOf(k));
        OneMoreBit(q, MaskOf(k), MaskOf(k + 1), bits[k]);
        assert ByteOf(bits) == (2 * q + bits[k]) * (2 * MaskOf(k + 1));
      }
    }
  }

  lemma OneMoreBit(q: nat, m: nat, half: nat, bit: nat)
    requires m == 2 * half && bit <= 1
    ensures q * (2 * m) + (if bit == 0 then 0 else m) == (2 * q + bit) * (2 * half)
  {
    assert q * (2 * m) == (2 * q) * (2 * half);
    assert (2 * q + bit) * (2 * half) == (2 * q) * (2 * half) + bit * (2 * half);
  }

  lemma DivDivIff(x: nat, e: nat, c: nat, p: nat)
    requires e > 0 && c > 0
    ensures e * c > 0
    ensures p <= x / (e * c) <==> p <= (x / e) / c
  {
    MulMonotone(1, 1, e, c);
    assert p * (e * c) == (p * c) * e;
    QuotientIff(x, e * c, p);
    QuotientIff(x, e, p * c);
    QuotientIff(x / e, c, p);
  }

  lemma DivIgnoresSmall(q: nat, e: nat, c: nat, y: nat)
    requires e > 0 && c > 0 && y < e
    ensures e * c > 0 && (q * e + y) / (e * c) == q / c
  {
    DivOfMultiple(q, e, y);
    DivDivIff(q * e + y, e, c, 0);
    DivDivIff(q * e + y, e, c, q / c);
    DivDivIff(q * e + y, e, c, (q * e + y) / (e * c));
  }

  lemma EvenQuotient(m: nat, c: nat, t: nat)
    requires m > 0
    ensures (t * (2 * m * c)) / m == 2 * (t * c)
  {
    assert t * (2 * m * c) == (2 * (t * c)) * m;
    DivOfMultiple(2 * (t * c), m, 0);
  }

  function Ratio(i: nat, k: nat): (c: nat)
    requires i < k < 8
    ensures c > 0 && MaskOf(i) == 2 * MaskOf(k) * c
  {
    MaskOf(7 - (k - i - 1))
  }

  lemma AddLowBit(q: nat, k: nat, bit: nat, i: nat)
    requires k < 8 && i < 8 && bit <= 1
    ensures var b := q * (2 * MaskOf(k));
            ((b + bit * MaskOf(k)) / MaskOf(i)) % 2 ==
            if i == k then bit else if i < k then (b / MaskOf(i)) % 2 else 0
  {
    var m := MaskOf(k);
    if i < k {
      AddLowBitAbove(q, m, Ratio(i, k), bit);
    } else if i == k {
      AddLowBitAt(q, m, bit);
    } else {
      AddLowBitBelow(q, m, MaskOf(i), Ratio(k, i), bit);
    }
  }

  lemma AddLowBitAt(q: nat, m: nat, bit: nat)
    requires m > 0 && bit <= 1
    ensures ((q * (2 * m) + bit * m) / m) % 2 == bit
  {
    assert q * (2 * m) + bit * m == (2 * q + bit) * m;
    DivOfMultiple(2 * q + bit, m, 0);
  }

  lemma AddLowBitBelow(q: nat, m: nat, low: nat, c: nat, bit: nat)
    requires low > 0 && m == 2 * low * c && bit <= 1
    ensures ((q * (2 * m) + bit * m) / low) % 2 == 0
  {
    assert q * (2 * m) + bit * m == (2 * q + bit) * m;
    EvenQuotient(low, c, 2 * q + bit);
  }

  lemma AddLowBitAbove(q: nat, m: nat, c: nat, bit: nat)
    requires m > 0 && c > 0 && bit <= 1
    ensures 2 * m * c > 0
    ensures (q * (2 * m) + bit * m) / (2 * m * c) == (q * (2 * m)) / (2 * m * c)
  {
    DivIgnoresSmall(q, 2 * m, c, bit * m);
    DivIgnoresSmall(q, 2 * m, c, 0);
  }

  lemma {:induction false} ByteOfBits(bits: seq<nat>, i: nat)
    requires |bits| <= 8 && AreBits(bits) && i < 8
    ensures (ByteOf(bits) / MaskOf(i)) % 2 == if i < |bits| then bits[i] else 0
  {
    if bits == [] {
      assert MaskOf(i) > 0;
    } else {
      var front := bits[..|bits| - 1];
      ByteOfBits(front, i);
      ByteOfShape(front);
      var k := |front|;
      var q: nat :| ByteOf(front) == q * (2 * MaskOf(k));
      AddLowBit(q, k, bits[k], i);
    }
  }

  // ---------- the sink

  /** The bytes that hold the first 8 * n bits. */
  function Packed(bits: seq<nat>, n: nat): (r: seq<Byte>)
    requires 8 * n <= |bits| && AreBits(bits)
    ensures |r| == n
  {
    if n == 0 then [] else
      ByteOfShape(bits[8 * (n - 1)..8 * n]);
      Packed(bits, n - 1) + [ByteOf(bits[8 * (n - 1)..8 * n])]
  }

  lemma {:induction false} PackedBits(bits: seq<nat>, n: nat, i: nat)
    requires 8 * n <= |bits| && AreBits(bits) && i < 8 * n
    ensures BitAt(Packed(bits, n), i) == bits[i]
  {
    if i / 8 == n - 1 {
      ByteOfBits(bits[8 * (n - 1)..8 * n], i % 8);
    } else {
      PackedBits(bits, n - 1, i);
    }
  }

  lemma {:induction false} PackedPrefix(bits: seq<nat>, more: seq<nat>, n: nat)
    requires 8 * n <= |bits| && AreBits(bits) && AreBits(more)
    ensures AreBits(bits + more)
    ensures Packed(bits + more, n) == Packed(bits, n)
  {
    if n > 0 {
      PackedPrefix(bits, more, n - 1);
      assert (bits + more)[8 * (n - 1)..8 * n] == bits[8 * (n - 1)..8 * n];
    }
  }

  lemma PackedNext(bits: seq<nat>, n: nat)
    requires 8 * (n + 1) <= |bits| && AreBits(bits)
    ensures Packed(bits, n + 1) == Packed(bits, n) + [ByteOf(bits[8 * n..8 * (n + 1)])]
  {
  }

  lemma EmptyByte()
    ensures ByteOf([]) == 0 && MaskOf(0) == 128
  {
  }

  lemma OrMaskAppends(pending: seq<nat>, bit: nat)
    requires |pending| < 8 && AreBits(pending) && bit <= 1
    ensures ByteOf(pending + [bit]) ==
            if bit == 1 then OrMask(ByteOf(pending), MaskOf(|pending|)) else ByteOf(pending)
  {
    var k := |pending|;
    ByteOfBits(pending, k);
    assert (pending + [bit])[..k] == pending;
  }

  class BitSink {
    const dst: array<Byte>
    const capacity: nat      // *dstlen on entry
    var written: nat
    var buffer: nat
    var mask: nat
    var srclen: nat          // *srclen
    ghost var bits: seq<nat> // every bit put so far

    ghost predicate Valid()
      reads this, dst
    {
      && capacity <= dst.Length && written <= capacity
      && AreBits(bits)
      && 8 * written <= |bits| < 8 * written + 8
      && mask == MaskOf(|bits| - 8 * written)
      && buffer == ByteOf(bits[8 * written..])
      && dst[..written] == Packed(bits, written)
    }

    /** The buffer was full when one more byte was complete. */
    ghost predicate Overflowed()
      reads this, dst
    {
      && capacity <= dst.Length && written == capacity
      && AreBits(bits) && |bits| >= 8 * capacity + 8
      && dst[..written] == Packed(bits, written)
    }

    constructor (dst: array<Byte>, capacity: nat, srclen: nat)
      requires capacity <= dst.Length
      ensures Valid() && bits == [] && this.dst == dst && this.capacity == capacity
      ensures this.srclen == srclen && written == 0
    {
      this.dst, this.capacity, this.srclen := dst, capacity, srclen;
      written, buffer, mask, bits := 0, 0, 128, [];
    }

    /** One bit: set it under the mask, then advance. */
    method PutBit(bit: nat, read: nat) returns (ok: bool)
      requires Valid() && bit <= 1
      modifies this, dst
      ensures bits == old(bits) + [bit]
      ensures if ok then Valid() else Overflowed()
      ensures written >= old(written)
      ensures srclen == if written > old(written) then read else old(srclen)
    {
      hide ByteOf, Packed, OrMask, MaskOf;
      ghost var pending := bits[8 * written..];
      OrMaskAppends(pending, bit);
      PackedPrefix(bits, [bit], written);
      if bit == 1 {
        buffer := OrMask(buffer, mask);
      }
      bits := bits + [bit];
      assert bits[8 * written..] == pending + [bit];
      ok := Advance(read);
    }

    /** Move to the next mask bit, handing over a byte that is full. */
    method Advance(read: nat) returns (ok: bool)
      requires capacity <= dst.Length && written <= capacity && AreBits(bits)
      requires 8 * written < |bits| <= 8 * written + 8
      requires mask == MaskOf(|bits| - 8 * written - 1)
      requires buffer == ByteOf(bits[8 * written..])
      requires dst[..written] == Packed(bits, written)
      modifies this, dst
      ensures bits == old(bits)
      ensures if ok then Valid() else Overflowed()
      ensures written >= old(written)
      ensures srclen == if written > old(written) then read else old(srclen)
    {
      hide ByteOf, Packed, MaskOf;
      ByteOfShape(bits[8 * written..]);
      HalfMask(|bits| - 8 * written - 1);
      mask := mask / 2;
      if mask == 0 {
        assert |bits| == 8 * written + 8;
        if written >= capacity {
          return false;
        }
        assert bits[8 * written..] == bits[8 * written..8 * (written + 1)];
        dst[written] := buffer;
        assert dst[..written + 1] == dst[..written] + [dst[written]];
        buffer := 0;
        mask := 128;
        written := written + 1;
        srclen := read;
        EmptyByte();
        PackedNext(bits, written - 1);
        assert bits[8 * written..] == [];
      }
      ok := true;
    }
  }
}
