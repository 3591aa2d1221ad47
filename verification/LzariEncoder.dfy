/** The encoder's arithmetic state: low, high and the count of postponed bits. */
module LzariEncoder {
  import opened Buffers
  import opened LzariModel
  import opened LzariCode
  import opened LzariBitSink

  /** The offset of the interval that the bits already put and the postponed
      ones stand for. */
  ghost function BaseOf(bits: seq<nat>, shifts: nat): nat {
    if shifts == 0 then Q4 * Val(bits) else 2 * BaseOf(bits, shifts - 1) + Q2
  }

  /** bit followed by n copies of its opposite. */
  ghost function Resolved(bit: nat, n: nat): (r: seq<nat>)
    requires bit <= 1
    ensures |r| == n + 1 && AreBits(r)
  {
    if n == 0 then [bit] else Resolved(bit, n - 1) + [1 - bit]
  }

  /** Resolving the postponed bits gives the offset that DropLow and DropHigh prescribe. */
  lemma {:induction false} ResolvedBase(bits: seq<nat>, bit: nat, n: nat)
    requires bit <= 1
    ensures BaseOf(bits + Resolved(bit, n), 0) == 2 * (BaseOf(bits, n) + bit * Q2)
  {
    var r := bits + Resolved(bit, n);
    if n == 0 {
      assert r[..|r| - 1] == bits;
    } else {
      ResolvedBase(bits, bit, n - 1);
      assert r[..|r| - 1] == bits + Resolved(bit, n - 1);
    }
  }

  /** The bits that the flush must still be able to place. */
  function BitsNeeded(c: Coder): nat {
    c.doublings + 2
  }

  lemma {:induction false} RenormDoublings(c: Coder)
    requires IsInterval(c)
    ensures Renorm(c).doublings >= c.doublings
    decreases Q4 - (c.high - c.low)
  {
    if c.high <= Q2 { RenormDoublings(DropLow(c)); }
    else if c.low >= Q2 { RenormDoublings(DropHigh(c)); }
    else if c.low >= Q1 && c.high <= Q3 { RenormDoublings(DropMiddle(c)); }
  }

  /** One round of the loop, and the doublings it will at least end with. */
  lemma RenormStep(c: Coder)
    requires IsInterval(c)
    ensures c.high <= Q2 ==> IsInterval(DropLow(c)) && Renorm(c) == Renorm(DropLow(c))
    ensures c.low >= Q2 ==> IsInterval(DropHigh(c)) && Renorm(c) == Renorm(DropHigh(c))
    ensures c.high > Q2 && c.low < Q2 ==>
              if c.low >= Q1 && c.high <= Q3 then IsInterval(DropMiddle(c)) && Renorm(c) == Renorm(DropMiddle(c))
              else Renorm(c) == c
    ensures Renorm(c).doublings >= if c.high <= Q2 || c.low >= Q2 then c.doublings + 1 else c.doublings
  {
    if c.high <= Q2 { RenormDoublings(DropLow(c)); }
    else if c.low >= Q2 { RenormDoublings(DropHigh(c)); }
    else { RenormDoublings(c); }
  }

  lemma PostponedBase(bits: seq<nat>, n: nat)
    ensures BaseOf(bits, n + 1) == 2 * BaseOf(bits, n) + Q2
  {
  }

  /** Where the flushed bits put the code string. */
  ghost function FlushValue(c: Coder): nat {
    if c.low < Q1 then c.base + Q1 else c.base + Q2
  }

  ghost function Zeros(n: nat): (r: seq<nat>)
    ensures |r| == n && forall i :: 0 <= i < n ==> r[i] == 0
  {
    seq(n, i => 0)
  }

  /** What a finished encoding is: just enough bytes, holding the flush value. */
  ghost predicate Finished(c: Coder, bytes: seq<Byte>) {
    && |bytes| == (BitsNeeded(c) + 7) / 8
    && Prefix(bytes, M_BITS + c.doublings) == FlushValue(c)
    && (forall i :: i >= BitsNeeded(c) ==> BitAt(bytes, i) == 0)
  }

  lemma PrefixThreeZeros(bytes: seq<Byte>, n: nat)
    requires forall i :: n <= i < n + 3 ==> BitAt(bytes, i) == 0
    ensures Prefix(bytes, n + 3) == 8 * Prefix(bytes, n)
  {
    hide BitAt;
    assert Prefix(bytes, n + 1) == 2 * Prefix(bytes, n);
    assert Prefix(bytes, n + 2) == 2 * Prefix(bytes, n + 1);
  }

  lemma PrefixZeros(bytes: seq<Byte>, n: nat)
    requires forall i :: n <= i < n + 15 ==> BitAt(bytes, i) == 0
    ensures Prefix(bytes, n + 15) == Q1 * Prefix(bytes, n)
  {
    hide BitAt, Prefix;
    PrefixThreeZeros(bytes, n);
    PrefixThreeZeros(bytes, n + 3);
    PrefixThreeZeros(bytes, n + 6);
    PrefixThreeZeros(bytes, n + 9);
    PrefixThreeZeros(bytes, n + 12);
  }

  /** The bits put by a flush are a finished encoding. */
  lemma FlushFinished(c: Coder, bits: seq<nat>, shifts: nat, bit: nat)
    requires c.base == BaseOf(bits, shifts) && c.doublings == |bits| + shifts && AreBits(bits)
    requires bit == if c.low < Q1 then 0 else 1
    ensures var all := bits + Resolved(bit, shifts + 1) + Zeros(7);
            AreBits(all) && 8 * (|all| / 8) <= |all| && Finished(c, Packed(all, |all| / 8))
  {
    hide BitAt, Prefix, Resolved, Zeros, Val, Packed;
    var coded := bits + Resolved(bit, shifts + 1);
    var all := coded + Zeros(7);
    var n := |all| / 8;
    assert AreBits(all) && |coded| == BitsNeeded(c) <= 8 * n <= |all|;
    var bytes := Packed(all, n);
    forall i: nat
      ensures BitAt(bytes, i) == if i < |coded| then coded[i] else 0
    {
      if i < 8 * n { PackedBits(all, n, i); } else { BitPastEnd(bytes, i); }
    }
    PrefixIsVal(bytes, coded);
    PrefixZeros(bytes, |coded|);
    ResolvedBase(bits, bit, shifts + 1);
  }

  lemma BitPastEnd(bytes: seq<Byte>, i: nat)
    requires i >= 8 * |bytes|
    ensures BitAt(bytes, i) == 0
  {
  }

  /** A finished encoding lies in its interval. */
  lemma FinishedContained(c: Coder, bytes: seq<Byte>)
    requires Ready(c) && Finished(c, bytes)
    ensures Contains(c, bytes)
  {
  }

  class Encoder {
    const sink: BitSink
    var low: nat
    var high: nat
    var shifts: nat

    constructor (sink: BitSink)
      requires sink.Valid() && sink.bits == []
      ensures this.sink == sink && low == 0 && high == Q4 && shifts == 0
      ensures CoderOf() == Coder(0, 0, Q4, 0)
    {
      this.sink := sink;
      low, high, shifts := 0, Q4, 0;
    }

    ghost function CoderOf(): Coder
      reads this, sink
    {
      Coder(BaseOf(sink.bits, shifts), low, high, |sink.bits| + shifts)
    }

    /** Put bit and then the postponed bits, all opposite to it. */
    method PutResolved(bit: nat, read: nat) returns (ok: bool)
      requires sink.Valid() && bit <= 1
      modifies this`shifts, sink, sink.dst
      ensures ok ==> sink.Valid() && shifts == 0 && sink.bits == old(sink.bits) + Resolved(bit, old(shifts))
      ensures !ok ==> sink.Overflowed() && |sink.bits| <= |old(sink.bits)| + 1 + old(shifts)
      ensures sink.written >= old(sink.written)
      ensures sink.srclen == if sink.written > old(sink.written) then read else old(sink.srclen)
    {
      hide BitSink.Valid, BitSink.Overflowed;
      ghost var n := shifts;
      ghost var bits0 := sink.bits;
      ok := sink.PutBit(bit, read);
      if !ok { return; }
      while shifts > 0
        invariant shifts <= n && sink.Valid()
        invariant sink.bits == bits0 + Resolved(bit, n - shifts)
        invariant sink.written >= old(sink.written)
        invariant sink.srclen == if sink.written > old(sink.written) then read else old(sink.srclen)
      {
        ok := sink.PutBit(1 - bit, read);
        if !ok { return; }
        shifts := shifts - 1;
        assert sink.bits == bits0 + Resolved(bit, n - shifts);
      }
    }

    /** The renormalisation loop. */
    method Renormalise(read: nat) returns (ok: bool)
      requires sink.Valid() && IsInterval(CoderOf())
      modifies this, sink, sink.dst
      ensures ok ==> sink.Valid() && CoderOf() == Renorm(old(CoderOf()))
      ensures !ok ==> sink.Overflowed() && |sink.bits| <= Renorm(old(CoderOf())).doublings
      ensures sink.written >= old(sink.written)
      ensures sink.srclen == if sink.written > old(sink.written) then read else old(sink.srclen)
    {
      hide BitSink.Valid, BitSink.Overflowed, Resolved, Renorm, BaseOf;
      ghost var goal := Renorm(CoderOf());
      while true
        invariant sink.Valid() && IsInterval(CoderOf())
        invariant Renorm(CoderOf()) == goal
        invariant sink.written >= old(sink.written)
        invariant sink.srclen == if sink.written > old(sink.written) then read else old(sink.srclen)
        decreases Q4 - (high - low)
      {
        ghost var c := CoderOf();
        RenormStep(c);
        if high <= Q2 {
          ResolvedBase(sink.bits, 0, shifts);
          ok := PutResolved(0, read);
          if !ok { return; }
        } else if low >= Q2 {
          ResolvedBase(sink.bits, 1, shifts);
          ok := PutResolved(1, read);
          if !ok { return; }
          low := low - Q2;
          high := high - Q2;
        } else if low >= Q1 && high <= Q3 {
          PostponedBase(sink.bits, shifts);
          shifts := shifts + 1;
          low := low - Q1;
          high := high - Q1;
        } else {
          break;
        }
        low := low + low;
        high := high + high;
      }
      ok := true;
    }

    /** Narrow the interval to a slice of a cumulative table and renormalise. */
    method CodeSlice(cumLow: nat, cumHigh: nat, total: nat, read: nat) returns (ok: bool)
      requires sink.Valid() && Ready(CoderOf())
      requires cumLow < cumHigh <= total <= MAX_CUM
      modifies this, sink, sink.dst
      ensures IsInterval(Narrow(old(CoderOf()), cumLow, cumHigh, total))
      ensures ok ==> sink.Valid() && CoderOf() == Renorm(Narrow(old(CoderOf()), cumLow, cumHigh, total))
      ensures !ok ==> sink.Overflowed() && |sink.bits| <= Renorm(Narrow(old(CoderOf()), cumLow, cumHigh, total)).doublings
      ensures sink.written >= old(sink.written)
      ensures sink.srclen == if sink.written > old(sink.written) then read else old(sink.srclen)
    {
      NarrowInside(CoderOf(), cumLow, cumHigh, total);
      var range := high - low;
      assert range * cumHigh == cumHigh * range && range * cumLow == cumLow * range;
      high := low + range * cumHigh / total;
      low := low + range * cumLow / total;
      ok := Renormalise(read);
    }

    /** Seven zero bits push out a byte that has begun. */
    method PushOut(read: nat) returns (ok: bool)
      requires sink.Valid()
      modifies sink, sink.dst
      ensures ok ==> sink.Valid() && sink.bits == old(sink.bits) + Zeros(7)
      ensures !ok ==> sink.Overflowed() && |sink.bits| <= |old(sink.bits)| + 7
      ensures sink.written >= old(sink.written)
      ensures sink.srclen == if sink.written > old(sink.written) then read else old(sink.srclen)
    {
      hide BitSink.Valid, BitSink.Overflowed;
      var i := 0;
      while i < 7
        invariant 0 <= i <= 7 && sink.Valid()
        invariant sink.bits == old(sink.bits) + Zeros(i)
        invariant sink.written >= old(sink.written)
        invariant sink.srclen == if sink.written > old(sink.written) then read else old(sink.srclen)
      {
        ok := sink.PutBit(0, read);
        if !ok { return; }
        i := i + 1;
      }
      ok := true;
    }

    /** The final bits, and the zeros that push out the last byte. */
    method Flush(read: nat) returns (ok: bool)
      requires sink.Valid() && Ready(CoderOf())
      modifies this, sink, sink.dst
      ensures sink.written <= sink.capacity <= sink.dst.Length
      ensures ok ==> Finished(old(CoderOf()), sink.dst[..sink.written])
      ensures !ok ==> sink.written == sink.capacity && BitsNeeded(old(CoderOf())) > 8 * sink.capacity
      ensures ok ==> sink.written > old(sink.written) && sink.srclen == read
    {
      hide Finished, Resolved, Zeros, BaseOf, Packed;
      ghost var c := CoderOf();
      ghost var bits0, shifts0 := sink.bits, shifts;
      ghost var written0 := sink.written;
      assert 8 * written0 <= |bits0|;
      shifts := shifts + 1;
      var bit := if low < Q1 then 0 else 1;
      ok := PutResolved(bit, read);
      if !ok { return; }
      ok := PushOut(read);
      if !ok { return; }
      FlushFinished(c, bits0, shifts0, bit);
      assert sink.written == |sink.bits| / 8;
    }
  }
}
