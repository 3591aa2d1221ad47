/** The decoder's arithmetic state: the bit reader, low, high and value. */
module LzariDecoder {
  import opened Buffers
  import opened LzariModel
  import opened LzariCode

  class Decoder {
    const src: seq<Byte>
    var ip: nat
    var buffer: nat
    var mask: nat
    var low: nat
    var high: nat
    var value: nat
    ghost var taken: nat  // bits read so far
    ghost var base: nat   // offset of the interval

    /** The reader stands behind bit number taken. */
    ghost predicate ReaderValid()
      reads this`ip, this`buffer, this`mask, this`taken
    {
      && mask == (if taken == 0 then 0 else MaskOf((taken - 1) % 8))
      && ip == (if (taken + 7) / 8 <= |src| then (taken + 7) / 8 else |src|)
      && (taken > 0 ==> buffer == if (taken - 1) / 8 < |src| then src[(taken - 1) / 8] else 0)
    }

    ghost function CoderOf(): Coder
      requires taken >= M_BITS
      reads this
    {
      Coder(base, low, high, taken - M_BITS)
    }

    /** value is the code string seen from the interval's offset, and lies inside. */
    ghost predicate Valid()
      reads this
    {
      && ReaderValid() && taken >= M_BITS
      && IsInterval(CoderOf())
      && base + value == Prefix(src, taken)
      && low <= value < high
    }

    constructor (src: seq<Byte>)
      ensures this.src == src && ReaderValid() && taken == 0
      ensures low == 0 && high == Q4 && value == 0 && base == 0
    {
      this.src := src;
      ip, buffer, mask, low, high, value := 0, 0, 0, 0, Q4, 0;
      taken, base := 0, 0;
    }

    /** The code string read lies in the current interval. */
    lemma ContainsCode()
      requires Valid()
      ensures Contains(CoderOf(), src)
    {
    }

    method NextBit() returns (bit: nat)
      requires ReaderValid()
      modifies this`ip, this`buffer, this`mask, this`taken
      ensures ReaderValid() && taken == old(taken) + 1
      ensures bit == BitAt(src, old(taken))
    {
      hide MaskOf, BitAt;
      BitIs(src, taken);
      ReaderStep(taken);
      if taken > 0 { HalfMask((taken - 1) % 8); }
      FirstMask();
      mask := mask / 2;
      if mask == 0 {
        buffer := if ip >= |src| then 0 else src[ip];
        ip := if ip >= |src| then ip else ip + 1;
        mask := 128;
      }
      bit := (buffer / mask) % 2;
      taken := taken + 1;
    }

    /** The first M + 2 bits. */
    method Start()
      requires ReaderValid() && taken == 0 && base == 0 && value == 0 && low == 0 && high == Q4
      modifies this
      ensures Valid() && CoderOf() == Coder(0, 0, Q4, 0)
    {
      hide ReaderValid, BitAt;
      var i := 0;
      var bound := 1;
      while i < M_BITS
        invariant 0 <= i <= M_BITS && ReaderValid() && taken == i && base == 0
        invariant value == Prefix(src, i)
        invariant low == 0 && high == Q4
        invariant bound == Power(i) && value < bound
      {
        var bit := NextBit();
        value := 2 * value + bit;
        i := i + 1;
        bound := 2 * bound;
      }
      assert Power(5) == 32;
      assert Power(10) == 1024;
      assert Power(15) == 32768;
      assert Power(17) == Q4;
    }

    /** The renormalisation loop. */
    method Renormalise()
      requires Valid()
      modifies this
      ensures Valid() && CoderOf() == Renorm(old(CoderOf()))
    {
      hide ReaderValid, Prefix, RenormDecoder;
      RenormOrdersAgree(CoderOf());
      ghost var goal := RenormDecoder(CoderOf());
      while true
        invariant Valid() && RenormDecoder(CoderOf()) == goal
        decreases Q4 - (high - low)
      {
        DecoderStep(CoderOf());
        if low >= Q2 {
          value := value - Q2;
          low := low - Q2;
          high := high - Q2;
          base := base + Q2;
        } else if low >= Q1 && high <= Q3 {
          value := value - Q1;
          low := low - Q1;
          high := high - Q1;
          base := base + Q1;
        } else if high > Q2 {
          break;
        }
        Double();
      }
    }

    /** Zoom in by one bit. */
    method Double()
      requires Valid() && high <= Q2
      modifies this
      ensures Valid() && CoderOf() == DropLow(old(CoderOf()))
    {
      hide ReaderValid, BitAt;
      low := low + low;
      high := high + high;
      value := value * 2;
      base := 2 * base;
      var bit := NextBit();
      value := value + bit;
    }

    /** The quotient that is looked up in a cumulative table. */
    method Quotient(total: nat) returns (range: nat, x: nat)
      requires Valid() && 0 < total <= MAX_CUM
      ensures x < total && range == high - low
      ensures forall cum: nat :: cum <= x <==> Scale(range, cum, total) <= value - low
    {
      range := high - low;
      QuotientFindsSlice(value - low, range, 0, total);
      x := ((value - low + 1) * total - 1) / range;
      forall cum: nat
        ensures cum <= x <==> Scale(range, cum, total) <= value - low
      {
        QuotientFindsSlice(value - low, range, cum, total);
      }
    }

    /** Narrow the interval to the slice that the quotient fell into. */
    method TakeSlice(cumLow: nat, cumHigh: nat, total: nat)
      requires Valid() && Ready(CoderOf())
      requires cumLow < cumHigh <= total <= MAX_CUM
      requires Scale(high - low, cumLow, total) <= value - low < Scale(high - low, cumHigh, total)
      modifies this
      ensures IsInterval(Narrow(old(CoderOf()), cumLow, cumHigh, total))
      ensures Contains(Narrow(old(CoderOf()), cumLow, cumHigh, total), src)
      ensures Valid() && CoderOf() == Renorm(Narrow(old(CoderOf()), cumLow, cumHigh, total))
    {
      NarrowInside(CoderOf(), cumLow, cumHigh, total);
      var range := high - low;
      assert range * cumHigh == cumHigh * range && range * cumLow == cumLow * range;
      high := low + range * cumHigh / total;
      low := low + range * cumLow / total;
      Renormalise();
    }
  }

  /** One round of the loop. */
  lemma DecoderStep(c: Coder)
    requires IsInterval(c)
    ensures if c.low >= Q2 then IsInterval(DropHigh(c)) && RenormDecoder(c) == RenormDecoder(DropHigh(c))
            else if c.low >= Q1 && c.high <= Q3 then IsInterval(DropMiddle(c)) && RenormDecoder(c) == RenormDecoder(DropMiddle(c))
            else if c.high <= Q2 then IsInterval(DropLow(c)) && RenormDecoder(c) == RenormDecoder(DropLow(c))
            else RenormDecoder(c) == c
  {
  }

  lemma ReaderStep(t: nat)
    ensures (t + 8) / 8 == t / 8 + 1
    ensures t % 8 == 0 ==> (t + 7) / 8 == t / 8 && (t > 0 ==> (t - 1) % 8 == 7)
    ensures t % 8 != 0 ==> (t + 7) / 8 == t / 8 + 1 && (t - 1) / 8 == t / 8 && (t - 1) % 8 + 1 == t % 8
  {
  }

  lemma BitIs(bytes: seq<Byte>, t: nat)
    ensures BitAt(bytes, t) == ((if t / 8 < |bytes| then bytes[t / 8] else 0) / MaskOf(t % 8)) % 2
  {
    hide MaskOf;
  }

  lemma FirstMask()
    ensures MaskOf(0) == 128
  {
  }

  function Power(n: nat): nat {
    if n == 0 then 1 else 2 * Power(n - 1)
  }
}
