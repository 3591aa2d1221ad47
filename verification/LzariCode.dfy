/** The integer arithmetic code as mathematics: a token list owns an interval of
    bit strings; longer lists own nested, different tokens own disjoint intervals. */
module LzariCode {
  import opened Buffers
  import opened Arithmetic
  import opened LzariModel

  // ---------- bit strings

  /** The mask the coder holds before handling bit k of a byte. */
  function MaskOf(k: nat): (m: nat)
    requires k < 8
    ensures m >= 1
  {
    [128, 64, 32, 16, 8, 4, 2, 1][k]
  }

  lemma HalfMask(k: nat)
    requires k < 8
    ensures MaskOf(k) / 2 == if k < 7 then MaskOf(k + 1) else 0
  {
  }

  /** Bit i of a byte string that is continued by zeros for ever. */
  function BitAt(bytes: seq<Byte>, i: nat): (b: nat)
    ensures b <= 1
  {
    if i / 8 < |bytes| then (bytes[i / 8] / MaskOf(i % 8)) % 2 else 0
  }

  /** The number written by the first n bits. */
  function Prefix(bytes: seq<Byte>, n: nat): nat {
    if n == 0 then 0 else 2 * Prefix(bytes, n - 1) + BitAt(bytes, n - 1)
  }

  /** The number written by a list of bits. */
  function Val(bits: seq<nat>): nat {
    if bits == [] then 0 else 2 * Val(bits[..|bits| - 1]) + bits[|bits| - 1]
  }

  lemma {:induction false} PrefixIsVal(bytes: seq<Byte>, bits: seq<nat>)
    requires forall i :: 0 <= i < |bits| ==> BitAt(bytes, i) == bits[i]
    ensures Prefix(bytes, |bits|) == Val(bits)
  {
    if bits != [] {
      PrefixIsVal(bytes, bits[..|bits| - 1]);
    }
  }

  // ---------- the coder's interval

  /** low and high relative to base, after a number of doublings. */
  datatype Coder = Coder(base: nat, low: nat, high: nat, doublings: nat)

  predicate IsInterval(c: Coder) {
    c.low < c.high <= Q4
  }

  /** What renormalisation leaves. */
  predicate Ready(c: Coder) {
    && IsInterval(c)
    && c.low < Q2 < c.high
    && (c.low < Q1 || c.high > Q3)
  }

  /** The code string lies in the interval. */
  predicate Contains(c: Coder, bytes: seq<Byte>) {
    c.base + c.low <= Prefix(bytes, M_BITS + c.doublings) < c.base + c.high
  }

  const M_BITS := 17  // M + 2

  function DropLow(c: Coder): Coder
    requires IsInterval(c) && c.high <= Q2
  {
    Coder(2 * c.base, 2 * c.low, 2 * c.high, c.doublings + 1)
  }

  function DropHigh(c: Coder): Coder
    requires IsInterval(c) && c.low >= Q2
  {
    Coder(2 * (c.base + Q2), 2 * (c.low - Q2), 2 * (c.high - Q2), c.doublings + 1)
  }

  function DropMiddle(c: Coder): Coder
    requires IsInterval(c) && c.low >= Q1 && c.high <= Q3
  {
    Coder(2 * (c.base + Q1), 2 * (c.low - Q1), 2 * (c.high - Q1), c.doublings + 1)
  }

  /** Renormalisation, tested in the encoder's order. */
  function Renorm(c: Coder): (r: Coder)
    requires IsInterval(c)
    ensures Ready(r)
    decreases Q4 - (c.high - c.low)
  {
    if c.high <= Q2 then Renorm(DropLow(c))
    else if c.low >= Q2 then Renorm(DropHigh(c))
    else if c.low >= Q1 && c.high <= Q3 then Renorm(DropMiddle(c))
    else c
  }

  /** Renormalisation, tested in the decoder's order. */
  function RenormDecoder(c: Coder): (r: Coder)
    requires IsInterval(c)
    ensures Ready(r)
    decreases Q4 - (c.high - c.low)
  {
    if c.low >= Q2 then RenormDecoder(DropHigh(c))
    else if c.low >= Q1 && c.high <= Q3 then RenormDecoder(DropMiddle(c))
    else if c.high <= Q2 then RenormDecoder(DropLow(c))
    else c
  }

  /** The two orders end in the same interval, offset and number of doublings. */
  lemma {:induction false} RenormOrdersAgree(c: Coder)
    requires IsInterval(c)
    ensures RenormDecoder(c) == Renorm(c)
    decreases Q4 - (c.high - c.low), 1
  {
    if c.low >= Q2 {
      RenormOrdersAgree(DropHigh(c));
    } else if c.low >= Q1 && c.high <= Q3 {
      if c.high <= Q2 {
        RenormOrdersDiverged(DropMiddle(c));
        var d := DropMiddle(c);
        assert DropLow(c) == Coder(d.base - Q2, d.low + Q2, d.high + Q2, d.doublings);
      } else {
        RenormOrdersAgree(DropMiddle(c));
      }
    } else if c.high <= Q2 {
      RenormOrdersAgree(DropLow(c));
    }
  }

  /** Below the middle, the decoder may run half an interval behind the encoder;
      they meet again. */
  lemma {:induction false} RenormOrdersDiverged(d: Coder)
    requires IsInterval(d) && d.high <= Q2 && d.base >= Q2
    ensures RenormDecoder(d) == Renorm(Coder(d.base - Q2, d.low + Q2, d.high + Q2, d.doublings))
    decreases Q4 - (d.high - d.low), 0
  {
    var e := Coder(d.base - Q2, d.low + Q2, d.high + Q2, d.doublings);
    assert Renorm(e) == Renorm(DropHigh(e));
    if d.low >= Q1 {
      RenormOrdersDiverged(DropMiddle(d));
      var d' := DropMiddle(d);
      assert DropHigh(e) == Coder(d'.base - Q2, d'.low + Q2, d'.high + Q2, d'.doublings);
    } else {
      assert DropHigh(e) == DropLow(d);
      RenormOrdersAgree(DropLow(d));
    }
  }

  lemma {:induction false} RenormContains(c: Coder, bytes: seq<Byte>)
    requires IsInterval(c)
    ensures Contains(Renorm(c), bytes) <==> Contains(c, bytes)
    decreases Q4 - (c.high - c.low)
  {
    if c.high <= Q2 {
      RenormContains(DropLow(c), bytes);
    } else if c.low >= Q2 {
      RenormContains(DropHigh(c), bytes);
    } else if c.low >= Q1 && c.high <= Q3 {
      RenormContains(DropMiddle(c), bytes);
    }
  }

  // ---------- one coding step

  function Scale(range: nat, cum: nat, total: nat): (r: nat)
    requires total > 0
  {
    cum * range / total
  }

  function Narrow(c: Coder, cumLow: nat, cumHigh: nat, total: nat): Coder
    requires Ready(c) && cumLow < cumHigh <= total <= MAX_CUM
  {
    var range := c.high - c.low;
    Coder(c.base, c.low + Scale(range, cumLow, total), c.low + Scale(range, cumHigh, total), c.doublings)
  }

  /** A slice of the table is mapped to a non-empty part of the interval, and the
      products fit a 32-bit word. */
  lemma NarrowInside(c: Coder, cumLow: nat, cumHigh: nat, total: nat)
    requires Ready(c) && cumLow < cumHigh <= total <= MAX_CUM
    ensures IsInterval(Narrow(c, cumLow, cumHigh, total))
    ensures Narrow(c, cumLow, cumHigh, total).high <= c.high
    ensures cumHigh * (c.high - c.low) < WORD
  {
    var range := c.high - c.low;
    ScaleStrict(range, cumLow, cumHigh, total);
    ScaleMonotone(range, cumHigh, total, total);
    ProductFits(range, cumHigh);
    assert cumHigh * range == range * cumHigh;
  }

  lemma ProductFits(a: nat, b: nat)
    requires a <= Q4 && b <= MAX_CUM
    ensures a * b < WORD
  {
    MulMonotone(a, b, Q4, MAX_CUM);
  }

  lemma ScaleStrict(range: nat, a: nat, b: nat, total: nat)
    requires a < b <= total <= range && total > 0
    ensures Scale(range, a, total) < Scale(range, b, total)
  {
    assert b * range >= (a + 1) * range == a * range + range;
    QuotientAtLeast(b * range, total, Scale(range, a, total) + 1);
  }

  lemma ScaleMonotone(range: nat, a: nat, b: nat, total: nat)
    requires a <= b && total > 0
    ensures Scale(range, a, total) <= Scale(range, b, total)
    ensures Scale(range, total, total) == range
  {
    assert a * range <= b * range;
    QuotientAtLeast(b * range, total, Scale(range, a, total));
    QuotientAtLeast(total * range, total, range);
    QuotientIff(total * range, total, range + 1);
  }

  /** The decoder's quotient lands in a slice exactly when the value lies in the part
      of the interval that the encoder gives to that slice. */
  lemma QuotientFindsSlice(value: nat, range: nat, cum: nat, total: nat)
    requires value < range <= Q4 && 0 < total <= MAX_CUM
    ensures 0 <= ((value + 1) * total - 1) / range < total
    ensures cum <= ((value + 1) * total - 1) / range <==> Scale(range, cum, total) <= value
    ensures (value + 1) * total < WORD
  {
    ProductFits(value + 1, total);
    MulMonotone(1, total, value + 1, total);
    MulMonotone(value + 1, total, range, total);
    QuotientBelow(value, range, total);
    QuotientSide(value, range, cum, total);
  }

  lemma QuotientBelow(value: nat, range: nat, total: nat)
    requires value < range && total > 0 && 1 <= (value + 1) * total <= range * total
    ensures 0 <= ((value + 1) * total - 1) / range < total
  {
    QuotientIff((value + 1) * total - 1, range, total);
    assert total * range == range * total;
  }

  lemma QuotientSide(value: nat, range: nat, cum: nat, total: nat)
    requires value < range && total > 0 && 1 <= (value + 1) * total
    ensures cum <= ((value + 1) * total - 1) / range <==> Scale(range, cum, total) <= value
  {
    QuotientIff((value + 1) * total - 1, range, cum);
    QuotientIff(cum * range, total, value + 1);
  }

}
