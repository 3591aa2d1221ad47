/** Reading one instruction off a byte string, as the inverse of writing it. */
module LzoParse {
  import opened Buffers
  import opened Arithmetic
  import opened LzoFormat

  datatype Field = NoField | Field(t: nat, size: nat)

  /** Zeros for 255 each, then the rest. */
  function ReadExt(s: seq<Byte>, t: nat): (f: Field)
    ensures f.Field? ==> 1 <= f.size <= |s| && f.t > t
  {
    if s == [] then NoField
    else if s[0] == 0 then
      var f := ReadExt(s[1..], t + 255);
      if f.NoField? then f else Field(f.t, f.size + 1)
    else Field(t + s[0], 1)
  }

  /** The length field of the byte s[0] and its extension. */
  function ReadLen(s: seq<Byte>, max: nat): (f: Field)
    requires s != []
    ensures f.Field? ==> 1 <= f.size <= |s| && f.t >= 1
  {
    var v := s[0] % (max + 1);
    if v != 0 then Field(v, 1)
    else
      var f := ReadExt(s[1..], max);
      if f.NoField? then f else Field(f.t, f.size + 1)
  }

  datatype Parsed = Bad | Parsed(instr: Instr, size: nat)

  /** Distance fields of the two-byte and three-byte forms. */
  function Dist10(t: nat, b: nat): nat { t / 4 + b * 4 }
  function Dist11(t: nat, b: nat): nat { t / 4 % 8 + b * 8 }
  function Dist14(a: nat, b: nat): nat { a / 4 + b * 64 }

  /** A match whose head takes h bytes, and the literals counted in its state bits. */
  function WithLits(s: seq<Byte>, form: Form, len: nat, off: nat, h: nat): (r: Parsed)
    requires 2 <= h
    ensures r.Parsed? ==> h <= r.size <= |s|
  {
    if h > |s| then Bad
    else
      var n := s[h - 2] % 4;
      if h + n <= |s| then Parsed(Copy(form, len, off, s[h..h + n]), h + n) else Bad
  }

  function ParseRun(s: seq<Byte>): (r: Parsed)
    requires s != []
    ensures r.Parsed? ==> 1 <= r.size <= |s|
  {
    var f := ReadLen(s, 15);
    if f.Field? && f.size + f.t + 3 <= |s| then
      Parsed(Run(s[f.size..f.size + f.t + 3]), f.size + f.t + 3)
    else Bad
  }

  function ParseM3(s: seq<Byte>): (r: Parsed)
    requires s != []
    ensures r.Parsed? ==> 1 <= r.size <= |s|
  {
    var f := ReadLen(s, 31);
    if f.NoField? || f.size + 2 > |s| then Bad
    else WithLits(s, M3, f.t + 2, 1 + Dist14(s[f.size], s[f.size + 1]), f.size + 2)
  }

  /** A far match, or the end marker when the distance bits are all zero. */
  function ParseM4(ctx: Ctx, s: seq<Byte>): (r: Parsed)
    requires s != []
    ensures r.Parsed? ==> 1 <= r.size <= |s|
  {
    var f := ReadLen(s, 7);
    if f.NoField? || f.size + 2 > |s| then Bad
    else
      var far: nat := (if s[0] / 8 % 2 == 1 then 0x4000 else 0) + Dist14(s[f.size], s[f.size + 1]);
      if far == 0 then Parsed(End(f.t + 2, s[f.size] % 4), f.size + 2)
      else if ctx == Start then Bad
      else WithLits(s, M4, f.t + 2, 0x4000 + far, f.size + 2)
  }

  /** One instruction at the front of s. */
  function Parse(ctx: Ctx, s: seq<Byte>): (r: Parsed)
    ensures r.Parsed? ==> 1 <= r.size <= |s|
  {
    if s == [] then Bad
    else
      var t: nat := s[0];
      if ctx == Start && t > 17 then
        if t - 16 <= |s| then Parsed(First(s[1..t - 16]), t - 16) else Bad
      else if t < 16 then
        match ctx
        case Few => if |s| < 2 then Bad else WithLits(s, M1a, 2, 1 + Dist10(t, s[1]), 2)
        case Many => if |s| < 2 then Bad else WithLits(s, M1b, 3, 1 + M2_MAX_OFFSET + Dist10(t, s[1]), 2)
        case _ => ParseRun(s)
      else if t >= 64 then
        if |s| < 2 then Bad else WithLits(s, M2, t / 32 + 1, 1 + Dist11(t, s[1]), 2)
      else if t >= 32 then ParseM3(s)
      else ParseM4(ctx, s)
  }

  // ---------- parsing what was printed

  lemma {:induction false} ReadExtPrint(n: nat, t: nat, rest: seq<Byte>)
    requires n >= 1
    ensures ReadExt(Ext(n) + rest, t) == Field(t + n, |Ext(n)|)
  {
    if n > 255 {
      var e := Ext(n - 255);
      assert (([0] + e) + rest)[1..] == e + rest;
      ReadExtPrint(n - 255, t + 255, rest);
    }
  }

  lemma ReadLenPrint(marker: nat, max: nat, t: nat, rest: seq<Byte>)
    requires t >= 1 && marker + max < 256 && marker % (max + 1) == 0
    ensures ReadLen(LenBytes(marker, max, t) + rest, max) == Field(t, |LenBytes(marker, max, t)|)
  {
    hide ReadExt, Ext;
    var s := LenBytes(marker, max, t) + rest;
    if t <= max {
      FieldOf(marker, max, t);
    } else {
      assert s[1..] == Ext(t - max) + rest;
      ReadExtPrint(t - max, max, rest);
    }
  }

  lemma FieldOf(marker: nat, max: nat, t: nat)
    requires marker % (max + 1) == 0 && t <= max
    ensures (marker + t) % (max + 1) == t
  {
    var q := marker / (max + 1);
    assert marker == q * (max + 1);
    ModOfMultiple(q, max + 1, t);
  }

  lemma WithLitsPrint(form: Form, len: nat, off: nat, h: nat, head: seq<Byte>, lits: seq<Byte>, rest: seq<Byte>)
    requires 2 <= h == |head| && |lits| <= 3 && head[h - 2] % 4 == |lits|
    ensures WithLits((head + lits) + rest, form, len, off, h) == Parsed(Copy(form, len, off, lits), h + |lits|)
  {
    var s := (head + lits) + rest;
    assert s[h - 2] == head[h - 2];
    assert s[h..h + |lits|] == lits;
  }

  lemma LenBytesFirst(marker: nat, max: nat, t: nat)
    requires t >= 1 && marker + max < 256
    ensures marker <= LenBytes(marker, max, t)[0] <= marker + max
    ensures LenBytes(marker, max, t)[0] == if t <= max then marker + t else marker
  {
  }

  lemma ParseRunPrint(lits: seq<Byte>, rest: seq<Byte>)
    requires |lits| >= 4
    ensures var s := Bytes(Run(lits)) + rest;
            s[0] < 16 && ParseRun(s) == Parsed(Run(lits), |Bytes(Run(lits))|)
  {
    hide ReadLen, LenBytes;
    var b := LenBytes(0, 15, |lits| - 3);
    var s := (b + lits) + rest;
    LenBytesFirst(0, 15, |lits| - 3);
    ReadLenPrint(0, 15, |lits| - 3, lits + rest);
    assert s == b + (lits + rest);
    assert s[|b|..|b| + |lits|] == lits;
  }

  lemma ParseM3Print(len: nat, off: nat, lits: seq<Byte>, rest: seq<Byte>)
    requires FormFits(M3, len, off) && |lits| <= 3
    ensures var s := Bytes(Copy(M3, len, off, lits)) + rest;
            && 32 <= s[0] < 64
            && ParseM3(s) == Parsed(Copy(M3, len, off, lits), |Bytes(Copy(M3, len, off, lits))|)
  {
    hide ReadLen, LenBytes, WithLits;
    var b := LenBytes(M3_MARKER, 31, len - 2);
    var head := Head(M3, len, off, |lits|);
    var tail := head[|b|..];
    assert head == b + tail && tail == [(off - 1) % 64 * 4 + |lits|, (off - 1) / 64];
    var s := (head + lits) + rest;
    LenBytesFirst(M3_MARKER, 31, len - 2);
    ReadLenPrint(M3_MARKER, 31, len - 2, tail + lits + rest);
    assert s == b + (tail + lits + rest);
    assert s[|b|] == tail[0] && s[|b| + 1] == tail[1];
    WithLitsPrint(M3, len, off, |head|, head, lits, rest);
  }

  lemma ParseM4Print(ctx: Ctx, len: nat, off: nat, lits: seq<Byte>, rest: seq<Byte>)
    requires FormFits(M4, len, off) && |lits| <= 3 && ctx != Start
    ensures var s := Bytes(Copy(M4, len, off, lits)) + rest;
            && 16 <= s[0] < 32
            && ParseM4(ctx, s) == Parsed(Copy(M4, len, off, lits), |Bytes(Copy(M4, len, off, lits))|)
  {
    hide ReadLen, LenBytes, WithLits, Head, Dist14;
    var far := off - 0x4000;
    var k := if far >= 0x4000 then 8 else 0;
    var b := LenBytes(M4_MARKER + k, 7, len - 2);
    var head := Head(M4, len, off, |lits|);
    var tail := FarHead(len, off, |lits|);
    var s := (head + lits) + rest;
    LenBytesFirst(M4_MARKER + k, 7, len - 2);
    FarBit(b[0], k);
    ReadLenPrint(M4_MARKER + k, 7, len - 2, tail + lits + rest);
    assert s == b + (tail + lits + rest);
    assert s[|b|] == tail[0] && s[|b| + 1] == tail[1] && s[0] == b[0];
    WithLitsPrint(M4, len, off, |head|, head, lits, rest);
  }

  /** The distance bytes of a far match. */
  lemma FarHead(len: nat, off: nat, n: nat) returns (tail: seq<Byte>)
    requires FormFits(M4, len, off) && n <= 3
    ensures var k := if off >= 0x8000 then 8 else 0;
            Head(M4, len, off, n) == LenBytes(M4_MARKER + k, 7, len - 2) + tail
    ensures |tail| == 2 && tail[0] % 4 == n && Dist14(tail[0], tail[1]) == (off - 0x4000) % 0x4000
  {
    hide LenBytes, Dist14;
    var far := off - 0x4000;
    FarTail(far, n);
    tail := [far % 64 * 4 + n, far % 0x4000 / 64];
  }

  lemma EndFields(state: nat)
    requires state <= 3
    ensures Dist14(state, 0) == 0 && state % 4 == state
  {
  }

  lemma FarTail(far: nat, n: nat)
    requires far < 0x8000 && n <= 3
    ensures far % 64 * 4 + n < 256 && far % 0x4000 / 64 < 256 && (far % 64 * 4 + n) % 4 == n
    ensures Dist14(far % 64 * 4 + n, far % 0x4000 / 64) == far % 0x4000
  {
    var m := far % 0x4000;
    assert m == if far < 0x4000 then far else far - 0x4000;
    assert m % 64 == far % 64;
  }

  lemma FarBit(b: Byte, k: nat)
    requires k == 0 || k == 8
    requires M4_MARKER + k <= b <= M4_MARKER + k + 7
    ensures b / 8 % 2 == k / 8
  {
  }

  lemma ParseEndPrint(ctx: Ctx, len: nat, state: nat, rest: seq<Byte>)
    requires Allowed(ctx, End(len, state))
    ensures var s := Bytes(End(len, state)) + rest;
            && 16 <= s[0] < 32 && (ctx == Start ==> s[0] <= 17)
            && ParseM4(ctx, s) == Parsed(End(len, state), |Bytes(End(len, state))|)
  {
    hide ReadLen, LenBytes, WithLits, Dist14;
    var b := LenBytes(M4_MARKER, 7, len - 2);
    var tail: seq<Byte> := [state, 0];
    var s := (b + tail) + rest;
    LenBytesFirst(M4_MARKER, 7, len - 2);
    FarBit(b[0], 0);
    EndFields(state);
    ReadLenPrint(M4_MARKER, 7, len - 2, tail + rest);
    Regroup(b, tail, rest);
    assert s[|b|] == tail[0] && s[|b| + 1] == tail[1] && s[0] == b[0];
  }

  /** The two-byte forms. */
  lemma ParsePairPrint(ctx: Ctx, form: Form, len: nat, off: nat, lits: seq<Byte>, rest: seq<Byte>)
    requires Allowed(ctx, Copy(form, len, off, lits)) && form != M3 && form != M4
    ensures var i := Copy(form, len, off, lits);
            Parse(ctx, Bytes(i) + rest) == Parsed(i, |Bytes(i)|)
  {
    hide ParseRun, ParseM3, ParseM4, WithLits;
    var head := Head(form, len, off, |lits|);
    var s := (head + lits) + rest;
    assert s[0] == head[0] && s[1] == head[1];
    PairFields(form, len, off, |lits|);
    WithLitsPrint(form, len, off, 2, head, lits, rest);
  }

  lemma PairFields(form: Form, len: nat, off: nat, n: nat)
    requires FormFits(form, len, off) && form != M3 && form != M4 && n <= 3
    ensures var h := Head(form, len, off, n);
            && |h| == 2 && h[0] % 4 == n && (form == M2 <==> h[0] >= 64) && (form != M2 <==> h[0] < 16)
            && (form == M2 ==> off == 1 + Dist11(h[0], h[1]) && len == h[0] / 32 + 1)
            && (form == M1a ==> off == 1 + Dist10(h[0], h[1]))
            && (form == M1b ==> off == 1 + M2_MAX_OFFSET + Dist10(h[0], h[1]))
  {
    if form == M1a {
      NearFields(off - 1, n);
    } else if form == M1b {
      NearFields(off - 1 - M2_MAX_OFFSET, n);
    } else {
      PackedFields(len - 1, off - 1, n);
    }
  }

  lemma NearFields(q: nat, n: nat)
    requires n <= 3
    ensures var a := q % 4 * 4 + n; a % 4 == n && a / 4 == q % 4 && q == q % 4 + q / 4 * 4
  {
  }

  lemma PackedFields(k: nat, q: nat, n: nat)
    requires n <= 3
    ensures var a := k * 32 + q % 8 * 4 + n; a % 4 == n && a / 4 % 8 == q % 8 && a / 32 == k && q == q % 8 + q / 8 * 8
  {
    var a := k * 32 + q % 8 * 4 + n;
    assert a / 4 == k * 8 + q % 8;
  }

  /** What is printed in a context where it is allowed is parsed back, whatever follows. */
  lemma ParsePrint(ctx: Ctx, i: Instr, rest: seq<Byte>)
    requires Allowed(ctx, i)
    ensures Parse(ctx, Bytes(i) + rest) == Parsed(i, |Bytes(i)|)
  {
    hide Ext, ReadExt, ReadLen, LenBytes, WithLits, Head, ParseRun, ParseM3, ParseM4;
    var s := Bytes(i) + rest;
    match i
    case First(lits) =>
      assert s[1..1 + |lits|] == lits;
    case Run(lits) =>
      ParseRunPrint(lits, rest);
    case Copy(form, len, off, lits) =>
      if form == M3 {
        ParseM3Print(len, off, lits, rest);
      } else if form == M4 {
        ParseM4Print(ctx, len, off, lits, rest);
      } else {
        ParsePairPrint(ctx, form, len, off, lits, rest);
      }
    case End(len, state) =>
      ParseEndPrint(ctx, len, state, rest);
  }

  // ---------- printing what was parsed

  lemma {:induction false} ReadExtSound(s: seq<Byte>, t: nat)
    requires ReadExt(s, t).Field?
    ensures var f := ReadExt(s, t); f.t > t && s[..f.size] == Ext(f.t - t)
    decreases |s|
  {
    if s[0] == 0 {
      ReadExtSound(s[1..], t + 255);
      var f := ReadExt(s[1..], t + 255);
      assert s[..f.size + 1] == [0] + s[1..][..f.size];
    }
  }

  lemma ReadLenSound(s: seq<Byte>, max: nat, marker: nat)
    requires s != [] && ReadLen(s, max).Field? && marker + max < 256
    requires s[0] - s[0] % (max + 1) == marker
    ensures var f := ReadLen(s, max); s[..f.size] == LenBytes(marker, max, f.t)
  {
    var f := ReadLen(s, max);
    if s[0] % (max + 1) == 0 {
      ReadExtSound(s[1..], max);
      assert s[..f.size] == [s[0]] + s[1..][..f.size - 1];
    } else {
      ModBelow(s[0], max + 1);
    }
  }

  lemma ModBelow(a: nat, m: nat)
    requires m > 0
    ensures a % m < m
  {
  }

  lemma WithLitsSound(s: seq<Byte>, form: Form, len: nat, off: nat, h: nat)
    requires 2 <= h <= |s| && WithLits(s, form, len, off, h).Parsed?
    requires FormFits(form, len, off) && s[..h] == Head(form, len, off, s[h - 2] % 4)
    ensures var p := WithLits(s, form, len, off, h); WellMade(p.instr) && s[..p.size] == Bytes(p.instr)
  {
    var n := s[h - 2] % 4;
    assert s[..h + n] == s[..h] + s[h..h + n];
  }

  lemma ParseRunSound(s: seq<Byte>)
    requires s != [] && s[0] < 16 && ParseRun(s).Parsed?
    ensures var p := ParseRun(s); WellMade(p.instr) && s[..p.size] == Bytes(p.instr)
  {
    hide ReadLen, LenBytes;
    var f := ReadLen(s, 15);
    ReadLenSound(s, 15, 0);
    var n := f.t + 3;
    assert s[..f.size + n] == s[..f.size] + s[f.size..f.size + n];
  }

  lemma ParseM3Sound(s: seq<Byte>)
    requires s != [] && 32 <= s[0] < 64 && ParseM3(s).Parsed?
    ensures var p := ParseM3(s); WellMade(p.instr) && p.instr.Copy? && p.instr.form == M3 && s[..p.size] == Bytes(p.instr)
  {
    hide ReadLen, LenBytes, WithLits;
    var f := ReadLen(s, 31);
    ReadLenSound(s, 31, M3_MARKER);
    var off := 1 + Dist14(s[f.size], s[f.size + 1]);
    Dist14Parts(s[f.size], s[f.size + 1]);
    assert s[..f.size + 2] == s[..f.size] + [s[f.size], s[f.size + 1]];
    WithLitsIs(s, M3, f.t + 2, off, f.size + 2);
    WithLitsSound(s, M3, f.t + 2, off, f.size + 2);
  }

  lemma Dist14Parts(a: Byte, b: Byte)
    ensures var d := Dist14(a, b);
            d < 0x4000 && a == d % 64 * 4 + a % 4 && b == d / 64
  {
  }

  lemma WithLitsIs(s: seq<Byte>, form: Form, len: nat, off: nat, h: nat)
    requires 2 <= h && WithLits(s, form, len, off, h).Parsed?
    ensures h <= |s| && var i := WithLits(s, form, len, off, h).instr;
            i.Copy? && i.form == form && i.len == len && i.off == off && |i.lits| <= 3
  {
  }

  lemma ParseM4Sound(ctx: Ctx, s: seq<Byte>)
    requires s != [] && 16 <= s[0] < 32 && ParseM4(ctx, s).Parsed?
    requires ctx == Start ==> s[0] <= 17
    ensures var p := ParseM4(ctx, s);
            && WellMade(p.instr) && s[..p.size] == Bytes(p.instr)
            && (p.instr.End? || (p.instr.Copy? && p.instr.form == M4 && ctx != Start))
            && (p.instr.End? && ctx == Start ==> p.instr.len == 3 || p.instr.len > M4_MAX_LEN)
  {
    hide ReadLen, LenBytes, WithLits, Head, Dist14;
    var f := ReadLen(s, 7);
    var high := s[0] / 8 % 2 == 1;
    var marker := if high then M4_MARKER + 8 else M4_MARKER;
    FarMarker(s[0]);
    ReadLenSound(s, 7, marker);
    LenBytesFirst(marker, 7, f.t);
    var d := Dist14(s[f.size], s[f.size + 1]);
    var tail := [s[f.size], s[f.size + 1]];
    assert s[..f.size + 2] == s[..f.size] + tail;
    assert s[..f.size][0] == s[0];
    Dist14Parts(s[f.size], s[f.size + 1]);
    var far := (if high then 0x4000 else 0) + d;
    if far == 0 {
      EndTail(s[f.size], s[f.size + 1]);
    } else {
      FarHeadBack(f.t, s[f.size], s[f.size + 1], high);
      WithLitsIs(s, M4, f.t + 2, 0x4000 + far, f.size + 2);
      WithLitsSound(s, M4, f.t + 2, 0x4000 + far, f.size + 2);
    }
  }

  lemma FarMarker(b: Byte)
    requires 16 <= b < 32
    ensures b - b % 8 == if b / 8 % 2 == 1 then M4_MARKER + 8 else M4_MARKER
  {
  }

  lemma EndTail(a: Byte, b: Byte)
    requires Dist14(a, b) == 0
    ensures b == 0 && a == a % 4
  {
  }

  lemma FarHeadBack(t: nat, a: Byte, b: Byte, high: bool)
    requires t >= 1 && Dist14(a, b) < 0x4000 && (high || Dist14(a, b) > 0)
    ensures var far := (if high then 0x4000 else 0) + Dist14(a, b);
            && FormFits(M4, t + 2, 0x4000 + far)
            && Head(M4, t + 2, 0x4000 + far, a % 4) == LenBytes(if high then M4_MARKER + 8 else M4_MARKER, 7, t) + [a, b]
  {
    hide LenBytes;
    Dist14Parts(a, b);
    var d := Dist14(a, b);
    var far := (if high then 0x4000 else 0) + d;
    assert far % 0x4000 == d && far % 64 == d % 64;
  }

  lemma ParseShortSound(ctx: Ctx, s: seq<Byte>)
    requires |s| >= 2 && ((s[0] < 16 && (ctx == Few || ctx == Many)) || s[0] >= 64)
    requires !(ctx == Start && s[0] > 17)
    requires Parse(ctx, s).Parsed?
    ensures Allowed(ctx, Parse(ctx, s).instr) && s[..Parse(ctx, s).size] == Bytes(Parse(ctx, s).instr)
  {
    hide WithLits, Head, ParseRun, ParseM3, ParseM4;
    var t: nat := s[0];
    var form := if t >= 64 then M2 else if ctx == Few then M1a else M1b;
    var len := if t >= 64 then t / 32 + 1 else if ctx == Few then 2 else 3;
    var off := if t >= 64 then 1 + Dist11(t, s[1]) else if ctx == Few then 1 + Dist10(t, s[1]) else 1 + M2_MAX_OFFSET + Dist10(t, s[1]);
    PairHead(t, s[1], form, len, off);
    assert s[..2] == [s[0], s[1]];
    WithLitsIs(s, form, len, off, 2);
    WithLitsSound(s, form, len, off, 2);
  }

  lemma PairHead(a: Byte, b: Byte, form: Form, len: nat, off: nat)
    requires form == M2 ==> a >= 64 && len == a / 32 + 1 && off == 1 + Dist11(a, b)
    requires form == M1a ==> a < 16 && len == 2 && off == 1 + Dist10(a, b)
    requires form == M1b ==> a < 16 && len == 3 && off == 1 + M2_MAX_OFFSET + Dist10(a, b)
    requires form != M3 && form != M4
    ensures FormFits(form, len, off) && Head(form, len, off, a % 4) == [a, b]
  {
    if form == M2 {
      ByteFields(a);
      var low := a / 4 % 8;
      assert (low + b * 8) / 8 == b && (low + b * 8) % 8 == low;
    } else {
      var low := a / 4;
      assert (low + b * 4) / 4 == b && (low + b * 4) % 4 == low;
    }
  }

  lemma ByteFields(a: Byte)
    ensures a == a / 32 * 32 + a / 4 % 8 * 4 + a % 4
  {
    assert a / 4 == a / 32 * 8 + a / 4 % 8;
  }

  /** Whatever is parsed is allowed there, and printing it gives the bytes that were read. */
  lemma PrintParse(ctx: Ctx, s: seq<Byte>)
    requires Parse(ctx, s).Parsed?
    ensures Allowed(ctx, Parse(ctx, s).instr) && s[..Parse(ctx, s).size] == Bytes(Parse(ctx, s).instr)
  {
    hide WithLits, Head, ReadLen, LenBytes;
    var t: nat := s[0];
    if ctx == Start && t > 17 {
      assert s[..t - 16] == [s[0]] + s[1..t - 16];
    } else if t < 16 && (ctx == Start || ctx == Zero) {
      ParseRunSound(s);
    } else if t < 16 || t >= 64 {
      ParseShortSound(ctx, s);
    } else if t >= 32 {
      ParseM3Sound(s);
    } else {
      ParseM4Sound(ctx, s);
    }
  }
}
