/** The decompressor: one pass over the stream, writing the text behind itself. */
module LzoParser {
  import opened Buffers
  import opened LzoFormat
  import opened LzoParse
  import opened LzoDecode

  const OK := 0
  const INPUT_OVERRUN := -4
  const OUTPUT_OVERRUN := -5
  const LOOKBEHIND_OVERRUN := -6
  const EOF_NOT_FOUND := -7
  const INPUT_NOT_CONSUMED := -8

  // ---------- the copy loops

  /** Literals, byte by byte. */
  method CopyLiterals(inp: seq<Byte>, out: array<Byte>, ip0: nat, op0: nat, t0: nat) returns (ip: nat, op: nat)
    requires 1 <= t0 && ip0 + t0 <= |inp| && op0 + t0 <= out.Length
    modifies out
    ensures ip == ip0 + t0 && op == op0 + t0
    ensures out[..op] == old(out[..op0]) + inp[ip0..ip]
  {
    ghost var text := out[..op0];
    var t := t0;
    ip, op := ip0, op0;
    while t > 0
      invariant 0 <= t <= t0 && ip == ip0 + (t0 - t) && op == op0 + (t0 - t)
      invariant out[..op] == text + inp[ip0..ip]
    {
      out[op] := inp[ip];
      assert out[..op + 1] == out[..op] + [inp[ip]];
      op, ip := op + 1, ip + 1;
      t := t - 1;
    }
  }

  /** COPY4 from the input. */
  method Copy4(inp: seq<Byte>, out: array<Byte>, ip: nat, op: nat)
    requires ip + 4 <= |inp| && op + 4 <= out.Length
    modifies out
    ensures out[..op + 4] == old(out[..op]) + inp[ip..ip + 4]
  {
    assert inp[ip..ip + 4] == [inp[ip], inp[ip + 1], inp[ip + 2], inp[ip + 3]];
    out[op], out[op + 1], out[op + 2], out[op + 3] := inp[ip], inp[ip + 1], inp[ip + 2], inp[ip + 3];
  }

  lemma MoreTaken(text: seq<Byte>, inp: seq<Byte>, a: nat, b: nat, c: nat)
    requires a <= b <= c <= |inp|
    ensures (text + inp[a..b]) + inp[b..c] == text + inp[a..c]
  {
  }

  /** A run of t0 + 3 literals, in words where both pointers are aligned. */
  method CopyRun(inp: seq<Byte>, out: array<Byte>, ip0: nat, op0: nat, t0: nat, aligned: bool) returns (ip: nat, op: nat)
    requires 1 <= t0 && ip0 + t0 + 3 <= |inp| && op0 + t0 + 3 <= out.Length
    modifies out
    ensures ip == ip0 + t0 + 3 && op == op0 + t0 + 3
    ensures out[..op] == old(out[..op0]) + inp[ip0..ip]
  {
    ghost var text := out[..op0];
    var t := t0;
    ip, op := ip0, op0;
    if aligned {
      Copy4(inp, out, ip, op);
      op, ip := op + 4, ip + 4;
      t := t - 1;
      if t > 0 {
        if t >= 4 {
          while t >= 4
            invariant 0 <= t < t0 && ip == ip0 + 3 + (t0 - t) && op == op0 + 3 + (t0 - t)
            invariant out[..op] == text + inp[ip0..ip]
          {
            Copy4(inp, out, ip, op);
            MoreTaken(text, inp, ip0, ip, ip + 4);
            op, ip := op + 4, ip + 4;
            t := t - 4;
          }
          if t > 0 {
            MoreTaken(text, inp, ip0, ip, ip + t);
            ip, op := CopyLiterals(inp, out, ip, op, t);
          }
        } else {
          MoreTaken(text, inp, ip0, ip, ip + t);
          ip, op := CopyLiterals(inp, out, ip, op, t);
        }
      }
    } else {
      ip, op := CopyLiterals(inp, out, ip, op, t + 3);
    }
  }

  lemma {:induction false} CopyTextSplit(out: seq<Byte>, off: nat, a: nat, b: nat)
    requires 1 <= off <= |out|
    ensures CopyText(out, off, a + b) == CopyText(CopyText(out, off, a), off, b)
  {
    if b > 0 { CopyTextSplit(out, off, a, b - 1); }
  }

  lemma CopyTextNone(out: seq<Byte>, off: nat)
    requires 1 <= off <= |out|
    ensures CopyText(out, off, 0) == out
  {
  }

  /** A copy that does not reach into itself moves a block. */
  lemma {:induction false} CopyTextBlock(out: seq<Byte>, off: nat, n: nat)
    requires 1 <= off <= |out| && n <= off
    ensures CopyText(out, off, n) == out + out[|out| - off..|out| - off + n]
  {
    if n > 0 {
      CopyTextBlock(out, off, n - 1);
      var i := |out| - off + n - 1;
      assert out[|out| - off..i + 1] == out[|out| - off..i] + [out[i]];
    }
  }

  method CopyBytes(out: array<Byte>, op0: nat, off: nat, n: nat) returns (op: nat)
    requires 1 <= off <= op0 && op0 + n <= out.Length
    modifies out
    ensures op == op0 + n && out[..op] == CopyText(old(out[..op0]), off, n)
  {
    ghost var text := out[..op0];
    op := op0;
    var t := n;
    while t > 0
      invariant 0 <= t <= n && op == op0 + (n - t)
      invariant out[..op] == CopyText(text, off, n - t)
    {
      ghost var before := out[..op];
      out[op] := out[op - off];
      assert out[..op + 1] == before + [before[|before| - off]];
      op := op + 1;
      t := t - 1;
    }
  }

  /** COPY4 inside the output. */
  method CopyBack4(out: array<Byte>, op: nat, off: nat)
    requires 4 <= off <= op && op + 4 <= out.Length
    modifies out
    ensures out[..op + 4] == CopyText(old(out[..op]), off, 4)
  {
    ghost var text := out[..op];
    CopyTextBlock(text, off, 4);
    var m := op - off;
    assert text[m..m + 4] == [out[m], out[m + 1], out[m + 2], out[m + 3]];
    out[op], out[op + 1], out[op + 2], out[op + 3] := out[m], out[m + 1], out[m + 2], out[m + 3];
    assert out[..op + 4] == out[..op] + [out[op], out[op + 1], out[op + 2], out[op + 3]];
    assert out[..op] == text;
  }

  /** A match of t0 + 2 bytes, in words where both pointers are aligned and it is long enough. */
  method CopyMatch(out: array<Byte>, op0: nat, off: nat, t0: nat, aligned: bool) returns (op: nat)
    requires 1 <= off <= op0 && 1 <= t0 && op0 + t0 + 2 <= out.Length
    requires aligned ==> off >= 4
    modifies out
    ensures op == op0 + t0 + 2 && out[..op] == CopyText(old(out[..op0]), off, t0 + 2)
  {
    hide CopyText;
    ghost var text := out[..op0];
    op := op0;
    if t0 >= 6 && aligned {
      CopyTextNone(text, off);
      CopyTextSplit(text, off, 0, 4);
      CopyBack4(out, op, off);
      op := op + 4;
      var t := t0 - 2;
      while t >= 4
        invariant 0 <= t <= t0 - 2 && op == op0 + 2 + (t0 - t)
        invariant out[..op] == CopyText(text, off, op - op0)
      {
        CopyTextSplit(text, off, op - op0, 4);
        CopyBack4(out, op, off);
        op := op + 4;
        t := t - 4;
      }
      if t > 0 {
        CopyTextSplit(text, off, op - op0, t);
        op := CopyBytes(out, op, off, t);
      }
    } else {
      op := CopyBytes(out, op, off, t0 + 2);
    }
  }

  // ---------- one instruction

  /** What one round of the parser achieves: an instruction read from s is performed. */
  ghost predicate Performs(ctx: Ctx, s: seq<Byte>, text: seq<Byte>, cap: nat, ctx': Ctx, n: nat, text': seq<Byte>) {
    var p := Parse(ctx, s);
    p.Parsed? && p.size == n && !p.instr.End? && Reaches(text, p.instr)
    && text' == Apply(text, p.instr) && |text'| <= cap && ctx' == After(p.instr)
  }

  lemma PerformsDecode(ctx: Ctx, s: seq<Byte>, text: seq<Byte>, cap: nat, ctx': Ctx, n: nat, text': seq<Byte>)
    requires Performs(ctx, s, text, cap, ctx', n, text')
    ensures n <= |s| && n >= 1 && |text'| >= |text|
    ensures DecodeFrom(ctx, s, text, cap) == DecodeFrom(ctx', s[n..], text', cap)
  {
  }

  /** Length extension: zeros count 255 each, the next byte ends it. */
  method ReadExtension(inp: seq<Byte>, ip0: nat, start: nat) returns (ok: bool, t: nat, ip: nat)
    requires ip0 <= |inp|
    ensures var f := ReadExt(inp[ip0..], start);
            && ok == f.Field? && (ok ==> t == f.t && ip == ip0 + f.size <= |inp|)
  {
    t, ip := 0, ip0;
    ghost var goal := ReadExt(inp[ip0..], start);
    if ip >= |inp| { return false, t, ip; }
    while inp[ip] == 0
      invariant ip0 <= ip < |inp|
      invariant var f := ReadExt(inp[ip..], start + t);
                f.Field? == goal.Field? && (f.Field? ==> f.t == goal.t && ip + f.size == ip0 + goal.size)
      decreases |inp| - ip
    {
      assert inp[ip..][1..] == inp[ip + 1..];
      t := t + 255;
      ip := ip + 1;
      if ip >= |inp| { return false, t, ip; }
    }
    t := t + start + inp[ip];
    ip := ip + 1;
    ok := true;
  }

  /** The length field that begins at ip0 and is stored below max in its first byte. */
  method ReadLength(inp: seq<Byte>, ip0: nat, max: nat) returns (ok: bool, t: nat, ip: nat)
    requires ip0 < |inp|
    ensures var f := ReadLen(inp[ip0..], max);
            && ok == f.Field? && (ok ==> t == f.t && ip == ip0 + f.size <= |inp|)
  {
    t := inp[ip0] % (max + 1);
    ip := ip0 + 1;
    ok := true;
    assert inp[ip0..][1..] == inp[ip0 + 1..];
    if t == 0 {
      ok, t, ip := ReadExtension(inp, ip, max);
    }
  }

  /** A literal run behind a match without literals, or at the start. */
  method RunStep(inp: seq<Byte>, out: array<Byte>, ip0: nat, op0: nat, cap: nat, inBase: nat, outBase: nat, ghost ctx: Ctx)
    returns (code: int, ip: nat, op: nat)
    requires ip0 < |inp| && inp[ip0] < 16 && op0 <= cap <= out.Length && (ctx == Start || ctx == Zero)
    modifies out
    ensures ip0 <= ip
    ensures code == OK ==> ip < |inp| && op <= cap && Performs(ctx, inp[ip0..], old(out[..op0]), cap, Many, ip - ip0, out[..op])
    ensures code != OK ==> DecodeFrom(ctx, inp[ip0..], old(out[..op0]), cap) == None
  {
    hide ReadLen;
    ghost var s, text := inp[ip0..], out[..op0];
    op := op0;
    var ok, t;
    ok, t, ip := ReadLength(inp, ip0, 15);
    if !ok { return INPUT_OVERRUN, ip0, op; }
    if cap - op < t + 3 {
      return OUTPUT_OVERRUN, ip, op;
    }
    if |inp| - ip < t + 4 {
      RunTooShort(ctx, s, text, cap);
      return INPUT_OVERRUN, ip, op;
    }
    assert s[ip - ip0..ip - ip0 + t + 3] == inp[ip..ip + t + 3];
    ip, op := CopyRun(inp, out, ip, op, t, (outBase + op) % 4 == 0 && (inBase + ip) % 4 == 0);
    code := OK;
  }

  /** A run that is not followed by another byte cannot belong to a complete stream. */
  lemma RunTooShort(ctx: Ctx, s: seq<Byte>, text: seq<Byte>, cap: nat)
    requires s != [] && s[0] < 16 && (ctx == Start || ctx == Zero)
    requires var f := ReadLen(s, 15); f.Field? && |s| - f.size < f.t + 4
    ensures DecodeFrom(ctx, s, text, cap) == None
  {
    var f := ReadLen(s, 15);
    if f.size + f.t + 3 == |s| {
      assert s[|s|..] == [];
    }
  }

  /** The head of a match: its length, distance and form, or the end marker. Where the
      source would read past the end of the input, the input has run out. */
  method MatchHead(inp: seq<Byte>, ip0: nat, ctx: Ctx) returns (ok: bool, last: bool, form: Form, len: nat, off: nat, ip: nat)
    requires ip0 < |inp| && (inp[ip0] < 16 ==> ctx == Few || ctx == Many) && (ctx == Start ==> inp[ip0] <= 17)
    ensures ip0 <= ip
    ensures ok ==> ip0 + 2 <= ip <= |inp|
    ensures !ok ==> Parse(ctx, inp[ip0..]) == Bad
    ensures ok && last ==> Parse(ctx, inp[ip0..]).Parsed? && Parse(ctx, inp[ip0..]).instr.End?
                           && Parse(ctx, inp[ip0..]).size == ip - ip0
    ensures ok && !last ==> len >= 2 && off >= 1 && (form == M3 || form == M4 ==> len >= 3)
    ensures ok && !last ==>
              Parse(ctx, inp[ip0..]) == if ctx == Start then Bad else WithLits(inp[ip0..], form, len, off, ip - ip0)
  {
    hide ReadLen, WithLits, ParseRun, Dist10, Dist11, Dist14;
    ghost var s := inp[ip0..];
    var t: nat := inp[ip0];
    ok, last, form, len, off, ip := true, false, M2, 0, 0, ip0 + 1;
    if t >= 64 {
      if ip >= |inp| { return false, last, form, len, off, ip; }
      off := 1 + Dist11(t, inp[ip]);
      len := t / 32 + 1;
      ip := ip + 1;
    } else if t >= 32 {
      form := M3;
      ok, t, ip := ReadLength(inp, ip0, 31);
      if !ok { return false, last, form, len, off, ip0; }
      if ip + 2 > |inp| { return false, last, form, len, off, ip; }
      assert s[ip - ip0] == inp[ip] && s[ip - ip0 + 1] == inp[ip + 1];
      off := 1 + Dist14(inp[ip], inp[ip + 1]);
      len := t + 2;
      ip := ip + 2;
    } else if t >= 16 {
      form := M4;
      var far: nat := if t / 8 % 2 == 1 then 0x4000 else 0;
      ok, t, ip := ReadLength(inp, ip0, 7);
      if !ok { return false, last, form, len, off, ip0; }
      if ip + 2 > |inp| { return false, last, form, len, off, ip; }
      assert s[ip - ip0] == inp[ip] && s[ip - ip0 + 1] == inp[ip + 1];
      far := far + Dist14(inp[ip], inp[ip + 1]);
      ip := ip + 2;
      if far == 0 {
        last := true;
      } else {
        off := far + 0x4000;
        len := t + 2;
      }
    } else {
      if ip >= |inp| { return false, last, form, len, off, ip; }
      if ctx == Few {
        form, len, off := M1a, 2, 1 + Dist10(t, inp[ip]);
      } else {
        form, len, off := M1b, 3, 1 + M2_MAX_OFFSET + Dist10(t, inp[ip]);
      }
      ip := ip + 1;
    }
  }

  /** A match and the literals behind it; OK with last set means the end marker. */
  method MatchStep(inp: seq<Byte>, out: array<Byte>, ip0: nat, op0: nat, cap: nat, outBase: nat, ctx: Ctx)
    returns (code: int, last: bool, ip: nat, op: nat, next: Ctx)
    requires ip0 < |inp| && (inp[ip0] < 16 ==> ctx == Few || ctx == Many) && op0 <= cap <= out.Length
    requires ctx == Start ==> inp[ip0] <= 17 && op0 == 0
    modifies out
    ensures ip0 <= ip
    ensures code == OK && last ==> ip == |inp| && op == op0 && out[..op] == old(out[..op])
    ensures code == OK && last ==> DecodeFrom(ctx, inp[ip0..], old(out[..op0]), cap) == Some(old(out[..op0]))
    ensures code == OK && !last ==> op <= cap && Performs(ctx, inp[ip0..], old(out[..op0]), cap, next, ip - ip0, out[..op])
    ensures code == OK && !last ==> (next == Zero && ip <= |inp|) || (next == Few && ip < |inp|)
    ensures code != OK ==> DecodeFrom(ctx, inp[ip0..], old(out[..op0]), cap) == None
  {
    hide Parse, DecodeFrom, Performs, WithLits, CopyText;
    ghost var s, text := inp[ip0..], out[..op0];
    var ok, form, len, off;
    code, op, next := OK, op0, Zero;
    ok, last, form, len, off, ip := MatchHead(inp, ip0, ctx);
    if !ok {
      NoMatch(ctx, s, text, cap);
      return INPUT_OVERRUN, false, ip0, op, next;
    }
    if last {
      AtEnd(ctx, s, text, cap);
      code := if ip == |inp| then OK else INPUT_NOT_CONSUMED;
      return;
    }
    MatchNeeds(ctx, s, text, cap, form, len, off, ip - ip0);
    if off > op { return LOOKBEHIND_OVERRUN, false, ip, op, next; }
    if cap - op < len { return OUTPUT_OVERRUN, false, ip, op, next; }
    if form == M3 || form == M4 {
      op := CopyMatch(out, op, off, len - 2, (outBase + op) % 4 == 0 && (outBase + op - off) % 4 == 0);
    } else {
      op := CopyBytes(out, op, off, len);
    }
    var n := inp[ip - 2] % 4;
    assert s[ip - ip0 - 2] == inp[ip - 2];
    if n != 0 {
      if cap - op < n { return OUTPUT_OVERRUN, false, ip, op, next; }
      if |inp| - ip < n + 1 { return INPUT_OVERRUN, false, ip, op, next; }
      assert s[ip - ip0..ip - ip0 + n] == inp[ip..ip + n];
      ip, op := CopyLiterals(inp, out, ip, op, n);
      next := Few;
    } else {
      assert s[ip - ip0..ip - ip0] == [];
      NothingMore(CopyText(text, off, len));
    }
  }

  lemma NoMatch(ctx: Ctx, s: seq<Byte>, text: seq<Byte>, cap: nat)
    requires Parse(ctx, s) == Bad
    ensures DecodeFrom(ctx, s, text, cap) == None
  {
  }

  lemma AtEnd(ctx: Ctx, s: seq<Byte>, text: seq<Byte>, cap: nat)
    requires Parse(ctx, s).Parsed? && Parse(ctx, s).instr.End?
    ensures DecodeFrom(ctx, s, text, cap) == if Parse(ctx, s).size == |s| then Some(text) else None
  {
  }

  /** A match whose head takes h bytes decodes only if the window, the output and the input
      are large enough for it; if they are, its effect is this. */
  lemma MatchNeeds(ctx: Ctx, s: seq<Byte>, text: seq<Byte>, cap: nat, form: Form, len: nat, off: nat, h: nat)
    requires 2 <= h <= |s| && Parse(ctx, s) == (if ctx == Start then Bad else WithLits(s, form, len, off, h)) && off >= 1
    ensures var n := s[h - 2] % 4;
            (ctx == Start || off > |text| || |text| + len + n > cap || (n != 0 && |s| - h < n + 1)) ==>
              DecodeFrom(ctx, s, text, cap) == None
    ensures var n := s[h - 2] % 4;
            ctx != Start && off <= |text| && |text| + len + n <= cap && h + n <= |s| ==>
              Performs(ctx, s, text, cap, if n == 0 then Zero else Few, h + n, CopyText(text, off, len) + s[h..h + n])
  {
    hide Parse, CopyText;
    var n := s[h - 2] % 4;
    if n != 0 && |s| - h < n + 1 {
      LitsTooShort(ctx, s, text, cap, form, len, off, h);
    }
  }

  lemma LitsTooShort(ctx: Ctx, s: seq<Byte>, text: seq<Byte>, cap: nat, form: Form, len: nat, off: nat, h: nat)
    requires 2 <= h <= |s| && Parse(ctx, s) == (if ctx == Start then Bad else WithLits(s, form, len, off, h))
    requires s[h - 2] % 4 != 0 && |s| - h < s[h - 2] % 4 + 1
    ensures DecodeFrom(ctx, s, text, cap) == None
  {
    var n := s[h - 2] % 4;
    if h + n == |s| {
      assert s[|s|..] == [];
    }
  }

  /** The literals announced by a first byte above 17. */
  method FirstStep(inp: seq<Byte>, out: array<Byte>, cap: nat) returns (code: int, ip: nat, op: nat, next: Ctx)
    requires inp != [] && inp[0] > 17 && cap <= out.Length
    modifies out
    ensures code == OK ==> 1 <= ip < |inp| && op <= cap && Performs(Start, inp, [], cap, next, ip, out[..op])
    ensures code == OK ==> next == Few || next == Many
    ensures code != OK ==> Decode(inp, cap) == None
  {
    var t := inp[0] - 17;
    ip, op := 1, 0;
    next := if t < 4 then Few else Many;
    if cap - op < t { return OUTPUT_OVERRUN, ip, op, next; }
    if |inp| - ip < t + 1 {
      FirstTooShort(inp, cap);
      return INPUT_OVERRUN, ip, op, next;
    }
    assert out[..0] == [];
    ip, op := CopyLiterals(inp, out, ip, op, t);
    assert [] + inp[1..ip] == inp[1..ip];
    code := OK;
  }

  lemma FirstTooShort(s: seq<Byte>, cap: nat)
    requires s != [] && s[0] > 17 && |s| <= s[0] - 16
    ensures Decode(s, cap) == None
  {
    var p := Parse(Start, s);
    if p.Parsed? {
      assert s[|s|..] == [];
      NothingLeft(After(p.instr), s[|s|..], Apply([], p.instr), cap);
    }
  }

  /** Decompress a whole stream into at most cap bytes. */
  method Decompress(inp: seq<Byte>, out: array<Byte>, cap: nat, inBase: nat, outBase: nat) returns (ret: int, outLen: nat)
    requires cap <= out.Length
    modifies out
    ensures outLen <= cap
    ensures ret == OK <==> Decode(inp, cap).Some?
    ensures ret == OK ==> Some(out[..outLen]) == Decode(inp, cap)
  {
    hide Parse, Performs, DecodeFrom;
    var ip, op := 0, 0;
    var ctx := Start;
    if inp == [] {
      NothingLeft(Start, inp, [], cap);
      return INPUT_OVERRUN, 0;
    }
    assert inp[0..] == inp && out[..0] == [];
    if inp[0] > 17 {
      var code;
      code, ip, op, ctx := FirstStep(inp, out, cap);
      if code != OK { return code, 0; }
      PerformsDecode(Start, inp, [], cap, ctx, ip, out[..op]);
    }
    while ip < |inp|
      invariant ip <= |inp| && op <= cap
      invariant Decode(inp, cap) == DecodeFrom(ctx, inp[ip..], out[..op], cap)
      invariant ctx == Start ==> op == 0 && ip == 0 && inp[0] <= 17
      decreases |inp| - ip
    {
      ghost var s, text, c0 := inp[ip..], out[..op], ctx;
      var ip0 := ip;
      var code;
      if inp[ip] < 16 && (ctx == Start || ctx == Zero) {
        code, ip, op := RunStep(inp, out, ip, op, cap, inBase, outBase, ctx);
        if code != OK { return code, if op <= cap then op else cap; }
        ctx := Many;
      } else {
        var last;
        code, last, ip, op, ctx := MatchStep(inp, out, ip, op, cap, outBase, ctx);
        if code != OK || last { return code, if op <= cap then op else cap; }
      }
      PerformsDecode(c0, s, text, cap, ctx, ip - ip0, out[..op]);
      assert s[ip - ip0..] == inp[ip..];
    }
    NothingLeft(ctx, inp[ip..], out[..op], cap);
    return EOF_NOT_FOUND, op;
  }

  lemma NothingLeft(ctx: Ctx, s: seq<Byte>, text: seq<Byte>, cap: nat)
    requires s == []
    ensures DecodeFrom(ctx, s, text, cap) == None
  {
  }
}
