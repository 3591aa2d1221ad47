/** The byte-level instruction printer of the LZO1X-999 compressor. */
module LzoPrinter {
  import opened Buffers
  import opened LzoFormat
  import opened LzoDecode

  /** The form that code_match chooses; lit is the length of the run before the match. */
  function FormOf(len: nat, off: nat, lit: nat): Form {
    if len == 2 then M1a
    else if len <= M2_MAX_LEN && off <= M2_MAX_OFFSET then M2
    else if len == M2_MIN_LEN && off <= MX_MAX_OFFSET && lit >= 4 then M1b
    else if off <= M3_MAX_OFFSET then M3
    else M4
  }

  /** A match that code_match can express behind a run of lit literals. */
  predicate Codable(len: nat, off: nat, lit: nat) {
    && len >= 2 && 1 <= off <= M4_MAX_OFFSET
    && (len == 2 ==> off <= M1_MAX_OFFSET && 0 < lit < 4)
  }

  lemma FormOfFits(len: nat, off: nat, lit: nat)
    requires Codable(len, off, lit)
    ensures FormFits(FormOf(len, off, lit), len, off)
  {
  }

  /** The number of bytes that code_match would emit, or -1. */
  method LenOfCodedMatch(m_len: nat, m_off: nat, lit: nat) returns (n: int)
    requires m_off >= 1
    ensures n == if Codable(m_len, m_off, lit) then |Head(FormOf(m_len, m_off, lit), m_len, m_off, 0)| else -1
    ensures n > 0 ==> n >= 2
  {
    n := 4;
    var len := m_len;
    if len < 2 { return -1; }
    if len == 2 { return if m_off <= M1_MAX_OFFSET && lit > 0 && lit < 4 then 2 else -1; }
    if len <= M2_MAX_LEN && m_off <= M2_MAX_OFFSET { return 2; }
    if len == M2_MIN_LEN && m_off <= MX_MAX_OFFSET && lit >= 4 { return 2; }
    if m_off <= M3_MAX_OFFSET {
      if len <= M3_MAX_LEN { return 3; }
      len := len - M3_MAX_LEN;
      while len > 255
        invariant 1 <= len && n + |Ext(len)| == 4 + |Ext(m_len - M3_MAX_LEN)|
        invariant n >= 4
      {
        len := len - 255;
        n := n + 1;
      }
      return;
    }
    if m_off <= M4_MAX_OFFSET {
      if len <= M4_MAX_LEN { return 3; }
      len := len - M4_MAX_LEN;
      while len > 255
        invariant 1 <= len && n + |Ext(len)| == 4 + |Ext(m_len - M4_MAX_LEN)|
        invariant n >= 4
      {
        len := len - 255;
        n := n + 1;
      }
      return;
    }
    return -1;
  }

  // ---------- literals in front of the next match

  /** Literals can be appended to the list. */
  predicate Open(ins: seq<Instr>) {
    ins == [] || (ins[|ins| - 1].Copy? && ins[|ins| - 1].lits == [])
  }

  /** How a run of literals is expressed: as the first instruction, in the state bits of
      the match before, or as a run of its own. */
  function PushLits(ins: seq<Instr>, lits: seq<Byte>): seq<Instr>
    requires Open(ins)
  {
    if lits == [] then ins
    else if ins == [] && |lits| <= 238 then [First(lits)]
    else if |lits| <= 3 then
      var last := ins[|ins| - 1];
      ins[..|ins| - 1] + [Copy(last.form, last.len, last.off, lits)]
    else ins + [Run(lits)]
  }

  /** The bytes after the literals have been counted in the last match. */
  function Marked(s: seq<Byte>, lits: seq<Byte>): seq<Byte>
    requires |s| >= 2 && s[|s| - 2] + |lits| < 256
  {
    s[|s| - 2 := s[|s| - 2] + |lits|] + lits
  }

  lemma HeadMarked(form: Form, len: nat, off: nat, lits: seq<Byte>)
    requires FormFits(form, len, off) && |lits| <= 3
    ensures var h := Head(form, len, off, 0);
            h[|h| - 2] + |lits| < 256 && h[|h| - 2] % 4 == 0 && Bytes(Copy(form, len, off, lits)) == Marked(h, lits)
  {
    hide Head;
    var front, high, last := HeadParts(form, len, off);
    var h, g := Head(form, len, off, 0), Head(form, len, off, |lits|);
    assert h == front + [high * 4 + 0, last] && g == front + [high * 4 + |lits|, last];
    assert g == h[|h| - 2 := h[|h| - 2] + |lits|];
  }

  /** Refilling the literals of the last match. */
  lemma PushFew(front: seq<Instr>, i: Instr, lits: seq<Byte>)
    requires Legal(front + [i]) && i.Copy? && i.lits == [] && |lits| <= 3
    requires TextOf(front + [i]).Some?
    ensures var j := Copy(i.form, i.len, i.off, lits);
            && Legal(front + [j]) && TextOf(front + [j]) == Some(TextOf(front + [i]).value + lits)
            && StreamOf(front + [j]) == StreamOf(front) + Bytes(j)
    ensures Legal(front) && Allowed(CtxOf(front), i) && StreamOf(front + [i]) == StreamOf(front) + Bytes(i)
  {
    hide Bytes, CopyText, Legal, StreamOf, TextOf, CtxOf;
    Unsnoc(front, i);
    Snoc(front, Copy(i.form, i.len, i.off, lits));
    NothingMore(CopyText(TextOf(front).value, i.off, i.len));
  }

  lemma PushLitsFacts(ins: seq<Instr>, lits: seq<Byte>)
    requires Legal(ins) && TextOf(ins).Some? && Open(ins)
    ensures var q := PushLits(ins, lits);
            && Legal(q) && TextOf(q) == Some(TextOf(ins).value + lits)
            && (lits != [] ==> CtxOf(q) == if |lits| <= 3 then Few else Many)
            && (lits == [] && ins != [] ==> CtxOf(q) == Zero)
  {
    var t := TextOf(ins).value;
    if lits == [] {
      assert t + lits == t;
    } else if ins == [] && |lits| <= 238 {
      assert [First(lits)] == [] + [First(lits)];
      Snoc([], First(lits));
    } else if |lits| <= 3 {
      var front, i := ins[..|ins| - 1], ins[|ins| - 1];
      assert front + [i] == ins;
      PushFew(front, i, lits);
    } else {
      Snoc(ins, Run(lits));
    }
  }

  /** The three ways STORE_RUN writes a run. */
  lemma PushFirstStream(lits: seq<Byte>)
    requires 1 <= |lits| <= 238
    ensures var q := PushLits([], lits); Legal(q) && StreamOf(q) == [17 + |lits|] + lits
  {
    assert [First(lits)] == [] + [First(lits)];
    Snoc([], First(lits));
  }

  lemma PushFewStream(ins: seq<Instr>, lits: seq<Byte>)
    requires Legal(ins) && TextOf(ins).Some? && Open(ins) && ins != [] && 1 <= |lits| <= 3
    ensures var q, s := PushLits(ins, lits), StreamOf(ins);
            && Legal(q)
            && |s| >= 2 && s[|s| - 2] % 4 == 0 && s[|s| - 2] + |lits| < 256 && StreamOf(q) == Marked(s, lits)
  {
    hide Head, Marked, TextOf, Legal, StreamOf;
    var front, i := ins[..|ins| - 1], ins[|ins| - 1];
    assert front + [i] == ins;
    PushFew(front, i, lits);
    var h := Head(i.form, i.len, i.off, 0);
    HeadMarked(i.form, i.len, i.off, lits);
    NothingMore(h);
    MarkedSuffix(StreamOf(front), h, lits);
  }

  lemma PushRunStream(ins: seq<Instr>, lits: seq<Byte>)
    requires Legal(ins) && Open(ins) && |lits| >= 4 && (ins == [] ==> |lits| > 238)
    ensures var q := PushLits(ins, lits);
            Legal(q) && StreamOf(q) == StreamOf(ins) + LenBytes(0, 15, |lits| - 3) + lits
  {
    hide LenBytes, Legal, StreamOf, TextOf, Apply;
    Snoc(ins, Run(lits));
    Regroup(StreamOf(ins), LenBytes(0, 15, |lits| - 3), lits);
  }

  lemma MarkedSuffix(a: seq<Byte>, h: seq<Byte>, lits: seq<Byte>)
    requires |h| >= 2 && h[|h| - 2] + |lits| < 256
    ensures (a + h)[|a + h| - 2] == h[|h| - 2]
    ensures Marked(a + h, lits) == a + Marked(h, lits)
  {
  }

  // ---------- sizes

  lemma {:induction false} ExtSize(n: nat)
    requires n >= 1
    ensures 255 * (|Ext(n)| - 1) < n
  {
    if n > 255 { ExtSize(n - 255); }
  }

  /** No match is written with more bytes than it copies. */
  lemma HeadSize(form: Form, len: nat, off: nat)
    requires FormFits(form, len, off)
    ensures |Head(form, len, off, 0)| <= len
  {
    if form == M3 && len - 2 > 31 { ExtSize(len - 2 - 31); }
    if form == M4 && len - 2 > 7 { ExtSize(len - 2 - 7); }
  }

  /** No run takes more than twice its length. */
  lemma RunSize(n: nat)
    requires n >= 4
    ensures |LenBytes(0, 15, n - 3)| <= n
  {
    if n - 3 > 15 { ExtSize(n - 3 - 15); }
  }

  lemma {:induction false} StreamNonEmpty(ins: seq<Instr>)
    requires Legal(ins)
    ensures StreamOf(ins) == [] <==> ins == []
  {
  }

  // ---------- the printer

  class Writer {
    const out: array<Byte>
    var op: nat
    var r1_lit: nat
    ghost var ins: seq<Instr>  // what has been printed

    ghost predicate Valid()
      reads this, out
    {
      && op <= out.Length
      && Legal(ins) && TextOf(ins).Some?
      && out[..op] == StreamOf(ins)
      && op <= 2 * |TextOf(ins).value|
    }

    constructor (out: array<Byte>)
      ensures this.out == out && Valid() && ins == [] && op == 0 && r1_lit == 0
    {
      this.out := out;
      op, r1_lit, ins := 0, 0, [];
    }

    method PutByte(b: Byte)
      requires op < out.Length
      modifies this`op, out
      ensures op == old(op) + 1 && out[..op] == old(out[..op]) + [b]
    {
      out[op] := b;
      op := op + 1;
    }

    /** The zeros and the last byte of a length extension. */
    method PutExt(n: nat)
      requires n >= 1 && op + |Ext(n)| <= out.Length
      modifies this`op, out
      ensures op == old(op) + |Ext(n)| && out[..op] == old(out[..op]) + Ext(n)
    {
      var t := n;
      ghost var start, pre := op, out[..op];
      while t > 255
        invariant 1 <= t && start <= op && op + |Ext(t)| == start + |Ext(n)| <= out.Length
        invariant out[..op] + Ext(t) == pre + Ext(n)
      {
        assert out[..op] + Ext(t) == (out[..op] + [0]) + Ext(t - 255);
        t := t - 255;
        PutByte(0);
      }
      PutByte(t);
    }

    method PutBytes(lits: seq<Byte>)
      requires op + |lits| <= out.Length
      modifies this`op, out
      ensures op == old(op) + |lits| && out[..op] == old(out[..op]) + lits
    {
      ghost var start, pre := op, out[..op];
      var k := 0;
      while k < |lits|
        invariant 0 <= k <= |lits| && op == start + k && out[..op] == pre + lits[..k]
      {
        PutByte(lits[k]);
        assert lits[..k + 1] == lits[..k] + [lits[k]];
        k := k + 1;
      }
    }

    /** STORE_RUN: what comes before the literals. */
    method AnnounceRun(lits: seq<Byte>)
      requires Valid() && Open(ins) && lits != [] && op + |lits| <= out.Length
      modifies this`op, out
      ensures Legal(PushLits(ins, lits)) && op <= old(op) + |lits|
      ensures out[..op] + lits == StreamOf(PushLits(ins, lits))
    {
      hide Legal, StreamOf, TextOf, LenBytes, PushLits, Open, Ext;
      var t := |lits|;
      StreamNonEmpty(ins);
      if op == 0 && t <= 238 {
        PushFirstStream(lits);
        PutByte(17 + t);
      } else if t <= 3 {
        PushFewStream(ins, lits);
        assert out[op - 2] % 4 == 0;  // so that or-ing t in is adding it
        out[op - 2] := out[op - 2] + t;
      } else if t <= 18 {
        PushRunStream(ins, lits);
        LenShort(t);
        PutByte(t - 3);
      } else {
        PushRunStream(ins, lits);
        LenLong(t);
        PutByte(0);
        PutExt(t - 18);
      }
    }

    /** STORE_RUN */
    method StoreRun(lits: seq<Byte>)
      requires Valid() && Open(ins) && lits != [] && op + 2 * |lits| <= out.Length
      modifies this, out
      ensures Valid() && ins == PushLits(old(ins), lits) && r1_lit == old(r1_lit)
    {
      hide Legal, StreamOf, TextOf, PushLits, Open;
      PushLitsFacts(ins, lits);
      AnnounceRun(lits);
      PutBytes(lits);
      ins := PushLits(ins, lits);
    }

    /** The end marker. */
    method PutEnd()
      requires op + 3 <= out.Length
      modifies this`op, out
      ensures op == old(op) + 3 && out[..op] == old(out[..op]) + Bytes(End(3, 0))
    {
      ghost var s := out[..op];
      PutByte(M4_MARKER + 1);
      PutByte(0);
      PutByte(0);
      EndBytes();
      assert out[..op] == s + [17, 0, 0];
    }

    /** code_run */
    method CodeRun(lits: seq<Byte>)
      requires Valid() && Open(ins) && op + 2 * |lits| <= out.Length
      modifies this, out
      ensures Valid() && ins == PushLits(old(ins), lits) && r1_lit == |lits|
    {
      if |lits| > 0 {
        StoreRun(lits);
      }
      r1_lit := |lits|;
    }

    /** The two distance bytes of the far forms. */
    method PutDistance(m_off: nat)
      requires op + 2 <= out.Length
      modifies this`op, out
      ensures op == old(op) + 2 && out[..op] == old(out[..op]) + [m_off % 64 * 4, m_off / 64 % 256]
    {
      ghost var pre := out[..op];
      PutByte(m_off * 4 % 256);
      PutByte(m_off / 64 % 256);
      assert m_off * 4 % 256 == m_off % 64 * 4;
      assert out[..op] == pre + [m_off % 64 * 4, m_off / 64 % 256];
    }

    /** code_match: print a match in the shortest form. */
    method CodeMatch(m_len: nat, m_off: nat)
      requires Valid() && Codable(m_len, m_off, r1_lit) && op + m_len <= out.Length
      requires Reaches(TextOf(ins).value, Copy(FormOf(m_len, m_off, r1_lit), m_len, m_off, []))
      requires Allowed(CtxOf(ins), Copy(FormOf(m_len, m_off, r1_lit), m_len, m_off, []))
      modifies this`op, this`ins, out
      ensures Valid() && Open(ins)
      ensures ins == old(ins) + [Copy(FormOf(m_len, m_off, r1_lit), m_len, m_off, [])]
      ensures op == old(op) + |Head(FormOf(m_len, m_off, r1_lit), m_len, m_off, 0)|
    {
      hide Legal, StreamOf, TextOf, CopyText;
      ghost var form := FormOf(m_len, m_off, r1_lit);
      ghost var head := Head(form, m_len, m_off, 0);
      ghost var pre := out[..op];
      HeadSize(form, m_len, m_off);
      PutMatch(m_len, m_off);
      assert out[..op] == pre + head;
      ghost var i := Copy(form, m_len, m_off, []);
      Snoc(ins, i);
      assert head + [] == head;
      AppliedSize(TextOf(ins).value, i);
      ins := ins + [i];
    }

    method PutMatch(m_len: nat, m_off: nat)
      requires op <= out.Length && Codable(m_len, m_off, r1_lit)
      requires op + |Head(FormOf(m_len, m_off, r1_lit), m_len, m_off, 0)| <= out.Length
      modifies this`op, out
      ensures op == old(op) + |Head(FormOf(m_len, m_off, r1_lit), m_len, m_off, 0)|
      ensures out[..op] == old(out[..op]) + Head(FormOf(m_len, m_off, r1_lit), m_len, m_off, 0)
    {
      hide Ext;
      if m_len == 2 {
        PutPair((m_off - 1) % 4 * 4, (m_off - 1) / 4);
      } else if m_len <= M2_MAX_LEN && m_off <= M2_MAX_OFFSET {
        PutPair((m_len - 1) * 32 + (m_off - 1) % 8 * 4, (m_off - 1) / 8);
      } else if m_len == M2_MIN_LEN && m_off <= MX_MAX_OFFSET && r1_lit >= 4 {
        PutPair((m_off - 1 - M2_MAX_OFFSET) % 4 * 4, (m_off - 1 - M2_MAX_OFFSET) / 4);
      } else if m_off <= M3_MAX_OFFSET {
        PutNear(m_len, m_off - 1);
      } else {
        PutFar(m_len, m_off - 0x4000);
      }
    }

    method PutPair(a: Byte, b: Byte)
      requires op + 2 <= out.Length
      modifies this`op, out
      ensures op == old(op) + 2 && out[..op] == old(out[..op]) + [a, b]
    {
      ghost var pre := out[..op];
      PutByte(a);
      PutByte(b);
      assert out[..op] == pre + [a, b];
    }

    method PutNear(m_len: nat, off: nat)
      requires m_len >= 3 && off < 0x4000 && op + |LenBytes(M3_MARKER, 31, m_len - 2)| + 2 <= out.Length
      modifies this`op, out
      ensures op == old(op) + |LenBytes(M3_MARKER, 31, m_len - 2)| + 2
      ensures out[..op] == old(out[..op]) + (LenBytes(M3_MARKER, 31, m_len - 2) + [off % 64 * 4, off / 64])
    {
      ghost var pre := out[..op];
      if m_len <= M3_MAX_LEN {
        PutByte(M3_MARKER + (m_len - 2));
      } else {
        PutByte(M3_MARKER);
        PutExt(m_len - M3_MAX_LEN);
      }
      assert out[..op] == pre + LenBytes(M3_MARKER, 31, m_len - 2);
      PutDistance(off);
    }

    method PutFar(m_len: nat, off: nat)
      requires var k := if off >= 0x4000 then 8 else 0;
               m_len >= 3 && off < 0x8000 && op + |LenBytes(M4_MARKER + k, 7, m_len - 2)| + 2 <= out.Length
      modifies this`op, out
      ensures var k := if off >= 0x4000 then 8 else 0;
              && op == old(op) + |LenBytes(M4_MARKER + k, 7, m_len - 2)| + 2
              && out[..op] == old(out[..op]) + (LenBytes(M4_MARKER + k, 7, m_len - 2) + [off % 64 * 4, off % 0x4000 / 64])
    {
      ghost var pre := out[..op];
      var k := off / 0x4000 % 2 * 8;
      FarFields(off);
      if m_len <= M4_MAX_LEN {
        PutByte(M4_MARKER + k + (m_len - 2));
      } else {
        PutByte(M4_MARKER + k);
        PutExt(m_len - M4_MAX_LEN);
      }
      assert out[..op] == pre + LenBytes(M4_MARKER + k, 7, m_len - 2);
      PutDistance(off);
    }
  }

  lemma EndBytes()
    ensures Bytes(End(3, 0)) == [17, 0, 0]
  {
  }

  lemma FarFields(off: nat)
    requires off < 0x8000
    ensures off / 0x4000 % 2 * 8 == if off >= 0x4000 then 8 else 0
    ensures off / 64 % 256 == off % 0x4000 / 64
  {
  }

  lemma AppliedSize(text: seq<Byte>, i: Instr)
    requires Reaches(text, i) && i.Copy?
    ensures |Apply(text, i)| == |text| + i.len + |i.lits|
  {
  }

  lemma LenShort(t: nat)
    requires 4 <= t <= 18
    ensures LenBytes(0, 15, t - 3) == [t - 3]
  {
  }

  lemma LenLong(t: nat)
    requires t > 18
    ensures LenBytes(0, 15, t - 3) == [0] + Ext(t - 18) && |LenBytes(0, 15, t - 3)| <= t
  {
    RunSize(t);
  }
}
