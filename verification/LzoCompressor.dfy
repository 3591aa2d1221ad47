/** The main loop of the LZO1X-999 compressor. The dictionary is represented by what it
    answers: for each position a match, the nearest offsets of shorter matches, and the
    length of the lookahead. */
module LzoCompressor {
  import opened Buffers
  import opened LzoFormat
  import opened LzoDecode
  import opened LzoPrinter

  datatype Found = Found(len: nat, off: nat)

  /** len bytes at p repeat those off bytes before. */
  ghost predicate Repeats(src: seq<Byte>, p: nat, len: nat, off: nat) {
    && 1 <= off <= M4_MAX_OFFSET && off <= p && p + len <= |src|
    && forall i :: p <= i < p + len ==> src[i] == src[i - off]
  }

  /** The answers of the match finder. */
  datatype Finder = Finder(best: nat -> Found, near: (nat, nat) -> nat, look: nat -> nat)

  ghost predicate Honest(f: Finder, src: seq<Byte>) {
    && (forall p :: 0 <= p < |src| && f.best(p).len >= 2 ==> Repeats(src, p, f.best(p).len, f.best(p).off))
    && (forall p, len :: 0 <= p < |src| && len >= 2 && f.near(p, len) != 0 ==> Repeats(src, p, len, f.near(p, len)))
    && (forall p :: 0 <= p < |src| ==> 0 < f.look(p) <= |src| - p)
    && f.look(|src|) == 0 && f.best(|src|).len == 0
  }

  datatype Settings = Settings(useBestOff: bool, tryLazy: int, goodLength: nat, maxLazy: nat)

  /** better_match: a slightly shorter match that is cheaper to write. */
  method BetterMatch(f: Finder, p: nat, m: Found, ghost src: seq<Byte>) returns (r: Found)
    requires Honest(f, src) && p < |src| && (m.len >= 2 ==> Repeats(src, p, m.len, m.off))
    ensures r.len >= 2 ==> Repeats(src, p, r.len, r.off)
    ensures r.len <= m.len
    ensures r != m ==> r.len >= 3 && m.len > 3 && (r.len == 3 ==> r.off <= M2_MAX_OFFSET)
  {
    r := m;
    if m.len <= M2_MIN_LEN { return; }
    if m.off <= M2_MAX_OFFSET { return; }
    if m.off > M2_MAX_OFFSET && m.len >= M2_MIN_LEN + 1 && m.len <= M2_MAX_LEN + 1 {
      var o := f.near(p, m.len - 1);
      if o != 0 && o <= M2_MAX_OFFSET { return Found(m.len - 1, o); }
    }
    if m.off > M3_MAX_OFFSET && m.len >= M4_MAX_LEN + 1 && m.len <= M2_MAX_LEN + 2 {
      var o := f.near(p, m.len - 2);
      if o != 0 && o <= M2_MAX_OFFSET { return Found(m.len - 2, o); }
    }
    if m.off > M3_MAX_OFFSET && m.len >= M4_MAX_LEN + 1 && m.len <= M3_MAX_LEN + 1 {
      var o := f.near(p, m.len - 1);
      if o != 0 && o <= M3_MAX_OFFSET { return Found(m.len - 1, o); }
    }
  }

  /** min_gain */
  function MinGain(ahead: nat, lit1: nat, lit2: nat, l1: int, l2: int, l3: int): nat {
    var g := ahead
             + (if lit1 <= 3 then (if lit2 <= 3 then 0 else 2)
                else if lit1 <= 18 then (if lit2 <= 18 then 0 else 1) else 0)
             + (l2 - l1) * 2
             - (if l3 > 0 then (ahead - l3) * 2 else 0);
    if g < 0 then 0 else g
  }

  lemma CopyRepeats(src: seq<Byte>, p: nat, len: nat, off: nat)
    requires Repeats(src, p, len, off)
    ensures CopyText(src[..p], off, len) == src[..p + len]
  {
    if len > 0 {
      CopyRepeats(src, p, len - 1, off);
      var i := p + len - 1;
      assert src[..p + len] == src[..i] + [src[i]];
    }
  }

  /** The printed instructions stand for the source up to p. */
  ghost predicate Covers(w: Writer, src: seq<Byte>, p: nat)
    reads w, w.out
  {
    w.Valid() && Open(w.ins) && p <= |src| && TextOf(w.ins).value == src[..p] && w.out.Length >= 2 * |src| + 3
  }

  lemma MatchAllowed(ins: seq<Instr>, lits: seq<Byte>, len: nat, off: nat)
    requires Legal(ins) && TextOf(ins).Some? && Open(ins) && Codable(len, off, |lits|)
    requires ins == [] ==> lits != []
    ensures Legal(PushLits(ins, lits))
    ensures Allowed(CtxOf(PushLits(ins, lits)), Copy(FormOf(len, off, |lits|), len, off, []))
  {
    PushLitsFacts(ins, lits);
    FormOfFits(len, off, |lits|);
  }

  /** The text behind a literal run and a match that repeats the source. */
  lemma MatchText(ins: seq<Instr>, src: seq<Byte>, p: nat, lit: nat, len: nat, off: nat)
    requires Legal(ins) && Open(ins) && lit <= p && p <= |src| && TextOf(ins) == Some(src[..p - lit])
    requires Repeats(src, p, len, off) && Codable(len, off, lit)
    requires ins == [] ==> lit > 0
    ensures var q, i := PushLits(ins, src[p - lit..p]), Copy(FormOf(len, off, lit), len, off, []);
            && Legal(q) && TextOf(q) == Some(src[..p]) && Reaches(src[..p], i) && Allowed(CtxOf(q), i)
            && Legal(q + [i]) && TextOf(q + [i]) == Some(src[..p + len])
  {
    hide Legal, CopyText, TextOf, PushLits, Allowed, CtxOf, FormOf;
    var lits := src[p - lit..p];
    PushLitsFacts(ins, lits);
    assert src[..p - lit] + lits == src[..p];
    MatchAllowed(ins, lits, len, off);
    var i := Copy(FormOf(len, off, lit), len, off, []);
    Snoc(PushLits(ins, lits), i);
    CopyRepeats(src, p, len, off);
    assert src[..p + len] + [] == src[..p + len];
  }

  /** Print the pending literals and a match behind them. */
  method PrintMatch(w: Writer, src: seq<Byte>, p: nat, lit: nat, m: Found)
    requires lit <= p && Covers(w, src, p - lit) && Repeats(src, p, m.len, m.off) && Codable(m.len, m.off, lit)
    requires w.ins == [] ==> lit > 0
    modifies w, w.out
    ensures Covers(w, src, p + m.len) && w.ins != [] && w.op > 0
  {
    hide Legal, StreamOf, Repeats, CopyText, Head, TextOf, PushLits, Allowed, CtxOf, FormOf, Codable;
    RepeatsBounds(src, p, m.len, m.off);
    MatchText(w.ins, src, p, lit, m.len, m.off);
    w.CodeRun(src[p - lit..p]);
    w.CodeMatch(m.len, m.off);
    StreamNonEmpty(w.ins);
  }

  lemma RepeatsBounds(src: seq<Byte>, p: nat, len: nat, off: nat)
    requires Repeats(src, p, len, off)
    ensures 1 <= off <= p && p + len <= |src|
  {
  }

  lemma RepeatsPrefix(src: seq<Byte>, p: nat, len: nat, off: nat, n: nat)
    requires Repeats(src, p, len, off) && n <= len
    ensures Repeats(src, p, n, off)
  {
  }

  /** The loop's first test: is the match worth printing behind lit literals? */
  method Usable(m: Found, lit: nat, atStart: bool) returns (r: Found)
    ensures r == m || r.len == 0
    ensures r.len != 0 && r.off >= 1 && r.off <= M4_MAX_OFFSET ==> Codable(r.len, r.off, lit) && !(atStart && lit == 0)
    ensures r.len != 0 ==> r.len >= 2
  {
    r := m;
    if m.len < 2
       || (m.len == 2 && (m.off > M1_MAX_OFFSET || lit == 0 || lit >= 4))
       || (m.len == 2 && atStart) || (atStart && lit == 0) {
      r := Found(0, m.off);
    } else if m.len == M2_MIN_LEN {
      if m.off > MX_MAX_OFFSET && lit >= 4 { r := Found(0, m.off); }
    }
  }

  /** The loop's state: everything but the last lit bytes before p is printed, and c is
      what the finder says about p. */
  ghost predicate Pending(w: Writer, src: seq<Byte>, p: nat, lit: nat, c: Found)
    reads w, w.out
  {
    && lit <= p <= |src| && Covers(w, src, p - lit)
    && (p < |src| && c.len >= 2 ==> Repeats(src, p, c.len, c.off))
  }

  /** Look a few bytes ahead for a better match than m at q; when one is found, print or
      keep what lies before it. */
  method LazyMatch(w: Writer, src: seq<Byte>, f: Finder, cfg: Settings, q: nat, lit0: nat, m: Found, c0: Found, maxAhead: nat)
    returns (lazy: bool, p: nat, lit: nat, c: Found)
    requires Honest(f, src) && Pending(w, src, q, lit0, c0) && Repeats(src, q, m.len, m.off)
    requires Codable(m.len, m.off, lit0) && (w.ins == [] ==> lit0 > 0) && maxAhead < m.len
    modifies w, w.out
    ensures lazy ==> Pending(w, src, p, lit, c) && q < p
    ensures !lazy ==> w.ins == old(w.ins) && w.op == old(w.op) && Covers(w, src, q - lit0)
  {
    hide Covers, MinGain, Head, Legal, TextOf;
    RepeatsBounds(src, q, m.len, m.off);
    lazy, p, lit, c := false, q, lit0, c0;
    var ahead := 0;
    var l1 := LenOfCodedMatch(m.len, m.off, lit0);
    while ahead < maxAhead && f.look(p) > m.len
      invariant 0 <= ahead <= maxAhead && p == q + ahead <= |src|
      invariant w.ins == old(w.ins) && w.op == old(w.op) && Covers(w, src, q - lit0)
      decreases maxAhead - ahead
    {
      p := p + 1;
      c := f.best(p);
      ahead := ahead + 1;
      if c.len < m.len { continue; }
      if c.len == m.len && c.off >= m.off { continue; }
      if cfg.useBestOff { c := BetterMatch(f, p, c, src); }
      RepeatsBounds(src, p, c.len, c.off);
      var l2 := LenOfCodedMatch(c.len, c.off, lit0 + ahead);
      if l2 < 0 { continue; }
      var l3 := -1;
      if w.op != 0 { l3 := LenOfCodedMatch(ahead, m.off, lit0); }
      var gain := MinGain(ahead, lit0, lit0 + ahead, l1, l2, l3);
      if c.len >= m.len + gain {
        lazy := true;
        if l3 > 0 {
          RepeatsPrefix(src, q, m.len, m.off, ahead);
          PrintMatch(w, src, q, lit0, Found(ahead, m.off));
          lit := 0;
        } else {
          lit := lit0 + ahead;
        }
        return;
      }
    }
  }

  /** Compress src; the buffer that the interface allocates is large enough. */
  method Compress(src: seq<Byte>, out: array<Byte>, f: Finder, cfg: Settings) returns (outLen: nat, ghost ins: seq<Instr>)
    requires Honest(f, src) && out.Length >= 2 * |src| + 3
    modifies out
    ensures outLen <= 2 * |src| + 3 <= out.Length
    ensures IsStream(out[..outLen], ins, End(3, 0), src)
  {
    hide Covers, Legal, StreamOf, TextOf, Codable, PushLits, Head, Repeats;
    var w := new Writer(out);
    var p, lit := 0, 0;
    var c := f.best(0);
    CoversStart(w, src);
    while f.look(p) > 0
      invariant w.out == out && fresh(w) && Pending(w, src, p, lit, c)
      invariant w.op == 0 <==> w.ins == []
      decreases |src| - p
    {
      var m := Usable(c, lit, w.op == 0);
      if m.len == 0 {
        lit, p := lit + 1, p + 1;
        c := f.best(p);
        continue;
      }
      RepeatsBounds(src, p, m.len, m.off);
      UsableIs(m, lit, src, p);
      if cfg.useBestOff {
        ghost var m0 := m;
        m := BetterMatch(f, p, m, src);
        BetterCodable(m0, m, lit, src, p);
      }
      var maxAhead: int := 0;
      if cfg.tryLazy > 0 && m.len < cfg.maxLazy {
        var l1 := LenOfCodedMatch(m.len, m.off, lit);
        FormOfFits(m.len, m.off, lit);
        HeadSize(FormOf(m.len, m.off, lit), m.len, m.off);
        maxAhead := if cfg.tryLazy <= l1 - 1 then cfg.tryLazy else l1 - 1;
      }
      var q := p;
      var lazy, p', lit', c' := LazyMatch(w, src, f, cfg, q, lit, m, c, maxAhead);
      if lazy {
        p, lit, c := p', lit', c';
      } else {
        PrintMatch(w, src, q, lit, m);
        lit := 0;
        p := q + m.len;
        RepeatsBounds(src, q, m.len, m.off);
        c := f.best(p);
      }
      OpZero(w, src, p - lit);
    }
    outLen, ins := Finish(w, src, p, lit, c);
  }

  lemma CoversStart(w: Writer, src: seq<Byte>)
    requires w.Valid() && w.ins == [] && w.out.Length >= 2 * |src| + 3
    ensures Covers(w, src, 0)
  {
    assert src[..0] == [];
  }

  lemma OpZero(w: Writer, src: seq<Byte>, p: nat)
    requires Covers(w, src, p)
    ensures w.op == 0 <==> w.ins == []
  {
    StreamNonEmpty(w.ins);
  }

  lemma UsableIs(m: Found, lit: nat, src: seq<Byte>, p: nat)
    requires Repeats(src, p, m.len, m.off)
    ensures 1 <= m.off <= M4_MAX_OFFSET
  {
  }

  lemma BetterCodable(m: Found, r: Found, lit: nat, src: seq<Byte>, p: nat)
    requires Codable(m.len, m.off, lit) && m.len >= 2
    requires r.len >= 2 ==> Repeats(src, p, r.len, r.off)
    requires r != m ==> r.len >= 3
    ensures Codable(r.len, r.off, lit)
  {
  }

  /** The remaining literals and the end marker. */
  method Finish(w: Writer, src: seq<Byte>, p: nat, lit: nat, ghost c: Found) returns (outLen: nat, ghost ins: seq<Instr>)
    requires Pending(w, src, p, lit, c) && p == |src|
    modifies w, w.out
    ensures outLen <= 2 * |src| + 3 <= w.out.Length
    ensures IsStream(w.out[..outLen], ins, End(3, 0), src)
  {
    hide Legal, StreamOf, TextOf, PushLits, LenBytes, CtxOf;
    var lits := src[p - lit..p];
    PushLitsFacts(w.ins, lits);
    assert src[..p - lit] + lits == src;
    if lit > 0 {
      w.StoreRun(lits);
    } else {
      PushNone(w.ins);
      assert lits == [];
    }
    ins := w.ins;
    w.PutEnd();
    outLen := w.op;
  }

  lemma PushNone(ins: seq<Instr>)
    requires Open(ins)
    ensures PushLits(ins, []) == ins
  {
  }
}
