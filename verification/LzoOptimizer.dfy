/** The optimiser: one pass over a stream that rewrites it in place and writes its text. */
module LzoOptimizer {
  import opened Buffers
  import opened LzoFormat
  import opened LzoParse
  import opened LzoDecode
  import opened LzoParser
  import opened LzoRewrite

  const NULL := -1

  // ---------- what the rewrites do to the bytes

  /** copy2: the first two bytes of a match, placed at ip before the match is performed. */
  method Copy2(inp: array<Byte>, ip: nat, out: array<Byte>, op: nat, off: nat)
    requires inp != out && ip + 2 <= inp.Length && 1 <= off <= op <= out.Length
    modifies inp
    ensures inp[..] == old(inp[..ip]) + Added(out[..op], off, 2) + old(inp[ip + 2..])
  {
    ghost var text := out[..op];
    Added2(text, off);
    var m_pos := op - off;
    inp[ip] := out[m_pos];
    if off == 1 { inp[ip + 1] := out[m_pos]; } else { inp[ip + 1] := out[m_pos + 1]; }
  }

  lemma Added2(text: seq<Byte>, off: nat)
    requires 1 <= off <= |text|
    ensures var m := |text| - off;
            Added(text, off, 2) == [text[m], if off == 1 then text[m] else text[m + 1]]
  {
    var a := CopyText(text, off, 1);
    assert CopyText(text, off, 0) == text;
    assert a == text + [text[|text| - off]];
    assert CopyText(text, off, 2) == a + [a[|a| - off]];
  }

  /** copy3 */
  method Copy3(inp: array<Byte>, ip: nat, out: array<Byte>, op: nat, off: nat)
    requires inp != out && ip + 3 <= inp.Length && 1 <= off <= op <= out.Length
    modifies inp
    ensures inp[..] == old(inp[..ip]) + Added(out[..op], off, 3) + old(inp[ip + 3..])
  {
    ghost var text := out[..op];
    Added3(text, off);
    var m_pos := op - off;
    inp[ip] := out[m_pos];
    if off == 1 {
      inp[ip + 1] := out[m_pos];
      inp[ip + 2] := inp[ip + 1];
    } else if off == 2 {
      inp[ip + 1] := out[m_pos + 1];
      inp[ip + 2] := out[m_pos];
    } else {
      inp[ip + 1] := out[m_pos + 1];
      inp[ip + 2] := out[m_pos + 2];
    }
  }

  lemma Added3(text: seq<Byte>, off: nat)
    requires 1 <= off <= |text|
    ensures var m := |text| - off;
            Added(text, off, 3) == [text[m], if off == 1 then text[m] else text[m + 1],
                                    if off == 1 then text[m] else if off == 2 then text[m] else text[m + 2]]
  {
    Added2(text, off);
    var b := CopyText(text, off, 2);
    assert b == text + Added(text, off, 2);
    assert CopyText(text, off, 3) == b + [b[|b| - off]];
  }

  /** memmove by one place upwards. */
  method MoveUp(inp: array<Byte>, at: nat, n: nat)
    requires at + n < inp.Length
    modifies inp
    ensures inp[..] == old(inp[..at + 1]) + old(inp[at..at + n]) + old(inp[at + n + 1..])
  {
    forall i | 0 <= i < n { inp[at + 1 + i] := inp[at + i]; }
  }

  /** The two low bits of a state byte. */
  function SetLow(b: Byte, n: nat): Byte
    requires n <= 3
  {
    b - b % 4 + n
  }

  lemma LowBits(high: nat, n: nat, m: nat)
    requires high < 64 && n <= 3 && m <= 3
    ensures (high * 4 + n) % 4 == n && SetLow(high * 4 + n, m) == high * 4 + m
  {
  }

  lemma HeadState(form: Form, len: nat, off: nat, n: nat, m: nat)
    requires FormFits(form, len, off) && n <= 3 && m <= 3
    ensures var h, g := Head(form, len, off, n), Head(form, len, off, m);
            |g| == |h| && g == h[|h| - 2 := SetLow(h[|h| - 2], m)] && h[|h| - 2] % 4 == n
  {
    hide Head;
    var front, high, last := HeadParts(form, len, off);
    LowBits(high, n, m);
    assert Head(form, len, off, n) == front + [high * 4 + n, last];
    assert Head(form, len, off, m) == front + [high * 4 + m, last];
  }

  // ---------- the state between two instructions

  ghost predicate IsPlan(ins: seq<Instr>, e: Instr) {
    Legal(ins) && e.End? && Allowed(CtxOf(ins), e)
  }

  /** Up to ip the stream holds the rewritten instructions done; from ip on it is still
      the original from instruction k on; both stand for the text written so far. */
  ghost predicate At(s: seq<Byte>, text: seq<Byte>, ins: seq<Instr>, e: Instr, k: nat, done: seq<Instr>, ip: nat, ctx: Ctx) {
    && IsPlan(ins, e) && k <= |ins| && Legal(done) && ip < |s|
    && s[..ip] == StreamOf(done) && s[ip..] == TailOf(ins, k) + Bytes(e)
    && TextOf(done) == Some(text) && TextOf(ins[..k]) == Some(text)
    && ctx == CtxOf(ins[..k])
    && (CtxOf(done) == ctx || (CtxOf(done) == Few && ctx == Zero && s[ip] >= 16))
  }

  /** litp and lit describe the literals at the end of done, if litp is set. */
  ghost predicate Anchor(done: seq<Instr>, ip: nat, litp: int, lit: nat) {
    litp == NULL ||
    (done != [] && 0 <= litp &&
     var x := done[|done| - 1];
     || (x.Copy? && |x.lits| == lit <= 3 && litp == ip - lit - 2)
     || (x.Run? && |x.lits| == lit && lit >= 4 && litp == ip - lit - |LenBytes(0, 15, lit - 3)|))
  }

  lemma LastInstr(done: seq<Instr>) returns (front: seq<Instr>, x: Instr)
    requires done != []
    ensures done == front + [x] && x == done[|done| - 1]
  {
    front, x := done[..|done| - 1], done[|done| - 1];
  }

  /** The rewritten bytes of the first kind: the match's bytes become its text. */
  function AbsorbBytes(s: seq<Byte>, litp: nat, ip: nat, p: seq<Byte>): (r: seq<Byte>)
    requires litp < ip && ip + |p| <= |s|
  {
    s[litp := SetLow(s[litp], 3)][..ip] + p + s[ip + |p|..]
  }

  lemma AbsorbStep(s: seq<Byte>, text: seq<Byte>, ins: seq<Instr>, e: Instr, k: nat, done: seq<Instr>, ip: nat, ctx: Ctx,
                   litp: int, lit: nat) returns (done': seq<Instr>)
    requires At(s, text, ins, e, k, done, ip, ctx) && Anchor(done, ip, litp, lit)
    requires k < |ins| && WellMade(ins[k]) && ins[k].Copy? && ins[k].lits == []
    requires |Bytes(ins[k])| == ins[k].len && lit + ins[k].len == 3 && litp != NULL && Reaches(text, ins[k])
    requires ip + ins[k].len < |s| && s[ip + ins[k].len] >= 16
    ensures 1 <= ins[k].off <= |text| && 0 <= litp < ip
    ensures var n, p := ins[k].len, Added(text, ins[k].off, ins[k].len);
            var s' := AbsorbBytes(s, litp, ip, p);
            && |s'| == |s|
            && At(s', text + p, ins, e, k + 1, done', ip + n, Zero) && Anchor(done', ip + n, litp, 3)
  {
    hide Bytes, Legal, StreamOf, TextOf, Allowed, Added, Head, LenBytes, Parse, TailOf, AbsorbBytes;
    var i := ins[k];
    var n, p := i.len, Added(text, i.off, i.len);
    var front, x := LastInstr(done);
    Absorb(front, x, p);
    var y := Copy(x.form, x.len, x.off, x.lits + p);
    done' := front + [y];
    var a, h, g := StreamOf(front), Head(x.form, x.len, x.off, lit), Head(x.form, x.len, x.off, 3);
    HeadState(x.form, x.len, x.off, lit, 3);
    AbsorbLayout(s, a, h, g, x.lits, p, litp, ip, n);
    RestParses(ins, e, k);
    NextPrefix(ins, k);
    RestMoves(ins, e, k, s, ip);
    ApplyBare(text, i);
  }

  lemma AbsorbLayout(s: seq<Byte>, a: seq<Byte>, h: seq<Byte>, g: seq<Byte>, l: seq<Byte>, p: seq<Byte>, litp: nat, ip: nat, n: nat)
    requires |h| >= 2 && |g| == |h| && g == h[|h| - 2 := SetLow(h[|h| - 2], 3)]
    requires ip + n <= |s| && |p| == n && s[..ip] == a + (h + l) && litp == ip - |l| - 2
    ensures litp < ip
    ensures var s' := AbsorbBytes(s, litp, ip, p);
            && |s'| == |s| && s'[..ip + n] == a + (g + (l + p)) && s'[ip + n..] == s[ip + n..]
  {
    hide SetLow;
    assert s[litp] == (a + (h + l))[litp] == h[|h| - 2];
    var v := SetLow(s[litp], 3);
    UpdateTake(s, litp, v, ip);
    UpdateRight(a, h + l, |h| - 2, v);
    UpdateLeft(h, l, |h| - 2, v);
    Halves((a + (g + l)) + p, s[ip + n..]);
    Regroup(a, g + l, p);
    Regroup(g, l, p);
  }

  /** The untouched rest behind instruction k. */
  lemma RestMoves(ins: seq<Instr>, e: Instr, k: nat, s: seq<Byte>, ip: nat)
    requires IsPlan(ins, e) && k < |ins| && ip <= |s| && s[ip..] == TailOf(ins, k) + Bytes(e)
    ensures WellMade(ins[k]) && ip + |Bytes(ins[k])| < |s|
    ensures s[ip + |Bytes(ins[k])|..] == TailOf(ins, k + 1) + Bytes(e)
    ensures s[ip..ip + |Bytes(ins[k])|] == Bytes(ins[k])
  {
    hide Parse, Bytes, Legal;
    RestParses(ins, e, k);
    var b := Bytes(ins[k]);
    assert TailOf(ins, k) + Bytes(e) == b + (TailOf(ins, k + 1) + Bytes(e));
    assert s[ip..][|b|..] == s[ip + |b|..];
    assert s[ip..][..|b|] == s[ip..ip + |b|];
  }

  /** The short run that the next byte announces behind a match without literals. */
  lemma NextRun(ins: seq<Instr>, e: Instr, k: nat, s: seq<Byte>, ip: nat, text: seq<Byte>) returns (r: seq<Byte>)
    requires IsPlan(ins, e) && k < |ins| && ip <= |s| && s[ip..] == TailOf(ins, k) + Bytes(e)
    requires TextOf(ins[..k]) == Some(text) && Reaches(text, ins[k])
    requires WellMade(ins[k]) && ins[k].Copy? && ins[k].lits == []
    requires ip + |Bytes(ins[k])| < |s| && 0 < s[ip + |Bytes(ins[k])|] < 16
    ensures k + 2 <= |ins| && ip + |Bytes(ins[k])| + 1 + |r| < |s|
    ensures |r| == s[ip + |Bytes(ins[k])|] + 3
    ensures var rp := ip + |Bytes(ins[k])| + 1; r == s[rp..rp + |r|] && s[rp + |r|..] == TailOf(ins, k + 2) + Bytes(e)
    ensures TextOf(ins[..k + 2]) == Some(text + (Added(text, ins[k].off, ins[k].len) + r)) && CtxOf(ins[..k + 2]) == Many
  {
    hide Parse, Legal, StreamOf, TextOf, Added, CopyText, Bytes, LenBytes, Allowed, TailOf, Apply;
    RestMoves(ins, e, k, s, ip);
    var q := ip + |Bytes(ins[k])|;
    var p := Added(text, ins[k].off, ins[k].len);
    NextPrefix(ins, k);
    ApplyBare(text, ins[k]);
    r := RunComes(ins, e, k + 1, s, q);
    RunSize(r);
    RestMoves(ins, e, k + 1, s, q);
    NextPrefix(ins, k + 1);
    ApplyRun(text + p, r);
    Regroup(text, p, r);
  }

  lemma ApplyRun(text: seq<Byte>, r: seq<Byte>)
    ensures Apply(text, Run(r)) == text + r
  {
  }

  lemma ApplyBare(text: seq<Byte>, i: Instr)
    requires i.Copy? && i.lits == [] && Reaches(text, i)
    ensures Apply(text, i) == text + Added(text, i.off, i.len)
  {
    hide CopyText;
    NothingMore(text + Added(text, i.off, i.len));
  }

  lemma RunComes(ins: seq<Instr>, e: Instr, k: nat, s: seq<Byte>, q: nat) returns (r: seq<Byte>)
    requires IsPlan(ins, e) && k <= |ins| && q < |s| && s[q..] == TailOf(ins, k) + Bytes(e)
    requires CtxOf(ins[..k]) == Zero && 0 < s[q] < 16
    ensures |r| == s[q] + 3 && q + 1 + |r| <= |s| && r == s[q + 1..q + 1 + |r|]
    ensures k < |ins| && ins[k] == Run(r)
  {
    hide Parse, Legal, StreamOf, TextOf, Bytes, LenBytes, Allowed;
    RestParses(ins, e, k);
    ShortRun(s[q..]);
    r := s[q..][1..1 + s[q] + 3];
    assert r == s[q + 1..q + 1 + |r|];
  }

  lemma RunSize(r: seq<Byte>)
    requires 4 <= |r| < 19
    ensures |Bytes(Run(r))| == 1 + |r| && LenBytes(0, 15, |r| - 3) == [|r| - 3]
  {
  }

  /** The rewritten bytes of the second kind: the literals behind a match, its successor's
      text and the short run behind that become one run with header b. */
  function DetachBytes(s: seq<Byte>, litp: nat, ip: nat, p: seq<Byte>, b: Byte): (r: seq<Byte>)
    requires litp + 2 <= ip && ip + |p| + 1 <= |s|
  {
    s[..litp] + [SetLow(s[litp], 0), s[litp + 1]] + [b] + s[litp + 2..ip] + p + s[ip + |p| + 1..]
  }

  lemma DetachLayout(s: seq<Byte>, a: seq<Byte>, h: seq<Byte>, g: seq<Byte>, l: seq<Byte>, p: seq<Byte>, r: seq<Byte>, b: Byte,
                     litp: int, ip: nat)
    requires |h| >= 2 && |g| == |h| && g == h[|h| - 2 := SetLow(h[|h| - 2], 0)]
    requires ip + |p| + 1 + |r| <= |s| && s[..ip] == a + (h + l) && litp == ip - |l| - 2
    requires s[ip + |p| + 1..ip + |p| + 1 + |r|] == r
    ensures 0 <= litp
    ensures var s', end := DetachBytes(s, litp, ip, p, b), ip + |p| + 1 + |r|;
            |s'| == |s| && s'[..end] == a + (g + ([b] + (l + (p + r)))) && s'[end..] == s[end..] && s'[ip + |p| + 1..end] == r
  {
    assert litp == |a| + |h| - 2;
    assert s[litp] == (a + (h + l))[litp] == h[|h| - 2];
    assert s[litp + 1] == (a + (h + l))[litp + 1] == h[|h| - 1];
    assert s[..litp] == (a + (h + l))[..litp] == a + h[..|h| - 2];
    assert s[litp + 2..ip] == (a + (h + l))[litp + 2..] == l;
    assert s[..litp] + [SetLow(s[litp], 0), s[litp + 1]] == a + g;
    var s' := DetachBytes(s, litp, ip, p, b);
    assert s' == (a + g) + [b] + l + p + s[ip + |p| + 1..];
    CutBehind((a + g) + [b] + l + p, s, ip + |p| + 1, r);
    Regroup5(a, g, [b], l, p, r);
  }

  lemma CutBehind(u: seq<Byte>, s: seq<Byte>, i: nat, r: seq<Byte>)
    requires |u| == i && i + |r| <= |s| && s[i..i + |r|] == r
    ensures var v := u + s[i..]; v[..i + |r|] == u + r && v[i + |r|..] == s[i + |r|..] && v[i..i + |r|] == r
  {
  }

  lemma Regroup5(a: seq<Byte>, g: seq<Byte>, b: seq<Byte>, l: seq<Byte>, p: seq<Byte>, r: seq<Byte>)
    ensures (a + g) + b + l + p + r == a + (g + (b + (l + (p + r))))
  {
  }

  /** The second kind of rewrite applies: instruction k is a short match without literals,
      a short run follows, and together with lit literals they still fit a short run. */
  ghost predicate CanDetach(s: seq<Byte>, ins: seq<Instr>, k: nat, ip: nat, litp: int, lit: nat) {
    && k < |ins| && WellMade(ins[k]) && ins[k].Copy? && ins[k].lits == [] && ins[k].len <= 3
    && |Bytes(ins[k])| == ins[k].len && lit <= 3 && litp != NULL
    && ip + ins[k].len < |s| && 0 < s[ip + ins[k].len] < 16 && lit + ins[k].len + s[ip + ins[k].len] < 16
  }

  lemma DetachStep(s: seq<Byte>, text: seq<Byte>, ins: seq<Instr>, e: Instr, k: nat, done: seq<Instr>, ip: nat, ctx: Ctx,
                   litp: int, lit: nat, p: seq<Byte>) returns (done': seq<Instr>, r: seq<Byte>)
    requires At(s, text, ins, e, k, done, ip, ctx) && Anchor(done, ip, litp, lit)
    requires CanDetach(s, ins, k, ip, litp, lit) && Reaches(text, ins[k]) && p == Added(text, ins[k].off, ins[k].len)
    ensures 0 <= litp && litp + 2 + lit == ip && k + 2 <= |ins|
    ensures var t: nat := s[ip + |p|];
            var s', end := DetachBytes(s, litp, ip, p, lit + |p| + t), ip + |p| + 1 + |r|;
            && |r| == t + 3 && end < |s| && |s'| == |s| && r == s'[ip + |p| + 1..end]
            && At(s', text + (p + r), ins, e, k + 2, done', end, Many) && Anchor(done', end, litp + 2, lit + |p| + t + 3)
  {
    hide Bytes, Legal, StreamOf, TextOf, Allowed, Added, Head, LenBytes, Parse, TailOf, DetachBytes;
    var n := ins[k].len;
    r := NextRun(ins, e, k, s, ip, text);
    var front, x := LastInstr(done);
    Detach(front, x, p + r);
    var y, z := Copy(x.form, x.len, x.off, []), Run(x.lits + (p + r));
    done' := front + [y, z];
    var a, h, g := StreamOf(front), Head(x.form, x.len, x.off, lit), Head(x.form, x.len, x.off, 0);
    HeadState(x.form, x.len, x.off, lit, 0);
    RunSize(z.lits);
    DetachLayout(s, a, h, g, x.lits, p, r, lit + n + s[ip + n], litp, ip);
  }

  /** The rewritten bytes of the third kind: a short run takes up the match and the short
      run behind it. */
  function LengthenBytes(s: seq<Byte>, litp: nat, ip: nat, p: seq<Byte>, b: Byte): (r: seq<Byte>)
    requires litp < ip && ip + |p| <= |s|
  {
    s[litp := b][..ip] + p + s[ip + |p|..]
  }

  lemma LengthenLayout(s: seq<Byte>, a: seq<Byte>, c: Byte, l: seq<Byte>, p: seq<Byte>, r: seq<Byte>, b: Byte, litp: int, ip: nat)
    requires ip + |p| + |r| <= |s| && s[..ip] == a + ([c] + l) && litp == ip - |l| - 1
    requires s[ip + |p|..ip + |p| + |r|] == r
    ensures 0 <= litp < ip
    ensures var s', end := LengthenBytes(s, litp, ip, p, b), ip + |p| + |r|;
            |s'| == |s| && s'[..end] == a + ([b] + (l + (p + r))) && s'[end..] == s[end..] && s'[ip + |p|..end] == r
  {
    assert litp == |a|;
    assert s[litp := b][..ip] == s[..ip][litp := b] == a + ([b] + l);
    var s' := LengthenBytes(s, litp, ip, p, b);
    assert s[ip + |p|..][..|r|] == r;
    assert s'[..ip + |p| + |r|] == (a + ([b] + l)) + p + r;
  }

  lemma LengthenStep(s: seq<Byte>, text: seq<Byte>, ins: seq<Instr>, e: Instr, k: nat, done: seq<Instr>, ip: nat, ctx: Ctx,
                     litp: int, lit: nat) returns (done': seq<Instr>, r: seq<Byte>)
    requires At(s, text, ins, e, k, done, ip, ctx) && Anchor(done, ip, litp, lit)
    requires k < |ins| && WellMade(ins[k]) && ins[k].Copy? && ins[k].lits == [] && ins[k].len == 3
    requires |Bytes(ins[k])| == 2 && lit > 3 && litp != NULL && Reaches(text, ins[k])
    requires ip + 2 < |s| && 0 < s[ip + 2] < 16 && lit + 3 + s[ip + 2] < 16
    ensures 1 <= ins[k].off <= |text| && 0 <= litp < ip
    ensures var p := Added(text, ins[k].off, 3);
            var t: nat := s[ip + 2];
            var s', end := LengthenBytes(s, litp, ip, p, lit + 3 + t), ip + 3 + |r|;
            && |r| == t + 3 && end < |s| && |s'| == |s| && r == s'[ip + 3..end] && k + 2 <= |ins|
            && At(s', text + (p + r), ins, e, k + 2, done', end, Many) && Anchor(done', end, litp, lit + 3 + t + 3)
  {
    hide Bytes, Legal, StreamOf, TextOf, Allowed, Added, LenBytes, Parse, TailOf, LengthenBytes;
    var p := Added(text, ins[k].off, 3);
    r := NextRun(ins, e, k, s, ip, text);
    var front, x := LastInstr(done);
    Lengthen(front, x.lits, p + r);
    var z := Run(x.lits + (p + r));
    done' := front + [z];
    RunSize(x.lits);
    RunSize(z.lits);
    LengthenLayout(s, StreamOf(front), lit - 3, x.lits, p, r, lit + 3 + s[ip + 2], litp, ip);
  }

  /** An instruction that stays as it is. */
  lemma PlainStep(s: seq<Byte>, text: seq<Byte>, ins: seq<Instr>, e: Instr, k: nat, done: seq<Instr>, ip: nat, ctx: Ctx)
    requires At(s, text, ins, e, k, done, ip, ctx) && k < |ins| && Reaches(text, ins[k])
    ensures WellMade(ins[k]) && ip + |Bytes(ins[k])| < |s|
    ensures At(s, Apply(text, ins[k]), ins, e, k + 1, done + [ins[k]], ip + |Bytes(ins[k])|, After(ins[k]))
  {
    hide Bytes, Legal, StreamOf, TextOf, Apply;
    var i := ins[k];
    NextPrefix(ins, k);
    RestParses(ins, e, k);
    RestMoves(ins, e, k, s, ip);
    if CtxOf(done) != ctx { NoRunAbove(ins, e, k, s, ip); }
    Snoc(done, i);
    assert s[..ip + |Bytes(i)|] == s[..ip] + s[ip..ip + |Bytes(i)|];
  }

  lemma NoRunAbove(ins: seq<Instr>, e: Instr, k: nat, s: seq<Byte>, ip: nat)
    requires IsPlan(ins, e) && k < |ins| && ip < |s| && s[ip..] == TailOf(ins, k) + Bytes(e) && s[ip] >= 16
    ensures !ins[k].Run?
  {
    RestMoves(ins, e, k, s, ip);
    assert s[ip] == s[ip..ip + |Bytes(ins[k])|][0];
    if ins[k].Run? { LenBytesFirst(0, 15, |ins[k].lits| - 3); }
  }

  // ---------- the rewrites in place

  /** Two or three bytes of a match, placed at ip. */
  method CopyShort(inp: array<Byte>, ip: nat, out: array<Byte>, op: nat, off: nat, n: nat)
    requires inp != out && 2 <= n <= 3 && ip + n <= inp.Length && 1 <= off <= op <= out.Length
    modifies inp
    ensures inp[..] == old(inp[..ip]) + Added(out[..op], off, n) + old(inp[ip + n..])
  {
    if n == 2 { Copy2(inp, ip, out, op, off); } else { Copy3(inp, ip, out, op, off); }
  }

  method AbsorbInPlace(inp: array<Byte>, out: array<Byte>, litp: nat, ip: nat, op: nat, off: nat, n: nat)
    requires inp != out && 2 <= n <= 3 && litp < ip && ip + n <= inp.Length && 1 <= off <= op <= out.Length
    modifies inp
    ensures inp[..] == AbsorbBytes(old(inp[..]), litp, ip, Added(out[..op], off, n))
  {
    hide Added;
    inp[litp] := SetLow(inp[litp], 3);
    CopyShort(inp, ip, out, op, off, n);
  }

  method DetachInPlace(inp: array<Byte>, out: array<Byte>, litp: nat, lit: nat, ip: nat, op: nat, off: nat, n: nat)
    requires inp != out && 2 <= n <= 3 && litp + 2 + lit == ip && ip + n + 1 <= inp.Length && 1 <= off <= op <= out.Length
    requires lit + n + inp[ip + n] < 16
    modifies inp
    ensures inp[..] == DetachBytes(old(inp[..]), litp, ip, Added(out[..op], off, n), old(lit + n + inp[ip + n]))
  {
    hide Added, SetLow, DetachBytes;
    ghost var s, p := inp[..], Added(out[..op], off, n);
    var t: nat := inp[ip + n];
    inp[litp] := SetLow(inp[litp], 0);
    CopyShort(inp, ip + 1, out, op, off, n);
    ghost var u := inp[..];
    assert u == s[litp := SetLow(s[litp], 0)][..ip + 1] + p + s[ip + n + 1..];
    if lit > 0 { MoveUp(inp, litp + 2, lit); }
    ghost var v := inp[..];
    MovedUp(s, u, v, litp, lit, ip, p);
    var b: Byte := lit + n + t;
    inp[litp + 2] := b;
    assert inp[..] == v[litp + 2 := b];
    HeaderIn(s, v, litp, lit, ip, p, b);
  }

  lemma MovedUp(s: seq<Byte>, u: seq<Byte>, v: seq<Byte>, litp: nat, lit: nat, ip: nat, p: seq<Byte>)
    requires litp + 2 + lit == ip && ip + |p| + 1 <= |s|
    requires u == s[litp := SetLow(s[litp], 0)][..ip + 1] + p + s[ip + |p| + 1..]
    requires v == if lit > 0 then u[..litp + 3] + u[litp + 2..ip] + u[ip + 1..] else u
    ensures |v| == |s|
    ensures v == s[litp := SetLow(s[litp], 0)][..litp + 3] + s[litp + 2..ip] + p + s[ip + |p| + 1..]
  {
    hide SetLow;
    var w := s[litp := SetLow(s[litp], 0)];
    var z := p + s[ip + |p| + 1..];
    Regroup(w[..ip + 1], p, s[ip + |p| + 1..]);
    SliceLeft(w[..ip + 1], z, 0, litp + 3);
    SliceLeft(w[..ip + 1], z, litp + 2, ip);
    Halves(w[..ip + 1], z);
    UpdateOutside(s, litp, SetLow(s[litp], 0), litp + 2, ip);
    Regroup(w[..litp + 3] + s[litp + 2..ip], p, s[ip + |p| + 1..]);
  }

  lemma HeaderIn(s: seq<Byte>, v: seq<Byte>, litp: nat, lit: nat, ip: nat, p: seq<Byte>, b: Byte)
    requires litp + 2 + lit == ip && ip + |p| + 1 <= |s|
    requires v == s[litp := SetLow(s[litp], 0)][..litp + 3] + s[litp + 2..ip] + p + s[ip + |p| + 1..]
    ensures v[litp + 2 := b] == DetachBytes(s, litp, ip, p, b)
  {
    hide SetLow;
    var x := s[litp := SetLow(s[litp], 0)][..litp + 3];
    var m, rest := s[litp + 2..ip], s[ip + |p| + 1..];
    UpdateLeft(x + m + p, rest, litp + 2, b);
    UpdateLeft(x + m, p, litp + 2, b);
    UpdateLeft(x, m, litp + 2, b);
    assert x[litp + 2 := b] == s[..litp] + [SetLow(s[litp], 0), s[litp + 1]] + [b];
  }

  method LengthenInPlace(inp: array<Byte>, out: array<Byte>, litp: nat, lit: nat, ip: nat, op: nat, off: nat)
    requires inp != out && litp < ip && ip + 3 <= inp.Length && 1 <= off <= op <= out.Length
    requires lit + 3 + inp[ip + 2] < 16
    modifies inp
    ensures inp[..] == LengthenBytes(old(inp[..]), litp, ip, Added(out[..op], off, 3), old(lit + 3 + inp[ip + 2]))
  {
    hide Added;
    var t: nat := inp[ip + 2];
    CopyShort(inp, ip, out, op, off, 3);
    inp[litp] := lit + 3 + t;
  }

  // ---------- the pass

  /** out has room for the whole text. */
  ghost predicate Room(ins: seq<Instr>, cap: nat) {
    TextOf(ins).Some? && |TextOf(ins).value| <= cap
  }

  lemma RoomAt(ins: seq<Instr>, k: nat, cap: nat)
    requires Room(ins, cap) && k <= |ins|
    ensures TextOf(ins[..k]).Some? && |TextOf(ins[..k]).value| <= cap
    ensures k < |ins| ==> Reaches(TextOf(ins[..k]).value, ins[k])
  {
    TextPrefix(ins, k);
  }

  /** The head of the match in instruction k has been read; its literals are at ip. */
  ghost predicate Faces(s: seq<Byte>, ins: seq<Instr>, k: nat, ip0: nat, ip: nat, form: Form, len: nat, off: nat) {
    && k < |ins| && WellMade(ins[k]) && ip0 + 2 <= ip <= |s|
    && var n := s[ip - 2] % 4;
       ip + n < |s| && ins[k] == Copy(form, len, off, s[ip..ip + n]) && |Bytes(ins[k])| == ip + n - ip0
  }

  /** A match and its literals as they are. */
  method PlainMatch(inp: array<Byte>, out: array<Byte>, ip0: nat, ip1: nat, op0: nat, form: Form, len: nat, off: nat,
                    ghost ins: seq<Instr>, ghost e: Instr, ghost k: nat, ghost done: seq<Instr>, ghost ctx: Ctx)
    returns (ip: nat, op: nat, litp: int, lit: nat, next: Ctx)
    requires inp != out && op0 <= out.Length && Room(ins, out.Length)
    requires At(inp[..], out[..op0], ins, e, k, done, ip0, ctx) && Faces(inp[..], ins, k, ip0, ip1, form, len, off)
    modifies out
    ensures ip0 < ip && op <= out.Length
    ensures At(inp[..], out[..op], ins, e, k + 1, done + [ins[k]], ip, next) && Anchor(done + [ins[k]], ip, litp, lit)
    ensures next != Start
  {
    hide Legal, StreamOf, TextOf, Allowed, Bytes, TailOf, CopyText, Room;
    ghost var s, text := inp[..], out[..op0];
    RoomAt(ins, k, out.Length);
    RoomAt(ins, k + 1, out.Length);
    PlainStep(s, text, ins, e, k, done, ip0, ctx);
    op := CopyBytes(out, op0, off, len);
    ip := ip1;
    var t := inp[ip - 2] % 4;
    lit, litp := t, ip - 2;
    if t != 0 {
      ip, op := CopyLiterals(inp[..], out, ip, op, t);
      next := Few;
    } else {
      next := Zero;
      assert CopyText(text, off, len) + [] == CopyText(text, off, len);
    }
  }

  method AbsorbMatch(inp: array<Byte>, out: array<Byte>, ip0: nat, op0: nat, litp: int, lit0: nat, form: Form, len: nat, off: nat,
                     ghost ins: seq<Instr>, ghost e: Instr, ghost k: nat, ghost done: seq<Instr>, ghost ctx: Ctx)
    returns (op: nat, lit: nat, ghost done': seq<Instr>)
    requires inp != out && op0 <= out.Length && Room(ins, out.Length)
    requires At(inp[..], out[..op0], ins, e, k, done, ip0, ctx) && Faces(inp[..], ins, k, ip0, ip0 + len, form, len, off)
    requires Anchor(done, ip0, litp, lit0) && litp != NULL && lit0 + len == 3
    requires inp[ip0 + len - 2] % 4 == 0 && inp[ip0 + len] >= 16
    modifies inp, out
    ensures op <= out.Length
    ensures At(inp[..], out[..op], ins, e, k + 1, done', ip0 + len, Zero) && Anchor(done', ip0 + len, litp, lit)
  {
    hide Legal, StreamOf, TextOf, Allowed, Bytes, TailOf, CopyText, Room, Added;
    ghost var s, text := inp[..], out[..op0];
    RoomAt(ins, k, out.Length);
    RoomAt(ins, k + 1, out.Length);
    done' := AbsorbStep(s, text, ins, e, k, done, ip0, ctx, litp, lit0);
    lit := lit0 + len;
    AbsorbInPlace(inp, out, litp, ip0, op0, off, len);
    op := CopyBytes(out, op0, off, len);
  }

  /** Both rewrites that merge the next run end by copying its literals. */
  method DetachMatch(inp: array<Byte>, out: array<Byte>, ip0: nat, op0: nat, litp0: int, lit0: nat, form: Form, len: nat, off: nat,
                     ghost ins: seq<Instr>, ghost e: Instr, ghost k: nat, ghost done: seq<Instr>, ghost ctx: Ctx)
    returns (ip: nat, op: nat, litp: int, lit: nat, ghost done': seq<Instr>)
    requires inp != out && op0 <= out.Length && Room(ins, out.Length)
    requires At(inp[..], out[..op0], ins, e, k, done, ip0, ctx) && Faces(inp[..], ins, k, ip0, ip0 + len, form, len, off)
    requires Anchor(done, ip0, litp0, lit0) && litp0 != NULL && len <= 3 && lit0 <= 3
    requires inp[ip0 + len - 2] % 4 == 0 && 0 < inp[ip0 + len] < 16 && lit0 + len + inp[ip0 + len] < 16
    modifies inp, out
    ensures op <= out.Length && ip0 < ip && k + 2 <= |ins|
    ensures At(inp[..], out[..op], ins, e, k + 2, done', ip, Many) && Anchor(done', ip, litp, lit)
  {
    hide Legal, StreamOf, TextOf, Allowed, Bytes, TailOf, CopyText, Room, Added, SetLow, DetachBytes, FormFits, LenBytes;
    ghost var s, text := inp[..], out[..op0];
    ghost var r;
    RoomAt(ins, k, out.Length);
    ghost var p := Added(text, off, len);
    done', r := DetachStep(s, text, ins, e, k, done, ip0, ctx, litp0, lit0, p);
    RoomAt(ins, k + 2, out.Length);
    var t: nat := inp[ip0 + len];
    DetachInPlace(inp, out, litp0, lit0, ip0, op0, off, len);
    litp, lit := litp0 + 2, lit0 + len + t + 3;
    op := CopyBytes(out, op0, off, len);
    Regroup(text, p, r);
    ip, op := CopyLiterals(inp[..], out, ip0 + len + 1, op, t + 3);
  }

  method LengthenMatch(inp: array<Byte>, out: array<Byte>, ip0: nat, op0: nat, litp: int, lit0: nat, form: Form, off: nat,
                       ghost ins: seq<Instr>, ghost e: Instr, ghost k: nat, ghost done: seq<Instr>, ghost ctx: Ctx)
    returns (ip: nat, op: nat, lit: nat, ghost done': seq<Instr>)
    requires inp != out && op0 <= out.Length && Room(ins, out.Length)
    requires At(inp[..], out[..op0], ins, e, k, done, ip0, ctx) && Faces(inp[..], ins, k, ip0, ip0 + 2, form, 3, off)
    requires Anchor(done, ip0, litp, lit0) && litp != NULL && lit0 > 3
    requires inp[ip0] % 4 == 0 && 0 < inp[ip0 + 2] < 16 && lit0 + 3 + inp[ip0 + 2] < 16
    modifies inp, out
    ensures op <= out.Length && ip0 < ip && k + 2 <= |ins|
    ensures At(inp[..], out[..op], ins, e, k + 2, done', ip, Many) && Anchor(done', ip, litp, lit)
  {
    hide Legal, StreamOf, TextOf, Allowed, Bytes, TailOf, CopyText, Room, Added;
    ghost var s, text := inp[..], out[..op0];
    ghost var r;
    RoomAt(ins, k, out.Length);
    done', r := LengthenStep(s, text, ins, e, k, done, ip0, ctx, litp, lit0);
    RoomAt(ins, k + 2, out.Length);
    var t: nat := inp[ip0 + 2];
    LengthenInPlace(inp, out, litp, lit0, ip0, op0, off);
    lit := lit0 + 3 + t + 3;
    op := CopyBytes(out, op0, off, 3);
    Regroup(text, Added(text, off, 3), r);
    ip, op := CopyLiterals(inp[..], out, ip0 + 3, op, t + 3);
  }

  /** A match of two or three bytes that costs what it copies. */
  lemma BareSize(ins: seq<Instr>, k: nat, s: seq<Byte>, ip0: nat, ip: nat, form: Form, len: nat, off: nat)
    requires Faces(s, ins, k, ip0, ip, form, len, off)
    ensures s[ip - 2] % 4 == 0 ==> ip < |s| && ins[k].lits == []
    ensures form == M1a || form == M2 ==> ip == ip0 + 2
    ensures form == M1a ==> len == 2
    ensures (form == M3 || form == M4) && len == 3 ==> ip == ip0 + 3
  {
  }

  lemma FewAnchor(done: seq<Instr>, ip: nat, litp: int, lit: nat)
    requires Anchor(done, ip, litp, lit) && CtxOf(done) == Few && litp != NULL
    ensures 1 <= lit <= 3
  {
  }

  /** What MatchHead reads is the head of instruction k. */
  lemma HeadMeets(ins: seq<Instr>, e: Instr, k: nat, s: seq<Byte>, ip0: nat, ctx: Ctx, form: Form, len: nat, off: nat, ip: nat)
    requires IsPlan(ins, e) && k <= |ins| && ctx == CtxOf(ins[..k]) && ip0 + 2 <= ip <= |s|
    requires s[ip0..] == TailOf(ins, k) + Bytes(e)
    requires Parse(ctx, s[ip0..]) == if ctx == Start then Bad else WithLits(s[ip0..], form, len, off, ip - ip0)
    ensures Faces(s, ins, k, ip0, ip, form, len, off)
    ensures Allowed(ctx, ins[k])
  {
    hide Parse, Legal, TailOf, Bytes, Allowed, StreamOf, TextOf;
    RestParses(ins, e, k);
    ghost var r := s[ip0..];
    assert r[ip - ip0 - 2] == s[ip - 2];
    var n := s[ip - 2] % 4;
    assert s[ip0..][ip - ip0..ip - ip0 + n] == s[ip..ip + n];
    RestMovesIf(ins, e, k, s, ip0);
  }

  lemma RestMovesIf(ins: seq<Instr>, e: Instr, k: nat, s: seq<Byte>, ip: nat)
    requires IsPlan(ins, e) && k <= |ins| && ip <= |s| && s[ip..] == TailOf(ins, k) + Bytes(e)
    ensures k < |ins| ==> WellMade(ins[k]) && ip + |Bytes(ins[k])| < |s|
  {
    if k < |ins| { RestMoves(ins, e, k, s, ip); }
  }

  /** At the end marker. */
  lemma Finished(ins: seq<Instr>, e: Instr, k: nat, s: seq<Byte>, text: seq<Byte>, done: seq<Instr>, ip0: nat, ctx: Ctx, n: nat)
    requires At(s, text, ins, e, k, done, ip0, ctx)
    requires Parse(ctx, s[ip0..]).Parsed? && Parse(ctx, s[ip0..]).instr.End? && Parse(ctx, s[ip0..]).size == n
    ensures ip0 + n == |s| && IsStream(s, done, e, text) && TextOf(ins) == Some(text)
  {
    hide Parse, Legal, Bytes, StreamOf, TextOf;
    RestParses(ins, e, k);
    assert k == |ins|;
    assert ins[..k] == ins;
    assert TailOf(ins, k) + Bytes(e) == Bytes(e);
    assert s == s[..ip0] + s[ip0..];
  }

  /** A match, rewritten where that is possible, or the end marker. */
  method OptimizeMatch(inp: array<Byte>, out: array<Byte>, ip0: nat, op0: nat, litp0: int, lit0: nat, ctx: Ctx,
                       ghost ins: seq<Instr>, ghost e: Instr, ghost k: nat, ghost done: seq<Instr>)
    returns (last: bool, ip: nat, op: nat, litp: int, lit: nat, next: Ctx, ghost k': nat, ghost done': seq<Instr>)
    requires inp != out && op0 <= out.Length && Room(ins, out.Length)
    requires At(inp[..], out[..op0], ins, e, k, done, ip0, ctx) && Anchor(done, ip0, litp0, lit0)
    requires (inp[ip0] < 16 ==> ctx == Few || ctx == Many) && (ctx == Start ==> inp[ip0] <= 17)
    modifies inp, out
    ensures op <= out.Length && ip0 < ip
    ensures last ==> ip == inp.Length && IsStream(inp[..], done, e, out[..op]) && TextOf(ins) == Some(out[..op])
    ensures !last ==> At(inp[..], out[..op], ins, e, k', done', ip, next) && Anchor(done', ip, litp, lit) && next != Start
  {
    hide Legal, StreamOf, TextOf, Bytes, TailOf, CopyText, Room, Parse, Allowed;
    var s := inp[..];
    ghost var text := out[..op0];
    op, litp, lit, next, k', done' := op0, litp0, lit0, Zero, k + 1, done;
    HeadThere(ins, e, k, s, text, done, ip0, ctx);
    var ok, form, len, off;
    ok, last, form, len, off, ip := MatchHead(s, ip0, ctx);
    if last {
      Finished(ins, e, k, s, text, done, ip0, ctx, ip - ip0);
      return;
    }
    HeadMeets(ins, e, k, s, ip0, ctx, form, len, off, ip);
    BareSize(ins, k, s, ip0, ip, form, len, off);
    if litp != NULL && inp[ip - 2] % 4 == 0 {
      var more := inp[ip];
      if form == M1a {
        FormNeedsFew(ins, k, s, text, e, done, ip0, ctx);
        FewAnchor(done, ip0, litp, lit);
        if lit == 1 && more >= 16 {
          op, lit, done' := AbsorbMatch(inp, out, ip0, op, litp, lit, form, len, off, ins, e, k, done, ctx);
          return;
        } else if 0 < more < 16 && lit + 2 + more < 16 {
          ip, op, litp, lit, done' := DetachMatch(inp, out, ip0, op, litp, lit, form, len, off, ins, e, k, done, ctx);
          next, k' := Many, k + 2;
          return;
        }
      } else if form == M2 {
        if len == 3 && lit > 3 && 0 < more < 16 && lit + 3 + more < 16 {
          ip, op, lit, done' := LengthenMatch(inp, out, ip0, op, litp, lit, form, off, ins, e, k, done, ctx);
          next, k' := Many, k + 2;
          return;
        }
      } else if form == M3 || form == M4 {
        if len == 3 && lit == 0 && more >= 16 {
          op, lit, done' := AbsorbMatch(inp, out, ip0, op, litp, lit, form, len, off, ins, e, k, done, ctx);
          return;
        } else if len == 3 && lit <= 3 && 0 < more < 16 && lit + 3 + more < 16 {
          ip, op, litp, lit, done' := DetachMatch(inp, out, ip0, op, litp, lit, form, len, off, ins, e, k, done, ctx);
          next, k' := Many, k + 2;
          return;
        }
      }
    }
    ip, op, litp, lit, next := PlainMatch(inp, out, ip0, ip, op, form, len, off, ins, e, k, done, ctx);
    done' := done + [ins[k]];
  }

  lemma HeadThere(ins: seq<Instr>, e: Instr, k: nat, s: seq<Byte>, text: seq<Byte>, done: seq<Instr>, ip0: nat, ctx: Ctx)
    requires At(s, text, ins, e, k, done, ip0, ctx)
    ensures Parse(ctx, s[ip0..]).Parsed?
  {
    hide Parse, Bytes;
    RestParses(ins, e, k);
  }

  lemma FormNeedsFew(ins: seq<Instr>, k: nat, s: seq<Byte>, text: seq<Byte>, e: Instr, done: seq<Instr>, ip0: nat, ctx: Ctx)
    requires At(s, text, ins, e, k, done, ip0, ctx) && k < |ins| && Allowed(ctx, ins[k]) && ins[k].Copy? && ins[k].form == M1a
    ensures CtxOf(done) == Few
  {
  }

  lemma RunMeets(ins: seq<Instr>, e: Instr, k: nat, s: seq<Byte>, ip: nat, ctx: Ctx)
    requires IsPlan(ins, e) && k <= |ins| && ctx == CtxOf(ins[..k]) && ip < |s| && s[ip..] == TailOf(ins, k) + Bytes(e)
    requires s[ip] < 16 && (ctx == Start || ctx == Zero)
    ensures k < |ins| && WellMade(ins[k]) && ip + |Bytes(ins[k])| < |s|
    ensures var f := ReadLen(s[ip..], 15);
            f.Field? && |Bytes(ins[k])| == f.size + f.t + 3 && ins[k] == Run(s[ip + f.size..ip + f.size + f.t + 3])
  {
    hide Bytes, Legal, TailOf, ReadLen, Parse;
    RestParses(ins, e, k);
    RestMovesIf(ins, e, k, s, ip);
    ParseIsRun(ctx, s[ip..]);
    var f := ReadLen(s[ip..], 15);
    assert s[ip..][f.size..f.size + f.t + 3] == s[ip + f.size..ip + f.size + f.t + 3];
  }

  lemma ParseIsRun(ctx: Ctx, s: seq<Byte>)
    requires s != [] && s[0] < 16 && (ctx == Start || ctx == Zero)
    ensures Parse(ctx, s) == ParseRun(s)
  {
  }

  /** A literal run as it is. */
  method OptimizeRun(inp: array<Byte>, out: array<Byte>, ip0: nat, op0: nat,
                     ghost ins: seq<Instr>, ghost e: Instr, ghost k: nat, ghost done: seq<Instr>, ghost ctx: Ctx)
    returns (ip: nat, op: nat, litp: int, lit: nat, ghost done': seq<Instr>)
    requires inp != out && op0 <= out.Length && Room(ins, out.Length)
    requires At(inp[..], out[..op0], ins, e, k, done, ip0, ctx) && inp[ip0] < 16 && (ctx == Start || ctx == Zero)
    modifies out
    ensures op <= out.Length && ip0 < ip
    ensures At(inp[..], out[..op], ins, e, k + 1, done', ip, Many) && Anchor(done', ip, litp, lit)
  {
    hide Legal, StreamOf, TextOf, Bytes, TailOf, Room, Parse, Allowed, ReadLen;
    var s := inp[..];
    ghost var text := out[..op0];
    RunMeets(ins, e, k, s, ip0, ctx);
    RoomAt(ins, k, out.Length);
    RoomAt(ins, k + 1, out.Length);
    PlainStep(s, text, ins, e, k, done, ip0, ctx);
    var ok, t;
    ok, t, ip := ReadLength(s, ip0, 15);
    litp, lit := ip0, t + 3;
    RunHeader(s[ip0..], ins[k]);
    ip, op := CopyLiterals(s, out, ip, op0, t + 3);
    done' := done + [ins[k]];
  }

  lemma RunHeader(s: seq<Byte>, i: Instr)
    requires s != [] && WellMade(i) && i.Run? && |Bytes(i)| <= |s| && ReadLen(s, 15).Field?
    requires |Bytes(i)| == ReadLen(s, 15).size + |i.lits| && |i.lits| == ReadLen(s, 15).t + 3
    ensures |LenBytes(0, 15, |i.lits| - 3)| == ReadLen(s, 15).size
  {
  }

  lemma FirstMeets(ins: seq<Instr>, e: Instr, s: seq<Byte>)
    requires TextOf(ins).Some? && IsStream(s, ins, e, TextOf(ins).value)
    ensures At(s, [], ins, e, 0, [], 0, Start)
    ensures s[0] > 17 ==> s[0] - 16 < |s| && ins != [] && ins[0] == First(s[1..s[0] - 16]) && |Bytes(ins[0])| == s[0] - 16
  {
    hide Bytes, Legal, TailOf, StreamOf, TextOf;
    EmptyList();
    StreamSplit(ins, 0);
    assert ins[..0] == [];
    assert s == TailOf(ins, 0) + Bytes(e);
    assert s[..0] == [] && s[0..] == s;
    RestParses(ins, e, 0);
    RestMovesIf(ins, e, 0, s, 0);
  }

  /** The literals that a first byte above 17 announces; litp stays unset. */
  method OptimizeFirst(inp: array<Byte>, out: array<Byte>, ghost ins: seq<Instr>, ghost e: Instr)
    returns (ip: nat, op: nat, ctx: Ctx, ghost done: seq<Instr>)
    requires inp != out && Room(ins, out.Length) && IsStream(inp[..], ins, e, TextOf(ins).value) && inp.Length > 0 && inp[0] > 17
    modifies out
    ensures op <= out.Length && ctx != Start
    ensures At(inp[..], out[..op], ins, e, 1, done, ip, ctx)
  {
    hide Legal, StreamOf, TextOf, Bytes, TailOf, Parse, Allowed;
    ghost var s := inp[..];
    FirstMeets(ins, e, s);
    var t := inp[0] - 17;
    RoomAt(ins, 0, out.Length);
    RoomAt(ins, 1, out.Length);
    PlainStep(s, [], ins, e, 0, [], 0, Start);
    assert out[..0] == [];
    ip, op := CopyLiterals(inp[..], out, 1, 0, t);
    ctx := if t < 4 then Few else Many;
    done := [] + [ins[0]];
  }

  lemma InStream(s: seq<Byte>, text: seq<Byte>, ins: seq<Instr>, e: Instr, k: nat, done: seq<Instr>, ip: nat, ctx: Ctx)
    requires At(s, text, ins, e, k, done, ip, ctx)
    ensures ip < |s|
  {
  }

  /** The optimiser rewrites a stream in place, keeping its length and its meaning, and
      writes its text to out. */
  method Optimize(inp: array<Byte>, out: array<Byte>, ghost ins0: seq<Instr>, ghost e: Instr, ghost text: seq<Byte>)
    returns (ret: int, outLen: nat, ghost ins: seq<Instr>)
    requires inp != out && IsStream(inp[..], ins0, e, text) && |text| <= out.Length
    modifies inp, out
    ensures ret == OK && outLen == |text| && out[..outLen] == text
    ensures IsStream(inp[..], ins, e, text)
  {
    hide Legal, StreamOf, TextOf, Bytes, TailOf, Parse, Allowed, At;
    var ip, op, litp, lit := 0, 0, NULL, 0;
    var ctx := Start;
    ghost var k: nat, done: seq<Instr> := 0, [];
    FirstMeets(ins0, e, inp[..]);
    assert out[..0] == [];
    InStream(inp[..], [], ins0, e, 0, [], 0, Start);
    if inp[0] > 17 {
      ip, op, ctx, done := OptimizeFirst(inp, out, ins0, e);
      k := 1;
      InStream(inp[..], out[..op], ins0, e, k, done, ip, ctx);
    }
    while ip < inp.Length && op <= out.Length
      invariant op <= out.Length && ip < inp.Length
      invariant At(inp[..], out[..op], ins0, e, k, done, ip, ctx) && Anchor(done, ip, litp, lit)
      invariant ctx == Start ==> ip == 0 && inp[0] <= 17
      decreases inp.Length - ip
    {
      if inp[ip] < 16 && (ctx == Start || ctx == Zero) {
        ip, op, litp, lit, done := OptimizeRun(inp, out, ip, op, ins0, e, k, done, ctx);
        ctx, k := Many, k + 1;
      } else {
        var last;
        ghost var k', done';
        last, ip, op, litp, lit, ctx, k', done' := OptimizeMatch(inp, out, ip, op, litp, lit, ctx, ins0, e, k, done);
        if last {
          return if ip == inp.Length then OK else INPUT_NOT_CONSUMED, op, done;
        }
        k, done := k', done';
      }
      InStream(inp[..], out[..op], ins0, e, k, done, ip, ctx);
    }
    assert false;
  }
}
