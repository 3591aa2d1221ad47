/** The rewrites of the LZO optimiser, on instruction lists: matches that cost as much as
    they copy become literals. */
module LzoRewrite {
  import opened Buffers
  import opened LzoFormat
  import opened LzoParse
  import opened LzoDecode

  /** The text that a match of n bytes adds. */
  function Added(text: seq<Byte>, off: nat, n: nat): (p: seq<Byte>)
    requires 1 <= off <= |text|
    ensures |p| == n && CopyText(text, off, n) == text + p
  {
    CopyText(text, off, n)[|text|..]
  }

  /** A match turned into literals behind the match before it. */
  lemma Absorb(front: seq<Instr>, x: Instr, p: seq<Byte>)
    requires Legal(front + [x]) && x.Copy? && |x.lits| + |p| <= 3 && TextOf(front + [x]).Some?
    ensures var y := Copy(x.form, x.len, x.off, x.lits + p);
            && Legal(front) && FormFits(x.form, x.len, x.off)
            && Legal(front + [y]) && TextOf(front + [y]) == Some(TextOf(front + [x]).value + p)
            && StreamOf(front + [y]) == StreamOf(front) + (Head(x.form, x.len, x.off, |x.lits| + |p|) + (x.lits + p))
            && StreamOf(front + [x]) == StreamOf(front) + (Head(x.form, x.len, x.off, |x.lits|) + x.lits)
  {
    hide Head, CopyText, Legal, StreamOf, TextOf, CtxOf;
    var y := Copy(x.form, x.len, x.off, x.lits + p);
    Unsnoc(front, x);
    Snoc(front, y);
    Regroup(CopyText(TextOf(front).value, x.off, x.len), x.lits, p);
  }

  /** A match without the literals behind it. */
  lemma Strip(front: seq<Instr>, x: Instr)
    requires Legal(front + [x]) && x.Copy? && TextOf(front + [x]).Some?
    ensures var y := Copy(x.form, x.len, x.off, []);
            && Legal(front) && FormFits(x.form, x.len, x.off) && |x.lits| <= 3
            && Legal(front + [y]) && CtxOf(front + [y]) == Zero && TextOf(front + [y]).Some?
            && TextOf(front + [x]).value == TextOf(front + [y]).value + x.lits
            && StreamOf(front + [y]) == StreamOf(front) + Head(x.form, x.len, x.off, 0)
            && StreamOf(front + [x]) == StreamOf(front) + (Head(x.form, x.len, x.off, |x.lits|) + x.lits)
  {
    hide Head, CopyText, Legal, StreamOf, TextOf, CtxOf;
    var y := Copy(x.form, x.len, x.off, []);
    Unsnoc(front, x);
    Snoc(front, y);
    NothingMore(Head(x.form, x.len, x.off, 0));
    NothingMore(CopyText(TextOf(front).value, x.off, x.len));
  }

  /** The literals behind a match, turned into a run of their own together with more. */
  lemma Detach(front: seq<Instr>, x: Instr, more: seq<Byte>)
    requires Legal(front + [x]) && x.Copy? && |x.lits| + |more| >= 4 && TextOf(front + [x]).Some?
    ensures var y := Copy(x.form, x.len, x.off, []);
            var z := Run(x.lits + more);
            && Legal(front) && FormFits(x.form, x.len, x.off) && |x.lits| <= 3
            && Legal(front + [y, z]) && TextOf(front + [y, z]) == Some(TextOf(front + [x]).value + more)
            && StreamOf(front + [y, z]) ==
               StreamOf(front) + (Head(x.form, x.len, x.off, 0) + (LenBytes(0, 15, |x.lits| + |more| - 3) + (x.lits + more)))
            && StreamOf(front + [x]) == StreamOf(front) + (Head(x.form, x.len, x.off, |x.lits|) + x.lits)
  {
    hide Head, CopyText, LenBytes, Legal, StreamOf, TextOf;
    var y, z := Copy(x.form, x.len, x.off, []), Run(x.lits + more);
    Strip(front, x);
    assert front + [y, z] == (front + [y]) + [z];
    Snoc(front + [y], z);
    var t := TextOf(front + [y]).value;
    assert t + (x.lits + more) == (t + x.lits) + more;
    Regroup(StreamOf(front), Head(x.form, x.len, x.off, 0), Bytes(z));
  }

  /** A run that takes up a match and the run behind it. */
  lemma Lengthen(front: seq<Instr>, l: seq<Byte>, more: seq<Byte>)
    requires Legal(front + [Run(l)]) && TextOf(front + [Run(l)]).Some?
    ensures && Legal(front) && |l| >= 4
            && Legal(front + [Run(l + more)])
            && TextOf(front + [Run(l + more)]) == Some(TextOf(front + [Run(l)]).value + more)
            && StreamOf(front + [Run(l + more)]) ==
               StreamOf(front) + (LenBytes(0, 15, |l| + |more| - 3) + (l + more))
            && StreamOf(front + [Run(l)]) == StreamOf(front) + (LenBytes(0, 15, |l| - 3) + l)
  {
    hide LenBytes, StreamOf, Legal, TextOf, CtxOf;
    Unsnoc(front, Run(l));
    LengthenOne(front, l);
    LengthenOne(front, l + more);
    Regroup(TextOf(front).value, l, more);
  }

  lemma LengthenOne(front: seq<Instr>, l: seq<Byte>)
    requires Legal(front) && |l| >= 4 && Allowed(CtxOf(front), Run(l)) && TextOf(front).Some?
    ensures Legal(front + [Run(l)]) && TextOf(front + [Run(l)]) == Some(TextOf(front).value + l)
    ensures StreamOf(front + [Run(l)]) == StreamOf(front) + (LenBytes(0, 15, |l| - 3) + l)
  {
    hide LenBytes, Legal, StreamOf, TextOf, Allowed;
    Snoc(front, Run(l));
  }

  // ---------- reading the untouched rest of the stream

  /** The rest of the stream from instruction k on begins with that instruction. */
  lemma RestParses(ins: seq<Instr>, e: Instr, k: nat)
    requires Legal(ins) && k <= |ins| && e.End? && Allowed(CtxOf(ins), e)
    ensures Legal(ins[..k])
    ensures var s := TailOf(ins, k) + Bytes(e);
            var i := if k < |ins| then ins[k] else e;
            && Allowed(CtxOf(ins[..k]), i)
            && Parse(CtxOf(ins[..k]), s) == Parsed(i, |Bytes(i)|)
            && |Bytes(i)| <= |s|
            && (k < |ins| ==> !i.End? && s[|Bytes(i)|..] == TailOf(ins, k + 1) + Bytes(e) && |s| > |Bytes(i)|)
            && (k == |ins| ==> |s| == |Bytes(i)|)
  {
    hide Bytes, Parse;
    LegalPrefix(ins, k);
    if k < |ins| {
      var rest := TailOf(ins, k + 1) + Bytes(e);
      assert TailOf(ins, k) + Bytes(e) == Bytes(ins[k]) + rest;
      ParsePrint(CtxOf(ins[..k]), ins[k], rest);
    } else {
      assert ins[..k] == ins;
      assert TailOf(ins, k) + Bytes(e) == Bytes(e) + [];
      ParsePrint(CtxOf(ins), e, []);
    }
  }

  lemma NextPrefix(ins: seq<Instr>, k: nat)
    requires Legal(ins) && k < |ins|
    ensures Legal(ins[..k]) && Legal(ins[..k + 1])
    ensures CtxOf(ins[..k + 1]) == After(ins[k])
    ensures TextOf(ins[..k]).Some? && Reaches(TextOf(ins[..k]).value, ins[k]) ==>
              TextOf(ins[..k + 1]) == Some(Apply(TextOf(ins[..k]).value, ins[k]))
  {
    hide Apply, StreamOf, Legal, TextOf, CtxOf, Allowed;
    LegalPrefix(ins, k);
    Snoc(ins[..k], ins[k]);
    assert ins[..k + 1] == ins[..k] + [ins[k]];
  }

  /** A short run header in the place of an instruction behind a match without literals. */
  lemma ShortRun(s: seq<Byte>)
    requires s != [] && 0 < s[0] < 16 && Parse(Zero, s).Parsed?
    ensures |s| >= 1 + s[0] + 3
    ensures Parse(Zero, s) == Parsed(Run(s[1..1 + s[0] + 3]), 1 + s[0] + 3)
  {
  }
}
