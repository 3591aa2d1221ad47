/** What a stream decodes to, and that printing and decoding are inverse. */
module LzoDecode {
  import opened Buffers
  import opened LzoFormat
  import opened LzoParse

  /** The text of the rest s of a stream, behind the text out; cap bounds the text. */
  function DecodeFrom(ctx: Ctx, s: seq<Byte>, out: seq<Byte>, cap: nat): Option<seq<Byte>>
    decreases |s|
  {
    match Parse(ctx, s)
    case Bad => None
    case Parsed(i, n) =>
      if i.End? then if n == |s| then Some(out) else None
      else if Reaches(out, i) && |Apply(out, i)| <= cap then DecodeFrom(After(i), s[n..], Apply(out, i), cap)
      else None
  }

  function Decode(s: seq<Byte>, cap: nat): Option<seq<Byte>> {
    DecodeFrom(Start, s, [], cap)
  }

  /** Complete streams: a legal list, an end marker, and their text. */
  ghost predicate IsStream(s: seq<Byte>, ins: seq<Instr>, e: Instr, t: seq<Byte>) {
    && Legal(ins) && e.End? && Allowed(CtxOf(ins), e)
    && s == StreamOf(ins) + Bytes(e) && TextOf(ins) == Some(t)
  }

  /** The bytes from instruction k on. */
  ghost function TailOf(ins: seq<Instr>, k: nat): seq<Byte>
    requires Legal(ins) && k <= |ins|
    decreases |ins| - k
  {
    if k == |ins| then []
    else
      LegalPrefix(ins, k);
      Bytes(ins[k]) + TailOf(ins, k + 1)
  }

  lemma {:induction false} StreamSplit(ins: seq<Instr>, k: nat)
    requires Legal(ins) && k <= |ins|
    ensures Legal(ins[..k]) && StreamOf(ins) == StreamOf(ins[..k]) + TailOf(ins, k)
    decreases |ins| - k
  {
    hide Bytes;
    LegalPrefix(ins, k);
    if k == |ins| {
      assert ins[..k] == ins;
    } else {
      StreamSplit(ins, k + 1);
      assert ins[..k + 1] == ins[..k] + [ins[k]];
      var a, b, c := StreamOf(ins[..k]), Bytes(ins[k]), TailOf(ins, k + 1);
      SnocStream(ins[..k], ins[k]);
      assert TailOf(ins, k) == b + c;
      assert (a + b) + c == a + (b + c);
    }
  }

  lemma SnocStream(ins: seq<Instr>, i: Instr)
    requires Legal(ins) && Allowed(CtxOf(ins), i) && !i.End?
    ensures Legal(ins + [i]) && StreamOf(ins + [i]) == StreamOf(ins) + Bytes(i)
  {
    Snoc(ins, i);
  }

  /** Decoding the rest of a printed stream gives the whole text. */
  lemma {:induction false} DecodeTail(ins: seq<Instr>, k: nat, e: Instr, t: seq<Byte>, cap: nat)
    requires Legal(ins) && k <= |ins| && TextOf(ins) == Some(t) && |t| <= cap
    requires e.End? && Allowed(CtxOf(ins), e)
    ensures TextOf(ins[..k]).Some?
    ensures DecodeFrom(CtxOf(ins[..k]), TailOf(ins, k) + Bytes(e), TextOf(ins[..k]).value, cap) == Some(t)
    decreases |ins| - k
  {
    hide Parse, Bytes, Apply;
    TextPrefix(ins, k);
    LegalPrefix(ins, k);
    if k == |ins| {
      assert ins[..k] == ins;
      assert TailOf(ins, k) + Bytes(e) == Bytes(e) + [];
      ParsePrint(CtxOf(ins), e, []);
    } else {
      var i := ins[k];
      var rest := TailOf(ins, k + 1) + Bytes(e);
      assert TailOf(ins, k) + Bytes(e) == Bytes(i) + rest;
      ParsePrint(CtxOf(ins[..k]), i, rest);
      assert (Bytes(i) + rest)[|Bytes(i)|..] == rest;
      Snoc(ins[..k], i);
      assert ins[..k + 1] == ins[..k] + [i];
      TextPrefix(ins, k + 1);
      DecodeTail(ins, k + 1, e, t, cap);
    }
  }

  /** Every printed list with an end marker decodes to its text. */
  lemma DecodePrinted(s: seq<Byte>, ins: seq<Instr>, e: Instr, t: seq<Byte>, cap: nat)
    requires IsStream(s, ins, e, t) && |t| <= cap
    ensures Decode(s, cap) == Some(t)
  {
    hide Legal, StreamOf, TailOf, Bytes, DecodeFrom;
    DecodeTail(ins, 0, e, t, cap);
    StreamSplit(ins, 0);
    assert ins[..0] == [];
    EmptyList();
    assert s == TailOf(ins, 0) + Bytes(e);
  }

  lemma EmptyList()
    ensures Legal([]) && StreamOf([]) == [] && TextOf([]) == Some([]) && CtxOf([]) == Start
  {
  }

  /** Whatever decodes is such a stream. */
  lemma {:induction false} DecodeSound(done: seq<Instr>, s: seq<Byte>, out: seq<Byte>, cap: nat)
    returns (ins: seq<Instr>, e: Instr)
    requires Legal(done) && TextOf(done) == Some(out)
    requires DecodeFrom(CtxOf(done), s, out, cap).Some?
    ensures IsStream(StreamOf(done) + s, ins, e, DecodeFrom(CtxOf(done), s, out, cap).value)
    decreases |s|
  {
    hide Parse, Bytes, Apply;
    PrintParse(CtxOf(done), s);
    var p := Parse(CtxOf(done), s);
    if p.instr.End? {
      ins, e := done, p.instr;
      assert s[..|s|] == s;
    } else {
      Snoc(done, p.instr);
      assert StreamOf(done) + s == StreamOf(done + [p.instr]) + s[p.size..];
      ins, e := DecodeSound(done + [p.instr], s[p.size..], Apply(out, p.instr), cap);
    }
  }

  /** Both directions: a byte string decodes to t exactly when it is a stream for t. */
  lemma DecodeIff(s: seq<Byte>, t: seq<Byte>, cap: nat)
    ensures Decode(s, cap) == Some(t) <==> |t| <= cap && exists ins, e :: IsStream(s, ins, e, t)
  {
    if Decode(s, cap) == Some(t) {
      var ins, e := DecodeSound([], s, [], cap);
      assert StreamOf([]) + s == s;
      assert IsStream(s, ins, e, t);
      DecodeFits(Start, s, [], cap);
    }
    if |t| <= cap && exists ins, e :: IsStream(s, ins, e, t) {
      var ins, e :| IsStream(s, ins, e, t);
      DecodePrinted(s, ins, e, t, cap);
    }
  }

  lemma {:induction false} DecodeFits(ctx: Ctx, s: seq<Byte>, out: seq<Byte>, cap: nat)
    requires |out| <= cap && DecodeFrom(ctx, s, out, cap).Some?
    ensures |DecodeFrom(ctx, s, out, cap).value| <= cap
    decreases |s|
  {
    hide Parse, Apply;
    var p := Parse(ctx, s);
    if !p.instr.End? {
      DecodeFits(After(p.instr), s[p.size..], Apply(out, p.instr), cap);
    }
  }
}
