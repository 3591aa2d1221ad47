/** Token lists, the code interval each one owns, and what each one expands to. */
module LzariTokens {
  import opened Buffers
  import opened LzariModel
  import opened LzariCode

  /** A literal byte, or a copy of len bytes from dist bytes back. */
  datatype Token = Lit(c: Byte) | Match(len: nat, dist: nat)

  predicate IsToken(t: Token) {
    t.Match? ==> THRESHOLD < t.len <= F && 1 <= t.dist <= N
  }

  /** The character that is coded for a token. */
  function CharOf(t: Token): (c: nat)
    requires IsToken(t)
    ensures c < N_CHAR
  {
    match t
    case Lit(c) => c
    case Match(len, _) => 255 - THRESHOLD + len
  }

  // ---------- coding

  datatype State = State(coder: Coder, model: Model)

  ghost predicate IsState(s: State) {
    Ready(s.coder) && WellFormed(s.model)
  }

  function InitialState(): State {
    State(Coder(0, 0, Q4, 0), InitialModel())
  }

  /** Narrowing to symbol sym. */
  ghost function CodeSym(s: State, sym: nat): (r: Coder)
    requires IsState(s) && 1 <= sym <= N_CHAR
    ensures IsInterval(r)
  {
    SlicesNonEmpty(s.model, sym);
    NarrowInside(s.coder, Cum(s.model.freq, sym), Cum(s.model.freq, sym - 1), Cum(s.model.freq, 0));
    Narrow(s.coder, Cum(s.model.freq, sym), Cum(s.model.freq, sym - 1), Cum(s.model.freq, 0))
  }

  /** Narrowing to position dist. */
  ghost function CodePos(c: Coder, dist: nat): (r: Coder)
    requires Ready(c) && 1 <= dist <= N
    ensures IsInterval(r)
  {
    PosSlices(dist - 1);
    PosTotal();
    NarrowInside(c, PosCum(dist), PosCum(dist - 1), PosCum(0));
    Narrow(c, PosCum(dist), PosCum(dist - 1), PosCum(0))
  }

  /** One symbol: narrow, renormalise, adapt. */
  ghost function StepSym(s: State, sym: nat): (r: State)
    requires IsState(s) && 1 <= sym <= N_CHAR
    ensures IsState(r)
  {
    NextWellFormed(s.model, sym);
    State(Renorm(CodeSym(s, sym)), Next(s.model, sym))
  }

  ghost function Step(s: State, t: Token): (r: State)
    requires IsState(s) && IsToken(t)
    ensures IsState(r)
  {
    var s1 := StepSym(s, SymOf(s.model, CharOf(t)));
    match t
    case Lit(_) => s1
    case Match(_, dist) => State(Renorm(CodePos(s1.coder, dist)), s1.model)
  }

  ghost predicate AllTokens(ts: seq<Token>) {
    forall t :: t in ts ==> IsToken(t)
  }

  /** The coder's state after a token list. */
  ghost function After(ts: seq<Token>): (s: State)
    requires AllTokens(ts)
    ensures IsState(s)
  {
    InitialWellFormed();
    if ts == [] then InitialState() else Step(After(ts[..|ts| - 1]), ts[|ts| - 1])
  }

  // ---------- nested and disjoint

  lemma CodeSymNested(s: State, sym: nat, bytes: seq<Byte>)
    requires IsState(s) && 1 <= sym <= N_CHAR
    requires Contains(CodeSym(s, sym), bytes)
    ensures Contains(s.coder, bytes)
  {
    SlicesNonEmpty(s.model, sym);
    NarrowInside(s.coder, Cum(s.model.freq, sym), Cum(s.model.freq, sym - 1), Cum(s.model.freq, 0));
  }

  lemma CodePosNested(c: Coder, dist: nat, bytes: seq<Byte>)
    requires Ready(c) && 1 <= dist <= N
    requires Contains(CodePos(c, dist), bytes)
    ensures Contains(c, bytes)
  {
    PosSlices(dist - 1);
    PosTotal();
    NarrowInside(c, PosCum(dist), PosCum(dist - 1), PosCum(0));
  }

  /** Coding one more token keeps the code string inside the earlier interval. */
  lemma StepNested(s: State, t: Token, bytes: seq<Byte>)
    requires IsState(s) && IsToken(t)
    requires Contains(Step(s, t).coder, bytes)
    ensures Contains(StepSym(s, SymOf(s.model, CharOf(t))).coder, bytes)
    ensures Contains(CodeSym(s, SymOf(s.model, CharOf(t))), bytes)
    ensures Contains(s.coder, bytes)
    ensures t.Match? ==> Contains(CodePos(StepSym(s, SymOf(s.model, CharOf(t))).coder, t.dist), bytes)
  {
    var sym := SymOf(s.model, CharOf(t));
    var s1 := StepSym(s, sym);
    if t.Match? {
      RenormContains(CodePos(s1.coder, t.dist), bytes);
      CodePosNested(s1.coder, t.dist, bytes);
    }
    RenormContains(CodeSym(s, sym), bytes);
    CodeSymNested(s, sym, bytes);
  }

  /** Two symbols that both contain the code string are the same symbol. */
  lemma SymDisjoint(s: State, a: nat, b: nat, bytes: seq<Byte>)
    requires IsState(s) && 1 <= a <= N_CHAR && 1 <= b <= N_CHAR
    requires Contains(CodeSym(s, a), bytes) && Contains(CodeSym(s, b), bytes)
    ensures a == b
  {
    var f, range, total := s.model.freq, s.coder.high - s.coder.low, Cum(s.model.freq, 0);
    SlicesNonEmpty(s.model, a);
    if a < b {
      CumMonotone(f, a, b - 1);
      ScaleMonotone(range, Cum(f, b - 1), Cum(f, a), total);
    } else if b < a {
      CumMonotone(f, b, a - 1);
      ScaleMonotone(range, Cum(f, a - 1), Cum(f, b), total);
    }
  }

  lemma PosDisjoint(c: Coder, a: nat, b: nat, bytes: seq<Byte>)
    requires Ready(c) && 1 <= a <= N && 1 <= b <= N
    requires Contains(CodePos(c, a), bytes) && Contains(CodePos(c, b), bytes)
    ensures a == b
  {
    var range := c.high - c.low;
    PosTotal();
    if a < b {
      PosSumMonotone(a, b - 1, N);
      ScaleMonotone(range, PosCum(b - 1), PosCum(a), PosCum(0));
    } else if b < a {
      PosSumMonotone(b, a - 1, N);
      ScaleMonotone(range, PosCum(a - 1), PosCum(b), PosCum(0));
    }
  }

  lemma TokenDisjoint(s: State, a: Token, b: Token, bytes: seq<Byte>)
    requires IsState(s) && IsToken(a) && IsToken(b)
    requires Contains(Step(s, a).coder, bytes) && Contains(Step(s, b).coder, bytes)
    ensures a == b
  {
    hide WellFormed, Renorm, Narrow, CodePos, Contains, Ready, Next, SymOf;
    StepNested(s, a, bytes);
    StepNested(s, b, bytes);
    SymDisjoint(s, SymOf(s.model, CharOf(a)), SymOf(s.model, CharOf(b)), bytes);
    assert CharOf(a) == CharOf(b);
    if a.Match? {
      PosDisjoint(StepSym(s, SymOf(s.model, CharOf(a))).coder, a.dist, b.dist, bytes);
    }
  }

  lemma AfterLast(ts: seq<Token>)
    requires AllTokens(ts) && ts != []
    ensures IsToken(ts[|ts| - 1])
    ensures AllTokens(ts[..|ts| - 1])
    ensures After(ts) == Step(After(ts[..|ts| - 1]), ts[|ts| - 1])
  {
  }

  lemma AfterSnoc(ts: seq<Token>, t: Token)
    requires AllTokens(ts) && IsToken(t)
    ensures AllTokens(ts + [t])
    ensures After(ts + [t]) == Step(After(ts), t)
  {
    assert (ts + [t])[..|ts|] == ts;
  }

  /** The code string lies in the interval of the token list. */
  ghost predicate Codes(ts: seq<Token>, bytes: seq<Byte>) {
    AllTokens(ts) && Contains(After(ts).coder, bytes)
  }

  lemma CodesFront(ts: seq<Token>, bytes: seq<Byte>)
    requires Codes(ts, bytes) && ts != []
    ensures Codes(ts[..|ts| - 1], bytes)
    ensures IsToken(ts[|ts| - 1])
    ensures Contains(Step(After(ts[..|ts| - 1]), ts[|ts| - 1]).coder, bytes)
  {
    hide After, Step, Contains;
    AfterLast(ts);
    StepNested(After(ts[..|ts| - 1]), ts[|ts| - 1], bytes);
  }

  lemma {:induction false} CodesPrefix(ts: seq<Token>, k: nat, bytes: seq<Byte>)
    requires Codes(ts, bytes) && k <= |ts|
    ensures Codes(ts[..k], bytes)
  {
    hide *;
    if k == |ts| {
      assert ts[..k] == ts;
    } else {
      CodesFront(ts, bytes);
      CodesPrefix(ts[..|ts| - 1], k, bytes);
      assert ts[..|ts| - 1][..k] == ts[..k];
    }
  }

  /** A code string determines its tokens: of two lists that both contain it, one
      is a prefix of the other. */
  lemma {:induction false} CodeDeterminesTokens(a: seq<Token>, b: seq<Token>, k: nat, bytes: seq<Byte>)
    requires Codes(a, bytes) && Codes(b, bytes) && k <= |a| && k <= |b|
    ensures a[..k] == b[..k]
  {
    hide After, Step, Contains;
    if k > 0 {
      CodeDeterminesTokens(a, b, k - 1, bytes);
      CodesPrefix(a, k, bytes);
      CodesPrefix(b, k, bytes);
      CodesFront(a[..k], bytes);
      CodesFront(b[..k], bytes);
      assert a[..k][..k - 1] == a[..k - 1] && b[..k][..k - 1] == b[..k - 1];
      TokenDisjoint(After(a[..k - 1]), a[k - 1], b[k - 1], bytes);
      assert a[..k] == a[..k - 1] + [a[k - 1]] && b[..k] == b[..k - 1] + [b[k - 1]];
    }
  }

  // ---------- expansion

  /** Append len bytes, each copied from dist bytes back (the copy may overlap itself). */
  function Copy(h: seq<Byte>, len: nat, dist: nat): (r: seq<Byte>)
    requires 1 <= dist <= |h|
    ensures |r| == |h| + len && h <= r
  {
    if len == 0 then h
    else
      var p := Copy(h, len - 1, dist);
      p + [p[|p| - dist]]
  }

  /** The history after one token. */
  function Apply(h: seq<Byte>, t: Token): (r: seq<Byte>)
    requires IsToken(t) && |h| >= N
    ensures h <= r && |r| == |h| + TokenLen(t)
  {
    match t
    case Lit(c) => h + [c]
    case Match(len, dist) => Copy(h, len, dist)
  }

  function TokenLen(t: Token): nat {
    if t.Lit? then 1 else t.len
  }

  /** The history after a token list, starting from the window h. */
  ghost function Expand(h: seq<Byte>, ts: seq<Token>): (r: seq<Byte>)
    requires AllTokens(ts) && |h| >= N
    ensures h <= r && |r| >= |h| + |ts|
  {
    if ts == [] then h else Apply(Expand(h, ts[..|ts| - 1]), ts[|ts| - 1])
  }

  lemma {:induction false} ExpandPrefix(h: seq<Byte>, ts: seq<Token>, k: nat)
    requires AllTokens(ts) && |h| >= N && k <= |ts|
    ensures AllTokens(ts[..k]) && Expand(h, ts[..k]) <= Expand(h, ts)
  {
    if k == |ts| {
      assert ts[..k] == ts;
    } else {
      ExpandPrefix(h, ts[..|ts| - 1], k);
      assert ts[..|ts| - 1][..k] == ts[..k];
    }
  }

  lemma {:induction false} ExpandGrows(h: seq<Byte>, ts: seq<Token>, k: nat)
    requires AllTokens(ts) && |h| >= N && k < |ts|
    ensures AllTokens(ts[..k]) && |Expand(h, ts[..k])| < |Expand(h, ts)|
  {
    assert IsToken(ts[|ts| - 1]);
    if k < |ts| - 1 {
      ExpandGrows(h, ts[..|ts| - 1], k);
      assert ts[..|ts| - 1][..k] == ts[..k];
    }
  }
}
