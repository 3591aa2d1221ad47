/** The adaptive order-0 model of the LZARI coder: frequencies kept in
    non-increasing order, the two symbol translation tables, the cumulative
    tables of symbols and of match positions. */
module LzariModel {
  import opened Arithmetic

  const N := 4096
  const F := 60
  const THRESHOLD := 2
  const N_CHAR := 314  // 256 - THRESHOLD + F
  const Q1 := 32768
  const Q2 := 65536
  const Q3 := 98304
  const Q4 := 131072
  const MAX_CUM := 32767  // Q1 - 1
  const WORD := 0x1_0000_0000

  // ---------- cumulative sums

  /** Sum of f[i+1..]: what sym_cum[i] stands for. */
  function Cum(f: seq<nat>, i: nat): nat
    decreases |f| - i
  {
    if i + 1 >= |f| then 0 else f[i + 1] + Cum(f, i + 1)
  }

  lemma {:induction false} CumUpdate(f: seq<nat>, i: nat, v: nat, k: nat)
    requires 1 <= i < |f|
    ensures Cum(f[i := v], k) == if k < i then Cum(f, k) - f[i] + v else Cum(f, k)
    decreases |f| - k
  {
    if k + 1 < |f| {
      CumUpdate(f, i, v, k + 1);
    }
  }

  lemma {:induction false} CumMonotone(f: seq<nat>, i: nat, j: nat)
    requires i <= j
    ensures Cum(f, i) >= Cum(f, j)
    ensures forall k :: i < k <= j < |f| ==> Cum(f, i) >= Cum(f, j) + f[k]
    decreases j - i
  {
    if i < j {
      CumMonotone(f, i + 1, j);
    }
  }

  // ---------- the model as a value

  /** freq and symToChar are indexed by symbol 1..N_CHAR; freq[0] is the sentinel. */
  datatype Model = Model(freq: seq<nat>, symToChar: seq<nat>)

  ghost predicate Permutation(p: seq<nat>) {
    && |p| == N_CHAR + 1
    && (forall i :: 1 <= i <= N_CHAR ==> p[i] < N_CHAR)
    && (forall i, j :: 1 <= i < j <= N_CHAR ==> p[i] != p[j])
    && (forall c {:trigger HasSym(p, c)} :: 0 <= c < N_CHAR ==> HasSym(p, c))
  }

  ghost predicate HasSym(p: seq<nat>, c: nat) {
    exists i :: 1 <= i < |p| && p[i] == c
  }

  predicate Positive(f: seq<nat>) {
    forall i :: 1 <= i < |f| ==> f[i] >= 1
  }

  predicate NonIncreasing(f: seq<nat>) {
    forall i, j :: 1 <= i <= j < |f| ==> f[i] >= f[j]
  }

  /** What every run of the model keeps. */
  ghost predicate WellFormed(m: Model) {
    && |m.freq| == N_CHAR + 1
    && m.freq[0] == 0
    && Positive(m.freq)
    && NonIncreasing(m.freq)
    && Cum(m.freq, 0) <= MAX_CUM
    && Permutation(m.symToChar)
  }

  /** The symbol of a character. */
  ghost function SymOf(m: Model, c: nat): (s: nat)
    requires WellFormed(m) && c < N_CHAR
    ensures 1 <= s <= N_CHAR && m.symToChar[s] == c
  {
    assert HasSym(m.symToChar, c);
    var i :| 1 <= i < |m.symToChar| && m.symToChar[i] == c;
    i
  }

  ghost function CharFreq(m: Model, c: nat): nat
    requires WellFormed(m) && c < N_CHAR
  {
    m.freq[SymOf(m, c)]
  }

  function Halve(f: seq<nat>): (h: seq<nat>)
    requires |f| > 0
    ensures |h| == |f|
  {
    seq(|f|, i requires 0 <= i < |f| => if i == 0 then f[0] else (f[i] + 1) / 2)
  }

  /** The frequencies after the optional halving step. */
  function Scaled(f: seq<nat>): (h: seq<nat>)
    requires |f| > 0
    ensures |h| == |f|
  {
    if Cum(f, 0) >= MAX_CUM then Halve(f) else f
  }

  /** The first symbol whose frequency equals that of sym. */
  function Leader(f: seq<nat>, sym: nat): (i: nat)
    requires 1 <= sym < |f|
    ensures 1 <= i <= sym
    ensures forall k :: i <= k <= sym ==> f[k] == f[sym]
    ensures i > 1 ==> f[i - 1] != f[i]
  {
    if sym == 1 || f[sym - 1] != f[sym] then sym else Leader(f, sym - 1)
  }

  function Swap(p: seq<nat>, i: nat, j: nat): (q: seq<nat>)
    requires i < |p| && j < |p|
    ensures |q| == |p|
  {
    p[i := p[j]][j := p[i]]
  }

  function Next(m: Model, sym: nat): Model
    requires |m.freq| == |m.symToChar| == N_CHAR + 1
    requires 1 <= sym <= N_CHAR
  {
    var f := Scaled(m.freq);
    var i := Leader(f, sym);
    Model(f[i := f[i] + 1], Swap(m.symToChar, i, sym))
  }

  function InitialModel(): Model {
    Model(seq(N_CHAR + 1, i => if i == 0 then 0 else 1),
          seq(N_CHAR + 1, i => if i == 0 then 0 else i - 1))
  }

  lemma {:induction false} CumOnes(k: nat)
    requires k <= N_CHAR
    ensures Cum(InitialModel().freq, k) == N_CHAR - k
    decreases N_CHAR - k
  {
    if k < N_CHAR {
      CumOnes(k + 1);
    }
  }

  lemma InitialWellFormed()
    ensures WellFormed(InitialModel())
    ensures forall s :: 1 <= s <= N_CHAR ==> InitialModel().symToChar[s] == s - 1
  {
    CumOnes(0);
    var p := InitialModel().symToChar;
    forall c | 0 <= c < N_CHAR
      ensures HasSym(p, c)
    {
      assert p[c + 1] == c;
    }
  }

  lemma {:induction false} HalveCum(f: seq<nat>, k: nat)
    requires |f| > 0 && k < |f|
    ensures 2 * Cum(Halve(f), k) <= Cum(f, k) + (|f| - 1 - k)
    decreases |f| - k
  {
    if k + 1 < |f| {
      HalveCum(f, k + 1);
    }
  }

  lemma ScaledRoom(m: Model)
    requires WellFormed(m)
    ensures Positive(Scaled(m.freq)) && NonIncreasing(Scaled(m.freq))
    ensures Cum(Scaled(m.freq), 0) < MAX_CUM && Scaled(m.freq)[0] == 0
  {
    if Cum(m.freq, 0) >= MAX_CUM {
      HalveCum(m.freq, 0);
    }
  }

  lemma SwapPermutation(p: seq<nat>, i: nat, j: nat)
    requires Permutation(p) && 1 <= i <= N_CHAR && 1 <= j <= N_CHAR
    ensures Permutation(Swap(p, i, j))
  {
    var q := Swap(p, i, j);
    forall c | 0 <= c < N_CHAR
      ensures HasSym(q, c)
    {
      assert HasSym(p, c);
      var k :| 1 <= k < |p| && p[k] == c;
      var k' := if k == i then j else if k == j then i else k;
      assert q[k'] == c;
    }
  }

  /** Every update keeps the model well formed: the invariant over all runs. */
  lemma NextWellFormed(m: Model, sym: nat)
    requires WellFormed(m) && 1 <= sym <= N_CHAR
    ensures WellFormed(Next(m, sym))
  {
    ScaledRoom(m);
    var f := Scaled(m.freq);
    var i := Leader(f, sym);
    CumUpdate(f, i, f[i] + 1, 0);
    SwapPermutation(m.symToChar, i, sym);
  }

  lemma SymUnique(m: Model, s: nat)
    requires WellFormed(m) && 1 <= s <= N_CHAR
    ensures SymOf(m, m.symToChar[s]) == s
  {
  }

  /** What an update means: the coded character gains one occurrence, every other
      character keeps its count (all counts halved first when the total is full).
      The swap with the leader of the run never moves a count to another character. */
  lemma NextCounts(m: Model, sym: nat, c: nat)
    requires WellFormed(m) && 1 <= sym <= N_CHAR && c < N_CHAR
    ensures WellFormed(Next(m, sym))
    ensures CharFreq(Next(m, sym), c) ==
            Scaled(m.freq)[SymOf(m, c)] + if c == m.symToChar[sym] then 1 else 0
  {
    NextWellFormed(m, sym);
    var f := Scaled(m.freq);
    var i := Leader(f, sym);
    var s := SymOf(m, c);
    var s' := if s == i then sym else if s == sym then i else s;
    var m' := Next(m, sym);
    assert m'.symToChar[s'] == c;
    SymUnique(m', s');
    if c == m.symToChar[sym] {
      SymUnique(m, sym);
    }
  }

  /** Every symbol owns a non-empty slice of the cumulative table. */
  lemma SlicesNonEmpty(m: Model, sym: nat)
    requires WellFormed(m) && 1 <= sym <= N_CHAR
    ensures Cum(m.freq, sym) < Cum(m.freq, sym - 1) <= Cum(m.freq, 0) <= MAX_CUM
  {
    CumMonotone(m.freq, 0, sym - 1);
  }

  // ---------- positions

  /** The empirical weight of position i. */
  function PosWeight(i: nat): (w: nat) {
    10000 / (i + 200)
  }

  lemma PosWeightMonotone(i: nat, j: nat)
    requires i <= j
    ensures PosWeight(i) >= PosWeight(j)
  {
    var d, e := i + 200, j + 200;
    var q := 10000 / e;
    assert q * d <= q * e;
    assert q * e <= 10000;
    QuotientAtLeast(10000, d, q);
  }

  /** Sum of the weights i+1..top: position_cum[i] is PosSum(i, N). */
  function PosSum(i: nat, top: nat): nat
    decreases top - i
  {
    if i >= top then 0 else PosSum(i + 1, top) + PosWeight(i + 1)
  }

  function PosCum(i: nat): nat {
    PosSum(i, N)
  }

  lemma {:induction false} PosSumBlock(a: nat, b: nat, top: nat)
    requires a <= b <= top
    ensures PosSum(a, top) <= PosSum(b, top) + (b - a) * PosWeight(a + 1)
    decreases b - a
  {
    if a < b {
      PosSumBlock(a + 1, b, top);
      PosWeightMonotone(a + 1, a + 2);
      MulLe(b - a - 1, PosWeight(a + 2), PosWeight(a + 1));
    }
  }

  lemma MulLe(k: nat, v: nat, u: nat)
    requires v <= u
    ensures k * v + u <= (k + 1) * u
  {
    assert k * v <= k * u;
  }

  lemma {:induction false} PosSumMonotone(i: nat, j: nat, top: nat)
    requires i <= j
    ensures PosSum(j, top) <= PosSum(i, top)
    decreases j - i
  {
    if i < j { PosSumMonotone(i + 1, j, top); }
  }

  /** Every position owns a non-empty slice. */
  lemma PosSlices(i: nat)
    requires i < N
    ensures PosCum(i + 1) < PosCum(i) <= PosCum(0)
  {
    PosSumMonotone(0, i, N);
    PosWeightMonotone(i + 1, N);
    assert PosWeight(N) == 2;
  }

  /** Bounds the sum by blocks of a quarter of the current divisor. */
  lemma {:induction false} PosSumBound(a: nat, top: nat, bound: nat)
    requires a <= top
    requires BlockBound(a, top) <= bound
    ensures PosSum(a, top) <= bound
    decreases top - a
  {
    if a < top {
      var b := BlockEnd(a, top);
      PosSumBlock(a, b, top);
      PosSumBound(b, top, BlockBound(b, top));
    }
  }

  function BlockEnd(a: nat, top: nat): (b: nat)
    requires a < top
    ensures a < b <= top
  {
    var b := a + 1 + (a + 200) / 4;
    if b <= top then b else top
  }

  function BlockBound(a: nat, top: nat): nat
    requires a <= top
    decreases top - a
  {
    if a == top then 0
    else Times(BlockEnd(a, top) - a, PosWeight(a + 1)) + BlockBound(BlockEnd(a, top), top)
  }

  function Times(n: nat, w: nat): nat {
    n * w
  }

  /** The position table's total also stays below Q1, so no product overflows. */
  lemma PosTotal()
    ensures 0 < PosCum(0) <= MAX_CUM
  {
    PosSlices(0);
    BlockTotal();
    PosSumBound(0, N, MAX_CUM);
  }

  lemma BlockTotal()
    ensures BlockBound(0, 4096) <= MAX_CUM
  {
    assert BlockBound(3486, 4096) == 1220;
    assert BlockBound(2748, 4096) == 3434;
    assert BlockBound(2158, 4096) == 5794;
    assert BlockBound(1686, 4096) == 8154;
    assert BlockBound(1308, 4096) == 10422;
    assert BlockBound(1006, 4096) == 12838;
    assert BlockBound(764, 4096) == 15258;
    assert BlockBound(571, 4096) == 17574;
    assert BlockBound(416, 4096) == 20054;
    assert BlockBound(292, 4096) == 22534;
    assert BlockBound(193, 4096) == 25009;
    assert BlockBound(114, 4096) == 27458;
    assert BlockBound(51, 4096) == 29915;
    assert BlockBound(0, 4096) == 32414;
  }
}
