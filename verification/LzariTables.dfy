/** The static tables of the model and the procedures that update them in place. */
module LzariTables {
  import opened LzariModel

  /** The table holds the suffix sums of f. */
  ghost predicate IsCumTable(f: seq<nat>, cum: seq<nat>) {
    |cum| == |f| && forall k :: 0 <= k < |f| ==> cum[k] == Cum(f, k)
  }

  /** charToSym is the inverse of symToChar. */
  ghost predicate IsInverse(charToSym: seq<nat>, symToChar: seq<nat>) {
    && |charToSym| == N_CHAR && |symToChar| == N_CHAR + 1
    && forall s :: 1 <= s <= N_CHAR ==> symToChar[s] < N_CHAR && charToSym[symToChar[s]] == s
  }

  ghost predicate IsPosTable(cum: seq<nat>) {
    |cum| == N + 1 && forall i :: 0 <= i <= N ==> cum[i] == PosCum(i)
  }

  lemma SizesOf(m: Model)
    requires WellFormed(m)
    ensures |m.freq| == N_CHAR + 1 && |m.symToChar| == N_CHAR + 1
  {
  }

  lemma CumEnd(f: seq<nat>)
    requires |f| == N_CHAR + 1
    ensures Cum(f, N_CHAR) == 0
  {
  }

  lemma CumDown(f: seq<nat>, i: nat)
    requires 0 < i < |f|
    ensures Cum(f, i - 1) == Cum(f, i) + f[i]
  {
  }

  lemma HalveAt(f: seq<nat>, i: nat)
    requires i < |f|
    ensures Halve(f)[i] == if i == 0 then f[0] else (f[i] + 1) / 2
  {
  }

  lemma PosEnd()
    ensures PosCum(N) == 0
  {
  }

  lemma InitialTables(f: seq<nat>, p: seq<nat>)
    requires |f| == |p| == N_CHAR + 1 && f[0] == 0
    requires forall k :: 1 <= k <= N_CHAR ==> f[k] == 1 && p[k] == k - 1
    ensures Model(f, [0] + p[1..]) == InitialModel()
  {
  }

  class Tables {
    const char_to_sym: array<nat>
    const sym_to_char: array<nat>
    const sym_freq: array<nat>
    const sym_cum: array<nat>
    const position_cum: array<nat>

    ghost const Repr: set<object>

    /** The arrays have the source's sizes and do not overlap. */
    ghost predicate Allocated() {
      && char_to_sym.Length == N_CHAR
      && sym_to_char.Length == N_CHAR + 1
      && sym_freq.Length == N_CHAR + 1
      && sym_cum.Length == N_CHAR + 1
      && position_cum.Length == N + 1
      && char_to_sym != sym_to_char && char_to_sym != sym_freq && char_to_sym != sym_cum
      && char_to_sym != position_cum && sym_to_char != sym_freq && sym_to_char != sym_cum
      && sym_to_char != position_cum && sym_freq != sym_cum && sym_freq != position_cum
      && sym_cum != position_cum
      && Repr == {char_to_sym, sym_to_char, sym_freq, sym_cum, position_cum}
    }

    /** The value the arrays represent; sym_to_char[0] is never used. */
    ghost function Abs(): Model
      reads sym_freq, sym_to_char
    {
      Model(sym_freq[..], if sym_to_char.Length > 0 then [0] + sym_to_char[1..] else [])
    }

    /** The derived tables agree with that value. */
    ghost predicate Valid()
      reads Repr, char_to_sym, sym_to_char, sym_freq, sym_cum, position_cum
    {
      && Allocated()
      && WellFormed(Abs())
      && IsCumTable(sym_freq[..], sym_cum[..])
      && IsInverse(char_to_sym[..], sym_to_char[..])
      && IsPosTable(position_cum[..])
    }

    lemma CharLookup(c: nat)
      requires Valid() && c < N_CHAR
      ensures char_to_sym[c] == SymOf(Abs(), c)
      ensures 1 <= char_to_sym[c] <= N_CHAR
    {
      var s := SymOf(Abs(), c);
      assert sym_to_char[s] == c;
    }

    lemma SymEntries(sym: nat)
      requires Valid() && 1 <= sym <= N_CHAR
      ensures sym_cum[sym] == Cum(Abs().freq, sym) && sym_cum[sym - 1] == Cum(Abs().freq, sym - 1)
      ensures sym_cum[0] == Cum(Abs().freq, 0)
    {
    }

    method CharOfSym(sym: nat) returns (c: nat)
      requires Valid() && 1 <= sym <= N_CHAR
      ensures c < N_CHAR && SymOf(Abs(), c) == sym
    {
      c := sym_to_char[sym];
      SymUnique(Abs(), sym);
    }

    constructor ()
      ensures Allocated() && fresh(Repr)
    {
      var a, b, c, d, e := new nat[N_CHAR], new nat[N_CHAR + 1], new nat[N_CHAR + 1], new nat[N_CHAR + 1], new nat[N + 1];
      char_to_sym, sym_to_char, sym_freq, sym_cum, position_cum := a, b, c, d, e;
      Repr := {a, b, c, d, e};
    }

    method StartModel()
      requires Allocated()
      modifies Repr
      ensures Valid() && Abs() == InitialModel()
    {
      StartSymbols();
      StartPositions();
      InitialWellFormed();
      assert Abs() == InitialModel();
    }

    method StartSymbols()
      requires Allocated()
      modifies char_to_sym, sym_to_char, sym_freq, sym_cum
      ensures Abs() == InitialModel()
      ensures IsCumTable(sym_freq[..], sym_cum[..])
      ensures IsInverse(char_to_sym[..], sym_to_char[..])
    {
      hide InitialModel, Cum;
      sym_cum[N_CHAR] := 0;
      var sym := N_CHAR;
      while sym >= 1
        invariant 0 <= sym <= N_CHAR
        invariant forall k :: sym <= k <= N_CHAR ==> sym_cum[k] == N_CHAR - k
        invariant forall k :: sym < k <= N_CHAR ==> sym_freq[k] == 1 && sym_to_char[k] == k - 1
        invariant forall k :: sym <= k < N_CHAR ==> char_to_sym[k] == k + 1
      {
        var ch := sym - 1;
        char_to_sym[ch] := sym;
        sym_to_char[sym] := ch;
        sym_freq[sym] := 1;
        sym_cum[sym - 1] := sym_cum[sym] + sym_freq[sym];
        sym := sym - 1;
      }
      sym_freq[0] := 0;
      InitialTables(sym_freq[..], sym_to_char[..]);
      forall k | 0 <= k <= N_CHAR
        ensures sym_cum[k] == Cum(sym_freq[..], k)
      {
        CumOnes(k);
      }
    }

    method StartPositions()
      requires Allocated()
      modifies position_cum
      ensures IsPosTable(position_cum[..])
    {
      position_cum[N] := 0;
      var i := N;
      while i >= 1
        invariant 0 <= i <= N
        invariant forall k :: i <= k <= N ==> position_cum[k] == PosCum(k)
      {
        position_cum[i - 1] := position_cum[i] + 10000 / (i + 200);
        i := i - 1;
      }
    }

    method UpdateModel(sym: nat)
      requires Valid() && 1 <= sym <= N_CHAR
      modifies char_to_sym, sym_to_char, sym_freq, sym_cum
      ensures Valid() && Abs() == Next(old(Abs()), sym)
    {
      hide WellFormed, IsCumTable, IsInverse, IsPosTable, Cum, Halve, Positive, NonIncreasing;
      ghost var m := Abs();
      SymEntries(sym);
      SizesOf(m);
      if sym_cum[0] >= MAX_CUM {
        HalveFrequencies();
      }
      ghost var f := Scaled(m.freq);
      assert sym_freq[..] == f;
      ScaledRoom(m);
      var i := FindLeader(sym);
      if i < sym {
        SwapSymbols(i, sym);
      }
      BumpFrequency(i);
      assert [0] + sym_to_char[1..] == Swap(m.symToChar, i, sym);
      assert Abs() == Next(m, sym);
      NextWellFormed(m, sym);
    }

    method FindLeader(sym: nat) returns (i: nat)
      requires Allocated() && 1 <= sym <= N_CHAR
      requires sym_freq[0] == 0 && Positive(sym_freq[..])
      ensures i == Leader(sym_freq[..], sym)
    {
      i := sym;
      while sym_freq[i] == sym_freq[i - 1]
        invariant 1 <= i <= sym
        invariant Leader(sym_freq[..], i) == Leader(sym_freq[..], sym)
        decreases i
      {
        i := i - 1;
      }
    }

    method HalveFrequencies()
      requires Allocated()
      modifies sym_freq, sym_cum
      ensures sym_freq[..] == Halve(old(sym_freq[..]))
      ensures IsCumTable(sym_freq[..], sym_cum[..])
    {
      hide Cum, Halve;
      ghost var f, h := sym_freq[..], Halve(sym_freq[..]);
      CumEnd(h);
      var c := 0;
      var i := N_CHAR;
      while i > 0
        invariant 0 <= i <= N_CHAR
        invariant c == Cum(h, i)
        invariant forall k :: 0 <= k <= i ==> sym_freq[k] == f[k]
        invariant forall k :: i < k <= N_CHAR ==> sym_freq[k] == h[k] && sym_cum[k] == Cum(h, k)
      {
        CumDown(h, i);
        HalveAt(f, i);
        sym_cum[i] := c;
        sym_freq[i] := (sym_freq[i] + 1) / 2;
        c := c + sym_freq[i];
        i := i - 1;
      }
      sym_cum[0] := c;
      HalveAt(f, 0);
      assert sym_freq[..] == h;
    }

    method SwapSymbols(i: nat, sym: nat)
      requires Allocated() && 1 <= i < sym <= N_CHAR
      requires IsInverse(char_to_sym[..], sym_to_char[..])
      modifies char_to_sym, sym_to_char
      ensures [0] + sym_to_char[1..] == Swap(old([0] + sym_to_char[1..]), i, sym)
      ensures IsInverse(char_to_sym[..], sym_to_char[..])
    {
      var ch_i, ch_sym := sym_to_char[i], sym_to_char[sym];
      sym_to_char[i] := ch_sym;
      sym_to_char[sym] := ch_i;
      char_to_sym[ch_i] := sym;
      char_to_sym[ch_sym] := i;
    }

    method BumpFrequency(first: nat)
      requires Allocated() && 1 <= first <= N_CHAR
      requires IsCumTable(sym_freq[..], sym_cum[..])
      modifies sym_freq, sym_cum
      ensures sym_freq[..] == old(sym_freq[..])[first := old(sym_freq[first]) + 1]
      ensures IsCumTable(sym_freq[..], sym_cum[..])
    {
      ghost var f := sym_freq[..];
      sym_freq[first] := sym_freq[first] + 1;
      var i := first - 1;
      while i > 0
        invariant 0 <= i < first
        invariant sym_freq[..] == f[first := f[first] + 1]
        invariant forall k :: 0 <= k <= N_CHAR ==>
                                sym_cum[k] == Cum(f, k) + (if i < k < first then 1 else 0)
      {
        sym_cum[i] := sym_cum[i] + 1;
        i := i - 1;
      }
      sym_cum[0] := sym_cum[0] + 1;
      forall k | 0 <= k <= N_CHAR
        ensures sym_cum[k] == Cum(f[first := f[first] + 1], k)
      {
        CumUpdate(f, first, f[first] + 1, k);
      }
    }

    method BinarySearchSym(x: nat) returns (i: nat)
      requires Valid() && x < sym_cum[0]
      ensures 1 <= i <= N_CHAR && sym_cum[i] <= x < sym_cum[i - 1]
    {
      hide WellFormed, IsCumTable, IsInverse, IsPosTable, Cum;
      SymEntries(N_CHAR);
      CumEnd(Abs().freq);
      i := 1;
      var j := N_CHAR;
      while i < j
        invariant 1 <= i <= j <= N_CHAR
        invariant sym_cum[j] <= x < sym_cum[i - 1]
      {
        var k := (i + j) / 2;
        if sym_cum[k] > x { i := k + 1; } else { j := k; }
      }
    }

    method BinarySearchPos(x: nat) returns (r: nat)
      requires Valid() && x < position_cum[0]
      ensures 0 <= r < N && position_cum[r + 1] <= x < position_cum[r]
    {
      hide WellFormed, IsCumTable, IsInverse, PosCum;
      PosEnd();
      var i, j := 1, N;
      while i < j
        invariant 1 <= i <= j <= N
        invariant position_cum[j] <= x < position_cum[i - 1]
      {
        var k := (i + j) / 2;
        if position_cum[k] > x { i := k + 1; } else { j := k; }
      }
      r := i - 1;
    }
  }
}
