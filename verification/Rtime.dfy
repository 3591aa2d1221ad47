/** The RTIME coder: every byte is followed by the length of a run copied from behind
    the previous occurrence of the same byte. */
module Rtime {
  import opened Buffers

  /** A verbatim byte and the run that follows it. */
  datatype Pair = Pair(value: Byte, run: Byte)

  /** The last position behind each byte value, 0 at first. */
  type Positions = p: seq<nat> | |p| == 256 witness seq(256, _ => 0)

  function NowhereYet(): Positions {
    seq(256, _ => 0)
  }

  const SHORT_MAX := 32767
  const WORD := 0x1_0000_0000

  // ---------- meaning of a pair list

  /** Append n bytes, copied from position back on; the source may run into the copy. */
  function CopyRun(out: seq<Byte>, back: nat, n: nat): (r: seq<Byte>)
    requires back < |out|
    ensures |r| == |out| + n && out <= r
  {
    if n == 0 then out
    else
      var o := CopyRun(out, back, n - 1);
      o + [o[back + n - 1]]
  }

  predicate Sensible(out: seq<Byte>, pos: Positions) {
    forall v: Byte :: pos[v] <= |out|
  }

  /** The text after a pair list, from a given text and positions. */
  function Expand(out: seq<Byte>, pos: Positions, ps: seq<Pair>): (r: seq<Byte>)
    requires Sensible(out, pos)
    ensures out <= r && |r| == |out| + Covered(ps)
    decreases |ps|
  {
    if ps == [] then out
    else
      var p := ps[0];
      var o := CopyRun(out + [p.value], pos[p.value], p.run);
      Expand(o, pos[p.value := |out| + 1], ps[1..])
  }

  /** Number of text bytes of a pair list. */
  function Covered(ps: seq<Pair>): nat {
    if ps == [] then 0 else 1 + ps[0].run + Covered(ps[1..])
  }

  /** The compressed form. */
  function Flatten(ps: seq<Pair>): (r: seq<Byte>)
    ensures |r| == 2 * |ps|
  {
    if ps == [] then [] else [ps[0].value, ps[0].run] + Flatten(ps[1..])
  }

  // ---------- the compressor's choice

  /** n bytes at pos repeat those at back. */
  ghost predicate Repeats(src: seq<Byte>, pos: nat, back: nat, n: nat) {
    back < pos && pos + n <= |src| && forall i :: pos <= i < pos + n ==> src[i] == src[i - (pos - back)]
  }

  /** The longest run at pos that repeats the text at back, continuing a run of n bytes. */
  function RunFrom(src: seq<Byte>, pos: nat, back: nat, n: nat): (r: nat)
    requires n <= 255 && Repeats(src, pos, back, n)
    ensures n <= r <= 255 && Repeats(src, pos, back, r)
    ensures r < 255 && pos + r < |src| ==> src[pos + r] != src[back + r]
    decreases 255 - n
  {
    if pos + n < |src| && src[pos + n] == src[back + n] && n < 255 then RunFrom(src, pos, back, n + 1) else n
  }

  /** The pairs for src from pos on, as far as room bytes of output allow. */
  function Choose(src: seq<Byte>, pos: nat, last: Positions, room: int): (ps: seq<Pair>)
    requires pos <= |src| && forall v: Byte :: last[v] <= pos
    ensures pos + Covered(ps) <= |src| && (2 * |ps| <= room || ps == [])
    ensures pos + Covered(ps) == |src| || room - 2 * |ps| < 2
    decreases |src| - pos
  {
    if pos < |src| && room >= 2 then
      var v := src[pos];
      var run := RunFrom(src, pos + 1, last[v], 0);
      [Pair(v, run)] + Choose(src, pos + 1 + run, last[v := pos + 1], room - 2)
    else []
  }

  // ---------- the round trip

  lemma {:induction false} CopyRunMatches(src: seq<Byte>, pos: nat, back: nat, n: nat)
    requires Repeats(src, pos, back, n)
    ensures CopyRun(src[..pos], back, n) == src[..pos + n]
  {
    if n > 0 {
      CopyRunMatches(src, pos, back, n - 1);
      var i := pos + n - 1;
      assert src[..pos + n] == src[..i] + [src[i]];
    }
  }

  lemma ExpandCons(out: seq<Byte>, pos: Positions, p: Pair, ps: seq<Pair>)
    requires Sensible(out, pos)
    ensures Covered([p] + ps) == 1 + p.run + Covered(ps)
    ensures Expand(out, pos, [p] + ps) ==
            Expand(CopyRun(out + [p.value], pos[p.value], p.run), pos[p.value := |out| + 1], ps)
  {
    assert ([p] + ps)[1..] == ps;
  }

  lemma ChooseStep(src: seq<Byte>, pos: nat, last: Positions, room: int)
    requires pos <= |src| && forall v: Byte :: last[v] <= pos
    ensures !(pos < |src| && room >= 2) ==> Choose(src, pos, last, room) == []
    ensures pos < |src| && room >= 2 ==>
              var run := RunFrom(src, pos + 1, last[src[pos]], 0);
              Choose(src, pos, last, room) ==
              [Pair(src[pos], run)] + Choose(src, pos + 1 + run, last[src[pos] := pos + 1], room - 2)
  {
    hide RunFrom, Repeats, Covered;
  }

  /** The chosen pairs expand to exactly the part of the source that they cover. */
  lemma {:induction false} ChooseExpands(src: seq<Byte>, pos: nat, last: Positions, room: int)
    requires pos <= |src| && forall v: Byte :: last[v] <= pos
    ensures var ps := Choose(src, pos, last, room);
            Expand(src[..pos], last, ps) == src[..pos + Covered(ps)]
    decreases |src| - pos
  {
    hide Choose, CopyRun, RunFrom, Expand;
    ChooseStep(src, pos, last, room);
    if pos < |src| && room >= 2 {
      var v := src[pos];
      var run := RunFrom(src, pos + 1, last[v], 0);
      assert src[..pos] + [v] == src[..pos + 1];
      CopyRunMatches(src, pos + 1, last[v], run);
      var rest := Choose(src, pos + 1 + run, last[v := pos + 1], room - 2);
      ExpandCons(src[..pos], last, Pair(v, run), rest);
      ChooseExpands(src, pos + 1 + run, last[v := pos + 1], room - 2);
    } else {
      ExpandNone(src[..pos], last);
    }
  }

  lemma ExpandNone(out: seq<Byte>, pos: Positions)
    requires Sensible(out, pos)
    ensures Expand(out, pos, []) == out && Covered([]) == 0
  {
  }

  // ---------- the procedures

  /** The part of the text that a coder has reached. */
  ghost predicate Chosen(src: seq<Byte>, all: seq<Pair>, k: nat, pos: nat, last: seq<nat>, room: int) {
    && k <= |all| && pos <= |src| && |last| == 256 && (forall v: Byte :: last[v] <= pos)
    && Choose(src, pos, last, room) == all[k..]
    && pos + Covered(all[k..]) == Covered(all)
  }

  lemma ChosenStart(src: seq<Byte>, room: int)
    ensures Chosen(src, Choose(src, 0, NowhereYet(), room), 0, 0, NowhereYet(), room)
  {
    var all := Choose(src, 0, NowhereYet(), room);
    assert all[0..] == all;
  }

  lemma ChosenStep(src: seq<Byte>, all: seq<Pair>, k: nat, pos: nat, last: seq<nat>, room: int, run: nat)
    requires Chosen(src, all, k, pos, last, room) && pos < |src| && room >= 2
    requires run == RunFrom(src, pos + 1, last[src[pos]], 0)
    ensures k < |all| && run <= 255 && all[k] == Pair(src[pos], run)
    ensures Chosen(src, all, k + 1, pos + 1 + run, last[src[pos] := pos + 1], room - 2)
    ensures Flatten(all[..k + 1]) == Flatten(all[..k]) + [src[pos], run]
  {
    hide Choose, RunFrom, Repeats, Covered, Flatten;
    ChooseStep(src, pos, last, room);
    assert all[k..][0] == all[k] && all[k..][1..] == all[k + 1..];
    CoveredCons(all[k..]);
    FlattenSnoc(all, k);
  }

  lemma CoveredCons(ps: seq<Pair>)
    requires ps != []
    ensures Covered(ps) == 1 + ps[0].run + Covered(ps[1..])
  {
  }

  lemma ChosenBounds(src: seq<Byte>, all: seq<Pair>, k: nat, pos: nat, last: seq<nat>, room: int)
    requires Chosen(src, all, k, pos, last, room)
    ensures k <= |all| && pos <= |src| && |last| == 256 && forall v: Byte :: last[v] <= pos
  {
  }

  lemma ChosenEnd(src: seq<Byte>, all: seq<Pair>, k: nat, pos: nat, last: seq<nat>, room: int)
    requires Chosen(src, all, k, pos, last, room) && !(pos < |src| && room >= 2)
    ensures k == |all| && all[..k] == all && pos == Covered(all)
  {
  }

  /** The inner loop: extend the run as far as it goes. */
  method Extend(src: seq<Byte>, start: nat, back: nat) returns (runlen: nat)
    requires back < start <= |src|
    ensures runlen == RunFrom(src, start, back, 0)
  {
    hide RunFrom, Repeats;
    runlen := 0;
    var pos, backpos := start, back;
    RepeatsNone(src, start, back);
    while backpos < pos && pos < |src| && src[pos] == src[backpos] && runlen < 255
      invariant 0 <= runlen <= 255 && pos == start + runlen && backpos == back + runlen
      invariant Repeats(src, start, back, runlen)
      invariant RunFrom(src, start, back, runlen) == RunFrom(src, start, back, 0)
      decreases |src| - pos
    {
      RunMore(src, start, back, runlen);
      backpos := backpos + 1;
      pos := pos + 1;
      runlen := runlen + 1;
    }
    RunMore(src, start, back, runlen);
  }

  lemma RepeatsNone(src: seq<Byte>, pos: nat, back: nat)
    requires back < pos <= |src|
    ensures Repeats(src, pos, back, 0)
  {
  }

  lemma RunMore(src: seq<Byte>, pos: nat, back: nat, n: nat)
    requires n <= 255 && Repeats(src, pos, back, n)
    ensures pos + n <= |src| && back < pos
    ensures var more := pos + n < |src| && src[pos + n] == src[back + n] && n < 255;
            && (more ==> Repeats(src, pos, back, n + 1) && RunFrom(src, pos, back, n) == RunFrom(src, pos, back, n + 1))
            && (!more ==> RunFrom(src, pos, back, n) == n)
  {
  }

  /** The bytes of output that the loop believes it may write: *dstlen - 2 is unsigned, and
      wraps round when there is room for less than a pair. */
  function Budget(dstlen: nat): nat {
    if dstlen >= 2 then dstlen else dstlen + WORD
  }

  function PairsFor(src: seq<Byte>, dstlen: nat): seq<Pair> {
    Choose(src, 0, NowhereYet(), Budget(dstlen))
  }

  lemma BudgetIs(dstlen: nat)
    requires dstlen < WORD
    ensures Budget(dstlen) >= 2 && (dstlen - 2) % WORD == Budget(dstlen) - 2
  {
  }

  /** What is written for a source that is not empty fits the output if and only if there is
      room for a pair. */
  lemma FitsIff(src: seq<Byte>, dstlen: nat)
    requires src != []
    ensures |Flatten(PairsFor(src, dstlen))| <= dstlen <==> dstlen >= 2
  {
    hide RunFrom, Covered, Flatten;
    ChooseStep(src, 0, NowhereYet(), Budget(dstlen));
  }

  /** What an array of short keeps of a position. */
  function Short(pos: nat): int {
    (pos + 0x8000) % 0x10000 - 0x8000
  }

  /** Positions are kept exactly up to SHORT_MAX; the next one is taken to lie before the
      data. */
  lemma ShortKeeps(pos: nat)
    ensures Short(pos) == pos <==> pos <= SHORT_MAX
    ensures Short(SHORT_MAX + 1) == -0x8000
  {
    if pos > SHORT_MAX { assert Short(pos) <= SHORT_MAX; }
  }

  /** Compress as much of src as the output is thought to have room for. out is the memory
      from the output on, of which the first dstlen bytes belong to it. positions[] is an
      array of short, so positions up to SHORT_MAX are held exactly. */
  method Compress(src: seq<Byte>, out: array<Byte>, dstlen: nat) returns (ret: int, sourcelen: nat, written: nat)
    requires |src| <= SHORT_MAX && dstlen < WORD && 2 * |PairsFor(src, dstlen)| <= out.Length
    modifies out
    ensures var ps := PairsFor(src, dstlen);
            && (ret == if 2 * |ps| >= Covered(ps) then -1 else 0)
            && out[..2 * |ps|] == Flatten(ps) && out[2 * |ps|..] == old(out[2 * |ps|..])
            && (ret == 0 ==> sourcelen == Covered(ps) && written == 2 * |ps|)
            && (ret == -1 ==> sourcelen == |src| && written == dstlen)
  {
    hide Choose, RunFrom, Repeats, Flatten, Covered, Chosen, Budget, Short;
    BudgetIs(dstlen);
    ghost var room := Budget(dstlen);
    ghost var ps := Choose(src, 0, NowhereYet(), room);
    var positions := new nat[256](_ => 0);
    var outpos, pos := 0, 0;
    ChosenStart(src, room);
    assert positions[..] == NowhereYet() && ps[..0] == [];
    FlattenNone();
    ghost var k := 0;
    while pos < |src| && outpos <= (dstlen - 2) % WORD
      invariant Chosen(src, ps, k, pos, positions[..], room - outpos) && outpos == 2 * k && k <= |ps|
      invariant out[..outpos] == Flatten(ps[..k]) 
      invariant forall i :: outpos <= i < out.Length ==> out[i] == old(out[i])
      invariant pos <= |src| && k <= |ps|
      decreases |src| - pos
    {
      ghost var last := positions[..];
      ChosenBounds(src, ps, k, pos, last, room - outpos);
      ChosenMore(src, ps, k, pos, last, room - outpos);
      var value := src[pos];
      var backpos := positions[value];
      assert backpos == last[value];
      ghost var text := out[..outpos];
      out[outpos] := src[pos];
      outpos, pos := outpos + 1, pos + 1;
      ShortKeeps(pos);
      positions[value] := Short(pos);
      var runlen := Extend(src, pos, backpos);
      ChosenStep(src, ps, k, pos - 1, last, room - (outpos - 1), runlen);
      pos := pos + runlen;
      out[outpos] := runlen;
      outpos := outpos + 1;
      assert out[..outpos] == text + [value, runlen];
      assert positions[..] == last[value := pos - runlen];
      k := k + 1;
      ChosenBounds(src, ps, k, pos, positions[..], room - outpos);
    }
    ChosenEnd(src, ps, k, pos, positions[..], room - outpos);
    if outpos >= pos {
      return -1, |src|, dstlen;
    }
    return 0, pos, outpos;
  }

  lemma ChosenMore(src: seq<Byte>, all: seq<Pair>, k: nat, pos: nat, last: seq<nat>, room: int)
    requires Chosen(src, all, k, pos, last, room) && pos < |src| && room >= 2
    ensures k < |all|
  {
    hide RunFrom, Covered;
    ChooseStep(src, pos, last, room);
  }

  lemma FlattenNone()
    ensures Flatten([]) == []
  {
  }

  lemma {:induction false} FlattenSnoc(ps: seq<Pair>, k: nat)
    requires k < |ps|
    ensures Flatten(ps[..k + 1]) == Flatten(ps[..k]) + [ps[k].value, ps[k].run]
  {
    if k == 0 {
      assert ps[..1] == [ps[0]];
    } else {
      FlattenSnoc(ps[1..], k - 1);
      assert ps[..k + 1][1..] == ps[1..][..k];
      assert ps[..k][1..] == ps[1..][..k - 1];
    }
  }

  // ---------- decompression

  /** What the decompressor relies on: the pairs are all there, and their text fits. */
  ghost predicate Decodable(data: seq<Byte>, ps: seq<Pair>, destlen: nat, size: nat) {
    && Flatten(ps) <= data
    && destlen <= Covered(ps) <= size
    && (ps != [] ==> Covered(ps[..|ps| - 1]) < destlen)
  }

  /** How many bytes are written, when o have been written before and rest is not yet read;
      None if the input is read past its end. */
  function Demand(rest: seq<Byte>, o: nat, destlen: nat): Option<nat> {
    if o >= destlen then Some(o)
    else if |rest| < 2 then None
    else Demand(rest[2..], o + 1 + rest[1], destlen)
  }

  /** rest begins with the pairs ps, and they are just enough. */
  ghost predicate Suffice(rest: seq<Byte>, o: nat, ps: seq<Pair>, destlen: nat) {
    && Flatten(ps) <= rest && destlen <= o + Covered(ps)
    && (ps != [] ==> o + Covered(ps[..|ps| - 1]) < destlen)
  }

  lemma {:induction false} DemandMet(rest: seq<Byte>, o: nat, destlen: nat) returns (ps: seq<Pair>)
    requires Demand(rest, o, destlen).Some?
    ensures Suffice(rest, o, ps, destlen) && Demand(rest, o, destlen) == Some(o + Covered(ps))
    decreases |rest|
  {
    if o >= destlen {
      ps := [];
    } else {
      var p := Pair(rest[0], rest[1]);
      var qs := DemandMet(rest[2..], o + 1 + rest[1], destlen);
      ps := [p] + qs;
      FrontCovered(p, qs);
      assert rest == [rest[0], rest[1]] + rest[2..];
    }
  }

  lemma {:induction false} DemandIs(rest: seq<Byte>, o: nat, ps: seq<Pair>, destlen: nat)
    requires Suffice(rest, o, ps, destlen)
    ensures Demand(rest, o, destlen) == Some(o + Covered(ps))
    decreases |ps|
  {
    if ps != [] {
      var p, qs := ps[0], ps[1..];
      assert ps == [p] + qs;
      FrontCovered(p, qs);
      assert Flatten(ps)[2..] == Flatten(qs) && rest[..2] == [p.value, p.run];
      DemandIs(rest[2..], o + 1 + p.run, qs, destlen);
    }
  }

  lemma FrontCovered(p: Pair, qs: seq<Pair>)
    ensures var ps := [p] + qs;
            && ps[1..] == qs && Covered(ps) == 1 + p.run + Covered(qs) && Flatten(ps) == [p.value, p.run] + Flatten(qs)
            && Covered(ps[..|ps| - 1]) == if qs == [] then 0 else 1 + p.run + Covered(qs[..|qs| - 1])
  {
    var ps := [p] + qs;
    assert ps[1..] == qs;
    if qs != [] { assert ps[..|ps| - 1] == [p] + qs[..|qs| - 1] && ([p] + qs[..|qs| - 1])[1..] == qs[..|qs| - 1]; }
  }

  /** The decompressor, which tests neither, stays inside input and output if and only if
      these are pairs that it can rely on. */
  lemma DecodableIff(data: seq<Byte>, destlen: nat, size: nat)
    ensures (exists ps :: Decodable(data, ps, destlen, size)) <==> Demand(data, 0, destlen).Some? && Demand(data, 0, destlen).value <= size
  {
    hide Flatten, Covered;
    if Demand(data, 0, destlen).Some? && Demand(data, 0, destlen).value <= size {
      var ps := DemandMet(data, 0, destlen);
      assert Decodable(data, ps, destlen, size);
    }
    forall ps | Decodable(data, ps, destlen, size) ensures Demand(data, 0, destlen) == Some(Covered(ps)) {
      DemandIs(data, 0, ps, destlen);
    }
  }

  lemma {:induction false} CoveredSplit(ps: seq<Pair>, k: nat)
    requires k <= |ps|
    ensures Covered(ps) == Covered(ps[..k]) + Covered(ps[k..])
  {
    if k == 0 {
      assert ps[0..] == ps;
    } else {
      CoveredSplit(ps[1..], k - 1);
      assert ps[..k][1..] == ps[1..][..k - 1];
      assert ps[k..] == ps[1..][k - 1..];
    }
  }

  lemma {:induction false} FlattenAt(ps: seq<Pair>, k: nat)
    requires k < |ps|
    ensures Flatten(ps)[2 * k] == ps[k].value && Flatten(ps)[2 * k + 1] == ps[k].run
  {
    if k > 0 {
      FlattenAt(ps[1..], k - 1);
    }
  }

  /** Copy a run inside the output: byte by byte when it may overlap, else in one go. */
  method CopyBack(out: array<Byte>, outpos0: nat, backoffs0: nat, repeat0: Byte) returns (outpos: nat)
    requires backoffs0 < outpos0 && outpos0 + repeat0 <= out.Length
    modifies out
    ensures outpos == outpos0 + repeat0
    ensures out[..outpos] == CopyRun(old(out[..outpos0]), backoffs0, repeat0)
  {
    ghost var text := out[..outpos0];
    outpos := outpos0;
    if repeat0 != 0 {
      if backoffs0 + repeat0 >= outpos0 {
        var backoffs, repeat := backoffs0, repeat0;
        while repeat != 0
          invariant 0 <= repeat <= repeat0
          invariant outpos == outpos0 + (repeat0 - repeat) && backoffs == backoffs0 + (repeat0 - repeat)
          invariant out[..outpos] == CopyRun(text, backoffs0, repeat0 - repeat)
        {
          ghost var before := out[..outpos];
          out[outpos] := out[backoffs];
          assert out[..outpos + 1] == before + [before[backoffs]];
          outpos, backoffs := outpos + 1, backoffs + 1;
          repeat := repeat - 1;
        }
      } else {
        CopyApart(text, backoffs0, repeat0);
        forall i | 0 <= i < repeat0 {
          out[outpos0 + i] := out[backoffs0 + i];
        }
        outpos := outpos0 + repeat0;
        assert out[..outpos] == text + text[backoffs0..backoffs0 + repeat0];
      }
    }
  }

  /** A run that ends before the text does is a plain copy. */
  lemma {:induction false} CopyApart(out: seq<Byte>, back: nat, n: nat)
    requires back + n <= |out| && back < |out|
    ensures CopyRun(out, back, n) == out + out[back..back + n]
  {
    if n > 0 {
      CopyApart(out, back, n - 1);
      assert out[back..back + n] == out[back..back + n - 1] + [out[back + n - 1]];
    }
  }

  lemma {:induction false} ExpandSnoc(out: seq<Byte>, pos: Positions, ps: seq<Pair>, k: nat)
    requires Sensible(out, pos) && k < |ps|
    ensures Sensible(Expand(out, pos, ps[..k]), LastOf(out, pos, ps[..k]))
    ensures var t, last := Expand(out, pos, ps[..k]), LastOf(out, pos, ps[..k]);
            && Expand(out, pos, ps[..k + 1]) == CopyRun(t + [ps[k].value], last[ps[k].value], ps[k].run)
            && LastOf(out, pos, ps[..k + 1]) == last[ps[k].value := |t| + 1]
    decreases k
  {
    hide CopyRun, Covered;
    if k == 0 {
      assert ps[..1] == [ps[0]] && ps[..0] == [];
    } else {
      var p := ps[0];
      var o := CopyRun(out + [p.value], pos[p.value], p.run);
      ExpandSnoc(o, pos[p.value := |out| + 1], ps[1..], k - 1);
      assert ps[..k + 1][1..] == ps[1..][..k];
      assert ps[..k][1..] == ps[1..][..k - 1];
    }
  }

  /** The positions after a pair list. */
  function LastOf(out: seq<Byte>, pos: Positions, ps: seq<Pair>): (last: Positions)
    requires Sensible(out, pos)
    decreases |ps|
  {
    if ps == [] then pos
    else
      var p := ps[0];
      var o := CopyRun(out + [p.value], pos[p.value], p.run);
      LastOf(o, pos[p.value := |out| + 1], ps[1..])
  }

  method Decompress(data: seq<Byte>, out: array<Byte>, destlen: nat, ghost ps: seq<Pair>) returns (ret: int, used: nat)
    requires Decodable(data, ps, destlen, out.Length) && out.Length <= SHORT_MAX
    modifies out
    ensures ret == 0 && used == 2 * |ps|
    ensures out[..Covered(ps)] == Expand([], NowhereYet(), ps)
  {
    hide Expand, LastOf, Flatten, Covered;
    var positions := new nat[256](_ => 0);
    var outpos, pos := 0, 0;
    assert positions[..] == NowhereYet() && ps[..0] == [];
    ghost var k := 0;
    DecodeStart();
    while outpos < destlen
      invariant 0 <= k <= |ps| && pos == 2 * k
      invariant outpos == Covered(ps[..k]) <= out.Length
      invariant out[..outpos] == Expand([], NowhereYet(), ps[..k])
      invariant positions[..] == LastOf([], NowhereYet(), ps[..k])
      decreases |ps| - k
    {
      DecodeMore(data, ps, destlen, out.Length, k);
      ExpandSnoc([], NowhereYet(), ps, k);
      ghost var text, last: seq<nat> := out[..outpos], positions[..];
      var value := data[pos];
      pos := pos + 1;
      out[outpos] := value;
      outpos := outpos + 1;
      var repeat := data[pos];
      pos := pos + 1;
      var backoffs := positions[value];
      ShortKeeps(outpos);
      positions[value] := Short(outpos);
      assert out[..outpos] == text + [value];
      assert positions[..] == last[value := |text| + 1];
      outpos := CopyBack(out, outpos, backoffs, repeat);
      k := k + 1;
    }
    DecodeEnd(ps, destlen, k);
    ret, used := 0, pos;
  }

  lemma DecodeStart()
    ensures Covered([]) == 0 && Expand([], NowhereYet(), []) == [] && LastOf([], NowhereYet(), []) == NowhereYet()
  {
  }

  lemma DecodeMore(data: seq<Byte>, ps: seq<Pair>, destlen: nat, size: nat, k: nat)
    requires Decodable(data, ps, destlen, size) && k <= |ps| && Covered(ps[..k]) < destlen
    ensures k < |ps| && 2 * k + 1 < |data| && data[2 * k] == ps[k].value && data[2 * k + 1] == ps[k].run
    ensures Covered(ps[..k + 1]) == Covered(ps[..k]) + 1 + ps[k].run <= size
  {
    assert ps[..|ps|] == ps;
    FlattenAt(ps, k);
    CoveredSplit(ps[..k + 1], k);
    assert ps[..k + 1][..k] == ps[..k] && ps[..k + 1][k..] == [ps[k]];
    assert [ps[k]][1..] == [];
    CoveredSplit(ps, k + 1);
  }

  lemma DecodeEnd(ps: seq<Pair>, destlen: nat, k: nat)
    requires k <= |ps| && destlen <= Covered(ps[..k])
    requires ps != [] ==> Covered(ps[..|ps| - 1]) < destlen
    ensures ps[..k] == ps && k == |ps|
  {
    assert ps[..|ps|] == ps;
    if k < |ps| { CoveredGrows(ps, k); }
  }

  lemma CoveredGrows(ps: seq<Pair>, k: nat)
    requires k < |ps|
    ensures Covered(ps[..k]) <= Covered(ps[..|ps| - 1])
  {
    CoveredSplit(ps[..|ps| - 1], k);
    assert ps[..|ps| - 1][..k] == ps[..k];
  }

  // ---------- the promise

  /** What the compressor writes with success is shorter than what it covers, fits the
      space given, is decodable for exactly the covered length, and expands to it. */
  lemma RoundTripPairs(src: seq<Byte>, dstlen: nat)
    requires 2 <= dstlen
    ensures var ps := Choose(src, 0, NowhereYet(), dstlen);
            && |Flatten(ps)| <= dstlen
            && Covered(ps) <= |src|
            && Decodable(Flatten(ps), ps, Covered(ps), Covered(ps))
            && Expand([], NowhereYet(), ps) == src[..Covered(ps)]
  {
    hide Choose, Expand, Covered;
    var ps := Choose(src, 0, NowhereYet(), dstlen);
    ChooseExpands(src, 0, NowhereYet(), dstlen);
    assert src[..0] == [];
    if ps != [] {
      CoveredSplit(ps, |ps| - 1);
      CoveredLast(ps[|ps| - 1..]);
    }
  }

  lemma CoveredLast(ps: seq<Pair>)
    requires |ps| == 1
    ensures Covered(ps) >= 1
  {
  }

  lemma RoundTripFits(src: seq<Byte>, dstlen: nat)
    requires dstlen >= 2
    ensures 2 * |PairsFor(src, dstlen)| <= dstlen
  {
  }

  method RoundTrip(src: seq<Byte>, packed: array<Byte>) returns (ret: int, out: array<Byte>, used: nat, written: nat)
    requires |src| <= SHORT_MAX && 2 <= packed.Length < WORD
    modifies packed
    ensures ret == 0 ==> used == written < out.Length <= |src| && out[..] == src[..out.Length]
  {
    hide Choose, Expand, Covered, Flatten, Decodable;
    var n;
    RoundTripFits(src, packed.Length);
    ret, n, written := Compress(src, packed, packed.Length);
    RoundTripPairs(src, packed.Length);
    assert Budget(packed.Length) == packed.Length;
    ghost var ps := Choose(src, 0, NowhereYet(), packed.Length);
    out, used := new Byte[0], 0;
    if ret == 0 {
      out := new Byte[n];
      var r;
      r, used := Decompress(packed[..written], out, n, ps);
      assert out[..] == out[..n];
    }
  }
}
