/** The answer to reset of a smart card, section 8.2 of ISO/IEC 7816-3: a parser that fills a
    record and a printer that writes it out again. */
module Atr {
  import opened Buffers

  const MAX_SIZE := 33
  const MAX_HISTORICAL := 15
  const MAX_PROTOCOLS := 7

  const OK := 0
  const MALFORMED := 2

  const FS_TABLE: seq<nat> :=
    [3570000, 5000000, 6000000, 8000000, 12000000, 16000000, 20000000, 0, 0, 5000000, 7500000, 10000000, 15000000, 20000000, 0, 0]
  const NUM_IB_TABLE: seq<nat> := [0, 1, 1, 2, 1, 2, 2, 3, 1, 2, 2, 3, 2, 3, 3, 4]

  // ---------- what an answer is

  /** TAi, TBi, TCi and TDi. */
  datatype Group = Group(ta: Option<Byte>, tb: Option<Byte>, tc: Option<Byte>, td: Option<Byte>)

  datatype Answer = Answer(ts: Byte, t0: Byte, groups: seq<Group>, hist: seq<Byte>, tck: Option<Byte>)

  predicate Bit(t: Byte, weight: nat)
    requires weight > 0
  {
    t / weight % 2 == 1
  }

  /** T0 or the TD byte before it announces which bytes a group has. */
  predicate Announced(t: Byte, g: Group) {
    && (g.ta.Some? <==> Bit(t, 16)) && (g.tb.Some? <==> Bit(t, 32))
    && (g.tc.Some? <==> Bit(t, 64)) && (g.td.Some? <==> Bit(t, 128))
  }

  /** Every group but the last has a TD byte, which announces the next. */
  predicate Chained(t: Byte, gs: seq<Group>)
    decreases |gs|
  {
    && gs != [] && Announced(t, gs[0])
    && if gs[0].td.Some? then Chained(gs[0].td.value, gs[1..]) else |gs| == 1
  }

  /** The last TD byte names a protocol other than T=0. */
  predicate NeedsCheck(gs: seq<Group>) {
    |gs| >= 2 && gs[|gs| - 2].td.Some? && gs[|gs| - 2].td.value % 16 != 0
  }

  predicate WellFormed(a: Answer) {
    Chained(a.t0, a.groups) && |a.hist| == a.t0 % 16 && (a.tck.Some? <==> NeedsCheck(a.groups))
  }

  function One(o: Option<Byte>): seq<Byte> {
    if o.Some? then [o.value] else []
  }

  function GroupBytes(g: Group): seq<Byte> {
    One(g.ta) + One(g.tb) + One(g.tc) + One(g.td)
  }

  function GroupsBytes(gs: seq<Group>): seq<Byte> {
    if gs == [] then [] else GroupBytes(gs[0]) + GroupsBytes(gs[1..])
  }

  function Print(a: Answer): seq<Byte> {
    [a.ts, a.t0] + GroupsBytes(a.groups) + a.hist + One(a.tck)
  }

  /** The values that the parser looks at, when there is no TD byte. */
  predicate Acceptable(a: Answer) {
    |a.groups| == 1 ==>
      && (a.groups[0].ta.Some? ==> FS_TABLE[a.groups[0].ta.value / 16] != 0)
      && (a.groups[0].tb.Some? ==> a.groups[0].tb.value <= 0x80)
  }

  /** A card of the inverse convention sends every byte backwards and complemented. */
  function Inverted(x: Byte): Byte {
    255 - (x % 2 * 128 + x / 2 % 2 * 64 + x / 4 % 2 * 32 + x / 8 % 2 * 16
           + x / 16 % 2 * 8 + x / 32 % 2 * 4 + x / 64 % 2 * 2 + x / 128 % 2)
  }

  function Decoded(s: seq<Byte>): (r: seq<Byte>)
    ensures |r| == |s|
  {
    if s != [] && s[0] == 0x03 then seq(|s|, i requires 0 <= i < |s| => Inverted(s[i])) else s
  }

  /** The first byte of an inverse card becomes the one that stands for it. */
  lemma InverseTs(s: seq<Byte>)
    requires s != [] && s[0] == 0x03
    ensures Decoded(s)[0] == 0x3F
  {
    assert Inverted(0x03) == 0x3F;
  }

  // ---------- parsing as a function

  function NumIb(t: Byte): nat {
    NUM_IB_TABLE[t / 16]
  }

  lemma NumIbCounts(t: Byte)
    ensures NumIb(t) == (if Bit(t, 16) then 1 else 0) + (if Bit(t, 32) then 1 else 0)
                        + (if Bit(t, 64) then 1 else 0) + (if Bit(t, 128) then 1 else 0)
  {
    var h := t / 16;
    assert t / 32 == h / 2 && t / 64 == h / 4 && t / 128 == h / 8;
    assert h in {0, 1, 2, 3, 4, 5, 6, 7, 8, 9, 10, 11, 12, 13, 14, 15};
  }

  function Pick(there: bool, s: seq<Byte>, i: nat): Option<Byte> {
    if there && i < |s| then Some(s[i]) else None
  }

  /** The group that t announces at the beginning of s. */
  function TakeGroup(t: Byte, s: seq<Byte>): Group {
    var b := if Bit(t, 16) then 1 else 0;
    var c := b + if Bit(t, 32) then 1 else 0;
    var d := c + if Bit(t, 64) then 1 else 0;
    Group(Pick(Bit(t, 16), s, 0), Pick(Bit(t, 32), s, b), Pick(Bit(t, 64), s, c), Pick(Bit(t, 128), s, d))
  }

  lemma TakeGroupIs(t: Byte, s: seq<Byte>)
    requires NumIb(t) <= |s|
    ensures Announced(t, TakeGroup(t, s)) && GroupBytes(TakeGroup(t, s)) == s[..NumIb(t)]
  {
    NumIbCounts(t);
  }

  lemma GroupUnique(t: Byte, g: Group, s: seq<Byte>)
    requires Announced(t, g) && GroupBytes(g) <= s
    ensures |GroupBytes(g)| == NumIb(t) <= |s| && g == TakeGroup(t, s)
  {
    NumIbCounts(t);
    var b := GroupBytes(g);
    assert forall i :: 0 <= i < |b| ==> b[i] == s[i];
  }

  function ParseGroups(t: Byte, s: seq<Byte>): Option<seq<Group>>
    decreases |s|
  {
    if NumIb(t) > |s| then None
    else
      var g := TakeGroup(t, s);
      NumIbCounts(t);
      if g.td.None? then Some([g])
      else
        var rest := ParseGroups(g.td.value, s[NumIb(t)..]);
        if rest.None? then None else Some([g] + rest.value)
  }

  /** The groups found are announced and there. */
  lemma {:induction false} ParseGroupsSound(t: Byte, s: seq<Byte>)
    requires ParseGroups(t, s).Some?
    ensures var gs := ParseGroups(t, s).value; Chained(t, gs) && GroupsBytes(gs) <= s
    decreases |s|
  {
    hide TakeGroup, GroupBytes, NumIb, Bit;
    TakeGroupIs(t, s);
    var g, rest := TakeGroup(t, s), s[NumIb(t)..];
    Whole(s, NumIb(t));
    if g.td.Some? {
      Shorter(t);
      ParseGroupsSound(g.td.value, rest);
      var gs := ParseGroups(g.td.value, rest).value;
      assert ([g] + gs)[1..] == gs;
    } else {
      assert [g][1..] == [];
      NothingMore(GroupBytes(g));
    }
  }

  /** Groups that are announced and there are found. */
  lemma {:induction false} ParseGroupsComplete(t: Byte, s: seq<Byte>, gs: seq<Group>)
    requires Chained(t, gs) && GroupsBytes(gs) <= s
    ensures ParseGroups(t, s) == Some(gs)
    decreases |s|
  {
    hide TakeGroup, GroupBytes, NumIb, Bit;
    FirstGroup(t, s, gs);
    TakeGroupIs(t, s);
    var g, rest := gs[0], s[NumIb(t)..];
    Whole(s, NumIb(t));
    if g.td.Some? {
      Shorter(t);
      AfterGroup(s, gs, NumIb(t));
      ParseGroupsComplete(g.td.value, rest, gs[1..]);
      assert gs == [g] + gs[1..];
    } else {
      assert gs == [g];
    }
  }

  lemma AfterGroup(s: seq<Byte>, gs: seq<Group>, n: nat)
    requires gs != [] && GroupsBytes(gs) <= s && n <= |s| && GroupBytes(gs[0]) == s[..n]
    ensures GroupsBytes(gs[1..]) <= s[n..]
  {
    hide GroupBytes;
    var rest := GroupsBytes(gs[1..]);
    assert GroupsBytes(gs)[n..] == rest;
    assert GroupsBytes(gs) == s[..n + |rest|];
  }

  lemma FirstGroup(t: Byte, s: seq<Byte>, gs: seq<Group>)
    requires Chained(t, gs) && GroupsBytes(gs) <= s
    ensures NumIb(t) <= |s| && gs[0] == TakeGroup(t, s)
  {
    assert GroupBytes(gs[0]) <= s;
    GroupUnique(t, gs[0], s);
  }

  lemma Shorter(t: Byte)
    ensures Bit(t, 128) ==> NumIb(t) > 0
  {
    NumIbCounts(t);
  }

  /** The answer at the beginning of s. */
  function Parse(s: seq<Byte>): Option<Answer> {
    if |s| < 2 then None
    else
      var gs := ParseGroups(s[1], s[2..]);
      if gs.None? then None
      else
        var h := 2 + |GroupsBytes(gs.value)|;
        var n: nat := s[1] % 16;
        if h + n > |s| then None
        else if !NeedsCheck(gs.value) then Some(Answer(s[0], s[1], gs.value, s[h..h + n], None))
        else if h + n + 1 > |s| then None
        else Some(Answer(s[0], s[1], gs.value, s[h..h + n], Some(s[h + n])))
  }

  /** Parsing finds the one well-formed answer whose print s begins with. */
  lemma ParseIff(s: seq<Byte>, a: Answer)
    ensures Parse(s) == Some(a) <==> WellFormed(a) && Print(a) <= s
  {
    if Parse(s) == Some(a) { ParseSound(s); }
    if WellFormed(a) && Print(a) <= s { ParseComplete(s, a); }
  }

  lemma ParseSound(s: seq<Byte>)
    requires Parse(s).Some?
    ensures WellFormed(Parse(s).value) && Print(Parse(s).value) <= s
  {
    hide Chained, GroupsBytes, ParseGroups, NeedsCheck;
    ParseGroupsSound(s[1], s[2..]);
    var a := Parse(s).value;
    var h, n := 2 + |GroupsBytes(a.groups)|, |a.hist|;
    assert GroupsBytes(a.groups) == s[2..][..h - 2] == s[2..h];
    assert [a.ts, a.t0] == s[..2] && a.hist == s[h..h + n];
    assert s[..2] + s[2..h] + s[h..h + n] == s[..h + n];
    if a.tck.Some? { assert s[..h + n] + [s[h + n]] == s[..h + n + 1]; } else { NothingMore(s[..h + n]); }
  }

  lemma ParseComplete(s: seq<Byte>, a: Answer)
    requires WellFormed(a) && Print(a) <= s
    ensures Parse(s) == Some(a)
  {
    hide Chained, GroupsBytes, ParseGroups, NeedsCheck;
    var g := GroupsBytes(a.groups);
    var h, n := 2 + |g|, |a.hist|;
    var p := Print(a);
    assert p == s[..|p|];
    assert s[0] == p[0] == a.ts && s[1] == p[1] == a.t0;
    assert s[2..][..|g|] == p[2..h] == g;
    ParseGroupsComplete(s[1], s[2..], a.groups);
    assert s[h..h + n] == p[h..h + n] == a.hist;
    if a.tck.Some? { assert s[h + n] == p[h + n] == a.tck.value; }
  }

  /** Printing and parsing undo each other. */
  lemma ParsePrint(a: Answer)
    requires WellFormed(a)
    ensures Parse(Print(a)) == Some(a)
  {
    hide WellFormed, Print, Parse;
    ParseIff(Print(a), a);
  }

  // ---------- the record

  /** How many groups the parser comes to, starting behind t. */
  function Levels(t: Byte, s: seq<Byte>): nat
    decreases |s|
  {
    if NumIb(t) > |s| then 0
    else
      var g := TakeGroup(t, s);
      NumIbCounts(t);
      1 + if g.td.Some? then Levels(g.td.value, s[NumIb(t)..]) else 0
  }

  /** The rows that the parser writes, of the record and of what lies behind it. */
  function RowsWritten(buffer: seq<Byte>): nat {
    if |buffer| < 2 then 0
    else
      var levels := Levels(buffer[1], buffer[2..]);
      if levels <= MAX_PROTOCOLS then levels else MAX_PROTOCOLS + 1
  }

  lemma RowsBound(buffer: seq<Byte>)
    ensures RowsWritten(buffer) <= MAX_PROTOCOLS + 1
    ensures RowsWritten(buffer) <= MAX_PROTOCOLS <==> (|buffer| >= 2 ==> Levels(buffer[1], buffer[2..]) <= MAX_PROTOCOLS)
  {
  }

  function Join(gs: seq<Group>, more: Option<seq<Group>>): Option<seq<Group>> {
    if more.None? then None else Some(gs + more.value)
  }

  lemma ParseGroupsStep(t0: Byte, body: seq<Byte>, gs: seq<Group>, t: Byte, s: seq<Byte>)
    requires ParseGroups(t0, body) == Join(gs, ParseGroups(t, s)) && NumIb(t) <= |s|
    ensures var g := TakeGroup(t, s);
            if g.td.Some? then ParseGroups(t0, body) == Join(gs + [g], ParseGroups(g.td.value, s[NumIb(t)..]))
            else ParseGroups(t0, body) == Some(gs + [g])
  {
    hide TakeGroup, NumIb;
    var g := TakeGroup(t, s);
    if g.td.Some? {
      var more := ParseGroups(g.td.value, s[NumIb(t)..]);
      if more.Some? { Regroup(gs, [g], more.value); }
    }
  }

  class Record {
    var length: nat
    var ts: Byte
    var t0: Byte
    const ib: array2<Option<Byte>>   // the last row stands for what lies behind the rows of the record
    var tck: Option<Byte>
    var pn: nat
    const hb: array<Byte>
    var hbn: nat

    constructor ()
      ensures fresh(ib) && fresh(hb) && Allocated()
    {
      length, ts, t0, tck, pn, hbn := 0, 0, 0, None, 0, 0;
      ib := new Option<Byte>[MAX_PROTOCOLS + 1, 4]((i, j) => None);
      hb := new Byte[MAX_HISTORICAL];
    }

    ghost predicate Allocated() {
      ib.Length0 == MAX_PROTOCOLS + 1 && ib.Length1 == 4 && hb.Length == MAX_HISTORICAL
    }

    function GroupAt(i: nat): Group
      requires ib.Length0 == MAX_PROTOCOLS + 1 && ib.Length1 == 4 && i <= MAX_PROTOCOLS
      reads ib
    {
      Group(ib[i, 0], ib[i, 1], ib[i, 2], ib[i, 3])
    }

    function Groups(n: nat): (gs: seq<Group>)
      requires ib.Length0 == MAX_PROTOCOLS + 1 && ib.Length1 == 4 && n <= MAX_PROTOCOLS + 1
      reads ib
      ensures |gs| == n && forall i :: 0 <= i < n ==> gs[i] == GroupAt(i)
    {
      seq(n, i requires 0 <= i < n reads ib => GroupAt(i))
    }

    /** What the record stands for. */
    ghost function Value(): Answer
      requires Allocated() && pn <= MAX_PROTOCOLS && hbn <= MAX_HISTORICAL
      reads this, ib, hb
    {
      Answer(ts, t0, Groups(pn), hb[..hbn], tck)
    }

    /** One interface byte, if it is there. */
    method Interface(there: bool, k: nat, i: nat, buffer: seq<Byte>, pointer: nat) returns (pointer': nat)
      requires Allocated() && k <= MAX_PROTOCOLS && i < 4 && pointer + (if there then 1 else 0) < |buffer|
      modifies ib
      ensures pointer' == pointer + if there then 1 else 0
      ensures ib[k, i] == if there then Some(buffer[pointer + 1]) else None
      ensures forall x, y :: 0 <= x <= MAX_PROTOCOLS && 0 <= y < 4 && (x != k || y != i) ==> ib[x, y] == old(ib[x, y])
    {
      pointer' := pointer;
      if there {
        pointer' := pointer' + 1;
        ib[k, i] := Some(buffer[pointer']);
      } else {
        ib[k, i] := None;
      }
    }

    /** The interface bytes that t announces. */
    method Interfaces(t: Byte, k: nat, buffer: seq<Byte>, pointer: nat) returns (pointer': nat)
      requires Allocated() && k <= MAX_PROTOCOLS && pointer + NumIb(t) < |buffer|
      modifies ib
      ensures pointer' == pointer + NumIb(t) && GroupAt(k) == TakeGroup(t, buffer[pointer + 1..])
      ensures Groups(k) == old(Groups(k)) && forall x, y :: k < x <= MAX_PROTOCOLS && 0 <= y < 4 ==> ib[x, y] == old(ib[x, y])
    {
      NumIbCounts(t);
      hide NumIb, Bit;
      pointer' := Interface(Bit(t, 16), k, 0, buffer, pointer);
      pointer' := Interface(Bit(t, 32), k, 1, buffer, pointer');
      pointer' := Interface(Bit(t, 64), k, 2, buffer, pointer');
      pointer' := Interface(Bit(t, 128), k, 3, buffer, pointer');
    }

    /** The loop over the groups, up to pointer; n rows are written. The test of n comes
        before it is counted up, and lets one row too many be written. */
    method ReadGroups(buffer: seq<Byte>) returns (ok: bool, n: nat, pointer: nat, present: bool)
      requires Allocated() && |buffer| >= 2
      modifies ib
      ensures n == RowsWritten(buffer)
      ensures forall x, y :: n <= x <= MAX_PROTOCOLS && 0 <= y < 4 ==> ib[x, y] == old(ib[x, y])
      ensures n <= MAX_PROTOCOLS && ok ==> ParseGroups(buffer[1], buffer[2..]) == Some(Groups(n))
      ensures ok ==> pointer == 1 + |GroupsBytes(Groups(n))| < |buffer| && present == NeedsCheck(Groups(n))
      ensures n <= MAX_PROTOCOLS && !ok ==> ParseGroups(buffer[1], buffer[2..]) == None
    {
      hide Reading, NumIb, TakeGroup, Bit, ParseGroups, GroupsBytes, NeedsCheck, Levels;
      var tdi := buffer[1];
      n, pointer, present, ok := 0, 1, false, true;
      ReadingStart(buffer);
      while pointer < |buffer|
        invariant pointer < |buffer| && n <= MAX_PROTOCOLS && ok
        invariant Reading(buffer, Groups(n), tdi, pointer, present)
        invariant forall x, y :: n <= x <= MAX_PROTOCOLS && 0 <= y < 4 ==> ib[x, y] == old(ib[x, y])
        decreases |buffer| - pointer
      {
        ghost var gs := Groups(n);
        if pointer + NumIb(tdi) >= |buffer| {
          ReadingFails(buffer, gs, tdi, pointer, present);
          ok := false;
          break;
        }
        ReadingStep(buffer, gs, tdi, pointer, present);
        pointer := Interfaces(tdi, n, buffer, pointer);
        n := n + 1;
        assert Groups(n) == gs + [GroupAt(n - 1)];
        if ib[n - 1, 3].None? {
          break;
        }
        tdi := ib[n - 1, 3].value;
        present := tdi % 16 != 0;
        if n - 1 >= MAX_PROTOCOLS {
          ReadingLevels(buffer, Groups(n), tdi, pointer, present);
          ok := false;
          break;
        }
      }
    }

    /** ATR_InitFromArray. It stays inside the record if and only if there are at most
        MAX_PROTOCOLS levels; then it succeeds exactly when the bytes begin with the print of
        a well-formed answer of acceptable values, and stores that answer. */
    method InitFromArray(atr_buffer: seq<Byte>) returns (ret: int, ghost rows: nat)
      requires Allocated() && |atr_buffer| <= MAX_SIZE
      modifies this, ib, hb
      ensures rows == RowsWritten(Decoded(atr_buffer))
      ensures forall x, y :: rows <= x <= MAX_PROTOCOLS && 0 <= y < 4 ==> ib[x, y] == old(ib[x, y])
      ensures ret == OK || ret == MALFORMED
      ensures ret == OK ==> pn == rows
      ensures rows <= MAX_PROTOCOLS ==>
                (ret == OK <==> Parse(Decoded(atr_buffer)).Some? && Acceptable(Parse(Decoded(atr_buffer)).value))
      ensures rows <= MAX_PROTOCOLS && ret == OK ==>
                && pn <= MAX_PROTOCOLS && hbn <= MAX_HISTORICAL
                && Parse(Decoded(atr_buffer)) == Some(Value()) && length == |Print(Value())|
    {
      hide Parse, ParseGroups, RowsWritten, GroupsBytes, NeedsCheck, Decoded, Acceptable, Print;
      if |atr_buffer| < 2 {
        ParseShort(Decoded(atr_buffer));
        return MALFORMED, 0;
      }
      var buffer := Decode(atr_buffer);
      ts, t0 := buffer[0], buffer[1];
      hbn := t0 % 16;
      tck := None;
      var ok, n, pointer, present := ReadGroups(buffer);
      rows := n;
      RowsBound(buffer);
      ParseIs(buffer, Groups(n), pointer);
      if !ok { return MALFORMED, rows; }
      pn := n;
      if pointer + hbn >= |buffer| { return MALFORMED, rows; }
      StoreHistorical(buffer, pointer);
      pointer := pointer + hbn;
      if present {
        if pointer + 1 >= |buffer| { return MALFORMED, rows; }
        pointer := pointer + 1;
        tck := Some(buffer[pointer]);
      }
      length := pointer + 1;
      if pn <= MAX_PROTOCOLS { PrintSize(Value()); }
      ok := CheckValues();
      ret := if ok then OK else MALFORMED;
    }

    method StoreHistorical(buffer: seq<Byte>, pointer: nat)
      requires Allocated() && hbn <= MAX_HISTORICAL && pointer + hbn < |buffer|
      modifies hb
      ensures hb[..hbn] == buffer[pointer + 1..pointer + 1 + hbn]
    {
      for i := 0 to hbn
        invariant hb[..i] == buffer[pointer + 1..pointer + 1 + i]
      {
        hb[i] := buffer[pointer + 1 + i];
      }
    }

    /** TA1 names a clock rate and TB1 is not too large, when there is no TD byte. */
    method CheckValues() returns (ok: bool)
      requires Allocated() && hbn <= MAX_HISTORICAL
      ensures pn <= MAX_PROTOCOLS ==> ok == Acceptable(Value())
    {
      var a := GroupAt(0);
      if pn == 1 && a.ta.Some? && FS_TABLE[a.ta.value / 16] == 0 { return false; }
      if pn == 1 && a.tb.Some? && a.tb.value > 0x80 { return false; }
      ok := true;
    }

    /** The bytes as a card of the direct convention would have sent them. */
    method Decode(atr_buffer: seq<Byte>) returns (buffer: seq<Byte>)
      requires atr_buffer != []
      ensures buffer == Decoded(atr_buffer)
    {
      hide Inverted;
      buffer := atr_buffer;
      if atr_buffer[0] == 0x03 {
        buffer := [];
        for pointer := 0 to |atr_buffer|
          invariant |buffer| == pointer && forall i :: 0 <= i < pointer ==> buffer[i] == Inverted(atr_buffer[i])
        {
          buffer := buffer + [Inverted(atr_buffer[pointer])];
        }
      }
    }

    /** ATR_GetRaw */
    method GetRaw(buffer: array<Byte>) returns (len: nat)
      requires Allocated() && pn <= MAX_PROTOCOLS && hbn <= MAX_HISTORICAL && buffer != hb
      requires buffer.Length >= |Print(Value())|
      modifies buffer
      ensures len == |Print(Value())| && buffer[..len] == Print(Value())
    {
      hide GroupsBytes, Print, One, GroupAt;
      ghost var v := Value();
      PrintSize(v);
      var j := PutFront(buffer);
      if hbn > 0 {
        PutHistorical(buffer, j);
        j := j + hbn;
      }
      len := Put(buffer, j, tck);
      PrintIs(v, hb[..hbn]);
    }

    method PutFront(buffer: array<Byte>) returns (j: nat)
      requires Allocated() && pn <= MAX_PROTOCOLS && 2 + |GroupsBytes(Groups(pn))| <= buffer.Length
      modifies buffer
      ensures j == 2 + |GroupsBytes(Groups(pn))| && buffer[..j] == [ts, t0] + GroupsBytes(Groups(pn))
    {
      hide GroupsBytes, GroupAt;
      buffer[0], buffer[1] := ts, t0;
      assert buffer[..2] == [ts, t0];
      j := PutGroups(buffer);
    }

    method PutHistorical(buffer: array<Byte>, j: nat)
      requires Allocated() && hbn <= MAX_HISTORICAL && j + hbn <= buffer.Length && buffer != hb
      modifies buffer
      ensures buffer[..j + hbn] == old(buffer[..j]) + hb[..hbn]
    {
      for i := 0 to hbn
        invariant buffer[..j + i] == old(buffer[..j]) + hb[..i]
      {
        buffer[j + i] := hb[i];
      }
    }

    /** The loop over the groups. */
    method PutGroups(buffer: array<Byte>) returns (j: nat)
      requires Allocated() && pn <= MAX_PROTOCOLS && 2 + |GroupsBytes(Groups(pn))| <= buffer.Length
      modifies buffer
      ensures j == 2 + |GroupsBytes(Groups(pn))| && buffer[..j] == old(buffer[..2]) + GroupsBytes(Groups(pn))
    {
      hide GroupsBytes, GroupBytes, One;
      j := 2;
      GroupsBytesNone();
      for i := 0 to pn
        invariant j == 2 + |GroupsBytes(Groups(i))| <= buffer.Length
        invariant buffer[..j] == old(buffer[..2]) + GroupsBytes(Groups(i))
      {
        GroupsBytesFit(Groups(pn), i);
        GroupsBytesSnoc(Groups(i), GroupAt(i));
        assert Groups(pn)[..i] == Groups(i) && Groups(i) + [GroupAt(i)] == Groups(i + 1);
        Pieces(buffer[..j], GroupAt(i));
        Regroup(old(buffer[..2]), GroupsBytes(Groups(i)), GroupBytes(GroupAt(i)));
        j := Put(buffer, j, ib[i, 0]);
        j := Put(buffer, j, ib[i, 1]);
        j := Put(buffer, j, ib[i, 2]);
        j := Put(buffer, j, ib[i, 3]);
      }
    }

    /** What was parsed with success is printed as it came. */
    method Echo(atr_buffer: seq<Byte>, buffer: array<Byte>) returns (ret: int, len: nat)
      requires Allocated() && |atr_buffer| <= MAX_SIZE <= buffer.Length && buffer != hb
      modifies this, ib, hb, buffer
      ensures ret == OK && RowsWritten(Decoded(atr_buffer)) <= MAX_PROTOCOLS ==>
                len == length <= |atr_buffer| && buffer[..len] == Decoded(atr_buffer)[..len]
    {
      hide Parse, Print, Decoded, RowsWritten, Value, Acceptable;
      len := 0;
      ghost var rows;
      ret, rows := InitFromArray(atr_buffer);
      if ret == OK && pn <= MAX_PROTOCOLS {
        ParseIff(Decoded(atr_buffer), Value());
        len := GetRaw(buffer);
      }
    }

    method Put(buffer: array<Byte>, j: nat, o: Option<Byte>) returns (j': nat)
      requires j + |One(o)| <= buffer.Length
      modifies buffer
      ensures j' == j + |One(o)| && buffer[..j'] == old(buffer[..j]) + One(o)
    {
      j' := j;
      if o.Some? {
        buffer[j'] := o.value;
        j' := j' + 1;
      }
    }
  }

  lemma ParseShort(s: seq<Byte>)
    requires |s| < 2
    ensures Parse(s) == None && RowsWritten(s) == 0
  {
  }

  /** What follows the groups. */
  lemma ParseIs(s: seq<Byte>, gs: seq<Group>, pointer: nat)
    requires |s| >= 2
    ensures ParseGroups(s[1], s[2..]) == None ==> Parse(s) == None
    ensures ParseGroups(s[1], s[2..]) == Some(gs) && pointer == 1 + |GroupsBytes(gs)| ==>
              var n: nat := s[1] % 16;
              var check := NeedsCheck(gs);
              Parse(s) ==
              if pointer + n >= |s| || (check && pointer + n + 1 >= |s|) then None
              else Some(Answer(s[0], s[1], gs, s[pointer + 1..pointer + 1 + n], if check then Some(s[pointer + n + 1]) else None))
  {
    hide ParseGroups, GroupsBytes, NeedsCheck;
  }

  lemma PrintIs(a: Answer, hist: seq<Byte>)
    requires a.hist == hist
    ensures Print(a) == [a.ts, a.t0] + GroupsBytes(a.groups) + hist + One(a.tck)
    ensures hist == [] ==> Print(a) == [a.ts, a.t0] + GroupsBytes(a.groups) + One(a.tck)
  {
    hide GroupsBytes, One;
    NothingMore([a.ts, a.t0] + GroupsBytes(a.groups));
  }

  lemma PrintSize(a: Answer)
    ensures |Print(a)| == 2 + |GroupsBytes(a.groups)| + |a.hist| + |One(a.tck)|
    ensures |One(a.tck)| == if a.tck.Some? then 1 else 0
  {
    hide GroupsBytes;
  }

  /** The groups gs have been read, up to pointer; tdi announces the next. */
  ghost predicate Reading(buffer: seq<Byte>, gs: seq<Group>, tdi: Byte, pointer: nat, present: bool) {
    && 2 <= |buffer| && 1 <= pointer < |buffer| && |gs| + Levels(tdi, buffer[pointer + 1..]) == Levels(buffer[1], buffer[2..])
    && ParseGroups(buffer[1], buffer[2..]) == Join(gs, ParseGroups(tdi, buffer[pointer + 1..]))
    && pointer == 1 + |GroupsBytes(gs)|
    && (gs != [] ==> gs[|gs| - 1].td.Some?)
    && present == (gs != [] && gs[|gs| - 1].td.value % 16 != 0)
  }

  lemma ReadingStart(buffer: seq<Byte>)
    requires |buffer| >= 2
    ensures Reading(buffer, [], buffer[1], 1, false)
  {
    hide Levels;
    var p := ParseGroups(buffer[1], buffer[2..]);
    if p.Some? { assert [] + p.value == p.value; }
  }

  lemma ReadingFails(buffer: seq<Byte>, gs: seq<Group>, tdi: Byte, pointer: nat, present: bool)
    requires Reading(buffer, gs, tdi, pointer, present) && pointer + NumIb(tdi) >= |buffer|
    ensures ParseGroups(buffer[1], buffer[2..]) == None && Levels(buffer[1], buffer[2..]) == |gs|
  {
    hide NumIb, GroupsBytes;
  }

  /** There is another level at least. */
  lemma ReadingLevels(buffer: seq<Byte>, gs: seq<Group>, tdi: Byte, pointer: nat, present: bool)
    requires Reading(buffer, gs, tdi, pointer, present)
    ensures Levels(buffer[1], buffer[2..]) >= |gs|
  {
    hide Levels, GroupsBytes, ParseGroups;
  }

  lemma ReadingStep(buffer: seq<Byte>, gs: seq<Group>, tdi: Byte, pointer: nat, present: bool)
    requires Reading(buffer, gs, tdi, pointer, present) && pointer + NumIb(tdi) < |buffer|
    ensures var g := TakeGroup(tdi, buffer[pointer + 1..]);
            if g.td.Some? then
                 NumIb(tdi) > 0 && Reading(buffer, gs + [g], g.td.value, pointer + NumIb(tdi), g.td.value % 16 != 0)
               else
                 && ParseGroups(buffer[1], buffer[2..]) == Some(gs + [g]) && present == NeedsCheck(gs + [g])
                 && pointer + NumIb(tdi) == 1 + |GroupsBytes(gs + [g])| && Levels(buffer[1], buffer[2..]) == |gs + [g]|
  {
    hide Levels, NumIb, GroupsBytes, ParseGroups, TakeGroup, Bit, GroupBytes;
    var rest := buffer[pointer + 1..];
    var g := TakeGroup(tdi, rest);
    LevelsNext(tdi, rest);
    TakeGroupIs(tdi, rest);
    ParseGroupsStep(buffer[1], buffer[2..], gs, tdi, rest);
    GroupsBytesSnoc(gs, g);
    Shorter(tdi);
    assert rest[NumIb(tdi)..] == buffer[pointer + NumIb(tdi) + 1..];
  }

  lemma {:induction false} LevelsOf(t: Byte, s: seq<Byte>, gs: seq<Group>)
    requires Chained(t, gs) && GroupsBytes(gs) <= s
    ensures Levels(t, s) == |gs|
    decreases |s|
  {
    hide TakeGroup, GroupBytes, NumIb, Bit;
    FirstGroup(t, s, gs);
    TakeGroupIs(t, s);
    if gs[0].td.Some? {
      Shorter(t);
      AfterGroup(s, gs, NumIb(t));
      LevelsOf(gs[0].td.value, s[NumIb(t)..], gs[1..]);
    }
  }

  /** An answer that is printed and parsed again is restored, unless its first byte is the
      one by which a card of the inverse convention is known. */
  lemma Restored(a: Answer)
    requires WellFormed(a) && |a.groups| <= MAX_PROTOCOLS
    ensures Parse(Decoded(Print(a))) == Some(a) <==> a.ts != 0x03
    ensures var s := Print(a); |s| >= 2 && (a.ts != 0x03 ==> Decoded(s) == s && Levels(s[1], s[2..]) <= MAX_PROTOCOLS)
  {
    hide Parse, WellFormed, Levels, GroupsBytes, Inverted;
    var s := Print(a);
    if a.ts != 0x03 {
      ParsePrint(a);
      assert GroupsBytes(a.groups) == s[2..][..|GroupsBytes(a.groups)|];
      FirstGroups(a);
      LevelsOf(s[1], s[2..], a.groups);
    } else {
      InverseTs(s);
      ParseFirst(Decoded(s));
    }
  }

  lemma FirstGroups(a: Answer)
    requires WellFormed(a)
    ensures Chained(a.t0, a.groups)
  {
  }

  lemma ParseFirst(s: seq<Byte>)
    requires s != []
    ensures Parse(s).Some? ==> Parse(s).value.ts == s[0]
  {
  }

  /** n + 1 TD bytes, of which the last announces nothing. */
  function TdBytes(n: nat): (s: seq<Byte>)
    ensures |s| == n + 1
  {
    if n == 0 then [0x00] else [0x80] + TdBytes(n - 1)
  }

  lemma OneTd(s: seq<Byte>)
    requires s != []
    ensures NumIb(0x80) == 1 && TakeGroup(0x80, s) == Group(None, None, None, Some(s[0]))
  {
    assert !Bit(0x80, 16) && !Bit(0x80, 32) && !Bit(0x80, 64) && Bit(0x80, 128);
  }

  lemma NoTd()
    ensures Levels(0x00, []) == 1 && ParseGroups(0x00, []) == Some([Group(None, None, None, None)])
  {
    assert !Bit(0x00, 16) && !Bit(0x00, 32) && !Bit(0x00, 64) && !Bit(0x00, 128);
  }

  lemma {:induction false} TdRun(n: nat)
    ensures Levels(0x80, TdBytes(n)) == n + 2
    ensures var gs := ParseGroups(0x80, TdBytes(n)); gs.Some? && |gs.value| >= 2 && gs.value[|gs.value| - 2].td == Some(0)
  {
    hide TakeGroup, NumIb;
    var s := TdBytes(n);
    OneTd(s);
    LevelsNext(0x80, s);
    if n == 0 {
      assert s[1..] == [];
      NoTd();
    } else {
      assert s[1..] == TdBytes(n - 1);
      TdRun(n - 1);
    }
  }

  /** Seven TD bytes are one too many: the answer is well formed, and the record has no room
      for its last group. The test of the parser, made before it counts, lets it pass. */
  lemma SevenTdBytes()
    ensures var s := [0x3B, 0x80] + TdBytes(6);
            Parse(s).Some? && Levels(s[1], s[2..]) == MAX_PROTOCOLS + 1 && RowsWritten(Decoded(s)) > MAX_PROTOCOLS
  {
    hide ParseGroups, Levels, TdBytes, GroupsBytes;
    var s := [0x3B, 0x80] + TdBytes(6);
    assert s[2..] == TdBytes(6);
    TdRun(6);
    ParseGroupsSound(s[1], s[2..]);
  }

  lemma GroupsBytesNone()
    ensures GroupsBytes([]) == []
  {
  }

  lemma LevelsNext(t: Byte, s: seq<Byte>)
    requires NumIb(t) <= |s|
    ensures var td := TakeGroup(t, s).td; Levels(t, s) == 1 + if td.Some? then Levels(td.value, s[NumIb(t)..]) else 0
  {
    hide TakeGroup;
  }

  lemma {:induction false} GroupsBytesSnoc(gs: seq<Group>, g: Group)
    ensures GroupsBytes(gs + [g]) == GroupsBytes(gs) + GroupBytes(g)
  {
    hide GroupBytes;
    if gs == [] {
      assert [g][1..] == [];
      NothingMore(GroupBytes(g));
    } else {
      GroupsBytesSnoc(gs[1..], g);
      assert (gs + [g])[1..] == gs[1..] + [g];
      Regroup(GroupBytes(gs[0]), GroupsBytes(gs[1..]), GroupBytes(g));
    }
  }

  lemma {:induction false} GroupsBytesFit(gs: seq<Group>, i: nat)
    requires i < |gs|
    ensures |GroupsBytes(gs[..i])| + |GroupBytes(gs[i])| <= |GroupsBytes(gs)|
    decreases |gs|
  {
    hide GroupBytes;
    var n := |gs| - 1;
    assert gs == gs[..n] + [gs[n]];
    GroupsBytesSnoc(gs[..n], gs[n]);
    if i < n {
      GroupsBytesFit(gs[..n], i);
      assert gs[..n][..i] == gs[..i];
    }
  }

  lemma Pieces(front: seq<Byte>, g: Group)
    ensures |GroupBytes(g)| == |One(g.ta)| + |One(g.tb)| + |One(g.tc)| + |One(g.td)|
    ensures front + One(g.ta) + One(g.tb) + One(g.tc) + One(g.td) == front + GroupBytes(g)
  {
  }
}
