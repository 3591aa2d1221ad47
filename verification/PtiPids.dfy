/** The table of PIDs in the firmware's memory and the 32 slots that mirror it. */
module PtiPids {
  import opened Buffers

  const SLOT_HANDLE_OFFSET := 20000
  const SLOT_COUNT := 32
  const NO_PID := 0xffff

  // ---------- the firmware's memory

  /** The 16-bit value at half-word address h of a memory of 32-bit words. */
  function Half(mem: seq<nat>, h: nat): nat
    requires h / 2 < |mem|
  {
    if h % 2 == 1 then mem[h / 2] / 0x10000 % 0x10000 else mem[h / 2] % 0x10000
  }

  /** A word with one of its halves replaced. */
  function Merged(word: nat, h: nat, value: nat): nat {
    if h % 2 == 1 then word % 0x10000 + value * 0x10000 else word / 0x10000 * 0x10000 + value
  }

  /** Writing a word back with one half replaced changes that half-word and no other. */
  lemma MergedHalf(mem: seq<nat>, h: nat, value: nat, g: nat)
    requires h / 2 < |mem| && g / 2 < |mem| && value < 0x10000 && mem[h / 2] < 0x1_0000_0000
    ensures Merged(mem[h / 2], h, value) < 0x1_0000_0000
    ensures Half(mem[h / 2 := Merged(mem[h / 2], h, value)], g) == if g == h then value else Half(mem, g)
  {
    MergeWord(mem[h / 2], value);
    if g / 2 == h / 2 && g != h { assert g % 2 != h % 2; }
  }

  lemma MergeWord(w: nat, v: nat)
    requires w < 0x1_0000_0000 && v < 0x10000
    ensures var hi := w % 0x10000 + v * 0x10000;
            hi < 0x1_0000_0000 && hi % 0x10000 == w % 0x10000 && hi / 0x10000 % 0x10000 == v
    ensures var lo := w / 0x10000 * 0x10000 + v;
            lo < 0x1_0000_0000 && lo % 0x10000 == v && lo / 0x10000 % 0x10000 == w / 0x10000 % 0x10000
  {
  }

  // ---------- table and slots as values

  /** The slot that owns entry k. */
  ghost predicate Owned(table: seq<nat>, tcIndex: seq<int>, pid: seq<nat>, k: nat)
    requires k < |table| && |tcIndex| == |pid|
  {
    exists s :: 0 <= s < |tcIndex| && tcIndex[s] == k && pid[s] == table[k]
  }

  /** The active slots and the table's entries belong together one by one, with the same
      PIDs, which are all different. */
  ghost predicate Mirrors(table: seq<nat>, tcIndex: seq<int>, pid: seq<nat>) {
    && |tcIndex| == |pid| == SLOT_COUNT
    && (forall k :: 0 <= k < |table| ==> table[k] < NO_PID && Owned(table, tcIndex, pid, k))
    && (forall s :: 0 <= s < SLOT_COUNT ==> -1 <= tcIndex[s] < |table|)
    && (forall s, t :: 0 <= s < t < SLOT_COUNT && tcIndex[s] == tcIndex[t] ==> tcIndex[s] == -1)
    && (forall j, k :: 0 <= j < k < |table| ==> table[j] != table[k])
  }

  lemma EntryOf(table: seq<nat>, tcIndex: seq<int>, pid: seq<nat>, s: nat)
    requires Mirrors(table, tcIndex, pid) && s < SLOT_COUNT && tcIndex[s] >= 0
    ensures table[tcIndex[s]] == pid[s]
  {
    var k := tcIndex[s];
    assert Owned(table, tcIndex, pid, k);
    var t :| 0 <= t < |tcIndex| && tcIndex[t] == k && pid[t] == table[k];
    assert t == s;
  }

  /** There are never more entries than slots. */
  lemma {:induction false} EntriesFit(table: seq<nat>, tcIndex: seq<int>, pid: seq<nat>, n: nat) returns (owners: seq<nat>)
    requires Mirrors(table, tcIndex, pid) && n <= |table|
    ensures |owners| == n && forall k :: 0 <= k < n ==> owners[k] < SLOT_COUNT && tcIndex[owners[k]] == k
  {
    if n == 0 {
      owners := [];
    } else {
      owners := EntriesFit(table, tcIndex, pid, n - 1);
      assert Owned(table, tcIndex, pid, n - 1);
      var s :| 0 <= s < |tcIndex| && tcIndex[s] == n - 1 && pid[s] == table[n - 1];
      owners := owners + [s];
    }
  }

  // ---------- what the operations do to them

  /** A PID for slot s: table and slots still belong together exactly when the slot had no
      entry yet and the PID is a real one. */
  lemma AddEntry(table: seq<nat>, tcIndex: seq<int>, pid: seq<nat>, s: nat, p: nat)
    requires Mirrors(table, tcIndex, pid) && s < SLOT_COUNT && p <= NO_PID && p !in table
    ensures Mirrors(table + [p], tcIndex[s := |table|], pid[s := p]) <==> tcIndex[s] == -1 && p != NO_PID
  {
    var n := |table|;
    var table', tc', pid' := table + [p], tcIndex[s := n], pid[s := p];
    if tcIndex[s] == -1 && p != NO_PID {
      forall k: nat | k < |table'|
        ensures table'[k] < NO_PID && Owned(table', tc', pid', k)
      {
        if k == n {
          assert tc'[s] == k && pid'[s] == table'[k];
        } else {
          assert Owned(table, tcIndex, pid, k);
          var t :| 0 <= t < |tcIndex| && tcIndex[t] == k && pid[t] == table[k];
          assert tc'[t] == k && pid'[t] == table'[k];
        }
      }
    }
    if tcIndex[s] >= 0 { LosesOwner(table, tcIndex, pid, s, p); }
    assert table'[n] == p;
  }

  /** The entry that the slot had before belongs to no slot any more. */
  lemma LosesOwner(table: seq<nat>, tcIndex: seq<int>, pid: seq<nat>, s: nat, p: nat)
    requires Mirrors(table, tcIndex, pid) && s < SLOT_COUNT && tcIndex[s] >= 0
    ensures !Owned(table + [p], tcIndex[s := |table|], pid[s := p], tcIndex[s])
  {
    var tc' := tcIndex[s := |table|];
    forall t: nat | t < SLOT_COUNT
      ensures tc'[t] != tcIndex[s]
    {
      if t != s && tcIndex[t] == tcIndex[s] { assert false; }
    }
  }

  /** Entry i is overwritten by the last one, whose slot takes over its index. */
  function Moved(table: seq<nat>, i: nat): (r: seq<nat>)
    requires i < |table|
    ensures |r| == |table| - 1
  {
    table[i := table[|table| - 1]][..|table| - 1]
  }

  lemma RemoveEntry(table: seq<nat>, tcIndex: seq<int>, pid: seq<nat>, s: nat, u: nat)
    requires Mirrors(table, tcIndex, pid) && s < SLOT_COUNT && tcIndex[s] >= 0
    requires u < SLOT_COUNT && tcIndex[u] == |table| - 1
    ensures Mirrors(Moved(table, tcIndex[s]), tcIndex[u := tcIndex[s]][s := -1], pid)
  {
    var i, n := tcIndex[s], |table|;
    var table', tc' := Moved(table, i), tcIndex[u := i][s := -1];
    EntryOf(table, tcIndex, pid, u);
    forall k: nat | k < |table'|
      ensures table'[k] < NO_PID && Owned(table', tc', pid, k)
    {
      if k == i {
        assert tc'[u] == k && pid[u] == table'[k];
      } else {
        assert Owned(table, tcIndex, pid, k);
        var t :| 0 <= t < |tcIndex| && tcIndex[t] == k && pid[t] == table[k];
        assert tc'[t] == k && pid[t] == table'[k];
      }
    }
  }

  lemma LastOwner(table: seq<nat>, tcIndex: seq<int>, pid: seq<nat>) returns (u: nat)
    requires Mirrors(table, tcIndex, pid) && table != []
    ensures u < SLOT_COUNT && tcIndex[u] == |table| - 1
    ensures forall t :: 0 <= t < SLOT_COUNT && tcIndex[t] == tcIndex[u] ==> t == u
  {
    assert Owned(table, tcIndex, pid, |table| - 1);
    u :| 0 <= u < |tcIndex| && tcIndex[u] == |table| - 1 && pid[u] == table[|table| - 1];
  }

  /** What the firmware may see while one PID set is replaced by another: every PID that is
      in both, and none that is in neither. */
  ghost predicate Between(before: seq<nat>, seen: seq<nat>, after: seq<nat>) {
    && (forall p :: p in before && p in after ==> p in seen)
    && (forall p :: p in seen ==> p in before || p in after)
  }

  lemma BetweenAdded(table: seq<nat>, p: nat)
    ensures Between(table, table, table + [p]) && Between(table, table + [p], table + [p])
  {
  }

  lemma BetweenMoved(table: seq<nat>, i: nat)
    requires i < |table|
    ensures Between(table, table[i := table[|table| - 1]], Moved(table, i)) && Between(table, Moved(table, i), Moved(table, i))
  {
    var n := |table|;
    var t1, t2 := table[i := table[n - 1]], Moved(table, i);
    forall p | p in t1
      ensures p in table
    {
      var k :| 0 <= k < n && t1[k] == p;
    }
    forall p | p in t2
      ensures p in t1
    {
      var k :| 0 <= k < n - 1 && t2[k] == p;
      assert t1[k] == p;
    }
  }

  // ---------- the driver

  /** Half-word addresses in the firmware's data memory. */
  const NUM_PIDS := 21
  const PIDTABLE := 29
  const DRAM_WORDS := 64

  /** The first n entries of the table. */
  ghost function TableOf(mem: seq<nat>, n: nat): (t: seq<nat>)
    requires |mem| == DRAM_WORDS && n <= SLOT_COUNT
    ensures |t| == n && forall k :: 0 <= k < n ==> t[k] == Half(mem, PIDTABLE + k)
  {
    if n == 0 then [] else TableOf(mem, n - 1) + [Half(mem, PIDTABLE + n - 1)]
  }

  class Pids {
    const mem: array<nat>
    const inUse: array<bool>
    const tcIndex: array<int>
    const pid: array<nat>
    ghost var seen: seq<seq<nat>>  // what the firmware could see after each write

    ghost predicate Allocated()
      reads mem
    {
      && mem.Length == DRAM_WORDS && (forall w :: 0 <= w < mem.Length ==> mem[w] < 0x1_0000_0000)
      && inUse.Length == tcIndex.Length == pid.Length == SLOT_COUNT && mem != pid
    }

    function At(h: nat): nat
      requires h / 2 < mem.Length
      reads mem
    {
      Half(mem[..], h)
    }

    /** The part of the table that the firmware searches. */
    ghost function Visible(): (t: seq<nat>)
      requires mem.Length == DRAM_WORDS && At(NUM_PIDS) <= SLOT_COUNT
      reads mem
      ensures |t| == At(NUM_PIDS) && forall k :: 0 <= k < |t| ==> t[k] == At(PIDTABLE + k)
    {
      TableOf(mem[..], At(NUM_PIDS))
    }

    ghost predicate Valid()
      reads mem, inUse, tcIndex, pid
    {
      && Allocated() && At(NUM_PIDS) <= SLOT_COUNT
      && Mirrors(Visible(), tcIndex[..], pid[..])
      && (forall s :: 0 <= s < SLOT_COUNT && tcIndex[s] >= 0 ==> inUse[s])
    }

    /** The state that pti_hal_init leaves: no PIDs, no slots in use. */
    constructor (words: seq<nat>)
      requires |words| == DRAM_WORDS && forall w :: 0 <= w < |words| ==> words[w] < 0x1_0000_0000
      requires Half(words, NUM_PIDS) == 0
      ensures Valid() && Visible() == [] && fresh(mem) && fresh(inUse) && fresh(tcIndex) && fresh(pid)
    {
      mem := new nat[DRAM_WORDS](i requires 0 <= i < |words| => words[i]);
      inUse := new bool[SLOT_COUNT](_ => false);
      tcIndex := new int[SLOT_COUNT](_ => -1);
      pid := new nat[SLOT_COUNT](_ => NO_PID);
      seen := [];
      new;
      assert mem[..] == words;
    }

    /** The bus ignores byte enables: a half-word is written by writing its word back. */
    method PtiWrite(h: nat, value: nat)
      requires Allocated() && h / 2 < DRAM_WORDS && value < 0x10000
      modifies mem
      ensures Allocated()
      ensures forall g: nat :: g / 2 < DRAM_WORDS ==> At(g) == if g == h then value else old(At(g))
    {
      ghost var m := mem[..];
      var old_value := mem[h / 2];
      forall g: nat | g / 2 < DRAM_WORDS
        ensures Merged(old_value, h, value) < 0x1_0000_0000
        ensures Half(m[h / 2 := Merged(old_value, h, value)], g) == if g == h then value else Half(m, g)
      {
        MergedHalf(m, h, value, g);
      }
      hide Half, Merged;
      MergedHalf(m, h, value, h);
      mem[h / 2] := Merged(old_value, h, value);
      assert mem[..] == m[h / 2 := Merged(old_value, h, value)];
    }

    /** Write table entry i. */
    method WriteEntry(i: nat, p: nat)
      requires Allocated() && At(NUM_PIDS) <= SLOT_COUNT && i <= SLOT_COUNT && p < 0x10000
      modifies mem, this`seen
      ensures Allocated() && At(NUM_PIDS) == old(At(NUM_PIDS)) && At(PIDTABLE + i) == p
      ensures Visible() == if i < |old(Visible())| then old(Visible())[i := p] else old(Visible())
      ensures seen == old(seen) + [Visible()]
    {
      hide Half;
      PtiWrite(PIDTABLE + i, p);
      seen := seen + [Visible()];
    }

    /** Write the number of entries. */
    method WriteCount(n: nat)
      requires Allocated() && At(NUM_PIDS) <= SLOT_COUNT && n <= At(NUM_PIDS) + 1
      modifies mem, this`seen
      ensures Allocated() && At(NUM_PIDS) == n
      ensures n <= SLOT_COUNT ==>
                && Visible() == (if n <= |old(Visible())| then old(Visible())[..n] else old(Visible()) + [old(At(PIDTABLE + (n - 1)))])
                && seen == old(seen) + [Visible()]
    {
      hide Half;
      PtiWrite(NUM_PIDS, n);
      if n <= SLOT_COUNT { seen := seen + [Visible()]; }
    }

    /** Whether the firmware already collects p. */
    method Collecting(p: nat) returns (found: bool)
      requires Allocated() && At(NUM_PIDS) <= SLOT_COUNT
      ensures found <==> p in Visible()
    {
      hide Half;
      for vLoop := 0 to At(NUM_PIDS)
        invariant forall k :: 0 <= k < vLoop ==> Visible()[k] != p
      {
        if At(PIDTABLE + vLoop) == p {
          assert Visible()[vLoop] == p;
          return true;
        }
      }
      found := false;
    }

    /** pti_hal_slot_set_pid. With success the slot's PID is the table's last entry; table
        and slots still belong together exactly if the slot had no PID before and this is a
        real one. */
    method SlotSetPid(slot_handle: int, p: nat) returns (ret: int)
      requires Valid() && p <= NO_PID
      modifies mem, tcIndex, pid, this`seen
      ensures ret == 0 || ret == -1
      ensures ret == 0 <==> SLOT_HANDLE_OFFSET <= slot_handle < SLOT_HANDLE_OFFSET + SLOT_COUNT
                            && inUse[slot_handle - SLOT_HANDLE_OFFSET] && p !in old(Visible())
      ensures ret == -1 ==> mem[..] == old(mem[..]) && tcIndex[..] == old(tcIndex[..]) && pid[..] == old(pid[..]) && seen == old(seen)
      ensures ret == 0 ==>
                var s := slot_handle - SLOT_HANDLE_OFFSET;
                && pid[..] == old(pid[..])[s := p] && tcIndex[..] == old(tcIndex[..])[s := |old(Visible())|]
                && (Valid() <==> old(tcIndex[s]) == -1 && p != NO_PID)
                && (Valid() ==> Visible() == old(Visible()) + [p] && SeenBetween(old(Visible()), old(seen), Visible()))
    {
      hide Half, Mirrors;
      ghost var table, tc, pids := Visible(), tcIndex[..], pid[..];
      var collecting := Collecting(p);
      if collecting { return -1; }
      if slot_handle < SLOT_HANDLE_OFFSET || slot_handle >= SLOT_HANDLE_OFFSET + SLOT_COUNT { return -1; }
      var s := slot_handle - SLOT_HANDLE_OFFSET;
      if !inUse[s] { return -1; }
      var n := At(NUM_PIDS);
      pid[s] := p;
      tcIndex[s] := n;
      WriteEntry(n, p);
      WriteCount(n + 1);
      AddEntry(table, tc, pids, s, p);
      RoomForOne(table, tc, pids, s);
      BetweenAdded(table, p);
      ret := 0;
    }

    /** Since the table was before, the firmware has only seen what it may see on the way to after. */
    ghost predicate SeenBetween(before: seq<nat>, seen0: seq<seq<nat>>, after: seq<nat>)
      reads this`seen
    {
      seen0 <= seen && forall i :: |seen0| <= i < |seen| ==> Between(before, seen[i], after)
    }

    /** pti_hal_slot_clear_pid. */
    method SlotClearPid(slot_handle: int) returns (ret: int)
      requires Valid() && SLOT_HANDLE_OFFSET <= slot_handle < SLOT_HANDLE_OFFSET + SLOT_COUNT
      modifies mem, tcIndex, this`seen
      ensures Valid()
      ensures var s := slot_handle - SLOT_HANDLE_OFFSET;
              && (ret == if old(tcIndex[s]) >= 0 then 0 else -1)
              && tcIndex[s] == -1
              && (forall t :: 0 <= t < SLOT_COUNT && t != s ==> (tcIndex[t] >= 0 <==> old(tcIndex[t]) >= 0))
              && (ret == 0 ==> forall q :: q in Visible() <==> q in old(Visible()) && q != pid[s])
              && (ret == -1 ==> Visible() == old(Visible()))
      ensures SeenBetween(old(Visible()), old(seen), Visible())
    {
      hide Half, Mirrors;
      ghost var table, tc, pids := Visible(), tcIndex[..], pid[..];
      var s := slot_handle - SLOT_HANDLE_OFFSET;
      SlotFacts(table, tc, pids, s);
      if tcIndex[s] < 0 || pid[s] == NO_PID { return -1; }
      assert table[At(NUM_PIDS) - 1] < NO_PID;
      ghost var u := LastOwner(table, tc, pids);
      DropEntry(tcIndex[s]);
      HandOver(s, u);
      RemoveEntry(table, tc, pids, s, u);
      GoneOnly(table, tc, pids, s);
      ret := 0;
    }

    /** Move the last entry to index i, then shorten the table. */
    method DropEntry(i: nat)
      requires Allocated() && i < At(NUM_PIDS) <= SLOT_COUNT && At(PIDTABLE + (At(NUM_PIDS) - 1)) < 0x10000
      modifies mem, this`seen
      ensures Allocated() && At(NUM_PIDS) == old(At(NUM_PIDS)) - 1 && Visible() == Moved(old(Visible()), i)
      ensures SeenBetween(old(Visible()), old(seen), Visible())
    {
      hide Half, Between;
      ghost var table := Visible();
      WriteEntry(i, At(PIDTABLE + (At(NUM_PIDS) - 1)));
      WriteCount(At(NUM_PIDS) - 1);
      assert Visible() == Moved(table, i);
      BetweenMoved(table, i);
    }

    /** The slot of the moved entry, u, takes over the index of slot s. */
    method HandOver(s: nat, ghost u: nat)
      requires Allocated() && s < SLOT_COUNT && u < SLOT_COUNT && tcIndex[u] == At(NUM_PIDS)
      requires forall t :: 0 <= t < SLOT_COUNT && tcIndex[t] == tcIndex[u] ==> t == u
      modifies tcIndex
      ensures tcIndex[..] == old(tcIndex[..])[u := old(tcIndex[s])][s := -1]
    {
      hide Half;
      var t := 0;
      while t < SLOT_COUNT && tcIndex[t] != At(NUM_PIDS)
        invariant 0 <= t <= u
      {
        t := t + 1;
      }
      tcIndex[t] := tcIndex[s];
      tcIndex[s] := -1;
    }

    /** pti_hal_slot_free. */
    method SlotFree(slot_handle: int)
      requires Valid() && SLOT_HANDLE_OFFSET <= slot_handle < SLOT_HANDLE_OFFSET + SLOT_COUNT
      modifies mem, tcIndex, pid, inUse, this`seen
      ensures Valid()
      ensures var s := slot_handle - SLOT_HANDLE_OFFSET;
              && inUse[..] == old(inUse[..])[s := false] && tcIndex[s] == -1
              && forall q :: q in Visible() <==> q in old(Visible()) && !(old(tcIndex[s]) >= 0 && q == old(pid[s]))
      ensures SeenBetween(old(Visible()), old(seen), Visible())
    {
      hide Half, Mirrors;
      var s := slot_handle - SLOT_HANDLE_OFFSET;
      ghost var tc := tcIndex[..];
      if tcIndex[s] != -1 {
        SlotFacts(Visible(), tc, pid[..], s);
        var _ := SlotClearPid(slot_handle);
      }
      ghost var table, tc1, pids: seq<nat> := Visible(), tcIndex[..], pid[..];
      FreeSlot(table, tc1, pids, s);
      inUse[s] := false;
      pid[s] := NO_PID;
      tcIndex[s] := -1;
      assert tcIndex[..] == tc1 && pid[..] == pids[s := NO_PID];
    }

    /** pti_hal_get_new_slot_handle: the first slot that is not in use. */
    method GetNewSlotHandle() returns (r: int)
      requires Valid()
      modifies inUse, tcIndex
      ensures Valid() && Visible() == old(Visible()) && tcIndex[..] == old(tcIndex[..])
      ensures r == -1 ==> inUse[..] == old(inUse[..]) && forall s :: 0 <= s < SLOT_COUNT ==> inUse[s]
      ensures r != -1 ==>
                && SLOT_HANDLE_OFFSET <= r < SLOT_HANDLE_OFFSET + SLOT_COUNT
                && !old(inUse[r - SLOT_HANDLE_OFFSET]) && tcIndex[r - SLOT_HANDLE_OFFSET] == -1
                && inUse[..] == old(inUse[..])[r - SLOT_HANDLE_OFFSET := true]
    {
      hide Half, Mirrors;
      ghost var tc := tcIndex[..];
      for s := 0 to SLOT_COUNT
        invariant inUse[..] == old(inUse[..]) && tcIndex[..] == tc
        invariant forall t :: 0 <= t < s ==> inUse[t]
      {
        if !inUse[s] {
          SlotFacts(Visible(), tc, pid[..], s);
          inUse[s] := true;
          tcIndex[s] := -1;
          assert tcIndex[..] == tc;
          return SLOT_HANDLE_OFFSET + s;
        }
      }
      r := -1;
    }
  }

  /** The PID of a slot without an entry does not matter. */
  lemma FreeSlot(table: seq<nat>, tcIndex: seq<int>, pid: seq<nat>, s: nat)
    requires Mirrors(table, tcIndex, pid) && s < SLOT_COUNT && tcIndex[s] == -1
    ensures Mirrors(table, tcIndex, pid[s := NO_PID])
  {
    var pid': seq<nat> := pid[s := NO_PID];
    forall k: nat | k < |table|
      ensures Owned(table, tcIndex, pid', k)
    {
      assert Owned(table, tcIndex, pid, k);
      var t :| 0 <= t < |tcIndex| && tcIndex[t] == k && pid[t] == table[k];
      assert pid'[t] == table[k];
    }
  }

  lemma SlotFacts(table: seq<nat>, tcIndex: seq<int>, pid: seq<nat>, s: nat)
    requires Mirrors(table, tcIndex, pid) && s < SLOT_COUNT
    ensures |tcIndex| == |pid| == SLOT_COUNT && -1 <= tcIndex[s] < |table|
    ensures tcIndex[s] >= 0 ==> pid[s] == table[tcIndex[s]] && pid[s] < NO_PID
    ensures forall k :: 0 <= k < |table| ==> table[k] < NO_PID
  {
    if tcIndex[s] >= 0 { EntryOf(table, tcIndex, pid, s); }
  }

  /** Only the PID of slot s is gone. */
  lemma GoneOnly(table: seq<nat>, tcIndex: seq<int>, pid: seq<nat>, s: nat)
    requires Mirrors(table, tcIndex, pid) && s < SLOT_COUNT && tcIndex[s] >= 0
    ensures forall q :: q in Moved(table, tcIndex[s]) <==> q in table && q != pid[s]
  {
    var i, n := tcIndex[s], |table|;
    var after := Moved(table, i);
    EntryOf(table, tcIndex, pid, s);
    forall q | q in table && q != pid[s]
      ensures q in after
    {
      var k :| 0 <= k < n && table[k] == q;
      if k == n - 1 { assert after[i] == q; } else { assert after[k] == q; }
    }
  }

  // ---------- counting slots

  /** A slot without an entry leaves room for one more. */
  lemma RoomForOne(table: seq<nat>, tcIndex: seq<int>, pid: seq<nat>, s: nat)
    requires Mirrors(table, tcIndex, pid) && s < SLOT_COUNT
    ensures |table| <= SLOT_COUNT && (tcIndex[s] == -1 ==> |table| < SLOT_COUNT)
  {
    var owners := EntriesFit(table, tcIndex, pid, |table|);
    var all := Below(SLOT_COUNT);
    DistinctFit(owners, all);
    if tcIndex[s] == -1 { DistinctFit(owners, all - {s}); }
  }
}
