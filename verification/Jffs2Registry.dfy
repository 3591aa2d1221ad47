/** The registry of compressors: a circular doubly linked list behind a list head, sorted by
    priority. */
module Jffs2Registry {
  /** struct list_head inside struct jffs2_compressor. */
  class Link {
    var next: Link?
    var prev: Link?
    var priority: int
    var name: string
    var usecount: nat

    constructor (name: string, priority: int)
      ensures this.name == name && this.priority == priority && usecount == 0 && next == null && prev == null
    {
      this.name, this.priority, usecount, next, prev := name, priority, 0, null, null;
    }
  }

  /** The links form a ring in this order, each once. */
  ghost predicate Ring(links: seq<Link>)
    reads links
  {
    && links != []
    && (forall i, j :: 0 <= i < j < |links| ==> links[i] != links[j])
    && (forall i :: 0 <= i < |links| - 1 ==> links[i].next == links[i + 1] && links[i + 1].prev == links[i])
    && links[|links| - 1].next == links[0] && links[0].prev == links[|links| - 1]
  }

  /** Priorities do not rise along the list. */
  ghost predicate Sorted(links: seq<Link>)
    reads links
  {
    forall i, j :: 0 <= i < j < |links| ==> links[i].priority >= links[j].priority
  }

  /** list_add: a new link between links[at - 1] and its successor. */
  method ListAdd(entry: Link, prev: Link, ghost links: seq<Link>, ghost at: nat)
    requires Ring(links) && 1 <= at <= |links| && prev == links[at - 1] && entry !in links
    modifies links, entry
    ensures Ring(links[..at] + [entry] + links[at..])
    ensures forall l :: l in links + [entry] ==> l.priority == old(l.priority) && l.name == old(l.name) && l.usecount == old(l.usecount)
  {
    ghost var all := links[..at] + [entry] + links[at..];
    var next := prev.next;
    assert next == if at == |links| then links[0] else links[at];
    next.prev := entry;
    entry.next := next;
    entry.prev := prev;
    prev.next := entry;
  }

  /** list_del */
  method ListDel(entry: Link, ghost links: seq<Link>, ghost at: nat)
    requires Ring(links) && 1 <= at < |links| && entry == links[at]
    modifies links
    ensures Ring(links[..at] + links[at + 1..]) && entry.next == null && entry.prev == null
    ensures forall l :: l in links ==> l.priority == old(l.priority) && l.name == old(l.name) && l.usecount == old(l.usecount)
  {
    ghost var rest := links[..at] + links[at + 1..];
    var prev, next := entry.prev, entry.next;
    assert prev == links[at - 1] && next == if at + 1 == |links| then links[0] else links[at + 1];
    next.prev := prev;
    prev.next := next;
    entry.next := null;
    entry.prev := null;
  }

  /** What is kept of the data of links whose pointers change. */
  twostate predicate SameData(links: seq<Link>)
    reads links
  {
    forall l :: l in links ==> l.priority == old(l.priority) && l.name == old(l.name) && l.usecount == old(l.usecount)
  }

  /** entry stands behind everything of at least its priority, and before the rest. */
  ghost predicate Placed(before: seq<Link>, entry: Link, after: seq<Link>)
    reads before, after, entry
  {
    && (forall i :: 0 <= i < |before| ==> before[i].priority >= entry.priority)
    && (forall i :: 0 <= i < |after| ==> after[i].priority < entry.priority)
  }

  /** The link behind number i, which is the head behind the last. */
  ghost function Behind(links: seq<Link>, i: nat): Link
    requires i < |links|
  {
    if i + 1 == |links| then links[0] else links[i + 1]
  }

  lemma RingStep(links: seq<Link>, i: nat)
    requires Ring(links) && i < |links|
    ensures links[i].next == Behind(links, i) && Behind(links, i).prev == links[i]
    ensures links[i] == links[0] <==> i == 0
    ensures Behind(links, i) == links[0] <==> i + 1 == |links|
  {
  }

  lemma RestLower(list: seq<Link>, at: nat, priority: int)
    requires Sorted(list) && at <= |list| && (at < |list| ==> list[at].priority < priority)
    ensures forall i :: at <= i < |list| ==> list[i].priority < priority
  {
  }

  lemma InsertSorted(before: seq<Link>, entry: Link, after: seq<Link>)
    requires Sorted(before + after) && Placed(before, entry, after)
    ensures Sorted(before + [entry] + after)
  {
    var all, rest := before + [entry] + after, before + after;
    forall i, j | 0 <= i < j < |all|
      ensures all[i].priority >= all[j].priority
    {
      if i != |before| && j != |before| {
        var i', j' := if i < |before| then i else i - 1, if j < |before| then j else j - 1;
        assert rest[i'] == all[i] && rest[j'] == all[j];
      }
    }
  }

  ghost function Priorities(links: seq<Link>): (ps: seq<int>)
    reads links
    ensures |ps| == |links| && forall i :: 0 <= i < |ps| ==> ps[i] == links[i].priority
  {
    seq(|links|, i requires 0 <= i < |links| reads links => links[i].priority)
  }

  ghost predicate Falling(ps: seq<int>) {
    forall i, j :: 0 <= i < j < |ps| ==> ps[i] >= ps[j]
  }

  lemma SortedIs(links: seq<Link>)
    requires Sorted(links)
    ensures Falling(Priorities(links))
  {
  }

  lemma SortedBack(links: seq<Link>, ps: seq<int>)
    requires |ps| == |links| && Falling(ps) && forall i :: 0 <= i < |ps| ==> ps[i] == links[i].priority
    ensures Sorted(links)
  {
  }

  lemma StaysSorted(list: seq<Link>, at: nat, comp: Link)
    requires Sorted(list) && at <= |list|
    requires forall i :: 0 <= i < at ==> list[i].priority >= comp.priority
    requires forall i :: at <= i < |list| ==> list[i].priority < comp.priority
    ensures Falling(Priorities(list[..at] + [comp] + list[at..]))
  {
    hide Sorted, Falling;
    assert list[..at] + list[at..] == list;
    InsertSorted(list[..at], comp, list[at..]);
    SortedIs(list[..at] + [comp] + list[at..]);
  }

  lemma InRing(head: Link, list: seq<Link>, at: nat, comp: Link)
    requires at <= |list|
    ensures forall l :: l in list[..at] + [comp] + list[at..] ==> l in ([head] + list) + [comp]
  {
    assert forall l :: l in list[..at] || l in list[at..] ==> l in list;
  }

  class Registry {
    const head: Link            // jffs2_compressor_list
    ghost var list: seq<Link>   // the registered compressors

    ghost predicate Valid()
      reads this, head, list
    {
      Ring([head] + list) && Sorted(list)
    }

    constructor ()
      ensures Valid() && list == [] && fresh(head)
    {
      head := new Link("", 0);
      list := [];
      new;
      head.next := head;
      head.prev := head;
    }

    /** The link in front of the first one with a lower priority. */
    method Search(priority: int) returns (prev: Link, ghost at: nat)
      requires Valid()
      ensures at <= |list| && prev == ([head] + list)[at]
      ensures forall i :: 0 <= i < at ==> list[i].priority >= priority
      ensures forall i :: at <= i < |list| ==> list[i].priority < priority
    {
      hide Ring, Sorted;
      ghost var ring := [head] + list;
      at := 0;
      RingStep(ring, 0);
      var this_ := head.next;
      while this_ != head && this_.priority >= priority
        invariant 0 <= at <= |list| && this_ == Behind(ring, at)
        invariant forall i :: 0 <= i < at ==> list[i].priority >= priority
        decreases |list| - at
        modifies {}
      {
        RingStep(ring, at);
        RingStep(ring, at + 1);
        this_ := this_.next;
        at := at + 1;
      }
      RingStep(ring, at);
      RestLower(list, at, priority);
      prev := this_.prev;
    }

    /** Insert in front of the first link with a lower priority, or at the end. */
    method Insert(comp: Link) returns (ghost at: nat)
      requires Valid() && comp != head && comp !in list
      modifies this, head, list, comp
      ensures Valid() && at <= |old(list)| && list == old(list)[..at] + [comp] + old(list)[at..]
      ensures SameData(list)
      ensures forall i :: 0 <= i < at ==> list[i].priority >= comp.priority
      ensures forall i :: at < i < |list| ==> list[i].priority < comp.priority
    {
      hide Ring, Sorted, Placed, Falling;
      var prev;
      prev, at := Search(comp.priority);
      ghost var more := list[..at] + [comp] + list[at..];
      StaysSorted(list, at, comp);
      ghost var ps := Priorities(more);
      Attach(comp, prev, at);
      SortedBack(more, ps);
    }

    /** The pointers of an insertion. */
    method Attach(comp: Link, prev: Link, ghost at: nat)
      requires Ring([head] + list) && comp != head && comp !in list && at <= |list| && prev == ([head] + list)[at]
      modifies this`list, head, list, comp
      ensures list == old(list)[..at] + [comp] + old(list)[at..]
      ensures Ring([head] + list) && SameData(list)
    {
      hide Ring;
      ghost var ring, more := [head] + list, list[..at] + [comp] + list[at..];
      assert [head] + more == ring[..at + 1] + [comp] + ring[at + 1..];
      InRing(head, list, at, comp);
      ListAdd(comp, prev, ring, at + 1);
      list := more;
    }

    /** jffs2_register_compressor */
    method Register(comp: Link) returns (ret: int, ghost at: nat)
      requires Valid() && comp != head && comp !in list
      modifies this, head, list, comp
      ensures ret == 0 && Valid() && comp.usecount == 0
      ensures at <= |old(list)| && list == old(list)[..at] + [comp] + old(list)[at..]
      ensures forall i :: 0 <= i < at ==> list[i].priority >= comp.priority
      ensures forall i :: at < i < |list| ==> list[i].priority < comp.priority
      ensures forall l :: l in list ==> l.priority == old(l.priority) && l.name == old(l.name)
    {
      comp.usecount := 0;
      at := Insert(comp);
      ret := 0;
    }

    /** The pointers of a removal. */
    method Detach(comp: Link, ghost at: nat)
      requires Ring([head] + list) && at < |list| && comp == list[at]
      modifies this`list, head, list
      ensures list == old(list)[..at] + old(list)[at + 1..]
      ensures Ring([head] + list) && comp != head && comp !in list && comp.next == null && comp.prev == null
      ensures SameData(old(list))
    {
      ghost var ring, less := [head] + list, list[..at] + list[at + 1..];
      OnlyOnce(head, list, at);
      hide Ring;
      assert [head] + less == ring[..at + 1] + ring[at + 2..];
      assert forall l :: l in list ==> l in ring;
      ListDel(comp, ring, at + 1);
      list := less;
    }

    lemma OnlyOnce(head: Link, list: seq<Link>, at: nat)
      requires Ring([head] + list) && at < |list|
      ensures list[at] != head && list[at] !in list[..at] + list[at + 1..]
    {
      var ring := [head] + list;
      assert ring[0] == head && ring[at + 1] == list[at];
      var less := list[..at] + list[at + 1..];
      forall i: nat | i < |less|
        ensures less[i] != list[at]
      {
        assert less[i] == ring[if i < at then i + 1 else i + 2];
      }
    }

    /** jffs2_unregister_compressor: a compressor that is in use stays. */
    method Unregister(comp: Link, ghost at: nat) returns (ret: int)
      requires Valid() && at < |list| && comp == list[at]
      modifies this, head, list
      ensures Valid() && ret == if old(comp.usecount) != 0 then -1 else 0
      ensures list == if ret == 0 then old(list)[..at] + old(list)[at + 1..] else old(list)
      ensures SameData(old(list))
    {
      hide Ring, Sorted, Falling;
      if comp.usecount != 0 { return -1; }
      ghost var less := list[..at] + list[at + 1..];
      LessSorted(list, at);
      ghost var ps := Priorities(less);
      Detach(comp, at);
      SortedBack(less, ps);
      ret := 0;
    }

    /** The first compressor of a name. */
    method Find(name: string) returns (comp: Link?, ghost at: nat)
      requires Valid()
      ensures at <= |list| && forall i :: 0 <= i < at ==> list[i].name != name
      ensures comp == (if at == |list| then null else list[at]) && (comp != null ==> comp.name == name)
    {
      hide Ring, Sorted;
      ghost var ring := [head] + list;
      at := 0;
      RingStep(ring, 0);
      var this_ := head.next;
      while this_ != head && this_.name != name
        invariant 0 <= at <= |list| && this_ == Behind(ring, at)
        invariant forall i :: 0 <= i < at ==> list[i].name != name
        decreases |list| - at
        modifies {}
      {
        RingStep(ring, at);
        RingStep(ring, at + 1);
        this_ := this_.next;
        at := at + 1;
      }
      RingStep(ring, at);
      comp := if this_ == head then null else this_;
    }

    method Reprioritise(comp: Link, priority: int)
      requires Ring([head] + list)
      modifies comp`priority
      ensures comp.priority == priority && Ring([head] + list)
    {
      comp.priority := priority;
    }

    /** Out of the list, with the new priority. */
    method TakeOut(comp: Link, priority: int, ghost at: nat)
      requires Valid() && at < |list| && comp == list[at]
      modifies this, head, list
      ensures Valid() && list == old(list)[..at] + old(list)[at + 1..] && comp != head && comp !in list && comp.priority == priority
      ensures forall l :: l in list ==> l.priority == old(l.priority)
      ensures forall l :: l in old(list) ==> l.name == old(l.name) && l.usecount == old(l.usecount)
    {
      hide Ring, Sorted, Falling;
      ghost var less := list[..at] + list[at + 1..];
      assert forall l :: l in less ==> l in list;
      LessSorted(list, at);
      ghost var ps := Priorities(less);
      OnlyOnce(head, list, at);
      Reprioritise(comp, priority);
      Detach(comp, at);
      SortedBack(less, ps);
    }

    /** jffs2_set_compressor_priority: the compressor moves to where its new priority puts it;
        the order of the others stays. */
    method SetPriority(name: string, priority: int) returns (ret: int, ghost from: nat, ghost to: nat)
      requires Valid()
      modifies this, head, list
      ensures Valid() && from <= |old(list)|
      ensures ret == 1 ==> list == old(list) && forall i :: 0 <= i < |list| ==> list[i].name != name && list[i].priority == old(list[i].priority)
      ensures ret != 1 ==>
                && ret == 0 && from < |old(list)| && old(list[from].name) == name
                && (forall i :: 0 <= i < from ==> old(list[i].name) != name)
      ensures ret != 1 ==>
                var rest := old(list)[..from] + old(list)[from + 1..];
                && to <= |rest| && list == rest[..to] + [old(list)[from]] + rest[to..]
                && list[to].priority == priority && forall l :: l in rest ==> l.priority == old(l.priority)
      ensures ret != 1 ==> forall l :: l in list ==> l.name == old(l.name) && l.usecount == old(l.usecount)
    {
      hide Ring, Sorted, Falling;
      var comp;
      comp, from := Find(name);
      to := 0;
      if comp == null { return 1, from, to; }
      ghost var rest := list[..from] + list[from + 1..];
      assert forall l :: l in rest ==> l in list;
      TakeOut(comp, priority, from);
      to := Insert(comp);
      assert forall l :: l in list ==> l == comp || l in rest;
      ret := 0;
    }
  }

  lemma LessSorted(list: seq<Link>, at: nat)
    requires Sorted(list) && at < |list|
    ensures Falling(Priorities(list[..at] + list[at + 1..]))
  {
    var less := list[..at] + list[at + 1..];
    forall i, j | 0 <= i < j < |less|
      ensures less[i].priority >= less[j].priority
    {
      var i', j' := if i < at then i else i + 1, if j < at then j else j + 1;
      assert less[i] == list[i'] && less[j] == list[j'];
    }
  }
}
