/** The values behind the demultiplexer driver: packets, the circular buffer that the
    hardware fills, and the queue of segments between poller and injector. */
module PtiModel {
  import opened Buffers

  const HEADER_SIZE := 6
  const PACKET_SIZE := 194
  const PACKET_SIZE_WO_HEADER := 188
  const SLOTS := 4096
  const PTI_BUFFER_SIZE := 794624
  const QUEUE_SIZE := 400
  const TAG_COUNT := 4
  const AUX_COUNT := 20
  const AUX_SIZE := 3760

  type Packet = p: seq<Byte> | |p| == PACKET_SIZE witness seq(PACKET_SIZE, _ => 0)

  /** The input that a packet came from; 0 to 3 are the ones in use. */
  function Tag(p: Packet): nat {
    p[0] / 4 % 16
  }

  /** What the demultiplexer of input t is due from a list of packets: their payloads. */
  function Due(ps: seq<Packet>, t: nat): seq<Byte> {
    if ps == [] then []
    else Due(ps[..|ps| - 1], t) + (if Tag(ps[|ps| - 1]) == t then ps[|ps| - 1][HEADER_SIZE..] else [])
  }

  lemma DueNext(ps: seq<Packet>, n: nat, t: nat)
    requires n < |ps|
    ensures Due(ps[..n + 1], t) == Due(ps[..n], t) + (if Tag(ps[n]) == t then ps[n][HEADER_SIZE..] else [])
  {
    assert ps[..n + 1][..n] == ps[..n];
  }

  lemma DueLess(ps: seq<Packet>, more: seq<Packet>, n: nat)
    requires n <= |ps|
    ensures (ps + more)[..n] == ps[..n]
  {
  }

  /** A call of the demultiplexer. */
  datatype Call = Call(tag: nat, bytes: seq<Byte>, count: nat)

  function Delivered(calls: seq<Call>, t: nat): seq<Byte> {
    if calls == [] then []
    else Delivered(calls[..|calls| - 1], t) + (if calls[|calls| - 1].tag == t then calls[|calls| - 1].bytes else [])
  }

  lemma DeliveredNext(calls: seq<Call>, c: Call, t: nat)
    ensures Delivered(calls + [c], t) == Delivered(calls, t) + (if c.tag == t then c.bytes else [])
  {
    assert (calls + [c])[..|calls|] == calls;
  }

  predicate Batch(c: Call) {
    c.tag < TAG_COUNT && 1 <= c.count <= AUX_COUNT && |c.bytes| == PACKET_SIZE_WO_HEADER * c.count
  }

  // ---------- the circular buffer

  /** Where the a-th packet of the stream is put. */
  function Offset(a: nat): (o: nat)
    ensures o + PACKET_SIZE <= PTI_BUFFER_SIZE
  {
    a % SLOTS * PACKET_SIZE
  }

  /** The packets from lo on are still in the buffer. */
  ghost predicate Holds(buf: seq<Byte>, stream: seq<Packet>, lo: nat) {
    && |buf| == PTI_BUFFER_SIZE && lo <= |stream| < lo + SLOTS
    && forall a :: lo <= a < |stream| ==> buf[Offset(a)..Offset(a) + PACKET_SIZE] == stream[a]
  }

  lemma SlotsApart(a: nat, b: nat)
    requires a < b < a + SLOTS
    ensures Offset(a) + PACKET_SIZE <= Offset(b) || Offset(b) + PACKET_SIZE <= Offset(a)
  {
    assert a % SLOTS != b % SLOTS;
  }

  function Put(buf: seq<Byte>, o: nat, p: seq<Byte>): (r: seq<Byte>)
    requires o + |p| <= |buf|
    ensures |r| == |buf|
  {
    buf[..o] + p + buf[o + |p|..]
  }

  lemma PutApart(buf: seq<Byte>, o: nat, p: seq<Byte>, a: nat, b: nat)
    requires o + |p| <= |buf| && a <= b <= |buf| && (b <= o || o + |p| <= a)
    ensures Put(buf, o, p)[a..b] == buf[a..b]
  {
  }

  lemma PutThere(buf: seq<Byte>, o: nat, p: seq<Byte>)
    requires o + |p| <= |buf|
    ensures Put(buf, o, p)[o..o + |p|] == p
  {
  }

  /** The hardware writes the next packet. */
  lemma ArriveHolds(buf: seq<Byte>, stream: seq<Packet>, lo: nat, p: Packet)
    requires Holds(buf, stream, lo) && |stream| + 1 < lo + SLOTS
    ensures Holds(Put(buf, Offset(|stream|), p), stream + [p], lo)
  {
    hide Offset, Put;
    var o := Offset(|stream|);
    PutThere(buf, o, p);
    forall a | lo <= a < |stream|
      ensures Put(buf, o, p)[Offset(a)..Offset(a) + PACKET_SIZE] == stream[a]
    {
      SlotsApart(a, |stream|);
      PutApart(buf, o, p, Offset(a), Offset(a) + PACKET_SIZE);
    }
  }

  lemma HoldsLess(buf: seq<Byte>, stream: seq<Packet>, lo: nat, hi: nat)
    requires Holds(buf, stream, lo) && lo <= hi <= |stream|
    ensures Holds(buf, stream, hi)
  {
  }

  // ---------- the work queue

  /** A stretch of the stream that lies in one piece in the buffer. */
  datatype Span = Span(start: nat, count: nat)

  predicate InOnePiece(s: Span) {
    s.start % SLOTS + s.count <= SLOTS
  }

  /** Consecutive stretches from one packet number to another. */
  ghost predicate Chain(spans: seq<Span>, from: nat, to: nat) {
    if spans == [] then from == to
    else spans[0].start == from && InOnePiece(spans[0]) && Chain(spans[1..], from + spans[0].count, to)
  }

  lemma {:induction false} ChainSnoc(spans: seq<Span>, from: nat, to: nat, count: nat)
    requires Chain(spans, from, to) && InOnePiece(Span(to, count))
    ensures Chain(spans + [Span(to, count)], from, to + count)
  {
    if spans == [] {
      assert (spans + [Span(to, count)])[1..] == [];
    } else {
      ChainSnoc(spans[1..], from + spans[0].count, to, count);
      assert (spans + [Span(to, count)])[1..] == spans[1..] + [Span(to, count)];
    }
  }

  lemma {:induction false} ChainOrder(spans: seq<Span>, from: nat, to: nat)
    requires Chain(spans, from, to)
    ensures from <= to && (spans != [] ==> spans[0].start == from && from + spans[0].count <= to)
  {
    if spans != [] { ChainOrder(spans[1..], from + spans[0].count, to); }
  }

  /** Every packet from one end to the other is in exactly one of the stretches. */
  lemma {:induction false} ChainCovers(spans: seq<Span>, from: nat, to: nat, a: nat) returns (i: nat)
    requires Chain(spans, from, to) && from <= a < to
    ensures i < |spans| && spans[i].start <= a < spans[i].start + spans[i].count
    ensures forall j :: 0 <= j < |spans| && j != i ==> !(spans[j].start <= a < spans[j].start + spans[j].count)
  {
    if a < from + spans[0].count {
      i := 0;
      forall j | 0 < j < |spans|
        ensures spans[j].start > a
      {
        ChainLater(spans[1..], from + spans[0].count, to, j - 1);
      }
    } else {
      var k := ChainCovers(spans[1..], from + spans[0].count, to, a);
      i := k + 1;
      forall j | 0 <= j < |spans| && j != i
        ensures !(spans[j].start <= a < spans[j].start + spans[j].count)
      {
        if j > 0 { assert spans[j] == spans[1..][j - 1]; }
      }
    }
  }

  lemma {:induction false} ChainLater(spans: seq<Span>, from: nat, to: nat, j: nat)
    requires Chain(spans, from, to) && j < |spans|
    ensures spans[j].start >= from
  {
    if j > 0 { ChainLater(spans[1..], from + spans[0].count, to, j - 1); }
  }

  /** The i-th queue entry from r on. */
  function Ring(r: nat, i: nat): (j: nat)
    ensures j < QUEUE_SIZE
  {
    (r + i) % QUEUE_SIZE
  }

  /** The ring of queue entries from r on holds the stretches. */
  ghost predicate Queued(offsets: seq<nat>, counts: seq<nat>, r: nat, spans: seq<Span>) {
    && |offsets| == |counts| == QUEUE_SIZE && r < QUEUE_SIZE && |spans| < QUEUE_SIZE
    && forall i :: 0 <= i < |spans| ==>
         offsets[Ring(r, i)] == Offset(spans[i].start) && counts[Ring(r, i)] == spans[i].count
  }

  lemma QueuePush(offsets: seq<nat>, counts: seq<nat>, r: nat, spans: seq<Span>, s: Span)
    requires Queued(offsets, counts, r, spans) && |spans| + 1 < QUEUE_SIZE
    ensures var w := Ring(r, |spans|);
            Queued(offsets[w := Offset(s.start)], counts[w := s.count], r, spans + [s])
  {
    hide Offset, Ring;
    var w := Ring(r, |spans|);
    forall i: nat | i < |spans|
      ensures Ring(r, i) != w
    {
      RingApart(r, i, |spans|);
    }
  }

  lemma RingApart(r: nat, i: nat, j: nat)
    requires i < j < i + QUEUE_SIZE
    ensures Ring(r, i) != Ring(r, j)
  {
  }

  /** The thread's test for an overflow: with any number m of entries outstanding, the two
      indices meet exactly when m is a multiple of QUEUE_SIZE. A full ring, too, looks empty. */
  lemma OverflowTest(r: nat, m: nat)
    requires r < QUEUE_SIZE
    ensures Ring(r, m) == r <==> m % QUEUE_SIZE == 0
  {
  }

  // ---------- the indices alone, for any number of outstanding entries

  type Index = i: nat | i < QUEUE_SIZE

  /** Where the thread stands: before down(), before it looks at the indices, at work on an
      entry that it has copied. */
  datatype Stage = Resting | Awake | Busy

  datatype Queue = Queue(readIndex: Index, writeIndex: Index, workSem: nat, stage: Stage) {
    /** The entries that the thread has not copied, if none was lost. */
    function Ahead(): nat {
      workSem + (if stage.Awake? then 1 else 0)
    }
  }

  /** An entry is queued. */
  function PollStep(q: Queue): Queue {
    q.(writeIndex := (q.writeIndex + 1) % QUEUE_SIZE, workSem := q.workSem + 1)
  }

  function DownStep(q: Queue): Queue
    requires q.stage.Resting? && q.workSem > 0
  {
    q.(workSem := q.workSem - 1, stage := Awake)
  }

  /** When the indices are the same, the thread takes the queue for overflown and goes back
      to sleep. */
  function FetchStep(q: Queue): Queue
    requires q.stage.Awake?
  {
    q.(stage := if q.writeIndex == q.readIndex then Resting else Busy)
  }

  function ReleaseStep(q: Queue): Queue
    requires q.stage.Busy?
  {
    q.(readIndex := (q.readIndex + 1) % QUEUE_SIZE, stage := Resting)
  }

  /** The thread wakes up, and works off an entry if it takes one. */
  function WakeStep(q: Queue): Queue
    requires q.stage.Resting? && q.workSem > 0
  {
    var f := FetchStep(DownStep(q));
    if f.stage.Busy? then ReleaseStep(f) else f
  }

  function Polls(q: Queue, n: nat): Queue {
    if n == 0 then q else PollStep(Polls(q, n - 1))
  }

  lemma PollsFew(q: Queue)
    ensures Polls(q, 0) == q && Polls(q, 1) == PollStep(q) && Polls(q, 2) == PollStep(PollStep(q))
  {
    hide PollStep;
  }

  /** How many entries are taken in n wake-ups. */
  function Taken(q: Queue, n: nat): nat
    requires q.stage.Resting? && n <= q.workSem
    decreases n
  {
    if n == 0 then 0 else (if q.writeIndex == q.readIndex then 0 else 1) + Taken(WakeStep(q), n - 1)
  }

  lemma {:induction false} PollsRing(r: nat, n: nat)
    requires r < QUEUE_SIZE
    ensures Polls(Queue(r, r, 0, Resting), n) == Queue(r, Ring(r, n), n, Resting)
  {
    if n == 0 {
      RingShift(r, 0);
    } else {
      PollsRing(r, n - 1);
      RingNext(r, n - 1);
    }
  }

  lemma {:induction false} TakenRing(r: nat, m: nat, n: nat, sem: nat)
    requires r < QUEUE_SIZE && m < QUEUE_SIZE && n <= sem
    ensures Taken(Queue(r, Ring(r, m), sem, Resting), n) == if n < m then n else m
    decreases n
  {
    hide Ring;
    if n > 0 {
      OverflowTest(r, m);
      if m == 0 {
        TakenRing(r, 0, n - 1, sem - 1);
      } else {
        RingShift(r, m - 1);
        TakenRing((r + 1) % QUEUE_SIZE, m - 1, n - 1, sem - 1);
      }
    }
  }

  lemma RingWraps(r: nat, m: nat)
    ensures Ring(r, m) == Ring(r, m % QUEUE_SIZE)
  {
    var q := m / QUEUE_SIZE;
    assert r + m == r + m % QUEUE_SIZE + QUEUE_SIZE * q;
  }

  /** When m entries are queued while the thread does not run, and it then wakes up once for
      each, it takes all of them if and only if m is below QUEUE_SIZE; of QUEUE_SIZE entries
      it takes none. */
  lemma EntriesTaken(r: nat, m: nat)
    requires r < QUEUE_SIZE
    ensures Polls(Queue(r, r, 0, Resting), m).workSem == m && Polls(Queue(r, r, 0, Resting), m).stage.Resting?
    ensures Taken(Polls(Queue(r, r, 0, Resting), m), m) == m % QUEUE_SIZE
    ensures Taken(Polls(Queue(r, r, 0, Resting), m), m) == m <==> m < QUEUE_SIZE
  {
    hide Ring, Polls, Taken;
    PollsRing(r, m);
    RingWraps(r, m);
    TakenRing(r, m % QUEUE_SIZE, m, m);
  }

  /** The indices, what the entries are (numbered as they were queued), how many have been
      queued, how often the thread has looked for one, and what it took. */
  datatype History = History(q: Queue, slots: seq<nat>, polls: nat, looks: nat, taken: seq<nat>)

  /** The timer queues an entry, or the thread goes on. */
  datatype Move = Poll | Go

  predicate Looks(h: History, move: Move) {
    move.Go? && h.q.stage.Awake?
  }

  function Next(h: History, move: Move): (r: History)
    requires |h.slots| == QUEUE_SIZE
    ensures |r.slots| == QUEUE_SIZE
  {
    var q := h.q;
    if move.Poll? then h.(q := PollStep(q), slots := h.slots[q.writeIndex := h.polls], polls := h.polls + 1)
    else
      match q.stage
      case Resting => if q.workSem == 0 then h else h.(q := DownStep(q))
      case Awake =>
        h.(q := FetchStep(q), looks := h.looks + 1,
           taken := if q.writeIndex == q.readIndex then h.taken else h.taken + [h.slots[q.readIndex]])
      case Busy => h.(q := ReleaseStep(q))
  }

  /** A run of poller and thread, from an empty queue on. */
  function After(slots: seq<nat>, moves: seq<Move>): (h: History)
    requires |slots| == QUEUE_SIZE
    ensures |h.slots| == QUEUE_SIZE
  {
    if moves == [] then History(Queue(0, 0, 0, Resting), slots, 0, 0, [])
    else Next(After(slots, moves[..|moves| - 1]), moves[|moves| - 1])
  }

  /** Each time the thread looked it took an entry, and these are the first ones, in order. */
  predicate InOrder(h: History) {
    |h.taken| == h.looks && forall i :: 0 <= i < |h.taken| ==> h.taken[i] == i
  }

  /** The last entries queued are in the ring. */
  ghost predicate SlotsOk(h: History) {
    && |h.slots| == QUEUE_SIZE && h.q.writeIndex == h.polls % QUEUE_SIZE
    && forall e: nat :: h.polls - QUEUE_SIZE <= e < h.polls ==> h.slots[Ring(0, e)] == e
  }

  /** Nothing has been lost. */
  ghost predicate CountsOk(h: History) {
    var done := if h.q.stage.Busy? then h.looks - 1 else h.looks;
    && 0 <= done && h.q.readIndex == done % QUEUE_SIZE && h.looks + h.q.Ahead() == h.polls
  }

  lemma PollSlots(h: History)
    requires SlotsOk(h)
    ensures SlotsOk(Next(h, Poll))
  {
    var r := Next(h, Poll);
    RingNext(0, h.polls);
    forall e: nat | r.polls - QUEUE_SIZE <= e < r.polls
      ensures r.slots[Ring(0, e)] == e
    {
      if e < h.polls { RingApart(0, e, h.polls); }
    }
  }

  /** The thread looks while m entries are ahead: it takes the right one if and only if m is
      below QUEUE_SIZE. */
  lemma LookIff(h: History)
    requires SlotsOk(h) && CountsOk(h) && InOrder(h) && h.q.stage.Awake?
    ensures InOrder(Next(h, Go)) <==> h.q.Ahead() < QUEUE_SIZE
    ensures InOrder(Next(h, Go)) ==> CountsOk(Next(h, Go))
  {
    hide Ring;
    var m, r := h.q.Ahead(), Next(h, Go);
    OverflowTest(h.looks % QUEUE_SIZE, m);
    RingMod(h.looks, m);
    if h.q.writeIndex != h.q.readIndex {
      if m < QUEUE_SIZE {
        RingIs(h.looks);
      } else {
        RingIs(h.looks);
        RingIs(h.polls);
        var e := Newest(h.looks, h.polls);
        assert r.taken[h.looks] == e;
      }
    }
  }

  lemma RingIs(e: nat)
    ensures Ring(0, e) == e % QUEUE_SIZE
  {
  }

  lemma RingMod(a: nat, m: nat)
    ensures Ring(a % QUEUE_SIZE, m) == (a + m) % QUEUE_SIZE
  {
    var q := a / QUEUE_SIZE;
    assert a + m == a % QUEUE_SIZE + m + QUEUE_SIZE * q;
  }

  /** The last entry before n in the place of entry a. */
  lemma {:induction false} Newest(a: nat, n: nat) returns (e: nat)
    requires a + QUEUE_SIZE <= n && Ring(0, a) != Ring(0, n)
    ensures a < e < n <= e + QUEUE_SIZE && Ring(0, e) == Ring(0, a)
    decreases n - a
  {
    hide Ring;
    e := a + QUEUE_SIZE;
    RingRound(a);
    if e + QUEUE_SIZE < n { e := Newest(e, n); }
  }

  lemma RingRound(a: nat)
    ensures Ring(0, a + QUEUE_SIZE) == Ring(0, a)
  {
  }

  /** What has gone wrong stays wrong. */
  lemma OutOfOrder(h: History, move: Move)
    requires |h.slots| == QUEUE_SIZE && |h.taken| <= h.looks && !InOrder(h)
    ensures !InOrder(Next(h, move)) && |Next(h, move).taken| <= Next(h, move).looks
  {
    if |h.taken| == h.looks {
      var i :| 0 <= i < |h.taken| && h.taken[i] != i;
      assert Next(h, move).taken[i] != i;
    }
  }

  /** If move n is a look, then fewer than QUEUE_SIZE entries are ahead. */
  predicate LookOk(slots: seq<nat>, moves: seq<Move>, n: nat)
    requires |slots| == QUEUE_SIZE && n < |moves|
  {
    var h := After(slots, moves[..n]);
    Looks(h, moves[n]) ==> h.q.Ahead() < QUEUE_SIZE
  }

  /** The thread never looks while QUEUE_SIZE entries or more are ahead of it. */
  predicate NeverFull(slots: seq<nat>, moves: seq<Move>)
    requires |slots| == QUEUE_SIZE
  {
    forall n :: 0 <= n < |moves| ==> LookOk(slots, moves, n)
  }

  lemma LookEarlier(slots: seq<nat>, moves: seq<Move>, k: nat, n: nat)
    requires |slots| == QUEUE_SIZE && n < k <= |moves|
    ensures LookOk(slots, moves[..k], n) == LookOk(slots, moves, n)
  {
    assert moves[..k][..n] == moves[..n];
  }

  lemma NeverFullNext(slots: seq<nat>, moves: seq<Move>)
    requires |slots| == QUEUE_SIZE && moves != []
    ensures NeverFull(slots, moves) <==> NeverFull(slots, moves[..|moves| - 1]) && LookOk(slots, moves, |moves| - 1)
  {
    hide LookOk;
    var front := moves[..|moves| - 1];
    forall n: nat | n < |front| ensures LookOk(slots, front, n) == LookOk(slots, moves, n) {
      LookEarlier(slots, moves, |moves| - 1, n);
    }
    if NeverFull(slots, moves) {
      forall n | 0 <= n < |front| ensures LookOk(slots, front, n) { assert LookOk(slots, moves, n); }
    }
  }

  /** In any interleaving of poller and thread, the thread takes all entries, in order, as far
      as it gets, if and only if it never looks while QUEUE_SIZE or more are ahead of it. */
  lemma {:induction false} TakenIff(slots: seq<nat>, moves: seq<Move>)
    requires |slots| == QUEUE_SIZE
    ensures var h := After(slots, moves);
            && (InOrder(h) <==> NeverFull(slots, moves))
            && SlotsOk(h) && |h.taken| <= h.looks && (InOrder(h) ==> CountsOk(h))
  {
    hide SlotsOk, CountsOk, InOrder, NeverFull, Next;
    if moves == [] {
      StartInOrder(slots);
    } else {
      var n := |moves| - 1;
      TakenIff(slots, moves[..n]);
      NeverFullNext(slots, moves);
      NextTaken(After(slots, moves[..n]), moves[n]);
    }
  }

  lemma StartInOrder(slots: seq<nat>)
    requires |slots| == QUEUE_SIZE
    ensures var h := After(slots, []); NeverFull(slots, []) && InOrder(h) && SlotsOk(h) && CountsOk(h) && |h.taken| <= h.looks
  {
  }

  lemma NextTaken(h: History, move: Move)
    requires |h.slots| == QUEUE_SIZE && SlotsOk(h) && |h.taken| <= h.looks && (InOrder(h) ==> CountsOk(h))
    ensures var r := Next(h, move);
            && (InOrder(r) <==> InOrder(h) && (Looks(h, move) ==> h.q.Ahead() < QUEUE_SIZE))
            && SlotsOk(r) && |r.taken| <= r.looks && (InOrder(r) ==> CountsOk(r))
  {
    hide SlotsOk;
    SlotsKept(h, move);
    if !InOrder(h) {
      OutOfOrder(h, move);
    } else if Looks(h, move) {
      LookIff(h);
    } else if h.q.stage.Busy? {
      RingNext(0, h.looks - 1);
      RingIs(h.looks - 1);
      RingIs(h.looks);
    }
  }

  lemma SlotsKept(h: History, move: Move)
    requires SlotsOk(h)
    ensures SlotsOk(Next(h, move))
  {
    if move.Poll? { PollSlots(h); }
  }

  /** Once QUEUE_SIZE entries or more are ahead of the thread, the next time it looks it loses
      one or takes a wrong one, whatever happens in between. */
  lemma {:induction false} TooMany(slots: seq<nat>, moves: seq<Move>, more: seq<Move>)
    requires |slots| == QUEUE_SIZE && After(slots, moves).q.Ahead() >= QUEUE_SIZE
    ensures InOrder(After(slots, moves + more)) ==> After(slots, moves + more).looks == After(slots, moves).looks
    ensures InOrder(After(slots, moves + more)) ==> After(slots, moves + more).q.Ahead() >= QUEUE_SIZE
  {
    hide InOrder, Next;
    if more == [] {
      NothingMore(moves);
    } else {
      var n := |more| - 1;
      TooMany(slots, moves, more[..n]);
      assert (moves + more)[..|moves| + n] == moves + more[..n];
      var h := After(slots, moves + more[..n]);
      TakenIff(slots, moves + more[..n]);
      NextTaken(h, more[n]);
      if !Looks(h, more[n]) { NextAhead(h, more[n]); }
    }
  }

  lemma NextAhead(h: History, move: Move)
    requires |h.slots| == QUEUE_SIZE && !Looks(h, move)
    ensures Next(h, move).q.Ahead() >= h.q.Ahead() && Next(h, move).looks == h.looks
  {
  }

  lemma RingNext(r: nat, i: nat)
    ensures (Ring(r, i) + 1) % QUEUE_SIZE == Ring(r, i + 1)
  {
  }

  lemma RingShift(r: nat, i: nat)
    requires r < QUEUE_SIZE
    ensures Ring((r + 1) % QUEUE_SIZE, i) == Ring(r, i + 1) && Ring(r, 0) == r
  {
  }

  lemma QueuePop(offsets: seq<nat>, counts: seq<nat>, r: nat, spans: seq<Span>)
    requires Queued(offsets, counts, r, spans) && spans != []
    ensures offsets[r] == Offset(spans[0].start) && counts[r] == spans[0].count
    ensures Queued(offsets, counts, (r + 1) % QUEUE_SIZE, spans[1..])
  {
    hide Offset, Ring;
    var next := (r + 1) % QUEUE_SIZE;
    RingShift(r, 0);
    forall i: nat | i < |spans| - 1
      ensures Ring(next, i) == Ring(r, i + 1)
    {
      RingShift(r, i);
    }
  }

  lemma QueueHead(offsets: seq<nat>, counts: seq<nat>, r: nat, spans: seq<Span>)
    requires Queued(offsets, counts, r, spans) && spans != []
    ensures offsets[r] == Offset(spans[0].start) && counts[r] == spans[0].count && Ring(r, |spans|) != r
  {
    QueuePop(offsets, counts, r, spans);
    RingShift(r, 0);
    RingApart(r, 0, |spans|);
  }

  // ---------- polling

  /** What the poller computes from the two positions in the buffer. */
  lemma PollCounts(polled: nat, total: nat)
    requires polled <= total < polled + SLOTS
    ensures var i, j := polled % SLOTS, total % SLOTS;
            && (i <= j ==> total - polled == j - i && InOnePiece(Span(polled, j - i)))
            && (i > j ==> total - polled == SLOTS - i + j && InOnePiece(Span(polled, SLOTS - i))
                          && (polled + (SLOTS - i)) % SLOTS == 0 && InOnePiece(Span(polled + (SLOTS - i), j)))
  {
    var i, j := polled % SLOTS, total % SLOTS;
    var d := total - polled;
    assert total % SLOTS == (i + d) % SLOTS;
    if i + d < SLOTS {
      assert j == i + d;
    } else {
      assert j == i + d - SLOTS;
      assert (polled + (SLOTS - i)) % SLOTS == 0;
    }
  }

  // ---------- sorting

  /** The bytes collected for input t. */
  function Row(aux: seq<Byte>, t: nat, count: nat): seq<Byte>
    requires |aux| == TAG_COUNT * AUX_SIZE && t < TAG_COUNT && count <= AUX_COUNT
  {
    aux[t * AUX_SIZE..t * AUX_SIZE + PACKET_SIZE_WO_HEADER * count]
  }

  lemma RowSize(aux: seq<Byte>, t: nat, count: nat)
    requires |aux| == TAG_COUNT * AUX_SIZE && t < TAG_COUNT && count <= AUX_COUNT
    ensures |Row(aux, t, count)| == PACKET_SIZE_WO_HEADER * count
  {
  }

  lemma RowGrows(aux: seq<Byte>, t: nat, count: nat, b: seq<Byte>)
    requires |aux| == TAG_COUNT * AUX_SIZE && t < TAG_COUNT && count < AUX_COUNT && |b| == PACKET_SIZE_WO_HEADER
    ensures var o := t * AUX_SIZE + PACKET_SIZE_WO_HEADER * count;
            && o + |b| <= |aux|
            && Row(Put(aux, o, b), t, count + 1) == Row(aux, t, count) + b
            && forall u, n :: 0 <= u < TAG_COUNT && u != t && 0 <= n <= AUX_COUNT ==>
                 Row(Put(aux, o, b), u, n) == Row(aux, u, n)
  {
    var o := t * AUX_SIZE + PACKET_SIZE_WO_HEADER * count;
    RowPut(aux[..t * AUX_SIZE], Row(aux, t, count), b, aux[o + |b|..], aux[o..o + |b|], aux);
    forall u, n | 0 <= u < TAG_COUNT && u != t && 0 <= n <= AUX_COUNT
      ensures Row(Put(aux, o, b), u, n) == Row(aux, u, n)
    {
      PutApart(aux, o, b, u * AUX_SIZE, u * AUX_SIZE + PACKET_SIZE_WO_HEADER * n);
    }
  }

  lemma RowPut(x: seq<Byte>, row: seq<Byte>, b: seq<Byte>, z: seq<Byte>, old_b: seq<Byte>, aux: seq<Byte>)
    requires aux == x + row + old_b + z && |old_b| == |b|
    ensures Put(aux, |x| + |row|, b)[|x|..|x| + |row| + |b|] == row + b
  {
    assert Put(aux, |x| + |row|, b) == x + row + b + z;
  }
}
