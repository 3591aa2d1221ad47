/** The demultiplexer driver: a timer that polls the DMA engine and a thread that sorts the
    packets, with a work queue and a semaphore between them. The timer may run between any
    two steps of the thread. */
module PtiDriver {
  import opened Buffers
  import opened PtiModel

  /** Where stream_injector stands: before and after down(), in its two inner loops. */
  datatype Phase = Waiting | Woken | Sorting | Flushing

  /** What can happen next: a packet arrives, the timer fires, the thread goes on. */
  datatype Event = Arrives(p: Packet) | Timer(extra: nat, acked: bool) | Thread

  /** The payload bytes that are still in auxbuf for input t. */
  ghost function Pending(phase: Phase, n: nat, aux: seq<Byte>, count1: seq<nat>, t: nat): seq<Byte>
    requires |aux| == TAG_COUNT * AUX_SIZE && |count1| == TAG_COUNT && t < TAG_COUNT && count1[t] <= AUX_COUNT
  {
    if phase.Sorting? || (phase.Flushing? && t >= n) then Row(aux, t, count1[t]) else []
  }

  /** Input t has been given, or will be given next, exactly the payloads due to it. */
  ghost predicate Balanced(calls: seq<Call>, wanted: bool, done: seq<Packet>, pending: seq<Byte>, t: nat) {
    Delivered(calls, t) + pending == if wanted then Due(done, t) else []
  }

  /** Each input is balanced, and the demultiplexers were called with full packets, at most
      AUX_COUNT at a time. */
  ghost predicate SortedSoFar(calls: seq<Call>, demux: seq<bool>, done: seq<Packet>,
                              phase: Phase, n: nat, aux: seq<Byte>, count1: seq<nat>) {
    && |aux| == TAG_COUNT * AUX_SIZE && |count1| == |demux| == TAG_COUNT
    && (forall i :: 0 <= i < |calls| ==> Batch(calls[i]) && demux[calls[i].tag])
    && (forall t :: 0 <= t < TAG_COUNT ==> count1[t] < AUX_COUNT && (!demux[t] ==> count1[t] == 0))
    && (forall t :: 0 <= t < TAG_COUNT ==> Balanced(calls, demux[t], done, Pending(phase, n, aux, count1, t), t))
  }

  class Driver {
    const dma_0_buffer_base: nat
    var dma_0_buffer_rp: nat
    var dma_0_write: nat       // PTI_DMA_0_WRITE, without the part of a packet
    const back_buffer: array<Byte>
    const queueOffset: array<nat>
    const queueCount: array<nat>
    var readIndex: Index
    var writeIndex: Index
    var workSem: nat
    const demux: seq<bool>
    var calls: seq<Call>       // the calls of the demultiplexer so far

    // locals of the thread
    var phase: Phase
    var offset: nat
    var count: nat
    var n: nat
    var pFrom: nat
    const auxbuf: array<Byte>
    const pTo: array<nat>
    const count1: array<nat>

    // history
    var stream: seq<Packet>        // what the hardware has written
    var injected: nat              // how many of them have been sorted
    ghost var polled: nat          // how many of them have been queued
    ghost var first: nat           // where the oldest queue entry starts
    ghost var spans: seq<Span>     // what the queue entries stand for

    ghost predicate Allocated() {
      && back_buffer.Length == PTI_BUFFER_SIZE && auxbuf.Length == TAG_COUNT * AUX_SIZE && back_buffer != auxbuf
      && queueOffset.Length == queueCount.Length == QUEUE_SIZE && pTo.Length == count1.Length == TAG_COUNT
      && queueOffset != queueCount && queueOffset != pTo && queueOffset != count1
      && queueCount != pTo && queueCount != count1 && pTo != count1
      && |demux| == TAG_COUNT && dma_0_buffer_base + PTI_BUFFER_SIZE < 0x1_0000_0000
    }

    /** The packets not yet sorted are in the buffer. */
    ghost predicate BufferOk()
      reads this`stream, this`injected, this`polled, back_buffer
    {
      injected <= polled <= |stream| < injected + SLOTS && Holds(back_buffer[..], stream, injected)
    }

    ghost predicate HardwareOk()
      reads this`dma_0_write, this`stream
    {
      dma_0_write == dma_0_buffer_base + Offset(|stream|)
    }

    ghost predicate PollerOk()
      reads this`dma_0_buffer_rp, this`polled
    {
      dma_0_buffer_rp == dma_0_buffer_base + Offset(polled)
    }

    /** The thread is at work on the oldest entry, which it has copied. */
    predicate Working()
      reads this`phase
    {
      phase.Sorting? || phase.Flushing?
    }

    /** The entries that it has not copied, and where they begin. */
    ghost function Rest(): seq<Span>
      reads this`spans, this`phase
    {
      if Working() && spans != [] then spans[1..] else spans
    }

    ghost function Head(): Index
      reads this`readIndex, this`phase
    {
      if Working() then (readIndex + 1) % QUEUE_SIZE else readIndex
    }

    /** The indices, the semaphore and the thread, as the queue alone sees them. */
    function Indices(): Queue
      reads this`readIndex, this`writeIndex, this`workSem, this`phase
    {
      Queue(readIndex, writeIndex, workSem, if phase.Waiting? then Resting else if phase.Woken? then Awake else Busy)
    }

    /** The queue entries are consecutive stretches up to the last packet polled; those not yet
        copied are in the ring, and the semaphore counts those that the thread has not been
        woken for. */
    ghost predicate QueueOk()
      reads this`spans, this`first, this`polled, this`readIndex, this`writeIndex, this`workSem, this`phase,
            queueOffset, queueCount
    {
      && Queued(queueOffset[..], queueCount[..], Head(), Rest()) && Chain(spans, first, polled)
      && (Working() ==> spans != [])
      && writeIndex == Ring(Head(), |Rest()|) && Indices().Ahead() == |Rest()|
    }

    /** How far the thread has got with the oldest entry. */
    ghost predicate ThreadOk()
      reads this`phase, this`spans, this`first, this`injected, this`offset, this`count, this`n, this`pFrom, pTo, count1
    {
      && pTo.Length == count1.Length == TAG_COUNT
      && match phase
         case Waiting => injected == first
         case Woken => injected == first
         case Sorting =>
           && spans != [] && count == spans[0].count && n <= count && injected == first + n
           && pFrom == Offset(first) + n * PACKET_SIZE && RowsOk()
         case Flushing => spans != [] && injected == first + spans[0].count && n <= TAG_COUNT
    }

    ghost predicate CallsOk()
      reads this`calls, this`stream, this`injected, this`phase, this`n, auxbuf, count1
    {
      injected <= |stream| && SortedSoFar(calls, demux, stream[..injected], phase, n, auxbuf[..], count1[..])
    }

    ghost predicate Valid()
      reads this, back_buffer, queueOffset, queueCount, auxbuf, pTo, count1
    {
      Allocated() && BufferOk() && HardwareOk() && PollerOk() && QueueOk() && ThreadOk() && CallsOk()
    }

    constructor (base: nat, demux: seq<bool>)
      requires base + PTI_BUFFER_SIZE < 0x1_0000_0000 && |demux| == TAG_COUNT
      ensures Valid() && stream == [] && calls == [] && polled == 0 && phase == Waiting && this.demux == demux
      ensures fresh(back_buffer) && fresh(queueOffset) && fresh(queueCount) && fresh(auxbuf) && fresh(pTo) && fresh(count1)
    {
      dma_0_buffer_base, dma_0_buffer_rp, dma_0_write, this.demux := base, base, base, demux;
      back_buffer, auxbuf := new Byte[PTI_BUFFER_SIZE], new Byte[TAG_COUNT * AUX_SIZE];
      queueOffset, queueCount := new nat[QUEUE_SIZE], new nat[QUEUE_SIZE];
      pTo, count1 := new nat[TAG_COUNT], new nat[TAG_COUNT](_ => 0);
      readIndex, writeIndex, workSem := 0, 0, 0;
      calls, phase, offset, count, n, pFrom := [], Waiting, 0, 0, 0, 0;
      stream, polled, first, injected, spans := [], 0, 0, 0, [];
      new;
      hide Holds, Queued, Chain, SortedSoFar, Offset, Ring;
      StartFacts(back_buffer[..], queueOffset[..], queueCount[..], demux, auxbuf[..], count1[..]);
    }

    /** The DMA engine writes one more packet. It does not reach the packets that are still
        to be sorted: the thread is assumed to be fast enough. */
    method Arrive(p: Packet)
      requires Valid() && |stream| + 1 < injected + SLOTS
      modifies this`stream, this`dma_0_write, back_buffer
      ensures Valid() && stream == old(stream) + [p]
    {
      hide PollerOk, QueueOk, ThreadOk, SortedSoFar, Holds, Put, Offset;
      ghost var buf := back_buffer[..];
      ArriveHolds(buf, stream, injected, p);
      DueLess(stream, [p], injected);
      OffsetNext(|stream|);
      CopyIn(back_buffer, dma_0_write - dma_0_buffer_base, p);
      dma_0_write := dma_0_write + PACKET_SIZE;
      if dma_0_write == dma_0_buffer_base + PTI_BUFFER_SIZE { dma_0_write := dma_0_buffer_base; }
      stream := stream + [p];
    }

    // ---------- the timer

    /** One entry for the thread. */
    method Enqueue(o: nat, c: nat)
      requires Allocated() && QueueOk() && ThreadOk() && Indices().Ahead() + 1 < QUEUE_SIZE
      requires o == Offset(polled) && InOnePiece(Span(polled, c))
      modifies this`writeIndex, this`workSem, this`spans, this`polled, queueOffset, queueCount
      ensures QueueOk() && ThreadOk() && polled == old(polled) + c && spans == old(spans) + [Span(old(polled), c)]
      ensures Indices() == PollStep(old(Indices()))
    {
      hide Offset, Ring, Queued, Chain, RowsOk;
      QueuePush(queueOffset[..], queueCount[..], Head(), Rest(), Span(polled, c));
      ChainSnoc(spans, first, polled, c);
      RingNext(Head(), |Rest()|);
      ghost var rest := Rest();
      queueOffset[writeIndex] := o;
      queueCount[writeIndex] := c;
      writeIndex := (writeIndex + 1) % QUEUE_SIZE;
      workSem := workSem + 1;
      spans := spans + [Span(polled, c)];
      assert Rest() == rest + [Span(polled, c)];
      polled := polled + c;
    }

    /** The number of entries that a poll queues. */
    function Entries(acked: bool): (n: nat)
      reads this`dma_0_buffer_rp, this`dma_0_write
      ensures n <= 2
    {
      if !acked || dma_0_buffer_rp == dma_0_write then 0 else if dma_0_buffer_rp > dma_0_write then 2 else 1
    }

    /** process_pti_dma, while the hardware has discarded nothing. extra is the part of a
        packet that is being written, acked whether the firmware has taken note of the last
        round. Everything that has arrived is queued, or nothing if the firmware is behind. */
    method ProcessPtiDma(extra: nat, acked: bool) returns (num_packets: nat)
      requires Valid() && extra < PACKET_SIZE && Indices().Ahead() + Entries(acked) < QUEUE_SIZE
      modifies this`dma_0_buffer_rp, this`writeIndex, this`workSem, this`spans, this`polled, queueOffset, queueCount
      ensures Valid()
      ensures num_packets == |stream| - old(polled)
      ensures polled == if acked then |stream| else old(polled)
      ensures old(spans) <= spans && Indices() == Polls(old(Indices()), old(Entries(acked)))
    {
      hide QueueOk, ThreadOk, CallsOk, Holds, Offset, InOnePiece;
      var dma_0_buffer_top := dma_0_buffer_base + PTI_BUFFER_SIZE;
      var pti_wp := dma_0_write + extra;
      AlignDown(|stream|, extra);
      pti_wp := pti_wp - (pti_wp - dma_0_buffer_base) % PACKET_SIZE;
      ghost var rp := dma_0_buffer_rp;
      dma_0_buffer_rp := WrapTop(dma_0_buffer_rp, dma_0_buffer_base, dma_0_buffer_top);
      TopDiffers(dma_0_buffer_base, polled);
      assert dma_0_buffer_rp == rp;
      PollBytes(polled, |stream|);
      var buffer_round := false;
      if dma_0_buffer_rp <= pti_wp {
        num_packets := (pti_wp - dma_0_buffer_rp) / PACKET_SIZE;
      } else {
        num_packets := ((dma_0_buffer_top - dma_0_buffer_rp) + (pti_wp - dma_0_buffer_base)) / PACKET_SIZE;
        buffer_round := true;
      }
      if num_packets > 0 && acked {
        Notify(num_packets, buffer_round);
        dma_0_buffer_rp := pti_wp;
      }
    }

    /** One entry, or two if the packets go round the end of the buffer. */
    method Notify(num_packets: nat, buffer_round: bool)
      requires Allocated() && QueueOk() && ThreadOk() && PollerOk()
      requires Indices().Ahead() + (if buffer_round then 2 else 1) < QUEUE_SIZE
      requires polled + num_packets == |stream| < polled + SLOTS
      requires buffer_round <==> Offset(polled) > Offset(|stream|)
      modifies this`writeIndex, this`workSem, this`spans, this`polled, queueOffset, queueCount
      ensures QueueOk() && ThreadOk() && polled == |stream|
      ensures old(spans) <= spans && Indices() == Polls(old(Indices()), if buffer_round then 2 else 1)
    {
      hide QueueOk, ThreadOk, Offset, InOnePiece, Polls;
      PollsFew(Indices());
      PollBytes(polled, |stream|);
      if buffer_round {
        var num_packets1 := (dma_0_buffer_base + PTI_BUFFER_SIZE - dma_0_buffer_rp) / PACKET_SIZE;
        Enqueue(dma_0_buffer_rp - dma_0_buffer_base, num_packets1);
        Enqueue(0, num_packets - num_packets1);
      } else {
        Enqueue(dma_0_buffer_rp - dma_0_buffer_base, num_packets);
      }
    }

    // ---------- the thread

    /** down(&workSem), when it does not block. */
    method Down()
      requires Valid() && phase.Waiting? && workSem > 0
      modifies this`workSem, this`phase
      ensures Valid() && phase.Woken? && spans != [] && Indices() == DownStep(old(Indices()))
    {
      hide SortedSoFar, BufferOk, Chain, Queued;
      IdleSame(calls, demux, stream[..injected], n, auxbuf[..], count1[..]);
      workSem := workSem - 1;
      phase := Woken;
    }

    /** Take the oldest entry. While fewer than QUEUE_SIZE are ahead, the test for an overflow
        of the queue does not succeed. */
    method Fetch() returns (overflow: bool)
      requires Valid() && phase.Woken?
      modifies this`phase, this`offset, this`count, this`n, this`pFrom, pTo, count1
      ensures Valid() && !overflow && phase.Sorting? && Indices() == FetchStep(old(Indices()))
    {
      hide BufferOk, Holds, Offset, Chain, SortedSoFar, Queued, Ring;
      overflow := writeIndex == readIndex;
      if overflow {
        phase := Waiting;
      } else {
        offset, count := queueOffset[readIndex], queueCount[readIndex];
        ClearRows();
        phase, n, pFrom := Sorting, 0, offset;
      }
      ChainOrder(spans, first, polled);
      QueueHead(queueOffset[..], queueCount[..], readIndex, spans);
      QueuePop(queueOffset[..], queueCount[..], readIndex, spans);
      RingShift(readIndex, |spans| - 1);
    }

    /** Nothing is collected yet. */
    method ClearRows()
      requires Allocated() && phase.Woken? && CallsOk()
      modifies pTo, count1
      ensures forall t :: 0 <= t < TAG_COUNT ==> pTo[t] == t * AUX_SIZE && count1[t] == 0
      ensures SortedSoFar(calls, demux, stream[..injected], Sorting, 0, auxbuf[..], count1[..])
    {
      hide SortedSoFar;
      ghost var c0 := count1[..];
      for t := 0 to TAG_COUNT
        invariant forall u :: 0 <= u < t ==> pTo[u] == u * AUX_SIZE && count1[u] == 0
      {
        pTo[t], count1[t] := t * AUX_SIZE, 0;
      }
      NothingPending(calls, demux, stream[..injected], phase, n, auxbuf[..], c0, count1[..]);
    }

    /** The loop over the packets of an entry is done: the remainders are next. */
    method EndSorting()
      requires Valid() && phase.Sorting? && n == count
      modifies this`phase, this`n
      ensures Valid() && phase.Flushing? && n == 0 && Indices() == old(Indices())
    {
      hide BufferOk, Queued, Chain, SortedSoFar;
      SameRemainders(calls, demux, stream[..injected], n, auxbuf[..], count1[..]);
      phase, n := Flushing, 0;
    }

    /** demultiplex_dvb_packets on what is collected for input t. */
    method Demultiplex(t: nat)
      requires Allocated() && t < TAG_COUNT && count1[t] <= AUX_COUNT
      modifies this`calls
      ensures calls == old(calls) + [Call(t, Row(auxbuf[..], t, count1[t]), count1[t])]
    {
      calls := calls + [Call(t, auxbuf[t * AUX_SIZE..t * AUX_SIZE + PACKET_SIZE_WO_HEADER * count1[t]], count1[t])];
    }

    ghost predicate RowsOk()
      reads pTo, count1
    {
      && pTo.Length == count1.Length == TAG_COUNT
      && forall t :: 0 <= t < TAG_COUNT ==> pTo[t] == t * AUX_SIZE + PACKET_SIZE_WO_HEADER * count1[t]
    }

    /** Squeeze the packet into its input's row, and hand the row over when it is full. */
    method Collect(tag: nat)
      requires Allocated() && CallsOk() && RowsOk() && phase.Sorting? && tag < TAG_COUNT && demux[tag]
      requires injected < |stream| && tag == Tag(stream[injected])
      requires pFrom + PACKET_SIZE <= back_buffer.Length && back_buffer[pFrom..pFrom + PACKET_SIZE] == stream[injected]
      modifies this`calls, auxbuf, pTo, count1
      ensures RowsOk()
      ensures SortedSoFar(calls, demux, stream[..injected + 1], Sorting, n + 1, auxbuf[..], count1[..])
    {
      hide SortedSoFar, Put, Row;
      ghost var aux, c := auxbuf[..], count1[..];
      SmallCounts(calls, demux, stream[..injected], phase, n, aux, c);
      TakenIn(calls, demux, stream, injected, n, n + 1, aux, c, tag);
      assert back_buffer[pFrom + HEADER_SIZE..pFrom + PACKET_SIZE] == stream[injected][HEADER_SIZE..];
      CopyIn(auxbuf, pTo[tag], back_buffer[pFrom + HEADER_SIZE..pFrom + PACKET_SIZE]);
      pTo[tag] := pTo[tag] + PACKET_SIZE_WO_HEADER;
      count1[tag] := count1[tag] + 1;
      if count1[tag] >= AUX_COUNT {
        Demultiplex(tag);
        pTo[tag] := tag * AUX_SIZE;
        count1[tag] := 0;
        assert count1[..] == c[tag := 0];
      } else {
        assert count1[..] == c[tag := c[tag] + 1];
      }
    }

    /** Only copy the packet if its demultiplexer exists. */
    method Sort()
      requires Allocated() && CallsOk() && RowsOk() && phase.Sorting? && injected < |stream|
      requires pFrom + PACKET_SIZE <= back_buffer.Length && back_buffer[pFrom..pFrom + PACKET_SIZE] == stream[injected]
      modifies this`calls, auxbuf, pTo, count1
      ensures RowsOk()
      ensures SortedSoFar(calls, demux, stream[..injected + 1], Sorting, n + 1, auxbuf[..], count1[..])
    {
      hide SortedSoFar, RowsOk;
      var tag := back_buffer[pFrom] / 4 % 16;
      assert back_buffer[pFrom..pFrom + PACKET_SIZE][0] == back_buffer[pFrom];
      if tag < TAG_COUNT && demux[tag] {
        Collect(tag);
      } else {
        PassedOver(calls, demux, stream, injected, n, n + 1, auxbuf[..], count1[..]);
      }
    }

    /** One round of that loop. */
    method SortOne()
      requires Valid() && phase.Sorting? && n < count
      modifies this`calls, this`n, this`pFrom, this`injected, auxbuf, pTo, count1
      ensures Valid() && phase.Sorting?
      ensures n == old(n) + 1 && count == old(count) && injected == old(injected) + 1 && Indices() == old(Indices())
    {
      hide QueueOk, SortedSoFar, Holds, Offset, RowsOk;
      InBuffer();
      HoldsLess(back_buffer[..], stream, injected, injected + 1);
      Sort();
      pFrom := pFrom + PACKET_SIZE;
      n := n + 1;
      injected := injected + 1;
    }

    /** The remainder of one input. */
    method FlushOne()
      requires Valid() && phase.Flushing? && n < TAG_COUNT
      modifies this`calls, this`n
      ensures Valid() && phase.Flushing? && n == old(n) + 1 && Indices() == old(Indices())
    {
      hide BufferOk, QueueOk, SortedSoFar, Row;
      SmallCounts(calls, demux, stream[..injected], phase, n, auxbuf[..], count1[..]);
      HandedOver(calls, demux, stream[..injected], n, auxbuf[..], count1[..]);
      if count1[n] > 0 && demux[n] {
        Demultiplex(n);
      }
      n := n + 1;
    }

    /** The entry is done. */
    method Finish()
      requires Valid() && phase.Flushing? && n == TAG_COUNT
      modifies this`readIndex, this`phase, this`spans, this`first
      ensures Valid() && phase.Waiting? && spans == old(spans)[1..] && Indices() == ReleaseStep(old(Indices()))
    {
      hide BufferOk, SortedSoFar, Offset, Queued, Ring;
      AllFlushed(calls, demux, stream[..injected], auxbuf[..], count1[..]);
      readIndex := (readIndex + 1) % QUEUE_SIZE;
      first := first + spans[0].count;
      spans := spans[1..];
      phase := Waiting;
    }

    /** How much the thread still has to do. */
    ghost function Todo(): (m: (nat, nat, nat))
      reads this`spans, this`phase, this`count, this`n
    {
      (|spans|,
       match phase case Waiting => 3 case Woken => 2 case Sorting => 1 case Flushing => 0,
       if phase.Sorting? && n <= count then count - n else if phase.Flushing? && n <= TAG_COUNT then TAG_COUNT - n else 0)
    }

    /** Whatever the thread does next. */
    method ThreadStep() returns (blocked: bool)
      requires Valid()
      modifies this, auxbuf, pTo, count1
      ensures Valid() && stream == old(stream) && polled == old(polled)
      ensures blocked <==> old(phase.Waiting? && workSem == 0)
      ensures blocked ==> phase.Waiting? && workSem == 0
      ensures !blocked ==> Less(Todo(), old(Todo()))
    {
      hide BufferOk, HardwareOk, PollerOk, QueueOk, CallsOk;
      blocked := false;
      match phase
      case Waiting =>
        if workSem == 0 { return true; }
        Down();
      case Woken =>
        var _ := Fetch();
      case Sorting =>
        if n < count { SortOne(); } else { EndSorting(); }
      case Flushing =>
        if n < TAG_COUNT { FlushOne(); } else { Finish(); }
    }

    /** When the thread sleeps and nothing is queued, every demultiplexer has been given
        exactly the payloads of its packets among those polled, in order. */
    lemma Quiet()
      requires Valid() && phase.Waiting? && workSem == 0
      ensures injected == polled <= |stream|
      ensures forall t :: 0 <= t < TAG_COUNT ==>
                Delivered(calls, t) == if demux[t] then Due(stream[..polled], t) else []
    {
      hide Due, Delivered, Queued, Holds;
      assert spans == [];
      forall t: nat | t < TAG_COUNT
        ensures Delivered(calls, t) == if demux[t] then Due(stream[..polled], t) else []
      {
        assert Balanced(calls, demux[t], stream[..injected], Pending(phase, n, auxbuf[..], count1[..], t), t);
        NothingMore(Delivered(calls, t));
      }
    }

    /** The thread left alone works off the queue. */
    method Drain()
      requires Valid()
      modifies this, auxbuf, pTo, count1
      ensures Valid() && phase.Waiting? && workSem == 0 && stream == old(stream) && polled == old(polled)
    {
      hide Valid, Less;
      var blocked := false;
      while !blocked
        invariant Valid() && stream == old(stream) && polled == old(polled)
        invariant blocked ==> phase.Waiting? && workSem == 0
        decreases !blocked, Todo().0, Todo().1, Todo().2
      {
        ghost var m := Todo();
        blocked := ThreadStep();
        if !blocked { LessParts(Todo(), m); }
      }
    }

    /** Any interleaving of hardware, timer and thread. Packets arrive while there is room,
        and the timer fires unless it would leave QUEUE_SIZE entries or more ahead. */
    method Run(script: seq<Event>)
      requires Valid()
      modifies this, back_buffer, queueOffset, queueCount, auxbuf, pTo, count1
      ensures Valid()
    {
      hide Valid;
      for i := 0 to |script|
        invariant Valid()
      {
        match script[i]
        case Arrives(p) =>
          if |stream| + 1 < injected + SLOTS { Arrive(p); }
        case Timer(extra, acked) =>
          if extra < PACKET_SIZE && Indices().Ahead() + Entries(acked) < QUEUE_SIZE {
            var _ := ProcessPtiDma(extra, acked);
          }
        case Thread =>
          var _ := ThreadStep();
      }
    }

    /** Whatever happened before: once the thread has worked off the queue, one more round of
        the timer and of the thread leaves every demultiplexer with exactly the payloads of
        its packets, in the order of arrival. */
    method Settle()
      requires Valid()
      modifies this, back_buffer, queueOffset, queueCount, auxbuf, pTo, count1
      ensures Valid() && stream == old(stream) && injected == |stream|
      ensures forall t :: 0 <= t < TAG_COUNT ==> Delivered(calls, t) == if demux[t] then Due(stream, t) else []
      ensures forall i :: 0 <= i < |calls| ==> Batch(calls[i])
    {
      hide Valid, Due, Delivered;
      Drain();
      NothingQueued();
      var _ := ProcessPtiDma(0, true);
      Drain();
      Quiet();
      AllBatches();
      assert stream[..|stream|] == stream;
    }

    lemma NothingQueued()
      requires Valid() && phase.Waiting? && workSem == 0
      ensures spans == [] && Indices().Ahead() == 0
    {
    }

    lemma AllBatches()
      requires Valid()
      ensures forall i :: 0 <= i < |calls| ==> Batch(calls[i])
    {
    }

    /** The packet at pFrom is the next one of the stream. */
    lemma InBuffer()
      requires Valid() && phase.Sorting? && n < count
      ensures injected < polled && pFrom + PACKET_SIZE <= back_buffer.Length
      ensures back_buffer[pFrom..pFrom + PACKET_SIZE] == stream[injected]
    {
      hide SortedSoFar;
      ChainOrder(spans, first, polled);
      OffsetInside(spans[0], n);
    }
  }

  /** memcpy into a buffer. */
  method CopyIn(buf: array<Byte>, o: nat, p: seq<Byte>)
    requires o + |p| <= buf.Length
    modifies buf
    ensures buf[..] == Put(old(buf[..]), o, p)
  {
    forall i | 0 <= i < |p| { buf[o + i] := p[i]; }
  }

  lemma OffsetInside(s: Span, n: nat)
    requires InOnePiece(s) && n < s.count
    ensures Offset(s.start + n) == Offset(s.start) + n * PACKET_SIZE
  {
    assert (s.start + n) % SLOTS == s.start % SLOTS + n;
  }

  lemma SmallCounts(calls: seq<Call>, demux: seq<bool>, done: seq<Packet>, phase: Phase, n: nat, aux: seq<Byte>, count1: seq<nat>)
    requires SortedSoFar(calls, demux, done, phase, n, aux, count1)
    ensures |count1| == TAG_COUNT && forall t :: 0 <= t < TAG_COUNT ==> count1[t] < AUX_COUNT
  {
  }

  ghost predicate Less(a: (nat, nat, nat), b: (nat, nat, nat)) {
    a.0 < b.0 || (a.0 == b.0 && (a.1 < b.1 || (a.1 == b.1 && a.2 < b.2)))
  }

  lemma LessParts(a: (nat, nat, nat), b: (nat, nat, nat))
    requires Less(a, b)
    ensures a.0 < b.0 || (a.0 == b.0 && (a.1 < b.1 || (a.1 == b.1 && a.2 < b.2)))
  {
  }

  /** The remainder of input n is handed over. */
  lemma HandedOver(calls: seq<Call>, demux: seq<bool>, done: seq<Packet>, n: nat, aux: seq<Byte>, count1: seq<nat>)
    requires n < TAG_COUNT && SortedSoFar(calls, demux, done, Flushing, n, aux, count1)
    ensures var calls' := if count1[n] > 0 && demux[n] then calls + [Call(n, Row(aux, n, count1[n]), count1[n])] else calls;
            SortedSoFar(calls', demux, done, Flushing, n + 1, aux, count1)
  {
    hide Due, Delivered, Row;
    RowSize(aux, n, count1[n]);
    var call := Call(n, Row(aux, n, count1[n]), count1[n]);
    var calls' := if count1[n] > 0 && demux[n] then calls + [call] else calls;
    forall t: nat | t < TAG_COUNT
      ensures Balanced(calls', demux[t], done, Pending(Flushing, n + 1, aux, count1, t), t)
    {
      assert Balanced(calls, demux[t], done, Pending(Flushing, n, aux, count1, t), t);
      DeliveredNext(calls, call, t);
      NothingMore(Delivered(calls, t));
      NothingMore(Delivered(calls', t));
    }
  }

  lemma AllFlushed(calls: seq<Call>, demux: seq<bool>, done: seq<Packet>, aux: seq<Byte>, count1: seq<nat>)
    requires SortedSoFar(calls, demux, done, Flushing, TAG_COUNT, aux, count1)
    ensures SortedSoFar(calls, demux, done, Waiting, TAG_COUNT, aux, count1)
  {
    hide Due, Delivered;
    forall t: nat | t < TAG_COUNT
      ensures Balanced(calls, demux[t], done, Pending(Waiting, TAG_COUNT, aux, count1, t), t)
    {
      assert Balanced(calls, demux[t], done, Pending(Flushing, TAG_COUNT, aux, count1, t), t);
    }
  }

  lemma SameRemainders(calls: seq<Call>, demux: seq<bool>, done: seq<Packet>, n: nat, aux: seq<Byte>, count1: seq<nat>)
    requires SortedSoFar(calls, demux, done, Sorting, n, aux, count1)
    ensures SortedSoFar(calls, demux, done, Flushing, 0, aux, count1)
  {
    hide Balanced, Row;
    forall t: nat | t < TAG_COUNT
      ensures Balanced(calls, demux[t], done, Pending(Flushing, 0, aux, count1, t), t)
    {
      assert Balanced(calls, demux[t], done, Pending(Sorting, n, aux, count1, t), t);
    }
  }

  /** A packet without a demultiplexer is due to nobody. */
  lemma PassedOver(calls: seq<Call>, demux: seq<bool>, ps: seq<Packet>, k: nat, n: nat, n': nat, aux: seq<Byte>, count1: seq<nat>)
    requires k < |ps| && SortedSoFar(calls, demux, ps[..k], Sorting, n, aux, count1)
    requires Tag(ps[k]) >= TAG_COUNT || !demux[Tag(ps[k])]
    ensures SortedSoFar(calls, demux, ps[..k + 1], Sorting, n', aux, count1)
  {
    hide Due, Delivered, Row, Tag;
    forall t: nat | t < TAG_COUNT
      ensures Balanced(calls, demux[t], ps[..k + 1], Pending(Sorting, n', aux, count1, t), t)
    {
      DueNext(ps, k, t);
      assert Balanced(calls, demux[t], ps[..k], Pending(Sorting, n, aux, count1, t), t);
      NothingMore(Due(ps[..k], t));
    }
  }

  /** A packet is added to its input's collection, which is handed over when full. */
  lemma TakenIn(calls: seq<Call>, demux: seq<bool>, ps: seq<Packet>, k: nat, n: nat, n': nat, aux: seq<Byte>, count1: seq<nat>, tag: nat)
    requires k < |ps| && SortedSoFar(calls, demux, ps[..k], Sorting, n, aux, count1)
    requires tag == Tag(ps[k]) < TAG_COUNT && demux[tag]
    ensures var o := tag * AUX_SIZE + PACKET_SIZE_WO_HEADER * count1[tag];
            && o + PACKET_SIZE_WO_HEADER <= |aux|
            && var aux' := Put(aux, o, ps[k][HEADER_SIZE..]);
               if count1[tag] + 1 < AUX_COUNT then
                 SortedSoFar(calls, demux, ps[..k + 1], Sorting, n', aux', count1[tag := count1[tag] + 1])
               else
                 SortedSoFar(calls + [Call(tag, Row(aux', tag, AUX_COUNT), AUX_COUNT)], demux, ps[..k + 1], Sorting, n', aux', count1[tag := 0])
  {
    hide Due, Delivered, Row, Tag, Put, Balanced;
    var p := ps[k][HEADER_SIZE..];
    RowGrows(aux, tag, count1[tag], p);
    var o := tag * AUX_SIZE + PACKET_SIZE_WO_HEADER * count1[tag];
    var aux' := Put(aux, o, p);
    var full := count1[tag] + 1 >= AUX_COUNT;
    var count1' := count1[tag := if full then 0 else count1[tag] + 1];
    var call := Call(tag, Row(aux', tag, count1[tag] + 1), AUX_COUNT);
    var calls' := if full then calls + [call] else calls;
    RowSize(aux', tag, count1[tag] + 1);
    RowSize(aux', tag, 0);
    forall t: nat | t < TAG_COUNT
      ensures Balanced(calls', demux[t], ps[..k + 1], Pending(Sorting, n', aux', count1', t), t)
    {
      assert Balanced(calls, demux[t], ps[..k], Pending(Sorting, n, aux, count1, t), t);
      if t == tag {
        Gain(calls, ps, k, Row(aux, t, count1[t]), t, AUX_COUNT);
      } else {
        Unaffected(calls, call, demux[t], ps, k, Pending(Sorting, n, aux, count1, t), t);
      }
    }
  }

  /** The input that the packet belongs to. */
  lemma Gain(calls: seq<Call>, ps: seq<Packet>, k: nat, pending: seq<Byte>, t: nat, c: nat)
    requires k < |ps| && Tag(ps[k]) == t && Balanced(calls, true, ps[..k], pending, t)
    ensures var p := pending + ps[k][HEADER_SIZE..];
            && Balanced(calls, true, ps[..k + 1], p, t)
            && Balanced(calls + [Call(t, p, c)], true, ps[..k + 1], [], t)
  {
    hide Due, Delivered, Tag;
    var p := pending + ps[k][HEADER_SIZE..];
    DueNext(ps, k, t);
    DeliveredNext(calls, Call(t, p, c), t);
    Regroup(Delivered(calls, t), pending, ps[k][HEADER_SIZE..]);
    NothingMore(Delivered(calls + [Call(t, p, c)], t));
  }

  /** The other inputs. */
  lemma Unaffected(calls: seq<Call>, call: Call, wanted: bool, ps: seq<Packet>, k: nat, pending: seq<Byte>, t: nat)
    requires k < |ps| && Tag(ps[k]) != t && call.tag != t && Balanced(calls, wanted, ps[..k], pending, t)
    ensures Balanced(calls, wanted, ps[..k + 1], pending, t) && Balanced(calls + [call], wanted, ps[..k + 1], pending, t)
  {
    hide Due, Delivered, Tag;
    DueNext(ps, k, t);
    DeliveredNext(calls, call, t);
    NothingMore(Due(ps[..k], t));
    NothingMore(Delivered(calls, t));
  }

  lemma StartFacts(buf: seq<Byte>, offsets: seq<nat>, counts: seq<nat>, demux: seq<bool>, aux: seq<Byte>, count1: seq<nat>)
    requires |buf| == PTI_BUFFER_SIZE && |offsets| == |counts| == QUEUE_SIZE && |aux| == TAG_COUNT * AUX_SIZE
    requires |demux| == |count1| == TAG_COUNT && forall t :: 0 <= t < TAG_COUNT ==> count1[t] == 0
    ensures Holds(buf, [], 0) && Queued(offsets, counts, 0, []) && Chain([], 0, 0) && Offset(0) == 0 && Ring(0, 0) == 0
    ensures SortedSoFar([], demux, [], Waiting, 0, aux, count1)
  {
  }

  lemma IdleSame(calls: seq<Call>, demux: seq<bool>, done: seq<Packet>, n: nat, aux: seq<Byte>, count1: seq<nat>)
    ensures SortedSoFar(calls, demux, done, Waiting, n, aux, count1) <==> SortedSoFar(calls, demux, done, Woken, n, aux, count1)
  {
    hide Due, Delivered;
  }

  /** Emptying the collection before the first packet of an entry. */
  lemma NothingPending(calls: seq<Call>, demux: seq<bool>, done: seq<Packet>, phase: Phase, n: nat, aux: seq<Byte>,
                       count0: seq<nat>, count1: seq<nat>)
    requires phase.Woken? && SortedSoFar(calls, demux, done, phase, n, aux, count0)
    requires |count1| == TAG_COUNT && forall t :: 0 <= t < TAG_COUNT ==> count1[t] == 0
    ensures SortedSoFar(calls, demux, done, Sorting, 0, aux, count1)
  {
    hide Due, Delivered;
  }

  lemma OffsetNext(a: nat)
    ensures Offset(a + 1) == if Offset(a) + PACKET_SIZE == PTI_BUFFER_SIZE then 0 else Offset(a) + PACKET_SIZE
  {
  }

  lemma AlignDown(a: nat, extra: nat)
    requires extra < PACKET_SIZE
    ensures (Offset(a) + extra) % PACKET_SIZE == extra
  {
  }

  function WrapTop(rp: nat, base: nat, top: nat): nat {
    if rp / 16 == top / 16 then base else rp
  }

  lemma TopDiffers(base: nat, a: nat)
    ensures (base + Offset(a)) / 16 != (base + PTI_BUFFER_SIZE) / 16
  {
    assert base + Offset(a) + 16 <= base + PTI_BUFFER_SIZE;
  }

  lemma PollBytes(polled: nat, total: nat)
    requires polled <= total < polled + SLOTS
    ensures var rp, wp := Offset(polled), Offset(total);
            && (rp <= wp ==> (wp - rp) / PACKET_SIZE == total - polled && InOnePiece(Span(polled, total - polled)))
            && (rp > wp ==>
                  var n1 := (PTI_BUFFER_SIZE - rp) / PACKET_SIZE;
                  && (PTI_BUFFER_SIZE - rp + wp) / PACKET_SIZE == total - polled && n1 <= total - polled
                  && InOnePiece(Span(polled, n1)) && Offset(polled + n1) == 0 && InOnePiece(Span(polled + n1, total - polled - n1)))
  {
    PollCounts(polled, total);
  }
}
