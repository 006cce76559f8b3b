/** The AsyncProducer worker of src/kinesis/producer.py: the two record buffers,
    the alive flag, flush_records and the outer loop of run with its final flush.
    The put_records calls made on the Kinesis client are kept as a log of batches. */
module Producer {
  import opened Batching

  /** The worker's state as a value: the batch being filled (records), the
      carried-over record (next_records), the alive flag, the events still to be
      observed, and every batch handed to put_records so far. */
  datatype Worker = Worker(records: seq<Record>, nextRecords: seq<Record>, alive: bool,
                           events: seq<Event>, sent: seq<seq<Record>>)

  /** The submitted batches, one after the other. */
  function Concat(batches: seq<seq<Record>>): seq<Record>
  {
    if batches == [] then [] else Concat(batches[..|batches| - 1]) + batches[|batches| - 1]
  }

  lemma ConcatSnoc(batches: seq<seq<Record>>, batch: seq<Record>)
    ensures Concat(batches + [batch]) == Concat(batches) + batch
  {
    assert (batches + [batch])[..|batches|] == batches;
  }

  /** Every record the worker has seen or will see, wherever it is now: submitted,
      in the batch, carried over, or still in the queue. */
  function Accounted(w: Worker): seq<Record>
  {
    Concat(w.sent) + (w.records + (w.nextRecords + Dequeued(w.events)))
  }

  /** What the log of put_records calls promises from call `from` on: no call
      with an empty batch, and every batch within the limit. */
  predicate SubmittedSince(sent: seq<seq<Record>>, from: nat, size: Record -> nat)
  {
    forall i | from <= i < |sent| :: sent[i] != [] && WithinLimit(sent[i], size)
  }

  /** The invariant of the worker started on `trace`: no record is lost (every
      payload of the trace is submitted, buffered, carried over or still queued,
      in order), at most one record is carried over, and every batch, the current
      one included, keeps the limit. */
  predicate Consistent(w: Worker, trace: seq<Event>, size: Record -> nat)
  {
    Accounted(w) == Dequeued(trace)
    && |w.nextRecords| <= 1
    && WithinLimit(w.records, size)
    && SubmittedSince(w.sent, 0, size)
  }

  /** flush_records: one put_records call with the batch if it is non-empty, then
      the carried-over record becomes the new batch and next_records is cleared. */
  function Flushed(w: Worker): (r: Worker)
    ensures |r.sent| == |w.sent| + 1 <==> w.records != []
    ensures w.sent <= r.sent && |r.sent| <= |w.sent| + 1
    ensures |r.sent| > |w.sent| ==> r.sent[|w.sent|] == w.records
    ensures r.records == w.nextRecords && r.nextRecords == []
    ensures r.alive == w.alive && r.events == w.events
  {
    w.(records := w.nextRecords,
       nextRecords := [],
       sent := if w.records != [] then w.sent + [w.records] else w.sent)
  }

  /** One buffering cycle (the inner loop) applied to the worker: the records it
      appended join the batch, a cut stores the carried-over record, and the
      alive flag and the queue move on. */
  function Cycled(w: Worker, size: Record -> nat): (r: (Worker, Stop))
    ensures r.0.sent == w.sent
    ensures w.records <= r.0.records
    ensures r.1 == Cut ==> |r.0.nextRecords| == 1
    ensures r.1 != Cut ==> r.0.nextRecords == w.nextRecords
    ensures |r.0.events| <= |w.events| && (r.1 != Interrupted ==> |r.0.events| < |w.events|)
  {
    var c := Buffer(0, w.alive, w.events, size);
    (w.(records := w.records + c.appended,
        nextRecords := if c.stop == Cut then c.carry else w.nextRecords,
        alive := c.alive,
        events := c.rest),
     c.stop)
  }

  /** The outer loop of run: while alive or the queue is not empty, buffer one
      cycle and flush; an interrupt leaves the loop at once. Either way the
      finally clause flushes once more. The flag tells whether it was interrupted. */
  function Ran(w: Worker, size: Record -> nat): (r: (Worker, bool))
    ensures !r.1 ==> !r.0.alive && QueueEmpty(r.0.events)
    ensures w.sent <= r.0.sent
    ensures |r.0.events| <= |w.events|
    decreases |w.events|
  {
    if !w.alive && QueueEmpty(w.events) then (Flushed(w), false)
    else
      var (w1, stop) := Cycled(w, size);
      if stop == Interrupted then (Flushed(w1), true)
      else Ran(Flushed(w1), size)
  }

  /** flush_records loses nothing and invents nothing. */
  lemma FlushedAccounted(w: Worker)
    ensures Accounted(Flushed(w)) == Accounted(w)
  {
    var rest := w.nextRecords + Dequeued(w.events);
    if w.records != [] {
      ConcatSnoc(w.sent, w.records);
      assert (Concat(w.sent) + w.records) + rest == Concat(w.sent) + (w.records + rest);
    } else {
      assert w.records + rest == rest;
    }
    assert [] + Dequeued(w.events) == Dequeued(w.events);
  }

  /** A buffering cycle that starts with no carried-over record loses nothing and
      invents nothing. */
  lemma CycledAccounted(w: Worker, size: Record -> nat)
    requires w.nextRecords == []
    ensures Accounted(Cycled(w, size).0) == Accounted(w)
  {
    var c := Buffer(0, w.alive, w.events, size);
    BufferConserves(0, w.alive, w.events, size);
    assert [] + Dequeued(w.events) == Dequeued(w.events);
    assert (w.records + c.appended) + (c.carry + Dequeued(c.rest))
        == w.records + (c.appended + (c.carry + Dequeued(c.rest)));
  }

  /** flush_records keeps the worker's invariant. */
  lemma FlushedConsistent(w: Worker, trace: seq<Event>, size: Record -> nat)
    requires Consistent(w, trace, size)
    ensures Consistent(Flushed(w), trace, size)
  {
    FlushedAccounted(w);
  }

  /** A buffering cycle started with at most one record in the batch and none
      carried over keeps the worker's invariant. */
  lemma CycledConsistent(w: Worker, trace: seq<Event>, size: Record -> nat)
    requires Consistent(w, trace, size) && w.nextRecords == [] && |w.records| <= 1
    ensures Consistent(Cycled(w, size).0, trace, size)
  {
    CycledAccounted(w, size);
    BatchWithinLimit(w.records, w.alive, w.events, size);
  }

  /** When run returns, the final flush has emptied both buffers, and every
      record is either submitted or still in the queue, in dequeue order. */
  lemma {:induction false} RanAccounted(w: Worker, size: Record -> nat)
    requires w.nextRecords == []
    ensures var r := Ran(w, size);
      r.0.records == [] && r.0.nextRecords == [] && Accounted(r.0) == Accounted(w)
    decreases |w.events|
  {
    if !w.alive && QueueEmpty(w.events) {
      FlushedAccounted(w);
    } else {
      var (w1, stop) := Cycled(w, size);
      CycledAccounted(w, size);
      FlushedAccounted(w1);
      if stop != Interrupted {
        RanAccounted(Flushed(w1), size);
      }
    }
  }

  /** `rest` is what is left of `evs` after reading some events from its front. */
  predicate IsSuffix(rest: seq<Event>, evs: seq<Event>)
  {
    |rest| <= |evs| && rest == evs[|evs| - |rest|..]
  }

  lemma SuffixTrans(a: seq<Event>, b: seq<Event>, c: seq<Event>)
    requires IsSuffix(a, b) && IsSuffix(b, c)
    ensures IsSuffix(a, c)
  {
    assert c[|c| - |b|..][|b| - |a|..] == c[|c| - |a|..];
  }

  /** run reads its queue from the front: what it leaves unread is a suffix of it. */
  lemma {:induction false} RanRest(w: Worker, size: Record -> nat)
    ensures IsSuffix(Ran(w, size).0.events, w.events)
    decreases |w.events|
  {
    if w.alive || !QueueEmpty(w.events) {
      var r1 := Cycled(w, size);
      BufferRest(0, w.alive, w.events, size);
      assert IsSuffix(r1.0.events, w.events);
      if r1.1 != Interrupted {
        var w2 := Flushed(r1.0);
        assert Ran(w, size) == Ran(w2, size);
        RanRest(w2, size);
        SuffixTrans(Ran(w2, size).0.events, w2.events, w.events);
      }
    } else {
      assert w.events[|w.events| - |w.events|..] == w.events;
    }
  }

  /** `v` is reached from `w` by reading events from the front of its queue, and
      its log holds exactly `w`'s log, then `w`'s batch, then the records of the
      events read, in order. */
  predicate DeliveredFrom(w: Worker, v: Worker)
  {
    IsSuffix(v.events, w.events)
    && Concat(v.sent) == Concat(w.sent) + (w.records + Dequeued(w.events[..|w.events| - |v.events|]))
  }

  /** A final state reached from `w` by reading a prefix of its queue and
      emptying both buffers has submitted exactly the records known at the
      start, then those of the events read. */
  lemma DeliveredPrefix(w: Worker, v: Worker)
    requires w.nextRecords == [] && v.records == [] && v.nextRecords == []
    requires Accounted(v) == Accounted(w)
    requires IsSuffix(v.events, w.events)
    ensures DeliveredFrom(w, v)
  {
    var k := |w.events| - |v.events|;
    assert w.events == w.events[..k] + v.events;
    DequeuedAppend(w.events[..k], v.events);
    var tail := Dequeued(v.events);
    var start := Concat(w.sent) + (w.records + Dequeued(w.events[..k]));
    assert Accounted(v) == Concat(v.sent) + tail by {
      assert [] + ([] + tail) == tail;
    }
    assert Accounted(w) == start + tail by {
      assert [] + Dequeued(w.events) == Dequeued(w.events[..k]) + tail;
      assert w.records + (Dequeued(w.events[..k]) + tail) == (w.records + Dequeued(w.events[..k])) + tail;
      assert Concat(w.sent) + ((w.records + Dequeued(w.events[..k])) + tail) == start + tail;
    }
    assert Concat(v.sent) == (Concat(v.sent) + tail)[..|Concat(v.sent)|];
    assert start == (start + tail)[..|start|];
  }

  /** However run ends, the batches it submitted are the batch it started with,
      then every payload it dequeued, in order. The payloads of the events it
      left unread are not submitted. */
  lemma RanDeliversAll(w: Worker, size: Record -> nat)
    requires w.nextRecords == []
    ensures DeliveredFrom(w, Ran(w, size).0)
  {
    RanAccounted(w, size);
    RanRest(w, size);
    DeliveredPrefix(w, Ran(w, size).0);
  }

  /** A payload that arrives after the outer loop last found the queue empty is
      never sent once the worker has been stopped: the loop has already exited.
      Here SIGTERM arrives in the first cycle, the poll after that cycle's flush
      times out, and only then does x arrive. */
  lemma PayloadAfterLastCheckIsLost(x: Record, size: Record -> nat)
    ensures var trace := [Terminate, WindowElapsed, Timeout, Payload(x.data, x.partitionKey), WindowElapsed];
      Ran(Worker([], [], true, trace, []), size) == (Worker([], [], false, trace[2..], []), false)
  {
    var trace := [Terminate, WindowElapsed, Timeout, Payload(x.data, x.partitionKey), WindowElapsed];
    assert Buffer(0, true, trace, size) == Cycle([], [], 0, false, trace[2..], Expired) by {
      assert trace[1..][1..] == trace[2..];
    }
    assert QueueEmpty(trace[2..]);
  }

  /** Every batch a run submits is non-empty and, without its first record, below
      MAX_SIZE; the first record may be one carried over from the cycle before. */
  lemma {:induction false} RanBatchesWithinLimit(w: Worker, size: Record -> nat)
    requires w.nextRecords == [] && |w.records| <= 1
    ensures SubmittedSince(Ran(w, size).0.sent, |w.sent|, size)
    decreases |w.events|
  {
    if !w.alive && QueueEmpty(w.events) {
      assert w.records != [] ==> w.records[1..] == [];
    } else {
      var (w1, stop) := Cycled(w, size);
      var w2 := Flushed(w1);
      BatchWithinLimit(w.records, w.alive, w.events, size);
      assert SubmittedSince(w2.sent, |w.sent|, size);
      if stop != Interrupted {
        RanBatchesWithinLimit(w2, size);
        var sent := Ran(w2, size).0.sent;
        assert w2.sent <= sent;
        forall i | |w.sent| <= i < |sent|
          ensures sent[i] != [] && WithinLimit(sent[i], size)
        {
          if i < |w2.sent| {
            assert sent[i] == w2.sent[i];
          }
        }
      }
    }
  }

  /** One buffering cycle then its flush, as the outer loop runs them. */
  lemma CycleThenFlush(w: Worker, size: Record -> nat, c: Cycle)
    requires c == Buffer(0, w.alive, w.events, size)
    requires w.alive || !QueueEmpty(w.events)
    requires c.stop != Interrupted
    ensures Ran(w, size)
         == Ran(Worker(if c.stop == Cut then c.carry else w.nextRecords, [], c.alive, c.rest,
                       if w.records + c.appended != [] then w.sent + [w.records + c.appended] else w.sent),
                size)
  {
  }

  /** A record whose own size reaches MAX_SIZE cuts its cycle although the batch
      is empty; that flush makes no call, and the record then seeds the next
      batch, where a later record joins it, so the submitted batch weighs MAX_SIZE
      or more. Here the worker has already been told to stop and is draining. */
  lemma OversizedRecordSeedsNextBatch(a: Record, b: Record, size: Record -> nat)
    requires size(a) >= MAX_SIZE && size(b) < MAX_SIZE
    ensures var trace := [Payload(a.data, a.partitionKey), Payload(b.data, b.partitionKey), WindowElapsed];
      Ran(Worker([], [], false, trace, []), size) == (Worker([], [], false, [], [[a, b]]), false)
      && SizeSum([a, b], size) >= MAX_SIZE
  {
    var pa, pb := Payload(a.data, a.partitionKey), Payload(b.data, b.partitionKey);
    var w0 := Worker([], [], false, [pa, pb, WindowElapsed], []);
    var w1 := Worker([a], [], false, [pb, WindowElapsed], []);
    var w2 := Worker([], [], false, [], [[a, b]]);
    assert Ran(w0, size) == Ran(w1, size) by {
      assert w0.events[1..] == w1.events;
      CycleThenFlush(w0, size, Cycle([], [a], size(a), false, w1.events, Cut));
    }
    assert Ran(w1, size) == Ran(w2, size) by {
      assert w1.events[1..] == [WindowElapsed];
      assert Buffer(size(b), false, [WindowElapsed], size) == Cycle([], [], size(b), false, [], Expired);
      assert [b] + [] == [b] && [a] + [b] == [a, b] && [] + [[a, b]] == [[a, b]];
      CycleThenFlush(w1, size, Cycle([b], [], size(b), false, [], Expired));
    }
    assert Ran(w2, size) == (w2, false);
    assert SizeSum([a, b], size) == size(a) + size(b) by {
      assert [a, b][1..] == [b];
      assert SizeSum([b], size) == size(b) + SizeSum([], size);
    }
  }

  /** Two records that fit the cut-off one at a time but not together go out in
      two batches: the second cuts the first cycle short, and the final flush
      submits it on its own. */
  lemma TwoLargeRecordsTwoBatches(a: Record, b: Record, size: Record -> nat)
    requires size(a) < MAX_SIZE && size(a) + size(b) >= MAX_SIZE
    ensures var trace := [Payload(a.data, a.partitionKey), Payload(b.data, b.partitionKey)];
      Ran(Worker([], [], false, trace, []), size) == (Worker([], [], false, [], [[a], [b]]), false)
  {
    var pa, pb := Payload(a.data, a.partitionKey), Payload(b.data, b.partitionKey);
    var w0 := Worker([], [], false, [pa, pb], []);
    var w1 := Worker([b], [], false, [], [[a]]);
    assert Ran(w0, size) == Ran(w1, size) by {
      assert w0.events[1..] == [pb];
      assert Buffer(size(a), false, [pb], size) == Cycle([], [b], size(a) + size(b), false, [], Cut);
      assert [a] + [] == [a] && [] + [a] == [a] && [] + [[a]] == [[a]];
      CycleThenFlush(w0, size, Cycle([a], [b], size(a) + size(b), false, [], Cut));
    }
    assert [[a]] + [[b]] == [[a], [b]];
    assert Ran(w1, size) == (Worker([], [], false, [], [[a], [b]]), false);
  }

  /** Appending the polled record to the batch keeps the inner loop's account:
      the records appended so far, then those the rest of the cycle appends, are
      still those of the whole cycle. */
  lemma AppendKeepsCycle(c0: Cycle, appended: seq<Record>, record: Record, c: Cycle, c': Cycle)
    requires c0 == c.(appended := appended + c.appended)
    requires c == c'.(appended := [record] + c'.appended)
    ensures c0 == c'.(appended := (appended + [record]) + c'.appended)
  {
    assert (appended + [record]) + c'.appended == appended + ([record] + c'.appended);
  }

  /** The worker process of AsyncProducer: the state that run and flush_records
      update in place. */
  class AsyncProducer {
    const streamName: string
    /** The size estimate of a record (sys.getsizeof in the source). */
    const size: Record -> nat
    /** Everything the worker will observe, as given when it starts. */
    ghost const trace: seq<Event>

    var records: seq<Record>
    var nextRecords: seq<Record>
    var alive: bool
    /** The events not yet observed: the queue's contents interleaved with
        timeouts, signals and the end of each window. */
    var events: seq<Event>
    /** The put_records calls made on the Kinesis client, one batch each. */
    ghost var sent: seq<seq<Record>>

    ghost function State(): Worker
      reads this
    {
      Worker(records, nextRecords, alive, events, sent)
    }

    ghost predicate Valid()
      reads this
    {
      Consistent(State(), trace, size)
    }

    constructor (streamName: string, size: Record -> nat, trace: seq<Event>)
      ensures Valid()
      ensures this.streamName == streamName && this.size == size && this.trace == trace
      ensures State() == Worker([], [], true, trace, [])
    {
      this.streamName := streamName;
      this.size := size;
      this.trace := trace;
      records := [];
      nextRecords := [];
      alive := true;
      events := trace;
      sent := [];
      new;
      assert [] + Dequeued(trace) == Dequeued(trace);
    }

    /** The SIGTERM handler: the worker is asked to stop. */
    method SignalHandler()
      modifies this`alive
      ensures !alive
    {
      alive := false;
    }

    method FlushRecords()
      modifies this`records, this`nextRecords, this`sent
      ensures State() == Flushed(old(State()))
      ensures old(Valid()) ==> Valid()
    {
      ghost var w := State();
      if records != [] {
        sent := sent + [records];
      }
      records := nextRecords;
      nextRecords := [];
      if Consistent(w, trace, size) {
        FlushedConsistent(w, trace, size);
      }
    }

    /** The inner loop of run: poll until the window elapses, the batch reaches
        the cut-off, or the worker is interrupted. */
    method BufferCycle() returns (stop: Stop)
      modifies this`records, this`nextRecords, this`alive, this`events
      ensures (State(), stop) == Cycled(old(State()), size)
    {
      ghost var w := State();
      ghost var c0 := Buffer(0, alive, events, size);
      ghost var appended: seq<Record> := [];
      var recordsSize: nat := 0;
      while true
        invariant nextRecords == w.nextRecords
        invariant records == w.records + appended
        invariant var c := Buffer(recordsSize, alive, events, size);
          c0 == c.(appended := appended + c.appended)
        decreases |events|
      {
        ghost var c := Buffer(recordsSize, alive, events, size);
        if events == [] {
          stop := Interrupted;
          assert c == Cycle([], [], recordsSize, alive, events, stop);
          break;
        }
        var e := events[0];
        events := events[1..];
        match e {
          case WindowElapsed =>
            stop := Expired;
            assert c == Cycle([], [], recordsSize, alive, events, stop);
            break;
          case Interrupt =>
            stop := Interrupted;
            assert c == Cycle([], [], recordsSize, alive, events, stop);
            break;
          case Timeout =>
            assert c == Buffer(recordsSize, alive, events, size);
          case Terminate =>
            SignalHandler();
            assert c == Buffer(recordsSize, alive, events, size);
          case Payload(data, key) =>
            var record := Record(data, key);
            recordsSize := recordsSize + size(record);
            if recordsSize >= MAX_SIZE {
              nextRecords := [record];
              stop := Cut;
              assert c == Cycle([], [record], recordsSize, alive, events, stop);
              break;
            }
            records := records + [record];
            ghost var c' := Buffer(recordsSize, alive, events, size);
            assert c == c'.(appended := [record] + c'.appended);
            AppendKeepsCycle(c0, appended, record, c, c');
            appended := appended + [record];
        }
      }
      assert appended + [] == appended;
      assert c0 == Cycle(appended, c0.carry, c0.total, alive, events, stop);
    }

    /** run: cycles of buffering and flushing while the worker is alive or the
        queue is not empty, then the final flush of the finally clause. Returns
        whether an interrupt ended it. */
    method Run() returns (interrupted: bool)
      requires Valid() && nextRecords == [] && |records| <= 1
      modifies this`records, this`nextRecords, this`alive, this`events, this`sent
      ensures (State(), interrupted) == Ran(old(State()), size)
      ensures Valid() && records == [] && nextRecords == []
      ensures DeliveredFrom(old(State()), State())
      ensures !interrupted ==> !alive && QueueEmpty(events)
    {
      ghost var w0 := State();
      interrupted := false;
      while alive || !QueueEmpty(events)
        invariant Valid() && nextRecords == [] && |records| <= 1
        invariant Ran(State(), size) == Ran(old(State()), size)
        decreases |events|
      {
        CycledConsistent(State(), trace, size);
        var stop := BufferCycle();
        if stop == Interrupted {
          interrupted := true;
          break;
        }
        FlushRecords();
      }
      FlushRecords();
      RanRest(w0, size);
      RanDeliversAll(w0, size);
    }
  }
}
