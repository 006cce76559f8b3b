/** The buffering cycle of the Kinesis AsyncProducer, as values: what the worker
    observes while it polls its queue, the records it builds from the payloads,
    and the inner loop that fills one batch (src/kinesis/producer.py, lines 48-67). */
module Batching {

  /** The size at which a buffering cycle is cut short: 2^20 (AsyncProducer.MAX_SIZE). */
  const MAX_SIZE: nat := 0x10_0000

  /** A record as put_records receives it: the payload and its partition key. */
  datatype Record = Record(data: seq<bv8>, partitionKey: string)

  /** One step of what the worker observes. The queue, the clock and the signals
      are folded into a single trace, read one event per iteration of the inner loop. */
  datatype Event =
    | Payload(data: seq<bv8>, partitionKey: string)  // queue.get returned a payload; the key stands for the clock-derived string
    | Timeout        // queue.get raised Queue.Empty after its 0.1 s poll
    | Terminate      // SIGTERM arrived during the poll: the handler cleared alive, then the poll timed out
    | Interrupt      // SystemExit or KeyboardInterrupt was raised during the poll
    | WindowElapsed  // the loop test found the buffer_time window used up

  /** The record built from a payload event: it keeps the dequeued data and its
      key unchanged, so the payload can be read back from the record. */
  function ToRecord(e: Event): (r: Record)
    requires e.Payload?
    ensures Payload(r.data, r.partitionKey) == e
  {
    Record(e.data, e.partitionKey)
  }

  /** The records built from the payloads of `evs`, in the order they were dequeued. */
  function Dequeued(evs: seq<Event>): seq<Record>
  {
    if evs == [] then []
    else (if evs[0].Payload? then [ToRecord(evs[0])] else []) + Dequeued(evs[1..])
  }

  /** Draining the queue yields a record for every payload and invents none:
      each record comes from a payload of `evs`. */
  lemma {:induction false} DequeuedFromPayloads(evs: seq<Event>)
    ensures forall i | 0 <= i < |evs| && evs[i].Payload? :: ToRecord(evs[i]) in Dequeued(evs)
    ensures forall r | r in Dequeued(evs) :: Payload(r.data, r.partitionKey) in evs
  {
    if evs != [] {
      var tail := Dequeued(evs[1..]);
      DequeuedFromPayloads(evs[1..]);
      assert Dequeued(evs) == (if evs[0].Payload? then [ToRecord(evs[0])] else []) + tail;
      forall i | 0 <= i < |evs| && evs[i].Payload? ensures ToRecord(evs[i]) in Dequeued(evs) {
        if i > 0 {
          assert evs[i] == evs[1..][i - 1];
        }
      }
      forall r | r in Dequeued(evs) ensures Payload(r.data, r.partitionKey) in evs {
        if r in tail {
          var k :| 0 <= k < |evs[1..]| && evs[1..][k] == Payload(r.data, r.partitionKey);
          assert evs[k + 1] == evs[1..][k];
        }
      }
    }
  }

  lemma {:induction false} DequeuedAppend(a: seq<Event>, b: seq<Event>)
    ensures Dequeued(a + b) == Dequeued(a) + Dequeued(b)
  {
    if a == [] {
      assert a + b == b;
    } else {
      assert (a + b)[0] == a[0];
      assert (a + b)[1..] == a[1..] + b;
      DequeuedAppend(a[1..], b);
    }
  }

  /** queue.empty() as the outer loop asks it: true when the next poll would not
      return a payload. A payload that only arrives after a poll has timed out
      is not in the queue yet; the lapse of a buffer window is not a poll and is
      looked past. */
  predicate QueueEmpty(evs: seq<Event>)
    ensures Dequeued(evs) == [] ==> QueueEmpty(evs)
    ensures evs != [] && evs[0].Payload? ==> !QueueEmpty(evs)
  {
    evs == []
    || (evs[0].WindowElapsed? && QueueEmpty(evs[1..]))
    || (!evs[0].WindowElapsed? && !evs[0].Payload?)
  }

  /** The summed size estimate of a sequence of records (the running records_size). */
  function SizeSum(rs: seq<Record>, size: Record -> nat): nat
  {
    if rs == [] then 0 else size(rs[0]) + SizeSum(rs[1..], size)
  }

  /** The bound a batch of this producer keeps: without its first record (the one
      that may have been carried over from the previous cycle) it stays below MAX_SIZE. */
  predicate WithinLimit(batch: seq<Record>, size: Record -> nat)
  {
    batch == [] || SizeSum(batch[1..], size) < MAX_SIZE
  }

  /** Why a buffering cycle ended: the window elapsed, the size cut-off was
      reached, or the worker was interrupted. */
  datatype Stop = Expired | Cut | Interrupted

  /** What one buffering cycle leaves behind: the records it appended to the
      batch, the carried-over record (next_records), the running records_size,
      the alive flag, the events not yet observed, and why the cycle ended. */
  datatype Cycle = Cycle(appended: seq<Record>, carry: seq<Record>, total: nat, alive: bool,
                         rest: seq<Event>, stop: Stop)

  /** The inner loop of AsyncProducer.run, from a running total and the alive flag,
      over the events still to be observed. A trace that runs out is read as an
      interrupt, so that every run of the model ends. */
  function Buffer(total: nat, alive: bool, evs: seq<Event>, size: Record -> nat): (c: Cycle)
    ensures |c.carry| <= 1 && (c.carry != [] <==> c.stop == Cut)
    ensures |c.rest| <= |evs|
    ensures c.stop != Interrupted ==> |c.rest| < |evs|
    decreases |evs|
  {
    if evs == [] then Cycle([], [], total, alive, [], Interrupted)
    else
      match evs[0]
      case WindowElapsed => Cycle([], [], total, alive, evs[1..], Expired)
      case Interrupt => Cycle([], [], total, alive, evs[1..], Interrupted)
      case Timeout => Buffer(total, alive, evs[1..], size)
      case Terminate => Buffer(total, false, evs[1..], size)
      case Payload(data, key) =>
        var record := Record(data, key);
        if total + size(record) >= MAX_SIZE
        then Cycle([], [record], total + size(record), alive, evs[1..], Cut)
        else
          var c := Buffer(total + size(record), alive, evs[1..], size);
          c.(appended := [record] + c.appended)
  }

  /** The events a cycle leaves unobserved are a suffix of those it was given. */
  lemma {:induction false} BufferRest(total: nat, alive: bool, evs: seq<Event>, size: Record -> nat)
    ensures var c := Buffer(total, alive, evs, size);
      c.rest == evs[|evs| - |c.rest|..]
    decreases |evs|
  {
    if evs != [] {
      match evs[0]
      case WindowElapsed =>
      case Interrupt =>
      case Timeout =>
        BufferRest(total, alive, evs[1..], size);
      case Terminate =>
        BufferRest(total, false, evs[1..], size);
      case Payload(data, key) =>
        if total + size(Record(data, key)) < MAX_SIZE {
          BufferRest(total + size(Record(data, key)), alive, evs[1..], size);
        }
    }
  }

  /** No record is lost or reordered within a cycle: the records appended, then
      the carried-over record, then the payloads still queued are every payload
      the cycle was given, in order. */
  lemma {:induction false} BufferConserves(total: nat, alive: bool, evs: seq<Event>, size: Record -> nat)
    ensures var c := Buffer(total, alive, evs, size);
      Dequeued(evs) == c.appended + (c.carry + Dequeued(c.rest))
    decreases |evs|
  {
    if evs != [] {
      match evs[0]
      case WindowElapsed =>
      case Interrupt =>
      case Timeout =>
        BufferConserves(total, alive, evs[1..], size);
      case Terminate =>
        BufferConserves(total, false, evs[1..], size);
      case Payload(data, key) =>
        var record := Record(data, key);
        if total + size(record) < MAX_SIZE {
          var c' := Buffer(total + size(record), alive, evs[1..], size);
          BufferConserves(total + size(record), alive, evs[1..], size);
          assert ([record] + c'.appended) + (c'.carry + Dequeued(c'.rest))
              == [record] + (c'.appended + (c'.carry + Dequeued(c'.rest)));
        }
    }
  }

  /** The running total is the starting total plus the size of every record the
      cycle appended and of the carried-over record. */
  lemma {:induction false} BufferTotal(total: nat, alive: bool, evs: seq<Event>, size: Record -> nat)
    ensures var c := Buffer(total, alive, evs, size);
      c.total == total + SizeSum(c.appended, size) + SizeSum(c.carry, size)
    decreases |evs|
  {
    var c := Buffer(total, alive, evs, size);
    if evs != [] {
      match evs[0]
      case WindowElapsed =>
      case Interrupt =>
      case Timeout =>
        BufferTotal(total, alive, evs[1..], size);
      case Terminate =>
        BufferTotal(total, false, evs[1..], size);
      case Payload(data, key) =>
        var record := Record(data, key);
        if total + size(record) >= MAX_SIZE {
          assert SizeSum(c.carry, size) == size(record) + SizeSum([], size);
        } else {
          var c' := Buffer(total + size(record), alive, evs[1..], size);
          BufferTotal(total + size(record), alive, evs[1..], size);
          assert c.appended[1..] == c'.appended;
        }
    }
  }

  /** Starting below the cut-off, a cycle is cut exactly when its running total
      reaches MAX_SIZE. */
  lemma {:induction false} BufferCutIff(total: nat, alive: bool, evs: seq<Event>, size: Record -> nat)
    requires total < MAX_SIZE
    ensures var c := Buffer(total, alive, evs, size);
      c.stop == Cut <==> c.total >= MAX_SIZE
    decreases |evs|
  {
    if evs != [] {
      match evs[0]
      case WindowElapsed =>
      case Interrupt =>
      case Timeout =>
        BufferCutIff(total, alive, evs[1..], size);
      case Terminate =>
        BufferCutIff(total, false, evs[1..], size);
      case Payload(data, key) =>
        if total + size(Record(data, key)) < MAX_SIZE {
          BufferCutIff(total + size(Record(data, key)), alive, evs[1..], size);
        }
    }
  }

  /** A record is appended only while the running total including it stays below
      MAX_SIZE, so the records appended in one cycle weigh less than MAX_SIZE
      together with the starting total. */
  lemma {:induction false} BufferAppendedBelowMax(total: nat, alive: bool, evs: seq<Event>,
                                                  size: Record -> nat)
    requires total < MAX_SIZE
    ensures var c := Buffer(total, alive, evs, size);
      total + SizeSum(c.appended, size) < MAX_SIZE
    decreases |evs|
  {
    var c := Buffer(total, alive, evs, size);
    if evs != [] {
      match evs[0]
      case WindowElapsed =>
      case Interrupt =>
      case Timeout =>
        BufferAppendedBelowMax(total, alive, evs[1..], size);
      case Terminate =>
        BufferAppendedBelowMax(total, false, evs[1..], size);
      case Payload(data, key) =>
        var record := Record(data, key);
        if total + size(record) < MAX_SIZE {
          var c' := Buffer(total + size(record), alive, evs[1..], size);
          BufferAppendedBelowMax(total + size(record), alive, evs[1..], size);
          assert c.appended[1..] == c'.appended;
        }
    }
  }

  /** The record that pushes the total to MAX_SIZE is the last event observed:
      the cycle stops right after dequeuing it. */
  lemma {:induction false} BufferCutIsLast(total: nat, alive: bool, evs: seq<Event>, size: Record -> nat)
    ensures var c := Buffer(total, alive, evs, size);
      c.stop == Cut ==>
        var n := |evs| - |c.rest|;
        n >= 1 && evs[n - 1].Payload? && c.carry == [ToRecord(evs[n - 1])]
    decreases |evs|
  {
    var c := Buffer(total, alive, evs, size);
    if evs != [] {
      var n := |evs| - |c.rest|;
      match evs[0]
      case WindowElapsed =>
      case Interrupt =>
      case Timeout =>
        BufferCutIsLast(total, alive, evs[1..], size);
        assert c.stop == Cut ==> evs[n - 1] == evs[1..][n - 2];
      case Terminate =>
        BufferCutIsLast(total, false, evs[1..], size);
        assert c.stop == Cut ==> evs[n - 1] == evs[1..][n - 2];
      case Payload(data, key) =>
        if total + size(Record(data, key)) < MAX_SIZE {
          BufferCutIsLast(total + size(Record(data, key)), alive, evs[1..], size);
          assert c.stop == Cut ==> evs[n - 1] == evs[1..][n - 2];
        }
    }
  }

  /** The alive flag survives a cycle exactly when no SIGTERM was observed in it. */
  lemma {:induction false} BufferAlive(total: nat, alive: bool, evs: seq<Event>, size: Record -> nat)
    ensures var c := Buffer(total, alive, evs, size);
      c.alive <==> alive && Terminate !in evs[..|evs| - |c.rest|]
    decreases |evs|
  {
    var c := Buffer(total, alive, evs, size);
    var n := |evs| - |c.rest|;
    if evs != [] {
      assert evs[..n] == [evs[0]] + evs[1..][..n - 1];
      match evs[0]
      case WindowElapsed =>
      case Interrupt =>
      case Timeout =>
        BufferAlive(total, alive, evs[1..], size);
      case Terminate =>
        BufferAlive(total, false, evs[1..], size);
      case Payload(data, key) =>
        if total + size(Record(data, key)) < MAX_SIZE {
          BufferAlive(total + size(Record(data, key)), alive, evs[1..], size);
        }
    }
  }

  /** An empty poll changes nothing: with one Timeout more or less anywhere in the
      trace, the cycle ends with the same records, carry, total, flag and reason. */
  lemma {:induction false} TimeoutInvisible(total: nat, alive: bool, before: seq<Event>,
                                            after: seq<Event>, size: Record -> nat)
    ensures Buffer(total, alive, before + [Timeout] + after, size).(rest := [])
         == Buffer(total, alive, before + after, size).(rest := [])
    decreases |before|
  {
    var with, without := before + [Timeout] + after, before + after;
    if before == [] {
      assert with[1..] == without;
    } else {
      assert with[0] == without[0] == before[0];
      assert with[1..] == before[1..] + [Timeout] + after;
      assert without[1..] == before[1..] + after;
      match before[0]
      case WindowElapsed =>
      case Interrupt =>
      case Timeout =>
        TimeoutInvisible(total, alive, before[1..], after, size);
      case Terminate =>
        TimeoutInvisible(total, false, before[1..], after, size);
      case Payload(data, key) =>
        if total + size(Record(data, key)) < MAX_SIZE {
          TimeoutInvisible(total + size(Record(data, key)), alive, before[1..], after, size);
        }
    }
  }

  /** A cycle that starts from at most one carried-over record leaves a batch
      within the limit. */
  lemma BatchWithinLimit(records: seq<Record>, alive: bool, evs: seq<Event>, size: Record -> nat)
    requires |records| <= 1
    ensures WithinLimit(records + Buffer(0, alive, evs, size).appended, size)
  {
    var appended := Buffer(0, alive, evs, size).appended;
    BufferAppendedBelowMax(0, alive, evs, size);
    if records == [] && appended != [] {
      assert (records + appended)[1..] == appended[1..];
      assert SizeSum(appended, size) == size(appended[0]) + SizeSum(appended[1..], size);
    } else if records != [] {
      assert (records + appended)[1..] == appended;
    }
  }
}
