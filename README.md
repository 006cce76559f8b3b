# Batching and flushing in the kinesis-python `AsyncProducer`

`AsyncProducer` (src/kinesis/producer.py) runs in a child process. It pulls
data items off a queue, wraps each one in a Kinesis record (the data plus a
partition key), and buffers the records. It sends them to a Kinesis stream
with one `put_records` call per batch. A buffering cycle ends in one of three
ways:

- the buffer time runs out;
- the running size of the records seen in the cycle reaches `MAX_SIZE`
  (2^20). The record that crossed the limit is held back in `next_records`
  and starts the following batch;
- the process is interrupted (`SystemExit` or `KeyboardInterrupt`).

After every cycle, `flush_records` sends the batch and promotes
`next_records`. SIGTERM clears `alive`. The outer loop then keeps cycling
until it finds the queue empty at its check (line 47) and stops, and a
`finally` clause flushes one last time. A payload put on the queue after that
last check is never sent; `PayloadAfterLastCheckIsLost` shows such a run.

The model has two modules:

- `Batching` (batching.dfy) holds the values:
  - `Record` and `MAX_SIZE`.
  - The environment, as a finite trace of `Event`s. A payload is in the queue
    at a given moment when the next poll returns it. `Payload` is a
    successful `queue.get`. `Timeout` is a poll that raised `Queue.Empty`.
    `Terminate` is a SIGTERM delivered during a poll. `Interrupt` is
    `SystemExit` or `KeyboardInterrupt` raised inside `queue.get`.
    `WindowElapsed` is the buffer-time check at line 51 failing.
  - The specification function `Buffer` for one inner loop, with its lemmas.
- `Producer` (producer.dfy) holds:
  - The class `AsyncProducer`, whose fields `records`, `next_records`,
    `alive` and the queue (the `events` still unread) are updated in place
    exactly as the Python code does. `FlushRecords`, `BufferCycle` and `Run`
    are methods with loops, proved against the functions `Flushed`, `Cycled`
    and `Ran`.
  - The lemmas about those functions: no record is lost, duplicated or
    reordered, and every submitted batch stays within the size bound.

Each `put_records` call is recorded in the ghost log `sent`. The class
invariant `Valid()` says four things:
- the log, the two buffers and the unread queue, concatenated, equal all the
  payloads of the trace, in order;
- `next_records` holds at most one record;
- the pending batch is within the size bound;
- every logged batch is non-empty and within the size bound.

**Batch size as the code keeps it.** One might expect no batch to exceed
`MAX_SIZE`; the code does not keep that bound. It resets `records_size` at the
start of each cycle (line 48) but seeds `records` with the record carried over
from the previous cut (line 82). A batch can therefore exceed `MAX_SIZE` by
the size of that carried record. A record that alone reaches `MAX_SIZE` is
also cut, even when the batch is empty. The flush right after that cut sends
nothing. The record then starts the following batch, which later records of
the next cycle join. The model follows the code. The bound it proves
(`WithinLimit`) is the one the code keeps: everything after a batch's first
record has a combined size below `MAX_SIZE`. `OversizedRecordSeedsNextBatch`
shows a batch whose total size reaches `MAX_SIZE`.

## Model

| member | source | states |
|---|---|---|
| Batching.ToRecord | src/kinesis/producer.py:57-60 | the record keeps the dequeued data and its key unchanged: the payload can be read back from it |
| Batching.DequeuedFromPayloads | src/kinesis/producer.py:53-60 | draining the queue yields a record for every payload and invents none |
| Batching.DequeuedAppend | src/kinesis/producer.py:53-60 | the records read from two consecutive stretches of the queue are those of the first followed by those of the second |
| Batching.QueueEmpty | src/kinesis/producer.py:47 | `queue.empty()` at the outer loop's check: a queue whose trace has no record left is empty, and one whose next poll returns a payload is not |
| Batching.Buffer | src/kinesis/producer.py:48-67 | one inner loop: at most one record is carried over, and a record is carried over exactly when the cycle ends by a cut; a cycle that is not interrupted consumes at least one event |
| Batching.BufferRest | src/kinesis/producer.py:51-55 | the events left after a cycle are exactly a suffix of the queue, so the cycle consumes a prefix |
| Batching.BufferConserves | src/kinesis/producer.py:57-67 | the records read during a cycle are the appended records, then the carried record, in queue order; nothing is lost, duplicated or reordered |
| Batching.BufferTotal | src/kinesis/producer.py:48-62 | the final `records_size` is the start value plus the sizes of the appended records and of the carried record |
| Batching.BufferCutIff | src/kinesis/producer.py:62-65 | starting below `MAX_SIZE`, a cycle ends with a cut if and only if its final `records_size` reaches `MAX_SIZE` |
| Batching.BufferAppendedBelowMax | src/kinesis/producer.py:62-67 | the records appended during one cycle have a combined size below `MAX_SIZE` |
| Batching.BufferCutIsLast | src/kinesis/producer.py:63-65 | on a cut, the carried record is the one built from the last event the cycle consumed, so the loop stops at once |
| Batching.BufferAlive | src/kinesis/producer.py:39-41 | after a cycle `alive` holds if and only if it held before and no SIGTERM arrived during the consumed events |
| Batching.TimeoutInvisible | src/kinesis/producer.py:52-55 | a poll that raises `Queue.Empty` anywhere in a cycle changes neither the appended records, the carry, the size total, `alive` nor how the cycle stops |
| Batching.BatchWithinLimit | src/kinesis/producer.py:48-82 | a batch made of at most one carried record followed by one cycle's appended records is within the size bound |
| Producer.Flushed | src/kinesis/producer.py:75-83 | one `put_records` call exactly when the batch is non-empty, and that call carries the whole batch; then the carried record becomes the batch, `next_records` is empty, and `alive` and the queue are untouched |
| Producer.Cycled | src/kinesis/producer.py:48-67 | a cycle submits nothing and only appends to the batch; a cut leaves exactly one record in `next_records`, otherwise `next_records` is unchanged; every cycle that is not interrupted reads at least one event |
| Producer.Ran | src/kinesis/producer.py:46-73 | the outer loop stops normally only once `alive` is false and the queue is empty; the log of submitted batches only grows |
| Producer.FlushedAccounted | src/kinesis/producer.py:75-83 | a flush moves records between the log and the buffers without losing, duplicating or reordering any |
| Producer.CycledAccounted | src/kinesis/producer.py:48-67 | a cycle moves records from the queue into the buffers without losing, duplicating or reordering any |
| Producer.FlushedConsistent | src/kinesis/producer.py:75-83 | a flush preserves the invariant: order preserved, at most one pending record, only non-empty batches within the bound are submitted |
| Producer.CycledConsistent | src/kinesis/producer.py:48-67 | a cycle started right after a flush preserves the invariant |
| Producer.RanAccounted | src/kinesis/producer.py:46-83 | when `run` returns, both buffers are empty and every record is accounted for exactly once, in order |
| Producer.RanRest | src/kinesis/producer.py:47-55 | `run` reads its queue from the front: the events it leaves unread are a suffix of the queue |
| Producer.DeliveredPrefix | src/kinesis/producer.py:69-83 | a state reached by reading a prefix of the queue, with both buffers emptied and no record lost, has submitted the records it started with, then those of the events read, in order |
| Producer.RanDeliversAll | src/kinesis/producer.py:46-83 | however `run` ends, it has read a prefix of the queue, and its submitted batches concatenate to the records it started with, then every record it read, in queue order; records it did not read are not submitted |
| Producer.RanBatchesWithinLimit | src/kinesis/producer.py:47-83 | every batch submitted by `run` is non-empty and within the size bound |
| Producer.OversizedRecordSeedsNextBatch | src/kinesis/producer.py:62-69 | concrete run: a record of size at least `MAX_SIZE` is cut into `next_records`, then sent together with the next record in one batch whose total reaches `MAX_SIZE` |
| Producer.PayloadAfterLastCheckIsLost | src/kinesis/producer.py:47-55 | concrete run: SIGTERM in the first cycle, then a poll that times out, then a payload; the outer loop finds the queue empty and exits, and the payload is never sent |
| Producer.TwoLargeRecordsTwoBatches | src/kinesis/producer.py:62-73 | concrete run: two records whose sizes together reach `MAX_SIZE` go out in two batches, the second one from the final flush |
| Producer.AsyncProducer.constructor | src/kinesis/producer.py:18-24 | empty buffers, `alive` set, the whole queue unread, nothing submitted; the invariant holds |
| Producer.AsyncProducer.SignalHandler | src/kinesis/producer.py:39-41 | clears `alive` |
| Producer.AsyncProducer.FlushRecords | src/kinesis/producer.py:75-83 | exactly one `put_records` call, logged, if and only if `records` is non-empty; then `records` is the old `next_records`, `next_records` is empty and nothing else changes; the invariant is preserved |
| Producer.AsyncProducer.BufferCycle | src/kinesis/producer.py:48-67 | the loop's new state and exit reason are exactly those of `Cycled`, the specification of one cycle |
| Producer.AsyncProducer.Run | src/kinesis/producer.py:43-73 | the final state and the interrupted flag are those of `Ran`; the invariant holds and both buffers are empty at the end; it read a prefix of the queue and submitted the records it started with, then every record it read, in order; on a normal exit `alive` is false and the queue is empty at the last check |

## Left out

- The boto3 session and Kinesis client (lines 26-28, 77-80). A `put_records` call is an append to the ghost log `sent`, and every call is taken to succeed.
- Producer.Ran: does not model a `put_records` call that raises. In `run` such an exception escapes `flush_records` at line 69 before line 82 runs, and line 70 does not catch it. The `finally` at line 73 then calls `put_records` again with the same `records`, and the exception ends `run`. The worker stops draining the queue, and the record carried in `next_records` is never sent. The model has no exceptional outcome for a call, so it does not capture this resend and loss.
- Process management: `multiprocessing.Process`, `atexit.register`, `shutdown` (lines 30-37) and installing the SIGTERM handler (line 44). These are operating-system effects; the handler itself is `SignalHandler`.
- Wall-clock time and `buffer_time` (lines 49, 51). The end of the buffer window is the `WindowElapsed` event, and the 0.1 s poll timeout is the `Timeout` event.
- Partition-key generation from `time.clock()` and `time.time()` (line 59). The key arrives with the payload as an opaque string.
- `sys.getsizeof` (line 62). Replaced by an abstract `size` function supplied to the constructor, because its value depends on the Python runtime.
- Logging (line 40).
- `KinesisProducer` and `put` (lines 86-93). Enqueueing is the producing side of the trace.
- Signals and interrupts outside `queue.get`. A SIGTERM or interrupt is modelled only while a poll is in progress. An interrupt during `flush_records` or between the cut and the flush at line 69 could lose the carried record or resend a batch; those cases are not modelled. A SIGTERM arriving during a flush is observed in the model one poll later, which can add one empty cycle.
- Producer.Ran: the trace is finite, and its end counts as an interrupt, so `run` always terminates in the model. In the source each `queue.get` gives up after 0.1 s (line 53), but the outer loop never ends while `alive` stays true. With `buffer_time <= 0` and a non-empty queue, it also never ends: every cycle then reads nothing.
- Batching.QueueEmpty: reads the queue's contents at line 47 from the trace: the queue is empty when the next poll would time out, be interrupted, or the trace ends. `multiprocessing.Queue.empty` can also answer wrongly, for a put the worker cannot see yet; that race is not modelled.
- `stream_name` is stored but only passed to the client, which is not modelled.
