# Verified models of the concurrency and stream examples

The repository is a collection of notes whose C, C++ and Python examples contain small but real
protocols. This project models the protocols and proves what they promise, for any number of
threads, processes or connections and for every interleaving. `dafny verify dfyconfig.toml` checks
all of it.

## How the models are built

Each concurrent example has two forms that are held together.

* An object (a class, with arrays, links or sequences as its fields) has one method for each
  operation of the program. Its postconditions equate the new state with a function of the old one.
* A labelled transition system is built from the same functions. `Step(s, e)` is the state after
  event `e`, or `None` when `e` cannot happen in `s`. All nondeterminism is in the choice of events:
  scheduling, timeouts, spurious wake-ups, short reads, which descriptors are ready, which descriptor
  `accept` returns. `Machines.Reachable` collects the states of all runs, and invariants are proved
  by `Machines.Invariance`.

The stream loops and the number conversion are methods proved against functions of their inputs
alone, about which the laws are proved: a short read, an interruption or a chunk size must make no
difference.

An event is one critical section, one semaphore operation or one system call, whichever is the unit
at which the original can be interleaved.

| files | what they model |
|---|---|
| PoolSections, PoolObject, PoolRuns, PoolMoves | the thread pool: linked task queue, lazy workers, timed waits, shutdown |
| Ring, RingObject | the semaphore-guarded ring buffer: shared memory blocks and numbered products |
| Monitor | producer and consumers around a mutex and a condition variable |
| Sockets | `read`, `recv` with `MSG_PEEK`, `write`, and the loops `readn` and `writen` |
| Framing | length-prefixed packets |
| ReadLine | the peek-then-take line reader |
| ReactorSteps, ReactorObject, ReactorRuns, ReactorEcho, ReactorTimeouts, ReactorCloses | the epoll reactor, what it echoes, its timeout scan, and what it closes |
| SelectServer, SelectObject, SelectMoves | the select server and its four pieces of bookkeeping |
| MqEcho, MqEchoObject | the echo service over one typed message queue |
| Dinner | dining philosophers on a semaphore set |
| Threshold | threads that check a threshold without a lock before each batch |
| Signals | two processes counting in turns by signals |
| FloatBits | conversion between integers and binary floating point |
| Machines, Sums, Arith, Powers, Bytes | runs and invariants, sums over sequences, division facts, powers of two |

## What does not hold of the code

Where the code does not keep what its comments or its purpose promise, the project proves exactly
when it does.

* A thread pool without any worker allowed strands its tasks (`PoolRuns.NoStrandedTask`).
* `threadpool_destroy` can return with workers alive and tasks queued. It does exactly when it finds
  `quit` already set and workers left, or finds an idle worker, or has the mutex back from its wait
  with workers left (`PoolRuns.ReturnsWithWorkers`); the last of these takes a spurious wake-up, or a
  task submitted after the wake-up (`PoolRuns.LateReturnIsDisturbed`). There is a run for each way
  (`PoolRuns.ReturnsOnQuit`, `PoolRuns.DestroyMayReturnEarly`, `PoolRuns.ReturnsOnSpuriousWakeup`,
  `PoolRuns.ReturnsAfterSubmission`). In a pool that may have a worker, a call to which none of this
  happens returns only when every task is finished and every worker gone
  (`PoolRuns.DestroyCompletes`). Of two threads that wait in it only one may ever be woken
  (`PoolRuns.NoAbandonedDestroyer`).
* The comment on the timed wait speaks of two seconds from now; the code sets an absolute time two
  seconds after the epoch. The model lets a wait time out at any moment.
* `readline` answers 0 both at the end of the stream and for a line that does not fit, so a stream
  is delivered whole exactly when it is well lined (`ReadLine.DeliversAll`).
* What is printed after `readline` is the buffer up to its first zero, not the line. For every way
  the peeks may fall it is just the line exactly when the line leaves room for a terminator, has no
  zero in it, and is followed by a zero or by the end of the stream (`ReadLine.PrintsJustTheLine`).
  So all lines of a stream are sure to be printed as they are exactly when there is at most one, and
  that stands alone (`ReadLine.PrintsEveryLine`); they can be, for some sizes of the peeks, exactly
  when each has no zero and is shorter than the buffer (`ReadLine.CanPrintEveryLine`).
* fputs reads past the buffer of 1024 bytes, after some call exactly when the stream fills the buffer
  without a zero, and after every call exactly when its first line does so by itself
  (`ReadLine.ReadsPastBuffer`, `ReadLine.FullBuffer`). Such a print has no result in the model, which
  goes on with the next line; C leaves the program's conduct undefined.
* `readline` ignores an error of the read behind a peek without newline. The bytes peeked count as
  taken, and the rest is a call on whatever is left of the stream; without such an error the call is
  exact (`ReadLine.ReadLine`).
* The framing receiver is led past its buffer exactly when the stream is some packets that fit it,
  and then a length above 1024 and below 2^31 with more than 1024 bytes behind it, or a length of 1024
  with that many bytes without a zero (`Framing.EndsExactlyWhen`, `Framing.LongLength`,
  `Framing.FullBody`). From 2^31 on the length is a negative int, and the receiver fails whatever is
  behind it (`Framing.NegativeLength`).
* A receive that fills the reactor's 128 bytes puts the terminator behind them, into the first byte of
  `len`. Where that is the low byte nothing is left to send, and the connection is never sent another
  byte. Received bytes can come back exactly when this does not happen and the epoll set has room for
  the descriptor (`ReactorEcho.EchoedExactlyWhen`).
* A connection for which the reactor has no slot, or that it cannot make non-blocking, is neither served
  nor ever closed (`ReactorCloses.ListenerEvent`, `ReactorCloses.UnattachedStayOpen`).
* The echo service over the message queue can deadlock exactly when the queue holds fewer messages
  than there are clients (`MqEcho.NoDeadlock`). With that room all requests can always be answered, in
  a number of steps that depends on the messages alone (`MqEcho.AnswersComplete`).
* The turn of the counting processes can be lost, exactly when a handler interrupts its own loop
  between `kill` and `flag = 0` (`Signals.TurnLostWhen`, `Signals.GoesOnUnlessOver`).
* A `get` can block with twelve consumers or more, and with eleven beside a producer, though not with
  the five of the program (`Threshold.NoGetBlocks`).
* `ftoi` undoes `itof` exactly below 2^24 in magnitude (`FloatBits.RoundTrip32`).

## Model

| member | source | states |
|---|---|---|
| PoolObject.ThreadPool.constructor | process/ipc/codes/threadpool/threadpool.c:121-132 | The new pool has an empty list, no thread and the given bound. |
| PoolObject.ThreadPool.AddTask | process/ipc/codes/threadpool/threadpool.c:133-181 | The new node is linked at the end of the list, which still represents the queue; a signal is due when a worker is idle, else a thread when there is room, and only then `count` grows. |
| PoolObject.ThreadPool.TakeFirst | process/ipc/codes/threadpool/threadpool.c:59-73 | The head is unlinked; `first`, `last` and `next` represent the rest of the queue. |
| PoolObject.ThreadPool.TakeOrLeave | process/ipc/codes/threadpool/threadpool.c:54-82 | From the end of the wait: the oldest task is taken if there is one, and otherwise the tail of the loop is done. |
| PoolObject.ThreadPool.LeaveOrLoop | process/ipc/codes/threadpool/threadpool.c:83-113 | With no task queued a worker leaves after `quit` or a timeout, and says whether it was the last; else it loops. |
| PoolObject.ThreadPool.Enter | process/ipc/codes/threadpool/threadpool.c:27-53 | The first critical section of a worker's loop: it counts itself idle and sleeps, takes a task or leaves. |
| PoolObject.ThreadPool.Wake | process/ipc/codes/threadpool/threadpool.c:33-55 | The critical section after a wait: a timed-out worker does not test the wait condition again, a woken one does. |
| PoolObject.ThreadPool.Destroy | process/ipc/codes/threadpool/threadpool.c:188-206 | `quit` is set and nothing else changes; it broadcasts with idle workers, waits with only busy ones, and returns with none. |
| PoolRuns.Invariant | process/ipc/codes/threadpool/threadpool.c:23-207 | The counters, sleepers, tasks and destroyer invariants hold together in every state of every run, for any submitters, workers, destroyers, timeouts and spurious wake-ups. |
| PoolRuns.NoStrandedTask | process/ipc/codes/threadpool/threadpool.c:33-110 | In every run, whenever the mutex is free and a task is queued some live worker is not asleep; this holds if and only if the pool may have a worker. |
| PoolRuns.PoolCounters | process/ipc/codes/threadpool/threadpool.c:30-110 | `idle` is the number of workers inside the wait, `count` the number created and not exited, and 0 <= idle <= count <= max_threads. |
| PoolRuns.TaskConservation | process/ipc/codes/threadpool/threadpool.c:57-82 | Tasks are taken in the order of submission; each is run by at most one worker; every submitted task is exactly one of queued, running and finished. |
| PoolMoves.WorkerMoves | process/ipc/codes/threadpool/threadpool.c:27-113 | In every run a worker that locks the mutex takes the oldest task, if there is one and it has not just run one; else leaves if `quit` is set or its wait has timed out; else sleeps, or begins its loop again. No other worker changes. |
| PoolMoves.ExitsExactlyWhen | process/ipc/codes/threadpool/threadpool.c:83-110 | At any step of any run a worker exits if and only if it locks the mutex with no task queued and `quit` set or its wait timed out; `count` then falls by one. |
| PoolMoves.TimedOutWorkerLeaves | process/ipc/codes/threadpool/threadpool.c:97-110 | A run in which a timed-out worker exits with `quit` unset. |
| PoolMoves.GrowsExactlyWhen | process/ipc/codes/threadpool/threadpool.c:152-179 | In every run a submission appends its task, and starts one thread if and only if no worker is idle and `count` is below `max_threads`. |
| PoolMoves.WakesOne | process/ipc/codes/threadpool/threadpool.c:158-163 | With a worker idle, a submission wakes one that sleeps, if there is one, unless one that has timed out takes the signal; no other changes. |
| PoolMoves.AllRunAtOnce | process/ipc/codes/threadpool/threadpool.c:164-178 | For every n up to `max_threads` some run has n tasks running at once. |
| PoolMoves.QuitMeansDestroy | process/ipc/codes/threadpool/threadpool.c:182-191 | In every run `quit` is set if and only if some thread is past the mutex in destroy, or has returned from it. |
| PoolMoves.DestroyMoves | process/ipc/codes/threadpool/threadpool.c:188-206 | With the mutex, destroy sets `quit`, leaves the counters, and waits if and only if there are workers and none is idle; all sleepers are woken. |
| PoolRuns.QuitEndsSleep | process/ipc/codes/threadpool/threadpool.c:33-40 | In every reachable state with `quit` set no worker is asleep. |
| PoolRuns.DestroyerWakesLast | process/ipc/codes/threadpool/threadpool.c:84-96 | A waiting destroyer is woken, other than spuriously, only when no worker and no queued task is left. |
| PoolRuns.NoAbandonedDestroyer | process/ipc/codes/threadpool/threadpool.c:193-203 | A waiting destroyer always has a live worker to wait for if and only if at most one thread destroys the pool or the pool never has a worker. |
| PoolRuns.TwoDestroyers | process/ipc/codes/threadpool/threadpool.c:193-203 | A run in which a second destroyer waits with no worker left. |
| PoolRuns.DestroyMayReturnEarly | process/ipc/codes/threadpool/threadpool.c:193-198 | A run in which destroy returns with a worker alive and a task queued. |
| PoolRuns.DestroyReturnsEarlyWhenIdle | process/ipc/codes/threadpool/threadpool.c:188-206 | Past the unlocked test of `quit`, a destroy call returns at once with workers left if and only if it finds a worker idle. |
| PoolRuns.ReturnsWithWorkers | process/ipc/codes/threadpool/threadpool.c:182-206 | Over every step that lets a destroyer return: workers are left if and only if it found `quit` set with workers left, or found a worker idle, or had the mutex back from its wait with workers left. |
| PoolRuns.LateReturnIsDisturbed | process/ipc/codes/threadpool/threadpool.c:199-205 | In every run, a destroyer woken from its wait finds workers left only if its wake-up was spurious or a task was submitted after it. |
| PoolRuns.DestroyCompletes | process/ipc/codes/threadpool/threadpool.c:182-206 | Over a whole call in any run: if destroy finds neither `quit` set nor a worker idle, and its wait is neither woken spuriously nor followed by a submission, it returns only with `count` 0, every worker exited and, if the pool may have a worker, no task queued and every submitted task finished. |
| PoolRuns.ReturnsOnQuit | process/ipc/codes/threadpool/threadpool.c:185-187 | A run in which a second destroyer returns at once while a task runs and no worker is idle. |
| PoolRuns.ReturnsOnSpuriousWakeup | process/ipc/codes/threadpool/threadpool.c:199-205 | A run in which a lone destroyer returns after a spurious wake-up while a task runs. |
| PoolRuns.ReturnsAfterSubmission | process/ipc/codes/threadpool/threadpool.c:199-205 | A run in which a lone destroyer returns with a task queued that was submitted after the last worker's signal. |
| PoolRuns.ShutdownStep | process/ipc/codes/threadpool/threadpool.c:83-113 | After `quit` every step other than a submission makes the measure of unfinished work smaller. |
| PoolRuns.ShutdownTerminates | process/ipc/codes/threadpool/threadpool.c:83-113 | After `quit` no run without submissions is longer than that measure. |
| PoolRuns.ShutdownDrains | process/ipc/codes/threadpool/threadpool.c:83-206 | Where no thread can go on by itself after `quit`, every task is finished, every worker has exited and a lone destroyer has returned. |
| PoolRuns.WorkerCanStep | process/ipc/codes/threadpool/threadpool.c:27-113 | After `quit` every live worker can take its next step. |
| PoolRuns.ShutdownCompletes | process/ipc/codes/threadpool/threadpool.c:83-206 | From every reachable state after `quit`, every run of the threads by themselves is bounded by the measure, can be extended to an end, and ends only with no task queued, every submitted task finished and every worker gone. |
| Ring.CriticalSections | process/ipc/codes/produce-consume/fifo.c:86-124 | Two steps of a process past the mutex are one critical section: put at the write index, or get at the read index. |
| Ring.CopyInKeeps | process/ipc/codes/produce-consume/fifo.c:90-94 | Copying a block in keeps every unread block in its slot. |
| Ring.CopyOutReady | process/ipc/codes/produce-consume/fifo.c:109-118 | The block a consumer copies out is the oldest unread one. |
| Ring.Invariant | process/ipc/codes/produce-consume/fifo.c:82-125 | The token and contents invariants hold in every state of every run with any producers and consumers. |
| Ring.Conservation | process/ipc/codes/produce-consume/fifo.c:33-50 | The two counting semaphores and the processes in flight add up to the capacity; the consumed blocks are a prefix of the produced ones; every unread block is in its slot. |
| Ring.MutualExclusion | process/ipc/codes/produce-consume/fifo.c:87-98 | At most one process is between the operations on the mutex. |
| Ring.RefinesQueue | process/ipc/codes/produce-consume/fifo.c:82-125 | Every step of every run is a step of a bounded first-in first-out queue: an enqueue below capacity, a dequeue of the head, or nothing. |
| Ring.NeverStuck | process/ipc/codes/produce-consume/fifo.c:82-125 | Some process can always go on, in every run, if and only if there are a slot, a producer and a consumer. |
| Ring.NoStrandedBlock | process/ipc/codes/produce-consume/fifo.c:82-125 | With a consumer, from every reachable state: every run without a new production is part of one of a length known in advance, after which nobody is in flight, everything produced is consumed and the whole buffer is free; only the producers already admitted copy in another block. |
| Ring.DrainsExactlyWhen | process/ipc/codes/produce-consume/fifo.c:82-125 | The ring can be drained so from every state of every run if and only if there is a consumer, or no producer or no slot. |
| Ring.NumberedProducts | process/ipc/codes/produce-consume/posix-produce-consume.c:81-85 | Products are consumed in the order of their numbers; with the mutex free the indices are the counts modulo the capacity; a slot is -1 if and only if it holds no unread product. |
| RingObject.BlockWritten | process/ipc/codes/produce-consume/fifo.c:91-94 | Bytes written at index times block size change that block of the payload and no other. |
| RingObject.ShmFifo.constructor | process/ipc/codes/produce-consume/fifo.c:42-50 | Both indices start at 0 in a payload of total times size bytes. |
| RingObject.ShmFifo.Produce | process/ipc/codes/produce-consume/fifo.c:89-96 | On the flat bytes, the producer's critical section is `Put` on the blocks. |
| RingObject.ShmFifo.Consume | process/ipc/codes/produce-consume/fifo.c:113-120 | On the flat bytes, the consumer's critical section is `Get` on the blocks, and the buffer receives the block read. |
| RingObject.NumberedBuffer.constructor | process/ipc/codes/produce-consume/posix-produce-consume.c:157-160 | All slots start at -1, both indices and the next product number at 0. |
| RingObject.NumberedBuffer.Produce | process/ipc/codes/produce-consume/posix-produce-consume.c:136-141 | Puts the next number into the slot at the write index. |
| RingObject.NumberedBuffer.Consume | process/ipc/codes/produce-consume/posix-produce-consume.c:80-85 | Leaves -1 in the slot at the read index. |
| Monitor.NoLostWakeup | process/ipc/codes/produce-consume/cond-produce-consume.c:49-97 | In every run, spurious wake-ups included, `total` is produced less consumed and not negative; while a consumer sleeps it is at most the number of consumers woken and not yet relocked. |
| Monitor.SleepsExactlyWhen | process/ipc/codes/produce-consume/cond-produce-consume.c:49-97 | In every run a consumer goes to sleep if and only if it locks the mutex and finds no product, and sleeps until woken; each takes one product, and each producing step adds one and wakes somebody if anybody sleeps. |
| Monitor.SomeoneTakes | process/ipc/codes/produce-consume/cond-produce-consume.c:49-65 | With a product in store some consumer that is awake can take it. |
| Monitor.NoStrandedProduct | process/ipc/codes/produce-consume/cond-produce-consume.c:49-97 | From every reachable state the whole store can be consumed in as many consuming steps, without further production or spurious wake-ups. |
| Monitor.Store.Produce | process/ipc/codes/produce-consume/cond-produce-consume.c:87-97 | The producer's critical section is the produce step, for any sleepers its signal wakes. |
| Monitor.Store.Consume | process/ipc/codes/produce-consume/cond-produce-consume.c:51-65 | The consumer's critical section is the enter or relock step: it takes a product or sleeps when there is none. |
| Sockets.CString | network/socket/codes/fixed-length/server.c:144-144 | The text in a buffer: the bytes before the first zero. |
| Sockets.CStringPadded | network/socket/codes/fixed-length/server.c:144-146 | Zeros behind a text do not change what is printed. |
| Sockets.FPutsPadded | network/socket/codes/fixed-length/server.c:144-146 | What fputs prints of bytes in a cleared buffer: their text, unless they fill the buffer without a zero. |
| Sockets.Socket.Readn | network/socket/codes/fixed-length/server.c:30-60 | Reads the count asked for, or what there is before the peer closes, whatever short or interrupted reads happen; -1 only on a real error. |
| Sockets.Socket.Writen | network/socket/codes/fixed-length/server.c:63-93 | Writes all the data in order, or a prefix of it up to a real error. |
| Framing.LengthReadsBack | network/socket/codes/fixed-length/server.c:132-173 | ntohl turns the four bytes of htonl back into the length. |
| Framing.LengthWritesBack | network/socket/codes/fixed-length/server.c:132-173 | And htonl the four bytes that ntohl has read. |
| Framing.HeaderBytes | network/socket/codes/fixed-length/server.c:173-173 | The four bytes of a header, each by its position: the highest byte of the length comes first. |
| Framing.HeaderValue | network/socket/codes/fixed-length/server.c:132-132 | The length in terms of the four bytes. |
| Framing.WireBytes | network/socket/codes/fixed-length/server.c:168-175 | In the stream of messages each lies behind those before it: two zeros, its length divided by 256, the remainder, and its text. |
| Framing.WholeFramesFit | network/socket/codes/fixed-length/server.c:116-148 | The number of whole frames in a prefix is the largest number whose encoding fits it. |
| Framing.ReceiveOfPrefix | network/socket/codes/fixed-length/server.c:107-157 | Given any prefix of an encoded stream the receiver prints exactly the whole messages in it, in order, and sees a clean close if and only if the prefix ends between frames. |
| Framing.RoundTrip | network/socket/codes/fixed-length/server.c:107-182 | The whole encoded stream comes back as the messages, with a clean close. |
| Framing.ReceiveSplit | network/socket/codes/fixed-length/server.c:107-148 | Packets that fit the buffer are printed up to their first zero, whatever is behind them. |
| Framing.EndsExactlyWhen | network/socket/codes/fixed-length/server.c:115-148 | On any stream: led past the buffer, failed or cleanly closed if and only if the stream is some packets that fit the buffer and then, in this order of cases, what leads past it, a piece of a packet or a negative length, or nothing. |
| Framing.LongLength | network/socket/codes/fixed-length/server.c:132-141 | A length above 1024 leads past the buffer if and only if it is below 2^31 and more than 1024 bytes are behind it, and otherwise fails. |
| Framing.NegativeLength | network/socket/codes/fixed-length/server.c:132-137 | A header whose first bit is set is a negative length, and fails whatever is behind it. |
| Framing.FullBody | network/socket/codes/fixed-length/server.c:134-144 | A body of 1024 bytes is printed if there is a zero in it, and otherwise leads past the buffer. |
| Framing.SendLines | network/socket/codes/fixed-length/server.c:168-179 | The sending loop writes the encoding of the lines' texts, beginning with two zeros, the two bytes of the first text's length, and that text. |
| Framing.ReceivePacket | network/socket/codes/fixed-length/server.c:118-144 | One round of the receiving loop is one step of `Receive` on the stream left, whatever chunks the reads return; a full buffer is led past only if one byte more comes, and a negative length fails before its read. |
| Framing.ReceiveLines | network/socket/codes/fixed-length/server.c:115-148 | The receiving loop prints and ends as `Receive` says of the bytes alone; with failing reads it prints a part of that, and ends otherwise only by failing. |
| Framing.Transfer | network/socket/codes/fixed-length/server.c:107-182 | Lines sent by one program are printed by the other as they were, under any short or interrupted calls at both ends. |
| ReadLine.LoopIs | network/socket/codes/readline/server.c:105-161 | Whatever sizes the peeks return, a line within `maxlen` is returned and taken exactly; otherwise 0 is returned and what fits the buffer is gone. |
| ReadLine.RecvPeek | network/socket/codes/readline/server.c:90-102 | Peeks with interruptions retried: the bytes are shown and stay in the stream; -1 if and only if the first call that is not interrupted fails. |
| ReadLine.FindNewline | network/socket/codes/readline/server.c:127-142 | Finds the first newline among the bytes just peeked, if there is one. |
| ReadLine.Round | network/socket/codes/readline/server.c:112-158 | One round of the loop ends the call as its last round does, or counts as taken what was peeked without newline; it is out of step only if the read of these bytes failed. |
| ReadLine.InStep | network/socket/codes/readline/server.c:112-158 | The loop, up to a result or to an ignored read error, takes and shows what the call on the stream says. |
| ReadLine.ReadLine | network/socket/codes/readline/server.c:105-161 | Returned length, bytes taken and bytes in the buffer are those of the call on the stream, for every sequence of peek sizes and interruptions; after an ignored read error, those of a call on what is left of the stream, behind the bytes that already count. Without a failed peek or a newline to take the program does not exit. |
| ReadLine.LinesComeBack | network/socket/codes/readline/server.c:219-226 | Lines that fit the buffer come back one per call, in order. |
| ReadLine.DeliversAll | network/socket/codes/readline/server.c:181-199 | What is delivered is a prefix of the stream, and all of it if and only if every `maxlen` consecutive bytes hold a newline and the last byte is one. |
| ReadLine.PrintsJustTheLine | network/socket/codes/readline/server.c:177-195 | However the peeks fall just the line is printed, if and only if it is shorter than the buffer, has no zero in it, and ends the stream or is followed by a zero. |
| ReadLine.ReadsPastBuffer | network/socket/codes/readline/server.c:177-195 | For some peeks fputs reads past the buffer if and only if the stream fills it without a zero; for all peeks if and only if its first line does so by itself. |
| ReadLine.FullBuffer | network/socket/codes/readline/server.c:177-195 | A line of 1024 bytes is returned whole, and fputs reads past the buffer whatever the peeks return. |
| ReadLine.PrintsEveryLine | network/socket/codes/readline/server.c:173-199 | However the peeks fall the texts printed of a whole stream are its lines, if and only if there is no line, or one that stands alone. |
| ReadLine.CanPrintEveryLine | network/socket/codes/readline/server.c:173-199 | For some peeks they are, if and only if no line has a zero in it or fills the buffer. |
| ReadLine.ReceiveLine | network/socket/codes/readline/server.c:184-197 | A call returns the first of the stream's lines and leaves the others; what is printed is `Printed` of the stream and the peeks, with no result where fputs reads past the buffer. |
| ReadLine.ReceiveLines | network/socket/codes/readline/server.c:173-199 | The receiving loop returns the lines of the stream and prints what `Prints` says of the stream and the peeks. |
| ReadLine.SendLines | network/socket/codes/readline/server.c:219-226 | The sending loop writes the lines one after the other, each up to its first zero. |
| ReadLine.Transfer | network/socket/codes/readline/server.c:173-229 | What the other program returns and prints depends on the bytes sent and the peeks alone; lines that fit the buffer come out one per call, in order, under any short or interrupted calls. |
| ReactorSteps.FirstFree | network/socket/codes/epoll-reactor/epoll.c:122-125 | The first slot with status 0, or the listener's position. |
| ReactorObject.Reactor.EventSet | network/socket/codes/epoll-reactor/epoll.c:40-52 | In place on the slot array, as the function the runs are built from. |
| ReactorObject.Reactor.EventAdd | network/socket/codes/epoll-reactor/epoll.c:62-91 | Modifies the registration of a slot with status 1, else adds it; the status is set even if the call fails, for its descriptor or for want of room. |
| ReactorObject.Reactor.EventDel | network/socket/codes/epoll-reactor/epoll.c:94-105 | Takes a registered slot out of the epoll set. |
| ReactorObject.Reactor.Accept | network/socket/codes/epoll-reactor/epoll.c:108-148 | A new connection gets the first free slot; without one, or without non-blocking mode, it stays open and unregistered. |
| ReactorObject.Reactor.Recv | network/socket/codes/epoll-reactor/epoll.c:151-174 | Received bytes are kept and the slot waits to send, all of them unless the terminator falls into `len`; at the end of the stream or an error the connection is closed. |
| ReactorObject.Reactor.Send | network/socket/codes/epoll-reactor/epoll.c:176-194 | What send takes is sent and the slot waits to receive; if it takes nothing the connection is closed. |
| ReactorObject.Reactor.Dispatch | network/socket/codes/epoll-reactor/epoll.c:258-266 | The two tests of the dispatch loop, the second on the slot as the first call left it. |
| ReactorObject.Reactor.ScanTimeouts | network/socket/codes/epoll-reactor/epoll.c:233-248 | The wrapping scan loop is `ScanSlots` on table and cursor. |
| ReactorRuns.DispatchKeeps | network/socket/codes/epoll-reactor/epoll.c:255-267 | Handling an event keeps the table, connection and echo invariants, leaves every other registered slot and its connection alone, and moves bytes on its own connection only. |
| ReactorRuns.PendingKept | network/socket/codes/epoll-reactor/epoll.c:255-267 | After an event is handled the events left in the batch are still valid. |
| ReactorRuns.Invariant | network/socket/codes/epoll-reactor/epoll.c:234-268 | Table, connections, echo, batch and cursor invariants hold in every state of every run. |
| ReactorRuns.PendingEventsStayValid | network/socket/codes/epoll-reactor/epoll.c:255-267 | Through a whole batch every event not yet processed still refers to the connection it was reported for, although slots may have been closed and reused. |
| ReactorRuns.EventsActOnTheirConnection | network/socket/codes/epoll-reactor/epoll.c:255-267 | Handling an event moves no byte on any connection but the one it was reported for. |
| ReactorRuns.RegisteredSlots | network/socket/codes/epoll-reactor/epoll.c:62-105 | Registered slots hold distinct open descriptors, callback matches interest, the epoll set has exactly the registered slots, less those it had no room for, and no addition to it was ever refused for its descriptor. |
| ReactorRuns.Echoes | network/socket/codes/epoll-reactor/epoll.c:151-194 | What a connection was sent is a prefix of what it sent unless some send on it was short; with nothing held it is all of it if and only if none was. |
| ReactorEcho.MutedForGood | network/socket/codes/epoll-reactor/epoll.c:176-194 | A connection that waits to send nothing, or that the epoll set had no room for, is never sent another byte, in any run. |
| ReactorEcho.EchoedExactlyWhen | network/socket/codes/epoll-reactor/epoll.c:151-194 | After any receive in any run, some run from there sends exactly the received bytes back if and only if the descriptor could be added again and not the whole buffer was filled with the low byte of `len` behind it. |
| ReactorTimeouts.VisitsGoRound | network/socket/codes/epoll-reactor/epoll.c:237-239 | Visit number v of the scan goes to slot v modulo the number of client slots, so never to the listener's. |
| ReactorTimeouts.ScanCoverage | network/socket/codes/epoll-reactor/epoll.c:237-248 | Consecutive rounds look at every client slot if and only if they make at least as many visits as there are slots. |
| ReactorTimeouts.ShippedCoverage | network/socket/codes/epoll-reactor/epoll.c:235-248 | With 100 visits a round and 1024 slots, 11 rounds are enough and 10 are not. |
| ReactorTimeouts.ScanClosesIdle | network/socket/codes/epoll-reactor/epoll.c:240-247 | A round closes a slot if and only if it looks at it and finds it registered and idle for 60 seconds; other slots it leaves alone. |
| ReactorTimeouts.IdleConnectionsAreClosed | network/socket/codes/epoll-reactor/epoll.c:233-248 | A run whose scans come 60 seconds later and cover the slots does not leave a connection registered that was not re-armed meanwhile. |
| ReactorCloses.EventAddRegisters | network/socket/codes/epoll-reactor/epoll.c:62-91 | A slot with status 1 is modified, any other added; the call is refused for a descriptor that is not in the epoll set, or is in it; the slot counts as registered all the same. |
| ReactorCloses.EventDelUndoes | network/socket/codes/epoll-reactor/epoll.c:62-105 | Deleting undoes adding, and a second time does nothing. |
| ReactorCloses.ClientEvent | network/socket/codes/epoll-reactor/epoll.c:151-194 | In every run an event ends its connection, and closes the descriptor, if and only if the stream has ended or failed, or send takes nothing; otherwise the slot is re-armed with the present time, to send what came or to receive again. |
| ReactorCloses.ListenerEvent | network/socket/codes/epoll-reactor/epoll.c:108-148 | In every run a new connection gets the lowest free slot, with the present time, if and only if there is one and it is non-blocking; otherwise it is open without a slot. |
| ReactorCloses.ScanRoundCloses | network/socket/codes/epoll-reactor/epoll.c:236-248 | In every run a round of the scan closes an open descriptor if and only if it visits its slot and finds it idle for 60 seconds. |
| ReactorCloses.OpenDescriptors | network/socket/codes/epoll-reactor/epoll.c:108-248 | In every run a descriptor is open if and only if it is that of a registered slot, the listener's among them, or of a connection accept did not attach, and not both. |
| ReactorCloses.UnattachedStayOpen | network/socket/codes/epoll-reactor/epoll.c:122-141 | A connection that accept did not attach stays open in every run from there. |
| ReactorCloses.IdleConnectionsClose | network/socket/codes/epoll-reactor/epoll.c:233-248 | A run whose scans come 60 seconds later and cover the slots closes every connection that has a slot, or has re-armed it meanwhile. |
| SelectServer.Find | network/socket/codes/echo/select_server.c:140-149 | The first position that holds the value, or the number of slots. |
| SelectServer.TablesAgree | network/socket/codes/echo/select_server.c:99-204 | In every run the set given to select is the listener and the occupied slots, all open; slots hold distinct descriptors at or below `max_pos`; `maxfd` bounds the set. |
| SelectServer.ServeReads | network/socket/codes/echo/select_server.c:166-204 | Counting down from the number of ready clients, the loop reads them in slot order, up to the first close. |
| SelectServer.RoundServesReady | network/socket/codes/echo/select_server.c:127-204 | A round reads each ready client at most once and nothing else; unless a client closes in it, it reads them all although `nready` may end it early. |
| SelectServer.NeverTooManyClients | network/socket/codes/echo/select_server.c:150-154 | With descriptors below the table's size the exit for too many clients is never taken. |
| SelectMoves.AcceptMoves | network/socket/codes/echo/select_server.c:138-158 | A new connection gets the lowest free slot; `max_pos` and `maxfd` grow only to what it got. |
| SelectMoves.CloseMoves | network/socket/codes/echo/select_server.c:174-188 | At the end of a stream the slot becomes -1, and the descriptor is closed and leaves the set. |
| SelectMoves.RoundMoves | network/socket/codes/echo/select_server.c:109-206 | In every run the program goes on if and only if no read of the round fails; slots, set and open descriptors gain what accept returns and lose those read to their end. |
| SelectMoves.OpenDescriptors | network/socket/codes/echo/select_server.c:99-206 | In every run the open descriptors are those open at the start and exactly the clients in the slots. |
| SelectObject.Server.constructor | network/socket/codes/echo/select_server.c:99-107 | All slots are free and the set holds the listener. |
| SelectObject.Server.Search | network/socket/codes/echo/select_server.c:179-187 | The loop finds the first position with the value below a limit, or the limit. |
| SelectObject.Server.Accept | network/socket/codes/echo/select_server.c:128-158 | Takes the first free position and updates `max_pos`, set and `maxfd`, or reports that the program exits. |
| SelectObject.Server.Close | network/socket/codes/echo/select_server.c:174-188 | Clears the descriptor from the set and from its slot. |
| SelectObject.Server.ServeReady | network/socket/codes/echo/select_server.c:166-204 | The loop over the slots reads what `Serve` says and ends as it says. |
| SelectObject.Server.Turn | network/socket/codes/echo/select_server.c:109-206 | One round of the main loop, with whatever select, accept and read return. |
| MqEcho.FirstOfType | network/socket/codes/mq-echo/server.c:31-31 | msgrcv's choice: the first message of the type, or none. |
| MqEcho.RequestQueued | network/socket/codes/mq-echo/client.c:35-42 | In every run a request goes to the end of the queue, with type 1 and its sender's pid. |
| MqEcho.ServerTakesOldest | network/socket/codes/mq-echo/server.c:31-39 | The server takes the oldest request, leaves the others in their order, and readdresses it to its sender. |
| MqEcho.ClientTakesOwn | network/socket/codes/mq-echo/client.c:44-49 | In every run a client takes the first message of its pid, leaves the others in their order, and gets its text. |
| MqEcho.Invariant | network/socket/codes/mq-echo/server.c:27-42 | Client, count, owner and total invariants hold in every state of every run with distinct pids above 1. |
| MqEcho.OwnReplies | network/socket/codes/mq-echo/client.c:35-51 | The k-th reply a client gets carries its own k-th request, and all requests but an outstanding one are answered. |
| MqEcho.OneMessageEach | network/socket/codes/mq-echo/client.c:35-51 | A waiting client owns exactly one message in the system, which carries its request; other clients own none. |
| MqEcho.AnswersProgress | network/socket/codes/mq-echo/server.c:27-42 | With room for a message of every client, while a client waits some step other than a new request is possible. |
| MqEcho.NoDeadlock | network/socket/codes/mq-echo/server.c:27-42 | No run ends in deadlock if and only if the queue can hold as many messages as there are clients. |
| MqEcho.AnswersComplete | network/socket/codes/mq-echo/server.c:27-42 | With room for a message of every client, from every reachable state: every run without new requests is part of one of exactly as many steps as the messages still have to take, after which each client has the replies to all its requests. |
| MqEcho.AnsweredExactlyWhen | network/socket/codes/mq-echo/server.c:27-42 | All requests can be answered so from every state of every run if and only if the queue can hold as many messages as there are clients, or none at all. |
| MqEchoObject.Queue.Send | network/socket/codes/mq-echo/server.c:40-41 | Appends to a queue that is not full, else would block. |
| MqEchoObject.Queue.Receive | network/socket/codes/mq-echo/server.c:31-33 | The search loop takes out the first message of the type, else would block. |
| MqEchoObject.EchoServer.Receive | network/socket/codes/mq-echo/server.c:31-39 | Receiving a request and retagging it with the sender's pid in the one buffer is the server's receive step. |
| MqEchoObject.EchoServer.SendBack | network/socket/codes/mq-echo/server.c:40-41 | Sending the buffer back is the server's send step. |
| MqEchoObject.EchoClient.constructor | network/socket/codes/mq-echo/client.c:27-33 | The buffer starts with the client's own pid. |
| MqEchoObject.EchoClient.Request | network/socket/codes/mq-echo/client.c:35-42 | Sending the request from the reused buffer is the client's request step. |
| MqEchoObject.EchoClient.Reply | network/socket/codes/mq-echo/client.c:44-49 | Receiving the reply over the request in the buffer is the client's reply step. |
| Dinner.BothForks | process/ipc/codes/dinner/dinner.c:37-68 | The two-semaphore operation is done as a whole or not at all, and not when a fork would fall below zero. |
| Dinner.NeighboursNeverEat | process/ipc/codes/dinner/dinner.c:35-68 | In every run each fork is 1 less its eating users, so neighbours never eat together. |
| Dinner.AtMostHalf | process/ipc/codes/dinner/dinner.c:80-96 | At most half of the philosophers eat at once. |
| Dinner.HalfCanEat | process/ipc/codes/dinner/dinner.c:80-96 | Every number up to half of them is reached by some run. |
| Dinner.WaitsForNeighbours | process/ipc/codes/dinner/dinner.c:35-49 | A philosopher gets the forks at once if and only if there are at least two philosophers and neither neighbour is eating. |
| Dinner.NoDeadlock | process/ipc/codes/dinner/dinner.c:75-97 | No run ends in deadlock if and only if there are at least two philosophers. |
| Dinner.Table.constructor | process/ipc/codes/dinner/dinner.c:101-113 | Every semaphore starts at 1. |
| Dinner.Table.Operate | process/ipc/codes/dinner/dinner.c:47-48 | semop: all the operations in order, or none. |
| Dinner.Table.WaitForForks | process/ipc/codes/dinner/dinner.c:35-49 | Is the step that takes both forks, or changes nothing where the caller would sleep. |
| Dinner.Table.ReturnForks | process/ipc/codes/dinner/dinner.c:54-68 | Is the step that gives both forks back. |
| Threshold.NeverOverfull | thread/producer_consumer.py:17-22 | With P producers the queue and the puts to come stay at most 99 + 30P once a producer's check has passed, and at most 500 before. |
| Threshold.NeverUnderfull | thread/producer_consumer.py:27-31 | With C consumers the queue less the gets to come never falls below 51 - 5C. |
| Threshold.NoGetBlocks | thread/producer_consumer.py:27-31 | No get ever blocks if and only if there are at most ten consumers, or eleven and no producer. |
| Threshold.FilledToTheBound | thread/producer_consumer.py:17-22 | Some run fills the queue to 99 + 30P, so no smaller bound holds. |
| Threshold.EmptiedToTheBound | thread/producer_consumer.py:27-31 | Some run brings the queue less the gets to come down to 51 - 5C, for any number of producers and consumers but none. |
| Threshold.Starved | thread/producer_consumer.py:27-31 | A run in which a get blocks, for every other number of consumers. |
| Threshold.Kitchen.constructor | thread/producer_consumer.py:34-46 | The queue starts with 500 items and no thread in a batch. |
| Threshold.Kitchen.Produce | thread/producer_consumer.py:17-23 | An undisturbed turn of a producer is a check and, below 100, 30 puts. |
| Threshold.Kitchen.Consume | thread/producer_consumer.py:27-32 | An undisturbed turn of a consumer is a check and, above 50, 5 gets. |
| Signals.CountsInOrder | cpp/codes/async-count/io.c:19-101 | However loops and handlers interleave the numbers printed are 1, 2, ..., k, odd ones by the parent and even ones by the child, and the two never have the turn together. |
| Signals.TurnLostWhen | cpp/codes/async-count/io.c:66-98 | A step loses the turn if and only if it ends a handler that interrupted its own loop between sending the signal and clearing the flag. |
| Signals.GoesOnUnlessOver | cpp/codes/async-count/io.c:19-98 | From any point of any run the count can go on if and only if the turn is neither lost nor held by such a handler. |
| Signals.OverForGood | cpp/codes/async-count/io.c:66-98 | Once it is over no run prints anything more. |
| Signals.TurnCanBeLost | cpp/codes/async-count/io.c:89-98 | A run that loses the turn after printing 3. |
| Signals.Counter.Handle | cpp/codes/async-count/io.c:19-46 | The handler, undisturbed, is its three steps: print, add two, set the flag. |
| Signals.Counter.Turn | cpp/codes/async-count/io.c:66-76 | A turn of the loop, undisturbed, sends the signal and clears a flag that is set. |
| FloatBits.HighestBit | computer_system/ftoi.cpp:17-26 | The shifting loop finds the position of the highest bit, or -1 for zero. |
| FloatBits.ValueIs | computer_system/ftoi.cpp:43-68 | The value of sign, exponent and fraction fields, in whole numbers: (2^w + fraction) * 2^exponent, or 2 * fraction for exponent 0, over 2^(w+127). |
| FloatBits.OneIs | computer_system/ftoi.cpp:55-60 | The fields 0, 127, 0 are the number 1 at every width. |
| FloatBits.WordIs | computer_system/ftoi.cpp:26-38 | The word of a positive integer begins with 127 and the position of its highest bit, of a negative one with 256 more; the word of zero is zero. |
| FloatBits.Words32 | computer_system/ftoi.cpp:10-41 | The binary32 words of 1, -1 and 2^24 + 1, whose last bit is lost. |
| FloatBits.Itof | computer_system/ftoi.cpp:10-41 | The word is the packed fields of `FromInt`: sign, 127 plus the position of the highest bit, and the bits below it; there is none for the least integer, whose negation is undefined. |
| FloatBits.ItofRoundsTowardZero | computer_system/ftoi.cpp:10-41 | itof rounds toward zero with an error below 2^(k-w), and is exact if and only if no set bit is lost. |
| FloatBits.ItofExact | computer_system/ftoi.cpp:32-38 | Every integer below 2^(w+1) in magnitude is converted exactly. |
| FloatBits.FtoiTruncates | computer_system/ftoi.cpp:43-68 | ftoi truncates every number below 2^(w+1), zeros and subnormals included, and has no defined result above. |
| FloatBits.Ftoi | computer_system/ftoi.cpp:43-68 | The shifts and masks compute that truncation. |
| FloatBits.RoundTrip | computer_system/ftoi.cpp:10-68 | ftoi undoes itof if and only if the integer is below 2^(w+1) in magnitude. |
| FloatBits.RoundTrip32 | computer_system/ftoi.cpp:10-68 | For int and binary32 the bound is 2^24. |

## Left out

- Socket and semaphore set-up, fork, thread creation and its failures, printing, `sleep` and error exits are not part of the models.
- `fifo_init` when two processes create the segment at once; the ring starts initialised.
- Fairness and starvation: nothing in the code ensures either. Progress is stated as steps that are possible, or as runs that must end.
- Critical sections of the thread pool and of the monitor are single events. Between them the mutex is free. The ring models every semaphore operation separately, the counting processes every statement of handler and loop.
- PoolRuns.Invariant: a signal wakes one waiter, or none when a worker whose wait has timed out takes it; that it may wake more is covered by the spurious wake-ups, which may happen at any time.
- Framing.Receive: a read whose count is above SSIZE_MAX, as a negative length gives it, is taken to be refused with an error, as Linux does; POSIX leaves it to the implementation.
- Framing and ReadLine: a stream's fate script is finite, so endless interruptions and endless writes of nothing do not occur.
- ReadLine.Round: the exit for a negative rest of the buffer is never reached, as no peek returns more than the rest.
- ReactorEcho.EchoedExactlyWhen: C leaves the store behind a full buffer undefined; the model lets it fall where the struct has its next field, into `len`. The tail of a short send is lost in the model as in the code.
- ReactorRuns.RegisteredSlots: an addition to the epoll set can fail for want of memory or of the watch limit; modifying and deleting a registration cannot.
- ReactorRuns.Step: the end of the program on an error of epoll_wait, and the readiness of descriptors that are not registered.
- SelectServer.Step: the bytes read and written back (the code writes its whole buffer), and errors of select. `allset` starts empty although the code does not clear it; descriptors are below FD_SETSIZE.
- MqEcho.Step: the length of a message; the queue's limit in bytes is a number of messages, as all messages have one size. The texts are C strings.
- Threshold.Step: the texts of the items; only their number counts.
- Signals.Step: the interval before the child has registered its handler, which the original bridges with `sleep`.
- FloatBits.Itof: works on integers with explicit powers of two, not on bit vectors; the fields of a word do not overlap, so joining them by a bitwise or is adding them.
- FloatBits.Ftoi: takes the three fields of its argument, not a machine float.
- `multicopy.c`, `poll_server.c`, `shutdown_server.c` and the other echo servers, the clients that repeat the stream loops, and the Python examples other than producer_consumer.py would only add duplicates or easy members.
