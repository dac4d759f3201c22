# Verified models of a C/C++ systems collection

This project models the programs of the collection that keep interesting
state, and proves what they are for. It is one Dafny project:
`dafny verify dfyconfig.toml` checks all of it.

The programs and their files here:

- **The bank simulation** (`QueueServiceSystem`): customers arrive, windows
  serve them, an ordered event list drives both. `BankModel` is the state and
  one iteration of the event loop as values; `BankQueue` and `BankSystem` are
  the linked queue, the windows and the simulation as objects that change in
  place; `BankRecurrence` is the schedule of a first-come-first-served counter
  as a recurrence over customers, with no event list; `BankInvariant` and
  `BankTheorems` show that the event loop computes that recurrence.
- **The HTTP request parser** (`HttpServer/http_conn.cpp`): a line scanner and
  a request-line/header/body machine over a buffer they overwrite, resumed
  after every partial read. `HttpText` holds C strings and the C library
  functions used, `HttpConn` the parser on values, `HttpConnection` the object
  with its array, `HttpLines` the request line's grammar, `HttpChunks` what
  cuts outside the body do, `HttpBody` how a body is looked for and `HttpCuts`
  what cuts inside it do, `HttpStrings` what the recovered strings are worth,
  `HttpRoundTrip` the parsing of printed requests, `HttpAnswer` the answer to any
  bytes as a function of those bytes, `HttpExamples` single requests. The
  grammar is that of sections 3.1.1 and 3.2 of RFC 7230 as far as the code
  follows it.
- **The memory pool and the stack on it** (`MemoryPool`): `Memory` is a byte
  memory in which pointers are stored as eight bytes, with the alignment
  arithmetic; `PoolModel` and `PoolProofs` are the pool on values, `MemoryPool`
  and `StackAlloc` the objects; `PoolFrames` and `PoolHistories` are what clients
  see of the pool over whole histories.
- **Five small protocols**, each a state machine over its atomic steps:
  `ThreadPool` (the C++ pool with its draining destructor), `WorkQueue` (the
  HTTP server's semaphore queue), `RingBuffer` (`Thread/threadSem.c`),
  `ProcessPool` (the round-robin parent), `ChatServer` (the user table with
  swap-removal).

Objects and values belong together: the methods of `QueueSystem`,
`Connection`, `MemoryPool` and `StackAlloc` say in their `ensures` that the new
state is the value functions' result on the old one, and the theorems are about
those functions. Integers are unbounded unless noted.

Inputs that come from outside are parameters: the random draws of a simulated
day (any non-negative numbers), the bytes that arrive, the address `operator
new` returns (aligned, in memory and apart from the blocks in use), process
numbers from `fork` and `waitpid`, and which thread moves next.

## What the code does that its documentation does not say

- The header compared against is spelled `Connextion:`
  (`HttpServer/http_conn.cpp:176`), so a `Connection:` header is an unknown
  header. The model follows the code.
- A body that arrives in pieces is scanned for lines between the pieces
  (`HttpServer/http_conn.cpp:209-210`, `240`), and what the scan passes over is
  not counted any more. `HttpCuts.CutsInsideBody` says for any chunks which
  cuts do no harm: those at which the scan stops at the body's first byte,
  because it is an LF, or a CR that is not followed by an LF in what has
  arrived; and what the first result is in any case. The url, version, host,
  length and linger flag never depend on the cuts
  (`HttpCuts.ChunksRecoverTheSame`).
- The NUL behind a body is stored as far behind the start of the line as the
  length says (`HttpServer/http_conn.cpp:198`, `211-212`). In one call that is
  the body's end; between calls the start of the line moves to where the call
  counts from. The model makes the case that the place lies outside the buffer
  a result of its own, `OutOfBuffer`. `HttpCuts.OutOfBufferIff` says for any
  call when that happens and `HttpCuts.OutOfBufferInChunks` for any chunks: if
  the length is negative and reaches in front of the buffer, or if what the
  parser counts as the body ends with the buffer and no byte lies between the
  start of the line and the place it counts from. A negative `Content-Length`
  is accepted (`HttpServer/http_conn.cpp:185`, `197`) and its body counts as
  complete; `HttpExamples.NegativeLengthLeavesBuffer` is a request of less
  than a hundred bytes. `HttpExamples.CutsMoveTheStore` is a body that ends
  before the buffer does and is found in one call, cut such that the NUL falls
  behind the buffer. A negative length that does not reach in front of the
  buffer stores the NUL inside the head, and
  `HttpRoundTrip.PrintedRequestIsRecovered` says where.
- The length and the checked index are added as ints
  (`HttpServer/http_conn.cpp:197`). The model makes a sum that is no int a
  result of its own, `SumOverflows`; `HttpCuts.SumOverflowsIff` and
  `HttpCuts.SumOverflowsInChunks` say exactly when, which takes a length within
  the buffer's size of the greatest int, and `HttpExamples.HugeLengthExceeds`
  is such a request.
- `read` fails if it is called with a full buffer (`HttpServer/http_conn.cpp:109-111`),
  also if everything has arrived by then.
- A malformed line ending makes `process_read` return NO_REQUEST, as an
  incomplete one does (`HttpServer/http_conn.cpp:209-210`, `249`).
- `enqueue` on the event list would drop the events behind `back`, which
  ordered insertion leaves behind; `BankQueue.Queue.Enqueue` says so, and
  `BankQueue.OrderEnqueue` shows that it is only used on an empty list.
- The day ends exactly if the draws bring an arrival up to closing
  (`BankTheorems.EndsIff`); with gaps that stay 0 it would not end.
- A connection can be dispatched after the pool was told to stop, among the
  events of the same wait (`ProcessPool/processpool.h:299-306`); it finds no
  live child.
- The HTTP server's workers look at the stop flag before they wait
  (`HttpServer/threadpool.h:83-84`), so a worker that already waits still takes
  a request when the flag is set, and one that waits with nothing posted never
  leaves (`WorkQueue.RestWhenStopped`).
- In the chat server the process number of a user who leaves from the last
  entry stays in the map (`ChatServer.ForgottenUnlessLast`).
- A process number of 65536 or more, which `fork` may return where the system
  allows it, makes the chat server store outside its map
  (`ChatRoom/MPserver.c:299`). The model makes that case a result of its own,
  `OutOfMap`.

## Model

| member | source | states |
|---|---|---|
| BankQueue.Queue.Enqueue | QueueServiceSystem/queue.h:46-56 | the item follows what was in front of `back`; what was linked behind `back` is lost; `back` is the new last node |
| BankQueue.Queue.Dequeue | QueueServiceSystem/queue.h:59-67 | the first item leaves, or null on an empty list; `back` still points to the header or a node of the list |
| BankQueue.Queue.Length | QueueServiceSystem/queue.h:91-99 | the count is the number of items behind the header |
| BankQueue.Queue.ClearQueue | QueueServiceSystem/queue.h:34-43 | the list becomes empty, `back` is the header, and every item's node is deleted once |
| BankQueue.OrderEnqueue | QueueServiceSystem/queue.h:70-88 | exactly the one event is added, in front of the first event that is not earlier; `back` keeps pointing to its node, or to the new node on an empty list |
| BankSystem.ServiceWindow.ServeCustomer | QueueServiceSystem/service_window.h:26-28 | the window has the customer and keeps its status |
| BankSystem.QueueSystem.GetIdleServiceWindow | QueueServiceSystem/queue_system.h:61-66 | the first idle window, or -1 |
| BankSystem.QueueSystem.CustomerArrived | QueueServiceSystem/queue_system.h:69-104 | counts the customer, plans the next arrival if it is before closing, seats the head of the line at the first idle window and plans its departure |
| BankSystem.QueueSystem.CustomerDeparture | QueueServiceSystem/queue_system.h:107-126 | before closing the stay grows and the window takes the next customer or becomes idle; from closing on nothing but the event is used up |
| BankSystem.QueueSystem.End | QueueServiceSystem/queue_system.h:52-58 | all windows idle, both lists empty, totals kept |
| BankSystem.QueueSystem.Run | QueueServiceSystem/queue_system.h:34-49 | a day ends with the bank ready for the next; the count grows by the customers the draws bring in, the total stay by the direct sum of the recurrence, and the result times the count is next to the total stay, on the side of zero |
| BankInvariant.OrderInsertKeepsSorted | QueueServiceSystem/queue.h:70-88 | ordered insertion keeps the event list sorted |
| BankInvariant.EveryLoopHead | QueueServiceSystem/queue_system.h:35-46 | the whole loop invariant holds at every loop head of every run |
| BankTheorems.WindowsMatchAgenda | QueueServiceSystem/queue_system.h:35-126 | at every loop head at most one arrival and one departure per window are pending; an idle window has none; a busy one lacks one only if its customer left at or after closing; nobody waits beside an idle window |
| BankRecurrence.SameChoice | QueueServiceSystem/queue_system.h:89-99 | which of several suitable windows is taken cannot be noticed by later customers |
| BankTheorems.RunIsRecurrence | QueueServiceSystem/queue_system.h:35-126 | a finished run is the multi-server first-come-first-served recurrence: same customers, same starts in arrival order, exactly those starting before closing (and the opening one) start, everybody leaves once at start plus duration, same totals |
| BankTheorems.Accounting | QueueServiceSystem/queue_system.h:69-126 | arrivals are departures plus customers in service plus customers waiting; the total stay is the in-hours departures' sum; every stay covers its service |
| BankTheorems.ClockIsMonotone | QueueServiceSystem/queue_system.h:37-46 | events are handled in non-decreasing time |
| BankTheorems.NothingStartsAfterHours | QueueServiceSystem/queue_system.h:106-126 | from a departure at or past closing on, no arrival is handled, nobody starts, and windows, line and totals stay as they are |
| BankTheorems.RemainingFalls | QueueServiceSystem/queue_system.h:35-46 | every event lowers three times the arrivals to come plus twice the line plus the pending events |
| BankTheorems.EndsIff | QueueServiceSystem/queue_system.h:35-46 | the loop ends if and only if the draws bring some arrival up to closing |
| BankTheorems.PositiveGapsEnd | QueueServiceSystem/queue_system.h:73-79 | gaps of at least one bring an arrival up to closing |
| HttpConn.ParseLine | HttpServer/http_conn.cpp:83-106 | the scan only moves the checked index forward, never past the read index, and makes progress when it finds a line |
| HttpChunks.ScanIs | HttpServer/http_conn.cpp:83-106 | from a clean state a scan stops at the first CR or LF and a stray one is bad, so the look-back branch is never taken; the state stays clean |
| HttpRoundTrip.ScanSplits | HttpServer/http_conn.cpp:83-106 | successive lines are the CR LF separated lines of the input up to the first stray or last CR, or LF |
| HttpLines.RequestLineAcceptsShape | HttpServer/http_conn.cpp:128-167 | a request line is accepted if and only if it is GET, blanks, a target with a path, blanks and HTTP/1.1, in any case of letters, the target also in its absolute form |
| HttpLines.RequestLineRecovers | HttpServer/http_conn.cpp:128-167 | for such a line the url points at the path, the version at the version, and the phase is the headers' |
| HttpRoundTrip.FieldHandled | HttpServer/http_conn.cpp:169-194 | what parse_headers makes of each kind of printed header, including the blanks it skips and the number it reads, with any sign, leading zeros and whatever ends it |
| HttpText.AtolIs | HttpServer/http_conn.cpp:185 | white space, a sign, digits and anything that is no digit behind them are read as plus or minus the sum of the digits times their powers of ten, saturated; no digit is 0 |
| HttpText.NoCaseIs | HttpServer/http_conn.cpp:139-176 | texts are compared up to the case of ASCII letters, and nothing else |
| HttpChunks.HeadReceive | HttpServer/http_conn.cpp:204-250 | with more bytes behind, what was decided of the head stays decided, and the rest is decided from where the shorter input left off |
| HttpChunks.ChunkingDoesNotMatter | HttpServer/http_conn.cpp:83-250 | cutting the input into chunks of which none but the last ends strictly inside the body changes neither the first result nor any field |
| HttpStrings.ProcessGrounds | HttpServer/http_conn.cpp:204-250 | url, version and host always end below the checked index, and no byte below it is CR or LF |
| HttpBody.FeedIsJudged | HttpServer/http_conn.cpp:83-250 | calls that resume inside a body come to what positions in the bytes as they arrived say: where each call counts from, where its line begins, and which call decides what |
| HttpCuts.CutsInsideBody | HttpServer/http_conn.cpp:83-250 | for a request with a body and any chunks: if the body is there, the outcome is that of one call if and only if every cut inside the body leaves the scan at the body's first byte; the first result is in any case the one the bytes are judged to |
| HttpCuts.FirstResultIff | HttpServer/http_conn.cpp:196-250 | if nothing follows the body, the first result is that of one call if and only if, with the whole body there, every cut inside it leaves the scan at its first byte, or, with less, there is none or one call exceeds an int too; there is none unless the length is within the buffer's size of the greatest int |
| HttpCuts.ShortBodyOutcome | HttpServer/http_conn.cpp:196-250 | an incomplete body leaves the same connection behind however it is cut, but for the start of the line, and the outcomes are the same if and only if that is the same |
| HttpCuts.ChunksRecoverTheSame | HttpServer/http_conn.cpp:83-250 | for any chunks at all, phase, length, linger flag, url, version and host and their texts are those of one call; so is the result if no chunk but the last ends strictly inside the body |
| HttpCuts.OutOfBufferIff | HttpServer/http_conn.cpp:196-212 | for any call, also one that resumes inside a body: the NUL would be stored outside the buffer if and only if the body is complete as the parser counts and the place as far behind the start of the line as the length says is outside |
| HttpCuts.OutOfBufferInChunks | HttpServer/http_conn.cpp:196-250 | for any chunks: if and only if the length reaches in front of the buffer, or the body as counted ends with the buffer and the call before left the start of the line at the place it counts from |
| HttpCuts.SumOverflowsIff | HttpServer/http_conn.cpp:196-212 | for any call: the sum of length and checked index is no int if and only if it is so where the call counts from or behind a line end that the scan of an incomplete body takes off |
| HttpCuts.SumOverflowsInChunks | HttpServer/http_conn.cpp:196-250 | for any chunks: if and only if the bytes are judged so, which takes a length within the buffer's size of the greatest int |
| HttpRoundTrip.PrintedRequestIsRecovered | HttpServer/http_conn.cpp:128-250 | parsing a printed request, with lengths of either sign up to the greatest int and a body of any size: the exact result; path, version, last host, last length and linger flag are recovered unless the last length is negative, and up to the one NUL stored also then |
| HttpExamples.NegativeLengthLeavesBuffer | HttpServer/http_conn.cpp:185-202 | a short request with a negative length for which the NUL falls in front of the buffer |
| HttpExamples.HugeLengthExceeds | HttpServer/http_conn.cpp:185-202 | a short request with the greatest length for which the sum is no int |
| HttpExamples.CutsMoveTheStore | HttpServer/http_conn.cpp:196-212 | a body that ends before the buffer does, found in one call, and three chunks for which the NUL falls behind the buffer |
| HttpExamples.UnusualIsRead | HttpServer/http_conn.cpp:128-250 | a request with letters in any case, both kinds of blanks, an absolute target, a number with sign, zeros and something behind, and an unknown header is read |
| HttpAnswer.FeedAnswers | HttpServer/http_conn.cpp:83-250 | for any bytes and any chunks, the first answer is that of the bytes: by their lines, whether the head is complete, its first line a request line, its last length, and then by positions in the body |
| HttpAnswer.BadRequestIff | HttpServer/http_conn.cpp:128-167 | for any bytes and any chunks, the answer is BAD_REQUEST if and only if the bytes start with a complete line whose text is no request line |
| HttpRoundTrip.PrintedRequestInChunks | HttpServer/http_conn.cpp:83-250 | the same recovery however the bytes arrive, and the same result if no chunk but the last ends strictly inside the body |
| HttpConnection.Connection.Init | HttpServer/http_conn.cpp:65-81 | the connection is as new |
| HttpConnection.Connection.Read | HttpServer/http_conn.cpp:108-126 | the bytes of all calls of recv follow those already read, up to the first call that brings none; true exactly if that call says that nothing is there yet; false on a full buffer, with nothing read |
| HttpConnection.Connection.ParseLine | HttpServer/http_conn.cpp:83-106 | the in-place loop is the scanner of the model |
| HttpConnection.Connection.ParseRequestLine | HttpServer/http_conn.cpp:128-167 | the in-place steps are the request-line handler of the model |
| HttpConnection.Connection.ParseHeaders | HttpServer/http_conn.cpp:169-194 | the in-place steps are the header handler of the model |
| HttpConnection.Connection.ParseContent | HttpServer/http_conn.cpp:196-202 | the in-place steps are the body handler of the model |
| HttpConnection.Connection.ProcessRead | HttpServer/http_conn.cpp:204-250 | the loop terminates and is process_read of the model |
| Memory.LeastPadding | MemoryPool/MemoryPool.h:85-89 | for a power-of-two alignment the wrapping unsigned expression is the least padding that aligns the address |
| PoolProofs.HeaderSize | MemoryPool/MemoryPool.h:85-89 | in an aligned block header and padding take exactly one alignment unit |
| PoolProofs.BlockIsFull | MemoryPool/MemoryPool.h:77-95 | the comparison of current and last slot says that the block has yielded its number of slots |
| PoolProofs.AddBlockKeeps | MemoryPool/MemoryPool.h:77-93 | a fresh block is chained in and its first slot, which is not checked, fits |
| PoolProofs.AllocateKeeps | MemoryPool/MemoryPool.h:68-97 | allocation keeps the pool's invariant and hands out a slot that was not live |
| PoolProofs.DeallocateKeeps | MemoryPool/MemoryPool.h:108-113 | giving back a live slot keeps the invariant |
| PoolProofs.ScribbleKeeps | MemoryPool/MemoryPool.h:39-51 | whatever is written into live slots or outside the blocks, free list and block chain survive |
| PoolProofs.EveryHistory | MemoryPool/MemoryPool.h:68-113 | after any calls and client writes the free list in memory is duplicate-free and ends, live slots, free slots and headers share no byte, and live slots are aligned inside their block behind the header |
| PoolHistories.ClientsHoldWhatIsLive | MemoryPool/MemoryPool.h:68-113 | over any history, slots given back are handed out again, the last one first, and others are new; the live slots are those clients hold; as many slots are carved as clients ever held at once |
| PoolHistories.SlotsContainWhatWasPut | MemoryPool/MemoryPool.h:68-113 | over any history, a slot that stays live contains what clients put there |
| PoolProofs.UncarvedApart | MemoryPool/MemoryPool.h:77-95 | what is not carved yet shares no byte with a carved slot |
| PoolProofs.NoLiveSlotTwice | MemoryPool/MemoryPool.h:68-97 | the next slot handed out shares no byte with a live one |
| PoolProofs.BlocksArePeakRoundedUp | MemoryPool/MemoryPool.h:68-97 | as many slots are carved as were ever live at once, and the block count is that peak over the slots of a block, rounded up |
| MemoryPool.MemoryPool.Allocate | MemoryPool/MemoryPool.h:68-97 | the object's pointers and the memory change as in the model |
| MemoryPool.MemoryPool.Deallocate | MemoryPool/MemoryPool.h:108-113 | the object's pointers and the memory change as in the model; null is ignored |
| MemoryPool.MemoryPool.Destroy | MemoryPool/MemoryPool.h:57-65 | every block obtained is given back exactly once, though the content of a block is lost with it; memory outside the blocks is left alone |
| StackAlloc.BuiltIsNode | MemoryPool/StackAlloc.h:51-57 | constructing a node and assigning its members leaves a node with that data and link in the slot |
| PoolFrames.AllocateKeepsSlots | MemoryPool/MemoryPool.h:68-97 | allocation leaves the bytes of all live slots alone |
| StackAlloc.StackAlloc.Push | MemoryPool/StackAlloc.h:51-57 | the contents gain the element on top; the nodes are exactly the pool's live slots |
| StackAlloc.StackAlloc.Pop | MemoryPool/StackAlloc.h:60-67 | the top element is returned and removed; the nodes are exactly the pool's live slots |
| StackAlloc.StackAlloc.Clear | MemoryPool/StackAlloc.h:40-48 | every node goes back: no slot of the pool is live |
| ThreadPool.StepKeepsInvariant | ThreadPoolCpp/ThreadPool.h:17-58 | tasks are popped in the order accepted, each is in hand or ended as often as it was popped, workers leave only a stopped empty pool, and no wake-up is lost, after every step |
| ThreadPool.NoLostWakeUp | ThreadPoolCpp/ThreadPool.h:17-47 | no reachable state has a queued task, all workers asleep and no notification on its way |
| ThreadPool.MeasureFalls | ThreadPoolCpp/ThreadPool.h:49-58 | once stopped, every step lowers a measure, spurious wake-ups included |
| ThreadPool.TasksAreThoseEnqueued | ThreadPoolCpp/ThreadPool.h:17-47 | over any run, the tasks started or waiting are, in order, those of the run's calls of enqueue, and each started one is in hand or has ended, once; stop is set exactly if the destructor ran |
| ThreadPool.OwnRunsEnd | ThreadPoolCpp/ThreadPool.h:17-47 | between calls from outside, and without spurious wake-ups, a run is bounded |
| ThreadPool.RestIsIdle | ThreadPoolCpp/ThreadPool.h:17-47 | a running pool that has nothing left to do has all workers asleep and has run every task given to it exactly once |
| ThreadPool.ShutdownDrains | ThreadPoolCpp/ThreadPool.h:49-58 | from the destructor on a run is bounded and ends with all workers gone, the queue empty and every task given to enqueue run to its end exactly once |
| ThreadPool.AnyLoadIsServed | ThreadPoolCpp/ThreadPool.h:15-58 | for any number of workers and tasks such a run exists |
| RingBuffer.EveryInterleaving | Thread/threadSem.c:19-45 | consumed is a prefix of produced, semaphores plus operations in progress are LEN, and the threads are never at the same place |
| RingBuffer.PrintsWhatWasPut | Thread/threadSem.c:22-25 | the value printed is the value put |
| RingBuffer.NeverStuck | Thread/threadSem.c:21-43 | one of the two threads can always go on |
| RingBuffer.ConsumesWhatWasPut | Thread/threadSem.c:19-45 | the values consumed are the first of those the producer's steps offered, in order, and their number grows with the run |
| RingBuffer.EmptyPlacesAreZero | Thread/threadSem.c:38-41 | a place is 0 or holds a value that is not cleared yet |
| WorkQueue.EveryInterleaving | HttpServer/threadpool.h:62-98 | queue length is the semaphore plus posts owed plus claims; a claim finds a request; first in first out, each once; at most max_requests + 1; also when the stop flag is set between a worker's test and its wait |
| WorkQueue.PushRefusedIff | HttpServer/threadpool.h:62-72 | append refuses a request exactly if max_requests + 1 are queued, and otherwise puts it at the end |
| WorkQueue.EveryRequestServedOnce | HttpServer/threadpool.h:62-98 | over any run, what is appended is what append took; workers are given, in this order, the requests no longer queued but for null ones; each of those is served or in hand, as often as it was given |
| WorkQueue.RestHasServedAll | HttpServer/threadpool.h:81-98 | a queue at rest has all workers at the semaphore, nothing queued, and every request it took, but for null ones, served exactly once |
| WorkQueue.RestWhenStopped | HttpServer/threadpool.h:55-98 | once the stop flag is set, what is left at rest are workers gone and workers that stay at the semaphore |
| ProcessPool.Parent.Dispatch | ProcessPool/processpool.h:308-324 | the first live child from the counter on is taken, stopped or not; the pool is stopped exactly if none is alive |
| ProcessPool.Parent.FindChild | ProcessPool/processpool.h:310-318 | the search goes round at most once and passes over dead children only |
| ProcessPool.Parent.Reap | ProcessPool/processpool.h:344-353 | exactly the entries of the exited process become dead |
| ProcessPool.Parent.CheckAlive | ProcessPool/processpool.h:355-360 | stop is set exactly if no child is alive |
| ProcessPool.DispatchIsFair | ProcessPool/processpool.h:308-326 | over any stretch of connections and deaths, two children that survive it get equally many connections, up to one |
| ProcessPool.OneEachBetween | ProcessPool/processpool.h:308-326 | between two consecutive dispatches to one child every other child alive throughout gets exactly one |
| ProcessPool.ConnectPicksFirstAlive | ProcessPool/processpool.h:310-324 | the position taken in these histories is the first whose child is alive |
| ProcessPool.NothingAfterDeath | ProcessPool/processpool.h:308-353 | a death takes exactly the entries of that process, and no connection goes to them from then on |
| ChatServer.RemovesOneUser | ChatRoom/MPserver.c:333 | swap-removal takes away exactly the one user, also the last one |
| ChatServer.RemovalKeepsIndex | ChatRoom/MPserver.c:326-334 | every remaining user's process still leads to that user's entry |
| ChatServer.ForgottenUnlessLast | ChatRoom/MPserver.c:326-334 | the exited process is forgotten exactly if its user was not the last entry |
| ChatServer.Server.Accept | ChatRoom/MPserver.c:262-300 | a user is added at the end and the map leads there, unless the table is full, fork failed or the process number is beyond the map; otherwise table and map stay; the table never exceeds its limit |
| ChatServer.Server.ChildExit | ChatRoom/MPserver.c:324-335 | the table and the map become those of swap-removal |
| ChatServer.Server.AfterExits | ChatRoom/MPserver.c:336-338 | the server stops only with no users left |
| ChatServer.Server.Interrupt | ChatRoom/MPserver.c:341-358 | with no users the server stops, otherwise every user's process is signalled and termination is noted |

## Left out

- Sockets, epoll, signals, fork, shared memory: only their results, as parameters or nondeterministic steps.
- `simulate` and its averages over many days (`QueueServiceSystem/queue_system.h:138-145`): one day is modelled, and days compose because each ends with a bank ready for the next.
- 32-bit overflow of the simulation's clock and totals: integers are unbounded there.
- What the parser does after a store outside the buffer or a sum that is no int: the C++ language does not say, so the model ends there with a result.
- Draws that default constructors make and discard: only the draws that are used are in the streams.
- Running out of memory: `new` and `operator new` succeed.
- BankSystem.QueueSystem.Run: asks for a bound on the day (some arrival at or after closing), because a method must terminate; `BankTheorems.EndsIff` shows the bound is needed.
- BankTheorems.RunIsRecurrence: is about banks with at least one window; a bank without windows is covered by `BankTheorems.Accounting` and `BankTheorems.WindowsMatchAgenda`.
- The response side of the HTTP server and `do_request` (`HttpServer/http_conn.cpp:252-424`): the request is parsed up to that call.
- HttpChunks.ChunkingDoesNotMatter: excludes chunks that end strictly inside the body, where the code does depend on the cut; `HttpCuts.CutsInsideBody` gives the exact condition for any chunks.
- HttpCuts.ShortBodyOutcome: is about lengths with which no sum can exceed an int; for the few others near the greatest int the first result is characterised (`HttpCuts.CutsInsideBody`), not the fields left behind.
- `m_method`: it can only become GET.
- Locale-dependent case folding: `strcasecmp` folds the ASCII letters.
- `construct` and `destroy` of elements with side effects: an element is its bytes.
- `allocate` of more than one element: the source ignores the count.
- StackAlloc.StackAlloc.Clear: walks with the head pointer itself instead of a copy, which the destructor cannot tell apart.
- Futures and exceptions of thread-pool tasks: a task ends in one step; enqueue on a stopped pool, which throws, is a step that is not enabled.
- WorkQueue.EveryInterleaving: semaphore waits succeed; an interrupted wait that falls through is not modelled.
- The process pool's children (`ProcessPool/processpool.h:190-282`) and the chat server's children and message relay (`ChatRoom/MPserver.c:105-169`, `364-385`).
- Which shared-memory buffer a chat child uses after the parent renumbers users: exclusive buffers are not a property of that code.
- LeakDetector, ThreadPoolC, MyReactor, Thread/threadCond.c, WebServer, Boost_asio, Libevent, Concurrence: plumbing, or code whose natural invariants do not hold.
