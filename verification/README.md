# A model of the pool and timer kernels

This Dafny project models the data structures and protocol kernels of a C/C++ connection-pool repository and
proves what they keep, over every input and every run:

- the hierarchical timing wheel of `timer/timerwheel.c` (`TimerWheel`, `TimerRuns`, `TimerManager`, `LinkList`):
  exactly which timers fire, at exactly which tick, across the wrap of the 32-bit clock;
- the bounded thread pool of `mysql/multi_thread_pool/test_ThreadPool.cpp` (`ThreadPool`, `JobQueue`): a transition
  system over one mutex and three condition variables with spurious wakeups;
- the reply reader and the command formatters of `redis/multi_thread` (`Decimal`, `Resp`, `RedisReader`, `Command`,
  `Formats`, `Wire`): the task stack of the reader against a recursive-descent grammar of RESP2 (Redis serialization
  protocol specification, sections "Simple strings", "Simple errors", "Integers", "Bulk strings" and "Arrays"), the
  way a byte stream is cut into feeds, the round trips of formatted commands and of reply trees, and which texts are
  read, refused with which error, or waited for;
- the skip list and its timer loop (`SkipList`), the indexed heap (`MinHeap`), the chained hash table (`Dict`);
- the quoting of byte strings and the splitting of lines (`Quoting`, `Splitting`), the byte ring (`RingBuffer`, with
  `Bits`), and the callback queue of the asynchronous client (`AsyncRuns`, `AsyncContext`).

`Arithmetic` and `Wrappers` hold facts about products and remainders and the `Option` type.  Code that changes
objects step by step is a class or a method over arrays here, proved against a specification on values; the theorems
about whole runs are lemmas about those values.  `dafny verify dfyconfig.toml` checks all files.

Five places where the code does not do what one would expect, and what is proved instead:

- `timer_shift` never moves the lists with index 0 of the three lower levels, but `add_node` can put a timer there
  (it picks the level from the difference of two words and the slot from the digits of the expiry).  Such a timer
  never fires.  `TimerRuns.ExactFiring` gives the exact condition, which `add_timer` could check;
  `TimerRuns.LostTimer` is a concrete case.
- `zslDelete` takes out the first node with the score it is given, which is the caller's node only if no node with
  that score comes before it: `SkipLists.DeletesItself` and `SkipLists.DeletesAnother`.
- `expire_timer` takes out whatever timer is first after the handler has run.  If the handler adds a timer that
  expires no later, that one is lost and the old timer runs again: `SkipLists.HandlerInserts` and
  `SkipLists.SkipList.ExpireOne` give the exact condition.
- The error text of the reader speaks of a depth of more than 7, but eight nested arrays are read.
  `Wires.ReplyRoundTrip` gives the limit for every reply tree, `Wires.NestedLimit` for nested arrays at any depth,
  `Wires.EightAndNine` the two cases at the limit; `Wires.DocumentedDepth`: text and code differ at depth 8 only.
- The two bytes behind a bulk string are skipped unread.  `Wires.StrictAgrees` compares the reader, on every input,
  with a grammar that demands CR LF there: they differ exactly where that grammar finds two other bytes.
  `Wires.UnterminatedBulk` decides it for every reply, `Wires.FooXY` is a concrete case.

The initialiser `= 0` of the array in `timer/skiplist.c:146` is read as `= {0}`.

## Model

| member | source | states |
|---|---|---|
| TimerWheel.CascadeFrom | timer/timerwheel.c:99-121 | one tick moves at most one list |
| TimerWheel.CascadeExactly | timer/timerwheel.c:99-121 | a list of level i is moved exactly when the clock reaches a multiple of its slot length with its index as digit; index 0 of levels 0 to 2 never |
| TimerWheel.CascadeAtBoundary | timer/timerwheel.c:99-121 | within one turn of a level, a node's list is moved at the start of the slot that holds its expiry and at no other tick |
| TimerWheel.CascadeDescends | timer/timerwheel.c:88-96 | a node re-linked by a cascade lands on a strictly lower level and never on a list that is not moved again |
| TimerWheel.MoveDescends | timer/timerwheel.c:88-121 | a tick moves the list a pending node is on exactly when the node changes its list, and then to a strictly lower level |
| TimerWheel.MovedAtMost | timer/timerwheel.c:50-121 | from its addition to its deadline a node is moved at most four times, and no more often than there are levels from its first one down |
| TimerWheel.FourMoves | timer/timerwheel.c:50-121 | four moves can be needed |
| TimerWheel.LowerDigit | timer/timerwheel.c:50-66 | after a cascade the index on the lower level is the remaining distance in slots, not 0 |
| TimerWheel.WhereStarts | timer/timerwheel.c:50-66 | the list on which `add_node` puts a timer, from the wrapped words |
| TimerWheel.WhereStep | timer/timerwheel.c:99-121 | one tick takes a pending node from the list it is on to the list where it belongs next |
| TimerWheel.WhereNear | timer/timerwheel.c:136-146 | a pending node is on the list the clock points at exactly at its deadline, if it fires at all |
| TimerWheel.WhereAhead | timer/timerwheel.c:50-121 | the slot of a pending node is ahead of the clock and less than one turn of its level away |
| TimerRuns.ExactFiring | timer/timerwheel.c:50-155 | in every run a timer with delay d that is not cancelled fires once, at the d-th tick after it was added, if and only if d < 256, or its level is the topmost, or its digit there is not 0; otherwise never; until its visit within that tick it has not fired |
| TimerRuns.LinkedOnce | timer/timerwheel.c:50-121 | a pending timer is linked once, on the list its request determines, and nowhere after it fired; one that cannot fire stays on index 0 of its level |
| TimerRuns.NothingDueBetween | timer/timerwheel.c:136-146 | between updates the list the clock points at is empty, so the loop of `timer_execute` has at most one round |
| TimerRuns.WheelInvariant | timer/timerwheel.c:43-121 | what each linked node satisfies between updates, on the 32-bit words |
| TimerRuns.LostTimer | timer/timerwheel.c:99-121 | 256 ticks asked for at clock 0x3F80 never come, whatever follows |
| TimerRuns.StepKeeps | timer/timerwheel.c:43-160 | every addition, cancellation, tick, unlinking and visit keeps the invariant of the wheel |
| TimerRuns.Reachable | timer/timerwheel.c:43-160 | the invariant holds in every run |
| TimerRuns.ShiftSettles | timer/timerwheel.c:99-121 | after a tick all pending timers, and only they, are on their lists |
| TimerRuns.UnlinkSettles | timer/timerwheel.c:136-146 | taking the list the clock points at unlinks exactly the nodes that are due, each once |
| TimerRuns.VisitKeeps | timer/timerwheel.c:124-133 | visiting one node of that list runs its callback at its deadline unless it is cancelled, and keeps the invariant while other nodes wait |
| TimerRuns.DelKeeps | timer/timerwheel.c:157-160 | a node can be cancelled until it is visited, also when its list is being dispatched |
| TimerRuns.CancelledNeverRuns | timer/timerwheel.c:124-160 | a timer cancelled before its node is visited never runs, whatever follows; so a callback can still stop a node further on in its own list |
| TimerRuns.CancelledExactly | timer/timerwheel.c:157-160 | a timer counts as cancelled if and only if a cancellation named it before its visit; cancelling one timer cancels no other |
| TimerRuns.ClockAfter | timer/timerwheel.c:99-155 | the clock counts the ticks |
| TimerRuns.AddAfter | timer/timerwheel.c:68-86 | the delay asked for and the clock at the call are what the run goes by, whatever follows |
| TimerRuns.Lifetime | timer/timerwheel.c:50-160 | from the call that adds a timer to any later state: unless a cancellation names it, its callback runs exactly `delay` ticks after the call, or at once if that is not positive, if and only if it is not lost on index 0 of its level |
| TimerClass.UnitsOfWord | timer/timerwheel.c:107-119 | the mask and the shifted word of the loop; it ends by level 3 |
| TimerClass.TimerManager.constructor | timer/timerwheel.c:162-175 | an empty wheel: linked lists at all places, each with a head of its own |
| TimerClass.TimerManager.AddTimer | timer/timerwheel.c:68-86 | the addition of the specification, also for a delay that is not positive |
| TimerClass.TimerManager.DelTimer | timer/timerwheel.c:157-160 | cancels any node that is not freed yet: linked, or waiting for its visit |
| TimerClass.TimerManager.Cascade | timer/timerwheel.c:103-120 | the loop moves the list of the specification |
| TimerClass.TimerManager.TimerShift | timer/timerwheel.c:99-121 | the tick of the specification |
| TimerClass.TimerManager.VisitNode | timer/timerwheel.c:128-131 | one visit: the next pointer is read before the node can be freed, and the callback runs unless the cancel flag is set by then |
| TimerClass.TimerManager.DispatchList | timer/timerwheel.c:124-133 | along the next pointers all nodes are visited in list order, each freed after its visit and not touched again, with any additions and cancellations from node to node, also of nodes further on |
| TimerClass.TimerManager.Take | timer/timerwheel.c:137-141 | takes the nodes of the list that the clock points at, which stay linked to each other |
| TimerClass.TimerManager.TimerExecute | timer/timerwheel.c:136-146 | whatever callbacks and other threads add and cancel while the lock is free, the loop has at most one round |
| TimerClass.TimerManager.TimerUpdate | timer/timerwheel.c:148-155 | no node is left from before, a tick, the visits of the nodes due then; the state is one of a run of the wheel again |
| LinkLists.LinkList.Link | timer/timerwheel.c:43-48 | appends a node and keeps the tail pointer right, which points to the head of an empty list |
| LinkLists.LinkList.Clear | timer/timerwheel.c:32-40 | empties the list and hands out its nodes as a chain |
| LinkLists.LeadsOn | timer/timerwheel.c:91-95 | the next pointer of the first node leads along the rest of the chain, in which that node is not |
| LinkLists.LinkedWheel.Append | timer/timerwheel.c:43-48 | linking a node to one of the lists of the wheel changes that list only |
| LinkLists.ChoosePlace | timer/timerwheel.c:50-66 | the five ranges give the list of the specification |
| LinkLists.LinkedWheel.AddNode | timer/timerwheel.c:50-66 | the node is appended to that list and no other list changes |
| LinkLists.LinkedWheel.Add | timer/timerwheel.c:68-86 | making and linking a new node leaves a list that is being dispatched as it is |
| LinkLists.LinkedWheel.Take | timer/timerwheel.c:32-40 | the nodes of one list are on no list any more, but linked to each other; the other lists stay |
| LinkLists.LinkedWheel.MoveNode | timer/timerwheel.c:91-95 | the next pointer is read before `link` resets it, so the rest of the chain is still reached |
| LinkLists.LinkedWheel.MoveList | timer/timerwheel.c:88-96 | on linked lists that share no node, the loop links every node of a list anew, in order |
| ThreadPool.QueuedJobsProgress | mysql/multi_thread_pool/test_ThreadPool.cpp:139-183 | in every run, while jobs are queued no worker waits: each of them can go on |
| ThreadPool.ExactlyOnce | mysql/multi_thread_pool/test_ThreadPool.cpp:88-183 | jobs are taken in the order of acceptance; each one taken is finished or being run, once; the queue keeps its bound |
| ThreadPool.DestroyedDone | mysql/multi_thread_pool/test_ThreadPool.cpp:184-224 | when a destroy call has joined the workers, every accepted job has been run |
| ThreadPool.ClosedAcceptsNothing | mysql/multi_thread_pool/test_ThreadPool.cpp:94-103 | after `queue_close` no job is accepted |
| ThreadPool.ReturnCodes | mysql/multi_thread_pool/test_ThreadPool.cpp:88-126 | in every run `threadpool_add_job` returns 0 or -1, and -1 only if the queue is closed; the jobs of the calls that returned 0 are exactly the accepted ones; a call that has not returned still has its job |
| ThreadPool.AllOffersRun | mysql/multi_thread_pool/test_ThreadPool.cpp:88-183 | if nobody destroys the pool and no thread can go on, every call has returned 0 and the jobs that were run are all the jobs that were offered |
| ThreadPool.OneDestroys | mysql/multi_thread_pool/test_ThreadPool.cpp:184-224 | if the pool is destroyed and no thread can go on, exactly one destroy call has returned 0 and the others -1 |
| ThreadPool.WakesForCause | mysql/multi_thread_pool/test_ThreadPool.cpp:147-205 | no thread is woken without cause: a worker only if there is work or the pool is closed, a producer if there is room or the pool is closed, the destroyer if the queue is empty |
| ThreadPool.Quiescence | mysql/multi_thread_pool/test_ThreadPool.cpp:88-224 | no deadlock: when no thread can go on without a spurious wakeup, all jobs are done, all calls have returned, and the workers wait or have exited |
| ThreadPool.RunsEnd | mysql/multi_thread_pool/test_ThreadPool.cpp:88-224 | a run is no longer than its start allows, but for spurious wakeups |
| ThreadPool.WorkWakes | mysql/multi_thread_pool/test_ThreadPool.cpp:147-177 | a worker's turn loses no wakeup: waiting workers imply an empty queue, waiting producers a full one, a waiting destroyer one that is not empty |
| ThreadPool.WorkConserves | mysql/multi_thread_pool/test_ThreadPool.cpp:147-182 | a worker's turn loses and repeats no job |
| ThreadPool.WorkKeeps | mysql/multi_thread_pool/test_ThreadPool.cpp:139-183 | a worker's turn keeps the invariant |
| ThreadPool.OfferKeeps | mysql/multi_thread_pool/test_ThreadPool.cpp:88-126 | `threadpool_add_job` keeps the invariant |
| ThreadPool.DestroyKeeps | mysql/multi_thread_pool/test_ThreadPool.cpp:184-209 | `threadpool_destroy` keeps the invariant |
| ThreadPool.SpuriousKeeps | mysql/multi_thread_pool/test_ThreadPool.cpp:95-98 | a spurious wakeup keeps the invariant |
| ThreadPool.Reachable | mysql/multi_thread_pool/test_ThreadPool.cpp:32-224 | the invariant holds in every run |
| JobQueues.JobQueue.Append | mysql/multi_thread_pool/test_ThreadPool.cpp:110-123 | the job is appended; length and tail stay right; it is announced exactly when the queue was empty |
| JobQueues.JobQueue.Take | mysql/multi_thread_pool/test_ThreadPool.cpp:159-176 | the first job is unlinked; the two announcements come exactly when the queue gets empty or stops being full |
| JobQueues.JobQueue.AddJob | mysql/multi_thread_pool/test_ThreadPool.cpp:94-125 | on the fields of the pool, the locked section of `threadpool_add_job` is the producer's turn of the transition system, broadcast included |
| JobQueues.JobQueue.TakeJob | mysql/multi_thread_pool/test_ThreadPool.cpp:147-178 | the locked section of `threadpool_function` is a worker's turn, with its two notifications |
| JobQueues.JobQueue.Close | mysql/multi_thread_pool/test_ThreadPool.cpp:187-201 | the locked section of `threadpool_destroy` is the destroyer's turn, at first and after each wait |
| Decimals.PrintParse | redis/multi_thread/read.c:157-218 | printing then parsing is the identity on all 64-bit integers |
| Decimals.PrintAndParse | redis/multi_thread/read.c:157-218 | what `sdsll2str` writes for any 64-bit integer, `string2ll` reads back from the buffer as that integer |
| Decimals.ParseAndPrint | redis/multi_thread/sds.c:429-458 | any line that `string2ll` accepts is what `sdsll2str` writes for the number it found |
| Decimals.DecimalInjective | redis/multi_thread/sds.c:429-458 | different numbers have different texts |
| Decimals.DigitsMean | redis/multi_thread/sds.c:429-458 | the digits denote the number by their places and have no leading zero |
| Decimals.DigitsPrefix | redis/multi_thread/read.c:192-202 | a number is at least what a prefix of its digits denotes, which justifies giving up at an overflow |
| Decimals.NotDecimal | redis/multi_thread/read.c:163-190 | the lines the first tests turn away are decimal texts of no number |
| Decimals.TooLarge | redis/multi_thread/read.c:192-214 | the lines the overflow tests turn away are out of range |
| Decimals.ScanDigits | redis/multi_thread/read.c:181-202 | the digits read are those of the number computed, or the line is out of range |
| Decimals.String2ll | redis/multi_thread/read.c:157-218 | accepts exactly the canonical decimals of the 64-bit integers: the text of the result is the line, and a line that is turned away is the text of no 64-bit integer |
| Decimals.DigitsLength | redis/multi_thread/sds.c:422-428 | a number below 10^k has at most k digits, and only such a number |
| Decimals.ReversedAt | redis/multi_thread/sds.c:448-456 | what reversal means, position by position |
| Decimals.PutDigits | redis/multi_thread/sds.c:436-441 | at most 19 digits, in reverse |
| Decimals.ReversePrefix | redis/multi_thread/sds.c:448-456 | reverses the text in place and touches nothing else |
| Decimals.Sdsll2str | redis/multi_thread/sds.c:429-458 | writes the decimal text of any 64-bit integer and its terminator into 21 bytes |
| Decimals.CountDigits | redis/multi_thread/hiredis.c:191-201 | the number of decimal digits |
| Resp.LineEnd | redis/multi_thread/read.c:119-143 | the first CR LF, or that there is none |
| Resp.StepResumes | redis/multi_thread/read.c:441-488 | one item step of the stack machine keeps the parse that the state stands for |
| Resp.RunParses | redis/multi_thread/read.c:235-488 | the loop over the nine-slot stack gives the reply tree, the consumed length, the error or the wait of the recursive-descent parser with the depth limit |
| Resp.Step | redis/multi_thread/read.c:441-488 | a step that succeeds strictly shrinks the unread bytes and leaves at most eight arrays open |
| Resp.CompleteAround | redis/multi_thread/read.c:235-258 | completing arrays from the inside out is what the parser does from the outside in |
| Resp.HeadExtends | redis/multi_thread/read.c:260-439 | an item that is decided is not changed by bytes that arrive later |
| Resp.StepExtends | redis/multi_thread/read.c:441-488 | nor is a step; one that waits has left a state from which to go on |
| Resp.RunExtends | redis/multi_thread/read.c:550-598 | nor is a reply |
| Resp.DrainYields | redis/multi_thread/read.c:550-598 | draining hands out the replies of what is unread and leaves the rest |
| Resp.ChunksYield | redis/multi_thread/read.c:518-598 | the same over any feeds |
| Resp.ChunkIndependence | redis/multi_thread/read.c:518-598 | for every byte stream and every way of cutting it into feeds the replies, and the error or wait at the end, are those of the parser on the whole stream |
| ReplyObjects.TreeFrame | redis/multi_thread/hiredis.c:100-187 | a complete reply object does not depend on objects outside of it |
| ReplyObjects.CreatedLinks | redis/multi_thread/hiredis.c:132-155 | creating an object keeps the partly filled arrays |
| ReplyObjects.CreatedFills | redis/multi_thread/hiredis.c:100-187 | the new object is linked into its parent at the task's index |
| ReplyObjects.PopFills | redis/multi_thread/read.c:244-248 | an array whose last element is there is complete and is in its own parent |
| ReplyObjects.AdvanceLinks | redis/multi_thread/read.c:249-256 | otherwise the next element is due |
| ReplyObjects.PopAll | redis/multi_thread/read.c:235-258 | all arrays that are complete are left |
| ReplyObjects.OpenLinks | redis/multi_thread/read.c:417-427 | an array with elements becomes the innermost one |
| ReaderClass.SeekNewline | redis/multi_thread/read.c:119-143 | finds the first CR LF |
| ReaderClass.ProcessLineItem | redis/multi_thread/read.c:260-299 | the item is what the grammar says of its line |
| ReaderClass.ProcessBulkItem | redis/multi_thread/read.c:301-363 | the same for bulk strings and nil, with the two bytes behind skipped |
| ReaderClass.ProcessMultiBulkItem | redis/multi_thread/read.c:365-439 | the same for arrays, with the limits on depth and length |
| ReaderClass.RedisReader.Feed | redis/multi_thread/read.c:518-548 | appends to the unread bytes unless there is an error |
| ReaderClass.RedisReader.SetError | redis/multi_thread/read.c:47-69 | drops buffer and stack and keeps the error |
| ReaderClass.RedisReader.CreateObject | redis/multi_thread/hiredis.c:100-187 | one new object, attached to the parent's slot |
| ReaderClass.RedisReader.MoveToNextTask | redis/multi_thread/read.c:235-258 | completes arrays as the machine does |
| ReaderClass.RedisReader.OpenArray | redis/multi_thread/read.c:417-427 | pushes a task; the stack pointer stays below nine |
| ReaderClass.RedisReader.ProcessItem | redis/multi_thread/read.c:441-488 | one step of the machine |
| ReaderClass.RedisReader.Loop | redis/multi_thread/read.c:574-577 | the machine's run |
| ReaderClass.RedisReader.GetReply | redis/multi_thread/read.c:550-598 | the reply of the specification as a tree of objects, also when the buffer is compacted; nothing that was handed out before is written |
| ReplyObjects.RootsKept | redis/multi_thread/hiredis.c:100-187 | replies that were handed out do not depend on objects made later |
| ReaderClass.RedisReader.DrainAll | redis/multi_thread/read.c:550-598 | calling until there is no reply gives the replies of the specification, and leaves those got before as they are |
| ReaderClass.ReadStream | redis/multi_thread/read.c:518-598 | a new reader that is fed a byte stream in any chunks and drained after each one has, at the end, exactly the reply trees of the whole stream, and its error or wait |
| Wires.StrictAgrees | redis/multi_thread/read.c:301-363 | for every input, the reader's grammar and the one that demands CR LF behind a bulk string agree if and only if the strict one finds no other bytes there |
| Wires.UnterminatedBulk | redis/multi_thread/read.c:333-341 | every written reply is read whatever two bytes stand behind its bulk strings; the strict grammar takes it if and only if all of them are CR LF |
| Wires.FooXY | redis/multi_thread/read.c:333-341 | `$3`, CR LF, `fooXY` is such an input |
| Wires.WireReads | redis/multi_thread/read.c:260-439 | a reply in any spelling, in any surroundings, is read back if the depth there allows it |
| Wires.ReplyRoundTrip | redis/multi_thread/read.c:235-488 | every reply tree in every spelling, written out and followed by any bytes, is read back as that tree and no further, if and only if at most eight arrays are nested; else the depth error |
| Wires.TwoNils | redis/multi_thread/read.c:324-398 | the bulk string and the array of length -1 are both read as nil |
| Wires.FaultFails | redis/multi_thread/read.c:260-439 | an unknown type byte, a line that is no number or one out of range, and an array too many give their errors, also in arrays behind elements in order |
| Wires.ItemOrigin | redis/multi_thread/read.c:260-488 | what is read starts with a written reply, and what is refused with a fault |
| Wires.ReadExactly | redis/multi_thread/read.c:235-488 | a text is read as v with `rest` unread if and only if it is a written form of v, at most eight arrays deep, followed by `rest` |
| Wires.FailsExactly | redis/multi_thread/read.c:235-488 | a text is refused with an error if and only if it starts with a fault that has that error |
| Wires.WaitsExactly | redis/multi_thread/read.c:550-598 | more bytes are waited for if and only if the text starts with neither |
| Wires.Limits | redis/multi_thread/read.c:260-393 | the bounds in figures: 64-bit integers, and 2^31 - 1 elements |
| Wires.StrictReads | redis/multi_thread/read.c:301-363 | the strict grammar reads a written reply if each bulk string ends in CR LF, and else stops at the one that does not |
| Wires.DocumentedDepth | redis/multi_thread/read.c:372-377 | the error text is right about every reply tree but those of depth 8 |
| Wires.NestedLimit | redis/multi_thread/read.c:372-377 | k + 1 nested arrays below d open ones are read if d + k < 8, else turned away |
| Wires.EightAndNine | redis/multi_thread/read.c:372-377 | eight nested arrays are read, nine are not |
| Commands.BulkParses | redis/multi_thread/read.c:301-363 | a bulk string on the wire is read as its bytes |
| Commands.EncodeParses | redis/multi_thread/hiredis.c:541-557 | a formatted command is read as the array of its arguments |
| Wires.CommandIsWire | redis/multi_thread/hiredis.c:541-557 | a formatted command is a written array of bulk strings, each with its line end |
| Commands.RoundTrip | redis/multi_thread/hiredis.c:524-560 | formatted commands, one after the other, are read as exactly those commands in order, for all binary arguments |
| Commands.ReaderRoundTrip | redis/multi_thread/hiredis.c:524-560 | and so they are by the reader, however the bytes are cut |
| Commands.BulkLen | redis/multi_thread/hiredis.c:204-206 | the length of a bulk string on the wire |
| Commands.PutBulk | redis/multi_thread/hiredis.c:548-553 | writes one bulk string at the cursor |
| Commands.Build | redis/multi_thread/hiredis.c:397-415 | writes exactly the precomputed length, so the assertion on the cursor holds |
| Commands.FormatCommandArgv | redis/multi_thread/hiredis.c:524-560 | the encoding of the arguments, in a buffer of exactly its length and a terminator |
| Commands.RemainingSpace | redis/multi_thread/hiredis.c:231-243 | a space ends an argument, if there is one |
| Commands.RemainingChar | redis/multi_thread/hiredis.c:244-249 | a character that is no conversion goes on with the current argument |
| Commands.RemainingPercent | redis/multi_thread/hiredis.c:270-272 | so does `%%`, as one percent sign |
| Commands.RemainingArgument | redis/multi_thread/hiredis.c:258-269 | a conversion takes the next value, and its spaces split nothing |
| Commands.ReadText | redis/multi_thread/hiredis.c:244-272 | one character or conversion of the current argument |
| Commands.VFormatCommand | redis/multi_thread/hiredis.c:208-436 | the same bytes as `redisFormatCommandArgv` on the words of the format, each with its conversions replaced; spaces in values split nothing |
| Formats.FormatMeans | redis/multi_thread/hiredis.c:208-436 | a format put together from words of letters, doubled percent signs and conversions stands for the words with the values in place, whatever is in the values, and takes as many values as it has conversions |
| Formats.FormatWords | redis/multi_thread/hiredis.c:231-243 | the words of a format are those between its spaces, however many |
| SkipLists.LevelBelow | timer/skiplist.h:12-29 | the nodes of a level are a part of those of the level below, in their order |
| SkipLists.FirstAfterInsert | timer/skiplist.c:99-102 | how the next node on a level changes when a node goes in behind |
| SkipLists.RowsAfterInsert | timer/skiplist.c:98-102 | splicing behind the nodes in `update` gives, on every level, the chain of the nodes on that level |
| SkipLists.RowsAfterRemove | timer/skiplist.c:130-137 | the same for unlinking |
| SkipLists.InsertKeeps | timer/skiplist.c:65-106 | insertion keeps the whole invariant: every level is the sorted subsequence of the nodes tall enough, no level from `level` on has a node |
| SkipLists.RemoveKeeps | timer/skiplist.c:130-141 | removal keeps it |
| SkipLists.LeadsTo | timer/skiplist.c:132-137 | the pointer test finds exactly the levels the node is on |
| SkipLists.DeletesItself | timer/skiplist.c:144-171 | deleting by a node's score takes out that node if and only if no earlier node has its score |
| SkipLists.DeletesAnother | timer/skiplist.c:144-171 | two timers with one score: deleting the second takes out the first |
| SkipLists.LatestFirst | timer/skiplist.c:65-106 | after any insertions, of timers with one expiry the latest comes first |
| SkipLists.InsertAllSorted | timer/skiplist.c:65-106 | after any insertions the timers are in order of expiry |
| SkipLists.Splice | timer/skiplist.c:98-102 | the loop that relinks on each level |
| SkipLists.Unsplice | timer/skiplist.c:130-137 | the loop that unlinks on each level |
| SkipLists.SkipList.constructor | timer/skiplist.c:18-30 | an empty list |
| SkipLists.SkipList.Walk | timer/skiplist.c:73-77 | the last node of one level that scores less, from any node before it |
| SkipLists.SkipList.Search | timer/skiplist.c:71-79 | on each of the 32 levels the last node that scores less, or the header |
| SkipLists.SkipList.Insert | timer/skiplist.c:65-106 | inserts before the first node that does not score less, for any height |
| SkipLists.SkipList.Min | timer/skiplist.c:108-112 | the first node or null |
| SkipLists.SkipList.Trim | timer/skiplist.c:138-139 | `level` is the number of levels in use |
| SkipLists.SkipList.DeleteHead | timer/skiplist.c:114-127 | takes out the first node on all its levels |
| SkipLists.SkipList.DeleteNode | timer/skiplist.c:130-141 | takes out the given node on all its levels |
| SkipLists.SkipList.Delete | timer/skiplist.c:144-171 | takes out exactly the first node with the given score, if there is one |
| SkipLists.SkipList.ExpireTimer | timer/skl-timer.c:47-58 | fires the nodes with a score up to now, in order, and leaves exactly the others |
| SkipLists.GrownBack | timer/skiplist.c:65-106 | insertions put exactly the new timers that expire no later before a timer |
| SkipLists.HandlerInserts | timer/skl-timer.c:47-58 | after the handler of the first timer has added timers, that timer is still the first if and only if each of them expires later; else a new timer is first, and the old one is behind new ones |
| SkipLists.SkipList.ExpireOne | timer/skl-timer.c:49-57 | one round with a handler that adds timers: the list loses its first timer by then, which is the one that was run if and only if every timer added expires later |
| MinHeaps.SinkOne | timer/minheap.cc:111-120 | exchanging with the smaller child moves the one place where the order may fail down |
| MinHeaps.RiseOne | timer/minheap.cc:130-136 | exchanging with the parent moves it up |
| MinHeaps.SmallestChild | timer/minheap.cc:98-109 | the child that is chosen is the smaller one |
| MinHeaps.RootFirst | timer/minheap.cc:75-92 | the root expires first |
| MinHeaps.Replaced | timer/minheap.cc:60-63 | putting the last node into a gap breaks the order only there |
| MinHeaps.MinHeapTimer.Exchange | timer/minheap.cc:117-119 | swaps two nodes and their indices |
| MinHeaps.MinHeapTimer.ShiftDown | timer/minheap.cc:94-123 | orders the heap below, over all nodes but the last; false if nothing moved |
| MinHeaps.MinHeapTimer.ShiftUp | timer/minheap.cc:126-138 | orders the heap above |
| MinHeaps.MinHeapTimer.DelNode | timer/minheap.cc:56-73 | takes out exactly that timer; order, indices and the id map stay right |
| MinHeaps.MinHeapTimer.AddTimer | timer/minheap.cc:33-45 | adds exactly one timer under a new id |
| MinHeaps.MinHeapTimer.DelTimer | timer/minheap.cc:47-54 | removes exactly the timer with that id and tells whether there was one |
| MinHeaps.MinHeapTimer.ExpireTimer | timer/minheap.cc:75-92 | fires exactly the timers that are due, each once, in nondecreasing order, and keeps the others |
| Bits.MaskIsRemainder | redis/multi_thread/dict.c:118-118 | masking with 2^k - 1 is the remainder by 2^k |
| Dictionaries.HomeIsRemainder | redis/multi_thread/dict.c:327-328 | the bucket of a key is its hash modulo the size |
| Dictionaries.NextPower | redis/multi_thread/dict.c:306-315 | doubles from 4 on until the size is reached, with the cap |
| Dictionaries.NextPowerIsPower | redis/multi_thread/dict.c:306-315 | the result is a power of two |
| Dictionaries.NextPowerLeast | redis/multi_thread/dict.c:306-315 | and the least one that is large enough |
| Dictionaries.NextPowerOf | redis/multi_thread/dict.c:300-301 | so doubling a power of two gives exactly that size |
| Dictionaries.GrowthIsLeast | redis/multi_thread/dict.c:295-315 | a table to which n entries are added one by one has the least power of two from 4 on that holds them |
| Dictionaries.Popped | redis/multi_thread/dict.c:112-123 | taking the head entry off a bucket leaves a table of the other entries |
| Dictionaries.Pushed | redis/multi_thread/dict.c:118-120 | putting an entry at the head of its bucket gives a table with it |
| Dictionaries.Unlinked | redis/multi_thread/dict.c:194-198 | leading past an entry gives a table of the others |
| Dictionaries.TotalUpdate | redis/multi_thread/dict.c:121-121 | how the total chain length changes |
| Dictionaries.AllMoved | redis/multi_thread/dict.c:106-126 | when nothing is left to move, the new table has all entries and the count is 0 |
| Dictionaries.MoveEntry | redis/multi_thread/dict.c:116-120 | relinks one entry |
| Dictionaries.Rehash | redis/multi_thread/dict.c:102-126 | moves all entries; the count ends at 0, so the assertion holds |
| Dictionaries.Search | redis/multi_thread/dict.c:249-255 | the first entry of a chain with the key, or null if none has it |
| Dictionaries.SearchWithPrevious | redis/multi_thread/dict.c:189-208 | the same, with the entry before it |
| Dictionaries.Dict.Expand | redis/multi_thread/dict.c:88-132 | the entries are the same afterwards, in a new table of the next power of two; refused exactly if there are more entries than the size asked for |
| Dictionaries.Dict.ExpandIfNeeded | redis/multi_thread/dict.c:295-303 | leaves room for one more entry: an empty table gets 4 slots, a full one is doubled, any other is left alone |
| Dictionaries.Dict.KeyIndex | redis/multi_thread/dict.c:320-337 | the bucket of the key, or -1 exactly if the key is there |
| Dictionaries.Dict.Find | redis/multi_thread/dict.c:243-256 | the entry of the key, or null exactly if there is none |
| Dictionaries.Dict.Add | redis/multi_thread/dict.c:135-154 | adds to the finite map, or leaves it alone exactly if the key is there |
| Dictionaries.Dict.Replace | redis/multi_thread/dict.c:160-179 | updates the finite map; tells whether the key is new |
| Dictionaries.Dict.Delete | redis/multi_thread/dict.c:182-210 | takes the key out of the finite map; tells whether it was there; only its bucket loses an entry, and only the entry before it is relinked |
| Dictionaries.FlattenExactly | redis/multi_thread/dict.c:268-286 | bucket by bucket, every entry comes exactly once |
| Dictionaries.DictIterator.Next | redis/multi_thread/dict.c:268-286 | the next entry of that sequence, then null; the entry handed out is the one before what is left of its bucket |
| Dictionaries.BehindEntry | redis/multi_thread/dict.c:194-198 | the entries behind a deleted one are not the one that is relinked |
| Dictionaries.StillToCome | redis/multi_thread/dict.c:278-282 | deleting an entry changes nothing of what comes behind it in the bucket order |
| Dictionaries.DictIterator.DeleteCurrent | redis/multi_thread/dict.c:278-282 | the user may delete the entry handed out last: the iterator goes on with the same entries |
| Quoting.ScanEscape | redis/multi_thread/sds.c:950-975 | one escaped byte is read back as that byte |
| Quoting.ScanEscaped | redis/multi_thread/sds.c:949-987 | so is an escaped string, up to its closing quote |
| Quoting.RoundTrip | redis/multi_thread/sds.c:856-1030 | for all lists of byte strings, splitting their quoted forms with blanks between, before and behind gives back the list |
| Quoting.EscapedSnoc | redis/multi_thread/sds.c:858-878 | escaping goes byte by byte |
| Quoting.QuotedByte | redis/multi_thread/sds.c:862-875 | the quoted form of every byte, spelled out: the seven short forms, a printable byte as itself, and backslash, x and two lower-case digits whose value is the byte |
| Quoting.ReprAppend | redis/multi_thread/sds.c:856-879 | within the quotes, the form of s + t is that of s followed by that of t |
| Quoting.ReprPlain | redis/multi_thread/sds.c:856-879 | a string is quoted by its quotes alone exactly if each byte is from space to tilde and no quote or backslash |
| Quoting.CatRepr | redis/multi_thread/sds.c:856-879 | appends the quoted form |
| Quoting.InQuotes | redis/multi_thread/sds.c:949-987 | one turn of the loop inside double quotes |
| Quoting.InSingleQuotes | redis/multi_thread/sds.c:988-1001 | one turn inside single quotes |
| Quoting.OutOfQuotes | redis/multi_thread/sds.c:1002-1017 | one turn outside of quotes |
| Quoting.ReadToken | redis/multi_thread/sds.c:942-1019 | the flags and the cursor compute the token of the grammar, or its error |
| Quoting.SplitArgs | redis/multi_thread/sds.c:931-1039 | all tokens of the line, or the error |
| Splitting.Classes | redis/multi_thread/sds.c:881-915 | blanks and hexadecimal digits, spelled out, with the values of the digits |
| Splitting.ScanBody | redis/multi_thread/sds.c:949-1001 | the inside of a quoted string, spelled with escapes in any way, is read as the bytes spelled |
| Splitting.WordScanned | redis/multi_thread/sds.c:942-1019 | a word, a plain part with a quoted one behind it or not, is read as the texts of its parts joined |
| Splitting.FormSplits | redis/multi_thread/sds.c:931-1039 | a line of words with blanks between them is split into their values; a quote that is not closed, or that something sticks to, gives the error |
| Splitting.LexLine | redis/multi_thread/sds.c:931-1039 | every line is of one of these two forms |
| Splitting.SplitExactly | redis/multi_thread/sds.c:931-1039 | a line is split into the arguments `args` if and only if it is in order and they are the values of its words |
| Splitting.RefusedExactly | redis/multi_thread/sds.c:931-1039 | a line gives the error if and only if, behind words in order, a quote is not closed before the end or is closed before a byte that is no blank |
| Splitting.PlainSplit | redis/multi_thread/sds.c:1002-1017 | words free of blanks, quotes and NUL, with spaces between, are split into exactly those words |
| RingBuffers.MaskSlot | ringbuffer/ringbuffer.c:56-62 | the masked 32-bit position is the slot of the unwrapped one |
| RingBuffers.RoomToEnd | ringbuffer/ringbuffer.c:59-59 | with the precedence of C the room is 0 at the start of the buffer and else the bytes up to its end |
| RingBuffers.BlockSlot | ringbuffer/ringbuffer.c:59-63 | the two copies put every byte into its slot, also where the room is 0 |
| RingBuffers.StillBeside | ringbuffer/ringbuffer.c:53-63 | what is still to be read is not overwritten |
| RingBuffers.Distance | ringbuffer/ringbuffer.c:41-44 | the difference of the wrapped positions is the length |
| RingBuffers.CopyIn | ringbuffer/ringbuffer.c:59-63 | the bytes are in their slots and no other slot changes |
| RingBuffers.CopyOut | ringbuffer/ringbuffer.c:78-83 | the bytes of the slots, in order |
| RingBuffers.RingBuffer.constructor | ringbuffer/ringbuffer.c:20-26 | an empty ring with both positions at UINT32_MAX - 2 |
| RingBuffers.RingBuffer.Length | ringbuffer/ringbuffer.c:41-44 | the number of bytes written and not read, at most the size |
| RingBuffers.RingBuffer.Remain | ringbuffer/ringbuffer.c:46-49 | the room left |
| RingBuffers.RingBuffer.IsEmpty | ringbuffer/ringbuffer.c:3-6 | true exactly if all was read |
| RingBuffers.RingBuffer.IsFull | ringbuffer/ringbuffer.c:8-17 | true exactly if there is no room |
| RingBuffers.RingBuffer.Write | ringbuffer/ringbuffer.c:51-67 | all bytes are appended to the history, or none and the result is 0xFFFFFFFF |
| RingBuffers.RingBuffer.Read | ringbuffer/ringbuffer.c:69-89 | the next bytes of the history, as many as asked for and there are; what was read is always a prefix of what was written |
| AsyncRuns.ExactlyOnce | redis/multi_thread/async.c:265-503 | in every run, whatever the callbacks do, the callback of each accepted command has run exactly once when the context is gone, in issue order, first with the replies in order, then with NULL |
| AsyncRuns.OwnReplies | redis/multi_thread/async.c:425-498 | until then each callback that ran got its own reply and none is lost |
| AsyncRuns.NoNulls | redis/multi_thread/async.c:352-503 | if nothing asks for `redisAsyncFree`, no connection breaks and no error comes while nothing waits, then no callback gets NULL, with any number of disconnects: each one that ran got the reply of its own place in the stream |
| AsyncRuns.GoneWhenDone | redis/multi_thread/async.c:442-503 | once a disconnect was asked for, by the program or a callback, the context is gone after the last reply, if all commands are sent |
| AsyncRuns.DisconnectCall | redis/multi_thread/async.c:358-363 | a disconnect ends the context at once exactly if no command waits, else it leaves all waiting |
| AsyncRuns.GoneWhenAsked | redis/multi_thread/async.c:352-503 | in such a run the context goes only if a disconnect was asked for, and when every accepted command has had its reply |
| AsyncRuns.StaysUnflushed | redis/multi_thread/async.c:442-448 | in such a run, replies that come before all commands are sent do not end the context |
| AsyncRuns.ErrorEnds | redis/multi_thread/async.c:467-478 | an error that comes while no command waits ends the context |
| AsyncRuns.EndsAtOnce | redis/multi_thread/async.c:323-503 | a broken connection, and a call of `redisAsyncFree`, end the context whatever waits |
| AsyncRuns.FreeEnds | redis/multi_thread/async.c:484-498 | a callback that calls `redisAsyncFree` is the last one with a context |
| AsyncRuns.AllAccepted | redis/multi_thread/async.c:597-675 | while the context is open every command is accepted, whether the program or a callback issues it |
| AsyncRuns.NoAssertionFails | redis/multi_thread/async.c:331-350 | a clean disconnect finds no callback left; with no more replies than commands there is no stray reply |
| AsyncRuns.ProcessStray | redis/multi_thread/async.c:453-481 | handing out replies meets a stray one if and only if, for some k, the context after k replies has no command that waits and the next reply is no error |
| AsyncRuns.StrayExactly | redis/multi_thread/async.c:425-503 | so it is for whole runs: the assertion on stray replies fails if and only if such a reply comes in some call |
| AsyncRuns.NothingAccepted | redis/multi_thread/async.c:610-611 | once the context closes no command is accepted, not even from a callback |
| AsyncRuns.TeardownRunsAll | redis/multi_thread/async.c:275-283 | a teardown ends and runs every callback that waits, once, with NULL |
| AsyncRuns.ProcessKeeps | redis/multi_thread/async.c:425-503 | handing out replies keeps the invariant |
| AsyncRuns.StepKeeps | redis/multi_thread/async.c:323-503 | every call keeps the invariant |
| AsyncRuns.RunKeeps | redis/multi_thread/async.c:275-503 | the invariant holds in every run |
| AsyncClass.CallbackList.Push | redis/multi_thread/async.c:227-247 | appends to the linked queue |
| AsyncClass.CallbackList.Shift | redis/multi_thread/async.c:249-263 | takes the head off, or fails exactly if the queue is empty |
| AsyncClass.AsyncContext.AsyncCommand | redis/multi_thread/async.c:597-675 | accepts a command unless the context is closing |
| AsyncClass.AsyncContext.RunCallback | redis/multi_thread/async.c:265-272 | runs what the callback does with the flag set, so that nothing is torn down below it |
| AsyncClass.AsyncContext.Teardown | redis/multi_thread/async.c:275-317 | the teardown of the specification |
| AsyncClass.AsyncContext.AsyncFree | redis/multi_thread/async.c:323-328 | at once, or only a flag in a callback |
| AsyncClass.AsyncContext.DisconnectNow | redis/multi_thread/async.c:331-350 | the assertion holds and the context is torn down |
| AsyncClass.AsyncContext.AsyncDisconnect | redis/multi_thread/async.c:358-363 | at once if no callback waits, else only a flag |
| AsyncClass.AsyncContext.ProcessCallbacks | redis/multi_thread/async.c:425-503 | the loop over the replies of the specification |

## Left out

- Sockets, connecting, polling, timeouts, event-loop hooks and the `main` functions.
- `CacheConn`, `CDBConn`, prepared statements and result sets, `CDBPool` and `CachePool`: thin wrappers, or simpler than the thread pool.
- `memory_pool`, and freeing in general: memory is not given back in the model, and `malloc` does not fail.
- Timing wheel: one thread updates; `del_timer` does not race with the dispatch of the same node; the field `cancel`, which `add_timer` leaves uninitialised, starts as 0; the cancel flags are a set of addresses beside the nodes; a callback that cancels its own node, which has no effect, is not an event of the runs; a callback that `add_timer` runs at once, under the lock, calls nothing.
- TimerRuns.ExactFiring: says nothing of the order of callbacks within one tick, because nodes that were cascaded come behind nodes that were linked directly.
- Thread pool: jobs end and do not call the pool; producers do not race with the release of the memory after the join; printing and the tick count.
- Reader: streams stay below 2^31 bytes, the comparison with SIZE_MAX is for 64-bit sizes, and a bulk length of LLONG_MAX is added to without wrap-around.
- Decimals.Sdsll2str: takes the magnitude of LLONG_MIN as 2^63, which the negation of the code only gives by wrap-around.
- Commands.VFormatCommand: only the conversions `%s`, `%b` and `%%`; the printf conversions, the error codes and a total length above INT_MAX are not modelled.
- Skip list and heap timers: the clock and its sums do not wrap, callbacks of the heap do not call the timer functions, handlers of the skip list add timers but delete none, and the random level of a node is a parameter.
- SkipLists.SkipList.ExpireTimer: the whole loop for handlers that add no timers, because with others it need not end; `ExpireOne` is a round of it.
- SkipLists.SkipList.Delete: reads only the score of the node it is given, which must still be allocated.
- Dictionaries.Dict.Expand: sizes from LONG_MAX on, for which no memory can be had, are excluded; indices of tables of more than 2^31 slots, which do not fit an int, are not modelled.
- Dictionaries.DictIterator.Next: while it is iterated over, the table changes only by the deletion of the entry handed out last.
- Dictionaries: keys are byte strings and equal only to themselves; any hash function; values are opaque words, and neither duplicated nor destroyed.
- Quoting: `isprint` and `isspace` are those of the C locale.
- Ring buffer: sizes that are no power of two, and `roundup_power_of_two`, whose loop does not end.
- Asynchronous client: pub/sub and monitor mode, custom reply functions, commands without a callback, and `onConnect` and `onDisconnect`, which must not call the client.
