# Verified core of libuv and its SOCKS5 proxy

This project models the algorithms at the heart of libuv that involve no system call, together with the SOCKS5
sample that is built on it, and proves what each of them is for. `dafny verify dfyconfig.toml` checks everything.

**Containers.** The red-black tree, the top-down splay tree, the binary heap and the circular lists are mutated
in place through their links, in the order of the C code. Each class carries a ghost picture of the structure that
its links form: a tree for the search trees, the sequence of slots in level order for the heap, a sequence of
elements for a ring. `Valid()` ties the links to the picture and states the shape (search order, colours and black
counts, completeness and heap order). A loop in the middle of a tree is described by a tree with a hole in it, a
context, plus the tree that fills the hole; the splay by the two spines it sets aside and the rest. Lemmas about
trees, contexts and slots work on snapshots of the links and never mention the heap of objects.

**Timers.** `TimerLoop.Loop` is the loop as timer.c sees it. Deadlines saturate as in the 64-bit code, and every timer
is active exactly when its node is in the heap. A pass over the due timers runs callbacks that start, stop and restart
timers as a script says; `TimerRun` holds the same calls on values, where runs are compared with what was programmed
when they began.

**Thread pool and async wake-ups.** Both are step systems over values: one step per lock section, compare-and-swap,
read or write, any number of threads, items and loops, every interleaving. The lock order of the pool is a second
system in which every lock and unlock is a step of its own. Memory is sequentially consistent, a condition signal
wakes some waiter if there is one, and waiters may wake without a signal. Progress is measured: every useful step lowers
a natural number, so the pool can always come to rest, and a pending wake-up can always be delivered, within a number
of steps that is known beforehand.

**Addresses.** The printer and the parser of inet.c are loops over buffers, proved against functions on strings.
The grammar of section 2.2 of RFC 4291 is a datatype of text forms with their text and the address they mean, and
the parser is shown to accept exactly these texts.

**SOCKS5.** The byte parser fills its context in place and is tied to a function of one byte; runs of that function
are shown not to depend on how the stream is cut and to invert the encodings of RFC 1928 and RFC 1929. The proxy
phase of a session is a class with a method for every callback.

**fs-poll.** Handles, poll contexts and their timers are objects; every callback is a method that may be called when
its event is due, with anything the user may do inside the poll callback as an argument.

C strings are the characters before the NUL. Keys of the search trees are integers that stand for ranks in the total
order that `cmp` defines. `heap-inl.h` is taken with `timer_less_than`, its only comparison in the library.

What the proofs bring to light about the code:

- `heap_remove` ends with a test that clears `heap->min` when the removed node was the root and last; the unlinking
  before it has cleared it already (heap-inl.h:183-193).
- The clause for a zero run of length 7 in the IPv4 test of `inet_ntop6` can never decide anything (inet.c:130-132),
  and the length limit in the zone cut of `uv_inet_pton` never refuses a text that would parse (inet.c:168-174).
- A second `uv_cancel` on an item that has been cancelled but not yet reported also answers 0; the item is still
  reported once.
- The SOCKS5 parser is one byte off after an empty method list, user name, password or host name. `GreetingExact`,
  `LoginExact` and `RequestExact` say that non-empty ones are the exact condition for reading back what was encoded.
- A handle that is closed and opened again during `uv_walk` is not called back, even if the walk had still to come to it
  (uv-common.c:372-388).
- `SPLAY_REMOVE` returns the element it was given, which need not be the node it removed (tree.h:188-207).
- The second error exit of `do_proxy` is never taken (client.c:508-518).

## Model

| member | source | states |
|---|---|---|
| RBTree.Head.RotateLeft | libuv/include/uv/tree.h:342-360 | a left rotation in place turns the tree at elm into the rotated one, anywhere in a tree, with all links (parents too) consistent |
| RBTree.Head.RotateRight | libuv/include/uv/tree.h:362-380 | the mirror image |
| RBTree.Head.InsertColor | libuv/include/uv/tree.h:407-449 | from any tree whose only fault is a red node below a red one, or a red root, the loop ends in a red-black tree with the same sequence of nodes |
| RBTree.Head.Insert | libuv/include/uv/tree.h:598-626 | returns an equal node and changes nothing, or, exactly when there is none, adds exactly elm and keeps search order, links, colours and black counts |
| RBTree.Head.RemoveColor | libuv/include/uv/tree.h:451-528 | from any tree that is one black node short at one place, the loop ends in a red-black tree with the same sequence of nodes |
| RBTree.Head.Remove | libuv/include/uv/tree.h:530-595 | removes exactly the given node, in the direct and the spliced-successor case, and keeps all red-black rules |
| RBHeight.EqualBlacks | libuv/include/uv/tree.h:53-61 | every path from the root to a leaf of a red-black tree has the same number of black nodes |
| RBHeight.HeightBound | libuv/include/uv/tree.h:53-61 | 2^height is at most (n+1)^2, that is, the height is at most 2 lg(n+1) |
| RBHeight.HeadHeight | libuv/include/uv/tree.h:53-61 | both bounds for the tree behind every valid head, in terms of its number of nodes |
| RBWalk.Next | libuv/include/uv/tree.h:668-687 | the successor in the sorted sequence, null after the last node |
| RBWalk.Prev | libuv/include/uv/tree.h:690-709 | the predecessor in the sorted sequence |
| RBWalk.PrevOfNext | libuv/include/uv/tree.h:668-709 | going back from where going on leads returns to the node |
| RBWalk.MinMax | libuv/include/uv/tree.h:711-724 | the first or the last node of the sorted sequence |
| RBWalk.NFind | libuv/include/uv/tree.h:647-666 | the least node not below the key, null exactly when there is none |
| RBWalk.Find | libuv/include/uv/tree.h:629-644 | the node with the key, null exactly when there is none |
| RBWalk.ForEach | libuv/include/uv/tree.h:738-741 | RB_FOREACH visits every node exactly once, in ascending order, and ends |
| RBWalk.ForEachReverse | libuv/include/uv/tree.h:753-756 | RB_FOREACH_REVERSE visits the same nodes in the opposite order |
| SplayTree.Head.Splay | libuv/include/uv/tree.h:209-241 | the loop ends, keeps the sequence of nodes and leaves at the root a node that splits the others at the key |
| SplayTree.RootNextTo | libuv/include/uv/tree.h:127-137 | after a splay the root has the key if any node has, otherwise nothing lies between it and the key |
| SplayTree.Head.Insert | libuv/include/uv/tree.h:164-186 | returns an equal node and keeps the sequence, or, exactly when there is none, adds exactly elm at the root |
| SplayTree.Head.Remove | libuv/include/uv/tree.h:188-207 | removes exactly the node with an equal key, or reports that there is none |
| SplayTree.Head.Find | libuv/include/uv/tree.h:127-137 | brings the node with the key to the root exactly when there is one, keeping the sequence |
| SplayTree.Head.Next | libuv/include/uv/tree.h:139-151 | the successor in the sorted sequence |
| SplayTree.Head.MinMax | libuv/include/uv/tree.h:153-161 | brings the least or the greatest node to the root, for a comparison value other than 0 |
| SplayTree.Head.SplayMinMax | libuv/include/uv/tree.h:247-278 | the loop ends and keeps the sequence of nodes |
| HeapPath.ComputePath | libuv/src/heap-inl.h:121-124 | the path bits of n, from the root down, for every 32-bit count |
| HeapInl.Heap.Walk | libuv/src/heap-inl.h:126-136 | following the bits of n from the root arrives at the n-th slot in level order |
| HeapInl.Heap.NodeSwap | libuv/src/heap-inl.h:72-104 | exchanges two neighbouring slots and nothing else, with all links consistent |
| HeapInl.Heap.Insert | libuv/src/heap-inl.h:106-148 | adds exactly the new node; the heap stays complete, linked and ordered |
| HeapInl.Heap.Remove | libuv/src/heap-inl.h:150-237 | removes exactly the given node, wherever it is; the heap stays complete, linked and ordered |
| HeapInl.Heap.Dequeue | libuv/src/heap-inl.h:239-241 | removes the minimum |
| HeapInl.Heap.MinLeast | libuv/src/heap-inl.h:67-69 | no node is less than heap->min |
| HeapInl.Heap.Count | libuv/src/heap-inl.h:33-39 | nelts is the number of nodes |
| HeapOrder.SiftedUp | libuv/src/heap-inl.h:143-147 | one exchange upwards leaves at most the parent's place out of order |
| HeapOrder.SiftedDown | libuv/src/heap-inl.h:216-229 | one exchange downwards with the smaller child leaves at most that child's place out of order |
| TimerLoop.Clamp | libuv/src/timer.c:83-85 | the wrapped 64-bit sum and its test give min(now + timeout, 2^64-1) |
| TimerLoop.Loop.TimerInit | libuv/src/timer.c:63-68 | adds a fresh, stopped timer without callback to the loop, and leaves the heap alone |
| TimerLoop.Loop.Start | libuv/src/timer.c:71-99 | refuses a null callback without a change; otherwise (re)programs the timer with the next start id and puts it in the heap |
| TimerLoop.Loop.Stop | libuv/src/timer.c:102-112 | takes exactly this timer out of the heap; active again means being in the heap, and the active count is right |
| TimerLoop.Loop.Again | libuv/src/timer.c:115-125 | restarts a repeating timer at now + repeat and leaves a one-shot timer alone |
| TimerLoop.Loop.SetRepeat | libuv/src/timer.c:128-130 | changes the repeat value and nothing else; the deadline stays |
| TimerLoop.Loop.NextTimeout | libuv/src/timer.c:138-156 | -1 exactly for no timers, otherwise the time to the earliest deadline, at least 0 and at most INT_MAX |
| TimerLoop.Loop.RunTimers | libuv/src/timer.c:159-176 | whatever the callbacks start, stop and restart: the pass ends, every callback is that of the timer in the heap that is due and, by deadline and then by order of start, ahead of all others at that moment; the timers are what the calls make them, none is due afterwards; with callbacks that only stop timers the outcome is that of StopRunEnds |
| TimerRun.LegalMore | libuv/src/timer.c:159-176 | one more callback: the timer is stopped and restarted if it repeats, then the calls of its callback take effect |
| TimerRun.ActedMeans | libuv/src/timer.c:71-130 | a start or an effective restart in a callback puts the timer into the heap that far ahead, behind those started before it, a stop takes it out, no call touches another timer |
| TimerRun.RunBounded | libuv/src/timer.c:159-176 | no run is longer than the script of calling callbacks and the number of timers together |
| TimerRun.StopRun | libuv/src/timer.c:159-176 | when callbacks only stop timers, those called back were due at entry and ran once each in (timeout, start id) order; repeating ones come back strictly later, all others that were not stopped are untouched |
| TimerRun.StopRunEnds | libuv/src/timer.c:159-176 | then no stopped timer is called back, and every timer due at entry has been called back or stopped |
| TimerRun.Passed | libuv/src/timer.c:159-176 | one more turn of the least due timer extends a pass |
| TimerRun.CutLegal | libuv/src/timer.c:159-176 | what follows the first callbacks of a run is a run of its own from the state they leave |
| TimerLoop.Loop.HandleStart | libuv/src/uv-common.h:221-227 | sets the active flag and counts the handle once, if it is referenced |
| TimerLoop.Loop.HandleStop | libuv/src/uv-common.h:229-235 | clears it and uncounts it once |
| PoolInvariant.StepKeeps | libuv/src/threadpool.c:51-101 | every step of workers, submitters, cancels and loops keeps the pool invariant |
| PoolHistory.Registered | libuv/src/threadpool.c:195-204 | in every run the item of each submit is there from then on, with its loop |
| PoolHistory.RunAccounts | libuv/src/threadpool.c:51-253 | the state keeps exact account of how often work() was called and returned, uv_cancel answered 0 and done() was called |
| PoolGuarantees.Outcome | libuv/src/threadpool.c:207-253 | for every submit of every run: done() is called at most once, with UV_ECANCELED exactly when a cancel answered 0 and then work() was never called; otherwise work() was called exactly once and had returned |
| PoolGuarantees.NeverLost | libuv/src/threadpool.c:51-101 | in every run the item of each submit whose done() has not been called is in exactly one place over all queues and hands, and never with another loop |
| PoolGuarantees.TakenInOrder | libuv/src/threadpool.c:69-90 | of two submits the second is not taken by a worker while the first is still queued |
| PoolGuarantees.NoLostWakeUp | libuv/src/threadpool.c:58-80 | while a worker sleeps unsignalled there are as many signalled workers as queued entries, the exit message included |
| PoolGuarantees.ExitsLast | libuv/src/threadpool.c:67-81 | a worker leaves only after the exit message was posted and every submitted item was taken or cancelled, and the message stays for the others |
| PoolGuarantees.CancelAnswer | libuv/src/threadpool.c:207-230 | a cancel fails exactly when a worker has the item or its work is over |
| PoolGuarantees.NeverAborts | libuv/src/threadpool.c:43-45 | a worker never calls the cancelled marker or a null function |
| PoolProgress.StepRank | libuv/src/threadpool.c:51-115 | every useful step of a worker or loop lowers a measure that only new work and cancels raise, by at most 7 and 3 |
| PoolProgress.BoundedWork | libuv/src/threadpool.c:51-115 | in every run the useful steps number at most workers + 7 submits + 3 cancels |
| PoolProgress.NeverStuck | libuv/src/threadpool.c:51-115 | as long as some submit has not had its done(), or a worker is left after the exit message, some worker or loop can take a step that lowers the measure |
| PoolProgress.Drain | libuv/src/threadpool.c:51-115 | after every run workers and loops alone can finish, within as many steps as the measure says: then every submit has had its done(), once, and after the exit message every worker has left |
| PoolLocks.NoWaitCycle | libuv/src/threadpool.c:48-49 | no cycle of threads each blocked on a mutex that the next one holds; no chain of more than two waits |
| PoolLocks.Exclusive | libuv/src/threadpool.c:48-49 | no mutex is held by two threads |
| PoolLocks.SomebodyMoves | libuv/src/threadpool.c:207-230 | when a thread is blocked, it or a thread holding a mutex can move |
| PoolLocks.NoMutexInCallbacks | libuv/src/threadpool.c:58-91 | no thread owns a mutex while work() or done() runs, or while it sleeps |
| PoolLocks.Guarded | libuv/src/threadpool.c:51-253 | a thread in a section on the work queue owns the global mutex, one in a section on a queue of a loop that of the loop |
| Async.NoLostWakeUp | libuv/src/unix/async.c:59-68 | a pending handle has made the descriptor readable, or its sender is about to, or the pass under way still comes to it |
| Async.CallbacksBounded | libuv/src/unix/async.c:77-120 | callbacks never outnumber sends, nor successful exchanges |
| Async.EveryCallServed | libuv/src/unix/async.c:59-120 | in every run that ends quiescent, each call of uv_async_send on a handle that stays open is followed by a delivery |
| Async.EverySendServed | libuv/src/unix/async.c:59-120 | the same from the exchange, or the read that finds the handle pending |
| Async.NeverAfterClose | libuv/src/unix/async.c:77-130 | once a handle has been closed its callback is not called again |
| Async.OpenedAt | libuv/src/unix/async.c:40-56 | an opened handle is open, with its callback, until it is closed |
| Async.NoSpuriousCall | libuv/src/unix/async.c:59-120 | in every run a callback is called at most as often as uv_async_send was called for its handle |
| Async.ReadsAll | libuv/src/unix/async.c:86-104 | the read loop is left only with the descriptor empty |
| Async.NeverStalls | libuv/src/unix/async.c:77-151 | while an open handle is pending, the loop or a sender can take a step that delivers to it or brings it nearer, by a measure |
| Async.Delivery | libuv/src/unix/async.c:77-151 | from every such state the loop, after at most the write of a sender, delivers within as many steps as the measure says |
| Async.StepKeeps | libuv/src/unix/async.c:59-151 | every step, opening and closing in callbacks included, keeps the invariant |
| Ring.InsertHead | libuv/src/queue.h:83-90 | the element comes first |
| Ring.InsertTail | libuv/src/queue.h:92-99 | the element comes last |
| Ring.Remove | libuv/src/queue.h:101-106 | exactly that element goes, the order of the others stays |
| Ring.Add | libuv/src/queue.h:52-59 | the elements of the second ring follow those of the first, also when one or both are empty |
| Ring.Split | libuv/src/queue.h:61-70 | the elements from q on move to the new head, in order |
| Ring.Move | libuv/src/queue.h:72-81 | all elements move to the new head, also when there are none |
| Ring.Foreach | libuv/src/queue.h:34-35 | visits the elements once each, in order |
| HandleWalk.Loop.Walk | libuv/src/uv-common.c:372-388 | with callbacks that open and close handles it ends, and its callbacks are exactly those of Visits: handles present at the start that are not internal and that no earlier callback has closed, once each and in order, and all of those; no handle is lost |
| HandleWalk.VisitedRight | libuv/src/uv-common.c:372-388 | no handle is called back twice, after it was closed, or if it was not there at the start |
| HandleWalk.NoneMissed | libuv/src/uv-common.c:372-388 | a handle that is not called back is internal or was closed by an earlier callback |
| HandleWalk.VisitedInOrder | libuv/src/uv-common.c:372-388 | the callbacks come in the order of the handle queue |
| HandleWalk.KeepErase | libuv/src/uv-common.c:377-382 | closing a handle takes exactly it out of what is still to be visited |
| Inet4.Ntop4 | libuv/src/inet.c:53-65 | writes the whole text with its NUL, or nothing and UV_ENOSPC, exactly by size |
| Inet4.Pton4 | libuv/src/inet.c:186-222 | the loop computes the parsing function, from any position of the text |
| Inet4.Exact4 | libuv/src/inet.c:186-222 | accepted texts are exactly the printed ones, and parsing and printing undo each other |
| Inet4.QuadText | libuv/src/inet.c:53-65 | the four octets in decimal, in order, with dots between them |
| Inet4.DecMore | libuv/src/inet.c:54-60 | a further decimal digit multiplies by ten and adds |
| Inet4.DigitListed | libuv/src/inet.c:194-195 | the digits are those listed in the source, by value |
| Inet6Text.Exact6 | libuv/src/inet.c:225-309 | accepted texts are exactly the forms of RFC 4291 section 2.2, with the address they mean |
| Inet6Text.CaseFree | libuv/src/inet.c:226-251 | large and small hexadecimal digits mean the same in every text |
| Inet6Text.HexListed | libuv/src/inet.c:226-251 | the hexadecimal digits are those of the two lists, with their place as value |
| Inet6Text.GroupPlaced | libuv/src/inet.c:225-309 | a group is two bytes, the high one first, before the gap at the start and behind it at the end of the address |
| Inet6Text.FormParsed | libuv/src/inet.c:225-309 | every form parses to the address it means |
| Inet6Text.ParsedForm | libuv/src/inet.c:225-309 | every accepted text is the text of a form |
| Inet6.Pton6 | libuv/src/inet.c:225-309 | the loop over the buffer computes the parsing function |
| Inet6.Shift | libuv/src/inet.c:289-304 | the overlapping shift in place yields prefix, zeros and suffix |
| Inet6.Pton | libuv/src/inet.c:164-178 | parses what comes before the first percent sign, and the length limit never refuses a text that would parse |
| Inet6Print.BestRun | libuv/src/inet.c:89-112 | finds the leftmost of the longest zero runs of length at least 2, or that there is none |
| Inet6Print.FormOfMeans | libuv/src/inet.c:114-145 | the chosen text means the address, the embedded IPv4 forms included |
| Inet6Print.RoundTrip6 | libuv/src/inet.c:68-309 | printing and parsing gives back every 16-byte address |
| Inet6Print.HexShort | libuv/src/inet.c:136-140 | words are printed in small digits without leading zeros |
| Inet6.PrintedText | libuv/src/inet.c:114-145 | the text is ::ffff: and a dotted quad for mapped addresses, :: and a dotted quad for those that begin with exactly six zero words, otherwise the words with :: for the longest zero run |
| Inet6.PrintedReads | libuv/src/inet.c:68-309 | that text parses back to the address |
| Inet6.Ntop6 | libuv/src/inet.c:68-154 | prints that text, which always fits in 46 characters with its NUL; copies it whole or not at all |
| Socks5.Chunks | libuv/samples/socks5-proxy/s5.c:53-239 | parsing a and then b gives the same state, event and rest as parsing them together |
| Socks5.GreetingRead | libuv/samples/socks5-proxy/s5.c:67-102 | a greeting parses back to its methods with the rest unread; what happens when the list is empty |
| Socks5.GreetingExact | libuv/samples/socks5-proxy/s5.c:76-102 | it does so exactly when the list is not empty |
| Socks5.EmptyGreetingFails | libuv/samples/socks5-proxy/s5.c:82-102 | an empty list swallows the next byte |
| Socks5.LoginRead | libuv/samples/socks5-proxy/s5.c:104-146 | user name and password parse back, NUL-terminated, with the rest unread |
| Socks5.EmptyPassWordRead | libuv/samples/socks5-proxy/s5.c:131-146 | an empty password swallows the byte after the login |
| Socks5.EmptyUserNameRead | libuv/samples/socks5-proxy/s5.c:112-129 | after an empty user name the length of the password is dropped and the next byte taken for it |
| Socks5.LoginExact | libuv/samples/socks5-proxy/s5.c:104-146 | a login parses back exactly when neither the user name nor the password is empty |
| Socks5.RequestRead | libuv/samples/socks5-proxy/s5.c:148-224 | a CONNECT or UDP ASSOCIATE request parses back to its fields with the rest unread |
| Socks5.EmptyHostRead | libuv/samples/socks5-proxy/s5.c:199-224 | what an empty host name does to the port and the byte after the request |
| Socks5.RequestExact | libuv/samples/socks5-proxy/s5.c:148-224 | a request parses back exactly when its address is not empty |
| Socks5Wire.GreetingExactly | libuv/samples/socks5-proxy/s5.c:67-102 | for every input: method selection is reached exactly by greetings, BadVersion exactly for a first byte other than 5, with the rest unread |
| Socks5Wire.GreetingTaken | libuv/samples/socks5-proxy/s5.c:67-102 | what every greeting leaves in the context, an empty list with one byte behind it included |
| Socks5Wire.MethodsMean | libuv/samples/socks5-proxy/s5.c:84-96 | a method bit is set exactly when its number is in the list |
| Socks5Wire.LoginExactly | libuv/samples/socks5-proxy/s5.c:104-146 | for every input: verification is reached exactly by logins, BadVersion exactly for a first byte other than 1, with the rest unread |
| Socks5Wire.LoginTaken | libuv/samples/socks5-proxy/s5.c:104-146 | what every login leaves in the context, an empty field with one byte behind it included |
| Socks5Wire.RequestExactly | libuv/samples/socks5-proxy/s5.c:148-224 | for every input: execution is reached exactly by CONNECT and UDP ASSOCIATE requests; BadVersion, BadCmd and BadAtyp exactly for the first byte that is wrong, with what follows it unread |
| Socks5Wire.RequestTaken | libuv/samples/socks5-proxy/s5.c:148-224 | what every request leaves in the context, whatever its reserved byte |
| Socks5Wire.DeadIgnores | libuv/samples/socks5-proxy/s5.c:226-227 | after the request everything is ignored |
| Socks5Wire.OkReadsAll | libuv/samples/socks5-proxy/s5.c:53-239 | a parse without an event has read all its input |
| Socks5Parser.Ctx.Parse | libuv/samples/socks5-proxy/s5.c:53-239 | the loop over the context in place computes the parsing function, and every write stays in its buffer |
| Socks5Parser.Ctx.SelectAuth | libuv/samples/socks5-proxy/s5.c:245-261 | after no authentication every request is read back next, after password authentication every login and then every request; any other method gives -EINVAL; nothing but the state changes, and only on success |
| FsPollSpec.StatBufEq | libuv/src/fs-poll.c:227-242 | equal exactly up to links, device type, block counts and access time |
| FsPollSpec.BusyDecides | libuv/src/fs-poll.c:183-204 | the test on busy_polling reports an outcome exactly when it differs from the one before, or is a first error |
| FsPollSpec.ReportCount | libuv/src/fs-poll.c:183-204 | the reports are exactly those of the outcomes that differ |
| FsPollSpec.FirstSuccessSilent | libuv/src/fs-poll.c:199-201 | a first success is not reported |
| FsPollSpec.Delay | libuv/src/fs-poll.c:213-215 | the next delay is between 1 and the interval and ends on the grid that began at start_time |
| FsPoll.Loop.StartPoll | libuv/src/fs-poll.c:56-101 | gives an inactive handle a fresh context with a stat in flight, the interval (at least 1) and the start time; an active handle stays as it is; without memory or stat request nothing changes and the error is returned |
| FsPoll.Loop.StopPoll | libuv/src/fs-poll.c:104-125 | detaches the context and closes its timer exactly when it is armed |
| FsPoll.Loop.PollCb | libuv/src/fs-poll.c:172-219 | reports exactly a first error and every outcome that differs from the one before, with the last good result and the new one; the handles are then as active as the calls of the callback make them; arms the timer on the grid or closes it |
| FsPoll.Loop.TimerCb | libuv/src/fs-poll.c:159-169 | its assertions hold whenever the timer fires |
| FsPoll.Loop.TimerCloseCb | libuv/src/fs-poll.c:222-224 | frees a context once, with no stat in flight and nothing referring to it |
| Proxy.ConnCycle | libuv/samples/socks5-proxy/client.c:546-576 | one direction, after a read or write has ended, has exactly one operation outstanding again |
| Proxy.Client.DoProxyStart | libuv/samples/socks5-proxy/client.c:485-505 | reading starts on both sides, or the session is closed |
| Proxy.Client.ReadDone | libuv/samples/socks5-proxy/client.c:662-675 | exactly the bytes that were read are being written to the other side |
| Proxy.Client.WriteDone | libuv/samples/socks5-proxy/client.c:706-718 | all that was read from the other side is now on the wire, in order and once, and reading goes on; a cancelled write changes nothing |
| Proxy.Client.TimerExpire | libuv/samples/socks5-proxy/client.c:585-591 | an idle timeout closes the session |

## Left out

- Platform files, file and console I/O, thread creation, fork handling and environment parsing: system calls.
- `uv_close` and the counting of finalizers, in libuv and in the session teardown of client.c: they depend on close semantics that are not part of this model.
- The handshake, lookup and connect phases of client.c, server.c, main.c, util.c and getopt.c.
- RB_AUGMENT, the SAFE and FROM loops of tree.h and SPLAY_FOREACH: thin variants of what is modelled.
- uv__timer_close, uv__handle_ref and uv__handle_unref: single calls and flag updates.
- TimerLoop.Loop.RunTimers: callbacks that close timers or move the time of the loop are not modelled, and the counters of the source are taken not to overflow during the pass.
- PoolInvariant.StepKeeps: the queues are sequences, so the link updates inside one lock section are those proved for Ring and not repeated; the order of memory effects between lock sections is sequential consistency.
- Async.StepKeeps: the descriptor is a byte count or an eventfd counter, interrupted calls are retried and not shown, and an id is never used again for a later handle.
- PoolProgress.NeverStuck: that a scheduler takes the steps that are possible is not modelled.
- FsPoll.Loop.PollCb: the overflow of the deadline is not modelled.
- The Windows parts of fs-poll.c, the error tables and socket-address wrappers of uv-common.c, log4z, cereal and the Windows service sources.
