# Verification of the thread pools, servers and libraries

A Dafny project about the parts of the repository that hold state machines or arithmetic. `dafny verify dfyconfig.toml` checks it.

- **Thread pool** (`Sums`, `PoolModel`, `PoolSafety`, `PoolProgress`, `PoolTheorems`). The pool of `threadpool.h`, its FIFO
  sibling and its priority sibling are one transition system with four switches (`Variant`). Each lock, predicate test, sleep,
  pop, unlock, task end, decrement, re-read and notification of each thread is a step of its own, and the steps of any number of
  workers and submit calls, one completion waiter and the destructor interleave freely, with spurious wakeups at any time. Tasks
  may throw. A method body cannot be interrupted by another thread, so the threads are program points and step functions,
  not methods; the shared fields are the fields of `State`. `PoolSafety` proves an inductive invariant,
  `PoolProgress` a measure that every internal step lowers and where threads are when nothing can move, and
  `PoolTheorems` what follows for every reachable state and every run.
- **Modular arithmetic** (`NumberTheory`, `ModMath`). The functions of `mymath.cpp` on 64-bit integers whose every
  intermediate result is proved to fit, with the truncating remainder of C++, and Fermat's little theorem from first principles.
- **Packets** (`Framing`). Both ends of the length-prefixed protocol over a socket that splits sends and receives as it likes
  and records what each of them returned.
- **Shared pointers** (`Wrappers`, `SharedPtr`, `Ownership`). `SharedPtr` holds handles, counters and pointees in one memory,
  updated in place by the operations of `shared_ptr`, with logs of all deletions; its programs refine a description of ownership
  that has no counters. `Ownership` is about handles that live inside pointees, where one release can set off others.
- **Event loops** (`Sets`, `SystemCalls`, `Descriptors`, `SelectServer`, `PollServer`, `DensePoll`). The redundant descriptor tables of
  four servers while a scan over a snapshot changes them, and their loops over any number of rounds. The kernel answers `accept`,
  `recv`, `select` and `poll` as it likes and records every call; what a pass has handled is stated of these records alone.
- **Round robin** (`RoundRobin`). The dispatcher of the reactor across counter overflow.

Where a promise does not hold of the code, the project says exactly when it does:

- `submit` tests the stop flag before it takes the lock. A call overtaken by the whole shutdown returns as accepted and its task
  never runs (`AcceptedTaskCanBeLost`). A task is run exactly if some worker is still there when it is enqueued
  (`FinishedIffWorkerLeft`), and those enqueued before `stop` is stored always are (`NothingDroppedBeforeStop`).
- `reset` of a shared pointer is `release` alone. It keeps the memory in order exactly for a handle whose count is at most one
  (`ResetIff`); with two sharers the other handle is left dangling (`ResetThenDestroyDangles`).
- The assignments release the old pointee before they read the source. If the source lives inside what is deleted, as in
  `p = p->next` for the sole owner of a list, they read freed memory. Without cycles the source is still there exactly if it is on
  the stack or something else leads to where it lives (`Ownership.Memory.CopyAssign`), and for `p = p->next` exactly if the count is above one
  (`NextSurvivesIff`). A cycle can keep alive what nothing leads to (`CyclesLeak`); an assignment keeps a memory free of cycles
  exactly if nothing leads from the new pointee to where the target lives (`AcyclicIff`).
- The pooled servers keep only the number of the descriptor for a reply. It reaches the connection its message came from exactly if
  nobody has closed the number in between (`ReplyReachesIff`); otherwise it can go to another client (`ReplyGoesAstray`).
- The comment at `Cpp_WebPrograming/package_client.cpp:9` calls the packet functions of client and server identical. They are not: the
  server reads the prefix with one `recv`, has no limit, and sends the body once. When the readers agree on a stream is settled by
  `ReadersAgreeIff`. A server receives exactly the messages sent to it if and only if no `recv` of a prefix was cut short
  (`Serve`). The casts to 32 bits truncate messages of 4 GiB and more; the round trip succeeds for exactly the messages within the
  limit of the reader (`RoundTripIff`).
- `QuickPower(x, 0)` is 1 even when `MOD` is 1; otherwise it is the power (`QuickPower`). The inverse works for every residue
  exactly when `MOD` is prime (`InverseIffPrime`). `Add` yields a residue exactly when the sum is at least `-MOD`. Residues
  can be multiplied without overflow exactly up to the modulus 3037000500 (`ResiduesMultiplyIff`).
- The round robin is fair across the overflow exactly when the number of reactors divides 2^32 (`FairIff`).
- The dense poll tables agree after a pass exactly when the listener had no error event (`DensePoll.TCPServer.PollPass`).

## Model

| member | source | states |
|---|---|---|
| PoolSafety.InitInv | Cpp_WebPrograming/threadpool.h:54-60 | a new pool, with any number of workers and even none, is in order |
| PoolSafety.WorkerKeepsInv | Cpp_WebPrograming/threadpool.h:26-46 | every step of a worker keeps the invariant: mutex ownership, counter, work conservation, pending signal, place of each task |
| PoolSafety.WakeKeepsInv | Cpp_WebPrograming/threadpool.h:31 | a wakeup, spurious or stolen, is harmless in any state |
| PoolSafety.CallKeepsInv | Cpp_WebPrograming/threadpool.h:82-97 | every step of submit keeps the invariant, emplace and fetch_add being separate steps |
| PoolSafety.WaiterKeepsInv | Cpp_WebPrograming/pollthread_tp.cpp:237-239 | reading the count and falling asleep on end_cv are separate steps and keep the invariant |
| PoolSafety.DestructorKeepsInv | Cpp_WebPrograming/threadpool.h:68-80 | storing stop under the lock, notify_all and the joins keep the invariant |
| PoolSafety.StepKeepsInv | C++MultiThreadingProgram/ThreadPool.cpp:22-89 | the same for every thread of every variant, the two-step decrement included |
| PoolSafety.RunKeepsInv | C++MultiThreadingProgram/PriThreadPool.cpp:31-105 | the invariant holds at the end of every run from a state in which it holds |
| PoolSafety.MidCallQueued | Cpp_WebPrograming/threadpool.h:92-95 | at most one call stands between emplace and fetch_add, and its task is still queued |
| PoolProgress.InternalStepDescends | Cpp_WebPrograming/threadpool.h:26-80 | every step the pool takes by itself lowers a natural number |
| PoolProgress.InternalRunIsFinite | Cpp_WebPrograming/threadpool.h:26-97 | without new calls, waits or spurious wakeups a run is no longer than the measure of its first state |
| PoolProgress.HolderMayMove | Cpp_WebPrograming/threadpool.h:30-44 | whoever holds a mutex can take a step: nobody waits while holding one |
| PoolProgress.QuiescentPoints | Cpp_WebPrograming/threadpool.h:31-43 | when nothing can move, both mutexes are free, workers sleep or are gone, calls have returned |
| PoolProgress.QuiescenceReachable | Cpp_WebPrograming/threadpool.h:26-97 | from every state in order the pool comes to rest by itself |
| PoolTheorems.MutualExclusion | Cpp_WebPrograming/threadpool.h:30-43 | no two of workers, calls, destructor and waiter hold the same mutex, and no thread holds both |
| PoolTheorems.NoTaskBesideSleeper | Cpp_WebPrograming/threadpool.h:31-38 | while a worker sleeps, queued tasks number at most the unsent notifications plus the workers heading for the queue |
| PoolTheorems.NoLostSignal | Cpp_WebPrograming/threadpool.h:40-44 | a waiter asleep, or about to be, beside a zero count has a worker committed to notifying it; in two-step pools also one about to re-read the count |
| PoolTheorems.SignalIffZero | Cpp_WebPrograming/threadpool.h:40-44 | a worker sets out to notify the waiter exactly when it has met a zero count |
| PoolTheorems.PoolsRuled | C++MultiThreadingProgram/ThreadPool.cpp:27-41 | what cannot happen in each of the three pools; those with a plain queue start tasks in order |
| PoolTheorems.PoolsDiffer | C++MultiThreadingProgram/PriThreadPool.cpp:41-58 | where the three pools differ: late calls rejected, the most urgent task taken, the count re-read |
| PoolTheorems.ThrowIff | C++MultiThreadingProgram/PriThreadPool.cpp:44-51 | a throwing task makes no difference where exceptions are absorbed and ends everything elsewhere |
| PoolTheorems.EnvironmentIsFree | Cpp_WebPrograming/threadpool.h:31 | calls, waits, destructor and spurious wakeups can come at any time |
| PoolTheorems.CounterConservation | Cpp_WebPrograming/threadpool.h:92-95 | count plus the call between emplace and fetch_add equals queued plus undecremented tasks; the count is never negative |
| PoolTheorems.TaskIsInOnePlace | Cpp_WebPrograming/threadpool.h:36-39 | an enqueued task is in the queue, in the hands of one worker or finished, and only one of these |
| PoolTheorems.ZeroCountMeansFinished | C++MultiThreadingProgram/ThreadPool.cpp:104-105 | at a zero count an enqueued task is finished exactly if its call is not just before fetch_add |
| PoolTheorems.WaitedForIsFinished | C++MultiThreadingProgram/ThreadPool.cpp:104-105 | over every run: when the wait is over, every task that has been counted while it lasted has been finished |
| PoolTheorems.ExactlyOnce | Cpp_WebPrograming/threadpool.h:32-39 | each task starts and ends at most once; in a FIFO pool started tasks followed by queued ones are the enqueued ones in order |
| PoolTheorems.ShutdownDrainsQueue | Cpp_WebPrograming/threadpool.h:32-33 | when all workers are gone a task has been finished exactly if it was enqueued before the last of them left, and the others are the queue |
| PoolTheorems.NothingDroppedBeforeStop | Cpp_WebPrograming/threadpool.h:70-79 | tasks enqueued before stop is stored have run when the destructor is through |
| PoolTheorems.EnqueuedBeforeStopIsRun | Cpp_WebPrograming/threadpool.h:70-79 | over every run: a task enqueued while stop is not set has been finished once all workers are gone |
| PoolTheorems.FinishedIffWorkerLeft | Cpp_WebPrograming/threadpool.h:32-39 | for every run after a task is enqueued: once all workers are gone it has been finished exactly if at that moment one was still there |
| PoolTheorems.GoneForGood | Cpp_WebPrograming/threadpool.h:32-33 | after the last worker has left no task is ever finished |
| PoolTheorems.AcceptedTaskCanBeLost | Cpp_WebPrograming/threadpool.h:85-96 | a run in which submit returns as accepted and its task stays behind |
| PoolTheorems.NobodySleepsAfterNotifyAll | Cpp_WebPrograming/threadpool.h:72-74 | after notify_all no worker is asleep or about to fall asleep |
| PoolTheorems.RestMeansDone | Cpp_WebPrograming/threadpool.h:26-97 | a pool at rest has finished every accepted task and woken its waiter, or has been destroyed with all workers gone |
| PoolTheorems.LeftAloneItFinishes | Cpp_WebPrograming/threadpool.h:26-97 | a run of internal steps is bounded and, if maximal, ends that way: no deadlock, no lost wakeup |
| PoolTheorems.ReachableRuled | C++MultiThreadingProgram/PriThreadPool.cpp:44-58 | what each variant rules out in every reachable state: an escaped exception in the absorbing pool, a re-read of the count after a fused decrement, a rejection before stop; the number of workers never changes |
| PoolTheorems.RejectedLeavesNoTrace | Cpp_WebPrograming/threadpool.h:85-89 | the task of a rejected call is never queued, started or finished |
| PoolTheorems.LateCallIsRejected | Cpp_WebPrograming/threadpool.h:85-89 | a call that has not tested the flag when stop is set never gets past the test |
| PoolTheorems.PopsByPriority | C++MultiThreadingProgram/PriThreadPool.cpp:18-42 | while nothing new is enqueued tasks start in order of priority, and none is less urgent than one left behind |
| NumberTheory.Fermat | Static Lib And Dynamic Lib/Static Link/mymath.cpp:35-38 | the theorem that makes MOD - 2 the right exponent for an inverse |
| ModMath.ResiduesMultiplyIff | Static Lib And Dynamic Lib/Static Link/mymath.cpp:18-21 | products of residues fit in 64 bits exactly for moduli up to 3037000500 |
| ModMath.InverseIffPrime | Static Lib And Dynamic Lib/Static Link/mymath.cpp:35-38 | Mul(y, Inv(y)) is 1 for every nonzero residue exactly when the modulus is prime, 2 included |
| ModMath.DivideUndoesMul | Static Lib And Dynamic Lib/Static Link/mymath.cpp:40-43 | Divide(Mul(x, y), y) is x for a prime modulus |
| ModMath.QuotientTimesDivisor | Static Lib And Dynamic Lib/Static Link/mymath.cpp:40-43 | a quotient times its divisor is congruent to the dividend, whatever the signs |
| ModMath.RemOfProduct | Static Lib And Dynamic Lib/Static Link/mymath.cpp:20 | reducing the factors first leaves the truncated remainder of the product as it is |
| ModMath.HalfwayStep | Static Lib And Dynamic Lib/Static Link/mymath.cpp:26-31 | one round of the loop keeps res times x to the y, the ranges and the signs |
| ModMath.HalfwayFits | Static Lib And Dynamic Lib/Static Link/mymath.cpp:28-29 | neither product of a round overflows, although the base enters unreduced |
| ModMath.Calculator.constructor | Static Lib And Dynamic Lib/Static Link/mymath.cpp:3 | the initial modulus |
| ModMath.Calculator.SetMod | Static Lib And Dynamic Lib/Static Link/mymath.cpp:5-8 | replaces the modulus |
| ModMath.Calculator.Add | Static Lib And Dynamic Lib/Static Link/mymath.cpp:10-16 | congruent to the sum, and a residue exactly when the sum is at least -MOD |
| ModMath.Calculator.Mul | Static Lib And Dynamic Lib/Static Link/mymath.cpp:18-21 | the truncated remainder of the mathematical product, for all 64-bit factors |
| ModMath.Calculator.QuickPower | Static Lib And Dynamic Lib/Dynamic Link/mymath.cpp:23-33 | the truncated remainder of the power, save exactly for exponent 0 with modulus 1; terminates |
| ModMath.Calculator.Inv | Static Lib And Dynamic Lib/Static Link/mymath.cpp:35-38 | an inverse of every number not divisible by a prime modulus |
| ModMath.Calculator.Divide | Static Lib And Dynamic Lib/Static Link/mymath.cpp:40-43 | times the divisor it is congruent to the dividend, for a prime modulus |
| Framing.ReadsBack | Cpp_WebPrograming/package_client.cpp:11 | the four bytes of htonl are read back by ntohl |
| Framing.NetworkOrder | Cpp_WebPrograming/package_client.cpp:11 | the prefix is in network order: the smaller byte at the first difference means the smaller length |
| Framing.WritesBack | Cpp_WebPrograming/package_client.cpp:46 | every four bytes are the prefix of the length they encode |
| Framing.DecodeIff | Cpp_WebPrograming/package_client.cpp:31-64 | a reader reads a frame exactly when the stream starts with its encoding and it is within the limit |
| Framing.RoundTripIff | Cpp_WebPrograming/package_client.cpp:10-64 | a message survives the round trip exactly if it is within the limit of the reader, 1048576 bytes for the client |
| Framing.HugeMessageIsCut | Cpp_WebPrograming/package_client.cpp:11-19 | a message of 4 GiB or more arrives cut to its length modulo 2^32, and the stream stays in step |
| Framing.ServerWireDecodes | Cpp_WebPrograming/package_sticking.cpp:9-27 | what a reader makes of a packet of the server, whatever its size |
| Framing.ServerRoundTripIff | Cpp_WebPrograming/package_sticking.cpp:9-27 | a reply of the server is read back exactly if it is within the limit of the reader |
| Framing.StreamRoundTrip | Cpp_WebPrograming/package_client.cpp:10-64 | a concatenation of packets decodes to its messages in order, whatever follows, and decoding goes on with that |
| Framing.UniquelyDecodable | Cpp_WebPrograming/package_client.cpp:10-64 | equal concatenations come from equal lists of messages |
| Framing.ReadersAgreeIff | Cpp_WebPrograming/package_sticking.cpp:34-39 | on any stream the readers agree exactly if the header recv yields four bytes and the length is within the limit, or both miss some of the body |
| Framing.SendPacket | Cpp_WebPrograming/package_client.cpp:10-29 | offers the prefix and then all that is left; true exactly if no send failed and the prefix was not cut short, and exactly if the whole packet went out; otherwise a prefix of it did |
| Framing.RecvPacket | Cpp_WebPrograming/package_client.cpp:31-64 | without a socket error the outcome and the bytes consumed depend on the stream alone |
| Framing.RecvBody | Cpp_WebPrograming/package_client.cpp:50-63 | reads exactly dataLen bytes in order; the 32-bit subtraction does not underflow |
| Framing.ReceiveAll | Cpp_WebPrograming/package_client.cpp:31-64 | repeated until it fails, the reader yields exactly the messages of the stream and consumes them, unless the socket reports an error |
| Framing.Converse | Cpp_WebPrograming/package_client.cpp:93-110 | makes only the sends of the packets, and lasts to the end exactly if none of them is refused, no recv fails and the peer has sent enough; the replies are the messages of the stream in order |
| Framing.RepliesAreSent | Cpp_WebPrograming/package_client.cpp:93-110 | whatever follows them, the messages the peer has sent are the replies |
| Framing.ServerSendPacket | Cpp_WebPrograming/package_sticking.cpp:9-27 | true exactly if both sends took everything, and then the packet went out whole |
| Framing.ServerRecvPacket | Cpp_WebPrograming/package_sticking.cpp:30-53 | asks for the prefix once, for four bytes, and decodes with those it got, as the socket recorded them |
| Framing.Slip | Cpp_WebPrograming/package_sticking.cpp:34-39 | a reader that got a part of a prefix, or sees the message behind zeros, takes it for itself only if all it has skipped is zero |
| Framing.Following | Cpp_WebPrograming/package_sticking.cpp:98-104 | a server out of step is left behind by some zeros or has received something else, and never gets back into step |
| Framing.Serve | Cpp_WebPrograming/package_sticking.cpp:98-109 | the server receives exactly the messages sent if and only if no request for the four bytes of a prefix was cut short; with whole sends the client reads back its own messages behind the greeting, in order |
| Framing.RepliesDecode | Cpp_WebPrograming/package_sticking.cpp:101-103 | the replies decode to the greeting and the message, for each message in order |
| SharedPtr.ReleaseForgets | CppProjects/mysmartptr/include/smartpointer.hpp:107-123 | release leaves all other handles in order and deletes pointee and counter once, exactly if nobody else holds them |
| SharedPtr.ResetIff | CppProjects/mysmartptr/include/smartpointer.hpp:203-206 | reset leaves the memory in order exactly if get_count() is at most 1 |
| SharedPtr.ResetThenDestroyDangles | CppProjects/mysmartptr/include/smartpointer.hpp:203-206 | with two sharers, resetting and destroying one deletes the pointee under the other |
| SharedPtr.PossibleIff | CppProjects/mysmartptr/include/smartpointer.hpp:107-206 | in a memory in order, operations need only the handles they name, save for reset |
| SharedPtr.NothingLeaks | CppProjects/mysmartptr/include/smartpointer.hpp:150-153 | without handles there are no counters, and what was managed has been deleted, once |
| SharedPtr.ApplyRefines | CppProjects/mysmartptr/include/smartpointer.hpp:107-206 | every operation keeps the counts exact and does what ownership means: a pointee is deleted when, and only when, nobody holds it any more |
| SharedPtr.ProgramRefines | CppProjects/mysmartptr/include/smartpointer.hpp:107-206 | the same for every program over handles |
| SharedPtr.ProgramLeaksNothing | CppProjects/mysmartptr/include/smartpointer.hpp:107-206 | a program that has let go of all its handles has deleted everything it made, and every counter, exactly once |
| SharedPtr.Memory.Release | CppProjects/mysmartptr/include/smartpointer.hpp:107-123 | the heap after release: uncounted, or cleared and deleted |
| SharedPtr.Memory.Construct | CppProjects/mysmartptr/include/smartpointer.hpp:125-131 | the first handle of a pointee has count 1, a null handle none |
| SharedPtr.Memory.CopyConstruct | CppProjects/mysmartptr/include/smartpointer.hpp:134-140 | another holder, nothing deleted, counts exact |
| SharedPtr.Memory.MoveConstruct | CppProjects/mysmartptr/include/smartpointer.hpp:142-148 | the holder changes, the source is emptied, nothing deleted |
| SharedPtr.Memory.Destroy | CppProjects/mysmartptr/include/smartpointer.hpp:150-153 | the pointee is deleted exactly if this was its last holder |
| SharedPtr.Memory.CopyAssign | CppProjects/mysmartptr/include/smartpointer.hpp:155-169 | right for aliases and self-assignment; the old pointee is deleted exactly if nobody holds it any more |
| SharedPtr.Memory.MoveAssign | CppProjects/mysmartptr/include/smartpointer.hpp:171-185 | the same for moving, with the source emptied |
| SharedPtr.Memory.Reset | CppProjects/mysmartptr/include/smartpointer.hpp:203-206 | in order afterwards exactly if the count was at most 1; otherwise fields kept and count lowered |
| SharedPtr.Run | CppProjects/mysmartptr/include/smartpointer.hpp:100-225 | performs a program up to its first impossible operation, keeps the memory in order and does what the program means |
| Ownership.AliveIffReachable | CppProjects/mysmartptr/include/smartpointer.hpp:107-123 | in a memory in order without cycles the pointees alive are those a path of handles from the stack leads to |
| Ownership.Memory.Release | CppProjects/mysmartptr/include/smartpointer.hpp:107-123 | with handles inside pointees: the pointees deleted lie deeper, exactly the handles in them are destroyed, the counts stay exact; the recursion ends |
| Ownership.Memory.LeaveScope | CppProjects/mysmartptr/include/smartpointer.hpp:150-153 | destroying a handle on the stack deletes exactly what cannot be reached without it |
| Ownership.Memory.CopyAssign | CppProjects/mysmartptr/include/smartpointer.hpp:155-169 | the source of the assignment outlives the release exactly if it is on the stack or reachable without the target; then all counts are exact and just the unreachable is gone |
| Ownership.Memory.MoveAssign | CppProjects/mysmartptr/include/smartpointer.hpp:171-185 | the same for moving, with the source emptied |
| Ownership.NextSurvivesIff | CppProjects/mysmartptr/include/smartpointer.hpp:155-169 | for a source in the pointee of the target the condition is a count above one |
| Ownership.AdvancingAListDangles | CppProjects/mysmartptr/include/smartpointer.hpp:155-169 | a list on which p = p->next reads freed memory |
| Ownership.CyclesLeak | CppProjects/mysmartptr/include/smartpointer.hpp:107-123 | a handle inside its own pointee keeps it alive although nothing leads there |
| Ownership.AcyclicIff | CppProjects/mysmartptr/include/smartpointer.hpp:155-185 | an assignment keeps a memory without cycles exactly if nothing leads from the new pointee to where the target lives |
| Ownership.AssignPossibleIff | CppProjects/mysmartptr/include/smartpointer.hpp:155-185 | an assignment can be part of a program exactly if its source is alive when it is read and no cycle is closed |
| Ownership.Run | CppProjects/mysmartptr/include/smartpointer.hpp:100-225 | over every program that closes no cycle, counting leaves exactly the handles and pointees that a tracing collector would leave |
| Descriptors.Begin | Cpp_WebPrograming/select.cpp:20 | the first element of the ordered set is its maximum |
| SystemCalls.ReplyReachesIff | Cpp_WebPrograming/pollthread_tp.cpp:156-171 | a reply sent later to the number its message came from reaches that connection exactly if nobody has closed the number in between |
| SystemCalls.ReplyGoesAstray | Cpp_WebPrograming/selectthread_tp.cpp:203-209 | a history in which the number has been given to another client meanwhile |
| Descriptors.QueuedIsNotClosed | Cpp_WebPrograming/selectthread_tp.cpp:246-256 | a pass that handles each descriptor once closes none it has left to the pool |
| SelectServer.TCPServer.constructor | Cpp_WebPrograming/select.cpp:84-86 | after init the three records agree |
| SelectServer.TCPServer.AcceptClient | Cpp_WebPrograming/select.cpp:119-137 | read set, client set and exact maximum agree after accept has been called, with its answer |
| SelectServer.TCPServer.ServeClient | Cpp_WebPrograming/select.cpp:142-171 | one recv, followed by a send if it has yielded data and otherwise by a close, which takes the client out of all records |
| SelectServer.TCPServer.SelectPass | Cpp_WebPrograming/select.cpp:111-174 | with its live bound the pass ends and serves every ready descriptor once, and none accepted in it: one accept for the listener, for a client one recv and its answer or its close, and no other calls |
| SelectServer.TCPServer.CloseAll | Cpp_WebPrograming/selectretype.cpp:21-32 | the error handler closes each client once and leaves only the listener open |
| SelectServer.RunSelectLoop | Cpp_WebPrograming/selectretype.cpp:84-162 | every round watches the listener and the clients of that moment and handles exactly what select has answered, in the same way; only a failing select ends the loop, with all clients closed |
| SelectServer.TCPServer.AcceptIncrementally | Cpp_WebPrograming/selectthread_tp.cpp:211-222 | the incremental maximum is the exact one |
| SelectServer.TCPServer.HandleClientIo | Cpp_WebPrograming/selectthread_tp.cpp:186-209 | one recv, followed by handing the answer to the pool if it has yielded data and otherwise by a close |
| SelectServer.TCPServer.BoundedPass | Cpp_WebPrograming/selectthread_tp.cpp:226-256 | the pass bounded by the earlier maximum serves every ready descriptor once, and none accepted in it, leaving answers to the pool; none left to the pool is closed in the pass |
| SelectServer.RunPooledLoop | Cpp_WebPrograming/selectthread_tp.cpp:224-257 | every round watches the listener and the clients of that moment and handles exactly what select has answered, until the flag is found cleared or select fails uninterrupted |
| PollServer.TCPServer.constructor | Cpp_WebPrograming/pollserver.cpp:83-85 | after init table, set and maximum agree |
| PollServer.TCPServer.NewClient | Cpp_WebPrograming/pollserver.cpp:90-111 | the table grows to hold the client, other entries stay, the new entry has no events yet |
| PollServer.TCPServer.ClientCommunicate | Cpp_WebPrograming/pollserver.cpp:114-155 | one recv, followed by a send for data and a close otherwise, or a close alone once the flag is found cleared; a lost entry is released; the maximum stays exact while the server runs |
| PollServer.TCPServer.Dispatch | Cpp_WebPrograming/pollserver.cpp:184-196 | one readable entry is dispatched: the listener accepts, a client is answered or closed, or turned away exactly if the flag is found cleared; the other readable entries stay so |
| PollServer.TCPServer.PollPass | Cpp_WebPrograming/pollserver.cpp:163-197 | the count-down never skips a readable entry; each is dispatched once, none accepted in the pass; clients are turned away only after the flag is found cleared, and then all that follow; all accesses in bounds |
| PollServer.RunPollLoop | Cpp_WebPrograming/pollserver.cpp:157-198 | every round polls the listener and the clients of that moment and dispatches exactly what is readable, until the flag is found cleared; a failing poll is tried again |
| DensePoll.EraseIsWithout | Cpp_WebPrograming/pollthread_tp.cpp:150-151 | erasing at the found index removes the descriptor altogether |
| DensePoll.WithoutTwice | Cpp_WebPrograming/pollthread_tp.cpp:215-223 | cleaning up one descriptor twice leaves the table as once does |
| DensePoll.TCPServer.constructor | Cpp_WebPrograming/pollthread_tp.cpp:117-118 | the listener comes first |
| DensePoll.TCPServer.FindClientFdIdx | Cpp_WebPrograming/pollthread_tp.cpp:39-44 | finds an entry of the descriptor exactly if there is one |
| DensePoll.TCPServer.NewClient | Cpp_WebPrograming/pollthread_tp.cpp:122-136 | one entry appended, which asks for data, under a number that was not open |
| DensePoll.TCPServer.CleanUp | Cpp_WebPrograming/pollthread_tp.cpp:147-152 | the descriptor is closed, table and set lose exactly it; the listener keeps its place |
| DensePoll.TCPServer.ClientCommunicate | Cpp_WebPrograming/pollthread_tp.cpp:138-172 | one recv, followed by handing the answer to the pool if it has yielded data and otherwise by a close |
| DensePoll.TCPServer.HandleEntry | Cpp_WebPrograming/pollthread_tp.cpp:198-224 | one entry of the copy: its data event, then its error event, with exactly their calls |
| DensePoll.TCPServer.PollPass | Cpp_WebPrograming/pollthread_tp.cpp:192-225 | every entry with events is handled by exactly the recorded calls, no entry names a newcomer, the tables agree exactly if they did and the listener had no error event; a client left to the pool is closed in the pass exactly if it had one |
| DensePoll.RunPollLoop | Cpp_WebPrograming/pollthread_tp.cpp:174-227 | every round asks poll for the data of every client of that moment and handles every answer, until the flag is found cleared; after any number of rounds the tables agree exactly if the listener never had an error event |
| RoundRobin.DivisorIsFair | Cpp_WebPrograming/multithread_reactor.cpp:107-111 | loads differ by at most one after any number of dispatches from any counter value, across both seams |
| RoundRobin.FairIff | Cpp_WebPrograming/multithread_reactor.cpp:107-111 | that holds for exactly the numbers of reactors that divide 2^32 |
| RoundRobin.FreshIndex | Cpp_WebPrograming/multithread_reactor.cpp:90-111 | connection k of a fresh pool goes to reactor k modulo n until the counter overflows |
| RoundRobin.ReactorThreadPool.constructor | Cpp_WebPrograming/multithread_reactor.cpp:90-104 | at least one sub-reactor, counter zero |
| RoundRobin.ReactorThreadPool.GetNextSubReactor | Cpp_WebPrograming/multithread_reactor.cpp:107-111 | the counter as a 64-bit unsigned number modulo the number of reactors, always in bounds; null only for an empty pool |
| RoundRobin.ReactorThreadPool.HandleAccept | Cpp_WebPrograming/multithread_reactor.cpp:173-185 | the loads after any number of connections; even for a fresh pool whose size divides 2^32 |

## Left out

- PoolTheorems.NoLostSignal: one thread waits on `end_cv` at a time, as in the repository; `notify_one` would not wake two.
- PoolTheorems.LeftAloneItFinishes: steps of the pool once the destructor has returned are allowed, which in C++ use a dead object; tasks are assumed to end.
- ModMath.Calculator.QuickPower: negative exponents, for which the loop does not end, moduli below 1 and moduli above 3037000500 are excluded.
- SharedPtr.Memory.Construct: wrapping a raw pointer that a handle already holds is excluded; the counter is unbounded where `size_t` has 64 bits.
- Ownership.Run: programs that close a cycle are excluded; there a handle released inside its own pointee would be destroyed twice.
- Ownership.Memory.Release: clears the handle at once, where the source leaves a shared one as it is for its caller to overwrite; pointee and counter are one entry.
- RoundRobin.FairIff: the number of reactors is at most 2^31 - 1, the range of the `int` it comes from.
- SelectServer.TCPServer.SelectPass: descriptors are assumed to fit the `fd_set`.
- SelectServer.TCPServer.CloseAll: empties the client set as `selectretype.cpp` does; `select.cpp` leaves the closed numbers in it before it throws.
- PollServer.RunPollLoop: a cleared flag is noticed when it is read, which is the only way it has an effect; its true readings are not recorded.
- SelectServer.TCPServer.HandleClientIo: the pool's own sends are not steps of the server; `SystemCalls.ReplyReachesIff` speaks of them at any later moment.
- `unique_ptr`: single ownership without counting would only add easy members.
- Memory order: atomics are sequentially consistent, the default that the pool uses.
- `ThreadPoolRetype.cpp` and the pool copied into `selectthread_tp.cpp` are variants already covered.
- Socket setup, signal handlers, logging and console input and output.
- The thread-per-event servers and the epoll servers, whose state lives in detached threads and in the kernel; the lifetime of reactor connections.
- The inside of library code: `std::priority_queue` yields some element of greatest priority.
