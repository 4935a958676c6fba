# KoalaEms: verified models

Dafny models of the state machines at the heart of the KoalaEms data acquisition system, with
proofs of what they keep, deliver and preserve over whole runs.

| files | what they model |
|---|---|
| `Distributor`, `DistributorTurn`, `DistributorServes`, `DistributorRuns`, `DistributorLoop` | the daemon that reads length-framed clusters from one producer and shares each buffer, by reference count, among the idle consumers |
| `HandleTable`, `Broker`, `BrokerSteps`, `BrokerRuns`, `BrokerBeyond`, `BrokerAnswers`, `BrokerNotes`, `BrokerQueues`, `BrokerLoop` | the broker `commu`: clients open VEDs by name, share server objects by reference count, and are told, through a bounded queue each, when a server is ready or gone |
| `MessageList`, `MessageIo`, `MessageProgress`, `MessageIoLoop` | the broker's watermarked output queue on a growing and shrinking array, and its resumable framed reader and writer |
| `ClientLib`, `ClientLibLoop` | the client library's message queue and the registry of bodies handed to the caller |
| `Koala`, `KoalaFiles`, `KoalaLoop` | the KOALA event builder: parser, recycled event nodes, one queue per module, lockstep assembly |
| `ProcList`, `ProcListBuilder` | procedure lists: builder, test and interpreter |
| `Xdr`, `Buf`, `VedAddr`, `Fifo` | XDR strings (section 4.11 of RFC 4506), word buffers, VED addresses, the block-chained queue |
| `Util`, `ByteOrder`, `Memory` | sequences, byte order and words in memory |

Where the C++ changes state in place there is a class that does so too, with the same loops and
links (the `...Loop` modules, `ProcListBuilder`, `Buf`, `Xdr`, `Fifo`).  Each of its methods is proved equal to a
function on values, and the theorems about runs are lemmas about these functions.  What the
operating system decides (ready descriptors, bytes moved, errors, where malloc places a block, when
time is out) is an argument of a step, so that every theorem is about all of it.

Heap blocks whose ownership matters are an explicit map from addresses to contents, so that a double
free or a use after free violates a precondition.

## What the code does not do

Each of these is proved, with the exact condition and a concrete run or input.

- `server_ok` looks at a client's first handle on a server only.  A second handle on the same server
  waits on when the server becomes ready (`ReadyReachesFirstOnly`, `WaitingWasPassedOver`,
  `SecondHandleWaits`), also when the first is closed (`StillWaits`), and all but the first stay behind
  when a reconnection fails (`FailedReconnectStrands`, `HandleIsStranded`).  "Exactly one completion" is
  therefore about a client that never opens a server it already holds, whatever the others do; "at most
  one" holds for every client.
- A waiting handle whose server dies is told the server's error number, which is set only when reading
  fails while the server is being opened.  Every other death is told as 0, the code of success
  (`FailedWithZeroExactly`, `FailsWithZero`; commu/commu_station.cc:88, commu/commu_io_server.cc:186-192,
  commu/commu_client.cc:246).
- A completion for which the client's output queue has no room is deleted and nobody is told
  (`CompletionReachesIff`, `CompletionIsLost`).
- The routines that read a server's messages set `reading.status` after a message was handled, although
  that may have deleted the server (`WritesToDeletedExactly`, `CloseWritesToDeleted`).
- A new-format header that announces no further word makes the distributor write past its block
  (`OverrunExactly`, `SaneInputNeverOverruns`, `BareHeaderOverruns`).
- The queue's bound needs the low mark below the high mark (`OverflowsWithoutGap`).
- `ungetmessage` ignores what `delconfptr` says (`UngetKeepsExactly`, `PutBackTwice`).
- The waiting loop of `OpenVED` looks at the old head of the queue and at what arrives, never at an
  answer already queued behind another message (`OpenFindsExactly`, `QueuedAnswerIsMissed`).
- `test_proclist` compares as signed: a count or a procedure number with the sign bit set passes
  (`AcceptedStaysWithin`, `AcceptedProcsExist`, `NegativeCountIsAccepted`, `NegativeProcIsAccepted`).
- A carriage return in a VED address comes back as a line feed (`RereadExactly`, `NotReadBack`).

`dafny verify dfyconfig.toml` checks the project.

## Model

Functions on values have no row of their own; the rows of the methods proved equal to them and of the
lemmas about them say what they mean.

| member | source | states |
|---|---|---|
| `DistributorRuns.ConsumersGetWholeClusters` | events/event_distributor.c:204-305 | In every run, for every split of reads and writes, what a consumer has received is a selection of the clusters of the bytes that came in over all input connections, in arrival order, each whole and byte-identical, followed by exactly the first `position` bytes of the one it is draining |
| `DistributorRuns.ClustersAreTheInput` | events/event_distributor.c:204-275 | In every run the completed clusters are exactly the clusters of the bytes all input connections delivered, each connection split by its headers, and the reader holds the rest of the present one |
| `DistributorRuns.BuffersAreCounted` | events/event_distributor.c:174-184 | In every run each live buffer counts exactly the sockets that point at it, the buffer being filled has no user, nothing points at freed memory, no buffer leaks, and every block allocated was freed once or is live |
| `DistributorRuns.EveryClusterIsTaken` | events/event_distributor.c:586-611 | The "unused" branch is never reached: every completed cluster has a taker |
| `DistributorRuns.TurnDelivers` | events/event_distributor.c:466-612 | A turn that completes a cluster gives it, from its first byte, to exactly the sockets that are idle when its input is served, those idle at the head of the loop among them, and the buffer counts them; no other part of a turn completes a cluster |
| `DistributorRuns.Delivery` | events/event_distributor.c:586-611 | Serving the input, if that completes a cluster, gives it, from its first byte, to exactly the sockets that are idle by then, and the buffer counts them |
| `DistributorTurn.PolledInput` | events/event_distributor.c:492-521 | The input is served only after it was polled because a socket was idle, and that very socket is still there and idle when its turn comes, after writes, deletions, connections and accepts |
| `DistributorTurn.WriteLoopServes` | events/event_distributor.c:537-544 | The loop that deletes sockets while it runs serves each writable socket of the list exactly once and drops exactly the failed ones, in order |
| `DistributorRuns.ChunkingDoesNotMatter` | events/event_distributor.c:204-275 | Two runs whose input connections delivered the same bytes completed the same clusters from them, hold the same rest and overrun alike, however the bytes were cut into reads |
| `Distributor.SplitUnique` | events/event_distributor.c:204-275 | A byte stream splits into announced clusters and a partial one in only one way |
| `Distributor.StreamSplits` | events/event_distributor.c:204-275 | Every byte stream is whole clusters followed by a proper part of one |
| `DistributorRuns.OverrunExactly` | events/event_distributor.c:204-275 | In every run the header copy has left its block exactly if the present connection brought whole clusters and then a new-format header that announces no further word |
| `DistributorRuns.SaneInputNeverOverruns` | events/event_distributor.c:204-275 | The overrun never happens on input whose headers all announce a further word, wherever it is cut off |
| `DistributorRuns.BareHeaderOverruns` | events/event_distributor.c:204-275 | A concrete run of two turns that overruns: a consumer joins and eight bytes arrive |
| `Distributor.KeepDoRead` | events/event_distributor.c:204-275 | do_read keeps reader, counts, stream and consumers consistent in every outcome, the failing ones included |
| `Distributor.KeepReadBody` | events/event_distributor.c:204-275 | A read into the body keeps the invariant, and `valid` is set exactly at the end of the cluster |
| `Distributor.KeepStart` | events/event_distributor.c:186-202 | Allocating the buffer of a cluster and moving its header in keeps the invariant unless the header overruns the block |
| `Distributor.KeepWrite` | events/event_distributor.c:277-305 | do_write keeps the invariant; the last user of a buffer frees it |
| `Distributor.KeepDelete` | events/event_distributor.c:429-442 | Removing a socket releases its buffer and keeps the counts of all others |
| `Distributor.KeepHandOver` | events/event_distributor.c:598-609 | The hand-over of a cluster keeps the invariant, with at least one taker |
| `Distributor.KeepClear` | events/event_distributor.c:174-184 | Dropping the input, complete or not, frees its buffer exactly if nobody uses it and keeps the invariant |
| `DistributorTurn.KeepServeConnection` | events/event_distributor.c:546-576 | Replacing, refusing or failing input connections keeps the invariant |
| `DistributorTurn.KeepAcceptOut` | events/event_distributor.c:392-427 | A new consumer, if one is accepted, comes last in the list, idle and with nothing taken or sent; the invariant holds, which includes distinct descriptors |
| `DistributorTurn.KeepServeInput` | events/event_distributor.c:586-611 | Serving the input keeps the invariant |
| `Distributor.PendingPartial` | events/event_distributor.c:204-275 | What the reader holds is never more than a proper part of a cluster |
| `DistributorServes.InputIsServed` | events/event_distributor.c:204-275 | Serving the input ends the connection exactly if the read brings nothing or fails (for a header also if it would block), the completed header is none or finds no memory, or the body read behind it brings nothing or fails; otherwise exactly the bytes the kernel moved are pending now, or the cluster they complete is recorded; it overruns exactly for a header that announces less than itself |
| `DistributorServes.TurnIsServed` | events/event_distributor.c:466-612 | A whole turn, in terms of the answers of the environment: which consumers are written to, dropped or joined, which input or pending connection comes, ends or is asked for, and exactly when the input is served |
| `DistributorServes.ReadServed` | events/event_distributor.c:204-275 | do_read takes exactly the bytes moved and answers -1 exactly in these cases |
| `DistributorServes.AnnouncesNew` | events/event_distributor.c:239-248 | A new-format header announces one word more than the sender counted, for senders and hosts of both byte orders |
| `DistributorServes.AnnouncesNothing` | events/event_distributor.c:239-246 | And only eight bytes with the mark in one of the two orders are one |
| `DistributorServes.AnnouncesOld` | events/event_distributor.c:224-237 | An old-format header announces the sender's count exactly if the setting is right for the two byte orders, or the check of the upper half decides right |
| `DistributorServes.SmallCountsAreChecked` | events/event_distributor.c:226-230 | With the check, counts below 2^16 are understood from senders of both byte orders |
| `DistributorLoop.Daemon.constructor` | events/event_distributor.c:444-465 | The daemon starts without consumers, clusters or blocks |
| `DistributorLoop.Daemon.FreeBuffer` | events/event_distributor.c:174-184 | A live block is freed and the call recorded |
| `DistributorLoop.Daemon.ClearNewEvent` | events/event_distributor.c:174-184 | The new state is the one the state machine drops its input to |
| `DistributorLoop.Daemon.DropUser` | events/event_distributor.c:297-304 | One user leaves; the block goes with the last one |
| `DistributorLoop.Daemon.ReadBody` | events/event_distributor.c:258-274 | Reads into the body as the state machine does, with its answer for every kernel outcome |
| `DistributorLoop.Daemon.StartCluster` | events/event_distributor.c:186-202 | Allocates for the announced size and moves the header, or refuses, as the state machine does |
| `DistributorLoop.Daemon.DoRead` | events/event_distributor.c:204-275 | do_read on the fields does exactly the state machine's read, with the same answer |
| `DistributorLoop.Daemon.DoWrite` | events/event_distributor.c:277-305 | do_write on the fields does exactly the state machine's write, with the same answer |
| `DistributorLoop.Daemon.DeleteOutsock` | events/event_distributor.c:429-442 | The shifting loop removes exactly this socket and keeps the order of the others |
| `DistributorLoop.Daemon.WriteSockets` | events/event_distributor.c:537-544 | The loop with its decremented index does what the state machine's recursion does and keeps the invariant |
| `DistributorLoop.Daemon.AcceptOutsock` | events/event_distributor.c:392-427 | Appends an idle socket, or none if accept or malloc fails |
| `DistributorLoop.Daemon.AcceptInsock` | events/event_distributor.c:546-576 | Input connections in all three modes as in the state machine |
| `DistributorLoop.Daemon.TakeCluster` | events/event_distributor.c:599-605 | Exactly the idle sockets now point at the cluster from position 0, and its users grew by their number |
| `DistributorLoop.Daemon.HandOver` | events/event_distributor.c:598-609 | Hands the cluster over as the state machine does |
| `DistributorLoop.Daemon.ServeInput` | events/event_distributor.c:586-611 | Serves the input as the state machine does |
| `DistributorLoop.Daemon.PollSockets` | events/event_distributor.c:492-505 | Exactly the busy sockets are polled for writing; data is needed exactly if a socket is idle |
| `DistributorLoop.Daemon.Poll` | events/event_distributor.c:480-521 | The descriptor sets are exactly those the state machine polls, after the connection request it makes |
| `DistributorLoop.Daemon.ServeReady` | events/event_distributor.c:536-611 | After select, does what the state machine does |
| `DistributorLoop.Daemon.Turn` | events/event_distributor.c:466-612 | One turn of main_loop is one step of the state machine, and keeps what every loop head promises |
| `DistributorLoop.Daemon.MainLoop` | events/event_distributor.c:444-613 | For any answers of the environment main_loop ends in the state machine's run, so the run theorems are about it |
| `HandleTable.GrantOk` | commu/commu_client.cc:461-472 | Handing out a handle keeps handles distinct and every handle's books balanced: promised and completed, open, or closed |
| `HandleTable.FreeOk` | commu/commu_client.cc:212-259 | Taking a handle away with its note keeps the books of all handles balanced |
| `HandleTable.SetReadyOk` | commu/commu_client.cc:159-209 | Making a waiting handle valid with its completion keeps the books balanced |
| `HandleTable.FindFree` | commu/commu_server.cc:431-440 | Freeing a handle removes this handle and no other |
| `HandleTable.FindSetValid` | commu/commu_server.cc:457-469 | Setting one handle valid changes no other |
| `HandleTable.FindSnoc` | commu/commu_server.cc:425-429 | A new handle is found; all others as before |
| `HandleTable.HandlesAfter` | commu/commu_server.cc:431-469 | Freeing lowers the count of handles on exactly that handle's server by one; validity changes no count |
| `BrokerSteps.KeepStep` | commu/commu_io_server.cc:160-829 | Every event keeps: reference counts equal handles, a server without handles waits for its Close confirmation, valid handles name live ready servers, every client's books balance, identifiers and names are unique, only handle holders get unsolicited messages |
| `BrokerSteps.KeepOpen` | commu/commu_client.cc:403-501 | Opening by name, found or new, remote or built in, answered or refused, keeps the invariant |
| `BrokerSteps.KeepClose` | commu/commu_client.cc:506-555 | Closing a handle keeps the invariant, also when the server goes away |
| `Broker.KeepRelease` | commu/commu_io_server.cc:413-440 | Letting go of one handle keeps the invariant in all three outcomes: still used, deleted, or disconnecting |
| `Broker.KeepDelete` | commu/commu_server.cc:53-75 | Deleting a server leaves no client a handle on it, the counts of all others right and the books balanced |
| `Broker.KeepOpenFailed` | commu/commu_io_server.cc:634-741 | A failed connect, open or initiate keeps the invariant |
| `BrokerSteps.KeepInitiated` | commu/commu_io_server.cc:680-741 | A server becoming ready keeps the invariant; its list then has those who were on it and those who want unsolicited messages and hold a handle on it, and nobody else |
| `BrokerSteps.KeepCloseConfirmed` | commu/commu_io_server.cc:744-829 | The answer to Close, with or without reconnection, keeps the invariant |
| `BrokerSteps.KeepLeave` | commu/commu_client.cc:65-103 | The death of a client releases all its handles and keeps the invariant |
| `BrokerSteps.KeepSetUnsol` | commu/commu_client.cc:672-729 | Subscribing or unsubscribing keeps the invariant |
| `BrokerSteps.KeepForward` | commu/commu_io_server.cc:502-555 | Forwarding an unsolicited message keeps the invariant |
| `BrokerSteps.ForwardReachesExactly` | commu/commu_io_server.cc:502-530 | An unsolicited message reaches each client on the list once, under its first handle on the server; nobody else gets it and nothing else changes |
| `BrokerSteps.KeepJoin` | commu/commu_client.cc:55-62 | A new client keeps the invariant |
| `BrokerSteps.KeepServerStep` | commu/commu_io_server.cc:160-410 | Every server event, in every status, keeps the invariant |
| `Broker.OkClientKeeps` | commu/commu_client.cc:159-209 | server_ok for one client touches only its first handle on that server and keeps its books |
| `Broker.DiedClientKeeps` | commu/commu_client.cc:212-259 | server_died for one client takes away all its handles on that server, no others, and keeps its books |
| `BrokerSteps.UnsolAfterOkIs` | commu/commu_client.cc:159-209 | After server_ok the list has, each once, the clients that were on it and those that want unsolicited messages and whose first handle has just become valid, and nobody else |
| `BrokerSteps.SubscribesExactly` | commu/commu_client.cc:159-209 | If no handle on the server was valid before, these are the clients that want the messages and hold a handle |
| `Broker.SetUnsolIs` | commu/commu_server.cc:119-135 | setunsol adds or removes exactly this client, without duplicates |
| `BrokerRuns.RefcountIsHandles` | commu/commu_server.cc:94-115 | In every run a live server's reference count is the number of handles all clients hold on it, and one without handles is waiting for its Close confirmation |
| `BrokerRuns.ValidIffReady` | commu/commu_client.cc:159-209 | As long as a client itself never opens a server on which it holds a handle, whatever the others do, each of its handles names a live server and is valid exactly when that server is ready |
| `BrokerRuns.ValidIsReady` | commu/commu_client.cc:159-209 | In every run a valid handle's server is alive and ready |
| `BrokerRuns.ExactlyOneCompletion` | commu/commu_client.cc:159-259 | As long as a client itself never opens a server on which it holds a handle, its OpenVED answered "in progress" has got exactly one completion, unless it closed the handle first or the server is alive and not ready yet |
| `BrokerRuns.AtMostOneCompletion` | commu/commu_client.cc:159-259 | In every run each handle is promised a completion at most once, gets at most that one, and after the promise |
| `BrokerRuns.UnsolReachesHandle` | commu/commu_io_server.cc:502-555 | Whoever is on a server's list is connected and gets the message under a handle of its own |
| `BrokerBeyond.ReadyReachesFirstOnly` | commu/commu_client.cc:159-209 | When a server becomes ready, a waiting handle becomes valid exactly if it is the client's first on that server |
| `BrokerBeyond.WaitingWasPassedOver` | commu/commu_client.cc:159-209 | In every run, a handle that waits on a ready server was waiting behind another handle of its client at the event that made the server ready; no other event makes one wait |
| `BrokerBeyond.SecondHandleWaits` | commu/commu_client.cc:166-209 | A concrete run: a client opens a server twice, the server becomes ready, and the second handle waits on |
| `BrokerBeyond.StillWaits` | commu/commu_client.cc:166-209 | The client then closes the first handle: the second stands alone and still waits |
| `BrokerBeyond.FailedReconnectStrands` | commu/commu_io_server.cc:744-829 | After a failed reconnection a client keeps handles on the dead server exactly if it had more than one, namely all but the first |
| `BrokerBeyond.HandleIsStranded` | commu/commu_io_server.cc:768-829 | A concrete run: close, two opens before the confirmation, and a reconnection that fails leave a handle on a server that is gone |
| `BrokerBeyond.WritesToDeletedExactly` | commu/commu_io_server.cc:176-262 | After handling a message the read routines set a field of the server object: it is deleted by then exactly after a refusal of Open or Initiate and after the answer to Close, unless the server connects again |
| `BrokerBeyond.CloseWritesToDeleted` | commu/commu_io_server.cc:744-758 | A concrete run: an ordinary close ends with a write to the deleted object |
| `BrokerBeyond.DeathIsToldToEveryHandle` | commu/commu_client.cc:212-259 | Any other death is told once to every handle of a client, in table order, and leaves none behind |
| `BrokerRuns.RunInv` | commu/commu_io_server.cc:160-829 | The invariant holds in every run |
| `BrokerRuns.RunStrong` | commu/commu_client.cc:403-555 | As long as this client never opens a server on which it holds a handle: it has at most one per server, each on a live server and valid if that is ready |
| `BrokerRuns.StrongStep` | commu/commu_client.cc:403-555 | One event keeps this for one client if it is not a second opening by that client |
| `BrokerNotes.CompletionsAreCaused` | commu/commu_client.cc:159-259 | In every run the completions sent to a client are exactly those that some event since it joined caused: Ready to its first handle when the server answers Initiate, Failed to a waiting handle by a refusal or a death, with the code that goes with the event |
| `BrokerNotes.ReadyExactly` | commu/commu_client.cc:159-209 | In every run a handle's completion is Ready exactly if its server became ready while it waited as the client's first handle on it |
| `BrokerNotes.ReadyIffBecameReady` | commu/commu_client.cc:159-209 | As long as a client itself never opens a server on which it holds a handle: exactly if its server became ready while it waited |
| `BrokerNotes.CompletionsAre` | commu/commu_client.cc:159-259 | A completion counted is Ready or Failed for that handle, and these are counted |
| `BrokerNotes.FailedWithZeroExactly` | commu/commu_client.cc:212-250 | In every run a handle was told Failed with code 0 exactly if, while it waited, writing to its server failed, or reading in any status but opening or with error 0, or the server was refused and it was not the client's first handle |
| `BrokerNotes.FailsWithZero` | commu/commu_client.cc:239-250 | A concrete run: the write of the Open message fails, and the client is told 0, the code of success |
| `BrokerNotes.StepTells` | commu/commu_io_server.cc:160-829 | One event adds exactly the completions it causes, to every client, and takes all from one that leaves |
| `BrokerNotes.MadeReadyIs` | commu/commu_io_server.cc:680-741 | A server with a waiting handle becomes ready by its answer to Initiate and in no other way |
| `BrokerNotes.RunNoErr` | commu/commu_io_server.cc:176-197 | In every run no server in the list has an error number: one is set only by the event that deletes the server |
| `BrokerNotes.OpenFailedTells` | commu/commu_io_server.cc:269-328 | A refusal tells each client's first handle its code and the others 0, and nothing to anyone else |
| `BrokerNotes.DeleteTells` | commu/commu_server.cc:53-75 | Deleting a server tells each waiting handle on it the server's error number, and nobody else a completion |
| `BrokerNotes.DeathTells` | commu/commu_client.cc:212-259 | server_died tells exactly the waiting handles on this server that they failed |
| `BrokerNotes.AnswerTells` | commu/commu_client.cc:159-209 | server_ok, when no handle is valid, tells exactly the first handle on this server |
| `BrokerNotes.LeaveKeepsOthers` | commu/commu_client.cc:65-103 | A client that leaves, releasing all its handles, changes no other client |
| `BrokerQueues.CompletionReachesIff` | commu/commu_station.cc:240-268 | In every run of turns, foreign messages and writes, a completion put into a client's queue has been written or is still queued exactly if the queue had room when it was put; it is put once |
| `BrokerQueues.SentIsPut` | commu/commu_station.cc:240-268 | The notes put into a client's queue are those the broker sends it |
| `BrokerQueues.PutsAreInbox` | commu/commu_station.cc:240-268 | In every run the notes put into a client's queue since it joined are its inbox, in order |
| `BrokerQueues.CompletionIsLost` | commu/commu_station.cc:240-268 | For any two marks a concrete run: the queue is full when the server becomes ready, the handle is valid and the completion is deleted |
| `BrokerQueues.AcceptedExactly` | commu/commu_message.cc:68-89 | A message is among those accepted exactly if some put of it found room |
| `BrokerQueues.StepGrows` | commu/commu_client.cc:159-259 | An event only adds to the inbox of a client that stays |
| `BrokerAnswers.OpensExisting` | commu/commu_client.cc:423-472 | OpenVED of a server that is there: the client has one more handle, valid and answered OK exactly if the server is ready, the server counts one more and lists the client if it wants that; nothing else changes |
| `BrokerAnswers.OpensNew` | commu/commu_client.cc:427-472 | OpenVED of another name: a new server with the next identifier, built in for the three names and connecting otherwise, or the exception's code and no server |
| `BrokerAnswers.ClosesHandle` | commu/commu_client.cc:506-555 | CloseVED of a handle on a live server takes exactly this handle, answers OK, and the server loses one: counted down, disconnecting or gone |
| `BrokerAnswers.ClosesNothing` | commu/commu_client.cc:506-555 | CloseVED of any other number changes nothing and says so |
| `BrokerAnswers.SubscribesHandle` | commu/commu_client.cc:672-729 | SetUnsolicited puts the client on the list for 1, asks for -1 and takes it off otherwise; nothing else changes |
| `BrokerAnswers.SubscribesNothing` | commu/commu_client.cc:672-729 | Without such a handle it changes nothing and says so |
| `BrokerAnswers.Joins` | commu/commu_client.cc:55-62 | A new client has no handles and no messages; a known one is not replaced |
| `BrokerAnswers.Leaves` | commu/commu_client.cc:65-103 | A client that leaves is gone, and every server has lost as many handles as it had: untouched, counted down, disconnecting or gone |
| `BrokerAnswers.StrangersChangeNothing` | commu/commu_client.cc:960-973 | Requests of unknown clients change nothing |
| `BrokerAnswers.ClientsAreTold` | commu/commu_io_server.cc:160-829 | What every event of a remote server makes of every client, in every status of the server: which handles become valid or go, and each message in order |
| `BrokerAnswers.ServerMoves` | commu/commu_io_server.cc:160-829 | What it makes of the server: its next status, or exactly when it is deleted, and who is on its list; no other server changes |
| `BrokerAnswers.OthersChangeNothing` | commu/commu_io_server.cc:160-410 | Events of built-in servers and of servers that are gone change nothing |
| `BrokerAnswers.UnsolReachesExactly` | commu/commu_io_server.cc:502-530 | In every run a message of a ready server adds to each client on its list exactly one message under its first handle, and does nothing else; if the server is not ready it does nothing |
| `BrokerLoop.FindLocal` | commu/commu_server.cc:443-455 | The lookup loop finds the first entry with this local number |
| `BrokerLoop.FindGlobal` | commu/commu_server.cc:482-490 | The lookup loop finds the first entry for this server |
| `BrokerLoop.LocalOf` | commu/commu_server.cc:482-490 | The first local handle on a server, or -1 |
| `BrokerLoop.GlobalOf` | commu/commu_server.cc:471-480 | The server of a handle, or -1 |
| `BrokerLoop.Freed` | commu/commu_server.cc:431-440 | The table without this handle |
| `BrokerLoop.Commu.constructor` | commu/commu_server.cc:243-253 | The broker starts without servers and clients |
| `BrokerLoop.Commu.FindServer` | commu/commu_server.cc:401-420 | The first server with this identifier |
| `BrokerLoop.Commu.FindServerByName` | commu/commu_server.cc:308-328 | The first server with this name |
| `BrokerLoop.Commu.FindClient` | commu/commu_client.cc:960-973 | The first client with this identifier |
| `BrokerLoop.Commu.SetUnsol` | commu/commu_server.cc:119-135 | The list changes as the state machine's does |
| `BrokerLoop.Commu.ServerOk` | commu/commu_client.cc:159-209 | One client's table and inbox change as the state machine's; true exactly if it is to be subscribed |
| `BrokerLoop.Commu.ServerDied` | commu/commu_client.cc:212-259 | The loop over the handles ends in the state machine's client |
| `BrokerLoop.Commu.DeleteServer` | commu/commu_server.cc:53-75 | All clients are told and the server is gone, as in the state machine |
| `BrokerLoop.Commu.TellAllFailed` | commu/commu_io_server.cc:269-328 | Every client is told of the failure |
| `BrokerLoop.Commu.OpenFailed` | commu/commu_io_server.cc:634-741 | As the state machine's failed opening |
| `BrokerLoop.Commu.Initiated` | commu/commu_io_server.cc:680-741 | As the state machine's server becoming ready, loop over the clients included |
| `BrokerLoop.Commu.ReleaseServer` | commu/commu_io_server.cc:413-440 | As the state machine's removeclient, for remote and built-in servers |
| `BrokerLoop.Commu.ProceedOpenVed` | commu/commu_client.cc:403-501 | As the state machine's OpenVED, in every answer |
| `BrokerLoop.Commu.ProceedCloseVed` | commu/commu_client.cc:506-555 | As the state machine's CloseVED |
| `BrokerLoop.Commu.ProceedSetUnsolicited` | commu/commu_client.cc:672-729 | As the state machine's SetUnsolicited |
| `BrokerLoop.Commu.LeaveClient` | commu/commu_client.cc:65-103 | The destructor's loop over the handles ends in the state machine's state |
| `BrokerLoop.Commu.ProceedClose` | commu/commu_io_server.cc:744-829 | As the state machine's answer to Close |
| `BrokerLoop.Commu.ProceedUnsol` | commu/commu_io_server.cc:502-555 | As the state machine's forwarding |
| `BrokerLoop.Commu.ServerTurn` | commu/commu_io_server.cc:160-410 | One server event is one step of the state machine |
| `BrokerLoop.Commu.Turn` | commu/commu_io_server.cc:160-829 | One event is one step of the state machine |
| `BrokerLoop.MainLoop` | commu/commu_io_server.cc:160-829 | For any events the broker ends in the state machine's run, with its invariant, so the run theorems are about it |
| `MessageList.QueueInvariant` | commu/commu_message.cc:68-89 | With low < high the queue never exceeds the high mark in any run, and extracted plus queued messages are exactly the accepted ones in order |
| `MessageList.AcceptsExactly` | commu/commu_message.cc:68-89 | In every run the next message is accepted exactly if there is room: up to the low mark after a refusal that no acceptance has followed, up to the high mark otherwise |
| `MessageList.AcceptsAgainAtLowMark` | commu/commu_message.cc:68-89 | After a refusal the next message is accepted exactly when the queue has drained to the low mark |
| `MessageList.OverflowsWithoutGap` | commu/commu_message.cc:68-89 | Without that gap the bound is false: a run that ends with one message more than the high mark |
| `MessageList.RoomyFits` | commu/commu_list_t.cc:65-85 | The size an array shrinks to always holds its entries |
| `MessageList.List.constructor` | commu/commu_message.cc:61-66 | An empty, accepting list |
| `MessageList.List.Growlist` | commu/commu_list_t.cc:47-62 | Room for one more, the entries unchanged, one step of growth only when full |
| `MessageList.List.Shrinklist` | commu/commu_list_t.cc:65-85 | The entries unchanged; at most two steps of slack, never below one step, never growing |
| `MessageList.List.Insert` | commu/commu_list_t.cc:88-94 | Appends |
| `MessageList.List.CloseGap` | commu/commu_list_t.cc:106-118 | Removes exactly this index; capacity afterwards at most (n/g+2)*g |
| `MessageList.List.Remove` | commu/commu_list_t.cc:121-136 | Removes the first occurrence, and says whether there was one |
| `MessageList.List.ExtractFirst` | commu/commu_list_t.cc:174-184 | Takes the oldest entry; capacity afterwards at most (n/g+2)*g |
| `MessageList.List.AddMessage` | commu/commu_message.cc:68-89 | Accepts or refuses as the queue with the two marks |
| `MessageList.Station.AddMessage` | commu/commu_station.cc:240-268 | Queued or refused; a refused message is deleted exactly unless the caller keeps it; lost ones are counted while shown |
| `MessageList.Serve` | commu/commu_station.cc:240-268 | Any puts and takes on a new station with its array do what the run of the queue does |
| `MessageIo.ParseEncode` | commu/commu_io.cc:131-292 | Parsing undoes encoding for any list of messages, near or far, whatever follows |
| `MessageIo.EncodeParse` | commu/commu_io.cc:131-203 | What is parsed off any bytes is well formed and, encoded again with the rest, gives the bytes back |
| `MessageIo.ParseAppend` | commu/commu_io.cc:131-203 | What can be parsed off a prefix is parsed off the whole |
| `MessageIo.ReaderRefinesParse` | commu/commu_io.cc:131-203 | In every run of read calls, however the bytes are cut and also after the connection has ended, the resumable reader has delivered exactly what the parser finds in the bytes consumed; while it works it holds the rest |
| `MessageIo.ReaderDeliversWhatWasSent` | commu/commu_io.cc:131-203 | Fed with a part of encoded messages, in any run, it has delivered exactly those all of whose bytes it consumed |
| `MessageIo.WriterKeepsOrder` | commu/commu_io.cc:207-292 | In every run the extracted and then the queued messages are the first ones put in, in order; all of them until the connection ends |
| `MessageIo.KeepWriting` | commu/commu_io.cc:207-292 | Every call keeps: bytes written plus those still to be sent are the encoding of the extracted messages |
| `MessageIo.KeepReading` | commu/commu_io.cc:131-203 | Every call keeps the reader in step with the parser, the calls that end the connection too |
| `MessageIo.ReaderGetsWhatWriterSent` | commu/commu_io.cc:64-292 | End to end, both sides cut up in any way and ended at any point: the delivered messages are exactly those extracted ones all of whose bytes were consumed, equal in header and body and in the order put in; all of them once everything is written and read |
| `MessageIo.ReadCallMoves` | commu/commu_io.cc:131-203 | One call turns pending and read bytes into the message they encode, or keeps them pending; bytes left when it ends the connection are no message |
| `MessageIo.WriteCallMoves` | commu/commu_io.cc:207-292 | One call moves bytes from what remains to what is written, none lost or repeated |
| `MessageProgress.WriteCallExactly` | commu/commu_io.cc:207-292 | One call of a working writer, in terms of what is left and of the two answers: which bytes it sends, when the connection ends and with which status, when the message is finished; an idle one begins the first message of its queue |
| `MessageProgress.EverythingIsWritten` | commu/commu_io.cc:207-292 | From any run of a working writer, as many calls that take something as there are bytes left end idle, the queue empty and everything ever queued written |
| `MessageProgress.CallProgresses` | commu/commu_io.cc:207-292 | Such a call sends at least one byte while there is one, and changes nothing when there is none |
| `MessageProgress.ReadCallExactly` | commu/commu_io.cc:131-203 | One call of a working reader, in terms of the bytes it holds and of the two answers: which bytes it takes, when the connection ends and with which status, when a message is complete |
| `MessageProgress.ReadingGoesOn` | commu/commu_io.cc:131-203 | As long as the reads bring something the reader goes on and takes a byte a call at least, unless a body is announced that does not fit |
| `MessageProgress.LaidOut` | common/msg.h:25-32 | On the wire a message is size, client, VED, request type, flags and transaction number, then the body, each word in the order of the wire |
| `MessageIoLoop.PlainReads` | common/swap.c:34-40 | Converting received words on a far link gives the words sent, on hosts of both byte orders |
| `MessageIoLoop.PlainSends` | common/swap.c:34-40 | Memory converted for a far link holds the bytes to be sent |
| `MessageIoLoop.ReadAll` | commu/commu_io.cc:131-203 | Any calls of read_ on a new object are the reader's run, so the run theorems are about it |
| `MessageIoLoop.WriteTurn` | commu/commu_io.cc:207-292 | Queuing a message or calling write_ does what one turn of the writer does |
| `MessageIoLoop.WriteAll` | commu/commu_io.cc:207-292 | Any messages queued and any calls of write_ on a new object and list are the writer's run |
| `MessageIoLoop.Io.constructor` | commu/commu_io.cc:34-39 | Idle |
| `MessageIoLoop.Io.ReadIt` | commu/commu_io.cc:64-92 | One read at the cursor extends the bytes read by what came; the codes tell a closed and a broken socket |
| `MessageIoLoop.Io.Convert` | commu/commu_io.cc:160-160 | The words in memory become those that were sent |
| `MessageIoLoop.Io.ReadHeader` | commu/commu_io.cc:146-175 | The header case does what the reader does, for every second read |
| `MessageIoLoop.Io.ReadBody` | commu/commu_io.cc:177-195 | The body case does what the reader does |
| `MessageIoLoop.Io.ReadOn` | commu/commu_io.cc:146-195 | Header and, if it is complete, body in one call |
| `MessageIoLoop.Io.Read` | commu/commu_io.cc:131-203 | read_ on idx, size and the word arrays is one call of the reader |
| `MessageIoLoop.Io.WriteIt` | commu/commu_io.cc:96-127 | One write at the cursor sends exactly the next bytes |
| `MessageIoLoop.Io.WriteHeader` | commu/commu_io.cc:236-264 | The header case does what the writer does |
| `MessageIoLoop.Io.WriteBody` | commu/commu_io.cc:265-284 | The body case does what the writer does |
| `MessageIoLoop.Io.ToWire` | commu/commu_io.cc:228-232 | Converted memory stands for the words there were before |
| `MessageIoLoop.Io.Prepare` | commu/commu_io.cc:223-234 | The extracted message is in memory, converted for a far link |
| `MessageIoLoop.Io.WriteOn` | commu/commu_io.cc:236-284 | Header and, if it is written, body in one call |
| `MessageIoLoop.Io.Write` | commu/commu_io.cc:207-292 | write_ is one call of the writer, taking at most the first message of the list |
| `ClientLib.OneOwner` | clientlib/clientcommlib.c:81-173 | Under all interleavings of reading, getting, putting back and freeing, every live body is exactly once in the queue or the registry, nothing else is in either, and each was freed at most once |
| `ClientLib.UngetKeepsExactly` | clientlib/clientcommlib.c:666-697 | Putting a message back keeps that exactly if its body is null or one the caller was handed: ungetmessage ignores what delconfptr says |
| `ClientLib.PutBackTwice` | clientlib/clientcommlib.c:666-697 | A concrete run: a message put back twice is queued twice |
| `ClientLib.OpMoves` | clientlib/clientcommlib.c:162-778 | What reading, getting, putting back and freeing do with queue, registry and blocks, all of it |
| `ClientLib.OpAnswers` | clientlib/clientcommlib.c:519-778 | What they answer: 1, 0 or -1, and the first message that matches |
| `ClientLib.MatchesFields` | clientlib/clientcommlib.c:748-752 | A pattern leaves transaction, VED or request type open or demands its value |
| `ClientLib.KeepRead` | clientlib/clientcommlib.c:519-639 | Reading a message keeps the ownership, also when no list node can be had |
| `ClientLib.KeepTake` | clientlib/clientcommlib.c:701-778 | Taking any message moves its body from the queue to the registry |
| `ClientLib.KeepFree` | clientlib/clientcommlib.c:162-173 | Freeing a confirmation frees only what is registered |
| `ClientLib.KeepUnget` | clientlib/clientcommlib.c:666-697 | Putting back moves the body to the queue, or frees it without memory |
| `ClientLib.SpecialGetsFirst` | clientlib/clientcomm.c:211-264 | GetSpecialConfirmation returns the first queued message with the wanted transaction id, or else the first to arrive, and gives up only when nothing more can be read; all others stay queued, the old ones as they were, the newly read in front of them |
| `ClientLib.SpecialFindsExactly` | clientlib/clientcomm.c:211-264 | It finds one exactly if one is queued or among the messages that can be read |
| `ClientLib.SpecialRegisters` | clientlib/clientcomm.c:211-264 | It hands over the body of that message and no other, and keeps the ownership |
| `ClientLib.OpenConserves` | clientlib/clientcomm.c:748-770 | The waiting loop of OpenVED conserves every message that is not its answer: the old head and the newly read ones go to the tail in this order, the rest stays; it gives up only when nothing more can be read |
| `ClientLib.OpenKeepsMultiset` | clientlib/clientcomm.c:748-770 | As a multiset the queue only gains what arrived and loses what was found |
| `ClientLib.OpenFindsExactly` | clientlib/clientcomm.c:748-770 | It finds its answer exactly if that is the old head or among the messages that can be read: an answer queued behind another message is never looked at |
| `ClientLib.QueuedAnswerIsMissed` | clientlib/clientcomm.c:748-770 | A concrete run: the answer is read, then another message; the wait ends without it |
| `ClientLibLoop.Library.constructor` | clientlib/clientcommlib.c:37-62 | Empty queue and registry |
| `ClientLibLoop.Library.AddConfPtr` | clientlib/clientcommlib.c:81-117 | Appends to the doubly linked registry; next and prev stay consistent |
| `ClientLibLoop.Library.DelConfPtr` | clientlib/clientcommlib.c:121-158 | Takes the first entry with this body out, or says that there is none |
| `ClientLibLoop.Library.Unlink` | clientlib/clientcommlib.c:143-155 | Relinking takes exactly this node out, from front, middle or end |
| `ClientLibLoop.Library.BypassConf` | clientlib/clientcommlib.c:143-155 | The nodes around it, or the head, are linked to each other and no other link changes |
| `ClientLibLoop.Library.FreeBody` | clientlib/clientcommlib.c:172-172 | A live block is freed |
| `ClientLibLoop.Library.FreeConfirmation` | clientlib/clientcommlib.c:162-173 | Frees exactly registered bodies |
| `ClientLibLoop.Library.ReadMessage` | clientlib/clientcommlib.c:613-639 | The new message is the head, or the answer is 0 or -1 and nothing is kept |
| `ClientLibLoop.Library.Push` | clientlib/clientcommlib.c:621-639 | The new node is the head of the chain |
| `ClientLibLoop.Library.UngetMessage` | clientlib/clientcommlib.c:666-697 | As the operation of the model, by relinking |
| `ClientLibLoop.Library.Append` | clientlib/clientcommlib.c:685-694 | The walk to the last node appends |
| `ClientLibLoop.Library.GetMessage` | clientlib/clientcommlib.c:701-725 | The head leaves the queue and its body is registered |
| `ClientLibLoop.Library.GetSpecialMessage` | clientlib/clientcommlib.c:729-778 | The first match leaves the queue and its body is registered; no match changes nothing |
| `ClientLibLoop.Library.UnlinkMsg` | clientlib/clientcommlib.c:765-773 | The walk to the node before takes exactly this node out |
| `ClientLibLoop.Library.Bypass` | clientlib/clientcommlib.c:765-773 | The walk finds the node before; only its link, or the head, changes |
| `ClientLibLoop.Library.GetSpecialConfirmation` | clientlib/clientcomm.c:211-264 | The waiting loop ends as the model's wait, for any reads |
| `ClientLibLoop.Library.GetExtraConfirmation` | clientlib/clientcomm.c:309-352 | The old head, or a message newly read |
| `ClientLibLoop.Library.AwaitOpened` | clientlib/clientcomm.c:748-770 | The waiting loop ends as the model's wait, for any reads |
| `ClientLibLoop.Step` | clientlib/clientcommlib.c:81-778 | One operation of a caller that puts back only what it was handed does what the model's does |
| `ClientLibLoop.Run` | clientlib/clientcommlib.c:81-778 | Any such operations on a new library are the model's run, so OneOwner is about it |
| `Koala.StoresClosedEvents` | events++/parse_koala.cc:541-658 | parse_mxdc32 stores, for any words, one event per footer that closes a header, of the right module, made of the words between only (first hit per channel for MTDC and MQDC, last otherwise; time stamp low 30 bits + 2^30 * extended stamp), whatever an interrupted event left behind |
| `Koala.DealsWithAll` | events++/parse_koala.cc:541-658 | With channels in range it deals with a whole subevent exactly if headers are of known modules and data, stamps and footers stand inside an event |
| `Koala.Lockstep` | events++/parse_koala.cc:679-767 | In every run the k-th koala event is made of the k-th stored event of every module; while there was no error there are as many as the module with the fewest stored events has |
| `Koala.EventCompletes` | events++/parse_koala.cc:679-728 | After a successful parse_event the number emitted is the minimum over the modules of events stored |
| `Koala.CollectsMin` | events++/parse_koala.cc:345-411 | The collecting loop ends, on the total queue length, with one module empty; it fails exactly if an emitted event was refused |
| `Koala.KeepDrop` | events++/parse_koala.cc:345-411 | One koala event keeps the lockstep |
| `Koala.DropShortens` | events++/parse_koala.cc:345-411 | Each further call finds shorter queues |
| `Koala.HitSnoc` | events++/parse_koala.cc:584-613 | A data word changes exactly the channel it names, in the way of its module |
| `Koala.FillBuilds` | events++/parse_koala.cc:584-613 | A data word makes the event of the words before it the event of the words with it |
| `Koala.KeepScan` | events++/parse_koala.cc:541-658 | One word keeps what is stored and what is being filled equal to what the words say |
| `Koala.KeepSubevent` | events++/parse_koala.cc:661-676 | Any subevent keeps the lockstep |
| `Koala.EventsComplete` | events++/parse_koala.cc:731-767 | parse_events keeps the lockstep and, without error, completes it |
| `KoalaFiles.FileEmits` | events++/parse_koala.cc:541-767 | From the words of a file to its koala events: if the options, counts, sizes and subevents are well formed, the file is parsed without error, the k-th koala event is made of the k-th event that the mxdc32 subevents close in each module, and there are as many as in the module with the fewest |
| `KoalaFiles.FileStores` | events++/parse_koala.cc:541-767 | Whatever file is parsed without error: its words are clusters of events of subevents, and every module has stored exactly the events that these close, in order and numbered from 1 |
| `KoalaFiles.ClusterStores` | events++/parse_koala.cc:731-767 | A successful parse_events has stored exactly what the cluster's subevents close |
| `KoalaFiles.EventStores` | events++/parse_koala.cc:679-728 | A successful parse_event has stored exactly what the event's subevents close, and what it emits carries the event's number and its last time and scaler, marked invalid if it has none |
| `KoalaFiles.EventParses` | events++/parse_koala.cc:679-728 | An event is parsed without error exactly if its subevents are of known kind, of their size and deal with known modules only inside events, unless a koala event is refused |
| `KoalaFiles.SubeventStores` | events++/parse_koala.cc:661-676 | A successful subevent of id 10 has stored what its words close up to a header of an unknown module; the others store nothing |
| `KoalaFiles.SubeventParses` | events++/parse_koala.cc:485-676 | When a subevent fails, for each id: a time of other than 2 or a scaler of other than 32 words, and module words that stand outside an event |
| `KoalaFiles.UsesKnown` | events++/parse_koala.cc:541-658 | The parser leaves a subevent without error exactly at the first header of an unknown module |
| `KoalaFiles.FileHasOnce` | events++/parse_koala.cc:679-767 | The words of a file determine its subevents |
| `KoalaFiles.EventCounts` | events++/parse_koala.cc:721-721 | A parsed event adds its count of subevents to the statistics |
| `KoalaFiles.ClusterCounts` | events++/parse_koala.cc:765-765 | A parsed cluster adds its count of events, a refused one none |
| `KoalaFiles.MarkWords` | events++/parse_koala.cc:548-551 | The two upper bits, and a header's id, give the kind of a word |
| `KoalaFiles.InnerWords` | events++/parse_koala.cc:571-573 | The eight bits below and the channel or stamp give the kind of the others |
| `KoalaFiles.StampIs` | events++/parse_koala.cc:641-645 | A stored time stamp is the footer's 30 bits and the extended stamp above them |
| `KoalaFiles.HitIs` | events++/parse_koala.cc:584-613 | A channel of a stored event holds the last data word for it in module 9, the first in 10 and 11, and 0 without one |
| `KoalaLoop.Depot.Get` | events++/parse_koala.cc:151-166 | Hands out the top of the chain, or a new node; the chain stays a chain |
| `KoalaLoop.Depot.Put` | events++/parse_koala.cc:172-182 | The node becomes the top of the chain |
| `KoalaLoop.Private.SetEvent` | events++/parse_koala.cc:584-627 | Only the open event changes |
| `KoalaLoop.Private.TakePrepared` | events++/parse_koala.cc:193-206 | The node is the prepared one, wiped |
| `KoalaLoop.Private.CountHeader` | events++/parse_koala.cc:564-568 | Only the statistics change |
| `KoalaLoop.Private.StoreEvent` | events++/parse_koala.cc:212-229 | The prepared node is the last of the queue; nodes as before |
| `KoalaLoop.Private.LinkLast` | events++/parse_koala.cc:220-228 | Appends one node to the chain |
| `KoalaLoop.Private.DropEvent` | events++/parse_koala.cc:234-249 | The first node leaves the queue; null exactly if it is empty |
| `KoalaLoop.Private.TakeFirst` | events++/parse_koala.cc:241-248 | Unlinks the first node; the rest is the chain |
| `KoalaLoop.Builder.OnePlace` | events++/parse_koala.cc:137-249 | At any time a node is in one place only: the depot, one module, or in hand |
| `KoalaLoop.Builder.OnceInPlace` | events++/parse_koala.cc:137-249 | Depot and queues never meet themselves, and a prepared event is not queued |
| `KoalaLoop.Builder.GetNode` | events++/parse_koala.cc:151-166 | A node comes into hand, from the depot or new; nothing else moves |
| `KoalaLoop.Builder.TakePrepared` | events++/parse_koala.cc:193-206 | The node in hand becomes the wiped prepared one of its module |
| `KoalaLoop.Builder.SetEvent` | events++/parse_koala.cc:584-627 | Only this module's open event changes |
| `KoalaLoop.Builder.PrepareEvent` | events++/parse_koala.cc:193-206 | The module has a wiped prepared event; no node is lost |
| `KoalaLoop.Builder.CountHeader` | events++/parse_koala.cc:564-568 | Only this module's statistics change |
| `KoalaLoop.Builder.StartEvent` | events++/parse_koala.cc:551-570 | A header does what the model says |
| `KoalaLoop.Builder.StoreEvent` | events++/parse_koala.cc:212-229 | A footer stores the open event; no node is lost |
| `KoalaLoop.Builder.ParseInside` | events++/parse_koala.cc:571-650 | One word inside an event does what the model says |
| `KoalaLoop.Builder.ParseWord` | events++/parse_koala.cc:548-654 | One word does what the model says, for every kind of word |
| `KoalaLoop.Builder.ParseMxdc32` | events++/parse_koala.cc:541-658 | The loop leaves modules and answer as the model for any words, and every node in its place |
| `KoalaLoop.Builder.PutNode` | events++/parse_koala.cc:137-143 | A node goes from hand to the depot |
| `KoalaLoop.Builder.DropEvent` | events++/parse_koala.cc:234-249 | The first event of a module comes into hand |
| `KoalaLoop.Builder.Survey` | events++/parse_koala.cc:351-358 | Says exactly whether all queues, and whether one, are empty |
| `KoalaLoop.Builder.TakeHeads` | events++/parse_koala.cc:392-395 | The first events of all modules, distinct, are in hand |
| `KoalaLoop.Builder.Recycle` | events++/parse_koala.cc:137-143 | The deleted koala event gives all its nodes back to the depot |
| `KoalaLoop.Builder.UseKoalaEvent` | events++/parse_koala.cc:390-398 | One more event is emitted, of the first events of all modules and the present event data |
| `KoalaLoop.Builder.CollectKoalaEvent` | events++/parse_koala.cc:345-411 | Does what the model says, and no node stays in hand |
| `KoalaLoop.Builder.CollectLoop` | events++/parse_koala.cc:723-727 | The do-while loop ends as the model's |
| `KoalaLoop.Builder.ParseSubevent` | events++/parse_koala.cc:661-676 | Does what the model says |
| `KoalaLoop.Builder.SubeventLoop` | events++/parse_koala.cc:700-715 | The loop over the subevents does what the model says |
| `KoalaLoop.Builder.ParseEvent` | events++/parse_koala.cc:679-728 | Does what the model says |
| `KoalaLoop.Builder.EventLoop` | events++/parse_koala.cc:747-759 | The loop over the events does what the model says |
| `KoalaLoop.Builder.ParseEvents` | events++/parse_koala.cc:731-767 | Does what the model says |
| `KoalaLoop.ParseFile` | events++/parse_koala.cc:731-767 | Any buffers given to a new builder, up to the first error, are the model's file, so Lockstep is about it |
| `ProcList.InterpretsEncoded` | commu/commu_local_server_i.cc:281-297 | Any list of calls in memory is interpreted as exactly these calls, in order, with their arguments; the first that fails ends it and its 1-based index is reported, all earlier ones executed |
| `ProcList.ExecuteIsMeant` | commu/commu_local_server_i.cc:281-297 | Execution from any point goes on to the first failing call |
| `ProcList.ScanProclist` | commu/commu_local_server_i.cc:281-297 | The pointer loop executes exactly the calls the words say |
| `ProcList.TestProclist` | commu/commu_local_server_i.cc:236-277 | The pointer loop tests exactly the calls the words say |
| `ProcList.AcceptsExactly` | commu/commu_local_server_i.cc:236-277 | The test accepts exactly lists of calls that name procedures, end within the length and pass their tests; otherwise it names the first that does not, and why |
| `ProcList.AcceptedStaysWithin` | commu/commu_local_server_i.cc:236-297 | All calls the interpreter comes to in a list accepted for a length lie within that length, arguments included, exactly if the count has no sign bit |
| `ProcList.AcceptedProcsExist` | commu/commu_local_server_i.cc:236-277 | An accepted call names a procedure there is exactly if its number has no sign bit |
| `ProcList.NegativeCountIsAccepted` | commu/commu_local_server_i.cc:244-246 | A list with a negative count is accepted unseen and its interpretation leaves the length |
| `ProcList.NegativeProcIsAccepted` | commu/commu_local_server_i.cc:248-256 | A list with a call of procedure -2^31 is accepted if what is called there answers 0 |
| `ProcList.EncodedIsAcceptedIff` | commu/commu_local_server_i.cc:236-277 | An encoded list within the length passed is accepted exactly if all its procedures exist and pass their tests |
| `ProcList.EncodedVerdict` | commu/commu_local_server_i.cc:236-277 | Whatever length is passed, an encoded list is rejected for its first call that names no procedure, ends behind the length or fails its test, in this order, with its index and the matching complaint; otherwise accepted |
| `ProcList.ReadsCalls` | commu/commu_local_server_i.cc:236-297 | Walking over encoded calls gives back these calls and ends behind them |
| `ProcListBuilder.CountedIs` | proclib/proc_plist.cc:115-118 | Filling in the last argument count makes the words the encoding of the calls |
| `ProcListBuilder.ParsAdded` | proclib/proc_plist.cc:178-295 | Words behind the list are parameters of the last call |
| `ProcListBuilder.ProcAdded` | proclib/proc_plist.cc:149-162 | A new procedure fixes the count of the one before and opens a call without parameters |
| `ProcListBuilder.EndedIs` | proclib/proc_plist.cc:113-118 | listend makes the words the encoding of the calls |
| `ProcListBuilder.Builder.constructor` | proclib/proc_plist.cc:41-59 | An empty list |
| `ProcListBuilder.Builder.Clear` | proclib/proc_plist.cc:84-89 | No calls |
| `ProcListBuilder.Builder.Growlist` | proclib/proc_plist.cc:93-109 | Room for the words, those written unchanged, also across reallocation |
| `ProcListBuilder.Builder.CountLast` | proclib/proc_plist.cc:152-155 | The argument count of the last call is right |
| `ProcListBuilder.Builder.Listend` | proclib/proc_plist.cc:113-118 | The list is the encoding of the calls |
| `ProcListBuilder.Builder.AddProc` | proclib/proc_plist.cc:149-162 | One more call without parameters |
| `ProcListBuilder.Builder.AddPars` | proclib/proc_plist.cc:178-295 | The last call has these parameters more; without a call an exception and no change |
| `ProcListBuilder.Builder.PutString` | proclib/proc_plist.cc:309-310 | The string's words stand behind the list |
| `ProcListBuilder.Builder.AddString` | proclib/proc_plist.cc:298-313 | The last call has the words of the XDR string more |
| `ProcListBuilder.Builder.GetList` | proclib/proc_plist.cc:338-354 | What is sent is the encoding of exactly the calls added |
| `ProcListBuilder.ScanList` | commu/commu_local_server_i.cc:281-297 | What the server executes of a built list is the calls added, in order, up to the first that fails, whatever lies in memory behind the list |
| `ProcListBuilder.BuildAndScan` | proclib/proc_plist.cc:149-354 | Calls added one after the other to a new list, each with its arguments, are executed as they are, up to the first that fails |
| `Xdr.ContentOfEncoded` | common/xdrstring.c:37-126 | A string comes back from its encoding, whatever follows, and the padding is zero |
| `Xdr.EncodedOfContent` | common/xdrstring.c:115-126 | Words with zero padding are the encoding of what is extracted from them |
| `Xdr.EncodedConcat` | common/xdrstring.c:77-106 | The encoding of a concatenation is the old one up to its last whole word, the new length, and the padded rest |
| `Xdr.KeepFirstBytes` | common/xdrstring.c:46-50 | The masks keep exactly the first one, two or three bytes in memory, on hosts of both byte orders |
| `Xdr.MaskedIsPadded` | common/xdrstring.c:46-50 | The mask leaves the string and zeros, for all four residues |
| `Xdr.Mask` | common/xdrstring.c:46-50 | Only the last word is masked |
| `Xdr.Finish` | common/xdrstring.c:46-52 | The copied string becomes its encoding in network order |
| `Xdr.CopyTo` | common/xdrstring.c:44-44 | Copies to a byte of a word and touches no word outside |
| `Xdr.OutString` | common/xdrstring.c:37-75 | outstring and outnstring write exactly the encoding, and return the next word |
| `Xdr.Reopen` | common/xdrstring.c:92-93 | An incomplete last word is in host order again, the characters in front |
| `Xdr.CopyBehind` | common/xdrstring.c:89-95 | The new characters stand right behind the old |
| `Xdr.Lengthen` | common/xdrstring.c:95-96 | And the length is that of both |
| `Xdr.AppendString` | common/xdrstring.c:77-106 | append_xdrstring on the encoding of a with b, or with its first n characters if n is positive, gives exactly the encoding of a+b, for all length residues and both byte orders |
| `Xdr.ExtractString` | common/xdrstring.c:115-126 | extractstring returns the content, restores the source words and returns the next word |
| `ByteOrder.SwapInvolution` | common/swap.c:34-40 | The conversion undoes itself |
| `ByteOrder.SwapStoresNetworkOrder` | common/swap.c:34-40 | A converted word lies in memory in network order, on any host |
| `ByteOrder.SwappedBytes` | common/swap.c:34-40 | A converted array lies in memory in network order |
| `ByteOrder.SwapReads` | common/swap.c:34-40 | Converting received words gives the words that were sent |
| `ByteOrder.SwapInPlace` | common/swap.c:34-40 | The loop converts exactly the words of its range |
| `ByteOrder.StoreIs` | common/swap.c:34-40 | Network order has the most significant byte first, the other the least |
| `ByteOrder.BytesAt` | common/swap.c:34-40 | The k-th word of an array lies in its k-th four bytes |
| `ByteOrder.LoadStore` | common/swap.c:34-40 | A word is what its bytes say |
| `ByteOrder.WordsOfBytes` | common/swap.c:34-40 | A host reads back the words it stored |
| `Memory.CopyIn` | common/xdrstring.c:44-44 | memcpy into a word array replaces exactly these bytes and leaves every word outside alone |
| `Memory.SetByte` | common/xdrstring.c:44-44 | Writing a byte of a word changes that byte of memory only |
| `Buf.TextExactly` | support/xdrstrdup.cc:38-50 | What is read of a string put out is the string exactly if it has neither NUL nor carriage return |
| `Buf.WrittenAtEnd` | support/outbuf.cc:70-104 | Putting at the end appends |
| `Buf.InBuf.constructor` | support/inbuf.cc:47-52 | Holds the words it was made of, the cursor at the first |
| `Buf.InBuf.GetInt` | support/inbuf.cc:150-155 | The word at the cursor, or an exception at the end |
| `Buf.InBuf.GetString` | support/inbuf.cc:283-296 | The string at the cursor; the cursor moves before the exception; the words are unchanged |
| `Buf.OutBuf.constructor` | support/buf.cc:38-50 | Empty |
| `Buf.OutBuf.Grow` | support/buf.cc:62-78 | Room for the index and the contents unchanged, whatever initial size and increment |
| `Buf.OutBuf.Index` | support/buf.cc:165-171 | Moves the cursor, contents unchanged |
| `Buf.OutBuf.Size` | support/buf.cc:82-89 | Cuts the contents; an exception if they would grow |
| `Buf.OutBuf.PutInt` | support/outbuf.cc:70-104 | The word is at the cursor, all else as before |
| `Buf.OutBuf.PutString` | support/outbuf.cc:163-192 | The encoding of the C string is at the cursor, all else as before |
| `VedAddr.AddrBack` | commu/ved_addr.cc:439-459 | The words of any address, whatever stands around them, are read as the address with its strings as text, and exactly they are consumed |
| `VedAddr.RereadExactly` | commu/ved_addr.cc:91-459 | That is the same address exactly if its strings have neither NUL nor carriage return |
| `VedAddr.NotReadBack` | commu/ved_addr.cc:91-94 | A concrete address with a carriage return and one with a NUL, and what they become |
| `VedAddr.CutOffIsReported` | commu/ved_addr.cc:439-459 | The words of an address cut off anywhere are not taken for an address |
| `VedAddr.OtherTagsAreNamed` | commu/ved_addr.cc:439-459 | A tag that is none is reported with its value |
| `VedAddr.PrintAndExtract` | commu/ved_addr.cc:117-459 | Printing behind anything in a buffer and extracting from there gives the same address for strings without NUL and carriage return |
| `VedAddr.PrintAndExtractAll` | commu/ved_addr.cc:117-459 | Any addresses printed one behind the other are extracted one after the other, each as its text |
| `VedAddr.OutVedAddr` | commu/ved_addr.cc:56-399 | Every kind of address is put at the cursor in its words, all else in the buffer as before |
| `VedAddr.PutHost` | commu/ved_addr.cc:242-245 | Host name and port stand behind the tag |
| `VedAddr.PutPathes` | commu/ved_addr.cc:320-326 | The pathes stand one behind the other |
| `VedAddr.ExtractVedAddr` | commu/ved_addr.cc:439-459 | Reads what the words say, with its exceptions, and leaves the words alone |
| `VedAddr.GetHost` | commu/ved_addr.cc:216-219 | Host name and port, and pathes if there are to be, or the exception |
| `VedAddr.GetPathes` | commu/ved_addr.cc:281-293 | As many pathes as announced, in order, or the exception |
| `VedAddr.WrittenTwice` | support/outbuf.cc:70-192 | Two writings one behind the other are one writing |
| `VedAddr.PathesBack` | commu/ved_addr.cc:281-293 | The pathes printed are the pathes read |
| `VedAddr.StringBack` | support/inbuf.cc:283-296 | A string printed is the text read, and exactly its words are consumed |
| `Fifo.Run` | support/fifo.cc:24-109 | Any puts, drops and getdrops on a new queue of blocks are the same on a plain sequence |
| `Fifo.QueueIsTail` | support/fifo.cc:24-109 | In every run the queue holds the last values put in, in order |
| `Fifo.Fblock.constructor` | support/fifo.hxx:17-17 | An empty block |
| `Fifo.Fblock.Clear` | support/fifo.cc:122-126 | Empty again |
| `Fifo.Fblock.Drop` | support/fifo.cc:155-162 | Without its first word |
| `Fifo.Fblock.Put` | support/fifo.cc:164-167 | With one word more |
| `Fifo.Fifo.constructor` | support/fifo.hxx:37-37 | An empty queue |
| `Fifo.Fifo.EmptyIs` | support/fifo.cc:24-27 | empty() says exactly whether the queue holds nothing |
| `Fifo.Fifo.Get` | support/fifo.cc:39-45 | The oldest value, or 17 |
| `Fifo.Fifo.Put` | support/fifo.cc:94-109 | Appends, with or without a new block; non-last blocks stay filled to the end |
| `Fifo.Fifo.AddBlock` | support/fifo.cc:96-107 | A new block at the end changes no value |
| `Fifo.Fifo.PutLast` | support/fifo.cc:108-108 | The last block takes the value |
| `Fifo.Fifo.DropFirst` | support/fifo.cc:80-89 | The oldest value is gone; an emptied block is cleared if alone and unlinked otherwise |
| `Fifo.Fifo.Drop` | support/fifo.cc:47-65 | The oldest value is gone; nothing happens to an empty queue |
| `Fifo.Fifo.GetDrop` | support/fifo.cc:67-92 | Returns and removes the oldest value; an empty queue ends the program |

## Left out

- Sockets, select, files, signals, clocks: inputs of the steps.  Logging, policies, name databases and set-up: they decide nothing here.
- DistributorRuns.OverrunExactly: what happens after the overrun is not modelled; all run theorems are about runs without it.
- In the distributor, a "new" descriptor or block the environment offers although it is in use counts as a failed call; the pace of connection requests (one a minute) is left to the environment; no claim is made about the capacity of the socket array, as `max_socks` is never raised.  Consumers are records in a sequence rather than separately allocated blocks.
- BrokerRuns.ExactlyOneCompletion: for a client that holds at most one handle per VED; beyond that it is false, see above.  Client identifiers are distinct.  A client's `last_local_id` is not initialised by its constructor and is taken to start at any natural number.  A note counts as sent when it is handed to the client's station; what a full output queue refuses is the subject of `BrokerQueues`.
- In the broker, servers and clients are records in lists, not objects with virtual methods; requests forwarded between clients and servers, GetHandle, GetName, log messages, exit and the reject path for clients that break the protocol are not modelled.
- BrokerSteps.ForwardReachesExactly: the list of clients that get the unsolicited messages of all servers (`globalunsollist`, commu/commu_io_server.cc:531-545) is not modelled.
- MessageIoLoop.Io.Read: a body of 2^29 words or more, whose byte count does not fit an int, ends in the state TooLarge, in which nothing is promised; the writer's messages are shorter than that.
- Messages wait in the writer's list as values; they come into memory when they are extracted.
- In the client library, list nodes can always be had where the code does not check (`addconfptr`, and `ungetmessage` inside the waiting loop); the guard against reentry from signal handlers, the restart path of `receivemessage` and the callbacks are not modelled; a body of another length than announced counts as a broken connection; an unsolicited OpenVED message of fewer than three words, of which the loop would read a word that is not there, counts as another message.
- ClientLib.OpenConserves: the model's wait always takes its first turn; the loop of `OpenVED` looks at nothing if time is out before that.
- Koala.DealsWithAll: for channels below 34.  For first-hit modules the code reads `data[chan]` before it checks the channel; the word behind the array is an argument of the model, and `StoresClosedEvents` holds for any.
- In the event builder, a subevent of unknown id (the search runs past its table) and a negative subevent size of `mxdc32` data end in the answer OUTSIDE, after which nothing is promised; index sums are unbounded.  Cluster reading, ROOT output, histograms and beam data are not modelled; whether use_koala_event accepts an event is an argument.
- ProcList.InterpretsEncoded: what procedures do is left open; they see the calls executed before them.  Memory can be read at any address, as the test itself reads words behind the length before it rejects.  The output buffer's index and error words are the outcome of the model; `mod_par`, sending and printing lists are left out.
- ProcListBuilder.Builder.AddPars: the variants with one, several or an array of parameters are one method; all sizes fit the ints that hold them.
- Xdr.AppendString: lengths below 2^31, and behind words that are the encoding of a string.
- Xdr.OutString: `outnstring` with a negative limit, which would be taken as a length, is not modelled.
- Buf.InBuf.GetString: a length word of 2^32-3 or more, whose word count wraps to 1, or one of 2^31 or more within the buffer ends in the outcome Outside.
- Buf.OutBuf.PutInt: a gap left by moving the cursor behind the contents may hold anything.  Placeholders, counters, annotations and the other operators are left out.
- `fifo::num`, whose loop does not advance, and `outsize` of addresses are left out; memory of list nodes and blocks is not freed explicitly.
