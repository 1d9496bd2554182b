# A verified model of parodus

Parodus is the message broker that runs on a device: it keeps one WebSocket connection to the cloud, passes messages
between the cloud and local clients, and serves small CRUD requests from a tag file. This project models the parts of
it that have state, loops and threads, in the form the program has them (classes with fields, loops, linked lists,
arrays), and proves what they keep and compute.

Check everything with `dafny verify dfyconfig.toml` (Dafny 4.11).

## What is modelled

**The tag store** (`Json`, `CrudMessages`, `CrudSpec`, `CrudStore`, `CrudLaws`, `CrudAnswers`). The CRUD handlers parse
the config file into a tree, change the tree step by step and write it back; a rejection can come when the tree has
already been changed. Two comparisons decide what happens: `cJSON_GetObjectItem` ignores case, and the scan behind it is
an exact `strcmp`. `CrudStore.CrudConfig` is that code, with its loops; each handler is proved equal to a function of
`CrudSpec`, and `CrudLaws` proves what holds over every run of requests that starts without a config file: what the file
can hold, that failed requests can be taken out of a run anywhere without a trace, that the record list implements a map
keyed by the name without case, and that a read returns the last write. `CrudAnswers` says what every response carries,
status and payload, told from the elements of the destination, the members of the payload, the file and the map. The
file is all the store keeps, so a restart of the process in the middle of a run changes nothing.

**The queues** (`MsgQueue`, `Wakeup`, `Pipeline`, `PipelineAnswers`). `MsgQueue` is the linked list that the program
writes out for each queue. `Wakeup` is the protocol around one of them, as a state machine over single lock, wait,
append, signal and unlock steps of any number of producers, the consumer and the main thread, spurious wakeups included.
`Pipeline` composes the CRUD queue, the upstream queue and the tag store; it proves that every interleaving, from
whatever config file the process finds, answers as a sequential store that starts from that file would, and that none
deadlocks. `PipelineAnswers` reads the store's laws off the responses on the upstream queue, whatever the interleaving.

**The cloud connection** (`ConnectionTrace`, `Connection`, `Backoff`, `HeartBeat`, `Time`). `Connection.Connector` is
the code from `createSocketConnection` down to `nopoll_connect`: server selection, redirects, 403 retries, the second
attempt over IPv4, interface-down waits, backoff, reconnects and the shutdown flag, which a signal may set between any
two steps. What the network answers to each attempt, what each token lookup finds and what each look at the interface
finds are given from outside; the clock, random numbers and other threads are arbitrary. Everything observable goes
into a ghost trace, which every method keeps sound; `ConnectionTrace` proves what a sound trace says about a whole run:
which handles are open, which server is tried next, and that nothing but a failure is followed by a wait. The program's
unbounded loops take one unit of `patience` per round, so each theorem is about every finite beginning of every run,
however long; a run that ends early for that reason says so in its result.

**The client registry and the keep-alive sweep** (`ClientList`, `KeepAlive`). A linked list of nodes that own nanomsg
sockets, changed by registrations, by deletions, and by a sweep that starts again at the head after each deletion.
Which calls of the socket library and which sends work is given from outside: `works(n)` says whether socket or connect
call n does, `ok(n)` whether message n goes out whole. What a registration or a sweep does is proved as a function of
that. The registry's invariant holds before and after every operation; `KeepAlive.Serve` is any run of them.

**The codecs** (`DnsRecord`, `DnsTable`, `DnsAnswers`, `Fragments`, `WebpaUrl`). Reassembly of a JWT from DNS TXT
answers, WebSocket fragmentation, and the server URL parser; for each, the parser undoes a printer, and what the parser
accepts is characterised.

## Where the code does not do what one might expect

- Delete answers 200 even when the file could not be opened for writing in the end; the record is then still there. The
  file must have opened at the start of the same request, which also asks for write access (src/ParodusInternal.c:138);
  a file that does not open there is answered 500. `CrudLaws.DeleteTakesAway` gives the exact condition,
  `CrudLaws.UnwrittenDeleteExample` such a request, and `CrudLaws.DeletedStaysDeleted` needs it.
- A create or update that cannot open an existing file for reading goes on as if there were none
  (src/crud_internal.c:117-121), and when the write at its end succeeds, all other tags are gone.
  `CrudLaws.OthersSurviveIff` gives the exact condition, `CrudLaws.WipeLeavesOneRecord` what is left, and
  `CrudLaws.WipeExample` such a request.
- Create and update of a name that clashes with a stored name in another spelling answer 500, not 409
  (`CrudLaws.CreateRefinesMap`, `CrudLaws.UpdateRefinesMap`, and `CrudLaws.OtherSpellingExample` for a request).
- The check for missing TXT records stops one slot short of the count. `DnsTable.GaplessIff` says exactly when an
  accepted table has no gap, `DnsTable.GapExample` is an accepted table with one, and `DnsTable.AllTxtIsPermutation`
  shows that the check is enough when all answers are TXT.
- The port buffer holds seven characters, so a longer text is cut and can be accepted as another port;
  `WebpaUrl.AcceptedPort` gives the exact condition and `WebpaUrl.CutPortExample` takes port 00000808 for port 80.
  What is cut off need not even be a digit.
- The main thread signals each queue once, when its loop has ended. The loop also ends when another thread asks for a
  reconnect at the right moment (src/conn_interface.c:198) or a wait fails (src/conn_interface.c:175-177), and then
  shutdown is not set: a consumer can wake up, find nothing, and go to sleep with nobody left to wake it.
  `Wakeup.SignalSufficesIff` gives the exact condition, `Wakeup.LostShutdown` such a run.
- A retrieve whose source is this device's own parodus address is answered to itself: its response is taken off the
  upstream queue and queued as a new request (src/upstream.c:389-411), whose response is again one.
  `Pipeline.RetrieveAnswersItself` constructs such a run; as the upstream thread may queue a request while it handles
  any message, the theorems of `Pipeline` hold for these runs too.
- A message whose fragments break off leaves its part behind, and the next message suffers for it
  (`Fragments.PendingPartSpoils`; `Fragments.AnyFrames` for whatever frames arrive).
- A chunk numbered 00 keeps its number in the token (`DnsAnswers.ZeroKeepsItsNumber`).
- `createNopollConnection` reads the flags of a server it has not chosen when its first look at the shutdown flag finds
  it set. `Connection.Connector.CreateNopollConnection` returns `NoServer` if and only if that look does, given a
  default URL that is accepted; it always does when the flag was set on entry.
- The comment in `createNopollConnection` says an invalid default URL is not expected in its loop; `EndRound` proves
  that it cannot happen.
- The backoff delay fits a 32-bit int up to a maximum count of 31, and not beyond (`Backoff.DelayFits`).

## Model

| member | source | states |
|---|---|---|
| Json.ValueIntIdempotent | src/crud_internal.c:311-316 | cutting a number to an int a second time changes nothing, so re-reading the file cannot alter a stored number |
| Json.ValueIntTruncates | src/crud_internal.c:311-316 | the int of a number is the number without its fraction, or the nearer end of the int range |
| Json.FoldEqualIff | src/crud_internal.c:277-279 | two names are equal for the lookup exactly when they differ in the case of ASCII letters only |
| CrudMessages.ParseDestSplits | src/crud_internal.c:1528-1591 | a destination is refused exactly when its last element has two or more slashes; else the elements before it are slots as they are, and it is one slot, or two that the slash joins to give it back, the first NULL exactly when the slash comes first |
| CrudMessages.TagDestParses | src/crud_internal.c:1528-1591 | a destination written as scheme/id/parodus/tag/name, for any name without '/', is recognised and yields the name |
| CrudStore.CrudConfig.WriteIntoCrudJson | src/crud_internal.c:73-96 | the whole file is replaced by the tree, or nothing changes when it cannot be opened |
| CrudStore.CrudConfig.CheckExpires | src/crud_internal.c:186-229 | true exactly when the first numeric "expires" exists and is not cut to zero |
| CrudStore.CrudConfig.CheckStrings | src/crud_internal.c:231-269 | true exactly when no key and no string value is empty |
| CrudStore.CrudConfig.CheckPayload | src/crud_internal.c:176-269 | true exactly when the payload is a JSON object that passes both checks |
| CrudStore.CrudConfig.GetObjectItem | src/crud_internal.c:277-279 | finds a record exactly when some name is equal ignoring case |
| CrudStore.CrudConfig.FindRecord | src/crud_internal.c:1434-1452 | the first record with exactly this name, or the length |
| CrudStore.CrudConfig.AddRecord | src/crud_internal.c:304-334 | the tree gains the record with every number cut to an int; on a value of another type it is left with the record filled up to that value |
| CrudStore.CrudConfig.CreateObject | src/crud_internal.c:98-470 | file, return value, status and payload equal the create specification, over all files, requests and write outcomes; when it fails, the file is as before although the tree may not be |
| CrudStore.CrudConfig.UpdateObject | src/crud_internal.c:862-1335 | the same for update, with the cloud-disconnect branch |
| CrudStore.CrudConfig.UpdateRecord | src/crud_internal.c:1030-1180 | the old record leaves the tree before the new one is checked, and still a failing update leaves the file as it was |
| CrudStore.CrudConfig.DeleteObject | src/crud_internal.c:1358-1516 | the same for delete, answering 200 whether or not the write succeeded |
| CrudStore.CrudConfig.CopyRecord | src/crud_internal.c:770-783 | copies a record's fields in order, numbers cut to ints |
| CrudStore.CrudConfig.RetrieveObject | src/crud_internal.c:621-860 | the same for retrieve; the file never changes |
| CrudStore.CrudConfig.CopyAll | src/crud_internal.c:731-750 | the answer for "tags" holds every record in order |
| CrudStore.CrudConfig.ProcessCrudRequest | src/crud_tasks.c:10-108 | the response carries the request's transaction id, its two addresses swapped, and the status and payload that `CrudAnswers` characterises |
| CrudLaws.StepIsApply | src/crud_internal.c:172-426 | on any file that parses, a request changes what it could read of the file exactly as the one change it asks for, told from the request alone |
| CrudLaws.StoredIsClean | src/crud_internal.c:186-334 | a payload that passes the checks is stored with non-empty keys, int numbers, non-empty strings and a first numeric expires that is not zero |
| CrudLaws.CleanIsCopiedWhole | src/crud_internal.c:770-783 | on a clean record retrieve's "otherwise it is a string" branch is only reached for strings, and nothing is dropped |
| CrudLaws.StoredIsCopiedWhole | src/crud_internal.c:770-783 | on every good file, whatever is stored under a name is copied out whole |
| CrudLaws.StepKeepsGood | src/crud_internal.c:98-1516 | every request, successful or not, keeps the file absent or exactly {"tags": L} with names distinct ignoring case and clean records |
| CrudLaws.ReachableIsGood | src/crud_internal.c:98-1516 | the same over every run from an absent file |
| CrudLaws.FailureIsAtomic | src/crud_internal.c:1045-1085 | in the specification that the handlers are proved equal to, the return value is 0 exactly when create answers 201 and update 200 or 201, and else the file is as before |
| CrudLaws.NoChangeWithoutSuccess | src/crud_internal.c:1169-1185 | no request of any kind that does not answer 200 or 201 changes the file |
| CrudLaws.FailuresLeaveNoTrace | src/crud_internal.c:1169-1185 | removing all failed requests from any run, wherever they stand, gives the same final file |
| CrudLaws.LookupIsMembership | src/crud_internal.c:1434-1452 | with names distinct ignoring case, the exact scan finds precisely the records that are there |
| CrudLaws.UntouchedIsUnchanged | src/crud_internal.c:98-1516 | a request leaves what is stored under a name, or its absence, alone, unless it succeeds in writing or deleting that name, or in writing any name without having read the file |
| CrudLaws.WipeLeavesOneRecord | src/crud_internal.c:117-428 | a create or update that could not read the file and is written leaves its own record and nothing else |
| CrudLaws.OthersSurviveIff | src/crud_internal.c:117-121 | a stored record survives a successful request on another name if and only if that request could open the file for reading |
| CrudLaws.WriteIsStored | src/crud_internal.c:1053-1083 | a successful create or update stores the payload, in order, duplicate keys kept, numbers cut to ints |
| CrudLaws.DeleteTakesAway | src/crud_internal.c:1434-1509 | after a delete that answered 200 the record is gone if and only if the file could be opened for writing at its end |
| CrudLaws.GetReadsTheStore | src/crud_internal.c:709-830 | a retrieve of tag/name answers 200 with exactly what is stored, 400 when nothing is, 500 without a file or when it cannot be opened |
| CrudLaws.GetAllReadsTheStore | src/crud_internal.c:726-757 | a retrieve of "tags" answers 200 with exactly the stored records in order, 400 when there are none, 500 without a file or when it cannot be opened |
| CrudLaws.UnwrittenDeleteExample | src/crud_internal.c:1434-1509 | a delete request that answers 200 and leaves the record: the file opened for reading but not, at the end, for writing |
| CrudLaws.WipeExample | src/crud_internal.c:878-1162 | with "a" stored, an update of "b" that could not open the file for reading answers 201, and "a" is gone |
| CrudLaws.OtherSpellingExample | src/crud_internal.c:277-299 | with "a" stored, create and update requests for "A" answer 500 |
| CrudLaws.StoredUntilOverwritten | src/crud_internal.c:1053-1083 | a stored record survives any run without a successful update or delete of its name and without a successful write of another name by a request that could not read the file |
| CrudLaws.ReadYourWrites | src/crud_internal.c:709-830 | after a successful write, and whatever requests follow, every retrieve of the name that can open the file returns that payload, until the name is successfully updated or deleted or another name is written without the file having been read |
| CrudLaws.DeletedStaysDeleted | src/crud_internal.c:1434-1452 | after a delete that was written, every retrieve that can open the file answers 400 until a create or update of the name succeeds |
| CrudLaws.ViewIsMembership | src/crud_internal.c:271-300 | the map a list stands for has exactly the folded names of its records as keys, each with its record |
| CrudLaws.LookupsAgree | src/crud_internal.c:277-299 | both comparisons, ignoring case and exact, are read off the map |
| CrudLaws.CreateRefinesMap | src/crud_internal.c:271-404 | create is insertion into the map, refused with 409 or 500 when a key clashes |
| CrudLaws.UpdateRefinesMap | src/crud_internal.c:1030-1162 | update is replacement or insertion in the map, with 200 or 201 |
| CrudLaws.DeleteRefinesMap | src/crud_internal.c:1406-1501 | delete of a name other than "tags" removes the exact name from the map |
| CrudLaws.RunRefinesMap | src/crud_internal.c:98-1516 | over every run, with the file opening or not at each step, the file stands for the map that the same requests compute |
| CrudAnswers.TagIff | src/crud_internal.c:172 | the destinations that name a record are exactly scheme/id/parodus/tag/name with no slash in the name |
| CrudAnswers.DisconnectIff | src/crud_internal.c:1211-1212 | those that ask for a disconnect, by their elements |
| CrudAnswers.MemoryIff | src/crud_internal.c:646 | those that are answered from memory, by their elements |
| CrudAnswers.AcceptableIff | src/crud_internal.c:176-269 | the payload checks accept exactly objects without empty keys and strings whose first numeric "expires" is not cut to zero |
| CrudAnswers.StoredKeepsFields | src/crud_internal.c:304-334 | stored fields keep their keys, their order and their strings, and numbers become their ints |
| CrudAnswers.IntsAreStoredAsTheyAre | src/crud_internal.c:304-334 | a payload of strings and ints is stored unchanged |
| CrudAnswers.CreateRefused | src/crud_internal.c:114-230 | a create is answered 500 on a file that does not parse, else 400 for another destination or an unacceptable payload, without a payload and with the file as it was |
| CrudAnswers.CreateAnswers | src/crud_internal.c:271-428 | any other create has the status of the map operation; with 201 the response carries the new record and the file has it behind all others, and else there is neither payload nor change |
| CrudAnswers.UpdateRefused | src/crud_internal.c:878-1030 | the same for update, apart from disconnects |
| CrudAnswers.UpdateDisconnects | src/crud_internal.c:1211-1335 | a cloud-disconnect request gets the status of the disconnect, and nothing else happens |
| CrudAnswers.UpdateAnswers | src/crud_internal.c:1030-1162 | any other update has the status of the map operation and no payload; with 200 or 201 the file holds the other records in their order and the new one behind them |
| CrudAnswers.DeleteRefused | src/crud_internal.c:1367-1406 | a delete is answered 500 without a file that opens and parses, else 400 for another destination |
| CrudAnswers.DeleteAnswers | src/crud_internal.c:1406-1509 | any other delete has the status of the map operation and no payload, and leaves the other records in their order |
| CrudAnswers.RetrieveElsewhere | src/crud_internal.c:640-702 | a retrieve is answered 400 for a bad destination, then from memory, then 500 without a file that opens and parses |
| CrudAnswers.RetrieveAnswers | src/crud_internal.c:709-830 | any other retrieve carries all records in order for "tags", the stored fields for a stored name, and else 400; the file stays |
| CrudAnswers.OtherAnswers | src/crud_tasks.c:101-104 | requests of other kinds get a response without status and payload |
| CrudAnswers.SuccessIsStored | src/crud_internal.c:1053-1083 | every create answered 201 and every update of a record answered 200 or 201 had an acceptable payload and leaves it stored under its name |
| CrudAnswers.EmptyIsAbsent | src/crud_internal.c:117-148 | on an empty file, or one without "tags", create and update answer as without a file |
| MsgQueue.Queue.Append | src/crud_interface.c:57-90 | the message is behind all others, and a signal is due exactly when the queue was empty |
| MsgQueue.Queue.Pop | src/crud_interface.c:100-107 | the oldest message comes off and the others keep their order |
| Wakeup.StepKeepsLock | src/crud_interface.c:66-84 | at every step of every thread only the recorded owner is inside the mutex |
| Wakeup.StepKeepsInv | src/thread_tasks.c:27-55 | every atomic step of every thread keeps mutual exclusion, order, and the debt of a signal for a sleeping consumer |
| Wakeup.RunKeepsInv | src/upstream.c:214-496 | the same over every run of any number of producers, the consumer and main |
| Wakeup.NoLostWakeup | src/upstream.c:166-186 | a consumer asleep to which no signal is owed has an empty queue and has processed everything ever queued |
| Wakeup.FifoDrain | src/upstream.c:230-236 | processed, in-flight and queued messages, concatenated, are the messages enqueued, in order |
| Wakeup.ExitOnlyWhenDrained | src/thread_tasks.c:44-50 | a consumer leaves only after shutdown and with everything ever queued processed |
| Wakeup.ShutdownReachesConsumer | src/conn_interface.c:200-211 | once main has given the mutex back after its signal with shutdown set, the consumer is never asleep or about to sleep again |
| Wakeup.CanFallAsleep | src/conn_interface.c:198-211 | main has signalled and shutdown is not set: from every such run some continuation ends with the consumer asleep |
| Wakeup.SignalSufficesIff | src/conn_interface.c:198-211 | main's one signal ends the consumer's sleeping if and only if shutdown is set when main gives the mutex back |
| Wakeup.LostShutdown | src/conn_interface.c:198-211 | a run that ends with main done, shutdown set, and the consumer asleep with nobody to wake it |
| Wakeup.OwnerCanMove | src/thread_tasks.c:27-55 | whichever thread holds the mutex has a step to take |
| Wakeup.ConsumerCanMove | src/thread_tasks.c:27-55 | with the mutex free and work queued, or after a signal that told of shutdown, the consumer has a step to take, and which |
| Wakeup.SomeoneCanMove | src/thread_tasks.c:27-55 | no deadlock: in every reachable state with the mutex held, work queued or shutdown told, some thread can move |
| Pipeline.SequentialAnswers | src/crud_tasks.c:10-108 | each response of a sequential run, from whatever file, has the transaction id and kind of its request, and the two addresses swapped |
| Pipeline.StepKeepsInv | src/crud_interface.c:93-186 | every step of every thread keeps the two queues, the store, the order of requests and the responses sent in agreement |
| Pipeline.RunKeepsInv | src/crud_interface.c:93-186 | the same over every interleaving, from whatever config file the process finds |
| Pipeline.ResponsesAreSequential | src/crud_interface.c:57-186 | linearisation: the CRUD responses ever put on the upstream queue are those of a sequential store, started with the config file the process found, over the requests in crudMsgQ order, all or all but the one in hand; the config file is that of the same sequential run |
| Pipeline.DeliveredIsSequential | src/upstream.c:230-236 | the responses the upstream consumer has handled begin that same list |
| Pipeline.EveryRequestIsAnswered | src/crud_interface.c:133-141 | when the CRUD handler leaves at shutdown, each request ever queued has exactly one response on the upstream queue |
| Pipeline.SomeoneCanMove | src/crud_interface.c:93-186 | no deadlock of the two queues, the handler and the upstream thread, each of which may wait for the other queue's mutex |
| Pipeline.RetrieveAnswersItself | src/upstream.c:389-411 | a constructed run, from any config file, in which the response to a retrieve addressed to its own source comes off the upstream queue and is queued as the same request again |
| PipelineAnswers.SentIsSequential | src/crud_interface.c:57-186 | over every interleaving, response i on the upstream queue is that of the sequential store to request i of crudMsgQ |
| PipelineAnswers.SequentialAt | src/crud_tasks.c:10-108 | which is the answer to that request in the file that the requests before it left |
| PipelineAnswers.ReadYourWrites | src/crud_interface.c:57-186 | over every interleaving, among the responses on the upstream queue: after one that reports a successful create or update of a name, each response to a retrieve of it carries that payload, as long as the responses in between show no success that could change it |
| PipelineAnswers.DeletedStaysDeleted | src/crud_interface.c:57-186 | likewise after one that reports a delete whose file could be written, each response to a retrieve is 400 until one reports a successful write |
| ConnectionTrace.OpenedAtMostOnce | src/connection.c:494-536 | no handle is opened twice in a sound trace |
| ConnectionTrace.ClosedStaysClosed | src/connection.c:883-890 | a closed handle is never live again |
| ConnectionTrace.ClosedAtMostOnce | src/connection.c:883-890 | however long the run, a handle is closed at most once |
| ConnectionTrace.OpenedIsLiveOrClosed | src/connection.c:883-890 | nothing leaks: a handle that was opened is live or has been closed since |
| ConnectionTrace.RedirectIsFromThisRound | src/connection.c:745-757 | the program is at a redirect server only after an answer in the same round that names that server |
| ConnectionTrace.AttemptIsAllowed | src/connection.c:557-573 | every attempt is made with an address, with no handle open, at the server the round is at, and at a redirect server only after an answer in the same round that names its address, port and security |
| ConnectionTrace.RetryIsFollowedUp | src/connection.c:655-660 | a 403, or a redirect that names a server, is followed by the next attempt with no wait and no new round in between, unless shutdown is seen; the attempt is at the same server, or at the one the redirect names |
| ConnectionTrace.FallbackIsTried | src/connection.c:636-640 | after a failure over IPv6 at a secure server, with no flag set, the next thing is the attempt at the same server over IPv4 |
| ConnectionTrace.WaitIsAfterFailure | src/connection.c:661-676 | a backoff wait comes only after an answer that is a failure |
| ConnectionTrace.PausedIsWait | src/connection.c:661-676 | a trace that has been given up before shutdown ends in a wait, closes aside |
| ConnectionTrace.NothingAfterStop | src/connection.c:652-654 | once shutdown has been seen nothing is tried any more |
| Connection.ParseServerUrl | src/connection.c:199-204 | the server has the address, port and security that the URL names, or no address, its old port and a negative flag |
| Connection.Connector.SetCurrentServer | src/connection.c:184-191 | a redirect server wins over the JWT's server and that over the default, and the chosen one has an address |
| Connection.Connector.FindServers | src/connection.c:459-486 | afterwards the default server is the one the configured URL names, the JWT's server the one the token found by this lookup names, if both are there, and no redirect is known; the result says which |
| Connection.Connector.NopollConnect | src/connection.c:489-536 | is only called with nothing open at the server the trace stands at, and makes the new connection the only open handle |
| Connection.Connector.WaitConnectionReady | src/connection.c:546-590 | which answers lead to a retry and which to failure; an accepted redirect becomes the server in use with what its URL names, a refused one leaves the redirect server with a negative flag |
| Connection.Connector.CloseAndUnref | src/connection.c:883-890 | closes a handle that is open and sets the status offline, or does nothing |
| Connection.Connector.TryOnce | src/connection.c:615-637 | one attempt whose result is told from the network's answer: a connection is open exactly when it is ready, and a failure leaves the server as it was unless a bad redirect freed it |
| Connection.Connector.ConnectAndWait | src/connection.c:599-643 | one attempt, or two exactly when no flag is set, the server is secure, the first answer is a failure, and no bad redirect freed the server; the result is told from the last answer |
| Connection.Connector.WaitWhileInterfaceDown | src/connection.c:684-706 | the connection is dropped, closed once, and none is open afterwards; the wait ends well exactly when a look finds the interface up |
| Connection.Connector.KeepTryingToConnect | src/connection.c:649-682 | connected exactly when a handle is open, and then the last answer was ready; before shutdown it gives up only after an answer that is a failure, and after one backoff wait exactly when the interface is not found down |
| Connection.Connector.BeginRound | src/connection.c:743-745 | each round begins at the JWT's server when there is one and else at the default, as they were looked up |
| Connection.Connector.Round | src/connection.c:743-763 | a round ends connected, shut down, or paused after a wait, and forgets the redirect server |
| Connection.Connector.EndRound | src/connection.c:748-762 | the configured URL, once accepted, is never refused in a later lookup, which happens exactly after a failure without a JWT |
| Connection.Connector.CreateNopollConnection | src/connection.c:713-803 | online with a connection unless shut down; false exactly when the configured URL is refused; reads an unchosen server exactly when the first look at the shutdown flag finds it set |
| Connection.Connector.CreateSocketConnection | src/conn_interface.c:94-223 | the trace of the whole run is sound, its answers are the network's, and at the end every handle of the run has been closed; its loop keeps the open handles equal to the global connection, and online implying that there is one |
| Connection.RedirectIsFollowed | src/connection.c:557-573 | over every run, after an answer 307, 302 or 303 with "Redirect:" and a URL that names a server, the next attempt is at that server, in the same round and without a wait |
| Connection.TargetStrips | src/connection.c:561-563 | the prefix "Redirect:" goes, and a location without it stays |
| Connection.NamedIsServer | src/connection.c:199-204 | the server a URL names has the parser's address, port and security |
| Backoff.CalcRandomSecs | src/connection.c:252-259 | for every mask at least 3 s, and at most the mask, or 5 when the mask is smaller |
| Backoff.MaskIsMod | src/connection.c:252-259 | masking with 2^c - 1 is the remainder modulo 2^c |
| Backoff.SecsFollowRandom | src/connection.c:252-259 | so the seconds are what the random number leaves over, plus 3 when that is below 3 |
| Backoff.CalcRandomNsecs | src/connection.c:261-269 | half the random number, modulo a second |
| Backoff.BackoffTimer.UpdateBackoffDelay | src/connection.c:232-240 | after k rounds the delay is 2^c - 1 with c = min(k + 1, max(1, max_count)) |
| Backoff.BackoffTimer.CalcRandomExpiration | src/connection.c:271-286 | the deadline is normalised and is the start plus exactly 3 s, or plus at least 3 s and less than delay + 1 s, exactly as the two random numbers say |
| Backoff.DelayFits | src/connection.c:232-240 | the delay fits an int in every round for max_count up to 31, and from round 31 on it does not for a larger one |
| Time.AddTimespec | src/connection.c:242-250 | the sum, normalised |
| Time.TimespecDiff | src/ParodusInternal.c:155-167 | the difference, normalised |
| Time.ElapsedMs | src/conn_interface.c:134-141 | the whole milliseconds between two readings |
| HeartBeat.Timer.Round | src/conn_interface.c:134-169 | one turn of the main loop, with the pings, resets, pauses and resumptions that fall into its poll: what the timer is afterwards and when a ping counts as missed |
| HeartBeat.StepKeepsBound | src/conn_interface.c:134-169 | the counter never exceeds the real time since the last ping, pause or reset plus the part of its poll before it |
| HeartBeat.NoEarlyMiss | src/conn_interface.c:143-169 | over every run, pauses included, a poll that ends in a declared miss began no earlier than the timeout, less the longest poll, after the last ping, pause or reset |
| HeartBeat.LeadIsWithinPoll | src/nopoll_handlers.c:137-154 | from the start of a poll to a ping, pause or reset in it is at most the length of that poll |
| HeartBeat.LeadIsShort | src/conn_interface.c:134-169 | over every run that allowance is at most the longest poll |
| HeartBeat.CounterIsPolledTime | src/heartBeat.c:43-57 | with room below 2^32 the counter is exactly the time polled since the last ping, pause, reset or declared miss, polls that end in a pause not counted, so a miss is declared as soon as that reaches the timeout |
| HeartBeat.MissIff | src/conn_interface.c:143-169 | with that room a poll ends in a declared miss if and only if the time polled before it has reached the timeout |
| HeartBeat.PausedIff | src/heartBeat.c:60-74 | the timer is paused exactly while the interface is down |
| HeartBeat.NoMissWhilePaused | src/heartBeat.c:51-74 | over every run nothing is missed while it is paused |
| ClientList.Registry.OpenConnected | src/client_list.c:64-86 | a new socket connected to the URL exactly when the socket and the connect call work, and else nothing left open |
| ClientList.Registry.Append | src/client_list.c:109-126 | the node is last and the list stays well linked |
| ClientList.Registry.AddToList | src/client_list.c:57-148 | when both calls work the list is one node longer, and that node owns a new open socket connected to the URL; it is counted exactly when name and URL fitted; else the list is as before with no socket left open |
| ClientList.Registry.Unlink | src/client_list.c:207-218 | the list without that node, well linked, and the node freed |
| ClientList.Registry.DeleteFromList | src/client_list.c:195-250 | the first node of the name goes, its socket is closed and no other, or -1 and nothing changes |
| ClientList.Registry.Reconnect | src/upstream.c:258-299 | the client owns a new socket connected to the URL exactly when both calls work; whatever fails, no socket is left without an owner |
| ClientList.Registry.ReconnectByName | src/upstream.c:248-305 | the walk ends at the first client of the name whose two calls work, having tried every one before it in order, or at the end of the list |
| ClientList.TryFindsFirst | src/upstream.c:248-305 | when no call fails that is the first client of the name |
| ClientList.Registry.Register | src/upstream.c:246-321 | the clients of the name are tried in order until one can be reconnected, and a node is added exactly when none can and the two calls for it work; which one it is, how many calls were made and whether a reconnect failed follow from which calls work; that client owns a socket connected to the URL, and clients of other names are untouched |
| ClientList.RemoveKeepsUnique | src/client_list.c:195-250 | deletion keeps names unique |
| ClientList.AddKeepsUnique | src/upstream.c:307-318 | adding after an unsuccessful search keeps names unique |
| ClientList.Registry.OwnersAreListed | src/client_list.c:57-148 | every open socket is that of exactly one node on the list, and every node's non-negative socket is open |
| ClientList.Registry.PeersAreListed | src/client_list.c:90-107 | unless a reconnect failed every listed client's socket is open and connected to the URL it is listed with, as far as its buffer holds it |
| KeepAlive.KeepRemove | src/client_list.c:195-250 | deleting one survivor leaves the original list, in order, without one more node |
| KeepAlive.SweptByAll | src/service_alive.c:101-125 | a sweep loses nobody when every message goes out |
| KeepAlive.SweptByNone | src/service_alive.c:101-125 | and everybody when none does |
| KeepAlive.ReplayIsSwept | src/service_alive.c:101-125 | a log of sends, each to the client whose turn it was and with the outcome the network had in store, leads to the names the sweep is to leave |
| KeepAlive.Bury | src/service_alive.c:112-116 | deletion by the name of a dead client always succeeds, frees one node of that name, that client when names are unique, and puts the sweep back at the head of a shorter list |
| KeepAlive.SendTo | src/service_alive.c:103-124 | one turn of the loop: the next message goes to the client at hand; the sweep then stands at the next client exactly when it went out whole, and else at the head of a list one shorter |
| KeepAlive.SweepAll | src/service_alive.c:101-125 | the sweep ends whatever the sends do (the measure is the length of the list, then what is left of it), touches no freed node, has the outcomes the network has in store, leaves exactly the names that follow from those, and an ordered part of the list in which every client's last send succeeded |
| KeepAlive.AliveGrows | src/service_alive.c:103-108 | clients already found alive stay so when another one answers |
| KeepAlive.Sweep | src/service_alive.c:93-127 | the same with the guard on the counter; with unique names exactly the clients whose own send failed are removed |
| KeepAlive.Perform | src/upstream.c:246-321 | one registration, deletion or sweep does to the names what the abstract operation does, and each client has the URL just registered for its name or the one it had, when no socket or connect call fails and everything fits |
| KeepAlive.Serve | src/upstream.c:246-321 | over any run of registrations, deletions and sweeps each open socket has exactly one owner; if all names and URLs fit, the counter is the length; if also no reconnect failed, names are unique; unless a reconnect failed every client's socket is connected; and if no socket or connect call fails and everything fits, the names are a function of the run alone and each client's socket is connected to the URL of the last registration of its name |
| DnsRecord.SeqPosUnique | src/token.c:262-282 | a record has one verdict only on where its sequence number is |
| DnsRecord.FindSeqNum | src/token.c:262-282 | two places before the first colon when two digits end there, invalid when not, not found without a colon |
| DnsRecord.StripUndoesWrap | src/token.c:235-258 | stripping drops a first character that is not a digit and up to two trailing characters that are not base64, and no more |
| DnsRecord.PrintedIsRead | src/token.c:287-306 | any printing of a numbered chunk, whatever stands before the number, reads back as that number and that text; number 00 stays in the text |
| DnsRecord.RefusedIff | src/token.c:262-282 | an answer is refused exactly when fewer than two digits stand before the first colon |
| DnsTable.FillTable | src/token.c:329-377 | the table holds each record's text in its slot, or -1 exactly when some number is bad, too large or taken |
| DnsTable.GetRrSeqTable | src/token.c:310-397 | the number of TXT records and the finished table, or -1 exactly when the answers are not acceptable |
| DnsTable.AssembleJwtFromDns | src/token.c:400-415 | the concatenation of the slots, or nothing |
| DnsTable.NumbersCount | src/token.c:353-370 | acceptable answers carry as many different numbers as there are TXT records |
| DnsTable.SlotFilledIff | src/token.c:353-370 | a slot is filled exactly when some record has its number |
| DnsTable.SlotHoldsText | src/token.c:353-370 | each record's text is in the slot of its number |
| DnsTable.GaplessIff | src/token.c:390-396 | any accepted table has no gap if and only if no number exceeds the count of records, by a pigeonhole argument; with numbered records that is, if and only if the numbers are exactly 1..n |
| DnsTable.AllTxtIsPermutation | src/token.c:331-397 | when all n >= 2 answers are TXT and accepted, the numbers are exactly 1..n and every record is used once |
| DnsTable.GapExample | src/token.c:310-415 | the answers 02:a and one of another type are accepted, leave a gap, and assemble to the empty token |
| DnsTable.RoundTrip | src/token.c:310-415 | chunks printed in any order and wrapping, mixed with other answers, assemble to their concatenation |
| DnsAnswers.LoneRoundTrip | src/token.c:379-388 | a chunk without a number in the only TXT answer, whatever other answers are around it, assembles to exactly that chunk |
| DnsAnswers.ZeroKeepsItsNumber | src/token.c:364-388 | a chunk numbered 00 in the only TXT answer assembles with its number in front |
| DnsAnswers.AcceptedIff | src/token.c:310-397 | which answers are accepted, told from their numbers alone: at most ten, none refused, as many numbers as records, none above the count of answers, and one record without a number or all numbers below the count of records |
| Fragments.SendResponse | src/nopoll_helpers.c:83-111 | the frames sent are a beginning of the buffer's frames, the result is the length of their payload, a prefix of the buffer, and sending stops at the first failure |
| Fragments.FramesAreWellFragmented | src/nopoll_helpers.c:83-111 | first a binary frame, then continuations, FIN on the last only, none empty, together the buffer (section 5.4 of RFC 6455) |
| Fragments.Listener.OnMessage | src/nopoll_handlers.c:55-127 | joins a fragment to the part so far, and queues the message when the frame is final |
| Fragments.RoundTrip | src/nopoll_handlers.c:55-127 | the frames of any messages, received in order, queue exactly the non-empty messages in order |
| Fragments.AnyFrames | src/nopoll_handlers.c:55-127 | for any frames at all: one message for each final frame, made of the frames since the last one, and what is waiting |
| Fragments.PendingPartSpoils | src/nopoll_handlers.c:62-94 | what a part left over from a broken-off message does to the next one |
| WebpaUrl.ParseNumArg | src/config.c:279-298 | the number written, modulo 2^32, or 2^32 - 1 when there is a non-digit or nothing |
| WebpaUrl.ParseWebpaUrl | src/config.c:300-340 | the address stays NULL and the result is -1 exactly when the URL names no acceptable server |
| WebpaUrl.PortBufDoesNotWrap | src/config.c:166-340 | what fits the port buffer is too small for the accumulation to wrap or to look like the error value |
| WebpaUrl.RefusedIff | src/config.c:300-340 | a URL is refused exactly for its scheme, its brackets, or a port text whose first seven characters are no number from 1 to 65535 |
| WebpaUrl.PartsOfAccepted | src/config.c:183-277 | where the address and the port text of any URL with a scheme and brackets in order begin and end |
| WebpaUrl.AcceptedPort | src/config.c:300-340 | an accepted port is in 1..65535, and is the number written, in digits only, if and only if it was written with at most seven characters |
| WebpaUrl.CutPortExample | src/config.c:267-340 | port 808 written with eight digits is accepted as port 80 |
| WebpaUrl.RoundTrip | src/config.c:166-340 | a printed URL (a subset of the authority of section 3.2 of RFC 3986) parses to its security flag, host and port, an omitted port to 443 or 80 |

## Left out

- cJSON, wrp-c, nopoll, nanomsg, curl, cjwt and the resolver: JSON is a datatype with ordered members, encoding and
  decoding are inverse, and network and library results are arbitrary. `wrp_get_msg_element` is not part of this model;
  a destination comes as its one to four elements.
- Memory: malloc failure, ownership inside cJSON trees, and strings with embedded NULs. The in-place removal of '[' in
  src/config.c:221-223 is dropping the first character of a sequence.
- Top-level members of the config file other than "tags", and files that hold "tags" twice.
- File I/O beyond absent, empty, not JSON, and a file that cannot be opened for reading at the start of a request or for
  writing at its end: a write that fails half way is not modelled.
- `retrieveFromMemory`, `getClientStatus` and the effect of a cloud-disconnect request: their results are given with
  each request.
- A CRUD request without a destination: `processCrudRequest` copies the destination before looking at it, and both
  producers queue only requests that have one.
- CrudLaws.DeletedStaysDeleted: asks that the file could be opened for writing at the delete, because the handler
  ignores the write status.
- CrudLaws.ReadYourWrites: excludes the name "tags", which retrieve answers with all records.
- Memory ordering: the queue protocols are interleavings of sequentially consistent steps.
- Wakeup.ShutdownReachesConsumer: says that the consumer is awake, not that the scheduler runs it; it asks for shutdown
  to be set when main gives the mutex back, without which it is false.
- The rest of the upstream consumer (events, forwarding to the cloud) and of the downstream handler.
- Connection.Connector.CreateSocketConnection: loop rounds are counted down, since termination is up to the network;
  the health file, OpenSSL options, extra headers and the ping status callback are left out.
- Connection.Connector.WaitWhileInterfaceDown: no claim that the waiting thread is woken, because the flag is tested
  outside the lock.
- The DNS check that ends the process after 15 minutes is one more way for the shutdown flag to be set.
- The connection status after the shutdown flag is set.
- HeartBeat.NoEarlyMiss: a clock that runs backwards.
- Fragments.SendResponse: the count of bytes sent is not bounded by the width of an int.
- ClientList.Registry.DeleteFromList: closing a socket is taken to succeed.
- `deleteAllClients`, which frees the nodes at the end of the process without closing their sockets.
- KeepAlive.Sweep: no registration comes in between; the program holds the list's mutex except for one moment after a
  deletion.
- Logging, command line parsing, seshat, partner checks, and signal handlers.
