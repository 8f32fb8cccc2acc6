# Verified model of NetWork_Learning

A Dafny 4.11 model of the concurrent and protocol logic of the repository, with proofs. Calls into
the operating system are replaced by scripts of results (what `read`, `recv`, `send`, `accept`,
`select` and `poll` return) or, in the thread pool, by free choice of the next step. A theorem about
all scripts, or all runs, is a theorem about everything the operating system may do within the
assumptions listed under "Left out". One character of a Dafny string stands for one byte.

- `Monitor`, `PoolRuns`, `ThreadPool`: the thread pool of `tcp_socket/Thread_Pool.hpp`. Every atomic
  step of N workers and the pushing thread is an action; a run is any sequence of enabled actions,
  with spurious wake-ups and any non-empty choice of the woken waiters. `Monitor` holds the
  transition system and its invariant, `PoolRuns` what follows for all runs (no lost wake-up, mutual
  exclusion, FIFO and exactly-once hand-off, deadlock freedom, a bound on the length of every run,
  draining), `ThreadPool` the object that takes these steps in place.
- `SocketOwnership`, `EchoTask`: the accept loop of `tcp_socket/server_tcp.hpp` over the pool (which
  worker owns which socket), and the task a worker runs.
- `Decimal`, `Text`, `Framing`, `Codec`, `Link`: the length-prefixed protocol of `protocol/`:
  `to_string`, `stoi`, `enLength`, `deLength`, `recvPackage`, the text form of `Request` and
  `Response`, `callback`, `handlerLink` and the client's loop. `Backlog` and `Service` count what the
  server serves of an arbitrarily cut request stream, `NulBytes` holds what NUL bytes do to it, and
  `Dialogue` the two ends talking to each other. The text form is the `MYSTLYE` branch.
  The Makefile's commented-out flag spells it `MYSTYLE` (`protocol/Makefile:5`), so that flag would not
  select it.
- `Lines`, `LineServer`, `Reactor`: one connection of the Reactor: the edge-triggered receive loop, the
  CRLF line buffer that gives up at most one line per chunk, the calculator and the send loop.
- `FdTable`, `SelectServer`, `PollServer`: the descriptor tables of the select and poll servers, and one
  pass over a table that changes during the pass.
- `Basics`: three helpers shared by the others.

Where the code does less than one might expect, the exact behaviour is proved:

- A frame whose header does not arrive whole with the first read of its turn makes `recvPackage`
  return false, and the server hangs up (`FrameArrives`, `LockstepServes`).
- The server answers at most one request per read, so requests that arrive together wait for bytes
  that may never come. For every chunking of a request stream the number served is given exactly, by
  counting lengths (`ServiceLaw`); when no read cuts a header it is the minimum in `ServiceBacklog`.
  The first payload that is no request ends the session, with the connection dropped or, if `stoi`
  throws, the program dead (`FramesLaw`, `BadPayloadEnds`).
- A header whose announced length, with header and trailer, is negative or overflows an int swallows
  everything that follows (`HeaderLaw`, `SwallowsAll`).
- The client reads every answer into a fresh buffer and so forgets what arrived behind the last one
  (`ClientForgets`).
- A frame decodes if and only if it is at most 2^31 - 1 bytes long in all (`FrameDecodes`).
- The server appends its reads as C strings. So a request whose operator is NUL is never served
  (`NulOperatorIsNeverServed`); cut by a read, it makes the server serve a request nobody sent and
  lose the valid one after it (`NulOperatorServesAnother`).
- The Reactor leaves complete lines in its buffer; the backlog is exactly the minimum in `BacklogLaw`.
  It takes a leading minus sign for the operator and dies on it (`NegativeOperand`), as on any other
  due line it cannot evaluate, and on nothing else (`FaultLaw`). What is left over of a reply when a
  send blocks is overwritten by the next one: the replies reach the wire whole if and only if each
  finds room (`RepliesWholeIffRoom`).
- The poll server loses a descriptor it accepts into a full table, and only then (`RoundKeepsInv`).
- The comment above `enLength` speaks of a single line feed (`protocol/protocol.hpp:27`); the code
  writes CR LF, and so does the model.

## Model

| member | source | states |
|---|---|---|
| Monitor.StepInv | tcp_socket/Thread_Pool.hpp:24-44 | every atomic step of a worker or of `push` keeps mutex ownership, the emptiness facts between check and pop or wait, the wake-up count, FIFO order and the task balance |
| Monitor.StepWakeup | tcp_socket/Thread_Pool.hpp:80-97 | the wake-up count is inductive under waits, signals that wake any non-empty set of waiters, and spurious wake-ups |
| Monitor.StepMutex | tcp_socket/Lock_Guard.hpp:15-23 | a guard's extent is exactly a critical section: after every step the owner of the mutex is the one thread whose position lies inside a section |
| Monitor.StepHandOff | tcp_socket/Thread_Pool.hpp:75-97 | a step neither loses, repeats nor reorders a task: pushed = popped + queued in order, and popped = finished + held as counts |
| PoolRuns.NoLostWakeup | tcp_socket/Thread_Pool.hpp:33-97 | in every reachable state with a sleeping worker, queued tasks number at most the awake workers heading for the queue plus one for a pending signal; if there are none of those, nothing is queued |
| PoolRuns.MutualExclusion | tcp_socket/Thread_Pool.hpp:27-40 | at most one thread is in a critical section, `pop` meets a non-empty queue, a worker waits only on an empty one, and a running task does not hold the mutex |
| PoolRuns.ExactlyOnceInOrder | tcp_socket/Thread_Pool.hpp:75-97 | tasks are popped in push order, and each pushed task is exactly once finished, held by a worker, or queued |
| PoolRuns.StuckOnlyWhenSettled | tcp_socket/Thread_Pool.hpp:24-41 | deadlock freedom, both ways: no system step is enabled if and only if the queue is empty, nobody pushes and all workers sleep |
| PoolRuns.RunBound | tcp_socket/Thread_Pool.hpp:24-97 | the length of every run is bounded by a potential of its first state plus a fixed credit per push and per spurious wake-up |
| PoolRuns.MaximalRunsDrain | tcp_socket/Thread_Pool.hpp:24-97 | every run that cannot be continued by the system ends settled with every pushed task finished exactly once, within the potential's number of steps |
| PoolRuns.CanDrain | tcp_socket/Thread_Pool.hpp:24-97 | from every state that meets the invariant a run of system steps alone reaches a settled state |
| ThreadPool.Pool.constructor | tcp_socket/Thread_Pool.hpp:46-57 | a pool of n workers starts with an empty queue, a free mutex and all workers about to lock |
| ThreadPool.Pool.PopTask | tcp_socket/Thread_Pool.hpp:75-79 | the front task is returned and removed |
| ThreadPool.Pool.WorkerStep | tcp_socket/Thread_Pool.hpp:27-40 | each statement of `_start_func`, done in place, is the transition system's step |
| ThreadPool.Pool.PusherStep | tcp_socket/Thread_Pool.hpp:93-97 | each statement of `push`, done in place, is the transition system's step |
| ThreadPool.Pool.Run | tcp_socket/Thread_Pool.hpp:99-107 | any interleaving of in-place steps ends in the state the transition system reaches by the same run |
| SocketOwnership.StepOwnership | tcp_socket/server_tcp.hpp:129-178 | accept-then-push, hand-off and close keep one task per open socket, none for a closed one, and one close per accept that is over |
| SocketOwnership.NoSharedSocket | tcp_socket/server_tcp.hpp:32-60 | in every reachable state a socket being served is open, is not queued, and is served by no other worker |
| SocketOwnership.SocketsAreOwned | tcp_socket/server_tcp.hpp:129-178 | a socket is open if and only if exactly one task exists for it; accepts exceed closes by one for an open socket and by none otherwise |
| SocketOwnership.SettledServerHasClosedAll | tcp_socket/server_tcp.hpp:32-60 | when the server has nothing left to do, every accepted socket has been closed exactly as often as it was accepted |
| EchoTask.SocketIO | tcp_socket/server_tcp.hpp:32-60 | the loop makes the calls of the service function on its socket, and none after closing it; CallsAre says which calls these are |
| EchoTask.CallsAre | tcp_socket/server_tcp.hpp:35-59 | each chunk costs one read and one write, of the chunk up to its first NUL with " server[received]" behind it; one more read finds the end of file or the error, and the socket is closed |
| EchoTask.ClosesOnce | tcp_socket/server_tcp.hpp:32-60 | however the connection ends, the close is the last call and the only one |
| EchoTask.EchoesInOrder | tcp_socket/server_tcp.hpp:53-57 | as many messages as chunks read, the i-th being the i-th chunk up to its first NUL followed by " server[received]" |
| Decimal.StoiLaw | protocol/protocol.hpp:74-74 | `stoi` reads white space, at most one sign and digits up to the first other byte; it throws invalid-argument without digits and out-of-range beyond int |
| Decimal.StoiCovers | protocol/protocol.hpp:74-74 | every string has such a reading, so the law says what `stoi` does on all of them |
| Decimal.StoiAfterWhite | Reactor/reactor.cc:68-69 | a printed number is read back after any of the six white-space characters and before anything but a digit, and fails exactly when it is not an int |
| Decimal.StoiAfterPlus | Reactor/reactor.cc:68-69 | the same with a plus sign in front |
| Decimal.StoiToString | protocol/protocol.hpp:74-74 | `stoi` of a printed number followed by a non-digit gives the number back, and fails exactly when it is not an int |
| Decimal.PrintedDigits | protocol/protocol.hpp:28-28 | `to_string` writes the digits in decimal, the most significant first, with a minus sign for a negative number |
| Text.FindCrlfIsFirst | protocol/protocol.hpp:69-69 | the position found holds a CRLF and no earlier one does; npos means there is none |
| Text.CString | protocol/protocol.hpp:66-66 | what `inbuffer += buffer` appends is the bytes read up to the first NUL, all of them if there is none |
| Framing.RecvPackage | protocol/protocol.hpp:47-88 | the loop over reads, with its early returns, its exception and its int-sized total, computes the receive function on which the theorems are stated |
| Framing.RecvConservesBytes | protocol/protocol.hpp:47-88 | old buffer + bytes to be read = returned text + new buffer + bytes still to be read, for every script and every outcome |
| Framing.HeaderLaw | protocol/protocol.hpp:69-84 | whatever stands before the first CRLF: an exception if it is no int; else the frame is complete once the announced number of bytes plus header and trailer is there; a sum below 0 or above int is never reached |
| Framing.BadHeaderThrows | protocol/protocol.hpp:74-74 | a header that is no int makes `recvPackage` throw, with the bytes left in the buffer |
| Framing.SwallowsAll | protocol/protocol.hpp:76-82 | after a header with such a sum, all further reads go into the buffer and no package is ever returned |
| Framing.DecodeLaw | protocol/protocol.hpp:33-44 | decoding takes as many bytes after the header as it announces, all there are if there are fewer or the number is negative, and throws if it is no int |
| Framing.NoHeaderLaw | protocol/protocol.hpp:69-73 | without a CRLF `recvPackage` returns false and decoding fails |
| Framing.RecvBeforeEnd | protocol/protocol.hpp:52-64 | an end of file or a failed read ends `recvPackage` with what it has; later reads make no difference |
| Framing.FirstCrlfIsHeader | protocol/protocol.hpp:69-74 | in any prefix of a stream that starts with a frame the first CRLF is the header's, whatever the payload holds, and it is found as soon as it has arrived |
| Framing.ScanPrefix | protocol/protocol.hpp:69-84 | a prefix is judged headerless, incomplete or complete exactly by how far it reaches, and a complete one starts with the frame |
| Framing.FrameDecodes | protocol/protocol.hpp:25-44 | decoding a frame followed by anything yields the payload and the frame's length, if and only if the frame is at most 2^31 - 1 bytes |
| Framing.FramesInjective | protocol/protocol.hpp:25-31 | equal concatenations of frames have equal payload lists |
| Framing.RecvReturnsTheFrame | protocol/protocol.hpp:47-88 | on any part of a stream that starts with a frame, however cut, `recvPackage` returns exactly that frame or false, and does not throw |
| Framing.FrameArrives | protocol/protocol.hpp:47-88 | a frame that arrives on its own, in any pieces, is received and leaves the buffer empty if and only if its first piece holds the whole header; otherwise the first read makes `recvPackage` return false |
| Codec.Request.Deserialize | protocol/protocol.hpp:133-162 | the fields are set to the parsed request and unchanged on rejection; an exception of the second `stoi` leaves the new `_x` and `_op` behind, one of the first leaves all |
| Codec.Response.Deserialize | protocol/protocol.hpp:205-222 | the fields are set to the parsed response, never rejected; an exception of the second `stoi` leaves the new `_result` behind, one of the first leaves both |
| Codec.ReqRoundTrip | protocol/protocol.hpp:114-149 | every request with int operands and any operator character, the separator included, parses back from its text |
| Codec.RespRoundTrip | protocol/protocol.hpp:187-210 | every pair of ints parses back, although a CR is passed to `stoi` |
| Codec.RejectsWithoutTwoSpaces | protocol/protocol.hpp:136-145 | a request text is rejected if and only if it holds fewer than two spaces |
| Codec.RequestLaw | protocol/protocol.hpp:136-149 | any other text: first operand before the first space, operator the byte after it, second operand after the last space, an exception if either operand is no int |
| Codec.ResponseLaw | protocol/protocol.hpp:208-210 | a response text: the result before the first space, the exit code between it and the last byte, which is not looked at; an exception if either is no int |
| Codec.NoResponse | protocol/protocol.hpp:208-210 | nothing after the first space, or an empty text, throws |
| Codec.Callback | protocol/server_tcp.cc:13-63 | into a fresh response: the promised answer of every request whose arithmetic C++ defines; the exit code is written only to report an error |
| Codec.ComputeAnswers | protocol/server_tcp.cc:15-62 | sum, difference, product with exit code 0; truncated quotient or remainder with 0; -1 with 1 or 2 for a zero divisor of `/` or `%`, and -1 with 3 for any other operator |
| Codec.AnswerIsUnique | protocol/server_tcp.cc:15-62 | this promise leaves exactly one answer to each request |
| Codec.ComputeDivides | protocol/server_tcp.cc:32-57 | `/` and `%` satisfy x = q*y + r with r smaller than y in size and of the sign of x |
| Codec.ComputeInRange | protocol/server_tcp.cc:13-63 | a defined request has an answer that fits two ints |
| Link.HandlerLink | protocol/server_tcp.hpp:33-89 | the loop serves, writes, keeps its buffer and stops as the session function says, for every script and every handler; FramesLaw says where it stops |
| Link.ServedIsPrefixOfSent | protocol/server_tcp.hpp:33-89 | whatever part of the request stream has arrived and however it was cut, the requests handed to `func` are a prefix of those sent, exactly those are answered in order, and the server never crashes |
| Link.AnswersWhatItServes | protocol/server_tcp.hpp:66-84 | for every script of reads the bytes written are the framed responses to the requests served, in order |
| Link.OneRequestPerRead | protocol/server_tcp.hpp:36-39 | the server serves at most one request per read |
| Link.CoalescedRequests | protocol/protocol.hpp:49-53 | of requests that arrive in one read only the first is served; the others stay in the buffer |
| Service.FramesLaw | protocol/server_tcp.hpp:33-89 | any frames, cut into reads in any way, with an end of file or a failed read at any point: as many frames are taken as counting lengths says; the requests before the first bad payload are served, and that one ends the session |
| Service.ServiceLaw | protocol/server_tcp.hpp:33-89 | for every chunking of a request stream, up to an end of file or failed read, the requests served are the first n, counted from the lengths of frames and reads alone; all are served if and only if n is their number |
| Service.BadPayloadEnds | protocol/server_tcp.hpp:43-64 | requests, then the frame of a payload that is none, then anything: only the requests are served, and once the bad frame is received the session has ended, dropped if the payload is rejected, crashed if reading it throws |
| Service.BadHeaderCrashes | protocol/server_tcp.hpp:38-39 | a header that is no int kills the program |
| Service.NotServedAfterBad | protocol/server_tcp.hpp:59-64 | a valid request after a payload without spaces is not served |
| Service.SumOnTheWire | protocol/server_tcp.cc:13-78 | the bytes of the request for 1 + 2 are answered by the bytes of 3 and exit code 0 |
| Service.ServiceBacklog | protocol/server_tcp.hpp:33-89 | when no read cuts a header, requests served after n reads = minimum over j of (frames complete after j reads) + n - j |
| Backlog.CountLaw | protocol/protocol.hpp:49-85 | the count by lengths of a receiver that takes one frame per read is that minimum |
| NulBytes.NulOperatorIsNeverServed | protocol/protocol.hpp:66-66 | for every script of reads and every handler, no request handed to `func` has a NUL operator |
| NulBytes.NulOperatorIsLost | protocol/protocol.hpp:66-82 | the frame of a request with a NUL operator, arriving whole and alone, is never complete, so nothing is served |
| NulBytes.NulOperatorServesAnother | protocol/protocol.hpp:66-84 | at one cutting of such a frame followed by a valid one, the server serves a third request that nobody sent, and only that one |
| Dialogue.LockstepServes | protocol/server_tcp.hpp:35-88 | when each frame has its own reads, the server serves exactly the requests before the first frame whose first read cuts its header |
| Dialogue.LockstepAnswers | protocol/server_tcp.hpp:66-84 | it writes the responses of exactly those requests, in order |
| Dialogue.LockstepLeaves | protocol/server_tcp.hpp:35-39 | its buffer is then empty, or holds the read that cut a header |
| Link.ClientRun | protocol/client_tcp.hpp:91-142 | the client's loop writes each request and decodes one package into a fresh buffer, as the client function says, up to the first failure |
| Dialogue.AskSends | protocol/client_tcp.hpp:91-123 | whatever the client reads, it has written the frames of its first requests: one more than it decoded answers, or all |
| Dialogue.PayloadsMeet | protocol/client_tcp.hpp:109-123 | if each end reads what the other wrote, cut frame by frame, the payloads read are the requests the client wrote and the server's responses to exactly these |
| Dialogue.EndToEnd | protocol/client_tcp.hpp:91-142 | closed loop: if the server's reads carry what the client wrote and the client's reads what the server wrote, frame by frame and header first, then all requests are served, the i-th decoded answer is the handler's answer to the i-th request, and after k frames the server has served and answered exactly k requests with an empty buffer |
| Dialogue.EndsMeet | protocol/client_tcp.hpp:109-123 | reads cut from the requests and from their responses do close the loop: each end then reads exactly the bytes the other writes |
| Dialogue.LoopCloses | protocol/client_tcp.hpp:91-142 | for every list of requests with answers in range the loop does close: one read per frame in each direction meets all assumptions of the end-to-end theorem |
| Dialogue.ClientForgets | protocol/client_tcp.hpp:109-118 | what arrives in the same read behind an answer is lost to the client, which reads the next answer from the following reads |
| Dialogue.CalculatorEndToEnd | protocol/server_tcp.cc:13-78 | the closed loop for `callback`: every list of defined requests is served and gets the promised answers: sums, differences, products, truncated quotients and remainders, and the error codes |
| Lines.SplitAppend | Reactor/reactor.cc:79-85 | new bytes only affect what follows the last complete line, even when CR and LF arrive apart |
| Lines.SplitIsComplete | Reactor/reactor.cc:79-83 | no CRLF is left inside a line, across its end or in the rest |
| LineServer.LineLaw | Reactor/reactor.cc:61-74 | the operator is the first of `+-*/`, the operands are what `stoi` makes of both sides, and the program dies if either is no int |
| LineServer.NoOperatorLaw | Reactor/reactor.cc:63-67 | the output buffer is left alone if and only if none of the four characters occurs |
| LineServer.MissingOperand | Reactor/reactor.cc:68-69 | nothing but white space before or behind the operator kills the program |
| LineServer.WrittenExpression | Reactor/reactor.cc:61-74 | with white space anywhere and anything but a digit behind it, an expression yields the sum, difference, product or truncated quotient, the message for a zero divisor, or the end of the program if an operand or the result is no int |
| LineServer.NegativeOperand | Reactor/reactor.cc:63-68 | a line that starts with a minus sign kills the program |
| LineServer.PrintedExpression | Reactor/reactor.cc:61-74 | a printed expression is evaluated exactly if its first operand is not negative, and otherwise throws |
| LineServer.ArithmeticReply | Reactor/reactor.cc:84-91 | the reply to a printed sum, difference or product is "Server # ", the result and CRLF |
| LineServer.DivisionReply | Reactor/reactor.cc:45-52 | the reply to a printed division holds the truncated quotient |
| LineServer.ZeroDivisionReply | Reactor/reactor.cc:45-48 | the reply to a division by zero is the message |
| LineServer.NoOperatorRepeats | Reactor/reactor.cc:84-91 | the reply to a line without an operator frames what the output buffer holds |
| LineServer.SendLoopConserves | Reactor/reactor.hpp:152-188 | bytes taken + bytes left = buffer; the event mask is reset if and only if there was something to send and nothing is left; calls number at most bytes taken plus interrupts plus one |
| LineServer.SendCompletesIffRoom | Reactor/reactor.hpp:152-188 | the loop sends as many bytes as the kernel offers room for before it blocks or fails, and finishes the buffer if and only if that is all of it |
| LineServer.RoomLaw | Reactor/reactor.hpp:154-186 | the room is what the calls take before the first that blocks or fails; an interrupt changes nothing |
| LineServer.RunTakes | Reactor/reactor.hpp:193-205 | for every run, from the input alone: the lines taken are those due, up to and including the first that faults; the program has died if and only if one of them faults; while it lives, taken lines and buffer spell the stream |
| LineServer.FaultLaw | Reactor/reactor.cc:61-74 | the program dies if and only if one of the lines due in the received stream cannot be evaluated |
| LineServer.LinesAreTakenInOrder | Reactor/reactor.cc:77-85 | the lines taken are always the first lines of the received stream; if no line due faults they are all those due and, each with CRLF, followed by the input buffer, spell the stream |
| LineServer.DueIsMinimum | Reactor/reactor.hpp:193-205 | lines due after n chunks, one per chunk as far as they are complete = minimum over j of (lines complete after j chunks) + n - j |
| LineServer.BacklogLaw | Reactor/reactor.hpp:193-205 | if no line due faults, lines taken after n chunks = minimum over j of (lines complete after j chunks) + n - j |
| LineServer.SendsTheReplies | Reactor/reactor.cc:30-92 | for every chunking, short writes and interrupts: if the reply to each line due before the first fault finds room, the bytes sent are exactly these replies, in order, and nothing is left to send |
| LineServer.RepliesWholeIffRoom | Reactor/reactor.cc:84-91 | if those lines are expressions, the bytes sent are their replies, each cut to the room it finds; they are the whole replies if and only if every reply finds room |
| LineServer.LeftoverIsOverwritten | Reactor/reactor.cc:84-91 | whatever an earlier send left in the output buffer, the bytes sent after an expression are those of its own reply, as far as there is room |
| LineServer.RunAppend | Reactor/reactor.hpp:190-227 | receiving in several runs of the handler has the effect of one run over all chunks |
| Reactor.Connections.SendHandler | Reactor/reactor.hpp:152-188 | for every buffer, the loop in place sends and keeps what the send function says, and calls `ControlEvent` once if it empties a buffer and not otherwise |
| Reactor.Connections.HandlerCalTask | Reactor/reactor.cc:61-74 | the out parameter is set to the result, or left alone when there is no operator; a fault leaves it too; LineLaw and WrittenExpression say when and to what |
| Reactor.Connections.Calculate | Reactor/reactor.cc:30-58 | the printed sum, difference, product or truncated quotient, the division message or "Invalid operator", or a fault on overflow |
| Reactor.Connections.CalulateTask | Reactor/reactor.cc:77-92 | one line at most leaves the input buffer, and its framed reply is sent |
| Reactor.Connections.RecvHandler | Reactor/reactor.hpp:190-227 | the receive loop applies the task to every chunk read before the socket blocks, closes or fails, skipping interrupts |
| Reactor.ReadLaw | Reactor/reactor.hpp:193-224 | one run reads every chunk before the socket blocks, closes or fails, an interrupt making no difference, and leaves the rest unread |
| FdTable.RoomForFresh | select/select_server/select_server.hpp:46-53 | a table as long as the descriptor range has a free slot for any descriptor it does not hold |
| FdTable.AcceptFillsFirst | select/select_server/select_server.hpp:46-53 | the accepted descriptor goes into the first free slot and no other slot changes |
| FdTable.PassIsSnapshot | select/select_server/select_server.hpp:84-103 | a pass over the changing array makes exactly the calls of a pass over a copy, and leaves the array equal to the open set: accepted in, vanished out |
| FdTable.EachReadyOnce | select/select_server/select_server.hpp:84-103 | in a pass each ready descriptor is served exactly once, no other is, and one accepted in the pass is not read in it |
| FdTable.ErasesItsSlot | select/select_server/select_server.hpp:65-72 | the scan on close frees the slot the descriptor was read from |
| SelectServer.AcceptFindsRoom | select/select_server/select_server.hpp:34-54 | if descriptors fit the set, the scan on accept always finds a free slot |
| SelectServer.TableIsOpenSet | select/select_server/select_server.hpp:105-149 | at every point of every run slot 0 is the listener and the entries are, without repetition, the open descriptors |
| SelectServer.Server.constructor | select/select_server/select_server.hpp:105-114 | the array starts with the listener in slot 0 and every other slot free, and so equal to the open set |
| SelectServer.Server.ListenFunc | select/select_server/select_server.hpp:34-54 | in place: the accepted descriptor goes into the first free slot |
| SelectServer.Server.RecvFunc | select/select_server/select_server.hpp:56-82 | in place: a vanished descriptor is closed and its first slot freed |
| SelectServer.Server.HandlerEvent | select/select_server/select_server.hpp:84-103 | the loop over the array in place is the pass function |
| SelectServer.Server.Watch | select/select_server/select_server.hpp:120-132 | the watched set is exactly the entries of the array, and the bound is the greatest of them and the listener |
| SelectServer.Server.Start | select/select_server/select_server.hpp:116-150 | every list of rounds leaves the array equal to the open set |
| PollServer.NeverStale | poll/pollServer.hpp:62-141 | whatever old `revents` the slots hold, a round either accepts once or reads, in slot order, exactly the registered descriptors this `poll` reported |
| PollServer.ReadsExactlyTheReady | poll/pollServer.hpp:62-104 | in a round without accept each reported descriptor is registered and read exactly once, and no other is read |
| PollServer.RecvIsSweep | poll/pollServer.hpp:62-92 | freeing slots by index has the effect of the select server's search by value |
| PollServer.RoundKeepsInv | poll/pollServer.hpp:38-141 | a round keeps the entries distinct and equal to the open descriptors that are not lost; one is lost exactly when accepted into a full table |
| PollServer.RoundOpens | poll/pollServer.hpp:38-104 | a round with an accept opens the accepted descriptor and enters it if a slot is free; any other closes exactly the reported descriptors found gone |
| PollServer.ListenFillsFirst | poll/pollServer.hpp:51-59 | the first free slot gets the accepted descriptor and keeps its `revents`, and no other slot changes |
| PollServer.TableIsOpenSet | poll/pollServer.hpp:106-141 | the same over every run; until one is lost, the entries are all the open descriptors |
| PollServer.Server.constructor | poll/pollServer.hpp:106-119 | the array starts with the listener in slot 0 and every other slot free, which meets the table invariant |
| PollServer.Server.ListenEvent | poll/pollServer.hpp:38-60 | in place: an accepted descriptor is in the table afterwards if a slot was free, the first free one, whose `revents` it keeps; a full table loses it |
| PollServer.Server.RecvEvent | poll/pollServer.hpp:62-92 | the loop over the array in place is the reading pass |
| PollServer.Server.ServerStart | poll/pollServer.hpp:121-141 | every list of rounds, each starting with a `poll` that rewrites `revents`, keeps the table invariant |

## Left out

- Codec.Callback: requires that the operation does not overflow an int (and is not INT_MIN / -1); C++ leaves those cases undefined.
- LineServer.FaultLaw: an overflow in the Reactor's calculator counts as the end of the program, like an exception; C++ leaves it undefined.
- LineServer.RepliesWholeIffRoom: lines without an operator are excluded; their reply repeats the output buffer as it was left.
- Reactor.Connections.SendHandler: for an empty buffer `send` returns 0 and the loop consults an `errno` left from before; it is read as would-block.
- Link.HandlerLink: `func` is a pure function of the request, as `callback` is; a handler with state of its own is not modelled.
- Dialogue.EndToEnd: each frame is assumed to arrive in reads of its own with its header in the first; what happens otherwise is the subject of Service.FramesLaw for the server, and not followed on the client's side.
- Framing.Recv: the size of a read is not modelled, so a script may hold reads longer than the 1024 bytes a real one returns at most.
- Framing.RecvPackage: a read that fills all 1024 bytes of the buffer leaves no terminator, which is undefined in C++; the model treats every read as a terminated C string.
- SelectServer.Server.RecvFunc and the poll server's reading: the bytes received and sent back are not modelled, only which descriptor is read and whether its connection is gone.
- The system calls themselves: their results are parameters. Assumed: `accept` returns a descriptor that is not open, `select` and `poll` report only watched descriptors, a script that has run out reads as end of file or as would-block.
- The JSON encoding of requests and responses: the jsoncpp library is not part of this model.
- SocketOwnership.NoSharedSocket: a running task is one phase that ends with the close; the calls inside it are the subject of EchoTask, not interleaved with the pool's steps.
- Several threads calling `push` at once: the program has one accepting thread.
- `Thread_pool::getInstance` and the pool's destructor: the model starts from one constructed, running pool.
- `ParseLine`, `toString`, logging, console output, daemonising and process creation.
- `_excepHandler`, which does nothing, and closing of Reactor connections, which never happens; the Reactor's dispatch over several connections, which do not interact.
- `http/`, `TCP_Test/`, `epoll/`, `socket/` and `select/testcode/`: request splitting, echo and demo code that would add only easy claims.
