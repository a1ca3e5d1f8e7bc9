# Verified model of the messaging and ownership layers

The repository holds header-only C++ layers over ZeroMQ and SQLite. This project models the parts of these
layers that carry state or arithmetic, and proves what they keep. The server itself uses only some of them: it
includes `SqliteWrapper.hpp`, and of `zmq.hpp` the context, socket, message and `poll`; no file of it includes
`zmq_addon.hpp`, whose `active_poller_t` is compiled only under `ZMQ_BUILD_DRAFT_API`, which no project file defines.

- **Multipart codec** (`NetworkOrder`, `MultipartCodec`, `CodecLoops`). `encode` flattens a list of byte
  strings into one (RFC 50), `decode` parses it back. The specification is compared with an independent
  grammar of frames: `decode` accepts exactly the grammar, finds the longest run of whole frames on any
  input, inverts `encode`, and re-encoding is a normal form whose size difference is counted exactly. Every
  rejected input is shown to be a truncated one. Both loops are proved equal to the specification, on hosts of
  either byte order.
- **Framing** (`Framing`, `SendFlags`, `Sockets`, `Multiparts`). Messages as runs of frames with a MORE flag,
  and the loops that send and receive them, including refusals and exceptions at every point of a loop. A socket
  keeps a ghost history of its calls and the library's answers, which determines what each loop must do.
- **Pipe protocol** (`PipeProtocol`, `CallSteps`). One sender and one receiver interleaved frame by frame: in every
  reachable state frames are conserved, the loops' assertions hold, and whole-message calls refine a queue of
  messages. The loops of `Sockets` are proved to perform the protocol's steps.
- **Active poller** (`PollerSpec`, `PollerHistory`, `ActivePollers`). The handler map, the base poller's registrations and the two
  vectors rebuilt lazily. They agree after every operation, and no handler call dangles although handlers may
  add, remove and modify sockets while a batch is dispatched.
- **Handle ownership** (`HandleLedger`, `HandleOwners`, `HandleRuns`). A ledger of open and closed handles over any
  run of construct, move, swap, reset, release, close and destroy on any number of wrappers, and the wrapper
  objects themselves, whose runs refine the ledger's.
- **Buffer views** (`Buffers`). Saturating advance and truncation, and what the wrap of `size_t` does to a sum.

`Sequences` holds regroupings of sequences that the proofs use.

## Assumptions about the libraries

Calls into ZeroMQ and SQLite are abstract. A socket is a FIFO of frames; a send may be refused only between
messages, and a receive may be refused only between messages and succeeds only when a whole message has
arrived (the atomic delivery that the comments at zmq_addon.hpp lines 58 and 182 rely on). Either may throw at
any time. The base poller refuses to add a socket twice or to change one it does not have, may refuse otherwise
too, and reports registered sockets, each once. Newly issued handles differ from all issued before.
A close call closes the handle, except on a connection on which some open statement was prepared; statements are
prepared on open connections.
Where the width of `size_t` matters it is a parameter, 32 or 64 bits: ConsoleApplication1.vcxproj builds for both.

## Where the code and its promise differ

- `decode` accepts a five-byte size for a part under 255 bytes, which `encode` never writes. `NormalForm` gives
  the exact consequence: re-encoding gives the input back if and only if there is no such size field
  (`OverlongInput` is an input where it does not).
- `encode` measures in one pass and writes in a second. The first adds in `size_t` and does not notice when the sum
  wraps around; the message is then too small, and the second pass writes past its end. `RoomIffNoWrap` gives the
  exact condition: there is room if and only if the true sum of sizes is below the width of `size_t`. `NoRoom64` and
  `NoRoom32` are inputs where there is none. What such a write does is undefined, so `EncodeParts` and the methods
  built on it report it as an outcome, `Overrun`, exactly when it happens, and promise nothing more.
- `b + m + n` is `b + (m + n)` only if the sum does not wrap around in `size_t`, or wraps to something that still
  covers the view (`PlusTwice`; `PlusTwiceFails` is a case where it does not).
- Writing through `UniqueHandle::set()` keeps ownership balanced if and only if the wrapper was empty
  (`SetBalancedIffEmpty`). `SqliteConnection::open` always writes to an empty one; `SqliteStatement::prepare` does so
  only on its first use: `PreparedTwiceLeaks` and `PrepareTwice` show the handle that a second use leaves open.
- The traits of a connection drop the status of `sqlite3_close`, which include/sqlite3.h (lines 329-332) says leaves
  the connection open while statements prepared on it are unfinalized. Closing or replacing a connection keeps the
  balance if and only if there is none (`DestroyBalancedIffIdle`, `OpenLeaks`); otherwise it stays open for good.
  `ConnectionFirstLeaks` and `OpenAgain` are cases.
- These two are the only ways to leak: a run is in balance if and only if it does neither (`RunBalanced`), and what
  is leaked is exactly what they lost (`RunLeaks`). Without exception, no handle gets two close calls.

## Model

| member | source | states |
|---|---|---|
| NetworkOrder.WriteNetworkOrder | ConsoleApplication1/libzmq/include/zmq_addon.hpp:77-88 | on hosts of either byte order, writes the word most significant byte first and touches no other byte |
| NetworkOrder.NetworkBytesDenote | ConsoleApplication1/libzmq/include/zmq_addon.hpp:77-88 | the bytes written denote the word in base 256, most significant first |
| NetworkOrder.ReadIsValue | ConsoleApplication1/libzmq/include/zmq_addon.hpp:90-102 | both branches read the base-256 value of the four bytes; no shift or sum wraps around |
| NetworkOrder.ReadAfterWrite | ConsoleApplication1/libzmq/include/zmq_addon.hpp:77-102 | reading what was written gives every word back, also on a host of the other byte order |
| NetworkOrder.WriteAfterRead | ConsoleApplication1/libzmq/include/zmq_addon.hpp:77-102 | writing what was read gives every four bytes back |
| NetworkOrder.ShiftsAreArithmetic | ConsoleApplication1/libzmq/include/zmq_addon.hpp:77-102 | on 32-bit words the shifts by whole bytes and the byte mask are the multiplications, divisions and remainders used here, and shifting the four bytes out and back is the identity |
| NetworkOrder.IsLittleEndian | ConsoleApplication1/libzmq/include/zmq_addon.hpp:71-75 | the probe tells a little-endian host from a big-endian one |
| MultipartCodec.AcceptsExactlyTheGrammar | ConsoleApplication1/libzmq/include/zmq_addon.hpp:275-302 | decoding ends normally on exactly the byte strings that are a sequence of whole frames |
| MultipartCodec.ParseSound | ConsoleApplication1/libzmq/include/zmq_addon.hpp:275-302 | on any input the frames found are a prefix of it, and the rest is empty, a cut size field or a cut part, as the ending says |
| MultipartCodec.LongestMatch | ConsoleApplication1/libzmq/include/zmq_addon.hpp:275-302 | on any input, any whole frames it starts with are among those found: the output before an exception is maximal |
| MultipartCodec.UniquelyDecodable | ConsoleApplication1/libzmq/include/zmq_addon.hpp:204-209 | no byte string is two different sequences of frames |
| MultipartCodec.EncodeRendersCanonical | ConsoleApplication1/libzmq/include/zmq_addon.hpp:220-258 | encoding writes one frame a part, wide exactly from 255 bytes on, in as many bytes as the size pass adds up |
| MultipartCodec.SizeFieldReads | ConsoleApplication1/libzmq/include/zmq_addon.hpp:243-251 | every size field is read back to its size, and takes one byte exactly below 255 |
| MultipartCodec.RoundTrip | ConsoleApplication1/libzmq/include/zmq_addon.hpp:220-302 | decoding an encoded list never throws and gives the list back |
| MultipartCodec.StreamRoundTrip | ConsoleApplication1/libzmq/include/zmq_addon.hpp:220-302 | decoding an encoded list followed by anything gives the list and then what the rest gives |
| MultipartCodec.EncodeConcat | ConsoleApplication1/libzmq/include/zmq_addon.hpp:220-258 | encoding a concatenation is concatenating the encodings |
| MultipartCodec.EncodeInjective | ConsoleApplication1/libzmq/include/zmq_addon.hpp:220-258 | different lists have different encodings |
| MultipartCodec.Truncation | ConsoleApplication1/libzmq/include/zmq_addon.hpp:275-302 | any frames cut at any byte decode to the whole frames before the cut; normally at a frame boundary, with the first exception inside a wide size field, with the second inside a part |
| MultipartCodec.EncodeTruncation | ConsoleApplication1/libzmq/include/zmq_addon.hpp:220-302 | an encoded list cut at any byte decodes to exactly the parts wholly inside, and ends normally or with the one exception that the place of the cut determines |
| MultipartCodec.RejectedMeansCutShort | ConsoleApplication1/libzmq/include/zmq_addon.hpp:275-302 | every rejected input can be continued to an accepted one that starts with the same parts |
| MultipartCodec.NormalForm | ConsoleApplication1/libzmq/include/zmq_addon.hpp:282-298 | re-encoding decoded parts never throws, decodes to the same parts, saves exactly 4 bytes a loose size field, and is the input iff there is none |
| MultipartCodec.OverlongInput | ConsoleApplication1/libzmq/include/zmq_addon.hpp:282-298 | a five-byte input that decodes normally and re-encodes to one byte |
| MultipartCodec.RoomIffNoWrap | ConsoleApplication1/libzmq/include/zmq_addon.hpp:222-256 | the size that the first pass arrives at has room for what the second pass writes iff the sum of sizes does not wrap around |
| MultipartCodec.NoRoom64 | ConsoleApplication1/libzmq/include/zmq_addon.hpp:222-256 | with a 64-bit size_t, 2^32 views of one largest part are measured too small |
| MultipartCodec.NoRoom32 | ConsoleApplication1/libzmq/include/zmq_addon.hpp:222-256 | with a 32-bit size_t, 65532 views of one 64 KiB buffer are measured too small |
| CodecLoops.MeasureParts | ConsoleApplication1/libzmq/include/zmq_addon.hpp:222-234 | the size pass fails iff some part exceeds 32 bits, and otherwise yields the encoded size modulo the width of size_t, 32 or 64 bits |
| CodecLoops.WriteParts | ConsoleApplication1/libzmq/include/zmq_addon.hpp:236-257 | the write pass, into a message of any size, stays inside iff the encoding fits, and then writes the encoding |
| CodecLoops.EncodeParts | ConsoleApplication1/libzmq/include/zmq_addon.hpp:220-258 | throws iff some part exceeds 32 bits; otherwise a new message holding the encoding, or a write past the message iff the sum of sizes reaches the width of size_t |
| CodecLoops.DecodeMessage | ConsoleApplication1/libzmq/include/zmq_addon.hpp:275-302 | never reads outside the message; ending and parts written, also before an exception, are those of the specification |
| Framing.HeadMessageIsFront | ConsoleApplication1/libzmq/include/zmq_addon.hpp:51-67 | the first message of a queue, framed again, is exactly the front of the queue |
| Framing.HeadMessageUnique | ConsoleApplication1/libzmq/include/zmq_addon.hpp:51-67 | no other non-empty list of parts frames to the front of the queue |
| Framing.HeadMessageRest | ConsoleApplication1/libzmq/include/zmq_addon.hpp:125-138 | after some parts of a message were taken, the queue starts with exactly its remaining parts |
| Framing.SplitSendsJoin | ConsoleApplication1/libzmq/include/zmq_addon.hpp:148-153 | sending with SNDMORE and then sending more puts the same frames on the wire as sending all at once |
| Framing.SplitSendsReceived | ConsoleApplication1/libzmq/include/zmq_addon.hpp:148-190 | the first message a receiver finds is the two sent lists joined, and what follows them stays |
| Framing.SplitSendsAssemble | ConsoleApplication1/libzmq/include/zmq_addon.hpp:148-190 | behind any frames, the two sends complete exactly one message: what was pending, then both lists |
| Framing.AssembleWire | ConsoleApplication1/libzmq/include/zmq_addon.hpp:177-188 | the frames of whole messages assemble to these messages, boundaries intact |
| Framing.MidMessageIsPending | ConsoleApplication1/libzmq/include/zmq_addon.hpp:181-185 | the sender is inside a message iff a reader of the queue has parts of one pending |
| Framing.HasMessageAssembles | ConsoleApplication1/libzmq/include/zmq_addon.hpp:51-67 | a message is in the queue iff a reader assembles one |
| Framing.HeadMessageAssembles | ConsoleApplication1/libzmq/include/zmq_addon.hpp:51-67 | the head message is the first that a reader assembles |
| SendFlags.OrIsBitwise | ConsoleApplication1/libzmq/include/zmq.hpp:1030-1040 | combining flags is the bitwise or of their masks |
| SendFlags.MaskIsBitwise | ConsoleApplication1/libzmq/include/zmq_addon.hpp:418 | clearing SNDMORE is the bitwise mask |
| SendFlags.ConstantsAreMasks | ConsoleApplication1/libzmq/include/zmq.hpp:1030-1040 | no flags is the mask 0 and SNDMORE is the mask 2 |
| Sockets.Socket.Send | ConsoleApplication1/libzmq/include/zmq.hpp:1957-1965 | appends the frame with its MORE flag, or is refused between messages, or throws, changing nothing |
| Sockets.Socket.Recv | ConsoleApplication1/libzmq/include/zmq.hpp:2014-2026 | takes the front frame of an arrived message, or is refused between messages, or throws, changing nothing |
| Sockets.SendMultipart | ConsoleApplication1/libzmq/include/zmq_addon.hpp:169-190 | asks the socket for the frames of the parts in order, with the caller's DONTWAIT, until an answer other than sent; the result is that answer (empty for try again, its exception, else the count), and the queue has exactly the frames sent |
| Sockets.RecvFrames | ConsoleApplication1/libzmq/include/zmq_addon.hpp:45-69 | asks the socket, with the caller's DONTWAIT, as long as frames come that announce more and the bound leaves room; the result is how the last answer ended it, and what is written is what came |
| Sockets.RecvMultipartLoop | ConsoleApplication1/libzmq/include/zmq_addon.hpp:45-69 | the same loop in terms of messages: on success the whole first message; otherwise a proper prefix of it, with the rest left in the queue; refused only at the first frame |
| Sockets.RecvMultipart | ConsoleApplication1/libzmq/include/zmq_addon.hpp:117-123 | the unbounded receive: the first message, nothing on try again, or the socket's exception, as the socket's answers say |
| Sockets.RecvMultipartN | ConsoleApplication1/libzmq/include/zmq_addon.hpp:139-146 | succeeds iff the message that comes fits the bound; otherwise writes exactly n parts, throws and leaves exactly the others in front; n = 0 touches nothing; other endings are the socket's answers |
| Sockets.RecvRemainder | ConsoleApplication1/libzmq/include/zmq_addon.hpp:125-146 | a bounded receive that gave up and an unbounded one after it deliver the message between them, each ending as the socket's answers say |
| Sockets.SendInTwo | ConsoleApplication1/libzmq/include/zmq_addon.hpp:117-190 | two sends, the first with SNDMORE, and a receive: the receiver writes the two lists joined, or a prefix if it is interrupted; the second send is never refused after a non-empty first; each call ends as the socket's answers say |
| Multiparts.Multipart.Recv | ConsoleApplication1/libzmq/include/zmq_addon.hpp:396-413 | replaces the contents by the first message; returns false, with empty contents, iff the socket answers try again, and throws iff it does |
| Multiparts.Multipart.Send | ConsoleApplication1/libzmq/include/zmq_addon.hpp:416-434 | sends one closed message whatever SNDMORE says, with the caller's DONTWAIT, and ends empty; returns false iff the socket answers try again, sending nothing and losing the front part, and throws iff it does |
| Multiparts.Multipart.Prepend | ConsoleApplication1/libzmq/include/zmq_addon.hpp:437-441 | the other's parts in front, in order; the other ends empty |
| Multiparts.Multipart.Append | ConsoleApplication1/libzmq/include/zmq_addon.hpp:444-448 | the other's parts behind, in order; the other ends empty |
| Multiparts.Multipart.Push | ConsoleApplication1/libzmq/include/zmq_addon.hpp:491 | a part in front |
| Multiparts.Multipart.Add | ConsoleApplication1/libzmq/include/zmq_addon.hpp:494 | a part behind |
| Multiparts.Multipart.Pop | ConsoleApplication1/libzmq/include/zmq_addon.hpp:521-526 | takes the front part |
| Multiparts.Multipart.Remove | ConsoleApplication1/libzmq/include/zmq_addon.hpp:529-534 | takes the back part |
| Multiparts.Multipart.Clone | ConsoleApplication1/libzmq/include/zmq_addon.hpp:573-579 | a new object with equal parts |
| Multiparts.Multipart.Equal | ConsoleApplication1/libzmq/include/zmq_addon.hpp:620-628 | true iff the lists of parts are equal |
| Multiparts.Multipart.EncodeSelf | ConsoleApplication1/libzmq/include/zmq_addon.hpp:638 | a message that decodes, normally, to the parts; the two failures exactly as for EncodeParts |
| Multiparts.Multipart.DecodeAppend | ConsoleApplication1/libzmq/include/zmq_addon.hpp:641-644 | appends the decoded parts, on an exception those before the fault |
| Multiparts.Multipart.AppendEncoded | ConsoleApplication1/libzmq/include/zmq_addon.hpp:638-644 | encoding one multipart and decoding it behind another, on any two hosts, appends its parts; it fails, changing nothing, iff a part or the sum of sizes is too large |
| Multiparts.Multipart.DecodeNew | ConsoleApplication1/libzmq/include/zmq_addon.hpp:647-652 | a new multipart with the decoded parts |
| PipeProtocol.FramesConserved | ConsoleApplication1/libzmq/include/zmq_addon.hpp:45-69 | in every state of every interleaving, frames received and frames queued are the frames sent |
| PipeProtocol.RefusedOnlyAtFirstFrame | ConsoleApplication1/libzmq/include/zmq_addon.hpp:181-185 | the assertions of both loops hold wherever a refusal can happen |
| PipeProtocol.MidMessageNeverWaits | ConsoleApplication1/libzmq/include/zmq_addon.hpp:57-61 | a receiver inside a message can always go on without the sender |
| PipeProtocol.BoundRespected | ConsoleApplication1/libzmq/include/zmq_addon.hpp:52-56 | in every state of every run a bounded receive has taken at most its bound, and gives up exactly when it has taken that many |
| PipeProtocol.ReceivedIsPrefix | ConsoleApplication1/libzmq/include/zmq_addon.hpp:105-146 | however calls split messages, what was received assembles to a prefix of what was sent |
| PipeProtocol.RefinesMessageQueue | ConsoleApplication1/libzmq/include/zmq_addon.hpp:105-190 | in every state, whatever receives did (bounded, refused, throwing): everything taken, then everything queued, assembles to the messages sent plus what the running send has put out |
| PipeProtocol.WholeReceives | ConsoleApplication1/libzmq/include/zmq_addon.hpp:105-190 | as long as no receive stopped inside a message: messages received, then those in the pipe, are the messages sent, in order and part by part |
| PipeProtocol.PlainRunRefines | ConsoleApplication1/libzmq/include/zmq_addon.hpp:105-190 | in every run of plain calls (no SNDMORE, no bound, no exception) the pipe is a queue of messages at every moment, in the middle of calls too |
| PipeProtocol.UninterruptedSend | ConsoleApplication1/libzmq/include/zmq_addon.hpp:177-189 | a send under way that nobody interrupts puts the rest of its frames on the wire |
| PipeProtocol.SendFromCall | ConsoleApplication1/libzmq/include/zmq_addon.hpp:169-189 | from the call: its frames, the last with the MORE flag the caller asked for, in one chunk |
| PipeProtocol.UninterruptedRecv | ConsoleApplication1/libzmq/include/zmq_addon.hpp:51-68 | an unbounded receive that nobody interrupts takes exactly the first message |
| PipeProtocol.RecvFromCall | ConsoleApplication1/libzmq/include/zmq_addon.hpp:117-123 | from the call: an unbounded receive with a message waiting takes exactly that message |
| CallSteps.SendIsSteps | ConsoleApplication1/libzmq/include/zmq_addon.hpp:169-190 | a send call, whatever the socket answers, is a sequence of enabled protocol steps with its own arguments, and leaves the pipe as the call says |
| CallSteps.RecvIsSteps | ConsoleApplication1/libzmq/include/zmq_addon.hpp:45-69 | a receive call, bounded or not and whatever the socket answers, is a sequence of enabled protocol steps with its own bound, and leaves the pipe as the call says |
| CallSteps.SendOnPipe | ConsoleApplication1/libzmq/include/zmq_addon.hpp:169-190 | the sending loop on a socket object moves the pipe by these steps, socket and pipe in agreement |
| CallSteps.RecvOnPipe | ConsoleApplication1/libzmq/include/zmq_addon.hpp:45-69 | the receiving loop on a socket object moves the pipe by these steps, socket and pipe in agreement |
| CallSteps.StepsAreRun | ConsoleApplication1/libzmq/include/zmq_addon.hpp:45-190 | such steps from the initial state are a run, so what holds of all runs holds of them |
| PollerSpec.PerformKeeps | ConsoleApplication1/libzmq/include/zmq_addon.hpp:684-713 | every add, remove and modify, successful or not, keeps map, registrations and vectors in agreement |
| PollerSpec.EverySocketFits | ConsoleApplication1/libzmq/include/zmq_addon.hpp:717-726 | after a rebuild if needed, the events vector has room for every ready socket |
| PollerSpec.DispatchEnds | ConsoleApplication1/libzmq/include/zmq_addon.hpp:727-733 | the batch ends by an exception iff the last handler called throws; no earlier one threw, and without an exception all are called |
| PollerSpec.DispatchState | ConsoleApplication1/libzmq/include/zmq_addon.hpp:727-732 | the batch ends in the state that the operations of exactly the handlers called lead to |
| PollerSpec.DispatchCalls | ConsoleApplication1/libzmq/include/zmq_addon.hpp:727-732 | each call of the batch is the event at its place, made in the state that the handlers before it left |
| PollerSpec.DispatchCallsLive | ConsoleApplication1/libzmq/include/zmq_addon.hpp:727-732 | whatever the handlers do, every handler called is alive in the state its call starts in and in the state it ends in |
| PollerSpec.WaitSafe | ConsoleApplication1/libzmq/include/zmq_addon.hpp:715-734 | a wait keeps the agreement, calls the handlers registered at the poll, each alive throughout, up to the first that throws, and ends in the state their operations lead to |
| PollerSpec.RemovedHandlerStillCalled | ConsoleApplication1/libzmq/include/zmq_addon.hpp:703-746 | a handler removed during the batch is still called, alive only through the keep-alive vector |
| PollerSpec.RunAgreement | ConsoleApplication1/libzmq/include/zmq_addon.hpp:684-734 | the agreement holds in every state of every run |
| PollerSpec.RunNeverDangles | ConsoleApplication1/libzmq/include/zmq_addon.hpp:715-734 | no call of any wait of any run starts, or ends, on a handler that is gone |
| PollerHistory.InterestMeans | ConsoleApplication1/libzmq/include/zmq_addon.hpp:684-713 | a socket is watched iff some accepted add of it has no accepted remove behind it; it then has the events of the last accepted modify since, or of that add |
| PollerHistory.HistoryDecides | ConsoleApplication1/libzmq/include/zmq_addon.hpp:684-713 | after any history the map, the registration and its events are, for each socket, what the history of that socket says |
| PollerHistory.CallsLatestHandler | ConsoleApplication1/libzmq/include/zmq_addon.hpp:684-734 | in every run, a ready socket calls the handler of its last effective add, polled for the events asked for last, operations inside handlers included |
| ActivePollers.ActivePoller.Add | ConsoleApplication1/libzmq/include/zmq_addon.hpp:684-701 | succeeds iff there is a handler, the base poller accepts and the socket is new; then the socket gets a new handler in the map and a registration of the given events with it, and no other entry changes; the roll-back leaves all as before |
| ActivePollers.ActivePoller.Remove | ConsoleApplication1/libzmq/include/zmq_addon.hpp:703-708 | succeeds iff the base poller accepts and has the socket; then its entry, and no other, leaves map and registrations; a failure leaves all as before |
| ActivePollers.ActivePoller.Modify | ConsoleApplication1/libzmq/include/zmq_addon.hpp:710-713 | succeeds iff the base poller accepts and has the socket; then its events, and nothing else, are the given ones; a failure leaves all as before |
| ActivePollers.ActivePoller.RebuildVectors | ConsoleApplication1/libzmq/include/zmq_addon.hpp:717-725 | both vectors are brought up to date, in whatever order the map is walked |
| ActivePollers.ActivePoller.DispatchAll | ConsoleApplication1/libzmq/include/zmq_addon.hpp:727-732 | calls the first entries of the vector in order although handlers change the poller; no user data is null, and handlers live until their call ends |
| ActivePollers.ActivePoller.Wait | ConsoleApplication1/libzmq/include/zmq_addon.hpp:715-734 | calls the handlers in the map at the poll, in order and alive throughout, up to the first that throws; returns the count iff none does; ends in the state their operations lead to |
| Buffers.MutableBuffer.Advance | ConsoleApplication1/libzmq/include/zmq.hpp:1096-1103 | advancing in place is the saturating sum |
| Buffers.AdvancesAddUp | ConsoleApplication1/libzmq/include/zmq.hpp:1096-1114 | any advances are one by their true sum, and never leave the view |
| Buffers.PlusTwice | ConsoleApplication1/libzmq/include/zmq.hpp:1110-1114 | adding twice is adding the wrapped sum iff it does not wrap or still covers the view |
| Buffers.PlusTwiceFails | ConsoleApplication1/libzmq/include/zmq.hpp:1110-1114 | a view and two numbers for which adding twice and adding the wrapped sum differ |
| Buffers.SplitBytes | ConsoleApplication1/libzmq/include/zmq.hpp:1175-1186 | truncating to n and advancing by n split the bytes of every view |
| HandleLedger.StepBalanced | ConsoleApplication1/SqliteWrapper.hpp:44-113 | a step leaves each open handle exactly one holder iff it neither writes through set() on a holding wrapper nor closes a connection with open statements |
| HandleLedger.StepLeaks | ConsoleApplication1/SqliteWrapper.hpp:44-113 | whatever the caller does, no handle has two holders or gets two close calls, and a step leaks exactly the handle it overwrites or whose close is refused |
| HandleLedger.DestroyBalancedIffIdle | ConsoleApplication1/SqliteWrapper.hpp:50-54 | destroying a wrapper keeps the balance iff no open statement was prepared on the handle it holds |
| HandleLedger.SetBalancedIffEmpty | ConsoleApplication1/SqliteWrapper.hpp:89-91 | writing through set() keeps the balance iff the wrapper was empty |
| HandleLedger.PreparedTwiceLeaks | ConsoleApplication1/SqliteWrapper.hpp:237-242 | preparing one statement twice and destroying it leaves the first handle open with no holder |
| HandleLedger.ConnectionFirstLeaks | ConsoleApplication1/SqliteWrapper.hpp:138-140 | a connection destroyed before its statement stays open for good; the other order closes both |
| HandleLedger.RunLeaks | ConsoleApplication1/SqliteWrapper.hpp:44-113 | in any run the leaked handles are exactly those that single steps lost |
| HandleLedger.RunBalanced | ConsoleApplication1/SqliteWrapper.hpp:44-113 | any run is in balance iff each of its steps was disciplined |
| HandleLedger.StatementsClose | ConsoleApplication1/SqliteWrapper.hpp:226-230 | in any run the close call of a statement is never refused |
| HandleLedger.EveryHandleAccounted | ConsoleApplication1/SqliteWrapper.hpp:77-113 | in any run every issued handle is held, in the program's hands, leaked or closed, and no handle gets two close calls |
| HandleLedger.EveryHandleClosedOnce | ConsoleApplication1/SqliteWrapper.hpp:77-113 | when all wrappers of a disciplined program are gone, every issued handle was released or was closed exactly once |
| HandleOwners.UniqueHandle.Reset | ConsoleApplication1/SqliteWrapper.hpp:99-106 | makes one close call on the old handle unless it is the new one |
| HandleOwners.UniqueHandle.Release | ConsoleApplication1/SqliteWrapper.hpp:93-97 | gives the handle away and empties the wrapper |
| HandleOwners.UniqueHandle.Swap | ConsoleApplication1/SqliteWrapper.hpp:108-112 | exchanges the handles |
| HandleOwners.UniqueHandle.Destroy | ConsoleApplication1/SqliteWrapper.hpp:50-54 | makes one close call on the handle unless it is null |
| HandleOwners.UniqueHandle.Move | ConsoleApplication1/SqliteWrapper.hpp:66-68 | takes the handle over and empties the source |
| HandleOwners.SocketOwner.CloseSocket | ConsoleApplication1/libzmq/include/zmq.hpp:2204-2213 | closes once and forgets handle and context |
| HandleOwners.SocketOwner.Move | ConsoleApplication1/libzmq/include/zmq.hpp:2183-2188 | takes handle and context over and empties the source |
| HandleOwners.SocketOwner.MoveAssign | ConsoleApplication1/libzmq/include/zmq.hpp:2189-2195 | closes the old handle, takes handle and context of the other over; onto itself it only closes, and forgets the context |
| HandleOwners.SqliteConnection.Open | ConsoleApplication1/SqliteWrapper.hpp:144-153 | a failing open keeps the old connection and makes one close call on the new handle; a successful one makes one on the old handle |
| HandleOwners.SqliteStatement.Prepare | ConsoleApplication1/SqliteWrapper.hpp:237-242 | stores what SQLite produced and closes nothing; throws iff preparing or binding fails, the handle staying stored if only binding fails |
| HandleOwners.OpenLeaks | ConsoleApplication1/SqliteWrapper.hpp:138-153 | open as steps of any run is always allowed, has the effect of the method, and leaks the old connection iff it succeeds while statements on it are open |
| HandleRuns.Perform | ConsoleApplication1/SqliteWrapper.hpp:44-113 | each operation on UniqueHandle objects takes objects that represent a ledger state to objects that represent the state after the step |
| HandleRuns.PerformStep | ConsoleApplication1/SqliteWrapper.hpp:44-113 | the same, with the handles that end up in the objects: a moved-from wrapper is empty and the new one holds what it held, swaps exchange, and no other object changes |
| HandleRuns.PerformRun | ConsoleApplication1/SqliteWrapper.hpp:44-113 | a whole run on objects ends as the ledger's run does: no handle has two close calls, and it is in balance, every issued handle open or closed, iff the duties were kept |
| HandleRuns.PerformOnSockets | ConsoleApplication1/libzmq/include/zmq.hpp:2183-2219 | the same for the operations of socket_t, move assignment onto itself included |
| HandleRuns.PerformSocketStep | ConsoleApplication1/libzmq/include/zmq.hpp:2183-2219 | the same, with the handles that end up in the objects |
| HandleRuns.SocketRunsDisciplined | ConsoleApplication1/libzmq/include/zmq.hpp:2183-2219 | every run on sockets keeps the duties by itself: no close is refused |
| HandleRuns.PerformSocketRun | ConsoleApplication1/libzmq/include/zmq.hpp:2183-2219 | a whole run on sockets closes no handle twice and leaves none open when the last owner is gone, but those the program holds itself |
| HandleRuns.OpenAmong | ConsoleApplication1/SqliteWrapper.hpp:144-153 | the method that opens a connection performs, among any other wrappers, exactly the steps of OpenLeaks, with the same leak |
| HandleRuns.PrepareAmong | ConsoleApplication1/SqliteWrapper.hpp:237-242 | the method that prepares a statement performs one write through set(), and leaks exactly the handle the statement held |
| HandleRuns.PrepareTwice | ConsoleApplication1/SqliteWrapper.hpp:237-242 | a statement object prepared twice: its destructor closes the second handle only, and its connection never closes |
| HandleRuns.OpenAgain | ConsoleApplication1/SqliteWrapper.hpp:138-153 | a connection opened again while a statement on it lives: the old connection stays open after both objects are gone |

## Left out

- Allocation failures of `message_t` (out of memory) and the identity of the `zmq_msg_t` behind a part: a part is the value of its bytes.
- The output iterators of `decode` and the receive loops are the list of what was written through them; an iterator that throws is not modelled.
- The pipe has one sender and one receiver; sockets with several peers, and a blocking call that is still waiting, are not modelled (a call that waits is a step not yet taken).
- `prepend` and `append` of an object onto itself do not terminate in the source; they are excluded by precondition.
- A `wait` called from inside a handler, which would resize the vector being walked, and a handler object's own code beyond its calls to the poller.
- `context_t` follows the pattern of `socket_t` without the context field; its retry of an interrupted `zmq_ctx_term` is not modelled.
- `UniqueHandle`'s move assignment returns by value from a type that cannot be copied, so it cannot be instantiated.
- `rowIterator`, parameter binding and column readers: what they yield is decided by SQLite. BLOB handles and backups, which also keep a connection open, are not wrapped.
- `message_t::str`, `multipart_t::str`, typed push and pop, `monitor_t`, socket options, deprecated overloads: thin wrappers or debug output.
- `TaskSchedule`, `TcpServer`, `DataStorage`, `OcrProcess`, `Tools` and `main.cpp` are not part of this model: it covers the header-only layers beside them.
- Bundled OpenSSL and spdlog headers.
