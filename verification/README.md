# Verified model of the C abstract HTTP library's engines

A Dafny model of the self-contained engines of a C89 HTTP library, with proofs of what each engine
is for. `dafny verify dfyconfig.toml` checks everything.

| files | engine |
|---|---|
| `Bytes`, `Bits` | octets, 32-bit words, masks, network byte order, chunks; what bitwise operations do to each bit |
| `WsFrame`, `WsMachine`, `WsParser`, `WsAssembly` | WebSocket frames (RFC 6455 sections 5.2 to 5.5): the packers, the resumable six-state parser with its buffers, reassembly |
| `WsStream`, `WsProtocol` | the outbound byte queue, and its use by senders, closers and one reader over all interleavings |
| `Handshake` | the signature of the opening handshake |
| `TimerHeap`, `TimerHistory` | the timer heap in its array; what happened to each timer |
| `CallbackScripts`, `TimerRuns`, `EventLoop` | what callbacks do to the root; runs of an event loop told without a heap; the loop over the heap with re-entrant callbacks, which refines them |
| `BlockFold`, `Sha1`, `Sha1Bits`, `Sha1Stream` | RFC 3174 in formulas and once more bit by bit, and the streaming context |
| `Groups`, `Base64` | RFC 4648 section 4 as a specification, both encoders, the decoder |
| `Coroutine` | the pthread fallback of the coroutine as a step system |
| `ThreadPool`, `TaskList` | the pool's lock and condition variable protocol as a step system, and its linked task list |
| `SseMachine`, `SseParser` | server-sent events: the buffers octet by octet, lines, events |
| `SseStandard`, `SseOverrun` | the events of WHATWG HTML section 9.2.6 against those of the code; the store outside the data buffer |
| `Ipc`, `IpcCodec` | the inter-process exchange format, serializer and deserializer |
| `UrlEncoding`, `QueryScan`, `OAuthForms` | percent-encoding, the query scan of the localhost intercept, the OAuth2 builders |
| `Multipart`, `MultipartReader` | the multipart body: estimate, write, and taking apart again; a reader of bodies with a grammar of its own |

Each engine has a specification made of functions on sequences, and code in the source's own form
(classes over arrays, loops, cursors) proved equal to it; the theorems are about the specification.
Where the code and its specification share a formula, a second description that does not name it
says what it computes: `Sha1Bits` for the compression function, `SseMachine.FieldExactly` and the
standard's own reading of a line, `WsProtocol.SentIsHeard` from calls to callbacks,
`MultipartReader` for the heads of parts.
Concurrent engines are step systems in which every critical section, lock, wait, signal and
spurious wakeup is a step, and the theorems are about every reachable state and every run.

Where the code does not do what one would expect, the code is kept and the exact condition proved:

- The WebSocket loop runs while octets are left, so an empty payload that ends a chunk is
  dispatched only with the next octet (`WsMachine.SettleFirst`, `WsAssembly.LastFrameRun`).
- Closing is two critical sections, so frames can be queued behind the CLOSE frame; none is if and
  only if no step in between sends (`WsProtocol.CloseIsLast`, a run that does in
  `WsProtocol.FrameBehindClose`). A CLOSE frame given to plain send never closes
  (`WsProtocol.PlainSendNeverCloses`).
- A fired timer is removed as the root, after its callback. A turn loses a timer if and only if the
  last addition of the callback that lowers the minimum below the fired expiration is not cancelled
  later in it (`CallbackScripts.LosesExactly`; over whole runs `TimerRuns.RunLoses`). Firings are
  in order if and only if no timer fires that was added after a firing and expires before it
  (`TimerRuns.OrderExactly`). A negative timeout does either (`TimerRuns.NegativeRunLoses`,
  `TimerRuns.LateRunFires`); clocks that do not step back and timeouts that are not negative never
  do (`TimerRuns.RunCalm`). `EventLoop.RunFresh` has all of this for the loop itself.
- The SHA-1 bit counter is right if and only if a call brings less than 2^29 octets or the low
  word overflows (`Sha1Stream.CounterRight`), and the block loop ends if and only if its 32-bit
  index does not wrap around (`Sha1Stream.LoopNeverEnds`).
- Server-sent `data` lines can have their terminator stored one past the end of the buffer, which
  the model records in a flag. Over any chunks this happens if and only if one line brings the data
  held exactly to the capacity, a function of the lengths (`SseOverrun.OverrunOverOctets`); eight
  lines of 511 octets do it under every limit (`SseOverrun.OverrunHappens`).
- The events are those of the WHATWG description if and only if no event that is dispatched has an
  empty last `event` value or an id with a NUL (`SseStandard.StreamExactly`; the inputs
  `SseStandard.EmptyType` and `SseStandard.NulId`), and the lines are its lines if and only if every
  CR stands in front of an LF (`SseStandard.SameLines`; the input `SseStandard.LoneCr`).
- An exchanged request or response survives if and only if its strings and its body are present
  and not empty in the way `Ipc.RequestRoundTrip` and `Ipc.ResponseRoundTrip` state
  (`Ipc.EmptyUrl`, `Ipc.EmptyValue`). The end test of the parsers is right if and only if the
  address it computes does not wrap around (`IpcCodec.PointerTestRight`, `Ipc.LengthWraps`).
- Of clean parameters, the query scan loses an empty last one and nothing else
  (`QueryScan.JoinedRoundTrip`; `QueryScan.EmptyLast`, `QueryScan.AmpersandSplits`).
- A multipart body can be taken apart if and only if no part holds the delimiter
  (`Multipart.PartsRecovered`, `Multipart.TwoForOne`); the code draws the boundary without looking
  at the parts. A part is then read as it was given if and only if its names hold no line end or
  quote, its header keys no line end or colon, its values no line end, and no header is taken for
  the content type (`MultipartReader.PartRead`); the code writes them unchecked.

## Model

| member | source | states |
|---|---|---|
| `WsFrame.MaskTwice` | src/http_ws.c:373-387 | applying the same key at the same position twice gives the octets back |
| `WsFrame.MaskSplit` | src/http_ws.c:599-606 | masking in pieces, each at its own position, is masking whole: what unmasking on the fly relies on |
| `WsFrame.MaskBit` | src/http_ws.c:373-387 | every bit of a masked octet is the sum modulo 2 of the data bit and the key bit, the four key octets taking turns |
| `WsFrame.OpcodesAssigned` | src/http_ws.c:611-648 | the opcodes are those of RFC 6455 section 11.8 |
| `WsFrame.ApplyMask` | src/http_ws.c:373-387 | the in-place loop computes the masked octets and touches nothing behind them |
| `WsFrame.PackSmall` | src/http_ws.c:391-405 | the two-octet header, or refusal of a length over 125 |
| `WsFrame.PackMedium` | src/http_ws.c:408-425 | the four-octet header of RFC 6455 section 5.2, or refusal of a length outside 126 to 65535 |
| `WsFrame.PackLarge` | src/http_ws.c:428-445 | the ten-octet header with the length in network byte order |
| `WsMachine.StepByte` | src/http_ws.c:494-753 | every octet keeps each offset inside its buffer, whatever the state |
| `WsMachine.RunConcat` | src/http_ws.c:486-755 | running on a concatenation is running on the first part and, if it succeeds, on the second |
| `WsMachine.ChunkingIndependence` | src/http_ws.c:486-755 | two ways of cutting the same octets give the same callbacks, return code and final state, those of the whole, up to and including the first error |
| `WsMachine.PayloadPiece` | src/http_ws.c:578-609 | copying and unmasking many payload octets at once is taking them one by one |
| `WsMachine.SettleFirst` | src/http_ws.c:494-494 | an empty payload that ends a chunk is dispatched exactly when one more octet is fed |
| `WsMachine.RoundStep` | src/http_ws.c:494-753 | one turn of the loop does what the specification says for the octets it consumes |
| `WsMachine.OneByte` | src/http_ws.c:494-753 | feeding one octet is settling a pending empty frame and taking one step |
| `WsParser.Parser.constructor` | src/http_ws.c:448-469 | a fresh parser is the initial machine, with no callback invoked |
| `WsParser.Parser.OnOpcode` | src/http_ws.c:496-518 | first octet: reserved bits and fragmented control frames are refused and reported |
| `WsParser.Parser.OnLen` | src/http_ws.c:519-537 | second octet: mask bit and the choice among three lengths |
| `WsParser.Parser.OnExt16` | src/http_ws.c:538-549 | two-octet length, network byte order |
| `WsParser.Parser.OnExt64` | src/http_ws.c:550-569 | eight-octet length, refused and reported beyond the frame limit |
| `WsParser.Parser.OnMask` | src/http_ws.c:570-577 | masking key, octet by octet |
| `WsParser.Parser.Reserve` | src/http_ws.c:584-595 | the payload buffer grows to the frame and keeps its contents |
| `WsParser.Parser.Store` | src/http_ws.c:597-609 | a piece of payload is appended unmasked according to its position |
| `WsParser.Parser.UnmaskInPlace` | src/http_ws.c:599-606 | the unmasking loop changes exactly the octets just copied |
| `WsParser.Parser.DoubleUntil` | src/http_ws.c:668-670 | capacity doubling ends with the first sufficient doubling |
| `WsParser.Parser.AppendFragment` | src/http_ws.c:650-694 | a non-final data frame is refused, refused for its size, or appended |
| `WsParser.Parser.DeliverFinal` | src/http_ws.c:696-736 | a final data frame delivers the collected message, or itself if nothing was collected |
| `WsParser.Parser.Dispatch` | src/http_ws.c:611-737 | a complete frame triggers the callback of its kind, with the close status or payload |
| `WsParser.Parser.FinishFrame` | src/http_ws.c:611-744 | dispatch, then reset for the next frame unless an error was reported |
| `WsParser.Parser.OnPayload` | src/http_ws.c:578-746 | one turn in the payload state, which may finish an empty frame without consuming an octet |
| `WsParser.Parser.NextRound` | src/http_ws.c:494-753 | the loop makes progress by the lexicographic measure of octets left and pending empty payload |
| `WsParser.Parser.Feed` | src/http_ws.c:486-755 | for every chunk and every reachable state: new state, callbacks and return code are those of the octet-by-octet specification; offsets stay in bounds; the loop ends |
| `WsAssembly.HeaderRun` | src/http_ws.c:495-569 | a packed header of any of the three widths is read back: fin, opcode, mask bit, length |
| `WsAssembly.HeaderVerdict` | src/http_ws.c:501-567 | a header is accepted if and only if the frame is receivable; otherwise exactly the named error is reported |
| `WsAssembly.ReservedBitRefused` | src/http_ws.c:501-507 | a reserved bit is a framing error whatever follows |
| `WsAssembly.TooLong` | src/http_ws.c:560-567 | an eight-octet length over the limit is refused and reported once |
| `WsAssembly.FrameRun` | src/http_ws.c:494-753 | a whole encoded frame is consumed and delivered, masked or not |
| `WsAssembly.FramesRun` | src/http_ws.c:494-753 | any sequence of receivable frames, fed as one octet string, is delivered frame by frame |
| `WsAssembly.LastFrameRun` | src/http_ws.c:494-494 | without the extra octet, everything but a last empty frame is already delivered |
| `WsAssembly.WholeFrames` | src/http_ws.c:611-744 | unfragmented frames are reported in order, with their opcodes, payloads and close statuses |
| `WsAssembly.ControlErasable` | src/http_ws.c:614-648 | erasing the control frames leaves data messages, buffer and status unchanged |
| `WsAssembly.ControlReported` | src/http_ws.c:614-648 | the control frames are reported in order, whatever data is in progress |
| `WsAssembly.Reassembly` | src/http_ws.c:648-736 | one message is delivered, the concatenation of the fragments under the last opcode, if and only if the fragments fit and are continued properly; otherwise one error |
| `WsAssembly.InterleavedMessage` | src/http_ws.c:611-744 | the same with control frames interleaved anywhere (RFC 6455 section 5.4) |
| `WsAssembly.FragmentedMessage` | src/http_ws.c:486-755 | the same from octets: the encoded, interleaved fragments fed to the parser |
| `WsStream.Stream.constructor` | src/http_ws.c:202-245 | an empty queue, not closed |
| `WsStream.Stream.Send` | src/http_ws.c:946-1063 | refused after close, otherwise exactly one whole encoded frame is appended |
| `WsStream.Stream.Reserve` | src/http_ws.c:1014-1033 | growth by doubling keeps the queued octets |
| `WsStream.Stream.Read` | src/http_ws.c:150-166 | what is returned and what stays queued are together what was queued, cut at the buffer size |
| `WsStream.StatusRead` | src/http_ws.c:1068-1075 | whatever the status: the two octets sent, read in network order, are its low sixteen bits |
| `WsStream.Stream.Close` | src/http_ws.c:1066-1102 | a CLOSE frame whose payload is read as the low sixteen bits of the status, then the flag; refused if already closed |
| `WsStream.PackHeader` | src/http_ws.c:963-990 | the header is the one of RFC 6455 for the payload length |
| `WsProtocol.RunInvariant` | src/http_ws.c:126-170 | over every interleaving the invariant is kept and history is final |
| `WsProtocol.QueueConserved` | src/http_ws.c:999-1059 | octets read followed by octets queued are the concatenation of the accepted frames; a waiting reader has nothing to read |
| `WsProtocol.NothingAfterClose` | src/http_ws.c:1004-1012 | once close is requested no later step adds a frame |
| `WsProtocol.EndOfStream` | src/http_ws.c:126-170 | a read with room returns nothing if and only if the queue is empty and close is requested |
| `WsProtocol.EndIsFinal` | src/http_ws.c:126-170 | and from then on, over every run, every read returns nothing |
| `WsProtocol.ReadsAnytime` | src/http_ws.c:126-170 | a read can begin whenever none is under way, and a waiting reader can be woken spuriously |
| `WsProtocol.AcceptedExactly` | src/http_ws.c:999-1059 | over every run: exactly the frames sent in front of the close flag are accepted, in the order of the steps, whoever sends them |
| `WsProtocol.LastAccepted` | src/http_ws.c:946-1102 | nothing is accepted behind a given accepted frame if and only if every later send lies behind the flag |
| `WsProtocol.CloseIsLast` | src/http_ws.c:1066-1102 | the CLOSE frame is the last frame for ever if and only if no step between the two critical sections of close sends |
| `WsProtocol.FrameBehindClose` | src/http_ws.c:1077-1087 | the condition can fail: a run in which a data frame is queued behind the CLOSE frame |
| `WsProtocol.PlainSendNeverCloses` | src/http_ws.c:946-1063 | without a call of close, even behind a CLOSE frame given to plain send, every send is accepted and the stream never ends |
| `WsProtocol.SendStep` | src/http_ws.c:999-1059 | the critical section of send, in the class, is the step of the step system |
| `WsProtocol.ReadStep` | src/http_ws.c:150-166 | and so is the copying part of a read |
| `WsProtocol.FlagStep` | src/http_ws.c:1083-1099 | and the second critical section of close |
| `WsProtocol.EndToEnd` | src/http_ws.c:946-1063 | any interleaving, any keys, any read sizes: a fresh parser fed with what was read reports the accepted frames in order, an empty last frame with the next octet |
| `WsProtocol.SentIsHeard` | src/http_ws.c:946-1102 | from the calls to the callbacks, over every run: the parser reports what senders and closers gave, each message with its opcode and payload, each close with the status of its call |
| `WsProtocol.CloseIsHeard` | src/http_ws.c:1066-1102 | the stream object is closed, drained into the parser object, and the one callback is a close with the status given |
| `Handshake.Sign` | src/http_ws.c:67-108 | Base64 of SHA-1 of key and GUID, 28 characters; keys of 64 octets and more are refused |
| `Handshake.GuidSpelled` | src/http_ws.c:70-70 | the key is signed with the identifier of RFC 6455 section 1.3 |
| `Handshake.ConstantTimeEqual` | src/crypto_utils.c:287-302 | the accumulating comparison is equality of strings |
| `Handshake.Verify` | src/http_ws.c:111-123 | success if and only if the answer is the signature of the key |
| `Handshake.AcceptDecodes` | src/http_ws.c:67-108 | an accepted answer decodes to the digest |
| `TimerHeap.RootIsMinimal` | src/event_loop.c:560-563 | the root expires no later than any timer in the heap |
| `TimerHeap.HeapUp` | src/event_loop.c:165-179 | a heap again, the same multiset, the rest untouched; the root changes exactly for an earlier timer |
| `TimerHeap.HeapDown` | src/event_loop.c:181-208 | a heap again, the same multiset; a last slot that does not expire earlier is never chosen, because comparisons are strict |
| `TimerHistory.AddedLedger` | src/event_loop.c:470-520 | an addition, whatever the clock and the timeout, keeps the ledger that links the history of all timers to the heap |
| `TimerHistory.CancelledLedger` | src/event_loop.c:523-550 | a cancellation keeps it |
| `TimerHistory.FiredLedger` | src/event_loop.c:565-568 | firing an active timer when due keeps it: once, not early, not cancelled |
| `TimerHistory.DroppedLedger` | src/event_loop.c:570-580 | removing a timer loses exactly that timer if it is active, and otherwise nothing |
| `TimerHistory.NoneLostExactly` | src/event_loop.c:469-583 | no uncancelled timer has left the heap unfired if and only if the set of lost timers is empty |
| `TimerHistory.OneOfFour` | src/event_loop.c:469-583 | every timer ever added is fired, cancelled, lost or still open, never two of these, and open exactly while the heap has it, active |
| `CallbackScripts.RootStaysExactly` | src/event_loop.c:565-573 | the fired node is still the root behind its callback if and only if no addition expires before it |
| `CallbackScripts.LosesExactly` | src/event_loop.c:565-573 | what is removed is an active timer if and only if the last addition that lowered the minimum below the fired expiration is not cancelled later in the callback |
| `CallbackScripts.OrderlyLosesNothing` | src/event_loop.c:565-573 | with clocks that do not step back and timeouts that are not negative, no callback of a due timer does so |
| `TimerRuns.TurnsScripts` | src/event_loop.c:565-568 | in a run without a heap the k-th turn runs the k-th callback |
| `TimerRuns.RunFires` | src/event_loop.c:552-583 | the firings of a run are those of its turns, in order, each with the clock reading of its round |
| `TimerRuns.RunAdds` | src/event_loop.c:502-504 | as many ids are given out as timers were added by its callbacks |
| `TimerRuns.RunLoses` | src/event_loop.c:565-580 | a run loses no timer if and only if no turn of it meets the condition |
| `TimerRuns.RunWaited` | src/event_loop.c:560-568 | a timer that was there when another fired does not expire before it |
| `TimerRuns.OrderExactly` | src/event_loop.c:560-568 | firings are in order if and only if every timer that is added after a firing and expires before it is cancelled, lost or still open |
| `TimerRuns.RunCalm` | src/event_loop.c:724-880 | runs whose clocks do not step back and whose timeouts are not negative lose nothing and fire in order |
| `TimerRuns.NegativeRunLoses` | src/event_loop.c:565-580 | rounds in which a callback adds a timer with timeout -1: every run of them loses it |
| `TimerRuns.LateRunFires` | src/event_loop.c:565-580 | rounds in which such a timer is added after a firing: every run of them fires out of order |
| `EventLoop.Loop.AddTimer` | src/event_loop.c:470-520 | the heap gains exactly the new timer; it takes the root if and only if it expires before it |
| `EventLoop.Loop.CancelTimer` | src/event_loop.c:523-550 | the first active timer of that id becomes inactive, otherwise nothing changes |
| `EventLoop.Loop.RemoveRootLate` | src/event_loop.c:570-580 | although the count is decremented after the sift, the result is a heap of the old multiset minus the root |
| `EventLoop.Loop.RemoveRootEarly` | src/event_loop.c:624-633 | the same for the lazy removal, where the count is decremented before |
| `EventLoop.Loop.RunOps` | src/event_loop.c:565-568 | a callback of any kind: the ledger is kept, the history becomes the one without a heap, and the root is the one that the operations make it |
| `EventLoop.Loop.DropRoot` | src/event_loop.c:570-580 | whatever is the root leaves the heap, and is lost if it is active |
| `EventLoop.Loop.FireRoot` | src/event_loop.c:565-580 | one turn: it fires a due timer before which no open one expires, runs its callback, and has the history of a turn without a heap |
| `EventLoop.Loop.ExpireRoot` | src/event_loop.c:560-580 | with an active root exactly such a turn with the next callback, otherwise nothing but the removal |
| `EventLoop.Loop.ProcessTimers` | src/event_loop.c:552-583 | the turns are those of a run without a heap: each fires an earliest open timer and runs its callback, until nothing that is open is due |
| `EventLoop.Loop.Prune` | src/event_loop.c:768-777 | cancelled roots leave, active timers stay |
| `EventLoop.Loop.NextTimeout` | src/event_loop.c:766-784 | the wait ends with the earliest uncancelled timer; -1 if and only if there is none |
| `EventLoop.Loop.Wait` | src/event_loop.c:766-784 | the same wait in terms of the open timers of the history, which pruning does not change |
| `EventLoop.Loop.RunRound` | src/event_loop.c:738-880 | one round of firing, pruning, waiting and descriptor callbacks is a round without a heap |
| `EventLoop.Loop.Run` | src/event_loop.c:738-880 | any rounds, with any clocks, timeouts and callbacks: the heap loop refines the runs without a heap, its history is theirs, and so are its waits |
| `EventLoop.RunVerdict` | src/event_loop.c:724-880 | of every run from a fresh loop: nothing is lost if and only if no turn meets the condition, the firings are in order if and only if no late timer fires, and both hold for orderly rounds |
| `EventLoop.RunFresh` | src/event_loop.c:724-880 | whole runs of the loop itself: each timer fires at most once, never early, never once cancelled, and everything that holds of runs without a heap holds of it |
| `EventLoop.LostTimer` | src/event_loop.c:565-580 | run on the rounds with the negative timeout, the loop loses a timer |
| `EventLoop.LateTimer` | src/event_loop.c:565-580 | run on the rounds with the late timer, the loop fires out of order |
| `BlockFold.BlocksConcat` | src/crypto_utils.c:113-119 | hashing a concatenation of whole blocks is hashing one part after the other |
| `Sha1Bits.ScheduleExactly` | src/crypto_utils.c:15-23 | bit by bit: sixteen words of the block, and from then on each bit one place up from the parity of four earlier words; the schedule is these words and no others |
| `Sha1Bits.RoundExactly` | src/crypto_utils.c:25-57 | one round, bit by bit: rotations, choice, parity and majority, and constants that are the first bits of the square roots of 2, 3, 5 and 10; no other state follows |
| `Sha1Bits.CompressExactly` | src/crypto_utils.c:11-66 | the compression of a block is the schedule, eighty such rounds and one addition, and no other hash is |
| `Sha1Bits.InitialOctets` | src/crypto_utils.c:79-83 | the octets of the words where hashing starts count up and down in steps |
| `Sha1Bits.DigestExactly` | src/crypto_utils.c:69-163 | the digest: padding by its properties, the blocks compressed in turn, five words in network order; there is no other |
| `Sha1Stream.Transform` | src/crypto_utils.c:11-66 | the in-place schedule and rounds compute that compression |
| `Sha1Stream.RoundBody` | src/crypto_utils.c:25-57 | the five variables shifted through one another make such a round |
| `Sha1Stream.FillSchedule` | src/crypto_utils.c:15-23 | the array holds that schedule |
| `Sha1Stream.CounterRight` | src/crypto_utils.c:106-111 | the two-word counter is right modulo 2^64 if and only if the call brings less than 2^29 octets or the low word overflows |
| `Sha1Stream.Context.constructor` | src/crypto_utils.c:69-85 | an empty message |
| `Sha1Stream.GuardRight` | src/crypto_utils.c:113-119 | while the 32-bit index does not wrap around, the guard of the block loop holds exactly while a whole block is left |
| `Sha1Stream.LoopNeverEnds` | src/crypto_utils.c:113-119 | otherwise the guard holds at every index that the loop can reach |
| `Sha1Stream.CounterFails` | src/crypto_utils.c:106-111 | a call that the counter gets wrong: 2^29 octets at the start are counted twice |
| `Sha1Stream.ShortAdmitted` | src/crypto_utils.c:106-119 | calls under 2^29 octets are always admitted |
| `Sha1Stream.Context.HashWhole` | src/crypto_utils.c:113-119 | the buffered block and every further whole block are hashed |
| `Sha1Stream.Context.Update` | src/crypto_utils.c:88-125 | the message hashed so far is extended by the data, for every call that the counter takes and whose loop ends |
| `Sha1Stream.Context.PadZeros` | src/crypto_utils.c:147-152 | the padding loop ends, after exactly the zeros of RFC 3174 section 4 |
| `Sha1Stream.Context.Final` | src/crypto_utils.c:128-163 | that digest of the whole message, and a wiped context |
| `Sha1Stream.DigestOf` | src/crypto_utils.c:69-163 | init, any sequence of such updates, final: the digest of the concatenation |
| `Base64.Encode` | src/crypto_utils.c:169-207 | the RFC 4648 encoding, padded by a loop from the end |
| `Base64.Alphabet` | src/crypto_utils.c:165-166 | the alphabet of RFC 4648 section 4, table 1 |
| `Base64.TableExactly` | src/crypto_utils.c:210-225 | the decoding table maps that alphabet back and marks every other octet |
| `Base64.EncodeByCases` | src/http_types.c:1082-1115 | the second encoder, padded by cases, computes the same encoding for every input |
| `Base64.EncodedIsPadded` | src/crypto_utils.c:198-200 | overwriting the end of the zero-continued encoding is the padding of the standard |
| `Base64.EncodedLength` | src/crypto_utils.c:180-180 | the length is 4 times the number of groups, rounded up |
| `Base64.Decode` | src/crypto_utils.c:227-285 | lengths that are no multiple of 4 are refused, otherwise the specified octets |
| `Base64.RoundTrip` | src/crypto_utils.c:169-285 | decoding an encoded octet string of any length gives it back |
| `Coroutine.InvariantStep` | src/coroutine.c:490-657 | every step, spurious wakeups included, keeps the invariant |
| `Coroutine.NeverBoth` | src/coroutine.c:490-657 | resumer code and coroutine code never run at once; the mutex has one holder |
| `Coroutine.ResumeReturns` | src/coroutine.c:593-624 | resume returns exactly when the coroutine has next yielded or finished |
| `Coroutine.SegmentsCounted` | src/coroutine.c:593-657 | over every run: as many segments have ended as the code of the coroutine has yielded or returned, and as many calls of resume count as were made |
| `Coroutine.FirstYield` | src/coroutine.c:593-657 | a run in which the first resume reaches the code of the coroutine, and a yield returns it to its caller |
| `Coroutine.FirstReturn` | src/coroutine.c:502-511 | a run in which a return there does, and the coroutine is done |
| `Coroutine.FreedWhileParked` | src/coroutine.c:555-587 | a run in which free unwinds a coroutine parked in a yield and joins its thread |
| `Coroutine.WokenAnytime` | src/coroutine.c:490-657 | either side can be woken spuriously while it waits, and takes the mutex again |
| `Coroutine.JoinEnds` | src/coroutine.c:555-587 | the join in free never waits on a parked coroutine: the thread ends within three steps of its own |
| `Coroutine.NeverStuck` | src/coroutine.c:490-657 | no deadlock inside resume or free |
| `Coroutine.StepsProgress` | src/coroutine.c:490-657 | in every reachable state every library step lowers a rank |
| `Coroutine.LibraryRunsEnd` | src/coroutine.c:490-657 | a run of library steps is no longer than the rank of its first state: absent spurious wakeups, resume and free end |
| `ThreadPool.InvariantStep` | src/thread_pool.c:507-566 | every step of every thread, spurious wakeups included, keeps the invariant |
| `ThreadPool.TasksConserved` | src/thread_pool.c:719-756 | accepted tasks in push order are the popped ones followed by the queue; each popped task is in flight or has run, once |
| `ThreadPool.PushOutcome` | src/thread_pool.c:719-745 | a push that finds the pool running appends its task behind all others; one that finds it stopped returns without a change |
| `ThreadPool.AcceptedExactly` | src/thread_pool.c:719-745 | over every run: accepted are exactly the tasks of the pushes that tested before stop was set, in the order of their appends, read off the steps alone |
| `ThreadPool.PushAlone` | src/thread_pool.c:719-756 | with the mutex free, a push to a running pool goes through by its own steps |
| `ThreadPool.WorkerAlone` | src/thread_pool.c:507-566 | with the mutex free and work in the queue, a worker takes the oldest task and runs it by its own steps |
| `ThreadPool.FreeAlone` | src/thread_pool.c:763-790 | with the mutex free, free sets stop, wakes every waiting worker and goes on to the joins |
| `ThreadPool.WokenAnytime` | src/thread_pool.c:522-528 | a waiting worker can be woken spuriously at any time, and takes the mutex again |
| `ThreadPool.AllRun` | src/thread_pool.c:763-803 | after free has joined all workers every accepted task has run exactly once and the queue is empty |
| `ThreadPool.StopFreezes` | src/thread_pool.c:721-735 | once stop is set nothing more is accepted |
| `ThreadPool.NoLostWakeup` | src/thread_pool.c:522-552 | a non-empty queue is attended by a worker that does not wait, or a signal is under way; after the broadcast nobody waits |
| `ThreadPool.NeverStuck` | src/thread_pool.c:507-566 | no deadlock while there is work, a push or a free |
| `ThreadPool.ShutdownProgress` | src/thread_pool.c:763-803 | after the broadcast every step of a worker or of free lowers a measure over queue, in-flight tasks, live workers and joins |
| `ThreadPool.ShutdownEnds` | src/thread_pool.c:763-803 | over every run from the broadcast on, workers and free make no more steps than that measure, whatever the clients do |
| `TaskList.Queue.Push` | src/thread_pool.c:738-744 | the linked list gains the task at its end |
| `TaskList.Queue.Pop` | src/thread_pool.c:546-550 | the linked list loses its first task |
| `TaskList.PushStep` | src/thread_pool.c:738-744 | the append, in the class, is the step of the step system |
| `TaskList.PopStep` | src/thread_pool.c:546-550 | and so is the removal |
| `SseMachine.ChunkingIndependence` | src/http_sse.c:296-366 | any cut of the input gives the same events, code and state, up to the first error |
| `SseMachine.StepByte` | src/http_sse.c:302-364 | the line offset keeps room for its terminator, the data offset stays inside its buffer |
| `SseMachine.LineRefinement` | src/http_sse.c:296-366 | as long as lines fit, feeding octets is processing the lines they consist of, split at LF with CR dropped |
| `SseMachine.LineLimit` | src/http_sse.c:332-352 | a line is stored if and only if it fits the limit |
| `SseMachine.FieldExactly` | src/http_sse.c:224-237 | every line spells exactly one field and value, with one space behind the colon or none or no colon at all, and these are what is read |
| `SseMachine.OneEvent` | src/http_sse.c:174-366 | the octets of any line that spells a data value, and an empty line, dispatch that value |
| `SseMachine.SpacedEvent` | src/http_sse.c:174-366 | with the usual space: data, colon, space, value and two line feeds dispatch the value without the space |
| `SseMachine.AtoiReads` | src/http_sse.c:284-289 | leading spaces, a sign and decimal digits are read as the number they spell |
| `SseMachine.EventDispatched` | src/http_sse.c:174-293 | the data of an event is the data values since the last empty line joined by LF, its type the last event value; the id persists; no data, no event |
| `SseMachine.StreamDispatched` | src/http_sse.c:174-293 | complete blocks of lines give exactly the events of the code's own rule, block by block |
| `SseMachine.ReadPrefix` | src/http_sse.c:296-366 | feeding octets is feeding those up to the first error, and then the error |
| `SseOverrun.OverrunOverLines` | src/http_sse.c:249-272 | from any state: the terminator is stored outside if and only if some line, all before it processed, fills the data buffer exactly |
| `SseOverrun.StateTracks` | src/http_sse.c:249-272 | the data held and the capacity of the buffer are functions of the lengths of the lines so far |
| `SseOverrun.OverrunExactly` | src/http_sse.c:249-272 | for a fresh parser this depends on the lengths alone |
| `SseOverrun.OverrunOverOctets` | src/http_sse.c:249-366 | the same for any octets in any chunks, up to the first error |
| `SseOverrun.OverrunHappens` | src/http_sse.c:249-366 | octets that do it, accepted under every limit |
| `SseStandard.StandardExactly` | src/http_sse.c:174-293 | over lines: the events are those of WHATWG HTML section 9.2.6 if and only if no dispatched event has an empty last event value or an id with a NUL |
| `SseStandard.SameLines` | src/http_sse.c:331-343 | the lines are the standard's if and only if every CR stands in front of an LF |
| `SseStandard.StreamExactly` | src/http_sse.c:174-366 | the same for any octets in any chunks, an incomplete last block included, up to the first error |
| `SseStandard.StandardStream` | src/http_sse.c:174-366 | where every CR stands in front of an LF and all is accepted, the events are the standard's for the octets, under the same condition |
| `SseStandard.EmptyType` | src/http_sse.c:239-248 | an input with an empty event value: the standard's type is message, the code's is empty |
| `SseStandard.NulId` | src/http_sse.c:274-280 | an input with a NUL in an id: the standard ignores it, the code stores it |
| `SseStandard.LoneCr` | src/http_sse.c:331-343 | an input with lone CRs: one event of the standard, none of the code |
| `SseStandard.LoneCrInComment` | src/http_sse.c:331-343 | an input with a lone CR that does no harm: other lines, the same events |
| `SseParser.Parser.constructor` | src/http_sse.c:93-155 | a fresh parser is the initial machine |
| `SseParser.Parser.OnData` | src/http_sse.c:249-272 | growth, the value, a line feed, the terminator |
| `SseParser.Parser.OnEmptyLine` | src/http_sse.c:182-224 | dispatch without the last line feed, and reset |
| `SseParser.Parser.ProcessOneLine` | src/http_sse.c:174-293 | one line does what the specification says |
| `SseParser.Parser.Feed` | src/http_sse.c:296-366 | for every chunk: new state, events and return code are those of the octet-by-octet specification |
| `SseParser.FeedEvent` | src/http_sse.c:296-366 | the parser object fed with such octets reports the value as it was meant |
| `Ipc.EstimateRight` | src/process.c:570-585 | the size estimate is exact if and only if a body is there whenever its length is positive, and never too small |
| `Ipc.RequestRoundTrip` | src/process.c:566-700 | a request comes back unchanged if and only if the URL is not the empty string, header keys and values are present and not empty, and the body is there exactly with a positive length |
| `Ipc.RequestRead` | src/process.c:636-700 | such a request is read back whatever octets trail |
| `Ipc.RequestTruncated` | src/process.c:636-700 | no strict prefix is accepted, and every one is refused while the whole would fit in memory where the prefix lies |
| `Ipc.EmptyUrl` | src/process.c:545-548 | a request that does not survive: an empty URL comes back as the null pointer |
| `Ipc.LengthWraps` | src/process.c:540-563 | a length passes the end test although nothing is there if and only if it reaches the end of the 64-bit addresses |
| `Ipc.ResponseRoundTrip` | src/process.c:703-823 | the same for responses |
| `Ipc.ResponseRead` | src/process.c:767-823 | trailing octets are ignored |
| `Ipc.ResponseTruncated` | src/process.c:767-823 | the same for responses |
| `Ipc.EmptyValue` | src/process.c:767-823 | a response that does not survive: one with an empty header value is refused |
| `Ipc.HeaderRead` | src/process.c:540-563 | a header is read back if key and value are present and not empty, and refused otherwise |
| `Ipc.CStringCut` | src/process.c:553-560 | a string that holds a NUL is seen up to it |
| `Ipc.LittleEndianAt` | src/process.c:494-504 | sizes are written with the least significant octet first |
| `Ipc.IntOctetsAt` | src/process.c:482-492 | and so are integers, in two's complement |
| `IpcCodec.SerializeRequest` | src/process.c:566-633 | the cursor writes exactly the format, inside the estimated buffer |
| `IpcCodec.SerializeResponse` | src/process.c:703-764 | the same for responses |
| `IpcCodec.Take` | src/process.c:550-551 | the end test of all parsers with its 64-bit address: octets that are there are taken, others refused, unless the address wraps around |
| `IpcCodec.ReadText` | src/process.c:540-563 | length zero is the null pointer; a length beyond the end is refused, or passes the test by wrapping around |
| `IpcCodec.PointerTestRight` | src/process.c:550-551 | the end test is right if and only if the 64-bit address behind the string does not wrap around; otherwise it always passes |
| `IpcCodec.DeserializeRequest` | src/process.c:636-700 | for a buffer at any address: success if and only if the octets parse, then the parsed request; refusal and overrun exactly as the wrapping test decides |
| `IpcCodec.DeserializeResponse` | src/process.c:767-823 | the same for responses |
| `UrlEncoding.EncodedLength` | src/http_types.c:1156-1173 | the count is the number of octets the encoder writes |
| `UrlEncoding.Append` | src/http_types.c:1175-1211 | the cursor moves by exactly that count, the encoding is written, nothing else is touched |
| `UrlEncoding.DecodeAlloc` | src/http_types.c:2133-2164 | the decoded text, terminated, inside a buffer of the input length plus one |
| `UrlEncoding.RoundTrip` | src/http_types.c:2133-2164 | decoding an encoded text gives it back |
| `UrlEncoding.EncodedSafe` | src/http_types.c:1192-1207 | an encoded text consists of unreserved characters, + and %, so it holds no delimiter |
| `UrlEncoding.UnreservedAre` | src/http_types.c:1156-1173 | the unreserved characters are those of RFC 3986 section 2.3 |
| `UrlEncoding.EncodedWell` | src/http_types.c:1192-1207 | every per cent sign of an encoded text is followed by two upper-case hexadecimal digits, everything else is unreserved or + |
| `UrlEncoding.NibblesJoin` | src/http_types.c:2146-2153 | two hexadecimal digits, shifted and joined bitwise, are the octet |
| `UrlEncoding.DigitsInEitherCase` | src/http_types.c:2140-2153 | hexadecimal digits are read in upper and lower case |
| `QueryScan.JoinedRoundTrip` | src/http_types.c:2264-2308 | the scan recovers a joined parameter list if and only if no key or value holds a delimiter and the last parameter is not empty |
| `QueryScan.AmpersandSplits` | src/http_types.c:2264-2280 | a list that is not recovered: a value with an ampersand becomes a value and another parameter |
| `QueryScan.EmptyLast` | src/http_types.c:2264-2280 | another one: an empty last parameter is lost |
| `QueryScan.JoinedRead` | src/http_types.c:2264-2308 | of clean parameters only an empty last one is lost |
| `QueryScan.CleanExactly` | src/http_types.c:2264-2280 | the delimiters that a key or a value may not hold |
| `QueryScan.QueryExactly` | src/http_types.c:2258-2266 | the query is what follows the first question mark of the target, and empty if white space comes first |
| `QueryScan.FormRead` | src/http_types.c:2264-2308 | the scan of a form recovers the encoded key and value list |
| `QueryScan.RedirectRead` | src/http_types.c:2255-2308 | a redirect that carries a form hands over every value as it was before encoding, the last one of a name winning |
| `QueryScan.NextPair` | src/http_types.c:2265-2280 | one turn of the scan: key, value behind =, separator; it always moves on |
| `QueryScan.ScanPairs` | src/http_types.c:2264-2308 | the scan ends, and assigns the decoded last values of the four names |
| `QueryScan.Intercept` | src/http_types.c:2255-2308 | only GET requests; the answer is that of the query behind the first ? of the target |
| `OAuthForms.FormReadBack` | src/http_types.c:1241-1317 | what a builder writes is read back by the scan, every value as it was given |
| `OAuthForms.NamesSpelled` | src/http_types.c:1241-2104 | the parameter names and grant types are those of the standards |
| `OAuthForms.Count` | src/http_types.c:1241-1252 | one summand of the length pass |
| `OAuthForms.Put` | src/http_types.c:1258-1284 | one parameter of the writing pass: literal and encoded value, the cursor ending where the length pass says |
| `OAuthForms.Content` | src/http_types.c:1312-1314 | the finished buffer holds the form, a terminator, and not one octet more |
| `OAuthForms.PasswordGrant` | src/http_types.c:1214-1318 | the cursor ends exactly at the computed length, and the body is the form of these parameters |
| `OAuthForms.RefreshTokenGrant` | src/http_types.c:1323-1418 | the same for the refresh token grant |
| `OAuthForms.AuthorizationCodeGrant` | src/http_types.c:1422-1530 | the same for the authorization code grant |
| `OAuthForms.ClientCredentialsGrant` | src/http_types.c:1533-1618 | the same for client credentials |
| `OAuthForms.JwtBearerGrant` | src/http_types.c:1621-1692 | the same for the JWT bearer grant |
| `OAuthForms.DeviceAuthorization` | src/http_types.c:1694-1752 | the same for the device authorization request |
| `OAuthForms.DeviceAccessToken` | src/http_types.c:1755-1819 | the same for the device access token request |
| `OAuthForms.TokenRequest` | src/http_types.c:1822-1993 | the same for token revocation and token introspection |
| `OAuthForms.AuthorizationUrl` | src/http_types.c:2000-2104 | the same for the authorization URL, behind the endpoint and a separator |
| `OAuthForms.QueryExtended` | src/http_types.c:2023-2047 | an endpoint whose query is a form keeps its parameters in front of the new ones |
| `OAuthForms.QueryBegun` | src/http_types.c:2023-2047 | without a query in the endpoint, the query of the URL is the form alone |
| `Multipart.EstimateSize` | src/http_types.c:479-514 | the estimate, part by part |
| `Multipart.EstimateSlack` | src/http_types.c:479-514 | it exceeds the body by five octets a part, one a file name and two at the end, so a NUL fits behind every write |
| `Multipart.PrintPart` | src/http_types.c:521-610 | one part is written as RFC 2046 section 5.1.1 has it, each write with its terminator inside the estimate |
| `Multipart.PrintHeaders` | src/http_types.c:574-587 | the part headers, line by line |
| `Multipart.Request.FlattenParts` | src/http_types.c:456-655 | the body is the concatenation of the encoded parts and the closing delimiter; requests without parts are left alone, with a body refused |
| `Multipart.PartsRecovered` | src/http_types.c:521-626 | splitting the body at its delimiters finds exactly the parts if and only if the delimiter does not occur inside one |
| `MultipartReader.PartRead` | src/http_types.c:521-610 | a reader with its own grammar of lines, header fields and quoted parameters finds name, file name, type, headers and data as they were given if and only if the part is readable: no line ends or quotes in names, no colons in keys, no line ends in values |
| `MultipartReader.BodyRead` | src/http_types.c:479-626 | split at the delimiters, the whole body gives back all parts if and only if each of them is readable |
| `MultipartReader.FlattenAndRead` | src/http_types.c:456-655 | the request object is flattened and its last header and its body are read: the boundary is named there, and the parts come back under that condition |
| `Multipart.TwoForOne` | src/http_types.c:521-626 | parts that are not recovered: one whose data holds the delimiter and the head of another part has the body of two parts |

## Left out

- Allocation failure, failing mutex and condition variable calls, null arguments, hooks, logging
  and the mocks of the code's own tests: settled by reading one branch each.
- Clocks, masking keys, the multipart boundary and the requests received from a socket are inputs.
- The limits of `ws_config.h` and `sse_config.h`, which are not part of this model, are parameters.
- 64-bit sizes are unbounded naturals, except in the SHA-1 counter and index, and in the sizes of
  the exchange format and the addresses behind them. Timer ids do not wrap around; `atoi` for the
  `retry` field does not overflow.
- `IpcCodec.ReadText`: when a length has passed the end test by wrapping around, the code goes on to
  allocate and copy that many octets; the model stops there and reports an overrun.
- Machines whose octets are big-endian in memory: the exchange format is modelled little-endian.
- The WebSocket queue has one reader, as the transports use it; reads of one stream from several
  threads are not modelled.
- Timer callbacks that call back into the firing loop, the descriptor registry and `select`:
  descriptor callbacks appear as the timer operations they perform.
- `EventLoop.Loop.ProcessTimers`: a run that never ends, because callbacks keep adding due timers,
  has no script and is not modelled; `ExpireRoot` says what any number of its turns keeps.
- `Sha1Stream.Context.Update`: admits the calls that the counter takes and in which the block loop
  ends; `CounterRight` and `LoopNeverEnds` say what the others do.
- `Sha1Stream.DigestOf`: likewise, each call at its place.
- `SseStandard.StreamExactly`: UTF-8 decoding, a byte order mark and `retry` are left out; id and
  type reach the callback as C strings, which a reader sees up to a NUL only. Where a lone CR changes
  the lines, the events may differ or not (`LoneCr`, `LoneCrInComment`); no condition is stated that
  decides it without comparing the two event lists.
- `SseMachine.EventDispatched`: events that the parser refuses for their size end the stream with
  one error.
- `WsAssembly.Reassembly`: the size of a final fragment is not limited by the code, and not by the model.
- `QueryScan.Intercept`: with all four result pointers given; the socket around it and the
  memory of an earlier value of the same parameter are left out.
- `OAuthForms.PasswordGrant`: as in all builders, the URL and headers of the request are left out.
- The ucontext, fiber, Windows and DOS variants, thread-local keys, process creation and pipes.
- All transport backends, `src/actor.c`, the header list and the cookie jar: foreign calls, linear
  tables and a single-threaded queue, which would add only easy members.
