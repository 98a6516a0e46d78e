# A verified model of the data-transfer half of wslay

The project models what `src/wslay` does once the HTTP upgrade is over: the frame codec (section 5.2 and section 5.3
of RFC 6455), the message engine on top of it (sections 5.4, 5.5, 7.4 and 8.1), the UTF-8 automaton and the linked queue.
Both layers work over callbacks that may take or give any number of bytes per call, so nearly every claim is of
one kind: the incremental, interruptible code agrees with a simple function of the whole byte stream.

`dafny verify dfyconfig.toml` checks everything.

## How it is laid out

| file | content |
|---|---|
| `Bytes.dfy`, `Headers.dfy`, `Stream.dfy` | bytes, masking and big-endian numbers; the header codec; whole streams and the one-shot parser they are read by |
| `Transport.dfy` | the callbacks, as a pipe that takes or gives any number of bytes |
| `FrameOut.dfy`, `FrameIn.dfy` | the resumable printer and parser of `frame.c`, classes over arrays and marks |
| `Utf8.dfy` | the table, the automaton, and the grammar of section 4 of RFC 3629 |
| `LinkedQueue.dfy` | the singly linked queue of `queue.h` |
| `Protocol.dfy` | the sequential reassembler and the verdict on a frame: the reference the receive engine is held to |
| `SendModel.dfy`, `RecvModel.dfy` | the states of the two engine halves as values, their invariants, and what each step keeps |
| `Event.dfy` | the event context: the loops of `event.c`, proved against these specifications |
| `Peer.dfy`, `Wire.dfy` | what one side may send as the other side sees it; sender and reader compared |
| `Chunking.dfy`, `OneShot.dfy` | contexts fed the same bytes; receiving as one function of the whole input |
| `EndToEnd.dfy` | two contexts connected: the main results, and runs |
| `Numbers.dfy`, `Samples.dfy` | the numbers of RFC 6455 and of the interface written out, on the wire and in whole runs |

Ghost state records history only: the bytes the callbacks moved, the frames printed and received, the messages
accepted, delivered and dropped, the control messages queued, those of the library's own marked, and why reading or writing
ended.

## What the code does where its documentation says otherwise

- The default limit of a message is the largest 64-bit number (`src/wslay/context.c:90`), not `(1 << 31) - 1`
  (`src/wslay/event.h:229`). The model takes the limit as a parameter; `RecvModel.NoWrap` says up to where the sum cannot wrap.
- `wslay_event_queue_close` returns 1 or 2 where negative codes are documented (`src/wslay/event.c:170-174`), so
  `wslay_event_recv` returns 1 exactly when it ends reading, for a refusal, a Close, a violation or a failed callback,
  while nothing may be queued any more: an own Close was queued, or writing has ended (`src/wslay/event.c:203-206`).
  `RecvModel.RecvCode` and the contract of `EventRecv` give all return codes. A Close that comes then is recorded as
  received and is not delivered.
- A frame-layer violation, like a failed recv callback, queues a Close without status, not 1002 (`src/wslay/event.c:482-486`).
- A Close payload of one byte counts as "no status" (`src/wslay/event.c:425-446`).
- The UTF-8 check of a Close starts at index 2 of every chunk, not of the payload (`src/wslay/event.c:369-374`):
  `RecvModel.ReasonChecked` gives the exact condition under which it checks the reason; `RecvModel.SplitReasonRefused` and
  `RecvModel.SplitReasonAccepted` are counterexamples in both directions, `EndToEnd.SplitCloseRuns` says what they
  mean in a run.
- `omask` is never cleared (`src/wslay/frame.c:78`): `Stream.StaleKey` says exactly when an unmasked frame after masked
  ones is still read as meant. The event layer makes one choice per context, so it never arises there.
- The printer accepts control frames that are not final (`src/wslay/frame.c:52-54`), which the parser rejects:
  `Headers.PrintedIsReadBack`.
- `eof` reported by a read callback that returns no bytes is not seen (`src/wslay/event.c:603-612`, against
  `src/wslay/event.h:330`): a fragmented message is completed if and only if a read that returned bytes reported its end
  (`SendModel.EndsDecide`, and `EventSend` for the other half). `SendModel.EmptySourceSticks` and `SendModel.LateEndSticks`
  give the two ways to miss it; from then on the message stays in front and no data message behind it is ever sent,
  whatever is done (`EndToEnd.Step`).
- Control messages dropped in favour of Close stay counted in both counters (`src/wslay/event.c:507-517`); conservation
  holds with the dropped messages as a term of their own.

## Model

| member | source | states |
|---|---|---|
| `EndToEnd.Session` | src/wslay/event.c:300-649 | over every run of a server and a client joined by two byte pipes (any interleaving of queueing, sending, receiving and shutting down, any mask keys, partial writes and read chunks) the data messages each side was given are the first of those queued at the other, in order and byte for byte, unless the send callback over there claimed more bytes than it was offered |
| `EndToEnd.DeliveredIsPrefix` | src/wslay/event.c:300-649 | safety in every single state: with the sender between any two steps, even in the middle of a frame, the data messages delivered are a prefix of those accepted for sending |
| `EndToEnd.CompletedIsDelivered` | src/wslay/event.c:300-649 | when the receiver has nothing more to read, because it has caught up or has met a Close, it was given exactly the data messages whose frames the sender completed |
| `EndToEnd.DrainedDeliversAll` | src/wslay/event.c:300-649 | completeness: when the sender has no data message left and the receiver has used up its input, or the session ended with a Close, delivered equals accepted |
| `EndToEnd.Exchange` | src/wslay/event.c:300-649 | one send and one receive: if the receiver then has nothing more to read (caught up, or met a Close), exactly the completed messages were delivered, and all that were queued if none is left; nothing is left if no callback held the sender up and writing is still on |
| `EndToEnd.ExchangeAll` | src/wslay/event.c:300-649 | liveness over runs: where every send call accepts at least one byte and every recv call gives at least one when there is one, finitely many exchanges deliver everything queued, each leaving less to do, fewer bytes of the frame under way, or less to read; unless writing or reading has ended or the source of a fragmented message has nothing to give |
| `EndToEnd.NothingRefused` | src/wslay/event.c:311-386 | if the text queued at the sender is well formed, the data messages and the control frames sent fit the receiver's limit, the receiver never sees a violation, refuses at most the content of a Close, and stops reading for no other reason than a Close, a failed callback or its application |
| `EndToEnd.PongsAnswerPings` | src/wslay/event.c:447-457 | over whole runs: the PONGs the library has queued at one side carry, in order, the payloads of the first PINGs queued at the other |
| `EndToEnd.AllPingsAnswered` | src/wslay/event.c:447-457 | all of these PINGs are answered once they are sent and read, as long as the answering side may queue |
| `EndToEnd.ControlIsPrefix` | src/wslay/event.c:501-588 | the control messages delivered are the first of those queued at the other side, but for a Close at the end |
| `EndToEnd.ReadingEndsWithClose` | src/wslay/event.c:168-208 | when reading has stopped, other than for want of memory, the last control message queued is the library's Close that goes with the reason: the code of the refusal, the payload echoed, or nothing after a violation or a failed callback; without it the application had queued a Close before, or writing had ended |
| `EndToEnd.StatusAgrees` | src/wslay/event.c:434-446 | closing handshake: when one side met the other's Close, that side has noted it as sent, and both have the same status on record |
| `EndToEnd.DeliveredIsChecked` | src/wslay/event.c:367-462 | whoever sent the bytes: a message handed over as text is well-formed UTF-8, a Close handed over has no reserved status and is the last message, no message exceeds the limit, and the argument of the callback is the message reassembled |
| `EndToEnd.DeliveredFromBytes` | src/wslay/event.c:300-492 | chunking independence of the receive engine: of two contexts with one configuration, the one that saw a prefix of the bytes the other was fed has delivered a prefix of its messages, whether the other one waits, found a violation, refused a frame, took a Close or had its callback fail; at most a Close which the other did not take comes on top |
| `EndToEnd.ReceivedInOneShot` | src/wslay/event.c:300-492 | the receive engine is a function of the bytes: what a context that used up its input, or stopped for a reason of its own, processed and delivered, and where and with which verdict it stopped, is what one pass over the whole input gives, however the bytes came; a Close there is answered, or met too late, or refused for a reserved status or for the text of its pieces, and in one piece exactly its text decides |
| `EndToEnd.TextDecides` | src/wslay/event.c:367-408 | a text message whose last frame came after fine frames only is delivered if it is well-formed; if not, nothing more is delivered and the Close queued has the status 1007, unless the application had queued one before or writing had ended |
| `EndToEnd.SameBytesSameStop` | src/wslay/event.c:300-492 | fed the same bytes, a violation, and a refusal of a frame that is no Close, come to both contexts, at the same frame and with the same code |
| `EndToEnd.SplitDecidesClose` | src/wslay/event.c:367-408 | all that cutting the input can change is the fate of a Close: taken by one context and refused for its text by another only if it came in several chunks to one of them |
| `EndToEnd.CloseOutcome` | src/wslay/event.c:367-408 | in every run, the text check of a Close is the one on the bytes that its chunks leave to be checked |
| `EndToEnd.SplitCloseRuns` | src/wslay/event.c:367-408 | for one concrete Close, whatever the run: a context that met a Close did not get this one with its last byte by itself, and one that refused a Close for its text did not get this one in one piece |
| `EndToEnd.ProcessedAreSent` | src/wslay/event.c:300-492 | the frames a context processed are a prefix of the frames its peer sent completely |
| `EndToEnd.Step` | src/wslay/event.c:300-649 | a step of one side keeps both sides valid, forgets no accepted message, takes back no delivery, and gets nothing past a fragmented message whose end was not reported in time |
| `EndToEnd.Connect` | src/wslay/context.c:42-99 | two fresh contexts, a server and a client, on two pipes: the state every run starts from satisfies everything the results above ask for |
| `EndToEnd.SendStep` | src/wslay/event.c:525-649 | sending on one side leaves what both sides received intact, ends with work left only when a callback held it up, and otherwise with every fragmented message sent whose end was reported |
| `Peer.ForeseenIsSound` | src/wslay/event.c:525-649 | all frames sent, completed by the one under way, are faithful, form a legal sequence and hold accepted data messages only, in order |
| `Peer.SentIsFine` | src/wslay/event.c:311-386 | the receiver's verdict on any frame sent for acceptable messages, however much of it arrived, is that it is fine; for a Close this holds of its header |
| `Peer.SoundPrefix` | src/wslay/event.c:525-649 | what holds of the reassembly of a frame sequence holds of every prefix of it: an open message is always the beginning of an accepted one |
| `Peer.DataDelivered` | src/wslay/event.c:458-466 | with buffering on, the data messages among the arguments of the callback are those reassembled |
| `Peer.ControlIsLogged` | src/wslay/event.c:501-588 | of the control messages queued the first ones were sent, and perhaps a Close that overtook others; all of them if none waits or was dropped |
| `Wire.ProcessedAreSent` | src/wslay/event.c:300-649 | as values: the frames processed are a prefix of those sent completely |
| `Wire.CloseIsLastSent` | src/wslay/event.c:574-588 | a Close that the reader met is the last frame sent, or still under way |
| `Wire.CompletedIsDelivered` | src/wslay/event.c:300-649 | as values: the reader who has used up its input or met a Close has the completed messages, no more and no fewer |
| `Wire.NothingRefused` | src/wslay/event.c:311-386 | as values: no violation and no refusal but of the content of a Close |
| `OneShot.ReceivedInOneShot` | src/wslay/event.c:300-492 | as values: every account of a context that used up its input or stopped by itself agrees with the one pass over the bytes |
| `OneShot.TextDecides` | src/wslay/event.c:367-408 | as values: a text message of an input that is fine so far is delivered in its place if and only if it is well-formed; if it is not, its frame is refused with 1007 |
| `Chunking.FurtherThan` | src/wslay/event.c:300-492 | a context gets further on the same bytes than another one only by a Close that the other one did not take |
| `Chunking.DeliveredFromBytes` | src/wslay/event.c:300-492 | as values: deliveries are a function of the bytes up to such a Close |
| `Chunking.SameBytesSameStop` | src/wslay/event.c:300-492 | as values: refusals and violations are a function of the bytes |
| `Chunking.SplitDecidesClose` | src/wslay/event.c:367-408 | as values: a Close taken here and refused there was cut up |
| `Numbers.FirstTwoBytes` | src/wslay/frame.c:45-56 | section 5.2 in numbers: where the final bit, the reserved bits, the opcode, the mask bit and the short length stand in the first two bytes |
| `Numbers.TwoByteLength` | src/wslay/frame.c:57-61 | a length of 126 to 65535 follows in two bytes, the high one first |
| `Numbers.EightByteLength` | src/wslay/frame.c:62-69 | a longer one in eight bytes, with the top bit clear, and the key in the four bytes after it |
| `Numbers.MalformedHeaders` | src/wslay/frame.c:216-264 | in numbers: a header is malformed if and only if it is that of a control frame that is long or not final, or its length is not minimal or has the top bit set |
| `Numbers.MaskedHello` | src/wslay/frame.c:124-128 | the masked payload of the example in section 5.7 of RFC 6455 |
| `Numbers.Section57` | src/wslay/frame.c:44-128 | the frames of section 5.7 byte for byte: text unmasked, masked and in two fragments, ping, masked pong |
| `Numbers.LongHeaders` | src/wslay/frame.c:57-69 | the headers for 256 bytes and 64 KiB of section 5.7 |
| `Numbers.HeaderCodes` | src/wslay/event.c:311-351 | in numbers: reserved bits, a missing or unexpected mask and an opcode out of turn are refused with 1002, a message that would exceed the limit with 1009 |
| `Numbers.UnbufferedCodes` | src/wslay/event.c:311-351 | without buffering the limit is on the single frame |
| `Numbers.TextCodes` | src/wslay/event.c:367-408 | text is refused with 1007 as soon as no continuation is well-formed, and at its end if it is ill-formed |
| `Numbers.CloseCodes` | src/wslay/event.c:288-293 | a Close in one piece with a well-formed reason is fine for the statuses 1000 to 1003, 1007 to 1011 and 3000 to 4999, and refused with 1002 for every other one |
| `Numbers.RecordedStatus` | src/wslay/event.c:577-583 | the status put on record for a Close: the first two bytes, or 1005 without them |
| `Samples.CloseDecides` | src/wslay/event.c:418-446 | in every run: a complete Close in one piece, its reason well-formed, is met and recorded with its status if this may be sent, else refused with 1002 and not recorded |
| `Samples.CloseBytes` | src/wslay/event.c:418-446 | the same for the bytes 0x88, length, status and reason, masked or not, as all the input of a context: all 65536 statuses |
| `Samples.PingBytes` | src/wslay/event.c:447-466 | the bytes 0x89, length and payload as all the input: the payload is delivered with opcode 9 and answered with opcode 10 while something may be queued |
| `Samples.PongBytes` | src/wslay/frame.c:44-128 | a pong goes out as 0x8a, length and payload |
| `Samples.RecordOfClose` | src/wslay/event.c:434-439 | a Close counts as received if and only if one was met, with its status; else the status is 1006 |
| `Samples.RecordOfSentClose` | src/wslay/event.c:574-584 | a Close counts as sent if and only if a Close frame is the last one out, with the status in it or 1005; else the status is 1006 |
| `Headers.DecodeEncode` | src/wslay/frame.c:44-88 | decode(encode(h)) = h for every well-formed header, whatever bytes follow |
| `Headers.EncodeDecode` | src/wslay/frame.c:199-281 | every header the parser accepts is well formed and re-encodes to the very bytes it was read from, so length encodings are minimal and unique |
| `Headers.PrintedIsReadBack` | src/wslay/frame.c:44-88 | the printer accepts control frames that are not final: a printable header is read back if and only if it is well formed, else it is malformed |
| `Headers.ParseHeaderExtends` | src/wslay/frame.c:199-281 | a header once decided (complete or malformed) stays so when more bytes arrive |
| `Bytes.XorIsExclusiveOr` | src/wslay/frame.c:126 | exclusive or, bit by bit: bit i of the result is set exactly when the bits i of the two bytes differ |
| `Bytes.MaskCancels` | src/wslay/frame.c:297-300 | masking twice with one key gives the payload back, at every offset |
| `Bytes.MaskConcat` | src/wslay/frame.c:125-127 | masking piecewise, each piece at its payload offset, is masking the whole |
| `Bytes.MaskIsIdentity` | src/wslay/frame.c:115-127 | a key leaves a payload unchanged if and only if every key byte it reaches is zero |
| `Bytes.BigEndianDecodes` | src/wslay/frame.c:58-69 | the big-endian length field reads back as the length |
| `Bytes.FromBigEndianEncodes` | src/wslay/frame.c:251-252 | a length field is the only encoding of its value on its number of bytes |
| `Stream.ParsePrinted` | src/wslay/frame.c:196-323 | round trip of streams: the one-shot parser gives back any faithful frames printed in front of any bytes |
| `Stream.PrintParsed` | src/wslay/frame.c:196-323 | whatever the one-shot parser accepts, complete frames and rest, prints back to the same bytes |
| `Stream.ParseGrows` | src/wslay/frame.c:196-323 | more input never takes back a frame nor a violation |
| `Stream.NextInGrows` | src/wslay/frame.c:283-320 | more input never changes the header of a frame under way nor the payload bytes that arrived |
| `Stream.StaleKey` | src/wslay/frame.c:74-82 | the mask flag is never cleared: a frame without masking sent after masked ones is read as meant if and only if every key byte its payload reaches is zero |
| `FrameOut.FrameSender.constructor` | src/wslay/frame.h:82-98 | a fresh printer has printed nothing |
| `FrameOut.FrameSender.Send` | src/wslay/frame.c:39-167 | resumable printer: the bytes accepted are always the finished frames followed by a prefix of the current one (Valid); the call adds exactly the reported payload bytes to the current frame, settles it exactly when its payload is complete, and says which arguments it rejects; a new masked frame has the key the genmask callback gave for it, so that the keys of the frames are the keys drawn, in order (Valid); it fails exactly when that callback failed or the send callback claimed more than it was offered |
| `FrameOut.FrameSender.PrepHeader` | src/wslay/frame.c:44-88 | the header prepared is that of the arguments, with the key drawn from the genmask callback when masking is asked for; nothing goes out, the lengths that cannot be announced are rejected exactly, and a missing key leaves the state as it was |
| `FrameOut.FrameSender.PrepMask` | src/wslay/frame.c:74-82 | the key in the header is the one the genmask callback has just given, which is on record as drawn; the call fails exactly when the callback does |
| `FrameOut.FrameSender.SendHeader` | src/wslay/frame.c:89-111 | a short write leaves the rest of the header for the next call; the payload starts only when all of it is out |
| `FrameOut.FrameSender.SendMasked` | src/wslay/frame.c:113-144 | blocks of at most 4096 masked bytes, cut off anywhere by the callback, extend the current payload by exactly the bytes accepted |
| `FrameOut.FrameSender.SendPlain` | src/wslay/frame.c:145-158 | unmasked payload is offered in one call; the bytes accepted extend the current payload |
| `FrameOut.FrameSender.FillTemp` | src/wslay/frame.c:125-127 | the block holds the payload bytes, each combined with the key byte of its payload offset |
| `FrameOut.FrameSender.Finish` | src/wslay/frame.c:160-164 | the state is PREP_HEADER again exactly when the whole payload is out |
| `FrameOut.FrameSender.SentParsed` | src/wslay/frame.c:89-164 | between calls the bytes out parse to exactly the finished frames, followed by a part of the current one |
| `FrameOut.FrameSender.BytesForeseen` | src/wslay/frame.c:89-164 | at any moment the bytes out are a prefix of the finished frames followed by the current frame with any payload that extends what was accepted |
| `FrameOut.MaskFollows` | src/wslay/frame.c:74-82 | with one masking choice per context the key applied is the key announced |
| `FrameIn.FrameReceiver.constructor` | src/wslay/frame.h:82-98 | a fresh parser awaits a header and has an empty buffer |
| `FrameIn.FrameReceiver.Recv` | src/wslay/frame.c:196-323 | resumable parser against the one-shot parser: the bytes fed are the frames received, the part of the current one, and the buffer (Valid); WANT_READ and PROTO come exactly in agreement with the parse of all bytes fed; a success delivers the next payload bytes unmasked and consumes input |
| `FrameIn.ChunkingIsIrrelevant` | src/wslay/frame.c:196-323 | of two receivers, the one that has seen a prefix of the bytes the other used up has received a prefix of its frames, however the input was cut up |
| `FrameIn.FrameReceiver.FramesParsed` | src/wslay/frame.c:196-323 | in every state the frames received are frames of the one-shot parse of all bytes fed |
| `FrameIn.FrameReceiver.CurrentParsed` | src/wslay/frame.c:283-320 | so is the frame under way, with its header and the payload bytes so far |
| `FrameIn.FrameReceiver.Shift` | src/wslay/frame.c:169-176 | moving the buffered bytes to the front loses none of them |
| `FrameIn.FrameReceiver.Fill` | src/wslay/frame.c:178-192 | one call of the callback, which is offered at least 4089 bytes; the bytes it gives come behind those buffered |
| `FrameIn.FrameReceiver.RecvHeader1` | src/wslay/frame.c:199-238 | the first two bytes: waits without consuming, finds a violation exactly when the whole stream has one here, or moves on |
| `FrameIn.FrameReceiver.RecvExtPayloadLen` | src/wslay/frame.c:240-267 | extended lengths: only minimal ones below 2^63 are let through |
| `FrameIn.FrameReceiver.RecvMaskKey` | src/wslay/frame.c:269-281 | the four key bytes complete the header |
| `FrameIn.FrameReceiver.Unmask` | src/wslay/frame.c:297-300 | each payload byte in the buffer is combined once, in place, with the key byte of its payload offset; the bytes behind stay as they are |
| `FrameIn.FrameReceiver.RecvPayload` | src/wslay/frame.c:283-320 | hands over what the buffer holds of the payload, and asks for input only when it holds nothing and payload is missing; an empty frame comes in one call |
| `Utf8.AcceptsWellFormed` | src/wslay/utf8.h:38-52 | the automaton ends in ACCEPT if and only if the bytes are well formed by the grammar of section 4 of RFC 3629 |
| `Utf8.RejectsUnviable` | src/wslay/utf8.h:38-52 | it ends in REJECT if and only if no continuation makes the bytes well formed |
| `Utf8.RejectAbsorbs` | src/wslay/utf8.h:38-52 | REJECT is never left |
| `Utf8.RunConcat` | src/wslay/utf8.h:38-52 | text may be checked piece by piece |
| `Utf8.Decode` | src/wslay/utf8.h:38-52 | one step: next state and next code point |
| `Utf8.DecodesEncoding` | src/wslay/utf8.h:38-52 | with the code point threaded, decoding the encoding of any scalar value yields that value, in ACCEPT |
| `Utf8.EncodedIsChar` | src/wslay/utf8.h:38-52 | the encoding of a scalar value is one character of the grammar |
| `Utf8.CharIsEncoded` | src/wslay/utf8.h:38-52 | every character of the grammar is the encoding of a scalar value |
| `Utf8.ClassTable` | src/wslay/utf8.c:29-41 | the 256 byte classes of the table are twelve ranges |
| `Utf8.TableMoves` | src/wslay/utf8.c:43-52 | the transition table as ranges of the next byte |
| `LinkedQueue.Queue.constructor` | src/wslay/queue.h:64-75 | a new queue is empty |
| `LinkedQueue.Queue.Push` | src/wslay/queue.h:78-93 | the linked list refines a sequence: push appends; the list stays acyclic with tail its last cell |
| `LinkedQueue.Queue.PushFront` | src/wslay/queue.h:96-109 | push_front prepends |
| `LinkedQueue.Queue.Pop` | src/wslay/queue.h:112-124 | pop removes the first element, and fails without effect exactly on the empty queue |
| `LinkedQueue.Queue.Top` | src/wslay/queue.h:127-130 | the first element of a non-empty queue |
| `LinkedQueue.Queue.Tail` | src/wslay/queue.h:133-136 | the last element of a non-empty queue |
| `LinkedQueue.Queue.IsEmpty` | src/wslay/queue.h:139-142 | empty exactly when the sequence is |
| `LinkedQueue.Queue.Free` | src/wslay/queue.h:46-61 | the walk meets every cell exactly once, in order, and ends |
| `Protocol.AssembleGrows` | src/wslay/event.c:317-366 | the sequential reassembler never revises a message completed nor forgives an illegal sequence |
| `Protocol.OpenIsData` | src/wslay/event.c:317-350 | only a data message is ever open between frames |
| `Protocol.JudgePartial` | src/wslay/event.c:351-408 | a frame that is fine as a whole is fine at every moment while it arrives |
| `SendModel.InitialInv` | src/wslay/context.c:42-93 | the initial state satisfies the invariant of the send half |
| `SendModel.QueueCtrlKeeps` | src/wslay/event.c:210-238 | queueing a control message keeps the invariant |
| `SendModel.QueueDataKeeps` | src/wslay/event.c:210-257 | queueing a data message keeps the invariant, and puts it last among those outstanding |
| `SendModel.MarkCloseKeeps` | src/wslay/event.c:192-196 | marking Close as queued keeps the invariant |
| `SendModel.PopDataKeeps` | src/wslay/event.c:532-544 | taking a data message keeps the invariant |
| `SendModel.PopCtrlKeeps` | src/wslay/event.c:519-521 | taking a control message keeps it |
| `SendModel.DropCtrlKeeps` | src/wslay/event.c:508-516 | dropping a control message in favour of Close keeps it, with the discarded message accounted for and its place in the log kept |
| `SendModel.PutBackKeeps` | src/wslay/event.c:545-551 | preemption keeps it: the message put back stays the next data message |
| `SendModel.CloseIsWaiting` | src/wslay/event.c:507-517 | with Close queued and writing enabled the search for the Close cannot run out of messages: the NULL result is unreachable |
| `SendModel.ChooseKeeps` | src/wslay/event.c:529-558 | whatever message is chosen, the invariant holds, no work is added, and once Close is queued only a Close begins a frame |
| `SendModel.ControlGoesFirst` | src/wslay/event.c:532-558 | between frames a control message goes first, with Close queued the Close; a frame under way is never left; the order of data messages is untouched |
| `SendModel.AdvanceKeeps` | src/wslay/event.c:559-570 | layer coupling: while a frame is under way the offsets of both layers agree |
| `SendModel.CompleteByOffset` | src/wslay/event.c:570-571 | the event layer's offset reaches the length exactly when the frame's payload is complete |
| `SendModel.ArgumentFits` | src/wslay/frame.c:41-43 | the data offered never exceed the length announced, and only a whole message of 2^63 bytes or more cannot be announced |
| `SendModel.RetireKeeps` | src/wslay/event.c:571-586 | a message completely sent leaves the engine: invariant kept, counters cannot underflow |
| `SendModel.RetireLogKeeps` | src/wslay/event.c:571-586 | the log of control messages stays: sent, discarded, in flight and waiting ones, in the order in which they were queued |
| `SendModel.RetireCountersKeep` | src/wslay/event.c:570-589 | conservation when a message is retired: queued_msg_count and queued_msg_length stay the number and the total length of the messages in both queues, in flight, and discarded in favour of Close |
| `SendModel.RetireCloses` | src/wslay/event.c:574-584 | retiring a message ends writing exactly when a Close frame is out, whose payload is the message's |
| `SendModel.NextFragmentKeeps` | src/wslay/event.c:627-636 | a fragment that is out and not the last leaves its message open, to go on as a continuation; invariant kept |
| `SendModel.ReadFragmentKeeps` | src/wslay/event.c:598-615 | bytes moved from the source to the buffer stay part of the same outstanding message |
| `SendModel.EndsDecide` | src/wslay/event.c:598-633 | a fragmented message is sent completely only if a read that returned bytes reported its end; if one did, it has been sent completely or its next frame is its last |
| `SendModel.EmptySourceSticks` | src/wslay/event.c:600-604 | a fragmented message without bytes is stuck once it is in front |
| `SendModel.LateEndSticks` | src/wslay/event.c:603-635 | so is one whose last bytes were read without a report of the end, once they are out |
| `SendModel.StuckRetired` | src/wslay/event.c:570-586 | only control messages are sent past a stuck message |
| `SendModel.StuckChosen` | src/wslay/event.c:529-558 | choosing the next message leaves a stuck one in front |
| `SendModel.NoneLeftToEnd` | src/wslay/event.c:598-633 | when nothing is left, or the source of the message in front is awaited, every message whose end was reported has been sent |
| `SendModel.RetireIsProgress` | src/wslay/event.c:529-647 | retiring a message strictly lowers the work left |
| `SendModel.NextFragmentIsProgress` | src/wslay/event.c:529-647 | and so does finishing a fragment |
| `SendModel.SentIsPrefix` | src/wslay/event.c:525-649 | frame discipline: in every state the frames sent are legal (one opening frame, then continuations, fin on the last; control frames in between) and reassemble to a prefix of the accepted data messages |
| `SendModel.DrainedSentAll` | src/wslay/event.c:525-649 | with no data message left, the frames sent reassemble to exactly the accepted ones |
| `SendModel.CloseEndsWriting` | src/wslay/event.c:574-584 | a Close frame that is out is the last frame ever, and writing has ended |
| `SendModel.CloseComesNext` | src/wslay/event.c:501-588 | after Close is queued at most the frame already begun is completed before the Close frame; until then a Close is pending |
| `Event.EventContext.constructor` | src/wslay/context.c:42-93 | a new context satisfies both invariants, with nothing queued, received or delivered |
| `Event.EventContext.QueueMsg` | src/wslay/event.c:210-238 | result code and new state: refused when nothing may be queued or a control message is too long, else one more message in its queue and in both counters |
| `Event.EventContext.QueueFragmentedMsg` | src/wslay/event.c:240-257 | the same for a fragmented message; control opcodes are refused |
| `Event.EventContext.QueueClose` | src/wslay/event.c:168-197 | results 1 and 2 for the refusals; else a Close with the status and reason joins the control queue and no further message may be queued |
| `Event.EventContext.QueueCloseWrapper` | src/wslay/event.c:199-208 | reading ends in any case; the 1 of a refused Close is passed through |
| `Event.EventContext.SendCtrlQueuePop` | src/wslay/event.c:501-523 | takes the first control message, or with Close queued drops all up to the first Close; never comes out empty |
| `Event.EventContext.ChooseMsg` | src/wslay/event.c:532-558 | the message to go on with is the specified one |
| `Event.EventContext.SendFrame` | src/wslay/event.c:560-570 | one call of the printer: its progress and the event layer's offset move together |
| `Event.EventContext.SendWhole` | src/wslay/event.c:559-596 | a round for a whole message keeps the invariant, lowers the work if the loop goes on, stops without fault only when the callback held it up, and notes a Close sent with its status |
| `Event.EventContext.FetchFragment` | src/wslay/event.c:600-616 | the fragment is the bytes the read callback gave, and the message counts as ended from then on exactly when that very call reported the end with bytes; only the callback writes this record |
| `Event.EventContext.FillFragment` | src/wslay/event.c:598-616 | the next fragment comes into the buffer with the work left unchanged; without bytes nothing is lost, the message waits, and every message whose end was reported is sent; a failed read ends writing |
| `Event.EventContext.SendFragment` | src/wslay/event.c:597-646 | a round for a fragmented message, likewise; a read of no bytes waits without loss, and then every message whose end was reported is sent; a message whose end came with no bytes stays, and nothing gets past it |
| `Event.EventContext.EventSend` | src/wslay/event.c:525-649 | ends for every input; keeps the invariant; stops with work left only if a callback held it up; fails only for a recorded fault; ends writing without fault only behind a Close frame; a Close counts as sent, with its status on record, exactly when a Close frame is out, and without one the status is 1006 (ValidSend); writes nothing once writing has ended; never gets a message past a stuck one; if the send callback held nothing up, every fragmented message whose end was reported is sent completely; with a callback that accepts a byte per call, a call with something to send leaves less to do or has more bytes of the current frame out, unless a source had nothing to give |
| `RecvModel.SelectTest` | src/wslay/event.c:317-350 | the two-slot machine's opcode test is the sequential reassembler's |
| `RecvModel.AdmitReady` | src/wslay/event.c:317-366 | a frame that passes the header tests finds its slot ready: slot 1 is used exactly for a control frame inside a fragmented message, and slot 0 then stays as it is |
| `RecvModel.CheckTextRuns` | src/wslay/event.c:367-386 | streaming validation: the automaton is in REJECT exactly if the text so far of the message, over all frames and chunks, is beyond repair |
| `RecvModel.StoreGrows` | src/wslay/event.c:388-395 | every chunk copy is in bounds and extends the payload by exactly the chunk |
| `RecvModel.FlattenedPayload` | src/wslay/event.c:130-160 | the chunk buffers of a complete message hold exactly its payload, and msg_length is its length |
| `RecvModel.EndVerdict` | src/wslay/event.c:396-408 | the tests at the end of a frame are the verdict on its whole payload |
| `RecvModel.TextVerdict` | src/wslay/event.c:374-386 | a chunk that makes the text hopeless is refused with 1007, whatever is still to come |
| `RecvModel.FinalEnds` | src/wslay/event.c:467-480 | after a final frame the machine is at a frame boundary: lengths zero, slot 0 current, slot 1 empty |
| `RecvModel.FragmentEnds` | src/wslay/event.c:477-480 | after a fragment the machine is at a boundary and slot 0 holds the open message |
| `RecvModel.FrameStarts` | src/wslay/event.c:317-350 | the slot and the offsets tell exactly whether a chunk starts a frame |
| `RecvModel.HistoryGrows` | src/wslay/event.c:396-480 | one more frame processed keeps the history: deliveries are the reassembler's messages, pongs answer its pings |
| `RecvModel.AllDeliveredOk` | src/wslay/event.c:367-446 | over any frames processed: text delivered is well-formed text, no message is longer than the limit, no Close carries a reserved status |
| `RecvModel.NoWrap` | src/wslay/event.c:352 | with a limit of at most 2^63 the 64-bit sum never wraps, so 1009 is exactly "longer than the limit" |
| `RecvModel.RepliesStop` | src/wslay/event.c:199-208 | when reading stops, the log gains the Close that goes with the reason, or nothing if none could be queued |
| `RecvModel.TextGoesOn` | src/wslay/event.c:384-395 | a chunk that leaves the text alive is fine so far |
| `RecvModel.ClosePayloadEchoes` | src/wslay/event.c:425-446 | the echo of an accepted Close carries the payload received |
| `RecvModel.ReasonChecked` | src/wslay/event.c:367-382 | the UTF-8 check of a Close starts over at each chunk: it sees exactly the reason if and only if the payload came in one chunk or holds no reason |
| `RecvModel.CloseInOneChunk` | src/wslay/event.c:367-408 | a Close in one chunk is refused with 1007 if and only if its reason is not well-formed UTF-8 |
| `RecvModel.SplitReasonRefused` | src/wslay/event.c:367-408 | the verdict on a concrete valid Close: fine in one chunk, refused in two |
| `RecvModel.SplitReasonAccepted` | src/wslay/event.c:367-408 | the verdict on a concrete ill-formed Close: refused in one chunk, fine in two |
| `Event.EventContext.RunText` | src/wslay/event.c:367-386 | the loop over a chunk leaves the slot's automaton where running the bytes to be checked leaves it |
| `Event.EventContext.StoreChunk` | src/wslay/event.c:388-395 | the chunk is copied behind the payload received before |
| `Event.EventContext.FlattenQueue` | src/wslay/event.c:130-160 | one buffer with exactly the concatenation of the chunks; the error returns are unreachable |
| `Event.EventContext.PlaceFrame` | src/wslay/event.c:317-366 | opcode, size and allocation tests in the engine's order give exactly the verdict on the header |
| `Event.EventContext.AdmitChunk` | src/wslay/event.c:309-366 | a chunk goes on only if its frame is in turn, unextended, masked as due and within the limit; else reading ends with the verdict on the header, a Close with its code if one could be queued, and the return code that goes with it |
| `Event.EventContext.TakeText` | src/wslay/event.c:367-386 | a chunk beyond repair ends reading with 1007: by the invariant a Close with this code is queued if one could be |
| `Event.EventContext.TakeBytes` | src/wslay/event.c:388-395 | the slot then mirrors the frame with the chunk added |
| `Event.EventContext.EndOfFrame` | src/wslay/event.c:396-480 | the last byte of a frame: when the loop goes on, the frame was processed and, if final, its message delivered, and the machine is at a boundary again; else reading has ended with the return code that goes with the reason |
| `Event.EventContext.HandleClose` | src/wslay/event.c:422-446 | an accepted Close is answered with the same payload while one may be queued, and recorded with its status; a reserved status is refused with 1002; otherwise the 1 is passed through and the Close is not delivered |
| `Event.EventContext.AnswerPing` | src/wslay/event.c:447-457 | a PING is answered by a PONG with its payload whenever one may be queued; the argument error cannot come |
| `Event.EventContext.Reply` | src/wslay/event.c:420-457 | the library's answer to a complete message is exactly the one specified, is logged as its own, and its failure ends reading with the code returned |
| `Event.EventContext.Conclude` | src/wslay/event.c:458-475 | the callback gets exactly the opcode, payload and status of the message completed; then its slot is free again |
| `Event.EventContext.RecvFailed` | src/wslay/event.c:481-489 | out of input without a fatal error is no failure; else reading ends with an empty Close, and the code is CALLBACK_FAILURE if it could be queued, 1 if not |
| `Event.EventContext.Refuse` | src/wslay/event.c:199-208 | a refusal is justified by the verdict on the next frame of the stream, and queues a Close with its code if one may be queued |
| `Event.EventContext.RecvRound` | src/wslay/event.c:306-490 | a round of the loop that goes on consumes at least one input byte; the return code is the one that goes with the reason for which reading ended |
| `Event.EventContext.EventRecv` | src/wslay/event.c:300-492 | ends for every input; keeps the invariant, by which reading has stopped only for a recorded and justified reason, and the library's own entries in the log of control messages are the PONGs to the PINGs processed and then the Close that goes with that reason; the return code is 0, 1, -1 or CALLBACK_FAILURE exactly as RecvCode says; a Close counts as received, with its status, exactly when one was met, and without one the status is 1006; while reading is on, exactly the complete frames of the bytes fed have been processed and no Close among them; processed frames and deliveries are never taken back; with a callback that gives a byte when there is one, a call that leaves reading on has read one or left none |
| `Event.EventContext.Undisturbed` | src/wslay/event.c:300-649 | what a context received is undisturbed by its own sending and by its peer's |
| `Transport.Pipe.Send` | src/wslay/wslay.h:65-78 | the send callback: any result; a result in range is the number of bytes accepted; a lively one accepts at least one |
| `Transport.Pipe.Recv` | src/wslay/wslay.h:80-90 | the recv callback: any number of the next bytes, at most as many as offered; a lively one gives at least one when there is one |

## Left out

- Linked queues inside the engine: the engine's send queues and chunk lists are `seq` fields; `LinkedQueue` proves the
  refinement of a sequence once, but the engine is not built on its cells, so sharing of cells is not modelled there.
- Messages and chunks as objects: `omsg`, the two `imsg` slots and the chunk buffers are values, so their lifetime and
  aliasing are not modelled; the talloc tree is left out.
- One frame context per event context: its sending and receiving fields are two classes, `FrameSender` and `FrameReceiver`.
- `wslay_event_imsg_reset` frees the chunk queue itself (`src/wslay/event.h:463-468`) and nothing recreates it; the model has the
  meant effect, that the slot's chunk list becomes empty.
- Allocation failure: only a message whose length would reach 2^64 fails to get its buffer; the other NOMEM returns are left out.
- Transport.Pipe.Recv: assumes that the recv callback keeps its contract and never reports more bytes than it was offered
  (`src/wslay/wslay.h:80-90`); the code does not test it.
- Event.EventContext.ReadCallback: assumes the same of the read callback (`src/wslay/event.h:327-334`); what it has
  still to give stands in the model as the message's `source`.
- EndToEnd.NothingRefused: says nothing about the content of a Close, which `wslay_event_queue_close` does not check.
- EndToEnd.DrainedDeliversAll: says nothing about data messages still queued when a Close ends writing; they are never sent.
- EndToEnd.DeliveredFromBytes: leaves out a context whose application shut down reading; what it has processed depends on
  when that was.
- Event.EventContext.QueueMsg: is called with known opcodes (TEXT, BINARY, CLOSE, PING, PONG); the code queues others untested.
- Event.EventContext.QueueFragmentedMsg: likewise for data opcodes other than TEXT and BINARY.
- A send callback that reports more bytes than it was offered: writing ends, and nothing is claimed about the bytes from then on.
- The message callback is always set. It may queue messages and shut down either direction, any number of times; other
  re-entrant calls are left out.
- The frame observer callbacks, `user_data`, `wslay_io_flags` and `user_data_sending`: no effect on the protocol.
- Getters and configuration setters: the configuration is fixed before the first receive.
- `error` is any value after a callback ran; only its role in deciding whether waiting is fatal is modelled.
- The uninitialised code point in `wslay_event_recv` (`src/wslay/event.c:375`): the engine never reads it, so the model starts it at zero.
- UTF-8 validity of Close reasons that arrive in several chunks: the code does not check it as meant, see above.
- Liveness without lively callbacks: a callback that never accepts or gives a byte holds the connection up for ever, and
  nothing is claimed then; nor is a number of exchanges, only that it is finite.
- The examples, the HTTP upgrade, SHA-1 and base64, the build files and the Sphinx documentation.
