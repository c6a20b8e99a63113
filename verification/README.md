# Verification of the Shepoo server core

This project models and proves the two parts of the Shepoo block server where most can go wrong:

1. **The signal/slot registry** (`server/include/sigslot.h`, arity 3). Signals own ordered lists of
   allocated connections; receivers own sets of the signals that may call them; connect, disconnect,
   the copy constructors and the destructors change both sides through one another. `Registry` is the
   registry as a value with one step per operation and the laws about single steps and whole runs;
   `Signals` is the code on the heap, with its loops, each method proved to make exactly its registry
   step and to keep a ghost ledger: the allocated and not yet deleted connections are those that live
   signals list, so none leaks and none is deleted twice. `Runs` executes whole call sequences on the
   heap objects. `Emission` is the theory of `emit` under callbacks that append and erase list nodes,
   `Callbacks` shows what any sequence of registry calls does to the walked list, `Plans` what a whole
   emission's callbacks do to the registry, and `Delivery` is `emit` on the heap signal, with callbacks
   that make such calls.
2. **The wire path** (`server/src/secnet.cpp`, `protocol.cpp`, `blockstorage.cpp`): byte order
   (`Bytes`), the packet header and WebSocket frame codec (`Frames`), one connection as an input and an
   output byte sequence (`Connections`), the upgrade request (`Handshake`), block addressing in wrapping
   64-bit arithmetic (`Storage`), and command dispatch (`Protocols`).
3. **Both together**: a decoded packet is emitted over the connections of a signal and each slot answers
   (`Server`); the server serves one packet for each connection, bare or after an upgrade, and the peer
   reads the answer back (`Visits`).

`dafny verify dfyconfig.toml` checks everything.

## What came out

- "Registered implies connected" survives every run. "Connected implies registered" survives a step of
  `disconnect` exactly when the list holds at most one connection to that receiver
  (`StepKeepsConnectedRegistered`), and a run exactly when every `disconnect` in it met that guard
  (`RunsStayRegistered`). One breach is fatal: `UndisciplinedDisconnectDangles` starts from any sound
  state with two connections between one signal and one receiver, and `DuplicateExample` is a run from
  the empty registry that reaches one.
- Over any run the connections allocated and not deleted are exactly the listed ones (`RunCalls`), each
  at one place of one list (`LiveIsListedOnce`).
- `slot_duplicate` ends although it appends to the list it walks, because the appended connections do
  not match; onto the same receiver the cursor stays inside the list after any number of steps
  (`SelfDuplicateNeverEnds`).
- In `emit` the saved successor survives a callback exactly when no call made in the callback removes
  that connection (`SavedNextIsSpared`), for any mixture of calls; and which connection a call removes is
  settled by the guard of each operation (`OpErases`). A whole emission is safe exactly when this holds
  callback by callback (`SparesEachNextIsPolite`); a first callback that destroys the receiver of the
  second connection breaks it (`DestroyingTheNextReceiver`).
- Each connection is answered at most once. Over any sequence of connections on either transport the
  peers read back one fitting answer for each accepted request, in order (`VisitsAnswered`); the two
  transports answer alike exactly when the request is within the size limit or is not answered anyway
  (`TransportsAnswerAlike`).
- The length check of a received frame adds the header size to the declared length in 64 bits. When the
  sum wraps, a message shorter than it declares is emitted (`WrappedLengthEmitted`); otherwise the region
  handed on is long enough (`DecoderBounds`). The same sum bounds the frame round trip
  (`FrameRoundTrip`).
- The availability command checks no length. In a frame, eight bytes after the header are enough for it
  (`EmittedIsReadable`); a bare packet must declare them (`OpenedIsReadable`), and a bare request that
  declares none is delivered and read past its region (`UnreadableRequest`). Apart from that and a read
  with no block to send, every request is served (`AcceptsExactly`).
- The availability check multiplies and subtracts in 64 bits. It is right for a number exactly when
  `num * BLOCK_SIZE` does not wrap or wraps to where no block fits (`AvailabilityIsRight`), for every block
  size; `WrappedNumberExample` is a number for which it is wrong. What such a number reads is
  `BlockOfOffset`: a block's end and the bytes behind it.
- The handshake never examines the last header line (`HandshakeOnRequest`). Its verdict is that of the
  whole request exactly when the last header would not change the verdict of the others
  (`HandshakeIsRight`); a request that is in order and puts the protocol last is refused
  (`ProtocolLastIsRefused`). A fifteenth non-empty line leaves the fixed array (`SplitRequest`), and a
  blank line within the first ten bytes is not seen (`BlankLineInTheFirstTen`).

Where code and documentation differ, the code is followed: section 5.2 of RFC 6455 puts extended lengths
in network byte order, the code reads and writes them in host order (little-endian here); block numbers
are big-endian as coded.

## Model

| member | source | states |
|---|---|---|
| Registry.StepKeepsRegisteredConnected | server/include/sigslot.h:429-491 | every operation, duplicates or not, keeps: a registered signal is live and has a connection to the receiver |
| Registry.StepKeepsConnectedRegistered | server/include/sigslot.h:906-924 | connected-implies-registered is kept if and only if `disconnect` meets at most one match; every other operation keeps it outright |
| Registry.RunsKeepRegisteredConnected | server/include/sigslot.h:442-487 | the registered-implies-connected direction over all runs |
| Registry.RunsStayRegistered | server/include/sigslot.h:906-924 | the other direction holds in every state of a run if and only if every `disconnect` met the guard |
| Registry.WellBehavedRunsAreSafe | server/include/sigslot.h:851-946 | clients that hand over live objects and meet the guard never make the registry touch a destroyed object, and at the end registration and connection coincide |
| Registry.WellBehavedExactly | server/include/sigslot.h:851-946 | from an agreeing registry, what a client owes is met if and only if every call of the run meets live objects and every `disconnect` the guard |
| Registry.DefinedExactly | server/include/sigslot.h:442-487 | in an agreeing registry each of the ten operations is allowed if and only if its objects are alive and its new object is not |
| Registry.ReceiversAlwaysCallable | server/include/sigslot.h:442-487 | after any run whatever, receiver copy, disconnect and destruction call live signals only |
| Registry.UndisciplinedDisconnectDangles | server/include/sigslot.h:906-924 | from any sound state with two connections between s and r, one `disconnect` and the death of r leave s connected to a dead object |
| Registry.DuplicateExample | server/include/sigslot.h:906-924 | a run from the empty registry reaches a state where `disconnect` breaks the invariant |
| Registry.DestroyedReceiverIsForgotten | server/include/sigslot.h:469-487 | after a receiver dies no list targets it if and only if every signal connected to it was registered; all other connections keep order and multiplicity |
| Registry.DestroyedReceiverExactly | server/include/sigslot.h:926-946 | under the invariant every list becomes itself without the connections to the dead receiver |
| Registry.DestroyedSignalIsForgotten | server/include/sigslot.h:884-904 | after any run a destroyed signal is in no sender set and nothing else changed |
| Registry.CopyReceiverUndone | server/include/sigslot.h:442-455 | copying a receiver and destroying the copy restores every list and every sender set |
| Registry.CopySignalUndone | server/include/sigslot.h:851-865 | copying a signal and destroying the copy restores the whole registry |
| Registry.ConnectUndone | server/include/sigslot.h:2218-2228 | `disconnect` undoes `connect`, in every list and sender set, if and only if there was no earlier connection between the two |
| Registry.ConnectAddsLast | server/include/sigslot.h:2218-2228 | `connect` adds one connection at the end, with the given receiver and function, and one registration; nothing else changes |
| Registry.CopySignalInOrder | server/include/sigslot.h:851-865 | a copied signal has the same receivers and functions in the same order |
| Registry.CopyReceiverInOrder | server/include/sigslot.h:867-882 | a copied receiver gets the functions of the original, in order, behind all connections there were |
| Registry.DestructorsDisconnect | server/include/sigslot.h:469-472 | each destructor is its `disconnect_all` and then the end of the object |
| Registry.RemoveFirstEffect | server/include/sigslot.h:906-924 | removing the first match lowers the count of matches by one and keeps every other connection |
| Registry.SelectOthers | server/include/sigslot.h:926-946 | dropping the connections to one receiver keeps those to any other, in order and multiplicity |
| Registry.SelfDuplicateNeverEnds | server/include/sigslot.h:867-882 | duplicating onto the same receiver: after any number of steps the cursor is still inside the list |
| Signals.Signal.Connect | server/include/sigslot.h:2218-2228 | appends the one connection it allocates, registers, and makes exactly the registry step; allocated and listed connections stay the same set |
| Signals.Signal.ConstructCopy | server/include/sigslot.h:851-865 | clones every connection in order, registers with each target, makes exactly the registry step; every clone allocated is listed |
| Signals.Signal.SlotDuplicate | server/include/sigslot.h:867-882 | terminates; the list becomes the old list followed in order by one retargeted copy of each match, and every copy allocated is listed |
| Signals.Signal.DisconnectAll | server/include/sigslot.h:889-904 | deletes every listed connection, unregisters everywhere, and makes exactly the registry step |
| Signals.Signal.Destroy | server/include/sigslot.h:884-887 | the signal destructor makes exactly the registry step, and what stays allocated is what the other signals list |
| Signals.Signal.Disconnect | server/include/sigslot.h:906-924 | the first match leaves the list and is deleted, the signal is unregistered; exactly the registry step |
| Signals.Signal.SlotDisconnect | server/include/sigslot.h:926-946 | erasing while walking: exactly the matches leave the list, and exactly they are deleted |
| Signals.HasSlots.ConstructCopy | server/include/sigslot.h:442-455 | every sender duplicates its connections; exactly the registry step; every duplicate allocated is listed |
| Signals.HasSlots.DisconnectAll | server/include/sigslot.h:474-487 | over all senders, exactly the connections to this receiver leave and are deleted; exactly the registry step |
| Signals.HasSlots.Destroy | server/include/sigslot.h:469-472 | the receiver destructor makes exactly the registry step |
| Signals.Connection.Clone | server/include/sigslot.h:1700-1703 | the one connection it allocates has the same target and function |
| Signals.Connection.Duplicate | server/include/sigslot.h:1705-1708 | the one connection it allocates has the same function and the new target |
| Signals.Connection.Delete | server/include/sigslot.h:898 | deleting needs an allocated connection and ends its allocation, so a second delete is impossible |
| Signals.TidyApart | server/include/sigslot.h:889-946 | a connection is never in two signals' lists |
| Signals.LiveIsListedOnce | server/include/sigslot.h:851-946 | each allocated and not deleted connection is at exactly one place of exactly one list |
| Runs.Perform | server/include/sigslot.h:429-491 | each operation on the heap, constructions and destructions included, makes its registry step and leaves allocated exactly the listed connections: what it allocates is listed, what leaves a list is deleted |
| Runs.PerformAll | server/include/sigslot.h:429-491 | the same for any sequence of calls from any sound state; a signal not destroyed in it keeps its own connections or gains new ones |
| Runs.RunCalls | server/include/sigslot.h:851-946 | any run of the heap code from no objects at all ends in the state of the registry run, with every registration backed by a connection and exactly the listed connections allocated; a well-behaved client's run touches no destroyed object and ends with registration and connection in agreement |
| Delivery.Emit | server/include/sigslot.h:2230-2245 | the cursor loop over the signal's changing list terminates, stays on listed connections, its events are those of the reference walk, its deliveries go through the connections listed in turn, and the registry afterwards is the one the callbacks' calls lead to, nothing leaked |
| Delivery.Deliver | server/include/sigslot.h:2238-2243 | one round with any callback calls: the saved successor is still listed and what is ahead of it is what the reference walks next |
| Delivery.DeliveredExactly | server/include/sigslot.h:2230-2245 | the connections delivered through are exactly those ahead at the start, or appended while the saved next was not the end, and not erased before their turn; in order, none twice |
| Plans.DeliveriesAreToLiveReceivers | server/include/sigslot.h:2230-2245 | when connections are registered and callbacks meet the guard on `disconnect`, no delivery is to a destroyed receiver |
| Delivery.IdleEmitDeliversTheList | server/include/sigslot.h:2230-2245 | when callbacks leave the signal alone, the listed connections themselves are delivered through, in order, each once |
| Plans.IdleCallbacksAreAllowed | server/include/sigslot.h:2230-2245 | such callbacks meet all that `Emit` asks for, whatever the list |
| Plans.SparesEachNextIsPolite | server/include/sigslot.h:2230-2245 | the domain of a whole emission: no callback erases the node saved as next if and only if, callback by callback, no call removes that connection |
| Plans.DestroyingTheNextReceiver | server/include/sigslot.h:2238-2243 | for any list of two or more connections: a first callback that destroys the receiver of the second removes the saved next |
| Plans.DestroyingTheNextReceiverExample | server/include/sigslot.h:2238-2243 | a concrete registry, one signal and two receivers, where that happens |
| Emission.DeliveryIsExact | server/include/sigslot.h:2230-2245 | a node is delivered if and only if it was listed at the start, or appended while the saved next was not the end, and not erased before its turn |
| Emission.DeliveryIsOrdered | server/include/sigslot.h:2230-2245 | deliveries come in list order, none twice |
| Emission.QuietDeliversAll | server/include/sigslot.h:2230-2245 | with callbacks that leave the list alone, the list is delivered exactly, each node once |
| Emission.SavedNextSurvives | server/include/sigslot.h:2238-2243 | the saved next survives a callback if and only if the callback does not erase it |
| Callbacks.OpIsEdits | server/include/sigslot.h:442-491 | what any operation other than the destruction of s does to the list of s, node by node |
| Callbacks.OpErases | server/include/sigslot.h:906-946 | which connections an operation takes from the list of s: the first match, all matches of a registered signal, or all, and no others |
| Callbacks.CallableExactly | server/include/sigslot.h:2238-2243 | what a callback may call, call by call: anything possible but the destruction of the emitting signal |
| Callbacks.RunIsEdits | server/include/sigslot.h:2230-2245 | any sequence of calls made in a callback leaves in the registry the list that its edits make of the walked one, every kept connection as it was |
| Callbacks.SavedNextIsSpared | server/include/sigslot.h:2238-2243 | the saved next survives any sequence of calls if and only if none of them removes it, and that is if and only if it is listed afterwards |
| Bytes.ExtractInverse | server/src/protocol.cpp:77-90 | the shift/or chain is a bijection from eight bytes, inverse to big-endian encoding |
| Bytes.ExtractIsValue | server/src/protocol.cpp:77-90 | the chain computes the base-256 value of the first eight bytes |
| Bytes.ExtractPreservesOrder | server/src/protocol.cpp:77-90 | byte-wise lexicographic order is numeric order |
| Bytes.LittleEndianInverse | server/src/secnet.cpp:254-265 | host-order lengths read back |
| Frames.DecodeWellFormed | server/src/secnet.cpp:246-286 | the decoder sees exactly the data of any well-formed frame in any of the three length forms, masked or not, and consumes exactly the frame |
| Frames.MaskIsTransparent | server/src/secnet.cpp:267-286 | a masked frame decodes as its unmasked form |
| Frames.MaskedTwice | server/src/secnet.cpp:278-286 | unmasking inverts section 5.3 of RFC 6455 for every key and payload |
| Frames.MaskLaw | server/src/secnet.cpp:278-286 | byte 4j+m of masked data differs from the data by byte m of the key, as in section 5.3 of RFC 6455 |
| Frames.DecodePacketFrame | server/src/secnet.cpp:288-318 | a binary frame around a packet and at least its payload is emitted whole |
| Frames.MessageVerdict | server/src/secnet.cpp:288-318 | what becomes of any complete message that holds a packet, by the value of the first byte: not binary, fragmented, truncated, or emitted |
| Frames.ShortMessageVerdict | server/src/secnet.cpp:288-298 | a complete message shorter than a packet header is refused |
| Frames.FrameVerdict | server/src/secnet.cpp:288-318 | the same for a peer's frame of any form, mask and opcode: emitted only if binary, and fragmented if and only if not final |
| Frames.ShortFrameVerdict | server/src/secnet.cpp:288-298 | a peer's frame with less than a packet header is refused |
| Frames.HeaderByValue | server/src/secnet.cpp:246-272 | where the payload starts, by the value of the second byte |
| Frames.LengthByValue | server/src/secnet.cpp:252-265 | the length of the payload, by the value of the length bytes, low byte first |
| Frames.SentLayout | server/src/secnet.cpp:76-116 | what is sent, byte by byte: a final unmasked binary frame, its length form chosen at 126 and 65535 |
| Frames.FrameRoundTrip | server/src/secnet.cpp:76-116 | what is sent decodes to the same packet and payload, consuming exactly those bytes, if and only if header size plus length does not wrap |
| Frames.DecoderBounds | server/src/secnet.cpp:274-318 | the region handed on is the frame's unmasked payload behind the packet header, by position in the input, and is as long as declared if and only if the sum does not wrap |
| Frames.DecodeByPosition | server/src/secnet.cpp:246-286 | reading a frame step by step and cutting it out by position are the same on every input |
| Frames.WrappedLengthEmitted | server/src/secnet.cpp:302-318 | a concrete message on which the length check passes by wrapping |
| Frames.ParseInverse | server/include/secnet.h:14-19 | the packed header parses back |
| Frames.PacketLayout | server/include/secnet.h:14-19 | version, command, then eight length bytes, low byte first |
| Connections.SecNet.SendPacket | server/src/secnet.cpp:76-116 | writes exactly the frame or the bare packet |
| Connections.SecNet.HandleWebSocketFrame | server/src/secnet.cpp:246-319 | reads, unmasks and checks exactly as the decoder function says, and leaves the rest of the input |
| Connections.SecNet.Unmask | server/src/secnet.cpp:278-286 | the in-place loop masks every byte with its key byte |
| Connections.SecNet.Open | server/src/secnet.cpp:43-64 | the first ten bytes decide between upgrade, refusal and a bare packet |
| Connections.OpeningVerdict | server/src/secnet.cpp:43-64 | what becomes of a connection that starts with a version 1 packet: refused above 0x8000000 bytes, otherwise its payload is read whole or not at all |
| Connections.OpeningUpgrade | server/src/secnet.cpp:43-53 | ten bytes that start with GET and a space lead to the upgrade; fewer than ten are no packet |
| Connections.GetIsFourBytes | server/src/secnet.cpp:48 | the integer comparison is true if and only if the header starts with the four characters GET and space |
| Connections.TransportsDecodeAlike | server/src/secnet.cpp:43-64 | bare and framed bytes decode to the same packet and payload if and only if the bare form is no GET and within the size limit |
| Server.EmitCallsEachOnce | server/src/secnet.cpp:63 | emitting a packet calls a slot through each connection of the signal, once, in order |
| Server.TransportIndependence | server/src/secnet.cpp:43-64 | a framed packet is delivered through every connection exactly once; the bare bytes lead to the same calls if and only if they are no GET and within the size limit, or nobody is connected |
| Handshake.SplitHeaders | server/src/secnet.cpp:120-168 | both loops over the fixed array compute the two-phase split, and report leaving the array |
| Handshake.TwoPhaseIsOnePass | server/src/secnet.cpp:132-168 | the two-phase splitter equals a one-pass split if and only if no blank line ends in the first ten bytes |
| Handshake.BlankLineInTheFirstTen | server/src/secnet.cpp:132-168 | after any line of six characters and a blank line the two differ, whatever follows |
| Handshake.BlankLineExample | server/src/secnet.cpp:132-168 | ten concrete characters for which they differ |
| Handshake.SplitRequest | server/src/secnet.cpp:132-168 | a request of plain lines is split back into them if it has at most fourteen, and leaves the array otherwise |
| Handshake.ParseLine | server/src/secnet.cpp:174-194 | the two character loops split a line at its first colon |
| Handshake.LineParses | server/src/secnet.cpp:174-194 | name, colon, space, content parses back for every colon-free name |
| Handshake.ContentBehindColon | server/src/secnet.cpp:174-194 | exactly two characters are dropped behind a colon-free name, whatever the second is |
| Handshake.NoColon | server/src/secnet.cpp:174-194 | a line without a colon is all name |
| Handshake.JudgeHeaders | server/src/secnet.cpp:170-214 | the header loop judges the last match of each name among the lines it examines |
| Handshake.HandshakeOnRequest | server/src/secnet.cpp:120-214 | for any request of up to thirteen headers the verdict is that of the last values among all headers but the last one |
| Handshake.HandshakeIsRight | server/src/secnet.cpp:161-214 | that verdict is the one on the whole request if and only if the last header would not change it |
| Handshake.VerdictByText | server/src/secnet.cpp:196-214 | the verdict in the header names and values as sent, for any request of up to thirteen headers |
| Handshake.UpgradeAccepted | server/src/secnet.cpp:196-214 | every request with version 13, protocol shepoo and a key, whatever comes last, is accepted with that key |
| Handshake.RequestText | server/src/secnet.cpp:120-168 | the header lines and the blank line as sent |
| Handshake.ProtocolLastIsRefused | server/src/secnet.cpp:161-214 | requests that are in order and put the protocol last are refused |
| Storage.AvailableIsInside | server/src/blockstorage.cpp:48-51 | an available number always addresses a whole block inside the file, wrapped or not |
| Storage.AvailabilityDomain | server/src/blockstorage.cpp:48-51 | the check is right for every unwrapped number if and only if the file holds a block |
| Storage.AvailabilityIsRight | server/src/blockstorage.cpp:48-51 | for every block size: the check is right for a number if and only if the number does not wrap, or wraps to where no block fits |
| Storage.AvailabilityWraps | server/src/blockstorage.cpp:48-51 | corollary for block sizes dividing 2^64: a number is available if and only if its residue is a block of the file |
| Storage.BlockOfOffset | server/src/blockstorage.cpp:23-41 | for every block size, any number reads the bytes at its wrapped offset: the end of one block and the beginning of what follows, or nothing |
| Storage.BlockOfResidue | server/src/blockstorage.cpp:23-41 | corollary for block sizes dividing 2^64: exactly the block of the residue, or nothing |
| Storage.WrappedNumberExample | server/src/blockstorage.cpp:48-51 | a concrete number past the end that is reported available |
| Storage.BlocksAreThePrefix | server/src/blockstorage.cpp:23-41 | the first blocks in order are the file from its start |
| Storage.AllBlocksCoverTheFile | server/src/blockstorage.cpp:23-41 | all blocks together are the longest block-aligned prefix of the file |
| Storage.Blockstorage.GetBlock | server/src/blockstorage.cpp:23-41 | null exactly when unavailable, otherwise a fresh buffer with the addressed bytes |
| Storage.Blockstorage.StoreBlock | server/src/blockstorage.cpp:43-46 | changes nothing |
| Protocols.Protocol.PacketReceived | server/src/protocol.cpp:10-75 | exits, stays silent or writes one answer exactly as the reaction says, and changes nothing but the output |
| Server.AvailabilityAgreesWithRead | server/src/protocol.cpp:21-71 | on the wire, in any frame forms: OK is read back if and only if a read of the same number has a block to send, and then that read is answered with the bytes at the wrapped offset |
| Visits.VisitAnswered | server/src/secnet.cpp:43-64 | the server serves one packet on a connection: on either transport the peer reads back the one fitting answer if the request is accepted, of its declared length, and nothing otherwise |
| Server.AcceptsExactly | server/src/protocol.cpp:10-75 | which requests the slot is made for: all but a read with no block to send and those whose region does not hold what is read |
| Server.RepliesExactly | server/src/protocol.cpp:10-75 | the reply to each of them, in the numbers of the protocol |
| Server.WriteIsAnswered | server/src/protocol.cpp:37-53 | every write of one block is accepted and answered with OK |
| Server.StubsAreSilent | server/src/protocol.cpp:54-57 | the two stub commands are accepted and not answered |
| Server.RefusedIsServed | server/src/protocol.cpp:10-75 | every refused request is accepted, unanswered, and ends the process |
| Visits.AdmissibleExactly | server/src/protocol.cpp:10-75 | with one slot, exactly the connections whose packet it accepts are admissible |
| Visits.BareReceivedExactly | server/src/secnet.cpp:55-63 | which bare packets are received, with the limit as a number |
| Visits.FramedReceivedExactly | server/src/secnet.cpp:288-318 | which framed packets are received: binary and complete |
| Visits.VisitsAnswered | server/src/protocol.cpp:19-75 | over any sequence of connections on either transport: one fitting answer for each accepted request, in order, and no other |
| Visits.VisitReadsBack | server/src/secnet.cpp:76-116 | with any slots connected and on either transport, what is written reads back as the answers |
| Visits.TransportsAnswerAlike | server/src/secnet.cpp:43-64 | the same request bare and framed: both answers read back the same if and only if the request is within the size limit or is not answered anyway |
| Server.AnswersMatchRequests | server/src/secnet.cpp:246-319 | about repeated `handleWebSocketFrame` calls on one stream, of which the server makes one: what they write reads back as one fitting answer for each accepted request, in order |
| Server.SessionReadsBack | server/src/secnet.cpp:76-116 | with any slots connected, what such calls write reads back as the sequence of answers |
| Server.ConversationEndToEnd | server/src/secnet.cpp:246-319 | about repeated calls again, on any sequence of frames in any length forms and masks |
| Server.FramesReadAsSent | server/src/secnet.cpp:246-319 | a stream of frames in any forms reads as the messages they carry |
| Protocols.EmittedIsReadable | server/src/protocol.cpp:21-71 | decoder and dispatcher together read inside the frame; the availability command if and only if eight bytes follow the header |
| Protocols.OpenedIsReadable | server/src/protocol.cpp:21-71 | the same for a bare packet: if and only if the availability command declares at least eight bytes |
| Protocols.UnreadableRequest | server/src/protocol.cpp:58-71 | a bare availability request without a number is delivered and reads past its region |
| Protocols.ReadBlockEndToEnd | server/src/protocol.cpp:21-36 | from the bytes of a READ_BLOCK frame, any length form, masked or not, to an answer that decodes to exactly the bytes of that block |
| Protocols.AvailabilityEndToEnd | server/src/protocol.cpp:58-71 | from the bytes of an IS_BLOCK_AVAILABLE frame, for every block size, to an answer that decodes to OK if and only if a block fits in the file at the wrapped offset |
| Protocols.AvailabilityAnswerIsRight | server/src/protocol.cpp:58-71 | that answer is right if and only if the number does not wrap, or wraps to where no block fits |
| Server.EmitPacket | server/src/secnet.cpp:318 | the walk over the signal's connections calls the slots of the reference walk in order, writes their answers, and stops when one ends the process |
| Server.AllSlotsAnswer | server/src/secnet.cpp:318 | with several slots, all answer in order as long as none ends the process |
| Server.SlotEndsTheWalk | server/src/secnet.cpp:318 | the first slot that ends the process is the last to be called |
| Visits.Start | server/src/main.cpp:152-155 | what `main` sets up meets all that serving a connection asks of signal and slot |
| Server.ServeFrame | server/src/secnet.cpp:246-319 | one `handleWebSocketFrame` call: decode, emit to every connection, answer |
| Server.ServeFrames | server/src/secnet.cpp:246-319 | any number of `handleWebSocketFrame` calls on one stream: the output grows by exactly their answers, and nothing else changes |
| Visits.ServeBare | server/src/secnet.cpp:43-64 | a connection that is not upgraded: its packet is emitted and exactly the bare answers are written; an upgrade writes nothing yet |
| Visits.ServeUpgraded | server/src/secnet.cpp:241-243 | after the handshake the connection is a WebSocket, one frame is handled, and exactly its framed answers are written |

## Left out

- Other sigslot arities and thread policies: copies of arity 3, and compiled out.
- Calling `slot_disconnect`, `slot_duplicate`, `signal_connect` or `signal_disconnect` directly: public in C++ but the registry's own callbacks; runs consist of the client operations.
- Runs.RunCalls: objects are constructed in storage named beforehand, as by placement; allocation of that storage is not modelled.
- Delivery.Emit: a callback that removes the saved next connection, or destroys the emitting signal, is outside the domain; so are callbacks that append for ever.
- Server.EmitPacket: the slots do not touch the registry while they are called, as the source's one slot does not; emission with callbacks that do is `Delivery.Emit`.
- Server.ServeFrames: a loop the source does not have; the server makes one such call for each connection (`Visits.ServeUpgraded`). So are the stream lemmas of `Server`.
- Visits.ServeUpgraded: starts behind the handshake, whose verdict is `Handshake`; the two are not joined into one method.
- OpenSSL, sockets, the accept loop, fork and `main`: the connection is an input and an output byte sequence with full reads and writes. A read that finds too few bytes ends in Incomplete, Starved or NoPacket, where the source goes on with what its buffers hold; in the header loop it appends a zero byte for ever.
- SHA-1, base64 and the text of the handshake answer, and the three bytes read after it: the frame model starts after them. The handshake works on characters, the frames on bytes.
- Allocation: the buffer size `payloadLength+1` can wrap to zero for one length, which the decoder function does not show.
- The uninitialised `_webSocket`: taken to start out false.
- Protocols.Protocol.PacketReceived: requires that a read names an available block and that the region is readable, since the code would write from null or read past the region. `Accepts` and `Servable` in `Server` and `Admissible` in `Visits` carry the same.
- Storage.Blockstorage.GetBlock: requires a file of at least one block and an unchanged file; `open`, `lseek64` and `lockf` results are not modelled.
- LOCK_BLOCKS, GET_MAPPING and the shuffle server: stubs or absent in the code.
