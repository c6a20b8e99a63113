/** The server between signal and wire: a received packet is emitted to every connection of the
    signal, and the slots answer. First what is delivered, then what is answered, also when frames are
    handled one after the other. */
module Server {
  import opened Bytes
  import opened Frames
  import opened Storage
  import opened Connections
  import opened Protocols
  import opened Registry
  import opened Emission
  import opened Callbacks
  import opened Signals
  import opened Delivery
  import opened Sequences

  /* ---------- what a received packet delivers ---------- */

  /** One call of a slot, through one connection. */
  datatype Call<R> = Call(conn: Conn<R>, packet: Packet, region: seq<byte>)

  /** The slots of the server leave the registry alone. */
  ghost function Idle(): Emission.Callbacks {
    Emission.Callbacks((k: nat) => [])
  }

  function ConnOf<R>(cs: seq<Conn<R>>, n: Node): Conn<R>
    requires n in Nodes(cs)
  {
    if cs[0].node == n then cs[0]
    else
      assert Nodes(cs) == [cs[0].node] + Nodes(cs[1..]);
      ConnOf(cs[1..], n)
  }

  /** The calls that emitting a packet makes over a connection list: those of the reference walk. */
  ghost function Calls<R>(sl: Slots<R>, packet: Packet, region: seq<byte>): seq<Call<R>> {
    QuietDeliversAll(Nodes(sl.conns), sl.next, 0, Idle(), 0);
    var ns := Deliveries(Trace(Nodes(sl.conns), sl.next, 0, Idle(), 0));
    seq(|ns|, i requires 0 <= i < |ns| => Call(ConnOf(sl.conns, ns[i]), packet, region))
  }

  ghost function CallsOfFrame<R>(sl: Slots<R>, o: Outcome): seq<Call<R>> {
    if o.Emitted? then Calls(sl, o.packet, o.region) else []
  }

  ghost function CallsOfOpening<R>(sl: Slots<R>, o: Opening): seq<Call<R>> {
    if o.Direct? then CallsOfFrame(sl, o.o) else []
  }

  /** One call through each connection, in list order. */
  ghost predicate OneCallEach<R>(calls: seq<Call<R>>, cs: seq<Conn<R>>, packet: Packet, region: seq<byte>) {
    |calls| == |cs| && forall i :: 0 <= i < |cs| ==> calls[i] == Call(cs[i], packet, region)
  }

  lemma {:induction false} ConnOfNode<R>(sl: Slots<R>, i: nat)
    requires Numbered(sl) && i < |sl.conns|
    ensures sl.conns[i].node in Nodes(sl.conns) && ConnOf(sl.conns, sl.conns[i].node) == sl.conns[i]
    decreases |sl.conns|
  {
    NodesAt(sl.conns, i);
    if i > 0 {
      NumberedTail(sl);
      NodesAt(sl.conns[1..], i - 1);
      ConnOfNode(Slots(sl.conns[1..], sl.next), i - 1);
    }
  }

  lemma EmitCallsEachOnce<R>(sl: Slots<R>, packet: Packet, region: seq<byte>)
    requires Numbered(sl)
    ensures OneCallEach(Calls(sl, packet, region), sl.conns, packet, region)
  {
    QuietDeliversAll(Nodes(sl.conns), sl.next, 0, Idle(), 0);
    forall i | 0 <= i < |sl.conns|
      ensures ConnOf(sl.conns, Nodes(sl.conns)[i]) == sl.conns[i]
    {
      ConnOfNode(sl, i);
    }
  }

  /** Transport independence, up to the slots: a packet inside any well-formed binary frame is
      delivered through every connection of the signal exactly once, in order; the same bytes sent bare
      lead to the same calls just when they are not taken for an HTTP request and are within the size
      limit, or when nobody is connected. */
  lemma TransportIndependence<R>(sl: Slots<R>, p: Packet, payload: seq<byte>, f: Frame, rest: seq<byte>)
    requires Numbered(sl) && |payload| == p.payloadLength
    requires WellFormed(f) && f.opcode == 2 && f.data == PacketBytes(p) + payload
    ensures
      var framed := CallsOfFrame(sl, DecodeFrame(FrameBytes(f) + rest));
      var bare := CallsOfOpening(sl, DecodeOpening(PacketBytes(p) + payload + rest));
      && OneCallEach(framed, sl.conns, p, payload)
      && (bare == framed <==>
          sl.conns == [] || (!StartsWithGet(PacketBytes(p)) && p.payloadLength <= MAX_PACKET_PAYLOAD_SIZE))
  {
    DecodePacketFrame(f, p, payload, rest);
    BareOpening(p, payload, rest);
    EmitCallsEachOnce(sl, p, payload);
  }

  /* ---------- what the slots answer ---------- */

  datatype Message = Message(packet: Packet, data: seq<byte>)

  /** The file behind a slot. */
  datatype Store = Store(disk: seq<byte>, blockSize: nat)

  predicate Usable(st: Store) {
    0 < st.blockSize <= |st.disk| && |st.disk| + PACKET_SIZE + 8 < MOD64
  }

  type BlockFile = st: Store | Usable(st) witness Store([0], 1)

  datatype Served = Served(answers: seq<Message>, exited: bool)

  /** The slot reads inside the region, and has a block to send when it announces one. */
  predicate Accepts(st: BlockFile, packet: Packet, region: seq<byte>) {
    && (packet.version == (VERSION_MAJOR << 4) | VERSION_MINOR ==> Readable(packet, region, st.blockSize))
    && React(st.disk, st.blockSize, packet, region) != NullAnswer
  }

  /** The slot ends the process. */
  predicate Ends(st: BlockFile, packet: Packet, region: seq<byte>)
    requires Accepts(st, packet, region)
  {
    React(st.disk, st.blockSize, packet, region) == Exit
  }

  /** What one slot answers: nothing or one message. */
  function Reply(st: BlockFile, packet: Packet, region: seq<byte>): seq<Message>
    requires Accepts(st, packet, region)
  {
    var r := React(st.disk, st.blockSize, packet, region);
    if r.Answer? then [Message(r.packet, r.data)] else []
  }

  /** Every slot that is reached accepts the packet. */
  predicate AllAccept(stores: seq<BlockFile>, packet: Packet, region: seq<byte>) {
    stores == [] ||
    (Accepts(stores[0], packet, region) &&
     (Ends(stores[0], packet, region) || AllAccept(stores[1..], packet, region)))
  }

  /** The slots called one after the other, until one ends the process. */
  function Serve(stores: seq<BlockFile>, packet: Packet, region: seq<byte>): Served
    requires AllAccept(stores, packet, region)
  {
    if stores == [] then Served([], false)
    else if Ends(stores[0], packet, region) then Served([], true)
    else
      var later := Serve(stores[1..], packet, region);
      Served(Reply(stores[0], packet, region) + later.answers, later.exited)
  }

  function WireOf(webSocket: bool, ms: seq<Message>): seq<byte> {
    if ms == [] then [] else Sent(webSocket, ms[0].packet, ms[0].data) + WireOf(webSocket, ms[1..])
  }

  lemma {:induction false} WireOfConcat(webSocket: bool, a: seq<Message>, b: seq<Message>)
    ensures WireOf(webSocket, a + b) == WireOf(webSocket, a) + WireOf(webSocket, b)
  {
    if a == [] {
      assert a + b == b;
    } else {
      assert (a + b)[1..] == a[1..] + b;
      WireOfConcat(webSocket, a[1..], b);
    }
  }

  function StoreOf(p: Protocol): Store {
    Store(p.blockStorage.disk, p.blockStorage.blockSize)
  }

  /** The slots behind the calls that emitting makes, in the order of the calls. */
  ghost function StoresOf<R>(calls: seq<Call<R>>, protocols: map<R, Protocol>): seq<Store> {
    seq(|calls|, i requires 0 <= i < |calls| =>
      if calls[i].conn.dest in protocols then StoreOf(protocols[calls[i].conn.dest]) else Store([0], 1))
  }

  /** Every connection leads to a slot with a usable file. */
  ghost predicate Wired(s: Signal, protocols: map<HasSlots, Protocol>)
    reads s, set r | r in protocols :: protocols[r].blockStorage
  {
    && s.Tidy() && Dests(s.connectedSlots) <= protocols.Keys
    && forall r :: r in protocols ==>
         protocols[r].blockStorage.Valid() && |protocols[r].blockStorage.disk| + PACKET_SIZE + 8 < MOD64
  }

  /** The same in list order. */
  ghost function SlotStores(s: Signal, protocols: map<HasSlots, Protocol>): seq<Store>
    reads s
  {
    seq(|s.connectedSlots|, i requires 0 <= i < |s.connectedSlots| reads s =>
      if s.connectedSlots[i].dest in protocols then StoreOf(protocols[s.connectedSlots[i].dest]) else Store([0], 1))
  }

  /** Which slots are called, and in which order, does not depend on the packet. */
  lemma CallsInListOrder(s: Signal, protocols: map<HasSlots, Protocol>, packet: Packet, region: seq<byte>)
    requires Wired(s, protocols)
    ensures StoresOf(Calls(SlotsOf(s), packet, region), protocols) == SlotStores(s, protocols)
  {
    TidyIsNumbered(s);
    EmitCallsEachOnce(SlotsOf(s), packet, region);
  }

  /** The slots of s are those of stores. */
  ghost predicate Connected(s: Signal, protocols: map<HasSlots, Protocol>, stores: seq<Store>)
    reads s, set r | r in protocols :: protocols[r].blockStorage
  {
    Wired(s, protocols) && stores == SlotStores(s, protocols)
  }

  lemma WiredAt(s: Signal, protocols: map<HasSlots, Protocol>, i: nat)
    requires Wired(s, protocols) && i < |s.connectedSlots|
    ensures s.connectedSlots[i].dest in protocols
    ensures protocols[s.connectedSlots[i].dest].blockStorage.Valid()
    ensures SlotStores(s, protocols)[i] == StoreOf(protocols[s.connectedSlots[i].dest])
  {
    assert s.connectedSlots[i].dest in Dests(s.connectedSlots);
  }

  function Nth(cs: seq<Connection>, i: nat): Connection? {
    if i < |cs| then cs[i] else null
  }

  lemma {:induction false} NextOfAt(cs: seq<Connection>, next: Node, i: nat)
    requires Sorted(cs, next) && i < |cs|
    ensures cs[i] in cs && NextOf(cs, cs[i]) == Nth(cs, i + 1)
  {
    if i > 0 {
      NumbersTail(cs, next);
      NextOfAt(cs[1..], next, i - 1);
    }
  }

  /** What remains to be served is what the slots from the i-th on do. */
  ghost predicate StillServing(stores: seq<BlockFile>, i: nat, packet: Packet, region: seq<byte>, sent: seq<Message>)
    requires AllAccept(stores, packet, region)
  {
    && i <= |stores| && AllAccept(stores[i..], packet, region)
    && var later := Serve(stores[i..], packet, region);
       Serve(stores, packet, region) == Served(sent + later.answers, later.exited)
  }

  /** That, and sent has been written after base. */
  ghost predicate Serving(stores: seq<BlockFile>, i: nat, packet: Packet, region: seq<byte>, sent: seq<Message>,
                          secnet: SecNet, base: seq<byte>)
    requires AllAccept(stores, packet, region)
    reads secnet
  {
    StillServing(stores, i, packet, region, sent) && secnet.output == base + WireOf(secnet.webSocket, sent)
  }

  lemma ServeFirst(stores: seq<BlockFile>, packet: Packet, region: seq<byte>)
    requires AllAccept(stores, packet, region)
    ensures StillServing(stores, 0, packet, region, [])
  {
    assert stores[0..] == stores;
  }

  lemma ServeNext(stores: seq<BlockFile>, i: nat, packet: Packet, region: seq<byte>, sent: seq<Message>)
    requires AllAccept(stores, packet, region) && i < |stores| && StillServing(stores, i, packet, region, sent)
    ensures Accepts(stores[i], packet, region)
    ensures
      if Ends(stores[i], packet, region) then Serve(stores, packet, region) == Served(sent, true)
      else StillServing(stores, i + 1, packet, region, sent + Reply(stores[i], packet, region))
  {
    assert stores[i..][0] == stores[i] && stores[i..][1..] == stores[i + 1..];
    if !Ends(stores[i], packet, region) {
      Regroup(sent, Reply(stores[i], packet, region), Serve(stores[i + 1..], packet, region).answers);
    }
  }

  lemma ServeDone(s: Signal, protocols: map<HasSlots, Protocol>, stores: seq<BlockFile>, i: nat, packet: Packet,
                  region: seq<byte>, sent: seq<Message>)
    requires stores == SlotStores(s, protocols) && AllAccept(stores, packet, region)
    requires Nth(s.connectedSlots, i) == null && StillServing(stores, i, packet, region, sent)
    ensures Serve(stores, packet, region) == Served(sent, false)
  {
    assert stores[i..] == [];
  }

  /** One slot called. */
  method CallSlot(protocol: Protocol, packet: Packet, region: seq<byte>, secnet: SecNet) returns (exited: bool)
    requires protocol.blockStorage.Valid() && Usable(StoreOf(protocol))
    requires Accepts(StoreOf(protocol), packet, region)
    modifies secnet`output
    ensures exited <==> Ends(StoreOf(protocol), packet, region)
    ensures secnet.output ==
      old(secnet.output) + WireOf(secnet.webSocket, Reply(StoreOf(protocol), packet, region))
  {
    exited := protocol.PacketReceived(packet, region, secnet);
    ghost var r := React(protocol.blockStorage.disk, protocol.blockStorage.blockSize, packet, region);
    if r.Answer? {
      assert [Message(r.packet, r.data)][1..] == [];
    }
  }

  /** The body of the walk: the i-th connection saves its successor and calls its slot. Before the walk
      base has been written, and sent during it. */
  method CallInTurn(s: Signal, protocols: map<HasSlots, Protocol>, it: Connection, packet: Packet,
                    region: seq<byte>, secnet: SecNet, ghost stores: seq<BlockFile>, ghost i: nat,
                    ghost sent: seq<Message>, ghost base: seq<byte>)
    returns (exited: bool, itNext: Connection?, ghost sent': seq<Message>)
    requires Connected(s, protocols, stores) && it == Nth(s.connectedSlots, i)
    requires AllAccept(stores, packet, region) && Serving(stores, i, packet, region, sent, secnet, base)
    modifies secnet`output
    ensures itNext == Nth(s.connectedSlots, i + 1) && i < |stores|
    ensures exited ==> Serve(stores, packet, region) == Served(sent', true)
    ensures exited ==> secnet.output == base + WireOf(secnet.webSocket, sent')
    ensures !exited ==> Serving(stores, i + 1, packet, region, sent', secnet, base)
  {
    WiredAt(s, protocols, i);
    NextOfAt(s.connectedSlots, s.issued, i);
    itNext := NextOf(s.connectedSlots, it);
    ServeNext(stores, i, packet, region, sent);
    exited := CallSlot(protocols[it.dest], packet, region, secnet);
    if exited {
      ReplyOfExit(stores[i], packet, region);
    }
    ghost var reply := Reply(stores[i], packet, region);
    sent' := sent + reply;
    WireOfConcat(secnet.webSocket, sent, reply);
    Regroup(base, WireOf(secnet.webSocket, sent), WireOf(secnet.webSocket, reply));
  }

  /** `emit` for a received packet: the walk over the connections of the signal, each of which calls its
      slot, until one of them ends the process. The slots are those behind the calls of the reference
      walk. */
  method EmitPacket(s: Signal, protocols: map<HasSlots, Protocol>, packet: Packet, region: seq<byte>, secnet: SecNet,
                    ghost stores: seq<BlockFile>)
    returns (exited: bool)
    requires Connected(s, protocols, stores) && AllAccept(stores, packet, region)
    modifies secnet`output
    ensures stores == StoresOf(Calls(SlotsOf(s), packet, region), protocols)
    ensures
      var served := Serve(stores, packet, region);
      exited == served.exited && secnet.output == old(secnet.output) + WireOf(secnet.webSocket, served.answers)
  {
    CallsInListOrder(s, protocols, packet, region);
    exited := Walk(s, protocols, packet, region, secnet, stores);
  }

  method Walk(s: Signal, protocols: map<HasSlots, Protocol>, packet: Packet, region: seq<byte>, secnet: SecNet,
              ghost stores: seq<BlockFile>)
    returns (exited: bool)
    requires Connected(s, protocols, stores) && AllAccept(stores, packet, region)
    modifies secnet`output
    ensures
      var served := Serve(stores, packet, region);
      exited == served.exited && secnet.output == old(secnet.output) + WireOf(secnet.webSocket, served.answers)
  {
    ghost var base, sent: seq<Message>, i: nat := secnet.output, [], 0;
    var it: Connection? := Nth(s.connectedSlots, 0);
    ServeFirst(stores, packet, region);
    while it != null
      invariant it == Nth(s.connectedSlots, i)
      invariant Serving(stores, i, packet, region, sent, secnet, base)
      decreases |s.connectedSlots| - i
    {
      exited, it, sent := CallInTurn(s, protocols, it, packet, region, secnet, stores, i, sent, base);
      if exited {
        return;
      }
      i := i + 1;
    }
    ServeDone(s, protocols, stores, i, packet, region, sent);
    exited := false;
  }

  lemma ReplyOfExit(st: BlockFile, packet: Packet, region: seq<byte>)
    requires Accepts(st, packet, region) && Ends(st, packet, region)
    ensures Reply(st, packet, region) == []
  {
  }

  /* ---------- frames handled one after the other ---------- */

  lemma RestIsShorter(input: seq<byte>)
    requires DecodeFrame(input).Emitted?
    ensures |DecodeFrame(input).rest| < |input|
  {
    DecoderBounds(input);
  }

  /** Every frame that is reached is accepted by every slot that is reached. */
  predicate Servable(stores: seq<BlockFile>, input: seq<byte>)
    decreases |input|
  {
    var o := DecodeFrame(input);
    !o.Emitted? ||
    (AllAccept(stores, o.packet, o.region) &&
     (RestIsShorter(input); Serve(stores, o.packet, o.region).exited || Servable(stores, o.rest)))
  }

  /** All answers when the frames of a stream are handled one after the other, until a slot ends the
      process or no packet can be read. */
  function Session(stores: seq<BlockFile>, input: seq<byte>): seq<Message>
    requires Servable(stores, input)
    decreases |input|
  {
    var o := DecodeFrame(input);
    if !o.Emitted? then []
    else
      RestIsShorter(input);
      var served := Serve(stores, o.packet, o.region);
      served.answers + if served.exited then [] else Session(stores, o.rest)
  }

  /** One WebSocket frame served: decode, emit to every connection, answer. */
  method ServeFrame(secnet: SecNet, s: Signal, protocols: map<HasSlots, Protocol>, ghost stores: seq<BlockFile>)
    returns (exited: bool)
    requires secnet.webSocket && Connected(s, protocols, stores)
    requires
      var o := DecodeFrame(secnet.input);
      o.Emitted? ==> AllAccept(stores, o.packet, o.region)
    modifies secnet`input, secnet`output
    ensures
      var o := DecodeFrame(old(secnet.input));
      if !o.Emitted? then exited && secnet.output == old(secnet.output)
      else
        var served := Serve(stores, o.packet, o.region);
        && exited == served.exited && secnet.input == o.rest
        && secnet.output == old(secnet.output) + WireOf(true, served.answers)
  {
    var o := secnet.HandleWebSocketFrame();
    if !o.Emitted? {
      return true;
    }
    exited := EmitPacket(s, protocols, o.packet, o.region, secnet, stores);
  }

  /** A session under way, or over: what has been sent, and what the remaining input will add. */
  ghost predicate Underway(stores: seq<BlockFile>, start: seq<byte>, over: bool, input: seq<byte>, sent: seq<Message>)
    requires Servable(stores, start)
  {
    if over then Session(stores, start) == sent
    else Servable(stores, input) && Session(stores, start) == sent + Session(stores, input)
  }

  /** That, on this connection, with sent written after base. */
  ghost predicate Handling(stores: seq<BlockFile>, start: seq<byte>, over: bool, sent: seq<Message>, secnet: SecNet,
                           base: seq<byte>)
    requires Servable(stores, start)
    reads secnet
  {
    Underway(stores, start, over, secnet.input, sent) && secnet.output == base + WireOf(true, sent)
  }

  lemma SessionStarts(stores: seq<BlockFile>, secnet: SecNet)
    requires Servable(stores, secnet.input)
    ensures Handling(stores, secnet.input, false, [], secnet, secnet.output)
  {
  }

  lemma SessionNext(stores: seq<BlockFile>, start: seq<byte>, input: seq<byte>, sent: seq<Message>)
    requires Servable(stores, start) && Underway(stores, start, false, input, sent)
    ensures
      var o := DecodeFrame(input);
      if !o.Emitted? then Underway(stores, start, true, input, sent)
      else
        && AllAccept(stores, o.packet, o.region) && |o.rest| < |input|
        && var served := Serve(stores, o.packet, o.region);
           Underway(stores, start, served.exited, o.rest, sent + served.answers)
  {
    var o := DecodeFrame(input);
    if o.Emitted? {
      RestIsShorter(input);
      var served := Serve(stores, o.packet, o.region);
      Regroup(sent, served.answers, if served.exited then [] else Session(stores, o.rest));
    }
  }

  /** Any number of calls on one stream, as long as the process lives; the registry and the files stay
      as they are. */
  method ServeFrames(secnet: SecNet, s: Signal, protocols: map<HasSlots, Protocol>, ghost stores: seq<BlockFile>)
    requires secnet.webSocket && Connected(s, protocols, stores)
    requires Servable(stores, secnet.input)
    modifies secnet`input, secnet`output
    ensures secnet.output == old(secnet.output) + WireOf(true, Session(stores, old(secnet.input)))
  {
    ghost var start, base := secnet.input, secnet.output;
    ghost var sent: seq<Message> := [];
    var exited := false;
    SessionStarts(stores, secnet);
    while !exited
      invariant Handling(stores, start, exited, sent, secnet, base)
      decreases !exited, |secnet.input|
    {
      exited, sent := ServeOneMore(secnet, s, protocols, stores, start, base, sent);
    }
  }

  /** The body of that loop. */
  method ServeOneMore(secnet: SecNet, s: Signal, protocols: map<HasSlots, Protocol>, ghost stores: seq<BlockFile>,
                      ghost start: seq<byte>, ghost base: seq<byte>, ghost sent: seq<Message>)
    returns (exited: bool, ghost sent': seq<Message>)
    requires secnet.webSocket && Connected(s, protocols, stores)
    requires Servable(stores, start) && Handling(stores, start, false, sent, secnet, base)
    modifies secnet`input, secnet`output
    ensures Handling(stores, start, exited, sent', secnet, base)
    ensures !exited ==> |secnet.input| < |old(secnet.input)|
  {
    ghost var o := DecodeFrame(secnet.input);
    sent' := sent;
    SessionNext(stores, start, secnet.input, sent);
    exited := ServeFrame(secnet, s, protocols, stores);
    if o.Emitted? {
      ghost var answers := Serve(stores, o.packet, o.region).answers;
      WireOfConcat(true, sent, answers);
      Regroup(base, WireOf(true, sent), WireOf(true, answers));
      sent' := sent + answers;
    }
  }

  /* ---------- what a peer reads ---------- */

  /** All packets that can be read from a stream of frames. */
  function DecodeAll(stream: seq<byte>): seq<Message>
    decreases |stream|
  {
    var o := DecodeFrame(stream);
    if !o.Emitted? then []
    else
      RestIsShorter(stream);
      [Message(o.packet, o.region)] + DecodeAll(o.rest)
  }

  /** The message carries what it declares, and is far from wrapping. */
  predicate WellSized(m: Message) {
    |m.data| == m.packet.payloadLength && PACKET_SIZE + m.packet.payloadLength < MOD64
  }

  /** Any sequence of sent messages reads back as that sequence. */
  lemma {:induction false} DecodeAllInverse(ms: seq<Message>)
    requires forall m :: m in ms ==> WellSized(m)
    ensures DecodeAll(WireOf(true, ms)) == ms
  {
    if ms != [] {
      assert ms[0] in ms && forall m :: m in ms[1..] ==> m in ms;
      DecodeAllInverse(ms[1..]);
      SentDecodes(ms[0].packet, ms[0].data, WireOf(true, ms[1..]));
    }
  }

  lemma ReplyWellSized(st: BlockFile, packet: Packet, region: seq<byte>)
    requires Accepts(st, packet, region)
    ensures forall m :: m in Reply(st, packet, region) ==> WellSized(m)
  {
  }

  lemma {:induction false} ServedWellSized(stores: seq<BlockFile>, packet: Packet, region: seq<byte>)
    requires AllAccept(stores, packet, region)
    ensures forall m :: m in Serve(stores, packet, region).answers ==> WellSized(m)
  {
    if stores != [] {
      ReplyWellSized(stores[0], packet, region);
      if !Ends(stores[0], packet, region) {
        ServedWellSized(stores[1..], packet, region);
      }
    }
  }

  lemma {:induction false} SessionWellSized(stores: seq<BlockFile>, input: seq<byte>)
    requires Servable(stores, input)
    ensures forall m :: m in Session(stores, input) ==> WellSized(m)
    decreases |input|
  {
    var o := DecodeFrame(input);
    if o.Emitted? {
      RestIsShorter(input);
      ServedWellSized(stores, o.packet, o.region);
      if !Serve(stores, o.packet, o.region).exited {
        SessionWellSized(stores, o.rest);
      }
    }
  }

  /** What any session has written reads back as its answers, whatever is connected. */
  lemma SessionReadsBack(stores: seq<BlockFile>, input: seq<byte>)
    requires Servable(stores, input)
    ensures DecodeAll(WireOf(true, Session(stores, input))) == Session(stores, input)
    ensures forall m :: m in Session(stores, input) ==> WellSized(m)
  {
    SessionWellSized(stores, input);
    DecodeAllInverse(Session(stores, input));
  }

  /* ---------- one answer for each accepted request ---------- */

  /** The request ends the process. */
  predicate Refused(st: BlockFile, request: Message) {
    var p := request.packet;
    || p.version != 1
    || p.command == 0 || p.command == 5 || p.command > 6
    || (p.command == 1 && p.payloadLength != 8)
    || (p.command == 2 && p.payloadLength != 8 + st.blockSize)
  }

  /** The request is one of the three that are answered. */
  predicate Accepted(st: BlockFile, request: Message) {
    !Refused(st, request) && (request.packet.command == 1 || request.packet.command == 2 || request.packet.command == 6)
  }

  /** The requests that are looked at: up to the first that ends the process. */
  function Heard(st: BlockFile, requests: seq<Message>): seq<Message> {
    if requests == [] || Refused(st, requests[0]) then [] else [requests[0]] + Heard(st, requests[1..])
  }

  /** The block number: the value of the first eight bytes, high byte first. */
  function NumberIn(request: Message): nat
    requires |request.data| >= 8
  {
    BeValue(Digits(request.data[..8]))
  }

  /** Where that block is looked for: at the wrapped offset. */
  function OffsetIn(st: BlockFile, request: Message): nat
    requires |request.data| >= 8
  {
    (NumberIn(request) * st.blockSize) % MOD64
  }

  predicate InFile(st: BlockFile, request: Message)
    requires |request.data| >= 8
  {
    OffsetIn(st, request) + st.blockSize <= |st.disk|
  }

  /** The bytes there. */
  function BytesFor(st: BlockFile, request: Message): seq<byte>
    requires |request.data| >= 8 && InFile(st, request)
  {
    st.disk[OffsetIn(st, request)..OffsetIn(st, request) + st.blockSize]
  }

  /** What an answer to a request must be. */
  predicate AnswerFits(st: BlockFile, request: Message, answer: Message) {
    && answer.packet.version == request.packet.version && WellSized(answer)
    && (request.packet.command == 2 ==> answer.packet.command == 7 && answer.data == [])
    && (request.packet.command == 1 ==>
          && |request.data| >= 8 && answer.packet.command == 5
          && InFile(st, request) && answer.data == BytesFor(st, request))
    && (request.packet.command == 6 ==>
          && |request.data| >= 8 && answer.data == []
          && answer.packet.command == if InFile(st, request) then 7 else 8)
  }

  /** One answer for each accepted request, in order, and no other answer. */
  ghost predicate AnsweredInOrder(st: BlockFile, requests: seq<Message>, answers: seq<Message>) {
    if requests == [] then answers == []
    else if Accepted(st, requests[0]) then
      answers != [] && AnswerFits(st, requests[0], answers[0]) && AnsweredInOrder(st, requests[1..], answers[1..])
    else AnsweredInOrder(st, requests[1..], answers)
  }

  lemma RefusedEnds(st: BlockFile, packet: Packet, region: seq<byte>)
    requires Accepts(st, packet, region)
    ensures Ends(st, packet, region) <==> Refused(st, Message(packet, region))
  {
    VersionIsOne();
  }

  lemma ReplyFits(st: BlockFile, packet: Packet, region: seq<byte>)
    requires Accepts(st, packet, region) && !Refused(st, Message(packet, region))
    ensures |Reply(st, packet, region)| == if Accepted(st, Message(packet, region)) then 1 else 0
    ensures Accepted(st, Message(packet, region)) ==>
      AnswerFits(st, Message(packet, region), Reply(st, packet, region)[0])
  {
    VersionIsOne();
    if packet.command == 1 || packet.command == 6 {
      ExtractIsValue(region);
      AvailableIsInside(BlockNumber(region), |st.disk|, st.blockSize);
      if packet.command == 1 {
        ReadAt(st.disk, BlockNumber(region), Offset(BlockNumber(region), st.blockSize), st.blockSize);
      }
    }
  }

  /* What is accepted and answered, in the numbers of the protocol. */

  /** Nothing is outside the domain of the slot but these: a read with no block to send, and a request
      of the right length, or about availability, whose region does not hold what is read. */
  lemma AcceptsExactly(st: BlockFile, p: Packet, region: seq<byte>)
    ensures Accepts(st, p, region) <==>
      (p.version == 1 ==>
         && (p.command == 1 && p.payloadLength == 8 ==> |region| >= 8 && InFile(st, Message(p, region)))
         && (p.command == 2 && p.payloadLength == 8 + st.blockSize ==> |region| >= 8 + st.blockSize)
         && (p.command == 6 ==> |region| >= 8))
  {
    VersionIsOne();
    if p.command == 1 && |region| >= 8 {
      ExtractIsValue(region);
      AvailableIsInside(BlockNumber(region), |st.disk|, st.blockSize);
    }
  }

  lemma RepliesExactly(st: BlockFile, p: Packet, region: seq<byte>)
    requires Accepts(st, p, region)
    ensures Ends(st, p, region) <==> Refused(st, Message(p, region))
    ensures Refused(st, Message(p, region)) || p.command == 3 || p.command == 4 ==> Reply(st, p, region) == []
    ensures !Refused(st, Message(p, region)) && p.command == 2 ==>
      Reply(st, p, region) == [Message(Packet(1, 7, 0), [])]
    ensures !Refused(st, Message(p, region)) && p.command == 6 ==>
      |region| >= 8 &&
      Reply(st, p, region) == [Message(Packet(1, if InFile(st, Message(p, region)) then 7 else 8, 0), [])]
    ensures !Refused(st, Message(p, region)) && p.command == 1 ==>
      |region| >= 8 && InFile(st, Message(p, region)) &&
      Reply(st, p, region) == [Message(Packet(1, 5, st.blockSize), BytesFor(st, Message(p, region)))]
  {
    AcceptsExactly(st, p, region);
    RefusedEnds(st, p, region);
    VersionIsOne();
    if p.version == 1 && p.command == 6 {
      ReplyToAsk(st, Message(p, region));
    } else if p.version == 1 && p.command == 1 && p.payloadLength == 8 {
      ReplyToRead(st, Message(p, region));
    }
  }

  /** Every write of one block is answered. */
  lemma WriteIsAnswered(st: BlockFile, p: Packet, region: seq<byte>)
    requires p.version == 1 && p.command == 2 && p.payloadLength == 8 + st.blockSize
    requires |region| >= 8 + st.blockSize
    ensures Accepts(st, p, region) && !Ends(st, p, region)
    ensures Reply(st, p, region) == [Message(Packet(1, 7, 0), [])]
  {
    AcceptsExactly(st, p, region);
    RepliesExactly(st, p, region);
  }

  /** The two commands without an implementation are passed over. */
  lemma StubsAreSilent(st: BlockFile, p: Packet, region: seq<byte>)
    requires p.version == 1 && (p.command == 3 || p.command == 4)
    ensures Accepts(st, p, region) && !Ends(st, p, region) && Reply(st, p, region) == []
  {
    AcceptsExactly(st, p, region);
    RepliesExactly(st, p, region);
  }

  /** Every refused request ends the process unanswered. */
  lemma RefusedIsServed(st: BlockFile, p: Packet, region: seq<byte>)
    requires Refused(st, Message(p, region))
    ensures Accepts(st, p, region) && Ends(st, p, region) && Reply(st, p, region) == []
  {
    AcceptsExactly(st, p, region);
    RepliesExactly(st, p, region);
  }

  function Replies(stores: seq<BlockFile>, packet: Packet, region: seq<byte>): seq<Message>
    requires forall st :: st in stores ==> Accepts(st, packet, region)
  {
    if stores == [] then []
    else
      assert stores[0] in stores && forall st :: st in stores[1..] ==> st in stores;
      Reply(stores[0], packet, region) + Replies(stores[1..], packet, region)
  }

  /** All slots answer, in order, as long as none ends the process. */
  lemma {:induction false} AllSlotsAnswer(stores: seq<BlockFile>, packet: Packet, region: seq<byte>)
    requires forall st :: st in stores ==> Accepts(st, packet, region) && !Ends(st, packet, region)
    ensures AllAccept(stores, packet, region)
    ensures Serve(stores, packet, region) == Served(Replies(stores, packet, region), false)
  {
    if stores != [] {
      assert stores[0] in stores && forall st :: st in stores[1..] ==> st in stores;
      AllSlotsAnswer(stores[1..], packet, region);
    }
  }

  /** The first slot that ends the process is the last to be called, whatever follows it. */
  lemma {:induction false} SlotEndsTheWalk(before: seq<BlockFile>, st: BlockFile, behind: seq<BlockFile>,
                                           packet: Packet, region: seq<byte>)
    requires forall b :: b in before ==> Accepts(b, packet, region) && !Ends(b, packet, region)
    requires Accepts(st, packet, region) && Ends(st, packet, region)
    ensures AllAccept(before + [st] + behind, packet, region)
    ensures Serve(before + [st] + behind, packet, region) == Served(Replies(before, packet, region), true)
  {
    var stores := before + [st] + behind;
    if before != [] {
      assert before[0] in before && forall b :: b in before[1..] ==> b in before;
      SlotEndsTheWalk(before[1..], st, behind, packet, region);
      assert stores[0] == before[0] && stores[1..] == before[1..] + [st] + behind;
    } else {
      assert stores[0] == st;
    }
  }

  lemma ServeOne(st: BlockFile, packet: Packet, region: seq<byte>)
    requires AllAccept([st], packet, region)
    ensures Accepts(st, packet, region)
    ensures Serve([st], packet, region) ==
      Served(Reply(st, packet, region), Ends(st, packet, region))
  {
    var stores: seq<BlockFile> := [st];
    assert stores[1..] == [];
    if Ends(st, packet, region) {
      ReplyOfExit(st, packet, region);
    }
  }

  lemma OneAnswered(st: BlockFile, m: Message)
    requires Accepts(st, m.packet, m.data)
    ensures AnsweredInOrder(st, Heard(st, [m]), Reply(st, m.packet, m.data))
  {
    var reply := Reply(st, m.packet, m.data);
    RefusedEnds(st, m.packet, m.data);
    if Refused(st, m) {
      ReplyOfExit(st, m.packet, m.data);
    } else {
      ReplyFits(st, m.packet, m.data);
      assert [m][1..] == [] && Heard(st, [m]) == [m];
      assert Accepted(st, m) ==> reply[1..] == [];
    }
  }

  lemma {:induction false} AnsweredConcat(st: BlockFile, r1: seq<Message>, a1: seq<Message>, r2: seq<Message>,
                                          a2: seq<Message>)
    requires AnsweredInOrder(st, r1, a1) && AnsweredInOrder(st, r2, a2)
    ensures AnsweredInOrder(st, r1 + r2, a1 + a2)
    decreases |r1|
  {
    if r1 == [] {
      assert r1 + r2 == r2 && a1 + a2 == a2;
    } else {
      assert (r1 + r2)[0] == r1[0] && (r1 + r2)[1..] == r1[1..] + r2;
      if Accepted(st, r1[0]) {
        assert (a1 + a2)[0] == a1[0] && (a1 + a2)[1..] == a1[1..] + a2;
        AnsweredConcat(st, r1[1..], a1[1..], r2, a2);
      } else {
        AnsweredConcat(st, r1[1..], a1, r2, a2);
      }
    }
  }

  lemma HeardCons(st: BlockFile, m: Message, ms: seq<Message>)
    ensures Heard(st, [m] + ms) == Heard(st, [m]) + if Refused(st, m) then [] else Heard(st, ms)
  {
    assert ([m] + ms)[1..] == ms && [m][1..] == [];
  }

  /** Frames handled one after the other, with one slot: for any stream of bytes, what has been written
      reads back as one answer for each accepted request that was heard, in order, each of the length
      it declares and with what the request asked for, and nothing else. */
  lemma {:induction false} AnswersMatchRequests(st: BlockFile, input: seq<byte>)
    requires Servable([st], input)
    ensures AnsweredInOrder(st, Heard(st, DecodeAll(input)), DecodeAll(WireOf(true, Session([st], input))))
    decreases |input|
  {
    SessionReadsBack([st], input);
    var o := DecodeFrame(input);
    if o.Emitted? {
      RestIsShorter(input);
      var request := Message(o.packet, o.region);
      ServeOne(st, o.packet, o.region);
      RefusedEnds(st, o.packet, o.region);
      OneAnswered(st, request);
      HeardCons(st, request, DecodeAll(o.rest));
      if !Refused(st, request) {
        AnswersMatchRequests(st, o.rest);
        SessionReadsBack([st], o.rest);
        AnsweredConcat(st, Heard(st, [request]), Reply(st, o.packet, o.region),
                       Heard(st, DecodeAll(o.rest)), Session([st], o.rest));
      }
    }
  }

  /* ---------- the peer's frames ---------- */

  /** A message, and a frame that carries it in one of the forms a peer may choose. */
  datatype Sending = Sending(frame: Frame, message: Message)

  predicate Carries(x: Sending) {
    && WellFormed(x.frame) && x.frame.opcode == 2
    && x.frame.data == PacketBytes(x.message.packet) + x.message.data
    && |x.message.data| >= x.message.packet.payloadLength
  }

  predicate AllCarry(xs: seq<Sending>) {
    xs == [] || (Carries(xs[0]) && AllCarry(xs[1..]))
  }

  function FramesOf(xs: seq<Sending>): seq<byte>
    requires AllCarry(xs)
  {
    if xs == [] then [] else FrameBytes(xs[0].frame) + FramesOf(xs[1..])
  }

  function MessagesOf(xs: seq<Sending>): seq<Message> {
    if xs == [] then [] else [xs[0].message] + MessagesOf(xs[1..])
  }

  lemma FirstFrame(xs: seq<Sending>)
    requires AllCarry(xs) && xs != []
    ensures AllCarry(xs[1..])
    ensures DecodeFrame(FramesOf(xs)) == Emitted(xs[0].message.packet, xs[0].message.data, FramesOf(xs[1..]))
  {
    DecodePacketFrame(xs[0].frame, xs[0].message.packet, xs[0].message.data, FramesOf(xs[1..]));
  }

  /** Frames in any mixture of length forms and masks read as the messages they carry. */
  lemma {:induction false} FramesReadAsSent(xs: seq<Sending>)
    requires AllCarry(xs)
    ensures DecodeAll(FramesOf(xs)) == MessagesOf(xs)
  {
    if xs != [] {
      FirstFrame(xs);
      FramesReadAsSent(xs[1..]);
    }
  }

  lemma AcceptsOne(st: BlockFile, packet: Packet, region: seq<byte>)
    ensures AllAccept([st], packet, region) <==> Accepts(st, packet, region)
  {
    var stores: seq<BlockFile> := [st];
    assert stores[1..] == [];
  }

  lemma {:induction false} FramesServable(st: BlockFile, xs: seq<Sending>)
    requires AllCarry(xs) && forall x :: x in xs ==> Accepts(st, x.message.packet, x.message.data)
    ensures Servable([st], FramesOf(xs))
    decreases |xs|
  {
    if xs != [] {
      FirstFrame(xs);
      assert xs[0] in xs && forall x :: x in xs[1..] ==> x in xs;
      AcceptsOne(st, xs[0].message.packet, xs[0].message.data);
      FramesServable(st, xs[1..]);
    }
  }

  /** From frames to what has been written, when they are handled one after the other: for any sequence
      of acceptable requests, one fitting answer for each accepted one, in order, up to the first that
      ends the process. */
  lemma ConversationEndToEnd(st: BlockFile, xs: seq<Sending>)
    requires AllCarry(xs) && forall x :: x in xs ==> Accepts(st, x.message.packet, x.message.data)
    ensures Servable([st], FramesOf(xs))
    ensures AnsweredInOrder(st, Heard(st, MessagesOf(xs)), DecodeAll(WireOf(true, Session([st], FramesOf(xs)))))
  {
    FramesServable(st, xs);
    FramesReadAsSent(xs);
    AnswersMatchRequests(st, FramesOf(xs));
  }

  /** A request and all it is answered with. */
  lemma OneRequest(st: BlockFile, x: Sending)
    requires Carries(x)
    ensures Servable([st], FramesOf([x])) <==> Accepts(st, x.message.packet, x.message.data)
    ensures Accepts(st, x.message.packet, x.message.data) ==>
      DecodeAll(WireOf(true, Session([st], FramesOf([x])))) == Reply(st, x.message.packet, x.message.data)
  {
    var xs, p, region := [x], x.message.packet, x.message.data;
    assert FramesOf(xs[1..]) == [];
    FirstFrame(xs);
    AcceptsOne(st, p, region);
    if Accepts(st, p, region) {
      ServeOne(st, p, region);
      SessionReadsBack([st], FramesOf(xs));
      assert Session([st], FramesOf(xs)) == Reply(st, p, region) + [];
    }
  }

  lemma ReplyToAsk(st: BlockFile, m: Message)
    requires |m.data| >= 8 && m.packet.version == 1 && m.packet.command == 6
    ensures Accepts(st, m.packet, m.data)
    ensures Reply(st, m.packet, m.data) ==
      [Message(Packet(1, if InFile(st, m) then 7 else 8, 0), [])]
  {
    VersionIsOne();
    ExtractIsValue(m.data);
    AvailableIsInside(BlockNumber(m.data), |st.disk|, st.blockSize);
  }

  lemma ReplyToRead(st: BlockFile, m: Message)
    requires |m.data| >= 8 && m.packet == Packet(1, 1, 8)
    ensures Accepts(st, m.packet, m.data) <==> InFile(st, m)
    ensures Accepts(st, m.packet, m.data) ==>
      Reply(st, m.packet, m.data) ==
        [Message(Packet(1, 5, st.blockSize), BytesFor(st, m))]
  {
    VersionIsOne();
    ExtractIsValue(m.data);
    var n := BlockNumber(m.data);
    AvailableIsInside(n, |st.disk|, st.blockSize);
    if Available(n, |st.disk|, st.blockSize) {
      ReadAt(st.disk, n, Offset(n, st.blockSize), st.blockSize);
    }
  }

  /** What a peer that sends one frame reads back. */
  function AnswersTo(st: BlockFile, x: Sending): seq<Message>
    requires Carries(x) && Servable([st], FramesOf([x]))
  {
    DecodeAll(WireOf(true, Session([st], FramesOf([x]))))
  }

  lemma AskAnswered(st: BlockFile, x: Sending)
    requires Carries(x) && x.message.packet.version == 1 && x.message.packet.command == 6
    requires |x.message.data| >= 8
    ensures Servable([st], FramesOf([x]))
    ensures AnswersTo(st, x) ==
      [Message(Packet(1, if InFile(st, x.message) then 7 else 8, 0), [])]
  {
    OneRequest(st, x);
    ReplyToAsk(st, x.message);
  }

  lemma ReadAnswered(st: BlockFile, x: Sending)
    requires Carries(x) && |x.message.data| >= 8 && x.message.packet == Packet(1, 1, 8)
    ensures Servable([st], FramesOf([x])) <==> InFile(st, x.message)
    ensures Servable([st], FramesOf([x])) ==>
      AnswersTo(st, x) == [Message(Packet(1, 5, st.blockSize), BytesFor(st, x.message))]
  {
    OneRequest(st, x);
    ReplyToRead(st, x.message);
  }

  /** The two commands that ask about a block agree on the wire. Whatever the forms of the two frames
      and whatever follows the number in them: OK is answered exactly when a read of the same number has
      a block to send, and then the read is answered with the bytes at the wrapped offset. */
  lemma AvailabilityAgreesWithRead(st: BlockFile, ask: Sending, read: Sending)
    requires Carries(ask) && ask.message.packet.version == 1 && ask.message.packet.command == 6
    requires Carries(read) && read.message.packet == Packet(1, 1, 8)
    requires |ask.message.data| >= 8 && NumberIn(ask.message) == NumberIn(read.message)
    ensures Servable([st], FramesOf([ask]))
    ensures AnswersTo(st, ask) == [Message(Packet(1, 7, 0), [])] <==> Servable([st], FramesOf([read]))
    ensures AnswersTo(st, ask) == [Message(Packet(1, 8, 0), [])] <==> !Servable([st], FramesOf([read]))
    ensures Servable([st], FramesOf([read])) ==>
      InFile(st, read.message) &&
      AnswersTo(st, read) == [Message(Packet(1, 5, st.blockSize), BytesFor(st, read.message))]
  {
    AskAnswered(st, ask);
    ReadAnswered(st, read);
  }
}
