/** What the server serves: one packet for each connection, bare or after an upgrade. Every connection
    is a process of its own, with the registry and the files of the one that listens, and ends when its
    packet has been emitted. */
module Visits {
  import opened Bytes
  import opened Frames
  import opened Storage
  import opened Connections
  import opened Protocols
  import opened Signals
  import opened Server

  /** The bytes a connection starts with, or those that follow the upgrade. */
  datatype Visit = Bare(input: seq<byte>) | Upgraded(input: seq<byte>)

  /** The packet that is emitted, if there is one. */
  function Received(v: Visit): (ms: seq<Message>)
    ensures |ms| <= 1
  {
    match v
    case Bare(input) =>
      var opening := DecodeOpening(input);
      if opening.Direct? && opening.o.Emitted? then [Message(opening.o.packet, opening.o.region)] else []
    case Upgraded(input) =>
      var o := DecodeFrame(input);
      if o.Emitted? then [Message(o.packet, o.region)] else []
  }

  /** Every slot that is reached accepts the packet. */
  predicate Admissible(stores: seq<BlockFile>, v: Visit) {
    Received(v) != [] ==> AllAccept(stores, Received(v)[0].packet, Received(v)[0].data)
  }

  function Answers(stores: seq<BlockFile>, v: Visit): seq<Message>
    requires Admissible(stores, v)
  {
    if Received(v) == [] then [] else Serve(stores, Received(v)[0].packet, Received(v)[0].data).answers
  }

  /** The bytes the server writes. */
  function Written(stores: seq<BlockFile>, v: Visit): seq<byte>
    requires Admissible(stores, v)
  {
    WireOf(v.Upgraded?, Answers(stores, v))
  }

  /* ---------- what the peer reads back ---------- */

  /** All packets that can be read from a stream of bare packets. */
  function ReadPackets(stream: seq<byte>): seq<Message>
    decreases |stream|
  {
    if |stream| < PACKET_SIZE then []
    else
      var p := ParsePacket(stream);
      var behind := stream[PACKET_SIZE..];
      if |behind| < p.payloadLength then []
      else [Message(p, behind[..p.payloadLength])] + ReadPackets(behind[p.payloadLength..])
  }

  function ReadBack(v: Visit, bytes: seq<byte>): seq<Message> {
    if v.Upgraded? then DecodeAll(bytes) else ReadPackets(bytes)
  }

  lemma ReadFirst(m: Message, rest: seq<byte>)
    requires WellSized(m)
    ensures ReadPackets(PacketBytes(m.packet) + m.data + rest) == [m] + ReadPackets(rest)
  {
    var stream := PacketBytes(m.packet) + m.data + rest;
    assert stream == PacketBytes(m.packet) + (m.data + rest);
    ParseInverse(m.packet, m.data + rest);
    assert stream[PACKET_SIZE..] == m.data + rest;
    assert (m.data + rest)[..|m.data|] == m.data && (m.data + rest)[|m.data|..] == rest;
  }

  /** Any sequence of messages sent bare reads back as that sequence. */
  lemma {:induction false} ReadPacketsInverse(ms: seq<Message>)
    requires forall m :: m in ms ==> WellSized(m)
    ensures ReadPackets(WireOf(false, ms)) == ms
  {
    if ms != [] {
      assert ms[0] in ms && forall m :: m in ms[1..] ==> m in ms;
      ReadPacketsInverse(ms[1..]);
      ReadFirst(ms[0], WireOf(false, ms[1..]));
    }
  }

  /** With any slots connected and on either transport, what is written reads back as the answers. */
  lemma VisitReadsBack(stores: seq<BlockFile>, v: Visit)
    requires Admissible(stores, v)
    ensures ReadBack(v, Written(stores, v)) == Answers(stores, v)
    ensures forall m :: m in Answers(stores, v) ==> WellSized(m)
  {
    if Received(v) != [] {
      ServedWellSized(stores, Received(v)[0].packet, Received(v)[0].data);
    }
    if v.Upgraded? {
      DecodeAllInverse(Answers(stores, v));
    } else {
      ReadPacketsInverse(Answers(stores, v));
    }
  }

  lemma OneSlotAnswers(st: BlockFile, v: Visit)
    requires Admissible([st], v)
    ensures
      if Received(v) == [] then Answers([st], v) == []
      else
        var m := Received(v)[0];
        Accepts(st, m.packet, m.data) && Answers([st], v) == Reply(st, m.packet, m.data)
  {
    if Received(v) != [] {
      ServeOne(st, Received(v)[0].packet, Received(v)[0].data);
    }
  }

  /** The server, which has one slot: on every connection the peer reads back the one fitting answer to
      its request if that is accepted, of the length it declares and with what the request asked for,
      and nothing otherwise. */
  lemma VisitAnswered(st: BlockFile, v: Visit)
    requires Admissible([st], v)
    ensures AnsweredInOrder(st, Heard(st, Received(v)), ReadBack(v, Written([st], v)))
  {
    VisitReadsBack([st], v);
    OneSlotAnswers(st, v);
    if Received(v) != [] {
      assert Received(v) == [Received(v)[0]];
      OneAnswered(st, Received(v)[0]);
    }
  }

  /* ---------- any sequence of connections ---------- */

  /** The requests heard over all connections. A refused one ends its own process only. */
  function HeardOver(st: BlockFile, vs: seq<Visit>): seq<Message> {
    if vs == [] then [] else Heard(st, Received(vs[0])) + HeardOver(st, vs[1..])
  }

  /** What the peers read back over all connections. */
  function ReadOver(st: BlockFile, vs: seq<Visit>): seq<Message>
    requires forall v :: v in vs ==> Admissible([st], v)
  {
    if vs == [] then []
    else
      assert vs[0] in vs && forall v :: v in vs[1..] ==> v in vs;
      ReadBack(vs[0], Written([st], vs[0])) + ReadOver(st, vs[1..])
  }

  /** Any sequence of connections on either transport: one fitting answer for each accepted request, in
      order, and no other answer. */
  lemma {:induction false} VisitsAnswered(st: BlockFile, vs: seq<Visit>)
    requires forall v :: v in vs ==> Admissible([st], v)
    ensures AnsweredInOrder(st, HeardOver(st, vs), ReadOver(st, vs))
    decreases |vs|
  {
    if vs != [] {
      assert vs[0] in vs && forall v :: v in vs[1..] ==> v in vs;
      VisitAnswered(st, vs[0]);
      VisitsAnswered(st, vs[1..]);
      AnsweredConcat(st, Heard(st, Received(vs[0])), ReadBack(vs[0], Written([st], vs[0])),
                     HeardOver(st, vs[1..]), ReadOver(st, vs[1..]));
    }
  }

  /* ---------- the two transports ---------- */

  lemma BareReceived(p: Packet, payload: seq<byte>, rest: seq<byte>)
    requires |payload| == p.payloadLength
    ensures Received(Bare(PacketBytes(p) + payload + rest)) ==
      if !StartsWithGet(PacketBytes(p)) && p.payloadLength <= MAX_PACKET_PAYLOAD_SIZE then [Message(p, payload)] else []
  {
    BareOpening(p, payload, rest);
  }

  /** A bare packet of version 1 is received when it is complete and declares at most 128 megabytes. */
  lemma BareReceivedExactly(p: Packet, behind: seq<byte>)
    requires p.version == 1
    ensures Received(Bare(PacketBytes(p) + behind)) ==
      if p.payloadLength <= |behind| && p.payloadLength <= 0x800_0000
      then [Message(p, behind[..p.payloadLength])] else []
  {
    OpeningVerdict(p, behind);
  }

  /** A framed packet is received when the frame is binary and carries what the packet declares. */
  lemma FramedReceivedExactly(f: Frame, p: Packet, tail: seq<byte>, rest: seq<byte>)
    requires WellFormed(f) && f.data == PacketBytes(p) + tail && 10 + p.payloadLength < MOD64
    ensures Received(Upgraded(FrameBytes(f) + rest)) ==
      if f.opcode == 2 && p.payloadLength <= |tail| then [Message(p, tail)] else []
  {
    FrameVerdict(f, p, tail, rest);
  }

  /** Which visits the server, with its one slot, is made for. */
  lemma AdmissibleExactly(st: BlockFile, v: Visit)
    ensures Admissible([st], v) <==>
      Received(v) == [] || Accepts(st, Received(v)[0].packet, Received(v)[0].data)
  {
    if Received(v) != [] {
      AcceptsOne(st, Received(v)[0].packet, Received(v)[0].data);
    }
  }

  lemma AnswersOfOne(st: BlockFile, v: Visit, m: Message)
    requires Accepts(st, m.packet, m.data) && (Received(v) == [] || Received(v) == [m])
    ensures Admissible([st], v)
    ensures ReadBack(v, Written([st], v)) == if Received(v) == [] then [] else Reply(st, m.packet, m.data)
  {
    AcceptsOne(st, m.packet, m.data);
    VisitReadsBack([st], v);
    OneSlotAnswers(st, v);
  }

  /** The same request on either transport: after an upgrade, in any frame form, its answer is read back;
      so it is from the bare connection, just when the request is within the size limit or is not
      answered anyway. */
  lemma TransportsAnswerAlike(st: BlockFile, p: Packet, payload: seq<byte>, f: Frame, rest: seq<byte>)
    requires |payload| == p.payloadLength && Accepts(st, p, payload)
    requires WellFormed(f) && f.opcode == 2 && f.data == PacketBytes(p) + payload
    ensures
      var bare, framed := Bare(PacketBytes(p) + payload + rest), Upgraded(FrameBytes(f) + rest);
      && Admissible([st], bare) && Admissible([st], framed)
      && ReadBack(framed, Written([st], framed)) == Reply(st, p, payload)
      && (ReadBack(bare, Written([st], bare)) == ReadBack(framed, Written([st], framed)) <==>
          p.payloadLength <= MAX_PACKET_PAYLOAD_SIZE || Reply(st, p, payload) == [])
  {
    var bare, framed := Bare(PacketBytes(p) + payload + rest), Upgraded(FrameBytes(f) + rest);
    DecodePacketFrame(f, p, payload, rest);
    BareReceived(p, payload, rest);
    AnswersOfOne(st, bare, Message(p, payload));
    AnswersOfOne(st, framed, Message(p, payload));
    if StartsWithGet(PacketBytes(p)) {
      GetIsNotVersionOne(p);
      RefusedEnds(st, p, payload);
      ReplyOfExit(st, p, payload);
    }
  }

  /* ---------- the code of the server ---------- */

  /** What `main` sets up: one protocol object connected to the signal. */
  method Start(s: Signal, r: HasSlots, protocol: Protocol, fun: nat, ghost ledger: Ledger)
    returns (protocols: map<HasSlots, Protocol>)
    requires protocol.blockStorage.Valid() && Usable(StoreOf(protocol)) && ledger.live == {}
    modifies s, r, ledger
    ensures protocols == map[r := protocol]
    ensures Connected(s, protocols, [StoreOf(protocol)])
    ensures ledger.live == Signals.Connections({s}) && r.senders == {s}
  {
    s.Construct();
    r.Construct();
    assert Signals.Connections({s}) == {};
    s.Connect(r, fun, {s}, {r}, ledger);
    protocols := map[r := protocol];
    OnlyConnection(s, r, protocol);
  }

  lemma OnlyConnection(s: Signal, r: HasSlots, protocol: Protocol)
    requires protocol.blockStorage.Valid() && Usable(StoreOf(protocol))
    requires s.Tidy() && |s.connectedSlots| == 1 && s.connectedSlots[0].dest == r
    ensures Connected(s, map[r := protocol], [StoreOf(protocol)])
  {
    assert SlotStores(s, map[r := protocol]) == [StoreOf(protocol)];
  }

  /** The end of the constructor without an upgrade: a bare packet is emitted. When the opening is an
      upgrade nothing has been emitted yet. */
  method ServeBare(secnet: SecNet, s: Signal, protocols: map<HasSlots, Protocol>, ghost stores: seq<BlockFile>)
    returns (opening: Opening)
    requires !secnet.webSocket && Connected(s, protocols, stores)
    requires Admissible(stores, Bare(secnet.input))
    modifies secnet`input, secnet`output
    ensures opening == DecodeOpening(old(secnet.input))
    ensures secnet.output == old(secnet.output) + Written(stores, Bare(old(secnet.input)))
    ensures opening.Upgrade? ==> secnet.input == opening.rest
  {
    opening := secnet.Open();
    if opening.Direct? && opening.o.Emitted? {
      var _ := EmitPacket(s, protocols, opening.o.packet, opening.o.region, secnet, stores);
    }
  }

  /** The end of `handleWebSocket`: from here on the connection is a WebSocket, and one frame is
      handled. */
  method ServeUpgraded(secnet: SecNet, s: Signal, protocols: map<HasSlots, Protocol>, ghost stores: seq<BlockFile>)
    requires Connected(s, protocols, stores)
    requires Admissible(stores, Upgraded(secnet.input))
    modifies secnet
    ensures secnet.webSocket
    ensures secnet.output == old(secnet.output) + Written(stores, Upgraded(old(secnet.input)))
  {
    secnet.webSocket := true;
    var _ := ServeFrame(secnet, s, protocols, stores);
  }
}
