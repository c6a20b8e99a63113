/** Command dispatch, and the whole path from the bytes of a request to the bytes of its answer. */
module Protocols {
  import opened Bytes
  import opened Frames
  import opened Storage
  import opened Connections

  const VERSION_MAJOR: bv8 := 0
  const VERSION_MINOR: bv8 := 1

  const COMMAND_READ_BLOCK: byte := 1
  const COMMAND_WRITE_BLOCK: byte := 2
  const COMMAND_LOCK_BLOCKS: byte := 3
  const COMMAND_GET_MAPPING: byte := 4
  const COMMAND_BLOCK_ANSWER: byte := 5
  const COMMAND_IS_BLOCK_AVAILABLE: byte := 6
  const COMMAND_OK: byte := 7
  const COMMAND_NOK: byte := 8

  datatype Reaction =
    | Exit                                         // the connection's process ends
    | Silent
    | Answer(packet: Packet, data: seq<byte>)
    | NullAnswer                                   // a block announced, null bytes to write

  function BlockNumber(region: seq<byte>): (n: uint64)
    requires |region| >= 8
  {
    ExtractUint64(region) as int
  }

  /** The slot only reads what the region holds. The availability command checks no length. */
  predicate Readable(packet: Packet, region: seq<byte>, blockSize: nat) {
    && (packet.command == COMMAND_READ_BLOCK && packet.payloadLength == 8 ==> |region| >= 8)
    && (packet.command == COMMAND_WRITE_BLOCK && packet.payloadLength == 8 + blockSize ==>
          |region| >= 8 + blockSize)
    && (packet.command == COMMAND_IS_BLOCK_AVAILABLE ==> |region| >= 8)
  }

  function React(disk: seq<byte>, blockSize: nat, packet: Packet, region: seq<byte>): Reaction
    requires 0 < blockSize <= |disk| < MOD64
    requires packet.version == (VERSION_MAJOR << 4) | VERSION_MINOR ==> Readable(packet, region, blockSize)
  {
    if packet.version != (VERSION_MAJOR << 4) | VERSION_MINOR then Exit
    else if packet.command == COMMAND_READ_BLOCK then
      if packet.payloadLength != 8 then Exit
      else
        match BlockAt(disk, BlockNumber(region), blockSize)
        case Null => NullAnswer
        case Block(bytes) => Answer(Packet(packet.version, COMMAND_BLOCK_ANSWER, blockSize), bytes)
    else if packet.command == COMMAND_WRITE_BLOCK then
      if packet.payloadLength != 8 + blockSize then Exit
      else Answer(Packet(packet.version, COMMAND_OK, 0), [])
    else if packet.command == COMMAND_LOCK_BLOCKS || packet.command == COMMAND_GET_MAPPING then Silent
    else if packet.command == COMMAND_IS_BLOCK_AVAILABLE then
      Answer(Packet(packet.version,
                    if Available(BlockNumber(region), |disk|, blockSize) then COMMAND_OK else COMMAND_NOK, 0), [])
    else Exit
  }

  /* ---------- what the slot reads ---------- */

  lemma VersionIsOne()
    ensures (VERSION_MAJOR << 4) | VERSION_MINOR == 1
  {
  }

  /** Decoder and dispatcher together: the two commands whose length is checked never read outside
      the frame's payload; the availability command reads inside it exactly when the frame carries
      eight bytes after the header. */
  lemma EmittedIsReadable(input: seq<byte>, blockSize: nat)
    requires DecodeFrame(input).Emitted? && 8 + blockSize + PACKET_SIZE < MOD64
    ensures
      var o := DecodeFrame(input);
      Readable(o.packet, o.region, blockSize) <==>
      (o.packet.command == COMMAND_IS_BLOCK_AVAILABLE ==> |o.region| >= 8)
  {
    DecoderBounds(input);
  }

  /** The same for a bare packet, whose region is exactly as long as it declares. */
  lemma OpenedIsReadable(input: seq<byte>, blockSize: nat)
    requires DecodeOpening(input).Direct? && DecodeOpening(input).o.Emitted?
    ensures
      var o := DecodeOpening(input).o;
      Readable(o.packet, o.region, blockSize) <==>
      (o.packet.command == COMMAND_IS_BLOCK_AVAILABLE ==> o.packet.payloadLength >= 8)
  {
  }

  /** A bare availability request without a number is delivered, and the slot reads past its region. */
  lemma UnreadableRequest(blockSize: nat)
    ensures
      var p := Packet(1, COMMAND_IS_BLOCK_AVAILABLE, 0);
      DecodeOpening(PacketBytes(p)) == Direct(Emitted(p, [], [])) && !Readable(p, [], blockSize)
  {
    var p := Packet(1, COMMAND_IS_BLOCK_AVAILABLE, 0);
    BareOpening(p, [], []);
    assert PacketBytes(p) + [] + [] == PacketBytes(p);
    GetIsFourBytes(PacketBytes(p));
    assert Digits(PacketBytes(p)[..4])[0] == 1;
  }

  /* ---------- the slot ---------- */

  class Protocol {
    const blockStorage: Blockstorage

    constructor (storage: Blockstorage)
      ensures blockStorage == storage
    {
      blockStorage := storage;
    }

    /** The slot. Reads of unavailable blocks are outside its domain. */
    method PacketReceived(packet: Packet, region: seq<byte>, secnet: SecNet) returns (exited: bool)
      requires blockStorage.Valid() && |blockStorage.disk| + 8 < MOD64
      requires packet.version == (VERSION_MAJOR << 4) | VERSION_MINOR ==>
        Readable(packet, region, blockStorage.blockSize)
      requires React(blockStorage.disk, blockStorage.blockSize, packet, region) != NullAnswer
      modifies secnet`output
      ensures
        match React(blockStorage.disk, blockStorage.blockSize, packet, region)
        case Exit => exited && secnet.output == old(secnet.output)
        case Answer(p, data) => !exited && secnet.output == old(secnet.output) + Sent(secnet.webSocket, p, data)
        case _ => !exited && secnet.output == old(secnet.output)
    {
      if packet.version != (VERSION_MAJOR << 4) | VERSION_MINOR {
        return true;
      }
      exited := false;
      if packet.command == COMMAND_READ_BLOCK {
        if packet.payloadLength != 8 {
          return true;
        }
        var blockData := blockStorage.GetBlock(BlockNumber(region));
        secnet.SendPacket(Packet(packet.version, COMMAND_BLOCK_ANSWER, blockStorage.blockSize), blockData);
      } else if packet.command == COMMAND_WRITE_BLOCK {
        if packet.payloadLength != 8 + blockStorage.blockSize {
          return true;
        }
        blockStorage.StoreBlock(BlockNumber(region), region[8..]);
        secnet.SendPacket(Packet(packet.version, COMMAND_OK, 0), null);
      } else if packet.command == COMMAND_LOCK_BLOCKS || packet.command == COMMAND_GET_MAPPING {
      } else if packet.command == COMMAND_IS_BLOCK_AVAILABLE {
        var available := blockStorage.IsBlockAvailable(BlockNumber(region));
        secnet.SendPacket(Packet(packet.version, if available then COMMAND_OK else COMMAND_NOK, 0), null);
      } else {
        exited := true;
      }
    }
  }

  /* ---------- end to end ---------- */

  /** A request to read block n, as a peer puts it on the wire: any length form, masked or not. */
  function ReadRequest(n: bv64, form: Form, fin: bool, key: Key): Frame {
    Frame(form, fin, 2, key, PacketBytes(Packet(1, COMMAND_READ_BLOCK, 8)) + BigEndian(n))
  }

  lemma ReadRequestWellFormed(n: bv64, form: Form, fin: bool, key: Key)
    requires key.Key? ==> |key.bytes| == 4
    ensures WellFormed(ReadRequest(n, form, fin, key))
  {
  }

  lemma ReadRequestReaction(disk: seq<byte>, blockSize: nat, n: bv64)
    requires 0 < blockSize <= |disk| < MOD64 && n as int < |disk| / blockSize
    ensures React(disk, blockSize, Packet(1, COMMAND_READ_BLOCK, 8), BigEndian(n)) ==
      Answer(Packet(1, COMMAND_BLOCK_ANSWER, blockSize), BlockBytes(disk, n as int, blockSize))
  {
    VersionIsOne();
    ExtractInverse(n, BigEndian(n));
    BlockInFile(disk, n as int, blockSize);
  }

  /** End to end: from the bytes of the request frame to what the peer decodes from the answer. */
  lemma ReadBlockEndToEnd(disk: seq<byte>, blockSize: nat, n: bv64, form: Form, fin: bool, key: Key,
                          rest: seq<byte>)
    requires 0 < blockSize <= |disk| && |disk| + PACKET_SIZE < MOD64 && n as int < |disk| / blockSize
    requires key.Key? ==> |key.bytes| == 4
    ensures WellFormed(ReadRequest(n, form, fin, key))
    ensures
      var request := DecodeFrame(FrameBytes(ReadRequest(n, form, fin, key)) + rest);
      && request.Emitted? && request.rest == rest
      && Readable(request.packet, request.region, blockSize)
      && var answer := React(disk, blockSize, request.packet, request.region);
         answer.Answer? &&
         DecodeFrame(Sent(true, answer.packet, answer.data)) ==
           Emitted(Packet(1, COMMAND_BLOCK_ANSWER, blockSize), BlockBytes(disk, n as int, blockSize), [])
  {
    var p := Packet(1, COMMAND_READ_BLOCK, 8);
    ReadRequestWellFormed(n, form, fin, key);
    DecodePacketFrame(ReadRequest(n, form, fin, key), p, BigEndian(n), rest);
    ReadRequestReaction(disk, blockSize, n);
    var answer := React(disk, blockSize, p, BigEndian(n));
    FrameRoundTrip(answer.packet, answer.data, []);
    assert SentBytes(answer.packet, answer.data) + [] == SentBytes(answer.packet, answer.data);
  }

  /** End to end for the availability command, for every block size: the answer decodes to OK exactly
      when a block fits in the file at the wrapped offset of the number. */
  lemma AvailabilityEndToEnd(disk: seq<byte>, blockSize: nat, n: bv64, f: Frame, rest: seq<byte>)
    requires 0 < blockSize <= |disk| < MOD64
    requires WellFormed(f) && f.opcode == 2
    requires f.data == PacketBytes(Packet(1, COMMAND_IS_BLOCK_AVAILABLE, 8)) + BigEndian(n)
    ensures
      var request := DecodeFrame(FrameBytes(f) + rest);
      && request.Emitted? && request.rest == rest
      && Readable(request.packet, request.region, blockSize)
      && var answer := React(disk, blockSize, request.packet, request.region);
         answer.Answer? &&
         DecodeFrame(Sent(true, answer.packet, answer.data)) ==
           Emitted(Packet(1, if Offset(n as int, blockSize) + blockSize <= |disk|
                             then COMMAND_OK else COMMAND_NOK, 0), [], [])
  {
    var p := Packet(1, COMMAND_IS_BLOCK_AVAILABLE, 8);
    DecodePacketFrame(f, p, BigEndian(n), rest);
    VersionIsOne();
    ExtractInverse(n, BigEndian(n));
    AvailableIsInside(n as int, |disk|, blockSize);
    var answer := React(disk, blockSize, p, BigEndian(n));
    SentDecodes(answer.packet, answer.data, []);
    assert SentBytes(answer.packet, answer.data) + [] == SentBytes(answer.packet, answer.data);
  }

  /** So that answer is right for a number exactly when its offset does not wrap, or wraps to where no
      block fits; for block sizes that divide 2^64 it is the answer for the residue. */
  lemma AvailabilityAnswerIsRight(disk: seq<byte>, blockSize: nat, n: bv64)
    requires 0 < blockSize <= |disk| < MOD64
    ensures
      var answer := React(disk, blockSize, Packet(1, COMMAND_IS_BLOCK_AVAILABLE, 8), BigEndian(n));
      && answer.Answer?
      && ((answer.packet.command == COMMAND_OK <==> n as int < |disk| / blockSize) <==>
          n as int * blockSize < MOD64 || Offset(n as int, blockSize) > |disk| - blockSize)
      && (MOD64 % blockSize == 0 ==>
          (answer.packet.command == COMMAND_OK <==> Residue(n as int, blockSize) < |disk| / blockSize))
  {
    VersionIsOne();
    ExtractInverse(n, BigEndian(n));
    AvailabilityIsRight(n as int, |disk|, blockSize);
    if MOD64 % blockSize == 0 {
      AvailabilityWraps(n as int, |disk|, blockSize);
    }
  }
}
