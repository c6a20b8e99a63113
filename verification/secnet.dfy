/** One connection: full reads from an input byte sequence, writes to an output byte sequence. */
module Connections {
  import opened Bytes
  import opened Frames
  import opened Sequences

  const MAX_PACKET_PAYLOAD_SIZE: nat := 134217728

  /** What the first ten bytes of a connection lead to. */
  datatype Opening =
    | NoPacket
    | Upgrade(initial: seq<byte>, rest: seq<byte>)
    | TooLarge
    | Direct(o: Outcome)

  /** The header compared with 0x20544547 as a host-order 32-bit integer. */
  predicate StartsWithGet(header: seq<byte>)
    requires |header| >= 4
  {
    LeValue(Digits(header[..4])) == 0x2054_4547
  }

  function DecodeOpening(input: seq<byte>): Opening {
    if |input| < PACKET_SIZE then NoPacket
    else if StartsWithGet(input) then Upgrade(input[..PACKET_SIZE], input[PACKET_SIZE..])
    else
      var p := ParsePacket(input);
      if p.payloadLength > MAX_PACKET_PAYLOAD_SIZE then TooLarge
      else if |input| - PACKET_SIZE < p.payloadLength then Direct(Incomplete)
      else Direct(Emitted(p, input[PACKET_SIZE..PACKET_SIZE + p.payloadLength],
                          input[PACKET_SIZE + p.payloadLength..]))
  }

  /** The integer comparison means the four characters "GET ". */
  lemma GetIsFourBytes(header: seq<byte>)
    requires |header| >= 4
    ensures StartsWithGet(header) <==> Digits(header[..4]) == [0x47, 0x45, 0x54, 0x20]
  {
    var ds := Digits(header[..4]);
    LeValueOfFour(ds);
    DigitsOfGet(ds);
  }

  lemma DigitsOfGet(ds: seq<nat>)
    requires |ds| == 4 && InBase(ds)
    ensures ds[0] + 0x100 * ds[1] + 0x1_0000 * ds[2] + 0x100_0000 * ds[3] == 0x2054_4547 <==>
            ds == [0x47, 0x45, 0x54, 0x20]
  {
  }

  /** Decoding does not depend on the transport, with its exact domain: the bytes of a packet sent bare,
      and the same bytes inside any well-formed binary frame, decode to the same packet and payload just
      when the bare form is not taken for an HTTP request and is within the size limit. */
  lemma TransportsDecodeAlike(p: Packet, payload: seq<byte>, f: Frame, rest: seq<byte>)
    requires |payload| == p.payloadLength
    requires WellFormed(f) && f.opcode == 2 && f.data == PacketBytes(p) + payload
    ensures DecodeOpening(PacketBytes(p) + payload + rest) == Direct(DecodeFrame(FrameBytes(f) + rest)) <==>
            !StartsWithGet(PacketBytes(p)) && p.payloadLength <= MAX_PACKET_PAYLOAD_SIZE
  {
    DecodePacketFrame(f, p, payload, rest);
    BareOpening(p, payload, rest);
  }

  lemma BareOpening(p: Packet, payload: seq<byte>, rest: seq<byte>)
    requires |payload| == p.payloadLength
    ensures DecodeOpening(PacketBytes(p) + payload + rest) ==
      if StartsWithGet(PacketBytes(p)) then Upgrade(PacketBytes(p), payload + rest)
      else if p.payloadLength > MAX_PACKET_PAYLOAD_SIZE then TooLarge
      else Direct(Emitted(p, payload, rest))
  {
    var input := PacketBytes(p) + payload + rest;
    assert input == PacketBytes(p) + (payload + rest);
    ParseInverse(p, payload + rest);
    assert input[..4] == PacketBytes(p)[..4];
    assert input[..PACKET_SIZE] == PacketBytes(p) && input[PACKET_SIZE..] == payload + rest;
    assert input[PACKET_SIZE..PACKET_SIZE + p.payloadLength] == payload;
    assert input[PACKET_SIZE + p.payloadLength..] == rest;
  }

  lemma GetIsNotVersionOne(p: Packet)
    requires StartsWithGet(PacketBytes(p))
    ensures p.version != 1
  {
    GetIsFourBytes(PacketBytes(p));
    assert Digits(PacketBytes(p)[..4])[0] == p.version as int;
  }

  /** A connection that starts with a packet of version 1: the limit is 128 megabytes, and a payload
      within it is read whole or not at all. */
  lemma OpeningVerdict(p: Packet, behind: seq<byte>)
    requires p.version == 1
    ensures DecodeOpening(PacketBytes(p) + behind) ==
      if p.payloadLength > 0x800_0000 then TooLarge
      else if |behind| < p.payloadLength then Direct(Incomplete)
      else Direct(Emitted(p, behind[..p.payloadLength], behind[p.payloadLength..]))
  {
    var input := PacketBytes(p) + behind;
    ParseInverse(p, behind);
    assert input[..4] == PacketBytes(p)[..4];
    if StartsWithGet(PacketBytes(p)) {
      GetIsNotVersionOne(p);
    }
    if |behind| >= p.payloadLength {
      assert input[10..10 + p.payloadLength] == behind[..p.payloadLength];
      assert input[10 + p.payloadLength..] == behind[p.payloadLength..];
    }
  }

  /** A connection that starts with ten bytes, the first four of them "GET ", is upgraded; fewer than
      ten bytes are no packet. */
  lemma OpeningUpgrade(initial: seq<byte>, rest: seq<byte>)
    requires |initial| == 10 && Digits(initial[..4]) == [0x47, 0x45, 0x54, 0x20]
    ensures DecodeOpening(initial + rest) == Upgrade(initial, rest)
    ensures forall k :: 0 <= k < 10 ==> DecodeOpening(initial[..k]) == NoPacket
  {
    GetIsFourBytes(initial + rest);
    assert (initial + rest)[..4] == initial[..4];
    assert (initial + rest)[..10] == initial && (initial + rest)[10..] == rest;
  }

  /** What `sendPacket` writes. */
  function Sent(webSocket: bool, p: Packet, payload: seq<byte>): seq<byte> {
    if webSocket then SentBytes(p, payload) else PacketBytes(p) + payload
  }

  class SecNet {
    var input: seq<byte>
    var output: seq<byte>
    var webSocket: bool

    /** The source leaves the flag uninitialised; it is taken to start out false. */
    constructor (input: seq<byte>)
      ensures this.input == input && output == [] && !webSocket
    {
      this.input, output, webSocket := input, [], false;
    }

    method Read(n: nat) returns (ok: bool, data: seq<byte>)
      modifies this`input
      ensures ok <==> n <= |old(input)|
      ensures ok ==> data == old(input)[..n] && input == old(input)[n..]
      ensures !ok ==> data == [] && input == old(input)
    {
      ok := n <= |input|;
      data := [];
      if ok {
        data := input[..n];
        input := input[n..];
      }
    }

    method Write(bytes: seq<byte>)
      modifies this`output
      ensures output == old(output) + bytes
    {
      output := output + bytes;
    }

    /** A null payload is allowed only when nothing of it is to be written. */
    method SendPacket(packet: Packet, payload: array?<byte>)
      requires payload == null ==> packet.payloadLength == 0
      requires payload != null ==> packet.payloadLength <= payload.Length
      modifies this`output
      ensures output == old(output) +
        Sent(webSocket, packet, if payload == null then [] else payload[..packet.payloadLength])
    {
      ghost var was := output;
      if webSocket {
        WriteFrameHeader((PACKET_SIZE + packet.payloadLength) % MOD64);
      }
      ghost var head := output;
      Write(PacketBytes(packet));
      if payload != null {
        Write(payload[..packet.payloadLength]);
      }
      ghost var data := if payload == null then [] else payload[..packet.payloadLength];
      Regroup(head, PacketBytes(packet), data);
      Regroup(was, SentHeader((PACKET_SIZE + packet.payloadLength) % MOD64), PacketBytes(packet) + data);
    }

    method WriteFrameHeader(payloadLength: uint64)
      modifies this`output
      ensures output == old(output) + SentHeader(payloadLength)
    {
      var len7: byte :=
        if payloadLength < 126 then AsByte(payloadLength) else if payloadLength < 65535 then 126 else 127;
      Write([0x82, len7]);
      if 126 <= payloadLength < 65535 {
        Regroup(old(output), [0x82, 126], LittleEndian(payloadLength, 2));
        Write(LittleEndian(payloadLength % 0x1_0000, 2));
      } else if 65535 <= payloadLength {
        Regroup(old(output), [0x82, 127], LittleEndian(payloadLength, 8));
        Write(LittleEndian(payloadLength, 8));
      }
    }

    /** Reads one frame, unmasks it in place, and emits its packet. */
    method HandleWebSocketFrame() returns (o: Outcome)
      modifies this`input
      ensures o == DecodeFrame(old(input))
      ensures o.Emitted? ==> input == o.rest
    {
      var ok, header := Read(2);
      if !ok {
        return Incomplete;
      }
      var payloadLength: uint64 := (header[1] & 0x7f) as int;
      if header[1] & 0x7f == 126 {
        var ok2, len := Read(2);
        if !ok2 {
          return Incomplete;
        }
        LeLength(len);
        payloadLength := LeValue(Digits(len));
      } else if header[1] & 0x7f == 127 {
        var ok8, len := Read(8);
        if !ok8 {
          return Incomplete;
        }
        LeLength(len);
        payloadLength := LeValue(Digits(len));
      }
      o := ReadBody(header[0], header[1] & 0x80 != 0, payloadLength);
    }

    method ReadBody(first: byte, masked: bool, payloadLength: uint64) returns (o: Outcome)
      modifies this`input
      ensures o == DecodeBody(first, masked, payloadLength, old(input))
      ensures o.Emitted? ==> input == o.rest
    {
      var maskingKey: seq<byte> := [];
      if masked {
        var okKey, key := Read(4);
        if !okKey {
          return Incomplete;
        }
        maskingKey := key;
      }
      var okBody, received := Read(payloadLength);
      if !okBody {
        return Incomplete;
      }
      var payload := new byte[payloadLength](i requires 0 <= i < |received| => received[i]);
      assert payload[..] == received;
      if masked {
        Unmask(payload, maskingKey);
      }
      ghost var skip := if masked then 4 else 0;
      assert received == old(input)[skip..skip + payloadLength];
      assert input == old(input)[skip + payloadLength..];
      o := CheckMessage(first, payload[..], input);
    }

    /** The masking loop. */
    static method Unmask(payload: array<byte>, key: seq<byte>)
      requires |key| == 4
      modifies payload
      ensures payload[..] == Masked(key, old(payload[..]))
    {
      var i := 0;
      while i < payload.Length
        invariant 0 <= i <= payload.Length
        invariant forall k :: 0 <= k < i ==> payload[k] == old(payload[k]) ^ key[k % 4]
        invariant forall k :: i <= k < payload.Length ==> payload[k] == old(payload[k])
      {
        payload[i] := payload[i] ^ key[i % 4];
        i := i + 1;
      }
    }

    /** The end of the constructor: the first header, and either an upgrade or a bare packet. */
    method Open() returns (o: Opening)
      modifies this`input
      ensures o == DecodeOpening(old(input))
      ensures o.Upgrade? ==> input == o.rest
      ensures o.Direct? && o.o.Emitted? ==> input == o.o.rest
    {
      var ok, header := Read(PACKET_SIZE);
      if !ok {
        return NoPacket;
      }
      assert header[..4] == old(input)[..4] && header[2..10] == old(input)[2..10];
      if StartsWithGet(header) {
        return Upgrade(header, input);
      }
      var packet := ParsePacket(header);
      if packet.payloadLength > MAX_PACKET_PAYLOAD_SIZE {
        return TooLarge;
      }
      var okPayload, payload := Read(packet.payloadLength);
      if !okPayload {
        return Direct(Incomplete);
      }
      assert payload == old(input)[PACKET_SIZE..PACKET_SIZE + packet.payloadLength];
      assert input == old(input)[PACKET_SIZE + packet.payloadLength..];
      o := Direct(Emitted(packet, payload, input));
    }
  }
}
