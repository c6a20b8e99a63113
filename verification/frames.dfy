/** The packet header and the WebSocket frame codec, over byte sequences. Extended lengths are in
    host (little-endian) order, as coded. */
module Frames {
  import opened Bytes
  import opened Sequences

  datatype Packet = Packet(version: byte, command: byte, payloadLength: uint64)

  const PACKET_SIZE: nat := 10  // one byte, one byte, eight bytes, packed

  datatype Reason = NotBinary | NoPacketHeader | Fragmented | Truncated

  datatype Outcome =
    | Incomplete
    | Rejected(reason: Reason)
    | Emitted(packet: Packet, region: seq<byte>, rest: seq<byte>)

  /* ---------- packet header ---------- */

  function PacketBytes(p: Packet): (b: seq<byte>)
    ensures |b| == PACKET_SIZE
  {
    [p.version, p.command] + LittleEndian(p.payloadLength, 8)
  }

  function ParsePacket(b: seq<byte>): Packet
    requires |b| >= PACKET_SIZE
  {
    LeLength(b[2..10]);
    Packet(b[0], b[1], LeValue(Digits(b[2..10])))
  }

  lemma ParseInverse(p: Packet, tail: seq<byte>)
    ensures ParsePacket(PacketBytes(p) + tail) == p
  {
    var b := PacketBytes(p) + tail;
    assert b[2..10] == LittleEndian(p.payloadLength, 8);
    Pow256Values();
    LittleEndianInverse(p.payloadLength, 8);
  }

  /* ---------- decoding ---------- */

  datatype Extended = Starved | Length(n: uint64, rest: seq<byte>)

  function ReadLength(len7: byte, input: seq<byte>): Extended
  {
    if len7 == 126 then
      if |input| < 2 then Starved
      else LeLength(input[..2]); Length(LeValue(Digits(input[..2])), input[2..])
    else if len7 == 127 then
      if |input| < 8 then Starved
      else LeLength(input[..8]); Length(LeValue(Digits(input[..8])), input[8..])
    else Length(len7 as int, input)
  }

  /** Section 5.3 of RFC 6455: octet i is combined with octet i mod 4 of the key. */
  function Masked(key: seq<byte>, data: seq<byte>): (r: seq<byte>)
    requires |key| == 4
    ensures |r| == |data|
  {
    seq(|data|, i requires 0 <= i < |data| => data[i] ^ key[i % 4])
  }

  /** The checks made on a complete, unmasked message. */
  function CheckMessage(first: byte, data: seq<byte>, rest: seq<byte>): Outcome {
    if first & 0x0f != 2 then Rejected(NotBinary)
    else if |data| < PACKET_SIZE then Rejected(NoPacketHeader)
    else
      var packet := ParsePacket(data);
      if |data| < (PACKET_SIZE + packet.payloadLength) % MOD64 then
        Rejected(if first & 0x80 == 0 then Fragmented else Truncated)
      else Emitted(packet, data[PACKET_SIZE..], rest)
  }

  function DecodeBody(first: byte, masked: bool, n: uint64, input: seq<byte>): Outcome {
    if masked then
      if |input| < 4 + n then Incomplete
      else CheckMessage(first, Masked(input[..4], input[4..4 + n]), input[4 + n..])
    else if |input| < n then Incomplete
    else CheckMessage(first, input[..n], input[n..])
  }

  function DecodeFrame(input: seq<byte>): Outcome {
    if |input| < 2 then Incomplete
    else
      match ReadLength(input[1] & 0x7f, input[2..])
      case Starved => Incomplete
      case Length(n, rest) => DecodeBody(input[0], input[1] & 0x80 != 0, n, rest)
  }

  /* ---------- frames a peer may send ---------- */

  datatype Form = Short | Medium | Long

  datatype Key = NoKey | Key(bytes: seq<byte>)

  datatype Frame = Frame(form: Form, fin: bool, opcode: byte, key: Key, data: seq<byte>)

  predicate WellFormed(f: Frame) {
    && f.opcode < 16
    && (f.key.Key? ==> |f.key.bytes| == 4)
    && match f.form
       case Short => |f.data| <= 125
       case Medium => |f.data| < 0x1_0000
       case Long => |f.data| < MOD64
  }

  function FirstByte(f: Frame): byte {
    (if f.fin then 0x80 else 0) | f.opcode
  }

  /** The seven length bits of the second byte. */
  function Len7(form: Form, n: nat): byte
    requires form.Short? ==> n <= 125
  {
    match form
    case Short => AsByte(n)
    case Medium => 126
    case Long => 127
  }

  function SecondByte(f: Frame): byte
    requires WellFormed(f)
  {
    (if f.key.Key? then 0x80 else 0) | Len7(f.form, |f.data|)
  }

  function LengthBytes(form: Form, n: nat): seq<byte> {
    match form
    case Short => []
    case Medium => LittleEndian(n, 2)
    case Long => LittleEndian(n, 8)
  }

  function BodyBytes(key: Key, data: seq<byte>): seq<byte>
    requires key.Key? ==> |key.bytes| == 4
  {
    if key.Key? then key.bytes + Masked(key.bytes, data) else data
  }

  function FrameBytes(f: Frame): seq<byte>
    requires WellFormed(f)
  {
    [FirstByte(f), SecondByte(f)] + (LengthBytes(f.form, |f.data|) + BodyBytes(f.key, f.data))
  }

  lemma SecondByteBits(mask: bool, len7: byte)
    requires len7 <= 127
    ensures ((if mask then 0x80 else 0) | len7) & 0x7f == len7
    ensures ((if mask then 0x80 else 0) | len7) & 0x80 != 0 <==> mask
  {
  }

  lemma FirstByteBits(fin: bool, opcode: byte)
    requires opcode < 16
    ensures ((if fin then 0x80 else 0) | opcode) & 0x0f == opcode
    ensures ((if fin then 0x80 else 0) | opcode) & 0x80 != 0 <==> fin
  {
  }

  lemma XorTwice(a: byte, k: byte)
    ensures (a ^ k) ^ k == a
  {
  }

  /** Unmasking inverts masking, for every key and payload. */
  lemma MaskedTwice(key: seq<byte>, data: seq<byte>)
    requires |key| == 4
    ensures Masked(key, Masked(key, data)) == data
  {
    forall i | 0 <= i < |data|
      ensures Masked(key, Masked(key, data))[i] == data[i]
    {
      XorTwice(data[i], key[i % 4]);
    }
  }

  lemma ReadLengthInverse(form: Form, n: uint64, tail: seq<byte>)
    requires form.Short? ==> n <= 125
    requires form.Medium? ==> n < 0x1_0000
    ensures Len7(form, n) <= 127
    ensures ReadLength(Len7(form, n), LengthBytes(form, n) + tail) == Length(n, tail)
  {
    Pow256Values();
    var bytes := LengthBytes(form, n);
    match form
    case Short =>
      assert bytes + tail == tail;
    case Medium =>
      LittleEndianInverse(n, 2);
      assert (bytes + tail)[..2] == bytes && (bytes + tail)[2..] == tail;
    case Long =>
      LittleEndianInverse(n, 8);
      assert (bytes + tail)[..8] == bytes && (bytes + tail)[8..] == tail;
  }

  lemma DecodeBodyInverse(first: byte, key: Key, data: seq<byte>, rest: seq<byte>)
    requires |data| < MOD64 && (key.Key? ==> |key.bytes| == 4)
    ensures DecodeBody(first, key.Key?, |data|, BodyBytes(key, data) + rest) == CheckMessage(first, data, rest)
  {
    var input := BodyBytes(key, data) + rest;
    if key.Key? {
      MaskedTwice(key.bytes, data);
      assert input[..4] == key.bytes;
      assert input[4..4 + |data|] == Masked(key.bytes, data);
      assert input[4 + |data|..] == rest;
    } else {
      assert input[..|data|] == data && input[|data|..] == rest;
    }
  }

  /** The decoder sees exactly the data of any well-formed frame, whatever its length form and
      masking, and consumes exactly the frame. */
  lemma DecodeWellFormed(f: Frame, rest: seq<byte>)
    requires WellFormed(f)
    ensures DecodeFrame(FrameBytes(f) + rest) == CheckMessage(FirstByte(f), f.data, rest)
  {
    var n := |f.data|;
    var body := BodyBytes(f.key, f.data) + rest;
    var input := FrameBytes(f) + rest;
    assert input[2..] == LengthBytes(f.form, n) + body;
    ReadLengthInverse(f.form, n, body);
    SecondByteBits(f.key.Key?, Len7(f.form, n));
    DecodeBodyInverse(FirstByte(f), f.key, f.data, rest);
  }

  /** A masked frame is decoded exactly as its unmasked form. */
  lemma MaskIsTransparent(f: Frame, rest: seq<byte>)
    requires WellFormed(f)
    ensures DecodeFrame(FrameBytes(f) + rest) == DecodeFrame(FrameBytes(f.(key := NoKey)) + rest)
  {
    DecodeWellFormed(f, rest);
    DecodeWellFormed(f.(key := NoKey), rest);
  }

  /** A binary frame around a packet and at least its payload is emitted whole. */
  lemma DecodePacketFrame(f: Frame, p: Packet, tail: seq<byte>, rest: seq<byte>)
    requires WellFormed(f) && f.opcode == 2
    requires f.data == PacketBytes(p) + tail && |tail| >= p.payloadLength
    ensures DecodeFrame(FrameBytes(f) + rest) == Emitted(p, tail, rest)
  {
    DecodeWellFormed(f, rest);
    FirstByteBits(f.fin, f.opcode);
    CheckPacket(FirstByte(f), p, tail, rest);
  }

  lemma CheckPacket(first: byte, p: Packet, tail: seq<byte>, rest: seq<byte>)
    requires first & 0x0f == 2 && |tail| >= p.payloadLength
    ensures CheckMessage(first, PacketBytes(p) + tail, rest) == Emitted(p, tail, rest)
  {
    ParseInverse(p, tail);
    assert (PACKET_SIZE + p.payloadLength) % MOD64 <= PACKET_SIZE + p.payloadLength;
    assert (PacketBytes(p) + tail)[PACKET_SIZE..] == tail;
  }

  /* ---------- sending ---------- */

  function SentHeader(n: uint64): seq<byte> {
    if n < 126 then [0x82, AsByte(n)]
    else if n < 65535 then [0x82, 126] + LittleEndian(n, 2)
    else [0x82, 127] + LittleEndian(n, 8)
  }

  /** What `sendPacket` writes on a WebSocket connection. */
  function SentBytes(p: Packet, payload: seq<byte>): seq<byte> {
    SentHeader((PACKET_SIZE + p.payloadLength) % MOD64) + (PacketBytes(p) + payload)
  }

  function FormFor(n: nat): Form {
    if n < 126 then Short else if n < 65535 then Medium else Long
  }

  lemma SentHeaderForm(n: uint64)
    ensures SentHeader(n) == [0x82, Len7(FormFor(n), n)] + LengthBytes(FormFor(n), n)
  {
  }

  lemma NoFlag(b: byte)
    ensures 0 | b == b
  {
  }

  function SentFrame(data: seq<byte>): Frame {
    Frame(FormFor(|data|), true, 2, NoKey, data)
  }

  lemma SentIsFrame(data: seq<byte>)
    requires |data| < MOD64
    ensures WellFormed(SentFrame(data))
    ensures SentHeader(|data|) + data == FrameBytes(SentFrame(data))
  {
    var f := SentFrame(data);
    var head := [FirstByte(f), SecondByte(f)];
    assert head == [0x82, Len7(f.form, |data|)] by {
      NoFlag(Len7(f.form, |data|));
    }
    SentHeaderForm(|data|);
    Regroup(head, LengthBytes(f.form, |data|), data);
  }

  lemma SentBytesAreFrame(p: Packet, payload: seq<byte>)
    requires |payload| == p.payloadLength && PACKET_SIZE + p.payloadLength < MOD64
    ensures WellFormed(SentFrame(PacketBytes(p) + payload))
    ensures SentBytes(p, payload) == FrameBytes(SentFrame(PacketBytes(p) + payload))
  {
    SentIsFrame(PacketBytes(p) + payload);
    SumModulus(PACKET_SIZE + p.payloadLength);
  }

  lemma SumModulus(sum: nat)
    requires sum < 2 * MOD64
    ensures sum % MOD64 == if sum < MOD64 then sum else sum - MOD64
  {
  }

  /** When the sum wraps, what is written is a frame of less than a packet header, and then the rest. */
  lemma WrappedBytesAreFrame(p: Packet, payload: seq<byte>)
    requires |payload| == p.payloadLength && PACKET_SIZE + p.payloadLength >= MOD64
    ensures
      var n := PACKET_SIZE + p.payloadLength - MOD64;
      var data := PacketBytes(p) + payload;
      && WellFormed(SentFrame(data[..n]))
      && SentBytes(p, payload) == FrameBytes(SentFrame(data[..n])) + data[n..]
  {
    var n := PACKET_SIZE + p.payloadLength - MOD64;
    SentSplits(n, PacketBytes(p) + payload);
    SumModulus(PACKET_SIZE + p.payloadLength);
  }

  lemma SentSplits(n: uint64, data: seq<byte>)
    requires n <= |data|
    ensures WellFormed(SentFrame(data[..n]))
    ensures SentHeader(n) + data == FrameBytes(SentFrame(data[..n])) + data[n..]
  {
    var front := data[..n];
    SentIsFrame(front);
    HeadSplits(SentHeader(n), data, n);
  }

  lemma HeadSplits(head: seq<byte>, data: seq<byte>, n: nat)
    requires n <= |data|
    ensures head + data == (head + data[..n]) + data[n..]
  {
  }

  lemma SentDecodes(p: Packet, payload: seq<byte>, rest: seq<byte>)
    requires |payload| == p.payloadLength && PACKET_SIZE + p.payloadLength < MOD64
    ensures DecodeFrame(SentBytes(p, payload) + rest) == Emitted(p, payload, rest)
  {
    var f := SentFrame(PacketBytes(p) + payload);
    SentBytesAreFrame(p, payload);
    DecodePacketFrame(f, p, payload, rest);
    assert SentBytes(p, payload) + rest == FrameBytes(f) + rest;
  }

  lemma WrappedIsRejected(p: Packet, payload: seq<byte>, rest: seq<byte>)
    requires |payload| == p.payloadLength && PACKET_SIZE + p.payloadLength >= MOD64
    ensures DecodeFrame(SentBytes(p, payload) + rest) == Rejected(NoPacketHeader)
  {
    var data := PacketBytes(p) + payload;
    var n := PACKET_SIZE + p.payloadLength - MOD64;
    var f := SentFrame(data[..n]);
    WrappedBytesAreFrame(p, payload);
    DecodeWellFormed(f, data[n..] + rest);
    FirstByteBits(true, 2);
    Regroup(FrameBytes(f), data[n..], rest);
    assert SentBytes(p, payload) + rest == FrameBytes(f) + (data[n..] + rest);
  }

  /** The frame round trip, with its exact domain: what `sendPacket` writes is decoded back to the same
      packet and payload, consuming exactly those bytes, just when header and payload length do not
      wrap together. Packets up to the payload limit are far inside it. */
  lemma FrameRoundTrip(p: Packet, payload: seq<byte>, rest: seq<byte>)
    requires |payload| == p.payloadLength
    ensures DecodeFrame(SentBytes(p, payload) + rest) == Emitted(p, payload, rest) <==>
            PACKET_SIZE + p.payloadLength < MOD64
  {
    if PACKET_SIZE + p.payloadLength < MOD64 {
      SentDecodes(p, payload, rest);
    } else {
      WrappedIsRejected(p, payload, rest);
    }
  }

  /* ---------- bounds ---------- */

  /* Where the parts of a frame lie, by position in the input. */

  function ExtendedSize(len7: byte): nat {
    if len7 == 126 then 2 else if len7 == 127 then 8 else 0
  }

  /** The length fields of the frame are there. */
  predicate HasLength(input: seq<byte>) {
    |input| >= 2 && |input| >= 2 + ExtendedSize(input[1] & 0x7f)
  }

  function PayloadLength(input: seq<byte>): uint64
    requires HasLength(input)
  {
    var len7 := input[1] & 0x7f;
    var field := input[2..2 + ExtendedSize(len7)];
    if field == [] then len7 as int
    else
      LeLength(field);
      LeValue(Digits(field))
  }

  function PayloadStart(input: seq<byte>): nat
    requires HasLength(input)
  {
    2 + ExtendedSize(input[1] & 0x7f) + if input[1] & 0x80 != 0 then 4 else 0
  }

  predicate HasPayload(input: seq<byte>) {
    HasLength(input) && |input| >= PayloadStart(input) + PayloadLength(input)
  }

  /** The payload of n bytes from start on. */
  function PayloadAt(input: seq<byte>, masked: bool, start: nat, n: nat): (data: seq<byte>)
    requires (masked ==> start >= 4) && start + n <= |input|
    ensures |data| == n
  {
    var data := input[start..start + n];
    if masked then Masked(input[start - 4..start], data) else data
  }

  /** The payload, unmasked with the four bytes in front of it if the frame is masked. */
  function FramePayload(input: seq<byte>): (data: seq<byte>)
    requires HasPayload(input)
    ensures |data| == PayloadLength(input)
  {
    PayloadAt(input, input[1] & 0x80 != 0, PayloadStart(input), PayloadLength(input))
  }

  /** Whenever the decoder emits, the frame is complete; the packet is the first ten bytes of its
      unmasked payload, the region handed on is the rest of that payload, and what remains of the input
      is what follows the frame. The region is as long as the packet declares exactly when the length
      sum does not wrap. */
  lemma DecoderBounds(input: seq<byte>)
    requires DecodeFrame(input).Emitted?
    ensures
      var o := DecodeFrame(input);
      && HasPayload(input) && PayloadLength(input) >= PACKET_SIZE
      && o.packet == ParsePacket(FramePayload(input))
      && o.region == FramePayload(input)[PACKET_SIZE..]
      && o.rest == input[PayloadStart(input) + PayloadLength(input)..]
      && (|o.region| >= o.packet.payloadLength <==> PACKET_SIZE + o.packet.payloadLength < MOD64)
  {
    DecodeByPosition(input);
    MessageBounds(input[0], FramePayload(input), DecodeFrame(input).rest);
  }

  lemma ReadLengthByPosition(input: seq<byte>)
    requires |input| >= 2
    ensures
      var r := ReadLength(input[1] & 0x7f, input[2..]);
      && (r.Length? <==> HasLength(input))
      && (r.Length? ==> r.n == PayloadLength(input) && r.rest == input[2 + ExtendedSize(input[1] & 0x7f)..])
  {
    var size := ExtendedSize(input[1] & 0x7f);
    if |input| >= 2 + size {
      assert input[2..][..size] == input[2..2 + size] && input[2..][size..] == input[2 + size..];
    }
  }

  /** Reading step by step and reading by position are the same, on every input. */
  lemma DecodeByPosition(input: seq<byte>)
    ensures DecodeFrame(input) ==
      if HasPayload(input) then
        CheckMessage(input[0], FramePayload(input), input[PayloadStart(input) + PayloadLength(input)..])
      else Incomplete
  {
    if |input| >= 2 {
      ReadLengthByPosition(input);
      if HasLength(input) {
        BodyByPosition(input[0], input[1] & 0x80 != 0, input, 2 + ExtendedSize(input[1] & 0x7f), PayloadLength(input));
      }
    }
  }

  lemma BodyByPosition(first: byte, masked: bool, input: seq<byte>, at: nat, n: uint64)
    requires at <= |input|
    ensures
      var start := at + if masked then 4 else 0;
      DecodeBody(first, masked, n, input[at..]) ==
        if |input| < start + n then Incomplete
        else CheckMessage(first, PayloadAt(input, masked, start, n), input[start + n..])
  {
    var body := input[at..];
    if masked && |body| >= 4 + n {
      MaskedSlices(input, body, at, n);
    } else if !masked && |body| >= n {
      assert body[..n] == input[at..at + n] && body[n..] == input[at + n..];
    }
  }

  lemma MaskedSlices(input: seq<byte>, body: seq<byte>, at: nat, n: nat)
    requires at <= |input| && body == input[at..] && |body| >= 4 + n
    ensures Masked(body[..4], body[4..4 + n]) == PayloadAt(input, true, at + 4, n)
    ensures body[4 + n..] == input[at + 4 + n..]
  {
    assert body[..4] == input[at..at + 4];
    assert body[4..4 + n] == input[at + 4..at + 4 + n];
  }

  lemma MessageBounds(first: byte, data: seq<byte>, rest: seq<byte>)
    requires CheckMessage(first, data, rest).Emitted? && |data| < MOD64
    ensures
      var o := CheckMessage(first, data, rest);
      && |data| >= PACKET_SIZE && o.packet == ParsePacket(data)
      && o.region == data[PACKET_SIZE..] && o.rest == rest
      && (|o.region| >= o.packet.payloadLength <==> PACKET_SIZE + o.packet.payloadLength < MOD64)
  {
  }

  /* ---------- the bytes themselves ---------- */

  /** Version, command, then the length with its low byte first. */
  lemma PacketLayout(p: Packet)
    ensures
      var b := PacketBytes(p);
      var d := Digits(b[2..]);
      && |b| == 10 && b[0] == p.version && b[1] == p.command
      && p.payloadLength ==
           d[0] + 0x100 * d[1] + 0x1_0000 * d[2] + 0x100_0000 * d[3] + 0x1_0000_0000 * d[4] +
           0x100_0000_0000 * d[5] + 0x1_0000_0000_0000 * d[6] + 0x100_0000_0000_0000 * d[7]
  {
    var b := PacketBytes(p);
    assert b[2..] == LittleEndian(p.payloadLength, 8);
    Pow256Values();
    LittleEndianInverse(p.payloadLength, 8);
    LeValueOfEight(Digits(b[2..]));
  }

  /** Section 5.3 of RFC 6455: byte 4j+m differs from the data by byte m of the key. */
  lemma MaskLaw(key: seq<byte>, data: seq<byte>, j: nat, m: nat)
    requires |key| == 4 && m < 4 && 4 * j + m < |data|
    ensures Masked(key, data)[4 * j + m] ^ data[4 * j + m] == key[m]
  {
    assert (4 * j + m) % 4 == m;
    XorCancels(data[4 * j + m], key[m]);
  }

  lemma XorCancels(a: byte, k: byte)
    ensures (a ^ k) ^ a == k
  {
  }

  lemma NibbleValue(b: byte)
    ensures (b & 0x0f == 2) == (b as int % 16 == 2)
    ensures (b & 0x80 == 0) == ((b as int) < 128)
    ensures (b & 0x7f) as int == b as int % 128
  {
  }

  /** The header by value: the second byte is the seven length bits and, from 128 on, the mask flag. */
  lemma HeaderByValue(input: seq<byte>)
    requires |input| >= 2
    ensures
      var len := input[1] as int % 128;
      var wide := if len == 126 then 2 else if len == 127 then 8 else 0;
      && (HasLength(input) <==> |input| >= 2 + wide)
      && (HasLength(input) ==>
            PayloadStart(input) == 2 + wide + if input[1] as int >= 128 then 4 else 0)
  {
    NibbleValue(input[1]);
  }

  /** The length by value, low byte first in both extended forms. */
  lemma LengthByValue(input: seq<byte>)
    requires HasLength(input)
    ensures
      var len, d := input[1] as int % 128, Digits(input);
      && |d| == |input|
      && (len == 126 ==> |d| >= 4) && (len == 127 ==> |d| >= 10)
      && PayloadLength(input) ==
           if len == 126 then d[2] + 0x100 * d[3]
           else if len == 127 then
             d[2] + 0x100 * d[3] + 0x1_0000 * d[4] + 0x100_0000 * d[5] + 0x1_0000_0000 * d[6] +
             0x100_0000_0000 * d[7] + 0x1_0000_0000_0000 * d[8] + 0x100_0000_0000_0000 * d[9]
           else len
  {
    NibbleValue(input[1]);
    var len := input[1] as int % 128;
    if len == 126 {
      LeValueOfTwo(Digits(input[2..4]));
    } else if len == 127 {
      LeValueOfEight(Digits(input[2..10]));
    }
  }

  /** What becomes of any complete message, by the value of the first byte of its frame: opcode in the
      low four bits, the final flag from 128 on, the rest ignored. A message that holds a packet is
      emitted unless it is not binary, or is shorter than declared; a length that wraps is never found
      too short. */
  lemma MessageVerdict(input: seq<byte>, p: Packet, tail: seq<byte>)
    requires HasPayload(input) && FramePayload(input) == PacketBytes(p) + tail
    ensures DecodeFrame(input) ==
      if input[0] as int % 16 != 2 then Rejected(NotBinary)
      else if |tail| < p.payloadLength && 10 + p.payloadLength < MOD64 then
        Rejected(if input[0] as int < 128 then Fragmented else Truncated)
      else Emitted(p, tail, input[PayloadStart(input) + PayloadLength(input)..])
  {
    DecodeByPosition(input);
    PacketVerdict(input[0], p, tail, input[PayloadStart(input) + PayloadLength(input)..]);
  }

  lemma PacketVerdict(first: byte, p: Packet, tail: seq<byte>, rest: seq<byte>)
    ensures CheckMessage(first, PacketBytes(p) + tail, rest) ==
      if first as int % 16 != 2 then Rejected(NotBinary)
      else if |tail| < p.payloadLength && 10 + p.payloadLength < MOD64 then
        Rejected(if first as int < 128 then Fragmented else Truncated)
      else Emitted(p, tail, rest)
  {
    NibbleValue(first);
    ParseInverse(p, tail);
    SumModulus(PACKET_SIZE + p.payloadLength);
    assert (PacketBytes(p) + tail)[PACKET_SIZE..] == tail;
  }

  /** A message too short for a packet header is refused, as not binary if it is not. */
  lemma ShortMessageVerdict(input: seq<byte>)
    requires HasPayload(input) && |FramePayload(input)| < 10
    ensures DecodeFrame(input) == Rejected(if input[0] as int % 16 != 2 then NotBinary else NoPacketHeader)
  {
    DecodeByPosition(input);
    NibbleValue(input[0]);
  }

  /** The same for a peer's frame around a packet, of any form, mask and opcode. */
  lemma FrameVerdict(f: Frame, p: Packet, tail: seq<byte>, rest: seq<byte>)
    requires WellFormed(f) && f.data == PacketBytes(p) + tail
    ensures DecodeFrame(FrameBytes(f) + rest) ==
      if f.opcode != 2 then Rejected(NotBinary)
      else if |tail| < p.payloadLength && 10 + p.payloadLength < MOD64 then
        Rejected(if f.fin then Truncated else Fragmented)
      else Emitted(p, tail, rest)
  {
    DecodeWellFormed(f, rest);
    FirstByteBits(f.fin, f.opcode);
    NibbleValue(FirstByte(f));
    PacketVerdict(FirstByte(f), p, tail, rest);
  }

  lemma ShortFrameVerdict(f: Frame, rest: seq<byte>)
    requires WellFormed(f) && |f.data| < 10
    ensures DecodeFrame(FrameBytes(f) + rest) == Rejected(if f.opcode != 2 then NotBinary else NoPacketHeader)
  {
    DecodeWellFormed(f, rest);
    FirstByteBits(f.fin, f.opcode);
  }

  /** What is sent, by value: a final, unmasked binary frame in the form chosen at 126 and 65535. */
  lemma SentLayout(p: Packet, payload: seq<byte>)
    requires |payload| == p.payloadLength && 10 + p.payloadLength < MOD64
    ensures
      var n, b := 10 + p.payloadLength, SentBytes(p, payload);
      var head := if n < 126 then 2 else if n < 65535 then 4 else 10;
      && |b| == head + n && b[head..] == PacketBytes(p) + payload
      && b[0] == 0x82
      && b[1] as int == (if n < 126 then n else if n < 65535 then 126 else 127)
      && (head == 4 ==> LeValue(Digits(b[2..4])) == n)
      && (head == 10 ==> LeValue(Digits(b[2..10])) == n)
  {
    var n, b := 10 + p.payloadLength, SentBytes(p, payload);
    SumModulus(n);
    Pow256Values();
    if n < 126 {
      assert b[2..] == PacketBytes(p) + payload;
    } else if n < 65535 {
      LittleEndianInverse(n, 2);
      assert b[2..4] == LittleEndian(n, 2) && b[4..] == PacketBytes(p) + payload;
    } else {
      LittleEndianInverse(n, 8);
      assert b[2..10] == LittleEndian(n, 8) && b[10..] == PacketBytes(p) + payload;
    }
  }

  /** The wrap is reachable: a message of a bare header that declares 2^64 - 10 bytes is emitted. */
  lemma WrappedLengthEmitted()
    ensures
      var p := Packet(1, 6, MOD64 - 10);
      var f := Frame(Short, true, 2, NoKey, PacketBytes(p));
      WellFormed(f) && DecodeFrame(FrameBytes(f) + []) == Emitted(p, [], [])
  {
    var p := Packet(1, 6, MOD64 - 10);
    DecodeWellFormed(Frame(Short, true, 2, NoKey, PacketBytes(p)), []);
    FirstByteBits(true, 2);
    ParseInverse(p, []);
    assert PacketBytes(p) + [] == PacketBytes(p);
  }
}
