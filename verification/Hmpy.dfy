/** The HMPY v1 frame codec of hmpy_protocol.py: envelope rules, raw frames, COBS wire frames. */
module Hmpy {
  import opened Bytes
  import Crc32
  import Cobs

  const MAGIC: seq<byte> := [0x48, 0x4D, 0x50, 0x59]
  const PROTOCOL_VERSION: byte := 1
  const HEADER_SIZE: nat := 16
  const RAW_OVERHEAD: nat := 20
  const MAX_PAYLOAD_SIZE: nat := 1024
  const MAX_RAW_FRAME: nat := RAW_OVERHEAD + MAX_PAYLOAD_SIZE
  const MAX_ENCODED_PACKET: nat := MAX_RAW_FRAME + MAX_RAW_FRAME / 254 + 1
  const MAX_WIRE_FRAME: nat := MAX_ENCODED_PACKET + 1

  datatype Status =
    | CobsMalformed | EncodedTooLarge | FrameTooShort | BadMagic | UnsupportedVersion | UnknownType
    | ReservedFlags | InvalidEnvelope | PayloadTooLarge | LengthMismatch | CrcMismatch

  /** The fields as a caller may fill them in: any integers. */
  datatype Frame = Frame(kind: int, flags: int, requestId: int, payload: seq<byte>)

  // ---------------------------------------------------------------- envelope

  predicate KnownType(kind: int) {
    || 0x01 <= kind <= 0x04 || 0x10 <= kind <= 0x13 || 0x20 <= kind <= 0x22 || 0x30 <= kind <= 0x32
    || 0x40 <= kind <= 0x41 || 0x80 <= kind <= 0x84
  }

  predicate IsEvent(kind: int) { 0x80 <= kind <= 0x84 }

  predicate Response(flags: int) { flags % 2 == 1 }

  predicate ErrorFlag(flags: int) { flags / 2 % 2 == 1 }

  predicate More(flags: int) { flags / 4 % 2 == 1 }

  /** `_validate_envelope`: the error it raises, if any. */
  function EnvelopeError(kind: int, flags: int, requestId: int): Option<Status> {
    if !KnownType(kind) then Some(UnknownType)
    else if !(0 <= flags < 8) then Some(ReservedFlags)
    else if !(0 <= requestId < 0x1_0000_0000) then Some(InvalidEnvelope)
    else if IsEvent(kind) then (if flags != 0 || requestId != 0 then Some(InvalidEnvelope) else None)
    else if requestId == 0 then Some(InvalidEnvelope)
    else if ErrorFlag(flags) && !Response(flags) then Some(InvalidEnvelope)
    else if More(flags) && !Response(flags) then Some(InvalidEnvelope)
    else None
  }

  predicate ValidFrame(f: Frame) {
    EnvelopeError(f.kind, f.flags, f.requestId).None? && |f.payload| <= MAX_PAYLOAD_SIZE
  }

  const TYPES: set<int> :=
    {0x01, 0x02, 0x03, 0x04, 0x10, 0x11, 0x12, 0x13, 0x20, 0x21, 0x22, 0x30, 0x31, 0x32, 0x40, 0x41, 0x80, 0x81, 0x82, 0x83, 0x84}

  /**
   * Which envelopes are valid: an event has neither flags nor a request, any other message answers
   * or makes a request, and only a response may carry the error flag (2) or the more flag (4).
   */
  lemma EnvelopeRules(kind: int, flags: int, requestId: int)
    ensures EnvelopeError(kind, flags, requestId).None? <==>
      && kind in TYPES
      && if kind >= 0x80 then flags == 0 && requestId == 0
         else flags in {0, 1, 3, 5, 7} && 1 <= requestId <= 0xFFFF_FFFF
    ensures EnvelopeError(kind, flags, requestId) == Some(UnknownType) <==> kind !in TYPES
    ensures EnvelopeError(kind, flags, requestId) == Some(ReservedFlags) <==> kind in TYPES && !(0 <= flags <= 7)
    ensures EnvelopeError(kind, flags, requestId) in {None, Some(UnknownType), Some(ReservedFlags), Some(InvalidEnvelope)}
  {
  }

  // ---------------------------------------------------------------- raw frames

  function Header(f: Frame): (h: seq<byte>)
    requires ValidFrame(f)
    ensures |h| == HEADER_SIZE
  {
    MAGIC + [PROTOCOL_VERSION, f.kind] + Le16(f.flags) + Le32(f.requestId) + Le32(|f.payload|)
  }

  function EncodeRaw(f: Frame): Result<seq<byte>, Status> {
    if EnvelopeError(f.kind, f.flags, f.requestId).Some? then Err(EnvelopeError(f.kind, f.flags, f.requestId).value)
    else if |f.payload| > MAX_PAYLOAD_SIZE then Err(PayloadTooLarge)
    else
      var body := Header(f) + f.payload;
      Ok(body + Crc32.Seal(body))
  }

  function DecodeRaw(raw: seq<byte>): Result<Frame, Status> {
    if |raw| < RAW_OVERHEAD then Err(FrameTooShort)
    else if raw[..4] != MAGIC then Err(BadMagic)
    else if raw[4] != PROTOCOL_VERSION then Err(UnsupportedVersion)
    else
      var kind, flags, requestId, length := raw[5], FromLe16(raw[6..8]), FromLe32(raw[8..12]), FromLe32(raw[12..16]);
      if length > MAX_PAYLOAD_SIZE then Err(PayloadTooLarge)
      else if |raw| != RAW_OVERHEAD + length then Err(LengthMismatch)
      else if EnvelopeError(kind, flags, requestId).Some? then Err(EnvelopeError(kind, flags, requestId).value)
      else
        var end := HEADER_SIZE + length;
        if raw[end..] != Crc32.Seal(raw[..end]) then Err(CrcMismatch)
        else Ok(Frame(kind, flags, requestId, raw[HEADER_SIZE..end]))
  }

  lemma HeaderFields(f: Frame, tail: seq<byte>)
    requires ValidFrame(f)
    ensures var r := Header(f) + tail;
            && r[..4] == MAGIC && r[4] == PROTOCOL_VERSION && r[5] == f.kind
            && FromLe16(r[6..8]) == f.flags && FromLe32(r[8..12]) == f.requestId && FromLe32(r[12..16]) == |f.payload|
            && r[HEADER_SIZE..] == tail
  {
    var r := Header(f) + tail;
    assert r[6..8] == Le16(f.flags) && r[8..12] == Le32(f.requestId) && r[12..16] == Le32(|f.payload|);
    Le32RoundTrip(f.requestId);
    Le32RoundTrip(|f.payload|);
  }

  /** Every valid frame is read back. */
  lemma RawRoundTrip(f: Frame)
    ensures EncodeRaw(f).Ok? <==> ValidFrame(f)
    ensures ValidFrame(f) ==> DecodeRaw(EncodeRaw(f).value) == Ok(f) && |EncodeRaw(f).value| == RAW_OVERHEAD + |f.payload|
  {
    if ValidFrame(f) {
      var body := Header(f) + f.payload;
      var raw, end := body + Crc32.Seal(body), HEADER_SIZE + |f.payload|;
      assert raw == Header(f) + (f.payload + Crc32.Seal(body));
      HeaderFields(f, f.payload + Crc32.Seal(body));
      assert raw[..end] == body && raw[end..] == Crc32.Seal(body) && raw[HEADER_SIZE..end] == f.payload;
    }
  }

  /** Where every field of an encoded frame is, numbers with their least significant byte first. */
  lemma RawLayout(f: Frame)
    requires ValidFrame(f)
    ensures var raw, end := EncodeRaw(f).value, 16 + |f.payload|;
            && |raw| == end + 4 && raw[..4] == [0x48, 0x4D, 0x50, 0x59] && raw[4] == 1 && raw[5] == f.kind
            && LittleEndian(raw[6..8]) == f.flags && LittleEndian(raw[8..12]) == f.requestId
            && LittleEndian(raw[12..16]) == |f.payload| && raw[16..end] == f.payload
            && Crc32.Bits(raw[end..]) == Crc32.Checksum(raw[..end])
  {
    var body := Header(f) + f.payload;
    var raw, end := body + Crc32.Seal(body), 16 + |f.payload|;
    assert raw == Header(f) + (f.payload + Crc32.Seal(body));
    HeaderFields(f, f.payload + Crc32.Seal(body));
    TwoByteField(raw[6..8]);
    FourByteField(raw[8..12]);
    FourByteField(raw[12..16]);
    assert raw[..end] == body && raw[end..] == Crc32.Seal(body) && raw[16..end] == f.payload;
    Crc32.SealBits(body);
  }

  /** Every accepted raw frame is the encoding of the frame it decodes to. */
  lemma RawInverse(raw: seq<byte>)
    requires DecodeRaw(raw).Ok?
    ensures ValidFrame(DecodeRaw(raw).value) && EncodeRaw(DecodeRaw(raw).value) == Ok(raw)
  {
    var f := DecodeRaw(raw).value;
    var end := HEADER_SIZE + |f.payload|;
    HeaderInverse(raw);
    assert raw[..end] == raw[..HEADER_SIZE] + raw[HEADER_SIZE..end];
    assert raw == raw[..end] + raw[end..];
  }

  lemma HeaderInverse(raw: seq<byte>)
    requires DecodeRaw(raw).Ok?
    ensures ValidFrame(DecodeRaw(raw).value) && Header(DecodeRaw(raw).value) == raw[..HEADER_SIZE]
  {
    FromLe32RoundTrip(raw[8..12]);
    FromLe32RoundTrip(raw[12..16]);
    assert Le16(FromLe16(raw[6..8])) == raw[6..8];
    assert raw[..HEADER_SIZE] == raw[..4] + [raw[4], raw[5]] + raw[6..8] + raw[8..12] + raw[12..16];
  }

  /** Corrupting at most four consecutive bytes of an accepted raw frame is always rejected. */
  lemma BurstIsRejected(raw: seq<byte>, damaged: seq<byte>, i: nat)
    requires DecodeRaw(raw).Ok? && Crc32.SameOutside(raw, damaged, i) && damaged != raw
    ensures DecodeRaw(damaged).Err?
  {
    assert Crc32.Sealed(raw);
    Crc32.SealedBurstDetected(raw, damaged, i);
  }

  /** A frame that is cut short is reported as such, wherever it is cut. */
  lemma TruncationIsReported(f: Frame, n: nat)
    requires ValidFrame(f) && n < RAW_OVERHEAD + |f.payload|
    ensures var raw := EncodeRaw(f).value;
            |raw| > n && DecodeRaw(raw[..n]) == Err(if n < 20 then FrameTooShort else LengthMismatch)
  {
    RawRoundTrip(f);
    var raw := EncodeRaw(f).value;
    if n >= 20 {
      var cut := raw[..n];
      assert cut[..4] == raw[..4] && cut[12..16] == raw[12..16];
    }
  }

  /** Damage behind the header is reported as a wrong checksum. */
  lemma PayloadDamageIsReported(raw: seq<byte>, damaged: seq<byte>, i: nat)
    requires DecodeRaw(raw).Ok? && Crc32.SameOutside(raw, damaged, i) && i >= 16 && damaged != raw
    ensures DecodeRaw(damaged) == Err(CrcMismatch)
  {
    BurstIsRejected(raw, damaged, i);
    assert damaged[..4] == raw[..4] && damaged[6..8] == raw[6..8] && damaged[8..12] == raw[8..12] && damaged[12..16] == raw[12..16];
  }

  // ---------------------------------------------------------------- wire frames

  function EncodeFrame(f: Frame): Result<seq<byte>, Status> {
    match EncodeRaw(f)
    case Err(e) => Err(e)
    case Ok(raw) =>
      var encoded := Cobs.Encode(raw);
      if |encoded| > MAX_ENCODED_PACKET then Err(EncodedTooLarge) else Ok(encoded + [0])
  }

  function DecodePacket(packet: seq<byte>): Result<Frame, Status> {
    if |packet| > MAX_ENCODED_PACKET then Err(EncodedTooLarge)
    else match Cobs.Decode(packet)
      case Err(e) => Err(if e.Malformed? then CobsMalformed else EncodedTooLarge)
      case Ok(raw) => DecodeRaw(raw)
  }

  function DecodeFrame(wire: seq<byte>): Result<Frame, Status> {
    if wire == [] || wire[|wire| - 1] != 0 || 0 in wire[..|wire| - 1] then Err(CobsMalformed)
    else DecodePacket(wire[..|wire| - 1])
  }

  /** The wire form of a valid frame. */
  function WireOf(f: Frame): seq<byte>
    requires ValidFrame(f)
  {
    Cobs.Encode(EncodeRaw(f).value) + [0]
  }

  /** The packet of a valid frame: zero-free, within the limit, and decoded to the same frame. */
  lemma PacketRoundTrip(f: Frame)
    requires ValidFrame(f)
    ensures var packet := Cobs.Encode(EncodeRaw(f).value);
            && EncodeFrame(f) == Ok(WireOf(f)) && WireOf(f) == packet + [0] && packet != [] && 0 !in packet
            && |packet| <= MAX_ENCODED_PACKET && DecodePacket(packet) == Ok(f)
  {
    RawRoundTrip(f);
    Cobs.EncodingIsZeroFree(EncodeRaw(f).value);
    Cobs.EncodeThenDecode(EncodeRaw(f).value);
  }

  /** Every valid frame survives the wire, whose only zero is its last byte; the size check never fires. */
  lemma FrameRoundTrip(f: Frame)
    ensures EncodeFrame(f).Ok? <==> ValidFrame(f)
    ensures EncodeFrame(f).Ok? ==>
              var w := EncodeFrame(f).value;
              && 1 <= |w| <= MAX_WIRE_FRAME
              && (forall i :: 0 <= i < |w| ==> (w[i] == 0 <==> i == |w| - 1))
              && DecodeFrame(w) == Ok(f)
  {
    RawRoundTrip(f);
    if ValidFrame(f) {
      PacketRoundTrip(f);
      var packet := Cobs.Encode(EncodeRaw(f).value);
      assert (packet + [0])[..|packet|] == packet;
    }
  }

  lemma PacketInverse(packet: seq<byte>)
    requires DecodePacket(packet).Ok?
    ensures EncodeFrame(DecodePacket(packet).value) == Ok(if Cobs.EndsFull(packet) then packet + [1, 0] else packet + [0])
  {
    var raw, f := Cobs.Decode(packet).value, DecodePacket(packet).value;
    RawInverse(raw);
    PacketRoundTrip(f);
    Cobs.DecodeThenEncode(packet);
    assert packet + [1] + [0] == packet + [1, 0];
  }

  /** An accepted wire frame is the encoding of its frame, up to the 1 that may follow a full last block. */
  lemma FrameInverse(wire: seq<byte>)
    requires DecodeFrame(wire).Ok?
    ensures var packet := wire[..|wire| - 1];
            EncodeFrame(DecodeFrame(wire).value) == Ok(if Cobs.EndsFull(packet) then packet + [1, 0] else wire)
  {
    var packet := wire[..|wire| - 1];
    assert wire == packet + [0];
    PacketInverse(packet);
  }
}
