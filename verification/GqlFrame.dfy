/** The 8-byte frame header (engine/gql/frame.go). */
module GqlFrame {
  import opened Wrappers
  import opened Bytes
  import opened GqlOpcodes
  import opened GqlTypes

  datatype Frame = Frame(version: byte, opcode: byte, flags: uint16, payloadSize: uint32, payload: bytes)

  datatype FrameError = TooShort | BadVersion | UnknownOpcode | PayloadTooLarge | LengthMismatch

  // ---------------------------------------------------------------- specification

  /** The length field is cut to 32 bits, whatever payloadSize says. */
  function FrameBytes(f: Frame): (b: bytes) {
    [f.version, f.opcode] + BE(f.flags, 2) + BE(|f.payload| % 0x1_0000_0000, 4) + f.payload
  }

  predicate WellFormed(f: Frame) {
    && f.version == VERSION && IsValidOpcode(f.opcode)
    && f.payloadSize == |f.payload| <= MAX_PAYLOAD_SIZE
  }

  function ParseFrame(data: bytes): Result<Frame, FrameError> {
    if |data| < FRAME_HEADER_SIZE then Err(TooShort)
    else if data[0] != VERSION then Err(BadVersion)
    else if !IsValidOpcode(data[1]) then Err(UnknownOpcode)
    else
      BEOfValue(data[2..4]); BEOfValue(data[4..8]); PowersOf256();
      var flags: uint16, size: uint32 := Value(data[2..4]), Value(data[4..8]);
      if size > MAX_PAYLOAD_SIZE then Err(PayloadTooLarge)
      else if |data| != FRAME_HEADER_SIZE + size then Err(LengthMismatch)
      else Ok(Frame(data[0], data[1], flags, size, data[8..]))
  }

  lemma ParsedFrameEncodes(data: bytes)
    requires ParseFrame(data).Ok?
    ensures WellFormed(ParseFrame(data).value) && FrameBytes(ParseFrame(data).value) == data
  {
    PowersOf256();
    BEOfValue(data[2..4]);
    BEOfValue(data[4..8]);
    assert data == [data[0], data[1]] + data[2..4] + data[4..8] + data[8..];
  }

  lemma HeaderParts(f: Frame)
    requires WellFormed(f)
    ensures var data := FrameBytes(f);
            && |data| == FRAME_HEADER_SIZE + |f.payload| && data[0] == f.version && data[1] == f.opcode
            && data[2..4] == BE(f.flags, 2) && data[4..8] == BE(|f.payload|, 4) && data[8..] == f.payload
  {
    PowersOf256();
    hide BE;
    assert FrameBytes(f)[..8] + f.payload == FrameBytes(f);
  }

  lemma EncodedFrameParses(f: Frame)
    requires WellFormed(f)
    ensures ParseFrame(FrameBytes(f)) == Ok(f)
  {
    PowersOf256();
    HeaderParts(f);
    ValueOfBE(f.flags, 2);
    ValueOfBE(|f.payload|, 4);
    hide BE, Value, FrameBytes;
  }

  /** The byte strings DecodeFrame accepts are exactly the encodings of well-formed frames, one for each. */
  lemma DecodeInvertsEncode(data: bytes, f: Frame)
    ensures ParseFrame(data) == Ok(f) <==> WellFormed(f) && FrameBytes(f) == data
  {
    if ParseFrame(data) == Ok(f) {
      ParsedFrameEncodes(data);
    }
    if WellFormed(f) && FrameBytes(f) == data {
      EncodedFrameParses(f);
    }
  }

  /** The frame byte by byte: version 1, an opcode from 1 to 4, two bytes of flags, four of length, and a payload of that
      length, 16 MiB at most. */
  lemma AcceptsExactly(data: bytes, f: Frame)
    ensures ParseFrame(data) == Ok(f) <==>
            && |data| >= 8 && data[0] == 1 && data[1] in [1, 2, 3, 4]
            && 256 * (256 * (256 * (data[4] as int) + data[5]) + data[6]) + data[7] == |data| - 8 <= 16 * 1024 * 1024
            && f.version == data[0] && f.opcode == data[1] && f.flags == 256 * (data[2] as int) + data[3]
            && f.payloadSize == |data| - 8 && f.payload == data[8..]
  {
    if |data| >= 8 {
      OpcodesAreOneToFour(data[1]);
      ValueWritten(data[2..4]);
      ValueWritten(data[4..8]);
      hide Value, BE, IsValidOpcode;
    }
  }

  /** An encoded frame decodes to one with the true payload size, exactly when its version, opcode and
      payload length are acceptable. The header's size field is rewritten by Encode, so payloadSize is free. */
  lemma EncodeThenDecode(f: Frame)
    ensures ParseFrame(FrameBytes(f)).Ok? <==>
            f.version == VERSION && IsValidOpcode(f.opcode) && |f.payload| <= MAX_PAYLOAD_SIZE
    ensures ParseFrame(FrameBytes(f)).Ok? ==>
            ParseFrame(FrameBytes(f)).value == f.(payloadSize := |f.payload|)
  {
    var data := FrameBytes(f);
    if f.version == VERSION && IsValidOpcode(f.opcode) && |f.payload| <= MAX_PAYLOAD_SIZE {
      EncodedFrameParses(f.(payloadSize := |f.payload|));
    } else if ParseFrame(data).Ok? {
      ParsedFrameEncodes(data);
    }
  }

  // ---------------------------------------------------------------- the methods

  /** go: Frame.Encode */
  method EncodeFrame(f: Frame) returns (buf: array<byte>)
    ensures fresh(buf) && buf[..] == FrameBytes(f)
  {
    buf := new byte[FRAME_HEADER_SIZE + |f.payload|](_ => 0);
    buf[0] := f.version;
    buf[1] := f.opcode;
    assert buf[..2] == [f.version, f.opcode];
    Copy(buf, 2, BE(f.flags, 2));
    assert buf[..4] == [f.version, f.opcode] + BE(f.flags, 2);
    Copy(buf, 4, BE(|f.payload| % 0x1_0000_0000, 4));
    assert buf[..8] == [f.version, f.opcode] + BE(f.flags, 2) + BE(|f.payload| % 0x1_0000_0000, 4);
    Copy(buf, 8, f.payload);
  }

  /** go: DecodeFrame. The payload is copied out of the caller's buffer. */
  method DecodeFrame(data: array<byte>) returns (r: Result<Frame, FrameError>)
    ensures r == ParseFrame(data[..])
  {
    if data.Length < FRAME_HEADER_SIZE { return Err(TooShort); }
    var version, opcode := data[0], data[1];
    BEOfValue(data[2..4]);
    BEOfValue(data[4..8]);
    PowersOf256();
    assert data[..][2..4] == data[2..4] && data[..][4..8] == data[4..8];
    var flags: uint16, payloadSize: uint32 := Value(data[2..4]), Value(data[4..8]);
    if version != VERSION { return Err(BadVersion); }
    if !IsValidOpcode(opcode) { return Err(UnknownOpcode); }
    if payloadSize > MAX_PAYLOAD_SIZE { return Err(PayloadTooLarge); }
    var expectedLen := FRAME_HEADER_SIZE + payloadSize;
    if data.Length != expectedLen { return Err(LengthMismatch); }
    var payload: bytes := [];
    if payloadSize > 0 {
      var copied := new byte[payloadSize](_ => 0);
      Copy(copied, 0, data[8..]);
      payload := copied[..];
    }
    assert payload == data[8..];
    assert data[..][8..] == data[8..];
    r := Ok(Frame(version, opcode, flags, payloadSize, payload));
  }

  /** The frame NewQueryFrame builds when Encode happens to walk the fields in the given order. */
  function QueryFrame(q: Query, order: seq<bytes>): Frame
    requires forall k | k in order :: k in q.fields
  {
    var payload := Payload(q, order);
    Frame(VERSION, if IsWriteOperation(q.operation) then OPCODE_MUTATE else OPCODE_QUERY, FLAG_NONE,
          |payload| % 0x1_0000_0000, payload)
  }

  /** go: NewQueryFrame */
  method NewQueryFrame(q: Query) returns (f: Frame, ghost order: seq<bytes>)
    ensures IsOrder(order, q.fields) && f == QueryFrame(q, order)
  {
    var payload;
    payload, order := Encode(q);
    var opcode := OPCODE_QUERY;
    if IsWriteOperation(q.operation) {
      opcode := OPCODE_MUTATE;
    }
    f := Frame(VERSION, opcode, FLAG_NONE, payload.Length % 0x1_0000_0000, payload[..]);
  }
}
