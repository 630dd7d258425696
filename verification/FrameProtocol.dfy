/** The transport frame: magic | length | type | flags | sequence | payload | CRC-32. */
module FrameProtocol {
  import opened Bytes
  import opened Crc32

  const FRAME_MAGIC: Uint32 := 0x504B_4652
  const MAX_PAYLOAD_SIZE: nat := 65536

  datatype MessageType = PairReq | PairResp | UnlockReq | UnlockResp | ErrorMsg {
    function Code(): Byte {
      match this
      case PairReq => 0x01
      case PairResp => 0x02
      case UnlockReq => 0x10
      case UnlockResp => 0x11
      case ErrorMsg => 0xFF
    }
  }

  function TypeOfCode(code: Byte): (t: Option<MessageType>)
    ensures t.Some? ==> t.value.Code() == code
  {
    if code == 0x01 then Some(PairReq)
    else if code == 0x02 then Some(PairResp)
    else if code == 0x10 then Some(UnlockReq)
    else if code == 0x11 then Some(UnlockResp)
    else if code == 0xFF then Some(ErrorMsg)
    else None
  }

  datatype TransportFrame = TransportFrame(
    magic: Uint32, payloadLength: Uint32, messageType: MessageType, flags: Byte,
    sequenceNumber: Uint32, payload: seq<Byte>, checksum: Uint32)

  datatype FrameError = TooShort | BadMagic | PayloadTooLong | Incomplete | CrcMismatch | UnknownType

  // ----- printing

  predicate Sendable(f: TransportFrame) {
    |f.payload| <= MAX_PAYLOAD_SIZE
  }

  function Header(f: TransportFrame): (s: seq<Byte>)
    requires Sendable(f)
    ensures |s| == 14
  {
    PutNat(FRAME_MAGIC, 4) + PutNat(|f.payload|, 4) + [f.messageType.Code(), f.flags] + PutNat(f.sequenceNumber, 4)
  }

  /** The bytes on the wire. */
  function Print(f: TransportFrame): (s: seq<Byte>)
    requires Sendable(f)
    ensures |s| == 18 + |f.payload|
  {
    var covered := Header(f) + f.payload;
    covered + PutNat(Crc(covered), 4)
  }

  /** The frame with the fields that the printer computes filled in. */
  function Framed(f: TransportFrame): TransportFrame
    requires Sendable(f)
  {
    f.(magic := FRAME_MAGIC, payloadLength := |f.payload|, checksum := Crc(Header(f) + f.payload))
  }

  /** One big-endian field, appended at the moving offset. */
  method PutWord(buffer: array<Byte>, offset: nat, v: Uint32)
    requires offset + 4 <= buffer.Length
    modifies buffer
    ensures buffer[..offset + 4] == old(buffer[..offset]) + PutNat(v, 4)
  {
    buffer[offset] := v / 0x100_0000 % 256;
    buffer[offset + 1] := v / 0x1_0000 % 256;
    buffer[offset + 2] := v / 0x100 % 256;
    buffer[offset + 3] := v % 256;
    Put4(v);
  }

  method PutHeader(buffer: array<Byte>, frame: TransportFrame)
    requires Sendable(frame) && buffer.Length >= 14
    modifies buffer
    ensures buffer[..14] == Header(frame)
  {
    var offset := 0;
    PutWord(buffer, offset, FRAME_MAGIC);
    offset := offset + 4;
    PutWord(buffer, offset, |frame.payload|);
    offset := offset + 4;
    assert buffer[..offset] == PutNat(FRAME_MAGIC, 4) + PutNat(|frame.payload|, 4);
    buffer[offset] := frame.messageType.Code();
    offset := offset + 1;
    buffer[offset] := frame.flags;
    offset := offset + 1;
    assert buffer[..10] == buffer[..8] + [buffer[8], buffer[9]];
    PutWord(buffer, offset, frame.sequenceNumber);
  }

  method SerializeFrame(frame: TransportFrame) returns (buffer: array<Byte>)
    ensures fresh(buffer)
    ensures buffer[..] == if |frame.payload| <= 65536 then Print(frame) else []
  {
    if |frame.payload| > MAX_PAYLOAD_SIZE {
      buffer := new Byte[0];
      return;
    }
    var payloadLen := |frame.payload|;
    var totalLen := 14 + payloadLen + 4;
    buffer := new Byte[totalLen](_ => 0);
    PutHeader(buffer, frame);
    var offset := 14;
    if payloadLen > 0 {
      Copy(buffer, offset, frame.payload);
      offset := offset + payloadLen;
    }
    assert buffer[..offset] == Header(frame) + frame.payload;
    var checksum := CalculateCrc32(buffer[..14 + payloadLen]);
    PutWord(buffer, offset, checksum);
    assert buffer[..] == buffer[..offset + 4];
  }

  // ----- parsing

  /** The checks of the parser, in their order. */
  function Parse(data: seq<Byte>): (r: Result<TransportFrame, FrameError>) {
    if |data| < 18 then Err(TooShort)
    else if GetNat(data[..4]) != FRAME_MAGIC then Err(BadMagic)
    else
      var n := GetNat(data[4..8]);
      if n > MAX_PAYLOAD_SIZE then Err(PayloadTooLong)
      else if |data| < 18 + n then Err(Incomplete)
      else if Crc(data[..14 + n]) != GetNat(data[14 + n..18 + n]) then Err(CrcMismatch)
      else
        match TypeOfCode(data[8])
        case None => Err(UnknownType)
        case Some(t) => Ok(TransportFrame(FRAME_MAGIC, n, t, data[9], Number(data[10..14]), data[14..14 + n],
                                          Crc(data[..14 + n])))
  }

  function Number(s: seq<Byte>): (v: Uint32)
    requires |s| == 4
    ensures v == GetNat(s)
  {
    Get4(s);
    GetNat(s)
  }

  /** One big-endian field. */
  method GetWord(data: seq<Byte>, offset: nat) returns (v: Uint32)
    requires offset + 4 <= |data|
    ensures v == GetNat(data[offset..offset + 4])
  {
    Get4(data[offset..offset + 4]);
    v := data[offset] as int * 0x100_0000 + data[offset + 1] as int * 0x1_0000
       + data[offset + 2] as int * 0x100 + data[offset + 3];
  }

  method DeserializeFrame(data: seq<Byte>) returns (r: Result<TransportFrame, FrameError>)
    ensures r == Parse(data)
  {
    if |data| < 18 {
      return Err(TooShort);
    }
    var magic := GetWord(data, 0);
    if magic != FRAME_MAGIC {
      return Err(BadMagic);
    }
    var payloadLen := GetWord(data, 4);
    if payloadLen > MAX_PAYLOAD_SIZE {
      return Err(PayloadTooLong);
    }
    var totalFrameLen := 14 + payloadLen + 4;
    if |data| < totalFrameLen {
      return Err(Incomplete);
    }
    var checksumOffset := 14 + payloadLen;
    var expectedChecksum := GetWord(data, checksumOffset);
    var actualChecksum := CalculateCrc32(data[..checksumOffset]);
    if actualChecksum != expectedChecksum {
      return Err(CrcMismatch);
    }
    var rawMessageType := TypeOfCode(data[8]);
    if rawMessageType == None {
      return Err(UnknownType);
    }
    var sequenceNumber := GetWord(data, 10);
    r := Ok(TransportFrame(magic, payloadLen, rawMessageType.value, data[9], sequenceNumber,
                           data[14..14 + payloadLen], actualChecksum));
  }

  // ----- the parser and the printer are inverse to each other

  lemma {:induction false} HeaderFields(f: TransportFrame)
    requires Sendable(f)
    ensures var h := Header(f);
      && h[..4] == PutNat(FRAME_MAGIC, 4) && h[4..8] == PutNat(|f.payload|, 4)
      && h[8] == f.messageType.Code() && h[9] == f.flags && h[10..14] == PutNat(f.sequenceNumber, 4)
  {
  }

  /** Where the fields of a printed frame lie, whatever follows it. */
  lemma {:induction false} PrintedFields(f: TransportFrame, rest: seq<Byte>)
    requires Sendable(f)
    ensures var d, n := Print(f) + rest, |f.payload|;
      && d[..4] == PutNat(FRAME_MAGIC, 4) && d[4..8] == PutNat(n, 4)
      && d[8] == f.messageType.Code() && d[9] == f.flags && d[10..14] == PutNat(f.sequenceNumber, 4)
      && d[14..14 + n] == f.payload && d[..14 + n] == Header(f) + f.payload
      && d[14 + n..18 + n] == PutNat(Crc(Header(f) + f.payload), 4)
  {
    var d, n, h := Print(f) + rest, |f.payload|, Header(f);
    HeaderFields(f);
    assert d[..14 + n] == h + f.payload;
    assert d[..14] == h;
    assert d[..4] == h[..4] && d[4..8] == h[4..8] && d[10..14] == h[10..14];
    assert d[8] == h[8] && d[9] == h[9];
  }

  lemma {:induction false} ParsePrint(f: TransportFrame, rest: seq<Byte>)
    requires |f.payload| <= 65536
    ensures Parse(Print(f) + rest)
         == Ok(TransportFrame(0x504B_4652, |f.payload|, f.messageType, f.flags, f.sequenceNumber, f.payload,
                              Crc(Print(f)[..14 + |f.payload|])))
    ensures Parse(Print(f) + rest) == Ok(Framed(f))
  {
    assert Print(f)[..14 + |f.payload|] == Header(f) + f.payload;
    PrintedFields(f, rest);
    Put4(FRAME_MAGIC);
    Put4(|f.payload|);
    Put4(f.sequenceNumber);
    Put4(Crc(Header(f) + f.payload));
    TypeOfOwnCode(f.messageType);
  }

  lemma {:induction false} TypeOfOwnCode(t: MessageType)
    ensures TypeOfCode(t.Code()) == Some(t)
  {
  }

  lemma {:induction false} PrintParse(data: seq<Byte>)
    requires Parse(data).Ok?
    ensures var f := Parse(data).value;
      Sendable(f) && Framed(f) == f && |Print(f)| <= |data| && Print(f) == data[..|Print(f)|]
  {
    var f := Parse(data).value;
    ParsedFields(data);
    HeaderPrinted(data, f);
    PrintedFrom(data, f);
  }

  lemma {:induction false} PrintedFrom(data: seq<Byte>, f: TransportFrame)
    requires Sendable(f) && |data| >= 18 + |f.payload| && Header(f) == data[..14]
    requires var n := |f.payload|;
      data[14..14 + n] == f.payload && data[14 + n..18 + n] == PutNat(Crc(data[..14 + n]), 4)
    ensures Print(f) == data[..18 + |f.payload|] && Header(f) + f.payload == data[..14 + |f.payload|]
  {
    Seams(data, 14, 14 + |f.payload|);
    Seams(data, 14 + |f.payload|, 18 + |f.payload|);
  }

  lemma {:induction false} Seams(data: seq<Byte>, i: nat, j: nat)
    requires i <= j <= |data|
    ensures data[..j] == data[..i] + data[i..j]
  {
  }

  lemma {:induction false} ParsedFields(data: seq<Byte>)
    requires Parse(data).Ok?
    ensures var f := Parse(data).value; var n := |f.payload|;
      && n <= MAX_PAYLOAD_SIZE && 18 + n <= |data| && data[14..14 + n] == f.payload
      && f.magic == FRAME_MAGIC && f.payloadLength == n && f.checksum == Crc(data[..14 + n])
      && data[..4] == PutNat(FRAME_MAGIC, 4) && data[4..8] == PutNat(n, 4)
      && data[8] == f.messageType.Code() && data[9] == f.flags && data[10..14] == PutNat(f.sequenceNumber, 4)
      && data[14 + n..18 + n] == PutNat(Crc(data[..14 + n]), 4)
  {
    var n := |Parse(data).value.payload|;
    FieldRead(data[..4], 4);
    FieldRead(data[4..8], 4);
    FieldRead(data[10..14], 4);
    FieldRead(data[14 + n..18 + n], 4);
  }

  lemma {:induction false} FieldRead(field: seq<Byte>, n: nat)
    requires |field| == n
    ensures field == PutNat(GetNat(field), n)
  {
    PutGet(field);
  }

  lemma {:induction false} HeaderPrinted(data: seq<Byte>, f: TransportFrame)
    requires Sendable(f) && |data| >= 14
    requires data[..4] == PutNat(FRAME_MAGIC, 4) && data[4..8] == PutNat(|f.payload|, 4)
    requires data[8] == f.messageType.Code() && data[9] == f.flags && data[10..14] == PutNat(f.sequenceNumber, 4)
    ensures Header(f) == data[..14]
  {
    assert data[..14] == data[..4] + data[4..8] + [data[8], data[9]] + data[10..14];
  }

  /** The bytes of a frame, one field after the other. */
  lemma {:induction false} PrintedBytes(f: TransportFrame)
    requires |f.payload| <= 65536
    ensures var code: Byte := match f.messageType
                              case PairReq => 0x01
                              case PairResp => 0x02
                              case UnlockReq => 0x10
                              case UnlockResp => 0x11
                              case ErrorMsg => 0xFF;
      Print(f) == [0x50, 0x4B, 0x46, 0x52] + PutNat(|f.payload|, 4) + [code, f.flags] + PutNat(f.sequenceNumber, 4)
                + f.payload + PutNat(Crc(Print(f)[..14 + |f.payload|]), 4)
  {
    var code := HeaderBytes(f);
    var n := |f.payload|;
    var covered := Header(f) + f.payload;
    assert Print(f) == covered + PutNat(Crc(covered), 4);
    assert Print(f)[..14 + n] == covered;
  }

  lemma {:induction false} HeaderBytes(f: TransportFrame) returns (code: Byte)
    requires |f.payload| <= 65536
    ensures code == match f.messageType
                    case PairReq => 0x01
                    case PairResp => 0x02
                    case UnlockReq => 0x10
                    case UnlockResp => 0x11
                    case ErrorMsg => 0xFF
    ensures Header(f) == [0x50, 0x4B, 0x46, 0x52] + PutNat(|f.payload|, 4) + [code, f.flags]
                       + PutNat(f.sequenceNumber, 4)
  {
    Put4(FRAME_MAGIC);
    code := f.messageType.Code();
  }

  lemma {:induction false} MagicField(field: seq<Byte>)
    requires |field| == 4
    ensures GetNat(field) == FRAME_MAGIC <==> field == [0x50, 0x4B, 0x46, 0x52]
  {
    Get4(field);
  }

  lemma {:induction false} KnownCodes(code: Byte)
    ensures TypeOfCode(code).Some? <==> code in {0x01, 0x02, 0x10, 0x11, 0xFF}
  {
  }

  /** Why a buffer is refused: each reason exactly when those before it do not apply. */
  lemma {:induction false} WhenRefused(data: seq<Byte>)
    ensures Parse(data) == Err(TooShort) <==> |data| < 18
    ensures |data| >= 18 ==>
      var magic, n := data[..4] == [0x50, 0x4B, 0x46, 0x52], GetNat(data[4..8]);
      var whole := magic && n <= 65536 && 18 + n <= |data|;
      var intact := whole && Crc(data[..14 + n]) == GetNat(data[14 + n..18 + n]);
      && (Parse(data) == Err(BadMagic) <==> !magic)
      && (Parse(data) == Err(PayloadTooLong) <==> magic && n > 65536)
      && (Parse(data) == Err(Incomplete) <==> magic && n <= 65536 && 18 + n > |data|)
      && (Parse(data) == Err(CrcMismatch) <==> whole && !intact)
      && (Parse(data) == Err(UnknownType) <==> intact && data[8] !in {0x01, 0x02, 0x10, 0x11, 0xFF})
      && (Parse(data).Ok? <==> intact && data[8] in {0x01, 0x02, 0x10, 0x11, 0xFF})
  {
    if |data| >= 18 {
      MagicField(data[..4]);
      KnownCodes(data[8]);
    }
  }

  /** The parser accepts exactly the buffers that begin with a printed frame, and returns that frame. */
  lemma {:induction false} ParseAccepts(data: seq<Byte>, f: TransportFrame)
    ensures Parse(data) == Ok(f) <==> Sendable(f) && Framed(f) == f && Print(f) <= data
  {
    if Sendable(f) && Framed(f) == f && Print(f) <= data {
      ParsePrint(f, data[|Print(f)|..]);
      assert data == Print(f) + data[|Print(f)|..];
    }
    if Parse(data).Ok? {
      PrintParse(data);
    }
  }
}
