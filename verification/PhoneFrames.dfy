/** The phone's FrameProtocol: the same frames over signed integers, with fewer checks. */
module PhoneFrames {
  import opened Bytes
  import opened Crc32
  import opened FrameProtocol
  import opened JavaNio
  import opened StreamReceiver

  datatype PhoneFrame = PhoneFrame(
    magic: Int32, payloadLength: Int32, messageType: MessageType, flags: Int8,
    sequenceNumber: Int32, payload: seq<Byte>, checksum: Int32)

  /** An unknown code is taken for ERROR_MSG. */
  function FromCode(code: Int8): (t: MessageType)
    ensures forall known: MessageType :: Signed8(known.Code()) == code ==> t == known
    ensures t == ErrorMsg || Signed8(t.Code()) == code
  {
    if code == 0x01 then PairReq
    else if code == 0x02 then PairResp
    else if code == 0x10 then UnlockReq
    else if code == 0x11 then UnlockResp
    else ErrorMsg
  }

  /** The same frame in Kotlin's types. */
  function ToPhone(f: TransportFrame): PhoneFrame {
    PhoneFrame(Signed32(f.magic), Signed32(f.payloadLength), f.messageType, Signed8(f.flags),
               Signed32(f.sequenceNumber), f.payload, Signed32(f.checksum))
  }

  /** A frame of the phone in the agent's types, its length field excepted. */
  function ToAgent(f: PhoneFrame): (g: TransportFrame)
    ensures ToPhone(g) == f.(payloadLength := 0)
  {
    Radices();
    SignedUnsigned(f.magic, 0, 4); SignedUnsigned(f.sequenceNumber, 0, 4); SignedUnsigned(f.checksum, 0, 4);
    SignedUnsigned(f.flags, 0, 1);
    TransportFrame(Unsigned(f.magic, 4), 0, f.messageType, Unsigned(f.flags, 1),
                   Unsigned(f.sequenceNumber, 4), f.payload, Unsigned(f.checksum, 4))
  }

  lemma {:induction false} SameBits32(a: Uint32, b: Uint32)
    requires Signed32(a) == Signed32(b)
    ensures a == b
  {
    Radices();
    SignedUnsigned(0, a, 4);
    SignedUnsigned(0, b, 4);
  }

  // ----- printing

  /** ByteBuffer.allocate refuses a size that has wrapped to a negative Int. */
  predicate Allocatable(f: PhoneFrame) {
    18 + |f.payload| < 0x8000_0000
  }

  function PhoneHeader(f: PhoneFrame): (s: seq<Byte>)
    requires Allocatable(f)
    ensures |s| == 14
  {
    Radices();
    PutSigned(Signed32(FRAME_MAGIC), 4) + PutSigned(|f.payload|, 4) + [f.messageType.Code()]
    + PutSigned(f.flags, 1) + PutSigned(f.sequenceNumber, 4)
  }

  function PhonePrint(f: PhoneFrame): (s: seq<Byte>)
    requires Allocatable(f)
    ensures |s| == 18 + |f.payload|
  {
    Radices();
    var covered := PhoneHeader(f) + f.payload;
    covered + PutSigned(Signed32(Crc(covered)), 4)
  }

  method PutHeader(buffer: ByteBuffer, frame: PhoneFrame)
    requires Allocatable(frame) && buffer.position == 0 && |buffer.content| >= 14
    modifies buffer
    ensures buffer.position == 14 && |buffer.content| == old(|buffer.content|)
    ensures buffer.content[..14] == PhoneHeader(frame)
  {
    Radices();
    buffer.PutInteger(Signed32(FRAME_MAGIC), 4);
    assert buffer.content[..4] == PutSigned(Signed32(FRAME_MAGIC), 4);
    buffer.PutInteger(|frame.payload|, 4);
    buffer.Put([frame.messageType.Code()]);
    buffer.PutInteger(frame.flags, 1);
    buffer.PutInteger(frame.sequenceNumber, 4);
  }

  method SerializeFrame(frame: PhoneFrame) returns (bytes: seq<Byte>)
    requires Allocatable(frame)
    ensures bytes == PhonePrint(frame)
  {
    var payloadLen := |frame.payload|;
    var totalLen := 14 + payloadLen + 4;
    var buffer := new ByteBuffer.Allocate(totalLen);
    PutHeader(buffer, frame);
    if payloadLen > 0 {
      buffer.Put(frame.payload);
    }
    ghost var covered := PhoneHeader(frame) + frame.payload;
    assert buffer.content[..14 + payloadLen] == covered;
    var crcVal := CalculateCrc32(buffer.content[..14 + payloadLen]);
    Radices();
    buffer.PutInteger(Signed32(crcVal), 4);
    return buffer.content;
  }

  // ----- parsing

  /** The checks of the phone's parser: the agent's, except for the type byte. */
  function PhoneParse(data: seq<Byte>): (r: Option<PhoneFrame>) {
    if |data| < 18 then None
    else if GetSigned(data[..4]) != FRAME_MAGIC then None
    else
      var n := GetSigned(data[4..8]);
      if n < 0 || n > MAX_PAYLOAD_SIZE then None
      else if |data| < 14 + n + 4 then None
      else PhoneBody(data, n)
  }

  function PhoneBody(data: seq<Byte>, n: nat): Option<PhoneFrame>
    requires n <= MAX_PAYLOAD_SIZE && 18 + n <= |data|
  {
    if Signed32(Crc(data[..14 + n])) != GetSigned(data[14 + n..18 + n]) then None
    else Some(PhoneFields(data, n))
  }

  function PhoneFields(data: seq<Byte>, n: nat): PhoneFrame
    requires n <= MAX_PAYLOAD_SIZE && 18 + n <= |data|
  {
    PhoneFrame(FRAME_MAGIC, n, FromCode(Signed8(data[8])), Signed8(data[9]), GetInt(data[10..14]),
               data[14..14 + n], Signed32(Crc(data[..14 + n])))
  }

  /** The two integers that a frame begins with. */
  method GetHeader(buffer: ByteBuffer) returns (magic: Int32, payloadLen: Int32)
    requires buffer.position == 0 && |buffer.content| >= 8
    modifies buffer`position
    ensures buffer.position == 8
    ensures magic == GetSigned(buffer.content[..4]) && payloadLen == GetSigned(buffer.content[4..8])
  {
    Radices();
    assert buffer.content[0..4] == buffer.content[..4];
    magic := buffer.GetInteger(4);
    payloadLen := buffer.GetInteger(4);
  }

  /** What follows the header. */
  method GetFields(buffer: ByteBuffer, ghost data: seq<Byte>, payloadLen: nat)
    returns (messageTypeCode: Int8, flags: Int8, seqNum: Int32, payload: seq<Byte>, expectedChecksum: Int32)
    requires buffer.position == 8 && buffer.content == data && 18 + payloadLen <= |data|
    modifies buffer`position
    ensures messageTypeCode == Signed8(data[8]) && flags == Signed8(data[9]) && seqNum == GetInt(data[10..14])
    ensures payload == data[14..14 + payloadLen]
    ensures expectedChecksum == GetSigned(data[14 + payloadLen..18 + payloadLen])
  {
    Radices();
    messageTypeCode := buffer.GetByte();
    flags := buffer.GetByte();
    seqNum := buffer.GetInteger(4);
    payload := [];
    if payloadLen > 0 {
      payload := buffer.Get(payloadLen);
    }
    expectedChecksum := buffer.GetInteger(4);
  }

  /** The fields, and the frame if the checksum is right. */
  method GetBody(buffer: ByteBuffer, data: seq<Byte>, payloadLen: Int32) returns (r: Option<PhoneFrame>)
    requires 0 <= payloadLen <= MAX_PAYLOAD_SIZE && 18 + payloadLen <= |data|
    requires buffer.position == 8 && buffer.content == data
    modifies buffer`position
    ensures r == PhoneBody(data, payloadLen)
  {
    var messageTypeCode, flags, seqNum, payload, expectedChecksum := GetFields(buffer, data, payloadLen);
    var crc := CalculateCrc32(data[..14 + payloadLen]);
    var actualChecksum := Signed32(crc);
    if actualChecksum != expectedChecksum {
      return None;
    }
    r := Some(PhoneFrame(FRAME_MAGIC, payloadLen, FromCode(messageTypeCode), flags, seqNum, payload, actualChecksum));
  }

  method DeserializeFrame(data: seq<Byte>) returns (r: Option<PhoneFrame>)
    ensures r == PhoneParse(data)
  {
    if |data| < 18 {
      return None;
    }
    var buffer := new ByteBuffer.Wrap(data);
    var magic, payloadLen := GetHeader(buffer);
    if magic != FRAME_MAGIC {
      return None;
    }
    if payloadLen < 0 || payloadLen > MAX_PAYLOAD_SIZE {
      return None;
    }
    if |data| < 14 + payloadLen + 4 {
      return None;
    }
    r := GetBody(buffer, data, payloadLen);
  }

  // ----- the two implementations agree

  lemma {:induction false} SignedBits(u: Uint32)
    ensures PutSigned(Signed32(u), 4) == PutNat(u, 4)
  {
    Radices();
    SignedUnsigned(0, u, 4);
  }

  lemma {:induction false} SignedField(s: seq<Byte>)
    requires |s| == 4
    ensures GetNat(s) < 0x1_0000_0000 && GetSigned(s) == Signed32(GetNat(s))
  {
    Radices();
    PutGet(s);
  }

  lemma {:induction false} CodesAgree(code: Byte)
    ensures match TypeOfCode(code) case Some(t) => FromCode(Signed8(code)) == t
                                   case None => FromCode(Signed8(code)) == ErrorMsg
  {
    Radices();
  }

  /**
   * On every buffer the phone accepts what the agent accepts, with equal fields, and besides that only
   * frames of an unknown type, which it takes for error messages.
   */
  lemma {:induction false} Agreement(data: seq<Byte>)
    ensures Parse(data).Ok? <==> PhoneParse(data).Some? && TypeOfCode(data[8]).Some?
    ensures Parse(data).Ok? ==> PhoneParse(data) == Some(ToPhone(Parse(data).value))
    ensures Parse(data) == Err(UnknownType) <==> PhoneParse(data).Some? && TypeOfCode(data[8]) == None
    ensures Parse(data) == Err(UnknownType) ==> PhoneParse(data).value.messageType == ErrorMsg
  {
    if |data| >= 18 {
      Radices();
      SignedField(data[..4]);
      SignedField(data[4..8]);
      SignedField(data[10..14]);
      CodesAgree(data[8]);
      var n := GetNat(data[4..8]);
      if n <= MAX_PAYLOAD_SIZE && 18 + n <= |data| {
        SignedField(data[14 + n..18 + n]);
        ChecksumsAgree(Crc(data[..14 + n]), GetNat(data[14 + n..18 + n]));
      }
    }
  }

  lemma {:induction false} ChecksumsAgree(a: Uint32, b: Uint32)
    ensures a == b <==> Signed32(a) == Signed32(b)
  {
    if Signed32(a) == Signed32(b) {
      SameBits32(a, b);
    }
  }

  /** They put the same bytes on the wire for the same frame. */
  lemma {:induction false} SamePrint(f: TransportFrame)
    requires Sendable(f)
    ensures PhonePrint(ToPhone(f)) == Print(f)
  {
    SameHeader(f);
    SignedBits(Crc(Header(f) + f.payload));
  }

  lemma {:induction false} SameHeader(f: TransportFrame)
    requires Sendable(f)
    ensures PhoneHeader(ToPhone(f)) == Header(f)
  {
    SignedBits(FRAME_MAGIC);
    SignedBits(|f.payload|);
    SignedBits(f.sequenceNumber);
    FlagByte(f.flags);
    var m, l, n := PutNat(FRAME_MAGIC, 4), PutNat(|f.payload|, 4), PutNat(f.sequenceNumber, 4);
    Associative(m + l, [f.messageType.Code()], [f.flags]);
  }

  lemma {:induction false} FlagByte(b: Byte)
    ensures Fits(Signed8(b), 1) && PutSigned(Signed8(b), 1) == [b]
  {
    Radices();
    SignedUnsigned(0, b, 1);
    assert PutNat(b, 1) == PutNat(b / 256, 0) + [b % 256];
  }

  lemma {:induction false} PhoneHeaderFields(f: PhoneFrame)
    requires Allocatable(f)
    ensures PhoneHeader(f)[..4] == PutNat(FRAME_MAGIC, 4) && PhoneHeader(f)[4..8] == PutNat(|f.payload|, 4)
  {
    Radices();
    SignedBits(FRAME_MAGIC);
    SignedBits(|f.payload|);
  }

  /**
   * The phone has no size limit when it sends: it prints an oversized frame, which neither parser
   * accepts and for which the agent closes the connection.
   */
  lemma {:induction false} OversizedPrint(f: PhoneFrame, rest: seq<Byte>)
    requires Allocatable(f) && |f.payload| > 65536
    ensures var bytes := PhonePrint(f) + rest;
      && PhoneParse(bytes) == None && Parse(bytes) == Err(PayloadTooLong)
      && Drain(bytes) == Drained([Error(OversizedPayload)], bytes, false)
  {
    var bytes, h := PhonePrint(f) + rest, PhoneHeader(f);
    PhoneHeaderFields(f);
    assert bytes[..4] == h[..4] && bytes[4..8] == h[4..8];
    SignedField(bytes[..4]);
    SignedField(bytes[4..8]);
    Put4(FRAME_MAGIC);
    Put4(|f.payload|);
    OversizedDrains(bytes);
  }

  /** The phone reads back what it prints exactly when it keeps to the limit. */
  lemma {:induction false} PhoneRoundTrip(f: PhoneFrame)
    requires Allocatable(f)
    ensures var printed := f.(magic := 0x504B_4652, payloadLength := |f.payload|,
                              checksum := Signed32(Crc(PhoneHeader(f) + f.payload)));
      |f.payload| <= 65536 <==> PhoneParse(PhonePrint(f)) == Some(printed)
  {
    var p := PhonePrint(f);
    assert p + [] == p;
    if |f.payload| > MAX_PAYLOAD_SIZE {
      OversizedPrint(f, []);
    } else {
      var g := ToAgent(f);
      SamePrint(g);
      ParsePrint(g, []);
      Agreement(p);
      assert Print(g) == PhonePrint(ToPhone(g));
    }
  }
}
