/** The agent's AuthPayload: the 108 canonical bytes that the phone signs. */
module Protocol {
  import opened Bytes

  const DOMAIN_SIZE := 16
  const UUID_SIZE := 16
  const CHALLENGE_SIZE := 32
  const CANONICAL_PAYLOAD_SIZE := 108

  type Uint16 = x: int | 0 <= x < 0x1_0000
  type Uuid = s: seq<Byte> | |s| == UUID_SIZE witness Zeroes(UUID_SIZE)
  type Nonce = s: seq<Byte> | |s| == CHALLENGE_SIZE witness Zeroes(CHALLENGE_SIZE)

  /** "PhoneKey-Auth-v1", without a terminator. */
  const DOMAIN_PREFIX: seq<Byte> :=
    [0x50, 0x68, 0x6F, 0x6E, 0x65, 0x4B, 0x65, 0x79, 0x2D, 0x41, 0x75, 0x74, 0x68, 0x2D, 0x76, 0x31]
  const CURRENT_PROTOCOL_VERSION: Uint16 := 0x0100
  const ALGORITHM_ECDSA_P256_SHA256: Uint16 := 0x0001
  const DEFAULT_CHALLENGE_TTL_MS: nat := 30000

  datatype ErrorCode =
    | Success | InvalidRequest | InvalidProtocolVersion | InvalidAlgorithm | UnknownDevice | InvalidSignature
    | ChallengeNotFound | ChallengeExpired | ChallengeAlreadyConsumed | SessionMismatch | DeviceMismatch
    | PcMismatch | MalformedSignature | CryptoError | BiometricRequired | BiometricFailed | KeyInvalidated
  {
    /** The number sent in an error message. */
    function Code(): (c: Uint16)
      ensures c == 0 <==> this == Success
    {
      match this
      case Success => 0x00
      case InvalidRequest => 0x01
      case InvalidProtocolVersion => 0x02
      case InvalidAlgorithm => 0x03
      case UnknownDevice => 0x04
      case InvalidSignature => 0x05
      case ChallengeNotFound => 0x06
      case ChallengeExpired => 0x07
      case ChallengeAlreadyConsumed => 0x08
      case SessionMismatch => 0x09
      case DeviceMismatch => 0x0A
      case PcMismatch => 0x0B
      case MalformedSignature => 0x0C
      case CryptoError => 0x0D
      case BiometricRequired => 0x0E
      case BiometricFailed => 0x0F
      case KeyInvalidated => 0x10
    }
  }

  datatype AuthPayload = AuthPayload(
    domain: Uuid, protocolVersion: Uint16, algorithmId: Uint16, deviceId: Uuid, sessionId: Uuid,
    pcId: Uuid, challenge: Nonce, expirationTimestampMs: Uint64)

  // ----- encoding

  function Preamble(p: AuthPayload): (s: seq<Byte>)
    ensures |s| == 20
  {
    p.domain + PutNat(p.protocolVersion, 2) + PutNat(p.algorithmId, 2)
  }

  function Encode(p: AuthPayload): (s: seq<Byte>)
    ensures |s| == CANONICAL_PAYLOAD_SIZE
  {
    Preamble(p) + p.deviceId + p.sessionId + p.pcId + p.challenge + PutNat(p.expirationTimestampMs, 8)
  }

  /** v >> 8 * i */
  function ShiftRight(v: nat, i: nat): nat
    decreases i, v
  {
    if i == 0 then v else ShiftRight(v, i - 1) / 256
  }

  /** The timestamp, its most significant byte first. */
  method PutTimestamp(buffer: array<Byte>, offset: nat, v: Uint64)
    requires offset + 8 <= buffer.Length
    modifies buffer
    ensures buffer[..offset + 8] == old(buffer[..offset]) + PutNat(v, 8)
  {
    ghost var before := buffer[..offset];
    for i := 8 downto 0
      invariant buffer[..offset + (8 - i)] == before + PutNat(ShiftRight(v, i), 8 - i)
    {
      ghost var written := buffer[..offset + (7 - i)];
      buffer[offset + (7 - i)] := ShiftRight(v, i) % 256;
      assert buffer[..offset + (8 - i)] == written + [ShiftRight(v, i) % 256];
      assert PutNat(ShiftRight(v, i), 8 - i) == PutNat(ShiftRight(v, i + 1), 7 - i) + [ShiftRight(v, i) % 256];
    }
  }

  method Serialize(p: AuthPayload) returns (buffer: array<Byte>)
    ensures fresh(buffer) && buffer[..] == Encode(p)
  {
    buffer := new Byte[CANONICAL_PAYLOAD_SIZE](_ => 0);
    var offset := 0;
    Copy(buffer, offset, p.domain);
    offset := offset + DOMAIN_SIZE;
    SplitShort(p.protocolVersion);
    Copy(buffer, offset, [p.protocolVersion / 256 % 256, p.protocolVersion % 256]);
    offset := offset + 2;
    SplitShort(p.algorithmId);
    Copy(buffer, offset, [p.algorithmId / 256 % 256, p.algorithmId % 256]);
    offset := offset + 2;
    assert buffer[..offset] == Preamble(p);
    Copy(buffer, offset, p.deviceId);
    offset := offset + UUID_SIZE;
    Copy(buffer, offset, p.sessionId);
    offset := offset + UUID_SIZE;
    Copy(buffer, offset, p.pcId);
    offset := offset + UUID_SIZE;
    Copy(buffer, offset, p.challenge);
    offset := offset + CHALLENGE_SIZE;
    PutTimestamp(buffer, offset, p.expirationTimestampMs);
    assert buffer[..] == buffer[..108];
  }

  lemma {:induction false} SplitShort(v: Uint16)
    ensures PutNat(v, 2) == [v / 256 % 256, v % 256]
    ensures GetNat(PutNat(v, 2)) == v
  {
    assert PutNat(v / 256, 1) == PutNat(v / 256 / 256, 0) + [v / 256 % 256];
    assert Radix(1) == 256 && Radix(2) == 0x1_0000;
    GetPut(v, 2);
  }

  // ----- decoding

  /** The checks of the parser, in their order. */
  function Decode(data: seq<Byte>): (r: Result<AuthPayload, ErrorCode>) {
    if |data| != CANONICAL_PAYLOAD_SIZE then Err(InvalidRequest)
    else if data[..16] != DOMAIN_PREFIX then Err(InvalidRequest)
    else if GetNat(data[16..18]) != CURRENT_PROTOCOL_VERSION then Err(InvalidProtocolVersion)
    else if GetNat(data[18..20]) != ALGORITHM_ECDSA_P256_SHA256 then Err(InvalidAlgorithm)
    else Ok(AuthPayload(data[..16], CURRENT_PROTOCOL_VERSION, ALGORITHM_ECDSA_P256_SHA256, data[20..36], data[36..52],
                        data[52..68], data[68..100], Timestamp(data[100..108])))
  }

  function Timestamp(s: seq<Byte>): (v: Uint64)
    requires |s| == 8
    ensures v == GetNat(s)
  {
    PutGet(s);
    Radix8();
    GetNat(s)
  }

  lemma {:induction false} Radix8()
    ensures Radix(8) == 0x1_0000_0000_0000_0000
  {
    assert Radix(2) == 0x1_0000 && Radix(4) == 0x1_0000_0000 && Radix(6) == 0x1_0000_0000_0000;
  }

  method GetShort(data: seq<Byte>, offset: nat) returns (v: nat)
    requires offset + 2 <= |data|
    ensures v == GetNat(data[offset..offset + 2])
  {
    v := data[offset] as int * 0x100 + data[offset + 1];
    var s := data[offset..offset + 2];
    assert s[..1][..0] == [] && GetNat(s[..1]) == s[0];
  }

  method GetTimestamp(data: seq<Byte>, offset: nat) returns (v: Uint64)
    requires offset + 8 <= |data|
    ensures v == GetNat(data[offset..offset + 8])
  {
    var t: nat := 0;
    for i := 0 to 8
      invariant t == GetNat(data[offset..offset + i])
    {
      assert data[offset..offset + (i + 1)][..i] == data[offset..offset + i];
      t := t * 256 + data[offset + i];
    }
    v := Timestamp(data[offset..offset + 8]);
  }

  method Deserialize(data: seq<Byte>) returns (r: Result<AuthPayload, ErrorCode>)
    ensures r == Decode(data)
  {
    if |data| != CANONICAL_PAYLOAD_SIZE {
      return Err(InvalidRequest);
    }
    var domain := data[..DOMAIN_SIZE];
    if domain != DOMAIN_PREFIX {
      return Err(InvalidRequest);
    }
    var protocolVersion := GetShort(data, 16);
    if protocolVersion != CURRENT_PROTOCOL_VERSION {
      return Err(InvalidProtocolVersion);
    }
    var algorithmId := GetShort(data, 18);
    if algorithmId != ALGORITHM_ECDSA_P256_SHA256 {
      return Err(InvalidAlgorithm);
    }
    var expirationTimestampMs := GetTimestamp(data, 100);
    r := Ok(AuthPayload(domain, protocolVersion, algorithmId, data[20..36], data[36..52],
                        data[52..68], data[68..100], expirationTimestampMs));
  }

  /** The numbers of the outcomes, from 0 on in this order. */
  lemma {:induction false} ErrorNumbers(e: ErrorCode)
    ensures var all := [Success, InvalidRequest, InvalidProtocolVersion, InvalidAlgorithm, UnknownDevice,
                        InvalidSignature, ChallengeNotFound, ChallengeExpired, ChallengeAlreadyConsumed,
                        SessionMismatch, DeviceMismatch, PcMismatch, MalformedSignature, CryptoError,
                        BiometricRequired, BiometricFailed, KeyInvalidated];
      e.Code() < |all| && all[e.Code()] == e
  {
  }

  lemma {:induction false} DomainText()
    ensures |DOMAIN_PREFIX| == 16
    ensures forall i :: 0 <= i < 16 ==> DOMAIN_PREFIX[i] == "PhoneKey-Auth-v1"[i] as int
  {
  }

  lemma {:induction false} ShortField(s: seq<Byte>)
    requires |s| == 2
    ensures GetNat(s) == 256 * s[0] as int + s[1]
  {
    assert s[..1][..0] == [] && GetNat(s[..1]) == s[0];
  }

  /** What 108 bytes have to be like to be accepted, and why others are refused. */
  lemma {:induction false} DecodeRefuses(data: seq<Byte>)
    ensures var sized := |data| == 108;
      var domain := sized && forall i :: 0 <= i < 16 ==> data[i] == "PhoneKey-Auth-v1"[i] as int;
      var version := domain && data[16] == 1 && data[17] == 0;
      && (Decode(data) == Err(InvalidRequest) <==> !domain)
      && (Decode(data) == Err(InvalidProtocolVersion) <==> domain && !version)
      && (Decode(data) == Err(InvalidAlgorithm) <==> version && !(data[18] == 0 && data[19] == 1))
      && (Decode(data).Ok? <==> version && data[18] == 0 && data[19] == 1)
  {
    if |data| == 108 {
      DomainText();
      ShortField(data[16..18]);
      ShortField(data[18..20]);
      assert forall i :: 0 <= i < 16 ==> data[..16][i] == data[i];
    }
  }

  lemma {:induction false} DecodedFields(data: seq<Byte>)
    requires Decode(data).Ok?
    ensures var p := Decode(data).value;
      && |data| == 108 && p.domain == data[..16]
      && p.protocolVersion == 0x0100 && p.algorithmId == 0x0001 && p.deviceId == data[20..36]
      && p.sessionId == data[36..52] && p.pcId == data[52..68] && p.challenge == data[68..100]
      && p.expirationTimestampMs == GetNat(data[100..108])
  {
  }

  // ----- encoder and decoder are inverse to each other

  lemma {:induction false} EncodedFields(p: AuthPayload)
    ensures var d := Encode(p);
      && d[..16] == p.domain && d[16..18] == PutNat(p.protocolVersion, 2) && d[18..20] == PutNat(p.algorithmId, 2)
      && d[20..36] == p.deviceId && d[36..52] == p.sessionId && d[52..68] == p.pcId && d[68..100] == p.challenge
      && d[100..108] == PutNat(p.expirationTimestampMs, 8)
  {
    var d := Encode(p);
    assert d[..20] == Preamble(p);
    assert d[..16] == d[..20][..16] && d[16..18] == d[..20][16..18] && d[18..20] == d[..20][18..20];
  }

  lemma {:induction false} DecodeEncode(p: AuthPayload)
    ensures Decode(Encode(p)) ==
      if p.domain != DOMAIN_PREFIX then Err(InvalidRequest)
      else if p.protocolVersion != CURRENT_PROTOCOL_VERSION then Err(InvalidProtocolVersion)
      else if p.algorithmId != ALGORITHM_ECDSA_P256_SHA256 then Err(InvalidAlgorithm)
      else Ok(p)
  {
    EncodedFields(p);
    SplitShort(p.protocolVersion);
    SplitShort(p.algorithmId);
    Radix8();
    GetPut(p.expirationTimestampMs, 8);
  }

  /** The decoder accepts exactly the encodings of payloads of this protocol, and returns that payload. */
  lemma {:induction false} DecodeAccepts(data: seq<Byte>, p: AuthPayload)
    ensures Decode(data) == Ok(p) <==>
      && Encode(p) == data
      && p.domain == DOMAIN_PREFIX
      && p.protocolVersion == CURRENT_PROTOCOL_VERSION
      && p.algorithmId == ALGORITHM_ECDSA_P256_SHA256
  {
    DecodeEncode(p);
    if Decode(data) == Ok(p) {
      PutGet(data[16..18]);
      PutGet(data[18..20]);
      PutGet(data[100..108]);
      assert data[..20] == Preamble(p);
      Fields(data);
    }
  }

  lemma {:induction false} Fields(data: seq<Byte>)
    requires |data| == CANONICAL_PAYLOAD_SIZE
    ensures data == data[..20] + data[20..36] + data[36..52] + data[52..68] + data[68..100] + data[100..108]
  {
  }
}
