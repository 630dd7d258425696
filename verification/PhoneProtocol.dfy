/** The phone's ProtocolEncoder and ProtocolValidator, and where they agree with the agent's AuthPayload. */
module PhoneProtocol {
  import opened Bytes
  import opened JavaNio
  import opened Protocol

  /** The sizes of the arrays are not part of their types. */
  datatype PhonePayload = PhonePayload(
    domain: seq<Byte>, protocolVersion: Int16, algorithmId: Int16, deviceId: seq<Byte>, sessionId: seq<Byte>,
    pcId: seq<Byte>, challenge: seq<Byte>, expirationTimestampMs: Int64)

  /** What encode requires of its argument; it throws otherwise. */
  predicate WellSized(p: PhonePayload) {
    |p.deviceId| == 16 && |p.sessionId| == 16 && |p.pcId| == 16 && |p.challenge| == 32
  }

  /** The domain, cut or filled up with zeros to 16 bytes. */
  function DomainFixed(domain: seq<Byte>): (s: seq<Byte>)
    ensures |s| == 16
  {
    if |domain| >= 16 then domain[..16] else domain + Zeroes(16 - |domain|)
  }

  function PhonePreamble(p: PhonePayload): (s: seq<Byte>)
    ensures |s| == 20
  {
    Radices();
    DomainFixed(p.domain) + PutSigned(p.protocolVersion, 2) + PutSigned(p.algorithmId, 2)
  }

  /** None stands for the IllegalArgumentException. */
  function PhoneEncode(p: PhonePayload): (r: Option<seq<Byte>>) {
    if !WellSized(p) then None
    else
      Radices();
      Some(PhonePreamble(p) + p.deviceId + p.sessionId + p.pcId + p.challenge + PutSigned(p.expirationTimestampMs, 8))
  }

  method PutPreamble(buffer: ByteBuffer, payload: PhonePayload)
    requires buffer.position == 0 && |buffer.content| == CANONICAL_PAYLOAD_SIZE
    modifies buffer
    ensures buffer.position == 20 && |buffer.content| == CANONICAL_PAYLOAD_SIZE
    ensures buffer.content[..20] == PhonePreamble(payload)
  {
    Radices();
    var n := if |payload.domain| < 16 then |payload.domain| else 16;
    var domainFixed := payload.domain[..n] + Zeroes(16)[n..];
    assert domainFixed == DomainFixed(payload.domain);
    buffer.Put(domainFixed);
    assert buffer.content[..16] == domainFixed;
    buffer.PutInteger(payload.protocolVersion, 2);
    buffer.PutInteger(payload.algorithmId, 2);
  }

  method EncodePayload(payload: PhonePayload) returns (r: Option<seq<Byte>>)
    ensures r == PhoneEncode(payload)
  {
    if |payload.deviceId| != 16 || |payload.sessionId| != 16 || |payload.pcId| != 16 || |payload.challenge| != 32 {
      return None;
    }
    var buffer := new ByteBuffer.Allocate(CANONICAL_PAYLOAD_SIZE);
    PutPreamble(buffer, payload);
    buffer.Put(payload.deviceId);
    buffer.Put(payload.sessionId);
    buffer.Put(payload.pcId);
    buffer.Put(payload.challenge);
    Radices();
    buffer.PutInteger(payload.expirationTimestampMs, 8);
    assert buffer.content[..108] == buffer.content;
    r := Some(buffer.content);
  }

  function GetShort(s: seq<Byte>): (v: Int16)
    requires |s| == 2
    ensures v == GetSigned(s)
  {
    Radices();
    PutGetSigned(0, s, 2);
    GetSigned(s)
  }

  function GetLong(s: seq<Byte>): (v: Int64)
    requires |s| == 8
    ensures v == GetSigned(s)
  {
    Radices();
    PutGetSigned(0, s, 8);
    GetSigned(s)
  }

  function PhoneDecode(bytes: seq<Byte>): (r: Option<PhonePayload>) {
    if |bytes| != CANONICAL_PAYLOAD_SIZE then None
    else Some(PhonePayload(bytes[..16], GetShort(bytes[16..18]), GetShort(bytes[18..20]), bytes[20..36], bytes[36..52],
                           bytes[52..68], bytes[68..100], GetLong(bytes[100..108])))
  }

  method DecodePayload(bytes: seq<Byte>) returns (r: Option<PhonePayload>)
    ensures r == PhoneDecode(bytes)
  {
    if |bytes| != CANONICAL_PAYLOAD_SIZE {
      return None;
    }
    var buffer := new ByteBuffer.Wrap(bytes);
    var domain := buffer.Get(16);
    var version := buffer.GetInteger(2);
    var algorithm := buffer.GetInteger(2);
    var deviceId := buffer.Get(16);
    var sessionId := buffer.Get(16);
    var pcId := buffer.Get(16);
    var challenge := buffer.Get(32);
    var expiration := buffer.GetInteger(8);
    Radices();
    assert domain == bytes[..16];
    r := Some(PhonePayload(domain, version, algorithm, deviceId, sessionId, pcId, challenge, expiration));
  }

  // ----- agreement with the agent

  /** A payload of the agent in Kotlin's types. */
  function ToPhone(p: AuthPayload): (k: PhonePayload)
    ensures WellSized(k)
  {
    Radices();
    PhonePayload(p.domain, Signed(p.protocolVersion, 2), Signed(p.algorithmId, 2), p.deviceId, p.sessionId,
                 p.pcId, p.challenge, Signed64(p.expirationTimestampMs))
  }

  lemma {:induction false} SignedBits(u: nat, k: nat)
    requires u < Radix(k)
    ensures Fits(Signed(u, k), k) && PutSigned(Signed(u, k), k) == PutNat(u, k)
  {
    SignedUnsigned(0, u, k);
  }

  /** Both sides sign and verify the same bytes. */
  lemma {:induction false} EncodersAgree(p: AuthPayload)
    ensures PhoneEncode(ToPhone(p)) == Some(Encode(p))
  {
    Radices();
    SignedBits(p.protocolVersion, 2);
    SignedBits(p.algorithmId, 2);
    SignedBits(p.expirationTimestampMs, 8);
    assert PhonePreamble(ToPhone(p)) == Preamble(p);
  }

  /** Every 108 bytes are what the phone prints for what it reads. */
  lemma {:induction false} EncodeDecode(bytes: seq<Byte>)
    ensures PhoneDecode(bytes).Some? ==> PhoneEncode(PhoneDecode(bytes).value) == Some(bytes)
    ensures PhoneDecode(bytes).Some? <==> |bytes| == CANONICAL_PAYLOAD_SIZE
  {
    if |bytes| == CANONICAL_PAYLOAD_SIZE {
      Radices();
      PutGetSigned(0, bytes[16..18], 2);
      PutGetSigned(0, bytes[18..20], 2);
      PutGetSigned(0, bytes[100..108], 8);
      assert PhonePreamble(PhoneDecode(bytes).value) == bytes[..20];
      Fields(bytes);
    }
  }

  lemma {:induction false} EncodedFields(p: PhonePayload)
    requires WellSized(p)
    ensures Fits(p.protocolVersion, 2) && Fits(p.algorithmId, 2) && Fits(p.expirationTimestampMs, 8)
    ensures var d := PhoneEncode(p).value;
      && |d| == CANONICAL_PAYLOAD_SIZE && d[..16] == DomainFixed(p.domain)
      && d[16..18] == PutSigned(p.protocolVersion, 2) && d[18..20] == PutSigned(p.algorithmId, 2)
      && d[20..36] == p.deviceId && d[36..52] == p.sessionId && d[52..68] == p.pcId && d[68..100] == p.challenge
      && d[100..108] == PutSigned(p.expirationTimestampMs, 8)
  {
    Radices();
    var d, t, h := PhoneEncode(p).value, PutSigned(p.expirationTimestampMs, 8), PhonePreamble(p);
    assert d == h + p.deviceId + p.sessionId + p.pcId + p.challenge + t;
    assert d[..16] == h[..16] && d[16..18] == h[16..18] && d[18..20] == h[18..20];
  }

  /** What encode throws at, and the bytes it returns otherwise. */
  lemma {:induction false} EncodedBytes(p: PhonePayload)
    ensures PhoneEncode(p) == None <==>
      !(|p.deviceId| == 16 && |p.sessionId| == 16 && |p.pcId| == 16 && |p.challenge| == 32)
    ensures PhoneEncode(p).Some? ==>
      var d := PhoneEncode(p).value;
      && |d| == 108 && (forall i :: 0 <= i < 16 ==> d[i] == if i < |p.domain| then p.domain[i] else 0)
      && GetSigned(d[16..18]) == p.protocolVersion && GetSigned(d[18..20]) == p.algorithmId
      && d[20..] == p.deviceId + p.sessionId + p.pcId + p.challenge + d[100..108]
      && GetSigned(d[100..108]) == p.expirationTimestampMs
  {
    if WellSized(p) {
      EncodedFields(p);
      PutGetSigned(p.protocolVersion, Zeroes(2), 2);
      PutGetSigned(p.algorithmId, Zeroes(2), 2);
      PutGetSigned(p.expirationTimestampMs, Zeroes(8), 8);
      var d := PhoneEncode(p).value;
      assert forall i :: 0 <= i < 16 ==> d[i] == d[..16][i];
      assert d[20..] == d[20..36] + d[36..52] + d[52..68] + d[68..100] + d[100..108];
    }
  }

  /** A payload comes back as it was exactly when its domain field has its full size. */
  lemma {:induction false} DecodeEncode(p: PhonePayload)
    requires WellSized(p)
    ensures PhoneDecode(PhoneEncode(p).value) == Some(p.(domain := DomainFixed(p.domain)))
    ensures PhoneDecode(PhoneEncode(p).value) == Some(p) <==> |p.domain| == 16
  {
    EncodedFields(p);
    PutGetSigned(p.protocolVersion, Zeroes(2), 2);
    PutGetSigned(p.algorithmId, Zeroes(2), 2);
    PutGetSigned(p.expirationTimestampMs, Zeroes(8), 8);
    assert |p.domain| == 16 ==> DomainFixed(p.domain) == p.domain;
    var q := p.(domain := DomainFixed(p.domain));
    assert q == p <==> q.domain == p.domain;
  }

  // ----- the validator

  datatype Verdict = Valid | Invalid(error: ErrorCode) | Expired

  /** None stands for the exception of an array index, which a short domain can cause. */
  method Validate(payload: PhonePayload, currentTimeMs: Int64) returns (r: Option<Verdict>)
    ensures r == Validated(payload, currentTimeMs)
  {
    var i := 0;
    while i < |DOMAIN_PREFIX|
      invariant i <= |DOMAIN_PREFIX| && i <= |payload.domain|
      invariant forall j :: 0 <= j < i ==> payload.domain[j] == DOMAIN_PREFIX[j]
    {
      if i >= |payload.domain| {
        return None;
      }
      if payload.domain[i] != DOMAIN_PREFIX[i] {
        return Some(Invalid(InvalidRequest));
      }
      i := i + 1;
    }
    if payload.protocolVersion != CURRENT_PROTOCOL_VERSION {
      return Some(Invalid(InvalidProtocolVersion));
    }
    if payload.algorithmId != ALGORITHM_ECDSA_P256_SHA256 {
      return Some(Invalid(InvalidAlgorithm));
    }
    if currentTimeMs > payload.expirationTimestampMs {
      return Some(Expired);
    }
    return Some(Valid);
  }

  /** Only a domain that is a proper prefix of the expected one runs off its end. */
  function Validated(p: PhonePayload, now: Int64): (r: Option<Verdict>) {
    if p.domain < DOMAIN_PREFIX then None
    else if !(DOMAIN_PREFIX <= p.domain) then Some(Invalid(InvalidRequest))
    else if p.protocolVersion != CURRENT_PROTOCOL_VERSION then Some(Invalid(InvalidProtocolVersion))
    else if p.algorithmId != ALGORITHM_ECDSA_P256_SHA256 then Some(Invalid(InvalidAlgorithm))
    else Some(if now > p.expirationTimestampMs then Expired else Valid)
  }

  /** On 108 bytes the phone's validator and the agent's decoder agree; only the phone looks at the time. */
  lemma {:induction false} ValidatorsAgree(bytes: seq<Byte>, now: Int64)
    requires |bytes| == CANONICAL_PAYLOAD_SIZE
    ensures Validated(PhoneDecode(bytes).value, now) ==
      match Decode(bytes)
      case Err(e) => Some(Invalid(e))
      case Ok(p) => Some(if now > Signed64(p.expirationTimestampMs) then Expired else Valid)
  {
    Radices();
    PutGet(bytes[16..18]);
    PutGet(bytes[18..20]);
  }

  /** Each verdict exactly when those before it do not apply. */
  lemma {:induction false} WhenValidated(p: PhonePayload, now: Int64)
    ensures
      var short := |p.domain| < 16 && forall i :: 0 <= i < |p.domain| ==> p.domain[i] == "PhoneKey-Auth-v1"[i] as int;
      var domain := |p.domain| >= 16 && forall i :: 0 <= i < 16 ==> p.domain[i] == "PhoneKey-Auth-v1"[i] as int;
      var r, version := Validated(p, now), domain && p.protocolVersion == 0x0100;
      var algorithm := version && p.algorithmId == 0x0001;
      && (r == None <==> short)
      && (r == Some(Invalid(InvalidRequest)) <==> !short && !domain)
      && (r == Some(Invalid(InvalidProtocolVersion)) <==> domain && !version)
      && (r == Some(Invalid(InvalidAlgorithm)) <==> version && !algorithm)
      && (r == Some(Expired) <==> algorithm && now > p.expirationTimestampMs)
      && (r == Some(Valid) <==> algorithm && now <= p.expirationTimestampMs)
  {
    DomainText();
  }
}
