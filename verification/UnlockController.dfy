/** The phone's side of an unlock: it reads the request, has it signed, and sends the response. */
module UnlockController {
  import opened Bytes
  import opened JavaNio
  import opened PhoneProtocol
  import opened Protocol

  /** The private key and the biometric prompt: a signature over the bytes, or none. */
  type Signer = seq<Byte> -> Option<seq<Byte>>

  datatype Failure = MalformedRequest | ReceivedExpired | NoPrivateKey | NotAuthorized | SendFailed

  /** Thrown is the exception of encode, which nothing here catches. */
  datatype Reply = Failed(failure: Failure) | Thrown | Response(payload: seq<Byte>)

  /** The payload that the phone constructs from a request of at least 80 bytes. */
  function PayloadFor(deviceId: seq<Byte>, request: seq<Byte>): PhonePayload
    requires |request| >= 80
  {
    PhonePayload(DOMAIN_PREFIX, CURRENT_PROTOCOL_VERSION, ALGORITHM_ECDSA_P256_SHA256, deviceId,
                 request[..16], request[16..32], request[32..64], GetLong(request[72..80]))
  }

  /** The PC id of the request is signed but not compared with anything; the creation time is not used. */
  function Respond(deviceId: seq<Byte>, request: seq<Byte>, now: Int64, hasKey: bool, sign: Signer): Reply {
    if |request| < 80 then Failed(MalformedRequest)
    else if now > GetLong(request[72..80]) then Failed(ReceivedExpired)
    else if !hasKey then Failed(NoPrivateKey)
    else
      match PhoneEncode(PayloadFor(deviceId, request))
      case None => Thrown
      case Some(canonical) =>
        match sign(canonical)
        case None => Failed(NotAuthorized)
        case Some(signature) => Response(canonical + signature)
  }

  /** The request that the phone can answer, and what it signs: the domain, version and algorithm, and its own id. */
  predicate Answerable(deviceId: seq<Byte>, request: seq<Byte>, now: Int64, hasKey: bool) {
    |request| >= 80 && now <= GetSigned(request[72..80]) && hasKey && |deviceId| == 16
  }

  function ToSign(deviceId: seq<Byte>, request: seq<Byte>): seq<Byte>
    requires |request| >= 80
  {
    [0x50, 0x68, 0x6F, 0x6E, 0x65, 0x4B, 0x65, 0x79, 0x2D, 0x41, 0x75, 0x74, 0x68, 0x2D, 0x76, 0x31]
    + [0x01, 0x00, 0x00, 0x01] + deviceId + request[..64] + request[72..80]
  }

  lemma {:induction false} SignsThis(deviceId: seq<Byte>, request: seq<Byte>)
    requires |request| >= 80
    ensures PhoneEncode(PayloadFor(deviceId, request))
         == if |deviceId| == 16 then Some(ToSign(deviceId, request)) else None
  {
    var p := PayloadFor(deviceId, request);
    if |deviceId| == 16 {
      PreambleBytes(p);
      LastField(request[72..80]);
      var head := PhonePreamble(p) + deviceId;
      assert head + request[..16] + request[16..32] + request[32..64] == head + request[..64];
    }
  }

  lemma {:induction false} LastField(field: seq<Byte>)
    requires |field| == 8
    ensures PutSigned(GetLong(field), 8) == field
  {
    Radices();
    PutGetSigned(0, field, 8);
  }

  lemma {:induction false} PreambleBytes(p: PhonePayload)
    requires p.domain == DOMAIN_PREFIX && p.protocolVersion == CURRENT_PROTOCOL_VERSION
    requires p.algorithmId == ALGORITHM_ECDSA_P256_SHA256
    ensures PhonePreamble(p)
         == [0x50, 0x68, 0x6F, 0x6E, 0x65, 0x4B, 0x65, 0x79, 0x2D, 0x41, 0x75, 0x74, 0x68, 0x2D, 0x76, 0x31]
          + [0x01, 0x00, 0x00, 0x01]
  {
    Radices();
    SplitShort(0x0100);
    SplitShort(0x0001);
    assert PutSigned(p.protocolVersion, 2) == [0x01, 0x00] && PutSigned(p.algorithmId, 2) == [0x00, 0x01];
  }

  /**
   * Each reply exactly when those before it do not apply; and a response is the bytes to sign followed by what the
   * signer makes of them.
   */
  lemma {:induction false} EachReply(deviceId: seq<Byte>, request: seq<Byte>, now: Int64, hasKey: bool, sign: Signer)
    ensures var r := Respond(deviceId, request, now, hasKey, sign);
      && (r == Failed(MalformedRequest) <==> |request| < 80)
      && (r == Failed(ReceivedExpired) <==> |request| >= 80 && now > GetSigned(request[72..80]))
      && (r == Failed(NoPrivateKey) <==> |request| >= 80 && now <= GetSigned(request[72..80]) && !hasKey)
      && (r == Thrown <==> |request| >= 80 && now <= GetSigned(request[72..80]) && hasKey && |deviceId| != 16)
      && (r == Failed(NotAuthorized) <==>
            Answerable(deviceId, request, now, hasKey) && sign(ToSign(deviceId, request)) == None)
      && (r.Response? <==> Answerable(deviceId, request, now, hasKey) && sign(ToSign(deviceId, request)).Some?)
      && (r.Response? ==>
            r.payload == ToSign(deviceId, request) + sign(ToSign(deviceId, request)).value)
  {
    if |request| >= 80 {
      SignsThis(deviceId, request);
    }
  }

  class UnlockController {
    const deviceId: seq<Byte>
    /** Payloads handed to the transport as UNLOCK_RESP, and failures reported. */
    var sent: seq<seq<Byte>>
    var failures: seq<Failure>

    constructor (deviceId: seq<Byte>)
      ensures this.deviceId == deviceId && sent == [] && failures == []
    {
      this.deviceId := deviceId;
      sent := [];
      failures := [];
    }

    /** sendOk is what the transport returns for the response. */
    method HandleUnlockRequest(payload: seq<Byte>, nowMs: Int64, hasKey: bool, sign: Signer, sendOk: bool)
      returns (thrown: bool)
      modifies this
      ensures thrown == Respond(deviceId, payload, nowMs, hasKey, sign).Thrown?
      ensures match Respond(deviceId, payload, nowMs, hasKey, sign)
              case Failed(f) => sent == old(sent) && failures == old(failures) + [f]
              case Thrown => sent == old(sent) && failures == old(failures)
              case Response(p) =>
                sent == old(sent) + [p] && failures == if sendOk then old(failures) else old(failures) + [SendFailed]
      ensures sent != old(sent) <==>
        && |payload| >= 80 && nowMs <= GetSigned(payload[72..80]) && hasKey && |deviceId| == 16
        && sign(ToSign(deviceId, payload)).Some?
    {
      EachReply(deviceId, payload, nowMs, hasKey, sign);
      if |payload| < 80 {
        failures := failures + [MalformedRequest];
        return false;
      }
      var buffer := new ByteBuffer.Wrap(payload);
      var sessionId := buffer.Get(16);
      var pcId := buffer.Get(16);
      var challenge := buffer.Get(32);
      var createdTime := buffer.GetInteger(8);
      var expireTime := buffer.GetInteger(8);
      Radices();
      assert sessionId == payload[..16];
      if nowMs > expireTime {
        failures := failures + [ReceivedExpired];
        return false;
      }
      if !hasKey {
        failures := failures + [NoPrivateKey];
        return false;
      }
      var authPayload := PhonePayload(DOMAIN_PREFIX, CURRENT_PROTOCOL_VERSION, ALGORITHM_ECDSA_P256_SHA256,
                                      deviceId, sessionId, pcId, challenge, expireTime);
      assert authPayload == PayloadFor(deviceId, payload);
      var canonicalBytes := EncodePayload(authPayload);
      if canonicalBytes == None {
        return true;
      }
      var signature := sign(canonicalBytes.value);
      if signature == None {
        failures := failures + [NotAuthorized];
        return false;
      }
      sent := sent + [canonicalBytes.value + signature.value];
      if !sendOk {
        failures := failures + [SendFailed];
      }
      return false;
    }
  }
}
