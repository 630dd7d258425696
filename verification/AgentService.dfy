/** AgentService over its store, its registry and its transport. */
module AgentService {
  import opened Bytes
  import opened Challenges
  import opened ChallengeStore
  import opened Channel
  import opened DerSignature
  import opened DeviceRegistry
  import opened FrameProtocol
  import opened PhoneReceiver
  import opened Protocol
  import opened TcpTransport
  import opened UnlockProtocol

  // ----- the unlock request

  /** Session | PC | challenge | created | expires */
  function Request(rec: ChallengeRecord): (s: seq<Byte>)
    ensures |s| == 80
  {
    rec.sessionId + rec.pcId + rec.challenge + PutNat(rec.creationTimestampMs, 8) + PutNat(rec.expirationTimestampMs, 8)
  }

  lemma {:induction false} RequestLayout(rec: ChallengeRecord)
    ensures var q := Request(rec);
      && q[..16] == rec.sessionId && q[16..32] == rec.pcId && q[32..64] == rec.challenge
      && GetNat(q[64..72]) == rec.creationTimestampMs && GetNat(q[72..80]) == rec.expirationTimestampMs
  {
    var q := Request(rec);
    assert q[64..72] == PutNat(rec.creationTimestampMs, 8) && q[72..80] == PutNat(rec.expirationTimestampMs, 8);
    Radix8();
    GetPut(rec.creationTimestampMs, 8);
    GetPut(rec.expirationTimestampMs, 8);
  }

  /** One loop writes both timestamps, byte by byte. */
  method PutTimestamps(payload: array<Byte>, created: Uint64, expires: Uint64)
    requires payload.Length == 80
    modifies payload
    ensures payload[..] == old(payload[..64]) + PutNat(created, 8) + PutNat(expires, 8)
  {
    ghost var head := payload[..64];
    for i := 8 downto 0
      invariant payload[..64] == head
      invariant payload[64..64 + (8 - i)] == PutNat(ShiftRight(created, i), 8 - i)
      invariant payload[72..72 + (8 - i)] == PutNat(ShiftRight(expires, i), 8 - i)
    {
      ghost var c, e := payload[64..64 + (7 - i)], payload[72..72 + (7 - i)];
      payload[64 + (7 - i)] := ShiftRight(created, i) % 256;
      payload[72 + (7 - i)] := ShiftRight(expires, i) % 256;
      assert payload[64..64 + (8 - i)] == c + [ShiftRight(created, i) % 256];
      assert payload[72..72 + (8 - i)] == e + [ShiftRight(expires, i) % 256];
    }
    assert payload[..] == payload[..64] + payload[64..72] + payload[72..80];
  }

  method BuildRequest(record: ChallengeRecord) returns (payload: seq<Byte>)
    ensures payload == Request(record)
    ensures payload[..16] == record.sessionId && payload[16..32] == record.pcId && payload[32..64] == record.challenge
    ensures GetNat(payload[64..72]) == record.creationTimestampMs
    ensures GetNat(payload[72..80]) == record.expirationTimestampMs
  {
    var buffer := new Byte[80](_ => 0);
    Copy(buffer, 0, record.sessionId);
    Copy(buffer, 16, record.pcId);
    Copy(buffer, 32, record.challenge);
    PutTimestamps(buffer, record.creationTimestampMs, record.expirationTimestampMs);
    payload := buffer[..];
    assert payload == Request(record);
    RequestLayout(record);
  }

  // ----- the signature

  /** SHA-256 and ECDSA verification of a 64-byte signature over a message. */
  type Ecdsa = (PublicKey, seq<Byte>, seq<Byte>) -> bool

  /** A signature is one of a message if it has a raw form that verifies. */
  function SignatureCheck(ecdsa: Ecdsa): Verifier {
    (key, message, signature) =>
      var raw := RawSignature(signature); raw.Some? && ecdsa(key, message, raw.value)
  }

  /**
   * What ECDSA is asked, and that its answer is the outcome: 64 bytes as they are, anything else if it converts. In
   * particular the DER form of two integers stands for the two as 32-byte numbers, unless it has 64 bytes.
   */
  ghost predicate AskedOf(ecdsa: Ecdsa, key: PublicKey, message: seq<Byte>, signature: seq<Byte>, valid: bool) {
    && (|signature| == 64 ==> valid == ecdsa(key, message, signature))
    && (|signature| != 64 ==>
          valid == (Converted(signature).Some? && ecdsa(key, message, Converted(signature).value)))
    && forall a: nat, b: nat {:trigger Der(a, b)} ::
         a < Radix(32) && b < Radix(32) && signature == Der(a, b) && Width(a) + Width(b) != 58 ==>
           valid == ecdsa(key, message, PutNat(a, 32) + PutNat(b, 32))
  }

  lemma {:induction false} AsksEcdsa(ecdsa: Ecdsa, key: PublicKey, message: seq<Byte>, signature: seq<Byte>)
    ensures AskedOf(ecdsa, key, message, signature, SignatureCheck(ecdsa)(key, message, signature))
  {
    var valid, raw := SignatureCheck(ecdsa)(key, message, signature), RawSignature(signature);
    assert valid == (raw.Some? && ecdsa(key, message, raw.value));
    forall a: nat, b: nat {:trigger Der(a, b)}
      | a < Radix(32) && b < Radix(32) && signature == Der(a, b) && Width(a) + Width(b) != 58
      ensures valid == ecdsa(key, message, PutNat(a, 32) + PutNat(b, 32))
    {
      DispatchIsRight(a, b);
    }
  }

  /**
   * CryptoEngine::VerifySignature. Under a handle that is not live the platform's verification has no defined
   * outcome; stray stands for it.
   */
  method VerifySignature(ecdsa: Ecdsa, cng: Cng, hKey: Handle, payloadData: seq<Byte>, signatureData: seq<Byte>,
                         beyond: Byte, stray: bool)
    returns (valid: bool)
    ensures valid ==
      (RawSignature(signatureData).Some?
       && Accepts(SignatureCheck(ecdsa), cng.keys, hKey, payloadData, signatureData, stray))
    ensures hKey == 0 || payloadData == [] || signatureData == [] ==> !valid
    ensures hKey != 0 && hKey in cng.keys && payloadData != [] ==>
      AskedOf(ecdsa, cng.keys[hKey], payloadData, signatureData, valid)
  {
    AsksEcdsa(ecdsa, if hKey in cng.keys then cng.keys[hKey] else [], payloadData, signatureData);
    if hKey == 0 || |payloadData| == 0 || |signatureData| == 0 {
      return false;
    }
    var rawRs := signatureData;
    if |signatureData| != 64 {
      var converted := ConvertDerToRawRSignature(signatureData, beyond);
      if converted == None {
        return false;
      }
      rawRs := converted.value;
    }
    return if hKey in cng.keys then ecdsa(cng.keys[hKey], payloadData, rawRs) else stray;
  }

  /** The device that the payload names is registered, and ECDSA accepts the first 108 bytes under its key. */
  ghost predicate EcdsaAccepted(ecdsa: Ecdsa, r: Registry, payload: seq<Byte>) {
    && |payload| >= 116 && payload[20..36] in r.entries && r.entries[payload[20..36]].enabled
    && r.entries[payload[20..36]].handle in r.keys
    && var key := r.keys[r.entries[payload[20..36]].handle];
       AskedOf(ecdsa, key, payload[..108], payload[108..], true)
  }

  lemma {:induction false} ResponseSigned(ecdsa: Ecdsa, pcId: Uuid, store: Table, r: Registry, payload: seq<Byte>,
                                          now: Uint64)
    requires Owned(r)
    ensures Outcome(SignatureCheck(ecdsa), pcId, store, r, payload, now) == Success ==> EcdsaAccepted(ecdsa, r, payload)
  {
    EachOutcome(SignatureCheck(ecdsa), pcId, store, r, payload, now);
    if Outcome(SignatureCheck(ecdsa), pcId, store, r, payload, now) == Success {
      AsksEcdsa(ecdsa, r.keys[r.entries[payload[20..36]].handle], payload[..108], payload[108..]);
    }
  }

  class AgentService {
    const pcId: Uuid
    const ecdsa: Ecdsa
    const challengeStore: ChallengeStore
    const deviceRegistry: DeviceRegistry
    const transport: Transport

    ghost predicate Valid()
      reads challengeStore, deviceRegistry, deviceRegistry.cng
    {
      challengeStore.Valid() && deviceRegistry.Valid()
    }

    constructor (pcId: Uuid, ecdsa: Ecdsa, transport: Transport)
      ensures Valid() && this.pcId == pcId && this.ecdsa == ecdsa && this.transport == transport
      ensures challengeStore.records == map[] && deviceRegistry.entries == map[]
    {
      this.pcId := pcId;
      this.ecdsa := ecdsa;
      this.transport := transport;
      challengeStore := new ChallengeStore();
      var cng := new Cng();
      deviceRegistry := new DeviceRegistry(cng);
    }

    /** What an uninterrupted call makes of a response, in this state. */
    ghost function Expected(payload: seq<Byte>, nowMs: Uint64): ErrorCode
      reads challengeStore, deviceRegistry, deviceRegistry.cng
    {
      Outcome(SignatureCheck(ecdsa), pcId, challengeStore.records, deviceRegistry.State(), payload, nowMs)
    }

    ghost function ExpectedStore(payload: seq<Byte>, nowMs: Uint64): Table
      reads challengeStore, deviceRegistry, deviceRegistry.cng
    {
      StoreAfter(SignatureCheck(ecdsa), pcId, challengeStore.records, deviceRegistry.State(), payload, nowMs)
    }

    /** ECDSA has accepted the first 108 bytes with some 64-byte form, under the key of the device they name. */
    ghost predicate SignedByDevice(payload: seq<Byte>)
      reads deviceRegistry, deviceRegistry.cng
    {
      EcdsaAccepted(ecdsa, deviceRegistry.State(), payload)
    }

    /** The record is stored whether or not a phone is connected to send the request to. */
    method InitiateUnlockRequest(deviceId: Uuid, sessionId: Uuid, challenge: Nonce, nowMs: Uint64)
      returns (record: ChallengeRecord)
      requires Valid()
      modifies challengeStore, transport, transport.socket
      ensures Valid()
      ensures record.state.Outstanding? && Timed(record) && record.creationTimestampMs == nowMs
      ensures record.sessionId == sessionId && record.challenge == challenge
      ensures record.deviceId == deviceId && record.pcId == pcId
      ensures challengeStore.records == old(challengeStore.records)[sessionId := record]
      ensures Transmitted(Transport.Outgoing(UnlockReq, Request(record), old(transport.sequenceCounter)),
                          old(transport.socket.outgoing), transport.socket.outgoing,
                          old(transport.isConnected), transport.isConnected)
      ensures old(transport.isConnected) && transport.isConnected ==>
        && old(transport.socket.outgoing) <= transport.socket.outgoing
        && ReadAsOneFrame(transport.socket.outgoing[|old(transport.socket.outgoing)|..], UnlockReq, Request(record))
    {
      record := GenerateChallenge(deviceId, pcId, sessionId, challenge, nowMs);
      challengeStore.AddChallenge(record);
      var payload := BuildRequest(record);
      if transport.isConnected {
        var ok, written := transport.SendFrame(UnlockReq, payload);
        PartTransmitted(Transport.Outgoing(UnlockReq, payload, old(transport.sequenceCounter)),
                        old(transport.socket.outgoing), written);
        PrintReadAsOne(Transport.Outgoing(UnlockReq, payload, old(transport.sequenceCounter)));
      }
    }

    method ProcessUnlockResponse(frame: TransportFrame, nowMs: Uint64, beyond: Byte, stray: bool) returns (e: ErrorCode)
      requires Valid()
      modifies challengeStore
      ensures Valid()
      ensures e == old(Expected(frame.payload, nowMs))
      ensures challengeStore.records == old(ExpectedStore(frame.payload, nowMs))
      ensures e != Success ==> challengeStore.records == old(challengeStore.records)
      ensures e == Success ==> SignedByDevice(frame.payload)
    {
      ResponseSigned(ecdsa, pcId, challengeStore.records, deviceRegistry.State(), frame.payload, nowMs);
      if |frame.payload| < 108 + 8 {
        return InvalidRequest;
      }
      var parsed := Deserialize(frame.payload[..108]);
      if parsed.Err? {
        return parsed.error;
      }
      var payloadP := parsed.value;
      var sigBytes := frame.payload[108..];
      var q := QueryOf(pcId, payloadP);
      var valErr, rec := challengeStore.ValidateChallenge(q, nowMs);
      if valErr != Success {
        return valErr;
      }
      var hPubKey := deviceRegistry.GetDevicePublicKey(payloadP.deviceId);
      LookupLive(deviceRegistry.State(), payloadP.deviceId);
      if hPubKey == 0 {
        return UnknownDevice;
      }
      var sigValid :=
        VerifySignature(ecdsa, deviceRegistry.cng, hPubKey, frame.payload[..108], sigBytes, beyond, stray);
      if !sigValid {
        return InvalidSignature;
      }
      e := challengeStore.ValidateAndConsumeChallenge(q, nowMs);
    }

    /** The answer to an unlock response carries the outcome; other frames are ignored. */
    method OnFrameReceived(frame: TransportFrame, nowMs: Uint64, beyond: Byte, stray: bool)
      requires Valid()
      modifies challengeStore, transport, transport.socket
      ensures Valid()
      ensures frame.messageType != UnlockResp ==>
        unchanged(challengeStore) && unchanged(transport) && unchanged(transport.socket)
      ensures frame.messageType == UnlockResp ==>
        && challengeStore.records == old(ExpectedStore(frame.payload, nowMs))
        && Transmitted(Answer(old(Expected(frame.payload, nowMs)), old(transport.sequenceCounter)),
                       old(transport.socket.outgoing), transport.socket.outgoing,
                       old(transport.isConnected), transport.isConnected)
      ensures frame.messageType == UnlockResp && old(transport.isConnected) && transport.isConnected ==>
        var e, before := old(Expected(frame.payload, nowMs)), old(transport.socket.outgoing);
        && before <= transport.socket.outgoing
        && ReadAsOneFrame(transport.socket.outgoing[|before|..], if e == Success then UnlockResp else ErrorMsg,
                          [e.Code() / 256, e.Code() % 256])
    {
      if frame.messageType == UnlockResp {
        var err := ProcessUnlockResponse(frame, nowMs, beyond, stray);
        var respPayload := [err.Code() / 0x100 % 256, err.Code() % 256];
        SplitShort(err.Code());
        var messageType := if err == Success then UnlockResp else ErrorMsg;
        var ok, written := transport.SendFrame(messageType, respPayload);
        if old(transport.isConnected) {
          PartTransmitted(Answer(err, old(transport.sequenceCounter)), old(transport.socket.outgoing), written);
          AnswerRead(err, old(transport.sequenceCounter));
        }
      }
    }
  }

  /** The frame that answers a response: its code, big-endian, as an error message unless it is a success. */
  function Answer(e: ErrorCode, sequence: Uint32): (f: TransportFrame)
    ensures Sendable(f)
  {
    Transport.Outgoing(if e == Success then UnlockResp else ErrorMsg, PutNat(e.Code(), 2), sequence)
  }

  lemma {:induction false} AnswerRead(e: ErrorCode, sequence: Uint32)
    ensures ReadAsOneFrame(Print(Answer(e, sequence)), if e == Success then UnlockResp else ErrorMsg,
                           [e.Code() / 256, e.Code() % 256])
  {
    var f := Answer(e, sequence);
    SplitShort(e.Code());
    assert f.payload == [e.Code() / 256, e.Code() % 256];
    PrintReadAsOne(f);
  }

  /** Nothing was sent without a connection, all of the frame if the connection outlasted it, else a part of it. */
  predicate Transmitted(f: TransportFrame, before: seq<Byte>, after: seq<Byte>, connected: bool, stillConnected: bool)
    requires Sendable(f)
  {
    if !connected then after == before && !stillConnected
    else if stillConnected then after == before + Print(f)
    else before <= after < before + Print(f)
  }

  lemma {:induction false} PartTransmitted(f: TransportFrame, before: seq<Byte>, written: nat)
    requires Sendable(f) && written <= |Print(f)|
    ensures Transmitted(f, before, before + Print(f)[..written], true, written == |Print(f)|)
  {
    PartOfNext(before, Print(f), written);
  }
}
