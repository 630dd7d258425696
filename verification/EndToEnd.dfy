/** One unlock from end to end: the agent's request, the phone's answer, and what the agent makes of it, twice. */
module EndToEnd {
  import opened AgentService
  import opened Bytes
  import opened Challenges
  import opened Channel
  import opened DerSignature
  import opened DeviceRegistry
  import opened FrameProtocol
  import opened JavaNio
  import opened PhoneFrames
  import opened PhoneReceiver
  import PhoneProtocol
  import opened Protocol
  import opened StreamReceiver
  import opened TcpTransport
  import opened UnlockController
  import opened UnlockProtocol

  /** What the phone is to sign for a record. */
  function PayloadOf(rec: ChallengeRecord): AuthPayload {
    AuthPayload(DOMAIN_PREFIX, CURRENT_PROTOCOL_VERSION, ALGORITHM_ECDSA_P256_SHA256, rec.deviceId, rec.sessionId,
                rec.pcId, rec.challenge, rec.expirationTimestampMs)
  }

  lemma {:induction false} RequestFields(rec: ChallengeRecord)
    ensures var q := Request(rec);
      && q[..16] == rec.sessionId && q[16..32] == rec.pcId && q[32..64] == rec.challenge
      && PhoneProtocol.GetLong(q[72..80]) == Signed64(rec.expirationTimestampMs)
  {
    var q := Request(rec);
    assert q[72..80] == PutNat(rec.expirationTimestampMs, 8);
    Radices();
    GetPut(rec.expirationTimestampMs, 8);
  }

  /** The phone answers a request that it gets in time with the canonical bytes of the record and their signature. */
  lemma {:induction false} PhoneAnswers(rec: ChallengeRecord, now: Int64, sign: Signer, signature: seq<Byte>)
    requires now <= Signed64(rec.expirationTimestampMs) && sign(Encode(PayloadOf(rec))) == Some(signature)
    ensures Respond(rec.deviceId, Request(rec), now, true, sign) == Response(Encode(PayloadOf(rec)) + signature)
  {
    RequestFields(rec);
    PhoneProtocol.EncodersAgree(PayloadOf(rec));
    Radices();
    assert PayloadFor(rec.deviceId, Request(rec)) == PhoneProtocol.ToPhone(PayloadOf(rec));
  }

  /** What the agent makes of it as long as the record waits for an answer: the signature alone decides. */
  lemma {:induction false} SignatureDecides(verify: Verifier, store: Table, r: Registry, rec: ChallengeRecord,
                                            signature: seq<Byte>, now: Uint64)
    requires rec.sessionId in store && store[rec.sessionId] == rec && rec.state.Outstanding?
    requires now <= rec.expirationTimestampMs && |signature| >= 8
    requires Lookup(r, rec.deviceId) != 0 && Lookup(r, rec.deviceId) in r.keys
    ensures var m, key := Encode(PayloadOf(rec)), r.keys[Lookup(r, rec.deviceId)];
      Outcome(verify, rec.pcId, store, r, m + signature, now)
        == if verify(key, m, signature) then Success else InvalidSignature
  {
    BeginsParsed(rec, signature, now);
  }

  lemma {:induction false} BeginsParsed(rec: ChallengeRecord, signature: seq<Byte>, now: Uint64)
    requires |signature| >= 8
    ensures var m := Encode(PayloadOf(rec));
      && Begin(m + signature, now) == Flight(m + signature, PayloadOf(rec), now, Parsed)
      && (m + signature)[..108] == m && (m + signature)[108..] == signature
  {
    Protocol.DecodeEncode(PayloadOf(rec));
    var m := Encode(PayloadOf(rec));
    assert (m + signature)[..108] == m && (m + signature)[108..] == signature;
  }

  /** The same response again, at whatever time, finds the challenge consumed. */
  lemma {:induction false} ReplayIsRefused(verify: Verifier, store: Table, r: Registry, r': Registry,
                                           payload: seq<Byte>, pcId: Uuid, now: Uint64, later: Uint64)
    requires Outcome(verify, pcId, store, r, payload, now) == Success
    ensures Outcome(verify, pcId, StoreAfter(verify, pcId, store, r, payload, now), r', payload, later)
         == ChallengeAlreadyConsumed
  {
    ConsumeOnce(store, QueryOf(pcId, Begin(payload, now).content), now, later);
  }

  /** The signer signs the record's bytes with a pair (a, b) that verifies under this key, in DER, not 64 bytes long. */
  predicate SignsFor(ecdsa: Ecdsa, key: PublicKey, rec: ChallengeRecord, sign: Signer, a: nat, b: nat)
    requires a < Radix(32) && b < Radix(32)
  {
    && Width(a) + Width(b) != 58
    && sign(Encode(PayloadOf(rec))) == Some(Der(a, b))
    && ecdsa(key, Encode(PayloadOf(rec)), PutNat(a, 32) + PutNat(b, 32))
  }

  lemma {:induction false} DerSignatureChecks(ecdsa: Ecdsa, key: PublicKey, rec: ChallengeRecord, sign: Signer,
                                              a: nat, b: nat)
    requires a < Radix(32) && b < Radix(32) && SignsFor(ecdsa, key, rec, sign, a, b)
    ensures SignatureCheck(ecdsa)(key, Encode(PayloadOf(rec)), Der(a, b))
  {
    DispatchIsRight(a, b);
  }

  /** A request answered in time, first, and by the phone whose key is registered succeeds, and then is spent. */
  lemma {:induction false} CompletenessAndReplay(ecdsa: Ecdsa, store: Table, r: Registry, rec: ChallengeRecord,
                                                 sign: Signer, a: nat, b: nat, phoneNow: Int64, now: Uint64,
                                                 later: Uint64)
    requires rec.sessionId in store && store[rec.sessionId] == rec && rec.state.Outstanding?
    requires Lookup(r, rec.deviceId) != 0 && Lookup(r, rec.deviceId) in r.keys
    requires a < Radix(32) && b < Radix(32) && SignsFor(ecdsa, r.keys[Lookup(r, rec.deviceId)], rec, sign, a, b)
    requires phoneNow <= Signed64(rec.expirationTimestampMs) && now <= rec.expirationTimestampMs
    ensures var reply, verify := Respond(rec.deviceId, Request(rec), phoneNow, true, sign), SignatureCheck(ecdsa);
      && reply.Response?
      && Outcome(verify, rec.pcId, store, r, reply.payload, now) == Success
      && var spent := StoreAfter(verify, rec.pcId, store, r, reply.payload, now);
         Outcome(verify, rec.pcId, spent, r, reply.payload, later) == ChallengeAlreadyConsumed
  {
    var sig, verify := Der(a, b), SignatureCheck(ecdsa);
    PhoneAnswers(rec, phoneNow, sign, sig);
    DerSignatureChecks(ecdsa, r.keys[Lookup(r, rec.deviceId)], rec, sign, a, b);
    SignatureDecides(verify, store, r, rec, sig, now);
    ReplayIsRefused(verify, store, r, r, Encode(PayloadOf(rec)) + sig, rec.pcId, now, later);
  }

  /**
   * The same among any other activity of the agent: the phone's reply, received at step r of a run, succeeds with its
   * fourth step, as long as until then no other step changes its record or the key found for its device.
   */
  lemma {:induction false} CompletenessAmongOthers(ecdsa: Ecdsa, start: Agent, steps: seq<Step>, r: nat, n: nat,
                                                   rec: ChallengeRecord, sign: Signer, a: nat, b: nat, phoneNow: Int64,
                                                   f: Flight)
    requires r < n <= |steps| && start.pcId == rec.pcId
    requires var agent := At(SignatureCheck(ecdsa), start, steps, r); var h := Lookup(agent.registry, rec.deviceId);
      && rec.sessionId in agent.store && agent.store[rec.sessionId] == rec && rec.state.Outstanding?
      && h != 0 && h in agent.registry.keys
      && a < Radix(32) && b < Radix(32) && SignsFor(ecdsa, agent.registry.keys[h], rec, sign, a, b)
    requires phoneNow <= Signed64(rec.expirationTimestampMs) && f.Flight? && f.now <= rec.expirationTimestampMs
    requires Respond(rec.deviceId, Request(rec), phoneNow, true, sign) == Response(f.payload)
    requires f == Begin(f.payload, f.now) && steps[r] == Receive(f.payload, f.now)
    requires var verify := SignatureCheck(ecdsa);
      LeftAlone(verify, start, steps, r, n, |At(verify, start, steps, r).flights|, f)
    ensures var verify := SignatureCheck(ecdsa);
      var i, agent := |At(verify, start, steps, r).flights|, At(verify, start, steps, n);
      && i < |agent.flights| && agent.flights[i].Flight?
      && (agent.flights[i].stage == Done(Success) <==> Moved(steps, i, r + 1, n) >= 4)
  {
    var verify := SignatureCheck(ecdsa);
    var agent := At(verify, start, steps, r);
    PcIdKept(verify, start, steps, r);
    PhoneAnswers(rec, phoneNow, sign, Der(a, b));
    DerSignatureChecks(ecdsa, agent.registry.keys[Lookup(agent.registry, rec.deviceId)], rec, sign, a, b);
    BeginsParsed(rec, Der(a, b), f.now);
    SucceedsOnceMovedFourTimes(verify, start, steps, r, n, |agent.flights|, f);
  }

  /**
   * In every interleaving, a success is one that ECDSA has granted: asked about exactly the first 108 bytes, with the
   * 64-byte form of the rest, under the key found for the device, if the handle still stood for that key.
   */
  lemma {:induction false} SuccessIsSigned(ecdsa: Ecdsa, start: Agent, steps: seq<Step>, k: nat, i: nat, f: Flight)
    returns (w: Trace)
    requires k <= |steps| && start.flights == [] && start.store == map[] && Owned(start.registry)
    requires var verify := SignatureCheck(ecdsa);
      i < |At(verify, start, steps, k).flights| && At(verify, start, steps, k).flights[i] == f
    requires f.Flight? && f.stage == Done(Success)
    ensures w.received < w.lookedUp < w.checked < k && |f.payload| >= 116
    ensures steps[w.received] == Receive(f.payload, f.now) && f.content.deviceId == f.payload[20..36]
    ensures WasFound(SignatureCheck(ecdsa), start, steps, i, f, w.lookedUp, w.handle)
    ensures var verify := SignatureCheck(ecdsa);
      KeyAsFound(verify, start, steps, w.handle, w.lookedUp, w.checked) ==>
        AskedOf(ecdsa, At(verify, start, steps, w.lookedUp).registry.keys[w.handle], f.payload[..108],
                f.payload[108..], true)
  {
    var verify := SignatureCheck(ecdsa);
    var issued;
    w, issued := SuccessMeansWhatItSays(verify, start, steps, k, i, f);
    FieldsOfPayload(f);
    if KeyAsFound(verify, start, steps, w.handle, w.lookedUp, w.checked) {
      AsksEcdsa(ecdsa, At(verify, start, steps, w.lookedUp).registry.keys[w.handle], f.payload[..108],
                f.payload[108..]);
    }
  }

  // ----- requests that the phone gets too late

  lemma {:induction false} ExpiredIsRefused(rec: ChallengeRecord, deviceId: seq<Byte>, now: Int64, hasKey: bool,
                                            sign: Signer)
    ensures Respond(deviceId, Request(rec), now, hasKey, sign) == Failed(ReceivedExpired)
       <==> now > Signed64(rec.expirationTimestampMs)
  {
    RequestFields(rec);
    EachReply(deviceId, Request(rec), now, hasKey, sign);
  }

  /** The phone reads the request for a record. */
  datatype Reading = Reading(record: ChallengeRecord, at: Int64, hasKey: bool)

  ghost predicate IsReply(payload: seq<Byte>, deviceId: seq<Byte>, sign: Signer, readings: seq<Reading>) {
    exists j :: 0 <= j < |readings| && ReplyTo(readings[j], deviceId, sign) == Response(payload)
  }

  function ReplyTo(r: Reading, deviceId: seq<Byte>, sign: Signer): Reply {
    Respond(deviceId, Request(r.record), r.at, r.hasKey, sign)
  }

  lemma {:induction false} ReplyInTime(r: Reading, deviceId: seq<Byte>, sign: Signer, payload: seq<Byte>)
    requires ReplyTo(r, deviceId, sign) == Response(payload)
    ensures r.at <= Signed64(r.record.expirationTimestampMs)
    ensures |payload| >= 108 && payload[36..52] == r.record.sessionId
  {
    var q := Request(r.record);
    RequestFields(r.record);
    EachReply(deviceId, q, r.at, r.hasKey, sign);
    assert ToSign(deviceId, q)[36..52] == q[..64][..16] == q[..16];
  }

  /**
   * If all that the agent receives are replies of the phone, and the phone has read the requests of a session only
   * after they had expired, then no response is ever for that session, whatever else happens.
   */
  lemma {:induction false} ReadTooLate(verify: Verifier, start: Agent, steps: seq<Step>, k: nat, i: nat, s: Uuid,
                                       deviceId: seq<Byte>, sign: Signer, readings: seq<Reading>)
    requires k <= |steps| && start.flights == []
    requires forall n :: 0 <= n < |steps| && steps[n].Receive? ==> IsReply(steps[n].payload, deviceId, sign, readings)
    requires forall j :: 0 <= j < |readings| && readings[j].record.sessionId == s ==>
      readings[j].at > Signed64(readings[j].record.expirationTimestampMs)
    requires i < |At(verify, start, steps, k).flights| && At(verify, start, steps, k).flights[i].Flight?
    ensures At(verify, start, steps, k).flights[i].content.sessionId != s
  {
    var f := At(verify, start, steps, k).flights[i];
    var w := Explained(verify, start, steps, k, i);
    assert IsParsed(steps, f, w);
    FieldsOfPayload(f);
    assert IsReply(f.payload, deviceId, sign, readings);
    var j :| 0 <= j < |readings| && ReplyTo(readings[j], deviceId, sign) == Response(f.payload);
    ReplyInTime(readings[j], deviceId, sign, f.payload);
  }

  // ----- over the wire

  /** The frame that the phone's sendFrame builds. */
  function PhoneOutgoing(payload: seq<Byte>, sequence: Int32): PhoneFrame
    requires |payload| < 0x8000_0000
  {
    PhoneFrame(FRAME_MAGIC, |payload|, UnlockResp, 0, sequence, payload, 0)
  }

  lemma {:induction false} PhoneFrameOnTheWire(payload: seq<Byte>, sequence: Int32) returns (g: TransportFrame)
    requires |payload| <= 65536
    ensures Sendable(g) && g.payload == payload && g.messageType == UnlockResp
    ensures PhonePrint(PhoneOutgoing(payload, sequence)) == Print(g)
  {
    var k := PhoneOutgoing(payload, sequence);
    g := ToAgent(k);
    SamePrint(g);
    assert PhonePrint(ToPhone(g)) == PhonePrint(k);
  }

  lemma {:induction false} ResponseRead(response: seq<Byte>, m: Int32, chunks: seq<seq<Byte>>)
    requires |response| <= 65536 && Concat(chunks) == PhonePrint(PhoneOutgoing(response, m))
    ensures var got := StreamReceiver.Receive([], chunks);
      && |got.events| == 1 && got.events[0].FrameReceived? && got.residual == [] && got.open
      && got.events[0].frame.messageType == UnlockResp && got.events[0].frame.payload == response
  {
    var g := PhoneFrameOnTheWire(response, m);
    OneFrame(g);
    var j, part := FifoSoFar([g], chunks);
    AllOfOne(g, j, part);
  }

  /** However the bytes are cut up, the phone gets the agent's request and the agent the phone's response. */
  lemma {:induction false} OverTheWire(rec: ChallengeRecord, n: Uint32, requestChunks: seq<seq<Byte>>,
                    response: seq<Byte>, m: Int32, responseChunks: seq<seq<Byte>>)
    requires Concat(requestChunks) == Print(Transport.Outgoing(UnlockReq, Request(rec), n))
    requires |response| <= 65536 && Concat(responseChunks) == PhonePrint(PhoneOutgoing(response, m))
    ensures var got := PhoneReceive([], requestChunks);
      && |got.events| == 1 && got.events[0].Received? && got.residual == []
      && got.events[0].frame.messageType == UnlockReq && got.events[0].frame.payload == Request(rec)
    ensures var got := StreamReceiver.Receive([], responseChunks);
      && |got.events| == 1 && got.events[0].FrameReceived? && got.residual == [] && got.open
      && got.events[0].frame.messageType == UnlockResp && got.events[0].frame.payload == response
  {
    PrintReadAsOne(Transport.Outgoing(UnlockReq, Request(rec), n));
    ResponseRead(response, m, responseChunks);
  }

  /**
   * The whole unlock over the wire, however the bytes are cut up on both ways: the phone reads the agent's request,
   * its reply has at most 180 bytes, and the agent reads it and grants it.
   */
  lemma {:induction false} UnlockOverTheWire(ecdsa: Ecdsa, store: Table, r: Registry, rec: ChallengeRecord,
                                             sign: Signer, a: nat, b: nat, phoneNow: Int64, now: Uint64,
                                             request: TransportFrame, requestChunks: seq<seq<Byte>>, m: Int32,
                                             responseChunks: seq<seq<Byte>>)
    requires rec.sessionId in store && store[rec.sessionId] == rec && rec.state.Outstanding?
    requires Lookup(r, rec.deviceId) != 0 && Lookup(r, rec.deviceId) in r.keys
    requires a < Radix(32) && b < Radix(32) && SignsFor(ecdsa, r.keys[Lookup(r, rec.deviceId)], rec, sign, a, b)
    requires phoneNow <= Signed64(rec.expirationTimestampMs) && now <= rec.expirationTimestampMs
    requires request.messageType == UnlockReq && request.payload == Request(rec)
    requires Concat(requestChunks) == Print(request)
    requires Concat(responseChunks) == PhonePrint(PhoneOutgoing(Encode(PayloadOf(rec)) + Der(a, b), m))
    ensures OneFrameRead(PhoneReceive([], requestChunks), UnlockReq, Request(rec))
    ensures var reply, got := Encode(PayloadOf(rec)) + Der(a, b), StreamReceiver.Receive([], responseChunks);
      && |reply| <= 180 && Respond(rec.deviceId, Request(rec), phoneNow, true, sign) == Response(reply)
      && got.open && got.residual == [] && |got.events| == 1 && got.events[0].FrameReceived?
      && got.events[0].frame.messageType == UnlockResp && got.events[0].frame.payload == reply
      && Outcome(SignatureCheck(ecdsa), rec.pcId, store, r, got.events[0].frame.payload, now) == Success
  {
    var reply := Encode(PayloadOf(rec)) + Der(a, b);
    PrintReadAsOne(request);
    CompletenessAndReplay(ecdsa, store, r, rec, sign, a, b, phoneNow, now, now);
    PhoneAnswers(rec, phoneNow, sign, Der(a, b));
    ResponseRead(reply, m, responseChunks);
  }
}
