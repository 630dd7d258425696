/** What the challenge store holds, what it answers, and what every run of its operations keeps. */
module Challenges {
  import opened Bytes
  import opened Protocol

  datatype State = Outstanding | Consumed | Expired

  datatype ChallengeRecord = ChallengeRecord(
    sessionId: Uuid, deviceId: Uuid, pcId: Uuid, challenge: Nonce,
    creationTimestampMs: Uint64, expirationTimestampMs: Uint64, state: State)

  /** The expiry that the generator sets; the addition is one of 64-bit integers. */
  predicate Timed(rec: ChallengeRecord) {
    rec.expirationTimestampMs == (rec.creationTimestampMs + DEFAULT_CHALLENGE_TTL_MS) % 0x1_0000_0000_0000_0000
  }

  /** GenerateChallenge, given what the random number generator and the clock return. */
  method GenerateChallenge(deviceId: Uuid, pcId: Uuid, sessionId: Uuid, challenge: Nonce, nowMs: Uint64)
    returns (record: ChallengeRecord)
    ensures record.expirationTimestampMs == (nowMs + 30000) % 0x1_0000_0000_0000_0000
    ensures Timed(record) && record.state.Outstanding? && record.creationTimestampMs == nowMs
    ensures record.sessionId == sessionId && record.challenge == challenge
    ensures record.deviceId == deviceId && record.pcId == pcId
    ensures nowMs + DEFAULT_CHALLENGE_TTL_MS < 0x1_0000_0000_0000_0000 ==>
      Answers(record, Query(sessionId, deviceId, pcId, challenge), nowMs)
  {
    var expirationTimestampMs := (nowMs + DEFAULT_CHALLENGE_TTL_MS) % 0x1_0000_0000_0000_0000;
    record := ChallengeRecord(sessionId, deviceId, pcId, challenge, nowMs, expirationTimestampMs, Outstanding);
  }

  /** The records by session id. */
  type Table = map<Uuid, ChallengeRecord>

  datatype Query = Query(sessionId: Uuid, deviceId: Uuid, pcId: Uuid, challenge: Nonce)

  predicate Stale(rec: ChallengeRecord, now: Uint64) {
    rec.state.Expired? || now > rec.expirationTimestampMs
  }

  /** The checks of the store, in their order. */
  function Verdict(t: Table, q: Query, now: Uint64): (e: ErrorCode) {
    if q.sessionId !in t then ChallengeNotFound
    else
      var rec := t[q.sessionId];
      if rec.state.Consumed? then ChallengeAlreadyConsumed
      else if Stale(rec, now) then ChallengeExpired
      else if rec.deviceId != q.deviceId then DeviceMismatch
      else if rec.pcId != q.pcId then PcMismatch
      else if rec.challenge != q.challenge then ChallengeNotFound
      else Success
  }

  function WithState(t: Table, s: Uuid, state: State): Table
    requires s in t
  {
    t[s := t[s].(state := state)]
  }

  function AfterConsume(t: Table, q: Query, now: Uint64): Table {
    match Verdict(t, q, now)
    case Success => WithState(t, q.sessionId, Consumed)
    case ChallengeExpired => WithState(t, q.sessionId, Expired)
    case _ => t
  }

  function ExpireRecord(rec: ChallengeRecord, now: Uint64): ChallengeRecord {
    if rec.state.Outstanding? && now > rec.expirationTimestampMs then rec.(state := Expired) else rec
  }

  function AfterExpire(t: Table, now: Uint64): Table {
    map s | s in t :: ExpireRecord(t[s], now)
  }

  /** The record that a query is for, still to be consumed at this time. */
  predicate Answers(rec: ChallengeRecord, q: Query, now: Uint64) {
    && rec.state.Outstanding? && now <= rec.expirationTimestampMs
    && rec.deviceId == q.deviceId && rec.pcId == q.pcId && rec.challenge == q.challenge
  }

  /** When a query succeeds, and what consuming then does: the same query finds the record consumed. */
  lemma {:induction false} ConsumeOnce(t: Table, q: Query, now: Uint64, later: Uint64)
    ensures Verdict(t, q, now) == Success <==> q.sessionId in t && Answers(t[q.sessionId], q, now)
    ensures Verdict(t, q, now) == Success ==> Verdict(AfterConsume(t, q, now), q, later) == ChallengeAlreadyConsumed
    ensures Verdict(t, q, now) == ChallengeExpired ==> Verdict(AfterConsume(t, q, now), q, later) == ChallengeExpired
  {
  }

  /** Each verdict exactly when those before it do not apply, and what consuming makes of the table. */
  lemma {:induction false} EachVerdict(t: Table, q: Query, now: Uint64)
    ensures var v, t' := Verdict(t, q, now), AfterConsume(t, q, now);
      if q.sessionId !in t then v == ChallengeNotFound && t' == t
      else
        var rec := t[q.sessionId];
        var waiting := rec.state == Outstanding && now <= rec.expirationTimestampMs;
        && (v == ChallengeAlreadyConsumed <==> rec.state == Consumed)
        && (v == ChallengeExpired <==> rec.state != Consumed && !waiting)
        && (v == DeviceMismatch <==> waiting && rec.deviceId != q.deviceId)
        && (v == PcMismatch <==> waiting && rec.deviceId == q.deviceId && rec.pcId != q.pcId)
        && (v == ChallengeNotFound <==>
              waiting && rec.deviceId == q.deviceId && rec.pcId == q.pcId && rec.challenge != q.challenge)
        && (v == Success <==>
              waiting && rec.deviceId == q.deviceId && rec.pcId == q.pcId && rec.challenge == q.challenge)
        && t' == t[q.sessionId := if v == Success then rec.(state := Consumed)
                                  else if v == ChallengeExpired then rec.(state := Expired)
                                  else rec]
  {
    assert q.sessionId in t ==> t[q.sessionId := t[q.sessionId]] == t;
  }

  // ----- counting

  function Those(t: Table, state: State): set<Uuid> {
    set s | s in t && t[s].state == state
  }

  function Count(t: Table, state: State): nat {
    |Those(t, state)|
  }

  lemma {:induction false} AddCounts(t: Table, rec: ChallengeRecord, state: State)
    requires rec.sessionId !in t
    ensures Count(t[rec.sessionId := rec], state) == Count(t, state) + (if rec.state == state then 1 else 0)
  {
    var t' := t[rec.sessionId := rec];
    assert Those(t', state) == Those(t, state) + (if rec.state == state then {rec.sessionId} else {});
  }

  lemma {:induction false} Apart(t: Table, s: Uuid, state: State)
    requires s in t
    ensures Count(t, state) == |Those(t, state) - {s}| + (if t[s].state == state then 1 else 0)
  {
    var all, others := Those(t, state), Those(t, state) - {s};
    if t[s].state == state {
      assert all == others + {s};
    } else {
      assert all == others;
    }
  }

  lemma {:induction false} MoveCounts(t: Table, s: Uuid, to: State, state: State)
    requires s in t
    ensures Count(WithState(t, s, to), state)
         == Count(t, state) - (if t[s].state == state then 1 else 0) + (if to == state then 1 else 0)
  {
    var t' := WithState(t, s, to);
    Apart(t, s, state);
    Apart(t', s, state);
    SameOthers(t, s, to, state);
  }

  lemma {:induction false} SameOthers(t: Table, s: Uuid, to: State, state: State)
    requires s in t
    ensures Those(WithState(t, s, to), state) - {s} == Those(t, state) - {s}
  {
  }

  function Overdue(t: Table, now: Uint64): set<Uuid> {
    set s | s in t && t[s].state.Outstanding? && now > t[s].expirationTimestampMs
  }

  lemma {:induction false} ExpireCounts(t: Table, now: Uint64)
    ensures Count(AfterExpire(t, now), Outstanding) == Count(t, Outstanding) - |Overdue(t, now)|
    ensures Count(AfterExpire(t, now), Consumed) == Count(t, Consumed)
    ensures Count(AfterExpire(t, now), Expired) == Count(t, Expired) + |Overdue(t, now)|
  {
    StillOutstanding(t, now);
    NowExpired(t, now);
    assert Those(AfterExpire(t, now), Consumed) == Those(t, Consumed);
  }

  lemma {:induction false} StillOutstanding(t: Table, now: Uint64)
    ensures Count(AfterExpire(t, now), Outstanding) == Count(t, Outstanding) - |Overdue(t, now)|
  {
    var before, after, o := Those(t, Outstanding), Those(AfterExpire(t, now), Outstanding), Overdue(t, now);
    assert before == after + o && after !! o;
  }

  lemma {:induction false} NowExpired(t: Table, now: Uint64)
    ensures Count(AfterExpire(t, now), Expired) == Count(t, Expired) + |Overdue(t, now)|
  {
    var before, after, o := Those(t, Expired), Those(AfterExpire(t, now), Expired), Overdue(t, now);
    assert after == before + o && before !! o;
  }

  // ----- runs

  datatype Op =
    | Add(record: ChallengeRecord)
    | Validate(q: Query, now: Uint64)
    | Consume(q: Query, now: Uint64)
    | Expire(now: Uint64)

  function Apply(t: Table, op: Op): Table {
    match op
    case Add(rec) => t[rec.sessionId := rec]
    case Validate(_, _) => t
    case Consume(q, now) => AfterConsume(t, q, now)
    case Expire(now) => AfterExpire(t, now)
  }

  function Run(t: Table, ops: seq<Op>): Table
    decreases |ops|
  {
    if ops == [] then t else Run(Apply(t, ops[0]), ops[1..])
  }

  /** What the operations of a run report, added up: records put in, successes, and records found or made expired. */
  datatype Tally = Tally(added: nat, consumed: nat, expired: nat)

  function Report(t: Table, op: Op): Tally {
    match op
    case Add(rec) => Tally(1, 0, 0)
    case Validate(_, _) => Tally(0, 0, 0)
    case Consume(q, now) =>
      var v := Verdict(t, q, now);
      Tally(0, if v == Success then 1 else 0,
            if v == ChallengeExpired && t[q.sessionId].state.Outstanding? then 1 else 0)
    case Expire(now) => Tally(0, 0, |Overdue(t, now)|)
  }

  function Sum(a: Tally, b: Tally): Tally {
    Tally(a.added + b.added, a.consumed + b.consumed, a.expired + b.expired)
  }

  function Total(t: Table, ops: seq<Op>): Tally
    decreases |ops|
  {
    if ops == [] then Tally(0, 0, 0) else Sum(Report(t, ops[0]), Total(Apply(t, ops[0]), ops[1..]))
  }

  /** Every record that is put in is outstanding and has a session id of its own. */
  predicate DistinctAdds(t: Table, ops: seq<Op>)
    decreases |ops|
  {
    ops != [] ==>
      && (ops[0].Add? ==> ops[0].record.sessionId !in t && ops[0].record.state.Outstanding?)
      && DistinctAdds(Apply(t, ops[0]), ops[1..])
  }

  lemma {:induction false} StepCounts(t: Table, op: Op)
    requires op.Add? ==> op.record.sessionId !in t && op.record.state.Outstanding?
    ensures var t', r := Apply(t, op), Report(t, op);
      && Count(t', Outstanding) + r.consumed + r.expired == Count(t, Outstanding) + r.added
      && Count(t', Consumed) == Count(t, Consumed) + r.consumed
      && Count(t', Expired) == Count(t, Expired) + r.expired
  {
    match op
    case Add(rec) =>
      AddCounts(t, rec, Outstanding);
      AddCounts(t, rec, Consumed);
      AddCounts(t, rec, Expired);
    case Validate(_, _) =>
    case Consume(q, now) =>
      if q.sessionId in t {
        var to := if Verdict(t, q, now) == Success then Consumed else Expired;
        MoveCounts(t, q.sessionId, to, Outstanding);
        MoveCounts(t, q.sessionId, to, Consumed);
        MoveCounts(t, q.sessionId, to, Expired);
      }
    case Expire(now) =>
      ExpireCounts(t, now);
  }

  /**
   * The books balance over every run: what before added is active, consumed or expired, the consumed records
   * are the successes reported, and the expired ones those that expiring and late consuming reported.
   */
  lemma {:induction false} Accounting(t: Table, ops: seq<Op>)
    requires DistinctAdds(t, ops)
    ensures var t', r := Run(t, ops), Total(t, ops);
      && Count(t, Outstanding) + r.added == Count(t', Outstanding) + r.consumed + r.expired
      && Count(t', Consumed) == Count(t, Consumed) + r.consumed
      && Count(t', Expired) == Count(t, Expired) + r.expired
    decreases |ops|
  {
    if ops != [] {
      StepCounts(t, ops[0]);
      Accounting(Apply(t, ops[0]), ops[1..]);
    }
  }

  predicate NotReplaced(s: Uuid, ops: seq<Op>) {
    forall i :: 0 <= i < |ops| && ops[i].Add? ==> ops[i].record.sessionId != s
  }

  /** Until a session is added anew its record stays as it is, but for the state, which once closed stays closed. */
  lemma {:induction false} Absorbing(t: Table, s: Uuid, ops: seq<Op>)
    requires s in t && NotReplaced(s, ops)
    ensures var t' := Run(t, ops);
      && s in t' && t'[s].(state := t[s].state) == t[s]
      && (!t[s].state.Outstanding? ==> t'[s] == t[s])
    decreases |ops|
  {
    if ops != [] {
      assert s in Apply(t, ops[0]);
      Absorbing(Apply(t, ops[0]), s, ops[1..]);
    }
  }
}
