/**
 * The agent as a transition system. Every response is processed in four separately locked steps, and
 * between them anything else may happen: other responses, new challenges, expiry, registry changes.
 */
module UnlockProtocol {
  import opened Bytes
  import opened Challenges
  import opened DeviceRegistry
  import opened Protocol

  /** Whether a signature, in whatever form it arrives, is one of a message under a key. */
  type Verifier = (PublicKey, seq<Byte>, seq<Byte>) -> bool

  /** How far a response has come, and the key handle it has in hand. */
  datatype Stage = Parsed | Validated | KeyFound(handle: Handle) | SignatureValid | Done(code: ErrorCode)

  /** One call of ProcessUnlockResponse with its locals: the frame's payload, what it says, and the time it read. */
  datatype Flight =
    | Refused(payload: seq<Byte>, code: ErrorCode)
    | Flight(payload: seq<Byte>, content: AuthPayload, now: Uint64, stage: Stage)

  datatype Agent = Agent(pcId: Uuid, store: Table, registry: Registry, flights: seq<Flight>)

  /**
   * Advance lets response i take its next step. Verifying under a handle that is no longer live has no defined
   * outcome; stray is what it turns out to be.
   */
  datatype Step =
    | Issue(record: ChallengeRecord)
    | ExpireAll(now: Uint64)
    | Change(op: RegistryOp)
    | Receive(payload: seq<Byte>, now: Uint64)
    | Advance(i: nat, stray: bool)

  // ----- the steps of one response

  /** Everything up to the first lock. The time is read once. */
  function Begin(payload: seq<Byte>, now: Uint64): Flight {
    if |payload| < 108 + 8 then Refused(payload, InvalidRequest)
    else
      match Decode(payload[..108])
      case Err(e) => Refused(payload, e)
      case Ok(p) => Flight(payload, p, now, Parsed)
  }

  /** The session, device and challenge of the payload, but the PC id of the agent. */
  function QueryOf(pcId: Uuid, p: AuthPayload): Query {
    Query(p.sessionId, p.deviceId, pcId, p.challenge)
  }

  /** What VerifySignature returns. */
  predicate Accepts(verify: Verifier, keys: map<Handle, PublicKey>, h: Handle, message: seq<Byte>, signature: seq<Byte>,
                    stray: bool) {
    h != 0 && message != [] && if h in keys then verify(keys[h], message, signature) else stray
  }

  function NextStage(verify: Verifier, a: Agent, f: Flight, stray: bool): Stage
    requires f.Flight?
  {
    match f.stage
    case Parsed =>
      var e := Verdict(a.store, QueryOf(a.pcId, f.content), f.now);
      if e == Success then Validated else Done(e)
    case Validated =>
      var h := Lookup(a.registry, f.content.deviceId);
      if h == 0 then Done(UnknownDevice) else KeyFound(h)
    case KeyFound(h) =>
      if |f.payload| >= 108 && Accepts(verify, a.registry.keys, h, f.payload[..108], f.payload[108..], stray)
      then SignatureValid
      else Done(InvalidSignature)
    case SignatureValid => Done(Verdict(a.store, QueryOf(a.pcId, f.content), f.now))
    case Done(_) => f.stage
  }

  function Next(verify: Verifier, a: Agent, step: Step): Agent {
    match step
    case Issue(rec) => a.(store := a.store[rec.sessionId := rec])
    case ExpireAll(now) => a.(store := AfterExpire(a.store, now))
    case Change(op) => a.(registry := ApplyChange(a.registry, op))
    case Receive(payload, now) => a.(flights := a.flights + [Begin(payload, now)])
    case Advance(i, stray) =>
      if i >= |a.flights| || a.flights[i].Refused? then a
      else
        var f := a.flights[i];
        a.(flights := a.flights[i := f.(stage := NextStage(verify, a, f, stray))],
           store := if f.stage.SignatureValid? then AfterConsume(a.store, QueryOf(a.pcId, f.content), f.now)
                    else a.store)
  }

  /** The agent after k steps of a run. */
  function At(verify: Verifier, start: Agent, steps: seq<Step>, k: nat): Agent
    requires k <= |steps|
    decreases k
  {
    if k == 0 then start else Next(verify, At(verify, start, steps, k - 1), steps[k - 1])
  }

  // ----- at most one success for every time a challenge is issued

  predicate Succeeded(f: Flight, s: Uuid) {
    f.Flight? && f.stage == Done(Success) && f.content.sessionId == s
  }

  function Successes(flights: seq<Flight>, s: Uuid): nat {
    if flights == [] then 0
    else Successes(flights[..|flights| - 1], s) + (if Succeeded(flights[|flights| - 1], s) then 1 else 0)
  }

  predicate IssuesFor(step: Step, s: Uuid) {
    step.Issue? && step.record.sessionId == s && step.record.state.Outstanding?
  }

  /** How often the first k steps add an outstanding record for a session; adding replaces an earlier record. */
  function Issues(steps: seq<Step>, s: Uuid, k: nat): nat
    requires k <= |steps|
    decreases k
  {
    if k == 0 then 0 else Issues(steps, s, k - 1) + (if IssuesFor(steps[k - 1], s) then 1 else 0)
  }

  function Open(t: Table, s: Uuid): nat {
    if s in t && t[s].state.Outstanding? then 1 else 0
  }

  lemma {:induction false} SuccessesUpdate(flights: seq<Flight>, i: nat, f: Flight, s: Uuid)
    requires i < |flights|
    ensures Successes(flights[i := f], s) + (if Succeeded(flights[i], s) then 1 else 0)
         == Successes(flights, s) + (if Succeeded(f, s) then 1 else 0)
    decreases |flights|
  {
    var n := |flights| - 1;
    if i < n {
      SuccessesUpdate(flights[..n], i, f, s);
      assert flights[i := f][..n] == flights[..n][i := f];
    } else {
      assert flights[i := f][..n] == flights[..n];
    }
  }

  lemma {:induction false} SuccessesAppend(flights: seq<Flight>, f: Flight, s: Uuid)
    ensures Successes(flights + [f], s) == Successes(flights, s) + (if Succeeded(f, s) then 1 else 0)
  {
    assert (flights + [f])[..|flights|] == flights;
  }

  /** A step that turns a response into a success takes the record out of the outstanding state. */
  lemma {:induction false} StepSpends(verify: Verifier, a: Agent, step: Step, s: Uuid)
    ensures var a' := Next(verify, a, step);
      Successes(a'.flights, s) + Open(a'.store, s)
        <= Successes(a.flights, s) + Open(a.store, s) + (if IssuesFor(step, s) then 1 else 0)
  {
    match step
    case Issue(rec) =>
    case ExpireAll(now) =>
    case Change(op) =>
    case Receive(payload, now) =>
      SuccessesAppend(a.flights, Begin(payload, now), s);
    case Advance(i, stray) =>
      if i < |a.flights| && a.flights[i].Flight? {
        var f := a.flights[i];
        SuccessesUpdate(a.flights, i, f.(stage := NextStage(verify, a, f, stray)), s);
      }
  }

  /** However the steps interleave, a session never has more successes than it had challenges issued. */
  lemma {:induction false} AtMostOneSuccessPerIssue(verify: Verifier, start: Agent, steps: seq<Step>, k: nat, s: Uuid)
    requires k <= |steps|
    ensures var a := At(verify, start, steps, k);
      Successes(a.flights, s) + Open(a.store, s)
        <= Successes(start.flights, s) + Open(start.store, s) + Issues(steps, s, k)
    decreases k
  {
    if k > 0 {
      AtMostOneSuccessPerIssue(verify, start, steps, k - 1, s);
      StepSpends(verify, At(verify, start, steps, k - 1), steps[k - 1], s);
    }
  }

  // ----- what a success means

  /** The steps at which a response did what it did. */
  datatype Trace = Trace(received: nat, validated: nat, lookedUp: nat, checked: nat, consumed: nat, handle: Handle)

  /** Steps completed by a response; a failed one counts no more than its parsing. */
  function Rank(stage: Stage): nat {
    match stage
    case Parsed => 0
    case Validated => 1
    case KeyFound(_) => 2
    case SignatureValid => 3
    case Done(e) => if e == Success then 4 else 0
  }

  predicate Moves(step: Step, i: nat) {
    step.Advance? && step.i == i
  }

  predicate IsParsed(steps: seq<Step>, f: Flight, w: Trace)
    requires f.Flight?
  {
    && w.received < |steps| && steps[w.received] == Receive(f.payload, f.now)
    && |f.payload| >= 116 && Decode(f.payload[..108]) == Ok(f.content)
  }

  /** At this step of the run the stored record answered the response's query. */
  predicate Answered(verify: Verifier, start: Agent, steps: seq<Step>, i: nat, f: Flight, at: nat)
    requires f.Flight?
  {
    && at < |steps| && Moves(steps[at], i)
    && var t, s := At(verify, start, steps, at).store, f.content.sessionId;
       s in t && Answers(t[s], QueryOf(start.pcId, f.content), f.now)
  }

  /** At this step the device was registered and enabled, and this was its handle. */
  predicate WasFound(verify: Verifier, start: Agent, steps: seq<Step>, i: nat, f: Flight, at: nat, h: Handle)
    requires f.Flight?
  {
    && at < |steps| && Moves(steps[at], i)
    && var entries, d := At(verify, start, steps, at).registry.entries, f.content.deviceId;
       h != 0 && d in entries && entries[d].enabled && entries[d].handle == h
  }

  predicate WasVerified(verify: Verifier, start: Agent, steps: seq<Step>, i: nat, f: Flight, at: nat, h: Handle)
    requires f.Flight?
  {
    && at < |steps| && Moves(steps[at], i) && |f.payload| >= 108
    && Accepts(verify, At(verify, start, steps, at).registry.keys, h, f.payload[..108], f.payload[108..],
               steps[at].stray)
  }

  predicate Explains(verify: Verifier, start: Agent, steps: seq<Step>, i: nat, f: Flight, w: Trace, rank: nat)
    requires f.Flight?
  {
    && IsParsed(steps, f, w)
    && (rank >= 1 ==> w.received < w.validated && Answered(verify, start, steps, i, f, w.validated))
    && (rank >= 2 ==> w.validated < w.lookedUp && WasFound(verify, start, steps, i, f, w.lookedUp, w.handle))
    && (rank >= 3 ==> w.lookedUp < w.checked && WasVerified(verify, start, steps, i, f, w.checked, w.handle))
    && (rank >= 4 ==> w.checked < w.consumed && Answered(verify, start, steps, i, f, w.consumed))
  }

  /** The last step that a trace of this rank names. */
  function LastOf(w: Trace, rank: nat): nat {
    if rank == 0 then w.received else if rank == 1 then w.validated else if rank == 2 then w.lookedUp
    else if rank == 3 then w.checked else w.consumed
  }

  lemma {:induction false} PcIdKept(verify: Verifier, start: Agent, steps: seq<Step>, k: nat)
    requires k <= |steps|
    ensures At(verify, start, steps, k).pcId == start.pcId
    decreases k
  {
    if k > 0 {
      PcIdKept(verify, start, steps, k - 1);
    }
  }

  lemma {:induction false} Undisturbed(verify: Verifier, a: Agent, step: Step, i: nat)
    requires i < |a.flights| && !Moves(step, i)
    ensures i < |Next(verify, a, step).flights| && Next(verify, a, step).flights[i] == a.flights[i]
  {
  }

  /** The first k steps explain the stage that a response has reached. */
  predicate HasPast(verify: Verifier, start: Agent, steps: seq<Step>, k: nat, i: nat, f: Flight, w: Trace)
    requires f.Flight?
  {
    && Explains(verify, start, steps, i, f, w, Rank(f.stage)) && LastOf(w, Rank(f.stage)) < k
    && (f.stage.KeyFound? ==> f.stage.handle == w.handle)
  }

  /** Every response in flight has a past that explains the stage it has reached. */
  lemma {:induction false} Explained(verify: Verifier, start: Agent, steps: seq<Step>, k: nat, i: nat)
    returns (w: Trace)
    requires k <= |steps| && start.flights == []
    requires i < |At(verify, start, steps, k).flights| && At(verify, start, steps, k).flights[i].Flight?
    ensures HasPast(verify, start, steps, k, i, At(verify, start, steps, k).flights[i], w)
    decreases k
  {
    if i >= |At(verify, start, steps, k - 1).flights| {
      w := BeginExplained(verify, start, steps, k, i);
    } else {
      InFlightBefore(verify, start, steps, k, i);
      w := Explained(verify, start, steps, k - 1, i);
      if Moves(steps[k - 1], i) {
        w := MoveExplained(verify, start, steps, k, i, w);
      } else {
        LongerPast(verify, start, steps, k, i, At(verify, start, steps, k).flights[i], w);
      }
    }
  }

  lemma {:induction false} InFlightBefore(verify: Verifier, start: Agent, steps: seq<Step>, k: nat, i: nat)
    requires 0 < k <= |steps| && i < |At(verify, start, steps, k - 1).flights|
    ensures i < |At(verify, start, steps, k).flights|
    ensures var f, f' := At(verify, start, steps, k - 1).flights[i], At(verify, start, steps, k).flights[i];
      (f'.Flight? ==> f.Flight?) && (!Moves(steps[k - 1], i) ==> f' == f)
  {
    if !Moves(steps[k - 1], i) {
      Undisturbed(verify, At(verify, start, steps, k - 1), steps[k - 1], i);
    }
  }

  lemma {:induction false} LongerPast(verify: Verifier, start: Agent, steps: seq<Step>, k: nat, i: nat, f: Flight,
                                      w: Trace)
    requires 0 < k && f.Flight? && HasPast(verify, start, steps, k - 1, i, f, w)
    ensures HasPast(verify, start, steps, k, i, f, w)
  {
  }

  lemma {:induction false} MoveExplained(verify: Verifier, start: Agent, steps: seq<Step>, k: nat, i: nat, w: Trace)
    returns (w': Trace)
    requires 0 < k <= |steps| && i < |At(verify, start, steps, k - 1).flights|
    requires At(verify, start, steps, k - 1).flights[i].Flight? && Moves(steps[k - 1], i)
    requires HasPast(verify, start, steps, k - 1, i, At(verify, start, steps, k - 1).flights[i], w)
    ensures i < |At(verify, start, steps, k).flights| && At(verify, start, steps, k).flights[i].Flight?
    ensures HasPast(verify, start, steps, k, i, At(verify, start, steps, k).flights[i], w')
  {
    MovedOn(verify, start, steps, k, i);
    PcIdKept(verify, start, steps, k - 1);
    w' := AdvanceExplained(verify, start, steps, k, i, At(verify, start, steps, k - 1).flights[i], w);
  }

  lemma {:induction false} MovedOn(verify: Verifier, start: Agent, steps: seq<Step>, k: nat, i: nat)
    requires 0 < k <= |steps| && i < |At(verify, start, steps, k - 1).flights|
    requires At(verify, start, steps, k - 1).flights[i].Flight? && Moves(steps[k - 1], i)
    ensures i < |At(verify, start, steps, k).flights|
    ensures var a := At(verify, start, steps, k - 1); var f := a.flights[i];
      At(verify, start, steps, k).flights[i] == f.(stage := NextStage(verify, a, f, steps[k - 1].stray))
  {
    Advanced(verify, At(verify, start, steps, k - 1), i, steps[k - 1].stray);
  }

  lemma {:induction false} Advanced(verify: Verifier, a: Agent, i: nat, stray: bool)
    requires i < |a.flights|
    ensures var f, f' := a.flights[i], Next(verify, a, Advance(i, stray)).flights[i];
      f' == if f.Flight? then f.(stage := NextStage(verify, a, f, stray)) else f
  {
  }

  lemma {:induction false} BeginExplained(verify: Verifier, start: Agent, steps: seq<Step>, k: nat, i: nat)
    returns (w: Trace)
    requires 0 < k <= |steps| && |At(verify, start, steps, k - 1).flights| <= i < |At(verify, start, steps, k).flights|
    requires At(verify, start, steps, k).flights[i].Flight?
    ensures HasPast(verify, start, steps, k, i, At(verify, start, steps, k).flights[i], w)
  {
    w := Trace(k - 1, 0, 0, 0, 0, 0);
  }

  lemma {:induction false} AdvanceExplained(verify: Verifier, start: Agent, steps: seq<Step>, k: nat, i: nat, f: Flight,
                                            w: Trace)
    returns (w': Trace)
    requires 0 < k <= |steps| && Moves(steps[k - 1], i) && At(verify, start, steps, k - 1).pcId == start.pcId
    requires f.Flight? && HasPast(verify, start, steps, k - 1, i, f, w)
    ensures var f' := f.(stage := NextStage(verify, At(verify, start, steps, k - 1), f, steps[k - 1].stray));
      HasPast(verify, start, steps, k, i, f', w')
  {
    if f.stage.Parsed? || f.stage.Validated? {
      w' := EarlyStepExplained(verify, start, steps, k, i, f, w);
    } else {
      w' := LateStepExplained(verify, start, steps, k, i, f, w);
    }
  }

  lemma {:induction false} EarlyStepExplained(verify: Verifier, start: Agent, steps: seq<Step>, k: nat, i: nat,
                                              f: Flight, w: Trace)
    returns (w': Trace)
    requires 0 < k <= |steps| && Moves(steps[k - 1], i) && At(verify, start, steps, k - 1).pcId == start.pcId
    requires f.Flight? && HasPast(verify, start, steps, k - 1, i, f, w)
    requires f.stage.Parsed? || f.stage.Validated?
    ensures var f' := f.(stage := NextStage(verify, At(verify, start, steps, k - 1), f, steps[k - 1].stray));
      HasPast(verify, start, steps, k, i, f', w')
  {
    if f.stage.Parsed? {
      w' := w.(validated := k - 1);
    } else {
      w' := w.(lookedUp := k - 1, handle := Lookup(At(verify, start, steps, k - 1).registry, f.content.deviceId));
    }
  }

  lemma {:induction false} LateStepExplained(verify: Verifier, start: Agent, steps: seq<Step>, k: nat, i: nat,
                                             f: Flight, w: Trace)
    returns (w': Trace)
    requires 0 < k <= |steps| && Moves(steps[k - 1], i) && At(verify, start, steps, k - 1).pcId == start.pcId
    requires f.Flight? && HasPast(verify, start, steps, k - 1, i, f, w)
    requires !f.stage.Parsed? && !f.stage.Validated?
    ensures var f' := f.(stage := NextStage(verify, At(verify, start, steps, k - 1), f, steps[k - 1].stray));
      HasPast(verify, start, steps, k, i, f', w')
  {
    match f.stage
    case KeyFound(h) =>
      CheckExplained(verify, start, steps, k, i, f, w);
      w' := w.(checked := k - 1);
    case SignatureValid =>
      ConsumeExplained(verify, start, steps, k, i, f, w);
      w' := w.(consumed := k - 1);
    case Done(_) => w' := w;
  }

  lemma {:induction false} CheckExplained(verify: Verifier, start: Agent, steps: seq<Step>, k: nat, i: nat, f: Flight,
                                          w: Trace)
    requires 0 < k <= |steps| && Moves(steps[k - 1], i)
    requires f.Flight? && HasPast(verify, start, steps, k - 1, i, f, w) && f.stage.KeyFound?
    ensures var f' := f.(stage := NextStage(verify, At(verify, start, steps, k - 1), f, steps[k - 1].stray));
      HasPast(verify, start, steps, k, i, f', w.(checked := k - 1))
  {
  }

  lemma {:induction false} ConsumeExplained(verify: Verifier, start: Agent, steps: seq<Step>, k: nat, i: nat,
                                            f: Flight, w: Trace)
    requires 0 < k <= |steps| && Moves(steps[k - 1], i) && At(verify, start, steps, k - 1).pcId == start.pcId
    requires f.Flight? && HasPast(verify, start, steps, k - 1, i, f, w) && f.stage.SignatureValid?
    ensures var f' := f.(stage := NextStage(verify, At(verify, start, steps, k - 1), f, steps[k - 1].stray));
      HasPast(verify, start, steps, k, i, f', w.(consumed := k - 1))
  {
  }

  /** Every stored record is one that was issued, but for its state; while it is outstanding, it is that very record. */
  lemma {:induction false} IssuedAt(verify: Verifier, start: Agent, steps: seq<Step>, k: nat, s: Uuid) returns (j: nat)
    requires k <= |steps| && start.store == map[] && s in At(verify, start, steps, k).store
    ensures j < k && steps[j].Issue? && steps[j].record.sessionId == s
    ensures var rec := At(verify, start, steps, k).store[s];
      steps[j].record.(state := rec.state) == rec && (rec.state.Outstanding? ==> steps[j].record == rec)
    decreases k
  {
    var step := steps[k - 1];
    if step.Issue? && step.record.sessionId == s {
      j := k - 1;
    } else {
      j := IssuedAt(verify, start, steps, k - 1, s);
    }
  }

  lemma {:induction false} RegistryOwned(verify: Verifier, start: Agent, steps: seq<Step>, k: nat)
    requires k <= |steps| && Owned(start.registry)
    ensures Owned(At(verify, start, steps, k).registry)
    decreases k
  {
    if k > 0 {
      RegistryOwned(verify, start, steps, k - 1);
      if steps[k - 1].Change? {
        ChangeKeepsOwned(At(verify, start, steps, k - 1).registry, steps[k - 1].op);
      }
    }
  }

  /** A successful registration or removal of this device. */
  predicate ChangesDevice(r: Registry, step: Step, d: Uuid) {
    step.Change? && step.op.id == d && ApplyChange(r, step.op) != r
  }

  predicate DeviceUntouched(verify: Verifier, start: Agent, steps: seq<Step>, d: Uuid, lo: nat, hi: nat)
    requires hi <= |steps|
  {
    forall k :: lo <= k < hi ==> !ChangesDevice(At(verify, start, steps, k).registry, steps[k], d)
  }

  lemma {:induction false} NextSpares(verify: Verifier, a: Agent, step: Step, d: Uuid)
    requires Owned(a.registry) && d in a.registry.entries && !ChangesDevice(a.registry, step, d)
    ensures SameDevice(a.registry, Next(verify, a, step).registry, d)
  {
    if step.Change? {
      ChangeSpares(a.registry, step.op, d);
    } else {
      assert Next(verify, a, step).registry == a.registry;
    }
  }

  /** The handle is live in both and stands for the same key. */
  predicate SameKey(r: Registry, r': Registry, h: Handle) {
    h in r.keys && h in r'.keys && r'.keys[h] == r.keys[h]
  }

  /** The device has the same entry and the same live key in both. */
  predicate SameDevice(r: Registry, r': Registry, d: Uuid) {
    d in r.entries && d in r'.entries && r'.entries[d] == r.entries[d] && SameKey(r, r', r.entries[d].handle)
  }

  /** As long as a device is not changed, its entry stays, its key is live, and its handle stands for that key. */
  lemma {:induction false} KeyKept(verify: Verifier, start: Agent, steps: seq<Step>, d: Uuid, lo: nat, hi: nat)
    requires lo <= hi <= |steps| && Owned(start.registry) && d in At(verify, start, steps, lo).registry.entries
    requires DeviceUntouched(verify, start, steps, d, lo, hi)
    ensures SameDevice(At(verify, start, steps, lo).registry, At(verify, start, steps, hi).registry, d)
    decreases hi
  {
    if lo == hi {
      RegistryOwned(verify, start, steps, lo);
    } else {
      KeyKept(verify, start, steps, d, lo, hi - 1);
      RegistryOwned(verify, start, steps, hi - 1);
      NextSpares(verify, At(verify, start, steps, hi - 1), steps[hi - 1], d);
    }
  }

  /**
   * In every run from an empty store, a success means what it says. The payload was received and decodes to the
   * response's fields; later the device was looked up, registered and enabled, and the signature over exactly
   * the first 108 bytes was accepted under its handle; later still, when the record was consumed, it was the
   * outstanding one of that session, for that device, that challenge and this PC, as issued earlier in the
   * run, and the time that the response had read was within its lifetime. The registry is not locked between
   * lookup and verification: the signature is one under the key of the lookup if the handle still stood for that
   * key when it was verified. AcceptedIsSigned says that this is the exact condition.
   */
  lemma {:induction false} SuccessMeansWhatItSays(verify: Verifier, start: Agent, steps: seq<Step>, k: nat, i: nat,
                                                  f: Flight)
    returns (w: Trace, issued: nat)
    requires k <= |steps| && start.flights == [] && start.store == map[] && Owned(start.registry)
    requires i < |At(verify, start, steps, k).flights| && At(verify, start, steps, k).flights[i] == f
    requires f.Flight? && f.stage == Done(Success)
    ensures w.received < w.validated < w.lookedUp < w.checked < w.consumed < k && issued < w.consumed
    ensures IsParsed(steps, f, w)
    ensures WasFound(verify, start, steps, i, f, w.lookedUp, w.handle)
    ensures WasVerified(verify, start, steps, i, f, w.checked, w.handle)
    ensures KeyAsFound(verify, start, steps, w.handle, w.lookedUp, w.checked) ==>
      SignedAtLookup(verify, start, steps, f, w)
    ensures Answered(verify, start, steps, i, f, w.consumed)
    ensures var rec := At(verify, start, steps, w.consumed).store[f.content.sessionId];
      && steps[issued] == Issue(rec) && (Timed(rec) ==> f.now <= rec.creationTimestampMs + 30000)
      && rec.sessionId == f.payload[36..52] && MatchesPayload(rec, f.payload, start.pcId, f.now)
  {
    w := Explained(verify, start, steps, k, i);
    assert Explains(verify, start, steps, i, f, w, 4);
    issued := IssuedRecord(verify, start, steps, i, f, w.consumed);
    RecordMatches(verify, start, steps, i, f, w.consumed);
  }

  /** The record that answered is one for the fields of the payload, and for this PC. */
  lemma {:induction false} RecordMatches(verify: Verifier, start: Agent, steps: seq<Step>, i: nat, f: Flight, at: nat)
    requires f.Flight? && Answered(verify, start, steps, i, f, at)
    requires |f.payload| >= 116 && Decode(f.payload[..108]) == Ok(f.content)
    ensures f.content.sessionId == f.payload[36..52]
    ensures var rec := At(verify, start, steps, at).store[f.content.sessionId];
      MatchesPayload(rec, f.payload, start.pcId, f.now)
  {
    FieldsOfPayload(f);
  }

  /** Outstanding, in time, for this PC, and with the device and the challenge at their places in the payload. */
  predicate MatchesPayload(rec: ChallengeRecord, payload: seq<Byte>, pcId: Uuid, now: Uint64) {
    && rec.state == Outstanding && now <= rec.expirationTimestampMs && rec.pcId == pcId
    && |payload| >= 116 && rec.deviceId == payload[20..36] && rec.challenge == payload[68..100]
  }

  lemma {:induction false} FieldsOfPayload(f: Flight)
    requires f.Flight? && |f.payload| >= 116 && Decode(f.payload[..108]) == Ok(f.content)
    ensures f.content.deviceId == f.payload[20..36] && f.content.sessionId == f.payload[36..52]
    ensures f.content.pcId == f.payload[52..68] && f.content.challenge == f.payload[68..100]
  {
    DecodedFields(f.payload[..108]);
    SliceOfPrefix(f.payload, 108, 20, 36);
    SliceOfPrefix(f.payload, 108, 36, 52);
    SliceOfPrefix(f.payload, 108, 52, 68);
    SliceOfPrefix(f.payload, 108, 68, 100);
  }

  lemma {:induction false} SliceOfPrefix(s: seq<Byte>, n: nat, i: nat, j: nat)
    requires i <= j <= n <= |s|
    ensures s[..n][i..j] == s[i..j]
  {
  }

  lemma {:induction false} IssuedRecord(verify: Verifier, start: Agent, steps: seq<Step>, i: nat, f: Flight, at: nat)
    returns (issued: nat)
    requires f.Flight? && start.store == map[] && Answered(verify, start, steps, i, f, at)
    ensures issued < at
    ensures var rec := At(verify, start, steps, at).store[f.content.sessionId];
      && rec.sessionId == f.content.sessionId
      && steps[issued] == Issue(rec) && (Timed(rec) ==> f.now <= rec.creationTimestampMs + 30000)
  {
    issued := IssuedAt(verify, start, steps, at, f.content.sessionId);
  }

  /** What the handle stood for at step lo it also stands for at step hi. */
  predicate KeyAsFound(verify: Verifier, start: Agent, steps: seq<Step>, h: Handle, lo: nat, hi: nat) {
    && lo <= hi <= |steps|
    && SameKey(At(verify, start, steps, lo).registry, At(verify, start, steps, hi).registry, h)
  }

  /** A device that is not changed between lookup and verification is enough for that. */
  lemma {:induction false} UntouchedIsEnough(verify: Verifier, start: Agent, steps: seq<Step>, i: nat, f: Flight,
                                             w: Trace)
    requires f.Flight? && w.lookedUp <= w.checked <= |steps| && Owned(start.registry)
    requires WasFound(verify, start, steps, i, f, w.lookedUp, w.handle)
    requires DeviceUntouched(verify, start, steps, f.content.deviceId, w.lookedUp, w.checked)
    ensures KeyAsFound(verify, start, steps, w.handle, w.lookedUp, w.checked)
  {
    KeyKept(verify, start, steps, f.content.deviceId, w.lookedUp, w.checked);
  }

  /** What verifies does not matter to the registry. */
  lemma {:induction false} RegistryAlike(verify: Verifier, verify': Verifier, start: Agent, steps: seq<Step>, k: nat)
    requires k <= |steps|
    ensures At(verify', start, steps, k).registry == At(verify, start, steps, k).registry
    decreases k
  {
    if k > 0 {
      RegistryAlike(verify, verify', start, steps, k - 1);
    }
  }

  /** If the handle found at step lo is accepted at step hi, then the signature is one under the key found. */
  predicate SignedIfAccepted(verify: Verifier, start: Agent, steps: seq<Step>, h: Handle, message: seq<Byte>,
                             signature: seq<Byte>, lo: nat, hi: nat, stray: bool)
    requires lo <= hi <= |steps|
  {
    var found := At(verify, start, steps, lo).registry.keys;
    Accepts(verify, At(verify, start, steps, hi).registry.keys, h, message, signature, stray) ==>
      h in found && verify(found[h], message, signature)
  }

  /**
   * An accepted signature is one under the key found at the lookup, whatever keys, messages and signatures belong
   * together and whatever a dead handle brings, if and only if the handle still stands for the key found.
   */
  lemma {:induction false} AcceptedIsSigned(verify: Verifier, start: Agent, steps: seq<Step>, h: Handle,
                                            message: seq<Byte>, signature: seq<Byte>, lo: nat, hi: nat)
    requires lo <= hi <= |steps| && h != 0 && message != [] && h in At(verify, start, steps, lo).registry.keys
    ensures KeyAsFound(verify, start, steps, h, lo, hi)
       <==> forall v: Verifier, stray :: SignedIfAccepted(v, start, steps, h, message, signature, lo, hi, stray)
  {
    if KeyAsFound(verify, start, steps, h, lo, hi) {
      forall v: Verifier, stray ensures SignedIfAccepted(v, start, steps, h, message, signature, lo, hi, stray) {
        RegistryAlike(verify, v, start, steps, lo);
        RegistryAlike(verify, v, start, steps, hi);
      }
    } else {
      var v, stray := AcceptedUnsigned(verify, start, steps, h, message, signature, lo, hi);
    }
  }

  /** Without that, a dead handle or the key that it has come to stand for can let another signature pass. */
  lemma {:induction false} AcceptedUnsigned(verify: Verifier, start: Agent, steps: seq<Step>, h: Handle,
                                            message: seq<Byte>, signature: seq<Byte>, lo: nat, hi: nat)
    returns (v: Verifier, stray: bool)
    requires lo <= hi <= |steps| && h != 0 && message != [] && h in At(verify, start, steps, lo).registry.keys
    requires !KeyAsFound(verify, start, steps, h, lo, hi)
    ensures !SignedIfAccepted(v, start, steps, h, message, signature, lo, hi, stray)
  {
    var now := At(verify, start, steps, hi).registry.keys;
    stray := true;
    v := (key, m, s) => h in now && key == now[h];
    RegistryAlike(verify, v, start, steps, lo);
    RegistryAlike(verify, v, start, steps, hi);
  }

  /** The signature over the first 108 bytes is one under the key that the handle stood for at the lookup. */
  predicate SignedAtLookup(verify: Verifier, start: Agent, steps: seq<Step>, f: Flight, w: Trace)
    requires f.Flight?
  {
    w.lookedUp <= |steps| && |f.payload| >= 108
    && var keys := At(verify, start, steps, w.lookedUp).registry.keys;
       w.handle in keys && verify(keys[w.handle], f.payload[..108], f.payload[108..])
  }

  // ----- after a success

  /** No record is added for the session from step lo to step hi. */
  predicate NotReissued(steps: seq<Step>, s: Uuid, lo: nat, hi: nat)
    requires hi <= |steps|
  {
    forall k :: lo <= k < hi ==> !(steps[k].Issue? && steps[k].record.sessionId == s)
  }

  lemma {:induction false} SpentStays(verify: Verifier, start: Agent, steps: seq<Step>, s: Uuid, lo: nat, hi: nat)
    requires lo <= hi <= |steps| && NotReissued(steps, s, lo, hi)
    requires s in At(verify, start, steps, lo).store && At(verify, start, steps, lo).store[s].state.Consumed?
    ensures SameRecord(At(verify, start, steps, lo).store, At(verify, start, steps, hi).store, s)
    decreases hi
  {
    if lo < hi {
      SpentStays(verify, start, steps, s, lo, hi - 1);
    }
  }

  /** The step that makes a response a success leaves its record consumed. */
  lemma {:induction false} SuccessSpends(verify: Verifier, a: Agent, step: Step, i: nat)
    requires i < |a.flights| && a.flights[i].Flight? && !a.flights[i].stage.Done?
    requires Next(verify, a, step).flights[i] == a.flights[i].(stage := Done(Success))
    ensures var s, t := a.flights[i].content.sessionId, Next(verify, a, step).store; s in t && t[s].state.Consumed?
  {
    var f := a.flights[i];
    if Moves(step, i) {
      Move(verify, a, i, step.stray);
      ConsumeOnce(a.store, QueryOf(a.pcId, f.content), f.now, f.now);
    } else {
      Undisturbed(verify, a, step, i);
    }
  }

  /**
   * However the steps interleave, once a response has succeeded, at step c, every other one for its session finds the
   * challenge consumed when it comes to validate or to consume it, at step n, unless the session is issued anew.
   */
  lemma {:induction false} OneWinner(verify: Verifier, start: Agent, steps: seq<Step>, c: nat, i: nat, n: nat, j: nat)
    requires c < n < |steps| && i < |At(verify, start, steps, c).flights|
    requires At(verify, start, steps, c).flights[i].Flight? && !At(verify, start, steps, c).flights[i].stage.Done?
    requires At(verify, start, steps, c + 1).flights[i]
          == At(verify, start, steps, c).flights[i].(stage := Done(Success))
    requires Moves(steps[n], j) && j < |At(verify, start, steps, n).flights|
    requires At(verify, start, steps, n).flights[j].Flight?
    requires At(verify, start, steps, n).flights[j].stage in {Parsed, SignatureValid}
    requires var s := At(verify, start, steps, c).flights[i].content.sessionId;
      At(verify, start, steps, n).flights[j].content.sessionId == s && NotReissued(steps, s, c + 1, n)
    ensures j < |At(verify, start, steps, n + 1).flights|
    ensures At(verify, start, steps, n + 1).flights[j]
         == At(verify, start, steps, n).flights[j].(stage := Done(ChallengeAlreadyConsumed))
  {
    SuccessSpends(verify, At(verify, start, steps, c), steps[c], i);
    SpentStays(verify, start, steps, At(verify, start, steps, c).flights[i].content.sessionId, c + 1, n);
    Advanced(verify, At(verify, start, steps, n), j, steps[n].stray);
  }

  // ----- one response processed without interruption

  function OutcomeOf(verify: Verifier, pcId: Uuid, store: Table, r: Registry, f: Flight): ErrorCode
    requires f.Flight? && |f.payload| >= 108
  {
    var e, h := Verdict(store, QueryOf(pcId, f.content), f.now), Lookup(r, f.content.deviceId);
    if e != Success then e
    else if h == 0 then UnknownDevice
    else if !(h in r.keys && verify(r.keys[h], f.payload[..108], f.payload[108..])) then InvalidSignature
    else Success
  }

  function Outcome(verify: Verifier, pcId: Uuid, store: Table, r: Registry, payload: seq<Byte>,
                   now: Uint64): ErrorCode {
    var f := Begin(payload, now);
    if f.Refused? then f.code else OutcomeOf(verify, pcId, store, r, f)
  }

  function StoreAfter(verify: Verifier, pcId: Uuid, store: Table, r: Registry, payload: seq<Byte>, now: Uint64): Table {
    if Outcome(verify, pcId, store, r, payload, now) == Success
    then WithState(store, Begin(payload, now).content.sessionId, Consumed)
    else store
  }

  /** Each outcome of the uninterrupted call, from the bytes of the payload and the agent's own id. */
  lemma {:induction false} EachOutcome(verify: Verifier, pcId: Uuid, store: Table, r: Registry, payload: seq<Byte>,
                                       now: Uint64)
    requires Owned(r)
    ensures var v := Outcome(verify, pcId, store, r, payload, now);
      if |payload| < 116 then v == InvalidRequest
      else if Decode(payload[..108]).Err? then v == Decode(payload[..108]).error
      else
        var d := payload[20..36];
        var e := Challenges.Verdict(store, Query(payload[36..52], d, pcId, payload[68..100]), now);
        if e != Success then v == e
        else if d !in r.entries || !r.entries[d].enabled then v == UnknownDevice
        else v == if verify(r.keys[r.entries[d].handle], payload[..108], payload[108..]) then Success
                  else InvalidSignature
  {
    var f := Begin(payload, now);
    if f.Flight? {
      FieldsOfPayload(f);
      LookupLive(r, f.content.deviceId);
    }
  }

  predicate Ended(f: Flight, e: ErrorCode) {
    f == Refused(f.payload, e) || (f.Flight? && f.stage == Done(e))
  }

  /** A response that is received and then takes its steps in a row does what the uninterrupted call does. */
  lemma {:induction false} Sequential(verify: Verifier, a: Agent, payload: seq<Byte>, now: Uint64, stray: bool)
    requires Owned(a.registry)
    ensures var a' := TwoSteps(verify, TwoSteps(verify, Next(verify, a, Receive(payload, now)), |a.flights|, stray),
                               |a.flights|, stray);
      && |a'.flights| == |a.flights| + 1
      && Ended(a'.flights[|a.flights|], Outcome(verify, a.pcId, a.store, a.registry, payload, now))
      && a'.store == StoreAfter(verify, a.pcId, a.store, a.registry, payload, now) && a'.registry == a.registry
  {
    var i, f := |a.flights|, Begin(payload, now);
    var a1 := Next(verify, a, Receive(payload, now));
    assert a1.flights[i] == f;
    LookupLive(a.registry, if f.Flight? then f.content.deviceId else a.pcId);
    if f.Flight? {
      FourSteps(verify, a1, i, f, stray);
    }
  }

  lemma {:induction false} LookupLive(r: Registry, d: Uuid)
    requires Owned(r)
    ensures Lookup(r, d) != 0 ==> Lookup(r, d) in r.keys
  {
  }

  lemma {:induction false} FourSteps(verify: Verifier, a: Agent, i: nat, f: Flight, stray: bool)
    requires i < |a.flights| && a.flights[i] == f && f.Flight? && f.stage.Parsed? && |f.payload| >= 116
    requires var h := Lookup(a.registry, f.content.deviceId); h != 0 ==> h in a.registry.keys
    ensures var a', e := TwoSteps(verify, TwoSteps(verify, a, i, stray), i, stray),
                         OutcomeOf(verify, a.pcId, a.store, a.registry, f);
      && |a'.flights| == |a.flights| && a'.flights[i] == f.(stage := Done(e)) && a'.registry == a.registry
      && a'.store == if e == Success then WithState(a.store, f.content.sessionId, Consumed) else a.store
  {
    TwoMoves(verify, a, i, stray);
    TwoMoves(verify, TwoSteps(verify, a, i, stray), i, stray);
  }

  function TwoSteps(verify: Verifier, a: Agent, i: nat, stray: bool): Agent {
    Next(verify, Next(verify, a, Advance(i, stray)), Advance(i, stray))
  }

  /** Of two steps of a response, only consuming changes more than its stage. */
  lemma {:induction false} TwoMoves(verify: Verifier, a: Agent, i: nat, stray: bool)
    requires i < |a.flights| && a.flights[i].Flight? && !a.flights[i].stage.SignatureValid?
    ensures var f, a' := a.flights[i], TwoSteps(verify, a, i, stray);
      var f1 := f.(stage := NextStage(verify, a, f, stray));
      && |a'.flights| == |a.flights| && a'.flights[i] == f.(stage := NextStage(verify, a, f1, stray))
      && a'.registry == a.registry && a'.pcId == a.pcId
      && a'.store == if f1.stage.SignatureValid? then AfterConsume(a.store, QueryOf(a.pcId, f.content), f.now)
                     else a.store
  {
    Move(verify, a, i, stray);
    Move(verify, Next(verify, a, Advance(i, stray)), i, stray);
  }

  /** What one step of a response changes, and what it leaves alone. */
  lemma {:induction false} Move(verify: Verifier, a: Agent, i: nat, stray: bool)
    requires i < |a.flights| && a.flights[i].Flight?
    ensures var f, a' := a.flights[i], Next(verify, a, Advance(i, stray));
      && |a'.flights| == |a.flights| && a'.flights[i] == f.(stage := NextStage(verify, a, f, stray))
      && a'.registry == a.registry && a'.pcId == a.pcId
      && a'.store == if f.stage.SignatureValid? then AfterConsume(a.store, QueryOf(a.pcId, f.content), f.now)
                     else a.store
  {
  }

  // ----- a response that nothing interferes with

  predicate SameRecord(t: Table, t': Table, s: Uuid) {
    s in t && s in t' && t'[s] == t[s]
  }

  /** Both know the device by the same live handle, and the handle stands for the same key. */
  predicate SameFound(r: Registry, r': Registry, d: Uuid) {
    Lookup(r', d) == Lookup(r, d) && SameKey(r, r', Lookup(r, d))
  }

  /** A step that is not one of response i changes the record of this session, or the key found for this device. */
  predicate Interferes(verify: Verifier, a: Agent, step: Step, i: nat, s: Uuid, d: Uuid) {
    var a' := Next(verify, a, step);
    !Moves(step, i) && !(SameRecord(a.store, a'.store, s) && SameFound(a.registry, a'.registry, d))
  }

  /** Only four kinds of steps ever do. */
  lemma {:induction false} WhatInterferes(verify: Verifier, a: Agent, step: Step, i: nat, s: Uuid, d: Uuid)
    requires Owned(a.registry) && s in a.store && Lookup(a.registry, d) != 0
    requires Interferes(verify, a, step, i, s, d)
    ensures match step
            case Issue(rec) => rec.sessionId == s
            case ExpireAll(now) => a.store[s].state.Outstanding? && now > a.store[s].expirationTimestampMs
            case Change(_) => ChangesDevice(a.registry, step, d)
            case Receive(_, _) => false
            case Advance(j, _) =>
              j != i && j < |a.flights| && a.flights[j].Flight? && a.flights[j].stage.SignatureValid?
              && a.flights[j].content.sessionId == s
  {
    if step.Change? && !ChangesDevice(a.registry, step, d) {
      NextSpares(verify, a, step, d);
    }
  }

  /** How many of the steps before k, from a given one on, are steps of response i. */
  function Moved(steps: seq<Step>, i: nat, from: nat, k: nat): nat
    requires k <= |steps|
    decreases k
  {
    if k <= from then 0 else Moved(steps, i, from, k - 1) + (if Moves(steps[k - 1], i) then 1 else 0)
  }

  function StageAfter(c: nat, h: Handle): Stage {
    if c == 0 then Parsed else if c == 1 then Validated else if c == 2 then KeyFound(h)
    else if c == 3 then SignatureValid else Done(Success)
  }

  /** The record answers, the device is there, and the signature is one under its key. */
  predicate Deserves(verify: Verifier, a: Agent, f: Flight)
    requires f.Flight?
  {
    var s, h := f.content.sessionId, Lookup(a.registry, f.content.deviceId);
    && s in a.store && Answers(a.store[s], QueryOf(a.pcId, f.content), f.now)
    && h != 0 && h in a.registry.keys
    && |f.payload| >= 116 && verify(a.registry.keys[h], f.payload[..108], f.payload[108..])
  }

  /** Response i has made c of its steps, deserves to succeed, and its device has this handle. */
  predicate OnItsWay(verify: Verifier, a: Agent, i: nat, f: Flight, c: nat, h: Handle)
    requires f.Flight?
  {
    && i < |a.flights| && a.flights[i] == f.(stage := StageAfter(c, h))
    && (c < 4 ==> Deserves(verify, a, f) && Lookup(a.registry, f.content.deviceId) == h)
  }

  /** Its own step takes it further. */
  lemma {:induction false} OwnStep(verify: Verifier, a: Agent, stray: bool, i: nat, f: Flight, c: nat, h: Handle)
    requires f.Flight? && c < 4 && OnItsWay(verify, a, i, f, c, h)
    ensures OnItsWay(verify, Next(verify, a, Advance(i, stray)), i, f, c + 1, h)
  {
    Advanced(verify, a, i, stray);
    assert NextStage(verify, a, a.flights[i], stray) == StageAfter(c + 1, h);
  }

  /** No other step holds it up that does not interfere. */
  lemma {:induction false} OthersStep(verify: Verifier, a: Agent, step: Step, i: nat, f: Flight, c: nat, h: Handle)
    requires f.Flight? && c < 4 && OnItsWay(verify, a, i, f, c, h) && !Moves(step, i)
    requires !Interferes(verify, a, step, i, f.content.sessionId, f.content.deviceId)
    ensures OnItsWay(verify, Next(verify, a, step), i, f, c, h)
  {
    Undisturbed(verify, a, step, i);
    assert Next(verify, a, step).pcId == a.pcId;
  }

  lemma {:induction false} StaysDone(verify: Verifier, a: Agent, step: Step, i: nat)
    requires i < |a.flights| && a.flights[i].Flight? && a.flights[i].stage.Done?
    ensures i < |Next(verify, a, step).flights| && Next(verify, a, step).flights[i] == a.flights[i]
  {
  }

  /** Step by step it makes its way, before and after the end. */
  lemma {:induction false} NextOnCourse(verify: Verifier, a: Agent, step: Step, i: nat, f: Flight, c: nat, h: Handle)
    requires f.Flight? && OnItsWay(verify, a, i, f, c, h)
    requires c < 4 ==> !Interferes(verify, a, step, i, f.content.sessionId, f.content.deviceId)
    ensures OnItsWay(verify, Next(verify, a, step), i, f, if Moves(step, i) then c + 1 else c, h)
  {
    if c >= 4 {
      StaysDone(verify, a, step, i);
    } else if Moves(step, i) {
      OwnStep(verify, a, step.stray, i, f, c, h);
    } else {
      OthersStep(verify, a, step, i, f, c, h);
    }
  }

  /** Until its fourth step, nothing interferes with the response that step r brings in. */
  predicate LeftAlone(verify: Verifier, start: Agent, steps: seq<Step>, r: nat, n: nat, i: nat, f: Flight)
    requires n <= |steps| && f.Flight?
    decreases n
  {
    n <= r + 1 ||
    (&& LeftAlone(verify, start, steps, r, n - 1, i, f)
     && (Moved(steps, i, r + 1, n - 1) < 4 ==>
           !Interferes(verify, At(verify, start, steps, n - 1), steps[n - 1], i, f.content.sessionId,
                       f.content.deviceId)))
  }

  lemma {:induction false} Course(verify: Verifier, start: Agent, steps: seq<Step>, r: nat, n: nat, i: nat, f: Flight,
                                  h: Handle)
    requires r < n <= |steps| && f.Flight?
    requires OnItsWay(verify, At(verify, start, steps, r + 1), i, f, 0, h)
    requires LeftAlone(verify, start, steps, r, n, i, f)
    ensures OnItsWay(verify, At(verify, start, steps, n), i, f, Moved(steps, i, r + 1, n), h)
    decreases n
  {
    if n > r + 1 {
      Course(verify, start, steps, r, n - 1, i, f, h);
      NextOnCourse(verify, At(verify, start, steps, n - 1), steps[n - 1], i, f, Moved(steps, i, r + 1, n - 1), h);
    }
  }

  /**
   * Whatever else happens in between, a response that comes in while its record waits, with a signature under the
   * key of its registered device, succeeds with its fourth step and not before, unless by then another step has
   * changed the record or the key found for the device.
   */
  lemma {:induction false} SucceedsOnceMovedFourTimes(verify: Verifier, start: Agent, steps: seq<Step>, r: nat, n: nat,
                                                      i: nat, f: Flight)
    requires r < n <= |steps|
    requires f.Flight? && f == Begin(f.payload, f.now) && steps[r] == Receive(f.payload, f.now)
    requires i == |At(verify, start, steps, r).flights| && Deserves(verify, At(verify, start, steps, r), f)
    requires LeftAlone(verify, start, steps, r, n, i, f)
    ensures i < |At(verify, start, steps, n).flights| && At(verify, start, steps, n).flights[i].Flight?
    ensures At(verify, start, steps, n).flights[i].stage == Done(Success) <==> Moved(steps, i, r + 1, n) >= 4
  {
    var a := At(verify, start, steps, r);
    Arrives(verify, a, f);
    Course(verify, start, steps, r, n, i, f, Lookup(a.registry, f.content.deviceId));
  }

  lemma {:induction false} Arrives(verify: Verifier, a: Agent, f: Flight)
    requires f.Flight? && f == Begin(f.payload, f.now) && Deserves(verify, a, f)
    ensures OnItsWay(verify, Next(verify, a, Receive(f.payload, f.now)), |a.flights|, f, 0,
                     Lookup(a.registry, f.content.deviceId))
  {
  }

  // ----- what a change between lookup and verification can do

  /** The agent with one device. */
  function WithDevice(pcId: Uuid, d: Uuid, h: Handle, key: PublicKey): (start: Agent)
    requires h != 0
    ensures Owned(start.registry)
  {
    var r := Registry(map[d := Device(d, "", h, true)], map[h := key]);
    assert HasOwner(r, h) by {
      assert d in r.entries;
    }
    Agent(pcId, map[], r, [])
  }

  /** The device is removed after the lookup, and its key with it. */
  function RemovedRun(rec: ChallengeRecord, payload: seq<Byte>, now: Uint64, d: Uuid): seq<Step> {
    [Issue(rec), Receive(payload, now), Advance(0, false), Advance(0, false), Change(Unregister(d)),
     Advance(0, true), Advance(0, true)]
  }

  /**
   * If the platform accepts a handle that is no longer live, a response succeeds, whether its signature verifies under
   * some key or under none.
   */
  lemma {:induction false} UnderNoKey(verify: Verifier, rec: ChallengeRecord, f: Flight, h: Handle, key: PublicKey)
    requires f.Flight? && f == Begin(f.payload, f.now) && h != 0
    requires rec.sessionId == f.content.sessionId && Answers(rec, QueryOf(rec.pcId, f.content), f.now)
    ensures var d := f.content.deviceId;
      var start := WithDevice(rec.pcId, d, h, key);
      At(verify, start, RemovedRun(rec, f.payload, f.now, d), 7).flights == [f.(stage := Done(Success))]
  {
    var d := f.content.deviceId;
    var start := WithDevice(rec.pcId, d, h, key);
    var steps := RemovedRun(rec, f.payload, f.now, d);
    UpToLookup(verify, start, rec, f, h);
    var a1 := Next(verify, start, steps[0]);
    var a3 := Next(verify, Next(verify, a1, steps[1]), steps[2]);
    assert At(verify, start, steps, 3) == a3;
    var a5 := Next(verify, Next(verify, a3, steps[3]), steps[4]);
    assert At(verify, start, steps, 5) == a5;
    assert h !in a5.registry.keys && a5.flights == [f.(stage := KeyFound(h))];
    var a6 := Next(verify, a5, steps[5]);
    assert a6.flights == [f.(stage := SignatureValid)] && a6.store == a5.store;
    assert At(verify, start, steps, 7) == Next(verify, a6, steps[6]);
  }

  /** The handle of the device goes to another device's key after the lookup. */
  function ReuseRun(rec: ChallengeRecord, payload: seq<Byte>, now: Uint64, d: Uuid, other: Uuid,
                    imported: Import): seq<Step> {
    [Issue(rec), Receive(payload, now), Advance(0, false), Advance(0, false), Change(Unregister(d)),
     Change(Register(other, "", Some(imported))), Advance(0, false), Advance(0, false)]
  }

  /**
   * If the platform gives the handle of a removed device to the next key it imports, a response of the one device
   * can succeed with a signature under the key of the other.
   */
  lemma {:induction false} UnderAnotherKey(verify: Verifier, rec: ChallengeRecord, f: Flight, other: Uuid, h: Handle,
                                           key: PublicKey, otherKey: PublicKey)
    requires f.Flight? && f == Begin(f.payload, f.now) && other != f.content.deviceId && h != 0
    requires rec.sessionId == f.content.sessionId && Answers(rec, QueryOf(rec.pcId, f.content), f.now)
    requires verify(otherKey, f.payload[..108], f.payload[108..])
    requires !verify(key, f.payload[..108], f.payload[108..])
    ensures var d := f.content.deviceId;
      var start := WithDevice(rec.pcId, d, h, key);
      var steps := ReuseRun(rec, f.payload, f.now, d, other, Imported(h, otherKey));
      && |At(verify, start, steps, 8).flights| == 1
      && At(verify, start, steps, 8).flights[0] == f.(stage := Done(Success))
      && WasFound(verify, start, steps, 0, f, 3, h)
      && !SignedAtLookup(verify, start, steps, f, Trace(1, 2, 3, 6, 7, h))
  {
    var d := f.content.deviceId;
    var start := WithDevice(rec.pcId, d, h, key);
    var steps := ReuseRun(rec, f.payload, f.now, d, other, Imported(h, otherKey));
    UpToLookup(verify, start, rec, f, h);
    var a1 := Next(verify, start, steps[0]);
    var a3 := Next(verify, Next(verify, a1, steps[1]), steps[2]);
    assert At(verify, start, steps, 3) == a3;
    var a4 := Next(verify, a3, steps[3]);
    assert At(verify, start, steps, 4) == a4;
    FromLookup(verify, a4, rec, f, other, h, otherKey);
    var a6 := Next(verify, Next(verify, a4, steps[4]), steps[5]);
    assert At(verify, start, steps, 6) == a6;
    assert At(verify, start, steps, 8) == Next(verify, Next(verify, a6, steps[6]), steps[7]);
  }

  lemma {:induction false} UpToLookup(verify: Verifier, start: Agent, rec: ChallengeRecord, f: Flight, h: Handle)
    requires f.Flight? && f == Begin(f.payload, f.now) && h != 0 && start.flights == [] && start.pcId == rec.pcId
    requires rec.sessionId == f.content.sessionId && Answers(rec, QueryOf(rec.pcId, f.content), f.now)
    requires Lookup(start.registry, f.content.deviceId) == h
    ensures var a2 := Next(verify, Next(verify, start, Issue(rec)), Receive(f.payload, f.now));
      var a3 := Next(verify, a2, Advance(0, false));
      && a3.registry == start.registry
      && Next(verify, a3, Advance(0, false))
         == Agent(rec.pcId, start.store[rec.sessionId := rec], start.registry, [f.(stage := KeyFound(h))])
  {
    var a2 := Next(verify, Next(verify, start, Issue(rec)), Receive(f.payload, f.now));
    assert a2.flights == [f];
    var a3 := Next(verify, a2, Advance(0, false));
    assert a3.flights == [f.(stage := Validated)];
    assert Next(verify, a3, Advance(0, false)).flights == [f.(stage := KeyFound(h))];
  }

  lemma {:induction false} FromLookup(verify: Verifier, a: Agent, rec: ChallengeRecord, f: Flight, other: Uuid,
                                      h: Handle, otherKey: PublicKey)
    requires f.Flight? && f == Begin(f.payload, f.now) && a.flights == [f.(stage := KeyFound(h))] && h != 0
    requires f.content.deviceId in a.registry.entries && a.registry.entries[f.content.deviceId].handle == h
    requires f.content.sessionId in a.store && Answers(a.store[f.content.sessionId], QueryOf(a.pcId, f.content), f.now)
    requires verify(otherKey, f.payload[..108], f.payload[108..]) && other != f.content.deviceId
    requires other !in a.registry.entries
    ensures var a6 := Next(verify, Next(verify, a, Change(Unregister(f.content.deviceId))),
                           Change(Register(other, "", Some(Imported(h, otherKey)))));
      Next(verify, Next(verify, a6, Advance(0, false)), Advance(0, false)).flights == [f.(stage := Done(Success))]
  {
    var a5 := Next(verify, a, Change(Unregister(f.content.deviceId)));
    var a6 := Next(verify, a5, Change(Register(other, "", Some(Imported(h, otherKey)))));
    assert h !in a5.registry.keys && h in a6.registry.keys && a6.registry.keys[h] == otherKey;
    var a7 := Next(verify, a6, Advance(0, false));
    assert a7.flights == [f.(stage := SignatureValid)] && a7.store == a.store;
    assert Next(verify, a7, Advance(0, false)).flights == [f.(stage := Done(Success))];
  }
}
