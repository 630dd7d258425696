/** TcpTransportClient: the phone's receive loop, and where it agrees with the agent's. */
module PhoneReceiver {
  import opened Bytes
  import opened Channel
  import opened FrameProtocol
  import opened JavaNio
  import opened PhoneFrames
  import opened StreamReceiver
  import opened TcpTransport

  datatype Complaint = CorruptedStream | BadFrame | LoopError
  datatype PhoneEvent = Received(frame: PhoneFrame) | OnError(complaint: Complaint) | Disconnected

  /** Why the inner loop stopped: to read on, with or without a complaint, or by an exception, or never. */
  datatype Halt = Waits | Corrupted | Throws | Spins

  datatype PhoneDrained = PhoneDrained(events: seq<PhoneEvent>, residual: seq<Byte>, halt: Halt)

  function PhoneAfter(events: seq<PhoneEvent>, d: PhoneDrained): PhoneDrained {
    d.(events := events + d.events)
  }

  function PhoneEventOf(span: seq<Byte>): PhoneEvent {
    match PhoneParse(span)
    case Some(f) => Received(f)
    case None => OnError(BadFrame)
  }

  /** The size that a header announces; the length field is signed, so it may be negative. */
  function TotalFrameLen(buf: seq<Byte>): int
    requires |buf| >= 18
  {
    14 + GetSigned(buf[4..8]) + 4
  }

  predicate CorruptedHeader(buf: seq<Byte>)
    requires |buf| >= 18
  {
    GetSigned(buf[..4]) != FRAME_MAGIC || GetSigned(buf[4..8]) > MAX_PAYLOAD_SIZE
  }

  function PhoneDrain(buf: seq<Byte>): (d: PhoneDrained)
    decreases |buf|
  {
    if |buf| < 18 then PhoneDrained([], buf, Waits)
    else if CorruptedHeader(buf) then PhoneDrained([OnError(CorruptedStream)], buf, Corrupted)
    else
      var n := TotalFrameLen(buf);
      if |buf| < n then PhoneDrained([], buf, Waits)
      else if n < 0 then PhoneDrained([], buf, Throws)
      else if n == 0 then PhoneDrained([], buf, Spins)
      else PhoneAfter([PhoneEventOf(buf[..n])], PhoneDrain(buf[n..]))
  }

  /** The outer loop: a complaint about the stream does not end it, an exception does. */
  function PhoneReceive(buf: seq<Byte>, chunks: seq<seq<Byte>>): (d: PhoneDrained)
    decreases |chunks|
  {
    if chunks == [] then PhoneDrained([], buf, Waits)
    else
      var d := PhoneDrain(buf + chunks[0]);
      if d.halt.Spins? then d
      else if d.halt.Throws? then d.(events := d.events + [OnError(LoopError)])
      else PhoneAfter(d.events, PhoneReceive(d.residual, chunks[1..]))
  }

  /** One frame taken off the buffer, or no progress. */
  lemma {:induction false} PhoneStep(buf: seq<Byte>, n: nat)
    requires |buf| >= 18 && !CorruptedHeader(buf) && n == TotalFrameLen(buf) <= |buf|
    ensures if n == 0 then PhoneDrain(buf).halt == Spins
            else PhoneDrain(buf) == PhoneAfter([PhoneEventOf(buf[..n])], PhoneDrain(buf[n..]))
  {
  }

  // ----- agreement with the agent

  /** The agent found nothing wrong with the framing. */
  ghost predicate InSync(d: Drained) {
    d.open && forall e :: e in d.events ==> e.FrameReceived? || (e.Error? && e.error.FrameRejected?)
  }

  predicate SameMeaning(e: Event, p: PhoneEvent) {
    match e
    case FrameReceived(f) => p == Received(ToPhone(f))
    case Error(FrameRejected(UnknownType)) => p.Received? && p.frame.messageType == ErrorMsg
    case Error(FrameRejected(_)) => p == OnError(BadFrame)
    case _ => false
  }

  ghost predicate SameEvents(es: seq<Event>, ps: seq<PhoneEvent>) {
    |es| == |ps| && forall i :: 0 <= i < |es| ==> SameMeaning(es[i], ps[i])
  }

  lemma {:induction false} SpanMeaning(span: seq<Byte>)
    requires IsSpan(span)
    ensures SameMeaning(SpanEvent(span), PhoneEventOf(span))
  {
    Agreement(span);
  }

  lemma {:induction false} HeadersAgree(buf: seq<Byte>)
    requires |buf| >= 18
    ensures StartsWithMagic(buf) && GetNat(buf[4..8]) <= MAX_PAYLOAD_SIZE
        ==> !CorruptedHeader(buf) && TotalFrameLen(buf) == 18 + GetNat(buf[4..8])
    ensures !StartsWithMagic(buf) ==> CorruptedHeader(buf)
  {
    SignedField(buf[..4]);
    SignedField(buf[4..8]);
    Radices();
  }

  lemma {:induction false} OutOfStep(buf: seq<Byte>)
    requires |buf| >= 18 && (!StartsWithMagic(buf) || Oversized(buf))
    ensures !InSync(Drain(buf))
  {
    if StartsWithMagic(buf) {
      OversizedDrains(buf);
    } else {
      DiscardDrains(buf);
      assert Drain(buf).events[0] == Error(DiscardedByte);
    }
  }

  lemma {:induction false} AgreeStep(buf: seq<Byte>, events: seq<Event>)
    requires !Waiting(buf) && !Oversized(buf) && StartsWithMagic(buf)
    requires SameEvents(events, PhoneDrain(buf[|Head(buf)|..]).events)
    ensures var span := Head(buf);
      && PhoneDrain(buf) == PhoneAfter([PhoneEventOf(span)], PhoneDrain(buf[|span|..]))
      && SameEvents([SpanEvent(span)] + events, PhoneDrain(buf).events)
  {
    PhoneTakesHead(buf);
    SpanMeaning(Head(buf));
  }

  /** What the agent takes for one frame, the phone does too. */
  lemma {:induction false} PhoneTakesHead(buf: seq<Byte>)
    requires !Waiting(buf) && !Oversized(buf) && StartsWithMagic(buf)
    ensures var span := Head(buf); PhoneDrain(buf) == PhoneAfter([PhoneEventOf(span)], PhoneDrain(buf[|span|..]))
  {
    HeadersAgree(buf);
    PhoneStep(buf, |Head(buf)|);
    assert buf[..|Head(buf)|] == Head(buf);
  }

  /** The phone waits, keeps the same bytes and has reported the same. */
  ghost predicate Agrees(d: Drained, p: PhoneDrained) {
    p.halt == Waits && p.residual == d.residual && SameEvents(d.events, p.events)
  }

  lemma {:induction false} InSyncAgrees(buf: seq<Byte>)
    requires InSync(Drain(buf))
    ensures Agrees(Drain(buf), PhoneDrain(buf))
    decreases |buf|
  {
    if |buf| >= 18 {
      HeadersAgree(buf);
      if Waiting(buf) {
        WaitingDrains(buf);
      } else if !StartsWithMagic(buf) || Oversized(buf) {
        OutOfStep(buf);
        assert false;
      } else {
        var span := Head(buf);
        var rest := buf[|span|..];
        WholeSpan(span, buf);
        forall e | e in Drain(rest).events ensures e in Drain(buf).events {
        }
        InSyncAgrees(rest);
        AgreeStep(buf, Drain(rest).events);
      }
    }
  }

  /** Closing is always reported. */
  lemma {:induction false} ClosedReports(buf: seq<Byte>)
    ensures !Drain(buf).open ==> Error(OversizedPayload) in Drain(buf).events
    decreases |buf|
  {
    if Waiting(buf) {
      WaitingDrains(buf);
    } else if Oversized(buf) {
      OversizedDrains(buf);
    } else if StartsWithMagic(buf) {
      WholeSpan(Head(buf), buf);
      ClosedReports(buf[|Head(buf)|..]);
    } else {
      DiscardDrains(buf);
      ClosedReports(buf[1..]);
    }
  }

  lemma {:induction false} SameEventsInSync(d: Drained, p: PhoneDrained)
    requires SameEvents(d.events, p.events) && (!d.open ==> Error(OversizedPayload) in d.events)
    ensures InSync(d)
  {
    forall e | e in d.events ensures e.FrameReceived? || (e.Error? && e.error.FrameRejected?) {
      var i :| 0 <= i < |d.events| && d.events[i] == e;
      assert SameMeaning(d.events[i], p.events[i]);
    }
  }

  /** The two receivers agree on exactly the streams that the agent takes without losing step. */
  lemma {:induction false} PhoneAgrees(buf: seq<Byte>)
    ensures InSync(Drain(buf)) <==> Agrees(Drain(buf), PhoneDrain(buf))
  {
    if InSync(Drain(buf)) {
      InSyncAgrees(buf);
    }
    if Agrees(Drain(buf), PhoneDrain(buf)) {
      ClosedReports(buf);
      SameEventsInSync(Drain(buf), PhoneDrain(buf));
    }
  }

  lemma {:induction false} InSyncReceiversAgree(buf: seq<Byte>, chunks: seq<seq<Byte>>)
    requires InSync(Receive(buf, chunks))
    ensures Agrees(Receive(buf, chunks), PhoneReceive(buf, chunks))
    decreases |chunks|
  {
    if chunks != [] {
      var d := Drain(buf + chunks[0]);
      forall e | e in d.events ensures e in Receive(buf, chunks).events {
      }
      InSyncAgrees(buf + chunks[0]);
      var rest := Receive(d.residual, chunks[1..]);
      forall e | e in rest.events ensures e in Receive(buf, chunks).events {
      }
      InSyncReceiversAgree(d.residual, chunks[1..]);
    }
  }

  lemma {:induction false} ClosedReceiveReports(buf: seq<Byte>, chunks: seq<seq<Byte>>)
    ensures !Receive(buf, chunks).open ==> Error(OversizedPayload) in Receive(buf, chunks).events
    decreases |chunks|
  {
    if chunks != [] {
      ClosedReports(buf + chunks[0]);
      ClosedReceiveReports(Drain(buf + chunks[0]).residual, chunks[1..]);
    }
  }

  /** And so they do for every chunking. */
  lemma {:induction false} ReceiversAgree(buf: seq<Byte>, chunks: seq<seq<Byte>>)
    ensures InSync(Receive(buf, chunks)) <==> Agrees(Receive(buf, chunks), PhoneReceive(buf, chunks))
  {
    if InSync(Receive(buf, chunks)) {
      InSyncReceiversAgree(buf, chunks);
    }
    if Agrees(Receive(buf, chunks), PhoneReceive(buf, chunks)) {
      ClosedReceiveReports(buf, chunks);
      SameEventsInSync(Receive(buf, chunks), PhoneReceive(buf, chunks));
    }
  }

  function PhoneDeliveries(fs: seq<TransportFrame>): (events: seq<PhoneEvent>)
    requires AllSendable(fs)
    ensures |events| == |fs| && forall i :: 0 <= i < |fs| ==> events[i] == Received(ToPhone(Framed(fs[i])))
  {
    seq(|fs|, i requires 0 <= i < |fs| => Received(ToPhone(Framed(fs[i]))))
  }

  /** On every chunking of every part of a wire, the phone delivers the frames that the agent would. */
  lemma {:induction false} PhoneFifo(fs: seq<TransportFrame>, chunks: seq<seq<Byte>>) returns (j: nat, part: seq<Byte>)
    requires AllSendable(fs) && Concat(chunks) <= Wire(fs)
    ensures j <= |fs| && Concat(chunks) == Wire(fs[..j]) + part
    ensures if j == |fs| then part == [] else part < Print(fs[j])
    ensures PhoneReceive([], chunks) == PhoneDrained(PhoneDeliveries(fs[..j]), part, Waits)
  {
    j, part := FifoSoFar(fs, chunks);
    ReceiversAgree([], chunks);
    var p := PhoneReceive([], chunks).events;
    forall i | 0 <= i < j ensures p[i] == Received(ToPhone(Framed(fs[i]))) {
      assert SameMeaning(Deliveries(fs[..j])[i], p[i]);
    }
    assert p == PhoneDeliveries(fs[..j]);
  }

  /** However these bytes are cut up, the phone takes them for one frame of this type and with this payload. */
  ghost predicate ReadAsOneFrame(bytes: seq<Byte>, messageType: MessageType, payload: seq<Byte>) {
    forall chunks :: Concat(chunks) == bytes ==> OneFrameRead(PhoneReceive([], chunks), messageType, payload)
  }

  predicate OneFrameRead(d: PhoneDrained, messageType: MessageType, payload: seq<Byte>) {
    && d.halt == Waits && d.residual == [] && |d.events| == 1 && d.events[0].Received?
    && d.events[0].frame.messageType == messageType && d.events[0].frame.payload == payload
  }

  lemma {:induction false} PrintReadAsOne(f: TransportFrame)
    requires |f.payload| <= 65536
    ensures ReadAsOneFrame(Print(f), f.messageType, f.payload)
  {
    OneFrame(f);
    forall chunks | Concat(chunks) == Print(f)
      ensures OneFrameRead(PhoneReceive([], chunks), f.messageType, f.payload)
    {
      var j, part := PhoneFifo([f], chunks);
      AllOfOne(f, j, part);
    }
  }

  lemma {:induction false} AllOfOne(f: TransportFrame, j: nat, part: seq<Byte>)
    requires Sendable(f) && AllSendable([f]) && j <= 1 && Wire([f][..j]) + part == Print(f)
    requires if j == 1 then part == [] else part < Print(f)
    ensures j == 1 && part == [] && [f][..j] == [f]
  {
    assert [f][..0] == [] && Wire([]) == [];
    assert [] + part == part;
  }

  // ----- off the wire the phone does not find back

  lemma {:induction false} CorruptedStays(buf: seq<Byte>, more: seq<Byte>)
    requires |buf| >= 18 && CorruptedHeader(buf)
    ensures PhoneDrain(buf + more) == PhoneDrained([OnError(CorruptedStream)], buf + more, Corrupted)
  {
    assert (buf + more)[..4] == buf[..4] && (buf + more)[4..8] == buf[4..8];
  }

  function Complaints(n: nat): (events: seq<PhoneEvent>)
    ensures |events| == n
  {
    seq(n, _ => OnError(CorruptedStream))
  }

  /** Once it has met a corrupted header, the phone complains at every read and delivers nothing more. */
  lemma {:induction false} NeverRecovers(buf: seq<Byte>, chunks: seq<seq<Byte>>)
    requires |buf| >= 18 && CorruptedHeader(buf)
    ensures PhoneReceive(buf, chunks) == PhoneDrained(Complaints(|chunks|), buf + Concat(chunks), Waits)
    decreases |chunks|
  {
    if chunks == [] {
      assert buf + [] == buf;
    } else {
      var next := buf + chunks[0];
      CorruptedStays(buf, chunks[0]);
      assert next[..4] == buf[..4] && next[4..8] == buf[4..8];
      NeverRecovers(next, chunks[1..]);
      Associative(buf, chunks[0], Concat(chunks[1..]));
      assert [OnError(CorruptedStream)] + Complaints(|chunks| - 1) == Complaints(|chunks|);
    }
  }

  // ----- the one header on which the inner loop makes no progress

  /** The magic, and a length of -18. */
  predicate StuckHeader(buf: seq<Byte>) {
    |buf| >= 8 && StartsWithMagic(buf) && GetNat(buf[4..8]) == 0xFFFF_FFEE
  }

  lemma {:induction false} StuckStep(buf: seq<Byte>)
    requires |buf| >= 18
    ensures StuckHeader(buf) <==> !CorruptedHeader(buf) && TotalFrameLen(buf) == 0
  {
    SignedField(buf[..4]);
    SignedField(buf[4..8]);
    Radices();
  }

  /** The magic, and the length field, of what is left when the inner loop stops. */
  lemma {:induction false} HeaderMeans(r: seq<Byte>)
    requires |r| >= 18
    ensures var magic, n := r[..4] == [0x50, 0x4B, 0x46, 0x52], GetNat(r[4..8]);
      && n < 0x1_0000_0000
      && (CorruptedHeader(r) <==> !magic || 65536 < n < 0x8000_0000)
      && TotalFrameLen(r) == (if n < 0x8000_0000 then 18 + n else 18 + n - 0x1_0000_0000)
  {
    SignedField(r[..4]);
    SignedField(r[4..8]);
    MagicField(r[..4]);
    Radices();
  }

  /**
   * Why the inner loop stops, on every buffer, from the bytes that are left: it waits for more, finds the header
   * corrupted, throws for an array of negative size, or spins because it takes no bytes off, having come to a header
   * with the length field 0xFFFFFFEE.
   */
  lemma {:induction false} SpinsExactly(buf: seq<Byte>) returns (k: nat)
    ensures k <= |buf| && PhoneDrain(buf).residual == buf[k..]
    ensures |buf| - k < 18 ==> PhoneDrain(buf).halt == Waits
    ensures |buf| - k >= 18 ==>
      var r, halt := buf[k..], PhoneDrain(buf).halt;
      var magic, n := r[..4] == [0x50, 0x4B, 0x46, 0x52], GetNat(r[4..8]);
      && (halt == Waits <==> magic && n <= 65536 && |r| < 18 + n)
      && (halt == Corrupted <==> !magic || 65536 < n < 0x8000_0000)
      && (halt == Throws <==> magic && 0x8000_0000 <= n < 0xFFFF_FFEE)
      && (halt == Spins <==> magic && n == 0xFFFF_FFEE)
    decreases |buf|
  {
    if TakesFrame(buf) {
      var n := TotalFrameLen(buf);
      var rest := buf[n..];
      SameEnd(buf, n);
      var j := SpinsExactly(rest);
      k := n + j;
      DropTwice(buf, n, j);
    } else {
      StopsHere(buf);
      k := 0;
      assert buf[0..] == buf;
      if |buf| >= 18 {
        HeaderMeans(buf);
      }
    }
  }

  /** Taking a frame off the buffer does not change where and how the loop stops. */
  lemma {:induction false} SameEnd(buf: seq<Byte>, n: nat)
    requires TakesFrame(buf) && n == TotalFrameLen(buf)
    ensures PhoneDrain(buf).residual == PhoneDrain(buf[n..]).residual
    ensures PhoneDrain(buf).halt == PhoneDrain(buf[n..]).halt
  {
    PhoneStep(buf, n);
  }

  lemma {:induction false} DropTwice(s: seq<Byte>, n: nat, j: nat)
    requires n + j <= |s|
    ensures s[n..][j..] == s[n + j..]
  {
  }

  predicate TakesFrame(buf: seq<Byte>) {
    |buf| >= 18 && !CorruptedHeader(buf) && 0 < TotalFrameLen(buf) <= |buf|
  }

  lemma {:induction false} StopsHere(buf: seq<Byte>)
    requires !TakesFrame(buf)
    ensures PhoneDrain(buf).residual == buf && (PhoneDrain(buf).halt == Spins <==> |buf| >= 18 && StuckHeader(buf))
  {
    if |buf| >= 18 {
      StuckStep(buf);
    }
  }

  // ----- and on which streams that happens

  lemma {:induction false} TakesSame(a: seq<Byte>, b: seq<Byte>)
    requires |a| >= 18
    ensures CorruptedHeader(a + b) == CorruptedHeader(a) && TotalFrameLen(a + b) == TotalFrameLen(a)
  {
    assert (a + b)[..4] == a[..4] && (a + b)[4..8] == a[4..8];
  }

  /** More bytes behind a frame do not matter to it. */
  lemma {:induction false} TakesFirst(a: seq<Byte>, b: seq<Byte>, n: nat)
    requires TakesFrame(a) && n == TotalFrameLen(a)
    ensures PhoneDrain(a + b).halt == PhoneDrain(a[n..] + b).halt
  {
    TakesSame(a, b);
    SameEnd(a + b, n);
    assert (a + b)[n..] == a[n..] + b;
  }

  /** How the inner loop stops on a longer buffer depends only on what it had left of the shorter one. */
  lemma {:induction false} PhoneDrainAppend(a: seq<Byte>, b: seq<Byte>)
    ensures PhoneDrain(a + b).halt == PhoneDrain(PhoneDrain(a).residual + b).halt
    decreases |a|
  {
    if TakesFrame(a) {
      var n := TotalFrameLen(a);
      var rest := a[n..];
      SameEnd(a, n);
      TakesFirst(a, b, n);
      PhoneDrainAppend(rest, b);
    } else {
      StopsHere(a);
    }
  }

  lemma {:induction false} StopStays(a: seq<Byte>, b: seq<Byte>)
    requires !TakesFrame(a) && PhoneDrain(a).halt in {Spins, Throws}
    ensures PhoneDrain(a + b).halt == PhoneDrain(a).halt
  {
    TakesSame(a, b);
  }

  /** Where the loop is stuck or has thrown, more bytes would not have helped. */
  lemma {:induction false} HaltStays(a: seq<Byte>, b: seq<Byte>)
    requires PhoneDrain(a).halt in {Spins, Throws}
    ensures PhoneDrain(a + b).halt == PhoneDrain(a).halt
    decreases |a|
  {
    if TakesFrame(a) {
      var n := TotalFrameLen(a);
      var rest := a[n..];
      SameEnd(a, n);
      TakesFirst(a, b, n);
      HaltStays(rest, b);
    } else {
      StopStays(a, b);
    }
  }

  /** The exception is reported once, at the end, and nothing but it is reported as a loop error. */
  lemma {:induction false} ThrowsAtTheEnd(buf: seq<Byte>, chunks: seq<seq<Byte>>)
    ensures var d := PhoneReceive(buf, chunks); var e := OnError(LoopError);
      && (d.halt == Throws <==> e in d.events)
      && (d.halt == Throws ==> e == d.events[|d.events| - 1] && e !in d.events[..|d.events| - 1])
    decreases |chunks|
  {
    if chunks != [] {
      var d := PhoneDrain(buf + chunks[0]);
      NoLoopError(buf + chunks[0]);
      ThrowsAtTheEnd(d.residual, chunks[1..]);
    }
  }

  lemma {:induction false} NoLoopError(buf: seq<Byte>)
    ensures OnError(LoopError) !in PhoneDrain(buf).events
    decreases |buf|
  {
    if TakesFrame(buf) {
      var n := TotalFrameLen(buf);
      PhoneStep(buf, n);
      NoLoopError(buf[n..]);
    }
  }

  /** Draining what is left leads to the same stop. */
  lemma {:induction false} DrainedAgain(a: seq<Byte>)
    ensures PhoneDrain(PhoneDrain(a).residual).halt == PhoneDrain(a).halt
  {
    PhoneDrainAppend(a, []);
    assert a + [] == a && PhoneDrain(a).residual + [] == PhoneDrain(a).residual;
  }

  /** For every chunking, the outer loop gets stuck exactly when the inner loop does on all the bytes at once. */
  lemma {:induction false} SpinsAtOnce(buf: seq<Byte>, chunks: seq<seq<Byte>>)
    requires PhoneDrain(buf).halt != Spins
    ensures PhoneReceive(buf, chunks).halt == Spins <==> PhoneDrain(buf + Concat(chunks)).halt == Spins
    decreases |chunks|
  {
    if chunks == [] {
      assert buf + [] == buf;
    } else {
      var next, rest := buf + chunks[0], Concat(chunks[1..]);
      var d := PhoneDrain(next);
      Associative(buf, chunks[0], rest);
      if d.halt in {Spins, Throws} {
        HaltStays(next, rest);
      } else {
        DrainedAgain(next);
        PhoneDrainAppend(next, rest);
        SpinsAtOnce(d.residual, chunks[1..]);
      }
    }
  }

  lemma {:induction false} SpinsInOnePiece(chunks: seq<seq<Byte>>)
    ensures PhoneReceive([], chunks).halt == Spins <==> PhoneDrain(Concat(chunks)).halt == Spins
  {
    SpinsAtOnce([], chunks);
    assert [] + Concat(chunks) == Concat(chunks);
  }

  /** No way of cutting the stream up, or a part of it, makes the inner loop spin. */
  ghost predicate NeverSpins(stream: seq<Byte>) {
    forall chunks :: Concat(chunks) <= stream ==> PhoneReceive([], chunks).halt != Spins
  }

  lemma {:induction false} SpinsWithMore(stream: seq<Byte>, chunks: seq<seq<Byte>>)
    requires Concat(chunks) <= stream && PhoneReceive([], chunks).halt == Spins
    ensures PhoneDrain(stream).halt == Spins
  {
    var all := Concat(chunks);
    SpinsInOnePiece(chunks);
    assert all + stream[|all|..] == stream;
    HaltStays(all, stream[|all|..]);
  }

  lemma {:induction false} SpinsBoth(stream: seq<Byte>, chunks: seq<seq<Byte>>)
    requires Concat(chunks) <= stream
    ensures PhoneReceive([], chunks).halt == Spins <==> PhoneDrain(Concat(chunks)).halt == Spins
    ensures PhoneReceive([], chunks).halt == Spins ==> PhoneDrain(stream).halt == Spins
  {
    SpinsInOnePiece(chunks);
    if PhoneReceive([], chunks).halt == Spins {
      SpinsWithMore(stream, chunks);
    }
  }

  /** However it is cut up, a stream makes the inner loop spin if and only if it does so in one piece. */
  lemma {:induction false} NeverSpinsExactly(stream: seq<Byte>)
    ensures NeverSpins(stream) <==> PhoneDrain(stream).halt != Spins
  {
    if PhoneDrain(stream).halt == Spins {
      var one := [stream];
      assert one[1..] == [] && stream + [] == stream;
      SpinsInOnePiece(one);
    } else {
      forall chunks | Concat(chunks) <= stream ensures PhoneReceive([], chunks).halt != Spins {
        if PhoneReceive([], chunks).halt == Spins {
          SpinsWithMore(stream, chunks);
        }
      }
    }
  }

  /** Nowhere in the stream is there the magic with FF FF FF EE behind it. */
  predicate NoStuckHeader(stream: seq<Byte>) {
    forall i :: 0 <= i <= |stream| ==> !StuckHeader(stream[i..])
  }

  /** That is enough, whatever else the stream holds. */
  lemma {:induction false} CleanNeverSpins(stream: seq<Byte>)
    requires NoStuckHeader(stream)
    ensures NeverSpins(stream)
  {
    NeverSpinsExactly(stream);
    var k := SpinsExactly(stream);
    var r := stream[k..];
    assert !StuckHeader(r);
    if |r| >= 18 {
      MagicField(r[..4]);
    }
  }

  lemma {:induction false} ReceiveOneMore(buf: seq<Byte>, chunks: seq<seq<Byte>>, chunk: seq<Byte>)
    requires PhoneReceive(buf, chunks).halt == Waits
    ensures var d := PhoneReceive(buf, chunks); var e := PhoneDrain(d.residual + chunk);
      PhoneReceive(buf, chunks + [chunk])
        == PhoneDrained(d.events + (if e.halt.Throws? then e.events + [OnError(LoopError)] else e.events),
                        e.residual, if e.halt.Corrupted? then Waits else e.halt)
    decreases |chunks|
  {
    var all := chunks + [chunk];
    if chunks == [] {
      assert all[1..] == [];
      var e := PhoneDrain(buf + chunk);
      assert e.events + [] == e.events && [] + e.events == e.events;
    } else {
      var d := PhoneDrain(buf + chunks[0]);
      assert all[1..] == chunks[1..] + [chunk];
      ReceiveOneMore(d.residual, chunks[1..], chunk);
      var r := PhoneReceive(d.residual, chunks[1..]);
      var e := PhoneDrain(r.residual + chunk);
      Associative(d.events, r.events, e.events);
      Associative(d.events, r.events, e.events + [OnError(LoopError)]);
    }
  }

  lemma {:induction false} ConcatOneMore(chunks: seq<seq<Byte>>, chunk: seq<Byte>)
    ensures Concat(chunks + [chunk]) == Concat(chunks) + chunk
    decreases |chunks|
  {
    var all := chunks + [chunk];
    if chunks == [] {
      assert all[1..] == [];
      assert chunk + [] == chunk;
    } else {
      assert all[1..] == chunks[1..] + [chunk];
      ConcatOneMore(chunks[1..], chunk);
      Associative(chunks[0], Concat(chunks[1..]), chunk);
    }
  }

  lemma {:induction false} OneMoreRead(chunks: seq<seq<Byte>>, read: seq<Byte>, d: PhoneDrained)
    returns (all: seq<seq<Byte>>)
    requires PhoneReceive([], chunks) == d && d.halt == Waits
    ensures Concat(all) == Concat(chunks) + read
    ensures var e := PhoneDrain(d.residual + read);
      && Heard(PhoneReceive([], all), d.events + e.events, e.halt.Throws?, e.halt.Spins?)
      && (!e.halt.Throws? && !e.halt.Spins? ==>
            PhoneReceive([], all) == PhoneDrained(d.events + e.events, e.residual, Waits))
  {
    all := chunks + [read];
    ReceiveOneMore([], chunks, read);
    ConcatOneMore(chunks, read);
    Associative(d.events, PhoneDrain(d.residual + read).events, [OnError(LoopError)]);
  }

  lemma {:induction false} WiresNeverSpin(fs: seq<TransportFrame>)
    requires AllSendable(fs)
    ensures NeverSpins(Wire(fs))
  {
    forall chunks | Concat(chunks) <= Wire(fs) ensures PhoneReceive([], chunks).halt != Spins {
      var j, part := PhoneFifo(fs, chunks);
    }
  }

  class TransportClient {
    const input: Socket
    var isConnected: bool
    /** The callbacks the listener has had. */
    var events: seq<PhoneEvent>

    constructor (input: Socket)
      ensures this.input == input && isConnected && events == []
    {
      this.input := input;
      isConnected := true;
      events := [];
    }

    /**
     * The inner loop of receiverLoop. Where it would go on for ever without taking a byte off the buffer, the model
     * stops and says so.
     */
    method ProcessBytes(start: seq<Byte>) returns (rxBuffer: seq<Byte>, thrown: bool, spins: bool)
      modifies this`events
      ensures var d := PhoneDrain(start);
        && rxBuffer == d.residual && thrown == d.halt.Throws? && spins == d.halt.Spins?
        && events == old(events) + d.events
    {
      var rxBytes := start;
      ghost var all := events + PhoneDrain(start).events;
      while |rxBytes| >= 18
        invariant events + PhoneDrain(rxBytes).events == all
        invariant PhoneDrain(rxBytes).(events := []) == PhoneDrain(start).(events := [])
        decreases |rxBytes|
      {
        var corrupted, totalFrameLen := CheckHeader(rxBytes);
        if corrupted {
          events := events + [OnError(CorruptedStream)];
          return rxBytes, false, false;
        }
        if |rxBytes| < totalFrameLen {
          break;
        }
        if totalFrameLen < 0 {
          return rxBytes, true, false;
        }
        PhoneStep(rxBytes, totalFrameLen);
        if totalFrameLen == 0 {
          return rxBytes, false, true;
        }
        var frameData := rxBytes[..totalFrameLen];
        Associative(events, [PhoneEventOf(frameData)], PhoneDrain(rxBytes[totalFrameLen..]).events);
        Deliver(frameData);
        rxBytes := rxBytes[totalFrameLen..];
      }
      return rxBytes, false, false;
    }

    /** The header at the front of the buffer, and the size of the frame it announces. */
    method CheckHeader(rxBytes: seq<Byte>) returns (corrupted: bool, totalFrameLen: int)
      requires |rxBytes| >= 18
      ensures corrupted == CorruptedHeader(rxBytes) && totalFrameLen == TotalFrameLen(rxBytes)
    {
      var headerBuf := new ByteBuffer.Wrap(rxBytes[..8]);
      var magic, payloadLen := GetHeader(headerBuf);
      assert rxBytes[..8][..4] == rxBytes[..4] && rxBytes[..8][4..8] == rxBytes[4..8];
      corrupted := magic != FRAME_MAGIC || payloadLen > MAX_PAYLOAD_SIZE;
      totalFrameLen := 14 + payloadLen + 4;
    }

    /** One frame's worth of bytes is handed to the listener, as a frame or as a complaint. */
    method Deliver(frameData: seq<Byte>)
      modifies this`events
      ensures events == old(events) + [PhoneEventOf(frameData)]
    {
      var frame := PhoneFrames.DeserializeFrame(frameData);
      match frame {
        case Some(f) => events := events + [Received(f)];
        case None => events := events + [OnError(BadFrame)];
      }
    }

    /** The loop within the try block. */
    method ReadLoop() returns (ghost chunks: seq<seq<Byte>>, ghost seen: seq<PhoneEvent>, thrown: bool, spins: bool)
      requires isConnected
      modifies this`events, input`incoming
      ensures old(input.incoming) == Concat(chunks) + input.incoming && events == old(events) + seen
      ensures Heard(PhoneReceive([], chunks), seen, thrown, spins)
    {
      var rxBuffer: seq<Byte> := [];
      chunks, seen, thrown, spins := [], [], false, false;
      ghost var received: seq<Byte> := [];
      while isConnected
        invariant old(input.incoming) == received + input.incoming && events == old(events) + seen
        invariant Concat(chunks) == received
        invariant PhoneReceive([], chunks) == PhoneDrained(seen, rxBuffer, Waits) && !thrown && !spins
        decreases |input.incoming|
      {
        var read := input.Recv();
        if |read| == 0 {
          break;
        }
        chunks := OneMoreRead(chunks, read, PhoneDrained(seen, rxBuffer, Waits));
        Associative(received, read, input.incoming);
        received := received + read;
        rxBuffer := rxBuffer + read;
        ghost var more := PhoneDrain(rxBuffer).events;
        rxBuffer, thrown, spins := ProcessBytes(rxBuffer);
        Associative(old(events), seen, more);
        seen := seen + more;
        if thrown || spins {
          break;
        }
      }
    }

    /** receiverLoop, over whatever sizes read chose; unless it spins, it ends with the connection down. */
    method ReceiverLoop() returns (ghost chunks: seq<seq<Byte>>, spins: bool)
      requires isConnected
      modifies this`isConnected, this`events, input`incoming
      ensures old(input.incoming) == Concat(chunks) + input.incoming
      ensures spins == PhoneReceive([], chunks).halt.Spins? == isConnected
      ensures events
           == old(events) + PhoneReceive([], chunks).events + (if spins then [] else [PhoneEvent.Disconnected])
      ensures spins <==> PhoneDrain(Concat(chunks)).halt == Spins
      ensures PhoneDrain(old(input.incoming)).halt != Spins ==> !spins
    {
      ghost var seen: seq<PhoneEvent>;
      var thrown: bool;
      chunks, seen, thrown, spins := ReadLoop();
      SpinsBoth(old(input.incoming), chunks);
      if spins {
        return;
      }
      if thrown {
        Associative(old(events), seen, [OnError(LoopError)]);
        events := events + [OnError(LoopError)];
      }
      isConnected := false;
      events := events + [PhoneEvent.Disconnected];
    }
  }

  /** What has been made of the reads; an exception is reported where it is caught. */
  predicate Heard(d: PhoneDrained, seen: seq<PhoneEvent>, thrown: bool, spins: bool) {
    && !(thrown && spins) && spins == d.halt.Spins?
    && d.events == if thrown then seen + [OnError(LoopError)] else seen
  }
}
