/** What the receive loop makes of a byte stream: the callbacks it issues and the bytes it keeps. */
module StreamReceiver {
  import opened Bytes
  import opened FrameProtocol

  datatype StreamError = DiscardedByte | OversizedPayload | FrameRejected(reason: FrameError)
  datatype Event = FrameReceived(frame: TransportFrame) | Error(error: StreamError) | Disconnected

  /** The callbacks issued, the bytes left in rxBuffer, and whether the connection is still up. */
  datatype Drained = Drained(events: seq<Event>, residual: seq<Byte>, open: bool)

  predicate StartsWithMagic(buf: seq<Byte>) {
    |buf| >= 4 && GetNat(buf[..4]) == FRAME_MAGIC
  }

  function SpanEvent(span: seq<Byte>): Event {
    match Parse(span)
    case Ok(f) => FrameReceived(f)
    case Err(e) => Error(FrameRejected(e))
  }

  function After(events: seq<Event>, d: Drained): Drained {
    d.(events := events + d.events)
  }

  /** The inner loop, run on a buffer until it waits or closes. */
  function Drain(buf: seq<Byte>): (d: Drained)
    decreases |buf|
  {
    if |buf| < 18 then Drained([], buf, true)
    else if !StartsWithMagic(buf) then After([Error(DiscardedByte)], Drain(buf[1..]))
    else
      var n := GetNat(buf[4..8]);
      if n > MAX_PAYLOAD_SIZE then Drained([Error(OversizedPayload)], buf, false)
      else if |buf| < 18 + n then Drained([], buf, true)
      else After([SpanEvent(buf[..18 + n])], Drain(buf[18 + n..]))
  }

  predicate Oversized(stream: seq<Byte>) {
    |stream| >= 18 && StartsWithMagic(stream) && GetNat(stream[4..8]) > MAX_PAYLOAD_SIZE
  }

  /** Too little to act on: not a whole header, or a header whose frame has not arrived. */
  predicate Waiting(stream: seq<Byte>) {
    |stream| < 18 ||
    (StartsWithMagic(stream) && GetNat(stream[4..8]) <= MAX_PAYLOAD_SIZE && |stream| < 18 + GetNat(stream[4..8]))
  }

  /** The buffer is one frame long, going by its own length field. */
  predicate IsSpan(bytes: seq<Byte>) {
    |bytes| >= 18 && StartsWithMagic(bytes) && |bytes| == 18 + GetNat(bytes[4..8]) <= 18 + MAX_PAYLOAD_SIZE
  }

  /** The four things one pass of the inner loop can do. */
  lemma {:induction false} WaitingDrains(buf: seq<Byte>)
    requires Waiting(buf)
    ensures Drain(buf) == Drained([], buf, true)
  {
  }

  lemma {:induction false} OversizedDrains(buf: seq<Byte>)
    requires Oversized(buf)
    ensures Drain(buf) == Drained([Error(OversizedPayload)], buf, false)
  {
  }

  lemma {:induction false} DiscardDrains(buf: seq<Byte>)
    requires |buf| >= 18 && !StartsWithMagic(buf)
    ensures Drain(buf) == After([Error(DiscardedByte)], Drain(buf[1..]))
  {
  }

  lemma {:induction false} WholeSpan(span: seq<Byte>, stream: seq<Byte>)
    requires IsSpan(span) && span <= stream
    ensures Drain(stream) == After([SpanEvent(span)], Drain(stream[|span|..]))
  {
    assert stream[..4] == span[..4] && stream[4..8] == span[4..8];
    assert stream[..|span|] == span;
    var n := GetNat(span[4..8]);
    assert StartsWithMagic(stream) && GetNat(stream[4..8]) == n && |span| == 18 + n;
  }

  // ----- chunk independence

  lemma {:induction false} AfterAfter(a: seq<Event>, b: seq<Event>, d: Drained)
    ensures After(a, After(b, d)) == After(a + b, d)
  {
    assert a + (b + d.events) == (a + b) + d.events;
  }

  /** The frame at the head of a buffer that holds all of it. */
  function Head(buf: seq<Byte>): (span: seq<Byte>)
    requires !Waiting(buf) && !Oversized(buf) && StartsWithMagic(buf)
    ensures span <= buf && IsSpan(span)
  {
    var span := buf[..18 + GetNat(buf[4..8])];
    assert span[..4] == buf[..4] && span[4..8] == buf[4..8];
    span
  }

  lemma {:induction false} HeadDrains(buf: seq<Byte>, more: seq<Byte>)
    requires !Waiting(buf) && !Oversized(buf) && StartsWithMagic(buf)
    ensures Drain(buf + more) == After([SpanEvent(Head(buf))], Drain(buf[|Head(buf)|..] + more))
  {
    assert (buf + more)[|Head(buf)|..] == buf[|Head(buf)|..] + more;
    WholeSpan(Head(buf), buf + more);
  }

  lemma {:induction false} DiscardedDrains(buf: seq<Byte>, more: seq<Byte>)
    requires |buf| >= 18 && !StartsWithMagic(buf)
    ensures Drain(buf + more) == After([Error(DiscardedByte)], Drain(buf[1..] + more))
  {
    assert (buf + more)[..4] == buf[..4] && (buf + more)[1..] == buf[1..] + more;
    DiscardDrains(buf + more);
  }

  lemma {:induction false} ClosedDrains(buf: seq<Byte>, more: seq<Byte>)
    requires Oversized(buf)
    ensures Drain(buf + more) == Drained([Error(OversizedPayload)], buf + more, false)
  {
    assert (buf + more)[..4] == buf[..4] && (buf + more)[4..8] == buf[4..8];
    OversizedDrains(buf + more);
  }

  lemma {:induction false} DrainAppend(a: seq<Byte>, b: seq<Byte>)
    ensures Drain(a).open ==> Drain(a + b) == After(Drain(a).events, Drain(Drain(a).residual + b))
    ensures !Drain(a).open ==> Drain(a + b) == Drain(a).(residual := Drain(a).residual + b)
    decreases |a|
  {
    if Waiting(a) {
      WaitingDrains(a);
      assert After([], Drain(a + b)) == Drain(a + b);
    } else if Oversized(a) {
      OversizedDrains(a);
      ClosedDrains(a, b);
    } else {
      var event, rest := Error(DiscardedByte), a[1..];
      if StartsWithMagic(a) {
        event, rest := SpanEvent(Head(a)), a[|Head(a)|..];
        HeadDrains(a, b);
        WholeSpan(Head(a), a);
      } else {
        DiscardedDrains(a, b);
        DiscardDrains(a);
      }
      DrainAppend(rest, b);
      AfterAfter([event], Drain(rest).events, Drain(Drain(rest).residual + b));
    }
  }

  /** One more read, handed to the inner loop together with what it had kept. */
  lemma {:induction false} ReceiveMore(received: seq<Byte>, chunk: seq<Byte>)
    requires Drain(received).open
    ensures var d, more := Drain(received), Drain(Drain(received).residual + chunk);
      Drain(received + chunk) == Drained(d.events + more.events, more.residual, more.open)
    ensures |Drain(received).residual| < 65554
  {
    DrainAppend(received, chunk);
    ResidualBounded(received);
  }

  function Concat(chunks: seq<seq<Byte>>): seq<Byte> {
    if chunks == [] then [] else chunks[0] + Concat(chunks[1..])
  }

  /** The outer loop over the chunks that recv returns; after a close it reads no more of them. */
  function Receive(buf: seq<Byte>, chunks: seq<seq<Byte>>): (d: Drained)
    decreases |chunks|
  {
    if chunks == [] then Drained([], buf, true)
    else
      var d := Drain(buf + chunks[0]);
      if d.open then After(d.events, Receive(d.residual, chunks[1..])) else d
  }

  /** Nothing is left to do in what the loop keeps between two reads. */
  lemma {:induction false} DrainResidual(buf: seq<Byte>)
    ensures var d := Drain(buf); d.open ==> Drain(d.residual) == Drained([], d.residual, true)
    decreases |buf|
  {
    if |buf| >= 18 {
      if !StartsWithMagic(buf) {
        DrainResidual(buf[1..]);
      } else if 18 + GetNat(buf[4..8]) <= |buf| && GetNat(buf[4..8]) <= MAX_PAYLOAD_SIZE {
        DrainResidual(buf[18 + GetNat(buf[4..8])..]);
      }
    }
  }

  lemma {:induction false} ReceiveIsDrain(buf: seq<Byte>, chunks: seq<seq<Byte>>)
    requires Drain(buf) == Drained([], buf, true)
    ensures var r, d := Receive(buf, chunks), Drain(buf + Concat(chunks));
      r.events == d.events && r.open == d.open && (r.open ==> r.residual == d.residual)
    decreases |chunks|
  {
    if chunks == [] {
      assert buf + [] == buf;
    } else {
      var rest := Concat(chunks[1..]);
      var d := Drain(buf + chunks[0]);
      assert buf + Concat(chunks) == buf + chunks[0] + rest;
      DrainAppend(buf + chunks[0], rest);
      if d.open {
        DrainResidual(buf + chunks[0]);
        ReceiveIsDrain(d.residual, chunks[1..]);
      }
    }
  }

  /** However recv cuts a stream up, the callbacks are the same and so is the fate of the connection. */
  lemma {:induction false} ChunkIndependence(chunks: seq<seq<Byte>>, chunks': seq<seq<Byte>>)
    requires Concat(chunks) == Concat(chunks')
    ensures Receive([], chunks).events == Receive([], chunks').events
    ensures Receive([], chunks).open == Receive([], chunks').open
    ensures Receive([], chunks).open ==> Receive([], chunks) == Receive([], chunks')
  {
    ReceiveIsDrain([], chunks);
    ReceiveIsDrain([], chunks');
  }

  /** Between two reads the buffer holds less than one frame of maximal size. */
  lemma {:induction false} ResidualBounded(buf: seq<Byte>)
    ensures Drain(buf).open ==> |Drain(buf).residual| < 65554
    decreases |buf|
  {
    if |buf| >= 18 {
      if !StartsWithMagic(buf) {
        ResidualBounded(buf[1..]);
      } else if 18 + GetNat(buf[4..8]) <= |buf| && GetNat(buf[4..8]) <= MAX_PAYLOAD_SIZE {
        ResidualBounded(buf[18 + GetNat(buf[4..8])..]);
      }
    }
  }

  lemma {:induction false} PrintedSpan(f: TransportFrame)
    requires Sendable(f)
    ensures IsSpan(Print(f)) && SpanEvent(Print(f)) == FrameReceived(Framed(f))
  {
    assert Print(f) + [] == Print(f);
    PrintedFields(f, []);
    Put4(FRAME_MAGIC);
    Put4(|f.payload|);
    ParsePrint(f, []);
  }

  function SpanEvents(spans: seq<seq<Byte>>): (events: seq<Event>)
    ensures |events| == |spans| && forall i :: 0 <= i < |spans| ==> events[i] == SpanEvent(spans[i])
  {
    seq(|spans|, i requires 0 <= i < |spans| => SpanEvent(spans[i]))
  }

  /** A run of frame-shaped spans is taken apart at its seams, whatever follows it. */
  lemma {:induction false} SpansDrain(spans: seq<seq<Byte>>, rest: seq<Byte>)
    requires forall i :: 0 <= i < |spans| ==> IsSpan(spans[i])
    ensures Drain(Concat(spans) + rest) == After(SpanEvents(spans), Drain(rest))
    decreases |spans|
  {
    if spans == [] {
      assert [] + rest == rest && After([], Drain(rest)) == Drain(rest);
    } else {
      var tail := Concat(spans[1..]) + rest;
      assert Concat(spans) + rest == spans[0] + tail;
      WholeSpan(spans[0], spans[0] + tail);
      SpansDrain(spans[1..], rest);
      assert SpanEvents(spans) == [SpanEvent(spans[0])] + SpanEvents(spans[1..]);
      AfterAfter([SpanEvent(spans[0])], SpanEvents(spans[1..]), Drain(rest));
    }
  }

  // ----- conservation: a stream is cut into spans, and the cut determines the callbacks

  datatype Span =
    | Discarded(byte: Byte)
    | Rejected(bytes: seq<Byte>, reason: FrameError)
    | Delivered(frame: TransportFrame)

  /** A span that may begin at this point of the stream. */
  predicate FitsHere(s: Span, stream: seq<Byte>) {
    match s
    case Discarded(b) => |stream| >= 18 && stream[0] == b && !StartsWithMagic(stream)
    case Delivered(f) => Sendable(f) && Framed(f) == f && Print(f) <= stream
    case Rejected(bytes, e) =>
      bytes <= stream && IsSpan(bytes) && Parse(bytes) == Err(e)
  }

  function SpanBytes(s: Span): (bytes: seq<Byte>)
    requires s.Delivered? ==> Sendable(s.frame)
    ensures s.Discarded? ==> |bytes| == 1
  {
    match s
    case Discarded(b) => [b]
    case Rejected(bytes, e) => bytes
    case Delivered(f) => Print(f)
  }

  function Reported(s: Span): Event {
    match s
    case Discarded(b) => Error(DiscardedByte)
    case Rejected(bytes, e) => Error(FrameRejected(e))
    case Delivered(f) => FrameReceived(f)
  }

  /** The spans, in order, and then the residual make up the stream. */
  predicate Partition(stream: seq<Byte>, spans: seq<Span>, residual: seq<Byte>)
    decreases |spans|
  {
    if spans == [] then stream == residual
    else
      && FitsHere(spans[0], stream)
      && SpanBytes(spans[0]) <= stream
      && Partition(stream[|SpanBytes(spans[0])|..], spans[1..], residual)
  }

  function Report(spans: seq<Span>): (events: seq<Event>)
    ensures |events| == |spans| && forall i :: 0 <= i < |spans| ==> events[i] == Reported(spans[i])
  {
    seq(|spans|, i requires 0 <= i < |spans| => Reported(spans[i]))
  }

  lemma {:induction false} ReportStep(spans: seq<Span>)
    requires spans != []
    ensures Report(spans) == [Reported(spans[0])] + Report(spans[1..])
  {
  }

  lemma {:induction false} NothingMore(residual: seq<Byte>)
    requires Waiting(residual) || Oversized(residual)
    ensures Drain(residual) == Drained(if Oversized(residual) then [Error(OversizedPayload)] else [],
                                       residual, !Oversized(residual))
  {
    if Waiting(residual) {
      WaitingDrains(residual);
    } else {
      OversizedDrains(residual);
    }
  }

  lemma {:induction false} PartitionDetermines(stream: seq<Byte>, spans: seq<Span>, residual: seq<Byte>)
    requires Partition(stream, spans, residual) && (Waiting(residual) || Oversized(residual))
    ensures Drain(stream) == Drained(Report(spans) + (if Oversized(residual) then [Error(OversizedPayload)] else []),
                                     residual, !Oversized(residual))
    decreases |spans|
  {
    if spans == [] {
      assert Report(spans) == [];
      NothingMore(residual);
    } else {
      var rest := stream[|SpanBytes(spans[0])|..];
      PartitionDetermines(rest, spans[1..], residual);
      SpanDrains(spans[0], stream);
      ReportStep(spans);
      Associative([Reported(spans[0])], Report(spans[1..]),
                  if Oversized(residual) then [Error(OversizedPayload)] else []);
    }
  }

  lemma {:induction false} SpanDrains(s: Span, stream: seq<Byte>)
    requires FitsHere(s, stream) && SpanBytes(s) <= stream
    ensures Drain(stream) == After([Reported(s)], Drain(stream[|SpanBytes(s)|..]))
  {
    match s
    case Discarded(b) =>
      assert |SpanBytes(s)| == 1;
    case Rejected(bytes, e) =>
      WholeSpan(bytes, stream);
    case Delivered(f) =>
      PrintedSpan(f);
      WholeSpan(Print(f), stream);
  }

  /** Every stream has such a cut; with PartitionDetermines, exactly one report. */
  lemma {:induction false} Conservation(stream: seq<Byte>) returns (spans: seq<Span>)
    ensures var residual := Drain(stream).residual;
      && Partition(stream, spans, residual)
      && (Waiting(residual) || Oversized(residual))
      && Drain(stream).open == !Oversized(residual)
    decreases |stream|
  {
    if Waiting(stream) || Oversized(stream) {
      spans := [];
    } else {
      var s := FirstSpan(stream);
      SpanDrains(s, stream);
      var more := Conservation(stream[|SpanBytes(s)|..]);
      spans := [s] + more;
      assert spans[1..] == more;
    }
  }

  lemma {:induction false} FirstSpan(stream: seq<Byte>) returns (s: Span)
    requires !Waiting(stream) && !Oversized(stream)
    ensures FitsHere(s, stream) && SpanBytes(s) <= stream && SpanBytes(s) != []
  {
    if !StartsWithMagic(stream) {
      s := Discarded(stream[0]);
    } else {
      var bytes := Head(stream);
      match Parse(bytes)
      case Err(e) => s := Rejected(bytes, e);
      case Ok(f) =>
        PrintParse(bytes);
        s := Delivered(f);
        assert Print(f) <= bytes <= stream;
    }
  }
}
