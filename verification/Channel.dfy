/** What a sequence of frames becomes on its way through SendFrame, the wire and the receive loop. */
module Channel {
  import opened Bytes
  import opened FrameProtocol
  import opened StreamReceiver
  import opened TcpTransport

  ghost predicate AllSendable(fs: seq<TransportFrame>) {
    forall f :: f in fs ==> Sendable(f)
  }

  function Prints(fs: seq<TransportFrame>): (parts: seq<seq<Byte>>)
    requires AllSendable(fs)
    ensures |parts| == |fs| && forall i :: 0 <= i < |fs| ==> parts[i] == Print(fs[i])
  {
    seq(|fs|, i requires 0 <= i < |fs| => Print(fs[i]))
  }

  /** The bytes of a sequence of frames. */
  function Wire(fs: seq<TransportFrame>): seq<Byte>
    requires AllSendable(fs)
  {
    Concat(Prints(fs))
  }

  lemma {:induction false} WireStep(fs: seq<TransportFrame>)
    requires AllSendable(fs) && fs != []
    ensures Wire(fs) == Print(fs[0]) + Wire(fs[1..])
  {
    assert Prints(fs)[1..] == Prints(fs[1..]);
  }

  function Deliveries(fs: seq<TransportFrame>): (events: seq<Event>)
    requires AllSendable(fs)
    ensures |events| == |fs| && forall i :: 0 <= i < |fs| ==> events[i] == FrameReceived(Framed(fs[i]))
  {
    seq(|fs|, i requires 0 <= i < |fs| => FrameReceived(Framed(fs[i])))
  }

  lemma {:induction false} PrintsAreSpans(fs: seq<TransportFrame>)
    requires AllSendable(fs)
    ensures forall i :: 0 <= i < |fs| ==> IsSpan(Prints(fs)[i])
    ensures SpanEvents(Prints(fs)) == Deliveries(fs)
  {
    forall i | 0 <= i < |fs| ensures IsSpan(Prints(fs)[i]) && SpanEvent(Prints(fs)[i]) == FrameReceived(Framed(fs[i])) {
      PrintedSpan(fs[i]);
    }
  }

  lemma {:induction false} WireDrains(fs: seq<TransportFrame>, rest: seq<Byte>)
    requires AllSendable(fs)
    ensures Drain(Wire(fs) + rest) == After(Deliveries(fs), Drain(rest))
  {
    PrintsAreSpans(fs);
    SpansDrain(Prints(fs), rest);
  }

  // ----- FIFO

  datatype SendCall = SendCall(messageType: MessageType, payload: seq<Byte>)

  /** The frames that a run of SendFrame calls puts on the wire; a refused call still uses up a number. */
  function Accepted(calls: seq<SendCall>, counter: Uint32): (fs: seq<TransportFrame>)
    ensures AllSendable(fs)
    decreases |calls|
  {
    if calls == [] then []
    else
      var f := Transport.Outgoing(calls[0].messageType, calls[0].payload, counter);
      (if Sendable(f) then [f] else []) + Accepted(calls[1..], Transport.Next(counter))
  }

  ghost predicate Ascending(fs: seq<TransportFrame>, low: nat, high: nat) {
    && (forall i :: 0 <= i < |fs| ==> low <= fs[i].sequenceNumber < high)
    && (forall i, j :: 0 <= i < j < |fs| ==> fs[i].sequenceNumber < fs[j].sequenceNumber)
  }

  lemma {:induction false} AscendingStep(f: TransportFrame, rest: seq<TransportFrame>, high: nat)
    requires Ascending(rest, f.sequenceNumber + 1, high) && f.sequenceNumber < high
    ensures Ascending((if Sendable(f) then [f] else []) + rest, f.sequenceNumber, high)
  {
    if !Sendable(f) {
      assert [] + rest == rest;
    } else {
      var all := [f] + rest;
      assert forall i :: 0 < i < |all| ==> all[i] == rest[i - 1];
    }
  }

  /** Until the counter wraps, the numbers on the wire strictly increase. */
  lemma {:induction false} SequenceIncreases(calls: seq<SendCall>, counter: Uint32)
    requires counter + |calls| <= 0x1_0000_0000
    ensures Ascending(Accepted(calls, counter), counter, counter + |calls|)
    decreases |calls|
  {
    if calls != [] {
      if |calls| > 1 {
        SequenceIncreases(calls[1..], counter + 1);
      }
      AscendingStep(Transport.Outgoing(calls[0].messageType, calls[0].payload, counter),
                    Accepted(calls[1..], Transport.Next(counter)), counter + |calls|);
    }
  }

  lemma {:induction false} ConcatPrefix(parts: seq<seq<Byte>>, bytes: seq<Byte>) returns (j: nat, part: seq<Byte>)
    requires bytes <= Concat(parts)
    ensures j <= |parts| && bytes == Concat(parts[..j]) + part
    ensures if j == |parts| then part == [] else |part| < |parts[j]| && part <= parts[j]
    decreases |parts|
  {
    if parts == [] {
      j, part := 0, [];
    } else if |bytes| < |parts[0]| {
      j, part := 0, bytes;
      assert bytes == parts[0][..|bytes|];
    } else {
      var rest := bytes[|parts[0]|..];
      assert bytes == parts[0] + rest && rest <= Concat(parts[1..]);
      var i, p := ConcatPrefix(parts[1..], rest);
      j, part := i + 1, p;
      assert parts[..j][1..] == parts[1..][..i];
      assert bytes == parts[0] + (Concat(parts[1..][..i]) + part);
    }
  }

  /** Any number of bytes of a wire is some whole frames and a proper part of the next one. */
  lemma {:induction false} WirePrefix(fs: seq<TransportFrame>, bytes: seq<Byte>) returns (j: nat, part: seq<Byte>)
    requires AllSendable(fs) && bytes <= Wire(fs)
    ensures j <= |fs| && bytes == Wire(fs[..j]) + part
    ensures if j == |fs| then part == [] else part < Print(fs[j])
  {
    j, part := ConcatPrefix(Prints(fs), bytes);
    assert Prints(fs)[..j] == Prints(fs[..j]);
  }

  lemma {:induction false} PartWaits(f: TransportFrame, part: seq<Byte>)
    requires Sendable(f) && part < Print(f)
    ensures Drain(part) == Drained([], part, true)
  {
    PrintedSpan(f);
    if |part| >= 18 {
      assert part[..4] == Print(f)[..4] && part[4..8] == Print(f)[4..8];
    }
    WaitingDrains(part);
  }

  /**
   * At every moment, and for every chunking, the receiver has delivered exactly the frames whose
   * bytes have all arrived, in order and without an error, and keeps the rest.
   */
  lemma {:induction false} FifoSoFar(fs: seq<TransportFrame>, chunks: seq<seq<Byte>>) returns (j: nat, part: seq<Byte>)
    requires AllSendable(fs) && Concat(chunks) <= Wire(fs)
    ensures j <= |fs| && Concat(chunks) == Wire(fs[..j]) + part
    ensures if j == |fs| then part == [] else part < Print(fs[j])
    ensures Receive([], chunks) == Drained(Deliveries(fs[..j]), part, true)
  {
    j, part := WirePrefix(fs, Concat(chunks));
    if j < |fs| {
      PartWaits(fs[j], part);
    }
    WireDrains(fs[..j], part);
    ReceiveIsDrain([], chunks);
    assert [] + Concat(chunks) == Concat(chunks);
    assert Deliveries(fs[..j]) + [] == Deliveries(fs[..j]);
  }

  /** How many of the first k calls have a payload that a frame can hold. */
  function Fitting(calls: seq<SendCall>, k: nat): (n: nat)
    requires k <= |calls|
    ensures n <= k && ((forall i :: 0 <= i < k ==> |calls[i].payload| <= 65536) ==> n == k)
    decreases k
  {
    if k == 0 then 0 else Fitting(calls, k - 1) + (if |calls[k - 1].payload| <= 65536 then 1 else 0)
  }

  /** A callback with the frame of this call, under this number. */
  predicate DeliversCall(event: Event, call: SendCall, number: nat) {
    && event.FrameReceived? && event.frame.messageType == call.messageType && event.frame.payload == call.payload
    && event.frame.flags == 0 && event.frame.sequenceNumber == number
  }

  lemma {:induction false} FittingTail(calls: seq<SendCall>, k: nat)
    requires 0 < k <= |calls|
    ensures Fitting(calls, k) == (if |calls[0].payload| <= 65536 then 1 else 0) + Fitting(calls[1..], k - 1)
    decreases k
  {
    if k > 1 {
      FittingTail(calls, k - 1);
    }
  }

  /** The number of call i. */
  function NumberOf(counter: Uint32, i: nat): (number: Uint32)
    ensures number == (counter + i) % 0x1_0000_0000
    decreases i
  {
    if i == 0 then counter else Transport.Next(NumberOf(counter, i - 1))
  }

  lemma {:induction false} NumberShift(counter: Uint32, i: nat)
    requires i > 0
    ensures NumberOf(Transport.Next(counter), i - 1) == NumberOf(counter, i)
  {
  }

  lemma {:induction false} AcceptedAt(calls: seq<SendCall>, counter: Uint32, i: nat)
    requires i < |calls| && |calls[i].payload| <= 65536
    ensures Fitting(calls, i) < |Accepted(calls, counter)|
    ensures Accepted(calls, counter)[Fitting(calls, i)]
         == Transport.Outgoing(calls[i].messageType, calls[i].payload, NumberOf(counter, i))
    decreases i
  {
    var next, rest := Transport.Next(counter), calls[1..];
    var f, others := Transport.Outgoing(calls[0].messageType, calls[0].payload, counter), Accepted(rest, next);
    assert Accepted(calls, counter) == (if Sendable(f) then [f] else []) + others;
    if i > 0 {
      AcceptedAt(rest, next, i - 1);
      NumberShift(counter, i);
      FittingTail(calls, i);
    }
  }

  /** Every call that fits is there, with its type, its payload and its own number, behind those before it. */
  lemma {:induction false} AcceptedCall(calls: seq<SendCall>, counter: Uint32, i: nat)
    requires i < |calls| && |calls[i].payload| <= 65536
    ensures var fs, k := Accepted(calls, counter), Fitting(calls, i);
      k < |fs| && DeliversCall(FrameReceived(Framed(fs[k])), calls[i], (counter + i) % 0x1_0000_0000)
  {
    AcceptedAt(calls, counter, i);
  }

  lemma {:induction false} AcceptedAll(calls: seq<SendCall>, counter: Uint32)
    ensures |Accepted(calls, counter)| == Fitting(calls, |calls|)
    decreases |calls|
  {
    if calls != [] {
      AcceptedAll(calls[1..], Transport.Next(counter));
      FittingTail(calls, |calls|);
    }
  }

  /** The i-th call, if it fits, is what the receiver is told behind the calls that fit before it. */
  ghost predicate InOrder(events: seq<Event>, calls: seq<SendCall>, counter: Uint32) {
    forall i :: 0 <= i < |calls| && |calls[i].payload| <= 65536 && Fitting(calls, i) < |events| ==>
      DeliversCall(events[Fitting(calls, i)], calls[i], (counter + i) % 0x1_0000_0000)
  }

  lemma {:induction false} DeliveriesInOrder(calls: seq<SendCall>, counter: Uint32, j: nat)
    requires j <= |Accepted(calls, counter)|
    ensures InOrder(Deliveries(Accepted(calls, counter)[..j]), calls, counter)
  {
    forall i | 0 <= i < |calls| && |calls[i].payload| <= 65536 && Fitting(calls, i) < j
      ensures DeliversCall(Deliveries(Accepted(calls, counter)[..j])[Fitting(calls, i)], calls[i],
                           (counter + i) % 0x1_0000_0000)
    {
      AcceptedCall(calls, counter, i);
    }
  }

  /** The channel is a FIFO: every call that fits is delivered, in order and as it was made. */
  lemma {:induction false} Fifo(calls: seq<SendCall>, counter: Uint32, chunks: seq<seq<Byte>>)
    requires Concat(chunks) == Wire(Accepted(calls, counter))
    ensures Receive([], chunks) == Drained(Deliveries(Accepted(calls, counter)), [], true)
    ensures |Receive([], chunks).events| == Fitting(calls, |calls|)
    ensures InOrder(Receive([], chunks).events, calls, counter)
  {
    var fs := Accepted(calls, counter);
    PrintsAreSpans(fs);
    AllSpansReceived(Prints(fs), chunks);
    AcceptedAll(calls, counter);
    DeliveriesInOrder(calls, counter, |fs|);
    assert fs[..|fs|] == fs;
  }

  // ----- the same of the methods themselves

  /** What SendFrame sends for a frame, if it sends it. */
  function AcceptedBytes(f: TransportFrame): seq<Byte> {
    if Sendable(f) then Print(f) else []
  }

  lemma {:induction false} NextOnWire(calls: seq<SendCall>, counter: Uint32)
    requires calls != []
    ensures Wire(Accepted(calls, counter))
         == AcceptedBytes(Transport.Outgoing(calls[0].messageType, calls[0].payload, counter))
          + Wire(Accepted(calls[1..], Transport.Next(counter)))
  {
    var f := Transport.Outgoing(calls[0].messageType, calls[0].payload, counter);
    var rest := Accepted(calls[1..], Transport.Next(counter));
    if Sendable(f) {
      assert Accepted(calls, counter)[1..] == rest;
      WireStep(Accepted(calls, counter));
    } else {
      assert Accepted(calls, counter) == rest;
      assert [] + Wire(rest) == Wire(rest);
    }
  }

  lemma {:induction false} WireConcat(a: seq<TransportFrame>, b: seq<TransportFrame>)
    requires AllSendable(a) && AllSendable(b)
    ensures AllSendable(a + b) && Wire(a + b) == Wire(a) + Wire(b)
    decreases |a|
  {
    if a == [] {
      assert a + b == b && [] + Wire(b) == Wire(b);
    } else {
      assert (a + b)[1..] == a[1..] + b;
      WireConcat(a[1..], b);
      WireStep(a);
      WireStep(a + b);
      Associative(Print(a[0]), Wire(a[1..]), Wire(b));
    }
  }

  lemma {:induction false} OneFrame(f: TransportFrame)
    requires Sendable(f)
    ensures AllSendable([f]) && Wire([f]) == Print(f)
  {
    WireStep([f]);
    assert [f][1..] == [];
    assert Print(f) + [] == Print(f);
  }

  /** One of a run of SendFrame calls. */
  method SendNext(sender: Transport, call: SendCall)
    requires sender.isConnected
    modifies sender, sender.socket
    ensures sender.sequenceCounter == Transport.Next(old(sender.sequenceCounter))
    ensures var all := old(sender.socket.outgoing)
                     + AcceptedBytes(Transport.Outgoing(call.messageType, call.payload, old(sender.sequenceCounter)));
      sender.socket.outgoing <= all && (sender.isConnected ==> sender.socket.outgoing == all)
  {
    ghost var f := Transport.Outgoing(call.messageType, call.payload, sender.sequenceCounter);
    ghost var before := sender.socket.outgoing;
    var ok, written := sender.SendFrame(call.messageType, call.payload);
    if Sendable(f) {
      PartOfNext(before, Print(f), written);
    } else {
      assert before + [] == before;
    }
  }

  /** SendFrame call after call, up to one that loses the connection. */
  method SendAll(sender: Transport, calls: seq<SendCall>)
    requires sender.isConnected && sender.socket.outgoing == []
    modifies sender, sender.socket
    ensures var fs := Accepted(calls, old(sender.sequenceCounter));
      && sender.socket.outgoing <= Wire(fs)
      && (sender.isConnected ==> sender.socket.outgoing == Wire(fs))
  {
    ghost var wire := Wire(Accepted(calls, sender.sequenceCounter));
    var toCall := calls;
    assert [] + wire == wire;
    while toCall != []
      invariant sender.isConnected && sender.socket.outgoing + Wire(Accepted(toCall, sender.sequenceCounter)) == wire
      decreases |toCall|
    {
      ghost var counter, before := sender.sequenceCounter, sender.socket.outgoing;
      NextOnWire(toCall, counter);
      SendNext(sender, toCall[0]);
      ghost var next := AcceptedBytes(Transport.Outgoing(toCall[0].messageType, toCall[0].payload, counter));
      Associative(before, next, Wire(Accepted(toCall[1..], Transport.Next(counter))));
      if !sender.isConnected {
        PrefixGrows(sender.socket.outgoing, before + next, Wire(Accepted(toCall[1..], Transport.Next(counter))));
        return;
      }
      toCall := toCall[1..];
    }
    assert sender.socket.outgoing + [] == sender.socket.outgoing;
  }

  lemma {:induction false} PrefixGrows(a: seq<Byte>, b: seq<Byte>, more: seq<Byte>)
    requires a <= b
    ensures a <= b + more
  {
  }

  lemma {:induction false} PartOfNext(before: seq<Byte>, next: seq<Byte>, n: nat)
    requires n <= |next|
    ensures before + next[..n] <= before + next && (n == |next| ==> before + next[..n] == before + next)
  {
    assert before + next == before + next[..n] + next[n..];
    assert next[..|next|] == next;
  }

  /**
   * Sender and receiver together, over sockets that split the bytes as they like and may give out at
   * any point: the receiver is told of a prefix of the calls that fit, in order, without an error and each as it was
   * made, and of all of them if nothing was lost. If all calls fit, event i is call i.
   */
  method Exchange(sender: Transport, receiver: Transport, calls: seq<SendCall>) returns (ghost j: nat)
    requires sender != receiver && sender.socket != receiver.socket
    requires sender.isConnected && sender.socket.outgoing == [] && receiver.isConnected && receiver.events == []
    modifies sender, sender.socket, receiver, receiver.socket
    ensures |receiver.events| == j + 1 && receiver.events[j] == Disconnected && j <= Fitting(calls, |calls|)
    ensures InOrder(receiver.events[..j], calls, old(sender.sequenceCounter))
    ensures sender.isConnected && receiver.socket.incoming == [] ==> j == Fitting(calls, |calls|)
  {
    SendAll(sender, calls);
    receiver.socket.incoming := sender.socket.outgoing;
    ghost var fs := Accepted(calls, old(sender.sequenceCounter));
    var received, peak := receiver.ReceiverWorker();
    j := DeliveredPrefix(fs, received);
    AcceptedAll(calls, old(sender.sequenceCounter));
    DeliveriesInOrder(calls, old(sender.sequenceCounter), j);
    assert receiver.events[..j] == Deliveries(fs[..j]);
  }

  lemma {:induction false} DeliveredPrefix(fs: seq<TransportFrame>, received: seq<Byte>) returns (j: nat)
    requires AllSendable(fs) && received <= Wire(fs)
    ensures j <= |fs| && Drain(received).events == Deliveries(fs[..j]) && Drain(received).open
    ensures received == Wire(fs) ==> j == |fs|
  {
    var one := [received];
    assert one[1..] == [] && received + [] == received && [] + received == received;
    var part: seq<Byte>;
    j, part := FifoSoFar(fs, one);
    ReceiveIsDrain([], one);
    if j < |fs| {
      NotAllOfIt(fs, j, part);
    }
  }

  /** Some frames and a proper part of the next are not the whole wire. */
  lemma {:induction false} NotAllOfIt(fs: seq<TransportFrame>, j: nat, part: seq<Byte>)
    requires AllSendable(fs) && j < |fs| && part < Print(fs[j])
    ensures Wire(fs[..j]) + part != Wire(fs)
  {
    assert fs == fs[..j] + fs[j..];
    WireConcat(fs[..j], fs[j..]);
    WireStep(fs[j..]);
  }

  // ----- damage

  /** Damaged or not, it is as long as it was sent and has its magic and its length. */
  predicate FramingKept(f: TransportFrame, span: seq<Byte>)
    requires Sendable(f)
  {
    |span| == |Print(f)| && span[..8] == Print(f)[..8]
  }

  /** What becomes of a frame of which these bytes arrive. */
  function Arrival(f: TransportFrame, span: seq<Byte>): Event
    requires Sendable(f)
  {
    if span == Print(f) then FrameReceived(Framed(f)) else SpanEvent(span)
  }

  /**
   * However many frames of a run are damaged, as long as the framing is kept each one costs at most itself: for every
   * chunking every frame that is whole is delivered, in its place, and every one that does not parse is one error.
   */
  lemma {:induction false} DamageContained(fs: seq<TransportFrame>, spans: seq<seq<Byte>>, chunks: seq<seq<Byte>>)
    requires AllSendable(fs) && |spans| == |fs| && Concat(chunks) == Concat(spans)
    requires forall i :: 0 <= i < |fs| ==> FramingKept(fs[i], spans[i])
    ensures Receive([], chunks)
         == Drained(seq(|fs|, i requires 0 <= i < |fs| => Arrival(fs[i], spans[i])), [], true)
  {
    forall i | 0 <= i < |fs| ensures IsSpan(spans[i]) && SpanEvents(spans)[i] == Arrival(fs[i], spans[i]) {
      SameHeadSpan(fs[i], spans[i]);
      PrintParses(fs[i]);
    }
    AllSpansReceived(spans, chunks);
  }

  lemma {:induction false} PrintParses(f: TransportFrame)
    requires Sendable(f)
    ensures Parse(Print(f)) == Ok(Framed(f))
  {
    ParsePrint(f, []);
    assert Print(f) + [] == Print(f);
  }

  lemma {:induction false} AllSpansReceived(spans: seq<seq<Byte>>, chunks: seq<seq<Byte>>)
    requires forall i :: 0 <= i < |spans| ==> IsSpan(spans[i])
    requires Concat(chunks) == Concat(spans)
    ensures Receive([], chunks) == Drained(SpanEvents(spans), [], true)
  {
    SpansDrain(spans, []);
    ReceiveIsDrain([], chunks);
    assert [] + Concat(chunks) == Concat(spans) + [];
    assert SpanEvents(spans) + [] == SpanEvents(spans);
  }

  lemma {:induction false} SameHeadSpan(f: TransportFrame, damaged: seq<Byte>)
    requires Sendable(f) && FramingKept(f, damaged)
    ensures IsSpan(damaged)
  {
    PrintedSpan(f);
    var p := Print(f);
    assert damaged[..4] == p[..8][..4] == p[..4];
    assert damaged[4..8] == p[..8][4..] == p[4..8];
  }

  // ----- resynchronisation

  lemma {:induction false} MagicBytes(buf: seq<Byte>)
    requires |buf| >= 4
    ensures StartsWithMagic(buf) <==> buf[0] == 0x50 && buf[1] == 0x4B && buf[2] == 0x46 && buf[3] == 0x52
  {
    Get4(buf[..4]);
  }

  /** The magic occurs nowhere within the bytes. */
  predicate NoMagic(garbage: seq<Byte>) {
    forall i :: 0 <= i <= |garbage| ==> !StartsWithMagic(garbage[i..])
  }

  function Discards(n: nat): (events: seq<Event>)
    ensures |events| == n
  {
    seq(n, _ => Error(DiscardedByte))
  }

  /** No match straddles the boundary: the magic has no proper suffix that is also a prefix of it. */
  lemma {:induction false} NoStraddle(garbage: seq<Byte>, rest: seq<Byte>)
    requires garbage != [] && !StartsWithMagic(garbage) && StartsWithMagic(rest)
    ensures !StartsWithMagic(garbage + rest)
  {
    MagicBytes(rest);
    MagicBytes(garbage + rest);
    if |garbage| >= 4 {
      MagicBytes(garbage);
    }
  }

  lemma {:induction false} GarbageDrains(garbage: seq<Byte>, rest: seq<Byte>)
    requires NoMagic(garbage) && StartsWithMagic(rest) && |rest| >= 18
    ensures Drain(garbage + rest) == After(Discards(|garbage|), Drain(rest))
    decreases |garbage|
  {
    if garbage == [] {
      assert [] + rest == rest && After([], Drain(rest)) == Drain(rest);
    } else {
      assert garbage[0..] == garbage;
      NoStraddle(garbage, rest);
      DiscardDrains(garbage + rest);
      assert (garbage + rest)[1..] == garbage[1..] + rest;
      forall i | 0 <= i <= |garbage| - 1 ensures !StartsWithMagic(garbage[1..][i..]) {
        assert garbage[1..][i..] == garbage[i + 1..];
      }
      GarbageDrains(garbage[1..], rest);
      AfterAfter([Error(DiscardedByte)], Discards(|garbage| - 1), Drain(rest));
      assert [Error(DiscardedByte)] + Discards(|garbage| - 1) == Discards(|garbage|);
    }
  }

  lemma {:induction false} HeaderNotDiscarded(buf: seq<Byte>)
    requires |buf| >= 18 && StartsWithMagic(buf)
    ensures Drain(buf).events != [] ==> Drain(buf).events[0] != Error(DiscardedByte)
  {
  }

  /** A match in the noise is taken for a header, so the byte at which it begins is not reported. */
  lemma {:induction false} MagicSpoils(noise: seq<Byte>, wire: seq<Byte>) returns (i: nat)
    requires !NoMagic(noise) && |wire| >= 18
    ensures i < |noise|
    ensures var events := Drain(noise + wire).events; i < |events| ==> events[i] != Error(DiscardedByte)
  {
    i := FirstMagic(noise);
    var rest := noise[i..] + wire;
    assert noise + wire == noise[..i] + rest;
    assert rest[..4] == noise[i..][..4];
    GarbageDrains(noise[..i], rest);
    HeaderNotDiscarded(rest);
    var events := Drain(noise + wire).events;
    assert events == Discards(i) + Drain(rest).events;
    if i < |events| {
      assert events[i] == Drain(rest).events[0];
    }
  }

  /**
   * Noise in front of a run of frames costs one error a byte and no frame, for every chunking, exactly when the magic
   * does not occur in the noise.
   */
  lemma {:induction false} Resynchronisation(noise: seq<Byte>, fs: seq<TransportFrame>, chunks: seq<seq<Byte>>)
    requires AllSendable(fs) && fs != [] && Concat(chunks) == noise + Wire(fs)
    ensures NoMagic(noise)
       <==> Receive([], chunks) == Drained(Discards(|noise|) + Deliveries(fs), [], true)
  {
    NoiseDrains(noise, fs);
    ReceiveIsDrain([], chunks);
    assert [] + Concat(chunks) == noise + Wire(fs);
  }

  lemma {:induction false} NoiseDrains(noise: seq<Byte>, fs: seq<TransportFrame>)
    requires AllSendable(fs) && fs != []
    ensures NoMagic(noise)
       <==> Drain(noise + Wire(fs)) == Drained(Discards(|noise|) + Deliveries(fs), [], true)
  {
    var wire := Wire(fs);
    WireBegins(fs);
    if NoMagic(noise) {
      GarbageDrains(noise, wire);
      assert wire + [] == wire;
      WireDrains(fs, []);
      assert Deliveries(fs) + [] == Deliveries(fs);
    } else {
      var i := MagicSpoils(noise, wire);
      assert (Discards(|noise|) + Deliveries(fs))[i] == Discards(|noise|)[i];
    }
  }

  lemma {:induction false} WireBegins(fs: seq<TransportFrame>)
    requires AllSendable(fs) && fs != []
    ensures |Wire(fs)| >= 18 && StartsWithMagic(Wire(fs))
  {
    PrintedSpan(fs[0]);
    WireStep(fs);
    assert Wire(fs)[..4] == Print(fs[0])[..4];
  }

  lemma {:induction false} FirstMagic(noise: seq<Byte>) returns (i: nat)
    requires !NoMagic(noise)
    ensures i < |noise| && StartsWithMagic(noise[i..]) && NoMagic(noise[..i])
  {
    var k :| 0 <= k <= |noise| && StartsWithMagic(noise[k..]);
    i := 0;
    while !StartsWithMagic(noise[i..])
      invariant i <= k && forall j :: 0 <= j < i ==> !StartsWithMagic(noise[j..])
      decreases k - i
    {
      i := i + 1;
    }
    forall j | 0 <= j <= i ensures !StartsWithMagic(noise[..i][j..]) {
      if i - j >= 4 {
        MagicBytes(noise[j..]);
        MagicBytes(noise[..i][j..]);
      }
    }
  }
}
