/** TcpTransport: the receive loop and SendFrame, over a socket that splits reads and writes as it likes. */
module TcpTransport {
  import opened Bytes
  import opened FrameProtocol
  import opened StreamReceiver

  const RECV_SIZE: nat := 4096

  /** The two byte streams of a connected socket. */
  class Socket {
    var incoming: seq<Byte>
    var outgoing: seq<Byte>

    /** recv: some of the bytes that are to come, at most a buffer full; none when the peer is gone. */
    method Recv() returns (chunk: seq<Byte>)
      modifies this`incoming
      ensures |chunk| <= 4096 && old(incoming) == chunk + incoming
    {
      var n: nat :| n <= |incoming| && n <= RECV_SIZE;
      chunk := incoming[..n];
      incoming := incoming[n..];
    }

    /** send: takes some leading bytes of data, or fails. */
    method Send(data: seq<Byte>) returns (sent: int)
      modifies this`outgoing
      ensures sent <= |data|
      ensures outgoing == if sent > 0 then old(outgoing) + data[..sent] else old(outgoing)
    {
      sent :| -1 <= sent <= |data|;
      if sent > 0 {
        outgoing := outgoing + data[..sent];
      }
    }
  }

  class Transport {
    const socket: Socket
    var isConnected: bool
    var sequenceCounter: Uint32
    /** The callbacks the listener has had. */
    var events: seq<Event>

    /** A transport as it is just after accept or connect. */
    constructor (socket: Socket)
      ensures this.socket == socket && isConnected && sequenceCounter == 1 && events == []
    {
      this.socket := socket;
      isConnected := true;
      sequenceCounter := 1;
      events := [];
    }

    /** The inner loop of the receiver: it works on rxBuffer until it has to wait or to close. */
    method ProcessBuffer(start: seq<Byte>) returns (rxBuffer: seq<Byte>)
      requires isConnected
      modifies this`isConnected, this`events
      ensures events == old(events) + Drain(start).events
      ensures rxBuffer == Drain(start).residual && isConnected == Drain(start).open
    {
      rxBuffer := start;
      ghost var all := events + Drain(start).events;
      while |rxBuffer| >= 18
        invariant isConnected && events + Drain(rxBuffer).events == all
        invariant Drain(rxBuffer).(events := []) == Drain(start).(events := [])
        decreases |rxBuffer|
      {
        var magic := GetWord(rxBuffer, 0);
        assert rxBuffer[..4] == rxBuffer[0..4];
        if magic != FRAME_MAGIC {
          DiscardDrains(rxBuffer);
          Associative(events, [Error(DiscardedByte)], Drain(rxBuffer[1..]).events);
          events := events + [Error(DiscardedByte)];
          rxBuffer := rxBuffer[1..];
          continue;
        }
        var payloadLen := GetWord(rxBuffer, 4);
        if payloadLen > MAX_PAYLOAD_SIZE {
          OversizedDrains(rxBuffer);
          events := events + [Error(OversizedPayload)];
          isConnected := false;
          return;
        }
        var totalFrameLen := 14 + payloadLen + 4;
        if |rxBuffer| < totalFrameLen {
          break;
        }
        ghost var span := rxBuffer[..totalFrameLen];
        assert span[..4] == rxBuffer[..4] && span[4..8] == rxBuffer[4..8];
        WholeSpan(span, rxBuffer);
        Associative(events, [SpanEvent(span)], Drain(rxBuffer[totalFrameLen..]).events);
        var frame := DeserializeFrame(rxBuffer[..totalFrameLen]);
        match frame {
          case Ok(f) => events := events + [FrameReceived(f)];
          case Err(e) => events := events + [Error(FrameRejected(e))];
        }
        rxBuffer := rxBuffer[totalFrameLen..];
      }
      WaitingDrains(rxBuffer);
    }

    /**
     * Whatever sizes recv chose, the callbacks are those of Drain on the bytes received, and
     * the buffer never reached one maximal frame plus one read.
     */
    method ReceiverWorker() returns (ghost received: seq<Byte>, ghost peak: nat)
      requires isConnected
      modifies this`isConnected, this`events, socket`incoming
      ensures old(socket.incoming) == received + socket.incoming
      ensures events == old(events) + Drain(received).events + (if Drain(received).open then [Disconnected] else [])
      ensures !isConnected
      ensures peak < 65554 + 4096
    {
      var rxBuffer: seq<Byte> := [];
      received, peak := [], 0;
      ghost var d := Drain(received);
      while isConnected
        invariant old(socket.incoming) == received + socket.incoming
        invariant d == Drain(received) && events == old(events) + d.events && isConnected == d.open
        invariant isConnected ==> rxBuffer == d.residual
        invariant peak < 65554 + RECV_SIZE
        decreases |socket.incoming|, isConnected
      {
        var chunk := socket.Recv();
        if |chunk| == 0 {
          isConnected := false;
          events := events + [Disconnected];
          return;
        }
        ReceiveMore(received, chunk);
        Associative(received, chunk, socket.incoming);
        rxBuffer := rxBuffer + chunk;
        peak := if |rxBuffer| > peak then |rxBuffer| else peak;
        ghost var more := Drain(rxBuffer);
        Associative(old(events), d.events, more.events);
        received, d := received + chunk, Drained(d.events + more.events, more.residual, more.open);
        rxBuffer := ProcessBuffer(rxBuffer);
      }
    }

    /** The uint32_t counter wraps. */
    static function Next(counter: Uint32): (next: Uint32)
      ensures next == (counter + 1) % 0x1_0000_0000
    {
      if counter == 0xFFFF_FFFF then 0 else counter + 1
    }

    /** The frame that SendFrame builds. */
    static function Outgoing(messageType: MessageType, payload: seq<Byte>, sequence: Uint32): TransportFrame {
      TransportFrame(FRAME_MAGIC, 0, messageType, 0, sequence, payload, 0)
    }

    /** written counts the bytes that reached the wire before send gave out, if it did. */
    method SendFrame(messageType: MessageType, payload: seq<Byte>) returns (ok: bool, ghost written: nat)
      modifies this`isConnected, this`sequenceCounter, socket`outgoing
      ensures !old(isConnected) ==> !ok && unchanged(this) && unchanged(socket)
      ensures old(isConnected) ==> sequenceCounter == Next(old(sequenceCounter))
      ensures ok ==> |payload| <= 65536 && old(socket.outgoing) <= socket.outgoing
      ensures ok ==>
        Carries(socket.outgoing[|old(socket.outgoing)|..], messageType, payload, old(sequenceCounter))
      ensures var frame := Outgoing(messageType, payload, old(sequenceCounter));
        old(isConnected) ==>
          if |payload| > 65536 then !ok && isConnected && unchanged(socket)
          else
            && written <= |Print(frame)|
            && socket.outgoing == old(socket.outgoing) + Print(frame)[..written]
            && ok == isConnected == (written == |Print(frame)|)
    {
      written := 0;
      if !isConnected {
        return false, 0;
      }
      var frame := Outgoing(messageType, payload, sequenceCounter);
      sequenceCounter := Next(sequenceCounter);
      var buffer := SerializeFrame(frame);
      var serialized := buffer[..];
      if |serialized| == 0 {
        return false, 0;
      }
      ok, written := WriteAll(serialized);
      if ok {
        WholeFrame(frame, old(socket.outgoing), socket.outgoing);
      }
    }

    /** The loop of SendFrame over partial writes. */
    method WriteAll(serialized: seq<Byte>) returns (ok: bool, ghost written: nat)
      requires isConnected
      modifies this`isConnected, socket`outgoing
      ensures written <= |serialized| && socket.outgoing == old(socket.outgoing) + serialized[..written]
      ensures ok == isConnected == (written == |serialized|)
    {
      var totalSent := 0;
      var toSend := |serialized|;
      while totalSent < toSend
        invariant totalSent <= toSend && isConnected
        invariant socket.outgoing == old(socket.outgoing) + serialized[..totalSent]
        decreases toSend - totalSent
      {
        var sent := socket.Send(serialized[totalSent..]);
        if sent <= 0 {
          isConnected := false;
          return false, totalSent;
        }
        assert serialized[..totalSent + sent] == serialized[..totalSent] + serialized[totalSent..][..sent];
        totalSent := totalSent + sent;
      }
      return true, totalSent;
    }
  }

  /** The bytes of one frame of this type, with this payload and this number, and without flags. */
  predicate Carries(bytes: seq<Byte>, messageType: MessageType, payload: seq<Byte>, number: Uint32) {
    && Parse(bytes).Ok? && |bytes| == 18 + |payload|
    && var f := Parse(bytes).value;
       f.messageType == messageType && f.payload == payload && f.flags == 0 && f.sequenceNumber == number
  }

  /** A frame behind what was sent before parses to itself. */
  lemma {:induction false} WholeFrame(f: TransportFrame, before: seq<Byte>, after: seq<Byte>)
    requires |f.payload| <= 65536 && after == before + Print(f)[..|Print(f)|]
    requires f.flags == 0
    ensures before <= after && Carries(after[|before|..], f.messageType, f.payload, f.sequenceNumber)
  {
    ParsePrint(f, []);
    assert after[|before|..] == Print(f) + [];
  }
}
