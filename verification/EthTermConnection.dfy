/** PiVisionEthTermConnection (C++/src/pivision_ethtermconnection.cpp): chunked receive and send loops, the
    frame loop of `Execute`, and the event handler, over an arbitrary socket script. */
module EthTermConnections {
  import opened Bytes
  import opened Framing
  import HeartbeatChain
  import opened Messages
  import opened PiVisionBuffers
  import opened SocketLoops
  import opened Sockets

  lemma SplitAt(s: seq<Byte>, a: nat, b: nat, c: nat)
    requires a <= b <= c <= |s|
    ensures s[a..b] + s[b..c] == s[a..c]
  {
  }

  /** A message buffer filled byte by byte, as the constructor does for the control messages. */
  method BufferOf(word: seq<Byte>) returns (message: PiVisionData)
    requires |word| < U32
    ensures fresh(message) && fresh(message.buf) && message.Valid() && message.Contents() == word
  {
    message := new PiVisionData(|word|);
    var byte := new Byte[1](_ => 0);
    for i := 0 to message.capacity
      invariant message.Valid() && message.Contents() == word[..i]
    {
      byte[0] := word[i];
      var _ := message.Append(byte, 1);
    }
  }

  class Connection {
    const socket: Socket
    const ownPid: Word
    const isClient: bool              // connType == PIVISION_CLIENT
    var active: bool
    var lastHeartbeatReceived: bool
    var flags: Flags
    var raised: seq<Payload>          // data indications raised, in order

    ghost predicate Valid()
      reads this, socket
    {
      socket.Valid()
    }

    constructor (socket: Socket, ownPid: Word, isClient: bool)
      requires socket.Valid()
      ensures Valid() && active && !lastHeartbeatReceived && flags == InitialFlags && raised == []
      ensures this.socket == socket && this.ownPid == ownPid && this.isClient == isClient
    {
      this.socket, this.ownPid, this.isClient := socket, ownPid, isClient;
      active, lastHeartbeatReceived, flags, raised := true, false, InitialFlags, [];
    }

    /** Where the receiving side stands. */
    ghost function Now(): Left
      reads this`active, socket
    {
      Left(socket.recvTurn, socket.taken, active)
    }

    ghost function DrainFrom(at: Left, need: nat, attempts: nat): Left
      requires at.taken <= |socket.incoming| && attempts <= MAX_ATTEMPTS
    {
      Drain(socket.recvScript, |socket.incoming|, at, need, attempts)
    }

    /** How many bytes a turn hands over. */
    function HandedOver(t: RecvTurn, maxChunkSize: nat, taken: nat): nat
      requires taken <= |socket.incoming|
    {
      if t.soError then 0 else Min(t.avail, Min(maxChunkSize, |socket.incoming| - taken))
    }

    /** Lines 101-123: one look at SO_ERROR and, without an error, one recv. */
    method Poll(buffer: array<Byte>, maxChunkSize: nat) returns (chunkSize: int)
      requires Valid() && 0 < maxChunkSize <= buffer.Length
      modifies this`active, socket`taken, socket`recvTurn, buffer
      ensures Valid() && socket.recvTurn == old(socket.recvTurn) + 1
      ensures active <==> old(active) && !Disturbing(old(socket.Turn()))
      ensures chunkSize > 0 ==> chunkSize <= maxChunkSize && socket.taken == old(socket.taken) + chunkSize
      ensures chunkSize > 0 ==> buffer[..chunkSize] == socket.incoming[old(socket.taken)..socket.taken]
      ensures chunkSize <= 0 ==> socket.taken == old(socket.taken)
      ensures chunkSize <= 0 ==> !active || old(socket.Turn()).avail == 0 || socket.taken == |socket.incoming|
      ensures socket.taken - old(socket.taken) == HandedOver(old(socket.Turn()), maxChunkSize, old(socket.taken))
    {
      chunkSize := -1;
      var turn := socket.Turn();
      if turn.stopped {
        active := false; // another thread handled PIVISION_EVENT_STOP or failed to send
      }
      if !turn.soError {
        chunkSize := socket.Recv(buffer, maxChunkSize);
      } else {
        active := false;
      }
      socket.recvTurn := socket.recvTurn + 1;
    }

    /** One turn of `Receive`: poll the socket and store what it handed over. */
    method PollInto(buffer: array<Byte>, maxChunkSize: nat, dataBuf: PiVisionData) returns (chunkSize: int)
      requires Valid() && dataBuf.Valid() && buffer != dataBuf.buf
      requires 0 < maxChunkSize <= buffer.Length && dataBuf.size + maxChunkSize <= dataBuf.capacity
      modifies this`active, socket`taken, socket`recvTurn, buffer, dataBuf`size, dataBuf.buf
      ensures Valid() && dataBuf.Valid() && socket.recvTurn == old(socket.recvTurn) + 1
      ensures active <==> old(active) && !Disturbing(old(socket.Turn()))
      ensures chunkSize <= maxChunkSize
      ensures socket.taken == old(socket.taken) + (if chunkSize > 0 then chunkSize else 0)
      ensures dataBuf.size - old(dataBuf.size) == socket.taken - old(socket.taken)
      ensures dataBuf.Contents() == old(dataBuf.Contents()) + socket.incoming[old(socket.taken)..socket.taken]
      ensures chunkSize <= 0 ==> !active || old(socket.Turn()).avail == 0 || socket.taken == |socket.incoming|
      ensures socket.taken - old(socket.taken) == HandedOver(old(socket.Turn()), maxChunkSize, old(socket.taken))
    {
      chunkSize := Poll(buffer, maxChunkSize);
      if chunkSize > 0 {
        var _ := dataBuf.Append(buffer, chunkSize);
      }
    }

    /** The source counts received bytes in an int32_t that it reads back as uint32_t on every use.  Up to 2^31 - 1
        bytes that is exact; from there on the signed addition is undefined, and the model goes on counting. */
    method Receive(numBytesToGet: nat, dataBuf: PiVisionData)
      requires Valid() && dataBuf.Valid() && numBytesToGet < U32
      requires dataBuf.size + numBytesToGet <= dataBuf.capacity
      modifies this`active, socket`taken, socket`recvTurn, dataBuf`size, dataBuf.buf
      ensures Valid() && dataBuf.Valid()
      // the bytes of the stream, in order, and never more than asked for
      ensures old(socket.taken) <= socket.taken <= old(socket.taken) + numBytesToGet
      ensures dataBuf.Contents() == old(dataBuf.Contents()) + socket.incoming[old(socket.taken)..socket.taken]
      // all of them, or the connection is no longer active
      ensures active <==>
        && old(active) && socket.taken == old(socket.taken) + numBytesToGet
        && Calm(socket.recvScript, old(socket.recvTurn), socket.recvTurn)
      // how many turns, why it falls short, and where it is left
      ensures ReceiveOutcome(socket.recvScript, |socket.incoming|, old(Now()), numBytesToGet, Now())
      ensures Now() == DrainFrom(old(Now()), numBytesToGet, 0)
    {
      DrainOutcome(socket.recvScript, |socket.incoming|, Now(), numBytesToGet);
      DrainBounds(socket.recvScript, |socket.incoming|, Now(), numBytesToGet, 0);
      ReceiveLoop(numBytesToGet, dataBuf);
    }

    /** Lines 87-142. */
    method ReceiveLoop(numBytesToGet: nat, dataBuf: PiVisionData)
      requires Valid() && dataBuf.Valid() && numBytesToGet < U32
      requires dataBuf.size + numBytesToGet <= dataBuf.capacity
      modifies this`active, socket`taken, socket`recvTurn, dataBuf`size, dataBuf.buf
      ensures Valid() && dataBuf.Valid() && old(socket.taken) <= socket.taken
      ensures dataBuf.Contents() == old(dataBuf.Contents()) + socket.incoming[old(socket.taken)..socket.taken]
      ensures Now() == DrainFrom(old(Now()), numBytesToGet, 0)
    {
      var buffer := new Byte[MAX_CHUNK_SIZE](_ => 0);
      var numReceiveAttempts := 0;
      var numBytesReceived := 0;
      ghost var start := Now();
      while numBytesReceived < numBytesToGet
        invariant Valid() && dataBuf.Valid()
        invariant 0 <= numBytesReceived <= numBytesToGet && socket.taken == start.taken + numBytesReceived
        invariant dataBuf.size == old(dataBuf.size) + numBytesReceived
        invariant dataBuf.Contents() == old(dataBuf.Contents()) + socket.incoming[start.taken..socket.taken]
        invariant 0 <= numReceiveAttempts <= MAX_ATTEMPTS
        invariant DrainFrom(Now(), numBytesToGet - numBytesReceived, numReceiveAttempts)
               == DrainFrom(start, numBytesToGet, 0)
        decreases 11 * (numBytesToGet - numBytesReceived) - numReceiveAttempts
      {
        numReceiveAttempts := numReceiveAttempts + 1;
        var maxChunkSize := Min(MAX_CHUNK_SIZE, numBytesToGet - numBytesReceived);
        ghost var before := socket.taken;
        var chunkSize := PollInto(buffer, maxChunkSize, dataBuf);
        SplitAt(socket.incoming, start.taken, before, socket.taken);
        if chunkSize > 0 {
          numReceiveAttempts := 0;
          numBytesReceived := numBytesReceived + chunkSize;
        } else if !active {
          break;
        } else if numReceiveAttempts > MAX_ATTEMPTS {
          active := false;
          break;
        }
      }
    }

    ghost predicate SendsWell() {
      AcceptsWell(socket.sendScript)
    }

    /** Lines 181-186. */
    method FillChunk(dataBuf: PiVisionData, numBytesSent: nat, maxChunkSize: nat, buffer: array<Byte>)
      requires dataBuf.Valid() && buffer != dataBuf.buf
      requires numBytesSent + maxChunkSize <= dataBuf.size && maxChunkSize <= buffer.Length
      modifies buffer
      ensures buffer[..maxChunkSize] == dataBuf.Contents()[numBytesSent..numBytesSent + maxChunkSize]
    {
      var bufferIndex := 0;
      for i := numBytesSent to numBytesSent + maxChunkSize
        invariant bufferIndex == i - numBytesSent
        invariant buffer[..bufferIndex] == dataBuf.Contents()[numBytesSent..i]
      {
        buffer[bufferIndex] := dataBuf.GetElementAt(i);
        bufferIndex := bufferIndex + 1;
      }
    }

    /** Lines 188-211: one look at SO_ERROR and, without an error, one send. */
    method Offer(buffer: array<Byte>, size: nat, numAttempts: nat) returns (chunkSize: int, attempts: nat)
      requires Valid() && size <= buffer.Length
      modifies this`active, socket`outgoing, socket`sendTurn
      ensures -1 <= chunkSize <= size
      ensures socket.outgoing == old(socket.outgoing) + buffer[..if chunkSize < 0 then 0 else chunkSize]
      ensures socket.sendTurn == old(socket.sendTurn) + 1
      ensures var t := old(socket.sendScript(socket.sendTurn));
        && (active <==> old(active) && !t.soError)
        && attempts == (if t.soError then numAttempts else numAttempts + 1)
        && chunkSize == (if t.soError || t.fails then -1 else Min(size, t.accepts))
    {
      chunkSize, attempts := -1, numAttempts;
      if !socket.sendScript(socket.sendTurn).soError {
        attempts := attempts + 1;
        chunkSize := socket.Send(buffer, size);
      } else {
        active := false;
      }
      socket.sendTurn := socket.sendTurn + 1;
    }

    /** One turn of the loop in `SendPayload`, up to what it makes of the result. */
    method OfferNext(dataBuf: PiVisionData, numBytesSent: nat, maxChunkSize: nat, buffer: array<Byte>,
                     numAttempts: nat)
      returns (chunkSize: int, attempts: nat)
      requires Valid() && dataBuf.Valid() && buffer != dataBuf.buf
      requires numBytesSent + maxChunkSize <= dataBuf.size && maxChunkSize <= buffer.Length
      modifies this`active, socket`outgoing, socket`sendTurn, buffer
      ensures -1 <= chunkSize <= maxChunkSize && socket.sendTurn == old(socket.sendTurn) + 1
      ensures var t := old(socket.sendScript(socket.sendTurn));
        && (active <==> old(active) && !t.soError)
        && attempts == (if t.soError then numAttempts else numAttempts + 1)
        && chunkSize == (if t.soError || t.fails then -1 else Min(maxChunkSize, t.accepts))
      ensures var accepted := if chunkSize < 0 then 0 else chunkSize;
        socket.outgoing == old(socket.outgoing) + dataBuf.Contents()[numBytesSent..numBytesSent + accepted]
    {
      FillChunk(dataBuf, numBytesSent, maxChunkSize, buffer);
      ghost var chunk := dataBuf.Contents()[numBytesSent..numBytesSent + maxChunkSize];
      chunkSize, attempts := Offer(buffer, maxChunkSize, numAttempts);
      ghost var accepted := if chunkSize < 0 then 0 else chunkSize;
      assert buffer[..accepted] == chunk[..accepted];
      assert chunk[..accepted] == dataBuf.Contents()[numBytesSent..numBytesSent + accepted];
    }

    /** No error is reported to the sends since turn `from`. */
    ghost predicate SentCalmly(from: nat)
      reads socket`sendTurn
    {
      NoError(socket.sendScript, from, socket.sendTurn)
    }

    /** The source does not bound this loop: a reported error is not counted as an attempt and a send of zero
        bytes resets the count.  `patience` bounds the turns considered; `finished` says the loop was left. */
    method SendPayload(dataBuf: PiVisionData, patience: nat) returns (finished: bool, ghost sent: nat)
      requires Valid() && dataBuf.Valid()
      modifies this`active, socket`outgoing, socket`sendTurn
      ensures sent <= dataBuf.size && old(socket.sendTurn) <= socket.sendTurn
      ensures socket.outgoing == old(socket.outgoing) + dataBuf.Contents()[..sent]
      // active unless an error was reported or the loop gave up
      ensures active <==> old(active) && SentCalmly(old(socket.sendTurn)) && (finished ==> sent == dataBuf.size)
      // turn by turn, the loop is left where that is due and not before
      ensures sent == AcceptedAt(socket.sendScript, dataBuf.size, old(socket.sendTurn), socket.sendTurn)
      ensures finished <==> SendLeftAt(socket.sendScript, dataBuf.size, old(socket.sendTurn), socket.sendTurn)
      ensures forall u :: old(socket.sendTurn) <= u < socket.sendTurn ==>
        !SendLeftAt(socket.sendScript, dataBuf.size, old(socket.sendTurn), u)
      ensures !finished ==> socket.sendTurn == old(socket.sendTurn) + patience
      ensures SendsWell() ==> active == old(active)
      ensures SendsWell() && patience >= 11 * dataBuf.size ==> finished && sent == dataBuf.size
    {
      ghost var from := socket.sendTurn;
      finished, sent := SendLoop(dataBuf, patience);
      if SendsWell() {
        FewFailures(socket.sendScript, from, socket.sendTurn);
        if patience >= 11 * dataBuf.size {
          AllAccepted(socket.sendScript, dataBuf.size, from, dataBuf.size);
          AcceptedGrows(socket.sendScript, dataBuf.size, from, from + 11 * dataBuf.size, from + patience);
        }
      }
    }

    /** Lines 168-225. */
    method SendLoop(dataBuf: PiVisionData, patience: nat) returns (finished: bool, ghost sent: nat)
      requires Valid() && dataBuf.Valid()
      modifies this`active, socket`outgoing, socket`sendTurn
      ensures sent <= dataBuf.size && old(socket.sendTurn) <= socket.sendTurn
      ensures socket.outgoing == old(socket.outgoing) + dataBuf.Contents()[..sent]
      ensures active <==> old(active) && SentCalmly(old(socket.sendTurn)) && (finished ==> sent == dataBuf.size)
      ensures sent == AcceptedAt(socket.sendScript, dataBuf.size, old(socket.sendTurn), socket.sendTurn)
      ensures finished <==> SendLeftAt(socket.sendScript, dataBuf.size, old(socket.sendTurn), socket.sendTurn)
      ensures forall u :: old(socket.sendTurn) <= u < socket.sendTurn ==>
        !SendLeftAt(socket.sendScript, dataBuf.size, old(socket.sendTurn), u)
      ensures !finished ==> socket.sendTurn == old(socket.sendTurn) + patience
    {
      var buffer := new Byte[MAX_CHUNK_SIZE](_ => 0);
      var numAttempts: nat := 0;
      var numBytesSent: nat := 0;
      var numBytesToSend := dataBuf.size;
      var turns: nat := 0;
      ghost var from := socket.sendTurn;
      while numBytesSent < numBytesToSend && turns < patience
        invariant turns <= patience && numBytesSent <= numBytesToSend && socket.sendTurn == from + turns
        invariant socket.outgoing == old(socket.outgoing) + dataBuf.Contents()[..numBytesSent]
        invariant active <==> old(active) && SentCalmly(from)
        invariant Sending(socket.sendScript, dataBuf.size, from, socket.sendTurn, numBytesSent, numAttempts)
        invariant numAttempts <= MAX_ATTEMPTS
        decreases patience - turns
      {
        var maxChunkSize := Min(MAX_CHUNK_SIZE, numBytesToSend - numBytesSent);
        SendingOn(socket.sendScript, dataBuf.size, from, socket.sendTurn, numBytesSent, numAttempts);
        var chunkSize;
        chunkSize, numAttempts := OfferNext(dataBuf, numBytesSent, maxChunkSize, buffer, numAttempts);
        turns := turns + 1;
        ChunkAppended(old(socket.outgoing), dataBuf.Contents(), numBytesSent, if chunkSize < 0 then 0 else chunkSize);
        if chunkSize >= 0 {
          numAttempts := 0;
          numBytesSent := numBytesSent + chunkSize;
        } else if numAttempts > MAX_ATTEMPTS {
          active := false;
          return true, numBytesSent;
        }
      }
      finished, sent := numBytesSent == numBytesToSend, numBytesSent;
    }

    method SendHeader(dataBuf: PiVisionData, patience: nat) returns (finished: bool, ghost sent: nat)
      requires Valid() && dataBuf.Valid()
      modifies this`active, socket`outgoing, socket`sendTurn
      ensures sent <= 4 && old(socket.sendTurn) <= socket.sendTurn
      ensures socket.outgoing == old(socket.outgoing) + Le32(dataBuf.size)[..sent]
      ensures active <==> old(active) && SentCalmly(old(socket.sendTurn)) && (finished ==> sent == 4)
      ensures sent == AcceptedAt(socket.sendScript, 4, old(socket.sendTurn), socket.sendTurn)
      ensures finished <==> SendLeftAt(socket.sendScript, 4, old(socket.sendTurn), socket.sendTurn)
      ensures SendsWell() ==> active == old(active) && (patience >= 44 ==> finished && sent == 4)
    {
      var header := BufferOf(Le32(dataBuf.size));
      finished, sent := SendPayload(header, patience);
    }

    /** One frame under sendMutex.  The payload is attempted even after a failed header, so what goes out is a piece
        of the header, `h` bytes long, and a piece of the payload, `sent` bytes long. */
    method Send(dataBuf: PiVisionData, patience: nat) returns (finished: bool, ghost h: nat, ghost sent: nat)
      requires Valid() && dataBuf.Valid()
      modifies this`active, socket`outgoing, socket`sendTurn
      ensures h <= 4 && sent <= dataBuf.size && old(socket.sendTurn) <= socket.sendTurn
      ensures socket.outgoing == old(socket.outgoing) + (Le32(dataBuf.size)[..h] + dataBuf.Contents()[..sent])
      // active unless an error was reported or one of the loops gave up
      ensures finished ==>
        (active <==> old(active) && SentCalmly(old(socket.sendTurn)) && h == 4 && sent == dataBuf.size)
      ensures !finished && active ==> old(active) && SentCalmly(old(socket.sendTurn))
      ensures !finished && !active ==> !old(active) || !SentCalmly(old(socket.sendTurn)) || h < 4
      ensures finished && active ==> socket.outgoing == old(socket.outgoing) + Frame(dataBuf.Contents())
      ensures SendsWell() && patience >= 44 && patience >= 11 * dataBuf.size ==>
        finished && active == old(active) && socket.outgoing == old(socket.outgoing) + Frame(dataBuf.Contents())
    {
      ghost var from := socket.sendTurn;
      finished, h := SendHeader(dataBuf, patience);
      ghost var middle := socket.sendTurn;
      sent := 0;
      ghost var header := Le32(dataBuf.size)[..h];
      assert header + dataBuf.Contents()[..0] == header;
      if !finished {
        return;
      }
      finished, sent := SendPayload(dataBuf, patience);
      assert SentCalmly(from) <==> NoError(socket.sendScript, from, middle) && SentCalmly(middle);
      Assoc(old(socket.outgoing), header, dataBuf.Contents()[..sent]);
      assert h == 4 && sent == dataBuf.size ==> header + dataBuf.Contents()[..sent] == Frame(dataBuf.Contents());
    }

    ghost predicate NetWorks() {
      ReceivesWell(socket.recvScript)
    }

    /** `Receive` into a fresh buffer of the requested capacity, as `Execute` calls it. */
    method ReceiveExactly(numBytesToGet: nat) returns (dataBuf: PiVisionData)
      requires Valid() && numBytesToGet < U32
      modifies this`active, socket`taken, socket`recvTurn
      ensures Valid() && dataBuf.Valid() && fresh(dataBuf) && fresh(dataBuf.buf)
      ensures old(socket.taken) <= socket.taken <= old(socket.taken) + numBytesToGet
      ensures dataBuf.Contents() == socket.incoming[old(socket.taken)..socket.taken]
      ensures active ==> old(active) && socket.taken == old(socket.taken) + numBytesToGet
      ensures Now() == DrainFrom(old(Now()), numBytesToGet, 0)
      ensures NetWorks() && old(active) ==>
        && socket.taken == Min(old(socket.taken) + numBytesToGet, |socket.incoming|)
        && (active <==> socket.taken == old(socket.taken) + numBytesToGet)
    {
      if NetWorks() && active {
        DrainWorks(socket.recvScript, |socket.incoming|, Now(), numBytesToGet);
      }
      dataBuf := new PiVisionData(numBytesToGet);
      Receive(numBytesToGet, dataBuf);
    }

    /** Lines 240-253: one header and the payload it announces.  `whole` says that both were received in full; if
        not, `k` bytes of the header were, and the buffer holds what followed them. */
    method ReceiveFrame() returns (dataBuf: PiVisionData, payloadLength: nat, ghost whole: bool, ghost k: nat)
      requires Valid()
      modifies this`active, socket`taken, socket`recvTurn
      ensures Valid() && dataBuf.Valid() && fresh(dataBuf) && fresh(dataBuf.buf) && payloadLength < U32
      ensures dataBuf.size <= payloadLength && old(socket.taken) <= socket.taken
      ensures active ==> old(active) && whole
      ensures Now() == FrameAt(socket.recvScript, socket.incoming, old(Now())).1
      ensures k == FrameAt(socket.recvScript, socket.incoming, old(Now())).0.taken - old(socket.taken) <= 4
      ensures dataBuf.Contents() == socket.incoming[old(socket.taken) + k..socket.taken]
      ensures PassResult(socket.incoming[old(socket.taken)..], k, payloadLength, dataBuf.Contents(),
                         socket.incoming[socket.taken..], whole)
      ensures NetWorks() && old(active) ==>
        var stream := socket.incoming[old(socket.taken)..];
        && (whole <==> HasFrame(stream)) && (whole ==> active) && (stream == [] ==> payloadLength == 0)
    {
      ghost var start := socket.taken;
      var header := ReceiveExactly(4);
      ghost var body := socket.taken;
      FromLeShort(header.Contents());
      payloadLength := DecodeLength(header);
      FrameReceived(socket.incoming, start, body, payloadLength);
      dataBuf := ReceiveExactly(payloadLength);
      whole := body == start + 4 && socket.taken == body + payloadLength;
      k := body - start;
      FrameOutcome(socket.incoming, start, body, socket.taken, payloadLength);
    }

    /** Lines 246-250. */
    method DecodeLength(header: PiVisionData) returns (payloadLength: nat)
      requires header.Valid() && header.size <= 4
      ensures payloadLength == FromLe(header.Contents())
    {
      ghost var bytes := header.Contents();
      payloadLength := 0;
      for i := 0 to header.size
        invariant header.Contents() == bytes && payloadLength == FromLe(bytes[..i])
      {
        var byte := header.GetElementAt(i);
        FromLeSnoc(bytes[..i], byte);
        assert bytes[..i] + [byte] == bytes[..i + 1];
        payloadLength := payloadLength + ShiftLeft(byte, i);
      }
      assert bytes[..header.size] == bytes;
    }

    /** Lines 258-282: four elements compared with a control word. */
    predicate Matches(dataBuf: PiVisionData, payloadLength: nat, word: seq<Byte>)
      requires dataBuf.Valid() && |word| >= 4
      reads dataBuf, dataBuf.buf
      ensures Matches(dataBuf, payloadLength, word) <==> StartsWith(dataBuf.Contents(), payloadLength, word)
    {
      && 4 <= payloadLength
      && dataBuf.GetElementAt(0) == word[0] && dataBuf.GetElementAt(1) == word[1]
      && dataBuf.GetElementAt(2) == word[2] && dataBuf.GetElementAt(3) == word[3]
    }

    /** Lines 302-311. */
    method ReadPid(dataBuf: PiVisionData) returns (otherPid: nat)
      requires dataBuf.Valid()
      ensures otherPid == PidIn(dataBuf.Contents())
    {
      ghost var data := dataBuf.Contents();
      ghost var word := [ElementAt(data, 4), ElementAt(data, 5), ElementAt(data, 6), ElementAt(data, 7)];
      otherPid := 0;
      for i := 0 to 4
        invariant otherPid == FromLe(word[..i]) && dataBuf.Contents() == data
      {
        var byte := dataBuf.GetElementAt(i + 4);
        FromLeSnoc(word[..i], byte);
        assert word[..i] + [byte] == word[..i + 1];
        otherPid := otherPid + ShiftLeft(byte, i);
      }
      assert word[..4] == word;
    }

    /** Lines 255-322: what one pass does with a received message. */
    method HandleMessage(dataBuf: PiVisionData, payloadLength: nat, patience: nat) returns (finished: bool)
      requires Valid() && dataBuf.Valid() && dataBuf.size <= payloadLength < U32
      modifies this`active, this`flags, this`raised, socket`outgoing, socket`sendTurn
      ensures Valid() && old(socket.sendTurn) <= socket.sendTurn
      ensures active ==> old(active) && SentCalmly(old(socket.sendTurn))
      ensures var data := dataBuf.Contents();
        var kind := Classify(data, payloadLength);
        && flags == OnMessage(old(flags), kind, data, ownPid)
        && raised == old(raised) + (if kind == Data then [data] else [])
        && (kind == Data && old(flags).ackEnabled && finished && active ==>
              socket.outgoing == old(socket.outgoing) + Frame(AckBytes))
        && (kind != Data || !old(flags).ackEnabled ==>
              finished && active == old(active) && socket.outgoing == old(socket.outgoing))
        && (SendsWell() && patience >= 44 ==> finished && active == old(active))
        && (SendsWell() && patience >= 44 && kind == Data && old(flags).ackEnabled ==>
              socket.outgoing == old(socket.outgoing) + Frame(AckBytes))
    {
      finished := true;
      if 0 < payloadLength {
        var isAck := Matches(dataBuf, payloadLength, AckBytes);
        var isHeartbeat := Matches(dataBuf, payloadLength, HeartbeatBytes);
        var isPid := Matches(dataBuf, payloadLength, Le32(PID_MSG));
        if !isAck && !isHeartbeat && !isPid {
          raised := raised + [dataBuf.buf[..dataBuf.size]];
          if flags.ackEnabled {
            var ack := BufferOf(AckBytes);
            ghost var h, sent;
            finished, h, sent := Send(ack, patience);
          }
        } else if isAck {
          flags := flags.(receivedAck := true, ackEnabled := true);
        } else if isPid {
          var otherPid := ReadPid(dataBuf);
          flags := flags.(inSameProcess := otherPid == ownPid);
        }
      }
    }

    /** Both directions of the connection work, and a send may take as long as an acknowledgement needs. */
    ghost predicate AllWorks(patience: nat) {
      NetWorks() && SendsWell() && patience >= 44
    }

    /** One pass of the loop in `Execute`. */
    method Pass(patience: nat)
      returns (finished: bool, ghost whole: bool, ghost message: Payload, ghost isData: bool, ghost k: nat)
      requires Valid() && active
      modifies this`active, this`flags, this`raised, socket`taken, socket`recvTurn, socket`outgoing, socket`sendTurn
      ensures Valid() && old(socket.taken) <= socket.taken
      ensures active ==> whole
      ensures k == FrameAt(socket.recvScript, socket.incoming, old(Now())).0.taken - old(socket.taken)
      ensures socket.taken == FrameAt(socket.recvScript, socket.incoming, old(Now())).1.taken
      ensures message == socket.incoming[old(socket.taken) + k..socket.taken]
      ensures var rest := socket.incoming[old(socket.taken)..];
        && PassResult(rest, k, FromLe(rest[..k]), message, socket.incoming[socket.taken..], whole)
        && (isData <==> Classify(message, FromLe(rest[..k])) == Data)
      ensures raised == old(raised) + (if isData then [message] else [])
      ensures old(flags).ackEnabled ==> flags.ackEnabled
      ensures AllWorks(patience) ==>
        var rest := socket.incoming[old(socket.taken)..];
        && finished && (whole <==> HasFrame(rest)) && (whole ==> active) && (rest == [] ==> !isData)
        && (old(flags).ackEnabled ==>
              socket.outgoing == old(socket.outgoing) + (if isData then Frame(AckBytes) else []))
    {
      var dataBuf, payloadLength;
      dataBuf, payloadLength, whole, k := ReceiveFrame();
      message := dataBuf.Contents();
      isData := Classify(message, payloadLength) == Data;
      finished := HandleMessage(dataBuf, payloadLength, patience);
    }

    /** What is known after some passes: `log` has been raised since the start, `frames` were handled in full,
        and on a working network nothing is missing. */
    ghost predicate Progress(h: History, frames: seq<Payload>, tail: seq<Payload>, k: nat, log: seq<Payload>)
      reads this, socket
    {
      Valid() && Done(h, Standing(), frames, tail, k, log)
    }

    ghost function Standing(): State
      requires Valid()
      reads this, socket
    {
      State(socket.incoming[socket.taken..], active, raised, socket.outgoing, flags.ackEnabled)
    }

    method PassAndLog(patience: nat, ghost h: History, ghost before: seq<Payload>, ghost log: seq<Payload>)
      returns (finished: bool, ghost frames: seq<Payload>, ghost tail: seq<Payload>, ghost k: nat,
               ghost log': seq<Payload>)
      requires active && Progress(h, before, [], 0, log) && (h.works || h.acks ==> AllWorks(patience))
      modifies this`active, this`flags, this`raised, socket`taken, socket`recvTurn, socket`outgoing, socket`sendTurn
      ensures Progress(h, frames, tail, k, log')
      ensures h.works || h.acks ==> finished
      ensures |socket.incoming| - socket.taken + (if active then 1 else 0) < |socket.incoming| - old(socket.taken) + 1
    {
      ghost var start := Standing();
      ghost var whole, message, isData;
      finished, whole, message, isData, k := Pass(patience);
      frames := if whole then before + [message] else before;
      tail := if !whole && isData then [message] else [];
      log' := log + if isData then [message] else [];
      PassDone(h, start, Standing(), before, log, whole, message, isData, k);
    }

    /** Lines 238-323. */
    method Passes(patience: nat, ghost h: History)
      returns (finished: bool, ghost frames: seq<Payload>, ghost tail: seq<Payload>, ghost k: nat,
               ghost log: seq<Payload>)
      requires Valid()
      requires h.stream == socket.incoming[socket.taken..] && h.raised == raised && h.outgoing == socket.outgoing
      requires (h.works ==> AllWorks(patience) && active) && (h.acks ==> AllWorks(patience) && flags.ackEnabled)
      modifies this`active, this`flags, this`raised, socket`taken, socket`recvTurn, socket`outgoing, socket`sendTurn
      ensures Progress(h, frames, tail, k, log) && (finished ==> !active) && (h.works ==> finished)
    {
      frames, tail, finished, k, log := [], [], true, 0, [];
      NothingHandled(h.stream, active);
      while active
        invariant finished && Progress(h, frames, tail, k, log)
        decreases |socket.incoming| - socket.taken + if active then 1 else 0
      {
        finished, frames, tail, k, log := PassAndLog(patience, h, frames, log);
        if !finished {
          return;
        }
      }
    }

    /** The frame loop, up to its exit; `finished` is false when a send outlasts `patience` turns.

        The messages handled in full are the frames of the incoming stream, in order and without gaps; at most one
        further, truncated message is dispatched, and only as the connection goes inactive: a proper prefix of the
        next payload if its header came whole, and otherwise whatever followed the `k` header bytes received.  On a
        working network every frame is handled, every data message is acknowledged once, and no truncated message
        appears unless the stream itself ends inside a frame. */
    method Execute(patience: nat)
      returns (finished: bool, ghost frames: seq<Payload>, ghost tail: seq<Payload>, ghost k: nat)
      requires Valid()
      modifies this`active, this`flags, this`raised, socket`taken, socket`recvTurn, socket`outgoing, socket`sendTurn
      ensures Valid() && (finished ==> !active)
      ensures raised == old(raised) + (DataOnly(frames) + tail)
      ensures HandledSoFar(socket.incoming[old(socket.taken)..], frames, tail, k)
      ensures AllWorks(patience) && old(active) ==>
        var stream := socket.incoming[old(socket.taken)..];
        && finished && frames == Frames(stream) && (Leftover(stream) == [] ==> tail == [])
        && (old(flags).ackEnabled ==>
              socket.outgoing == old(socket.outgoing) + Acks(|DataOnly(frames)| + |tail|))
    {
      ghost var log;
      ghost var h := History(socket.incoming[socket.taken..], raised, socket.outgoing,
                             AllWorks(patience) && active, AllWorks(patience) && flags.ackEnabled);
      finished, frames, tail, k, log := Passes(patience, h);
    }

    /** `HandleEvent` for new application data (lines 338-357). */
    method HandleNewData(ofClient: bool, data: PiVisionData, patience: nat) returns (finished: bool)
      requires Valid() && data.Valid()
      modifies this`active, this`flags, this`raised, socket`outgoing, socket`sendTurn
      ensures Valid() && old(socket.sendTurn) <= socket.sendTurn
      ensures active ==> old(active) && SentCalmly(old(socket.sendTurn))
      ensures flags == OnNewData(old(flags), ofClient == isClient)
      ensures GoesOut(old(flags), ofClient == isClient) ==>
        raised == old(raised) &&
        (finished && active ==> socket.outgoing == old(socket.outgoing) + Frame(data.Contents()))
      ensures !GoesOut(old(flags), ofClient == isClient) ==>
        && finished && active == old(active) && socket.outgoing == old(socket.outgoing)
        && raised == old(raised) +
             (if old(flags).inSameProcess && ofClient == isClient then [data.Contents()] else [])
    {
      finished := true;
      if flags.receivedAck || !flags.ackEnabled || flags.inSameProcess {
        if ofClient == isClient {
          if !flags.inSameProcess {
            flags := flags.(receivedAck := false);
            ghost var h, sent;
            finished, h, sent := Send(data, patience);
          } else {
            raised := raised + [data.buf[..data.size]];
          }
        }
      }
    }

    /** `HandleEvent` for this connection's heartbeat timeout (lines 361-379); `rearmed` says the timer was
        raised again. */
    method HandleHeartbeat(patience: nat) returns (finished: bool, rearmed: bool)
      requires Valid()
      modifies this`active, this`flags, this`lastHeartbeatReceived, socket`outgoing, socket`sendTurn
      ensures Valid() && old(socket.sendTurn) <= socket.sendTurn
      ensures active ==> old(active) && SentCalmly(old(socket.sendTurn))
      ensures flags == if old(active) then OnHeartbeat(old(flags), isClient) else old(flags)
      ensures finished ==> rearmed == old(active)
      ensures lastHeartbeatReceived == (old(lastHeartbeatReceived) || !old(active))
      ensures finished && active ==>
        socket.outgoing == old(socket.outgoing) + Wire(HeartbeatBurst(old(flags), isClient, ownPid))
      ensures !old(active) ==> finished && socket.outgoing == old(socket.outgoing)
      ensures forall fd, d :: d != HeartbeatChain.Passed ==>
        var timedOut := HeartbeatChain.OnTimeout(old(Beat(fd, d)), fd);
        && lastHeartbeatReceived == timedOut.lastHeartbeatReceived
        && (finished ==> (rearmed <==> HeartbeatChain.Rearmed([old(Beat(fd, d))], fd, 0) != []))
    {
      finished, rearmed := true, false;
      if active {
        WireOne(HeartbeatBytes);
        if !flags.sentPid && isClient {
          flags := flags.(sentPid := true);
          var pid := BufferOf(PidBytes(ownPid));
          ghost var h, sent;
          finished, h, sent := Send(pid, patience);
          if !finished {
            return;
          }
        }
        var heartbeat := BufferOf(HeartbeatBytes);
        ghost var h, sent;
        finished, h, sent := Send(heartbeat, patience);
        rearmed := finished;
      } else {
        lastHeartbeatReceived := true;
      }
    }

    /** The connection as the heartbeat model has it, given what the model keeps elsewhere. */
    ghost function Beat(fd: int, destructor: HeartbeatChain.Destructor): HeartbeatChain.Conn
      reads this
    {
      HeartbeatChain.Conn(fd, active, lastHeartbeatReceived, destructor)
    }

    /** `HandleEvent` for PIVISION_EVENT_STOP (lines 381-385): the step `Deactivate` of the heartbeat model. */
    method HandleStop()
      modifies this`active
      ensures !active
      ensures forall fd, d :: [Beat(fd, d)] == HeartbeatChain.Next(
        HeartbeatChain.System([old(Beat(fd, d))], []), HeartbeatChain.Deactivate(0)).conns
    {
      active := false;
    }
  }

  /** Where a run of `Execute` started. */
  datatype History = History(stream: seq<Byte>, raised: seq<Payload>, outgoing: seq<Byte>, works: bool, acks: bool)

  /** Where the two receives of a pass are left: behind the header, and behind the payload it announces. */
  function FrameAt(script: nat -> RecvTurn, incoming: seq<Byte>, at: Left): (r: (Left, Left))
    requires at.taken <= |incoming|
    ensures at.taken <= r.0.taken <= r.1.taken <= |incoming|
  {
    DrainBounds(script, |incoming|, at, 4, 0);
    var header := Drain(script, |incoming|, at, 4, 0);
    var n := FromLe(incoming[at.taken..header.taken]);
    DrainBounds(script, |incoming|, header, n, 0);
    (header, Drain(script, |incoming|, header, n, 0))
  }

  /** `message` is what followed the first `k` bytes of `stream`, and is short of the payload announced there. */
  ghost predicate Fragment(stream: seq<Byte>, k: nat, message: seq<Byte>) {
    && k <= 4 && k + |message| <= |stream| && message == stream[k..k + |message|]
    && |message| <= FromLe(stream[..k]) && (k == 4 ==> |message| < HeaderOf(stream))
  }

  /** A message cut short, and whether it is taken for data, by its own bytes and the length announced. */
  ghost predicate Truncated(stream: seq<Byte>, k: nat, message: seq<Byte>, isData: bool) {
    && Fragment(stream, k, message)
    && (isData <==> Classify(message, FromLe(stream[..k])) == Data)
  }

  /** A truncated message is a proper prefix of the next payload, if that has a whole header, and is dispatched as
      data exactly when it is too short to tell or the payload is data. */
  lemma TruncatedIsPrefix(stream: seq<Byte>, message: seq<Byte>, isData: bool)
    requires HasFrame(stream) && Truncated(stream, 4, message, isData)
    ensures message <= FirstPayload(stream) && |message| < |FirstPayload(stream)|
    ensures isData <==> |message| < 4 || KindOf(FirstPayload(stream)) == Data
  {
    var p := FirstPayload(stream);
    assert message == p[..|message|];
    TruncationKind(p, |message|);
  }

  /** What a pass makes of the stream: `k` bytes of a header that announce `n`, the message, and the rest. */
  ghost predicate PassResult(stream: seq<Byte>, k: nat, n: nat, message: seq<Byte>, rest: seq<Byte>, whole: bool) {
    && k <= 4 && k <= |stream| && n == FromLe(stream[..k])
    && (whole ==>
          HasFrame(stream) && message == FirstPayload(stream) && n == |message| && rest == AfterFirst(stream))
    && (!whole ==> Fragment(stream, k, message))
  }

  lemma FrameOutcome(incoming: seq<Byte>, start: nat, body: nat, end: nat, n: nat)
    requires start <= body <= end <= |incoming| && body <= start + 4
    requires n == FromLe(incoming[start..body]) && end <= body + n
    ensures PassResult(incoming[start..], body - start, n, incoming[body..end], incoming[end..],
                       body == start + 4 && end == body + n)
  {
    FrameReceived(incoming, start, body, n);
    assert incoming[start..][..body - start] == incoming[start..body];
    if !(body == start + 4 && end == body + n) {
      PieceBehind(incoming, start, body, end);
    }
  }

  lemma PieceBehind(incoming: seq<Byte>, start: nat, body: nat, end: nat)
    requires start <= body <= end <= |incoming| && body <= start + 4
    requires end <= body + FromLe(incoming[start..body])
    requires body == start + 4 ==> end < body + FromLe(incoming[start..body])
    ensures Fragment(incoming[start..], body - start, incoming[body..end])
  {
    assert incoming[start..][..body - start] == incoming[start..body];
  }

  /** `frames` is what was handled in full of `stream`, and `tail` a truncated message dispatched after it. */
  ghost predicate HandledSoFar(stream: seq<Byte>, frames: seq<Payload>, tail: seq<Payload>, k: nat) {
    && Wire(frames) <= stream && frames <= Frames(stream) && |tail| <= 1
    && (tail != [] ==> Truncated(stream[|Wire(frames)|..], k, tail[0], true))
  }

  /** While the connection is active, nothing was truncated and `rest` is still to come. */
  ghost predicate Handled(stream: seq<Byte>, rest: seq<Byte>, active: bool, frames: seq<Payload>, tail: seq<Payload>,
                          k: nat) {
    && HandledSoFar(stream, frames, tail, k)
    && (active ==> tail == [] && InStep(stream, rest, frames))
  }

  lemma NothingHandled(stream: seq<Byte>, active: bool)
    ensures Handled(stream, stream, active, [], [], 0) && DataOnly([]) == [] && Acks(0) == []
  {
    assert stream == Wire([]) + stream;
  }

  lemma LogStep(h: History, log: seq<Payload>, news: seq<Payload>)
    requires |news| <= 1
    ensures (h.raised + log) + news == h.raised + (log + news)
    ensures (h.outgoing + Acks(|log|)) + (if news == [] then [] else Frame(AckBytes)) == h.outgoing + Acks(|log + news|)
  {
    Assoc(h.raised, log, news);
    Assoc(h.outgoing, Acks(|log|), if news == [] then [] else Frame(AckBytes));
    if news == [] {
      assert log + news == log;
      assert Acks(|log|) + [] == Acks(|log|);
    } else {
      assert |log + news| == |log| + 1;
    }
  }

  lemma WireOne(p: Payload)
    ensures Wire([p]) == Frame(p)
    ensures forall q: Payload :: Wire([q, p]) == Frame(q) + Frame(p)
  {
    assert [p][1..] == [];
    assert Wire([p]) == Frame(p) + [];
    forall q: Payload ensures Wire([q, p]) == Frame(q) + Frame(p) {
      assert [q, p][1..] == [p];
    }
  }

  lemma Assoc<T>(a: seq<T>, b: seq<T>, c: seq<T>)
    ensures (a + b) + c == a + (b + c)
  {
  }

  /** What a connection shows between passes. */
  datatype State = State(rest: seq<Byte>, active: bool, raised: seq<Payload>, outgoing: seq<Byte>, acks: bool)

  ghost predicate Done(h: History, s: State, frames: seq<Payload>, tail: seq<Payload>, k: nat, log: seq<Payload>) {
    && Handled(h.stream, s.rest, s.active, frames, tail, k)
    && s.raised == h.raised + log && log == DataOnly(frames) + tail
    && (h.works && !s.active ==> frames == Frames(h.stream) && (Leftover(h.stream) == [] ==> tail == []))
    && (h.acks ==> s.acks && s.outgoing == h.outgoing + Acks(|log|))
  }

  lemma PassDone(h: History, s: State, s': State, before: seq<Payload>, log: seq<Payload>, whole: bool,
                 message: Payload, isData: bool, k: nat)
    requires Done(h, s, before, [], 0, log) && s.active && (s'.active ==> whole) && (s.acks ==> s'.acks)
    requires k <= |s.rest| && PassResult(s.rest, k, FromLe(s.rest[..k]), message, s'.rest, whole)
    requires isData <==> Classify(message, FromLe(s.rest[..k])) == Data
    requires s'.raised == s.raised + (if isData then [message] else [])
    requires h.works || h.acks ==>
      && (whole <==> HasFrame(s.rest)) && (whole ==> s'.active) && (s.rest == [] ==> !isData)
      && (s.acks ==> s'.outgoing == s.outgoing + (if isData then Frame(AckBytes) else []))
    ensures Done(h, s', if whole then before + [message] else before, if !whole && isData then [message] else [], k,
                 log + if isData then [message] else [])
  {
    PassHandled(h.stream, s.rest, s'.rest, s'.active, before, whole, message, isData, k);
    LogStep(h, log, if isData then [message] else []);
  }

  lemma PassHandled(stream: seq<Byte>, rest: seq<Byte>, rest': seq<Byte>, active: bool, frames: seq<Payload>,
                    whole: bool, message: Payload, isData: bool, k: nat)
    requires InStep(stream, rest, frames) && (active ==> whole)
    requires k <= |rest| && PassResult(rest, k, FromLe(rest[..k]), message, rest', whole)
    requires isData <==> Classify(message, FromLe(rest[..k])) == Data
    ensures var frames' := if whole then frames + [message] else frames;
      var tail := if !whole && isData then [message] else [];
      && Handled(stream, rest', active, frames', tail, k)
      && DataOnly(frames') + tail == DataOnly(frames) + (if isData then [message] else [])
      && (!HasFrame(rest) && !whole ==> frames' == Frames(stream) && (Leftover(stream) == [] ==> rest == []))
  {
    PassAdvances(stream, rest, frames);
    assert stream[|Wire(frames)|..] == rest;
  }

  /** `frames` has been taken off the front of `stream`, and `rest` is still to come. */
  ghost predicate InStep(stream: seq<Byte>, rest: seq<Byte>, frames: seq<Payload>) {
    && stream == Wire(frames) + rest
    && Frames(stream) == frames + Frames(rest) && Leftover(stream) == Leftover(rest)
  }

  lemma PassAdvances(stream: seq<Byte>, rest: seq<Byte>, frames: seq<Payload>)
    requires InStep(stream, rest, frames)
    ensures HasFrame(rest) ==>
      var p := FirstPayload(rest);
      && InStep(stream, AfterFirst(rest), frames + [p]) && frames + [p] <= Frames(stream)
      && DataOnly(frames + [p]) == DataOnly(frames) + (if KindOf(p) == Data then [p] else [])
    ensures !HasFrame(rest) ==> Frames(stream) == frames && Leftover(stream) == rest
  {
    if HasFrame(rest) {
      var p := FirstPayload(rest);
      DataOnlyAppend(frames, [p]);
      assert [p][1..] == [];
      assert frames + ([p] + Frames(AfterFirst(rest))) == (frames + [p]) + Frames(AfterFirst(rest));
      WireAdvances(stream, rest, frames);
    }
  }

  lemma WireAdvances(stream: seq<Byte>, rest: seq<Byte>, frames: seq<Payload>)
    requires stream == Wire(frames) + rest && HasFrame(rest)
    ensures stream == Wire(frames + [FirstPayload(rest)]) + AfterFirst(rest)
  {
    FrameOfParse(rest);
    WireAppend(frames, FirstPayload(rest));
    Assoc(Wire(frames), Frame(FirstPayload(rest)), AfterFirst(rest));
  }

  /** What `n` acknowledgements look like on the wire. */
  function Acks(n: nat): seq<Byte> {
    if n == 0 then [] else Acks(n - 1) + Frame(AckBytes)
  }

  /** Where the bytes taken by the two receives of a pass lie in the stream of frames. */
  lemma FrameReceived(incoming: seq<Byte>, start: nat, body: nat, n: nat)
    requires start <= body <= |incoming| && body <= start + 4 && n == FromLe(incoming[start..body])
    ensures var stream := incoming[start..];
      && (body == start + 4 ==> (HasFrame(stream) <==> body + n <= |incoming|))
      && (body < start + 4 && body == |incoming| ==> !HasFrame(stream))
      && (body == start + 4 && body + n <= |incoming| ==>
            FirstPayload(stream) == incoming[body..body + n] && AfterFirst(stream) == incoming[body + n..])
      && (body == start ==> n == 0)
  {
    if body == start + 4 {
      assert incoming[start..][..4] == incoming[start..body];
    }
  }

  lemma ChunkAppended(before: seq<Byte>, contents: seq<Byte>, from: nat, accepted: nat)
    requires from + accepted <= |contents|
    ensures (before + contents[..from]) + contents[from..from + accepted] == before + contents[..from + accepted]
  {
  }
}
