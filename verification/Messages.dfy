/** How PiVisionEthTermConnection tells its own control messages from payloads, and how it reacts to each
    (C++/src/pivision_ethtermconnection.cpp:20-57, 255-321, 336-380), as values. */
module Messages {
  import opened Bytes
  import opened Framing
  import opened PiVisionBuffers

  const ACK_MSG := 0xDEAD_BEEF
  const HEARTBEAT_MSG := 0xBEA1_BEA1
  const PID_MSG := 0x61D6_1D61

  const AckBytes: Payload := Le32(ACK_MSG)
  const HeartbeatBytes: Payload := Le32(HEARTBEAT_MSG)

  function PidBytes(pid: Word): Payload {
    Le32(PID_MSG) + Le32(pid)
  }

  datatype Kind = Empty | Data | Ack | Heartbeat | Pid

  /** The source compares four elements of the buffer, and only when the announced length is at least 4. */
  predicate StartsWith(data: seq<Byte>, announced: nat, word: seq<Byte>)
    requires |word| >= 4
  {
    4 <= announced && forall i :: 0 <= i < 4 ==> ElementAt(data, i) == word[i]
  }

  function Classify(data: seq<Byte>, announced: nat): Kind {
    if announced == 0 then Empty
    else if StartsWith(data, announced, AckBytes) then Ack
    else if StartsWith(data, announced, HeartbeatBytes) then Heartbeat
    else if StartsWith(data, announced, Le32(PID_MSG)) then Pid
    else Data
  }

  function KindOf(p: seq<Byte>): Kind {
    Classify(p, |p|)
  }

  /** A payload an application may send: not empty and not opening with a control word. */
  predicate Plain(p: seq<Byte>) {
    KindOf(p) == Data
  }

  lemma ControlKinds(pid: Word)
    ensures KindOf(AckBytes) == Ack && KindOf(HeartbeatBytes) == Heartbeat && KindOf(PidBytes(pid)) == Pid
  {
    assert AckBytes[0] == 0xEF && HeartbeatBytes[0] == 0xA1 && PidBytes(pid)[0] == 0x61;
    assert PidBytes(pid)[..4] == Le32(PID_MSG);
  }

  /** Bytes cut off the end cannot turn a message into a control message it was not, nor the reverse when the
      first four bytes are there. */
  lemma TruncationKind(p: seq<Byte>, cut: nat)
    requires cut <= |p|
    ensures Classify(p[..cut], |p|) == (if cut >= 4 || p == [] then KindOf(p) else Data)
  {
    if cut < 4 {
      assert ElementAt(p[..cut], 3) == 0;
    }
  }

  /** The control words as the bytes that travel. */
  const AckWord: seq<Byte> := [0xEF, 0xBE, 0xAD, 0xDE]
  const HeartbeatWord: seq<Byte> := [0xA1, 0xBE, 0xA1, 0xBE]
  const PidWord: seq<Byte> := [0x61, 0x1D, 0xD6, 0x61]

  lemma WordsAre()
    ensures AckBytes == [0xEF, 0xBE, 0xAD, 0xDE] && HeartbeatBytes == [0xA1, 0xBE, 0xA1, 0xBE]
    ensures Le32(PID_MSG) == [0x61, 0x1D, 0xD6, 0x61]
  {
  }

  /** The message opens with the word, and is announced long enough to. */
  predicate Opens(data: seq<Byte>, announced: nat, word: seq<Byte>) {
    announced >= 4 && |data| >= 4 && data[..4] == word
  }

  lemma StartsIffOpens(data: seq<Byte>, announced: nat, word: seq<Byte>)
    requires |word| == 4 && forall i :: 0 <= i < 4 ==> word[i] != 0
    ensures StartsWith(data, announced, word) <==> Opens(data, announced, word)
  {
    if StartsWith(data, announced, word) {
      assert ElementAt(data, 3) == word[3];
      assert data[..4] == word;
    }
    if Opens(data, announced, word) {
      assert forall i :: 0 <= i < 4 ==> ElementAt(data, i) == data[..4][i];
    }
  }

  /** What the kinds mean: all four bytes of a control word, and of no other message, whole or truncated. */
  lemma ClassifyIs(data: seq<Byte>, announced: nat)
    ensures Classify(data, announced) == Empty <==> announced == 0
    ensures Classify(data, announced) == Ack <==> Opens(data, announced, AckWord)
    ensures Classify(data, announced) == Heartbeat <==> Opens(data, announced, HeartbeatWord)
    ensures Classify(data, announced) == Pid <==> Opens(data, announced, PidWord)
  {
    WordsAre();
    StartsIffOpens(data, announced, AckWord);
    StartsIffOpens(data, announced, HeartbeatWord);
    StartsIffOpens(data, announced, PidWord);
    assert AckWord[0] == 0xEF && HeartbeatWord[0] == 0xA1 && PidWord[0] == 0x61;
    if |data| >= 4 {
      assert data[..4][0] == data[0];
    }
  }

  lemma KindIs(p: seq<Byte>)
    ensures KindOf(p) == Empty <==> p == []
    ensures KindOf(p) == Ack <==> |p| >= 4 && p[..4] == [0xEF, 0xBE, 0xAD, 0xDE]
    ensures KindOf(p) == Heartbeat <==> |p| >= 4 && p[..4] == [0xA1, 0xBE, 0xA1, 0xBE]
    ensures KindOf(p) == Pid <==> |p| >= 4 && p[..4] == [0x61, 0x1D, 0xD6, 0x61]
  {
    ClassifyIs(p, |p|);
  }

  /** The process id carried by a Pid message. */
  function PidIn(data: seq<Byte>): nat {
    FromLe([ElementAt(data, 4), ElementAt(data, 5), ElementAt(data, 6), ElementAt(data, 7)])
  }

  lemma PidRoundTrip(pid: Word)
    ensures PidIn(PidBytes(pid)) == pid
  {
    var p := PidBytes(pid);
    assert [ElementAt(p, 4), ElementAt(p, 5), ElementAt(p, 6), ElementAt(p, 7)] == Le32(pid);
    Le32RoundTrip(pid);
  }

  /** The flags of a connection that its message handlers read and write. */
  datatype Flags = Flags(receivedAck: bool, ackEnabled: bool, inSameProcess: bool, sentPid: bool)

  const InitialFlags := Flags(true, true, false, false)

  /** What one received message does to the flags (lines 284-321). */
  function OnMessage(f: Flags, kind: Kind, data: seq<Byte>, ownPid: Word): Flags {
    match kind
    case Ack => f.(receivedAck := true, ackEnabled := true)
    case Pid => f.(inSameProcess := PidIn(data) == ownPid)
    case _ => f
  }

  /** An acknowledgement gives the permission back, a whole Pid message says whether its four id bytes are one's own,
      and nothing else touches the flags. */
  lemma MessageEffects(f: Flags, data: seq<Byte>, announced: nat, ownPid: Word)
    ensures var g := OnMessage(f, Classify(data, announced), data, ownPid);
      && (Opens(data, announced, AckWord) ==> g == Flags(true, true, f.inSameProcess, f.sentPid))
      && (Opens(data, announced, PidWord) && |data| >= 8 ==>
            g == Flags(f.receivedAck, f.ackEnabled, data[4..8] == Le32(ownPid), f.sentPid))
      && (!Opens(data, announced, AckWord) && !Opens(data, announced, PidWord) ==> g == f)
  {
    ClassifyIs(data, announced);
    assert AckWord[0] != PidWord[0];
    if |data| >= 8 {
      var id := data[4..8];
      assert [ElementAt(data, 4), ElementAt(data, 5), ElementAt(data, 6), ElementAt(data, 7)] == id;
      Le32OfBytes(id);
      Le32RoundTrip(ownPid);
    }
  }

  /** Whether new application data may go out now (line 340). */
  predicate MaySend(f: Flags) {
    f.receivedAck || !f.ackEnabled || f.inSameProcess
  }

  /** Whether new application data is put on the wire; within one process it is handed over directly. */
  predicate GoesOut(f: Flags, ownType: bool) {
    MaySend(f) && ownType && !f.inSameProcess
  }

  function OnNewData(f: Flags, ownType: bool): Flags {
    if GoesOut(f, ownType) then f.(receivedAck := false) else f
  }

  /** What a heartbeat timeout of an active connection sends (lines 363-371). */
  function HeartbeatBurst(f: Flags, isClient: bool, ownPid: Word): seq<Payload> {
    if !f.sentPid && isClient then [PidBytes(ownPid), HeartbeatBytes] else [HeartbeatBytes]
  }

  function OnHeartbeat(f: Flags, isClient: bool): Flags {
    if isClient then f.(sentPid := true) else f
  }

  /** Data of the connection's own type goes out on the wire exactly with the permission, or before any
      acknowledgement can be expected, and between different processes; only then is the permission used up. */
  lemma SendingRule(f: Flags, ownType: bool)
    ensures GoesOut(f, ownType) <==> ownType && !f.inSameProcess && (f.receivedAck || !f.ackEnabled)
    ensures MaySend(f) <==> f.receivedAck || !f.ackEnabled || f.inSameProcess
    ensures OnNewData(f, ownType) ==
      Flags(if GoesOut(f, ownType) then false else f.receivedAck, f.ackEnabled, f.inSameProcess, f.sentPid)
  {
  }

  /** What `n` heartbeat timeouts of an active connection send. */
  function Beats(f: Flags, isClient: bool, ownPid: Word, n: nat): seq<Payload>
    decreases n
  {
    if n == 0 then []
    else HeartbeatBurst(f, isClient, ownPid) + Beats(OnHeartbeat(f, isClient), isClient, ownPid, n - 1)
  }

  function Heartbeats(n: nat): seq<Payload> {
    if n == 0 then [] else [HeartbeatBytes] + Heartbeats(n - 1)
  }

  lemma {:induction false} LaterBeats(f: Flags, isClient: bool, ownPid: Word, n: nat)
    requires isClient ==> f.sentPid
    ensures Beats(f, isClient, ownPid, n) == Heartbeats(n)
    decreases n
  {
    if n > 0 {
      LaterBeats(OnHeartbeat(f, isClient), isClient, ownPid, n - 1);
    }
  }

  /** One heartbeat for each timeout; a client puts its process id in front of the first one, and sends it only then. */
  lemma PidOnce(isClient: bool, ownPid: Word, n: nat)
    requires n > 0
    ensures Beats(InitialFlags, isClient, ownPid, n)
         == (if isClient then [Le32(PID_MSG) + Le32(ownPid)] else []) + Heartbeats(n)
  {
    LaterBeats(OnHeartbeat(InitialFlags, isClient), isClient, ownPid, n - 1);
    assert [PidBytes(ownPid), HeartbeatBytes] == [PidBytes(ownPid)] + [HeartbeatBytes];
    assert [PidBytes(ownPid)] + [HeartbeatBytes] + Heartbeats(n - 1) == [PidBytes(ownPid)] + Heartbeats(n);
  }

  /** The messages that reach the application. */
  function DataOnly(ps: seq<Payload>): seq<Payload> {
    if ps == [] then [] else (if KindOf(ps[0]) == Data then [ps[0]] else []) + DataOnly(ps[1..])
  }

  lemma {:induction false} DataOnlyAppend(a: seq<Payload>, b: seq<Payload>)
    ensures DataOnly(a + b) == DataOnly(a) + DataOnly(b)
  {
    if a == [] {
      assert a + b == b;
    } else {
      assert (a + b)[1..] == a[1..] + b;
      DataOnlyAppend(a[1..], b);
      var head := if KindOf(a[0]) == Data then [a[0]] else [];
      assert head + (DataOnly(a[1..]) + DataOnly(b)) == (head + DataOnly(a[1..])) + DataOnly(b);
    }
  }
}
