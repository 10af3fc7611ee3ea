/** Two PiVisionEthTermConnection ends put together: every payload one end sends, through chunked sends, the wire and
    chunked receives, is what the other end's `Execute` makes of the bytes
    (C++/src/pivision_ethtermconnection.cpp:85-323). */
module EndToEnd {
  import opened Bytes
  import opened EthTermConnections
  import opened Framing
  import opened Messages
  import opened PiVisionBuffers
  import opened SocketLoops
  import opened Sockets

  /** The payloads up to the `n`-th in full, and pieces of the header and the payload of that one. */
  function Cut(ps: seq<Payload>, n: nat, h: nat, sent: nat): seq<Byte>
    requires n < |ps| && h <= 4 && sent <= |ps[n]|
  {
    Wire(ps[..n]) + (Le32(|ps[n]|)[..h] + ps[n][..sent])
  }

  /** An application hands its payloads to the connection, one `Send` each, until one fails; `out` goes out. */
  method SendAll(a: Connection, ps: seq<Payload>, patience: nat)
    returns (sentAll: bool, ghost n: nat, ghost h: nat, ghost sent: nat, ghost out: seq<Byte>)
    requires a.Valid()
    modifies a`active, a.socket`outgoing, a.socket`sendTurn
    ensures a.socket.outgoing == old(a.socket.outgoing) + out
    ensures sentAll ==> a.active && out == Wire(ps)
    ensures !sentAll && ps != [] ==> n < |ps| && h <= 4 && sent <= |ps[n]| && out == Cut(ps, n, h, sent)
    ensures sentAll || h == 4 || sent == 0 ==> out <= Wire(ps)
    ensures old(a.active) && a.SendsWell() && PatientFor(ps, patience) ==> sentAll
  {
    sentAll, n, h, sent, out := a.active, 0, 0, 0, [];
    ghost var outgoing := a.socket.outgoing;
    if !sentAll {
      assert ps != [] ==> Cut(ps, 0, 0, 0) == [];
      return;
    }
    for i := 0 to |ps|
      invariant a.Valid() && a.active && out == Wire(ps[..i]) && a.socket.outgoing == outgoing + out
    {
      var data := BufferOf(ps[i]);
      var finished;
      finished, h, sent := a.Send(data, patience);
      Assoc(outgoing, out, Le32(|ps[i]|)[..h] + ps[i][..sent]);
      if !finished || !a.active {
        sentAll, n, out := false, i, Cut(ps, i, h, sent);
        if h == 4 || sent == 0 {
          CutOfWire(ps, i, h, sent);
        }
        return;
      }
      assert ps[..i + 1] == ps[..i] + [ps[i]];
      WireAppend(ps[..i], ps[i]);
      Assoc(outgoing, out, Frame(ps[i]));
      out := out + Frame(ps[i]);
    }
    assert ps[..|ps|] == ps;
  }

  /** Enough turns for each of the payloads, and for an acknowledgement. */
  predicate PatientFor(ps: seq<Payload>, patience: nat) {
    patience >= 44 && forall p :: p in ps ==> patience >= 11 * |p|
  }

  /** A failed send leaves a prefix of its frame on the wire, whatever the payload, if and only if the header went out
      whole or no payload byte went out behind its piece. */
  lemma CutIsPrefixIff(size: nat, h: nat, sent: nat)
    requires h <= 4 && sent <= size < U32
    ensures (forall p: Payload :: |p| == size ==> Le32(size)[..h] + p[..sent] <= Frame(p)) <==> h == 4 || sent == 0
  {
    if h == 4 || sent == 0 {
      forall p: Payload | |p| == size ensures Le32(size)[..h] + p[..sent] <= Frame(p) {
        PieceIsPrefix(p, h, sent);
      }
    } else {
      var other: Byte := if Le32(size)[h] == 0 then 1 else 0;
      var p: Payload := seq(size, _ => other);
      assert (Le32(size)[..h] + p[..sent])[h] == other && Frame(p)[h] == Le32(size)[h];
      assert !(Le32(size)[..h] + p[..sent] <= Frame(p));
    }
  }

  lemma PieceIsPrefix(p: Payload, h: nat, sent: nat)
    requires h <= 4 && sent <= |p| && (h == 4 || sent == 0)
    ensures Le32(|p|)[..h] + p[..sent] <= Frame(p)
  {
    var piece := Le32(|p|)[..h] + p[..sent];
    assert piece == Frame(p)[..|piece|];
  }

  /** What goes out before a clean cut is the front of the whole wire. */
  lemma CutOfWire(ps: seq<Payload>, n: nat, h: nat, sent: nat)
    requires n < |ps| && h <= 4 && sent <= |ps[n]| && (h == 4 || sent == 0)
    ensures Cut(ps, n, h, sent) <= Wire(ps)
  {
    var piece := Le32(|ps[n]|)[..h] + ps[n][..sent];
    PieceIsPrefix(ps[n], h, sent);
    assert ps == ps[..n] + ps[n..];
    WireConcat(ps[..n], ps[n..]);
    PrefixOfConcat(Wire(ps[..n]), piece, Frame(ps[n]), Wire(ps[n + 1..]));
    assert ps[n..][1..] == ps[n + 1..];
  }

  lemma PrefixOfConcat(a: seq<Byte>, piece: seq<Byte>, frame: seq<Byte>, rest: seq<Byte>)
    requires piece <= frame
    ensures a + piece <= a + (frame + rest)
  {
    assert a + piece == (a + (frame + rest))[..|a + piece|];
  }

  lemma {:induction false} WireConcat(ps: seq<Payload>, qs: seq<Payload>)
    ensures Wire(ps + qs) == Wire(ps) + Wire(qs)
    decreases |ps|
  {
    if ps == [] {
      assert ps + qs == qs;
    } else {
      assert (ps + qs)[1..] == ps[1..] + qs;
      WireConcat(ps[1..], qs);
      Assoc(Frame(ps[0]), Wire(ps[1..]), Wire(qs));
    }
  }

  /** Whatever the network does to the receiving end, and however much of the stream reaches it, the messages it
      handles in full are the first of the payloads sent, if every send succeeded or the failing one was cut cleanly.
      On working networks they are all of them, each dispatched or obeyed once, in order, and each data message
      acknowledged once. */
  method Transfer(a: Connection, ps: seq<Payload>, reached: nat, recvScript: nat -> RecvTurn,
                  sendScript: nat -> SendTurn, pid: Word, patience: nat)
    returns (sentAll: bool, ghost h: nat, ghost sent: nat,
             b: Connection, ghost frames: seq<Payload>, ghost tail: seq<Payload>, ghost k: nat)
    requires a.Valid() && a.socket.outgoing == []
    modifies a`active, a.socket`outgoing, a.socket`sendTurn
    ensures old(a.active) && a.SendsWell() && PatientFor(ps, patience) ==> sentAll
    ensures b.raised == DataOnly(frames) + tail && HandledSoFar(b.socket.incoming, frames, tail, k)
    ensures sentAll || h == 4 || sent == 0 ==> frames <= ps && b.socket.incoming <= Wire(ps)
    ensures sentAll && reached >= |Wire(ps)| && patience >= 44 && ReceivesWell(recvScript) && AcceptsWell(sendScript)
      ==>
      && frames == ps && b.raised == DataOnly(ps) && tail == []
      && b.socket.outgoing == Acks(|DataOnly(ps)|)
      && ((forall p :: p in ps ==> Plain(p)) ==> b.raised == ps)
  {
    ghost var n, out;
    sentAll, n, h, sent, out := SendAll(a, ps, patience);
    assert a.socket.outgoing == out;
    var incoming := a.socket.outgoing[..Min(reached, |a.socket.outgoing|)];
    b, frames, tail, k := ReceiveAll(incoming, recvScript, sendScript, pid, !a.isClient, patience);
    if sentAll || h == 4 || sent == 0 {
      FrontArrives(ps, incoming, frames);
    }
  }

  lemma FrontArrives(ps: seq<Payload>, incoming: seq<Byte>, frames: seq<Payload>)
    requires incoming <= Wire(ps) && frames <= Frames(incoming)
    ensures frames <= ps
    ensures incoming == Wire(ps) ==> Frames(incoming) == ps && Leftover(incoming) == []
    ensures (forall p :: p in ps ==> Plain(p)) ==> DataOnly(ps) == ps
  {
    assert incoming == Wire(ps)[..|incoming|];
    WireArrives(ps, |incoming|, frames);
  }

  /** The other end, on a fresh connection to which these bytes come. */
  method ReceiveAll(incoming: seq<Byte>, recvScript: nat -> RecvTurn, sendScript: nat -> SendTurn, pid: Word,
                    isClient: bool, patience: nat)
    returns (b: Connection, ghost frames: seq<Payload>, ghost tail: seq<Payload>, ghost k: nat)
    ensures b.socket.incoming == incoming
    ensures b.raised == DataOnly(frames) + tail && HandledSoFar(incoming, frames, tail, k)
    ensures ReceivesWell(recvScript) && AcceptsWell(sendScript) && patience >= 44 ==>
      && frames == Frames(incoming) && (Leftover(incoming) == [] ==> tail == [])
      && b.socket.outgoing == Acks(|DataOnly(frames)| + |tail|)
  {
    var socket := new Socket(incoming, recvScript, sendScript);
    b := new Connection(socket, pid, isClient);
    assert incoming[0..] == incoming;
    var finished;
    finished, frames, tail, k := b.Execute(patience);
    assert [] + (DataOnly(frames) + tail) == DataOnly(frames) + tail;
    assert [] + Acks(|DataOnly(frames)| + |tail|) == Acks(|DataOnly(frames)| + |tail|);
  }

  lemma WireArrives(ps: seq<Payload>, cut: nat, frames: seq<Payload>)
    requires cut <= |Wire(ps)| && frames <= Frames(Wire(ps)[..cut])
    ensures frames <= ps
    ensures cut == |Wire(ps)| ==> Frames(Wire(ps)[..cut]) == ps && Leftover(Wire(ps)[..cut]) == []
    ensures (forall p :: p in ps ==> Plain(p)) ==> DataOnly(ps) == ps
  {
    FramesOfWirePrefix(ps, cut);
    if cut == |Wire(ps)| {
      assert Wire(ps)[..cut] == Wire(ps);
      FramesOfWire(ps);
    }
    if forall p :: p in ps ==> Plain(p) {
      AllPlain(ps);
    }
  }

  lemma {:induction false} AllPlain(ps: seq<Payload>)
    requires forall p :: p in ps ==> Plain(p)
    ensures DataOnly(ps) == ps
  {
    if ps != [] {
      assert ps[0] in ps && ps == [ps[0]] + ps[1..];
      AllPlain(ps[1..]);
    }
  }

  // ----- A header that does not come whole -----

  /** The message of one pass. */
  function MessageAt(script: nat -> RecvTurn, incoming: seq<Byte>, at: Left): seq<Byte>
    requires at.taken <= |incoming|
  {
    var (header, end) := FrameAt(script, incoming, at);
    incoming[header.taken..end.taken]
  }

  /** The message lies in the payload it is received for, as far as that goes. */
  predicate InPayload(script: nat -> RecvTurn, incoming: seq<Byte>, at: Left)
    requires at.taken <= |incoming| && HasFrame(incoming[at.taken..])
  {
    MessageAt(script, incoming, at) <= FirstPayload(incoming[at.taken..])
  }

  /** The header comes whole or not at all, or the turn behind it hands over nothing. */
  predicate HeaderSafe(script: nat -> RecvTurn, total: nat, at: Left)
    requires at.taken <= total
  {
    var header := Drain(script, total, at, 4, 0);
    || header.taken == at.taken || header.taken == at.taken + 4
    || script(header.turn).soError || script(header.turn).avail == 0
  }

  /** A receive that starts on an inactive connection takes one turn, and more only while there are bytes. */
  lemma InactiveDrain(script: nat -> RecvTurn, total: nat, at: Left, need: nat)
    requires at.taken < total && !at.active && need > 0
    ensures var e := Drain(script, total, at, need, 0);
      e.taken == at.taken <==> script(at.turn).soError || script(at.turn).avail == 0
  {
    var t := script(at.turn);
    var got := if t.soError then 0 else Min(t.avail, Min(Min(MAX_CHUNK_SIZE, need), total - at.taken));
    if got > 0 {
      DrainBounds(script, total, Left(at.turn + 1, at.taken + got, false), need - got, 0);
    }
  }

  lemma WholeHeaderInPayload(script: nat -> RecvTurn, incoming: seq<Byte>, at: Left)
    requires at.taken <= |incoming| && HasFrame(incoming[at.taken..])
    requires FrameAt(script, incoming, at).0.taken == at.taken + 4
    ensures InPayload(script, incoming, at)
  {
    var stream := incoming[at.taken..];
    var (header, end) := FrameAt(script, incoming, at);
    assert stream[..4] == incoming[at.taken..header.taken];
    DrainBounds(script, |incoming|, header, HeaderOf(stream), 0);
    var message := incoming[header.taken..end.taken];
    assert message == FirstPayload(stream)[..|message|];
  }

  lemma SafeInPayload(script: nat -> RecvTurn, incoming: seq<Byte>, at: Left)
    requires at.taken <= |incoming| && HasFrame(incoming[at.taken..]) && HeaderSafe(script, |incoming|, at)
    ensures InPayload(script, incoming, at)
  {
    DrainBounds(script, |incoming|, at, 4, 0);
    var (header, end) := FrameAt(script, incoming, at);
    var n := FromLe(incoming[at.taken..header.taken]);
    if header.taken == at.taken + 4 {
      WholeHeaderInPayload(script, incoming, at);
    } else {
      if header.taken > at.taken && n > 0 {
        InactiveDrain(script, |incoming|, header, n);
      }
      assert end.taken == header.taken;
    }
  }

  /** The stream that gives a cut header away: a payload of one byte, 255, and whatever fills the length. */
  function Telltale(before: nat, total: nat): (s: seq<Byte>)
    requires before + 5 <= total
    ensures |s| == total
  {
    seq(total, i => if i == before then 1 else if before < i < before + 4 then 0 else 255)
  }

  lemma TelltaleFrame(before: nat, total: nat, k: nat)
    requires before + 5 <= total && 1 <= k <= 4
    ensures var stream := Telltale(before, total)[before..];
      HasFrame(stream) && FirstPayload(stream) == [255] && FromLe(Telltale(before, total)[before..before + k]) == 1
  {
    var s := Telltale(before, total);
    var stream := s[before..];
    assert stream[..4] == [1, 0, 0, 0];
    FromLe32([1, 0, 0, 0]);
    assert HeaderOf(stream) == 1;
    assert FirstPayload(stream) == stream[4..5] == [255];
    assert s[before..before + k] == [1, 0, 0, 0][..k];
    ZerosAbove(k);
  }

  lemma ZerosAbove(k: nat)
    requires 1 <= k <= 4
    ensures FromLe([1, 0, 0, 0][..k]) == 1
  {
    var s: seq<Byte> := [1, 0, 0, 0][..k];
    OnlyZeros(s[1..]);
  }

  lemma {:induction false} OnlyZeros(s: seq<Byte>)
    requires forall i :: 0 <= i < |s| ==> s[i] == 0
    ensures FromLe(s) == 0
  {
    if s != [] {
      OnlyZeros(s[1..]);
    }
  }

  /** Behind one to three bytes of the header, a turn with bytes starts the message with a header byte, and the message
      is dispatched as data. */
  lemma UnsafeShows(script: nat -> RecvTurn, total: nat, at: Left)
    requires at.taken + 5 <= total && !HeaderSafe(script, total, at)
    ensures var s := Telltale(at.taken, total);
      && HasFrame(s[at.taken..]) && !InPayload(script, s, at)
      && Classify(MessageAt(script, s, at), FromLe(s[at.taken..FrameAt(script, s, at).0.taken])) == Data
  {
    var s := Telltale(at.taken, total);
    DrainBounds(script, total, at, 4, 0);
    var (header, end) := FrameAt(script, s, at);
    TelltaleFrame(at.taken, total, header.taken - at.taken);
    InactiveDrain(script, total, header, 1);
    DrainBounds(script, total, header, 1, 0);
    var message := MessageAt(script, s, at);
    assert message == [s[header.taken]] == [0];
    assert message[0] != FirstPayload(s[at.taken..])[0];
  }

  /** The exact condition, for every script, every place in a stream and every length of at least one small frame:
      whatever the bytes are, the message of a pass is a prefix of the payload it is received for, if and only if the
      header comes whole or not at all, or the turn behind it hands over nothing. */
  lemma PrefixIffHeaderSafe(script: nat -> RecvTurn, total: nat, at: Left)
    requires at.taken + 5 <= total
    ensures (forall incoming: seq<Byte> :: |incoming| == total && HasFrame(incoming[at.taken..]) ==>
               InPayload(script, incoming, at))
            <==> HeaderSafe(script, total, at)
  {
    if HeaderSafe(script, total, at) {
      forall incoming: seq<Byte> | |incoming| == total && HasFrame(incoming[at.taken..])
        ensures InPayload(script, incoming, at)
      {
        SafeInPayload(script, incoming, at);
      }
    } else {
      UnsafeShows(script, total, at);
    }
  }

  /** One byte, then nothing for eleven turns, then the network works again. */
  function Hiccup(t: nat): RecvTurn {
    RecvTurn(false, false, if t == 0 then 1 else if t <= 11 then 0 else 3, false)
  }

  lemma {:induction false} NothingArrives(turn: nat, need: nat, attempts: nat)
    requires need > 0 && attempts <= 10 && turn == 1 + attempts
    ensures Drain(Hiccup, 7, Left(turn, 1, true), need, attempts) == Left(12, 1, false)
    decreases 10 - attempts
  {
    if attempts < 10 {
      NothingArrives(turn + 1, need, attempts + 1);
    }
  }

  const CutFrame: seq<Byte> := [3, 0, 0, 0, 5, 6, 7]

  lemma CutFrameIs()
    ensures CutFrame == Frame([5, 6, 7])
    ensures FromLe(CutFrame[0..1]) == 3
  {
    assert Le32(3) == [3, 0, 0, 0];
    assert CutFrame[0..1] == [3] && CutFrame[0..1][1..] == [];
  }

  lemma HiccupFrame()
    ensures FrameAt(Hiccup, CutFrame, Left(0, 0, true)) == (Left(12, 1, false), Left(13, 4, false))
  {
    CutFrameIs();
    HiccupHeader();
    HiccupBody();
  }

  /** A turn that hands over `got` bytes. */
  lemma DrainGets(script: nat -> RecvTurn, total: nat, at: Left, need: nat, got: nat)
    requires at.taken < total && at.active && need > 0 && !Disturbing(script(at.turn))
    requires got == Min(script(at.turn).avail, Min(Min(MAX_CHUNK_SIZE, need), total - at.taken)) > 0
    ensures Drain(script, total, at, need, 0)
         == Drain(script, total, Left(at.turn + 1, at.taken + got, true), need - got, 0)
  {
  }

  lemma HiccupHeader()
    ensures Drain(Hiccup, 7, Left(0, 0, true), 4, 0) == Left(12, 1, false)
  {
    DrainGets(Hiccup, 7, Left(0, 0, true), 4, 1);
    NothingArrives(1, 3, 0);
  }

  lemma HiccupBody()
    ensures Drain(Hiccup, 7, Left(12, 1, false), 3, 0) == Left(13, 4, false)
  {
    assert Drain(Hiccup, 7, Left(12, 1, false), 3, 0) == Drain(Hiccup, 7, Left(13, 4, false), 0, 0);
  }

  /** A pass that took one byte of the header and three after it dispatches those three. */
  lemma HiccupMessage(whole: bool, message: Payload, isData: bool)
    requires message == CutFrame[1..4]
    requires whole ==> HasFrame(CutFrame) && message == FirstPayload(CutFrame)
    requires !whole ==> Truncated(CutFrame, 1, message, isData)
    ensures message == [0, 0, 0] && isData
  {
    CutFrameIs();
    FrameParses([5, 6, 7], []);
    assert Frame([5, 6, 7]) + [] == CutFrame;
    assert CutFrame[..1] == CutFrame[0..1];
  }

  /** A truncated message need not be part of any payload: the peer sent the payload 5, 6, 7, and when the header is
      cut off after one byte the next header bytes are dispatched as data. */
  method HeaderBytesAsData() returns (c: Connection)
    ensures c.socket.incoming == Frame([5, 6, 7]) && c.raised == [[0, 0, 0]]
  {
    var socket := new Socket(CutFrame, Hiccup, t => SendTurn(false, false, 4096));
    c := new Connection(socket, 1, true);
    HiccupFrame();
    CutFrameIs();
    ghost var whole, message, isData, k;
    var finished;
    finished, whole, message, isData, k := c.Pass(44);
    assert CutFrame[0..] == CutFrame;
    HiccupMessage(whole, message, isData);
  }
}
