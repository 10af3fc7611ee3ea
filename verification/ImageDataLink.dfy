/** The numbered stop-and-wait link from the C side to the Python client: C/src/PiVisImageDataTL.c sends images,
    Python/PiVisClient.py acknowledges each with its own frame count.  One connection, complete sends, and
    acknowledgements that arrive whole; both ends interleave freely.  The images travel as bytes, so the client takes
    whatever its parser makes of them. */
module ImageDataLink {
  import Arithmetic
  import opened Bytes
  import opened Framing

  const ACK_BUF_SIZE := 9
  const ACK_BUF_FRAME_NO_OFFSET := 8

  /** Nine bytes: an acknowledgement on the wire, and the sender's static buffer for one. */
  type AckBuf = s: seq<Byte> | |s| == ACK_BUF_SIZE witness [0, 0, 0, 0, 0, 0, 0, 0, 0]

  /** The acknowledgement of the Python client: a length word, the ack word and the frame number. */
  function AckMessage(frameNo: Byte): AckBuf {
    Le32(5) + Le32(0xDEAD_BEEF) + [frameNo]
  }

  /** Its nine bytes: the length 5, the bytes of 0xDEADBEEF from the least on, and the number. */
  lemma AckBytes(frameNo: Byte)
    ensures AckMessage(frameNo) == [5, 0, 0, 0, 0xEF, 0xBE, 0xAD, 0xDE, frameNo]
  {
    assert Le32(5) == [5, 0, 0, 0];
    assert Le32(0xDEAD_BEEF) == [0xEF, 0xBE, 0xAD, 0xDE];
  }

  /** How much `receive` takes off the byte stream behind the size: nothing for the sizes 0 and 1. */
  function BodyLength(imageSize: nat): nat {
    if imageSize != 0 && imageSize != 1 then imageSize else 0
  }

  predicate HasImage(stream: seq<Byte>) {
    |stream| >= 4 && |stream| >= 4 + BodyLength(HeaderOf(stream))
  }

  /** What one turn of the client's loop makes of the stream ... */
  function ImageOf(stream: seq<Byte>): Payload
    requires HasImage(stream)
  {
    stream[4..4 + BodyLength(HeaderOf(stream))]
  }

  /** ... and what it leaves. */
  function AfterImage(stream: seq<Byte>): seq<Byte>
    requires HasImage(stream)
  {
    stream[4 + BodyLength(HeaderOf(stream))..]
  }

  /** The client stays aligned with the sender's frames on every image but those of a single byte. */
  lemma AlignedIffNotOneByte(image: Payload, rest: seq<Byte>)
    ensures var stream := Frame(image) + rest;
      HasImage(stream) && (ImageOf(stream) == image && AfterImage(stream) == rest <==> |image| != 1)
  {
    FrameParses(image, rest);
    var stream := Frame(image) + rest;
    assert HeaderOf(stream) == |image|;
    if |image| == 1 {
      assert ImageOf(stream) == [];
    }
  }

  function Succ(frameNo: Byte): Byte {
    (frameNo + 1) % 256
  }

  datatype SenderState = SEND_DATA | WAIT_FOR_ACK

  /** The statics of PiVisImageDataTL.c. */
  datatype Sender = Sender(state: SenderState, frameNo: Byte, ackBuf: AckBuf,
                           numDroppedFrames: Word, numDroppedFramesAck: Word)

  const NewSender := Sender(SEND_DATA, 0, [0, 0, 0, 0, 0, 0, 0, 0, 0], 0, 0)

  /** `run`, given what SERVER_receive returned: None for -1, otherwise the bytes received, which overwrite the
      front of the static buffer. */
  function SenderRun(s: Sender, received: seq<Byte>, any: bool): Sender
    requires |received| <= ACK_BUF_SIZE
  {
    if !any then s
    else
      var ackBuf := received + s.ackBuf[|received|..];
      if ackBuf[ACK_BUF_FRAME_NO_OFFSET] == s.frameNo
      then s.(ackBuf := ackBuf, state := SEND_DATA, frameNo := Succ(s.frameNo))
      else s.(ackBuf := ackBuf)
  }

  /** `IMGDATATL_sendGrayscaleImage`, and whether the image goes out. */
  function SenderSend(s: Sender, connected: bool): (Sender, bool) {
    if s.state != SEND_DATA then (s.(numDroppedFrames := (s.numDroppedFrames + 1) % U32), false)
    else if !connected then (s.(numDroppedFramesAck := (s.numDroppedFramesAck + 1) % U32), false)
    else (s.(state := WAIT_FOR_ACK), true)
  }

  /** Both ends and the two directions of the connection, with logs of the images sent and taken. */
  datatype Link = Link(
    sender: Sender, connected: bool,
    frameNo: Byte, ackPending: bool,           // the Python client
    stream: seq<Byte>, acks: seq<AckBuf>,
    sent: seq<Payload>, received: seq<Payload>, sendCalls: nat, accepted: nat)

  const Init := Link(NewSender, false, 0, false, [], [], [], [], 0, 0)

  datatype Step = Connect | SendImage(image: Payload) | RunSender | TakeImage | SendAck

  function Next(l: Link, step: Step): Link {
    match step
    case Connect => l.(connected := true)
    case SendImage(image) =>
      var (s, out) := SenderSend(l.sender, l.connected);
      var l1 := l.(sender := s, sendCalls := l.sendCalls + 1);
      if out then l1.(stream := l.stream + Frame(image), sent := l.sent + [image]) else l1
    case RunSender =>
      if l.acks == [] then l
      else l.(sender := SenderRun(l.sender, l.acks[0], true), acks := l.acks[1..],
              accepted := if l.acks[0][ACK_BUF_FRAME_NO_OFFSET] == l.sender.frameNo then l.accepted + 1 else l.accepted)
    case TakeImage =>
      if l.ackPending || !HasImage(l.stream) then l
      else l.(stream := AfterImage(l.stream), received := l.received + [ImageOf(l.stream)], ackPending := true)
    case SendAck =>
      if !l.ackPending then l
      else l.(ackPending := false, acks := l.acks + [AckMessage(l.frameNo)], frameNo := Succ(l.frameNo))
  }

  function Run(l: Link, steps: seq<Step>): Link {
    if steps == [] then l else Next(Run(l, steps[..|steps| - 1]), steps[|steps| - 1])
  }

  // ----- What holds whatever the images are -----

  /** Frame number `k`, counted without end. */
  function Num(k: nat): Byte {
    k % 256
  }

  lemma SuccNum(k: nat)
    ensures Succ(Num(k)) == Num(k + 1)
  {
  }

  /** The sender has counted the acknowledgements accepted, those travelling follow on from there without a gap,
      and the static buffer still holds the number before. */
  predicate Numbered(l: Link) {
    && l.sender.frameNo == Num(l.accepted)
    && l.frameNo == Num(l.accepted + |l.acks|)
    && (forall i :: 0 <= i < |l.acks| ==> l.acks[i] == AckMessage(Num(l.accepted + i)))
    && l.sender.ackBuf[ACK_BUF_FRAME_NO_OFFSET] == (if l.accepted == 0 then 0 else Num(l.accepted - 1))
  }

  /** Every call is accounted for; the drop counters are unsigned int. */
  predicate CallsCounted(l: Link) {
    |l.sent| <= l.sendCalls &&
    (l.sendCalls - |l.sent|) % U32 == (l.sender.numDroppedFrames + l.sender.numDroppedFramesAck) % U32
  }

  lemma OneMoreDrop(calls: nat, a: Word, b: Word)
    requires calls % U32 == (a + b) % U32
    ensures (calls + 1) % U32 == ((a + 1) % U32 + b) % U32
  {
    AddAfterWrap(a + 1, b);
    SuccAfterWrap(calls);
    SuccAfterWrap(a + b);
  }

  lemma AddAfterWrap(x: nat, b: Word)
    ensures (x % U32 + b) % U32 == (x + b) % U32
  {
    Arithmetic.ModuloShift(x % U32 + b, x / U32, U32);
  }

  lemma SuccAfterWrap(x: nat)
    ensures (x % U32 + 1) % U32 == (x + 1) % U32
  {
    AddAfterWrap(x, 1);
  }

  lemma SendKeepsCounted(l: Link, image: Payload)
    requires CallsCounted(l)
    ensures CallsCounted(Next(l, SendImage(image)))
  {
    OneMoreDrop(l.sendCalls - |l.sent|, l.sender.numDroppedFrames, l.sender.numDroppedFramesAck);
    OneMoreDrop(l.sendCalls - |l.sent|, l.sender.numDroppedFramesAck, l.sender.numDroppedFrames);
  }

  /** The next acknowledgement is always the one the sender waits for. */
  lemma AcceptNext(l: Link)
    requires Numbered(l) && l.acks != []
    ensures var l' := Next(l, RunSender);
      && Numbered(l') && l'.accepted == l.accepted + 1
      && l'.sender.state == SEND_DATA && l'.sender.frameNo == Succ(l.sender.frameNo)
  {
    var l' := Next(l, RunSender);
    SuccNum(l.accepted);
    assert l.acks[0] == AckMessage(Num(l.accepted));
    assert l'.sender.ackBuf == l.acks[0];
    forall i | 0 <= i < |l'.acks| ensures l'.acks[i] == AckMessage(Num(l'.accepted + i)) {
      assert l'.acks[i] == l.acks[i + 1];
    }
  }

  lemma StepKeepsNumbered(l: Link, step: Step)
    requires Numbered(l)
    ensures Numbered(Next(l, step))
  {
    if step.RunSender? && l.acks != [] {
      AcceptNext(l);
    } else if step.SendAck? && l.ackPending {
      SuccNum(l.accepted + |l.acks|);
    }
  }

  lemma {:induction false} RunKeepsNumbered(steps: seq<Step>)
    ensures Numbered(Run(Init, steps))
  {
    if steps != [] {
      RunKeepsNumbered(steps[..|steps| - 1]);
      StepKeepsNumbered(Run(Init, steps[..|steps| - 1]), steps[|steps| - 1]);
    }
  }

  lemma StepKeepsCounted(l: Link, step: Step)
    requires CallsCounted(l)
    ensures CallsCounted(Next(l, step))
  {
    if step.SendImage? {
      SendKeepsCounted(l, step.image);
    }
  }

  // ----- Lock-step -----

  /** The stream holds the frame of the last image sent and nothing else. */
  predicate OneFrame(l: Link) {
    l.sent != [] && l.stream == Frame(l.sent[|l.sent| - 1])
  }

  /** Lock-step: nothing is under way while the sender may send; otherwise exactly one image, pending
      acknowledgement or travelling acknowledgement exists, and it belongs to the sender's frame number. */
  predicate LockStep(l: Link) {
    && (l.sender.state == SEND_DATA ==>
          l.stream == [] && !l.ackPending && l.acks == [] && l.frameNo == l.sender.frameNo)
    && (l.sender.state == WAIT_FOR_ACK ==>
          || (OneFrame(l) && !l.ackPending && l.acks == [] && l.frameNo == l.sender.frameNo)
          || (l.stream == [] && l.ackPending && l.acks == [] && l.frameNo == l.sender.frameNo)
          || (l.stream == [] && !l.ackPending && l.acks == [AckMessage(l.sender.frameNo)]
              && l.frameNo == Succ(l.sender.frameNo)))
  }

  /** What the client has taken is what was sent, but for the image in the stream. */
  predicate Delivered(l: Link) {
    if l.stream == [] then l.sent == l.received
    else OneFrame(l) && l.sent == l.received + [l.sent[|l.sent| - 1]]
  }

  /** The images accepted by the sender so far are the acknowledgements accepted and the one it waits for. */
  predicate SentCounted(l: Link) {
    |l.sent| == l.accepted + (if l.sender.state == WAIT_FOR_ACK then 1 else 0)
  }

  predicate NotOneByte(images: seq<Payload>) {
    forall i :: 0 <= i < |images| ==> |images[i]| != 1
  }

  predicate Inv(l: Link) {
    && Numbered(l) && CallsCounted(l) && LockStep(l) && Delivered(l) && SentCounted(l) && NotOneByte(l.sent)
  }

  lemma SendKeepsInv(l: Link, image: Payload)
    requires Inv(l) && |image| != 1
    ensures Inv(Next(l, SendImage(image)))
  {
    SendKeepsCounted(l, image);
    if l.sender.state == SEND_DATA && l.connected {
      SendStarts(l, image);
    }
  }

  lemma SendStarts(l: Link, image: Payload)
    requires Inv(l) && |image| != 1 && l.sender.state == SEND_DATA && l.connected
    ensures var l' := Next(l, SendImage(image)); LockStep(l') && Delivered(l') && NotOneByte(l'.sent)
  {
    assert [] + Frame(image) == Frame(image);
  }

  lemma TakeKeepsInv(l: Link)
    requires Inv(l)
    ensures Inv(Next(l, TakeImage))
  {
    if l.stream == [] {
      assert !HasImage(l.stream);
    } else {
      var image := l.sent[|l.sent| - 1];
      AlignedIffNotOneByte(image, []);
      assert Frame(image) + [] == Frame(image);
    }
  }

  lemma StepKeepsInv(l: Link, step: Step)
    requires Inv(l) && (step.SendImage? ==> |step.image| != 1)
    ensures Inv(Next(l, step))
  {
    match step
    case Connect =>
    case SendImage(image) => SendKeepsInv(l, image);
    case RunSender =>
      if l.acks != [] {
        AcceptNext(l);
      }
    case TakeImage => TakeKeepsInv(l);
    case SendAck =>
      StepKeepsNumbered(l, SendAck);
  }

  /** No image sent in the run is a single byte long. */
  predicate SendsNoOneByte(steps: seq<Step>) {
    forall i :: 0 <= i < |steps| && steps[i].SendImage? ==> |steps[i].image| != 1
  }

  lemma {:induction false} RunKeepsInv(steps: seq<Step>)
    requires SendsNoOneByte(steps)
    ensures Inv(Run(Init, steps))
  {
    if steps != [] {
      RunKeepsInv(steps[..|steps| - 1]);
      StepKeepsInv(Run(Init, steps[..|steps| - 1]), steps[|steps| - 1]);
    }
  }

  // ----- Main results -----

  /** In every state reached without a one-byte image, through any number of wraps of the frame number, the two ends
      are in lock-step. */
  lemma LinkLockStep(steps: seq<Step>)
    requires SendsNoOneByte(steps)
    ensures LockStep(Run(Init, steps)) && SentCounted(Run(Init, steps))
  {
    RunKeepsInv(steps);
  }

  /** The client has every image sent, in order, except at most the last; and all of them whenever the sender may
      send. */
  predicate Arrived(l: Link) {
    && l.received <= l.sent && |l.sent| <= |l.received| + 1
    && (l.sender.state == SEND_DATA ==> l.received == l.sent)
  }

  lemma InvArrives(l: Link)
    requires Inv(l)
    ensures Arrived(l)
  {
  }

  lemma ImagesArrive(steps: seq<Step>)
    requires SendsNoOneByte(steps)
    ensures Arrived(Run(Init, steps))
  {
    RunKeepsInv(steps);
    InvArrives(Run(Init, steps));
  }

  /** Every image sent in the run is one of these. */
  predicate SendsFrom(steps: seq<Step>, images: seq<Payload>) {
    forall i :: 0 <= i < |steps| && steps[i].SendImage? ==> steps[i].image in images
  }

  /** The premise is exact: the ends stay in lock-step and every image arrives in all runs that send only these
      images, if and only if none of them is a single byte long. */
  lemma LockStepIffNotOneByte(images: seq<Payload>)
    ensures (forall steps :: SendsFrom(steps, images) ==> LockStep(Run(Init, steps)) && Arrived(Run(Init, steps)))
            <==> NotOneByte(images)
  {
    if NotOneByte(images) {
      forall steps | SendsFrom(steps, images) ensures LockStep(Run(Init, steps)) && Arrived(Run(Init, steps)) {
        LinkLockStep(steps);
        ImagesArrive(steps);
      }
    } else {
      var k :| 0 <= k < |images| && |images[k]| == 1;
      var steps := OneByteIsLost(images[k]);
      assert SendsFrom(steps, images);
    }
  }

  /** A one-byte image is acknowledged but not taken: its byte is left for the next header. */
  lemma OneByteIsLost(image: Payload) returns (steps: seq<Step>)
    requires |image| == 1
    ensures steps == [Connect, SendImage(image), TakeImage]
    ensures var l := Run(Init, steps);
      l.stream == image && l.ackPending && l.received == [[]] && !LockStep(l) && !Arrived(l)
  {
    steps := [Connect, SendImage(image), TakeImage];
    var l1 := Next(Init, Connect);
    var l2 := Next(l1, SendImage(image));
    assert steps[..2] == [Connect, SendImage(image)] && steps[..2][..1] == [Connect] && [Connect][..0] == [];
    assert Run(Init, [Connect]) == l1;
    assert Run(Init, steps[..2]) == l2;
    assert l2.stream == Frame(image) + [];
    AlignedIffNotOneByte(image, []);
    FrameParses(image, []);
    assert ImageOf(l2.stream) == [] && AfterImage(l2.stream) == l2.stream[4..] == image;
    var l3 := Next(l2, TakeImage);
    assert l3.received == [[]] && l3.sent == [image] && l3.stream == image;
    assert Run(Init, steps) == l3;
    assert l3.received[0] != l3.sent[0];
  }

  /** Whatever the images: every call of the sending function sent an image or was counted as dropped. */
  lemma {:induction false} CallsAccounted(steps: seq<Step>)
    ensures CallsCounted(Run(Init, steps))
  {
    if steps != [] {
      CallsAccounted(steps[..|steps| - 1]);
      StepKeepsCounted(Run(Init, steps[..|steps| - 1]), steps[|steps| - 1]);
    }
  }

  /** The calls of a run made while an acknowledgement was awaited. */
  function BusyCalls(steps: seq<Step>): nat {
    if steps == [] then 0
    else
      var before, step := steps[..|steps| - 1], steps[|steps| - 1];
      BusyCalls(before) + if step.SendImage? && Run(Init, before).sender.state == WAIT_FOR_ACK then 1 else 0
  }

  /** The calls made while none was awaited and no client was connected, ... */
  function UnconnectedCalls(steps: seq<Step>): nat {
    if steps == [] then 0
    else
      var before, step := steps[..|steps| - 1], steps[|steps| - 1];
      UnconnectedCalls(before) +
        if step.SendImage? && Run(Init, before).sender.state == SEND_DATA && Connect !in before then 1 else 0
  }

  /** ... and the images of all the others. */
  function ImagesOut(steps: seq<Step>): seq<Payload> {
    if steps == [] then []
    else
      var before, step := steps[..|steps| - 1], steps[|steps| - 1];
      ImagesOut(before) +
        if step.SendImage? && Run(Init, before).sender.state == SEND_DATA && Connect in before then [step.image]
        else []
  }

  lemma {:induction false} ConnectedIff(steps: seq<Step>)
    ensures Run(Init, steps).connected <==> Connect in steps
  {
    if steps != [] {
      ConnectedIff(steps[..|steps| - 1]);
      assert steps == steps[..|steps| - 1] + [steps[|steps| - 1]];
    }
  }

  /** What one step does to the counters and to the log of images sent. */
  lemma StepCounts(l: Link, step: Step)
    ensures var l' := Next(l, step);
      var busy := step.SendImage? && l.sender.state == WAIT_FOR_ACK;
      var ready := step.SendImage? && l.sender.state == SEND_DATA;
      && l'.sender.numDroppedFrames == (l.sender.numDroppedFrames + if busy then 1 else 0) % U32
      && l'.sender.numDroppedFramesAck == (l.sender.numDroppedFramesAck + if ready && !l.connected then 1 else 0) % U32
      && l'.sent == l.sent + if ready && l.connected then [step.image] else []
  {
  }

  lemma {:induction false} BusyCounted(steps: seq<Step>)
    ensures Run(Init, steps).sender.numDroppedFrames == BusyCalls(steps) % U32
  {
    if steps != [] {
      var before := steps[..|steps| - 1];
      BusyCounted(before);
      SuccAfterWrap(BusyCalls(before));
      StepCounts(Run(Init, before), steps[|steps| - 1]);
    }
  }

  lemma {:induction false} UnconnectedCounted(steps: seq<Step>)
    ensures Run(Init, steps).sender.numDroppedFramesAck == UnconnectedCalls(steps) % U32
  {
    if steps != [] {
      var before := steps[..|steps| - 1];
      UnconnectedCounted(before);
      ConnectedIff(before);
      SuccAfterWrap(UnconnectedCalls(before));
      StepCounts(Run(Init, before), steps[|steps| - 1]);
    }
  }

  lemma {:induction false} SentAreOut(steps: seq<Step>)
    ensures Run(Init, steps).sent == ImagesOut(steps)
  {
    if steps != [] {
      var before := steps[..|steps| - 1];
      SentAreOut(before);
      ConnectedIff(before);
      StepCounts(Run(Init, before), steps[|steps| - 1]);
    }
  }

  /** One drop counter counts the calls that came too early, the other those that found nobody connected, and the
      images of the rest are sent. */
  lemma DropCounters(steps: seq<Step>)
    ensures Run(Init, steps).sender.numDroppedFrames == BusyCalls(steps) % 0x1_0000_0000
    ensures Run(Init, steps).sender.numDroppedFramesAck == UnconnectedCalls(steps) % 0x1_0000_0000
    ensures Run(Init, steps).sent == ImagesOut(steps)
  {
    BusyCounted(steps);
    UnconnectedCounted(steps);
    SentAreOut(steps);
  }

  /** One round: an image that is not a single byte, sent when nothing is under way, is taken and acknowledged, and the
      sender may send again under the next number. */
  lemma RoundTrip(l: Link, image: Payload)
    requires Inv(l) && l.sender.state == SEND_DATA && l.connected && |image| != 1
    ensures var next := (l.sender.frameNo + 1) % 256;
      Next(Next(Next(Next(l, SendImage(image)), TakeImage), SendAck), RunSender) ==
      l.(sent := l.sent + [image], received := l.received + [image], sendCalls := l.sendCalls + 1,
         accepted := l.accepted + 1, frameNo := next,
         sender := l.sender.(frameNo := next, ackBuf := [5, 0, 0, 0, 0xEF, 0xBE, 0xAD, 0xDE, l.sender.frameNo]))
  {
    var l1 := Next(l, SendImage(image));
    SendKeepsInv(l, image);
    AlignedIffNotOneByte(image, []);
    assert l1.stream == Frame(image) + [];
    var l2 := Next(l1, TakeImage);
    assert l2.received == l.received + [image] && l2.stream == [] && l2.ackPending;
    var l3 := Next(l2, SendAck);
    AckBytes(l.frameNo);
    assert l3.acks == [AckMessage(l.sender.frameNo)];
    var l4 := Next(l3, RunSender);
    assert l3.acks[1..] == [] && l3.acks[0] + l3.sender.ackBuf[9..] == l3.acks[0];
    assert l4.acks == l.acks && l4.stream == l.stream;
  }

  // ----- Acknowledgements that do not arrive whole -----

  /** A recv that returns no bytes (the peer has closed) looks at the stale buffer; it leaves the sender as it is if
      and only if some acknowledgement has been accepted before. */
  lemma EmptyReceiveHarmlessIff(steps: seq<Step>)
    ensures var l := Run(Init, steps);
      SenderRun(l.sender, [], true) == l.sender <==> l.accepted > 0
  {
    RunKeepsNumbered(steps);
    StaleBuffer(Run(Init, steps));
  }

  lemma StaleBuffer(l: Link)
    requires Numbered(l)
    ensures SenderRun(l.sender, [], true) == l.sender <==> l.accepted > 0
  {
    var buf := l.sender.ackBuf;
    assert [] + buf[0..] == buf;
    if l.accepted > 0 {
      SuccNum(l.accepted - 1);
    }
  }

  /** An acknowledgement that recv returns in two pieces is lost, leaving the sender where it was, if and only if some
      acknowledgement has been accepted before; the very first one is accepted on its first piece. */
  lemma SplitAckLostIff(steps: seq<Step>, n: nat)
    requires Run(Init, steps).acks != [] && 1 <= n < ACK_BUF_SIZE
    ensures var l := Run(Init, steps);
      var first := SenderRun(l.sender, l.acks[0][..n], true);
      var both := SenderRun(first, l.acks[0][n..], true);
      && (both.frameNo == l.sender.frameNo && both.state == l.sender.state <==> l.accepted > 0)
      && (l.accepted == 0 ==> both.state == first.state == SEND_DATA && both.frameNo == first.frameNo == 1)
  {
    RunKeepsNumbered(steps);
    SplitAck(Run(Init, steps), n);
  }

  lemma SplitAck(l: Link, n: nat)
    requires Numbered(l) && l.acks != [] && 1 <= n < ACK_BUF_SIZE
    ensures var first := SenderRun(l.sender, l.acks[0][..n], true);
      var both := SenderRun(first, l.acks[0][n..], true);
      && (both.frameNo == l.sender.frameNo && both.state == l.sender.state <==> l.accepted > 0)
      && (l.accepted == 0 ==> both.state == first.state == SEND_DATA && both.frameNo == first.frameNo == 1)
  {
    var stale := l.sender.ackBuf[ACK_BUF_FRAME_NO_OFFSET];
    var first := SenderRun(l.sender, l.acks[0][..n], true);
    assert first.ackBuf[ACK_BUF_FRAME_NO_OFFSET] == stale;
    var both := SenderRun(first, l.acks[0][n..], true);
    assert both.ackBuf[ACK_BUF_FRAME_NO_OFFSET] == stale;
  }

  /** Nothing is on its way that could release the sender. */
  predicate Stalled(l: Link) {
    l.sender.state == WAIT_FOR_ACK && l.stream == [] && !l.ackPending && l.acks == []
  }

  /** A lost acknowledgement is not made up for: the link sends no image ever after. */
  lemma {:induction false} LostAckStallsForever(l: Link, steps: seq<Step>)
    requires Stalled(l)
    ensures Stalled(Run(l, steps)) && Run(l, steps).sent == l.sent
  {
    if steps != [] {
      LostAckStallsForever(l, steps[..|steps| - 1]);
    }
  }

  /** So in a run of lock-step, a split acknowledgement other than the first ends the traffic. */
  lemma SplitAckEndsTraffic(steps: seq<Step>, n: nat, more: seq<Step>)
    requires SendsNoOneByte(steps) && 1 <= n < ACK_BUF_SIZE
    requires Run(Init, steps).acks != [] && Run(Init, steps).accepted > 0
    ensures var l := Run(Init, steps);
      var both := SenderRun(SenderRun(l.sender, l.acks[0][..n], true), l.acks[0][n..], true);
      Run(l.(sender := both, acks := l.acks[1..]), more).sent == l.sent
  {
    var l := Run(Init, steps);
    RunKeepsInv(steps);
    SplitAck(l, n);
    var both := SenderRun(SenderRun(l.sender, l.acks[0][..n], true), l.acks[0][n..], true);
    LostAckStallsForever(l.(sender := both, acks := l.acks[1..]), more);
  }
}
