/** A frame's way through the C side: reassembly in C/src/PiVisClient.c, hand-over in
    C/src/PiVisImageProvider.c and the offer to the algorithm in C/src/PiVisAlgoCtrl.c, as values.  One step of
    a run is one scheduler pass in the order of `Scheduler.RegistrationOrder`. */
module FramePipeline {
  import opened Bytes
  import opened Images
  import Arithmetic
  import Scheduler

  type Frame = seq<Byte>

  /** The statics of PiVisClient.c.  `state` indexes the source's table of state functions. */
  datatype Client = Client(state: nat, headerIndex: nat, bufferIndex: nat, buffer: seq<Byte>)

  const CAMERA_BUF_HEADER_SIZE := 8

  const SERVICE_DISCOVERY := 0
  const DISCONNECTED := 1
  const CONNECTING := 2
  const CONNECTED := 3
  const PROCESSING_FRAME := 4

  /** What the outside does to one run of the client: whether discovery is answered, whether connecting works, how
      many bytes of a header arrive, and what recv returns for frame data (None for -1).  A header may come in any
      pieces; no recv hands over the end of a header together with bytes behind it. */
  datatype Input = Input(found: bool, connects: bool, header: Option<nat>, data: Option<seq<Byte>>)
  datatype Option<T> = None | Some(value: T)

  function Zeros(n: nat): seq<Byte> {
    seq(n, _ => 0)
  }

  /** How many bytes of frame data recv hands over, given the room left. */
  function Received(c: Client, input: Input): nat {
    if input.data.Some? && c.bufferIndex <= COLOR_IMAGE_SIZE
    then Min(|input.data.value|, COLOR_IMAGE_SIZE - c.bufferIndex) else 0
  }

  predicate TakesData(c: Client) {
    c.state == CONNECTED && c.headerIndex >= CAMERA_BUF_HEADER_SIZE
  }

  /** How many bytes of the header recv hands over. */
  function HeaderReceived(c: Client, input: Input): nat {
    if input.header.Some? && c.headerIndex <= CAMERA_BUF_HEADER_SIZE
    then Min(input.header.value, CAMERA_BUF_HEADER_SIZE - c.headerIndex) else 0
  }

  /** `run` of the client. */
  function ClientRun(c: Client, input: Input): (r: Client)
    requires |c.buffer| == COLOR_IMAGE_SIZE
    ensures |r.buffer| == COLOR_IMAGE_SIZE
  {
    if c.state == SERVICE_DISCOVERY then
      if input.found then c.(state := DISCONNECTED) else c
    else if c.state == DISCONNECTED then c.(state := CONNECTING)
    else if c.state == CONNECTING then
      if input.connects then c.(state := CONNECTED) else c
    else if c.state == CONNECTED then
      if c.headerIndex < CAMERA_BUF_HEADER_SIZE then c.(headerIndex := c.headerIndex + HeaderReceived(c, input))
      else FrameReady(TakeData(c, input))
    else if c.state == PROCESSING_FRAME && c.bufferIndex == COLOR_IMAGE_SIZE then
      c.(bufferIndex := 0, state := CONNECTED)
    else c
  }

  /** A failed recv drops the connection and clears the buffer, but keeps the write position. */
  function TakeData(c: Client, input: Input): (r: Client)
    requires |c.buffer| == COLOR_IMAGE_SIZE
    ensures |r.buffer| == COLOR_IMAGE_SIZE
  {
    if input.data.None? then c.(state := SERVICE_DISCOVERY, buffer := Zeros(COLOR_IMAGE_SIZE))
    else
      var n := Received(c, input);
      if n == 0 then c
      else c.(buffer := c.buffer[..c.bufferIndex] + input.data.value[..n] + c.buffer[c.bufferIndex + n..],
              bufferIndex := c.bufferIndex + n)
  }

  function FrameReady(c: Client): Client {
    if c.bufferIndex == COLOR_IMAGE_SIZE then c.(bufferIndex := 0, headerIndex := 0, state := c.state + 1)
    else c
  }

  datatype AlgoState = ALGO_INIT | ALGO_RUNNING | ALGO_COMPLETE

  /** How an offered frame was treated. */
  datatype Offer = Scheduled(frame: Frame) | Dropped(frame: Frame)

  /** The statics of PiVisAlgoCtrl.c, with logs of the offers, of finished algorithm jobs and of calls to
      IMGDATATL_sendGrayscaleImage. */
  datatype AlgoContext = AlgoContext(state: AlgoState, inputData: Frame, offers: seq<Offer>, finished: nat,
                                     sendCalls: nat)

  /** All statics of the three files, and logs: `completed` frames as received, and the result of every recv of
      frame data in order. */
  datatype System = System(
    client: Client,
    recBuffer: Frame, recBufferSize: nat,           // PiVisImageProvider.c
    ctrl: AlgoContext,
    completed: seq<Frame>, recvs: seq<Option<seq<Byte>>>,
    overrun: bool)                                  // CLIENT_receive copied from beyond the frame buffer

  const Init := System(
    Client(SERVICE_DISCOVERY, 0, 0, Zeros(COLOR_IMAGE_SIZE)),
    Zeros(COLOR_IMAGE_SIZE), 0, AlgoContext(ALGO_INIT, Zeros(COLOR_IMAGE_SIZE), [], 0, 0), [], [], false)

  /** `early` and `late`: whether the algorithm, running in the pool, completes before the first or between the
      first and second look at its state. */
  datatype Pass = Pass(input: Input, early: bool, late: bool)

  function ClientStep(s: System, input: Input): System
    requires |s.client.buffer| == COLOR_IMAGE_SIZE
  {
    var c := ClientRun(s.client, input);
    s.(client := c,
       completed := if s.client.state == CONNECTED && c.state == PROCESSING_FRAME then s.completed + [c.buffer]
                    else s.completed,
       recvs := if TakesData(s.client) then s.recvs + [HandedOver(s.client, input)] else s.recvs)
  }

  /** The result of a recv of frame data. */
  function HandedOver(c: Client, input: Input): Option<seq<Byte>> {
    if input.data.None? then None else Some(input.data.value[..Received(c, input)])
  }

  function MaybeComplete(a: AlgoContext, completes: bool): AlgoContext {
    if completes && a.state == ALGO_RUNNING then a.(state := ALGO_COMPLETE, finished := a.finished + 1) else a
  }

  /** `run` of PiVisAlgoCtrl.c, given what the image provider holds. */
  function AlgoRun(a: AlgoContext, recBuffer: Frame, recBufferSize: nat, early: bool, late: bool): AlgoContext {
    var a1 := MaybeComplete(a, early);
    var a2 := if a1.state == ALGO_COMPLETE then a1.(sendCalls := a1.sendCalls + 1) else a1;
    if recBufferSize != COLOR_IMAGE_SIZE then MaybeComplete(a2, late)
    else OfferFrame(MaybeComplete(a2.(inputData := recBuffer), late))
  }

  /** Lines 39-49: schedule the frame unless a job is still running on the previous one. */
  function OfferFrame(a: AlgoContext): AlgoContext {
    if a.state != ALGO_RUNNING then a.(state := ALGO_RUNNING, offers := a.offers + [Scheduled(a.inputData)])
    else a.(offers := a.offers + [Dropped(a.inputData)])
  }

  function AlgoStep(s: System, early: bool, late: bool): System {
    s.(ctrl := AlgoRun(s.ctrl, s.recBuffer, s.recBufferSize, early, late))
  }

  /** CLIENT_receive: the client after handing out `bufSize` bytes from its write position on, and how many. */
  function ClientReceive(c: Client, bufSize: nat): (Client, nat) {
    if c.state == PROCESSING_FRAME then (c.(bufferIndex := c.bufferIndex + bufSize), bufSize) else (c, 0)
  }

  /** `run` of the image provider, which calls CLIENT_receive for a whole frame. */
  function ProviderStep(s: System): System {
    var (c, n) := ClientReceive(s.client, COLOR_IMAGE_SIZE);
    if n > 0 && s.client.bufferIndex != 0 then s.(overrun := true)
    else s.(client := c, recBuffer := if n > 0 then s.client.buffer else s.recBuffer, recBufferSize := n)
  }

  function Next(s: System, p: Pass): (r: System)
    requires |s.client.buffer| == COLOR_IMAGE_SIZE
    ensures |r.client.buffer| == COLOR_IMAGE_SIZE
  {
    ProviderStep(AlgoStep(ClientStep(s, p.input), p.early, p.late))
  }

  /** What one registered callback does to these statics. */
  function Perform(s: System, p: Pass, callback: Scheduler.Callback): (r: System)
    requires |s.client.buffer| == COLOR_IMAGE_SIZE
    ensures |r.client.buffer| == COLOR_IMAGE_SIZE
  {
    match callback
    case Client => ClientStep(s, p.input)
    case AlgoCtrl => AlgoStep(s, p.early, p.late)
    case ImageProvider => ProviderStep(s)
    case _ => s
  }

  function PerformAll(s: System, p: Pass, callbacks: seq<Scheduler.Callback>): (r: System)
    requires |s.client.buffer| == COLOR_IMAGE_SIZE
    ensures |r.client.buffer| == COLOR_IMAGE_SIZE
  {
    if callbacks == [] then s
    else Perform(PerformAll(s, p, callbacks[..|callbacks| - 1]), p, callbacks[|callbacks| - 1])
  }

  /** How far a pass has come after `k` of the registered callbacks. */
  function PassUpTo(s: System, p: Pass, k: nat): System
    requires |s.client.buffer| == COLOR_IMAGE_SIZE
  {
    if k == 0 then s
    else if k <= 2 then ClientStep(s, p.input)
    else if k <= 4 then AlgoStep(ClientStep(s, p.input), p.early, p.late)
    else Next(s, p)
  }

  /** In the order of registration a pass is one step of the run. */
  lemma {:induction false} PassInOrder(s: System, p: Pass, k: nat)
    requires |s.client.buffer| == COLOR_IMAGE_SIZE && k <= |Scheduler.RegistrationOrder|
    ensures PerformAll(s, p, Scheduler.RegistrationOrder[..k]) == PassUpTo(s, p, k)
  {
    if k > 0 {
      PassInOrder(s, p, k - 1);
      var order := Scheduler.RegistrationOrder[..k];
      assert order[..k - 1] == Scheduler.RegistrationOrder[..k - 1];
    }
  }

  /** The state after a sequence of passes. */
  function Run(passes: seq<Pass>): (s: System)
    ensures |s.client.buffer| == COLOR_IMAGE_SIZE
  {
    if passes == [] then Init else Next(Run(passes[..|passes| - 1]), passes[|passes| - 1])
  }

  // ----- Invariant between passes -----

  function Offered(offers: seq<Offer>): seq<Frame> {
    seq(|offers|, i requires 0 <= i < |offers| => offers[i].frame)
  }

  /** The frame copied out in this pass and not offered yet. */
  function InHandOver(s: System): seq<Frame> {
    if s.recBufferSize == COLOR_IMAGE_SIZE then [s.recBuffer] else []
  }

  /** The part of a frame received so far. */
  function Partial(s: System): seq<Byte> {
    if s.client.state < PROCESSING_FRAME && s.client.bufferIndex <= |s.client.buffer|
    then s.client.buffer[..s.client.bufferIndex] else []
  }

  function Concat(frames: seq<Frame>): seq<Byte> {
    if frames == [] then [] else Concat(frames[..|frames| - 1]) + frames[|frames| - 1]
  }

  /** All frame data received. */
  function Raw(recvs: seq<Option<seq<Byte>>>): seq<Byte> {
    if recvs == [] then []
    else
      var last := recvs[|recvs| - 1];
      Raw(recvs[..|recvs| - 1]) + (if last.Some? then last.value else [])
  }

  /** The length of the incomplete frame at the end of a stream. */
  function TailLength(stream: seq<Byte>): (n: nat)
    ensures n <= |stream|
  {
    |stream| % COLOR_IMAGE_SIZE
  }

  function BlankLast(stream: seq<Byte>, n: nat): (r: seq<Byte>)
    requires n <= |stream|
    ensures |r| == |stream|
  {
    stream[..|stream| - n] + Zeros(n)
  }

  /** A stream whose last, incomplete frame is overwritten by zeros. */
  function Blank(stream: seq<Byte>): (r: seq<Byte>)
    ensures |r| == |stream|
  {
    BlankLast(stream, TailLength(stream))
  }

  /** The frame data received, where each failing recv blanks the incomplete frame before it. */
  function Stream(recvs: seq<Option<seq<Byte>>>): (r: seq<Byte>)
    ensures |r| == |Raw(recvs)|
  {
    if recvs == [] then []
    else
      var last := recvs[|recvs| - 1];
      var before := Stream(recvs[..|recvs| - 1]);
      if last.Some? then before + last.value else Blank(before)
  }

  /** Every failing recv found nothing but zeros to blank. */
  predicate BlanksNothing(recvs: seq<Option<seq<Byte>>>) {
    recvs == [] ||
    (var front := recvs[..|recvs| - 1];
     BlanksNothing(front) && (recvs[|recvs| - 1].None? ==> Blank(Raw(front)) == Raw(front)))
  }

  function CountScheduled(offers: seq<Offer>): nat {
    if offers == [] then 0
    else CountScheduled(offers[..|offers| - 1]) + (if offers[|offers| - 1].Scheduled? then 1 else 0)
  }

  /** Between passes the client is either receiving with an empty hand-over buffer, or has just handed a frame
      over and waits for the next pass. */
  predicate HandOver(s: System) {
    && |s.client.buffer| == COLOR_IMAGE_SIZE
    && (s.client.state < PROCESSING_FRAME ==> s.client.bufferIndex < COLOR_IMAGE_SIZE && s.recBufferSize == 0)
    && (s.client.state == PROCESSING_FRAME ==>
          s.client.bufferIndex == COLOR_IMAGE_SIZE == s.recBufferSize)
    && s.client.state <= PROCESSING_FRAME
  }

  predicate Accounted(s: System) {
    && s.completed == Offered(s.ctrl.offers) + InHandOver(s)
    && CountScheduled(s.ctrl.offers) == s.ctrl.finished + (if s.ctrl.state == ALGO_RUNNING then 1 else 0)
  }

  /** The completed frames and the partial one are the stream, cut at the image size. */
  predicate Reassembled(s: System) {
    && Stream(s.recvs) == Concat(s.completed) + Partial(s)
    && (forall i :: 0 <= i < |s.completed| ==> IsColorImage(s.completed[i]))
  }

  predicate Inv(s: System) {
    HandOver(s) && Accounted(s) && !s.overrun
  }

  lemma ConcatSnoc(frames: seq<Frame>, frame: Frame)
    ensures Concat(frames + [frame]) == Concat(frames) + frame
  {
    assert (frames + [frame])[..|frames|] == frames;
  }

  lemma CountScheduledSnoc(offers: seq<Offer>, offer: Offer)
    ensures CountScheduled(offers + [offer]) == CountScheduled(offers) + (if offer.Scheduled? then 1 else 0)
  {
    assert (offers + [offer])[..|offers|] == offers;
  }

  /** Between the client and the provider: a frame just completed is the last one, and is not copied out yet. */
  predicate AfterClient(s: System, before: System) {
    && |s.client.buffer| == COLOR_IMAGE_SIZE && s.client.state <= PROCESSING_FRAME
    && (s.client.state < PROCESSING_FRAME ==>
          s.client.bufferIndex < COLOR_IMAGE_SIZE && s.completed == before.completed)
    && (s.client.state == PROCESSING_FRAME ==>
          && before.recBufferSize == 0 && s.client.bufferIndex == 0
          && s.completed == before.completed + [s.client.buffer])
    && s == before.(client := s.client, completed := s.completed, recvs := s.recvs)
  }

  /** Frame data is stored right behind what was received before. */
  lemma DataStored(c: Client, input: Input, done: seq<Byte>, stream: seq<Byte>)
    requires |c.buffer| == COLOR_IMAGE_SIZE && c.bufferIndex < COLOR_IMAGE_SIZE && input.data.Some?
    requires stream == done + c.buffer[..c.bufferIndex]
    ensures var c' := TakeData(c, input);
      && c'.bufferIndex == c.bufferIndex + Received(c, input) <= COLOR_IMAGE_SIZE && c'.state == c.state
      && stream + input.data.value[..Received(c, input)] == done + c'.buffer[..c'.bufferIndex]
  {
    var n := Received(c, input);
    var c' := TakeData(c, input);
    assert c'.buffer[..c'.bufferIndex] == c.buffer[..c.bufferIndex] + input.data.value[..n];
  }

  lemma StreamSnoc(recvs: seq<Option<seq<Byte>>>, last: Option<seq<Byte>>)
    ensures Stream(recvs + [last]) == if last.Some? then Stream(recvs) + last.value else Blank(Stream(recvs))
    ensures Raw(recvs + [last]) == Raw(recvs) + (if last.Some? then last.value else [])
    ensures BlanksNothing(recvs + [last]) <==> BlanksNothing(recvs) && (last.None? ==> Blank(Raw(recvs)) == Raw(recvs))
  {
    assert (recvs + [last])[..|recvs|] == recvs;
  }

  lemma {:induction false} ConcatLength(frames: seq<Frame>)
    requires forall i :: 0 <= i < |frames| ==> IsColorImage(frames[i])
    ensures |Concat(frames)| == |frames| * COLOR_IMAGE_SIZE
  {
    if frames != [] {
      ConcatLength(frames[..|frames| - 1]);
    }
  }

  lemma TailBehind(stream: seq<Byte>, frames: nat, n: nat)
    requires n < COLOR_IMAGE_SIZE && |stream| == frames * COLOR_IMAGE_SIZE + n
    ensures TailLength(stream) == n
  {
    Arithmetic.ModuloOfMultiple(n, frames, COLOR_IMAGE_SIZE);
  }

  lemma BlankLastBehind(done: seq<Byte>, partial: seq<Byte>)
    ensures BlankLast(done + partial, |partial|) == done + Zeros(|partial|)
  {
    assert (done + partial)[..|done|] == done;
  }

  /** Behind complete frames, blanking zeroes exactly the partial one. */
  lemma BlankTail(frames: seq<Frame>, partial: seq<Byte>)
    requires forall i :: 0 <= i < |frames| ==> IsColorImage(frames[i])
    requires |partial| < COLOR_IMAGE_SIZE
    ensures Blank(Concat(frames) + partial) == Concat(frames) + Zeros(|partial|)
  {
    var stream := Concat(frames) + partial;
    ConcatLength(frames);
    TailBehind(stream, |frames|, |partial|);
    BlankLastBehind(Concat(frames), partial);
  }

  lemma ClientAdvances(s: System, input: Input)
    requires Inv(s)
    ensures AfterClient(ClientStep(s, input), s)
  {
  }

  /** A client step keeps the frames and the stream together. */
  lemma ClientReassembles(s: System, input: Input)
    requires HandOver(s) && Reassembled(s)
    ensures Reassembled(ClientStep(s, input))
  {
    if !TakesData(s.client) {
      assert Partial(ClientStep(s, input)) == Partial(s);
    } else if input.data.Some? {
      DataReassembles(s, input);
    } else {
      FailureReassembles(s, input);
    }
  }

  lemma DataReassembles(s: System, input: Input)
    requires HandOver(s) && Reassembled(s) && TakesData(s.client) && input.data.Some?
    ensures Reassembled(ClientStep(s, input))
  {
    var c := TakeData(s.client, input);
    var recvs := s.recvs + [HandedOver(s.client, input)];
    assert Stream(recvs) == Concat(s.completed) + c.buffer[..c.bufferIndex] by {
      StreamSnoc(s.recvs, HandedOver(s.client, input));
      DataStored(s.client, input, Concat(s.completed), Stream(s.recvs));
    }
    assert c.bufferIndex <= COLOR_IMAGE_SIZE && c.state == CONNECTED;
    FrameCompletes(s.(recvs := recvs), c);
  }

  /** `FrameReady` turns a full buffer into a completed frame. */
  lemma FrameCompletes(s: System, c: Client)
    requires |c.buffer| == COLOR_IMAGE_SIZE && c.bufferIndex <= COLOR_IMAGE_SIZE && c.state == CONNECTED
    requires Stream(s.recvs) == Concat(s.completed) + c.buffer[..c.bufferIndex]
    requires forall i :: 0 <= i < |s.completed| ==> IsColorImage(s.completed[i])
    ensures var c' := FrameReady(c);
      Reassembled(s.(client := c', completed :=
        if c'.state == PROCESSING_FRAME then s.completed + [c'.buffer] else s.completed))
  {
    if c.bufferIndex == COLOR_IMAGE_SIZE {
      var completed := s.completed + [c.buffer];
      assert c.buffer[..c.bufferIndex] == c.buffer;
      ConcatSnoc(s.completed, c.buffer);
      assert Stream(s.recvs) == Concat(completed) + [];
      assert Partial(s.(client := FrameReady(c), completed := completed)) == [];
    } else {
      assert Partial(s.(client := c)) == c.buffer[..c.bufferIndex];
    }
  }

  lemma FailureReassembles(s: System, input: Input)
    requires HandOver(s) && Reassembled(s) && TakesData(s.client) && input.data.None?
    ensures Reassembled(ClientStep(s, input))
    ensures Partial(ClientStep(s, input)) == Zeros(|Partial(s)|)
  {
    StreamSnoc(s.recvs, None);
    BlankTail(s.completed, Partial(s));
    assert Zeros(COLOR_IMAGE_SIZE)[..s.client.bufferIndex] == Zeros(s.client.bufferIndex);
  }

  /** The rest of a pass touches neither the frames nor the part of a frame received. */
  lemma RestOfPass(s: System, p: Pass)
    requires |s.client.buffer| == COLOR_IMAGE_SIZE
    ensures var s1, s' := ClientStep(s, p.input), Next(s, p);
      s'.completed == s1.completed && s'.recvs == s1.recvs && Partial(s') == Partial(s1)
  {
  }

  lemma PassReassembles(s: System, p: Pass)
    requires HandOver(s) && Reassembled(s)
    ensures Reassembled(Next(s, p))
  {
    ClientReassembles(s, p.input);
    RestOfPass(s, p);
  }

  lemma OfferedSnoc(offers: seq<Offer>, offer: Offer)
    ensures Offered(offers + [offer]) == Offered(offers) + [offer.frame]
  {
  }

  lemma AlgoOffers(a: AlgoContext, recBuffer: Frame, recBufferSize: nat, early: bool, late: bool)
    requires CountScheduled(a.offers) == a.finished + (if a.state == ALGO_RUNNING then 1 else 0)
    ensures var a' := AlgoRun(a, recBuffer, recBufferSize, early, late);
      && Offered(a'.offers) == Offered(a.offers) + (if recBufferSize == COLOR_IMAGE_SIZE then [recBuffer] else [])
      && CountScheduled(a'.offers) == a'.finished + (if a'.state == ALGO_RUNNING then 1 else 0)
      && (recBufferSize == COLOR_IMAGE_SIZE ==> a'.inputData == recBuffer)
  {
    CountScheduledSnoc(a.offers, Scheduled(recBuffer));
    CountScheduledSnoc(a.offers, Dropped(recBuffer));
    OfferedSnoc(a.offers, Scheduled(recBuffer));
    OfferedSnoc(a.offers, Dropped(recBuffer));
    assert Offered(a.offers) + [] == Offered(a.offers);
  }

  /** Before the provider runs, everything completed has been offered except a frame completed in this pass. */
  predicate BeforeProvider(s: System) {
    && |s.client.buffer| == COLOR_IMAGE_SIZE && s.client.state <= PROCESSING_FRAME && !s.overrun
    && s.client.bufferIndex < COLOR_IMAGE_SIZE
    && (s.client.state < PROCESSING_FRAME ==> s.completed == Offered(s.ctrl.offers))
    && (s.client.state == PROCESSING_FRAME ==>
          s.client.bufferIndex == 0 && s.completed == Offered(s.ctrl.offers) + [s.client.buffer])
    && CountScheduled(s.ctrl.offers) == s.ctrl.finished + (if s.ctrl.state == ALGO_RUNNING then 1 else 0)
  }

  lemma ProviderKeepsInv(s: System)
    requires BeforeProvider(s)
    ensures Inv(ProviderStep(s))
  {
    assert Offered(s.ctrl.offers) + [] == Offered(s.ctrl.offers);
  }

  lemma PassKeepsInv(s: System, p: Pass)
    requires Inv(s)
    ensures Inv(Next(s, p))
  {
    var s1 := ClientStep(s, p.input);
    ClientAdvances(s, p.input);
    AlgoKeepsUp(s, s1, p.early, p.late);
    ProviderKeepsInv(AlgoStep(s1, p.early, p.late));
  }

  lemma AlgoKeepsUp(s: System, s1: System, early: bool, late: bool)
    requires Inv(s) && AfterClient(s1, s)
    ensures BeforeProvider(AlgoStep(s1, early, late))
  {
    var s2 := AlgoStep(s1, early, late);
    AlgoOffers(s1.ctrl, s1.recBuffer, s1.recBufferSize, early, late);
    assert Offered(s2.ctrl.offers) == Offered(s.ctrl.offers) + InHandOver(s) == s.completed;
    assert Partial(s2) == Partial(s1);
  }

  lemma {:induction false} RunKeepsInv(passes: seq<Pass>)
    ensures Inv(Run(passes)) && Reassembled(Run(passes))
  {
    if passes != [] {
      RunKeepsInv(passes[..|passes| - 1]);
      PassKeepsInv(Run(passes[..|passes| - 1]), passes[|passes| - 1]);
      PassReassembles(Run(passes[..|passes| - 1]), passes[|passes| - 1]);
    }
  }

  // ----- Main results -----

  /** Over every run: the frames completed are the frames offered to the algorithm, in order, each offered once,
      plus at most one in the hand-over buffer; and the write position stays within the buffer and is zero
      whenever a frame is copied out. */
  lemma EveryFrameOfferedOnce(passes: seq<Pass>)
    ensures var s := Run(passes);
      && s.completed == Offered(s.ctrl.offers) + InHandOver(s)
      && |s.completed| == |s.ctrl.offers| + |InHandOver(s)| <= |s.ctrl.offers| + 1
      && !s.overrun && s.client.bufferIndex <= COLOR_IMAGE_SIZE
  {
    RunKeepsInv(passes);
  }

  /** A frame complete after one pass is offered whole in the next pass, whatever else happens. */
  lemma OfferedInTheNextPass(passes: seq<Pass>, p: Pass)
    ensures var s := Run(passes);
      var s' := Run(passes + [p]);
      && Offered(s'.ctrl.offers) == s.completed
      && (InHandOver(s) != [] ==> s.completed != [] && s'.ctrl.inputData == s.completed[|s.completed| - 1])
  {
    RunKeepsInv(passes);
    assert (passes + [p])[..|passes|] == passes;
    OffersOfPass(Run(passes), p);
  }

  lemma OffersOfPass(s: System, p: Pass)
    requires Inv(s)
    ensures var s' := Next(s, p);
      && Offered(s'.ctrl.offers) == s.completed
      && (InHandOver(s) != [] ==> s.completed != [] && s'.ctrl.inputData == s.completed[|s.completed| - 1])
  {
    var s1 := ClientStep(s, p.input);
    ClientAdvances(s, p.input);
    AlgoOffers(s1.ctrl, s1.recBuffer, s1.recBufferSize, p.early, p.late);
  }

  /** Reassembly, over every run and for all results of recv: the completed frames followed by the partial one are
      the frame data received, cut every COLOR_IMAGE_SIZE bytes, where a failing recv has replaced the incomplete
      frame before it by zeros of the same length. */
  lemma FramesAreTheStream(passes: seq<Pass>)
    ensures var s := Run(passes);
      && Stream(s.recvs) == Concat(s.completed) + Partial(s)
      && (forall i :: 0 <= i < |s.completed| ==> IsColorImage(s.completed[i]))
      && |Partial(s)| < COLOR_IMAGE_SIZE
  {
    RunKeepsInv(passes);
  }

  /** A byte of the stream is the one received, or has been blanked. */
  lemma {:induction false} StreamOrZero(recvs: seq<Option<seq<Byte>>>)
    ensures Zeroed(Stream(recvs), Raw(recvs))
    ensures Stream(recvs) == Raw(recvs) <==> BlanksNothing(recvs)
  {
    if recvs != [] {
      var front, last := recvs[..|recvs| - 1], recvs[|recvs| - 1];
      StreamOrZero(front);
      assert recvs == front + [last];
      StreamSnoc(front, last);
      if last.Some? {
        AppendKeeps(Stream(front), Raw(front), last.value);
      } else {
        assert Raw(front) + [] == Raw(front);
        BlankKeeps(Stream(front), Raw(front));
      }
    }
  }

  /** `stream` is `raw` with some bytes zeroed. */
  predicate Zeroed(stream: seq<Byte>, raw: seq<Byte>) {
    |stream| == |raw| && forall i :: 0 <= i < |stream| ==> stream[i] == raw[i] || stream[i] == 0
  }

  lemma AppendKeeps(stream: seq<Byte>, raw: seq<Byte>, more: seq<Byte>)
    requires Zeroed(stream, raw)
    ensures Zeroed(stream + more, raw + more)
    ensures stream + more == raw + more <==> stream == raw
  {
    if stream + more == raw + more {
      assert stream == (stream + more)[..|stream|] == (raw + more)[..|raw|] == raw;
    }
  }

  lemma BlankKeeps(stream: seq<Byte>, raw: seq<Byte>)
    requires Zeroed(stream, raw)
    ensures Zeroed(Blank(stream), raw)
    ensures Blank(stream) == raw <==> stream == raw && Blank(raw) == raw
  {
    if stream != raw {
      var i :| 0 <= i < |stream| && stream[i] != raw[i];
      assert Blank(stream)[i] == 0;
    }
  }

  /** The exact condition for the frames to be what was received in place of frame data: every failing recv found only
      zeros in the incomplete frame it blanks.  On a later connection that includes the camera's header; `CameraFeed`
      says when the frames are the camera's. */
  lemma FramesAreTheDataIff(passes: seq<Pass>)
    ensures var s := Run(passes);
      Raw(s.recvs) == Concat(s.completed) + Partial(s) <==> BlanksNothing(s.recvs)
  {
    RunKeepsInv(passes);
    StreamOrZero(Run(passes).recvs);
  }

  /** The same for a single failure: after it the frames are still what was received if and only if the part of a
      frame received so far was all zeros. */
  lemma FailureKeepsDataIff(passes: seq<Pass>, p: Pass)
    requires var s := Run(passes);
      TakesData(s.client) && p.input.data.None? && Raw(s.recvs) == Concat(s.completed) + Partial(s)
    ensures var s, s' := Run(passes), Run(passes + [p]);
      Raw(s'.recvs) == Concat(s'.completed) + Partial(s') <==> Partial(s) == Zeros(s.client.bufferIndex)
  {
    var s := Run(passes);
    RunKeepsInv(passes);
    assert (passes + [p])[..|passes|] == passes;
    FailureOfPass(s, p);
  }

  lemma FailureOfPass(s: System, p: Pass)
    requires HandOver(s) && Reassembled(s) && TakesData(s.client) && p.input.data.None?
    requires Raw(s.recvs) == Concat(s.completed) + Partial(s)
    ensures var s' := Next(s, p);
      Raw(s'.recvs) == Concat(s'.completed) + Partial(s') <==> Partial(s) == Zeros(s.client.bufferIndex)
  {
    FailureReassembles(s, p.input);
    RestOfPass(s, p);
    StreamSnoc(s.recvs, None);
    assert Raw(s.recvs) + [] == Raw(s.recvs);
    SameTail(Concat(s.completed), Partial(s), Zeros(|Partial(s)|));
  }

  lemma SameTail(front: seq<Byte>, x: seq<Byte>, y: seq<Byte>)
    ensures front + x == front + y <==> x == y
  {
    if front + x == front + y {
      assert x == (front + x)[|front|..] == (front + y)[|front|..] == y;
    }
  }

  /** At most one algorithm job is in the thread pool: every frame scheduled but the last has been finished. */
  lemma OneJobAtATime(passes: seq<Pass>)
    ensures var s := Run(passes);
      s.ctrl.finished <= CountScheduled(s.ctrl.offers) <= s.ctrl.finished + 1
  {
    RunKeepsInv(passes);
  }

  // ----- A frame's way, step by step -----

  /** When the client changes its state, and how: 0 is discovery, 3 is connected and 4 a finished frame. */
  lemma ClientMoves(c: Client, input: Input)
    requires |c.buffer| == 921600 && c.bufferIndex <= 921600 && c.state <= 4
    requires c.state == 3 ==> c.bufferIndex < 921600
    ensures var to := ClientRun(c, input).state;
      var filled := input.data.Some? && c.bufferIndex + |input.data.value| >= 921600;
      && (c.state == 0 ==> to == if input.found then 1 else 0)
      && (c.state == 1 ==> to == 2)
      && (c.state == 2 ==> to == if input.connects then 3 else 2)
      && (c.state == 3 && c.headerIndex < 8 ==> to == 3)
      && (c.state == 3 && c.headerIndex >= 8 ==> to == if input.data.None? then 0 else if filled then 4 else 3)
      && (c.state == 4 ==> to == if c.bufferIndex == 921600 then 3 else 4)
  {
  }

  /** What one look of the algorithm control does: a finished result is sent again at every look that finds one, and a
      whole frame is scheduled unless the job before is still running, and dropped otherwise. */
  lemma AlgoLooks(a: AlgoContext, recBuffer: Frame, recBufferSize: nat, early: bool, late: bool)
    ensures var a' := AlgoRun(a, recBuffer, recBufferSize, early, late);
      var running := a.state == ALGO_RUNNING && !early;
      var whole := recBufferSize == 921600;
      && a'.sendCalls == a.sendCalls + (if a.state == ALGO_COMPLETE || (a.state == ALGO_RUNNING && early) then 1 else 0)
      && a'.finished == a.finished + (if a.state == ALGO_RUNNING && (early || late) then 1 else 0)
      && (!whole ==> a'.offers == a.offers && a'.inputData == a.inputData)
      && (whole && running && !late ==> a'.offers == a.offers + [Dropped(recBuffer)])
      && (whole && !(running && !late) ==> a'.offers == a.offers + [Scheduled(recBuffer)])
      && (a'.state == ALGO_RUNNING <==> whole || (running && !late))
  {
  }

  /** From any reachable state at the start of a frame: 8 bytes of header and then the frame complete it, and whatever
      the third pass brings, the frame is offered in it and the client is at the start of the next one. */
  lemma FrameGoesThrough(s: System, p1: Pass, p2: Pass, p3: Pass, frame: Frame)
    requires Inv(s) && s.client.state == 3 && s.client.headerIndex == 0 && s.client.bufferIndex == 0
    requires p1.input.header == Some(8) && p2.input.data == Some(frame) && |frame| == 921600
    ensures var s2 := Next(Next(s, p1), p2);
      var s3 := Next(s2, p3);
      && s2.completed == s.completed + [frame] && s2.recBuffer == frame
      && s3.completed == Offered(s3.ctrl.offers) == s2.completed
      && s3.client == s.client.(buffer := frame)
  {
    var s1 := Next(s, p1);
    PassKeepsInv(s, p1);
    HeaderThrough(s, p1, 8);
    DataThrough(s1, p2, frame);
    var s2 := Next(s1, p2);
    PassKeepsInv(s1, p2);
    PassKeepsInv(s2, p3);
  }

  /** A header of `n` bytes more, up to 8. */
  lemma HeaderThrough(s: System, p: Pass, n: nat)
    requires Inv(s) && s.client.state == 3 && s.client.headerIndex + n <= 8
    requires p.input.header == Some(n) && s.client.headerIndex < 8
    ensures var s' := Next(s, p);
      && s'.client == s.client.(headerIndex := s.client.headerIndex + n)
      && s'.completed == s.completed && s'.recBufferSize == 0
  {
  }

  lemma DataThrough(s: System, p: Pass, frame: Frame)
    requires Inv(s) && s.client.state == 3 && s.client.headerIndex == 8 && s.client.bufferIndex == 0
    requires p.input.data == Some(frame) && |frame| == 921600
    ensures var s' := Next(s, p);
      && s'.client == Client(4, 0, 921600, frame)
      && s'.completed == s.completed + [frame] && s'.recBuffer == frame && s'.recBufferSize == 921600
  {
    assert s.client.buffer[..0] + frame[..921600] + s.client.buffer[921600..] == frame;
  }

  /** As long as a byte of the header is missing, no frame data is taken. */
  lemma HeaderComesFirst(s: System, p: Pass)
    requires Inv(s) && s.client.state == 3 && s.client.headerIndex < 8
    ensures Next(s, p).client.buffer == s.client.buffer && Next(s, p).recvs == s.recvs
    ensures Next(s, p).client.headerIndex <= 8 && Next(s, p).completed == s.completed
  {
  }

  lemma RunSnoc(passes: seq<Pass>, p: Pass)
    ensures Run(passes + [p]) == Next(Run(passes), p)
  {
    assert (passes + [p])[..|passes|] == passes;
  }

  lemma Connects(p0: Pass, p1: Pass, p2: Pass)
    requires p0.input.found && p2.input.connects
    ensures Run([p0, p1, p2]).client == Client(3, 0, 0, Zeros(COLOR_IMAGE_SIZE))
    ensures Run([p0, p1, p2]).completed == []
  {
    RunSnoc([], p0);
    RunSnoc([p0], p1);
    RunSnoc([p0, p1], p2);
    assert [] + [p0] == [p0] && [p0] + [p1] == [p0, p1] && [p0, p1] + [p2] == [p0, p1, p2];
  }

  /** The shortest way from the start to an offered frame: found in the first pass, connected in the third, header,
      frame, offer. */
  lemma FirstFrame(p0: Pass, p1: Pass, p2: Pass, p3: Pass, p4: Pass, p5: Pass, frame: Frame)
    requires p0.input.found && p2.input.connects && |frame| == 921600
    requires p3.input.header == Some(8) && p4.input.data == Some(frame)
    ensures var s := Run([p0, p1, p2, p3, p4, p5]);
      s.completed == [frame] && s.ctrl.offers == [Scheduled(frame)] && s.client == Client(3, 0, 0, frame)
  {
    var start := [p0, p1, p2];
    Connects(p0, p1, p2);
    RunKeepsInv(start);
    FrameGoesThrough(Run(start), p3, p4, p5, frame);
    RunSnoc(start, p3);
    RunSnoc(start + [p3], p4);
    RunSnoc(start + [p3] + [p4], p5);
    assert start + [p3] + [p4] + [p5] == [p0, p1, p2, p3, p4, p5];
    FirstOffer(start + [p3] + [p4], p5);
  }

  /** The first frame of all finds no job running. */
  lemma FirstOffer(passes: seq<Pass>, p: Pass)
    requires |Run(passes).completed| == 1 && InHandOver(Run(passes)) != []
    ensures Next(Run(passes), p).ctrl.offers == [Scheduled(Run(passes).completed[0])]
  {
    var s := Run(passes);
    RunKeepsInv(passes);
    assert Offered(s.ctrl.offers) == [] && s.ctrl.offers == [];
    assert s.completed[0] == s.recBuffer;
    AlgoLooks(s.ctrl, s.recBuffer, s.recBufferSize, p.early, p.late);
  }
}
