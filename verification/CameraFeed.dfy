/** Where the frames of the C client come from.  On every connection the camera sends an 8-byte header and a frame, over
    and over (Python/PiVisServer.py `send`, Python/PiVisCamera.py `run`); the client of C/src/PiVisClient.c keeps its
    header and write positions when a recv of frame data fails, and goes on with them on the next connection. */
module CameraFeed {
  import Arithmetic
  import opened Bytes
  import opened FramePipeline
  import opened Images

  /** A header and a frame. */
  const PERIOD := CAMERA_BUF_HEADER_SIZE + COLOR_IMAGE_SIZE

  /** The size of what follows, and the resolution: 640 by 480. */
  const CameraHeader: seq<Byte> := Le32(4 + COLOR_IMAGE_SIZE) + [0x80, 0x02, 0xE0, 0x01]

  /** Frame `k` taken for connection `c`. */
  type Shots = (nat, nat) -> Frame

  ghost predicate Cameras(shots: Shots) {
    forall c: nat, k: nat :: IsColorImage(shots(c, k))
  }

  /** Byte `q` of what the camera sends on connection `c`. */
  function SentByte(shots: Shots, c: nat, q: nat): Byte {
    var k, r := q / PERIOD, q % PERIOD;
    if r < CAMERA_BUF_HEADER_SIZE then CameraHeader[r]
    else if r - CAMERA_BUF_HEADER_SIZE < |shots(c, k)| then shots(c, k)[r - CAMERA_BUF_HEADER_SIZE] else 0
  }

  /** What travels on a connection: for each frame the size of the rest, 921604, and the resolution 640 by 480, all from
      the least byte on, and then the frame. */
  lemma CameraSends(shots: Shots, c: nat, k: nat, j: nat)
    requires Cameras(shots) && j < 8 + 921600
    ensures SentByte(shots, c, k * 921608 + j) ==
            if j < 8 then [0x04, 0x10, 0x0E, 0x00, 0x80, 0x02, 0xE0, 0x01][j] else shots(c, k)[j - 8]
  {
    Arithmetic.ModuloOfMultiple(j, k, PERIOD);
    assert IsColorImage(shots(c, k));
    assert Le32(921604) == [0x04, 0x10, 0x0E, 0x00];
  }

  /** Where a completed frame came from: the `index`-th on connection `conn`, read `shift` bytes early. */
  datatype Origin = Origin(conn: nat, shift: nat, index: nat)

  function SeenByte(shots: Shots, o: Origin, i: nat): Byte {
    var q := o.index * PERIOD + CAMERA_BUF_HEADER_SIZE + i - o.shift;
    if q < 0 then 0 else SentByte(shots, o.conn, q)
  }

  /** What the client takes for that frame. */
  function Seen(shots: Shots, o: Origin): Frame {
    seq(COLOR_IMAGE_SIZE, i requires 0 <= i < COLOR_IMAGE_SIZE => SeenByte(shots, o, i))
  }

  /** The pipeline and its camera: the connection, the bytes taken on it, the positions the client brought to it, the
      frames completed on it, whether a recv of frame data has failed yet, and how many frames were complete then. */
  datatype Feed = Feed(sys: System, conn: nat, pos: nat, shift: nat, index: nat, lost: bool, clean: nat,
                       origins: seq<Origin>)

  const Start := Feed(FramePipeline.Init, 0, 0, 0, 0, false, 0, [])

  /** One pass: how many bytes of header or frame data recv is willing to hand over; None is a failed recv. */
  datatype Step = Step(found: bool, connects: bool, header: Option<nat>, data: Option<nat>, early: bool, late: bool)

  function Room(c: Client, n: nat): nat {
    if c.bufferIndex <= COLOR_IMAGE_SIZE then Min(n, COLOR_IMAGE_SIZE - c.bufferIndex) else 0
  }

  function DataOf(shots: Shots, f: Feed, n: nat): seq<Byte> {
    seq<Byte>(Room(f.sys.client, n), i requires 0 <= i => SentByte(shots, f.conn, f.pos + i))
  }

  function PassOf(shots: Shots, f: Feed, step: Step): Pass {
    var data := if step.data.Some? then Some(DataOf(shots, f, step.data.value)) else None;
    Pass(Input(step.found, step.connects, step.header, data), step.early, step.late)
  }

  function Next(shots: Shots, f: Feed, step: Step): (r: Feed)
    requires |f.sys.client.buffer| == COLOR_IMAGE_SIZE
    ensures |r.sys.client.buffer| == COLOR_IMAGE_SIZE
  {
    var c := f.sys.client;
    var p := PassOf(shots, f, step);
    var g := f.(sys := FramePipeline.Next(f.sys, p));
    if c.state == CONNECTING && step.connects then
      g.(conn := f.conn + 1, pos := 0, shift := c.headerIndex + c.bufferIndex, index := 0)
    else if c.state == CONNECTED && c.headerIndex < CAMERA_BUF_HEADER_SIZE then
      g.(pos := f.pos + HeaderReceived(c, p.input))
    else if !TakesData(c) then g
    else if step.data.None? then g.(lost := true)
    else if c.bufferIndex + Room(c, step.data.value) < COLOR_IMAGE_SIZE then
      g.(pos := f.pos + Room(c, step.data.value))
    else
      g.(pos := f.pos + Room(c, step.data.value), index := f.index + 1,
         clean := if f.lost then f.clean else f.clean + 1,
         origins := f.origins + [Origin(f.conn, f.shift, f.index)])
  }

  function Run(shots: Shots, steps: seq<Step>): (f: Feed)
    ensures |f.sys.client.buffer| == COLOR_IMAGE_SIZE
  {
    if steps == [] then Start else Next(shots, Run(shots, steps[..|steps| - 1]), steps[|steps| - 1])
  }

  // ----- Invariant between passes -----

  /** The client's positions account for the bytes taken on the connection, and its buffer holds them. */
  predicate Located(shots: Shots, f: Feed) {
    var c := f.sys.client;
    && |c.buffer| == COLOR_IMAGE_SIZE
    && c.headerIndex <= CAMERA_BUF_HEADER_SIZE && (c.state == CONNECTED ==> c.bufferIndex < COLOR_IMAGE_SIZE)
    && (c.state == CONNECTED ==>
          && f.pos + f.shift == f.index * PERIOD + c.headerIndex + c.bufferIndex
          && (c.bufferIndex > 0 ==> c.headerIndex == CAMERA_BUF_HEADER_SIZE)
          && forall i :: 0 <= i < c.bufferIndex ==>
               c.buffer[i] == SeenByte(shots, Origin(f.conn, f.shift, f.index), i))
    && (c.state == PROCESSING_FRAME ==> f.pos + f.shift == f.index * PERIOD && c.headerIndex == 0)
  }

  /** Off the network the client holds nothing, or after a loss a whole header and a blanked piece of a frame. */
  predicate Disconnected(f: Feed) {
    var c := f.sys.client;
    c.state < CONNECTED ==>
      && c.bufferIndex < COLOR_IMAGE_SIZE <= |c.buffer|
      && c.headerIndex == (if f.lost then CAMERA_BUF_HEADER_SIZE else 0)
      && (!f.lost ==> c.bufferIndex == 0 && f.conn == 0 && f.origins == [])
      && forall i :: 0 <= i < c.bufferIndex ==> c.buffer[i] == 0
  }

  /** A connection begins in step exactly when nothing has been lost before. */
  predicate Shifted(f: Feed) {
    f.sys.client.state >= CONNECTED ==>
      if f.lost then CAMERA_BUF_HEADER_SIZE <= f.shift < PERIOD
      else f.shift == 0 && f.conn == 1 && f.index == |f.origins|
  }

  /** The frames completed before the first loss are the first ones of the first connection; the rest are shifted. */
  predicate Traced(f: Feed) {
    && f.clean <= |f.origins| && (!f.lost ==> f.clean == |f.origins|)
    && (forall j :: 0 <= j < f.clean ==> f.origins[j] == Origin(1, 0, j))
    && (forall j :: f.clean <= j < |f.origins| ==> CAMERA_BUF_HEADER_SIZE <= f.origins[j].shift < PERIOD)
  }

  predicate Recorded(shots: Shots, f: Feed) {
    && |f.sys.completed| == |f.origins|
    && forall j :: 0 <= j < |f.origins| ==> f.sys.completed[j] == Seen(shots, f.origins[j])
  }

  predicate FeedInv(shots: Shots, f: Feed) {
    && FramePipeline.Inv(f.sys) && Located(shots, f) && Disconnected(f) && Shifted(f) && Traced(f)
    && Recorded(shots, f)
  }

  /** The stages behind the client change its write position only, and only when a frame is complete. */
  lemma RestKeepsClient(s: System, p: Pass)
    requires FramePipeline.Inv(s)
    ensures var c, c' := ClientStep(s, p.input).client, FramePipeline.Next(s, p).client;
      && c'.state == c.state && c'.headerIndex == c.headerIndex && c'.buffer == c.buffer
      && (c.state < PROCESSING_FRAME ==> c' == c)
      && FramePipeline.Next(s, p).completed == ClientStep(s, p.input).completed
      && FramePipeline.Inv(FramePipeline.Next(s, p))
  {
    ClientAdvances(s, p.input);
    PassKeepsInv(s, p);
  }

  lemma OtherStep(shots: Shots, f: Feed, step: Step)
    requires FeedInv(shots, f) && !TakesData(f.sys.client)
    ensures FeedInv(shots, Next(shots, f, step))
  {
    var c := f.sys.client;
    if c.state == CONNECTED {
      HeaderStep(shots, f, step);
    } else if c.state == PROCESSING_FRAME {
      ReleaseStep(shots, f, step);
    } else {
      RestKeepsClient(f.sys, PassOf(shots, f, step));
    }
  }

  lemma HeaderStep(shots: Shots, f: Feed, step: Step)
    requires FeedInv(shots, f) && f.sys.client.state == CONNECTED && !TakesData(f.sys.client)
    ensures FeedInv(shots, Next(shots, f, step))
  {
    RestKeepsClient(f.sys, PassOf(shots, f, step));
  }

  lemma ReleaseStep(shots: Shots, f: Feed, step: Step)
    requires FeedInv(shots, f) && f.sys.client.state == PROCESSING_FRAME
    ensures FeedInv(shots, Next(shots, f, step))
  {
    RestKeepsClient(f.sys, PassOf(shots, f, step));
  }

  lemma LossStep(shots: Shots, f: Feed, step: Step)
    requires FeedInv(shots, f) && TakesData(f.sys.client) && step.data.None?
    ensures FeedInv(shots, Next(shots, f, step))
  {
    RestKeepsClient(f.sys, PassOf(shots, f, step));
  }

  /** The client's buffer with `n` more bytes, as far as there is room. */
  function Filled(shots: Shots, f: Feed, n: nat): seq<Byte>
    requires |f.sys.client.buffer| == COLOR_IMAGE_SIZE && f.sys.client.bufferIndex < COLOR_IMAGE_SIZE
  {
    var c := f.sys.client;
    c.buffer[..c.bufferIndex] + DataOf(shots, f, n) + c.buffer[c.bufferIndex + Room(c, n)..]
  }

  /** Frame data lands where the bytes of the frame belong. */
  lemma DataLands(shots: Shots, f: Feed, n: nat)
    requires Located(shots, f) && TakesData(f.sys.client)
    ensures var c := f.sys.client;
      var m := Room(c, n);
      var b := Filled(shots, f, n);
      && |b| == COLOR_IMAGE_SIZE
      && forall i :: 0 <= i < c.bufferIndex + m ==> b[i] == SeenByte(shots, Origin(f.conn, f.shift, f.index), i)
  {
    var c := f.sys.client;
    var m := Room(c, n);
    var o := Origin(f.conn, f.shift, f.index);
    var data := DataOf(shots, f, n);
    forall i | c.bufferIndex <= i < c.bufferIndex + m
      ensures data[i - c.bufferIndex] == SeenByte(shots, o, i)
    {
      assert o.index * PERIOD + CAMERA_BUF_HEADER_SIZE + i - o.shift == f.pos + (i - c.bufferIndex);
    }
  }

  lemma DataFills(shots: Shots, f: Feed, step: Step)
    requires FeedInv(shots, f) && TakesData(f.sys.client) && step.data.Some?
    ensures var c := f.sys.client;
      var n := step.data.value;
      var b := Filled(shots, f, n);
      var s := ClientStep(f.sys, PassOf(shots, f, step).input);
      && s.client == (if c.bufferIndex + Room(c, n) < COLOR_IMAGE_SIZE
                      then c.(buffer := b, bufferIndex := c.bufferIndex + Room(c, n))
                      else c.(buffer := b, bufferIndex := 0, headerIndex := 0, state := PROCESSING_FRAME))
      && s.completed == f.sys.completed + (if c.bufferIndex + Room(c, n) < COLOR_IMAGE_SIZE then [] else [b])
  {
    var c := f.sys.client;
    var input := PassOf(shots, f, step).input;
    var m := Room(c, step.data.value);
    var data := DataOf(shots, f, step.data.value);
    assert Received(c, input) == m && data[..m] == data;
    assert m == 0 ==> Filled(shots, f, step.data.value) == c.buffer;
  }

  lemma DataStep(shots: Shots, f: Feed, step: Step)
    requires FeedInv(shots, f) && TakesData(f.sys.client) && step.data.Some?
    ensures FeedInv(shots, Next(shots, f, step))
  {
    var c := f.sys.client;
    if c.bufferIndex + Room(c, step.data.value) == COLOR_IMAGE_SIZE {
      FrameStep(shots, f, step);
    } else {
      PieceStep(shots, f, step);
    }
  }

  lemma PieceStep(shots: Shots, f: Feed, step: Step)
    requires FeedInv(shots, f) && TakesData(f.sys.client) && step.data.Some?
    requires f.sys.client.bufferIndex + Room(f.sys.client, step.data.value) < COLOR_IMAGE_SIZE
    ensures FeedInv(shots, Next(shots, f, step))
  {
    RestKeepsClient(f.sys, PassOf(shots, f, step));
    DataFills(shots, f, step);
    DataLands(shots, f, step.data.value);
    assert f.sys.completed + [] == f.sys.completed;
  }

  lemma FrameStep(shots: Shots, f: Feed, step: Step)
    requires FeedInv(shots, f) && TakesData(f.sys.client) && step.data.Some?
    requires f.sys.client.bufferIndex + Room(f.sys.client, step.data.value) == COLOR_IMAGE_SIZE
    ensures FeedInv(shots, Next(shots, f, step))
  {
    RestKeepsClient(f.sys, PassOf(shots, f, step));
    DataFills(shots, f, step);
    DataLands(shots, f, step.data.value);
    assert Filled(shots, f, step.data.value) == Seen(shots, Origin(f.conn, f.shift, f.index));
  }

  lemma StepKeepsInv(shots: Shots, f: Feed, step: Step)
    requires FeedInv(shots, f)
    ensures FeedInv(shots, Next(shots, f, step))
  {
    if !TakesData(f.sys.client) {
      OtherStep(shots, f, step);
    } else if step.data.None? {
      LossStep(shots, f, step);
    } else {
      DataStep(shots, f, step);
    }
  }

  lemma {:induction false} RunKeepsInv(shots: Shots, steps: seq<Step>)
    ensures FeedInv(shots, Run(shots, steps))
  {
    if steps != [] {
      RunKeepsInv(shots, steps[..|steps| - 1]);
      StepKeepsInv(shots, Run(shots, steps[..|steps| - 1]), steps[|steps| - 1]);
    }
  }

  // ----- The bytes do not steer -----

  /** Everything but the bytes themselves. */
  datatype Shape = Shape(state: nat, headerIndex: nat, bufferIndex: nat, conn: nat, pos: nat, shift: nat, index: nat,
                         lost: bool, clean: nat, origins: seq<Origin>)

  function ShapeOf(f: Feed): Shape {
    var c := f.sys.client;
    Shape(c.state, c.headerIndex, c.bufferIndex, f.conn, f.pos, f.shift, f.index, f.lost, f.clean, f.origins)
  }

  predicate SameControl(c: Client, d: Client) {
    c.state == d.state && c.headerIndex == d.headerIndex && c.bufferIndex == d.bufferIndex
  }

  predicate SameLengths(x: Input, y: Input) {
    && x.found == y.found && x.connects == y.connects && x.header == y.header
    && (x.data.Some? <==> y.data.Some?) && (x.data.Some? ==> |x.data.value| == |y.data.value|)
  }

  lemma ClientControl(c: Client, d: Client, x: Input, y: Input)
    requires SameControl(c, d) && SameLengths(x, y)
    requires |c.buffer| == COLOR_IMAGE_SIZE && |d.buffer| == COLOR_IMAGE_SIZE
    ensures SameControl(ClientRun(c, x), ClientRun(d, y))
  {
  }

  lemma PassControl(s: System, t: System, p: Pass, q: Pass)
    requires SameControl(s.client, t.client) && SameLengths(p.input, q.input)
    requires |s.client.buffer| == COLOR_IMAGE_SIZE && |t.client.buffer| == COLOR_IMAGE_SIZE
    ensures SameControl(FramePipeline.Next(s, p).client, FramePipeline.Next(t, q).client)
  {
    ClientControl(s.client, t.client, p.input, q.input);
    ProviderControl(AlgoStep(ClientStep(s, p.input), p.early, p.late),
                    AlgoStep(ClientStep(t, q.input), q.early, q.late));
  }

  lemma ProviderControl(s: System, t: System)
    requires SameControl(s.client, t.client)
    ensures SameControl(ProviderStep(s).client, ProviderStep(t).client)
  {
  }

  lemma StepShape(shots: Shots, others: Shots, f: Feed, g: Feed, step: Step)
    requires ShapeOf(f) == ShapeOf(g)
    requires |f.sys.client.buffer| == COLOR_IMAGE_SIZE && |g.sys.client.buffer| == COLOR_IMAGE_SIZE
    ensures ShapeOf(Next(shots, f, step)) == ShapeOf(Next(others, g, step))
  {
    PassControl(f.sys, g.sys, PassOf(shots, f, step), PassOf(others, g, step));
  }

  lemma {:induction false} RunShape(shots: Shots, others: Shots, steps: seq<Step>)
    ensures ShapeOf(Run(shots, steps)) == ShapeOf(Run(others, steps))
  {
    if steps != [] {
      RunShape(shots, others, steps[..|steps| - 1]);
      StepShape(shots, others, Run(shots, steps[..|steps| - 1]), Run(others, steps[..|steps| - 1]), steps[|steps| - 1]);
    }
  }

  // ----- Main results -----

  lemma InStepIsShot(shots: Shots, o: Origin)
    requires Cameras(shots) && o.shift == 0
    ensures Seen(shots, o) == shots(o.conn, o.index)
  {
    assert IsColorImage(shots(o.conn, o.index));
    forall i | 0 <= i < COLOR_IMAGE_SIZE ensures SeenByte(shots, o, i) == shots(o.conn, o.index)[i] {
      var q := o.index * PERIOD + CAMERA_BUF_HEADER_SIZE + i;
      Arithmetic.ModuloOfMultiple(CAMERA_BUF_HEADER_SIZE + i, o.index, PERIOD);
      assert q % PERIOD == CAMERA_BUF_HEADER_SIZE + i && q / PERIOD == o.index;
    }
  }

  /** Every frame completed in any run, whatever recv returns: the ones before the first loss are the camera's, in order
      from the first; a later one is what lies `shift` bytes before its place, with zeros for what was blanked. */
  lemma FramesOfCamera(shots: Shots, steps: seq<Step>)
    requires Cameras(shots)
    ensures var f := Run(shots, steps);
      && |f.sys.completed| == |f.origins| && f.clean <= |f.origins|
      && (forall j :: 0 <= j < f.clean ==> f.sys.completed[j] == shots(1, j))
      && (forall j :: f.clean <= j < |f.origins| ==>
            f.sys.completed[j] == Seen(shots, f.origins[j]) && CAMERA_BUF_HEADER_SIZE <= f.origins[j].shift < PERIOD)
  {
    RunKeepsInv(shots, steps);
    var f := Run(shots, steps);
    forall j | 0 <= j < f.clean ensures f.sys.completed[j] == shots(1, j) {
      InStepIsShot(shots, f.origins[j]);
    }
  }

  /** The frame is one of those the camera took for this connection. */
  ghost predicate IsShot(shots: Shots, c: nat, frame: Frame) {
    exists k: nat :: frame == shots(c, k)
  }

  function Gray7(c: nat, k: nat): Frame {
    seq(COLOR_IMAGE_SIZE, _ => 7)
  }

  /** Read out of step, every frame has a header in it. */
  lemma ShiftedHasHeader(o: Origin)
    requires CAMERA_BUF_HEADER_SIZE <= o.shift < PERIOD
    ensures !IsShot(Gray7, o.conn, Seen(Gray7, o))
  {
    var i := o.shift - CAMERA_BUF_HEADER_SIZE;
    Arithmetic.ModuloOfMultiple(0, o.index, PERIOD);
    assert o.index * PERIOD % PERIOD == 0;
    assert SeenByte(Gray7, o, i) == CameraHeader[0] == 0x04;
    forall k: nat ensures Seen(Gray7, o) != Gray7(o.conn, k) {
      assert Seen(Gray7, o)[i] != Gray7(o.conn, k)[i];
    }
  }

  /** Every completed frame is one that the camera took for the connection it came on. */
  ghost predicate AllShots(shots: Shots, f: Feed) {
    |f.sys.completed| == |f.origins| &&
    forall j :: 0 <= j < |f.origins| ==> IsShot(shots, f.origins[j].conn, f.sys.completed[j])
  }

  /** The exact condition: whatever the cameras take, every completed frame is a camera's frame, if and only if no frame
      is completed after a failed recv of frame data.  The condition does not depend on the bytes. */
  lemma AllShotsIffNoneAfterLoss(any: Shots, steps: seq<Step>)
    ensures (forall shots: Shots :: Cameras(shots) ==> AllShots(shots, Run(shots, steps)))
            <==> Run(any, steps).clean == |Run(any, steps).origins|
  {
    if Run(any, steps).clean == |Run(any, steps).origins| {
      forall shots: Shots | Cameras(shots) ensures AllShots(shots, Run(shots, steps)) {
        RunShape(shots, any, steps);
        FramesOfCamera(shots, steps);
        RunKeepsInv(shots, steps);
      }
    } else {
      LossShows(any, steps);
    }
  }

  lemma LossShows(any: Shots, steps: seq<Step>)
    requires Run(any, steps).clean != |Run(any, steps).origins|
    ensures Cameras(Gray7) && !AllShots(Gray7, Run(Gray7, steps))
  {
    RunShape(Gray7, any, steps);
    RunKeepsInv(Gray7, steps);
    var f := Run(Gray7, steps);
    ShiftedHasHeader(f.origins[f.clean]);
  }
}
