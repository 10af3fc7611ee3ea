/** Stop-and-wait flow control between two PiVisionEthTermConnection peers
    (C++/src/pivision_ethtermconnection.cpp:255-322, 336-371), as interleaved steps.

    Each peer has two threads: the event handler, which decides to send data or heartbeats, and `Execute`,
    which takes messages and owes acknowledgements.  A message decided on is put on the wire by a later step,
    so everything in between can interleave.  The two channels are FIFO sequences of whole messages, as
    `Framing` and `EthTermConnections` justify while both connections are active. */
module AckProtocol {
  import opened Bytes
  import opened Framing
  import opened Messages

  datatype Side = Side(
    flags: Flags, isClient: bool, pid: Word,
    handler: seq<Payload>,    // messages the event handler is still about to send
    ackDue: bool,             // `Execute` has raised a message and not yet acknowledged it
    sent: seq<Payload>,       // data accepted for sending, in order
    delivered: seq<Payload>)  // data raised by `Execute`, in order

  datatype Link = Link(a: Side, b: Side, ab: seq<Payload>, ba: seq<Payload>)

  function Swap(l: Link): Link {
    Link(l.b, l.a, l.ba, l.ab)
  }

  function NewSide(isClient: bool, pid: Word): Side {
    Side(InitialFlags, isClient, pid, [], false, [], [])
  }

  function Init(aIsClient: bool, aPid: Word, bPid: Word): Link {
    Link(NewSide(aIsClient, aPid), NewSide(!aIsClient, bPid), [], [])
  }

  datatype Action = NewData(ofClient: bool, data: Payload) | HeartbeatTimeout | Flush | Take | Reply
  datatype Step = Step(byA: bool, action: Action)

  /** One step of side `a`; a step whose guard fails leaves the link alone. */
  function Act(l: Link, action: Action): Link {
    var a := l.a;
    match action
    case NewData(ofClient, data) =>
      if a.handler != [] || !GoesOut(a.flags, ofClient == a.isClient) then l
      else l.(a := a.(flags := OnNewData(a.flags, true), handler := [data], sent := a.sent + [data]))
    case HeartbeatTimeout =>
      if a.handler != [] then l
      else l.(a := a.(flags := OnHeartbeat(a.flags, a.isClient),
                      handler := HeartbeatBurst(a.flags, a.isClient, a.pid)))
    case Flush =>
      if a.handler == [] then l
      else l.(a := a.(handler := a.handler[1..]), ab := l.ab + [a.handler[0]])
    case Take =>
      if a.ackDue || l.ba == [] then l
      else
        var m := l.ba[0];
        var kind := KindOf(m);
        l.(a := a.(flags := OnMessage(a.flags, kind, m, a.pid),
                   ackDue := kind == Data && a.flags.ackEnabled,
                   delivered := a.delivered + (if kind == Data then [m] else [])),
           ba := l.ba[1..])
    case Reply =>
      if !a.ackDue then l else l.(a := a.(ackDue := false), ab := l.ab + [AckBytes])
  }

  function Next(l: Link, step: Step): Link {
    if step.byA then Act(l, step.action) else Swap(Act(Swap(l), step.action))
  }

  function Run(l: Link, steps: seq<Step>): Link {
    if steps == [] then l
    else Next(Run(l, steps[..|steps| - 1]), steps[|steps| - 1])
  }

  // ----- The token -----

  function One(b: bool): nat {
    if b then 1 else 0
  }

  function AckCount(ps: seq<Payload>): nat {
    if ps == [] then 0 else One(KindOf(ps[0]) == Ack) + AckCount(ps[1..])
  }

  lemma {:induction false} AckCountAppend(a: seq<Payload>, b: seq<Payload>)
    ensures AckCount(a + b) == AckCount(a) + AckCount(b)
  {
    if a == [] {
      assert a + b == b;
    } else {
      assert (a + b)[1..] == a[1..] + b;
      AckCountAppend(a[1..], b);
    }
  }

  /** Where the permission to send from `a` to `b` can be: at `a`, in data under way, with `b` while it has not
      acknowledged yet, or in an acknowledgement travelling back. */
  function Token(l: Link): nat {
    One(l.a.flags.receivedAck) + |DataOnly(l.a.handler)| + |DataOnly(l.ab)| + One(l.b.ackDue) + AckCount(l.ba)
  }

  /** The invariant of the direction from `a` to `b`. */
  ghost predicate Dir(l: Link) {
    && l.a.flags.ackEnabled
    && AckCount(l.a.handler) == 0
    && Token(l) == 1
    && l.a.sent == l.b.delivered + DataOnly(l.ab) + DataOnly(l.a.handler)
  }

  ghost predicate Inv(l: Link) {
    Dir(l) && Dir(Swap(l))
  }

  /** Every payload handed to the connection in this step is plain. */
  predicate PlainStep(step: Step) {
    step.action.NewData? ==> Plain(step.action.data)
  }

  lemma Single(p: Payload)
    ensures DataOnly([p]) == (if KindOf(p) == Data then [p] else [])
    ensures AckCount([p]) == One(KindOf(p) == Ack)
  {
    assert [p][1..] == [];
  }

  lemma Unfold(ps: seq<Payload>)
    requires ps != []
    ensures DataOnly(ps) == DataOnly([ps[0]]) + DataOnly(ps[1..])
    ensures AckCount(ps) == AckCount([ps[0]]) + AckCount(ps[1..])
  {
    Single(ps[0]);
  }

  lemma Appended(ps: seq<Payload>, p: Payload)
    ensures DataOnly(ps + [p]) == DataOnly(ps) + DataOnly([p])
    ensures AckCount(ps + [p]) == AckCount(ps) + AckCount([p])
  {
    DataOnlyAppend(ps, [p]);
    AckCountAppend(ps, [p]);
  }

  lemma BurstIsControl(f: Flags, isClient: bool, pid: Word)
    ensures var burst := HeartbeatBurst(f, isClient, pid); DataOnly(burst) == [] && AckCount(burst) == 0
  {
    ControlKinds(pid);
    var burst := HeartbeatBurst(f, isClient, pid);
    Single(burst[0]);
    Unfold(burst);
    if |burst| == 2 {
      assert burst[1..] == [HeartbeatBytes];
      Single(HeartbeatBytes);
    } else {
      assert burst[1..] == [];
    }
  }

  lemma Regroup(d: seq<Payload>, x: seq<Payload>, y: seq<Payload>, z: seq<Payload>)
    ensures d + x + (y + z) == d + (x + y) + z
    ensures d + (x + y) + z == (d + x) + y + z
  {
  }

  /** A step of `a` keeps both directions. */
  lemma ActKeepsInv(l: Link, action: Action)
    requires Inv(l) && (action.NewData? ==> Plain(action.data))
    ensures Inv(Act(l, action))
  {
    match action
    case NewData(ofClient, data) => NewDataKeepsInv(l, ofClient, data);
    case HeartbeatTimeout => BurstIsControl(l.a.flags, l.a.isClient, l.a.pid);
    case Flush =>
      if l.a.handler != [] {
        FlushKeepsInv(l);
      }
    case Take =>
      if l.ba != [] && !l.a.ackDue {
        TakeKeepsOwn(l);
        TakeKeepsPeer(l);
      }
    case Reply =>
      if l.a.ackDue {
        ReplyKeepsInv(l);
      }
  }

  lemma NewDataKeepsInv(l: Link, ofClient: bool, data: Payload)
    requires Inv(l) && Plain(data)
    ensures Inv(Act(l, NewData(ofClient, data)))
  {
    Single(data);
  }

  lemma ReplyKeepsInv(l: Link)
    requires Inv(l) && l.a.ackDue
    ensures Inv(Act(l, Reply))
  {
    ControlKinds(0);
    Appended(l.ab, AckBytes);
    Single(AckBytes);
  }

  lemma FlushKeepsInv(l: Link)
    requires Inv(l) && l.a.handler != []
    ensures Inv(Act(l, Flush))
  {
    var m := l.a.handler[0];
    Unfold(l.a.handler);
    Appended(l.ab, m);
    Regroup(l.b.delivered, DataOnly(l.ab), DataOnly([m]), DataOnly(l.a.handler[1..]));
  }

  /** Taking a message keeps the direction in which `a` sends: an acknowledgement returns its permission. */
  lemma TakeKeepsOwn(l: Link)
    requires Inv(l) && l.ba != [] && !l.a.ackDue
    ensures Dir(Act(l, Take))
  {
    Unfold(l.ba);
    Single(l.ba[0]);
  }

  /** Taking a message keeps the direction in which `a` receives: data becomes an acknowledgement owed. */
  lemma TakeKeepsPeer(l: Link)
    requires Inv(l) && l.ba != [] && !l.a.ackDue
    ensures Dir(Swap(Act(l, Take)))
  {
    var m := l.ba[0];
    Unfold(l.ba);
    Single(m);
    Regroup(l.a.delivered, DataOnly([m]), DataOnly(l.ba[1..]), DataOnly(l.b.handler));
  }

  lemma {:induction false} RunKeepsInv(l: Link, steps: seq<Step>)
    requires Inv(l) && forall i :: 0 <= i < |steps| ==> PlainStep(steps[i])
    ensures Inv(Run(l, steps))
  {
    if steps != [] {
      var before := Run(l, steps[..|steps| - 1]);
      var step := steps[|steps| - 1];
      RunKeepsInv(l, steps[..|steps| - 1]);
      ActKeepsInv(if step.byA then before else Swap(before), step.action);
    }
  }

  // ----- Main results -----

  /** Token conservation: in every reachable state of two peers that are given plain payloads, each direction
      has exactly one permission to send, whatever heartbeats and process ids are interleaved. */
  lemma TokenConserved(aIsClient: bool, aPid: Word, bPid: Word, steps: seq<Step>)
    requires forall i :: 0 <= i < |steps| ==> PlainStep(steps[i])
    ensures var l := Run(Init(aIsClient, aPid, bPid), steps);
      Token(l) == 1 && Token(Swap(l)) == 1
  {
    RunKeepsInv(Init(aIsClient, aPid, bPid), steps);
  }

  /** What `b` has been given is what `a` accepted for sending, in order, less at most the last payload; and
      nothing is missing whenever `a` may send again. */
  lemma DeliveredIsSent(aIsClient: bool, aPid: Word, bPid: Word, steps: seq<Step>)
    requires forall i :: 0 <= i < |steps| ==> PlainStep(steps[i])
    ensures var l := Run(Init(aIsClient, aPid, bPid), steps);
      && l.b.delivered <= l.a.sent && |l.a.sent| <= |l.b.delivered| + 1
      && (l.a.flags.receivedAck ==> l.b.delivered == l.a.sent)
  {
    RunKeepsInv(Init(aIsClient, aPid, bPid), steps);
  }

  /** Peers in different processes never take the short cut that bypasses the wire. */
  lemma {:induction false} DifferentProcessesUseTheWire(aIsClient: bool, aPid: Word, bPid: Word, steps: seq<Step>)
    requires aPid != bPid
    requires forall i :: 0 <= i < |steps| ==> PlainStep(steps[i])
    ensures var l := Run(Init(aIsClient, aPid, bPid), steps);
      Apart(l, aPid, bPid) && Apart(Swap(l), bPid, aPid)
  {
    if steps != [] {
      DifferentProcessesUseTheWire(aIsClient, aPid, bPid, steps[..|steps| - 1]);
      var before := Run(Init(aIsClient, aPid, bPid), steps[..|steps| - 1]);
      var step := steps[|steps| - 1];
      if step.byA {
        ActKeepsApart(before, step.action, aPid, bPid);
      } else {
        ActKeepsApart(Swap(before), step.action, bPid, aPid);
      }
    }
  }

  /** Every process id on its way from `a` is `a`'s own. */
  ghost predicate Apart(l: Link, aPid: Word, bPid: Word) {
    && l.a.pid == aPid && !l.a.flags.inSameProcess
    && (forall m :: m in l.ab && KindOf(m) == Pid ==> PidIn(m) == aPid)
    && (forall m :: m in l.a.handler && KindOf(m) == Pid ==> PidIn(m) == aPid)
  }

  lemma ActKeepsApart(l: Link, action: Action, aPid: Word, bPid: Word)
    requires aPid != bPid && (action.NewData? ==> Plain(action.data))
    requires Apart(l, aPid, bPid) && Apart(Swap(l), bPid, aPid)
    ensures var l' := Act(l, action); Apart(l', aPid, bPid) && Apart(Swap(l'), bPid, aPid)
  {
    ControlKinds(aPid);
    PidRoundTrip(aPid);
    if action.Take? && l.ba != [] {
      assert l.ba[0] in l.ba;
    }
  }

  /** How a server learns where its client is: the first heartbeat timeout of the client brings it the process id. */
  lemma ServerLearnsProcess(aPid: Word, bPid: Word)
    ensures var l := Run(Init(true, aPid, bPid), [Step(true, HeartbeatTimeout), Step(true, Flush), Step(false, Take)]);
      && (l.b.flags.inSameProcess <==> aPid == bPid)
      && l.a.handler == [HeartbeatBytes]
  {
    var s0 := Init(true, aPid, bPid);
    var s1 := Next(s0, Step(true, HeartbeatTimeout));
    var s2 := Next(s1, Step(true, Flush));
    var s3 := Next(s2, Step(false, Take));
    ControlKinds(aPid);
    PidRoundTrip(aPid);
    assert s1.a.handler == [PidBytes(aPid), HeartbeatBytes];
    assert s2.ab == [PidBytes(aPid)] && s2.a.handler == [HeartbeatBytes];
    RunCons(s0, Step(true, HeartbeatTimeout), [Step(true, Flush), Step(false, Take)]);
    RunCons(s1, Step(true, Flush), [Step(false, Take)]);
    RunCons(s2, Step(false, Take), []);
    assert [Step(true, HeartbeatTimeout), Step(true, Flush), Step(false, Take)]
        == [Step(true, HeartbeatTimeout)] + [Step(true, Flush), Step(false, Take)];
    assert [Step(true, Flush), Step(false, Take)] == [Step(true, Flush)] + [Step(false, Take)];
    assert [Step(false, Take)] == [Step(false, Take)] + [];
  }

  // ----- Main results: payloads that are not plain -----

  /** The peer `b` sends only plain payloads in these steps; `a` does whatever it likes. */
  predicate PeerPlain(steps: seq<Step>) {
    forall i :: 0 <= i < |steps| && !steps[i].byA ==> PlainStep(steps[i])
  }

  /** Every process id on its way from `b` is `b`'s own. */
  ghost predicate PeerPids(l: Link, bPid: Word) {
    && l.b.pid == bPid
    && (forall m :: m in l.ba && KindOf(m) == Pid ==> PidIn(m) == bPid)
    && (forall m :: m in l.b.handler && KindOf(m) == Pid ==> PidIn(m) == bPid)
  }

  /** The permission of `a` is nowhere, and nothing can bring it back. */
  ghost predicate Lost(l: Link, aPid: Word, bPid: Word) {
    && Token(l) == 0 && AckCount(l.b.handler) == 0
    && l.a.flags.ackEnabled && !l.a.flags.inSameProcess
    && l.a.pid == aPid && PeerPids(l, bPid)
  }

  /** A step of `a` itself does not bring the permission back. */
  lemma OwnStepKeepsLost(l: Link, action: Action, aPid: Word, bPid: Word)
    requires aPid != bPid && Lost(l, aPid, bPid)
    ensures Lost(Act(l, action), aPid, bPid) && Act(l, action).a.sent == l.a.sent
  {
    match action
    case NewData(_, _) =>
    case HeartbeatTimeout => BurstIsControl(l.a.flags, l.a.isClient, l.a.pid);
    case Flush =>
      if l.a.handler != [] {
        OwnFlushKeepsLost(l, aPid, bPid);
      }
    case Take =>
      if l.ba != [] {
        OwnTakeKeepsLost(l, aPid, bPid);
      }
    case Reply => OwnReplyKeepsLost(l, aPid, bPid);
  }

  lemma OwnFlushKeepsLost(l: Link, aPid: Word, bPid: Word)
    requires Lost(l, aPid, bPid) && l.a.handler != []
    ensures Lost(Act(l, Flush), aPid, bPid)
  {
    Unfold(l.a.handler);
    Appended(l.ab, l.a.handler[0]);
  }

  lemma OwnTakeKeepsLost(l: Link, aPid: Word, bPid: Word)
    requires aPid != bPid && Lost(l, aPid, bPid) && l.ba != []
    ensures Lost(Act(l, Take), aPid, bPid)
  {
    Unfold(l.ba);
    Single(l.ba[0]);
    assert l.ba[0] in l.ba;
  }

  lemma OwnReplyKeepsLost(l: Link, aPid: Word, bPid: Word)
    requires Lost(l, aPid, bPid)
    ensures Lost(Act(l, Reply), aPid, bPid)
  {
    ControlKinds(0);
    Appended(l.ab, AckBytes);
    Single(AckBytes);
  }

  /** Nor does a step of `b`, which owes nothing. */
  lemma PeerStepKeepsLost(l: Link, action: Action, aPid: Word, bPid: Word)
    requires Lost(l, aPid, bPid) && (action.NewData? ==> Plain(action.data))
    ensures var l' := Swap(Act(Swap(l), action)); Lost(l', aPid, bPid) && l'.a.sent == l.a.sent
  {
    match action
    case NewData(_, data) => Single(data);
    case HeartbeatTimeout => PeerHeartbeatKeepsLost(l, aPid, bPid);
    case Flush =>
      if l.b.handler != [] {
        PeerFlushKeepsLost(l, aPid, bPid);
      }
    case Take =>
      if l.ab != [] {
        Unfold(l.ab);
        Single(l.ab[0]);
      }
    case Reply =>
  }

  lemma PeerHeartbeatKeepsLost(l: Link, aPid: Word, bPid: Word)
    requires Lost(l, aPid, bPid)
    ensures Lost(Swap(Act(Swap(l), HeartbeatTimeout)), aPid, bPid)
  {
    BurstIsControl(l.b.flags, l.b.isClient, l.b.pid);
    ControlKinds(bPid);
    PidRoundTrip(bPid);
  }

  lemma PeerFlushKeepsLost(l: Link, aPid: Word, bPid: Word)
    requires Lost(l, aPid, bPid) && l.b.handler != []
    ensures Lost(Swap(Act(Swap(l), Flush)), aPid, bPid)
  {
    var m := l.b.handler[0];
    Unfold(l.b.handler);
    Appended(l.ba, m);
    assert m in l.b.handler;
  }

  lemma {:induction false} RunKeepsLost(l: Link, steps: seq<Step>, aPid: Word, bPid: Word)
    requires aPid != bPid && Lost(l, aPid, bPid) && PeerPlain(steps)
    ensures Lost(Run(l, steps), aPid, bPid) && Run(l, steps).a.sent == l.a.sent
  {
    if steps != [] {
      var before, step := Run(l, steps[..|steps| - 1]), steps[|steps| - 1];
      RunKeepsLost(l, steps[..|steps| - 1], aPid, bPid);
      if step.byA {
        OwnStepKeepsLost(before, step.action, aPid, bPid);
      } else {
        PeerStepKeepsLost(before, step.action, aPid, bPid);
      }
    }
  }

  /** The connection takes this payload for sending now. */
  predicate Accepts(l: Link, ofClient: bool) {
    l.a.handler == [] && GoesOut(l.a.flags, ofClient == l.a.isClient)
  }

  lemma AcceptingLoses(l: Link, ofClient: bool, p: Payload, aPid: Word, bPid: Word)
    requires Inv(l) && Apart(l, aPid, bPid) && Apart(Swap(l), bPid, aPid)
    requires Accepts(l, ofClient) && !Plain(p)
    ensures var l' := Act(l, NewData(ofClient, p)); Lost(l', aPid, bPid) && l'.a.sent == l.a.sent + [p]
  {
    Single(p);
  }

  /** Between different processes: once `a` has accepted a payload that is empty or opens with a control word, it may
      never send again, in any continuation in which its peer sends plain payloads. */
  lemma PermissionLostForever(aIsClient: bool, aPid: Word, bPid: Word, steps: seq<Step>, ofClient: bool, p: Payload,
                              more: seq<Step>)
    requires aPid != bPid && (forall i :: 0 <= i < |steps| ==> PlainStep(steps[i])) && PeerPlain(more)
    requires Accepts(Run(Init(aIsClient, aPid, bPid), steps), ofClient) && !Plain(p)
    ensures var l := Run(Init(aIsClient, aPid, bPid), steps);
      var e := Run(Next(l, Step(true, NewData(ofClient, p))), more);
      Token(e) == 0 && !MaySend(e.a.flags) && e.a.sent == l.a.sent + [p]
  {
    var l := Run(Init(aIsClient, aPid, bPid), steps);
    RunKeepsInv(Init(aIsClient, aPid, bPid), steps);
    DifferentProcessesUseTheWire(aIsClient, aPid, bPid, steps);
    AcceptingLoses(l, ofClient, p, aPid, bPid);
    RunKeepsLost(Act(l, NewData(ofClient, p)), more, aPid, bPid);
  }

  /** How far the permission of `a` has to travel: still with its handler, on the wire, with `b`, on the way back. */
  function Stage(l: Link): nat {
    if l.a.flags.receivedAck then 0
    else if DataOnly(l.a.handler) != [] then 4
    else if DataOnly(l.ab) != [] then 3
    else if l.b.ackDue then 2
    else 1
  }

  /** How many steps that takes at most: messages ahead of it, each flushed or taken, and acknowledgements owed on the
      way. */
  function Potential(l: Link): nat {
    var back := 2 * |l.ba| + One(l.a.ackDue);
    match Stage(l)
    case 4 => 2 * |l.a.handler| + |l.ab| + 3 + back
    case 3 => |l.ab| + 3 + back
    case 2 => 3 + back
    case 1 => back
    case _ => 0
  }

  /** The step that brings the permission closer. */
  function Homeward(l: Link): Step {
    match Stage(l)
    case 4 => Step(true, Flush)
    case 3 => Step(false, Take)
    case 2 => Step(false, Reply)
    case _ => if l.a.ackDue then Step(true, Reply) else Step(true, Take)
  }

  predicate Closer(l': Link, l: Link) {
    Potential(l') < Potential(l)
  }

  lemma HomewardAdvances(l: Link)
    requires Inv(l) && Stage(l) > 0
    ensures Inv(Next(l, Homeward(l))) && Closer(Next(l, Homeward(l)), l)
  {
    var step := Homeward(l);
    ActKeepsInv(if step.byA then l else Swap(l), step.action);
    match Stage(l)
    case 4 => FlushAdvances(l);
    case 3 => PeerTakeAdvances(l);
    case 2 =>
    case _ => if l.a.ackDue { ReplyAdvances(l); } else { TakeAdvances(l); }
  }

  lemma FlushAdvances(l: Link)
    requires Inv(l) && Stage(l) == 4
    ensures Closer(Act(l, Flush), l)
  {
    Unfold(l.a.handler);
  }

  lemma PeerTakeAdvances(l: Link)
    requires Inv(l) && Stage(l) == 3
    ensures Closer(Swap(Act(Swap(l), Take)), l)
  {
    Unfold(l.ab);
    Single(l.ab[0]);
  }

  lemma ReplyAdvances(l: Link)
    requires Inv(l) && Stage(l) == 1 && l.a.ackDue
    ensures Closer(Act(l, Reply), l)
  {
    ControlKinds(0);
    Appended(l.ab, AckBytes);
    Single(AckBytes);
  }

  lemma TakeAdvances(l: Link)
    requires Inv(l) && Stage(l) == 1 && !l.a.ackDue
    ensures Closer(Act(l, Take), l)
  {
    Unfold(l.ba);
    Single(l.ba[0]);
  }

  /** Steps that each bring the permission closer, taken in turn until it is back. */
  predicate HomewardRun(l: Link, steps: seq<Step>)
    decreases |steps|
  {
    steps != [] ==> Stage(l) > 0 && steps[0] == Homeward(l) && HomewardRun(Next(l, steps[0]), steps[1..])
  }

  /** Every such run is bounded by what the state it starts in holds. */
  lemma {:induction false} HomewardBound(l: Link, steps: seq<Step>)
    requires Inv(l) && HomewardRun(l, steps)
    ensures Inv(Run(l, steps)) && |steps| + Potential(Run(l, steps)) <= Potential(l)
    decreases |steps|
  {
    if steps != [] {
      HomewardAdvances(l);
      HomewardBound(Next(l, steps[0]), steps[1..]);
      RunCons(l, steps[0], steps[1..]);
      assert steps == [steps[0]] + steps[1..];
    }
  }

  /** From every state of the law the permission of `a` comes back, by such a run. */
  lemma {:induction false} PermissionCanReturn(l: Link) returns (steps: seq<Step>)
    requires Inv(l)
    ensures HomewardRun(l, steps) && |steps| <= Potential(l)
    ensures PeerPlain(steps) && MaySend(Run(l, steps).a.flags)
    decreases Potential(l)
  {
    if Stage(l) == 0 {
      steps := [];
    } else {
      var step := Homeward(l);
      HomewardAdvances(l);
      var rest := PermissionCanReturn(Next(l, step));
      RunCons(l, step, rest);
      PeerPlainCons(step, rest);
      steps := [step] + rest;
      assert steps[1..] == rest;
    }
  }

  lemma PeerPlainCons(step: Step, rest: seq<Step>)
    requires PeerPlain(rest) && !step.action.NewData?
    ensures PeerPlain([step] + rest)
  {
  }

  lemma {:induction false} RunCons(l: Link, step: Step, rest: seq<Step>)
    ensures Run(l, [step] + rest) == Run(Next(l, step), rest)
    decreases |rest|
  {
    if rest == [] {
      assert ([step] + rest)[..0] == [] && ([step] + rest)[0] == step;
    } else {
      assert ([step] + rest)[..|rest|] == [step] + rest[..|rest| - 1];
      RunCons(l, step, rest[..|rest| - 1]);
    }
  }

  /** The premise on payloads is exact, in every reachable state in which `a` may send: after it accepts `p`, some
      continuation lets it send again if and only if `p` is plain. */
  lemma PermissionReturnsIffPlain(aIsClient: bool, aPid: Word, bPid: Word, steps: seq<Step>, ofClient: bool, p: Payload)
    requires aPid != bPid && forall i :: 0 <= i < |steps| ==> PlainStep(steps[i])
    requires Accepts(Run(Init(aIsClient, aPid, bPid), steps), ofClient)
    ensures var l := Next(Run(Init(aIsClient, aPid, bPid), steps), Step(true, NewData(ofClient, p)));
      (exists more :: PeerPlain(more) && MaySend(Run(l, more).a.flags)) <==> Plain(p)
  {
    var before := Run(Init(aIsClient, aPid, bPid), steps);
    if Plain(p) {
      RunKeepsInv(Init(aIsClient, aPid, bPid), steps);
      ActKeepsInv(before, NewData(ofClient, p));
      var more := PermissionCanReturn(Act(before, NewData(ofClient, p)));
    } else {
      forall more | PeerPlain(more)
        ensures !MaySend(Run(Next(before, Step(true, NewData(ofClient, p))), more).a.flags)
      {
        PermissionLostForever(aIsClient, aPid, bPid, steps, ofClient, p, more);
      }
    }
  }
}
