/** The heartbeat timer of every PiVisionEthTermConnection and the rendezvous in its destructor
    (C++/src/pivision_ethtermconnection.cpp:64-83, 358-380), over any number of connections.

    A heartbeat timeout is broadcast: every subscribed connection whose socket descriptor matches the id in
    the event handles it.  The descriptor is all the event carries; `owner` is who armed the timer and only
    serves to state the results.  Spurious wake-ups are not part of this model. */
module HeartbeatChain {

  /** Where `~PiVisionEthTermConnection` stands relative to its wait on `lastExecNotification`. */
  datatype Destructor = NotBegun | Waiting | Woken | Passed

  datatype Conn = Conn(fd: int, active: bool, lastHeartbeatReceived: bool, destructor: Destructor)

  datatype Timer = Timer(fd: int, owner: nat)

  datatype System = System(conns: seq<Conn>, timers: seq<Timer>)

  datatype Step =
    | Open(fd: int)          // the constructor: subscribe and arm the first timer
    | Deactivate(c: nat)     // stop event, lost peer or failed send
    | Destroy(c: nat)        // the destructor up to its wait
    | Fire(i: nat)           // a pending timer expires
    | Resume(c: nat)         // a notified destructor returns from its wait and unsubscribes

  predicate Handles(conn: Conn, fd: int) {
    conn.fd == fd && conn.destructor != Passed
  }

  /** `HandleEvent` of one connection: a live one re-arms, a dead one signals its destructor. */
  function OnTimeout(conn: Conn, fd: int): Conn {
    if !Handles(conn, fd) || conn.active then conn
    else conn.(lastHeartbeatReceived := true,
               destructor := if conn.destructor == Waiting then Woken else conn.destructor)
  }

  /** The timers raised again by the connections at `from` and after. */
  function Rearmed(conns: seq<Conn>, fd: int, from: nat): seq<Timer>
    requires from <= |conns|
    decreases |conns| - from
  {
    if from == |conns| then []
    else if Handles(conns[from], fd) && conns[from].active then [Timer(fd, from)] + Rearmed(conns, fd, from + 1)
    else Rearmed(conns, fd, from + 1)
  }

  function Next(s: System, step: Step): System {
    match step
    case Open(fd) =>
      System(s.conns + [Conn(fd, true, false, NotBegun)], s.timers + [Timer(fd, |s.conns|)])
    case Deactivate(c) =>
      if c >= |s.conns| then s else s.(conns := s.conns[c := s.conns[c].(active := false)])
    case Destroy(c) =>
      if c >= |s.conns| || s.conns[c].destructor != NotBegun then s
      else s.(conns := s.conns[c := s.conns[c].(
                destructor := if s.conns[c].lastHeartbeatReceived then Passed else Waiting)])
    case Fire(i) =>
      if i >= |s.timers| then s
      else
        var fd := s.timers[i].fd;
        System(seq(|s.conns|, c requires 0 <= c < |s.conns| => OnTimeout(s.conns[c], fd)),
               s.timers[..i] + s.timers[i + 1..] + Rearmed(s.conns, fd, 0))
    case Resume(c) =>
      if c >= |s.conns| || s.conns[c].destructor != Woken then s
      else s.(conns := s.conns[c := s.conns[c].(destructor := Passed)])
  }

  function Run(s: System, steps: seq<Step>): System {
    if steps == [] then s
    else Next(Run(s, steps[..|steps| - 1]), steps[|steps| - 1])
  }

  /** No connection that still waits for its last heartbeat uses this descriptor. */
  predicate Unused(s: System, fd: int) {
    forall c :: 0 <= c < |s.conns| && !s.conns[c].lastHeartbeatReceived ==> s.conns[c].fd != fd
  }

  /** Every connection in the run is opened on a descriptor unused at that moment. */
  predicate DistinctFds(s: System, steps: seq<Step>) {
    forall i :: 0 <= i < |steps| && steps[i].Open? ==> Unused(Run(s, steps[..i]), steps[i].fd)
  }

  // ----- Invariant -----

  function Pending(timers: seq<Timer>, c: nat): nat {
    if timers == [] then 0 else (if timers[0].owner == c then 1 else 0) + Pending(timers[1..], c)
  }

  lemma {:induction false} PendingAppend(a: seq<Timer>, b: seq<Timer>, c: nat)
    ensures Pending(a + b, c) == Pending(a, c) + Pending(b, c)
  {
    if a == [] {
      assert a + b == b;
    } else {
      assert (a + b)[1..] == a[1..] + b;
      PendingAppend(a[1..], b, c);
    }
  }

  lemma PendingSplit(timers: seq<Timer>, i: nat, c: nat)
    requires i < |timers|
    ensures Pending(timers, c)
         == Pending(timers[..i], c) + (if timers[i].owner == c then 1 else 0) + Pending(timers[i + 1..], c)
  {
    var front, back := timers[..i], timers[i..];
    assert timers == front + back;
    PendingAppend(front, back, c);
    assert back[1..] == timers[i + 1..] && back[0] == timers[i];
  }

  lemma PendingRemove(timers: seq<Timer>, i: nat, more: seq<Timer>, c: nat)
    requires i < |timers|
    ensures Pending(timers[..i] + timers[i + 1..] + more, c) + (if timers[i].owner == c then 1 else 0)
         == Pending(timers, c) + Pending(more, c)
  {
    var front, back := timers[..i], timers[i + 1..];
    PendingAppend(front + back, more, c);
    PendingAppend(front, back, c);
    PendingSplit(timers, i, c);
  }

  /** One timer for each connection, until its last heartbeat has been received. */
  predicate Law(s: System) {
    forall c :: 0 <= c < |s.conns| ==>
      Pending(s.timers, c) + (if s.conns[c].lastHeartbeatReceived then 1 else 0) == 1
  }

  predicate ConnOk(conn: Conn) {
    && (conn.lastHeartbeatReceived ==> !conn.active)
    && (conn.destructor == Waiting ==> !conn.lastHeartbeatReceived)
    && (conn.destructor in {Woken, Passed} ==> conn.lastHeartbeatReceived)
  }

  /** Two connections that both wait for their last heartbeat on the same descriptor. */
  predicate Clash(x: Conn, y: Conn) {
    !x.lastHeartbeatReceived && !y.lastHeartbeatReceived && x.fd == y.fd
  }

  ghost predicate Inv(s: System) {
    && Law(s)
    && (forall c :: 0 <= c < |s.conns| ==> ConnOk(s.conns[c]))
    && (forall i :: 0 <= i < |s.timers| ==>
          s.timers[i].owner < |s.conns| && s.timers[i].fd == s.conns[s.timers[i].owner].fd)
    && (forall c, d :: 0 <= c < d < |s.conns| ==> !Clash(s.conns[c], s.conns[d]))
  }

  lemma {:induction false} PendingAtLeast(timers: seq<Timer>, i: nat)
    requires i < |timers|
    ensures Pending(timers, timers[i].owner) >= 1
  {
    if i > 0 {
      PendingAtLeast(timers[1..], i - 1);
    }
  }

  lemma {:induction false} PendingWitness(timers: seq<Timer>, c: nat) returns (i: nat)
    requires Pending(timers, c) >= 1
    ensures i < |timers| && timers[i].owner == c
  {
    if timers[0].owner == c {
      i := 0;
    } else {
      i := PendingWitness(timers[1..], c);
      i := i + 1;
    }
  }

  lemma {:induction false} PendingNone(timers: seq<Timer>, c: nat)
    requires forall i :: 0 <= i < |timers| ==> timers[i].owner != c
    ensures Pending(timers, c) == 0
  {
    if timers != [] {
      PendingNone(timers[1..], c);
    }
  }

  /** With at most one live connection on the descriptor, at most that one re-arms. */
  lemma {:induction false} RearmedByOwner(conns: seq<Conn>, fd: int, from: nat, o: nat)
    requires from <= |conns| && o < |conns|
    requires forall c :: 0 <= c < |conns| && c != o && conns[c].fd == fd ==> !conns[c].active
    ensures Rearmed(conns, fd, from) ==
      if from <= o && Handles(conns[o], fd) && conns[o].active then [Timer(fd, o)] else []
    decreases |conns| - from
  {
    if from < |conns| {
      RearmedByOwner(conns, fd, from + 1, o);
    }
  }

  /** Only the owner of an expiring timer is affected by it, and only the owner re-arms. */
  lemma FireEffect(s: System, i: nat)
    requires Inv(s) && i < |s.timers|
    ensures var t := s.timers[i];
      var conn := s.conns[t.owner];
      var more := if conn.active then [t] else [];
      && !conn.lastHeartbeatReceived
      && Next(s, Fire(i)).conns == s.conns[t.owner := OnTimeout(conn, t.fd)]
      && OnTimeout(conn, t.fd).lastHeartbeatReceived == !conn.active
      && Next(s, Fire(i)).timers == s.timers[..i] + s.timers[i + 1..] + more
  {
    var t := s.timers[i];
    PendingAtLeast(s.timers, i);
    assert ConnOk(s.conns[t.owner]);
    forall c | 0 <= c < |s.conns| && c != t.owner && s.conns[c].fd == t.fd
      ensures !s.conns[c].active && OnTimeout(s.conns[c], t.fd) == s.conns[c]
    {
      assert ConnOk(s.conns[c]);
      assert Clash(s.conns[c], s.conns[t.owner]) == Clash(s.conns[t.owner], s.conns[c]);
    }
    RearmedByOwner(s.conns, t.fd, 0, t.owner);
  }

  lemma FireKeepsLaw(s: System, i: nat)
    requires Inv(s) && i < |s.timers|
    ensures Law(Next(s, Fire(i)))
  {
    var t := s.timers[i];
    var s' := Next(s, Fire(i));
    FireEffect(s, i);
    var more := if s.conns[t.owner].active then [t] else [];
    assert more != [] ==> more[1..] == [];
    forall c | 0 <= c < |s'.conns|
      ensures Pending(s'.timers, c) + (if s'.conns[c].lastHeartbeatReceived then 1 else 0) == 1
    {
      PendingRemove(s.timers, i, more, c);
    }
  }

  lemma FireKeepsInv(s: System, i: nat)
    requires Inv(s) && i < |s.timers|
    ensures Inv(Next(s, Fire(i)))
  {
    FireEffect(s, i);
    FireKeepsLaw(s, i);
    assert ConnOk(s.conns[s.timers[i].owner]);
  }

  lemma OpenKeepsInv(s: System, fd: int)
    requires Inv(s) && Unused(s, fd)
    ensures Inv(Next(s, Open(fd)))
  {
    var s' := Next(s, Open(fd));
    var n := |s.conns|;
    PendingNone(s.timers, n);
    forall c | 0 <= c < |s'.conns|
      ensures Pending(s'.timers, c) + (if s'.conns[c].lastHeartbeatReceived then 1 else 0) == 1
    {
      PendingAppend(s.timers, [Timer(fd, n)], c);
      assert [Timer(fd, n)][1..] == [];
    }
  }

  /** The steps of a single connection change neither its descriptor nor any timer. */
  lemma LocalKeepsInv(s: System, c: nat, conn: Conn)
    requires Inv(s) && c < |s.conns| && ConnOk(conn)
    requires conn.fd == s.conns[c].fd && conn.lastHeartbeatReceived == s.conns[c].lastHeartbeatReceived
    ensures Inv(s.(conns := s.conns[c := conn]))
  {
    var s' := s.(conns := s.conns[c := conn]);
    forall a, b | 0 <= a < b < |s'.conns| ensures !Clash(s'.conns[a], s'.conns[b]) {
      assert Clash(s'.conns[a], s'.conns[b]) == Clash(s.conns[a], s.conns[b]);
    }
  }

  lemma StepKeepsInv(s: System, step: Step)
    requires Inv(s) && (step.Open? ==> Unused(s, step.fd))
    ensures Inv(Next(s, step))
  {
    match step
    case Open(fd) => OpenKeepsInv(s, fd);
    case Fire(i) =>
      if i < |s.timers| {
        FireKeepsInv(s, i);
      }
    case _ =>
      if step.c < |s.conns| && Next(s, step) != s {
        var conn := s.conns[step.c];
        assert ConnOk(conn);
        LocalKeepsInv(s, step.c, Next(s, step).conns[step.c]);
      }
  }

  lemma {:induction false} RunKeepsInv(s: System, steps: seq<Step>)
    requires Inv(s) && DistinctFds(s, steps)
    ensures Inv(Run(s, steps))
    decreases |steps|
  {
    if steps != [] {
      var prefix := steps[..|steps| - 1];
      forall i | 0 <= i < |prefix| && prefix[i].Open? ensures Unused(Run(s, prefix[..i]), prefix[i].fd) {
        assert prefix[..i] == steps[..i] && prefix[i] == steps[i];
      }
      RunKeepsInv(s, prefix);
      StepKeepsInv(Run(s, prefix), steps[|steps| - 1]);
    }
  }

  // ----- Main results -----

  const Empty := System([], [])

  /** In every run over distinct descriptors each connection has exactly one pending timer until its last
      heartbeat has been received, and none afterwards. */
  lemma OneTimerEach(steps: seq<Step>)
    requires DistinctFds(Empty, steps)
    ensures Law(Run(Empty, steps))
  {
    RunKeepsInv(Empty, steps);
  }

  /** The destructor is past its wait only when no timer for its connection remains.  One that waits has not
      missed its notification: exactly one timer for it is pending, and once the connection is inactive that
      timer wakes it. */
  lemma DestructorRendezvous(steps: seq<Step>, c: nat)
    requires DistinctFds(Empty, steps) && c < |Run(Empty, steps).conns|
    ensures Rendezvous(Run(Empty, steps), c)
  {
    RunKeepsInv(Empty, steps);
    InvRendezvous(Run(Empty, steps), c);
  }

  ghost predicate Rendezvous(s: System, c: nat)
    requires c < |s.conns|
  {
    var conn := s.conns[c];
    // past the wait only when no timer is left, and held up only while one is
    && (conn.destructor in {Woken, Passed} ==> Pending(s.timers, c) == 0)
    && (Pending(s.timers, c) == 0 ==>
          match conn.destructor
          case NotBegun => Next(s, Destroy(c)).conns[c].destructor == Passed
          case Waiting => false
          case Woken => Next(s, Resume(c)).conns[c].destructor == Passed
          case Passed => true)
    // a waiting destructor still has its one notification to come
    && (conn.destructor == Waiting ==> Pending(s.timers, c) == 1)
    && (conn.destructor == Waiting && !conn.active ==> exists i :: Wakes(s, i, c))
  }

  predicate Wakes(s: System, i: nat, c: nat)
    requires c < |s.conns|
  {
    i < |s.timers| && s.timers[i].owner == c && Next(s, Fire(i)).conns[c].destructor == Woken
  }

  lemma InvRendezvous(s: System, c: nat)
    requires Inv(s) && c < |s.conns|
    ensures Rendezvous(s, c)
  {
    assert ConnOk(s.conns[c]);
    if s.conns[c].destructor == Waiting && !s.conns[c].active {
      var i := PendingWitness(s.timers, c);
      FireEffect(s, i);
      assert Wakes(s, i, c);
    }
  }

  /** A connection once inactive stays inactive, and keeps its place and descriptor. */
  lemma {:induction false} InactiveForever(s: System, steps: seq<Step>, c: nat)
    requires c < |s.conns|
    ensures var e := Run(s, steps);
      c < |e.conns| && e.conns[c].fd == s.conns[c].fd && (e.conns[c].active ==> s.conns[c].active)
  {
    if steps != [] {
      InactiveForever(s, steps[..|steps| - 1], c);
    }
  }

  /** The premise on descriptors is exact: from a lawful state, opening a connection keeps the law past the next
      timeout, whichever it is, if and only if the descriptor was unused. */
  lemma LawIffUnused(s: System, fd: int)
    requires Inv(s)
    ensures (forall i: nat :: Law(Next(Next(s, Open(fd)), Fire(i)))) <==> Unused(s, fd)
  {
    if Unused(s, fd) {
      OpenKeepsInv(s, fd);
      forall i: nat ensures Law(Next(Next(s, Open(fd)), Fire(i))) {
        StepKeepsInv(Next(s, Open(fd)), Fire(i));
      }
    } else {
      var c :| 0 <= c < |s.conns| && !s.conns[c].lastHeartbeatReceived && s.conns[c].fd == fd;
      var i := PendingWitness(s.timers, c);
      ClashBreaksLaw(s, fd, i);
    }
  }

  /** A timer meant for another connection on the same descriptor arms a second one for the new connection. */
  lemma ClashBreaksLaw(s: System, fd: int, i: nat)
    requires Inv(s) && i < |s.timers| && s.timers[i].fd == fd
    ensures !Law(Next(Next(s, Open(fd)), Fire(i)))
  {
    var n := |s.conns|;
    var s1 := Next(s, Open(fd));
    var s2 := Next(s1, Fire(i));
    PendingNone(s.timers, n);
    PendingAppend(s.timers, [Timer(fd, n)], n);
    assert [Timer(fd, n)][1..] == [];
    RearmedLast(s1.conns, fd, 0);
    PendingRemove(s1.timers, i, Rearmed(s1.conns, fd, 0), n);
    assert Pending(s2.timers, n) >= 2;
    assert 0 <= n < |s2.conns|;
  }

  lemma {:induction false} RearmedLast(conns: seq<Conn>, fd: int, from: nat)
    requires from < |conns|
    requires Handles(conns[|conns| - 1], fd) && conns[|conns| - 1].active
    ensures Pending(Rearmed(conns, fd, from), |conns| - 1) >= 1
    decreases |conns| - from
  {
    var head := if Handles(conns[from], fd) && conns[from].active then [Timer(fd, from)] else [];
    PendingAppend(head, Rearmed(conns, fd, from + 1), |conns| - 1);
    if from + 1 < |conns| {
      RearmedLast(conns, fd, from + 1);
    }
  }

  /** A connection's life, from any lawful state and on a descriptor not in use: its heartbeat goes on as long as it is
      active; its destructor then waits for the timer that is still pending, and nothing of it is left behind. */
  lemma LifeCycle(s: System, fd: int)
    requires Inv(s) && Unused(s, fd)
    ensures var c, i := |s.conns|, |s.timers|;
      var running := Next(s, Open(fd));
      var waiting := Next(Next(running, Deactivate(c)), Destroy(c));
      && running == System(s.conns + [Conn(fd, true, false, NotBegun)], s.timers + [Timer(fd, c)])
      && Next(running, Fire(i)) == running
      && waiting == running.(conns := s.conns + [Conn(fd, false, false, Waiting)])
      && Next(waiting, Resume(c)) == waiting
      && Next(Next(waiting, Fire(i)), Resume(c)) == s.(conns := s.conns + [Conn(fd, false, true, Passed)])
  {
    var c, i := |s.conns|, |s.timers|;
    var running := Next(s, Open(fd));
    OpenKeepsInv(s, fd);
    FireEffect(running, i);
    assert running.timers[..i] + running.timers[i + 1..] == s.timers;
    assert running.conns[c := running.conns[c]] == running.conns;
    StepKeepsInv(running, Deactivate(c));
    var inactive := Next(running, Deactivate(c));
    assert inactive.conns == s.conns + [Conn(fd, false, false, NotBegun)];
    StepKeepsInv(inactive, Destroy(c));
    var waiting := Next(inactive, Destroy(c));
    assert waiting.conns == s.conns + [Conn(fd, false, false, Waiting)];
    FireEffect(waiting, i);
    var woken := Next(waiting, Fire(i));
    assert woken.conns == s.conns + [Conn(fd, false, true, Woken)] && woken.timers == s.timers;
    assert Next(woken, Resume(c)).conns == s.conns + [Conn(fd, false, true, Passed)];
  }
}
