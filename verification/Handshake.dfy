/** Whole runs of the registry, the transport, discovery jobs and connections
    (C++/src/pivision_servicehandler.cpp:20-74, pivision_ethterm.cpp:18-62,
    pivision_ethtermconnectservice.cpp:152-175, pivision_ethtermconnection.cpp:329-331).

    Events raised are in flight until the dispatcher hands them to their subscribers, in any order; every job
    runs once.  The logs `requested`, `provided` and `announced` only record what was raised. */
module Handshake {
  import opened Bytes
  import opened ServiceRegistry

  datatype System = System(
    services: Services,
    inFlight: seq<Event>,
    discovery: seq<Word>,     // discovery jobs that have not reported yet
    clients: seq<Word>,       // running client connections
    servers: seq<Word>,       // running server connections
    listeners: seq<Word>,
    requested: seq<Word>, provided: seq<Word>, announced: seq<Word>,
    reported: seq<Word>,      // discovery jobs that have reported
    started: seq<Word>,       // client connections started
    confirms: nat, rejects: nat, connectionsEnded: nat,
    failedLookup: bool)

  const Init := System(map[], [], [], [], [], [], [], [], [], [], [], 0, 0, 0, false)

  datatype Step =
    | Raise(e: Event)                     // an application provides or subscribes to a service
    | Deliver(i: nat)                     // the dispatcher hands out an event in flight
    | Report(i: nat, status: Status)      // a discovery job ends with its status
    | Accept(i: nat)                      // a listener accepts a connection
    | EndClient(i: nat)                   // a connection's Execute ends
    | EndServer(i: nat)

  function Without<T>(s: seq<T>, i: nat): seq<T>
    requires i < |s|
  {
    s[..i] + s[i + 1..]
  }

  /** The services of the events of one kind among those raised. */
  function Requests(es: seq<Event>): seq<Word> {
    if es == [] then [] else (if es[0].ConnectReq? then [es[0].service] else []) + Requests(es[1..])
  }

  function Provisions(es: seq<Event>): seq<Word> {
    if es == [] then [] else (if es[0].ProvideService? then [es[0].service] else []) + Provisions(es[1..])
  }

  function Announcements(es: seq<Event>): seq<Word> {
    if es == [] then [] else (if es[0].ServiceAvailable? then [es[0].service] else []) + Announcements(es[1..])
  }

  function CountIf<T>(s: seq<T>, p: T -> bool): nat {
    if s == [] then 0 else (if p(s[0]) then 1 else 0) + CountIf(s[1..], p)
  }

  const IsConfirm: Event -> bool := (e: Event) => e.ConnectCfm?
  const IsReject: Event -> bool := (e: Event) => e.ConnectRej?
  const IsStatus: Event -> bool := (e: Event) => e.ServiceStatus?
  const IsRequest: Event -> bool := (e: Event) => e.ConnectReq?

  function RequestFor(x: Word): Event -> bool {
    (e: Event) => e == ConnectReq(x)
  }

  function ProvisionOf(x: Word): Event -> bool {
    (e: Event) => e == ProvideService(x)
  }

  function ConnectedTo(x: Word): Event -> bool {
    (e: Event) => e.ServiceStatus? && e.service == x && e.status.Connected?
  }

  function Equals(x: Word): Word -> bool {
    (y: Word) => y == x
  }

  /** How often `x` occurs. */
  function Times(s: seq<Word>, x: Word): nat {
    CountIf(s, Equals(x))
  }

  function Next(s: System, step: Step): System {
    match step
    case Raise(e) =>
      if e.ServiceProvided? || e.SubscribeService? then s.(inFlight := s.inFlight + [e]) else s
    case Deliver(i) =>
      if i >= |s.inFlight| then s else Dispatch(s.(inFlight := Without(s.inFlight, i)), s.inFlight[i])
    case Report(i, status) =>
      if i >= |s.discovery| || status == Connected(-1) then s
      else s.(discovery := Without(s.discovery, i), reported := s.reported + [s.discovery[i]],
              inFlight := s.inFlight + [ServiceStatus(s.discovery[i], status)])
    case Accept(i) =>
      if i >= |s.listeners| then s else s.(servers := s.servers + [s.listeners[i]])
    case EndClient(i) =>
      if i >= |s.clients| then s
      else s.(clients := Without(s.clients, i), connectionsEnded := s.connectionsEnded + 1,
              inFlight := s.inFlight + [ServiceStatus(s.clients[i], Disconnected)])
    case EndServer(i) =>
      if i >= |s.servers| then s
      else s.(servers := Without(s.servers, i), connectionsEnded := s.connectionsEnded + 1,
              inFlight := s.inFlight + [ServiceStatus(s.servers[i], Disconnected)])
  }

  /** The registry and the transport both handle the event. */
  function Dispatch(s: System, e: Event): System {
    if !LookupSucceeds(s.services, e) then s.(failedLookup := true) // undefined in the source
    else
      var (services, news) := OnEvent(s.services, e);
      var r := OnTransportEvent(e);
      s.(services := services,
         inFlight := s.inFlight + (news + r.raised),
         listeners := s.listeners + (if r.listener then [e.service] else []),
         discovery := s.discovery + (if r.discovery then [e.service] else []),
         clients := s.clients + (if r.client then [e.service] else []),
         requested := s.requested + Requests(news),
         provided := s.provided + Provisions(news),
         announced := s.announced + Announcements(news),
         confirms := s.confirms + CountIf(r.raised, IsConfirm),
         rejects := s.rejects + CountIf(r.raised, IsReject),
         started := s.started + (if r.client then [e.service] else []))
  }

  function Run(s: System, steps: seq<Step>): System {
    if steps == [] then s
    else Next(Run(s, steps[..|steps| - 1]), steps[|steps| - 1])
  }

  // ----- Invariant -----

  /** An event in flight is backed by the registry entry it will need. */
  predicate Backed(services: Services, e: Event) {
    match e
    case ConnectReq(s) => s in services
    case ConnectCfm(s, id) => s in services && ToInt32(id) != -1
    case ServiceStatus(s, Connected(fd)) => s in services && fd != -1
    case ServiceAvailable(s) => Settled(services, s)
    case _ => true
  }

  predicate NoRepeats(s: seq<Word>) {
    forall i, j :: 0 <= i < j < |s| ==> s[i] != s[j]
  }

  ghost predicate Registered(s: System) {
    && (forall e :: e in s.inFlight ==> Backed(s.services, e))
    && (forall d :: d in s.discovery ==> d in s.services)
  }

  ghost predicate Logged(s: System) {
    && NoRepeats(s.requested) && (forall x :: x in s.requested ==> x in s.services)
    && NoRepeats(s.provided) && (forall x :: x in s.provided ==> Settled(s.services, x))
    && (forall x :: x in s.announced <==> Settled(s.services, x))
  }

  predicate Counted(s: System) {
    && s.confirms + s.rejects + CountIf(s.inFlight, IsStatus) == |s.reported| + s.connectionsEnded
    && |s.started| == s.confirms
    && |s.requested| == CountIf(s.inFlight, IsRequest) + |s.discovery| + |s.reported|
  }

  /** The course of the one request a service can have. */
  predicate Chained(s: System, x: Word) {
    && CountIf(s.inFlight, RequestFor(x)) + Times(s.discovery, x) + Times(s.reported, x) == Times(s.requested, x)
    && CountIf(s.inFlight, ConnectedTo(x)) + Times(s.started, x) <= Times(s.reported, x)
  }

  ghost predicate Inv(s: System) {
    Registered(s) && Logged(s) && Counted(s) && !s.failedLookup && forall x :: Chained(s, x)
  }

  lemma {:induction false} CountIfAppend<T>(a: seq<T>, b: seq<T>, p: T -> bool)
    ensures CountIf(a + b, p) == CountIf(a, p) + CountIf(b, p)
  {
    if a == [] {
      assert a + b == b;
    } else {
      assert (a + b)[1..] == a[1..] + b;
      CountIfAppend(a[1..], b, p);
    }
  }

  lemma CountIfSnoc<T>(s: seq<T>, x: T, p: T -> bool)
    ensures CountIf(s + [x], p) == CountIf(s, p) + (if p(x) then 1 else 0)
  {
    CountIfAppend(s, [x], p);
    assert [x][1..] == [];
  }

  lemma CountIfWithout<T>(s: seq<T>, i: nat, p: T -> bool)
    requires i < |s|
    ensures CountIf(Without(s, i), p) + (if p(s[i]) then 1 else 0) == CountIf(s, p)
  {
    CountIfAppend(s[..i], s[i + 1..], p);
    CountIfAppend(s[..i], s[i..], p);
    assert s == s[..i] + s[i..] && s[i..][1..] == s[i + 1..];
  }

  lemma {:induction false} TimesOfDistinct(s: seq<Word>, x: Word)
    requires NoRepeats(s)
    ensures Times(s, x) == if x in s then 1 else 0
  {
    if s != [] {
      TimesOfDistinct(s[1..], x);
      assert s == [s[0]] + s[1..];
    }
  }

  lemma BackedStays(before: Services, after: Services, e: Event)
    requires Extends(before, after) && Backed(before, e)
    ensures Backed(after, e)
  {
  }

  lemma CountSmall<T>(s: seq<T>, p: T -> bool)
    requires |s| <= 2
    ensures CountIf(s, p) == (if |s| > 0 && p(s[0]) then 1 else 0) + (if |s| > 1 && p(s[1]) then 1 else 0)
  {
    if |s| > 0 {
      assert |s| > 1 ==> s[1..][0] == s[1] && s[1..][1..] == [];
      assert |s| == 1 ==> s[1..] == [];
    }
  }

  lemma OneEvent(e: Event)
    ensures Requests([e]) == (if e.ConnectReq? then [e.service] else [])
    ensures Provisions([e]) == (if e.ProvideService? then [e.service] else [])
    ensures Announcements([e]) == (if e.ServiceAvailable? then [e.service] else [])
  {
    assert [e][1..] == [];
  }

  lemma TwoEvents(e: Event, f: Event)
    ensures Requests([e, f]) == Requests([e]) + Requests([f])
    ensures Provisions([e, f]) == Provisions([e]) + Provisions([f])
    ensures Announcements([e, f]) == Announcements([e]) + Announcements([f])
  {
    OneEvent(e);
    assert [e, f][1..] == [f];
  }

  /** What one registry event changes and raises. */
  lemma RegistryStep(services: Services, e: Event)
    requires Backed(services, e)
    ensures var (after, news) := OnEvent(services, e);
      && Extends(services, after)
      && (forall x :: x in news ==> Backed(after, x))
      && (Requests(news) == [] || (Requests(news) == [e.service] && e.service !in services && e.service in after))
      && (Provisions(news) == [] ||
            (Provisions(news) == [e.service] && !Settled(services, e.service) && Settled(after, e.service)))
      && (forall x :: Settled(after, x) <==> Settled(services, x) || x in Announcements(news))
  {
    match e
    case ServiceProvided(s) =>
      OneEvent(ServiceAvailable(s));
      OneEvent(ProvideService(s));
      TwoEvents(ServiceAvailable(s), ProvideService(s));
    case SubscribeService(s) =>
      OneEvent(ServiceAvailable(s));
      OneEvent(ConnectReq(s));
    case ConnectCfm(s, _) => OneEvent(ServiceAvailable(s));
    case ConnectRej(s) => OneEvent(ServiceUnavailable(s));
    case _ =>
  }

  /** How the events raised by one dispatch count. */
  lemma RaisedCounts(services: Services, e: Event)
    requires Backed(services, e)
    ensures var news := OnEvent(services, e).1;
      var r := OnTransportEvent(e);
      && CountIf(news + r.raised, IsStatus) == 0
      && CountIf(news + r.raised, IsRequest) == |Requests(news)|
      && CountIf(r.raised, IsConfirm) + CountIf(r.raised, IsReject) == (if e.ServiceStatus? then 1 else 0)
      && CountIf(r.raised, IsConfirm) == (if r.client then 1 else 0)
  {
    var raised := OnEvent(services, e).1 + OnTransportEvent(e).raised;
    RequestsRaised(services, e);
    CountSmall(raised, IsStatus);
    CountSmall(raised, IsRequest);
    CountSmall(OnTransportEvent(e).raised, IsConfirm);
    CountSmall(OnTransportEvent(e).raised, IsReject);
  }

  lemma RequestsRaised(services: Services, e: Event)
    requires Backed(services, e)
    ensures var news := OnEvent(services, e).1;
      Requests(news) == if e.SubscribeService? && e.service !in services then [e.service] else []
  {
    var news := OnEvent(services, e).1;
    if |news| == 1 {
      OneEvent(news[0]);
    } else if |news| == 2 {
      OneEvent(news[0]);
      OneEvent(news[1]);
      TwoEvents(news[0], news[1]);
    }
  }

  lemma RaisedCountsFor(services: Services, e: Event, x: Word)
    requires Backed(services, e)
    ensures var news := OnEvent(services, e).1;
      var raised := news + OnTransportEvent(e).raised;
      && CountIf(raised, ConnectedTo(x)) == 0
      && CountIf(raised, RequestFor(x)) == Times(Requests(news), x)
  {
    var raised := OnEvent(services, e).1 + OnTransportEvent(e).raised;
    RequestsRaised(services, e);
    CountSmall(raised, ConnectedTo(x));
    CountSmall(raised, RequestFor(x));
    CountSmall(Requests(OnEvent(services, e).1), Equals(x));
  }

  lemma TransportBacked(services: Services, e: Event)
    requires Backed(services, e)
    ensures forall x :: x in OnTransportEvent(e).raised ==> Backed(services, x)
  {
    if e.ServiceStatus? && e.status.Connected? {
      CastRoundTrip(e.status.socketFd);
    }
  }

  lemma DispatchKeepsRegistered(s: System, e: Event)
    requires Registered(s) && Backed(s.services, e)
    ensures Registered(Dispatch(s, e))
  {
    var s' := Dispatch(s, e);
    RegistryStep(s.services, e);
    BackedStays(s.services, s'.services, e);
    TransportBacked(s'.services, e);
    forall x | x in s.inFlight ensures Backed(s'.services, x) {
      BackedStays(s.services, s'.services, x);
    }
  }

  lemma DispatchKeepsLogged(s: System, e: Event)
    requires Logged(s) && Backed(s.services, e)
    ensures Logged(Dispatch(s, e))
  {
    RegistryStep(s.services, e);
  }

  lemma DeliverKeepsCounted(s: System, i: nat)
    requires Counted(s) && i < |s.inFlight| && Backed(s.services, s.inFlight[i])
    ensures Counted(Next(s, Deliver(i)))
  {
    var e := s.inFlight[i];
    var raised := OnEvent(s.services, e).1 + OnTransportEvent(e).raised;
    RaisedCounts(s.services, e);
    CountIfWithout(s.inFlight, i, IsStatus);
    CountIfWithout(s.inFlight, i, IsRequest);
    CountIfAppend(Without(s.inFlight, i), raised, IsStatus);
    CountIfAppend(Without(s.inFlight, i), raised, IsRequest);
  }

  /** One more element on the end, or nothing. */
  lemma TimesMaybe(s: seq<Word>, more: bool, y: Word, x: Word)
    ensures Times(s + (if more then [y] else []), x) == Times(s, x) + (if more && y == x then 1 else 0)
  {
    CountIfSnoc(s, y, Equals(x));
    assert s + [] == s;
  }

  lemma DeliverKeepsChained(s: System, i: nat, x: Word)
    requires Chained(s, x) && i < |s.inFlight| && Backed(s.services, s.inFlight[i])
    ensures Chained(Next(s, Deliver(i)), x)
  {
    var e := s.inFlight[i];
    var news := OnEvent(s.services, e).1;
    var r := OnTransportEvent(e);
    var rest := Without(s.inFlight, i);
    RaisedCountsFor(s.services, e, x);
    CountIfWithout(s.inFlight, i, RequestFor(x));
    CountIfWithout(s.inFlight, i, ConnectedTo(x));
    CountIfAppend(rest, news + r.raised, RequestFor(x));
    CountIfAppend(rest, news + r.raised, ConnectedTo(x));
    CountIfAppend(s.requested, Requests(news), Equals(x));
    TimesMaybe(s.discovery, r.discovery, e.service, x);
    TimesMaybe(s.started, r.client, e.service, x);
  }

  lemma DeliverKeepsInv(s: System, i: nat)
    requires Inv(s) && i < |s.inFlight|
    ensures Inv(Next(s, Deliver(i)))
  {
    var taken := s.(inFlight := Without(s.inFlight, i));
    assert s.inFlight[i] in s.inFlight;
    assert forall e :: e in taken.inFlight ==> e in s.inFlight;
    DispatchKeepsRegistered(taken, s.inFlight[i]);
    DispatchKeepsLogged(taken, s.inFlight[i]);
    DeliverKeepsCounted(s, i);
    forall x ensures Chained(Next(s, Deliver(i)), x) {
      assert Chained(s, x);
      DeliverKeepsChained(s, i, x);
    }
  }

  lemma ReportKeepsInv(s: System, i: nat, status: Status)
    requires Inv(s) && i < |s.discovery| && status != Connected(-1)
    ensures Inv(Next(s, Report(i, status)))
  {
    var service := s.discovery[i];
    var e := ServiceStatus(service, status);
    assert service in s.discovery;
    assert forall d :: d in Without(s.discovery, i) ==> d in s.discovery;
    CountIfSnoc(s.inFlight, e, IsStatus);
    CountIfSnoc(s.inFlight, e, IsRequest);
    forall x ensures Chained(Next(s, Report(i, status)), x) {
      assert Chained(s, x);
      CountIfSnoc(s.inFlight, e, RequestFor(x));
      CountIfSnoc(s.inFlight, e, ConnectedTo(x));
      CountIfWithout(s.discovery, i, Equals(x));
      CountIfSnoc(s.reported, service, Equals(x));
    }
  }

  /** An event that neither requests nor reports a connection changes no count but that of statuses. */
  lemma InertEvent(s: System, e: Event)
    requires Inv(s) && Backed(s.services, e) && !e.ConnectReq? && (e.ServiceStatus? ==> e.status == Disconnected)
    ensures var s' := s.(inFlight := s.inFlight + [e]);
      && Registered(s') && (forall x :: Chained(s', x))
      && CountIf(s'.inFlight, IsStatus) == CountIf(s.inFlight, IsStatus) + (if e.ServiceStatus? then 1 else 0)
      && CountIf(s'.inFlight, IsRequest) == CountIf(s.inFlight, IsRequest)
  {
    var s' := s.(inFlight := s.inFlight + [e]);
    CountIfSnoc(s.inFlight, e, IsStatus);
    CountIfSnoc(s.inFlight, e, IsRequest);
    forall x ensures Chained(s', x) {
      assert Chained(s, x);
      CountIfSnoc(s.inFlight, e, RequestFor(x));
      CountIfSnoc(s.inFlight, e, ConnectedTo(x));
    }
  }

  lemma EndKeepsInv(s: System, step: Step)
    requires Inv(s) && (step.EndClient? || step.EndServer?)
    ensures Inv(Next(s, step))
  {
    var running := if step.EndClient? then s.clients else s.servers;
    if step.i < |running| {
      var e := ServiceStatus(running[step.i], Disconnected);
      InertEvent(s, e);
      var t := s.(inFlight := s.inFlight + [e]);
      forall x ensures Chained(Next(s, step), x) {
        assert Chained(t, x);
      }
    }
  }

  lemma StepKeepsInv(s: System, step: Step)
    requires Inv(s)
    ensures Inv(Next(s, step))
  {
    match step
    case Raise(e) =>
      if e.ServiceProvided? || e.SubscribeService? {
        InertEvent(s, e);
      }
    case Deliver(i) =>
      if i < |s.inFlight| {
        DeliverKeepsInv(s, i);
      }
    case Report(i, status) =>
      if i < |s.discovery| && status != Connected(-1) {
        ReportKeepsInv(s, i, status);
      }
    case Accept(_) => AcceptKeepsInv(s, step);
    case EndClient(_) => EndKeepsInv(s, step);
    case EndServer(_) => EndKeepsInv(s, step);
  }

  lemma AcceptKeepsInv(s: System, step: Step)
    requires Inv(s) && step.Accept?
    ensures Inv(Next(s, step))
  {
    forall x ensures Chained(Next(s, step), x) {
      assert Chained(s, x);
    }
  }

  lemma {:induction false} RunKeepsInv(steps: seq<Step>)
    ensures Inv(Run(Init, steps))
  {
    if steps != [] {
      RunKeepsInv(steps[..|steps| - 1]);
      StepKeepsInv(Run(Init, steps[..|steps| - 1]), steps[|steps| - 1]);
    }
  }

  // ----- Main results -----

  /** Over every run: the unchecked lookup of a confirm always succeeds and no confirm is empty, each service is
      requested from the network at most once and provided at most once, and availability has been announced for exactly
      the services whose entry is not -1. */
  lemma RegistrySafety(steps: seq<Step>)
    ensures var s := Run(Init, steps);
      && !s.failedLookup
      && (forall e :: e in s.inFlight ==> LookupSucceeds(s.services, e) && !EmptyConfirm(s.services, e))
      && NoRepeats(s.requested) && NoRepeats(s.provided)
      && (forall x :: x in s.announced <==> Settled(s.services, x))
  {
    RunKeepsInv(steps);
    var s := Run(Init, steps);
    forall e | e in s.inFlight ensures LookupSucceeds(s.services, e) && !EmptyConfirm(s.services, e) {
      assert Backed(s.services, e);
    }
  }

  /** An entry that is local or connected never changes again, and no entry is ever removed. */
  lemma {:induction false} SettledForever(steps: seq<Step>, more: seq<Step>)
    ensures Extends(Run(Init, steps).services, Run(Run(Init, steps), more).services)
    ensures Inv(Run(Run(Init, steps), more))
    decreases |more|
  {
    if more == [] {
      RunKeepsInv(steps);
    } else {
      SettledForever(steps, more[..|more| - 1]);
      var s := Run(Run(Init, steps), more[..|more| - 1]);
      var step := more[|more| - 1];
      StepKeepsInv(s, step);
      if step.Deliver? && step.i < |s.inFlight| {
        assert s.inFlight[step.i] in s.inFlight;
        RegistryStep(s.services, s.inFlight[step.i]);
      }
    }
  }

  /** Every finished discovery job and every ended connection becomes exactly one confirm or reject, a client
      connection is started for each confirm, and each request becomes one discovery job that reports once. */
  lemma OutcomeConservation(steps: seq<Step>)
    ensures var s := Run(Init, steps);
      && s.confirms + s.rejects + CountIf(s.inFlight, IsStatus) == |s.reported| + s.connectionsEnded
      && |s.started| == s.confirms
      && |s.requested| == CountIf(s.inFlight, IsRequest) + |s.discovery| + |s.reported|
  {
    RunKeepsInv(steps);
  }

  /** A service gets at most one discovery report and at most one client connection in the whole run: it is not
      asked for again after its connection is lost. */
  lemma AtMostOneClientPerService(steps: seq<Step>, x: Word)
    ensures var s := Run(Init, steps);
      Times(s.started, x) <= Times(s.reported, x) <= 1
  {
    RunKeepsInv(steps);
    var s := Run(Init, steps);
    assert Chained(s, x);
    TimesOfDistinct(s.requested, x);
  }

  // ----- What enters a service, and what becomes of it -----

  /** Step `k` of the run hands the event `e` to the registry. */
  predicate Handles(steps: seq<Step>, k: nat, e: Event) {
    && k < |steps| && steps[k].Deliver?
    && var inFlight := Run(Init, steps[..k]).inFlight;
       steps[k].i < |inFlight| && inFlight[steps[k].i] == e
  }

  predicate ProvidedAt(steps: seq<Step>, k: nat, x: Word) {
    Handles(steps, k, ServiceProvided(x)) && !Settled(Run(Init, steps[..k]).services, x)
  }

  predicate RequestedAt(steps: seq<Step>, k: nat, x: Word) {
    Handles(steps, k, SubscribeService(x)) && x !in Run(Init, steps[..k]).services
  }

  lemma ProvisionsRaised(services: Services, e: Event)
    requires Backed(services, e)
    ensures Provisions(OnEvent(services, e).1) ==
            if e.ServiceProvided? && !Settled(services, e.service) then [e.service] else []
  {
    var news := OnEvent(services, e).1;
    if |news| == 1 {
      OneEvent(news[0]);
    } else if |news| == 2 {
      OneEvent(news[0]);
      OneEvent(news[1]);
      TwoEvents(news[0], news[1]);
    }
  }

  lemma LogsGrow(s: System, step: Step)
    requires Inv(s)
    ensures var handled := if step.Deliver? && step.i < |s.inFlight| then [s.inFlight[step.i]] else [];
      && Next(s, step).provided ==
           s.provided + (if |handled| == 1 && handled[0].ServiceProvided? && !Settled(s.services, handled[0].service)
                         then [handled[0].service] else [])
      && Next(s, step).requested ==
           s.requested + (if |handled| == 1 && handled[0].SubscribeService? && handled[0].service !in s.services
                          then [handled[0].service] else [])
  {
    if step.Deliver? && step.i < |s.inFlight| {
      assert s.inFlight[step.i] in s.inFlight;
      ProvisionsRaised(s.services, s.inFlight[step.i]);
      RequestsRaised(s.services, s.inFlight[step.i]);
    }
  }

  lemma EarlierSteps(steps: seq<Step>, k: nat, x: Word)
    requires k < |steps| - 1
    ensures ProvidedAt(steps[..|steps| - 1], k, x) <==> ProvidedAt(steps, k, x)
    ensures RequestedAt(steps[..|steps| - 1], k, x) <==> RequestedAt(steps, k, x)
  {
    assert steps[..|steps| - 1][..k] == steps[..k];
  }

  lemma LastEntry(steps: seq<Step>, x: Word)
    requires steps != []
    ensures var n := |steps| - 1; var s := Run(Init, steps[..n]);
      && (x in Run(Init, steps).provided <==> x in s.provided || ProvidedAt(steps, n, x))
      && (x in Run(Init, steps).requested <==> x in s.requested || RequestedAt(steps, n, x))
  {
    RunKeepsInv(steps[..|steps| - 1]);
    LogsGrow(Run(Init, steps[..|steps| - 1]), steps[|steps| - 1]);
  }

  lemma {:induction false} ProvidedIff(steps: seq<Step>, x: Word)
    ensures x in Run(Init, steps).provided <==> exists k :: 0 <= k < |steps| && ProvidedAt(steps, k, x)
  {
    if steps != [] {
      var n := |steps| - 1;
      ProvidedIff(steps[..n], x);
      forall k | 0 <= k < n ensures ProvidedAt(steps[..n], k, x) <==> ProvidedAt(steps, k, x) {
        EarlierSteps(steps, k, x);
      }
      LastEntry(steps, x);
    }
  }

  lemma {:induction false} RequestedIff(steps: seq<Step>, x: Word)
    ensures x in Run(Init, steps).requested <==> exists k :: 0 <= k < |steps| && RequestedAt(steps, k, x)
  {
    if steps != [] {
      var n := |steps| - 1;
      RequestedIff(steps[..n], x);
      forall k | 0 <= k < n ensures RequestedAt(steps[..n], k, x) <==> RequestedAt(steps, k, x) {
        EarlierSteps(steps, k, x);
      }
      LastEntry(steps, x);
    }
  }

  /** The services provided to the network are exactly those that a ServiceProvided entered, and the services asked for
      from it exactly those that a SubscribeService entered. */
  lemma EnteredIff(steps: seq<Step>, x: Word)
    ensures x in Run(Init, steps).provided <==> exists k :: 0 <= k < |steps| && ProvidedAt(steps, k, x)
    ensures x in Run(Init, steps).requested <==> exists k :: 0 <= k < |steps| && RequestedAt(steps, k, x)
  {
    ProvidedIff(steps, x);
    RequestedIff(steps, x);
  }

  predicate Listened(s: System, x: Word) {
    Times(s.listeners, x) + CountIf(s.inFlight, ProvisionOf(x)) == Times(s.provided, x)
  }

  lemma ProvisionCounts(services: Services, e: Event, x: Word)
    requires Backed(services, e)
    ensures var news := OnEvent(services, e).1;
      CountIf(news + OnTransportEvent(e).raised, ProvisionOf(x)) == Times(Provisions(news), x)
  {
    var raised := OnEvent(services, e).1 + OnTransportEvent(e).raised;
    ProvisionsRaised(services, e);
    CountSmall(raised, ProvisionOf(x));
    CountSmall(Provisions(OnEvent(services, e).1), Equals(x));
  }

  lemma StepKeepsListened(s: System, step: Step, x: Word)
    requires Inv(s) && Listened(s, x)
    ensures Listened(Next(s, step), x)
  {
    var before, after := s.inFlight, Next(s, step).inFlight;
    if step.Deliver? && step.i < |before| {
      var e := before[step.i];
      assert e in before;
      var news := OnEvent(s.services, e).1;
      ProvisionCounts(s.services, e, x);
      CountIfWithout(before, step.i, ProvisionOf(x));
      CountIfAppend(Without(before, step.i), news + OnTransportEvent(e).raised, ProvisionOf(x));
      CountIfAppend(s.provided, Provisions(news), Equals(x));
      TimesMaybe(s.listeners, OnTransportEvent(e).listener, e.service, x);
    } else if after != before {
      CountIfSnoc(before, after[|before|], ProvisionOf(x));
      assert after == before + [after[|before|]];
    }
  }

  /** Each provided service has one listener, running or still asked for, and there is no other listener. */
  lemma {:induction false} ListenersAreProvided(steps: seq<Step>, x: Word)
    ensures var s := Run(Init, steps);
      Times(s.listeners, x) + CountIf(s.inFlight, ProvisionOf(x)) == if x in s.provided then 1 else 0
  {
    RunKeepsInv(steps);
    TimesOfDistinct(Run(Init, steps).provided, x);
    RunKeepsListened(steps, x);
  }

  lemma {:induction false} RunKeepsListened(steps: seq<Step>, x: Word)
    ensures Listened(Run(Init, steps), x)
  {
    if steps != [] {
      var s := Run(Init, steps[..|steps| - 1]);
      RunKeepsInv(steps[..|steps| - 1]);
      RunKeepsListened(steps[..|steps| - 1], x);
      StepKeepsListened(s, steps[|steps| - 1], x);
    }
  }

  // ----- The handshake completes -----

  /** The event last raised is handed out next. */
  lemma DeliverLast(s: System, base: seq<Event>, e: Event)
    requires s.inFlight == base + [e]
    ensures Next(s, Deliver(|base|)) == Dispatch(s.(inFlight := base), e)
  {
    assert Without(base + [e], |base|) == base;
  }

  lemma ReportLast(s: System, base: seq<Word>, x: Word, status: Status)
    requires s.discovery == base + [x] && status != Connected(-1)
    ensures Next(s, Report(|base|, status)) ==
            s.(discovery := base, reported := s.reported + [x], inFlight := s.inFlight + [ServiceStatus(x, status)])
  {
    assert Without(base + [x], |base|) == base;
  }

  lemma SubscriptionHandled(s: System, base: seq<Event>, x: Word)
    requires s.inFlight == base + [SubscribeService(x)] && x !in s.services
    ensures Next(s, Deliver(|base|)) ==
            s.(services := s.services[x := -1], inFlight := base + [ConnectReq(x)], requested := s.requested + [x])
  {
    DeliverLast(s, base, SubscribeService(x));
    OneEvent(ConnectReq(x));
    assert [ConnectReq(x)] + [] == [ConnectReq(x)];
  }

  /** The transport queues a discovery job for a request and a listener for a provision. */
  lemma JobQueued(s: System, base: seq<Event>, e: Event)
    requires s.inFlight == base + [e] && (e.ConnectReq? || e.ProvideService?)
    ensures Next(s, Deliver(|base|)) ==
            if e.ConnectReq? then s.(inFlight := base, discovery := s.discovery + [e.service])
            else s.(inFlight := base, listeners := s.listeners + [e.service])
  {
    DeliverLast(s, base, e);
    assert base + ([] + []) == base;
  }

  lemma ProvisionHandled(s: System, base: seq<Event>, x: Word)
    requires s.inFlight == base + [ServiceProvided(x)] && !Settled(s.services, x)
    ensures Next(s, Deliver(|base|)) ==
            s.(services := s.services[x := 0], inFlight := base + [ServiceAvailable(x)] + [ProvideService(x)],
               provided := s.provided + [x], announced := s.announced + [x])
  {
    DeliverLast(s, base, ServiceProvided(x));
    OneEvent(ServiceAvailable(x));
    OneEvent(ProvideService(x));
    TwoEvents(ServiceAvailable(x), ProvideService(x));
    assert base + [ServiceAvailable(x)] + [ProvideService(x)] ==
           base + ([ServiceAvailable(x), ProvideService(x)] + []);
  }

  lemma StatusHandled(s: System, base: seq<Event>, x: Word, status: Status)
    requires s.inFlight == base + [ServiceStatus(x, status)]
    ensures Next(s, Deliver(|base|)) ==
            if status.Connected? then
              s.(inFlight := base + [ConnectCfm(x, ToWord(status.socketFd))], confirms := s.confirms + 1,
                 clients := s.clients + [x], started := s.started + [x])
            else s.(inFlight := base + [ConnectRej(x)], rejects := s.rejects + 1)
  {
    DeliverLast(s, base, ServiceStatus(x, status));
    var outcome := if status.Connected? then ConnectCfm(x, ToWord(status.socketFd)) else ConnectRej(x);
    CountSmall([outcome], IsConfirm);
    CountSmall([outcome], IsReject);
    assert [] + [outcome] == [outcome];
  }

  lemma RejectHandled(s: System, base: seq<Event>, x: Word)
    requires s.inFlight == base + [ConnectRej(x)]
    ensures Next(s, Deliver(|base|)) == s.(inFlight := base + [ServiceUnavailable(x)])
  {
    DeliverLast(s, base, ConnectRej(x));
    OneEvent(ServiceUnavailable(x));
    assert [ServiceUnavailable(x)] + [] == [ServiceUnavailable(x)];
  }

  lemma ConfirmHandled(s: System, base: seq<Event>, x: Word, fd: Int32)
    requires s.inFlight == base + [ConnectCfm(x, ToWord(fd))] && x in s.services && s.services[x] == -1
    ensures Next(s, Deliver(|base|)) ==
            s.(services := s.services[x := fd], inFlight := base + [ServiceAvailable(x)],
               announced := s.announced + [x])
  {
    DeliverLast(s, base, ConnectCfm(x, ToWord(fd)));
    CastRoundTrip(fd);
    OneEvent(ServiceAvailable(x));
    assert [ServiceAvailable(x)] + [] == [ServiceAvailable(x)];
  }

  /** From any state, a subscription to a new service brings about one discovery job for it. */
  lemma SubscriptionAsks(s: System, x: Word)
    requires x !in s.services
    ensures var n := |s.inFlight|;
      Next(Next(Next(s, Raise(SubscribeService(x))), Deliver(n)), Deliver(n)) ==
      s.(services := s.services[x := -1], discovery := s.discovery + [x], requested := s.requested + [x])
  {
    var s1 := Next(s, Raise(SubscribeService(x)));
    SubscriptionHandled(s1, s.inFlight, x);
    JobQueued(Next(s1, Deliver(|s.inFlight|)), s.inFlight, ConnectReq(x));
  }

  /** When the job has found and reached the server, the subscriber is told, the entry holds the descriptor and a client
      connection runs. */
  lemma DiscoveryConnects(s: System, base: seq<Word>, x: Word, fd: Int32)
    requires s.discovery == base + [x] && x in s.services && s.services[x] == -1 && fd != -1
    ensures var n := |s.inFlight|;
      Next(Next(Next(s, Report(|base|, Connected(fd))), Deliver(n)), Deliver(n)) ==
      s.(services := s.services[x := fd], inFlight := s.inFlight + [ServiceAvailable(x)], discovery := base,
         clients := s.clients + [x], started := s.started + [x], reported := s.reported + [x],
         announced := s.announced + [x], confirms := s.confirms + 1)
  {
    var n := |s.inFlight|;
    ReportLast(s, base, x, Connected(fd));
    var s1 := Next(s, Report(|base|, Connected(fd)));
    StatusHandled(s1, s.inFlight, x, Connected(fd));
    ConfirmHandled(Next(s1, Deliver(n)), s.inFlight, x, fd);
  }

  /** When it has not, the subscriber is told that the service is unavailable, and nothing else changes. */
  lemma DiscoveryFails(s: System, base: seq<Word>, x: Word, status: Status)
    requires s.discovery == base + [x] && !status.Connected?
    ensures var n := |s.inFlight|;
      Next(Next(Next(s, Report(|base|, status)), Deliver(n)), Deliver(n)) ==
      s.(inFlight := s.inFlight + [ServiceUnavailable(x)], discovery := base, reported := s.reported + [x],
         rejects := s.rejects + 1)
  {
    ReportLast(s, base, x, status);
    RejectIsTold(Next(s, Report(|base|, status)), s.inFlight, x, status);
  }

  lemma RejectIsTold(s: System, base: seq<Event>, x: Word, status: Status)
    requires s.inFlight == base + [ServiceStatus(x, status)] && !status.Connected?
    ensures var n := |base|;
      Next(Next(s, Deliver(n)), Deliver(n)) ==
      s.(inFlight := base + [ServiceUnavailable(x)], rejects := s.rejects + 1)
  {
    StatusHandled(s, base, x, status);
    RejectHandled(Next(s, Deliver(|base|)), base, x);
  }

  /** A client connection that ends is told as unavailable, but its entry stays as it is: the service counts as
      connected from then on. */
  lemma LostConnection(s: System, i: nat)
    requires i < |s.clients|
    ensures var n := |s.inFlight|;
      Next(Next(Next(s, EndClient(i)), Deliver(n)), Deliver(n)) ==
      s.(inFlight := s.inFlight + [ServiceUnavailable(s.clients[i])], clients := s.clients[..i] + s.clients[i + 1..],
         connectionsEnded := s.connectionsEnded + 1, rejects := s.rejects + 1)
  {
    RejectIsTold(Next(s, EndClient(i)), s.inFlight, s.clients[i], Disconnected);
  }

  /** From any state, a service provided for the first time is announced and gets a listener, which accepts a
      connection for it. */
  lemma ProvisionListens(s: System, x: Word)
    requires !Settled(s.services, x)
    ensures var n := |s.inFlight|;
      var s3 := Next(Next(Next(s, Raise(ServiceProvided(x))), Deliver(n)), Deliver(n + 1));
      && s3 == s.(services := s.services[x := 0], inFlight := s.inFlight + [ServiceAvailable(x)],
                  listeners := s.listeners + [x], provided := s.provided + [x], announced := s.announced + [x])
      && Next(s3, Accept(|s.listeners|)) == s3.(servers := s.servers + [x])
  {
    var n := |s.inFlight|;
    var s1 := Next(s, Raise(ServiceProvided(x)));
    ProvisionHandled(s1, s.inFlight, x);
    JobQueued(Next(s1, Deliver(n)), s.inFlight + [ServiceAvailable(x)], ProvideService(x));
  }
}
