/** The service registry (C++/src/pivision_servicehandler.cpp), the transport's event handler
    (C++/src/pivision_ethterm.cpp) and the discovery job (C++/src/pivision_ethtermconnectservice.cpp). */
module ServiceRegistry {
  import opened Bytes

  const LOCAL_SERVICE := 0
  const REMOTE_SERVICE_DISCONNECTED := -1

  /** An int32_t. */
  type Int32 = n: int | -0x8000_0000 <= n < 0x8000_0000

  /** The source passes descriptors through uint32_t and back. */
  function ToWord(n: Int32): Word {
    n % U32
  }

  function ToInt32(w: Word): Int32 {
    if w < 0x8000_0000 then w else w - U32
  }

  lemma CastRoundTrip(n: Int32)
    ensures ToInt32(ToWord(n)) == n
    ensures ToWord(n) == if n < 0 then n + 0x1_0000_0000 else n
  {
  }

  datatype Status = Connected(socketFd: Int32) | Disconnected | NotFound

  datatype Event =
    | ServiceProvided(service: Word)
    | SubscribeService(service: Word)
    | ConnectReq(service: Word)
    | ConnectCfm(service: Word, serviceId: Word)
    | ConnectRej(service: Word)
    | ServiceAvailable(service: Word)
    | ServiceUnavailable(service: Word)
    | ProvideService(service: Word)
    | ServiceStatus(service: Word, status: Status)

  type Services = map<Word, Int32>

  /** Whether the handler's lookup finds something: the source does not check it for a confirm. */
  predicate LookupSucceeds(services: Services, e: Event) {
    e.ConnectCfm? ==> e.service in services
  }

  /** The registry after one event, and the events it raises. */
  function OnEvent(services: Services, e: Event): (Services, seq<Event>)
    requires LookupSucceeds(services, e)
  {
    match e
    case ServiceProvided(s) =>
      if s !in services || services[s] == REMOTE_SERVICE_DISCONNECTED then
        (services[s := LOCAL_SERVICE], [ServiceAvailable(s), ProvideService(s)])
      else (services, [])
    case SubscribeService(s) =>
      if s in services then
        (services, if services[s] != REMOTE_SERVICE_DISCONNECTED then [ServiceAvailable(s)] else [])
      else (services[s := REMOTE_SERVICE_DISCONNECTED], [ConnectReq(s)])
    case ConnectCfm(s, id) =>
      if services[s] == REMOTE_SERVICE_DISCONNECTED then (services[s := ToInt32(id)], [ServiceAvailable(s)])
      else (services, [])
    case ConnectRej(s) => (services, [ServiceUnavailable(s)])
    case _ => (services, [])
  }

  /** The service is local or connected. */
  predicate Settled(services: Services, s: Word) {
    s in services && services[s] != REMOTE_SERVICE_DISCONNECTED
  }

  /** The registry only grows, and a settled entry keeps its value. */
  predicate Extends(before: Services, after: Services) {
    forall k :: k in before ==> k in after && (before[k] != REMOTE_SERVICE_DISCONNECTED ==> after[k] == before[k])
  }

  /** What the events raised say about the registry: availability is announced only for settled services and for every
      one newly settled, the network is asked for exactly the services newly entered and not settled, and only a
      newly settled local service is provided. */
  ghost predicate Reported(before: Services, after: Services, news: seq<Event>) {
    && (forall x :: ServiceAvailable(x) in news ==> Settled(after, x))
    && (forall x :: Settled(after, x) && !Settled(before, x) ==> ServiceAvailable(x) in news)
    && (forall x :: ConnectReq(x) in news <==> x !in before && x in after && !Settled(after, x))
    && (forall x :: ProvideService(x) in news ==>
          !Settled(before, x) && Settled(after, x) && after[x] == LOCAL_SERVICE)
  }

  /** A confirm that carries the descriptor -1 for a service not settled yet: it is announced, but not settled. */
  predicate EmptyConfirm(services: Services, e: Event)
    requires LookupSucceeds(services, e)
  {
    e.ConnectCfm? && !Settled(services, e.service) && ToInt32(e.serviceId) == REMOTE_SERVICE_DISCONNECTED
  }

  /** What becomes of every entry.  Only a service that is not settled can get a value: 0 when it is provided here, the
      descriptor, read as a signed number, when it is confirmed, and -1 when it is subscribed to. */
  ghost predicate Entered(before: Services, e: Event, after: Services) {
    && (forall x :: x in after <==> x in before || e == ServiceProvided(x) || e == SubscribeService(x))
    && (forall x :: x in after ==>
          after[x] == (if Settled(before, x) then before[x]
                       else if e == ServiceProvided(x) then 0
                       else if e.ConnectCfm? && e.service == x then ToInt32(e.serviceId)
                       else -1))
  }

  /** What is raised, by the event that was handled. */
  ghost predicate Answered(before: Services, e: Event, news: seq<Event>) {
    && (forall x :: ProvideService(x) in news <==> e == ServiceProvided(x) && !Settled(before, x))
    && (forall x :: ServiceAvailable(x) in news <==>
          || (!Settled(before, x) && (e == ServiceProvided(x) || (e.ConnectCfm? && e.service == x)))
          || (Settled(before, x) && e == SubscribeService(x)))
    && (forall x :: ConnectReq(x) in news <==> e == SubscribeService(x) && x !in before)
    && (forall x :: ServiceUnavailable(x) in news <==> e == ConnectRej(x))
    && (forall n :: n in news ==> n.ProvideService? || n.ServiceAvailable? || n.ConnectReq? || n.ServiceUnavailable?)
    && |news| <= 2 && (|news| == 2 ==> news[0].ServiceAvailable? && news[1].ProvideService?)
  }

  lemma EventHandled(services: Services, e: Event)
    requires LookupSucceeds(services, e)
    ensures Entered(services, e, OnEvent(services, e).0)
    ensures Answered(services, e, OnEvent(services, e).1)
  {
    var news := OnEvent(services, e).1;
    if |news| == 2 {
      assert news[0] == ServiceAvailable(e.service) && news[1] == ProvideService(e.service);
    } else if |news| == 1 {
      assert news == [news[0]] && news[0].service == e.service;
    }
  }

  lemma EventReported(services: Services, e: Event)
    requires LookupSucceeds(services, e)
    ensures Extends(services, OnEvent(services, e).0)
    ensures Reported(services, OnEvent(services, e).0, OnEvent(services, e).1) <==> !EmptyConfirm(services, e)
  {
    var (after, news) := OnEvent(services, e);
    if e.ServiceProvided? && news != [] {
      assert news[0] == ServiceAvailable(e.service) && news[1] == ProvideService(e.service);
    } else if news != [] {
      assert news == [news[0]];
      if EmptyConfirm(services, e) {
        assert ServiceAvailable(e.service) in news && !Settled(after, e.service);
      }
    }
  }

  class ServiceHandler {
    var services: Services
    var raised: seq<Event>

    constructor ()
      ensures services == map[] && raised == []
    {
      services, raised := map[], [];
    }

    method HandleEvent(e: Event)
      requires LookupSucceeds(services, e)
      modifies this
      ensures Entered(old(services), e, services) && Extends(old(services), services)
      ensures old(raised) <= raised && Answered(old(services), e, raised[|old(raised)|..])
      ensures Reported(old(services), services, raised[|old(raised)|..]) <==> !EmptyConfirm(old(services), e)
      ensures (services, raised) ==
        var (after, news) := OnEvent(old(services), e); (after, old(raised) + news)
    {
      ghost var (after, news) := OnEvent(services, e);
      EventHandled(services, e);
      EventReported(services, e);
      match e {
        case ServiceProvided(s) =>
          if s !in services || (s in services && services[s] == REMOTE_SERVICE_DISCONNECTED) {
            services := services[s := LOCAL_SERVICE];
            raised := raised + [ServiceAvailable(s)] + [ProvideService(s)];
          }
        case SubscribeService(s) =>
          if s in services {
            if services[s] != REMOTE_SERVICE_DISCONNECTED {
              raised := raised + [ServiceAvailable(s)];
            }
          } else {
            services := services[s := REMOTE_SERVICE_DISCONNECTED];
            raised := raised + [ConnectReq(s)];
          }
        case ConnectCfm(s, id) =>
          if services[s] == REMOTE_SERVICE_DISCONNECTED {
            services := services[s := ToInt32(id)];
            raised := raised + [ServiceAvailable(s)];
          }
        case ConnectRej(s) =>
          raised := raised + [ServiceUnavailable(s)];
        case _ =>
      }
      assert services == after && raised == old(raised) + news;
      assert raised[|old(raised)|..] == news;
    }
  }

  /** What the transport does with an event: jobs it queues and events it raises. */
  datatype Reaction = Reaction(listener: bool, discovery: bool, client: bool, raised: seq<Event>)

  function OnTransportEvent(e: Event): Reaction {
    match e
    case ProvideService(_) => Reaction(true, false, false, [])
    case ConnectReq(_) => Reaction(false, true, false, [])
    case ServiceStatus(s, Connected(fd)) => Reaction(false, false, true, [ConnectCfm(s, ToWord(fd))])
    case ServiceStatus(s, _) => Reaction(false, false, false, [ConnectRej(s)])
    case _ => Reaction(false, false, false, [])
  }

  /** PiVisionEthTerm: no state of its own, it queues jobs and raises events in the dispatcher. */
  class EthTerm {
    var listenerJobs: seq<Word>
    var discoveryJobs: seq<Word>
    var clientJobs: seq<(Word, Int32)>
    var raised: seq<Event>

    constructor ()
      ensures listenerJobs == [] && discoveryJobs == [] && clientJobs == [] && raised == []
    {
      listenerJobs, discoveryJobs, clientJobs, raised := [], [], [], [];
    }

    /** Exactly one confirm or reject for each status and none otherwise, at most one job for each event, and a client
        connection exactly for a confirm, on the descriptor that it carries. */
    method HandleEvent(e: Event)
      modifies this
      ensures |raised| == |old(raised)| + if e.ServiceStatus? then 1 else 0
      ensures e.ServiceStatus? ==>
        var outcome := raised[|old(raised)|];
        && outcome == (if e.status.Connected? then ConnectCfm(e.service, ToWord(e.status.socketFd))
                       else ConnectRej(e.service))
        && (outcome.ConnectCfm? ==> clientJobs == old(clientJobs) + [(e.service, ToInt32(outcome.serviceId))])
        && (outcome.ConnectRej? ==> clientJobs == old(clientJobs))
      ensures listenerJobs == old(listenerJobs) + (if e.ProvideService? then [e.service] else [])
      ensures discoveryJobs == old(discoveryJobs) + (if e.ConnectReq? then [e.service] else [])
      ensures |listenerJobs| + |discoveryJobs| + |clientJobs|
           <= old(|listenerJobs| + |discoveryJobs| + |clientJobs|) + 1
      ensures var r := OnTransportEvent(e);
        && raised == old(raised) + r.raised
        && listenerJobs == old(listenerJobs) + (if r.listener then [e.service] else [])
        && discoveryJobs == old(discoveryJobs) + (if r.discovery then [e.service] else [])
        && (r.client <==> e.ServiceStatus? && e.status.Connected?)
        && clientJobs == old(clientJobs) +
             (if e.ServiceStatus? && e.status.Connected? then [(e.service, e.status.socketFd)] else [])
    {
      match e
      case ProvideService(s) =>
        listenerJobs := listenerJobs + [s];
      case ConnectReq(s) =>
        discoveryJobs := discoveryJobs + [s];
      case ServiceStatus(s, status) =>
        match status {
          case Disconnected => raised := raised + [ConnectRej(s)];
          case NotFound => raised := raised + [ConnectRej(s)];
          case Connected(fd) =>
            CastRoundTrip(fd);
            raised := raised + [ConnectCfm(s, ToWord(fd))];
            clientJobs := clientJobs + [(s, fd)];
        }
      case _ =>
    }
  }

  // ----- The discovery job -----

  const MAX_NUM_ATTEMPTS := 5

  /** One call of FindService: an answer, silence until the receive timeout, or a failed sendto, on which the
      process exits. */
  datatype Answer = Found | Silent | SendFails

  class ConnectService {
    const service: Word
    const answers: nat -> Answer
    const connectResult: Int32     // descriptor from ConnectToServer, or -1
    var numAttempts: nat
    var serviceFound: bool
    var asked: nat                 // discovery requests sent

    constructor (service: Word, answers: nat -> Answer, connectResult: Int32)
      ensures numAttempts == 0 && asked == 0
      ensures this.service == service && this.answers == answers && this.connectResult == connectResult
    {
      this.service, this.answers, this.connectResult := service, answers, connectResult;
      numAttempts, serviceFound, asked := 0, false, 0;
    }

    method FindService() returns (exited: bool)
      modifies this`serviceFound, this`asked
      ensures asked == old(asked) + 1
      ensures exited <==> answers(old(asked)) == SendFails
      ensures serviceFound <==> old(serviceFound) || answers(old(asked)) == Found
    {
      var answer := answers(asked);
      asked := asked + 1;
      exited := answer == SendFails;
      if answer == Found {
        serviceFound := true;
      }
    }

    /** At most five attempts, and exactly one status unless the process exits: the statuses differ exactly by
        whether some attempt was answered, every earlier one being silent, and whether connecting worked. */
    method Execute() returns (exited: bool, status: Status)
      requires numAttempts == 0 && asked == 0
      modifies this
      ensures 1 <= asked <= 5
      ensures forall i :: 0 <= i < asked - 1 ==> answers(i) == Silent
      ensures exited <==> answers(asked - 1) == SendFails
      ensures !exited && answers(asked - 1) == Found ==>
        status == if connectResult != -1 then Connected(connectResult) else Disconnected
      ensures !exited && answers(asked - 1) == Silent ==> status == NotFound && asked == 5
    {
      status := NotFound;
      serviceFound := false;
      while numAttempts < MAX_NUM_ATTEMPTS
        invariant 0 <= numAttempts <= MAX_NUM_ATTEMPTS && asked <= MAX_NUM_ATTEMPTS
        invariant numAttempts < MAX_NUM_ATTEMPTS ==> asked == numAttempts && !serviceFound
        invariant numAttempts == MAX_NUM_ATTEMPTS ==> asked >= 1
        invariant numAttempts == MAX_NUM_ATTEMPTS && !serviceFound ==> asked == MAX_NUM_ATTEMPTS
        invariant forall i :: 0 <= i < asked ==> answers(i) == if serviceFound && i == asked - 1 then Found else Silent
        decreases MAX_NUM_ATTEMPTS - numAttempts
      {
        exited := FindService();
        if exited {
          return;
        }
        if !serviceFound {
          numAttempts := numAttempts + 1;
        } else {
          numAttempts := MAX_NUM_ATTEMPTS;
        }
      }
      exited := false;
      if serviceFound {
        status := if connectResult != -1 then Connected(connectResult) else Disconnected;
      }
    }
  }
}
