/** Asynchronous connection attempts without SSL: one main loop, and one worker
    thread for each attempt, stepping in any order. Each attempt has a connection
    of its own. */
module Connection {
  import opened Options

  const AY_NONE: int := 0
  const AY_CANCEL_CONNECT: int := -11
  const AY_UI_REQUEST: int := -13

  /** How the worker gets its socket. */
  datatype Kind = Server | Direct | Proxy

  /** Where the worker is: what it does next. A check reads the status and goes on
      either to `next` or to giving up. */
  datatype Worker =
    | PushStart
    | Check0
    | Accept
    | AcceptFailed
    | Connect
    | Check1
    | TestSocket
    | SetStatus
    | ClearSocket
    | ConnectProxy
    | Check2(proxyfd: int)
    | Negotiate(proxyfd: int)
    | Check3(proxyfd: int, retval: int)
    | FinishProxy(proxyfd: int, retval: int)
    | ProxyFailed(error: int)
    | ClearProxySocket
    | GiveUp
    | PushFinal
    | Gone

  /** What the main loop has done for the attempt. */
  datatype Phase = Waiting | Polling | Popped | Cleaned | Complete

  /** What the completion callback was told, and the descriptors it found. */
  datatype Report = Report(status: int, sockfd: int, listenfd: int)

  /** `status`, `sockfd` and `listenfd` are the shared fields; `leash` counts the
      tokens in the queue. The last fields record history: the status at the
      start, what the direct connect returned, whether the worker gave up right
      after it, whether the attempt was cancelled while active, whether a
      separate disconnect closed the socket of a finished worker, and the
      callbacks made. */
  datatype Attempt = Attempt(
    kind: Kind, worker: Worker, phase: Phase, tag: int,
    status: int, sockfd: int, listenfd: int, leash: nat,
    status0: int, result: int, gaveUp: bool, cancelled: bool, lost: bool, reports: seq<Report>)

  /** `main` is the attempt the main thread is busy with: waiting for its start
      token, or inside its poll. */
  datatype State = State(attempts: seq<Attempt>, active: seq<nat>, main: Option<nat>)

  datatype Event =
    | Begin(kind: Kind, status0: int, listenfd: int)
    | PopStart(tag: int)
    | Work(i: nat, answer: int)
    | TryPop(i: nat)
    | CleanUp
    | CallBack
    | Cancel(tag: int)
    | Disconnect(i: nat)

  // ----- Steps -----

  function NewAttempt(kind: Kind, status0: int, listenfd: int): Attempt {
    Attempt(kind, PushStart, Waiting, 0, status0, -1, listenfd, 0, status0, 0, false, false, false, [])
  }

  /** `ay_check_continue_connecting`. */
  function Check(a: Attempt, next: Worker, direct: bool): Attempt {
    if a.status == AY_CANCEL_CONNECT then a.(worker := GiveUp, gaveUp := direct) else a.(worker := next)
  }

  /** One access of `_do_connect` to the shared state. `answer` is what the system
      or the proxy answers. */
  function WorkerStep(a: Attempt, answer: int): Attempt {
    match a.worker
    case PushStart => a.(leash := a.leash + 1, worker := Check0)
    case Check0 => Check(a, match a.kind case Server => Accept case Direct => Connect case Proxy => ConnectProxy, false)
    case Accept =>
      if answer < 0 then a.(status := -answer, worker := AcceptFailed)
      else a.(sockfd := answer, worker := PushFinal)
    case AcceptFailed => a.(sockfd := -1, worker := PushFinal)
    case Connect => a.(sockfd := answer, result := answer, worker := Check1)
    case Check1 => Check(a, TestSocket, true)
    case TestSocket => a.(worker := if a.sockfd < 0 then SetStatus else PushFinal)
    case SetStatus => a.(status := a.sockfd, worker := ClearSocket)
    case ClearSocket => a.(sockfd := -1, worker := PushFinal)
    case ConnectProxy => a.(worker := if answer >= 0 then Check2(answer) else ProxyFailed(answer))
    case Check2(fd) => Check(a, Negotiate(fd), false)
    case Negotiate(fd) => a.(worker := Check3(fd, answer))
    case Check3(fd, retval) => Check(a, FinishProxy(fd, retval), false)
    case FinishProxy(fd, retval) =>
      if retval < 0 then a.(status := retval, worker := PushFinal)
      else a.(sockfd := fd, worker := PushFinal)
    case ProxyFailed(error) => a.(status := error, worker := ClearProxySocket)
    case ClearProxySocket => a.(sockfd := -1, worker := PushFinal)
    case GiveUp => a.(leash := a.leash + 1, worker := Gone)
    case PushFinal => a.(leash := a.leash + 1, worker := Gone)
    case Gone => a
  }

  /** `ay_connection_disconnect`. */
  function Disconnected(a: Attempt): Attempt {
    a.(sockfd := if a.sockfd >= 0 then -1 else a.sockfd,
       listenfd := if a.listenfd >= 0 then -1 else a.listenfd)
  }

  function Find(s: State, active: seq<nat>, tag: int): Option<nat> {
    if active == [] then None
    else if active[0] < |s.attempts| && s.attempts[active[0]].tag == tag then Some(active[0])
    else Find(s, active[1..], tag)
  }

  function Without(active: seq<nat>, i: nat): seq<nat> {
    if active == [] then []
    else if active[0] == i then active[1..]
    else [active[0]] + Without(active[1..], i)
  }

  /** The state after an event, if the event can happen. The main thread does one
      thing at a time: while it waits or polls, it takes no other call. The code for
      a question to the user is set by SSL alone, so that nothing else answers it. */
  function Next(s: State, e: Event): Option<State> {
    match e
    case Begin(kind, status0, listenfd) =>
      if s.main.None? && listenfd >= -1 && status0 != AY_UI_REQUEST then
        Some(s.(attempts := s.attempts + [NewAttempt(kind, status0, listenfd)], main := Some(|s.attempts|)))
      else None
    case PopStart(tag) =>
      if s.main.Some? && s.main.value < |s.attempts| then
        var i := s.main.value;
        var a := s.attempts[i];
        if a.phase == Waiting && a.leash > 0
           && forall j :: 0 <= j < |s.attempts| && s.attempts[j].phase != Complete ==> s.attempts[j].tag != tag then
          Some(State(s.attempts[i := a.(leash := a.leash - 1, phase := Polling, tag := tag)], s.active + [i], None))
        else None
      else None
    case Work(i, answer) =>
      if i < |s.attempts| && s.attempts[i].worker != Gone && answer != AY_UI_REQUEST then
        Some(s.(attempts := s.attempts[i := WorkerStep(s.attempts[i], answer)]))
      else None
    case TryPop(i) =>
      if s.main.None? && i < |s.attempts| && s.attempts[i].phase == Polling && s.attempts[i].leash > 0 then
        var a := s.attempts[i];
        var b := a.(leash := a.leash - 1);
        if a.status == AY_UI_REQUEST then Some(s.(attempts := s.attempts[i := b]))
        else Some(s.(attempts := s.attempts[i := b.(phase := Popped)], main := Some(i)))
      else None
    case CleanUp =>
      if s.main.Some? && s.main.value < |s.attempts| && s.attempts[s.main.value].phase == Popped then
        var a := s.attempts[s.main.value];
        var b := if a.status != AY_NONE then Disconnected(a) else a;
        Some(s.(attempts := s.attempts[s.main.value := b.(phase := Cleaned)]))
      else None
    case CallBack =>
      if s.main.Some? && s.main.value < |s.attempts| && s.attempts[s.main.value].phase == Cleaned then
        var i := s.main.value;
        var a := s.attempts[i];
        var report := Report(a.status, a.sockfd, a.listenfd);
        Some(State(s.attempts[i := a.(phase := Complete, reports := a.reports + [report])],
                   Without(s.active, i), None))
      else None
    case Cancel(tag) =>
      if s.main.None? then
        match Find(s, s.active, tag)
        case None => Some(s)
        case Some(i) =>
          if i < |s.attempts| then
            Some(s.(attempts := s.attempts[i := s.attempts[i].(status := AY_CANCEL_CONNECT, cancelled := true)],
                    active := Without(s.active, i)))
          else None
      else None
    case Disconnect(i) =>
      if s.main.None? && i < |s.attempts| && s.attempts[i].phase != Complete then
        var a := s.attempts[i];
        var lost := a.lost || (a.sockfd >= 0 && (a.worker == PushFinal || a.worker == Gone));
        Some(s.(attempts := s.attempts[i := Disconnected(a).(lost := lost)]))
      else None
  }
}
