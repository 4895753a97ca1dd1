/** What every interleaving of the connection protocol keeps. */
module ConnectionSafety {
  import opened Options
  import opened Connection

  /** Tokens the worker has put into the queue. */
  function Pushed(w: Worker): nat {
    if w.PushStart? then 0 else if w.Gone? then 2 else 1
  }

  /** Tokens the main loop has taken out. */
  function Taken(p: Phase): nat {
    match p
    case Waiting => 0
    case Polling => 1
    case _ => 2
  }

  /** The descriptor left when the completion reports no success: -1, unless the
      worker gave up between a direct connect that failed with another error code
      and the test of its result. */
  function Leftover(a: Attempt): int {
    if a.gaveUp && a.result < -1 then a.result else -1
  }

  predicate ReportOk(a: Attempt, r: Report) {
    if r.status == AY_NONE
    then a.status0 == AY_NONE && !a.cancelled && (r.sockfd >= 0 <==> !a.lost)
    else r.listenfd == -1 && r.sockfd == Leftover(a)
  }

  /** The worker's own part of the invariant. */
  predicate WorkerOk(a: Attempt) {
    match a.worker
    case AcceptFailed => a.status != AY_NONE
    case SetStatus => a.sockfd < 0
    case ClearSocket => a.status != AY_NONE
    case Check2(fd) => fd >= 0
    case Negotiate(fd) => fd >= 0
    case Check3(fd, _) => fd >= 0
    case FinishProxy(fd, _) => fd >= 0
    case ProxyFailed(error) => error < 0
    case ClearProxySocket => a.status != AY_NONE
    case GiveUp => a.status == AY_CANCEL_CONNECT
    case PushFinal => a.status == AY_NONE ==> (a.sockfd >= 0 <==> !a.lost)
    case Gone => a.status == AY_NONE ==> (a.sockfd >= 0 <==> !a.lost)
    case _ => true
  }

  /** The worker stands between the direct connect and the clean-up of its result. */
  predicate HoldsResult(w: Worker) {
    w.Check1? || w.TestSocket? || w.SetStatus? || w.ClearSocket?
  }

  predicate SocketOk(a: Attempt) {
    && a.listenfd >= -1
    && (a.gaveUp ==> a.worker.GiveUp? || a.worker.Gone?)
    && (a.lost ==> a.worker.PushFinal? || a.worker.Gone?)
    && (if (HoldsResult(a.worker) || a.gaveUp) && a.result < -1 then a.sockfd == a.result else a.sockfd >= -1)
  }

  /** Nothing that the attempt holds is the code for a question to the user. */
  predicate NoQuestion(a: Attempt) {
    && a.status != AY_UI_REQUEST && a.sockfd != AY_UI_REQUEST
    && match a.worker
       case Check3(_, retval) => retval != AY_UI_REQUEST
       case FinishProxy(_, retval) => retval != AY_UI_REQUEST
       case ProxyFailed(error) => error != AY_UI_REQUEST
       case _ => true
  }

  predicate AttemptOk(a: Attempt) {
    && a.leash + Taken(a.phase) == Pushed(a.worker)
    && (a.phase == Waiting ==> !a.cancelled)
    && (a.status0 != AY_NONE || a.cancelled ==> a.status != AY_NONE)
    && WorkerOk(a)
    && SocketOk(a)
    && NoQuestion(a)
    && (a.phase == Cleaned && a.status != AY_NONE ==> a.listenfd == -1 && a.sockfd == Leftover(a))
    && |a.reports| == (if a.phase == Complete then 1 else 0)
    && forall r :: r in a.reports ==> ReportOk(a, r)
  }

  predicate InHand(p: Phase) {
    p == Waiting || p == Popped || p == Cleaned
  }

  /** The source of the attempt is installed and its tag is in use. */
  predicate Live(p: Phase) {
    p == Polling || p == Popped || p == Cleaned
  }

  ghost predicate StateOk(s: State) {
    && (forall i :: 0 <= i < |s.attempts| ==> AttemptOk(s.attempts[i]))
    && (s.main.Some? ==> s.main.value < |s.attempts|)
    && (forall i :: 0 <= i < |s.attempts| ==> (InHand(s.attempts[i].phase) <==> s.main == Some(i)))
    && (forall i, j :: 0 <= i < j < |s.attempts| && Live(s.attempts[i].phase) && Live(s.attempts[j].phase)
          ==> s.attempts[i].tag != s.attempts[j].tag)
  }

  predicate Distinct(active: seq<nat>) {
    forall i, j :: 0 <= i < j < |active| ==> active[i] != active[j]
  }

  /** The list of active attempts holds exactly those that are live and not
      cancelled. */
  ghost predicate ActiveOk(s: State) {
    && Distinct(s.active)
    && (forall i: nat :: i in s.active <==>
          i < |s.attempts| && Live(s.attempts[i].phase) && !s.attempts[i].cancelled)
  }

  // ----- Steps on one attempt -----

  /** The parts of the invariant a worker step can touch. */
  predicate StepOk(a: Attempt) {
    && (a.status0 != AY_NONE || a.cancelled ==> a.status != AY_NONE)
    && WorkerOk(a)
    && SocketOk(a)
  }

  lemma DirectKeepsOk(a: Attempt, answer: int)
    requires StepOk(a)
    requires a.worker.Connect? || HoldsResult(a.worker)
    ensures StepOk(WorkerStep(a, answer)) && Pushed(WorkerStep(a, answer).worker) == 1
  {
  }

  lemma ServerKeepsOk(a: Attempt, answer: int)
    requires StepOk(a)
    requires a.worker.PushStart? || a.worker.Check0? || a.worker.Accept? || a.worker.AcceptFailed?
          || a.worker.GiveUp? || a.worker.PushFinal?
    ensures StepOk(WorkerStep(a, answer))
  {
  }

  lemma ProxyKeepsOk(a: Attempt, answer: int)
    requires StepOk(a)
    requires a.worker.ConnectProxy? || a.worker.Check2? || a.worker.Negotiate? || a.worker.Check3?
          || a.worker.FinishProxy? || a.worker.ProxyFailed? || a.worker.ClearProxySocket?
    ensures StepOk(WorkerStep(a, answer)) && Pushed(WorkerStep(a, answer).worker) == 1
  {
  }

  lemma WorkerKeepsStepOk(a: Attempt, answer: int)
    requires StepOk(a)
    ensures StepOk(WorkerStep(a, answer))
  {
    match a.worker
    case Connect => DirectKeepsOk(a, answer);
    case Check1 => DirectKeepsOk(a, answer);
    case TestSocket => DirectKeepsOk(a, answer);
    case SetStatus => DirectKeepsOk(a, answer);
    case ClearSocket => DirectKeepsOk(a, answer);
    case PushStart => ServerKeepsOk(a, answer);
    case Check0 => ServerKeepsOk(a, answer);
    case Accept => ServerKeepsOk(a, answer);
    case AcceptFailed => ServerKeepsOk(a, answer);
    case GiveUp => ServerKeepsOk(a, answer);
    case PushFinal => ServerKeepsOk(a, answer);
    case Gone =>
    case _ => ProxyKeepsOk(a, answer);
  }

  /** A worker step leaves the main loop's fields alone. */
  lemma WorkerKeepsFields(a: Attempt, answer: int)
    ensures var b := WorkerStep(a, answer);
            && b.phase == a.phase && b.tag == a.tag && b.reports == a.reports
            && b.cancelled == a.cancelled && b.status0 == a.status0
  {
  }

  /** The queue counts the worker's pushes. */
  lemma WorkerPushes(a: Attempt, answer: int)
    requires !a.worker.Gone?
    ensures var b := WorkerStep(a, answer); b.leash - a.leash == Pushed(b.worker) - Pushed(a.worker)
  {
  }

  lemma WorkerAsksNothing(a: Attempt, answer: int)
    requires WorkerOk(a) && NoQuestion(a) && answer != AY_UI_REQUEST
    ensures NoQuestion(WorkerStep(a, answer))
  {
  }

  lemma WorkerKeepsOk(a: Attempt, answer: int)
    requires AttemptOk(a) && !a.worker.Gone? && answer != AY_UI_REQUEST
    ensures AttemptOk(WorkerStep(a, answer))
  {
    WorkerAsksNothing(a, answer);
    WorkerKeepsStepOk(a, answer);
    WorkerKeepsFields(a, answer);
    WorkerPushes(a, answer);
  }

  lemma DisconnectKeepsOk(a: Attempt)
    requires AttemptOk(a) && (a.phase == Waiting || a.phase == Polling)
    ensures AttemptOk(Disconnected(a).(lost := a.lost || (a.sockfd >= 0 && (a.worker == PushFinal || a.worker == Gone))))
  {
    assert a.reports == [];
  }

  lemma CancelKeepsOk(a: Attempt)
    requires AttemptOk(a) && a.phase == Polling
    ensures AttemptOk(a.(status := AY_CANCEL_CONNECT, cancelled := true))
  {
    assert a.reports == [];
  }

  // ----- Steps on the whole state -----

  /** Changing attempt `i` alone. */
  lemma UpdateKeepsOk(s: State, i: nat, a: Attempt, main: Option<nat>, active: seq<nat>)
    requires StateOk(s) && i < |s.attempts| && AttemptOk(a)
    requires forall j :: 0 <= j < |s.attempts| && j != i ==> (InHand(s.attempts[j].phase) <==> main == Some(j))
    requires InHand(a.phase) <==> main == Some(i)
    requires main.Some? ==> main.value < |s.attempts|
    requires Live(a.phase) ==> forall j :: 0 <= j < |s.attempts| && j != i && Live(s.attempts[j].phase)
                                 ==> s.attempts[j].tag != a.tag
    ensures StateOk(State(s.attempts[i := a], active, main))
  {
  }

  lemma {:induction false} FindFinds(s: State, active: seq<nat>, tag: int)
    ensures var r := Find(s, active, tag);
            && (r.Some? ==> r.value in active && r.value < |s.attempts| && s.attempts[r.value].tag == tag)
            && (r.None? ==> forall i | i in active && i < |s.attempts| :: s.attempts[i].tag != tag)
  {
    if active != [] {
      FindFinds(s, active[1..], tag);
    }
  }

  lemma {:induction false} WithoutRemoves(active: seq<nat>, i: nat)
    requires Distinct(active)
    ensures Distinct(Without(active, i))
    ensures forall x: nat :: x in Without(active, i) <==> x in active && x != i
  {
    if active != [] && active[0] != i {
      WithoutRemoves(active[1..], i);
      assert forall x: nat :: x in active <==> x == active[0] || x in active[1..];
      assert active[0] !in active[1..];
    }
  }

  lemma CleanUpKeepsOk(a: Attempt)
    requires AttemptOk(a) && a.phase == Popped
    ensures AttemptOk((if a.status != AY_NONE then Disconnected(a) else a).(phase := Cleaned))
  {
    assert a.reports == [];
  }

  lemma CallBackKeepsOk(a: Attempt)
    requires AttemptOk(a) && a.phase == Cleaned
    ensures AttemptOk(a.(phase := Complete, reports := a.reports + [Report(a.status, a.sockfd, a.listenfd)]))
  {
    assert a.reports == [];
  }

  lemma BeginKeepsOk(s: State, kind: Kind, status0: int, listenfd: int)
    requires StateOk(s) && s.main.None? && listenfd >= -1 && status0 != AY_UI_REQUEST
    ensures StateOk(Next(s, Begin(kind, status0, listenfd)).value)
  {
    assert AttemptOk(NewAttempt(kind, status0, listenfd));
  }

  /** The whole invariant. */
  ghost predicate Invariant(s: State) {
    StateOk(s) && ActiveOk(s)
  }

  /** With the main thread idle, an active attempt is being polled. */
  lemma ActiveIsPolling(s: State, i: nat)
    requires Invariant(s) && s.main.None? && i in s.active
    ensures i < |s.attempts| && s.attempts[i].phase == Polling
  {
  }

  /** Steps of the main thread inside one of its calls. */
  lemma MainKeepsStateOk(s: State, e: Event)
    requires Invariant(s) && Next(s, e).Some? && (e.PopStart? || e.TryPop? || e.CleanUp? || e.CallBack?)
    ensures StateOk(Next(s, e).value)
  {
    var t := Next(s, e).value;
    var i := if e.TryPop? then e.i else s.main.value;
    if e.CleanUp? {
      CleanUpKeepsOk(s.attempts[i]);
    } else if e.CallBack? {
      CallBackKeepsOk(s.attempts[i]);
    }
    UpdateKeepsOk(s, i, t.attempts[i], t.main, t.active);
  }

  lemma NextKeepsStateOk(s: State, e: Event)
    requires Invariant(s) && Next(s, e).Some?
    ensures StateOk(Next(s, e).value)
  {
    match e
    case Begin(kind, status0, listenfd) => BeginKeepsOk(s, kind, status0, listenfd);
    case Work(i, answer) =>
      WorkerKeepsOk(s.attempts[i], answer);
      WorkerKeepsFields(s.attempts[i], answer);
      UpdateKeepsOk(s, i, WorkerStep(s.attempts[i], answer), s.main, s.active);
    case Cancel(tag) =>
      FindFinds(s, s.active, tag);
      var r := Find(s, s.active, tag);
      if r.Some? {
        ActiveIsPolling(s, r.value);
        CancelKeepsOk(s.attempts[r.value]);
        UpdateKeepsOk(s, r.value, Next(s, e).value.attempts[r.value], s.main, Without(s.active, r.value));
      }
    case Disconnect(i) =>
      DisconnectKeepsOk(s.attempts[i]);
      UpdateKeepsOk(s, i, Next(s, e).value.attempts[i], s.main, s.active);
    case _ => MainKeepsStateOk(s, e);
  }

  /** Changing attempt `i` without touching whether it belongs to the list. */
  lemma UpdateKeepsActive(s: State, i: nat, a: Attempt, main: Option<nat>)
    requires ActiveOk(s) && i < |s.attempts|
    requires Live(a.phase) == Live(s.attempts[i].phase) && a.cancelled == s.attempts[i].cancelled
    ensures ActiveOk(State(s.attempts[i := a], s.active, main))
  {
    var t := State(s.attempts[i := a], s.active, main);
    forall j: nat
      ensures j in t.active <==> j < |t.attempts| && Live(t.attempts[j].phase) && !t.attempts[j].cancelled
    {
      assert j in s.active <==> j < |s.attempts| && Live(s.attempts[j].phase) && !s.attempts[j].cancelled;
    }
  }

  lemma ShorterList(s: State, i: nat, a: Attempt, main: Option<nat>, active: seq<nat>)
    requires ActiveOk(s) && i < |s.attempts| && (!Live(a.phase) || a.cancelled)
    requires Distinct(active)
    requires forall x: nat :: x in active <==> x in s.active && x != i
    ensures ActiveOk(State(s.attempts[i := a], active, main))
  {
    var t := State(s.attempts[i := a], active, main);
    forall j: nat
      ensures j in t.active <==> j < |t.attempts| && Live(t.attempts[j].phase) && !t.attempts[j].cancelled
    {
      assert j in s.active <==> j < |s.attempts| && Live(s.attempts[j].phase) && !s.attempts[j].cancelled;
    }
  }

  /** Changing attempt `i` and taking it off the list. */
  lemma RemoveKeepsActive(s: State, i: nat, a: Attempt, main: Option<nat>)
    requires ActiveOk(s) && i < |s.attempts| && (!Live(a.phase) || a.cancelled)
    ensures ActiveOk(State(s.attempts[i := a], Without(s.active, i), main))
  {
    WithoutRemoves(s.active, i);
    ShorterList(s, i, a, main, Without(s.active, i));
  }

  /** Installing the source of attempt `i` puts it on the list. */
  lemma AddKeepsActive(s: State, i: nat, a: Attempt, main: Option<nat>)
    requires ActiveOk(s) && i < |s.attempts|
    requires !Live(s.attempts[i].phase) && Live(a.phase) && !a.cancelled
    ensures ActiveOk(State(s.attempts[i := a], s.active + [i], main))
  {
    var t := State(s.attempts[i := a], s.active + [i], main);
    assert i !in s.active;
    forall j: nat
      ensures j in t.active <==> j < |t.attempts| && Live(t.attempts[j].phase) && !t.attempts[j].cancelled
    {
      assert j in s.active <==> j < |s.attempts| && Live(s.attempts[j].phase) && !s.attempts[j].cancelled;
    }
  }

  lemma BeginKeepsActive(s: State, a: Attempt, main: Option<nat>)
    requires ActiveOk(s) && !Live(a.phase)
    ensures ActiveOk(State(s.attempts + [a], s.active, main))
  {
    var t := State(s.attempts + [a], s.active, main);
    forall j: nat
      ensures j in t.active <==> j < |t.attempts| && Live(t.attempts[j].phase) && !t.attempts[j].cancelled
    {
      assert j in s.active <==> j < |s.attempts| && Live(s.attempts[j].phase) && !s.attempts[j].cancelled;
    }
  }

  lemma NextKeepsActive(s: State, e: Event)
    requires Invariant(s) && Next(s, e).Some?
    ensures ActiveOk(Next(s, e).value)
  {
    var t := Next(s, e).value;
    match e
    case Begin(kind, status0, listenfd) => BeginKeepsActive(s, NewAttempt(kind, status0, listenfd), t.main);
    case PopStart(tag) => AddKeepsActive(s, s.main.value, t.attempts[s.main.value], t.main);
    case Work(i, answer) =>
      WorkerKeepsFields(s.attempts[i], answer);
      UpdateKeepsActive(s, i, t.attempts[i], t.main);
    case TryPop(i) => UpdateKeepsActive(s, i, t.attempts[i], t.main);
    case CleanUp => UpdateKeepsActive(s, s.main.value, t.attempts[s.main.value], t.main);
    case CallBack => RemoveKeepsActive(s, s.main.value, t.attempts[s.main.value], t.main);
    case Cancel(tag) =>
      FindFinds(s, s.active, tag);
      var r := Find(s, s.active, tag);
      if r.Some? {
        RemoveKeepsActive(s, r.value, t.attempts[r.value], t.main);
      }
    case Disconnect(i) => UpdateKeepsActive(s, i, t.attempts[i], t.main);
  }

  // ----- Runs -----

  function Empty(): State {
    State([], [], None)
  }

  /** The state after a sequence of events, each of which can happen when its turn
      comes. */
  function Run(events: seq<Event>): Option<State> {
    if events == [] then Some(Empty())
    else
      var n := |events| - 1;
      match Run(events[..n])
      case None => None
      case Some(s) => Next(s, events[n])
  }

  lemma {:induction false} RunInvariant(events: seq<Event>)
    requires Run(events).Some?
    ensures Invariant(Run(events).value)
  {
    if events != [] {
      var n := |events| - 1;
      RunInvariant(events[..n]);
      NextKeepsStateOk(Run(events[..n]).value, events[n]);
      NextKeepsActive(Run(events[..n]).value, events[n]);
    }
  }

  // ----- Main results -----

  /** In every interleaving the completion callback is made at most once, and only
      after the worker's last push; before that the queue never holds a token the
      poll could take for the completion. */
  lemma CallbackOnceAndLast(events: seq<Event>, i: nat)
    requires Run(events).Some? && i < |Run(events).value.attempts|
    ensures var a := Run(events).value.attempts[i];
            && |a.reports| <= 1
            && (a.reports != [] ==> a.worker.Gone?)
            && (a.phase == Polling && a.leash > 0 ==> a.worker.Gone?)
  {
    RunInvariant(events);
    assert AttemptOk(Run(events).value.attempts[i]);
  }

  /** A callback that reports success was not cancelled and has its socket, unless a
      separate disconnect took it; any other callback finds no listening descriptor
      and the descriptor `Leftover` describes. */
  lemma ReportsAreConsistent(events: seq<Event>, i: nat, r: Report)
    requires Run(events).Some? && i < |Run(events).value.attempts|
    requires r in Run(events).value.attempts[i].reports
    ensures var a := Run(events).value.attempts[i];
            && (r.status == AY_NONE ==> !a.cancelled && a.status0 == AY_NONE && (r.sockfd >= 0 <==> !a.lost))
            && (r.status != AY_NONE ==>
                  && r.listenfd == -1 && r.sockfd < 0
                  && (r.sockfd == -1 <==> !(a.gaveUp && a.result < -1)))
  {
    RunInvariant(events);
    var a := Run(events).value.attempts[i];
    assert AttemptOk(a);
    assert ReportOk(a, r);
  }

  /** No completion is lost: once the worker is gone and the main thread idle, the
      next poll of a pending attempt makes its callback. */
  lemma CompletionArrives(events: seq<Event>, i: nat)
    requires Run(events).Some?
    requires var s := Run(events).value;
             s.main.None? && i < |s.attempts| && s.attempts[i].worker.Gone? && s.attempts[i].phase != Complete
    ensures var t := Run(events + [TryPop(i), CleanUp, CallBack]);
            t.Some? && i < |t.value.attempts| && |t.value.attempts[i].reports| == 1
  {
    RunInvariant(events);
    var s := Run(events).value;
    assert AttemptOk(s.attempts[i]);
    RunMore(events, TryPop(i));
    RunMore(events + [TryPop(i)], CleanUp);
    RunMore(events + [TryPop(i)] + [CleanUp], CallBack);
    assert events + [TryPop(i)] + [CleanUp] + [CallBack] == events + [TryPop(i), CleanUp, CallBack];
  }

  /** How many steps a worker has left at most. */
  function StepsLeft(w: Worker): nat {
    match w
    case PushStart => 8
    case Check0 => 7
    case ConnectProxy => 6
    case Check2(_) => 5
    case Negotiate(_) => 4
    case Check3(_, _) => 3
    case FinishProxy(_, _) => 2
    case ProxyFailed(_) => 3
    case ClearProxySocket => 2
    case Accept => 3
    case AcceptFailed => 2
    case Connect => 6
    case Check1 => 5
    case TestSocket => 4
    case SetStatus => 3
    case ClearSocket => 2
    case GiveUp => 1
    case PushFinal => 1
    case Gone => 0
  }

  lemma WorkerAdvances(a: Attempt, answer: int)
    requires !a.worker.Gone?
    ensures StepsLeft(WorkerStep(a, answer).worker) < StepsLeft(a.worker)
  {
    if a.worker.Connect? || HoldsResult(a.worker) {
      DirectAdvances(a, answer);
    } else if a.worker.ConnectProxy? || a.worker.Check2? || a.worker.Negotiate? || a.worker.Check3?
           || a.worker.FinishProxy? || a.worker.ProxyFailed? || a.worker.ClearProxySocket? {
      ProxyAdvances(a, answer);
    } else {
      OtherAdvances(a, answer);
    }
  }

  lemma DirectAdvances(a: Attempt, answer: int)
    requires a.worker.Connect? || HoldsResult(a.worker)
    ensures StepsLeft(WorkerStep(a, answer).worker) < StepsLeft(a.worker)
  {
  }

  lemma ProxyAdvances(a: Attempt, answer: int)
    requires a.worker.ConnectProxy? || a.worker.Check2? || a.worker.Negotiate? || a.worker.Check3?
          || a.worker.FinishProxy? || a.worker.ProxyFailed? || a.worker.ClearProxySocket?
    ensures StepsLeft(WorkerStep(a, answer).worker) < StepsLeft(a.worker)
  {
  }

  lemma OtherAdvances(a: Attempt, answer: int)
    requires a.worker.PushStart? || a.worker.Check0? || a.worker.Accept? || a.worker.AcceptFailed?
          || a.worker.GiveUp? || a.worker.PushFinal?
    ensures StepsLeft(WorkerStep(a, answer).worker) < StepsLeft(a.worker)
  {
  }

  /** A worker that is not done can always take its next step. */
  lemma WorkRuns(events: seq<Event>, i: nat, answer: int)
    requires Run(events).Some? && answer != AY_UI_REQUEST
    requires var s := Run(events).value;
             s.main.None? && i < |s.attempts| && s.attempts[i].phase != Complete && !s.attempts[i].worker.Gone?
    ensures var t := Run(events + [Work(i, answer)]);
            && t.Some? && t.value.main.None? && i < |t.value.attempts|
            && t.value.attempts[i].phase != Complete
            && StepsLeft(t.value.attempts[i].worker) < StepsLeft(Run(events).value.attempts[i].worker)
  {
    var a := Run(events).value.attempts[i];
    RunMore(events, Work(i, answer));
    WorkerAdvances(a, answer);
    WorkerKeepsFields(a, answer);
  }

  /** Steps of one worker, with the answers of the system from the `from`th on. */
  function Works(i: nat, answers: nat -> int, from: nat, n: nat): seq<Event>
    decreases n
  {
    if n == 0 then [] else [Work(i, answers(from))] + Works(i, answers, from + 1, n - 1)
  }

  /** How many steps the worker of a pending attempt has left at most. */
  function Left(events: seq<Event>, i: nat): int {
    match Run(events)
    case None => -1
    case Some(s) =>
      if s.main.None? && i < |s.attempts| && s.attempts[i].phase != Complete then StepsLeft(s.attempts[i].worker)
      else -1
  }

  lemma WorkCounts(events: seq<Event>, i: nat, answer: int)
    requires Left(events, i) > 0 && answer != AY_UI_REQUEST
    ensures 0 <= Left(events + [Work(i, answer)], i) < Left(events, i)
  {
    WorkRuns(events, i, answer);
  }

  lemma WorksFirst(events: seq<Event>, i: nat, answers: nat -> int, from: nat, n: nat)
    ensures events + [Work(i, answers(from))] + Works(i, answers, from + 1, n) ==
            events + Works(i, answers, from, n + 1)
  {
  }

  /** What each step of the worker counts down comes to zero. */
  lemma {:induction false} CountsDown(left: seq<Event> -> int, done: seq<Event> -> bool, events: seq<Event>, i: nat,
      answers: nat -> int, from: nat) returns (n: nat)
    requires left(events) >= 0
    requires forall es, k: nat :: left(es) > 0 ==> 0 <= left(es + [Work(i, answers(k))]) < left(es)
    requires forall es :: left(es) == 0 ==> done(es)
    ensures n <= left(events) && done(events + Works(i, answers, from, n))
    decreases left(events)
  {
    if left(events) == 0 {
      n := 0;
      assert events + [] == events;
    } else {
      var rest := CountsDown(left, done, events + [Work(i, answers(from))], i, answers, from + 1);
      WorksFirst(events, i, answers, from, rest);
      n := rest + 1;
    }
  }

  ghost predicate CalledBack(events: seq<Event>, i: nat) {
    var t := Run(events);
    t.Some? && i < |t.value.attempts| && |t.value.attempts[i].reports| == 1
  }

  lemma FinishedArrives(events: seq<Event>, i: nat)
    requires Left(events, i) == 0
    ensures CalledBack(events + [TryPop(i), CleanUp, CallBack], i)
  {
    CompletionArrives(events, i);
  }

  lemma WorkerFinishes(events: seq<Event>, i: nat, answers: nat -> int) returns (n: nat)
    requires Left(events, i) >= 0 && forall k :: answers(k) != AY_UI_REQUEST
    ensures n <= Left(events, i)
    ensures CalledBack(events + Works(i, answers, 0, n) + [TryPop(i), CleanUp, CallBack], i)
  {
    var left := es => Left(es, i);
    var done := es => CalledBack(es + [TryPop(i), CleanUp, CallBack], i);
    forall es, k: nat | left(es) > 0 ensures 0 <= left(es + [Work(i, answers(k))]) < left(es) {
      WorkCounts(es, i, answers(k));
    }
    forall es | left(es) == 0 ensures done(es) {
      FinishedArrives(es, i);
    }
    n := CountsDown(left, done, events, i, answers, 0);
  }

  /** What the main thread still does in the call that it is busy with: the start token,
      which the worker may yet have to push, or the rest of the poll. */
  function FinishMain(s: State, tag: int): seq<Event> {
    if s.main.None? || s.main.value >= |s.attempts| then []
    else
      var j := s.main.value;
      match s.attempts[j].phase
      case Waiting => (if s.attempts[j].leash == 0 then [Work(j, 0)] else []) + [PopStart(tag)]
      case Popped => [CleanUp, CallBack]
      case Cleaned => [CallBack]
      case _ => []
  }

  /** The main loop gives out no tag twice. */
  predicate Unused(s: State, tag: int) {
    forall j :: 0 <= j < |s.attempts| && s.attempts[j].phase != Complete ==> s.attempts[j].tag != tag
  }

  /** The start token is there: the attempt becomes one that is polled. */
  lemma TokenTaken(events: seq<Event>, s: State, tag: int, j: nat, i: nat)
    requires Run(events) == Some(s) && Unused(s, tag) && s.main == Some(j)
    requires j < |s.attempts| && s.attempts[j].phase == Waiting && s.attempts[j].leash > 0
    requires i < |s.attempts| && s.attempts[i].phase != Complete
    ensures Left(events + [PopStart(tag)], i) >= 0
  {
    RunMore(events, PopStart(tag));
  }

  /** The worker pushes the start token. */
  lemma TokenPushed(events: seq<Event>, s: State, j: nat) returns (t: State)
    requires Run(events) == Some(s) && j < |s.attempts| && s.attempts[j].worker == PushStart
    ensures Run(events + [Work(j, 0)]) == Some(t)
    ensures t == s.(attempts := s.attempts[j := s.attempts[j].(leash := s.attempts[j].leash + 1, worker := Check0)])
  {
    RunMore(events, Work(j, 0));
    t := Next(s, Work(j, 0)).value;
  }

  lemma StartFinishes(events: seq<Event>, s: State, tag: int, j: nat, i: nat)
    requires Run(events) == Some(s) && Unused(s, tag) && s.main == Some(j)
    requires j < |s.attempts| && AttemptOk(s.attempts[j]) && s.attempts[j].phase == Waiting
    requires i < |s.attempts| && s.attempts[i].phase != Complete
    ensures Left(events + FinishMain(s, tag), i) >= 0
  {
    if s.attempts[j].leash == 0 {
      var t := TokenPushed(events, s, j);
      TokenTaken(events + [Work(j, 0)], t, tag, j, i);
      assert events + [Work(j, 0)] + [PopStart(tag)] == events + FinishMain(s, tag);
    } else {
      TokenTaken(events, s, tag, j, i);
      assert [] + [PopStart(tag)] == [PopStart(tag)];
    }
  }

  lemma Calls(events: seq<Event>, s: State, j: nat) returns (t: State)
    requires Run(events) == Some(s) && s.main == Some(j)
    requires j < |s.attempts| && s.attempts[j].phase == Cleaned && s.attempts[j].reports == []
    ensures Run(events + [CallBack]) == Some(t) && t.main == None && |t.attempts| == |s.attempts|
    ensures |t.attempts[j].reports| == 1
    ensures forall i :: 0 <= i < |s.attempts| && i != j ==> t.attempts[i] == s.attempts[i]
  {
    RunMore(events, CallBack);
    t := Next(s, CallBack).value;
  }

  lemma CallFinishes(events: seq<Event>, s: State, j: nat, i: nat)
    requires Run(events) == Some(s) && s.main == Some(j)
    requires j < |s.attempts| && s.attempts[j].phase == Cleaned && s.attempts[j].reports == []
    requires i < |s.attempts| && s.attempts[i].phase != Complete
    ensures if i == j then CalledBack(events + [CallBack], i) else Left(events + [CallBack], i) >= 0
  {
    var t := Calls(events, s, j);
  }

  lemma Cleans(events: seq<Event>, s: State, j: nat) returns (t: State)
    requires Run(events) == Some(s) && s.main == Some(j) && j < |s.attempts| && s.attempts[j].phase == Popped
    ensures Run(events + [CleanUp]) == Some(t) && t.main == s.main && |t.attempts| == |s.attempts|
    ensures t.attempts[j].phase == Cleaned && t.attempts[j].reports == s.attempts[j].reports
    ensures forall i :: 0 <= i < |s.attempts| && i != j ==> t.attempts[i] == s.attempts[i]
  {
    RunMore(events, CleanUp);
    t := Next(s, CleanUp).value;
  }

  lemma PollFinishes(events: seq<Event>, s: State, tag: int, j: nat, i: nat)
    requires Run(events) == Some(s) && s.main == Some(j)
    requires j < |s.attempts| && AttemptOk(s.attempts[j]) && s.attempts[j].phase in {Popped, Cleaned}
    requires i < |s.attempts| && s.attempts[i].phase != Complete
    ensures var more := events + FinishMain(s, tag); if i == j then CalledBack(more, i) else Left(more, i) >= 0
  {
    assert s.attempts[j].reports == [];
    if s.attempts[j].phase == Popped {
      var t := Cleans(events, s, j);
      CallFinishes(events + [CleanUp], t, j, i);
      assert events + [CleanUp] + [CallBack] == events + [CleanUp, CallBack];
    } else {
      CallFinishes(events, s, j, i);
    }
  }

  /** The poll that makes the callback, unless the main thread is in the middle of it. */
  function Poll(s: State, i: nat): seq<Event> {
    if s.main == Some(i) && i < |s.attempts| && s.attempts[i].phase != Waiting then [] else [TryPop(i), CleanUp, CallBack]
  }

  lemma MainFinishes(events: seq<Event>, s: State, tag: int, i: nat)
    requires Run(events) == Some(s) && Unused(s, tag) && i < |s.attempts| && s.attempts[i].phase != Complete
    ensures var more := events + FinishMain(s, tag);
            if Poll(s, i) == [] then CalledBack(more, i) else Left(more, i) >= 0
  {
    RunInvariant(events);
    if s.main.None? {
      assert events + [] == events;
    } else if s.attempts[s.main.value].phase == Waiting {
      StartFinishes(events, s, tag, s.main.value, i);
    } else {
      PollFinishes(events, s, tag, s.main.value, i);
    }
  }

  /** From every reachable state, a pending attempt gets its callback once the main
      thread has finished what it is doing, after at most eight steps of its worker and
      one poll, whatever the system answers to each of these steps. */
  lemma AttemptCompletes(events: seq<Event>, s: State, i: nat, answers: nat -> int, tag: int) returns (n: nat)
    requires Run(events) == Some(s) && i < |s.attempts| && s.attempts[i].phase != Complete
    requires Unused(s, tag) && forall k :: answers(k) != AY_UI_REQUEST
    ensures n <= 8
    ensures var t := Run(events + FinishMain(s, tag) + Works(i, answers, 0, n) + Poll(s, i));
            t.Some? && i < |t.value.attempts| && |t.value.attempts[i].reports| == 1
  {
    var more := events + FinishMain(s, tag);
    MainFinishes(events, s, tag, i);
    if Poll(s, i) == [] {
      n := 0;
      assert more + [] + [] == more;
    } else {
      n := WorkerFinishes(more, i, answers);
    }
  }

  lemma RunMore(events: seq<Event>, e: Event)
    requires Run(events).Some?
    ensures Run(events + [e]) == Next(Run(events).value, e)
  {
    assert (events + [e])[..|events|] == events;
  }

  /** Cancelling the tag of an active attempt cancels that attempt and no other. */
  lemma CancelHitsItsAttempt(events: seq<Event>, i: nat)
    requires Run(events).Some?
    requires var s := Run(events).value; s.main.None? && i in s.active
    ensures var s := Run(events).value;
            && i < |s.attempts|
            && var t := Next(s, Cancel(s.attempts[i].tag));
               && t.Some? && |t.value.attempts| == |s.attempts|
               && t.value.attempts[i].cancelled && t.value.attempts[i].status == AY_CANCEL_CONNECT
               && forall j :: 0 <= j < |s.attempts| && j != i ==> t.value.attempts[j] == s.attempts[j]
  {
    RunInvariant(events);
    var s := Run(events).value;
    ActiveIsPolling(s, i);
    FindFinds(s, s.active, s.attempts[i].tag);
    var r := Find(s, s.active, s.attempts[i].tag);
    if r.Some? {
      ActiveIsPolling(s, r.value);
    }
  }

  // ----- Two runs that show the exceptions are real -----

  /** A run in which there is one attempt. */
  ghost predicate Solo(events: seq<Event>, a: Attempt, active: seq<nat>, main: Option<nat>) {
    Run(events) == Some(State([a], active, main))
  }

  lemma SoloBegin()
    ensures Solo([Begin(Direct, 0, -1)], NewAttempt(Direct, 0, -1), [], Some(0))
  {
    RunMore([], Begin(Direct, 0, -1));
    assert [] + [Begin(Direct, 0, -1)] == [Begin(Direct, 0, -1)];
    assert [] + [NewAttempt(Direct, 0, -1)] == [NewAttempt(Direct, 0, -1)];
  }

  /** A step that changes the attempt to `b`. */
  lemma SoloStep(events: seq<Event>, a: Attempt, active: seq<nat>, main: Option<nat>, e: Event,
                 b: Attempt, active': seq<nat>, main': Option<nat>)
    requires Solo(events, a, active, main)
    requires Next(State([a], active, main), e) == Some(State([a][0 := b], active', main'))
    ensures Solo(events + [e], b, active', main')
  {
    RunMore(events, e);
    assert [a][0 := b] == [b];
  }

  lemma SoloWork(events: seq<Event>, a: Attempt, active: seq<nat>, main: Option<nat>, answer: int)
    requires Solo(events, a, active, main) && !a.worker.Gone? && answer != AY_UI_REQUEST
    ensures Solo(events + [Work(0, answer)], WorkerStep(a, answer), active, main)
  {
    SoloStep(events, a, active, main, Work(0, answer), WorkerStep(a, answer), active, main);
  }

  /** A direct attempt up to the answer of its connect. */
  lemma DirectRun(answer: int) returns (events: seq<Event>, a: Attempt)
    requires answer != AY_UI_REQUEST
    ensures a == Attempt(Direct, Check1, Polling, 7, 0, answer, -1, 0, 0, answer, false, false, false, [])
    ensures Solo(events, a, [0], None)
  {
    var a0 := NewAttempt(Direct, 0, -1);
    events := [Begin(Direct, 0, -1)];
    SoloBegin();
    SoloWork(events, a0, [], Some(0), 0);
    events := events + [Work(0, 0)];
    var a1 := WorkerStep(a0, 0);
    a := a1.(leash := 0, phase := Polling, tag := 7);
    assert [] + [0] == [0];
    SoloStep(events, a1, [], Some(0), PopStart(7), a, [0], None);
    events := events + [PopStart(7)];
    SoloWork(events, a, [0], None, 0);
    a := WorkerStep(a, 0);
    events := events + [Work(0, 0)];
    SoloWork(events, a, [0], None, answer);
    a := WorkerStep(a, answer);
    events := events + [Work(0, answer)];
  }

  /** Two more steps of the worker. */
  lemma SoloWorkTwice(events: seq<Event>, a: Attempt, active: seq<nat>) returns (more: seq<Event>)
    requires Solo(events, a, active, None) && !a.worker.Gone? && !WorkerStep(a, 0).worker.Gone?
    ensures Solo(more, WorkerStep(WorkerStep(a, 0), 0), active, None)
  {
    SoloWork(events, a, active, None, 0);
    SoloWork(events + [Work(0, 0)], WorkerStep(a, 0), active, None, 0);
    more := events + [Work(0, 0)] + [Work(0, 0)];
  }

  /** Cancelled while its connect fails, a direct attempt reports the cancellation
      with the error code still in `sockfd`. */
  lemma CancelledFailure() returns (events: seq<Event>)
    ensures Run(events).Some? && |Run(events).value.attempts| == 1
    ensures Run(events).value.attempts[0].reports == [Report(AY_CANCEL_CONNECT, -14, -1)]
  {
    var a;
    events, a := DirectRun(-14);
    var b := a.(status := AY_CANCEL_CONNECT, cancelled := true);
    assert Find(State([a], [0], None), [0], 7) == Some(0) && Without([0], 0) == [];
    SoloStep(events, a, [0], None, Cancel(7), b, [], None);
    events := SoloWorkTwice(events + [Cancel(7)], b, []);
    var c := WorkerStep(WorkerStep(b, 0), 0);
    CompletionReports(events, c, []);
    events := events + [TryPop(0), CleanUp, CallBack];
  }

  /** A disconnect after the worker's test of its socket and before the poll makes
      the callback report success without a socket. */
  lemma DisconnectedSuccess() returns (events: seq<Event>)
    ensures Run(events).Some? && |Run(events).value.attempts| == 1
    ensures Run(events).value.attempts[0].reports == [Report(AY_NONE, -1, -1)]
  {
    var a;
    events, a := DirectRun(5);
    events := SoloWorkTwice(events, a, [0]);
    a := WorkerStep(WorkerStep(a, 0), 0);
    var b := a.(sockfd := -1, lost := true);
    SoloStep(events, a, [0], None, Disconnect(0), b, [0], None);
    events := events + [Disconnect(0)];
    SoloWork(events, b, [0], None, 0);
    events := events + [Work(0, 0)];
    CompletionReports(events, WorkerStep(b, 0), [0]);
    events := events + [TryPop(0), CleanUp, CallBack];
  }

  /** The three steps of the poll of a single attempt. */
  lemma CompletionReports(events: seq<Event>, a: Attempt, active: seq<nat>)
    requires Solo(events, a, active, None)
    requires a.phase == Polling && a.leash > 0 && a.status != AY_UI_REQUEST
    ensures var b := if a.status != AY_NONE then Disconnected(a) else a;
            var t := Run(events + [TryPop(0), CleanUp, CallBack]);
            && t.Some? && |t.value.attempts| == 1
            && t.value.attempts[0].reports == a.reports + [Report(b.status, b.sockfd, b.listenfd)]
  {
    var a1 := a.(leash := a.leash - 1, phase := Popped);
    SoloStep(events, a, active, None, TryPop(0), a1, active, Some(0));
    var a2 := (if a1.status != AY_NONE then Disconnected(a1) else a1).(phase := Cleaned);
    SoloStep(events + [TryPop(0)], a1, active, Some(0), CleanUp, a2, active, Some(0));
    var a3 := a2.(phase := Complete, reports := a2.reports + [Report(a2.status, a2.sockfd, a2.listenfd)]);
    SoloStep(events + [TryPop(0)] + [CleanUp], a2, active, Some(0), CallBack, a3, Without(active, 0), None);
    assert events + [TryPop(0)] + [CleanUp] + [CallBack] == events + [TryPop(0), CleanUp, CallBack];
  }
}
