/** Where the socket and the status that a callback finds come from. */
module ConnectionOrigins {
  import opened Options
  import opened Connection
  import opened ConnectionSafety

  /** What a worker asks the system or the proxy. */
  datatype Question = Accepting | Connecting | ConnectingProxy | Negotiating

  predicate Asks(w: Worker, q: Question) {
    match q
    case Accepting => w.Accept?
    case Connecting => w.Connect?
    case ConnectingProxy => w.ConnectProxy?
    case Negotiating => w.Negotiate?
  }

  /** In the run, attempt `i` asked `q` and was answered `v`. */
  ghost predicate Answered(events: seq<Event>, i: nat, q: Question, v: int) {
    exists k: nat :: k < |events| && AnsweredAt(events, k, i, q, v)
  }

  ghost predicate AnsweredAt(events: seq<Event>, k: nat, i: nat, q: Question, v: int)
    requires k < |events|
  {
    events[k] == Work(i, v) && Asking(Run(events[..k]), i, q)
  }

  predicate Asking(s: Option<State>, i: nat, q: Question) {
    s.Some? && i < |s.value.attempts| && Asks(s.value.attempts[i].worker, q)
  }

  /** In the run, attempt `i` began with that status. */
  ghost predicate Began(events: seq<Event>, i: nat, status0: int) {
    exists k: nat :: k < |events| && BeganAt(events, k, i, status0)
  }

  ghost predicate BeganAt(events: seq<Event>, k: nat, i: nat, status0: int)
    requires k < |events|
  {
    && events[k].Begin? && events[k].status0 == status0
    && Run(events[..k]).Some? && |Run(events[..k]).value.attempts| == i
  }

  // ----- One attempt, by the answers it has got -----

  type Answers = (Question, int) -> bool

  /** A descriptor that an accept or a connect has returned. */
  predicate Socket(got: Answers, fd: int) {
    got(Accepting, fd) || got(Connecting, fd) || got(ConnectingProxy, fd)
  }

  /** The error of a step that failed: the negated answer for an accept, and else the answer. */
  predicate Failure(got: Answers, status: int) {
    || (status > 0 && got(Accepting, -status))
    || (status < 0 && (got(Connecting, status) || got(ConnectingProxy, status) || got(Negotiating, status)))
  }

  predicate StatusTraced(a: Attempt, got: Answers, closed: bool, status: int) {
    || status == a.status0
    || (a.cancelled && status == AY_CANCEL_CONNECT)
    || Failure(got, status)
    || (closed && status == -1)
  }

  predicate WorkerTraced(w: Worker, got: Answers) {
    match w
    case Check2(fd) => got(ConnectingProxy, fd)
    case Negotiate(fd) => got(ConnectingProxy, fd)
    case Check3(fd, retval) => got(ConnectingProxy, fd) && got(Negotiating, retval)
    case FinishProxy(fd, retval) => got(ConnectingProxy, fd) && got(Negotiating, retval)
    case ProxyFailed(error) => got(ConnectingProxy, error)
    case _ => true
  }

  predicate ReportTraced(a: Attempt, got: Answers, closed: bool, r: Report) {
    && (r.sockfd >= 0 ==> Socket(got, r.sockfd))
    && StatusTraced(a, got, closed, r.status)
  }

  /** What the attempt holds has been answered. `closed` tells whether a disconnect came in between. */
  predicate PartTraced(a: Attempt, got: Answers, closed: bool) {
    && (a.sockfd >= 0 ==> Socket(got, a.sockfd))
    && (HoldsResult(a.worker) && a.sockfd < 0 ==> got(Connecting, a.sockfd) || (closed && a.sockfd == -1))
    && WorkerTraced(a.worker, got)
    && StatusTraced(a, got, closed, a.status)
  }

  /** And so has what it has reported. */
  predicate Traced(a: Attempt, got: Answers, closed: bool) {
    PartTraced(a, got, closed) && forall r :: r in a.reports ==> ReportTraced(a, got, closed, r)
  }

  /** The answers do not become fewer. */
  ghost predicate More(got: Answers, more: Answers) {
    forall q, v :: got(q, v) ==> more(q, v)
  }

  lemma StatusStays(a: Attempt, b: Attempt, got: Answers, more: Answers, closed: bool, later: bool, status: int)
    requires StatusTraced(a, got, closed, status) && More(got, more) && (closed ==> later)
    requires b.status0 == a.status0 && (a.cancelled ==> b.cancelled)
    ensures StatusTraced(b, more, later, status)
  {
  }

  lemma ReportsStay(a: Attempt, b: Attempt, got: Answers, more: Answers, closed: bool, later: bool)
    requires (forall r :: r in a.reports ==> ReportTraced(a, got, closed, r)) && More(got, more) && (closed ==> later)
    requires b.status0 == a.status0 && (a.cancelled ==> b.cancelled)
    ensures forall r :: r in a.reports ==> ReportTraced(b, more, later, r)
  {
    forall r | r in a.reports ensures ReportTraced(b, more, later, r) {
      StatusStays(a, b, got, more, closed, later, r.status);
    }
  }

  lemma PartStays(a: Attempt, got: Answers, more: Answers, closed: bool, later: bool)
    requires PartTraced(a, got, closed) && More(got, more) && (closed ==> later)
    ensures PartTraced(a, more, later)
  {
    StatusStays(a, a, got, more, closed, later, a.status);
  }

  lemma DirectTraced(a: Attempt, answer: int, got: Answers, closed: bool)
    requires PartTraced(a, got, closed) && StepOk(a) && (a.worker.Connect? || HoldsResult(a.worker))
    requires forall q :: Asks(a.worker, q) ==> got(q, answer)
    ensures PartTraced(WorkerStep(a, answer), got, closed)
  {
    assert a.worker.Connect? ==> Asks(a.worker, Connecting);
  }

  lemma ProxyTraced(a: Attempt, answer: int, got: Answers, closed: bool)
    requires PartTraced(a, got, closed) && StepOk(a)
    requires a.worker.ConnectProxy? || a.worker.Check2? || a.worker.Negotiate? || a.worker.Check3?
          || a.worker.FinishProxy? || a.worker.ProxyFailed? || a.worker.ClearProxySocket?
    requires forall q :: Asks(a.worker, q) ==> got(q, answer)
    ensures PartTraced(WorkerStep(a, answer), got, closed)
  {
    assert a.worker.ConnectProxy? ==> Asks(a.worker, ConnectingProxy);
    assert a.worker.Negotiate? ==> Asks(a.worker, Negotiating);
  }

  lemma OtherTraced(a: Attempt, answer: int, got: Answers, closed: bool)
    requires PartTraced(a, got, closed)
    requires a.worker.PushStart? || a.worker.Check0? || a.worker.Accept? || a.worker.AcceptFailed?
          || a.worker.GiveUp? || a.worker.PushFinal? || a.worker.Gone?
    requires forall q :: Asks(a.worker, q) ==> got(q, answer)
    ensures PartTraced(WorkerStep(a, answer), got, closed)
  {
    assert a.worker.Accept? ==> Asks(a.worker, Accepting);
  }

  lemma WorkTraced(a: Attempt, answer: int, got: Answers, more: Answers, closed: bool, later: bool)
    requires Traced(a, got, closed) && StepOk(a) && More(got, more) && (closed ==> later)
    requires forall q :: Asks(a.worker, q) ==> more(q, answer)
    ensures Traced(WorkerStep(a, answer), more, later)
  {
    PartStays(a, got, more, closed, later);
    if a.worker.Connect? || HoldsResult(a.worker) {
      DirectTraced(a, answer, more, later);
    } else if a.worker.ConnectProxy? || a.worker.Check2? || a.worker.Negotiate? || a.worker.Check3?
           || a.worker.FinishProxy? || a.worker.ProxyFailed? || a.worker.ClearProxySocket? {
      ProxyTraced(a, answer, more, later);
    } else {
      OtherTraced(a, answer, more, later);
    }
    WorkerKeepsFields(a, answer);
    ReportsStay(a, WorkerStep(a, answer), got, more, closed, later);
  }

  lemma QuietTraced(a: Attempt, b: Attempt, got: Answers, more: Answers, closed: bool, later: bool)
    requires Traced(a, got, closed) && More(got, more) && (closed ==> later)
    requires b == a.(leash := b.leash, phase := b.phase, tag := b.tag)
    ensures Traced(b, more, later)
  {
    PartStays(a, got, more, closed, later);
    ReportsStay(a, b, got, more, closed, later);
  }

  lemma ClosedTraced(a: Attempt, b: Attempt, got: Answers, more: Answers, closed: bool, later: bool)
    requires Traced(a, got, closed) && More(got, more) && (closed ==> later)
    requires b == Disconnected(a).(phase := b.phase, lost := b.lost) && (later || !HoldsResult(a.worker))
    ensures Traced(b, more, later)
  {
    PartStays(a, got, more, closed, later);
    ReportsStay(a, b, got, more, closed, later);
  }

  lemma CancelTraced(a: Attempt, b: Attempt, got: Answers, more: Answers, closed: bool, later: bool)
    requires Traced(a, got, closed) && More(got, more) && (closed ==> later)
    requires b == a.(status := AY_CANCEL_CONNECT, cancelled := true)
    ensures Traced(b, more, later)
  {
    PartStays(a, got, more, closed, later);
    ReportsStay(a, b, got, more, closed, later);
  }

  lemma CallTraced(a: Attempt, b: Attempt, got: Answers, more: Answers, closed: bool, later: bool)
    requires Traced(a, got, closed) && More(got, more) && (closed ==> later)
    requires b == a.(phase := Complete, reports := a.reports + [Report(a.status, a.sockfd, a.listenfd)])
    ensures Traced(b, more, later)
  {
    PartStays(a, got, more, closed, later);
    ReportsStay(a, b, got, more, closed, later);
  }

  // ----- One event -----

  lemma CleanTraced(a: Attempt, b: Attempt, got: Answers, more: Answers, closed: bool, later: bool)
    requires Traced(a, got, closed) && More(got, more) && (closed ==> later)
    requires AttemptOk(a) && a.phase == Popped
    requires b == (if a.status != AY_NONE then Disconnected(a) else a).(phase := Cleaned)
    ensures Traced(b, more, later)
  {
    assert a.worker.Gone?;
    if a.status != AY_NONE {
      ClosedTraced(a, b, got, more, closed, later);
    } else {
      QuietTraced(a, b, got, more, closed, later);
    }
  }

  /** What an event may make of attempt `i`. */
  predicate Changes(a: Attempt, b: Attempt, e: Event, i: nat) {
    || b == a.(leash := b.leash, phase := b.phase, tag := b.tag)
    || (e.Work? && e.i == i && b == WorkerStep(a, e.answer))
    || (a.phase == Popped && b == (if a.status != AY_NONE then Disconnected(a) else a).(phase := Cleaned))
    || b == a.(phase := Complete, reports := a.reports + [Report(a.status, a.sockfd, a.listenfd)])
    || b == a.(status := AY_CANCEL_CONNECT, cancelled := true)
    || (e == Disconnect(i) && b == Disconnected(a).(lost := b.lost))
  }

  lemma NextChanges(s: State, e: Event, t: State, i: nat)
    requires Next(s, e) == Some(t) && i < |s.attempts|
    ensures i < |t.attempts| && Changes(s.attempts[i], t.attempts[i], e, i)
  {
  }

  lemma ChangeTraced(a: Attempt, b: Attempt, e: Event, i: nat, got: Answers, more: Answers, closed: bool, later: bool)
    requires AttemptOk(a) && Traced(a, got, closed) && More(got, more) && (closed ==> later)
    requires Changes(a, b, e, i) && (e == Disconnect(i) ==> later)
    requires e.Work? && e.i == i ==> forall q :: Asks(a.worker, q) ==> more(q, e.answer)
    ensures Traced(b, more, later) && b.status0 == a.status0
  {
    if b == a.(leash := b.leash, phase := b.phase, tag := b.tag) {
      QuietTraced(a, b, got, more, closed, later);
    } else if e.Work? && e.i == i && b == WorkerStep(a, e.answer) {
      WorkTraced(a, e.answer, got, more, closed, later);
      WorkerKeepsFields(a, e.answer);
    } else if a.phase == Popped && b == (if a.status != AY_NONE then Disconnected(a) else a).(phase := Cleaned) {
      CleanTraced(a, b, got, more, closed, later);
    } else if b == a.(phase := Complete, reports := a.reports + [Report(a.status, a.sockfd, a.listenfd)]) {
      CallTraced(a, b, got, more, closed, later);
    } else if b == a.(status := AY_CANCEL_CONNECT, cancelled := true) {
      CancelTraced(a, b, got, more, closed, later);
    } else {
      ClosedTraced(a, b, got, more, closed, later);
    }
  }

  // ----- Runs -----

  ghost function Got(events: seq<Event>, i: nat): Answers {
    (q: Question, v: int) => Answered(events, i, q, v)
  }

  lemma EarlierStays(events: seq<Event>, e: Event, k: nat)
    requires k < |events|
    ensures (events + [e])[k] == events[k] && (events + [e])[..k] == events[..k]
  {
  }

  lemma AnsweredStays(events: seq<Event>, e: Event, i: nat)
    ensures More(Got(events, i), Got(events + [e], i))
  {
    forall q, v | Answered(events, i, q, v) ensures Answered(events + [e], i, q, v) {
      var k: nat :| k < |events| && AnsweredAt(events, k, i, q, v);
      EarlierStays(events, e, k);
      assert AnsweredAt(events + [e], k, i, q, v);
    }
  }

  lemma AnsweredNow(events: seq<Event>, i: nat, answer: int, q: Question)
    requires Asking(Run(events), i, q)
    ensures Answered(events + [Work(i, answer)], i, q, answer)
  {
    var more := events + [Work(i, answer)];
    assert more[..|events|] == events;
    assert AnsweredAt(more, |events|, i, q, answer);
  }

  lemma BeganStays(events: seq<Event>, e: Event, i: nat, status0: int)
    requires Began(events, i, status0)
    ensures Began(events + [e], i, status0)
  {
    var k: nat :| k < |events| && BeganAt(events, k, i, status0);
    EarlierStays(events, e, k);
    assert BeganAt(events + [e], k, i, status0);
  }

  ghost predicate TracedIn(events: seq<Event>, s: State, i: nat)
    requires i < |s.attempts|
  {
    && Traced(s.attempts[i], Got(events, i), Disconnect(i) in events)
    && Began(events, i, s.attempts[i].status0)
  }

  lemma OldTraced(events: seq<Event>, s: State, e: Event, t: State, i: nat)
    requires Run(events) == Some(s) && Next(s, e) == Some(t) && i < |s.attempts| && Invariant(s) && TracedIn(events, s, i)
    ensures i < |t.attempts| && TracedIn(events + [e], t, i)
  {
    var a := s.attempts[i];
    assert AttemptOk(a);
    NextChanges(s, e, t, i);
    AnsweredStays(events, e, i);
    BeganStays(events, e, i, a.status0);
    if e.Work? && e.i == i {
      forall q | Asks(a.worker, q) ensures Answered(events + [e], i, q, e.answer) {
        AnsweredNow(events, i, e.answer, q);
      }
    }
    ChangeTraced(a, t.attempts[i], e, i, Got(events, i), Got(events + [e], i),
                 Disconnect(i) in events, Disconnect(i) in events + [e]);
  }

  lemma NewTraced(events: seq<Event>, s: State, e: Event, t: State, i: nat)
    requires Run(events) == Some(s) && Next(s, e) == Some(t) && |s.attempts| <= i < |t.attempts|
    ensures TracedIn(events + [e], t, i)
  {
    assert e.Begin? && i == |s.attempts| && t.attempts[i] == NewAttempt(e.kind, e.status0, e.listenfd);
    assert (events + [e])[..|events|] == events;
    assert BeganAt(events + [e], |events|, i, e.status0);
  }

  lemma {:induction false} RunTraced(events: seq<Event>, i: nat)
    requires Run(events).Some? && i < |Run(events).value.attempts|
    ensures TracedIn(events, Run(events).value, i)
  {
    var n := |events| - 1;
    var front, e := events[..n], events[n];
    var s, t := Run(front).value, Run(events).value;
    assert front + [e] == events;
    RunInvariant(front);
    if i < |s.attempts| {
      RunTraced(front, i);
      OldTraced(front, s, e, t, i);
    } else {
      NewTraced(front, s, e, t, i);
    }
  }

  /** The socket that a callback finds is one that the attempt's own accept or connect returned. */
  lemma SocketsAreAnswers(events: seq<Event>, s: State, i: nat, r: Report)
    requires Run(events) == Some(s) && i < |s.attempts| && r in s.attempts[i].reports && r.sockfd >= 0
    ensures || Answered(events, i, Accepting, r.sockfd)
            || Answered(events, i, Connecting, r.sockfd)
            || Answered(events, i, ConnectingProxy, r.sockfd)
  {
    RunTraced(events, i);
    assert ReportTraced(s.attempts[i], Got(events, i), Disconnect(i) in events, r);
  }

  /** Where a status may come from. */
  ghost predicate StatusFrom(events: seq<Event>, i: nat, cancelled: bool, status: int) {
    || Began(events, i, status)
    || (status == AY_CANCEL_CONNECT && cancelled)
    || (status > 0 && Answered(events, i, Accepting, -status))
    || (status < 0 && (Answered(events, i, Connecting, status) || Answered(events, i, ConnectingProxy, status)
                       || Answered(events, i, Negotiating, status)))
    || (status == -1 && Disconnect(i) in events)
  }

  lemma StatusIsFrom(events: seq<Event>, i: nat, a: Attempt, status: int)
    requires StatusTraced(a, Got(events, i), Disconnect(i) in events, status) && Began(events, i, a.status0)
    ensures StatusFrom(events, i, a.cancelled, status)
  {
  }

  /**
   * The status that a callback is told is the one the attempt began with, the cancellation
   * of a cancelled attempt, the error of a step of its own that failed, or -1 after a
   * disconnect that may have closed the socket before the worker looked at it.
   */
  lemma StatusesAreAnswers(events: seq<Event>, s: State, i: nat, r: Report)
    requires Run(events) == Some(s) && i < |s.attempts| && r in s.attempts[i].reports
    ensures StatusFrom(events, i, s.attempts[i].cancelled, r.status)
  {
    RunTraced(events, i);
    assert ReportTraced(s.attempts[i], Got(events, i), Disconnect(i) in events, r);
    StatusIsFrom(events, i, s.attempts[i], r.status);
  }
}
