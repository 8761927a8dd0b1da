/** The idle-shutdown counter: every request handler sends +1 when it starts and -1 when it
    returns, over one bounded FIFO channel, to one counting goroutine. */
module IdleShutdown {

  const CAPACITY := 10
  const SIGNAL_CAPACITY := 1

  /** A message on the channel, and the request it came from. */
  datatype Msg = Msg(from: int, delta: int)

  datatype Phase = Serving | Returned | Crashed

  /** `log` is everything ever sent, `read` how much the counter has received; the rest is in
      the channel.  `firing` is the counter waiting to send on the shutdown channel, which
      holds `signals` messages. */
  datatype State = State(log: seq<Msg>, read: nat, phases: map<int, Phase>, active: int, firing: bool, signals: nat)

  const INIT := State([], 0, map[], 0, false, 0)

  datatype Step =
    | Enter(id: int)    // a request starts: its handler sends +1
    | Return(id: int)   // its handler returns: sends -1
    | Crash(id: int)    // its handler panics: nothing is sent
    | Receive           // the counter takes a message
    | Expire            // the idle timer fires while the counter is at 0
    | Signal            // the counter's shutdown message goes through
    | Poke              // somebody else asks for shutdown
    | Shut              // the main loop takes a shutdown message

  predicate HasRoom(s: State) { |s.log| - s.read < CAPACITY }

  predicate Enabled(s: State, step: Step) {
    match step
    case Enter(id) => id !in s.phases && HasRoom(s)
    case Return(id) => id in s.phases && s.phases[id] == Serving && HasRoom(s)
    case Crash(id) => id in s.phases && s.phases[id] == Serving
    case Receive => !s.firing && s.read < |s.log|
    case Expire => !s.firing && s.active == 0
    case Signal => s.firing && s.signals < SIGNAL_CAPACITY
    case Poke => s.signals < SIGNAL_CAPACITY
    case Shut => s.signals > 0
  }

  /** A step that is not enabled blocks. */
  function Next(s: State, step: Step): State {
    if !Enabled(s, step) then s
    else match step
      case Enter(id) => s.(log := s.log + [Msg(id, 1)], phases := s.phases[id := Serving])
      case Return(id) => s.(log := s.log + [Msg(id, -1)], phases := s.phases[id := Returned])
      case Crash(id) => s.(phases := s.phases[id := Crashed])
      case Receive => s.(active := s.active + s.log[s.read].delta, read := s.read + 1)
      case Expire => s.(firing := true)
      case Signal => s.(firing := false, signals := s.signals + 1)
      case Poke => s.(signals := s.signals + 1)
      case Shut => s.(signals := s.signals - 1)
  }

  function Run(s: State, steps: seq<Step>): State {
    if steps == [] then s else Next(Run(s, steps[..|steps| - 1]), steps[|steps| - 1])
  }

  /** The sum of the first `k` messages. */
  function Sum(log: seq<Msg>, k: nat): int
    requires k <= |log|
  {
    if k == 0 then 0 else Sum(log, k - 1) + log[k - 1].delta
  }

  /** The requests whose +1 is among the first `k` messages and whose -1 is not. */
  function Open(log: seq<Msg>, k: nat): set<int>
    requires k <= |log|
  {
    if k == 0 then {}
    else if log[k - 1].delta == 1 then Open(log, k - 1) + {log[k - 1].from}
    else Open(log, k - 1) - {log[k - 1].from}
  }

  ghost predicate Heard(log: seq<Msg>, k: nat, m: Msg)
    requires k <= |log|
  {
    exists i :: 0 <= i < k && log[i] == m
  }

  /** Among the first `k` messages each request sends +1 once, and -1 only while it is open. */
  ghost predicate Paired(log: seq<Msg>, k: nat)
    requires k <= |log|
  {
    k == 0
    || (Paired(log, k - 1)
        && if log[k - 1].delta == 1 then forall i :: 0 <= i < k - 1 ==> log[i].from != log[k - 1].from
           else log[k - 1].delta == -1 && log[k - 1].from in Open(log, k - 1))
  }

  /** The requests that have sent +1 and not -1, as their handlers stand. */
  function Unanswered(phases: map<int, Phase>): set<int> {
    set id | id in phases && phases[id] != Returned
  }

  ghost predicate Invariant(s: State) {
    && s.read <= |s.log| <= s.read + CAPACITY
    && Paired(s.log, |s.log|)
    && (forall i :: 0 <= i < |s.log| ==> s.log[i].from in s.phases)
    && Open(s.log, |s.log|) == Unanswered(s.phases)
    && s.active == Sum(s.log, s.read)
    && (s.firing ==> s.active == 0)
    && s.signals <= SIGNAL_CAPACITY
  }

  /** What is sent later does not change what was sent before. */
  lemma {:induction false} EarlierStays(log: seq<Msg>, m: Msg, k: nat)
    requires k <= |log|
    ensures Sum(log + [m], k) == Sum(log, k) && Open(log + [m], k) == Open(log, k)
    ensures Paired(log + [m], k) == Paired(log, k)
    decreases k
  {
    if k > 0 {
      EarlierStays(log, m, k - 1);
      assert forall i :: 0 <= i < k ==> (log + [m])[i] == log[i];
    }
  }

  lemma EnterKeepsInvariant(s: State, id: int)
    requires Invariant(s) && Enabled(s, Enter(id))
    ensures Invariant(Next(s, Enter(id)))
  {
    EarlierStays(s.log, Msg(id, 1), |s.log|);
    EarlierStays(s.log, Msg(id, 1), s.read);
    assert Unanswered(Next(s, Enter(id)).phases) == Unanswered(s.phases) + {id};
  }

  lemma ReturnKeepsInvariant(s: State, id: int)
    requires Invariant(s) && Enabled(s, Return(id))
    ensures Invariant(Next(s, Return(id)))
  {
    EarlierStays(s.log, Msg(id, -1), |s.log|);
    EarlierStays(s.log, Msg(id, -1), s.read);
    assert Unanswered(Next(s, Return(id)).phases) == Unanswered(s.phases) - {id};
  }

  lemma CrashKeepsInvariant(s: State, id: int)
    requires Invariant(s) && Enabled(s, Crash(id))
    ensures Invariant(Next(s, Crash(id)))
  {
    assert Unanswered(Next(s, Crash(id)).phases) == Unanswered(s.phases);
  }

  lemma NextKeepsInvariant(s: State, step: Step)
    requires Invariant(s)
    ensures Invariant(Next(s, step))
  {
    if Enabled(s, step) {
      match step
      case Enter(id) =>
        EnterKeepsInvariant(s, id);
      case Return(id) =>
        ReturnKeepsInvariant(s, id);
      case Crash(id) =>
        CrashKeepsInvariant(s, id);
      case _ =>
    }
  }

  lemma {:induction false} RunKeepsInvariant(steps: seq<Step>)
    ensures Invariant(Run(INIT, steps))
    decreases steps
  {
    if steps != [] {
      RunKeepsInvariant(steps[..|steps| - 1]);
      NextKeepsInvariant(Run(INIT, steps[..|steps| - 1]), steps[|steps| - 1]);
    }
  }

  /** What handlers do to the channel, which holds ten messages: a request that starts or
      returns sends its message unless ten are waiting, when it blocks; one that panics sends
      nothing.  The shutdown channel holds one. */
  lemma HandlersOnTheChannel(steps: seq<Step>, id: int)
    ensures var s := Run(INIT, steps);
            var enter, answered, crashed := Next(s, Enter(id)), Next(s, Return(id)), Next(s, Crash(id));
            && s.read <= |s.log| <= s.read + 10 && s.signals <= 1
            && (id !in s.phases ==>
                  enter == if |s.log| == s.read + 10 then s
                           else s.(log := s.log + [Msg(id, 1)], phases := s.phases[id := Serving]))
            && (id in s.phases && s.phases[id] == Serving ==>
                  && answered == (if |s.log| == s.read + 10 then s
                                 else s.(log := s.log + [Msg(id, -1)], phases := s.phases[id := Returned]))
                  && crashed == s.(phases := s.phases[id := Crashed]))
            && (id in s.phases ==> enter == s && (s.phases[id] != Serving ==> answered == crashed == s))
  {
    RunKeepsInvariant(steps);
  }

  lemma {:induction false} PrefixIsPaired(log: seq<Msg>, k: nat, n: nat)
    requires k <= n <= |log| && Paired(log, n)
    ensures Paired(log, k)
    decreases n
  {
    if k < n {
      PrefixIsPaired(log, k, n - 1);
    }
  }

  /** In a paired log a request is open exactly when its +1 was heard and its -1 was not. */
  lemma {:induction false} OpenIsUnanswered(log: seq<Msg>, k: nat, id: int)
    requires k <= |log| && Paired(log, k)
    ensures id in Open(log, k) <==> Heard(log, k, Msg(id, 1)) && !Heard(log, k, Msg(id, -1))
    decreases k
  {
    if k > 0 {
      OpenIsUnanswered(log, k - 1, id);
      HeardOneMore(log, k, Msg(id, 1));
      HeardOneMore(log, k, Msg(id, -1));
      var last := log[k - 1];
      if last.from == id && last.delta == 1 {
        assert !Heard(log, k - 1, Msg(id, -1));
      }
    }
  }

  lemma HeardOneMore(log: seq<Msg>, k: nat, m: Msg)
    requires 0 < k <= |log|
    ensures Heard(log, k, m) <==> Heard(log, k - 1, m) || log[k - 1] == m
  {
  }

  /** The sum of a paired log counts its open requests. */
  lemma {:induction false} SumCountsOpen(log: seq<Msg>, k: nat)
    requires k <= |log| && Paired(log, k)
    ensures Sum(log, k) == |Open(log, k)|
    decreases k
  {
    if k > 0 {
      SumCountsOpen(log, k - 1);
      OpenIsUnanswered(log, k - 1, log[k - 1].from);
    }
  }

  lemma {:induction false} SumSplits(log: seq<Msg>, k: nat, n: nat)
    requires k <= n <= |log|
    ensures Sum(log, n) == Sum(log, k) + Sum(log[k..], n - k)
    decreases n
  {
    if k < n {
      SumSplits(log, k, n - 1);
    }
  }

  /** The messages in the channel. */
  function Unread(s: State): seq<Msg>
    requires s.read <= |s.log|
  {
    s.log[s.read..]
  }

  lemma NoneOpenIffAnswered(log: seq<Msg>, k: nat)
    requires k <= |log| && Paired(log, k)
    ensures |Open(log, k)| == 0 <==> forall id :: Heard(log, k, Msg(id, 1)) ==> Heard(log, k, Msg(id, -1))
  {
    var open := Open(log, k);
    forall id
      ensures id in open <==> Heard(log, k, Msg(id, 1)) && !Heard(log, k, Msg(id, -1))
    {
      OpenIsUnanswered(log, k, id);
    }
    assert (forall id :: id !in open) ==> open == {};
  }

  ghost predicate Conserved(s: State) {
    && s.read <= |s.log| <= s.read + CAPACITY
    && s.active + Sum(Unread(s), |Unread(s)|) == |Unanswered(s.phases)|
    && s.active == |Open(s.log, s.read)| >= 0
    && (s.firing ==> forall id :: Heard(s.log, s.read, Msg(id, 1)) ==> Heard(s.log, s.read, Msg(id, -1)))
  }

  lemma InvariantConserves(s: State)
    requires Invariant(s)
    ensures Conserved(s)
  {
    SumSplits(s.log, s.read, |s.log|);
    SumCountsOpen(s.log, |s.log|);
    PrefixIsPaired(s.log, s.read, |s.log|);
    SumCountsOpen(s.log, s.read);
    NoneOpenIffAnswered(s.log, s.read);
  }

  /** In every run the counter and the unread messages add up to the requests that have sent
      +1 and not -1; the counter is exactly the number of requests open in what it has read,
      so it is never negative; and while the idle branch fires, every request whose +1 was
      read has had its -1 read too. */
  lemma ConnectionsAreConserved(steps: seq<Step>)
    ensures Conserved(Run(INIT, steps))
  {
    RunKeepsInvariant(steps);
    InvariantConserves(Run(INIT, steps));
  }

  /** After every prefix it consumed the counter stood at a count, never negative, and at 0
      exactly when the requests heard from by then were all answered. */
  lemma CounterNeverNegative(steps: seq<Step>, k: nat)
    requires k <= Run(INIT, steps).read
    ensures var log := Run(INIT, steps).log;
            && k <= |log| && Sum(log, k) >= 0
            && (Sum(log, k) == 0 <==> forall id :: Heard(log, k, Msg(id, 1)) ==> Heard(log, k, Msg(id, -1)))
  {
    var log := Run(INIT, steps).log;
    RunKeepsInvariant(steps);
    PrefixIsPaired(log, k, |log|);
    SumCountsOpen(log, k);
    NoneOpenIffAnswered(log, k);
  }

  /** Idle is judged from what was read: while the branch fires nobody is being served exactly
      when the unread messages add up to 0. */
  lemma FiringIsIdleIff(steps: seq<Step>)
    ensures var s := Run(INIT, steps);
            s.read <= |s.log| && (s.firing ==> (Unanswered(s.phases) == {} <==> Sum(Unread(s), |Unread(s)|) == 0))
  {
    ConnectionsAreConserved(steps);
    RunKeepsInvariant(steps);
  }

  /** Such a run: the branch fires while a request is served whose +1 is still in the channel. */
  lemma IdleCanFireWhileServing()
    ensures exists steps :: var s := Run(INIT, steps); s.firing && Unanswered(s.phases) != {}
  {
    var steps := [Enter(7), Expire];
    var served := Next(INIT, Enter(7));
    assert steps[..1] == [Enter(7)] && steps[..1][..0] == [];
    assert Run(INIT, steps[..1]) == served;
    assert Run(INIT, steps) == Next(served, Expire);
    assert 7 in Unanswered(Run(INIT, steps).phases);
  }

  /** A handler that panics never sends its -1. */
  ghost predicate HasCrashed(s: State) {
    exists id :: id in s.phases && s.phases[id] == Crashed
  }

  /** Reading on, with no further message sent, the counter is at 0 somewhere. */
  ghost predicate ReachesZero(s: State) {
    exists k: nat :: s.read <= k <= |s.log| && Sum(s.log, k) == 0
  }

  /** The idle branch can fire now or in some continuation of a run exactly when it is firing,
      or no handler has panicked, or the counter comes by 0 in what is still unread. */
  lemma IdleCanFireIff(before: seq<Step>)
    ensures var s := Run(INIT, before);
            (exists after :: Run(INIT, before + after).firing) <==> s.firing || !HasCrashed(s) || ReachesZero(s)
  {
    var s := Run(INIT, before);
    RunKeepsInvariant(before);
    if s.firing || !HasCrashed(s) || ReachesZero(s) {
      var after := WayToFire(s);
      RunsJoin(INIT, before, after);
    }
    forall after | Run(INIT, before + after).firing
      ensures s.firing || !HasCrashed(s) || ReachesZero(s)
    {
      RunsJoin(INIT, before, after);
      if Dead(s) {
        DeadStaysDead(s, after);
      }
    }
  }

  lemma WayToFire(s: State) returns (after: seq<Step>)
    requires Invariant(s) && (s.firing || !HasCrashed(s) || ReachesZero(s))
    ensures Run(s, after).firing
  {
    if s.firing {
      after := [];
    } else if ReachesZero(s) {
      after := FireAtZero(s);
    } else {
      after := FinishAndFire(s);
    }
  }

  function Receives(n: nat): seq<Step> {
    if n == 0 then [] else Receives(n - 1) + [Receive]
  }

  lemma OneMoreStep(s: State, steps: seq<Step>, step: Step)
    ensures Run(s, steps + [step]) == Next(Run(s, steps), step)
  {
    assert (steps + [step])[..|steps + [step]| - 1] == steps;
  }

  /** Where receiving on, with nothing else happening, moves the counter. */
  function Drained(s: State, n: nat): State
    requires s.read + n <= |s.log|
  {
    s.(read := s.read + n, active := Sum(s.log, s.read + n))
  }

  lemma {:induction false} Drain(s: State, n: nat)
    requires !s.firing && s.read + n <= |s.log| && s.active == Sum(s.log, s.read)
    ensures Run(s, Receives(n)) == Drained(s, n)
    decreases n
  {
    if n > 0 {
      Drain(s, n - 1);
      OneMoreStep(s, Receives(n - 1), Receive);
      DrainOne(s, n - 1);
    }
  }

  lemma DrainOne(s: State, n: nat)
    requires !s.firing && s.read + n < |s.log|
    ensures Next(Drained(s, n), Receive) == Drained(s, n + 1)
  {
  }

  lemma FireAtZero(s: State) returns (after: seq<Step>)
    requires Invariant(s) && !s.firing && ReachesZero(s)
    ensures Run(s, after).firing
  {
    var k: nat :| s.read <= k <= |s.log| && Sum(s.log, k) == 0;
    var receives, t := Receives(k - s.read), Drained(s, k - s.read);
    assert Run(s, receives) == t by {
      Drain(s, k - s.read);
    }
    assert Next(t, Expire).firing;
    OneMoreStep(s, receives, Expire);
    after := receives + [Expire];
  }

  /** Read everything, then let one request that is served return. */
  lemma ReadAllAndReturn(s: State, id: int) returns (steps: seq<Step>, t: State)
    requires Invariant(s) && !s.firing && id in s.phases && s.phases[id] == Serving
    ensures t == Run(s, steps) && Invariant(t) && !t.firing && t.phases == s.phases[id := Returned]
  {
    var n := |s.log| - s.read;
    Drain(s, n);
    var drained := Drained(s, n);
    OneMoreStep(s, Receives(n), Return(id));
    ReturnKeepsInvariant(drained, id);
    steps, t := Receives(n) + [Return(id)], Next(drained, Return(id));
  }

  /** With no panic: read everything, let a request that is served return, and so on. */
  lemma {:induction false} FinishAndFire(s: State) returns (after: seq<Step>)
    requires Invariant(s) && !s.firing && !HasCrashed(s)
    ensures Run(s, after).firing
    decreases |Unanswered(s.phases)|
  {
    var open := Unanswered(s.phases);
    assert (forall id :: id !in open) ==> open == {};
    if open == {} {
      SumCountsOpen(s.log, |s.log|);
      after := FireAtZero(s);
    } else {
      var id :| id in open;
      var steps, t := ReadAllAndReturn(s, id);
      assert Unanswered(t.phases) == open - {id};
      var rest := FinishAndFire(t);
      RunsJoin(s, steps, rest);
      after := steps + rest;
    }
  }

  /** Past hope: somebody has panicked and the counter will not come by 0. */
  ghost predicate Dead(s: State) {
    Invariant(s) && !s.firing && HasCrashed(s) && !ReachesZero(s)
  }

  lemma DeadStepStaysDead(s: State, step: Step)
    requires Dead(s)
    ensures Dead(Next(s, step))
  {
    var t := Next(s, step);
    NextKeepsInvariant(s, step);
    var id :| id in s.phases && s.phases[id] == Crashed;
    assert id in t.phases && t.phases[id] == Crashed;
    SumCountsOpen(t.log, |t.log|);
    assert id in Open(t.log, |t.log|);
    if step.Enter? {
      SentStaysNonZero(s, Msg(step.id, 1));
    } else if step.Return? {
      SentStaysNonZero(s, Msg(step.id, -1));
    }
    assert Sum(s.log, s.read) != 0;
  }

  lemma SentStaysNonZero(s: State, m: Msg)
    requires s.read <= |s.log| && !ReachesZero(s)
    ensures forall k: nat :: s.read <= k <= |s.log| ==> Sum(s.log + [m], k) != 0
  {
    forall k: nat | s.read <= k <= |s.log|
      ensures Sum(s.log + [m], k) != 0
    {
      EarlierStays(s.log, m, k);
    }
  }

  lemma {:induction false} DeadStaysDead(s: State, after: seq<Step>)
    requires Dead(s)
    ensures Dead(Run(s, after))
    decreases after
  {
    if after != [] {
      DeadStaysDead(s, after[..|after| - 1]);
      DeadStepStaysDead(Run(s, after[..|after| - 1]), after[|after| - 1]);
    }
  }

  /** A crashed request whose +1 was read. */
  ghost predicate Stuck(s: State, id: int) {
    id in s.phases && s.phases[id] == Crashed && s.read <= |s.log| && Heard(s.log, s.read, Msg(id, 1))
  }

  lemma StuckIsDead(s: State, id: int)
    requires Invariant(s) && Stuck(s, id)
    ensures Dead(s)
  {
    OpenIsUnanswered(s.log, |s.log|, id);
    forall k: nat | s.read <= k <= |s.log|
      ensures Sum(s.log, k) != 0
    {
      PrefixIsPaired(s.log, k, |s.log|);
      SumCountsOpen(s.log, k);
      OpenIsUnanswered(s.log, k, id);
      assert id in Open(s.log, k);
    }
    assert Sum(s.log, s.read) != 0;
  }

  /** Once the +1 of a panicked handler has been read, the counter stays above 0 whatever
      happens, and the idle branch never fires again. */
  lemma CrashedRequestDisablesIdleShutdown(before: seq<Step>, after: seq<Step>, id: int)
    requires Stuck(Run(INIT, before), id)
    ensures Run(INIT, before + after).active > 0 && !Run(INIT, before + after).firing
  {
    RunKeepsInvariant(before);
    StuckIsDead(Run(INIT, before), id);
    DeadStaysDead(Run(INIT, before), after);
    RunsJoin(INIT, before, after);
    ConnectionsAreConserved(before + after);
    var t := Run(INIT, before + after);
    assert Sum(t.log, t.read) != 0;
  }

  /** That happens. */
  lemma CrashAfterReading()
    ensures Stuck(Run(INIT, [Enter(7)] + [Receive] + [Crash(7)]), 7)
  {
    OneMoreStep(INIT, [], Enter(7));
    assert [] + [Enter(7)] == [Enter(7)];
    OneMoreStep(INIT, [Enter(7)], Receive);
    OneMoreStep(INIT, [Enter(7)] + [Receive], Crash(7));
    var t := Run(INIT, [Enter(7)] + [Receive] + [Crash(7)]);
    assert t.log[0] == Msg(7, 1) && t.read == 1;
  }

  /** Before the +1 is read, the branch can still fire after the panic. */
  lemma CrashBeforeReading()
    ensures var s := Run(INIT, [Enter(7)] + [Crash(7)] + [Expire]); s.firing && HasCrashed(s)
  {
    OneMoreStep(INIT, [], Enter(7));
    assert [] + [Enter(7)] == [Enter(7)];
    OneMoreStep(INIT, [Enter(7)], Crash(7));
    OneMoreStep(INIT, [Enter(7)] + [Crash(7)], Expire);
    assert Run(INIT, [Enter(7)] + [Crash(7)] + [Expire]).phases[7] == Crashed;
  }

  /** One turn of the counting goroutine: what the others did before it, and whether the idle
      timer has expired. */
  datatype Turn = Turn(others: seq<Step>, expired: bool)

  predicate Outsiders(steps: seq<Step>) {
    forall step :: step in steps ==> !step.Receive? && !step.Expire? && !step.Signal?
  }

  lemma {:induction false} RunsJoin(s: State, a: seq<Step>, b: seq<Step>)
    ensures Run(s, a + b) == Run(Run(s, a), b)
    decreases b
  {
    if b == [] {
      assert a + b == a;
    } else {
      RunsJoin(s, a, b[..|b| - 1]);
      assert (a + b)[..|a + b| - 1] == a + b[..|b| - 1];
    }
  }

  lemma {:induction false} OutsidersLeaveTheCounter(s: State, steps: seq<Step>)
    requires Outsiders(steps)
    ensures var t := Run(s, steps); t.active == s.active && t.firing == s.firing && t.read == s.read
    ensures s.log <= Run(s, steps).log
    decreases steps
  {
    if steps != [] {
      OutsidersLeaveTheCounter(s, steps[..|steps| - 1]);
    }
  }

  /** What the counter does in a state: send the shutdown message it holds, notice that it is
      idle, or receive. */
  function OwnStep(s: State, expired: bool): Step {
    if s.firing then Signal else if s.active == 0 && expired then Expire else Receive
  }

  /** All the steps of a schedule, in order. */
  function StepsOf(turns: seq<Turn>): seq<Step> {
    if turns == [] then []
    else
      var before, last := StepsOf(turns[..|turns| - 1]), turns[|turns| - 1];
      before + last.others + [OwnStep(Run(INIT, before + last.others), last.expired)]
  }

  /** One more turn: the others' steps, then the counter's own. */
  lemma OneMoreTurn(turns: seq<Turn>, i: nat)
    requires i < |turns|
    ensures var s := Run(Run(INIT, StepsOf(turns[..i])), turns[i].others);
            Run(INIT, StepsOf(turns[..i + 1])) == Next(s, OwnStep(s, turns[i].expired))
  {
    var before, others := StepsOf(turns[..i]), turns[i].others;
    RunsJoin(INIT, before, others);
    var own := [OwnStep(Run(INIT, before + others), turns[i].expired)];
    assert turns[..i + 1][..i] == turns[..i];
    assert (before + others + own)[..|before + others|] == before + others;
  }

  /** One round, before and after: the counter sends the shutdown message it holds if the
      shutdown channel is empty, else notices that it is idle, else receives. */
  ghost predicate Counted(before: State, expired: bool, after: State) {
    after ==
      if before.firing then
        (if before.signals == 0 then before.(firing := false, signals := 1) else before)
      else if before.active == 0 && expired then before.(firing := true)
      else if before.read < |before.log| then
        before.(active := before.active + before.log[before.read].delta, read := before.read + 1)
      else before
  }

  /** One round of the counting loop. */
  method CountOnce(before: State, counted: int, expired: bool) returns (s: State, activeConnections: int)
    requires counted == before.active
    ensures Counted(before, expired, s) && activeConnections == s.active
  {
    s, activeConnections := before, counted;
    if s.firing {
      if s.signals < SIGNAL_CAPACITY {
        s := s.(firing := false, signals := s.signals + 1);
      }
    } else if activeConnections == 0 && expired {
      s := s.(firing := true);
    } else if s.read < |s.log| {
      activeConnections := activeConnections + s.log[s.read].delta;
      s := s.(active := activeConnections, read := s.read + 1);
    }
  }

  /** Rounds in a row are a run of the protocol. */
  lemma {:induction false} CountingIsARun(turns: seq<Turn>, states: seq<State>, k: nat)
    requires k <= |turns| && |states| == k + 1 && states[0] == INIT
    requires forall i :: 0 <= i < k ==> Counted(Run(states[i], turns[i].others), turns[i].expired, states[i + 1])
    ensures states[k] == Run(INIT, StepsOf(turns[..k]))
    decreases k
  {
    if k > 0 {
      assert states[..k][k - 1] == states[k - 1];
      CountingIsARun(turns, states[..k], k - 1);
      OneMoreTurn(turns, k - 1);
      CountedIsOwnStep(Run(states[k - 1], turns[k - 1].others), turns[k - 1].expired, states[k]);
    }
  }

  lemma CountedIsOwnStep(before: State, expired: bool, after: State)
    requires Counted(before, expired, after)
    ensures after == Next(before, OwnStep(before, expired))
  {
  }

  /** The counting loop over any finite schedule, with the states it passes through: from where
      the others have left it, the counter sends the shutdown message it holds if the shutdown
      channel is empty, else notices that it is idle, else receives.  It is the protocol's run
      over its steps, and its local variable counts the requests open in what it received. */
  method InactiveAutoShutdown(turns: seq<Turn>) returns (s: State, activeConnections: int, ghost states: seq<State>)
    requires forall t :: t in turns ==> Outsiders(t.others)
    ensures |states| == |turns| + 1 && states[0] == State([], 0, map[], 0, false, 0) && states[|turns|] == s
    ensures forall i :: 0 <= i < |turns| ==>
              var before := Run(states[i], turns[i].others);
              states[i + 1] ==
                if before.firing then
                  (if before.signals == 0 then before.(firing := false, signals := 1) else before)
                else if before.active == 0 && turns[i].expired then before.(firing := true)
                else if before.read < |before.log| then
                  before.(active := before.active + before.log[before.read].delta, read := before.read + 1)
                else before
    ensures s == Run(INIT, StepsOf(turns))
    ensures s.read <= |s.log| && activeConnections == |Open(s.log, s.read)|
  {
    s, activeConnections, states := INIT, 0, [INIT];
    for i := 0 to |turns|
      invariant activeConnections == s.active && |states| == i + 1 && states[0] == INIT && states[i] == s
      invariant forall k :: 0 <= k < i ==> Counted(Run(states[k], turns[k].others), turns[k].expired, states[k + 1])
    {
      OutsidersLeaveTheCounter(s, turns[i].others);
      s, activeConnections := CountOnce(Run(s, turns[i].others), activeConnections, turns[i].expired);
      states := states + [s];
    }
    assert turns[..|turns|] == turns;
    CountingIsARun(turns, states, |turns|);
    ConnectionsAreConserved(StepsOf(turns));
  }
}
