/** The pomodoro session controller of pomodoroControl.py.

    The controller is an Idle/Running machine over two integer counters and a
    timer flag. Its three Qt signals (pomodoro_begin, time_update and
    pomodoro_complete) are recorded, in emission order, in an append-only
    trace of `Event`s; a firing of its one-second timer is an explicit call of
    `HandleSecond`, allowed only while the timer is active.

    The first half of the module is a value-level specification (`Session`,
    `SecondStep`, `Run`) with the lemmas about whole sessions; the class
    `Control` is the controller itself, each of whose methods is tied to that
    specification. */
module PomodoroControl {

  /** One emitted signal: pomodoro_begin, time_update(elapsed, remaining) or pomodoro_complete. */
  datatype Event = Begin | Tick(elapsed: int, remaining: int) | Complete

  /** A snapshot of the controller: its two counters and whether its timer is active. */
  datatype Session = Session(elapsed: int, remaining: int, active: bool)

  /** A snapshot together with the events emitted on the way to it. */
  datatype Step = Step(after: Session, emitted: seq<Event>)

  /** The time_update events a session of `n` seconds emits after its
      initial one, once its timer has fired `k` times. */
  function Ticks(n: int, k: nat): (t: seq<Event>)
    ensures |t| == k
    ensures forall i :: 0 <= i < k ==> t[i] == Tick(i + 1, n - i - 1)
  {
    if k == 0 then [] else Ticks(n, k - 1) + [Tick(k, n - k)]
  }

  /** Everything a session of `n` seconds has emitted after `k` firings of the timer
      when none of them has stopped it. */
  function SessionSoFar(n: int, k: nat): (t: seq<Event>)
    ensures |t| == k + 2 && t[0] == Begin
    ensures forall i :: 1 <= i < |t| ==> t[i] == Tick(i - 1, n - i + 1)
    ensures Complete !in t
  {
    [Begin, Tick(0, n)] + Ticks(n, k)
  }

  lemma SessionSoFarExtends(n: int, k: nat)
    ensures SessionSoFar(n, k + 1) == SessionSoFar(n, k) + [Tick(k + 1, n - k - 1)]
  {
    assert Ticks(n, k + 1) == Ticks(n, k) + [Tick(k + 1, n - k - 1)];
  }

  /** Whether the timer is active after `events`, read off the events alone:
      Begin arms it, Complete stops it, a tick leaves it as it was. */
  function RunningAfter(running: bool, events: seq<Event>): bool
  {
    if events == [] then running
    else
      match events[|events| - 1]
      case Begin => true
      case Complete => false
      case Tick(_, _) => RunningAfter(running, events[..|events| - 1])
  }

  lemma {:induction false} RunningAfterAppend(running: bool, a: seq<Event>, b: seq<Event>)
    ensures RunningAfter(running, a + b) == RunningAfter(RunningAfter(running, a), b)
    decreases |b|
  {
    if b != [] {
      assert (a + b)[..|a + b| - 1] == a + b[..|b| - 1];
      assert (a + b)[|a + b| - 1] == b[|b| - 1];
      RunningAfterAppend(running, a, b[..|b| - 1]);
    } else {
      assert a + b == a;
    }
  }

  /** One firing of the timer (handle_second): the counters move by one second,
      a tick reports them, and the session completes exactly when remaining hits 0. */
  function SecondStep(s: Session): (r: Step)
    requires s.active
    ensures r.after.elapsed == s.elapsed + 1 && r.after.remaining == s.remaining - 1
    ensures r.after.elapsed + r.after.remaining == s.elapsed + s.remaining
    ensures r.after.active <==> r.after.remaining != 0
    ensures |r.emitted| >= 1 && r.emitted[0] == Tick(r.after.elapsed, r.after.remaining)
    ensures Complete in r.emitted <==> !r.after.active
    ensures !r.after.active ==> r.emitted == [r.emitted[0], Complete]
    ensures r.after.active ==> r.emitted == [r.emitted[0]]
  {
    var elapsed := s.elapsed + 1;
    var remaining := s.remaining - 1;
    if remaining == 0 then Step(Session(elapsed, remaining, false), [Tick(elapsed, remaining), Complete])
    else Step(Session(elapsed, remaining, true), [Tick(elapsed, remaining)])
  }

  /** The timer firing up to `k` times from `s`; once stopped it fires no more. */
  function Run(s: Session, k: nat): (r: Step)
    ensures r.after.elapsed + r.after.remaining == s.elapsed + s.remaining
    ensures s.elapsed <= r.after.elapsed <= s.elapsed + k
    ensures !s.active ==> r == Step(s, [])
    ensures forall i :: 0 <= i < |r.emitted| && r.emitted[i].Tick? ==>
              r.emitted[i].elapsed + r.emitted[i].remaining == s.elapsed + s.remaining
    decreases k
  {
    if k == 0 || !s.active then Step(s, [])
    else
      var first := SecondStep(s);
      var rest := Run(first.after, k - 1);
      Step(rest.after, first.emitted + rest.emitted)
  }

  /** Firing the timer once more extends a run by one `SecondStep`, if the timer is still active. */
  lemma {:induction false} RunOneMore(s: Session, k: nat)
    ensures Run(s, k + 1) ==
      (var r := Run(s, k);
       if r.after.active then Step(SecondStep(r.after).after, r.emitted + SecondStep(r.after).emitted)
       else r)
    decreases k
  {
    if k > 0 && s.active {
      var first := SecondStep(s);
      RunOneMore(first.after, k - 1);
      var r := Run(first.after, k - 1);
      if r.after.active {
        var last := SecondStep(r.after);
        assert first.emitted + (r.emitted + last.emitted) == (first.emitted + r.emitted) + last.emitted;
      }
    }
  }

  /** Once a run has stopped the timer, firing it further changes nothing. */
  lemma {:induction false} RunSettled(s: Session, i: nat, k: nat)
    requires i <= k && !Run(s, i).after.active
    ensures Run(s, k) == Run(s, i)
    decreases k - i
  {
    if i < k {
      RunOneMore(s, i);
      RunSettled(s, i + 1, k);
    }
  }

  /** The events a run emits are enough to tell whether it left the timer active. */
  lemma {:induction false} RunTracksRunning(s: Session, k: nat)
    ensures RunningAfter(s.active, Run(s, k).emitted) == Run(s, k).after.active
    decreases k
  {
    if k > 0 && s.active {
      var first := SecondStep(s);
      RunTracksRunning(first.after, k - 1);
      RunningAfterAppend(s.active, first.emitted, Run(first.after, k - 1).emitted);
      if first.after.active {
        assert first.emitted[..0] == [];
      } else {
        assert first.emitted[..1] == [first.emitted[0]];
        assert [first.emitted[0]][..0] == [];
      }
    }
  }

  /** While remaining has not reached 0, each firing appends the next tick of the session. */
  lemma {:induction false} RunWithin(n: int, e: nat, k: nat)
    requires e + k < n
    ensures Run(Session(e, n - e, true), k).after == Session(e + k, n - e - k, true)
    ensures Ticks(n, e) + Run(Session(e, n - e, true), k).emitted == Ticks(n, e + k)
    decreases k
  {
    var s := Session(e, n - e, true);
    if k == 0 {
      assert Ticks(n, e) + [] == Ticks(n, e);
    } else {
      var first := SecondStep(s);
      assert first.after == Session(e + 1, n - e - 1, true);
      RunWithin(n, e + 1, k - 1);
      var rest := Run(first.after, k - 1);
      assert Ticks(n, e + 1) == Ticks(n, e) + first.emitted;
      assert Ticks(n, e) + (first.emitted + rest.emitted) == (Ticks(n, e) + first.emitted) + rest.emitted;
    }
  }

  /** The firing that brings remaining to 0 emits the final tick, then Complete, and stops the timer. */
  lemma {:induction false} RunToEnd(n: int, e: nat)
    requires e < n
    ensures Run(Session(e, n - e, true), n - e).after == Session(n, 0, false)
    ensures Ticks(n, e) + Run(Session(e, n - e, true), n - e).emitted == Ticks(n, n) + [Complete]
    decreases n - e
  {
    var s := Session(e, n - e, true);
    var first := SecondStep(s);
    var rest := Run(first.after, n - e - 1);
    assert Ticks(n, e + 1) == Ticks(n, e) + [first.emitted[0]];
    if e + 1 == n {
      assert rest == Step(first.after, []);
      assert first.emitted == [Tick(n, 0), Complete];
    } else {
      RunToEnd(n, e + 1);
      assert Ticks(n, e) + (first.emitted + rest.emitted) == (Ticks(n, e) + first.emitted) + rest.emitted;
    }
  }

  /** A session of n >= 1 seconds left to run its course emits Begin, Tick(0, n),
      Tick(1, n - 1), ..., Tick(n, 0) and then exactly one Complete, stops the
      timer, and emits nothing more however often the timer would have fired. */
  lemma NaturalCompletion(n: int)
    requires n >= 1
    ensures Run(Session(0, n, true), n).after == Session(n, 0, false)
    ensures [Begin, Tick(0, n)] + Run(Session(0, n, true), n).emitted == SessionSoFar(n, n) + [Complete]
    ensures multiset(SessionSoFar(n, n) + [Complete])[Complete] == 1
    ensures forall k :: k >= n ==> Run(Session(0, n, true), k) == Run(Session(0, n, true), n)
  {
    var s := Session(0, n, true);
    RunToEnd(n, 0);
    assert Ticks(n, 0) == [];
    assert [] + Run(s, n).emitted == Run(s, n).emitted;
    assert [Begin, Tick(0, n)] + (Ticks(n, n) + [Complete]) == SessionSoFar(n, n) + [Complete];
    CompleteOnce(SessionSoFar(n, n));
    forall k | k >= n
      ensures Run(s, k) == Run(s, n)
    {
      RunSettled(s, n, k);
    }
  }

  /** early_finish after k < n firings: the trace is the session's first k ticks and one Complete. */
  lemma EarlyFinishTruncates(n: int, k: nat)
    requires k < n
    ensures Run(Session(0, n, true), k).after == Session(k, n - k, true)
    ensures [Begin, Tick(0, n)] + Run(Session(0, n, true), k).emitted == SessionSoFar(n, k)
    ensures multiset(SessionSoFar(n, k) + [Complete])[Complete] == 1
  {
    var t := Run(Session(0, n, true), k).emitted;
    RunWithin(n, 0, k);
    assert Ticks(n, 0) == [];
    assert t == Ticks(n, k);
    CompleteOnce(SessionSoFar(n, k));
  }

  lemma AppendAssoc(a: seq<Event>, b: seq<Event>, c: seq<Event>)
    ensures a + b + c == a + (b + c)
  {
  }

  lemma CompleteOnce(t: seq<Event>)
    requires Complete !in t
    ensures multiset(t + [Complete])[Complete] == 1
  {
    assert multiset(t + [Complete]) == multiset(t) + multiset{Complete};
  }

  /** start does not check its argument: with remaining <= 0 the decrement never
      lands on 0, so the timer never stops by itself and Complete is never emitted. */
  lemma {:induction false} NonPositiveNeverCompletes(s: Session, k: nat)
    requires s.active && s.remaining <= 0
    ensures Run(s, k).after.active
    ensures Run(s, k).after.remaining == s.remaining - k
    ensures Complete !in Run(s, k).emitted
    decreases k
  {
    if k > 0 {
      NonPositiveNeverCompletes(SecondStep(s).after, k - 1);
    }
  }

  /** The controller: its counters, its timer flag and the trace of what it has emitted. */
  class Control {
    var secondsElapsed: int
    var secondsRemaining: int
    var timerActive: bool
    var trace: seq<Event>
    /** The argument of the latest start (0 before any). */
    ghost var total: int
    /** Where in `trace` the latest session's Begin stands. */
    ghost var sessionStart: nat

    /** The counters always add up to the latest start's argument; while the timer is
        active, the trace since the latest Begin is exactly the session so far and a
        positive session has time left; the timer flag can be read off the trace. */
    ghost predicate Valid()
      reads this
    {
      secondsElapsed >= 0 && secondsElapsed + secondsRemaining == total &&
      sessionStart <= |trace| &&
      (timerActive ==>
         trace[sessionStart..] == SessionSoFar(total, secondsElapsed) &&
         (total > 0 ==> secondsRemaining > 0)) &&
      timerActive == RunningAfter(false, trace)
    }

    function State(): Session
      reads this
    {
      Session(secondsElapsed, secondsRemaining, timerActive)
    }

    constructor ()
      ensures Valid()
      ensures State() == Session(0, 0, false) && trace == []
    {
      secondsRemaining := 0;
      secondsElapsed := 0;
      timerActive := false;
      trace := [];
      total := 0;
      sessionStart := 0;
    }

    /** is_running: the timer flag; a running positive session still has time left. */
    function IsRunning(): (r: bool)
      requires Valid()
      reads this
      ensures r <==> timerActive
      ensures r && total > 0 ==> 0 <= secondsElapsed < total && secondsRemaining > 0
      ensures r == RunningAfter(false, trace)
    {
      timerActive
    }

    /** start(n): a new session replaces whatever was running, without a Complete for it. */
    method Start(n: int)
      requires Valid()
      modifies this
      ensures Valid()
      ensures State() == Session(0, n, true) && total == n
      ensures trace == old(trace) + [Begin, Tick(0, n)]
    {
      secondsRemaining := n;
      secondsElapsed := 0;
      timerActive := true;
      trace := trace + [Begin];
      trace := trace + [Tick(secondsElapsed, secondsRemaining)];
      total := n;
      sessionStart := |old(trace)|;
      assert trace[sessionStart..] == [Begin, Tick(0, n)];
      assert trace[..|trace| - 1] == old(trace) + [Begin];
    }

    /** early_finish: stops the timer and emits Complete, whether or not it was running. */
    method EarlyFinish()
      requires Valid()
      modifies this`timerActive, this`trace
      ensures Valid()
      ensures State() == old(State()).(active := false)
      ensures trace == old(trace) + [Complete]
    {
      timerActive := false;
      trace := trace + [Complete];
    }

    /** handle_second: one firing of the timer, as `SecondStep` describes it. */
    method HandleSecond()
      requires Valid() && timerActive
      modifies this`secondsElapsed, this`secondsRemaining, this`timerActive, this`trace
      ensures Valid() && total == old(total)
      ensures State() == SecondStep(old(State())).after
      ensures trace == old(trace) + SecondStep(old(State())).emitted
    {
      secondsElapsed := secondsElapsed + 1;
      secondsRemaining := secondsRemaining - 1;
      trace := trace + [Tick(secondsElapsed, secondsRemaining)];
      assert trace[..|trace| - 1] == old(trace);
      if secondsRemaining == 0 {
        timerActive := false;
        trace := trace + [Complete];
      } else {
        SessionSoFarExtends(total, secondsElapsed - 1);
        assert trace[sessionStart..] == old(trace)[sessionStart..] + [Tick(secondsElapsed, secondsRemaining)];
      }
    }
  }

  /** start(n) followed by up to k firings of the timer (a stopped timer fires no more). */
  method StartAndRun(c: Control, n: int, k: nat)
    requires c.Valid()
    modifies c
    ensures c.Valid() && c.total == n
    ensures c.State() == Run(Session(0, n, true), k).after
    ensures c.trace == old(c.trace) + ([Begin, Tick(0, n)] + Run(Session(0, n, true), k).emitted)
  {
    var s := Session(0, n, true);
    c.Start(n);
    var i := 0;
    while i < k && c.IsRunning()
      invariant 0 <= i <= k
      invariant c.Valid() && c.total == n
      invariant c.State() == Run(s, i).after
      invariant c.trace == old(c.trace) + ([Begin, Tick(0, n)] + Run(s, i).emitted)
    {
      RunOneMore(s, i);
      ghost var step := SecondStep(c.State());
      AppendAssoc(old(c.trace), [Begin, Tick(0, n)] + Run(s, i).emitted, step.emitted);
      AppendAssoc([Begin, Tick(0, n)], Run(s, i).emitted, step.emitted);
      c.HandleSecond();
      i := i + 1;
    }
    if i < k {
      RunSettled(s, i, k);
    }
  }

  /** start(n) with n >= 1 and the timer left to fire: the whole session, then the controller is idle. */
  method RunSession(c: Control, n: int)
    requires c.Valid() && n >= 1
    modifies c
    ensures c.Valid() && !c.IsRunning()
    ensures c.State() == Session(n, 0, false)
    ensures c.trace == old(c.trace) + (SessionSoFar(n, n) + [Complete])
  {
    StartAndRun(c, n, n);
    NaturalCompletion(n);
  }

  /** start(n), k < n firings, then early_finish: a truncated session closed by one Complete. */
  method RunThenFinishEarly(c: Control, n: int, k: nat)
    requires c.Valid() && k < n
    modifies c
    ensures c.Valid() && !c.IsRunning()
    ensures c.State() == Session(k, n - k, false)
    ensures c.trace == old(c.trace) + (SessionSoFar(n, k) + [Complete])
  {
    StartAndRun(c, n, k);
    EarlyFinishTruncates(n, k);
    c.EarlyFinish();
    AppendAssoc(old(c.trace), SessionSoFar(n, k), [Complete]);
  }
}
