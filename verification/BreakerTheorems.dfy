/** What the circuit breaker guarantees over every run of concurrent, cancellable calls. */
module BreakerTheorems {
  import opened Basics
  import opened CircuitBreaker
  import opened BreakerRuns

  // ---- half-open permits --------------------------------------------------------------------

  /** A call is only turned away for lack of permits while at least `halfOpenProbes` probes of the
      present half-open period are in flight, whatever permits of earlier periods came back. */
  lemma ExhaustedMeansProbesInFlight(c: Config, run: seq<Sys>, events: seq<Event>, k: nat, at: nat)
    requires IsRun(c, run, events) && k < |run|
    requires Entered(c, run[k].b, at).1.RejectedProbes?
    ensures c.halfOpenProbes <= |Outstanding(run[k])|
  {
    InvThroughout(c, run, events, k);
  }

  /** How far the count of permits is off: the probes in flight are exactly the permits counted as
      taken and the excess, that is the places freed by permits of earlier periods and not made up for. */
  lemma ProbesInFlightAreExact(c: Config, run: seq<Sys>, events: seq<Event>, k: nat)
    requires IsRun(c, run, events) && k < |run| && run[k].b.state.HalfOpen?
    ensures |Outstanding(run[k])| == run[k].b.halfOpenCount + run[k].excess
    ensures 0 <= run[k].excess && run[k].b.halfOpenCount <= c.halfOpenProbes
  {
    InvThroughout(c, run, events, k);
  }

  ghost predicate Reachable(c: Config, s: Sys) {
    exists run, events :: IsRun(c, run, events) && run[|run| - 1] == s
  }

  lemma ReachableStart(c: Config, now: nat)
    ensures Reachable(c, Init(now))
  {
    assert IsRun(c, [Init(now)], []);
  }

  lemma ReachableStep(c: Config, s: Sys, e: Event)
    requires Reachable(c, s) && Allowed(s, e)
    ensures Reachable(c, Apply(c, s, e))
  {
    var run, events :| IsRun(c, run, events) && run[|run| - 1] == s;
    var longer, more := run + [Apply(c, s, e)], events + [e];
    forall k | 0 <= k < |more|
      ensures Allowed(longer[k], more[k]) && longer[k + 1] == Apply(c, longer[k], more[k])
    {
      if k < |events| {
        assert Allowed(run[k], events[k]);
      }
    }
    assert IsRun(c, longer, more);
  }

  lemma ReachableInv(c: Config, s: Sys)
    requires Reachable(c, s)
    ensures SysInv(c, s)
  {
    var run, events :| IsRun(c, run, events) && run[|run| - 1] == s;
    InvThroughout(c, run, events, |run| - 1);
  }

  /** Nothing is in flight for the half-open period and yet a call is turned away. */
  ghost predicate Wedged(c: Config, s: Sys) {
    s.b.state.HalfOpen? && Outstanding(s) == {} && exists at :: s.now <= at && !Admitted(Entered(c, s.b, at).1)
  }

  const ZERO_TICK := Tick(0, 0)
  const ZERO_READS := Reads(ZERO_TICK, ZERO_TICK, ZERO_TICK, None, 0)

  predicate CanTrip(c: Config) {
    0 < c.window && c.failureRatio <= 1.0
  }

  function Failures(n: nat): seq<bool> {
    seq(n, _ => false)
  }

  /** The state after `n` failed calls at time zero. */
  function Failing(n: nat): Sys {
    Sys(Inner(Closed, Window(0, n, 0), None, 0, 0), 0, map[], [], 0, 0, Failures(n), seq(n, _ => 0), 0, 0)
  }

  function Tripped(): Sys {
    Sys(Inner(Open, Window(0, 5, 0), Some(0), 0, 1), 0, map[], [0], 0, 0, Failures(5), seq(5, _ => 0), 0, 0)
  }

  lemma FailedCall(c: Config, n: nat)
    requires CanTrip(c) && n < 5 && Reachable(c, Failing(n))
    ensures Reachable(c, if n < 4 then Failing(n + 1) else Tripped())
  {
    var s := Failing(n);
    ReachableStep(c, s, Enter(0, 0));
    var s1 := Apply(c, s, Enter(0, 0));
    assert s1 == s.(calls := map[0 := PlainCall]);
    var e := Finish(0, ZERO_READS, false, false);
    ReachableStep(c, s1, e);
    assert Failures(n) + [false] == Failures(n + 1);
    assert seq(n, _ => 0) + [0] == seq(n + 1, _ => 0);
    assert Without(s1.calls, 0) == map[];
    if n == 4 {
      assert Ratio(Window(0, 5, 0)) == 1.0;
    }
  }

  lemma TrippedIsReachable(c: Config)
    requires CanTrip(c)
    ensures Reachable(c, Tripped())
  {
    ReachableStart(c, 0);
    assert Init(0) == Failing(0);
    FailedCall(c, 0);
    FailedCall(c, 1);
    FailedCall(c, 2);
    FailedCall(c, 3);
    FailedCall(c, 4);
  }

  /** The half-open state whose only call, the one that left the open state, was cancelled. */
  function Deserted(c: Config): Sys {
    Tripped().(b := Tripped().b.(state := HalfOpen), now := c.openDuration, periods := 1)
  }

  lemma DesertedIsReachable(c: Config)
    requires CanTrip(c)
    ensures Reachable(c, Deserted(c))
  {
    TrippedIsReachable(c);
    var s := Tripped();
    ReachableStep(c, s, Enter(0, c.openDuration));
    var s1 := Apply(c, s, Enter(0, c.openDuration));
    assert s1.calls == map[0 := PlainCall];
    ReachableStep(c, s1, Cancel(0));
    assert Without(s1.calls, 0) == map[];
    assert Apply(c, s1, Cancel(0)) == Deserted(c);
  }

  lemma RatioAtMostOne(w: Window)
    ensures Ratio(w) <= 1.0
  {
    if Total(w) > 0 {
      var total := Total(w) as real;
      assert Ratio(w) * total == w.failures as real <= total;
      assert (1.0 - Ratio(w)) * total >= 0.0;
    }
  }

  /** A configuration that cannot trip keeps the breaker closed: no five outcomes outlast an empty
      window, and no failure share exceeds one. */
  lemma UntrippableStep(c: Config, s: Sys, e: Event)
    requires !CanTrip(c) && SysInv(c, s) && Allowed(s, e) && s.b.state.Closed?
    ensures Apply(c, s, e).b.state.Closed?
  {
    if e.Finish? {
      if c.window == 0 {
        RecordKeepsTimes(c, s, e.clock, e.success);
        assert Rotates(AfterRecord(c, s.b, e.clock, e.success), c.window, e.clock.total);
        assert Total(AfterTotal(c, s.b, e.clock, e.success)) == 0;
      } else {
        RatioAtMostOne(AfterRatio(c, s.b, e.clock, e.success));
      }
      hide AfterRecord, AfterTotal, AfterRatio, AfterTrace, Ratio;
    }
  }

  lemma {:induction false} UntrippableStaysClosed(c: Config, run: seq<Sys>, events: seq<Event>, k: nat)
    requires IsRun(c, run, events) && k < |run| && !CanTrip(c)
    ensures run[k].b.state.Closed?
  {
    if k > 0 {
      UntrippableStaysClosed(c, run, events, k - 1);
      InvThroughout(c, run, events, k - 1);
      UntrippableStep(c, run[k - 1], events[k - 1]);
    }
  }

  lemma ReachableIsClosed(c: Config, s: Sys)
    requires Reachable(c, s) && !CanTrip(c)
    ensures s.b.state.Closed?
  {
    var run, events :| IsRun(c, run, events) && run[|run| - 1] == s;
    UntrippableStaysClosed(c, run, events, |run| - 1);
  }

  /** The breaker never wedges half-open if and only if it is configured with a probe or can never
      open.  The configuration type does not enforce the probe; only the tower builder clamps it. */
  lemma NeverWedgesIffProbes(c: Config)
    ensures c.halfOpenProbes >= 1 || !CanTrip(c) <==> forall s | Reachable(c, s) :: !Wedged(c, s)
  {
    if c.halfOpenProbes >= 1 || !CanTrip(c) {
      forall s | Reachable(c, s)
        ensures !Wedged(c, s)
      {
        ReachableInv(c, s);
        if !CanTrip(c) {
          ReachableIsClosed(c, s);
        }
      }
    } else {
      DesertedIsReachable(c);
      assert Outstanding(Deserted(c)) == {};
      assert !Admitted(Entered(c, Deserted(c).b, c.openDuration).1);
      assert Wedged(c, Deserted(c));
    }
  }

  // ---- without probes -----------------------------------------------------------------------

  /** Without a probe a half-open breaker with no call in flight is stuck: over every continuation
      nothing but the clock moves, and every event is a call that is turned away. */
  lemma {:induction false} WedgeIsForever(c: Config, run: seq<Sys>, events: seq<Event>, k: nat, m: nat)
    requires Steps(c, run, events) && k <= m < |run|
    requires c.halfOpenProbes == 0 && run[k].b.state.HalfOpen? && run[k].calls == map[]
    ensures run[m] == run[k].(now := run[m].now)
    ensures m < |events| ==> events[m].Enter? && Entered(c, run[m].b, events[m].at) == (run[m].b, RejectedProbes)
    decreases m
  {
    if k < m {
      WedgeIsForever(c, run, events, k, m - 1);
      assert run[m - 1 + 1] == Apply(c, run[m - 1], events[m - 1]);
    }
    if m < |events| {
      assert Allowed(run[m], events[m]);
    }
  }

  /** The second state can follow the first, after any number of events. */
  ghost predicate Leads(c: Config, s: Sys, s': Sys) {
    exists run, events :: Steps(c, run, events) && run[0] == s && run[|run| - 1] == s'
  }

  lemma LeadsInOne(c: Config, s: Sys, e: Event)
    requires Allowed(s, e)
    ensures Leads(c, s, Apply(c, s, e))
  {
    assert Steps(c, [s, Apply(c, s, e)], [e]);
  }

  lemma LeadsInTwo(c: Config, s: Sys, e: Event, e': Event)
    requires Allowed(s, e) && Allowed(Apply(c, s, e), e')
    ensures Leads(c, s, Apply(c, Apply(c, s, e), e'))
  {
    var s1 := Apply(c, s, e);
    assert Steps(c, [s, s1, Apply(c, s1, e')], [e, e']);
  }

  function ReadsAt(now: nat): Reads {
    Reads(Tick(now, now), Tick(now, now), Tick(now, now), None, now)
  }

  /** A half-open breaker can still close if and only if it has a probe to give or a call in flight:
      the call that ended the cooldown needs no permit and closes the breaker if it succeeds. */
  lemma CanCloseIff(c: Config, s: Sys)
    requires Reachable(c, s) && s.b.state.HalfOpen?
    ensures (exists s' :: Leads(c, s, s') && s'.b.state.Closed?) <==> c.halfOpenProbes >= 1 || s.calls != map[]
  {
    if s.calls != map[] {
      var id :| id in s.calls;
      LeadsInOne(c, s, Finish(id, ReadsAt(s.now), true, true));
    } else if c.halfOpenProbes >= 1 {
      ReachableInv(c, s);
      assert Outstanding(s) == {};
      var s1 := Apply(c, s, Enter(0, s.now));
      assert 0 in s1.calls;
      LeadsInTwo(c, s, Enter(0, s.now), Finish(0, ReadsAt(s.now), true, true));
    } else if exists s' :: Leads(c, s, s') && s'.b.state.Closed? {
      var s' :| Leads(c, s, s') && s'.b.state.Closed?;
      var run, events :| Steps(c, run, events) && run[0] == s && run[|run| - 1] == s';
      WedgeIsForever(c, run, events, 0, |run| - 1);
    }
  }

  // ---- how many probes ----------------------------------------------------------------------

  lemma Enters(c: Config, s: Sys, id: nat, at: nat) returns (s': Sys)
    requires Reachable(c, s) && id !in s.calls && s.now <= at
    ensures s' == ApplyEnter(c, s, id, at) && Reachable(c, s')
  {
    ReachableStep(c, s, Enter(id, at));
    s' := Apply(c, s, Enter(id, at));
  }

  /** An open breaker over `m` probes that are still running. */
  ghost predicate Hoards(c: Config, s: Sys, m: nat) {
    && Reachable(c, s) && s.b.state.Open?
    && (forall id: nat :: id in s.calls <==> id < m)
    && (forall id: nat | id < m :: s.calls[id].ProbeCall? && s.calls[id].period <= s.periods)
  }

  /** Half-open again, over `m` probes of earlier periods. */
  ghost predicate Resumed(c: Config, s: Sys, m: nat) {
    && Reachable(c, s) && s.b.state.HalfOpen?
    && (forall id: nat | id < m :: id in s.calls && s.calls[id].ProbeCall? && s.calls[id].period < s.periods)
  }

  /** The cooldown passes and a call, which needs no permit, ends the open state. */
  lemma Resumes(c: Config, s: Sys, m: nat) returns (s': Sys)
    requires Hoards(c, s, m)
    ensures Resumed(c, s', m) && s'.b.halfOpenCount == 0 && s'.excess == 0
    ensures s'.calls == s.calls[m := PlainCall]
  {
    ReachableInv(c, s);
    s' := Enters(c, s, m, s.now + c.openDuration);
  }

  lemma {:induction false} HoardsAny(c: Config, m: nat) returns (s: Sys)
    requires CanTrip(c) && c.halfOpenProbes >= 1
    ensures Hoards(c, s, m)
  {
    if m == 0 {
      TrippedIsReachable(c);
      s := Tripped();
    } else {
      var s0 := HoardsAny(c, m - 1);
      s := HoardOneMore(c, s0, m - 1);
    }
  }

  /** One more probe is left running, and the call that ended the open state fails. */
  lemma HoardOneMore(c: Config, s: Sys, m: nat) returns (s': Sys)
    requires Hoards(c, s, m) && c.halfOpenProbes >= 1
    ensures Hoards(c, s', m + 1)
  {
    ReachableInv(c, s);
    var at := s.now + c.openDuration;
    var s1 := Enters(c, s, m + 1, at);
    var s2 := Enters(c, s1, m, at);
    var e := Finish(m + 1, ReadsAt(at), false, false);
    ReachableStep(c, s2, e);
    s' := Apply(c, s2, e);
  }

  /** Probes enter until `n` permits are counted as taken. */
  lemma {:induction false} Fill(c: Config, s: Sys, m: nat, n: nat, id: nat) returns (s': Sys)
    requires Resumed(c, s, m) && s.b.halfOpenCount <= n <= c.halfOpenProbes
    requires forall i | i in s.calls :: i < id
    ensures Resumed(c, s', m) && s'.b.halfOpenCount == n && s'.excess == s.excess
    ensures forall i | i in s'.calls :: i < id + (n - s.b.halfOpenCount)
    decreases n - s.b.halfOpenCount
  {
    if s.b.halfOpenCount == n {
      s' := s;
    } else {
      var s1 := Enters(c, s, id, s.now);
      s' := Fill(c, s1, m, n, id + 1);
    }
  }

  /** Each old probe that is dropped makes room for one more new one. */
  lemma {:induction false} Trade(c: Config, s: Sys, m: nat, id: nat) returns (s': Sys)
    requires Resumed(c, s, m) && s.b.halfOpenCount == c.halfOpenProbes >= 1
    requires forall i | i in s.calls :: i < id
    ensures Resumed(c, s', 0) && s'.b.halfOpenCount == c.halfOpenProbes && s'.excess == s.excess + m
    decreases m
  {
    if m == 0 {
      s' := s;
    } else {
      ReachableStep(c, s, Cancel(m - 1));
      var s1 := Apply(c, s, Cancel(m - 1));
      var s2 := Enters(c, s1, id, s1.now);
      s' := Trade(c, s2, m - 1, id + 1);
    }
  }

  /** The limit on concurrent probes is no limit: with any positive setting, any number of probes of
      one half-open period can be in flight beyond it. */
  lemma ProbesCanExceedBy(c: Config, m: nat) returns (s: Sys)
    requires CanTrip(c) && c.halfOpenProbes >= 1
    ensures Reachable(c, s) && s.b.state.HalfOpen? && |Outstanding(s)| == c.halfOpenProbes + m
  {
    var hoard := HoardsAny(c, m);
    var s0 := Resumes(c, hoard, m);
    var s1 := Fill(c, s0, m, c.halfOpenProbes, m + 1);
    s := Trade(c, s1, m, m + 1 + c.halfOpenProbes);
    ReachableInv(c, s);
  }

  /** Exactly when the limit holds: when no probe is allowed at all, or the breaker can never open. */
  lemma ProbeLimitHoldsIff(c: Config)
    ensures (forall s | Reachable(c, s) && s.b.state.HalfOpen? :: |Outstanding(s)| <= c.halfOpenProbes)
       <==> c.halfOpenProbes == 0 || !CanTrip(c)
  {
    if !CanTrip(c) {
      forall s | Reachable(c, s)
        ensures s.b.state.Closed?
      {
        ReachableIsClosed(c, s);
      }
    } else if c.halfOpenProbes >= 1 {
      var s := ProbesCanExceedBy(c, 1);
    } else {
      forall s | Reachable(c, s) && s.b.state.HalfOpen?
        ensures |Outstanding(s)| <= 0
      {
        var run, events :| IsRun(c, run, events) && run[|run| - 1] == s;
        NoProbesWithoutPermits(c, run, events, |run| - 1);
        assert Outstanding(s) == {};
      }
    }
  }

  lemma {:induction false} NoProbesWithoutPermits(c: Config, run: seq<Sys>, events: seq<Event>, k: nat)
    requires IsRun(c, run, events) && k < |run| && c.halfOpenProbes == 0
    ensures forall id | id in run[k].calls :: run[k].calls[id].PlainCall?
  {
    if k > 0 {
      NoProbesWithoutPermits(c, run, events, k - 1);
      assert run[k - 1 + 1] == Apply(c, run[k - 1], events[k - 1]);
    }
  }

  // ---- cooldown -----------------------------------------------------------------------------

  /** How a later state of a run relates to an earlier one. */
  ghost predicate Grows(s: Sys, s': Sys) {
    && s.now <= s'.now
    && s.openings <= s'.openings
    && forall n | |s.openings| <= n < |s'.openings| :: s.now <= s'.openings[n]
  }

  lemma EventGrows(c: Config, s: Sys, e: Event)
    requires Allowed(s, e)
    ensures Grows(s, Apply(c, s, e))
  {
    hide AfterRecord, AfterTotal, AfterRatio, AfterTrace, Trips;
  }

  lemma {:induction false} RunGrows(c: Config, run: seq<Sys>, events: seq<Event>, i: nat, j: nat)
    requires IsRun(c, run, events) && i <= j < |run|
    ensures Grows(run[i], run[j])
    decreases j
  {
    if i < j {
      RunGrows(c, run, events, i, j - 1);
      EventGrows(c, run[j - 1], events[j - 1]);
      assert run[j - 1 + 1] == Apply(c, run[j - 1], events[j - 1]);
    }
  }

  /** After an opening no call is admitted before the cooldown is over. */
  lemma {:induction false} NothingAdmittedWhileCooling(c: Config, run: seq<Sys>, events: seq<Event>, k: nat, m: nat,
      at: nat)
    requires IsRun(c, run, events) && k <= m < |run| && run[k].b.state.Open? && run[k].b.openedAt.Some?
    requires run[m].now <= at < run[k].b.openedAt.value + c.openDuration
    ensures run[m].b.state.Open? && run[m].b.openedAt == run[k].b.openedAt
    ensures Entered(c, run[m].b, at) == (run[m].b, RejectedOpen)
    decreases m
  {
    if k < m {
      RunGrows(c, run, events, m - 1, m);
      NothingAdmittedWhileCooling(c, run, events, k, m - 1, run[m].now);
      assert run[m - 1 + 1] == Apply(c, run[m - 1], events[m - 1]);
      hide AfterRecord, AfterTotal, AfterRatio, AfterTrace, Trips;
    }
  }

  lemma {:induction false} OpeningsSpread(c: Config, s: Sys, a: nat, b: nat)
    requires Spaced(c, s) && a <= b < |s.openings|
    ensures s.openings[a] + (b - a) * c.openDuration <= s.openings[b]
    decreases b
  {
    if a < b {
      OpeningsSpread(c, s, a, b - 1);
      assert (b - a) * c.openDuration == (b - 1 - a) * c.openDuration + c.openDuration;
    }
  }

  lemma OpeningBooks(c: Config, run: seq<Sys>, events: seq<Event>, k: nat)
    requires IsRun(c, run, events) && k < |run|
    ensures Spaced(c, run[k]) && run[k].b.openedTotal == |run[k].openings|
    ensures run[k].openings != [] ==> run[k].openings[|run[k].openings| - 1] <= run[k].now
  {
    InvThroughout(c, run, events, k);
  }

  /** In any stretch of length L the breaker opens N times with (N - 1) * openDuration <= L, that
      is at most 1 + L / openDuration times. */
  lemma OpeningsAreRare(c: Config, run: seq<Sys>, events: seq<Event>, i: nat, j: nat)
    requires IsRun(c, run, events) && i <= j < |run|
    ensures run[i].now <= run[j].now && run[i].b.openedTotal <= run[j].b.openedTotal
    ensures (run[j].b.openedTotal - run[i].b.openedTotal - 1) * c.openDuration <= run[j].now - run[i].now
  {
    RunGrows(c, run, events, i, j);
    OpeningBooks(c, run, events, i);
    OpeningBooks(c, run, events, j);
    hide IsRun, Spaced;
    var s, s' := run[i], run[j];
    var n := |s'.openings| - |s.openings|;
    if n > 0 {
      OpeningsSpread(c, s', |s.openings|, |s'.openings| - 1);
      assert (|s'.openings| - 1 - |s.openings|) * c.openDuration == (n - 1) * c.openDuration;
    } else {
      assert (0 - 1) * c.openDuration <= 0;
    }
  }

  // ---- admission ----------------------------------------------------------------------------

  /** Exactly who is let in: everybody while closed; while open, whoever comes when the cooldown since
      the last opening is over; while half-open, whoever finds a place below the limit, the places
      freed by permits of earlier periods included. */
  lemma AdmissionIff(c: Config, run: seq<Sys>, events: seq<Event>, k: nat, at: nat)
    requires IsRun(c, run, events) && k < |run|
    ensures var s, a := run[k], Entered(c, run[k].b, at).1;
            match s.b.state
            case Closed => a.Plain?
            case Open =>
              && s.openings != []
              && (a.Plain? <==> s.openings[|s.openings| - 1] + c.openDuration <= at)
              && (a.RejectedOpen? <==> at < s.openings[|s.openings| - 1] + c.openDuration)
            case HalfOpen =>
              && (a.Probe? <==> |Outstanding(s)| < c.halfOpenProbes + s.excess)
              && (a.RejectedProbes? <==> c.halfOpenProbes + s.excess <= |Outstanding(s)|)
  {
    InvThroughout(c, run, events, k);
  }

  /** The call that ends the cooldown opens a fresh half-open period. */
  lemma CooldownEnds(c: Config, run: seq<Sys>, events: seq<Event>, k: nat)
    requires IsRun(c, run, events) && k < |events| && run[k].b.state.Open? && events[k].Enter?
    requires run[k].openings != [] && run[k].openings[|run[k].openings| - 1] + c.openDuration <= events[k].at
    ensures run[k + 1].b.state.HalfOpen? && Outstanding(run[k + 1]) == {} && run[k + 1].excess == 0
    ensures run[k + 1].calls == run[k].calls[events[k].id := PlainCall]
  {
    InvThroughout(c, run, events, k);
    InvThroughout(c, run, events, k + 1);
    RunStep(c, run, events, k);
    assert run[k + 1].b.halfOpenCount == 0;
  }

  /** In the half-open state the transport result of the first call to finish decides, whoever it is: it
      closes the breaker, with a window that begins now, or opens it again from now on.  In the open
      state a late finish changes nothing but the window. */
  lemma FinishDecides(c: Config, run: seq<Sys>, events: seq<Event>, k: nat)
    requires IsRun(c, run, events) && k < |events| && events[k].Finish? && !run[k].b.state.Closed?
    ensures var s, s', e := run[k], run[k + 1], events[k];
            if s.b.state.HalfOpen? then
              if e.ok then
                s'.b.state.Closed? && s'.b.window == Window(0, 0, e.clock.now) && s'.openings == s.openings
              else
                s'.b.state.Open? && s'.openings == s.openings + [e.clock.now]
            else
              s'.b.(window := s.b.window) == s.b && s'.openings == s.openings
    ensures run[k + 1].calls == Without(run[k].calls, events[k].id)
  {
    RunStep(c, run, events, k);
    hide AfterRecord, AfterTotal, AfterRatio, AfterTrace, Trips;
  }

  // ---- accounting ---------------------------------------------------------------------------

  /** The open instant is known exactly while not closed, openings and half-open periods pair up,
      and `state()` reports the state a call at that instant would meet, so Open exactly when it would be
      turned away as open. */
  lemma BooksBalance(c: Config, run: seq<Sys>, events: seq<Event>, k: nat, at: nat)
    requires IsRun(c, run, events) && k < |run|
    ensures run[k].b.openedAt.None? <==> run[k].b.state.Closed?
    ensures run[k].b.openedTotal - run[k].periods == if run[k].b.state.Open? then 1 else 0
    ensures Reported(c, run[k].b, at).Open? <==> Entered(c, run[k].b, at).1.RejectedOpen?
    ensures Reported(c, run[k].b, at) == Entered(c, run[k].b, at).0.state
  {
    InvThroughout(c, run, events, k);
  }

  // ---- tripping -----------------------------------------------------------------------------

  lemma {:induction false} TallyAddsUp(records: seq<bool>)
    ensures Tally(records, true) + Tally(records, false) == |records|
  {
    if records != [] {
      TallyAddsUp(records[..|records| - 1]);
    }
  }

  /** Failures make up at least the given share of the total. */
  predicate ReachesShare(failures: nat, total: nat, share: real) {
    failures as real >= share * total as real
  }

  lemma ClosedOpensByTripping(c: Config, s: Sys, e: Event)
    requires Allowed(s, e) && s.b.state.Closed? && Apply(c, s, e).b.state.Open?
    ensures e.Finish? && InOrder(s.now, e.clock) && Trips(c, s.b, e.clock, e.success)
    ensures Apply(c, s, e).records == s.records + [e.success]
    ensures Apply(c, s, e).times == s.times + [RecordedAt(c, s.b, e.clock)]
  {
    hide Trips;
  }

  lemma RunStep(c: Config, run: seq<Sys>, events: seq<Event>, k: nat)
    requires IsRun(c, run, events) && k < |events|
    ensures Allowed(run[k], events[k]) && run[k + 1] == Apply(c, run[k], events[k]) && WindowAgrees(run[k])
  {
    InvThroughout(c, run, events, k);
  }

  /** The outcomes the total of a tripping finish counts. */
  lemma TripTotal(c: Config, s: Sys, r: Reads, success: bool) returns (mark: nat)
    requires WindowAgrees(s) && s.b.state.Closed? && Trips(c, s.b, r, success)
    ensures s.closeMark <= mark && mark + MIN_SAMPLES <= |s.records| + 1
  {
    FinishCounts(c, s, r, success);
    mark := TotalMark(c, s, r, success);
    TallyAddsUp((s.records + [success])[mark..]);
  }

  /** A trip always needs five outcomes recorded since the breaker last closed. */
  lemma TripNeedsFreshOutcomes(c: Config, run: seq<Sys>, events: seq<Event>, k: nat)
    requires IsRun(c, run, events) && k < |events| && run[k].b.state.Closed? && run[k + 1].b.state.Open?
    ensures |run[k + 1].records| - run[k].closeMark >= MIN_SAMPLES
  {
    RunStep(c, run, events, k);
    hide IsRun, Apply, Allowed, Trips, WindowAgrees;
    ClosedOpensByTripping(c, run[k], events[k]);
    var mark := TripTotal(c, run[k], events[k].clock, events[k].success);
  }

  /** Between the two reads of a tripping finish the window cannot have rotated: the ratio of an
      empty window is zero. */
  lemma TripDoesNotRotate(c: Config, b: Inner, r: Reads, success: bool)
    requires Trips(c, b, r, success) && 0.0 < c.failureRatio
    ensures AfterRatio(c, b, r, success) == AfterTotal(c, b, r, success)
    ensures Total(AfterRatio(c, b, r, success)) >= MIN_SAMPLES && Ratio(AfterRatio(c, b, r, success)) >= c.failureRatio
  {
    hide AfterRecord;
  }

  /** Nor did it rotate when the outcome was recorded, since one outcome is too few. */
  lemma TripKeepsMark(c: Config, s: Sys, r: Reads, success: bool)
    requires WindowAgrees(s) && s.b.state.Closed? && Trips(c, s.b, r, success) && 0.0 < c.failureRatio
    ensures RatioMark(c, s, r, success) == s.mark
    ensures !Rotates(s.b.window, c.window, r.record) && r.ratio.check < s.b.window.start + c.window
  {
    TripDoesNotRotate(c, s.b, r, success);
    assert !Rotates(AfterRecord(c, s.b, r, success), c.window, r.total);
    assert !Rotates(s.b.window, c.window, r.record);
    assert !Rotates(AfterTotal(c, s.b, r, success), c.window, r.ratio);
  }

  /** The outcomes behind a trip, for a positive threshold. */
  lemma TripWindow(c: Config, s: Sys, r: Reads, success: bool)
    requires WindowAgrees(s) && s.b.state.Closed? && Trips(c, s.b, r, success) && 0.0 < c.failureRatio
    ensures s.closeMark <= s.mark && s.mark + MIN_SAMPLES <= |s.records| + 1
    ensures var recent := (s.records + [success])[s.mark..];
            ReachesShare(Tally(recent, false), |recent|, c.failureRatio)
  {
    FinishCounts(c, s, r, success);
    TripKeepsMark(c, s, r, success);
    var w := AfterRatio(c, s.b, r, success);
    TripDoesNotRotate(c, s.b, r, success);
    hide Trips, AfterRecord, AfterTotal, AfterRatio, AfterTrace, RecordMark, TotalMark, RatioMark, TraceMark, Ratio,
        ReachesShare;
    TallyAddsUp((s.records + [success])[s.mark..]);
    RatioBound(w, c.failureRatio);
  }

  /** The instants from `mark` on lie within one window of that start and length. */
  ghost predicate WithinOne(times: seq<nat>, mark: nat, start: nat, length: nat) {
    forall i | mark <= i < |times| :: start <= times[i] < start + length
  }

  lemma TripTimes(c: Config, s: Sys, r: Reads, success: bool)
    requires SysInv(c, s) && InOrder(s.now, r) && s.b.state.Closed? && Trips(c, s.b, r, success) && 0.0 < c.failureRatio
    ensures WithinOne(s.times + [RecordedAt(c, s.b, r)], s.mark, s.b.window.start, c.window)
  {
    TripKeepsMark(c, s, r, success);
  }

  /** For a positive threshold a trip is backed by one window, the one in force: all outcomes since it
      began, at least five, none from before the last close, all within one window length, with a
      failure share that reaches the threshold, although each read may have rotated the window. */
  lemma TripIsJustified(c: Config, run: seq<Sys>, events: seq<Event>, k: nat)
    requires IsRun(c, run, events) && k < |events| && run[k].b.state.Closed? && run[k + 1].b.state.Open?
    requires 0.0 < c.failureRatio
    ensures run[k].closeMark <= run[k].mark && run[k].mark + MIN_SAMPLES <= |run[k + 1].records|
    ensures var recent := run[k + 1].records[run[k].mark..];
            ReachesShare(Tally(recent, false), |recent|, c.failureRatio)
    ensures |run[k + 1].times| == |run[k + 1].records|
    ensures WithinOne(run[k + 1].times, run[k].mark, run[k].b.window.start, c.window)
  {
    RunStep(c, run, events, k);
    InvThroughout(c, run, events, k);
    hide IsRun, Steps, Allowed, Trips, Tally, ReachesShare;
    var s, e := run[k], events[k];
    ClosedOpensByTripping(c, s, e);
    TripWindow(c, s, e.clock, e.success);
    TripTimes(c, s, e.clock, e.success);
  }

  lemma RatioBound(w: Window, threshold: real)
    requires 0 < Total(w)
    ensures Ratio(w) >= threshold <==> ReachesShare(w.failures, Total(w), threshold)
  {
    var total := Total(w) as real;
    assert Ratio(w) * total == w.failures as real;
    if Ratio(w) >= threshold {
      assert (Ratio(w) - threshold) * total >= 0.0;
    } else {
      assert (threshold - Ratio(w)) * total > 0.0;
    }
  }

  /** The window in force when the call began is still in force at the reading that decides: that of the
      ratio, or that of the total when any ratio reaches the threshold. */
  predicate StillInForce(c: Config, w: Window, r: Reads) {
    (if 0.0 < c.failureRatio then r.ratio.check else r.total.check) < w.start + c.window
  }

  /** A window that is out of force by the deciding reading has too few outcomes or no failure share. */
  lemma SpentWindowDoesNotTrip(c: Config, s: Sys, r: Reads, success: bool)
    requires InOrder(s.now, r) && !StillInForce(c, s.b.window, r)
    ensures !Trips(c, s.b, r, success)
  {
    var w := AfterRecord(c, s.b, r, success);
    if Rotates(s.b.window, c.window, r.record) {
      assert Total(w) == 1;
    } else if Rotates(w, c.window, r.total) {
      assert Total(AfterTotal(c, s.b, r, success)) == 0;
    } else {
      assert Rotates(AfterTotal(c, s.b, r, success), c.window, r.ratio) && 0.0 < c.failureRatio;
    }
  }

  lemma WindowInForceTrips(c: Config, s: Sys, r: Reads, success: bool)
    requires WindowAgrees(s) && InOrder(s.now, r) && StillInForce(c, s.b.window, r)
    ensures var recent := (s.records + [success])[s.mark..];
            Trips(c, s.b, r, success) <==>
              5 <= |recent| && ReachesShare(Tally(recent, false), |recent|, c.failureRatio)
  {
    FinishCounts(c, s, r, success);
    var recent := (s.records + [success])[s.mark..];
    var w := AfterRecord(c, s.b, r, success);
    assert !Rotates(s.b.window, c.window, r.record) && !Rotates(w, c.window, r.total);
    assert AfterTotal(c, s.b, r, success) == w;
    TallyAddsUp(recent);
    assert Total(w) == |recent| && w.failures == Tally(recent, false);
    RatioBound(w, c.failureRatio);
    if 0.0 < c.failureRatio {
      assert AfterRatio(c, s.b, r, success) == w;
    } else {
      NoShareNeeded(Tally(recent, false), |recent|, c.failureRatio);
    }
  }

  lemma NoShareNeeded(failures: nat, total: nat, share: real)
    requires share <= 0.0
    ensures ReachesShare(failures, total, share)
  {
    assert share * total as real <= 0.0;
  }

  /** A closed breaker opens exactly when a call finishes while its window is still in force, at least
      five outcomes have come in since that window began, this one included, and the share of failures
      among them reaches the threshold. */
  lemma TripsIff(c: Config, run: seq<Sys>, events: seq<Event>, k: nat)
    requires IsRun(c, run, events) && k < |events| && run[k].b.state.Closed? && events[k].Finish?
    ensures run[k].mark <= |run[k].records|
    ensures var recent := (run[k].records + [events[k].success])[run[k].mark..];
            run[k + 1].b.state.Open? <==>
              && StillInForce(c, run[k].b.window, events[k].clock)
              && 5 <= |recent| && ReachesShare(Tally(recent, false), |recent|, c.failureRatio)
  {
    RunStep(c, run, events, k);
    var s, e := run[k], events[k];
    if StillInForce(c, s.b.window, e.clock) {
      WindowInForceTrips(c, s, e.clock, e.success);
    } else {
      SpentWindowDoesNotTrip(c, s, e.clock, e.success);
    }
    hide IsRun, Steps, Trips, Tally, ReachesShare, AfterRecord, AfterTotal, AfterRatio, AfterTrace, StillInForce;
  }

  /** A window younger than its length keeps its outcomes; entering and cancelling never touch it. */
  lemma YoungWindowKeeps(c: Config, run: seq<Sys>, events: seq<Event>, k: nat)
    requires IsRun(c, run, events) && k < |events|
    requires events[k].Finish? ==>
               !(run[k].b.state.HalfOpen? && events[k].ok) && events[k].clock.now < run[k].b.window.start + c.window
    ensures run[k + 1].mark == run[k].mark && run[k + 1].b.window.start == run[k].b.window.start
    ensures run[k].records <= run[k + 1].records
  {
    RunStep(c, run, events, k);
    var s, e := run[k], events[k];
    if e.Finish? {
      var w := AfterRecord(c, s.b, e.clock, e.success);
      assert !Rotates(s.b.window, c.window, e.clock.record) && !Rotates(w, c.window, e.clock.total);
      assert AfterTotal(c, s.b, e.clock, e.success) == w && !Rotates(w, c.window, e.clock.ratio);
      assert AfterRatio(c, s.b, e.clock, e.success) == w;
      hide Trips, Ratio;
    }
  }

  /** One that has reached its length loses them all at the next outcome. */
  lemma OldWindowGoes(c: Config, run: seq<Sys>, events: seq<Event>, k: nat)
    requires IsRun(c, run, events) && k < |events| && events[k].Finish?
    requires run[k].b.window.start + c.window <= events[k].clock.record.check
    ensures run[k + 1].mark >= |run[k].records| && run[k + 1].b.window.start >= run[k].b.window.start + c.window
  {
    RunStep(c, run, events, k);
    InvThroughout(c, run, events, k);
    InvThroughout(c, run, events, k + 1);
    var s, e := run[k], events[k];
    FinishCounts(c, s, e.clock, e.success);
    assert AfterRecord(c, s.b, e.clock, e.success).start == e.clock.record.reset;
    assert AfterTotal(c, s.b, e.clock, e.success).start >= e.clock.record.reset;
    assert AfterRatio(c, s.b, e.clock, e.success).start >= e.clock.record.reset;
    assert AfterTrace(c, s.b, e.clock, e.success).start >= e.clock.record.reset;
    hide AfterRecord, AfterTotal, AfterRatio, AfterTrace, Trips, Ratio, Tally, TotalMark, RatioMark, TraceMark;
  }

  /** A threshold above one switches the breaker off: it never leaves the closed state. */
  lemma ImpossibleThresholdNeverTrips(c: Config, run: seq<Sys>, events: seq<Event>, k: nat)
    requires IsRun(c, run, events) && k < |run| && 1.0 < c.failureRatio
    ensures run[k].b.state.Closed?
  {
    UntrippableStaysClosed(c, run, events, k);
  }
}
