/** The breaker under concurrent, cancellable calls.  A run is any sequence of entries, finishes
    and cancellations on a monotone clock; `Sys` adds the bookkeeping the theorems speak about. */
module BreakerRuns {
  import opened Basics
  import opened CircuitBreaker

  /** A call in flight; a probe carries the half-open period that admitted it. */
  datatype Call = PlainCall | ProbeCall(period: nat)

  datatype Event =
    | Enter(id: nat, at: nat)
    | Finish(id: nat, clock: Reads, ok: bool, success: bool)
    | Cancel(id: nat)

  /** `records` are all outcomes ever recorded and `times` their instants; `mark` and `closeMark` are
      how many there were when the window was last reset and when the breaker last closed.  `excess`
      counts, in the present half-open period, the permits that were freed without a probe of this
      period giving one back, less the probes of this period that found none left to give back. */
  datatype Sys = Sys(
    b: Inner, now: nat, calls: map<nat, Call>, openings: seq<nat>, periods: nat, excess: int,
    records: seq<bool>, times: seq<nat>, mark: nat, closeMark: nat)

  function Init(now: nat): Sys {
    Sys(Inner(Closed, Window(0, 0, now), None, 0, 0), now, map[], [], 0, 0, [], [], 0, 0)
  }

  predicate InOrder(now: nat, r: Reads) {
    && now <= r.record.check <= r.record.reset <= r.total.check <= r.total.reset
    && r.total.reset <= r.ratio.check <= r.ratio.reset
    && (r.traced.Some? ==> r.ratio.reset <= r.traced.value.check <= r.traced.value.reset <= r.now)
    && r.ratio.reset <= r.now
  }

  predicate Allowed(s: Sys, e: Event) {
    match e
    case Enter(id, at) => id !in s.calls && s.now <= at
    case Finish(id, clock, ok, success) => id in s.calls && InOrder(s.now, clock) && (success ==> ok)
    case Cancel(id) => id in s.calls
  }

  function Without(calls: map<nat, Call>, id: nat): map<nat, Call> {
    map i | i in calls && i != id :: calls[i]
  }

  /** Where the window begins after a possible rotation. */
  function MarkAfter(mark: nat, recorded: nat, w: Window, length: nat, t: Tick): nat {
    if Rotates(w, length, t) then recorded else mark
  }

  function RecordMark(c: Config, s: Sys, r: Reads): nat {
    MarkAfter(s.mark, |s.records|, s.b.window, c.window, r.record)
  }

  function TotalMark(c: Config, s: Sys, r: Reads, success: bool): nat {
    MarkAfter(RecordMark(c, s, r), |s.records| + 1, AfterRecord(c, s.b, r, success), c.window, r.total)
  }

  function RatioMark(c: Config, s: Sys, r: Reads, success: bool): nat {
    MarkAfter(TotalMark(c, s, r, success), |s.records| + 1, AfterTotal(c, s.b, r, success), c.window, r.ratio)
  }

  function TraceMark(c: Config, s: Sys, r: Reads, success: bool): nat {
    if r.traced.Some? then
      MarkAfter(RatioMark(c, s, r, success), |s.records| + 1, AfterRatio(c, s.b, r, success), c.window, r.traced.value)
    else RatioMark(c, s, r, success)
  }

  /** When the outcome of a finishing call enters the window. */
  function RecordedAt(c: Config, b: Inner, r: Reads): nat {
    if Rotates(b.window, c.window, r.record) then r.record.reset else r.record.check
  }

  function ApplyEnter(c: Config, s: Sys, id: nat, at: nat): Sys {
    var (b, a) := Entered(c, s.b, at);
    var migrates := s.b.state.Open? && b.state.HalfOpen?;
    var periods := if migrates then s.periods + 1 else s.periods;
    var calls := if a.Probe? then s.calls[id := ProbeCall(periods)]
                 else if a.Plain? then s.calls[id := PlainCall] else s.calls;
    s.(b := b, now := at, calls := calls, periods := periods, excess := if migrates then 0 else s.excess)
  }

  function ApplyFinish(c: Config, s: Sys, id: nat, r: Reads, ok: bool, success: bool): Sys {
    var b := Finished(c, s.b, r, ok, success);
    var closes := s.b.state.HalfOpen? && ok;
    var records := s.records + [success];
    var mark :=
      match s.b.state
      case Closed =>
        if Trips(c, s.b, r, success) then TraceMark(c, s, r, success)
        else if Total(AfterTotal(c, s.b, r, success)) >= MIN_SAMPLES then RatioMark(c, s, r, success)
        else TotalMark(c, s, r, success)
      case HalfOpen => if ok then |records| else RecordMark(c, s, r)
      case Open => RecordMark(c, s, r);
    s.(b := b, now := r.now, calls := Without(s.calls, id),
       openings := if b.openedTotal > s.b.openedTotal then s.openings + [r.now] else s.openings,
       records := records, times := s.times + [RecordedAt(c, s.b, r)], mark := mark,
           closeMark := if closes then |records| else s.closeMark)
  }

  /** A permit of an earlier period frees a place, if one is taken; one of this period may find that
      its place was freed already. */
  function ExcessAfter(s: Sys, period: nat): int {
    if period != s.periods && s.b.halfOpenCount > 0 then s.excess + 1
    else if period == s.periods && s.b.halfOpenCount == 0 then s.excess - 1
    else s.excess
  }

  function ApplyCancel(s: Sys, id: nat): Sys
    requires id in s.calls
  {
    match s.calls[id]
    case PlainCall => s.(calls := Without(s.calls, id))
    case ProbeCall(period) =>
      s.(b := PermitReturned(s.b), calls := Without(s.calls, id), excess := ExcessAfter(s, period))
  }

  function Apply(c: Config, s: Sys, e: Event): Sys
    requires Allowed(s, e)
  {
    match e
    case Enter(id, at) => ApplyEnter(c, s, id, at)
    case Finish(id, clock, ok, success) => ApplyFinish(c, s, id, clock, ok, success)
    case Cancel(id) => ApplyCancel(s, id)
  }

  /** `run[k + 1]` is what event `k` makes of `run[k]`. */
  ghost predicate Steps(c: Config, run: seq<Sys>, events: seq<Event>) {
    && |run| == |events| + 1
    && forall k | 0 <= k < |events| :: Allowed(run[k], events[k]) && run[k + 1] == Apply(c, run[k], events[k])
  }

  ghost predicate IsRun(c: Config, run: seq<Sys>, events: seq<Event>) {
    Steps(c, run, events) && run[0] == Init(run[0].now)
  }

  // ---- the invariant ----------------------------------------------------------------------

  /** The probes in flight that the present half-open period admitted. */
  function Outstanding(s: Sys): set<nat> {
    set id | id in s.calls && s.calls[id] == ProbeCall(s.periods)
  }

  function Tally(records: seq<bool>, outcome: bool): nat {
    if records == [] then 0
    else Tally(records[..|records| - 1], outcome) + if records[|records| - 1] == outcome then 1 else 0
  }

  ghost predicate Accounted(c: Config, s: Sys) {
    && (s.b.openedAt.None? <==> s.b.state.Closed?)
    && s.b.openedTotal == |s.openings|
    && s.b.openedTotal == s.periods + (if s.b.state.Open? then 1 else 0)
    && (s.b.openedAt.Some? ==> s.openings != [] && s.b.openedAt.value == s.openings[|s.openings| - 1])
  }

  ghost predicate Spaced(c: Config, s: Sys) {
    && (forall i | 0 < i < |s.openings| :: s.openings[i - 1] + c.openDuration <= s.openings[i])
    && (s.openings != [] ==> s.openings[|s.openings| - 1] <= s.now)
    && (s.openings != [] && !s.b.state.Open? ==> s.openings[|s.openings| - 1] + c.openDuration <= s.now)
  }

  ghost predicate ProbesCounted(c: Config, s: Sys) {
    && (forall id | id in s.calls && s.calls[id].ProbeCall? :: s.calls[id].period <= s.periods)
    && (s.b.state.HalfOpen? ==>
          && |Outstanding(s)| == s.b.halfOpenCount + s.excess
          && 0 <= s.excess
          && s.b.halfOpenCount <= c.halfOpenProbes)
  }

  ghost predicate WindowCounts(w: Window, records: seq<bool>, mark: nat) {
    && mark <= |records|
    && w.successes == Tally(records[mark..], true)
    && w.failures == Tally(records[mark..], false)
  }

  ghost predicate WindowAgrees(s: Sys) {
    && WindowCounts(s.b.window, s.records, s.mark)
    && s.closeMark <= |s.records|
    && (s.b.state.Closed? ==> s.closeMark <= s.mark)
  }

  /** The outcomes after the mark came in while the present window was in force. */
  ghost predicate Timed(w: Window, times: seq<nat>, mark: nat, now: nat) {
    w.start <= now && forall i | mark <= i < |times| :: w.start <= times[i] <= now
  }

  ghost predicate SysInv(c: Config, s: Sys) {
    && Accounted(c, s) && Spaced(c, s) && ProbesCounted(c, s) && WindowAgrees(s)
    && |s.times| == |s.records| && Timed(s.b.window, s.times, s.mark, s.now)
  }

  // ---- every event keeps it ---------------------------------------------------------------

  lemma EventKeepsAccounts(c: Config, s: Sys, e: Event)
    requires SysInv(c, s) && Allowed(s, e)
    ensures Accounted(c, Apply(c, s, e)) && Spaced(c, Apply(c, s, e))
  {
    hide Outstanding, Tally, AfterRecord, AfterTotal, AfterRatio, AfterTrace;
  }

  lemma OutstandingWithout(s: Sys, id: nat)
    requires id in s.calls
    ensures Outstanding(s.(calls := Without(s.calls, id))) == Outstanding(s) - {id}
  {
  }

  lemma EnterKeepsProbes(c: Config, s: Sys, id: nat, at: nat)
    requires SysInv(c, s) && Allowed(s, Enter(id, at))
    ensures ProbesCounted(c, ApplyEnter(c, s, id, at))
  {
    var s' := ApplyEnter(c, s, id, at);
    var (b, a) := Entered(c, s.b, at);
    if a.Probe? {
      assert Outstanding(s') == Outstanding(s) + {id};
    } else if s.b.state.Open? && b.state.HalfOpen? {
      assert Outstanding(s') == {};
    } else {
      assert Outstanding(s') == Outstanding(s);
    }
  }

  lemma CancelKeepsProbes(c: Config, s: Sys, id: nat)
    requires SysInv(c, s) && Allowed(s, Cancel(id))
    ensures ProbesCounted(c, ApplyCancel(s, id))
  {
    var s' := ApplyCancel(s, id);
    OutstandingWithout(s, id);
    assert Outstanding(s') == Outstanding(s) - {id};
  }

  lemma EventKeepsProbes(c: Config, s: Sys, e: Event)
    requires SysInv(c, s) && Allowed(s, e)
    ensures ProbesCounted(c, Apply(c, s, e))
  {
    match e
    case Enter(id, at) => EnterKeepsProbes(c, s, id, at);
    case Finish(id, clock, ok, success) =>
    case Cancel(id) => CancelKeepsProbes(c, s, id);
  }

  lemma RotationKeepsCounts(w: Window, records: seq<bool>, mark: nat, length: nat, t: Tick)
    requires WindowCounts(w, records, mark)
    ensures WindowCounts(Rotated(w, length, t), records, MarkAfter(mark, |records|, w, length, t))
  {
    assert records[|records|..] == [];
  }

  lemma RecordKeepsCounts(w: Window, records: seq<bool>, mark: nat, length: nat, t: Tick, success: bool)
    requires WindowCounts(w, records, mark)
    ensures WindowCounts(Recorded(w, length, t, success), records + [success], MarkAfter(mark, |records|, w, length, t))
  {
    RotationKeepsCounts(w, records, mark, length, t);
    var m := MarkAfter(mark, |records|, w, length, t);
    assert (records + [success])[m..] == records[m..] + [success];
    assert (records[m..] + [success])[..|records[m..]|] == records[m..];
  }

  /** The counters at each of the window reads of `Finish` count the outcomes after the mark. */
  lemma FinishCounts(c: Config, s: Sys, r: Reads, success: bool)
    requires WindowAgrees(s)
    ensures WindowCounts(AfterRecord(c, s.b, r, success), s.records + [success], RecordMark(c, s, r))
    ensures WindowCounts(AfterTotal(c, s.b, r, success), s.records + [success], TotalMark(c, s, r, success))
    ensures WindowCounts(AfterRatio(c, s.b, r, success), s.records + [success], RatioMark(c, s, r, success))
    ensures WindowCounts(AfterTrace(c, s.b, r, success), s.records + [success], TraceMark(c, s, r, success))
    ensures s.mark <= RecordMark(c, s, r) <= TotalMark(c, s, r, success) <= RatioMark(c, s, r,
              success) <= TraceMark(c, s, r, success)
  {
    var records := s.records + [success];
    RecordKeepsCounts(s.b.window, s.records, s.mark, c.window, r.record, success);
    RotationKeepsCounts(AfterRecord(c, s.b, r, success), records, RecordMark(c, s, r), c.window, r.total);
    RotationKeepsCounts(AfterTotal(c, s.b, r, success), records, TotalMark(c, s, r, success), c.window, r.ratio);
    if r.traced.Some? {
      RotationKeepsCounts(AfterRatio(c, s.b, r, success), records, RatioMark(c, s, r, success), c.window,
          r.traced.value);
    }
  }

  lemma EventKeepsWindow(c: Config, s: Sys, e: Event)
    requires SysInv(c, s) && Allowed(s, e)
    ensures WindowAgrees(Apply(c, s, e))
  {
    if e.Finish? {
      FinishCounts(c, s, e.clock, e.success);
      hide AfterRecord, AfterTotal, AfterRatio, AfterTrace, RecordMark, TotalMark, RatioMark, TraceMark, Tally, Ratio;
      var s' := Apply(c, s, e);
      assert s'.records[|s'.records|..] == [];
      if s.b.state.HalfOpen? && e.ok {
        EmptyWindowCounts(e.clock.now, s'.records);
      }
    }
  }

  lemma RotationKeepsTimes(w: Window, times: seq<nat>, mark: nat, now: nat, length: nat, t: Tick)
    requires Timed(w, times, mark, now) && now <= t.check <= t.reset
    ensures Timed(Rotated(w, length, t), times, MarkAfter(mark, |times|, w, length, t), t.reset)
  {
  }

  lemma RecordKeepsTimes(c: Config, s: Sys, r: Reads, success: bool)
    requires Timed(s.b.window, s.times, s.mark, s.now) && |s.times| == |s.records| && InOrder(s.now, r)
    ensures Timed(AfterRecord(c, s.b, r, success), s.times + [RecordedAt(c, s.b, r)], RecordMark(c, s, r),
              r.record.reset)
  {
  }

  lemma FinishKeepsTimes(c: Config, s: Sys, r: Reads, success: bool)
    requires Timed(s.b.window, s.times, s.mark, s.now) && |s.times| == |s.records| && InOrder(s.now, r)
    ensures var times := s.times + [RecordedAt(c, s.b, r)];
            && Timed(AfterRecord(c, s.b, r, success), times, RecordMark(c, s, r), r.now)
            && Timed(AfterTotal(c, s.b, r, success), times, TotalMark(c, s, r, success), r.now)
            && Timed(AfterRatio(c, s.b, r, success), times, RatioMark(c, s, r, success), r.now)
            && Timed(AfterTrace(c, s.b, r, success), times, TraceMark(c, s, r, success), r.now)
  {
    hide AfterRecord, RecordMark, RecordedAt, Rotated, MarkAfter;
    var times := s.times + [RecordedAt(c, s.b, r)];
    RecordKeepsTimes(c, s, r, success);
    RotationKeepsTimes(AfterRecord(c, s.b, r, success), times, RecordMark(c, s, r), r.record.reset, c.window, r.total);
    RotationKeepsTimes(AfterTotal(c, s.b, r, success), times, TotalMark(c, s, r, success), r.total.reset, c.window,
        r.ratio);
    if r.traced.Some? {
      var w, mark := AfterRatio(c, s.b, r, success), RatioMark(c, s, r, success);
      RotationKeepsTimes(w, times, mark, r.ratio.reset, c.window, r.traced.value);
    }
  }

  lemma EventKeepsTimes(c: Config, s: Sys, e: Event)
    requires SysInv(c, s) && Allowed(s, e)
    ensures var s' := Apply(c, s, e);
            |s'.times| == |s'.records| && Timed(s'.b.window, s'.times, s'.mark, s'.now)
  {
    if e.Finish? {
      FinishKeepsTimes(c, s, e.clock, e.success);
      hide AfterRecord, AfterTotal, AfterRatio, AfterTrace, RecordMark, TotalMark, RatioMark, TraceMark, Ratio,
          RecordedAt, Trips;
    }
  }

  lemma EmptyWindowCounts(now: nat, records: seq<bool>)
    ensures WindowCounts(Window(0, 0, now), records, |records|)
  {
    assert records[|records|..] == [];
  }

  lemma EventKeepsInv(c: Config, s: Sys, e: Event)
    requires SysInv(c, s) && Allowed(s, e)
    ensures SysInv(c, Apply(c, s, e))
  {
    EventKeepsAccounts(c, s, e);
    EventKeepsProbes(c, s, e);
    EventKeepsWindow(c, s, e);
    EventKeepsTimes(c, s, e);
  }

  lemma {:induction false} InvThroughout(c: Config, run: seq<Sys>, events: seq<Event>, k: nat)
    requires IsRun(c, run, events) && k < |run|
    ensures SysInv(c, run[k])
  {
    if k > 0 {
      InvThroughout(c, run, events, k - 1);
      EventKeepsInv(c, run[k - 1], events[k - 1]);
    }
  }
}
