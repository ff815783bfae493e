/** The circuit breaker: the window counters, the locked sections of `call` (enter, finish and
    the return of a permit by a dropped probe) and the read-only `state`.  The classes are the
    code under its mutex; the functions state what each section computes; `BreakerRuns` proves
    what holds over every interleaving of calls. */
module CircuitBreaker {
  import opened Basics

  datatype State = Closed | Open | HalfOpen

  /** `failureRatio` is exact; times are in clock units. */
  datatype Config = Config(failureRatio: real, window: nat, halfOpenProbes: nat, openDuration: nat)

  const MIN_SAMPLES: nat := 5

  // ---- the sliding window -----------------------------------------------------------------

  /** Two clock readings: the one that decides on rotation and the one stored by it. */
  datatype Tick = Tick(check: nat, reset: nat)

  datatype Window = Window(successes: nat, failures: nat, start: nat)

  predicate Rotates(w: Window, length: nat, t: Tick) {
    t.check - w.start >= length
  }

  function Rotated(w: Window, length: nat, t: Tick): Window {
    if Rotates(w, length, t) then Window(0, 0, t.reset) else w
  }

  function Recorded(w: Window, length: nat, t: Tick, success: bool): Window {
    var r := Rotated(w, length, t);
    if success then r.(successes := r.successes + 1) else r.(failures := r.failures + 1)
  }

  function Total(w: Window): nat {
    w.successes + w.failures
  }

  function Ratio(w: Window): real {
    if Total(w) == 0 then 0.0 else w.failures as real / Total(w) as real
  }

  class SlidingWindow {
    var successes: nat
    var failures: nat
    var start: nat
    const length: nat

    constructor (length: nat, now: nat)
      ensures View() == Window(0, 0, now) && this.length == length
    {
      successes, failures, start := 0, 0, now;
      this.length := length;
    }

    function View(): Window
      reads this
    {
      Window(successes, failures, start)
    }

    method Rotate(t: Tick)
      modifies this
      ensures View() == Rotated(old(View()), length, t)
    {
      if t.check - start >= length {
        successes := 0;
        failures := 0;
        start := t.reset;
      }
    }

    method Record(t: Tick, success: bool)
      modifies this
      ensures View() == Recorded(old(View()), length, t, success)
    {
      Rotate(t);
      if success {
        successes := successes + 1;
      } else {
        failures := failures + 1;
      }
    }

    /** Reading the total may rotate the window. */
    method ReadTotal(t: Tick) returns (n: nat)
      modifies this
      ensures View() == Rotated(old(View()), length, t) && n == Total(View())
    {
      Rotate(t);
      n := successes + failures;
    }

    /** So may reading the ratio. */
    method ReadRatio(t: Tick) returns (r: real)
      modifies this
      ensures View() == Rotated(old(View()), length, t) && r == Ratio(View())
    {
      var total := ReadTotal(t);
      if total == 0 {
        return 0.0;
      }
      r := failures as real / total as real;
    }

    method Clear(now: nat)
      modifies this
      ensures View() == Window(0, 0, now)
    {
      successes, failures, start := 0, 0, now;
    }
  }

  // ---- the state machine ------------------------------------------------------------------

  datatype Inner = Inner(state: State, window: Window, openedAt: Option<nat>, halfOpenCount: nat, openedTotal: nat)

  datatype Admission = Plain | Probe | RejectedOpen | RejectedProbes

  predicate Admitted(a: Admission) {
    a.Plain? || a.Probe?
  }

  /** The clock readings of the section that runs after the protected call returned. */
  datatype Reads = Reads(record: Tick, total: Tick, ratio: Tick, traced: Option<Tick>, now: nat)

  function Entered(c: Config, b: Inner, now: nat): (Inner, Admission) {
    match b.state
    case Open =>
      if b.openedAt.Some? then
        if now - b.openedAt.value >= c.openDuration then (b.(state := HalfOpen, halfOpenCount := 0), Plain)
        else (b, RejectedOpen)
      else (b, Plain)
    case HalfOpen =>
      if b.halfOpenCount >= c.halfOpenProbes then (b, RejectedProbes)
      else (b.(halfOpenCount := b.halfOpenCount + 1), Probe)
    case Closed => (b, Plain)
  }

  /** The windows a closed breaker looks at: after recording, for the total, for the ratio. */
  function AfterRecord(c: Config, b: Inner, r: Reads, success: bool): Window {
    Recorded(b.window, c.window, r.record, success)
  }

  function AfterTotal(c: Config, b: Inner, r: Reads, success: bool): Window {
    Rotated(AfterRecord(c, b, r, success), c.window, r.total)
  }

  function AfterRatio(c: Config, b: Inner, r: Reads, success: bool): Window {
    Rotated(AfterTotal(c, b, r, success), c.window, r.ratio)
  }

  function AfterTrace(c: Config, b: Inner, r: Reads, success: bool): Window {
    var w := AfterRatio(c, b, r, success);
    if r.traced.Some? then Rotated(w, c.window, r.traced.value) else w
  }

  predicate Trips(c: Config, b: Inner, r: Reads, success: bool) {
    && Total(AfterTotal(c, b, r, success)) >= MIN_SAMPLES
    && Ratio(AfterRatio(c, b, r, success)) >= c.failureRatio
  }

  /** `ok` is the transport result, `success` what is recorded (the classifier may turn an `ok`
      into a failure). */
  function Finished(c: Config, b: Inner, r: Reads, ok: bool, success: bool): Inner {
    match b.state
    case Closed =>
      if Trips(c, b, r, success) then
        b.(state := Open, window := AfterTrace(c, b, r, success), openedAt := Some(r.now),
            openedTotal := b.openedTotal + 1)
      else if Total(AfterTotal(c, b, r, success)) >= MIN_SAMPLES then b.(window := AfterRatio(c, b, r, success))
      else b.(window := AfterTotal(c, b, r, success))
    case HalfOpen =>
      if ok then b.(state := Closed, openedAt := None, window := Window(0, 0, r.now))
      else
        b.(state := Open, window := AfterRecord(c, b, r, success), openedAt := Some(r.now),
            openedTotal := b.openedTotal + 1)
    case Open => b.(window := AfterRecord(c, b, r, success))
  }

  /** A dropped probe gives its permit back, never below zero. */
  function PermitReturned(b: Inner): Inner {
    b.(halfOpenCount := if b.halfOpenCount == 0 then 0 else b.halfOpenCount - 1)
  }

  /** The effective state reported to callers. */
  function Reported(c: Config, b: Inner, now: nat): State {
    if b.state.Open? && b.openedAt.Some? && now - b.openedAt.value >= c.openDuration then HalfOpen else b.state
  }

  class Breaker {
    const config: Config
    const window: SlidingWindow
    var state: State
    var openedAt: Option<nat>
    var halfOpenCount: nat
    var openedTotal: nat

    constructor (config: Config, now: nat)
      ensures Valid() && fresh(window) && this.config == config
      ensures View() == Inner(Closed, Window(0, 0, now), None, 0, 0)
    {
      this.config := config;
      window := new SlidingWindow(config.window, now);
      state := Closed;
      openedAt := None;
      halfOpenCount := 0;
      openedTotal := 0;
    }

    predicate Valid()
      reads this, window
    {
      window.length == config.window
    }

    function View(): Inner
      reads this, window
    {
      Inner(state, window.View(), openedAt, halfOpenCount, openedTotal)
    }

    /** The first locked section of `call`. */
    method Enter(now: nat) returns (a: Admission)
      requires Valid()
      modifies this
      ensures Valid() && (View(), a) == Entered(config, old(View()), now)
    {
      match state
      case Open =>
        if openedAt.Some? {
          if now - openedAt.value >= config.openDuration {
            state := HalfOpen;
            halfOpenCount := 0;
          } else {
            return RejectedOpen;
          }
        }
        return Plain;
      case HalfOpen =>
        if halfOpenCount >= config.halfOpenProbes {
          return RejectedProbes;
        }
        halfOpenCount := halfOpenCount + 1;
        return Probe;
      case Closed =>
        return Plain;
    }

    /** The second locked section of `call`. */
    method Finish(r: Reads, ok: bool, success: bool)
      requires Valid()
      modifies this, window
      ensures Valid() && View() == Finished(config, old(View()), r, ok, success)
    {
      window.Record(r.record, success);
      match state {
        case Closed =>
          var total := window.ReadTotal(r.total);
          if total >= MIN_SAMPLES {
            var ratio := window.ReadRatio(r.ratio);
            if ratio >= config.failureRatio {
              if r.traced.Some? {
                var _ := window.ReadRatio(r.traced.value);
              }
              state := Open;
              openedAt := Some(r.now);
              openedTotal := openedTotal + 1;
            }
          }
        case HalfOpen =>
          if ok {
            state := Closed;
            openedAt := None;
            window.Clear(r.now);
          } else {
            state := Open;
            openedAt := Some(r.now);
            openedTotal := openedTotal + 1;
          }
        case Open =>
      }
    }

    /** `Drop` of an armed `ProbePermit`. */
    method ReturnPermit()
      requires Valid()
      modifies this
      ensures Valid() && View() == PermitReturned(old(View()))
    {
      if halfOpenCount > 0 {
        halfOpenCount := halfOpenCount - 1;
      }
    }

    method ReadState(now: nat) returns (s: State)
      requires Valid()
      ensures s == Reported(config, View(), now)
    {
      var cooledDown := openedAt.Some? && now - openedAt.value >= config.openDuration;
      if state == Open && cooledDown {
        s := HalfOpen;
      } else {
        s := state;
      }
    }
  }
}
