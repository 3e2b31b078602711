/**
  The time reduction ("period folding") at the start of
  `OrbitDB::get_true_anomaly`.

  The elapsed time since the epoch is reduced by whole orbital periods, and
  a local clone of the orbit has its epoch advanced by the same amount, while
  the elapsed time exceeds the period and the period is not zero. The loop is
  given here three ways:
  - as a step function (`Step`, iterated by `Run`) that follows the source
    statement by statement, panics included;
  - as a closed-form reference (`FoldSpec`) that says how the loop ends:
    with a reduced state, with a panic, or never;
  - as the loop itself (`FoldElapsed`), proved to end as `FoldSpec` says.
 */
module PeriodFold {
  import opened Int64
  import opened Chrono
  import opened OrbitRecord

  /** The two `unwrap()` calls that can panic. */
  datatype PanicSite =
    | PeriodUnwrap   // the period's nanosecond count, in the loop condition
    | ElapsedUnwrap  // the elapsed time's nanosecond count, in the loop body

  datatype Result<T> = Ok(value: T) | Err(site: PanicSite)

  /** How a computation ends: with a value, with a panic, or not at all. */
  datatype Exec<T> = Returns(value: T) | Panics(site: PanicSite) | Hangs

  /** The loop's variables: `time_since_epoch` and the local clone `orbit`. */
  datatype LoopState = LoopState(elapsed: Duration, orbit: OrbitDb)

  datatype StepResult = Exit | Fault(site: PanicSite) | Next(state: LoopState)

  datatype RunResult = Finished(state: LoopState) | Aborted(site: PanicSite) | Running(state: LoopState)

  /** `time - self.epoch` is a representable duration. chrono guarantees
      this for any two `DateTime<Utc>` values. */
  predicate ElapsedFits(self: OrbitDb, time: Instant) {
    -MaxDurationNs <= time.ns - self.epoch.ns <= MaxDurationNs
  }

  /** The state before the loop: the elapsed time and a clone of the orbit. */
  function Start(self: OrbitDb, time: Instant): (s: LoopState)
    requires ElapsedFits(self, time)
    ensures s.orbit == self
    ensures s.orbit.epoch.ns + s.elapsed.ns == time.ns
  {
    LoopState(Elapsed(time, self.epoch), Clone(self))
  }

  /** The loop condition: `elapsed > period && period_ns.unwrap() != 0`,
      evaluated left to right, so the unwrap happens (and may panic) only
      when the elapsed time exceeds the period. */
  function Guard(s: LoopState): (r: Result<bool>)
    ensures r.Err? <==> s.elapsed.ns > s.orbit.orbitalPeriod.ns && !InI64(s.orbit.orbitalPeriod.ns)
    ensures r.Err? ==> r.site == PeriodUnwrap
    ensures r == Ok(true) <==> s.elapsed.ns > s.orbit.orbitalPeriod.ns && InI64(s.orbit.orbitalPeriod.ns) && s.orbit.orbitalPeriod.ns != 0
  {
    if s.elapsed.ns <= s.orbit.orbitalPeriod.ns then Ok(false)
    else
      match NumNanoseconds(s.orbit.orbitalPeriod)
      case None => Err(PeriodUnwrap)
      case Some(p) => Ok(p != 0)
  }

  /** `x` lies between `lo` and `hi`, in either order. */
  predicate Between(lo: int, x: int, hi: int) {
    (lo <= x <= hi) || (hi <= x <= lo)
  }

  /** One pass of the loop body: `years = elapsed_ns / period_ns` with Rust's
      truncating division, then `years * period_ns` nanoseconds are taken
      off the elapsed time and added to the clone's epoch. The pass keeps
      the clone's epoch plus the elapsed time fixed (both are the query
      time), moves the epoch toward the query time without passing it, and
      touches no other field; it panics exactly when the elapsed time has no
      nanosecond count. The division, the product and the subtraction never
      overflow: that is what the calls' preconditions demand. */
  function Pass(s: LoopState): (r: Result<LoopState>)
    requires Guard(s) == Ok(true)
    ensures r.Err? <==> !InI64(s.elapsed.ns)
    ensures r.Err? ==> r.site == ElapsedUnwrap
    ensures r.Ok? ==> SameElements(s.orbit, r.value.orbit)
    ensures r.Ok? ==> r.value.orbit.epoch.ns + r.value.elapsed.ns == s.orbit.epoch.ns + s.elapsed.ns
    ensures r.Ok? ==> Between(s.orbit.epoch.ns, r.value.orbit.epoch.ns, s.orbit.epoch.ns + s.elapsed.ns)
  {
    match NumNanoseconds(s.elapsed)
    case None => Err(ElapsedUnwrap)
    case Some(elapsedNs) =>
      var periodNs := NumNanoseconds(s.orbit.orbitalPeriod).value;
      var years := DivI64(elapsedNs, periodNs);
      TruncDivBounds(elapsedNs, periodNs);
      var removed := Nanoseconds(MulI64(years, periodNs));
      Ok(LoopState(Minus(s.elapsed, removed), s.orbit.(epoch := Advance(s.orbit.epoch, removed))))
  }

  /** One evaluation of the loop condition and, when it holds, of the body:
      it exits exactly when the condition is false, panics at one of the
      two `unwrap()` calls, or else makes a pass that keeps the clone's
      epoch plus the elapsed time and every other field of the clone. */
  function Step(s: LoopState): (r: StepResult)
    ensures r == Exit <==> Guard(s) == Ok(false)
    ensures r.Fault? <==> Guard(s).Err? || (Guard(s) == Ok(true) && !InI64(s.elapsed.ns))
    ensures r.Next? ==> r.state.orbit.epoch.ns + r.state.elapsed.ns == s.orbit.epoch.ns + s.elapsed.ns
    ensures r.Next? ==> SameElements(s.orbit, r.state.orbit)
  {
    match Guard(s)
    case Err(site) => Fault(site)
    case Ok(holds) =>
      if !holds then Exit
      else
        match Pass(s)
        case Err(site) => Fault(site)
        case Ok(t) => Next(t)
  }

  /** The loop after at most `n` evaluations of its condition. Whatever
      state it stops or pauses in has the clone's epoch plus the elapsed time
      of `s` and differs from `s`'s clone in the epoch only; it has stopped
      exactly where the condition is false. */
  function Run(s: LoopState, n: nat): (r: RunResult)
    ensures !r.Aborted? ==> r.state.orbit.epoch.ns + r.state.elapsed.ns == s.orbit.epoch.ns + s.elapsed.ns
    ensures !r.Aborted? ==> SameElements(s.orbit, r.state.orbit)
    ensures r.Finished? ==> Guard(r.state) == Ok(false)
    decreases n
  {
    if n == 0 then Running(s)
    else
      match Step(s)
      case Exit => Finished(s)
      case Fault(site) => Aborted(site)
      case Next(t) => Run(t, n - 1)
  }

  /** The start state with `amount` nanoseconds moved from the elapsed time
      to the clone's epoch. */
  function Shifted(self: OrbitDb, time: Instant, amount: int): LoopState
    requires -MaxDurationNs <= time.ns - self.epoch.ns - amount <= MaxDurationNs
  {
    LoopState(Duration(time.ns - self.epoch.ns - amount), self.(epoch := Instant(self.epoch.ns + amount)))
  }

  /** Reference definition of how the loop ends, by cases on the elapsed
      time `dt` and the period `p`:
      - no pass when `dt <= p` (with `p >= 0` every past query, and
        `dt == p` itself) or `p == 0`;
      - a panic when the period, or else the elapsed time, has no
        nanosecond count;
      - never, for a negative period below the elapsed time;
      - otherwise the remainder of `dt` modulo `p` (floor division), with
        the clone's epoch advanced by the `dt / p` whole periods removed. */
  function FoldSpec(self: OrbitDb, time: Instant): (r: Exec<LoopState>)
    requires ElapsedFits(self, time)
    ensures r.Returns? ==> r.value.orbit.epoch.ns + r.value.elapsed.ns == time.ns
    ensures r.Returns? ==> SameElements(self, r.value.orbit)
    ensures r.Returns? ==> r.value.elapsed.ns <= self.orbitalPeriod.ns || self.orbitalPeriod.ns == 0
    ensures r.Returns? && self.orbitalPeriod.ns > 0 && time.ns - self.epoch.ns > self.orbitalPeriod.ns ==>
              0 <= r.value.elapsed.ns < self.orbitalPeriod.ns
  {
    var dt := time.ns - self.epoch.ns;
    var p := self.orbitalPeriod.ns;
    if dt <= p || p == 0 then Returns(Start(self, time))
    else if !InI64(p) then Panics(PeriodUnwrap)
    else if !InI64(dt) then Panics(ElapsedUnwrap)
    else if p < 0 then Hangs
    else Returns(Shifted(self, time, (dt / p) * p))
  }

  /** The conditions under which the loop body runs (without panicking) at
      least once. */
  predicate Folds(self: OrbitDb, time: Instant) {
    var dt := time.ns - self.epoch.ns;
    var p := self.orbitalPeriod.ns;
    dt > p && p != 0 && InI64(p) && InI64(dt)
  }

  /** The state after the first pass. */
  function FirstPass(self: OrbitDb, time: Instant): LoopState
    requires ElapsedFits(self, time) && Folds(self, time)
  {
    var dt := time.ns - self.epoch.ns;
    var p := self.orbitalPeriod.ns;
    TruncDivBounds(dt, p);
    Shifted(self, time, TruncDiv(dt, p) * p)
  }

  /** What the first evaluation of the loop condition and body does. */
  lemma FirstStep(self: OrbitDb, time: Instant)
    requires ElapsedFits(self, time)
    ensures var dt := time.ns - self.epoch.ns;
            var p := self.orbitalPeriod.ns;
            && ((dt <= p || p == 0) ==> Step(Start(self, time)) == Exit)
            && (dt > p && !InI64(p) ==> Step(Start(self, time)) == Fault(PeriodUnwrap))
            && (dt > p && p != 0 && InI64(p) && !InI64(dt) ==> Step(Start(self, time)) == Fault(ElapsedUnwrap))
            && (Folds(self, time) ==> Step(Start(self, time)) == Next(FirstPass(self, time)))
  {
  }

  /** What the second evaluation does after a first pass that moved
      something: with a positive period the remainder no longer exceeds it
      and the loop exits; with a negative one the remainder still exceeds it
      but is smaller in magnitude, so the next quotient is zero and the pass
      changes nothing. */
  lemma SecondStep(self: OrbitDb, time: Instant)
    requires ElapsedFits(self, time) && Folds(self, time)
    ensures var p := self.orbitalPeriod.ns;
            && (p > 0 ==> Step(FirstPass(self, time)) == Exit)
            && (p < 0 ==> Step(FirstPass(self, time)) == Next(FirstPass(self, time)))
  {
    var dt := time.ns - self.epoch.ns;
    var p := self.orbitalPeriod.ns;
    TruncDivBounds(dt, p);
    var s1 := FirstPass(self, time);
    assert s1.elapsed.ns == TruncRem(dt, p);
    if p < 0 {
      var r := TruncRem(dt, p);
      TruncDivBounds(r, p);
      assert r > p;
      assert TruncDiv(r, p) == 0;
      assert Guard(s1) == Ok(true);
    }
  }

  /** With a positive period, truncating and floor division agree, so the
      first pass reaches the reference state. */
  lemma FirstPassPositive(self: OrbitDb, time: Instant)
    requires ElapsedFits(self, time) && Folds(self, time) && self.orbitalPeriod.ns > 0
    ensures var dt := time.ns - self.epoch.ns;
            var p := self.orbitalPeriod.ns;
            FirstPass(self, time) == Shifted(self, time, (dt / p) * p)
  {
  }

  /** The loop of `get_true_anomaly`, run on the clone. It stops with
      `Hangs` exactly when a pass leaves the state unchanged: the condition
      held and will hold again, so the source loops forever there.
      Ensures: it ends as `FoldSpec` says; when it returns, the clone's epoch
      plus the remaining elapsed time is the query time and the clone
      differs from `self` in the epoch only. */
  method FoldElapsed(self: OrbitDb, time: Instant) returns (out: Exec<LoopState>)
    requires ElapsedFits(self, time)
    ensures out == FoldSpec(self, time)
    ensures out.Returns? ==> out.value.orbit.epoch.ns + out.value.elapsed.ns == time.ns
    ensures out.Returns? ==> SameElements(self, out.value.orbit)
  {
    var s := Start(self, time);
    FirstStep(self, time);
    if Folds(self, time) {
      SecondStep(self, time);
      if self.orbitalPeriod.ns > 0 {
        FirstPassPositive(self, time);
      }
    }
    while true
      invariant s.orbit.epoch.ns + s.elapsed.ns == time.ns && SameElements(self, s.orbit)
      invariant s == Start(self, time) || (Folds(self, time) && s == FirstPass(self, time) && s != Start(self, time))
      decreases Abs(s.elapsed.ns)
    {
      match Step(s)
      case Exit =>
        return Returns(s);
      case Fault(site) =>
        return Panics(site);
      case Next(t) =>
        if t == s {
          return Hangs;
        }
        TruncDivBounds(time.ns - self.epoch.ns, self.orbitalPeriod.ns);
        s := t;
    }
  }
}
