/**
  Properties of the period folding in `OrbitDB::get_true_anomaly`, stated
  over the step semantics (`Run`) and the reference definition (`FoldSpec`).
 */
module FoldLaws {
  import opened Int64
  import opened Chrono
  import opened OrbitRecord
  import opened PeriodFold

  /** A pass that leaves the state unchanged repeats forever: the loop never
      stops, however many times its condition is evaluated. */
  lemma {:induction false} StuckStaysStuck(s: LoopState, n: nat)
    requires Step(s) == Next(s)
    ensures Run(s, n) == Running(s)
    decreases n
  {
    if n > 0 {
      StuckStaysStuck(s, n - 1);
    }
  }

  /** When the reference returns a state, the loop stops there by the
      second evaluation of its condition. */
  lemma RunReturns(self: OrbitDb, time: Instant)
    requires ElapsedFits(self, time) && FoldSpec(self, time).Returns?
    ensures Run(Start(self, time), 2) == Finished(FoldSpec(self, time).value)
  {
  }

  /** When the reference panics, the first evaluation of the condition or
      the first pass panics at the same site. */
  lemma RunPanics(self: OrbitDb, time: Instant)
    requires ElapsedFits(self, time) && FoldSpec(self, time).Panics?
    ensures Run(Start(self, time), 1) == Aborted(FoldSpec(self, time).site)
  {
  }

  /** When the reference hangs, the loop is still running after any number
      of evaluations of its condition. */
  lemma RunHangs(self: OrbitDb, time: Instant, n: nat)
    requires ElapsedFits(self, time) && FoldSpec(self, time).Hangs?
    ensures Run(Start(self, time), n).Running?
  {
    FirstStep(self, time);
    SecondStep(self, time);
    if n > 0 {
      StuckStaysStuck(FirstPass(self, time), n - 1);
    }
  }

  /** The loop ends as the reference says: a returned state is where the
      loop stops after at most two evaluations of its condition, a panic
      happens in the first one, and when the reference says the loop hangs,
      it is still running after any number of evaluations. */
  lemma LoopMatchesFoldSpec(self: OrbitDb, time: Instant)
    requires ElapsedFits(self, time)
    ensures FoldSpec(self, time).Returns? ==> Run(Start(self, time), 2) == Finished(FoldSpec(self, time).value)
    ensures FoldSpec(self, time).Panics? ==> Run(Start(self, time), 1) == Aborted(FoldSpec(self, time).site)
    ensures FoldSpec(self, time).Hangs? ==> forall n: nat :: Run(Start(self, time), n).Running?
  {
    match FoldSpec(self, time)
    case Returns(_) => RunReturns(self, time);
    case Panics(_) => RunPanics(self, time);
    case Hangs =>
      forall n: nat
        ensures Run(Start(self, time), n).Running?
      {
        RunHangs(self, time, n);
      }
  }

  /** Termination depends on the sign of the period: with a non-negative one
      the loop stops (normally or by panicking) by the second evaluation of
      its condition; with a negative one that the elapsed time exceeds, and
      no panic, it never stops. */
  lemma TerminationNeedsNonNegativePeriod(self: OrbitDb, time: Instant)
    requires ElapsedFits(self, time)
    ensures self.orbitalPeriod.ns >= 0 ==> !Run(Start(self, time), 2).Running?
    ensures self.orbitalPeriod.ns < 0 && Folds(self, time) ==> forall n: nat :: Run(Start(self, time), n).Running?
    ensures FoldSpec(self, time).Hangs? <==> self.orbitalPeriod.ns < 0 && Folds(self, time)
  {
    LoopMatchesFoldSpec(self, time);
  }

  /** The folding leaves the elapsed time and the clone untouched exactly
      when the elapsed time does not exceed the period (with a non-negative
      period every past query, and the query exactly one period after the
      epoch) or the period is zero. */
  lemma NoFoldWhen(self: OrbitDb, time: Instant)
    requires ElapsedFits(self, time)
    ensures var dt := time.ns - self.epoch.ns;
            var p := self.orbitalPeriod.ns;
            (dt <= p || p == 0) <==> FoldSpec(self, time) == Returns(Start(self, time))
  {
  }

  /** With a positive period that the elapsed time exceeds, the body runs
      exactly once: the quotient is at least one, and the pass leaves an
      elapsed time in [0, P), after which the condition fails. */
  lemma PositivePeriodFoldsOnce(self: OrbitDb, time: Instant)
    requires ElapsedFits(self, time)
    requires self.orbitalPeriod.ns > 0
    requires time.ns - self.epoch.ns > self.orbitalPeriod.ns
    requires InI64(time.ns - self.epoch.ns)
    ensures Folds(self, time)
    ensures (time.ns - self.epoch.ns) / self.orbitalPeriod.ns >= 1
    ensures Step(Start(self, time)) == Next(FirstPass(self, time))
    ensures 0 <= FirstPass(self, time).elapsed.ns < self.orbitalPeriod.ns
    ensures Step(FirstPass(self, time)) == Exit
    ensures FoldSpec(self, time) == Returns(FirstPass(self, time))
  {
  }

  /** The amount moved from the elapsed time to the clone's epoch is `k * P`
      with `k >= 1` and `k * P` no more than the elapsed time, or nothing;
      so the local epoch never passes the query time, and the remaining
      elapsed time is what was not moved. */
  lemma FoldAmountBounds(self: OrbitDb, time: Instant)
    requires ElapsedFits(self, time)
    requires FoldSpec(self, time).Returns?
    ensures var s := FoldSpec(self, time).value;
            var moved := s.orbit.epoch.ns - self.epoch.ns;
            var dt := time.ns - self.epoch.ns;
            var p := self.orbitalPeriod.ns;
            && s.elapsed.ns == dt - moved
            && (moved == 0 || (p > 0 && dt / p >= 1 && moved == (dt / p) * p && p <= moved <= dt))
            && (moved != 0 ==> self.epoch.ns < s.orbit.epoch.ns <= time.ns)
  {
    var dt := time.ns - self.epoch.ns;
    var p := self.orbitalPeriod.ns;
    if dt > p && p > 0 {
      TruncDivNonNegative(dt, p);
      TruncDivBounds(dt, p);
      MagnitudeProduct(dt / p, p);
    }
  }

  /** The arithmetic of one pass stays inside `i64`: the division is never
      `i64::MIN / -1`, and the product `years * period_ns` is no larger
      than the elapsed time in magnitude (for a positive period, between
      zero and the elapsed time). */
  lemma PassArithmeticInRange(s: LoopState)
    requires Guard(s) == Ok(true)
    requires InI64(s.elapsed.ns)
    ensures var dt := s.elapsed.ns;
            var p := s.orbit.orbitalPeriod.ns;
            && InI64(p) && p != 0
            && !(dt == I64Min && p == -1)
            && InI64(TruncDiv(dt, p))
            && InI64(TruncDiv(dt, p) * p)
            && Abs(TruncDiv(dt, p) * p) <= Abs(dt)
            && (p > 0 ==> 0 <= TruncDiv(dt, p) * p <= dt)
  {
    var dt := s.elapsed.ns;
    var p := s.orbit.orbitalPeriod.ns;
    TruncDivBounds(dt, p);
    if p > 0 {
      TruncDivNonNegative(dt, p);
      MagnitudeProduct(dt / p, p);
    }
  }

  /** Every pass keeps the loop invariant: the clone's epoch plus the
      remaining elapsed time is the query time, and only the epoch of the
      clone changes. */
  lemma PassKeepsInvariant(s: LoopState, time: Instant)
    requires s.orbit.epoch.ns + s.elapsed.ns == time.ns
    requires Step(s).Next?
    ensures Step(s).state.orbit.epoch.ns + Step(s).state.elapsed.ns == time.ns
    ensures SameElements(s.orbit, Step(s).state.orbit)
    ensures Between(s.orbit.epoch.ns, Step(s).state.orbit.epoch.ns, time.ns)
  {
  }

  /** Moving the query one period later, once it is past the first period,
      leaves the remaining elapsed time as it was and moves the local epoch
      one period later. */
  lemma FoldPeriodic(self: OrbitDb, time: Instant)
    requires ElapsedFits(self, time)
    requires self.orbitalPeriod.ns > 0
    requires time.ns - self.epoch.ns > self.orbitalPeriod.ns
    requires InI64(time.ns - self.epoch.ns + self.orbitalPeriod.ns)
    ensures var later := Instant(time.ns + self.orbitalPeriod.ns);
            && ElapsedFits(self, later)
            && FoldSpec(self, later).Returns? && FoldSpec(self, time).Returns?
            && FoldSpec(self, later).value.elapsed == FoldSpec(self, time).value.elapsed
            && FoldSpec(self, later).value.orbit.epoch.ns == FoldSpec(self, time).value.orbit.epoch.ns + self.orbitalPeriod.ns
  {
    var dt := time.ns - self.epoch.ns;
    var p := self.orbitalPeriod.ns;
    var k := dt / p;
    var r := dt % p;
    assert dt == k * p + r;
    assert dt + p == (k + 1) * p + r;
    TruncDivUnique(dt + p, p, k + 1, r);
    TruncDivNonNegative(dt + p, p);
    assert (dt + p) / p == k + 1;
    assert (dt + p) % p == r;
  }

  /** Folding is idempotent: folding the reduced clone at the same query time
      changes nothing more. */
  lemma FoldIdempotent(self: OrbitDb, time: Instant)
    requires ElapsedFits(self, time)
    requires FoldSpec(self, time).Returns?
    ensures var s := FoldSpec(self, time).value;
            ElapsedFits(s.orbit, time) && FoldSpec(s.orbit, time) == Returns(s)
  {
  }
}
