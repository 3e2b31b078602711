/**
  `OrbitDB::get_true_anomaly` after the time reduction: the remaining elapsed
  time is truncated to whole seconds and converted to `f64`. Then the orbit
  is handed to one of two Kepler-solver chains, chosen by `eccentricity < 1`.

  The solvers are Newton-Raphson iterations on `f64` with trigonometric and
  hyperbolic functions. They are not modelled: a query's result records
  which chain is called, on which orbit record, with which seconds value.
 */
module TrueAnomaly {
  import opened Int64
  import opened Float64
  import opened Chrono
  import opened OrbitRecord
  import opened PeriodFold

  /** The solver chain a query ends in, with its inputs.
      Elliptical: the mean anomaly from the clone's mean anomaly at epoch,
      mean motion and `seconds`; then the eccentric anomaly solved on the
      clone; then the true anomaly from the clone's eccentricity.
      Hyperbolic: the hyperbolic mean anomaly from the clone's mean motion
      and `seconds`; then the hyperbolic anomaly solved on the clone; then
      the true anomaly from the clone's eccentricity. */
  datatype SolverChain =
    | Elliptical(solverOrbit: OrbitDb, seconds: F64)
    | Hyperbolic(solverOrbit: OrbitDb, seconds: F64)

  /** `num_seconds() as f64`: whole seconds truncated toward zero, then
      converted to the nearest `f64`, ties to even. The result's magnitude is
      the multiple of the spacing `RoundMultiplier` picks, its sign is the
      count's, it is within half a spacing of the whole-second count, and it
      is exact for counts up to 2^53. */
  function SecondsFromEpoch(d: Duration): (f: F64)
    ensures f.Finite?
    ensures RealAbs(f.v) == (RoundMultiplier(Abs(NumSeconds(d))) * Spacing(Abs(NumSeconds(d)))) as real
    ensures NumSeconds(d) < 0 ==> f.v <= 0.0
    ensures NumSeconds(d) >= 0 ==> f.v >= 0.0
    ensures 2.0 * RealAbs(f.v - NumSeconds(d) as real) <= Spacing(Abs(NumSeconds(d))) as real
    ensures Abs(NumSeconds(d)) <= TwoTo53 ==> f == Finite(NumSeconds(d) as real)
  {
    NumSecondsInI64(d);
    FromI64(NumSeconds(d))
  }

  /** The regime choice: `eccentricity < 1` under IEEE comparison selects the
      elliptical chain, anything else the hyperbolic one. Both chains get the
      same orbit and the same seconds. */
  function Dispatch(orbit: OrbitDb, seconds: F64): (c: SolverChain)
    ensures c.solverOrbit == orbit && c.seconds == seconds
    ensures c.Elliptical? <==> Lt(orbit.eccentricity, One)
  {
    if Lt(orbit.eccentricity, One) then Elliptical(orbit, seconds) else Hyperbolic(orbit, seconds)
  }

  /** What the regime choice does with each kind of eccentricity: a finite
      one goes elliptical exactly when it is below 1, so exactly 1 (the
      parabola) goes hyperbolic; NaN and plus infinity go hyperbolic, minus
      infinity elliptical. */
  lemma DispatchRegimes(orbit: OrbitDb, seconds: F64)
    ensures orbit.eccentricity.Finite? ==> (Dispatch(orbit, seconds).Elliptical? <==> orbit.eccentricity.v < 1.0)
    ensures orbit.eccentricity == One ==> Dispatch(orbit, seconds).Hyperbolic?
    ensures orbit.eccentricity.NaN? || orbit.eccentricity.PosInf? ==> Dispatch(orbit, seconds).Hyperbolic?
    ensures orbit.eccentricity.NegInf? ==> Dispatch(orbit, seconds).Elliptical?
  {
  }

  /** `get_true_anomaly(time)` up to the solver calls. It returns the chain
      called, or panics where the time reduction panics, or never returns
      where the time reduction spins. The chain is chosen by the
      eccentricity of `self`. It runs on the folded clone, which differs
      from `self` in the epoch only, and is given the whole seconds of the
      folded elapsed time, from the clone's epoch to the query time. With a
      positive `i64` period and a query at or after the epoch, those are
      between 0 and P / 10^9 and convert to `f64` exactly. */
  method GetTrueAnomaly(self: OrbitDb, time: Instant) returns (r: Exec<SolverChain>)
    requires ElapsedFits(self, time)
    ensures r.Hangs? <==> self.orbitalPeriod.ns < 0 && Folds(self, time)
    ensures r.Panics? <==> FoldSpec(self, time).Panics?
    ensures r.Panics? ==> r.site == FoldSpec(self, time).site
    ensures r.Returns? ==> SameElements(self, r.value.solverOrbit)
    ensures r.Returns? ==> (r.value.Elliptical? <==> Lt(self.eccentricity, One))
    ensures r.Returns? ==>
              && -MaxDurationNs <= time.ns - r.value.solverOrbit.epoch.ns <= MaxDurationNs
              && r.value.seconds == SecondsFromEpoch(Elapsed(time, r.value.solverOrbit.epoch))
    ensures r.Returns? ==>
              && FoldSpec(self, time).Returns?
              && r.value.solverOrbit == FoldSpec(self, time).value.orbit
              && r.value.seconds == SecondsFromEpoch(FoldSpec(self, time).value.elapsed)
    ensures r.Returns? && self.orbitalPeriod.ns > 0 && InI64(self.orbitalPeriod.ns) && time.ns >= self.epoch.ns ==>
              var k := NumSeconds(FoldSpec(self, time).value.elapsed);
              && 0 <= k <= self.orbitalPeriod.ns / NanosPerSecond
              && r.value.seconds == Finite(k as real)
  {
    var folded := FoldElapsed(self, time);
    match folded
    case Hangs =>
      r := Hangs;
    case Panics(site) =>
      r := Panics(site);
    case Returns(s) =>
      if self.orbitalPeriod.ns > 0 && time.ns >= self.epoch.ns {
        SecondsWithinPeriod(self, time);
      }
      var seconds := SecondsFromEpoch(s.elapsed);
      r := Returns(Dispatch(s.orbit, seconds));
  }

  /** With a positive period and a query at or after the epoch, whenever the
      query returns, the seconds handed to the solvers lie in
      [0, P / 10^9], whole seconds; when the period has a nanosecond count,
      as it must for a fold to happen, the `f64` conversion is exact. */
  lemma SecondsWithinPeriod(self: OrbitDb, time: Instant)
    requires ElapsedFits(self, time)
    requires self.orbitalPeriod.ns > 0
    requires time.ns >= self.epoch.ns
    requires FoldSpec(self, time).Returns?
    ensures var s := FoldSpec(self, time).value;
            && 0 <= NumSeconds(s.elapsed) <= self.orbitalPeriod.ns / NanosPerSecond
            && (InI64(self.orbitalPeriod.ns) ==> SecondsFromEpoch(s.elapsed) == Finite(NumSeconds(s.elapsed) as real))
  {
    var s := FoldSpec(self, time).value;
    var dt := time.ns - self.epoch.ns;
    var p := self.orbitalPeriod.ns;
    if dt > p && InI64(dt) {
      MagnitudeProduct(dt / p, p);
    }
    assert 0 <= s.elapsed.ns <= p;
    NumSecondsMonotone(s.elapsed, self.orbitalPeriod);
  }
}
