# Period folding in `OrbitDB::get_true_anomaly`

An `OrbitDB` record holds a Kepler orbit: an epoch, an orbital period, and
seven `f64` elements. `get_true_anomaly(time)` answers a query in three steps:
- It takes the elapsed time `time - epoch` (a chrono `Duration`).
- While the elapsed time exceeds the period and the period is not zero, it
  "folds" the elapsed time. It divides the two as whole nanoseconds, with
  Rust's truncating `/`, and subtracts that many periods from the elapsed
  time. It also advances the epoch of a local clone of the record by the
  same amount.
- It truncates what remains to whole seconds, converts that to `f64`, and
  hands the clone to the elliptical Kepler-solver chain when
  `eccentricity < 1`, otherwise to the hyperbolic one.

This project models that reduction and the regime choice as integer
arithmetic on nanoseconds, leap-second instants aside:
- **`Int64`:** Rust's truncating division, and the `i64` overflow conditions
  of `/` and `*`.
- **`Float64`:** IEEE `<` on `f64`, including infinities and NaN, and
  `i64 as f64` with round-to-nearest-even.
- **`Chrono`:** `Duration` and `DateTime` as nanosecond counts.
  `num_nanoseconds` returns `None` when the count does not fit in `i64`.
  `num_seconds` truncates toward zero.
- **`OrbitRecord`:** the record and its field-wise `Clone`.
- **`PeriodFold`:** the loop in three forms:
  - a step function (`Step`, iterated by `Run`) that follows the source
    statement by statement, including both `unwrap()` panics;
  - a closed-form reference (`FoldSpec`) using floor division;
  - the loop itself (`FoldElapsed`), proved to end as the reference says.

  A possibly endless loop is modelled by an outcome `Hangs`. The method
  returns it when a pass leaves the state unchanged. A lemma proves that the
  step semantics is then still running after any number of steps.
- **`FoldLaws`:** the properties of the folding.
- **`TrueAnomaly`:** the seconds conversion, the regime dispatch and the
  whole query up to the solver calls.

Results of the modelled behaviour:
- **Positive period, elapsed time above it:** when both have a nanosecond
  count, the body runs exactly once; otherwise one of the two `unwrap()`
  calls below panics first. The pass leaves an elapsed time in `[0, P)` and advances the clone's epoch by
  `k·P`, where `k ≥ 1` and `k·P` is at most the elapsed time.
- **No folding:** the elapsed time is not folded when it does not exceed the
  period. With a non-negative period that includes every past query, and
  for any period a query exactly one period after the epoch. It is also not
  folded when the period is zero.
- **Negative period that the elapsed time exceeds:** the loop never ends,
  unless one of the two `unwrap()` calls below panics first. The truncating
  quotient is zero after at most one pass.
- **Panics:** the only ones are the two `unwrap()` calls:
  - the period's nanosecond count (line 35), only evaluated once the elapsed
    time exceeds the period;
  - the elapsed time's nanosecond count (line 36), which fails beyond about
    292 years.

  The division, the product and the subtraction never overflow.
- **Epoch and clone:** the local epoch never passes the query time. The clone
  differs from the record in the epoch only.

Three consequences of how the code is written:
- **Past queries:** folding happens only under the condition
  `elapsed > period`. With a non-negative period, a query before the epoch
  is therefore passed on unreduced, however far back it lies. With a
  negative period, a past query less than one period before the epoch
  makes the loop spin.
- **Division:** the division truncates toward zero. Floor division would
  give the same result whenever the loop folds and stops, because both
  operands are then positive. It would differ only for a negative period,
  in the remainder the first pass leaves; the loop spins with either
  division.
- **Regime choice:** the test is `eccentricity < 1.0`. So `e = 1` and NaN go
  hyperbolic, and minus infinity goes elliptical.

## Model

| member | source | states |
|---|---|---|
| OrbitRecord.Clone | src/orbit_db.rs:59-73 | the field-wise copy equals the original record |
| Int64.TruncDivBounds | src/orbit_db.rs:36-37 | Rust's `/`: remainder smaller than the divisor and of the dividend's sign; the removed multiple is no larger than the dividend; the quotient is zero iff the dividend is smaller than the divisor in magnitude |
| Int64.TruncDivUnique | src/orbit_db.rs:36 | the truncating quotient is the only one whose remainder is below the divisor and has the dividend's sign |
| Int64.TruncDivNonNegative | src/orbit_db.rs:36 | on a non-negative dividend and any nonzero divisor Rust's `/` and `%` equal Euclidean division |
| Int64.TruncDiv | src/orbit_db.rs:36 | defined by its body (Rust's `/`); characterised by `TruncDivUnique` and `TruncDivBounds` |
| Int64.TruncRem | src/orbit_db.rs:37-38 | defined by its body (what the pass leaves of the elapsed time); characterised by `TruncDivBounds` |
| Int64.DivI64 | src/orbit_db.rs:36 | `i64 / i64` is defined exactly off zero and `i64::MIN / -1`, and its quotient fits `i64` |
| Int64.MulI64 | src/orbit_db.rs:37-38 | defined by its body (Rust's `i64 *`); its requires, that the product fits `i64`, is met at the loop, shown by `FoldLaws.PassArithmeticInRange` |
| Chrono.NumNanoseconds | src/orbit_db.rs:35-36 | defined by its body: `Some` exactly when the count fits `i64` |
| Chrono.Nanoseconds | src/orbit_db.rs:37-38 | defined by its body: every `i64` count is a duration |
| Chrono.Elapsed | src/orbit_db.rs:31 | defined by its body: advancing `since` by the result gives `t` |
| Chrono.Minus | src/orbit_db.rs:37 | defined by its body: adding `b` back gives `a` |
| Chrono.Advance | src/orbit_db.rs:38 | defined by its body: the instant moves by exactly the duration |
| Chrono.NumSeconds | src/orbit_db.rs:41 | whole seconds truncated toward zero: within one second of the duration, never beyond it, same sign |
| Chrono.NumSecondsInI64 | src/orbit_db.rs:41 | every duration's whole-second count fits in `i64` |
| Chrono.NumSecondsMonotone | src/orbit_db.rs:41 | whole-second counting is monotone on non-negative durations |
| Float64.Lt | src/orbit_db.rs:43 | defined by its body (IEEE `<`); characterised by `LtIsStrictOrder` |
| Float64.LtIsStrictOrder | src/orbit_db.rs:43 | IEEE `<` is irreflexive, asymmetric and transitive, and false whenever NaN is involved |
| Float64.Spacing | src/orbit_db.rs:41 | the `f64` spacing at a magnitude is a power of two, 1 below 2^53, and from 2^53 on the magnitude lies in [2^52, 2^53) spacings |
| Float64.RoundMultiplier | src/orbit_db.rs:41 | the rounded magnitude is within half a spacing; on a tie the multiplier is even; it is at most 2^53, so the result has a 53-bit significand |
| Float64.RoundIsNearest | src/orbit_db.rs:41 | no multiple of the spacing is nearer than the chosen one, and any other one as near has an odd multiplier: round to nearest, ties to even |
| Float64.FromI64 | src/orbit_db.rs:41 | `i64 as f64` is finite, has the integer's sign and the rounded magnitude, is within half a spacing of the integer, and is exact up to 2^53 |
| PeriodFold.Start | src/orbit_db.rs:31-32 | the clone equals `self`, and its epoch plus the elapsed time is the query time |
| PeriodFold.Guard | src/orbit_db.rs:35 | defined by its body: panics when the elapsed time exceeds a period that has no nanosecond count; holds exactly when the elapsed time exceeds a nonzero `i64` period; characterised by `FirstStep` |
| PeriodFold.Pass | src/orbit_db.rs:36-38 | one pass keeps clone-epoch + elapsed fixed; it moves the epoch toward the query time without passing it and changes no other field; it panics exactly when the elapsed time has no nanosecond count |
| PeriodFold.Step | src/orbit_db.rs:35-38 | exits iff the condition is false, panics iff an `unwrap()` fails, and otherwise keeps clone-epoch + elapsed and every field but the epoch |
| PeriodFold.Run | src/orbit_db.rs:35-39 | any state reached after any number of checks keeps clone-epoch + elapsed and every field but the epoch, and a finished loop stopped where the condition is false |
| PeriodFold.FoldSpec | src/orbit_db.rs:35-39 | the closed-form reference: a returned state keeps clone-epoch + elapsed = time and changes only the epoch; its elapsed time no longer exceeds the period, and lies in [0, P) after folding with P > 0; tied to the loop by `LoopMatchesFoldSpec` and `FoldElapsed` |
| PeriodFold.FirstStep | src/orbit_db.rs:35-38 | the first check exits when elapsed ≤ period or the period is 0; it panics on an unrepresentable period, then on an unrepresentable elapsed time; otherwise it makes the truncating pass |
| PeriodFold.SecondStep | src/orbit_db.rs:35-38 | after a pass, a positive period makes the condition fail; a negative one makes the next pass a no-op |
| PeriodFold.FirstPassPositive | src/orbit_db.rs:36-38 | with a positive period the truncating pass removes the floor quotient's multiple |
| PeriodFold.FoldElapsed | src/orbit_db.rs:30-39 | the loop ends exactly as the closed-form reference says; on return, clone epoch + remaining elapsed = query time, and only the epoch differs from `self` |
| FoldLaws.StuckStaysStuck | src/orbit_db.rs:35-39 | a pass that changes nothing repeats forever: the loop is still running after any number of steps |
| FoldLaws.RunReturns | src/orbit_db.rs:35-39 | a reference result is where the step semantics stops, within two condition checks |
| FoldLaws.RunPanics | src/orbit_db.rs:35-36 | a reference panic happens at the same `unwrap` within the first check and pass |
| FoldLaws.RunHangs | src/orbit_db.rs:35-39 | a reference hang means the step semantics runs forever |
| FoldLaws.LoopMatchesFoldSpec | src/orbit_db.rs:35-39 | the reference and the step semantics agree on all three outcomes |
| FoldLaws.TerminationNeedsNonNegativePeriod | src/orbit_db.rs:35-37 | with period ≥ 0 the loop stops within two checks; with a negative period that the elapsed time exceeds (and no panic) it never stops; those are exactly the hanging inputs |
| FoldLaws.NoFoldWhen | src/orbit_db.rs:35 | nothing is folded iff elapsed ≤ period (with a non-negative period every past query; and elapsed = period) or the period is 0 |
| FoldLaws.PositivePeriodFoldsOnce | src/orbit_db.rs:35-38 | P > 0 and elapsed > P: quotient ≥ 1, exactly one pass, remaining elapsed in [0, P), then the condition fails |
| FoldLaws.FoldAmountBounds | src/orbit_db.rs:36-38 | the amount moved is nothing or k·P with k ≥ 1 and P ≤ k·P ≤ elapsed; the local epoch stays within (epoch, time] |
| FoldLaws.PassArithmeticInRange | src/orbit_db.rs:36-37 | no `i64::MIN / -1`; quotient and product fit `i64`; the product is no larger than the elapsed time |
| FoldLaws.PassKeepsInvariant | src/orbit_db.rs:31-38 | every pass preserves clone-epoch + elapsed = query time and changes only the epoch |
| FoldLaws.FoldPeriodic | src/orbit_db.rs:35-38 | past the first period, a query one period later leaves the same remaining elapsed time and an epoch one period later |
| FoldLaws.FoldIdempotent | src/orbit_db.rs:31-39 | folding the reduced clone at the same time changes nothing |
| TrueAnomaly.SecondsFromEpoch | src/orbit_db.rs:41 | the seconds value is the whole-second count rounded to nearest, ties to even: finite, of the count's sign, the rounded multiple of the spacing, within half a spacing, and exact up to 2^53 |
| TrueAnomaly.Dispatch | src/orbit_db.rs:43-54 | defined by its body; characterised by `DispatchRegimes` |
| TrueAnomaly.DispatchRegimes | src/orbit_db.rs:43-54 | finite e goes elliptical iff e < 1 (so e = 1 goes hyperbolic); NaN and +inf go hyperbolic; -inf goes elliptical |
| TrueAnomaly.GetTrueAnomaly | src/orbit_db.rs:30-55 | the query hangs iff the period is negative and folding applies; it panics where the folding panics; otherwise the chain follows `self`'s eccentricity and runs on the folded clone (differing from `self` only in epoch) with the whole seconds of the folded elapsed time; for a positive `i64` period and a query at or after the epoch those seconds are exactly some k with 0 ≤ k ≤ P / 10^9 |
| TrueAnomaly.SecondsWithinPeriod | src/orbit_db.rs:41 | P > 0 and a query at or after the epoch: the seconds passed lie in [0, P / 10^9]; with an `i64` period they convert exactly |

## Left out

- `OrbitDB::get_position` and all of src/orbit_math.rs and
  src/ellipse_math.rs are not modelled: the Newton-Raphson solvers, the
  anomaly conversions, the conic radius and the frame rotation. They are
  `f64` trigonometry and iteration with no exact counterpart here. A query's
  result records which solver chain is called with which record and seconds
  value. The `Vector3` type is not part of this model.
- src/main.rs (random orbits, wall-clock timing, printing) is not modelled.
- The calendar range of chrono's `DateTime<Utc>` is not modelled:
  - Instants are unbounded nanosecond counts, so the panic of
    `orbit.epoch += …` on leaving that range is not represented. Instead
    `Pass` and `FoldAmountBounds` prove that the advanced epoch lies between
    the record's epoch and the query time, so it cannot leave any range that
    holds both.
  - That `time - self.epoch` is a representable `Duration` is taken as the
    precondition `ElapsedFits`, which chrono's range guarantees.
- Chrono.Elapsed: leap-second instants are not represented. chrono's
  `DateTime<Utc>` can hold one (a nanosecond-of-second field from 10^9 up,
  as in 23:59:60.5), and `DateTime - DateTime` special-cases it. `Instant`
  is a plain nanosecond count, so the difference is plain subtraction.
- Chrono.Advance: leap-second instants are not represented either, and
  chrono's `DateTime + TimeDelta` special-cases them. So the invariant
  clone-epoch + elapsed = query time is proved only for instants that are
  not leap seconds.
- The `Duration` bounds are taken as ±`i64::MAX` milliseconds. chrono
  releases differ on whether the lower bound is `-i64::MAX` or `i64::MIN`
  milliseconds. Nothing in the reduction depends on that one millisecond.
- Lines 37 and 38 compute `years * period_ns` twice; it is modelled once,
  since both computations are the same pure expression.
- Rust's `*` wraps in release builds and panics in debug builds on
  overflow. The model requires that no overflow occurs and proves it, so
  the two builds agree.
- `F64.Finite` carries any real: whether it is exactly representable in
  binary64 is not checked. Signed zeros are not distinguished.
- Float64.FromI64: representability is stated as "a multiplier of at most
  2^53 times a power-of-two spacing". The spacing's upper limit from the
  exponent range is not stated; no `i64` magnitude comes near it.
- FoldLaws.FoldPeriodic: proved only for queries already more than one period
  past the epoch. At exactly one period the elapsed time is not folded
  (strict `>`), so `epoch + P` yields `P / 10^9` seconds while `epoch + 2P`
  yields 0.
