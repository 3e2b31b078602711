/**
  The orbit record `OrbitDB`: an epoch, the orbital period as a duration and
  seven `f64` elements. Records are values; a query never changes the one it
  is asked of.
 */
module OrbitRecord {
  import opened Chrono
  import opened Float64

  datatype OrbitDb = OrbitDb(
    epoch: Instant,
    orbitalPeriod: Duration,
    eccentricity: F64,
    meanAnomalyAtEpoch: F64,
    meanMotion: F64,
    semiMajorAxis: F64,
    longitudeOfAscendingNode: F64,
    argumentOfPeriapsis: F64,
    inclination: F64)

  /** The field-wise `Clone`: a copy that agrees with the original in every
      field, so it is the same value. */
  function Clone(o: OrbitDb): (c: OrbitDb)
    ensures c == o
  {
    OrbitDb(
      o.epoch,
      o.orbitalPeriod,
      o.eccentricity,
      o.meanAnomalyAtEpoch,
      o.meanMotion,
      o.semiMajorAxis,
      o.longitudeOfAscendingNode,
      o.argumentOfPeriapsis,
      o.inclination)
  }

  /** `b` is `a` with at most its epoch moved: the other eight fields agree. */
  predicate SameElements(a: OrbitDb, b: OrbitDb) {
    b == a.(epoch := b.epoch)
  }
}
