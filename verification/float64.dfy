/**
  The two IEEE 754 binary64 (`f64`) operations the time reduction performs:
  the comparison `<` and the conversion `i64 as f64`.

  A value is finite, an infinity or NaN; a finite value is kept as the real
  it denotes. No arithmetic is modelled, so nothing here rounds except the
  integer conversion, which rounds to the nearest value with a 53-bit
  significand, ties to even. Signed zeros are not distinguished; they
  compare equal under `<` anyway.
 */
module Float64 {
  import opened Int64

  datatype F64 = Finite(v: real) | PosInf | NegInf | NaN

  const One: F64 := Finite(1.0)

  /** IEEE `<`: false whenever either operand is NaN; minus infinity is
      below every other number and plus infinity above. */
  predicate Lt(a: F64, b: F64) {
    match (a, b)
    case (NaN, _) => false
    case (_, NaN) => false
    case (Finite(x), Finite(y)) => x < y
    case (NegInf, NegInf) => false
    case (NegInf, _) => true
    case (_, NegInf) => false
    case (PosInf, _) => false
    case (_, PosInf) => true
  }

  /** `Lt` is a strict order on the non-NaN values and NaN is unordered. */
  lemma LtIsStrictOrder(a: F64, b: F64, c: F64)
    ensures !Lt(a, a)
    ensures Lt(a, b) ==> !Lt(b, a)
    ensures Lt(a, b) && Lt(b, c) ==> Lt(a, c)
    ensures a.NaN? || b.NaN? ==> !Lt(a, b) && !Lt(b, a)
  {
  }

  /** 2^53: every integer of at most this magnitude has an exact `f64`. */
  const TwoTo53: nat := 0x20_0000_0000_0000

  /** 1, 2, 4, 8, ...: the possible spacings of `f64` values. */
  predicate IsPowerOfTwo(u: nat)
    decreases u
  {
    u == 1 || (u >= 2 && u % 2 == 0 && IsPowerOfTwo(u / 2))
  }

  /** The gap between consecutive `f64` values near the magnitude `m`: 1 below
      2^53, doubling with every further binary digit. A magnitude from 2^53
      on lies in the binade [2^52 u, 2^53 u) of its spacing `u`, so the
      multiples of `u` in that binade have 53-bit significands. */
  function Spacing(m: nat): (u: nat)
    ensures u >= 1 && IsPowerOfTwo(u)
    ensures m < TwoTo53 ==> u == 1
    ensures m == TwoTo53 ==> u == 2
    ensures m >= TwoTo53 ==> (TwoTo53 / 2) * u <= m < TwoTo53 * u
    decreases m
  {
    if m < TwoTo53 then 1 else 2 * Spacing(m / 2)
  }

  /** The multiplier `k` such that `i64 as f64` rounds the magnitude `m` to
      `k * Spacing(m)`: the multiple nearest to `m`, on a tie the even one.
      Since `k <= 2^53`, the result has a 53-bit significand, so it is an
      `f64`. */
  function RoundMultiplier(m: nat): (k: nat)
    ensures 2 * Abs(k * Spacing(m) - m) <= Spacing(m)
    ensures 2 * Abs(k * Spacing(m) - m) == Spacing(m) ==> k % 2 == 0
    ensures k <= TwoTo53
  {
    var u := Spacing(m);
    FloorMultiple(m, u);
    var k := NearestMultiplier(m, u, m / u);
    MultiplierBound(m, u, k);
    k
  }

  /** A multiple of the spacing within half a spacing of `m` has a
      multiplier of at most 2^53. */
  lemma MultiplierBound(m: nat, u: nat, k: nat)
    requires u == Spacing(m)
    requires 2 * Abs(k * u - m) <= u
    ensures k <= TwoTo53
  {
    if k > TwoTo53 {
      MonotoneProduct(TwoTo53 + 1, k, u);
    }
  }

  /** Of the multipliers `q` and `q + 1`, whose multiples of `u` enclose
      `m`, the one whose multiple is nearer to `m`; on a tie the even one. */
  function NearestMultiplier(m: nat, u: nat, q: nat): (k: nat)
    requires u >= 1 && q * u <= m < q * u + u
    ensures k == q || k == q + 1
    ensures 2 * Abs(k * u - m) <= u
    ensures 2 * Abs(k * u - m) == u ==> k % 2 == 0
  {
    var r := m - q * u;
    SuccessorMultiple(q, u);
    if 2 * r < u then q
    else if 2 * r > u then q + 1
    else if q % 2 == 0 then q
    else q + 1
  }

  lemma SuccessorMultiple(q: int, u: int)
    ensures (q + 1) * u == q * u + u
  {
  }

  lemma MonotoneProduct(a: nat, b: nat, u: nat)
    requires a <= b
    ensures a * u <= b * u
  {
  }

  /** `(m / u) * u` is the largest multiple of `u` not above `m`. */
  lemma FloorMultiple(m: nat, u: nat)
    requires u >= 1
    ensures 0 <= (m / u) * u <= m < (m / u) * u + u
  {
  }

  /** The magnitude of a multiple of `u`. */
  lemma AbsProduct(d: int, u: nat)
    ensures Abs(d * u) == Abs(d) * u
  {
    if d < 0 {
      assert d * u == -((-d) * u);
    }
  }

  /** The rounding is to nearest, ties to even: no multiple of the spacing
      is nearer to `m` than the chosen one, and one exactly as near is the
      chosen one or has an odd multiplier. */
  lemma {:induction false} RoundIsNearest(m: nat, j: int)
    ensures var u := Spacing(m);
            var k := RoundMultiplier(m);
            && Abs(k * u - m) <= Abs(j * u - m)
            && (Abs(j * u - m) == Abs(k * u - m) && j != k ==> j % 2 == 1)
  {
    var u := Spacing(m);
    var k := RoundMultiplier(m);
    if j != k {
      Distribute(j, k, u);
      AbsProduct(j - k, u);
      MonotoneProduct(1, Abs(j - k), u);
      if Abs(j - k) >= 2 {
        MonotoneProduct(2, Abs(j - k), u);
      }
      NearestCore(k * u - m, j * u - m, (j - k) * u, u, k, j);
    }
  }

  /** The linear core of `RoundIsNearest`: `x` and `y` are the distances
      from `m` to the chosen multiple and to another, which differ by the
      multiple `dd` of the spacing. */
  lemma NearestCore(x: int, y: int, dd: int, u: nat, k: int, j: int)
    requires u >= 1 && j != k && y == x + dd
    requires 2 * Abs(x) <= u && (2 * Abs(x) == u ==> k % 2 == 0)
    requires Abs(dd) >= u && (Abs(j - k) >= 2 ==> Abs(dd) >= 2 * u)
    ensures Abs(x) <= Abs(y)
    ensures Abs(y) == Abs(x) ==> j % 2 == 1
  {
    if Abs(y) == Abs(x) {
      assert Abs(j - k) == 1;
      assert j == k + 1 || j == k - 1;
    }
  }

  /** Rust's `i64 as f64`: the magnitude is rounded to the nearest multiple
      of its spacing, ties to the even multiple, and the sign is applied
      afterwards, which is what round-to-nearest does since it is symmetric
      about zero. The result is within half a spacing of the integer, and
      is the integer itself up to 2^53. */
  function FromI64(i: int): (f: F64)
    requires InI64(i)
    ensures f.Finite?
    ensures RealAbs(f.v) == (RoundMultiplier(Abs(i)) * Spacing(Abs(i))) as real
    ensures i < 0 ==> f.v <= 0.0
    ensures i >= 0 ==> f.v >= 0.0
    ensures 2.0 * RealAbs(f.v - i as real) <= Spacing(Abs(i)) as real
    ensures Abs(i) <= TwoTo53 ==> f == Finite(i as real)
  {
    var n := RoundMultiplier(Abs(i)) * Spacing(Abs(i));
    if i < 0 then Finite(-(n as real)) else Finite(n as real)
  }

  function RealAbs(x: real): real {
    if x < 0.0 then -x else x
  }
}
