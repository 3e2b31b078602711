/**
  Signed 64-bit integer arithmetic as Rust performs it on `i64`.

  Dafny's `/` and `%` are Euclidean; Rust's `/` rounds the quotient toward
  zero and its remainder takes the sign of the dividend. The two agree
  whenever the dividend is non-negative and differ for a negative dividend
  that the divisor does not divide, so the truncating quotient is written
  out here and related to the Euclidean one by lemmas.
 */
module Int64 {

  const I64Min: int := -0x8000_0000_0000_0000
  const I64Max: int := 0x7FFF_FFFF_FFFF_FFFF

  /** True iff `x` is a value of Rust's `i64`. */
  predicate InI64(x: int) {
    I64Min <= x <= I64Max
  }

  function Abs(x: int): nat {
    if x < 0 then -x else x
  }

  /** Rust's integer `/`: the quotient of the magnitudes, negated when the
      operands have opposite signs, i.e. rounded toward zero. */
  function TruncDiv(a: int, b: int): int
    requires b != 0
  {
    var m := Abs(a) / Abs(b);
    if (a < 0) == (b < 0) then m else -m
  }

  /** Rust's integer `%`: what is left of the dividend after removing
      `TruncDiv(a, b)` multiples of the divisor. */
  function TruncRem(a: int, b: int): int
    requires b != 0
  {
    a - TruncDiv(a, b) * b
  }

  /** Products of a magnitude quotient with a divisor magnitude. */
  lemma MagnitudeProduct(m: nat, d: nat)
    requires d >= 1
    ensures m * d >= m
    ensures m >= 1 ==> m * d >= d
    ensures m == 0 ==> m * d == 0
  {
  }

  /** The removed multiple `TruncDiv(a, b) * b` has the dividend's sign and
      the magnitude `(|a| / |b|) * |b|`. */
  lemma TruncProduct(a: int, b: int)
    requires b != 0
    ensures a >= 0 ==> TruncDiv(a, b) * b == (Abs(a) / Abs(b)) * Abs(b)
    ensures a < 0 ==> TruncDiv(a, b) * b == -((Abs(a) / Abs(b)) * Abs(b))
  {
  }

  /** The linear core of the quotient bounds, stated over the magnitude
      quotient `m`, the magnitude remainder `r` and the removed multiple. */
  lemma QuotientFacts(a: int, b: int, m: nat, r: int, mb: int, q: int, qb: int)
    requires b != 0
    requires Abs(a) == mb + r && 0 <= r < Abs(b)
    requires mb >= m && (m >= 1 ==> mb >= Abs(b)) && (m == 0 ==> mb == 0)
    requires Abs(q) == m && qb == (if a < 0 then -mb else mb)
    ensures Abs(a - qb) < Abs(b)
    ensures a >= 0 ==> a - qb >= 0
    ensures a <= 0 ==> a - qb <= 0
    ensures Abs(a - qb) <= Abs(a)
    ensures Abs(qb) <= Abs(a)
    ensures Abs(q) <= Abs(a)
    ensures q == 0 <==> Abs(a) < Abs(b)
    ensures q != 0 ==> Abs(a - qb) < Abs(a)
  {
  }

  /** The truncating quotient and remainder: the remainder is smaller than
      the divisor in magnitude and never has the opposite sign of the
      dividend, so the removed multiple never overshoots the dividend. */
  lemma TruncDivBounds(a: int, b: int)
    requires b != 0
    ensures Abs(TruncRem(a, b)) < Abs(b)
    ensures a >= 0 ==> TruncRem(a, b) >= 0
    ensures a <= 0 ==> TruncRem(a, b) <= 0
    ensures Abs(TruncRem(a, b)) <= Abs(a)
    ensures Abs(TruncDiv(a, b) * b) <= Abs(a)
    ensures Abs(TruncDiv(a, b)) <= Abs(a)
    ensures TruncDiv(a, b) == 0 <==> Abs(a) < Abs(b)
    ensures TruncDiv(a, b) != 0 ==> Abs(TruncRem(a, b)) < Abs(a)
  {
    var m := Abs(a) / Abs(b);
    var r := Abs(a) % Abs(b);
    MagnitudeProduct(m, Abs(b));
    TruncProduct(a, b);
    QuotientFacts(a, b, m, r, m * Abs(b), TruncDiv(a, b), TruncDiv(a, b) * b);
  }

  /** On a non-negative dividend Rust's `/` and `%` are Dafny's Euclidean
      ones, whatever the divisor's sign. */
  lemma TruncDivNonNegative(a: int, b: int)
    requires a >= 0 && b != 0
    ensures TruncDiv(a, b) == a / b
    ensures TruncRem(a, b) == a % b
  {
  }

  /** An independent description of Rust's `/`: the only quotient whose
      remainder is smaller than the divisor and carries the dividend's sign
      (or is zero). */
  lemma TruncDivUnique(a: int, b: int, q: int, r: int)
    requires b != 0
    requires a == q * b + r
    requires Abs(r) < Abs(b)
    requires r == 0 || (r < 0) == (a < 0)
    ensures q == TruncDiv(a, b)
    ensures r == TruncRem(a, b)
  {
    TruncDivBounds(a, b);
    var q0 := TruncDiv(a, b);
    var d := q - q0;
    Distribute(q, q0, b);
    RemaindersClose(a, b, r, TruncRem(a, b), d * b);
    SmallMultiple(d, b);
  }

  lemma Distribute(x: int, y: int, b: int)
    ensures (x - y) * b == x * b - y * b
  {
  }

  /** Two remainders of the same dividend, each smaller than the divisor and
      of the dividend's sign, differ by less than the divisor. */
  lemma RemaindersClose(a: int, b: int, r: int, r0: int, db: int)
    requires b != 0
    requires Abs(r) < Abs(b) && (r == 0 || (r < 0) == (a < 0))
    requires Abs(r0) < Abs(b) && (a >= 0 ==> r0 >= 0) && (a <= 0 ==> r0 <= 0)
    requires db == r0 - r
    ensures Abs(db) < Abs(b)
  {
  }

  /** The only multiple of `b` smaller than `b` in magnitude is zero. */
  lemma SmallMultiple(d: int, b: int)
    requires b != 0 && Abs(d * b) < Abs(b)
    ensures d == 0
  {
  }

  /** Rust's `i64 / i64`: it panics on a zero divisor and on the one
      quotient that leaves the type, `i64::MIN / -1`; both are excluded here,
      so a caller must show its division cannot panic. */
  function DivI64(a: int, b: int): (q: int)
    requires InI64(a) && InI64(b) && b != 0
    requires !(a == I64Min && b == -1)
    ensures InI64(q)
    ensures Abs(q) <= Abs(a)
  {
    TruncDivBounds(a, b);
    TruncDiv(a, b)
  }

  /** Rust's `i64 * i64`, which panics (debug) or wraps (release) when the
      product leaves the type; callers must show it does not. */
  function MulI64(a: int, b: int): int
    requires InI64(a) && InI64(b) && InI64(a * b)
  {
    a * b
  }
}
