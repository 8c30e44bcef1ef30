/**
  The token-emission constants the test harness fixes: the length of a year in
  seconds, the initial emission rate, and the first year's supply, which is the
  rate scaled to 18 decimals and rounded down to a multiple of `YEAR`, i.e.
  `YEAR` times the floored per-second rate.
 */
module Emission {
  import opened PyBuiltins

  const YEAR: nat := 365 * 86400
  const INITIAL_RATE: nat := 274_815_283
  const INITIAL_SUPPLY: nat := 1_303_030_303

  /** `x // unit * unit` on non-negative integers: `x` rounded down to a multiple of `unit`. */
  function RoundDown(x: nat, unit: nat): (r: nat)
    requires unit > 0
    ensures r % unit == 0
    ensures r <= x
    ensures x - r < unit
  {
    RemainderGap(x, unit);
    x / unit * unit
  }

  /** `x // unit * unit` is `x` less its remainder, and is itself a multiple of `unit`. */
  lemma RemainderGap(x: nat, unit: nat)
    requires unit > 0
    ensures x / unit * unit == x - x % unit
    ensures (x / unit * unit) % unit == 0
  {
    var d := x / unit * unit;
    var k := x / unit - d / unit;
    assert unit * k == d % unit;
    SmallMultiple(unit, k);
  }

  /** The only multiple of `unit` strictly between `-unit` and `unit` is zero. */
  lemma SmallMultiple(unit: nat, k: int)
    requires unit > 0 && -(unit as int) < unit * k < unit
    ensures k == 0
  {
  }

  /** Any multiple of `unit` in `(x - unit, x]` is `RoundDown(x, unit)`: the rounding is unique. */
  lemma RoundDownUnique(x: nat, unit: nat, r: nat)
    requires unit > 0
    requires r % unit == 0 && r <= x && x - r < unit
    ensures r == RoundDown(x, unit)
  {
    var d := RoundDown(x, unit);
    var k := r / unit - d / unit;
    assert r - d == unit * k;
    SmallMultiple(unit, k);
  }

  /** The scaled rate, `INITIAL_RATE * 10 ** 18`. */
  function ScaledRate(): (r: nat)
    ensures r == INITIAL_RATE * 1_000_000_000_000_000_000
  {
    PowTen18();
    INITIAL_RATE * Pow(10, 18)
  }

  lemma PowTen18()
    ensures Pow(10, 18) == 1_000_000_000_000_000_000
  {
    assert Pow(10, 9) == 1_000_000_000;
    PowAdd(10, 9, 9);
  }

  /**
    `YEAR_1_SUPPLY = INITIAL_RATE * 10 ** 18 // YEAR * YEAR`: a multiple of
    `YEAR`, i.e. `YEAR` times the floored per-second rate, never above the
    scaled rate and short of it by less than one `YEAR`.
   */
  function Year1Supply(): (r: nat)
    ensures r % YEAR == 0
    ensures r <= ScaledRate()
    ensures ScaledRate() - r < YEAR
  {
    RoundDown(ScaledRate(), YEAR)
  }

  /** A year is 31 536 000 seconds. */
  lemma YearSeconds()
    ensures YEAR == 31_536_000
  {
  }

  /** The value the harness computes. */
  lemma Year1SupplyValue()
    ensures Year1Supply() == 274_815_282_999_999_999_982_320_000
    ensures ScaledRate() - Year1Supply() == 17_680_000
  {
  }
}
