/** Decimals scaled by 10^8 into 64-bit integers, and back.  Decimals are reals here.
    (crates/shared/src/cache.rs, crates/gateway/src/worker.rs) */
module FixedPoint {
  import opened Types
  import opened Text

  const SCALE := 100_000_000

  function Truncate(r: real): int { if r >= 0.0 then r.Floor else -((-r).Floor) }

  /** Truncates toward zero; out of range is zero. */
  function ToI64(d: real): int {
    var scaled := Truncate(d * SCALE as real);
    if InI64(scaled) then scaled else 0
  }

  function ToDecimal(i: int): real { i as real / SCALE as real }

  function Hundredmillionths(i: int): real { i as real / 100_000_000.0 }

  /** A multiple of 10^-8 in the 64-bit range. */
  ghost predicate OnGrid(d: real) {
    exists i :: -9_223_372_036_854_775_808 <= i <= 9_223_372_036_854_775_807 && d == Hundredmillionths(i)
  }

  lemma Unscale(i: int)
    ensures ToDecimal(i) * SCALE as real == i as real
  {
  }

  lemma ScaledRoundTrip(i: int)
    requires InI64(i)
    ensures ToI64(ToDecimal(i)) == i
  {
    Unscale(i);
    assert Truncate(i as real) == i;
  }

  lemma ScaledInUnits(i: int)
    ensures ToDecimal(i) == Hundredmillionths(i)
  {
    assert SCALE as real == 100_000_000.0;
  }

  /** A decimal survives scaling exactly if it is on the grid. */
  lemma DecimalRoundTrip(d: real)
    ensures ToDecimal(ToI64(d)) == d <==> OnGrid(d)
  {
    if OnGrid(d) {
      var i :| InI64(i) && d == Hundredmillionths(i);
      ScaledInUnits(i);
      ScaledRoundTrip(i);
    }
    ScaledInUnits(ToI64(d));
    assert InI64(ToI64(d));
  }

  lemma TruncateMonotone(a: real, b: real)
    requires a <= b
    ensures Truncate(a) <= Truncate(b)
  {
  }

  predicate InRange(d: real) { InI64(Truncate(d * SCALE as real)) }

  /** Scaling is monotone in range, so an order within a price limit is within the scaled bound:
      the price-bounded load misses none. */
  lemma ScaledBound(bid: real, ask: real)
    requires InRange(bid) && InRange(ask) && bid >= ask
    ensures ToI64(bid) >= ToI64(ask) && -ToI64(bid) <= -ToI64(ask)
  {
    assert ask * SCALE as real <= bid * SCALE as real;
    TruncateMonotone(ask * SCALE as real, bid * SCALE as real);
  }

  /** A limit off the grid is truncated on its way to the bound.  A stored price within the limit is
      within the bound all the same, on either side. */
  lemma TruncatedBound(limit: real, stored: int)
    requires InRange(limit) && InI64(stored)
    ensures ToDecimal(stored) <= limit ==> stored <= ToI64(limit)
    ensures ToDecimal(stored) >= limit ==> -stored <= -ToI64(limit)
  {
    Unscale(stored);
    assert Truncate(stored as real) == stored;
    if ToDecimal(stored) <= limit {
      ScaledBound(limit, ToDecimal(stored));
    }
    if ToDecimal(stored) >= limit {
      ScaledBound(ToDecimal(stored), limit);
    }
  }

  /** Truncation never locks more than the amount, and less than 10^-8 less. */
  lemma LocksAtMost(d: real)
    requires d >= 0.0 && InRange(d)
    ensures ToDecimal(ToI64(d)) <= d < ToDecimal(ToI64(d) + 1)
  {
    var i := ToI64(d);
    assert i == (d * SCALE as real).Floor;
    assert i as real <= d * SCALE as real < i as real + 1.0;
    Unscale(i);
    Unscale(i + 1);
    assert (i + 1) as real == i as real + 1.0;
  }

  /** A negative decimal is truncated upwards, toward zero. */
  lemma TruncatesTowardZero(d: real)
    requires d <= 0.0 && InRange(d)
    ensures Hundredmillionths(ToI64(d) - 1) < d <= Hundredmillionths(ToI64(d)) <= 0.0
  {
    var i := ToI64(d);
    assert i == -((-(d * SCALE as real)).Floor) && SCALE as real == 100_000_000.0;
    assert (i - 1) as real == i as real - 1.0;
    assert i as real - 1.0 < d * SCALE as real <= i as real;
  }

  /** A decimal beyond 2^63 hundred-millionths reads as zero. */
  lemma TooLargeIsZero(d: real)
    requires d >= 92_233_720_368.54775808 || d <= -92_233_720_368.54775809
    ensures ToI64(d) == 0
  {
    assert SCALE as real == 100_000_000.0;
    if d > 0.0 {
      assert d * SCALE as real >= 9_223_372_036_854_775_808.0;
    } else {
      assert d * SCALE as real <= -9_223_372_036_854_775_809.0;
    }
  }

  function Times(n: int, step: real): real { n as real * step }

  /** `d` is a whole number of steps. */
  ghost predicate MultipleOf(d: real, step: real) { exists n :: Times(n, step) == d }

  lemma TimesTimes(m: int, n: int, step: real)
    ensures Times(m, Times(n, step)) == Times(m * n, step)
  {
    assert (m * n) as real == m as real * n as real;
    assert m as real * (n as real * step) == (m as real * n as real) * step;
  }

  lemma TimesProduct(m: int, n: int, a: real, b: real)
    ensures Times(m, a) * Times(n, b) == Times(m, Times(n, a * b))
  {
    var x, y := m as real, n as real;
    assert (x * a) * (y * b) == x * (a * (y * b));
    assert a * (y * b) == y * (a * b);
  }

  lemma UnitsOnGrid(units: int)
    ensures Times(units, ToDecimal(1)) == ToDecimal(units)
  {
  }

  /** The limits that a pair sets on its orders. */
  datatype PairConfig = PairConfig(active: bool, tick: real, lot: real, minSize: real, maxSize: real)

  /** An order passes: quantity in whole lots and within the sizes, a price in whole ticks. */
  ghost predicate Validates(cfg: PairConfig, price: Option<real>, quantity: real) {
    && cfg.active
    && MultipleOf(quantity, cfg.lot) && cfg.minSize <= quantity <= cfg.maxSize
    && (price.Some? && cfg.tick > 0.0 ==> MultipleOf(price.value, cfg.tick))
  }

  function Product(price: real, quantity: real): real { price * quantity }

  /** A buy locks price times quantity, a sell the quantity. */
  function LockAmount(side: Side, price: real, quantity: real): real {
    if side.Buy? then Product(price, quantity) else quantity
  }

  predicate LocksExactly(amount: real) { ToDecimal(ToI64(amount)) == amount }

  lemma ProductOfSteps(m: int, n: int, u: int, tick: real, lot: real)
    requires Times(u, ToDecimal(1)) == Product(tick, lot)
    ensures Product(Times(m, tick), Times(n, lot)) == Times(m * (n * u), ToDecimal(1))
  {
    TimesProduct(m, n, tick, lot);
    TimesTimes(n, u, ToDecimal(1));
    TimesTimes(m, n * u, ToDecimal(1));
  }

  lemma ProductExact(price: real, quantity: real, tick: real, lot: real)
    requires MultipleOf(price, tick) && MultipleOf(quantity, lot) && MultipleOf(Product(tick, lot), ToDecimal(1))
    requires InRange(Product(price, quantity))
    ensures LocksExactly(Product(price, quantity))
  {
    var m :| Times(m, tick) == price;
    var n :| Times(n, lot) == quantity;
    var u :| Times(u, ToDecimal(1)) == Product(tick, lot);
    ProductOfSteps(m, n, u, tick, lot);
    WholeUnitsExact(Product(price, quantity), m * (n * u));
  }

  lemma QuantityExact(quantity: real, lot: real)
    requires MultipleOf(quantity, lot) && MultipleOf(lot, ToDecimal(1)) && InRange(quantity)
    ensures LocksExactly(quantity)
  {
    var n :| Times(n, lot) == quantity;
    var u :| Times(u, ToDecimal(1)) == lot;
    TimesTimes(n, u, ToDecimal(1));
    WholeUnitsExact(quantity, n * u);
  }

  /** The lock amount of every validated limit order is exact: of a buy if tick times lot is on the
      grid, of a sell if the lot is. */
  lemma LockAmountExact(cfg: PairConfig, side: Side, price: real, quantity: real)
    requires Validates(cfg, Some(price), quantity) && cfg.tick > 0.0
    requires MultipleOf(LockAmount(side, cfg.tick, cfg.lot), ToDecimal(1))
    requires InRange(LockAmount(side, price, quantity))
    ensures var amount := if side.Buy? then price * quantity else quantity;
      LockAmount(side, price, quantity) == amount && ToDecimal(ToI64(amount)) == amount
  {
    if side.Buy? {
      ProductExact(price, quantity, cfg.tick, cfg.lot);
    } else {
      QuantityExact(quantity, cfg.lot);
    }
  }

  /** An amount is locked exactly if and only if it is on the grid. */
  lemma LocksExactlyOnGrid(amount: real)
    ensures LocksExactly(amount) <==> OnGrid(amount)
  {
    DecimalRoundTrip(amount);
  }

  lemma WholeUnitsExact(d: real, units: int)
    requires d == Times(units, ToDecimal(1)) && InRange(d)
    ensures LocksExactly(d)
  {
    UnitsOnGrid(units);
    ScaledInUnits(units);
    UnitsInRange(units);
    assert d == Hundredmillionths(units);
    LocksExactlyOnGrid(d);
  }

  lemma UnitsInRange(units: int)
    requires InRange(ToDecimal(units))
    ensures InI64(units)
  {
    Unscale(units);
    assert Truncate(units as real) == units;
  }

  /** Tick times lot on the grid is not enough for a sell: with a tick of 100 and a lot of 10^-9 a sell
      of one lot locks nothing. */
  lemma SellLockInexact()
    ensures var cfg := PairConfig(true, 100.0, 0.000000001, 0.0, 1.0);
      && MultipleOf(Product(cfg.tick, cfg.lot), ToDecimal(1))
      && Validates(cfg, Some(100.0), cfg.lot)
      && ToI64(LockAmount(Sell, 100.0, cfg.lot)) == 0 && !LocksExactly(LockAmount(Sell, 100.0, cfg.lot))
  {
    var tick, lot := 100.0, 0.000000001;
    assert Times(10, ToDecimal(1)) == Product(tick, lot);
    assert Times(1, lot) == lot && Times(1, tick) == tick;
    assert lot * SCALE as real == 0.1;
    assert Truncate(0.1) == 0;
  }
}
