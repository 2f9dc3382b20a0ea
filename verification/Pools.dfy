/** Constant-product exchange arithmetic (exp/orderbook/pools.go, CAP-38), without rounding slippage. */
module Pools {
  import opened Common
  import opened Arithmetic
  import opened OrderBookTypes
  import PriceArithmetic

  const MAX_BIPS: int := 10000
  const TWO_256: int := TWO_64 * TWO_64 * TWO_64 * TWO_64

  /** A uint256 product, which wraps. */
  function Mul256(a: int, b: int): (r: int)
    requires 0 <= a && 0 <= b
    ensures 0 <= r < TWO_256
    ensures a * b < TWO_256 ==> r == a * b
  {
    MulNonNegative(a, b);
    (a * b) % TWO_256
  }

  function Add256(a: int, b: int): (r: int)
    requires 0 <= a && 0 <= b
    ensures 0 <= r < TWO_256
    ensures a + b < TWO_256 ==> r == a + b
  {
    (a + b) % TWO_256
  }

  predicate Reserve(x: int) {
    0 <= x <= MAX_INT64
  }

  /** How much of reserve B is paid out for `received` of reserve A; None reports overflow. */
  function CalculatePoolPayout(reserveA: int, reserveB: int, received: int, fee: int): (r: Option<int>)
    requires Reserve(reserveA) && Reserve(reserveB) && Reserve(received) && 0 <= fee <= MAX_BIPS
  {
    if received > MAX_INT64 - reserveA then None else
    var f := MAX_BIPS - fee;
    var denom := Add256(Mul256(reserveA, MAX_BIPS), Mul256(received, f));
    if denom == 0 then None else
    var numer := Mul256(Mul256(reserveB, received), f);
    var result := numer / denom;
    if result <= MAX_INT64 then Some(result) else None
  }

  /** How much of reserve A must be paid in to receive `disbursed` of reserve B; None reports overflow. */
  function CalculatePoolExpectation(reserveA: int, reserveB: int, disbursed: int, fee: int): (r: Option<int>)
    requires Reserve(reserveA) && Reserve(reserveB) && Reserve(disbursed) && 0 <= fee <= MAX_BIPS
  {
    if disbursed >= reserveB then None else
    var f := MAX_BIPS - fee;
    var denom := Mul256(reserveB - disbursed, f);
    if denom == 0 then None else
    var numer := Mul256(Mul256(reserveA, disbursed), MAX_BIPS);
    var result := if numer % denom != 0 then Add256(numer / denom, 1) else numer / denom;
    if result <= MAX_INT64 then Some(result) else None
  }

  /** 256 bits hold every intermediate product. */
  lemma ProductsFit(a: int, b: int, c: int)
    requires Reserve(a) && Reserve(b) && 0 <= c <= MAX_BIPS
    ensures 0 <= a * c <= MAX_INT64 * MAX_BIPS
    ensures 0 <= a * b <= MAX_INT64 * MAX_INT64
    ensures 0 <= a * b * c <= MAX_INT64 * MAX_INT64 * MAX_BIPS
  {
    MulMonotone(a, MAX_INT64, c);
    MulMonotone(c, MAX_BIPS, MAX_INT64);
    MulMonotone(a, MAX_INT64, b);
    MulMonotone(b, MAX_INT64, MAX_INT64);
    MulNonNegative(a, b);
    MulNonNegative(a, c);
    MulNonNegative(a * b, c);
    MulMonotone(a * b, MAX_INT64 * MAX_INT64, c);
    MulMonotone(c, MAX_BIPS, MAX_INT64 * MAX_INT64);
  }

  /** Whether paying in x is enough for a payout of y, free of any rounding. */
  ghost predicate Affords(X: int, Y: int, x: int, y: int, f: int) {
    X * y * MAX_BIPS <= x * ((Y - y) * f)
  }

  /** The payout is the greatest y that x affords. */
  lemma PayoutGreatest(X: int, Y: int, x: int, fee: int, y: int)
    requires Reserve(X) && Reserve(Y) && Reserve(x) && 0 <= fee <= MAX_BIPS
    requires CalculatePoolPayout(X, Y, x, fee).Some?
    ensures y <= CalculatePoolPayout(X, Y, x, fee).value <==> Affords(X, Y, x, y, MAX_BIPS - fee)
  {
    var f := MAX_BIPS - fee;
    PayoutUnwrapped(X, Y, x, fee);
    PriceArithmetic.FloorGreatest(Y * x * f, 1, X * MAX_BIPS + x * f, y);
    AffordsCross(X, Y, x, y, f);
  }

  /** The wrapping arithmetic computes the mathematical quotient. */
  lemma PayoutUnwrapped(X: int, Y: int, x: int, fee: int)
    requires Reserve(X) && Reserve(Y) && Reserve(x) && 0 <= fee <= MAX_BIPS
    requires CalculatePoolPayout(X, Y, x, fee).Some?
    ensures var f := MAX_BIPS - fee;
            && X * MAX_BIPS + x * f > 0
            && CalculatePoolPayout(X, Y, x, fee).value == (Y * x * f) / (X * MAX_BIPS + x * f)
  {
    ProductsFit(X, Y, MAX_BIPS);
    ProductsFit(x, Y, MAX_BIPS - fee);
    ProductsFit(Y, x, MAX_BIPS - fee);
  }

  lemma AffordsCross(X: int, Y: int, x: int, y: int, f: int)
    ensures Affords(X, Y, x, y, f) <==> y * (X * MAX_BIPS + x * f) <= Y * x * f
  {
    calc {
      x * ((Y - y) * f);
      { assert (Y - y) * f == Y * f - y * f; }
      x * (Y * f - y * f);
      x * (Y * f) - x * (y * f);
      { assert x * (Y * f) == Y * x * f; assert x * (y * f) == y * (x * f); }
      Y * x * f - y * (x * f);
    }
    assert y * (X * MAX_BIPS + x * f) == y * (X * MAX_BIPS) + y * (x * f);
    assert y * (X * MAX_BIPS) == X * y * MAX_BIPS;
  }

  /** The expectation is the least x that affords y, and it is refused exactly when no int64 x does. */
  lemma ExpectationLeast(X: int, Y: int, y: int, fee: int, x: int)
    requires Reserve(X) && 0 < y < Y <= MAX_INT64 && 0 <= fee < MAX_BIPS
    ensures var e := CalculatePoolExpectation(X, Y, y, fee);
            x <= MAX_INT64 ==> (Affords(X, Y, x, y, MAX_BIPS - fee) <==> e.Some? && e.value <= x)
  {
    var f := MAX_BIPS - fee;
    ProductsFit(X, y, MAX_BIPS);
    ProductsFit(Y - y, y, f);
    var numer, denom := X * y * MAX_BIPS, (Y - y) * f;
    MulMonotone(1, Y - y, f);
    assert denom >= 1;
    var result := if numer % denom != 0 then numer / denom + 1 else numer / denom;
    RoundedUp(numer, denom, result);
    assert numer / denom <= numer by {
      PriceArithmetic.FloorGreatest(numer, 1, denom, 0);
      QuotientAtMost(numer, denom);
    }
    PriceArithmetic.CeilLeast(numer, 1, denom, x);
  }

  lemma QuotientAtMost(a: int, b: int)
    requires a >= 0 && b >= 1
    ensures 0 <= a / b <= a
  {
    QuotientBounds(a, b);
    MulOrder(-1, a / b, b);
    MulMonotone(1, b, a / b);
  }

  /** Adding one on a remainder is the ceiling. */
  lemma RoundedUp(a: int, b: int, r: int)
    requires b > 0 && r == if a % b != 0 then a / b + 1 else a / b
    ensures r == PriceArithmetic.Ceil(a, 1, b)
  {
    QuotientUnique(a + b - 1, b, r);
  }

  /**
   * Payout and expectation form a Galois pair: x buys at least y exactly when x reaches the expectation
   * of y, and an expectation that is refused lies beyond every x that can be paid in.
   */
  lemma PoolGalois(X: int, Y: int, x: int, y: int, fee: int)
    requires Reserve(X) && Reserve(x) && 0 < y < Y <= MAX_INT64 && 0 <= fee < MAX_BIPS
    requires X + x <= MAX_INT64 && 0 < X + x
    ensures var payout := CalculatePoolPayout(X, Y, x, fee);
            var need := CalculatePoolExpectation(X, Y, y, fee);
            payout.Some? && (payout.value >= y <==> need.Some? && need.value <= x)
  {
    PayoutAccepted(X, Y, x, fee);
    PayoutGreatest(X, Y, x, fee, y);
    ExpectationLeast(X, Y, y, fee, x);
  }

  /** The payout is refused only when the deposit would overflow the reserve. */
  lemma PayoutAccepted(X: int, Y: int, x: int, fee: int)
    requires Reserve(X) && Reserve(Y) && Reserve(x) && 0 <= fee < MAX_BIPS && 0 < X + x
    ensures CalculatePoolPayout(X, Y, x, fee).Some? <==> X + x <= MAX_INT64
    ensures X + x <= MAX_INT64 ==> 0 <= CalculatePoolPayout(X, Y, x, fee).value <= Y
  {
    var f := MAX_BIPS - fee;
    ProductsFit(X, Y, MAX_BIPS);
    ProductsFit(x, Y, f);
    ProductsFit(Y, x, f);
    var numer, denom := Y * x * f, X * MAX_BIPS + x * f;
    MulMonotone(1, f, x);
    MulMonotone(1, MAX_BIPS, X);
    assert denom >= 1;
    assert numer == Y * (x * f);
    MulMonotone(0, X * MAX_BIPS, Y);
    assert Y * denom == Y * (X * MAX_BIPS) + Y * (x * f);
    PriceArithmetic.FloorGreatest(numer, 1, denom, 0);
    PriceArithmetic.FloorGreatest(numer, 1, denom, Y + 1);
    assert (Y + 1) * denom > numer;
  }

  /** An affordable trade never lowers the product of the reserves. */
  lemma AffordableKeepsProduct(X: int, Y: int, x: int, y: int, f: int)
    requires 0 <= x && y <= Y && 0 <= f <= MAX_BIPS && Affords(X, Y, x, y, f)
    ensures (X + x) * (Y - y) >= X * Y
  {
    MulMonotone(f, MAX_BIPS, Y - y);
    MulMonotone((Y - y) * f, (Y - y) * MAX_BIPS, x);
    assert x * ((Y - y) * MAX_BIPS) == (x * (Y - y)) * MAX_BIPS;
    MulOrder(X * y, x * (Y - y) + 1, MAX_BIPS);
    assert (X + x) * (Y - y) == X * Y - X * y + x * (Y - y);
  }

  /** Neither direction of a trade lets the reserve product drop. */
  lemma TradesKeepProduct(X: int, Y: int, amount: int, fee: int)
    requires Reserve(X) && Reserve(Y) && Reserve(amount) && 0 <= fee < MAX_BIPS && 0 < X && 0 < amount
    ensures var paid := CalculatePoolPayout(X, Y, amount, fee);
            paid.Some? ==> (X + amount) * (Y - paid.value) >= X * Y
    ensures var need := CalculatePoolExpectation(X, Y, amount, fee);
            need.Some? ==> (X + need.value) * (Y - amount) >= X * Y
  {
    var paid := CalculatePoolPayout(X, Y, amount, fee);
    if paid.Some? {
      PayoutAccepted(X, Y, amount, fee);
      PayoutGreatest(X, Y, amount, fee, paid.value);
      AffordableKeepsProduct(X, Y, amount, paid.value, MAX_BIPS - fee);
    }
    var need := CalculatePoolExpectation(X, Y, amount, fee);
    if need.Some? {
      ExpectationLeast(X, Y, amount, fee, need.value);
      ExpectationNonNegative(X, Y, amount, fee);
      AffordableKeepsProduct(X, Y, need.value, amount, MAX_BIPS - fee);
    }
  }

  lemma ExpectationNonNegative(X: int, Y: int, y: int, fee: int)
    requires Reserve(X) && Reserve(Y) && Reserve(y) && 0 <= fee <= MAX_BIPS
    ensures CalculatePoolExpectation(X, Y, y, fee).Some? ==> 0 <= CalculatePoolExpectation(X, Y, y, fee).value
  {
    var e := CalculatePoolExpectation(X, Y, y, fee);
    if e.Some? {
      var denom := Mul256(Y - y, MAX_BIPS - fee);
      var numer := Mul256(Mul256(X, y), MAX_BIPS);
      QuotientAtMost(numer, denom);
    }
  }

  datatype TradeType = Deposit | Expectation

  datatype TradeError = BadAmount | PoolOverflows

  /** Simulates an exchange of `asset`, one of the pool's two assets, with the pool. */
  function MakeTrade(pool: PoolVenue, asset: nat, trade: TradeType, amount: int): (r: Result<int, TradeError>)
    requires ValidPool(pool.entry) && amount <= MAX_INT64
    ensures r.Ok? ==> 0 <= r.value <= MAX_INT64
    ensures r == Err(BadAmount) <==> amount <= 0
  {
    if amount <= 0 then Err(BadAmount) else
    var X := if pool.a == asset then pool.entry.reserveA else pool.entry.reserveB;
    var Y := if pool.a == asset then pool.entry.reserveB else pool.entry.reserveA;
    PayoutAccepted(X, Y, amount, pool.entry.fee);
    ExpectationNonNegative(X, Y, amount, pool.entry.fee);
    var result := if trade.Deposit? then CalculatePoolPayout(X, Y, amount, pool.entry.fee)
                  else CalculatePoolExpectation(X, Y, amount, pool.entry.fee);
    if result.None? then Err(PoolOverflows) else Ok(result.value)
  }

  function OtherAsset(asset: nat, pool: PoolVenue): nat {
    if pool.a == asset then pool.b else pool.a
  }

  /**
   * A strict-receive hop through a pool and a strict-send hop back along it agree: depositing what the
   * expectation asks for pays out at least the amount that was wanted, and depositing less does not.
   */
  lemma HopsAgree(pool: PoolVenue, asset: nat, wanted: int, deposit: int)
    requires ValidPool(pool.entry) && (asset == pool.a || asset == pool.b) && pool.a != pool.b
    requires 0 < wanted && 0 < deposit
    requires deposit <= MAX_INT64 - (if pool.a == asset then pool.entry.reserveB else pool.entry.reserveA)
    requires wanted < if pool.a == asset then pool.entry.reserveA else pool.entry.reserveB
    ensures var source := OtherAsset(asset, pool);
            var need := MakeTrade(pool, source, Expectation, wanted);
            var paid := MakeTrade(pool, source, Deposit, deposit);
            paid.Ok? && (paid.value >= wanted <==> need.Ok? && need.value <= deposit)
  {
    var X := if pool.a == asset then pool.entry.reserveB else pool.entry.reserveA;
    var Y := if pool.a == asset then pool.entry.reserveA else pool.entry.reserveB;
    PoolGalois(X, Y, deposit, wanted, pool.entry.fee);
  }

  /** The pool's reserve of one of its two assets. */
  function ReserveOf(pool: PoolVenue, asset: nat): int {
    if asset == pool.a then pool.entry.reserveA else pool.entry.reserveB
  }

  /**
   * A deposit of an asset pays the most of the other one that it affords, and an expectation asks for
   * the least deposit that affords the amount wanted; either keeps the product of the reserves.
   */
  lemma TradeIsFair(pool: PoolVenue, asset: nat, amount: int, x: int)
    requires ValidPool(pool.entry) && (asset == pool.a || asset == pool.b) && pool.a != pool.b
    requires 0 < amount <= MAX_INT64 && x <= MAX_INT64
    ensures var own, other := ReserveOf(pool, asset), ReserveOf(pool, OtherAsset(asset, pool));
      var keep := MAX_BIPS - pool.entry.fee;
      var paid, need := MakeTrade(pool, asset, Deposit, amount), MakeTrade(pool, asset, Expectation, amount);
      && (paid.Ok? <==> own + amount <= MAX_INT64)
      && (paid.Ok? ==> (x <= paid.value <==> Affords(own, other, amount, x, keep)))
      && (paid.Ok? ==> (own + amount) * (other - paid.value) >= own * other)
      && (amount < other ==> (Affords(own, other, x, amount, keep) <==> need.Ok? && need.value <= x))
      && (need.Ok? ==> (own + need.value) * (other - amount) >= own * other)
  {
    hide CalculatePoolPayout, CalculatePoolExpectation, Affords;
    var own, other, fee := ReserveOf(pool, asset), ReserveOf(pool, OtherAsset(asset, pool)), pool.entry.fee;
    PayoutAccepted(own, other, amount, fee);
    if own + amount <= MAX_INT64 {
      PayoutGreatest(own, other, amount, fee, x);
    }
    if amount < other {
      ExpectationLeast(own, other, amount, fee, x);
    }
    TradesKeepProduct(own, other, amount, fee);
  }
}
