/** The 128-bit rounding arithmetic of price/main.go. */
module PriceArithmetic {
  import opened Common
  import opened Arithmetic

  datatype ArithmeticError = DivisionByZero | Overflow

  type Amount = Result<int, ArithmeticError>

  /** 128-bit product split in two words, as math/bits.Mul64 does. */
  function Mul64(x: int, y: int): (r: (int, int))
    requires 0 <= x < TWO_64 && 0 <= y < TWO_64
    ensures r.0 * TWO_64 + r.1 == x * y
    ensures 0 <= r.0 < TWO_64 && 0 <= r.1 < TWO_64
  {
    ProductBelow(x, y);
    ((x * y) / TWO_64, (x * y) % TWO_64)
  }

  lemma ProductBelow(x: int, y: int)
    requires 0 <= x < TWO_64 && 0 <= y < TWO_64
    ensures 0 <= x * y <= (TWO_64 - 1) * (TWO_64 - 1)
  {
    var top := TWO_64 - 1;
    ProductsOrdered(x, y, top);
  }

  lemma ProductsOrdered(x: int, y: int, top: int)
    requires 0 <= x <= top && 0 <= y <= top
    ensures 0 <= x * y <= top * top
  {
    MulNonNegative(x, y);
    MulMonotone(x, top, y);
    MulMonotone(y, top, top);
  }

  /** 64-bit sum and carry, as math/bits.Add64 does. */
  function Add64(x: int, y: int): (r: (int, int))
    requires 0 <= x < TWO_64 && 0 <= y < TWO_64
    ensures r.0 + r.1 * TWO_64 == x + y
    ensures 0 <= r.0 < TWO_64 && 0 <= r.1 <= 1
  {
    ((x + y) % TWO_64, (x + y) / TWO_64)
  }

  /** 128-by-64 quotient; math/bits.Div64 panics unless hi < y. */
  function Div64(hi: int, lo: int, y: int): (q: int)
    requires 0 <= hi < y < TWO_64 && 0 <= lo < TWO_64
    ensures q * y <= hi * TWO_64 + lo < (q + 1) * y
  {
    QuotientBounds(hi * TWO_64 + lo, y);
    (hi * TWO_64 + lo) / y
  }

  function Floor(x: int, n: int, d: int): int
    requires d > 0
  {
    (x * n) / d
  }

  function Ceil(x: int, n: int, d: int): int
    requires d > 0
  {
    (x * n + d - 1) / d
  }

  /** The ceiling is the least integer whose d-fold reaches x * n. */
  lemma CeilBounds(x: int, n: int, d: int)
    requires d > 0
    ensures x * n <= Ceil(x, n, d) * d < x * n + d
  {
    QuotientBounds(x * n + d - 1, d);
  }

  /** Ceil(x, n, d) <= y exactly when x * n <= y * d. */
  lemma CeilLeast(x: int, n: int, d: int, y: int)
    requires d > 0
    ensures Ceil(x, n, d) <= y <==> x * n <= y * d
  {
    CeilBounds(x, n, d);
    var c := Ceil(x, n, d);
    if c <= y {
      MulMonotone(0, y - c, d);
      assert c * d + (y - c) * d == y * d;
    } else {
      MulMonotone(0, c - 1 - y, d);
      assert y * d + (c - 1 - y) * d + d == c * d;
    }
  }

  /** y <= Floor(x, n, d) exactly when y * d <= x * n. */
  lemma FloorGreatest(x: int, n: int, d: int, y: int)
    requires d > 0
    ensures y <= Floor(x, n, d) <==> y * d <= x * n
  {
    QuotientBounds(x * n, d);
    var q := Floor(x, n, d);
    if y <= q {
      MulMonotone(0, q - y, d);
      assert y * d + (q - y) * d == q * d;
    } else {
      MulMonotone(0, y - 1 - q, d);
      assert (q + 1) * d + (y - 1 - q) * d == y * d;
    }
  }

  predicate NonNegativeInt64(x: int) {
    0 <= x <= MAX_INT64
  }

  function MulFractionRoundDown(x: int, n: int, d: int): (r: Amount)
    requires NonNegativeInt64(x) && NonNegativeInt64(n) && NonNegativeInt64(d)
    ensures d == 0 ==> r == Err(DivisionByZero)
    ensures d > 0 ==> r == if Floor(x, n, d) <= MAX_INT64 then Ok(Floor(x, n, d)) else Err(Overflow)
    ensures r.Ok? ==> 0 <= r.value <= MAX_INT64
  {
    if d == 0 then Err(DivisionByZero) else
    var (hi, lo) := Mul64(x, n);
    QuotientByWords(hi, lo, d, x * n);
    if d <= hi then Err(Overflow) else
    var q := Div64(hi, lo, d);
    if q > MAX_INT64 then Err(Overflow) else Ok(q)
  }

  /** Dividing by words: too large a quotient shows in the high word, any other is exact. */
  lemma QuotientByWords(hi: int, lo: int, d: int, product: int)
    requires 0 < d < TWO_64 && 0 <= lo < TWO_64 && 0 <= hi && hi * TWO_64 + lo == product
    ensures product / d >= 0
    ensures d <= hi ==> product / d > MAX_INT64
    ensures hi < d ==> Div64(hi, lo, d) == product / d
  {
    WordsDecideOverflow(hi, lo, d, product);
    FloorGreatest(product, 1, d, 0);
  }

  /** A quotient whose high word reaches the divisor does not fit in 64 bits. */
  lemma WordsDecideOverflow(hi: int, lo: int, d: int, product: int)
    requires d > 0 && 0 <= lo && hi * TWO_64 + lo == product
    ensures d <= hi ==> product / d > MAX_INT64
  {
    if d <= hi {
      MulMonotone(0, hi - d, TWO_64);
      assert d * TWO_64 <= product;
      FloorGreatest(product, 1, d, TWO_64);
    }
  }

  function MulFractionRoundUp(x: int, n: int, d: int): (r: Amount)
    requires NonNegativeInt64(x) && NonNegativeInt64(n) && NonNegativeInt64(d)
    ensures d == 0 ==> r == Err(DivisionByZero)
    ensures d > 0 ==> r == if Ceil(x, n, d) <= MAX_INT64 then Ok(Ceil(x, n, d)) else Err(Overflow)
  {
    if d == 0 then Err(DivisionByZero) else
    var (hi0, lo0) := Mul64(x, n);
    ProductBelow(x, n);
    var (lo, carry) := Add64(lo0, d - 1);
    // The word addition cannot wrap: the product leaves room for the carry.
    var hi := (hi0 + carry) % TWO_64;
    assert hi == hi0 + carry && hi * TWO_64 + lo == x * n + d - 1;
    QuotientByWords(hi, lo, d, x * n + d - 1);
    if d <= hi then Err(Overflow) else
    var q := Div64(hi, lo, d);
    if q > MAX_INT64 then Err(Overflow) else Ok(q)
  }

  datatype Conversion = Conversion(buying: int, selling: int)

  /** How much an offer of `amount` at price n/d gives when `needed` is wanted, and for how much. */
  function ConvertToBuyingUnits(amount: int, needed: int, n: int, d: int): (r: Result<Conversion, ArithmeticError>)
    requires NonNegativeInt64(amount) && NonNegativeInt64(needed) && NonNegativeInt64(n) && NonNegativeInt64(d)
  {
    if n <= d then
      match MulFractionRoundDown(amount, n, d)
      case Err(e) => Err(e)
      case Ok(down) =>
        match MulFractionRoundUp(down, d, n)
        case Err(e) => Err(e)
        case Ok(bound) => Sell(Min(bound, needed), n, d)
    else
      Sell(Min(amount, needed), n, d)
  }

  function Sell(selling: int, n: int, d: int): Result<Conversion, ArithmeticError>
    requires NonNegativeInt64(selling) && NonNegativeInt64(n) && NonNegativeInt64(d)
  {
    match MulFractionRoundUp(selling, n, d)
    case Err(e) => Err(e)
    case Ok(buying) => Ok(Conversion(buying, selling))
  }

  /** The most an offer of `amount` at n/d can sell without the buyer being overcharged by rounding. */
  function SellingBound(amount: int, n: int, d: int): int
    requires n > 0 && d > 0
  {
    if n <= d then Ceil(Floor(amount, n, d), d, n) else amount
  }

  /** Rounding an offer down to whole buying units and back never enlarges it. */
  lemma SellingBoundWithinAmount(amount: int, n: int, d: int)
    requires n > 0 && d > 0 && amount >= 0
    ensures 0 <= SellingBound(amount, n, d) <= amount
    ensures n <= d ==> 0 <= Floor(amount, n, d) <= amount
  {
    if n <= d {
      var q := Floor(amount, n, d);
      FloorGreatest(amount, n, d, q);
      FloorGreatest(amount, n, d, 0);
      MulMonotone(n, d, amount);
      CeilLeast(q, d, n, amount);
      FloorGreatest(amount, n, d, amount + 1);
      MulMonotone(0, amount * d - amount * n, 1);
      CeilBounds(q, d, n);
      MulMonotone(0, q, d);
      if Ceil(q, d, n) < 0 {
        CeilLeast(q, d, n, -1);
      }
    }
  }

  /** The bound is the fewest units that are worth as many whole buying units as the entire offer. */
  lemma SellingBoundLeast(amount: int, n: int, d: int, units: int)
    requires n > 0 && d > 0
    ensures SellingBound(amount, n, d) <= units <==> Floor(amount, n, d) <= Floor(units, n, d)
  {
    hide Floor, Ceil;
    var q := Floor(amount, n, d);
    FloorGreatest(units, n, d, q);
    FloorGreatest(amount, n, d, q);
    if n <= d {
      CeilLeast(q, d, n, units);
    } else if units < amount {
      FloorGreatest(amount, n, d, q + 1);
      MulMonotone(units + 1, amount, n);
      assert (units + 1) * n == units * n + n && (q + 1) * d == q * d + d;
    } else {
      MulMonotone(amount, units, n);
    }
  }

  /**
   * Both conversions together: the amount sold is the smaller of the offer's bound and the need, the
   * price paid is its exact rounded-up cost, and overflow is reported exactly when that cost does not fit.
   */
  lemma ConversionExact(amount: int, needed: int, n: int, d: int)
    requires NonNegativeInt64(amount) && NonNegativeInt64(needed) && 0 < n <= MAX_INT32 && 0 < d <= MAX_INT32
    ensures var selling := Min(SellingBound(amount, n, d), needed);
            ConvertToBuyingUnits(amount, needed, n, d) ==
            if Ceil(selling, n, d) <= MAX_INT64
            then Ok(Conversion(Ceil(selling, n, d), selling))
            else Err(Overflow)
    ensures var selling := Min(SellingBound(amount, n, d), needed);
            && 0 <= selling <= Min(amount, needed)
            && 0 <= Ceil(selling, n, d)
            && selling * n <= Ceil(selling, n, d) * d < selling * n + d
  {
    SellingBoundWithinAmount(amount, n, d);
    var selling := Min(SellingBound(amount, n, d), needed);
    CeilBounds(selling, n, d);
    MulMonotone(0, selling, n);
    if Ceil(selling, n, d) < 0 {
      CeilLeast(selling, n, d, -1);
    }
  }
}
