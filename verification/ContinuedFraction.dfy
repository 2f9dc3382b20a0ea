/**
 * Price parsing (price/main.go): the continued-fraction expansion of a rational, cut off
 * where a convergent would leave the signed 32-bit range.
 */
module ContinuedFraction {
  import opened Common
  import opened Arithmetic

  /** A rational num/den; the value, not the representation, is what the loop looks at. */
  datatype Rat = Rat(num: int, den: int)

  datatype Convergent = Convergent(h: int, k: int)

  datatype ParseError = NoApproximation

  function Abs(x: int): int {
    if x < 0 then -x else x
  }

  /** The price is the fixed number num/den, seen through the last two convergents and the tail u/v. */
  ghost predicate Expands(price: Rat, before: Convergent, last: Convergent, u: int, v: int) {
    && price.num == last.h * u + before.h * v
    && price.den == last.k * u + before.k * v
  }

  /** Successive convergents have determinant +1 or -1. */
  ghost predicate Unimodular(before: Convergent, last: Convergent) {
    Abs(last.h * before.k - before.h * last.k) == 1
  }

  ghost predicate InRange(c: Convergent) {
    0 <= c.h <= MAX_INT32 && 0 <= c.k <= MAX_INT32
  }

  /** No p/q with 1 <= q <= d lies closer to price than n/d, in cross-multiplied form. */
  ghost predicate BestApproximation(price: Rat, n: int, d: int) {
    forall p, q :: 1 <= q <= d ==> AtLeastAsClose(price, n, d, p, q)
  }

  /** |price - n/d| <= |price - p/q|, for positive denominators. */
  ghost predicate AtLeastAsClose(price: Rat, n: int, d: int, p: int, q: int) {
    Abs(price.num * d - n * price.den) * q <= Abs(price.num * q - p * price.den) * d
  }

  /** price equals p/q, with both parts in the positive 32-bit range. */
  ghost predicate RepresentedBy(price: Rat, p: int, q: int) {
    1 <= p <= MAX_INT32 && 1 <= q <= MAX_INT32 && p * price.den == price.num * q
  }

  /** price equals p/q, with a 32-bit denominator. */
  ghost predicate Denotes(price: Rat, p: int, q: int) {
    1 <= q <= MAX_INT32 && p * price.den == price.num * q
  }

  /** The convergent after `before` and `last` for the partial quotient a. */
  function Next(before: Convergent, last: Convergent, a: int): Convergent {
    Convergent(a * last.h + before.h, a * last.k + before.k)
  }

  predicate TooLarge(c: Convergent) {
    c.h > MAX_INT32 || c.k > MAX_INT32
  }

  /** Why the loop stopped: the tail is spent, too large, or the next convergent would be. */
  ghost predicate Stopped(before: Convergent, last: Convergent, u: int, v: int) {
    || v == 0
    || u > MAX_INT32 * v
    || (v > 0 && TooLarge(Next(before, last, u / v)))
  }

  /** The loop's state after at least one convergent has been appended. */
  ghost predicate Advanced(before: Convergent, last: Convergent, u: int, v: int) {
    && InRange(before) && InRange(last) && Unimodular(before, last)
    && 0 <= v < u
    && before.k <= last.k && 1 <= last.k
    // only the first convergent follows 1/0, and it is the integer part of a price within range
    && (before.k == 0 ==> before.h == 1 && last.k == 1 && (v > 0 ==> last.h < MAX_INT32))
    && (before.k > 0 ==> last.h >= 1)
  }

  /** What a caller can check beforehand: the price or its inverse is beyond 32 bits. */
  predicate OutOfReach(price: Rat) {
    || price.num > MAX_INT32 * price.den
    || (price.num >= 0 && price.den > MAX_INT32 * price.num)
    || Tiny(price)
  }

  /** A negative price that is at most 2^-31 below zero. */
  predicate Tiny(price: Rat) {
    price.num < 0 && price.den >= (MAX_INT32 + 1) * -price.num
  }

  // ---------- one Euclidean step ----------

  lemma StepExpands(price: Rat, before: Convergent, last: Convergent, u: int, v: int, a: int, r: int)
    requires Expands(price, before, last, u, v) && u == a * v + r
    ensures Expands(price, last, Next(before, last, a), v, r)
  {
    StepCoordinate(before.h, last.h, u, v, a, r);
    StepCoordinate(before.k, last.k, u, v, a, r);
  }

  lemma StepCoordinate(x: int, y: int, u: int, v: int, a: int, r: int)
    requires u == a * v + r
    ensures (a * y + x) * v + y * r == y * u + x * v
  {
  }

  lemma StepUnimodular(before: Convergent, last: Convergent, a: int)
    requires Unimodular(before, last)
    ensures Unimodular(last, Next(before, last, a))
  {
    var h, k := a * last.h + before.h, a * last.k + before.k;
    calc {
      h * last.k - last.h * k;
      a * last.h * last.k + before.h * last.k - last.h * (a * last.k) - last.h * before.k;
      { assert a * last.h * last.k == last.h * (a * last.k); }
      before.h * last.k - last.h * before.k;
    }
  }

  // ---------- why the cut-off convergent is best ----------

  /** Coordinates of (p, q) in the unimodular basis of the last two convergents. */
  lemma Coordinates(before: Convergent, last: Convergent, p: int, q: int) returns (alpha: int, beta: int)
    requires Unimodular(before, last)
    ensures p == alpha * last.h + beta * before.h
    ensures q == alpha * last.k + beta * before.k
  {
    var det := last.h * before.k - before.h * last.k;
    alpha := det * (p * before.k - q * before.h);
    beta := det * (q * last.h - p * last.k);
    Cramer(last.h, last.k, before.h, before.k, p, q);
    assert det == 1 || det == -1;
  }

  /** Cramer's rule for the matrix of the last two convergents. */
  lemma Cramer(h1: int, k1: int, h0: int, k0: int, p: int, q: int)
    ensures var det := h1 * k0 - h0 * k1;
            var alpha, beta := p * k0 - q * h0, q * h1 - p * k1;
            alpha * h1 + beta * h0 == det * p && alpha * k1 + beta * k0 == det * q
  {
    CramerRow(h1, h0, k1, k0, p, q);
    CramerRow(k1, k0, h1, h0, q, p);
  }

  lemma CramerRow(x1: int, x0: int, y1: int, y0: int, s: int, t: int)
    ensures (s * y0 - t * x0) * x1 + (t * x1 - s * y1) * x0 == (x1 * y0 - x0 * y1) * s
  {
    assert (s * y0 - t * x0) * x1 == s * y0 * x1 - t * x0 * x1;
    assert (t * x1 - s * y1) * x0 == t * x1 * x0 - s * y1 * x0;
    assert (x1 * y0 - x0 * y1) * s == x1 * y0 * s - x0 * y1 * s;
    assert s * y0 * x1 == x1 * y0 * s && s * y1 * x0 == x0 * y1 * s && t * x0 * x1 == t * x1 * x0;
  }

  /** Cross-differences with the price, up to the sign of the determinant, in those coordinates. */
  lemma CrossDifference(price: Rat, before: Convergent, last: Convergent, u: int, v: int, alpha: int, beta: int)
    requires Expands(price, before, last, u, v) && Unimodular(before, last)
    ensures var p, q := alpha * last.h + beta * before.h, alpha * last.k + beta * before.k;
            Abs(price.num * q - p * price.den) == Abs(u * beta - v * alpha)
  {
    var h1, k1, h0, k0 := last.h, last.k, before.h, before.k;
    var p, q := alpha * h1 + beta * h0, alpha * k1 + beta * k0;
    var det := h1 * k0 - h0 * k1;
    calc {
      price.num * q - p * price.den;
      (h1 * u + h0 * v) * (alpha * k1 + beta * k0) - (alpha * h1 + beta * h0) * (k1 * u + k0 * v);
      { BilinearExpansion(h1, k1, h0, k0, u, v, alpha, beta); }
      (u * beta - v * alpha) * det;
    }
    assert det == 1 || det == -1;
  }

  lemma BilinearExpansion(h1: int, k1: int, h0: int, k0: int, u: int, v: int, alpha: int, beta: int)
    ensures (h1 * u + h0 * v) * (alpha * k1 + beta * k0) - (alpha * h1 + beta * h0) * (k1 * u + k0 * v)
         == (u * beta - v * alpha) * (h1 * k0 - h0 * k1)
  {
    Distribute(h1 * u, h0 * v, alpha * k1, beta * k0);
    Distribute(alpha * h1, beta * h0, k1 * u, k0 * v);
    Regroup(h1, u, alpha, k1);
    Regroup(h1, u, beta, k0);
    Regroup(h0, v, alpha, k1);
    Regroup(h0, v, beta, k0);
    Regroup(h1, alpha, u, k1);
    Regroup(h1, alpha, v, k0);
    Regroup(h0, beta, u, k1);
    Regroup(h0, beta, v, k0);
    Distribute(u * beta, -(v * alpha), h1 * k0, -(h0 * k1));
  }

  lemma Distribute(a: int, b: int, c: int, d: int)
    ensures (a + b) * (c + d) == a * c + a * d + b * c + b * d
  {
  }

  lemma Regroup(a: int, b: int, c: int, d: int)
    ensures (a * b) * (c * d) == (b * c) * (a * d)
  {
    assert (a * b) * (c * d) == a * (b * (c * d)) == a * ((b * c) * d) == (b * c) * (a * d);
  }

  /** Every other lattice point with denominator in 1..k1 misses by at least v. */
  lemma OtherPointsMiss(k1: int, k0: int, u: int, v: int, alpha: int, beta: int)
    requires 0 <= v < u && 0 <= k0 <= k1 && 1 <= k1
    requires k0 == 0 ==> k1 == 1 && 2 * v <= u
    requires 1 <= alpha * k1 + beta * k0 <= k1
    ensures v <= Abs(u * beta - v * alpha)
  {
    if beta == 0 {
      PositiveFactor(alpha, k1);
      PositiveFactor(2 - alpha, k1);
    } else if beta < 0 {
      MulMonotone(beta, 0, k0);
      PositiveFactor(alpha, k1);
      MulMonotone(beta, -1, u);
      MulMonotone(1, alpha, v);
    } else {
      MulMonotone(1, beta, u);
      if k0 > 0 {
        MulMonotone(1, beta, k0);
        PositiveFactor(1 - alpha, k1);
        MulMonotone(alpha, 0, v);
      }
    }
  }

  /** Stopping right after the integer part means the fraction cut off is at most one half. */
  lemma IntegerPartRoundsDown(before: Convergent, last: Convergent, u: int, v: int)
    requires Advanced(before, last, u, v) && Stopped(before, last, u, v) && before.k == 0
    ensures 2 * v <= u
  {
    if u < 2 * v {
      QuotientUnique(u, v, 1);
    }
  }

  lemma CutOffIsBest(price: Rat, before: Convergent, last: Convergent, u: int, v: int)
    requires Expands(price, before, last, u, v)
    requires Advanced(before, last, u, v) && Stopped(before, last, u, v)
    ensures BestApproximation(price, last.h, last.k)
  {
    if before.k == 0 {
      IntegerPartRoundsDown(before, last, u, v);
    }
    forall p, q | 1 <= q <= last.k
      ensures AtLeastAsClose(price, last.h, last.k, p, q)
    {
      var alpha, beta := Coordinates(before, last, p, q);
      CrossDifference(price, before, last, u, v, 1, 0);
      CrossDifference(price, before, last, u, v, alpha, beta);
      OtherPointsMiss(last.k, before.k, u, v, alpha, beta);
      CloserByProducts(v, Abs(u * beta - v * alpha), q, last.k);
    }
  }

  lemma CloserByProducts(v: int, miss: int, q: int, k: int)
    requires 0 <= v <= miss && 1 <= q <= k
    ensures v * q <= miss * k
  {
    MulMonotone(v, miss, q);
    MulMonotone(q, k, miss);
  }

  // ---------- when the result is exact ----------

  /** A price with a 32-bit representation has a spent tail when the loop stops. */
  lemma RepresentableIsReached(price: Rat, before: Convergent, last: Convergent, u: int, v: int, p: int, q: int)
    requires Expands(price, before, last, u, v)
    requires Advanced(before, last, u, v) && Stopped(before, last, u, v)
    requires RepresentedBy(price, p, q)
    ensures v == 0
  {
    var alpha, beta := Coordinates(before, last, p, q);
    CrossDifference(price, before, last, u, v, alpha, beta);
    assert u * beta == v * alpha;
    if v > 0 {
      TailCoordinates(before, last, u, v, alpha, beta);
      Scale(last.h, before.h, u / v, alpha, beta);
      Scale(last.k, before.k, u / v, alpha, beta);
      if u > MAX_INT32 * v {
        LargeTail(u, v, last.k, before.k, alpha, beta);
      }
    }
  }

  /** In exact coordinates the weight of the last convergent is at least the whole quotient of the tail. */
  lemma TailCoordinates(before: Convergent, last: Convergent, u: int, v: int, alpha: int, beta: int)
    requires Advanced(before, last, u, v) && v > 0
    requires u * beta == v * alpha && 1 <= alpha * last.k + beta * before.k
    ensures beta >= 1 && alpha >= (u / v) * beta
  {
    if beta <= 0 {
      MulMonotone(beta, 0, u);
      if alpha >= 1 {
        MulMonotone(1, alpha, v);
      } else {
        MulMonotone(alpha, 0, last.k);
        MulMonotone(beta, 0, before.k);
      }
    }
    QuotientBounds(u, v);
    var a := u / v;
    MulMonotone(a * v, u, beta);
    assert (a * beta) * v == (a * v) * beta;
    MulOrder(a * beta, alpha + 1, v);
  }

  lemma LargeTail(u: int, v: int, k1: int, k0: int, alpha: int, beta: int)
    requires v > 0 && u > MAX_INT32 * v && beta >= 1 && u * beta == v * alpha && k1 >= 1 && k0 >= 0
    ensures alpha * k1 + beta * k0 > MAX_INT32
  {
    MulMonotone(1, beta, u);
    MulOrder(MAX_INT32, alpha, v);
    MulMonotone(1, k1, alpha);
    MulNonNegative(beta, k0);
  }

  lemma Scale(y: int, x: int, a: int, alpha: int, beta: int)
    requires 0 <= x && 0 <= y && beta >= 1 && alpha >= a * beta && a >= 0
    ensures a * y + x <= alpha * y + beta * x
  {
    MulMonotone(a * beta, alpha, y);
    assert (a * beta) * y == (a * y) * beta;
    MulNonNegative(a, y);
    MulMonotone(1, beta, a * y);
    MulMonotone(1, beta, x);
  }

  /** Unimodular neighbours make the last convergent irreducible. */
  lemma LowestTerms(before: Convergent, last: Convergent, g: int, x: int, y: int)
    requires Unimodular(before, last) && g >= 1
    requires last.h == g * x && last.k == g * y
    ensures g == 1
  {
    var m := x * before.k - before.h * y;
    assert last.h * before.k - before.h * last.k == g * m by {
      assert (g * x) * before.k == g * (x * before.k);
      assert before.h * (g * y) == g * (before.h * y);
    }
    if g >= 2 {
      if m >= 1 {
        MulMonotone(1, m, g);
      } else {
        MulMonotone(m, -1, g);
      }
    }
  }

  /** The first step, from 0/1 and 1/0, yields the integer part. */
  lemma FirstStep(price: Rat)
    requires 0 <= price.num <= MAX_INT32 * price.den && price.den > 0
    ensures var a := price.num / price.den;
            Advanced(Convergent(1, 0), Convergent(a, 1), price.den, price.num - a * price.den)
    ensures price.num / price.den >= 1 ==> price.den <= MAX_INT32 * price.num
  {
    QuotientBounds(price.num, price.den);
    var a := price.num / price.den;
    MulOrder(-1, a, price.den);
    MulOrder(a, MAX_INT32 + 1, price.den);
    if price.num - a * price.den > 0 {
      MulOrder(a, MAX_INT32, price.den);
    }
    if a >= 1 {
      MulMonotone(1, a, price.den);
    }
  }

  /** Every later step keeps the invariant and does not shrink the denominator. */
  lemma LaterStep(before: Convergent, last: Convergent, u: int, v: int, a: int, r: int)
    requires Advanced(before, last, u, v) && v > 0
    requires u == a * v + r && 0 <= r < v
    requires !TooLarge(Next(before, last, a))
    ensures Advanced(last, Next(before, last, a), v, r)
  {
    PositiveQuotient(u, v, a, r);
    NextDominates(before.h, last.h, a);
    NextDominates(before.k, last.k, a);
    StepUnimodular(before, last, a);
  }

  lemma PositiveQuotient(u: int, v: int, a: int, r: int)
    requires u == a * v + r && 0 <= r < v <= u
    ensures a >= 1
  {
    PositiveFactor(a, v);
  }

  lemma NextDominates(x: int, y: int, a: int)
    requires 0 <= x && 0 <= y && a >= 1
    ensures a * y + x >= y + x
  {
    MulMonotone(1, a, y);
  }

  /** A zero numerator survives only for prices below every positive 32-bit fraction. */
  lemma ZeroNumerator(price: Rat, before: Convergent, last: Convergent, u: int, v: int)
    requires Expands(price, before, last, u, v)
    requires Advanced(before, last, u, v) && Stopped(before, last, u, v) && last.h == 0
    ensures price.den > MAX_INT32 * price.num
  {
    assert price.num == v && price.den == u;
    if 0 < v && u <= MAX_INT32 * v {
      QuotientBounds(u, v);
      MulOrder(u / v, MAX_INT32 + 1, v);
    }
  }

  /**
   * The expansion's result: an error exactly when the price is out of reach, and otherwise the fraction in
   * lowest terms that no fraction with a smaller or equal denominator beats. Of a price that is not
   * negative both parts fit in 32 bits, and it is the price itself exactly when that has any 32-bit
   * representation; of a negative one only the denominator is kept within bounds, and it is the price
   * itself exactly when that has a 32-bit denominator.
   */
  method Approximate(price: Rat) returns (r: Result<Convergent, ParseError>)
    requires 0 < price.den
    ensures r.Err? <==> OutOfReach(price)
    ensures r.Ok? ==> r.value.h <= MAX_INT32 && 1 <= r.value.k <= MAX_INT32
    ensures r.Ok? ==> if price.num >= 0 then 1 <= r.value.h else r.value.h <= -1
    ensures r.Ok? ==> BestApproximation(price, r.value.h, r.value.k)
    ensures r.Ok? ==> forall g, x, y :: g >= 1 && r.value == Convergent(g * x, g * y) ==> g == 1
    ensures price.num >= 0 ==>
      ((exists p, q :: RepresentedBy(price, p, q)) <==> r.Ok? && RepresentedBy(price, r.value.h, r.value.k))
    ensures price.num < 0 && r.Ok? ==> ((exists p, q :: Denotes(price, p, q)) <==> Denotes(price, r.value.h, r.value.k))
    ensures price.num < 0 && r.Ok? ==> forall p, q :: Denotes(price, p, q) ==> p <= r.value.h
    ensures r.Ok? && -price.den <= price.num < 0 ==> -r.value.k <= r.value.h
  {
    hide AnyReached, Stopped;
    var fractions := [Convergent(0, 1), Convergent(1, 0)];
    var number := price;
    var i := 2;
    ghost var tail := price;
    StartReached(price);
    while true
      invariant i == |fractions| >= 2
      invariant tail == number && 0 < number.den
      invariant AnyReached(price, fractions[i-2], fractions[i-1], number, i)
      decreases number.den
    {
      StoppedHere(fractions[i-2], fractions[i-1], number);
      if number.num > MAX_INT32 * number.den {
        break;
      }
      var a := number.num / number.den;
      var f := Rat(number.num - a * number.den, number.den);
      var next := Next(fractions[i-2], fractions[i-1], a);
      if TooLarge(next) {
        break;
      }
      AnyStep(price, fractions[i-2], fractions[i-1], number, i);
      fractions := fractions + [next];
      tail := Rat(f.den, f.num);
      if f.num == 0 {
        break;
      }
      number := Rat(f.den, f.num);
      i := i + 1;
    }
    TailSpent(fractions[|fractions| - 2], fractions[|fractions| - 1], tail);
    var last := fractions[|fractions| - 1];
    if last.h == 0 || last.k == 0 {
      r := Err(NoApproximation);
    } else {
      r := Ok(last);
    }
    AnyConclude(price, fractions[|fractions| - 2], last, tail, |fractions|);
  }

  /** The two tests before a step decide whether the expansion stops there. */
  lemma StoppedHere(before: Convergent, last: Convergent, tail: Rat)
    requires 0 < tail.den
    ensures Stopped(before, last, tail.num, tail.den) <==>
      tail.num > MAX_INT32 * tail.den || TooLarge(Next(before, last, tail.num / tail.den))
  {
  }

  lemma TailSpent(before: Convergent, last: Convergent, tail: Rat)
    ensures tail.den == 0 ==> Stopped(before, last, tail.num, tail.den)
  {
  }

  /** The loop's state: i convergents so far, the last two of them, and the tail still to expand. */
  ghost predicate Reached(price: Rat, before: Convergent, last: Convergent, tail: Rat, i: int) {
    && Expands(price, before, last, tail.num, tail.den)
    && (i == 2 ==> tail == price && before == Convergent(0, 1) && last == Convergent(1, 0))
    && (i > 2 ==> Advanced(before, last, tail.num, tail.den) && price.num <= MAX_INT32 * price.den)
    && (i > 2 && last.h >= 1 ==> price.den <= MAX_INT32 * price.num)
  }

  /** The same for a price of either sign; a negative one is followed through its fractional part. */
  ghost predicate AnyReached(price: Rat, before: Convergent, last: Convergent, tail: Rat, i: int) {
    if price.num >= 0 then 0 <= tail.num && Reached(price, before, last, tail, i)
    else NegativeReached(price, before, last, tail, i)
  }

  lemma OneStep(price: Rat, before: Convergent, last: Convergent, tail: Rat, i: int)
    requires i >= 2 && 0 <= price.num && 0 < price.den
    requires 0 < tail.den && 0 <= tail.num && Reached(price, before, last, tail, i)
    requires tail.num <= MAX_INT32 * tail.den
    requires !TooLarge(Next(before, last, tail.num / tail.den))
    ensures var a := tail.num / tail.den;
            var r := tail.num - a * tail.den;
            0 <= r < tail.den && Reached(price, last, Next(before, last, a), Rat(tail.den, r), i + 1)
  {
    hide Expands, Advanced;
    var a := tail.num / tail.den;
    var r := tail.num - a * tail.den;
    Remainder(tail.num, tail.den);
    StepExpands(price, before, last, tail.num, tail.den, a, r);
    if i == 2 {
      FirstStep(price);
    } else {
      LaterStep(before, last, tail.num, tail.den, a, r);
      InverseInRange(price, before, last, tail);
    }
  }

  lemma Remainder(u: int, v: int)
    requires v > 0
    ensures 0 <= u - (u / v) * v < v
  {
    QuotientBounds(u, v);
    assert (u / v + 1) * v == (u / v) * v + v;
  }

  /** Once a second partial quotient is taken, the inverse of the price is known to be in range. */
  lemma InverseInRange(price: Rat, before: Convergent, last: Convergent, tail: Rat)
    requires Expands(price, before, last, tail.num, tail.den) && Advanced(before, last, tail.num, tail.den)
    requires last.h >= 1 ==> price.den <= MAX_INT32 * price.num
    requires tail.num <= MAX_INT32 * tail.den
    ensures price.den <= MAX_INT32 * price.num
  {
    if last.h == 0 {
      assert price.num == tail.den && price.den == tail.num;
    }
  }

  lemma Conclude(price: Rat, before: Convergent, last: Convergent, tail: Rat, i: int)
    requires i >= 2 && 0 < price.den && Reached(price, before, last, tail, i)
    requires Stopped(before, last, tail.num, tail.den)
    ensures last.h == 0 || last.k == 0 <==> OutOfReach(price)
    ensures last.k != 0 ==> InRange(last) && BestApproximation(price, last.h, last.k)
    ensures forall g, x, y :: g >= 1 && last.k != 0 && last == Convergent(g * x, g * y) ==> g == 1
    ensures (exists p, q :: RepresentedBy(price, p, q)) <==> RepresentedBy(price, last.h, last.k)
  {
    if i == 2 {
      FirstStopped(price);
      NothingReached(price);
    } else {
      if last.h == 0 {
        ZeroNumerator(price, before, last, tail.num, tail.den);
      }
      CutOffIsBest(price, before, last, tail.num, tail.den);
      forall g, x, y | g >= 1 && last == Convergent(g * x, g * y)
        ensures g == 1
      {
        LowestTerms(before, last, g, x, y);
      }
      if p, q :| RepresentedBy(price, p, q) {
        ExactWhenRepresentable(price, before, last, tail.num, tail.den, p, q);
      }
    }
  }

  /** The loop stops before its first step only for a price above the 32-bit range. */
  lemma FirstStopped(price: Rat)
    requires 0 < price.den && Stopped(Convergent(0, 1), Convergent(1, 0), price.num, price.den)
    ensures price.num > MAX_INT32 * price.den
  {
    if price.num <= MAX_INT32 * price.den {
      QuotientBounds(price.num, price.den);
      MulOrder(price.num / price.den, MAX_INT32 + 1, price.den);
    }
  }

  lemma ExactWhenRepresentable(price: Rat, before: Convergent, last: Convergent, u: int, v: int, p: int, q: int)
    requires Expands(price, before, last, u, v) && 0 < price.den
    requires Advanced(before, last, u, v) && Stopped(before, last, u, v)
    requires RepresentedBy(price, p, q)
    ensures RepresentedBy(price, last.h, last.k)
  {
    RepresentableIsReached(price, before, last, u, v, p, q);
    CommonScale(last.h, last.k, u, p, q);
  }

  /** If h * u over k * u equals p/q then h over k equals it too. */
  lemma CommonScale(h: int, k: int, u: int, p: int, q: int)
    requires u >= 0 && p >= 1 && q >= 1 && k * u >= 1 && p * (k * u) == (h * u) * q
    ensures h >= 1 && h * (k * u) == (h * u) * k
  {
    assert (h * u) * q == h * (u * q);
    MulMonotone(1, p, k * u);
    MulNonNegative(u, q);
    PositiveFactor(h, u * q);
    assert h * (k * u) == (h * u) * k;
  }

  lemma NothingReached(price: Rat)
    requires price.num > MAX_INT32 * price.den && price.den > 0
    ensures !exists p, q :: RepresentedBy(price, p, q)
  {
    forall p, q | RepresentedBy(price, p, q)
      ensures false
    {
      MulMonotone(p, MAX_INT32, price.den);
      MulMonotone(1, q, price.num);
    }
  }

  // ---------- negative prices ----------

  /** The integer part, rounded down, and what is left of the price above it. */
  function IntegerPart(price: Rat): int
    requires price.den > 0
  {
    price.num / price.den
  }

  function FractionalPart(price: Rat): Rat
    requires price.den > 0
  {
    Rat(price.num - IntegerPart(price) * price.den, price.den)
  }

  lemma FractionBelowOne(price: Rat)
    requires price.den > 0
    ensures 0 <= FractionalPart(price).num < price.den
    ensures price.num < 0 ==> IntegerPart(price) <= -1
  {
    QuotientBounds(price.num, price.den);
    var a := IntegerPart(price);
    assert (a + 1) * price.den == a * price.den + price.den;
    if price.num < 0 {
      MulOrder(a, 0, price.den);
    }
  }

  /** A convergent of the price, as a convergent of its fractional part. */
  function Above(a: int, c: Convergent): Convergent {
    Convergent(c.h - a * c.k, c.k)
  }

  /**
   * After the first step, the expansion of a negative price runs in parallel to that of its fractional part:
   * the tails are the same, and the convergents differ by the integer part.
   */
  ghost predicate NegativeReached(price: Rat, before: Convergent, last: Convergent, tail: Rat, i: int) {
    0 < price.den &&
    if i == 2 then tail == price && before == Convergent(0, 1) && last == Convergent(1, 0)
    else
      var a, y := IntegerPart(price), FractionalPart(price);
      var b, l := Above(a, before), Above(a, last);
      && i > 2 && 0 <= tail.num
      && Reached(y, b, l, tail, i)
      && l.h <= l.k
      && (i == 3 ==> b == Convergent(1, 0) && l == Convergent(0, 1) && tail == Rat(y.den, y.num))
      && (i > 3 ==> b.h <= b.k)
      && (i == 4 ==> b == Convergent(0, 1))
      && (Tiny(price) ==> i <= 4)
      && (Tiny(price) && i == 4 ==> l == Convergent(1, 1) && tail == Rat(y.num, y.den - y.num))
  }

  lemma StartReached(price: Rat)
    requires 0 < price.den
    ensures AnyReached(price, Convergent(0, 1), Convergent(1, 0), price, 2)
  {
  }

  lemma AnyStep(price: Rat, before: Convergent, last: Convergent, tail: Rat, i: int)
    requires i >= 2 && 0 < price.den && 0 < tail.den
    requires AnyReached(price, before, last, tail, i)
    requires tail.num <= MAX_INT32 * tail.den
    requires !TooLarge(Next(before, last, tail.num / tail.den))
    ensures var a := tail.num / tail.den;
            var r := tail.num - a * tail.den;
            0 <= r < tail.den && AnyReached(price, last, Next(before, last, a), Rat(tail.den, r), i + 1)
  {
    hide Reached, NegativeReached;
    if price.num >= 0 {
      OneStep(price, before, last, tail, i);
    } else if i == 2 {
      NegativeStart(price, before, last, tail);
    } else {
      NegativeStep(price, before, last, tail, i);
    }
  }

  /** The first step splits off the integer part. */
  lemma NegativeStart(price: Rat, before: Convergent, last: Convergent, tail: Rat)
    requires price.num < 0 && 0 < price.den && NegativeReached(price, before, last, tail, 2)
    ensures var a := tail.num / tail.den;
            var r := tail.num - a * tail.den;
            0 <= r < tail.den && NegativeReached(price, last, Next(before, last, a), Rat(tail.den, r), 3)
  {
    hide Reached, Above, Next, Tiny, Expands, Advanced;
    FractionBelowOne(price);
    var a, y := IntegerPart(price), FractionalPart(price);
    hide IntegerPart, FractionalPart;
    QuotientUnique(y.num, y.den, 0);
    ReachedAtStart(y);
    FirstConvergent(0);
    OneStep(y, Convergent(0, 1), Convergent(1, 0), y, 2);
    FirstConvergent(a);
  }

  lemma FirstConvergent(a: int)
    ensures Next(Convergent(0, 1), Convergent(1, 0), a) == Convergent(a, 1)
    ensures !TooLarge(Convergent(0, 1))
    ensures Above(a, Convergent(1, 0)) == Convergent(1, 0) && Above(a, Convergent(a, 1)) == Convergent(0, 1)
  {
  }

  lemma ReachedAtStart(price: Rat)
    ensures Reached(price, Convergent(0, 1), Convergent(1, 0), price, 2)
  {
  }

  lemma FractionDen(price: Rat)
    requires price.den > 0
    ensures FractionalPart(price).den == price.den
  {
  }

  lemma AboveDenominator(a: int, c: Convergent)
    ensures Above(a, c).k == c.k
  {
  }

  /** Shifting by the integer part commutes with taking a convergent. */
  lemma AboveNext(a: int, before: Convergent, last: Convergent, q: int)
    ensures Above(a, Next(before, last, q)) == Next(Above(a, before), Above(a, last), q)
  {
    assert q * (last.h - a * last.k) == q * last.h - a * (q * last.k);
  }

  /** A later convergent of the fractional part is at most one, so that of the price is not positive. */
  lemma NextAtMostOne(price: Rat, before: Convergent, last: Convergent, tail: Rat, i: int)
    requires price.num < 0 && i > 2 && 0 < tail.den && NegativeReached(price, before, last, tail, i)
    ensures var q := tail.num / tail.den;
            var next := Next(before, last, q);
            && q >= 1 && next.k >= 1
            && Above(IntegerPart(price), next).h <= next.k
            && next.h <= 0
  {
    FractionBelowOne(price);
    var a := IntegerPart(price);
    var b, l := Above(a, before), Above(a, last);
    var q := tail.num / tail.den;
    AboveNext(a, before, last, q);
    assert Advanced(b, l, tail.num, tail.den);
    assert q >= 1 by {
      QuotientBounds(tail.num, tail.den);
      MulOrder(0, q, tail.den);
    }
    MulMonotone(l.h, l.k, q);
    MulMonotone(1, q, l.k);
    var next := Next(before, last, q);
    if i == 3 {
      assert Above(a, next) == Convergent(1, q);
    }
    MulMonotone(a, -1, next.k);
  }

  lemma NegativeStep(price: Rat, before: Convergent, last: Convergent, tail: Rat, i: int)
    requires price.num < 0 && i > 2 && 0 < price.den && 0 < tail.den
    requires NegativeReached(price, before, last, tail, i)
    requires tail.num <= MAX_INT32 * tail.den
    requires !TooLarge(Next(before, last, tail.num / tail.den))
    ensures var q := tail.num / tail.den;
            var r := tail.num - q * tail.den;
            0 <= r < tail.den && NegativeReached(price, last, Next(before, last, q), Rat(tail.den, r), i + 1)
  {
    hide Reached, Above, IntegerPart, FractionalPart, Next, Tiny;
    FractionBelowOne(price);
    FractionDen(price);
    var a, y := IntegerPart(price), FractionalPart(price);
    var q := tail.num / tail.den;
    AboveNext(a, before, last, q);
    NextAtMostOne(price, before, last, tail, i);
    AboveDenominator(a, Next(before, last, q));
    AboveDenominator(a, last);
    OneStep(y, Above(a, before), Above(a, last), tail, i);
    if Tiny(price) {
      if i == 3 {
        TinyGoesOn(price, before, last, tail);
      } else {
        TinyStops(price, before, last, tail);
      }
    }
  }

  /** The expansion of a tiny negative price takes one step after the integer part. */
  lemma TinyGoesOn(price: Rat, before: Convergent, last: Convergent, tail: Rat)
    requires Tiny(price) && 0 < price.den && NegativeReached(price, before, last, tail, 3)
    ensures var q, y := 1, FractionalPart(price);
      && tail.den == y.num > 0 && tail.num / tail.den == q
      && Above(IntegerPart(price), Next(before, last, q)) == Convergent(1, 1)
      && tail.num - q * tail.den == y.den - y.num
    ensures !Stopped(before, last, tail.num, tail.den)
  {
    hide Reached, Above, IntegerPart, FractionalPart;
    TinyParts(price);
    MulMonotone(1, -price.num, MAX_INT32);
    QuotientUnique(tail.num, tail.den, 1);
    BelowOne(before, last);
    var y := FractionalPart(price);
    assert y.den <= MAX_INT32 * y.num;
  }

  /** The first two convergents of a price between -1 and 0, and the third when the second quotient is 1. */
  lemma BelowOne(before: Convergent, last: Convergent)
    requires Above(-1, before) == Convergent(1, 0) && Above(-1, last) == Convergent(0, 1)
    ensures Next(before, last, 1) == Convergent(0, 1) && Above(-1, Convergent(0, 1)) == Convergent(1, 1)
  {
  }

  /** Then it stops. */
  lemma TinyStops(price: Rat, before: Convergent, last: Convergent, tail: Rat)
    requires Tiny(price) && 0 < price.den && 0 < tail.den && NegativeReached(price, before, last, tail, 4)
    ensures TooLarge(Next(before, last, tail.num / tail.den))
  {
    hide Reached;
    TinyParts(price);
    FloorAtLeast(tail.num, tail.den, MAX_INT32);
    assert before.k == 1 && last.k == 1;
  }

  lemma FloorAtLeast(u: int, v: int, m: int)
    requires v > 0 && u >= m * v
    ensures u / v >= m
  {
    QuotientBounds(u, v);
    MulOrder(m, u / v + 1, v);
  }

  lemma TinyParts(price: Rat)
    requires Tiny(price) && 0 < price.den
    ensures IntegerPart(price) == -1
    ensures var y := FractionalPart(price);
      y.den == price.den && y.num == price.den + price.num && y.num >= MAX_INT32 * -price.num
  {
    MulMonotone(1, -price.num, MAX_INT32 + 1);
    QuotientUnique(price.num, price.den, -1);
  }

  /** Where the expansion of the price stops, so does that of its fractional part. */
  lemma StoppedAbove(price: Rat, before: Convergent, last: Convergent, tail: Rat, i: int)
    requires price.num < 0 && i > 2 && 0 <= tail.den && NegativeReached(price, before, last, tail, i)
    requires Stopped(before, last, tail.num, tail.den)
    ensures var a := IntegerPart(price); Stopped(Above(a, before), Above(a, last), tail.num, tail.den)
  {
    hide Reached;
    if tail.den > 0 {
      NextAtMostOne(price, before, last, tail, i);
      AboveNext(IntegerPart(price), before, last, tail.num / tail.den);
    }
  }

  lemma ShiftedClose(price: Rat, n: int, d: int, p: int, q: int)
    requires 0 < price.den
    ensures var a, y := IntegerPart(price), FractionalPart(price);
      AtLeastAsClose(price, n, d, p, q) <==> AtLeastAsClose(y, n - a * d, d, p - a * q, q)
  {
    var a, y := IntegerPart(price), FractionalPart(price);
    ShiftedDifference(price.num, price.den, a, n, d);
    ShiftedDifference(price.num, price.den, a, p, q);
  }

  lemma ShiftedDifference(num: int, den: int, a: int, n: int, d: int)
    ensures (num - a * den) * d - (n - a * d) * den == num * d - n * den
  {
    assert (a * den) * d == (a * d) * den;
  }

  lemma ShiftedBest(price: Rat, n: int, d: int)
    requires 0 < price.den
    requires BestApproximation(FractionalPart(price), n - IntegerPart(price) * d, d)
    ensures BestApproximation(price, n, d)
  {
    hide AtLeastAsClose, IntegerPart, FractionalPart;
    forall p, q | 1 <= q <= d
      ensures AtLeastAsClose(price, n, d, p, q)
    {
      ShiftedClose(price, n, d, p, q);
    }
  }

  lemma ShiftedLowest(a: int, c: Convergent, g: int, x: int, y: int)
    requires c == Convergent(g * x, g * y)
    ensures Above(a, c) == Convergent(g * (x - a * y), g * y)
  {
    assert g * (x - a * y) == g * x - a * (g * y);
  }

  /** The convergent of a negative price is zero only for the convergent 1/1 of the fractional part. */
  lemma ZeroIsOne(a: int, l: Convergent)
    requires a <= -1 && l.k >= 1 && l.h <= l.k && l.h + a * l.k == 0
    ensures a == -1 && l.h == l.k
  {
    MulMonotone(a, -1, l.k);
    if a <= -2 {
      MulMonotone(a, -2, l.k);
    }
  }

  lemma ZeroIsTiny(price: Rat, before: Convergent, last: Convergent, tail: Rat, i: int)
    requires price.num < 0 && i > 2 && 0 <= tail.den && NegativeReached(price, before, last, tail, i)
    requires IntegerPart(price) == -1 && Above(-1, last) == Convergent(1, 1)
    requires Stopped(Above(-1, before), Convergent(1, 1), tail.num, tail.den)
    ensures Tiny(price)
  {
    var y, b := FractionalPart(price), Above(-1, before);
    var u, v := tail.num, tail.den;
    assert b == Convergent(0, 1);
    assert y.num == u && y.den == u + v && price.num == -v;
    if u <= MAX_INT32 * v {
      assert Next(b, Convergent(1, 1), u / v) == Convergent(u / v, u / v + 1);
      QuotientBounds(u, v);
      MulMonotone(MAX_INT32, u / v, v);
    }
  }

  /** A negative price with a 32-bit denominator is hit exactly, since its fractional part is. */
  lemma NegativeExact(price: Rat, last: Convergent, p: int, q: int)
    requires 0 < price.den && 1 <= last.k <= MAX_INT32 && Denotes(price, p, q)
    requires BestApproximation(price, last.h, last.k)
    requires var a, y := IntegerPart(price), FractionalPart(price);
      (exists m, n :: RepresentedBy(y, m, n)) ==> RepresentedBy(y, last.h - a * last.k, last.k)
    ensures Denotes(price, last.h, last.k)
  {
    var a, y := IntegerPart(price), FractionalPart(price);
    FractionBelowOne(price);
    ShiftedEqual(price.num, price.den, a, last.h, last.k);
    if y.num == 0 {
      assert AtLeastAsClose(price, last.h, last.k, a, 1);
      ExactByClose(price.num * last.k - last.h * price.den);
    } else {
      ShiftedEqual(price.num, price.den, a, p, q);
      FractionParts(y.num, y.den, p - a * q, q);
      assert RepresentedBy(y, p - a * q, q);
    }
  }

  lemma UnimodularAbove(a: int, before: Convergent, last: Convergent)
    requires Unimodular(Above(a, before), Above(a, last))
    ensures Unimodular(before, last)
  {
    var h, k, m, n := last.h, last.k, before.h, before.k;
    assert (h - a * k) * n - (m - a * n) * k == h * n - m * k by {
      assert (a * k) * n == (a * n) * k;
    }
  }

  /** Any fraction equal to a convergent is a multiple of it, so its negative numerator is no greater. */
  lemma SameFraction(price: Rat, before: Convergent, last: Convergent, p: int, q: int)
    requires 0 < price.den && Unimodular(before, last) && last.h <= 0 && last.k >= 1
    requires Denotes(price, p, q) && Denotes(price, last.h, last.k)
    ensures p <= last.h
  {
    EqualFractions(price.num, price.den, p, q, last.h, last.k);
    var h, k, m, n := last.h, last.k, before.h, before.k;
    var d, g := h * n - m * k, p * n - m * q;
    BezoutMultiple(h, k, m, n, p, q);
    assert d == 1 || d == -1;
    var f := if d == 1 then g else -g;
    assert p == h * f && q == k * f by {
      assert d == 1 ==> p == h * g && q == k * g;
      assert d == -1 ==> p == h * -g && q == k * -g by {
        if d == -1 {
          assert p * -1 == h * g && q * -1 == k * g;
        }
      }
    }
    PositiveFactor(f, k);
    MulMonotone(1, f, -h);
  }

  lemma EqualFractions(num: int, den: int, p: int, q: int, h: int, k: int)
    requires den > 0 && p * den == num * q && h * den == num * k
    ensures p * k == h * q
  {
    assert (p * k) * den == (num * q) * k;
    assert (h * q) * den == (num * k) * q;
    assert (p * k - h * q) * den == 0;
  }

  lemma BezoutMultiple(h: int, k: int, m: int, n: int, p: int, q: int)
    requires p * k == h * q
    ensures p * (h * n - m * k) == h * (p * n - m * q)
    ensures q * (h * n - m * k) == k * (p * n - m * q)
  {
    assert p * (m * k) == m * (h * q);
    assert q * (h * n) == n * (p * k);
  }

  lemma ExactByClose(x: int)
    requires Abs(x) * 1 <= 0
    ensures x == 0
  {
  }

  lemma ShiftedEqual(num: int, den: int, a: int, p: int, q: int)
    ensures (p - a * q) * den == (num - a * den) * q <==> p * den == num * q
  {
    ShiftedDifference(num, den, a, p, q);
  }

  /** A fraction strictly between 0 and 1 has a numerator between 1 and its denominator. */
  lemma FractionParts(num: int, den: int, m: int, q: int)
    requires 0 < num < den && q >= 1 && m * den == num * q
    ensures 1 <= m <= q
  {
    MulNonNegative(num, q);
    MulMonotone(1, q, num);
    PositiveFactor(m, den);
    MulMonotone(num, den, q);
    MulOrder(m, q + 1, den);
  }

  lemma ConcludeNegative(price: Rat, before: Convergent, last: Convergent, tail: Rat, i: int)
    requires price.num < 0 && 0 < price.den && i >= 2 && 0 <= tail.den && NegativeReached(price, before, last, tail, i)
    requires Stopped(before, last, tail.num, tail.den)
    ensures last.h <= 0 && 1 <= last.k <= MAX_INT32
    ensures last.h == 0 <==> Tiny(price)
    ensures BestApproximation(price, last.h, last.k)
    ensures forall g, x, y :: g >= 1 && last == Convergent(g * x, g * y) ==> g == 1
    ensures (exists p, q :: Denotes(price, p, q)) <==> Denotes(price, last.h, last.k)
    ensures forall p, q :: Denotes(price, p, q) ==> p <= last.h
    ensures -price.den <= price.num ==> -last.k <= last.h
  {
    hide BestApproximation, Denotes;
    FractionBelowOne(price);
    var a, y := IntegerPart(price), FractionalPart(price);
    assert i > 2;
    var b, l := Above(a, before), Above(a, last);
    StoppedAbove(price, before, last, tail, i);
    Conclude(y, b, l, tail, i);
    ShiftedBest(price, last.h, last.k);
    MulMonotone(a, -1, last.k);
    forall g, x, z | g >= 1 && last == Convergent(g * x, g * z)
      ensures g == 1
    {
      ShiftedLowest(a, last, g, x, z);
    }
    forall p, q | Denotes(price, p, q)
      ensures Denotes(price, last.h, last.k) && p <= last.h
    {
      NegativeExact(price, last, p, q);
      UnimodularAbove(a, before, last);
      SameFraction(price, before, last, p, q);
    }
    if last.h == 0 {
      ZeroIsOne(a, l);
      assert l == Convergent(l.k * 1, l.k * 1);
      ZeroIsTiny(price, before, last, tail, i);
    }
    if Tiny(price) {
      TinyParts(price);
      if i == 3 {
        TinyGoesOn(price, before, last, tail);
      }
    }
    if -price.den <= price.num {
      QuotientUnique(price.num, price.den, -1);
    }
  }

  /** What the last convergent is worth, for a price of either sign. */
  lemma AnyConclude(price: Rat, before: Convergent, last: Convergent, tail: Rat, i: int)
    requires i >= 2 && 0 < price.den && 0 <= tail.den && AnyReached(price, before, last, tail, i)
    requires Stopped(before, last, tail.num, tail.den)
    ensures last.h == 0 || last.k == 0 <==> OutOfReach(price)
    ensures last.k != 0 ==> last.h <= MAX_INT32 && 1 <= last.k <= MAX_INT32
    ensures last.k != 0 && last.h != 0 ==> if price.num >= 0 then 1 <= last.h else last.h <= -1
    ensures last.k != 0 ==> BestApproximation(price, last.h, last.k)
    ensures last.k != 0 ==> forall g, x, y :: g >= 1 && last == Convergent(g * x, g * y) ==> g == 1
    ensures price.num >= 0 ==> ((exists p, q :: RepresentedBy(price, p, q)) <==> RepresentedBy(price, last.h, last.k))
    ensures price.num < 0 ==> ((exists p, q :: Denotes(price, p, q)) <==> Denotes(price, last.h, last.k))
    ensures price.num < 0 ==> forall p, q :: Denotes(price, p, q) ==> p <= last.h
    ensures -price.den <= price.num < 0 ==> -last.k <= last.h
  {
    hide BestApproximation, Reached, NegativeReached, Stopped;
    if price.num >= 0 {
      Conclude(price, before, last, tail, i);
    } else {
      ConcludeNegative(price, before, last, tail, i);
    }
  }

  // ---------- the price that is returned ----------

  /** Conversion of a numerator to a signed 32-bit integer. */
  function ToInt32(x: int): (r: int)
    ensures -MAX_INT32 - 1 <= r <= MAX_INT32
    ensures r == x <==> -MAX_INT32 - 1 <= x <= MAX_INT32
  {
    (x + MAX_INT32 + 1) % TWO_32 - MAX_INT32 - 1
  }

  /**
   * The parsed price: the fraction with its numerator cut to 32 bits, which loses nothing exactly when the
   * numerator is at least -2^31: always for a price of -1 or more, never for one of -2^31 - 1 or less. So a
   * negative price, too, is returned exactly if and only if it has any 32-bit form.
   */
  method Parse(price: Rat) returns (r: Result<Convergent, ParseError>, ghost exact: Convergent)
    requires 0 < price.den
    ensures r.Err? <==> OutOfReach(price)
    ensures r.Ok? ==> r.value == Convergent(ToInt32(exact.h), exact.k) && 1 <= exact.k <= MAX_INT32
    ensures r.Ok? ==> BestApproximation(price, exact.h, exact.k)
    ensures r.Ok? ==> forall g, x, y :: g >= 1 && exact == Convergent(g * x, g * y) ==> g == 1
    ensures r.Ok? && price.num < 0 ==> ((exists p, q :: Denotes(price, p, q)) <==> Denotes(price, exact.h, exact.k))
    ensures r.Ok? && price.num < 0 ==>
      (Denotes(price, r.value.h, r.value.k) <==> exists p, q :: Denotes(price, p, q) && p >= -MAX_INT32 - 1)
    ensures r.Ok? ==> (r.value == exact <==> exact.h >= -MAX_INT32 - 1)
    ensures r.Ok? && price.num >= -price.den ==> r.value == exact
    ensures r.Ok? && price.num <= -(MAX_INT32 + 2) * price.den ==> r.value != exact
  {
    hide BestApproximation, Denotes;
    var c := Approximate(price);
    match c {
      case Err(e) => r, exact := Err(e), Convergent(0, 0);
      case Ok(last) =>
        r, exact := Ok(Convergent(ToInt32(last.h), last.k)), last;
        if price.num <= -(MAX_INT32 + 2) * price.den {
          FarNegative(price, last.h, last.k);
        }
    }
  }

  /** The best approximation of a price at or below -2^31 - 1 is no closer to zero than that. */
  lemma FarNegative(price: Rat, h: int, k: int)
    requires 0 < price.den && k >= 1 && price.num <= -(MAX_INT32 + 2) * price.den
    requires BestApproximation(price, h, k)
    ensures h <= -(MAX_INT32 + 2)
  {
    var m := -(MAX_INT32 + 2);
    assert AtLeastAsClose(price, h, k, m, 1);
    MulMonotone(price.num, m * price.den, k);
    assert (m * price.den - price.num) * k == (m * k) * price.den - price.num * k;
    if h > m * k {
      StrictProduct(m * k, h, price.den);
    }
    MulMonotone(1, k, -m);
  }

  lemma StrictProduct(a: int, b: int, c: int)
    requires a < b && c > 0
    ensures a * c < b * c
  {
  }

  /** The price -2000000000.5 comes back positive. */
  method NegativePriceWraps() returns (r: Result<Convergent, ParseError>)
    ensures r == Ok(Convergent(294967295, 2))
  {
    hide BestApproximation;
    var price := Rat(-4000000001, 2);
    ghost var exact;
    r, exact := Parse(price);
    assert Denotes(price, -4000000001, 2);
    HalfInteger(exact);
  }

  lemma HalfInteger(c: Convergent)
    requires c.h * 2 == -4000000001 * c.k && c.k >= 1
    requires forall g, x, y :: g >= 1 && c == Convergent(g * x, g * y) ==> g == 1
    ensures c == Convergent(-4000000001, 2)
  {
    var m := c.k / 2;
    assert c.k == m * 2 && c.h == m * -4000000001;
    assert c == Convergent(m * -4000000001, m * 2);
  }
}
