/** What consuming a price-sorted list of offers in its order achieves (exp/orderbook/search.go, edges.go). */
module BestExecution {
  import opened Common
  import opened OrderBookTypes
  import opened PriceArithmetic
  import opened Venues
  import OrderLists

  /** The price of one unit of an offer. */
  function Rate(o: Offer): real
    requires ValidOffer(o)
  {
    o.price.n as real / o.price.d as real
  }

  function Sum(units: seq<int>): int {
    if units == [] then 0 else units[0] + Sum(units[1..])
  }

  /** What some units of an offer cost before any rounding. */
  function Unrounded(o: Offer, units: int): real
    requires ValidOffer(o)
  {
    units as real * Rate(o)
  }

  /** What `units[i]` units of each offer i cost before any rounding. */
  function Worth(offers: seq<Offer>, units: seq<int>): real
    requires ValidOffers(offers) && |units| == |offers|
  {
    if units == [] then 0.0 else Unrounded(offers[0], units[0]) + Worth(offers[1..], units[1..])
  }

  /** A way to buy from the offers: no offer sells more than its bound, an ignored one nothing. */
  ghost predicate Distribution(offers: seq<Offer>, ignore: Option<string>, units: seq<int>)
    requires ValidOffers(offers)
  {
    |units| == |offers| && forall i :: 0 <= i < |offers| ==> 0 <= units[i] <= Bound(offers[i], ignore)
  }

  /** The units that the fills take from each offer of a list of n. */
  function UnitsOf(fills: Fills, n: nat): (units: seq<int>)
    requires |fills| <= n
    ensures |units| == n
    ensures forall i :: 0 <= i < n ==> units[i] == if i < |fills| then fills[i].selling else 0
  {
    seq(n, i requires 0 <= i < n => if i < |fills| then fills[i].selling else 0)
  }

  lemma {:induction false} SumOfFills(fills: Fills, n: nat)
    requires |fills| <= n
    ensures Sum(UnitsOf(fills, n)) == TotalSelling(fills)
  {
    if n > 0 {
      if fills == [] {
        assert UnitsOf(fills, n)[1..] == UnitsOf(fills, n - 1);
        SumOfFills(fills, n - 1);
      } else {
        assert UnitsOf(fills, n)[1..] == UnitsOf(fills[1..], n - 1);
        SumOfFills(fills[1..], n - 1);
      }
    }
  }

  lemma RatesOrdered(p: Offer, q: Offer)
    requires ValidOffer(p) && ValidOffer(q) && !Cheaper(q.price, p.price)
    ensures Rate(p) <= Rate(q)
  {
    var a, b, c, d := p.price.n as real, p.price.d as real, q.price.n as real, q.price.d as real;
    assert a * d <= c * b by {
      assert (p.price.n * q.price.d) as real <= (q.price.n * p.price.d) as real;
    }
    QuotientsOrdered(a, b, c, d);
  }

  lemma QuotientsOrdered(a: real, b: real, c: real, d: real)
    requires b > 0.0 && d > 0.0 && a * d <= c * b
    ensures a / b <= c / d
  {
    var x, y := a / b, c / d;
    assert x * b == a && y * d == c;
    assert b * d > 0.0;
    assert x * (b * d) == a * d && y * (b * d) == c * b;
    ReflectsOrder(x, y, b * d);
  }

  lemma RealMonotone(a: real, b: real, d: real)
    requires a <= b && d > 0.0
    ensures a * d <= b * d
    ensures a < b ==> a * d < b * d
  {
  }

  lemma ReflectsOrder(a: real, b: real, d: real)
    requires d > 0.0
    ensures a * d <= b * d ==> a <= b
    ensures a * d < b * d ==> a < b
  {
    if b <= a {
      RealMonotone(b, a, d);
    }
  }

  /** An amount that exceeds another only where units are no cheaper than `rate`. */
  ghost predicate Leans(offers: seq<Offer>, more: seq<int>, less: seq<int>, rate: real, i: int)
    requires ValidOffers(offers) && |more| == |less| == |offers| && 0 <= i < |offers|
  {
    || (more[i] >= less[i] && Rate(offers[i]) >= rate)
    || (more[i] <= less[i] && Rate(offers[i]) <= rate)
  }

  lemma LeanTerm(o: Offer, more: int, less: int, rate: real)
    requires ValidOffer(o) && ((more >= less && Rate(o) >= rate) || (more <= less && Rate(o) <= rate))
    ensures Unrounded(o, more) - Unrounded(o, less) >= rate * ((more - less) as real)
  {
    var r, k := Rate(o), (more - less) as real;
    assert more as real * r - less as real * r == k * r;
    assert k * (r - rate) >= 0.0;
    assert k * r - k * rate == k * (r - rate);
  }

  /** Moving units towards dearer offers costs at least `rate` for each unit gained. */
  lemma {:induction false} ExchangeCosts(offers: seq<Offer>, more: seq<int>, less: seq<int>, rate: real)
    requires ValidOffers(offers) && |more| == |less| == |offers|
    requires forall i :: 0 <= i < |offers| ==> Leans(offers, more, less, rate, i)
    ensures Worth(offers, more) - Worth(offers, less) >= rate * ((Sum(more) - Sum(less)) as real)
    decreases |offers|
  {
    hide Rate, Unrounded, Leans;
    if offers != [] {
      var o, m, l := offers[1..], more[1..], less[1..];
      forall i | 0 <= i < |o|
        ensures Leans(o, m, l, rate, i)
      {
        LeansLater(offers, more, less, rate, i);
      }
      ExchangeCosts(o, m, l, rate);
      LeansFirst(offers, more, less, rate);
      var first := Unrounded(offers[0], more[0]) - Unrounded(offers[0], less[0]);
      AddUp(first, Worth(o, m) - Worth(o, l), rate, more[0] - less[0], Sum(m) - Sum(l));
    }
  }

  lemma LeansLater(offers: seq<Offer>, more: seq<int>, less: seq<int>, rate: real, i: nat)
    requires ValidOffers(offers) && |more| == |less| == |offers| && i + 1 < |offers|
    requires Leans(offers, more, less, rate, i + 1)
    ensures Leans(offers[1..], more[1..], less[1..], rate, i)
  {
  }

  lemma LeansFirst(offers: seq<Offer>, more: seq<int>, less: seq<int>, rate: real)
    requires ValidOffers(offers) && |more| == |less| == |offers| > 0 && Leans(offers, more, less, rate, 0)
    ensures Unrounded(offers[0], more[0]) - Unrounded(offers[0], less[0]) >= rate * ((more[0] - less[0]) as real)
  {
    LeanTerm(offers[0], more[0], less[0], rate);
  }

  lemma AddUp(x: real, y: real, rate: real, a: int, b: int)
    requires x >= rate * (a as real) && y >= rate * (b as real)
    ensures x + y >= rate * ((a + b) as real)
  {
    Distribute(rate, a, b);
  }

  lemma Distribute(rate: real, a: int, b: int)
    ensures rate * ((a + b) as real) == rate * (a as real) + rate * (b as real)
  {
    assert (a + b) as real == a as real + b as real;
  }

  /** Fills that exhaust the cheaper offers lean away from every other distribution. */
  lemma GreedyLeans(offers: seq<Offer>, ignore: Option<string>, fills: Fills, other: seq<int>)
    requires ValidOffers(offers) && OrderLists.Sorted(offers) && 0 < |fills| <= |offers|
    requires forall i :: 0 <= i < |fills| - 1 ==> fills[i].selling == Bound(offers[i], ignore)
    requires Distribution(offers, ignore, other)
    ensures var units, rate := UnitsOf(fills, |offers|), Rate(offers[|fills|-1]);
      forall i :: 0 <= i < |offers| ==> Leans(offers, other, units, rate, i)
  {
    hide Rate, Bound, Cheaper;
    var last := |fills| - 1;
    var units, rate := UnitsOf(fills, |offers|), Rate(offers[last]);
    forall i | 0 <= i < |offers|
      ensures Leans(offers, other, units, rate, i)
    {
      if i < last {
        RatesOrdered(offers[i], offers[last]);
      } else if i > last {
        RatesOrdered(offers[last], offers[i]);
      }
    }
  }

  /** A rounded-up charge exceeds the worth of its units by less than one. */
  lemma ChargeWithin(o: Offer, units: int)
    requires ValidOffer(o)
    ensures var worth, charge := Unrounded(o, units), Ceil(units, o.price.n, o.price.d) as real;
      worth <= charge < worth + 1.0
  {
    hide Ceil;
    var n, d, c := o.price.n, o.price.d, Ceil(units, o.price.n, o.price.d);
    CeilBounds(units, n, d);
    assert (units * n) as real <= (c * d) as real < (units * n + d) as real;
    DivideThrough(units as real, n as real, d as real, c as real);
  }

  lemma DivideThrough(x: real, n: real, d: real, c: real)
    requires d > 0.0 && x * n <= c * d < x * n + d
    ensures x * (n / d) <= c < x * (n / d) + 1.0
  {
    var r := n / d;
    assert r * d == n;
    assert x * n == (x * r) * d;
    ReflectsOrder(x * r, c, d);
    ReflectsOrder(c, x * r + 1.0, d);
  }

  lemma NothingCostsNothing(o: Offer)
    requires ValidOffer(o)
    ensures Unrounded(o, 0) == 0.0
  {
  }

  /** Fills charged at their rounded-up price cost less than one unit each above their worth. */
  lemma {:induction false} ChargesWithin(offers: seq<Offer>, fills: Fills)
    requires ValidOffers(offers) && |fills| <= |offers|
    requires forall i :: 0 <= i < |fills| ==>
      fills[i].buying == Ceil(fills[i].selling, offers[i].price.n, offers[i].price.d)
    ensures var worth := Worth(offers, UnitsOf(fills, |offers|));
      worth <= TotalBuying(fills) as real <= worth + |fills| as real
    decreases |offers|
  {
    hide Rate, Unrounded, Ceil;
    if offers != [] {
      if fills == [] {
        assert UnitsOf(fills, |offers|)[1..] == UnitsOf(fills, |offers| - 1);
        NothingCostsNothing(offers[0]);
        ChargesWithin(offers[1..], fills);
      } else {
        assert UnitsOf(fills, |offers|)[1..] == UnitsOf(fills[1..], |offers| - 1);
        ChargeWithin(offers[0], fills[0].selling);
        ChargesWithin(offers[1..], fills[1..]);
      }
    }
  }

  /**
   * On a list sorted by price, strict receive is the cheapest way to buy: no other distribution of the
   * same units is worth less, and the charge exceeds the cheapest worth by at most one unit a fill.
   */
  lemma CheapestFirst(offers: seq<Offer>, ignore: Option<string>, need: int, other: seq<int>)
    requires ValidOffers(offers) && OrderLists.Sorted(offers) && 0 < need <= MAX_INT64
    requires Take(offers, ignore, need).Some?
    requires Distribution(offers, ignore, other) && Sum(other) == need
    ensures var fills := Take(offers, ignore, need).value;
      && |fills| <= |offers|
      && Distribution(offers, ignore, UnitsOf(fills, |offers|)) && Sum(UnitsOf(fills, |offers|)) == need
      && Worth(offers, UnitsOf(fills, |offers|)) <= Worth(offers, other)
      && TotalBuying(fills) as real <= Worth(offers, other) + |fills| as real
  {
    hide Take, Worth, Rate, Unrounded, SellingBound, Ceil;
    var fills := Take(offers, ignore, need).value;
    TakeDelivers(offers, ignore, need);
    TakeGreedy(offers, ignore, need);
    SumOfFills(fills, |offers|);
    BoundsNonNegative(offers, ignore);
    GreedyLeans(offers, ignore, fills, other);
    ExchangeCosts(offers, other, UnitsOf(fills, |offers|), Rate(offers[|fills|-1]));
    ChargesWithin(offers, fills);
  }

  lemma BoundsNonNegative(offers: seq<Offer>, ignore: Option<string>)
    requires ValidOffers(offers)
    ensures forall i :: 0 <= i < |offers| ==> Bound(offers[i], ignore) >= 0
  {
    hide SellingBound;
    forall i | 0 <= i < |offers|
      ensures Bound(offers[i], ignore) >= 0
    {
      SellingBoundWithinAmount(offers[i].amount, offers[i].price.n, offers[i].price.d);
    }
  }

  // ---------- strict send ----------

  /** The last fill of strict send spends less than one unit's price, or less than one unit, too much. */
  lemma LastWithin(o: Offer, rest: int, c: Conversion)
    requires ValidOffer(o) && LastFill(o, rest, c)
    ensures c.buying as real <= Unrounded(o, c.selling) + 1.0 + Rate(o)
  {
    hide Ceil, SellingBound;
    var n, d := o.price.n as real, o.price.d as real;
    assert Rate(o) > 0.0 by {
      ReflectsOrder(0.0, n / d, d);
    }
    if BuysMore(o, rest) {
      ChargeWithin(o, c.selling);
    } else {
      var r, more := rest as real, (c.selling + 1) as real;
      assert r * d < more * n by {
        assert (rest * o.price.d) as real < ((c.selling + 1) * o.price.n) as real;
      }
      MoreUnitsWorth(r, more, n, d);
      assert more * Rate(o) == c.selling as real * Rate(o) + Rate(o);
    }
  }

  lemma MoreUnitsWorth(r: real, x: real, n: real, d: real)
    requires d > 0.0 && r * d < x * n
    ensures r < x * (n / d)
  {
    var q := n / d;
    assert q * d == n;
    assert x * n == (x * q) * d;
    ReflectsOrder(r, x * q, d);
  }

  /** What strict send spends exceeds the worth of what it buys by at most one unit a fill and one unit bought. */
  lemma {:induction false} SpentWithin(offers: seq<Offer>, fills: Fills)
    requires ValidOffers(offers) && 0 < |fills| <= |offers|
    requires forall i :: 0 <= i < |fills| - 1 ==> fills[i] == WholeFill(offers[i])
    requires var last := |fills| - 1;
      fills[last].buying as real <= Unrounded(offers[last], fills[last].selling) + 1.0 + Rate(offers[last])
    ensures TotalBuying(fills) as real
            <= Worth(offers, UnitsOf(fills, |offers|)) + |fills| as real + Rate(offers[|fills|-1])
    decreases |offers|
  {
    hide Rate, Unrounded, Ceil, SellingBound;
    assert UnitsOf(fills, |offers|)[1..] == UnitsOf(fills[1..], |offers| - 1);
    if |fills| == 1 {
      ChargesWithin(offers[1..], fills[1..]);
    } else {
      ChargeWithin(offers[0], fills[0].selling);
      assert fills[1..][|fills|-2] == fills[|fills|-1] && offers[1..][|fills|-2] == offers[|fills|-1];
      SpentWithin(offers[1..], fills[1..]);
    }
  }

  lemma WholeIsBound(offers: seq<Offer>, fills: Fills)
    requires ValidOffers(offers) && |fills| <= |offers|
    requires forall i :: 0 <= i < |fills| - 1 ==> fills[i] == WholeFill(offers[i])
    ensures forall i :: 0 <= i < |fills| - 1 ==> fills[i].selling == Bound(offers[i], None)
  {
  }

  lemma UnitsGained(rate: real, gained: int, slack: real)
    requires rate * (gained as real) <= slack + rate
    ensures rate * ((gained - 1) as real) <= slack
  {
    Distribute(rate, gained - 1, 1);
  }

  /**
   * On a list sorted by price, strict send buys nearly the most: another distribution that the amount
   * pays for at unrounded prices gives at most one unit more, and what a unit of each fill's rounding buys.
   */
  lemma MostForTheMoney(offers: seq<Offer>, amount: int, other: seq<int>)
    requires ValidOffers(offers) && OrderLists.Sorted(offers) && 0 < amount <= MAX_INT64
    requires Spend(offers, amount).Some?
    requires Distribution(offers, None, other) && Worth(offers, other) <= amount as real
    ensures var fills := Spend(offers, amount).value;
      && 0 < |fills| <= |offers|
      && Rate(offers[|fills|-1]) * ((Sum(other) - TotalSelling(fills) - 1) as real) <= |fills| as real
  {
    hide Spend, Worth, Rate, Unrounded, SellingBound, Ceil, LastFill, WholeFill, MoneyLeft, BuysMore, Passed;
    hide TotalBuying, TotalSelling, Sum, Leans, OrderLists.Sorted;
    var fills := Spend(offers, amount).value;
    SpendConserves(offers, amount);
    SpendGreedy(offers, amount);
    var last := |fills| - 1;
    var rate := Rate(offers[last]);
    SumOfFills(fills, |offers|);
    WholeIsBound(offers, fills);
    GreedyLeans(offers, None, fills, other);
    ExchangeCosts(offers, other, UnitsOf(fills, |offers|), rate);
    LastWithin(offers[last], MoneyLeft(offers, amount, last), fills[last]);
    SpentWithin(offers, fills);
    UnitsGained(rate, Sum(other) - TotalSelling(fills), |fills| as real);
  }
}
