/** Consuming the offers and the pool of one edge (exp/orderbook/search.go, utils.go). */
module Venues {
  import opened Common
  import opened Arithmetic
  import opened OrderBookTypes
  import opened PriceArithmetic
  import opened Pools

  datatype SearchError = EmptyOffers | AssetAmountIsZero | SoldTooMuch | Arithmetic(error: ArithmeticError)

  /** A Go pair (amount, error): the amount is also read when the error is ignored. */
  datatype Consumed = Consumed(amount: int, error: Option<SearchError>)

  /** What was taken from a list of offers, one conversion per offer visited. */
  type Fills = seq<Conversion>

  function TotalSelling(fills: Fills): int {
    if fills == [] then 0 else fills[0].selling + TotalSelling(fills[1..])
  }

  function TotalBuying(fills: Fills): int {
    if fills == [] then 0 else fills[0].buying + TotalBuying(fills[1..])
  }

  function Prepend(c: Conversion, rest: Option<Fills>): Option<Fills> {
    if rest.None? then None else Some([c] + rest.value)
  }

  predicate ValidOffers(offers: seq<Offer>) {
    forall i :: 0 <= i < |offers| ==> ValidOffer(offers[i])
  }

  lemma WrapAccumulates(a: int, b: int)
    ensures Wrap64(Wrap64(a) + b) == Wrap64(a + b)
  {
    var x := a + MAX_INT64 + 1;
    QuotientBounds(x, TWO_64);
    assert x % TWO_64 == x - TWO_64 * (x / TWO_64);
    ModShift(a + b + MAX_INT64 + 1, -(x / TWO_64));
  }

  lemma {:induction false} ModShift(x: int, k: int)
    ensures (x + TWO_64 * k) % TWO_64 == x % TWO_64
  {
    var y := x + TWO_64 * k;
    assert y - x == TWO_64 * (y / TWO_64 - x / TWO_64) + (y % TWO_64 - x % TWO_64);
  }

  // ---------- strict receive: take exactly `need` units from the offers ----------

  predicate Ignored(ignore: Option<string>, o: Offer) {
    ignore == Some(o.seller)
  }

  /** The fills that deliver `need` units, cheapest offer first; None when they run out or overflow. */
  function Take(offers: seq<Offer>, ignore: Option<string>, need: int): Option<Fills>
    requires ValidOffers(offers) && 0 < need <= MAX_INT64
    decreases |offers|
  {
    if offers == [] then None
    else if Ignored(ignore, offers[0]) then Prepend(Conversion(0, 0), Take(offers[1..], ignore, need))
    else
      ConversionExact(offers[0].amount, need, offers[0].price.n, offers[0].price.d);
      match ConvertToBuyingUnits(offers[0].amount, need, offers[0].price.n, offers[0].price.d)
      case Err(_) => None
      case Ok(c) =>
        if c.selling == need then Some([c]) else Prepend(c, Take(offers[1..], ignore, need - c.selling))
  }

  method ConsumeOffersForSellingAsset(offers: seq<Offer>, ignore: Option<string>,
                                      assetAmount: int) returns (r: Consumed)
    requires ValidOffers(offers) && 0 <= assetAmount <= MAX_INT64
    ensures r == SellingOutcome(offers, ignore, assetAmount)
  {
    hide ConvertToBuyingUnits, SellingBound, Ceil, Wrap64;
    if |offers| == 0 {
      return Consumed(0, Some(EmptyOffers));
    }
    if assetAmount == 0 {
      return Consumed(0, Some(AssetAmountIsZero));
    }
    var currentAssetAmount := assetAmount;
    var totalConsumed := 0;
    ghost var done: Fills := [];
    assert offers[0..] == offers;
    PrependNone(Take(offers, ignore, assetAmount));
    for i := 0 to |offers|
      invariant 0 < currentAssetAmount <= MAX_INT64
      invariant totalConsumed == Wrap64(TotalBuying(done))
      invariant Take(offers, ignore, assetAmount) == PrependAll(done, Take(offers[i..], ignore, currentAssetAmount))
    {
      assert offers[i..][0] == offers[i] && offers[i..][1..] == offers[i+1..];
      if Ignored(ignore, offers[i]) {
        PrependNext(done, Conversion(0, 0), Take(offers[i+1..], ignore, currentAssetAmount));
        TotalsAppend(done, Conversion(0, 0));
        done := done + [Conversion(0, 0)];
        continue;
      }
      ConversionExact(offers[i].amount, currentAssetAmount, offers[i].price.n, offers[i].price.d);
      var c := ConvertToBuyingUnits(offers[i].amount, currentAssetAmount, offers[i].price.n, offers[i].price.d);
      match c {
        case Err(Overflow) => return Consumed(-1, None);
        case Err(e) => return Consumed(-1, Some(Arithmetic(e)));
        case Ok(_) =>
      }
      WrapAccumulates(TotalBuying(done), c.value.buying);
      TotalsAppend(done, c.value);
      totalConsumed := Wrap64(totalConsumed + c.value.buying);
      if currentAssetAmount == c.value.selling {
        PrependAllSome(done, [c.value]);
      } else {
        PrependNext(done, c.value, Take(offers[i+1..], ignore, currentAssetAmount - c.value.selling));
      }
      done := done + [c.value];
      currentAssetAmount := currentAssetAmount - c.value.selling;
      if currentAssetAmount == 0 {
        return Consumed(totalConsumed, None);
      }
      if currentAssetAmount < 0 {
        return Consumed(-1, Some(SoldTooMuch));
      }
    }
    r := Consumed(-1, None);
  }

  function PrependAll(done: Fills, rest: Option<Fills>): Option<Fills> {
    if rest.None? then None else Some(done + rest.value)
  }

  lemma PrependNext(done: Fills, c: Conversion, rest: Option<Fills>)
    ensures PrependAll(done, Prepend(c, rest)) == PrependAll(done + [c], rest)
  {
    if rest.Some? {
      assert done + ([c] + rest.value) == (done + [c]) + rest.value;
    }
  }

  lemma PrependNone(rest: Option<Fills>)
    ensures PrependAll([], rest) == rest
  {
    if rest.Some? {
      assert [] + rest.value == rest.value;
    }
  }

  lemma PrependAllSome(done: Fills, fills: Fills)
    ensures PrependAll(done, Some(fills)) == Some(done + fills)
  {
  }

  lemma {:induction false} TotalsAppend(fills: Fills, c: Conversion)
    ensures TotalBuying(fills + [c]) == TotalBuying(fills) + c.buying
    ensures TotalSelling(fills + [c]) == TotalSelling(fills) + c.selling
  {
    if fills == [] {
      assert fills + [c] == [c];
    } else {
      assert (fills + [c])[1..] == fills[1..] + [c];
      TotalsAppend(fills[1..], c);
    }
  }

  /** The cost of the fills, with int64 wrap-around; -1 when there are none. */
  function SellingOutcome(offers: seq<Offer>, ignore: Option<string>, amount: int): Consumed
    requires ValidOffers(offers) && 0 <= amount <= MAX_INT64
  {
    if |offers| == 0 then Consumed(0, Some(EmptyOffers))
    else if amount == 0 then Consumed(0, Some(AssetAmountIsZero))
    else
      match Take(offers, ignore, amount)
      case None => Consumed(-1, None)
      case Some(fills) => Consumed(Wrap64(TotalBuying(fills)), None)
  }

  /** No offer gives more than it has or goes below its price; the buyer overpays by less than one unit a fill. */
  ghost predicate FairFill(o: Offer, c: Conversion) {
    && 0 <= c.selling <= o.amount && 0 <= c.buying
    && c.selling * o.price.n <= c.buying * o.price.d < c.selling * o.price.n + o.price.d
  }

  /** Strict receive delivers exactly the requested units, from fair fills, and nothing from an ignored seller. */
  lemma {:induction false} TakeDelivers(offers: seq<Offer>, ignore: Option<string>, need: int)
    requires ValidOffers(offers) && 0 < need <= MAX_INT64
    ensures var fills := Take(offers, ignore, need);
            fills.Some? ==>
              && |fills.value| <= |offers|
              && TotalSelling(fills.value) == need
              && (forall i :: 0 <= i < |fills.value| ==> FairFill(offers[i], fills.value[i]))
              && (forall i :: 0 <= i < |fills.value| && Ignored(ignore, offers[i]) ==>
                fills.value[i] == Conversion(0, 0))
    decreases |offers|
  {
    hide ConvertToBuyingUnits, SellingBound, Ceil;
    if offers != [] {
      var o := offers[0];
      if Ignored(ignore, o) {
        TakeDelivers(offers[1..], ignore, need);
      } else {
        ConversionExact(o.amount, need, o.price.n, o.price.d);
        var c := ConvertToBuyingUnits(o.amount, need, o.price.n, o.price.d);
        if c.Ok? && c.value.selling != need {
          TakeDelivers(offers[1..], ignore, need - c.value.selling);
        }
      }
    }
  }

  /** Everything the offers could sell: the rounding-corrected amounts of the sellers that count. */
  function Capacity(offers: seq<Offer>, ignore: Option<string>): int
    requires ValidOffers(offers)
  {
    if offers == [] then 0 else
    (if Ignored(ignore, offers[0]) then 0 else SellingBound(offers[0].amount, offers[0].price.n, offers[0].price.d))
    + Capacity(offers[1..], ignore)
  }

  /** No fill towards `need` can cost more than an int64 holds. */
  ghost predicate CostsFit(offers: seq<Offer>, need: int)
    requires ValidOffers(offers)
  {
    forall i :: 0 <= i < |offers| ==>
      Ceil(Min(offers[i].amount, need), offers[i].price.n, offers[i].price.d) <= MAX_INT64
  }

  lemma CeilMonotone(x: int, y: int, n: int, d: int)
    requires 0 <= x <= y && n > 0 && d > 0
    ensures Ceil(x, n, d) <= Ceil(y, n, d)
  {
    CeilBounds(y, n, d);
    MulMonotone(x, y, n);
    CeilLeast(x, n, d, Ceil(y, n, d));
  }

  lemma CostsStillFit(offers: seq<Offer>, need: int, less: int)
    requires |offers| > 0 && ValidOffers(offers) && CostsFit(offers, need) && 0 < less <= need
    ensures CostsFit(offers[1..], less)
  {
    hide Ceil;
    forall i | 0 <= i < |offers[1..]|
      ensures Ceil(Min(offers[1..][i].amount, less), offers[1..][i].price.n, offers[1..][i].price.d) <= MAX_INT64
    {
      var p := offers[i+1];
      CeilMonotone(Min(p.amount, less), Min(p.amount, need), p.price.n, p.price.d);
    }
  }

  lemma {:induction false} CapacityNonNegative(offers: seq<Offer>, ignore: Option<string>)
    requires ValidOffers(offers)
    ensures Capacity(offers, ignore) >= 0
  {
    if offers != [] {
      SellingBoundWithinAmount(offers[0].amount, offers[0].price.n, offers[0].price.d);
      CapacityNonNegative(offers[1..], ignore);
    }
  }

  /** Strict receive succeeds exactly when the offers can sell that much. */
  lemma {:induction false} CapacityDecides(offers: seq<Offer>, ignore: Option<string>, need: int)
    requires ValidOffers(offers) && 0 < need <= MAX_INT64 && CostsFit(offers, need)
    ensures Take(offers, ignore, need).Some? <==> need <= Capacity(offers, ignore)
    decreases |offers|
  {
    hide ConvertToBuyingUnits, SellingBound, Ceil;
    if offers != [] {
      var o := offers[0];
      CapacityNonNegative(offers[1..], ignore);
      if Ignored(ignore, o) {
        CapacityDecides(offers[1..], ignore, need);
      } else {
        ConversionExact(o.amount, need, o.price.n, o.price.d);
        SellingBoundWithinAmount(o.amount, o.price.n, o.price.d);
        var selling := Min(SellingBound(o.amount, o.price.n, o.price.d), need);
        CeilMonotone(selling, Min(o.amount, need), o.price.n, o.price.d);
        if selling != need {
          CostsStillFit(offers, need, need - selling);
          CapacityDecides(offers[1..], ignore, need - selling);
        }
      }
    }
  }

  // ---------- strict receive is greedy ----------

  /** The most an offer sells: its rounding-corrected amount, or nothing when its seller is ignored. */
  function Bound(o: Offer, ignore: Option<string>): int
    requires ValidOffer(o)
  {
    if Ignored(ignore, o) then 0 else SellingBound(o.amount, o.price.n, o.price.d)
  }

  /** Buying all that is left of `need` at offer i would cost more than an int64 holds. */
  ghost predicate OverflowsAt(offers: seq<Offer>, ignore: Option<string>, need: int, i: int)
    requires ValidOffers(offers) && 0 <= i < |offers|
  {
    var left := need - Capacity(offers[..i], ignore);
    && left > 0
    && Ceil(Min(Bound(offers[i], ignore), left), offers[i].price.n, offers[i].price.d) > MAX_INT64
  }

  /** Every offer before the last fill is exhausted, and each fill is charged its price rounded up. */
  ghost predicate GreedyFills(offers: seq<Offer>, ignore: Option<string>, fills: Fills)
    requires ValidOffers(offers) && 0 < |fills| <= |offers|
  {
    && (forall i :: 0 <= i < |fills| - 1 ==> fills[i].selling == Bound(offers[i], ignore))
    && 0 < fills[|fills|-1].selling <= Bound(offers[|fills|-1], ignore)
    && (forall i :: 0 <= i < |fills| ==>
        fills[i].buying == Ceil(fills[i].selling, offers[i].price.n, offers[i].price.d))
  }

  lemma CeilOfZero(n: int, d: int)
    requires d > 0
    ensures Ceil(0, n, d) == 0
  {
    CeilLeast(0, n, d, 0);
    CeilBounds(0, n, d);
    MulOrder(-1, Ceil(0, n, d), d);
  }

  /** One step of strict receive at an offer that counts. */
  lemma TakeStep(o: Offer, need: int)
    requires ValidOffer(o) && 0 < need <= MAX_INT64
    ensures var selling := Min(SellingBound(o.amount, o.price.n, o.price.d), need);
      var cost := Ceil(selling, o.price.n, o.price.d);
      && 0 <= selling
      && ConvertToBuyingUnits(o.amount, need, o.price.n, o.price.d)
         == if cost <= MAX_INT64 then Ok(Conversion(cost, selling)) else Err(Overflow)
  {
    ConversionExact(o.amount, need, o.price.n, o.price.d);
    SellingBoundWithinAmount(o.amount, o.price.n, o.price.d);
  }

  /** Strict receive takes the offers in their order, each to exhaustion before the next one is touched. */
  lemma {:induction false} TakeGreedy(offers: seq<Offer>, ignore: Option<string>, need: int)
    requires ValidOffers(offers) && 0 < need <= MAX_INT64
    ensures var fills := Take(offers, ignore, need);
      fills.Some? ==> 0 < |fills.value| <= |offers| && GreedyFills(offers, ignore, fills.value)
    decreases |offers|
  {
    hide ConvertToBuyingUnits, SellingBound, Ceil;
    if offers != [] {
      var o := offers[0];
      if Ignored(ignore, o) {
        CeilOfZero(o.price.n, o.price.d);
        TakeGreedy(offers[1..], ignore, need);
      } else {
        TakeStep(o, need);
        var c := ConvertToBuyingUnits(o.amount, need, o.price.n, o.price.d);
        if c.Ok? && c.value.selling != need {
          TakeGreedy(offers[1..], ignore, need - c.value.selling);
        }
      }
    }
  }

  lemma CapacityFirst(offers: seq<Offer>, ignore: Option<string>, i: nat)
    requires ValidOffers(offers) && i < |offers|
    ensures Capacity(offers[..i+1], ignore) == Bound(offers[0], ignore) + Capacity(offers[1..][..i], ignore)
  {
    assert offers[..i+1][1..] == offers[1..][..i];
  }

  lemma OverflowsNext(offers: seq<Offer>, ignore: Option<string>, need: int, i: nat)
    requires ValidOffers(offers) && i + 1 < |offers|
    ensures OverflowsAt(offers, ignore, need, i + 1)
            <==> OverflowsAt(offers[1..], ignore, need - Bound(offers[0], ignore), i)
  {
    hide SellingBound, Ceil;
    CapacityFirst(offers, ignore, i);
    assert offers[1..][i] == offers[i+1];
  }

  ghost predicate OverflowsSomewhere(offers: seq<Offer>, ignore: Option<string>, need: int)
    requires ValidOffers(offers)
  {
    exists i :: 0 <= i < |offers| && OverflowsAt(offers, ignore, need, i)
  }

  lemma OverflowsFirstOrLater(offers: seq<Offer>, ignore: Option<string>, need: int)
    requires ValidOffers(offers) && |offers| > 0
    ensures OverflowsSomewhere(offers, ignore, need)
            <==> OverflowsAt(offers, ignore, need, 0)
                 || OverflowsSomewhere(offers[1..], ignore, need - Bound(offers[0], ignore))
  {
    hide OverflowsAt, Bound;
    var left := need - Bound(offers[0], ignore);
    if OverflowsSomewhere(offers, ignore, need) {
      var i :| 0 <= i < |offers| && OverflowsAt(offers, ignore, need, i);
      if i > 0 {
        OverflowsNext(offers, ignore, need, i - 1);
      }
    }
    if OverflowsSomewhere(offers[1..], ignore, left) {
      var i :| 0 <= i < |offers[1..]| && OverflowsAt(offers[1..], ignore, left, i);
      OverflowsNext(offers, ignore, need, i);
    }
  }

  /** Nothing left to buy overflows nowhere. */
  lemma NothingLeftNoOverflow(offers: seq<Offer>, ignore: Option<string>, need: int)
    requires ValidOffers(offers) && need <= 0
    ensures !OverflowsSomewhere(offers, ignore, need)
  {
    hide SellingBound, Ceil;
    forall i | 0 <= i < |offers|
      ensures !OverflowsAt(offers, ignore, need, i)
    {
      CapacityNonNegative(offers[..i], ignore);
    }
  }

  /** Strict receive fails exactly when the offers sell too little or an offer on the way costs too much. */
  lemma {:induction false} TakeFails(offers: seq<Offer>, ignore: Option<string>, need: int)
    requires ValidOffers(offers) && 0 < need <= MAX_INT64
    ensures Take(offers, ignore, need).None?
            <==> need > Capacity(offers, ignore) || OverflowsSomewhere(offers, ignore, need)
    decreases |offers|
  {
    hide ConvertToBuyingUnits, SellingBound, Ceil, OverflowsSomewhere;
    if offers == [] {
      assert Capacity(offers, ignore) == 0;
    } else {
      var o, rest := offers[0], offers[1..];
      OverflowsFirstOrLater(offers, ignore, need);
      CapacityNonNegative(rest, ignore);
      assert offers[..0] == [];
      CeilOfZero(o.price.n, o.price.d);
      if Ignored(ignore, o) {
        TakeFails(rest, ignore, need);
      } else {
        TakeStep(o, need);
        var selling := Min(Bound(o, ignore), need);
        if selling == need {
          NothingLeftNoOverflow(rest, ignore, need - Bound(o, ignore));
        } else {
          TakeFails(rest, ignore, need - selling);
        }
      }
    }
  }

  // ---------- strict send: spend exactly `amount` units on the offers ----------

  /** The fills that spend `amount`, cheapest offer first; None when the offers or the money run out. */
  function Spend(offers: seq<Offer>, amount: int): Option<Fills>
    requires ValidOffers(offers) && 0 < amount <= MAX_INT64
    decreases |offers|
  {
    if offers == [] then None else
    var o := offers[0];
    var sold := MulFractionRoundDown(amount, o.price.d, o.price.n);
    if sold.Ok? && sold.value == 0 then None
    else if sold.Ok? && sold.value <= o.amount then Some([Conversion(amount, sold.value)])
    else
      WholeOfferAffordable(o, amount);
      match ConvertToBuyingUnits(o.amount, o.amount, o.price.n, o.price.d)
      case Err(_) => None
      case Ok(c) => if c.buying == amount then Some([c]) else Prepend(c, Spend(offers[1..], amount - c.buying))
  }

  /** An offer too small for the money at hand costs no more than that money. */
  lemma WholeOfferAffordable(o: Offer, amount: int)
    requires ValidOffer(o) && 0 < amount <= MAX_INT64
    requires var sold := MulFractionRoundDown(amount, o.price.d, o.price.n); sold.Ok? ==> sold.value > o.amount
    ensures ConvertToBuyingUnits(o.amount, o.amount, o.price.n, o.price.d).Ok?
    ensures var c := ConvertToBuyingUnits(o.amount, o.amount, o.price.n, o.price.d).value;
            0 <= c.buying <= amount && FairFill(o, c)
  {
    ConversionExact(o.amount, o.amount, o.price.n, o.price.d);
    var selling := Min(SellingBound(o.amount, o.price.n, o.price.d), o.amount);
    FloorGreatest(amount, o.price.d, o.price.n, o.amount);
    MulMonotone(selling, o.amount, o.price.n);
    CeilLeast(selling, o.price.n, o.price.d, amount);
  }

  method ConsumeOffersForBuyingAsset(offers: seq<Offer>, assetAmount: int) returns (r: Consumed)
    requires ValidOffers(offers) && 0 <= assetAmount <= MAX_INT64
    ensures r == BuyingOutcome(offers, assetAmount)
  {
    hide ConvertToBuyingUnits, MulFractionRoundDown, Floor, FairFill, Wrap64, Ceil, SellingBound;
    if |offers| == 0 {
      return Consumed(0, Some(EmptyOffers));
    }
    if assetAmount == 0 {
      return Consumed(0, Some(AssetAmountIsZero));
    }
    var currentAssetAmount := assetAmount;
    var totalConsumed := 0;
    ghost var done: Fills := [];
    assert offers[0..] == offers;
    PrependNone(Spend(offers, assetAmount));
    for i := 0 to |offers|
      invariant 0 < currentAssetAmount <= MAX_INT64
      invariant totalConsumed == Wrap64(TotalSelling(done))
      invariant Spend(offers, assetAmount) == PrependAll(done, Spend(offers[i..], currentAssetAmount))
    {
      assert offers[i..][0] == offers[i] && offers[i..][1..] == offers[i+1..];
      var n, d := offers[i].price.n, offers[i].price.d;
      var amountSold := MulFractionRoundDown(currentAssetAmount, d, n);
      match amountSold {
        case Ok(sold) =>
          if sold == 0 {
            return Consumed(-1, None);
          }
          if sold < 0 {
            return Consumed(-1, Some(SoldTooMuch));
          }
          if sold <= offers[i].amount {
            WrapAccumulates(TotalSelling(done), sold);
            TotalsAppend(done, Conversion(currentAssetAmount, sold));
            totalConsumed := Wrap64(totalConsumed + sold);
            return Consumed(totalConsumed, None);
          }
        case Err(Overflow) =>
        case Err(e) => return Consumed(-1, Some(Arithmetic(e)));
      }
      WholeOfferAffordable(offers[i], currentAssetAmount);
      var c := ConvertToBuyingUnits(offers[i].amount, offers[i].amount, n, d);
      match c {
        case Err(Overflow) => return Consumed(-1, None);
        case Err(e) => return Consumed(-1, Some(Arithmetic(e)));
        case Ok(_) =>
      }
      WrapAccumulates(TotalSelling(done), c.value.selling);
      TotalsAppend(done, c.value);
      totalConsumed := Wrap64(totalConsumed + c.value.selling);
      if currentAssetAmount != c.value.buying {
        PrependNext(done, c.value, Spend(offers[i+1..], currentAssetAmount - c.value.buying));
      }
      done := done + [c.value];
      currentAssetAmount := currentAssetAmount - c.value.buying;
      if currentAssetAmount == 0 {
        return Consumed(totalConsumed, None);
      }
      if currentAssetAmount < 0 {
        return Consumed(-1, Some(SoldTooMuch));
      }
    }
    r := Consumed(-1, None);
  }

  /** The units bought by the fills, with int64 wrap-around; -1 when there are none. */
  function BuyingOutcome(offers: seq<Offer>, amount: int): Consumed
    requires ValidOffers(offers) && 0 <= amount <= MAX_INT64
  {
    if |offers| == 0 then Consumed(0, Some(EmptyOffers))
    else if amount == 0 then Consumed(0, Some(AssetAmountIsZero))
    else
      match Spend(offers, amount)
      case None => Consumed(-1, None)
      case Some(fills) => Consumed(Wrap64(TotalSelling(fills)), None)
  }

  /** Strict send spends exactly what it was given; no offer gives more than it has or goes below its price. */
  lemma {:induction false} SpendConserves(offers: seq<Offer>, amount: int)
    requires ValidOffers(offers) && 0 < amount <= MAX_INT64
    ensures var fills := Spend(offers, amount);
            fills.Some? ==>
              && |fills.value| <= |offers|
              && TotalBuying(fills.value) == amount
              && (forall i :: 0 <= i < |fills.value| ==>
                    && 0 <= fills.value[i].selling <= offers[i].amount
                    && 0 <= fills.value[i].buying
                    && fills.value[i].selling * offers[i].price.n <= fills.value[i].buying * offers[i].price.d)
    decreases |offers|
  {
    hide ConvertToBuyingUnits, Floor, MulFractionRoundDown;
    if offers != [] {
      var o := offers[0];
      var sold := MulFractionRoundDown(amount, o.price.d, o.price.n);
      FloorGreatest(amount, o.price.d, o.price.n, Floor(amount, o.price.d, o.price.n));
      if sold.Err? || sold.value > o.amount {
        WholeOfferAffordable(o, amount);
        var c := ConvertToBuyingUnits(o.amount, o.amount, o.price.n, o.price.d).value;
        if c.buying != amount {
          SpendConserves(offers[1..], amount - c.buying);
        }
      }
    }
  }

  // ---------- strict send is greedy ----------

  /** Buying all that an offer sells. */
  function WholeFill(o: Offer): (c: Conversion)
    requires ValidOffer(o)
  {
    var selling := SellingBound(o.amount, o.price.n, o.price.d);
    Conversion(Ceil(selling, o.price.n, o.price.d), selling)
  }

  /** What is left of `amount` once the first i offers are bought whole. */
  function MoneyLeft(offers: seq<Offer>, amount: int, i: nat): int
    requires ValidOffers(offers) && i <= |offers|
  {
    if i == 0 then amount else MoneyLeft(offers[1..], amount - WholeFill(offers[0]).buying, i - 1)
  }

  /** The money would buy more units than the offer has. */
  predicate BuysMore(o: Offer, money: int) {
    (o.amount + 1) * o.price.n <= money * o.price.d
  }

  predicate BuysNothing(o: Offer, money: int) {
    money * o.price.d < o.price.n
  }

  /** Offer j has less than the money left at it could buy, and some money remains after it. */
  ghost predicate PassedAt(offers: seq<Offer>, amount: int, j: int)
    requires ValidOffers(offers) && 0 <= j < |offers|
  {
    BuysMore(offers[j], MoneyLeft(offers, amount, j)) && MoneyLeft(offers, amount, j + 1) > 0
  }

  /** The first i offers are bought whole and money is left. */
  ghost predicate Passed(offers: seq<Offer>, amount: int, i: int)
    requires ValidOffers(offers) && 0 <= i <= |offers|
  {
    forall j :: 0 <= j < i ==> PassedAt(offers, amount, j)
  }

  /** The last fill spends the rest: on all of its offer, or on the most units the rest pays for. */
  ghost predicate LastFill(o: Offer, rest: int, c: Conversion)
    requires ValidOffer(o)
  {
    && c.buying == rest
    && if BuysMore(o, rest) then c == WholeFill(o)
       else 0 < c.selling <= o.amount
            && c.selling * o.price.n <= rest * o.price.d < (c.selling + 1) * o.price.n
  }

  /** Every fill but the last takes its offer whole. */
  ghost predicate WholeThenRest(offers: seq<Offer>, amount: int, fills: Fills)
    requires ValidOffers(offers) && 0 < |fills| <= |offers|
  {
    var last := |fills| - 1;
    && Passed(offers, amount, last)
    && (forall j :: 0 <= j < last ==> fills[j] == WholeFill(offers[j]))
    && LastFill(offers[last], MoneyLeft(offers, amount, last), fills[last])
  }

  /** The offers run out, or the rest does not pay for a unit of the next one. */
  ghost predicate StuckAt(offers: seq<Offer>, amount: int, i: int)
    requires ValidOffers(offers) && 0 <= i <= |offers|
  {
    && Passed(offers, amount, i)
    && (i == |offers| || BuysNothing(offers[i], MoneyLeft(offers, amount, i)))
  }

  ghost predicate Stuck(offers: seq<Offer>, amount: int)
    requires ValidOffers(offers)
  {
    exists i :: 0 <= i <= |offers| && StuckAt(offers, amount, i)
  }

  lemma PassedFirst(offers: seq<Offer>, amount: int, i: nat)
    requires ValidOffers(offers) && i < |offers|
    ensures var left := amount - WholeFill(offers[0]).buying;
      Passed(offers, amount, i + 1)
      <==> BuysMore(offers[0], amount) && left > 0 && Passed(offers[1..], left, i)
  {
    hide WholeFill, BuysMore;
    var rest, left := offers[1..], amount - WholeFill(offers[0]).buying;
    assert MoneyLeft(offers, amount, 1) == MoneyLeft(rest, left, 0) == left;
    assert PassedAt(offers, amount, 0) <==> BuysMore(offers[0], amount) && left > 0;
    forall j | 0 < j < |offers|
      ensures PassedAt(offers, amount, j) <==> PassedAt(rest, left, j - 1)
    {
      assert rest[j-1] == offers[j];
    }
    if Passed(offers, amount, i + 1) {
      forall j | 0 <= j < i
        ensures PassedAt(rest, left, j)
      {
        assert PassedAt(offers, amount, j + 1);
      }
    }
  }

  /** What the rounded-down quotient decides at one offer. */
  lemma SpendStep(o: Offer, amount: int)
    requires ValidOffer(o) && 0 < amount <= MAX_INT64
    ensures var sold := MulFractionRoundDown(amount, o.price.d, o.price.n);
      && (BuysNothing(o, amount) <==> sold == Ok(0))
      && (BuysMore(o, amount) <==> sold.Err? || sold.value > o.amount)
      && (sold.Ok? ==> sold.value * o.price.n <= amount * o.price.d < (sold.value + 1) * o.price.n)
    ensures BuysMore(o, amount) ==>
      ConvertToBuyingUnits(o.amount, o.amount, o.price.n, o.price.d) == Ok(WholeFill(o)) && !BuysNothing(o, amount)
  {
    hide ConvertToBuyingUnits, SellingBound, Ceil, Floor;
    var n, d := o.price.n, o.price.d;
    var q := Floor(amount, d, n);
    FloorGreatest(amount, d, n, 0);
    FloorGreatest(amount, d, n, 1);
    FloorGreatest(amount, d, n, q);
    FloorGreatest(amount, d, n, q + 1);
    FloorGreatest(amount, d, n, o.amount + 1);
    if BuysMore(o, amount) {
      WholeOfferAffordable(o, amount);
      ConversionExact(o.amount, o.amount, n, d);
      SellingBoundWithinAmount(o.amount, n, d);
    }
  }

  lemma WholeThenRestFirst(offers: seq<Offer>, amount: int, c: Conversion, fills: Fills)
    requires ValidOffers(offers) && 0 < |fills| < |offers|
    requires c == WholeFill(offers[0]) && BuysMore(offers[0], amount) && amount - c.buying > 0
    requires WholeThenRest(offers[1..], amount - c.buying, fills)
    ensures WholeThenRest(offers, amount, [c] + fills)
  {
    hide WholeFill, BuysMore, LastFill;
    var last := |fills| - 1;
    PassedFirst(offers, amount, last);
    assert ([c] + fills)[last+1] == fills[last] && offers[1..][last] == offers[last+1];
    forall j | 0 <= j < last + 1
      ensures ([c] + fills)[j] == WholeFill(offers[j])
    {
      if j > 0 {
        assert ([c] + fills)[j] == fills[j-1] && offers[1..][j-1] == offers[j];
      }
    }
  }

  /** Strict send buys the offers whole in their order until the rest goes to one of them. */
  lemma {:induction false} SpendGreedy(offers: seq<Offer>, amount: int)
    requires ValidOffers(offers) && 0 < amount <= MAX_INT64
    ensures var fills := Spend(offers, amount);
      fills.Some? ==> 0 < |fills.value| <= |offers| && WholeThenRest(offers, amount, fills.value)
    decreases |offers|
  {
    hide ConvertToBuyingUnits, MulFractionRoundDown, WholeFill, BuysMore, BuysNothing;
    if offers != [] {
      var o := offers[0];
      SpendStep(o, amount);
      if BuysMore(o, amount) {
        WholeOfferAffordable(o, amount);
        var left := amount - WholeFill(o).buying;
        if left > 0 {
          SpendGreedy(offers[1..], left);
          var rest := Spend(offers[1..], left);
          if rest.Some? {
            WholeThenRestFirst(offers, amount, WholeFill(o), rest.value);
          }
        }
      }
    }
  }

  lemma StuckLater(offers: seq<Offer>, amount: int, i: nat)
    requires ValidOffers(offers) && i < |offers|
    ensures var left := amount - WholeFill(offers[0]).buying;
      StuckAt(offers, amount, i + 1)
      <==> BuysMore(offers[0], amount) && left > 0 && StuckAt(offers[1..], left, i)
  {
    hide WholeFill, BuysMore, BuysNothing;
    PassedFirst(offers, amount, i);
  }

  lemma StuckFirst(offers: seq<Offer>, amount: int)
    requires ValidOffers(offers) && |offers| > 0
    ensures var left := amount - WholeFill(offers[0]).buying;
      Stuck(offers, amount)
      <==> BuysNothing(offers[0], amount) || (BuysMore(offers[0], amount) && left > 0 && Stuck(offers[1..], left))
  {
    hide WholeFill, BuysMore, BuysNothing;
    var rest, left := offers[1..], amount - WholeFill(offers[0]).buying;
    assert StuckAt(offers, amount, 0) <==> BuysNothing(offers[0], amount);
    if Stuck(offers, amount) {
      var i :| 0 <= i <= |offers| && StuckAt(offers, amount, i);
      if i > 0 {
        StuckLater(offers, amount, i - 1);
      }
    }
    if BuysMore(offers[0], amount) && left > 0 && Stuck(rest, left) {
      var i :| 0 <= i <= |rest| && StuckAt(rest, left, i);
      StuckLater(offers, amount, i);
    }
  }

  /** Strict send fails exactly when, after some whole offers, the rest buys nothing or no offer is left. */
  lemma {:induction false} SpendFails(offers: seq<Offer>, amount: int)
    requires ValidOffers(offers) && 0 < amount <= MAX_INT64
    ensures Spend(offers, amount).None? <==> Stuck(offers, amount)
    decreases |offers|
  {
    hide ConvertToBuyingUnits, MulFractionRoundDown, WholeFill, BuysMore, BuysNothing;
    if offers == [] {
      assert StuckAt(offers, amount, 0);
    } else {
      var o := offers[0];
      SpendStep(o, amount);
      StuckFirst(offers, amount);
      if BuysMore(o, amount) {
        WholeOfferAffordable(o, amount);
        var left := amount - WholeFill(o).buying;
        if left > 0 {
          SpendFails(offers[1..], left);
        }
      }
    }
  }

  // ---------- when the reported totals are the true ones ----------

  lemma {:induction false} TotalsNonNegative(fills: Fills)
    requires forall i :: 0 <= i < |fills| ==> fills[i].buying >= 0 && fills[i].selling >= 0
    ensures TotalBuying(fills) >= 0 && TotalSelling(fills) >= 0
    decreases |fills|
  {
    if fills != [] {
      TotalsNonNegative(fills[1..]);
    }
  }

  lemma WrapExact(total: int)
    requires total >= 0
    ensures Wrap64(total) == total <==> total <= MAX_INT64
  {
  }

  /** Strict receive reports what the fills cost exactly when that cost fits in an int64. */
  lemma CostReported(offers: seq<Offer>, ignore: Option<string>, amount: int)
    requires ValidOffers(offers) && 0 < amount <= MAX_INT64 && Take(offers, ignore, amount).Some?
    ensures var cost := TotalBuying(Take(offers, ignore, amount).value);
      cost >= 0 && (SellingOutcome(offers, ignore, amount) == Consumed(cost, None) <==> cost <= MAX_INT64)
  {
    hide Wrap64;
    var fills := Take(offers, ignore, amount).value;
    TakeDelivers(offers, ignore, amount);
    forall i | 0 <= i < |fills|
      ensures fills[i].buying >= 0 && fills[i].selling >= 0
    {
      assert FairFill(offers[i], fills[i]);
    }
    TotalsNonNegative(fills);
    WrapExact(TotalBuying(fills));
  }

  /** Strict send reports what the fills give exactly when it fits in an int64. */
  lemma YieldReported(offers: seq<Offer>, amount: int)
    requires ValidOffers(offers) && 0 < amount <= MAX_INT64 && Spend(offers, amount).Some?
    ensures var given := TotalSelling(Spend(offers, amount).value);
      given >= 0 && (BuyingOutcome(offers, amount) == Consumed(given, None) <==> given <= MAX_INT64)
  {
    hide Wrap64;
    SpendConserves(offers, amount);
    TotalsNonNegative(Spend(offers, amount).value);
    WrapExact(TotalSelling(Spend(offers, amount).value));
  }

  const HUGE: int := 0x1_0000_0000

  /** An offer of 2^32 units at the highest price: all of it costs just under 2^63. */
  function HugeOffer(id: int, seller: string, selling: Asset, buying: Asset): Offer {
    Offer(id, seller, selling, buying, HUGE, Price(MAX_INT32, 1))
  }

  lemma HugeFill(o: Offer, need: int)
    requires ValidOffer(o) && o.amount == HUGE && o.price == Price(MAX_INT32, 1) && HUGE <= need <= MAX_INT64
    ensures ConvertToBuyingUnits(o.amount, need, o.price.n, o.price.d) == Ok(Conversion(HUGE * MAX_INT32, HUGE))
  {
    ConversionExact(o.amount, need, o.price.n, o.price.d);
    assert Ceil(HUGE, MAX_INT32, 1) == HUGE * MAX_INT32;
  }

  /** Three such offers together are reported at about a third of what they cost. */
  lemma WrappedCost(seller: string, selling: Asset, buying: Asset)
    requires selling != buying
    ensures var offers := [HugeOffer(1, seller, selling, buying), HugeOffer(2, seller, selling, buying),
                           HugeOffer(3, seller, selling, buying)];
      var reported := SellingOutcome(offers, None, 3 * HUGE).amount;
      && ValidOffers(offers)
      && Take(offers, None, 3 * HUGE).Some?
      && 0 < reported < HUGE * MAX_INT32 < TotalBuying(Take(offers, None, 3 * HUGE).value) == 3 * (HUGE * MAX_INT32)
  {
    hide ConvertToBuyingUnits;
    var a, b, c := HugeOffer(1, seller, selling, buying), HugeOffer(2, seller, selling, buying),
                   HugeOffer(3, seller, selling, buying);
    var offers := [a, b, c];
    assert ValidOffers(offers) && offers[1..] == [b, c] && [b, c][1..] == [c];
    HugeFill(a, 3 * HUGE);
    HugeFill(b, 2 * HUGE);
    HugeFill(c, HUGE);
    var fill := Conversion(HUGE * MAX_INT32, HUGE);
    assert Take([c], None, HUGE) == Some([fill]);
    assert Take([b, c], None, 2 * HUGE) == Some([fill, fill]) by {
      assert [fill] + [fill] == [fill, fill];
    }
    assert Take(offers, None, 3 * HUGE) == Some([fill, fill, fill]) by {
      assert [fill] + [fill, fill] == [fill, fill, fill];
    }
    TotalsAppend([], fill);
    TotalsAppend([fill], fill);
    TotalsAppend([fill, fill], fill);
    assert [] + [fill] == [fill] && [fill] + [fill] == [fill, fill] && [fill, fill] + [fill] == [fill, fill, fill];
  }

  const CHEAP_COST: int := 4294967298

  /** An offer of all an int64 holds at the lowest price: selling all but one unit of it costs CHEAP_COST. */
  function CheapOffer(id: int, seller: string, selling: Asset, buying: Asset): Offer {
    Offer(id, seller, selling, buying, MAX_INT64, Price(1, MAX_INT32))
  }

  lemma CheapFill(o: Offer)
    requires ValidOffer(o) && o.amount == MAX_INT64 && o.price == Price(1, MAX_INT32)
    ensures ConvertToBuyingUnits(o.amount, o.amount, o.price.n, o.price.d) == Ok(Conversion(CHEAP_COST, MAX_INT64 - 1))
    ensures forall k :: 2 <= k <= 3 ==> MulFractionRoundDown(k * CHEAP_COST, o.price.d, o.price.n) == Err(Overflow)
    ensures MulFractionRoundDown(CHEAP_COST, o.price.d, o.price.n) == Ok(MAX_INT64 - 1)
  {
    ConversionExact(o.amount, o.amount, o.price.n, o.price.d);
    assert CHEAP_COST * MAX_INT32 == MAX_INT64 - 1;
    assert Floor(MAX_INT64, 1, MAX_INT32) == CHEAP_COST;
    assert Ceil(CHEAP_COST, MAX_INT32, 1) == MAX_INT64 - 1;
    assert Ceil(MAX_INT64 - 1, 1, MAX_INT32) == CHEAP_COST;
    assert forall k :: 2 <= k <= 3 ==> Floor(k * CHEAP_COST, MAX_INT32, 1) == k * (MAX_INT64 - 1);
  }

  /** Three such offers together are reported to give less than one of them does. */
  lemma WrappedYield(seller: string, selling: Asset, buying: Asset)
    requires selling != buying
    ensures var offers := [CheapOffer(1, seller, selling, buying), CheapOffer(2, seller, selling, buying),
                           CheapOffer(3, seller, selling, buying)];
      var reported := BuyingOutcome(offers, 3 * CHEAP_COST).amount;
      && ValidOffers(offers)
      && Spend(offers, 3 * CHEAP_COST).Some?
      && 0 < reported < MAX_INT64 - 1 < TotalSelling(Spend(offers, 3 * CHEAP_COST).value) == 3 * (MAX_INT64 - 1)
  {
    hide ConvertToBuyingUnits, MulFractionRoundDown;
    var a, b, c := CheapOffer(1, seller, selling, buying), CheapOffer(2, seller, selling, buying),
                   CheapOffer(3, seller, selling, buying);
    var offers := [a, b, c];
    assert ValidOffers(offers) && offers[1..] == [b, c] && [b, c][1..] == [c];
    CheapFill(a);
    CheapFill(b);
    CheapFill(c);
    var fill := Conversion(CHEAP_COST, MAX_INT64 - 1);
    assert Spend([c], CHEAP_COST) == Some([fill]);
    assert Spend([b, c], 2 * CHEAP_COST) == Some([fill, fill]) by {
      assert [fill] + [fill] == [fill, fill];
    }
    assert Spend(offers, 3 * CHEAP_COST) == Some([fill, fill, fill]) by {
      assert [fill] + [fill, fill] == [fill, fill, fill];
    }
    TotalsAppend([], fill);
    TotalsAppend([fill], fill);
    TotalsAppend([fill, fill], fill);
    assert [] + [fill] == [fill] && [fill] + [fill] == [fill, fill] && [fill, fill] + [fill] == [fill, fill, fill];
  }

  // ---------- one edge: the pool first, then the offers ----------

  /** Which graph is searched and what is looked for. */
  datatype SearchMode =
    | SellingGraph(ignoreOffersFrom: Option<string>, sources: map<nat, int>, validateSourceBalance: bool,
      includePools: bool)
    | BuyingGraph(destinations: set<nat>, includePools: bool)

  /** The smaller of two amounts, where a non-positive amount means none. */
  function PositiveMin(a: int, b: int): (r: int)
    ensures a > 0 && b > 0 ==> r == Min(a, b)
    ensures a > 0 && b <= 0 ==> r == a
    ensures a <= 0 && b > 0 ==> r == b
    ensures a <= 0 && b <= 0 ==> r == a
  {
    if b <= 0 then a else if b < a || a <= 0 then b else a
  }

  ghost predicate ValidVenues(e: Edge) {
    ValidOffers(e.offers) && (e.pool.Some? ==> ValidPool(e.pool.value.entry))
  }

  function PoolAmount(mode: SearchMode, asset: nat, amount: int, e: Edge): (r: int)
    requires e.pool.Some? ==> ValidPool(e.pool.value.entry)
    requires amount <= MAX_INT64
    ensures 0 <= r <= MAX_INT64
  {
    if !mode.includePools || e.pool.None? then 0 else
    var pool := e.pool.value;
    var trade := if mode.SellingGraph? then MakeTrade(pool, OtherAsset(asset, pool), Expectation, amount)
                 else MakeTrade(pool, asset, Deposit, amount);
    if trade.Ok? then trade.value else 0
  }

  /**
   * Towards an asset that is wanted, the pool asks for the least of the other one that affords the
   * amount, and for nothing when no int64 does; from an asset that is spent, it pays the most of the
   * other one that the amount affords, and nothing when its reserve would overflow.
   */
  lemma PoolAmountExact(mode: SearchMode, asset: nat, amount: int, e: Edge, x: int)
    requires ValidVenues(e) && 0 < amount <= MAX_INT64 && x <= MAX_INT64
    requires e.pool.Some? ==> e.pool.value.a != e.pool.value.b && asset in {e.pool.value.a, e.pool.value.b}
    ensures !mode.includePools || e.pool.None? ==> PoolAmount(mode, asset, amount, e) == 0
    ensures mode.includePools && e.pool.Some? ==>
      var pool, r := e.pool.value, PoolAmount(mode, asset, amount, e);
      var own, other := ReserveOf(pool, asset), ReserveOf(pool, OtherAsset(asset, pool));
      var keep := MAX_BIPS - pool.entry.fee;
      if mode.SellingGraph? then
        if amount >= own then r == 0
        else Affords(other, own, x, amount, keep) <==> 0 < r <= x
      else
        if own + amount > MAX_INT64 then r == 0
        else x <= r <==> Affords(own, other, amount, x, keep)
  {
    hide CalculatePoolPayout, CalculatePoolExpectation, Affords;
    if mode.includePools && e.pool.Some? {
      var pool := e.pool.value;
      var from := OtherAsset(asset, pool);
      TradeIsFair(pool, asset, amount, x);
      TradeIsFair(pool, from, amount, x);
      if amount < ReserveOf(pool, asset) {
        TradeIsFair(pool, from, amount, 0);
        NothingAffordsNothing(ReserveOf(pool, from), ReserveOf(pool, asset), amount, MAX_BIPS - pool.entry.fee);
      } else {
        TooMuchExpected(ReserveOf(pool, from), ReserveOf(pool, asset), amount, pool.entry.fee);
      }
    }
  }

  lemma NothingAffordsNothing(X: int, Y: int, y: int, keep: int)
    requires X > 0 && y > 0
    ensures !Affords(X, Y, 0, y, keep)
  {
    MulMonotone(1, X, y);
  }

  lemma TooMuchExpected(X: int, Y: int, y: int, fee: int)
    requires Reserve(X) && Reserve(Y) && Reserve(y) && 0 <= fee <= MAX_BIPS && y >= Y
    ensures CalculatePoolExpectation(X, Y, y, fee).None?
  {
  }

  function ConsumeOffersOutcome(mode: SearchMode, amount: int, best: int, offers: seq<Offer>): Consumed
    requires ValidOffers(offers) && 0 <= amount <= MAX_INT64
  {
    match mode
    case SellingGraph(ignore, _, _, _) =>
      var c := SellingOutcome(offers, ignore, amount);
      Consumed(PositiveMin(best, c.amount), c.error)
    case BuyingGraph(_, _) =>
      var c := BuyingOutcome(offers, amount);
      Consumed(Max(c.amount, best), c.error)
  }

  /** The amount of the next asset that an edge gives for `amount` of `asset`. */
  function VenueOutcome(mode: SearchMode, asset: nat, amount: int, e: Edge): Result<int, SearchError>
    requires ValidVenues(e) && 0 <= amount <= MAX_INT64
  {
    if amount == 0 then Err(AssetAmountIsZero) else
    var poolAmount := PoolAmount(mode, asset, amount, e);
    if poolAmount == 0 && |e.offers| == 0 then Ok(-1) else
    var next := ConsumeOffersOutcome(mode, amount, poolAmount, e.offers);
    if next.error.Some? && poolAmount == 0 then Err(next.error.value) else Ok(next.amount)
  }

  method ProcessVenues(mode: SearchMode, asset: nat, amount: int, e: Edge) returns (r: Result<int, SearchError>)
    requires ValidVenues(e) && 0 <= amount <= MAX_INT64
    ensures r == VenueOutcome(mode, asset, amount, e)
  {
    if amount == 0 {
      return Err(AssetAmountIsZero);
    }
    var poolAmount := PoolAmount(mode, asset, amount, e);
    if poolAmount == 0 && |e.offers| == 0 {
      return Ok(-1);
    }
    var next: Consumed;
    match mode {
      case SellingGraph(ignore, _, _, _) =>
        var c := ConsumeOffersForSellingAsset(e.offers, ignore, amount);
        next := Consumed(PositiveMin(poolAmount, c.amount), c.error);
      case BuyingGraph(_, _) =>
        var c := ConsumeOffersForBuyingAsset(e.offers, amount);
        next := Consumed(Max(c.amount, poolAmount), c.error);
    }
    if next.error.Some? && poolAmount == 0 {
      return Err(next.error.value);
    }
    r := Ok(next.amount);
  }

  /** On valid venues and a positive amount no error is reachable. */
  lemma VenuesNeverFail(mode: SearchMode, asset: nat, amount: int, e: Edge)
    requires ValidVenues(e) && 0 < amount <= MAX_INT64
    ensures VenueOutcome(mode, asset, amount, e).Ok?
    ensures VenueOutcome(mode, asset, amount, e).value <= MAX_INT64
  {
  }

  /** The offers' own result for an amount, if any is positive. */
  function OfferAmount(mode: SearchMode, amount: int, e: Edge): int
    requires ValidVenues(e) && 0 < amount <= MAX_INT64
  {
    if mode.SellingGraph? then SellingOutcome(e.offers, mode.ignoreOffersFrom, amount).amount
    else BuyingOutcome(e.offers, amount).amount
  }

  /**
   * The offers answer with the true total of their fills cut to an int64, and with -1 when they cannot fill
   * the amount, or 0 when there are none.
   */
  lemma OfferAmountExact(mode: SearchMode, amount: int, e: Edge)
    requires ValidVenues(e) && 0 < amount <= MAX_INT64
    ensures var r := OfferAmount(mode, amount, e);
      && -MAX_INT64 - 1 <= r <= MAX_INT64
      && if mode.SellingGraph? then
           match Take(e.offers, mode.ignoreOffersFrom, amount)
           case None => r == if e.offers == [] then 0 else -1
           case Some(fills) => (r - TotalBuying(fills)) % TWO_64 == 0
         else
           match Spend(e.offers, amount)
           case None => r == if e.offers == [] then 0 else -1
           case Some(fills) => (r - TotalSelling(fills)) % TWO_64 == 0
  {
    hide Wrap64;
    if mode.SellingGraph? && Take(e.offers, mode.ignoreOffersFrom, amount).Some? {
      WrapCongruent(TotalBuying(Take(e.offers, mode.ignoreOffersFrom, amount).value));
    }
    if mode.BuyingGraph? && Spend(e.offers, amount).Some? {
      WrapCongruent(TotalSelling(Spend(e.offers, amount).value));
    }
  }

  lemma WrapCongruent(x: int)
    ensures (Wrap64(x) - x) % TWO_64 == 0
  {
    var y := x + MAX_INT64 + 1;
    assert y % TWO_64 - y == TWO_64 * -(y / TWO_64);
    ModShift(0, -(y / TWO_64));
  }

  /** Whether `alternative` is a better amount of an asset than `current`, zero meaning none yet. */
  predicate Better(mode: SearchMode, current: int, alternative: int) {
    if mode.BuyingGraph? then alternative > current
    else current == 0 || (alternative != 0 && alternative < current)
  }

  /** An edge yields the better of its two venues: neither the pool nor the offers alone would beat it. */
  lemma EdgeTakesBetterVenue(mode: SearchMode, asset: nat, amount: int, e: Edge)
    requires ValidVenues(e) && 0 < amount <= MAX_INT64
    ensures var v := VenueOutcome(mode, asset, amount, e).value;
            var pool, offers := PoolAmount(mode, asset, amount, e), OfferAmount(mode, amount, e);
            && (v > 0 <==> pool > 0 || offers > 0)
            && (v > 0 ==> v == pool || v == offers)
            && (pool > 0 ==> !Better(mode, v, pool)) && (offers > 0 ==> !Better(mode, v, offers))
  {
  }
}
