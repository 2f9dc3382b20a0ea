/** Path finding on the order book (findPathsWithLock and findFixedPathsWithLock in exp/orderbook/graph.go). */
module PathFinding {
  import opened Common
  import opened OrderBookTypes
  import opened OrderLists
  import opened EdgeSets
  import opened GraphState
  import opened OrderBookGraph
  import opened Venues
  import Pools
  import opened PathSearch
  import GV = GraphVerification

  /** A payment route in terms of assets. */
  datatype Payment = Payment(route: seq<Asset>, sourceAmount: int, destinationAmount: int)

  /** Something in the book gives y for x. */
  ghost predicate Tradable(book: Book, x: Asset, y: Asset) {
    || (exists o :: o in book.live && o.buying == x && o.selling == y)
    || (x, y) in book.pools || (y, x) in book.pools
  }

  ghost predicate Honest(book: Book, payment: Payment, maxPathLength: nat) {
    && 1 <= |payment.route| <= maxPathLength + 1
    && Distinct(payment.route)
    && forall i, j :: 0 <= i && j == i + 1 && j < |payment.route| ==> Tradable(book, payment.route[i], payment.route[j])
  }

  // ---------- every reachable table can be searched ----------

  lemma EdgeIsValid(g: Graph, book: Book, side: GV.Side, i: nat, e: nat)
    requires Represents(g, book, {})
    requires i < |g.names| && |GV.Table(side, g)| == |g.names| && e < |GV.Table(side, g)[i]|
    ensures ValidVenues(GV.Table(side, g)[i][e])
  {
    hide *;
    Parts(g, book, {});
    GV.EdgeFits(g, book, side, i, e);
    GV.EdgePoolFits(g, book, side, i, e);
    var edge := GV.Table(side, g)[i][e];
    AllLiveAreValid(g, book, side, i, edge);
    if edge.pool.Some? {
      PoolIsValid(book, edge.pool.value.entry);
    }
    ValidFrom(edge);
  }

  lemma ValidFrom(edge: Edge)
    requires ValidOffers(edge.offers) && (edge.pool.Some? ==> ValidPool(edge.pool.value.entry))
    ensures ValidVenues(edge)
  {
  }

  lemma PoolIsValid(book: Book, p: Pool)
    requires ValidPools(book.pools) && GV.InBook(book, p)
    ensures ValidPool(p)
  {
  }

  lemma AllLiveAreValid(g: Graph, book: Book, side: GV.Side, i: nat, edge: Edge)
    requires ValidLive(book.live)
    requires forall o :: o in edge.offers ==> GV.Fits(g, book.live, side, i, edge.key, o)
    ensures ValidOffers(edge.offers)
  {
    forall k | 0 <= k < |edge.offers|
      ensures ValidOffer(edge.offers[k])
    {
      assert GV.Fits(g, book.live, side, i, edge.key, edge.offers[k]);
      var j :| 0 <= j < |book.live| && book.live[j] == edge.offers[k];
    }
  }

  lemma TableIsSearchable(g: Graph, book: Book, side: GV.Side, i: nat)
    requires Represents(g, book, {}) && i < |g.names| && |GV.Table(side, g)| == |g.names|
    ensures ValidRow(GV.Table(side, g)[i], |g.names|)
  {
    hide Represents, ValidVenues, WellFormed, KeysBelow, SellingTable, BuyingTable, PoolTable, Pairs, PoolIndex, Used,
      Ids, ValidLive, ValidPools;
    Parts(g, book, {});
    var row := GV.Table(side, g)[i];
    forall e | 0 <= e < |row|
      ensures ValidVenues(row[e])
    {
      EdgeIsValid(g, book, side, i, e);
    }
  }

  ghost function SideOf(mode: SearchMode): GV.Side {
    if mode.SellingGraph? then GV.SellingSide else GV.BuyingSide
  }

  /** A search over either table of a graph that represents a book is well-posed. */
  lemma GraphIsSearchable(g: Graph, book: Book, p: Problem)
    requires Represents(g, book, {}) && p.venues == GV.Table(SideOf(p.mode), g)
    requires p.source < |g.names| && 0 <= p.amount <= MAX_INT64
    ensures |p.venues| == |g.names| && ValidProblem(p)
  {
    hide Represents, ValidRow, SellingTable, BuyingTable, PoolTable, Pairs, PoolIndex, Used, Ids, ValidLive,
      ValidPools, Shaped;
    Parts(g, book, {});
    forall i | 0 <= i < |p.venues|
      ensures ValidRow(p.venues[i], |p.venues|)
    {
      TableIsSearchable(g, book, SideOf(p.mode), i);
    }
  }

  // ---------- from ids to assets ----------

  /** Every id that a table has an edge from or to is named. */
  lemma EdgeNamed(g: Graph, book: Book, side: GV.Side, i: nat, key: nat)
    requires Represents(g, book, {}) && i < |g.names| && |GV.Table(side, g)| == |g.names|
    requires Find(GV.Table(side, g)[i], key) >= 0
    ensures key < |g.names| && g.names[i].Some? && g.names[key].Some?
    ensures var x, y := g.names[i].value, g.names[key].value;
      if side.SellingSide? then Tradable(book, y, x) else Tradable(book, x, y)
  {
    hide *;
    var row := GV.Table(side, g)[i];
    var e := Find(row, key);
    GV.EdgeFits(g, book, side, i, e);
    GV.EdgePoolFits(g, book, side, i, e);
    GV.RowsWellFormed(g, book, side, i);
    EdgeHasVenue(row, e);
    if row[e].offers != [] {
      OfferTrades(g, book, side, i, row[e]);
    } else {
      Parts(g, book, {});
      GV.EdgeListed(g, book, side, i, e);
      PoolTrades(g, book, side, i, row[e]);
    }
  }

  lemma EdgeHasVenue(row: EdgeSet, e: nat)
    requires WellFormed(row) && e < |row|
    ensures row[e].offers != [] || row[e].pool.Some?
  {
  }

  lemma OfferTrades(g: Graph, book: Book, side: GV.Side, i: nat, edge: Edge)
    requires edge.offers != [] && forall o :: o in edge.offers ==> GV.Fits(g, book.live, side, i, edge.key, o)
    ensures i < |g.names| && edge.key < |g.names| && g.names[i].Some? && g.names[edge.key].Some?
    ensures var x, y := g.names[i].value, g.names[edge.key].value;
      if side.SellingSide? then Tradable(book, y, x) else Tradable(book, x, y)
  {
    var o := edge.offers[0];
    assert GV.Fits(g, book.live, side, i, edge.key, o);
  }

  lemma PoolTrades(g: Graph, book: Book, side: GV.Side, i: nat, edge: Edge)
    requires i < |g.names| && edge.key < |g.names| && edge.pool.Some?
    requires edge.pool == PoolBetween(book.pools, g.names, i, edge.key)
    ensures g.names[i].Some? && g.names[edge.key].Some?
    ensures var x, y := g.names[i].value, g.names[edge.key].value;
      if side.SellingSide? then Tradable(book, y, x) else Tradable(book, x, y)
  {
  }

  predicate Named(g: Graph, ids: seq<nat>) {
    forall i :: 0 <= i < |ids| ==> ids[i] < |g.names| && g.names[ids[i]].Some?
  }

  function Names(g: Graph, ids: seq<nat>): (r: seq<Asset>)
    requires Named(g, ids)
    ensures |r| == |ids|
  {
    seq(|ids|, i requires 0 <= i < |ids| => g.names[ids[i]].value)
  }

  lemma PathNamed(g: Graph, book: Book, p: Problem, path: seq<nat>)
    requires Represents(g, book, {}) && p.venues == GV.Table(SideOf(p.mode), g) && |p.venues| == |g.names|
    requires ValidProblem(p) && GoodPath(p, path) && g.names[p.source].Some?
    ensures Named(g, path)
    ensures forall i, j :: 0 <= i && j == i + 1 && j < |path| ==>
      var x, y := g.names[path[i]].value, g.names[path[j]].value;
      if p.mode.SellingGraph? then Tradable(book, y, x) else Tradable(book, x, y)
  {
    hide Represents, ValidProblem, Tradable, Flow;
    forall i, j | 0 <= i && j == i + 1 && j < |path|
      ensures path[j] < |g.names| && g.names[path[i]].Some? && g.names[path[j]].Some?
      ensures var x, y := g.names[path[i]].value, g.names[path[j]].value;
        if p.mode.SellingGraph? then Tradable(book, y, x) else Tradable(book, x, y)
    {
      EdgeNamed(g, book, SideOf(p.mode), path[i], path[j]);
    }
    forall k | 0 <= k < |path|
      ensures path[k] < |g.names| && g.names[path[k]].Some?
    {
      if k > 0 {
        assert g.names[path[k - 1]].Some? && g.names[path[k]].Some?;
      }
    }
  }

  /** A sound result, in whichever direction it was found, is an honest payment. */
  lemma SoundIsHonest(g: Graph, book: Book, p: Problem, pp: PaymentPath, r: Report)
    requires Represents(g, book, {}) && p.venues == GV.Table(SideOf(p.mode), g) && |p.venues| == |g.names|
    requires ValidProblem(p) && Sound(p, r) && Pays(p, pp, r) && g.names[p.source].Some?
    ensures Named(g, Route(pp))
    ensures Honest(book, Payment(Names(g, Route(pp)), pp.sourceAmount, pp.destinationAmount), p.maxPathLength)
  {
    hide Represents, ValidProblem, Tradable, Flow, Find;
    PathNamed(g, book, p, r.path);
    var route := Route(pp);
    var names := Names(g, route);
    forall i, j | 0 <= i < j < |names|
      ensures names[i] != names[j]
    {
      if names[i] == names[j] {
        GV.SameName(g, book, route[i], route[j]);
      }
    }
    var n := |route|;
    forall i, j | 0 <= i && j == i + 1 && j < n
      ensures Tradable(book, names[i], names[j])
    {
      if p.mode.SellingGraph? {
        assert route[i] == r.path[n - 1 - i] && route[j] == r.path[n - 1 - j];
      }
    }
  }

  // ---------- amounts in terms of the book ----------

  /** The pool between two assets, with x as number 0 and y as number 1. */
  ghost function BookPool(book: Book, x: Asset, y: Asset): Option<PoolVenue> {
    if (x, y) in book.pools then Some(PoolVenue(book.pools[(x, y)], 0, 1))
    else if (y, x) in book.pools then Some(PoolVenue(book.pools[(y, x)], 1, 0))
    else None
  }

  /** What the book offers between two assets, in price-time order, to a search that goes from x to y. */
  ghost function BookEdge(book: Book, mode: SearchMode, x: Asset, y: Asset): Edge {
    var offers := if mode.SellingGraph? then Listed(book.live, Some(x), Some(y))
      else Listed(book.live, Some(y), Some(x));
    Edge(1, offers, BookPool(book, x, y), false)
  }

  lemma BookEdgeValid(book: Book, mode: SearchMode, x: Asset, y: Asset)
    requires ValidBook(book)
    ensures ValidVenues(BookEdge(book, mode, x, y))
  {
    hide Listed;
    var edge := BookEdge(book, mode, x, y);
    var s, b := if mode.SellingGraph? then x else y, if mode.SellingGraph? then y else x;
    forall k | 0 <= k < |edge.offers|
      ensures ValidOffer(edge.offers[k])
    {
      ListedMembers(book.live, Some(s), Some(b), edge.offers[k]);
      var j :| 0 <= j < |book.live| && book.live[j] == edge.offers[k];
    }
  }

  /** The offers of a trade come in price order, and its pool is one between the two assets. */
  lemma BookEdgeInOrder(book: Book, mode: SearchMode, x: Asset, y: Asset)
    requires ValidBook(book)
    ensures var e := BookEdge(book, mode, x, y);
      && Sorted(e.offers)
      && (e.pool.Some? ==> e.pool.value.a != e.pool.value.b && 0 in {e.pool.value.a, e.pool.value.b})
  {
    hide Listed, Sorted;
    ListedSorted(book.live, Some(x), Some(y));
    ListedSorted(book.live, Some(y), Some(x));
  }

  /** What one trade of the book yields. */
  ghost function BookYield(book: Book, mode: SearchMode, x: Asset, amount: int, y: Asset): int
    requires ValidBook(book) && 0 < amount <= MAX_INT64
  {
    BookEdgeValid(book, mode, x, y);
    VenuesNeverFail(mode, 0, amount, BookEdge(book, mode, x, y));
    VenueOutcome(mode, 0, amount, BookEdge(book, mode, x, y)).value
  }

  /** The amount at the end of a chain of trades, each passing on what the one before yields. */
  ghost function BookFlow(book: Book, mode: SearchMode, amount: int, assets: seq<Asset>): int
    requires ValidBook(book)
  {
    if |assets| <= 1 then amount else
    var n := |assets| - 1;
    var a := BookFlow(book, mode, amount, assets[..n]);
    if 0 < a <= MAX_INT64 then BookYield(book, mode, assets[n-1], a, assets[n]) else 0
  }

  /** A pool gives the same whatever numbers stand for its two assets. */
  lemma PoolRenumbered(mode: SearchMode, i: nat, j: nat, amount: int, e: Edge, f: Edge)
    requires i != j && 0 < amount <= MAX_INT64 && ValidVenues(e) && ValidVenues(f) && e.offers == f.offers
    requires match e.pool
      case None => f.pool.None?
      case Some(v) =>
        || (v.a == i && v.b == j && f.pool == Some(PoolVenue(v.entry, 0, 1)))
        || (v.a == j && v.b == i && f.pool == Some(PoolVenue(v.entry, 1, 0)))
    ensures VenueOutcome(mode, i, amount, e) == VenueOutcome(mode, 0, amount, f)
  {
    hide ConsumeOffersOutcome, Pools.CalculatePoolPayout, Pools.CalculatePoolExpectation;
    assert PoolAmount(mode, i, amount, e) == PoolAmount(mode, 0, amount, f);
  }

  /** A hop over an edge of the graph yields what the book yields between the two assets. */
  lemma HopIsBookYield(g: Graph, book: Book, p: Problem, i: nat, key: nat, amount: int)
    requires Represents(g, book, {}) && p.venues == GV.Table(SideOf(p.mode), g) && |p.venues| == |g.names|
    requires ValidProblem(p) && i < |g.names| && Find(p.venues[i], key) >= 0 && 0 < amount <= MAX_INT64
    requires key < |g.names| && i != key && g.names[i].Some? && g.names[key].Some? && ValidBook(book)
    ensures Hop(p, i, amount, key) == BookYield(book, p.mode, g.names[i].value, amount, g.names[key].value)
  {
    hide Represents, Listed, VenueOutcome, ValidRow, ValidVenues, ValidBook;
    var e := Find(p.venues[i], key);
    GV.EdgeListed(g, book, SideOf(p.mode), i, e);
    EdgeInRange(p, i, e);
    var x, y := g.names[i].value, g.names[key].value;
    BookEdgeValid(book, p.mode, x, y);
    PoolRenumbered(p.mode, i, key, amount, p.venues[i][e], BookEdge(book, p.mode, x, y));
    YieldIs(p, i, amount, p.venues[i][e]);
  }

  /** The path runs over named ids and existing edges, without repetition. */
  ghost predicate Followed(g: Graph, p: Problem, path: seq<nat>) {
    && |p.venues| == |g.names| && InTable(p, path) && Distinct(path) && Named(g, path)
    && forall i, j :: 0 <= i && j == i + 1 && j < |path| ==> Find(p.venues[path[i]], path[j]) >= 0
  }

  lemma FollowedFront(g: Graph, p: Problem, path: seq<nat>)
    requires Followed(g, p, path) && |path| > 1
    ensures var n := |path| - 1;
      && Followed(g, p, path[..n]) && Named(g, path) && Named(g, path[..n])
      && Names(g, path)[..n] == Names(g, path[..n])
      && Names(g, path)[n-1] == g.names[path[n-1]].value && Names(g, path)[n] == g.names[path[n]].value
      && path[n-1] != path[n] && Find(p.venues[path[n-1]], path[n]) >= 0
  {
    hide Find;
  }

  lemma FlowUnfold(p: Problem, path: seq<nat>)
    requires ValidProblem(p) && InTable(p, path)
    ensures Flow(p, path) ==
      if |path| <= 1 then p.amount else
      var n := |path| - 1;
      var a := Flow(p, path[..n]);
      if a <= 0 then 0 else Hop(p, path[n-1], a, path[n])
  {
    hide Hop, ValidRow;
    if |path| > 1 {
      var n := |path| - 1;
      var a := Flow(p, path[..n]);
      if a > 0 {
        HopBounded(p, path[n-1], a, path[n]);
      }
    }
  }

  /** Along a path of the graph, the amounts are those of the book. */
  lemma {:induction false} FlowIsBookFlow(g: Graph, book: Book, p: Problem, path: seq<nat>)
    requires Represents(g, book, {}) && p.venues == GV.Table(SideOf(p.mode), g)
    requires ValidProblem(p) && ValidBook(book) && Followed(g, p, path)
    ensures Flow(p, path) == BookFlow(book, p.mode, p.amount, Names(g, path))
    decreases |path|
  {
    hide Represents, ValidBook, ValidProblem, Hop, BookYield, Find, Flow, Distinct;
    FlowUnfold(p, path);
    if |path| > 1 {
      var n := |path| - 1;
      FollowedFront(g, p, path);
      FlowIsBookFlow(g, book, p, path[..n]);
      var a := Flow(p, path[..n]);
      if a > 0 {
        HopIsBookYield(g, book, p, path[n-1], path[n], a);
      }
    }
  }

  lemma HopBounded(p: Problem, from: nat, amount: int, to: nat)
    requires ValidProblem(p) && from < |p.venues| && 0 < amount <= MAX_INT64
    ensures Hop(p, from, amount, to) <= MAX_INT64
  {
  }

  /** The computed end of a payment is what the book charges for, or gives for, the fixed end. */
  ghost predicate Charged(book: Book, mode: SearchMode, payment: Payment)
    requires ValidBook(book)
  {
    if mode.SellingGraph? then
      payment.sourceAmount == BookFlow(book, mode, payment.destinationAmount, Reversed(payment.route))
    else payment.destinationAmount == BookFlow(book, mode, payment.sourceAmount, payment.route)
  }

  lemma SoundIsCharged(g: Graph, book: Book, p: Problem, r: Report, payment: Payment)
    requires Represents(g, book, {}) && p.venues == GV.Table(SideOf(p.mode), g) && |p.venues| == |g.names|
    requires ValidProblem(p) && ValidBook(book) && Sound(p, r) && Shows(g, p, r, payment)
    ensures Charged(book, p.mode, payment)
  {
    hide Represents, ValidBook, ValidRow, Find, Flow, BookFlow;
    assert Followed(g, p, r.path);
    FlowIsBookFlow(g, book, p, r.path);
    assert Reversed(Reversed(Names(g, r.path))) == Names(g, r.path);
  }

  /** The terms of a strict-receive payment: whose offers are left out, and whether pools count. */
  function StrictReceive(ignoreOffersFrom: Option<string>, includePools: bool): SearchMode {
    SellingGraph(ignoreOffersFrom, map[], false, includePools)
  }

  function StrictSend(includePools: bool): SearchMode {
    BuyingGraph({}, includePools)
  }

  /** Amounts depend on the terms only, not on which assets are looked for. */
  lemma {:induction false} TermsDecide(book: Book, mode: SearchMode, terms: SearchMode, amount: int, assets: seq<Asset>)
    requires ValidBook(book) && mode.includePools == terms.includePools
    requires mode.SellingGraph? <==> terms.SellingGraph?
    requires mode.SellingGraph? ==> mode.ignoreOffersFrom == terms.ignoreOffersFrom
    ensures BookFlow(book, mode, amount, assets) == BookFlow(book, terms, amount, assets)
    decreases |assets|
  {
    hide ValidBook;
    if |assets| > 1 {
      var n := |assets| - 1;
      TermsDecide(book, mode, terms, amount, assets[..n]);
      var a := BookFlow(book, mode, amount, assets[..n]);
      if 0 < a <= MAX_INT64 {
        BookEdgeValid(book, mode, assets[n-1], assets[n]);
        SameTerms(mode, terms, a, BookEdge(book, mode, assets[n-1], assets[n]));
      }
    }
  }

  lemma SameTerms(mode: SearchMode, terms: SearchMode, amount: int, e: Edge)
    requires ValidVenues(e) && 0 < amount <= MAX_INT64 && mode.includePools == terms.includePools
    requires mode.SellingGraph? <==> terms.SellingGraph?
    requires mode.SellingGraph? ==> mode.ignoreOffersFrom == terms.ignoreOffersFrom
    ensures VenueOutcome(mode, 0, amount, e) == VenueOutcome(terms, 0, amount, e)
  {
  }

  // ---------- direct trades are found ----------

  /** Where the book holds nothing between two assets, nothing is yielded. */
  lemma NothingYielded(book: Book, mode: SearchMode, x: Asset, amount: int, y: Asset)
    requires ValidBook(book) && 0 < amount <= MAX_INT64
    ensures BookYield(book, mode, x, amount, y) > 0 ==>
      BookEdge(book, mode, x, y).offers != [] || BookEdge(book, mode, x, y).pool.Some?
  {
    hide Listed;
    BookEdgeValid(book, mode, x, y);
  }

  /** Assets between which the book yields something are known to the graph. */
  lemma YieldingAssetsKnown(g: Graph, book: Book, mode: SearchMode, x: Asset, amount: int, y: Asset)
    requires Represents(g, book, {}) && ValidBook(book) && 0 < amount <= MAX_INT64
    requires BookYield(book, mode, x, amount, y) > 0
    ensures x in g.ids && y in g.ids
  {
    hide Represents, Ids, Shaped, SellingTable, BuyingTable, PoolTable, Pairs, Used, Listed, ValidBook;
    Parts(g, book, {});
    NothingYielded(book, mode, x, amount, y);
    var edge := BookEdge(book, mode, x, y);
    if edge.offers != [] {
      var s, b := if mode.SellingGraph? then x else y, if mode.SellingGraph? then y else x;
      ListedMembers(book.live, Some(s), Some(b), edge.offers[0]);
      GV.PairOf(g.ids, g.pairs, book.live, edge.offers[0]);
    } else {
      var key := if (x, y) in book.pools then (x, y) else (y, x);
      assert key in book.pools && key.0 in g.ids && key.1 in g.ids;
    }
  }

  /** The search sees every trade between two assets that the book has. */
  lemma YieldIsHop(g: Graph, book: Book, p: Problem, i: nat, amount: int, t: nat)
    requires Represents(g, book, {}) && p.venues == GV.Table(SideOf(p.mode), g) && |p.venues| == |g.names|
    requires ValidProblem(p) && ValidBook(book) && 0 < amount <= MAX_INT64
    requires i < |g.names| && t < |g.names| && t != i && g.names[i].Some? && g.names[t].Some?
    requires BookYield(book, p.mode, g.names[i].value, amount, g.names[t].value) > 0
    ensures Hop(p, i, amount, t) == BookYield(book, p.mode, g.names[i].value, amount, g.names[t].value)
  {
    hide Represents, ValidBook, ValidRow, Hop, BookYield, Listed;
    if Find(p.venues[i], t) >= 0 {
      HopIsBookYield(g, book, p, i, t, amount);
    } else {
      NothingYielded(book, p.mode, g.names[i].value, amount, g.names[t].value);
      EmptyCell(g, book, SideOf(p.mode), i, t);
    }
  }

  lemma EmptyCell(g: Graph, book: Book, side: GV.Side, i: nat, key: nat)
    requires Represents(g, book, {}) && |GV.Table(side, g)| == |g.names| && i < |g.names| && key < |g.names|
    requires Find(GV.Table(side, g)[i], key) < 0
    ensures side.SellingSide? ==> Listed(book.live, g.names[i], g.names[key]) == []
    ensures side.BuyingSide? ==> Listed(book.live, g.names[key], g.names[i]) == []
    ensures PoolBetween(book.pools, g.names, i, key).None?
  {
    hide Represents, Ids, Shaped, Pairs, PoolIndex, Used, Listed, ValidLive, ValidPools, PoolBetween;
    Parts(g, book, {});
    var row := GV.Table(side, g)[i];
    assert OffersAt(row, key) == [] && PoolAt(row, key).None?;
  }

  /** Some payment ends in the asset and is at least as good for the caller as one direct trade. */
  ghost predicate AsGood(mode: SearchMode, payments: seq<Payment>, asset: Asset, amount: int) {
    exists i :: 0 <= i < |payments| && payments[i].route != [] &&
      if mode.SellingGraph? then payments[i].route[0] == asset && payments[i].sourceAmount <= amount
      else payments[i].route[|payments[i].route|-1] == asset && payments[i].destinationAmount >= amount
  }

  lemma ReportIsAsGood(g: Graph, p: Problem, reports: seq<Report>, payments: seq<Payment>, t: nat, v: int)
    requires ValidProblem(p) && |payments| == |reports| && t < |g.names| && g.names[t].Some? && v > 0
    requires forall i :: 0 <= i < |payments| ==> Sound(p, reports[i]) && Shows(g, p, reports[i], payments[i])
    requires AsGoodReported(p, reports, t, v)
    ensures AsGood(p.mode, payments, g.names[t].value, v)
  {
    hide ValidProblem, Sound, Shows;
    var i :| 0 <= i < |reports| && Last(reports[i]) == t && !Better(p.mode, reports[i].amount, v);
    EndShown(g, p, reports[i], payments[i]);
  }

  /** The computed end of a payment is the end of the path that was found. */
  lemma EndShown(g: Graph, p: Problem, r: Report, payment: Payment)
    requires ValidProblem(p) && Sound(p, r) && Shows(g, p, r, payment)
    requires Last(r) < |g.names| && g.names[Last(r)].Some?
    ensures payment.route != []
    ensures p.mode.SellingGraph? ==> payment.route[0] == g.names[Last(r)].value && payment.sourceAmount == r.amount
    ensures p.mode.BuyingGraph? ==>
      payment.route[|payment.route|-1] == g.names[Last(r)].value && payment.destinationAmount == r.amount
  {
    hide ValidProblem, Flow, Find, Include;
    var names := Names(g, r.path);
    assert names[|names|-1] == g.names[Last(r)].value;
  }

  /** A wanted asset that the book trades directly is reported at least as well. */
  lemma DirectTradeFound(g: Graph, book: Book, p: Problem, reports: seq<Report>, payments: seq<Payment>, t: nat)
    requires Represents(g, book, {}) && p.venues == GV.Table(SideOf(p.mode), g) && |p.venues| == |g.names|
    requires ValidProblem(p) && ValidBook(book) && p.amount > 0 && p.maxPathLength >= 1
    requires t < |g.names| && t != p.source && g.names[p.source].Some? && g.names[t].Some?
    requires BookYield(book, p.mode, g.names[p.source].value, p.amount, g.names[t].value) > 0
    requires Include(p.mode, t, BookYield(book, p.mode, g.names[p.source].value, p.amount, g.names[t].value))
    requires |payments| == |reports| && DirectTradesReported(p, reports)
    requires forall i :: 0 <= i < |payments| ==> Sound(p, reports[i]) && Shows(g, p, reports[i], payments[i])
    ensures AsGood(p.mode, payments, g.names[t].value,
                   BookYield(book, p.mode, g.names[p.source].value, p.amount, g.names[t].value))
  {
    hide Represents, ValidRow, ValidBook, BookYield, Hop, Sound, Shows, AsGoodReported, Include, AsGood;
    YieldIsHop(g, book, p, p.source, p.amount, t);
    ReportIsAsGood(g, p, reports, payments, t, Hop(p, p.source, p.amount, t));
  }

  /** What two trades of the book yield, one after the other; 0 when the first yields nothing. */
  ghost function TwoYields(book: Book, mode: SearchMode, x: Asset, amount: int, y: Asset, z: Asset): int
    requires ValidBook(book) && 0 < amount <= MAX_INT64
  {
    var first := BookYield(book, mode, x, amount, y);
    if 0 < first <= MAX_INT64 then BookYield(book, mode, y, first, z) else 0
  }

  /** A wanted asset that the book gives by two trades is reported at least as well. */
  lemma TwoTradesFound(g: Graph, book: Book, p: Problem, reports: seq<Report>, payments: seq<Payment>, b: nat, t: nat)
    requires Represents(g, book, {}) && p.venues == GV.Table(SideOf(p.mode), g) && |p.venues| == |g.names|
    requires ValidProblem(p) && ValidBook(book) && p.amount > 0 && p.maxPathLength >= 2
    requires b < |g.names| && t < |g.names| && Distinct([p.source, b, t])
    requires g.names[p.source].Some? && g.names[b].Some? && g.names[t].Some?
    requires TwoYields(book, p.mode, g.names[p.source].value, p.amount, g.names[b].value, g.names[t].value) > 0
    requires Include(p.mode, t,
      TwoYields(book, p.mode, g.names[p.source].value, p.amount, g.names[b].value, g.names[t].value))
    requires |payments| == |reports| && TwoTradesReported(p, reports)
    requires forall i :: 0 <= i < |payments| ==> Sound(p, reports[i]) && Shows(g, p, reports[i], payments[i])
    ensures AsGood(p.mode, payments, g.names[t].value,
      TwoYields(book, p.mode, g.names[p.source].value, p.amount, g.names[b].value, g.names[t].value))
  {
    hide Represents, ValidRow, ValidBook, BookYield, Hop, Sound, Shows, AsGoodReported, Include, AsGood;
    var x, y := g.names[p.source].value, g.names[b].value;
    assert [p.source, b, t][0] != [p.source, b, t][1] && [p.source, b, t][1] != [p.source, b, t][2];
    YieldIsHop(g, book, p, p.source, p.amount, b);
    var first := BookYield(book, p.mode, x, p.amount, y);
    YieldIsHop(g, book, p, b, first, t);
    assert TwoTradesGood(p, reports, b, t);
    ReportIsAsGood(g, p, reports, payments, t, Hop(p, b, first, t));
  }

  /** The assets of two trades that yield something are known to the graph, under different ids. */
  lemma TwoTradesKnown(g: Graph, book: Book, mode: SearchMode, x: Asset, amount: int, y: Asset, z: Asset)
    requires Represents(g, book, {}) && ValidBook(book) && 0 < amount <= MAX_INT64 && Distinct([x, y, z])
    requires TwoYields(book, mode, x, amount, y, z) > 0
    ensures x in g.ids && y in g.ids && z in g.ids
    ensures g.ids[x] < |g.names| && g.ids[y] < |g.names| && g.ids[z] < |g.names|
    ensures g.names[g.ids[x]] == Some(x) && g.names[g.ids[y]] == Some(y) && g.names[g.ids[z]] == Some(z)
    ensures Distinct([g.ids[x], g.ids[y], g.ids[z]])
  {
    hide Represents, ValidBook, BookYield;
    YieldingAssetsKnown(g, book, mode, x, amount, y);
    YieldingAssetsKnown(g, book, mode, y, BookYield(book, mode, x, amount, y), z);
    IdInRange(g, book, {}, x);
    IdInRange(g, book, {}, y);
    IdInRange(g, book, {}, z);
    NameOf(g, book, x);
    NameOf(g, book, y);
    NameOf(g, book, z);
    assert [x, y, z][0] != [x, y, z][1] && [x, y, z][0] != [x, y, z][2] && [x, y, z][1] != [x, y, z][2];
  }

  lemma SameTwoYields(book: Book, mode: SearchMode, terms: SearchMode, x: Asset, amount: int, y: Asset, z: Asset)
    requires ValidBook(book) && 0 < amount <= MAX_INT64 && mode.includePools == terms.includePools
    requires mode.SellingGraph? <==> terms.SellingGraph?
    requires mode.SellingGraph? ==> mode.ignoreOffersFrom == terms.ignoreOffersFrom
    ensures TwoYields(book, mode, x, amount, y, z) == TwoYields(book, terms, x, amount, y, z)
  {
    hide ValidBook, BookYield;
    SameYield(book, mode, terms, x, amount, y);
    var first := BookYield(book, mode, x, amount, y);
    if 0 < first <= MAX_INT64 {
      SameYield(book, mode, terms, y, first, z);
    }
  }

  // ---------- the two entry points ----------

  /** The payment of a result, with ids turned into assets. */
  ghost predicate Shows(g: Graph, p: Problem, r: Report, payment: Payment) {
    && Named(g, r.path)
    && payment.route == (if p.mode.SellingGraph? then Reversed(Names(g, r.path)) else Names(g, r.path))
    && payment.sourceAmount == (if p.mode.SellingGraph? then r.amount else p.amount)
    && payment.destinationAmount == (if p.mode.SellingGraph? then p.amount else r.amount)
  }

  lemma PaymentShown(g: Graph, book: Book, p: Problem, pp: PaymentPath, r: Report)
    requires Represents(g, book, {}) && p.venues == GV.Table(SideOf(p.mode), g) && |p.venues| == |g.names|
    requires ValidProblem(p) && Sound(p, r) && Pays(p, pp, r) && g.names[p.source].Some?
    ensures Named(g, Route(pp)) && Named(g, r.path)
    ensures Shows(g, p, r, Payment(Names(g, Route(pp)), pp.sourceAmount, pp.destinationAmount))
  {
    hide Represents, ValidProblem, Tradable, Flow, Find, Honest;
    SoundIsHonest(g, book, p, pp, r);
    PathNamed(g, book, p, r.path);
  }

  lemma BookIsValid(g: Graph, book: Book)
    requires Represents(g, book, {})
    ensures ValidBook(book)
  {
  }

  /** Runs one search on a graph and names the assets of what it finds. */
  method SearchGraph(graph: OrderBookGraph, p: Problem, cancellable: bool)
    returns (r: PathSearch.Outcome, payments: seq<Payment>, ghost reports: seq<Report>)
    requires graph.Valid() && p.venues == GV.Table(SideOf(p.mode), graph.State())
    requires p.source < |graph.names| && graph.names[p.source].Some? && 0 <= p.amount <= MAX_INT64
    ensures ValidProblem(p) && ValidBook(graph.book) && |payments| == |reports|
    ensures !r.Failed? && (r.Cancelled? ==> cancellable)
    ensures forall i :: 0 <= i < |payments| ==>
      && Sound(p, reports[i]) && Shows(graph.State(), p, reports[i], payments[i])
      && Honest(graph.book, payments[i], p.maxPathLength)
      && Charged(graph.book, p.mode, payments[i])
    ensures r.Finished? ==> DirectTradesReported(p, reports) && TwoTradesReported(p, reports)
    ensures r.Finished? && p.amount > 0 && Include(p.mode, p.source, p.amount) ==>
      AsGood(p.mode, payments, graph.names[p.source].value, p.amount)
  {
    hide Represents, ValidBook, ValidProblem, Sound, Pays, Honest, Shows, Charged, GV.Table, Better,
      DirectTradesReported;
    var g := graph.State();
    BookIsValid(g, graph.book);
    GraphIsSearchable(g, graph.book, p);
    var paths;
    ghost var history;
    r, paths, reports, history := RunSearch(p, cancellable);
    payments := [];
    for i := 0 to |paths|
      invariant |payments| == i
      invariant forall j :: 0 <= j < i ==>
        && Sound(p, reports[j]) && Shows(g, p, reports[j], payments[j])
        && Honest(graph.book, payments[j], p.maxPathLength) && Charged(graph.book, p.mode, payments[j])
    {
      SoundIsHonest(g, graph.book, p, paths[i], reports[i]);
      PaymentShown(g, graph.book, p, paths[i], reports[i]);
      var payment := Payment(Names(g, Route(paths[i])), paths[i].sourceAmount, paths[i].destinationAmount);
      SoundIsCharged(g, graph.book, p, reports[i], payment);
      payments := payments + [payment];
    }
    if r.Finished? && p.amount > 0 && Include(p.mode, p.source, p.amount) {
      ReportIsAsGood(g, p, reports, payments, p.source, p.amount);
    }
  }

  /** The payment starts with one of the given assets, of which the balance suffices if that is asked for. */
  ghost predicate Affordable(sources: seq<(Asset, int)>, validate: bool, payment: Payment) {
    payment.route != [] &&
    exists k :: 0 <= k < |sources| && LastEntry(sources, k)
      && Suffices(sources[k], validate, payment.route[0], payment.sourceAmount)
  }

  /** No later entry is for the same asset. */
  ghost predicate LastEntry(sources: seq<(Asset, int)>, k: int)
    requires 0 <= k < |sources|
  {
    forall j :: k < j < |sources| ==> sources[j].0 != sources[k].0
  }

  ghost predicate Suffices(source: (Asset, int), validate: bool, asset: Asset, cost: int) {
    source.0 == asset && (!validate || source.1 >= cost)
  }

  /** Every given asset whose balance covers a direct trade for the amount starts a payment that costs no more. */
  ghost predicate SourcesFound(book: Book, terms: SearchMode, destination: Asset, amount: int,
                               sources: seq<(Asset, int)>,
                               validate: bool, payments: seq<Payment>)
    requires ValidBook(book) && 0 < amount <= MAX_INT64
  {
    forall k :: 0 <= k < |sources| && sources[k].0 != destination ==>
      var cost := BookYield(book, terms, destination, amount, sources[k].0);
      cost > 0 && Covered(sources, validate, sources[k].0, cost) ==> AsGood(terms, payments, sources[k].0, cost)
  }

  /** The same for the sources that reach the destination by two trades, over any asset between. */
  ghost predicate SourcesFoundByTwo(book: Book, terms: SearchMode, destination: Asset, amount: int,
                                    sources: seq<(Asset, int)>, validate: bool, payments: seq<Payment>)
    requires ValidBook(book) && 0 < amount <= MAX_INT64
  {
    forall k, between: Asset :: 0 <= k < |sources| && Distinct([destination, between, sources[k].0]) ==>
      var cost := TwoYields(book, terms, destination, amount, between, sources[k].0);
      cost > 0 && Covered(sources, validate, sources[k].0, cost) ==> AsGood(terms, payments, sources[k].0, cost)
  }

  /** The balance given last for the asset is enough. */
  ghost predicate Covered(sources: seq<(Asset, int)>, validate: bool, asset: Asset, cost: int) {
    !validate || forall k :: 0 <= k < |sources| && sources[k].0 == asset && LastEntry(sources, k) ==>
      sources[k].1 >= cost
  }

  ghost predicate Given(sources: seq<(Asset, int)>, asset: Asset) {
    exists k :: 0 <= k < |sources| && sources[k].0 == asset
  }

  /** A given asset that the graph knows, with enough of it, is one the search wants. */
  lemma GivenIncluded(g: Graph, book: Book, sources: seq<(Asset, int)>, mode: SearchMode, asset: Asset, cost: int)
    requires Represents(g, book, {}) && mode.SellingGraph? && BalancesOf(g, sources, mode.sources)
    requires asset in g.ids && Given(sources, asset) && Covered(sources, mode.validateSourceBalance, asset, cost)
    ensures Include(mode, g.ids[asset], cost)
  {
    hide Represents, LastEntry;
    var k :| 0 <= k < |sources| && sources[k].0 == asset;
    var id := g.ids[asset];
    assert id in mode.sources;
    var j :| 0 <= j < |sources| && LastEntry(sources, j) && Balance(g, sources[j], id, mode.sources[id]);
    IdInRange(g, book, {}, sources[j].0);
    NameOf(g, book, sources[j].0);
    IdInRange(g, book, {}, asset);
    NameOf(g, book, asset);
  }

  /** Paths that deliver exactly the given amount of the destination asset (strict receive). */
  method FindPaths(graph: OrderBookGraph, maxPathLength: nat, destination: Asset, amount: int,
                   ignoreOffersFrom: Option<string>,
                   sources: seq<(Asset, int)>, validateSourceBalance: bool, includePools: bool, cancellable: bool)
    returns (r: PathSearch.Outcome, payments: seq<Payment>)
    requires graph.Valid() && 0 <= amount <= MAX_INT64
    ensures !r.Failed? && (r.Cancelled? ==> cancellable) && ValidBook(graph.book)
    ensures forall i :: 0 <= i < |payments| ==>
      && Honest(graph.book, payments[i], maxPathLength)
      && Charged(graph.book, StrictReceive(ignoreOffersFrom, includePools), payments[i])
      && payments[i].route[|payments[i].route|-1] == destination && payments[i].destinationAmount == amount
      && Affordable(sources, validateSourceBalance, payments[i])
    ensures r.Finished? && amount > 0 && destination in graph.State().ids ==>
      Given(sources, destination) && Covered(sources, validateSourceBalance, destination, amount) ==>
        AsGood(StrictReceive(ignoreOffersFrom, includePools), payments, destination, amount)
    ensures r.Finished? && amount > 0 && maxPathLength >= 1 ==>
      SourcesFound(graph.book, StrictReceive(ignoreOffersFrom, includePools), destination, amount, sources,
                   validateSourceBalance, payments)
    ensures r.Finished? && amount > 0 && maxPathLength >= 2 ==>
      SourcesFoundByTwo(graph.book, StrictReceive(ignoreOffersFrom, includePools), destination, amount, sources,
                        validateSourceBalance, payments)
  {
    hide SourcesFound, SourcesFoundByTwo, AsGood, BookYield, DirectTradesReported, TwoTradesReported, Honest;
    hide Represents, ValidBook, BalancesOf, ValidProblem, Sound, Shows, Tradable, Affordable, BookFlow, Reversed;
    hide Covered, Given;
    var g := graph.State();
    BookIsValid(g, graph.book);
    var targets := TargetBalances(g, sources);
    if destination !in g.ids || targets == map[] {
      NoneGiven(g, sources, targets, destination);
      NoSourceKnown(g, graph.book, StrictReceive(ignoreOffersFrom, includePools), destination, amount, sources,
        validateSourceBalance, targets);
      NoSourceByTwo(g, graph.book, StrictReceive(ignoreOffersFrom, includePools), destination, amount, sources,
        validateSourceBalance, targets);
      return PathSearch.Finished, [];
    }
    IdInRange(g, graph.book, {}, destination);
    NameOf(g, graph.book, destination);
    var mode := SellingGraph(ignoreOffersFrom, targets, validateSourceBalance, includePools);
    var p := Problem(mode, graph.venuesForSellingAsset, g.ids[destination], amount, maxPathLength);
    ghost var reports;
    r, payments, reports := SearchGraph(graph, p, cancellable);
    forall i | 0 <= i < |payments|
      ensures |payments[i].route| >= 1 && payments[i].route[|payments[i].route|-1] == destination
      ensures payments[i].destinationAmount == amount
      ensures Affordable(sources, validateSourceBalance, payments[i])
      ensures Charged(graph.book, StrictReceive(ignoreOffersFrom, includePools), payments[i])
    {
      TermsDecide(graph.book, mode, StrictReceive(ignoreOffersFrom, includePools), payments[i].destinationAmount,
        Reversed(payments[i].route));
      SourceIsTarget(g, graph.book, p, reports[i], payments[i], sources, destination);
    }
    if Given(sources, destination) && Covered(sources, validateSourceBalance, destination, amount) {
      GivenIncluded(g, graph.book, sources, mode, destination, amount);
      SameGoal(mode, StrictReceive(ignoreOffersFrom, includePools), payments, destination, amount);
    }
    if r.Finished? && amount > 0 && maxPathLength >= 1 {
      GraphIsSearchable(g, graph.book, p);
      AllSourcesFound(g, graph.book, p, StrictReceive(ignoreOffersFrom, includePools), sources, destination, reports,
        payments);
      if maxPathLength >= 2 {
        AllSourcesFoundByTwo(g, graph.book, p, StrictReceive(ignoreOffersFrom, includePools), sources, destination,
          reports, payments);
      }
    }
  }

  lemma NoneGiven(g: Graph, sources: seq<(Asset, int)>, targets: map<nat, int>, asset: Asset)
    requires BalancesOf(g, sources, targets) && (asset !in g.ids || targets == map[])
    ensures !(asset in g.ids && Given(sources, asset))
  {
  }

  lemma SameGoal(mode: SearchMode, terms: SearchMode, payments: seq<Payment>, asset: Asset, amount: int)
    requires mode.SellingGraph? <==> terms.SellingGraph?
    ensures AsGood(mode, payments, asset, amount) <==> AsGood(terms, payments, asset, amount)
  {
  }

  /** A graph that does not know the destination, or none of the sources, has no direct trade for them. */
  lemma NoSourceKnown(g: Graph, book: Book, terms: SearchMode, destination: Asset, amount: int,
                      sources: seq<(Asset, int)>,
                      validate: bool, targets: map<nat, int>)
    requires Represents(g, book, {}) && ValidBook(book) && BalancesOf(g, sources, targets)
    requires destination !in g.ids || targets == map[]
    ensures 0 < amount <= MAX_INT64 ==> SourcesFound(book, terms, destination, amount, sources, validate, [])
  {
    hide Represents, ValidBook, BookYield;
    if 0 < amount <= MAX_INT64 {
      forall k | 0 <= k < |sources| && BookYield(book, terms, destination, amount, sources[k].0) > 0
        ensures false
      {
        YieldingAssetsKnown(g, book, terms, destination, amount, sources[k].0);
      }
    }
  }

  lemma AllSourcesFound(g: Graph, book: Book, p: Problem, terms: SearchMode, sources: seq<(Asset, int)>,
                        destination: Asset,
                        reports: seq<Report>, payments: seq<Payment>)
    requires Represents(g, book, {}) && p.venues == GV.Table(SideOf(p.mode), g) && |p.venues| == |g.names|
    requires ValidProblem(p) && ValidBook(book) && p.amount > 0 && p.maxPathLength >= 1
    requires p.mode.SellingGraph? && terms == StrictReceive(p.mode.ignoreOffersFrom, p.mode.includePools)
    requires BalancesOf(g, sources, p.mode.sources) && g.names[p.source] == Some(destination)
    requires |payments| == |reports| && DirectTradesReported(p, reports)
    requires forall i :: 0 <= i < |payments| ==> Sound(p, reports[i]) && Shows(g, p, reports[i], payments[i])
    ensures SourcesFound(book, terms, destination, p.amount, sources, p.mode.validateSourceBalance, payments)
  {
    hide Represents, ValidBook, ValidRow, BookYield, Sound, Shows, DirectTradesReported, LastEntry, BalancesOf, Covered;
    var validate := p.mode.validateSourceBalance;
    forall k | 0 <= k < |sources| && sources[k].0 != destination
      && BookYield(book, terms, destination, p.amount, sources[k].0) > 0
      && Covered(sources, validate, sources[k].0, BookYield(book, terms, destination, p.amount, sources[k].0))
      ensures AsGood(terms, payments, sources[k].0, BookYield(book, terms, destination, p.amount, sources[k].0))
    {
      var x := sources[k].0;
      YieldingAssetsKnown(g, book, terms, destination, p.amount, x);
      IdInRange(g, book, {}, x);
      NameOf(g, book, x);
      var t := g.ids[x];
      SameYield(book, p.mode, terms, destination, p.amount, x);
      GivenIncluded(g, book, sources, p.mode, x, BookYield(book, terms, destination, p.amount, x));
      DirectTradeFound(g, book, p, reports, payments, t);
    }
  }

  lemma NoSourceByTwo(g: Graph, book: Book, terms: SearchMode, destination: Asset, amount: int,
                      sources: seq<(Asset, int)>, validate: bool, targets: map<nat, int>)
    requires Represents(g, book, {}) && ValidBook(book) && BalancesOf(g, sources, targets)
    requires destination !in g.ids || targets == map[]
    ensures 0 < amount <= MAX_INT64 ==> SourcesFoundByTwo(book, terms, destination, amount, sources, validate, [])
  {
    hide Represents, ValidBook, TwoYields, Distinct;
    if 0 < amount <= MAX_INT64 {
      forall k, between: Asset | 0 <= k < |sources| && Distinct([destination, between, sources[k].0])
        && TwoYields(book, terms, destination, amount, between, sources[k].0) > 0
        ensures false
      {
        TwoTradesKnown(g, book, terms, destination, amount, between, sources[k].0);
      }
    }
  }

  lemma AllSourcesFoundByTwo(g: Graph, book: Book, p: Problem, terms: SearchMode, sources: seq<(Asset, int)>,
                             destination: Asset, reports: seq<Report>, payments: seq<Payment>)
    requires Represents(g, book, {}) && p.venues == GV.Table(SideOf(p.mode), g) && |p.venues| == |g.names|
    requires ValidProblem(p) && ValidBook(book) && p.amount > 0 && p.maxPathLength >= 2
    requires p.mode.SellingGraph? && terms == StrictReceive(p.mode.ignoreOffersFrom, p.mode.includePools)
    requires BalancesOf(g, sources, p.mode.sources) && g.names[p.source] == Some(destination)
    requires destination in g.ids && g.ids[destination] == p.source
    requires |payments| == |reports| && TwoTradesReported(p, reports)
    requires forall i :: 0 <= i < |payments| ==> Sound(p, reports[i]) && Shows(g, p, reports[i], payments[i])
    ensures SourcesFoundByTwo(book, terms, destination, p.amount, sources, p.mode.validateSourceBalance, payments)
  {
    hide Represents, ValidBook, ValidRow, TwoYields, Sound, Shows, TwoTradesReported, Distinct, LastEntry, BalancesOf;
    hide Covered;
    forall k, between: Asset | 0 <= k < |sources| && Distinct([destination, between, sources[k].0])
      && TwoYields(book, terms, destination, p.amount, between, sources[k].0) > 0
      && Covered(sources, p.mode.validateSourceBalance, sources[k].0,
                 TwoYields(book, terms, destination, p.amount, between, sources[k].0))
      ensures AsGood(terms, payments, sources[k].0,
                     TwoYields(book, terms, destination, p.amount, between, sources[k].0))
    {
      var x := sources[k].0;
      TwoTradesKnown(g, book, terms, destination, p.amount, between, x);
      var t := g.ids[x];
      SameTwoYields(book, p.mode, terms, destination, p.amount, between, x);
      GivenIncluded(g, book, sources, p.mode, x, TwoYields(book, terms, destination, p.amount, between, x));
      TwoTradesFound(g, book, p, reports, payments, g.ids[between], t);
    }
  }

  lemma SameYield(book: Book, mode: SearchMode, terms: SearchMode, x: Asset, amount: int, y: Asset)
    requires ValidBook(book) && 0 < amount <= MAX_INT64 && mode.includePools == terms.includePools
    requires mode.SellingGraph? <==> terms.SellingGraph?
    requires mode.SellingGraph? ==> mode.ignoreOffersFrom == terms.ignoreOffersFrom
    ensures BookYield(book, mode, x, amount, y) == BookYield(book, terms, x, amount, y)
  {
    hide ValidBook, ValidVenues, VenueOutcome;
    BookEdgeValid(book, mode, x, y);
    SameTerms(mode, terms, amount, BookEdge(book, mode, x, y));
  }

  ghost predicate Balance(g: Graph, source: (Asset, int), id: nat, balance: int) {
    source.0 in g.ids && g.ids[source.0] == id && source.1 == balance
  }

  ghost predicate BalancesOf(g: Graph, sources: seq<(Asset, int)>, targets: map<nat, int>) {
    && (forall id :: id in targets ==>
          exists k :: 0 <= k < |sources| && LastEntry(sources, k) && Balance(g, sources[k], id, targets[id]))
    && (forall k :: 0 <= k < |sources| && sources[k].0 in g.ids ==> g.ids[sources[k].0] in targets)
  }

  /** Balances by id, for the assets the graph knows; a later entry for an asset replaces an earlier one. */
  method TargetBalances(g: Graph, sources: seq<(Asset, int)>) returns (targets: map<nat, int>)
    ensures BalancesOf(g, sources, targets)
  {
    targets := map[];
    assert sources[..0] == [];
    for i := 0 to |sources|
      invariant BalancesOf(g, sources[..i], targets)
    {
      var (asset, balance) := sources[i];
      var before := targets;
      if asset in g.ids {
        targets := targets[g.ids[asset] := balance];
      }
      BalanceAdded(g, sources[..i], before, sources[i]);
      assert sources[..i] + [sources[i]] == sources[..i+1];
    }
    assert sources[..|sources|] == sources;
  }

  lemma BalanceAdded(g: Graph, sources: seq<(Asset, int)>, targets: map<nat, int>, next: (Asset, int))
    requires BalancesOf(g, sources, targets)
    ensures BalancesOf(g, sources + [next],
                       if next.0 in g.ids then targets[g.ids[next.0] := next.1] else targets)
  {
    var all, n := sources + [next], |sources|;
    var after := if next.0 in g.ids then targets[g.ids[next.0] := next.1] else targets;
    forall id | id in after
      ensures exists k :: 0 <= k < |all| && LastEntry(all, k) && Balance(g, all[k], id, after[id])
    {
      if next.0 in g.ids && id == g.ids[next.0] {
        assert LastEntry(all, n) && Balance(g, all[n], id, after[id]);
      } else {
        var k :| 0 <= k < n && LastEntry(sources, k) && Balance(g, sources[k], id, targets[id]);
        assert LastEntry(all, k) && Balance(g, all[k], id, after[id]);
      }
    }
  }

  lemma SourceIsTarget(g: Graph, book: Book, p: Problem, r: Report, payment: Payment, sources: seq<(Asset, int)>,
                       destination: Asset)
    requires Represents(g, book, {})
    requires ValidProblem(p) && Sound(p, r) && Shows(g, p, r, payment) && p.mode.SellingGraph?
    requires BalancesOf(g, sources, p.mode.sources) && p.source < |g.names| && g.names[p.source] == Some(destination)
    ensures |payment.route| >= 1 && payment.route[|payment.route|-1] == destination
    ensures payment.destinationAmount == p.amount
    ensures Affordable(sources, p.mode.validateSourceBalance, payment)
  {
    hide ValidProblem, Flow, Find, Represents;
    var id := r.path[|r.path|-1];
    var k :| 0 <= k < |sources| && LastEntry(sources, k) && Balance(g, sources[k], id, p.mode.sources[id]);
    IdInRange(g, book, {}, sources[k].0);
    NameOf(g, book, sources[k].0);
    assert payment.route[0] == g.names[id].value;
    assert Suffices(sources[k], p.mode.validateSourceBalance, payment.route[0], payment.sourceAmount);
  }

  ghost predicate IdsOf(g: Graph, destinations: seq<Asset>, targets: set<nat>) {
    && (forall id :: id in targets ==>
          exists k :: 0 <= k < |destinations| && destinations[k] in g.ids && g.ids[destinations[k]] == id)
    && (forall k :: 0 <= k < |destinations| && destinations[k] in g.ids ==> g.ids[destinations[k]] in targets)
  }

  /** The ids of the assets that the graph knows. */
  method TargetIds(g: Graph, destinations: seq<Asset>) returns (targets: set<nat>)
    ensures IdsOf(g, destinations, targets)
  {
    targets := {};
    for i := 0 to |destinations|
      invariant forall id :: id in targets ==>
        exists k :: 0 <= k < i && destinations[k] in g.ids && g.ids[destinations[k]] == id
      invariant forall k :: 0 <= k < i && destinations[k] in g.ids ==> g.ids[destinations[k]] in targets
    {
      if destinations[i] in g.ids {
        targets := targets + {g.ids[destinations[i]]};
      }
    }
  }

  /** Every given asset that the amount buys directly ends a payment that gives no less. */
  ghost predicate DestinationsFound(book: Book, terms: SearchMode, source: Asset, amount: int, destinations: seq<Asset>,
                                    payments: seq<Payment>)
    requires ValidBook(book) && 0 < amount <= MAX_INT64
  {
    forall k :: 0 <= k < |destinations| && destinations[k] != source ==>
      var given := BookYield(book, terms, source, amount, destinations[k]);
      given > 0 ==> AsGood(terms, payments, destinations[k], given)
  }

  /** The same for the assets that two trades give, over any asset between. */
  ghost predicate DestinationsFoundByTwo(book: Book, terms: SearchMode, source: Asset, amount: int,
                                         destinations: seq<Asset>, payments: seq<Payment>)
    requires ValidBook(book) && 0 < amount <= MAX_INT64
  {
    forall k, between: Asset :: 0 <= k < |destinations| && Distinct([source, between, destinations[k]]) ==>
      var given := TwoYields(book, terms, source, amount, between, destinations[k]);
      given > 0 ==> AsGood(terms, payments, destinations[k], given)
  }

  /** Paths that spend exactly the given amount of the source asset (strict send). */
  method FindFixedPaths(graph: OrderBookGraph, maxPathLength: nat, source: Asset, amount: int, destinations: seq<Asset>,
                        includePools: bool, cancellable: bool)
    returns (r: PathSearch.Outcome, payments: seq<Payment>)
    requires graph.Valid() && 0 <= amount <= MAX_INT64
    ensures !r.Failed? && (r.Cancelled? ==> cancellable) && ValidBook(graph.book)
    ensures forall i :: 0 <= i < |payments| ==>
      && Honest(graph.book, payments[i], maxPathLength)
      && Charged(graph.book, StrictSend(includePools), payments[i])
      && payments[i].route[0] == source && payments[i].sourceAmount == amount
      && payments[i].route[|payments[i].route|-1] in destinations
    ensures r.Finished? && amount > 0 && source in graph.State().ids && source in destinations ==>
      AsGood(StrictSend(includePools), payments, source, amount)
    ensures r.Finished? && amount > 0 && maxPathLength >= 1 ==>
      DestinationsFound(graph.book, StrictSend(includePools), source, amount, destinations, payments)
    ensures r.Finished? && amount > 0 && maxPathLength >= 2 ==>
      DestinationsFoundByTwo(graph.book, StrictSend(includePools), source, amount, destinations, payments)
  {
    hide DestinationsFound, DestinationsFoundByTwo, AsGood, BookYield, DirectTradesReported, TwoTradesReported, Honest;
    hide Represents, ValidBook, IdsOf, ValidProblem, Sound, Shows, Tradable, BookFlow, Reversed;
    var g := graph.State();
    BookIsValid(g, graph.book);
    var targets := TargetIds(g, destinations);
    WantedIds(g, destinations, targets, source);
    if source !in g.ids || targets == {} {
      NoDestinationKnown(g, graph.book, StrictSend(includePools), source, amount, destinations, targets);
      NoDestinationByTwo(g, graph.book, StrictSend(includePools), source, amount, destinations, targets);
      return PathSearch.Finished, [];
    }
    IdInRange(g, graph.book, {}, source);
    NameOf(g, graph.book, source);
    var p := Problem(BuyingGraph(targets, includePools), graph.venuesForBuyingAsset, g.ids[source], amount,
      maxPathLength);
    ghost var reports;
    r, payments, reports := SearchGraph(graph, p, cancellable);
    forall i | 0 <= i < |payments|
      ensures |payments[i].route| >= 1 && payments[i].route[0] == source && payments[i].sourceAmount == amount
      ensures payments[i].route[|payments[i].route|-1] in destinations
      ensures Charged(graph.book, StrictSend(includePools), payments[i])
    {
      TermsDecide(graph.book, p.mode, StrictSend(includePools), payments[i].sourceAmount, payments[i].route);
      DestinationIsTarget(g, graph.book, p, reports[i], payments[i], destinations, source);
    }
    SameGoal(p.mode, StrictSend(includePools), payments, source, amount);
    if r.Finished? && amount > 0 && maxPathLength >= 1 {
      GraphIsSearchable(g, graph.book, p);
      AllDestinationsFound(g, graph.book, p, StrictSend(includePools), destinations, source, reports, payments);
      if maxPathLength >= 2 {
        AllDestinationsFoundByTwo(g, graph.book, p, StrictSend(includePools), destinations, source, reports, payments);
      }
    }
  }

  lemma WantedIds(g: Graph, destinations: seq<Asset>, targets: set<nat>, asset: Asset)
    requires IdsOf(g, destinations, targets)
    ensures asset in g.ids && asset in destinations ==> g.ids[asset] in targets
  {
  }

  lemma NoDestinationKnown(g: Graph, book: Book, terms: SearchMode, source: Asset, amount: int,
                           destinations: seq<Asset>,
                           targets: set<nat>)
    requires Represents(g, book, {}) && ValidBook(book) && IdsOf(g, destinations, targets)
    requires source !in g.ids || targets == {}
    ensures 0 < amount <= MAX_INT64 ==> DestinationsFound(book, terms, source, amount, destinations, [])
  {
    hide Represents, ValidBook, BookYield;
    if 0 < amount <= MAX_INT64 {
      forall k | 0 <= k < |destinations| && BookYield(book, terms, source, amount, destinations[k]) > 0
        ensures false
      {
        YieldingAssetsKnown(g, book, terms, source, amount, destinations[k]);
      }
    }
  }

  lemma AllDestinationsFound(g: Graph, book: Book, p: Problem, terms: SearchMode, destinations: seq<Asset>,
                             source: Asset,
                             reports: seq<Report>, payments: seq<Payment>)
    requires Represents(g, book, {}) && p.venues == GV.Table(SideOf(p.mode), g) && |p.venues| == |g.names|
    requires ValidProblem(p) && ValidBook(book) && p.amount > 0 && p.maxPathLength >= 1
    requires p.mode.BuyingGraph? && terms == StrictSend(p.mode.includePools)
    requires IdsOf(g, destinations, p.mode.destinations) && g.names[p.source] == Some(source)
    requires |payments| == |reports| && DirectTradesReported(p, reports)
    requires forall i :: 0 <= i < |payments| ==> Sound(p, reports[i]) && Shows(g, p, reports[i], payments[i])
    ensures DestinationsFound(book, terms, source, p.amount, destinations, payments)
  {
    hide Represents, ValidBook, ValidRow, BookYield, Sound, Shows, DirectTradesReported;
    forall k | 0 <= k < |destinations| && destinations[k] != source
      && BookYield(book, terms, source, p.amount, destinations[k]) > 0
      ensures AsGood(terms, payments, destinations[k], BookYield(book, terms, source, p.amount, destinations[k]))
    {
      var y := destinations[k];
      YieldingAssetsKnown(g, book, terms, source, p.amount, y);
      IdInRange(g, book, {}, y);
      NameOf(g, book, y);
      SameYield(book, p.mode, terms, source, p.amount, y);
      DirectTradeFound(g, book, p, reports, payments, g.ids[y]);
    }
  }

  lemma DestinationIsTarget(g: Graph, book: Book, p: Problem, r: Report, payment: Payment, destinations: seq<Asset>,
                            source: Asset)
    requires Represents(g, book, {})
    requires ValidProblem(p) && Sound(p, r) && Shows(g, p, r, payment) && p.mode.BuyingGraph?
    requires IdsOf(g, destinations, p.mode.destinations)
    requires p.source < |g.names| && g.names[p.source] == Some(source)
    ensures |payment.route| >= 1 && payment.route[0] == source && payment.sourceAmount == p.amount
    ensures payment.route[|payment.route|-1] in destinations
  {
    hide ValidProblem, Flow, Find, Represents;
    var id := r.path[|r.path|-1];
    var k :| 0 <= k < |destinations| && destinations[k] in g.ids && g.ids[destinations[k]] == id;
    IdInRange(g, book, {}, destinations[k]);
    NameOf(g, book, destinations[k]);
  }

  lemma NoDestinationByTwo(g: Graph, book: Book, terms: SearchMode, source: Asset, amount: int,
                           destinations: seq<Asset>, targets: set<nat>)
    requires Represents(g, book, {}) && ValidBook(book) && IdsOf(g, destinations, targets)
    requires source !in g.ids || targets == {}
    ensures 0 < amount <= MAX_INT64 ==> DestinationsFoundByTwo(book, terms, source, amount, destinations, [])
  {
    hide Represents, ValidBook, TwoYields, Distinct;
    if 0 < amount <= MAX_INT64 {
      forall k, between: Asset | 0 <= k < |destinations| && Distinct([source, between, destinations[k]])
        && TwoYields(book, terms, source, amount, between, destinations[k]) > 0
        ensures false
      {
        TwoTradesKnown(g, book, terms, source, amount, between, destinations[k]);
      }
    }
  }

  lemma AllDestinationsFoundByTwo(g: Graph, book: Book, p: Problem, terms: SearchMode, destinations: seq<Asset>,
                                  source: Asset, reports: seq<Report>, payments: seq<Payment>)
    requires Represents(g, book, {}) && p.venues == GV.Table(SideOf(p.mode), g) && |p.venues| == |g.names|
    requires ValidProblem(p) && ValidBook(book) && p.amount > 0 && p.maxPathLength >= 2
    requires p.mode.BuyingGraph? && terms == StrictSend(p.mode.includePools)
    requires IdsOf(g, destinations, p.mode.destinations) && g.names[p.source] == Some(source)
    requires source in g.ids && g.ids[source] == p.source
    requires |payments| == |reports| && TwoTradesReported(p, reports)
    requires forall i :: 0 <= i < |payments| ==> Sound(p, reports[i]) && Shows(g, p, reports[i], payments[i])
    ensures DestinationsFoundByTwo(book, terms, source, p.amount, destinations, payments)
  {
    hide Represents, ValidBook, ValidRow, TwoYields, Sound, Shows, TwoTradesReported, Distinct;
    forall k, between: Asset | 0 <= k < |destinations| && Distinct([source, between, destinations[k]])
      && TwoYields(book, terms, source, p.amount, between, destinations[k]) > 0
      ensures AsGood(terms, payments, destinations[k],
                     TwoYields(book, terms, source, p.amount, between, destinations[k]))
    {
      var y := destinations[k];
      TwoTradesKnown(g, book, terms, source, p.amount, between, y);
      SameTwoYields(book, p.mode, terms, source, p.amount, between, y);
      TwoTradesFound(g, book, p, reports, payments, g.ids[between], g.ids[y]);
    }
  }
}
