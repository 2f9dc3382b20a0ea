/** The consistency check of the order-book graph (Verify in exp/orderbook/graph.go): no reachable graph fails it. */
module GraphVerification {
  import opened Common
  import opened OrderBookTypes
  import opened OrderLists
  import opened EdgeSets
  import opened GraphState

  // ---------- the offers of a table, row by row and edge by edge ----------

  ghost function RowOffers(e: EdgeSet): seq<Offer> {
    if e == [] then [] else RowOffers(e[..|e|-1]) + e[|e|-1].offers
  }

  ghost function TableOffers(t: seq<EdgeSet>): seq<Offer> {
    if t == [] then [] else TableOffers(t[..|t|-1]) + RowOffers(t[|t|-1])
  }

  datatype Side = SellingSide | BuyingSide

  ghost function Own(side: Side, o: Offer): Asset {
    if side.SellingSide? then o.selling else o.buying
  }

  ghost function Other(side: Side, o: Offer): Asset {
    if side.SellingSide? then o.buying else o.selling
  }

  ghost function Table(side: Side, g: Graph): seq<EdgeSet> {
    if side.SellingSide? then g.selling else g.buying
  }

  /** What an offer of row i towards `key` must look like. */
  ghost predicate Fits(g: Graph, live: seq<Offer>, side: Side, i: nat, key: nat, o: Offer) {
    && o in live
    && i < |g.names| && key < |g.names|
    && g.names[i] == Some(Own(side, o)) && g.names[key] == Some(Other(side, o))
    && o.id in g.pairs && g.pairs[o.id] == (if side.SellingSide? then Pair(key, i) else Pair(i, key))
  }

  /** The offers of every edge fit it and are distinct. */
  lemma EdgeFits(g: Graph, book: Book, side: Side, i: nat, e: nat)
    requires Represents(g, book, {})
    requires i < |g.names| && |Table(side, g)| == |g.names| && e < |Table(side, g)[i]|
    ensures var edge := Table(side, g)[i][e];
      && edge.key < |g.names|
      && DistinctIds(edge.offers)
      && forall o :: o in edge.offers ==> Fits(g, book.live, side, i, edge.key, o)
  {
    hide *;
    Parts(g, book, {});
    var row := Table(side, g)[i];
    var edge := row[e];
    EdgeListed(g, book, side, i, e);
    var s, b := if side.SellingSide? then i else edge.key, if side.SellingSide? then edge.key else i;
    ListedDistinct(book.live, g.names[s], g.names[b]);
    forall o | o in edge.offers
      ensures Fits(g, book.live, side, i, edge.key, o)
    {
      ListedMembers(book.live, g.names[s], g.names[b], o);
      MemberFits(g, book, side, i, edge.key, o);
    }
  }

  lemma MemberFits(g: Graph, book: Book, side: Side, i: nat, key: nat, o: Offer)
    requires Represents(g, book, {}) && i < |g.names| && key < |g.names|
    requires o in book.live
    requires if side.SellingSide? then Trades(o, g.names[i], g.names[key]) else Trades(o, g.names[key], g.names[i])
    ensures Fits(g, book.live, side, i, key, o)
  {
    hide Represents, Ids, Pairs, SellingTable, BuyingTable, PoolTable, PoolIndex, Used, Shaped, ValidLive, ValidPools;
    Parts(g, book, {});
    PairOf(g.ids, g.pairs, book.live, o);
    IdOfName(g.names, g.ids, g.vacant, i);
    IdOfName(g.names, g.ids, g.vacant, key);
  }

  lemma PairOf(ids: map<Asset, nat>, pairs: map<int, Pair>, live: seq<Offer>, o: Offer)
    requires Pairs(ids, pairs, live) && o in live
    ensures o.id in pairs && o.selling in ids && o.buying in ids && pairs[o.id] == Pair(ids[o.buying], ids[o.selling])
  {
    var k :| 0 <= k < |live| && live[k] == o;
  }

  lemma IdOfName(names: seq<Option<Asset>>, ids: map<Asset, nat>, vacant: seq<nat>, i: nat)
    requires Ids(names, ids, vacant) && i < |names| && names[i].Some?
    ensures names[i].value in ids && ids[names[i].value] == i
  {
  }

  lemma EdgeListed(g: Graph, book: Book, side: Side, i: nat, e: nat)
    requires Represents(g, book, {})
    requires i < |g.names| && |Table(side, g)| == |g.names| && e < |Table(side, g)[i]|
    ensures var edge := Table(side, g)[i][e];
      && edge.key < |g.names|
      && edge.offers == (if side.SellingSide? then Listed(book.live, g.names[i], g.names[edge.key])
                         else Listed(book.live, g.names[edge.key], g.names[i]))
      && edge.pool == PoolBetween(book.pools, g.names, i, edge.key)
  {
    Parts(g, book, {});
    hide Represents, Listed, PoolBetween, Pairs, PoolIndex, Used, Ids;
    var row := Table(side, g)[i];
    FoundAt(row, e);
    assert OffersAt(row, row[e].key) == row[e].offers && PoolAt(row, row[e].key) == row[e].pool;
  }

  lemma {:induction false} ListedDistinct(live: seq<Offer>, selling: Option<Asset>, buying: Option<Asset>)
    requires ValidLive(live)
    ensures DistinctIds(Listed(live, selling, buying))
    decreases |live|
  {
    hide DistinctIds, HasId, InsertByPrice;
    if live != [] {
      var before, last := live[..|live|-1], live[|live|-1];
      ValidFront(live);
      ListedDistinct(before, selling, buying);
      if Trades(last, selling, buying) {
        ListedSorted(before, selling, buying);
        ListedIds(before, selling, buying, last.id);
        InsertDistinct(Listed(before, selling, buying), last);
      }
    } else {
      NothingDistinct();
    }
  }

  lemma ValidFront(live: seq<Offer>)
    requires ValidLive(live) && live != []
    ensures ValidLive(live[..|live|-1]) && ValidOffer(live[|live|-1])
    ensures !HasId(live[..|live|-1], live[|live|-1].id)
  {
  }

  lemma InsertDistinct(s: seq<Offer>, o: Offer)
    requires DistinctIds(s) && !HasId(s, o.id) && Sorted(s) && Priced(s) && ValidOffer(o)
    ensures DistinctIds(InsertByPrice(s, o))
  {
    hide InsertByPrice, Sorted, Priced, Cheaper;
    var k := InsertPosition(s, o);
  }

  // ---------- no offer is met twice, and every one is met ----------

  lemma DistinctConcat(a: seq<Offer>, b: seq<Offer>)
    requires DistinctIds(a) && DistinctIds(b)
    requires forall o, p :: o in a && p in b ==> o.id != p.id
    ensures DistinctIds(a + b)
  {
  }

  /** The offers met in one row before edge n: distinct, and all on an earlier edge of this row. */
  lemma {:induction false} RowDistinct(g: Graph, book: Book, side: Side, i: nat, n: nat)
    requires Represents(g, book, {})
    requires i < |g.names| && |Table(side, g)| == |g.names| && n <= |Table(side, g)[i]|
    ensures var row := Table(side, g)[i];
      && DistinctIds(RowOffers(row[..n]))
      && forall o :: o in RowOffers(row[..n]) ==> exists e :: 0 <= e < n && o in row[e].offers
    decreases n
  {
    hide *;
    var row := Table(side, g)[i];
    if n > 0 {
      var before, last := RowOffers(row[..n-1]), row[n-1];
      RowDistinct(g, book, side, i, n - 1);
      RowUnfold(row, n);
      EdgeFits(g, book, side, i, n - 1);
      forall o, p | o in before && p in last.offers
        ensures o.id != p.id
      {
        var e :| 0 <= e < n - 1 && o in row[e].offers;
        EdgeFits(g, book, side, i, e);
        DifferentEdges(g, book, side, i, e, n - 1, o, p);
      }
      DistinctConcat(before, last.offers);
    } else {
      RowUnfold(row, 0);
      NothingDistinct();
    }
  }

  lemma NothingDistinct()
    ensures DistinctIds([])
  {
  }

  lemma RowUnfold(row: EdgeSet, n: nat)
    requires n <= |row|
    ensures RowOffers(row[..n]) == if n == 0 then [] else RowOffers(row[..n-1]) + row[n-1].offers
  {
    if n > 0 {
      assert row[..n][..n-1] == row[..n-1];
    }
  }

  lemma TableUnfold(t: seq<EdgeSet>, n: nat)
    requires n <= |t|
    ensures TableOffers(t[..n]) == if n == 0 then [] else TableOffers(t[..n-1]) + RowOffers(t[n-1])
  {
    if n > 0 {
      assert t[..n][..n-1] == t[..n-1];
    }
  }

  lemma SameOffer(g: Graph, book: Book, o: Offer, p: Offer)
    requires Represents(g, book, {}) && o in book.live && p in book.live && o.id == p.id
    ensures o == p
  {
    SameIdSameOffer(book.live, o, p);
  }

  lemma SameName(g: Graph, book: Book, i: nat, j: nat)
    requires Represents(g, book, {}) && i < |g.names| && j < |g.names| && g.names[i].Some? && g.names[i] == g.names[j]
    ensures i == j
  {
    Parts(g, book, {});
    hide Represents, SellingTable, BuyingTable, PoolTable, PoolIndex, Used, Shaped, Pairs;
  }

  lemma DifferentEdges(g: Graph, book: Book, side: Side, i: nat, e: nat, f: nat, o: Offer, p: Offer)
    requires Represents(g, book, {})
    requires i < |g.names| && |Table(side, g)| == |g.names| && e < f < |Table(side, g)[i]|
    requires Fits(g, book.live, side, i, Table(side, g)[i][e].key, o)
    requires Fits(g, book.live, side, i, Table(side, g)[i][f].key, p)
    ensures o.id != p.id
  {
    Parts(g, book, {});
    hide Represents, SellingTable, BuyingTable, PoolTable, PoolIndex, Used, Pairs, Ids, ValidLive;
    var keyE, keyF := Table(side, g)[i][e].key, Table(side, g)[i][f].key;
    assert keyE != keyF;
    if o.id == p.id {
      SameOffer(g, book, o, p);
      SameName(g, book, keyE, keyF);
    }
  }

  /** The offers met in the rows before n: distinct, live, and owned by an earlier row. */
  lemma {:induction false} TableDistinct(g: Graph, book: Book, side: Side, n: nat)
    requires Represents(g, book, {}) && |Table(side, g)| == |g.names| && n <= |g.names|
    ensures var t := Table(side, g);
      && DistinctIds(TableOffers(t[..n]))
      && forall o :: o in TableOffers(t[..n]) ==> OwnedBefore(g, book.live, side, n, o)
    decreases n
  {
    hide *;
    var t := Table(side, g);
    TableUnfold(t, n);
    if n == 0 {
      NothingDistinct();
    } else {
      TableDistinct(g, book, side, n - 1);
      var before, row := TableOffers(t[..n-1]), RowOffers(t[n-1]);
      RowOwned(g, book, side, n - 1);
      forall o, p | o in before && p in row
        ensures o.id != p.id
      {
        DifferentRows(g, book, side, n - 1, o, p);
      }
      DistinctConcat(before, row);
      forall o | o in before
        ensures OwnedBefore(g, book.live, side, n, o)
      {
        OwnedLater(g, book.live, side, n - 1, o);
      }
    }
  }

  ghost predicate OwnedBefore(g: Graph, live: seq<Offer>, side: Side, n: nat, o: Offer) {
    o in live && exists i: nat :: i < n && i < |g.names| && g.names[i] == Some(Own(side, o))
  }

  lemma OwnedLater(g: Graph, live: seq<Offer>, side: Side, n: nat, o: Offer)
    requires OwnedBefore(g, live, side, n, o)
    ensures OwnedBefore(g, live, side, n + 1, o)
  {
  }

  lemma RowOwned(g: Graph, book: Book, side: Side, i: nat)
    requires Represents(g, book, {}) && |Table(side, g)| == |g.names| && i < |g.names|
    ensures var row := Table(side, g)[i];
      && DistinctIds(RowOffers(row))
      && forall o :: o in RowOffers(row) ==>
        o in book.live && g.names[i] == Some(Own(side, o)) && OwnedBefore(g, book.live, side, i + 1, o)
  {
    hide Represents, RowOffers, DistinctIds;
    var row := Table(side, g)[i];
    RowDistinct(g, book, side, i, |row|);
    assert row[..|row|] == row;
    forall o | o in RowOffers(row)
      ensures o in book.live && g.names[i] == Some(Own(side, o)) && OwnedBefore(g, book.live, side, i + 1, o)
    {
      var e :| 0 <= e < |row| && o in row[e].offers;
      EdgeFits(g, book, side, i, e);
    }
  }

  lemma DifferentRows(g: Graph, book: Book, side: Side, n: nat, o: Offer, p: Offer)
    requires Represents(g, book, {}) && n < |g.names|
    requires OwnedBefore(g, book.live, side, n, o)
    requires p in book.live && g.names[n] == Some(Own(side, p))
    ensures o.id != p.id
  {
    hide Represents;
    if o.id == p.id {
      SameOffer(g, book, o, p);
      var i: nat :| i < n && i < |g.names| && g.names[i] == Some(Own(side, o));
      SameName(g, book, i, n);
    }
  }

  lemma {:induction false} RowContains(row: EdgeSet, e: nat, o: Offer)
    requires e < |row| && o in row[e].offers
    ensures o in RowOffers(row)
    decreases |row|
  {
    if e < |row| - 1 {
      RowContains(row[..|row|-1], e, o);
    }
  }

  lemma {:induction false} TableContains(t: seq<EdgeSet>, i: nat, o: Offer)
    requires i < |t| && o in RowOffers(t[i])
    ensures o in TableOffers(t)
    decreases |t|
  {
    if i < |t| - 1 {
      TableContains(t[..|t|-1], i, o);
    }
  }

  /** Each table holds every live offer once, and nothing else. */
  lemma TableComplete(g: Graph, book: Book, side: Side)
    requires Represents(g, book, {})
    ensures DistinctIds(TableOffers(Table(side, g)))
    ensures forall o :: o in TableOffers(Table(side, g)) <==> o in book.live
  {
    hide *;
    Parts(g, book, {});
    var t := Table(side, g);
    SideLength(side, g);
    TableDistinct(g, book, side, |t|);
    assert t[..|t|] == t;
    forall o | o in book.live
      ensures o in TableOffers(t)
    {
      LiveInTable(g, book, side, o);
    }
    forall o | o in TableOffers(t)
      ensures o in book.live
    {
      OwnedIsLive(g, book.live, side, |t|, o);
    }
  }

  lemma OwnedIsLive(g: Graph, live: seq<Offer>, side: Side, n: nat, o: Offer)
    requires OwnedBefore(g, live, side, n, o)
    ensures o in live
  {
  }

  lemma SideLength(side: Side, g: Graph)
    requires |g.selling| == |g.buying| == |g.names|
    ensures |Table(side, g)| == |g.names|
  {
  }

  lemma LiveInTable(g: Graph, book: Book, side: Side, o: Offer)
    requires Represents(g, book, {}) && o in book.live && |Table(side, g)| == |g.names|
    ensures o in TableOffers(Table(side, g))
  {
    hide Represents, Listed, TableOffers, RowOffers, OffersAt, Pairs, SellingTable, BuyingTable, PoolTable, PoolIndex,
      Used, Shaped,
      ValidLive, ValidPools, WellFormed, Sorted, Priced;
    Parts(g, book, {});
    PairOf(g.ids, g.pairs, book.live, o);
    var s, b := g.ids[o.selling], g.ids[o.buying];
    Cell(g, book, {}, s, b);
    ListedMembers(book.live, g.names[s], g.names[b], o);
    var i, key := if side.SellingSide? then s else b, if side.SellingSide? then b else s;
    var row := Table(side, g)[i];
    assert o in OffersAt(row, key);
    CellInRow(row, key, o);
    TableContains(Table(side, g), i, o);
  }

  lemma CellInRow(row: EdgeSet, key: nat, o: Offer)
    requires o in OffersAt(row, key)
    ensures o in RowOffers(row)
  {
    RowContains(row, Find(row, key), o);
  }

  // ---------- the check ----------

  function PairFor(g: Graph, id: int): Pair {
    if id in g.pairs then g.pairs[id] else Pair(0, 0)
  }

  function IdFor(g: Graph, a: Asset): nat {
    if a in g.ids then g.ids[a] else 0
  }

  /** An offer of row i towards `key` trades the assets named there; the selling side also asks the index. */
  ghost predicate Placed(g: Graph, side: Side, i: nat, key: nat, o: Offer) {
    && i < |g.names| && key < |g.names|
    && g.names[i] == Some(Own(side, o)) && g.names[key] == Some(Other(side, o))
    && (side.SellingSide? ==> PairFor(g, o.id) == Pair(key, i))
  }

  ghost predicate AllPlaced(g: Graph, side: Side, i: nat, edge: Edge) {
    forall o :: o in edge.offers ==> Placed(g, side, i, edge.key, o)
  }

  /** A pool of row i towards `key` lies between the two, under the ids of its own assets, and is indexed. */
  ghost predicate PoolPlaced(g: Graph, i: nat, key: nat, venue: PoolVenue) {
    && (if venue.a == i then venue.b == key else venue.b == i && venue.a == key)
    && (venue.a, venue.b) in g.pools
    && IdFor(g, venue.entry.assetA) == venue.a && IdFor(g, venue.entry.assetB) == venue.b
  }

  /** The pool checks of one edge, the same for both tables. */
  method VerifyPool(g: Graph, i: nat, edge: Edge, venue: PoolVenue) returns (ok: bool)
    ensures ok <==> PoolPlaced(g, i, edge.key, venue)
  {
    if venue.a == i {
      if venue.b != edge.key {
        return false;
      }
    } else if venue.b == i {
      if venue.a != edge.key {
        return false;
      }
    } else {
      return false;
    }
    return (venue.a, venue.b) in g.pools
        && IdFor(g, venue.entry.assetA) == venue.a && IdFor(g, venue.entry.assetB) == venue.b;
  }

  lemma MetTwice(a: seq<Offer>, b: seq<Offer>, k: nat)
    requires k < |b| && HasId(a + b[..k], b[k].id)
    ensures !DistinctIds(a + b)
  {
    var i :| 0 <= i < |a| + k && (a + b[..k])[i].id == b[k].id;
    assert (a + b)[i] == (a + b[..k])[i] && (a + b)[|a| + k] == b[k];
  }

  lemma MetOnce(a: seq<Offer>, b: seq<Offer>, k: nat)
    requires k < |b| && DistinctIds(a + b[..k]) && !HasId(a + b[..k], b[k].id)
    ensures DistinctIds(a + b[..k+1]) && a + b[..k+1] == a + b[..k] + [b[k]]
  {
    var before := a + b[..k];
    assert a + b[..k+1] == before + [b[k]];
    assert forall i :: 0 <= i < |before| ==> before[i].id != b[k].id;
  }

  /** The offers of one edge of the selling table; fails on a repeated or misplaced offer. */
  method VerifySellingEdge(g: Graph, s: nat, edge: Edge, offerSet: map<int, Offer>, offers: seq<Offer>)
    returns (ok: bool, offerSet': map<int, Offer>, offers': seq<Offer>)
    requires s < |g.names| && edge.key < |g.names| && offerSet == OfferMap(offers) && DistinctIds(offers)
    ensures ok <==> DistinctIds(offers + edge.offers) && AllPlaced(g, SellingSide, s, edge)
    ensures ok ==> offers' == offers + edge.offers && offerSet' == OfferMap(offers')
  {
    hide DistinctIds, HasId, OfferMap;
    ok, offerSet', offers' := true, offerSet, offers;
    assert offers + edge.offers[..0] == offers;
    for k := 0 to |edge.offers|
      invariant ok && offers' == offers + edge.offers[..k] && offerSet' == OfferMap(offers') && DistinctIds(offers')
      invariant forall j :: 0 <= j < k ==> Placed(g, SellingSide, s, edge.key, edge.offers[j])
    {
      var offer := edge.offers[k];
      OfferMapKeys(offers', offer.id);
      if offer.id in offerSet' {
        MetTwice(offers, edge.offers, k);
        return false, offerSet', offers';
      }
      var pair := PairFor(g, offer.id);
      if pair.selling != s || pair.buying != edge.key {
        assert !Placed(g, SellingSide, s, edge.key, offer);
        return false, offerSet', offers';
      }
      if k == 0 {
        if Some(offer.buying) != g.names[edge.key] || Some(offer.selling) != g.names[s] {
          assert !Placed(g, SellingSide, s, edge.key, offer);
          return false, offerSet', offers';
        }
      } else {
        assert Placed(g, SellingSide, s, edge.key, edge.offers[k - 1]);
        if offer.buying != edge.offers[k - 1].buying || offer.selling != edge.offers[k - 1].selling {
          assert !Placed(g, SellingSide, s, edge.key, offer);
          return false, offerSet', offers';
        }
      }
      MetOnce(offers, edge.offers, k);
      OfferMapAppend(offers', offer);
      offerSet' := offerSet'[offer.id := offer];
      offers' := offers' + [offer];
    }
    assert edge.offers[..|edge.offers|] == edge.offers;
  }

  /** The offers still expected: those not met so far in the buying table. */
  ghost predicate Remaining(live: seq<Offer>, met: seq<Offer>, offerSet: map<int, Offer>) {
    && (forall o :: o in live && !HasId(met, o.id) ==> o.id in offerSet && offerSet[o.id] == o)
    && (forall id :: id in offerSet ==> HasId(live, id) && !HasId(met, id))
  }

  lemma OneFewer(live: seq<Offer>, met: seq<Offer>, offerSet: map<int, Offer>, o: Offer)
    requires Remaining(live, met, offerSet)
    ensures Remaining(live, met + [o], offerSet - {o.id})
  {
    forall id
      ensures HasId(met + [o], id) <==> HasId(met, id) || id == o.id
    {
      if HasId(met, id) {
        var i :| 0 <= i < |met| && met[i].id == id;
        assert (met + [o])[i].id == id;
      }
      assert (met + [o])[|met|] == o;
    }
  }

  /** The same offer, as far as the check compares two of them: the seller is not looked at. */
  predicate SameTerms(o: Offer, p: Offer) {
    o.id == p.id && o.price == p.price && o.amount == p.amount && o.buying == p.buying && o.selling == p.selling
  }

  ghost predicate Matched(all: seq<Offer>, o: Offer) {
    exists p :: p in all && SameTerms(p, o)
  }

  ghost predicate AllMatched(all: seq<Offer>, offers: seq<Offer>) {
    forall o :: o in offers ==> Matched(all, o)
  }

  lemma SameIdSame(all: seq<Offer>, o: Offer, p: Offer)
    requires DistinctIds(all) && o in all && p in all && o.id == p.id
    ensures o == p
  {
    var i :| 0 <= i < |all| && all[i] == o;
    var j :| 0 <= j < |all| && all[j] == p;
  }

  /** Looking an offer up among those still expected decides whether it is met for the first time and as noted. */
  lemma LookedUp(all: seq<Offer>, met: seq<Offer>, offerSet: map<int, Offer>, o: Offer)
    requires Remaining(all, met, offerSet) && DistinctIds(all)
    ensures Matched(all, o) && !HasId(met, o.id) <==> o.id in offerSet && SameTerms(offerSet[o.id], o)
  {
    if o.id in offerSet {
      var i :| 0 <= i < |all| && all[i].id == o.id;
      assert all[i] in all && offerSet[o.id] == all[i];
      if Matched(all, o) {
        var p :| p in all && SameTerms(p, o);
        SameIdSame(all, p, all[i]);
      }
    }
  }

  /** The offers of one edge of the buying table; fails on one not met before, or met with other contents. */
  method VerifyBuyingEdge(g: Graph, b: nat, edge: Edge, offerSet: map<int, Offer>, ghost met: seq<Offer>,
                          ghost all: seq<Offer>)
    returns (ok: bool, offerSet': map<int, Offer>)
    requires b < |g.names| && edge.key < |g.names|
    requires Remaining(all, met, offerSet) && DistinctIds(all) && DistinctIds(met)
    ensures ok <==> DistinctIds(met + edge.offers) && AllPlaced(g, BuyingSide, b, edge) && AllMatched(all, edge.offers)
    ensures ok ==> Remaining(all, met + edge.offers, offerSet')
  {
    hide Remaining, DistinctIds, HasId, Matched;
    ok, offerSet' := true, offerSet;
    assert met + edge.offers[..0] == met;
    for k := 0 to |edge.offers|
      invariant ok && Remaining(all, met + edge.offers[..k], offerSet') && DistinctIds(met + edge.offers[..k])
      invariant forall j :: 0 <= j < k ==>
        Placed(g, BuyingSide, b, edge.key, edge.offers[j]) && Matched(all, edge.offers[j])
    {
      var offer := edge.offers[k];
      LookedUp(all, met + edge.offers[..k], offerSet', offer);
      if offer.id !in offerSet' || !SameTerms(offerSet'[offer.id], offer) {
        if HasId(met + edge.offers[..k], offer.id) {
          MetTwice(met, edge.offers, k);
        }
        return false, offerSet';
      }
      if k == 0 {
        if Some(offer.buying) != g.names[b] || Some(offer.selling) != g.names[edge.key] {
          assert !Placed(g, BuyingSide, b, edge.key, offer);
          return false, offerSet';
        }
      } else {
        assert Placed(g, BuyingSide, b, edge.key, edge.offers[k - 1]);
        if offer.buying != edge.offers[k - 1].buying || offer.selling != edge.offers[k - 1].selling {
          assert !Placed(g, BuyingSide, b, edge.key, offer);
          return false, offerSet';
        }
      }
      MetOnce(met, edge.offers, k);
      OneFewer(all, met + edge.offers[..k], offerSet', offer);
      offerSet' := offerSet' - {offer.id};
    }
    assert edge.offers[..|edge.offers|] == edge.offers;
  }

  // ---------- prefixes of a pass ----------

  lemma DistinctShorter(a: seq<Offer>, b: seq<Offer>)
    requires a <= b && DistinctIds(b)
    ensures DistinctIds(a)
  {
  }

  lemma {:induction false} RowPrefix(row: EdgeSet, m: nat, n: nat)
    requires m <= n <= |row|
    ensures RowOffers(row[..m]) <= RowOffers(row[..n])
    decreases n - m
  {
    hide RowOffers;
    if m < n {
      RowPrefix(row, m, n - 1);
      RowUnfold(row, n);
    }
  }

  lemma {:induction false} TablePrefix(t: seq<EdgeSet>, m: nat, n: nat)
    requires m <= n <= |t|
    ensures TableOffers(t[..m]) <= TableOffers(t[..n])
    decreases n - m
  {
    hide TableOffers;
    if m < n {
      TablePrefix(t, m, n - 1);
      TableUnfold(t, n);
    }
  }

  ghost function RowPools(row: EdgeSet): set<Pool> {
    if row == [] then {} else
    var last := row[|row|-1];
    RowPools(row[..|row|-1]) + if last.pool.Some? then {last.pool.value.entry} else {}
  }

  ghost function TablePools(t: seq<EdgeSet>): set<Pool> {
    if t == [] then {} else TablePools(t[..|t|-1]) + RowPools(t[|t|-1])
  }

  lemma RowPoolsUnfold(row: EdgeSet, n: nat)
    requires n <= |row|
    ensures RowPools(row[..n]) == if n == 0 then {} else
      RowPools(row[..n-1]) + if row[n-1].pool.Some? then {row[n-1].pool.value.entry} else {}
  {
    if n > 0 {
      assert row[..n][..n-1] == row[..n-1];
    }
  }

  lemma TablePoolsUnfold(t: seq<EdgeSet>, n: nat)
    requires n <= |t|
    ensures TablePools(t[..n]) == if n == 0 then {} else TablePools(t[..n-1]) + RowPools(t[n-1])
  {
    if n > 0 {
      assert t[..n][..n-1] == t[..n-1];
    }
  }

  /** One pool is noted for each id among the pools seen. */
  ghost predicate PoolsNoted(seen: set<Pool>, poolIds: set<int>, pools: seq<Pool>) {
    && (forall i :: 0 <= i < |pools| ==> pools[i] in seen && pools[i].id in poolIds)
    && (forall i, j :: 0 <= i < j < |pools| ==> pools[i].id != pools[j].id)
    && (forall id :: id in poolIds ==> exists i :: 0 <= i < |pools| && pools[i].id == id)
    && (forall p :: p in seen ==> p.id in poolIds)
  }

  lemma NotePool(seen: set<Pool>, poolIds: set<int>, pools: seq<Pool>, p: Pool)
    requires PoolsNoted(seen, poolIds, pools)
    ensures p.id !in poolIds ==> PoolsNoted(seen + {p}, poolIds + {p.id}, pools + [p])
    ensures p.id in poolIds ==> PoolsNoted(seen + {p}, poolIds, pools)
  {
    if p.id !in poolIds {
      var more := pools + [p];
      forall id | id in poolIds + {p.id}
        ensures exists i :: 0 <= i < |more| && more[i].id == id
      {
        if id in poolIds {
          var i :| 0 <= i < |pools| && pools[i].id == id;
          assert more[i].id == id;
        } else {
          assert more[|pools|].id == id;
        }
      }
    }
  }

  ghost function PoolIds(pools: set<Pool>): set<int> {
    set p | p in pools :: p.id
  }

  lemma NotedIds(seen: set<Pool>, poolIds: set<int>, pools: seq<Pool>)
    requires PoolsNoted(seen, poolIds, pools)
    ensures poolIds == PoolIds(seen)
  {
    forall id | id in poolIds
      ensures id in PoolIds(seen)
    {
      var i :| 0 <= i < |pools| && pools[i].id == id;
      assert pools[i] in seen;
    }
  }

  // ---------- the pass over the selling table ----------

  /** What the pass over the selling table has gathered. */
  datatype Tally = Tally(offerSet: map<int, Offer>, offers: seq<Offer>, poolIds: set<int>, pools: seq<Pool>)

  ghost predicate Tallied(t: Tally, offers: seq<Offer>, pools: set<Pool>) {
    && t.offers == offers && DistinctIds(offers) && t.offerSet == OfferMap(offers)
    && PoolsNoted(pools, t.poolIds, t.pools)
  }

  ghost predicate SellingEdgeFine(g: Graph, s: nat, edge: Edge) {
    && AllPlaced(g, SellingSide, s, edge)
    && (edge.pool.Some? ==> PoolPlaced(g, s, edge.key, edge.pool.value))
  }

  /** The first n edges of a row are fine, and their offers have not been met before. */
  ghost predicate SellingRowPasses(g: Graph, s: nat, row: EdgeSet, n: nat, before: seq<Offer>)
    requires n <= |row|
  {
    (forall e :: 0 <= e < n ==> SellingEdgeFine(g, s, row[e])) && DistinctIds(before + RowOffers(row[..n]))
  }

  lemma SellingRowShorter(g: Graph, s: nat, row: EdgeSet, m: nat, n: nat, before: seq<Offer>)
    requires m <= n <= |row| && SellingRowPasses(g, s, row, n, before)
    ensures SellingRowPasses(g, s, row, m, before)
  {
    hide DistinctIds, RowOffers, SellingEdgeFine;
    RowPrefix(row, m, n);
    DistinctShorter(before + RowOffers(row[..m]), before + RowOffers(row[..n]));
  }

  method VerifySellingRow(g: Graph, s: nat, row: EdgeSet, t: Tally, ghost before: seq<Offer>, ghost seen: set<Pool>)
    returns (ok: bool, t': Tally)
    requires s < |g.names| && KeysBelow(row, |g.names|) && Tallied(t, before, seen)
    ensures ok <==> SellingRowPasses(g, s, row, |row|, before)
    ensures ok ==> Tallied(t', before + RowOffers(row), seen + RowPools(row))
  {
    hide RowOffers, RowPools, DistinctIds, OfferMap, PoolsNoted, AllPlaced, PoolPlaced;
    ok, t' := true, t;
    RowUnfold(row, 0);
    RowPoolsUnfold(row, 0);
    assert before + [] == before && seen + {} == seen;
    for e := 0 to |row|
      invariant ok && Tallied(t', before + RowOffers(row[..e]), seen + RowPools(row[..e]))
      invariant forall f :: 0 <= f < e ==> SellingEdgeFine(g, s, row[f])
    {
      var edge := row[e];
      RowUnfold(row, e + 1);
      RowPoolsUnfold(row, e + 1);
      assert before + RowOffers(row[..e]) + edge.offers == before + RowOffers(row[..e+1]);
      assert edge.pool.None? ==> RowPools(row[..e+1]) == RowPools(row[..e]);
      var fine, offerSet, offers := VerifySellingEdge(g, s, edge, t'.offerSet, t'.offers);
      if !fine {
        if SellingRowPasses(g, s, row, |row|, before) {
          SellingRowShorter(g, s, row, e + 1, |row|, before);
        }
        return false, t';
      }
      t' := t'.(offerSet := offerSet, offers := offers);
      if edge.pool.Some? {
        var good := VerifyPool(g, s, edge, edge.pool.value);
        if !good {
          assert !SellingEdgeFine(g, s, row[e]);
          return false, t';
        }
        var pool := edge.pool.value.entry;
        ghost var noted := seen + RowPools(row[..e]);
        NotePool(noted, t'.poolIds, t'.pools, pool);
        assert noted + {pool} == seen + RowPools(row[..e+1]);
        if pool.id !in t'.poolIds {
          t' := t'.(poolIds := t'.poolIds + {pool.id}, pools := t'.pools + [pool]);
        }
      }
    }
    assert row[..|row|] == row;
  }

  /** A vacant id has no edges; any other one is the id of its name, and its edges are fine. */
  ghost predicate SellingRowFine(g: Graph, s: nat)
    requires s < |g.selling| == |g.names|
  {
    if g.names[s].None? then g.selling[s] == [] else
    && g.names[s].value in g.ids && g.ids[g.names[s].value] == s
    && forall e :: 0 <= e < |g.selling[s]| ==> SellingEdgeFine(g, s, g.selling[s][e])
  }

  ghost predicate SellingPasses(g: Graph, n: nat)
    requires n <= |g.selling| == |g.names|
  {
    (forall s :: 0 <= s < n ==> SellingRowFine(g, s)) && DistinctIds(TableOffers(g.selling[..n]))
  }

  /** Every named row of a table that passes does so after the rows before it. */
  lemma SellingRowOf(g: Graph, s: nat)
    requires s < |g.selling| == |g.names| && g.names[s].Some? && SellingPasses(g, |g.selling|)
    ensures SellingRowPasses(g, s, g.selling[s], |g.selling[s]|, TableOffers(g.selling[..s]))
  {
    hide DistinctIds, TableOffers, SellingEdgeFine;
    var row := g.selling[s];
    assert SellingRowFine(g, s);
    TablePrefix(g.selling, s + 1, |g.selling|);
    TableUnfold(g.selling, s + 1);
    assert row[..|row|] == row;
    DistinctShorter(TableOffers(g.selling[..s+1]), TableOffers(g.selling[..|g.selling|]));
  }

  ghost function VacantIds(g: Graph): set<nat> {
    set i: nat | i < |g.names| && g.names[i].None?
  }

  ghost predicate KeysInRange(g: Graph, t: seq<EdgeSet>) {
    forall i :: 0 <= i < |t| ==> KeysBelow(t[i], |g.names|)
  }

  lemma NothingTallied(g: Graph)
    ensures Tallied(Tally(map[], [], {}, []), TableOffers(g.selling[..0]), TablePools(g.selling[..0]))
  {
  }

  /** The pass over the selling table: gathers every offer and pool, and the vacant ids. */
  method VerifySelling(g: Graph) returns (ok: bool, t: Tally, vacantSet: set<nat>)
    requires |g.selling| == |g.names| && KeysInRange(g, g.selling)
    ensures ok <==> SellingPasses(g, |g.selling|)
    ensures ok ==> Tallied(t, TableOffers(g.selling), TablePools(g.selling)) && vacantSet == VacantIds(g)
  {
    hide TableOffers, TablePools, RowOffers, RowPools, DistinctIds, OfferMap, PoolsNoted, SellingEdgeFine, KeysBelow;
    ok, t, vacantSet := true, Tally(map[], [], {}, []), {};
    NothingTallied(g);
    for s := 0 to |g.selling|
      invariant ok && Tallied(t, TableOffers(g.selling[..s]), TablePools(g.selling[..s]))
      invariant forall i :: 0 <= i < s ==> SellingRowFine(g, i)
      invariant vacantSet == set i: nat | i < s && g.names[i].None?
    {
      TableUnfold(g.selling, s + 1);
      TablePoolsUnfold(g.selling, s + 1);
      if g.names[s].None? {
        vacantSet := vacantSet + {s};
        if |g.selling[s]| > 0 {
          assert !SellingRowFine(g, s);
          return false, t, vacantSet;
        }
        EmptyRow(g.selling[s]);
        assert TableOffers(g.selling[..s]) + [] == TableOffers(g.selling[..s]);
        assert TablePools(g.selling[..s+1]) == TablePools(g.selling[..s]);
      } else {
        var a := g.names[s].value;
        if a !in g.ids || g.ids[a] != s {
          assert !SellingRowFine(g, s);
          return false, t, vacantSet;
        }
        ghost var before, seen := TableOffers(g.selling[..s]), TablePools(g.selling[..s]);
        var fine;
        fine, t := VerifySellingRow(g, s, g.selling[s], t, before, seen);
        assert g.selling[s][..|g.selling[s]|] == g.selling[s];
        if !fine {
          if SellingPasses(g, |g.selling|) {
            SellingRowOf(g, s);
          }
          return false, t, vacantSet;
        }
      }
    }
    assert g.selling[..|g.selling|] == g.selling;
  }

  lemma EmptyRow(row: EdgeSet)
    requires row == []
    ensures RowOffers(row) == [] && RowPools(row) == {}
  {
  }

  // ---------- the pass over the buying table ----------

  ghost predicate BuyingEdgeFine(g: Graph, b: nat, edge: Edge, all: seq<Offer>, poolIds: set<int>) {
    && AllPlaced(g, BuyingSide, b, edge) && AllMatched(all, edge.offers)
    && (edge.pool.Some? ==> PoolPlaced(g, b, edge.key, edge.pool.value) && edge.pool.value.entry.id in poolIds)
  }

  ghost predicate BuyingRowPasses(g: Graph, b: nat, row: EdgeSet, n: nat, met: seq<Offer>, all: seq<Offer>,
                                  poolIds: set<int>)
    requires n <= |row|
  {
    (forall e :: 0 <= e < n ==> BuyingEdgeFine(g, b, row[e], all, poolIds)) && DistinctIds(met + RowOffers(row[..n]))
  }

  lemma BuyingRowShorter(g: Graph, b: nat, row: EdgeSet, m: nat, n: nat, met: seq<Offer>, all: seq<Offer>,
                         poolIds: set<int>)
    requires m <= n <= |row| && BuyingRowPasses(g, b, row, n, met, all, poolIds)
    ensures BuyingRowPasses(g, b, row, m, met, all, poolIds)
  {
    hide DistinctIds, RowOffers, BuyingEdgeFine;
    RowPrefix(row, m, n);
    DistinctShorter(met + RowOffers(row[..m]), met + RowOffers(row[..n]));
  }

  method VerifyBuyingRow(g: Graph, b: nat, row: EdgeSet, offerSet: map<int, Offer>, poolIds: set<int>,
                         ghost met: seq<Offer>, ghost all: seq<Offer>)
    returns (ok: bool, offerSet': map<int, Offer>)
    requires b < |g.names| && KeysBelow(row, |g.names|)
    requires Remaining(all, met, offerSet) && DistinctIds(all) && DistinctIds(met)
    ensures ok <==> BuyingRowPasses(g, b, row, |row|, met, all, poolIds)
    ensures ok ==> Remaining(all, met + RowOffers(row), offerSet')
  {
    hide RowOffers, DistinctIds, Remaining, AllPlaced, AllMatched, PoolPlaced;
    ok, offerSet' := true, offerSet;
    RowUnfold(row, 0);
    assert met + [] == met;
    for e := 0 to |row|
      invariant ok && Remaining(all, met + RowOffers(row[..e]), offerSet') && DistinctIds(met + RowOffers(row[..e]))
      invariant forall f :: 0 <= f < e ==> BuyingEdgeFine(g, b, row[f], all, poolIds)
    {
      var edge := row[e];
      RowUnfold(row, e + 1);
      assert met + RowOffers(row[..e]) + edge.offers == met + RowOffers(row[..e+1]);
      var fine;
      fine, offerSet' := VerifyBuyingEdge(g, b, edge, offerSet', met + RowOffers(row[..e]), all);
      if !fine {
        if BuyingRowPasses(g, b, row, |row|, met, all, poolIds) {
          BuyingRowShorter(g, b, row, e + 1, |row|, met, all, poolIds);
        }
        return false, offerSet';
      }
      if edge.pool.Some? {
        var good := VerifyPool(g, b, edge, edge.pool.value);
        if !good || edge.pool.value.entry.id !in poolIds {
          assert !BuyingEdgeFine(g, b, row[e], all, poolIds);
          return false, offerSet';
        }
      }
    }
    assert row[..|row|] == row;
  }

  ghost predicate BuyingRowFine(g: Graph, b: nat, all: seq<Offer>, poolIds: set<int>)
    requires b < |g.buying| == |g.names|
  {
    if g.names[b].None? then g.buying[b] == [] else
    forall e :: 0 <= e < |g.buying[b]| ==> BuyingEdgeFine(g, b, g.buying[b][e], all, poolIds)
  }

  ghost predicate BuyingPasses(g: Graph, n: nat, all: seq<Offer>, poolIds: set<int>)
    requires n <= |g.buying| == |g.names|
  {
    (forall b :: 0 <= b < n ==> BuyingRowFine(g, b, all, poolIds)) && DistinctIds(TableOffers(g.buying[..n]))
  }

  lemma BuyingRowOf(g: Graph, b: nat, all: seq<Offer>, poolIds: set<int>)
    requires b < |g.buying| == |g.names| && g.names[b].Some? && BuyingPasses(g, |g.buying|, all, poolIds)
    ensures BuyingRowPasses(g, b, g.buying[b], |g.buying[b]|, TableOffers(g.buying[..b]), all, poolIds)
  {
    hide DistinctIds, TableOffers, BuyingEdgeFine;
    var row := g.buying[b];
    assert BuyingRowFine(g, b, all, poolIds);
    TablePrefix(g.buying, b + 1, |g.buying|);
    TableUnfold(g.buying, b + 1);
    assert row[..|row|] == row;
    DistinctShorter(TableOffers(g.buying[..b+1]), TableOffers(g.buying[..|g.buying|]));
  }

  /** The pass over the buying table: crosses off every offer it meets. */
  method VerifyBuying(g: Graph, offerSet: map<int, Offer>, poolIds: set<int>, ghost all: seq<Offer>)
    returns (ok: bool, offerSet': map<int, Offer>)
    requires |g.buying| == |g.names| && KeysInRange(g, g.buying)
    requires Remaining(all, [], offerSet) && DistinctIds(all)
    ensures ok <==> BuyingPasses(g, |g.buying|, all, poolIds)
    ensures ok ==> Remaining(all, TableOffers(g.buying), offerSet')
  {
    hide TableOffers, RowOffers, DistinctIds, Remaining, BuyingEdgeFine, KeysBelow;
    ok, offerSet' := true, offerSet;
    TableUnfold(g.buying, 0);
    NothingDistinct();
    for b := 0 to |g.buying|
      invariant ok && Remaining(all, TableOffers(g.buying[..b]), offerSet') && DistinctIds(TableOffers(g.buying[..b]))
      invariant forall i :: 0 <= i < b ==> BuyingRowFine(g, i, all, poolIds)
    {
      TableUnfold(g.buying, b + 1);
      if g.names[b].None? {
        if |g.buying[b]| > 0 {
          assert !BuyingRowFine(g, b, all, poolIds);
          return false, offerSet';
        }
        EmptyRow(g.buying[b]);
        assert TableOffers(g.buying[..b]) + [] == TableOffers(g.buying[..b]);
      } else {
        ghost var met := TableOffers(g.buying[..b]);
        var fine;
        fine, offerSet' := VerifyBuyingRow(g, b, g.buying[b], offerSet', poolIds, met, all);
        assert g.buying[b][..|g.buying[b]|] == g.buying[b];
        if !fine {
          if BuyingPasses(g, |g.buying|, all, poolIds) {
            BuyingRowOf(g, b, all, poolIds);
          }
          return false, offerSet';
        }
      }
    }
    assert g.buying[..|g.buying|] == g.buying;
  }

  // ---------- the whole check ----------

  ghost predicate VacantListed(g: Graph) {
    |g.vacant| == |VacantIds(g)| && forall k :: 0 <= k < |g.vacant| ==> g.vacant[k] in VacantIds(g)
  }

  /** What the check accepts. */
  ghost predicate Passes(g: Graph) {
    && |g.selling| == |g.buying| == |g.names|
    && SellingPasses(g, |g.selling|)
    && |TableOffers(g.selling)| == |g.pairs|
    && BuyingPasses(g, |g.buying|, TableOffers(g.selling), PoolIds(TablePools(g.selling)))
    && (forall o :: o in TableOffers(g.selling) ==> HasId(TableOffers(g.buying), o.id))
    && VacantListed(g)
  }

  lemma {:induction false} MapSize(offers: seq<Offer>)
    requires DistinctIds(offers)
    ensures |OfferMap(offers)| == |offers|
    ensures Remaining(offers, [], OfferMap(offers))
    decreases |offers|
  {
    hide Remaining;
    if offers != [] {
      var before, last := offers[..|offers|-1], offers[|offers|-1];
      MapSize(before);
      OfferMapKeys(before, last.id);
      assert last.id !in OfferMap(before);
      assert OfferMap(offers).Keys == OfferMap(before).Keys + {last.id};
      assert |OfferMap(offers).Keys| == |OfferMap(offers)| && |OfferMap(before).Keys| == |OfferMap(before)|;
    }
    MapRemains(offers);
  }

  lemma MapRemains(offers: seq<Offer>)
    requires DistinctIds(offers)
    ensures Remaining(offers, [], OfferMap(offers))
  {
    hide OfferMap, DistinctIds;
    forall o | o in offers
      ensures o.id in OfferMap(offers) && OfferMap(offers)[o.id] == o
    {
      OfferMapMembers(offers, o);
    }
    forall id | id in OfferMap(offers)
      ensures HasId(offers, id)
    {
      OfferMapKeys(offers, id);
    }
  }

  lemma HeldUnder(all: seq<Offer>, id: int)
    ensures HasId(all, id) <==> exists o :: o in all && o.id == id
  {
    if HasId(all, id) {
      var i :| 0 <= i < |all| && all[i].id == id;
      assert all[i] in all;
    }
  }

  /** Nothing is left to be met exactly when everything was met. */
  lemma NoneRemain(all: seq<Offer>, met: seq<Offer>, offerSet: map<int, Offer>)
    requires Remaining(all, met, offerSet)
    ensures |offerSet| == 0 <==> forall o :: o in all ==> HasId(met, o.id)
  {
    if |offerSet| == 0 {
      assert offerSet == map[];
    }
    if forall o :: o in all ==> HasId(met, o.id) {
      forall id
        ensures id !in offerSet
      {
        HeldUnder(all, id);
      }
      assert offerSet == map[];
    }
  }

  /**
   * The whole check accepts exactly the graphs that `Passes` describes, and returns the offers of the
   * selling table and one pool for each pool id on it.
   */
  method Verify(g: Graph) returns (ok: bool, offers: seq<Offer>, pools: seq<Pool>)
    requires KeysInRange(g, g.selling) && KeysInRange(g, g.buying)
    ensures ok <==> Passes(g)
    ensures ok ==> offers == TableOffers(g.selling) && DistinctIds(offers)
    ensures ok ==> PoolsNoted(TablePools(g.selling), PoolIds(TablePools(g.selling)), pools)
  {
    hide TableOffers, TablePools, PoolIds, Remaining, OfferMap, DistinctIds, HasId, PoolsNoted, SellingPasses,
      BuyingPasses, KeysInRange;
    if |g.selling| != |g.buying| || |g.selling| != |g.names| {
      return false, [], [];
    }
    var fine, tally, vacantSet := VerifySelling(g);
    if !fine {
      return false, [], [];
    }
    ghost var all := TableOffers(g.selling);
    MapSize(all);
    NotedIds(TablePools(g.selling), tally.poolIds, tally.pools);
    if |tally.offerSet| != |g.pairs| {
      return false, [], [];
    }
    var rest;
    fine, rest := VerifyBuying(g, tally.offerSet, tally.poolIds, all);
    if !fine {
      return false, [], [];
    }
    NoneRemain(all, TableOffers(g.buying), rest);
    if |rest| != 0 {
      return false, [], [];
    }
    if |g.vacant| != |vacantSet| {
      return false, [], [];
    }
    for k := 0 to |g.vacant|
      invariant forall j :: 0 <= j < k ==> g.vacant[j] in vacantSet
    {
      if g.vacant[k] !in vacantSet {
        return false, [], [];
      }
    }
    return true, tally.offers, tally.pools;
  }

  // ---------- every graph that represents a book passes ----------

  /** The pool of an edge belongs to the edge's two assets and to the graph's index. */
  ghost predicate PoolFits(g: Graph, i: nat, edge: Edge, venue: PoolVenue) {
    && ((venue.a == i && venue.b == edge.key) || (venue.b == i && venue.a == edge.key))
    && (venue.a, venue.b) in g.pools && g.pools[(venue.a, venue.b)] == venue.entry
    && venue.entry.assetA in g.ids && g.ids[venue.entry.assetA] == venue.a
    && venue.entry.assetB in g.ids && g.ids[venue.entry.assetB] == venue.b
  }

  lemma EdgePoolFits(g: Graph, book: Book, side: Side, i: nat, e: nat)
    requires Represents(g, book, {})
    requires i < |g.names| && |Table(side, g)| == |g.names| && e < |Table(side, g)[i]|
    ensures var edge := Table(side, g)[i][e];
      edge.pool.Some? ==> PoolFits(g, i, edge, edge.pool.value) && InBook(book, edge.pool.value.entry)
  {
    hide *;
    Parts(g, book, {});
    EdgeListed(g, book, side, i, e);
    var edge := Table(side, g)[i][e];
    if edge.pool.Some? {
      BetweenFits(g, book, i, edge);
    }
  }

  ghost predicate InBook(book: Book, p: Pool) {
    (p.assetA, p.assetB) in book.pools && book.pools[(p.assetA, p.assetB)] == p
  }

  lemma BetweenFits(g: Graph, book: Book, i: nat, edge: Edge)
    requires Ids(g.names, g.ids, g.vacant) && PoolIndex(g.ids, g.pools, book.pools) && ValidPools(book.pools)
    requires i < |g.names| && edge.key < |g.names|
    requires edge.pool.Some? && edge.pool == PoolBetween(book.pools, g.names, i, edge.key)
    ensures PoolFits(g, i, edge, edge.pool.value) && InBook(book, edge.pool.value.entry)
  {
    hide Ids, ValidPool;
    IdOfName(g.names, g.ids, g.vacant, i);
    IdOfName(g.names, g.ids, g.vacant, edge.key);
  }

  lemma NamedId(g: Graph, book: Book, i: nat)
    requires Represents(g, book, {}) && i < |g.names| && g.names[i].Some?
    ensures g.names[i].value in g.ids && g.ids[g.names[i].value] == i
  {
    hide *;
    Parts(g, book, {});
    IdOfName(g.names, g.ids, g.vacant, i);
  }

  /** A vacant id has no edge in either table. */
  lemma VacantRowEmpty(g: Graph, book: Book, i: nat)
    requires Represents(g, book, {}) && i < |g.names| && g.names[i].None?
    ensures |g.selling| == |g.buying| == |g.names| && g.selling[i] == [] && g.buying[i] == []
  {
    hide Represents, Ids, Shaped, SellingTable, BuyingTable, PoolTable, Pairs, PoolIndex, Used, ValidLive, ValidPools;
    Parts(g, book, {});
    VacantEdge(g, book, SellingSide, i);
    VacantEdge(g, book, BuyingSide, i);
  }

  lemma VacantEdge(g: Graph, book: Book, side: Side, i: nat)
    requires Represents(g, book, {}) && i < |g.names| && g.names[i].None?
    requires |g.selling| == |g.buying| == |g.names|
    ensures Table(side, g)[i] == []
  {
    hide *;
    Parts(g, book, {});
    SideLength(side, g);
    var row := Table(side, g)[i];
    if row != [] {
      EdgeListed(g, book, side, i, 0);
      NothingListed(book, g.names[i], g.names[row[0].key]);
      NothingListed(book, g.names[row[0].key], g.names[i]);
      RowsWellFormed(g, book, side, i);
      NoPoolAtVacant(g, book, i, row[0].key);
      EdgeNotEmpty(row);
    }
  }

  lemma NoPoolAtVacant(g: Graph, book: Book, i: nat, j: nat)
    requires i < |g.names| && j < |g.names| && g.names[i].None?
    ensures PoolBetween(book.pools, g.names, i, j) == None
  {
  }

  lemma RowsWellFormed(g: Graph, book: Book, side: Side, i: nat)
    requires Represents(g, book, {}) && |Table(side, g)| == |g.names| && i < |g.names|
    ensures WellFormed(Table(side, g)[i])
  {
    Parts(g, book, {});
  }

  lemma EdgeNotEmpty(row: EdgeSet)
    requires WellFormed(row) && row != []
    ensures row[0].offers != [] || row[0].pool != None
  {
  }

  ghost function Elements(s: seq<nat>): set<nat> {
    set v | v in s
  }

  lemma {:induction false} DistinctCount(s: seq<nat>)
    requires Distinct(s)
    ensures |Elements(s)| == |s|
    decreases |s|
  {
    if s != [] {
      var n := |s| - 1;
      var front := s[..n];
      DistinctCount(front);
      assert s == front + [s[n]] && s[n] !in front;
      assert Elements(s) == Elements(front) + {s[n]};
    }
  }

  lemma RepresentedVacant(g: Graph, book: Book)
    requires Represents(g, book, {})
    ensures VacantListed(g)
  {
    hide Represents, SellingTable, BuyingTable, PoolTable, Pairs, PoolIndex, Used, Shaped, ValidLive, ValidPools;
    Parts(g, book, {});
    DistinctCount(g.vacant);
    assert VacantIds(g) == Elements(g.vacant);
  }

  lemma RepresentedEdge(g: Graph, book: Book, side: Side, i: nat, e: nat)
    requires Represents(g, book, {})
    requires i < |g.names| && |Table(side, g)| == |g.names| && e < |Table(side, g)[i]|
    ensures var edge := Table(side, g)[i][e];
      && AllPlaced(g, side, i, edge) && (forall o :: o in edge.offers ==> o in book.live)
      && (edge.pool.Some? ==> PoolPlaced(g, i, edge.key, edge.pool.value))
  {
    hide Represents, RowOffers, TableOffers, DistinctIds;
    EdgeFits(g, book, side, i, e);
    EdgePoolFits(g, book, side, i, e);
    var edge := Table(side, g)[i][e];
    forall o | o in edge.offers
      ensures Placed(g, side, i, edge.key, o)
    {
      assert Fits(g, book.live, side, i, edge.key, o);
    }
  }

  lemma RepresentedSelling(g: Graph, book: Book)
    requires Represents(g, book, {}) && |g.selling| == |g.names|
    ensures SellingPasses(g, |g.selling|)
  {
    hide Represents, TableOffers, DistinctIds, AllPlaced, PoolPlaced;
    TableComplete(g, book, SellingSide);
    assert g.selling[..|g.selling|] == g.selling;
    forall s | 0 <= s < |g.selling|
      ensures SellingRowFine(g, s)
    {
      if g.names[s].None? {
        VacantRowEmpty(g, book, s);
      } else {
        NamedId(g, book, s);
        forall e | 0 <= e < |g.selling[s]|
          ensures SellingEdgeFine(g, s, g.selling[s][e])
        {
          RepresentedEdge(g, book, SellingSide, s, e);
        }
      }
    }
  }

  lemma RepresentedBuying(g: Graph, book: Book)
    requires Represents(g, book, {}) && |g.selling| == |g.buying| == |g.names|
    ensures BuyingPasses(g, |g.buying|, TableOffers(g.selling), PoolIds(TablePools(g.selling)))
  {
    hide Represents, TableOffers, TablePools, PoolIds, DistinctIds, AllPlaced, PoolPlaced, Matched;
    var all, poolIds := TableOffers(g.selling), PoolIds(TablePools(g.selling));
    TableComplete(g, book, SellingSide);
    TableComplete(g, book, BuyingSide);
    assert g.buying[..|g.buying|] == g.buying;
    forall b | 0 <= b < |g.buying|
      ensures BuyingRowFine(g, b, all, poolIds)
    {
      if g.names[b].None? {
        VacantRowEmpty(g, book, b);
      } else {
        forall e | 0 <= e < |g.buying[b]|
          ensures BuyingEdgeFine(g, b, g.buying[b][e], all, poolIds)
        {
          RepresentedEdge(g, book, BuyingSide, b, e);
          forall o | o in g.buying[b][e].offers
            ensures Matched(all, o)
          {
            MatchesItself(all, o);
          }
          if g.buying[b][e].pool.Some? {
            PoolSeenBefore(g, book, b, e);
          }
        }
      }
    }
  }

  lemma MatchesItself(all: seq<Offer>, o: Offer)
    requires o in all
    ensures Matched(all, o)
  {
    assert SameTerms(o, o);
  }

  lemma {:induction false} RowPoolMembers(row: EdgeSet, p: Pool)
    ensures p in RowPools(row) <==> exists e :: 0 <= e < |row| && row[e].pool.Some? && row[e].pool.value.entry == p
    decreases |row|
  {
    if row != [] {
      var n := |row| - 1;
      RowPoolMembers(row[..n], p);
      assert forall e :: 0 <= e < n ==> row[..n][e] == row[e];
    }
  }

  lemma {:induction false} TablePoolMembers(t: seq<EdgeSet>, p: Pool)
    ensures p in TablePools(t) <==> exists i :: 0 <= i < |t| && p in RowPools(t[i])
    decreases |t|
  {
    hide RowPools;
    if t != [] {
      var n := |t| - 1;
      TablePoolMembers(t[..n], p);
      assert forall i :: 0 <= i < n ==> t[..n][i] == t[i];
    }
  }

  lemma PoolOnTable(t: seq<EdgeSet>, i: nat, e: nat)
    requires i < |t| && e < |t[i]| && t[i][e].pool.Some?
    ensures t[i][e].pool.value.entry in TablePools(t)
  {
    hide RowPools, TablePools;
    RowPoolMembers(t[i], t[i][e].pool.value.entry);
    TablePoolMembers(t, t[i][e].pool.value.entry);
  }

  /** The pool of an edge of the buying table stands on an edge of the selling table too. */
  lemma PoolSeenBefore(g: Graph, book: Book, b: nat, e: nat)
    requires Represents(g, book, {}) && |g.selling| == |g.buying| == |g.names| && b < |g.names| && e < |g.buying[b]|
    requires g.buying[b][e].pool.Some?
    ensures g.buying[b][e].pool.value.entry.id in PoolIds(TablePools(g.selling))
  {
    hide Represents, WellFormed, Listed, PoolBetween, SellingTable, BuyingTable, Pairs, PoolIndex, Used, Ids,
      ValidLive, ValidPools, Shaped, TablePools;
    Parts(g, book, {});
    EdgeListed(g, book, BuyingSide, b, e);
    var key := g.buying[b][e].key;
    assert PoolAt(g.selling[b], key) == PoolBetween(book.pools, g.names, b, key);
    var f := Find(g.selling[b], key);
    assert g.selling[b][f].pool == g.buying[b][e].pool;
    PoolOnTable(g.selling, b, f);
  }

  /** All offers are in the selling table, so the trading pairs are as many. */
  lemma CountsMatch(g: Graph, book: Book, offers: seq<Offer>)
    requires Represents(g, book, {}) && DistinctIds(offers) && forall o :: o in offers <==> o in book.live
    ensures |offers| == |g.pairs|
  {
    hide Represents, SellingTable, BuyingTable, PoolTable, PoolIndex, Used, Shaped, ValidPools, OfferMap, ValidLive;
    Parts(g, book, {});
    var m := OfferMap(offers);
    forall id
      ensures id in m <==> id in g.pairs
    {
      OfferMapKeys(offers, id);
      HeldUnder(offers, id);
      HeldUnder(book.live, id);
    }
    assert m.Keys == g.pairs.Keys;
    assert |m| == |m.Keys| && |g.pairs| == |g.pairs.Keys|;
    MapSize(offers);
  }

  lemma RepresentedPools(g: Graph, book: Book)
    requires Represents(g, book, {}) && |g.selling| == |g.names|
    ensures forall p :: p in TablePools(g.selling) <==> InBook(book, p)
  {
    hide Represents, TablePools, RowPools, InBook;
    forall p
      ensures p in TablePools(g.selling) <==> InBook(book, p)
    {
      TablePoolMembers(g.selling, p);
      if p in TablePools(g.selling) {
        var i :| 0 <= i < |g.selling| && p in RowPools(g.selling[i]);
        RowPoolMembers(g.selling[i], p);
        var e :| 0 <= e < |g.selling[i]| && g.selling[i][e].pool.Some? && g.selling[i][e].pool.value.entry == p;
        EdgePoolFits(g, book, SellingSide, i, e);
      }
      if InBook(book, p) {
        BookPoolOnTable(g, book, p);
      }
    }
  }

  lemma BookPoolOnTable(g: Graph, book: Book, p: Pool)
    requires Represents(g, book, {}) && |g.selling| == |g.names| && InBook(book, p)
    ensures p in TablePools(g.selling)
  {
    hide Represents, SellingTable, BuyingTable, Pairs, Used, Shaped, ValidLive, ValidPool, ValidPools, TablePools;
    Parts(g, book, {});
    var i, j := g.ids[p.assetA], g.ids[p.assetB];
    assert PoolAt(g.selling[i], j) == PoolBetween(book.pools, g.names, i, j);
    assert (g.names[i].value, g.names[j].value) == (p.assetA, p.assetB);
    var f := Find(g.selling[i], j);
    assert g.selling[i][f].pool.value.entry == p;
    PoolOnTable(g.selling, i, f);
  }

  lemma RepresentedInRange(g: Graph, book: Book)
    requires Represents(g, book, {})
    ensures KeysInRange(g, g.selling) && KeysInRange(g, g.buying)
  {
    Parts(g, book, {});
  }

  /** No graph that represents a book fails the check, which then returns exactly the offers and pools of the book. */
  lemma RepresentedPasses(g: Graph, book: Book)
    requires Represents(g, book, {})
    ensures KeysInRange(g, g.selling) && KeysInRange(g, g.buying) && Passes(g)
    ensures forall o :: o in TableOffers(g.selling) <==> o in book.live
    ensures forall p :: p in TablePools(g.selling) <==> InBook(book, p)
  {
    hide *;
    Parts(g, book, {});
    RepresentedInRange(g, book);
    RepresentedSelling(g, book);
    RepresentedBuying(g, book);
    RepresentedVacant(g, book);
    RepresentedPools(g, book);
    TableComplete(g, book, SellingSide);
    TableComplete(g, book, BuyingSide);
    assert Table(SellingSide, g) == g.selling && Table(BuyingSide, g) == g.buying by {
      Sides(g);
    }
    CountsMatch(g, book, TableOffers(g.selling));
    forall o | o in TableOffers(g.selling)
      ensures HasId(TableOffers(g.buying), o.id)
    {
      HeldUnder(TableOffers(g.buying), o.id);
    }
    AllPass(g);
  }

  lemma Sides(g: Graph)
    ensures Table(SellingSide, g) == g.selling && Table(BuyingSide, g) == g.buying
  {
  }

  lemma AllPass(g: Graph)
    requires |g.selling| == |g.buying| == |g.names| && SellingPasses(g, |g.selling|)
    requires |TableOffers(g.selling)| == |g.pairs|
    requires BuyingPasses(g, |g.buying|, TableOffers(g.selling), PoolIds(TablePools(g.selling)))
    requires forall o :: o in TableOffers(g.selling) ==> HasId(TableOffers(g.buying), o.id)
    requires VacantListed(g)
    ensures Passes(g)
  {
  }

  // ---------- what a passed check means ----------

  lemma {:induction false} RowMembers(row: EdgeSet, o: Offer)
    requires o in RowOffers(row)
    ensures exists e :: 0 <= e < |row| && o in row[e].offers
    decreases |row|
  {
    var n := |row| - 1;
    if o in RowOffers(row[..n]) {
      RowMembers(row[..n], o);
      var e :| 0 <= e < n && o in row[..n][e].offers;
      assert row[..n][e] == row[e];
    }
  }

  lemma {:induction false} TableMembers(t: seq<EdgeSet>, o: Offer)
    requires o in TableOffers(t)
    ensures exists i :: 0 <= i < |t| && o in RowOffers(t[i])
    decreases |t|
  {
    hide RowOffers;
    var n := |t| - 1;
    if o in TableOffers(t[..n]) {
      TableMembers(t[..n], o);
      var i :| 0 <= i < n && o in RowOffers(t[..n][i]);
      assert t[..n][i] == t[i];
    }
  }

  /** The offer's two assets have ids, and the index of trading pairs leads to them. */
  ghost predicate Indexed(g: Graph, o: Offer) {
    && o.selling in g.ids && o.buying in g.ids
    && o.id in g.pairs && g.pairs[o.id] == Pair(g.ids[o.buying], g.ids[o.selling])
  }

  lemma PassedIndexed(g: Graph, o: Offer)
    requires |g.selling| == |g.names| && SellingPasses(g, |g.selling|)
    requires o in TableOffers(g.selling) && o.selling != o.buying
    ensures Indexed(g, o)
  {
    hide RowOffers, TableOffers, DistinctIds, PoolPlaced;
    TableMembers(g.selling, o);
    var i :| 0 <= i < |g.selling| && o in RowOffers(g.selling[i]);
    RowMembers(g.selling[i], o);
    var e :| 0 <= e < |g.selling[i]| && o in g.selling[i][e].offers;
    assert SellingRowFine(g, i);
    assert SellingEdgeFine(g, i, g.selling[i][e]);
    var key := g.selling[i][e].key;
    assert Placed(g, SellingSide, i, key, o);
    assert SellingRowFine(g, key);
  }

  lemma PassedMatched(g: Graph, all: seq<Offer>, poolIds: set<int>, o: Offer)
    requires |g.buying| == |g.names| && BuyingPasses(g, |g.buying|, all, poolIds) && o in TableOffers(g.buying)
    ensures Matched(all, o)
  {
    hide RowOffers, TableOffers, DistinctIds, PoolPlaced, AllPlaced, Matched;
    TableMembers(g.buying, o);
    var i :| 0 <= i < |g.buying| && o in RowOffers(g.buying[i]);
    RowMembers(g.buying[i], o);
    var e :| 0 <= e < |g.buying[i]| && o in g.buying[i][e].offers;
    assert BuyingRowFine(g, i, all, poolIds);
    assert BuyingEdgeFine(g, i, g.buying[i][e], all, poolIds);
  }

  lemma SubsetFull(a: set<int>, b: set<int>)
    requires a <= b && |a| == |b|
    ensures a == b
  {
    assert |b - a| == |b| - |a|;
  }

  lemma PassedPairs(g: Graph, all: seq<Offer>)
    requires DistinctIds(all) && |all| == |g.pairs| && forall o :: o in all ==> o.id in g.pairs
    ensures forall id :: id in g.pairs <==> HasId(all, id)
  {
    hide DistinctIds, HasId, OfferMap;
    var m := OfferMap(all);
    MapSize(all);
    forall id
      ensures id in m <==> HasId(all, id)
      ensures id in m ==> id in g.pairs
    {
      OfferMapKeys(all, id);
      HeldUnder(all, id);
    }
    assert |m.Keys| == |m| && |g.pairs.Keys| == |g.pairs|;
    assert forall id :: id in m.Keys ==> id in m && id in g.pairs.Keys;
    SubsetFull(m.Keys, g.pairs.Keys);
    assert forall id :: id in g.pairs <==> id in g.pairs.Keys;
  }

  lemma MatchedBack(all: seq<Offer>, met: seq<Offer>, o: Offer)
    requires DistinctIds(all) && o in all && HasId(met, o.id) && forall p :: p in met ==> Matched(all, p)
    ensures Matched(met, o)
  {
    hide DistinctIds, HasId;
    HeldUnder(met, o.id);
    var p :| p in met && p.id == o.id;
    var q :| q in all && SameTerms(q, p);
    SameIdSame(all, q, o);
    assert SameTerms(p, o);
  }

  lemma VacantExactly(g: Graph)
    requires VacantListed(g) && Distinct(g.vacant)
    ensures Elements(g.vacant) == VacantIds(g)
  {
    DistinctCount(g.vacant);
    var a, b := Elements(g.vacant), VacantIds(g);
    assert a <= b;
    assert |b - a| == |b| - |a|;
  }

  /**
   * A passed check means: either table holds each offer once, the two hold the same offers apart from
   * their sellers, the index of trading pairs holds exactly these offers under the ids of their assets, no
   * asset has two ids, and the vacant ids are those without a name, provided none is listed twice.
   */
  lemma PassedIsConsistent(g: Graph)
    requires Passes(g) && forall o :: o in TableOffers(g.selling) ==> o.selling != o.buying
    ensures DistinctIds(TableOffers(g.selling)) && DistinctIds(TableOffers(g.buying))
    ensures forall o :: o in TableOffers(g.selling) ==> Matched(TableOffers(g.buying), o) && Indexed(g, o)
    ensures forall o :: o in TableOffers(g.buying) ==> Matched(TableOffers(g.selling), o)
    ensures forall id :: id in g.pairs <==> HasId(TableOffers(g.selling), id)
    ensures forall i, j :: 0 <= i < j < |g.names| && g.names[i].Some? ==> g.names[i] != g.names[j]
    ensures Distinct(g.vacant) ==> Elements(g.vacant) == VacantIds(g)
  {
    hide TableOffers, TablePools, PoolIds, DistinctIds, HasId, Matched, Indexed, SellingEdgeFine, BuyingRowFine,
      VacantListed, Elements, Distinct;
    var all, met := TableOffers(g.selling), TableOffers(g.buying);
    assert g.selling[..|g.selling|] == g.selling && g.buying[..|g.buying|] == g.buying;
    forall o | o in met
      ensures Matched(all, o)
    {
      PassedMatched(g, all, PoolIds(TablePools(g.selling)), o);
    }
    forall o | o in all
      ensures Matched(met, o) && Indexed(g, o) && o.id in g.pairs
    {
      PassedIndexed(g, o);
      IndexedPair(g, o);
      MatchedBack(all, met, o);
    }
    PassedPairs(g, all);
    forall i, j | 0 <= i < j < |g.names| && g.names[i].Some?
      ensures g.names[i] != g.names[j]
    {
      assert SellingRowFine(g, i) && SellingRowFine(g, j);
    }
    if Distinct(g.vacant) {
      VacantExactly(g);
    }
  }

  lemma IndexedPair(g: Graph, o: Offer)
    requires Indexed(g, o)
    ensures o.id in g.pairs
  {
  }

  // ---------- what the check does not see ----------

  /** Two offers of x for y, the dearer one first in both tables. */
  function WrongOrder(x: Asset, y: Asset): Graph {
    var list := [Offer(1, "", x, y, 1, Price(2, 1)), Offer(2, "", x, y, 1, Price(1, 1))];
    Graph([Some(x), Some(y)], map[x := 0, y := 1], [], [[Edge(1, list, None, false)], []],
          [[], [Edge(0, list, None, false)]], map[], map[1 := Pair(1, 0), 2 := Pair(1, 0)])
  }

  lemma TwoRows(a: EdgeSet, b: EdgeSet)
    ensures TableOffers([a, b]) == RowOffers(a) + RowOffers(b)
  {
    hide RowOffers;
    assert [a, b][..1] == [a] && [a][..0] == [];
    assert TableOffers([a]) == TableOffers([]) + RowOffers(a);
  }

  lemma OneEdge(edge: Edge)
    ensures RowOffers([edge]) == edge.offers && RowOffers([]) == []
  {
    assert [edge][..0] == [];
  }

  lemma WrongOrderOffers(x: Asset, y: Asset)
    ensures var g := WrongOrder(x, y);
      && TableOffers(g.selling) == TableOffers(g.buying) == g.selling[0][0].offers
      && DistinctIds(TableOffers(g.selling))
  {
    hide TableOffers, RowOffers;
    var g := WrongOrder(x, y);
    TwoRows(g.selling[0], g.selling[1]);
    TwoRows(g.buying[0], g.buying[1]);
    OneEdge(g.selling[0][0]);
    OneEdge(g.buying[1][0]);
  }

  lemma WrongOrderRows(x: Asset, y: Asset, poolIds: set<int>)
    requires x != y
    ensures var g := WrongOrder(x, y);
      SellingPasses(g, 2) && BuyingPasses(g, 2, TableOffers(g.selling), poolIds)
  {
    hide TableOffers, RowOffers, DistinctIds;
    var g := WrongOrder(x, y);
    WrongOrderOffers(x, y);
    assert g.selling[..2] == g.selling && g.buying[..2] == g.buying;
    var list := g.selling[0][0].offers;
    assert SellingEdgeFine(g, 0, g.selling[0][0]) && SellingRowFine(g, 0) && SellingRowFine(g, 1);
    forall o | o in list
      ensures Matched(list, o)
    {
      MatchesItself(list, o);
    }
    assert BuyingEdgeFine(g, 1, g.buying[1][0], list, poolIds);
    assert BuyingRowFine(g, 0, list, poolIds) && BuyingRowFine(g, 1, list, poolIds);
  }

  lemma WrongOrderUnsorted(x: Asset, y: Asset)
    ensures !Sorted(OffersAt(WrongOrder(x, y).selling[0], 1))
  {
    var row := WrongOrder(x, y).selling[0];
    assert Find(row, 1) == 0;
    assert Cheaper(row[0].offers[1].price, row[0].offers[0].price);
  }

  /** The price order of the lists is not checked: this graph passes, and it represents no book. */
  lemma WrongOrderPasses(x: Asset, y: Asset, book: Book)
    requires x != y
    ensures Passes(WrongOrder(x, y)) && !Represents(WrongOrder(x, y), book, {})
  {
    hide TableOffers, DistinctIds, SellingPasses, BuyingPasses, Represents, Sorted, OffersAt, TablePools, PoolIds;
    var g := WrongOrder(x, y);
    WrongOrderOffers(x, y);
    WrongOrderRows(x, y, PoolIds(TablePools(g.selling)));
    assert VacantIds(g) == {};
    assert g.pairs.Keys == {1, 2} && |g.pairs| == |g.pairs.Keys|;
    forall o | o in TableOffers(g.selling)
      ensures HasId(TableOffers(g.buying), o.id)
    {
      HeldUnder(TableOffers(g.buying), o.id);
    }
    WrongOrderUnsorted(x, y);
    if Represents(g, book, {}) {
      Cell(g, book, {}, 0, 1);
    }
  }
}
