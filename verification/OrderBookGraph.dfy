/** The order-book graph and its batched updates (exp/orderbook/graph.go, batch.go). */
module OrderBookGraph {
  import opened Common
  import opened OrderBookTypes
  import opened OrderLists
  import opened EdgeSets
  import opened GraphState

  datatype Operation =
    | AddOfferOp(offer: Offer)
    | RemoveOfferOp(id: int)
    | AddPoolOp(pool: Pool)
    | RemovePoolOp(pool: Pool)

  ghost predicate ValidOperation(op: Operation) {
    match op
    case AddOfferOp(o) => ValidOffer(o)
    case RemoveOfferOp(_) => true
    case AddPoolOp(p) => ValidPool(p)
    case RemovePoolOp(p) => ValidPool(p)
  }

  /** What one queued operation does to the plain book. */
  ghost function ApplyOperation(book: Book, op: Operation): Book {
    match op
    case AddOfferOp(o) => book.(live := Without(book.live, o.id) + [o])
    case RemoveOfferOp(id) => book.(live := Without(book.live, id))
    case AddPoolOp(p) => book.(pools := book.pools[(p.assetA, p.assetB) := p])
    case RemovePoolOp(p) => book.(pools := book.pools - {(p.assetA, p.assetB)})
  }

  ghost function ApplyOperations(book: Book, ops: seq<Operation>): Book {
    if ops == [] then book else ApplyOperation(ApplyOperations(book, ops[..|ops|-1]), ops[|ops|-1])
  }

  /** How a call to Apply ends; the Panicked cases are the source's panics. */
  datatype Outcome = Applied | UnexpectedLedger | Panicked(reason: PanicReason)

  datatype PanicReason = BatchAlreadyApplied | OfferNotPresent

  const EMPTY_BOOK: Book := Book([], map[])

  class OrderBookGraph {
    var names: seq<Option<Asset>>
    var ids: map<Asset, nat>
    var vacantIDs: seq<nat>
    var venuesForBuyingAsset: seq<EdgeSet>
    var venuesForSellingAsset: seq<EdgeSet>
    var liquidityPools: map<(nat, nat), Pool>
    var tradingPairForOffer: map<int, Pair>
    var lastLedger: nat
    // the internal batch
    var operations: seq<Operation>
    var committed: bool

    /** The plain book that the tables represent. */
    ghost var book: Book

    function State(): Graph
      reads this
    {
      Graph(names, ids, vacantIDs, venuesForSellingAsset, venuesForBuyingAsset, liquidityPools, tradingPairForOffer)
    }

    ghost predicate Valid()
      reads this
    {
      && Represents(State(), book, {}) && lastLedger < TWO_32
      && forall i :: 0 <= i < |operations| ==> ValidOperation(operations[i])
    }

    constructor ()
      ensures Valid() && book == EMPTY_BOOK && lastLedger == 0 && operations == [] && !committed
    {
      hide Represents, ValidOperation;
      names, ids, vacantIDs := [], map[], [];
      venuesForBuyingAsset, venuesForSellingAsset := [], [];
      liquidityPools, tradingPairForOffer := map[], map[];
      lastLedger := 0;
      operations, committed := [], false;
      book := EMPTY_BOOK;
      new;
      EmptyGraph(State());
    }

    method Clear()
      modifies this
      ensures Valid() && book == EMPTY_BOOK && lastLedger == 0 && operations == [] && !committed
    {
      hide Represents, ValidOperation;
      EmptyGraph(Graph([], map[], [], [], [], map[], map[]));
      names, ids, vacantIDs := [], map[], [];
      venuesForBuyingAsset, venuesForSellingAsset := [], [];
      liquidityPools, tradingPairForOffer := map[], map[];
      operations, committed := [], false;
      lastLedger := 0;
      book := EMPTY_BOOK;
      assert State() == Graph([], map[], [], [], [], map[], map[]);
    }

    // ---------- asset ids ----------

    method GetOrCreateAssetID(asset: Asset, ghost exempt: set<nat>) returns (id: nat)
      requires Represents(State(), book, exempt)
      modifies this`names, this`ids, this`vacantIDs, this`venuesForBuyingAsset, this`venuesForSellingAsset
      ensures Represents(State(), book, exempt + {id})
      ensures asset in ids && ids[asset] == id && id < |names|
      ensures forall a :: a in old(ids) ==> a in ids && ids[a] == old(ids)[a]
      // A vacant id is taken before the tables grow.
      ensures asset in old(ids) || old(vacantIDs) != [] ==> |names| == old(|names|)
      ensures asset !in old(ids) ==>
        id == if old(vacantIDs) == [] then old(|names|) else old(vacantIDs)[|old(vacantIDs)|-1]
      ensures |venuesForBuyingAsset| == |venuesForSellingAsset| == |names| >= old(|names|)
    {
      hide Represents, ValidLive, ValidPools, Ids, Shaped, SellingTable, BuyingTable, PoolTable, Pairs, PoolIndex, Used,
           OffersAt, PoolAt, Listed, Updates, Crossed, WellFormed, Sorted, Priced, HasId, ApplyOperation, ValidOffer,
           ValidPool;
      Parts(State(), book, exempt);
      if asset in ids {
        id := ids[asset];
        IdInRange(State(), book, exempt, asset);
        WeakerExemption(State(), book, exempt, exempt + {id});
        return;
      }
      if |vacantIDs| > 0 {
        id := vacantIDs[|vacantIDs| - 1];
        RecycleStep(State(), book, exempt, asset, id);
        vacantIDs := vacantIDs[..|vacantIDs| - 1];
        names := names[id := Some(asset)];
      } else {
        id := |names|;
        ExtendStep(State(), book, exempt, asset, id);
        names := names + [Some(asset)];
        venuesForBuyingAsset := venuesForBuyingAsset + [[]];
        venuesForSellingAsset := venuesForSellingAsset + [[]];
      }
      ids := ids[asset := id];
    }

    method MaybeDeleteAsset(asset: nat, ghost exempt: set<nat>)
      requires Represents(State(), book, exempt) && asset < |names| && names[asset].Some?
      modifies this`names, this`ids, this`vacantIDs
      ensures Represents(State(), book, exempt - {asset})
      ensures |names| == old(|names|)
      ensures forall i :: 0 <= i < |names| && i != asset ==> names[i] == old(names)[i]
    {
      hide Represents, ValidLive, ValidPools, Ids, Shaped, SellingTable, BuyingTable, PoolTable, Pairs, PoolIndex, Used,
           OffersAt, PoolAt, Listed, Updates, Crossed, WellFormed, Sorted, Priced, HasId, ApplyOperation, ValidOffer,
           ValidPool;
      Parts(State(), book, exempt);
      var buyingEdgesEmpty := |venuesForBuyingAsset[asset]| == 0;
      var sellingEdgesEmpty := |venuesForSellingAsset[asset]| == 0;
      if buyingEdgesEmpty && sellingEdgesEmpty {
        ForgetStep(State(), book, exempt, asset);
        ids := ids - {names[asset].value};
        names := names[asset := None];
        vacantIDs := vacantIDs + [asset];
      } else {
        EdgesEndExemption(State(), book, exempt, asset);
      }
    }

    // ---------- offers ----------

    method RemoveOffer(offerID: int) returns (present: bool)
      requires Represents(State(), book, {})
      modifies this`names, this`ids, this`vacantIDs, this`venuesForBuyingAsset, this`venuesForSellingAsset,
               this`tradingPairForOffer, this`book
      ensures Represents(State(), book, {})
      ensures present <==> HasId(old(book).live, offerID)
      ensures |names| >= old(|names|)
      ensures book == ApplyOperation(old(book), RemoveOfferOp(offerID))
    {
      hide Represents, ValidLive, ValidPools, Ids, Shaped, SellingTable, BuyingTable, PoolTable, Pairs, PoolIndex, Used,
           OffersAt, PoolAt, Listed, Updates, Crossed, WellFormed, Sorted, Priced, HasId, ApplyOperation, ValidOffer,
           ValidPool;
      Parts(State(), book, {});
      if offerID !in tradingPairForOffer {
        AbsentOffer(State(), book, offerID);
        return false;
      }
      var pair := tradingPairForOffer[offerID];
      ghost var o := OfferOf(State(), book, offerID);
      Cell(State(), book, {}, pair.selling, pair.buying);
      ListedHere(State(), book, o);
      ghost var before := State();
      tradingPairForOffer := tradingPairForOffer - {offerID};
      var rowS, okS := EdgeSets.RemoveOffer(venuesForSellingAsset[pair.selling], pair.buying, offerID);
      if !okS {
        return false;
      }
      venuesForSellingAsset := venuesForSellingAsset[pair.selling := rowS];
      var rowB, okB := EdgeSets.RemoveOffer(venuesForBuyingAsset[pair.buying], pair.selling, offerID);
      if !okB {
        return false;
      }
      venuesForBuyingAsset := venuesForBuyingAsset[pair.buying := rowB];
      RemoveStep(before, book, o, pair.selling, pair.buying, rowS, rowB);
      book := Book(Without(book.live, offerID), book.pools);
      MaybeDeleteAsset(pair.buying, {pair.selling, pair.buying});
      MaybeDeleteAsset(pair.selling, {pair.selling, pair.buying} - {pair.buying});
      assert {pair.selling, pair.buying} - {pair.buying} - {pair.selling} == {};
      RemovalAsOperation(old(book), offerID);
      return true;
    }

    /** Adds or replaces an offer; an update whose removal fails is reported as an error. */
    method AddOffer(offer: Offer) returns (ok: bool)
      requires Represents(State(), book, {}) && ValidOffer(offer)
      modifies this`names, this`ids, this`vacantIDs, this`venuesForBuyingAsset, this`venuesForSellingAsset,
               this`tradingPairForOffer, this`book
      ensures ok && Represents(State(), book, {})
      ensures |names| >= old(|names|)
      ensures book == ApplyOperation(old(book), AddOfferOp(offer))
    {
      hide Represents, ValidLive, ValidPools, Ids, Shaped, SellingTable, BuyingTable, PoolTable, Pairs, PoolIndex, Used,
           OffersAt, PoolAt, Listed, Updates, Crossed, WellFormed, Sorted, Priced, HasId, ApplyOperation, ValidOffer,
           ValidPool;
      Parts(State(), book, {});
      if offer.id in tradingPairForOffer {
        PresentOffer(State(), book, offer.id);
        var removed := RemoveOffer(offer.id);
        if !removed {
          return false;
        }
      } else {
        AbsentOffer(State(), book, offer.id);
      }
      AdditionAsOperation(old(book), book, offer);
      var buying := GetOrCreateAssetID(offer.buying, {});
      var selling := GetOrCreateAssetID(offer.selling, {} + {buying});
      Cell(State(), book, {} + {buying} + {selling}, selling, buying);
      ghost var before := State();
      tradingPairForOffer := tradingPairForOffer[offer.id := Pair(buying, selling)];
      PriceOf(offer);
      var rowS := EdgeSets.AddOffer(venuesForSellingAsset[selling], buying, offer);
      venuesForSellingAsset := venuesForSellingAsset[selling := rowS];
      var rowB := EdgeSets.AddOffer(venuesForBuyingAsset[buying], selling, offer);
      venuesForBuyingAsset := venuesForBuyingAsset[buying := rowB];
      InsertStep(before, book, {} + {buying} + {selling}, offer, selling, buying, rowS, rowB);
      book := Book(book.live + [offer], book.pools);
      assert {} + {buying} + {selling} - {selling, buying} == {};
      return true;
    }

    // ---------- pools ----------

    method AddPool(pool: Pool)
      requires Represents(State(), book, {}) && ValidPool(pool)
      modifies this`names, this`ids, this`vacantIDs, this`venuesForBuyingAsset, this`venuesForSellingAsset,
               this`liquidityPools, this`book
      ensures Represents(State(), book, {})
      ensures book == ApplyOperation(old(book), AddPoolOp(pool))
      ensures |names| >= old(|names|)
    {
      hide Represents, ValidLive, ValidPools, Ids, Shaped, SellingTable, BuyingTable, PoolTable, Pairs, PoolIndex, Used,
           OffersAt, PoolAt, Listed, Updates, Crossed, WellFormed, Sorted, Priced, HasId, ApplyOperation, ValidOffer,
           ValidPool;
      var a := GetOrCreateAssetID(pool.assetA, {});
      var b := GetOrCreateAssetID(pool.assetB, {} + {a});
      ghost var exempt := {} + {a} + {b};
      Parts(State(), book, exempt);
      DistinctPoolIds(State(), book, exempt, pool);
      ghost var before := State();
      var venue := PoolVenue(pool, a, b);
      liquidityPools := liquidityPools[(a, b) := pool];
      venuesForBuyingAsset := CrossPool(names, venuesForBuyingAsset, a, b, Some(venue));
      venuesForSellingAsset := CrossPool(names, venuesForSellingAsset, a, b, Some(venue));
      AddPoolStep(before, book, exempt, pool, a, b, venuesForSellingAsset, venuesForBuyingAsset);
      PoolAdditionAsOperation(book, pool);
      book := Book(book.live, book.pools[(pool.assetA, pool.assetB) := pool]);
      assert exempt - {a, b} == {};
    }

    method RemovePool(pool: Pool)
      requires Represents(State(), book, {}) && ValidPool(pool)
      modifies this`names, this`ids, this`vacantIDs, this`venuesForBuyingAsset, this`venuesForSellingAsset,
               this`liquidityPools, this`book
      ensures Represents(State(), book, {})
      ensures book == ApplyOperation(old(book), RemovePoolOp(pool))
      ensures |names| >= old(|names|)
    {
      hide Represents, ValidLive, ValidPools, Ids, Shaped, SellingTable, BuyingTable, PoolTable, Pairs, PoolIndex, Used,
           OffersAt, PoolAt, Listed, Updates, Crossed, WellFormed, Sorted, Priced, HasId, ApplyOperation, ValidOffer,
           ValidPool;
      var a := GetOrCreateAssetID(pool.assetA, {});
      var b := GetOrCreateAssetID(pool.assetB, {} + {a});
      ghost var exempt := {} + {a} + {b};
      Parts(State(), book, exempt);
      DistinctPoolIds(State(), book, exempt, pool);
      ghost var before := State();
      venuesForBuyingAsset := CrossPool(names, venuesForBuyingAsset, a, b, None);
      venuesForSellingAsset := CrossPool(names, venuesForSellingAsset, a, b, None);
      liquidityPools := liquidityPools - {(a, b)};
      RemovePoolStep(before, book, exempt, pool, a, b, venuesForSellingAsset, venuesForBuyingAsset);
      PoolRemovalAsOperation(book, pool);
      book := Book(book.live, book.pools - {(pool.assetA, pool.assetB)});
      MaybeDeleteAsset(a, exempt + {a, b});
      MaybeDeleteAsset(b, exempt + {a, b} - {a});
      assert exempt + {a, b} - {a} - {b} == {};
    }

    // ---------- batches ----------

    method QueueOperation(op: Operation)
      requires Valid() && ValidOperation(op)
      modifies this`operations
      ensures Valid() && operations == old(operations) + [op]
    {
      operations := operations + [op];
    }

    /** Drops everything queued, and with it a batch that was already committed. */
    method Discard()
      requires Valid()
      modifies this`operations, this`committed
      ensures Valid() && operations == [] && !committed
    {
      operations, committed := [], false;
    }

    /**
     * Applies the queued operations as of `ledger`. The only panic is on a batch that was already
     * committed; no offer that an operation names is ever missing from the tables.
     */
    method Apply(ledger: nat) returns (r: Outcome)
      requires Valid() && ledger < TWO_32
      modifies this
      ensures Valid()
      ensures r == if old(committed) then Panicked(BatchAlreadyApplied)
                   else if old(lastLedger) > 0 && ledger <= old(lastLedger) then UnexpectedLedger
                   else Applied
      ensures r.Applied? ==> && book == ApplyOperations(old(book), old(operations))
                             && lastLedger == ledger && operations == [] && !committed
      ensures !r.Applied? ==> && book == old(book) && State() == old(State())
                              && lastLedger == old(lastLedger) && operations == old(operations) && committed
    {
      hide Represents, ApplyOperation;
      if committed {
        return Panicked(BatchAlreadyApplied);
      }
      committed := true;
      if lastLedger > 0 && ledger <= lastLedger {
        return UnexpectedLedger;
      }
      r := Applied;
      ghost var ops := operations;
      var reallocatePairs: set<Pair> := {};
      for i := 0 to |operations|
        invariant Represents(State(), book, {})
        invariant operations == ops && r == Applied
        invariant book == ApplyOperations(old(book), ops[..i])
        invariant forall p :: p in reallocatePairs ==> p.selling < |names| && p.buying < |names|
      {
        assert ops[..i+1][..i] == ops[..i] && ValidOperation(ops[i]);
        label step:
        match operations[i] {
          case AddOfferOp(offer) =>
            var ok := AddOffer(offer);
            if !ok {
              return Panicked(OfferNotPresent);
            }
          case RemoveOfferOp(id) =>
            if id in tradingPairForOffer {
              PairInRange(State(), book, id);
              reallocatePairs := reallocatePairs + {tradingPairForOffer[id]};
              PresentOffer(State(), book, id);
              var present := RemoveOffer(id);
              if !present {
                return Panicked(OfferNotPresent);
              }
            } else {
              AbsentOffer(State(), book, id);
            }
          case AddPoolOp(pool) => AddPool(pool);
          case RemovePoolOp(pool) => RemovePool(pool);
        }
      }
      assert ops[..|ops|] == ops;
      lastLedger := ledger;
      ReallocateRows(reallocatePairs);
      operations, committed := [], false;
    }

    /** Copies the lists that shrank; nothing observable changes. */
    method ReallocateRows(pairs: set<Pair>)
      requires Represents(State(), book, {})
      requires forall p :: p in pairs ==> p.selling < |names| && p.buying < |names|
      modifies this`venuesForBuyingAsset, this`venuesForSellingAsset
      ensures Represents(State(), book, {})
    {
      hide Represents, ValidLive, ValidPools, Ids, Shaped, SellingTable, BuyingTable, PoolTable, Pairs, PoolIndex, Used,
           OffersAt, PoolAt, WellFormed, KeysBelow;
      var rest := pairs;
      Parts(State(), book, {});
      while rest != {}
        invariant rest <= pairs && Represents(State(), book, {})
        decreases |rest|
      {
        var p :| p in rest;
        rest := rest - {p};
        RowShape(State(), book, p.selling);
        RowShape(State(), book, p.buying);
        var rowS := Reallocate(venuesForSellingAsset[p.selling]);
        var rowB := Reallocate(venuesForBuyingAsset[p.buying]);
        CopyStep(State(), book, p.selling, p.buying, rowS, rowB);
        venuesForSellingAsset := venuesForSellingAsset[p.selling := rowS];
        venuesForBuyingAsset := venuesForBuyingAsset[p.buying := rowB];
      }
    }
  }

  // ---------- lemmas about the representation that the methods use ----------

  lemma EmptyGraph(g: Graph)
    requires g == Graph([], map[], [], [], [], map[], map[])
    ensures Represents(g, EMPTY_BOOK, {})
  {
  }

  lemma IdInRange(g: Graph, book: Book, exempt: set<nat>, a: Asset)
    requires Represents(g, book, exempt) && a in g.ids
    ensures g.ids[a] < |g.names|
  {
    Parts(g, book, exempt);
  }

  lemma NameOf(g: Graph, book: Book, a: Asset)
    requires Represents(g, book, {}) && a in g.ids && g.ids[a] < |g.names|
    ensures g.names[g.ids[a]] == Some(a)
  {
    Parts(g, book, {});
    hide Represents;
  }

  lemma WeakerExemption(g: Graph, book: Book, exempt: set<nat>, more: set<nat>)
    requires Represents(g, book, exempt) && exempt <= more
    ensures Represents(g, book, more)
  {
    Parts(g, book, exempt);
    hide Represents, ValidLive, ValidPools, Ids, Shaped, SellingTable, BuyingTable, PoolTable, Pairs, PoolIndex;
    assert Used(g.names, g.selling, g.buying, more);
    Assemble(g, book, more);
  }

  lemma EdgesEndExemption(g: Graph, book: Book, exempt: set<nat>, id: nat)
    requires Represents(g, book, exempt) && id < |g.selling| && id < |g.buying|
      && (g.selling[id] != [] || g.buying[id] != [])
    ensures Represents(g, book, exempt - {id})
  {
    Parts(g, book, exempt);
    hide Represents, ValidLive, ValidPools, Ids, Shaped, SellingTable, BuyingTable, PoolTable, Pairs, PoolIndex;
    assert Used(g.names, g.selling, g.buying, exempt - {id});
    Assemble(g, book, exempt - {id});
  }

  lemma AbsentOffer(g: Graph, book: Book, id: int)
    requires Represents(g, book, {}) && id !in g.pairs
    ensures !HasId(book.live, id) && Without(book.live, id) == book.live
    ensures ApplyOperation(book, RemoveOfferOp(id)) == book
  {
    Parts(g, book, {});
    WithoutAbsent(book.live, id);
  }

  lemma PresentOffer(g: Graph, book: Book, id: int)
    requires Represents(g, book, {}) && id in g.pairs
    ensures HasId(book.live, id)
  {
    Parts(g, book, {});
  }

  lemma PairInRange(g: Graph, book: Book, id: int)
    requires Represents(g, book, {}) && id in g.pairs
    ensures g.pairs[id].selling < |g.names| && g.pairs[id].buying < |g.names|
  {
    var o := OfferOf(g, book, id);
  }

  /** The live offer that a trading-pair entry belongs to. */
  lemma OfferOf(g: Graph, book: Book, id: int) returns (o: Offer)
    requires Represents(g, book, {}) && id in g.pairs
    ensures o in book.live && o.id == id && o.selling in g.ids && o.buying in g.ids
    ensures g.pairs[id] == Pair(g.ids[o.buying], g.ids[o.selling])
    ensures g.pairs[id].selling < |g.names| && g.pairs[id].buying < |g.names|
    ensures g.names[g.pairs[id].selling].Some? && g.names[g.pairs[id].buying].Some?
    ensures g.pairs[id].selling != g.pairs[id].buying && HasId(book.live, id)
  {
    Parts(g, book, {});
    hide Represents, SellingTable, BuyingTable, PoolTable, Used, Shaped, PoolIndex;
    var i :| 0 <= i < |book.live| && book.live[i].id == id;
    o := book.live[i];
  }

  /** Both cells of a live offer's pair hold the offer, so neither removal can miss it. */
  lemma ListedHere(g: Graph, book: Book, o: Offer)
    requires Represents(g, book, {}) && o in book.live && o.selling in g.ids && o.buying in g.ids
    requires |g.selling| == |g.buying| == |g.names| && g.ids[o.selling] < |g.names| && g.ids[o.buying] < |g.names|
    ensures HasId(OffersAt(g.selling[g.ids[o.selling]], g.ids[o.buying]), o.id)
    ensures HasId(OffersAt(g.buying[g.ids[o.buying]], g.ids[o.selling]), o.id)
  {
    Parts(g, book, {});
    hide Represents, SellingTable, BuyingTable, PoolTable, Used, Shaped, PoolIndex, OffersAt, Listed, Pairs;
    var s, b := g.ids[o.selling], g.ids[o.buying];
    Cell(g, book, {}, s, b);
    ListedMembers(book.live, g.names[s], g.names[b], o);
    var l := Listed(book.live, g.names[s], g.names[b]);
    var i :| 0 <= i < |l| && l[i] == o;
  }

  lemma RemovalAsOperation(book: Book, id: int)
    ensures Book(Without(book.live, id), book.pools) == ApplyOperation(book, RemoveOfferOp(id))
  {
  }

  lemma AdditionAsOperation(before: Book, book: Book, o: Offer)
    requires ValidLive(before.live)
    requires book == ApplyOperation(before, RemoveOfferOp(o.id))
    ensures !HasId(book.live, o.id)
    ensures Book(book.live + [o], book.pools) == ApplyOperation(before, AddOfferOp(o))
  {
    WithoutValid(before.live, o.id);
  }

  lemma PoolAdditionAsOperation(book: Book, p: Pool)
    ensures Book(book.live, book.pools[(p.assetA, p.assetB) := p]) == ApplyOperation(book, AddPoolOp(p))
  {
  }

  lemma PoolRemovalAsOperation(book: Book, p: Pool)
    ensures Book(book.live, book.pools - {(p.assetA, p.assetB)}) == ApplyOperation(book, RemovePoolOp(p))
  {
  }

  lemma PriceOf(o: Offer)
    requires ValidOffer(o)
    ensures ValidPrice(o.price)
  {
  }

  lemma DistinctPoolIds(g: Graph, book: Book, exempt: set<nat>, p: Pool)
    requires Represents(g, book, exempt) && ValidPool(p) && p.assetA in g.ids && p.assetB in g.ids
    ensures var a, b := g.ids[p.assetA], g.ids[p.assetB];
            && a != b && a < |g.names| && b < |g.names| && g.names[a].Some? && g.names[b].Some?
  {
    Parts(g, book, exempt);
    AssetLessAsymmetric(p.assetA, p.assetB);
  }

  lemma RowShape(g: Graph, book: Book, i: nat)
    requires Represents(g, book, {}) && i < |g.names|
    ensures |g.selling| == |g.buying| == |g.names| && WellFormed(g.selling[i]) && WellFormed(g.buying[i])
  {
    Parts(g, book, {});
  }

  /** Sets or clears the pool between two ids in one table. */
  method CrossPool(names: seq<Option<Asset>>, table: seq<EdgeSet>, a: nat, b: nat, venue: Option<PoolVenue>)
    returns (table': seq<EdgeSet>)
    requires Shaped(names, table) && a < |names| && b < |names| && a != b
    ensures |table| == |names| && Crossed(table, table', a, b, venue)
  {
    if venue.Some? {
      var rowA := EdgeSets.AddPool(table[a], b, venue.value);
      var rowB := EdgeSets.AddPool(table[b], a, venue.value);
      table' := table[a := rowA][b := rowB];
    } else {
      var rowA := EdgeSets.RemovePool(table[a], b);
      var rowB := EdgeSets.RemovePool(table[b], a);
      table' := table[a := rowA][b := rowB];
    }
  }
}
