/**
 * The state of the order-book graph as a value, what it means for it to represent a plain book of
 * offers and pools, and how each elementary update moves that relation (exp/orderbook/graph.go).
 */
module GraphState {
  import opened Common
  import opened OrderBookTypes
  import opened OrderLists
  import opened EdgeSets

  /** The ids of the two assets exchanged by an offer. */
  datatype Pair = Pair(buying: nat, selling: nat)

  datatype Graph = Graph(
    names: seq<Option<Asset>>,      // id -> asset, None for a vacant id
    ids: map<Asset, nat>,
    vacant: seq<nat>,
    selling: seq<EdgeSet>,
    buying: seq<EdgeSet>,
    pools: map<(nat, nat), Pool>,
    pairs: map<int, Pair>)

  /** What the graph stands for: the live offers, in the order they became live, and the pools. */
  datatype Book = Book(live: seq<Offer>, pools: map<(Asset, Asset), Pool>)

  // ---------- the representation relation ----------

  /** Ids and assets are in bijection, and `vacant` lists every unused id once. */
  ghost predicate Ids(names: seq<Option<Asset>>, ids: map<Asset, nat>, vacant: seq<nat>) {
    && (forall a :: a in ids ==> ids[a] < |names| && names[ids[a]] == Some(a))
    && (forall i :: 0 <= i < |names| && names[i].Some? ==> names[i].value in ids && ids[names[i].value] == i)
    && Distinct(vacant)
    && (forall v :: v in vacant ==> v < |names| && names[v].None?)
    && (forall i :: 0 <= i < |names| && names[i].None? ==> i in vacant)
  }

  ghost predicate Shaped(names: seq<Option<Asset>>, table: seq<EdgeSet>) {
    |table| == |names| && forall i :: 0 <= i < |table| ==> WellFormed(table[i]) && KeysBelow(table[i], |names|)
  }

  /** Row s of the selling table lists, under key b, the offers that sell s for b. */
  ghost predicate SellingTable(names: seq<Option<Asset>>, table: seq<EdgeSet>, live: seq<Offer>)
    requires |table| == |names|
  {
    forall s: nat, b: nat :: s < |names| && b < |names| ==> OffersAt(table[s], b) == Listed(live, names[s], names[b])
  }

  /** Row b of the buying table lists, under key s, the same offers. */
  ghost predicate BuyingTable(names: seq<Option<Asset>>, table: seq<EdgeSet>, live: seq<Offer>)
    requires |table| == |names|
  {
    forall s: nat, b: nat :: s < |names| && b < |names| ==> OffersAt(table[b], s) == Listed(live, names[s], names[b])
  }

  /** The pool between the assets of two ids, whichever of them is asset A. */
  ghost function PoolBetween(pools: map<(Asset, Asset), Pool>, names: seq<Option<Asset>>, i: nat,
                             j: nat): Option<PoolVenue>
    requires i < |names| && j < |names|
  {
    if names[i].None? || names[j].None? then None
    else if (names[i].value, names[j].value) in pools
      then Some(PoolVenue(pools[(names[i].value, names[j].value)], i, j))
    else if (names[j].value, names[i].value) in pools
      then Some(PoolVenue(pools[(names[j].value, names[i].value)], j, i))
    else None
  }

  ghost predicate PoolTable(names: seq<Option<Asset>>, table: seq<EdgeSet>, pools: map<(Asset, Asset), Pool>)
    requires |table| == |names|
  {
    forall i: nat, j: nat :: i < |names| && j < |names| ==> PoolAt(table[i], j) == PoolBetween(pools, names, i, j)
  }

  ghost predicate Pairs(ids: map<Asset, nat>, pairs: map<int, Pair>, live: seq<Offer>) {
    && (forall id :: id in pairs <==> HasId(live, id))
    && (forall i :: 0 <= i < |live| ==>
          && live[i].id in pairs && live[i].selling in ids && live[i].buying in ids
          && pairs[live[i].id] == Pair(ids[live[i].buying], ids[live[i].selling]))
  }

  ghost predicate ValidPools(pools: map<(Asset, Asset), Pool>) {
    forall k :: k in pools ==> ValidPool(pools[k]) && pools[k].assetA == k.0 && pools[k].assetB == k.1
  }

  ghost predicate PoolIndex(ids: map<Asset, nat>, index: map<(nat, nat), Pool>, pools: map<(Asset, Asset), Pool>) {
    && (forall k :: k in pools ==> k.0 in ids && k.1 in ids)
    && (forall k :: k in pools ==> (ids[k.0], ids[k.1]) in index && index[(ids[k.0], ids[k.1])] == pools[k])
    && (forall k :: k in index ==> exists a, b :: (a, b) in pools && ids[a] == k.0 && ids[b] == k.1)
  }

  /** Every id in use, except the exempt ones, has an edge. */
  ghost predicate Used(names: seq<Option<Asset>>, selling: seq<EdgeSet>, buying: seq<EdgeSet>, exempt: set<nat>)
    requires |selling| == |buying| == |names|
  {
    forall i: nat :: i < |names| && names[i].Some? && i !in exempt ==> selling[i] != [] || buying[i] != []
  }

  ghost predicate ValidBook(book: Book) {
    ValidLive(book.live) && ValidPools(book.pools)
  }

  ghost predicate Represents(g: Graph, book: Book, exempt: set<nat>) {
    && ValidBook(book)
    && Ids(g.names, g.ids, g.vacant)
    && Shaped(g.names, g.selling) && Shaped(g.names, g.buying)
    && SellingTable(g.names, g.selling, book.live) && BuyingTable(g.names, g.buying, book.live)
    && PoolTable(g.names, g.selling, book.pools) && PoolTable(g.names, g.buying, book.pools)
    && Pairs(g.ids, g.pairs, book.live)
    && PoolIndex(g.ids, g.pools, book.pools)
    && Used(g.names, g.selling, g.buying, exempt)
  }

  /** The relation, taken apart so that a proof can use one conjunct without unfolding the others. */
  lemma Parts(g: Graph, book: Book, exempt: set<nat>)
    requires Represents(g, book, exempt)
    ensures |g.selling| == |g.buying| == |g.names|
    ensures ValidLive(book.live) && ValidPools(book.pools)
    ensures Ids(g.names, g.ids, g.vacant)
    ensures Shaped(g.names, g.selling) && Shaped(g.names, g.buying)
    ensures SellingTable(g.names, g.selling, book.live) && BuyingTable(g.names, g.buying, book.live)
    ensures PoolTable(g.names, g.selling, book.pools) && PoolTable(g.names, g.buying, book.pools)
    ensures Pairs(g.ids, g.pairs, book.live)
    ensures PoolIndex(g.ids, g.pools, book.pools)
    ensures Used(g.names, g.selling, g.buying, exempt)
  {
    hide ValidLive, ValidPools, Ids, SellingTable, BuyingTable, PoolTable, Pairs, PoolIndex, Used;
  }

  lemma Assemble(g: Graph, book: Book, exempt: set<nat>)
    requires |g.selling| == |g.buying| == |g.names|
    requires ValidLive(book.live) && ValidPools(book.pools)
    requires Ids(g.names, g.ids, g.vacant)
    requires Shaped(g.names, g.selling) && Shaped(g.names, g.buying)
    requires SellingTable(g.names, g.selling, book.live) && BuyingTable(g.names, g.buying, book.live)
    requires PoolTable(g.names, g.selling, book.pools) && PoolTable(g.names, g.buying, book.pools)
    requires Pairs(g.ids, g.pairs, book.live)
    requires PoolIndex(g.ids, g.pools, book.pools)
    requires Used(g.names, g.selling, g.buying, exempt)
    ensures Represents(g, book, exempt)
  {
    hide ValidLive, ValidPools, Ids, Shaped, SellingTable, BuyingTable, PoolTable, Pairs, PoolIndex, Used;
  }

  // ---------- ids ----------

  /** No live offer and no pool mentions the asset. */
  ghost predicate Unmentioned(book: Book, a: Asset) {
    && (forall i :: 0 <= i < |book.live| ==> book.live[i].selling != a && book.live[i].buying != a)
    && (forall k :: k in book.pools ==> k.0 != a && k.1 != a)
  }

  /** Nothing is listed between two ids unless both are named by assets that something mentions. */
  lemma NothingListed(book: Book, selling: Option<Asset>, buying: Option<Asset>)
    requires selling.None? || buying.None? || Unmentioned(book, selling.value) || Unmentioned(book, buying.value)
    ensures Listed(book.live, selling, buying) == []
  {
    ListedEmpty(book.live, selling, buying);
  }

  /** Naming or un-naming an id that nothing mentions changes no list and no pool. */
  lemma RenameKeeps(names: seq<Option<Asset>>, names': seq<Option<Asset>>, id: nat, a: Asset, book: Book, i: nat,
                    j: nat)
    requires id < |names| == |names'| && i < |names| && j < |names| && Unmentioned(book, a)
    requires (names[id] == None && names' == names[id := Some(a)])
      || (names[id] == Some(a) && names' == names[id := None])
    ensures Listed(book.live, names'[i], names'[j]) == Listed(book.live, names[i], names[j])
    ensures PoolBetween(book.pools, names', i, j) == PoolBetween(book.pools, names, i, j)
  {
    if i == id || j == id {
      NothingListed(book, names[i], names[j]);
      NothingListed(book, names'[i], names'[j]);
    }
  }

  lemma RenameTables(names: seq<Option<Asset>>, names': seq<Option<Asset>>, id: nat, a: Asset,
                     selling: seq<EdgeSet>, buying: seq<EdgeSet>, book: Book)
    requires |selling| == |buying| == |names| == |names'| && id < |names|
    requires SellingTable(names, selling, book.live) && BuyingTable(names, buying, book.live)
    requires PoolTable(names, selling, book.pools) && PoolTable(names, buying, book.pools)
    requires Unmentioned(book, a)
    requires (names[id] == None && names' == names[id := Some(a)])
      || (names[id] == Some(a) && names' == names[id := None])
    ensures SellingTable(names', selling, book.live) && BuyingTable(names', buying, book.live)
    ensures PoolTable(names', selling, book.pools) && PoolTable(names', buying, book.pools)
  {
    hide Listed, OffersAt, PoolAt, PoolBetween, Unmentioned;
    forall i: nat, j: nat | i < |names| && j < |names|
      ensures Listed(book.live, names'[i], names'[j]) == Listed(book.live, names[i], names[j])
      ensures PoolBetween(book.pools, names', i, j) == PoolBetween(book.pools, names, i, j)
    {
      RenameKeeps(names, names', id, a, book, i, j);
    }
  }

  lemma NewAssetUnmentioned(ids: map<Asset, nat>, index: map<(nat, nat), Pool>, pairs: map<int, Pair>, book: Book,
                            a: Asset)
    requires Pairs(ids, pairs, book.live) && PoolIndex(ids, index, book.pools) && a !in ids
    ensures Unmentioned(book, a)
  {
  }

  /** Naming a vacant id. */
  lemma RecycleStep(g: Graph, book: Book, exempt: set<nat>, a: Asset, id: nat)
    requires Represents(g, book, exempt) && a !in g.ids && |g.vacant| > 0 && id == g.vacant[|g.vacant|-1]
    ensures id < |g.names|
    ensures Represents(g.(vacant := g.vacant[..|g.vacant|-1], names := g.names[id := Some(a)], ids := g.ids[a := id]),
                       book, exempt + {id})
  {
    hide *;
    Parts(g, book, exempt);
    RecycleIds(g.names, g.ids, g.vacant, a);
    var names, ids := g.names[id := Some(a)], g.ids[a := id];
    NewAssetUnmentioned(g.ids, g.pools, g.pairs, book, a);
    RenameTables(g.names, names, id, a, g.selling, g.buying, book);
    IndexKept(g.ids, ids, g.pools, book, g.pairs);
    SameShape(g.names, names, g.selling);
    SameShape(g.names, names, g.buying);
    UsedRenamed(g.names, names, g.selling, g.buying, exempt, id);
    Assemble(g.(vacant := g.vacant[..|g.vacant|-1], names := names, ids := ids), book, exempt + {id});
  }

  lemma SameShape(names: seq<Option<Asset>>, names': seq<Option<Asset>>, table: seq<EdgeSet>)
    requires Shaped(names, table) && |names'| == |names|
    ensures Shaped(names', table)
  {
  }

  lemma UsedRenamed(names: seq<Option<Asset>>, names': seq<Option<Asset>>, selling: seq<EdgeSet>, buying: seq<EdgeSet>,
                    exempt: set<nat>, id: nat)
    requires |selling| == |buying| == |names| == |names'| && Used(names, selling, buying, exempt)
    requires forall i :: 0 <= i < |names| && i != id ==> names'[i] == names[i]
    ensures Used(names', selling, buying, exempt + {id})
    ensures id < |names| && names'[id].None? ==> Used(names', selling, buying, exempt - {id})
  {
  }

  lemma RecycleIds(names: seq<Option<Asset>>, ids: map<Asset, nat>, vacant: seq<nat>, a: Asset)
    requires Ids(names, ids, vacant) && a !in ids && |vacant| > 0
    ensures var id := vacant[|vacant|-1];
            id < |names| && names[id].None? && Ids(names[id := Some(a)], ids[a := id], vacant[..|vacant|-1])
  {
    var n := |vacant| - 1;
    var id := vacant[n];
    assert id in vacant;
    var names', rest := names[id := Some(a)], vacant[..n];
    assert vacant == rest + [id];
    forall v | v in rest
      ensures v < |names'| && names'[v].None?
    {
      assert v in vacant;
      var i :| 0 <= i < |rest| && rest[i] == v;
      assert vacant[i] != vacant[n];
    }
    forall i | 0 <= i < |names'| && names'[i].None?
      ensures i in rest
    {
      assert i in vacant;
    }
  }

  /** The offer and pool indices survive as long as mentioned assets keep their ids. */
  lemma IndexKept(ids: map<Asset, nat>, ids': map<Asset, nat>, index: map<(nat, nat), Pool>, book: Book,
                  pairs: map<int, Pair>)
    requires Pairs(ids, pairs, book.live) && PoolIndex(ids, index, book.pools)
    requires forall a :: a in ids && !Unmentioned(book, a) ==> a in ids' && ids'[a] == ids[a]
    ensures Pairs(ids', pairs, book.live) && PoolIndex(ids', index, book.pools)
  {
    forall i | 0 <= i < |book.live|
      ensures !Unmentioned(book, book.live[i].selling) && !Unmentioned(book, book.live[i].buying)
    {
    }
    forall k | k in book.pools
      ensures !Unmentioned(book, k.0) && !Unmentioned(book, k.1)
    {
    }
    forall k | k in index
      ensures exists a, b :: (a, b) in book.pools && ids'[a] == k.0 && ids'[b] == k.1
    {
      var a, b :| (a, b) in book.pools && ids[a] == k.0 && ids[b] == k.1;
      assert ids'[(a, b).0] == k.0 && ids'[(a, b).1] == k.1;
    }
  }

  /** Naming a new id. */
  lemma ExtendStep(g: Graph, book: Book, exempt: set<nat>, a: Asset, id: nat)
    requires Represents(g, book, exempt) && a !in g.ids && id == |g.names|
    ensures Represents(g.(names := g.names + [Some(a)], ids := g.ids[a := id],
                          selling := g.selling + [[]], buying := g.buying + [[]]), book, exempt + {id})
  {
    hide *;
    Parts(g, book, exempt);
    var g' := g.(names := g.names + [Some(a)], ids := g.ids[a := id], selling := g.selling + [[]],
      buying := g.buying + [[]]);
    ExtendIds(g.names, g.ids, g.vacant, a);
    ExtendShape(g.names, g.selling, Some(a));
    ExtendShape(g.names, g.buying, Some(a));
    UsedExtended(g.names, Some(a), g.selling, g.buying, exempt);
    NewAssetUnmentioned(g.ids, g.pools, g.pairs, book, a);
    ExtendTables(g.names, g.selling, g.buying, a, book);
    IndexKept(g.ids, g'.ids, g.pools, book, g.pairs);
    Assemble(g', book, exempt + {id});
  }

  lemma UsedExtended(names: seq<Option<Asset>>, name: Option<Asset>, selling: seq<EdgeSet>, buying: seq<EdgeSet>,
                     exempt: set<nat>)
    requires |selling| == |buying| == |names| && Used(names, selling, buying, exempt)
    ensures Used(names + [name], selling + [[]], buying + [[]], exempt + {|names|})
  {
  }

  lemma ExtendIds(names: seq<Option<Asset>>, ids: map<Asset, nat>, vacant: seq<nat>, a: Asset)
    requires Ids(names, ids, vacant) && a !in ids
    ensures Ids(names + [Some(a)], ids[a := |names|], vacant)
  {
  }

  lemma ExtendShape(names: seq<Option<Asset>>, table: seq<EdgeSet>, name: Option<Asset>)
    requires Shaped(names, table)
    ensures Shaped(names + [name], table + [[]])
  {
    forall i | 0 <= i < |table + [[]]|
      ensures WellFormed((table + [[]])[i]) && KeysBelow((table + [[]])[i], |names| + 1)
    {
    }
  }

  lemma ExtendTables(names: seq<Option<Asset>>, selling: seq<EdgeSet>, buying: seq<EdgeSet>, a: Asset, book: Book)
    requires Shaped(names, selling) && Shaped(names, buying) && Unmentioned(book, a)
    requires SellingTable(names, selling, book.live) && BuyingTable(names, buying, book.live)
    requires PoolTable(names, selling, book.pools) && PoolTable(names, buying, book.pools)
    ensures var names', selling', buying' := names + [Some(a)], selling + [[]], buying + [[]];
            && SellingTable(names', selling', book.live) && BuyingTable(names', buying', book.live)
            && PoolTable(names', selling', book.pools) && PoolTable(names', buying', book.pools)
  {
    var names', selling', buying' := names + [Some(a)], selling + [[]], buying + [[]];
    var n := |names|;
    hide Listed, OffersAt, PoolAt, PoolBetween, Unmentioned, WellFormed, KeysBelow;
    forall i: nat, j: nat | i <= n && j <= n
      ensures OffersAt(selling'[i], j) == Listed(book.live, names'[i], names'[j])
      ensures OffersAt(buying'[j], i) == Listed(book.live, names'[i], names'[j])
      ensures PoolAt(selling'[i], j) == PoolBetween(book.pools, names', i, j)
      ensures PoolAt(buying'[i], j) == PoolBetween(book.pools, names', i, j)
    {
      ExtendCell(names, selling, buying, a, book, i, j);
    }
  }

  lemma ExtendCell(names: seq<Option<Asset>>, selling: seq<EdgeSet>, buying: seq<EdgeSet>, a: Asset, book: Book, i: nat,
                   j: nat)
    requires Shaped(names, selling) && Shaped(names, buying) && Unmentioned(book, a)
    requires SellingTable(names, selling, book.live) && BuyingTable(names, buying, book.live)
    requires PoolTable(names, selling, book.pools) && PoolTable(names, buying, book.pools)
    requires i <= |names| && j <= |names|
    ensures var names', selling', buying' := names + [Some(a)], selling + [[]], buying + [[]];
            && OffersAt(selling'[i], j) == Listed(book.live, names'[i], names'[j])
            && OffersAt(buying'[j], i) == Listed(book.live, names'[i], names'[j])
            && PoolAt(selling'[i], j) == PoolBetween(book.pools, names', i, j)
            && PoolAt(buying'[i], j) == PoolBetween(book.pools, names', i, j)
  {
    var names' := names + [Some(a)];
    var n := |names|;
    if i == n || j == n {
      NothingListed(book, names'[i], names'[j]);
      NothingAbove(selling, i, j, n);
      NothingAbove(buying, j, i, n);
      NothingAbove(buying, i, j, n);
    } else {
      assert PoolBetween(book.pools, names', i, j) == PoolBetween(book.pools, names, i, j);
    }
  }

  /** A table extended by an empty row holds nothing in its new row and column. */
  lemma NothingAbove(table: seq<EdgeSet>, i: nat, j: nat, n: nat)
    requires |table| == n && i <= n && j <= n && (i == n || j == n)
    requires forall k :: 0 <= k < n ==> KeysBelow(table[k], n)
    ensures var row := (table + [[]])[i]; OffersAt(row, j) == [] && PoolAt(row, j) == None
  {
  }

  /** Giving up an id without edges. */
  lemma ForgetStep(g: Graph, book: Book, exempt: set<nat>, id: nat)
    requires Represents(g, book, exempt) && id < |g.names| && g.names[id].Some?
    requires id < |g.selling| && id < |g.buying| && g.selling[id] == [] && g.buying[id] == []
    ensures Represents(g.(ids := g.ids - {g.names[id].value}, names := g.names[id := None], vacant := g.vacant + [id]),
                       book, exempt - {id})
  {
    hide *;
    Parts(g, book, exempt);
    var a := g.names[id].value;
    var names, ids := g.names[id := None], g.ids - {a};
    ForgetIds(g.names, g.ids, g.vacant, id);
    EdgelessUnmentioned(g, book, exempt, id);
    RenameTables(g.names, names, id, a, g.selling, g.buying, book);
    IndexKept(g.ids, ids, g.pools, book, g.pairs);
    SameShape(g.names, names, g.selling);
    SameShape(g.names, names, g.buying);
    UsedRenamed(g.names, names, g.selling, g.buying, exempt, id);
    Assemble(g.(ids := ids, names := names, vacant := g.vacant + [id]), book, exempt - {id});
  }

  lemma ForgetIds(names: seq<Option<Asset>>, ids: map<Asset, nat>, vacant: seq<nat>, id: nat)
    requires Ids(names, ids, vacant) && id < |names| && names[id].Some?
    ensures Ids(names[id := None], ids - {names[id].value}, vacant + [id])
  {
    assert id !in vacant;
  }

  /** A live id without edges is mentioned by nothing. */
  lemma EdgelessUnmentioned(g: Graph, book: Book, exempt: set<nat>, id: nat)
    requires Represents(g, book, exempt) && id < |g.names| && g.names[id].Some?
    requires id < |g.selling| && id < |g.buying| && g.selling[id] == [] && g.buying[id] == []
    ensures Unmentioned(book, g.names[id].value)
  {
    hide *;
    Parts(g, book, exempt);
    EdgelessOffers(g.names, g.ids, g.vacant, g.pairs, g.selling, g.buying, book.live, id);
    EdgelessPools(g.names, g.ids, g.vacant, g.pools, g.selling, book.pools, id);
    UnmentionedBy(book, g.names[id].value);
  }

  lemma UnmentionedBy(book: Book, a: Asset)
    requires forall i :: 0 <= i < |book.live| ==> book.live[i].selling != a && book.live[i].buying != a
    requires forall k :: k in book.pools ==> k.0 != a && k.1 != a
    ensures Unmentioned(book, a)
  {
  }

  lemma EdgelessOffers(names: seq<Option<Asset>>, ids: map<Asset, nat>, vacant: seq<nat>, pairs: map<int, Pair>,
                       selling: seq<EdgeSet>, buying: seq<EdgeSet>, live: seq<Offer>, id: nat)
    requires |selling| == |buying| == |names| && id < |names| && names[id].Some? && selling[id] == []
    requires buying[id] == []
    requires Ids(names, ids, vacant) && Pairs(ids, pairs, live)
    requires SellingTable(names, selling, live) && BuyingTable(names, buying, live)
    ensures forall i :: 0 <= i < |live| ==> live[i].selling != names[id].value && live[i].buying != names[id].value
  {
    hide SellingTable, BuyingTable;
    forall i | 0 <= i < |live|
      ensures live[i].selling != names[id].value && live[i].buying != names[id].value
    {
      var o := live[i];
      ListedOffersHaveEdges(names, selling, buying, live, o, ids[o.selling], ids[o.buying]);
    }
  }

  lemma EdgelessPools(names: seq<Option<Asset>>, ids: map<Asset, nat>, vacant: seq<nat>, index: map<(nat, nat), Pool>,
                      table: seq<EdgeSet>, pools: map<(Asset, Asset), Pool>, id: nat)
    requires |table| == |names| && id < |names| && names[id].Some? && table[id] == []
    requires Ids(names, ids, vacant) && PoolIndex(ids, index, pools) && PoolTable(names, table, pools)
    ensures forall k :: k in pools ==> k.0 != names[id].value && k.1 != names[id].value
  {
    hide PoolTable;
    forall k | k in pools
      ensures k.0 != names[id].value && k.1 != names[id].value
    {
      PoolsHaveEdges(names, table, pools, k, ids[k.0], ids[k.1]);
    }
  }

  lemma ListedOffersHaveEdges(names: seq<Option<Asset>>, selling: seq<EdgeSet>, buying: seq<EdgeSet>, live: seq<Offer>,
                              o: Offer, s: nat, b: nat)
    requires |selling| == |buying| == |names| && s < |names| && b < |names|
    requires SellingTable(names, selling, live) && BuyingTable(names, buying, live)
    requires o in live && names[s] == Some(o.selling) && names[b] == Some(o.buying)
    ensures selling[s] != [] && buying[b] != []
  {
    ListedMembers(live, names[s], names[b], o);
    assert OffersAt(selling[s], b) == Listed(live, names[s], names[b]);
    assert OffersAt(buying[b], s) == Listed(live, names[s], names[b]);
  }

  lemma PoolsHaveEdges(names: seq<Option<Asset>>, table: seq<EdgeSet>, pools: map<(Asset, Asset), Pool>,
                       k: (Asset, Asset), i: nat, j: nat)
    requires |table| == |names| && i < |names| && j < |names| && PoolTable(names, table, pools)
    requires k in pools && names[i] == Some(k.0) && names[j] == Some(k.1)
    ensures table[i] != [] && table[j] != []
  {
    assert (names[i].value, names[j].value) == k;
    assert PoolAt(table[i], j) == PoolBetween(pools, names, i, j);
    assert PoolAt(table[j], i) == PoolBetween(pools, names, j, i);
  }

  // ---------- rewriting rows ----------

  lemma RowShaped(names: seq<Option<Asset>>, table: seq<EdgeSet>, i: nat, row: EdgeSet, key: nat,
                  offers: seq<Offer>, pool: Option<PoolVenue>)
    requires Shaped(names, table) && i < |table| && key < |names| && Updates(table[i], row, key, offers, pool)
    ensures Shaped(names, table[i := row])
  {
    hide OffersAt, PoolAt, WellFormed;
    assert KeysBelow(table[i], |names|);
    assert KeysBelow(row, |names|);
  }

  lemma RowNonEmpty(e: EdgeSet, row: EdgeSet, key: nat, offers: seq<Offer>, pool: Option<PoolVenue>)
    requires Updates(e, row, key, offers, pool) && (offers != [] || pool != None)
    ensures row != []
  {
    assert OffersAt(row, key) == offers && PoolAt(row, key) == pool;
  }

  /** Two sequences of live offers differ only in the list of the pair (s, b), which becomes `cell`. */
  ghost predicate ListedChange(names: seq<Option<Asset>>, live: seq<Offer>, live': seq<Offer>, s: nat, b: nat,
                               cell: seq<Offer>) {
    forall i: nat, j: nat :: i < |names| && j < |names| ==>
      Listed(live', names[i], names[j]) == if i == s && j == b then cell else Listed(live, names[i], names[j])
  }

  lemma SellingRow(names: seq<Option<Asset>>, table: seq<EdgeSet>, live: seq<Offer>, live': seq<Offer>,
                   s: nat, b: nat, row: EdgeSet, cell: seq<Offer>, pool: Option<PoolVenue>)
    requires |table| == |names| && s < |names| && b < |names| && SellingTable(names, table, live)
    requires Updates(table[s], row, b, cell, pool) && ListedChange(names, live, live', s, b, cell)
    ensures SellingTable(names, table[s := row], live')
  {
    hide Listed, OffersAt, PoolAt, WellFormed, KeysBelow;
    forall i: nat, j: nat | i < |names| && j < |names|
      ensures OffersAt(table[s := row][i], j) == Listed(live', names[i], names[j])
    {
      assert OffersAt(table[i], j) == Listed(live, names[i], names[j]);
    }
  }

  lemma BuyingRow(names: seq<Option<Asset>>, table: seq<EdgeSet>, live: seq<Offer>, live': seq<Offer>,
                  s: nat, b: nat, row: EdgeSet, cell: seq<Offer>, pool: Option<PoolVenue>)
    requires |table| == |names| && s < |names| && b < |names| && BuyingTable(names, table, live)
    requires Updates(table[b], row, s, cell, pool) && ListedChange(names, live, live', s, b, cell)
    ensures BuyingTable(names, table[b := row], live')
  {
    hide Listed, OffersAt, PoolAt, WellFormed, KeysBelow;
    forall i: nat, j: nat | i < |names| && j < |names|
      ensures OffersAt(table[b := row][j], i) == Listed(live', names[i], names[j])
    {
      assert OffersAt(table[j], i) == Listed(live, names[i], names[j]);
    }
  }

  lemma PoolRowKept(names: seq<Option<Asset>>, table: seq<EdgeSet>, pools: map<(Asset, Asset), Pool>,
                    i: nat, key: nat, row: EdgeSet, offers: seq<Offer>)
    requires |table| == |names| && i < |names| && PoolTable(names, table, pools)
    requires Updates(table[i], row, key, offers, PoolAt(table[i], key))
    ensures PoolTable(names, table[i := row], pools)
  {
    hide OffersAt, PoolAt, PoolBetween, WellFormed, KeysBelow;
    forall m: nat, j: nat | m < |names| && j < |names|
      ensures PoolAt(table[i := row][m], j) == PoolBetween(pools, names, m, j)
    {
      assert PoolAt(table[m], j) == PoolBetween(pools, names, m, j);
    }
  }

  // ---------- offers ----------

  /** The (s, b) cells of the two tables, as the representation relation fixes them. */
  lemma Cell(g: Graph, book: Book, exempt: set<nat>, s: nat, b: nat)
    requires Represents(g, book, exempt) && s < |g.names| && b < |g.names|
    ensures |g.selling| == |g.buying| == |g.names|
    ensures OffersAt(g.selling[s], b) == OffersAt(g.buying[b], s) == Listed(book.live, g.names[s], g.names[b])
    ensures Sorted(OffersAt(g.selling[s], b)) && Priced(OffersAt(g.selling[s], b))
    ensures WellFormed(g.selling[s]) && WellFormed(g.buying[b])
  {
    Parts(g, book, exempt);
    hide Represents, OffersAt, PoolAt, WellFormed, Listed, Ids, Pairs, PoolIndex, Used, Sorted, Priced, PoolTable,
      ValidLive, ValidPools;
    ListedSorted(book.live, g.names[s], g.names[b]);
  }

  /** Rewriting the (s, b) cell of both tables, to what a new sequence of live offers lists there. */
  lemma CellRewritten(g: Graph, book: Book, exempt: set<nat>, s: nat, b: nat, rowS: EdgeSet, rowB: EdgeSet,
                      cell: seq<Offer>, live: seq<Offer>)
    requires Represents(g, book, exempt) && s < |g.names| && b < |g.names| && |g.selling| == |g.buying| == |g.names|
    requires Updates(g.selling[s], rowS, b, cell, PoolAt(g.selling[s], b))
    requires Updates(g.buying[b], rowB, s, cell, PoolAt(g.buying[b], s))
    requires ListedChange(g.names, book.live, live, s, b, cell)
    ensures var selling, buying := g.selling[s := rowS], g.buying[b := rowB];
            && Shaped(g.names, selling) && Shaped(g.names, buying)
            && SellingTable(g.names, selling, live) && BuyingTable(g.names, buying, live)
            && PoolTable(g.names, selling, book.pools) && PoolTable(g.names, buying, book.pools)
  {
    hide *;
    Parts(g, book, exempt);
    RowShaped(g.names, g.selling, s, rowS, b, cell, PoolAt(g.selling[s], b));
    RowShaped(g.names, g.buying, b, rowB, s, cell, PoolAt(g.buying[b], s));
    SellingRow(g.names, g.selling, book.live, live, s, b, rowS, cell, PoolAt(g.selling[s], b));
    BuyingRow(g.names, g.buying, book.live, live, s, b, rowB, cell, PoolAt(g.buying[b], s));
    PoolRowKept(g.names, g.selling, book.pools, s, b, rowS, cell);
    PoolRowKept(g.names, g.buying, book.pools, b, s, rowB, cell);
  }

  /** The listing of a pair named by two ids is one that only this pair's offers enter. */
  lemma NamesTrade(names: seq<Option<Asset>>, ids: map<Asset, nat>, vacant: seq<nat>, o: Offer, i: nat, j: nat)
    requires Ids(names, ids, vacant) && o.selling in ids && o.buying in ids && i < |names| && j < |names|
    ensures Trades(o, names[i], names[j]) <==> i == ids[o.selling] && j == ids[o.buying]
  {
  }

  lemma InsertChange(g: Graph, book: Book, o: Offer, s: nat, b: nat)
    requires Ids(g.names, g.ids, g.vacant)
    requires o.selling in g.ids && o.buying in g.ids && s == g.ids[o.selling] && b == g.ids[o.buying]
    requires s < |g.names| && b < |g.names|
    ensures ListedChange(g.names, book.live, book.live + [o], s, b,
                         InsertByPrice(Listed(book.live, g.names[s], g.names[b]), o))
  {
    hide Ids, Trades, InsertByPrice;
    forall i: nat, j: nat | i < |g.names| && j < |g.names|
      ensures Listed(book.live + [o], g.names[i], g.names[j]) ==
              if i == s && j == b then InsertByPrice(Listed(book.live, g.names[s], g.names[b]), o)
              else Listed(book.live, g.names[i], g.names[j])
    {
      ListedExtended(book.live, o, g.names[i], g.names[j]);
      NamesTrade(g.names, g.ids, g.vacant, o, i, j);
    }
  }

  lemma InsertStep(g: Graph, book: Book, exempt: set<nat>, o: Offer, s: nat, b: nat, rowS: EdgeSet, rowB: EdgeSet)
    requires Represents(g, book, exempt) && ValidOffer(o) && !HasId(book.live, o.id)
    requires o.selling in g.ids && o.buying in g.ids && s == g.ids[o.selling] && b == g.ids[o.buying]
    requires s < |g.names| && b < |g.names| && |g.selling| == |g.buying| == |g.names|
    requires Updates(g.selling[s], rowS, b, InsertByPrice(OffersAt(g.selling[s], b), o), PoolAt(g.selling[s], b))
    requires Updates(g.buying[b], rowB, s, InsertByPrice(OffersAt(g.buying[b], s), o), PoolAt(g.buying[b], s))
    ensures Represents(g.(pairs := g.pairs[o.id := Pair(b, s)], selling := g.selling[s := rowS],
      buying := g.buying[b := rowB]),
                       Book(book.live + [o], book.pools), exempt - {s, b})
  {
    hide *;
    Parts(g, book, exempt);
    ExtendValid(book.live, o);
    Cell(g, book, exempt, s, b);
    var cell := InsertByPrice(Listed(book.live, g.names[s], g.names[b]), o);
    InsertChange(g, book, o, s, b);
    CellRewritten(g, book, exempt, s, b, rowS, rowB, cell, book.live + [o]);
    PairsExtended(g.ids, g.pairs, book.live, o);
    RowNonEmpty(g.selling[s], rowS, b, cell, PoolAt(g.selling[s], b));
    RowNonEmpty(g.buying[b], rowB, s, cell, PoolAt(g.buying[b], s));
    UsedRows(g.names, g.selling, g.buying, g.selling[s := rowS], g.buying[b := rowB], exempt, s, b);
    Assemble(g.(pairs := g.pairs[o.id := Pair(b, s)], selling := g.selling[s := rowS], buying := g.buying[b := rowB]),
             Book(book.live + [o], book.pools), exempt - {s, b});
  }

  /** Changing the rows of two ids affects only their own need for edges. */
  lemma UsedRows(names: seq<Option<Asset>>, selling: seq<EdgeSet>, buying: seq<EdgeSet>,
                 selling': seq<EdgeSet>, buying': seq<EdgeSet>, exempt: set<nat>, a: nat, b: nat)
    requires |selling| == |buying| == |selling'| == |buying'| == |names| && Used(names, selling, buying, exempt)
    requires forall i :: 0 <= i < |names| && i != a && i != b ==> selling'[i] == selling[i] && buying'[i] == buying[i]
    ensures Used(names, selling', buying', exempt + {a, b})
    ensures (&& a < |names| && b < |names|
             && (selling'[a] != [] || buying'[a] != [])
             && (selling'[b] != [] || buying'[b] != [])) ==>
      Used(names, selling', buying', exempt - {a, b})
  {
  }

  lemma PairsExtended(ids: map<Asset, nat>, pairs: map<int, Pair>, live: seq<Offer>, o: Offer)
    requires Pairs(ids, pairs, live) && !HasId(live, o.id) && o.selling in ids && o.buying in ids
    ensures Pairs(ids, pairs[o.id := Pair(ids[o.buying], ids[o.selling])], live + [o])
  {
    var live' := live + [o];
    forall id
      ensures HasId(live', id) <==> HasId(live, id) || id == o.id
    {
      if HasId(live, id) {
        var i :| 0 <= i < |live| && live[i].id == id;
        assert live'[i].id == id;
      }
      assert live'[|live|].id == o.id;
    }
  }

  lemma RemoveChange(g: Graph, book: Book, o: Offer, s: nat, b: nat)
    requires Ids(g.names, g.ids, g.vacant) && ValidLive(book.live) && o in book.live
    requires o.selling in g.ids && o.buying in g.ids && s == g.ids[o.selling] && b == g.ids[o.buying]
    requires s < |g.names| && b < |g.names|
    ensures ListedChange(g.names, book.live, Without(book.live, o.id), s, b,
                         RemoveId(Listed(book.live, g.names[s], g.names[b]), o.id))
  {
    hide Ids, Trades, RemoveId, Listed, ValidLive, Without;
    forall i: nat, j: nat | i < |g.names| && j < |g.names|
      ensures Listed(Without(book.live, o.id), g.names[i], g.names[j]) ==
              if i == s && j == b then RemoveId(Listed(book.live, g.names[s], g.names[b]), o.id)
              else Listed(book.live, g.names[i], g.names[j])
    {
      NamesTrade(g.names, g.ids, g.vacant, o, i, j);
      if i == s && j == b {
        ListedWithout(book.live, g.names[s], g.names[b], o.id);
      } else {
        ListedUnaffected(book.live, g.names[i], g.names[j], o);
      }
    }
  }

  lemma RemoveStep(g: Graph, book: Book, o: Offer, s: nat, b: nat, rowS: EdgeSet, rowB: EdgeSet)
    requires Represents(g, book, {}) && o in book.live
    requires o.selling in g.ids && o.buying in g.ids && s == g.ids[o.selling] && b == g.ids[o.buying]
    requires s < |g.names| && b < |g.names| && |g.selling| == |g.buying| == |g.names|
    requires Updates(g.selling[s], rowS, b, RemoveId(OffersAt(g.selling[s], b), o.id), PoolAt(g.selling[s], b))
    requires Updates(g.buying[b], rowB, s, RemoveId(OffersAt(g.buying[b], s), o.id), PoolAt(g.buying[b], s))
    ensures Represents(g.(pairs := g.pairs - {o.id}, selling := g.selling[s := rowS], buying := g.buying[b := rowB]),
                       Book(Without(book.live, o.id), book.pools), {s, b})
  {
    hide *;
    Parts(g, book, {});
    WithoutValid(book.live, o.id);
    Cell(g, book, {}, s, b);
    var cell := RemoveId(Listed(book.live, g.names[s], g.names[b]), o.id);
    RemoveChange(g, book, o, s, b);
    CellRewritten(g, book, {}, s, b, rowS, rowB, cell, Without(book.live, o.id));
    PairsShrunk(g.ids, g.pairs, book.live, o);
    UsedRows(g.names, g.selling, g.buying, g.selling[s := rowS], g.buying[b := rowB], {}, s, b);
    assert {} + {s, b} == {s, b};
    Assemble(g.(pairs := g.pairs - {o.id}, selling := g.selling[s := rowS], buying := g.buying[b := rowB]),
             Book(Without(book.live, o.id), book.pools), {s, b});
  }

  lemma PairsShrunk(ids: map<Asset, nat>, pairs: map<int, Pair>, live: seq<Offer>, o: Offer)
    requires Pairs(ids, pairs, live) && ValidLive(live) && o in live
    ensures Pairs(ids, pairs - {o.id}, Without(live, o.id))
  {
    var live' := Without(live, o.id);
    forall i | 0 <= i < |live'|
      ensures live'[i] in live && live'[i].id != o.id
    {
      WithoutMembers(live, o.id, live'[i]);
    }
    forall id
      ensures HasId(live', id) <==> HasId(live, id) && id != o.id
    {
      if i :| 0 <= i < |live| && live[i].id == id != o.id {
        WithoutMembers(live, o.id, live[i]);
        var j :| 0 <= j < |live'| && live'[j] == live[i];
      }
    }
  }

  // ---------- pools ----------

  /** Both rows of a table rewritten at the crossing cells (a, b) and (b, a). */
  ghost predicate Crossed(table: seq<EdgeSet>, table': seq<EdgeSet>, a: nat, b: nat, venue: Option<PoolVenue>)
    requires a < |table| && b < |table|
  {
    && |table'| == |table|
    && (forall i :: 0 <= i < |table| && i != a && i != b ==> table'[i] == table[i])
    && Updates(table[a], table'[a], b, OffersAt(table[a], b), venue)
    && Updates(table[b], table'[b], a, OffersAt(table[b], a), venue)
  }

  /** Two books' pools differ only between a and b, where the new one has `venue`. */
  ghost predicate PoolChange(names: seq<Option<Asset>>, pools: map<(Asset, Asset), Pool>,
                             pools': map<(Asset, Asset), Pool>,
                             a: nat, b: nat, venue: Option<PoolVenue>)
  {
    forall i: nat, j: nat :: i < |names| && j < |names| ==>
      PoolBetween(pools', names, i, j) ==
      if (i == a && j == b) || (i == b && j == a) then venue else PoolBetween(pools, names, i, j)
  }

  lemma CrossedShaped(names: seq<Option<Asset>>, table: seq<EdgeSet>, table': seq<EdgeSet>, a: nat, b: nat,
                      venue: Option<PoolVenue>)
    requires Shaped(names, table) && a < |table| && b < |table| && Crossed(table, table', a, b, venue)
    ensures Shaped(names, table')
  {
    hide OffersAt, PoolAt, WellFormed;
    assert KeysBelow(table[a], |names|) && KeysBelow(table[b], |names|);
    assert KeysBelow(table'[a], |names|) && KeysBelow(table'[b], |names|);
  }

  lemma CrossedPools(names: seq<Option<Asset>>, table: seq<EdgeSet>, table': seq<EdgeSet>, a: nat, b: nat,
                     venue: Option<PoolVenue>, pools: map<(Asset, Asset), Pool>, pools': map<(Asset, Asset), Pool>)
    requires |table| == |names| && a < |table| && b < |table| && Crossed(table, table', a, b, venue)
    requires PoolTable(names, table, pools) && PoolChange(names, pools, pools', a, b, venue)
    ensures PoolTable(names, table', pools')
  {
    hide OffersAt, PoolAt, PoolBetween, WellFormed, KeysBelow;
    forall i: nat, j: nat | i < |names| && j < |names|
      ensures PoolAt(table'[i], j) == PoolBetween(pools', names, i, j)
    {
      assert PoolAt(table[i], j) == PoolBetween(pools, names, i, j);
    }
  }

  lemma CrossedOffers(table: seq<EdgeSet>, table': seq<EdgeSet>, a: nat, b: nat, venue: Option<PoolVenue>)
    requires a < |table| && b < |table| && Crossed(table, table', a, b, venue)
    ensures forall i: nat, k: nat :: i < |table| ==> OffersAt(table'[i], k) == OffersAt(table[i], k)
  {
    hide OffersAt, PoolAt, WellFormed, KeysBelow;
  }

  lemma TablesCrossed(g: Graph, book: Book, exempt: set<nat>, a: nat, b: nat, venue: Option<PoolVenue>,
                      selling: seq<EdgeSet>, buying: seq<EdgeSet>, pools: map<(Asset, Asset), Pool>)
    requires Represents(g, book, exempt) && a < |g.names| && b < |g.names| && |g.selling| == |g.buying| == |g.names|
    requires Crossed(g.selling, selling, a, b, venue) && Crossed(g.buying, buying, a, b, venue)
    requires PoolChange(g.names, book.pools, pools, a, b, venue)
    ensures |selling| == |buying| == |g.names|
    ensures Shaped(g.names, selling) && Shaped(g.names, buying)
    ensures SellingTable(g.names, selling, book.live) && BuyingTable(g.names, buying, book.live)
    ensures PoolTable(g.names, selling, pools) && PoolTable(g.names, buying, pools)
  {
    Parts(g, book, exempt);
    hide Represents, ValidLive, ValidPools, Ids, PoolTable, Pairs, PoolIndex, Used, PoolChange, OffersAt, Listed,
      Updates, WellFormed, KeysBelow;
    CrossedShaped(g.names, g.selling, selling, a, b, venue);
    CrossedShaped(g.names, g.buying, buying, a, b, venue);
    CrossedPools(g.names, g.selling, selling, a, b, venue, book.pools, pools);
    CrossedPools(g.names, g.buying, buying, a, b, venue, book.pools, pools);
    CrossedOffers(g.selling, selling, a, b, venue);
    CrossedOffers(g.buying, buying, a, b, venue);
  }

  lemma AddPoolStep(g: Graph, book: Book, exempt: set<nat>, p: Pool, a: nat, b: nat,
                    selling: seq<EdgeSet>, buying: seq<EdgeSet>)
    requires Represents(g, book, exempt) && ValidPool(p)
    requires p.assetA in g.ids && p.assetB in g.ids && a == g.ids[p.assetA] && b == g.ids[p.assetB]
    requires a < |g.names| && b < |g.names| && |g.selling| == |g.buying| == |g.names|
    requires Crossed(g.selling, selling, a, b, Some(PoolVenue(p, a, b)))
    requires Crossed(g.buying, buying, a, b, Some(PoolVenue(p, a, b)))
    ensures Represents(g.(pools := g.pools[(a, b) := p], selling := selling, buying := buying),
                       Book(book.live, book.pools[(p.assetA, p.assetB) := p]), exempt - {a, b})
  {
    hide *;
    Parts(g, book, exempt);
    var pools := book.pools[(p.assetA, p.assetB) := p];
    var venue := Some(PoolVenue(p, a, b));
    PoolAdded(g.names, g.ids, g.vacant, book.pools, p, a, b);
    TablesCrossed(g, book, exempt, a, b, venue, selling, buying, pools);
    PoolIndexExtended(g.ids, g.pools, book.pools, p, g.names, g.vacant);
    CrossedRows(g.names, g.selling, g.buying, selling, buying, exempt, a, b, venue);
    Assemble(g.(pools := g.pools[(a, b) := p], selling := selling, buying := buying), Book(book.live, pools),
      exempt - {a, b});
  }

  lemma CrossedRows(names: seq<Option<Asset>>, selling: seq<EdgeSet>, buying: seq<EdgeSet>,
                    selling': seq<EdgeSet>, buying': seq<EdgeSet>, exempt: set<nat>, a: nat, b: nat,
                      venue: Option<PoolVenue>)
    requires |selling| == |buying| == |names| && Used(names, selling, buying, exempt) && a < |names| && b < |names|
    requires Crossed(selling, selling', a, b, venue) && Crossed(buying, buying', a, b, venue)
    ensures Used(names, selling', buying', exempt + {a, b})
    ensures venue.Some? ==> Used(names, selling', buying', exempt - {a, b})
  {
    hide Updates, OffersAt, Used;
    if venue.Some? {
      RowNonEmpty(selling[a], selling'[a], b, OffersAt(selling[a], b), venue);
      RowNonEmpty(selling[b], selling'[b], a, OffersAt(selling[b], a), venue);
    }
    UsedRows(names, selling, buying, selling', buying', exempt, a, b);
  }

  lemma PoolAdded(names: seq<Option<Asset>>, ids: map<Asset, nat>, vacant: seq<nat>, pools: map<(Asset, Asset), Pool>,
                  p: Pool, a: nat, b: nat)
    requires Ids(names, ids, vacant) && ValidPools(pools) && ValidPool(p)
    requires p.assetA in ids && p.assetB in ids && a == ids[p.assetA] && b == ids[p.assetB]
    ensures ValidPools(pools[(p.assetA, p.assetB) := p])
    ensures PoolChange(names, pools, pools[(p.assetA, p.assetB) := p], a, b, Some(PoolVenue(p, a, b)))
  {
    AssetLessAsymmetric(p.assetA, p.assetB);
    assert (p.assetB, p.assetA) !in pools;
    hide AssetLess;
  }

  lemma PoolDropped(names: seq<Option<Asset>>, ids: map<Asset, nat>, vacant: seq<nat>, pools: map<(Asset, Asset), Pool>,
                    p: Pool, a: nat, b: nat)
    requires Ids(names, ids, vacant) && ValidPools(pools) && ValidPool(p)
    requires p.assetA in ids && p.assetB in ids && a == ids[p.assetA] && b == ids[p.assetB]
    ensures ValidPools(pools - {(p.assetA, p.assetB)})
    ensures PoolChange(names, pools, pools - {(p.assetA, p.assetB)}, a, b, None)
  {
    AssetLessAsymmetric(p.assetA, p.assetB);
    assert (p.assetB, p.assetA) !in pools;
    hide AssetLess;
  }

  lemma PoolIndexExtended(ids: map<Asset, nat>, index: map<(nat, nat), Pool>, pools: map<(Asset, Asset), Pool>, p: Pool,
                          names: seq<Option<Asset>>, vacant: seq<nat>)
    requires PoolIndex(ids, index, pools) && p.assetA in ids && p.assetB in ids && Ids(names, ids, vacant)
    ensures PoolIndex(ids, index[(ids[p.assetA], ids[p.assetB]) := p], pools[(p.assetA, p.assetB) := p])
  {
    var index', pools' := index[(ids[p.assetA], ids[p.assetB]) := p], pools[(p.assetA, p.assetB) := p];
    forall k | k in index'
      ensures exists a, b :: (a, b) in pools' && ids[a] == k.0 && ids[b] == k.1
    {
      if k == (ids[p.assetA], ids[p.assetB]) {
        assert (p.assetA, p.assetB) in pools';
      } else {
        var a, b :| (a, b) in pools && ids[a] == k.0 && ids[b] == k.1;
        assert (a, b) in pools';
      }
    }
  }

  lemma RemovePoolStep(g: Graph, book: Book, exempt: set<nat>, p: Pool, a: nat, b: nat,
                       selling: seq<EdgeSet>, buying: seq<EdgeSet>)
    requires Represents(g, book, exempt) && ValidPool(p)
    requires p.assetA in g.ids && p.assetB in g.ids && a == g.ids[p.assetA] && b == g.ids[p.assetB]
    requires a < |g.names| && b < |g.names| && |g.selling| == |g.buying| == |g.names|
    requires Crossed(g.selling, selling, a, b, None) && Crossed(g.buying, buying, a, b, None)
    ensures Represents(g.(pools := g.pools - {(a, b)}, selling := selling, buying := buying),
                       Book(book.live, book.pools - {(p.assetA, p.assetB)}), exempt + {a, b})
  {
    hide *;
    Parts(g, book, exempt);
    var pools := book.pools - {(p.assetA, p.assetB)};
    PoolDropped(g.names, g.ids, g.vacant, book.pools, p, a, b);
    TablesCrossed(g, book, exempt, a, b, None, selling, buying, pools);
    PoolIndexShrunk(g.ids, g.pools, book.pools, (p.assetA, p.assetB), g.names, g.vacant);
    CrossedRows(g.names, g.selling, g.buying, selling, buying, exempt, a, b, None);
    Assemble(g.(pools := g.pools - {(a, b)}, selling := selling, buying := buying), Book(book.live, pools),
      exempt + {a, b});
  }

  lemma PoolIndexShrunk(ids: map<Asset, nat>, index: map<(nat, nat), Pool>, pools: map<(Asset, Asset), Pool>,
                        key: (Asset, Asset),
                        names: seq<Option<Asset>>, vacant: seq<nat>)
    requires PoolIndex(ids, index, pools) && key.0 in ids && key.1 in ids && Ids(names, ids, vacant)
    ensures PoolIndex(ids, index - {(ids[key.0], ids[key.1])}, pools - {key})
  {
    var index', pools' := index - {(ids[key.0], ids[key.1])}, pools - {key};
    forall k | k in pools'
      ensures (ids[k.0], ids[k.1]) in index' && index'[(ids[k.0], ids[k.1])] == pools'[k]
    {
      assert Some(k.0) == names[ids[k.0]] && Some(k.1) == names[ids[k.1]];
      assert Some(key.0) == names[ids[key.0]] && Some(key.1) == names[ids[key.1]];
    }
    forall k | k in index'
      ensures exists a, b :: (a, b) in pools' && ids[a] == k.0 && ids[b] == k.1
    {
      var a, b :| (a, b) in pools && ids[a] == k.0 && ids[b] == k.1;
      assert (a, b) in pools';
    }
  }

  // ---------- copies ----------

  /** A copy of an edge set with the same contents. */
  ghost predicate SameRow(e: EdgeSet, r: EdgeSet) {
    && WellFormed(r) && |r| == |e|
    && (forall k: nat :: OffersAt(r, k) == OffersAt(e, k) && PoolAt(r, k) == PoolAt(e, k))
    && (forall n: nat :: KeysBelow(e, n) ==> KeysBelow(r, n))
  }

  lemma SameRowUpdates(e: EdgeSet, r: EdgeSet, key: nat)
    requires SameRow(e, r)
    ensures Updates(e, r, key, OffersAt(e, key), PoolAt(e, key))
  {
    hide OffersAt, PoolAt, WellFormed, KeysBelow;
  }

  lemma NoChange(names: seq<Option<Asset>>, live: seq<Offer>, s: nat, b: nat)
    requires s < |names| && b < |names|
    ensures ListedChange(names, live, live, s, b, Listed(live, names[s], names[b]))
  {
  }

  lemma SameRowsUsed(names: seq<Option<Asset>>, selling: seq<EdgeSet>, buying: seq<EdgeSet>, exempt: set<nat>,
                     s: nat, b: nat, rowS: EdgeSet, rowB: EdgeSet)
    requires |selling| == |buying| == |names| && s < |names| && b < |names| && Used(names, selling, buying, exempt)
    requires SameRow(selling[s], rowS) && SameRow(buying[b], rowB)
    ensures Used(names, selling[s := rowS], buying[b := rowB], exempt)
  {
    hide OffersAt, PoolAt, WellFormed, KeysBelow;
  }

  lemma CopyStep(g: Graph, book: Book, s: nat, b: nat, rowS: EdgeSet, rowB: EdgeSet)
    requires Represents(g, book, {}) && s < |g.names| && b < |g.names| && |g.selling| == |g.buying| == |g.names|
    requires SameRow(g.selling[s], rowS) && SameRow(g.buying[b], rowB)
    ensures Represents(g.(selling := g.selling[s := rowS], buying := g.buying[b := rowB]), book, {})
  {
    hide *;
    Parts(g, book, {});
    Cell(g, book, {}, s, b);
    var cell := Listed(book.live, g.names[s], g.names[b]);
    SameRowUpdates(g.selling[s], rowS, b);
    SameRowUpdates(g.buying[b], rowB, s);
    NoChange(g.names, book.live, s, b);
    CellRewritten(g, book, {}, s, b, rowS, rowB, cell, book.live);
    SameRowsUsed(g.names, g.selling, g.buying, {}, s, b, rowS, rowB);
    Assemble(g.(selling := g.selling[s := rowS], buying := g.buying[b := rowB]), book, {});
  }
}
