/** Edge sets: per neighbouring asset a sorted list of offers and at most one pool (exp/orderbook/edges.go). */
module EdgeSets {
  import opened Common
  import opened OrderBookTypes
  import opened OrderLists

  /** Index of the edge towards `key`, or -1. */
  function Find(e: EdgeSet, key: nat): (r: int)
    ensures -1 <= r < |e|
    ensures r >= 0 ==> e[r].key == key
    ensures r < 0 ==> forall j :: 0 <= j < |e| ==> e[j].key != key
  {
    if e == [] then -1
    else if e[|e|-1].key == key then |e|-1
    else Find(e[..|e|-1], key)
  }

  ghost function OffersAt(e: EdgeSet, key: nat): seq<Offer> {
    var i := Find(e, key); if i < 0 then [] else e[i].offers
  }

  ghost function PoolAt(e: EdgeSet, key: nat): Option<PoolVenue> {
    var i := Find(e, key); if i < 0 then None else e[i].pool
  }

  /** Keys are distinct and no edge is empty. */
  ghost predicate WellFormed(e: EdgeSet) {
    && (forall i, j :: 0 <= i < j < |e| ==> e[i].key != e[j].key)
    && (forall i :: 0 <= i < |e| ==> e[i].offers != [] || e[i].pool != None)
  }

  ghost predicate KeysBelow(e: EdgeSet, n: nat) {
    forall i :: 0 <= i < |e| ==> e[i].key < n
  }

  lemma FoundAt(e: EdgeSet, i: nat)
    requires WellFormed(e) && i < |e|
    ensures Find(e, e[i].key) == i
  {
  }

  /** The new set r agrees with e except towards `key`, where it holds the given offers and pool. */
  ghost predicate Updates(e: EdgeSet, r: EdgeSet, key: nat, offers: seq<Offer>, pool: Option<PoolVenue>) {
    && WellFormed(r)
    && (forall k: nat :: OffersAt(r, k) == if k == key then offers else OffersAt(e, k))
    && (forall k: nat :: PoolAt(r, k) == if k == key then pool else PoolAt(e, k))
    && (forall n: nat :: key < n && KeysBelow(e, n) ==> KeysBelow(r, n))
  }

  lemma Appended(e: EdgeSet, edge: Edge)
    requires WellFormed(e) && Find(e, edge.key) < 0
    requires edge.offers != [] || edge.pool != None
    ensures Updates(e, e + [edge], edge.key, edge.offers, edge.pool)
  {
    var r := e + [edge];
    assert WellFormed(r);
    forall k: nat
      ensures Find(r, k) == if k == edge.key then |e| else Find(e, k)
    {
      assert r[..|r|-1] == e;
    }
  }

  lemma SameKeysSameFind(e: EdgeSet, r: EdgeSet, k: nat)
    requires WellFormed(e) && WellFormed(r) && |e| == |r|
    requires forall i :: 0 <= i < |e| ==> e[i].key == r[i].key
    ensures Find(e, k) == Find(r, k)
  {
    if Find(e, k) >= 0 {
      FoundAt(r, Find(e, k));
    }
  }

  lemma Replaced(e: EdgeSet, i: nat, edge: Edge)
    requires WellFormed(e) && i < |e| && edge.key == e[i].key
    requires edge.offers != [] || edge.pool != None
    ensures Updates(e, e[i := edge], edge.key, edge.offers, edge.pool)
  {
    var r := e[i := edge];
    assert WellFormed(r);
    FoundAt(e, i);
    forall k: nat
      ensures Find(r, k) == Find(e, k)
    {
      SameKeysSameFind(e, r, k);
    }
    assert forall k: nat :: Find(e, k) == i <==> k == edge.key;
  }

  lemma Deleted(e: EdgeSet, i: nat)
    requires WellFormed(e) && i < |e|
    ensures Updates(e, e[..i] + e[i+1..], e[i].key, [], None)
  {
    var r := e[..i] + e[i+1..];
    var key := e[i].key;
    assert forall j :: 0 <= j < |r| ==> r[j] == if j < i then e[j] else e[j+1];
    assert WellFormed(r);
    FoundAt(e, i);
    forall k: nat
      ensures OffersAt(r, k) == if k == key then [] else OffersAt(e, k)
      ensures PoolAt(r, k) == if k == key then None else PoolAt(e, k)
    {
      DeletedLookup(e, i, r, k);
    }
  }

  lemma DeletedLookup(e: EdgeSet, i: nat, r: EdgeSet, k: nat)
    requires WellFormed(e) && i < |e| && WellFormed(r) && r == e[..i] + e[i+1..]
    ensures OffersAt(r, k) == if k == e[i].key then [] else OffersAt(e, k)
    ensures PoolAt(r, k) == if k == e[i].key then None else PoolAt(e, k)
  {
    FoundAt(e, i);
    var m := Find(e, k);
    if m >= 0 && m != i {
      var j := if m < i then m else m - 1;
      assert r[j] == e[m];
      FoundAt(r, j);
      assert Find(r, k) == j;
    } else {
      assert forall j :: 0 <= j < |r| ==> r[j].key != k;
    }
  }

  /** Linear search for an edge. */
  method FindEdge(e: EdgeSet, key: nat) returns (r: int)
    requires WellFormed(e)
    ensures r == Find(e, key)
  {
    for i := 0 to |e|
      invariant forall j :: 0 <= j < i ==> e[j].key != key
    {
      if e[i].key == key {
        FoundAt(e, i);
        return i;
      }
    }
    return -1;
  }

  /** Binary search for the first offer that is more expensive than `offer`. */
  method SearchInsertIndex(offers: seq<Offer>, offer: Offer) returns (k: nat)
    requires Sorted(offers) && Priced(offers) && ValidPrice(offer.price)
    ensures k <= |offers| && offers[..k] + [offer] + offers[k..] == InsertByPrice(offers, offer)
  {
    hide Cheaper;
    var lo, hi := 0, |offers|;
    while lo < hi
      invariant 0 <= lo <= hi <= |offers|
      invariant forall j :: 0 <= j < lo ==> !Cheaper(offer.price, offers[j].price)
      invariant forall j :: hi <= j < |offers| ==> Cheaper(offer.price, offers[j].price)
    {
      var mid := (lo + hi) / 2;
      if !MoreExpensive(offers, offer, mid) {
        forall j | 0 <= j < mid
          ensures !Cheaper(offer.price, offers[j].price)
        {
          CheaperTransitive(offers[j].price, offers[mid].price, offer.price);
        }
        lo := mid + 1;
      } else {
        forall j | mid < j < |offers|
          ensures Cheaper(offer.price, offers[j].price)
        {
          CheaperTransitive(offer.price, offers[mid].price, offers[j].price);
        }
        hi := mid;
      }
    }
    InsertAt(offers, offer, lo);
    k := lo;
  }

  predicate MoreExpensive(offers: seq<Offer>, offer: Offer, j: nat)
    requires j < |offers|
  {
    Cheaper(offer.price, offers[j].price)
  }

  method AddOffer(e: EdgeSet, key: nat, offer: Offer) returns (r: EdgeSet)
    requires WellFormed(e) && Sorted(OffersAt(e, key)) && Priced(OffersAt(e, key)) && ValidPrice(offer.price)
    ensures Updates(e, r, key, InsertByPrice(OffersAt(e, key), offer), PoolAt(e, key))
  {
    var i := FindEdge(e, key);
    if i < 0 {
      var edge := Edge(key, [offer], None, false);
      Appended(e, edge);
      return e + [edge];
    }
    var offers := e[i].offers;
    var insertIndex := SearchInsertIndex(offers, offer);
    var edge := e[i].(offers := offers[..insertIndex] + [offer] + offers[insertIndex..]);
    Replaced(e, i, edge);
    r := e[i := edge];
  }

  method AddPool(e: EdgeSet, key: nat, pool: PoolVenue) returns (r: EdgeSet)
    requires WellFormed(e)
    ensures Updates(e, r, key, OffersAt(e, key), Some(pool))
  {
    var i := FindEdge(e, key);
    if i < 0 {
      var edge := Edge(key, [], Some(pool), false);
      Appended(e, edge);
      return e + [edge];
    }
    var edge := e[i].(pool := Some(pool));
    Replaced(e, i, edge);
    r := e[i := edge];
  }

  /** Removes an offer by id and reports whether it was there. */
  method RemoveOffer(e: EdgeSet, key: nat, id: int) returns (r: EdgeSet, found: bool)
    requires WellFormed(e)
    ensures found <==> HasId(OffersAt(e, key), id)
    ensures found ==> Updates(e, r, key, RemoveId(OffersAt(e, key), id), PoolAt(e, key))
    ensures !found ==> r == e
    // A list that shrank is marked for a fresh copy.
    ensures found ==> forall j :: 0 <= j < |r| && r[j].key == key ==> r[j].reallocate
  {
    var i := FindEdge(e, key);
    if i < 0 {
      return e, false;
    }
    var offers := e[i].offers;
    var updated := offers;
    var contains := false;
    for j := 0 to |offers|
      invariant !contains && updated == offers
      invariant forall m :: 0 <= m < j ==> offers[m].id != id
    {
      if offers[j].id != id {
        continue;
      }
      RemoveAt(offers, id, j);
      updated := offers[..j] + offers[j+1..];
      contains := true;
      break;
    }
    if !contains {
      return e, false;
    }
    if |updated| == 0 && e[i].pool == None {
      Deleted(e, i);
      return e[..i] + e[i+1..], true;
    }
    var edge := e[i].(offers := updated, reallocate := true);
    Replaced(e, i, edge);
    return e[i := edge], true;
  }

  method RemovePool(e: EdgeSet, key: nat) returns (r: EdgeSet)
    requires WellFormed(e)
    ensures Updates(e, r, key, OffersAt(e, key), None)
  {
    var i := FindEdge(e, key);
    if i < 0 {
      return e;
    }
    if |e[i].offers| == 0 {
      Deleted(e, i);
      return e[..i] + e[i+1..];
    }
    var edge := e[i].(pool := None);
    Replaced(e, i, edge);
    r := e[i := edge];
  }

  /** Fresh copies of the lists that shrank: the flags are reset and nothing else is visible. */
  method Reallocate(e: EdgeSet) returns (r: EdgeSet)
    requires WellFormed(e)
    ensures WellFormed(r) && |r| == |e|
    ensures forall i :: 0 <= i < |e| ==> r[i] == e[i].(reallocate := false)
    ensures forall k: nat :: OffersAt(r, k) == OffersAt(e, k) && PoolAt(r, k) == PoolAt(e, k)
    ensures forall n: nat :: KeysBelow(e, n) ==> KeysBelow(r, n)
  {
    r := e;
    for i := 0 to |e|
      invariant |r| == |e|
      invariant forall j :: 0 <= j < i ==> r[j] == e[j].(reallocate := false)
      invariant forall j :: i <= j < |e| ==> r[j] == e[j]
    {
      if r[i].reallocate {
        r := r[i := r[i].(offers := r[i].offers[..], reallocate := false)];
      }
    }
    assert WellFormed(r);
    forall k: nat
      ensures OffersAt(r, k) == OffersAt(e, k) && PoolAt(r, k) == PoolAt(e, k)
    {
      SameKeysSameFind(e, r, k);
    }
  }
}
