/**
 * Price-sorted offer lists: what an edge of the order book holds, as a function of the offers that are
 * live and the order in which they were inserted.
 */
module OrderLists {
  import opened Common
  import opened OrderBookTypes

  ghost predicate Sorted(s: seq<Offer>) {
    forall i, j :: 0 <= i < j < |s| ==> !Cheaper(s[j].price, s[i].price)
  }

  ghost predicate Priced(s: seq<Offer>) {
    forall i :: 0 <= i < |s| ==> ValidPrice(s[i].price)
  }

  ghost predicate DistinctIds(s: seq<Offer>) {
    forall i, j :: 0 <= i < j < |s| ==> s[i].id != s[j].id
  }

  ghost predicate HasId(s: seq<Offer>, id: int) {
    exists i :: 0 <= i < |s| && s[i].id == id
  }

  /** Insertion after every offer that is at most as expensive. */
  function InsertByPrice(s: seq<Offer>, o: Offer): (r: seq<Offer>)
    ensures |r| == |s| + 1
  {
    if s == [] then [o]
    else if Cheaper(o.price, s[0].price) then [o] + s
    else [s[0]] + InsertByPrice(s[1..], o)
  }

  /** Removal of the first offer with the given id. */
  function RemoveId(s: seq<Offer>, id: int): (r: seq<Offer>)
    ensures |r| <= |s|
  {
    if s == [] then [] else if s[0].id == id then s[1..] else [s[0]] + RemoveId(s[1..], id)
  }

  // ---------- insertion ----------

  lemma {:induction false} InsertAt(s: seq<Offer>, o: Offer, k: nat)
    requires k <= |s|
    requires forall j :: 0 <= j < k ==> !Cheaper(o.price, s[j].price)
    requires forall j :: k <= j < |s| ==> Cheaper(o.price, s[j].price)
    ensures InsertByPrice(s, o) == s[..k] + [o] + s[k..]
  {
    if k > 0 {
      InsertAt(s[1..], o, k - 1);
      assert s[..k] == [s[0]] + s[1..][..k-1];
      assert s[k..] == s[1..][k-1..];
    } else if s != [] {
      assert Cheaper(o.price, s[0].price);
    }
  }

  /** Where a new offer goes in a sorted list. */
  lemma {:induction false} InsertPosition(s: seq<Offer>, o: Offer) returns (k: nat)
    requires Sorted(s) && Priced(s) && ValidPrice(o.price)
    ensures k <= |s|
    ensures forall j :: 0 <= j < k ==> !Cheaper(o.price, s[j].price)
    ensures forall j :: k <= j < |s| ==> Cheaper(o.price, s[j].price)
    ensures InsertByPrice(s, o) == s[..k] + [o] + s[k..]
  {
    k := 0;
    while k < |s| && !Cheaper(o.price, s[k].price)
      invariant k <= |s|
      invariant forall j :: 0 <= j < k ==> !Cheaper(o.price, s[j].price)
    {
      k := k + 1;
    }
    forall j | k <= j < |s|
      ensures Cheaper(o.price, s[j].price)
    {
      if j > k {
        CheaperTransitive(o.price, s[k].price, s[j].price);
      }
    }
    InsertAt(s, o, k);
  }

  lemma InsertKeepsOrder(s: seq<Offer>, o: Offer)
    requires Sorted(s) && Priced(s) && ValidPrice(o.price)
    ensures Sorted(InsertByPrice(s, o)) && Priced(InsertByPrice(s, o))
  {
    hide Cheaper;
    var k := InsertPosition(s, o);
    forall j | k <= j < |s|
      ensures !Cheaper(s[j].price, o.price)
    {
      CheaperAsymmetric(o.price, s[j].price);
    }
  }

  lemma CheaperAsymmetric(p: Price, q: Price)
    requires Cheaper(p, q)
    ensures !Cheaper(q, p)
  {
  }

  lemma {:induction false} InsertMembers(s: seq<Offer>, o: Offer)
    ensures multiset(InsertByPrice(s, o)) == multiset(s) + multiset{o}
  {
    if s == [] {
    } else if Cheaper(o.price, s[0].price) {
    } else {
      InsertMembers(s[1..], o);
      assert s == [s[0]] + s[1..];
    }
  }

  // ---------- removal ----------

  lemma {:induction false} RemoveAbsent(s: seq<Offer>, id: int)
    requires !HasId(s, id)
    ensures RemoveId(s, id) == s
  {
    if s != [] {
      assert s[0].id != id;
      assert forall i :: 0 <= i < |s[1..]| ==> s[1..][i] == s[i+1];
      RemoveAbsent(s[1..], id);
    }
  }

  lemma {:induction false} RemoveAt(s: seq<Offer>, id: int, k: nat)
    requires k < |s| && s[k].id == id && forall j :: 0 <= j < k ==> s[j].id != id
    ensures RemoveId(s, id) == s[..k] + s[k+1..]
  {
    if k > 0 {
      RemoveAt(s[1..], id, k - 1);
      assert s[..k] == [s[0]] + s[1..][..k-1];
      assert s[k+1..] == s[1..][k..];
    }
  }

  /** Removing an offer just inserted gives the list back. */
  lemma {:induction false} RemoveInserted(s: seq<Offer>, o: Offer)
    requires !HasId(s, o.id)
    ensures RemoveId(InsertByPrice(s, o), o.id) == s
  {
    if s != [] && !Cheaper(o.price, s[0].price) {
      assert s[0].id != o.id;
      assert forall i :: 0 <= i < |s[1..]| ==> s[1..][i] == s[i+1];
      RemoveInserted(s[1..], o);
      assert InsertByPrice(s, o)[1..] == InsertByPrice(s[1..], o);
    }
  }

  lemma SortedTail(s: seq<Offer>)
    requires s != [] && Sorted(s) && Priced(s)
    ensures Sorted(s[1..]) && Priced(s[1..])
  {
  }

  /** Removing an offer and inserting another one commute. */
  lemma {:induction false} RemoveInsertCommute(s: seq<Offer>, o: Offer, id: int)
    requires Sorted(s) && Priced(s) && ValidPrice(o.price) && o.id != id
    ensures RemoveId(InsertByPrice(s, o), id) == InsertByPrice(RemoveId(s, id), o)
  {
    if s == [] {
      assert InsertByPrice(s, o) == [o];
      assert [o][1..] == [];
    } else if Cheaper(o.price, s[0].price) {
      assert ([o] + s)[1..] == s;
      assert RemoveId([o] + s, id) == [o] + RemoveId(s, id);
      FrontStaysFront(s, o, id);
    } else {
      SortedTail(s);
      RemoveInsertCommute(s[1..], o, id);
      assert InsertByPrice(s, o)[1..] == InsertByPrice(s[1..], o);
      if s[0].id != id {
        assert ([s[0]] + RemoveId(s[1..], id))[1..] == RemoveId(s[1..], id);
      }
    }
  }

  lemma FrontStaysFront(s: seq<Offer>, o: Offer, id: int)
    requires s != [] && Sorted(s) && Priced(s) && ValidPrice(o.price) && Cheaper(o.price, s[0].price)
    ensures InsertByPrice(RemoveId(s, id), o) == [o] + RemoveId(s, id)
  {
    var rest := RemoveId(s, id);
    if rest != [] && s[0].id == id {
      CheaperTransitive(o.price, s[0].price, s[1].price);
    }
  }

  // ---------- the list of one trading pair ----------

  ghost predicate Trades(o: Offer, selling: Option<Asset>, buying: Option<Asset>) {
    Some(o.selling) == selling && Some(o.buying) == buying
  }

  /** The live offers of a pair, by price and, at equal price, in the order in which they became live. */
  ghost function Listed(live: seq<Offer>, selling: Option<Asset>, buying: Option<Asset>): seq<Offer> {
    if live == [] then [] else
    var rest := Listed(live[..|live|-1], selling, buying);
    var o := live[|live|-1];
    if Trades(o, selling, buying) then InsertByPrice(rest, o) else rest
  }

  /** The live offers without the one carrying `id`. */
  ghost function Without(live: seq<Offer>, id: int): seq<Offer> {
    if live == [] then [] else
    var rest := Without(live[..|live|-1], id);
    if live[|live|-1].id == id then rest else rest + [live[|live|-1]]
  }

  ghost predicate ValidLive(live: seq<Offer>) {
    DistinctIds(live) && forall i :: 0 <= i < |live| ==> ValidOffer(live[i])
  }

  /** Each listed offer is a live offer of the pair. */
  lemma {:induction false} ListedMembers(live: seq<Offer>, selling: Option<Asset>, buying: Option<Asset>, o: Offer)
    ensures o in Listed(live, selling, buying) <==> o in live && Trades(o, selling, buying)
  {
    if live != [] {
      var pre, last := live[..|live|-1], live[|live|-1];
      assert live == pre + [last];
      ListedMembers(pre, selling, buying, o);
      InsertMembers(Listed(pre, selling, buying), last);
      assert o in InsertByPrice(Listed(pre, selling, buying), last)
        <==> o in multiset(InsertByPrice(Listed(pre, selling, buying), last));
    }
  }

  lemma {:induction false} ListedSorted(live: seq<Offer>, selling: Option<Asset>, buying: Option<Asset>)
    requires ValidLive(live)
    ensures Sorted(Listed(live, selling, buying)) && Priced(Listed(live, selling, buying))
  {
    if live != [] {
      var pre := live[..|live|-1];
      ListedSorted(pre, selling, buying);
      InsertKeepsOrder(Listed(pre, selling, buying), live[|live|-1]);
    }
  }

  lemma ListedIds(live: seq<Offer>, selling: Option<Asset>, buying: Option<Asset>, id: int)
    ensures HasId(Listed(live, selling, buying), id) ==> HasId(live, id)
  {
    var l := Listed(live, selling, buying);
    if i :| 0 <= i < |l| && l[i].id == id {
      ListedMembers(live, selling, buying, l[i]);
      var j :| 0 <= j < |live| && live[j] == l[i];
    }
  }

  lemma {:induction false} WithoutAbsent(live: seq<Offer>, id: int)
    requires !HasId(live, id)
    ensures Without(live, id) == live
  {
    if live != [] {
      assert live[|live|-1].id != id;
      assert forall i :: 0 <= i < |live|-1 ==> live[..|live|-1][i] == live[i];
      WithoutAbsent(live[..|live|-1], id);
      assert live == live[..|live|-1] + [live[|live|-1]];
    }
  }

  lemma {:induction false} WithoutMembers(live: seq<Offer>, id: int, o: Offer)
    ensures o in Without(live, id) <==> o in live && o.id != id
  {
    if live != [] {
      assert live == live[..|live|-1] + [live[|live|-1]];
      WithoutMembers(live[..|live|-1], id, o);
    }
  }

  lemma {:induction false} WithoutValid(live: seq<Offer>, id: int)
    requires ValidLive(live)
    ensures ValidLive(Without(live, id)) && !HasId(Without(live, id), id)
  {
    if live != [] {
      var pre, last := live[..|live|-1], live[|live|-1];
      WithoutValid(pre, id);
      var rest := Without(pre, id);
      forall i | 0 <= i < |rest|
        ensures rest[i].id != last.id
      {
        WithoutMembers(pre, id, rest[i]);
        var j :| 0 <= j < |pre| && pre[j] == rest[i];
      }
    }
  }

  lemma ExtendValid(live: seq<Offer>, o: Offer)
    requires ValidLive(live) && ValidOffer(o) && !HasId(live, o.id)
    ensures ValidLive(live + [o])
  {
  }

  /** Deleting an offer from the live offers deletes it from its list. */
  lemma {:induction false} ListedWithout(live: seq<Offer>, selling: Option<Asset>, buying: Option<Asset>, id: int)
    requires ValidLive(live)
    ensures Listed(Without(live, id), selling, buying) == RemoveId(Listed(live, selling, buying), id)
  {
    if live != [] {
      var pre, last := live[..|live|-1], live[|live|-1];
      var rest := Listed(pre, selling, buying);
      ListedWithout(pre, selling, buying, id);
      ListedSorted(pre, selling, buying);
      if last.id == id {
        assert !HasId(pre, id);
        WithoutAbsent(pre, id);
        ListedIds(pre, selling, buying, id);
        RemoveAbsent(rest, id);
        RemoveInserted(rest, last);
      } else {
        RemoveInsertCommute(rest, last, id);
        ListedExtended(Without(pre, id), last, selling, buying);
      }
    }
  }

  lemma ListedExtended(live: seq<Offer>, o: Offer, selling: Option<Asset>, buying: Option<Asset>)
    ensures Listed(live + [o], selling, buying) ==
            if Trades(o, selling, buying) then InsertByPrice(Listed(live, selling, buying), o)
            else Listed(live, selling, buying)
  {
    assert (live + [o])[..|live|] == live;
  }

  /** An offer that does not trade on a pair leaves the pair's list alone when it goes. */
  lemma ListedUnaffected(live: seq<Offer>, selling: Option<Asset>, buying: Option<Asset>, o: Offer)
    requires ValidLive(live) && o in live && !Trades(o, selling, buying)
    ensures Listed(Without(live, o.id), selling, buying) == Listed(live, selling, buying)
  {
    ListedWithout(live, selling, buying, o.id);
    var l := Listed(live, selling, buying);
    if HasId(l, o.id) {
      var i :| 0 <= i < |l| && l[i].id == o.id;
      ListedMembers(live, selling, buying, l[i]);
      SameIdSameOffer(live, l[i], o);
    } else {
      RemoveAbsent(l, o.id);
    }
  }

  lemma SameIdSameOffer(live: seq<Offer>, o: Offer, p: Offer)
    requires DistinctIds(live) && o in live && p in live && o.id == p.id
    ensures o == p
  {
    var i :| 0 <= i < |live| && live[i] == o;
    var j :| 0 <= j < |live| && live[j] == p;
  }

  /** A list is empty exactly when no live offer trades on the pair. */
  lemma ListedEmpty(live: seq<Offer>, selling: Option<Asset>, buying: Option<Asset>)
    requires forall i :: 0 <= i < |live| ==> !Trades(live[i], selling, buying)
    ensures Listed(live, selling, buying) == []
  {
    var l := Listed(live, selling, buying);
    if l != [] {
      ListedMembers(live, selling, buying, l[0]);
    }
  }

  /** Position of an offer in the order of becoming live. */
  ghost predicate LiveAt(live: seq<Offer>, o: Offer, i: nat) {
    i < |live| && live[i] == o
  }

  ghost predicate LiveBefore(live: seq<Offer>, o: Offer, o': Offer) {
    exists p: nat, q: nat :: LiveAt(live, o, p) && LiveAt(live, o', q) && p < q
  }

  /** Price-time priority: cheaper, or equally cheap and live for longer. */
  ghost predicate Priority(live: seq<Offer>, o: Offer, o': Offer) {
    Cheaper(o.price, o'.price) || (!Cheaper(o'.price, o.price) && LiveBefore(live, o, o'))
  }

  lemma {:induction false} PriceTimePriority(live: seq<Offer>, selling: Option<Asset>, buying: Option<Asset>, i: nat,
                                             j: nat)
    requires ValidLive(live) && i < j < |Listed(live, selling, buying)|
    ensures var l := Listed(live, selling, buying); Priority(live, l[i], l[j])
  {
    hide Cheaper, LiveBefore, LiveAt, InsertByPrice;
    var pre, last := live[..|live|-1], live[|live|-1];
    var rest := Listed(pre, selling, buying);
    if !Trades(last, selling, buying) {
      PriceTimePriority(pre, selling, buying, i, j);
      LiftPriority(live, rest[i], rest[j]);
    } else {
      ListedSorted(pre, selling, buying);
      var k := InsertPosition(rest, last);
      assert |rest| + 1 == |Listed(live, selling, buying)|;
      if i < k && j == k {
        ListedMembers(pre, selling, buying, rest[i]);
        NewestIsLast(live, rest[i]);
        CheaperTotal(live, rest[i], last);
      } else if i != k {
        var i', j' := if i < k then i else i - 1, if j < k then j else j - 1;
        PriceTimePriority(pre, selling, buying, i', j');
        LiftPriority(live, rest[i'], rest[j']);
      }
    }
  }

  lemma CheaperTotal(live: seq<Offer>, o: Offer, o': Offer)
    requires !Cheaper(o'.price, o.price) && LiveBefore(live, o, o')
    ensures Priority(live, o, o')
  {
  }

  lemma NewestIsLast(live: seq<Offer>, o: Offer)
    requires live != [] && o in live[..|live|-1]
    ensures LiveBefore(live, o, live[|live|-1])
  {
    var p :| 0 <= p < |live|-1 && live[p] == o;
    assert LiveAt(live, o, p) && LiveAt(live, live[|live|-1], |live|-1);
  }

  lemma LiftPriority(live: seq<Offer>, o: Offer, o': Offer)
    requires live != [] && Priority(live[..|live|-1], o, o')
    ensures Priority(live, o, o')
  {
    var pre := live[..|live|-1];
    if LiveBefore(pre, o, o') {
      var p: nat, q: nat :| LiveAt(pre, o, p) && LiveAt(pre, o', q) && p < q;
      assert LiveAt(live, o, p) && LiveAt(live, o', q);
    }
  }

  // ---------- offers as a map ----------

  /** Offers by id. */
  ghost function OfferMap(live: seq<Offer>): map<int, Offer> {
    if live == [] then map[] else OfferMap(live[..|live|-1])[live[|live|-1].id := live[|live|-1]]
  }

  lemma {:induction false} OfferMapKeys(live: seq<Offer>, id: int)
    ensures id in OfferMap(live) <==> HasId(live, id)
    decreases |live|
  {
    if live != [] {
      var before := live[..|live|-1];
      OfferMapKeys(before, id);
      assert forall i :: 0 <= i < |before| ==> before[i] == live[i];
    }
  }

  lemma {:induction false} OfferMapWithout(live: seq<Offer>, id: int)
    requires DistinctIds(live)
    ensures OfferMap(Without(live, id)) == OfferMap(live) - {id}
    decreases |live|
  {
    if live != [] {
      var before, last := live[..|live|-1], live[|live|-1];
      OfferMapWithout(before, id);
      var rest := Without(before, id);
      if last.id != id {
        OfferMapAppend(rest, last);
      } else {
        OfferMapKeys(before, id);
        LastIdNew(live);
      }
    }
  }

  lemma OfferMapAppend(live: seq<Offer>, o: Offer)
    ensures OfferMap(live + [o]) == OfferMap(live)[o.id := o]
  {
    assert (live + [o])[..|live|] == live;
  }

  lemma LastIdNew(live: seq<Offer>)
    requires DistinctIds(live) && live != []
    ensures !HasId(live[..|live|-1], live[|live|-1].id)
  {
  }

  lemma {:induction false} OfferMapMembers(live: seq<Offer>, o: Offer)
    requires DistinctIds(live)
    ensures o in live <==> o.id in OfferMap(live) && OfferMap(live)[o.id] == o
    decreases |live|
  {
    if live != [] {
      var before, last := live[..|live|-1], live[|live|-1];
      assert live == before + [last];
      OfferMapMembers(before, o);
    }
  }
}
