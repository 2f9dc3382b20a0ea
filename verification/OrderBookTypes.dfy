/** Assets, offers, liquidity pools and trading venues (xdr and exp/orderbook). */
module OrderBookTypes {
  import opened Common
  import opened Arithmetic

  /** An asset, identified by its type, code and issuer (the parts its string form is built from). */
  datatype Asset = Asset(kind: nat, code: string, issuer: string)

  predicate StringLess(a: string, b: string) {
    |b| > 0 && (|a| == 0 || a[0] < b[0] || (a[0] == b[0] && StringLess(a[1..], b[1..])))
  }

  /** The order that fixes which asset of a pool is asset A. */
  predicate AssetLess(a: Asset, b: Asset) {
    if a.kind != b.kind then a.kind < b.kind
    else if a.code != b.code then StringLess(a.code, b.code)
    else StringLess(a.issuer, b.issuer)
  }

  lemma {:induction false} StringLessAsymmetric(a: string, b: string)
    requires StringLess(a, b)
    ensures !StringLess(b, a)
  {
    if |a| > 0 && a[0] == b[0] {
      StringLessAsymmetric(a[1..], b[1..]);
    }
  }

  lemma AssetLessAsymmetric(a: Asset, b: Asset)
    requires AssetLess(a, b)
    ensures !AssetLess(b, a) && a != b
  {
    if a.kind == b.kind {
      if a.code != b.code {
        StringLessAsymmetric(a.code, b.code);
      } else {
        StringLessAsymmetric(a.issuer, b.issuer);
      }
    }
  }

  datatype Price = Price(n: int, d: int)

  predicate ValidPrice(p: Price) {
    0 < p.n <= MAX_INT32 && 0 < p.d <= MAX_INT32
  }

  /** Strictly lower price; the products of positive 32-bit parts do not wrap in 64 bits. */
  predicate Cheaper(p: Price, q: Price) {
    p.n * q.d < q.n * p.d
  }

  lemma CheaperTransitive(p: Price, q: Price, r: Price)
    requires ValidPrice(p) && ValidPrice(q) && ValidPrice(r)
    ensures Cheaper(p, q) && !Cheaper(r, q) ==> Cheaper(p, r)
    ensures !Cheaper(q, p) && !Cheaper(r, q) ==> !Cheaper(r, p)
  {
    if p.n * q.d <= q.n * p.d && q.n * r.d <= r.n * q.d {
      MulMonotone(p.n * q.d, q.n * p.d, r.d);
      MulMonotone(q.n * r.d, r.n * q.d, p.d);
      assert (q.n * p.d) * r.d == (q.n * r.d) * p.d;
      assert (p.n * q.d) * r.d == (p.n * r.d) * q.d;
      assert (r.n * q.d) * p.d == (r.n * p.d) * q.d;
      if Cheaper(p, q) {
        MulOrder(p.n * q.d * r.d, q.n * p.d * r.d, 1) by {
          StrictMul(p.n * q.d, q.n * p.d, r.d);
        }
        MulOrder(p.n * r.d, r.n * p.d, q.d);
      } else if Cheaper(r, p) {
        StrictMul(r.n * p.d, p.n * r.d, q.d);
      }
    }
  }

  lemma StrictMul(a: int, b: int, c: int)
    requires a < b && c > 0
    ensures a * c < b * c
  {
  }

  datatype Offer = Offer(id: int, seller: string, selling: Asset, buying: Asset, amount: int, price: Price)

  /** What the ledger guarantees of an offer. */
  predicate ValidOffer(o: Offer) {
    0 < o.amount <= MAX_INT64 && ValidPrice(o.price) && o.selling != o.buying
  }

  datatype Pool = Pool(id: int, assetA: Asset, assetB: Asset, reserveA: int, reserveB: int, fee: int)

  /** What the ledger guarantees of a constant-product pool. */
  predicate ValidPool(p: Pool) {
    && AssetLess(p.assetA, p.assetB)
    && 0 < p.reserveA <= MAX_INT64 && 0 < p.reserveB <= MAX_INT64
    && 0 <= p.fee < 10000
  }

  /** A pool together with the graph ids of its two assets. */
  datatype PoolVenue = PoolVenue(entry: Pool, a: nat, b: nat)

  /** The trading opportunities from one asset towards the asset `key`. */
  datatype Edge = Edge(key: nat, offers: seq<Offer>, pool: Option<PoolVenue>, reallocate: bool)

  type EdgeSet = seq<Edge>
}
