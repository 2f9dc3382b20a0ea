/** The bounded path search over a table of venues (exp/orderbook/search.go). */
module PathSearch {
  import opened Common
  import opened OrderBookTypes
  import opened EdgeSets
  import opened Venues

  // ---------- what is searched ----------

  /** One search: a table of venues, the asset and amount to start from, and the number of rounds. */
  datatype Problem = Problem(mode: SearchMode, venues: seq<EdgeSet>, source: nat, amount: int, maxPathLength: nat)

  ghost predicate ValidProblem(p: Problem) {
    && p.source < |p.venues| && 0 <= p.amount <= MAX_INT64
    && forall i :: 0 <= i < |p.venues| ==> ValidRow(p.venues[i], |p.venues|)
  }

  ghost predicate ValidRow(e: EdgeSet, n: nat) {
    WellFormed(e) && KeysBelow(e, n) && forall j :: 0 <= j < |e| ==> ValidVenues(e[j])
  }

  /** What one hop yields; 0 when there is no venue between the two assets. */
  ghost function Hop(p: Problem, from: nat, amount: int, to: nat): int
    requires ValidProblem(p) && from < |p.venues| && 0 < amount <= MAX_INT64
  {
    var j := Find(p.venues[from], to);
    if j < 0 then 0 else EdgeYield(p, from, amount, p.venues[from][j])
  }

  ghost function EdgeYield(p: Problem, from: nat, amount: int, e: Edge): (r: int)
    requires ValidVenues(e) && 0 < amount <= MAX_INT64
    ensures r <= MAX_INT64
  {
    VenuesNeverFail(p.mode, from, amount, e);
    VenueOutcome(p.mode, from, amount, e).value
  }

  /** The amount that arrives at the end of a path when every hop passes on what the previous one yields. */
  ghost function Flow(p: Problem, path: seq<nat>): (r: int)
    requires ValidProblem(p) && forall i :: 0 <= i < |path| ==> path[i] < |p.venues|
    ensures r <= MAX_INT64
  {
    if |path| <= 1 then p.amount else
    var a := Flow(p, path[..|path|-1]);
    if a <= 0 then 0 else
    var v := Hop(p, path[|path|-2], a, path[|path|-1]);
    if v <= MAX_INT64 then v else 0
  }

  ghost predicate InTable(p: Problem, path: seq<nat>) {
    forall i :: 0 <= i < |path| ==> path[i] < |p.venues|
  }

  /** A path from the source over existing venues that repeats no asset and carries something to its end. */
  ghost predicate GoodPath(p: Problem, path: seq<nat>)
    requires ValidProblem(p)
  {
    && |path| >= 1 && path[0] == p.source && InTable(p, path) && Distinct(path)
    && (forall i :: 0 <= i < |path| - 1 ==> Find(p.venues[path[i]], path[i+1]) >= 0)
    && (|path| > 1 ==> Flow(p, path) > 0)
  }

  predicate Include(mode: SearchMode, asset: nat, amount: int) {
    match mode
    case SellingGraph(_, sources, validate, _) => asset in sources && (!validate || sources[asset] >= amount)
    case BuyingGraph(destinations, _) => asset in destinations
  }

  predicate IsTerminal(mode: SearchMode, asset: nat) {
    match mode
    case SellingGraph(_, sources, _, _) => asset in sources
    case BuyingGraph(destinations, _) => asset in destinations
  }

  /** A path as it was found, starting at the search's source. */
  datatype Report = Report(path: seq<nat>, amount: int)

  ghost predicate Sound(p: Problem, r: Report)
    requires ValidProblem(p)
  {
    && GoodPath(p, r.path) && |r.path| <= p.maxPathLength + 1
    && r.amount == Flow(p, r.path)
    && Include(p.mode, r.path[|r.path|-1], r.amount)
  }

  // ---------- path nodes ----------

  function Reversed<T>(s: seq<T>): (r: seq<T>)
    ensures |r| == |s| && forall i :: 0 <= i < |s| ==> r[i] == s[|s|-1-i]
  {
    seq(|s|, i requires 0 <= i < |s| => s[|s|-1-i])
  }

  lemma ReversedAppend(s: seq<nat>, x: nat)
    ensures Reversed(s + [x]) == [x] + Reversed(s)
  {
  }

  method ReversePath(path: seq<nat>) returns (r: seq<nat>)
    ensures r == Reversed(path)
  {
    r := path;
    var n := |path|;
    var i := n / 2 - 1;
    while i >= 0
      invariant -1 <= i <= n / 2 - 1 && |r| == n
      invariant forall k :: i < k < n - 1 - i ==> r[k] == path[n - 1 - k]
      invariant forall k :: 0 <= k <= i ==> r[k] == path[k]
      invariant forall k :: n - 1 - i <= k < n ==> r[k] == path[k]
    {
      var opp := n - 1 - i;
      var near, far := r[i], r[opp];
      r := r[i := far];
      r := r[opp := near];
      i := i - 1;
    }
  }

  /** A node of the shared tree of paths; `trail` is the chain of assets that the links spell. */
  class PathNode {
    const asset: nat
    var prev: PathNode?
    ghost var trail: seq<nat>

    constructor (asset: nat, prev: PathNode?)
      ensures this.asset == asset && this.prev == prev
      ensures trail == (if prev == null then [] else prev.trail) + [asset]
    {
      this.asset := asset;
      this.prev := prev;
      this.trail := (if prev == null then [] else prev.trail) + [asset];
    }

    method Contains(node: nat, ghost nodes: set<PathNode>) returns (r: bool)
      requires this in nodes && Chained(nodes)
      ensures r <==> node in trail
    {
      var cur: PathNode? := this;
      while cur != null
        invariant cur != null ==> cur in nodes
        invariant node in trail <==> cur != null && node in cur.trail
        decreases if cur == null then 0 else |cur.trail|
      {
        if cur.asset == node {
          return true;
        }
        cur := cur.prev;
      }
      return false;
    }

    method Path(ghost nodes: set<PathNode>) returns (path: seq<nat>)
      requires this in nodes && Chained(nodes)
      ensures path == trail
    {
      hide Reversed;
      var result: seq<nat> := [];
      var cur: PathNode? := this;
      while cur != null
        invariant cur != null ==> cur in nodes
        invariant trail == (if cur == null then [] else cur.trail) + Reversed(result)
        decreases if cur == null then 0 else |cur.trail|
      {
        ReversedAppend(result, cur.asset);
        result := result + [cur.asset];
        cur := cur.prev;
      }
      path := ReversePath(result);
    }
  }

  /** Every node's trail extends that of its predecessor, which is in the set too. */
  ghost predicate Chained(nodes: set<PathNode>)
    reads nodes
  {
    forall n :: n in nodes ==>
      if n.prev == null then n.trail == [n.asset]
      else n.prev in nodes && n.trail == n.prev.trail + [n.asset]
  }

  // ---------- payment paths ----------

  /** A result in the order of the payment, from the asset spent to the asset received. */
  datatype PaymentPath = PaymentPath(source: nat, sourceAmount: int, destination: nat, destinationAmount: int,
    interior: seq<nat>)

  function Route(pp: PaymentPath): seq<nat> {
    if pp.source == pp.destination then [pp.source] else [pp.source] + pp.interior + [pp.destination]
  }

  /** The payment that a found path stands for: a search over selling venues runs from the destination. */
  ghost predicate Pays(p: Problem, pp: PaymentPath, r: Report) {
    && (p.mode.SellingGraph? ==>
      Route(pp) == Reversed(r.path) && pp.sourceAmount == r.amount && pp.destinationAmount == p.amount)
    && (p.mode.BuyingGraph? ==> Route(pp) == r.path && pp.destinationAmount == r.amount && pp.sourceAmount == p.amount)
  }

  method ToPayment(p: Problem, path: seq<nat>, currentAsset: nat, amount: int) returns (pp: PaymentPath)
    requires |path| >= 1 && Distinct(path) && path[0] == p.source && path[|path|-1] == currentAsset
    ensures Pays(p, pp, Report(path, amount))
  {
    var interior: seq<nat> := [];
    if |path| > 2 {
      interior := path[1..|path|-1];
      if p.mode.SellingGraph? {
        interior := ReversePath(interior);
      }
    }
    if p.mode.SellingGraph? {
      pp := PaymentPath(currentAsset, amount, p.source, p.amount, interior);
    } else {
      pp := PaymentPath(p.source, p.amount, currentAsset, amount, interior);
    }
    assert Route(pp) == if p.mode.SellingGraph? then Reversed(path) else path;
  }

  // ---------- extending paths ----------

  /** A good path extended over an edge to an asset not yet on it, when the edge yields something. */
  lemma ExtendPath(p: Problem, path: seq<nat>, j: nat, amount: int)
    requires ValidProblem(p) && GoodPath(p, path) && 0 < amount <= MAX_INT64 && amount == Flow(p, path)
    requires var last := path[|path|-1]; j < |p.venues[last]|
    requires var last := path[|path|-1];
             var e := p.venues[last][j];
             ValidVenues(e) && e.key !in path && EdgeYield(p, last, amount, e) > 0
    ensures var last := path[|path|-1];
            var e := p.venues[last][j];
            GoodPath(p, path + [e.key]) && Flow(p, path + [e.key]) == EdgeYield(p, last, amount, e)
  {
    hide EdgeYield, VenueOutcome;
    var last := path[|path|-1];
    var e := p.venues[last][j];
    assert ValidRow(p.venues[last], |p.venues|);
    FoundAt(p.venues[last], j);
    var path' := path + [e.key];
    assert path'[..|path'|-1] == path;
    assert Flow(p, path') == EdgeYield(p, last, amount, e);
  }

  /** Being at least as good is kept when the current amount improves. */
  lemma StillRelaxed(mode: SearchMode, before: int, now: int, v: int)
    requires v > 0 && now >= 0 && before >= 0 && (now == before || (Better(mode, before, now) && now > 0))
      && !Better(mode, before, v)
    ensures !Better(mode, now, v)
  {
  }

  lemma BetterTransitive(mode: SearchMode, a: int, b: int, c: int)
    requires (a == b || Better(mode, a, b)) && Better(mode, b, c)
    ensures Better(mode, a, c)
  {
  }

  /** The asset that a found path ends at. */
  ghost function Last(r: Report): nat {
    if r.path == [] then 0 else r.path[|r.path|-1]
  }

  /** Every result is sound, pays as reported, and improves on earlier results for the same asset. */
  ghost predicate InOrder(p: Problem, paths: seq<PaymentPath>, reports: seq<Report>, amounts: seq<int>)
    requires ValidProblem(p) && |amounts| == |p.venues|
  {
    && |paths| == |reports|
    && (forall i :: 0 <= i < |reports| ==> Sound(p, reports[i]) && Pays(p, paths[i], reports[i]))
    && (forall i, j :: 0 <= i < j < |reports| && Last(reports[i]) == Last(reports[j]) ==>
          Better(p.mode, reports[i].amount, reports[j].amount))
    && (forall i :: 0 <= i < |reports| && |reports[i].path| > 1 ==>
      AtMost(p.mode, reports[i].amount, amounts[Last(reports[i])]))
  }

  /** Every asset whose current amount is wanted has a result with exactly that amount. */
  ghost predicate BestReported(p: Problem, reports: seq<Report>, amounts: seq<int>) {
    forall a: nat :: a < |amounts| && amounts[a] > 0 && Include(p.mode, a, amounts[a]) ==>
      ReportFor(reports, a, amounts[a])
  }

  ghost predicate ReportFor(reports: seq<Report>, asset: nat, amount: int) {
    exists i :: 0 <= i < |reports| && Last(reports[i]) == asset && reports[i].amount == amount
  }

  lemma ReportKept(reports: seq<Report>, r: Report, asset: nat, amount: int)
    requires ReportFor(reports, asset, amount)
    ensures ReportFor(reports + [r], asset, amount)
  {
    var i :| 0 <= i < |reports| && Last(reports[i]) == asset && reports[i].amount == amount;
    assert (reports + [r])[i] == reports[i];
  }

  /** Recording a better amount keeps every wanted amount reported, if the new one is reported when wanted. */
  lemma StaysReported(p: Problem, reports: seq<Report>, amounts: seq<int>, next: nat, r: Report)
    requires BestReported(p, reports, amounts) && next < |amounts| && Last(r) == next
    ensures !Include(p.mode, next, r.amount) ==> BestReported(p, reports, amounts[next := r.amount])
    ensures BestReported(p, reports + [r], amounts[next := r.amount])
  {
    hide Include, Last;
    var now := amounts[next := r.amount];
    forall a: nat | a < |now| && now[a] > 0 && Include(p.mode, a, now[a])
      ensures ReportFor(reports + [r], a, now[a])
    {
      if a == next {
        assert (reports + [r])[|reports|] == r;
      } else {
        ReportKept(reports, r, a, now[a]);
      }
    }
  }

  ghost predicate AtMost(mode: SearchMode, older: int, current: int) {
    older == current || Better(mode, older, current)
  }

  /** No result for `asset` is as good as `amount`. */
  ghost predicate Beaten(p: Problem, reports: seq<Report>, asset: nat, amount: int) {
    forall i :: 0 <= i < |reports| && Last(reports[i]) == asset ==>
      Better(p.mode, reports[i].amount, amount)
  }

  /** Results stay in order when an asset off the source improves, and all of its results are then beaten. */
  lemma ImprovementInOrder(p: Problem, paths: seq<PaymentPath>, reports: seq<Report>, amounts: seq<int>, next: nat,
                           amount: int)
    requires ValidProblem(p) && |amounts| == |p.venues| && InOrder(p, paths, reports, amounts)
    requires next < |p.venues| && next != p.source && Better(p.mode, amounts[next], amount)
    ensures InOrder(p, paths, reports, amounts[next := amount]) && Beaten(p, reports, next, amount)
  {
    hide ValidProblem, Pays, Better, Flow, Include, Find, Distinct;
    forall i | 0 <= i < |reports| && Last(reports[i]) == next
      ensures |reports[i].path| > 1 && Better(p.mode, reports[i].amount, amount)
    {
      assert Sound(p, reports[i]);
      BetterTransitive(p.mode, reports[i].amount, amounts[next], amount);
    }
  }

  lemma NewResultInOrder(p: Problem, paths: seq<PaymentPath>, reports: seq<Report>, amounts: seq<int>, pp: PaymentPath,
                         r: Report)
    requires ValidProblem(p) && |amounts| == |p.venues| && InOrder(p, paths, reports, amounts)
    requires Sound(p, r) && Pays(p, pp, r) && Beaten(p, reports, Last(r), r.amount)
    requires |r.path| > 1 ==> r.amount == amounts[Last(r)]
    ensures InOrder(p, paths + [pp], reports + [r], amounts)
  {
    hide ValidProblem, Pays, Better, Flow, Include, Find, Distinct;
  }

  /**
   * Edge j of asset c, held with `amount` along `trail`, has been taken into account: its target is on
   * the trail, the edge yields nothing, or the target's amount is at least as good as the yield. In the
   * final round only edges to terminal assets count.
   */
  ghost predicate Relaxed(p: Problem, final: bool, c: nat, trail: seq<nat>, amount: int, j: nat, amounts: seq<int>)
    requires ValidProblem(p) && |amounts| == |p.venues| && c < |p.venues| && j < |p.venues[c]|
    requires 0 < amount <= MAX_INT64
  {
    EdgeInRange(p, c, j);
    var e := p.venues[c][j];
    var v := EdgeYield(p, c, amount, e);
    (final && !IsTerminal(p.mode, e.key)) || e.key in trail || v <= 0 || !Better(p.mode, amounts[e.key], v)
  }

  /** All edges of an asset, up to the j-th, are relaxed with respect to the given amounts. */
  ghost predicate RelaxedUpTo(p: Problem, final: bool, c: nat, trail: seq<nat>, amount: int, j: nat, amounts: seq<int>)
    requires ValidProblem(p) && |amounts| == |p.venues| && c < |p.venues| && j <= |p.venues[c]|
    requires 0 < amount <= MAX_INT64
  {
    forall i: nat :: i < j ==> Relaxed(p, final, c, trail, amount, i, amounts)
  }

  lemma RelaxedStays(p: Problem, final: bool, c: nat, trail: seq<nat>, amount: int, j: nat, before: seq<int>,
                     now: seq<int>)
    requires ValidProblem(p) && |before| == |now| == |p.venues| && c < |p.venues| && j <= |p.venues[c]|
    requires 0 < amount <= MAX_INT64
    requires Improved(p.mode, before, now) && RelaxedUpTo(p, final, c, trail, amount, j, before)
    requires forall a :: 0 <= a < |before| ==> before[a] >= 0
    ensures RelaxedUpTo(p, final, c, trail, amount, j, now)
  {
    hide Better, EdgeYield, ValidProblem, ValidRow;
    forall i: nat | i < j
      ensures Relaxed(p, final, c, trail, amount, i, now)
    {
      assert Relaxed(p, final, c, trail, amount, i, before);
      EdgeInRange(p, c, i);
      var e := p.venues[c][i];
      var v := EdgeYield(p, c, amount, e);
      if !(final && !IsTerminal(p.mode, e.key)) && e.key !in trail && v > 0 {
        StillRelaxed(p.mode, before[e.key], now[e.key], v);
      }
    }
  }

  /** Amounts only ever move in the better direction. */
  ghost predicate Improved(mode: SearchMode, before: seq<int>, now: seq<int>) {
    |before| == |now| && forall a: nat :: a < |before| ==>
      now[a] == before[a] || (now[a] > 0 && Better(mode, before[a], now[a]))
  }

  lemma ImprovedTransitive(mode: SearchMode, a: seq<int>, b: seq<int>, c: seq<int>)
    requires Improved(mode, a, b) && Improved(mode, b, c)
    ensures Improved(mode, a, c)
  {
    hide Better;
    forall i: nat | i < |a|
      ensures c[i] == a[i] || (c[i] > 0 && Better(mode, a[i], c[i]))
    {
      if c[i] != b[i] {
        BetterTransitive(mode, a[i], b[i], c[i]);
      }
    }
  }

  datatype Holding = Holding(trail: seq<nat>, amount: int)

  /** Every edge of the first `upTo` assets that were held is relaxed with respect to the given amounts. */
  ghost predicate RoundRelaxed(p: Problem, final: bool, held: seq<Holding>, amounts: seq<int>, upTo: nat)
    requires ValidProblem(p) && |held| == |amounts| == |p.venues| && upTo <= |p.venues|
  {
    forall c: nat :: c < upTo && 0 < held[c].amount <= MAX_INT64 ==>
      RelaxedUpTo(p, final, c, held[c].trail, held[c].amount, |p.venues[c]|, amounts)
  }

  lemma RoundStaysRelaxed(p: Problem, final: bool, held: seq<Holding>, before: seq<int>, now: seq<int>, upTo: nat)
    requires ValidProblem(p) && |held| == |before| == |now| == |p.venues| && upTo <= |p.venues|
    requires RoundRelaxed(p, final, held, before, upTo) && Improved(p.mode, before, now)
    requires forall a :: 0 <= a < |before| ==> before[a] >= 0
    ensures RoundRelaxed(p, final, held, now, upTo)
  {
    hide RelaxedUpTo, ValidRow, Improved;
    forall c: nat | c < upTo && 0 < held[c].amount <= MAX_INT64
      ensures RelaxedUpTo(p, final, c, held[c].trail, held[c].amount, |p.venues[c]|, now)
    {
      RelaxedStays(p, final, c, held[c].trail, held[c].amount, |p.venues[c]|, before, now);
    }
  }

  /** What is held after some hops: every amount runs along a good path of at most that many hops to its asset. */
  ghost predicate HeldSoundly(p: Problem, held: seq<Holding>, hops: nat)
    requires ValidProblem(p)
  {
    |held| == |p.venues| && forall c: nat :: c < |held| ==> SoundHolding(p, held[c], c, hops)
  }

  ghost predicate SoundHolding(p: Problem, h: Holding, c: nat, hops: nat)
    requires ValidProblem(p)
  {
    && 0 <= h.amount <= MAX_INT64
    && (h.amount > 0 ==>
          && GoodPath(p, h.trail) && h.trail[|h.trail|-1] == c
          && Flow(p, h.trail) == h.amount && |h.trail| <= hops + 1)
  }

  ghost function AmountsOf(held: seq<Holding>): (r: seq<int>)
    ensures |r| == |held| && forall c :: 0 <= c < |held| ==> r[c] == held[c].amount
  {
    seq(|held|, c requires 0 <= c < |held| => held[c].amount)
  }

  /** Only the source is held. */
  ghost predicate HoldsSource(p: Problem, held: seq<Holding>) {
    |held| == |p.venues| && forall c: nat :: c < |held| ==>
      held[c].amount == (if c == p.source then p.amount else 0)
  }

  /**
   * The holdings at the start of successive rounds: the first is the source alone; each is sound for its
   * number of hops; and every edge from a held asset to an asset off its trail is relaxed by the amounts
   * of the next, none of which is worse.
   */
  ghost predicate History(p: Problem, history: seq<seq<Holding>>)
    requires ValidProblem(p)
  {
    && (forall i: nat :: i < |history| ==> HeldSoundly(p, history[i], i))
    && (history != [] ==> HoldsSource(p, history[0]))
    && (forall i: nat, j: nat :: j == i + 1 && j < |history| ==>
          && RoundRelaxed(p, false, history[i], AmountsOf(history[j]), |p.venues|)
          && Improved(p.mode, AmountsOf(history[i]), AmountsOf(history[j])))
  }

  /** With respect to the given amounts, every round is relaxed, the last one as far as terminal assets go. */
  ghost predicate AllRelaxed(p: Problem, history: seq<seq<Holding>>, amounts: seq<int>)
    requires ValidProblem(p) && |amounts| == |p.venues|
  {
    forall i: nat :: i < |history| ==>
      && |history[i]| == |p.venues|
      && RoundRelaxed(p, i == p.maxPathLength - 1, history[i], amounts, |p.venues|)
      && Improved(p.mode, AmountsOf(history[i]), amounts)
  }

  lemma HistoryExtended(p: Problem, history: seq<seq<Holding>>, held: seq<Holding>)
    requires ValidProblem(p) && History(p, history) && |history| < p.maxPathLength
    requires HeldSoundly(p, held, |history|) && AllRelaxed(p, history, AmountsOf(held))
    requires history == [] ==> HoldsSource(p, held)
    ensures History(p, history + [held])
  {
    hide SoundHolding, RoundRelaxed, Improved, ValidProblem, HoldsSource;
    var all := history + [held];
    forall i: nat, j: nat | j == i + 1 && j < |all|
      ensures RoundRelaxed(p, false, all[i], AmountsOf(all[j]), |p.venues|)
      ensures Improved(p.mode, AmountsOf(all[i]), AmountsOf(all[j]))
    {
    }
  }

  lemma AllStayRelaxed(p: Problem, history: seq<seq<Holding>>, held: seq<Holding>, before: seq<int>, now: seq<int>)
    requires ValidProblem(p) && |held| == |before| == |now| == |p.venues| && before == AmountsOf(held)
    requires AllRelaxed(p, history, before) && Improved(p.mode, before, now)
    requires forall a :: 0 <= a < |before| ==> before[a] >= 0
    requires RoundRelaxed(p, |history| == p.maxPathLength - 1, held, now, |p.venues|)
    ensures AllRelaxed(p, history + [held], now)
  {
    hide RoundRelaxed, Improved, ValidRow;
    var all := history + [held];
    forall i: nat | i < |all|
      ensures |all[i]| == |p.venues| && RoundRelaxed(p, i == p.maxPathLength - 1, all[i], now, |p.venues|)
      ensures Improved(p.mode, AmountsOf(all[i]), now)
    {
      if i < |history| {
        RoundStaysRelaxed(p, i == p.maxPathLength - 1, history[i], before, now, |p.venues|);
        ImprovedTransitive(p.mode, AmountsOf(history[i]), before, now);
      }
    }
  }

  /** How a search ends. The failure case is the source's error return. */
  datatype Outcome = Finished | Cancelled | Failed(error: SearchError)

  class Search {
    const p: Problem
    /** Whether the caller's context may be done before the search is. */
    const cancellable: bool
    var bestAmount: seq<int>
    var updateAmount: seq<int>
    var bestPath: seq<PathNode?>
    var updatePath: seq<PathNode?>
    var updatedAssets: seq<nat>
    var paths: seq<PaymentPath>

    /** The found paths behind `paths`. */
    ghost var reports: seq<Report>
    /** Nodes of earlier rounds, which are never written again, and nodes made in this round. */
    ghost var frozen: set<PathNode>
    ghost var touched: set<PathNode>

    constructor (p: Problem, cancellable: bool)
      requires ValidProblem(p)
      ensures this.p == p && this.cancellable == cancellable && Settled(0) && Reported() && paths == [] && reports == []
      ensures p.amount > 0 ==> HoldingAt(p.source) == Holding([p.source], p.amount)
      ensures forall a: nat :: a < |p.venues| ==> updateAmount[a] == if a == p.source then p.amount else 0
      ensures updateAmount == bestAmount
    {
      this.p, this.cancellable := p, cancellable;
      bestAmount := seq(|p.venues|, _ => 0)[p.source := p.amount];
      updateAmount := seq(|p.venues|, _ => 0)[p.source := p.amount];
      updatePath := seq(|p.venues|, _ => null);
      var root := new PathNode(p.source, null);
      bestPath := seq(|p.venues|, _ => null)[p.source := root];
      updatedAssets, paths, reports := [], [], [];
      frozen, touched := {root}, {};
    }

    ghost predicate Sizes()
      reads this`bestAmount, this`updateAmount, this`bestPath, this`updatePath
    {
      |bestAmount| == |updateAmount| == |bestPath| == |updatePath| == |p.venues|
    }

    /** The best path to an asset is a good path of at most `hops` hops that carries the best amount. */
    ghost predicate BestAt(a: nat, hops: nat)
      reads this`bestAmount, this`updateAmount, this`bestPath, this`updatePath, this`frozen, frozen
      requires Sizes() && ValidProblem(p) && a < |p.venues|
    {
      && 0 <= bestAmount[a] <= MAX_INT64
      && (bestAmount[a] > 0 ==>
            && bestPath[a] != null && bestPath[a] in frozen && bestPath[a].asset == a
            && OnTrail(bestPath[a].trail, a, bestAmount[a], hops))
    }

    ghost predicate OnTrail(trail: seq<nat>, a: nat, amount: int, hops: nat)
      requires ValidProblem(p)
    {
      GoodPath(p, trail) && trail[|trail|-1] == a && Flow(p, trail) == amount && |trail| <= hops + 1
    }

    /** What an asset improved in this round holds: a node of its own that continues a frozen path. */
    ghost predicate UpdateAt(a: nat, hops: nat)
      reads this`bestAmount, this`updateAmount, this`bestPath, this`updatePath,
            this`updatedAssets, this`frozen, this`touched, frozen, touched
      requires Sizes() && ValidProblem(p) && a < |p.venues|
    {
      if a in updatedAssets then
        && 0 < updateAmount[a] <= MAX_INT64 && Better(p.mode, bestAmount[a], updateAmount[a])
        && updatePath[a] != null && updatePath[a] in touched && updatePath[a].asset == a
        && updatePath[a].prev != null && updatePath[a].prev in frozen
        && updatePath[a].trail == updatePath[a].prev.trail + [a]
        && OnTrail(updatePath[a].trail, a, updateAmount[a], hops + 1)
      else
        updateAmount[a] == bestAmount[a]
    }

    ghost predicate Invariant(hops: nat)
      reads this`bestAmount, this`updateAmount, this`bestPath, this`updatePath,
            this`updatedAssets, this`frozen, this`touched, frozen, touched
    {
      && ValidProblem(p) && Sizes()
      && Chained(frozen) && frozen !! touched
      && (forall a :: a in updatedAssets ==> a < |p.venues|)
      && (forall a: nat :: a < |p.venues| ==> BestAt(a, hops))
      && (forall a: nat :: a < |p.venues| ==> UpdateAt(a, hops))
    }

    ghost predicate Reported()
      reads this
      requires ValidProblem(p) && Sizes()
    {
      InOrder(p, paths, reports, updateAmount)
    }

    ghost predicate NonNegative()
      reads this`updateAmount
    {
      forall a :: 0 <= a < |updateAmount| ==> updateAmount[a] >= 0
    }

    ghost predicate Complete()
      reads this`reports, this`updateAmount
    {
      BestReported(p, reports, updateAmount)
    }

    /** Records a better amount for `next`, reached from the best path of c. */
    method Improve(c: nat, next: nat, amount: int, ghost hops: nat)
      requires Invariant(hops) && c < |p.venues| && next < |p.venues| && BestAt(c, hops) && bestAmount[c] > 0
      requires 0 < amount <= MAX_INT64 && Better(p.mode, updateAmount[next], amount)
      requires OnTrail(bestPath[c].trail + [next], next, amount, hops + 1)
      modifies this`updateAmount, this`updatePath, this`updatedAssets, this`touched, touched
      ensures Invariant(hops)
      ensures updateAmount == old(updateAmount)[next := amount]
      ensures old(touched) <= touched && fresh(touched - old(touched))
    {
      hide OnTrail, ValidProblem, Better;
      assert BestAt(next, hops) && UpdateAt(next, hops);
      var pathToCurrentAsset := bestPath[c];
      var newEntry := updateAmount[next] == bestAmount[next];
      BetterDiffers(p.mode, bestAmount[next], updateAmount[next], amount);
      if newEntry {
        StartUpdate(next, pathToCurrentAsset, amount, hops);
      } else {
        RedirectUpdate(next, pathToCurrentAsset, amount, hops);
      }
    }

    /** The first improvement of an asset in a round gets a node of its own. */
    method StartUpdate(next: nat, prev: PathNode, amount: int, ghost hops: nat)
      requires Invariant(hops) && next < |p.venues| && next !in updatedAssets && prev in frozen
      requires 0 < amount <= MAX_INT64 && Better(p.mode, bestAmount[next], amount)
      requires OnTrail(prev.trail + [next], next, amount, hops + 1)
      modifies this`updateAmount, this`updatePath, this`updatedAssets, this`touched
      ensures Invariant(hops)
      ensures updateAmount == old(updateAmount)[next := amount]
      ensures old(touched) <= touched && fresh(touched - old(touched))
    {
      hide OnTrail, ValidProblem, Better;
      updateAmount := updateAmount[next := amount];
      updatedAssets := updatedAssets + [next];
      var node := new PathNode(next, prev);
      updatePath := updatePath[next := node];
      touched := touched + {node};
      forall a: nat | a < |p.venues|
        ensures BestAt(a, hops) && UpdateAt(a, hops)
      {
        assert old(BestAt(a, hops)) && old(UpdateAt(a, hops));
      }
    }

    /** A later improvement overwrites that node in place; no frozen path runs through it. */
    method RedirectUpdate(next: nat, prev: PathNode, amount: int, ghost hops: nat)
      requires Invariant(hops) && next < |p.venues| && next in updatedAssets && prev in frozen
      requires UpdateAt(next, hops)
      requires 0 < amount <= MAX_INT64 && Better(p.mode, bestAmount[next], amount)
      requires OnTrail(prev.trail + [next], next, amount, hops + 1)
      modifies this`updateAmount, updatePath[next]
      ensures Invariant(hops)
      ensures updateAmount == old(updateAmount)[next := amount]
    {
      hide OnTrail, ValidProblem, Better;
      updateAmount := updateAmount[next := amount];
      updatePath[next].prev := prev;
      updatePath[next].trail := prev.trail + [next];
      forall a: nat | a < |p.venues|
        ensures BestAt(a, hops) && UpdateAt(a, hops)
      {
        assert old(BestAt(a, hops)) && old(UpdateAt(a, hops));
      }
    }

    /** Appends a found path to the results. */
    method AppendToPaths(path: seq<nat>, asset: nat, amount: int)
      requires ValidProblem(p) && Sizes() && Reported()
      requires Sound(p, Report(path, amount)) && path[|path|-1] == asset && Beaten(p, reports, asset, amount)
      requires |path| > 1 ==> amount == updateAmount[asset]
      modifies this`paths, this`reports
      ensures Reported() && reports == old(reports) + [Report(path, amount)]
    {
      hide ValidProblem, Pays, InOrder, Flow, Include, Find, Beaten;
      var pp := ToPayment(p, path, asset, amount);
      NewResultInOrder(p, paths, reports, updateAmount, pp, Report(path, amount));
      paths := paths + [pp];
      reports := reports + [Report(path, amount)];
    }

    /** Takes over a better amount found over edge j of asset c, and reports the path if it is wanted. */
    method Record(c: nat, j: nat, amount: int, ghost hops: nat)
      requires Invariant(hops) && Reported() && Complete() && hops < p.maxPathLength
      requires c < |p.venues| && BestAt(c, hops) && bestAmount[c] > 0 && j < |p.venues[c]|
      requires ValidVenues(p.venues[c][j]) && p.venues[c][j].key < |p.venues|
      requires p.venues[c][j].key !in bestPath[c].trail
      requires amount > 0 && amount == EdgeYield(p, c, bestAmount[c], p.venues[c][j])
      requires Better(p.mode, updateAmount[p.venues[c][j].key], amount)
      modifies this`updateAmount, this`updatePath, this`updatedAssets, this`touched, this`paths, this`reports, touched
      ensures Invariant(hops) && Reported() && Complete()
      ensures old(touched) <= touched && fresh(touched - old(touched))
      ensures updateAmount == old(updateAmount)[p.venues[c][j].key := amount]
    {
      hide Better, Flow, GoodPath, Pays, Include, Sound, EdgeYield, ValidProblem, ValidVenues, InOrder, Beaten,
        BestReported;
      var next := p.venues[c][j].key;
      ghost var trail := bestPath[c].trail;
      ExtendPath(p, trail, j, bestAmount[c]);
      StartsAtSource(p, trail);
      ImprovementInOrder(p, paths, reports, updateAmount, next, amount);
      StaysReported(p, reports, updateAmount, next, Report(trail + [next], amount));
      Improve(c, next, amount, hops);
      if Include(p.mode, next, amount) {
        var found := bestPath[c].Path(frozen);
        SoundExtension(p, trail, next, amount);
        AppendToPaths(found + [next], next, amount);
      }
    }

    /** One edge of one round. */
    method RelaxEdge(c: nat, j: nat, final: bool, ghost hops: nat) returns (error: Option<SearchError>)
      requires Invariant(hops) && Reported() && Complete() && hops < p.maxPathLength
      requires c < |p.venues| && BestAt(c, hops) && bestAmount[c] > 0 && j < |p.venues[c]|
      modifies this`updateAmount, this`updatePath, this`updatedAssets, this`touched, this`paths, this`reports, touched
      ensures Invariant(hops) && Reported() && Complete() && error.None?
      ensures old(touched) <= touched && fresh(touched - old(touched))
      ensures Improved(p.mode, old(updateAmount), updateAmount)
      ensures BestAt(c, hops) && bestPath[c].trail == old(bestPath[c].trail)
      ensures Relaxed(p, final, c, bestPath[c].trail, bestAmount[c], j, updateAmount)
    {
      hide Better, Flow, GoodPath, VenueOutcome, Pays, Include, Sound, EdgeYield, BestReported;
      EdgeInRange(p, c, j);
      var e := p.venues[c][j];
      var nextAsset := e.key;
      if final && !IsTerminal(p.mode, nextAsset) {
        return None;
      }
      var onPath := bestPath[c].Contains(nextAsset, frozen);
      if onPath {
        return None;
      }
      var outcome := ProcessVenues(p.mode, c, bestAmount[c], e);
      YieldIs(p, c, bestAmount[c], e);
      match outcome {
        case Err(err) => return Some(err);
        case Ok(nextAssetAmount) =>
          if nextAssetAmount > 0 && Better(p.mode, updateAmount[nextAsset], nextAssetAmount) {
            Record(c, j, nextAssetAmount, hops);
            NotWorseThanItself(p.mode, nextAssetAmount);
          }
          return None;
      }
    }

    lemma AmountsNonNegative(hops: nat)
      requires Invariant(hops)
      ensures forall a :: 0 <= a < |updateAmount| ==> updateAmount[a] >= 0
    {
      hide OnTrail, ValidProblem, Better;
      forall a: nat | a < |updateAmount|
        ensures updateAmount[a] >= 0
      {
        assert BestAt(a, hops) && UpdateAt(a, hops);
      }
    }

    /** All edges of one asset in one round. */
    method RelaxAsset(c: nat, final: bool, ghost hops: nat) returns (r: Outcome)
      requires Invariant(hops) && Reported() && Complete() && hops < p.maxPathLength
      requires c < |p.venues| && BestAt(c, hops) && bestAmount[c] > 0
      modifies this`updateAmount, this`updatePath, this`updatedAssets, this`touched, this`paths, this`reports, touched
      ensures Invariant(hops) && Reported() && Complete() && !r.Failed? && (r.Cancelled? ==> cancellable)
      ensures old(touched) <= touched && fresh(touched - old(touched))
      ensures Improved(p.mode, old(updateAmount), updateAmount)
      ensures BestAt(c, hops) && bestPath[c].trail == old(bestPath[c].trail)
      ensures r.Finished? ==> RelaxedUpTo(p, final, c, bestPath[c].trail, bestAmount[c], |p.venues[c]|, updateAmount)
    {
      hide Better, OnTrail, InOrder, EdgeYield, Chained, UpdateAt, ValidRow, Relaxed, BestReported;
      ghost var trail := bestPath[c].trail;
      for j := 0 to |p.venues[c]|
        invariant Invariant(hops) && Reported() && Complete() && BestAt(c, hops) && bestPath[c].trail == trail
        invariant old(touched) <= touched && fresh(touched - old(touched))
        invariant Improved(p.mode, old(updateAmount), updateAmount)
        invariant RelaxedUpTo(p, final, c, trail, bestAmount[c], j, updateAmount)
      {
        var cancelled: bool := *;
        if cancellable && cancelled {
          return Cancelled;
        }
        AmountsNonNegative(hops);
        ghost var before := updateAmount;
        var error := RelaxEdge(c, j, final, hops);
        ImprovedTransitive(p.mode, old(updateAmount), before, updateAmount);
        match error {
          case Some(e) => return Failed(e);
          case None =>
        }
        RelaxedStays(p, final, c, trail, bestAmount[c], j, before, updateAmount);
      }
      r := Finished;
    }

    /** Between rounds: all best paths are frozen and nothing is pending. */
    ghost predicate Settled(hops: nat)
      reads this`bestAmount, this`updateAmount, this`bestPath, this`updatePath, this`frozen, frozen
    {
      && ValidProblem(p) && Sizes() && Chained(frozen) && updateAmount == bestAmount
      && forall a: nat :: a < |p.venues| ==> BestAt(a, hops)
    }

    ghost function HoldingAt(c: nat): Holding
      reads this`bestAmount, this`bestPath, this`frozen, frozen
      requires c < |bestAmount| == |bestPath|
    {
      if bestAmount[c] > 0 && bestPath[c] != null && bestPath[c] in frozen
        then Holding(bestPath[c].trail, bestAmount[c])
      else Holding([], 0)
    }

    /** What is held, along which path, when a round begins. */
    ghost function Holdings(): (h: seq<Holding>)
      reads this, frozen
      requires |bestAmount| == |bestPath|
      ensures |h| == |bestAmount| && forall c :: 0 <= c < |h| ==> h[c] == HoldingAt(c)
    {
      seq(|bestAmount|, c requires 0 <= c < |bestAmount| == |bestPath| reads this, frozen => HoldingAt(c))
    }

    /** The relaxations of one round, before any of them takes effect on the best paths. */
    method RelaxAll(final: bool, ghost hops: nat) returns (r: Outcome)
      requires Settled(hops) && Reported() && Complete() && hops < p.maxPathLength
      modifies this`updateAmount, this`updatePath, this`updatedAssets, this`touched, this`paths, this`reports
      ensures Invariant(hops) && Reported() && Complete() && NonNegative()
      ensures !r.Failed? && (r.Cancelled? ==> cancellable)
      ensures Improved(p.mode, old(bestAmount), updateAmount)
      ensures r.Finished? ==> RoundRelaxed(p, final, old(Holdings()), updateAmount, |p.venues|)
    {
      hide Better, OnTrail, InOrder, RelaxedUpTo, ValidRow, BestReported;
      ghost var held := Holdings();
      updatedAssets := [];
      touched := {};
      AmountsNonNegative(hops);
      for c := 0 to |p.venues|
        invariant Invariant(hops) && Reported() && Complete() && NonNegative() && fresh(touched)
        invariant Improved(p.mode, old(bestAmount), updateAmount)
        invariant RoundRelaxed(p, final, held, updateAmount, c)
      {
        assert BestAt(c, hops);
        if bestAmount[c] == 0 {
          continue;
        }
        assert held[c] == Holding(bestPath[c].trail, bestAmount[c]);
        AmountsNonNegative(hops);
        ghost var before := updateAmount;
        r := RelaxAsset(c, final, hops);
        AmountsNonNegative(hops);
        ImprovedTransitive(p.mode, old(bestAmount), before, updateAmount);
        if !r.Finished? {
          return;
        }
        RoundStaysRelaxed(p, final, held, before, updateAmount, c);
      }
      r := Finished;
    }

    /** Makes the improvements of a round the best paths; their nodes are frozen from here on. */
    method Commit(ghost hops: nat)
      requires Invariant(hops)
      modifies this`bestAmount, this`bestPath, this`frozen
      ensures Settled(hops + 1) && updateAmount == old(updateAmount)
    {
      hide OnTrail, ValidProblem, Better, Chained;
      assert forall a: nat :: a < |p.venues| ==> BestAt(a, hops) && UpdateAt(a, hops);
      for k := 0 to |updatedAssets|
        invariant Sizes() && frozen == old(frozen)
        invariant forall a: nat :: a < |p.venues| ==>
          if a in updatedAssets[..k] then bestPath[a] == updatePath[a] && bestAmount[a] == updateAmount[a]
          else bestPath[a] == old(bestPath)[a] && bestAmount[a] == old(bestAmount)[a]
      {
        var asset := updatedAssets[k];
        assert asset in updatedAssets;
        bestPath := bestPath[asset := updatePath[asset]];
        bestAmount := bestAmount[asset := updateAmount[asset]];
      }
      assert updatedAssets[..|updatedAssets|] == updatedAssets;
      ghost var nodes := set n | n in touched && n.asset < |p.venues| && n.asset in updatedAssets
        && updatePath[n.asset] == n;
      FreezeNodes(frozen, nodes) by {
        forall n | n in nodes
          ensures n.prev != null && n.prev in frozen && n.trail == n.prev.trail + [n.asset]
        {
          assert old(UpdateAt(n.asset, hops));
        }
      }
      frozen := frozen + nodes;
      forall a: nat | a < |p.venues|
        ensures updateAmount[a] == bestAmount[a] && BestAt(a, hops + 1)
      {
        assert old(BestAt(a, hops)) && old(UpdateAt(a, hops));
        if bestAmount[a] > 0 {
          LongerTrail(bestPath[a].trail, a, bestAmount[a], hops);
        }
      }
    }

    lemma LongerTrail(trail: seq<nat>, a: nat, amount: int, hops: nat)
      requires ValidProblem(p)
      ensures OnTrail(trail, a, amount, hops) ==> OnTrail(trail, a, amount, hops + 1)
    {
    }

    /**
     * One round that is not the last: no amount gets worse, and every venue edge that starts at an asset
     * held when the round began is relaxed by the amounts with which the next round begins.
     */
    method Round(ghost hops: nat) returns (r: Outcome)
      requires Settled(hops) && Reported() && Complete() && hops < p.maxPathLength
      modifies this`updateAmount, this`updatePath, this`updatedAssets, this`touched, this`paths, this`reports,
               this`bestAmount, this`bestPath, this`frozen
      ensures !r.Failed? && (r.Cancelled? ==> cancellable)
      ensures ValidProblem(p) && Sizes() && Reported() && Complete() && NonNegative()
      ensures r.Finished? ==> Settled(hops + 1)
      ensures r.Finished? ==> Improved(p.mode, old(bestAmount), bestAmount)
      ensures r.Finished? ==> RoundRelaxed(p, false, old(Holdings()), bestAmount, |p.venues|)
    {
      hide Better, OnTrail, InOrder, RelaxedUpTo, ValidProblem, Improved, BestReported;
      r := RelaxAll(false, hops);
      if r.Finished? {
        Commit(hops);
      }
    }

    lemma HoldingsSound(hops: nat)
      requires Settled(hops)
      ensures HeldSoundly(p, Holdings(), hops) && AmountsOf(Holdings()) == bestAmount
    {
      hide GoodPath, Flow, Chained;
      forall c: nat | c < |p.venues|
        ensures SoundHolding(p, Holdings()[c], c, hops) && Holdings()[c].amount == bestAmount[c]
      {
        assert BestAt(c, hops);
      }
    }

    /**
     * All rounds, the last of which only looks at edges to terminal assets. `history` holds what was held
     * at the start of each of them.
     */
    method RunRounds() returns (r: Outcome, ghost history: seq<seq<Holding>>)
      requires Settled(0) && Reported() && Complete() && NonNegative() && HoldsSource(p, Holdings())
      modifies this`updateAmount, this`updatePath, this`updatedAssets, this`touched, this`paths, this`reports,
               this`bestAmount, this`bestPath, this`frozen
      ensures !r.Failed? && (r.Cancelled? ==> cancellable)
      ensures ValidProblem(p) && Sizes() && Reported() && Complete() && NonNegative()
      ensures r.Finished? ==> |history| == p.maxPathLength
      ensures r.Finished? ==> History(p, history) && AllRelaxed(p, history, updateAmount)
      ensures r.Finished? ==> Improved(p.mode, old(updateAmount), updateAmount)
    {
      hide Better, InOrder, ValidRow, BestReported, RoundRelaxed, Improved, BestAt, Chained, History, AllRelaxed,
        HoldsSource, HeldSoundly;
      r, history := Finished, [];
      NoHistory(p, updateAmount);
      for i := 0 to p.maxPathLength
        invariant ValidProblem(p) && Sizes() && Reported() && Complete() && NonNegative() && r == Finished
        invariant i < p.maxPathLength ==> Settled(i)
        invariant i == 0 ==> HoldsSource(p, Holdings())
        invariant |history| == i && History(p, history) && AllRelaxed(p, history, updateAmount)
        invariant Improved(p.mode, old(updateAmount), updateAmount)
      {
        ghost var before, held := updateAmount, Holdings();
        HoldingsSound(i);
        HistoryExtended(p, history, held);
        if i < p.maxPathLength - 1 {
          r := Round(i);
        } else {
          r := RelaxAll(true, i);
        }
        if !r.Finished? {
          break;
        }
        AllStayRelaxed(p, history, held, before, updateAmount);
        ImprovedTransitive(p.mode, old(updateAmount), before, updateAmount);
        history := history + [held];
      }
    }
  }

  lemma NoHistory(p: Problem, amounts: seq<int>)
    requires ValidProblem(p) && |amounts| == |p.venues|
    ensures History(p, []) && AllRelaxed(p, [], amounts) && Improved(p.mode, amounts, amounts)
  {
  }

  lemma FreezeNodes(frozen: set<PathNode>, nodes: set<PathNode>)
    requires Chained(frozen)
    requires forall n :: n in nodes ==> n.prev != null && n.prev in frozen && n.trail == n.prev.trail + [n.asset]
    ensures Chained(frozen + nodes)
  {
  }

  /** Every wanted asset that the source trades for directly has a result at least as good as that trade. */
  ghost predicate DirectTradesReported(p: Problem, reports: seq<Report>)
    requires ValidProblem(p)
  {
    p.amount > 0 && p.maxPathLength >= 1 ==>
      forall t: nat :: t < |p.venues| && t != p.source && Hop(p, p.source, p.amount, t) > 0 ==>
        Include(p.mode, t, Hop(p, p.source, p.amount, t)) ==>
          AsGoodReported(p, reports, t, Hop(p, p.source, p.amount, t))
  }

  ghost predicate AsGoodReported(p: Problem, reports: seq<Report>, asset: nat, amount: int) {
    exists i :: 0 <= i < |reports| && Last(reports[i]) == asset && !Better(p.mode, reports[i].amount, amount)
  }

  /** Every wanted asset that some holding trades for, off its trail, has a result at least as good as that trade. */
  ghost predicate HoldingsReported(p: Problem, held: seq<Holding>, reports: seq<Report>)
    requires ValidProblem(p) && |held| == |p.venues|
  {
    forall c: nat, t: nat :: c < |held| && t < |held| && 0 < held[c].amount <= MAX_INT64 && t !in held[c].trail ==>
      var v := Hop(p, c, held[c].amount, t);
      v > 0 && Include(p.mode, t, v) ==> AsGoodReported(p, reports, t, v)
  }

  /** Relaxed edges and reported amounts add up to reported trades. */
  lemma RelaxedThenReported(p: Problem, final: bool, held: seq<Holding>, amounts: seq<int>, reports: seq<Report>)
    requires ValidProblem(p) && |held| == |amounts| == |p.venues|
    requires RoundRelaxed(p, final, held, amounts, |p.venues|)
    requires BestReported(p, reports, amounts) && forall a :: 0 <= a < |amounts| ==> amounts[a] >= 0
    ensures HoldingsReported(p, held, reports)
  {
    hide ValidRow, EdgeYield, ReportFor, BestReported, Include, Better, AsGoodReported;
    forall c: nat, t: nat | c < |held| && t < |held| && 0 < held[c].amount <= MAX_INT64 && t !in held[c].trail
      && Hop(p, c, held[c].amount, t) > 0 && Include(p.mode, t, Hop(p, c, held[c].amount, t))
      ensures AsGoodReported(p, reports, t, Hop(p, c, held[c].amount, t))
    {
      var v := Hop(p, c, held[c].amount, t);
      var j := Find(p.venues[c], t);
      assert RelaxedUpTo(p, final, c, held[c].trail, held[c].amount, |p.venues[c]|, amounts);
      assert Relaxed(p, final, c, held[c].trail, held[c].amount, j, amounts);
      IncludedIsTerminal(p.mode, t, v);
      GoodEnough(p, reports, amounts, t, v);
    }
  }

  /** The holdings of every round are reported. */
  ghost predicate HistoryReported(p: Problem, history: seq<seq<Holding>>, reports: seq<Report>)
    requires ValidProblem(p)
  {
    forall i: nat :: i < |history| ==> |history[i]| == |p.venues| && HoldingsReported(p, history[i], reports)
  }

  lemma HistoryThenReported(p: Problem, history: seq<seq<Holding>>, amounts: seq<int>, reports: seq<Report>)
    requires ValidProblem(p) && |amounts| == |p.venues| && AllRelaxed(p, history, amounts)
    requires BestReported(p, reports, amounts) && forall a :: 0 <= a < |amounts| ==> amounts[a] >= 0
    ensures HistoryReported(p, history, reports)
  {
    hide ValidRow, RoundRelaxed, BestReported, HoldingsReported, Improved;
    forall i: nat | i < |history|
      ensures |history[i]| == |p.venues| && HoldingsReported(p, history[i], reports)
    {
      RelaxedThenReported(p, i == p.maxPathLength - 1, history[i], amounts, reports);
    }
  }

  /** At the start of the first round, the source is held along its own trail. */
  lemma SourceHeld(p: Problem, history: seq<seq<Holding>>)
    requires ValidProblem(p) && History(p, history) && history != [] && p.amount > 0
    ensures |history[0]| == |p.venues| && history[0][p.source] == Holding([p.source], p.amount)
  {
    hide ValidRow, Find, Flow, RoundRelaxed, Improved;
    var h := history[0][p.source];
    assert SoundHolding(p, h, p.source, 0);
    assert h.trail == [p.source];
  }

  /** At the start of the second round, every asset that the source trades for is held with what that trade yields. */
  lemma NeighbourHeld(p: Problem, history: seq<seq<Holding>>, b: nat)
    requires ValidProblem(p) && History(p, history) && |history| >= 2 && p.amount > 0
    requires b < |p.venues| && b != p.source && Hop(p, p.source, p.amount, b) > 0
    ensures |history[1]| == |p.venues|
    ensures history[1][b] == Holding([p.source, b], Hop(p, p.source, p.amount, b))
  {
    hide ValidRow, EdgeYield, Improved;
    SourceHeld(p, history);
    var s, v := p.source, Hop(p, p.source, p.amount, b);
    var j := Find(p.venues[s], b);
    var amounts := AmountsOf(history[1]);
    assert RelaxedUpTo(p, false, s, [s], p.amount, |p.venues[s]|, amounts);
    assert Relaxed(p, false, s, [s], p.amount, j, amounts);
    assert SoundHolding(p, history[1][b], b, 1);
    var trail := history[1][b].trail;
    assert trail == [s, b];
    assert trail[..1] == [s];
    assert Flow(p, [s]) == p.amount;
  }

  /** Every wanted asset that can be had from the source by two trades has a result at least as good. */
  ghost predicate TwoTradesReported(p: Problem, reports: seq<Report>)
    requires ValidProblem(p)
  {
    p.amount > 0 && p.maxPathLength >= 2 ==>
      forall b: nat, t: nat :: b < |p.venues| && t < |p.venues| && Distinct([p.source, b, t]) ==>
        TwoTradesGood(p, reports, b, t)
  }

  ghost predicate TwoTradesGood(p: Problem, reports: seq<Report>, b: nat, t: nat)
    requires ValidProblem(p) && 0 < p.amount && b < |p.venues| && t < |p.venues|
  {
    var first := Hop(p, p.source, p.amount, b);
    0 < first <= MAX_INT64 ==>
      var second := Hop(p, b, first, t);
      second > 0 && Include(p.mode, t, second) ==> AsGoodReported(p, reports, t, second)
  }

  lemma HistoryThenTrades(p: Problem, history: seq<seq<Holding>>, reports: seq<Report>)
    requires ValidProblem(p) && History(p, history) && HistoryReported(p, history, reports)
    requires |history| == p.maxPathLength
    ensures DirectTradesReported(p, reports) && TwoTradesReported(p, reports)
  {
    hide ValidRow, Hop, History, AsGoodReported, Include;
    if p.amount > 0 && p.maxPathLength >= 1 {
      SourceHeld(p, history);
      assert HoldingsReported(p, history[0], reports);
    }
    if p.amount > 0 && p.maxPathLength >= 2 {
      forall b: nat, t: nat | b < |p.venues| && t < |p.venues| && Distinct([p.source, b, t])
        ensures TwoTradesGood(p, reports, b, t)
      {
        assert [p.source, b, t][0] != [p.source, b, t][1] && [p.source, b, t][0] != [p.source, b, t][2];
        assert [p.source, b, t][1] != [p.source, b, t][2];
        if Hop(p, p.source, p.amount, b) > 0 {
          NeighbourHeld(p, history, b);
          assert HoldingsReported(p, history[1], reports);
        }
      }
    }
  }

  /** The empty path is reported whenever it is wanted. */
  lemma SourceReported(p: Problem, before: seq<int>, amounts: seq<int>, reports: seq<Report>)
    requires p.source < |before| == |amounts| && before[p.source] == p.amount > 0
    requires Improved(p.mode, before, amounts) && BestReported(p, reports, amounts) && amounts[p.source] >= 0
    requires Include(p.mode, p.source, p.amount)
    ensures AsGoodReported(p, reports, p.source, p.amount)
  {
    GoodEnough(p, reports, amounts, p.source, p.amount);
  }

  lemma IncludedIsTerminal(mode: SearchMode, asset: nat, amount: int)
    requires Include(mode, asset, amount)
    ensures IsTerminal(mode, asset)
  {
  }

  lemma GoodEnough(p: Problem, reports: seq<Report>, amounts: seq<int>, t: nat, v: int)
    requires t < |amounts| && amounts[t] >= 0 && v > 0 && !Better(p.mode, amounts[t], v) && Include(p.mode, t, v)
    requires BestReported(p, reports, amounts)
    ensures AsGoodReported(p, reports, t, v)
  {
    assert ReportFor(reports, t, amounts[t]);
  }

  /** At the start, only the source holds anything. */
  lemma InitiallyReported(p: Problem, reports: seq<Report>, amounts: seq<int>)
    requires forall a: nat :: a < |amounts| ==> amounts[a] == if a == p.source then p.amount else 0
    requires Include(p.mode, p.source, p.amount) ==> reports == [Report([p.source], p.amount)]
    ensures BestReported(p, reports, amounts)
  {
    if Include(p.mode, p.source, p.amount) {
      assert Last(reports[0]) == p.source;
    }
  }

  /**
   * The whole search. Whatever the venues, it fails only by cancellation, and every payment it returns
   * stands for a sound path: no asset twice, at most maxPathLength hops, existing venues only, and
   * exactly the amount that the hops yield one after the other. Later results for an asset are better.
   * `history` holds what was held at the start of each of the maxPathLength rounds; whatever one of these
   * holdings trades for is reported at least as well, if it is wanted and off the holding's trail, and so
   * is every wanted asset within two trades.
   */
  method RunSearch(p: Problem, cancellable: bool)
    returns (r: Outcome, paths: seq<PaymentPath>, ghost reports: seq<Report>, ghost history: seq<seq<Holding>>)
    requires ValidProblem(p)
    ensures !r.Failed? && (r.Cancelled? ==> cancellable)
    ensures |paths| == |reports|
    ensures forall i :: 0 <= i < |reports| ==> Sound(p, reports[i]) && Pays(p, paths[i], reports[i])
    ensures forall i, j :: 0 <= i < j < |reports| && Last(reports[i]) == Last(reports[j]) ==>
              Better(p.mode, reports[i].amount, reports[j].amount)
    ensures r.Finished? ==> |history| == p.maxPathLength && History(p, history) && HistoryReported(p, history, reports)
    ensures r.Finished? ==> DirectTradesReported(p, reports) && TwoTradesReported(p, reports)
    ensures r.Finished? && p.amount > 0 && Include(p.mode, p.source, p.amount) ==>
      AsGoodReported(p, reports, p.source, p.amount)
  {
    hide Better, InOrder, ValidRow, Pays, BestReported, RoundRelaxed, DirectTradesReported, TwoTradesReported, Include,
      History, HistoryReported, AllRelaxed, Improved, AsGoodReported;
    var s := new Search(p, cancellable);
    if Include(p.mode, p.source, p.amount) {
      TrivialPath(p);
      NoneYet(p, p.source, p.amount);
      s.AppendToPaths([p.source], p.source, p.amount);
    }
    InitiallyReported(p, s.reports, s.updateAmount);
    s.HoldingsSound(0);
    ghost var before := s.updateAmount;
    r, history := s.RunRounds();
    paths, reports := s.paths, s.reports;
    Unpack(p, paths, reports, s.updateAmount);
    if r.Finished? {
      HistoryThenReported(p, history, s.updateAmount, reports);
      HistoryThenTrades(p, history, reports);
      if p.amount > 0 && Include(p.mode, p.source, p.amount) {
        SourceReported(p, before, s.updateAmount, reports);
      }
    }
  }

  lemma TrivialPath(p: Problem)
    requires ValidProblem(p) && Include(p.mode, p.source, p.amount)
    ensures Sound(p, Report([p.source], p.amount))
  {
  }

  lemma NoneYet(p: Problem, asset: nat, amount: int)
    ensures Beaten(p, [], asset, amount)
  {
  }

  lemma Unpack(p: Problem, paths: seq<PaymentPath>, reports: seq<Report>, amounts: seq<int>)
    requires ValidProblem(p) && |amounts| == |p.venues| && InOrder(p, paths, reports, amounts)
    ensures |paths| == |reports|
    ensures forall i :: 0 <= i < |reports| ==> Sound(p, reports[i]) && Pays(p, paths[i], reports[i])
    ensures forall i, j :: 0 <= i < j < |reports| && Last(reports[i]) == Last(reports[j]) ==>
              Better(p.mode, reports[i].amount, reports[j].amount)
  {
  }

  lemma StartsAtSource(p: Problem, trail: seq<nat>)
    requires ValidProblem(p) && GoodPath(p, trail)
    ensures p.source in trail
  {
    assert trail[0] == p.source;
  }

  lemma EdgeInRange(p: Problem, c: nat, j: nat)
    requires ValidProblem(p) && c < |p.venues| && j < |p.venues[c]|
    ensures ValidVenues(p.venues[c][j]) && p.venues[c][j].key < |p.venues|
  {
    assert ValidRow(p.venues[c], |p.venues|);
  }

  lemma YieldIs(p: Problem, c: nat, amount: int, e: Edge)
    requires ValidVenues(e) && 0 < amount <= MAX_INT64
    ensures VenueOutcome(p.mode, c, amount, e) == Ok(EdgeYield(p, c, amount, e))
  {
    VenuesNeverFail(p.mode, c, amount, e);
  }

  lemma NotWorseThanItself(mode: SearchMode, amount: int)
    requires amount > 0
    ensures !Better(mode, amount, amount)
  {
  }

  lemma SoundExtension(p: Problem, trail: seq<nat>, next: nat, amount: int)
    requires ValidProblem(p) && GoodPath(p, trail + [next]) && Flow(p, trail + [next]) == amount
    requires |trail| <= p.maxPathLength
    requires Include(p.mode, next, amount)
    ensures Sound(p, Report(trail + [next], amount))
  {
  }

  /** A better amount is a different one, so equality with the best amount marks the first update of a round. */
  lemma BetterDiffers(mode: SearchMode, best: int, update: int, amount: int)
    requires amount > 0 && Better(mode, update, amount) && best >= 0
    requires update == best || (update > 0 && Better(mode, best, update))
    ensures Better(mode, best, amount)
    ensures update > 0 && Better(mode, best, update) ==> update != best
  {
  }
}
