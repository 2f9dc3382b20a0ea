/** Whole runs of the order book: any sequence of queued updates, discards, applications and clears. */
module OrderBookRuns {
  import opened Common
  import opened OrderBookTypes
  import opened OrderLists
  import opened EdgeSets
  import opened GraphState
  import opened OrderBookGraph
  import GraphVerification

  datatype Event = QueueEvent(op: Operation) | DiscardEvent | ApplyEvent(ledger: nat) | ClearEvent

  ghost predicate ValidEvent(e: Event) {
    match e
    case QueueEvent(op) => ValidOperation(op)
    case ApplyEvent(ledger) => ledger < TWO_32
    case _ => true
  }

  /** What a caller can know of the graph: its book, its ledger and its batch. */
  datatype Machine = Machine(book: Book, lastLedger: nat, operations: seq<Operation>, committed: bool)

  const INITIAL: Machine := Machine(EMPTY_BOOK, 0, [], false)

  ghost function OutcomeOf(m: Machine, ledger: nat): Outcome {
    if m.committed then Panicked(BatchAlreadyApplied)
    else if m.lastLedger > 0 && ledger <= m.lastLedger then UnexpectedLedger
    else Applied
  }

  ghost function Next(m: Machine, e: Event): Machine {
    match e
    case QueueEvent(op) => m.(operations := m.operations + [op])
    case DiscardEvent => m.(operations := [], committed := false)
    case ClearEvent => INITIAL
    case ApplyEvent(ledger) =>
      if OutcomeOf(m, ledger) == Applied
      then Machine(ApplyOperations(m.book, m.operations), ledger, [], false)
      else m.(committed := true)
  }

  ghost function Run(events: seq<Event>): Machine {
    if events == [] then INITIAL else Next(Run(events[..|events|-1]), events[|events|-1])
  }

  /** The outcomes of the applications of a run. */
  ghost function Outcomes(events: seq<Event>): seq<Outcome> {
    if events == [] then [] else
    var before, last := events[..|events|-1], events[|events|-1];
    Outcomes(before) + if last.ApplyEvent? then [OutcomeOf(Run(before), last.ledger)] else []
  }

  ghost function Observed(graph: OrderBookGraph): Machine
    reads graph
  {
    Machine(graph.book, graph.lastLedger, graph.operations, graph.committed)
  }

  /** Driving a graph through any run keeps its tables consistent and in step with the machine. */
  method Drive(events: seq<Event>) returns (graph: OrderBookGraph, outcomes: seq<Outcome>)
    requires forall i :: 0 <= i < |events| ==> ValidEvent(events[i])
    ensures fresh(graph) && graph.Valid()
    ensures Observed(graph) == Run(events) && outcomes == Outcomes(events)
  {
    hide Represents, ApplyOperation;
    graph := new OrderBookGraph();
    outcomes := [];
    for i := 0 to |events|
      invariant fresh(graph) && graph.Valid()
      invariant Observed(graph) == Run(events[..i]) && outcomes == Outcomes(events[..i])
    {
      assert events[..i + 1][..i] == events[..i] && ValidEvent(events[i]);
      match events[i] {
        case QueueEvent(op) => graph.QueueOperation(op);
        case DiscardEvent => graph.Discard();
        case ClearEvent => graph.Clear();
        case ApplyEvent(ledger) =>
          var outcome := graph.Apply(ledger);
          outcomes := outcomes + [outcome];
      }
    }
    assert events[..|events|] == events;
  }

  // ---------- the ledger of a run ----------

  /** The ledgers of the batches applied since the graph was last cleared. */
  ghost function AppliedLedgers(events: seq<Event>): seq<nat> {
    if events == [] then [] else
    var before, last := events[..|events|-1], events[|events|-1];
    match last
    case ClearEvent => []
    case ApplyEvent(ledger) =>
      AppliedLedgers(before) + if OutcomeOf(Run(before), ledger) == Applied then [ledger] else []
    case _ => AppliedLedgers(before)
  }

  /** The operations of those batches. */
  ghost function AppliedOperations(events: seq<Event>): seq<Operation> {
    if events == [] then [] else
    var before, last := events[..|events|-1], events[|events|-1];
    match last
    case ClearEvent => []
    case ApplyEvent(ledger) =>
      AppliedOperations(before) + if OutcomeOf(Run(before), ledger) == Applied then Run(before).operations else []
    case _ => AppliedOperations(before)
  }

  ghost predicate Rising(ledgers: seq<nat>) {
    forall i, j :: 0 <= i < j < |ledgers| ==> ledgers[i] < ledgers[j]
  }

  /** Each ledger exceeds all earlier ones, except that ledger 0 may come again after ledger 0. */
  ghost predicate RisingFromZero(ledgers: seq<nat>) {
    forall i, j :: 0 <= i < j < |ledgers| ==> ledgers[i] < ledgers[j] || (ledgers[i] == 0 && ledgers[j] == 0)
  }

  lemma OneMoreLedger(ledgers: seq<nat>, ledger: nat)
    requires RisingFromZero(ledgers)
    requires ledgers != [] && ledgers[|ledgers|-1] > 0 ==> ledger > ledgers[|ledgers|-1]
    ensures RisingFromZero(ledgers + [ledger])
  {
    if ledgers != [] {
      var n := |ledgers| - 1;
      forall i | 0 <= i < |ledgers|
        ensures ledgers[i] < ledger || (ledgers[i] == 0 && ledger == 0)
      {
        assert i < n ==> ledgers[i] < ledgers[n] || (ledgers[i] == 0 && ledgers[n] == 0);
      }
    }
  }

  /** The ledgers of the applied batches rise so in every run, and the graph keeps the last of them. */
  lemma {:induction false} LedgersRise(events: seq<Event>)
    ensures RisingFromZero(AppliedLedgers(events))
    ensures var ledgers := AppliedLedgers(events);
      Run(events).lastLedger == (if ledgers == [] then 0 else ledgers[|ledgers|-1])
    decreases |events|
  {
    hide ApplyOperations, RisingFromZero;
    if events == [] {
      NoLedgers();
    } else {
      var before, last := events[..|events|-1], events[|events|-1];
      LedgersRise(before);
      NoLedgers();
      if last.ApplyEvent? && OutcomeOf(Run(before), last.ledger) == Applied {
        OneMoreLedger(AppliedLedgers(before), last.ledger);
      } else {
        assert AppliedLedgers(before) + [] == AppliedLedgers(before);
      }
    }
  }

  lemma NoLedgers()
    ensures RisingFromZero([])
  {
  }

  /** So the ledgers strictly increase exactly when ledger 0 was applied at most once. */
  lemma LedgersRiseStrictly(events: seq<Event>)
    ensures var ledgers := AppliedLedgers(events);
      Rising(ledgers) <==> |ledgers| < 2 || ledgers[1] != 0
  {
    LedgersRise(events);
    var ledgers := AppliedLedgers(events);
    assert |ledgers| >= 2 && Rising(ledgers) ==> ledgers[0] < ledgers[1];
    if |ledgers| >= 2 && ledgers[1] != 0 {
      forall i, j | 0 <= i < j < |ledgers|
        ensures ledgers[i] < ledgers[j]
      {
        assert j > 1 ==> ledgers[1] < ledgers[j];
      }
    }
  }

  /** Applying ledger 0 twice to a new graph succeeds twice. */
  lemma LedgerZeroRepeats()
    ensures var events := [ApplyEvent(0), ApplyEvent(0)];
      Outcomes(events) == [Applied, Applied] && AppliedLedgers(events) == [0, 0]
  {
    var a := ApplyEvent(0);
    assert [a, a][..1] == [a] && [a][..0] == [];
    assert Run([]) == INITIAL && Run([a]) == INITIAL;
    assert Outcomes([a]) == [Applied] && AppliedLedgers([a]) == [0];
  }

  // ---------- panics ----------

  /** Event i is an application refused for its ledger, and the batch was not dropped since. */
  ghost predicate RefusedAt(events: seq<Event>, i: nat) {
    && i < |events| && events[i].ApplyEvent?
    && OutcomeOf(Run(events[..i]), events[i].ledger) == UnexpectedLedger
    && forall j :: i < j < |events| ==> !events[j].DiscardEvent? && !events[j].ClearEvent?
  }

  lemma RefusalShorter(events: seq<Event>, i: nat)
    requires events != [] && i < |events| - 1
    ensures RefusedAt(events, i) <==>
      RefusedAt(events[..|events|-1], i) && !events[|events|-1].DiscardEvent? && !events[|events|-1].ClearEvent?
  {
    var before := events[..|events|-1];
    assert before[..i] == events[..i] && before[i] == events[i];
    assert forall j :: i < j < |before| ==> before[j] == events[j];
  }

  /**
   * An application panics exactly when an earlier one was refused and the batch was neither
   * discarded nor cleared since. No run panics because an offer is missing.
   */
  lemma {:induction false} PanicsAfterRefusal(events: seq<Event>)
    ensures Run(events).committed <==> exists i :: RefusedAt(events, i)
    decreases |events|
  {
    if events != [] {
      var n := |events| - 1;
      var before := events[..n];
      PanicsAfterRefusal(before);
      forall i: nat | i < n
        ensures RefusedAt(events, i) <==> RefusedAt(before, i) && !events[n].DiscardEvent? && !events[n].ClearEvent?
      {
        RefusalShorter(events, i);
      }
      if exists i :: RefusedAt(before, i) {
        var i :| RefusedAt(before, i);
        assert RefusedAt(events, i) <==> !events[n].DiscardEvent? && !events[n].ClearEvent?;
      }
      assert RefusedAt(events, n) <==>
        events[n].ApplyEvent? && OutcomeOf(Run(before), events[n].ledger) == UnexpectedLedger;
    }
  }

  /** A batch refused for its ledger, and not discarded, makes the next application panic. */
  lemma RefusedBatchPanics()
    ensures Outcomes([ApplyEvent(1), ApplyEvent(1), ApplyEvent(2)])
      == [Applied, UnexpectedLedger, Panicked(BatchAlreadyApplied)]
  {
    hide ApplyOperation, Run, Outcomes;
    var a, b := ApplyEvent(1), ApplyEvent(2);
    assert Run([]) == INITIAL && Outcomes([]) == [] by {
      NothingRun();
    }
    OneMore([], 1);
    assert [] + [a] == [a] && Run([a]) == INITIAL.(lastLedger := 1);
    OneMore([a], 1);
    assert [a] + [a] == [a, a] && Run([a, a]) == INITIAL.(lastLedger := 1, committed := true);
    OneMore([a, a], 2);
    assert [a, a] + [b] == [a, a, b];
  }

  lemma NothingRun()
    ensures Run([]) == INITIAL && Outcomes([]) == []
  {
  }

  /** One more application at the end of a run. */
  lemma OneMore(events: seq<Event>, ledger: nat)
    ensures var all := events + [ApplyEvent(ledger)];
      && Run(all) == Next(Run(events), ApplyEvent(ledger))
      && Outcomes(all) == Outcomes(events) + [OutcomeOf(Run(events), ledger)]
  {
    hide Next, OutcomeOf;
    assert (events + [ApplyEvent(ledger)])[..|events|] == events;
  }

  // ---------- the book of a run ----------

  lemma {:induction false} OperationsConcat(book: Book, a: seq<Operation>, b: seq<Operation>)
    ensures ApplyOperations(book, a + b) == ApplyOperations(ApplyOperations(book, a), b)
    decreases |b|
  {
    if b == [] {
      assert a + b == a;
    } else {
      OperationsConcat(book, a, b[..|b|-1]);
      assert (a + b)[..|a + b|-1] == a + b[..|b|-1];
    }
  }

  /** The book is the fold of the operations applied since the last clear. */
  lemma {:induction false} BookIsFold(events: seq<Event>)
    ensures Run(events).book == ApplyOperations(EMPTY_BOOK, AppliedOperations(events))
    decreases |events|
  {
    hide ApplyOperation;
    if events != [] {
      var before := events[..|events|-1];
      BookIsFold(before);
      OperationsConcat(EMPTY_BOOK, AppliedOperations(before), Run(before).operations);
      assert AppliedOperations(before) + [] == AppliedOperations(before);
    }
  }

  // ---------- the simple maps ----------

  ghost function FoldOffers(ops: seq<Operation>): map<int, Offer> {
    if ops == [] then map[] else
    var before := FoldOffers(ops[..|ops|-1]);
    match ops[|ops|-1]
    case AddOfferOp(o) => before[o.id := o]
    case RemoveOfferOp(id) => before - {id}
    case _ => before
  }

  ghost function FoldPools(ops: seq<Operation>): map<(Asset, Asset), Pool> {
    if ops == [] then map[] else
    var before := FoldPools(ops[..|ops|-1]);
    match ops[|ops|-1]
    case AddPoolOp(p) => before[(p.assetA, p.assetB) := p]
    case RemovePoolOp(p) => before - {(p.assetA, p.assetB)}
    case _ => before
  }

  /** The book holds exactly the simple maps that the operations fold to. */
  lemma {:induction false} BookIsSimpleMaps(ops: seq<Operation>)
    requires forall i :: 0 <= i < |ops| ==> ValidOperation(ops[i])
    ensures var book := ApplyOperations(EMPTY_BOOK, ops);
      ValidLive(book.live) && OfferMap(book.live) == FoldOffers(ops) && book.pools == FoldPools(ops)
    decreases |ops|
  {
    if ops != [] {
      var before, op := ops[..|ops|-1], ops[|ops|-1];
      BookIsSimpleMaps(before);
      assert ValidOperation(op);
      SimpleStep(ApplyOperations(EMPTY_BOOK, before), op);
    }
  }

  lemma SimpleStep(book: Book, op: Operation)
    requires ValidLive(book.live) && ValidOperation(op)
    ensures ValidLive(ApplyOperation(book, op).live)
    ensures OfferMap(ApplyOperation(book, op).live) ==
      match op
      case AddOfferOp(o) => OfferMap(book.live)[o.id := o]
      case RemoveOfferOp(id) => OfferMap(book.live) - {id}
      case _ => OfferMap(book.live)
  {
    match op
    case AddOfferOp(o) =>
      WithoutValid(book.live, o.id);
      OfferMapWithout(book.live, o.id);
      var rest := Without(book.live, o.id);
      ExtendValid(rest, o);
      assert (rest + [o])[..|rest|] == rest;
    case RemoveOfferOp(id) =>
      WithoutValid(book.live, id);
      OfferMapWithout(book.live, id);
    case AddPoolOp(_) =>
    case RemovePoolOp(_) =>
  }

  ghost predicate ValidOperations(ops: seq<Operation>) {
    forall i :: 0 <= i < |ops| ==> ValidOperation(ops[i])
  }

  lemma {:induction false} RunStaysValid(events: seq<Event>)
    requires forall i :: 0 <= i < |events| ==> ValidEvent(events[i])
    ensures ValidOperations(Run(events).operations) && ValidOperations(AppliedOperations(events))
    decreases |events|
  {
    if events != [] {
      RunStaysValid(events[..|events|-1]);
      assert ValidEvent(events[|events|-1]);
    }
  }

  /** After every run, the book is the pair of maps folded from the operations of the applied batches. */
  lemma RunIsSimpleMaps(events: seq<Event>)
    requires forall i :: 0 <= i < |events| ==> ValidEvent(events[i])
    ensures var book := Run(events).book;
      && ValidLive(book.live)
      && OfferMap(book.live) == FoldOffers(AppliedOperations(events))
      && book.pools == FoldPools(AppliedOperations(events))
  {
    hide ApplyOperations, FoldOffers, FoldPools, Run, AppliedOperations;
    RunStaysValid(events);
    BookIsFold(events);
    BookIsSimpleMaps(AppliedOperations(events));
  }

  /** After every run the graph passes its consistency check, which returns exactly the offers of the simple map. */
  method DriveAndVerify(events: seq<Event>) returns (ok: bool, offers: seq<Offer>)
    requires forall i :: 0 <= i < |events| ==> ValidEvent(events[i])
    ensures ok && DistinctIds(offers)
    ensures var held := FoldOffers(AppliedOperations(events));
      forall o: Offer :: o in offers <==> o.id in held && held[o.id] == o
  {
    hide Represents, ValidEvent, Run, FoldOffers, FoldPools, AppliedOperations, DistinctIds, OfferMap;
    hide GraphVerification.Passes, GraphVerification.TableOffers, GraphVerification.PoolsNoted;
    var graph, _ := Drive(events);
    var pools;
    GraphVerification.RepresentedPasses(graph.State(), graph.book);
    ok, offers, pools := GraphVerification.Verify(graph.State());
    RunIsSimpleMaps(events);
    LiveIsDistinct(graph.book.live);
    forall o: Offer
      ensures o in graph.book.live <==> o.id in OfferMap(graph.book.live) && OfferMap(graph.book.live)[o.id] == o
    {
      OfferMapMembers(graph.book.live, o);
    }
  }

  /** An offer is listed in the graph's tables, in the cell of its two assets, exactly when the map holds it. */
  lemma TablesHoldTheMap(g: Graph, book: Book, o: Offer)
    requires Represents(g, book, {})
    ensures |g.selling| == |g.buying| == |g.names|
    ensures (o.id in OfferMap(book.live) && OfferMap(book.live)[o.id] == o) <==>
      && o.selling in g.ids && o.buying in g.ids
      && g.ids[o.selling] < |g.names| && g.ids[o.buying] < |g.names|
      && o in OffersAt(g.selling[g.ids[o.selling]], g.ids[o.buying])
  {
    hide *;
    Parts(g, book, {});
    LiveIsDistinct(book.live);
    OfferMapMembers(book.live, o);
    if o in book.live {
      MentionedHaveIds(g, book, o);
    }
    if o.selling in g.ids && o.buying in g.ids {
      IdInRange(g, book, {}, o.selling);
      IdInRange(g, book, {}, o.buying);
      NameOf(g, book, o.selling);
      NameOf(g, book, o.buying);
      var s, b := g.ids[o.selling], g.ids[o.buying];
      Cell(g, book, {}, s, b);
      ListedMembers(book.live, g.names[s], g.names[b], o);
      TradesOwn(o);
    }
  }

  lemma LiveIsDistinct(live: seq<Offer>)
    requires ValidLive(live)
    ensures DistinctIds(live)
  {
  }

  lemma TradesOwn(o: Offer)
    ensures Trades(o, Some(o.selling), Some(o.buying))
  {
  }

  lemma MentionedHaveIds(g: Graph, book: Book, o: Offer)
    requires Represents(g, book, {}) && o in book.live
    ensures o.selling in g.ids && o.buying in g.ids
  {
    hide *;
    Parts(g, book, {});
    GraphVerification.PairOf(g.ids, g.pairs, book.live, o);
  }
}
