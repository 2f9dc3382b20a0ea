/** Reading all changes of one ledger, and reading them compacted (ingest/ledger_change_reader.go). */
module LedgerChangeReader {
  import opened Common
  import opened Changes

  /** Transaction metadata by version; operations come as one group of raw changes each. */
  datatype TransactionMeta =
    | V0
    | V1(txChanges: seq<RawChange>, operations: seq<seq<RawChange>>)
    | V2(before: seq<RawChange>, operations: seq<seq<RawChange>>, after: seq<RawChange>)
    | V3(before: seq<RawChange>, operations: seq<seq<RawChange>>, after: seq<RawChange>)
    | Unsupported

  datatype Transaction = Transaction(feeChanges: seq<RawChange>, meta: TransactionMeta, internalError: bool,
    ledgerVersion: nat)

  datatype ReadError = UnsupportedMeta | Compaction(error: CompactError)

  /** The groups of raw changes that count, in order; None for metadata that cannot be read. */
  function Groups(t: Transaction): Option<seq<seq<RawChange>>> {
    var skipOperations := t.internalError && t.ledgerVersion <= 12;
    match t.meta
    case V0 => None
    case V1(changes, operations) => Some(if skipOperations then [changes] else [changes] + operations)
    case V2(before, operations, after) => Some(if skipOperations then [before] else [before] + operations + [after])
    case V3(before, operations, after) => Some(if skipOperations then [before] else [before] + operations + [after])
    case Unsupported => None
  }

  ghost predicate ValidGroups(groups: seq<seq<RawChange>>) {
    forall i :: 0 <= i < |groups| ==> StatesPresent(groups[i])
  }

  /** Every update and removal in the metadata follows a state record; the source panics otherwise. */
  ghost predicate ValidTransaction(t: Transaction) {
    StatesPresent(t.feeChanges) && (Groups(t).Some? ==> ValidGroups(Groups(t).value))
  }

  ghost function Concat(groups: seq<seq<RawChange>>): seq<Change> {
    if groups == [] then [] else Concat(groups[..|groups|-1]) + Transformed(groups[|groups|-1])
  }

  /** The changes of a transaction's metadata, group after group. */
  method GetChanges(t: Transaction) returns (r: Result<seq<Change>, ReadError>)
    requires ValidTransaction(t)
    ensures r == if Groups(t).Some? then Ok(Concat(Groups(t).value)) else Err(UnsupportedMeta)
  {
    var groups := Groups(t);
    if groups.None? {
      return Err(UnsupportedMeta);
    }
    var changes: seq<Change> := [];
    for i := 0 to |groups.value|
      invariant changes == Concat(groups.value[..i])
    {
      assert groups.value[..i+1][..i] == groups.value[..i];
      var c := GetChangesFromLedgerEntryChanges(groups.value[i]);
      changes := changes + c.value;
    }
    assert groups.value[..|groups.value|] == groups.value;
    r := Ok(changes);
  }

  /** An internal error before protocol 13 voids everything but the first group. */
  predicate OnlyFirst(t: Transaction) {
    t.internalError && t.ledgerVersion <= 12
  }

  /**
   * By version: the transaction's own changes come first, then those of each operation in order, then, from
   * version 2 on, the changes after them. Version 0 and unknown versions cannot be read.
   */
  lemma ChangesByVersion(t: Transaction)
    ensures Groups(t).None? <==> t.meta.V0? || t.meta.Unsupported?
    ensures Groups(t).Some? && OnlyFirst(t) ==>
      Concat(Groups(t).value) == Transformed(if t.meta.V1? then t.meta.txChanges else t.meta.before)
    ensures t.meta.V1? && !OnlyFirst(t) ==>
      Concat(Groups(t).value) == Transformed(t.meta.txChanges) + Concat(t.meta.operations)
    ensures (t.meta.V2? || t.meta.V3?) && !OnlyFirst(t) ==>
      Concat(Groups(t).value) == Transformed(t.meta.before) + Concat(t.meta.operations) + Transformed(t.meta.after)
  {
    hide Transformed, Concat;
    if t.meta.V1? {
      ConcatOne(t.meta.txChanges);
      ConcatAppend([t.meta.txChanges], t.meta.operations);
    } else if t.meta.V2? || t.meta.V3? {
      ConcatOne(t.meta.before);
      ConcatOne(t.meta.after);
      ConcatAppend([t.meta.before], t.meta.operations);
      ConcatAppend([t.meta.before] + t.meta.operations, [t.meta.after]);
    }
  }

  // ---------- what a reader still has to deliver ----------

  datatype Event = Item(change: Change) | Fail

  ghost function Items(cs: seq<Change>): (r: seq<Event>)
    ensures |r| == |cs| && forall i :: 0 <= i < |cs| ==> r[i] == Item(cs[i])
  {
    seq(|cs|, i requires 0 <= i < |cs| => Item(cs[i]))
  }

  ghost function FeeEvents(txs: seq<Transaction>): seq<Event> {
    if txs == [] then [] else Items(Transformed(txs[0].feeChanges)) + FeeEvents(txs[1..])
  }

  ghost function MetaEventsOf(t: Transaction): seq<Event> {
    if Groups(t).Some? then Items(Concat(Groups(t).value)) else [Fail]
  }

  ghost function MetaEvents(txs: seq<Transaction>): seq<Event> {
    if txs == [] then [] else MetaEventsOf(txs[0]) + MetaEvents(txs[1..])
  }

  /** An evicted entry is removed from the ledger. */
  function Evictions(entries: seq<Entry>): (r: seq<Change>)
    ensures |r| == |entries| && AllKeyed(r)
  {
    seq(|entries|, i requires 0 <= i < |entries| => Change(Some(entries[i]), None))
  }

  ghost function UpgradeEvents(upgrades: seq<seq<RawChange>>): seq<Event> {
    if upgrades == [] then [] else Items(Transformed(upgrades[0])) + UpgradeEvents(upgrades[1..])
  }

  datatype Phase = FeeChanges | MetaChanges | EvictionChanges | UpgradeChanges

  datatype Reading = Next(change: Change) | EndOfStream | Failed(error: ReadError)

  /** One call takes the first remaining event; when none is left it reports the end and changes nothing. */
  ghost predicate Delivers(before: seq<Event>, r: Reading, after: seq<Event>) {
    if before == [] then r == EndOfStream && after == []
    else after == before[1..] && r == if before[0].Item? then Next(before[0].change) else Failed(UnsupportedMeta)
  }

  class LedgerChangeReader {
    const transactions: seq<Transaction>
    const evicted: seq<Entry>
    const upgrades: seq<seq<RawChange>>
    var readIdx: nat
    var state: Phase
    var pending: seq<Change>
    var pendingIndex: nat
    var upgradeIndex: nat

    constructor (transactions: seq<Transaction>, evicted: seq<Entry>, upgrades: seq<seq<RawChange>>)
      requires forall i :: 0 <= i < |transactions| ==> ValidTransaction(transactions[i])
      requires ValidGroups(upgrades)
      ensures Valid()
      ensures Remaining() == FeeEvents(transactions) + MetaEvents(transactions)
                           + Items(StableSort(Evictions(evicted))) + UpgradeEvents(upgrades)
    {
      this.transactions, this.evicted, this.upgrades := transactions, evicted, upgrades;
      readIdx, state, pending, pendingIndex, upgradeIndex := 0, FeeChanges, [], 0, 0;
      new;
      hide FeeEvents, MetaEvents, UpgradeEvents, StableSort, Evictions, Items, ValidTransaction, ValidGroups;
      assert pending[pendingIndex..] == [] && transactions[0..] == transactions;
      NothingPending(Upcoming());
    }

    ghost predicate Valid()
      reads this
    {
      && (forall i :: 0 <= i < |transactions| ==> ValidTransaction(transactions[i])) && ValidGroups(upgrades)
      && (pendingIndex < |pending| || (pendingIndex == 0 && pending == []))
      && readIdx <= |transactions| && upgradeIndex <= |upgrades|
      && (state != UpgradeChanges ==> upgradeIndex == 0)
    }

    /** What follows the changes that are already pending. */
    ghost function Upcoming(): seq<Event>
      reads this
      requires Valid()
    {
      var evictions := Items(StableSort(Evictions(evicted)));
      match state
      case FeeChanges =>
        FeeEvents(transactions[readIdx..]) + MetaEvents(transactions) + evictions + UpgradeEvents(upgrades)
      case MetaChanges => MetaEvents(transactions[readIdx..]) + evictions + UpgradeEvents(upgrades)
      case EvictionChanges => evictions + UpgradeEvents(upgrades)
      case UpgradeChanges => UpgradeEvents(upgrades[upgradeIndex..])
    }

    ghost function Remaining(): seq<Event>
      reads this
      requires Valid()
    {
      Items(pending[pendingIndex..]) + Upcoming()
    }

    ghost function Rank(): nat
      reads this
    {
      match state case FeeChanges => 3 case MetaChanges => 2 case EvictionChanges => 1 case UpgradeChanges => 0
    }

    /** The next transaction, if any is left before the end of the ledger. */
    method ReadTransaction() returns (t: Option<Transaction>)
      requires Valid()
      modifies this`readIdx
      ensures Valid()
      ensures if old(readIdx) < |transactions| then t == Some(transactions[old(readIdx)]) && readIdx == old(readIdx) + 1
              else t == None && readIdx == old(readIdx)
    {
      if readIdx < |transactions| {
        readIdx := readIdx + 1;
        return Some(transactions[readIdx - 1]);
      }
      return None;
    }

    method Rewind()
      modifies this`readIdx
      ensures readIdx == 0
    {
      readIdx := 0;
    }

    /**
     * Delivers the next event; once nothing remains, every call reports the end. The recursion ends for
     * any mix of transactions and phases without changes.
     */
    method Read() returns (r: Reading)
      requires Valid()
      modifies this
      ensures Valid() && Delivers(old(Remaining()), r, Remaining())
      decreases Rank(), |transactions| - readIdx, |upgrades| - upgradeIndex, 1
    {
      hide FeeEvents, MetaEvents, UpgradeEvents, StableSort, Evictions, Items;
      if pendingIndex < |pending| {
        var next := pending[pendingIndex];
        ghost var before := pending[pendingIndex..];
        pendingIndex := pendingIndex + 1;
        if pendingIndex == |pending| {
          pendingIndex := 0;
          pending := [];
        }
        assert pending[pendingIndex..] == before[1..];
        ItemsTail(before, Upcoming());
        return Next(next);
      }
      assert pending[pendingIndex..] == [];
      NothingPending(Upcoming());
      match state {
        case FeeChanges => r := ReadFee();
        case MetaChanges => r := ReadMeta();
        case EvictionChanges => r := ReadEvictions();
        case UpgradeChanges => r := ReadUpgrade();
      }
    }

    /** Appends changes to the empty list of pending ones and reads on. */
    method Enqueue(changes: seq<Change>, ghost before: seq<Event>) returns (r: Reading)
      requires Valid() && pending == [] && before == Items(changes) + Upcoming()
      modifies this
      ensures Valid() && Delivers(before, r, Remaining())
      decreases Rank(), |transactions| - readIdx, |upgrades| - upgradeIndex, 2
    {
      hide FeeEvents, MetaEvents, UpgradeEvents, StableSort, Evictions, Items, Delivers;
      pending := pending + changes;
      assert pending[pendingIndex..] == changes;
      r := Read();
    }

    method ReadFee() returns (r: Reading)
      requires Valid() && pending == [] && state == FeeChanges
      modifies this
      ensures Valid() && Delivers(old(Upcoming()), r, Remaining())
      decreases Rank(), |transactions| - readIdx, |upgrades| - upgradeIndex, 0
    {
      hide MetaEvents, UpgradeEvents, StableSort, Evictions, Items, Delivers, Transformed;
      ghost var before := Upcoming();
      ghost var rest := transactions[readIdx..];
      var t := ReadTransaction();
      if t.None? {
        Rewind();
        state := MetaChanges;
        assert transactions[0..] == transactions;
        NoEvents(Upcoming());
        Empty();
        r := Enqueue([], before);
      } else {
        var changes := GetChangesFromLedgerEntryChanges(t.value.feeChanges);
        assert rest[1..] == transactions[readIdx..];
        Regroup(Items(changes.value), FeeEvents(transactions[readIdx..]), MetaEvents(transactions),
                Items(StableSort(Evictions(evicted))), UpgradeEvents(upgrades));
        r := Enqueue(changes.value, before);
      }
    }

    method ReadMeta() returns (r: Reading)
      requires Valid() && pending == [] && state == MetaChanges
      modifies this
      ensures Valid() && Delivers(old(Upcoming()), r, Remaining())
      decreases Rank(), |transactions| - readIdx, |upgrades| - upgradeIndex, 0
    {
      hide FeeEvents, UpgradeEvents, StableSort, Evictions, Items, Concat, Groups;
      ghost var before := Upcoming();
      ghost var rest := transactions[readIdx..];
      var t := ReadTransaction();
      if t.None? {
        state := EvictionChanges;
        NoEvents(Upcoming());
        Empty();
        r := Enqueue([], before);
      } else {
        assert rest[1..] == transactions[readIdx..];
        var changes := GetChanges(t.value);
        Regroup(MetaEventsOf(t.value), MetaEvents(transactions[readIdx..]), [],
                Items(StableSort(Evictions(evicted))), UpgradeEvents(upgrades));
        match changes {
          case Err(e) =>
            assert pending[pendingIndex..] == [];
            NothingPending(Upcoming());
            return Failed(e);
          case Ok(cs) => r := Enqueue(cs, before);
        }
      }
    }

    method ReadEvictions() returns (r: Reading)
      requires Valid() && pending == [] && state == EvictionChanges
      modifies this
      ensures Valid() && Delivers(old(Upcoming()), r, Remaining())
      decreases Rank(), |transactions| - readIdx, |upgrades| - upgradeIndex, 0
    {
      hide FeeEvents, MetaEvents, UpgradeEvents, StableSort, Items, Delivers;
      ghost var before := Upcoming();
      var changes := new Change[|evicted|](i requires 0 <= i < |evicted| => Change(Some(evicted[i]), None));
      assert changes[..] == Evictions(evicted);
      SortChanges(changes);
      state := UpgradeChanges;
      assert upgrades[0..] == upgrades;
      r := Enqueue(changes[..], before);
    }

    method ReadUpgrade() returns (r: Reading)
      requires Valid() && pending == [] && state == UpgradeChanges
      modifies this
      ensures Valid() && Delivers(old(Upcoming()), r, Remaining())
      decreases Rank(), |transactions| - readIdx, |upgrades| - upgradeIndex, 0
    {
      hide FeeEvents, MetaEvents, StableSort, Evictions, Items, Transformed;
      ghost var before := Upcoming();
      ghost var rest := upgrades[upgradeIndex..];
      if upgradeIndex < |upgrades| {
        var changes := GetChangesFromLedgerEntryChanges(upgrades[upgradeIndex]);
        upgradeIndex := upgradeIndex + 1;
        assert rest[1..] == upgrades[upgradeIndex..];
        r := Enqueue(changes.value, before);
      } else {
        assert pending[pendingIndex..] == [];
        NothingPending(Upcoming());
        r := EndOfStream;
      }
    }
  }

  lemma NoEvents(rest: seq<Event>)
    ensures [] + rest == rest
  {
  }

  lemma Empty()
    ensures Items([]) == [] && FeeEvents([]) == [] && MetaEvents([]) == []
  {
  }

  lemma Regroup(a: seq<Event>, b: seq<Event>, c: seq<Event>, d: seq<Event>, e: seq<Event>)
    ensures (a + b) + c + d + e == a + (b + c + d + e)
    ensures c == [] ==> (a + b) + d + e == a + (b + d + e)
  {
  }

  lemma ItemsTail(cs: seq<Change>, rest: seq<Event>)
    requires cs != []
    ensures (Items(cs) + rest)[0] == Item(cs[0]) && (Items(cs) + rest)[1..] == Items(cs[1..]) + rest
  {
  }

  lemma NothingPending(rest: seq<Event>)
    ensures Items([]) + rest == rest
  {
  }

  // ---------- the compacting reader ----------

  ghost predicate AllItems(events: seq<Event>) {
    forall i :: 0 <= i < |events| ==> events[i].Item?
  }

  /** The changes in a stream without failures. */
  ghost function Log(events: seq<Event>): (r: seq<Change>)
    requires AllItems(events)
    ensures |r| == |events| && forall i :: 0 <= i < |r| ==> r[i] == events[i].change
  {
    seq(|events|, i requires 0 <= i < |events| => events[i].change)
  }

  /** A stream that can be compacted: it neither fails nor contradicts itself. */
  ghost predicate Compactable(events: seq<Event>) {
    AllItems(events) && Compact(map[], Log(events)).Some?
  }

  /** The compacted changes of a stream, in some order. */
  ghost predicate CompactedFrom(events: seq<Event>, out: seq<Change>) {
    Compactable(events) &&
    (AllWellFormed(Log(events)) ==> AllWellFormed(out) && Holds(Compact(map[], Log(events)).value, out))
  }

  class CompactingChangeReader {
    const input: LedgerChangeReader
    var changes: seq<Change>
    var compacted: bool

    constructor (input: LedgerChangeReader)
      ensures this.input == input && !compacted && changes == []
    {
      this.input := input;
      changes, compacted := [], false;
    }

    /** Drains the input into a compactor; an error leaves the reader to start over on what is left of the input. */
    method CompactInput() returns (error: Option<ReadError>)
      requires input.Valid()
      modifies this, input
      ensures input.Valid()
      ensures error.None? <==> Compactable(old(input.Remaining()))
      ensures error.None? ==> compacted && input.Remaining() == [] && CompactedFrom(old(input.Remaining()), changes)
      ensures error.Some? ==> compacted == old(compacted) && changes == old(changes)
    {
      hide Merged, Accepts, Compact, ValidTransaction, ValidGroups, Holds, AllWellFormed, WellKeyedCache;
      hide FeeEvents, MetaEvents, UpgradeEvents, StableSort, Evictions, Items, LedgerChangeReader.Upcoming;
      EmptyLog();
      var compactor := new ChangeCompactor();
      ghost var all := input.Remaining();
      ghost var done: seq<Change> := [];
      assert all[0..] == all;
      while true
        invariant input.Valid() && fresh(compactor)
        invariant |done| <= |all| && input.Remaining() == all[|done|..]
        invariant AllItems(all[..|done|]) && done == Log(all[..|done|])
        invariant Compact(map[], done) == Some(compactor.cache)
        invariant forall k :: k in compactor.cache ==> HasSide(compactor.cache[k])
        invariant compacted == old(compacted) && changes == old(changes)
        decreases |all| - |done|
      {
        ghost var rest := input.Remaining();
        var r := input.Read();
        match r {
          case EndOfStream =>
            assert all[..|done|] == all;
            break;
          case Failed(e) =>
            assert all[|done|] == Fail;
            return Some(e);
          case Next(change) =>
            assert all[|done|] == Item(change);
            CompactAppend(map[], done, change);
            ghost var more := done + [change];
            assert all[..|more|] == all[..|done|] + [all[|done|]];
            assert more == Log(all[..|more|]);
            var refused := compactor.AddChange(change);
            if refused.Some? {
              RefusedForGood(all, |more|);
              return Some(Compaction(refused.value));
            }
            done := more;
        }
      }
      WellKeyed(done);
      changes := compactor.GetChanges();
      compacted := true;
      return None;
    }

    /**
     * Reads from the compacted changes, compacting the input on the first call. `all` is the whole
     * compacted list of which this call delivers the first element that is left.
     */
    method Read() returns (r: Reading, ghost all: seq<Change>)
      requires input.Valid()
      modifies this, input
      ensures input.Valid()
      ensures old(compacted) ==> all == old(changes)
      ensures !old(compacted) && Compactable(old(input.Remaining())) ==> CompactedFrom(old(input.Remaining()), all)
      ensures !old(compacted) && !Compactable(old(input.Remaining())) ==> r.Failed? && !compacted
      ensures old(compacted) || Compactable(old(input.Remaining())) ==>
                && compacted
                && (if all == [] then r == EndOfStream && changes == [] else r == Next(all[0]) && changes == all[1..])
    {
      hide Compactable, CompactedFrom, ValidTransaction, ValidGroups;
      all := changes;
      if !compacted {
        var error := CompactInput();
        match error {
          case Some(e) => return Failed(e), all;
          case None =>
        }
        all := changes;
      }
      if |changes| == 0 {
        return EndOfStream, all;
      }
      var change := changes[0];
      changes := changes[1..];
      return Next(change), all;
    }
  }

  lemma EmptyLog()
    ensures Compact(map[], []) == Some(map[])
  {
  }

  lemma RefusedForGood(all: seq<Event>, n: nat)
    requires n <= |all| && AllItems(all[..n]) && Compact(map[], Log(all[..n])).None?
    ensures !Compactable(all)
  {
    if AllItems(all) {
      var a, b := Log(all[..n]), Log(all[n..]);
      assert Log(all) == a + b;
      CompactPrefix(map[], a, b);
    }
  }

  /**
   * A ledger whose changes fit the state before it is read compacted without error, and what comes out
   * is one change per entry, from the old value to the new one, with the effect of the whole ledger.
   */
  lemma CompactedReading(s: Store, events: seq<Event>, out: seq<Change>)
    requires AllItems(events) && ValidLog(s, Log(events))
    ensures Compactable(events)
    ensures CompactedFrom(events, out) ==>
              && AllWellFormed(out) && ValidLog(s, out) && Apply(s, out) == Apply(s, Log(events))
              && (forall i, j :: 0 <= i < j < |out| ==> KeyOf(out[i]) != KeyOf(out[j]))
  {
    CompactLog(s, s, map[], Log(events));
    ValidLogWellFormed(s, Log(events));
    if CompactedFrom(events, out) {
      CompactionPreservesMeaning(s, Log(events), out);
    }
  }

  // ---------- from the raw records of a ledger to its effect ----------

  /** Every transaction has metadata of a version that can be read. */
  ghost predicate Readable(txs: seq<Transaction>) {
    forall i :: 0 <= i < |txs| ==> Groups(txs[i]).Some?
  }

  ghost function FeeGroups(txs: seq<Transaction>): seq<seq<RawChange>> {
    if txs == [] then [] else [txs[0].feeChanges] + FeeGroups(txs[1..])
  }

  ghost function MetaGroups(txs: seq<Transaction>): seq<seq<RawChange>>
    requires Readable(txs)
  {
    if txs == [] then [] else Groups(txs[0]).value + MetaGroups(txs[1..])
  }

  /** An eviction as raw records: the last state of the entry, and its removal. */
  ghost function EvictionGroup(entries: seq<Entry>): seq<RawChange> {
    if entries == [] then [] else
    var n := |entries| - 1;
    EvictionGroup(entries[..n]) + [RawState(entries[n]), RawRemoved(entries[n].key)]
  }

  /** All groups of raw records of a ledger, in the order in which they take effect. */
  ghost function LedgerGroups(txs: seq<Transaction>, evicted: seq<Entry>,
                              upgrades: seq<seq<RawChange>>): seq<seq<RawChange>>
    requires Readable(txs)
  {
    FeeGroups(txs) + MetaGroups(txs) + [EvictionGroup(evicted)] + upgrades
  }

  /** Replaying the groups one after the other. */
  ghost function ReplayGroups(s: Store, groups: seq<seq<RawChange>>): Store {
    if groups == [] then s else ApplyRaw(ReplayGroups(s, groups[..|groups|-1]), groups[|groups|-1])
  }

  /** Every group is well paired and tells the truth about the store it meets. */
  ghost predicate TruthfulGroups(s: Store, groups: seq<seq<RawChange>>) {
    groups == [] ||
    var n := |groups| - 1;
    TruthfulGroups(s, groups[..n]) && WellPaired(groups[n]) && Truthful(ReplayGroups(s, groups[..n]), groups[n])
  }

  /** The sorted changes of truthful groups are a valid log with the effect of the groups. */
  lemma {:induction false} GroupsMeaning(s: Store, groups: seq<seq<RawChange>>)
    requires TruthfulGroups(s, groups)
    ensures ValidLog(s, Concat(groups)) && Apply(s, Concat(groups)) == ReplayGroups(s, groups)
    decreases |groups|
  {
    hide Transformed, WellPaired, Truthful, ApplyRaw;
    if groups != [] {
      var n := |groups| - 1;
      GroupsMeaning(s, groups[..n]);
      TransformPreservesMeaning(ReplayGroups(s, groups[..n]), groups[n]);
      ApplyAppend(s, Concat(groups[..n]), Transformed(groups[n]));
    }
  }

  lemma {:induction false} ConcatAppend(a: seq<seq<RawChange>>, b: seq<seq<RawChange>>)
    ensures Concat(a + b) == Concat(a) + Concat(b)
    decreases |b|
  {
    hide Transformed;
    if b == [] {
      assert a + b == a;
    } else {
      var n := |b| - 1;
      var all := a + b;
      ConcatAppend(a, b[..n]);
      assert all[..|all| - 1] == a + b[..n] && all[|all| - 1] == b[n];
      assert Concat(all) == Concat(a) + Concat(b[..n]) + Transformed(b[n]);
    }
  }

  lemma ConcatOne(g: seq<RawChange>)
    ensures Concat([g]) == Transformed(g)
  {
    assert [g][..0] == [];
    assert Concat([]) == [];
  }

  lemma ItemsAppend(a: seq<Change>, b: seq<Change>)
    ensures Items(a + b) == Items(a) + Items(b)
  {
  }

  lemma {:induction false} FeesAreGroups(txs: seq<Transaction>)
    ensures FeeEvents(txs) == Items(Concat(FeeGroups(txs)))
    decreases |txs|
  {
    if txs != [] {
      var g, rest := txs[0].feeChanges, FeeGroups(txs[1..]);
      FeesAreGroups(txs[1..]);
      ConcatAppend([g], rest);
      ConcatOne(g);
      ItemsAppend(Transformed(g), Concat(rest));
    }
  }

  lemma {:induction false} MetasAreGroups(txs: seq<Transaction>)
    requires Readable(txs)
    ensures MetaEvents(txs) == Items(Concat(MetaGroups(txs)))
    decreases |txs|
  {
    if txs != [] {
      var own, rest := Groups(txs[0]).value, MetaGroups(txs[1..]);
      MetasAreGroups(txs[1..]);
      ConcatAppend(own, rest);
      ItemsAppend(Concat(own), Concat(rest));
    }
  }

  lemma {:induction false} UpgradesAreGroups(upgrades: seq<seq<RawChange>>)
    ensures UpgradeEvents(upgrades) == Items(Concat(upgrades))
    decreases |upgrades|
  {
    if upgrades != [] {
      var g, rest := upgrades[0], upgrades[1..];
      UpgradesAreGroups(rest);
      ConcatAppend([g], rest);
      ConcatOne(g);
      ItemsAppend(Transformed(g), Concat(rest));
      assert upgrades == [g] + rest;
    }
  }

  lemma {:induction false} EvictionsAreGroup(entries: seq<Entry>)
    ensures Unsorted(EvictionGroup(entries)) == Evictions(entries)
    decreases |entries|
  {
    if entries != [] {
      var n := |entries| - 1;
      var front, e := EvictionGroup(entries[..n]), entries[n];
      EvictionsAreGroup(entries[..n]);
      UnsortedPair(front, e);
      assert Evictions(entries) == Evictions(entries[..n]) + [Change(Some(e), None)];
    }
  }

  lemma UnsortedPair(front: seq<RawChange>, e: Entry)
    ensures Unsorted(front + [RawState(e), RawRemoved(e.key)]) == Unsorted(front) + [Change(Some(e), None)]
  {
    var one, two := front + [RawState(e)], front + [RawState(e), RawRemoved(e.key)];
    assert one[..|front|] == front && two[..|front| + 1] == one;
  }

  /** Everything there is to deliver of a ledger. */
  ghost function LedgerEvents(txs: seq<Transaction>, evicted: seq<Entry>, upgrades: seq<seq<RawChange>>): seq<Event> {
    FeeEvents(txs) + MetaEvents(txs) + Items(StableSort(Evictions(evicted))) + UpgradeEvents(upgrades)
  }

  /** What a new reader has to deliver is the sorted changes of the ledger's groups, in order. */
  lemma EventsAreGroups(txs: seq<Transaction>, evicted: seq<Entry>, upgrades: seq<seq<RawChange>>)
    requires Readable(txs)
    ensures LedgerEvents(txs, evicted, upgrades) == Items(Concat(LedgerGroups(txs, evicted, upgrades)))
  {
    hide FeeEvents, MetaEvents, UpgradeEvents, Items, Concat, FeeGroups, MetaGroups, EvictionGroup, StableSort,
      Unsorted;
    var fees, metas, eviction := FeeGroups(txs), MetaGroups(txs), EvictionGroup(evicted);
    FeesAreGroups(txs);
    MetasAreGroups(txs);
    EvictionsAreGroup(evicted);
    UpgradesAreGroups(upgrades);
    ConcatAppend(fees, metas);
    ConcatAppend(fees + metas, [eviction]);
    ConcatAppend(fees + metas + [eviction], upgrades);
    ConcatOne(eviction);
    ItemsAppend(Concat(fees), Concat(metas));
    ItemsAppend(Concat(fees + metas), Transformed(eviction));
    ItemsAppend(Concat(fees + metas + [eviction]), Concat(upgrades));
  }

  lemma LogOfItems(changes: seq<Change>)
    ensures AllItems(Items(changes)) && Log(Items(changes)) == changes
  {
  }

  /**
   * From raw records to effect: if every group of a ledger is truthful for the store it meets, then what
   * the reader delivers is a valid log with the effect of replaying all groups in order, and so is what
   * the compacting reader delivers, with one change per entry.
   */
  lemma LedgerMeaning(s: Store, txs: seq<Transaction>, evicted: seq<Entry>, upgrades: seq<seq<RawChange>>,
                      out: seq<Change>)
    requires Readable(txs) && TruthfulGroups(s, LedgerGroups(txs, evicted, upgrades))
    ensures
      var events := LedgerEvents(txs, evicted, upgrades);
      var replayed := ReplayGroups(s, LedgerGroups(txs, evicted, upgrades));
      && AllItems(events) && ValidLog(s, Log(events)) && Apply(s, Log(events)) == replayed
      && Compactable(events)
      && (CompactedFrom(events, out) ==>
            && AllWellFormed(out) && ValidLog(s, out) && Apply(s, out) == replayed
            && forall i, j :: 0 <= i < j < |out| ==> KeyOf(out[i]) != KeyOf(out[j]))
  {
    hide LedgerEvents, Items, Concat, LedgerGroups, TruthfulGroups, ReplayGroups,
      Compactable, CompactedFrom, ValidLog, Apply, Log, AllItems;
    var groups := LedgerGroups(txs, evicted, upgrades);
    EventsAreGroups(txs, evicted, upgrades);
    GroupsMeaning(s, groups);
    LogOfItems(Concat(groups));
    CompactedReading(s, Items(Concat(groups)), out);
  }
}
