/** The captive-core session protocol (ingest/ledgerbackend/captive_core_backend.go). */
module CaptiveCore {
  import opened Common
  import opened Checkpoints

  datatype Ledger = Ledger(sequence: Sequence, previousHash: string, hash: string)

  /** What the meta pipe yields: a ledger, an error, or that it was closed. */
  datatype PipeResult = PipeLedger(ledger: Ledger) | PipeError | PipeClosed

  datatype LedgerRange = Bounded(from: Sequence, to: Sequence) | Unbounded(from: Sequence)

  datatype Error =
    | NoLongerUsable | NotPrepared | NoRunner | Behind | PastRange | ContextDone
    | RunnerClosed | StreamError | UnexpectedSequence | UnexpectedHash | CloseFailed | StillRunning
    | ArchiveError | BeyondArchive | CannotStartFromGenesis | TooFarAhead | HashStoreError | RunnerFailed
    /** The meta pipe of a runner that never started is nil. */
    | NilPipePanic

  /** The first ledger of the checkpoint that covers a ledger; the genesis ledger is not streamed. */
  function FirstReplay(frequency: Frequency, ledger: Sequence): (r: Sequence)
    ensures 2 <= r <= Max(ledger, 2)
  {
    NextCheckpointIsLeast(frequency, ledger);
    var low := Wrap32(NextCheckpoint(frequency, ledger) - frequency + 1);
    if low <= 1 then 2 else low
  }

  /**
   * r starts the run of `frequency` ledgers that holds a ledger. The first run starts at ledger 2, and one
   * that the last sequence number cuts off counts as the last `frequency` numbers there are.
   */
  ghost predicate StartsRunOf(frequency: Frequency, ledger: Sequence, r: Sequence) {
    if ledger < frequency || ledger < 2 then r == 2
    else if ledger - ledger % frequency + frequency <= TWO_32 then
      r % frequency == 0 && r <= ledger < r + frequency
    else r == Max(TWO_32 - frequency, 2)
  }

  /** A catchup streams from the start of the run of its first ledger. */
  lemma FirstReplayStartsRun(frequency: Frequency, ledger: Sequence)
    ensures StartsRunOf(frequency, ledger, FirstReplay(frequency, ledger))
  {
    hide RunEnd, Wrap32, Aligned;
    var end := RunEnd(frequency, ledger);
    RunEndAligned(frequency, ledger);
    NextCheckpointIsLeast(frequency, ledger);
    var start := RunStart(frequency, ledger);
    RunStarts(frequency, ledger, start, end + 1 - frequency);
  }

  lemma RunStart(frequency: Frequency, ledger: Sequence) returns (start: int)
    ensures start == ledger - ledger % frequency && start <= ledger < start + frequency && Aligned(frequency, start - 1)
  {
    hide Aligned;
    start := ledger / frequency * frequency;
    MultipleAligned(frequency, ledger / frequency);
  }

  /** Only one multiple starts the run that holds a ledger. */
  lemma RunStarts(frequency: Frequency, ledger: Sequence, a: int, b: int)
    requires a <= ledger < a + frequency && Aligned(frequency, a - 1)
    requires b <= ledger < b + frequency && Aligned(frequency, b + frequency - 1)
    ensures a == b && b % frequency == 0
    ensures frequency <= ledger ==> frequency <= b
    ensures ledger < frequency ==> b == 0
  {
    hide Aligned;
    MultipleAligned(frequency, 0);
    MultipleAligned(frequency, 1);
    var q := (b + frequency) / frequency;
    assert b + frequency == q * frequency by {
      RemainderGone(b + frequency, frequency);
    }
    MultipleAligned(frequency, q - 1);
    assert (q - 1) * frequency == b;
    if a < b {
      AlignedApart(frequency, a - 1, b - 1);
    } else if b < a {
      AlignedApart(frequency, b - 1, a - 1);
    }
    if b < frequency <= ledger {
      AlignedApart(frequency, b - 1, frequency - 1);
    }
    if ledger < frequency {
      if b < 0 {
        AlignedApart(frequency, b - 1, -1);
      } else if b > 0 {
        AlignedApart(frequency, -1, b - 1);
      }
    }
    AlignedIsMultiple(frequency, b);
  }

  lemma RemainderGone(x: int, frequency: Frequency)
    requires Aligned(frequency, x - 1)
    ensures x == x / frequency * frequency
  {
  }

  lemma AlignedIsMultiple(frequency: Frequency, x: int)
    requires Aligned(frequency, x - 1)
    ensures x % frequency == 0
  {
  }

  // ---------- the ledgers of a session ----------

  /** Does the sequence number follow those accepted so far? */
  ghost predicate SequenceFits(range: LedgerRange, frequency: Frequency, accepted: seq<Ledger>, next: Sequence) {
    if accepted == [] then
      if range.Bounded? then next == FirstReplay(frequency, range.from) else next <= range.from
    else
      var last := accepted[|accepted|-1];
      if last.sequence < MAX_SEQUENCE then next == last.sequence + 1 else next <= range.from
  }

  /** May a ledger be the next one of a session that has accepted these so far? */
  ghost predicate Extends(range: LedgerRange, frequency: Frequency, accepted: seq<Ledger>, next: Ledger) {
    && SequenceFits(range, frequency, accepted, next.sequence)
    && (accepted != [] ==> next.previousHash == accepted[|accepted|-1].hash)
  }

  /** Every ledger of a session extends the ones before it. */
  ghost predicate Chain(range: LedgerRange, frequency: Frequency, ledgers: seq<Ledger>)
  {
    forall i :: 0 <= i < |ledgers| ==> Extends(range, frequency, ledgers[..i], ledgers[i])
  }

  ghost predicate HashLinked(ledgers: seq<Ledger>) {
    forall i, j :: 0 <= i && j == i + 1 && j < |ledgers| ==> ledgers[j].previousHash == ledgers[i].hash
  }

  ghost predicate Consecutive(ledgers: seq<Ledger>) {
    forall i :: 0 <= i < |ledgers| ==> ledgers[i].sequence == ledgers[0].sequence + i
  }

  lemma ChainExtended(range: LedgerRange, frequency: Frequency, ledgers: seq<Ledger>, next: Ledger)
    ensures Chain(range, frequency, ledgers + [next]) <==>
      Chain(range, frequency, ledgers) && Extends(range, frequency, ledgers, next)
  {
    var all := ledgers + [next];
    assert all[..|ledgers|] == ledgers;
    forall i | 0 <= i < |ledgers|
      ensures all[..i] == ledgers[..i] && all[i] == ledgers[i]
    {
    }
    if Chain(range, frequency, all) {
      assert Extends(range, frequency, all[..|ledgers|], all[|ledgers|]);
      forall i | 0 <= i < |ledgers|
        ensures Extends(range, frequency, ledgers[..i], ledgers[i])
      {
        assert Extends(range, frequency, all[..i], all[i]);
      }
    }
  }

  lemma ChainPrefix(range: LedgerRange, frequency: Frequency, ledgers: seq<Ledger>, k: int)
    requires 0 <= k <= |ledgers|
    requires Chain(range, frequency, ledgers)
    ensures Chain(range, frequency, ledgers[..k])
  {
    forall i | 0 <= i < k
      ensures Extends(range, frequency, ledgers[..k][..i], ledgers[..k][i])
    {
      assert ledgers[..k][..i] == ledgers[..i];
      assert Extends(range, frequency, ledgers[..i], ledgers[i]);
    }
  }

  lemma ChainHashLinked(range: LedgerRange, frequency: Frequency, ledgers: seq<Ledger>)
    requires Chain(range, frequency, ledgers)
    ensures HashLinked(ledgers)
  {
    forall i, j | 0 <= i && j == i + 1 && j < |ledgers|
      ensures ledgers[j].previousHash == ledgers[i].hash
    {
      assert Extends(range, frequency, ledgers[..j], ledgers[j]);
      assert ledgers[..j][i] == ledgers[i];
    }
  }

  ghost predicate CountsUp(ledgers: seq<Ledger>) {
    forall i, j :: 0 <= i && j == i + 1 && j < |ledgers| && ledgers[i].sequence < MAX_SEQUENCE ==>
      ledgers[j].sequence == ledgers[i].sequence + 1
  }

  lemma ChainCountsUp(range: LedgerRange, frequency: Frequency, ledgers: seq<Ledger>)
    requires Chain(range, frequency, ledgers)
    ensures CountsUp(ledgers)
  {
    hide FirstReplay;
    forall i, j | 0 <= i && j == i + 1 && j < |ledgers| && ledgers[i].sequence < MAX_SEQUENCE
      ensures ledgers[j].sequence == ledgers[i].sequence + 1
    {
      assert Extends(range, frequency, ledgers[..j], ledgers[j]);
      assert ledgers[..j][i] == ledgers[i];
    }
  }

  lemma {:induction false} CountedUp(ledgers: seq<Ledger>, i: int)
    requires CountsUp(ledgers) && 0 <= i < |ledgers|
    requires forall k :: 0 <= k < |ledgers| - 1 ==> ledgers[k].sequence < MAX_SEQUENCE
    ensures ledgers[i].sequence == ledgers[0].sequence + i
    decreases i
  {
    if i > 0 {
      CountedUp(ledgers, i - 1);
    }
  }

  /**
   * The ledgers of a session are consecutive exactly when the sequence counter does not run out before the last
   * one.
   */
  lemma ChainConsecutive(range: LedgerRange, frequency: Frequency, ledgers: seq<Ledger>)
    requires Chain(range, frequency, ledgers)
    ensures Consecutive(ledgers) <==> forall i :: 0 <= i < |ledgers| - 1 ==> ledgers[i].sequence < MAX_SEQUENCE
  {
    hide Chain;
    ChainCountsUp(range, frequency, ledgers);
    if forall i :: 0 <= i < |ledgers| - 1 ==> ledgers[i].sequence < MAX_SEQUENCE {
      forall i | 0 <= i < |ledgers|
        ensures ledgers[i].sequence == ledgers[0].sequence + i
      {
        CountedUp(ledgers, i);
      }
    } else {
      var i :| 0 <= i < |ledgers| - 1 && ledgers[i].sequence >= MAX_SEQUENCE;
      assert ledgers[i+1].sequence != ledgers[i].sequence + 1;
    }
  }

  // ---------- the bookkeeping of a session ----------

  /** The sequence number a request must not be behind. */
  function Expected(range: LedgerRange, next: Sequence): (r: Sequence) {
    if next == 0 then range.from else next
  }

  /** The next-ledger counter and the previous hash are those of the ledgers accepted so far. */
  ghost predicate InStep(range: LedgerRange, frequency: Frequency, accepted: seq<Ledger>, next: Sequence,
                         hash: Option<string>)
  {
    && Chain(range, frequency, accepted)
    && (range.Bounded? ==> Consecutive(accepted))
    && (range.Bounded? ==> forall i :: 0 <= i < |accepted| ==> accepted[i].sequence <= range.to)
    && if accepted == [] then
         && next == (if range.Bounded? then FirstReplay(frequency, range.from) else 0)
         && hash.None?
       else
         var last := accepted[|accepted|-1];
         next == Wrap32(last.sequence + 1) && hash == Some(last.hash)
  }

  /** The last ledger of a bounded session has been accepted. */
  ghost predicate Finished(range: LedgerRange, accepted: seq<Ledger>) {
    range.Bounded? && accepted != [] && accepted[|accepted|-1].sequence == range.to
  }

  lemma FreshInStep(range: LedgerRange, frequency: Frequency, next: Sequence, pipe: seq<PipeResult>)
    requires next == (if range.Bounded? then FirstReplay(frequency, range.from) else 0)
    ensures InStep(range, frequency, [], next, None) && !Finished(range, []) && TakenFrom(pipe, [])
  {
    hide FirstReplay;
  }

  lemma FinishedLast(range: LedgerRange, accepted: seq<Ledger>, ledger: Ledger)
    ensures Finished(range, accepted + [ledger]) <==> range.Bounded? && ledger.sequence == range.to
  {
  }

  /** Comparing with the counter and the hash decides whether a ledger extends the session. */
  lemma CounterDecides(range: LedgerRange, frequency: Frequency, accepted: seq<Ledger>, next: Sequence,
                       hash: Option<string>, ledger: Ledger)
    requires InStep(range, frequency, accepted, next, hash)
    requires !Finished(range, accepted)
    ensures SequenceFits(range, frequency, accepted, ledger.sequence) <==>
      if next != 0 then ledger.sequence == next else ledger.sequence <= range.from
    ensures Extends(range, frequency, accepted, ledger) <==>
      SequenceFits(range, frequency, accepted, ledger.sequence) && (hash.Some? ==> hash.value == ledger.previousHash)
  {
    hide FirstReplay;
    if accepted == [] && range.Bounded? {
      assert next == FirstReplay(frequency, range.from) >= 2;
    }
  }

  /** Accepting a ledger within the range keeps the bookkeeping in step. */
  lemma AcceptKeepsStep(range: LedgerRange, frequency: Frequency, accepted: seq<Ledger>, next: Sequence,
                        hash: Option<string>, ledger: Ledger)
    requires InStep(range, frequency, accepted, next, hash)
    requires !Finished(range, accepted)
    requires Extends(range, frequency, accepted, ledger)
    requires range.Bounded? ==> ledger.sequence <= range.to
    ensures InStep(range, frequency, accepted + [ledger], Wrap32(ledger.sequence + 1), Some(ledger.hash))
  {
    hide FirstReplay, Chain;
    ChainExtended(range, frequency, accepted, ledger);
    var all := accepted + [ledger];
    if range.Bounded? {
      var n := |accepted|;
      if n > 0 {
        assert accepted[n-1].sequence < range.to;
        assert accepted[n-1].sequence == accepted[0].sequence + (n - 1);
      }
      forall i | 0 <= i < |all|
        ensures all[i].sequence == all[0].sequence + i && all[i].sequence <= range.to
      {
        if i < n {
          assert all[i] == accepted[i];
        }
      }
    }
  }

  // ---------- where an online run starts ----------

  datatype HashLookup = Missing | LookupFailed | Found(hash: string)

  /** The archive and the trusted hashes an opening consults. */
  datatype Sources = Sources(
    root: Option<Sequence>,
    header: Sequence -> Option<string>,
    useDB: bool,
    store: Option<Sequence -> HashLookup>)

  /** The ledger and hash an online run is started from. */
  function RunFromParams(frequency: Frequency, sources: Sources,
                         requested: Sequence): (r: Result<(Sequence, string), Error>)
  {
    if requested == 1 then Err(CannotStartFromGenesis) else
    var from := if requested <= NextCheckpoint(frequency, 0) then 3 else requested;
    if sources.root.None? then Err(ArchiveError) else
    var latest := sources.root.value;
    if from > Wrap32(latest + Wrap32(Wrap32(NextCheckpoint(frequency, 0) + 1) * 2)) then Err(TooFarAhead) else
    if sources.useDB then Ok((from - 1, "")) else
    var lookup := if sources.store.Some? then sources.store.value(from - 1) else Missing;
    if lookup.LookupFailed? then Err(HashStoreError) else
    if lookup.Found? then Ok((from - 1, lookup.hash)) else
    var start := if 0 < latest < from then latest else from;
    match sources.header(start)
    case None => Err(ArchiveError)
    case Some(previousHash) => Ok((start - 1, previousHash))
  }

  /** The archive's headers and the hash store agree with the true ledger hashes. */
  ghost predicate Truthful(sources: Sources, hashOf: int -> string) {
    && (forall s: Sequence :: sources.header(s).Some? ==> sources.header(s).value == hashOf(s - 1))
    && (sources.store.Some? ==>
      forall s: Sequence :: sources.store.value(s).Found? ==> sources.store.value(s).hash == hashOf(s))
  }

  /**
   * An online run starts at or before the ledger asked for (ledgers of the first checkpoint
   * are fast-forwarded to from ledger 2), and without a database it is anchored on the true hash
   * of exactly the ledger it starts from.
   */
  lemma RunFromAnchored(frequency: Frequency, sources: Sources, requested: Sequence, hashOf: int -> string)
    requires Truthful(sources, hashOf)
    requires RunFromParams(frequency, sources, requested).Ok?
    ensures requested != 1
    ensures var (runFrom, hash) := RunFromParams(frequency, sources, requested).value;
      && runFrom + 1 <= (if requested < frequency then 3 else requested)
      && (sources.useDB ==> hash == "")
      && (!sources.useDB ==> hash == hashOf(runFrom))
      && ((!sources.useDB && (sources.store.None? || sources.store.value(runFrom) == Missing)
           && 0 < sources.root.value) ==>
        runFrom < sources.root.value)
  {
    var from := if requested <= NextCheckpoint(frequency, 0) then 3 else requested;
    var latest := sources.root.value;
    var start := if 0 < latest < from then latest else from;
    if !sources.useDB && (sources.store.None? || sources.store.value(from - 1) == Missing) {
      assert sources.header(start).value == hashOf(start - 1);
    }
  }

  /** The ledger an online run is asked to reach: the first checkpoint is run through from ledger 3. */
  function RunTarget(frequency: Frequency, requested: Sequence): int {
    if requested < frequency then 3 else requested
  }

  /** More than two checkpoints past the archive's last ledger, on 32 bits. */
  ghost predicate FarAhead(frequency: Frequency, root: Sequence, target: int) {
    target > Wrap32(root + 2 * frequency)
  }

  ghost function StoredHash(sources: Sources, ledger: Sequence): HashLookup {
    if sources.store.Some? then sources.store.value(ledger) else Missing
  }

  /** The run is anchored on a header of the archive, for want of a database and of a stored hash. */
  ghost predicate ArchiveAnchored(sources: Sources, target: int)
    requires 1 <= target <= TWO_32
  {
    !sources.useDB && StoredHash(sources, target - 1) == Missing
  }

  /** The archive's last ledger when it comes before the target, and the target otherwise. */
  ghost function AnchorLedger(root: Sequence, target: int): int {
    if 0 < root then Min(root, target) else target
  }

  /**
   * An online run starts one ledger before the one asked for, or before the last ledger of the archive
   * when that one is lower and the run is anchored on it.
   */
  lemma RunFromStart(frequency: Frequency, sources: Sources, requested: Sequence)
    requires RunFromParams(frequency, sources, requested).Ok?
    ensures var target := RunTarget(frequency, requested);
      && 2 <= target <= MAX_SEQUENCE && sources.root.Some?
      && RunFromParams(frequency, sources, requested).value.0 + 1
         == if ArchiveAnchored(sources, target) then AnchorLedger(sources.root.value, target) else target
  {
    hide Wrap32, NextCheckpoint, RunEnd;
    FirstCheckpoint(frequency);
  }

  lemma WrapInner(a: int, b: int)
    ensures Wrap32(a + Wrap32(b)) == Wrap32(a + b)
  {
    var q := b / TWO_32;
    assert a + b == (a + Wrap32(b)) + q * TWO_32;
  }

  /** Each refusal of an online run, with the exact condition it is given under. */
  lemma RunFromRefused(frequency: Frequency, sources: Sources, requested: Sequence)
    ensures var r, target := RunFromParams(frequency, sources, requested), RunTarget(frequency, requested);
      && (r == Err(CannotStartFromGenesis) <==> requested == 1)
      && (requested != 1 && sources.root.None? ==> r == Err(ArchiveError))
      && (requested != 1 && sources.root.Some? ==>
        var root := sources.root.value;
        && (r == Err(TooFarAhead) <==> FarAhead(frequency, root, target))
        && (!FarAhead(frequency, root, target) ==>
          && (r == Err(HashStoreError) <==> !sources.useDB && StoredHash(sources, target - 1) == LookupFailed)
          && (r == Err(ArchiveError) <==>
            ArchiveAnchored(sources, target) && sources.header(AnchorLedger(root, target)).None?)
          && (r.Err? ==> r.error in {HashStoreError, ArchiveError})))
  {
    hide Wrap32, NextCheckpoint, RunEnd;
    FirstCheckpoint(frequency);
    if sources.root.Some? {
      WrapInner(sources.root.value, frequency * 2);
    }
  }

  lemma FirstCheckpoint(frequency: Frequency)
    ensures NextCheckpoint(frequency, 0) == frequency - 1 && Wrap32(NextCheckpoint(frequency, 0) + 1) == frequency
  {
  }

  // ---------- the session ----------

  ghost predicate AllLedgers(stream: seq<PipeResult>) {
    forall i :: 0 <= i < |stream| ==> stream[i].PipeLedger?
  }

  ghost function Ledgers(stream: seq<PipeResult>): (r: seq<Ledger>)
    requires AllLedgers(stream)
  {
    seq(|stream|, i requires 0 <= i < |stream| => stream[i].ledger)
  }

  /** The ledgers are the first results of the pipe. */
  ghost predicate TakenFrom(pipe: seq<PipeResult>, ledgers: seq<Ledger>) {
    |ledgers| <= |pipe| && forall i :: 0 <= i < |ledgers| ==> pipe[i] == PipeLedger(ledgers[i])
  }

  lemma TakenOne(pipe: seq<PipeResult>, ledgers: seq<Ledger>, next: Ledger)
    requires TakenFrom(pipe, ledgers) && |ledgers| < |pipe| && pipe[|ledgers|] == PipeLedger(next)
    ensures TakenFrom(pipe, ledgers + [next])
  {
  }

  /** The first n results of the stream continue the session and end with the first ledger numbered s. */
  ghost predicate Reaches(range: LedgerRange, frequency: Frequency, accepted: seq<Ledger>, stream: seq<PipeResult>,
                          s: Sequence, n: int)
  {
    && 1 <= n <= |stream|
    && AllLedgers(stream[..n])
    && Chain(range, frequency, accepted + Ledgers(stream[..n]))
    && stream[n-1].ledger.sequence == s
    && forall j :: 0 <= j < n - 1 ==> stream[j].ledger.sequence != s
  }

  ghost predicate Reachable(
    range: LedgerRange, frequency: Frequency, accepted: seq<Ledger>, stream: seq<PipeResult>, s: Sequence,
    patience: nat)
  {
    exists n :: n <= patience && Reaches(range, frequency, accepted, stream, s, n)
  }

  /** The session grew, by no ledger past s. */
  ghost predicate Advanced(before: seq<Ledger>, after: seq<Ledger>, s: Sequence) {
    before <= after && forall i :: |before| <= i < |after| ==> after[i].sequence <= s
  }

  lemma NothingAdvanced(before: seq<Ledger>, s: Sequence)
    ensures Advanced(before, before, s)
  {
  }

  lemma AdvancedOne(before: seq<Ledger>, after: seq<Ledger>, next: Ledger, s: Sequence)
    requires Advanced(before, after, s) && next.sequence <= s
    ensures Advanced(before, after + [next], s)
  {
  }

  /** The error for a result that does not continue the session. */
  ghost function Misfit(range: LedgerRange, frequency: Frequency, accepted: seq<Ledger>, result: PipeResult): Error {
    match result
    case PipeLedger(ledger) =>
      if SequenceFits(range, frequency, accepted, ledger.sequence) then UnexpectedHash else UnexpectedSequence
    case _ => StreamError
  }

  /** How waiting for a ledger ends: its result, the session, the results taken, and whether the runner was closed. */
  datatype Fetched = Fetched(result: Result<Ledger, Error>, accepted: seq<Ledger>, taken: nat, closed: bool)

  /** Waiting for ledger s on a stream of results, of which at most `patience` are received. */
  ghost function Fetch(range: LedgerRange, frequency: Frequency, accepted: seq<Ledger>, stream: seq<PipeResult>,
                       s: Sequence, patience: nat, closeFails: bool): (f: Fetched)
    ensures f.result.Err? ==>
      f.result.error in {ContextDone, StreamError, UnexpectedSequence, UnexpectedHash, CloseFailed}
    decreases patience
  {
    if patience == 0 || stream == [] then Fetched(Err(ContextDone), accepted, 0, false)
    else if stream[0].PipeLedger? && Extends(range, frequency, accepted, stream[0].ledger) then
      var ledger := stream[0].ledger;
      if ledger.sequence == s then
        var last := range.Bounded? && range.to == s;
        Fetched(if last && closeFails then Err(CloseFailed) else Ok(ledger), accepted + [ledger], 1, last)
      else Later(Fetch(range, frequency, accepted + [ledger], stream[1..], s, patience - 1, closeFails), 1)
    else Fetched(Err(Misfit(range, frequency, accepted, stream[0])), accepted, 1, true)
  }

  ghost function Later(f: Fetched, n: nat): Fetched {
    f.(taken := f.taken + n)
  }

  /** Taking one more ledger short of s leaves the rest of the wait. */
  lemma FetchStep(range: LedgerRange, frequency: Frequency, accepted: seq<Ledger>, stream: seq<PipeResult>,
                  n: nat, s: Sequence, patience: nat, closeFails: bool)
    requires n < |stream| && n < patience
    ensures
      var now := Fetch(range, frequency, accepted, stream[n..], s, patience - n, closeFails);
      var result := stream[n];
      if !result.PipeLedger? || !Extends(range, frequency, accepted, result.ledger) then
        now == Fetched(Err(Misfit(range, frequency, accepted, result)), accepted, 1, true)
      else if result.ledger.sequence == s then
        var last := range.Bounded? && range.to == s;
        var outcome := if last && closeFails then Err(CloseFailed) else Ok(result.ledger);
        now == Fetched(outcome, accepted + [result.ledger], 1, last)
      else
        var more := accepted + [result.ledger];
        now == Later(Fetch(range, frequency, more, stream[n+1..], s, patience - n - 1, closeFails), 1)
  {
    hide Extends, Misfit;
    assert stream[n..][0] == stream[n] && stream[n..][1..] == stream[n+1..];
  }

  lemma FetchDone(range: LedgerRange, frequency: Frequency, accepted: seq<Ledger>, stream: seq<PipeResult>,
                  n: nat, s: Sequence, patience: nat, closeFails: bool)
    requires n <= |stream| && n <= patience && (n == |stream| || n == patience)
    ensures Fetch(range, frequency, accepted, stream[n..], s, patience - n, closeFails)
      == Fetched(Err(ContextDone), accepted, 0, false)
  {
  }

  /** n results into the wait: the session holds that many more ledgers, and the rest of the wait is still to come. */
  ghost predicate Waiting(range: LedgerRange, frequency: Frequency, before: seq<Ledger>, stream: seq<PipeResult>,
                          s: Sequence, patience: nat, closeFails: bool, n: nat, now: seq<Ledger>)
  {
    && n <= patience && n <= |stream| && |now| == |before| + n && Advanced(before, now, s)
    && Fetch(range, frequency, before, stream, s, patience, closeFails)
       == Later(Fetch(range, frequency, now, stream[n..], s, patience - n, closeFails), n)
  }

  lemma WaitingStarts(range: LedgerRange, frequency: Frequency, before: seq<Ledger>, stream: seq<PipeResult>,
                      s: Sequence, patience: nat, closeFails: bool)
    ensures Waiting(range, frequency, before, stream, s, patience, closeFails, 0, before)
  {
    hide Fetch;
    assert stream[0..] == stream;
    NothingAdvanced(before, s);
  }

  lemma WaitingEnds(range: LedgerRange, frequency: Frequency, before: seq<Ledger>, stream: seq<PipeResult>,
                    s: Sequence, patience: nat, closeFails: bool, n: nat, now: seq<Ledger>)
    requires Waiting(range, frequency, before, stream, s, patience, closeFails, n, now)
    requires n == patience || n == |stream|
    ensures Advanced(before, now, s) && |now| == |before| + n && n <= patience
    ensures Fetch(range, frequency, before, stream, s, patience, closeFails)
      == Fetched(Err(ContextDone), now, n, false)
  {
    hide Fetch, Advanced;
    FetchDone(range, frequency, now, stream, n, s, patience, closeFails);
  }

  /** What the next result makes of the wait. */
  lemma WaitingStep(range: LedgerRange, frequency: Frequency, before: seq<Ledger>, stream: seq<PipeResult>,
                    s: Sequence, patience: nat, closeFails: bool, n: nat, now: seq<Ledger>)
    requires Waiting(range, frequency, before, stream, s, patience, closeFails, n, now)
    requires n < patience && n < |stream|
    ensures Advanced(before, now, s) && |now| == |before| + n
    ensures
      var whole := Fetch(range, frequency, before, stream, s, patience, closeFails);
      var result := stream[n];
      if !result.PipeLedger? || !Extends(range, frequency, now, result.ledger) then
        whole == Fetched(Err(Misfit(range, frequency, now, result)), now, n + 1, true)
      else if result.ledger.sequence == s then
        var last := range.Bounded? && range.to == s;
        var outcome := if last && closeFails then Err(CloseFailed) else Ok(result.ledger);
        whole == Fetched(outcome, now + [result.ledger], n + 1, last) && Advanced(before, now + [result.ledger], s)
      else
        result.ledger.sequence <= s ==>
          Waiting(range, frequency, before, stream, s, patience, closeFails, n + 1, now + [result.ledger])
  {
    hide Fetch, Extends, Misfit, Advanced;
    FetchStep(range, frequency, now, stream, n, s, patience, closeFails);
    if stream[n].PipeLedger? && stream[n].ledger.sequence <= s {
      AdvancedOne(before, now, stream[n].ledger, s);
    }
  }

  /** A stream that starts with a ledger short of s reaches s as its rest does. */
  lemma ReachesLater(range: LedgerRange, frequency: Frequency, accepted: seq<Ledger>, stream: seq<PipeResult>,
                     s: Sequence, n: int)
    requires stream != [] && stream[0].PipeLedger? && stream[0].ledger.sequence != s
    ensures Reaches(range, frequency, accepted, stream, s, n) <==>
      n >= 2 && Reaches(range, frequency, accepted + [stream[0].ledger], stream[1..], s, n - 1)
  {
    hide Chain;
    if 2 <= n <= |stream| {
      var rest := stream[1..];
      assert stream[..n] == [stream[0]] + rest[..n-1];
      assert forall j :: 0 <= j < |rest| ==> rest[j] == stream[j+1];
      assert AllLedgers(stream[..n]) <==> AllLedgers(rest[..n-1]) by {
        if AllLedgers(stream[..n]) {
          var head := rest[..n-1];
          forall j | 0 <= j < |head|
            ensures head[j].PipeLedger?
          {
            assert head[j] == stream[..n][j+1];
          }
        }
      }
      if AllLedgers(stream[..n]) {
        assert accepted + Ledgers(stream[..n]) == accepted + [stream[0].ledger] + Ledgers(rest[..n-1]);
        if Reaches(range, frequency, accepted, stream, s, n) {
          forall j | 0 <= j < n - 2
            ensures rest[j].ledger.sequence != s
          {
            assert stream[j+1].ledger.sequence != s;
          }
        }
      }
    }
  }

  lemma BlockedAtOnce(range: LedgerRange, frequency: Frequency, accepted: seq<Ledger>, stream: seq<PipeResult>,
                      s: Sequence, n: int)
    requires stream != [] && (stream[0].PipeLedger? ==> !Extends(range, frequency, accepted, stream[0].ledger))
    ensures !Reaches(range, frequency, accepted, stream, s, n)
  {
    hide Chain, Extends;
    if Reaches(range, frequency, accepted, stream, s, n) {
      assert stream[..n][0] == stream[0];
      var all := accepted + Ledgers(stream[..n]);
      ChainPrefix(range, frequency, all, |accepted| + 1);
      assert all[..|accepted| + 1] == accepted + [stream[0].ledger];
      ChainExtended(range, frequency, accepted, stream[0].ledger);
    }
  }

  lemma ReachedAtOnce(range: LedgerRange, frequency: Frequency, accepted: seq<Ledger>, stream: seq<PipeResult>,
                      s: Sequence, patience: nat)
    requires patience > 0 && stream != [] && stream[0].PipeLedger? && stream[0].ledger.sequence == s
    requires Chain(range, frequency, accepted) && Extends(range, frequency, accepted, stream[0].ledger)
    ensures Reachable(range, frequency, accepted, stream, s, patience)
  {
    hide Chain, Extends;
    ChainExtended(range, frequency, accepted, stream[0].ledger);
    assert Ledgers(stream[..1]) == [stream[0].ledger];
    assert Reaches(range, frequency, accepted, stream, s, 1);
  }

  /**
   * Waiting succeeds exactly when the stream leads to the ledger by linked ledgers in time, and the close does
   * not fail.
   */
  lemma {:induction false} FetchReaches(range: LedgerRange, frequency: Frequency, accepted: seq<Ledger>,
                                        stream: seq<PipeResult>, s: Sequence, patience: nat, closeFails: bool)
    requires Chain(range, frequency, accepted)
    ensures Fetch(range, frequency, accepted, stream, s, patience, closeFails).result.Ok? <==>
      && !(closeFails && range.Bounded? && range.to == s)
      && Reachable(range, frequency, accepted, stream, s, patience)
    decreases patience
  {
    hide Chain, Extends, Reaches;
    if patience == 0 || stream == [] {
      NothingToReach(range, frequency, accepted, stream, s, patience);
    } else if !stream[0].PipeLedger? || !Extends(range, frequency, accepted, stream[0].ledger) {
      forall n | n <= patience
        ensures !Reaches(range, frequency, accepted, stream, s, n)
      {
        BlockedAtOnce(range, frequency, accepted, stream, s, n);
      }
    } else if stream[0].ledger.sequence == s {
      ReachedAtOnce(range, frequency, accepted, stream, s, patience);
    } else {
      var ledger, rest := stream[0].ledger, stream[1..];
      ChainExtended(range, frequency, accepted, ledger);
      FetchReaches(range, frequency, accepted + [ledger], rest, s, patience - 1, closeFails);
      if Reachable(range, frequency, accepted, stream, s, patience) {
        var n :| n <= patience && Reaches(range, frequency, accepted, stream, s, n);
        ReachesLater(range, frequency, accepted, stream, s, n);
      }
      if Reachable(range, frequency, accepted + [ledger], rest, s, patience - 1) {
        var n :| n <= patience - 1 && Reaches(range, frequency, accepted + [ledger], rest, s, n);
        AtLeastOne(range, frequency, accepted + [ledger], rest, s, n);
        ReachesLater(range, frequency, accepted, stream, s, n + 1);
        assert n + 1 <= patience && Reaches(range, frequency, accepted, stream, s, n + 1);
      }
    }
  }

  lemma NothingToReach(range: LedgerRange, frequency: Frequency, accepted: seq<Ledger>, stream: seq<PipeResult>,
                       s: Sequence, patience: nat)
    requires patience == 0 || stream == []
    ensures !Reachable(range, frequency, accepted, stream, s, patience)
  {
    hide Chain;
  }

  lemma AtLeastOne(range: LedgerRange, frequency: Frequency, accepted: seq<Ledger>, stream: seq<PipeResult>,
                   s: Sequence, n: int)
    requires Reaches(range, frequency, accepted, stream, s, n)
    ensures n >= 1
  {
  }

  /** Why a session cannot be opened, before a runner is made for it. */
  function OpeningRefusal(frequency: Frequency, range: LedgerRange, sources: Sources): (r: Option<Error>)
  {
    match range
    case Bounded(from, to) =>
      if sources.root.None? then Some(ArchiveError)
      else if from > sources.root.value || to > sources.root.value then Some(BeyondArchive)
      else None
    case Unbounded(from) =>
      match RunFromParams(frequency, sources, from)
      case Err(e) => Some(e)
      case Ok(_) => None
  }

  /** A bounded range opens within the archive; an unbounded one wherever an online run may start. */
  lemma OpeningAllowed(frequency: Frequency, range: LedgerRange, sources: Sources)
    ensures range.Bounded? ==>
      (OpeningRefusal(frequency, range, sources).None?
       <==> sources.root.Some? && Max(range.from, range.to) <= sources.root.value)
    ensures range.Unbounded? ==>
      var target := RunTarget(frequency, range.from);
      (OpeningRefusal(frequency, range, sources).None?
       <==> && range.from != 1 && sources.root.Some? && !FarAhead(frequency, sources.root.value, target)
            && (sources.useDB || StoredHash(sources, target - 1) != LookupFailed)
            && (ArchiveAnchored(sources, target) ==> sources.header(AnchorLedger(sources.root.value, target)).Some?))
  {
    if range.Unbounded? {
      RunFromRefused(frequency, sources, range.from);
    }
  }

  /** Everything outside the process that one preparation observes. */
  datatype Environment = Environment(
    exited: bool,
    closeFails: bool,
    exitedAfterClose: bool,
    sources: Sources,
    runnerStarts: bool,
    pipe: seq<PipeResult>)

  class CaptiveHcnetCore {
    const frequency: Frequency
    var prepared: Option<LedgerRange>
    var closed: bool
    var nextLedger: Sequence
    var lastLedger: Option<Sequence>
    var previousLedgerHash: Option<string>
    var cachedMeta: Option<Ledger>
    // The runner: whether there is one, was started, and had its context cancelled.
    var hasRunner: bool
    var started: bool
    var runnerClosed: bool
    // The meta pipe of the last runner that started, and how many results were taken from it.
    var pipe: seq<PipeResult>
    var consumed: nat
    ghost var accepted: seq<Ledger>

    ghost predicate Valid()
      reads this
    {
      && |accepted| <= consumed <= |pipe|
      && TakenFrom(pipe, accepted)
      && (!hasRunner ==> !started && prepared.None?)
      && (started && !runnerClosed ==> |accepted| == consumed)
      && (accepted != [] ==> cachedMeta == Some(accepted[|accepted|-1]))
      && match prepared
         case None => accepted == [] && nextLedger == 0 && lastLedger.None? && previousLedgerHash.None? && !started
         case Some(range) =>
           && InStep(range, frequency, accepted, nextLedger, previousLedgerHash)
           && lastLedger == (if range.Bounded? then Some(range.to) else None)
           && (Finished(range, accepted) ==> runnerClosed || !started)
    }

    constructor (frequency: Frequency)
      ensures Valid() && this.frequency == frequency
      ensures prepared.None? && !closed && !hasRunner && !runnerClosed && cachedMeta.None?
    {
      this.frequency := frequency;
      prepared, closed, nextLedger, lastLedger, previousLedgerHash := None, false, 0, None, None;
      cachedMeta, hasRunner, started, runnerClosed := None, false, false, false;
      pipe, consumed, accepted := [], 0, [];
    }

    /** The next ledger, or the start of the prepared range while no ledger has been streamed. */
    function NextExpectedSequence(): (r: Sequence)
      reads this
    {
      if prepared.Some? then Expected(prepared.value, nextLedger) else nextLedger
    }

    /** The error GetLedger returns before it looks at the stream. */
    function Refusal(sequence: Sequence): (r: Option<Error>)
      reads this
    {
      if closed then Some(NoLongerUsable)
      else if prepared.None? then Some(NotPrepared)
      else if !hasRunner then Some(NoRunner)
      else if sequence < NextExpectedSequence() then Some(Behind)
      else if lastLedger.Some? && sequence > lastLedger.value then Some(PastRange)
      else None
    }

    predicate Cached(sequence: Sequence)
      reads this
    {
      cachedMeta.Some? && cachedMeta.value.sequence == sequence
    }

    predicate IsPrepared(range: LedgerRange, exited: bool)
      reads this
    {
      if closed || !hasRunner || runnerClosed || exited then false else
      var last := if lastLedger.Some? then lastLedger.value else 0;
      var cached := if cachedMeta.Some? then cachedMeta.value.sequence else 0;
      if prepared.None? then false
      else if last == 0 then NextExpectedSequence() <= range.from || cached == range.from
      else if range.Bounded? then
        (NextExpectedSequence() <= range.from || cached == range.from) && last >= range.to
      else false
    }

    /** The next result of the pipe is a ledger that extends the session. */
    ghost predicate NextFits()
      requires Valid() && prepared.Some? && consumed < |pipe|
      reads this
    {
      pipe[consumed].PipeLedger? && Extends(prepared.value, frequency, accepted, pipe[consumed].ledger)
    }

    /** Takes the next result off the meta pipe of a started runner and checks it. */
    method HandleMetaPipeResult(sequence: Sequence, closeFails: bool) returns (r: Result<Option<Ledger>, Error>)
      requires Valid() && Refusal(sequence).None? && started && !runnerClosed
      requires consumed < |pipe|
      modifies this`consumed, this`nextLedger, this`previousLedgerHash, this`cachedMeta, this`runnerClosed,
        this`accepted
      ensures Valid() && consumed == old(consumed) + 1
      ensures old(NextFits()) ==>
        && accepted == old(accepted) + [pipe[old(consumed)].ledger]
        && pipe[old(consumed)].ledger.sequence <= sequence
      ensures old(NextFits()) && pipe[old(consumed)].ledger.sequence != sequence ==>
        r == Ok(None) && !runnerClosed && Refusal(sequence).None?
      ensures old(NextFits()) && pipe[old(consumed)].ledger.sequence == sequence ==>
        && runnerClosed == (lastLedger == Some(sequence))
        && r == (if runnerClosed && closeFails then Err(CloseFailed) else Ok(Some(pipe[old(consumed)].ledger)))
      ensures !old(NextFits()) ==>
        && runnerClosed && accepted == old(accepted)
        && nextLedger == old(nextLedger) && previousLedgerHash == old(previousLedgerHash)
        && cachedMeta == old(cachedMeta)
      ensures !old(NextFits()) ==> r == Err(Misfit(prepared.value, frequency, old(accepted), pipe[old(consumed)]))
    {
      hide InStep, Extends, SequenceFits, Finished, Wrap32, TakenFrom;
      var result := pipe[consumed];
      consumed := consumed + 1;
      match result {
        case PipeError => runnerClosed := true; return Err(StreamError);
        case PipeClosed => runnerClosed := true; return Err(StreamError);
        case PipeLedger(ledger) =>
          CounterDecides(prepared.value, frequency, accepted, nextLedger, previousLedgerHash, ledger);
          if nextLedger != 0 && ledger.sequence != nextLedger {
            runnerClosed := true;
            return Err(UnexpectedSequence);
          } else if nextLedger == 0 && ledger.sequence > prepared.value.from {
            runnerClosed := true;
            return Err(UnexpectedSequence);
          }
          if previousLedgerHash.Some? && previousLedgerHash.value != ledger.previousHash {
            runnerClosed := true;
            return Err(UnexpectedHash);
          }
          AcceptKeepsStep(prepared.value, frequency, accepted, nextLedger, previousLedgerHash, ledger);
          FinishedLast(prepared.value, accepted, ledger);
          TakenOne(pipe, accepted, ledger);
          nextLedger := Wrap32(ledger.sequence + 1);
          previousLedgerHash := Some(ledger.hash);
          cachedMeta := Some(ledger);
          accepted := accepted + [ledger];
          if ledger.sequence == sequence {
            if lastLedger.Some? && lastLedger.value == ledger.sequence {
              runnerClosed := true;
              if closeFails {
                return Err(CloseFailed);
              }
            }
            return Ok(Some(ledger));
          }
          return Ok(None);
      }
    }

    /** The loop of GetLedger: takes results until the ledger is found, one does not fit, or the context ends. */
    method AwaitLedger(sequence: Sequence, patience: nat, closeFails: bool) returns (r: Result<Ledger, Error>)
      requires Valid() && Refusal(sequence).None? && started && !runnerClosed
      modifies this`consumed, this`nextLedger, this`previousLedgerHash, this`cachedMeta, this`runnerClosed,
        this`accepted
      ensures Valid()
      ensures consumed <= old(consumed) + patience
      ensures Advanced(old(accepted), accepted, sequence)
      ensures r.Ok? ==> |old(accepted)| < |accepted| && r.value == accepted[|accepted|-1]
      ensures r.Ok? ==> r.value.sequence == sequence
      ensures accepted == old(accepted) ==> cachedMeta == old(cachedMeta)
      ensures Fetched(r, accepted, consumed - old(consumed), runnerClosed) ==
        Fetch(prepared.value, frequency, old(accepted), pipe[old(consumed)..], sequence, patience, closeFails)
      ensures r.Ok? <==>
        && !(closeFails && lastLedger == Some(sequence))
        && Reachable(prepared.value, frequency, old(accepted), pipe[old(consumed)..], sequence, patience)
    {
      hide InStep, Extends, SequenceFits, Finished, Chain, TakenFrom, Advanced, Reachable, Expected, Wrap32,
        FirstReplay, Fetch, Misfit, Waiting;
      ghost var stream, before, range := pipe[consumed..], accepted, prepared.value;
      ValidChain();
      FetchReaches(range, frequency, before, stream, sequence, patience, closeFails);
      WaitingStarts(range, frequency, before, stream, sequence, patience, closeFails);
      var n := 0;
      while true
        invariant Valid() && Refusal(sequence).None? && !runnerClosed
        invariant n <= patience && consumed == old(consumed) + n
        invariant Waiting(range, frequency, before, stream, sequence, patience, closeFails, n, accepted)
        invariant n == 0 ==> cachedMeta == old(cachedMeta)
        decreases patience - n
      {
        if n == patience || consumed == |pipe| {
          WaitingEnds(range, frequency, before, stream, sequence, patience, closeFails, n, accepted);
          return Err(ContextDone);
        }
        assert pipe[consumed] == stream[n];
        WaitingStep(range, frequency, before, stream, sequence, patience, closeFails, n, accepted);
        var step := HandleMetaPipeResult(sequence, closeFails);
        match step {
          case Err(e) => return Err(e);
          case Ok(Some(ledger)) => return Ok(ledger);
          case Ok(None) => n := n + 1;
        }
      }
    }

    lemma ValidChain()
      requires Valid() && prepared.Some?
      ensures Chain(prepared.value, frequency, accepted)
    {
    }

    /**
     * Fetches a ledger. The caller's context ends after `patience` results were received, or while
     * waiting on a pipe that yields nothing more.
     */
    method GetLedger(sequence: Sequence, patience: nat, closeFails: bool) returns (r: Result<Ledger, Error>)
      requires Valid()
      modifies this`consumed, this`nextLedger, this`previousLedgerHash, this`cachedMeta, this`runnerClosed,
        this`accepted
      ensures Valid()
      // What comes back is the ledger asked for, and it stays available.
      ensures r.Ok? ==> r.value.sequence == sequence && cachedMeta == Some(r.value)
      // The session only grows, and by nothing past that ledger or past the end of the range.
      ensures consumed <= old(consumed) + patience
      ensures Advanced(old(accepted), accepted, sequence)
      ensures r.Ok? && !old(Cached(sequence)) ==> |old(accepted)| < |accepted| && r.value == accepted[|accepted|-1]
      ensures |old(accepted)| < |accepted| && lastLedger.Some? ==> sequence <= lastLedger.value
      // The ledger last taken is returned again, even by a closed backend.
      ensures old(Cached(sequence)) ==> r == Ok(old(cachedMeta).value)
      ensures old(Cached(sequence)) || old(Refusal(sequence)).Some? || !started || old(runnerClosed) ==>
        SameBooks(old(Books())) && runnerClosed == old(runnerClosed)
      ensures accepted == old(accepted) ==> cachedMeta == old(cachedMeta)
      ensures !old(Cached(sequence)) && old(Refusal(sequence)).Some? ==> r == Err(old(Refusal(sequence)).value)
      // A runner that never started has no pipe to read from.
      ensures r == Err(NilPipePanic) <==> !old(Cached(sequence)) && old(Refusal(sequence)).None? && !started
      // On a closed runner nothing is taken; on a live one the outcome is that of waiting on the stream.
      ensures !old(Cached(sequence)) && old(Refusal(sequence)).None? && started && old(runnerClosed) ==>
        r == Err(if patience == 0 then ContextDone else RunnerClosed)
      ensures !old(Cached(sequence)) && old(Refusal(sequence)).None? && started && !old(runnerClosed) ==>
        Fetched(r, accepted, consumed - old(consumed), runnerClosed) ==
        Fetch(prepared.value, frequency, old(accepted), pipe[old(consumed)..], sequence, patience, closeFails)
      // So it succeeds exactly when the stream leads there by linked ledgers in time.
      ensures !old(Cached(sequence)) && old(Refusal(sequence)).None? && started ==>
        (r.Ok? <==>
          && !old(runnerClosed)
          && !(closeFails && lastLedger == Some(sequence))
          && Reachable(prepared.value, frequency, old(accepted), pipe[old(consumed)..], sequence, patience))
    {
      hide InStep, Extends, SequenceFits, Finished, Chain, TakenFrom, Reachable, Fetch;
      if cachedMeta.Some? && sequence == cachedMeta.value.sequence {
        return Ok(cachedMeta.value);
      }
      var refusal := Refusal(sequence);
      if refusal.Some? {
        return Err(refusal.value);
      }
      if !started {
        return Err(NilPipePanic);
      }
      if runnerClosed {
        return Err(if patience == 0 then ContextDone else RunnerClosed);
      }
      r := AwaitLedger(sequence, patience, closeFails);
    }

    // ---------- opening a session ----------

    /** Replaces the runner, and on a successful start the session. A closed backend starts no runner. */
    method StartRunner(range: LedgerRange, next: Sequence, starts: bool, stream: seq<PipeResult>) returns (ok: bool)
      requires Valid() && next == (if range.Bounded? then FirstReplay(frequency, range.from) else 0)
      modifies this`prepared, this`nextLedger, this`lastLedger, this`previousLedgerHash
      modifies this`hasRunner, this`started, this`runnerClosed, this`pipe, this`consumed, this`accepted
      ensures Valid() && hasRunner && !runnerClosed && started == ok == (starts && !closed)
      ensures if ok then Opened(range, stream) else SameBooks(old(Books()))
    {
      hide InStep, TakenFrom, Finished, FirstReplay;
      FreshInStep(range, frequency, next, stream);
      hasRunner, started, runnerClosed := true, starts && !closed, false;
      if !started {
        return false;
      }
      prepared, nextLedger, previousLedgerHash := Some(range), next, None;
      lastLedger := if range.Bounded? then Some(range.to) else None;
      pipe, consumed, accepted := stream, 0, [];
      return true;
    }

    /** A session at its very start. */
    ghost predicate Opened(range: LedgerRange, stream: seq<PipeResult>)
      reads this
    {
      prepared == Some(range) && pipe == stream && consumed == 0 && accepted == []
    }

    ghost function Books(): (Option<LedgerRange>, Sequence, Option<string>, seq<PipeResult>, nat, seq<Ledger>)
      reads this
    {
      (prepared, nextLedger, previousLedgerHash, pipe, consumed, accepted)
    }

    ghost predicate SameBooks(books: (Option<LedgerRange>, Sequence, Option<string>, seq<PipeResult>, nat, seq<Ledger>))
      reads this
    {
      Books() == books
    }

    /** Opens a session unless it is already prepared; true when it was. */
    method StartPreparingRange(range: LedgerRange, env: Environment) returns (r: Result<bool, Error>)
      requires Valid()
      modifies this`prepared, this`nextLedger, this`lastLedger, this`previousLedgerHash
      modifies this`hasRunner, this`started, this`runnerClosed, this`pipe, this`consumed, this`accepted
      ensures Valid()
      ensures old(IsPrepared(range, env.exited)) ==>
        r == Ok(true) && SameBooks(old(Books())) && runnerClosed == old(runnerClosed) && started == old(started)
      ensures !old(IsPrepared(range, env.exited)) ==>
        var refusal := OpeningRefusal(frequency, range, env.sources);
        if old(hasRunner) && !old(runnerClosed) && env.closeFails then r == Err(CloseFailed)
        else if old(hasRunner) && !env.exitedAfterClose then r == Err(StillRunning)
        else if refusal.Some? then r == Err(refusal.value)
        else if closed || !env.runnerStarts then r == Err(RunnerFailed) && !started && !runnerClosed
        else r == Ok(false) && Opened(range, env.pipe) && hasRunner && started && !runnerClosed
      ensures r.Err? ==> SameBooks(old(Books())) && (hasRunner ==> runnerClosed || !started)
    {
      if IsPrepared(range, env.exited) {
        return Ok(true);
      }
      if hasRunner {
        var failed := env.closeFails && !runnerClosed;
        runnerClosed := true;
        if failed {
          return Err(CloseFailed);
        }
        if !env.exitedAfterClose {
          return Err(StillRunning);
        }
      }
      var refusal := OpeningRefusal(frequency, range, env.sources);
      if refusal.Some? {
        return Err(refusal.value);
      }
      var next := if range.Bounded? then FirstReplay(frequency, range.from) else 0;
      var ok := StartRunner(range, next, env.runnerStarts, env.pipe);
      if !ok {
        return Err(RunnerFailed);
      }
      return Ok(false);
    }

    /** Prepares a range and fast-forwards to its first ledger. */
    method PrepareRange(range: LedgerRange, env: Environment, patience: nat,
                        closeFails: bool) returns (r: Result<(), Error>)
      requires Valid()
      modifies this
      ensures Valid()
      ensures old(IsPrepared(range, env.exited)) ==> r.Ok? && SameBooks(old(Books())) && cachedMeta == old(cachedMeta)
      // A range that had to be opened ends with its first ledger at hand, and the session holds nothing beyond it.
      ensures r.Ok? && !old(IsPrepared(range, env.exited)) ==>
        && prepared == Some(range) && pipe == env.pipe
        && Cached(range.from)
        && (forall i :: 0 <= i < |accepted| ==> accepted[i].sequence <= range.from)
        && range.from < MAX_SEQUENCE
      // Unless its last ledger has already been taken, the range counts as prepared from then on.
      ensures r.Ok? && !runnerClosed ==> IsPrepared(range, false)
    {
      hide InStep, Chain, TakenFrom, FirstReplay, Reachable, Fetch, Finished, OpeningRefusal, Extends;
      var already := StartPreparingRange(range, env);
      match already {
        case Err(e) => return Err(e);
        case Ok(true) => return Ok(());
        case Ok(false) =>
      }
      var sequence := prepared.value.from;
      ghost var rounds := 2;
      while sequence <= range.from
        invariant Valid() && prepared == Some(range) && pipe == env.pipe && hasRunner && !closed
        invariant 0 <= rounds <= 2
        invariant rounds == 2 ==> sequence == range.from && accepted == []
        invariant rounds == 1 ==> Cached(range.from) && sequence == Wrap32(range.from + 1)
        invariant forall i :: 0 <= i < |accepted| ==> accepted[i].sequence <= range.from
        invariant rounds == 0 ==> false
        decreases rounds
      {
        ghost var first := rounds == 2;
        var ledger := GetLedger(sequence, patience, closeFails);
        if ledger.Err? {
          return Err(ledger.error);
        }
        sequence := Wrap32(sequence + 1);
        rounds := rounds - 1;
      }
      return Ok(());
    }

    method Close()
      requires Valid()
      modifies this`closed, this`runnerClosed
      ensures Valid() && closed && runnerClosed == (old(runnerClosed) || hasRunner)
      ensures forall s: Sequence :: !Cached(s) ==> Refusal(s) == Some(NoLongerUsable)
      ensures forall range, exited :: !IsPrepared(range, exited)
    {
      closed := true;
      if hasRunner {
        runnerClosed := true;
      }
    }

    // ---------- what holds at every point of every run ----------

    /**
     * The ledgers a session has accepted are the first results of its pipe, in order, each the
     * hash successor of the one before. In a bounded session they are consecutive from the first ledger
     * of the checkpoint asked for and stay within the range; an unbounded one starts at or before
     * the ledger asked for and is consecutive as long as the 32-bit counter does not run out.
     */
    lemma SessionSafety()
      requires Valid() && prepared.Some?
      ensures TakenFrom(pipe, accepted) && HashLinked(accepted)
      ensures prepared.value.Bounded? ==>
        && Consecutive(accepted)
        && (forall i :: 0 <= i < |accepted| ==> accepted[i].sequence <= prepared.value.to)
        && (accepted != [] ==> StartsRunOf(frequency, prepared.value.from, accepted[0].sequence))
      ensures prepared.value.Unbounded? && accepted != [] ==> accepted[0].sequence <= prepared.value.from
      ensures Consecutive(accepted) <==> forall i :: 0 <= i < |accepted| - 1 ==> accepted[i].sequence < MAX_SEQUENCE
    {
      hide FirstReplay, StartsRunOf;
      var range := prepared.value;
      FirstReplayStartsRun(frequency, range.from);
      ChainHashLinked(range, frequency, accepted);
      ChainConsecutive(range, frequency, accepted);
      if accepted != [] {
        assert Extends(range, frequency, accepted[..0], accepted[0]);
      }
    }

    /** The last ledger of a session, as long as the counter has not run out after it. */
    ghost predicate Last(ledger: Ledger)
      reads this
    {
      prepared.Some? && accepted != [] && ledger == accepted[|accepted|-1] && ledger.sequence < MAX_SEQUENCE
    }

    /** A session under way refuses what it has gone past and what lies past its end, and nothing else. */
    lemma RefusesOutside(last: Ledger, sequence: Sequence)
      requires Valid() && Last(last) && !closed
      ensures Refusal(sequence) == Some(Behind) <==> sequence <= last.sequence
      ensures Refusal(sequence) == Some(PastRange)
              <==> sequence > last.sequence && prepared.value.Bounded? && sequence > prepared.value.to
      ensures Refusal(sequence).Some? ==> Refusal(sequence).value in {Behind, PastRange}
    {
      hide FirstReplay, Chain;
    }

    /**
     * A session under way is prepared for exactly the ranges that start no earlier than its last ledger
     * and end within it; one that ends at ledger 0 is taken for an unbounded one.
     */
    lemma PreparedExactly(last: Ledger, range: LedgerRange, exited: bool)
      requires Valid() && Last(last)
      ensures IsPrepared(range, exited) <==>
        && !closed && !runnerClosed && !exited
        && last.sequence <= range.from
        && (prepared.value.Bounded? && prepared.value.to != 0 ==>
            range.Bounded? && range.to <= prepared.value.to)
    {
      hide FirstReplay, Chain;
    }

    /** A read of the ledger is answered from the cache or gets to the stream of a runner. */
    ghost predicate Readable(sequence: Sequence)
      reads this
    {
      Cached(sequence) || (Refusal(sequence).None? && started)
    }

    /**
     * A range reported as prepared is readable from its start, except in three cases: the last runner
     * never started; the start lies past the end of the session, as it does for an empty request and
     * for every request to a session that ends at ledger 0, which is taken for an unbounded one; or
     * ledger 0 is asked for while nothing is cached, since "nothing" is compared as ledger 0.
     */
    lemma PreparedIsReadable(range: LedgerRange, exited: bool)
      requires Valid() && IsPrepared(range, exited)
      ensures Readable(range.from) <==>
        || Cached(range.from)
        || (&& started
            && !(lastLedger.Some? && range.from > lastLedger.value)
            && !(cachedMeta.None? && range.from == 0 && NextExpectedSequence() > 0))
      // For a request that is not empty and starts at ledger 1 or later, only two of them are left.
      ensures range.from >= 1 && (range.Bounded? ==> range.from <= range.to) ==>
        (Readable(range.from) <==> Cached(range.from) || (started && lastLedger != Some(0)))
    {
      hide FirstReplay, Chain;
    }
  }

  // ---------- runs in which a promise fails ----------

  /** An archive up to `root`, a core with a database, and a runner that starts or does not. */
  function Surroundings(root: Sequence, starts: bool, pipe: seq<PipeResult>): Environment {
    Environment(false, false, true, Sources(Some(root), s => None, true, None), starts, pipe)
  }

  /** With checkpoints of 64 ledgers and a database, a ledger within 128 of the root can be run from. */
  lemma RunAllowed(root: Sequence, from: Sequence, starts: bool, pipe: seq<PipeResult>)
    requires 64 <= from <= root + 128 < TWO_32
    ensures OpeningRefusal(64, Unbounded(from), Surroundings(root, starts, pipe).sources).None?
  {
    assert NextCheckpoint(64, 0) == 63;
  }

  /** A new backend with a running unbounded session that has streamed nothing yet. */
  method OpenUnbounded(root: Sequence, from: Sequence, pipe: seq<PipeResult>) returns (core: CaptiveHcnetCore)
    requires 64 <= from <= root + 128 < TWO_32
    ensures fresh(core) && core.Valid() && core.Opened(Unbounded(from), pipe) && core.frequency == 64
    ensures core.hasRunner && core.started && !core.runnerClosed && !core.closed
    ensures core.nextLedger == 0 && core.cachedMeta.None? && core.lastLedger.None?
  {
    hide OpeningRefusal, Chain, Consecutive, FirstReplay, RunFromParams;
    core := new CaptiveHcnetCore(64);
    RunAllowed(root, from, true, pipe);
    var start := core.StartPreparingRange(Unbounded(from), Surroundings(root, true, pipe));
  }

  /** Past the last sequence number the counter is back at 0, and an earlier ledger is accepted, whatever the hashes. */
  method CounterRunsOut(h0: string, h1: string, h2: string, h3: string) returns (core: CaptiveHcnetCore)
    ensures fresh(core) && core.Valid() && core.prepared.Some?
    ensures HashLinked(core.accepted) && !Consecutive(core.accepted)
  {
    var from := MAX_SEQUENCE - 1;
    var first, last, again := Ledger(from, h0, h1), Ledger(MAX_SEQUENCE, h1, h2), Ledger(from, h2, h3);
    var pipe := [PipeLedger(first), PipeLedger(last), PipeLedger(again)];
    core := OpenUnbounded(MAX_SEQUENCE - 128, from, pipe);
    RunOut(core, first, last, again);
    Wrapping(from, first, last, again);
  }

  method RunOut(core: CaptiveHcnetCore, first: Ledger, last: Ledger, again: Ledger)
    requires first.sequence == again.sequence == MAX_SEQUENCE - 1 && last.sequence == MAX_SEQUENCE
    requires last.previousHash == first.hash && again.previousHash == last.hash
    requires core.Valid() && core.frequency == 64
    requires core.Opened(Unbounded(first.sequence), [PipeLedger(first), PipeLedger(last), PipeLedger(again)])
    requires core.hasRunner && core.started && !core.runnerClosed && !core.closed
    requires core.nextLedger == 0 && core.cachedMeta.None? && core.lastLedger.None?
    modifies core`consumed, core`nextLedger, core`previousLedgerHash, core`cachedMeta, core`runnerClosed, core`accepted
    ensures core.Valid() && core.accepted == [first, last, again]
  {
    var from := first.sequence;
    assert core.prepared == Some(Unbounded(from)) && core.accepted == [] && core.consumed == 0;
    assert |core.pipe| == 3 && core.pipe[0] == PipeLedger(first) && core.pipe[1] == PipeLedger(last)
      && core.pipe[2] == PipeLedger(again);
    hide *;
    Wrapping(from, first, last, again);
    Unrefused(core, from);
    TakeNext(core, first);
    assert core.accepted == [first];
    Unrefused(core, MAX_SEQUENCE);
    TakeNext(core, last);
    assert core.accepted == [first, last];
    Unrefused(core, from);
    TakeNext(core, again);
  }

  lemma Wrapping(from: Sequence, first: Ledger, last: Ledger, again: Ledger)
    requires from == first.sequence == again.sequence == MAX_SEQUENCE - 1 && last.sequence == MAX_SEQUENCE
    requires last.previousHash == first.hash && again.previousHash == last.hash
    ensures Wrap32(from + 1) == MAX_SEQUENCE && Wrap32(MAX_SEQUENCE + 1) == 0
    ensures Extends(Unbounded(from), 64, [], first)
    ensures Extends(Unbounded(from), 64, [first], last)
    ensures Extends(Unbounded(from), 64, [first, last], again)
    ensures HashLinked([first, last, again]) && !Consecutive([first, last, again])
  {
    hide FirstReplay;
    var all := [first, last, again];
    assert all[2].sequence != all[0].sequence + 2;
  }

  lemma Unrefused(core: CaptiveHcnetCore, s: Sequence)
    requires core.prepared.Some? && !core.closed && core.hasRunner && core.lastLedger.None?
    requires (if core.nextLedger == 0 then core.prepared.value.from else core.nextLedger) <= s
    requires core.cachedMeta.Some? ==> core.cachedMeta.value.sequence != s
    ensures core.Refusal(s).None? && !core.Cached(s)
  {
  }

  /** Reads the ledger that the stream of an unbounded session yields next, when it fits. */
  method TakeNext(core: CaptiveHcnetCore, ledger: Ledger)
    requires core.Valid() && core.prepared.Some? && core.prepared.value.Unbounded?
    requires !core.closed && core.started && !core.runnerClosed && core.consumed < |core.pipe|
    requires core.pipe[core.consumed] == PipeLedger(ledger)
    requires Extends(core.prepared.value, core.frequency, core.accepted, ledger)
    requires !core.Cached(ledger.sequence) && core.Refusal(ledger.sequence).None?
    modifies core`consumed, core`nextLedger, core`previousLedgerHash, core`cachedMeta, core`runnerClosed, core`accepted
    ensures core.Valid() && !core.runnerClosed && core.consumed == old(core.consumed) + 1
    ensures core.accepted == old(core.accepted) + [ledger] && core.cachedMeta == Some(ledger)
    ensures core.nextLedger == Wrap32(ledger.sequence + 1)
  {
    hide Extends, Reachable, Advanced, TakenFrom, Finished, Chain, Consecutive;
    FetchOne(core.prepared.value, core.frequency, core.accepted, core.pipe, core.consumed, ledger.sequence);
    var r := core.GetLedger(ledger.sequence, 1, false);
  }

  /** Waiting for the very next result of a stream, when it is the ledger asked for and fits. */
  lemma FetchOne(range: LedgerRange, frequency: Frequency, accepted: seq<Ledger>, pipe: seq<PipeResult>, n: nat,
                 s: Sequence)
    requires range.Unbounded? && n < |pipe| && pipe[n].PipeLedger? && pipe[n].ledger.sequence == s
    requires Extends(range, frequency, accepted, pipe[n].ledger)
    ensures Fetch(range, frequency, accepted, pipe[n..], s, 1, false)
      == Fetched(Ok(pipe[n].ledger), accepted + [pipe[n].ledger], 1, false)
  {
    hide Extends;
    assert pipe[n..][0] == pipe[n];
  }

  /** The session of a bounded range that ends at ledger 0 reports other ranges as prepared and refuses them. */
  method EndsAtLedgerZero() returns (core: CaptiveHcnetCore, r: Result<Ledger, Error>)
    ensures fresh(core) && core.Valid()
    ensures core.IsPrepared(Unbounded(100), false) && core.started && !core.Readable(100)
    ensures r == Err(PastRange)
  {
    core := new CaptiveHcnetCore(64);
    var start := core.StartPreparingRange(Bounded(0, 0), Surroundings(127, true, []));
    assert core.nextLedger <= 2;
    r := core.GetLedger(100, 5, false);
  }

  /** After a runner that failed to start, the old session still counts as prepared and has no pipe. */
  method FailedRestart() returns (core: CaptiveHcnetCore, r: Result<Ledger, Error>)
    ensures fresh(core) && core.Valid()
    ensures core.IsPrepared(Unbounded(100), false) && core.lastLedger.None? && !core.Readable(100)
    ensures r == Err(NilPipePanic)
  {
    hide InStep, Chain, TakenFrom, Finished, FirstReplay, OpeningRefusal;
    core := OpenUnbounded(127, 100, []);
    RunAllowed(127, 70, false, []);
    var failed := core.StartPreparingRange(Unbounded(70), Surroundings(127, false, []));
    r := core.GetLedger(100, 5, false);
  }

  /** While nothing is cached, ledger 0 counts as prepared in any session, and a later session refuses it. */
  method NothingCachedIsLedgerZero() returns (core: CaptiveHcnetCore, r: Result<Ledger, Error>)
    ensures fresh(core) && core.Valid()
    ensures core.IsPrepared(Unbounded(0), false) && core.started && core.lastLedger.None? && !core.Readable(0)
    ensures r == Err(Behind)
  {
    hide InStep, Chain, TakenFrom, Finished, FirstReplay;
    core := OpenUnbounded(127, 100, []);
    r := core.GetLedger(0, 5, false);
  }
}
