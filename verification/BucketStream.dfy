/** Streaming a checkpoint's ledger entries from its bucket list (ingest/checkpoint_change_reader.go). */
module BucketStream {
  import opened Common
  import opened LedgerKeys

  datatype LedgerEntry = LedgerEntry(key: LedgerKey, data: Bytes)

  datatype BucketEntry =
    | MetaEntry(ledgerVersion: nat)
    | LiveEntry(entry: LedgerEntry)
    | InitEntry(entry: LedgerEntry)
    | DeadEntry(dead: LedgerKey)
    | UnknownEntry

  /** A stored bucket; a faulty one yields a read error instead of the end of the file. */
  datatype Bucket = Bucket(entries: seq<BucketEntry>, faulty: bool)

  datatype StreamError =
    | BadHash | ExistenceUnknown | BucketMissing | SizeUnknown
    | RecordError | MetaNotFirst | InitInOldBucket | UnknownType

  /** A bucket hash in the archive state: text that is no hash, the hash of an empty bucket, or a name. */
  datatype BucketName = Undecodable | Zero | Named(hash: string)

  datatype Level = Level(curr: BucketName, snap: BucketName)

  /** What the archive knows under a hash. */
  datatype Stored = Unknown | Absent | Unsized | Stored(bucket: Bucket)

  datatype ReadResult = State(entry: LedgerEntry) | Failure(error: StreamError)

  /** How many entries are read ahead before any of them is processed. */
  const PRELOADED_ENTRIES: int := 20000

  predicate HasKey(e: BucketEntry) {
    e.LiveEntry? || e.InitEntry? || e.DeadEntry?
  }

  function KeyOf(e: BucketEntry): LedgerKey
    requires HasKey(e)
  {
    if e.DeadEntry? then e.dead else e.entry.key
  }

  ghost predicate ValidEntries(entries: seq<BucketEntry>) {
    forall i :: 0 <= i < |entries| && HasKey(entries[i]) ==> ValidKey(KeyOf(entries[i]))
  }

  // ---------- one bucket, entry by entry ----------

  /** What the stream has produced and remembers, and whether it had to stop. */
  datatype Progress = Progress(seen: set<Bytes>, out: seq<ReadResult>, version: nat, stopped: bool)

  function Stop(s: Progress, error: StreamError): Progress {
    s.(out := s.out + [Failure(error)], stopped := true)
  }

  /** The n-th entry of a bucket. */
  function Next(s: Progress, n: nat, e: BucketEntry, oldest: bool): Progress
    requires HasKey(e) ==> ValidKey(KeyOf(e))
  {
    match e
    case MetaEntry(v) => if n != 0 then Stop(s, MetaNotFirst) else s.(version := v)
    case UnknownEntry => Stop(s, UnknownType)
    case DeadEntry(k) => s.(seen := s.seen + {Compress(k)})
    case LiveEntry(entry) =>
      if Compress(entry.key) in s.seen then s
      else if oldest then s.(out := s.out + [State(entry)])
      else s.(out := s.out + [State(entry)], seen := s.seen + {Compress(entry.key)})
    case InitEntry(entry) =>
      if s.version < 11 then Stop(s, InitInOldBucket)
      else if Compress(entry.key) in s.seen then s
      else s.(out := s.out + [State(entry)])
  }

  /** The first k entries of a bucket. */
  ghost function Run(s: Progress, entries: seq<BucketEntry>, k: nat, oldest: bool): Progress
    requires k <= |entries| && ValidEntries(entries)
  {
    if k == 0 then s else
    var before := Run(s, entries, k - 1, oldest);
    if before.stopped then before else Next(before, k - 1, entries[k-1], oldest)
  }

  /** The entries that are processed: a read error discards the batch it occurs in. */
  ghost function Processed(b: Bucket): (r: nat)
    ensures r <= |b.entries|
  {
    if b.faulty then |b.entries| - |b.entries| % PRELOADED_ENTRIES else |b.entries|
  }

  ghost function RunBucket(s: Progress, b: Bucket, oldest: bool): Progress
    requires ValidEntries(b.entries)
  {
    var r := Run(s.(version := 0), b.entries, Processed(b), oldest);
    if b.faulty && !r.stopped then Stop(r, RecordError) else r
  }

  lemma {:induction false} StaysStopped(s: Progress, entries: seq<BucketEntry>, k: nat, m: nat, oldest: bool)
    requires k <= m <= |entries| && ValidEntries(entries) && Run(s, entries, k, oldest).stopped
    ensures Run(s, entries, m, oldest) == Run(s, entries, k, oldest)
  {
    hide Next, ValidKey;
    if k < m {
      StaysStopped(s, entries, k, m - 1, oldest);
    }
  }

  class CheckpointChangeReader {
    var tempStore: set<Bytes>
    var readChan: seq<ReadResult>

    constructor ()
      ensures tempStore == {} && readChan == []
    {
      tempStore, readChan := {}, [];
    }

    /** Streams one bucket, reading ahead in batches; returns whether to go on to the next bucket. */
    method StreamBucketContents(b: Bucket, oldest: bool) returns (more: bool)
      requires ValidEntries(b.entries)
      modifies this
      ensures var r := RunBucket(Progress(old(tempStore), old(readChan), 0, false), b, oldest);
              tempStore == r.seen && readChan == r.out && more == !r.stopped
    {
      hide Next, Compress, ValidKey, Processed;
      ghost var start := Progress(tempStore, readChan, 0, false);
      var version := 0;
      var position := 0;
      var n := -1;
      var batch: seq<BucketEntry> := [];
      var lastBatch := false;
      while true
        invariant 0 <= position <= |b.entries| && 0 <= n + 1 <= position
        invariant batch == b.entries[n+1..position] && n + 1 <= Processed(b)
        invariant lastBatch ==> position == |b.entries| && !b.faulty
        invariant batch != [] ==> position <= Processed(b)
        invariant !lastBatch ==> position % PRELOADED_ENTRIES == 0
        invariant Run(start, b.entries, n + 1, oldest) == Progress(tempStore, readChan, version, false)
        decreases |b.entries| - n
      {
        if |batch| == 0 {
          if lastBatch {
            return true;
          }
          ProcessedPoint(b, position);
          batch, position, lastBatch := ReadBatch(b, position);
          if |batch| < PRELOADED_ENTRIES && b.faulty {
            FaultPoint(b, position, |batch|);
            readChan := readChan + [Failure(RecordError)];
            return false;
          }
          if |batch| == 0 {
            return true;
          }
        }
        var entry := batch[0];
        batch := batch[1..];
        n := n + 1;
        assert entry == b.entries[n];
        var stop: bool;
        version, stop := ProcessEntry(entry, n, version, oldest);
        if stop {
          StaysStopped(start, b.entries, n + 1, Processed(b), oldest);
          return false;
        }
      }
    }

    /** Collects the buckets of all levels, checks that each is there, and streams them. */
    method StreamBuckets(levels: seq<Level>, archive: string -> Stored)
      requires forall h :: archive(h).Stored? ==> ValidEntries(archive(h).bucket.entries)
      modifies this
      ensures var fault := ListFault(levels, archive);
        if fault.Some? then readChan == old(readChan) + [Failure(fault.value)] && tempStore == old(tempStore)
        else
          && ValidBuckets(ListedBuckets(levels, archive))
          && readChan == RunBuckets(Progress(old(tempStore), old(readChan), 0, false),
                                    ListedBuckets(levels, archive), |ListedBuckets(levels, archive)|).out
      // A new reader on a sound list delivers exactly the entries of the replay, each key once.
      ensures old(tempStore) == {} && old(readChan) == [] && ListFault(levels, archive).None? ==>
        SoundList(ListedBuckets(levels, archive)) ==> DeliversReplay(readChan, ListedBuckets(levels, archive))
    {
      hide RunBuckets, ValidEntries, ListedBuckets, SoundList, DeliversReplay;
      var names := CollectNames(levels);
      if names.None? {
        readChan := readChan + [Failure(BadHash)];
        return;
      }
      var buckets := CheckBuckets(names.value, archive);
      match buckets {
        case Err(fault) => readChan := readChan + [Failure(fault)];
        case Ok(list) =>
          ListedAre(levels, archive);
          FetchedValid(names.value, archive);
          if SoundList(list) {
            StreamAgreesWithReplay(list);
          }
          StreamAll(list);
      }
    }

    /** Streams the buckets of the list, newest first, until one of them stops the stream. */
    method StreamAll(buckets: seq<Bucket>)
      requires ValidBuckets(buckets)
      modifies this
      ensures readChan == RunBuckets(Progress(old(tempStore), old(readChan), 0, false), buckets, |buckets|).out
    {
      hide RunBucket, ValidEntries;
      ghost var start := Progress(tempStore, readChan, 0, false);
      for i := 0 to |buckets|
        invariant var r := RunBuckets(start, buckets, i); r.seen == tempStore && r.out == readChan && !r.stopped
      {
        VersionForgotten(RunBuckets(start, buckets, i), buckets[i], i == |buckets| - 1);
        var more := StreamBucketContents(buckets[i], i == |buckets| - 1);
        if !more {
          StoppedForGood(start, buckets, i + 1, |buckets|);
          break;
        }
      }
    }

    /** The n-th entry of a bucket; `stop` means that the channel has to be closed. */
    method ProcessEntry(entry: BucketEntry, n: nat, version: nat, oldest: bool) returns (version': nat, stop: bool)
      requires HasKey(entry) ==> ValidKey(KeyOf(entry))
      modifies this
      ensures Progress(tempStore, readChan, version', stop) ==
              Next(Progress(old(tempStore), old(readChan), version, false), n, entry, oldest)
    {
      hide Compress;
      version', stop := version, false;
      match entry {
        case MetaEntry(v) =>
          if n != 0 {
            readChan := readChan + [Failure(MetaNotFirst)];
            stop := true;
          } else {
            version' := v;
          }
        case UnknownEntry =>
          readChan := readChan + [Failure(UnknownType)];
          stop := true;
        case DeadEntry(k) =>
          tempStore := tempStore + {Compress(k)};
        case LiveEntry(live) =>
          var h := Compress(live.key);
          if h !in tempStore {
            readChan := readChan + [State(live)];
            if !oldest {
              tempStore := tempStore + {h};
            }
          }
        case InitEntry(live) =>
          if version < 11 {
            readChan := readChan + [Failure(InitInOldBucket)];
            stop := true;
          } else {
            var h := Compress(live.key);
            if h !in tempStore {
              readChan := readChan + [State(live)];
            }
          }
      }
    }
  }

  // ---------- the buckets of an archive state ----------

  function NameOf(name: BucketName): seq<string> {
    if name.Named? then [name.hash] else []
  }

  /** The hashes of the non-empty buckets, newest level first and `curr` before `snap`. */
  function BucketNames(levels: seq<Level>): seq<string> {
    if levels == [] then [] else
    var n := |levels| - 1;
    BucketNames(levels[..n]) + NameOf(levels[n].curr) + NameOf(levels[n].snap)
  }

  predicate Decodable(levels: seq<Level>) {
    forall i :: 0 <= i < |levels| ==> !levels[i].curr.Undecodable? && !levels[i].snap.Undecodable?
  }

  function FaultOf(stored: Stored): StreamError {
    match stored
    case Unknown => ExistenceUnknown
    case Absent => BucketMissing
    case _ => SizeUnknown
  }

  /** The first hash under which the archive has no bucket to read. */
  function NameFault(names: seq<string>, archive: string -> Stored): (r: Option<StreamError>)
    ensures r.None? <==> forall i :: 0 <= i < |names| ==> archive(names[i]).Stored?
  {
    if names == [] then None else
    var before := NameFault(names[..|names|-1], archive);
    var last := archive(names[|names|-1]);
    if before.Some? then before else if last.Stored? then None else Some(FaultOf(last))
  }

  function ListFault(levels: seq<Level>, archive: string -> Stored): Option<StreamError> {
    if Decodable(levels) then NameFault(BucketNames(levels), archive) else Some(BadHash)
  }

  function Fetched(names: seq<string>, archive: string -> Stored): seq<Bucket>
    requires NameFault(names, archive).None?
  {
    seq(|names|, i requires 0 <= i < |names| => archive(names[i]).bucket)
  }

  function ListedBuckets(levels: seq<Level>, archive: string -> Stored): seq<Bucket>
    requires ListFault(levels, archive).None?
  {
    Fetched(BucketNames(levels), archive)
  }

  /** The output holds exactly the entries left by an oldest-to-newest replay, and no key twice. */
  ghost predicate DeliversReplay(out: seq<ReadResult>, buckets: seq<Bucket>) {
    && DistinctKeys(out)
    && (forall p :: 0 <= p < |out| ==> out[p].State?)
    && forall e: LedgerEntry ::
         State(e) in out <==> e.key in ReplayAll(buckets) && ReplayAll(buckets)[e.key] == e
  }

  /** Decodes the hashes of all levels, leaving out empty buckets; None when one of them is no hash. */
  method CollectNames(levels: seq<Level>) returns (r: Option<seq<string>>)
    ensures r == if Decodable(levels) then Some(BucketNames(levels)) else None
  {
    hide BucketNames, Decodable;
    var names: seq<string> := [];
    NoNames();
    for i := 0 to |levels|
      invariant names == BucketNames(levels[..i]) && Decodable(levels[..i])
    {
      NamesExtended(levels, i);
      var more := LevelNames(levels[i]);
      if more.None? {
        NotDecodable(levels, i);
        return None;
      }
      names := names + more.value;
    }
    assert levels[..|levels|] == levels;
    r := Some(names);
  }

  method LevelNames(level: Level) returns (r: Option<seq<string>>)
    ensures r == if level.curr.Undecodable? || level.snap.Undecodable? then None
                 else Some(NameOf(level.curr) + NameOf(level.snap))
  {
    var names: seq<string> := [];
    for j := 0 to 2
      invariant j == 0 ==> names == []
      invariant j == 1 ==> !level.curr.Undecodable? && names == NameOf(level.curr)
      invariant j == 2 ==> !level.curr.Undecodable? && !level.snap.Undecodable?
      invariant j == 2 ==> names == NameOf(level.curr) + NameOf(level.snap)
    {
      match if j == 0 then level.curr else level.snap {
        case Undecodable => return None;
        case Zero =>
        case Named(hash) => names := names + [hash];
      }
    }
    r := Some(names);
  }

  lemma NoNames()
    ensures BucketNames([]) == [] && Decodable([])
  {
  }

  lemma NamesExtended(levels: seq<Level>, i: nat)
    requires i < |levels|
    ensures BucketNames(levels[..i+1])
      == BucketNames(levels[..i]) + (NameOf(levels[i].curr) + NameOf(levels[i].snap))
    ensures Decodable(levels[..i]) && !levels[i].curr.Undecodable? && !levels[i].snap.Undecodable? ==>
      Decodable(levels[..i+1])
  {
    assert levels[..i+1][..i] == levels[..i];
  }

  /** Checks for each bucket in turn that it exists and has a size. */
  method CheckBuckets(names: seq<string>, archive: string -> Stored) returns (r: Result<seq<Bucket>, StreamError>)
    ensures r == match NameFault(names, archive)
                 case Some(fault) => Err(fault)
                 case None => Ok(Fetched(names, archive))
  {
    var buckets: seq<Bucket> := [];
    for i := 0 to |names|
      invariant NameFault(names[..i], archive).None? && buckets == Fetched(names[..i], archive)
    {
      assert names[..i+1][..i] == names[..i];
      var stored := archive(names[i]);
      if !stored.Stored? {
        FaultFound(names, archive, i);
        return Err(FaultOf(stored));
      }
      buckets := buckets + [stored.bucket];
    }
    assert names[..|names|] == names;
    r := Ok(buckets);
  }

  lemma ListedAre(levels: seq<Level>, archive: string -> Stored)
    requires ListFault(levels, archive).None?
    ensures ListedBuckets(levels, archive) == Fetched(BucketNames(levels), archive)
  {
  }

  lemma NotDecodable(levels: seq<Level>, i: nat)
    requires i < |levels| && (levels[i].curr.Undecodable? || levels[i].snap.Undecodable?)
    ensures !Decodable(levels)
  {
  }

  lemma {:induction false} FaultFound(names: seq<string>, archive: string -> Stored, i: nat)
    requires i < |names| && NameFault(names[..i], archive).None? && !archive(names[i]).Stored?
    ensures NameFault(names, archive) == Some(FaultOf(archive(names[i])))
    decreases |names|
  {
    var n := |names| - 1;
    if i < n {
      assert names[..n][..i] == names[..i];
      FaultFound(names[..n], archive, i);
    }
  }

  lemma FetchedValid(names: seq<string>, archive: string -> Stored)
    requires NameFault(names, archive).None?
    requires forall h :: archive(h).Stored? ==> ValidEntries(archive(h).bucket.entries)
    ensures ValidBuckets(Fetched(names, archive))
  {
    hide ValidEntries;
  }

  /** Reads up to a batch of entries from a position; a short batch means the file ended or failed. */
  method ReadBatch(b: Bucket, from: nat) returns (batch: seq<BucketEntry>, position: nat, last: bool)
    requires from <= |b.entries|
    ensures from <= position <= |b.entries| && batch == b.entries[from..position]
    ensures |batch| <= PRELOADED_ENTRIES && (|batch| < PRELOADED_ENTRIES ==> position == |b.entries|)
    ensures last <==> 0 < |batch| < PRELOADED_ENTRIES && !b.faulty
  {
    batch, position, last := [], from, false;
    for i := 0 to PRELOADED_ENTRIES
      invariant position == from + i <= |b.entries| && batch == b.entries[from..position] && !last
    {
      if position == |b.entries| {
        last := |batch| > 0 && !b.faulty;
        return;
      }
      batch := batch + [b.entries[position]];
      position := position + 1;
    }
  }

  /** Whole batches are always processed, and an undamaged bucket is processed to its end. */
  lemma ProcessedPoint(b: Bucket, position: nat)
    requires position <= |b.entries|
    ensures !b.faulty ==> Processed(b) == |b.entries|
    ensures position % PRELOADED_ENTRIES == 0 ==>
              && (position + PRELOADED_ENTRIES) % PRELOADED_ENTRIES == 0
              && (position + PRELOADED_ENTRIES <= |b.entries| ==> position + PRELOADED_ENTRIES <= Processed(b))
  {
  }

  lemma FaultPoint(b: Bucket, position: nat, length: nat)
    requires b.faulty && position == |b.entries| && length < PRELOADED_ENTRIES && length <= position
    requires (position - length) % PRELOADED_ENTRIES == 0
    ensures Processed(b) == position - length
  {
    var q := (position - length) / PRELOADED_ENTRIES;
    assert position == PRELOADED_ENTRIES * q + length;
  }

  // ---------- the bucket list ----------

  ghost predicate ValidBuckets(buckets: seq<Bucket>) {
    forall i :: 0 <= i < |buckets| ==> ValidEntries(buckets[i].entries)
  }

  /** The first i buckets, newest first; the last one of the list is the oldest. */
  ghost function RunBuckets(s: Progress, buckets: seq<Bucket>, i: nat): Progress
    requires i <= |buckets| && ValidBuckets(buckets)
  {
    if i == 0 then s else
    var before := RunBuckets(s, buckets, i - 1);
    if before.stopped then before else RunBucket(before, buckets[i-1], i == |buckets|)
  }

  lemma VersionForgotten(s: Progress, b: Bucket, oldest: bool)
    requires ValidEntries(b.entries)
    ensures RunBucket(s, b, oldest) == RunBucket(s.(version := 0), b, oldest)
  {
  }

  lemma {:induction false} StoppedForGood(s: Progress, buckets: seq<Bucket>, i: nat, m: nat)
    requires i <= m <= |buckets| && ValidBuckets(buckets) && RunBuckets(s, buckets, i).stopped
    ensures RunBuckets(s, buckets, m) == RunBuckets(s, buckets, i)
  {
    hide RunBucket, ValidEntries;
    if i < m {
      StoppedForGood(s, buckets, i, m - 1);
    }
  }

  // ---------- what the stream must produce ----------

  /** The entry a bucket holds under a key. */
  ghost function Lookup(entries: seq<BucketEntry>, k: LedgerKey): (r: Option<BucketEntry>)
    ensures r.Some? ==> HasKey(r.value) && KeyOf(r.value) == k && r.value in entries
    ensures r.None? ==> forall e :: e in entries && HasKey(e) ==> KeyOf(e) != k
  {
    if entries == [] then None else
    var e := entries[|entries|-1];
    if HasKey(e) && KeyOf(e) == k then Some(e) else Lookup(entries[..|entries|-1], k)
  }

  /** Applying a bucket to a set of entries, oldest to newest: the straightforward replay. */
  ghost function Replay(m: map<LedgerKey, LedgerEntry>, entries: seq<BucketEntry>): map<LedgerKey, LedgerEntry> {
    if entries == [] then m else
    var before := Replay(m, entries[..|entries|-1]);
    match entries[|entries|-1]
    case LiveEntry(e) => before[e.key := e]
    case InitEntry(e) => before[e.key := e]
    case DeadEntry(k) => before - {k}
    case _ => before
  }

  /** The replay of a bucket list given newest first. */
  ghost function ReplayAll(buckets: seq<Bucket>): map<LedgerKey, LedgerEntry> {
    if buckets == [] then map[] else Replay(ReplayAll(buckets[1..]), buckets[0].entries)
  }

  /** The entry that decides about a key among the i newest buckets: the one in the newest bucket that has the key. */
  ghost function Newest(buckets: seq<Bucket>, i: nat, k: LedgerKey): Option<BucketEntry>
    requires i <= |buckets|
  {
    if i == 0 then None
    else if Newest(buckets, i - 1, k).Some? then Newest(buckets, i - 1, k)
    else Lookup(buckets[i-1].entries, k)
  }

  ghost predicate Alive(e: Option<BucketEntry>, entry: LedgerEntry) {
    e == Some(LiveEntry(entry)) || e == Some(InitEntry(entry))
  }

  // ---------- what the bucket list must satisfy ----------

  /** An undamaged bucket: METAENTRY only first, INITENTRY only from protocol 11 on, no key twice. */
  ghost predicate SoundBucket(b: Bucket) {
    && !b.faulty && ValidEntries(b.entries)
    && (forall i :: 0 <= i < |b.entries| ==> !b.entries[i].UnknownEntry?)
    && (forall i :: 0 < i < |b.entries| ==> !b.entries[i].MetaEntry?)
    && ((exists i :: 0 <= i < |b.entries| && b.entries[i].InitEntry?) ==>
      b.entries[0].MetaEntry? && b.entries[0].ledgerVersion >= 11)
    && UniqueKeys(b.entries)
  }

  ghost predicate UniqueKeys(entries: seq<BucketEntry>) {
    forall i, j :: 0 <= i < j < |entries| && HasKey(entries[i]) && HasKey(entries[j]) ==>
      KeyOf(entries[i]) != KeyOf(entries[j])
  }

  /** CAP-20: the next older entry under an INITENTRY's key, if any, is a DEADENTRY. */
  ghost predicate InitRule(buckets: seq<Bucket>) {
    forall i, j, k :: 0 <= i < j < |buckets| && IsInit(Lookup(buckets[i].entries, k)) && NextOlder(buckets, i, j, k) ==>
      Lookup(buckets[j].entries, k).value.DeadEntry?
  }

  ghost predicate IsInit(e: Option<BucketEntry>) {
    e.Some? && e.value.InitEntry?
  }

  ghost predicate NextOlder(buckets: seq<Bucket>, i: nat, j: nat, k: LedgerKey)
    requires i < j < |buckets|
  {
    Lookup(buckets[j].entries, k).Some? && forall m :: i < m < j ==> Lookup(buckets[m].entries, k).None?
  }

  /** The keys of the list are canonical keys of one ledger. */
  ghost predicate OneLedger(buckets: seq<Bucket>) {
    && (forall k :: Mentions(buckets, k) ==> Canonical(k))
    && (forall k, k' :: Mentions(buckets, k) && Mentions(buckets, k') ==> OneSellerPerOffer(k, k'))
  }

  ghost predicate Mentions(buckets: seq<Bucket>, k: LedgerKey) {
    exists i :: 0 <= i < |buckets| && Lookup(buckets[i].entries, k).Some?
  }

  ghost predicate SoundList(buckets: seq<Bucket>) {
    && (forall i :: 0 <= i < |buckets| ==> SoundBucket(buckets[i]))
    && OneLedger(buckets) && InitRule(buckets)
  }

  // ---------- one sound bucket ----------

  ghost predicate InjectiveKeys(entries: seq<BucketEntry>)
    requires ValidEntries(entries)
  {
    forall i, j :: 0 <= i < j < |entries| && HasKey(entries[i]) && HasKey(entries[j]) ==>
      Compress(KeyOf(entries[i])) != Compress(KeyOf(entries[j]))
  }

  ghost predicate Emits(e: BucketEntry, seen: set<Bytes>)
    requires HasKey(e) ==> ValidKey(KeyOf(e))
  {
    (e.LiveEntry? || e.InitEntry?) && Compress(e.entry.key) !in seen
  }

  ghost predicate EmitsEntry(e: BucketEntry, seen: set<Bytes>, entry: LedgerEntry)
    requires HasKey(e) ==> ValidKey(KeyOf(e))
  {
    Emits(e, seen) && e.entry == entry
  }

  /** What the first k entries of a bucket add to the output, given what newer buckets left behind. */
  ghost function Fresh(entries: seq<BucketEntry>, k: nat, seen: set<Bytes>): (r: seq<ReadResult>)
    requires k <= |entries| && ValidEntries(entries)
    ensures forall i :: 0 <= i < |r| ==> r[i].State?
  {
    if k == 0 then []
    else if Emits(entries[k-1], seen) then Fresh(entries, k - 1, seen) + [State(entries[k-1].entry)]
    else Fresh(entries, k - 1, seen)
  }

  ghost predicate Marks(e: BucketEntry, oldest: bool) {
    e.DeadEntry? || (e.LiveEntry? && !oldest)
  }

  /** What the first k entries add to the set of seen keys. */
  ghost function Marked(entries: seq<BucketEntry>, k: nat, oldest: bool): (r: set<Bytes>)
    requires k <= |entries| && ValidEntries(entries)
    ensures forall h :: h in r ==>
      exists i :: 0 <= i < k && Marks(entries[i], oldest) && Compress(KeyOf(entries[i])) == h
    ensures forall i :: 0 <= i < k && Marks(entries[i], oldest) ==> Compress(KeyOf(entries[i])) in r
  {
    if k == 0 then {}
    else if Marks(entries[k-1], oldest) then Marked(entries, k - 1, oldest) + {Compress(KeyOf(entries[k-1]))}
    else Marked(entries, k - 1, oldest)
  }

  /** Within a bucket no entry affects another, so the bucket acts on its input all at once. */
  lemma {:induction false} RunSound(s: Progress, b: Bucket, k: nat, oldest: bool)
    requires SoundBucket(b) && InjectiveKeys(b.entries) && k <= |b.entries| && !s.stopped && s.version == 0
    ensures var r := Run(s, b.entries, k, oldest);
            && !r.stopped
            && r.out == s.out + Fresh(b.entries, k, s.seen)
            && r.seen == s.seen + Marked(b.entries, k, oldest)
            && (k > 0 && b.entries[0].MetaEntry? ==> r.version == b.entries[0].ledgerVersion)
  {
    hide Next, Compress, ValidKey, Emits;
    if k > 0 {
      RunSound(s, b, k - 1, oldest);
      var before := Run(s, b.entries, k - 1, oldest);
      var e := b.entries[k-1];
      NextSound(before, k - 1, e, oldest);
      if HasKey(e) {
        assert Compress(KeyOf(e)) !in Marked(b.entries, k - 1, oldest);
        SameEmission(e, s.seen, before.seen);
      }
    }
  }

  lemma SameEmission(e: BucketEntry, seen: set<Bytes>, seen': set<Bytes>)
    requires HasKey(e) && ValidKey(KeyOf(e)) && (Compress(KeyOf(e)) in seen <==> Compress(KeyOf(e)) in seen')
    ensures Emits(e, seen) <==> Emits(e, seen')
  {
  }

  /** An entry in its proper place emits and marks; it never stops the stream. */
  lemma NextSound(s: Progress, n: nat, e: BucketEntry, oldest: bool)
    requires HasKey(e) ==> ValidKey(KeyOf(e))
    requires !s.stopped && !e.UnknownEntry? && (e.MetaEntry? ==> n == 0) && (e.InitEntry? ==> s.version >= 11)
    ensures var r := Next(s, n, e, oldest);
            && !r.stopped
            && r.out == (if Emits(e, s.seen) then s.out + [State(e.entry)] else s.out)
            && r.seen == (if Marks(e, oldest) then s.seen + {Compress(KeyOf(e))} else s.seen)
            && r.version == (if e.MetaEntry? then e.ledgerVersion else s.version)
  {
    hide Compress, ValidKey;
  }

  lemma {:induction false} FreshMembers(entries: seq<BucketEntry>, k: nat, seen: set<Bytes>, entry: LedgerEntry)
    requires k <= |entries| && ValidEntries(entries)
    ensures State(entry) in Fresh(entries, k, seen) <==> exists i :: 0 <= i < k && EmitsEntry(entries[i], seen, entry)
  {
    hide Compress, ValidKey;
    if k > 0 {
      FreshMembers(entries, k - 1, seen, entry);
      if EmitsEntry(entries[k-1], seen, entry) {
        assert Fresh(entries, k, seen)[|Fresh(entries, k, seen)|-1] == State(entry);
      }
    }
  }

  ghost predicate DistinctKeys(out: seq<ReadResult>) {
    forall p, q :: 0 <= p < q < |out| && out[p].State? && out[q].State? ==> out[p].entry.key != out[q].entry.key
  }

  lemma {:induction false} FreshDistinct(entries: seq<BucketEntry>, k: nat, seen: set<Bytes>)
    requires k <= |entries| && ValidEntries(entries) && UniqueKeys(entries)
    ensures DistinctKeys(Fresh(entries, k, seen))
  {
    hide ValidKey, Compress;
    if k > 0 {
      FreshDistinct(entries, k - 1, seen);
      var f := Fresh(entries, k - 1, seen);
      if Emits(entries[k-1], seen) {
        forall p | 0 <= p < |f|
          ensures f[p].entry.key != entries[k-1].entry.key
        {
          FreshMembers(entries, k - 1, seen, f[p].entry);
          assert f[p] == State(f[p].entry);
          var i :| 0 <= i < k - 1 && EmitsEntry(entries[i], seen, f[p].entry);
          assert KeyOf(entries[i]) != KeyOf(entries[k-1]);
        }
      }
    }
  }

  /** With unique keys the lookup finds any entry of the bucket. */
  lemma {:induction false} LookupFinds(entries: seq<BucketEntry>, i: nat)
    requires UniqueKeys(entries) && i < |entries| && HasKey(entries[i])
    ensures Lookup(entries, KeyOf(entries[i])) == Some(entries[i])
  {
    var n := |entries| - 1;
    if i < n {
      LookupFinds(entries[..n], i);
    }
  }

  // ---------- the whole list ----------

  lemma KeysInjective(buckets: seq<Bucket>, k: LedgerKey, k': LedgerKey)
    requires OneLedger(buckets) && Mentions(buckets, k) && Mentions(buckets, k')
    ensures ValidKey(k) && ValidKey(k') && (Compress(k) == Compress(k') ==> k == k')
  {
    CompressInjective(k, k');
  }

  lemma BucketInjective(buckets: seq<Bucket>, i: nat)
    requires SoundList(buckets) && i < |buckets|
    ensures InjectiveKeys(buckets[i].entries)
  {
    hide Compress, ValidKey, Lookup, OneLedger, InitRule;
    var entries := buckets[i].entries;
    assert SoundBucket(buckets[i]);
    forall a, b | 0 <= a < b < |entries| && HasKey(entries[a]) && HasKey(entries[b])
      ensures Compress(KeyOf(entries[a])) != Compress(KeyOf(entries[b]))
    {
      LookupFinds(entries, a);
      LookupFinds(entries, b);
      KeysInjective(buckets, KeyOf(entries[a]), KeyOf(entries[b]));
    }
  }

  /** The oldest processed entry under a key is an INITENTRY. */
  ghost predicate LastInit(buckets: seq<Bucket>, i: nat, k: LedgerKey)
    requires i <= |buckets|
  {
    exists j :: 0 <= j < i && IsInit(Lookup(buckets[j].entries, k)) && ClearAfter(buckets, j, i, k)
  }

  ghost predicate ClearAfter(buckets: seq<Bucket>, j: nat, i: nat, k: LedgerKey)
    requires i <= |buckets|
  {
    forall m :: j < m < i ==> Lookup(buckets[m].entries, k).None?
  }

  /** A remembered key was processed. */
  ghost predicate Known(buckets: seq<Bucket>, i: nat, h: Bytes)
    requires i <= |buckets|
  {
    exists k :: ValidKey(k) && Compress(k) == h && Newest(buckets, i, k).Some?
  }

  /** A processed key that is not remembered can reappear only as a DEADENTRY. */
  ghost predicate Forgettable(buckets: seq<Bucket>, i: nat, seen: set<Bytes>, k: LedgerKey)
    requires i <= |buckets|
  {
    Newest(buckets, i, k).Some? && ValidKey(k) && Compress(k) !in seen ==> LastInit(buckets, i, k)
  }

  ghost predicate Exact(buckets: seq<Bucket>, i: nat, out: seq<ReadResult>)
    requires i <= |buckets|
  {
    && (forall p :: 0 <= p < |out| ==> out[p].State?)
    && (forall e: LedgerEntry :: State(e) in out <==> Alive(Newest(buckets, i, e.key), e))
    && DistinctKeys(out)
  }

  ghost predicate Remembers(buckets: seq<Bucket>, i: nat, seen: set<Bytes>)
    requires i <= |buckets|
  {
    && (forall h :: h in seen ==> Known(buckets, i, h))
    && (forall k :: Forgettable(buckets, i, seen, k))
  }

  lemma {:induction false} NewestMentioned(buckets: seq<Bucket>, i: nat, k: LedgerKey)
    requires i <= |buckets| && Newest(buckets, i, k).Some?
    ensures Mentions(buckets, k)
  {
    hide Lookup;
    if Newest(buckets, i - 1, k).Some? {
      NewestMentioned(buckets, i - 1, k);
    } else {
      assert Lookup(buckets[i-1].entries, k).Some?;
    }
  }

  /** A live entry met for the first time is not hidden by anything newer, and one met again is remembered. */
  lemma SeenDecides(buckets: seq<Bucket>, i: nat, seen: set<Bytes>, k: LedgerKey)
    requires SoundList(buckets) && i < |buckets| && Remembers(buckets, i, seen)
    requires Lookup(buckets[i].entries, k).Some? && !Lookup(buckets[i].entries, k).value.DeadEntry?
    ensures ValidKey(k) && (Compress(k) in seen <==> Newest(buckets, i, k).Some?)
  {
    hide Lookup, Compress, ValidKey, Newest, SoundBucket, OneLedger, InitRule;
    assert Mentions(buckets, k);
    KeysInjective(buckets, k, k);
    if Compress(k) in seen {
      assert Known(buckets, i, Compress(k));
      var k' :| ValidKey(k') && Compress(k') == Compress(k) && Newest(buckets, i, k').Some?;
      NewestMentioned(buckets, i, k');
      KeysInjective(buckets, k, k');
    } else if Newest(buckets, i, k).Some? {
      assert Forgettable(buckets, i, seen, k);
      var j :| 0 <= j < i && IsInit(Lookup(buckets[j].entries, k)) && ClearAfter(buckets, j, i, k);
      DeadBelowInit(buckets, j, i, k);
    }
  }

  lemma DeadBelowInit(buckets: seq<Bucket>, j: nat, i: nat, k: LedgerKey)
    requires InitRule(buckets) && j < i < |buckets| && IsInit(Lookup(buckets[j].entries, k))
    requires ClearAfter(buckets, j, i, k)
    requires Lookup(buckets[i].entries, k).Some?
    ensures Lookup(buckets[i].entries, k).value.DeadEntry?
  {
    hide Lookup;
    assert NextOlder(buckets, j, i, k);
  }

  lemma OutputStep(buckets: seq<Bucket>, i: nat, seen: set<Bytes>, out: seq<ReadResult>)
    requires SoundList(buckets) && i < |buckets| && SoundBucket(buckets[i]) && Remembers(buckets, i, seen)
    requires Exact(buckets, i, out)
    ensures Exact(buckets, i + 1, out + Fresh(buckets[i].entries, |buckets[i].entries|, seen))
  {
    var entries := buckets[i].entries;
    var added := Fresh(entries, |entries|, seen);
    hide Lookup, Compress, ValidKey, SoundList, SoundBucket, Remembers, ValidEntries, UniqueKeys, Emits, Fresh,
      DistinctKeys;
    forall e: LedgerEntry
      ensures State(e) in out + added <==> Alive(Newest(buckets, i + 1, e.key), e)
      ensures State(e) in added ==> Newest(buckets, i, e.key).None?
    {
      FreshIffNew(buckets, i, seen, e);
    }
    FreshDistinct(entries, |entries|, seen);
    forall p, q | 0 <= p < |out| && 0 <= q < |added|
      ensures out[p].entry.key != added[q].entry.key
    {
      assert out[p] == State(out[p].entry) && out[p] in out;
      assert added[q] == State(added[q].entry) && added[q] in added;
    }
    DistinctKeysConcat(out, added);
  }

  lemma DistinctKeysConcat(a: seq<ReadResult>, b: seq<ReadResult>)
    requires forall p :: 0 <= p < |a| ==> a[p].State?
    requires forall q :: 0 <= q < |b| ==> b[q].State?
    requires DistinctKeys(a) && DistinctKeys(b)
    requires forall p, q :: 0 <= p < |a| && 0 <= q < |b| ==> a[p].entry.key != b[q].entry.key
    ensures DistinctKeys(a + b)
  {
  }

  lemma FreshIffNew(buckets: seq<Bucket>, i: nat, seen: set<Bytes>, e: LedgerEntry)
    requires SoundList(buckets) && i < |buckets| && SoundBucket(buckets[i]) && Remembers(buckets, i, seen)
    ensures State(e) in Fresh(buckets[i].entries, |buckets[i].entries|, seen) <==>
            Newest(buckets, i, e.key).None? && Alive(Lookup(buckets[i].entries, e.key), e)
  {
    var entries := buckets[i].entries;
    FreshMembers(entries, |entries|, seen, e);
    hide Lookup, Compress, ValidKey, SoundList, Remembers, ValidEntries, Newest, Fresh;
    if a :| 0 <= a < |entries| && EmitsEntry(entries[a], seen, e) {
      LookupFinds(entries, a);
      SeenDecides(buckets, i, seen, e.key);
    }
    if Newest(buckets, i, e.key).None? && Alive(Lookup(entries, e.key), e) {
      SeenDecides(buckets, i, seen, e.key);
      var l := Lookup(entries, e.key).value;
      var a :| 0 <= a < |entries| && entries[a] == l;
      assert EmitsEntry(entries[a], seen, e);
    }
  }

  lemma SeenStep(buckets: seq<Bucket>, i: nat, seen: set<Bytes>)
    requires SoundList(buckets) && i < |buckets| && SoundBucket(buckets[i]) && Remembers(buckets, i, seen)
    ensures Remembers(buckets, i + 1, seen + Marked(buckets[i].entries, |buckets[i].entries|, false))
  {
    var entries := buckets[i].entries;
    var marked := Marked(entries, |entries|, false);
    hide Lookup, Compress, ValidKey, SoundList, Marked;
    var seen', i' := seen + marked, i + 1;
    forall h | h in seen'
      ensures Known(buckets, i', h)
    {
      if h in seen {
        assert Known(buckets, i, h);
        var k :| ValidKey(k) && Compress(k) == h && Newest(buckets, i, k).Some?;
        assert Newest(buckets, i', k).Some?;
      } else {
        var a :| 0 <= a < |entries| && Marks(entries[a], false) && Compress(KeyOf(entries[a])) == h;
        LookupFinds(entries, a);
        assert Newest(buckets, i', KeyOf(entries[a])).Some?;
      }
    }
    forall k: LedgerKey
      ensures Forgettable(buckets, i', seen', k)
    {
      ForgettableStep(buckets, i, seen, marked, k);
    }
  }

  /** An entry of a newer bucket that is not remembered was an INITENTRY. */
  lemma UnmarkedIsInit(entries: seq<BucketEntry>, k: LedgerKey)
    requires ValidEntries(entries) && Lookup(entries, k).Some? && ValidKey(k)
    requires Compress(k) !in Marked(entries, |entries|, false)
    ensures IsInit(Lookup(entries, k))
  {
    hide Compress, ValidKey, Lookup;
    var a :| 0 <= a < |entries| && entries[a] == Lookup(entries, k).value;
    assert !Marks(entries[a], false);
  }

  lemma ForgettableStep(buckets: seq<Bucket>, i: nat, seen: set<Bytes>, marked: set<Bytes>, k: LedgerKey)
    requires i < |buckets| && ValidEntries(buckets[i].entries) && Forgettable(buckets, i, seen, k)
    requires marked == Marked(buckets[i].entries, |buckets[i].entries|, false)
    ensures Forgettable(buckets, i + 1, seen + marked, k)
  {
    hide Compress, ValidKey, Marked, Lookup, ValidEntries, IsInit, ClearAfter, LastInit;
    if Newest(buckets, i + 1, k).Some? && ValidKey(k) && Compress(k) !in seen + marked {
      if Lookup(buckets[i].entries, k).Some? {
        UnmarkedIsInit(buckets[i].entries, k);
        InitHere(buckets, i, k);
      } else {
        InitBefore(buckets, i, k);
      }
    }
  }

  lemma InitHere(buckets: seq<Bucket>, i: nat, k: LedgerKey)
    requires i < |buckets| && IsInit(Lookup(buckets[i].entries, k))
    ensures LastInit(buckets, i + 1, k)
  {
    hide Lookup;
    assert ClearAfter(buckets, i, i + 1, k);
  }

  lemma InitBefore(buckets: seq<Bucket>, i: nat, k: LedgerKey)
    requires i < |buckets| && LastInit(buckets, i, k) && Lookup(buckets[i].entries, k).None?
    ensures LastInit(buckets, i + 1, k)
  {
    hide Lookup;
    var j :| 0 <= j < i && IsInit(Lookup(buckets[j].entries, k)) && ClearAfter(buckets, j, i, k);
    assert ClearAfter(buckets, j, i + 1, k);
  }

  lemma {:induction false} StreamedPrefix(buckets: seq<Bucket>, i: nat)
    requires SoundList(buckets) && ValidBuckets(buckets) && i <= |buckets|
    ensures var r := RunBuckets(Progress({}, [], 0, false), buckets, i);
            && !r.stopped && Exact(buckets, i, r.out)
            && (i < |buckets| ==> Remembers(buckets, i, r.seen))
  {
    hide Lookup, Compress, ValidKey, Run, Fresh, Marked, ValidEntries, OneLedger, InitRule, UniqueKeys, Remembers,
      Exact;
    if i == 0 {
      NothingStreamed(buckets);
    } else {
      StreamedPrefix(buckets, i - 1);
      var before := RunBuckets(Progress({}, [], 0, false), buckets, i - 1);
      var b := buckets[i-1];
      assert SoundBucket(b);
      BucketInjective(buckets, i - 1);
      RunSound(before.(version := 0), b, |b.entries|, i == |buckets|);
      OutputStep(buckets, i - 1, before.seen, before.out);
      if i < |buckets| {
        SeenStep(buckets, i - 1, before.seen);
      }
    }
  }

  lemma NothingStreamed(buckets: seq<Bucket>)
    ensures Exact(buckets, 0, []) && Remembers(buckets, 0, {})
  {
  }

  // ---------- agreement with the replay ----------

  lemma {:induction false} ReplayLookup(m: map<LedgerKey, LedgerEntry>, entries: seq<BucketEntry>, k: LedgerKey)
    ensures var l := Lookup(entries, k);
            var r := Replay(m, entries);
            if l.None? then (k in r <==> k in m) && (k in m ==> r[k] == m[k])
            else if l.value.DeadEntry? then k !in r
            else k in r && r[k] == l.value.entry
  {
    if entries != [] {
      ReplayLookup(m, entries[..|entries|-1], k);
    }
  }

  lemma {:induction false} NewestFromFront(buckets: seq<Bucket>, i: nat, k: LedgerKey)
    requires 0 < i <= |buckets|
    ensures Newest(buckets, i, k) ==
            if Lookup(buckets[0].entries, k).Some? then Lookup(buckets[0].entries, k)
            else Newest(buckets[1..], i - 1, k)
  {
    hide Lookup;
    if i > 1 {
      NewestFromFront(buckets, i - 1, k);
    }
  }

  lemma {:induction false} ReplayIsNewest(buckets: seq<Bucket>, k: LedgerKey)
    ensures var n := Newest(buckets, |buckets|, k); n.Some? ==> HasKey(n.value) && KeyOf(n.value) == k
    ensures var r := ReplayAll(buckets);
            var n := Newest(buckets, |buckets|, k);
            (k in r <==> n.Some? && !n.value.DeadEntry?) && (k in r ==> r[k] == n.value.entry)
  {
    hide Lookup, Replay;
    if buckets != [] {
      ReplayIsNewest(buckets[1..], k);
      NewestFromFront(buckets, |buckets|, k);
      ReplayLookup(ReplayAll(buckets[1..]), buckets[0].entries, k);
    }
  }

  /**
   * For every sound bucket list the newest-to-oldest stream, with its partial memory of seen keys, emits
   * no key twice and emits exactly the entries that a full oldest-to-newest replay leaves behind.
   */
  lemma StreamAgreesWithReplay(buckets: seq<Bucket>)
    requires SoundList(buckets) && ValidBuckets(buckets)
    ensures var r := RunBuckets(Progress({}, [], 0, false), buckets, |buckets|);
            !r.stopped && DeliversReplay(r.out, buckets)
  {
    hide RunBuckets, SoundList, ValidBuckets, Exact, DeliversReplay;
    StreamedPrefix(buckets, |buckets|);
    ExactIsReplay(buckets, RunBuckets(Progress({}, [], 0, false), buckets, |buckets|).out);
  }

  lemma ExactIsReplay(buckets: seq<Bucket>, out: seq<ReadResult>)
    requires Exact(buckets, |buckets|, out)
    ensures DeliversReplay(out, buckets)
  {
    hide Lookup, Replay, ReplayAll, Newest, DistinctKeys;
    forall e: LedgerEntry
      ensures State(e) in out <==> e.key in ReplayAll(buckets) && ReplayAll(buckets)[e.key] == e
    {
      ReplayIsNewest(buckets, e.key);
    }
  }
}
