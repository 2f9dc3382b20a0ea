/** Ledger entry changes: their meaning, their sorting and their compaction (ingest/change.go, change_compactor.go). */
module Changes {
  import opened Common
  import opened LedgerKeys

  /** A ledger entry under the marshalled form of its ledger key. */
  datatype Entry = Entry(key: Bytes, data: Bytes)

  datatype Change = Change(pre: Option<Entry>, post: Option<Entry>)

  predicate HasSide(c: Change) {
    c.pre.Some? || c.post.Some?
  }

  /** A change has at least one side, and both sides belong to the same entry. */
  predicate WellFormed(c: Change) {
    HasSide(c) && (c.pre.Some? && c.post.Some? ==> c.pre.value.key == c.post.value.key)
  }

  function KeyOf(c: Change): Bytes
    requires HasSide(c)
  {
    if c.pre.Some? then c.pre.value.key else c.post.value.key
  }

  // ---------- what a change log means ----------

  type Store = map<Bytes, Entry>

  ghost function Get(s: Store, k: Bytes): Option<Entry> {
    if k in s then Some(s[k]) else None
  }

  ghost function Put(s: Store, k: Bytes, e: Option<Entry>): Store {
    if e.Some? then s[k := e.value] else s - {k}
  }

  /** The change starts from what the store holds. */
  ghost predicate Fits(s: Store, c: Change) {
    WellFormed(c) && c.pre == Get(s, KeyOf(c))
  }

  ghost function ApplyChange(s: Store, c: Change): Store {
    if HasSide(c) then Put(s, KeyOf(c), c.post) else s
  }

  ghost function Apply(s: Store, log: seq<Change>): Store
    decreases |log|
  {
    if log == [] then s else Apply(ApplyChange(s, log[0]), log[1..])
  }

  ghost predicate ValidLog(s: Store, log: seq<Change>)
    decreases |log|
  {
    log == [] || (Fits(s, log[0]) && ValidLog(ApplyChange(s, log[0]), log[1..]))
  }

  ghost predicate AllWellFormed(log: seq<Change>) {
    forall i :: 0 <= i < |log| ==> WellFormed(log[i])
  }

  ghost predicate AllKeyed(log: seq<Change>) {
    forall i :: 0 <= i < |log| ==> HasSide(log[i])
  }

  // ---------- the log, key by key ----------

  /** The changes of one key, in order. */
  ghost function Sub(log: seq<Change>, k: Bytes): seq<Change> {
    if log == [] then []
    else if HasSide(log[0]) && KeyOf(log[0]) == k then [log[0]] + Sub(log[1..], k)
    else Sub(log[1..], k)
  }

  /** Each change starts where the previous one ended. */
  ghost predicate Chain(start: Option<Entry>, cs: seq<Change>)
    decreases |cs|
  {
    cs == [] || (cs[0].pre == start && Chain(cs[0].post, cs[1..]))
  }

  ghost function End(start: Option<Entry>, cs: seq<Change>): Option<Entry>
    decreases |cs|
  {
    if cs == [] then start else End(cs[0].post, cs[1..])
  }

  lemma GetPut(s: Store, k: Bytes, e: Option<Entry>, k': Bytes)
    ensures Get(Put(s, k, e), k') == if k' == k then e else Get(s, k')
  {
  }

  lemma {:induction false} ApplyKeywise(s: Store, log: seq<Change>, k: Bytes)
    requires AllKeyed(log)
    ensures Get(Apply(s, log), k) == End(Get(s, k), Sub(log, k))
    decreases |log|
  {
    hide Get, Put;
    if log != [] {
      GetPut(s, KeyOf(log[0]), log[0].post, k);
      ApplyKeywise(ApplyChange(s, log[0]), log[1..], k);
      if KeyOf(log[0]) == k {
        assert Sub(log, k)[1..] == Sub(log[1..], k);
      }
    }
  }

  lemma {:induction false} ValidKeywise(s: Store, log: seq<Change>)
    requires AllWellFormed(log)
    ensures ValidLog(s, log) <==> forall k :: Chain(Get(s, k), Sub(log, k))
    decreases |log|
  {
    hide Get, Put;
    if log != [] {
      var s', k0 := ApplyChange(s, log[0]), KeyOf(log[0]);
      ValidKeywise(s', log[1..]);
      forall k
        ensures Chain(Get(s, k), Sub(log, k)) <==>
          (k == k0 ==> log[0].pre == Get(s, k0)) && Chain(Get(s', k), Sub(log[1..], k))
      {
        GetPut(s, k0, log[0].post, k);
        if k == k0 {
          assert Sub(log, k)[1..] == Sub(log[1..], k);
        }
      }
      if forall k :: Chain(Get(s, k), Sub(log, k)) {
        assert Chain(Get(s, k0), Sub(log, k0));
      }
    }
  }

  ghost predicate SameSubs(log: seq<Change>, log': seq<Change>) {
    forall k :: Sub(log, k) == Sub(log', k)
  }

  lemma {:induction false} SubMembers(log: seq<Change>, k: Bytes, c: Change)
    ensures c in Sub(log, k) <==> c in log && HasSide(c) && KeyOf(c) == k
  {
    if log != [] {
      SubMembers(log[1..], k, c);
      assert log == [log[0]] + log[1..];
    }
  }

  /** Only the order within a key matters: logs that agree on it are equally valid and have the same effect. */
  lemma KeywiseEqual(s: Store, log: seq<Change>, log': seq<Change>)
    requires AllWellFormed(log) && AllKeyed(log') && SameSubs(log, log')
    ensures AllWellFormed(log')
    ensures ValidLog(s, log) <==> ValidLog(s, log')
    ensures Apply(s, log) == Apply(s, log')
  {
    forall i | 0 <= i < |log'|
      ensures WellFormed(log'[i])
    {
      SubMembers(log', KeyOf(log'[i]), log'[i]);
      SubMembers(log, KeyOf(log'[i]), log'[i]);
    }
    ValidKeywise(s, log);
    ValidKeywise(s, log');
    forall k
      ensures Get(Apply(s, log), k) == Get(Apply(s, log'), k)
    {
      ApplyKeywise(s, log, k);
      ApplyKeywise(s, log', k);
    }
    GetExtensional(Apply(s, log), Apply(s, log'));
  }

  lemma GetExtensional(s: Store, s': Store)
    requires forall k :: Get(s, k) == Get(s', k)
    ensures s == s'
  {
    forall k
      ensures (k in s <==> k in s') && (k in s ==> s[k] == s'[k])
    {
      assert Get(s, k) == Get(s', k);
    }
  }

  lemma {:induction false} SubAppend(a: seq<Change>, b: seq<Change>, k: Bytes)
    ensures Sub(a + b, k) == Sub(a, k) + Sub(b, k)
  {
    if a == [] {
      assert a + b == b;
    } else {
      assert (a + b)[1..] == a[1..] + b;
      SubAppend(a[1..], b, k);
    }
  }

  lemma {:induction false} ApplyAppend(s: Store, a: seq<Change>, b: seq<Change>)
    ensures Apply(s, a + b) == Apply(Apply(s, a), b)
    ensures ValidLog(s, a + b) <==> ValidLog(s, a) && ValidLog(Apply(s, a), b)
    decreases |a|
  {
    if a == [] {
      assert a + b == b;
    } else {
      assert (a + b)[1..] == a[1..] + b;
      ApplyAppend(ApplyChange(s, a[0]), a[1..], b);
    }
  }

  // ---------- sorting ----------

  /** Byte-wise lexicographic order. */
  predicate BytesLess(a: Bytes, b: Bytes) {
    |b| > 0 && (|a| == 0 || a[0] < b[0] || (a[0] == b[0] && BytesLess(a[1..], b[1..])))
  }

  lemma {:induction false} BytesLessTransitive(a: Bytes, b: Bytes, c: Bytes)
    ensures !BytesLess(b, a) && !BytesLess(c, b) ==> !BytesLess(c, a)
  {
    if |a| > 0 && |b| > 0 && |c| > 0 {
      BytesLessTransitive(a[1..], b[1..], c[1..]);
    }
  }

  lemma {:induction false} BytesLessAsymmetric(a: Bytes, b: Bytes)
    requires BytesLess(a, b)
    ensures !BytesLess(b, a) && a != b
  {
    if |a| > 0 && a[0] == b[0] {
      BytesLessAsymmetric(a[1..], b[1..]);
    }
  }

  ghost predicate KeySorted(log: seq<Change>)
    requires AllKeyed(log)
  {
    forall i, j :: 0 <= i < j < |log| ==> !BytesLess(KeyOf(log[j]), KeyOf(log[i]))
  }

  /** Insertion into a sorted log, after every change of the same or a smaller key. */
  function InsertKey(s: seq<Change>, c: Change): (r: seq<Change>)
    requires (forall i :: 0 <= i < |s| ==> HasSide(s[i])) && HasSide(c)
    ensures |r| == |s| + 1 && forall i :: 0 <= i < |r| ==> HasSide(r[i])
  {
    var n := |s| - 1;
    if s == [] || !BytesLess(KeyOf(c), KeyOf(s[n])) then s + [c] else InsertKey(s[..n], c) + [s[n]]
  }

  /** What a stable sort by key makes of a log. */
  function StableSort(log: seq<Change>): (r: seq<Change>)
    requires forall i :: 0 <= i < |log| ==> HasSide(log[i])
    ensures |r| == |log| && forall i :: 0 <= i < |r| ==> HasSide(r[i])
  {
    if log == [] then [] else InsertKey(StableSort(log[..|log|-1]), log[|log|-1])
  }

  /** Insertion overtakes only changes of other keys. */
  lemma {:induction false} InsertKeepsSubs(s: seq<Change>, c: Change, k: Bytes)
    requires AllKeyed(s) && HasSide(c)
    ensures Sub(InsertKey(s, c), k) == Sub(s, k) + Sub([c], k)
  {
    var n := |s| - 1;
    if s == [] || !BytesLess(KeyOf(c), KeyOf(s[n])) {
      SubAppend(s, [c], k);
    } else {
      BytesLessAsymmetric(KeyOf(c), KeyOf(s[n]));
      InsertKeepsSubs(s[..n], c, k);
      SubAppend(InsertKey(s[..n], c), [s[n]], k);
      SubAppend(s[..n], [s[n]], k);
      assert s == s[..n] + [s[n]];
      assert [c][1..] == [] && [s[n]][1..] == [];
      assert Sub([c], k) == [] || Sub([s[n]], k) == [];
    }
  }

  lemma {:induction false} InsertMembers(s: seq<Change>, c: Change, x: Change)
    requires AllKeyed(s) && HasSide(c)
    ensures x in InsertKey(s, c) <==> x in s || x == c
  {
    var n := |s| - 1;
    if s != [] && BytesLess(KeyOf(c), KeyOf(s[n])) {
      InsertMembers(s[..n], c, x);
      assert s == s[..n] + [s[n]];
    }
  }

  lemma {:induction false} InsertKeepsSorted(s: seq<Change>, c: Change)
    requires AllKeyed(s) && HasSide(c) && KeySorted(s)
    ensures KeySorted(InsertKey(s, c))
  {
    hide BytesLess;
    var n := |s| - 1;
    if s == [] {
    } else if !BytesLess(KeyOf(c), KeyOf(s[n])) {
      forall i | 0 <= i < n
        ensures !BytesLess(KeyOf(c), KeyOf(s[i]))
      {
        BytesLessTransitive(KeyOf(s[i]), KeyOf(s[n]), KeyOf(c));
      }
    } else {
      InsertKeepsSorted(s[..n], c);
      var r := InsertKey(s[..n], c);
      forall i | 0 <= i < |r|
        ensures !BytesLess(KeyOf(s[n]), KeyOf(r[i]))
      {
        InsertMembers(s[..n], c, r[i]);
        BytesLessAsymmetric(KeyOf(c), KeyOf(s[n]));
      }
    }
  }

  /** The sort orders the log by key and keeps the changes of each key in their original order. */
  lemma {:induction false} StableSortSorts(log: seq<Change>)
    requires AllKeyed(log)
    ensures KeySorted(StableSort(log)) && SameSubs(log, StableSort(log))
  {
    if log != [] {
      var n := |log| - 1;
      var pre := log[..n];
      StableSortSorts(pre);
      InsertKeepsSorted(StableSort(pre), log[n]);
      forall k
        ensures Sub(log, k) == Sub(StableSort(log), k)
      {
        InsertKeepsSubs(StableSort(pre), log[n], k);
        SubAppend(pre, [log[n]], k);
        assert log == pre + [log[n]];
      }
    }
  }

  /** The stable sort in place: an element is exchanged with its left neighbour while its key is smaller. */
  method SortChanges(changes: array<Change>)
    requires AllKeyed(changes[..])
    modifies changes
    ensures changes[..] == StableSort(old(changes[..]))
  {
    ghost var before := changes[..];
    for i := 0 to changes.Length
      invariant changes[i..] == before[i..]
      invariant changes[..i] == StableSort(before[..i])
    {
      assert before[..i+1][..i] == before[..i];
      InsertBack(changes, i);
      assert changes[i+1..] == before[i+1..];
    }
    assert changes[..changes.Length] == changes[..] && before[..changes.Length] == before;
  }

  method InsertBack(changes: array<Change>, i: nat)
    requires i < changes.Length && AllKeyed(changes[..i+1])
    modifies changes
    ensures changes[..i+1] == InsertKey(old(changes[..i]), old(changes[i])) && changes[i+1..] == old(changes[i+1..])
  {
    hide BytesLess, InsertKey, KeyOf, ReadyAt;
    ghost var s, c := changes[..i], changes[i];
    assert AllKeyed(s) && HasSide(c) by {
      assert forall m :: 0 <= m <= i ==> changes[..i+1][m] == changes[m];
    }
    var j := i;
    ReadyAtEnd(s, c);
    while j > 0 && Less(changes, j, j - 1)
      invariant 0 <= j <= i
      invariant forall m :: 0 <= m < j ==> changes[m] == s[m]
      invariant changes[j] == c
      invariant forall m :: j < m <= i ==> changes[m] == s[m-1]
      invariant forall m :: i < m < changes.Length ==> changes[m] == old(changes[m])
      invariant ReadyAt(s, c, j)
      decreases j
    {
      InsertOneLeft(s, c, j);
      changes[j-1], changes[j] := changes[j], changes[j-1];
      j := j - 1;
    }
    InsertHere(changes[..i+1], s, c, j);
  }

  /** The place of c is at or before position j. */
  ghost predicate ReadyAt(s: seq<Change>, c: Change, j: nat)
    requires AllKeyed(s) && HasSide(c) && j <= |s|
  {
    InsertKey(s, c) == InsertKey(s[..j], c) + s[j..]
  }

  lemma ReadyAtEnd(s: seq<Change>, c: Change)
    requires AllKeyed(s) && HasSide(c)
    ensures ReadyAt(s, c, |s|)
  {
    assert s[..|s|] == s && s[|s|..] == [];
  }

  lemma InsertOneLeft(s: seq<Change>, c: Change, j: nat)
    requires AllKeyed(s) && HasSide(c) && 0 < j <= |s| && BytesLess(KeyOf(c), KeyOf(s[j-1])) && ReadyAt(s, c, j)
    ensures ReadyAt(s, c, j - 1)
  {
    assert s[..j][..j-1] == s[..j-1] && s[j-1..] == [s[j-1]] + s[j..];
  }

  lemma InsertHere(a: seq<Change>, s: seq<Change>, c: Change, j: nat)
    requires AllKeyed(s) && HasSide(c) && j <= |s| && (j > 0 ==> !BytesLess(KeyOf(c), KeyOf(s[j-1])))
      && ReadyAt(s, c, j)
    requires |a| == |s| + 1 && (forall m :: 0 <= m < j ==> a[m] == s[m]) && a[j] == c
    requires forall m :: j < m <= |s| ==> a[m] == s[m-1]
    ensures a == InsertKey(s, c)
  {
    assert a == s[..j] + [c] + s[j..];
  }

  predicate Less(changes: array<Change>, i: nat, j: nat)
    requires i < changes.Length && j < changes.Length && HasSide(changes[i]) && HasSide(changes[j])
    reads changes
  {
    BytesLess(KeyOf(changes[i]), KeyOf(changes[j]))
  }

  // ---------- from raw metadata to changes ----------

  datatype RawChange =
    | RawCreated(entry: Entry)
    | RawUpdated(entry: Entry)
    | RawRemoved(key: Bytes)
    | RawState(entry: Entry)

  /** What a group of raw changes does to the store; state records only repeat what is there. */
  ghost function ApplyRaw(s: Store, raw: seq<RawChange>): Store {
    if raw == [] then s else
    var before := ApplyRaw(s, raw[..|raw|-1]);
    match raw[|raw|-1]
    case RawCreated(e) => before[e.key := e]
    case RawUpdated(e) => before[e.key := e]
    case RawRemoved(k) => before - {k}
    case RawState(_) => before
  }

  /** The change a raw record stands for, given the record before it; None for a state record. */
  function Paired(before: Option<RawChange>, r: RawChange): Option<Change> {
    match r
    case RawCreated(e) => Some(Change(None, Some(e)))
    case RawUpdated(e) =>
      if before.Some? && before.value.RawState? then Some(Change(Some(before.value.entry), Some(e))) else None
    case RawRemoved(_) =>
      if before.Some? && before.value.RawState? then Some(Change(Some(before.value.entry), None)) else None
    case RawState(_) => None
  }

  /** An update or removal comes right after the state record of the same entry. */
  ghost predicate PairedAt(raw: seq<RawChange>, i: nat)
    requires i < |raw|
  {
    && (raw[i].RawUpdated? ==> i > 0 && raw[i-1].RawState? && raw[i-1].entry.key == raw[i].entry.key)
    && (raw[i].RawRemoved? ==> i > 0 && raw[i-1].RawState? && raw[i-1].entry.key == raw[i].key)
  }

  ghost predicate WellPaired(raw: seq<RawChange>) {
    forall i :: 0 <= i < |raw| ==> PairedAt(raw, i)
  }

  /** A state record shows the current value, and only an absent entry is created. */
  ghost predicate TruthfulAt(s: Store, raw: seq<RawChange>, i: nat)
    requires i < |raw|
  {
    var now := ApplyRaw(s, raw[..i]);
    && (raw[i].RawState? ==> Get(now, raw[i].entry.key) == Some(raw[i].entry))
    && (raw[i].RawCreated? ==> Get(now, raw[i].entry.key) == None)
  }

  ghost predicate Truthful(s: Store, raw: seq<RawChange>) {
    forall i :: 0 <= i < |raw| ==> TruthfulAt(s, raw, i)
  }

  /** The changes in the order of the raw records. */
  ghost function Unsorted(raw: seq<RawChange>): (r: seq<Change>)
    ensures AllKeyed(r)
  {
    if raw == [] then [] else
    var n := |raw| - 1;
    var c := Paired(if n > 0 then Some(raw[n-1]) else None, raw[n]);
    Unsorted(raw[..n]) + (if c.Some? then [c.value] else [])
  }

  /** A missing state record makes the source panic. */
  datatype TransformError = StateMissing

  /** Every update and removal follows a state record, whichever entry that is of. */
  ghost predicate StatesPresent(raw: seq<RawChange>) {
    forall i :: 0 <= i < |raw| && (raw[i].RawUpdated? || raw[i].RawRemoved?) ==> i > 0 && raw[i-1].RawState?
  }

  /** The changes of a group of raw records, sorted by key. */
  ghost function Transformed(raw: seq<RawChange>): seq<Change> {
    StableSort(Unsorted(raw))
  }

  method GetChangesFromLedgerEntryChanges(raw: seq<RawChange>) returns (r: Result<seq<Change>, TransformError>)
    ensures r.Ok? <==> StatesPresent(raw)
    ensures r.Ok? ==> r.value == Transformed(raw)
  {
    var changes: seq<Change> := [];
    for i := 0 to |raw|
      invariant changes == Unsorted(raw[..i])
      invariant StatesPresent(raw[..i])
    {
      assert raw[..i+1][..i] == raw[..i];
      match raw[i] {
        case RawCreated(e) => changes := changes + [Change(None, Some(e))];
        case RawUpdated(e) =>
          if i == 0 || !raw[i-1].RawState? {
            return Err(StateMissing);
          }
          changes := changes + [Change(Some(raw[i-1].entry), Some(e))];
        case RawRemoved(_) =>
          if i == 0 || !raw[i-1].RawState? {
            return Err(StateMissing);
          }
          changes := changes + [Change(Some(raw[i-1].entry), None)];
        case RawState(_) =>
      }
    }
    assert raw[..|raw|] == raw;
    var a := new Change[|changes|](i requires 0 <= i < |changes| => changes[i]);
    assert a[..] == changes;
    SortChanges(a);
    r := Ok(a[..]);
  }

  lemma PrefixTruthful(s: Store, raw: seq<RawChange>, n: nat)
    requires n <= |raw| && WellPaired(raw) && Truthful(s, raw)
    ensures WellPaired(raw[..n]) && Truthful(s, raw[..n])
  {
    hide Get, ApplyRaw;
    forall i | 0 <= i < n
      ensures PairedAt(raw[..n], i) && TruthfulAt(s, raw[..n], i)
    {
      assert PairedAt(raw, i) && TruthfulAt(s, raw, i);
      assert raw[..n][..i] == raw[..i];
    }
  }

  /** A record's change fits the store it meets, and has the record's effect. */
  lemma RecordFits(s: Store, raw: seq<RawChange>, n: nat)
    requires n < |raw| && WellPaired(raw) && Truthful(s, raw)
    ensures var now := ApplyRaw(s, raw[..n]);
            var c := Paired(if n > 0 then Some(raw[n-1]) else None, raw[n]);
            if c.Some? then Fits(now, c.value) && ApplyChange(now, c.value) == ApplyRaw(s, raw[..n+1])
            else ApplyRaw(s, raw[..n+1]) == now
  {
    assert PairedAt(raw, n) && TruthfulAt(s, raw, n);
    assert raw[..n+1][..n] == raw[..n];
    if n > 0 && raw[n-1].RawState? {
      assert TruthfulAt(s, raw, n - 1);
      assert raw[..n][..n-1] == raw[..n-1];
    }
  }

  lemma {:induction false} UnsortedMeaning(s: Store, raw: seq<RawChange>)
    requires WellPaired(raw) && Truthful(s, raw)
    ensures AllWellFormed(Unsorted(raw)) && ValidLog(s, Unsorted(raw)) && Apply(s, Unsorted(raw)) == ApplyRaw(s, raw)
  {
    hide Paired, ApplyRaw, Get, Put, WellPaired, Truthful, ApplyChange;
    if raw == [] {
      NoRecords(s);
    } else {
      var n := |raw| - 1;
      PrefixTruthful(s, raw, n);
      UnsortedMeaning(s, raw[..n]);
      RecordFits(s, raw, n);
      assert raw[..n+1] == raw;
      var c := Paired(if n > 0 then Some(raw[n-1]) else None, raw[n]);
      if c.Some? {
        OneMore(s, Unsorted(raw[..n]), c.value);
      } else {
        assert Unsorted(raw[..n]) + [] == Unsorted(raw[..n]);
      }
    }
  }

  lemma NoRecords(s: Store)
    ensures ApplyRaw(s, []) == s
  {
  }

  lemma OneMore(s: Store, log: seq<Change>, c: Change)
    requires ValidLog(s, log) && Fits(Apply(s, log), c)
    ensures ValidLog(s, log + [c]) && Apply(s, log + [c]) == ApplyChange(Apply(s, log), c)
  {
    ApplyAppend(s, log, [c]);
    assert [c][1..] == [];
  }

  /** The sorted changes are a valid log with exactly the effect of the raw records they were made from. */
  lemma TransformPreservesMeaning(s: Store, raw: seq<RawChange>)
    requires WellPaired(raw) && Truthful(s, raw)
    ensures StatesPresent(raw) && KeySorted(Transformed(raw))
    ensures ValidLog(s, Transformed(raw)) && Apply(s, Transformed(raw)) == ApplyRaw(s, raw)
  {
    forall i | 0 <= i < |raw|
      ensures raw[i].RawUpdated? || raw[i].RawRemoved? ==> i > 0 && raw[i-1].RawState?
    {
      assert PairedAt(raw, i);
    }
    UnsortedMeaning(s, raw);
    StableSortSorts(Unsorted(raw));
    KeywiseEqual(s, Unsorted(raw), Transformed(raw));
  }

  // ---------- compaction ----------

  datatype CompactError = UnknownState | AlreadyExists | WasRemoved

  datatype Kind = Created | Updated | Removed

  function KindOf(c: Change): Kind
    requires HasSide(c)
  {
    if c.pre.None? then Created else if c.post.Some? then Updated else Removed
  }

  /** The key under which a change is cached: the new entry's where there is one. */
  function CacheKey(c: Change): Bytes
    requires HasSide(c)
  {
    if c.post.Some? then c.post.value.key else c.pre.value.key
  }

  class ChangeCompactor {
    var cache: map<Bytes, Change>

    constructor ()
      ensures cache == map[]
    {
      cache := map[];
    }

    /** Merges a change into the cache; an error leaves the cache as it was. */
    method AddChange(c: Change) returns (error: Option<CompactError>)
      requires forall k :: k in cache ==> HasSide(cache[k])
      modifies this
      ensures forall k :: k in cache ==> HasSide(cache[k])
      ensures error.None? <==> Accepts(old(cache), c)
      ensures cache == if error.None? then Merged(old(cache), c) else old(cache)
    {
      if !HasSide(c) {
        return Some(UnknownState);
      }
      var k := CacheKey(c);
      if k !in cache {
        cache := cache[k := c];
        return None;
      }
      var existing := cache[k];
      match (KindOf(c), KindOf(existing)) {
        case (Created, Created) => return Some(AlreadyExists);
        case (Created, Updated) => return Some(AlreadyExists);
        case (Created, Removed) => cache := cache[k := Change(existing.pre, c.post)];
        case (Updated, Created) => cache := cache[k := Change(existing.pre, c.post)];
        case (Updated, Updated) => cache := cache[k := Change(existing.pre, c.post)];
        case (Updated, Removed) => return Some(WasRemoved);
        case (Removed, Created) => cache := cache - {k};
        case (Removed, Updated) => cache := cache[k := Change(existing.pre, None)];
        case (Removed, Removed) => return Some(WasRemoved);
      }
      return None;
    }

    /** The cached changes, in any order. */
    method GetChanges() returns (changes: seq<Change>)
      requires forall k :: k in cache ==> HasSide(cache[k])
      ensures AllKeyed(changes) && |changes| == |cache|
      ensures WellKeyedCache(cache) ==> AllWellFormed(changes) && Holds(cache, changes)
    {
      hide HoldsExcept, WellKeyedCache;
      changes := [];
      var keys := cache.Keys;
      NothingHeld(cache);
      while keys != {}
        invariant keys <= cache.Keys && AllKeyed(changes) && |changes| + |keys| == |cache|
        invariant WellKeyedCache(cache) ==> HoldsExcept(cache, keys, changes)
        decreases |keys|
      {
        var k :| k in keys;
        if WellKeyedCache(cache) {
          HoldOneMore(cache, keys, changes, k);
        }
        keys := keys - {k};
        changes := changes + [cache[k]];
      }
      AllHeld(cache, changes);
    }
  }

  /** The list holds the cached changes of all keys but the given ones. */
  ghost predicate HoldsExcept(cache: map<Bytes, Change>, keys: set<Bytes>, out: seq<Change>) {
    AllWellFormed(out) && forall k :: Sub(out, k) == if k in cache && k !in keys then [cache[k]] else []
  }

  lemma NothingHeld(cache: map<Bytes, Change>)
    ensures HoldsExcept(cache, cache.Keys, [])
  {
  }

  lemma AllHeld(cache: map<Bytes, Change>, out: seq<Change>)
    ensures HoldsExcept(cache, {}, out) ==> AllWellFormed(out) && Holds(cache, out)
  {
  }

  lemma HoldOneMore(cache: map<Bytes, Change>, keys: set<Bytes>, out: seq<Change>, k: Bytes)
    requires WellKeyedCache(cache) && HoldsExcept(cache, keys, out) && k in keys && k in cache
    ensures HoldsExcept(cache, keys - {k}, out + [cache[k]])
  {
    forall k'
      ensures Sub(out + [cache[k]], k') == Sub(out, k') + if k' == k then [cache[k]] else []
    {
      SubAppend(out, [cache[k]], k');
      assert [cache[k]][1..] == [];
    }
  }

  ghost predicate WellKeyedCache(cache: map<Bytes, Change>) {
    forall k :: k in cache ==> WellFormed(cache[k]) && KeyOf(cache[k]) == k
  }

  /** A list of changes that holds exactly the cached change of each key. */
  ghost predicate Holds(cache: map<Bytes, Change>, out: seq<Change>) {
    forall k :: Sub(out, k) == if k in cache then [cache[k]] else []
  }

  /** A change is accepted exactly when it starts in the state of presence that the cached one ends in. */
  ghost predicate Accepts(cache: map<Bytes, Change>, c: Change) {
    HasSide(c) && (CacheKey(c) in cache ==> (c.pre.Some? <==> cache[CacheKey(c)].post.Some?))
  }

  ghost function Merged(cache: map<Bytes, Change>, c: Change): map<Bytes, Change>
    requires Accepts(cache, c)
  {
    var k := CacheKey(c);
    if k !in cache then cache[k := c]
    else if cache[k].pre.None? && c.post.None? then cache - {k}
    else cache[k := Change(cache[k].pre, c.post)]
  }

  /** The cache summarises everything between two stores: the old value and the new one of each changed key. */
  ghost predicate Summarises(start: Store, now: Store, cache: map<Bytes, Change>) {
    forall k ::
      if k in cache then
        && WellFormed(cache[k]) && KeyOf(cache[k]) == k
        && cache[k].pre == Get(start, k) && cache[k].post == Get(now, k)
      else Get(now, k) == Get(start, k)
  }

  /** A valid change is never refused, and the cache goes on summarising. */
  lemma CompactStep(start: Store, now: Store, cache: map<Bytes, Change>, c: Change)
    requires Summarises(start, now, cache) && Fits(now, c)
    ensures Accepts(cache, c) && Summarises(start, ApplyChange(now, c), Merged(cache, c))
  {
    var k := CacheKey(c);
    assert k == KeyOf(c);
    assert if k in cache then cache[k].post == Get(now, k) else Get(now, k) == Get(start, k);
    hide Get, Put;
    var cache', now' := Merged(cache, c), ApplyChange(now, c);
    forall k'
      ensures
        if k' in cache' then
          && WellFormed(cache'[k']) && KeyOf(cache'[k']) == k'
          && cache'[k'].pre == Get(start, k') && cache'[k'].post == Get(now', k')
        else Get(now', k') == Get(start, k')
    {
      GetPut(now, k, c.post, k');
      assert k' in cache ==> WellFormed(cache[k']) && KeyOf(cache[k']) == k';
    }
  }

  /** Compacting a whole log, change by change. */
  ghost function Compact(cache: map<Bytes, Change>, log: seq<Change>): Option<map<Bytes, Change>>
    decreases |log|
  {
    if log == [] then Some(cache)
    else if !Accepts(cache, log[0]) then None
    else Compact(Merged(cache, log[0]), log[1..])
  }

  lemma {:induction false} CompactLog(start: Store, now: Store, cache: map<Bytes, Change>, log: seq<Change>)
    requires Summarises(start, now, cache) && ValidLog(now, log)
    ensures Compact(cache, log).Some? && Summarises(start, Apply(now, log), Compact(cache, log).value)
    decreases |log|
  {
    if log != [] {
      CompactStep(start, now, cache, log[0]);
      CompactLog(start, ApplyChange(now, log[0]), Merged(cache, log[0]), log[1..]);
    }
  }

  /**
   * Compaction preserves meaning: for every valid log no change is refused, and the cached changes, one
   * per key and in whatever order they come out, form a valid log with the same effect.
   */
  lemma CompactionPreservesMeaning(s: Store, log: seq<Change>, out: seq<Change>)
    requires ValidLog(s, log) && AllWellFormed(out)
    requires Compact(map[], log).Some? ==> Holds(Compact(map[], log).value, out)
    ensures Compact(map[], log).Some?
    ensures ValidLog(s, out) && Apply(s, out) == Apply(s, log)
    ensures forall i, j :: 0 <= i < j < |out| ==> KeyOf(out[i]) != KeyOf(out[j])
    ensures forall i :: 0 <= i < |out| ==>
      out[i].pre == Get(s, KeyOf(out[i])) && out[i].post == Get(Apply(s, log), KeyOf(out[i]))
  {
    CompactLog(s, s, map[], log);
    var cache := Compact(map[], log).value;
    hide Get, Compact;
    forall k
      ensures Chain(Get(s, k), Sub(out, k)) && End(Get(s, k), Sub(out, k)) == Get(Apply(s, log), k)
    {
      if k in cache {
        assert [cache[k]][1..] == [];
      }
    }
    ValidKeywise(s, out);
    forall k
      ensures Get(Apply(s, out), k) == Get(Apply(s, log), k)
    {
      ApplyKeywise(s, out, k);
    }
    GetExtensional(Apply(s, out), Apply(s, log));
    OneChangePerKey(out, cache);
  }

  lemma OneChangePerKey(out: seq<Change>, cache: map<Bytes, Change>)
    requires AllWellFormed(out) && Holds(cache, out)
    ensures forall i :: 0 <= i < |out| ==> KeyOf(out[i]) in cache && out[i] == cache[KeyOf(out[i])]
    ensures forall i, j :: 0 <= i < j < |out| ==> KeyOf(out[i]) != KeyOf(out[j])
  {
    hide Sub;
    forall i | 0 <= i < |out|
      ensures KeyOf(out[i]) in cache && out[i] == cache[KeyOf(out[i])]
    {
      SubMembers(out, KeyOf(out[i]), out[i]);
    }
    forall i, j | 0 <= i < j < |out|
      ensures KeyOf(out[i]) != KeyOf(out[j])
    {
      if KeyOf(out[i]) == KeyOf(out[j]) {
        TwoInSub(out, i, j);
      }
    }
  }

  lemma TwoInSub(log: seq<Change>, i: nat, j: nat)
    requires AllWellFormed(log) && i < j < |log| && KeyOf(log[i]) == KeyOf(log[j])
    ensures |Sub(log, KeyOf(log[i]))| >= 2
  {
    var k := KeyOf(log[i]);
    assert log == log[..j] + log[j..];
    SubAppend(log[..j], log[j..], k);
    SubMembers(log[..j], k, log[..j][i]);
    SubMembers(log[j..], k, log[j..][0]);
  }

  lemma {:induction false} CompactPrefix(cache: map<Bytes, Change>, a: seq<Change>, b: seq<Change>)
    ensures Compact(cache, a + b) == if Compact(cache, a).None? then None else Compact(Compact(cache, a).value, b)
    decreases |a|
  {
    if a == [] {
      assert a + b == b;
    } else {
      assert (a + b)[1..] == a[1..] + b;
      if Accepts(cache, a[0]) {
        CompactPrefix(Merged(cache, a[0]), a[1..], b);
      }
    }
  }

  lemma CompactAppend(cache: map<Bytes, Change>, log: seq<Change>, c: Change)
    requires Compact(cache, log).Some?
    ensures Compact(cache, log + [c]) ==
            if Accepts(Compact(cache, log).value, c) then Some(Merged(Compact(cache, log).value, c)) else None
  {
    CompactPrefix(cache, log, [c]);
    assert [c][1..] == [];
  }

  /** Well-formed changes are cached under their own key. */
  lemma {:induction false} CompactWellKeyed(cache: map<Bytes, Change>, log: seq<Change>)
    requires WellKeyedCache(cache) && AllWellFormed(log) && Compact(cache, log).Some?
    ensures WellKeyedCache(Compact(cache, log).value)
    decreases |log|
  {
    if log != [] {
      CompactWellKeyed(Merged(cache, log[0]), log[1..]);
    }
  }

  lemma WellKeyed(log: seq<Change>)
    requires Compact(map[], log).Some?
    ensures AllWellFormed(log) ==> WellKeyedCache(Compact(map[], log).value)
  {
    if AllWellFormed(log) {
      CompactWellKeyed(map[], log);
    }
  }

  lemma {:induction false} ValidLogWellFormed(s: Store, log: seq<Change>)
    requires ValidLog(s, log)
    ensures AllWellFormed(log)
    decreases |log|
  {
    if log != [] {
      ValidLogWellFormed(ApplyChange(s, log[0]), log[1..]);
    }
  }
}
