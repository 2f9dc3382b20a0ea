/** The two checkpoint scans of a history archive and the missing-file check (historyarchive/scan.go). */
module ArchiveScan {
  import opened Common
  import opened Checkpoints
  import opened ArchivePaths

  // ---------- what each scan can see ----------

  /** A listing of a directory yields every file under it, perhaps other files too, and nothing else. */
  ghost predicate Lists(files: set<string>, listing: string -> seq<string>) {
    && (forall directory, f :: f in files && Under(f, directory) ==> f in listing(directory))
    && (forall directory, f :: f in listing(directory) ==> f in files)
  }

  /** Every file whose name carries a checkpoint number sits at the canonical path of that checkpoint. */
  ghost predicate Canonical(files: set<string>) {
    forall category, f :: category in CATEGORIES && f in files && NumberIn(category, f).Some? ==>
      f == CheckpointPath(category, NumberIn(category, f).value)
  }

  predicate Scanned(skipOptional: bool, category: string) {
    category in CATEGORIES && !(skipOptional && !Required(category))
  }

  /** The scanned categories: only the files of the consensus protocol are optional. */
  lemma ScannedCategories(skipOptional: bool, category: string)
    ensures Scanned(skipOptional, category)
      <==> category in {"history", "ledger", "transactions", "results"} || (category == "scp" && !skipOptional)
  {
  }

  /** A listed file of one of the range's directories bears the number. */
  ghost predicate Bears(listing: string -> seq<string>, range: Range, category: string, n: Sequence, f: string) {
    exists i :: 0 <= i < |RangeDirectories(range)| && f in listing(Join([category, RangeDirectories(range)[i]]))
      && NumberIn(category, f) == Some(n)
  }

  /** The listing scan notes the checkpoint file as present. */
  ghost predicate Listed(listing: string -> seq<string>, range: Range, category: string, n: Sequence) {
    range.low <= n <= range.high && exists f :: Bears(listing, range, category, n, f)
  }

  /** A file at its canonical path is never overlooked: some directory of the range holds it. */
  lemma CanonicalFileListed(files: set<string>,
                            listing: string -> seq<string>, range: Range, category: string, n: Sequence)
    requires Lists(files, listing)
    requires range.low <= n <= range.high
    requires CheckpointPath(category, n) in files
    ensures Listed(listing, range, category, n)
  {
    hide CheckpointPath, RangeDirectories, NumberIn, CheckpointPrefix, Join, HexBytes, Under;
    var f := CheckpointPath(category, n);
    var i, depth := DirectoryOf(range, n);
    UnderPartialPrefix(category, n, depth);
    var directory := Join([category, RangeDirectories(range)[i]]);
    assert f in listing(directory);
    NumberOfCanonicalPath(category, n);
    assert Bears(listing, range, category, n, f);
  }

  /** On an archive with canonical paths, the two scans see the same checkpoints of the range. */
  lemma ScansSeeTheSame(files: set<string>, listing: string -> seq<string>, range: Range, category: string, n: Sequence)
    requires Lists(files, listing) && Canonical(files) && category in CATEGORIES
    requires range.low <= n <= range.high
    ensures Listed(listing, range, category, n) <==> CheckpointPath(category, n) in files
  {
    hide CheckpointPath, RangeDirectories, NumberIn, CheckpointPrefix, Join, HexBytes, Under;
    if CheckpointPath(category, n) in files {
      CanonicalFileListed(files, listing, range, category, n);
    }
    if Listed(listing, range, category, n) {
      var f :| Bears(listing, range, category, n, f);
      assert f in files;
    }
  }

  // ---------- the archive ----------

  type Notes = map<string, map<Sequence, bool>>

  /** The notes say that a checkpoint file is present. */
  predicate Present(notes: Notes, category: string, n: Sequence) {
    category in notes && n in notes[category] && notes[category][n]
  }

  class Archive {
    const frequency: Frequency
    const files: set<string>
    const listing: string -> seq<string>
    var checkpointFiles: Notes

    ghost predicate Valid()
      reads this
    {
      forall category :: category in CATEGORIES ==> category in checkpointFiles
    }

    constructor (frequency: Frequency, files: set<string>, listing: string -> seq<string>)
      ensures Valid() && this.frequency == frequency && this.files == files && this.listing == listing
      ensures forall category, n: Sequence :: !Present(checkpointFiles, category, n)
    {
      this.frequency, this.files, this.listing := frequency, files, listing;
      checkpointFiles := map category | category in CATEGORIES :: map[];
    }

    method ClearCachedInfo()
      requires Valid()
      modifies this
      ensures Valid()
      ensures forall category, n: Sequence :: category in CATEGORIES ==> !Present(checkpointFiles, category, n)
    {
      var i := 0;
      while i < |CATEGORIES|
        invariant 0 <= i <= |CATEGORIES| && Valid()
        invariant forall c, n: Sequence :: c in CATEGORIES[..i] ==> !Present(checkpointFiles, c, n)
      {
        ghost var before := checkpointFiles;
        var category, empty: map<Sequence, bool> := CATEGORIES[i], map[];
        checkpointFiles := checkpointFiles[category := empty];
        assert CATEGORIES[..i + 1] == CATEGORIES[..i] + [category];
        assert forall c, n: Sequence :: Present(checkpointFiles, c, n) ==> c != category && Present(before, c, n);
        i := i + 1;
      }
      assert CATEGORIES[..i] == CATEGORIES;
    }

    method NoteCheckpointFile(category: string, n: Sequence, present: bool)
      requires Valid() && category in checkpointFiles
      modifies this
      ensures Valid()
      ensures forall c, k: Sequence ::
        Present(checkpointFiles, c, k) <==>
          if c == category && k == n then present else Present(old(checkpointFiles), c, k)
    {
      var table: map<Sequence, bool> := checkpointFiles[category][n := present];
      checkpointFiles := checkpointFiles[category := table];
    }

    /** The lookups of the slow scan. */
    method SlowRequests(range: Range, skipOptional: bool) returns (requests: set<(string, Sequence)>)
      ensures forall c, n: Sequence :: (c, n) in requests <==> Scanned(skipOptional, c) && Steps(frequency, range, n)
    {
      hide Steps;
      requests := {};
      var i := 0;
      while i < |CATEGORIES|
        invariant 0 <= i <= |CATEGORIES|
        invariant forall c, n: Sequence :: (c, n) in requests <==>
          c in CATEGORIES[..i] && Scanned(skipOptional, c) && Steps(frequency, range, n)
      {
        var category := CATEGORIES[i];
        assert CATEGORIES[..i + 1] == CATEGORIES[..i] + [category];
        if !(skipOptional && !Required(category)) {
          var checkpoints := GenerateCheckpoints(frequency, range);
          requests := requests + set n | n in checkpoints :: (category, n);
        }
        i := i + 1;
      }
      assert CATEGORIES[..i] == CATEGORIES;
    }

    /** Looks up the file of every checkpoint of the range, in whatever order the workers take the requests. */
    method ScanCheckpointsSlow(range: Range, skipOptional: bool)
      requires Valid()
      modifies this
      ensures Valid()
      ensures forall category, n: Sequence :: Present(checkpointFiles, category, n) <==>
        if Scanned(skipOptional, category) && Steps(frequency, range, n) then CheckpointPath(category, n) in files
        else Present(old(checkpointFiles), category, n)
    {
      hide CheckpointPath, Steps, Present;
      var pending := SlowRequests(range, skipOptional);
      ghost var all := pending;
      while pending != {}
        invariant Valid() && pending <= all
        invariant forall c, n: Sequence :: Present(checkpointFiles, c, n) <==>
          if (c, n) in all && (c, n) !in pending then CheckpointPath(c, n) in files
          else Present(old(checkpointFiles), c, n)
        decreases |pending|
      {
        var request :| request in pending;
        var (category, n) := request;
        assert (category, n) in all;
        NoteCheckpointFile(category, n, CheckpointPath(category, n) in files);
        pending := pending - {request};
      }
    }

    /** The numbers a listing of one directory yields for a category. */
    method ListCategoryCheckpoints(category: string, path: string) returns (r: seq<Sequence>)
      ensures forall n: Sequence :: n in r <==>
        exists f :: f in listing(Join([category, path])) && NumberIn(category, f) == Some(n)
    {
      hide NumberIn, Join;
      r := [];
      var names := listing(Join([category, path]));
      var i := 0;
      while i < |names|
        invariant 0 <= i <= |names|
        invariant forall n: Sequence :: n in r <==> exists f :: f in names[..i] && NumberIn(category, f) == Some(n)
      {
        var number := NumberIn(category, names[i]);
        assert names[..i + 1] == names[..i] + [names[i]];
        if number.Some? {
          r := r + [number.value];
        }
        i := i + 1;
      }
      assert names[..i] == names;
    }

    /** What the listings of the range's directories yield for one category. */
    method ListRange(range: Range, category: string, paths: seq<string>) returns (r: set<Sequence>)
      requires paths == RangeDirectories(range)
      ensures forall n: Sequence :: n in r <==> Listed(listing, range, category, n)
    {
      hide NumberIn, Join, RangeDirectories;
      r := {};
      var i := 0;
      while i < |paths|
        invariant 0 <= i <= |paths|
        invariant forall n: Sequence :: n in r ==> Listed(listing, range, category, n)
        invariant forall n: Sequence, j, f :: (0 <= j < i && range.low <= n <= range.high
          && f in listing(Join([category, paths[j]])) && NumberIn(category, f) == Some(n)) ==> n in r
      {
        var numbers := ListCategoryCheckpoints(category, paths[i]);
        var inside := set n | n in numbers && range.low <= n <= range.high;
        forall n: Sequence | n in inside
          ensures Listed(listing, range, category, n)
        {
          var f :| f in listing(Join([category, paths[i]])) && NumberIn(category, f) == Some(n);
          assert Bears(listing, range, category, n, f);
        }
        r := r + inside;
        i := i + 1;
      }
    }

    /** The presence notes of the fast scan. */
    method FastNotes(range: Range, skipOptional: bool) returns (notes: set<(string, Sequence)>)
      ensures forall c, n: Sequence :: (c, n) in notes <==> Scanned(skipOptional, c) && Listed(listing, range, c, n)
    {
      hide Listed;
      notes := {};
      var i := 0;
      while i < |CATEGORIES|
        invariant 0 <= i <= |CATEGORIES|
        invariant forall c, n: Sequence :: (c, n) in notes <==>
          c in CATEGORIES[..i] && Scanned(skipOptional, c) && Listed(listing, range, c, n)
      {
        var category := CATEGORIES[i];
        assert CATEGORIES[..i + 1] == CATEGORIES[..i] + [category];
        if !(skipOptional && !Required(category)) {
          var paths := RangePaths(range);
          var numbers := ListRange(range, category, paths);
          notes := notes + set n | n in numbers :: (category, n);
        }
        i := i + 1;
      }
      assert CATEGORIES[..i] == CATEGORIES;
    }

    /** Lists the directories of the range and notes what they hold, in whatever order the workers get to it. */
    method ScanCheckpointsFast(range: Range, skipOptional: bool)
      requires Valid()
      modifies this
      ensures Valid()
      ensures forall category, n: Sequence :: Present(checkpointFiles, category, n) <==>
        (Scanned(skipOptional, category) && Listed(listing, range, category, n))
          || Present(old(checkpointFiles), category, n)
    {
      hide Listed, Present;
      var pending := FastNotes(range, skipOptional);
      ghost var all := pending;
      while pending != {}
        invariant Valid() && pending <= all
        invariant forall c, n: Sequence :: Present(checkpointFiles, c, n) <==>
          ((c, n) in all && (c, n) !in pending) || Present(old(checkpointFiles), c, n)
        decreases |pending|
      {
        var note :| note in pending;
        var (category, n) := note;
        assert (category, n) in all;
        NoteCheckpointFile(category, n, true);
        pending := pending - {note};
      }
    }

    /** The checkpoints of the range whose file is not noted as present, per category. */
    method CheckCheckpointFilesMissing(range: Range) returns (missing: map<string, seq<Sequence>>)
      requires Valid()
      ensures forall c :: c in missing <==> c in CATEGORIES
      ensures forall c :: c in CATEGORIES ==> MissingList(checkpointFiles, frequency, range, c, missing[c])
    {
      hide Present, Steps;
      missing := map[];
      var i := 0;
      while i < |CATEGORIES|
        invariant 0 <= i <= |CATEGORIES|
        invariant forall c :: c in missing <==> c in CATEGORIES[..i]
        invariant forall c :: c in CATEGORIES[..i] ==> MissingList(checkpointFiles, frequency, range, c, missing[c])
      {
        var category := CATEGORIES[i];
        assert CATEGORIES[..i + 1] == CATEGORIES[..i] + [category];
        var list := MissingOf(range, category);
        missing := missing[category := list];
        i := i + 1;
      }
      assert CATEGORIES[..i] == CATEGORIES;
    }

    method MissingOf(range: Range, category: string) returns (r: seq<Sequence>)
      ensures MissingList(checkpointFiles, frequency, range, category, r)
    {
      hide Present, Steps;
      r := [];
      var checkpoints := GenerateCheckpoints(frequency, range);
      var i := 0;
      while i < |checkpoints|
        invariant 0 <= i <= |checkpoints|
        invariant forall n: Sequence :: n in r <==> n in checkpoints[..i] && !Present(checkpointFiles, category, n)
        invariant Increasing(r)
      {
        var n := checkpoints[i];
        assert checkpoints[..i + 1] == checkpoints[..i] + [n];
        if !Present(checkpointFiles, category, n) {
          forall j | 0 <= j < |r|
            ensures r[j] < n
          {
            assert r[j] in checkpoints[..i];
          }
          r := r + [n];
        }
        i := i + 1;
      }
      assert checkpoints[..i] == checkpoints;
    }
  }

  // ---------- the two scans give the same answer ----------

  ghost predicate Increasing(s: seq<Sequence>) {
    forall i, j :: 0 <= i < j < |s| ==> s[i] < s[j]
  }

  /** The list holds, in order, the checkpoints of the range without a presence note. */
  ghost predicate MissingList(notes: Notes, frequency: Frequency, range: Range, category: string, list: seq<Sequence>) {
    && Increasing(list)
    && forall n: Sequence :: n in list <==> Steps(frequency, range, n) && !Present(notes, category, n)
  }

  lemma WithoutLast(s: seq<Sequence>, n: Sequence)
    requires Increasing(s) && s != []
    ensures n in s[..|s|-1] <==> n in s && n != s[|s|-1]
  {
    assert s == s[..|s|-1] + [s[|s|-1]];
  }

  /** Increasing lists of the same numbers are the same list. */
  lemma {:induction false} IncreasingUnique(s: seq<Sequence>, t: seq<Sequence>)
    requires Increasing(s) && Increasing(t)
    requires forall n: Sequence :: n in s <==> n in t
    ensures s == t
    decreases |s|
  {
    assert t != [] ==> t[0] in s;
    if s != [] {
      assert s[0] in t;
      var k, l := |s| - 1, |t| - 1;
      assert s[k] == t[l] by {
        assert s[k] in t && t[l] in s;
      }
      forall n: Sequence
        ensures n in s[..k] <==> n in t[..l]
      {
        WithoutLast(s, n);
        WithoutLast(t, n);
      }
      IncreasingUnique(s[..k], t[..l]);
      assert s == s[..k] + [s[k]] && t == t[..l] + [t[l]];
    }
  }

  /** From a cleared archive, the fast and the slow scan lead to the same report of missing checkpoint files. */
  method ReportMissingBothWays(archive: Archive, range: Range, skipOptional: bool)
    returns (fast: map<string, seq<Sequence>>, slow: map<string, seq<Sequence>>)
    requires archive.Valid()
    requires Lists(archive.files, archive.listing) && Canonical(archive.files)
    modifies archive
    ensures fast == slow
    ensures forall c :: c in slow <==> c in CATEGORIES
    ensures forall c, n: Sequence :: c in CATEGORIES ==>
      (n in slow[c] <==>
        Steps(archive.frequency, range, n) && !(Scanned(skipOptional, c) && CheckpointPath(c, n) in archive.files))
  {
    hide Present, Steps, CheckpointPath, Listed, Canonical, Lists;
    archive.ClearCachedInfo();
    archive.ScanCheckpointsFast(range, skipOptional);
    fast := archive.CheckCheckpointFilesMissing(range);
    ghost var fastNotes := archive.checkpointFiles;
    archive.ClearCachedInfo();
    archive.ScanCheckpointsSlow(range, skipOptional);
    slow := archive.CheckCheckpointFilesMissing(range);
    ghost var slowNotes := archive.checkpointFiles;
    forall c | c in CATEGORIES
      ensures fast[c] == slow[c]
    {
      forall n: Sequence
        ensures n in fast[c] <==> n in slow[c]
      {
        if Steps(archive.frequency, range, n) {
          InsideRange(archive.frequency, range, n);
          ScansSeeTheSame(archive.files, archive.listing, range, c, n);
        }
      }
      IncreasingUnique(fast[c], slow[c]);
    }
    assert forall c :: c in fast <==> c in slow;
  }

  lemma InsideRange(frequency: Frequency, range: Range, n: Sequence)
    requires Steps(frequency, range, n)
    ensures range.low <= n <= range.high
  {
  }
}
