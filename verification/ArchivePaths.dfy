/** Archive paths: directory prefixes, canonical file names, and the pattern a listing is matched with. */
module ArchivePaths {
  import opened Common
  import opened Checkpoints

  // ---------- hexadecimal ----------

  const DIGITS := "0123456789abcdef"

  /** The low `width` hexadecimal digits of a number. */
  function Hex(n: nat, width: nat): (r: string)
    ensures |r| == width
  {
    if width == 0 then "" else Hex(n / 16, width - 1) + [DIGITS[n % 16]]
  }

  function Digit(c: char): (r: Option<nat>)
    ensures r.Some? ==> r.value < 16
  {
    if '0' <= c <= '9' then Some(c as int - '0' as int)
    else if 'a' <= c <= 'f' then Some(c as int - 'a' as int + 10)
    else None
  }

  predicate IsHex(s: string) {
    forall i :: 0 <= i < |s| ==> Digit(s[i]).Some?
  }

  function ParseHex(s: string): (r: nat)
    requires IsHex(s)
  {
    if s == "" then 0 else ParseHex(s[..|s|-1]) * 16 + Digit(s[|s|-1]).value
  }

  function Power16(w: nat): (r: nat)
    ensures r > 0
  {
    if w == 0 then 1 else 16 * Power16(w - 1)
  }

  lemma DigitPrinted(d: nat)
    requires d < 16
    ensures Digit(DIGITS[d]) == Some(d)
  {
  }

  /** Printing and parsing hexadecimal numbers are inverse to each other. */
  lemma {:induction false} HexRoundTrip(n: nat, width: nat)
    requires n < Power16(width)
    ensures IsHex(Hex(n, width)) && ParseHex(Hex(n, width)) == n
  {
    if width > 0 {
      HexRoundTrip(n / 16, width - 1);
      DigitPrinted(n % 16);
      var s := Hex(n, width);
      assert s[..|s|-1] == Hex(n / 16, width - 1);
    }
  }

  // ---------- directory prefixes (historyarchive/dirprefix.go) ----------

  type DirPrefix = d: seq<nat> | |d| == 3 witness [0, 0, 0]

  /** The three high bytes of a sequence number. */
  function CheckpointPrefix(s: Sequence): (r: DirPrefix)
    ensures r[0] < 256 && r[1] < 256 && r[2] < 256
  {
    [s / 0x100_0000 % 256, s / 0x1_0000 % 256, s / 0x100 % 256]
  }

  /** Path elements joined by slashes; none of the elements used here is empty or dotted. */
  function Join(parts: seq<string>): string {
    if parts == [] then ""
    else if |parts| == 1 then parts[0]
    else parts[0] + "/" + Join(parts[1..])
  }

  lemma {:induction false} JoinConcat(p: seq<string>, q: seq<string>)
    requires p != [] && q != []
    ensures Join(p + q) == Join(p) + "/" + Join(q)
    decreases |p|
  {
    if |p| == 1 {
      assert (p + q)[1..] == q;
    } else {
      JoinConcat(p[1..], q);
      assert (p + q)[1..] == p[1..] + q;
      assert p[0] + "/" + (Join(p[1..]) + "/" + Join(q)) == (p[0] + "/" + Join(p[1..])) + "/" + Join(q);
    }
  }

  function HexBytes(d: seq<nat>): (r: seq<string>)
    ensures |r| == |d|
  {
    seq(|d|, i requires 0 <= i < |d| => Hex(d[i], 2))
  }

  /** The first n + 1 components of a prefix as a path: its loop stops only after passing index n. */
  method PathPrefix(d: DirPrefix, n: nat) returns (r: string)
    ensures r == Join(HexBytes(d[..Min(n + 1, 3)]))
  {
    var tmp: seq<string> := [];
    var i := 0;
    while i < 3 && i <= n
      invariant 0 <= i <= Min(n + 1, 3)
      invariant tmp == HexBytes(d[..i])
    {
      tmp := tmp + [Hex(d[i], 2)];
      i := i + 1;
    }
    r := Join(tmp);
  }

  /** The index at which two prefixes first differ, or the last index. */
  function FirstDifference(a: DirPrefix, b: DirPrefix): (r: nat)
    ensures r < 3
  {
    if a[0] != b[0] then 0 else if a[1] != b[1] then 1 else 2
  }

  /** The directory i places after a prefix, at the depth of one of its components. */
  function Directory(low: DirPrefix, depth: nat, i: nat): string
    requires depth < 3
  {
    Join(HexBytes(low[..depth] + [low[depth] + i]))
  }

  /** The directories from the low to the high prefix of a range, at the depth where they part. */
  function RangeDirectories(range: Range): (r: seq<string>) {
    var low, high := CheckpointPrefix(range.low), CheckpointPrefix(range.high);
    var diff := FirstDifference(low, high);
    var first: int, last: int := low[diff], high[diff];
    seq(Max(0, last - first + 1), i requires 0 <= i < Max(0, last - first + 1) => Directory(low, diff, i))
  }

  method RangePaths(range: Range) returns (r: seq<string>)
    ensures r == RangeDirectories(range)
  {
    hide CheckpointPrefix, HexBytes, Join;
    r := [];
    var low, high := CheckpointPrefix(range.low), CheckpointPrefix(range.high);
    var diff := 0;
    var j := 0;
    while j < 3
      invariant 0 <= j <= 3 && diff == Max(0, j - 1)
      invariant forall k :: 0 <= k < j ==> low[k] == high[k]
    {
      diff := j;
      if high[j] != low[j] {
        break;
      }
      j := j + 1;
    }
    var tmp: DirPrefix := low;
    var i := low[diff];
    while i <= high[diff]
      invariant diff == FirstDifference(low, high)
      invariant low[diff] <= i <= Max(low[diff], high[diff] + 1)
      invariant tmp[..diff] == low[..diff]
      invariant |r| == i - low[diff]
      invariant forall k :: 0 <= k < |r| ==> r[k] == Directory(low, diff, k)
    {
      tmp := tmp[diff := i];
      var path := PathPrefix(tmp, diff);
      assert tmp[..diff + 1] == low[..diff] + [low[diff] + |r|];
      r := r + [path];
      i := i + 1;
    }
  }

  lemma ByteBetween(low: nat, s: nat, high: nat)
    requires low <= s <= high
    ensures low / 256 <= s / 256 <= high / 256
    ensures low / 256 == high / 256 ==> low % 256 <= s % 256 <= high % 256
  {
  }

  lemma Shifts(s: Sequence)
    ensures var t := s / 256;
      CheckpointPrefix(s) == [t / 256 / 256, t / 256 % 256, t % 256]
  {
  }

  /** The bytes of a number inside a range agree with the low end up to where the ends part, and lie between there. */
  lemma PrefixBetween(range: Range, s: Sequence)
    requires range.low <= s <= range.high
    ensures var low, high, mid := CheckpointPrefix(range.low), CheckpointPrefix(range.high), CheckpointPrefix(s);
      var diff := FirstDifference(low, high);
      mid[..diff] == low[..diff] && low[diff] <= mid[diff] <= high[diff]
  {
    hide CheckpointPrefix;
    Shifts(range.low);
    Shifts(s);
    Shifts(range.high);
    var a, b, c := range.low / 256, s / 256, range.high / 256;
    ByteBetween(range.low, s, range.high);
    ByteBetween(a, b, c);
    ByteBetween(a / 256, b / 256, c / 256);
  }

  /** The path of every number of a range starts with one of the range's directories. */
  lemma DirectoryOf(range: Range, s: Sequence) returns (i: nat, depth: nat)
    requires range.low <= s <= range.high
    ensures i < |RangeDirectories(range)| && depth < 3
    ensures RangeDirectories(range)[i] == Join(HexBytes(CheckpointPrefix(s)[..depth + 1]))
  {
    PrefixBetween(range, s);
    var low, high, mid := CheckpointPrefix(range.low), CheckpointPrefix(range.high), CheckpointPrefix(s);
    depth := FirstDifference(low, high);
    i := mid[depth] - low[depth];
    assert low[..depth] + [low[depth] + i] == mid[..depth + 1];
  }

  // ---------- canonical file names (historyarchive/util.go) ----------

  const CATEGORIES := ["history", "ledger", "transactions", "results", "scp"]

  function Extension(category: string): string {
    if category == "history" then "json" else "xdr.gz"
  }

  predicate Required(category: string) {
    category != "scp"
  }

  function FileName(category: string, s: Sequence): string {
    category + "-" + Hex(s, 8) + "." + Extension(category)
  }

  function CheckpointPath(category: string, s: Sequence): string {
    Join([category, Join(HexBytes(CheckpointPrefix(s))), FileName(category, s)])
  }

  /** A text of the listing pattern, from its variable parts. */
  function Pattern(category: string, a: string, b: string, c: string, number: string): string {
    category + "/" + a + "/" + b + "/" + c + "/" + (category + "-" + number + "." + Extension(category))
  }

  /** The number in a listed path whose tail matches the pattern of a category (historyarchive/archive.go). */
  function NumberIn(category: string, path: string): (r: Option<Sequence>) {
    var k := |category|;
    var length := 2 * k + 20 + |Extension(category)|;
    if |path| < length then None else
    var t := path[|path| - length..];
    var a, b, c, number := t[k + 1..k + 3], t[k + 4..k + 6], t[k + 7..k + 9], t[2 * k + 11..2 * k + 19];
    if IsHex(a) && IsHex(b) && IsHex(c) && IsHex(number) && t == Pattern(category, a, b, c, number) then
      ParseHexBound(number);
      Some(ParseHex(number))
    else None
  }

  lemma {:induction false} ParseHexBound(s: string)
    requires IsHex(s)
    ensures ParseHex(s) < Power16(|s|)
    ensures |s| == 8 ==> ParseHex(s) < TWO_32
    decreases |s|
  {
    if s != "" {
      ParseHexBound(s[..|s|-1]);
    }
    if |s| == 8 {
      Power8();
    }
  }

  lemma Power8()
    ensures Power16(8) == TWO_32
  {
    assert Power16(4) == 65536;
  }

  lemma {:induction false} CanonicalPathIsPattern(category: string, s: Sequence)
    ensures var d := CheckpointPrefix(s);
      CheckpointPath(category, s) == Pattern(category, Hex(d[0], 2), Hex(d[1], 2), Hex(d[2], 2), Hex(s, 8))
  {
    hide CheckpointPrefix;
    var d := CheckpointPrefix(s);
    var a, b, c, name := Hex(d[0], 2), Hex(d[1], 2), Hex(d[2], 2), FileName(category, s);
    assert HexBytes(d) == [a, b, c];
    JoinThree(a, b, c);
    JoinThree(category, Join([a, b, c]), name);
  }

  lemma JoinThree(a: string, b: string, c: string)
    ensures Join([a, b, c]) == a + "/" + b + "/" + c
  {
    assert [a, b, c][1..] == [b, c] && [b, c][1..] == [c];
    assert Join([c]) == c;
    assert Join([b, c]) == b + "/" + c;
  }

  lemma PatternPieces(category: string, a: string, b: string, c: string, number: string)
    requires |a| == |b| == |c| == 2 && |number| == 8
    ensures var t, k := Pattern(category, a, b, c, number), |category|;
      && |t| == 2 * k + 20 + |Extension(category)|
      && t[k + 1..k + 3] == a && t[k + 4..k + 6] == b && t[k + 7..k + 9] == c && t[2 * k + 11..2 * k + 19] == number
  {
  }

  /** The listing pattern reads the number back from a canonical path. */
  lemma NumberOfCanonicalPath(category: string, s: Sequence)
    ensures NumberIn(category, CheckpointPath(category, s)) == Some(s)
  {
    hide CheckpointPath, Pattern;
    CanonicalPathIsPattern(category, s);
    var d := CheckpointPrefix(s);
    assert Power16(2) == 256 by { assert Power16(1) == 16; }
    Power8();
    HexRoundTrip(d[0], 2);
    HexRoundTrip(d[1], 2);
    HexRoundTrip(d[2], 2);
    HexRoundTrip(s, 8);
    PatternPieces(category, Hex(d[0], 2), Hex(d[1], 2), Hex(d[2], 2), Hex(s, 8));
    var t := CheckpointPath(category, s);
    assert t[0..] == t;
  }

  predicate StartsWith(s: string, prefix: string) {
    |prefix| <= |s| && s[..|prefix|] == prefix
  }

  /** The path lies in a directory. */
  predicate Under(path: string, directory: string) {
    StartsWith(path, directory + "/")
  }

  lemma UnderPartialPrefix(category: string, s: Sequence, depth: nat)
    requires depth < 3
    ensures Under(CheckpointPath(category, s), Join([category, Join(HexBytes(CheckpointPrefix(s)[..depth + 1]))]))
  {
    var d, name := CheckpointPrefix(s), FileName(category, s);
    var h, g := HexBytes(d), HexBytes(d[..depth + 1]);
    var rest := h[depth + 1..] + [name];
    assert h == g + h[depth + 1..];
    JoinConcat([category, Join(g)], rest);
    JoinConcat([category] , [Join(g)]);
    JoinConcat([category] + [Join(h)], [name]);
    JoinConcat([category], [Join(h)]);
    JoinConcat(h, [name]);
    JoinConcat(g, rest);
    assert g + rest == h + [name];
    assert [category] + [Join(h)] + [name] == [category, Join(h), name];
    assert [category] + [Join(g)] == [category, Join(g)];
    var directory := category + "/" + Join(g);
    assert CheckpointPath(category, s) == category + "/" + (Join(h) + "/" + name);
    assert Join(h) + "/" + name == Join(g) + "/" + Join(rest);
    assert CheckpointPath(category, s) == directory + "/" + Join(rest);
  }
}
