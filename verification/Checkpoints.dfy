/** Checkpoint arithmetic (historyarchive/range.go), over 32-bit sequence numbers. */
module Checkpoints {
  import opened Common
  import opened Arithmetic

  const MAX_SEQUENCE: int := TWO_32 - 1

  type Sequence = x: int | 0 <= x < TWO_32

  type Frequency = x: int | 0 < x < TWO_32 witness 64

  datatype Range = Range(low: Sequence, high: Sequence)

  /** The sequence number ends a run of `frequency` ledgers. */
  predicate Aligned(frequency: Frequency, i: int) {
    (i + 1) % frequency == 0
  }

  /** As Aligned, but with the increment done on 32 bits. */
  predicate IsCheckpoint(frequency: Frequency, i: Sequence) {
    Wrap32(i + 1) % frequency == 0
  }

  function PrevCheckpoint(frequency: Frequency, i: Sequence): (r: Sequence) {
    if i < frequency then frequency - 1 else
    var m := Wrap32(i + 1) / frequency * frequency;
    QuotientBounds(Wrap32(i + 1), frequency);
    Wrap32(m - 1)
  }

  /** The end of the run of ledgers that holds a ledger, counted on 64 bits. */
  function RunEnd(frequency: Frequency, i: Sequence): (r: int)
    ensures 0 <= r
  {
    if i == 0 then frequency - 1 else
    RoundDownAligned(frequency, i + frequency);
    (i + frequency) / frequency * frequency - 1
  }

  function NextCheckpoint(frequency: Frequency, i: Sequence): (r: Sequence) {
    Min(RunEnd(frequency, i), MAX_SEQUENCE)
  }

  function MakeRange(frequency: Frequency, low: Sequence, high: Sequence): (r: Range) {
    Range(PrevCheckpoint(frequency, low), NextCheckpoint(frequency, Max(high, low)))
  }

  function Clamp(frequency: Frequency, range: Range, other: Range): (r: Range) {
    MakeRange(frequency, Max(range.low, other.low), Min(range.high, other.high))
  }

  lemma MultipleAligned(frequency: Frequency, q: int)
    ensures Aligned(frequency, q * frequency - 1)
  {
    var m := q * frequency;
    assert m % frequency == 0 by {
      QuotientUnique(m, frequency, q);
      assert (q + 1) * frequency == m + frequency;
    }
  }

  /** Two aligned numbers less than one frequency apart are equal. */
  lemma AlignedApart(frequency: Frequency, a: int, b: int)
    requires Aligned(frequency, a) && Aligned(frequency, b) && a < b
    ensures a + frequency <= b
  {
    var p, q := (a + 1) / frequency, (b + 1) / frequency;
    assert a + 1 == p * frequency && b + 1 == q * frequency;
    assert p < q by { MulOrder(p, q, frequency); }
    assert (p + 1) * frequency == p * frequency + frequency;
    MulMonotone(p + 1, q, frequency);
  }

  /** Rounding a count of ledgers down to whole checkpoints ends at the last aligned number below it. */
  lemma RoundDownAligned(frequency: Frequency, n: int)
    ensures var m := n / frequency * frequency;
      && m <= n < m + frequency
      && Aligned(frequency, m - 1)
      && forall s: int :: m - 1 < s < n ==> !Aligned(frequency, s)
  {
    var q := n / frequency;
    var m := q * frequency;
    assert m <= n < m + frequency by {
      QuotientBounds(n, frequency);
      assert (q + 1) * frequency == m + frequency;
    }
    MultipleAligned(frequency, q);
    forall s: int | m - 1 < s < n
      ensures !Aligned(frequency, s)
    {
      if Aligned(frequency, s) {
        AlignedApart(frequency, m - 1, s);
      }
    }
  }

  /** Nothing is aligned within one frequency below an aligned number. */
  lemma NoneBetween(frequency: Frequency, i: int, a: int)
    requires Aligned(frequency, a) && a - frequency < i
    ensures forall s: int :: i <= s < a ==> !Aligned(frequency, s)
  {
    forall s: int | i <= s < a
      ensures !Aligned(frequency, s)
    {
      if Aligned(frequency, s) {
        AlignedApart(frequency, s, a);
      }
    }
  }

  /** The checkpoint of a ledger is the first aligned number at or after it, cut off at the last sequence number. */
  lemma NextCheckpointIsLeast(frequency: Frequency, i: Sequence)
    ensures i <= NextCheckpoint(frequency, i)
    ensures 0 <= NextCheckpoint(frequency, i) - frequency + 1 <= i
    ensures NextCheckpoint(frequency, i) < MAX_SEQUENCE ==> Aligned(frequency, NextCheckpoint(frequency, i))
    ensures forall s: int :: i <= s < NextCheckpoint(frequency, i) ==> !Aligned(frequency, s)
  {
    hide Aligned, RunEnd;
    RunEndAligned(frequency, i);
    NoneBetween(frequency, i, RunEnd(frequency, i));
  }

  lemma RunEndAligned(frequency: Frequency, i: Sequence)
    ensures Aligned(frequency, RunEnd(frequency, i))
    ensures RunEnd(frequency, i) - frequency < i <= RunEnd(frequency, i)
    ensures frequency - 1 <= RunEnd(frequency, i)
  {
    hide Aligned;
    if i == 0 {
      MultipleAligned(frequency, 1);
    } else {
      RoundDownAligned(frequency, i + frequency);
    }
  }

  /**
   * The checkpoint before a ledger is the last aligned number at or before it; a ledger before the
   * first checkpoint gets the first one, and the last sequence number gets itself, by wrap-around.
   */
  lemma PrevCheckpointIsGreatest(frequency: Frequency, i: Sequence)
    ensures i < frequency ==> PrevCheckpoint(frequency, i) == frequency - 1
    ensures i == MAX_SEQUENCE ==> PrevCheckpoint(frequency, i) == MAX_SEQUENCE
    ensures frequency <= i < MAX_SEQUENCE ==>
      && PrevCheckpoint(frequency, i) <= i < PrevCheckpoint(frequency, i) + frequency
      && Aligned(frequency, PrevCheckpoint(frequency, i))
      && forall s: int :: PrevCheckpoint(frequency, i) < s <= i ==> !Aligned(frequency, s)
  {
    hide Aligned;
    RoundDownAligned(frequency, Wrap32(i + 1));
    var m := Wrap32(i + 1) / frequency * frequency;
    if i == MAX_SEQUENCE {
      assert Wrap32(i + 1) == 0 && m == 0;
      assert Wrap32(-1) == MAX_SEQUENCE;
    } else if frequency <= i {
      assert m > 0;
      assert PrevCheckpoint(frequency, i) == m - 1;
    }
  }

  /**
   * Every range made, and so every clamped range, runs upwards between two checkpoints and covers what was
   * asked for.
   */
  lemma MakeRangeCovers(frequency: Frequency, low: Sequence, high: Sequence)
    ensures var r := MakeRange(frequency, low, high);
      && r.low <= r.high
      && (r.low <= low || low < frequency)
      && high <= r.high
      && IsCheckpoint(frequency, r.low) && IsCheckpoint(frequency, r.high)
  {
    hide PrevCheckpoint, NextCheckpoint, Aligned, IsCheckpoint;
    PrevCheckpointIsGreatest(frequency, low);
    NextCheckpointIsLeast(frequency, Max(high, low));
    MultipleAligned(frequency, 1);
    var r := MakeRange(frequency, low, high);
    AlignedIsCheckpoint(frequency, r.low);
    AlignedIsCheckpoint(frequency, r.high);
  }

  /** Clamping a range to another gives checkpoints at both ends and covers all that the two have in common. */
  lemma ClampCovers(frequency: Frequency, range: Range, other: Range, s: Sequence)
    ensures var r := Clamp(frequency, range, other);
      && r.low <= r.high
      && IsCheckpoint(frequency, r.low) && IsCheckpoint(frequency, r.high)
      && (frequency <= s && range.low <= s <= range.high && other.low <= s <= other.high ==> r.low <= s <= r.high)
  {
    hide IsCheckpoint, PrevCheckpoint, NextCheckpoint;
    var low, high := Max(range.low, other.low), Min(range.high, other.high);
    MakeRangeCovers(frequency, low, high);
    PrevCheckpointIsGreatest(frequency, low);
  }

  lemma AlignedIsCheckpoint(frequency: Frequency, i: Sequence)
    requires Aligned(frequency, i) || i == MAX_SEQUENCE
    ensures IsCheckpoint(frequency, i)
  {
    assert Wrap32(MAX_SEQUENCE + 1) == 0;
  }

  /** The checkpoints of a range, from its low end in steps of the frequency, counted on 64 bits. */
  method GenerateCheckpoints(frequency: Frequency, range: Range) returns (r: seq<Sequence>)
    ensures forall s: Sequence :: s in r <==> Steps(frequency, range, s)
    ensures forall i, j :: 0 <= i < j < |r| ==> r[i] < r[j]
  {
    r := [];
    var i := range.low;
    ghost var k := 0;
    while i <= range.high
      invariant i == range.low + k * frequency && 0 <= k
      invariant forall s: Sequence :: s in r <==> Steps(frequency, range, s) && s < i
      invariant forall j :: 0 <= j < |r| ==> r[j] < i
      invariant forall j, l :: 0 <= j < l < |r| ==> r[j] < r[l]
      decreases range.high - i
    {
      StepsNext(frequency, range, k);
      r := r + [i];
      assert (k + 1) * frequency == k * frequency + frequency;
      i := i + frequency;
      k := k + 1;
    }
  }

  /** The number lies in the range, a whole number of steps above its low end. */
  ghost predicate Steps(frequency: Frequency, range: Range, s: Sequence) {
    range.low <= s <= range.high && (s - range.low) % frequency == 0
  }

  lemma StepsNext(frequency: Frequency, range: Range, k: int)
    requires 0 <= k && range.low + k * frequency <= range.high
    ensures Steps(frequency, range, range.low + k * frequency)
    ensures forall s: Sequence :: range.low + k * frequency < s < range.low + k * frequency + frequency ==>
      !Steps(frequency, range, s)
  {
    var i := range.low + k * frequency;
    MultipleAligned(frequency, k);
    forall s: Sequence | i < s < i + frequency
      ensures !Steps(frequency, range, s)
    {
      if Steps(frequency, range, s) {
        AlignedApart(frequency, i - range.low - 1, s - range.low - 1);
      }
    }
  }

  lemma ModShift(frequency: Frequency, p: int, x: int)
    ensures (p * frequency + x) % frequency == x % frequency
  {
    var q, r := x / frequency, x % frequency;
    var y := p * frequency + x;
    assert x == q * frequency + r;
    assert y == (p + q) * frequency + r;
    assert (p + q + 1) * frequency == (p + q) * frequency + frequency;
    QuotientUnique(y, frequency, p + q);
  }

  /** Above an aligned low end, the generated checkpoints are exactly the aligned numbers of the range. */
  lemma StepsAligned(frequency: Frequency, range: Range, s: Sequence)
    requires Aligned(frequency, range.low) && range.low <= s <= range.high
    ensures Steps(frequency, range, s) <==> Aligned(frequency, s)
  {
    var p := (range.low + 1) / frequency;
    assert range.low + 1 == p * frequency;
    ModShift(frequency, p, s - range.low);
  }
}
