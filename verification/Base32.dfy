/** Base32 without padding (section 6 of RFC 4648), as regrouping of bits. */
module Base32 {
  import opened Common
  import opened Arithmetic

  type Byte = x: int | 0 <= x < 256

  function Power2(w: nat): (r: nat)
    ensures r > 0
  {
    if w == 0 then 1 else 2 * Power2(w - 1)
  }

  // ---------- numbers as bits, most significant first ----------

  function Bits(n: nat, width: nat): (r: seq<bool>)
    ensures |r| == width
  {
    if width == 0 then [] else Bits(n / 2, width - 1) + [n % 2 == 1]
  }

  function Number(bits: seq<bool>): (r: nat) {
    if bits == [] then 0 else 2 * Number(bits[..|bits|-1]) + if bits[|bits|-1] then 1 else 0
  }

  lemma {:induction false} NumberOfBits(n: nat, width: nat)
    requires n < Power2(width)
    ensures Number(Bits(n, width)) == n
  {
    if width > 0 {
      NumberOfBits(n / 2, width - 1);
      var b := Bits(n, width);
      assert b[..|b|-1] == Bits(n / 2, width - 1);
    }
  }

  lemma {:induction false} BitsOfNumber(bits: seq<bool>)
    ensures Number(bits) < Power2(|bits|)
    ensures Bits(Number(bits), |bits|) == bits
    decreases |bits|
  {
    if bits != [] {
      var front := bits[..|bits|-1];
      BitsOfNumber(front);
      assert Number(bits) / 2 == Number(front);
      assert bits == front + [bits[|bits|-1]];
    }
  }

  // ---------- words of a fixed width ----------

  ghost predicate Words(words: seq<nat>, width: nat) {
    forall i :: 0 <= i < |words| ==> words[i] < Power2(width)
  }

  /** The bits of a sequence of words. */
  function Spread(words: seq<nat>, width: nat): (r: seq<bool>)
    ensures |r| == |words| * width
  {
    if words == [] then []
    else
      assert |words| * width == (|words| - 1) * width + width;
      Bits(words[0], width) + Spread(words[1..], width)
  }

  /** The whole words in a sequence of bits; bits that do not fill a word are dropped. */
  function Gather(bits: seq<bool>, width: nat): (r: seq<nat>)
    requires width > 0
    decreases |bits|
  {
    if |bits| < width then [] else [Number(bits[..width])] + Gather(bits[width..], width)
  }

  lemma {:induction false} GatherWords(bits: seq<bool>, width: nat)
    requires width > 0
    ensures Words(Gather(bits, width), width)
    ensures |Gather(bits, width)| * width <= |bits| < |Gather(bits, width)| * width + width
    decreases |bits|
  {
    if |bits| >= width {
      BitsOfNumber(bits[..width]);
      GatherWords(bits[width..], width);
      var rest := Gather(bits[width..], width);
      assert (|rest| + 1) * width == |rest| * width + width;
    }
  }

  /** Gathering undoes spreading, whatever part of a word follows. */
  lemma {:induction false} GatherSpread(words: seq<nat>, width: nat, tail: seq<bool>)
    requires Words(words, width) && |tail| < width
    ensures Gather(Spread(words, width) + tail, width) == words
    decreases |words|
  {
    hide Bits, Number, Power2;
    if words != [] {
      var first, rest := Bits(words[0], width), Spread(words[1..], width);
      var all := Spread(words, width) + tail;
      assert all == first + (rest + tail);
      assert all[..width] == first && all[width..] == rest + tail;
      NumberOfBits(words[0], width);
      GatherSpread(words[1..], width, tail);
    }
  }

  /** Spreading what was gathered gives back all bits but the dropped ones. */
  lemma {:induction false} SpreadGather(bits: seq<bool>, width: nat)
    requires width > 0
    ensures |Spread(Gather(bits, width), width)| <= |bits|
    ensures Spread(Gather(bits, width), width) == bits[..|Spread(Gather(bits, width), width)|]
    decreases |bits|
  {
    if |bits| >= width {
      SpreadGather(bits[width..], width);
      BitsOfNumber(bits[..width]);
      var rest := Gather(bits[width..], width);
      var tail := Spread(rest, width);
      assert Gather(bits, width)[1..] == rest;
      assert Spread(Gather(bits, width), width) == bits[..width] + tail;
      assert bits[..width] + bits[width..][..|tail|] == bits[..width + |tail|];
    }
  }

  // ---------- the alphabet ----------

  const ALPHABET := "ABCDEFGHIJKLMNOPQRSTUVWXYZ234567"

  /** The value of a character, or 255. */
  function Value(c: char): (r: nat)
    ensures r < 32 || r == 255
  {
    if 'A' <= c <= 'Z' then c as int - 'A' as int
    else if '2' <= c <= '7' then c as int - '2' as int + 26
    else 255
  }

  /** The alphabet and the values are inverse to each other. */
  lemma AlphabetInverse(c: char, v: nat)
    ensures v < 32 ==> Value(ALPHABET[v]) == v
    ensures Value(c) < 32 ==> ALPHABET[Value(c)] == c
  {
  }

  predicate InAlphabet(s: string) {
    forall i :: 0 <= i < |s| ==> Value(s[i]) < 32
  }

  function Letters(values: seq<nat>): (r: string)
    requires forall i :: 0 <= i < |values| ==> values[i] < 32
    ensures |r| == |values|
  {
    seq(|values|, i requires 0 <= i < |values| => ALPHABET[values[i]])
  }

  function Values(s: string): (r: seq<nat>)
    ensures |r| == |s|
  {
    seq(|s|, i requires 0 <= i < |s| => Value(s[i]))
  }

  // ---------- encoding and decoding ----------

  function Zeros(n: nat): seq<bool> {
    seq(n, i => false)
  }

  /** Zero bits that fill the last group of five. */
  function Padding(bits: nat): (r: nat)
    ensures r < 5 && (bits + r) % 5 == 0
  {
    (5 - bits % 5) % 5
  }

  /** The bits of the bytes, filled with zeros to groups of five. */
  function Padded(raw: seq<Byte>): (r: seq<bool>)
    ensures |r| == 8 * |raw| + Padding(8 * |raw|)
  {
    Spread(raw, 8) + Zeros(Padding(8 * |raw|))
  }

  function Groups(raw: seq<Byte>): (r: seq<nat>)
    ensures forall i :: 0 <= i < |r| ==> r[i] < 32
  {
    GatherWords(Padded(raw), 5);
    assert Power2(5) == 32;
    Gather(Padded(raw), 5)
  }

  function EncodeBytes(raw: seq<Byte>): (r: string) {
    Letters(Groups(raw))
  }

  lemma TopBits(n: nat)
    requires n < 256
    ensures Bits(n, 8)[..5] == Bits(n / 8, 5)
  {
    hide Bits;
    LowBit(n, 8);
    LowBit(n / 2, 7);
    LowBit(n / 4, 6);
    assert n / 2 / 2 == n / 4 && n / 4 / 2 == n / 8;
  }

  lemma LowBit(n: nat, width: nat)
    requires width > 0
    ensures Bits(n, width) == Bits(n / 2, width - 1) + [n % 2 == 1]
  {
  }

  /** The first character stands for the upper five bits of the first byte. */
  lemma FirstLetter(raw: seq<Byte>)
    requires raw != []
    ensures EncodeBytes(raw) != "" && EncodeBytes(raw)[0] == ALPHABET[raw[0] / 8]
  {
    hide Bits, Number, Power2;
    var bits := Padded(raw);
    assert bits[..5] == Bits(raw[0], 8)[..5];
    TopBits(raw[0]);
    assert Power2(5) == 32 by {
      FiveBits();
    }
    NumberOfBits(raw[0] / 8, 5);
  }

  lemma FiveBits()
    ensures Power2(5) == 32
  {
  }

  /** The characters the decoder makes bytes of: a last quantum of 1, 3 or 6 characters yields none. */
  function Used(n: nat): (r: nat)
    ensures r <= n
  {
    if n % 8 == 1 || n % 8 == 3 || n % 8 == 6 then n - n % 8 else n
  }

  /** The bytes of alphabet characters. */
  function DecodeLetters(s: string): (r: seq<Byte>)
    requires InAlphabet(s)
  {
    var bits := Spread(Values(s[..Used(|s|)]), 5);
    GatherWords(bits, 8);
    assert Power2(8) == 256 by { assert Power2(4) == 16; }
    var bytes := Gather(bits, 8);
    assert forall i :: 0 <= i < |bytes| ==> 0 <= bytes[i] < 256;
    bytes
  }

  /** The pad character of an encoding without padding is -1, and is compared as a byte. */
  const PAD: char := 255 as char

  /** The number of alphabet characters that a text starts with. */
  function Lead(t: string): (r: nat)
    ensures r <= |t| && InAlphabet(t[..r])
    ensures r < |t| ==> Value(t[r]) == 255
  {
    if t == "" || Value(t[0]) == 255 then 0
    else
      var r := 1 + Lead(t[1..]);
      assert t[..r] == [t[0]] + t[1..][..r - 1];
      r
  }

  /**
   * What follows n alphabet characters lets the decoder stop there: nothing, or pad bytes that fill up a quantum
   * with a legal number of characters, and then no more bytes than that number, whatever they are.
   */
  predicate Ends(t: string, n: nat) {
    || n == |t|
    || (&& n % 8 in {2, 4, 5, 7}
        && n + 8 - n % 8 <= |t| <= n + 8
        && forall i :: n <= i < n + 8 - n % 8 ==> t[i] == PAD)
  }

  /** Decodes text without line breaks. */
  function DecodeText(t: string): (r: Option<seq<Byte>>)
    ensures r.Some? <==> Ends(t, Lead(t))
  {
    if Ends(t, Lead(t)) then Some(DecodeLetters(t[..Lead(t)])) else None
  }

  lemma {:induction false} LeadAlone(s: string, rest: string)
    requires InAlphabet(s) && (rest != "" ==> Value(rest[0]) == 255)
    ensures Lead(s + rest) == |s|
    decreases |s|
  {
    if s != "" {
      assert (s + rest)[1..] == s[1..] + rest;
      LeadAlone(s[1..], rest);
    } else {
      assert s + rest == rest;
    }
  }

  /** Text over the alphabet decodes as a whole. */
  lemma AlphabetDecodes(s: string)
    requires InAlphabet(s)
    ensures DecodeText(s) == Some(DecodeLetters(s))
  {
    LeadAlone(s, "");
    assert s + "" == s && s[..|s|] == s;
  }

  function Pads(n: nat): string {
    seq(n, i => PAD)
  }

  /** Pad bytes that fill up the last quantum, and then a few bytes of any kind, change nothing. */
  lemma PadsDecode(s: string, junk: string)
    requires InAlphabet(s) && |s| % 8 in {2, 4, 5, 7} && |junk| <= |s| % 8
    ensures DecodeText(s + Pads(8 - |s| % 8) + junk) == Some(DecodeLetters(s))
  {
    hide DecodeLetters;
    var rest := Pads(8 - |s| % 8) + junk;
    var t := s + Pads(8 - |s| % 8) + junk;
    assert t == s + rest && rest[0] == PAD;
    LeadAlone(s, rest);
    assert t[..|s|] == s;
  }

  lemma EncodedLength(raw: seq<Byte>)
    ensures |EncodeBytes(raw)| == (8 * |raw| + 4) / 5
    ensures Used(|EncodeBytes(raw)|) == |EncodeBytes(raw)|
  {
    hide Spread, Gather, Padding, Used;
    GatherWords(Padded(raw), 5);
    GroupCount(|raw|, |Groups(raw)|);
  }

  lemma GroupCount(bytes: nat, groups: nat)
    requires 5 * groups <= 8 * bytes + Padding(8 * bytes) < 5 * groups + 5
    ensures groups == (8 * bytes + 4) / 5
    ensures Used(groups) == groups
  {
    hide Used;
    var k, r := bytes / 5, bytes % 5;
    assert 8 * bytes == 5 * (8 * k) + 8 * r;
    AllUsed(k, r);
    assert groups == (8 * bytes + 4) / 5 == 8 * k + (8 * r + 4) / 5;
  }

  lemma AllUsed(k: nat, r: nat)
    requires r < 5
    ensures Used(8 * k + (8 * r + 4) / 5) == 8 * k + (8 * r + 4) / 5
  {
  }

  /** Nothing is lost by gathering bits that fill their words. */
  lemma SpreadGatherWhole(bits: seq<bool>, width: nat)
    requires width > 0 && |bits| % width == 0
    ensures Spread(Gather(bits, width), width) == bits
  {
    hide Spread, Gather;
    GatherWords(bits, width);
    SpreadGather(bits, width);
    WholeWords(|Gather(bits, width)|, width, |bits|);
    assert bits[..|bits|] == bits;
  }

  lemma EncodedSpread(raw: seq<Byte>)
    ensures Spread(Groups(raw), 5) == Spread(raw, 8) + Zeros(Padding(8 * |raw|))
  {
    hide Spread, Gather, Padding;
    SpreadGatherWhole(Padded(raw), 5);
  }

  lemma WholeWords(count: nat, width: nat, bits: nat)
    requires width > 0 && count * width <= bits < count * width + width
    ensures count * width == bits - bits % width
  {
    assert (count + 1) * width == count * width + width;
    QuotientUnique(bits, width, count);
  }

  lemma PaddingIsLeftover(length: nat, leftover: nat)
    requires leftover < 5 && leftover <= 5 * length
    ensures Padding(5 * length - leftover) == leftover
  {
  }

  lemma LettersValues(values: seq<nat>)
    requires forall i :: 0 <= i < |values| ==> values[i] < 32
    ensures InAlphabet(Letters(values)) && Values(Letters(values)) == values
  {
    forall i | 0 <= i < |values|
      ensures Value(Letters(values)[i]) == values[i]
    {
      AlphabetInverse('A', values[i]);
    }
  }

  lemma ValuesLetters(s: string)
    requires InAlphabet(s)
    ensures Letters(Values(s)) == s
  {
    forall i | 0 <= i < |s|
      ensures Letters(Values(s))[i] == s[i]
    {
      AlphabetInverse(s[i], 0);
    }
  }

  /** Decoding undoes encoding. */
  lemma DecodeEncode(raw: seq<Byte>)
    ensures DecodeText(EncodeBytes(raw)) == Some(raw)
  {
    hide Groups, Value, Padding;
    var s := EncodeBytes(raw);
    LettersValues(Groups(raw));
    EncodedLength(raw);
    EncodedSpread(raw);
    assert s[..|s|] == s;
    BytesAreWords(raw);
    GatherSpread(raw, 8, Zeros(Padding(8 * |raw|)));
    AlphabetDecodes(s);
  }

  lemma PrintedInAlphabet(raw: seq<Byte>)
    ensures InAlphabet(EncodeBytes(raw))
  {
    LettersValues(Groups(raw));
  }

  lemma BytesAreWords(raw: seq<Byte>)
    ensures Words(raw, 8)
  {
    assert Power2(8) == 256 by { assert Power2(4) == 16; }
  }

  /** The unused bits of a text of canonical length are zero. */
  ghost predicate CleanTail(s: string)
    requires InAlphabet(s)
  {
    var leftover := 5 * |s| % 8;
    leftover < 5 && (leftover > 0 ==> Value(s[|s|-1]) % Power2(leftover) == 0)
  }

  lemma {:induction false} LowBitsZero(n: nat, width: nat, low: nat)
    requires low <= width && n % Power2(low) == 0
    ensures Bits(n, width)[width - low..] == Zeros(low)
    decreases width
  {
    if low > 0 {
      var p := Power2(low - 1);
      var q := n / (2 * p);
      assert n == q * (2 * p) == (q * p) * 2;
      assert n / 2 == q * p;
      assert (q * p) % p == 0 by {
        QuotientUnique(q * p, p, q);
      }
      LowBitsZero(n / 2, width - 1, low - 1);
      assert Zeros(low) == Zeros(low - 1) + [false];
    }
  }

  lemma {:induction false} SpreadLast(words: seq<nat>, width: nat)
    requires words != []
    ensures Spread(words, width) == Spread(words[..|words|-1], width) + Bits(words[|words|-1], width)
    decreases |words|
  {
    if |words| > 1 {
      SpreadLast(words[1..], width);
      var k := |words| - 1;
      assert words[1..][..k - 1] == words[..k][1..];
      assert words[1..][k - 1] == words[k];
      assert Spread(words[..k], width) == Bits(words[0], width) + Spread(words[..k][1..], width);
    } else {
      assert words[1..] == [] && words[..0] == [];
    }
  }

  lemma TailBits(s: string)
    requires InAlphabet(s) && CleanTail(s)
    ensures Used(|s|) == |s|
    ensures var bits, leftover := Spread(Values(s), 5), 5 * |s| % 8;
      leftover <= |bits| && bits[|bits| - leftover..] == Zeros(leftover)
  {
    hide Bits, Spread, Value, Power2, Used;
    var leftover := 5 * |s| % 8;
    AllUsedWhenFew(|s|);
    if leftover > 0 {
      var values := Values(s);
      SpreadLast(values, 5);
      var last := values[|values|-1];
      LowBitsZero(last, 5, leftover);
      TailOf(Spread(values[..|values|-1], 5), Bits(last, 5), leftover);
    }
  }

  lemma AllUsedWhenFew(length: nat)
    requires 5 * length % 8 < 5
    ensures Used(length) == length
  {
  }

  lemma TailOf(front: seq<bool>, back: seq<bool>, n: nat)
    requires n <= |back|
    ensures (front + back)[|front + back| - n..] == back[|back| - n..]
  {
  }

  /** Encoding undoes decoding of text in canonical form. */
  lemma EncodeDecode(s: string, raw: seq<Byte>)
    requires InAlphabet(s) && CleanTail(s) && DecodeText(s) == Some(raw)
    ensures EncodeBytes(raw) == s && 8 * |raw| == 5 * |s| - 5 * |s| % 8
  {
    hide Bits, Number, Value, Spread, Gather, Padding, Letters, Power2;
    AlphabetDecodes(s);
    TailBits(s);
    assert s[..|s|] == s;
    var bits, leftover := Spread(Values(s), 5), 5 * |s| % 8;
    GatherWords(bits, 8);
    SpreadGather(bits, 8);
    WholeWords(|raw|, 8, |bits|);
    var whole := Spread(raw, 8);
    PaddingIsLeftover(|s|, leftover);
    assert whole + Zeros(leftover) == bits;
    ValuesAreWords(s);
    GatherSpread(Values(s), 5, []);
    assert bits + [] == bits;
    assert Groups(raw) == Values(s);
    ValuesLetters(s);
  }

  lemma ValuesAreWords(s: string)
    requires InAlphabet(s)
    ensures Words(Values(s), 5)
  {
    assert Power2(5) == 32;
  }
}
