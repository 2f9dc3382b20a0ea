/** The StrKey codec (strkey/main.go). The CRC-16 of the source is a parameter. */
module StrKey {
  import opened Common
  import opened Base32
  import Arithmetic

  type Word = x: int | 0 <= x < 65536

  type Checksum = seq<Byte> -> Word

  datatype Error =
    | InvalidVersion | TooLarge | TooShort | LeftoverCharacter | LeftoverBits | Corrupt | InvalidChecksum
    /** An index or slice of the decoded bytes is out of range. */
    | IndexPanic

  const MAX_PAYLOAD := 100

  const MAX_RAW := 1 + MAX_PAYLOAD + 2

  /** Account id, seed, muxed account, transaction hash, hash(x), signed payload and contract. */
  const VERSIONS: seq<Byte> := [48, 144, 96, 152, 184, 120, 16]

  predicate ValidVersion(version: Byte) {
    version in VERSIONS
  }

  function LittleEndian(w: Word): seq<Byte> {
    [w % 256, w / 256]
  }

  function FromLittleEndian(low: Byte, high: Byte): (r: Word)
    ensures LittleEndian(r) == [low, high]
  {
    var a: int, b: int := low, high;
    a + 256 * b
  }

  /** Version byte, payload, and the checksum of both in little-endian order. */
  function Packed(crc: Checksum, version: Byte, payload: seq<Byte>): seq<Byte> {
    [version] + payload + LittleEndian(crc([version] + payload))
  }

  method Encode(crc: Checksum, version: Byte, source: seq<Byte>) returns (r: Result<string, Error>)
    ensures r == EncodeKey(crc, version, source)
  {
    hide EncodeBytes;
    if !ValidVersion(version) {
      return Err(InvalidVersion);
    }
    var size := |source|;
    if size > MAX_PAYLOAD {
      return Err(TooLarge);
    }
    var raw := new Byte[MAX_RAW](i => 0);
    raw[0] := version;
    var i := 0;
    while i < size
      invariant 0 <= i <= size
      invariant raw[0] == version
      invariant raw[1..1 + i] == source[..i]
    {
      raw[1 + i] := source[i];
      i := i + 1;
    }
    assert raw[..1 + size] == [version] + source;
    var w := crc(raw[..1 + size]);
    raw[1 + size] := w % 256;
    raw[2 + size] := w / 256;
    assert raw[..3 + size] == raw[..1 + size] + LittleEndian(w);
    return Ok(EncodeBytes(raw[..3 + size]));
  }

  function EncodeKey(crc: Checksum, version: Byte, payload: seq<Byte>): (r: Result<string, Error>) {
    if !ValidVersion(version) then Err(InvalidVersion)
    else if |payload| > MAX_PAYLOAD then Err(TooLarge)
    else Ok(EncodeBytes(Packed(crc, version, payload)))
  }

  /** Every kind of key is recognised by its first letter. */
  lemma KindLetter(crc: Checksum, version: Byte, payload: seq<Byte>)
    requires EncodeKey(crc, version, payload).Ok?
    ensures var s := EncodeKey(crc, version, payload).value;
      s != "" &&
      s[0] == match version
        case 48 => 'G'
        case 144 => 'S'
        case 96 => 'M'
        case 152 => 'T'
        case 184 => 'X'
        case 120 => 'P'
        case _ => 'C'
    ensures version in {48, 144, 96, 152, 184, 120, 16}
  {
    hide EncodeBytes;
    FirstLetter(Packed(crc, version, payload));
  }

  /** The table from character codes to values, 255 marking the rest. */
  method InitDecodingTable() returns (table: array<Byte>)
    ensures table.Length == 256
    ensures forall c: char :: c as int < 256 ==> table[c as int] == Value(c)
  {
    hide Value;
    table := new Byte[256](i => 0xff);
    var i := 0;
    while i < |ALPHABET|
      invariant 0 <= i <= |ALPHABET|
      invariant forall c: char :: c as int < 256 ==> table[c as int] == if c in ALPHABET[..i] then Value(c) else 255
    {
      var letter := ALPHABET[i];
      AlphabetInverse(letter, i);
      LettersAreAscii(i);
      assert ALPHABET[..i + 1] == ALPHABET[..i] + [letter];
      table[letter as int] := i;
      i := i + 1;
    }
    assert ALPHABET[..i] == ALPHABET;
    forall c: char | c !in ALPHABET
      ensures Value(c) == 255
    {
      AlphabetInverse(c, 0);
    }
  }

  lemma LettersAreAscii(i: nat)
    requires i < |ALPHABET|
    ensures ALPHABET[i] as int < 256
  {
  }

  // ---------- decoding ----------

  predicate LineBreak(c: char) {
    c == '\r' || c == '\n'
  }

  predicate HasLineBreak(s: string) {
    exists i :: 0 <= i < |s| && LineBreak(s[i])
  }

  /** The base32 decoder drops line breaks before it decodes. */
  function Stripped(s: string): (r: string)
    ensures |r| <= |s|
    ensures !HasLineBreak(r)
    ensures !HasLineBreak(s) ==> r == s
  {
    if s == "" then ""
    else
      var rest := Stripped(s[1..]);
      assert !HasLineBreak(s) ==> !HasLineBreak(s[1..]) && !LineBreak(s[0]) by {
        assert forall i :: 0 <= i < |s| - 1 ==> s[1..][i] == s[i + 1];
      }
      if LineBreak(s[0]) then rest else [s[0]] + rest
  }

  /** Base32 decoding that insists on canonical form, judged on the text with its line breaks. */
  function DecodeString(s: string): (r: Result<seq<Byte>, Error>) {
    if |s| < 5 then Err(TooShort) else
    var leftover := |s| * 5 % 8;
    if leftover >= 5 then Err(LeftoverCharacter) else
    var last := Value(s[|s|-1]);
    if leftover > 0 && last == 255 then Err(Corrupt) else
    if leftover > 0 && last % Power2(leftover) != 0 then Err(LeftoverBits) else
    match DecodeText(Stripped(s))
    case None => Err(Corrupt)
    case Some(raw) => Ok(raw)
  }

  function DecodeKey(crc: Checksum, expected: Byte, s: string): (r: Result<seq<Byte>, Error>) {
    if !ValidVersion(expected) then Err(InvalidVersion) else
    match DecodeString(s)
    case Err(e) => Err(e)
    case Ok(raw) =>
      if |raw| < 3 then Err(TooShort) else
      var n := |raw| - 2;
      if raw[0] != expected then Err(InvalidVersion)
      else if crc(raw[..n]) != FromLittleEndian(raw[n], raw[n + 1]) then Err(InvalidChecksum)
      else Ok(raw[1..n])
  }

  /** As DecodeKey for any valid version, without the length check. */
  function DecodeAny(crc: Checksum, s: string): (r: Result<(Byte, seq<Byte>), Error>) {
    match DecodeString(s)
    case Err(e) => Err(e)
    case Ok(raw) =>
      if |raw| < 3 then Err(IndexPanic) else
      var n := |raw| - 2;
      if !ValidVersion(raw[0]) then Err(InvalidVersion)
      else if crc(raw[..n]) != FromLittleEndian(raw[n], raw[n + 1]) then Err(InvalidChecksum)
      else Ok((raw[0], raw[1..n]))
  }

  // ---------- the codec laws ----------

  lemma AlphabetHasNoLineBreak(s: string)
    requires InAlphabet(s)
    ensures !HasLineBreak(s)
  {
  }

  /** What the encoder prints passes the canonical-form checks. */
  lemma EncodedIsCanonical(raw: seq<Byte>)
    requires |raw| >= 3
    ensures DecodeString(EncodeBytes(raw)) == Ok(raw)
  {
    hide DecodeText, EncodeBytes, Value;
    var s := EncodeBytes(raw);
    DecodeEncode(raw);
    PrintedInAlphabet(raw);
    AlphabetHasNoLineBreak(s);
    EncodedLength(raw);
    PaddingBounds(|raw|);
    EncodedTail(raw);
  }

  lemma PaddingBounds(n: nat)
    requires n >= 3
    ensures var length := (8 * n + 4) / 5;
      length >= 5 && 5 * length % 8 < 5 && 5 * length % 8 == Padding(8 * n)
  {
    hide Padding;
    PaddingCase(n / 5, n % 5);
  }

  lemma PaddingCase(k: nat, r: nat)
    requires r < 5
    ensures var n := 5 * k + r;
      var length := (8 * n + 4) / 5;
      && length == 8 * k + [0, 2, 4, 5, 7][r]
      && 5 * length % 8 == Padding(8 * n) == [0, 2, 4, 1, 3][r]
  {
    if r == 0 {
    } else if r == 1 {
    } else if r == 2 {
    } else if r == 3 {
    } else {
    }
  }

  /** The unused low bits of the last character printed are zero. */
  lemma EncodedTail(raw: seq<Byte>)
    requires |raw| >= 3
    ensures var s, leftover := EncodeBytes(raw), Padding(8 * |raw|);
      s != "" && Value(s[|s|-1]) < 32 && Value(s[|s|-1]) % Power2(leftover) == 0
  {
    hide Spread, Gather, Value, Padding;
    var values, leftover := Groups(raw), Padding(8 * |raw|);
    EncodedLength(raw);
    LettersValues(values);
    EncodedSpread(raw);
    SpreadLast(values, 5);
    var n := |values| - 1;
    var last := values[n];
    var bits := Spread(values, 5);
    assert bits[|bits| - leftover..] == Zeros(leftover);
    assert Bits(last, 5)[5 - leftover..] == bits[|bits| - leftover..];
    assert Power2(5) == 32;
    NumberOfBits(last, 5);
    ZeroLowBits(Bits(last, 5), leftover);
    var s := Letters(values);
    assert Values(s)[n] == last;
  }

  /** A number whose low bits are zero is a multiple of their power of two. */
  lemma {:induction false} ZeroLowBits(bits: seq<bool>, low: nat)
    requires low <= |bits| && bits[|bits| - low..] == Zeros(low)
    ensures Number(bits) % Power2(low) == 0
    decreases low
  {
    if low > 0 {
      var k := |bits| - 1;
      var front := bits[..k];
      assert bits[k] == bits[|bits| - low..][low - 1] == false;
      assert front[k - (low - 1)..] == bits[|bits| - low..][..low - 1] == Zeros(low - 1);
      ZeroLowBits(front, low - 1);
      DoubleMultiple(Number(front), Power2(low - 1));
    }
  }

  lemma DoubleMultiple(n: nat, p: nat)
    requires p > 0 && n % p == 0
    ensures 2 * n % (2 * p) == 0
  {
    var q := n / p;
    assert n == q * p;
    assert 2 * n == q * (2 * p);
    Arithmetic.QuotientUnique(2 * n, 2 * p, q);
  }

  /** Decoding gives back the payload of every key that was encoded. */
  lemma DecodeAfterEncode(crc: Checksum, version: Byte, payload: seq<Byte>)
    requires EncodeKey(crc, version, payload).Ok?
    ensures DecodeKey(crc, version, EncodeKey(crc, version, payload).value) == Ok(payload)
    ensures DecodeAny(crc, EncodeKey(crc, version, payload).value) == Ok((version, payload))
  {
    hide DecodeString, EncodeBytes;
    var raw := Packed(crc, version, payload);
    EncodedIsCanonical(raw);
    var n := |raw| - 2;
    assert raw[..n] == [version] + payload;
    assert raw[1..n] == payload;
  }

  /** Text over the alphabet that decodes is what the encoder prints for the bytes. */
  lemma DecodedIsPrinted(s: string, raw: seq<Byte>)
    requires InAlphabet(s) && DecodeString(s) == Ok(raw)
    ensures EncodeBytes(raw) == s && |raw| >= 3
  {
    hide DecodeText, EncodeBytes, Value;
    AlphabetHasNoLineBreak(s);
    assert CleanTail(s);
    EncodeDecode(s, raw);
  }

  /**
   * A text that decodes to a payload of legal size is the one the encoder prints for it exactly
   * when it holds nothing but characters of the alphabet.
   */
  lemma EncodeAfterDecode(crc: Checksum, version: Byte, s: string)
    requires DecodeKey(crc, version, s).Ok? && |DecodeKey(crc, version, s).value| <= MAX_PAYLOAD
    ensures EncodeKey(crc, version, DecodeKey(crc, version, s).value) == Ok(s) <==> InAlphabet(s)
  {
    hide DecodeString, EncodeBytes;
    var payload := DecodeKey(crc, version, s).value;
    if InAlphabet(s) {
      var raw := DecodeString(s).value;
      DecodedIsPrinted(s, raw);
      var n := |raw| - 2;
      assert raw[..n] == [version] + payload;
      assert raw == raw[..n] + LittleEndian(FromLittleEndian(raw[n], raw[n + 1]));
    }
    PrintedInAlphabet(Packed(crc, version, payload));
  }

  /** Different keys are never printed the same. */
  lemma EncodeInjective(crc: Checksum, v: Byte, p: seq<Byte>, w: Byte, q: seq<Byte>)
    requires EncodeKey(crc, v, p).Ok? && EncodeKey(crc, v, p) == EncodeKey(crc, w, q)
    ensures v == w && p == q
  {
    hide EncodeKey, DecodeAny;
    DecodeAfterEncode(crc, v, p);
    DecodeAfterEncode(crc, w, q);
  }

  /** Five bits a character make three bytes of five characters, and none of a last quantum of six. */
  lemma DecodedSize(s: string)
    requires InAlphabet(s)
    ensures |DecodeLetters(s)| == 5 * Used(|s|) / 8
    ensures |DecodeLetters(s)| < 3 <==> |s| < 5 || |s| == 6
  {
    hide Spread, Gather, Value, Power2;
    GatherWords(Spread(Values(s[..Used(|s|)]), 5), 8);
    SmallUsed(|s|);
  }

  lemma SmallUsed(n: nat)
    ensures 5 * Used(n) / 8 < 3 <==> n < 5 || n == 6
  {
  }

  /**
   * Indexing the decoded bytes without a length check fails exactly when the text decodes and, line breaks
   * aside, starts with too few alphabet characters; such text always holds something else.
   */
  lemma DecodeAnyPanics(crc: Checksum, s: string)
    ensures DecodeAny(crc, s) == Err(IndexPanic) <==>
      DecodeString(s).Ok? && (Lead(Stripped(s)) < 5 || Lead(Stripped(s)) == 6)
    ensures DecodeAny(crc, s) == Err(IndexPanic) ==> !InAlphabet(s)
  {
    hide DecodeLetters, EncodeBytes, Stripped, Value, Lead, Ends;
    match DecodeString(s) {
      case Ok(raw) =>
        var t := Stripped(s);
        DecodedSize(t[..Lead(t)]);
        if InAlphabet(s) {
          DecodedIsPrinted(s, raw);
        }
      case Err(_) =>
    }
  }

  /** A text of whole quanta that decodes to two bytes: four alphabet characters and four pad bytes. */
  lemma PadsPanic(crc: Checksum)
    ensures !HasLineBreak("UURL" + Pads(4)) && DecodeAny(crc, "UURL" + Pads(4)) == Err(IndexPanic)
  {
    hide DecodeAny, DecodeString, Stripped, DecodeText, DecodeLetters;
    var s := "UURL";
    var t := s + Pads(4);
    assert !HasLineBreak(t);
    PadsDecode(s, "");
    assert t + "" == t;
    LeadAlone(s, Pads(4));
    WholeQuantaDecode(t);
    DecodeAnyPanics(crc, t);
  }

  /** A text of whole quanta has no unused bits, so it decodes as base32 does. */
  lemma WholeQuantaDecode(s: string)
    requires |s| >= 5 && 5 * |s| % 8 == 0
    ensures DecodeString(s) == match DecodeText(Stripped(s)) case None => Err(Corrupt) case Some(raw) => Ok(raw)
  {
    hide DecodeText, Stripped, Value;
    assert |s| * 5 == 5 * |s|;
  }

  /** Every printed key that does not fill its last quantum decodes to the same payload when pad bytes fill it. */
  lemma PadsIgnored(crc: Checksum, version: Byte, payload: seq<Byte>)
    requires EncodeKey(crc, version, payload).Ok?
    ensures var s := EncodeKey(crc, version, payload).value;
      |s| % 8 != 0 ==>
        var t := s + Pads(8 - |s| % 8);
        !HasLineBreak(t) && t != s && DecodeKey(crc, version, t) == Ok(payload)
  {
    hide DecodeString, DecodeText, DecodeLetters, EncodeBytes, Stripped;
    var raw := Packed(crc, version, payload);
    var s := EncodeBytes(raw);
    DecodeAfterEncode(crc, version, payload);
    EncodedIsCanonical(raw);
    PrintedInAlphabet(raw);
    if |s| % 8 != 0 {
      EncodedLength(raw);
      LegalQuantum(|raw|);
      var t := s + Pads(8 - |s| % 8);
      AlphabetHasNoLineBreak(s);
      assert !HasLineBreak(t);
      AlphabetDecodes(s);
      DecodeEncode(raw);
      PadsDecode(s, "");
      assert t + "" == t;
      WholeQuantaDecode(t);
    }
  }

  lemma LegalQuantum(n: nat)
    requires n >= 3
    ensures var length := (8 * n + 4) / 5;
      length >= 5 && length % 8 in {0, 2, 4, 5, 7} && 5 * (length + 8 - length % 8) % 8 == 0
  {
    hide Padding;
    var k, r := n / 5, n % 5;
    PaddingCase(k, r);
    QuantumCase(k, [0, 2, 4, 5, 7][r]);
  }

  lemma QuantumCase(k: nat, l: nat)
    requires l < 8
    ensures (8 * k + l) % 8 == l && 5 * (8 * k + l + 8 - l) % 8 == 0
  {
  }

  /** Eight line breaks are enough. */
  lemma LineBreaksPanic(crc: Checksum)
    ensures DecodeAny(crc, Breaks(8)) == Err(IndexPanic)
  {
    hide DecodeAny, DecodeString, Stripped;
    var t := Breaks(8);
    assert Stripped(t) == "" by {
      StripEnd("", 8);
      assert "" + t == t;
      NothingToStrip();
    }
    AlphabetDecodes("");
    WholeQuantaDecode(t);
    DecodeAnyPanics(crc, t);
  }

  lemma NothingToStrip()
    ensures Stripped("") == ""
  {
  }

  /** Eight line breaks after a text that fills its bytes leave it decoding to the same bytes. */
  lemma LineBreaksIgnored(crc: Checksum, version: Byte, s: string)
    requires DecodeKey(crc, version, s).Ok? && 5 * |s| % 8 == 0
    ensures HasLineBreak(s + Breaks(8))
    ensures DecodeKey(crc, version, s + Breaks(8)) == DecodeKey(crc, version, s)
  {
    hide DecodeString;
    var t := s + Breaks(8);
    assert LineBreak(t[|s|]);
    DecodedIsLong(s);
    SameDecoding(s, t) by {
      StripEnd(s, 8);
    }
  }

  lemma SameDecoding(s: string, t: string)
    requires |s| >= 5 && 5 * |s| % 8 == 0 && |t| == |s| + 8 && Stripped(t) == Stripped(s)
    ensures DecodeString(t) == DecodeString(s)
  {
    hide DecodeString, DecodeText, Stripped;
    WholeQuantaDecode(s);
    WholeQuantaDecode(t);
  }

  lemma DecodedIsLong(s: string)
    requires DecodeString(s).Ok?
    ensures |s| >= 5
  {
    hide DecodeText, Stripped, Value;
  }

  function Breaks(n: nat): string {
    seq(n, i => '\n')
  }

  lemma {:induction false} StripEnd(s: string, n: nat)
    ensures Stripped(s + Breaks(n)) == Stripped(s)
    decreases |s| + n
  {
    if s != "" {
      assert (s + Breaks(n))[1..] == s[1..] + Breaks(n);
      StripEnd(s[1..], n);
    } else if n > 0 {
      assert s + Breaks(n) == Breaks(n) && Breaks(n)[1..] == Breaks(n - 1) == "" + Breaks(n - 1);
      StripEnd("", n - 1);
    }
  }
}
