/**
 Go's `encoding/base64` codecs as used by the cipher: the alphabet of section 4 of
 RFC 4648 (`StdEncoding`, padded, and `RawStdEncoding`, with padding omitted as
 section 3.2 permits). The codec functions take any valid encoding.

 `Decode` follows Go's `decodeQuantum` quantum by quantum, including the offsets of
 its `CorruptInputError`s and its tolerance of non-zero bits after the last encoded
 byte. It does not skip `\r` and `\n`; Go's decoder does.
 */
module Base64 {
  import opened Results

  /** The padding character of the padded encodings (`base64.StdPadding`). */
  const PadChar: char := '='

  /** `n` consecutive characters starting at `first`. */
  function Run(first: char, n: nat): (r: string)
    requires first as int + n <= 0xD800
    ensures |r| == n
    ensures forall i | 0 <= i < n :: r[i] as int == first as int + i
  {
    seq(n, i requires 0 <= i < n => (first as int + i) as char)
  }

  /** `A`-`Z`, `a`-`z`, `0`-`9`: the first 62 symbols of the standard alphabet. */
  const Alphanumerics: string := Run('A', 26) + Run('a', 26) + Run('0', 10)

  /** The alphabet of RFC 4648 section 4. */
  const StdAlphabet: string := Alphanumerics + "+/"

  /** A `*base64.Encoding`: sixty-four symbols and whether the output is padded. */
  datatype Encoding = Encoding(alphabet: string, padded: bool)

  /** A six-bit group: the index of one symbol of the alphabet. */
  type sextet = d: int | 0 <= d < 64

  /**
   What `base64.NewEncoding` and `WithPadding` insist on: 64 distinct byte-sized
   symbols, none of them a line break or the padding character.
   */
  predicate Valid(enc: Encoding) {
    && |enc.alphabet| == 64
    && (forall i, j | 0 <= i < j < |enc.alphabet| :: enc.alphabet[i] != enc.alphabet[j])
    && (forall i | 0 <= i < |enc.alphabet| :: enc.alphabet[i] as int < 256)
    && PadChar !in enc.alphabet
    && '\r' !in enc.alphabet
    && '\n' !in enc.alphabet
  }

  /** The encodings `base64.NewEncoding` and `WithPadding` can build. */
  type ValidEncoding = enc: Encoding | Valid(enc) witness Encoding(StdAlphabet, true)

  const StdEncoding: ValidEncoding := Encoding(StdAlphabet, true)
  const RawStdEncoding: ValidEncoding := Encoding(StdAlphabet, false)

  /** Each symbol of the standard alphabet is a letter, a digit, `+` or `/`. */
  lemma StdSymbolIs(i: nat)
    requires i < 64
    ensures var c := StdAlphabet[i];
      || 'A' <= c <= 'Z' || 'a' <= c <= 'z' || '0' <= c <= '9' || c == '+' || c == '/'
  {
    if i < 26 {
      assert StdAlphabet[i] == Run('A', 26)[i];
    } else if i < 52 {
      assert StdAlphabet[i] == Run('a', 26)[i - 26];
    } else if i < 62 {
      assert StdAlphabet[i] == Run('0', 10)[i - 52];
    }
  }

  /** No symbol of the standard alphabet is NUL. */
  lemma StdAlphabetHasNoNul()
    ensures '\0' !in StdAlphabet
  {
    forall k | 0 <= k < |StdAlphabet|
      ensures StdAlphabet[k] != '\0'
    {
      StdSymbolIs(k);
    }
  }

  /** Position of `c` in `a`, or -1 (Go's `decodeMap` entry `0xFF`). */
  function IndexOf(a: string, c: char): (r: int)
    ensures -1 <= r < |a|
    ensures r == -1 <==> c !in a
    ensures 0 <= r ==> a[r] == c && forall i | 0 <= i < r :: a[i] != c
  {
    if |a| == 0 then -1
    else if a[0] == c then 0
    else
      var k := IndexOf(a[1..], c);
      if k == -1 then -1 else k + 1
  }

  /** The symbol for a six-bit group. */
  function Symbol(enc: ValidEncoding, d: sextet): (c: char)
    ensures c in enc.alphabet
  {
    enc.alphabet[d]
  }

  /** The six-bit group a symbol of the alphabet stands for. */
  function Digit(enc: ValidEncoding, c: char): sextet
    requires c in enc.alphabet
  {
    IndexOf(enc.alphabet, c)
  }

  /** Number of characters `EncodeToString` produces for `n` bytes (Go's `EncodedLen`). */
  function EncodedLen(enc: ValidEncoding, n: nat): nat {
    if enc.padded then (n + 2) / 3 * 4 else n / 3 * 4 + (n % 3 * 8 + 5) / 6
  }

  /** Upper bound on the bytes a decode of `n` characters yields (Go's `DecodedLen`). */
  function DecodedLen(enc: ValidEncoding, n: nat): nat {
    if enc.padded then n / 4 * 3 else n * 6 / 8
  }

  /** The four six-bit groups of the 24 bits `b0 b1 b2`, most significant first. */
  function Split(b0: byte, b1: byte, b2: byte): (d: seq<sextet>)
    ensures |d| == 4
  {
    [b0 / 4, b0 % 4 * 16 + b1 / 16, b1 % 16 * 4 + b2 / 64, b2 % 64]
  }

  /** The three bytes of the 24 bits `d0 d1 d2 d3`, most significant first. */
  function Join(d0: sextet, d1: sextet, d2: sextet, d3: sextet): (b: seq<byte>)
    ensures |b| == 3
  {
    [d0 * 4 + d1 / 16, d1 % 16 * 16 + d2 / 4, d2 % 4 * 64 + d3]
  }

  /** The four symbols for three bytes. */
  function Group(enc: ValidEncoding, b0: byte, b1: byte, b2: byte): (r: string)
    ensures |r| == 4 && forall i | 0 <= i < 4 :: r[i] in enc.alphabet
  {
    var d := Split(b0, b1, b2);
    [Symbol(enc, d[0]), Symbol(enc, d[1]), Symbol(enc, d[2]), Symbol(enc, d[3])]
  }

  /** The symbols for the last one or two bytes (missing bits read as zero), then padding if the encoding pads. */
  function Tail(enc: ValidEncoding, src: Bytes): (r: string)
    requires |src| < 3
    ensures |r| == EncodedLen(enc, |src|)
    ensures forall i | 0 <= i < |r| :: r[i] in enc.alphabet || (enc.padded && r[i] == PadChar)
  {
    if |src| == 2 then
      Group(enc, src[0], src[1], 0)[..3] + (if enc.padded then [PadChar] else [])
    else if |src| == 1 then
      Group(enc, src[0], 0, 0)[..2] + (if enc.padded then [PadChar, PadChar] else [])
    else
      []
  }

  /** Three more bytes take four more characters. */
  lemma EncodedLenStep(enc: ValidEncoding, n: nat)
    ensures EncodedLen(enc, n + 3) == EncodedLen(enc, n) + 4
  {
  }

  /** `EncodeToString`: every three bytes become four symbols, and a short tail is finished by `Tail`. */
  function Encode(enc: ValidEncoding, src: Bytes): (r: string)
    ensures |r| == EncodedLen(enc, |src|)
    ensures forall i | 0 <= i < |r| :: r[i] in enc.alphabet || (enc.padded && r[i] == PadChar)
    decreases |src|
  {
    if |src| >= 3 then
      EncodedLenStep(enc, |src| - 3);
      Group(enc, src[0], src[1], src[2]) + Encode(enc, src[3..])
    else
      Tail(enc, src)
  }

  /** How many of the (at most `cap`) characters from `from` on are symbols of the alphabet. */
  function Lead(enc: ValidEncoding, s: string, from: nat, cap: nat): (n: nat)
    requires from <= |s|
    ensures n <= cap && from + n <= |s|
    ensures forall i | from <= i < from + n :: s[i] in enc.alphabet
    ensures n < cap && from + n < |s| ==> s[from + n] !in enc.alphabet
    decreases cap
  {
    if cap == 0 || from == |s| || s[from] !in enc.alphabet then 0
    else 1 + Lead(enc, s, from + 1, cap - 1)
  }

  /** `Lead` counts exactly the symbols up to the first character outside the alphabet, the end of input or the cap. */
  lemma {:induction false} LeadIs(enc: ValidEncoding, s: string, from: nat, cap: nat, n: nat)
    requires from + n <= |s| && n <= cap
    requires forall i | from <= i < from + n :: s[i] in enc.alphabet
    requires n == cap || from + n == |s| || s[from + n] !in enc.alphabet
    ensures Lead(enc, s, from, cap) == n
    decreases n
  {
    if n > 0 {
      LeadIs(enc, s, from + 1, cap - 1, n - 1);
    }
  }

  /** The `n - 1` bytes carried by `n` symbols at `qs` (missing groups read as zero, surplus low bits are dropped). */
  function QuantumBytes(enc: ValidEncoding, s: string, qs: nat, n: nat): (b: Bytes)
    requires 2 <= n <= 4 && qs + n <= |s|
    requires forall i | qs <= i < qs + n :: s[i] in enc.alphabet
    ensures |b| == n - 1
  {
    var d2 := if n > 2 then Digit(enc, s[qs + 2]) else 0;
    var d3 := if n > 3 then Digit(enc, s[qs + 3]) else 0;
    Join(Digit(enc, s[qs]), Digit(enc, s[qs + 1]), d2, d3)[..n - 1]
  }

  /** A decoded quantum and the index of the first character after it. */
  datatype Quantum = Quantum(bytes: Bytes, next: nat)

  /** Go's `decodeQuantum` from a start index inside the input. */
  function DecodeQuantum(enc: ValidEncoding, s: string, qs: nat): (r: Result<Quantum>)
    requires qs < |s|
    ensures r.Ok? ==> qs < r.value.next <= |s| && |r.value.bytes| <= DecodedLen(enc, r.value.next - qs)
    ensures r.Ok? && r.value.next < |s| ==> r.value.next == qs + 4 && |r.value.bytes| == 3
    ensures r.Err? ==> r.error.CorruptInput? && qs <= r.error.offset <= |s|
  {
    var n := Lead(enc, s, qs, 4);
    if n == 4 then
      Ok(Quantum(QuantumBytes(enc, s, qs, 4), qs + 4))
    else if qs + n == |s| then
      // input ends inside the quantum
      if n == 1 || enc.padded then Err(CorruptInput(qs))
      else Ok(Quantum(QuantumBytes(enc, s, qs, n), |s|))
    else if !enc.padded || s[qs + n] != PadChar || n < 2 then
      // a character outside the alphabet, or padding too early
      Err(CorruptInput(qs + n))
    else if n == 2 && qs + 3 == |s| then
      // "==" expected, only one "=" present
      Err(CorruptInput(|s|))
    else if n == 2 && s[qs + 3] != PadChar then
      Err(CorruptInput(qs + 2))
    else if qs + 4 < |s| then
      // trailing characters after the padding
      Err(CorruptInput(qs + 4))
    else
      Ok(Quantum(QuantumBytes(enc, s, qs, n), qs + 4))
  }

  /** Go's `Decode` loop from quantum start `qs` to the end of the input. */
  function DecodeFrom(enc: ValidEncoding, s: string, qs: nat): (r: Result<Bytes>)
    requires qs <= |s|
    ensures r.Ok? ==> |r.value| <= DecodedLen(enc, |s| - qs)
    ensures r.Err? ==> r.error.CorruptInput? && qs <= r.error.offset <= |s|
    decreases |s| - qs
  {
    if qs == |s| then Ok([])
    else
      var q :- DecodeQuantum(enc, s, qs);
      var rest :- DecodeFrom(enc, s, q.next);
      DecodedLenSplits(enc, q.next - qs, |s| - q.next);
      Ok(q.bytes + rest)
  }

  /** Every character of `s` is a symbol of the alphabet. */
  predicate AllSymbols(enc: ValidEncoding, s: string) {
    forall i | 0 <= i < |s| :: s[i] in enc.alphabet
  }

  /**
   The text `DecodeString` accepts, stated without reference to the decoder: symbols
   of the alphabet only and, without padding, any length that does not leave a single
   symbol over; with padding, a multiple of four characters of which the last one or
   two may be `=`.
   */
  predicate WellFormed(enc: ValidEncoding, s: string) {
    if enc.padded then
      && |s| % 4 == 0
      && (|| AllSymbols(enc, s)
          || (&& |s| >= 2
              && s[|s| - 1] == PadChar
              && (|| AllSymbols(enc, s[..|s| - 1])
                  || (s[|s| - 2] == PadChar && AllSymbols(enc, s[..|s| - 2])))))
    else
      |s| % 4 != 1 && AllSymbols(enc, s)
  }

  /** Decoding two stretches of input one after the other never yields more than decoding them together may. */
  lemma DecodedLenSplits(enc: ValidEncoding, m: nat, n: nat)
    ensures DecodedLen(enc, m) + DecodedLen(enc, n) <= DecodedLen(enc, m + n)
  {
  }

  /** `DecodeString`. */
  function Decode(enc: ValidEncoding, s: string): (r: Result<Bytes>)
    ensures r.Ok? ==> |r.value| <= DecodedLen(enc, |s|)
    ensures r.Err? ==> r.error.CorruptInput? && r.error.offset <= |s|
  {
    DecodeFrom(enc, s, 0)
  }
}
