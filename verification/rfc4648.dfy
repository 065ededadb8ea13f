/**
 An independent reference for the standard alphabet: RFC 4648 section 4 reads each
 24-bit input group as four 6-bit numbers and writes each through the table of
 section 4, finishing a short last group with `=` (section 3.2). The reference works
 on the 24-bit number itself and on the table as arithmetic, not on `Split` or on
 `StdAlphabet`; `EncodeIsReference` proves the codec agrees with it.
 */
module Rfc4648 {
  import opened Results
  import opened Base64
  import Base64Lemmas

  /** The table of RFC 4648 section 4. */
  function StdChar(d: sextet): char {
    if d < 26 then ('A' as int + d) as char
    else if d < 52 then ('a' as int + (d - 26)) as char
    else if d < 62 then ('0' as int + (d - 52)) as char
    else if d == 62 then '+'
    else '/'
  }

  /** The 24-bit group of three bytes, most significant first. */
  function Pack(b0: byte, b1: byte, b2: byte): (n: nat)
    ensures n < 0x100_0000
  {
    b0 * 0x1_0000 + b1 * 0x100 + b2
  }

  /** The first `k` of the four characters for the 24-bit group `n`, most significant first. */
  function Chars(n: nat, k: nat): (r: string)
    requires n < 0x100_0000 && k <= 4
    ensures |r| == k
  {
    var all := [StdChar(n / 0x4_0000), StdChar(n / 0x1000 % 64), StdChar(n / 64 % 64), StdChar(n % 64)];
    all[..k]
  }

  /** The encoding of `src` with the standard alphabet, with or without padding. */
  function RefEncode(src: Bytes, padded: bool): string
    decreases |src|
  {
    if |src| >= 3 then
      Chars(Pack(src[0], src[1], src[2]), 4) + RefEncode(src[3..], padded)
    else if |src| == 2 then
      Chars(Pack(src[0], src[1], 0), 3) + (if padded then "=" else "")
    else if |src| == 1 then
      Chars(Pack(src[0], 0, 0), 2) + (if padded then "==" else "")
    else ""
  }

  /** `StdAlphabet` is the table. */
  lemma StdSymbol(enc: ValidEncoding, d: sextet)
    requires enc.alphabet == StdAlphabet
    ensures Symbol(enc, d) == StdChar(d)
  {
    if d < 26 {
      assert StdAlphabet[d] == Run('A', 26)[d];
    } else if d < 52 {
      assert StdAlphabet[d] == Run('a', 26)[d - 26];
    } else if d < 62 {
      assert StdAlphabet[d] == Run('0', 10)[d - 52];
    }
  }

  /** Division by 64 of a number with remainder `b`. */
  lemma Div64(a: nat, b: nat)
    requires b < 64
    ensures (a * 64 + b) / 64 == a && (a * 64 + b) % 64 == b
  {
  }

  /** Division by 0x1000 of a number with remainder `b`. */
  lemma Div4096(a: nat, b: nat)
    requires b < 0x1000
    ensures (a * 0x1000 + b) / 0x1000 == a
  {
  }

  /** Division by 0x4_0000 of a number with remainder `b`. */
  lemma Div262144(a: nat, b: nat)
    requires b < 0x4_0000
    ensures (a * 0x4_0000 + b) / 0x4_0000 == a
  {
  }

  /** `Split` extracts the four 6-bit numbers of the 24-bit group. */
  lemma SplitIsSextets(b0: byte, b1: byte, b2: byte)
    ensures var n, d := Pack(b0, b1, b2), Split(b0, b1, b2);
      && d[0] == n / 0x4_0000
      && d[1] == n / 0x1000 % 64
      && d[2] == n / 64 % 64
      && d[3] == n % 64
  {
    var n := b0 as int * 0x1_0000 + b1 as int * 0x100 + b2;
    var c0, c1, c2, c3 := b0 / 4, b0 % 4 * 16 + b1 / 16, b1 % 16 * 4 + b2 / 64, b2 % 64;
    assert n == c0 * 0x4_0000 + c1 * 0x1000 + c2 * 64 + c3;
    Div262144(c0, c1 * 0x1000 + c2 * 64 + c3);
    Div4096(c0 * 64 + c1, c2 * 64 + c3);
    Div64(c0, c1);
    Div64(c0 * 0x1000 + c1 * 64 + c2, c3);
    Div64(c0 * 64 + c1, c2);
  }

  /** The four characters of a 24-bit group given by its four 6-bit numbers. */
  lemma CharsOf(d0: sextet, d1: sextet, d2: sextet, d3: sextet)
    ensures Chars(d0 * 0x4_0000 + d1 * 0x1000 + d2 * 64 + d3, 4) == [StdChar(d0), StdChar(d1), StdChar(d2), StdChar(d3)]
  {
    Div262144(d0, d1 * 0x1000 + d2 * 64 + d3);
    Div4096(d0 * 64 + d1, d2 * 64 + d3);
    Div64(d0, d1);
    Div64(d0 * 0x1000 + d1 * 64 + d2, d3);
    Div64(d0 * 64 + d1, d2);
  }

  /** A group of the codec is the reference's four characters. */
  lemma GroupIsChars(enc: ValidEncoding, b0: byte, b1: byte, b2: byte)
    requires enc.alphabet == StdAlphabet
    ensures Group(enc, b0, b1, b2) == Chars(Pack(b0, b1, b2), 4)
  {
    var d := Split(b0, b1, b2);
    SplitIsSextets(b0, b1, b2);
    StdSymbol(enc, d[0]);
    StdSymbol(enc, d[1]);
    StdSymbol(enc, d[2]);
    StdSymbol(enc, d[3]);
  }

  /** The reference writes the first group, then the rest. */
  lemma RefStep(x: Bytes, padded: bool)
    requires |x| >= 3
    ensures RefEncode(x, padded) == Chars(Pack(x[0], x[1], x[2]), 4) + RefEncode(x[3..], padded)
  {
  }

  /** The reference's last two bytes: three characters, then `=` if padded. */
  lemma RefTwo(b0: byte, b1: byte, padded: bool)
    ensures RefEncode([b0, b1], padded) == Chars(Pack(b0, b1, 0), 3) + (if padded then "=" else "")
  {
  }

  /** The reference's last byte: two characters, then `==` if padded. */
  lemma RefOne(b0: byte, padded: bool)
    ensures RefEncode([b0], padded) == Chars(Pack(b0, 0, 0), 2) + (if padded then "==" else "")
  {
  }

  /** The first three characters of a group, as the reference writes them. */
  lemma CharsPrefix(n: nat)
    requires n < 0x100_0000
    ensures Chars(n, 3) == Chars(n, 4)[..3] && Chars(n, 2) == Chars(n, 4)[..2]
  {
  }

  /** Two trailing bytes: three characters, then `=` if the encoding pads. */
  lemma TwoIsReference(enc: ValidEncoding, b0: byte, b1: byte)
    requires enc.alphabet == StdAlphabet
    ensures Encode(enc, [b0, b1]) == RefEncode([b0, b1], enc.padded)
  {
    var n := Pack(b0, b1, 0);
    GroupIsChars(enc, b0, b1, 0);
    CharsPrefix(n);
    Base64Lemmas.EncodeTwo(enc, b0, b1);
    RefTwo(b0, b1, enc.padded);
  }

  /** One trailing byte: two characters, then `==` if the encoding pads. */
  lemma OneIsReference(enc: ValidEncoding, b0: byte)
    requires enc.alphabet == StdAlphabet
    ensures Encode(enc, [b0]) == RefEncode([b0], enc.padded)
  {
    var n := Pack(b0, 0, 0);
    GroupIsChars(enc, b0, 0, 0);
    CharsPrefix(n);
    Base64Lemmas.EncodeOne(enc, b0);
    RefOne(b0, enc.padded);
  }

  /** A leading group on which codec and reference agree extends their agreement on the rest. */
  lemma GroupIsReference(enc: ValidEncoding, x: Bytes)
    requires enc.alphabet == StdAlphabet
    requires |x| >= 3 && Encode(enc, x[3..]) == RefEncode(x[3..], enc.padded)
    ensures Encode(enc, x) == RefEncode(x, enc.padded)
  {
    GroupIsChars(enc, x[0], x[1], x[2]);
    Base64Lemmas.EncodeStep(enc, x);
    RefStep(x, enc.padded);
  }

  /** With the standard alphabet, `EncodeToString` is the encoding of RFC 4648. */
  lemma {:induction false} EncodeIsReference(enc: ValidEncoding, x: Bytes)
    requires enc.alphabet == StdAlphabet
    ensures Encode(enc, x) == RefEncode(x, enc.padded)
    decreases |x|
  {
    if |x| >= 3 {
      EncodeIsReference(enc, x[3..]);
      GroupIsReference(enc, x);
    } else if |x| == 2 {
      assert x == [x[0], x[1]];
      TwoIsReference(enc, x[0], x[1]);
    } else if |x| == 1 {
      assert x == [x[0]];
      OneIsReference(enc, x[0]);
    } else {
      assert Encode(enc, x) == [] == RefEncode(x, enc.padded);
    }
  }
}
