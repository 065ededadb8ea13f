/**
 The one piece of `encoding/json` the record codec depends on concretely: how
 `json.Marshal` writes a Go string as a JSON string literal, for strings of ASCII
 characters.
 */
module JsonText {
  import opened Results
  import opened Text
  import opened Base64

  /** Every character is ASCII. */
  predicate IsAscii(s: string) {
    forall i | 0 <= i < |s| :: s[i] as int < 0x80
  }

  /** An ASCII character `json.Marshal` writes as it is: not a control character, a quote, a backslash or one of `<`, `>`, `&`. */
  predicate Plain(c: char) {
    0x20 <= c as int < 0x80 && c != '"' && c != '\\' && c != '<' && c != '>' && c != '&'
  }

  /** The lower-case hexadecimal digit for `d`. */
  function HexDigit(d: int): (c: char)
    requires 0 <= d < 16
    ensures Plain(c)
  {
    "0123456789abcdef"[d]
  }

  /**
   How one character appears inside the literal: a backslash before `"` and `\`,
   the short escapes for newline, carriage return and tab, `\u00XX` for the other
   control characters and for the HTML-sensitive `<`, `>`, `&`; anything else as it is.
   */
  function Escape(c: char): (e: string)
    ensures |e| >= 1
    ensures |e| == 1 <==> !(c as int < 0x20 || c == '"' || c == '\\' || c == '<' || c == '>' || c == '&')
    ensures |e| == 1 ==> e == [c]
  {
    if c == '"' || c == '\\' then ['\\', c]
    else if c == '\n' then "\\n"
    else if c == '\r' then "\\r"
    else if c == '\t' then "\\t"
    else if c as int < 0x20 || c == '<' || c == '>' || c == '&' then
      "\\u00" + [HexDigit(c as int / 16 % 16), HexDigit(c as int % 16)]
    else [c]
  }

  /**
   The body of the literal, character by character. It is the string itself exactly
   when no character needs escaping; otherwise it is strictly longer.
   */
  function Escaped(s: string): (e: string)
    ensures |e| >= |s|
    ensures (forall i | 0 <= i < |s| :: !(s[i] as int < 0x20 || s[i] in "\"\\<>&")) <==> e == s
    ensures e != s ==> |e| > |s|
  {
    if |s| == 0 then ""
    else
      var head := Escape(s[0]);
      var rest := Escaped(s[1..]);
      assert forall i | 1 <= i < |s| :: s[i] == s[1..][i - 1];
      head + rest
  }

  /** `json.Marshal` of a string: the escaped body between double quotes. */
  function Quote(s: string): (b: Bytes)
    ensures |b| >= |s| + 2
    ensures b[0] == '"' as int && b[|b| - 1] == '"' as int
    ensures (forall i | 0 <= i < |s| :: Plain(s[i])) ==> b == ToBytes("\"" + s + "\"")
  {
    ToBytes(['"'] + Escaped(s) + ['"'])
  }

  /** The symbols of the standard alphabet need no escaping. */
  lemma AlphabetIsPlain(i: nat)
    requires i < 64
    ensures Plain(StdAlphabet[i])
  {
    StdSymbolIs(i);
  }

  /** A token of the standard alphabet is quoted without any escape. */
  lemma QuoteToken(t: string)
    requires forall i | 0 <= i < |t| :: t[i] in StdAlphabet
    ensures Quote(t) == ToBytes("\"" + t + "\"")
    ensures IsAscii(t)
  {
    forall i | 0 <= i < |t|
      ensures Plain(t[i])
    {
      var k :| 0 <= k < |StdAlphabet| && StdAlphabet[k] == t[i];
      AlphabetIsPlain(k);
    }
  }
}
