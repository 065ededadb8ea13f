/**
 Go strings are arbitrary byte sequences. The model writes a Go string as a Dafny
 `string` holding one character per byte, each character below 256; the conversions
 `[]byte(s)` and `string(b)` of the source become `ToBytes` and `FromBytes`.
 */
module Text {
  import opened Results

  /** Every character stands for one byte, as in a Go string. */
  predicate IsByteString(s: string) {
    forall i | 0 <= i < |s| :: s[i] as int < 256
  }

  /** `[]byte(s)`. A character outside the byte range (which no Go string holds) keeps its low eight bits. */
  function ToBytes(s: string): (b: Bytes)
    ensures |b| == |s|
    ensures forall i | 0 <= i < |s| :: b[i] == s[i] as int % 256
  {
    seq(|s|, i requires 0 <= i < |s| => s[i] as int % 256)
  }

  /** `string(b)`. */
  function FromBytes(b: Bytes): (s: string)
    ensures |s| == |b|
    ensures IsByteString(s)
    ensures forall i | 0 <= i < |b| :: s[i] as int == b[i]
  {
    seq(|b|, i requires 0 <= i < |b| => b[i] as char)
  }

  /** Converting bytes to a string and back loses nothing. */
  lemma BytesRoundTrip(b: Bytes)
    ensures ToBytes(FromBytes(b)) == b
  {
  }

  /** Converting a Go string to bytes and back loses nothing. */
  lemma StringRoundTrip(s: string)
    requires IsByteString(s)
    ensures FromBytes(ToBytes(s)) == s
  {
  }
}
