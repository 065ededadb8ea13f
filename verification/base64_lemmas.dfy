/**
 Properties of the base64 codecs: decoding undoes encoding for every byte sequence,
 and decoding succeeds exactly on well-formed text. Decoding is not injective (Go ignores the surplus
 low bits of the last symbol), so `Encode(Decode(t)) == t` is not claimed.
 */
module Base64Lemmas {
  import opened Results
  import opened Base64

  /** Reading back the symbol of a six-bit group gives the group. */
  lemma DigitOfSymbol(enc: ValidEncoding, d: sextet)
    ensures Digit(enc, Symbol(enc, d)) == d
  {
  }

  /** Splitting three bytes into six-bit groups and joining them again gives the bytes back. */
  lemma JoinSplit(b0: byte, b1: byte, b2: byte)
    ensures var d := Split(b0, b1, b2); Join(d[0], d[1], d[2], d[3]) == [b0, b1, b2]
  {
  }

  /** The first `n` symbols of the group for `b0 b1 b2`, found at `qs`, read back as the first `n` six-bit groups. */
  lemma DigitsOfGroup(enc: ValidEncoding, s: string, qs: nat, b0: byte, b1: byte, b2: byte, n: nat)
    requires n <= 4 && qs + n <= |s|
    requires s[qs..qs + n] == Group(enc, b0, b1, b2)[..n]
    ensures forall i | qs <= i < qs + n :: s[i] in enc.alphabet
    ensures forall i | qs <= i < qs + n :: Digit(enc, s[i]) == Split(b0, b1, b2)[i - qs]
  {
    var d := Split(b0, b1, b2);
    forall i | qs <= i < qs + n
      ensures s[i] == Symbol(enc, d[i - qs])
    {
      assert s[i] == s[qs..qs + n][i - qs];
    }
    forall i | qs <= i < qs + n
      ensures Digit(enc, s[i]) == d[i - qs]
    {
      DigitOfSymbol(enc, d[i - qs]);
    }
  }

  /** `n` symbols of the group for `b0 b1 b2` decode to its first `n - 1` bytes, provided the bytes a short group leaves out are zero. */
  lemma BytesOfGroup(enc: ValidEncoding, s: string, qs: nat, b0: byte, b1: byte, b2: byte, n: nat)
    requires 2 <= n <= 4 && qs + n <= |s|
    requires s[qs..qs + n] == Group(enc, b0, b1, b2)[..n]
    requires n < 4 ==> b2 == 0
    requires n < 3 ==> b1 == 0
    ensures forall i | qs <= i < qs + n :: s[i] in enc.alphabet
    ensures QuantumBytes(enc, s, qs, n) == [b0, b1, b2][..n - 1]
  {
    DigitsOfGroup(enc, s, qs, b0, b1, b2, n);
    var d := Split(b0, b1, b2);
    JoinSplit(b0, b1, b2);
    assert n < 4 ==> d[3] == 0;
    assert n < 3 ==> d[2] == 0;
  }

  /** Four symbols of the alphabet at `qs` decode to the three bytes they were made from. */
  lemma FullQuantum(enc: ValidEncoding, s: string, qs: nat, b0: byte, b1: byte, b2: byte)
    requires qs + 4 <= |s|
    requires s[qs..qs + 4] == Group(enc, b0, b1, b2)
    ensures DecodeQuantum(enc, s, qs) == Ok(Quantum([b0, b1, b2], qs + 4))
  {
    assert Group(enc, b0, b1, b2)[..4] == Group(enc, b0, b1, b2);
    BytesOfGroup(enc, s, qs, b0, b1, b2, 4);
    LeadIs(enc, s, qs, 4, 4);
    assert [b0, b1, b2][..3] == [b0, b1, b2];
    assert QuantumBytes(enc, s, qs, 4) == [b0, b1, b2];
  }

  /** A final group of three symbols (and one `=` if the encoding pads) decodes to the two bytes it was made from. */
  lemma TailOfTwo(enc: ValidEncoding, s: string, qs: nat, b0: byte, b1: byte)
    requires qs + 3 <= |s|
    requires s[qs..qs + 3] == Group(enc, b0, b1, 0)[..3]
    requires if enc.padded then |s| == qs + 4 && s[qs + 3] == PadChar else |s| == qs + 3
    ensures DecodeQuantum(enc, s, qs) == Ok(Quantum([b0, b1], |s|))
  {
    BytesOfGroup(enc, s, qs, b0, b1, 0, 3);
    LeadIs(enc, s, qs, 4, 3);
    assert QuantumBytes(enc, s, qs, 3) == [b0, b1];
  }

  /** A final group of two symbols (and `==` if the encoding pads) decodes to the byte it was made from. */
  lemma TailOfOne(enc: ValidEncoding, s: string, qs: nat, b0: byte)
    requires qs + 2 <= |s|
    requires s[qs..qs + 2] == Group(enc, b0, 0, 0)[..2]
    requires if enc.padded then |s| == qs + 4 && s[qs + 2] == PadChar && s[qs + 3] == PadChar else |s| == qs + 2
    ensures DecodeQuantum(enc, s, qs) == Ok(Quantum([b0], |s|))
  {
    BytesOfGroup(enc, s, qs, b0, 0, 0, 2);
    LeadIs(enc, s, qs, 4, 2);
    assert QuantumBytes(enc, s, qs, 2) == [b0];
  }

  /** One step of the decode loop: a decoded quantum followed by the decoded rest. */
  lemma DecodeStep(enc: ValidEncoding, s: string, qs: nat, q: Quantum, rest: Bytes)
    requires qs < |s|
    requires DecodeQuantum(enc, s, qs) == Ok(q)
    requires DecodeFrom(enc, s, q.next) == Ok(rest)
    ensures DecodeFrom(enc, s, qs) == Ok(q.bytes + rest)
  {
  }

  /** The encoding of three or more bytes: the first group, then the rest. */
  lemma EncodeStep(enc: ValidEncoding, x: Bytes)
    requires |x| >= 3
    ensures Encode(enc, x) == Group(enc, x[0], x[1], x[2]) + Encode(enc, x[3..])
  {
  }

  /** The encoding of two trailing bytes: three symbols, then `=` if the encoding pads. */
  lemma EncodeTwo(enc: ValidEncoding, b0: byte, b1: byte)
    ensures Encode(enc, [b0, b1]) == Group(enc, b0, b1, 0)[..3] + (if enc.padded then [PadChar] else [])
  {
  }

  /** The encoding of one trailing byte: two symbols, then `==` if the encoding pads. */
  lemma EncodeOne(enc: ValidEncoding, b0: byte)
    ensures Encode(enc, [b0]) == Group(enc, b0, 0, 0)[..2] + (if enc.padded then [PadChar, PadChar] else [])
  {
  }

  /** Where the encoding of two trailing bytes sits in the text. */
  lemma TextOfTwo(enc: ValidEncoding, p: string, b0: byte, b1: byte)
    ensures var s := p + Encode(enc, [b0, b1]);
      && |p| + 3 <= |s|
      && s[|p|..|p| + 3] == Group(enc, b0, b1, 0)[..3]
      && if enc.padded then |s| == |p| + 4 && s[|p| + 3] == PadChar else |s| == |p| + 3
  {
    var e := Encode(enc, [b0, b1]);
    EncodeTwo(enc, b0, b1);
    var s := p + e;
    assert s[|p|..|p| + 3] == e[..3];
    assert enc.padded ==> s[|p| + 3] == e[3];
  }

  /** Where the encoding of one trailing byte sits in the text. */
  lemma TextOfOne(enc: ValidEncoding, p: string, b0: byte)
    ensures var s := p + Encode(enc, [b0]);
      && |p| + 2 <= |s|
      && s[|p|..|p| + 2] == Group(enc, b0, 0, 0)[..2]
      && if enc.padded then |s| == |p| + 4 && s[|p| + 2] == PadChar && s[|p| + 3] == PadChar else |s| == |p| + 2
  {
    var e := Encode(enc, [b0]);
    EncodeOne(enc, b0);
    var s := p + e;
    assert s[|p|..|p| + 2] == e[..2];
    assert enc.padded ==> s[|p| + 2] == e[2] && s[|p| + 3] == e[3];
  }

  /** The end of the text decodes to nothing. */
  lemma DecodeAtEnd(enc: ValidEncoding, s: string)
    ensures DecodeFrom(enc, s, |s|) == Ok([])
  {
  }

  /** The encoding of two trailing bytes decodes back to them. */
  lemma DecodeEncodeTwo(enc: ValidEncoding, p: string, b0: byte, b1: byte)
    ensures DecodeFrom(enc, p + Encode(enc, [b0, b1]), |p|) == Ok([b0, b1])
  {
    var s := p + Encode(enc, [b0, b1]);
    TextOfTwo(enc, p, b0, b1);
    TailOfTwo(enc, s, |p|, b0, b1);
    DecodeAtEnd(enc, s);
    DecodeStep(enc, s, |p|, Quantum([b0, b1], |s|), []);
    assert [b0, b1] + [] == [b0, b1];
  }

  /** The encoding of one trailing byte decodes back to it. */
  lemma DecodeEncodeOne(enc: ValidEncoding, p: string, b0: byte)
    ensures DecodeFrom(enc, p + Encode(enc, [b0]), |p|) == Ok([b0])
  {
    var s := p + Encode(enc, [b0]);
    TextOfOne(enc, p, b0);
    TailOfOne(enc, s, |p|, b0);
    DecodeAtEnd(enc, s);
    DecodeStep(enc, s, |p|, Quantum([b0], |s|), []);
    assert [b0] + [] == [b0];
  }

  /** Decoding resumes correctly at a quantum boundary: whatever precedes the encoding of `x`, decoding from its start yields `x`. */
  lemma {:induction false} DecodeEncodeFrom(enc: ValidEncoding, p: string, x: Bytes)
    ensures DecodeFrom(enc, p + Encode(enc, x), |p|) == Ok(x)
    decreases |x|
  {
    if |x| == 0 {
      assert p + Encode(enc, x) == p;
    } else if |x| >= 3 {
      assert [x[0], x[1], x[2]] + x[3..] == x;
      var s := p + Encode(enc, x);
      var c := Group(enc, x[0], x[1], x[2]);
      assert s == (p + c) + Encode(enc, x[3..]);
      assert s[|p|..|p| + 4] == c;
      FullQuantum(enc, s, |p|, x[0], x[1], x[2]);
      DecodeEncodeFrom(enc, p + c, x[3..]);
      DecodeStep(enc, s, |p|, Quantum([x[0], x[1], x[2]], |p| + 4), x[3..]);
    } else if |x| == 2 {
      assert x == [x[0], x[1]];
      DecodeEncodeTwo(enc, p, x[0], x[1]);
    } else {
      assert x == [x[0]];
      DecodeEncodeOne(enc, p, x[0]);
    }
  }

  /** Decoding undoes encoding, for every byte sequence and every valid encoding, padded or not. */
  lemma DecodeEncode(enc: ValidEncoding, x: Bytes)
    ensures Decode(enc, Encode(enc, x)) == Ok(x)
  {
    DecodeEncodeFrom(enc, [], x);
    assert [] + Encode(enc, x) == Encode(enc, x);
  }

  /** Four leading symbols do not change whether the text is well formed. */
  lemma WellFormedShift(enc: ValidEncoding, t: string)
    requires |t| >= 4 && AllSymbols(enc, t[..4])
    ensures WellFormed(enc, t) <==> WellFormed(enc, t[4..])
  {
    var u := t[4..];
    var m := |t|;
    assert forall i | 0 <= i < |u| :: u[i] == t[i + 4];
    assert forall i | 0 <= i < 4 :: t[i] == t[..4][i];
    assert AllSymbols(enc, t) <==> AllSymbols(enc, u);
    if enc.padded && m >= 6 {
      assert t[..m - 1][4..] == u[..|u| - 1];
      assert t[..m - 2][4..] == u[..|u| - 2];
      assert forall i | 0 <= i < 4 :: t[..m - 1][i] == t[i] && t[..m - 2][i] == t[i];
      assert AllSymbols(enc, t[..m - 1]) <==> AllSymbols(enc, u[..|u| - 1]);
      assert AllSymbols(enc, t[..m - 2]) <==> AllSymbols(enc, u[..|u| - 2]);
    }
  }

  /** A prefix of at most `n` leading symbols consists of symbols; a longer one reaches the non-symbol at `n`. */
  lemma PrefixSymbols(enc: ValidEncoding, t: string, n: nat, k: nat)
    requires n <= |t| && k <= |t|
    requires forall i | 0 <= i < n :: t[i] in enc.alphabet
    requires n < |t| ==> t[n] !in enc.alphabet
    ensures AllSymbols(enc, t[..k]) <==> k <= n
  {
    if k > n {
      assert t[..k][n] == t[n];
    } else {
      assert forall i | 0 <= i < k :: t[..k][i] == t[i];
    }
  }

  /** When fewer than four symbols lead, the quantum at `qs` is the last one: decoding from it succeeds exactly when the quantum decodes. */
  lemma LastQuantum(enc: ValidEncoding, s: string, qs: nat)
    requires qs < |s| && Lead(enc, s, qs, 4) < 4
    ensures DecodeFrom(enc, s, qs).Ok? <==> DecodeQuantum(enc, s, qs).Ok?
  {
    var r := DecodeQuantum(enc, s, qs);
    if r.Ok? {
      assert r.value.next == |s|;
      assert DecodeFrom(enc, s, |s|) == Ok([]);
    }
  }

  /** The facts about the text after `qs` that decide a last quantum. */
  lemma LastQuantumText(enc: ValidEncoding, s: string, qs: nat)
    requires qs < |s| && Lead(enc, s, qs, 4) < 4
    ensures var t, n := s[qs..], Lead(enc, s, qs, 4);
      && (forall i | 0 <= i < |t| :: t[i] == s[qs + i])
      && (AllSymbols(enc, t) <==> |t| <= n)
      && (|t| >= 1 ==> (AllSymbols(enc, t[..|t| - 1]) <==> |t| - 1 <= n))
      && (|t| >= 2 ==> (AllSymbols(enc, t[..|t| - 2]) <==> |t| - 2 <= n))
  {
    var t := s[qs..];
    var m := |t|;
    var n := Lead(enc, s, qs, 4);
    assert forall i | 0 <= i < m :: t[i] == s[qs + i];
    assert forall i | 0 <= i < n :: t[i] in enc.alphabet;
    assert n < m ==> t[n] !in enc.alphabet;
    assert t[..m] == t;
    PrefixSymbols(enc, t, n, m);
    if m >= 1 {
      PrefixSymbols(enc, t, n, m - 1);
    }
    if m >= 2 {
      PrefixSymbols(enc, t, n, m - 2);
    }
  }

  /** Without padding, a last quantum decodes exactly when the text after `qs` is well formed. */
  lemma LastQuantumUnpadded(enc: ValidEncoding, s: string, qs: nat)
    requires !enc.padded && qs < |s| && Lead(enc, s, qs, 4) < 4
    ensures DecodeQuantum(enc, s, qs).Ok? <==> WellFormed(enc, s[qs..])
  {
    LastQuantumText(enc, s, qs);
  }

  /** With padding, a last quantum decodes exactly when the text after `qs` is well formed. */
  lemma LastQuantumPadded(enc: ValidEncoding, s: string, qs: nat)
    requires enc.padded && qs < |s| && Lead(enc, s, qs, 4) < 4
    ensures DecodeQuantum(enc, s, qs).Ok? <==> WellFormed(enc, s[qs..])
  {
    LastQuantumText(enc, s, qs);
    var n, m := Lead(enc, s, qs, 4), |s| - qs;
    if qs + n == |s| {
      assert !WellFormed(enc, s[qs..]);
    } else if s[qs + n] != PadChar || n < 2 {
      assert !WellFormed(enc, s[qs..]);
    } else if n == 2 && m == 3 {
      assert !WellFormed(enc, s[qs..]);
    } else if n == 2 && s[qs + 3] != PadChar {
      assert !WellFormed(enc, s[qs..]);
    } else if m > 4 {
      assert !WellFormed(enc, s[qs..]);
    } else {
      assert WellFormed(enc, s[qs..]);
    }
  }

  /** Decoding from a quantum boundary succeeds exactly when the rest of the text is well formed. */
  lemma {:induction false} DecodeFromIff(enc: ValidEncoding, s: string, qs: nat)
    requires qs <= |s|
    ensures DecodeFrom(enc, s, qs).Ok? <==> WellFormed(enc, s[qs..])
    decreases |s| - qs
  {
    if qs == |s| {
      assert s[qs..] == [];
    } else if Lead(enc, s, qs, 4) == 4 {
      var t := s[qs..];
      assert forall i | 0 <= i < 4 :: t[..4][i] == s[qs + i];
      assert t[4..] == s[qs + 4..];
      WellFormedShift(enc, t);
      DecodeFromIff(enc, s, qs + 4);
    } else {
      LastQuantum(enc, s, qs);
      if enc.padded {
        LastQuantumPadded(enc, s, qs);
      } else {
        LastQuantumUnpadded(enc, s, qs);
      }
    }
  }

  /** `DecodeString` accepts exactly the well-formed text: valid tokens always decode, anything else is rejected. */
  lemma DecodeIff(enc: ValidEncoding, s: string)
    ensures Decode(enc, s).Ok? <==> WellFormed(enc, s)
  {
    DecodeFromIff(enc, s, 0);
    assert s[0..] == s;
  }

  /** Every encoding is well formed. */
  lemma EncodeWellFormed(enc: ValidEncoding, x: Bytes)
    ensures WellFormed(enc, Encode(enc, x))
  {
    DecodeEncode(enc, x);
    DecodeIff(enc, Encode(enc, x));
  }

  /** Distinct byte sequences have distinct encodings. */
  lemma EncodeInjective(enc: ValidEncoding, x: Bytes, y: Bytes)
    requires Encode(enc, x) == Encode(enc, y)
    ensures x == y
  {
    DecodeEncode(enc, x);
    DecodeEncode(enc, y);
  }

  /** A leading group extends the agreement of encoding-then-concatenating with concatenating-then-encoding. */
  lemma ConcatGroup(enc: ValidEncoding, x: Bytes, y: Bytes)
    requires |x| >= 3
    requires Encode(enc, x[3..] + y) == Encode(enc, x[3..]) + Encode(enc, y)
    ensures Encode(enc, x + y) == Encode(enc, x) + Encode(enc, y)
  {
    var z := x + y;
    DropGroup(x, y);
    EncodeStep(enc, z);
    EncodeStep(enc, x);
    Regroup(Group(enc, x[0], x[1], x[2]), Encode(enc, x[3..]), Encode(enc, y), Encode(enc, z), Encode(enc, x));
  }

  /** The first group of `x + y` is that of `x`, and after it comes the rest of `x`, then `y`. */
  lemma DropGroup(x: Bytes, y: Bytes)
    requires |x| >= 3
    ensures (x + y)[0] == x[0] && (x + y)[1] == x[1] && (x + y)[2] == x[2]
    ensures (x + y)[3..] == x[3..] + y
  {
    var z := x + y;
    assert forall i | 0 <= i < |z| - 3 :: z[3..][i] == (x[3..] + y)[i];
  }

  /** Concatenation is associative, stated over names so that no function is unfolded. */
  lemma Regroup(g: string, a: string, b: string, whole: string, front: string)
    requires whole == g + (a + b) && front == g + a
    ensures whole == front + b
  {
  }

  /** Encoding a whole number of three-byte groups, then the rest, is encoding the lot. */
  lemma {:induction false} EncodeConcat(enc: ValidEncoding, x: Bytes, y: Bytes)
    requires |x| % 3 == 0
    ensures Encode(enc, x + y) == Encode(enc, x) + Encode(enc, y)
    decreases |x|
  {
    if |x| == 0 {
      assert x + y == y;
    } else {
      EncodeConcat(enc, x[3..], y);
      ConcatGroup(enc, x, y);
    }
  }

  /** The padding characters that complete the encoding of `n` bytes. */
  function Padding(n: nat): (r: string)
    ensures |r| == (3 - n % 3) % 3
    ensures forall i | 0 <= i < |r| :: r[i] == PadChar
  {
    if n % 3 == 1 then [PadChar, PadChar] else if n % 3 == 2 then [PadChar] else []
  }

  /** Three more bytes need the same padding. */
  lemma PaddingStep(n: nat)
    ensures Padding(n + 3) == Padding(n)
  {
    assert (n + 3) % 3 == n % 3;
  }

  /** Two encodings with the same alphabet write the same groups. */
  lemma SameGroup(e: ValidEncoding, f: ValidEncoding, b0: byte, b1: byte, b2: byte)
    requires e.alphabet == f.alphabet
    ensures Group(e, b0, b1, b2) == Group(f, b0, b1, b2)
  {
  }

  /** A leading group extends the agreement of the padded and unpadded encodings on the rest. */
  lemma PaddedGroup(std: ValidEncoding, raw: ValidEncoding, x: Bytes)
    requires std.alphabet == raw.alphabet && std.padded && !raw.padded
    requires |x| >= 3
    requires Encode(std, x[3..]) == Encode(raw, x[3..]) + Padding(|x| - 3)
    ensures Encode(std, x) == Encode(raw, x) + Padding(|x|)
  {
    SameGroup(std, raw, x[0], x[1], x[2]);
    EncodeStep(std, x);
    EncodeStep(raw, x);
    PaddingStep(|x| - 3);
    Regroup(Group(std, x[0], x[1], x[2]), Encode(raw, x[3..]), Padding(|x|), Encode(std, x), Encode(raw, x));
  }

  /** Two trailing bytes: the padded encoding adds one `=`. */
  lemma PaddedTwo(std: ValidEncoding, raw: ValidEncoding, b0: byte, b1: byte)
    requires std.alphabet == raw.alphabet && std.padded && !raw.padded
    ensures Encode(std, [b0, b1]) == Encode(raw, [b0, b1]) + Padding(2)
  {
    SameGroup(std, raw, b0, b1, 0);
    EncodeTwo(std, b0, b1);
    EncodeTwo(raw, b0, b1);
    assert Padding(2) == [PadChar];
  }

  /** One trailing byte: the padded encoding adds `==`. */
  lemma PaddedOne(std: ValidEncoding, raw: ValidEncoding, b0: byte)
    requires std.alphabet == raw.alphabet && std.padded && !raw.padded
    ensures Encode(std, [b0]) == Encode(raw, [b0]) + Padding(1)
  {
    SameGroup(std, raw, b0, 0, 0);
    EncodeOne(std, b0);
    EncodeOne(raw, b0);
    assert Padding(1) == [PadChar, PadChar];
  }

  /** The padded encoding is the unpadded one followed by `=` up to a multiple of four characters. */
  lemma {:induction false} PaddedIsRaw(alphabet: string, x: Bytes)
    requires Valid(Encoding(alphabet, true)) && Valid(Encoding(alphabet, false))
    ensures Encode(Encoding(alphabet, true), x) == Encode(Encoding(alphabet, false), x) + Padding(|x|)
    decreases |x|
  {
    var std: ValidEncoding, raw: ValidEncoding := Encoding(alphabet, true), Encoding(alphabet, false);
    if |x| >= 3 {
      PaddedIsRaw(alphabet, x[3..]);
      PaddedGroup(std, raw, x);
    } else if |x| == 2 {
      assert x == [x[0], x[1]];
      PaddedTwo(std, raw, x[0], x[1]);
    } else if |x| == 1 {
      assert x == [x[0]];
      PaddedOne(std, raw, x[0]);
    } else {
      assert Encode(std, x) == [] && Encode(raw, x) == [] && Padding(|x|) == [];
    }
  }
}
