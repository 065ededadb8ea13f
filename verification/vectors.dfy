/**
 The concrete cases of the repository's tests (cryptex_test.go), stated over the
 model. The expected tokens are reached through the reference encoder of `Rfc4648`.
 */
module Vectors {
  import opened Results
  import opened Text
  import opened Base64
  import opened Base64Lemmas
  import opened Cipher
  import opened Env
  import opened Identity
  import opened Rfc4648

  /** `[]byte("plaintext")`. */
  const PlaintextBytes: Bytes := [112, 108, 97, 105, 110, 116, 101, 120, 116]

  /** `[]byte("{\"text\":\"plaintext\"}")`, the record of the `AnyT` tests as `json.Marshal` writes it. */
  const RecordBytes: Bytes := [123, 34, 116, 101, 120, 116, 34, 58, 34, 112, 108, 97, 105, 110, 116, 101, 120, 116, 34, 125]

  /** The token of the string tests. */
  const PlaintextToken: string := "cGxhaW50ZXh0"

  /** The token of the `AnyT` tests: 27 characters, no padding. */
  const RecordToken: string := "eyJ0ZXh0IjoicGxhaW50ZXh0In0"

  lemma PlaintextBytesAre()
    ensures ToBytes("plaintext") == PlaintextBytes
    ensures FromBytes(PlaintextBytes) == "plaintext"
  {
  }

  lemma RecordBytesAre()
    ensures ToBytes("{\"text\":\"plaintext\"}") == RecordBytes
  {
  }

  /** One step of the reference: the characters of a leading group, then those of the rest. */
  lemma RefGroup(b0: byte, b1: byte, b2: byte, rest: Bytes, padded: bool, group: string, tail: string)
    requires Chars(Pack(b0, b1, b2), 4) == group
    requires RefEncode(rest, padded) == tail
    ensures RefEncode([b0, b1, b2] + rest, padded) == group + tail
  {
    var x := [b0, b1, b2] + rest;
    assert x[3..] == rest;
    RefStep(x, padded);
  }

  lemma CharsIjoi()
    ensures Chars(Pack(34, 58, 34), 4) == "Ijoi"
  {
    assert Pack(34, 58, 34) == 8 * 0x4_0000 + 35 * 0x1000 + 40 * 64 + 34;
    CharsOf(8, 35, 40, 34);
  }

  /** `Ijoi` encodes the group 34, 58, 34. */
  lemma GroupIjoi(rest: Bytes, padded: bool)
    ensures RefEncode([34, 58, 34] + rest, padded) == "Ijoi" + RefEncode(rest, padded)
  {
    CharsIjoi();
    RefGroup(34, 58, 34, rest, padded, "Ijoi", RefEncode(rest, padded));
  }

  lemma CharsZXh0()
    ensures Chars(Pack(101, 120, 116), 4) == "ZXh0"
  {
    assert Pack(101, 120, 116) == 25 * 0x4_0000 + 23 * 0x1000 + 33 * 64 + 52;
    CharsOf(25, 23, 33, 52);
  }

  /** `ZXh0` encodes the group 101, 120, 116. */
  lemma GroupZXh0(rest: Bytes, padded: bool)
    ensures RefEncode([101, 120, 116] + rest, padded) == "ZXh0" + RefEncode(rest, padded)
  {
    CharsZXh0();
    RefGroup(101, 120, 116, rest, padded, "ZXh0", RefEncode(rest, padded));
  }

  lemma CharsEyJ0()
    ensures Chars(Pack(123, 34, 116), 4) == "eyJ0"
  {
    assert Pack(123, 34, 116) == 30 * 0x4_0000 + 50 * 0x1000 + 9 * 64 + 52;
    CharsOf(30, 50, 9, 52);
  }

  /** `eyJ0` encodes the group 123, 34, 116. */
  lemma GroupEyJ0(rest: Bytes, padded: bool)
    ensures RefEncode([123, 34, 116] + rest, padded) == "eyJ0" + RefEncode(rest, padded)
  {
    CharsEyJ0();
    RefGroup(123, 34, 116, rest, padded, "eyJ0", RefEncode(rest, padded));
  }

  lemma CharsAW50()
    ensures Chars(Pack(105, 110, 116), 4) == "aW50"
  {
    assert Pack(105, 110, 116) == 26 * 0x4_0000 + 22 * 0x1000 + 57 * 64 + 52;
    CharsOf(26, 22, 57, 52);
  }

  /** `aW50` encodes the group 105, 110, 116. */
  lemma GroupAW50(rest: Bytes, padded: bool)
    ensures RefEncode([105, 110, 116] + rest, padded) == "aW50" + RefEncode(rest, padded)
  {
    CharsAW50();
    RefGroup(105, 110, 116, rest, padded, "aW50", RefEncode(rest, padded));
  }

  lemma CharsCGxh()
    ensures Chars(Pack(112, 108, 97), 4) == "cGxh"
  {
    assert Pack(112, 108, 97) == 28 * 0x4_0000 + 6 * 0x1000 + 49 * 64 + 33;
    CharsOf(28, 6, 49, 33);
  }

  /** `cGxh` encodes the group 112, 108, 97. */
  lemma GroupCGxh(rest: Bytes, padded: bool)
    ensures RefEncode([112, 108, 97] + rest, padded) == "cGxh" + RefEncode(rest, padded)
  {
    CharsCGxh();
    RefGroup(112, 108, 97, rest, padded, "cGxh", RefEncode(rest, padded));
  }

  /** The reference encoding of the plaintext, padded or not. */
  lemma PlaintextReference(padded: bool)
    ensures RefEncode(PlaintextBytes, padded) == PlaintextToken
  {
    var x: Bytes := [];
    GroupZXh0(x, padded);
    x := [101, 120, 116] + x;
    GroupAW50(x, padded);
    x := [105, 110, 116] + x;
    GroupCGxh(x, padded);
    x := [112, 108, 97] + x;
    assert x == PlaintextBytes;
  }

  /** The record is `{"text":"`, the plaintext, then `"}`. */
  const RecordHead: Bytes := [123, 34, 116, 101, 120, 116, 34, 58, 34]
  const RecordTail: Bytes := [34, 125]

  lemma RecordParts()
    ensures RecordBytes == RecordHead + (PlaintextBytes + RecordTail)
  {
  }

  /** The plaintext and the head of the record are three whole groups each. */
  lemma WholeGroups()
    ensures |PlaintextBytes| == 9 && |RecordHead| == 9
  {
  }

  /** The record's token is that of `{"text":"`, the plaintext's token, then that of `"}`. */
  lemma RecordTokenParts()
    ensures RecordToken == "eyJ0ZXh0Ijoi" + (PlaintextToken + "In0")
  {
  }

  /** The reference encoding of `"}`: three symbols, then `=` if padded. */
  lemma RecordTailReference(padded: bool)
    ensures RefEncode(RecordTail, padded) == "In0" + (if padded then "=" else "")
  {
  }

  /** The reference encoding of `{"text":"`: three whole groups. */
  lemma RecordHeadReference(padded: bool)
    ensures RefEncode(RecordHead, padded) == "eyJ0ZXh0Ijoi"
  {
    var x: Bytes := [];
    GroupIjoi(x, padded);
    x := [34, 58, 34] + x;
    GroupZXh0(x, padded);
    x := [101, 120, 116] + x;
    GroupEyJ0(x, padded);
    x := [123, 34, 116] + x;
    assert x == RecordHead;
  }

  /** The reference encoding of a concatenation whose first part is whole groups. */
  lemma {:induction false} RefConcat(x: Bytes, y: Bytes, padded: bool)
    requires |x| % 3 == 0
    ensures RefEncode(x + y, padded) == RefEncode(x, padded) + RefEncode(y, padded)
    decreases |x|
  {
    if |x| > 0 {
      var xy := x + y;
      assert xy[3..] == x[3..] + y;
      RefConcat(x[3..], y, padded);
      RefStep(xy, padded);
      RefStep(x, padded);
    } else {
      assert x + y == y;
    }
  }

  /** The reference encoding of three parts, the first two whole groups, is the three encodings in turn. */
  lemma RefJoin(h: Bytes, p: Bytes, t: Bytes, padded: bool, eh: string, ep: string, et: string)
    requires |h| % 3 == 0
    requires |p| % 3 == 0
    requires RefEncode(h, padded) == eh
    requires RefEncode(p, padded) == ep
    requires RefEncode(t, padded) == et
    ensures RefEncode(h + (p + t), padded) == eh + (ep + et)
  {
    RefConcat(p, t, padded);
    RefConcat(h, p + t, padded);
  }

  /** Padding after the last part is padding after the whole. */
  lemma AppendLast(a: string, b: string, c: string, d: string, whole: string)
    requires whole == a + (b + c)
    ensures a + (b + (c + d)) == whole + d
  {
  }

  /** The reference encoding of the record's three parts, one after the other. */
  lemma RecordPartsReference(padded: bool)
    ensures RefEncode(RecordHead + (PlaintextBytes + RecordTail), padded) == RecordToken + (if padded then "=" else "")
  {
    var eh, et := "eyJ0ZXh0Ijoi", "In0" + (if padded then "=" else "");
    RecordTokenParts();
    WholeGroups();
    RecordHeadReference(padded);
    PlaintextReference(padded);
    RecordTailReference(padded);
    RefJoin(RecordHead, PlaintextBytes, RecordTail, padded, eh, PlaintextToken, et);
    AppendLast(eh, PlaintextToken, "In0", if padded then "=" else "", RecordToken);
  }

  /**
   The reference encoding of the record: the 27 characters of the tests, then one `=`
   when padded (20 bytes leave two over).
   */
  lemma RecordReference(padded: bool)
    ensures RefEncode(RecordBytes, padded) == RecordToken + (if padded then "=" else "")
  {
    RecordParts();
    RecordPartsReference(padded);
  }

  /** Nine bytes need no padding: both standard encodings write `cGxhaW50ZXh0`. */
  lemma PlaintextEncoded(enc: ValidEncoding)
    requires enc.alphabet == StdAlphabet
    ensures Encode(enc, PlaintextBytes) == PlaintextToken
  {
    PlaintextReference(enc.padded);
    EncodeIsReference(enc, PlaintextBytes);
  }

  /** `b64` writes the record as the 27-character token of the tests. */
  lemma RecordEncoded()
    ensures Encode(B64, RecordBytes) == RecordToken
  {
    RecordReference(B64.padded);
    EncodeIsReference(B64, RecordBytes);
  }

  /** The identity API's `Encrypt` of the record is the token of the tests. */
  lemma EncryptRecordVector()
    ensures Encrypt(NewNone(), ToBytes("{\"text\":\"plaintext\"}")) == Ok(RecordToken)
  {
    RecordBytesAre();
    RecordEncoded();
  }

  /** `TestSetenv`: the variable holds `cGxhaW50ZXh0`. */
  lemma SetenvVector(env: Environ)
    ensures Setenv(UseKey(NewNone(), "alias/mykms/key"), env, "SET_KEY", "plaintext")
      == (env["SET_KEY" := PlaintextToken], Pass)
  {
    assert ValidName("SET_KEY");
    PlaintextBytesAre();
    PlaintextEncoded(StdEncoding);
    NoneSetenv("alias/mykms/key", env, "SET_KEY", "plaintext");
  }

  /** `TestSetenvFail`: the API's error comes back and the environment is untouched. */
  lemma SetenvFailVector(env: Environ)
    ensures Setenv(NewKMS(Fail), env, "SET_KEY", "plaintext") == (env, Failed(ErrEncrypt))
  {
  }

  /** `TestGetenv`: the stored token reads as `plaintext`. */
  lemma GetenvVector(env: Environ)
    ensures Getenv(UseKey(NewNone(), "alias/mykms/key"), env["GET_KEY" := PlaintextToken], "GET_KEY") == "plaintext"
  {
    assert ValidName("GET_KEY");
    PlaintextEncoded(StdEncoding);
    DecodeEncode(StdEncoding, PlaintextBytes);
    PlaintextBytesAre();
  }

  /** `TestGetenvFail`: with the failing API the variable reads as empty. */
  lemma GetenvFailVector(env: Environ)
    ensures Getenv(NewKMS(Fail), env["GET_KEY" := PlaintextToken], "GET_KEY") == ""
  {
    FailLookup("", env["GET_KEY" := PlaintextToken], "GET_KEY");
  }

  /**
   `TestAnyTMarshalJSON`: a record `json.Marshal` writes as `{"text":"plaintext"}`
   becomes the quoted token.
   */
  lemma MarshalVector<T>(j: JsonCodec<T>, value: Cryptex<T>)
    requires j.marshal(value.plain) == Ok(RecordBytes)
    ensures MarshalJSON(NewNone(), j, value) == Ok(ToBytes("\"" + RecordToken + "\""))
  {
    RecordEncoded();
  }

  /** `TestAnyTMarshalFail`: the failing API's error comes back. */
  lemma MarshalFailVector<T>(j: JsonCodec<T>, value: Cryptex<T>)
    requires j.marshal(value.plain) == Ok(RecordBytes)
    ensures MarshalJSON(NewKMS(Fail), j, value) == Err(ErrEncrypt)
  {
  }

  /**
   `TestAnyTUnmarshalJSON`: the quoted token is read, decrypted by the identity API to
   the record's JSON, and the target takes the record `json.Unmarshal` reads from it.
   */
  lemma UnmarshalVector<T>(j: JsonCodec<T>, value: Cryptex<T>, record: T)
    requires j.unquote(ToBytes("\"" + RecordToken + "\"")) == Ok(RecordToken)
    requires j.unmarshal(RecordBytes) == Ok(record)
    ensures UnmarshalJSON(NewNone(), j, value, ToBytes("\"" + RecordToken + "\"")) == (Cryptex(record), Pass)
    ensures PlainText(UnmarshalJSON(NewNone(), j, value, ToBytes("\"" + RecordToken + "\"")).0) == record
  {
    RecordEncoded();
    DecodeEncode(B64, RecordBytes);
  }

  /** `TestAnyTUnmarshalFail`: the failing API's error comes back and the target is untouched. */
  lemma UnmarshalFailVector<T>(j: JsonCodec<T>, value: Cryptex<T>)
    requires j.unquote(ToBytes("\"" + RecordToken + "\"")) == Ok(RecordToken)
    ensures UnmarshalJSON(UseKey(NewKMS(Fail), "alias/mykms/key"), j, value, ToBytes("\"" + RecordToken + "\""))
      == (value, Failed(ErrDecrypt))
  {
    RecordEncoded();
    EncodeWellFormed(B64, RecordBytes);
    FailUnmarshal("alias/mykms/key", j, value, ToBytes("\"" + RecordToken + "\""));
  }

  /** One byte is two symbols and two `=` in the padded encoding. */
  lemma OneByteEncoded()
    ensures Encode(StdEncoding, [112]) == "cA=="
  {
    assert RefEncode([112], true) == "cA==";
    EncodeIsReference(StdEncoding, [112]);
  }

  /** `cB==` has two leading symbols. */
  lemma LeadOfCB()
    ensures Lead(StdEncoding, "cB==", 0, 4) == 2
  {
    var enc, s := StdEncoding, "cB==";
    StdSymbol(enc, 28);
    StdSymbol(enc, 1);
    assert s[0] == Symbol(enc, 28) && s[1] == Symbol(enc, 1);
    LeadIs(enc, s, 0, 4, 2);
  }

  /** `cB==` is one quantum: `c` is 28 and `B` is 1, whose low four bits fall off. */
  lemma QuantumOfCB()
    ensures DecodeQuantum(StdEncoding, "cB==", 0) == Ok(Quantum([112], 4))
  {
    var enc, s := StdEncoding, "cB==";
    LeadOfCB();
    StdSymbol(enc, 28);
    StdSymbol(enc, 1);
    DigitOfSymbol(enc, 28);
    DigitOfSymbol(enc, 1);
    assert Digit(enc, s[0]) == 28 && Digit(enc, s[1]) == 1;
    assert QuantumBytes(enc, s, 0, 2) == [112];
  }

  /**
   The decoder ignores the bits after the last byte: `cA==` and `cB==` both decode to
   `p`, though only `cA==` is an encoding. Decoding then encoding need not give the
   text back.
   */
  lemma TrailingBitsIgnored()
    ensures Encode(StdEncoding, [112]) == "cA=="
    ensures Decode(StdEncoding, "cA==") == Ok([112])
    ensures Decode(StdEncoding, "cB==") == Ok([112])
    ensures Encode(StdEncoding, Decode(StdEncoding, "cB==").value) != "cB=="
  {
    OneByteEncoded();
    DecodeEncode(StdEncoding, [112]);
    QuantumOfCB();
    DecodeAtEnd(StdEncoding, "cB==");
    DecodeStep(StdEncoding, "cB==", 0, Quantum([112], 4), []);
    assert [112] + [] == [112];
  }
}
