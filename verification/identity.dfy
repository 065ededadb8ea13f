/**
 The generated sensitive type `Cryptex` (example/identity/g_cryptex.go): a record
 that travels through JSON as one encrypted string.

 The record type is the parameter `T`. What `encoding/json` does with the record
 itself, and how it reads a JSON string literal, are the functions of a `JsonCodec<T>`;
 the lemmas state, as hypotheses, the round trips those functions are expected to
 keep. The package-level cipher `cipher.Default` is the parameter `c`.
 */
module Identity {
  import opened Results
  import opened Text
  import opened Base64
  import opened Cipher
  import opened JsonText
  import CipherLemmas

  /** `Cryptex`: the record, kept in plain form in memory. */
  datatype Cryptex<T> = Cryptex(plain: T)

  /**
   The parts of `encoding/json` the methods call: `Marshal` and `Unmarshal` of the
   record, and `Unmarshal` of a JSON value into a Go string.
   */
  datatype JsonCodec<!T> = JsonCodec(
    marshal: T -> Result<Bytes>,
    unmarshal: Bytes -> Result<T>,
    unquote: Bytes -> Result<string>)

  /** `json.Unmarshal` of the record undoes `json.Marshal` of the one record `x`. */
  ghost predicate ReadsBack<T>(j: JsonCodec<T>, x: T) {
    j.marshal(x).Ok? ==> j.unmarshal(j.marshal(x).value) == Ok(x)
  }

  /** `json.Unmarshal` into a string undoes `json.Marshal` of an ASCII string. */
  ghost predicate ReadsQuoted<T>(j: JsonCodec<T>) {
    forall s: string :: IsAscii(s) ==> j.unquote(Quote(s)) == Ok(s)
  }

  /**
   `UnmarshalJSON`: reads a JSON string, decrypts it with `Decrypt`, and reads the
   plaintext as the record. Each step's error is returned as it is and the target
   keeps its old value; only when all three succeed does it take the new record.
   */
  function UnmarshalJSON<T>(c: Kms, j: JsonCodec<T>, value: Cryptex<T>, b: Bytes): (r: (Cryptex<T>, Outcome))
    ensures r.1.Failed? ==> r.0 == value
    ensures j.unquote(b).Err? ==> r.1 == Failed(j.unquote(b).error)
    ensures j.unquote(b).Ok? && Decrypt(c, j.unquote(b).value).Err? ==>
      r.1 == Failed(Decrypt(c, j.unquote(b).value).error)
    ensures j.unquote(b).Ok? && !WellFormed(B64, j.unquote(b).value) ==> r.1.Failed? && r.1.error.CorruptInput?
    ensures j.unquote(b).Ok? && Decrypt(c, j.unquote(b).value).Ok? ==>
      r == match j.unmarshal(Decrypt(c, j.unquote(b).value).value)
           case Err(e) => (value, Failed(e))
           case Ok(gen) => (Cryptex(gen), Pass)
    ensures r.1.Pass? ==>
      && j.unquote(b).Ok?
      && Decrypt(c, j.unquote(b).value).Ok?
      && j.unmarshal(Decrypt(c, j.unquote(b).value).value) == Ok(r.0.plain)
  {
    match j.unquote(b)
    case Err(e) => (value, Failed(e))
    case Ok(cryptotext) =>
      Base64Lemmas.DecodeIff(B64, cryptotext);
      match Decrypt(c, cryptotext)
      case Err(e) => (value, Failed(e))
      case Ok(text) =>
        match j.unmarshal(text)
        case Err(e) => (value, Failed(e))
        case Ok(gen) => (Cryptex(gen), Pass)
  }

  /**
   `MarshalJSON`: serialises the record, encrypts the bytes with `Encrypt` and writes
   the token as a JSON string. A serialisation or API error is returned as it is;
   otherwise the output is the token between double quotes, and the token decodes
   to the API's blob for the serialised record.
   */
  function MarshalJSON<T>(c: Kms, j: JsonCodec<T>, value: Cryptex<T>): (r: Result<Bytes>)
    ensures j.marshal(value.plain).Err? ==> r == Err(j.marshal(value.plain).error)
    ensures j.marshal(value.plain).Ok? ==>
      var answer := c.api.Encrypt(EncryptRequest(c, j.marshal(value.plain).value));
      && (answer.Err? ==> r == Err(answer.error))
      && (answer.Ok? ==> r.Ok? && r.value == ToBytes("\"" + Encrypt(c, j.marshal(value.plain).value).value + "\""))
      && (answer.Ok? ==> Decode(B64, Encrypt(c, j.marshal(value.plain).value).value) == Ok(answer.value))
  {
    var binary :- j.marshal(value.plain);
    var text :- Encrypt(c, binary);
    QuoteToken(text);
    Ok(Quote(text))
  }

  /** `PlainText`: the record itself, unchanged. */
  function PlainText<T>(value: Cryptex<T>): (r: T)
    ensures Cryptex(r) == value
  {
    value.plain
  }

  /**
   With an API that accepts and inverts its own encryption of the serialised record,
   a record whose JSON reads back, and a JSON library that reads back the strings it
   writes, unmarshalling the output of `MarshalJSON` restores the record, whatever the
   target held before.
   */
  lemma MarshalThenUnmarshal<T>(c: Kms, j: JsonCodec<T>, value: Cryptex<T>, target: Cryptex<T>)
    requires ReadsBack(j, value.plain)
    requires ReadsQuoted(j)
    requires j.marshal(value.plain).Ok?
    requires c.api.Encrypt(EncryptRequest(c, j.marshal(value.plain).value)).Ok?
    requires CipherLemmas.InvertsOn(c.api, c.key, j.marshal(value.plain).value)
    ensures MarshalJSON(c, j, value).Ok?
    ensures UnmarshalJSON(c, j, target, MarshalJSON(c, j, value).value) == (value, Pass)
  {
    var binary := j.marshal(value.plain).value;
    var text := Encrypt(c, binary).value;
    QuoteToken(text);
    assert j.unquote(Quote(text)) == Ok(text);
    CipherLemmas.DecryptEncrypt(c, binary);
    assert j.unmarshal(binary) == Ok(value.plain);
  }

  /** Under the identity API, any record whose JSON reads back survives the round trip. */
  lemma NoneMarshalThenUnmarshal<T>(k: string, j: JsonCodec<T>, value: Cryptex<T>, target: Cryptex<T>)
    requires ReadsBack(j, value.plain)
    requires ReadsQuoted(j)
    requires j.marshal(value.plain).Ok?
    ensures MarshalJSON(Kms(None, k), j, value).Ok?
    ensures UnmarshalJSON(Kms(None, k), j, target, MarshalJSON(Kms(None, k), j, value).value) == (value, Pass)
  {
    CipherLemmas.NoneInverts(k);
    MarshalThenUnmarshal(Kms(None, k), j, value, target);
  }

  /** Under the failing test double, marshalling a serialisable record returns its error. */
  lemma FailMarshal<T>(k: string, j: JsonCodec<T>, value: Cryptex<T>)
    requires j.marshal(value.plain).Ok?
    ensures MarshalJSON(Kms(Fail, k), j, value) == Err(ErrEncrypt)
  {
  }

  /**
   Under the failing test double, a well-formed token reaches the API and its error
   comes back, with the target unchanged.
   */
  lemma FailUnmarshal<T>(k: string, j: JsonCodec<T>, value: Cryptex<T>, b: Bytes)
    requires j.unquote(b).Ok? && WellFormed(B64, j.unquote(b).value)
    ensures UnmarshalJSON(Kms(Fail, k), j, value, b) == (value, Failed(ErrDecrypt))
  {
    CipherLemmas.FailDecrypt64(k, B64, j.unquote(b).value);
  }
}
