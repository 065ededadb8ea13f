/**
 Properties of the `KMS` context: how the key id, the API and the codec
 combine, and what the identity API and the failing test double make of them.
 */
module CipherLemmas {
  import opened Results
  import opened Base64
  import opened Cipher

  /**
   The API decrypts what it encrypted under `key` from the plaintext `p`: the blob it
   returns, if any, decrypts back to `p`.
   */
  predicate InvertsOn(api: Backend, key: string, p: Bytes) {
    api.Encrypt(EncryptInput(key, p)).Ok? ==>
      api.Decrypt(DecryptInput(api.Encrypt(EncryptInput(key, p)).value)) == Ok(p)
  }

  /** The API decrypts everything it encrypted under `key`. */
  ghost predicate Inverts(api: Backend, key: string) {
    forall p: Bytes :: InvertsOn(api, key, p)
  }

  /** Choosing a key twice: the second choice is the one that stays. */
  lemma UseKeyLastWins(c: Kms, first: string, second: string)
    ensures UseKey(UseKey(c, first), second) == UseKey(c, second)
  {
  }

  /** The identity API decrypts what it encrypts, whatever the key. */
  lemma NoneInverts(key: string)
    ensures Inverts(None, key)
  {
  }

  /** The identity API never consults the key id. */
  lemma NoneIgnoresKey(key: string, other: string, codec: ValidEncoding, p: Bytes)
    ensures Encrypt64(Kms(None, key), codec, p) == Encrypt64(Kms(None, other), codec, p)
  {
  }

  /** Under the identity API, `Encrypt64` is the codec alone. */
  lemma NoneEncrypt64(key: string, codec: ValidEncoding, p: Bytes)
    ensures Encrypt64(Kms(None, key), codec, p) == Ok(Encode(codec, p))
  {
  }

  /** Under the identity API, `Decrypt64` is the codec's decoder alone. */
  lemma NoneDecrypt64(key: string, codec: ValidEncoding, t: string)
    ensures Decrypt64(Kms(None, key), codec, t) == Decode(codec, t)
  {
  }

  /**
   Text that is not well formed for the codec yields a `CorruptInputError` at an
   offset within the text, whatever the API.
   */
  lemma Decrypt64Malformed(c: Kms, codec: ValidEncoding, t: string)
    requires !WellFormed(codec, t)
    ensures Decrypt64(c, codec, t).Err?
    ensures Decrypt64(c, codec, t).error.CorruptInput? && Decrypt64(c, codec, t).error.offset <= |t|
  {
    Base64Lemmas.DecodeIff(codec, t);
  }

  /** The failing test double's rejection of an encryption comes back unchanged. */
  lemma FailEncrypt64(key: string, codec: ValidEncoding, p: Bytes)
    ensures Encrypt64(Kms(Fail, key), codec, p) == Err(ErrEncrypt)
  {
  }

  /**
   Under the failing test double, well-formed text reaches the API and yields its
   rejection; any other text yields the codec's error first.
   */
  lemma FailDecrypt64(key: string, codec: ValidEncoding, t: string)
    ensures WellFormed(codec, t) ==> Decrypt64(Kms(Fail, key), codec, t) == Err(ErrDecrypt)
    ensures !WellFormed(codec, t) ==> Decrypt64(Kms(Fail, key), codec, t).error.CorruptInput?
  {
    Base64Lemmas.DecodeIff(codec, t);
  }

  /**
   `Encrypt64` depends on the context only through the API's answer to the request
   it builds: two contexts whose APIs answer alike produce the same text.
   */
  lemma Encrypt64Depends(c: Kms, d: Kms, codec: ValidEncoding, p: Bytes)
    requires c.api.Encrypt(EncryptRequest(c, p)) == d.api.Encrypt(EncryptRequest(d, p))
    ensures Encrypt64(c, codec, p) == Encrypt64(d, codec, p)
  {
  }

  /** The request carries the key chosen last and the plaintext unchanged. */
  lemma RequestCarriesKey(c: Kms, key: string, p: Bytes)
    ensures EncryptRequest(UseKey(c, key), p) == EncryptInput(key, p)
  {
  }

  /** `Decrypt64` does not depend on the key id. */
  lemma Decrypt64IgnoresKey(c: Kms, key: string, codec: ValidEncoding, t: string)
    ensures Decrypt64(UseKey(c, key), codec, t) == Decrypt64(c, codec, t)
  {
  }

  /** Text the codec rejects never reaches the API: the result is the same for every API. */
  lemma Decrypt64RejectsBeforeApi(c: Kms, d: Kms, codec: ValidEncoding, t: string)
    requires !WellFormed(codec, t)
    ensures Decrypt64(c, codec, t) == Decrypt64(d, codec, t)
  {
    Base64Lemmas.DecodeIff(codec, t);
  }

  /** With an API that inverts its own encryption of `p`, `Decrypt64` undoes `Encrypt64` on `p`. */
  lemma Decrypt64Encrypt64(c: Kms, codec: ValidEncoding, p: Bytes)
    requires c.api.Encrypt(EncryptRequest(c, p)).Ok?
    requires InvertsOn(c.api, c.key, p)
    ensures Encrypt64(c, codec, p).Ok?
    ensures Decrypt64(c, codec, Encrypt64(c, codec, p).value) == Ok(p)
  {
    var answer := c.api.Encrypt(EncryptInput(c.key, p));
    assert c.api.Decrypt(DecryptInput(answer.value)) == Ok(p);
  }

  /** With an API that inverts its own encryption of `p`, `Decrypt` undoes `Encrypt` on `p`. */
  lemma DecryptEncrypt(c: Kms, p: Bytes)
    requires c.api.Encrypt(EncryptRequest(c, p)).Ok?
    requires InvertsOn(c.api, c.key, p)
    ensures Encrypt(c, p).Ok?
    ensures Decrypt(c, Encrypt(c, p).value) == Ok(p)
  {
    Decrypt64Encrypt64(c, B64, p);
  }

  /** The identity API round trip, under any key and codec. */
  lemma NoneRoundTrip(key: string, codec: ValidEncoding, p: Bytes)
    ensures Encrypt64(Kms(None, key), codec, p).Ok?
    ensures Decrypt64(Kms(None, key), codec, Encrypt64(Kms(None, key), codec, p).value) == Ok(p)
  {
    NoneInverts(key);
    Decrypt64Encrypt64(Kms(None, key), codec, p);
  }
}
