/**
 Package `cipher`: the `KMS` context (cipher/kms.go) that pairs a key-management
 API with the key id used to encrypt, and the identity API `none` (cipher/none.go).

 The API is a value of `Backend`: the identity API, the test double that fails every
 request, or an `Opaque` API whose answers are arbitrary functions of the request,
 which covers the AWS service without modelling it.
 */
module Cipher {
  import opened Results
  import opened Base64
  import Base64Lemmas

  /** The fields of `kms.EncryptInput` the cipher sets. */
  datatype EncryptInput = EncryptInput(keyId: string, plaintext: Bytes)

  /** The field of `kms.DecryptInput` the cipher sets. */
  datatype DecryptInput = DecryptInput(ciphertextBlob: Bytes)

  /** The error the failing test double returns from `Encrypt`. */
  const ErrEncrypt: Error := Backend("Unable to encrypt")

  /** The error the failing test double returns from `Decrypt`. */
  const ErrDecrypt: Error := Backend("Unable to decrypt")

  /** A `kmsiface.KMSAPI` implementation, as far as the cipher uses it. */
  datatype Backend =
    | /** `none`: hands the bytes back unchanged. */
      None
    | /** The test double that rejects every request. */
      Fail
    | /** Any other implementation: its answers are arbitrary functions of the request. */
      Opaque(encrypt: EncryptInput -> Result<Bytes>, decrypt: DecryptInput -> Result<Bytes>)
  {
    /** `Encrypt`: the `CiphertextBlob` of the response, or the error. */
    function Encrypt(input: EncryptInput): (r: Result<Bytes>)
      ensures None? ==> r == Ok(input.plaintext)
      ensures Fail? ==> r == Err(ErrEncrypt)
    {
      match this
      case None => Ok(input.plaintext)
      case Fail => Err(ErrEncrypt)
      case Opaque(encrypt, _) => encrypt(input)
    }

    /** `Decrypt`: the `Plaintext` of the response, or the error. */
    function Decrypt(input: DecryptInput): (r: Result<Bytes>)
      ensures None? ==> r == Ok(input.ciphertextBlob)
      ensures Fail? ==> r == Err(ErrDecrypt)
    {
      match this
      case None => Ok(input.ciphertextBlob)
      case Fail => Err(ErrDecrypt)
      case Opaque(_, decrypt) => decrypt(input)
    }
  }

  /** `KMS`: the API and the key id of subsequent encryptions. */
  datatype Kms = Kms(api: Backend, key: string)

  /** The package codec `b64`: the standard alphabet, padding omitted. */
  const B64: ValidEncoding := RawStdEncoding

  /** `NewKMS(api)` with an API supplied: no key chosen yet. */
  function NewKMS(api: Backend): (c: Kms)
    ensures c.api == api && c.key == ""
  {
    Kms(api, "")
  }

  /** `NewNone`: the identity API behind a fresh context. */
  function NewNone(): (c: Kms)
    ensures c.api.None? && c.key == ""
  {
    NewKMS(None)
  }

  /** `UseKey`: the key id changes, the API does not. */
  function UseKey(c: Kms, key: string): (r: Kms)
    ensures r.api == c.api && r.key == key
  {
    c.(key := key)
  }

  /** The request `Encrypt64` sends: the current key id and the plaintext as given. */
  function EncryptRequest(c: Kms, plaintext: Bytes): (r: EncryptInput)
    ensures r.keyId == c.key && r.plaintext == plaintext
  {
    EncryptInput(c.key, plaintext)
  }

  /**
   `Encrypt64`: asks the API to encrypt under the current key and writes the blob in
   the given codec. A rejection comes back as it is; otherwise the text is the codec's
   encoding of the blob, which is well formed for the codec and decodes to exactly the blob.
   */
  function Encrypt64(c: Kms, codec: ValidEncoding, plaintext: Bytes): (r: Result<string>)
    ensures var answer := c.api.Encrypt(EncryptRequest(c, plaintext));
      && (answer.Err? ==> r == Err(answer.error))
      && (answer.Ok? ==> r == Ok(Encode(codec, answer.value)))
      && (answer.Ok? ==> Decode(codec, r.value) == Ok(answer.value))
    ensures r.Ok? ==> WellFormed(codec, r.value)
  {
    var blob :- c.api.Encrypt(EncryptRequest(c, plaintext));
    Base64Lemmas.DecodeEncode(codec, blob);
    Base64Lemmas.EncodeWellFormed(codec, blob);
    Ok(Encode(codec, blob))
  }

  /**
   `Decrypt64`: decodes the text first; text the codec rejects yields the decode error
   without a request to the API; otherwise the API's answer for the decoded blob comes
   back as it is. The key id plays no part. `CipherLemmas.Decrypt64Malformed` states
   which texts the codec rejects.
   */
  function Decrypt64(c: Kms, codec: ValidEncoding, cryptotext: string): (r: Result<Bytes>)
    ensures Decode(codec, cryptotext).Err? ==> r == Err(Decode(codec, cryptotext).error)
    ensures Decode(codec, cryptotext).Ok? ==> r == c.api.Decrypt(DecryptInput(Decode(codec, cryptotext).value))
  {
    var bytes :- Decode(codec, cryptotext);
    c.api.Decrypt(DecryptInput(bytes))
  }

  /** `Encrypt`: `Encrypt64` with `b64`, so the text never carries padding. */
  function Encrypt(c: Kms, plaintext: Bytes): (r: Result<string>)
    ensures var answer := c.api.Encrypt(EncryptRequest(c, plaintext));
      && (answer.Err? ==> r == Err(answer.error))
      && (answer.Ok? ==> r == Ok(Encode(B64, answer.value)))
      && (answer.Ok? ==> Decode(B64, r.value) == Ok(answer.value))
    ensures r.Ok? ==> AllSymbols(B64, r.value) && |r.value| % 4 != 1
  {
    Encrypt64(c, B64, plaintext)
  }

  /** `Decrypt`: `Decrypt64` with `b64`; padded text is rejected. */
  function Decrypt(c: Kms, cryptotext: string): (r: Result<Bytes>)
    ensures PadChar in cryptotext ==> r.Err? && r.error.CorruptInput?
    ensures Decode(B64, cryptotext).Err? ==> r == Err(Decode(B64, cryptotext).error)
    ensures Decode(B64, cryptotext).Ok? ==> r == c.api.Decrypt(DecryptInput(Decode(B64, cryptotext).value))
  {
    Base64Lemmas.DecodeIff(B64, cryptotext);
    Decrypt64(c, B64, cryptotext)
  }
}
