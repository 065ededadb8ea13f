# cryptex, modelled in Dafny

cryptex keeps secrets encrypted wherever they leave a Go process: in environment
variables and inside JSON documents. Its core is small:

- The `cipher.KMS` context pairs a key-management API (AWS KMS, or a stand-in that
  implements the same interface) with the key id used for encryption. It has four
  encryption operations, plus `UseKey`, which chooses the key id. `Encrypt64` asks the API to encrypt bytes and writes the returned blob
  in base64. `Decrypt64` decodes base64 text and asks the API to decrypt the blob.
  `Encrypt` and `Decrypt` do the same with the package codec `b64`.
- `cipher.NewNone` builds the identity API `none`. It hands back the bytes it is
  given, so the "ciphertext" is just the base64 of the plaintext.
- `Setenv`, `LookupEnv` and `Getenv` store and read environment variables as padded
  standard base64 of the encrypted value.
- The generated type `identity.Cryptex` (an instance of the `golem` template) reads
  and writes a record through JSON as one encrypted string. Its methods are
  `MarshalJSON`, `UnmarshalJSON` and `PlainText`.

## Layout

| file | module | what it holds |
|---|---|---|
| results.dfy | `Results` | Go `byte`, `[]byte`, the error values, and `Result`/`Outcome` for Go's `(value, err)` and `err` returns |
| text.dfy | `Text` | Go strings as one character per byte; `[]byte(s)` and `string(b)` |
| base64.dfy | `Base64` | `StdEncoding` and `RawStdEncoding` of `encoding/base64`, and `EncodeToString` and `DecodeString` for any valid encoding |
| base64_lemmas.dfy | `Base64Lemmas` | the round trip, exactly which text the decoder accepts, injectivity, padded versus unpadded output |
| rfc4648.dfy | `Rfc4648` | an independent reference encoder written from the table of RFC 4648 section 4, and a proof that the codec agrees with it |
| cipher.dfy | `Cipher` | `KMS`, `NewKMS`, `NewNone`, `UseKey`, `Encrypt64`, `Decrypt64`, `Encrypt`, `Decrypt`, and the APIs `none` and the failing test double |
| cipher_lemmas.dfy | `CipherLemmas` | key handling, error propagation and round trips of the cipher |
| env.dfy | `Env` | `os.Setenv` on an explicit environment, and `Setenv`, `LookupEnv`, `Getenv` |
| json_text.dfy | `JsonText` | how `json.Marshal` writes a Go string as a JSON string literal |
| identity.dfy | `Identity` | `Cryptex`, `UnmarshalJSON`, `MarshalJSON`, `PlainText` |
| vectors.dfy | `Vectors` | the concrete cases of cryptex_test.go, stated over the model |

Three things in the Go code are global or external, and each becomes a parameter:

- The package-level cipher `cipher.Default` is the parameter `c: Kms`.
- The process environment is a `map<string, string>`. It is passed in and returned.
- The key-management API is a `Backend`. It is `None`, `Fail` (the test double that
  rejects every request) or `Opaque`. `Opaque` wraps two arbitrary functions from
  requests to results, which stands in for AWS without modelling it.
  A property that needs the API to decrypt what it encrypted takes that as the
  hypothesis `CipherLemmas.InvertsOn`, for the one plaintext involved.

The record codec of `encoding/json` is also a parameter: a `JsonCodec<T>` holds the
marshal, unmarshal and string-unquote functions. The round trips those functions are
expected to keep are hypotheses, never axioms: `Identity.ReadsBack` for the one record
being wrapped, and `Identity.ReadsQuoted` for ASCII strings.

The package codec `b64` is used by `Encrypt` and `Decrypt` (cipher/kms.go:45, 69). Its
definition is not part of this model. The model takes it to be `RawStdEncoding`:
the standard alphabet without padding. The tests' 27-character token
`eyJ0ZXh0IjoicGxhaW50ZXh0In0` shows only that `b64` does not pad. The token has no
`+`, `/`, `-` or `_`, so the URL-safe alphabet would give the same token; the
standard alphabet is the model's choice. `Vectors.RecordEncoded` proves the model
produces exactly that token.

## Model

| member | source | states |
|---|---|---|
| Cipher.NewKMS | cipher/kms.go:27-30 | with an API supplied, the context holds that API and no key id |
| Cipher.NewNone | cipher/none.go:17-19 | the identity API behind a context with no key id |
| Cipher.UseKey | cipher/kms.go:39-41 | only the key id changes; the API is kept |
| CipherLemmas.UseKeyLastWins | cipher/kms.go:39-41 | choosing a key twice is the same as choosing only the second |
| CipherLemmas.RequestCarriesKey | cipher/kms.go:74-77 | the encryption request carries the key chosen last and the plaintext unchanged |
| Cipher.EncryptRequest | cipher/kms.go:74-77 | the request names the context's key id and carries the plaintext as given |
| Cipher.Encrypt64 | cipher/kms.go:73-85 | an API error is returned unchanged; otherwise the text is the codec's encoding of the API's blob, which is well formed for the codec and decodes to exactly that blob |
| CipherLemmas.Encrypt64Depends | cipher/kms.go:79-84 | the output depends on the context only through the API's answer to the request |
| Cipher.Decrypt64 | cipher/kms.go:49-65 | a decode error is returned as it is, without a request to the API; otherwise the API's answer for the decoded blob, error or plaintext, is returned as it is |
| CipherLemmas.Decrypt64Malformed | cipher/kms.go:50-53 | text that is not well formed for the codec gives a `CorruptInput` error at an offset within the text, whatever the API |
| CipherLemmas.Decrypt64IgnoresKey | cipher/kms.go:55-59 | decryption does not depend on the key id |
| CipherLemmas.Decrypt64RejectsBeforeApi | cipher/kms.go:50-53 | for malformed text the result is the same whatever the API |
| Cipher.Encrypt | cipher/kms.go:68-70 | `Encrypt64` with `b64`: an API error comes back unchanged; otherwise the text is the `b64` encoding of the API's blob, has no padding, never has length 1 mod 4, and decodes to the blob |
| Cipher.Decrypt | cipher/kms.go:44-46 | `Decrypt64` with `b64`: text containing `=` is rejected as corrupt input |
| CipherLemmas.Decrypt64Encrypt64 | cipher/kms.go:49-85 | when the API accepts a plaintext and decrypts its blob back to it, `Encrypt64` succeeds and `Decrypt64` undoes it, for every codec |
| CipherLemmas.DecryptEncrypt | cipher/kms.go:44-70 | the same round trip through `b64` |
| Cipher.Backend.Encrypt | cipher/none.go:33-37 | the identity API answers an encryption with the plaintext itself; the failing double (cryptex_test.go:190-192) answers `ErrEncrypt` |
| Cipher.Backend.Decrypt | cipher/none.go:27-31 | the identity API answers a decryption with the blob itself; the failing double (cryptex_test.go:186-188) answers `ErrDecrypt` |
| CipherLemmas.NoneInverts | cipher/none.go:27-37 | the identity API decrypts what it encrypts, under any key |
| CipherLemmas.NoneEncrypt64 | cipher/none.go:33-37 | under the identity API, `Encrypt64` is the codec's encoding of the plaintext |
| CipherLemmas.NoneDecrypt64 | cipher/none.go:27-31 | under the identity API, `Decrypt64` is the codec's decoder |
| CipherLemmas.NoneIgnoresKey | cipher/none.go:33-37 | the identity API's output does not depend on the key id |
| CipherLemmas.NoneRoundTrip | cipher/none.go:27-37 | under the identity API encryption always succeeds and decryption restores the plaintext |
| CipherLemmas.FailEncrypt64 | cryptex_test.go:190-192 | the failing double's `ErrEncrypt` comes back from `Encrypt64` |
| CipherLemmas.FailDecrypt64 | cryptex_test.go:186-188 | well-formed text reaches the failing double and gives `ErrDecrypt`; malformed text gives the codec's error first |
| Base64.Encode | cipher/kms.go:84 | `EncodeToString`: the length is Go's `EncodedLen`; every character is a symbol of the alphabet or, when padding, `=` |
| Base64.Decode | cipher/kms.go:50 | `DecodeString`: the output is at most `DecodedLen` bytes; an error is a `CorruptInput` offset within the text |
| Base64Lemmas.DecodeEncode | cipher/kms.go:84 | decoding the encoding of any bytes gives those bytes back, for every codec |
| Base64Lemmas.DecodeIff | cipher/kms.go:50-53 | the decoder succeeds exactly on well-formed text, a grammar stated without reference to the decoder; both directions |
| Base64Lemmas.EncodeWellFormed | cipher/kms.go:84 | every encoding is well formed |
| Base64Lemmas.EncodeInjective | cipher/kms.go:84 | different bytes have different encodings |
| Base64Lemmas.EncodeConcat | cipher/kms.go:84 | encoding whole three-byte groups and then the rest equals encoding the concatenation |
| Base64Lemmas.PaddedIsRaw | env.go:23 | the padded encoding is the unpadded one followed by `=` up to a multiple of four characters |
| Rfc4648.EncodeIsReference | cipher/kms.go:84 | with the standard alphabet the encoder agrees with the reference written from the table of RFC 4648 section 4, padded and unpadded |
| Vectors.TrailingBitsIgnored | cipher/kms.go:50 | `cA==` and `cB==` both decode to `p`, so decoding then encoding does not always give the text back |
| Env.OsSetenv | env.go:28 | `os.Setenv` succeeds exactly when the name is non-empty without `=` or NUL and the value has no NUL; it then sets that one variable, otherwise it changes nothing |
| Env.StdTextHasNoNul | env.go:28 | standard base64 text never contains NUL, so `os.Setenv` never rejects the stored value |
| Env.Setenv | env.go:22-29 | an API error is returned first and unchanged; then an invalid name fails; both failures leave the environment as it was; success sets only `key`, to padded base64 that decodes to the API's blob |
| Env.OsLookupEnv | env.go:53 | `os.LookupEnv` finds a variable exactly when its name is valid (non-empty, no `=`, no NUL) and present, and then returns its value |
| Env.OsSetThenLookup | env.go:28-53 | what `os.Setenv` sets, `os.LookupEnv` finds with the value set; every other name reads as before |
| Env.LookupEnv | env.go:52-64 | an invalid or missing name, text that is not padded standard base64, and an API error all give `("", false)`; `true` exactly when the name is valid, the variable exists and it decrypts, with the plaintext as the string |
| Env.Getenv | env.go:37-44 | an invalid or missing name reads as the empty string |
| Env.GetenvIsLookup | env.go:37-44 | `Getenv` is always the first half of `LookupEnv` |
| Env.SetThenLookup | env.go:22-64 | with a valid name and an API that accepts the value's bytes and decrypts its blob back to them, `Setenv` succeeds and `LookupEnv` reads the value back unchanged |
| Env.NoneSetenv | env.go:22-29 | under the identity API a valid name is set to the padded base64 of the value |
| Env.NoneSetThenGet | env.go:22-44 | under the identity API, setting a valid name succeeds and `Getenv` returns the value |
| Env.SetLeavesOthers | env.go:22-29 | setting one variable never changes what another reads as |
| Env.FailSetenv | env.go:23-26 | with the failing double, `Setenv` returns `ErrEncrypt` and leaves the environment unchanged |
| Env.FailLookup | env.go:58-61 | with the failing double, every variable reads as missing |
| Text.BytesRoundTrip | env.go:63 | `[]byte(string(b))` is `b` |
| Text.StringRoundTrip | env.go:23 | `string([]byte(s))` is `s` for every Go string |
| JsonText.Escape | example/identity/g_cryptex.go:63 | a character is written as itself exactly when it needs no escape; otherwise it is written as a longer escape |
| JsonText.Escaped | example/identity/g_cryptex.go:63 | the literal's body equals the string exactly when no character needs escaping; otherwise it is longer |
| JsonText.Quote | example/identity/g_cryptex.go:63 | `json.Marshal` of a string is a literal between double quotes, at least two longer than the string; a string of characters needing no escape is written between the quotes as it is |
| JsonText.QuoteToken | example/identity/g_cryptex.go:63 | a base64 token is written between double quotes with no escapes |
| Identity.UnmarshalJSON | example/identity/g_cryptex.go:27-47 | the errors of the string read, the decryption and the record read are returned in that order, each leaving the target unchanged; when all three succeed the result is `Pass` and the target becomes the record read from the decrypted bytes |
| Identity.MarshalJSON | example/identity/g_cryptex.go:50-64 | a serialisation or API error is returned unchanged; otherwise the output is the `b64` token between quotes, and the token decodes to the API's blob for the serialised record |
| Identity.PlainText | example/identity/g_cryptex.go:67-69 | the record returned is the one the value wraps |
| Identity.MarshalThenUnmarshal | example/identity/g_cryptex.go:27-64 | with an API that accepts the serialised record and decrypts its blob back to it, a record whose own JSON reads back, and a JSON library that reads back the ASCII strings it writes, unmarshalling the output of `MarshalJSON` restores the record, whatever the target held |
| Identity.NoneMarshalThenUnmarshal | example/identity/g_cryptex.go:27-64 | under the identity API every serialisable record whose own JSON reads back survives the round trip |
| Identity.FailMarshal | example/identity/g_cryptex.go:58-61 | with the failing double, `MarshalJSON` returns `ErrEncrypt` |
| Identity.FailUnmarshal | example/identity/g_cryptex.go:35-38 | with the failing double, a well-formed token gives `ErrDecrypt` and the target is unchanged |
| Vectors.PlaintextEncoded | cryptex_test.go:146 | `plaintext` encodes as `cGxhaW50ZXh0`, padded or not |
| Vectors.RecordEncoded | cryptex_test.go:120 | `{"text":"plaintext"}` encodes under `b64` as the 27-character `eyJ0ZXh0IjoicGxhaW50ZXh0In0` |
| Vectors.EncryptRecordVector | cryptex_test.go:112-120 | under the identity API, `Encrypt` of the record's JSON `{"text":"plaintext"}` is the test token `eyJ0ZXh0IjoicGxhaW50ZXh0In0` |
| Vectors.SetenvVector | cryptex_test.go:137-147 | `Setenv("SET_KEY", "plaintext")` under the identity API stores `cGxhaW50ZXh0` and succeeds |
| Vectors.SetenvFailVector | cryptex_test.go:149-156 | with the failing double, `Setenv` returns `ErrEncrypt` |
| Vectors.GetenvVector | cryptex_test.go:158-166 | a variable holding `cGxhaW50ZXh0` reads as `plaintext` |
| Vectors.GetenvFailVector | cryptex_test.go:168-175 | with the failing double, it reads as the empty string |
| Vectors.MarshalVector | cryptex_test.go:112-121 | a record serialised as `{"text":"plaintext"}` is written as the quoted token of the test |
| Vectors.MarshalFailVector | cryptex_test.go:123-135 | with the failing double, marshalling returns `ErrEncrypt` |
| Vectors.UnmarshalVector | cryptex_test.go:85-95 | the quoted token unmarshals under the identity API to the record read from `{"text":"plaintext"}` |
| Vectors.UnmarshalFailVector | cryptex_test.go:97-110 | with the failing double and a key chosen, unmarshalling returns `ErrDecrypt` and leaves the target unchanged |

## Left out

- `NewKMS()` with no API (cipher/kms.go:32-35) and `cipher.Default` (cipher/global.go:13): both open an AWS session, which is outside the model. The package-level cipher is the explicit parameter `c`.
- The AWS KMS service itself: it is the `Opaque` backend with arbitrary answers. Properties that need decryption to undo encryption assume it as `CipherLemmas.InvertsOn`.
- Fields of the KMS requests and responses other than the key id, the plaintext and the blob.
- The process environment is a map passed explicitly. Concurrent access and other processes are not modelled. `os.Setenv` follows the Unix rules; Windows validates names differently.
- `encoding/json` serialisation of the record, and its reading of a JSON string, are parameters. The lemmas state their round trips as hypotheses.
- `JsonText.Quote` covers the ASCII strings the cipher produces. For other strings, `json.Marshal`'s UTF-8 handling is not modelled: invalid bytes become U+FFFD, and U+2028 and U+2029 are escaped. Go writes `\b` and `\f` as the short escapes from Go 1.22 on; the model writes them as `\u0008` and `\u000c`.
- Cipher.B64: the definition of the package codec `b64` is not part of this model. The model assumes the standard alphabet without padding. The test token only fixes the absence of padding, so the alphabet is an assumption.
- `Base64.Decode` does not skip `\r` and `\n` as Go's decoder does. Text of the cipher's own making never contains them.
- `Base64.Decode`: the contract bounds the error offset by the text's length. The exact offsets Go reports are in the body, but no contract states them.
- The `String` and `AnyT` types of cryptex.go, and the tests that use `String`: cryptex.go is not part of this model. The `AnyT` tests are stated through `Identity.Cryptex`, which is generated from the same template.
- The `{"secret": ...}` wrapper objects of the tests: these are `json.Marshal` of an enclosing struct, outside the model. The vectors state the field's own value.
- example/main.go, a usage example with no logic of its own.
- Error identity: Go compares these errors by identity. The model compares error values, so `ErrEncrypt` and `ErrDecrypt` are distinct values carrying the messages of the test double.
