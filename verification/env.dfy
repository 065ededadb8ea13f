/**
 Encrypted environment variables (env.go). The process environment is a map from
 names to values passed in and returned explicitly, and the package-level cipher
 `cipher.Default` is the parameter `c`. Values are stored as padded standard
 base64 of the API's blob.
 */
module Env {
  import opened Results
  import opened Text
  import opened Base64
  import opened Cipher
  import Base64Lemmas
  import CipherLemmas

  /** The process environment. */
  type Environ = map<string, string>

  /** What the Unix `setenv` system call accepts as a variable name: not empty, no `=`, no NUL. */
  predicate ValidName(key: string) {
    |key| > 0 && '=' !in key && '\0' !in key
  }

  /** `os.Setenv`: rejects a bad name or a value holding NUL, otherwise sets the one variable. */
  function OsSetenv(env: Environ, key: string, value: string): (r: (Environ, Outcome))
    ensures r.1.Pass? <==> ValidName(key) && '\0' !in value
    ensures r.1.Failed? ==> r == (env, Failed(InvalidEnv))
    ensures r.1.Pass? ==> key in r.0 && r.0[key] == value
    ensures r.1.Pass? ==> r.0.Keys == env.Keys + {key}
    ensures r.1.Pass? ==> forall k | k in env && k != key :: r.0[k] == env[k]
  {
    if !ValidName(key) || '\0' in value then (env, Failed(InvalidEnv))
    else (env[key := value], Pass)
  }

  /**
   `os.LookupEnv`: an empty name is never found, and the environment's names, split
   at the first `=` of each entry, never hold `=` or NUL; so only a valid name that
   is present is found, with its value.
   */
  function OsLookupEnv(env: Environ, key: string): (r: (string, bool))
    ensures r.1 <==> ValidName(key) && key in env
    ensures r.1 ==> r.0 == env[key]
    ensures !r.1 ==> r.0 == ""
  {
    if !ValidName(key) || key !in env then ("", false) else (env[key], true)
  }

  /** What `os.Setenv` sets, `os.LookupEnv` finds; other names read as before. */
  lemma OsSetThenLookup(env: Environ, key: string, value: string, other: string)
    requires OsSetenv(env, key, value).1.Pass?
    ensures OsLookupEnv(OsSetenv(env, key, value).0, key) == (value, true)
    ensures other != key ==> OsLookupEnv(OsSetenv(env, key, value).0, other) == OsLookupEnv(env, other)
  {
  }

  /** Text of the standard encoding never holds NUL, so `os.Setenv` never rejects it for its value. */
  lemma StdTextHasNoNul(x: Bytes)
    ensures '\0' !in Encode(StdEncoding, x)
  {
    var t := Encode(StdEncoding, x);
    StdAlphabetHasNoNul();
    forall i | 0 <= i < |t|
      ensures t[i] != '\0'
    {
      assert t[i] in StdAlphabet || t[i] == PadChar;
    }
  }

  /**
   `Setenv`: encrypts the value under the current key, then stores the padded standard
   base64 of the blob. An API error comes first and is returned as it is; a name the
   system rejects fails next. Either failure leaves the environment unchanged; success
   changes the one variable, to text that decodes to the API's blob.
   */
  function Setenv(c: Kms, env: Environ, key: string, value: string): (r: (Environ, Outcome))
    ensures var answer := c.api.Encrypt(EncryptRequest(c, ToBytes(value)));
      && (answer.Err? ==> r == (env, Failed(answer.error)))
      && (answer.Ok? ==> (r.1.Pass? <==> ValidName(key)))
      && (answer.Ok? && !ValidName(key) ==> r == (env, Failed(InvalidEnv)))
      && (r.1.Pass? ==> key in r.0 && r.0[key] == Encode(StdEncoding, answer.value))
      && (r.1.Pass? ==> Decode(StdEncoding, r.0[key]) == Ok(answer.value))
    ensures r.1.Failed? ==> r.0 == env
    ensures r.1.Pass? ==> r.0.Keys == env.Keys + {key}
    ensures r.1.Pass? ==> forall k | k in env && k != key :: r.0[k] == env[k]
  {
    match Encrypt64(c, StdEncoding, ToBytes(value))
    case Err(e) => (env, Failed(e))
    case Ok(text) =>
      StdTextHasNoNul(c.api.Encrypt(EncryptRequest(c, ToBytes(value))).value);
      OsSetenv(env, key, text)
  }

  /**
   `LookupEnv`: a variable `os.LookupEnv` does not find, text that is not padded
   standard base64, and an API rejection all read as `("", false)`; otherwise the
   decrypted bytes as a string.
   */
  function LookupEnv(c: Kms, env: Environ, key: string): (r: (string, bool))
    ensures !r.1 ==> r.0 == ""
    ensures !ValidName(key) || key !in env ==> r == ("", false)
    ensures key in env && !WellFormed(StdEncoding, env[key]) ==> r == ("", false)
    ensures r.1 <==> ValidName(key) && key in env && Decrypt64(c, StdEncoding, env[key]).Ok?
    ensures r.1 ==> IsByteString(r.0) && ToBytes(r.0) == Decrypt64(c, StdEncoding, env[key]).value
  {
    var (cryptotext, found) := OsLookupEnv(env, key);
    if !found then ("", false)
    else
      Base64Lemmas.DecodeIff(StdEncoding, cryptotext);
      match Decrypt64(c, StdEncoding, cryptotext)
      case Err(_) => ("", false)
      case Ok(text) =>
        BytesRoundTrip(text);
        (FromBytes(text), true)
  }

  /** `Getenv`: the value `LookupEnv` finds, or the empty string. */
  function Getenv(c: Kms, env: Environ, key: string): (r: string)
    ensures !ValidName(key) || key !in env ==> r == ""
  {
    var (value, found) := LookupEnv(c, env, key);
    if !found then "" else value
  }

  /** `Getenv` is the first half of `LookupEnv`: the empty string is what a failed lookup carries. */
  lemma GetenvIsLookup(c: Kms, env: Environ, key: string)
    ensures Getenv(c, env, key) == LookupEnv(c, env, key).0
  {
  }

  /** A value set through an API that inverts its own encryption of the value is read back unchanged. */
  lemma SetThenLookup(c: Kms, env: Environ, key: string, value: string)
    requires ValidName(key) && IsByteString(value)
    requires c.api.Encrypt(EncryptRequest(c, ToBytes(value))).Ok?
    requires CipherLemmas.InvertsOn(c.api, c.key, ToBytes(value))
    ensures Setenv(c, env, key, value).1 == Pass
    ensures LookupEnv(c, Setenv(c, env, key, value).0, key) == (value, true)
  {
    var env' := Setenv(c, env, key, value).0;
    var answer := c.api.Encrypt(EncryptRequest(c, ToBytes(value)));
    assert answer.Ok?;
    assert c.api.Decrypt(DecryptInput(answer.value)) == Ok(ToBytes(value));
    assert Decrypt64(c, StdEncoding, env'[key]) == Ok(ToBytes(value));
    StringRoundTrip(value);
  }

  /** Under the identity API, setting a variable with a valid name succeeds and `Getenv` returns the value. */
  lemma NoneSetThenGet(k: string, env: Environ, key: string, value: string)
    requires ValidName(key)
    requires IsByteString(value)
    ensures Setenv(Kms(None, k), env, key, value).1 == Pass
    ensures Getenv(Kms(None, k), Setenv(Kms(None, k), env, key, value).0, key) == value
  {
    CipherLemmas.NoneInverts(k);
    SetThenLookup(Kms(None, k), env, key, value);
  }

  /** Under the identity API, a valid name is set to the padded standard base64 of the value's bytes. */
  lemma NoneSetenv(k: string, env: Environ, key: string, value: string)
    requires ValidName(key)
    ensures Setenv(Kms(None, k), env, key, value) == (env[key := Encode(StdEncoding, ToBytes(value))], Pass)
  {
    CipherLemmas.NoneEncrypt64(k, StdEncoding, ToBytes(value));
  }

  /** Setting one variable does not change what any other variable reads as. */
  lemma SetLeavesOthers(c: Kms, env: Environ, key: string, value: string, other: string)
    requires other != key
    ensures LookupEnv(c, Setenv(c, env, key, value).0, other) == LookupEnv(c, env, other)
  {
  }

  /** Under the failing test double, `Setenv` returns its error and changes nothing. */
  lemma FailSetenv(k: string, env: Environ, key: string, value: string)
    ensures Setenv(Kms(Fail, k), env, key, value) == (env, Failed(ErrEncrypt))
  {
  }

  /** Under the failing test double, every variable reads as missing. */
  lemma FailLookup(k: string, env: Environ, key: string)
    ensures LookupEnv(Kms(Fail, k), env, key) == ("", false)
    ensures Getenv(Kms(Fail, k), env, key) == ""
  {
    if key in env {
      CipherLemmas.FailDecrypt64(k, StdEncoding, env[key]);
    }
  }
}
