/** The server functions of src/app.rs: `save_secret` seals a secret under a
    fresh key, stores the sealed envelope under a fresh UUID and hands back the
    token `id::key`; `get_secret` splits a token, looks the envelope up and
    decrypts it. The cipher, the random key, nonce and UUID, and the store's
    failures are inputs. */
module App {
  import opened Prelude
  import Utf8
  import Base64Url
  import Token
  import Uuid
  import opened Aead
  import opened Store

  /** What a server function answers with: `Plain(text)` is sent as it is, and
      `Debug(value)` is the text that `format!("{:?}", value)` renders. */
  datatype Reply = Plain(text: string) | Debug(value: string)

  /** `ServerFnError::ServerError(e.to_string())`: every store failure of this
      revision is reported with the store error's text and nothing else. */
  datatype AppError = ServerError(message: string)

  const NotFoundText: string := "not found"

  /** The `Display` text of `aead::Error`, which `decrypt` returns as if it were
      the plaintext. */
  const AeadErrorText: string := "aead::Error"

  /** The envelope `encrypt` produces: the nonce, then the sealed UTF-8 bytes. */
  function SealEnvelope(c: Cipher, key: seq<byte>, nonce: seq<byte>, text: string): (envelope: seq<byte>)
    ensures |envelope| >= |nonce| && envelope[..|nonce|] == nonce && envelope[|nonce|..] == c.seal(key, nonce, Utf8.Encode(text))
  {
    nonce + c.seal(key, nonce, Utf8.Encode(text))
  }

  /** `encrypt`, with `nonce` the one `generate_nonce` drew. The cipher output is
      spliced behind the nonce; `GenericArray::from_slice` panics on a key that
      is not 32 bytes long. */
  method Encrypt(c: Cipher, cleartext: string, key: seq<byte>, nonce: seq<byte>) returns (r: Completion<seq<byte>>)
    requires |nonce| == NonceLen
    ensures r.Panic? <==> |key| != KeyLen
    ensures r.Return? ==> r.value == SealEnvelope(c, key, nonce, cleartext)
    ensures r.Return? ==> |r.value| == NonceLen + |c.seal(key, nonce, Utf8.Encode(cleartext))|
    ensures r.Return? ==> r.value[..NonceLen] == nonce
    ensures r.Return? ==> r.value[NonceLen..] == c.seal(key, nonce, Utf8.Encode(cleartext))
  {
    if |key| != KeyLen {
      return Panic(LengthMismatch);
    }
    var obsf := c.seal(key, nonce, Utf8.Encode(cleartext));
    obsf := nonce + obsf;
    return Return(obsf);
  }

  /** `String::from_utf8(plaintext).unwrap()` after a successful decryption, and
      the error's text after a failed one. */
  function Plaintext(result: Option<seq<byte>>): (r: Completion<string>)
    ensures result.None? ==> r == Return(AeadErrorText)
  {
    match result
    case None => Return(AeadErrorText)
    case Some(p) =>
      match Utf8.Decode(p)
      case Some(s) => Return(s)
      case None => Panic(UnwrapOnErr)
  }

  /** `decrypt`, with `nonce` the fresh one `generate_nonce` draws: the whole
      stored envelope is opened under that nonce. */
  function Decrypt(c: Cipher, ciphertext: seq<byte>, key: seq<byte>, nonce: seq<byte>): (r: Completion<string>)
    requires |nonce| == NonceLen
    ensures |key| != KeyLen ==> r == Panic(LengthMismatch)
  {
    if |key| != KeyLen then Panic(LengthMismatch)
    else Plaintext(c.open(key, nonce, ciphertext))
  }

  /** The decryption the envelope format calls for: the first 12 bytes are the
      nonce, the rest is opened under it. An envelope too short to hold a nonce
      counts as a failed decryption. */
  function DecryptEnvelope(c: Cipher, envelope: seq<byte>, key: seq<byte>): (r: Completion<string>)
    ensures |key| != KeyLen ==> r == Panic(LengthMismatch)
  {
    if |key| != KeyLen then Panic(LengthMismatch)
    else if |envelope| < NonceLen then Return(AeadErrorText)
    else Plaintext(c.open(key, envelope[..NonceLen], envelope[NonceLen..]))
  }

  /** `save_secret`, with `key`, `nonce` and `id` the values that
      `generate_key`, `generate_nonce` and `Uuid::new_v4` drew. The token is
      returned only when the store opens and the single write succeeds. */
  method SaveSecret(store: KeyValueStore, c: Cipher, token: string, key: seq<byte>, nonce: seq<byte>, id: string, faults: Faults)
    returns (r: Result<string, AppError>)
    requires |key| == KeyLen && |nonce| == NonceLen && Uuid.IsHyphenated(id)
    modifies store
    ensures r.Ok? <==> !faults.openFails && !faults.accessFails
    ensures r.Ok? ==> r.value == Token.Make(id, Base64Url.EncodeNoPad(key))
    ensures r.Ok? ==> Token.Split(r.value) == [id, Base64Url.EncodeNoPad(key)]
    ensures r.Err? ==> r.error == ServerError(if faults.openFails then faults.openError.value else faults.accessError.value)
    ensures store.entries == if r.Ok? then old(store.entries)[id := SealEnvelope(c, key, nonce, token)] else old(store.entries)
  {
    var sealed := Encrypt(c, token, key, nonce);
    var ciphertext := sealed.value;
    var keyEncoded := Base64Url.EncodeNoPad(key);
    var keyAndId := Token.Make(id, keyEncoded);
    if faults.openFails {
      return Err(ServerError(faults.openError.value));
    }
    var written := store.Set(id, ciphertext, faults.accessFails);
    if !written {
      return Err(ServerError(faults.accessError.value));
    }
    SavedTokenParses(id, key);
    return Ok(keyAndId);
  }

  /** Either the outcome `get_secret` has reached already, or what it goes on
      with. */
  datatype Step<T> = Done(outcome: Completion<Result<Reply, AppError>>) | Next(value: T)

  /** The stored envelope and the decoded key that reach decryption. */
  datatype Located = Located(envelope: seq<byte>, key: seq<byte>)

  /** `get_secret` up to the call to `decrypt`: split the token, open the store,
      read the record named by the first piece, and decode the second piece as
      the key. A missing record answers `"not found"`; a token with one piece
      and a key text that does not decode panic. */
  function Locate(entries: map<string, seq<byte>>, faults: Faults, token: string): (r: Step<Located>)
    ensures r.Next? ==> var v := Token.Split(token);
      |v| >= 2 && v[0] in entries && r.value.envelope == entries[v[0]] &&
      Base64Url.DecodeNoPad(v[1]) == Some(r.value.key)
  {
    var v := Token.Split(token);
    if faults.openFails then Done(Return(Err(ServerError(faults.openError.value))))
    else if faults.accessFails then Done(Return(Err(ServerError(faults.accessError.value))))
    else if v[0] !in entries then Done(Return(Ok(Plain(NotFoundText))))
    else if |v| < 2 then Done(Panic(IndexOutOfBounds))
    else
      match Base64Url.DecodeNoPad(v[1])
      case None => Done(Panic(UnwrapOnErr))
      case Some(key) => Next(Located(entries[v[0]], key))
  }

  /** The decrypted text as `get_secret` answers it. */
  function Answer(decrypted: Completion<string>): (r: Completion<Result<Reply, AppError>>)
    ensures decrypted.Return? ==> r == Return(Ok(Debug(decrypted.value)))
    ensures decrypted.Panic? ==> r.Panic?
  {
    match decrypted
    case Panic(cause) => Panic(cause)
    case Return(value) => Return(Ok(Debug(value)))
  }

  /** `get_secret`, with `nonce` the fresh nonce that `decrypt` draws. */
  function GetSecret(entries: map<string, seq<byte>>, faults: Faults, c: Cipher, token: string, nonce: seq<byte>)
    : (r: Completion<Result<Reply, AppError>>)
    requires |nonce| == NonceLen
    ensures r.Return? && r.value.Err? ==> faults.openFails || faults.accessFails
    ensures r.Return? && r.value.Ok? && r.value.value.Plain? ==> r.value.value.text == NotFoundText
  {
    match Locate(entries, faults, token)
    case Done(outcome) => outcome
    case Next(l) => Answer(Decrypt(c, l.envelope, l.key, nonce))
  }

  /** `get_secret` with `DecryptEnvelope` in place of `decrypt`. */
  function GetSecretFixed(entries: map<string, seq<byte>>, faults: Faults, c: Cipher, token: string)
    : (r: Completion<Result<Reply, AppError>>)
    ensures r.Return? && r.value.Err? ==> faults.openFails || faults.accessFails
    ensures r.Return? && r.value.Ok? && r.value.value.Plain? ==> r.value.value.text == NotFoundText
  {
    match Locate(entries, faults, token)
    case Done(outcome) => outcome
    case Next(l) => Answer(DecryptEnvelope(c, l.envelope, l.key))
  }

  // ---------------------------------------------------------------------------
  // The token

  /** The token `save_secret` returns splits back into the UUID and the key
      text, and the key text, 43 symbols without `=`, decodes to the key. */
  lemma SavedTokenParses(id: string, key: seq<byte>)
    requires Uuid.IsHyphenated(id) && |key| == KeyLen
    ensures Token.Split(Token.Make(id, Base64Url.EncodeNoPad(key))) == [id, Base64Url.EncodeNoPad(key)]
    ensures Base64Url.DecodeNoPad(Base64Url.EncodeNoPad(key)) == Some(key)
    ensures |Base64Url.EncodeNoPad(key)| == 43 && '=' !in Base64Url.EncodeNoPad(key)
  {
    Uuid.HyphenatedHasNoColon(id);
    Base64Url.EncodingsAvoidSeparator(key);
    Base64Url.KeyTextLength(key);
    Token.SplitMake(id, Base64Url.EncodeNoPad(key));
    Base64Url.DecodeEncodeNoPad(key);
  }

  // ---------------------------------------------------------------------------
  // Outcomes of get_secret

  /** The answer is plain text exactly when the store works and holds no record
      under the token's first piece, and it is then `"not found"`, whatever the
      cipher and the rest of the token. */
  lemma MissingRecordReportsNotFound(entries: map<string, seq<byte>>, faults: Faults, c: Cipher, token: string, nonce: seq<byte>)
    requires |nonce| == NonceLen
    ensures var r := GetSecret(entries, faults, c, token, nonce);
      r.Return? && r.value.Ok? && r.value.value.Plain? <==>
      !faults.openFails && !faults.accessFails && Token.Split(token)[0] !in entries
    ensures !faults.openFails && !faults.accessFails && Token.Split(token)[0] !in entries ==>
      GetSecret(entries, faults, c, token, nonce) == Return(Ok(Plain(NotFoundText)))
  {
    var l := Locate(entries, faults, token);
    if l.Next? {
      var d := Decrypt(c, l.value.envelope, l.value.key, nonce);
      assert d.Return? ==> Answer(d).value.value.Debug?;
    }
  }

  /** A store failure is answered with the store error's text: the open's when
      it fails, else the read's. */
  lemma StoreFailureIsServerError(entries: map<string, seq<byte>>, faults: Faults, c: Cipher, token: string, nonce: seq<byte>)
    requires |nonce| == NonceLen
    requires faults.openFails || faults.accessFails
    ensures GetSecret(entries, faults, c, token, nonce) ==
      Return(Err(ServerError(if faults.openFails then faults.openError.value else faults.accessError.value)))
  {
  }

  /** Whatever record is stored, a working store, a two-piece token whose first
      piece names that record and a second piece that decodes without padding
      take `get_secret` on to `decrypt` with that record and that key. */
  lemma StoredRecordReachesDecrypt(entries: map<string, seq<byte>>, c: Cipher, token: string, key: seq<byte>, nonce: seq<byte>)
    requires |nonce| == NonceLen
    requires var v := Token.Split(token);
      |v| >= 2 && v[0] in entries && Base64Url.DecodeNoPad(v[1]) == Some(key)
    ensures Locate(entries, NoFaults, token) == Next(Located(entries[Token.Split(token)[0]], key))
    ensures GetSecret(entries, NoFaults, c, token, nonce) ==
      Answer(Decrypt(c, entries[Token.Split(token)[0]], key, nonce))
  {
  }

  /** A token without the separator has no second piece: when its record
      exists, indexing `v[1]` panics. */
  lemma MissingSeparatorPanics(entries: map<string, seq<byte>>, c: Cipher, token: string, nonce: seq<byte>)
    requires |nonce| == NonceLen
    requires !Token.HasSeparator(token) && token in entries
    ensures GetSecret(entries, NoFaults, c, token, nonce) == Panic(IndexOutOfBounds)
  {
    Token.SplitSingle(token);
  }

  /** A key text that does not decode without padding makes `unwrap` panic,
      once the record it names exists. */
  lemma UndecodableKeyTextPanics(entries: map<string, seq<byte>>, c: Cipher, token: string, nonce: seq<byte>)
    requires |nonce| == NonceLen
    requires var v := Token.Split(token);
      v[0] in entries && |v| >= 2 && Base64Url.DecodeNoPad(v[1]).None?
    ensures GetSecret(entries, NoFaults, c, token, nonce) == Panic(UnwrapOnErr)
  {
  }

  /** `decrypt` reports no error: a failed decryption yields the error's text,
      a successful one the text whose UTF-8 bytes are the plaintext, and only a
      plaintext that is not UTF-8 makes it panic. */
  lemma DecryptReturnsPlaintextOrErrorText(c: Cipher, ciphertext: seq<byte>, key: seq<byte>, nonce: seq<byte>)
    requires |key| == KeyLen && |nonce| == NonceLen
    ensures c.open(key, nonce, ciphertext).None? ==> Decrypt(c, ciphertext, key, nonce) == Return(AeadErrorText)
    ensures c.open(key, nonce, ciphertext).Some? && Decrypt(c, ciphertext, key, nonce).Return? ==>
      Utf8.Encode(Decrypt(c, ciphertext, key, nonce).value) == c.open(key, nonce, ciphertext).value
    ensures Decrypt(c, ciphertext, key, nonce).Panic? <==>
      c.open(key, nonce, ciphertext).Some? && Utf8.Decode(c.open(key, nonce, ciphertext).value).None?
  {
    var o := c.open(key, nonce, ciphertext);
    if o.Some? && Utf8.Decode(o.value).Some? {
      Utf8.EncodeDecode(o.value);
    }
  }

  /** Revealing a saved secret reaches decryption with exactly the stored
      envelope and the generated key. */
  lemma RevealDecryptsStoredEnvelope(entries: map<string, seq<byte>>, c: Cipher, id: string, key: seq<byte>, nonce: seq<byte>, secret: string, drawn: seq<byte>)
    requires Uuid.IsHyphenated(id) && |key| == KeyLen && |nonce| == NonceLen && |drawn| == NonceLen
    ensures var saved := entries[id := SealEnvelope(c, key, nonce, secret)];
      var token := Token.Make(id, Base64Url.EncodeNoPad(key));
      Locate(saved, NoFaults, token) == Next(Located(SealEnvelope(c, key, nonce, secret), key)) &&
      GetSecret(saved, NoFaults, c, token, drawn) == Answer(Decrypt(c, SealEnvelope(c, key, nonce, secret), key, drawn))
  {
    SavedTokenParses(id, key);
  }

  /** The reveal path as written never gives a saved secret back when the
      cipher is an ideal AEAD: `decrypt` opens the whole envelope, nonce prefix
      included, under a nonce drawn afresh, so it either fails, and answers with
      the error text, or yields a plaintext 12 bytes longer than the secret's. */
  lemma RevealNeverRecoversSecret(entries: map<string, seq<byte>>, c: Cipher, id: string, key: seq<byte>, nonce: seq<byte>, secret: string, drawn: seq<byte>)
    requires Ideal(c)
    requires Uuid.IsHyphenated(id) && |key| == KeyLen && |nonce| == NonceLen && |drawn| == NonceLen
    requires secret != AeadErrorText
    ensures GetSecret(entries[id := SealEnvelope(c, key, nonce, secret)], NoFaults, c, Token.Make(id, Base64Url.EncodeNoPad(key)), drawn)
      != Return(Ok(Debug(secret)))
  {
    RevealDecryptsStoredEnvelope(entries, c, id, key, nonce, secret, drawn);
    var envelope := SealEnvelope(c, key, nonce, secret);
    var bytes := Utf8.Encode(secret);
    assert |envelope| == NonceLen + |bytes| + TagLen;
    var o := c.open(key, drawn, envelope);
    if o.Some? {
      assert envelope == c.seal(key, drawn, o.value);
      assert |o.value| == |bytes| + NonceLen;
      DecryptReturnsPlaintextOrErrorText(c, envelope, key, drawn);
    }
  }

  /** With the envelope split at the nonce, decryption undoes `encrypt`. */
  lemma DecryptEnvelopeRoundTrip(c: Cipher, key: seq<byte>, nonce: seq<byte>, text: string)
    requires Correct(c) && |key| == KeyLen && |nonce| == NonceLen
    ensures DecryptEnvelope(c, SealEnvelope(c, key, nonce, text), key) == Return(text)
  {
    var envelope := SealEnvelope(c, key, nonce, text);
    assert envelope[..NonceLen] == nonce;
    assert envelope[NonceLen..] == c.seal(key, nonce, Utf8.Encode(text));
    Utf8.DecodeEncode(text);
  }

  /** With that decryption, revealing the token `save_secret` returned answers
      with the saved secret. */
  lemma RevealAfterSaveFixed(entries: map<string, seq<byte>>, c: Cipher, id: string, key: seq<byte>, nonce: seq<byte>, secret: string)
    requires Correct(c) && Uuid.IsHyphenated(id) && |key| == KeyLen && |nonce| == NonceLen
    ensures GetSecretFixed(entries[id := SealEnvelope(c, key, nonce, secret)], NoFaults, c, Token.Make(id, Base64Url.EncodeNoPad(key)))
      == Return(Ok(Debug(secret)))
  {
    RevealDecryptsStoredEnvelope(entries, c, id, key, nonce, secret, nonce);
    DecryptEnvelopeRoundTrip(c, key, nonce, secret);
  }
}
