/** The later revision of `get_secret` (src/app/getsecret.rs): the store holds a
    `NoncedSecret` per UUID, the key text is decoded as padded base 64, and the
    record's own nonce is used for decryption. Every failure is mapped to an
    error of its own, except two unguarded steps that panic. */
module AppGetSecret {
  import opened Prelude
  import Utf8
  import Base64Url
  import Token
  import Uuid
  import opened Aead
  import opened Store

  /** The stored record: the nonce the secret was sealed under and the sealed
      bytes. */
  datatype NoncedSecret = NoncedSecret(nonce: seq<byte>, secret: seq<byte>)

  /** The `ServerFnError::ServerError` messages, by cause: "Failed to open
      store: ", "Failed to get JSON from store: " (each followed by the store
      error's text, which is carried), "Secret not found", "Failed to decode
      key: " and "Decryption failed: " (each followed by the decoder's or the
      cipher's error text, which is not). */
  datatype ServerError = StoreOpenFailed(cause: string) | StoreReadFailed(cause: string)
    | SecretNotFound | KeyDecodeFailed | DecryptionFailed

  const InvalidUtf8Text: string := "Invalid UTF-8"

  /** `String::from_utf8(value).unwrap_or_else(|_| "Invalid UTF-8")`. */
  function TextOf(value: seq<byte>): (s: string)
    ensures Utf8.Decode(value).Some? ==> Utf8.Encode(s) == value
    ensures Utf8.Decode(value).None? ==> s == InvalidUtf8Text
  {
    match Utf8.Decode(value)
    case Some(text) => Utf8.EncodeDecode(value); text
    case None => InvalidUtf8Text
  }

  /** `get_secret`. `faults.accessFails` stands for `get_json` failing, in the
      read or in parsing the record. `GenericArray::from_slice` panics on a key
      that is not 32 bytes and on a nonce that is not 12. */
  function GetSecret(entries: map<string, NoncedSecret>, faults: Faults, c: Cipher, token: string)
    : (r: Completion<Result<string, ServerError>>)
    ensures r.Return? && r.value.Ok? ==> |Token.Split(token)| >= 2 && Token.Split(token)[0] in entries
    ensures r.Return? && r.value.Err? && (r.value.error.StoreOpenFailed? || r.value.error.StoreReadFailed?) ==>
      faults.openFails || faults.accessFails
  {
    var v := Token.Split(token);
    if faults.openFails then Return(Err(StoreOpenFailed(faults.openError.value)))
    else if faults.accessFails then Return(Err(StoreReadFailed(faults.accessError.value)))
    else if v[0] !in entries then Return(Err(SecretNotFound))
    else if |v| < 2 then Panic(IndexOutOfBounds)
    else
      match Base64Url.DecodePadded(v[1])
      case None => Return(Err(KeyDecodeFailed))
      case Some(key) =>
        var record := entries[v[0]];
        if |key| != KeyLen || |record.nonce| != NonceLen then Panic(LengthMismatch)
        else
          match c.open(key, record.nonce, record.secret)
          case None => Return(Err(DecryptionFailed))
          case Some(value) => Return(Ok(TextOf(value)))
  }

  // ---------------------------------------------------------------------------

  /** Revealing a record sealed under its own nonce with the key that the token
      carries, padded, answers with the secret. */
  lemma RevealRoundTrip(entries: map<string, NoncedSecret>, c: Cipher, id: string, key: seq<byte>, nonce: seq<byte>, secret: string)
    requires Correct(c) && Uuid.IsHyphenated(id) && |key| == KeyLen && |nonce| == NonceLen
    requires id in entries && entries[id] == NoncedSecret(nonce, c.seal(key, nonce, Utf8.Encode(secret)))
    ensures GetSecret(entries, NoFaults, c, Token.Make(id, Base64Url.EncodePadded(key))) == Return(Ok(secret))
  {
    Uuid.HyphenatedHasNoColon(id);
    Base64Url.EncodingsAvoidSeparator(key);
    Token.SplitMake(id, Base64Url.EncodePadded(key));
    Base64Url.DecodeEncodePadded(key);
    Utf8.DecodeEncode(secret);
  }

  /** The answer is "Secret not found" exactly when the store works and holds
      no record under the token's first piece; the key text is then never
      decoded, so a malformed one changes nothing. */
  lemma NotFoundExactlyWhenAbsent(entries: map<string, NoncedSecret>, faults: Faults, c: Cipher, token: string)
    ensures GetSecret(entries, faults, c, token) == Return(Err(SecretNotFound)) <==>
      !faults.openFails && !faults.accessFails && Token.Split(token)[0] !in entries
  {
  }

  /** The lookup comes before key decoding: two tokens with the same absent
      first piece get the same answer, whatever their key texts. */
  lemma NotFoundPrecedesKeyDecoding(entries: map<string, NoncedSecret>, c: Cipher, token1: string, token2: string)
    requires Token.Split(token1)[0] == Token.Split(token2)[0] && Token.Split(token1)[0] !in entries
    ensures GetSecret(entries, NoFaults, c, token1) == GetSecret(entries, NoFaults, c, token2) == Return(Err(SecretNotFound))
  {
  }

  /** A key text that does not decode is reported before any decryption, so
      the cipher plays no part in the answer. */
  lemma KeyDecodeFailurePrecedesDecryption(entries: map<string, NoncedSecret>, c1: Cipher, c2: Cipher, token: string)
    requires var v := Token.Split(token);
      v[0] in entries && |v| >= 2 && Base64Url.DecodePadded(v[1]).None?
    ensures GetSecret(entries, NoFaults, c1, token) == GetSecret(entries, NoFaults, c2, token) == Return(Err(KeyDecodeFailed))
  {
  }

  /** The key text `save_secret` of src/app.rs writes, 43 symbols without
      padding, does not decode here: its tokens are answered with "Failed to
      decode key". */
  lemma UnpaddedKeyTextRejected(entries: map<string, NoncedSecret>, c: Cipher, id: string, key: seq<byte>)
    requires Uuid.IsHyphenated(id) && |key| == KeyLen && id in entries
    ensures GetSecret(entries, NoFaults, c, Token.Make(id, Base64Url.EncodeNoPad(key))) == Return(Err(KeyDecodeFailed))
  {
    Uuid.HyphenatedHasNoColon(id);
    Base64Url.EncodingsAvoidSeparator(key);
    Token.SplitMake(id, Base64Url.EncodeNoPad(key));
    Base64Url.PaddedRejectsUnpadded(key);
    KeyDecodeFailurePrecedesDecryption(entries, c, c, Token.Make(id, Base64Url.EncodeNoPad(key)));
  }

  /** A token without the separator has no second piece: when its record
      exists, indexing `v[1]` panics. */
  lemma MissingSeparatorPanics(entries: map<string, NoncedSecret>, c: Cipher, token: string)
    requires !Token.HasSeparator(token) && token in entries
    ensures GetSecret(entries, NoFaults, c, token) == Panic(IndexOutOfBounds)
  {
    Token.SplitSingle(token);
  }

  /** Decryption uses the nonce of the stored record and nothing else from the
      record or the token: two ciphers that agree on opening the record's bytes
      under its nonce and the decoded key give the same answer, and a failed
      opening is reported as "Decryption failed". */
  lemma NonceComesFromRecord(entries: map<string, NoncedSecret>, c1: Cipher, c2: Cipher, token: string, key: seq<byte>)
    requires var v := Token.Split(token);
      v[0] in entries && |v| >= 2 && Base64Url.DecodePadded(v[1]) == Some(key)
    requires var record := entries[Token.Split(token)[0]];
      c1.open(key, record.nonce, record.secret) == c2.open(key, record.nonce, record.secret)
    ensures GetSecret(entries, NoFaults, c1, token) == GetSecret(entries, NoFaults, c2, token)
    ensures var record := entries[Token.Split(token)[0]];
      |key| == KeyLen && |record.nonce| == NonceLen && c1.open(key, record.nonce, record.secret).None? ==>
      GetSecret(entries, NoFaults, c1, token) == Return(Err(DecryptionFailed))
  {
  }

  /** A decoded key of the wrong length or a stored nonce of the wrong length
      panics. */
  lemma WrongLengthsPanic(entries: map<string, NoncedSecret>, c: Cipher, token: string, key: seq<byte>)
    requires var v := Token.Split(token);
      v[0] in entries && |v| >= 2 && Base64Url.DecodePadded(v[1]) == Some(key)
    requires |key| != KeyLen || |entries[Token.Split(token)[0]].nonce| != NonceLen
    ensures GetSecret(entries, NoFaults, c, token) == Panic(LengthMismatch)
  {
  }

  /** The fallback text is ambiguous only with itself: "Invalid UTF-8" comes
      back exactly when the plaintext is not UTF-8 or is that very text, and any
      other answer is the text whose bytes the plaintext is. */
  lemma Utf8Fallback(value: seq<byte>)
    ensures TextOf(value) == InvalidUtf8Text <==>
      Utf8.Decode(value).None? || Utf8.Decode(value) == Some(InvalidUtf8Text)
    ensures TextOf(value) != InvalidUtf8Text ==> Utf8.Encode(TextOf(value)) == value
  {
  }

  /** A store failure is reported as such, with the store's error text: the
      open first, then the read. */
  lemma StoreFailuresReported(entries: map<string, NoncedSecret>, faults: Faults, c: Cipher, token: string)
    ensures faults.openFails ==>
      GetSecret(entries, faults, c, token) == Return(Err(StoreOpenFailed(faults.openError.value)))
    ensures !faults.openFails && faults.accessFails ==>
      GetSecret(entries, faults, c, token) == Return(Err(StoreReadFailed(faults.accessError.value)))
  {
  }

  /** Whatever record is stored, once the key decodes to 32 bytes, the stored
      nonce is 12 bytes and the record opens, the answer is the opened bytes as
      text: the text they encode, or "Invalid UTF-8". */
  lemma OpenedRecordAnswersText(entries: map<string, NoncedSecret>, c: Cipher, token: string, key: seq<byte>, value: seq<byte>)
    requires var v := Token.Split(token);
      v[0] in entries && |v| >= 2 && Base64Url.DecodePadded(v[1]) == Some(key)
    requires var record := entries[Token.Split(token)[0]];
      |key| == KeyLen && |record.nonce| == NonceLen && c.open(key, record.nonce, record.secret) == Some(value)
    ensures GetSecret(entries, NoFaults, c, token) == Return(Ok(TextOf(value)))
    ensures Utf8.Decode(value).Some? ==> GetSecret(entries, NoFaults, c, token) == Return(Ok(Utf8.Decode(value).value))
    ensures Utf8.Decode(value).None? ==> GetSecret(entries, NoFaults, c, token) == Return(Ok(InvalidUtf8Text))
  {
  }
}
