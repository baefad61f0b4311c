# tokenshare in Dafny

tokenshare is a small secret-sharing web service. `save_secret` seals a
secret with ChaCha20-Poly1305 (section 2.8 of RFC 8439). The key and the nonce
are freshly drawn. The sealed envelope is stored in a key-value store under a
fresh version-4 UUID. The caller gets back the capability token
`<uuid>::<base64url key>`. `get_secret` splits a token at `::`, looks up the
record named by the first piece, decodes the second piece as the key and
decrypts.

The repository holds two revisions of the reveal path, which disagree, and
both are modelled as written:

- src/app.rs stores the envelope `nonce ‖ sealed bytes`. Its key text is
  unpadded base 64 (`URL_SAFE_NO_PAD`).
- src/app/getsecret.rs reads a `NoncedSecret { nonce, secret }` record. It
  decodes the key text as padded base 64 (`URL_SAFE`).

src/crypto.rs adds an AES-256-CBC pair of functions, `encrypt_text` and
`decrypt_text`. They frame the ciphertext behind a 16-byte IV.

The model uses these modules:

- `Prelude`: bytes, `Option`, `Result`, and `Completion`. `Completion` records
  whether a call returns or panics, and why it panics.
- `Utf8`: `as_bytes`, `from_utf8` and `from_utf8_lossy` (RFC 3629).
- `Base64Url`: the URL-safe alphabet of section 5 of RFC 4648, with and
  without padding, as the `base64` crate's two engines encode and decode it.
- `Token`: `format!("{}::{}")` and `split("::")`.
- `Uuid`: the shape of a hyphenated UUID.
- `Aead`: the AEAD cipher as two uninterpreted functions. The predicates
  `Correct` and `Ideal` state what is assumed of it.
- `Store`: the key-value store, as a class holding a map, together with its
  failure modes.
- `App`: src/app.rs.
- `AppGetSecret`: src/app/getsecret.rs.
- `Crypto`: src/crypto.rs.

Randomness is an input everywhere:

- the key, the nonce and the UUID of `save_secret`;
- the nonce `decrypt` draws;
- the IV of `encrypt_text`.

Store failures are also inputs.

Panics are modelled as outcomes rather than excluded by preconditions:

- an `unwrap` or `expect` on an error;
- `v[1]` on a one-piece token;
- a slice out of range;
- `GenericArray::from_slice` on a wrong length.

Both revisions of `get_secret` therefore panic on some attacker-chosen tokens.
A token without `::` panics only when its first piece names a stored record.
Otherwise src/app.rs answers "not found", and src/app/getsecret.rs returns the
error "Secret not found". Both panic on a decoded key of the wrong length, because
neither checks key lengths before the cipher is built. Only src/app/getsecret.rs
can panic on a stored nonce of the wrong length: src/app.rs stores no nonce,
and its `decrypt` draws a fresh 12-byte one. The src/app.rs revision also
panics on a key text that does not decode and on a plaintext that is not
UTF-8.

## Model

| member | source | states |
|---|---|---|
| `App.Encrypt` | src/app.rs:17-23 | The envelope is the nonce followed by the unchanged cipher output. Its first 12 bytes are the nonce, and its length is 12 plus the cipher output's. It panics exactly when the key is not 32 bytes. |
| `App.SaveSecret` | src/app.rs:166-180 | A token is returned exactly when the store opens and the write succeeds. The token is `id::base64url_nopad(key)` and splits back into `[id, key text]`. The store changes at the one key `id`, which now holds the envelope, and it is unchanged on failure. A failed open or a failed write is reported as a server error holding that call's error text. |
| `App.Decrypt` | src/app.rs:26-38 | A key that is not 32 bytes panics at the cipher set-up. `App.DecryptReturnsPlaintextOrErrorText` states the other outcomes. |
| `App.Locate` | src/app.rs:184-191 | When the call goes on to decryption, the token has two pieces, the first names a stored record, the envelope is that record, and the key is what the second piece decodes to. `App.StoredRecordReachesDecrypt` states the converse. |
| `App.GetSecret` | src/app.rs:182-197 | An error is returned only when the store fails. A plain answer is always `"not found"`. The lemmas on the rows below state its outcomes. |
| `App.StoredRecordReachesDecrypt` | src/app.rs:184-196 | For any stored record, a working store, two pieces and a second piece that decodes without padding take the call on to `decrypt` with that record and that key. The answer is then the `Debug` rendering of what `decrypt` returns, or its panic. |
| `App.StoreFailureIsServerError` | src/app.rs:185-186 | A failed open, or a failed read, gives the server error holding that call's error text, whatever the token. |
| `App.MissingSeparatorPanics` | src/app.rs:184-191 | A token without `::` that names a stored record panics at `v[1]`. |
| `App.UndecodableKeyTextPanics` | src/app.rs:191 | When the record exists and the second piece does not decode as unpadded base 64, `unwrap` panics. |
| `App.DecryptEnvelope` | src/app.rs:26-38 | Corrected definition, not the source's: `decrypt` with the nonce taken from the envelope's first 12 bytes. A key that is not 32 bytes panics. |
| `App.GetSecretFixed` | src/app.rs:182-197 | Corrected definition, not the source's: `get_secret` with `App.DecryptEnvelope`. It has the same error and `"not found"` outcomes as `App.GetSecret`. |
| `App.SavedTokenParses` | src/app.rs:171-173 | A hyphenated UUID and the unpadded key text split back out of the token. The key text is 43 symbols with no `=`, and it decodes to the key. |
| `App.MissingRecordReportsNotFound` | src/app.rs:184-190 | The answer is plain text exactly when the store works and has no record under the first piece. The answer is then `"not found"`, whatever the cipher, the rest of the token and the nonce. |
| `App.DecryptReturnsPlaintextOrErrorText` | src/app.rs:26-38 | `decrypt` never returns an error. A failed opening yields the text `aead::Error`. A successful one yields the text whose UTF-8 bytes are the plaintext. It panics exactly when the plaintext is not UTF-8. |
| `App.RevealDecryptsStoredEnvelope` | src/app.rs:182-197 | After a save, revealing the returned token decodes the generated key and decrypts exactly the stored envelope. |
| `App.RevealNeverRecoversSecret` | src/app.rs:26-38 | For any ideal AEAD, revealing a saved secret as written never answers with that secret, unless the secret is `aead::Error`. |
| `App.DecryptEnvelopeRoundTrip` | src/app.rs:19-22 | Splitting the envelope at the 12-byte nonce and opening the rest under it gives the sealed text back. |
| `App.RevealAfterSaveFixed` | src/app.rs:166-197 | With that decryption, revealing the token `save_secret` returned answers with the saved secret. |
| `AppGetSecret.GetSecret` | src/app/getsecret.rs:97-128 | A text comes back only when the token has two pieces and the first names a stored record. A store error is returned only when the store fails. The lemmas on the rows below state its outcomes. |
| `AppGetSecret.TextOf` | src/app/getsecret.rs:127 | Valid UTF-8 becomes the text whose bytes it is. Anything else becomes "Invalid UTF-8". |
| `AppGetSecret.RevealRoundTrip` | src/app/getsecret.rs:97-128 | Suppose the record was sealed under its own nonce with the key that the padded token carries. Then revealing answers with the secret. |
| `AppGetSecret.NotFoundExactlyWhenAbsent` | src/app/getsecret.rs:103-108 | The answer is "Secret not found" exactly when the store works and has no record under the token's first piece. |
| `AppGetSecret.NotFoundPrecedesKeyDecoding` | src/app/getsecret.rs:103-112 | Two tokens with the same absent first piece get "Secret not found", whatever their key texts. |
| `AppGetSecret.KeyDecodeFailurePrecedesDecryption` | src/app/getsecret.rs:110-112 | A key text that does not decode gives "Failed to decode key", whatever the cipher. |
| `AppGetSecret.UnpaddedKeyTextRejected` | src/app/getsecret.rs:110-112 | The 43-symbol unpadded key text that src/app.rs writes is rejected here with "Failed to decode key". |
| `AppGetSecret.MissingSeparatorPanics` | src/app/getsecret.rs:99-111 | When a token without `::` names an existing record, indexing `v[1]` panics. |
| `AppGetSecret.NonceComesFromRecord` | src/app/getsecret.rs:114-125 | The answer depends on the cipher only through opening the record's bytes under the record's nonce and the decoded key. A failed opening is reported as "Decryption failed". |
| `AppGetSecret.WrongLengthsPanic` | src/app/getsecret.rs:114-119 | A decoded key that is not 32 bytes, or a stored nonce that is not 12, panics. |
| `AppGetSecret.Utf8Fallback` | src/app/getsecret.rs:127 | The answer is "Invalid UTF-8" exactly when the plaintext is not UTF-8 or is the UTF-8 of that very text. Any other answer's UTF-8 bytes are the plaintext. |
| `AppGetSecret.StoreFailuresReported` | src/app/getsecret.rs:100-105 | A failed open is reported as a failed open, with its error text. A failed read after a good open is reported as a failed read, with its error text. |
| `AppGetSecret.OpenedRecordAnswersText` | src/app/getsecret.rs:110-127 | For any stored record, once the key text decodes to 32 bytes, the record's nonce is 12 bytes and the record opens, the answer is the opened bytes as text: the text they encode, or "Invalid UTF-8". |
| `Crypto.ChosenIv` | src/crypto.rs:11-12 | The random IV is used when the given one is empty, and the given one otherwise. |
| `Crypto.EncryptText` | src/crypto.rs:9-25 | The given IV is used, or the random one when the given IV is empty. The output is that IV followed by the ciphertext, 16 bytes longer than the ciphertext. It panics exactly when the key is not 32 bytes or the IV not 16. For a correct cipher, `decrypt_text` gives the plaintext back. |
| `Crypto.DecryptText` | src/crypto.rs:27-43 | Fewer than 16 bytes panic at the slice. A key that is not 32 bytes panics at the cipher set-up. |
| `Crypto.DecryptTextOutcomes` | src/crypto.rs:27-43 | With a valid key and at least 16 bytes, the call returns the error "Decryption failed" exactly when the cipher fails, and never panics. |
| `Crypto.DecryptTextIsLossy` | src/crypto.rs:39-41 | A decrypted plaintext is always `Ok`. Well-formed UTF-8 gives the text it encodes. Ill-formed bytes give a text containing U+FFFD. |
| `Crypto.FramingRoundTrip` | src/crypto.rs:21-30 | Decrypting `iv ‖ ciphertext` hands the cipher exactly that IV and that ciphertext. |
| `Token.Make` | src/app.rs:173 | The token is the id, then `::` at position `|id|`, then the key text. |
| `Token.Split` | src/app.rs:184 | `split("::")` always yields at least one piece. `Token.SplitLeftmost`, `Token.JoinSplit`, `Token.SplitSingle` and `Token.SplitMake` state the rest. |
| `Token.SplitLeftmost` | src/app.rs:184 | The separator is taken leftmost first. No `::` starts inside the first piece. When there is a second piece, a `::` starts right after the first piece and the remaining pieces are the split of the rest. With one piece, that piece is the whole text. |
| `Token.JoinSplit` | src/app.rs:184 | Joining the pieces of `split("::")` with `::` gives the token back. |
| `Token.SplitSingle` | src/app/getsecret.rs:99 | A text splits into one piece exactly when it contains no `::`, and that piece is the text itself. |
| `Token.SplitPiecesHaveNoSeparator` | src/app.rs:184 | No piece of `split("::")` contains `::`, and the first piece is a prefix of the text. |
| `Token.SplitMake` | src/app.rs:173 | When neither part contains `:`, `id::keyText` splits into exactly `[id, keyText]`. |
| `Base64Url.EncodeNoPad` | src/app.rs:172 | The output is `(4n + 2) / 3` symbols of the URL-safe alphabet for `n` bytes. |
| `Base64Url.DecodeNoPad` | src/app.rs:191 | An accepted text never has a length of the form 4k + 1, and it yields `3 * len / 4` bytes. |
| `Base64Url.DecodePadded` | src/app/getsecret.rs:110-112 | Only texts whose length is a multiple of 4 are accepted. |
| `Base64Url.DecodeEncodeNoPad` | src/app.rs:172 | Unpadded decoding undoes unpadded encoding. |
| `Base64Url.EncodeDecodeNoPad` | src/app.rs:191 | Every text the unpadded decoder accepts is the encoding of what it yields. |
| `Base64Url.DecodeEncodePadded` | src/app/getsecret.rs:110-112 | Padded decoding undoes padded encoding. |
| `Base64Url.EncodeDecodePadded` | src/app/getsecret.rs:110-112 | Every text the padded decoder accepts is the padded encoding of what it yields. |
| `Base64Url.PaddedRejectsUnpadded` | src/app/getsecret.rs:110-112 | The padded decoder rejects the unpadded encoding of any length that is not a multiple of 3. |
| `Base64Url.UnpaddedRejectsPadding` | src/app.rs:191 | The unpadded decoder rejects text ending in `=`. |
| `Base64Url.EncodingsAvoidSeparator` | src/app.rs:172-173 | Neither encoding contains `:`. The unpadded one contains no `=`. |
| `Utf8.Encode` | src/app.rs:20 | `as_bytes` yields at least one byte per character. |
| `Utf8.Decode` | src/app.rs:37 | `from_utf8` yields at most one character per byte. |
| `Utf8.DecodeLossy` | src/crypto.rs:40 | `from_utf8_lossy` yields at most one character per byte. |
| `Utf8.DecodeEncode` | src/app.rs:37 | `from_utf8` after `as_bytes` gives the text back. |
| `Utf8.EncodeDecode` | src/app.rs:37 | A byte string that `from_utf8` accepts is exactly the encoding of the text it yields. |
| `Utf8.LossyAgrees` | src/crypto.rs:40 | `from_utf8_lossy` agrees with `from_utf8` on well-formed bytes. |
| `Utf8.LossyMarksRejected` | src/crypto.rs:40 | The result of `from_utf8_lossy` contains U+FFFD whenever `from_utf8` rejects the bytes. |
| `Store.KeyValueStore.Set` | src/app.rs:175-177 | A successful write stores the value at the key and changes nothing else. A failed write changes nothing. |

## Left out

- The ChaCha20-Poly1305 and AES-256-CBC primitives and PKCS#7 padding are not
  modelled. The ciphers are uninterpreted functions. The round trips assume
  `Correct`. `App.RevealNeverRecoversSecret` assumes `Ideal`, which
  `Aead.IdealIsSatisfiable` shows can be met.
- `OsRng`, `thread_rng` and `Uuid::new_v4` are inputs. The UUID is only
  required to have the hyphenated version-4 shape.
- The Spin store is a map plus, for each call, an optional error text. Serde
  JSON is not modelled.
  src/app.rs writes the envelope with `set_json`, which stores its JSON text,
  but reads it back with `get`, which returns raw bytes. The model treats that
  store as holding the envelope itself. In src/app/getsecret.rs, a `get_json`
  that cannot parse the record is folded into the read failure.
- `App.SaveSecret`: the model shows that the store gains exactly the envelope and
  that the token is the only place the key text goes. Whether the key's bytes
  can occur inside the cipher output is a property of the primitive and is not
  stated.
- `App.Encrypt`: `cipher.encrypt(..).unwrap()` fails only for plaintexts longer
  than ChaCha20-Poly1305 allows. That panic is not modelled.
- The rendering of `format!("{:?}", value)` (src/app.rs:196) is left out. The
  reply is `Debug(value)`, which keeps it apart from the plain `"not found"`.
- All `println!` logging is left out, as are the Leptos components, routing and
  markup, `spawn_local`, and the hard-coded URL in the UI.
- src/crypto.rs:12 does not type-check as written: `*iv` is an unsized slice
  where a 16-byte array is expected. The model uses the evident meaning: the
  given IV when it is not empty.
- The Spin error values are reduced to their text, which is an input. In
  src/app.rs every store failure is `ServerFnError::ServerError` holding that
  text alone, so a failed open and a failed write with the same text are the
  same error. In src/app/getsecret.rs each message becomes one
  `AppGetSecret.ServerError` tag per failing call. The two store tags carry the
  store error's text. The `: {e}` suffixes of "Failed to decode key" and
  "Decryption failed" are dropped: the base 64 decoder's error text is not
  modelled.

## Findings

| source | as written | input that shows it | evidently intended | confidence | as-written member | corrected member |
|---|---|---|---|---|---|---|
| src/app.rs:26-38 | `decrypt` draws a fresh nonce and opens the whole stored value, nonce prefix included. | Any saved secret other than `aead::Error`, revealed with the token `save_secret` returned, under any ideal AEAD. | Split the stored value at 12 bytes and open the rest under that prefix. A second defect sits on the same path: `set_json` (line 176) stores the JSON text of the envelope, and `get` (line 186) returns that text raw. The model abstracts the store as lossless, so `App.RevealAfterSaveFixed` mends `decrypt` only. | not executed | `App.RevealNeverRecoversSecret` | `App.RevealAfterSaveFixed` |
