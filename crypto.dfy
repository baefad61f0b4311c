/** AES-256-CBC with PKCS#7 padding as src/crypto.rs frames it: `encrypt_text`
    puts the 16-byte IV in front of the ciphertext, `decrypt_text` takes it off
    again and converts the plaintext to text lossily. The block cipher and the
    padding are not modelled: a cipher is a pair of functions, `decrypt_vec`
    returning `None` where the crate reports an error. */
module Crypto {
  import opened Prelude
  import Utf8

  const KeyLen: nat := 32
  const IvLen: nat := 16

  datatype CbcCipher = CbcCipher(
    encryptVec: (seq<byte>, seq<byte>, seq<byte>) -> seq<byte>,
    decryptVec: (seq<byte>, seq<byte>, seq<byte>) -> Option<seq<byte>>)

  /** Decrypting under the key and IV that encrypted a plaintext gives it back. */
  ghost predicate Correct(m: CbcCipher) {
    forall key, iv, p :: |key| == KeyLen && |iv| == IvLen ==>
      m.decryptVec(key, iv, m.encryptVec(key, iv, p)) == Some(p)
  }

  const DecryptionFailedText: string := "Decryption failed"

  /** The IV `encrypt_text` uses: the random one when none is given. */
  function ChosenIv(iv: seq<byte>, randomIv: seq<byte>): (used: seq<byte>)
    ensures |iv| == 0 ==> used == randomIv
    ensures |iv| != 0 ==> used == iv
  {
    if |iv| == 0 then randomIv else iv
  }

  /** `encrypt_text`, with `randomIv` the 16 bytes `thread_rng` drew.
      `Cbc::new_var` rejects a key that is not 32 bytes and an IV that is not
      16, and `expect` then panics. The result starts as the IV and is extended
      by the ciphertext. */
  method EncryptText(m: CbcCipher, key: seq<byte>, iv: seq<byte>, randomIv: seq<byte>, plaintext: string)
    returns (r: Completion<seq<byte>>)
    requires |randomIv| == IvLen
    ensures r.Panic? <==> |key| != KeyLen || |ChosenIv(iv, randomIv)| != IvLen
    ensures r.Return? ==> |r.value| == IvLen + |m.encryptVec(key, ChosenIv(iv, randomIv), Utf8.Encode(plaintext))|
    ensures r.Return? ==> r.value[..IvLen] == ChosenIv(iv, randomIv)
    ensures r.Return? ==> r.value[IvLen..] == m.encryptVec(key, ChosenIv(iv, randomIv), Utf8.Encode(plaintext))
    ensures r.Return? && Correct(m) ==> DecryptText(m, key, r.value) == Return(Ok(plaintext))
  {
    var used := ChosenIv(iv, randomIv);
    if |key| != KeyLen || |used| != IvLen {
      return Panic(UnwrapOnErr);
    }
    var ciphertext := m.encryptVec(key, used, Utf8.Encode(plaintext));
    var result := used;
    result := result + ciphertext;
    assert result[..IvLen] == used && result[IvLen..] == ciphertext;
    Utf8.LossyEncode(plaintext);
    return Return(result);
  }

  /** `decrypt_text`: slicing off the IV panics on fewer than 16 bytes, the
      cipher set-up panics on a key that is not 32 bytes, a failed decryption is
      the error "Decryption failed", and any plaintext is accepted as text. */
  function DecryptText(m: CbcCipher, key: seq<byte>, ciphertext: seq<byte>): (r: Completion<Result<string, string>>)
    ensures |ciphertext| < IvLen ==> r == Panic(SliceOutOfRange)
    ensures |ciphertext| >= IvLen && |key| != KeyLen ==> r == Panic(UnwrapOnErr)
  {
    if |ciphertext| < IvLen then Panic(SliceOutOfRange)
    else
      var iv := ciphertext[..IvLen];
      var body := ciphertext[IvLen..];
      if |key| != KeyLen then Panic(UnwrapOnErr)
      else
        match m.decryptVec(key, iv, body)
        case Some(plain) => Return(Ok(Utf8.DecodeLossy(plain)))
        case None => Return(Err(DecryptionFailedText))
  }

  // ---------------------------------------------------------------------------

  /** With a 32-byte key and at least 16 bytes, `decrypt_text` does not panic;
      it fails exactly when the cipher does, with "Decryption failed", and the
      cipher sees the first 16 bytes as the IV and the rest as the ciphertext. */
  lemma DecryptTextOutcomes(m: CbcCipher, key: seq<byte>, ciphertext: seq<byte>)
    requires |key| == KeyLen && |ciphertext| >= IvLen
    ensures DecryptText(m, key, ciphertext).Return?
    ensures DecryptText(m, key, ciphertext).value.Err? <==> m.decryptVec(key, ciphertext[..IvLen], ciphertext[IvLen..]).None?
    ensures DecryptText(m, key, ciphertext).value.Err? ==> DecryptText(m, key, ciphertext).value.error == DecryptionFailedText
  {
  }

  /** A decrypted plaintext is never rejected: well-formed UTF-8 comes back as
      the text it encodes, and ill-formed bytes as text marked with U+FFFD. */
  lemma DecryptTextIsLossy(m: CbcCipher, key: seq<byte>, ciphertext: seq<byte>)
    requires |key| == KeyLen && |ciphertext| >= IvLen
    requires m.decryptVec(key, ciphertext[..IvLen], ciphertext[IvLen..]).Some?
    ensures var plain := m.decryptVec(key, ciphertext[..IvLen], ciphertext[IvLen..]).value;
      var r := DecryptText(m, key, ciphertext);
      r.Return? && r.value.Ok? &&
      (Utf8.Decode(plain).Some? ==> r.value.value == Utf8.Decode(plain).value) &&
      (Utf8.Decode(plain).None? ==> Utf8.Replacement in r.value.value)
  {
    var plain := m.decryptVec(key, ciphertext[..IvLen], ciphertext[IvLen..]).value;
    if Utf8.Decode(plain).Some? {
      Utf8.LossyAgrees(plain);
    } else {
      Utf8.LossyMarksRejected(plain);
    }
  }

  /** Splitting a framed message at 16 recovers the IV and the ciphertext it
      was built from. */
  lemma FramingRoundTrip(m: CbcCipher, key: seq<byte>, iv: seq<byte>, ciphertext: seq<byte>)
    requires |key| == KeyLen && |iv| == IvLen
    ensures DecryptText(m, key, iv + ciphertext) ==
      match m.decryptVec(key, iv, ciphertext)
      case Some(plain) => Return(Ok(Utf8.DecodeLossy(plain)))
      case None => Return(Err(DecryptionFailedText))
  {
    assert (iv + ciphertext)[..IvLen] == iv && (iv + ciphertext)[IvLen..] == ciphertext;
  }
}
