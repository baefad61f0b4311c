/** The ChaCha20-Poly1305 AEAD cipher of section 2.8 of RFC 8439 as the code
    calls it: `encrypt(nonce, plaintext)` and `decrypt(nonce, ciphertext)` on a
    cipher built from a 32-byte key, with no associated data. The primitive is
    not modelled: a cipher is any pair of total functions, and what the proofs
    need of it is stated as a predicate. */
module Aead {
  import opened Prelude

  const KeyLen: nat := 32
  const NonceLen: nat := 12
  /** Size of the Poly1305 tag appended to every ciphertext. */
  const TagLen: nat := 16

  /** `seal(key, nonce, plaintext)` is what `encrypt` returns (ciphertext then
      tag); `open(key, nonce, ciphertext)` is `decrypt`, `None` when the tag does
      not verify. */
  datatype Cipher = Cipher(
    seal: (seq<byte>, seq<byte>, seq<byte>) -> seq<byte>,
    open: (seq<byte>, seq<byte>, seq<byte>) -> Option<seq<byte>>)

  /** Opening under the key and nonce that sealed a plaintext gives it back. */
  ghost predicate Correct(c: Cipher) {
    forall key, nonce, p :: |key| == KeyLen && |nonce| == NonceLen ==>
      c.open(key, nonce, c.seal(key, nonce, p)) == Some(p)
  }

  /** The ideal AEAD: correct, opening succeeds only on what `seal` produced
      under the same key and nonce, and the output is the plaintext's length
      plus the tag. */
  ghost predicate Ideal(c: Cipher) {
    && Correct(c)
    && (forall key, nonce, ct, p :: |key| == KeyLen && |nonce| == NonceLen && c.open(key, nonce, ct) == Some(p) ==>
          ct == c.seal(key, nonce, p))
    && (forall key, nonce, p :: |key| == KeyLen && |nonce| == NonceLen ==> |c.seal(key, nonce, p)| == |p| + TagLen)
  }

  /** A cipher that appends a fixed tag meets `Ideal`, so the assumption can be
      met. */
  lemma IdealIsSatisfiable()
    ensures exists c :: Ideal(c)
  {
    var tag: seq<byte> := seq(TagLen, _ => 0);
    var c := Cipher(
      (key: seq<byte>, nonce: seq<byte>, p: seq<byte>) => p + tag,
      (key: seq<byte>, nonce: seq<byte>, ct: seq<byte>) =>
        if |ct| >= TagLen && ct[|ct| - TagLen..] == tag then Some(ct[..|ct| - TagLen]) else None);
    forall key, nonce, p | |key| == KeyLen && |nonce| == NonceLen
      ensures c.open(key, nonce, c.seal(key, nonce, p)) == Some(p)
    {
      var ct := p + tag;
      assert ct[|ct| - TagLen..] == tag && ct[..|ct| - TagLen] == p;
    }
    forall key, nonce, ct, p | |key| == KeyLen && |nonce| == NonceLen && c.open(key, nonce, ct) == Some(p)
      ensures ct == c.seal(key, nonce, p)
    {
      assert ct == ct[..|ct| - TagLen] + ct[|ct| - TagLen..];
    }
    assert Ideal(c);
  }
}
