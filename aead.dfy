/**
 * ChaCha20-Poly1305 (section 2.8 of RFC 8439) as the library provides it:
 * a 32-byte key, a 12-byte nonce and a 16-byte tag.  The cipher itself is
 * not modelled; it is a pair of functions supplied by the caller, and
 * `Valid` states the properties the chunking protocol relies on.
 */
module Aead {
  import opened Wrappers
  import opened Bytes

  const KeySize: nat := 32
  const NonceSize: nat := 12
  const TagSize: nat := 16

  /** What one call of `Encrypt(nonce, plaintext, ciphertext, tag)` writes into its two output buffers. */
  datatype Sealed = Sealed(ciphertext: seq<Byte>, tag: seq<Byte>)

  /**
   * `seal(key, nonce, plaintext)` and `open(key, nonce, ciphertext, tag)`;
   * `open` returns None where the library throws on a tag mismatch.
   */
  datatype Cipher = Cipher(
    seal: (seq<Byte>, seq<Byte>, seq<Byte>) -> Sealed,
    open: (seq<Byte>, seq<Byte>, seq<Byte>, seq<Byte>) -> Option<seq<Byte>>)
  {
    /**
     * The cipher-text is as long as the plain-text, the tag is 16 bytes,
     * and whatever `open` accepts is as long as the cipher-text: what the
     * library's buffer sizes rely on.
     */
    ghost predicate KeepsLengths() {
      && (forall k, n, p :: |seal(k, n, p).ciphertext| == |p| && |seal(k, n, p).tag| == TagSize)
      && (forall k, n, c, t :: open(k, n, c, t).Some? ==> |open(k, n, c, t).value| == |c|)
    }

    /**
     * The properties of an authenticated cipher the chunking protocol
     * relies on: sealing keeps lengths, opening what was sealed gives back
     * the plain-text, and opening succeeds only on a (cipher-text, tag)
     * pair that sealing produces.
     */
    ghost predicate Valid() {
      && (forall k, n, p :: |seal(k, n, p).ciphertext| == |p| && |seal(k, n, p).tag| == TagSize)
      && (forall k, n, p :: open(k, n, seal(k, n, p).ciphertext, seal(k, n, p).tag) == Some(p))
      && (forall k, n, c, t :: open(k, n, c, t).Some? ==> seal(k, n, open(k, n, c, t).value) == Sealed(c, t))
    }
  }

  /** A valid cipher keeps lengths: whatever `open` accepts has the length of the cipher-text it was given. */
  lemma ValidKeepsLengths(cipher: Cipher)
    requires cipher.Valid()
    ensures cipher.KeepsLengths()
  {
    forall k, n, c, t | cipher.open(k, n, c, t).Some?
      ensures |cipher.open(k, n, c, t).value| == |c|
    {
      var p := cipher.open(k, n, c, t).value;
      assert cipher.seal(k, n, p) == Sealed(c, t);
    }
  }
}
