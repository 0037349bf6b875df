/**
 * Library code the vault calls: the AEAD, HMAC, the KDFs, UTF-8 validation and JSON parsing.
 * All are deterministic functions; randomness and locked memory are arguments of the operations.
 */
module Externals {
  import opened Binary
  import opened Constants
  import opened LegacyIndexes
  import opened Results
  import opened VaultHeaders

  type Key = k: Bytes | |k| == KEY_LEN witness Zeros(32)
  type Nonce = n: Bytes | |n| == NONCE_LEN witness Zeros(24)

  datatype KdfVariant = Argon2i | Argon2id
  datatype SubkeyInfo = EncryptionSubkey | HmacSubkey

  datatype Library = Library(
    seal: (Key, Nonce, Bytes, Bytes) -> Option<Bytes>,
    open: (Key, Nonce, Bytes, Bytes) -> Option<Bytes>,
    hmac: (Key, Bytes) -> Option<Key>,
    kdf: (KdfVariant, Bytes, Salt, u32, u32) -> Option<Key>,
    hkdf: (Salt, Key, SubkeyInfo) -> Option<Key>,
    utf8: Bytes -> bool,
    parseHeader: Bytes -> Option<VaultHeader>,
    parseIndexV1: Bytes -> Option<LegacyIndex>)
  {
    /** `seal_with_aad`. */
    function Seal(key: Key, nonce: Nonce, plaintext: Bytes, aad: Bytes): Result<Bytes> {
      seal(key, nonce, plaintext, aad).OkOr(CryptoError(Aead))
    }

    /** `open_with_aad`. */
    function Open(key: Key, nonce: Nonce, ciphertext: Bytes, aad: Bytes): Result<Bytes> {
      if |ciphertext| < TAG_LEN then Err(CryptoError(Aead))
      else open(key, nonce, ciphertext, aad).OkOr(CryptoError(Aead))
    }

    /** Sealing succeeds on every admissible plaintext, adds a tag, and opening undoes it. */
    ghost predicate SealLaw() {
      forall k: Key, n: Nonce, p: Bytes, a: Bytes :: |p| <= AEAD_MAX_PLAINTEXT ==>
        && Seal(k, n, p, a).Ok?
        && |Seal(k, n, p, a).value| == |p| + TAG_LEN
        && Open(k, n, Seal(k, n, p, a).value, a) == Ok(p)
    }

    /** An opened ciphertext is a tag longer than its plaintext. */
    ghost predicate OpenLaw() {
      forall k: Key, n: Nonce, c: Bytes, a: Bytes ::
        Open(k, n, c, a).Ok? ==> |c| == |Open(k, n, c, a).value| + TAG_LEN
    }

    /** The JSON parser reads back what the JSON printer wrote. */
    ghost predicate HeaderLaw() {
      forall h: VaultHeader :: parseHeader(PrintHeader(h)) == Some(h)
    }

    ghost predicate Lawful() {
      SealLaw() && OpenLaw() && HeaderLaw()
    }
  }

  /** A name of fewer than 32 bytes, padded, and its length; one value for all longer names. */
  function ToyTag(name: Bytes): Key {
    if |name| < KEY_LEN then name + Zeros(KEY_LEN - 1 - |name|) + [|name| as byte] else Zeros(KEY_LEN)
  }

  /** A library that keeps no secret but obeys every law; its HMAC tells short names apart, and only those. */
  function ToyLibrary(): Library {
    Library(
      (k: Key, n: Nonce, p: Bytes, a: Bytes) => Some(p + Zeros(TAG_LEN)),
      (k: Key, n: Nonce, c: Bytes, a: Bytes) => if |c| < TAG_LEN then None else Some(c[..|c| - TAG_LEN]),
      (k: Key, m: Bytes) => Some(ToyTag(m)),
      (v: KdfVariant, p: Bytes, s: Salt, t: u32, m: u32) => Some(Zeros(KEY_LEN)),
      (s: Salt, k: Key, i: SubkeyInfo) => Some(k),
      (b: Bytes) => true,
      (b: Bytes) => ParseCanonical(b),
      (b: Bytes) => None)
  }

  /** The laws can be met. */
  lemma LawsConsistent()
    ensures ToyLibrary().Lawful()
  {
    var lib := ToyLibrary();
    forall k: Key, n: Nonce, p: Bytes, a: Bytes
      ensures lib.Seal(k, n, p, a).Ok? && |lib.Seal(k, n, p, a).value| == |p| + TAG_LEN
      ensures lib.Open(k, n, lib.Seal(k, n, p, a).value, a) == Ok(p)
    {
      assert (p + Zeros(TAG_LEN))[..|p|] == p;
    }
    forall h: VaultHeader ensures lib.parseHeader(PrintHeader(h)) == Some(h) {
      CanonicalExact(PrintHeader(h), h);
    }
  }
}
