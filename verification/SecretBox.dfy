/** The local secret box: authenticated encryption whose ciphertext carries its
    16-byte tag at the end. AES-256-GCM (NIST SP 800-38D) is abstract. */
module SecretBox {
  import opened Wrappers

  /** Byte strings; the text encoding is taken to be the identity. */
  type Bytes = string

  const TAG_LENGTH := 16

  /** The cipher: encrypted bytes and tag for a key, nonce, associated data and
      plaintext, and the way back, None when authentication fails. */
  datatype Aead = Aead(
    seal: (Bytes, Bytes, Bytes, Bytes) -> Bytes,
    tag: (Bytes, Bytes, Bytes, Bytes) -> Bytes,
    open: (Bytes, Bytes, Bytes, Bytes, Bytes) -> Option<Bytes>)

  /** Decryption undoes encryption, and tags have their fixed length. */
  ghost predicate Correct(a: Aead) {
    forall key, nonce, aad, plaintext ::
      && |a.tag(key, nonce, aad, plaintext)| == TAG_LENGTH
      && a.open(key, nonce, aad, a.seal(key, nonce, aad, plaintext), a.tag(key, nonce, aad, plaintext)) == Some(plaintext)
  }

  /** Ideal authenticity: nothing sealed under one key and associated data
      opens under another key or other associated data. */
  ghost predicate Binding(a: Aead) {
    forall key, nonce, aad, plaintext, key', aad' ::
      a.open(key', nonce, aad', a.seal(key, nonce, aad, plaintext), a.tag(key, nonce, aad, plaintext)).Some?
      ==> key' == key && aad' == aad
  }

  datatype Payload = Payload(ciphertext: Bytes, nonce: Bytes, keyVersion: int)

  /** A box exists for a master key that decodes to 32 bytes. */
  predicate IsMasterKey(base64: string -> Bytes, masterKey: string) {
    |base64(masterKey)| == 32
  }

  function Encrypt(a: Aead, key: Bytes, keyVersion: int, nonce: Bytes, plaintext: Bytes, aad: Bytes): Payload {
    Payload(a.seal(key, nonce, aad, plaintext) + a.tag(key, nonce, aad, plaintext), nonce, keyVersion)
  }

  function Decrypt(a: Aead, key: Bytes, keyVersion: int, payload: Payload, aad: Bytes): Option<Bytes> {
    var data := payload.ciphertext;
    if payload.keyVersion != keyVersion || |data| < TAG_LENGTH then None
    else
      var n := |data| - TAG_LENGTH;
      a.open(key, payload.nonce, aad, data[..n], data[n..])
  }

  /** What was encrypted decrypts, under the same key version, key and associated data. */
  lemma DecryptOfEncrypt(a: Aead, key: Bytes, keyVersion: int, nonce: Bytes, plaintext: Bytes, aad: Bytes)
    requires Correct(a)
    ensures Decrypt(a, key, keyVersion, Encrypt(a, key, keyVersion, nonce, plaintext, aad), aad) == Some(plaintext)
  {
    Framing(a, key, nonce, plaintext, aad);
  }

  /** The tag is cut off where it was put on. */
  lemma Framing(a: Aead, key: Bytes, nonce: Bytes, plaintext: Bytes, aad: Bytes)
    requires Correct(a)
    ensures var data, n := a.seal(key, nonce, aad, plaintext) + a.tag(key, nonce, aad, plaintext), |a.seal(key, nonce, aad, plaintext)|;
            && |data| == n + TAG_LENGTH
            && data[..n] == a.seal(key, nonce, aad, plaintext)
            && data[n..] == a.tag(key, nonce, aad, plaintext)
  {
  }

  /** A payload decrypts under exactly the key version, key and associated data
      it was encrypted with. */
  lemma DecryptsIff(a: Aead, key: Bytes, version: int, nonce: Bytes, plaintext: Bytes, aad: Bytes,
                    key': Bytes, version': int, aad': Bytes)
    requires Correct(a) && Binding(a)
    ensures Decrypt(a, key', version', Encrypt(a, key, version, nonce, plaintext, aad), aad').Some?
            <==> version' == version && key' == key && aad' == aad
  {
    Framing(a, key, nonce, plaintext, aad);
    DecryptOfEncrypt(a, key, version, nonce, plaintext, aad);
  }
}
