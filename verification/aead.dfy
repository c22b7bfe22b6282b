/** AES-GCM as an abstract authenticated cipher (NIST SP 800-38D): a
    96-bit nonce, a 128-bit tag, and a ciphertext as long as the
    plaintext (section 5.2.1). Its internals are library code; the model
    keeps only the properties below. */
module Aead {
  import opened Wrappers
  import opened Bytes

  const NonceSize: nat := 12
  const TagSize: nat := 16

  /** A nonce as both sides draw it: `crypto.randomBytes(12)` and
      `AES.GCM.Nonce()`. The randomness itself is an input of the model. */
  type Nonce = n: Bytes | |n| == 12 witness seq(12, _ => 0)

  /** `encrypt(key, nonce, plaintext)`, `tag(key, nonce, plaintext)` and
      `open(key, nonce, ciphertext, tag)`, the last failing on a tag that
      does not verify. */
  datatype Cipher = Cipher(
    encrypt: (Bytes, Bytes, Bytes) -> Bytes,
    tag: (Bytes, Bytes, Bytes) -> Bytes,
    open: (Bytes, Bytes, Bytes, Bytes) -> Option<Bytes>)

  /** AES takes 128-, 192- and 256-bit keys. */
  predicate KeySizeOk(key: Bytes)
  {
    |key| == 16 || |key| == 24 || |key| == 32
  }

  /** The round trip every AEAD promises, with the GCM sizes. GCM keeps the
      ciphertext as long as the plaintext whatever the nonce length. */
  ghost predicate Correct(c: Cipher)
  {
    && (forall k, n, p | KeySizeOk(k) :: |c.encrypt(k, n, p)| == |p|)
    && (forall k, n, p | KeySizeOk(k) && |n| == NonceSize :: |c.tag(k, n, p)| == TagSize)
    && (forall k, n, p | KeySizeOk(k) && |n| == NonceSize ::
          c.open(k, n, c.encrypt(k, n, p), c.tag(k, n, p)) == Some(p))
  }

  /** The idealised integrity of an AEAD: the only inputs `open` accepts are
      the exact outputs of sealing. A real cipher meets this except with
      negligible probability; the model states it as an assumption, used
      only where named. */
  ghost predicate Integrity(c: Cipher)
  {
    forall k, n, ct, t, p {:trigger c.open(k, n, ct, t), c.encrypt(k, n, p)} ::
      c.open(k, n, ct, t) == Some(p) ==> ct == c.encrypt(k, n, p) && t == c.tag(k, n, p)
  }
}
