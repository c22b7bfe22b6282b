/** The byte layout of an envelope, `nonce ‖ ciphertext ‖ tag`, and the
    two ways the programs cut it apart. */
module Frame {
  import opened Wrappers
  import opened Bytes
  import opened Aead

  const Overhead: nat := NonceSize + TagSize

  datatype Parts = Parts(nonce: Bytes, ciphertext: Bytes, tag: Bytes)

  /** Concatenation: the server's `Buffer.concat([iv, ct, tag])` and
      CryptoKit's `combined`. */
  function Assemble(p: Parts): (b: Bytes)
    ensures |b| == |p.nonce| + |p.ciphertext| + |p.tag|
    ensures b[..|p.nonce|] == p.nonce
    ensures b[|b| - |p.tag|..] == p.tag
    ensures b[|p.nonce|..|b| - |p.tag|] == p.ciphertext
  {
    p.nonce + p.ciphertext + p.tag
  }

  /** The server's cut at fixed offsets, `slice(0, 12)`, `slice(-16)` and
      `slice(12, -16)`. It never fails: short input yields short parts. */
  function ServerSplit(b: Bytes): (p: Parts)
    ensures |b| >= NonceSize ==> |p.nonce| == NonceSize
    ensures |b| >= TagSize ==> |p.tag| == TagSize
    ensures |b| < Overhead ==> p.ciphertext == []
  {
    var n := |b|;
    assert Clamp(n, n) == n;
    assert Clamp(-16, n) == (if n >= 16 then n - 16 else 0);
    assert Clamp(12, n) == (if n >= 12 then 12 else n);
    Parts(Slice(b, 0, 12), Slice(b, 12, -16), Slice(b, -16, n))
  }

  /** CryptoKit's `SealedBox(combined:)`, which throws on input shorter
      than a nonce and a tag. */
  function CombinedSplit(b: Bytes): (r: Option<Parts>)
    ensures r.Some? <==> |b| >= Overhead
    ensures r.Some? ==> |r.value.nonce| == NonceSize && |r.value.tag| == TagSize
    ensures r.Some? ==> Assemble(r.value) == b
  {
    if |b| < Overhead then None
    else
      var p := Parts(b[..NonceSize], b[NonceSize..|b| - TagSize], b[|b| - TagSize..]);
      assert Assemble(p) == b;
      Some(p)
  }

  /** Both cuts take apart exactly what was put together, whatever the
      ciphertext length. */
  lemma SplitAssemble(p: Parts)
    requires |p.nonce| == NonceSize && |p.tag| == TagSize
    ensures ServerSplit(Assemble(p)) == p
    ensures CombinedSplit(Assemble(p)) == Some(p)
  {
    var b := Assemble(p);
    var n := |b|;
    assert b[..12] == p.nonce;
    assert b[n - 16..] == p.tag;
    assert b[12..n - 16] == p.ciphertext;
  }

  /** On input long enough for both, the server and the client cut at the
      same places. */
  lemma SplitsAgree(b: Bytes)
    requires |b| >= Overhead
    ensures CombinedSplit(b) == Some(ServerSplit(b))
    ensures Assemble(ServerSplit(b)) == b
  {
    var p := CombinedSplit(b).value;
    SplitAssemble(p);
  }

  /** A sealed envelope: the nonce, the ciphertext, the tag. With a good
      key and a 12-byte nonce it is 28 bytes longer than the plaintext. */
  function Seal(c: Cipher, key: Bytes, nonce: Bytes, plaintext: Bytes): (b: Bytes)
    ensures |nonce| <= |b| && b[..|nonce|] == nonce
    ensures Correct(c) && KeySizeOk(key) && |nonce| == NonceSize ==> |b| == |plaintext| + Overhead
  {
    Assemble(Parts(nonce, c.encrypt(key, nonce, plaintext), c.tag(key, nonce, plaintext)))
  }

  /** The server's `decipher` over its cut. Under idealised integrity it
      accepts only genuine envelopes: whatever it opens, the frame's
      ciphertext and tag are the sealing of that plaintext under the nonce
      the frame carries. */
  function ServerOpen(c: Cipher, key: Bytes, frame: Bytes): (r: Option<Bytes>)
    ensures Integrity(c) && r.Some? ==>
      var p := ServerSplit(frame);
      p.ciphertext == c.encrypt(key, p.nonce, r.value) && p.tag == c.tag(key, p.nonce, r.value)
  {
    var p := ServerSplit(frame);
    c.open(key, p.nonce, p.ciphertext, p.tag)
  }

  /** A sealed envelope is 28 bytes longer than its plaintext and opens to
      it on either side. */
  lemma SealOpen(c: Cipher, key: Bytes, nonce: Bytes, plaintext: Bytes)
    requires Correct(c) && KeySizeOk(key) && |nonce| == NonceSize
    ensures |Seal(c, key, nonce, plaintext)| == |plaintext| + Overhead
    ensures ServerOpen(c, key, Seal(c, key, nonce, plaintext)) == Some(plaintext)
    ensures CombinedSplit(Seal(c, key, nonce, plaintext)).Some?
    ensures var p := CombinedSplit(Seal(c, key, nonce, plaintext)).value;
      c.open(key, p.nonce, p.ciphertext, p.tag) == Some(plaintext)
  {
    var p := Parts(nonce, c.encrypt(key, nonce, plaintext), c.tag(key, nonce, plaintext));
    SplitAssemble(p);
  }

  /** A frame shorter than nonce and tag can only open to the empty
      plaintext, whose ciphertext is empty. */
  lemma ShortFrameOpensEmpty(c: Cipher, key: Bytes, frame: Bytes)
    requires Correct(c) && Integrity(c) && KeySizeOk(key)
    requires |frame| < Overhead
    requires ServerOpen(c, key, frame).Some?
    ensures ServerOpen(c, key, frame) == Some([])
  {
    var p := ServerSplit(frame);
    var m := ServerOpen(c, key, frame).value;
    assert p.ciphertext == [] && p.ciphertext == c.encrypt(key, p.nonce, m);
    assert |c.encrypt(key, p.nonce, m)| == |m|;
  }
}
