/** The server's envelope middleware (secure-notes-server/server.js):
    `decryptBody` replaces an enveloped request body by the JSON it carries,
    and `encryptResponse` wraps every later `res.json` body in a fresh
    envelope. */
module Envelope {
  import opened Wrappers
  import opened Bytes
  import opened Json
  import opened Aead
  import opened Frame
  import Base64

  /** `Buffer.from(ENCRYPTION_KEY, 'utf8')`, which `aes-256-gcm` needs to be
      32 bytes long. */
  type ServerKey = k: Bytes | |k| == 32 witness seq(32, _ => 0)

  /** What `decryptBody` does with a request. */
  datatype Inbound =
    | PassThrough          // no truthy `data`: `next()` with the body untouched
    | Decrypted(body: Json) // `req.body` replaced, then `next()`
    | Rejected             // 400 `{error: 'Invalid encrypted data'}`, no `next()`

  const InvalidEncryptedData: string := "Invalid encrypted data"

  /** The body field holding an envelope. */
  const DataKey: string := "data"

  /** True when `req.body.data` is falsy, so that `decryptBody` skips the
      body. */
  predicate NoEnvelope(body: Json)
  {
    Get(body, DataKey).None? || !Truthy(Get(body, DataKey).value)
  }

  /** The plaintext bytes an envelope string opens to on the server: Node's
      lenient base 64, the fixed-offset cut, GCM with the tag check. */
  function OpenEnvelope(c: Cipher, key: ServerKey, data: string): Option<Bytes>
  {
    ServerOpen(c, key, Base64.NodeDecode(data))
  }

  /** `decryptBody`. Any exception in its `try` block (a `data` that is not
      a string, a tag that does not verify, plaintext that is not JSON)
      rejects the request. */
  function DecryptBody(c: Cipher, codec: Codec, key: ServerKey, body: Json): (r: Inbound)
    ensures r.PassThrough? <==> NoEnvelope(body)
    ensures r.Decrypted? ==>
      && Get(body, DataKey).value.JStr?
      && OpenEnvelope(c, key, Get(body, DataKey).value.s).Some?
      && codec.parse(OpenEnvelope(c, key, Get(body, DataKey).value.s).value) == Some(r.body)
    ensures r.Rejected? <==>
      && !NoEnvelope(body)
      && (|| !Get(body, DataKey).value.JStr?
          || OpenEnvelope(c, key, Get(body, DataKey).value.s).None?
          || codec.parse(OpenEnvelope(c, key, Get(body, DataKey).value.s).value).None?)
  {
    if NoEnvelope(body) then PassThrough
    else match Get(body, DataKey).value
      case JStr(data) =>
        (match OpenEnvelope(c, key, data)
         case None => Rejected
         case Some(plaintext) =>
           match codec.parse(plaintext)
           case None => Rejected
           case Some(j) => Decrypted(j))
      case _ => Rejected
  }

  /** The replacement `res.json`: serialise, encrypt under a fresh IV
      (emitted as base 64 by the cipher and decoded again), append the tag,
      and send `{data: base64(iv ‖ ciphertext ‖ tag)}`. */
  function EnvelopeBody(c: Cipher, codec: Codec, key: ServerKey, iv: Nonce, body: Json): (r: Json)
    ensures Get(r, DataKey).Some? && Get(r, DataKey).value.JStr?
    ensures r.JObj? && r.fields.Keys == {DataKey}
  {
    var plaintext := codec.serialize(body);
    var encrypted := Base64.Encode(c.encrypt(key, iv, plaintext));
    var frame := Assemble(Parts(iv, Base64.NodeDecode(encrypted), c.tag(key, iv, plaintext)));
    Single(DataKey, JStr(Base64.Encode(frame)))
  }

  /** An envelope the server sends is the base 64 of a sealed frame that
      starts with the IV it was given, and opens on the server again to the
      body's serialisation. */
  lemma EnvelopeBodySealed(c: Cipher, codec: Codec, key: ServerKey, iv: Nonce, body: Json)
    requires Correct(c)
    ensures var data := Get(EnvelopeBody(c, codec, key, iv, body), DataKey).value.s;
      && Base64.Decode(data) == Some(Seal(c, key, iv, codec.serialize(body)))
      && Base64.Canonical(data)
      && ServerSplit(Seal(c, key, iv, codec.serialize(body))).nonce == iv
      && OpenEnvelope(c, key, data) == Some(codec.serialize(body))
  {
    var plaintext := codec.serialize(body);
    var ct := c.encrypt(key, iv, plaintext);
    Base64.NodeDecodeEncode(ct);
    var frame := Seal(c, key, iv, plaintext);
    Base64.DecodeEncode(frame);
    Base64.EncodeCanonical(frame);
    Base64.NodeDecodeEncode(frame);
    SealOpen(c, key, iv, plaintext);
    SplitAssemble(Parts(iv, ct, c.tag(key, iv, plaintext)));
  }

  /** Round trip through the middleware: a body the server itself enveloped
      comes back through `decryptBody` as exactly that body. */
  lemma DecryptEnvelopeBody(c: Cipher, codec: Codec, key: ServerKey, iv: Nonce, body: Json)
    requires Correct(c) && Sound(codec)
    ensures DecryptBody(c, codec, key, EnvelopeBody(c, codec, key, iv, body)) == Decrypted(body)
  {
    var r := EnvelopeBody(c, codec, key, iv, body);
    var data := Get(r, DataKey).value.s;
    EnvelopeBodySealed(c, codec, key, iv, body);
    SealOpen(c, key, iv, codec.serialize(body));
    Base64.EncodeLength(Seal(c, key, iv, codec.serialize(body)));
    assert data != "";
  }

  /** Under idealised integrity no frame shorter than nonce and tag gets
      through: its plaintext would be empty, and the empty text is not JSON.
      The server checks no length itself; the tag check and the parser do
      it for it. */
  lemma ShortEnvelopeRejected(c: Cipher, codec: Codec, key: ServerKey, body: Json)
    requires Correct(c) && Integrity(c) && Sound(codec)
    requires !NoEnvelope(body) && Get(body, DataKey).value.JStr?
    requires |Base64.NodeDecode(Get(body, DataKey).value.s)| < Overhead
    ensures DecryptBody(c, codec, key, body) == Rejected
  {
    var frame := Base64.NodeDecode(Get(body, DataKey).value.s);
    if ServerOpen(c, key, frame).Some? {
      ShortFrameOpensEmpty(c, key, frame);
    }
  }
}
