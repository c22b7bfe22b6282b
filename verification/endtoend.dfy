/** How the client of SecureRequest/Networking/NetworkManager.swift and
    the server of secure-notes-server/server.js fit together when they
    share the key of SecureRequest/Utilities/Constants.swift. */
module EndToEnd {
  import opened Wrappers
  import opened Bytes
  import opened Json
  import opened Aead
  import opened Frame
  import opened Envelope
  import opened Auth
  import opened NoteStore
  import opened Server
  import Base64
  import Client
  import ClientNote

  /** The body of a client request, sealed under the server's key, reaches
      `decryptBody` and comes out as exactly the object the client built. */
  lemma ClientBodyDecrypted(c: Cipher, codec: Codec, key: ServerKey, nonce: Nonce, body: map<string, Json>)
    requires Correct(c) && Sound(codec)
    ensures DecryptBody(c, codec, key, Client.SealedRequestBody(c, codec, key, nonce, body)) == Decrypted(JObj(body))
  {
    var plaintext := codec.serialize(JObj(body));
    var frame := Seal(c, key, nonce, plaintext);
    var data := Client.Encrypt(c, key, nonce, plaintext);
    assert data == Base64.Encode(frame) && data != "";
    assert OpenEnvelope(c, key, data) == Some(plaintext) by {
      Base64.NodeDecodeEncode(frame);
      SealOpen(c, key, nonce, plaintext);
    }
    assert codec.parse(plaintext) == Some(JObj(body));
  }

  /** A request the client builds with a body is handled as if the route
      had received that body in the clear, under the client's token. */
  lemma ClientRequestHandled(cfg: Config, m: Client.Manager, urlValid: string -> bool, endpoint: string,
                             httpMethod: string, route: Route, body: map<string, Json>, nonce: Nonce,
                             s: Store, iv: Nonce, now: string)
    requires Correct(cfg.cipher) && Sound(cfg.codec) && Valid(s)
    ensures var built := Client.BuildRequest(m, urlValid, endpoint, httpMethod, Some(body), cfg.cipher, cfg.codec, cfg.key, nonce);
      built.Ok? ==>
      var out := built.value;
      var req := Request(route, out.authorization, out.body.value);
      && out.authorization == m.token
      && Handle(cfg, req, s, iv, now) == Enveloped(cfg, iv, Respond(cfg, req, JObj(body), s, now))
  {
    ClientBodyDecrypted(cfg.cipher, cfg.codec, cfg.key, nonce, body);
  }

  /** When the client's key has the wrong size, `encrypt` yields `""`, which
      `decryptBody` treats as no envelope: the body `{"data": ""}` passes
      through to the route in the clear. */
  lemma BadClientKeyPassesThrough(c: Cipher, codec: Codec, serverKey: ServerKey, clientKey: Bytes,
                                  nonce: Nonce, body: map<string, Json>)
    requires !KeySizeOk(clientKey)
    ensures var sent := Client.SealedRequestBody(c, codec, clientKey, nonce, body);
      && sent == JObj(map["data" := JStr("")])
      && DecryptBody(c, codec, serverKey, sent) == PassThrough
  {
  }

  /** Every enveloped server answer is accepted by the client: it never
      crashes on one, and it decodes the clear-text reply the route
      produced. */
  lemma ServerReplyAccepted<T>(c: Cipher, codec: Codec, key: ServerKey, iv: Nonce, reply: Json,
                               decode: Json -> Option<T>)
    requires Correct(c) && Sound(codec)
    ensures var d := Client.Received(codec.serialize(EnvelopeBody(c, codec, key, iv, reply)));
      && Client.ProcessAsWritten(c, codec, key, decode, d) != Client.Trap
      && (decode(reply).Some? ==> Client.Process(c, codec, key, decode, d) == Ok(decode(reply).value))
      && (decode(reply).None? ==> Client.Process(c, codec, key, decode, d) == Err(Client.Undecodable))
  {
    var envelope := EnvelopeBody(c, codec, key, iv, reply);
    var data := Get(envelope, DataKey).value.s;
    var plaintext := codec.serialize(reply);
    EnvelopeBodySealed(c, codec, key, iv, reply);
    SealOpen(c, key, iv, plaintext);
    assert Client.EnvelopeData(envelope) == Some(data);
    assert Client.Decrypt(c, key, data) == Ok(plaintext);
    Client.ProcessAgrees(c, codec, key, decode, Client.Received(codec.serialize(envelope)));
  }

  /** The clear 400 answer to a rejected envelope has no `data` field, so
      the client reports "Failed to decrypt response". */
  lemma RejectionUnreadable<T>(c: Cipher, codec: Codec, key: Bytes, decode: Json -> Option<T>)
    requires Sound(codec)
    ensures var d := Client.Received(codec.serialize(ErrorBody(InvalidEncryptedData)));
      Client.Process(c, codec, key, decode, d) == Err(Client.FailedToDecrypt)
  {
  }

  /** A client without a token, or with an empty one, is refused by
      `verifyToken` with 403. */
  lemma NoTokenRefused(verify: Verifier, m: Client.Manager)
    requires m.token.None? || m.token == Some("")
    ensures Authenticate(verify, m.token) == NoToken
  {
  }

  /** A row the server sends decodes as the client's `Note`, as long as
      its title and content are text and its ids fit in `Int`. A row whose
      title is NULL, which the POST route writes when the body has no
      title and the table allows it, is one the client cannot decode. */
  lemma RowDecodes(row: Row)
    requires ClientNote.FitsInt(row.id) && ClientNote.FitsInt(row.userId)
    ensures row.title.JStr? && row.content.JStr? ==>
      ClientNote.DecodeNote(RowJson(row)) ==
        Ok(ClientNote.Note(row.id, Some(row.userId), row.title.s, row.content.s,
                           Some(row.createdAt), Some(row.updatedAt)))
    ensures row.title.JNull? ==> ClientNote.DecodeNote(RowJson(row)) == Err(ClientNote.ValueNotFound("title"))
  {
  }
}
