/** The client's `NetworkManager` (SecureRequest/Networking/NetworkManager.swift):
    the token it keeps, `encrypt` and `decrypt`, the request `request`
    builds and what it makes of the response. */
module Client {
  import opened Wrappers
  import opened Bytes
  import opened Json
  import opened Aead
  import opened Frame
  import Base64

  /** The manager's state: the base URL (`Constants.baseURL`) and the
      token, if one was set. */
  datatype Manager = Manager(baseUrl: string, token: Option<string>)

  /** `setToken` replaces whatever token was held. */
  function SetToken(m: Manager, token: string): (r: Manager)
    ensures r.token == Some(token) && r.baseUrl == m.baseUrl
  {
    m.(token := Some(token))
  }

  /** Why a request fails, one case per `completion(.failure(...))`. */
  datatype Failure =
    | InvalidUrl              // `URL(string:)` returned nil
    | TransportError          // the data task reported an error
    | NoData                  // no data received
    | NotJson                 // `JSONSerialization` or `JSONDecoder` could not parse
    | FailedToDecrypt         // not an object with a string `data`
    | NotBase64               // the corrected `decrypt` refuses a bad `data` string
    | BadFrame                // `SealedBox(combined:)` threw: shorter than nonce and tag
    | OpenFailed              // `AES.GCM.open` threw
    | Undecodable             // `JSONDecoder().decode(T.self, ...)` threw

  /** `encrypt`: base 64 of the `combined` sealed box, nonce ‖ ciphertext ‖
      tag, under a fresh nonce; `""` when sealing throws, which CryptoKit
      does for a key that is not 128, 192 or 256 bits long. */
  function Encrypt(c: Cipher, key: Bytes, nonce: Nonce, plaintext: Bytes): (s: string)
    ensures s == "" <==> !KeySizeOk(key)
    ensures KeySizeOk(key) ==> Base64.Decode(s) == Some(Seal(c, key, nonce, plaintext))
    ensures KeySizeOk(key) ==> Base64.Canonical(s)
  {
    if KeySizeOk(key) then
      var frame := Seal(c, key, nonce, plaintext);
      Base64.DecodeEncode(frame);
      Base64.EncodeCanonical(frame);
      Base64.EncodeLength(frame);
      Base64.Encode(frame)
    else ""
  }

  /** A computation that may also crash the app. */
  datatype Attempt<+T> = Done(value: T) | Failed(failure: Failure) | Trap

  /** The `combined` box cut up and opened; a key of the wrong size makes
      `open` throw. */
  function OpenCombined(c: Cipher, key: Bytes, data: Bytes): (r: Result<Bytes, Failure>)
    ensures r == Err(BadFrame) <==> |data| < Overhead
    ensures r.Ok? ==> KeySizeOk(key) && |data| >= Overhead
    ensures r.Ok? ==>
      var p := CombinedSplit(data).value;
      c.open(key, p.nonce, p.ciphertext, p.tag) == Some(r.value)
    ensures |data| >= Overhead ==>
      var p := CombinedSplit(data).value;
      (r.Ok? <==> KeySizeOk(key) && c.open(key, p.nonce, p.ciphertext, p.tag).Some?)
  {
    match CombinedSplit(data)
    case None => Err(BadFrame)
    case Some(p) =>
      if !KeySizeOk(key) then Err(OpenFailed)
      else match c.open(key, p.nonce, p.ciphertext, p.tag)
        case None => Err(OpenFailed)
        case Some(plaintext) => Ok(plaintext)
  }

  /** `decrypt` as written: `Data(base64Encoded:)!` crashes on a string that
      is not valid base 64. */
  function DecryptAsWritten(c: Cipher, key: Bytes, s: string): (r: Attempt<Bytes>)
    ensures r.Trap? <==> Base64.Decode(s).None?
    ensures Base64.Decode(s).Some? ==>
      match OpenCombined(c, key, Base64.Decode(s).value)
      case Ok(p) => r == Done(p)
      case Err(f) => r == Failed(f)
  {
    match Base64.Decode(s)
    case None => Trap
    case Some(data) =>
      match OpenCombined(c, key, data)
      case Ok(p) => Done(p)
      case Err(f) => Failed(f)
  }

  /** `decrypt` with the unwrap replaced by a thrown error. */
  function Decrypt(c: Cipher, key: Bytes, s: string): (r: Result<Bytes, Failure>)
    ensures r == Err(NotBase64) <==> Base64.Decode(s).None?
    ensures Base64.Decode(s).Some? ==> r == OpenCombined(c, key, Base64.Decode(s).value)
  {
    match Base64.Decode(s)
    case None => Err(NotBase64)
    case Some(data) => OpenCombined(c, key, data)
  }

  /** `decrypt` inverts `encrypt`. */
  lemma DecryptEncrypt(c: Cipher, key: Bytes, nonce: Nonce, plaintext: Bytes)
    requires Correct(c) && KeySizeOk(key)
    ensures Decrypt(c, key, Encrypt(c, key, nonce, plaintext)) == Ok(plaintext)
    ensures DecryptAsWritten(c, key, Encrypt(c, key, nonce, plaintext)) == Done(plaintext)
  {
    SealOpen(c, key, nonce, plaintext);
  }

  // ---- Building the request. ----

  /** What `request` hands to `URLSession`. The HTTP body is JSON. */
  datatype Outgoing = Outgoing(
    url: string,
    httpMethod: string,
    authorization: Option<string>,
    contentType: Option<string>,
    body: Option<Json>)

  const JsonContentType: string := "application/json"

  /** The body sent for a request body: `{"data": encrypt(json(body))}`. */
  function SealedRequestBody(c: Cipher, codec: Codec, key: Bytes, nonce: Nonce, body: map<string, Json>): (j: Json)
    ensures Get(j, "data") == Some(JStr(Encrypt(c, key, nonce, codec.serialize(JObj(body)))))
    ensures j.JObj? && j.fields.Keys == {"data"}
  {
    Single("data", JStr(Encrypt(c, key, nonce, codec.serialize(JObj(body)))))
  }

  /** `request` up to `resume()`. `urlValid` is `URL(string:)` succeeding;
      an invalid URL fails before anything is built or sent. */
  function BuildRequest(m: Manager, urlValid: string -> bool, endpoint: string, httpMethod: string,
                        body: Option<map<string, Json>>, c: Cipher, codec: Codec, key: Bytes, nonce: Nonce)
    : (r: Result<Outgoing, Failure>)
    ensures r.Err? <==> !urlValid(m.baseUrl + endpoint)
    ensures r.Err? ==> r.error == InvalidUrl
    ensures r.Ok? ==> r.value.url == m.baseUrl + endpoint && r.value.httpMethod == httpMethod
    ensures r.Ok? ==> r.value.authorization == m.token
    ensures r.Ok? ==> (r.value.contentType.Some? <==> body.Some?) && (r.value.body.Some? <==> body.Some?)
    ensures r.Ok? && body.Some? ==>
      && r.value.contentType == Some(JsonContentType)
      && r.value.body == Some(SealedRequestBody(c, codec, key, nonce, body.value))
  {
    var url := m.baseUrl + endpoint;
    if !urlValid(url) then Err(InvalidUrl)
    else match body
      case None => Ok(Outgoing(url, httpMethod, m.token, None, None))
      case Some(fields) =>
        Ok(Outgoing(url, httpMethod, m.token, Some(JsonContentType), Some(SealedRequestBody(c, codec, key, nonce, fields))))
  }

  // ---- Processing the response. ----

  /** What the data task's completion handler receives. */
  datatype Delivery = Errored | Nothing | Received(data: Bytes)

  /** `data` when the response is an object with a string `data` field. */
  function EnvelopeData(j: Json): (r: Option<string>)
    ensures r.Some? <==> j.JObj? && "data" in j.fields && j.fields["data"].JStr?
    ensures r.Some? ==> j.fields["data"] == JStr(r.value)
  {
    if j.JObj? && "data" in j.fields && j.fields["data"].JStr? then Some(j.fields["data"].s) else None
  }

  /** The completion handler as written. The status code is never
      consulted; `decode` is `JSONDecoder().decode(T.self, ...)` on the
      parsed plaintext. */
  function ProcessAsWritten<T>(c: Cipher, codec: Codec, key: Bytes, decode: Json -> Option<T>, d: Delivery)
    : (r: Attempt<T>)
    ensures r.Done? ==>
      && d.Received? && codec.parse(d.data).Some? && EnvelopeData(codec.parse(d.data).value).Some?
      && var s := EnvelopeData(codec.parse(d.data).value).value;
         DecryptAsWritten(c, key, s).Done?
         && codec.parse(DecryptAsWritten(c, key, s).value).Some?
         && decode(codec.parse(DecryptAsWritten(c, key, s).value).value) == Some(r.value)
    ensures r.Trap? ==>
      && d.Received? && codec.parse(d.data).Some? && EnvelopeData(codec.parse(d.data).value).Some?
      && Base64.Decode(EnvelopeData(codec.parse(d.data).value).value).None?
  {
    match d
    case Errored => Failed(TransportError)
    case Nothing => Failed(NoData)
    case Received(bytes) =>
      match codec.parse(bytes)
      case None => Failed(NotJson)
      case Some(j) =>
        match EnvelopeData(j)
        case None => Failed(FailedToDecrypt)
        case Some(s) =>
          match DecryptAsWritten(c, key, s)
          case Trap => Trap
          case Failed(f) => Failed(f)
          case Done(plaintext) =>
            match codec.parse(plaintext)
            case None => Failed(NotJson)
            case Some(v) =>
              match decode(v)
              case None => Failed(Undecodable)
              case Some(t) => Done(t)
  }

  /** The completion handler with the corrected `decrypt`: never crashes. */
  function Process<T>(c: Cipher, codec: Codec, key: Bytes, decode: Json -> Option<T>, d: Delivery)
    : (r: Result<T, Failure>)
    ensures r.Ok? <==>
      && d.Received? && codec.parse(d.data).Some? && EnvelopeData(codec.parse(d.data).value).Some?
      && var s := EnvelopeData(codec.parse(d.data).value).value;
         Decrypt(c, key, s).Ok?
         && codec.parse(Decrypt(c, key, s).value).Some?
         && decode(codec.parse(Decrypt(c, key, s).value).value).Some?
    ensures r.Ok? ==>
      var s := EnvelopeData(codec.parse(d.data).value).value;
      decode(codec.parse(Decrypt(c, key, s).value).value) == Some(r.value)
  {
    match d
    case Errored => Err(TransportError)
    case Nothing => Err(NoData)
    case Received(bytes) =>
      match codec.parse(bytes)
      case None => Err(NotJson)
      case Some(j) =>
        match EnvelopeData(j)
        case None => Err(FailedToDecrypt)
        case Some(s) =>
          match Decrypt(c, key, s)
          case Err(f) => Err(f)
          case Ok(plaintext) =>
            match codec.parse(plaintext)
            case None => Err(NotJson)
            case Some(v) =>
              match decode(v)
              case None => Err(Undecodable)
              case Some(t) => Ok(t)
  }

  /** The two handlers agree wherever the original does not crash, and it
      crashes exactly where the corrected one reports `NotBase64`. */
  lemma ProcessAgrees<T>(c: Cipher, codec: Codec, key: Bytes, decode: Json -> Option<T>, d: Delivery)
    ensures var w := ProcessAsWritten(c, codec, key, decode, d);
      var r := Process(c, codec, key, decode, d);
      && (w.Trap? <==> r == Err(NotBase64))
      && (w.Done? ==> r == Ok(w.value))
      && (w.Failed? ==> r == Err(w.failure))
  {
  }

  /** The response `{"data": "!"}` crashes the app as written; corrected, it
      is a failure. */
  lemma BadBase64Crashes<T>(c: Cipher, codec: Codec, key: Bytes, decode: Json -> Option<T>)
    requires Sound(codec)
    ensures var d := Received(codec.serialize(JObj(map["data" := JStr("!")])));
      && ProcessAsWritten(c, codec, key, decode, d) == Trap
      && Process(c, codec, key, decode, d) == Err(NotBase64)
  {
    assert Base64.Decode("!") == None;
  }
}
