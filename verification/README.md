# SecureRequest: a Dafny model of the encrypted notes service

SecureRequest is an iOS notes app with an Express server. Every request and
response body travels as `{"data": base64(nonce ‖ ciphertext ‖ tag)}` under
AES-256-GCM with a key shared by both sides. Behind this envelope the server
runs the following per-request pipeline:

1. it decrypts the body or passes it through;
2. it checks the bearer token (`verifyToken`);
3. for the by-id routes, it looks the note up and applies an ownership guard, which the `ALLOW_IDOR` flag can switch off to demonstrate an insecure direct object reference;
4. it runs the note store operation.

This project models that core as pure functions and proves its properties.

| file | module | models |
|---|---|---|
| `wrappers.dfy` | `Wrappers` | `Option` and `Result` |
| `bytes.dfy` | `Bytes` | bytes, and `Buffer#slice` with negative indices |
| `base64.dfy` | `Base64` | the RFC 4648 section 4 alphabet. One encoder serves both sides. There are two decoders: Swift's `Data(base64Encoded:)`, which wants whole padded groups, and Node's lenient `Buffer.from(s, 'base64')`. |
| `json.dfy` | `Json` | JSON values, JavaScript truthiness, and a serialise/parse codec |
| `aead.dfy` | `Aead` | AES-GCM as an abstract authenticated cipher (NIST SP 800-38D): a 12-byte nonce, a 16-byte tag, and ciphertext as long as the plaintext |
| `frame.dfy` | `Frame` | the `nonce ‖ ciphertext ‖ tag` frame: how the server cuts it at fixed offsets, and CryptoKit's `combined` layout |
| `envelope.dfy` | `Envelope` | the server middleware `decryptBody` and `encryptResponse` |
| `auth.dfy` | `Auth` | `verifyToken`, the `ALLOW_IDOR` flag and the guard predicate |
| `store.dfy` | `NoteStore` | the `notes` table as a map from id to row, plus its id sequence; the parameterised queries; reading the `:id` path segment as a PostgreSQL `integer` |
| `server.dfy` | `Server` | the five `/api/notes` routes and the whole request pipeline |
| `clientnote.dfy` | `ClientNote` | the client's `Note`, its `CodingKeys`, `init(from:)` and the synthesised encoding |
| `client.dfy` | `Client` | `NetworkManager`: the token, `encrypt`, `decrypt`, the request it builds, and how it processes a response |
| `endtoend.dfy` | `EndToEnd` | client and server together |

The outside world enters as parameters or as abstract functions:
- **Abstract functions with named predicates.** The cipher is a `Cipher` datatype of functions. Its round trip is the predicate `Correct`, and idealised integrity is the separate predicate `Integrity`. JSON text is a `Codec` whose round trip is the predicate `Sound`. Lemmas take these predicates as `requires`.
- **Parameters.** `jwt.verify` is a function from the token to the user id. The nonce from `crypto.randomBytes(12)` or `AES.GCM.Nonce()`, and the database's `CURRENT_TIMESTAMP`, are inputs.

The model follows the code as written, including these behaviours:
- A token that fails verification is answered with the server-error status 500 `Failed to authenticate token`.
- The 400 `Invalid encrypted data` answer goes out in the clear. `decryptBody` is mounted before `encryptResponse`, so `res.json` is not yet wrapped when that answer is sent.
- A body whose `data` is missing or falsy passes through unchanged. This includes a plaintext body and `{"data": ""}`.
- The server never checks a frame's length. Under `Integrity`, a frame shorter than 28 bytes can only open to the empty plaintext, which the JSON parser rejects (`Envelope.ShortEnvelopeRejected`).

## Model

| member | source | states |
|---|---|---|
| `Bytes.Clamp` | secure-notes-server/server.js:48-50 | A `slice` index is clamped into the buffer. A negative index counts from the end. An index past the end becomes the length, and one before the start becomes 0. |
| `Bytes.Slice` | secure-notes-server/server.js:48-50 | `Buffer#slice` gives the bytes between the clamped bounds, or nothing when the end comes before the start. |
| `Base64.NodeValueOf` | secure-notes-server/server.js:46 | Node's lenient alphabet agrees with the standard one wherever the standard one defines a value. |
| `Base64.Encode` | secure-notes-server/server.js:81-84 | The encoding is empty iff the bytes are. `EncodeAlphabet` and `EncodeLength` state its characters and length, and `DecodeEncode` and `NodeDecodeEncode` show both decoders invert it. |
| `Base64.EncodeAlphabet` | SecureRequest/Networking/NetworkManager.swift:21 | Every character of an encoding is in the standard alphabet or is the padding `=`. |
| `Base64.EncodeCanonical` | SecureRequest/Networking/NetworkManager.swift:21 | An encoding always leaves the unused bits of its final group zero. |
| `Base64.Decode` | SecureRequest/Networking/NetworkManager.swift:29 | An accepted string has a length that is a multiple of four, and it decodes to three bytes per group, less one or two for padding. `DecodeEncode` and `EncodeDecode` relate it to the encoder. |
| `Base64.NodeDecode` | secure-notes-server/server.js:46 | Node always decodes something, at most three bytes for every four characters. `NodeDecodeEncode` shows it inverts the encoder. |
| `Base64.EncodeLength` | SecureRequest/Networking/NetworkManager.swift:21 | Encoding takes four characters for every three bytes, counting a final partial group as a full one. |
| `Base64.DecodeEncode` | SecureRequest/Networking/NetworkManager.swift:29 | Swift's decoder recovers exactly the bytes that were encoded. |
| `Base64.EncodeDecode` | SecureRequest/Networking/NetworkManager.swift:29 | A string Swift's decoder accepts re-encodes to itself iff it is canonical, that is iff the bits its padding leaves unused are zero. |
| `Base64.NodeDecodeEncode` | secure-notes-server/server.js:46 | Node's lenient decoder also recovers exactly the bytes encoded by either side. |
| `Json.Truthy` | secure-notes-server/server.js:43 | `null`, `false`, `0` and `""` are the only falsy values. Every array and object, even an empty one, is truthy. |
| `Json.FieldOrNull` | secure-notes-server/server.js:172-177 | A destructured field that is missing is `undefined`, which the query stores as NULL. |
| `Frame.Assemble` | secure-notes-server/server.js:84 | The concatenation starts with the nonce, ends with the tag, holds the ciphertext between them, and its length is the sum of the three parts. |
| `Frame.ServerSplit` | secure-notes-server/server.js:48-50 | Slicing at `0..12`, `-16..` and `12..-16` gives a 12-byte nonce and a 16-byte tag on long enough input. Below 28 bytes the ciphertext is empty. |
| `Frame.CombinedSplit` | SecureRequest/Networking/NetworkManager.swift:31 | `SealedBox(combined:)` accepts exactly the inputs of at least 28 bytes, and its parts reassemble to the input. |
| `Frame.SplitAssemble` | secure-notes-server/server.js:46-50 | Both cuts recover exactly the nonce, ciphertext and tag that were concatenated. |
| `Frame.SplitsAgree` | SecureRequest/Networking/NetworkManager.swift:31 | On frames of at least 28 bytes, the client's layout and the server's cut agree. |
| `Frame.Seal` | secure-notes-server/server.js:78-84 | A sealed frame starts with its nonce. With a correct cipher, a 32-byte key and a 12-byte nonce it is 28 bytes longer than the plaintext. |
| `Frame.SealOpen` | secure-notes-server/server.js:77-84 | A sealed frame is 28 bytes longer than its plaintext and opens to that plaintext under either cut. |
| `Frame.ServerOpen` | secure-notes-server/server.js:48-60 | The server deciphers over its fixed-offset cut. Under idealised integrity, whatever it opens was sealed to that plaintext under the nonce the frame carries. |
| `Frame.ShortFrameOpensEmpty` | secure-notes-server/server.js:48-60 | Under integrity, a frame shorter than 28 bytes opens to nothing but the empty plaintext. |
| `Envelope.DecryptBody` | secure-notes-server/server.js:42-72 | The body passes through iff `data` is missing or falsy. Otherwise it is replaced by exactly the parsed plaintext, or rejected iff `data` is not a string, does not open, or does not parse. |
| `Envelope.EnvelopeBody` | secure-notes-server/server.js:75-90 | Every wrapped answer is an object whose only key is `data`, and `data` is a string. |
| `Envelope.EnvelopeBodySealed` | secure-notes-server/server.js:77-85 | The `data` string is canonical base 64 of the sealed frame. The frame starts with the fresh IV and opens to the serialised body. |
| `Envelope.DecryptEnvelopeBody` | secure-notes-server/server.js:42-90 | `decryptBody` turns anything `encryptResponse` produced back into exactly the original body. |
| `Envelope.ShortEnvelopeRejected` | secure-notes-server/server.js:46-69 | Under integrity, an envelope whose frame is shorter than 28 bytes is always rejected. |
| `Auth.Authenticate` | secure-notes-server/server.js:97-113 | A missing or empty header means no token. A failed verification means a bad token. Otherwise the caller is exactly the verifier's user id. |
| `Server.ConfigOf` | secure-notes-server/server.js:39 | The configuration built from the environment disables the ownership guard iff `ALLOW_IDOR` is exactly `true`. The other parts are passed through. |
| `Auth.IdorFlag` | secure-notes-server/server.js:39 | The flag is on iff the variable is exactly the string `true`. |
| `NoteStore.EmptyValid` | secure-notes-server/server.js:170-184 | An empty table with a fresh sequence satisfies the store invariant. |
| `NoteStore.Insert` | secure-notes-server/server.js:175-178 | The new row takes the next sequence value, the given owner, title and content, and the current time for both timestamps, as the table's assumed defaults would give. Only that key is added, it was not in use before, and the invariant is kept. |
| `NoteStore.Update` | secure-notes-server/server.js:222-225 | Only the target's title, content and `updated_at` change. Its id, owner and `created_at` stay, and every other row stays. |
| `NoteStore.Delete` | secure-notes-server/server.js:258 | Exactly the target id is removed, it is returned, and every other row stays. |
| `NoteStore.OwnedBy` | secure-notes-server/server.js:189 | Every listed row is a stored row of the caller's. `OwnedByExactly` adds that none is missed. |
| `NoteStore.OwnedFromMembers` | secure-notes-server/server.js:189 | A scan from a given id lists exactly the caller's rows from that id upwards. |
| `NoteStore.OwnedByExactly` | secure-notes-server/server.js:189 | `SELECT * FROM notes WHERE user_id = $1` returns exactly the caller's rows. |
| `NoteStore.OwnedFromAscending` | secure-notes-server/server.js:189 | The listing holds each row once, in ascending id order. |
| `NoteStore.RowJson` | secure-notes-server/server.js:175-179 | A row is sent with its six column names as keys, each carrying its column's value. |
| `NoteStore.ParseDigitsValue` | secure-notes-server/server.js:205 | The digit reader accepts exactly the non-empty runs of decimal digits, with the value they are written as. |
| `NoteStore.ParseId` | secure-notes-server/server.js:205 | The `:id` segment yields an id iff it is an optional sign followed by at least one decimal digit, and its value is within the 32-bit `integer` range. That id is its signed decimal value. Any other text makes the query throw, which the routes answer with 500 at lines 228-230, 262-264 and 293-295. |
| `NoteStore.ParseDecimal` | secure-notes-server/server.js:205 | An id the client writes in decimal reads back as that same id. |
| `Server.NoteMessage` | secure-notes-server/server.js:227 | PUT and DELETE answer with the message and the row under `note`. |
| `Server.CheckAccess` | secure-notes-server/server.js:205-219 | An unreadable id is an error and a missing note is 404, both before any owner check. A present note is denied iff the flag is off and the owner is not the caller. Otherwise access is granted. |
| `Server.Refusal` | secure-notes-server/server.js:207-214 | A bad id gives 500 with the route's message, a missing note 404 `Note not found`, and a denial 403 `Access denied`. |
| `Server.Create` | secure-notes-server/server.js:170-184 | A null body gives 500 `Error adding note` with the store unchanged. Otherwise the answer is 201 with a new row owned by the caller, whatever the body says, and no other row changes. |
| `Server.ListedRows` | secure-notes-server/server.js:187-195 | Every listed row is a stored row of the caller's, and every stored row of the caller's is listed. |
| `Server.List` | secure-notes-server/server.js:187-195 | `GET /api/notes` answers 200 with an array holding exactly the caller's rows. |
| `Server.Fetch` | secure-notes-server/server.js:268-296 | Access granted gives 200 with the row. Otherwise the answer is the refusal for the guard's verdict. |
| `Server.Modify` | secure-notes-server/server.js:198-232 | A null body fails with 500 even before the lookup. A refusal leaves the store unchanged. A grant replaces only the target's title, content and `updated_at`, and answers `Note updated successfully`. |
| `Server.Remove` | secure-notes-server/server.js:235-265 | A refusal leaves the store unchanged. A grant removes only the target and answers with the deleted row. |
| `Server.Dispatch` | secure-notes-server/server.js:170-296 | Every route keeps the store invariant. |
| `Server.Respond` | secure-notes-server/server.js:97-113 | No token gives 403 `No token provided` and a bad one 500 `Failed to authenticate token`. Either way the store is unchanged and the route does not run. A valid token runs the route. |
| `Server.Enveloped` | secure-notes-server/server.js:77-85 | The wrapped `res.json` keeps the status and the store and replaces the body by a `data`-only envelope. |
| `Server.Handle` | secure-notes-server/server.js:42-113 | The request stops at decryption iff the envelope is rejected, with a clear 400 and the store unchanged. A body passed through or decrypted reaches the rest of the pipeline, whose answer is enveloped. Only the route changes the store. |
| `Server.RepliesEnveloped` | secure-notes-server/server.js:75-94 | Every answer after decryption, error answers included, opens to the clear reply with the same status. |
| `Server.TokenOutcomes` | secure-notes-server/server.js:97-113 | The enveloped 403 and 500 token answers open to their error bodies and leave the store unchanged. A valid token gives the route's status, store and body, run as the token's user. |
| `Server.EnvelopedRequestReachesRoute` | secure-notes-server/server.js:62-71 | An enveloped request reaches the route with exactly the body that was sealed. |
| `Server.RouteWritesOwn` | secure-notes-server/server.js:198-265 | With the guard on, a route changes or deletes only the caller's rows, and adds only rows the caller owns. |
| `Server.OnlyOwnNotesWritten` | secure-notes-server/server.js:170-265 | With the flag off, any note a request changes or deletes belongs to the user its token names, and every new note is that user's. |
| `Server.OnlyOwnNotesRead` | secure-notes-server/server.js:187-296 | With the flag off, a fetched, updated, deleted or listed note in an answer is always the caller's. |
| `Server.IdorDeletesForeignNote` | secure-notes-server/server.js:235-265 | With the flag on, any authenticated user deletes any existing note by its id. |
| `Server.ForeignFetch` | secure-notes-server/server.js:268-296 | Fetching another user's note gives an enveloped 403 `Access denied` while the flag is off, and the note itself while it is on. |
| `ClientNote.WireKeysDistinct` | SecureRequest/Models/Note.swift:11-18 | The six coding keys are pairwise distinct and are exactly the server's column names. |
| `ClientNote.RequiredInt` | SecureRequest/Models/Note.swift:31 | `decode(Int.self)` succeeds iff the key holds an integer within 64 bits. A missing key is `keyNotFound` and `null` is `valueNotFound`. |
| `ClientNote.RequiredString` | SecureRequest/Models/Note.swift:33-34 | `decode(String.self)` succeeds iff the key holds a string. A missing key is `keyNotFound` and `null` is `valueNotFound`. |
| `ClientNote.OptionalInt` | SecureRequest/Models/Note.swift:32 | `decodeIfPresent` gives `nil` for a missing key or `null`, and fails only on a value of the wrong kind. |
| `ClientNote.OptionalString` | SecureRequest/Models/Note.swift:35-36 | `decodeIfPresent` gives `nil` for a missing key or `null`, and fails only on a value that is not a string. |
| `ClientNote.DecodeNote` | SecureRequest/Models/Note.swift:29-37 | Decoding succeeds iff the input is an object whose six fields each decode. The note then holds exactly those values. |
| `ClientNote.MissingRequiredKeyFails` | SecureRequest/Models/Note.swift:31-34 | A missing `id`, `title` or `content` fails the decode. A missing `id` is reported first. |
| `ClientNote.MissingOptionalKeysDecodeToNil` | SecureRequest/Models/Note.swift:32-36 | An object with only `id`, `title` and `content` decodes, with `nil` for the other three fields. |
| `ClientNote.EncodeNote` | SecureRequest/Models/Note.swift:3-18 | The encoding is an object over the six coding keys, carrying `id`, `title` and `content` under their keys. |
| `ClientNote.EncodeNoteOptional` | SecureRequest/Models/Note.swift:11-18 | A `nil` property leaves its key out, and any other property is written under its mapped key. |
| `ClientNote.DecodeEncodeNote` | SecureRequest/Models/Note.swift:20-37 | A note built by the memberwise `init`, once encoded, decodes to the same note. |
| `ClientNote.EncodeDecodedNote` | SecureRequest/Models/Note.swift:29-37 | Re-encoding a decoded note reproduces every non-null field of the wire object. |
| `Client.SetToken` | SecureRequest/Networking/NetworkManager.swift:9-13 | `setToken` replaces the held token and keeps the base URL. |
| `Client.Encrypt` | SecureRequest/Networking/NetworkManager.swift:15-26 | The result is empty iff sealing throws on a key of the wrong size. Otherwise it is canonical base 64 of the combined sealed box. |
| `Client.OpenCombined` | SecureRequest/Networking/NetworkManager.swift:31-32 | Inputs shorter than 28 bytes fail as a bad frame. On longer input, opening succeeds iff the key has a valid size and the cipher opens the combined layout's parts, and the result is that opening. |
| `Client.DecryptAsWritten` | SecureRequest/Networking/NetworkManager.swift:28-33 | `decrypt` crashes iff `Data(base64Encoded:)` rejects its input, and otherwise opens the combined box. |
| `Client.Decrypt` | SecureRequest/Networking/NetworkManager.swift:28-33 | The corrected `decrypt` fails with `NotBase64` iff `Data(base64Encoded:)` rejects its input, and otherwise opens the combined box. |
| `Client.DecryptEncrypt` | SecureRequest/Networking/NetworkManager.swift:15-33 | `decrypt` inverts `encrypt` for every valid key, both as written and corrected. |
| `Client.SealedRequestBody` | SecureRequest/Networking/NetworkManager.swift:50-53 | The body sent is an object whose only key is `data`, holding `encrypt` of the body's JSON. |
| `Client.BuildRequest` | SecureRequest/Networking/NetworkManager.swift:35-60 | An invalid URL fails before anything is built. Otherwise the request carries the raw token as `Authorization` iff one is set. A JSON content type and the sealed body are present iff a body was given. |
| `Client.EnvelopeData` | SecureRequest/Networking/NetworkManager.swift:76-77 | A response is accepted only as an object with a string `data` field. |
| `Client.ProcessAsWritten` | SecureRequest/Networking/NetworkManager.swift:62-89 | Success only for a JSON object with a string `data` that decrypts, parses and decodes to the value returned. The handler crashes only on a `data` string that is not valid base 64. |
| `Client.Process` | SecureRequest/Networking/NetworkManager.swift:62-89 | Success iff the response is a JSON object with a string `data` that decrypts, parses and decodes, and the value returned is what it decodes to. Everything else is a failure. |
| `Client.ProcessAgrees` | SecureRequest/Networking/NetworkManager.swift:75-88 | The two handlers agree wherever the original does not crash. The original crashes exactly where the corrected one reports `NotBase64`. |
| `Client.BadBase64Crashes` | SecureRequest/Networking/NetworkManager.swift:29 | `{"data": "!"}` crashes the app as written and is a failure once corrected. |
| `EndToEnd.ClientBodyDecrypted` | secure-notes-server/server.js:42-72 | A body the client seals under the shared key leaves `decryptBody` as exactly the object the client built. |
| `EndToEnd.ClientRequestHandled` | SecureRequest/Networking/NetworkManager.swift:35-60 | A client request is handled as if the route had received its body in the clear, under the client's token. |
| `EndToEnd.BadClientKeyPassesThrough` | SecureRequest/Networking/NetworkManager.swift:22-25 | When sealing fails, the client sends `{"data": ""}`. The server lets that pass through to the route in the clear. |
| `EndToEnd.ServerReplyAccepted` | SecureRequest/Networking/NetworkManager.swift:75-80 | The client never crashes on an enveloped server answer, and it decodes exactly the route's clear reply. |
| `EndToEnd.RejectionUnreadable` | SecureRequest/Networking/NetworkManager.swift:81-83 | The server's clear 400 answer reaches the client as "Failed to decrypt response". |
| `EndToEnd.NoTokenRefused` | SecureRequest/Networking/NetworkManager.swift:44-46 | A client without a token, or with an empty one, is refused by `verifyToken`. |
| `EndToEnd.RowDecodes` | SecureRequest/Models/Note.swift:29-37 | A row with text title and content decodes as the client's `Note`. A row stored with a NULL title does not. |

## Left out

- Registration, login, the validators and bcrypt (secure-notes-server/server.js:114-168): they are outside the notes core and rely on library code.
- Logging, `app.listen`, the sample-data bootstrap and the `/api/test-encryption` debug route (secure-notes-server/server.js:297-381): these are I/O and demonstration fixtures.
- AES-GCM, `jwt.verify`, `crypto.randomBytes` and `AES.GCM.Nonce()`: foreign library code. The cipher is abstract under the stated predicates, the verifier is a parameter and the nonces are inputs. Nonce uniqueness is a property of the randomness and is not stated.
- JWT expiry (section 4.1.4 of RFC 7519): it is part of the verifier parameter.
- PostgreSQL itself:
  - The lookup and the following query are taken as one atomic step, so concurrent requests are not modelled.
  - SERIAL overflow is not modelled.
- `URLSession`, `DispatchQueue` and the completion callbacks, together with NoteViewModel and all SwiftUI views: network, concurrency and UI plumbing. `URL(string:)` is a predicate parameter.
- Database failures other than a bad id (a lost connection, `Error fetching notes` at secure-notes-server/server.js:191-194) are I/O and are not modelled.
- Malformed request JSON is refused by `express.json()` before the middleware runs, and that refusal is not modelled.
- `JSONSerialization` throwing on a non-JSON object (SecureRequest/Networking/NetworkManager.swift:55-58) cannot occur for the model's JSON values.
- JSON numbers are integers only; fractions and floating point are not modelled.
- Json.Sound: every integer survives a round trip through the codec exactly. `JSON.parse` in `express.json()` and in `decryptBody` reads numbers as IEEE doubles, so an integer beyond 2^53 in magnitude reaches the route rounded. `Sound` idealises this. What lemmas built on it promise, such as `EndToEnd.ClientBodyDecrypted` and `Envelope.DecryptEnvelopeBody`, carries over to the running server only for bodies whose numbers lie within ±2^53. Every id and user id the core exchanges is a 32-bit `integer` and lies well within that range.
- The model uses one codec for `JSON.stringify`/`JSON.parse` and for `JSONSerialization`/`JSONDecoder`. Text goes directly to bytes, so the UTF-8 decoding inside `decipher.update` is not modelled.
- Server keys are exactly 32 bytes, which `aes-256-gcm` requires (SecureRequest/Utilities/Constants.swift:13 holds such a key). `createDecipheriv` and `createCipheriv` throwing on other key sizes is not modelled.
- NoteStore.Insert: assumes the `notes` table fills `created_at` and `updated_at` with `CURRENT_TIMESTAMP` by default and lets `title` and `content` be NULL. The schema is not part of the source. A `NOT NULL` column or a missing default would make server.js:180-183 answer 500 where `Server.Create` answers 201.
- NoteStore.Insert: stores a non-null, non-string title or content as the JSON value given. The `pg` driver would convert it to text, and the table's column types are not part of the source.
- NoteStore.ParseId: rejects an id with surrounding whitespace, which PostgreSQL's `integer` input accepts. It also rejects the `_` digit separators and `0x`, `0o` and `0b` prefixes that PostgreSQL 16 and later accept.
- Envelope.DecryptBody: rejects every truthy `data` that is not a string. `Buffer.from` at secure-notes-server/server.js:46 also reads some non-strings as bytes. These include arrays of byte values, array-like objects such as `{"length": 3}` (three zero bytes), and `{"type": "Buffer", "data": [...]}`. A frame carried in any of these forms is opened and routed like a string one, where the model answers 400.
- NoteStore.OwnedBy: lists rows in ascending id order. SQL leaves the order unspecified.

## Findings

| source | as written | input that shows it | evidently intended | confidence | as-written member | corrected member |
|---|---|---|---|---|---|---|
| SecureRequest/Networking/NetworkManager.swift:29 | `decrypt` force-unwraps `Data(base64Encoded:)`. A response whose `data` string is not valid base 64 crashes the app instead of reaching the `catch` at lines 85-88. | response body `{"data": "!"}` (`Client.BadBase64Crashes`) | `decrypt` throws, and the completion handler reports a failure | medium, not executed | `Client.ProcessAsWritten` | `Client.Process` |

`Client.ProcessAgrees` proves that the two handlers agree on every other response. `EndToEnd.ServerReplyAccepted` shows that the crash cannot come from a genuine server answer: every `data` string the server sends is the encoding of a frame, which Swift's decoder accepts. The crash needs a response that did not come from `encryptResponse`.
