/** The `/api/notes` routes of secure-notes-server/server.js as pure store
    transitions, and the whole per-request pipeline: `decryptBody`, then
    `encryptResponse` wrapping `res.json`, then `verifyToken`, then the
    route. */
module Server {
  import opened Wrappers
  import opened Json
  import opened Aead
  import opened Envelope
  import opened Auth
  import opened NoteStore

  /** The five note routes; `:id` is the raw path segment. */
  datatype Route =
    | CreateNote              // POST   /api/notes
    | ListNotes               // GET    /api/notes
    | FetchNote(id: string)   // GET    /api/notes/:id
    | UpdateNote(id: string)  // PUT    /api/notes/:id
    | DeleteNote(id: string)  // DELETE /api/notes/:id

  /** What reaches the middleware: the route, the `authorization` header and
      the body `express.json()` produced. */
  datatype Request = Request(route: Route, authorization: Option<string>, body: Json)

  /** A status and the body handed to `res.json`. */
  datatype Reply = Reply(status: int, body: Json)

  /** The server's configuration: the cipher behind `crypto`, `JSON`, the
      `ENCRYPTION_KEY`, the `ALLOW_IDOR` flag and `jwt.verify`. The flag is
      read once at start-up: `allowIdor` is `IdorFlag` of the variable's
      value (secure-notes-server/server.js:39). */
  datatype Config = Config(cipher: Cipher, codec: Codec, key: ServerKey, allowIdor: bool, verify: Verifier)

  /** The configuration the server builds at start-up from the value of
      `ALLOW_IDOR` in its environment: the guard is off exactly when the
      variable is the string `true`, so `OnlyOwnNotesWritten` covers every
      other value, an absent variable included. */
  function ConfigOf(cipher: Cipher, codec: Codec, key: ServerKey, env: Option<string>, verify: Verifier): (cfg: Config)
    ensures cfg.allowIdor <==> env == Some("true")
    ensures cfg.cipher == cipher && cfg.codec == codec && cfg.key == key && cfg.verify == verify
  {
    Config(cipher, codec, key, IdorFlag(env), verify)
  }

  const NoteNotFound: string := "Note not found"
  const AccessDenied: string := "Access denied"
  const ErrorAdding: string := "Error adding note"
  const ErrorUpdating: string := "Error updating note"
  const ErrorDeleting: string := "Error deleting note"
  const ErrorFetching: string := "Error fetching note"
  const Updated: string := "Note updated successfully"
  const Deleted: string := "Note deleted successfully"

  /** `{message, note}`, the body PUT and DELETE answer with. */
  function NoteMessage(message: string, row: Row): (j: Json)
    ensures Get(j, "message") == Some(JStr(message)) && Get(j, "note") == Some(RowJson(row))
  {
    JObj(map["message" := JStr(message), "note" := RowJson(row)])
  }

  // ---- The look-up and ownership guard of the three by-id routes. ----

  datatype Access =
    | BadId          // the id is not an `integer`: the query throws
    | Missing        // `rows.length === 0`
    | Denied         // flag off and `rows[0].user_id !== userId`
    | Granted(id: int)

  function CheckAccess(s: Store, rawId: string, caller: int, allowIdor: bool): (r: Access)
    ensures r.BadId? <==> ParseId(rawId).None?
    ensures r.Missing? <==> ParseId(rawId).Some? && ParseId(rawId).value !in s.rows
    ensures r.Denied? <==>
      && ParseId(rawId).Some? && ParseId(rawId).value in s.rows
      && !Permits(allowIdor, s.rows[ParseId(rawId).value].userId, caller)
    ensures r.Granted? <==>
      && ParseId(rawId).Some? && ParseId(rawId).value in s.rows
      && Permits(allowIdor, s.rows[ParseId(rawId).value].userId, caller)
    ensures r.Granted? ==> r.id == ParseId(rawId).value
  {
    match ParseId(rawId)
    case None => BadId
    case Some(id) =>
      if id !in s.rows then Missing
      else if !Permits(allowIdor, s.rows[id].userId, caller) then Denied
      else Granted(id)
  }

  /** The early answer of a by-id route whose guard did not let it through;
      `failure` is that route's `catch` message. */
  function Refusal(a: Access, failure: string): (r: Reply)
    requires !a.Granted?
    ensures a.BadId? ==> r == Reply(500, ErrorBody(failure))
    ensures a.Missing? ==> r == Reply(404, ErrorBody(NoteNotFound))
    ensures a.Denied? ==> r == Reply(403, ErrorBody(AccessDenied))
  {
    match a
    case BadId => Reply(500, ErrorBody(failure))
    case Missing => Reply(404, ErrorBody(NoteNotFound))
    case Denied => Reply(403, ErrorBody(AccessDenied))
  }

  // ---- The route handlers. ----

  /** POST /api/notes. The owner is the caller, whatever the body says;
      destructuring a null body throws. */
  function Create(s: Store, caller: int, body: Json, now: string): (r: (Reply, Store))
    ensures body.JNull? ==> r == (Reply(500, ErrorBody(ErrorAdding)), s)
    ensures !body.JNull? ==>
      var row := Row(s.nextId, caller, FieldOrNull(body, "title"), FieldOrNull(body, "content"), now, now);
      && r.0 == Reply(201, RowJson(row))
      && r.1.rows.Keys == s.rows.Keys + {row.id} && r.1.rows[row.id] == row
      && (Valid(s) ==> row.id !in s.rows)
    ensures forall id | id in s.rows && id != s.nextId :: id in r.1.rows && r.1.rows[id] == s.rows[id]
    ensures Valid(s) ==> Valid(r.1)
  {
    if body.JNull? then (Reply(500, ErrorBody(ErrorAdding)), s)
    else
      var (row, s') := Insert(s, caller, FieldOrNull(body, "title"), FieldOrNull(body, "content"), now);
      (Reply(201, RowJson(row)), s')
  }

  /** The JSON array `res.json(result.rows)` sends. */
  function RowsJson(rows: seq<Row>): seq<Json>
  {
    seq(|rows|, i requires 0 <= i < |rows| => RowJson(rows[i]))
  }

  /** Every listed row belongs to the caller, and every row of the caller's
      is listed. */
  lemma ListedRows(s: Store, caller: int)
    requires Valid(s)
    ensures forall item | item in RowsJson(OwnedBy(s, caller)) :: Get(item, "user_id") == Some(JNum(caller))
    ensures forall item | item in RowsJson(OwnedBy(s, caller)) :: exists id | id in s.rows :: item == RowJson(s.rows[id])
    ensures forall id | id in s.rows && s.rows[id].userId == caller :: RowJson(s.rows[id]) in RowsJson(OwnedBy(s, caller))
  {
    var rows := OwnedBy(s, caller);
    var items := RowsJson(rows);
    OwnedByExactly(s, caller);
    forall id | id in s.rows && s.rows[id].userId == caller
      ensures RowJson(s.rows[id]) in items
    {
      assert s.rows[id] in rows;
      var i :| 0 <= i < |rows| && rows[i] == s.rows[id];
      assert items[i] == RowJson(s.rows[id]);
    }
    forall item | item in items
      ensures Get(item, "user_id") == Some(JNum(caller))
      ensures exists id | id in s.rows :: item == RowJson(s.rows[id])
    {
      var i :| 0 <= i < |items| && items[i] == item;
      assert rows[i] in rows;
      assert item == RowJson(s.rows[rows[i].id]);
    }
  }

  /** GET /api/notes: exactly the caller's notes. */
  function List(s: Store, caller: int): (r: Reply)
    requires Valid(s)
    ensures r.status == 200 && r.body.JArr?
    ensures forall item | item in r.body.items :: Get(item, "user_id") == Some(JNum(caller))
    ensures forall item | item in r.body.items :: exists id | id in s.rows :: item == RowJson(s.rows[id])
    ensures forall id | id in s.rows && s.rows[id].userId == caller :: RowJson(s.rows[id]) in r.body.items
  {
    ListedRows(s, caller);
    Reply(200, JArr(RowsJson(OwnedBy(s, caller))))
  }

  /** GET /api/notes/:id. */
  function Fetch(s: Store, caller: int, rawId: string, allowIdor: bool): (r: Reply)
    ensures var a := CheckAccess(s, rawId, caller, allowIdor);
      && (a.Granted? ==> r == Reply(200, RowJson(s.rows[a.id])))
      && (!a.Granted? ==> r == Refusal(a, ErrorFetching))
  {
    match CheckAccess(s, rawId, caller, allowIdor)
    case Granted(id) => Reply(200, RowJson(s.rows[id]))
    case a => Refusal(a, ErrorFetching)
  }

  /** PUT /api/notes/:id. The body is destructured before the look-up, so a
      null body fails even for a missing note. Only title, content and
      `updated_at` of the target change. */
  function Modify(s: Store, caller: int, rawId: string, body: Json, allowIdor: bool, now: string): (r: (Reply, Store))
    ensures var a := CheckAccess(s, rawId, caller, allowIdor);
      && (body.JNull? ==> r == (Reply(500, ErrorBody(ErrorUpdating)), s))
      && (!body.JNull? && !a.Granted? ==> r == (Refusal(a, ErrorUpdating), s))
      && (!body.JNull? && a.Granted? ==>
           var target := s.rows[a.id];
           var row := target.(title := FieldOrNull(body, "title"), content := FieldOrNull(body, "content"), updatedAt := now);
           && r.0 == Reply(200, NoteMessage(Updated, row))
           && r.1 == s.(rows := s.rows[a.id := row]))
    ensures Valid(s) ==> Valid(r.1)
  {
    if body.JNull? then (Reply(500, ErrorBody(ErrorUpdating)), s)
    else match CheckAccess(s, rawId, caller, allowIdor)
      case Granted(id) =>
        var (row, s') := NoteStore.Update(s, id, FieldOrNull(body, "title"), FieldOrNull(body, "content"), now);
        (Reply(200, NoteMessage(Updated, row)), s')
      case a => (Refusal(a, ErrorUpdating), s)
  }

  /** DELETE /api/notes/:id. Only the target row goes. */
  function Remove(s: Store, caller: int, rawId: string, allowIdor: bool): (r: (Reply, Store))
    ensures var a := CheckAccess(s, rawId, caller, allowIdor);
      && (!a.Granted? ==> r == (Refusal(a, ErrorDeleting), s))
      && (a.Granted? ==>
           && r.0 == Reply(200, NoteMessage(Deleted, s.rows[a.id]))
           && r.1 == s.(rows := s.rows - {a.id}))
    ensures Valid(s) ==> Valid(r.1)
  {
    match CheckAccess(s, rawId, caller, allowIdor)
    case Granted(id) =>
      var (row, s') := NoteStore.Delete(s, id);
      (Reply(200, NoteMessage(Deleted, row)), s')
    case a => (Refusal(a, ErrorDeleting), s)
  }

  /** The route an authenticated request reaches, with the body the
      middleware left in `req.body`. */
  function Dispatch(s: Store, route: Route, caller: int, body: Json, allowIdor: bool, now: string): (r: (Reply, Store))
    requires Valid(s)
    ensures Valid(r.1)
  {
    match route
    case CreateNote => Create(s, caller, body, now)
    case ListNotes => (List(s, caller), s)
    case FetchNote(id) => (Fetch(s, caller, id, allowIdor), s)
    case UpdateNote(id) => Modify(s, caller, id, body, allowIdor, now)
    case DeleteNote(id) => Remove(s, caller, id, allowIdor)
  }

  // ---- The pipeline. ----

  /** Where a request was answered. */
  datatype Stage = AtDecrypt | AtAuth | AtRoute

  datatype Outcome = Outcome(reply: Reply, store: Store, stage: Stage)

  /** `verifyToken` and the route, on the body `decryptBody` left; the
      reply is still in the clear. */
  function Respond(cfg: Config, req: Request, body: Json, s: Store, now: string): (r: Outcome)
    requires Valid(s)
    ensures var auth := Authenticate(cfg.verify, req.authorization);
      && (auth.NoToken? ==> r == Outcome(Reply(403, ErrorBody(NoTokenProvided)), s, AtAuth))
      && (auth.BadToken? ==> r == Outcome(Reply(500, ErrorBody(FailedToAuthenticate)), s, AtAuth))
      && (auth.Authenticated? ==> r.stage == AtRoute)
    ensures Valid(r.store)
  {
    match Authenticate(cfg.verify, req.authorization)
    case NoToken => Outcome(Reply(403, ErrorBody(NoTokenProvided)), s, AtAuth)
    case BadToken => Outcome(Reply(500, ErrorBody(FailedToAuthenticate)), s, AtAuth)
    case Authenticated(caller) =>
      var (reply, s') := Dispatch(s, req.route, caller, body, cfg.allowIdor, now);
      Outcome(reply, s', AtRoute)
  }

  /** The replacement `res.json` applied to a reply. */
  function Enveloped(cfg: Config, iv: Nonce, o: Outcome): (r: Outcome)
    ensures r.reply.status == o.reply.status && r.store == o.store && r.stage == o.stage
    ensures r.reply.body.JObj? && r.reply.body.fields.Keys == {DataKey}
  {
    o.(reply := Reply(o.reply.status, EnvelopeBody(cfg.cipher, cfg.codec, cfg.key, iv, o.reply.body)))
  }

  /** One request through the server. `iv` is what `crypto.randomBytes(12)`
      returns for this response and `now` the database clock. A rejected
      envelope is answered before `encryptResponse` is mounted, so that
      answer goes out in the clear; every later one is enveloped. */
  function Handle(cfg: Config, req: Request, s: Store, iv: Nonce, now: string): (r: Outcome)
    requires Valid(s)
    ensures var inbound := DecryptBody(cfg.cipher, cfg.codec, cfg.key, req.body);
      && (r.stage == AtDecrypt <==> inbound.Rejected?)
      && (inbound.Rejected? ==> r == Outcome(Reply(400, ErrorBody(InvalidEncryptedData)), s, AtDecrypt))
      && (inbound.PassThrough? ==> r == Enveloped(cfg, iv, Respond(cfg, req, req.body, s, now)))
      && (inbound.Decrypted? ==> r == Enveloped(cfg, iv, Respond(cfg, req, inbound.body, s, now)))
    ensures r.stage != AtRoute ==> r.store == s
    ensures Valid(r.store)
  {
    match DecryptBody(cfg.cipher, cfg.codec, cfg.key, req.body)
    case Rejected => Outcome(Reply(400, ErrorBody(InvalidEncryptedData)), s, AtDecrypt)
    case PassThrough => Enveloped(cfg, iv, Respond(cfg, req, req.body, s, now))
    case Decrypted(body) => Enveloped(cfg, iv, Respond(cfg, req, body, s, now))
  }

  // ---- Properties of the pipeline. ----

  /** The body the route sees after `decryptBody`. */
  function RouteBody(inbound: Inbound, body: Json): Json
  {
    if inbound.Decrypted? then inbound.body else body
  }

  /** Every answer after the envelope middleware, error answers included,
      is an envelope that opens, under the server's key, to the status's
      clear-text reply. */
  lemma RepliesEnveloped(cfg: Config, req: Request, s: Store, iv: Nonce, now: string)
    requires Correct(cfg.cipher) && Sound(cfg.codec) && Valid(s)
    ensures var inbound := DecryptBody(cfg.cipher, cfg.codec, cfg.key, req.body);
      var r := Handle(cfg, req, s, iv, now);
      var clear := Respond(cfg, req, RouteBody(inbound, req.body), s, now);
      !inbound.Rejected? ==>
        && r.reply.status == clear.reply.status
        && DecryptBody(cfg.cipher, cfg.codec, cfg.key, r.reply.body) == Decrypted(clear.reply.body)
  {
    var inbound := DecryptBody(cfg.cipher, cfg.codec, cfg.key, req.body);
    var clear := Respond(cfg, req, RouteBody(inbound, req.body), s, now);
    DecryptEnvelopeBody(cfg.cipher, cfg.codec, cfg.key, iv, clear.reply.body);
  }

  /** `verifyToken`: no token gives 403 and an invalid one 500, both
      enveloped and with the store untouched; a valid one runs the route as
      its subject. */
  lemma TokenOutcomes(cfg: Config, req: Request, s: Store, iv: Nonce, now: string)
    requires Correct(cfg.cipher) && Sound(cfg.codec) && Valid(s)
    requires !DecryptBody(cfg.cipher, cfg.codec, cfg.key, req.body).Rejected?
    ensures var r := Handle(cfg, req, s, iv, now);
      var auth := Authenticate(cfg.verify, req.authorization);
      var answer := DecryptBody(cfg.cipher, cfg.codec, cfg.key, r.reply.body);
      && (auth.NoToken? ==>
           r.reply.status == 403 && answer == Decrypted(ErrorBody(NoTokenProvided)) && r.store == s && r.stage == AtAuth)
      && (auth.BadToken? ==>
           r.reply.status == 500 && answer == Decrypted(ErrorBody(FailedToAuthenticate)) && r.store == s && r.stage == AtAuth)
      && (auth.Authenticated? ==>
           var body := RouteBody(DecryptBody(cfg.cipher, cfg.codec, cfg.key, req.body), req.body);
           var routed := Dispatch(s, req.route, auth.userId, body, cfg.allowIdor, now);
           r.stage == AtRoute && r.reply.status == routed.0.status && r.store == routed.1
           && answer == Decrypted(routed.0.body))
  {
    RepliesEnveloped(cfg, req, s, iv, now);
  }

  /** An envelope the route's body was sealed into reaches the route as
      exactly that body. */
  lemma EnvelopedRequestReachesRoute(cfg: Config, route: Route, authorization: Option<string>, inner: Json,
                                     iv': Nonce, s: Store, iv: Nonce, now: string)
    requires Correct(cfg.cipher) && Sound(cfg.codec) && Valid(s)
    ensures var req := Request(route, authorization, EnvelopeBody(cfg.cipher, cfg.codec, cfg.key, iv', inner));
      Handle(cfg, req, s, iv, now) == Enveloped(cfg, iv, Respond(cfg, req, inner, s, now))
  {
    DecryptEnvelopeBody(cfg.cipher, cfg.codec, cfg.key, iv', inner);
  }

  /** With the guard on, a route changes or deletes only the caller's
      notes and adds only notes of the caller's. */
  lemma RouteWritesOwn(s: Store, route: Route, caller: int, body: Json, now: string)
    requires Valid(s)
    ensures var s' := Dispatch(s, route, caller, body, false, now).1;
      forall id | id in s.rows && (id !in s'.rows || s'.rows[id] != s.rows[id]) :: s.rows[id].userId == caller
    ensures var s' := Dispatch(s, route, caller, body, false, now).1;
      forall id | id in s'.rows && id !in s.rows :: s'.rows[id].userId == caller
  {
    match route {
      case CreateNote =>
      case ListNotes =>
      case FetchNote(_) =>
      case UpdateNote(rawId) =>
        var a := CheckAccess(s, rawId, caller, false);
        var s' := Dispatch(s, route, caller, body, false, now).1;
        if a.Granted? && !body.JNull? {
          assert s' == s.(rows := s.rows[a.id := s'.rows[a.id]]);
        }
      case DeleteNote(rawId) =>
    }
  }

  /** With the IDOR flag off, a note that a request changes or deletes
      belongs to the user its token names, and every note it adds is that
      user's. */
  lemma OnlyOwnNotesWritten(cfg: Config, req: Request, s: Store, iv: Nonce, now: string)
    requires Valid(s) && !cfg.allowIdor
    ensures var r := Handle(cfg, req, s, iv, now);
      forall id | id in s.rows && (id !in r.store.rows || r.store.rows[id] != s.rows[id]) ::
        Authenticate(cfg.verify, req.authorization) == Authenticated(s.rows[id].userId)
    ensures var r := Handle(cfg, req, s, iv, now);
      forall id | id in r.store.rows && id !in s.rows ::
        Authenticate(cfg.verify, req.authorization) == Authenticated(r.store.rows[id].userId)
  {
    var r := Handle(cfg, req, s, iv, now);
    var auth := Authenticate(cfg.verify, req.authorization);
    if r.stage == AtRoute {
      var body := RouteBody(DecryptBody(cfg.cipher, cfg.codec, cfg.key, req.body), req.body);
      assert r.store == Dispatch(s, req.route, auth.userId, body, false, now).1;
      RouteWritesOwn(s, req.route, auth.userId, body, now);
    }
  }

  /** With the IDOR flag off, no answer carries another user's note: a
      fetched, updated or deleted note and every listed one is the
      caller's. */
  lemma OnlyOwnNotesRead(cfg: Config, req: Request, body: Json, s: Store, now: string)
    requires Valid(s) && !cfg.allowIdor
    requires Authenticate(cfg.verify, req.authorization).Authenticated?
    ensures var caller := Authenticate(cfg.verify, req.authorization).userId;
      var reply := Respond(cfg, req, body, s, now).reply;
      && (req.route.FetchNote? && reply.status == 200 ==> Get(reply.body, "user_id") == Some(JNum(caller)))
      && ((req.route.UpdateNote? || req.route.DeleteNote?) && reply.status == 200 ==>
            Get(Get(reply.body, "note").value, "user_id") == Some(JNum(caller)))
      && (req.route.ListNotes? ==>
            forall item | item in reply.body.items :: Get(item, "user_id") == Some(JNum(caller)))
  {
  }

  /** With the IDOR flag on, the guard is gone: any authenticated user
      deletes any existing note by its id. */
  lemma IdorDeletesForeignNote(cfg: Config, authorization: Option<string>, id: int, s: Store, iv: Nonce, now: string)
    requires Valid(s) && cfg.allowIdor && id in s.rows && id <= IntMax
    requires Authenticate(cfg.verify, authorization).Authenticated?
    ensures var r := Handle(cfg, Request(DeleteNote(Decimal(id)), authorization, JObj(map[])), s, iv, now);
      r.reply.status == 200 && id !in r.store.rows
  {
    ParseDecimal(id);
  }

  /** Fetching another user's note by id: refused with an enveloped 403
      while the IDOR flag is off, answered with the note once it is on. */
  lemma ForeignFetch(cfg: Config, authorization: Option<string>, id: int, s: Store, iv: Nonce, now: string)
    requires Correct(cfg.cipher) && Sound(cfg.codec) && Valid(s) && id in s.rows && id <= IntMax
    requires Authenticate(cfg.verify, authorization).Authenticated?
    requires s.rows[id].userId != Authenticate(cfg.verify, authorization).userId
    ensures var r := Handle(cfg, Request(FetchNote(Decimal(id)), authorization, JObj(map[])), s, iv, now);
      var answer := DecryptBody(cfg.cipher, cfg.codec, cfg.key, r.reply.body);
      && r.store == s
      && (!cfg.allowIdor ==> r.reply.status == 403 && answer == Decrypted(ErrorBody(AccessDenied)))
      && (cfg.allowIdor ==> r.reply.status == 200 && answer == Decrypted(RowJson(s.rows[id])))
  {
    var req := Request(FetchNote(Decimal(id)), authorization, JObj(map[]));
    ParseDecimal(id);
    RepliesEnveloped(cfg, req, s, iv, now);
  }
}
