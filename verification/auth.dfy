/** Bearer-token check and ownership guard of the server
    (secure-notes-server/server.js). */
module Auth {
  import opened Wrappers

  /** `jwt.verify(token, JWT_SECRET)` followed by reading `decoded.id`: the
      signature check and the expiry check of section 4.1.4 of RFC 7519 are
      library code, with the clock folded into the verifier. */
  type Verifier = string -> Option<int>

  /** What `verifyToken` decides. */
  datatype Authn =
    | NoToken                    // 403 `{error: 'No token provided'}`
    | BadToken                   // 500 `{error: 'Failed to authenticate token'}`
    | Authenticated(userId: int) // `req.userId := decoded.id`, then `next()`

  const NoTokenProvided: string := "No token provided"
  const FailedToAuthenticate: string := "Failed to authenticate token"

  /** `verifyToken`. The header value is used raw, with no scheme prefix;
      an empty header is as falsy as a missing one. */
  function Authenticate(verify: Verifier, authorization: Option<string>): (r: Authn)
    ensures r.NoToken? <==> authorization.None? || authorization.value == ""
    ensures r.BadToken? <==> authorization.Some? && authorization.value != "" && verify(authorization.value).None?
    ensures r.Authenticated? <==> authorization.Some? && authorization.value != "" && verify(authorization.value).Some?
    ensures r.Authenticated? ==> r.userId == verify(authorization.value).value
  {
    match authorization
    case None => NoToken
    case Some(token) =>
      if token == "" then NoToken
      else match verify(token)
        case None => BadToken
        case Some(id) => Authenticated(id)
  }

  /** `process.env.ALLOW_IDOR === 'true'`: only that exact string turns the
      flag on; an unset variable leaves it off. */
  function IdorFlag(env: Option<string>): (on: bool)
    ensures on <==> env == Some("true")
  {
    match env
    case Some(v) => v == "true"
    case None => false
  }

  /** The ownership guard: with the IDOR flag set every caller passes,
      otherwise only the owner (strict `!==` on two numbers). */
  predicate Permits(allowIdor: bool, owner: int, caller: int)
  {
    allowIdor || owner == caller
  }
}
