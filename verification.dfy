/**
 * The access middleware: `verifyToken` reads a `Bearer` token from the
 * Authorization header and attaches the decoded payload to the request;
 * `verifyTokenAndAuthorization` lets through the owner of the route's `:id` or an
 * admin; `isAdmin` lets through admins only. `jwt.verify` with the server's secret
 * is a parameter: a partial function from token text to payload.
 */
module Verification {
  import opened Common
  import opened Text
  import opened JsValue

  /** The claims of a decoded token that the middleware looks at. */
  datatype Payload = Payload(userId: Json, isAdmin: Json)

  /** Where a middleware leaves the request: `next()` called once, or an answer sent. */
  datatype Outcome = Next | Respond(reply: Reply)

  const Bearer: string := "Bearer "

  const NoToken := Reply(401, "message", "No token provided")
  const BadToken := Reply(401, "message", "Invalid or expired token")
  const NotOwner := Reply(403, "message", "Unauthorized access")
  const NotAdmin := Reply(403, "message", "Admin access required")

  /** `authHeader?.startsWith("Bearer ")`, false when the header is absent. */
  predicate HasBearer(header: Option<string>) {
    header.Some? && Bearer <= header.value
  }

  /** `authHeader.split(" ")[1]`: the text after `"Bearer "` up to the next space. */
  function TokenOf(header: string): (token: string)
    requires Bearer <= header
    ensures token == TakeUntil(header[|Bearer|..], ' ')
    ensures token <= header[|Bearer|..] && ' ' !in token
  {
    var rest := header[|Bearer|..];
    assert header == "Bearer" + [' '] + rest;
    SplitAfter("Bearer", ' ', rest);
    SplitFirst(rest, ' ');
    Split(header, ' ')[1]
  }

  /** A space-free token is read back whole, whatever follows it after a space. */
  lemma BearerToken(token: string, rest: string)
    requires ' ' !in token
    ensures TokenOf(Bearer + token) == token
    ensures TokenOf(Bearer + token + " " + rest) == token
  {
    assert (Bearer + token)[|Bearer|..] == token;
    SplitWhole(token, ' ');
    SplitFirst(token, ' ');
    assert (Bearer + token + " " + rest)[|Bearer|..] == token + [' '] + rest;
    SplitAfter(token, ' ', rest);
    SplitFirst(token + [' '] + rest, ' ');
  }

  /** `verifyToken` (middlewares/verification.js:3-17) as a decision: the payload, or the 401 it sends. */
  function Authenticate(header: Option<string>, verify: string -> Option<Payload>): (r: Result<Payload, Reply>)
    ensures r.Ok? <==> HasBearer(header) && verify(TokenOf(header.value)).Some?
    ensures r.Ok? ==> verify(TokenOf(header.value)) == Some(r.value)
    ensures r.Err? ==> r.error == (if HasBearer(header) then BadToken else NoToken)
  {
    if !HasBearer(header) then Err(NoToken)
    else
      match verify(TokenOf(header.value))
      case None => Err(BadToken)
      case Some(p) => Ok(p)
  }

  /**
   * The condition of middlewares/verification.js:22-23. `None` where its evaluation throws:
   * `toString()` of a missing or null `userId`, or of a missing route `id`.
   */
  function OwnerOrAdmin(user: Payload, paramsId: Option<string>): (r: Option<bool>)
    ensures r.None? <==> ToStr(user.userId).None? || paramsId.None?
    ensures r == Some(true) <==>
              && ToStr(user.userId).Some? && paramsId.Some?
              && (ToStr(user.userId).value == paramsId.value || Truthy(user.isAdmin))
  {
    match ToStr(user.userId)
    case None => None
    case Some(u) =>
      if paramsId.None? then None
      else Some(u == paramsId.value || Truthy(user.isAdmin))
  }

  /**
   * `verifyTokenAndAuthorization` (middlewares/verification.js:19-30). The check runs inside
   * `verifyToken`'s `next`, which is called inside its `try`, so a check that throws is
   * answered by the `catch` with the invalid-token 401.
   */
  function Authorize(header: Option<string>, paramsId: Option<string>, verify: string -> Option<Payload>): (o: Outcome)
    ensures Authenticate(header, verify).Err? ==> o == Respond(Authenticate(header, verify).error)
    ensures o == Next <==>
              Authenticate(header, verify).Ok? && OwnerOrAdmin(Authenticate(header, verify).value, paramsId) == Some(true)
    ensures o == Respond(NotOwner) <==>
              Authenticate(header, verify).Ok? && OwnerOrAdmin(Authenticate(header, verify).value, paramsId) == Some(false)
    ensures Authenticate(header, verify).Ok? && OwnerOrAdmin(Authenticate(header, verify).value, paramsId).None?
            ==> o == Respond(BadToken)
  {
    match Authenticate(header, verify)
    case Err(reply) => Respond(reply)
    case Ok(user) =>
      match OwnerOrAdmin(user, paramsId)
      case None => Respond(BadToken)
      case Some(pass) => if pass then Next else Respond(NotOwner)
  }

  /** `isAdmin` (middlewares/verification.js:33-36) on whatever `req.user` holds. */
  function AdminOnly(user: Option<Payload>): (o: Outcome)
    ensures o == Next <==> user.Some? && Truthy(user.value.isAdmin)
    ensures o != Next ==> o == Respond(NotAdmin)
  {
    if user.Some? && Truthy(user.value.isAdmin) then Next else Respond(NotAdmin)
  }

  /** A request whose owner's id was signed into the token reaches its own `:id` route. */
  lemma OwnerPasses(token: string, verify: string -> Option<Payload>, id: string, isAdmin: Json)
    requires ' ' !in token && verify(token) == Some(Payload(Str(id), isAdmin))
    ensures Authorize(Some(Bearer + token), Some(id), verify) == Next
  {
    BearerToken(token, "");
  }

  /** An admin reaches every `:id` route, as long as the token names some user. */
  lemma AdminPassesEveryRoute(header: Option<string>, verify: string -> Option<Payload>, id: string)
    requires Authenticate(header, verify).Ok?
    requires var p := Authenticate(header, verify).value; Truthy(p.isAdmin) && !p.userId.Missing? && !p.userId.Null?
    ensures Authorize(header, Some(id), verify) == Next
  {
  }

  /** A non-admin whose id differs from the route's is refused with 403, not 401. */
  lemma StrangerRefused(header: Option<string>, verify: string -> Option<Payload>, id: string)
    requires Authenticate(header, verify).Ok?
    requires var p := Authenticate(header, verify).value; !Truthy(p.isAdmin) && ToStr(p.userId).Some? && ToStr(p.userId).value != id
    ensures Authorize(header, Some(id), verify) == Respond(NotOwner)
  {
  }

  /**
   * Route ids are compared as text: a numeric `userId` claim matches its decimal numeral, below
   * 2^53, where every integer is a JavaScript number exactly and `toString` prints its digits.
   */
  lemma NumericOwnerPasses(header: Option<string>, verify: string -> Option<Payload>, n: nat)
    requires n < 9_007_199_254_740_992
    requires Authenticate(header, verify).Ok? && Authenticate(header, verify).value.userId == Number(n)
    ensures Authorize(header, Some(Decimal(n)), verify) == Next
  {
  }

  /** A token without a `userId` claim is answered as an invalid token, even for an admin. */
  lemma MissingUserIdIsBadToken(header: Option<string>, verify: string -> Option<Payload>, id: string)
    requires Authenticate(header, verify).Ok? && Authenticate(header, verify).value.userId == Missing
    ensures Authorize(header, Some(id), verify) == Respond(BadToken)
  {
  }

  /** `[verifyToken, isAdmin]` in sequence: an admin token passes both, anything else is stopped by one of them. */
  lemma AdminChain(header: Option<string>, verify: string -> Option<Payload>)
    ensures var a := Authenticate(header, verify);
            (a.Ok? && AdminOnly(Some(a.value)) == Next) <==>
              (HasBearer(header) && verify(TokenOf(header.value)).Some? && Truthy(verify(TokenOf(header.value)).value.isAdmin))
  {
  }

  /** An Express request as the middleware sees it: the header, the route `id`, and `req.user`. */
  class Request {
    const authorization: Option<string>
    const paramsId: Option<string>
    var user: Option<Payload>

    /** A request as it arrives, before any middleware ran. */
    constructor (authorization: Option<string>, paramsId: Option<string>)
      ensures this.authorization == authorization && this.paramsId == paramsId && user == None
    {
      this.authorization := authorization;
      this.paramsId := paramsId;
      user := None;
    }

    /** `verifyToken`: sets `req.user` exactly when it calls `next`. */
    method VerifyToken(verify: string -> Option<Payload>) returns (o: Outcome)
      modifies this`user
      ensures o == Next <==> Authenticate(authorization, verify).Ok?
      ensures o != Next ==> o == Respond(Authenticate(authorization, verify).error) && user == old(user)
      ensures o == Next ==> user == Some(Authenticate(authorization, verify).value)
    {
      var header := authorization;
      if !(header.Some? && Bearer <= header.value) {
        return Respond(NoToken);
      }
      var token := TokenOf(header.value);
      var decoded := verify(token);
      if decoded.None? {
        return Respond(BadToken);
      }
      user := decoded;
      o := Next;
    }

    /** `verifyTokenAndAuthorization`: `req.user` stays set even when the ownership check refuses. */
    method VerifyTokenAndAuthorization(verify: string -> Option<Payload>) returns (o: Outcome)
      modifies this`user
      ensures o == Authorize(authorization, paramsId, verify)
      ensures user == (if Authenticate(authorization, verify).Ok? then Some(Authenticate(authorization, verify).value) else old(user))
    {
      o := VerifyToken(verify);
      if o != Next {
        return;
      }
      var u := user.value;
      var userId := ToStr(u.userId);
      if userId.None? || paramsId.None? {
        return Respond(BadToken);
      }
      if userId.value == paramsId.value || Truthy(u.isAdmin) {
        o := Next;
      } else {
        o := Respond(NotOwner);
      }
    }

    /** `isAdmin`. */
    method IsAdmin() returns (o: Outcome)
      ensures o == AdminOnly(user)
    {
      if user.Some? && Truthy(user.value.isAdmin) {
        o := Next;
      } else {
        o := Respond(NotAdmin);
      }
    }
  }
}
