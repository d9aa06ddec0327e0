/** The two guards in front of the player and leaderboard routes: the
    token check that admits any signed-in user, and the role check that
    admits administrators only. Token verification is the parameter
    `verify`, which answers `None` where the signature check throws. */
module Auth {
  import opened Wrappers
  import opened Text

  /** The verified token's claims that the guards look at. */
  datatype Payload = Payload(subject: Option<string>, role: Option<string>)

  /** A response the guard sends itself, ending the request. */
  datatype Reply = Reply(status: int, error: string)

  const Unauthorized := Reply(401, "Unauthorized")
  const InvalidToken := Reply(401, "Invalid token")
  const Forbidden := Reply(403, "Forbidden")

  /** The token: the `token` cookie when it is non-empty, otherwise the
      `Authorization` header with its first `"Bearer "` removed. `None`
      stands for a missing or empty token. */
  function ExtractToken(cookie: Option<string>, authorization: Option<string>): (r: Option<string>)
    ensures r.Some? ==> r.value != ""
    ensures cookie.Some? && cookie.value != "" ==> r == cookie
    ensures r.None? <==> (cookie.None? || cookie.value == "") &&
                         (authorization.None? || RemoveFirst(authorization.value, "Bearer ") == "")
    ensures (cookie.None? || cookie.value == "") && r.Some? ==>
      authorization.Some? && r.value == RemoveFirst(authorization.value, "Bearer ")
  {
    if cookie.Some? && cookie.value != "" then cookie
    else if authorization.Some? && RemoveFirst(authorization.value, "Bearer ") != "" then
      Some(RemoveFirst(authorization.value, "Bearer "))
    else None
  }

  /** A `Bearer` header gives back the token it carries. */
  lemma BearerHeader(token: string)
    requires token != ""
    ensures ExtractToken(None, Some("Bearer " + token)) == Some(token)
    ensures ExtractToken(Some(""), Some("Bearer " + token)) == Some(token)
  {
    assert StartsWith("Bearer " + token, "Bearer ");
  }

  /** A header without `"Bearer "` anywhere in it is taken whole as the token. */
  lemma HeaderWithoutBearer(header: string)
    requires header != "" && !Contains(header, "Bearer ")
    ensures ExtractToken(None, Some(header)) == Some(header)
  {
  }

  /** With `"Bearer "` further in, only its first occurrence is cut out and
      the text around it is kept. */
  lemma HeaderCutsFirstBearer(before: string, after: string)
    requires 'B' !in before
    requires before + after != ""
    ensures ExtractToken(None, Some(before + "Bearer " + after)) == Some(before + after)
  {
    var h := before + "Bearer " + after;
    var i := |before|;
    forall j | 0 <= j < i
      ensures !StartsWith(h[j..], "Bearer ")
    {
      assert h[j] == before[j];
    }
    assert h[i..i + 7] == "Bearer ";
    FirstOccurrenceAt(h, "Bearer ", i);
    assert h[..i] == before && h[i + 7..] == after;
  }

  /** The cookie wins over the header whenever it is non-empty. */
  lemma CookieFirst(cookie: string, authorization: Option<string>)
    requires cookie != ""
    ensures ExtractToken(Some(cookie), authorization) == Some(cookie)
  {
  }

  datatype AuthResult = Admitted(user: Payload) | Rejected(reply: Reply)

  /** `requireAuth`: no token is 401 "Unauthorized", a token that fails
      verification is 401 "Invalid token", otherwise the payload is the user. */
  function Authenticate(cookie: Option<string>, authorization: Option<string>,
                        verify: string -> Option<Payload>): (r: AuthResult)
    ensures r.Rejected? ==> r.reply.status == 401
    ensures r == Rejected(Unauthorized) <==> ExtractToken(cookie, authorization).None?
    ensures r == Rejected(InvalidToken) <==>
      ExtractToken(cookie, authorization).Some? && verify(ExtractToken(cookie, authorization).value).None?
    ensures r.Admitted? ==> Some(r.user) == verify(ExtractToken(cookie, authorization).value)
  {
    match ExtractToken(cookie, authorization)
    case None => Rejected(Unauthorized)
    case Some(token) =>
      match verify(token)
      case None => Rejected(InvalidToken)
      case Some(payload) => Admitted(payload)
  }

  /** `requireAdmin`: the user passes exactly when its role is `"admin"`. */
  function AdminCheck(user: Option<Payload>): (r: Option<Reply>)
    ensures r.None? <==> user.Some? && user.value.role == Some("admin")
    ensures r.Some? ==> r.value == Forbidden
  {
    if user.Some? && user.value.role == Some("admin") then None else Some(Forbidden)
  }

  /** The mutation routes run `requireAuth` and then `requireAdmin`: a
      request that fails the token check keeps that check's 401 and never
      sees a 403; a verified user without the admin role gets 403; exactly
      the verified admins get through, as themselves. */
  function AdminChain(cookie: Option<string>, authorization: Option<string>,
                      verify: string -> Option<Payload>): (r: AuthResult)
    ensures Authenticate(cookie, authorization, verify).Rejected? ==>
      r == Authenticate(cookie, authorization, verify) && r.reply.status == 401
    ensures Authenticate(cookie, authorization, verify).Admitted? ==>
      var user := Authenticate(cookie, authorization, verify).user;
      r == if user.role == Some("admin") then Admitted(user) else Rejected(Forbidden)
    ensures r.Rejected? && r.reply.status == 403 <==>
      Authenticate(cookie, authorization, verify).Admitted?
      && Authenticate(cookie, authorization, verify).user.role != Some("admin")
  {
    match Authenticate(cookie, authorization, verify)
    case Rejected(reply) => Rejected(reply)
    case Admitted(user) =>
      match AdminCheck(Some(user))
      case None => Admitted(user)
      case Some(reply) => Rejected(reply)
  }

  /** One request passing through the guards: the user they attach, the
      reply they send, and how many times they hand on to the next handler. */
  class Exchange {
    var user: Option<Payload>
    var reply: Option<Reply>
    var nextCalls: nat

    constructor ()
      ensures user.None? && reply.None? && nextCalls == 0
    {
      user := None;
      reply := None;
      nextCalls := 0;
    }

    method RequireAuth(cookie: Option<string>, authorization: Option<string>, verify: string -> Option<Payload>)
      modifies this
      ensures match Authenticate(cookie, authorization, verify)
        case Admitted(p) => user == Some(p) && reply == old(reply) && nextCalls == old(nextCalls) + 1
        case Rejected(rep) => user == old(user) && reply == Some(rep) && nextCalls == old(nextCalls)
    {
      var token := ExtractToken(cookie, authorization);
      if token.None? {
        reply := Some(Unauthorized);
        return;
      }
      var payload := verify(token.value);
      if payload.None? {
        reply := Some(InvalidToken);
        return;
      }
      user := payload;
      nextCalls := nextCalls + 1;
    }

    method RequireAdmin()
      modifies this
      ensures user == old(user)
      ensures AdminCheck(user).None? ==> reply == old(reply) && nextCalls == old(nextCalls) + 1
      ensures AdminCheck(user).Some? ==> reply == AdminCheck(user) && nextCalls == old(nextCalls)
    {
      if user.None? || user.value.role != Some("admin") {
        reply := Some(Forbidden);
        return;
      }
      nextCalls := nextCalls + 1;
    }
  }

  /** Runs the guard chain of a mutation route on a fresh request: the second
      guard runs only if the first handed on. `reached` says whether the route
      handler is reached; otherwise `reply` is the guard's answer. */
  method RunAdminChain(cookie: Option<string>, authorization: Option<string>, verify: string -> Option<Payload>)
    returns (reached: bool, reply: Option<Reply>)
    ensures reached <==> AdminChain(cookie, authorization, verify).Admitted?
    ensures reached ==> reply.None?
    ensures !reached ==> reply == Some(AdminChain(cookie, authorization, verify).reply)
  {
    var ex := new Exchange();
    ex.RequireAuth(cookie, authorization, verify);
    if ex.nextCalls == 1 {
      ex.RequireAdmin();
    }
    reached := ex.nextCalls == 2;
    reply := ex.reply;
  }
}
