/** The authorization gate put in front of the protected routes: the access
    token is read from the `accessToken` cookie or the `Authorization`
    header, checked against the session store, the session's user is
    loaded, and the user's role must grant every right the route requires. */
module AuthMiddleware {
  import opened Outcomes
  import opened Strings
  import opened Collection
  import Roles
  import opened SessionModel
  import opened SessionService
  import opened UserModel
  import opened Database

  /** What a request carries that the gate reads; an absent value is `None`. */
  datatype Request = Request(cookie: Option<string>, authorization: Option<string>)

  /** `res.locals` once the gate lets the request through. */
  datatype Locals = Locals(user: User, userId: ObjectId, accessToken: Token)

  const BearerPrefix := "Bearer "

  /** `verifyCallback(role, requiredRights)`: nothing is required, or the role
      grants every required right. A role with no rights at all is refused
      outright when anything is required. */
  function VerifyCallback(role: Roles.Role, required: seq<Roles.Right>): (r: Result<()>)
    ensures r.Ok? <==> forall k :: 0 <= k < |required| ==> required[k] in Roles.RoleRights(role)
    ensures r.Err? ==> r.failure == ForbiddenError
    ensures |required| == 0 ==> r.Ok?
    ensures |required| > 0 && |Roles.RoleRights(role)| == 0 ==> r == Err(ForbiddenError)
  {
    if |required| == 0 then Ok(())
    else
      var granted := Roles.RoleRights(role);
      if |granted| == 0 then
        assert required[0] !in granted;
        Err(ForbiddenError)
      else if forall k :: 0 <= k < |required| ==> required[k] in granted then Ok(())
      else Err(ForbiddenError)
  }

  /** `req.cookies.accessToken || req.header("Authorization")?.replace("Bearer ", "")`:
      a non-empty cookie wins; otherwise the header with its first `"Bearer "`
      removed, wherever it occurs. */
  function ExtractToken(req: Request): (t: Option<string>)
    ensures Truthy(req.cookie) ==> t == req.cookie
    ensures !Truthy(req.cookie) && req.authorization.None? ==> t.None?
    ensures !Truthy(req.cookie) && req.authorization.Some? ==> t.Some? && |t.value| <= |req.authorization.value|
    ensures (!Truthy(req.cookie) && req.authorization.Some?
             && forall j :: !OccursAt(req.authorization.value, BearerPrefix, j)) ==> t == req.authorization
    ensures !Truthy(req.cookie) && req.authorization.Some? ==>
      var h := req.authorization.value;
      forall i :: OccursAt(h, BearerPrefix, i) && (forall j :: 0 <= j < i ==> !OccursAt(h, BearerPrefix, j))
        ==> t == Some(h[..i] + h[i + |BearerPrefix|..])
  {
    if Truthy(req.cookie) then req.cookie
    else if req.authorization.None? then None
    else
      var h := req.authorization.value;
      var r := ReplaceFirst(h, BearerPrefix, "");
      assert forall i :: (OccursAt(h, BearerPrefix, i) && (forall j :: 0 <= j < i ==> !OccursAt(h, BearerPrefix, j))
                          ==> r == h[..i] + h[i + |BearerPrefix|..]) by {
        forall i | OccursAt(h, BearerPrefix, i) && (forall j :: 0 <= j < i ==> !OccursAt(h, BearerPrefix, j))
          ensures r == h[..i] + h[i + |BearerPrefix|..]
        {
          RemoveFirstOccurrence(h, BearerPrefix, i);
        }
      }
      Some(r)
  }

  /** A header of the form `Bearer <token>` yields exactly the token. */
  lemma BearerHeaderYieldsToken(tok: string)
    ensures ExtractToken(Request(None, Some(BearerPrefix + tok))) == Some(tok)
  {
    ReplaceFirstAtStart(BearerPrefix, tok, "");
    assert "" + tok == tok;
  }

  /** There is no prefix check: the first `"Bearer "` is cut out of the middle
      of the header as well. */
  lemma BearerRemovedAnywhere()
    ensures ExtractToken(Request(None, Some("xBearer y"))) == Some("xy")
  {
    var h := "xBearer y";
    assert !OccursAt(h, BearerPrefix, 0) by { assert h[0] != BearerPrefix[0]; }
    assert OccursAt(h, BearerPrefix, 1) by { assert h[1..8] == BearerPrefix; }
    assert h[..1] + "" + h[8..] == "xy";
  }

  /** The cookie, when non-empty, shadows any header. */
  lemma CookieWins(cookie: string, header: Option<string>)
    requires cookie != ""
    ensures ExtractToken(Request(Some(cookie), header)) == Some(cookie)
  {
  }

  /** The populated `user` of a session: the first user whose `_id` is the reference. */
  function Owner(users: seq<User>, s: Session): (r: Option<nat>)
    ensures r.Some? ==> r.value < |users| && users[r.value].id == s.user
    ensures r.None? <==> forall j :: 0 <= j < |users| ==> users[j].id != s.user
  {
    FindFirst(users, (u: User) => u.id == s.user)
  }

  /** `authMiddleware(...requiredRights)` applied to one request: token, then
      session, then the session's user, then the rights. A session whose user
      no longer exists makes the populated user null and the role read fail. */
  function Authenticate(sessions: seq<Session>, users: seq<User>, now: int, req: Request,
                        required: seq<Roles.Right>): (r: Result<Locals>)
    ensures !Truthy(ExtractToken(req)) ==> r == Err(PleaseAuthenticate)
    ensures Truthy(ExtractToken(req)) && CheckAccess(sessions, ExtractToken(req).value, now).Err?
            ==> r == Err(PleaseAuthenticate)
    ensures Truthy(ExtractToken(req)) && CheckAccess(sessions, ExtractToken(req).value, now).Ok? ==>
      var owner := Owner(users, CheckAccess(sessions, ExtractToken(req).value, now).value);
      && (owner.None? ==> r == Err(DanglingUser))
      && (owner.Some? && VerifyCallback(users[owner.value].role, required).Err? ==> r == Err(ForbiddenError))
    ensures r.Ok? ==>
      && Truthy(ExtractToken(req))
      && r.value.accessToken == ExtractToken(req).value
      && CheckAccess(sessions, r.value.accessToken, now).Ok?
      && r.value.user.id == CheckAccess(sessions, r.value.accessToken, now).value.user
      && r.value.userId == r.value.user.id
      && r.value.user in users
      && VerifyCallback(r.value.user.role, required).Ok?
    ensures r.Ok? <==>
      && Truthy(ExtractToken(req))
      && CheckAccess(sessions, ExtractToken(req).value, now).Ok?
      && Owner(users, CheckAccess(sessions, ExtractToken(req).value, now).value).Some?
      && VerifyCallback(users[Owner(users, CheckAccess(sessions, ExtractToken(req).value, now).value).value].role,
                        required).Ok?
  {
    var token := ExtractToken(req);
    if !Truthy(token) then Err(PleaseAuthenticate)
    else
      var auth := CheckAccess(sessions, token.value, now);
      if auth.Err? then Err(auth.failure)
      else
        var owner := Owner(users, auth.value);
        if owner.None? then Err(DanglingUser)
        else
          var user := users[owner.value];
          var verdict := VerifyCallback(user.role, required);
          if verdict.Err? then Err(verdict.failure)
          else Ok(Locals(user, user.id, token.value))
  }

  /** A missing or empty token is refused before the session store is read:
      the verdict is the same whatever the store holds. */
  lemma NoTokenIgnoresStore(sessions: seq<Session>, sessions': seq<Session>, users: seq<User>, users': seq<User>,
                            now: int, now': int, req: Request, required: seq<Roles.Right>)
    requires !Truthy(ExtractToken(req))
    ensures Authenticate(sessions, users, now, req, required) == Authenticate(sessions', users', now', req, required)
  {
  }

  /** An expired or unknown token is "Please authenticate" even where the rights
      would have been refused: the rights are checked only after the session. */
  lemma RightsCheckedAfterSession(sessions: seq<Session>, users: seq<User>, now: int, req: Request,
                                  required: seq<Roles.Right>)
    requires Truthy(ExtractToken(req))
    requires forall i :: 0 <= i < |sessions| ==>
      sessions[i].accessToken != ExtractToken(req).value || sessions[i].accessTokenExpires <= now
    ensures Authenticate(sessions, users, now, req, required) == Err(PleaseAuthenticate)
  {
  }

  /** While every session refers to a stored user, `populate("user")` always
      finds one: the gate never fails on a dangling reference, and a live
      session's owner is then judged on its role alone. */
  lemma OwnedSessionsNeverDangle(sessions: seq<Session>, users: seq<User>, now: int, req: Request,
                                 required: seq<Roles.Right>)
    requires SessionsOwned(World(users, sessions))
    ensures Authenticate(sessions, users, now, req, required) != Err(DanglingUser)
  {
    var token := ExtractToken(req);
    if Truthy(token) && CheckAccess(sessions, token.value, now).Ok? {
      var s := CheckAccess(sessions, token.value, now).value;
      var k :| 0 <= k < |sessions| && sessions[k] == s;
      assert Owned(users, sessions[k]);
    }
  }

  /** An administrator holding a live session passes every rights check. */
  lemma AdminPasses(sessions: seq<Session>, users: seq<User>, now: int, tok: string, i: nat, j: nat)
    requires i < |sessions| && j < |users|
    requires tok != "" && sessions[i].accessToken == tok && sessions[i].accessTokenExpires > now
    requires users[j].id == sessions[i].user && users[j].role == Roles.Admin
    requires TokensUnique(sessions) && KeysUnique(users)
    ensures Authenticate(sessions, users, now, Request(Some(tok), None), [Roles.GetUsers, Roles.ManageUsers])
            == Ok(Locals(users[j], users[j].id, tok))
  {
    var s := CheckAccess(sessions, tok, now).value;
    var k :| 0 <= k < |sessions| && sessions[k] == s;
    assert k == i;
    var o := Owner(users, s).value;
    assert o == j;
  }
}
