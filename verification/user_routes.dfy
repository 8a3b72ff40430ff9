/** The `/users` router: which handler serves each verb on the collection
    (`/`) and on one member (`/:uid`), and which rights the gate in front of
    it demands. */
module UserRoutes {
  import opened Outcomes
  import Roles
  import opened AuthMiddleware
  import Strings
  import SessionModel
  import SessionService
  import UserModel

  datatype Verb = Get | Post | Patch | Delete

  /** `/` or `/:uid`. */
  datatype Target = Root | ByUid(uid: string)

  datatype Handler = QueryAll | Create | GetOne | Update | Remove

  /** One registered route: the verb, the path pattern (true for `/:uid`),
      the rights handed to `authMiddleware`, and the controller action. */
  datatype Endpoint = Endpoint(verb: Verb, byUid: bool, rights: seq<Roles.Right>, handler: Handler)

  /** The registrations, in declaration order. */
  const Table: seq<Endpoint> := [
    Endpoint(Get, false, [Roles.GetUsers], QueryAll),
    Endpoint(Post, false, [Roles.ManageUsers], Create),
    Endpoint(Get, true, [Roles.GetUsers], GetOne),
    Endpoint(Patch, true, [Roles.ManageUsers], Update),
    Endpoint(Delete, true, [Roles.ManageUsers], Remove)
  ]

  predicate Serves(e: Endpoint, verb: Verb, target: Target)
  {
    e.verb == verb && e.byUid == target.ByUid?
  }

  /** The first registration that serves the request; `None` is a 404 from the framework. */
  function Resolve(verb: Verb, target: Target): (r: Option<Endpoint>)
    ensures r.Some? <==> exists k :: 0 <= k < |Table| && Serves(Table[k], verb, target)
    ensures r.Some? ==> r.value in Table && Serves(r.value, verb, target)
  {
    if Serves(Table[0], verb, target) then Some(Table[0])
    else if Serves(Table[1], verb, target) then Some(Table[1])
    else if Serves(Table[2], verb, target) then Some(Table[2])
    else if Serves(Table[3], verb, target) then Some(Table[3])
    else if Serves(Table[4], verb, target) then Some(Table[4])
    else None
  }

  /** Reads need `getUsers`, writes need `manageUsers`; only `POST /:uid` and
      `PATCH /`, `DELETE /` are not routed. */
  lemma {:induction false} RouteRights(verb: Verb, target: Target)
    ensures Resolve(verb, target).Some? <==>
      (verb == Get || (verb == Post && target.Root?) || (verb != Post && target.ByUid?))
    ensures Resolve(verb, target).Some? ==>
      Resolve(verb, target).value.rights == (if verb == Get then [Roles.GetUsers] else [Roles.ManageUsers])
  {
    var r := Resolve(verb, target);
    if r.Some? {
      var k :| 0 <= k < |Table| && Table[k] == r.value;
    }
  }

  /** Every route demands at least one right, so the `user` role, which grants
      none, is refused on all of them. */
  lemma UserRoleForbiddenEverywhere(verb: Verb, target: Target)
    requires Resolve(verb, target).Some?
    ensures |Resolve(verb, target).value.rights| > 0
    ensures VerifyCallback(Roles.User, Resolve(verb, target).value.rights) == Err(ForbiddenError)
  {
    var k :| 0 <= k < |Table| && Table[k] == Resolve(verb, target).value;
  }

  /** At the request level: a user with role `user` holding a live session is
      refused with Forbidden on every route. */
  lemma UserRoleRefusedByGate(sessions: seq<SessionModel.Session>, users: seq<UserModel.User>, now: int,
                              req: Request, verb: Verb, target: Target)
    requires Resolve(verb, target).Some?
    requires Strings.Truthy(ExtractToken(req))
    requires SessionService.CheckAccess(sessions, ExtractToken(req).value, now).Ok?
    requires var owner := Owner(users, SessionService.CheckAccess(sessions, ExtractToken(req).value, now).value);
      owner.Some? && users[owner.value].role == Roles.User
    ensures Authenticate(sessions, users, now, req, Resolve(verb, target).value.rights) == Err(ForbiddenError)
  {
    UserRoleForbiddenEverywhere(verb, target);
  }

  /** The `admin` role passes the rights check of every route. */
  lemma AdminAllowedEverywhere(verb: Verb, target: Target)
    requires Resolve(verb, target).Some?
    ensures VerifyCallback(Roles.Admin, Resolve(verb, target).value.rights).Ok?
  {
    var k :| 0 <= k < |Table| && Table[k] == Resolve(verb, target).value;
  }
}
