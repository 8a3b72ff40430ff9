/** The `/users` endpoints: `get`, `create`, `update`, `remove` (which also
    revokes the removed user's sessions) and `queryAll` (a filtered,
    paginated listing). The HTTP responses are not modelled. */
module UserController {
  import opened Outcomes
  import opened Strings
  import opened Collection
  import opened SessionModel
  import SessionService
  import opened UserModel
  import UserService
  import Roles
  import opened Database
  import Pick
  import Paginate

  /** `get`: the user with the uid in the path, or "User not found". */
  function Get(w: World, uid: string): (r: Result<User>)
    ensures r.Err? <==> forall i :: 0 <= i < |w.users| ==> w.users[i].uid != uid
    ensures r.Err? ==> r == Err(UserNotFound)
    ensures r.Ok? ==> r.value in w.users && r.value.uid == uid
  {
    var found := UserService.QueryByUid(w.users, uid);
    if found.None? then Err(UserNotFound) else Ok(w.users[found.value])
  }

  /** `create`: the user service's `create`; sessions are untouched. */
  function Create(w: World, body: NewUser, env: Env): (o: Outcome<User>)
    ensures o.world.sessions == w.sessions
    ensures o.world.users == UserService.Create(w.users, body, env.id, env.freshUid, env.lib).users
    ensures o.result == UserService.Create(w.users, body, env.id, env.freshUid, env.lib).result
  {
    var c := UserService.Create(w.users, body, env.id, env.freshUid, env.lib);
    Outcome(World(c.users, w.sessions), c.result)
  }

  /** `update`: the user service's `updateByUid`; sessions are untouched. */
  function Update(w: World, uid: string, patch: Patch, env: Env): (o: Outcome<User>)
    ensures o.world.sessions == w.sessions
    ensures o.world.users == UserService.UpdateByUid(w.users, uid, patch, env.lib).users
    ensures o.result == UserService.UpdateByUid(w.users, uid, patch, env.lib).result
  {
    var u := UserService.UpdateByUid(w.users, uid, patch, env.lib);
    Outcome(World(u.users, w.sessions), u.result)
  }

  /** `remove`: the user goes, then every session of the user's `_id`; an
      unknown uid is "User not found" and nothing changes. */
  function Remove(w: World, uid: string): (o: Outcome<()>)
    ensures (forall i :: 0 <= i < |w.users| ==> w.users[i].uid != uid) <==> o == Outcome(w, Err(UserNotFound))
    ensures o.result.Ok? <==> UserService.QueryByUid(w.users, uid).Some?
    ensures o.result.Ok? ==>
      var i := UserService.QueryByUid(w.users, uid).value;
      && o.world.users == RemoveAt(w.users, i)
      && o.world.sessions == SessionService.DeleteUser(w.sessions, w.users[i].id).sessions
  {
    var d := UserService.DeleteByUid(w.users, uid);
    if d.result.Err? then Outcome(w, Err(d.result.failure))
    else
      var gone := SessionService.DeleteUser(w.sessions, d.result.value.id);
      Outcome(World(d.users, gone.sessions), Ok(()))
  }

  /** After `remove` every access token of the removed user is refused. */
  lemma RemoveRevokesAccess(w: World, uid: string, k: nat, now: int)
    requires TokensUnique(w.sessions)
    requires Remove(w, uid).result.Ok?
    requires k < |w.sessions| && w.sessions[k].user == w.users[UserService.QueryByUid(w.users, uid).value].id
    ensures SessionService.CheckAccess(Remove(w, uid).world.sessions, w.sessions[k].accessToken, now)
            == Err(PleaseAuthenticate)
  {
    var i := UserService.QueryByUid(w.users, uid).value;
    SessionService.DeleteUserRevokesAccess(w.sessions, w.users[i].id, k, now);
  }

  /** After `remove` the uid is unknown, given the `uid` index. */
  lemma RemovedUserNotFound(w: World, uid: string)
    requires KeysUnique(w.users)
    requires Remove(w, uid).result.Ok?
    ensures Get(Remove(w, uid).world, uid) == Err(UserNotFound)
  {
    UserService.DeletedUserNotFound(w.users, uid);
  }

  /** Removing a user with its sessions keeps every session owned, given the
      `_id` index. */
  lemma RemoveKeepsSessionsOwned(w: World, uid: string)
    requires KeysUnique(w.users) && SessionsOwned(w)
    ensures SessionsOwned(Remove(w, uid).world)
  {
    var o := Remove(w, uid);
    if o.result.Ok? {
      var i := UserService.QueryByUid(w.users, uid).value;
      OwnedAfterCascade(w, i, o.world.users, o.world.sessions);
    }
  }

  // -----------------------------------------------------------------------
  // queryAll

  /** A parsed query string: each parameter with its string value. */
  type Query = map<string, string>

  /** `pickObjProps(req.query, ["name", "role"])`. */
  function Filter(query: Query): (filter: Query)
    ensures forall k :: k in filter <==> (k == "name" || k == "role") && k in query
    ensures forall k :: k in filter ==> filter[k] == query[k]
  {
    Pick.Pick(Some(query), ["name", "role"])
  }

  /** `pickObjProps(req.query, ["sortBy", "limit", "page"])`, read as the
      paginate options; `populate` is never passed on. */
  function PageOptions(query: Query): (options: Paginate.Options)
    ensures options.populate.None?
    ensures options.sortBy == (if "sortBy" in query then Some(query["sortBy"]) else None)
    ensures options.limit == (if "limit" in query then Some(query["limit"]) else None)
    ensures options.page == (if "page" in query then Some(query["page"]) else None)
  {
    var picked := Pick.Pick(Some(query), ["sortBy", "limit", "page"]);
    Paginate.Options(
      if "sortBy" in picked then Some(picked["sortBy"]) else None,
      None,
      if "limit" in picked then Some(picked["limit"]) else None,
      if "page" in picked then Some(picked["page"]) else None)
  }

  /** Whether a user matches the filter: equality on each filtered field,
      with the `name` value put through the path's `trim` setter. */
  predicate Matches(u: User, filter: Query)
  {
    && ("name" in filter ==> u.name == Trim(filter["name"]))
    && ("role" in filter ==> Roles.Name(u.role) == filter["role"])
  }

  /** The documents `find(filter)` returns, in collection order. */
  function Select(users: seq<User>, filter: Query): (r: seq<User>)
    ensures |r| <= |users|
    ensures forall j :: 0 <= j < |r| ==> r[j] in users && Matches(r[j], filter)
    ensures forall j :: 0 <= j < |users| && Matches(users[j], filter) ==> users[j] in r
  {
    if |users| == 0 then []
    else
      var rest := Select(users[1..], filter);
      assert forall j :: 1 <= j < |users| ==> users[j] == users[1..][j - 1];
      if Matches(users[0], filter) then [users[0]] + rest else rest
  }

  /** `queryAll`: the filtered users, paginated with the picked options. */
  function QueryAll(w: World, query: Query): (p: Paginate.Page<User>)
    ensures p.totalResults == |Select(w.users, Filter(query))|
    ensures p.limit == Paginate.EffectiveLimit(PageOptions(query))
    ensures p.page == Paginate.EffectivePage(PageOptions(query))
    ensures forall j :: 0 <= j < |p.results| ==> p.results[j] in w.users && Matches(p.results[j], Filter(query))
    ensures |p.results| <= p.limit
  {
    Paginate.Paginate(Select(w.users, Filter(query)), PageOptions(query))
  }

  /** Query parameters other than `name`, `role`, `sortBy`, `limit` and `page`
      change nothing. */
  lemma QueryAllIgnoresOtherParameters(w: World, query: Query, k: string, v: string)
    requires k != "name" && k != "role" && k != "sortBy" && k != "limit" && k != "page"
    ensures QueryAll(w, query[k := v]) == QueryAll(w, query)
  {
    assert Filter(query[k := v]) == Filter(query);
    assert PageOptions(query[k := v]) == PageOptions(query);
  }

  /** Without `name` and `role` every user is selected. */
  lemma {:induction false} UnfilteredSelectsAll(users: seq<User>, query: Query)
    requires "name" !in query && "role" !in query
    ensures Select(users, Filter(query)) == users
    decreases |users|
  {
    if |users| > 0 {
      UnfilteredSelectsAll(users[1..], query);
      assert [users[0]] + users[1..] == users;
    }
  }
}
