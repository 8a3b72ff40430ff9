/** The authentication endpoints: the order in which `register`, `login`,
    `logout` and `refreshTokens` call the user and session services, and what
    each leaves behind in the two collections. The HTTP responses are not
    modelled. */
module AuthController {
  import opened Outcomes
  import opened Strings
  import opened SessionModel
  import SessionService
  import opened UserModel
  import UserService
  import Roles
  import opened Database

  /** `register`: the user is created first; only then is a session generated
      for the new user's `_id`. A session whose tokens collide is refused after
      the user was stored, so the user stays, without a session. */
  function Register(w: World, body: NewUser, env: Env): (o: Outcome<(User, Session)>)
    ensures UserService.Create(w.users, body, env.id, env.freshUid, env.lib).result.Err? ==>
      o == Outcome(w, Err(UserService.Create(w.users, body, env.id, env.freshUid, env.lib).result.failure))
    ensures IsEmailTaken(w.users, body.email, None) ==> o == Outcome(w, Err(EmailTaken))
    ensures o.result.Ok? ==>
      UserService.Create(w.users, body, env.id, env.freshUid, env.lib) == UserService.Step(o.world.users, Ok(o.result.value.0))
    ensures o.result.Ok? ==>
      var (u, s) := o.result.value;
      && o.world.users == w.users + [u]
      && o.world.sessions == w.sessions + [s]
      && s.user == u.id
    ensures (UserService.Create(w.users, body, env.id, env.freshUid, env.lib).result.Ok?
             && FreshFor(w.sessions, env.tokens)) ==> o.result.Ok?
    ensures (UserService.Create(w.users, body, env.id, env.freshUid, env.lib).result.Ok? && o.result.Err?) ==>
      && o.world.users == UserService.Create(w.users, body, env.id, env.freshUid, env.lib).users
      && o.world.sessions == w.sessions
      && o.result.failure.DuplicateKey?
  {
    var created := UserService.Create(w.users, body, env.id, env.freshUid, env.lib);
    if created.result.Err? then Outcome(w, Err(created.result.failure))
    else
      var u := created.result.value;
      var g := SessionService.GenerateSession(w.sessions, u.id, env.tokens, env.now, env.cfg);
      if g.result.Err? then Outcome(World(created.users, w.sessions), Err(g.result.failure))
      else Outcome(World(created.users, g.sessions), Ok((u, g.result.value)))
  }

  /** The body's `role` is assigned like any other field, so a caller can
      register as an administrator. */
  lemma RegisterHonoursRequestedRole(w: World, body: NewUser, env: Env)
    requires body.role == Some("admin")
    requires Register(w, body, env).result.Ok?
    ensures Register(w, body, env).result.value.0.role == Roles.Admin
  {
    UserService.CreateHonoursRequestedRole(w.users, body, env.id, env.freshUid, env.lib);
  }

  /** `login`: look the user up by email, compare the password as given; an
      unknown email and a wrong password throw the same error. */
  function Login(w: World, email: string, password: string, env: Env): (o: Outcome<(User, Session)>)
    ensures UserService.QueryByEmail(w.users, email).None? ==> o == Outcome(w, Err(BadCredentials))
    ensures (UserService.QueryByEmail(w.users, email).Some?
             && !IsPasswordMatch(env.lib, w.users[UserService.QueryByEmail(w.users, email).value], password))
            ==> o == Outcome(w, Err(BadCredentials))
    ensures (UserService.QueryByEmail(w.users, email).Some?
             && IsPasswordMatch(env.lib, w.users[UserService.QueryByEmail(w.users, email).value], password))
            ==> o.result.Ok? || o.result.failure.DuplicateKey?
    ensures (UserService.QueryByEmail(w.users, email).Some?
             && IsPasswordMatch(env.lib, w.users[UserService.QueryByEmail(w.users, email).value], password)
             && FreshFor(w.sessions, env.tokens))
            ==> o.result.Ok?
    ensures o.world.users == w.users
    ensures o.result.Ok? ==>
      var (u, s) := o.result.value;
      && UserService.QueryByEmail(w.users, email).Some?
      && u == w.users[UserService.QueryByEmail(w.users, email).value]
      && IsPasswordMatch(env.lib, u, password)
      && o.world.sessions == w.sessions + [s]
      && s.user == u.id
    ensures o.result.Err? ==> o.world == w
  {
    var found := UserService.QueryByEmail(w.users, email);
    if found.None? then Outcome(w, Err(BadCredentials))
    else
      var u := w.users[found.value];
      if !IsPasswordMatch(env.lib, u, password) then Outcome(w, Err(BadCredentials))
      else
        var g := SessionService.GenerateSession(w.sessions, u.id, env.tokens, env.now, env.cfg);
        if g.result.Err? then Outcome(w, Err(g.result.failure))
        else Outcome(World(w.users, g.sessions), Ok((u, g.result.value)))
  }

  /** An unknown email and a wrong password cannot be told apart. */
  lemma LoginFailuresIndistinguishable(w: World, email: string, other: string, password: string, env: Env)
    requires UserService.QueryByEmail(w.users, email).None?
    requires UserService.QueryByEmail(w.users, other).Some?
    requires !IsPasswordMatch(env.lib, w.users[UserService.QueryByEmail(w.users, other).value], password)
    ensures Login(w, email, password, env) == Login(w, other, password, env)
  {
  }

  /** `logout`: the token from the body goes straight to the session service. */
  function Logout(w: World, accessToken: Token): (o: Outcome<()>)
    ensures o.world.users == w.users
    ensures o.world.sessions == SessionService.Logout(w.sessions, accessToken).sessions
    ensures o.result == SessionService.Logout(w.sessions, accessToken).result
  {
    var r := SessionService.Logout(w.sessions, accessToken);
    Outcome(World(w.users, r.sessions), r.result)
  }

  /** `refreshTokens`: the token from the body goes straight to the session service. */
  function RefreshTokens(w: World, refreshToken: Token, env: Env): (o: Outcome<Session>)
    ensures o.world.users == w.users
    ensures o.world.sessions == SessionService.RefreshSession(w.sessions, refreshToken, env.tokens, env.now, env.cfg).sessions
    ensures o.result == SessionService.RefreshSession(w.sessions, refreshToken, env.tokens, env.now, env.cfg).result
  {
    var r := SessionService.RefreshSession(w.sessions, refreshToken, env.tokens, env.now, env.cfg);
    Outcome(World(w.users, r.sessions), r.result)
  }

  // -----------------------------------------------------------------------
  // Registering, then logging in with the same password

  /** The user `register` just stored is the one `login` finds by the same email. */
  lemma RegisteredUserFound(w: World, body: NewUser, env: Env)
    requires Register(w, body, env).result.Ok?
    ensures var w' := Register(w, body, env).world;
      var found := UserService.QueryByEmail(w'.users, body.email);
      found.Some? && w'.users[found.value] == Register(w, body, env).result.value.0
  {
    UserService.CreatedFoundByEmail(w.users, body, env.id, env.freshUid, env.lib);
  }

  /** As written: a password with surrounding white space is trimmed when it is
      stored, but compared untrimmed at login, so the same password is refused. */
  lemma PaddedPasswordLocksOut(w: World, body: NewUser, env: Env, env': Env)
    requires Register(w, body, env).result.Ok?
    requires Trim(body.password) != body.password
    requires env'.lib == env.lib && HashInjective(env.lib)
    ensures Login(Register(w, body, env).world, body.email, body.password, env') ==
            Outcome(Register(w, body, env).world, Err(BadCredentials))
  {
    RegisteredUserFound(w, body, env);
    var u := Register(w, body, env).result.value.0;
    assert u.password == env.lib.hash(Trim(body.password));
    assert env.lib.hash(body.password) != env.lib.hash(Trim(body.password));
  }

  /** As written, a password without surrounding white space logs in. */
  lemma RegisterThenLogin(w: World, body: NewUser, env: Env, env': Env)
    requires Register(w, body, env).result.Ok?
    requires Trim(body.password) == body.password
    requires env'.lib == env.lib
    requires FreshFor(Register(w, body, env).world.sessions, env'.tokens)
    ensures Login(Register(w, body, env).world, body.email, body.password, env').result.Ok?
  {
    RegisteredUserFound(w, body, env);
  }

  /** `isPasswordMatch` with the candidate put through the path's setter, as the
      stored value was. */
  predicate IsPasswordMatchTrimmed(lib: Libraries, u: User, candidate: string)
  {
    lib.hash(Trim(candidate)) == u.password
  }

  /** `login` comparing the trimmed candidate. */
  function LoginTrimmed(w: World, email: string, password: string, env: Env): (o: Outcome<(User, Session)>)
    ensures UserService.QueryByEmail(w.users, email).None? ==> o == Outcome(w, Err(BadCredentials))
    ensures (UserService.QueryByEmail(w.users, email).Some?
             && !IsPasswordMatchTrimmed(env.lib, w.users[UserService.QueryByEmail(w.users, email).value], password))
            ==> o == Outcome(w, Err(BadCredentials))
    ensures (UserService.QueryByEmail(w.users, email).Some?
             && IsPasswordMatchTrimmed(env.lib, w.users[UserService.QueryByEmail(w.users, email).value], password))
            ==> o.result.Ok? || o.result.failure.DuplicateKey?
    ensures (UserService.QueryByEmail(w.users, email).Some?
             && IsPasswordMatchTrimmed(env.lib, w.users[UserService.QueryByEmail(w.users, email).value], password)
             && FreshFor(w.sessions, env.tokens))
            ==> o.result.Ok?
    ensures o.world.users == w.users
    ensures o.result.Ok? ==>
      var (u, s) := o.result.value;
      && UserService.QueryByEmail(w.users, email).Some?
      && u == w.users[UserService.QueryByEmail(w.users, email).value]
      && IsPasswordMatchTrimmed(env.lib, u, password)
      && o.world.sessions == w.sessions + [s]
      && s.user == u.id
    ensures o.result.Err? ==> o.world == w
  {
    var found := UserService.QueryByEmail(w.users, email);
    if found.None? then Outcome(w, Err(BadCredentials))
    else
      var u := w.users[found.value];
      if !IsPasswordMatchTrimmed(env.lib, u, password) then Outcome(w, Err(BadCredentials))
      else
        var g := SessionService.GenerateSession(w.sessions, u.id, env.tokens, env.now, env.cfg);
        if g.result.Err? then Outcome(w, Err(g.result.failure))
        else Outcome(World(w.users, g.sessions), Ok((u, g.result.value)))
  }

  /** With the candidate trimmed, whatever password registered logs in, and the
      new session belongs to the registered user. */
  lemma RegisterThenLoginTrimmed(w: World, body: NewUser, env: Env, env': Env)
    requires Register(w, body, env).result.Ok?
    requires env'.lib == env.lib
    requires FreshFor(Register(w, body, env).world.sessions, env'.tokens)
    ensures var o := LoginTrimmed(Register(w, body, env).world, body.email, body.password, env');
      o.result.Ok? && o.result.value.1.user == Register(w, body, env).result.value.0.id
  {
    RegisteredUserFound(w, body, env);
  }

  // -----------------------------------------------------------------------
  // Referential integrity

  /** `register` keeps every session owned by a stored user. */
  lemma RegisterKeepsSessionsOwned(w: World, body: NewUser, env: Env)
    requires SessionsOwned(w)
    ensures SessionsOwned(Register(w, body, env).world)
  {
    var o := Register(w, body, env);
    if o.world != w {
      var u := UserService.Create(w.users, body, env.id, env.freshUid, env.lib).result.value;
      OwnedWithNewUser(w, u);
      if o.result.Ok? {
        var s := o.result.value.1;
        var grown := World(w.users + [u], w.sessions);
        assert grown.users[|w.users|].id == s.user;
        OwnedWithNewSession(grown, s, |w.users|);
      }
    }
  }

  /** `login` keeps every session owned by a stored user. */
  lemma LoginKeepsSessionsOwned(w: World, email: string, password: string, env: Env)
    requires SessionsOwned(w)
    ensures SessionsOwned(Login(w, email, password, env).world)
  {
    var o := Login(w, email, password, env);
    if o.result.Ok? {
      OwnedWithNewSession(w, o.result.value.1, UserService.QueryByEmail(w.users, email).value);
    }
  }
}
