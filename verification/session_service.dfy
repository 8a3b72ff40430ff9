/** The session manager: issuing, validating, rotating and revoking
    sessions, each a transition over the session collection. */
module SessionService {
  import opened Outcomes
  import opened SessionModel
  import opened Collection

  /** The collection after an operation, and what the operation returned or threw. */
  datatype Step<T> = Step(sessions: seq<Session>, result: Result<T>)

  /** `deleteMany`'s report alongside the collection it leaves. */
  datatype Deleted = Deleted(sessions: seq<Session>, deletedCount: nat)

  /** `generateSession(userId)`: exactly one new session for `user` is appended,
      unless a drawn token collides with a stored one. */
  function GenerateSession(store: seq<Session>, user: ObjectId, tokens: FreshTokens, now: int, cfg: TokenConfig)
    : (r: Step<Session>)
    ensures r.result.Ok? ==> r.sessions == store + [r.result.value]
    ensures r.result.Ok? ==>
      && r.result.value.user == user
      && r.result.value.accessToken == tokens.access && r.result.value.refreshToken == tokens.refresh
      && r.result.value.accessTokenExpires == now + cfg.accessExpirationMinutes * 60_000
      && r.result.value.refreshTokenDate == now
    ensures r.result.Err? ==> r.sessions == store && r.result.failure.DuplicateKey?
    ensures FreshFor(store, tokens) ==> r.result.Ok?
  {
    var s := NewSession(user, tokens, now, cfg);
    match Insert(store, s)
    case Ok(store') => Step(store', Ok(s))
    case Err(e) => Step(store, Err(e))
  }

  /** `checkAccess(accessToken)`: a stored session holds the token and its
      expiry is strictly later than `now`; nothing is written. */
  function CheckAccess(store: seq<Session>, token: Token, now: int): (r: Result<Session>)
    ensures r.Ok? <==> exists i :: 0 <= i < |store| && store[i].accessToken == token && store[i].accessTokenExpires > now
    ensures r.Ok? ==> r.value in store && r.value.accessToken == token && r.value.accessTokenExpires > now
    ensures r.Err? ==> r.failure == PleaseAuthenticate
  {
    match Collection.FindFirst(store, (s: Session) => s.accessToken == token && s.accessTokenExpires > now)
    case Some(i) => Ok(store[i])
    case None => Err(PleaseAuthenticate)
  }

  /** `refreshSession(refreshToken)`: the holder of the refresh token is deleted
      and a new session is generated for its user. No time is consulted. */
  function RefreshSession(store: seq<Session>, token: Token, tokens: FreshTokens, now: int, cfg: TokenConfig)
    : (r: Step<Session>)
    ensures (forall i :: 0 <= i < |store| ==> store[i].refreshToken != token)
      ==> r == Step(store, Err(PleaseAuthenticate))
    ensures r.result.Ok? ==> exists i ::
      (0 <= i < |store| && store[i].refreshToken == token
       && r.result.value.user == store[i].user
       && r.sessions == Collection.RemoveAt(store, i) + [r.result.value])
    ensures r.result.Ok? ==> r.result.value == NewSession(r.result.value.user, tokens, now, cfg)
    ensures r.result.Err? ==> r.sessions == store || exists i ::
      (0 <= i < |store| && store[i].refreshToken == token && r.sessions == Collection.RemoveAt(store, i))
  {
    match Collection.FindFirst(store, (s: Session) => s.refreshToken == token)
    case None => Step(store, Err(PleaseAuthenticate))
    case Some(i) => GenerateSession(Collection.RemoveAt(store, i), store[i].user, tokens, now, cfg)
  }

  /** `deleteUser(userId)`: every session of `user` goes, every other stays; never fails. */
  function DeleteUser(store: seq<Session>, user: ObjectId): (r: Deleted)
    ensures forall j :: 0 <= j < |r.sessions| ==> r.sessions[j] in store && r.sessions[j].user != user
    ensures forall j :: 0 <= j < |store| && store[j].user != user ==> store[j] in r.sessions
    ensures r.deletedCount == |store| - |r.sessions|
    ensures r.deletedCount == 0 <==> forall j :: 0 <= j < |store| ==> store[j].user != user
  {
    var owned := (s: Session) => s.user == user;
    Deleted(Collection.DeleteMany(store, owned), Collection.DeletedCount(store, owned))
  }

  /** `logout(accessToken)`: the holder of the access token is deleted, expired
      or not; without a holder the result is NotFound. */
  function Logout(store: seq<Session>, token: Token): (r: Step<()>)
    ensures (forall i :: 0 <= i < |store| ==> store[i].accessToken != token)
      ==> r == Step(store, Err(SessionNotFound))
    ensures r.result.Ok? <==> exists i :: 0 <= i < |store| && store[i].accessToken == token
    ensures r.result.Ok? ==> exists i ::
      (0 <= i < |store| && store[i].accessToken == token && r.sessions == Collection.RemoveAt(store, i))
  {
    match Collection.FindFirst(store, (s: Session) => s.accessToken == token)
    case None => Step(store, Err(SessionNotFound))
    case Some(i) => Step(Collection.RemoveAt(store, i), Ok(()))
  }

  // -----------------------------------------------------------------------
  // The unique indexes hold across every transition

  lemma RemoveAtKeepsUnique(store: seq<Session>, i: nat)
    requires TokensUnique(store) && i < |store|
    ensures TokensUnique(Collection.RemoveAt(store, i))
  {
    Collection.RemoveAtKeepsPairwise(store, i,
      (a: Session, b: Session) => a.accessToken != b.accessToken && a.refreshToken != b.refreshToken);
  }

  lemma {:induction false} DeleteManyKeepsUnique(store: seq<Session>, matches: Session -> bool)
    requires TokensUnique(store)
    ensures TokensUnique(Collection.DeleteMany(store, matches))
  {
    if |store| > 0 {
      var tail := store[1..];
      assert TokensUnique(tail) by {
        forall a, b | 0 <= a < |tail| && 0 <= b < |tail| && a != b
          ensures tail[a].accessToken != tail[b].accessToken && tail[a].refreshToken != tail[b].refreshToken
        {
          assert tail[a] == store[a + 1] && tail[b] == store[b + 1];
        }
      }
      DeleteManyKeepsUnique(tail, matches);
      var rest := Collection.DeleteMany(tail, matches);
      if !matches(store[0]) {
        var r := [store[0]] + rest;
        forall j | 0 <= j < |rest|
          ensures rest[j].accessToken != store[0].accessToken && rest[j].refreshToken != store[0].refreshToken
        {
          var k :| 0 <= k < |tail| && tail[k] == rest[j];
          assert tail[k] == store[k + 1];
        }
        assert Collection.DeleteMany(store, matches) == r;
      }
    }
  }

  lemma GenerateKeepsUnique(store: seq<Session>, user: ObjectId, tokens: FreshTokens, now: int, cfg: TokenConfig)
    requires TokensUnique(store)
    ensures TokensUnique(GenerateSession(store, user, tokens, now, cfg).sessions)
  {
    var s := NewSession(user, tokens, now, cfg);
    if Insert(store, s).Ok? {
      InsertKeepsUnique(store, s);
    }
  }

  lemma RefreshKeepsUnique(store: seq<Session>, token: Token, tokens: FreshTokens, now: int, cfg: TokenConfig)
    requires TokensUnique(store)
    ensures TokensUnique(RefreshSession(store, token, tokens, now, cfg).sessions)
  {
    match Collection.FindFirst(store, (s: Session) => s.refreshToken == token)
    case None =>
    case Some(i) =>
      RemoveAtKeepsUnique(store, i);
      GenerateKeepsUnique(Collection.RemoveAt(store, i), store[i].user, tokens, now, cfg);
  }

  lemma LogoutKeepsUnique(store: seq<Session>, token: Token)
    requires TokensUnique(store)
    ensures TokensUnique(Logout(store, token).sessions)
  {
    match Collection.FindFirst(store, (s: Session) => s.accessToken == token)
    case None =>
    case Some(i) => RemoveAtKeepsUnique(store, i);
  }

  lemma DeleteUserKeepsUnique(store: seq<Session>, user: ObjectId)
    requires TokensUnique(store)
    ensures TokensUnique(DeleteUser(store, user).sessions)
  {
    DeleteManyKeepsUnique(store, (s: Session) => s.user == user);
  }

  lemma ExpireKeepsUnique(store: seq<Session>, now: int, cfg: TokenConfig)
    requires TokensUnique(store)
    ensures TokensUnique(Expire(store, now, cfg))
  {
    DeleteManyKeepsUnique(store, (s: Session) => Reapable(s, now, cfg));
  }

  // -----------------------------------------------------------------------
  // Session lifecycle properties

  /** With a positive access lifetime, the token of a session just issued is accepted
      at once, and it is the new session that `checkAccess` finds. */
  lemma FreshSessionPassesCheck(store: seq<Session>, user: ObjectId, tokens: FreshTokens, now: int, cfg: TokenConfig)
    requires FreshFor(store, tokens)
    requires cfg.accessExpirationMinutes > 0
    ensures var g := GenerateSession(store, user, tokens, now, cfg);
      CheckAccess(g.sessions, tokens.access, now) == Ok(g.result.value)
  {
    var g := GenerateSession(store, user, tokens, now, cfg);
    assert g.sessions[|store|] == g.result.value;
    var r := CheckAccess(g.sessions, tokens.access, now);
    assert r.Ok?;
    var k :| 0 <= k < |g.sessions| && g.sessions[k] == r.value;
    if k < |store| {
      assert g.sessions[k] == store[k];
    }
  }

  /** The access token of a session issued at `created` is accepted exactly while
      `now` is earlier than `created` plus the access lifetime. */
  lemma AccessExpiresAfterLifetime(store: seq<Session>, user: ObjectId, tokens: FreshTokens,
                                   created: int, now: int, cfg: TokenConfig)
    requires FreshFor(store, tokens)
    ensures var g := GenerateSession(store, user, tokens, created, cfg);
      (CheckAccess(g.sessions, tokens.access, now).Ok?
       <==> now < created + cfg.accessExpirationMinutes * 60_000)
  {
    var g := GenerateSession(store, user, tokens, created, cfg);
    assert g.sessions[|store|].accessToken == tokens.access;
    forall i | 0 <= i < |store|
      ensures g.sessions[i].accessToken != tokens.access
    {
      assert g.sessions[i] == store[i];
    }
  }

  /** The access token a rotation hands out passes `checkAccess` at once: it
      belongs to the new session, which the store now holds. */
  lemma RefreshedSessionPassesCheck(store: seq<Session>, token: Token, tokens: FreshTokens, now: int, cfg: TokenConfig)
    requires FreshFor(store, tokens)
    requires cfg.accessExpirationMinutes > 0
    requires RefreshSession(store, token, tokens, now, cfg).result.Ok?
    ensures var r := RefreshSession(store, token, tokens, now, cfg);
      CheckAccess(r.sessions, tokens.access, now) == Ok(r.result.value)
  {
    var i := Collection.FindFirst(store, (s: Session) => s.refreshToken == token).value;
    var rest := Collection.RemoveAt(store, i);
    Collection.RemoveAtKeepsAll(store, i, (s: Session) =>
      s.accessToken != tokens.access && s.accessToken != tokens.refresh
      && s.refreshToken != tokens.access && s.refreshToken != tokens.refresh);
    assert FreshFor(rest, tokens);
    FreshSessionPassesCheck(rest, store[i].user, tokens, now, cfg);
  }

  /** A refresh token can be used once: after a successful rotation, the same
      token is refused with Unauthorized and nothing is written. */
  lemma RefreshIsSingleUse(store: seq<Session>, token: Token, tokens: FreshTokens, tokens': FreshTokens,
                           now: int, now': int, cfg: TokenConfig)
    requires TokensUnique(store)
    requires FreshFor(store, tokens)
    requires RefreshSession(store, token, tokens, now, cfg).result.Ok?
    ensures var s1 := RefreshSession(store, token, tokens, now, cfg).sessions;
      RefreshSession(s1, token, tokens', now', cfg) == Step(s1, Err(PleaseAuthenticate))
  {
    var r := RefreshSession(store, token, tokens, now, cfg);
    var found := Collection.FindFirst(store, (s: Session) => s.refreshToken == token);
    var i := found.value;
    var rest := Collection.RemoveAt(store, i);
    assert r == GenerateSession(rest, store[i].user, tokens, now, cfg);
    assert r.result.value.refreshToken != token by {
      assert store[i].refreshToken != tokens.refresh;
    }
    forall j | 0 <= j < |r.sessions|
      ensures r.sessions[j].refreshToken != token
    {
      if j < |rest| {
        var j' := if j < i then j else j + 1;
        assert r.sessions[j] == rest[j] == store[j'];
      } else {
        assert r.sessions[j] == r.result.value;
      }
    }
  }

  /** With fresh tokens, a rotation succeeds for any holder of the refresh token and
      hands back a session of the same user whose tokens are both new. */
  lemma RefreshPreservesOwner(store: seq<Session>, i: nat, tokens: FreshTokens, now: int, cfg: TokenConfig)
    requires TokensUnique(store)
    requires FreshFor(store, tokens)
    requires i < |store|
    ensures var r := RefreshSession(store, store[i].refreshToken, tokens, now, cfg);
      && r.result.Ok?
      && r.result.value.user == store[i].user
      && r.result.value.accessToken != store[i].accessToken
      && r.result.value.refreshToken != store[i].refreshToken
  {
    var token := store[i].refreshToken;
    var f := Collection.FindFirst(store, (s: Session) => s.refreshToken == token);
    var k := f.value;
    var rest := Collection.RemoveAt(store, k);
    assert FreshFor(rest, tokens) by {
      forall j | 0 <= j < |rest|
        ensures rest[j].accessToken != tokens.access && rest[j].accessToken != tokens.refresh
             && rest[j].refreshToken != tokens.access && rest[j].refreshToken != tokens.refresh
      {
        var j' := if j < k then j else j + 1;
        assert rest[j] == store[j'];
      }
    }
  }

  /** The refresh path never looks at the clock: whether it succeeds is the same
      at every time, however long ago the access token expired. */
  lemma RefreshIgnoresClock(store: seq<Session>, token: Token, tokens: FreshTokens, now: int, now': int, cfg: TokenConfig)
    ensures RefreshSession(store, token, tokens, now, cfg).result.Ok?
        == RefreshSession(store, token, tokens, now', cfg).result.Ok?
  {
    match Collection.FindFirst(store, (s: Session) => s.refreshToken == token)
    case None =>
    case Some(i) =>
      var rest := Collection.RemoveAt(store, i);
      var u := store[i].user;
      assert Insert(rest, NewSession(u, tokens, now, cfg)).Ok?
          == Insert(rest, NewSession(u, tokens, now', cfg)).Ok?;
  }

  /** Only the TTL monitor retires a refresh token: once it has reaped a session,
      that session's refresh token is refused. */
  lemma ExpiredRefreshRefused(store: seq<Session>, i: nat, tokens: FreshTokens, now: int, now': int, cfg: TokenConfig)
    requires TokensUnique(store)
    requires i < |store| && Reapable(store[i], now, cfg)
    ensures var reaped := Expire(store, now, cfg);
      RefreshSession(reaped, store[i].refreshToken, tokens, now', cfg) == Step(reaped, Err(PleaseAuthenticate))
  {
    var reaped := Expire(store, now, cfg);
    forall j | 0 <= j < |reaped|
      ensures reaped[j].refreshToken != store[i].refreshToken
    {
      var k :| 0 <= k < |store| && store[k] == reaped[j];
      assert k != i;
    }
  }

  /** After `deleteUser(u)`, no former access token of `u` passes `checkAccess`. */
  lemma DeleteUserRevokesAccess(store: seq<Session>, user: ObjectId, i: nat, now: int)
    requires TokensUnique(store)
    requires i < |store| && store[i].user == user
    ensures CheckAccess(DeleteUser(store, user).sessions, store[i].accessToken, now) == Err(PleaseAuthenticate)
  {
    var rest := DeleteUser(store, user).sessions;
    forall j | 0 <= j < |rest|
      ensures rest[j].accessToken != store[i].accessToken
    {
      var k :| 0 <= k < |store| && store[k] == rest[j];
      assert k != i;
    }
  }

  /** `deleteUser` is idempotent: a second call deletes nothing more. */
  lemma DeleteUserIdempotent(store: seq<Session>, user: ObjectId)
    ensures var once := DeleteUser(store, user).sessions;
      DeleteUser(once, user) == Deleted(once, 0)
  {
    var owned := (s: Session) => s.user == user;
    Collection.DeleteManyIdempotent(store, owned);
  }

  /** A logged-out token cannot log out again: the second attempt is NotFound. */
  lemma LogoutTwiceNotFound(store: seq<Session>, token: Token)
    requires TokensUnique(store)
    requires Logout(store, token).result.Ok?
    ensures var once := Logout(store, token).sessions;
      Logout(once, token) == Step(once, Err(SessionNotFound))
  {
    var i :| 0 <= i < |store| && store[i].accessToken == token
      && Logout(store, token).sessions == Collection.RemoveAt(store, i);
    var rest := Collection.RemoveAt(store, i);
    forall j | 0 <= j < |rest|
      ensures rest[j].accessToken != token
    {
      var j' := if j < i then j else j + 1;
      assert rest[j] == store[j'];
    }
  }

  /** `logout` removes the session whether or not its access token has expired. */
  lemma LogoutIgnoresExpiry(store: seq<Session>, i: nat, now: int)
    requires i < |store| && store[i].accessTokenExpires <= now
    ensures Logout(store, store[i].accessToken).result.Ok?
  {
  }
}
