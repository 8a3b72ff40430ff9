/** The session document: its fields, the defaults the schema fills in when
    a session is created for a user, the unique indexes on both tokens, and
    the time-to-live index on `refreshTokenDate`. Times are integer
    milliseconds since the epoch. */
module SessionModel {
  import opened Outcomes
  import opened Collection
  import ToJson
  type Token = string

  datatype Session = Session(
    user: ObjectId,
    accessToken: Token,
    refreshToken: Token,
    accessTokenExpires: int,
    refreshTokenDate: int)

  /** `ACCESS_EXPIRATION_MINUTES` and `REFRESH_EXPIRATION_DAYS`. */
  datatype TokenConfig = TokenConfig(accessExpirationMinutes: int, refreshExpirationDays: int)

  /** The configuration defaults: one hour and thirty days. */
  const DefaultTokenConfig := TokenConfig(60, 30)

  /** The two uuids the schema defaults draw for a new session. */
  datatype FreshTokens = FreshTokens(access: Token, refresh: Token)

  function AccessLifetimeMs(cfg: TokenConfig): int
  {
    cfg.accessExpirationMinutes * 60 * 1000
  }

  /** The `expires` option of the TTL index, in seconds. */
  function TtlSeconds(cfg: TokenConfig): int
  {
    cfg.refreshExpirationDays * 24 * 60 * 60
  }

  /** `Session.create({ user })`: every other field comes from its schema default. */
  function NewSession(user: ObjectId, tokens: FreshTokens, now: int, cfg: TokenConfig): (s: Session)
    ensures s.user == user
    ensures s.accessToken == tokens.access && s.refreshToken == tokens.refresh
    ensures s.accessTokenExpires - now == cfg.accessExpirationMinutes * 60_000
    ensures s.refreshTokenDate == now
  {
    Session(user, tokens.access, tokens.refresh, now + AccessLifetimeMs(cfg), now)
  }

  /** The TTL monitor may remove a session once `refreshTokenDate` lies more
      than the index's `expires` seconds in the past. */
  predicate Reapable(s: Session, now: int, cfg: TokenConfig)
  {
    s.refreshTokenDate + TtlSeconds(cfg) * 1000 < now
  }

  lemma ReapableAfterRefreshLifetime(user: ObjectId, tokens: FreshTokens, created: int, now: int, cfg: TokenConfig)
    ensures Reapable(NewSession(user, tokens, created, cfg), now, cfg)
        <==> now - created > cfg.refreshExpirationDays * 86_400_000
  {
  }

  /** Under the configuration defaults an access token lives one hour, and a
      session becomes reapable once more than thirty days have passed since
      its refresh date. */
  lemma DefaultLifetimes(user: ObjectId, tokens: FreshTokens, created: int, now: int)
    ensures NewSession(user, tokens, created, DefaultTokenConfig).accessTokenExpires == created + 3_600_000
    ensures Reapable(NewSession(user, tokens, created, DefaultTokenConfig), now, DefaultTokenConfig)
        <==> now - created > 2_592_000_000
  {
    ReapableAfterRefreshLifetime(user, tokens, created, now, DefaultTokenConfig);
  }

  /** What the unique indexes on `accessToken` and `refreshToken` guarantee. */
  predicate TokensUnique(store: seq<Session>)
  {
    forall i, j :: 0 <= i < |store| && 0 <= j < |store| && i != j ==>
      store[i].accessToken != store[j].accessToken && store[i].refreshToken != store[j].refreshToken
  }

  /** Tokens no stored session uses, in either field, and distinct from each other. */
  predicate FreshFor(store: seq<Session>, tokens: FreshTokens)
  {
    && tokens.access != tokens.refresh
    && forall i :: 0 <= i < |store| ==>
         store[i].accessToken != tokens.access && store[i].accessToken != tokens.refresh
         && store[i].refreshToken != tokens.access && store[i].refreshToken != tokens.refresh
  }

  /** An insert checked against both unique indexes (accessToken's first). */
  function Insert(store: seq<Session>, s: Session): (r: Result<seq<Session>>)
    ensures r.Ok? <==> forall i :: 0 <= i < |store| ==>
      store[i].accessToken != s.accessToken && store[i].refreshToken != s.refreshToken
    ensures r.Ok? ==> r.value == store + [s]
    ensures r.Err? ==> r.failure == DuplicateKey("accessToken") || r.failure == DuplicateKey("refreshToken")
  {
    if Collection.FindFirst(store, (t: Session) => t.accessToken == s.accessToken).Some? then
      Err(DuplicateKey("accessToken"))
    else if Collection.FindFirst(store, (t: Session) => t.refreshToken == s.refreshToken).Some? then
      Err(DuplicateKey("refreshToken"))
    else Ok(store + [s])
  }

  lemma InsertKeepsUnique(store: seq<Session>, s: Session)
    requires TokensUnique(store)
    requires Insert(store, s).Ok?
    ensures TokensUnique(Insert(store, s).value)
  {
  }

  /** One pass of the TTL monitor: every reapable session is deleted. */
  function Expire(store: seq<Session>, now: int, cfg: TokenConfig): (r: seq<Session>)
    ensures forall j :: 0 <= j < |r| ==> r[j] in store && !Reapable(r[j], now, cfg)
    ensures forall j :: 0 <= j < |store| && !Reapable(store[j], now, cfg) ==> store[j] in r
  {
    Collection.DeleteMany(store, (s: Session) => Reapable(s, now, cfg))
  }

  // -----------------------------------------------------------------------
  // JSON form

  /** The plugin's option list for sessions; no schema path is marked private. */
  const SessionPrivate: seq<string> := ["id", "user", "accessTokenExpires", "refreshTokenDate"]

  /** The plain object of a stored session (no timestamps on this schema). */
  function SessionDocument(id: ObjectId, s: Session): ToJson.Doc
  {
    map[
      "_id" := ToJson.Oid(id),
      "user" := ToJson.Oid(s.user),
      "accessToken" := ToJson.Str(s.accessToken),
      "refreshToken" := ToJson.Str(s.refreshToken),
      "accessTokenExpires" := ToJson.Date(s.accessTokenExpires),
      "refreshTokenDate" := ToJson.Date(s.refreshTokenDate),
      "__v" := ToJson.Num(0)]
  }

  /** What a serialised session shows. */
  function TokenView(s: Session): ToJson.Doc
  {
    map["accessToken" := ToJson.Str(s.accessToken), "refreshToken" := ToJson.Str(s.refreshToken)]
  }

  /** Of a session document's keys, only the two tokens survive the deletions,
      with their values. */
  lemma SessionSurvivors(id: ObjectId, s: Session)
    ensures var d := SessionDocument(id, s);
      && (forall k :: k in TokenView(s) ==> k in d && d[k] == TokenView(s)[k])
      && (forall k :: k in d ==> (ToJson.Survives(k, d[k], Some(SessionPrivate)) <==> k in TokenView(s)))
  {
    var d := SessionDocument(id, s);
    var listed := SessionPrivate;
    assert listed[1] == "user" && listed[2] == "accessTokenExpires" && listed[3] == "refreshTokenDate";
    assert d.Keys == {"_id", "user", "accessToken", "refreshToken", "accessTokenExpires", "refreshTokenDate", "__v"};
    assert TokenView(s).Keys == {"accessToken", "refreshToken"};
  }

  /** A serialised session shows its two tokens and nothing else. */
  lemma SessionJsonShowsOnlyTokens(id: ObjectId, s: Session, show: ToJson.Json -> string)
    ensures ToJson.Transform(SessionDocument(id, s), [], Some(SessionPrivate), show, None) == Some(TokenView(s))
  {
    var d := SessionDocument(id, s);
    var remove := Some(SessionPrivate);
    assert !ToJson.KeepsId(remove) by { assert SessionPrivate[0] == "id"; }
    ToJson.RedactWithoutId(d, remove, show);
    SessionSurvivors(id, s);
    ToJson.DropFieldsExactly(d, remove, TokenView(s));
  }
}
