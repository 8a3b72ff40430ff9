/** The user document: the setters applied on assignment (trim, lowercase),
    the schema defaults, the validators, the unique indexes, the
    `isEmailTaken` static, the password check and the re-hash before save.
    bcrypt and `validator.isEmail` are parameters. */
module UserModel {
  import opened Outcomes
  import opened Strings
  import Roles
  import opened Collection
  import ToJson

  datatype User = User(
    id: ObjectId,
    email: string,
    isEmailVerified: bool,
    uid: string,
    name: string,
    password: string,
    role: Roles.Role)

  /** The foreign libraries: bcrypt's hash (salting left out) and `validator.isEmail`. */
  datatype Libraries = Libraries(hash: string -> string, isEmail: string -> bool)

  /** A document as assigned, after the setters but before validation: the
      role is still the string the request carried, the password is not yet hashed. */
  datatype Draft = Draft(
    email: string,
    isEmailVerified: bool,
    uid: string,
    name: string,
    password: string,
    role: string)

  /** The body `create` receives; optional fields fall back to schema defaults. */
  datatype NewUser = NewUser(
    email: string,
    name: string,
    password: string,
    role: Option<string>,
    uid: Option<string>,
    isEmailVerified: Option<bool>)

  /** The body `updateByUid` receives: only the fields present are assigned. */
  datatype Patch = Patch(
    email: Option<string>,
    name: Option<string>,
    password: Option<string>,
    role: Option<string>,
    uid: Option<string>,
    isEmailVerified: Option<bool>)

  /** The email path's setters: `trim`, then `lowercase`. */
  function NormalizeEmail(e: string): (r: string)
    ensures IsTrimmed(r)
    ensures |r| == |Trim(e)| <= |e|
    ensures forall i :: 0 <= i < |r| ==> r[i] == LowerChar(Trim(e)[i])
    ensures forall i :: 0 <= i < |r| ==> !('A' <= r[i] <= 'Z')
  {
    var t := Trim(e);
    ToLowerKeepsTrimmed(t);
    ToLower(t)
  }

  lemma NormalizeEmailIdempotent(e: string)
    ensures NormalizeEmail(NormalizeEmail(e)) == NormalizeEmail(e)
  {
    var n := NormalizeEmail(e);
    TrimOfTrimmed(n);
    ToLowerOfLower(n);
  }

  /** The password validators, applied to the trimmed value: `minLength: 8`,
      counted in UTF-16 code units as JavaScript's `length` counts, then
      `/\d/` and `/[a-zA-Z]/`. */
  predicate PasswordPolicy(p: string)
  {
    Utf16Length(p) >= 8 && HasDigit(p) && HasAsciiLetter(p)
  }

  /** Within the Basic Multilingual Plane the length rule is a character count. */
  lemma PasswordPolicyOfBmp(p: string)
    requires forall i :: 0 <= i < |p| ==> p[i] as int <= 0xFFFF
    ensures PasswordPolicy(p) <==> |p| >= 8 && HasDigit(p) && HasAsciiLetter(p)
  {
    Utf16LengthOfBmp(p);
  }

  /** Six characters, three of them outside the Basic Multilingual Plane, make
      nine code units and pass; eight letters without a digit, or a short
      password, do not. */
  lemma PasswordPolicyExamples()
    ensures PasswordPolicy("ab1\U{1F600}\U{1F600}\U{1F600}")
    ensures !PasswordPolicy("abcdefgh")
    ensures !PasswordPolicy("abc12")
  {
    var p := "ab1\U{1F600}\U{1F600}\U{1F600}";
    assert IsDigit(p[2]) && IsAsciiLetter(p[0]);
    assert Utf16Length(p) == 9 by {
      assert p == "ab1" + "\U{1F600}\U{1F600}\U{1F600}";
      Utf16LengthAppend("ab1", "\U{1F600}\U{1F600}\U{1F600}");
    }
    var q := "abcdefgh";
    assert !HasDigit(q) by {
      forall i | 0 <= i < |q| ensures !IsDigit(q[i]) {}
    }
  }

  /** Whether the draft passes every validator of the schema. Every path that is
      set is validated on each save, loaded ones included, so a password that was
      not modified is checked as the hash it holds. */
  predicate DraftValid(d: Draft, lib: Libraries)
  {
    && d.email != "" && lib.isEmail(d.email)
    && d.name != ""
    && PasswordPolicy(d.password)
    && Roles.ParseRole(d.role).Some?
    && d.uid != ""
  }

  /** The schema paths whose validators reject the draft, in schema order. */
  function FailingPaths(d: Draft, lib: Libraries): (paths: seq<string>)
    ensures |paths| == 0 <==> DraftValid(d, lib)
  {
    (if d.email == "" || !lib.isEmail(d.email) then ["email"] else [])
    + (if d.name == "" then ["name"] else [])
    + (if !PasswordPolicy(d.password) then ["password"] else [])
    + (if Roles.ParseRole(d.role).None? then ["role"] else [])
    + (if d.uid == "" then ["uid"] else [])
  }

  /** What every stored user satisfies. */
  predicate WellFormed(u: User, lib: Libraries)
  {
    && u.email != "" && lib.isEmail(u.email) && NormalizeEmail(u.email) == u.email
    && u.name != "" && IsTrimmed(u.name)
    && u.uid != ""
  }

  /** Two users that no unique index (`_id`, `email`, `uid`) puts in conflict. */
  predicate Distinct(a: User, b: User)
  {
    a.id != b.id && a.email != b.email && a.uid != b.uid
  }

  /** What the unique indexes guarantee of the collection. */
  predicate KeysUnique(users: seq<User>)
  {
    forall i, j :: 0 <= i < |users| && 0 <= j < |users| && i != j ==> Distinct(users[i], users[j])
  }

  predicate StoreInvariant(users: seq<User>, lib: Libraries)
  {
    KeysUnique(users) && forall i :: 0 <= i < |users| ==> WellFormed(users[i], lib)
  }

  /** Validation on save, then the pre-save hook: the password is hashed only
      when it was modified. */
  function Validate(d: Draft, id: ObjectId, lib: Libraries, passwordModified: bool): (r: Result<User>)
    ensures r.Ok? <==> DraftValid(d, lib)
    ensures r.Err? ==> r == Err(Validation(FailingPaths(d, lib)))
    ensures r.Ok? ==> r.value.password == (if passwordModified then lib.hash(d.password) else d.password)
    ensures r.Ok? ==> && r.value.id == id && r.value.email == d.email && r.value.name == d.name
                      && r.value.uid == d.uid && r.value.isEmailVerified == d.isEmailVerified
                      && Roles.ParseRole(d.role) == Some(r.value.role)
  {
    var failing := FailingPaths(d, lib);
    if |failing| > 0 then Err(Validation(failing))
    else
      var password := if passwordModified then lib.hash(d.password) else d.password;
      Ok(User(id, d.email, d.isEmailVerified, d.uid, d.name, password, Roles.ParseRole(d.role).value))
  }

  /** A draft that passed validation, with its email and name set through
      their setters, is a well-formed user. */
  lemma ValidatedIsWellFormed(d: Draft, id: ObjectId, lib: Libraries, passwordModified: bool, rawEmail: string, rawName: string)
    requires d.email == NormalizeEmail(rawEmail) && d.name == Trim(rawName)
    requires Validate(d, id, lib, passwordModified).Ok?
    ensures WellFormed(Validate(d, id, lib, passwordModified).value, lib)
  {
    NormalizeEmailIdempotent(rawEmail);
  }

  /** A new document: setters on the body, then the defaults for role
      (`"user"`), `isEmailVerified` (false) and `uid` (a fresh uuid). */
  function NewDraft(body: NewUser, freshUid: string): (d: Draft)
    ensures d.email == NormalizeEmail(body.email) && d.name == Trim(body.name)
    ensures d.password == Trim(body.password)
    ensures d.role == (if body.role.Some? then body.role.value else "user")
    ensures d.uid == (if body.uid.Some? then body.uid.value else freshUid)
    ensures d.isEmailVerified == (body.isEmailVerified.Some? && body.isEmailVerified.value)
  {
    Draft(
      NormalizeEmail(body.email),
      match body.isEmailVerified case Some(b) => b case None => false,
      match body.uid case Some(u) => u case None => freshUid,
      Trim(body.name),
      Trim(body.password),
      match body.role case Some(r) => r case None => "user")
  }

  /** The stored user seen as a draft again. */
  function AsDraft(u: User): Draft
  {
    Draft(u.email, u.isEmailVerified, u.uid, u.name, u.password, Roles.Name(u.role))
  }

  /** `Object.assign(user, body)`: each field present goes through its setter,
      every absent field keeps its value. */
  function Assign(u: User, patch: Patch): (d: Draft)
    ensures d.email == (if patch.email.Some? then NormalizeEmail(patch.email.value) else u.email)
    ensures d.name == (if patch.name.Some? then Trim(patch.name.value) else u.name)
    ensures d.password == (if patch.password.Some? then Trim(patch.password.value) else u.password)
    ensures d.role == (if patch.role.Some? then patch.role.value else Roles.Name(u.role))
    ensures d.uid == (if patch.uid.Some? then patch.uid.value else u.uid)
    ensures d.isEmailVerified == (if patch.isEmailVerified.Some? then patch.isEmailVerified.value else u.isEmailVerified)
  {
    var d := AsDraft(u);
    Draft(
      match patch.email case Some(e) => NormalizeEmail(e) case None => d.email,
      match patch.isEmailVerified case Some(b) => b case None => d.isEmailVerified,
      match patch.uid case Some(x) => x case None => d.uid,
      match patch.name case Some(n) => Trim(n) case None => d.name,
      match patch.password case Some(p) => Trim(p) case None => d.password,
      match patch.role case Some(r) => r case None => d.role)
  }

  /** `isModified("password")`: a value was assigned and it differs from the stored one. */
  predicate PasswordModified(u: User, patch: Patch)
  {
    patch.password.Some? && Trim(patch.password.value) != u.password
  }

  /** The hook's test agrees with its meaning: the assigned password differs
      from the stored one exactly when it was modified. */
  lemma PasswordModifiedIffChanged(u: User, patch: Patch)
    ensures PasswordModified(u, patch) <==> Assign(u, patch).password != u.password
  {
  }

  /** `User.isEmailTaken(email, excludeUserId)`: the filter's email goes through
      the path's setters, so the match is on the normalized address. */
  function IsEmailTaken(users: seq<User>, email: string, exclude: Option<ObjectId>): (taken: bool)
    ensures taken <==> exists i :: 0 <= i < |users| && users[i].email == NormalizeEmail(email)
                                   && (exclude.None? || users[i].id != exclude.value)
  {
    var e := NormalizeEmail(email);
    FindFirst(users, (u: User) => u.email == e && (exclude.None? || u.id != exclude.value)).Some?
  }

  /** `user.isPasswordMatch(password)`: bcrypt compares the candidate as given. */
  predicate IsPasswordMatch(lib: Libraries, u: User, candidate: string)
  {
    lib.hash(candidate) == u.password
  }

  /** bcrypt tells different passwords apart (collisions are left out). */
  ghost predicate HashInjective(lib: Libraries)
  {
    forall a, b {:trigger lib.hash(a), lib.hash(b)} :: lib.hash(a) == lib.hash(b) ==> a == b
  }

  /** A user saved with a modified password matches that password; with a
      collision-free hash it matches nothing else. */
  lemma StoredPasswordMatches(d: Draft, id: ObjectId, lib: Libraries)
    requires Validate(d, id, lib, true).Ok?
    ensures IsPasswordMatch(lib, Validate(d, id, lib, true).value, d.password)
    ensures HashInjective(lib) ==>
      forall c :: IsPasswordMatch(lib, Validate(d, id, lib, true).value, c) <==> c == d.password
  {
  }

  /** An insert or replacement checked against the unique indexes; `at` is the
      position of the document being replaced, if any. */
  function Save(users: seq<User>, u: User, at: Option<nat>): (r: Result<seq<User>>)
    requires at.Some? ==> at.value < |users|
    ensures r.Ok? <==> forall j :: 0 <= j < |users| && (at.None? || j != at.value) ==> Distinct(users[j], u)
    ensures r.Ok? ==> r.value == (if at.Some? then users[at.value := u] else users + [u])
    ensures r.Err? ==> r.failure.DuplicateKey?
  {
    var other := (j: nat) => at.None? || j != at.value;
    if exists j :: 0 <= j < |users| && other(j) && users[j].id == u.id then Err(DuplicateKey("_id"))
    else if exists j :: 0 <= j < |users| && other(j) && users[j].email == u.email then Err(DuplicateKey("email"))
    else if exists j :: 0 <= j < |users| && other(j) && users[j].uid == u.uid then Err(DuplicateKey("uid"))
    else Ok(if at.Some? then users[at.value := u] else users + [u])
  }

  // -----------------------------------------------------------------------
  // JSON form

  /** The plugin's option list for users; no schema path is marked private. */
  const UserPrivate: seq<string> := ["id", "password", "isEmailVerified", "role"]

  /** The plain object of a stored user; `timestamps` adds the two dates. */
  function UserDocument(u: User, createdAt: int, updatedAt: int): ToJson.Doc
  {
    map[
      "_id" := ToJson.Oid(u.id),
      "email" := ToJson.Str(u.email),
      "isEmailVerified" := ToJson.Bool(u.isEmailVerified),
      "uid" := ToJson.Str(u.uid),
      "name" := ToJson.Str(u.name),
      "password" := ToJson.Str(u.password),
      "role" := ToJson.Str(Roles.Name(u.role)),
      "createdAt" := ToJson.Date(createdAt),
      "updatedAt" := ToJson.Date(updatedAt),
      "__v" := ToJson.Num(0)]
  }

  /** What a serialised user shows. */
  function PublicView(u: User): ToJson.Doc
  {
    map["email" := ToJson.Str(u.email), "uid" := ToJson.Str(u.uid), "name" := ToJson.Str(u.name)]
  }

  /** The public fields keep their values in the document. */
  lemma UserPublicInDocument(u: User, createdAt: int, updatedAt: int)
    ensures var d := UserDocument(u, createdAt, updatedAt);
      forall k :: k in PublicView(u) ==> k in d && d[k] == PublicView(u)[k]
  {
    var d := UserDocument(u, createdAt, updatedAt);
    assert d["email"] == ToJson.Str(u.email) && d["uid"] == ToJson.Str(u.uid) && d["name"] == ToJson.Str(u.name);
    assert PublicView(u).Keys == {"email", "uid", "name"};
  }

  /** Of a user document's keys, only email, uid and name survive the deletions. */
  lemma UserSurvivors(u: User, createdAt: int, updatedAt: int)
    ensures var d := UserDocument(u, createdAt, updatedAt);
      forall k :: k in d ==> (ToJson.Survives(k, d[k], Some(UserPrivate)) <==> k in PublicView(u))
  {
    var d := UserDocument(u, createdAt, updatedAt);
    var listed := UserPrivate;
    assert listed[1] == "password" && listed[2] == "isEmailVerified" && listed[3] == "role";
    assert d.Keys == {"_id", "email", "isEmailVerified", "uid", "name", "password", "role",
                      "createdAt", "updatedAt", "__v"};
    assert PublicView(u).Keys == {"email", "uid", "name"};
  }

  /** A serialised user shows its email, uid and name: never its id, password,
      verification flag, role or timestamps. */
  lemma UserJsonShowsPublicFields(u: User, createdAt: int, updatedAt: int, show: ToJson.Json -> string)
    ensures ToJson.Transform(UserDocument(u, createdAt, updatedAt), [], Some(UserPrivate), show, None)
            == Some(PublicView(u))
  {
    var d := UserDocument(u, createdAt, updatedAt);
    var remove := Some(UserPrivate);
    assert !ToJson.KeepsId(remove) by { assert UserPrivate[0] == "id"; }
    ToJson.RedactWithoutId(d, remove, show);
    UserPublicInDocument(u, createdAt, updatedAt);
    UserSurvivors(u, createdAt, updatedAt);
    ToJson.DropFieldsExactly(d, remove, PublicView(u));
  }
}
