/** The user service: create, look up, update and delete users in the
    user collection. */
module UserService {
  import opened Outcomes
  import opened Strings
  import opened Collection
  import opened UserModel

  /** The collection after an operation, and what the operation returned or threw. */
  datatype Step<T> = Step(users: seq<User>, result: Result<T>)

  /** `create(body)`: refused with "Email already taken" when any user holds the
      normalized address; otherwise the document is validated, hashed and inserted. */
  function Create(users: seq<User>, body: NewUser, id: ObjectId, freshUid: string, lib: Libraries)
    : (r: Step<User>)
    ensures IsEmailTaken(users, body.email, None) ==> r == Step(users, Err(EmailTaken))
    ensures r.result.Ok? <==>
      && !IsEmailTaken(users, body.email, None)
      && DraftValid(NewDraft(body, freshUid), lib)
      && forall j :: 0 <= j < |users| ==> users[j].id != id && users[j].uid != NewDraft(body, freshUid).uid
    ensures !IsEmailTaken(users, body.email, None) && !DraftValid(NewDraft(body, freshUid), lib) ==>
      r == Step(users, Err(Validation(FailingPaths(NewDraft(body, freshUid), lib))))
    ensures !IsEmailTaken(users, body.email, None) && DraftValid(NewDraft(body, freshUid), lib) && r.result.Err? ==>
      r.result.failure.DuplicateKey?
    ensures r.result.Err? ==> r.users == users
    ensures r.result.Ok? ==> r.users == users + [r.result.value]
    ensures r.result.Ok? ==>
      && r.result.value.id == id
      && r.result.value.email == NormalizeEmail(body.email)
      && r.result.value.name == Trim(body.name)
      && r.result.value.uid == (if body.uid.Some? then body.uid.value else freshUid)
      && r.result.value.password == lib.hash(Trim(body.password))
      && PasswordPolicy(Trim(body.password))
      && Roles.Name(r.result.value.role) == (if body.role.Some? then body.role.value else "user")
      && r.result.value.isEmailVerified == (body.isEmailVerified.Some? && body.isEmailVerified.value)
    ensures r.result.Ok? ==> WellFormed(r.result.value, lib)
    ensures r.result.Ok? ==> forall j :: 0 <= j < |users| ==> Distinct(users[j], r.result.value)
  {
    if IsEmailTaken(users, body.email, None) then Step(users, Err(EmailTaken))
    else
      var d := NewDraft(body, freshUid);
      var v := Validate(d, id, lib, true);
      if v.Err? then Step(users, Err(v.failure))
      else
        var saved := Save(users, v.value, None);
        if saved.Err? then Step(users, Err(saved.failure))
        else
          ValidatedIsWellFormed(d, id, lib, true, body.email, body.name);
          Step(saved.value, Ok(v.value))
  }

  /** `queryByUid(uid)`: the first user with that uid. */
  function QueryByUid(users: seq<User>, uid: string): (r: Option<nat>)
    ensures r.Some? ==> r.value < |users| && users[r.value].uid == uid
    ensures r.Some? ==> forall j :: 0 <= j < r.value ==> users[j].uid != uid
    ensures r.None? <==> forall i :: 0 <= i < |users| ==> users[i].uid != uid
  {
    FindFirst(users, (u: User) => u.uid == uid)
  }

  /** `queryByEmail(email)`: the first user with the normalized address. */
  function QueryByEmail(users: seq<User>, email: string): (r: Option<nat>)
    ensures r.Some? ==> r.value < |users| && users[r.value].email == NormalizeEmail(email)
    ensures r.Some? ==> forall j :: 0 <= j < r.value ==> users[j].email != NormalizeEmail(email)
    ensures r.None? <==> forall i :: 0 <= i < |users| ==> users[i].email != NormalizeEmail(email)
  {
    var e := NormalizeEmail(email);
    FindFirst(users, (u: User) => u.email == e)
  }

  /** A user appended with an address nobody else holds is the one a lookup finds. */
  lemma AppendedFoundByEmail(users: seq<User>, u: User, email: string)
    requires u.email == NormalizeEmail(email)
    requires forall j :: 0 <= j < |users| ==> users[j].email != u.email
    ensures QueryByEmail(users + [u], email) == Some(|users|)
  {
    var e := NormalizeEmail(email);
    FindFirstAppended(users, u, (v: User) => v.email == e);
  }

  /** The user `create` just stored is the one a lookup by the same address finds. */
  lemma CreatedFoundByEmail(users: seq<User>, body: NewUser, id: ObjectId, freshUid: string, lib: Libraries)
    requires Create(users, body, id, freshUid, lib).result.Ok?
    ensures var r := Create(users, body, id, freshUid, lib);
      QueryByEmail(r.users, body.email) == Some(|users|)
  {
    var r := Create(users, body, id, freshUid, lib);
    var u := r.result.value;
    assert forall j :: 0 <= j < |users| ==> users[j].email != u.email by {
      forall j | 0 <= j < |users| ensures users[j].email != u.email {
        assert Distinct(users[j], u);
      }
    }
    AppendedFoundByEmail(users, u, body.email);
  }

  /** The body's `role` is assigned like any other field, so a caller can
      create an administrator. */
  lemma CreateHonoursRequestedRole(users: seq<User>, body: NewUser, id: ObjectId, freshUid: string, lib: Libraries)
    requires body.role == Some("admin")
    requires Create(users, body, id, freshUid, lib).result.Ok?
    ensures Create(users, body, id, freshUid, lib).result.value.role == Roles.Admin
  {
    Roles.ParseName(Create(users, body, id, freshUid, lib).result.value.role);
  }

  /** `updateByUid(uid, body)`: an unknown uid is "User not found"; otherwise
      the update of the user found, as `UpdateAt` states it. */
  function UpdateByUid(users: seq<User>, uid: string, patch: Patch, lib: Libraries): (r: Step<User>)
    ensures (forall i :: 0 <= i < |users| ==> users[i].uid != uid) ==> r == Step(users, Err(UserNotFound))
    ensures r.result.Err? ==> r.users == users
    ensures QueryByUid(users, uid).Some? ==> r == UpdateAt(users, QueryByUid(users, uid).value, patch, lib)
  {
    var found := QueryByUid(users, uid);
    if found.None? then Step(users, Err(UserNotFound))
    else UpdateAt(users, found.value, patch, lib)
  }

  /** The update of the user at position `i`: the new address must not be held
      by another user; the assigned fields go through their setters, validation
      and the pre-save hash; the unique indexes are checked again. */
  function UpdateAt(users: seq<User>, i: nat, patch: Patch, lib: Libraries): (r: Step<User>)
    requires i < |users|
    ensures r.result.Err? ==> r.users == users
    ensures r.result == Err(EmailTaken) <==>
      patch.email.Some? && patch.email.value != "" && IsEmailTaken(users, patch.email.value, Some(users[i].id))
    ensures r.result.Ok? <==>
      && !(patch.email.Some? && patch.email.value != "" && IsEmailTaken(users, patch.email.value, Some(users[i].id)))
      && DraftValid(Assign(users[i], patch), lib)
      && forall j :: 0 <= j < |users| && j != i ==>
           && users[j].id != users[i].id
           && users[j].email != Assign(users[i], patch).email
           && users[j].uid != Assign(users[i], patch).uid
    ensures !(patch.email.Some? && patch.email.value != "" && IsEmailTaken(users, patch.email.value, Some(users[i].id)))
            && !DraftValid(Assign(users[i], patch), lib) ==>
      r == Step(users, Err(Validation(FailingPaths(Assign(users[i], patch), lib))))
    ensures r.result.Ok? ==>
      var before := users[i];
      var u := r.result.value;
      && r.users == users[i := u]
      && u.id == before.id
      && u.email == (if patch.email.Some? then NormalizeEmail(patch.email.value) else before.email)
      && u.name == (if patch.name.Some? then Trim(patch.name.value) else before.name)
      && u.uid == (if patch.uid.Some? then patch.uid.value else before.uid)
      && u.password == (if PasswordModified(before, patch) then lib.hash(Trim(patch.password.value)) else before.password)
      && u.isEmailVerified == (if patch.isEmailVerified.Some? then patch.isEmailVerified.value else before.isEmailVerified)
      && (patch.role.None? ==> u.role == before.role)
      && (patch.role.Some? ==> Roles.Name(u.role) == patch.role.value)
    ensures r.result.Ok? ==>
      && (WellFormed(users[i], lib) ==> WellFormed(r.result.value, lib))
      && forall j :: 0 <= j < |users| && j != i ==> Distinct(users[j], r.result.value)
  {
    if patch.email.Some? && patch.email.value != "" && IsEmailTaken(users, patch.email.value, Some(users[i].id)) then
      Step(users, Err(EmailTaken))
    else
      SaveAssigned(users, i, patch, lib)
  }

  /** The part of the update after the address check: the assigned fields are
      validated, the password hashed when it changed, and the unique indexes
      checked against every other user. */
  function SaveAssigned(users: seq<User>, i: nat, patch: Patch, lib: Libraries): (r: Step<User>)
    requires i < |users|
    ensures r.result.Err? ==> r.users == users && r.result != Err(EmailTaken)
    ensures r.result.Ok? <==>
      && DraftValid(Assign(users[i], patch), lib)
      && forall j :: 0 <= j < |users| && j != i ==>
           && users[j].id != users[i].id
           && users[j].email != Assign(users[i], patch).email
           && users[j].uid != Assign(users[i], patch).uid
    ensures !DraftValid(Assign(users[i], patch), lib) ==>
      r == Step(users, Err(Validation(FailingPaths(Assign(users[i], patch), lib))))
    ensures r.result.Ok? ==>
      var before := users[i];
      var u := r.result.value;
      && r.users == users[i := u]
      && u.id == before.id
      && u.email == (if patch.email.Some? then NormalizeEmail(patch.email.value) else before.email)
      && u.name == (if patch.name.Some? then Trim(patch.name.value) else before.name)
      && u.uid == (if patch.uid.Some? then patch.uid.value else before.uid)
      && u.password == (if PasswordModified(before, patch) then lib.hash(Trim(patch.password.value)) else before.password)
      && u.isEmailVerified == (if patch.isEmailVerified.Some? then patch.isEmailVerified.value else before.isEmailVerified)
      && (patch.role.None? ==> u.role == before.role)
      && (patch.role.Some? ==> Roles.Name(u.role) == patch.role.value)
    ensures r.result.Ok? ==>
      && (WellFormed(users[i], lib) ==> WellFormed(r.result.value, lib))
      && forall j :: 0 <= j < |users| && j != i ==> Distinct(users[j], r.result.value)
  {
    var user := users[i];
    var modified := PasswordModified(user, patch);
    var v := Validate(Assign(user, patch), user.id, lib, modified);
    if v.Err? then Step(users, Err(v.failure))
    else
      var u := v.value;
      Roles.ParseName(user.role);
      var saved := Save(users, u, Some(i));
      if saved.Err? then Step(users, Err(saved.failure))
      else
        UpdatedIsWellFormed(user, patch, lib);
        Step(saved.value, Ok(u))
  }

  /** Every set path is validated on save, so an update that leaves the password
      alone still needs the stored hash to pass the password validators. */
  lemma UnchangedPasswordRevalidated(users: seq<User>, i: nat, patch: Patch, lib: Libraries)
    requires i < |users|
    requires patch.password.None?
    requires UpdateAt(users, i, patch, lib).result.Ok?
    ensures PasswordPolicy(users[i].password)
  {
  }

  /** `deleteByUid(uid)`: exactly the user with that uid is removed and returned. */
  function DeleteByUid(users: seq<User>, uid: string): (r: Step<User>)
    ensures (forall i :: 0 <= i < |users| ==> users[i].uid != uid) <==> r == Step(users, Err(UserNotFound))
    ensures r.result.Ok? <==> QueryByUid(users, uid).Some?
    ensures r.result.Ok? ==>
      var i := QueryByUid(users, uid).value;
      r.result.value == users[i] && r.users == RemoveAt(users, i)
  {
    var found := QueryByUid(users, uid);
    if found.None? then Step(users, Err(UserNotFound))
    else Step(RemoveAt(users, found.value), Ok(users[found.value]))
  }

  // -----------------------------------------------------------------------
  // Properties

  /** Keeping one's own address is not a conflict: only another user holding the
      normalized address makes an update fail with "Email already taken". */
  lemma UpdateEmailConflictOnlyWithOthers(users: seq<User>, uid: string, patch: Patch, lib: Libraries)
    requires UpdateByUid(users, uid, patch, lib).result == Err(EmailTaken)
    ensures patch.email.Some? && patch.email.value != ""
    ensures exists i, j :: (0 <= i < |users| && 0 <= j < |users| && i != j
                            && users[i].uid == uid && users[j].email == NormalizeEmail(patch.email.value))
  {
    var i := QueryByUid(users, uid).value;
    var j :| 0 <= j < |users| && users[j].email == NormalizeEmail(patch.email.value) && users[j].id != users[i].id;
  }

  /** An update that keeps the user's own (normalized) address never fails with
      "Email already taken". */
  lemma UpdateOwnEmailAllowed(users: seq<User>, i: nat, patch: Patch, lib: Libraries)
    requires KeysUnique(users)
    requires i < |users|
    requires patch.email.Some? && NormalizeEmail(patch.email.value) == users[i].email
    ensures UpdateByUid(users, users[i].uid, patch, lib).result != Err(EmailTaken)
  {
    var k := QueryByUid(users, users[i].uid).value;
    assert k == i;
    forall j | 0 <= j < |users| && users[j].email == NormalizeEmail(patch.email.value)
      ensures users[j].id == users[k].id
    {
      assert Distinct(users[j], users[i]) ==> j == i;
    }
  }

  /** Every successful write keeps the stored users well formed with unique keys. */
  lemma CreateKeepsInvariant(users: seq<User>, body: NewUser, id: ObjectId, freshUid: string, lib: Libraries)
    requires StoreInvariant(users, lib)
    ensures StoreInvariant(Create(users, body, id, freshUid, lib).users, lib)
  {
    var r := Create(users, body, id, freshUid, lib);
    if r.result.Ok? {
      AppendKeepsInvariant(users, r.result.value, lib);
    }
  }

  lemma AppendKeepsInvariant(users: seq<User>, u: User, lib: Libraries)
    requires StoreInvariant(users, lib) && WellFormed(u, lib)
    requires forall j :: 0 <= j < |users| ==> Distinct(users[j], u)
    ensures StoreInvariant(users + [u], lib)
  {
    var us := users + [u];
    forall a, b | 0 <= a < |us| && 0 <= b < |us| && a != b
      ensures Distinct(us[a], us[b])
    {
      if a < |users| && b < |users| {
        assert us[a] == users[a] && us[b] == users[b];
      } else if a < |users| {
        assert us[a] == users[a] && us[b] == u;
      } else {
        assert us[a] == u && us[b] == users[b];
      }
    }
    forall a | 0 <= a < |us|
      ensures WellFormed(us[a], lib)
    {
      if a < |users| { assert us[a] == users[a]; }
    }
  }

  /** An updated document whose email and name went through their setters
      (or kept their stored, already normalized, values) is well formed. */
  lemma UpdatedIsWellFormed(u: User, patch: Patch, lib: Libraries)
    requires Validate(Assign(u, patch), u.id, lib, PasswordModified(u, patch)).Ok?
    ensures WellFormed(u, lib) ==> WellFormed(Validate(Assign(u, patch), u.id, lib, PasswordModified(u, patch)).value, lib)
  {
    if !WellFormed(u, lib) { return; }
    var rawEmail := if patch.email.Some? then patch.email.value else u.email;
    var rawName := if patch.name.Some? then patch.name.value else u.name;
    if patch.email.None? {
      NormalizeEmailIdempotent(u.email);
    }
    if patch.name.None? {
      TrimOfTrimmed(u.name);
    }
    ValidatedIsWellFormed(Assign(u, patch), u.id, lib, PasswordModified(u, patch), rawEmail, rawName);
  }

  lemma ReplaceKeepsInvariant(users: seq<User>, i: nat, u: User, lib: Libraries)
    requires StoreInvariant(users, lib) && WellFormed(u, lib)
    requires i < |users|
    requires forall j :: 0 <= j < |users| && j != i ==> Distinct(users[j], u)
    ensures StoreInvariant(users[i := u], lib)
  {
    var us := users[i := u];
    forall a, b | 0 <= a < |us| && 0 <= b < |us| && a != b
      ensures Distinct(us[a], us[b])
    {
      if a != i && b != i {
        assert us[a] == users[a] && us[b] == users[b];
      }
    }
  }

  lemma UpdateKeepsInvariant(users: seq<User>, uid: string, patch: Patch, lib: Libraries)
    requires StoreInvariant(users, lib)
    ensures StoreInvariant(UpdateByUid(users, uid, patch, lib).users, lib)
  {
    var r := UpdateByUid(users, uid, patch, lib);
    if r.result.Ok? {
      var i := QueryByUid(users, uid).value;
      ReplaceKeepsInvariant(users, i, r.result.value, lib);
    }
  }

  lemma RemoveKeepsInvariant(users: seq<User>, i: nat, lib: Libraries)
    requires StoreInvariant(users, lib)
    requires i < |users|
    ensures StoreInvariant(RemoveAt(users, i), lib)
  {
    RemoveAtKeepsAll(users, i, (u: User) => WellFormed(u, lib));
    RemoveAtKeepsPairwise(users, i, (u: User, v: User) => Distinct(u, v));
  }

  lemma DeleteKeepsInvariant(users: seq<User>, uid: string, lib: Libraries)
    requires StoreInvariant(users, lib)
    ensures StoreInvariant(DeleteByUid(users, uid).users, lib)
  {
    if DeleteByUid(users, uid).result.Ok? {
      RemoveKeepsInvariant(users, QueryByUid(users, uid).value, lib);
    }
  }

  /** Once a user is deleted, its uid no longer resolves. */
  lemma DeletedUserNotFound(users: seq<User>, uid: string)
    requires KeysUnique(users)
    requires DeleteByUid(users, uid).result.Ok?
    ensures QueryByUid(DeleteByUid(users, uid).users, uid).None?
  {
    var i := QueryByUid(users, uid).value;
    var rest := RemoveAt(users, i);
    forall a | 0 <= a < |rest|
      ensures rest[a].uid != uid
    {
      var a' := if a < i then a else a + 1;
      assert rest[a] == users[a'];
    }
  }
}
