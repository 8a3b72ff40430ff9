/** The two collections the controllers work on, and what a controller
    action leaves behind. */
module Database {
  import opened Outcomes
  import opened Collection
  import opened SessionModel
  import opened UserModel

  /** The `users` and `sessions` collections. */
  datatype World = World(users: seq<User>, sessions: seq<Session>)

  /** The collections after an action, and what the action sent or threw. */
  datatype Outcome<T> = Outcome(world: World, result: Result<T>)

  /** The values the environment supplies to one request: the new document's
      `_id`, the uuid drawn for a new user's `uid`, the uuids drawn for a new
      session, the clock, the token lifetimes and the foreign libraries. */
  datatype Env = Env(id: ObjectId, freshUid: string, tokens: FreshTokens, now: int, cfg: TokenConfig, lib: Libraries)

  /** Some stored user has the session's `user` as its `_id`. */
  predicate Owned(users: seq<User>, s: Session)
  {
    exists j :: 0 <= j < |users| && users[j].id == s.user
  }

  /** Every session refers to a stored user. */
  predicate SessionsOwned(w: World)
  {
    forall i :: 0 <= i < |w.sessions| ==> Owned(w.users, w.sessions[i])
  }

  /** Storing a user keeps every session owned. */
  lemma OwnedWithNewUser(w: World, u: User)
    requires SessionsOwned(w)
    ensures SessionsOwned(World(w.users + [u], w.sessions))
  {
    var users := w.users + [u];
    forall k | 0 <= k < |w.sessions|
      ensures Owned(users, w.sessions[k])
    {
      assert Owned(w.users, w.sessions[k]);
      var j :| 0 <= j < |w.users| && w.users[j].id == w.sessions[k].user;
      assert users[j] == w.users[j];
    }
  }

  /** Storing a session of a stored user keeps every session owned. */
  lemma OwnedWithNewSession(w: World, s: Session, j: nat)
    requires SessionsOwned(w)
    requires j < |w.users| && w.users[j].id == s.user
    ensures SessionsOwned(World(w.users, w.sessions + [s]))
  {
    var sessions := w.sessions + [s];
    forall k | 0 <= k < |sessions|
      ensures Owned(w.users, sessions[k])
    {
      if k < |w.sessions| {
        assert sessions[k] == w.sessions[k];
      }
    }
  }

  /** Removing the user at `i` together with every session of its `_id` keeps
      every session owned, given the `_id` index. */
  lemma OwnedAfterCascade(w: World, i: nat, users: seq<User>, kept: seq<Session>)
    requires SessionsOwned(w) && KeysUnique(w.users)
    requires i < |w.users| && users == RemoveAt(w.users, i)
    requires forall k :: 0 <= k < |kept| ==> kept[k] in w.sessions && kept[k].user != w.users[i].id
    ensures SessionsOwned(World(users, kept))
  {
    forall k | 0 <= k < |kept|
      ensures Owned(users, kept[k])
    {
      var s := kept[k];
      var k0 :| 0 <= k0 < |w.sessions| && w.sessions[k0] == s;
      assert Owned(w.users, w.sessions[k0]);
      var j :| 0 <= j < |w.users| && w.users[j].id == s.user;
      assert j != i;
      if j < i {
        assert users[j].id == s.user;
      } else {
        assert users[j - 1].id == s.user;
      }
    }
  }
}
