/** The caller's own profile: changing the full name and the e-mail, and
    deactivating the account. The caller is the user `get_current_user`
    resolved; it is passed by id. */
module Users {
  import opened Common
  import opened Text
  import opened Models
  import opened Session
  import opened AuthJwt

  /** Some user other than the one at position `k` has the e-mail. */
  predicate EmailHeldByOther(users: seq<User>, email: string, k: nat)
  {
    exists j :: 0 <= j < |users| && j != k && users[j].email == email
  }

  /** The caller's row after a successful `update_me`: the full name when one
      is supplied, the normalised e-mail when one is supplied, the rest kept. */
  function Updated(u: User, fullName: Option<string>, email: Option<string>): (v: User)
    ensures v.id == u.id && v.isActive == u.isActive
    ensures fullName.None? ==> v.fullName == u.fullName
    ensures fullName.Some? ==> v.fullName == fullName
    ensures email.None? ==> v.email == u.email
    ensures email.Some? ==> v.email == NormalizeEmail(email.value)
  {
    u.(fullName := if fullName.Some? then fullName else u.fullName,
       email := if email.Some? then NormalizeEmail(email.value) else u.email)
  }

  /** `update_me`: a supplied e-mail that is all whitespace is BadRequest; one
      another user already has is Conflict; both leave every table as it was.
      Otherwise the caller's row alone becomes `Updated` of it, and the caller
      is what its id and its (possibly new) e-mail find. */
  method UpdateMe(db: Database, userId: int, fullName: Option<string>, email: Option<string>)
    returns (r: Result<User>)
    requires db.Valid() && UserIndex(db.users, userId).Some?
    requires email.Some? ==> |email.value| >= 3
    modifies db
    ensures db.Valid() && db.nextIds == old(db.nextIds)
    ensures var k := UserIndex(old(db.users), userId).value;
      && (email.Some? && NormalizeEmail(email.value) == [] ==>
            r == Err(BadRequest) && db.Snapshot() == old(db.Snapshot()))
      && (email.Some? && NormalizeEmail(email.value) != [] && EmailHeldByOther(old(db.users), NormalizeEmail(email.value), k) ==>
            r == Err(Conflict) && db.Snapshot() == old(db.Snapshot()))
      && ((email.None? || (NormalizeEmail(email.value) != [] && !EmailHeldByOther(old(db.users), NormalizeEmail(email.value), k))) ==>
            && r == Ok(Updated(old(db.users)[k], fullName, email))
            && db.Snapshot() == old(db.Snapshot()).(users := old(db.users)[k := r.value]))
    ensures r.Ok? ==>
      && UserIndex(db.users, userId) == UserIndex(old(db.users), userId)
      && UserByEmail(db.users, r.value.email) == UserIndex(old(db.users), userId)
    ensures r.Err? ==> r.error == BadRequest || r.error == Conflict
  {
    ghost var t0 := db.Snapshot();
    var k := UserIndex(db.users, userId).value;
    if email.Some? {
      var e := NormalizeEmail(email.value);
      if e == [] {
        return Err(BadRequest);
      }
      if EmailHeldByOther(db.users, e, k) {
        return Err(Conflict);
      }
    }
    var u := Updated(db.users[k], fullName, email);
    UpdateUserValid(t0, db.nextIds, k, u);
    db.users := db.users[k := u];
    assert db.users[k] == u;
    UserIdOf(db.users, u);
    UserEmailOf(db.users, u);
    assert db.Snapshot() == t0.(users := t0.users[k := u]);
    r := Ok(u);
  }

  /** `delete_me`: the caller's row becomes inactive and nothing else changes;
      afterwards no header and no token decoder authenticate as the caller. */
  method DeleteMe(db: Database, userId: int) returns (r: User)
    requires db.Valid() && UserIndex(db.users, userId).Some?
    modifies db
    ensures db.Valid() && db.nextIds == old(db.nextIds)
    ensures var k := UserIndex(old(db.users), userId).value;
      && r == old(db.users)[k].(isActive := false)
      && db.Snapshot() == old(db.Snapshot()).(users := old(db.users)[k := r])
    ensures forall h, d :: GetCurrentUser(db.users, h, d).Ok? ==> GetCurrentUser(db.users, h, d).value.id != userId
  {
    ghost var t0 := db.Snapshot();
    var k := UserIndex(db.users, userId).value;
    r := db.users[k].(isActive := false);
    UpdateUserValid(t0, db.nextIds, k, r);
    db.users := db.users[k := r];
    assert db.users[k] == r;
    forall h, d | GetCurrentUser(db.users, h, d).Ok?
      ensures GetCurrentUser(db.users, h, d).value.id != userId
    {
      InactiveUserRejected(db.users, k, h, d);
    }
    assert db.Snapshot() == t0.(users := t0.users[k := r]);
  }
}
