/** Self-registration: a new active account under the normalised e-mail, or
    BadRequest when the two passwords differ, or Conflict when the e-mail is
    taken. Password hashing is not modelled; the passwords matter only for the
    equality check. */
module Auth {
  import opened Common
  import opened Text
  import opened Models
  import opened Session

  /** `register`: the e-mail is normalised first; then BadRequest for
      mismatching passwords, Conflict for an e-mail some user already has
      (tables untouched in both cases); otherwise one active user appended with
      the given full name, found afterwards under its e-mail. The field lengths
      are the request schema's. */
  method Register(db: Database, fullName: Option<string>, email: string, password: string, passwordConfirm: string)
    returns (r: Result<User>)
    requires db.Valid() && |email| >= 3 && |password| >= 1 && |passwordConfirm| >= 1
    modifies db
    ensures db.Valid()
    ensures password != passwordConfirm ==>
      r == Err(BadRequest) && db.Snapshot() == old(db.Snapshot()) && db.nextIds == old(db.nextIds)
    ensures password == passwordConfirm && UserByEmail(old(db.users), NormalizeEmail(email)).Some? ==>
      r == Err(Conflict) && db.Snapshot() == old(db.Snapshot()) && db.nextIds == old(db.nextIds)
    ensures password == passwordConfirm && UserByEmail(old(db.users), NormalizeEmail(email)).None? ==>
      && r == Ok(User(old(db.nextIds.user), NormalizeEmail(email), fullName, true))
      && db.Snapshot() == old(db.Snapshot()).(users := old(db.users) + [r.value])
      && db.nextIds == old(db.nextIds).(user := old(db.nextIds.user) + 1)
    ensures r.Ok? ==> UserByEmail(db.users, r.value.email) == Some(|old(db.users)|)
  {
    var normalized := NormalizeEmail(email);
    if password != passwordConfirm {
      return Err(BadRequest);
    }
    if UserByEmail(db.users, normalized).Some? {
      return Err(Conflict);
    }
    ghost var t0 := db.Snapshot();
    var user := User(db.nextIds.user, normalized, fullName, true);
    AddUserValid(t0, db.nextIds, user);
    db.users := db.users + [user];
    db.nextIds := db.nextIds.(user := db.nextIds.user + 1);
    assert db.users[|t0.users|] == user;
    assert db.Snapshot() == t0.(users := t0.users + [user]);
    r := Ok(user);
  }

  /** Registering twice with e-mails that normalise alike: once the first call
      has succeeded, the second is a Conflict and adds nobody. */
  method RegisterTwice(db: Database, fullName: Option<string>, email: string, otherEmail: string, password: string)
    returns (first: Result<User>, second: Result<User>)
    requires db.Valid() && |email| >= 3 && |otherEmail| >= 3 && |password| >= 1
    requires NormalizeEmail(otherEmail) == NormalizeEmail(email)
    modifies db
    ensures first.Ok? ==> second == Err(Conflict) && |db.users| == |old(db.users)| + 1
  {
    first := Register(db, fullName, email, password, password);
    second := Register(db, fullName, otherEmail, password, password);
  }

  /** Surrounding blanks and capitals do not make a second account:
      " A@b.c " normalises to the same address as "a@b.c". */
  lemma NormalizedAddressesCollide()
    ensures NormalizeEmail(" A@b.c ") == NormalizeEmail("a@b.c") == "a@b.c"
  {
    var padded := " A@b.c ";
    assert TrimStart(padded) == padded[1..];
    assert TrimEnd(padded[1..]) == "A@b.c";
    StripOfStripped("a@b.c");
    assert Lower("A@b.c") == "a@b.c";
  }
}
