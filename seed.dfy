/** The demo-data seeder: get-or-create helpers for roles, users, elements,
    memberships and rules, and the routine that lays down the fixed access
    matrix (the admin role with every flag on all five elements, the user role
    with own-scope flags on products and orders). */
module Seed {
  import opened Common
  import opened Models
  import opened Session
  import opened Admin
  import opened Rbac

  const AdminEmail := "admin@mail.ru"
  const AdminFullName := "Admin"
  const UserEmail := "user@mail.ru"
  const UserFullName := "User"
  const AdminRoleName := "admin"
  const UserRoleName := "user"

  /** The codes and titles of the five seeded elements, in seeding order. */
  const SeedCodes: seq<string> := ["rbac_roles", "rbac_rules", "rbac_user_roles", "products", "orders"]
  const SeedTitles: seq<string> := ["Роли", "Правила доступа", "Роли пользователей", "Товары", "Заказы"]

  /** The codes on which the user role gets rules. */
  const ResourceCodes: seq<string> := ["products", "orders"]

  /** The admin role's flags: everything. */
  const AllFlags := Flags(true, true, true, true, true, true, true)

  /** The user role's flags: the own-scope flags and create, no blanket flag. */
  const UserFlags := Flags(read := true, readAll := false, create := true, update := true,
                           updateAll := false, delete := true, deleteAll := false)

  // ---------------------------------------------------------------- get-or-create helpers

  /** `get_or_create_role`: the role with the name, inserted only when there is none.
      Afterwards the name finds the returned role, so a repeat call changes nothing. */
  method GetOrCreateRole(db: Database, name: string) returns (role: Role)
    requires db.Valid()
    modifies db
    ensures db.Valid()
    ensures role.name == name && role in db.roles
    ensures RoleByName(old(db.roles), name).Some? ==>
      role == old(db.roles)[RoleByName(old(db.roles), name).value] &&
      db.Snapshot() == old(db.Snapshot()) && db.nextIds == old(db.nextIds)
    ensures RoleByName(old(db.roles), name).None? ==>
      && role == Role(old(db.nextIds.role), name)
      && db.Snapshot() == old(db.Snapshot()).(roles := old(db.roles) + [role])
      && db.nextIds == old(db.nextIds).(role := old(db.nextIds.role) + 1)
  {
    var found := RoleByName(db.roles, name);
    if found.Some? {
      return db.roles[found.value];
    }
    AddRoleValid(db.Snapshot(), db.nextIds, name);
    role := Role(db.nextIds.role, name);
    db.roles := db.roles + [role];
    db.nextIds := db.nextIds.(role := db.nextIds.role + 1);
    assert db.roles[|db.roles| - 1] == role;
  }

  /** `get_or_create_user` as written: an existing user is re-activated, but it
      is returned only when its full name was empty (and is then filled in); an
      existing user with a name falls through to inserting a second row with
      the same e-mail, which the unique index rejects, with the re-activation
      still pending. */
  method GetOrCreateUser(db: Database, email: string, fullName: string) returns (r: Result<User>)
    requires db.Valid()
    modifies db
    ensures db.Valid()
    ensures r.Err? ==> r.error == Conflict
    ensures r.Err? <==> NamedAccount(old(db.users), email)
    ensures forall other :: other != email ==> UserWithEmail(db.users, other) == UserWithEmail(old(db.users), other)
    ensures forall x :: x in old(db.users) && x.email != email ==> x in db.users
    ensures r.Ok? ==> r.value.email == email && r.value.fullName == Some(fullName) && r.value.isActive && r.value in db.users
    ensures UserByEmail(old(db.users), email).None? ==>
      && r == Ok(User(old(db.nextIds.user), email, Some(fullName), true))
      && db.Snapshot() == old(db.Snapshot()).(users := old(db.users) + [r.value])
      && db.nextIds == old(db.nextIds).(user := old(db.nextIds.user) + 1)
    ensures UserByEmail(old(db.users), email).Some? && old(db.users)[UserByEmail(old(db.users), email).value].fullName.None? ==>
      && r == Ok(old(db.users)[UserByEmail(old(db.users), email).value].(isActive := true, fullName := Some(fullName)))
      && db.Snapshot() == old(db.Snapshot()).(users := old(db.users)[UserByEmail(old(db.users), email).value := r.value])
      && db.nextIds == old(db.nextIds)
    ensures UserByEmail(old(db.users), email).Some? && old(db.users)[UserByEmail(old(db.users), email).value].fullName.Some? ==>
      && r == Err(Conflict)
      && db.Snapshot() == old(db.Snapshot()).(users := old(db.users)[UserByEmail(old(db.users), email).value :=
                                                  old(db.users)[UserByEmail(old(db.users), email).value].(isActive := true)])
      && db.nextIds == old(db.nextIds)
  {
    ghost var t0, ids0 := db.Snapshot(), db.nextIds;
    var found := UserByEmail(db.users, email);
    if found.Some? {
      var k := found.value;
      assert UserWithEmail(t0.users, email) == Some(t0.users[k]);
      var user := db.users[k].(isActive := true);
      if user.fullName.None? {
        user := user.(fullName := Some(fullName));
        UpdateUserValid(t0, ids0, k, user);
        db.users := db.users[k := user];
        assert db.users[k] == user;
        assert db.Snapshot() == t0.(users := t0.users[k := user]);
        OtherEmailKept(t0.users, db.users, email);
        return Ok(user);
      }
      UpdateUserValid(t0, ids0, k, user);
      db.users := db.users[k := user];
      assert db.Snapshot() == t0.(users := t0.users[k := user]);
      OtherEmailKept(t0.users, db.users, email);
      return Err(Conflict);
    }
    assert UserWithEmail(t0.users, email).None?;
    var user := User(db.nextIds.user, email, Some(fullName), true);
    AddUserValid(t0, ids0, user);
    db.users := db.users + [user];
    db.nextIds := db.nextIds.(user := db.nextIds.user + 1);
    assert db.users[|db.users| - 1] == user;
    assert db.Snapshot() == t0.(users := t0.users + [user]);
    OtherEmailKept(t0.users, db.users, email);
    r := Ok(user);
  }

  /** Running the helper as written twice for the same account: once the first
      call has succeeded the account has a full name, so the second call can only fail. */
  method ReseedUserAsWritten(db: Database, email: string, fullName: string) returns (first: Result<User>, second: Result<User>)
    requires db.Valid()
    modifies db
    ensures first.Ok? ==> second == Err(Conflict)
  {
    first := GetOrCreateUser(db, email, fullName);
    if first.Ok? {
      UserEmailOf(db.users, first.value);
    }
    second := GetOrCreateUser(db, email, fullName);
  }

  /** `get_or_create_user` as intended: an existing user is re-activated, its
      full name filled in only when empty, and returned; a new one is inserted
      otherwise. Afterwards the e-mail finds the returned user. */
  method GetOrCreateUserFixed(db: Database, email: string, fullName: string) returns (user: User)
    requires db.Valid()
    modifies db
    ensures db.Valid()
    ensures user.email == email && user.isActive && user.fullName.Some? && user in db.users
    ensures forall x :: x in old(db.users) && x.email != email ==> x in db.users
    ensures UserByEmail(old(db.users), email).None? ==>
      && user == User(old(db.nextIds.user), email, Some(fullName), true)
      && db.Snapshot() == old(db.Snapshot()).(users := old(db.users) + [user])
      && db.nextIds == old(db.nextIds).(user := old(db.nextIds.user) + 1)
    ensures UserByEmail(old(db.users), email).Some? ==>
      var before := old(db.users)[UserByEmail(old(db.users), email).value];
      && user == before.(isActive := true, fullName := if before.fullName.None? then Some(fullName) else before.fullName)
      && db.Snapshot() == old(db.Snapshot()).(users := old(db.users)[UserByEmail(old(db.users), email).value := user])
      && db.nextIds == old(db.nextIds)
    ensures UserWithEmail(old(db.users), email).Some? && UserWithEmail(old(db.users), email).value.isActive &&
            UserWithEmail(old(db.users), email).value.fullName.Some? ==>
      user == UserWithEmail(old(db.users), email).value && db.Snapshot() == old(db.Snapshot()) && db.nextIds == old(db.nextIds)
  {
    ghost var t0, ids0 := db.Snapshot(), db.nextIds;
    var found := UserByEmail(db.users, email);
    if found.Some? {
      var k := found.value;
      user := db.users[k].(isActive := true);
      if user.fullName.None? {
        user := user.(fullName := Some(fullName));
      }
      UpdateUserValid(t0, ids0, k, user);
      ReplaceUserFacts(t0.users, k, email, user);
      db.users := db.users[k := user];
      assert db.Snapshot() == t0.(users := t0.users[k := user]);
      return;
    }
    user := User(db.nextIds.user, email, Some(fullName), true);
    AddUserValid(t0, ids0, user);
    db.users := db.users + [user];
    db.nextIds := db.nextIds.(user := db.nextIds.user + 1);
    assert db.users[|db.users| - 1] == user;
    assert db.Snapshot() == t0.(users := t0.users + [user]);
  }

  /** Replacing the user with the e-mail keeps every other user, and replacing
      it by itself changes nothing. */
  lemma ReplaceUserFacts(users: seq<User>, k: nat, email: string, user: User)
    requires k < |users| && users[k].email == email
    ensures users[k := user][k] == user
    ensures forall x :: x in users && x.email != email ==> x in users[k := user]
    ensures user == users[k] ==> users[k := user] == users
  {
    forall x | x in users && x.email != email ensures x in users[k := user] {
      var j :| 0 <= j < |users| && users[j] == x;
      assert users[k := user][j] == x;
    }
  }

  /** Running the fixed helper twice for the same account: the second call
      returns the same user and inserts nothing. */
  method ReseedUserFixed(db: Database, email: string, fullName: string) returns (first: User, second: User)
    requires db.Valid()
    modifies db
    ensures second == first && first in db.users
    ensures |db.users| <= |old(db.users)| + 1
  {
    first := GetOrCreateUserFixed(db, email, fullName);
    UserEmailOf(db.users, first);
    assert UserWithEmail(db.users, email) == Some(first);
    second := GetOrCreateUserFixed(db, email, fullName);
  }

  /** The element table after `get_or_create_element`: the element with the
      code gets the title if it had none, or a new element is appended. */
  function WithElement(elements: seq<Element>, code: string, title: Option<string>, newId: int): seq<Element>
  {
    match ElementByCode(elements, code)
    case None => elements + [Element(newId, code, title)]
    case Some(k) => if elements[k].title.None? then elements[k := elements[k].(title := title)] else elements
  }

  /** After `WithElement` the code finds the element where it was, or at the
      end; that element keeps its id and has a title if either the old element
      or the call supplied one. Every element with another code is kept. */
  lemma WithElementSpec(elements: seq<Element>, code: string, title: Option<string>, newId: int)
    ensures var r := WithElement(elements, code, title, newId);
      var k := ElementByCode(elements, code);
      && ElementByCode(r, code) == Some(if k.Some? then k.value else |elements|)
      && (k.Some? ==> r[k.value].id == elements[k.value].id
                      && r[k.value].title == (if elements[k.value].title.Some? then elements[k.value].title else title))
      && (k.None? ==> r[|elements|] == Element(newId, code, title))
    ensures forall x :: x in elements && x.code != code ==> x in WithElement(elements, code, title, newId)
  {
    var r := WithElement(elements, code, title, newId);
    match ElementByCode(elements, code)
    case None =>
      assert r[|elements|].code == code;
      assert forall j :: 0 <= j < |elements| ==> r[j] == elements[j];
    case Some(k) =>
      assert r[k].code == code;
      assert forall j :: 0 <= j < |elements| && j != k ==> r[j] == elements[j];
      forall x | x in elements && x.code != code ensures x in r {
        var j :| 0 <= j < |elements| && elements[j] == x;
        assert r[j] == x;
      }
  }

  /** `get_or_create_element` leaves what every other code finds as it was. */
  lemma WithElementOtherCodes(elements: seq<Element>, code: string, title: Option<string>, newId: int)
    ensures forall c :: c != code ==> ElementByCode(WithElement(elements, code, title, newId), c) == ElementByCode(elements, c)
  {
    var r := WithElement(elements, code, title, newId);
    assert forall j :: 0 <= j < |elements| ==> r[j] == elements[j] || r[j].code == code;
    assert forall j :: |elements| <= j < |r| ==> r[j].code == code;
    forall c | c != code ensures ElementByCode(r, c) == ElementByCode(elements, c) {
      var i := ElementByCode(elements, c);
      if i.Some? {
        assert r[i.value] == elements[i.value];
      }
    }
  }

  /** Every code that found an element before still finds one, with the same id. */
  ghost predicate ElementIdsKept(before: seq<Element>, after: seq<Element>)
  {
    forall c :: ElementByCode(before, c).Some? ==>
      ElementByCode(after, c).Some? && after[ElementByCode(after, c).value].id == before[ElementByCode(before, c).value].id
  }

  /** `get_or_create_element` keeps every element's id, and keeping ids composes. */
  lemma WithElementKeepsIds(first: seq<Element>, elements: seq<Element>, code: string, title: Option<string>, newId: int)
    requires ElementIdsKept(first, elements)
    ensures ElementIdsKept(first, WithElement(elements, code, title, newId))
  {
    WithElementSpec(elements, code, title, newId);
    WithElementOtherCodes(elements, code, title, newId);
  }

  /** A second `get_or_create_element` with the same arguments changes nothing. */
  lemma WithElementIdempotent(elements: seq<Element>, code: string, title: Option<string>, newId: int, laterId: int)
    ensures WithElement(WithElement(elements, code, title, newId), code, title, laterId) == WithElement(elements, code, title, newId)
  {
    WithElementSpec(elements, code, title, newId);
    var r := WithElement(elements, code, title, newId);
    var k := ElementByCode(r, code).value;
    if r[k].title.None? {
      assert r[k].(title := title) == r[k];
      assert r[k := r[k]] == r;
    }
  }

  /** `get_or_create_element`: the element table becomes `WithElement` of the
      old one, the element id sequence advances only on insert, and the
      returned element is the one the code now finds. */
  method GetOrCreateElement(db: Database, code: string, title: Option<string>) returns (element: Element)
    requires db.Valid()
    modifies db
    ensures db.Valid()
    ensures db.Snapshot() == old(db.Snapshot()).(elements := WithElement(old(db.elements), code, title, old(db.nextIds.element)))
    ensures db.nextIds == old(db.nextIds).(element := old(db.nextIds.element) + if ElementByCode(old(db.elements), code).None? then 1 else 0)
    ensures ElementByCode(db.elements, code).Some? && element == db.elements[ElementByCode(db.elements, code).value]
    ensures element in db.elements && element.code == code
  {
    ghost var t0, ids0 := db.Snapshot(), db.nextIds;
    WithElementSpec(t0.elements, code, title, ids0.element);
    var found := ElementByCode(db.elements, code);
    if found.Some? {
      var k := found.value;
      element := db.elements[k];
      if element.title.None? {
        RetitleElementValid(t0, ids0, k, title);
        element := element.(title := title);
        db.elements := db.elements[k := element];
      }
      assert db.elements == WithElement(t0.elements, code, title, ids0.element);
      assert db.Snapshot() == t0.(elements := db.elements);
      return;
    }
    AddElementValid(t0, ids0, code, title);
    element := Element(db.nextIds.element, code, title);
    db.elements := db.elements + [element];
    db.nextIds := db.nextIds.(element := db.nextIds.element + 1);
    assert db.Snapshot() == t0.(elements := db.elements);
  }

  /** `get_or_update_rule`: the same create-or-overwrite as the admin upsert. A
      role or element id that names no row is left to the foreign keys, which
      reject the insert. */
  method GetOrUpdateRule(db: Database, roleId: int, elementId: int, flags: Flags) returns (r: Result<Rule>)
    requires db.Valid()
    modifies db
    ensures db.Valid()
    ensures RoleIndex(old(db.roles), roleId).Some? && ElementIndex(old(db.elements), elementId).Some? ==>
      && db.Snapshot() == old(db.Snapshot()).(rules := Upsert(old(db.rules), roleId, elementId, flags, old(db.nextIds.rule)))
      && r.Ok? && r.value.roleId == roleId && r.value.elementId == elementId && r.value.flags == flags
      && db.nextIds == (if RuleFor(old(db.rules), roleId, elementId).None? then old(db.nextIds).(rule := old(db.nextIds.rule) + 1) else old(db.nextIds))
    ensures RoleIndex(old(db.roles), roleId).None? || ElementIndex(old(db.elements), elementId).None? ==>
      r == Err(Conflict) && db.Snapshot() == old(db.Snapshot()) && db.nextIds == old(db.nextIds)
  {
    var found := RuleFor(db.rules, roleId, elementId);
    if found.None? && (RoleIndex(db.roles, roleId).None? || ElementIndex(db.elements, elementId).None?) {
      return Err(Conflict);
    }
    ghost var t0, ids0 := db.Snapshot(), db.nextIds;
    if found.Some? {
      assert RuleRefs(t0, t0.rules[found.value]);
    }
    UpsertValid(t0, ids0, roleId, elementId, flags);
    ghost var after := Upsert(t0.rules, roleId, elementId, flags, ids0.rule);
    var rule: Rule;
    if found.None? {
      rule := NewRule(db.nextIds.rule, roleId, elementId);
      db.rules := db.rules + [rule.(flags := flags)];
      db.nextIds := db.nextIds.(rule := db.nextIds.rule + 1);
    } else {
      rule := db.rules[found.value];
      db.rules := db.rules[found.value := rule.(flags := flags)];
    }
    assert db.rules == after;
    assert db.Snapshot() == t0.(rules := after);
    r := Ok(rule.(flags := flags));
  }

  /** `get_or_create_user_role`: the membership added only if absent, so a second
      call is a no-op. A dangling user or role id is rejected by the foreign keys. */
  method GetOrCreateUserRole(db: Database, userId: int, roleId: int) returns (r: Result<()>)
    requires db.Valid()
    modifies db
    ensures db.Valid() && db.nextIds == old(db.nextIds)
    ensures UserIndex(old(db.users), userId).Some? && RoleIndex(old(db.roles), roleId).Some? ==>
      r == Ok(()) &&
      db.Snapshot() == old(db.Snapshot()).(memberships := old(db.memberships) + {Membership(userId, roleId)})
    ensures UserIndex(old(db.users), userId).None? || RoleIndex(old(db.roles), roleId).None? ==>
      r == Err(Conflict) && db.Snapshot() == old(db.Snapshot())
  {
    ghost var t0 := db.Snapshot();
    var link := Membership(userId, roleId);
    if link in db.memberships {
      assert MembershipRefs(t0, link);
      assert db.memberships + {link} == db.memberships;
      return Ok(());
    }
    if UserIndex(db.users, userId).None? || RoleIndex(db.roles, roleId).None? {
      return Err(Conflict);
    }
    AddMembershipValid(t0, db.nextIds, link);
    db.memberships := db.memberships + {link};
    assert db.Snapshot() == t0.(memberships := t0.memberships + {link});
    r := Ok(());
  }

  // ---------------------------------------------------------------- the seeded matrix

  /** The role with the name, if any. */
  function RoleNamed(roles: seq<Role>, name: string): (r: Option<Role>)
    ensures r.Some? ==> r.value in roles && r.value.name == name
    ensures r.None? <==> forall k :: 0 <= k < |roles| ==> roles[k].name != name
  {
    match RoleByName(roles, name)
    case None => None
    case Some(k) => Some(roles[k])
  }

  /** The user with the e-mail, if any. */
  function UserWithEmail(users: seq<User>, email: string): (r: Option<User>)
    ensures r.Some? ==> r.value in users && r.value.email == email
    ensures r.None? <==> forall k :: 0 <= k < |users| ==> users[k].email != email
  {
    match UserByEmail(users, email)
    case None => None
    case Some(k) => Some(users[k])
  }

  /** The element with the code carries a rule for the role with exactly these flags. */
  ghost predicate RuleOn(t: Tables, roleId: int, code: string, flags: Flags)
  {
    match ElementByCode(t.elements, code)
    case None => false
    case Some(e) => FlagsOf(t.rules, roleId, t.elements[e].id) == Some(flags)
  }

  /** The state the seeder promises: both roles and both accounts present and
      active, each account holding its role, the admin role with every flag on
      all five elements, the user role with `UserFlags` on products and orders. */
  ghost predicate Seeded(t: Tables)
  {
    match (RoleNamed(t.roles, AdminRoleName), RoleNamed(t.roles, UserRoleName),
           UserWithEmail(t.users, AdminEmail), UserWithEmail(t.users, UserEmail))
    case (Some(a), Some(u), Some(ad), Some(us)) =>
      && ad.isActive && us.isActive
      && Membership(ad.id, a.id) in t.memberships
      && Membership(us.id, u.id) in t.memberships
      && (forall j :: 0 <= j < |SeedCodes| ==> RuleOn(t, a.id, SeedCodes[j], AllFlags))
      && RuleOn(t, u.id, "products", UserFlags)
      && RuleOn(t, u.id, "orders", UserFlags)
    case _ => false
  }

  /** A rule the seeder may have written: the admin role on a seeded element, or
      the user role on products or orders. */
  ghost predicate SeededPair(t: Tables, x: Rule)
  {
    match (RoleNamed(t.roles, AdminRoleName), RoleNamed(t.roles, UserRoleName), ElementIndex(t.elements, x.elementId))
    case (Some(a), Some(u), Some(e)) =>
      (x.roleId == a.id && t.elements[e].code in SeedCodes) ||
      (x.roleId == u.id && t.elements[e].code in ResourceCodes)
    case _ => false
  }

  /** The ids of a list of elements. */
  function IdsOf(elements: seq<Element>): (ids: set<int>)
    ensures forall e :: e in elements ==> e.id in ids
    ensures forall i :: i in ids ==> exists e :: e in elements && e.id == i
  {
    set e | e in elements :: e.id
  }

  /** The five seeded codes are pairwise distinct. */
  lemma SeedCodesDistinct()
    ensures forall i, j :: 0 <= i < j < |SeedCodes| ==> SeedCodes[i] != SeedCodes[j]
  {
    assert |SeedCodes[0]| == 10 && |SeedCodes[1]| == 10 && |SeedCodes[2]| == 15;
    assert |SeedCodes[3]| == 8 && |SeedCodes[4]| == 6;
    assert SeedCodes[0][6] != SeedCodes[1][6];
  }

  /** Products and orders are the last two seeded codes, and both resource codes are seeded. */
  lemma ResourceCodesSeeded()
    ensures SeedCodes[3] == ResourceCodes[0] && SeedCodes[4] == ResourceCodes[1]
    ensures forall c :: c in ResourceCodes ==> c in SeedCodes
  {
  }

  /** The first `i` elements of the list are fetched, in order, and are in the table. */
  ghost predicate ElementsProgress(elements: seq<Element>, objs: seq<Element>, codes: seq<string>, i: nat)
  {
    && |objs| == i <= |codes|
    && forall j :: 0 <= j < i ==> objs[j] in elements && objs[j].code == codes[j]
  }

  /** One turn of the element loop keeps the elements fetched so far. */
  lemma ElementStep(before: seq<Element>, objs: seq<Element>, codes: seq<string>, i: nat,
                    title: Option<string>, newId: int, e: Element)
    requires ElementsProgress(before, objs, codes, i) && i < |codes|
    requires forall j :: 0 <= j < i ==> codes[j] != codes[i]
    requires e in WithElement(before, codes[i], title, newId) && e.code == codes[i]
    ensures ElementsProgress(WithElement(before, codes[i], title, newId), objs + [e], codes, i + 1)
  {
    WithElementSpec(before, codes[i], title, newId);
    var objs2 := objs + [e];
    forall j | 0 <= j < i + 1
      ensures objs2[j] in WithElement(before, codes[i], title, newId) && objs2[j].code == codes[j]
    {
      if j < i {
        assert objs2[j] == objs[j] && objs[j] in before && objs[j].code != codes[i];
      }
    }
  }

  /** The first loop of `seed_demo_data`: get or create each listed element, in order. */
  method SeedElements(db: Database, codes: seq<string>, titles: seq<string>) returns (objs: seq<Element>)
    requires db.Valid() && |codes| == |titles|
    requires forall i, j :: 0 <= i < j < |codes| ==> codes[i] != codes[j]
    modifies db
    ensures db.Valid()
    ensures db.Snapshot() == old(db.Snapshot()).(elements := db.elements)
    ensures |objs| == |codes|
    ensures forall j :: 0 <= j < |objs| ==> objs[j] in db.elements && objs[j].code == codes[j]
    ensures forall x :: x in old(db.elements) && x.code !in codes ==> x in db.elements
    ensures ElementIdsKept(old(db.elements), db.elements)
  {
    objs := [];
    var i := 0;
    while i < |codes|
      invariant 0 <= i <= |codes|
      invariant db.Valid()
      invariant db.Snapshot() == old(db.Snapshot()).(elements := db.elements)
      invariant ElementsProgress(db.elements, objs, codes, i)
      invariant forall x :: x in old(db.elements) && x.code !in codes ==> x in db.elements
      invariant ElementIdsKept(old(db.elements), db.elements)
    {
      ghost var before, n := db.elements, db.nextIds.element;
      var e := GetOrCreateElement(db, codes[i], Some(titles[i]));
      ElementStep(before, objs, codes, i, Some(titles[i]), n, e);
      WithElementSpec(before, codes[i], Some(titles[i]), n);
      WithElementKeepsIds(old(db.elements), before, codes[i], Some(titles[i]), n);
      objs := objs + [e];
      i := i + 1;
    }
  }

  /** The user-role filter of `seed_demo_data`: the seeded elements whose code
      is products or orders, picked out by a loop. */
  method ResourceElements(objs: seq<Element>) returns (r: seq<Element>)
    ensures forall e :: e in r <==> e in objs && e.code in ResourceCodes
    ensures forall j :: 0 <= j < |r| ==> r[j] in objs
  {
    r := [];
    var i := 0;
    while i < |objs|
      invariant 0 <= i <= |objs|
      invariant r == Filter(objs[..i], (e: Element) => e.code in ResourceCodes)
    {
      FilterSnoc(objs[..i], objs[i], (e: Element) => e.code in ResourceCodes);
      assert objs[..i + 1] == objs[..i] + [objs[i]];
      if objs[i].code in ResourceCodes {
        r := r + [objs[i]];
      }
      i := i + 1;
    }
    assert objs[..i] == objs;
  }

  /** The rule loop's progress after `i` elements: the role has the flags on the
      first `i` listed elements, other roles' pairs are as they were in `rules0`,
      and every rule not in `rules0` is the role's on a listed element. */
  ghost predicate GrantProgress(rules: seq<Rule>, rules0: seq<Rule>, roleId: int, objs: seq<Element>, i: nat, flags: Flags)
    requires i <= |objs|
  {
    && (forall j :: 0 <= j < i ==> FlagsOf(rules, roleId, objs[j].id) == Some(flags))
    && (forall r2, e2 :: !(r2 == roleId && e2 in IdsOf(objs)) ==> FlagsOf(rules, r2, e2) == FlagsOf(rules0, r2, e2))
    && (forall x :: x in rules && x !in rules0 ==> x.roleId == roleId && x.elementId in IdsOf(objs))
  }

  /** One upsert of the rule loop keeps its progress. */
  lemma GrantStep(before: seq<Rule>, rules0: seq<Rule>, roleId: int, objs: seq<Element>, i: nat, flags: Flags, next: int)
    requires i < |objs| && GrantProgress(before, rules0, roleId, objs, i, flags)
    ensures GrantProgress(Upsert(before, roleId, objs[i].id, flags, next), rules0, roleId, objs, i + 1, flags)
  {
    var after := Upsert(before, roleId, objs[i].id, flags, next);
    assert objs[i] in objs;
    forall r2, e2 ensures FlagsOf(after, r2, e2) == if r2 == roleId && e2 == objs[i].id then Some(flags) else FlagsOf(before, r2, e2) {
      UpsertFlagsOf(before, roleId, objs[i].id, flags, next, r2, e2);
    }
    forall j | 0 <= j <= i ensures FlagsOf(after, roleId, objs[j].id) == Some(flags) {
      UpsertFlagsOf(before, roleId, objs[i].id, flags, next, roleId, objs[j].id);
    }
    forall x | x in after && x !in rules0 ensures x.roleId == roleId && x.elementId in IdsOf(objs) {
      if x !in before {
        UpsertAddsOnlyPair(before, roleId, objs[i].id, flags, next, x);
        assert objs[i] in objs;
      }
    }
  }

  /** One of the two rule loops of `seed_demo_data`: give the role these flags on
      every element of the list. No other role's rules change, and every rule
      written is the role's on a listed element. */
  method GrantOnAll(db: Database, roleId: int, objs: seq<Element>, flags: Flags)
    requires db.Valid() && RoleIndex(db.roles, roleId).Some?
    requires forall j :: 0 <= j < |objs| ==> objs[j] in db.elements
    modifies db
    ensures db.Valid()
    ensures db.Snapshot() == old(db.Snapshot()).(rules := db.rules)
    ensures forall j :: 0 <= j < |objs| ==> FlagsOf(db.rules, roleId, objs[j].id) == Some(flags)
    ensures forall r2, e2 :: !(r2 == roleId && e2 in IdsOf(objs)) ==> FlagsOf(db.rules, r2, e2) == FlagsOf(old(db.rules), r2, e2)
    ensures forall x :: x in db.rules && x !in old(db.rules) ==> x.roleId == roleId && x.elementId in IdsOf(objs)
  {
    var i := 0;
    while i < |objs|
      invariant 0 <= i <= |objs|
      invariant db.Valid()
      invariant db.Snapshot() == old(db.Snapshot()).(rules := db.rules)
      invariant GrantProgress(db.rules, old(db.rules), roleId, objs, i, flags)
    {
      ElementIdOf(db.elements, objs[i]);
      ghost var before := db.rules;
      ghost var next := db.nextIds.rule;
      var _ := GetOrUpdateRule(db, roleId, objs[i].id, flags);
      GrantStep(before, old(db.rules), roleId, objs, i, flags, next);
      i := i + 1;
    }
  }

  /** The first step of `seed_demo_data`: the admin and the user role. */
  method SeedRoles(db: Database) returns (adminRole: Role, userRole: Role)
    requires db.Valid()
    modifies db
    ensures db.Valid()
    ensures db.Snapshot() == old(db.Snapshot()).(roles := db.roles)
    ensures adminRole in db.roles && adminRole.name == AdminRoleName
    ensures userRole in db.roles && userRole.name == UserRoleName
    ensures forall x :: x in old(db.roles) ==> x in db.roles
  {
    adminRole := GetOrCreateRole(db, AdminRoleName);
    userRole := GetOrCreateRole(db, UserRoleName);
    assert adminRole in db.roles;
  }

  /** The second step: the admin and the user account, both active. */
  method SeedUsers(db: Database) returns (admin: User, user: User)
    requires db.Valid()
    modifies db
    ensures db.Valid()
    ensures db.Snapshot() == old(db.Snapshot()).(users := db.users)
    ensures admin in db.users && admin.email == AdminEmail && admin.isActive
    ensures user in db.users && user.email == UserEmail && user.isActive
    ensures forall x :: x in old(db.users) && x.email != AdminEmail && x.email != UserEmail ==> x in db.users
  {
    admin := GetOrCreateUserFixed(db, AdminEmail, AdminFullName);
    user := GetOrCreateUserFixed(db, UserEmail, UserFullName);
    assert admin in db.users;
  }

  /** Then each account's membership in its role. */
  method SeedAccounts(db: Database) returns (adminRole: Role, userRole: Role, admin: User, user: User)
    requires db.Valid()
    modifies db
    ensures db.Valid()
    ensures db.elements == old(db.elements) && db.rules == old(db.rules)
    ensures adminRole in db.roles && adminRole.name == AdminRoleName
    ensures userRole in db.roles && userRole.name == UserRoleName
    ensures admin in db.users && admin.email == AdminEmail && admin.isActive
    ensures user in db.users && user.email == UserEmail && user.isActive
    ensures db.memberships == old(db.memberships) + {Membership(admin.id, adminRole.id), Membership(user.id, userRole.id)}
    ensures forall x :: x in old(db.roles) ==> x in db.roles
    ensures forall x :: x in old(db.users) && x.email != AdminEmail && x.email != UserEmail ==> x in db.users
  {
    adminRole, userRole := SeedRoles(db);
    admin, user := SeedUsers(db);
    SeedLinks(db, adminRole, userRole, admin, user);
  }

  /** The accounts' memberships in their roles, added if absent. */
  method SeedLinks(db: Database, adminRole: Role, userRole: Role, admin: User, user: User)
    requires db.Valid()
    requires adminRole in db.roles && userRole in db.roles && admin in db.users && user in db.users
    modifies db
    ensures db.Valid()
    ensures db.Snapshot() == old(db.Snapshot()).(memberships := db.memberships)
    ensures db.memberships == old(db.memberships) + {Membership(admin.id, adminRole.id), Membership(user.id, userRole.id)}
  {
    ghost var t0 := db.Snapshot();
    LinkAccount(db, admin, adminRole);
    LinkAccount(db, user, userRole);
    assert db.Snapshot() == t0.(memberships := db.memberships);
  }

  /** One `get_or_create_user_role` call for a stored account and role. */
  method LinkAccount(db: Database, user: User, role: Role)
    requires db.Valid() && user in db.users && role in db.roles
    modifies db
    ensures db.Valid()
    ensures db.Snapshot() == old(db.Snapshot()).(memberships := old(db.memberships) + {Membership(user.id, role.id)})
  {
    UserIdOf(db.users, user);
    RoleIdOf(db.roles, role);
    var _ := GetOrCreateUserRole(db, user.id, role.id);
  }

  /** The ids of the listed elements whose code is products or orders. */
  function ResourceIds(objs: seq<Element>): (ids: set<int>)
    ensures forall i :: i in ids ==> exists e :: e in objs && e.id == i && e.code in ResourceCodes
  {
    set e | e in objs && e.code in ResourceCodes :: e.id
  }

  /** The two rule loops of `seed_demo_data`: every flag for the admin role on
      each element, then `UserFlags` for the user role on the products and
      orders elements picked out of the same list. */
  method SeedRules(db: Database, adminId: int, userId: int, objs: seq<Element>)
    requires db.Valid() && adminId != userId
    requires RoleIndex(db.roles, adminId).Some? && RoleIndex(db.roles, userId).Some?
    requires forall j :: 0 <= j < |objs| ==> objs[j] in db.elements
    modifies db
    ensures db.Valid()
    ensures db.Snapshot() == old(db.Snapshot()).(rules := db.rules)
    ensures forall j :: 0 <= j < |objs| ==> FlagsOf(db.rules, adminId, objs[j].id) == Some(AllFlags)
    ensures forall j :: 0 <= j < |objs| && objs[j].code in ResourceCodes ==> FlagsOf(db.rules, userId, objs[j].id) == Some(UserFlags)
    ensures forall x :: x in db.rules && x !in old(db.rules) ==>
      (x.roleId == adminId && x.elementId in IdsOf(objs)) || (x.roleId == userId && x.elementId in ResourceIds(objs))
    ensures forall r2, e2 :: r2 != adminId && r2 != userId ==> FlagsOf(db.rules, r2, e2) == FlagsOf(old(db.rules), r2, e2)
    ensures forall e2 :: e2 !in IdsOf(objs) ==> FlagsOf(db.rules, adminId, e2) == FlagsOf(old(db.rules), adminId, e2)
    ensures forall e2 :: e2 !in ResourceIds(objs) ==> FlagsOf(db.rules, userId, e2) == FlagsOf(old(db.rules), userId, e2)
  {
    GrantOnAll(db, adminId, objs, AllFlags);
    ghost var rules1 := db.rules;
    var elemUsers := ResourceElements(objs);
    GrantOnAll(db, userId, elemUsers, UserFlags);
    forall j | 0 <= j < |objs| && objs[j].code in ResourceCodes
      ensures FlagsOf(db.rules, userId, objs[j].id) == Some(UserFlags)
    {
      assert objs[j] in elemUsers;
      var k :| 0 <= k < |elemUsers| && elemUsers[k] == objs[j];
    }
    forall x | x in db.rules && x !in old(db.rules)
      ensures (x.roleId == adminId && x.elementId in IdsOf(objs)) || (x.roleId == userId && x.elementId in ResourceIds(objs))
    {
      if x !in rules1 {
        var e :| e in elemUsers && e.id == x.elementId;
        assert e in objs && e.code in ResourceCodes;
      }
    }
    forall e2 | e2 in IdsOf(elemUsers) ensures e2 in ResourceIds(objs) {
      var e :| e in elemUsers && e.id == e2;
      assert e in objs && e.code in ResourceCodes;
    }
  }

  /** `seed_demo_data`, with the fixed user helper: roles, accounts and their
      memberships, the five elements, then the admin and the user rule matrix.
      Every rule it writes is one of the seeded pairs. */
  method SeedDemoData(db: Database)
    requires db.Valid()
    modifies db
    ensures db.Valid()
    ensures Seeded(db.Snapshot())
    ensures forall x :: x in db.rules && x !in old(db.rules) ==> SeededPair(db.Snapshot(), x)
    ensures SeedKeeps(old(db.Snapshot()), db.Snapshot())
  {
    ghost var t0 := db.Snapshot();
    var adminRole, userRole, admin, user := SeedAccounts(db);
    SeedMatrix(db, adminRole, userRole, admin, user);
    SeedLinksFrom(db.Snapshot(), adminRole, userRole, admin, user);
    SeedKeepsFrom(t0, db.Snapshot(), adminRole, userRole, admin, user);
  }

  /** The rest of `seed_demo_data` once the accounts hold their roles: the
      five elements, then the admin and the user rule matrix. */
  method SeedMatrix(db: Database, adminRole: Role, userRole: Role, admin: User, user: User)
    requires db.Valid()
    requires adminRole in db.roles && adminRole.name == AdminRoleName
    requires userRole in db.roles && userRole.name == UserRoleName
    requires admin in db.users && admin.email == AdminEmail && admin.isActive
    requires user in db.users && user.email == UserEmail && user.isActive
    requires Membership(admin.id, adminRole.id) in db.memberships && Membership(user.id, userRole.id) in db.memberships
    modifies db
    ensures db.Valid()
    ensures Seeded(db.Snapshot())
    ensures forall x :: x in db.rules && x !in old(db.rules) ==> SeededPair(db.Snapshot(), x)
    ensures db.users == old(db.users) && db.roles == old(db.roles) && db.memberships == old(db.memberships)
    ensures forall x :: x in old(db.elements) && x.code !in SeedCodes ==> x in db.elements
    ensures ElementIdsKept(old(db.elements), db.elements)
    ensures forall r2, e2 :: r2 != adminRole.id && r2 != userRole.id ==> FlagsOf(db.rules, r2, e2) == FlagsOf(old(db.rules), r2, e2)
  {
    SeedCodesDistinct();
    var objs := SeedElements(db, SeedCodes, SeedTitles);
    RoleIdOf(db.roles, adminRole);
    RoleIdOf(db.roles, userRole);
    SeedRules(db, adminRole.id, userRole.id, objs);
    ResourceCodesSeeded();
    SeededFrom(db.Snapshot(), adminRole, userRole, admin, user, objs);
    SeededPairsFrom(db.Snapshot(), old(db.rules), adminRole, userRole, objs);
  }

  /** The account with the e-mail exists and already has a full name: the
      case in which `get_or_create_user` as written falls through to a
      duplicate insert. */
  predicate NamedAccount(users: seq<User>, email: string)
  {
    match UserWithEmail(users, email)
    case None => false
    case Some(u) => u.fullName.Some?
  }

  /** A change confined to the rows with one e-mail (some replaced, some
      appended) keeps what every other e-mail finds, and every row with another e-mail. */
  lemma OtherEmailKept(before: seq<User>, after: seq<User>, email: string)
    requires |before| <= |after|
    requires forall k :: 0 <= k < |before| ==> after[k] == before[k] || (before[k].email == email && after[k].email == email)
    requires forall k :: |before| <= k < |after| ==> after[k].email == email
    ensures forall other :: other != email ==> UserWithEmail(after, other) == UserWithEmail(before, other)
    ensures forall x :: x in before && x.email != email ==> x in after
  {
    forall other | other != email ensures UserWithEmail(after, other) == UserWithEmail(before, other) {
      var i := UserByEmail(before, other);
      if i.Some? {
        assert after[i.value] == before[i.value];
      }
    }
    forall x | x in before && x.email != email ensures x in after {
      var k :| 0 <= k < |before| && before[k] == x;
      assert after[k] == x;
    }
  }

  /** Lines 126-127 with the helper as written: both accounts, or Conflict as
      soon as one of them already has a full name. Only the users table changes
      (on Conflict, by the pending re-activation). */
  method SeedUsersAsWritten(db: Database) returns (r: Result<(User, User)>)
    requires db.Valid()
    modifies db
    ensures db.Valid()
    ensures db.Snapshot() == old(db.Snapshot()).(users := db.users)
    ensures r.Err? <==> NamedAccount(old(db.users), AdminEmail) || NamedAccount(old(db.users), UserEmail)
    ensures r.Err? ==> r.error == Conflict
    ensures r.Ok? ==> r.value.0 in db.users && r.value.0.email == AdminEmail && r.value.0.isActive
    ensures r.Ok? ==> r.value.1 in db.users && r.value.1.email == UserEmail && r.value.1.isActive
    ensures forall x :: x in old(db.users) && x.email != AdminEmail && x.email != UserEmail ==> x in db.users
  {
    assert |AdminEmail| != |UserEmail|;
    ghost var users0 := db.users;
    var a := GetOrCreateUser(db, AdminEmail, AdminFullName);
    if a.Err? {
      return Err(Conflict);
    }
    assert UserWithEmail(db.users, UserEmail) == UserWithEmail(users0, UserEmail);
    var u := GetOrCreateUser(db, UserEmail, UserFullName);
    if u.Err? {
      return Err(Conflict);
    }
    assert a.value in db.users;
    r := Ok((a.value, u.value));
  }

  /** `seed_demo_data` as written, inside its `SessionLocal.begin()` block:
      when either account already exists with a full name, the user helper's
      duplicate insert raises, the block rolls back and the tables are as they
      were; otherwise the helper behaves like the fixed one and the run
      reaches `Seeded`. */
  method SeedDemoDataAsWritten(db: Database) returns (r: Result<()>)
    requires db.Valid()
    modifies db
    ensures db.Valid()
    ensures r.Err? <==> NamedAccount(old(db.users), AdminEmail) || NamedAccount(old(db.users), UserEmail)
    ensures r.Err? ==> r.error == Conflict && db.Snapshot() == old(db.Snapshot()) && db.nextIds == old(db.nextIds)
    ensures r.Ok? ==> Seeded(db.Snapshot())
    ensures r.Ok? ==> forall x :: x in db.rules && x !in old(db.rules) ==> SeededPair(db.Snapshot(), x)
    ensures r.Ok? ==> SeedKeeps(old(db.Snapshot()), db.Snapshot())
  {
    var t0, ids0 := db.Snapshot(), db.nextIds;
    var adminRole, userRole := SeedRoles(db);
    var accounts := SeedUsersAsWritten(db);
    if accounts.Err? {
      db.Restore(t0, ids0);
      return Err(Conflict);
    }
    var (admin, user) := accounts.value;
    SeedLinks(db, adminRole, userRole, admin, user);
    SeedMatrix(db, adminRole, userRole, admin, user);
    SeedLinksFrom(db.Snapshot(), adminRole, userRole, admin, user);
    SeedKeepsFrom(t0, db.Snapshot(), adminRole, userRole, admin, user);
    r := Ok(());
  }

  /** A role named admin or user. */
  ghost predicate IsSeedRole(t: Tables, id: int)
  {
    exists x :: x in t.roles && x.id == id && (x.name == AdminRoleName || x.name == UserRoleName)
  }

  /** One of the two memberships the seeder adds: an account in its role. */
  ghost predicate SeededLink(t: Tables, m: Membership)
  {
    match (RoleNamed(t.roles, AdminRoleName), RoleNamed(t.roles, UserRoleName),
           UserWithEmail(t.users, AdminEmail), UserWithEmail(t.users, UserEmail))
    case (Some(a), Some(u), Some(ad), Some(us)) => m == Membership(ad.id, a.id) || m == Membership(us.id, u.id)
    case _ => false
  }

  /** What the seeder keeps of the tables it started from: every role; every
      user with another e-mail; every membership, adding only the two seeded
      ones; every element with a code it does not seed, and every element's
      id; the rules of every other role. */
  ghost predicate SeedKeeps(t0: Tables, t: Tables)
  {
    && (forall x :: x in t0.roles ==> x in t.roles)
    && (forall x :: x in t0.users && x.email != AdminEmail && x.email != UserEmail ==> x in t.users)
    && t0.memberships <= t.memberships
    && (forall m :: m in t.memberships && m !in t0.memberships ==> SeededLink(t, m))
    && (forall x :: x in t0.elements && x.code !in SeedCodes ==> x in t.elements)
    && ElementIdsKept(t0.elements, t.elements)
    && (forall r2, e2 :: !IsSeedRole(t, r2) ==> FlagsOf(t.rules, r2, e2) == FlagsOf(t0.rules, r2, e2))
  }

  /** The frame facts of the seeding steps, with the two added memberships
      known to be seeded links, add up to `SeedKeeps`. */
  lemma SeedKeepsFrom(t0: Tables, t: Tables, adminRole: Role, userRole: Role, admin: User, user: User)
    requires adminRole in t.roles && adminRole.name == AdminRoleName
    requires userRole in t.roles && userRole.name == UserRoleName
    requires SeededLink(t, Membership(admin.id, adminRole.id)) && SeededLink(t, Membership(user.id, userRole.id))
    requires forall x :: x in t0.roles ==> x in t.roles
    requires forall x :: x in t0.users && x.email != AdminEmail && x.email != UserEmail ==> x in t.users
    requires t.memberships == t0.memberships + {Membership(admin.id, adminRole.id), Membership(user.id, userRole.id)}
    requires forall x :: x in t0.elements && x.code !in SeedCodes ==> x in t.elements
    requires ElementIdsKept(t0.elements, t.elements)
    requires forall r2, e2 :: r2 != adminRole.id && r2 != userRole.id ==> FlagsOf(t.rules, r2, e2) == FlagsOf(t0.rules, r2, e2)
    ensures SeedKeeps(t0, t)
  {
    forall m | m in t.memberships && m !in t0.memberships ensures SeededLink(t, m) {
      assert m == Membership(admin.id, adminRole.id) || m == Membership(user.id, userRole.id);
    }
    assert IsSeedRole(t, adminRole.id) && IsSeedRole(t, userRole.id);
  }

  /** The two memberships the seeding steps add are seeded links. */
  lemma SeedLinksFrom(t: Tables, adminRole: Role, userRole: Role, admin: User, user: User)
    requires ValidTables(t)
    requires adminRole in t.roles && adminRole.name == AdminRoleName
    requires userRole in t.roles && userRole.name == UserRoleName
    requires admin in t.users && admin.email == AdminEmail
    requires user in t.users && user.email == UserEmail
    ensures SeededLink(t, Membership(admin.id, adminRole.id)) && SeededLink(t, Membership(user.id, userRole.id))
  {
    RoleNameOf(t.roles, adminRole);
    RoleNameOf(t.roles, userRole);
    UserEmailOf(t.users, admin);
    UserEmailOf(t.users, user);
  }

  /** The facts the seeding steps leave behind add up to `Seeded`. */
  lemma SeededFrom(t: Tables, adminRole: Role, userRole: Role, admin: User, user: User, objs: seq<Element>)
    requires ValidTables(t)
    requires adminRole in t.roles && adminRole.name == AdminRoleName
    requires userRole in t.roles && userRole.name == UserRoleName
    requires admin in t.users && admin.email == AdminEmail && admin.isActive
    requires user in t.users && user.email == UserEmail && user.isActive
    requires Membership(admin.id, adminRole.id) in t.memberships && Membership(user.id, userRole.id) in t.memberships
    requires |objs| == |SeedCodes| && forall j :: 0 <= j < |objs| ==> objs[j] in t.elements && objs[j].code == SeedCodes[j]
    requires forall j :: 0 <= j < |objs| ==> FlagsOf(t.rules, adminRole.id, objs[j].id) == Some(AllFlags)
    requires forall j :: 0 <= j < |objs| && objs[j].code in ResourceCodes ==> FlagsOf(t.rules, userRole.id, objs[j].id) == Some(UserFlags)
    ensures Seeded(t)
  {
    ResourceCodesSeeded();
    RoleNameOf(t.roles, adminRole);
    RoleNameOf(t.roles, userRole);
    UserEmailOf(t.users, admin);
    UserEmailOf(t.users, user);
    forall j | 0 <= j < |SeedCodes| ensures RuleOn(t, adminRole.id, SeedCodes[j], AllFlags) {
      ElementCodeOf(t.elements, objs[j]);
    }
    ElementCodeOf(t.elements, objs[3]);
    ElementCodeOf(t.elements, objs[4]);
  }

  /** The rules the two loops wrote are seeded pairs. */
  lemma SeededPairsFrom(t: Tables, rules0: seq<Rule>, adminRole: Role, userRole: Role, objs: seq<Element>)
    requires ValidTables(t)
    requires adminRole in t.roles && adminRole.name == AdminRoleName
    requires userRole in t.roles && userRole.name == UserRoleName
    requires forall j :: 0 <= j < |objs| ==> objs[j] in t.elements && objs[j].code in SeedCodes
    requires forall x :: x in t.rules && x !in rules0 ==>
      (x.roleId == adminRole.id && x.elementId in IdsOf(objs)) || (x.roleId == userRole.id && x.elementId in ResourceIds(objs))
    ensures forall x :: x in t.rules && x !in rules0 ==> SeededPair(t, x)
  {
    RoleNameOf(t.roles, adminRole);
    RoleNameOf(t.roles, userRole);
    forall x | x in t.rules && x !in rules0 ensures SeededPair(t, x) {
      if x.roleId == adminRole.id && x.elementId in IdsOf(objs) {
        var e :| e in objs && e.id == x.elementId;
        ElementIdOf(t.elements, e);
      } else {
        var e :| e in objs && e.id == x.elementId && e.code in ResourceCodes;
        ElementIdOf(t.elements, e);
      }
    }
  }

  // ---------------------------------------------------------------- what the matrix grants

  /** A role the user holds with a rule on the element whose flags grant the
      action lets the user take it. */
  lemma RuleGrants(t: Tables, user: User, roleId: int, code: string, flags: Flags, action: Action, ownerId: Option<int>)
    requires Membership(user.id, roleId) in t.memberships && RuleOn(t, roleId, code, flags)
    requires Grants(flags, action, IsOwner(user, ownerId))
    ensures HasPermission(t, user, code, action, ownerId)
  {
    var e := ElementByCode(t.elements, code).value;
    var k := RuleFor(t.rules, roleId, t.elements[e].id).value;
    var rules := MatchingRules(t.rules, RoleIdsOf(t.memberships, user.id), t.elements[e].id);
    assert t.rules[k] in rules;
    var i :| 0 <= i < |rules| && rules[i] == t.rules[k];
    assert Grants(rules[i].flags, action, IsOwner(user, ownerId));
  }

  /** After seeding, the admin account may take every action on every seeded
      element, whoever owns the object. */
  lemma SeededAdminMayAll(t: Tables, j: nat, action: Action, ownerId: Option<int>)
    requires Seeded(t) && j < |SeedCodes|
    ensures HasPermission(t, UserWithEmail(t.users, AdminEmail).value, SeedCodes[j], action, ownerId)
  {
    var a := RoleNamed(t.roles, AdminRoleName).value;
    var ad := UserWithEmail(t.users, AdminEmail).value;
    RuleGrants(t, ad, a.id, SeedCodes[j], AllFlags, action, ownerId);
  }

  /** After seeding, the user account may take every action on its own products
      and orders. */
  lemma SeededUserMayOwn(t: Tables, j: nat, action: Action)
    requires Seeded(t) && j < |ResourceCodes|
    ensures HasPermission(t, UserWithEmail(t.users, UserEmail).value, ResourceCodes[j], action,
                          Some(UserWithEmail(t.users, UserEmail).value.id))
  {
    var u := RoleNamed(t.roles, UserRoleName).value;
    var us := UserWithEmail(t.users, UserEmail).value;
    assert Grants(UserFlags, action, IsOwner(us, Some(us.id)));
    if j == 0 {
      assert ResourceCodes[j] == "products";
      RuleGrants(t, us, u.id, "products", UserFlags, action, Some(us.id));
    } else {
      assert ResourceCodes[j] == "orders";
      RuleGrants(t, us, u.id, "orders", UserFlags, action, Some(us.id));
    }
  }

  /** When every rule is one the seeder wrote (as after seeding an empty rule
      table), the user role has rules on products and orders only, none on the
      `rbac_*` elements. */
  lemma UserRoleOnlyOnResources(t: Tables)
    requires ValidTables(t) && Seeded(t)
    requires forall x :: x in t.rules ==> SeededPair(t, x)
    ensures forall x :: x in t.rules && x.roleId == RoleNamed(t.roles, UserRoleName).value.id ==>
      CodeOfIn(t.elements, x.elementId, ResourceCodes)
  {
    var a := RoleNamed(t.roles, AdminRoleName).value;
    var u := RoleNamed(t.roles, UserRoleName).value;
    RoleIdOf(t.roles, a);
    RoleIdOf(t.roles, u);
    forall x | x in t.rules && x.roleId == u.id ensures CodeOfIn(t.elements, x.elementId, ResourceCodes) {
      assert SeededPair(t, x);
    }
  }

  /** The element with the id exists and its code is one of `codes`. */
  predicate CodeOfIn(elements: seq<Element>, id: int, codes: seq<string>)
  {
    match ElementIndex(elements, id)
    case None => false
    case Some(e) => elements[e].code in codes
  }
}
