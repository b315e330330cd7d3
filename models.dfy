/** The rows of the five tables (users, roles, business elements, user-role
    memberships, access rules) and the constraints the schema declares on them:
    primary keys, unique columns and foreign keys. */
module Models {
  import opened Common

  /** A row of `users`; the password hash and the timestamps are not modelled. */
  datatype User = User(id: int, email: string, fullName: Option<string>, isActive: bool)

  /** A row of `roles`. */
  datatype Role = Role(id: int, name: string)

  /** A row of `business_elements`: a protected resource known by its code. */
  datatype Element = Element(id: int, code: string, title: Option<string>)

  /** A row of `user_roles`; the pair is the composite primary key. */
  datatype Membership = Membership(userId: int, roleId: int)

  /** The seven capability flags of an access rule. */
  datatype Flags = Flags(
    read: bool, readAll: bool,
    create: bool,
    update: bool, updateAll: bool,
    delete: bool, deleteAll: bool)

  /** A row of `access_roles_rules`: the flags one role holds on one element. */
  datatype Rule = Rule(id: int, roleId: int, elementId: int, flags: Flags)

  /** A snapshot of the whole database. */
  datatype Tables = Tables(
    users: seq<User>,
    roles: seq<Role>,
    elements: seq<Element>,
    memberships: set<Membership>,
    rules: seq<Rule>)

  /** Every flag column defaults to false, on the model and on the upsert payload alike. */
  const NoFlags := Flags(false, false, false, false, false, false, false)

  /** `AccessRoleRule(role_id=..., element_id=...)`: a fresh rule for the pair. */
  function NewRule(id: int, roleId: int, elementId: int): (r: Rule)
    ensures r.id == id && r.roleId == roleId && r.elementId == elementId
    ensures !r.flags.read && !r.flags.readAll && !r.flags.create
    ensures !r.flags.update && !r.flags.updateAll && !r.flags.delete && !r.flags.deleteAll
  {
    Rule(id, roleId, elementId, NoFlags)
  }

  // ---------------------------------------------------------------- lookups

  /** `db.get(User, id)`. */
  function UserIndex(users: seq<User>, id: int): (r: Option<nat>)
    ensures r.Some? ==> r.value < |users| && users[r.value].id == id
    ensures r.Some? ==> forall k :: 0 <= k < r.value ==> users[k].id != id
    ensures r.None? <==> forall k :: 0 <= k < |users| ==> users[k].id != id
  {
    FirstIndex(users, (u: User) => u.id == id)
  }

  /** `db.query(User).filter(User.email == email).first()`. */
  function UserByEmail(users: seq<User>, email: string): (r: Option<nat>)
    ensures r.Some? ==> r.value < |users| && users[r.value].email == email
    ensures r.Some? ==> forall k :: 0 <= k < r.value ==> users[k].email != email
    ensures r.None? <==> forall k :: 0 <= k < |users| ==> users[k].email != email
  {
    FirstIndex(users, (u: User) => u.email == email)
  }

  /** `db.get(Role, id)`. */
  function RoleIndex(roles: seq<Role>, id: int): (r: Option<nat>)
    ensures r.Some? ==> r.value < |roles| && roles[r.value].id == id
    ensures r.Some? ==> forall k :: 0 <= k < r.value ==> roles[k].id != id
    ensures r.None? <==> forall k :: 0 <= k < |roles| ==> roles[k].id != id
  {
    FirstIndex(roles, (x: Role) => x.id == id)
  }

  /** `db.query(Role).filter(Role.name == name).first()`. */
  function RoleByName(roles: seq<Role>, name: string): (r: Option<nat>)
    ensures r.Some? ==> r.value < |roles| && roles[r.value].name == name
    ensures r.Some? ==> forall k :: 0 <= k < r.value ==> roles[k].name != name
    ensures r.None? <==> forall k :: 0 <= k < |roles| ==> roles[k].name != name
  {
    FirstIndex(roles, (x: Role) => x.name == name)
  }

  /** `db.get(BusinessElement, id)`. */
  function ElementIndex(elements: seq<Element>, id: int): (r: Option<nat>)
    ensures r.Some? ==> r.value < |elements| && elements[r.value].id == id
    ensures r.Some? ==> forall k :: 0 <= k < r.value ==> elements[k].id != id
    ensures r.None? <==> forall k :: 0 <= k < |elements| ==> elements[k].id != id
  {
    FirstIndex(elements, (e: Element) => e.id == id)
  }

  /** `db.query(BusinessElement).filter(BusinessElement.code == code).first()`. */
  function ElementByCode(elements: seq<Element>, code: string): (r: Option<nat>)
    ensures r.Some? ==> r.value < |elements| && elements[r.value].code == code
    ensures r.Some? ==> forall k :: 0 <= k < r.value ==> elements[k].code != code
    ensures r.None? <==> forall k :: 0 <= k < |elements| ==> elements[k].code != code
  {
    FirstIndex(elements, (e: Element) => e.code == code)
  }

  /** `db.get(AccessRoleRule, id)`. */
  function RuleIndex(rules: seq<Rule>, id: int): (r: Option<nat>)
    ensures r.Some? ==> r.value < |rules| && rules[r.value].id == id
    ensures r.Some? ==> forall k :: 0 <= k < r.value ==> rules[k].id != id
    ensures r.None? <==> forall k :: 0 <= k < |rules| ==> rules[k].id != id
  {
    FirstIndex(rules, (x: Rule) => x.id == id)
  }

  /** The rule of the pair: `filter(role_id == ..., element_id == ...).first()`. */
  function RuleFor(rules: seq<Rule>, roleId: int, elementId: int): (r: Option<nat>)
    ensures r.Some? ==> r.value < |rules| && rules[r.value].roleId == roleId && rules[r.value].elementId == elementId
    ensures r.Some? ==> forall k :: 0 <= k < r.value ==> !(rules[k].roleId == roleId && rules[k].elementId == elementId)
    ensures r.None? <==> forall k :: 0 <= k < |rules| ==> !(rules[k].roleId == roleId && rules[k].elementId == elementId)
  {
    FirstIndex(rules, (x: Rule) => x.roleId == roleId && x.elementId == elementId)
  }

  // ---------------------------------------------------------------- constraints

  /** Users: primary key in ascending order, unique e-mail. */
  ghost predicate UsersValid(users: seq<User>)
  {
    && (forall i, j :: 0 <= i < j < |users| ==> users[i].id < users[j].id)
    && (forall i, j :: 0 <= i < j < |users| ==> users[i].email != users[j].email)
  }

  /** Roles: primary key in ascending order, unique name. */
  ghost predicate RolesValid(roles: seq<Role>)
  {
    && (forall i, j :: 0 <= i < j < |roles| ==> roles[i].id < roles[j].id)
    && (forall i, j :: 0 <= i < j < |roles| ==> roles[i].name != roles[j].name)
  }

  /** Business elements: primary key in ascending order, unique code. */
  ghost predicate ElementsValid(elements: seq<Element>)
  {
    && (forall i, j :: 0 <= i < j < |elements| ==> elements[i].id < elements[j].id)
    && (forall i, j :: 0 <= i < j < |elements| ==> elements[i].code != elements[j].code)
  }

  /** Rule ids in ascending order, and at most one rule per (role, element). */
  ghost predicate RuleKeysValid(rules: seq<Rule>)
  {
    && (forall i, j :: 0 <= i < j < |rules| ==> rules[i].id < rules[j].id)
    && (forall i, j :: 0 <= i < j < |rules| ==>
          !(rules[i].roleId == rules[j].roleId && rules[i].elementId == rules[j].elementId))
  }

  /** The foreign keys of a membership. */
  ghost predicate MembershipRefs(t: Tables, m: Membership)
  {
    UserIndex(t.users, m.userId).Some? && RoleIndex(t.roles, m.roleId).Some?
  }

  /** The foreign keys of a rule. */
  ghost predicate RuleRefs(t: Tables, x: Rule)
  {
    RoleIndex(t.roles, x.roleId).Some? && ElementIndex(t.elements, x.elementId).Some?
  }

  /** Every constraint the schema declares. */
  ghost predicate ValidTables(t: Tables)
  {
    && UsersValid(t.users)
    && RolesValid(t.roles)
    && ElementsValid(t.elements)
    && RuleKeysValid(t.rules)
    && (forall m :: m in t.memberships ==> MembershipRefs(t, m))
    && (forall k :: 0 <= k < |t.rules| ==> RuleRefs(t, t.rules[k]))
  }

  /** The rule table holds at most one row per pair, so a rule of the pair is the one `RuleFor` finds. */
  lemma RuleForUnique(rules: seq<Rule>, k: nat)
    requires RuleKeysValid(rules) && k < |rules|
    ensures RuleFor(rules, rules[k].roleId, rules[k].elementId) == Some(k)
  {
  }

  /** Ascending primary keys are unique: an id names at most one rule. */
  lemma RuleIdUnique(rules: seq<Rule>, k: nat)
    requires RuleKeysValid(rules) && k < |rules|
    ensures RuleIndex(rules, rules[k].id) == Some(k)
  {
  }

  // ---------------------------------------------------------------- stored rows and their keys

  /** A stored user is what its id finds. */
  lemma UserIdOf(users: seq<User>, u: User)
    requires UsersValid(users) && u in users
    ensures UserIndex(users, u.id).Some? && users[UserIndex(users, u.id).value] == u
  {
    var i :| 0 <= i < |users| && users[i] == u;
    assert UserIndex(users, u.id) == Some(i);
  }

  /** A stored user is what its e-mail finds. */
  lemma UserEmailOf(users: seq<User>, u: User)
    requires UsersValid(users) && u in users
    ensures UserByEmail(users, u.email).Some? && users[UserByEmail(users, u.email).value] == u
  {
    var i :| 0 <= i < |users| && users[i] == u;
    assert UserByEmail(users, u.email) == Some(i);
  }

  /** A stored role is what its id finds. */
  lemma RoleIdOf(roles: seq<Role>, x: Role)
    requires RolesValid(roles) && x in roles
    ensures RoleIndex(roles, x.id).Some? && roles[RoleIndex(roles, x.id).value] == x
  {
    var i :| 0 <= i < |roles| && roles[i] == x;
    assert RoleIndex(roles, x.id) == Some(i);
  }

  /** A stored role is what its name finds. */
  lemma RoleNameOf(roles: seq<Role>, x: Role)
    requires RolesValid(roles) && x in roles
    ensures RoleByName(roles, x.name).Some? && roles[RoleByName(roles, x.name).value] == x
  {
    var i :| 0 <= i < |roles| && roles[i] == x;
    assert RoleByName(roles, x.name) == Some(i);
  }

  /** A stored element is what its id finds. */
  lemma ElementIdOf(elements: seq<Element>, e: Element)
    requires ElementsValid(elements) && e in elements
    ensures ElementIndex(elements, e.id).Some? && elements[ElementIndex(elements, e.id).value] == e
  {
    var i :| 0 <= i < |elements| && elements[i] == e;
    assert ElementIndex(elements, e.id) == Some(i);
  }

  /** A stored element is what its code finds. */
  lemma ElementCodeOf(elements: seq<Element>, e: Element)
    requires ElementsValid(elements) && e in elements
    ensures ElementByCode(elements, e.code).Some? && elements[ElementByCode(elements, e.code).value] == e
  {
    var i :| 0 <= i < |elements| && elements[i] == e;
    assert ElementByCode(elements, e.code) == Some(i);
  }
}
