/** The permission evaluator: whether a user may read, create, update or delete
    on the business element with a given code, decided from the user's role
    memberships and the rules of those roles, with "own" and "all" scopes. */
module Rbac {
  import opened Common
  import opened Models
  import AuthJwt

  datatype Action = Read | Create | Update | Delete

  /** The ids of the roles a user holds. */
  function RoleIdsOf(memberships: set<Membership>, userId: int): (ids: set<int>)
    ensures forall r :: r in ids <==> Membership(userId, r) in memberships
  {
    set m | m in memberships && m.userId == userId :: m.roleId
  }

  /** The rules of the given roles on the given element. */
  function MatchingRules(rules: seq<Rule>, roleIds: set<int>, elementId: int): (rs: seq<Rule>)
    ensures forall x :: x in rs <==> x in rules && x.roleId in roleIds && x.elementId == elementId
  {
    Filter(rules, (x: Rule) => x.roleId in roleIds && x.elementId == elementId)
  }

  /** The caller owns the record: an owner id is given and it is the caller's id. */
  predicate IsOwner(user: User, ownerId: Option<int>)
  {
    ownerId.Some? && ownerId.value == user.id
  }

  /** The blanket flag of an action; `create` has no scope, so its only flag stands in. */
  predicate AllFlag(f: Flags, action: Action)
  {
    match action
    case Create => f.create
    case Read => f.readAll
    case Update => f.updateAll
    case Delete => f.deleteAll
  }

  /** The own-scope flag of an action. */
  predicate OwnFlag(f: Flags, action: Action)
  {
    match action
    case Create => f.create
    case Read => f.read
    case Update => f.update
    case Delete => f.delete
  }

  /** One rule's verdict, as the body of the evaluator's loop decides it. */
  predicate Grants(f: Flags, action: Action, isOwner: bool)
  {
    match action
    case Create => f.create
    case Read => f.readAll || (isOwner && f.read)
    case Update => f.updateAll || (isOwner && f.update)
    case Delete => f.deleteAll || (isOwner && f.delete)
  }

  /** `has_permission`: deny for an unknown code, for a user without roles and
      when no rule matches; otherwise allow when some matching rule grants. */
  predicate HasPermission(t: Tables, user: User, resource: string, action: Action, ownerId: Option<int>)
  {
    match ElementByCode(t.elements, resource)
    case None => false
    case Some(e) => DecideOn(t, user, t.elements[e].id, action, ownerId)
  }

  /** Steps 2 to 4 of the evaluator, once the element is resolved to its id. */
  predicate DecideOn(t: Tables, user: User, elementId: int, action: Action, ownerId: Option<int>)
  {
    var roleIds := RoleIdsOf(t.memberships, user.id);
    if roleIds == {} then false
    else
      var rules := MatchingRules(t.rules, roleIds, elementId);
      if rules == [] then false
      else AnyGrants(rules, action, IsOwner(user, ownerId))
  }

  /** The short-circuit scan over the matching rules. */
  predicate AnyGrants(rules: seq<Rule>, action: Action, isOwner: bool)
  {
    exists k :: 0 <= k < |rules| && Grants(rules[k].flags, action, isOwner)
  }

  /** `has_all_permission`, which the resource endpoints call but the evaluator's
      file does not define: some matching rule carries the action's blanket flag. */
  predicate HasAllPermission(t: Tables, user: User, resource: string, action: Action)
  {
    match ElementByCode(t.elements, resource)
    case None => false
    case Some(e) =>
      var rules := MatchingRules(t.rules, RoleIdsOf(t.memberships, user.id), t.elements[e].id);
      exists k :: 0 <= k < |rules| && AllFlag(rules[k].flags, action)
  }

  /** A rule applies to the user on the element: one of the user's roles, the same element. */
  predicate Applies(t: Tables, user: User, elementId: int, x: Rule)
  {
    Membership(user.id, x.roleId) in t.memberships && x.elementId == elementId
  }

  /** `require_permission(resource, action)` once the caller is known: the caller
      when the evaluator allows with no owner, Forbidden otherwise. */
  function RequirePermission(t: Tables, user: User, resource: string, action: Action): (r: Result<User>)
    ensures r.Ok? <==> HasPermission(t, user, resource, action, None)
    ensures r.Ok? ==> r.value == user
    ensures r.Err? ==> r.error == Forbidden
  {
    if HasPermission(t, user, resource, action, None) then Ok(user) else Err(Forbidden)
  }

  /** `require_permission_with_owner(resource, action)` for the given owner id. */
  function RequirePermissionWithOwner(t: Tables, user: User, resource: string, action: Action, ownerId: int): (r: Result<User>)
    ensures r.Ok? <==> HasPermission(t, user, resource, action, Some(ownerId))
    ensures r.Ok? ==> r.value == user
    ensures r.Err? ==> r.error == Forbidden
  {
    if HasPermission(t, user, resource, action, Some(ownerId)) then Ok(user) else Err(Forbidden)
  }

  /** The guard as an endpoint sees it: the caller is resolved from the header
      first, and only an authenticated caller is checked against the rules. */
  function Guard(t: Tables, authorization: Option<string>, decode: string -> Option<AuthJwt.Claims>,
                 resource: string, action: Action): (r: Result<User>)
    ensures AuthJwt.GetCurrentUser(t.users, authorization, decode).Err? ==> r == Err(Unauthenticated)
    ensures AuthJwt.GetCurrentUser(t.users, authorization, decode).Ok? ==>
      var u := AuthJwt.GetCurrentUser(t.users, authorization, decode).value;
      (r == Ok(u) <==> HasPermission(t, u, resource, action, None)) &&
      (r != Ok(u) ==> r == Err(Forbidden))
  {
    match AuthJwt.GetCurrentUser(t.users, authorization, decode)
    case Err(e) => Err(e)
    case Ok(u) => RequirePermission(t, u, resource, action)
  }

  // ---------------------------------------------------------------- properties

  /** Deny-by-default for resources: no element with the code, no permission. */
  lemma UnknownResourceDenied(t: Tables, user: User, resource: string, action: Action, ownerId: Option<int>)
    requires forall k :: 0 <= k < |t.elements| ==> t.elements[k].code != resource
    ensures !HasPermission(t, user, resource, action, ownerId)
    ensures !HasAllPermission(t, user, resource, action)
  {
  }

  /** Deny-by-default for users: a user without memberships has no permission. */
  lemma NoRolesDenied(t: Tables, user: User, resource: string, action: Action, ownerId: Option<int>)
    requires forall m :: m in t.memberships ==> m.userId != user.id
    ensures !HasPermission(t, user, resource, action, ownerId)
  {
    assert RoleIdsOf(t.memberships, user.id) == {};
  }

  /** On a resolved element, the decision is true exactly when some rule of one
      of the user's roles on that element grants the action. */
  lemma {:induction false} DecideOnIff(t: Tables, user: User, elementId: int, action: Action, ownerId: Option<int>)
    ensures DecideOn(t, user, elementId, action, ownerId) <==>
      exists j :: 0 <= j < |t.rules| && Applies(t, user, elementId, t.rules[j])
        && Grants(t.rules[j].flags, action, IsOwner(user, ownerId))
  {
    var roleIds := RoleIdsOf(t.memberships, user.id);
    var rules := MatchingRules(t.rules, roleIds, elementId);
    var isOwner := IsOwner(user, ownerId);
    if DecideOn(t, user, elementId, action, ownerId) {
      var k :| 0 <= k < |rules| && Grants(rules[k].flags, action, isOwner);
      assert rules[k] in rules;
      var j :| 0 <= j < |t.rules| && t.rules[j] == rules[k];
      assert Applies(t, user, elementId, t.rules[j]);
    }
    if j :| 0 <= j < |t.rules| && Applies(t, user, elementId, t.rules[j]) && Grants(t.rules[j].flags, action, isOwner) {
      assert t.rules[j].roleId in roleIds;
      assert t.rules[j] in rules;
      var k :| 0 <= k < |rules| && rules[k] == t.rules[j];
      assert AnyGrants(rules, action, isOwner);
    }
  }

  /** The decision is true exactly when some rule of one of the user's roles on
      the element with the code grants the action. */
  lemma HasPermissionIff(t: Tables, user: User, resource: string, action: Action, ownerId: Option<int>)
    requires ElementsValid(t.elements)
    ensures HasPermission(t, user, resource, action, ownerId) <==>
      exists i, j :: 0 <= i < |t.elements| && 0 <= j < |t.rules| && t.elements[i].code == resource
        && Applies(t, user, t.elements[i].id, t.rules[j])
        && Grants(t.rules[j].flags, action, IsOwner(user, ownerId))
  {
    match ElementByCode(t.elements, resource)
    case None =>
    case Some(e) =>
      DecideOnIff(t, user, t.elements[e].id, action, ownerId);
      forall i | 0 <= i < |t.elements| && t.elements[i].code == resource
        ensures i == e
      {
      }
  }

  /** `create` is decided by the create flag alone, whoever owns the record. */
  lemma CreateIgnoresOwner(t: Tables, user: User, resource: string, o1: Option<int>, o2: Option<int>)
    ensures HasPermission(t, user, resource, Create, o1) == HasPermission(t, user, resource, Create, o2)
    ensures HasPermission(t, user, resource, Create, o1) == HasAllPermission(t, user, resource, Create)
  {
  }

  /** The `has_all_permission` reading used by the resource endpoints: it is the
      evaluator called without an owner. */
  lemma {:induction false} AllPermissionIsUnowned(t: Tables, user: User, resource: string, action: Action)
    ensures HasAllPermission(t, user, resource, action) == HasPermission(t, user, resource, action, None)
  {
    match ElementByCode(t.elements, resource)
    case None =>
    case Some(e) =>
      var roleIds := RoleIdsOf(t.memberships, user.id);
      var rules := MatchingRules(t.rules, roleIds, t.elements[e].id);
      if HasAllPermission(t, user, resource, action) {
        var k :| 0 <= k < |rules| && AllFlag(rules[k].flags, action);
        assert rules[k] in rules;
        assert rules[k].roleId in roleIds;
        assert Grants(rules[k].flags, action, false);
      }
      if HasPermission(t, user, resource, action, None) {
        var k :| 0 <= k < |rules| && Grants(rules[k].flags, action, false);
        assert AllFlag(rules[k].flags, action);
      }
  }

  /** Someone else's record, or no record: `read`, `update` and `delete` need the blanket flag. */
  lemma NotOwnerNeedsAll(t: Tables, user: User, resource: string, action: Action, ownerId: Option<int>)
    requires !IsOwner(user, ownerId)
    ensures HasPermission(t, user, resource, action, ownerId) == HasAllPermission(t, user, resource, action)
  {
    AllPermissionIsUnowned(t, user, resource, action);
    assert HasPermission(t, user, resource, action, ownerId) == HasPermission(t, user, resource, action, None);
  }

  /** Asking without an owner is the strictest question: whatever it allows is
      allowed for every owner id. */
  lemma {:induction false} UnownedIsStrictest(t: Tables, user: User, resource: string, action: Action, ownerId: Option<int>)
    requires HasPermission(t, user, resource, action, None)
    ensures HasPermission(t, user, resource, action, ownerId)
  {
    var e := ElementByCode(t.elements, resource).value;
    var rules := MatchingRules(t.rules, RoleIdsOf(t.memberships, user.id), t.elements[e].id);
    var k :| 0 <= k < |rules| && Grants(rules[k].flags, action, false);
    assert Grants(rules[k].flags, action, IsOwner(user, ownerId));
  }

  /** The caller's own record: the own flag or the blanket flag of some matching rule suffices. */
  lemma {:induction false} OwnerNeedsOwnOrAll(t: Tables, user: User, resource: string, action: Action)
    ensures HasPermission(t, user, resource, action, Some(user.id)) <==>
      match ElementByCode(t.elements, resource)
      case None => false
      case Some(e) =>
        var rules := MatchingRules(t.rules, RoleIdsOf(t.memberships, user.id), t.elements[e].id);
        exists k :: 0 <= k < |rules| && (OwnFlag(rules[k].flags, action) || AllFlag(rules[k].flags, action))
  {
    match ElementByCode(t.elements, resource)
    case None =>
    case Some(e) =>
      var roleIds := RoleIdsOf(t.memberships, user.id);
      var rules := MatchingRules(t.rules, roleIds, t.elements[e].id);
      if k :| 0 <= k < |rules| && (OwnFlag(rules[k].flags, action) || AllFlag(rules[k].flags, action)) {
        assert rules[k] in rules;
        assert rules[k].roleId in roleIds;
        assert Grants(rules[k].flags, action, true);
      }
  }

  // ---------------------------------------------------------------- monotonicity

  /** Flags `f` grant nothing that `g` does not. */
  predicate FlagsLe(f: Flags, g: Flags)
  {
    && (f.read ==> g.read) && (f.readAll ==> g.readAll) && (f.create ==> g.create)
    && (f.update ==> g.update) && (f.updateAll ==> g.updateAll)
    && (f.delete ==> g.delete) && (f.deleteAll ==> g.deleteAll)
  }

  /** `t2` grants at least what `t1` grants: the same elements, every membership
      kept, and every rule kept for its pair with no flag turned off. */
  ghost predicate GrantsAtLeast(t1: Tables, t2: Tables)
  {
    && t1.elements == t2.elements
    && t1.memberships <= t2.memberships
    && forall x :: x in t1.rules ==>
         exists y :: y in t2.rules && y.roleId == x.roleId && y.elementId == x.elementId && FlagsLe(x.flags, y.flags)
  }

  /** The evaluator has no negative condition: more memberships or more flags
      never turn an allow into a deny. */
  lemma Monotone(t1: Tables, t2: Tables, user: User, resource: string, action: Action, ownerId: Option<int>)
    requires GrantsAtLeast(t1, t2)
    requires HasPermission(t1, user, resource, action, ownerId)
    ensures HasPermission(t2, user, resource, action, ownerId)
  {
    var e := ElementByCode(t1.elements, resource).value;
    assert ElementByCode(t2.elements, resource) == Some(e);
    DecideOnMonotone(t1, t2, user, t1.elements[e].id, action, ownerId);
  }

  lemma DecideOnMonotone(t1: Tables, t2: Tables, user: User, eid: int, action: Action, ownerId: Option<int>)
    requires GrantsAtLeast(t1, t2)
    requires DecideOn(t1, user, eid, action, ownerId)
    ensures DecideOn(t2, user, eid, action, ownerId)
  {
    var isOwner := IsOwner(user, ownerId);
    DecideOnIff(t1, user, eid, action, ownerId);
    var j :| 0 <= j < |t1.rules| && Applies(t1, user, eid, t1.rules[j]) && Grants(t1.rules[j].flags, action, isOwner);
    var x := t1.rules[j];
    assert x in t1.rules;
    var y :| y in t2.rules && y.roleId == x.roleId && y.elementId == x.elementId && FlagsLe(x.flags, y.flags);
    var j2 :| 0 <= j2 < |t2.rules| && t2.rules[j2] == y;
    assert Applies(t2, user, eid, t2.rules[j2]);
    assert Grants(y.flags, action, isOwner);
    DecideOnIff(t2, user, eid, action, ownerId);
  }

  /** Holding one more role never takes a permission away. */
  lemma AddMembershipMonotone(t: Tables, m: Membership, user: User, resource: string, action: Action, ownerId: Option<int>)
    requires HasPermission(t, user, resource, action, ownerId)
    ensures HasPermission(t.(memberships := t.memberships + {m}), user, resource, action, ownerId)
  {
    var t2 := t.(memberships := t.memberships + {m});
    forall x | x in t.rules
      ensures exists y :: y in t2.rules && y.roleId == x.roleId && y.elementId == x.elementId && FlagsLe(x.flags, y.flags)
    {
      assert FlagsLe(x.flags, x.flags);
    }
    Monotone(t, t2, user, resource, action, ownerId);
  }

  /** Turning flags on in one rule never takes a permission away. */
  lemma RaiseFlagsMonotone(t: Tables, k: nat, g: Flags, user: User, resource: string, action: Action, ownerId: Option<int>)
    requires k < |t.rules| && FlagsLe(t.rules[k].flags, g)
    requires HasPermission(t, user, resource, action, ownerId)
    ensures HasPermission(t.(rules := t.rules[k := t.rules[k].(flags := g)]), user, resource, action, ownerId)
  {
    var t2 := t.(rules := t.rules[k := t.rules[k].(flags := g)]);
    forall x | x in t.rules
      ensures exists y :: y in t2.rules && y.roleId == x.roleId && y.elementId == x.elementId && FlagsLe(x.flags, y.flags)
    {
      var i :| 0 <= i < |t.rules| && t.rules[i] == x;
      assert t2.rules[i] in t2.rules;
      assert FlagsLe(x.flags, t2.rules[i].flags);
    }
    Monotone(t, t2, user, resource, action, ownerId);
  }

  // ---------------------------------------------------------------- scenarios

  /** An own-scope read rule: user 5 may read a record of owner 5 but not one of
      owner 6, nor the collection without an owner. */
  lemma OwnReadScenario()
    ensures
      var t := Tables([], [Role(1, "user")], [Element(1, "products", None)], {Membership(5, 1)},
                      [Rule(1, 1, 1, NoFlags.(read := true))]);
      var a := User(5, "a@x", None, true);
      && HasPermission(t, a, "products", Read, Some(5))
      && !HasPermission(t, a, "products", Read, Some(6))
      && !HasPermission(t, a, "products", Read, None)
  {
    var t := Tables([], [Role(1, "user")], [Element(1, "products", None)], {Membership(5, 1)},
                    [Rule(1, 1, 1, NoFlags.(read := true))]);
    assert ElementByCode(t.elements, "products") == Some(0);
    assert RoleIdsOf(t.memberships, 5) == {1};
    assert MatchingRules(t.rules, {1}, 1) == t.rules;
  }

  /** A blanket read rule: the admin (id 9) may read a record of any owner. */
  lemma ReadAllScenario(ownerId: int)
    ensures
      var t := Tables([], [Role(1, "admin")], [Element(1, "products", None)], {Membership(9, 1)},
                      [Rule(1, 1, 1, NoFlags.(readAll := true))]);
      HasPermission(t, User(9, "admin@x", None, true), "products", Read, Some(ownerId))
  {
    var t := Tables([], [Role(1, "admin")], [Element(1, "products", None)], {Membership(9, 1)},
                    [Rule(1, 1, 1, NoFlags.(readAll := true))]);
    assert ElementByCode(t.elements, "products") == Some(0);
    assert RoleIdsOf(t.memberships, 9) == {1};
    assert MatchingRules(t.rules, {1}, 1) == t.rules;
  }
}
