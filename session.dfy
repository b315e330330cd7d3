/** The database a request works on: the five tables as mutable fields, with
    the id sequences that number new rows. */
module Session {
  import opened Common
  import opened Models

  /** The next value of each table's id sequence. */
  datatype NextIds = NextIds(user: int, role: int, element: int, rule: int)

  /** Every id already stored is below its table's next id, so a new row's id is fresh. */
  ghost predicate IdsBelow(t: Tables, ids: NextIds)
  {
    && (forall k :: 0 <= k < |t.users| ==> t.users[k].id < ids.user)
    && (forall k :: 0 <= k < |t.roles| ==> t.roles[k].id < ids.role)
    && (forall k :: 0 <= k < |t.elements| ==> t.elements[k].id < ids.element)
    && (forall k :: 0 <= k < |t.rules| ==> t.rules[k].id < ids.rule)
  }

  class Database {
    var users: seq<User>
    var roles: seq<Role>
    var elements: seq<Element>
    var memberships: set<Membership>
    var rules: seq<Rule>
    var nextIds: NextIds

    /** The current contents of the tables. */
    function Snapshot(): Tables
      reads this
    {
      Tables(users, roles, elements, memberships, rules)
    }

    ghost predicate Valid()
      reads this
    {
      ValidTables(Snapshot()) && IdsBelow(Snapshot(), nextIds)
    }

    /** A freshly created schema: every table empty, every sequence at 1. */
    constructor ()
      ensures Valid()
      ensures Snapshot() == Tables([], [], [], {}, []) && nextIds == NextIds(1, 1, 1, 1)
    {
      users, roles, elements, memberships, rules := [], [], [], {}, [];
      nextIds := NextIds(1, 1, 1, 1);
    }

    /** Rolling a unit of work back: the tables return to a saved snapshot. */
    method Restore(t: Tables, ids: NextIds)
      requires ValidTables(t) && IdsBelow(t, ids)
      modifies this
      ensures Valid() && Snapshot() == t && nextIds == ids
    {
      users, roles, elements, memberships, rules := t.users, t.roles, t.elements, t.memberships, t.rules;
      nextIds := ids;
    }
  }

  // ---------------------------------------------------------------- row changes that keep the schema

  /** Inserting a role under the next id with a name no role has. */
  lemma AddRoleValid(t: Tables, ids: NextIds, name: string)
    requires ValidTables(t) && IdsBelow(t, ids) && RoleByName(t.roles, name).None?
    ensures ValidTables(t.(roles := t.roles + [Role(ids.role, name)]))
    ensures IdsBelow(t.(roles := t.roles + [Role(ids.role, name)]), ids.(role := ids.role + 1))
  {
    var t2 := t.(roles := t.roles + [Role(ids.role, name)]);
    forall m | m in t2.memberships ensures MembershipRefs(t2, m) {
      assert MembershipRefs(t, m);
      var j := RoleIndex(t.roles, m.roleId).value;
      assert t2.roles[j].id == m.roleId;
    }
    forall i | 0 <= i < |t2.rules| ensures RuleRefs(t2, t2.rules[i]) {
      assert RuleRefs(t, t.rules[i]);
      var j := RoleIndex(t.roles, t.rules[i].roleId).value;
      assert t2.roles[j].id == t.rules[i].roleId;
    }
  }

  /** Renaming the role at `k` to a name no other role has. */
  lemma RenameRoleValid(t: Tables, ids: NextIds, k: nat, name: string)
    requires ValidTables(t) && IdsBelow(t, ids) && k < |t.roles|
    requires forall j :: 0 <= j < |t.roles| && t.roles[j].name == name ==> j == k
    ensures ValidTables(t.(roles := t.roles[k := Role(t.roles[k].id, name)]))
    ensures IdsBelow(t.(roles := t.roles[k := Role(t.roles[k].id, name)]), ids)
  {
    var t2 := t.(roles := t.roles[k := Role(t.roles[k].id, name)]);
    forall m | m in t2.memberships ensures MembershipRefs(t2, m) {
      assert MembershipRefs(t, m);
      var j := RoleIndex(t.roles, m.roleId).value;
      assert t2.roles[j].id == m.roleId;
    }
    forall i | 0 <= i < |t2.rules| ensures RuleRefs(t2, t2.rules[i]) {
      assert RuleRefs(t, t.rules[i]);
      var j := RoleIndex(t.roles, t.rules[i].roleId).value;
      assert t2.roles[j].id == t.rules[i].roleId;
    }
  }

  /** Deleting the role at `k`, which no rule and no membership references. */
  lemma RemoveRoleValid(t: Tables, ids: NextIds, k: nat)
    requires ValidTables(t) && IdsBelow(t, ids) && k < |t.roles|
    requires forall i :: 0 <= i < |t.rules| ==> t.rules[i].roleId != t.roles[k].id
    requires forall m :: m in t.memberships ==> m.roleId != t.roles[k].id
    ensures ValidTables(t.(roles := RemoveAt(t.roles, k)))
    ensures IdsBelow(t.(roles := RemoveAt(t.roles, k)), ids)
  {
    var r := RemoveAt(t.roles, k);
    RemoveRoleKeeps(t.roles, k);
    forall m | m in t.memberships ensures RoleIndex(r, m.roleId).Some? {
      assert MembershipRefs(t, m);
    }
    forall i | 0 <= i < |t.rules| ensures RoleIndex(r, t.rules[i].roleId).Some? {
      assert RuleRefs(t, t.rules[i]);
    }
    RolesReplacedValid(t, ids, r);
  }

  /** Removing one role keeps the role constraints and every other role's id. */
  lemma RemoveRoleKeeps(roles: seq<Role>, k: nat)
    requires RolesValid(roles) && k < |roles|
    ensures RolesValid(RemoveAt(roles, k))
    ensures forall x :: x in RemoveAt(roles, k) ==> x in roles
    ensures forall id :: RoleIndex(roles, id).Some? && id != roles[k].id ==> RoleIndex(RemoveAt(roles, k), id).Some?
  {
    var r := RemoveAt(roles, k);
    forall id | RoleIndex(roles, id).Some? && id != roles[k].id ensures RoleIndex(r, id).Some? {
      var j := RoleIndex(roles, id).value;
      if j < k { assert r[j].id == id; } else { assert r[j - 1].id == id; }
    }
    forall x | x in r ensures x in roles {
      var j :| 0 <= j < |r| && r[j] == x;
      if j < k { assert roles[j] == x; } else { assert roles[j + 1] == x; }
    }
  }

  /** Replacing the role table by one with valid keys and old rows that every
      membership and rule still finds keeps the schema. */
  lemma RolesReplacedValid(t: Tables, ids: NextIds, r: seq<Role>)
    requires ValidTables(t) && IdsBelow(t, ids) && RolesValid(r)
    requires forall x :: x in r ==> x in t.roles
    requires forall m :: m in t.memberships ==> RoleIndex(r, m.roleId).Some?
    requires forall i :: 0 <= i < |t.rules| ==> RoleIndex(r, t.rules[i].roleId).Some?
    ensures ValidTables(t.(roles := r))
    ensures IdsBelow(t.(roles := r), ids)
  {
    forall i | 0 <= i < |r| ensures r[i].id < ids.role {
      assert r[i] in t.roles;
    }
  }

  /** Inserting an element under the next id with a code no element has. */
  lemma AddElementValid(t: Tables, ids: NextIds, code: string, title: Option<string>)
    requires ValidTables(t) && IdsBelow(t, ids) && ElementByCode(t.elements, code).None?
    ensures ValidTables(t.(elements := t.elements + [Element(ids.element, code, title)]))
    ensures IdsBelow(t.(elements := t.elements + [Element(ids.element, code, title)]), ids.(element := ids.element + 1))
  {
    var t2 := t.(elements := t.elements + [Element(ids.element, code, title)]);
    forall i | 0 <= i < |t2.rules| ensures RuleRefs(t2, t2.rules[i]) {
      assert RuleRefs(t, t.rules[i]);
      var j := ElementIndex(t.elements, t.rules[i].elementId).value;
      assert t2.elements[j].id == t.rules[i].elementId;
    }
  }

  /** Changing the title of the element at `k`. */
  lemma RetitleElementValid(t: Tables, ids: NextIds, k: nat, title: Option<string>)
    requires ValidTables(t) && IdsBelow(t, ids) && k < |t.elements|
    ensures ValidTables(t.(elements := t.elements[k := t.elements[k].(title := title)]))
    ensures IdsBelow(t.(elements := t.elements[k := t.elements[k].(title := title)]), ids)
  {
    var t2 := t.(elements := t.elements[k := t.elements[k].(title := title)]);
    forall i | 0 <= i < |t2.rules| ensures RuleRefs(t2, t2.rules[i]) {
      assert RuleRefs(t, t.rules[i]);
      var j := ElementIndex(t.elements, t.rules[i].elementId).value;
      assert t2.elements[j].id == t.rules[i].elementId;
    }
  }

  /** Deleting the element at `k`, which no rule references. */
  lemma RemoveElementValid(t: Tables, ids: NextIds, k: nat)
    requires ValidTables(t) && IdsBelow(t, ids) && k < |t.elements|
    requires forall i :: 0 <= i < |t.rules| ==> t.rules[i].elementId != t.elements[k].id
    ensures ValidTables(t.(elements := RemoveAt(t.elements, k)))
    ensures IdsBelow(t.(elements := RemoveAt(t.elements, k)), ids)
  {
    var t2 := t.(elements := RemoveAt(t.elements, k));
    forall i | 0 <= i < |t2.rules| ensures RuleRefs(t2, t2.rules[i]) {
      assert RuleRefs(t, t.rules[i]);
      var j := ElementIndex(t.elements, t.rules[i].elementId).value;
      if j < k { assert t2.elements[j].id == t.rules[i].elementId; } else { assert t2.elements[j - 1].id == t.rules[i].elementId; }
    }
  }

  /** Inserting a user under the next id with an e-mail no user has. */
  lemma AddUserValid(t: Tables, ids: NextIds, u: User)
    requires ValidTables(t) && IdsBelow(t, ids) && u.id == ids.user && UserByEmail(t.users, u.email).None?
    ensures ValidTables(t.(users := t.users + [u]))
    ensures IdsBelow(t.(users := t.users + [u]), ids.(user := ids.user + 1))
  {
    var t2 := t.(users := t.users + [u]);
    forall m | m in t2.memberships ensures MembershipRefs(t2, m) {
      assert MembershipRefs(t, m);
      var j := UserIndex(t.users, m.userId).value;
      assert t2.users[j].id == m.userId;
    }
  }

  /** Replacing the user at `k` by a row with the same id and an e-mail no other user has. */
  lemma UpdateUserValid(t: Tables, ids: NextIds, k: nat, u: User)
    requires ValidTables(t) && IdsBelow(t, ids) && k < |t.users| && u.id == t.users[k].id
    requires forall j :: 0 <= j < |t.users| && t.users[j].email == u.email ==> j == k
    ensures ValidTables(t.(users := t.users[k := u]))
    ensures IdsBelow(t.(users := t.users[k := u]), ids)
  {
    var t2 := t.(users := t.users[k := u]);
    forall m | m in t2.memberships ensures MembershipRefs(t2, m) {
      assert MembershipRefs(t, m);
      var j := UserIndex(t.users, m.userId).value;
      assert t2.users[j].id == m.userId;
    }
  }

  /** Replacing the rule table by one with valid keys, references and ids keeps the schema. */
  lemma RulesReplacedValid(t: Tables, ids: NextIds, r: seq<Rule>, nextRule: int)
    requires ValidTables(t) && IdsBelow(t, ids)
    requires RuleKeysValid(r)
    requires forall k :: 0 <= k < |r| ==> RuleRefs(t, r[k]) && r[k].id < nextRule
    ensures ValidTables(t.(rules := r))
    ensures IdsBelow(t.(rules := r), ids.(rule := nextRule))
  {
  }

  /** Adding a membership between an existing user and an existing role. */
  lemma AddMembershipValid(t: Tables, ids: NextIds, m: Membership)
    requires ValidTables(t) && IdsBelow(t, ids)
    requires UserIndex(t.users, m.userId).Some? && RoleIndex(t.roles, m.roleId).Some?
    ensures ValidTables(t.(memberships := t.memberships + {m}))
    ensures IdsBelow(t.(memberships := t.memberships + {m}), ids)
  {
  }
}
