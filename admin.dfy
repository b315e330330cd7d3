/** The administration endpoints: create, read, update and delete of roles and
    business elements, listing and upserting of access rules, and assigning
    roles to users. Every query is a function of the tables; every mutation is
    a method on the database that either fails with the tables untouched or
    makes exactly the change described. */
module Admin {
  import opened Common
  import opened Text
  import opened Models
  import opened Session

  /** The body of `PUT /admin/rules`; the flags default to `NoFlags`. */
  datatype RuleUpsert = RuleUpsert(roleId: int, elementId: int, flags: Flags)

  function RoleKey(x: Role): int { x.id }
  function RuleKey(x: Rule): int { x.id }

  // ---------------------------------------------------------------- queries

  /** `list_roles`: every role, in ascending id order. */
  function ListRoles(t: Tables): (r: seq<Role>)
    requires RolesValid(t.roles)
    ensures forall x :: x in r <==> x in t.roles
    ensures forall i, j :: 0 <= i < j < |r| ==> r[i].id < r[j].id
  {
    t.roles
  }

  /** `get_role`: the role with the id, or NotFound. */
  function GetRole(t: Tables, id: int): (r: Result<Role>)
    ensures r.Ok? <==> exists k :: 0 <= k < |t.roles| && t.roles[k].id == id
    ensures r.Ok? ==> r.value in t.roles && r.value.id == id
    ensures r.Err? ==> r.error == NotFound
  {
    match RoleIndex(t.roles, id)
    case None => Err(NotFound)
    case Some(k) => Ok(t.roles[k])
  }

  /** `list_elements`: every element, in ascending id order. */
  function ListElements(t: Tables): (r: seq<Element>)
    requires ElementsValid(t.elements)
    ensures forall x :: x in r <==> x in t.elements
    ensures forall i, j :: 0 <= i < j < |r| ==> r[i].id < r[j].id
  {
    t.elements
  }

  /** `get_element`: the element with the id, or NotFound. */
  function GetElement(t: Tables, id: int): (r: Result<Element>)
    ensures r.Ok? <==> exists k :: 0 <= k < |t.elements| && t.elements[k].id == id
    ensures r.Ok? ==> r.value in t.elements && r.value.id == id
    ensures r.Err? ==> r.error == NotFound
  {
    match ElementIndex(t.elements, id)
    case None => Err(NotFound)
    case Some(k) => Ok(t.elements[k])
  }

  /** A rule passes the optional filters of `list_rules`. */
  predicate RuleSelected(x: Rule, roleId: Option<int>, elementId: Option<int>)
  {
    (roleId.None? || x.roleId == roleId.value) && (elementId.None? || x.elementId == elementId.value)
  }

  /** `list_rules`: exactly the rules passing the given filters, in ascending id order. */
  function ListRules(t: Tables, roleId: Option<int>, elementId: Option<int>): (r: seq<Rule>)
    requires RuleKeysValid(t.rules)
    ensures forall x :: x in r <==> x in t.rules && RuleSelected(x, roleId, elementId)
    ensures forall i, j :: 0 <= i < j < |r| ==> r[i].id < r[j].id
  {
    var p := (x: Rule) => RuleSelected(x, roleId, elementId);
    FilterAscending(t.rules, p, RuleKey);
    Filter(t.rules, p)
  }

  /** With no filter, `list_rules` is the whole table. */
  lemma ListRulesUnfiltered(t: Tables)
    requires RuleKeysValid(t.rules)
    ensures ListRules(t, None, None) == t.rules
  {
    FilterAll(t.rules, (x: Rule) => RuleSelected(x, None, None));
  }

  /** `get_rule`: the rule with the id, or NotFound. */
  function GetRule(t: Tables, id: int): (r: Result<Rule>)
    ensures r.Ok? <==> exists k :: 0 <= k < |t.rules| && t.rules[k].id == id
    ensures r.Ok? ==> r.value in t.rules && r.value.id == id
    ensures r.Err? ==> r.error == NotFound
  {
    match RuleIndex(t.rules, id)
    case None => Err(NotFound)
    case Some(k) => Ok(t.rules[k])
  }

  /** `list_user_roles`: NotFound for an unknown user, else the roles the user
      holds, in ascending id order. */
  function ListUserRoles(t: Tables, userId: int): (r: Result<seq<Role>>)
    requires RolesValid(t.roles)
    ensures r.Err? <==> forall k :: 0 <= k < |t.users| ==> t.users[k].id != userId
    ensures r.Err? ==> r.error == NotFound
    ensures r.Ok? ==> forall x :: x in r.value <==> x in t.roles && Membership(userId, x.id) in t.memberships
    ensures r.Ok? ==> forall i, j :: 0 <= i < j < |r.value| ==> r.value[i].id < r.value[j].id
  {
    match UserIndex(t.users, userId)
    case None => Err(NotFound)
    case Some(_) =>
      var p := (x: Role) => Membership(userId, x.id) in t.memberships;
      FilterAscending(t.roles, p, RoleKey);
      Ok(Filter(t.roles, p))
  }

  // ---------------------------------------------------------------- rule upsert

  /** The rule table after an upsert of `flags` for the pair: the pair's rule
      overwritten in place, or a new rule numbered `newId` appended. */
  function Upsert(rules: seq<Rule>, roleId: int, elementId: int, flags: Flags, newId: int): seq<Rule>
  {
    match RuleFor(rules, roleId, elementId)
    case None => rules + [NewRule(newId, roleId, elementId).(flags := flags)]
    case Some(k) => rules[k := rules[k].(flags := flags)]
  }

  /** Where the pair's rule sits after an upsert: where it was, or at the end. */
  lemma UpsertFinds(rules: seq<Rule>, roleId: int, elementId: int, flags: Flags, newId: int)
    ensures RuleFor(Upsert(rules, roleId, elementId, flags, newId), roleId, elementId)
         == Some(if RuleFor(rules, roleId, elementId).Some? then RuleFor(rules, roleId, elementId).value else |rules|)
  {
    var r := Upsert(rules, roleId, elementId, flags, newId);
    var f := RuleFor(r, roleId, elementId);
    match RuleFor(rules, roleId, elementId)
    case None =>
      assert r[|rules|].roleId == roleId && r[|rules|].elementId == elementId;
      assert f.Some?;
      assert forall j :: 0 <= j < |rules| ==> r[j] == rules[j];
    case Some(k) =>
      assert r[k].roleId == roleId && r[k].elementId == elementId;
      assert forall j :: 0 <= j < |rules| && j != k ==> r[j] == rules[j];
  }

  /** Appending a rule with a fresh id for a pair the table lacks keeps the keys valid. */
  lemma AppendRuleValid(rules: seq<Rule>, x: Rule)
    requires RuleKeysValid(rules) && RuleFor(rules, x.roleId, x.elementId).None?
    requires forall k :: 0 <= k < |rules| ==> rules[k].id < x.id
    ensures RuleKeysValid(rules + [x])
    ensures forall y :: y in rules + [x] <==> y in rules || y == x
  {
  }

  /** Overwriting the flags of one rule keeps the keys valid, and replaces that
      rule and no other. */
  lemma OverwriteFlagsValid(rules: seq<Rule>, k: nat, flags: Flags)
    requires RuleKeysValid(rules) && k < |rules|
    ensures RuleKeysValid(rules[k := rules[k].(flags := flags)])
    ensures forall y :: y in rules[k := rules[k].(flags := flags)] <==>
      (y in rules && y != rules[k]) || y == rules[k].(flags := flags)
  {
    var r := rules[k := rules[k].(flags := flags)];
    forall y | y in rules && y != rules[k] ensures y in r {
      var j :| 0 <= j < |rules| && rules[j] == y;
      assert r[j] == y;
    }
    forall y | y in r && y != rules[k].(flags := flags) ensures y in rules && y != rules[k] {
      var j :| 0 <= j < |r| && r[j] == y;
      assert j != k && rules[j] == y;
      assert rules[j].id != rules[k].id;
    }
    assert r[k] == rules[k].(flags := flags);
  }

  /** After an upsert the pair has exactly one rule, carrying the given flags,
      every rule of another pair is as it was, and the keys stay valid. */
  lemma UpsertSpec(rules: seq<Rule>, roleId: int, elementId: int, flags: Flags, newId: int)
    requires RuleKeysValid(rules)
    requires forall k :: 0 <= k < |rules| ==> rules[k].id < newId
    ensures RuleKeysValid(Upsert(rules, roleId, elementId, flags, newId))
    ensures |Upsert(rules, roleId, elementId, flags, newId)| == |rules| + (if RuleFor(rules, roleId, elementId).None? then 1 else 0)
    ensures forall x: Rule :: !(x.roleId == roleId && x.elementId == elementId) ==>
      (x in Upsert(rules, roleId, elementId, flags, newId) <==> x in rules)
    ensures forall x: Rule :: x in Upsert(rules, roleId, elementId, flags, newId) && x.roleId == roleId && x.elementId == elementId ==>
      x.flags == flags
  {
    match RuleFor(rules, roleId, elementId)
    case None =>
      AppendRuleValid(rules, NewRule(newId, roleId, elementId).(flags := flags));
    case Some(k) =>
      OverwriteFlagsValid(rules, k, flags);
      forall x: Rule | x in rules && x.roleId == roleId && x.elementId == elementId ensures x == rules[k] {
        var j :| 0 <= j < |rules| && rules[j] == x;
        RuleForUnique(rules, j);
      }
  }

  /** The flags the table holds for the pair, if it has a rule for it. */
  function FlagsOf(rules: seq<Rule>, roleId: int, elementId: int): (r: Option<Flags>)
    ensures r.Some? <==> exists k :: 0 <= k < |rules| && rules[k].roleId == roleId && rules[k].elementId == elementId
  {
    match RuleFor(rules, roleId, elementId)
    case None => None
    case Some(k) => Some(rules[k].flags)
  }

  /** Seen through the pair lookup, an upsert sets the pair's flags and no other pair's. */
  lemma UpsertFlagsOf(rules: seq<Rule>, roleId: int, elementId: int, flags: Flags, newId: int, r2: int, e2: int)
    ensures FlagsOf(Upsert(rules, roleId, elementId, flags, newId), r2, e2)
         == if r2 == roleId && e2 == elementId then Some(flags) else FlagsOf(rules, r2, e2)
  {
    var r := Upsert(rules, roleId, elementId, flags, newId);
    UpsertFinds(rules, roleId, elementId, flags, newId);
    if !(r2 == roleId && e2 == elementId) {
      var m := RuleFor(rules, roleId, elementId);
      if m.None? {
        assert forall j :: 0 <= j < |rules| ==> r[j] == rules[j];
        assert !(r[|rules|].roleId == r2 && r[|rules|].elementId == e2);
      } else {
        assert forall j :: 0 <= j < |rules| && j != m.value ==> r[j] == rules[j];
        assert r[m.value].roleId == rules[m.value].roleId && r[m.value].elementId == rules[m.value].elementId;
      }
      if RuleFor(rules, r2, e2).Some? {
        assert RuleFor(r, r2, e2) == RuleFor(rules, r2, e2);
      }
    }
  }

  /** A rule the upsert did not find in the table is the pair's rule. */
  lemma UpsertAddsOnlyPair(rules: seq<Rule>, roleId: int, elementId: int, flags: Flags, newId: int, x: Rule)
    requires x in Upsert(rules, roleId, elementId, flags, newId) && x !in rules
    ensures x.roleId == roleId && x.elementId == elementId
  {
    var r := Upsert(rules, roleId, elementId, flags, newId);
    var j :| 0 <= j < |r| && r[j] == x;
    match RuleFor(rules, roleId, elementId)
    case None =>
      assert forall i :: 0 <= i < |rules| ==> r[i] == rules[i];
    case Some(m) =>
      assert forall i :: 0 <= i < |rules| && i != m ==> r[i] == rules[i];
  }

  /** Upserting the same payload twice leaves the table of one upsert. */
  lemma UpsertIdempotent(rules: seq<Rule>, roleId: int, elementId: int, flags: Flags, newId: int, laterId: int)
    ensures Upsert(Upsert(rules, roleId, elementId, flags, newId), roleId, elementId, flags, laterId)
         == Upsert(rules, roleId, elementId, flags, newId)
  {
    UpsertFinds(rules, roleId, elementId, flags, newId);
  }

  /** A second upsert for the pair with other flags overwrites the first: the
      table is that of the second upsert alone, with no extra row. */
  lemma UpsertOverwrites(rules: seq<Rule>, roleId: int, elementId: int, f1: Flags, f2: Flags, newId: int, laterId: int)
    ensures Upsert(Upsert(rules, roleId, elementId, f1, newId), roleId, elementId, f2, laterId)
         == Upsert(rules, roleId, elementId, f2, newId)
  {
    UpsertFinds(rules, roleId, elementId, f1, newId);
  }

  /** The upserted table still satisfies every constraint of the schema. */
  lemma UpsertValid(t: Tables, ids: NextIds, roleId: int, elementId: int, flags: Flags)
    requires ValidTables(t) && IdsBelow(t, ids)
    requires RoleIndex(t.roles, roleId).Some? && ElementIndex(t.elements, elementId).Some?
    ensures ValidTables(t.(rules := Upsert(t.rules, roleId, elementId, flags, ids.rule)))
    ensures IdsBelow(t.(rules := Upsert(t.rules, roleId, elementId, flags, ids.rule)),
                     if RuleFor(t.rules, roleId, elementId).None? then ids.(rule := ids.rule + 1) else ids)
  {
    var r := Upsert(t.rules, roleId, elementId, flags, ids.rule);
    UpsertSpec(t.rules, roleId, elementId, flags, ids.rule);
    var next := if RuleFor(t.rules, roleId, elementId).None? then ids.rule + 1 else ids.rule;
    UpsertRefs(t, roleId, elementId, flags, ids.rule);
    RulesReplacedValid(t, ids, r, next);
    assert ids.(rule := ids.rule) == ids;
  }

  /** Every rule of the upserted table references an existing role and element
      and has an id below the next one. */
  lemma UpsertRefs(t: Tables, roleId: int, elementId: int, flags: Flags, newId: int)
    requires forall k :: 0 <= k < |t.rules| ==> RuleRefs(t, t.rules[k]) && t.rules[k].id < newId
    requires RoleIndex(t.roles, roleId).Some? && ElementIndex(t.elements, elementId).Some?
    ensures var r := Upsert(t.rules, roleId, elementId, flags, newId);
      forall i :: 0 <= i < |r| ==>
        RuleRefs(t, r[i]) && r[i].id < (if RuleFor(t.rules, roleId, elementId).None? then newId + 1 else newId)
  {
    var r := Upsert(t.rules, roleId, elementId, flags, newId);
    match RuleFor(t.rules, roleId, elementId)
    case None =>
      forall i | 0 <= i < |r| ensures RuleRefs(t, r[i]) && r[i].id < newId + 1 {
        if i < |t.rules| { assert r[i] == t.rules[i]; }
      }
    case Some(k) =>
      forall i | 0 <= i < |r| ensures RuleRefs(t, r[i]) && r[i].id < newId {
        assert RuleRefs(t, t.rules[i]);
      }
  }

  /** `upsert_rule`: NotFound for an unknown role, then for an unknown element
      (tables untouched); otherwise the pair's rule created or overwritten. */
  method UpsertRule(db: Database, payload: RuleUpsert) returns (r: Result<Rule>)
    requires db.Valid()
    modifies db
    ensures db.Valid()
    ensures RoleIndex(old(db.roles), payload.roleId).None? ==>
      r == Err(NotFound) && db.Snapshot() == old(db.Snapshot()) && db.nextIds == old(db.nextIds)
    ensures RoleIndex(old(db.roles), payload.roleId).Some? && ElementIndex(old(db.elements), payload.elementId).None? ==>
      r == Err(NotFound) && db.Snapshot() == old(db.Snapshot()) && db.nextIds == old(db.nextIds)
    ensures RoleIndex(old(db.roles), payload.roleId).Some? && ElementIndex(old(db.elements), payload.elementId).Some? ==>
      && db.Snapshot() == old(db.Snapshot()).(rules := Upsert(old(db.rules), payload.roleId, payload.elementId, payload.flags, old(db.nextIds.rule)))
      && r.Ok? && r.value in db.rules
      && r.value.roleId == payload.roleId && r.value.elementId == payload.elementId && r.value.flags == payload.flags
      && db.nextIds == (if RuleFor(old(db.rules), payload.roleId, payload.elementId).None?
                        then old(db.nextIds).(rule := old(db.nextIds.rule) + 1) else old(db.nextIds))
  {
    if RoleIndex(db.roles, payload.roleId).None? {
      return Err(NotFound);
    }
    if ElementIndex(db.elements, payload.elementId).None? {
      return Err(NotFound);
    }
    ghost var t0, ids0 := db.Snapshot(), db.nextIds;
    UpsertValid(t0, ids0, payload.roleId, payload.elementId, payload.flags);
    ghost var after := Upsert(t0.rules, payload.roleId, payload.elementId, payload.flags, ids0.rule);
    ghost var ids1 := if RuleFor(t0.rules, payload.roleId, payload.elementId).None? then ids0.(rule := ids0.rule + 1) else ids0;
    var rule: Rule;
    match RuleFor(db.rules, payload.roleId, payload.elementId) {
      case None =>
        rule := NewRule(db.nextIds.rule, payload.roleId, payload.elementId);
        rule := rule.(flags := payload.flags);
        db.rules := db.rules + [rule];
        db.nextIds := db.nextIds.(rule := db.nextIds.rule + 1);
        assert db.rules == after && db.rules[|t0.rules|] == rule;
      case Some(k) =>
        rule := db.rules[k].(flags := payload.flags);
        db.rules := db.rules[k := rule];
        assert db.rules == after && db.rules[k] == rule;
    }
    assert db.Snapshot() == t0.(rules := after) && db.nextIds == ids1;
    r := Ok(rule);
  }

  // ---------------------------------------------------------------- roles

  /** `create_role`: the trimmed name stored under a fresh id, or Conflict
      (tables untouched) when a role already has that name. */
  method CreateRole(db: Database, name: string) returns (r: Result<Role>)
    requires db.Valid() && |name| >= 1
    modifies db
    ensures db.Valid()
    ensures RoleByName(old(db.roles), Strip(name)).Some? ==>
      r == Err(Conflict) && db.Snapshot() == old(db.Snapshot()) && db.nextIds == old(db.nextIds)
    ensures RoleByName(old(db.roles), Strip(name)).None? ==>
      && r == Ok(Role(old(db.nextIds.role), Strip(name)))
      && db.Snapshot() == old(db.Snapshot()).(roles := old(db.roles) + [r.value])
      && db.nextIds == old(db.nextIds).(role := old(db.nextIds.role) + 1)
  {
    var n := Strip(name);
    if RoleByName(db.roles, n).Some? {
      return Err(Conflict);
    }
    AddRoleValid(db.Snapshot(), db.nextIds, n);
    var role := Role(db.nextIds.role, n);
    db.roles := db.roles + [role];
    db.nextIds := db.nextIds.(role := db.nextIds.role + 1);
    r := Ok(role);
  }

  /** Some role other than `id` already carries the name. */
  predicate NameTakenByOther(roles: seq<Role>, id: int, name: string)
  {
    exists j :: 0 <= j < |roles| && roles[j].name == name && roles[j].id != id
  }

  /** `update_role`: NotFound for an unknown id; Conflict (tables untouched) when
      another role has the trimmed name; otherwise only that role's name changes. */
  method UpdateRole(db: Database, id: int, name: string) returns (r: Result<Role>)
    requires db.Valid() && |name| >= 1
    modifies db
    ensures db.Valid()
    ensures RoleIndex(old(db.roles), id).None? ==>
      r == Err(NotFound) && db.Snapshot() == old(db.Snapshot()) && db.nextIds == old(db.nextIds)
    ensures RoleIndex(old(db.roles), id).Some? && NameTakenByOther(old(db.roles), id, Strip(name)) ==>
      r == Err(Conflict) && db.Snapshot() == old(db.Snapshot()) && db.nextIds == old(db.nextIds)
    ensures RoleIndex(old(db.roles), id).Some? && !NameTakenByOther(old(db.roles), id, Strip(name)) ==>
      && r == Ok(Role(id, Strip(name)))
      && db.Snapshot() == old(db.Snapshot()).(roles := old(db.roles)[RoleIndex(old(db.roles), id).value := r.value])
      && db.nextIds == old(db.nextIds)
  {
    var found := RoleIndex(db.roles, id);
    if found.None? {
      return Err(NotFound);
    }
    var k := found.value;
    var n := Strip(name);
    var clash := RoleByName(db.roles, n);
    if clash.Some? && clash.value != k {
      assert db.roles[clash.value].id != id;
      return Err(Conflict);
    }
    assert !NameTakenByOther(db.roles, id, n);
    ghost var t0 := db.Snapshot();
    RenameRoleValid(t0, db.nextIds, k, n);
    var role := Role(id, n);
    db.roles := db.roles[k := role];
    assert db.Snapshot() == t0.(roles := t0.roles[k := role]);
    r := Ok(role);
  }

  /** The role is referenced by a rule or by a membership, so the foreign keys forbid deleting it. */
  predicate RoleInUse(t: Tables, id: int)
  {
    (exists k :: 0 <= k < |t.rules| && t.rules[k].roleId == id) ||
    (exists m :: m in t.memberships && m.roleId == id)
  }

  /** `delete_role`: NotFound for an unknown id; Conflict (tables untouched) while
      a rule or a membership references the role; otherwise only that row goes. */
  method DeleteRole(db: Database, id: int) returns (r: Result<()>)
    requires db.Valid()
    modifies db
    ensures db.Valid() && db.nextIds == old(db.nextIds)
    ensures RoleIndex(old(db.roles), id).None? ==>
      r == Err(NotFound) && db.Snapshot() == old(db.Snapshot())
    ensures RoleIndex(old(db.roles), id).Some? && RoleInUse(old(db.Snapshot()), id) ==>
      r == Err(Conflict) && db.Snapshot() == old(db.Snapshot())
    ensures RoleIndex(old(db.roles), id).Some? && !RoleInUse(old(db.Snapshot()), id) ==>
      && r == Ok(())
      && db.Snapshot() == old(db.Snapshot()).(roles := RemoveAt(old(db.roles), RoleIndex(old(db.roles), id).value))
    ensures r.Ok? ==> RoleIndex(db.roles, id).None?
  {
    var found := RoleIndex(db.roles, id);
    if found.None? {
      return Err(NotFound);
    }
    if RoleInUse(db.Snapshot(), id) {
      return Err(Conflict);
    }
    var k := found.value;
    RemoveRoleValid(db.Snapshot(), db.nextIds, k);
    db.roles := RemoveAt(db.roles, k);
    r := Ok(());
  }

  // ---------------------------------------------------------------- elements

  /** `create_element`: the trimmed code (and the title) stored under a fresh id,
      or Conflict (tables untouched) when an element already has that code. */
  method CreateElement(db: Database, code: string, title: Option<string>) returns (r: Result<Element>)
    requires db.Valid() && |code| >= 1
    modifies db
    ensures db.Valid()
    ensures ElementByCode(old(db.elements), Strip(code)).Some? ==>
      r == Err(Conflict) && db.Snapshot() == old(db.Snapshot()) && db.nextIds == old(db.nextIds)
    ensures ElementByCode(old(db.elements), Strip(code)).None? ==>
      && r == Ok(Element(old(db.nextIds.element), Strip(code), title))
      && db.Snapshot() == old(db.Snapshot()).(elements := old(db.elements) + [r.value])
      && db.nextIds == old(db.nextIds).(element := old(db.nextIds.element) + 1)
  {
    var c := Strip(code);
    if ElementByCode(db.elements, c).Some? {
      return Err(Conflict);
    }
    AddElementValid(db.Snapshot(), db.nextIds, c, title);
    var element := Element(db.nextIds.element, c, title);
    db.elements := db.elements + [element];
    db.nextIds := db.nextIds.(element := db.nextIds.element + 1);
    r := Ok(element);
  }

  /** `update_element`: NotFound for an unknown id; otherwise the title is
      replaced when one is supplied, and nothing else changes. */
  method UpdateElement(db: Database, id: int, title: Option<string>) returns (r: Result<Element>)
    requires db.Valid()
    modifies db
    ensures db.Valid() && db.nextIds == old(db.nextIds)
    ensures ElementIndex(old(db.elements), id).None? ==>
      r == Err(NotFound) && db.Snapshot() == old(db.Snapshot())
    ensures ElementIndex(old(db.elements), id).Some? ==>
      && r.Ok? && r.value.id == id
      && r.value.code == old(db.elements)[ElementIndex(old(db.elements), id).value].code
      && r.value.title == (if title.Some? then title else old(db.elements)[ElementIndex(old(db.elements), id).value].title)
      && db.Snapshot() == old(db.Snapshot()).(elements := old(db.elements)[ElementIndex(old(db.elements), id).value := r.value])
  {
    var found := ElementIndex(db.elements, id);
    if found.None? {
      return Err(NotFound);
    }
    var k := found.value;
    var newTitle := if title.Some? then title else db.elements[k].title;
    RetitleElementValid(db.Snapshot(), db.nextIds, k, newTitle);
    var element := db.elements[k].(title := newTitle);
    db.elements := db.elements[k := element];
    r := Ok(element);
  }

  /** The element is referenced by a rule, so the foreign key forbids deleting it. */
  predicate ElementInUse(t: Tables, id: int)
  {
    exists k :: 0 <= k < |t.rules| && t.rules[k].elementId == id
  }

  /** `delete_element`: NotFound for an unknown id; Conflict (tables untouched)
      while a rule references the element; otherwise only that row goes. */
  method DeleteElement(db: Database, id: int) returns (r: Result<()>)
    requires db.Valid()
    modifies db
    ensures db.Valid() && db.nextIds == old(db.nextIds)
    ensures ElementIndex(old(db.elements), id).None? ==>
      r == Err(NotFound) && db.Snapshot() == old(db.Snapshot())
    ensures ElementIndex(old(db.elements), id).Some? && ElementInUse(old(db.Snapshot()), id) ==>
      r == Err(Conflict) && db.Snapshot() == old(db.Snapshot())
    ensures ElementIndex(old(db.elements), id).Some? && !ElementInUse(old(db.Snapshot()), id) ==>
      && r == Ok(())
      && db.Snapshot() == old(db.Snapshot()).(elements := RemoveAt(old(db.elements), ElementIndex(old(db.elements), id).value))
    ensures r.Ok? ==> ElementIndex(db.elements, id).None?
  {
    var found := ElementIndex(db.elements, id);
    if found.None? {
      return Err(NotFound);
    }
    if ElementInUse(db.Snapshot(), id) {
      return Err(Conflict);
    }
    var k := found.value;
    RemoveElementValid(db.Snapshot(), db.nextIds, k);
    db.elements := RemoveAt(db.elements, k);
    r := Ok(());
  }

  // ---------------------------------------------------------------- user roles

  /** `add_role_to_user`: NotFound for an unknown user, then for an unknown role;
      otherwise the membership is added, a no-op when already present. */
  method AddRoleToUser(db: Database, userId: int, roleId: int) returns (r: Result<()>)
    requires db.Valid()
    modifies db
    ensures db.Valid() && db.nextIds == old(db.nextIds)
    ensures UserIndex(old(db.users), userId).None? ==>
      r == Err(NotFound) && db.Snapshot() == old(db.Snapshot())
    ensures UserIndex(old(db.users), userId).Some? && RoleIndex(old(db.roles), roleId).None? ==>
      r == Err(NotFound) && db.Snapshot() == old(db.Snapshot())
    ensures UserIndex(old(db.users), userId).Some? && RoleIndex(old(db.roles), roleId).Some? ==>
      r == Ok(()) &&
      db.Snapshot() == old(db.Snapshot()).(memberships := old(db.memberships) + {Membership(userId, roleId)})
  {
    if UserIndex(db.users, userId).None? {
      return Err(NotFound);
    }
    if RoleIndex(db.roles, roleId).None? {
      return Err(NotFound);
    }
    var link := Membership(userId, roleId);
    if link in db.memberships {
      assert db.memberships + {link} == db.memberships;
      return Ok(());
    }
    AddMembershipValid(db.Snapshot(), db.nextIds, link);
    db.memberships := db.memberships + {link};
    r := Ok(());
  }

  /** `remove_role_from_user`: the membership is removed; an absent one is a no-op, not an error. */
  method RemoveRoleFromUser(db: Database, userId: int, roleId: int) returns (r: Result<()>)
    requires db.Valid()
    modifies db
    ensures db.Valid() && db.nextIds == old(db.nextIds)
    ensures r == Ok(())
    ensures db.Snapshot() == old(db.Snapshot()).(memberships := old(db.memberships) - {Membership(userId, roleId)})
  {
    var link := Membership(userId, roleId);
    if link !in db.memberships {
      assert db.memberships - {link} == db.memberships;
      return Ok(());
    }
    db.memberships := db.memberships - {link};
    r := Ok(());
  }

  /** Assigning a role the user did not hold and then removing it: both calls
      succeed and the tables, hence the user's role list and every decision of
      the evaluator, are as they were. */
  method AssignThenUnassign(db: Database, userId: int, roleId: int) returns (added: Result<()>, removed: Result<()>)
    requires db.Valid() && UserIndex(db.users, userId).Some? && RoleIndex(db.roles, roleId).Some?
    requires Membership(userId, roleId) !in db.memberships
    modifies db
    ensures added == Ok(()) && removed == Ok(())
    ensures db.Snapshot() == old(db.Snapshot()) && db.nextIds == old(db.nextIds)
  {
    added := AddRoleToUser(db, userId, roleId);
    removed := RemoveRoleFromUser(db, userId, roleId);
    assert (old(db.memberships) + {Membership(userId, roleId)}) - {Membership(userId, roleId)} == old(db.memberships);
  }
}
