# RBAC auth service — a Dafny model

This project models the core of a small FastAPI/SQLAlchemy service: users, roles, business elements (protected resources known by a code) and access rules.

An access rule gives one role seven boolean flags on one element: read, read-all, create, update, update-all, delete and delete-all.

**The permission evaluator** (`has_permission`) decides whether a user may read, create, update or delete on the element with a given code. It works in four steps:

1. It denies when the code is unknown.
2. It denies when the user holds no role.
3. It denies when no rule of the user's roles matches the element.
4. Otherwise it allows exactly when some matching rule grants the action. `create` needs the create flag. `read`, `update` and `delete` need the blanket `*_all` flag, or the own-scope flag when the record's owner is the caller.

Around the evaluator the project models:

- **Administration endpoints** (`app/api/admin.py`):
  - create, read, update and delete of roles and elements;
  - listing and upserting of rules;
  - assigning roles to users and taking them away.
- **Demo resources** (`app/api/mock.py`): three products and three orders built for the caller. The lists are filtered by ownership after the evaluator has answered.
- **The demo-data seeder** (`app/db/generate_demo_data.py`): get-or-create helpers and the fixed rule matrix.
- **Resolving the caller** (`app/core/auth_jwt.py`): the caller comes from the `Authorization: Bearer <token>` header.
- **Registration and profile endpoints** (`app/api/auth.py`, `app/api/users.py`).

**How the modules are laid out:**

- **Data:**
  - `Common` holds the error outcomes (`NotFound | Conflict | Forbidden | Unauthenticated | BadRequest`), `Option` and `Result`.
  - `Text` holds the ASCII string operations the source borrows from Python: `strip`, `lower`, `split`, `int` and `str`.
  - `Models` holds the rows of the five tables and the schema constraints (primary keys, unique columns, foreign keys) as predicates on a `Tables` snapshot.
  - `Session` holds the class `Database`. Its fields are the five tables and the per-table id sequences, and its invariant `Valid()` is those constraints.
- **The pure evaluator:** `Rbac` is a set of functions and lemmas.
- **Endpoints and helpers:**
  - `Admin`, `Mock`, `Seed`, `Auth`, `Users` and `AuthJwt` model the endpoints and helpers.
  - Queries are functions of the tables.
  - Every mutation is a method that changes the `Database` it is given. An endpoint's or helper's postcondition states the whole new state, or that the tables are unchanged on an error. The seeding steps that compose the helpers state what they add and what they keep of every table they touch.
- **Ids:** rows are kept in ascending id order. New ids come from the per-table sequences in `nextIds`.

## Model

| member | source | states |
|---|---|---|
| Rbac.RoleIdsOf | app/core/rbac.py:30-31 | a role id is in the result exactly when the user has a membership in that role |
| Rbac.MatchingRules | app/core/rbac.py:35-42 | the result holds exactly the rules whose role is one of the given roles and whose element is the given element |
| Rbac.UnknownResourceDenied | app/core/rbac.py:26-28 | when no element has the code, neither `has_permission` nor `has_all_permission` holds, for every user, action and owner |
| Rbac.NoRolesDenied | app/core/rbac.py:30-33 | a user with no membership is denied every action on every resource, whatever the owner |
| Rbac.DecideOnIff | app/core/rbac.py:30-70 | once the element is resolved, the decision holds iff some rule of one of the user's roles on that element grants the action, in both directions |
| Rbac.HasPermissionIff | app/core/rbac.py:26-70 | the decision holds iff some element with the code and some rule applying to the user on it grant the action, in both directions |
| Rbac.CreateIgnoresOwner | app/core/rbac.py:49-50 | `create` gets the same answer for any two owner ids, and that answer is "some matching rule has the create flag" |
| Rbac.AllPermissionIsUnowned | app/core/rbac.py:46-68 | `has_all_permission` (some matching rule has the blanket flag) equals the evaluator asked with no owner |
| Rbac.NotOwnerNeedsAll | app/core/rbac.py:46-68 | with no owner or another user's id as owner, the decision equals `has_all_permission` |
| Rbac.UnownedIsStrictest | app/core/rbac.py:46-68 | whatever is allowed with no owner is allowed for every owner id |
| Rbac.OwnerNeedsOwnOrAll | app/core/rbac.py:52-68 | with the caller as owner, the decision holds iff some matching rule has the action's own flag or blanket flag |
| Rbac.Monotone | app/core/rbac.py:48-70 | for tables that keep the elements and memberships and keep every rule's pair with no flag switched off, an allow stays an allow |
| Rbac.DecideOnMonotone | app/core/rbac.py:48-70 | the same monotonicity once the element id is resolved |
| Rbac.AddMembershipMonotone | app/core/rbac.py:30-70 | adding a membership never turns an allow into a deny |
| Rbac.RaiseFlagsMonotone | app/core/rbac.py:48-70 | switching flags on in one rule never turns an allow into a deny |
| Rbac.RequirePermission | app/core/rbac.py:73-81 | the result is the caller iff the evaluator allows with no owner; otherwise it is Forbidden |
| Rbac.RequirePermissionWithOwner | app/core/rbac.py:84-100 | the result is the caller iff the evaluator allows for the given owner id; otherwise it is Forbidden |
| Rbac.Guard | app/core/rbac.py:74-79 | Unauthenticated when the caller cannot be resolved; otherwise the caller iff the evaluator allows, else Forbidden |
| Rbac.OwnReadScenario | app/core/rbac.py:52-56 | an own-scope read rule lets user 5 read owner 5's record, but not owner 6's, and not with no owner |
| Rbac.ReadAllScenario | app/core/rbac.py:52-54 | a blanket read rule lets its holder read a record of any owner |
| Models.NewRule | app/models/access_role_rule.py:35-58 | a new rule has the given id, role and element, and all seven flags false |
| Models.UserIndex | app/core/auth_jwt.py:30 | `db.get(User, id)`: the first user with the id, or None exactly when no user has it |
| Models.UserByEmail | app/api/auth.py:21 | the first user with the e-mail, or None exactly when no user has it |
| Models.RoleIndex | app/api/admin.py:58 | the first role with the id, or None exactly when no role has it |
| Models.RoleByName | app/db/generate_demo_data.py:23 | the first role with the name, or None exactly when no role has it |
| Models.ElementIndex | app/api/admin.py:136 | the first element with the id, or None exactly when no element has it |
| Models.ElementByCode | app/core/rbac.py:26 | the first element with the code, or None exactly when no element has it |
| Models.RuleIndex | app/api/admin.py:207 | the first rule with the id, or None exactly when no rule has it |
| Models.RuleFor | app/api/admin.py:227-234 | the first rule of the (role, element) pair, or None exactly when the pair has none |
| Models.RuleForUnique | app/models/access_role_rule.py:20-24 | under the unique (role, element) constraint, every stored rule is the one its pair finds |
| Models.RuleIdUnique | app/models/access_role_rule.py:26 | under the ascending primary key, every stored rule is the one its id finds |
| Models.UserIdOf | app/models/user.py:9 | a stored user is what its id finds |
| Models.UserEmailOf | app/models/user.py:10 | under the unique e-mail, a stored user is what its e-mail finds |
| Models.RoleIdOf | app/models/role.py:12 | a stored role is what its id finds |
| Models.RoleNameOf | app/models/role.py:13 | under the unique name, a stored role is what its name finds |
| Models.ElementIdOf | app/models/business_element.py:12 | a stored element is what its id finds |
| Models.ElementCodeOf | app/models/business_element.py:14 | under the unique code, a stored element is what its code finds |
| Session.Database.constructor | tests/conftest.py:41-42 | a new schema: every table empty, every id sequence at 1, constraints hold |
| Session.Database.Restore | tests/conftest.py:32-33 | a rollback: the tables and sequences return to a saved valid snapshot |
| Session.AddRoleValid | app/api/admin.py:43-48 | inserting a role under the next id, with a name no role has, keeps every constraint |
| Session.RenameRoleValid | app/api/admin.py:93-98 | renaming a role to a name no other role has keeps every constraint |
| Session.RemoveRoleValid | app/api/admin.py:74-79 | deleting a role that no rule and no membership references keeps every constraint |
| Session.RemoveRoleKeeps | app/api/admin.py:74 | deleting one role keeps the role constraints, adds no row, and every other role id is still found |
| Session.RolesReplacedValid | app/models/access_role_rule.py:28-30 | a role table made of old rows, which valid keys and every membership and rule still find, keeps every constraint |
| Session.AddElementValid | app/api/admin.py:121-126 | inserting an element under the next id, with a code no element has, keeps every constraint |
| Session.RetitleElementValid | app/api/admin.py:172-176 | changing an element's title keeps every constraint |
| Session.RemoveElementValid | app/api/admin.py:152-156 | deleting an element that no rule references keeps every constraint |
| Session.AddUserValid | app/api/auth.py:25-37 | inserting a user under the next id, with an e-mail no user has, keeps every constraint |
| Session.UpdateUserValid | app/api/users.py:24-37 | replacing a user by a row with the same id, and an e-mail no other user has, keeps every constraint |
| Session.RulesReplacedValid | app/models/access_role_rule.py:20-33 | a rule table with valid keys, whose rules all reference existing rows and have ids below the sequence, keeps every constraint |
| Session.AddMembershipValid | app/api/admin.py:294-295 | adding a membership of an existing user in an existing role keeps every constraint |
| Admin.ListRoles | app/api/admin.py:32-33 | exactly the stored roles, in ascending id order |
| Admin.GetRole | app/api/admin.py:57-61 | the role with the id when one exists; NotFound exactly when none does |
| Admin.ListElements | app/api/admin.py:110-111 | exactly the stored elements, in ascending id order |
| Admin.GetElement | app/api/admin.py:135-139 | the element with the id when one exists; NotFound exactly when none does |
| Admin.ListRules | app/api/admin.py:188-198 | exactly the rules passing whichever of the role and element filters are given, in ascending id order |
| Admin.ListRulesUnfiltered | app/api/admin.py:193-198 | with neither filter, the whole rule table |
| Admin.GetRule | app/api/admin.py:206-210 | the rule with the id when one exists; NotFound exactly when none does |
| Admin.ListUserRoles | app/api/admin.py:259-269 | NotFound exactly for an unknown user; otherwise exactly the user's roles, in ascending id order |
| Admin.FlagsOf | app/api/admin.py:227-234 | the pair's flags are present exactly when the table has a rule for the pair |
| Admin.UpsertFinds | app/api/admin.py:227-237 | after an upsert the pair's rule is where it was, or at the end when it was new |
| Admin.AppendRuleValid | app/api/admin.py:235-237 | appending a rule with a fresh id, for a pair the table lacks, keeps the rule keys valid and adds just that row |
| Admin.OverwriteFlagsValid | app/api/admin.py:239-245 | overwriting one rule's flags keeps the rule keys valid and replaces only that row |
| Admin.UpsertSpec | app/api/admin.py:227-247 | after an upsert the keys stay valid and the table grows by one row only for a new pair. Every rule of another pair is kept, and every rule of the pair carries the payload's flags |
| Admin.UpsertFlagsOf | app/api/admin.py:239-245 | seen through the pair lookup, an upsert sets the pair's flags to the payload and leaves every other pair's flags as they were |
| Admin.UpsertAddsOnlyPair | app/api/admin.py:235-237 | the only row an upsert can add is the pair's rule |
| Admin.UpsertIdempotent | app/api/admin.py:227-247 | applying the same payload twice leaves the table of one application |
| Admin.UpsertOverwrites | app/api/admin.py:239-245 | a second payload for the pair overwrites the first instead of adding a row |
| Admin.UpsertValid | app/api/admin.py:227-247 | upserting for an existing role and element keeps every constraint |
| Admin.UpsertRefs | app/api/admin.py:219-237 | every rule of the upserted table references an existing role and element, and has an id below the advanced sequence |
| Admin.UpsertRule | app/api/admin.py:218-248 | NotFound with the tables untouched for an unknown role, then for an unknown element. Otherwise the rule table becomes the upsert, the id sequence advances only for a new pair, and the returned rule carries the payload's pair and flags |
| Admin.CreateRole | app/api/admin.py:42-49 | Conflict with the tables untouched when a role already has the stripped name; otherwise one role with the stripped name appended under the next id |
| Admin.UpdateRole | app/api/admin.py:88-99 | NotFound for an unknown id; Conflict with the tables untouched when another role has the stripped name; otherwise only that role is renamed |
| Admin.DeleteRole | app/api/admin.py:69-80 | NotFound for an unknown id; Conflict with the tables untouched while a rule or membership references the role; otherwise only that row is removed |
| Admin.CreateElement | app/api/admin.py:120-127 | Conflict with the tables untouched when an element already has the stripped code; otherwise one element with the stripped code and the title appended |
| Admin.UpdateElement | app/api/admin.py:165-177 | NotFound for an unknown id; otherwise only that element's title changes, and only when a title is supplied |
| Admin.DeleteElement | app/api/admin.py:147-157 | NotFound for an unknown id; Conflict with the tables untouched while a rule references the element; otherwise only that row is removed |
| Admin.AddRoleToUser | app/api/admin.py:277-296 | NotFound for an unknown user, then for an unknown role; otherwise memberships become old ∪ {(user, role)}, so an existing link is a no-op |
| Admin.RemoveRoleFromUser | app/api/admin.py:304-315 | never an error; memberships become old \ {(user, role)}, so an absent link is a no-op |
| Admin.AssignThenUnassign | app/api/admin.py:286-315 | for an existing user and role whose link is absent, `add_role_to_user` then `remove_role_from_user` both succeed and leave the tables and sequences as they were |
| Mock.Products | app/api/mock.py:13-19 | the reference list of the products built for the caller: exactly three records (which of them the caller owns is `Mock.OwnedProducts`) |
| Mock.Orders | app/api/mock.py:22-28 | the reference list of the orders built for the caller: exactly three records (which of them the caller owns is `Mock.OwnedOrders`) |
| Mock.BuildProducts | app/api/mock.py:13-19 | the three appends build exactly `Products(uid)` |
| Mock.BuildOrders | app/api/mock.py:22-28 | the three appends build exactly `Orders(uid)` |
| Mock.Owned | app/api/mock.py:44-47 | a record is in the result exactly when it is in the list and belongs to the owner |
| Mock.OwnedSnoc | app/api/mock.py:45-47 | filtering one more record extends the result by that record exactly when the caller owns it |
| Mock.ListRecords | app/api/mock.py:36-49 | all records under the blanket read; otherwise Forbidden without own-scope read; otherwise exactly the caller's records in order (the loop's result). Every returned record is readable by the caller |
| Mock.ListProducts | app/api/mock.py:31-49 | `list_products`: the built products under the blanket read; otherwise Forbidden or the caller's own products |
| Mock.ListOrders | app/api/mock.py:78-96 | `list_orders`: the same all, own-filter or Forbidden logic on the built orders |
| Mock.OwnedProducts | app/api/mock.py:44-49 | with only the own-scope read, the caller sees products 1 and 3, in that order |
| Mock.OwnedOrders | app/api/mock.py:91-96 | with only the own-scope read, the caller sees orders 101 and 103, in that order |
| Mock.OwnedOfThree | app/api/mock.py:45-47 | of three records where only the middle one is someone else's, the filter keeps the outer two |
| Mock.OwnedPair | app/api/mock.py:45-47 | of two records where only the second is someone else's, the filter keeps the first |
| Mock.RecordIndex | app/api/mock.py:61-65 | the first record with the id, or None exactly when no record has it |
| Mock.PatchProduct | app/api/mock.py:52-75 | NotFound for an id outside the list, before any rule is consulted. Then Forbidden unless updating for the found record's owner is allowed. Otherwise the found record with only its title replaced |
| Mock.PatchNeedsScope | app/api/mock.py:70-72 | patching product 2 needs the blanket update flag; patching products 1 and 3 also yields to the own-scope flag |
| Seed.GetOrCreateRole | app/db/generate_demo_data.py:22-29 | the role with the name, untouched when it exists; otherwise one role appended under the next id. The name finds the result afterwards |
| Seed.GetOrCreateUser | app/db/generate_demo_data.py:32-49 | as written: a new user for an unknown e-mail; an existing nameless user re-activated, named and returned; an existing named user re-activated, then Conflict from the duplicate insert. Conflict happens exactly when the e-mail's user already has a full name; users with other e-mails are kept, and so is what their e-mails find |
| Seed.ReseedUserAsWritten | app/db/generate_demo_data.py:32-49 | as written, a second call for an account the first call returned fails with Conflict |
| Seed.GetOrCreateUserFixed | app/db/generate_demo_data.py:32-49 | as intended: the existing user re-activated, its name filled only if empty, and returned; otherwise a new active user appended. An active, named user leaves the tables untouched |
| Seed.ReplaceUserFacts | app/db/generate_demo_data.py:35-39 | replacing the user with the e-mail keeps every other user, and replacing it by itself changes nothing |
| Seed.ReseedUserFixed | app/db/generate_demo_data.py:32-49 | with the intended helper a second call returns the same user and adds at most one row in total |
| Seed.WithElementSpec | app/db/generate_demo_data.py:52-65 | the code finds the element where it was, keeping its id and gaining the title only if it had none, or a new element at the end. Elements with other codes are kept |
| Seed.WithElementOtherCodes | app/db/generate_demo_data.py:52-65 | every code other than the one fetched finds what it found before |
| Seed.WithElementIdempotent | app/db/generate_demo_data.py:52-65 | a second `get_or_create_element` with the same arguments changes nothing |
| Seed.GetOrCreateElement | app/db/generate_demo_data.py:52-65 | the element table becomes `WithElement` of the old one, the sequence advances only on insert, and the returned element is the one the code finds |
| Seed.GetOrUpdateRule | app/db/generate_demo_data.py:68-103 | for an existing role and element the rule table becomes the admin upsert, the rule sequence advances only for a new pair, and the returned rule carries the flags; a dangling id is Conflict with the tables untouched |
| Seed.GetOrCreateUserRole | app/db/generate_demo_data.py:106-116 | memberships become old ∪ {(user, role)} for an existing user and role, so a repeat is a no-op; a dangling id is Conflict |
| Seed.RoleNamed | app/db/generate_demo_data.py:23 | the role with the name, None exactly when no role has it |
| Seed.UserWithEmail | app/db/generate_demo_data.py:33 | the user with the e-mail, None exactly when no user has it |
| Seed.IdsOf | app/db/generate_demo_data.py:144-147 | the set of the listed elements' ids |
| Seed.SeedCodesDistinct | app/db/generate_demo_data.py:132-138 | the five seeded codes are pairwise distinct |
| Seed.ResourceCodesSeeded | app/db/generate_demo_data.py:158-161 | products and orders are the last two seeded codes |
| Seed.ElementStep | app/db/generate_demo_data.py:141-142 | one turn of the element loop keeps every element fetched so far in the table, with its listed code |
| Seed.SeedElements | app/db/generate_demo_data.py:140-142 | one element per listed code, in order, each present in the table; only the element table changes; elements with unlisted codes are kept, and every code that found an element still finds one with the same id |
| Seed.WithElementKeepsIds | app/db/generate_demo_data.py:52-65 | `get_or_create_element` never changes the id a code finds, and this composes over the loop |
| Seed.ResourceElements | app/db/generate_demo_data.py:158-161 | exactly the listed elements whose code is products or orders |
| Seed.GrantStep | app/db/generate_demo_data.py:144-156 | one upsert of a rule loop keeps its progress: the flags on the elements done so far, every pair other than the role on a listed element untouched, new rules only for the role |
| Seed.GrantOnAll | app/db/generate_demo_data.py:144-156 | the role has the flags on every listed element; the flags of every other pair (other roles, and this role on unlisted elements) are unchanged; every new rule is the role's on a listed element |
| Seed.SeedRoles | app/db/generate_demo_data.py:123-124 | the admin and user roles exist afterwards; every role that existed is kept; only roles change |
| Seed.SeedUsers | app/db/generate_demo_data.py:126-127 | the admin and user accounts exist and are active afterwards; every user with another e-mail is kept; only users change |
| Seed.SeedAccounts | app/db/generate_demo_data.py:123-130 | roles and active accounts present; memberships become the old ones plus the two account links; old roles and users with other e-mails kept; elements and rules untouched |
| Seed.SeedLinks | app/db/generate_demo_data.py:129-130 | memberships become exactly the old ones plus the two account links; nothing else changes |
| Seed.LinkAccount | app/db/generate_demo_data.py:106-116 | for a stored account and role the only change is the membership, added if absent |
| Seed.ResourceIds | app/db/generate_demo_data.py:158-161 | every id in the set is that of a listed products or orders element |
| Seed.SeedRules | app/db/generate_demo_data.py:144-175 | every flag for the admin role on each element; the user role's flags on products and orders; every new rule is one of those pairs; every other role's flags, and each of the two roles' flags on elements outside its list, are unchanged |
| Seed.SeedDemoData | app/db/generate_demo_data.py:119-175 | the tables stay valid, satisfy `Seeded` (both roles, accounts and memberships, and the full rule matrix), every rule written is a seeded pair, and `SeedKeeps` holds: old roles, users with other e-mails, memberships, elements with unseeded codes, element ids and other roles' rules are kept |
| Seed.SeedMatrix | app/db/generate_demo_data.py:132-175 | once the accounts hold their roles, the elements and both rule loops reach `Seeded`, every rule written is a seeded pair, users, roles and memberships are untouched, elements with unseeded codes and all element ids are kept, and other roles' flags are unchanged |
| Seed.OtherEmailKept | app/db/generate_demo_data.py:33-49 | a change confined to the rows of one e-mail keeps what every other e-mail finds, and every row with another e-mail |
| Seed.SeedUsersAsWritten | app/db/generate_demo_data.py:126-127 | with the helper as written: Conflict exactly when the admin or the user account already has a full name; otherwise both accounts, active. Only users change, and every user with another e-mail is kept |
| Seed.SeedDemoDataAsWritten | app/db/generate_demo_data.py:119-175 | as written: Conflict exactly when either account already has a full name, with the tables and sequences rolled back to their state before the run; otherwise `Seeded`, every rule written is a seeded pair, and `SeedKeeps` holds |
| Seed.SeedKeepsFrom | app/db/generate_demo_data.py:119-175 | the frame facts of the seeding steps add up to `SeedKeeps`: nothing that existed is dropped, only the two seeded memberships are added, and other roles' rules stay |
| Seed.SeedLinksFrom | app/db/generate_demo_data.py:129-130 | the two memberships the seeder adds are the seeded accounts' links to the seeded roles |
| Seed.SeededFrom | app/db/generate_demo_data.py:123-175 | the facts the seeding steps leave behind add up to `Seeded` |
| Seed.SeededPairsFrom | app/db/generate_demo_data.py:144-175 | the rules the two loops wrote are seeded pairs |
| Seed.RuleGrants | app/core/rbac.py:48-68 | a held role with a rule on the element whose flags grant the action makes the evaluator allow |
| Seed.SeededAdminMayAll | app/db/generate_demo_data.py:144-156 | after seeding the admin account may take every action on every seeded element, for every owner |
| Seed.SeededUserMayOwn | app/db/generate_demo_data.py:163-175 | after seeding the user account may take every action on its own products and orders |
| Seed.UserRoleOnlyOnResources | app/db/generate_demo_data.py:158-175 | when every rule is one the seeder wrote, each user-role rule is on products or orders, none on an `rbac_*` element |
| AuthJwt.BearerToken | app/core/auth_jwt.py:12-19 | no token for a missing or empty header; a token is always a non-empty run of non-whitespace |
| AuthJwt.GetCurrentUser | app/core/auth_jwt.py:9-37 | every failure is Unauthenticated; no bearer token means failure; a success is a stored active user whose id is the token's subject |
| AuthJwt.BearerHeader | app/core/auth_jwt.py:16-19 | a two-part header is accepted exactly when its scheme lower-cases to "bearer", and then yields its second part |
| AuthJwt.BasicSchemeRejected | app/core/auth_jwt.py:17-18 | "Basic abc" yields no token |
| AuthJwt.WrongPartCountRejected | app/core/auth_jwt.py:16-18 | any number of whitespace-separated parts other than two yields no token |
| AuthJwt.TokenForUser | app/core/auth_jwt.py:21-37 | a bearer token whose subject is `str(id)` of a stored user authenticates as that user exactly when they are active |
| AuthJwt.InactiveUserRejected | app/core/auth_jwt.py:30-35 | an inactive user never authenticates, whatever the header and decoder |
| Text.Strip | app/api/auth.py:17 | an infix of the input that only whitespace surrounds, and that neither starts nor ends with whitespace |
| Text.StripEmptyIffAllSpace | app/api/users.py:28-30 | the stripped string is empty exactly when the input is all whitespace |
| Text.StripIdempotent | app/api/admin.py:43 | stripping twice is stripping once |
| Text.StripOfStripped | app/api/admin.py:43 | a string with no whitespace at either end strips to itself |
| Text.LowerChar | app/api/auth.py:17 | never an upper-case letter; A-Z shifted by 32, everything else kept |
| Text.Lower | app/api/auth.py:17 | the same length, with each character lower-cased |
| Text.LowerIdempotent | app/api/auth.py:17 | lower-casing twice is lower-casing once |
| Text.LowerKeepsSpaces | app/api/auth.py:17 | lower-casing keeps whitespace where it was |
| Text.NormalizeEmail | app/api/auth.py:17 | no longer than the input, no capital letter, no whitespace at either end |
| Text.NormalizeEmailIdempotent | app/api/users.py:28 | a normalised address is its own normal form |
| Text.NormalizeEmailEmptyIff | app/api/users.py:28-30 | the address normalises to the empty string exactly when it is all whitespace |
| Text.Word | app/core/auth_jwt.py:16 | the longest whitespace-free prefix |
| Text.SplitWhitespace | app/core/auth_jwt.py:16 | no more parts than characters |
| Text.SplitTokens | app/core/auth_jwt.py:16 | every part of a split is a non-empty run of non-whitespace |
| Text.SplitJoin | app/core/auth_jwt.py:16-17 | splitting non-empty words joined by single spaces gives the words back |
| Text.ParseInt | app/core/auth_jwt.py:23 | `int()` succeeds only on a string that is not blank |
| Text.NatToStringValue | app/core/auth_jwt.py:23 | the decimal digits of `str(n)` have the value n |
| Text.ParseNatToString | app/core/auth_jwt.py:23 | `int(str(m)) == m` for a natural number |
| Text.ParseNegatedNatToString | app/core/auth_jwt.py:23 | `int("-" + str(m)) == -m` for a natural number |
| Text.ParseIntToString | app/core/auth_jwt.py:23 | `int(str(n)) == n` for every integer: a user id written as the subject reads back as itself |
| Auth.Register | app/api/auth.py:16-39 | BadRequest for mismatched passwords, then Conflict for a taken normalised e-mail, both with the tables untouched. Otherwise one active user with the normalised e-mail and the given full name is appended, and the e-mail finds it |
| Auth.RegisterTwice | app/api/auth.py:21-23 | after a successful registration, registering an e-mail that normalises alike is Conflict, and exactly one user has been added |
| Auth.NormalizedAddressesCollide | app/api/auth.py:17 | " A@b.c " and "a@b.c" have the same normal form, "a@b.c" |
| Users.Updated | app/api/users.py:24-31 | the full name replaced only when supplied and the e-mail only when supplied, normalised; id and active flag kept |
| Users.UpdateMe | app/api/users.py:18-39 | BadRequest for a supplied e-mail that is blank after stripping; Conflict when another user has the normalised e-mail; both leave the tables untouched. Otherwise only the caller's row becomes `Updated`, and its id and e-mail find it |
| Users.DeleteMe | app/api/users.py:42-52 | only the caller's row changes, to inactive; afterwards no header and no decoder authenticate as the caller |

## Left out

- Token creation and decoding (`app/core/jwt.py`) are not part of this model. `GetCurrentUser` takes the decoder as a parameter: a total function that answers None for every token the real decoder rejects.
- Password hashing (`app/core/password.py`) is not part of this model. The passwords matter only for the equality check in registration.
- Timestamps (`created_at`, `updated_at`) are not modelled: server clocks with no bearing on any decision.
- The SQL session is not modelled: flush, commit and `IntegrityError`. It is replaced by explicit checks of the unique and foreign-key constraints on in-memory tables, and HTTP status codes become the `Error` datatype.
  - Each error path leaves the tables as they were. This matches the rollback of the test harness's session (tests/conftest.py:27-36).
  - The production `get_db` (app/db/session.py:23-25) never commits. That is configuration, not logic, and is not modelled.
- FastAPI dependency injection and routing are not modelled. `app/main.py` mounts only the health router.
  - The `Mock` and `Users` endpoints take the tables and the already-resolved caller as arguments.
  - The `Admin.*` members take no caller: they are the route bodies once the route's `require_permission` gate has passed. `Rbac.Guard` shows how resolving the caller and that gate compose.
  - The gates (app/api/admin.py:30-302): `rbac_roles` guards the role routes (list and get read, create, update, delete); `rbac_rules` guards the element routes (list and get read, create, update, delete) and the rule routes (list and get read, upsert update); `rbac_user_roles` guards the membership routes (list read, add create, remove delete).
- Concurrency and transaction isolation are not modelled: the model is sequential.
- Text is ASCII only:
  - `lower()` folds only A-Z;
  - whitespace is the ASCII whitespace Python's `str.isspace()` accepts;
  - `int()` takes an optional sign and decimal digits inside whitespace, without Python's `_` digit separators or non-ASCII digits.
- `read_me` (app/api/users.py:13-15) returns the resolved caller unchanged, which is `AuthJwt.GetCurrentUser` itself. It has no member of its own.
- `has_all_permission` is imported by app/api/mock.py:5 but not defined in app/core/rbac.py. It is modelled, as an explicit assumption, by `Rbac.HasAllPermission`: some matching rule carries the action's blanket flag (create: the create flag). `Rbac.AllPermissionIsUnowned` proves it equal to the evaluator asked with no owner.
- The request schemas' length checks (app/schemas/rbac_schema.py:5, 9, 20 and app/schemas/auth_schema.py:7-9, 24) are preconditions of the endpoints. Pydantic checks them before stripping, so a name of blanks passes and is stored stripped to the empty string; the model does the same.
- `Seed.SeedDemoData`, `Seed.SeedAccounts`, `Seed.SeedUsers`: these run the corrected helper `Seed.GetOrCreateUserFixed` at lines 126-127, so they reach `Seeded` even when an account already has a full name. The seeder as written is `Seed.SeedDemoDataAsWritten` (through `Seed.SeedUsersAsWritten`): in that case it fails with Conflict and the `SessionLocal.begin()` block (line 122) rolls everything back (see Findings).
- Foreign keys: the model follows a database that enforces them. The repository's SQLite test database (tests/conftest.py:8) never turns on SQLite's `foreign_keys` pragma, so there these deletes and inserts would go through. Members that rely on enforcement:
  - `Admin.DeleteRole` and `Admin.DeleteElement`: their Conflict while a row references the one being deleted;
  - `Seed.GetOrUpdateRule` and `Seed.GetOrCreateUserRole`: their Conflict for a dangling role, element or user id (the source does not check these ids itself);
  - `Session.Database.Valid`: its `RuleRefs` and `MembershipRefs` parts.
- Ids: each table's new ids come from a counter in `nextIds` that only grows, and a rejected insert does not advance it. The real database assigns ids itself. SQLite reuses the highest id after it is deleted, and PostgreSQL spends a sequence value on a rejected insert. So the exact id clauses (`old(db.nextIds...)`) of `Admin.CreateRole`, `Admin.CreateElement`, `Admin.UpsertRule`, `Auth.Register`, `Seed.GetOrCreateRole`, `Seed.GetOrCreateUser`, `Seed.GetOrCreateUserFixed` and `Seed.GetOrCreateElement` and `Seed.GetOrUpdateRule`, and the sequences restored by `Session.Database.Restore`, describe the model's counter. Every other property relies only on new ids being fresh and above every stored id (`IdsBelow`).
- `Seed.GetOrCreateUser`: on the Conflict path the model shows the helper's own pending change (the re-activation). The enclosing `SessionLocal.begin()` block then rolls the whole run back, as `Seed.SeedDemoDataAsWritten` does.
- `Admin.DeleteRole`: a role is in use when a rule or a membership references it. Both are foreign keys to `roles.id` (app/models/access_role_rule.py:28-30, app/models/user_role.py:17-21). The `role is used` message (app/api/admin.py:79) does not say which reference blocks the delete, and the model treats both alike.
- There is no endpoint that deletes a rule, so none is modelled.
- Settings, engine creation, `init_db` and the health endpoint are I/O and configuration, and are not modelled.
- `print` calls in the seeder are output only, and are not modelled.

## Findings

| source | as written | input that shows it | evidently intended | confidence | as-written member | corrected member |
|---|---|---|---|---|---|---|
| app/db/generate_demo_data.py:34-39 | `return user` sits inside `if user.full_name is None`. An existing user who already has a full name is re-activated, and control then falls through to inserting a second user with the same e-mail, which the unique index rejects | a second seeding run: the users table already holds "admin@mail.ru" with the full name "Admin" | return the existing user in every case, filling in the full name only when it is empty | high; not executed | Seed.ReseedUserAsWritten | Seed.ReseedUserFixed |
