/**
 Sidebar menus, roles and the shared menu cache
 (src/core/sidebar-menu/sidebar-menu.service.ts, src/core/roles/roles.service.ts).

 Collections are sequences in natural order; a soft-deleted document stays in its
 collection but is hidden from every query, as the schema middleware arranges.
 */
module AdminBackend {
  import opened Common
  import opened MenuTree

  datatype Role = Role(id: string, name: string, key: string, permissions: seq<string>, deleted: bool)

  datatype User = Anonymous | SignedIn(roleKey: Option<string>)

  datatype Error = Invalid | NotFound | Conflict | Forbidden | DuplicateKey

  datatype State = State(menus: seq<Menu>, roles: seq<Role>, cache: map<string, seq<Tree>>)

  datatype Outcome = Done(state: State) | Failed(error: Error)

  datatype MenuDraft = MenuDraft(
    name: string, path: string, parent: Option<string>, permissionKey: string,
    order: Option<int>, isActive: bool, isVisible: bool, group: Option<string>)

  datatype MenuPatch = MenuPatch(
    name: Option<string>, path: Option<string>, parent: Option<Option<string>>, permissionKey: Option<string>,
    order: Option<int>, isActive: Option<bool>, isVisible: Option<bool>, group: Option<string>)

  datatype RoleDraft = RoleDraft(name: string, key: string, permissions: Option<seq<string>>)

  datatype RolePatch = RolePatch(name: Option<string>, key: Option<string>, permissions: Option<seq<string>>)

  const SUPER_ADMIN := "super_admin"
  const UNKNOWN := "unknown"
  const SUPER_ADMIN_CONTROLS := "super admin controls"
  const WILDCARD := "*"

  const PROTECTED_PERMISSIONS := [
    "sidebar-menu.view", "sidebar-menu.create", "sidebar-menu.update", "sidebar-menu.delete",
    "sidebar-menu.read_all", "feature-toggle.view", "feature-toggle.update",
    "settings.view", "settings.update", "support-ticket.view", "support-ticket.update"]

  function Or<T>(o: Option<T>, default: T): T {
    if o.Some? then o.value else default
  }

  // ---- Text helpers ---------------------------------------------------------------

  function ToLower(s: string): string {
    seq(|s|, i requires 0 <= i < |s| => if 'A' <= s[i] <= 'Z' then s[i] - 'A' + 'a' else s[i])
  }

  function LowerGroup(group: Option<string>): Option<string> {
    if group.Some? then Some(ToLower(group.value)) else None
  }

  /** Drops the quotes that seeded permissions sometimes carry. */
  function StripQuotes(p: string): string {
    if p == "" then ""
    else (if p[0] == '\'' || p[0] == '"' then "" else [p[0]]) + StripQuotes(p[1..])
  }

  function Clean(permissions: seq<string>): seq<string> {
    seq(|permissions|, i requires 0 <= i < |permissions| => StripQuotes(permissions[i]))
  }

  // ---- What a role sees -------------------------------------------------------------

  predicate Listed(m: Menu, superAdmin: bool) {
    !m.deleted && m.isActive && (superAdmin || m.isVisible)
  }

  predicate Permitted(m: Menu, superAdmin: bool, permissions: seq<string>) {
    superAdmin
    || (LowerGroup(m.group) != Some(SUPER_ADMIN_CONTROLS)
        && (WILDCARD in permissions || m.permissionKey in permissions))
  }

  function ListedMenus(menus: seq<Menu>, superAdmin: bool): seq<Menu> {
    if menus == [] then []
    else
      var m := menus[|menus| - 1];
      ListedMenus(menus[..|menus| - 1], superAdmin) + (if Listed(m, superAdmin) then [m] else [])
  }

  function PermittedMenus(menus: seq<Menu>, superAdmin: bool, permissions: seq<string>): seq<Menu> {
    if menus == [] then []
    else
      var m := menus[|menus| - 1];
      PermittedMenus(menus[..|menus| - 1], superAdmin, permissions)
      + (if Permitted(m, superAdmin, permissions) then [m] else [])
  }

  predicate SortedByOrder(s: seq<Menu>) {
    forall i, j | 0 <= i < j < |s| :: s[i].order <= s[j].order
  }

  /** Places `m` behind everything that does not come after it. */
  function Insert(s: seq<Menu>, m: Menu): seq<Menu> {
    if s == [] || s[|s| - 1].order <= m.order then s + [m]
    else Insert(s[..|s| - 1], m) + [s[|s| - 1]]
  }

  function SortByOrder(s: seq<Menu>): seq<Menu> {
    if s == [] then [] else Insert(SortByOrder(s[..|s| - 1]), s[|s| - 1])
  }

  lemma {:induction false} ListedMembers(menus: seq<Menu>, superAdmin: bool)
    ensures forall m :: m in ListedMenus(menus, superAdmin) <==> m in menus && Listed(m, superAdmin)
  {
    if menus != [] {
      ListedMembers(menus[..|menus| - 1], superAdmin);
      assert menus == menus[..|menus| - 1] + [menus[|menus| - 1]];
    }
  }

  lemma {:induction false} PermittedMembers(menus: seq<Menu>, superAdmin: bool, permissions: seq<string>)
    ensures forall m :: m in PermittedMenus(menus, superAdmin, permissions)
                        <==> m in menus && Permitted(m, superAdmin, permissions)
  {
    if menus != [] {
      PermittedMembers(menus[..|menus| - 1], superAdmin, permissions);
      assert menus == menus[..|menus| - 1] + [menus[|menus| - 1]];
    }
  }

  lemma {:induction false} InsertMembers(s: seq<Menu>, m: Menu)
    ensures forall x :: x in Insert(s, m) <==> x in s || x == m
  {
    if s != [] && s[|s| - 1].order > m.order {
      InsertMembers(s[..|s| - 1], m);
      assert s == s[..|s| - 1] + [s[|s| - 1]];
    }
  }

  lemma {:induction false} SortMembers(s: seq<Menu>)
    ensures forall x :: x in SortByOrder(s) <==> x in s
  {
    if s != [] {
      SortMembers(s[..|s| - 1]);
      InsertMembers(SortByOrder(s[..|s| - 1]), s[|s| - 1]);
      assert s == s[..|s| - 1] + [s[|s| - 1]];
    }
  }

  /** A role is shown exactly the listed items it is permitted. */
  lemma ShownMembers(menus: seq<Menu>, key: string, permissions: seq<string>)
    ensures var superAdmin := key == SUPER_ADMIN;
            forall m :: m in Shown(menus, key, permissions)
                        <==> m in menus && Listed(m, superAdmin) && Permitted(m, superAdmin, Clean(permissions))
  {
    var superAdmin := key == SUPER_ADMIN;
    var listed := ListedMenus(menus, superAdmin);
    ListedMembers(menus, superAdmin);
    SortMembers(listed);
    PermittedMembers(SortByOrder(listed), superAdmin, Clean(permissions));
  }

  lemma {:induction false} InsertSorted(s: seq<Menu>, m: Menu)
    requires SortedByOrder(s)
    ensures SortedByOrder(Insert(s, m))
  {
    if s != [] && s[|s| - 1].order > m.order {
      var front, last := s[..|s| - 1], s[|s| - 1];
      InsertSorted(front, m);
      InsertMembers(front, m);
      var f := Insert(front, m);
      forall i | 0 <= i < |f|
        ensures f[i].order <= last.order
      {
        if f[i] != m {
          assert f[i] in front;
        }
      }
    }
  }

  lemma {:induction false} SortSorted(s: seq<Menu>)
    ensures SortedByOrder(SortByOrder(s))
  {
    if s != [] {
      SortSorted(s[..|s| - 1]);
      InsertSorted(SortByOrder(s[..|s| - 1]), s[|s| - 1]);
    }
  }

  /** The flat list `getUserSidebarMenus` hands to `buildTree`. */
  function Shown(menus: seq<Menu>, key: string, permissions: seq<string>): seq<Menu> {
    var superAdmin := key == SUPER_ADMIN;
    PermittedMenus(SortByOrder(ListedMenus(menus, superAdmin)), superAdmin, Clean(permissions))
  }

  lemma {:induction false} ListedKeepsUnique(menus: seq<Menu>, superAdmin: bool)
    requires UniqueIds(menus)
    ensures UniqueIds(ListedMenus(menus, superAdmin))
  {
    if menus != [] {
      var front, m := menus[..|menus| - 1], menus[|menus| - 1];
      ListedKeepsUnique(front, superAdmin);
      ListedMembers(front, superAdmin);
      NewIdIsFresh(menus, ListedMenus(front, superAdmin));
    }
  }

  lemma {:induction false} PermittedKeepsUnique(menus: seq<Menu>, superAdmin: bool, permissions: seq<string>)
    requires UniqueIds(menus)
    ensures UniqueIds(PermittedMenus(menus, superAdmin, permissions))
  {
    if menus != [] {
      var front := menus[..|menus| - 1];
      PermittedKeepsUnique(front, superAdmin, permissions);
      PermittedMembers(front, superAdmin, permissions);
      NewIdIsFresh(menus, PermittedMenus(front, superAdmin, permissions));
    }
  }

  lemma NewIdIsFresh(menus: seq<Menu>, kept: seq<Menu>)
    requires UniqueIds(menus) && menus != []
    requires forall m | m in kept :: m in menus[..|menus| - 1]
    ensures forall m | m in kept :: m.id != menus[|menus| - 1].id
  {
  }

  lemma {:induction false} InsertKeepsUnique(s: seq<Menu>, m: Menu)
    requires UniqueIds(s) && forall x | x in s :: x.id != m.id
    ensures UniqueIds(Insert(s, m))
  {
    if s != [] && s[|s| - 1].order > m.order {
      var front := s[..|s| - 1];
      InsertKeepsUnique(front, m);
      InsertMembers(front, m);
      NewIdIsFresh(s, front);
      assert s[|s| - 1] in s;
    }
  }

  lemma {:induction false} SortKeepsUnique(s: seq<Menu>)
    requires UniqueIds(s)
    ensures UniqueIds(SortByOrder(s))
  {
    if s != [] {
      SortKeepsUnique(s[..|s| - 1]);
      SortMembers(s[..|s| - 1]);
      NewIdIsFresh(s, SortByOrder(s[..|s| - 1]));
      InsertKeepsUnique(SortByOrder(s[..|s| - 1]), s[|s| - 1]);
    }
  }

  lemma ShownIsUnique(menus: seq<Menu>, key: string, permissions: seq<string>)
    requires UniqueIds(menus)
    ensures UniqueIds(Shown(menus, key, permissions))
  {
    var superAdmin := key == SUPER_ADMIN;
    ListedKeepsUnique(menus, superAdmin);
    SortKeepsUnique(ListedMenus(menus, superAdmin));
    PermittedKeepsUnique(SortByOrder(ListedMenus(menus, superAdmin)), superAdmin, Clean(permissions));
  }

  /** The tree of a role, computed from the menus without any cache. */
  function TreeFor(menus: seq<Menu>, key: string, permissions: seq<string>): seq<Tree>
    requires UniqueIds(menus)
  {
    ShownIsUnique(menus, key, permissions);
    Forest(Shown(menus, key, permissions), [], None)
  }

  /** Enlarging a role's permissions never removes a node from its tree. */
  lemma MorePermissionsKeepNodes(menus: seq<Menu>, key: string, few: seq<string>, many: seq<string>, id: string)
    requires UniqueIds(menus)
    requires forall p | p in few :: p in many
    requires id in Ids(TreeFor(menus, key, few))
    ensures id in Ids(TreeFor(menus, key, many))
  {
    var before, after := Shown(menus, key, few), Shown(menus, key, many);
    ShownIsUnique(menus, key, few);
    ShownIsUnique(menus, key, many);
    ForestHoldsRootedOnce(before);
    ForestHoldsRootedOnce(after);
    CleanGrows(few, many);
    ShownMembers(menus, key, few);
    ShownMembers(menus, key, many);
    RootedMonotone(before, after, id);
  }

  lemma CleanGrows(few: seq<string>, many: seq<string>)
    requires forall p | p in few :: p in many
    ensures forall q | q in Clean(few) :: q in Clean(many)
  {
    forall q | q in Clean(few)
      ensures q in Clean(many)
    {
      var i :| 0 <= i < |few| && Clean(few)[i] == q;
      assert few[i] in many;
      var j :| 0 <= j < |many| && many[j] == few[i];
      assert Clean(many)[j] == q;
    }
  }

  // ---- Menu commands -----------------------------------------------------------------

  function Cleared(cache: map<string, seq<Tree>>, clears: bool): map<string, seq<Tree>> {
    if clears then map[] else cache
  }

  predicate PathTaken(menus: seq<Menu>, path: string, except: Option<string>) {
    exists m :: m in menus && !m.deleted && m.path == path && Some(m.id) != except
  }

  predicate IsSibling(m: Menu, parent: Option<string>) {
    !m.deleted && m.parent == parent
  }

  /** The `order` values of the live items below a parent, in natural order. */
  function Orders(menus: seq<Menu>, parent: Option<string>): (r: seq<int>)
    ensures forall v :: v in r <==> exists m :: m in menus && IsSibling(m, parent) && m.order == v
  {
    if menus == [] then []
    else
      var front, m := menus[..|menus| - 1], menus[|menus| - 1];
      assert menus == front + [m];
      Orders(front, parent) + (if IsSibling(m, parent) then [m.order] else [])
  }

  function Highest(s: seq<int>): (r: int)
    requires s != []
    ensures r in s && forall i | 0 <= i < |s| :: s[i] <= r
  {
    if |s| == 1 then s[0]
    else
      var h := Highest(s[1..]);
      assert forall i | 1 <= i < |s| :: s[i] == s[1..][i - 1];
      if s[0] > h then s[0] else h
  }

  function NextOrder(menus: seq<Menu>, parent: Option<string>): int {
    var orders := Orders(menus, parent);
    if orders == [] then 0 else Highest(orders) + 1
  }

  function Drafted(menus: seq<Menu>, id: string, d: MenuDraft): Menu {
    Menu(id, d.name, d.path, d.parent, d.permissionKey,
         Or(d.order, NextOrder(menus, d.parent)), d.isActive, d.isVisible, LowerGroup(d.group), false)
  }

  function CreateMenuSpec(s: State, id: string, d: MenuDraft, clears: bool): Outcome {
    if PathTaken(s.menus, d.path, None) then Failed(Conflict)
    else if exists m :: m in s.menus && m.id == id then Failed(DuplicateKey)
    else Done(s.(menus := s.menus + [Drafted(s.menus, id, d)], cache := Cleared(s.cache, clears)))
  }

  function Patched(m: Menu, p: MenuPatch): Menu {
    Menu(m.id, Or(p.name, m.name), Or(p.path, m.path), Or(p.parent, m.parent),
         Or(p.permissionKey, m.permissionKey), Or(p.order, m.order), Or(p.isActive, m.isActive),
         Or(p.isVisible, m.isVisible), if p.group.Some? then LowerGroup(p.group) else m.group, m.deleted)
  }

  predicate LiveMenu(menus: seq<Menu>, id: string) {
    exists m :: m in menus && !m.deleted && m.id == id
  }

  function PatchAll(menus: seq<Menu>, id: string, p: MenuPatch): seq<Menu> {
    seq(|menus|, i requires 0 <= i < |menus| =>
      if menus[i].id == id && !menus[i].deleted then Patched(menus[i], p) else menus[i])
  }

  function UpdateMenuSpec(s: State, id: string, p: MenuPatch, clears: bool): Outcome {
    if p.path.Some? && p.path.value != "" && PathTaken(s.menus, p.path.value, Some(id)) then Failed(Conflict)
    else if !LiveMenu(s.menus, id) then Failed(NotFound)
    else Done(s.(menus := PatchAll(s.menus, id, p), cache := Cleared(s.cache, clears)))
  }

  function FindMenu(menus: seq<Menu>, id: string): (r: Option<Menu>)
    ensures r.Some? <==> LiveMenu(menus, id)
    ensures r.Some? ==> r.value in menus && !r.value.deleted && r.value.id == id
  {
    if menus == [] then None
    else if menus[0].id == id && !menus[0].deleted then Some(menus[0])
    else
      assert menus == [menus[0]] + menus[1..];
      FindMenu(menus[1..], id)
  }

  /** Soft delete, then close the gap among the live items of the same parent. */
  function MarkDeleted(menus: seq<Menu>, id: string): seq<Menu> {
    seq(|menus|, i requires 0 <= i < |menus| =>
      if menus[i].id == id then menus[i].(deleted := true) else menus[i])
  }

  function ShiftUp(menus: seq<Menu>, parent: Option<string>, order: int): seq<Menu> {
    seq(|menus|, i requires 0 <= i < |menus| =>
      if IsSibling(menus[i], parent) && menus[i].order > order then menus[i].(order := menus[i].order - 1)
      else menus[i])
  }

  function DeleteMenuSpec(s: State, id: string, clears: bool): Outcome {
    match FindMenu(s.menus, id)
    case None => Failed(NotFound)
    case Some(m) =>
      Done(s.(menus := ShiftUp(MarkDeleted(s.menus, id), m.parent, m.order), cache := Cleared(s.cache, clears)))
  }

  // ---- Role commands -------------------------------------------------------------------

  predicate IsSuper(user: User) {
    user.SignedIn? && user.roleKey == Some(SUPER_ADMIN)
  }

  predicate Restricted(user: User) {
    user.SignedIn? && !IsSuper(user)
  }

  function KeepProtected(permissions: seq<string>): (r: seq<string>)
    ensures forall p :: p in r <==> p in permissions && p in PROTECTED_PERMISSIONS
  {
    if permissions == [] then []
    else
      assert permissions == [permissions[0]] + permissions[1..];
      (if permissions[0] in PROTECTED_PERMISSIONS then [permissions[0]] else []) + KeepProtected(permissions[1..])
  }

  predicate TakenBy(r: Role, name: string, key: string) {
    (name != "" && r.name == name) || (key != "" && r.key == key)
  }

  /** The unique indexes on name and roleKey, which also cover soft-deleted roles. */
  predicate IndexClash(roles: seq<Role>, except: string, name: string, key: string) {
    exists r :: r in roles && r.id != except && (r.name == name || r.key == key)
  }

  function CreateRoleSpec(s: State, id: string, d: RoleDraft, user: User): Outcome {
    if Restricted(user) && d.permissions.Some?
       && (WILDCARD in d.permissions.value || KeepProtected(d.permissions.value) != []) then Failed(Forbidden)
    else if exists r :: r in s.roles && !r.deleted && (r.name == d.name || r.key == d.key) then Failed(Conflict)
    else if d.name == "" || d.key == "" then Failed(Invalid)
    else if exists r :: r in s.roles && (r.id == id || r.name == d.name || r.key == d.key) then Failed(DuplicateKey)
    else Done(s.(roles := s.roles + [Role(id, d.name, d.key, Or(d.permissions, []), false)]))
  }

  function FindRole(roles: seq<Role>, id: string): (r: Option<Role>)
    ensures r.Some? <==> exists x :: x in roles && !x.deleted && x.id == id
    ensures r.Some? ==> r.value in roles && !r.value.deleted && r.value.id == id
  {
    if roles == [] then None
    else if roles[0].id == id && !roles[0].deleted then Some(roles[0])
    else
      assert roles == [roles[0]] + roles[1..];
      FindRole(roles[1..], id)
  }

  predicate Escalates(current: seq<string>, wanted: seq<string>) {
    exists p :: p in wanted && p !in current && (p == WILDCARD || p in PROTECTED_PERMISSIONS)
  }

  /** The permissions an update stores: a restricted user keeps the protected ones in place. */
  function StoredPermissions(role: Role, p: RolePatch, user: User): seq<string> {
    if p.permissions.None? then role.permissions
    else if Restricted(user) then Distinct(p.permissions.value + KeepProtected(role.permissions))
    else p.permissions.value
  }

  function ReplaceRole(roles: seq<Role>, role: Role): seq<Role> {
    seq(|roles|, i requires 0 <= i < |roles| => if roles[i].id == role.id then role else roles[i])
  }

  function UpdateRoleSpec(s: State, id: string, p: RolePatch, user: User, clears: bool): Outcome {
    match FindRole(s.roles, id)
    case None => Failed(NotFound)
    case Some(role) =>
      var name, key := Or(p.name, role.name), Or(p.key, role.key);
      if role.key == SUPER_ADMIN && !IsSuper(user) then Failed(Forbidden)
      else if p.key == Some(SUPER_ADMIN) && role.key != SUPER_ADMIN then Failed(Forbidden)
      else if Restricted(user) && p.permissions.Some? && Escalates(role.permissions, p.permissions.value) then
        Failed(Forbidden)
      else if exists r :: r in s.roles && !r.deleted && r.id != id && TakenBy(r, Or(p.name, ""), Or(p.key, "")) then
        Failed(Conflict)
      else if IndexClash(s.roles, id, name, key) then Failed(DuplicateKey)
      else
        var updated := Role(id, name, key, StoredPermissions(role, p, user), false);
        Done(s.(roles := ReplaceRole(s.roles, updated), cache := Cleared(s.cache, clears)))
  }

  function RemoveRoleSpec(s: State, id: string, clears: bool): Outcome {
    match FindRole(s.roles, id)
    case None => Failed(NotFound)
    case Some(role) =>
      if role.key == SUPER_ADMIN then Failed(Forbidden)
      else Done(s.(roles := ReplaceRole(s.roles, role.(deleted := true)), cache := Cleared(s.cache, clears)))
  }

  // ---- Reading ---------------------------------------------------------------------------

  /** The role key and permissions that a request of a user with that role carries. */
  function Identity(roles: seq<Role>, roleId: Option<string>): (string, seq<string>) {
    if roleId.None? then (UNKNOWN, [])
    else
      match FindRole(roles, roleId.value)
      case None => (UNKNOWN, [])
      case Some(role) => (if role.key == "" then UNKNOWN else role.key, role.permissions)
  }

  function ReadSpec(s: State, key: string, permissions: seq<string>): (seq<Tree>, State)
    requires UniqueIds(s.menus)
  {
    if key in s.cache then (s.cache[key], s)
    else
      var tree := TreeFor(s.menus, key, permissions);
      (tree, s.(cache := s.cache[key := tree]))
  }

  // ---- Runs ------------------------------------------------------------------------------

  datatype Action =
    | CreateMenu(id: string, draft: MenuDraft, clears: bool)
    | UpdateMenu(id: string, patch: MenuPatch, clears: bool)
    | DeleteMenu(id: string, clears: bool)
    | CreateRole(id: string, roleDraft: RoleDraft, user: User)
    | UpdateRole(id: string, rolePatch: RolePatch, user: User, clears: bool)
    | RemoveRole(id: string, clears: bool)
    | ReadMenus(roleId: Option<string>)
    | Evict(key: string)

  function OutcomeOf(s: State, a: Action): Outcome
    requires UniqueIds(s.menus)
  {
    match a
    case CreateMenu(id, d, clears) => CreateMenuSpec(s, id, d, clears)
    case UpdateMenu(id, p, clears) => UpdateMenuSpec(s, id, p, clears)
    case DeleteMenu(id, clears) => DeleteMenuSpec(s, id, clears)
    case CreateRole(id, d, user) => CreateRoleSpec(s, id, d, user)
    case UpdateRole(id, p, user, clears) => UpdateRoleSpec(s, id, p, user, clears)
    case RemoveRole(id, clears) => RemoveRoleSpec(s, id, clears)
    case ReadMenus(roleId) =>
      var (key, permissions) := Identity(s.roles, roleId);
      Done(ReadSpec(s, key, permissions).1)
    case Evict(key) => Done(s.(cache := s.cache - {key}))
  }

  function Step(s: State, a: Action): (s': State)
    requires UniqueIds(s.menus)
    ensures UniqueIds(s'.menus)
  {
    match OutcomeOf(s, a)
    case Done(s') => s'
    case Failed(_) => s
  }

  function Run(s: State, actions: seq<Action>): (s': State)
    requires UniqueIds(s.menus)
    ensures UniqueIds(s'.menus)
    decreases |actions|
  {
    if actions == [] then s else Run(Step(s, actions[0]), actions[1..])
  }
}
