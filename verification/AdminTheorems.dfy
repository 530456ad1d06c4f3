/** What every run of menu and role commands keeps. */
module AdminTheorems {
  import opened Common
  import opened MenuTree
  import opened AdminBackend

  // ---- Cache coherence ---------------------------------------------------------------

  ghost predicate LiveKey(roles: seq<Role>, key: string) {
    exists r :: r in roles && !r.deleted && r.key == key
  }

  /** Permissions a request under `key` carries now: those of the live role, or none. */
  function PermissionsOf(roles: seq<Role>, key: string): seq<string> {
    if roles == [] then []
    else if !roles[0].deleted && roles[0].key == key then roles[0].permissions
    else PermissionsOf(roles[1..], key)
  }

  lemma {:induction false} NoRoleNoPermissions(roles: seq<Role>, key: string)
    requires !LiveKey(roles, key)
    ensures PermissionsOf(roles, key) == []
  {
    if roles != [] {
      assert roles[0] in roles;
      assert forall r | r in roles[1..] :: r in roles;
      NoRoleNoPermissions(roles[1..], key);
    }
  }

  /** Keys are unique, so the permissions under a key are those of the live role that holds it. */
  lemma {:induction false} PermissionsOfRole(roles: seq<Role>, role: Role)
    requires RolesDistinct(roles) && role in roles && !role.deleted
    ensures PermissionsOf(roles, role.key) == role.permissions
  {
    if roles[0].key == role.key {
      RoleByKey(roles, roles[0], role);
    } else {
      assert roles == [roles[0]] + roles[1..];
      assert forall i | 0 <= i < |roles| - 1 :: roles[1..][i] == roles[i + 1];
      PermissionsOfRole(roles[1..], role);
    }
  }

  ghost predicate RolesDistinct(roles: seq<Role>) {
    forall i, j | 0 <= i < j < |roles| ::
      roles[i].id != roles[j].id && roles[i].name != roles[j].name && roles[i].key != roles[j].key
  }

  ghost predicate Inv(s: State) {
    && UniqueIds(s.menus)
    && RolesDistinct(s.roles)
    && !LiveKey(s.roles, UNKNOWN) && !LiveKey(s.roles, "")
    && forall k | k in s.cache :: k == UNKNOWN || LiveKey(s.roles, k)
  }

  /** Every cached tree is the one a fresh computation would give. */
  ghost predicate Coherent(s: State)
    requires UniqueIds(s.menus)
  {
    forall k :: Current(s, k)
  }

  /** Whatever is cached under `k` is the tree computed from the menus and that key's permissions. */
  ghost predicate Current(s: State, k: string)
    requires UniqueIds(s.menus)
  {
    k in s.cache ==> s.cache[k] == TreeFor(s.menus, k, PermissionsOf(s.roles, k))
  }

  lemma CurrentKept(s: State, s': State, k: string)
    requires UniqueIds(s.menus) && Current(s, k)
    requires s'.menus == s.menus && PermissionsOf(s'.roles, k) == PermissionsOf(s.roles, k)
    requires k in s'.cache ==> k in s.cache && s'.cache[k] == s.cache[k]
    ensures Current(s', k)
  {
    hide TreeFor, PermissionsOf;
  }

  /** The cache is really cleared, and no role takes the key that stands for "no role". */
  predicate Disciplined(a: Action) {
    match a
    case CreateMenu(_, _, clears) => clears
    case UpdateMenu(_, _, clears) => clears
    case DeleteMenu(_, clears) => clears
    case CreateRole(_, d, _) => d.key != UNKNOWN
    case UpdateRole(_, p, _, clears) => clears && p.key != Some(UNKNOWN) && p.key != Some("")
    case RemoveRole(_, clears) => clears
    case ReadMenus(_) => true
    case Evict(_) => true
  }

  lemma RoleByKey(roles: seq<Role>, a: Role, b: Role)
    requires RolesDistinct(roles) && a in roles && b in roles
    requires a.key == b.key || a.name == b.name || a.id == b.id
    ensures a == b
  {
  }

  lemma ReplaceRoleFacts(roles: seq<Role>, role: Role, old_: Role)
    requires RolesDistinct(roles) && old_ in roles && old_.id == role.id
    ensures forall r :: r in ReplaceRole(roles, role) <==> r == role || (r in roles && r.id != role.id)
    ensures !IndexClash(roles, role.id, role.name, role.key) ==> RolesDistinct(ReplaceRole(roles, role))
  {
    var after := ReplaceRole(roles, role);
    var k :| 0 <= k < |roles| && roles[k] == old_;
    assert after[k] == role;
    forall r | r in roles && r.id != role.id
      ensures r in after
    {
      var i :| 0 <= i < |roles| && roles[i] == r;
      assert after[i] == r;
    }
    if !IndexClash(roles, role.id, role.name, role.key) {
      forall i, j | 0 <= i < j < |after|
        ensures after[i].id != after[j].id && after[i].name != after[j].name && after[i].key != after[j].key
      {
        assert roles[i] in roles && roles[j] in roles;
        assert roles[i].id != roles[j].id;
      }
    }
  }

  /** A request carries exactly the permissions its role key stands for. */
  lemma IdentityMatchesKey(s: State, roleId: Option<string>)
    requires Inv(s)
    ensures var (key, permissions) := Identity(s.roles, roleId);
            && permissions == PermissionsOf(s.roles, key)
            && (key == UNKNOWN || LiveKey(s.roles, key))
  {
    var (key, permissions) := Identity(s.roles, roleId);
    if roleId.Some? && FindRole(s.roles, roleId.value).Some? {
      var role := FindRole(s.roles, roleId.value).value;
      assert LiveKey(s.roles, role.key);
      PermissionsOfRole(s.roles, role);
    } else {
      NoRoleNoPermissions(s.roles, UNKNOWN);
    }
  }

  /** Served from the cache or not, a request gets the tree computed from the current data. */
  lemma ReadIsTransparent(s: State, roleId: Option<string>)
    requires Inv(s) && Coherent(s)
    ensures var (key, permissions) := Identity(s.roles, roleId);
            ReadSpec(s, key, permissions).0 == TreeFor(s.menus, key, permissions)
  {
    hide TreeFor, PermissionsOf;
    IdentityMatchesKey(s, roleId);
    assert Current(s, Identity(s.roles, roleId).0);
  }

  lemma CreateRoleKeepsInv(s: State, id: string, d: RoleDraft, user: User)
    requires Inv(s) && CreateRoleSpec(s, id, d, user).Done? && d.key != UNKNOWN
    ensures Inv(CreateRoleSpec(s, id, d, user).state)
    ensures d.key !in s.cache
    ensures forall k | k != d.key ::
              PermissionsOf(CreateRoleSpec(s, id, d, user).state.roles, k) == PermissionsOf(s.roles, k)
  {
    var s' := CreateRoleSpec(s, id, d, user).state;
    var role := s'.roles[|s.roles|];
    assert s'.roles == s.roles + [role];
    assert forall r :: r in s'.roles <==> r in s.roles || r == role;
    assert forall i | 0 <= i < |s.roles| :: s'.roles[i] == s.roles[i] && s.roles[i] in s.roles;
    assert !LiveKey(s.roles, d.key);
    AppendKeepsPermissions(s.roles, role);
    forall k | k in s'.cache
      ensures k == UNKNOWN || LiveKey(s'.roles, k)
    {
      if k != UNKNOWN {
        var r :| r in s.roles && !r.deleted && r.key == k;
        assert r in s'.roles;
      }
    }
  }

  lemma {:induction false} AppendKeepsPermissions(roles: seq<Role>, role: Role)
    ensures forall k | k != role.key :: PermissionsOf(roles + [role], k) == PermissionsOf(roles, k)
  {
    if roles != [] {
      AppendKeepsPermissions(roles[1..], role);
      assert (roles + [role])[1..] == roles[1..] + [role];
    }
  }

  lemma UpdateRoleKeepsInv(s: State, id: string, p: RolePatch, user: User, clears: bool)
    requires Inv(s) && UpdateRoleSpec(s, id, p, user, clears).Done?
    requires clears && p.key != Some(UNKNOWN) && p.key != Some("")
    ensures Inv(UpdateRoleSpec(s, id, p, user, clears).state)
  {
    var role := FindRole(s.roles, id).value;
    var updated := Role(id, Or(p.name, role.name), Or(p.key, role.key), StoredPermissions(role, p, user), false);
    ReplaceRoleFacts(s.roles, updated, role);
  }

  lemma RemoveRoleKeepsInv(s: State, id: string)
    requires Inv(s) && RemoveRoleSpec(s, id, true).Done?
    ensures Inv(RemoveRoleSpec(s, id, true).state)
  {
    var role := FindRole(s.roles, id).value;
    forall r | r in s.roles && r.id != id
      ensures r.name != role.name && r.key != role.key
    {
      if r.name == role.name || r.key == role.key {
        RoleByKey(s.roles, r, role);
      }
    }
    ReplaceRoleFacts(s.roles, role.(deleted := true), role);
  }

  lemma MenuStepKeepsCoherence(s: State, a: Action)
    requires Inv(s) && Coherent(s) && Disciplined(a)
    requires a.CreateMenu? || a.UpdateMenu? || a.DeleteMenu?
    ensures Inv(Step(s, a)) && Coherent(Step(s, a))
  {
    var s' := Step(s, a);
    assert s'.roles == s.roles;
    assert s'.cache == map[] || s' == s;
  }

  lemma RoleStepKeepsCoherence(s: State, a: Action)
    requires Inv(s) && Coherent(s) && Disciplined(a)
    requires a.UpdateRole? || a.RemoveRole?
    ensures Inv(Step(s, a)) && Coherent(Step(s, a))
  {
    if OutcomeOf(s, a).Done? {
      if a.UpdateRole? {
        UpdateRoleKeepsInv(s, a.id, a.rolePatch, a.user, a.clears);
      } else {
        RemoveRoleKeepsInv(s, a.id);
      }
      assert Step(s, a).cache == map[];
    }
  }

  lemma CreateRoleKeepsCoherence(s: State, id: string, d: RoleDraft, user: User)
    requires Inv(s) && Coherent(s) && d.key != UNKNOWN
    requires CreateRoleSpec(s, id, d, user).Done?
    ensures Coherent(CreateRoleSpec(s, id, d, user).state)
  {
    hide TreeFor, PermissionsOf;
    CreateRoleKeepsInv(s, id, d, user);
    var s' := CreateRoleSpec(s, id, d, user).state;
    assert s'.cache == s.cache && s'.menus == s.menus;
    forall k
      ensures Current(s', k)
    {
      if k in s.cache {
        assert Current(s, k);
        CurrentKept(s, s', k);
      }
    }
  }

  lemma CachingKeepsCoherence(s: State, key: string, permissions: seq<string>)
    requires Inv(s) && Coherent(s)
    requires permissions == PermissionsOf(s.roles, key) && (key == UNKNOWN || LiveKey(s.roles, key))
    ensures var s' := ReadSpec(s, key, permissions).1;
            s'.menus == s.menus && s'.roles == s.roles && key in s'.cache && Inv(s') && Coherent(s')
  {
    hide TreeFor, PermissionsOf;
    var s' := ReadSpec(s, key, permissions).1;
    forall k
      ensures Current(s', k)
    {
      assert Current(s, k);
      if k != key {
        CurrentKept(s, s', k);
      }
    }
  }

  lemma ReadKeepsCoherence(s: State, roleId: Option<string>)
    requires Inv(s) && Coherent(s)
    ensures Inv(Step(s, ReadMenus(roleId))) && Coherent(Step(s, ReadMenus(roleId)))
  {
    hide TreeFor, PermissionsOf;
    IdentityMatchesKey(s, roleId);
    var (key, permissions) := Identity(s.roles, roleId);
    CachingKeepsCoherence(s, key, permissions);
  }

  lemma StepKeepsCoherence(s: State, a: Action)
    requires Inv(s) && Coherent(s) && Disciplined(a)
    ensures Inv(Step(s, a)) && Coherent(Step(s, a))
  {
    match a
    case CreateRole(id, d, user) =>
      if OutcomeOf(s, a).Done? {
        CreateRoleKeepsInv(s, id, d, user);
        CreateRoleKeepsCoherence(s, id, d, user);
      }
    case ReadMenus(roleId) => ReadKeepsCoherence(s, roleId);
    case Evict(_) =>
      forall k
        ensures Current(Step(s, a), k)
      {
        assert Current(s, k);
        CurrentKept(s, Step(s, a), k);
      }
    case UpdateRole(_, _, _, _) => RoleStepKeepsCoherence(s, a);
    case RemoveRole(_, _) => RoleStepKeepsCoherence(s, a);
    case _ => MenuStepKeepsCoherence(s, a);
  }

  /** In every reachable state each cached tree is current, so every read is. */
  lemma {:induction false} RunsKeepCacheCoherent(s: State, actions: seq<Action>)
    requires Inv(s) && Coherent(s)
    requires forall a | a in actions :: Disciplined(a)
    ensures Inv(Run(s, actions)) && Coherent(Run(s, actions))
    decreases |actions|
  {
    if actions != [] {
      StepKeepsCoherence(s, actions[0]);
      RunsKeepCacheCoherent(Step(s, actions[0]), actions[1..]);
    }
  }

  // ---- The key that stands for "no role" --------------------------------------------------

  /** A role with this key and these permissions is shown this item, wherever its parent is. */
  predicate Shows(m: Menu, key: string, permissions: seq<string>) {
    Listed(m, key == SUPER_ADMIN) && Permitted(m, key == SUPER_ADMIN, Clean(permissions))
  }

  ghost predicate ShowsSomeRoot(menus: seq<Menu>, key: string, permissions: seq<string>) {
    exists m :: m in menus && m.parent == None && Shows(m, key, permissions)
  }

  lemma EmptyTreeIff(menus: seq<Menu>, key: string, permissions: seq<string>)
    requires UniqueIds(menus)
    ensures TreeFor(menus, key, permissions) == [] <==> !ShowsSomeRoot(menus, key, permissions)
  {
    hide Shown, Listed, Permitted;
    ShownMembers(menus, key, permissions);
    ShownIsUnique(menus, key, permissions);
    var roots := ChildrenOf(Shown(menus, key, permissions), None);
    assert |TreeFor(menus, key, permissions)| == |roots|;
    assert roots != [] ==> roots[0] in roots;
  }

  lemma NothingWithoutPermissions(menus: seq<Menu>, key: string, none: seq<string>)
    requires UniqueIds(menus) && key != SUPER_ADMIN && none == []
    ensures TreeFor(menus, key, none) == []
  {
    hide TreeFor;
    EmptyTreeIff(menus, key, none);
    assert Clean(none) == [];
  }

  /**
   Role creation is the one write that leaves the cache alone. It keeps the cache coherent, except exactly when the
   role takes the reserved key, a tree is cached under that key, and the new permissions show some root item.
   */
  lemma CreateRoleCoherentIff(s: State, id: string, d: RoleDraft, user: User)
    requires Inv(s) && Coherent(s) && CreateRoleSpec(s, id, d, user).Done?
    ensures Coherent(CreateRoleSpec(s, id, d, user).state) <==>
            !(d.key == UNKNOWN && UNKNOWN in s.cache && ShowsSomeRoot(s.menus, UNKNOWN, Or(d.permissions, [])))
  {
    hide TreeFor, PermissionsOf, ShowsSomeRoot;
    if d.key != UNKNOWN {
      CreateRoleKeepsCoherence(s, id, d, user);
    } else {
      var s' := CreateRoleSpec(s, id, d, user).state;
      assert s'.cache == s.cache && s'.menus == s.menus;
      ReservedRolePermissions(s, id, d, user);
      NoRoleNoPermissions(s.roles, UNKNOWN);
      EmptyTreeIff(s.menus, UNKNOWN, Or(d.permissions, []));
      NothingWithoutPermissions(s.menus, UNKNOWN, []);
      assert Current(s, UNKNOWN);
      forall k | k != UNKNOWN
        ensures Current(s', k)
      {
        assert Current(s, k);
        CurrentKept(s, s', k);
      }
      assert Coherent(s') <==> Current(s', UNKNOWN);
    }
  }

  /**
   The holder of such a role and a user without one share a cache entry: whoever reads first, the other is answered
   right exactly if the role's permissions show no root item.
   */
  lemma ReservedHolderSharesEntry(s: State, role: Role)
    requires UniqueIds(s.menus) && RolesDistinct(s.roles) && UNKNOWN !in s.cache
    requires role in s.roles && !role.deleted && role.key == UNKNOWN
    ensures var holder, nobody := Identity(s.roles, Some(role.id)), Identity(s.roles, None);
            var held, roleless := Step(s, ReadMenus(Some(role.id))), Step(s, ReadMenus(None));
            && (ReadSpec(held, nobody.0, nobody.1).0 == TreeFor(s.menus, nobody.0, nobody.1)
                <==> !ShowsSomeRoot(s.menus, UNKNOWN, role.permissions))
            && (ReadSpec(roleless, holder.0, holder.1).0 == TreeFor(s.menus, holder.0, holder.1)
                <==> !ShowsSomeRoot(s.menus, UNKNOWN, role.permissions))
  {
    hide TreeFor, ShowsSomeRoot;
    RoleByKey(s.roles, FindRole(s.roles, role.id).value, role);
    EmptyTreeIff(s.menus, UNKNOWN, role.permissions);
    NothingWithoutPermissions(s.menus, UNKNOWN, []);
  }

  lemma ReservedRolePermissions(s: State, id: string, d: RoleDraft, user: User)
    requires Inv(s) && CreateRoleSpec(s, id, d, user).Done? && d.key == UNKNOWN
    ensures var roles := CreateRoleSpec(s, id, d, user).state.roles;
            && PermissionsOf(roles, UNKNOWN) == Or(d.permissions, [])
            && forall k | k != UNKNOWN :: PermissionsOf(roles, k) == PermissionsOf(s.roles, k)
  {
    var roles := CreateRoleSpec(s, id, d, user).state.roles;
    var role := roles[|s.roles|];
    assert roles == s.roles + [role];
    AppendKeepsPermissions(s.roles, role);
    assert role in roles;
    assert forall i | 0 <= i < |s.roles| :: roles[i] == s.roles[i] && s.roles[i] in s.roles;
    PermissionsOfRole(roles, role);
  }

  predicate PlainRoot(m: Menu) {
    !m.deleted && m.isActive && m.isVisible && m.parent == None && m.group == None
  }

  /**
   A role keyed "unknown" does break coherence: while the tree of role-less users is cached for
   a one-item system, any user's creating such a role with a permission for the item leaves that entry stale.
   */
  lemma ReservedKeyBreaksCoherence(s: State, m: Menu, id: string, d: RoleDraft, user: User, after: State)
    requires Inv(s) && s.menus == [m] && PlainRoot(m)
    requires UNKNOWN in s.cache && Current(s, UNKNOWN)
    requires d.key == UNKNOWN && d.permissions.Some? && Permitted(m, false, Clean(d.permissions.value))
    requires CreateRoleSpec(s, id, d, user) == Done(after)
    ensures after.menus == s.menus && !Current(after, UNKNOWN)
  {
    assert m in s.menus && Shows(m, UNKNOWN, d.permissions.value);
    EmptyTreeIff(s.menus, UNKNOWN, d.permissions.value);
    NothingWithoutPermissions(s.menus, UNKNOWN, []);
    ReservedRoleLeavesStale(s, id, d, user, after, []);
  }

  lemma ReservedRoleLeavesStale(s: State, id: string, d: RoleDraft, user: User, after: State, none: seq<string>)
    requires Inv(s) && UNKNOWN in s.cache && Current(s, UNKNOWN) && none == []
    requires d.key == UNKNOWN && d.permissions.Some?
    requires CreateRoleSpec(s, id, d, user) == Done(after)
    requires TreeFor(s.menus, UNKNOWN, none) != TreeFor(s.menus, UNKNOWN, d.permissions.value)
    ensures after.menus == s.menus && !Current(after, UNKNOWN)
  {
    hide TreeFor, PermissionsOf;
    ReservedRolePermissions(s, id, d, user);
    NoRoleNoPermissions(s.roles, UNKNOWN);
  }

  /** The permission checks let this user create the role. */
  predicate MayGrant(user: User, d: RoleDraft) {
    !Restricted(user) || d.permissions.None?
    || (WILDCARD !in d.permissions.value && KeepProtected(d.permissions.value) == [])
  }

  /** Such states exist: a role-less user reads the menus before any role is there. */
  lemma RolelessReadIsCached(s: State, m: Menu, id: string, d: RoleDraft, user: User)
    requires s.menus == [m] && s.roles == [] && s.cache == map[]
    requires d.name != "" && d.key == UNKNOWN
    ensures var read := Step(s, ReadMenus(None));
            && Inv(read) && read.menus == [m] && UNKNOWN in read.cache && Current(read, UNKNOWN)
            && (CreateRoleSpec(read, id, d, user).Done? <==> MayGrant(user, d))
  {
    hide TreeFor;
    var read := Step(s, ReadMenus(None));
    assert read.menus == [m] && read.roles == [] && UNKNOWN in read.cache;
    assert |UNKNOWN| == 7;
  }

  /** Where clearing fails, a delete can leave a tree with an item that is gone. */
  lemma FailedClearLeavesStale(s: State, m: Menu)
    requires Inv(s) && s.menus == [m] && PlainRoot(m)
    requires SUPER_ADMIN in s.cache && Current(s, SUPER_ADMIN)
    ensures var after := Step(s, DeleteMenu(m.id, false));
            UniqueIds(after.menus) && !Current(after, SUPER_ADMIN)
  {
    hide TreeFor, PermissionsOf;
    var after := Step(s, DeleteMenu(m.id, false));
    assert s.menus[0] == m && FindMenu(s.menus, m.id) == Some(m);
    var gone := after.menus[0];
    assert after.menus == [gone] && gone.deleted && after.cache == s.cache;
    assert Shows(m, SUPER_ADMIN, PermissionsOf(s.roles, SUPER_ADMIN));
    EmptyTreeIff(s.menus, SUPER_ADMIN, PermissionsOf(s.roles, SUPER_ADMIN));
    EmptyTreeIff(after.menus, SUPER_ADMIN, PermissionsOf(after.roles, SUPER_ADMIN));
  }

  // ---- Sibling order in the tree ----------------------------------------------------------

  lemma {:induction false} PermittedKeepsSorted(s: seq<Menu>, superAdmin: bool, permissions: seq<string>)
    requires SortedByOrder(s)
    ensures SortedByOrder(PermittedMenus(s, superAdmin, permissions))
  {
    if s != [] {
      var front := s[..|s| - 1];
      PermittedKeepsSorted(front, superAdmin, permissions);
      PermittedMembers(front, superAdmin, permissions);
      var kept := PermittedMenus(front, superAdmin, permissions);
      forall i | 0 <= i < |kept|
        ensures kept[i].order <= s[|s| - 1].order
      {
        assert kept[i] in front;
      }
    }
  }

  /** Below every parent of a role's tree the items come in ascending `order`. */
  lemma TreeSiblingsAscend(menus: seq<Menu>, key: string, permissions: seq<string>,
                           parent: Option<string>, i: nat, j: nat)
    requires UniqueIds(menus)
    requires i < j < |ChildrenOf(Shown(menus, key, permissions), parent)|
    ensures var kids := ChildrenOf(Shown(menus, key, permissions), parent); kids[i].order <= kids[j].order
    ensures LevelsInOrder(Shown(menus, key, permissions), None, TreeFor(menus, key, permissions))
  {
    var superAdmin := key == SUPER_ADMIN;
    var listed := ListedMenus(menus, superAdmin);
    SortSorted(listed);
    PermittedKeepsSorted(SortByOrder(listed), superAdmin, Clean(permissions));
    var a, b := SiblingsInInputOrder(Shown(menus, key, permissions), parent, i, j);
    ShownIsUnique(menus, key, permissions);
    ForestLevels(Shown(menus, key, permissions), []);
  }

  // ---- Sibling positions --------------------------------------------------------------------

  /** The live items below `parent` hold the positions 0..n-1, one each. */
  ghost predicate Dense(menus: seq<Menu>, parent: Option<string>) {
    var orders := Orders(menus, parent);
    && NoDuplicates(orders)
    && forall v :: v in orders <==> 0 <= v < |orders|
  }

  /** Menus are appended without an explicit order, and updates leave order and parent alone. */
  predicate KeepsPositions(a: Action) {
    match a
    case CreateMenu(_, d, _) => d.order.None?
    case UpdateMenu(_, p, _) => p.order.None? && p.parent.None?
    case _ => true
  }

  lemma {:induction false} OrdersOfPrefixes(menus: seq<Menu>, m: Menu, parent: Option<string>)
    ensures Orders(menus + [m], parent) == Orders(menus, parent) + (if IsSibling(m, parent) then [m.order] else [])
  {
  }

  lemma CreateKeepsDense(menus: seq<Menu>, id: string, d: MenuDraft, parent: Option<string>)
    requires Dense(menus, parent) && Dense(menus, d.parent) && d.order.None?
    ensures Dense(menus + [Drafted(menus, id, d)], parent)
  {
    OrdersOfPrefixes(menus, Drafted(menus, id, d), parent);
    var orders := Orders(menus, parent);
    if d.parent == parent {
      if orders != [] {
        assert |orders| - 1 in orders;
        assert NextOrder(menus, parent) == |orders|;
      }
      assert forall v :: v in orders + [|orders|] <==> v in orders || v == |orders|;
    }
  }

  /** With an explicit order too, a create keeps the positions exactly if the order is the next one. */
  lemma CreateKeepsDenseIff(menus: seq<Menu>, id: string, d: MenuDraft)
    requires Dense(menus, d.parent)
    ensures Dense(menus + [Drafted(menus, id, d)], d.parent)
       <==> d.order.None? || d.order.value == |Orders(menus, d.parent)|
  {
    var orders := Orders(menus, d.parent);
    if d.order.None? || d.order.value == |orders| {
      CreateKeepsDense(menus, id, d.(order := None), d.parent);
      DraftedNext(menus, id, d);
    } else {
      OrdersOfPrefixes(menus, Drafted(menus, id, d), d.parent);
      JumpLeavesGap(orders, d.order.value);
    }
  }

  lemma JumpLeavesGap(orders: seq<int>, v: int)
    requires forall w :: w in orders <==> 0 <= w < |orders|
    requires v != |orders|
    ensures !NoDuplicates(orders + [v]) || |orders| !in orders + [v]
  {
    assert (orders + [v])[|orders|] == v;
  }

  lemma DraftedNext(menus: seq<Menu>, id: string, d: MenuDraft)
    requires Dense(menus, d.parent) && (d.order.None? || d.order.value == |Orders(menus, d.parent)|)
    ensures Drafted(menus, id, d) == Drafted(menus, id, d.(order := None))
  {
    var orders := Orders(menus, d.parent);
    if orders != [] {
      assert |orders| - 1 in orders;
    }
  }

  lemma {:induction false} PatchKeepsOrders(menus: seq<Menu>, id: string, p: MenuPatch, parent: Option<string>)
    requires p.order.None? && p.parent.None?
    ensures Orders(PatchAll(menus, id, p), parent) == Orders(menus, parent)
  {
    if menus != [] {
      var front := menus[..|menus| - 1];
      PatchKeepsOrders(front, id, p, parent);
      assert PatchAll(menus, id, p)[..|menus| - 1] == PatchAll(front, id, p);
    }
  }

  lemma PatchKeepsDense(menus: seq<Menu>, id: string, p: MenuPatch, parent: Option<string>)
    requires p.order.None? && p.parent.None? && Dense(menus, parent)
    ensures Dense(PatchAll(menus, id, p), parent)
  {
    PatchKeepsOrders(menus, id, p, parent);
  }

  /** One of each value below the length, and nothing else. */
  ghost predicate CountsDense(counts: multiset<int>, n: int) {
    forall v :: counts[v] == if 0 <= v < n then 1 else 0
  }

  lemma {:induction false} DistinctCounts(s: seq<int>, v: int)
    ensures NoDuplicates(s) ==> multiset(s)[v] <= 1
    decreases |s|
  {
    if s != [] {
      var front, last := s[..|s| - 1], s[|s| - 1];
      assert s == front + [last];
      DistinctCounts(front, v);
      if NoDuplicates(s) && last == v {
        assert v !in front;
      }
    }
  }

  lemma RepeatCounts(s: seq<int>, i: nat, j: nat)
    requires i < j < |s| && s[i] == s[j]
    ensures multiset(s)[s[i]] >= 2
  {
    assert s == s[..j] + [s[j]] + s[j + 1..];
    assert s[..j][i] in multiset(s[..j]);
  }

  lemma DenseIsCounts(s: seq<int>)
    ensures NoDuplicates(s) && (forall v :: v in s <==> 0 <= v < |s|) <==> CountsDense(multiset(s), |s|)
  {
    if NoDuplicates(s) && (forall v :: v in s <==> 0 <= v < |s|) {
      forall v
        ensures multiset(s)[v] == if 0 <= v < |s| then 1 else 0
      {
        DistinctCounts(s, v);
        assert v in s <==> v in multiset(s);
      }
    }
    if CountsDense(multiset(s), |s|) {
      forall i, j | 0 <= i < j < |s|
        ensures s[i] != s[j]
      {
        if s[i] == s[j] {
          RepeatCounts(s, i, j);
        }
      }
      forall v
        ensures v in s <==> 0 <= v < |s|
      {
        assert v in s <==> v in multiset(s);
      }
    }
  }

  function One(there: bool, v: int): multiset<int> {
    if there then multiset{v} else multiset{}
  }

  function OneIn(x: Menu, parent: Option<string>): multiset<int> {
    One(IsSibling(x, parent), x.order)
  }

  lemma OrdersCountAppend(front: seq<Menu>, x: Menu, parent: Option<string>)
    ensures multiset(Orders(front + [x], parent)) == multiset(Orders(front, parent)) + OneIn(x, parent)
  {
    hide Orders;
    OrdersOfPrefixes(front, x, parent);
  }

  lemma PatchAppends(front: seq<Menu>, x: Menu, id: string, p: MenuPatch)
    ensures PatchAll(front + [x], id, p)
         == PatchAll(front, id, p) + [if x.id == id && !x.deleted then Patched(x, p) else x]
  {
  }

  lemma Regroup(a: multiset<int>, b: multiset<int>, x: multiset<int>, y: multiset<int>, z: multiset<int>)
    requires a + y == b + z
    ensures a + x + y == b + x + z
  {
    assert a + x + y == a + y + x && b + x + z == b + z + x;
  }

  /** What replacing `m` does to the positions below a parent. */
  ghost predicate Trades(menus: seq<Menu>, m: Menu, p: MenuPatch, parent: Option<string>) {
    if m !in menus then PatchAll(menus, m.id, p) == menus
    else multiset(Orders(PatchAll(menus, m.id, p), parent)) + OneIn(m, parent)
         == multiset(Orders(menus, parent)) + OneIn(Patched(m, p), parent)
  }

  lemma TradesStep(front: seq<Menu>, x: Menu, m: Menu, p: MenuPatch, parent: Option<string>)
    requires !m.deleted && Trades(front, m, p, parent)
    requires x.id == m.id ==> x == m && m !in front
    ensures Trades(front + [x], m, p, parent)
  {
    hide Orders, Patched, PatchAll, OneIn;
    PatchAppends(front, x, m.id, p);
    OrdersCountAppend(front, x, parent);
    var q, patched := Patched(m, p), PatchAll(front, m.id, p);
    var a, b := multiset(Orders(patched, parent)), multiset(Orders(front, parent));
    if x.id == m.id {
      OrdersCountAppend(patched, q, parent);
      assert b + OneIn(q, parent) + OneIn(m, parent) == b + OneIn(m, parent) + OneIn(q, parent);
    } else {
      OrdersCountAppend(patched, x, parent);
      if m in front {
        Regroup(a, b, OneIn(x, parent), OneIn(m, parent), OneIn(q, parent));
      }
    }
  }

  /** Replacing an item trades its position for the new one, parent by parent. */
  lemma {:induction false} PatchTradesOrders(menus: seq<Menu>, m: Menu, p: MenuPatch, parent: Option<string>)
    requires UniqueIds(menus) && !m.deleted
    requires forall x | x in menus && x.id == m.id :: x == m
    ensures Trades(menus, m, p, parent)
    decreases |menus|
  {
    hide Orders, Patched;
    if menus != [] {
      var front, x := menus[..|menus| - 1], menus[|menus| - 1];
      assert menus == front + [x];
      PatchTradesOrders(front, m, p, parent);
      NewIdIsFresh(menus, front);
      hide Trades;
      TradesStep(front, x, m, p, parent);
    }
  }

  /** The update keeps the item's place, or moves the last item of a parent behind the last of another. */
  predicate KeepsPlace(menus: seq<Menu>, m: Menu, q: Menu) {
    if q.parent == m.parent then q.order == m.order
    else m.order == |Orders(menus, m.parent)| - 1 && q.order == |Orders(menus, q.parent)|
  }

  lemma TradeKeepsCountsIff(before: multiset<int>, after: multiset<int>, n: int, old_: int, new_: int)
    requires CountsDense(before, n) && old_ in before
    requires after + multiset{old_} == before + multiset{new_}
    ensures CountsDense(after, n) <==> new_ == old_
  {
    forall v
      ensures after[v] + multiset{old_}[v] == before[v] + multiset{new_}[v]
    {
      assert (after + multiset{old_})[v] == (before + multiset{new_})[v];
    }
    if new_ != old_ {
      assert after[old_] == 0;
    }
  }

  lemma LossKeepsCountsIff(before: multiset<int>, after: multiset<int>, n: int, old_: int)
    requires CountsDense(before, n) && old_ in before && after + multiset{old_} == before
    ensures CountsDense(after, n - 1) <==> old_ == n - 1
  {
    assert forall v :: after[v] + multiset{old_}[v] == before[v];
    if old_ != n - 1 {
      assert after[n - 1] == 1;
    }
  }

  lemma GainKeepsCountsIff(before: multiset<int>, after: multiset<int>, n: nat, new_: int)
    requires CountsDense(before, n) && after == before + multiset{new_}
    ensures CountsDense(after, n + 1) <==> new_ == n
  {
    assert forall v :: after[v] == before[v] + multiset{new_}[v];
    if new_ != n {
      assert after[n] == 0;
    }
  }

  lemma UpdateDenseUnderIff(menus: seq<Menu>, m: Menu, p: MenuPatch, parent: Option<string>)
    requires UniqueIds(menus) && m in menus && !m.deleted
    requires Dense(menus, parent)
    ensures var q, n := Patched(m, p), |Orders(menus, parent)|;
            Dense(PatchAll(menus, m.id, p), parent) <==>
              if parent == m.parent && parent == q.parent then q.order == m.order
              else if parent == m.parent then m.order == n - 1
              else parent == q.parent ==> q.order == n
  {
    hide Orders, Patched, PatchAll, NoDuplicates, CountsDense;
    var q, n := Patched(m, p), |Orders(menus, parent)|;
    var before, after := multiset(Orders(menus, parent)), multiset(Orders(PatchAll(menus, m.id, p), parent));
    TradedAt(menus, m, p, parent);
    DenseIsCounts(Orders(menus, parent));
    DenseIsCounts(Orders(PatchAll(menus, m.id, p), parent));
    assert |before| == n && |after| == |Orders(PatchAll(menus, m.id, p), parent)|;
    if parent == m.parent {
      assert m.order in Orders(menus, parent);
      if parent == q.parent {
        assert |after + multiset{m.order}| == |before + multiset{q.order}|;
        TradeKeepsCountsIff(before, after, n, m.order, q.order);
      } else {
        assert |after + multiset{m.order}| == |before|;
        LossKeepsCountsIff(before, after, n, m.order);
      }
    } else if parent == q.parent {
      GainKeepsCountsIff(before, after, n, q.order);
    }
  }

  lemma TradedAt(menus: seq<Menu>, m: Menu, p: MenuPatch, parent: Option<string>)
    requires UniqueIds(menus) && m in menus && !m.deleted
    ensures var q := Patched(m, p);
            var before, after := multiset(Orders(menus, parent)), multiset(Orders(PatchAll(menus, m.id, p), parent));
            && (parent == m.parent && parent == q.parent ==> after + multiset{m.order} == before + multiset{q.order})
            && (parent == m.parent && parent != q.parent ==> after + multiset{m.order} == before)
            && (parent != m.parent && parent == q.parent ==> after == before + multiset{q.order})
            && (parent != m.parent && parent != q.parent ==> after == before)
  {
    hide Orders, Patched, PatchAll;
    PatchStaysLive(m, p);
    forall x | x in menus && x.id == m.id
      ensures x == m
    {
      IdDeterminesItem(menus, x, m);
    }
    PatchTradesOrders(menus, m, p, parent);
    var before, after := multiset(Orders(menus, parent)), multiset(Orders(PatchAll(menus, m.id, p), parent));
    assert before + multiset{} == before && after + multiset{} == after;
  }

  lemma PatchStaysLive(m: Menu, p: MenuPatch)
    ensures Patched(m, p).deleted == m.deleted && Patched(m, p).id == m.id
  {
  }

  /** An update keeps the positions under every parent exactly if it keeps the item's place, in this sense. */
  lemma UpdateKeepsDenseIff(menus: seq<Menu>, m: Menu, p: MenuPatch)
    requires UniqueIds(menus) && m in menus && !m.deleted
    requires forall parent :: Dense(menus, parent)
    ensures (forall parent :: Dense(PatchAll(menus, m.id, p), parent)) <==> KeepsPlace(menus, m, Patched(m, p))
  {
    hide Dense, Orders, Patched, PatchAll;
    forall parent
      ensures var q, n := Patched(m, p), |Orders(menus, parent)|;
              Dense(PatchAll(menus, m.id, p), parent) <==>
                if parent == m.parent && parent == q.parent then q.order == m.order
                else if parent == m.parent then m.order == n - 1
                else parent == q.parent ==> q.order == n
    {
      UpdateDenseUnderIff(menus, m, p, parent);
    }
    var after := PatchAll(menus, m.id, p);
    assert Dense(after, m.parent) || !Dense(after, m.parent);
    assert Dense(after, Patched(m, p).parent) || !Dense(after, Patched(m, p).parent);
  }

  function MovedDown(v: int, cut: int): int {
    if v > cut then v - 1 else v
  }

  function MovedUp(w: int, cut: int): int {
    if w < cut then w else w + 1
  }

  /** `s` without the value `cut`, everything above it moved down by one. */
  function CloseGap(s: seq<int>, cut: int): seq<int> {
    if s == [] then []
    else
      var v := s[|s| - 1];
      CloseGap(s[..|s| - 1], cut) + (if v == cut then [] else [MovedDown(v, cut)])
  }

  lemma {:induction false} CloseGapFacts(s: seq<int>, cut: int)
    requires NoDuplicates(s)
    ensures NoDuplicates(CloseGap(s, cut))
    ensures forall w | w in CloseGap(s, cut) :: MovedUp(w, cut) in s
    ensures forall v | v in s && v != cut :: MovedDown(v, cut) in CloseGap(s, cut)
    ensures |CloseGap(s, cut)| == if cut in s then |s| - 1 else |s|
  {
    if s != [] {
      var n := |s| - 1;
      var front, v := s[..n], s[n];
      CloseGapFacts(front, cut);
      assert s == front + [v] && v !in front;
      var closed := CloseGap(front, cut);
      var moved := if v == cut then [] else [MovedDown(v, cut)];
      assert CloseGap(s, cut) == closed + moved;
      assert v != cut ==> MovedUp(MovedDown(v, cut), cut) == v;
      hide CloseGap, NoDuplicates, MovedUp, MovedDown;
      NoDuplicatesConcat(closed, moved);
    }
  }

  /** The menus after a soft delete of `gone` and the shift that follows. */
  function AfterDelete(menus: seq<Menu>, gone: Menu): seq<Menu> {
    ShiftUp(MarkDeleted(menus, gone.id), gone.parent, gone.order)
  }

  function Moved(m: Menu, gone: Menu): Menu {
    if m.id == gone.id then m.(deleted := true)
    else if IsSibling(m, gone.parent) && m.order > gone.order then m.(order := m.order - 1)
    else m
  }

  /** The position an item takes up below a parent, if it is a live one there. */
  function OrderIn(m: Menu, parent: Option<string>): seq<int> {
    if IsSibling(m, parent) then [m.order] else []
  }

  lemma MovedOrder(m: Menu, gone: Menu, parent: Option<string>)
    requires !gone.deleted && OnlyHolder(m, gone)
    ensures OrderIn(Moved(m, gone), parent) ==
            if parent != gone.parent || !IsSibling(m, parent) then OrderIn(m, parent)
            else if m.order == gone.order then [] else [MovedDown(m.order, gone.order)]
  {
  }

  lemma {:induction false} DeleteClosesGap(menus: seq<Menu>, gone: Menu, parent: Option<string>)
    requires !gone.deleted
    requires forall m | m in menus :: OnlyHolder(m, gone)
    ensures Orders(AfterDelete(menus, gone), parent)
            == if parent == gone.parent then CloseGap(Orders(menus, parent), gone.order) else Orders(menus, parent)
  {
    if menus != [] {
      hide AfterDelete, CloseGap, Orders, Moved, OnlyHolder, MovedDown;
      var n := |menus| - 1;
      var front, m := menus[..n], menus[n];
      assert menus == front + [m];
      DeleteClosesGap(front, gone, parent);
      AfterDeleteSplits(front, m, gone);
      OrdersOfPrefixes(AfterDelete(front, gone), Moved(m, gone), parent);
      OrdersOfPrefixes(front, m, parent);
      CloseGapPush(Orders(front, parent), m.order, gone.order);
      MovedOrder(m, gone, parent);
      assert Orders(front, parent) + [] == Orders(front, parent);
    }
  }

  /** `m` is the deleted item itself, or does not share its id, or its place among the live siblings. */
  predicate OnlyHolder(m: Menu, gone: Menu) {
    if m.id == gone.id then m == gone else IsSibling(m, gone.parent) ==> m.order != gone.order
  }

  lemma AfterDeleteSplits(front: seq<Menu>, m: Menu, gone: Menu)
    ensures AfterDelete(front + [m], gone) == AfterDelete(front, gone) + [Moved(m, gone)]
  {
  }

  lemma CloseGapPush(s: seq<int>, v: int, cut: int)
    ensures CloseGap(s + [v], cut) == CloseGap(s, cut) + if v == cut then [] else [MovedDown(v, cut)]
  {
  }

  lemma {:induction false} DistinctOrdersMeanDistinctItems(menus: seq<Menu>, parent: Option<string>, a: Menu, b: Menu)
    requires NoDuplicates(Orders(menus, parent))
    requires a in menus && b in menus && IsSibling(a, parent) && IsSibling(b, parent) && a.id != b.id
    ensures a.order != b.order
  {
    var front, m := menus[..|menus| - 1], menus[|menus| - 1];
    assert menus == front + [m];
    var orders := Orders(front, parent);
    assert forall i | 0 <= i < |orders| :: orders[i] == Orders(menus, parent)[i];
    if a in front && b in front {
      DistinctOrdersMeanDistinctItems(front, parent, a, b);
    } else {
      var other := if a in front then a else b;
      assert other in front && other.order in orders;
      var i :| 0 <= i < |orders| && orders[i] == other.order;
      assert Orders(menus, parent)[|orders|] == m.order;
    }
  }

  lemma DeleteKeepsDense(menus: seq<Menu>, gone: Menu, parent: Option<string>)
    requires UniqueIds(menus) && gone in menus && !gone.deleted
    requires Dense(menus, gone.parent) && Dense(menus, parent)
    ensures Dense(AfterDelete(menus, gone), parent)
  {
    forall m | m in menus
      ensures OnlyHolder(m, gone)
    {
      if m.id == gone.id {
        IdDeterminesItem(menus, m, gone);
      } else if IsSibling(m, gone.parent) {
        DistinctOrdersMeanDistinctItems(menus, gone.parent, m, gone);
      }
    }
    DeleteClosesGap(menus, gone, parent);
    if parent == gone.parent {
      var orders := Orders(menus, parent);
      assert gone.order in orders;
      CloseGapFacts(orders, gone.order);
      forall v
        ensures v in CloseGap(orders, gone.order) <==> 0 <= v < |orders| - 1
      {
        if 0 <= v < |orders| - 1 {
          assert MovedUp(v, gone.order) in orders && MovedDown(MovedUp(v, gone.order), gone.order) == v;
        }
      }
    }
  }

  /**
   A delete keeps the relative order of two remaining siblings, except exactly where one is tied with the deleted item
   and the other comes right behind it: the gap is closed and they end tied.
   */
  lemma DeleteKeepsOrderIff(menus: seq<Menu>, gone: Menu, i: nat, j: nat)
    requires UniqueIds(menus) && gone in menus && !gone.deleted
    requires i < |menus| && j < |menus| && menus[i].id != gone.id && menus[j].id != gone.id
    requires IsSibling(menus[i], gone.parent) && IsSibling(menus[j], gone.parent)
    ensures var after := AfterDelete(menus, gone);
            && after[i].id == menus[i].id && after[j].id == menus[j].id
            && IsSibling(after[i], gone.parent) && IsSibling(after[j], gone.parent)
            && ((after[i].order < after[j].order <==> menus[i].order < menus[j].order)
                <==> !(menus[i].order == gone.order && menus[j].order == gone.order + 1))
  {
  }

  /** So it keeps it wherever the positions are dense. */
  lemma DeleteKeepsRelativeOrder(menus: seq<Menu>, gone: Menu, i: nat, j: nat)
    requires UniqueIds(menus) && gone in menus && !gone.deleted && Dense(menus, gone.parent)
    requires i < |menus| && j < |menus| && menus[i].id != gone.id && menus[j].id != gone.id
    requires IsSibling(menus[i], gone.parent) && IsSibling(menus[j], gone.parent)
    ensures var after := AfterDelete(menus, gone);
            && after[i].id == menus[i].id && after[j].id == menus[j].id
            && IsSibling(after[i], gone.parent) && IsSibling(after[j], gone.parent)
            && (after[i].order < after[j].order <==> menus[i].order < menus[j].order)
  {
    DeleteKeepsOrderIff(menus, gone, i, j);
    DistinctOrdersMeanDistinctItems(menus, gone.parent, menus[i], gone);
  }

  lemma StepKeepsDense(s: State, a: Action, parent: Option<string>)
    requires UniqueIds(s.menus) && KeepsPositions(a)
    requires forall p :: Dense(s.menus, p)
    ensures Dense(Step(s, a).menus, parent)
  {
    hide Dense;
    assert Dense(s.menus, parent);
    if OutcomeOf(s, a).Done? {
      match a
      case CreateMenu(id, d, _) =>
        assert Dense(s.menus, d.parent);
        CreateKeepsDense(s.menus, id, d, parent);
      case UpdateMenu(id, p, _) =>
        PatchKeepsDense(s.menus, id, p, parent);
        assert Step(s, a).menus == PatchAll(s.menus, id, p);
      case DeleteMenu(id, _) =>
        var gone := FindMenu(s.menus, id).value;
        assert Dense(s.menus, gone.parent);
        DeleteKeepsDense(s.menus, gone, parent);
        assert Step(s, a).menus == AfterDelete(s.menus, gone);
      case _ =>
        assert Step(s, a).menus == s.menus;
    }
  }

  /** Over any run of appending creates and deletes, the siblings hold exactly 0..n-1. */
  lemma {:induction false} RunsKeepPositionsDense(s: State, actions: seq<Action>)
    requires UniqueIds(s.menus)
    requires forall a | a in actions :: KeepsPositions(a)
    requires forall parent :: Dense(s.menus, parent)
    ensures forall parent :: Dense(Run(s, actions).menus, parent)
    decreases |actions|
  {
    if actions != [] {
      forall p
        ensures Dense(Step(s, actions[0]).menus, p)
      {
        StepKeepsDense(s, actions[0], p);
      }
      RunsKeepPositionsDense(Step(s, actions[0]), actions[1..]);
    }
  }

  /** An accepted command gives an order that is not the next one, or does not keep an item's place. */
  ghost predicate Displaces(s: State, a: Action)
    requires UniqueIds(s.menus)
  {
    OutcomeOf(s, a).Done? &&
    match a
    case CreateMenu(_, d, _) => d.order.Some? && d.order.value != |Orders(s.menus, d.parent)|
    case UpdateMenu(id, p, _) =>
      var m := FindMenu(s.menus, id).value;
      !KeepsPlace(s.menus, m, Patched(m, p))
    case _ => false
  }

  lemma CreateLeavesOthers(menus: seq<Menu>, id: string, d: MenuDraft, parent: Option<string>)
    requires parent != d.parent && Dense(menus, parent)
    ensures Dense(menus + [Drafted(menus, id, d)], parent)
  {
    OrdersOfPrefixes(menus, Drafted(menus, id, d), parent);
    assert Orders(menus, parent) + [] == Orders(menus, parent);
  }

  /** Any step keeps the positions 0..n-1 under every parent, except exactly when it displaces an item. */
  lemma StepKeepsDenseIff(s: State, a: Action)
    requires UniqueIds(s.menus) && forall p :: Dense(s.menus, p)
    ensures (forall p :: Dense(Step(s, a).menus, p)) <==> !Displaces(s, a)
  {
    hide Dense, Orders, Drafted, Patched, PatchAll, KeepsPlace;
    var after := Step(s, a).menus;
    if OutcomeOf(s, a).Done? {
      match a
      case CreateMenu(id, d, _) =>
        forall p | p != d.parent
          ensures Dense(after, p)
        {
          CreateLeavesOthers(s.menus, id, d, p);
        }
        CreateKeepsDenseIff(s.menus, id, d);
        assert Dense(after, d.parent) || !Dense(after, d.parent);
      case UpdateMenu(id, p, _) => UpdateKeepsDenseIff(s.menus, FindMenu(s.menus, id).value, p);
      case _ =>
        forall p
          ensures Dense(after, p)
        {
          StepKeepsDense(s, a, p);
        }
    }
  }

  // ---- Role safety --------------------------------------------------------------------------

  /** Role commands come from signed-in users who are not super admins. */
  predicate ByRestricted(a: Action) {
    match a
    case CreateRole(_, _, user) => Restricted(user)
    case UpdateRole(_, _, user, _) => Restricted(user)
    case _ => true
  }

  /** Same protected permissions, and the wildcard only if it was there. */
  ghost predicate NoEscalation(before: seq<string>, after: seq<string>) {
    && (forall p | p in PROTECTED_PERMISSIONS :: p in before <==> p in after)
    && (WILDCARD in after ==> WILDCARD in before)
  }

  ghost predicate RolesNotEscalated(before: seq<Role>, after: seq<Role>) {
    && |before| <= |after|
    && (forall i | 0 <= i < |before| ::
          after[i].id == before[i].id && NoEscalation(before[i].permissions, after[i].permissions))
    && forall i | |before| <= i < |after| :: NoEscalation([], after[i].permissions)
  }

  lemma StoredNotEscalated(s: State, id: string, p: RolePatch, user: User, clears: bool)
    requires Restricted(user) && UpdateRoleSpec(s, id, p, user, clears).Done?
    ensures var role := FindRole(s.roles, id).value;
            NoEscalation(role.permissions, StoredPermissions(role, p, user))
  {
    hide IndexClash, TakenBy, Distinct, KeepProtected;
    var role := FindRole(s.roles, id).value;
    assert WILDCARD !in PROTECTED_PERMISSIONS;
  }

  lemma UpdateRoleNoEscalation(s: State, id: string, p: RolePatch, user: User, clears: bool)
    requires RolesDistinct(s.roles) && Restricted(user)
    requires UpdateRoleSpec(s, id, p, user, clears).Done?
    ensures RolesNotEscalated(s.roles, UpdateRoleSpec(s, id, p, user, clears).state.roles)
  {
    hide IndexClash, TakenBy, Escalates, StoredPermissions, NoEscalation;
    var role := FindRole(s.roles, id).value;
    StoredNotEscalated(s, id, p, user, clears);
    var after := UpdateRoleSpec(s, id, p, user, clears).state.roles;
    forall i | 0 <= i < |after|
      ensures after[i].id == s.roles[i].id && NoEscalation(s.roles[i].permissions, after[i].permissions)
    {
      NotEscalatedItself(s.roles[i].permissions);
      if s.roles[i].id == id {
        RoleByKey(s.roles, s.roles[i], role);
      }
    }
  }

  lemma NotEscalatedItself(permissions: seq<string>)
    ensures NoEscalation(permissions, permissions)
  {
  }

  lemma RemoveRoleNoEscalation(s: State, id: string, clears: bool)
    requires RolesDistinct(s.roles) && RemoveRoleSpec(s, id, clears).Done?
    ensures RolesNotEscalated(s.roles, RemoveRoleSpec(s, id, clears).state.roles)
  {
  }

  lemma StepNoEscalation(s: State, a: Action)
    requires UniqueIds(s.menus) && RolesDistinct(s.roles) && ByRestricted(a)
    ensures RolesNotEscalated(s.roles, Step(s, a).roles)
  {
    if OutcomeOf(s, a).Done? {
      match a
      case CreateRole(_, d, _) =>
        if d.permissions.Some? {
          assert forall p | p in PROTECTED_PERMISSIONS :: p !in KeepProtected(d.permissions.value);
        }
      case UpdateRole(id, p, user, clears) => UpdateRoleNoEscalation(s, id, p, user, clears);
      case RemoveRole(id, clears) => RemoveRoleNoEscalation(s, id, clears);
      case _ =>
    }
  }

  lemma CreateRoleKeepsDistinct(s: State, id: string, d: RoleDraft, user: User)
    requires RolesDistinct(s.roles) && CreateRoleSpec(s, id, d, user).Done?
    ensures RolesDistinct(CreateRoleSpec(s, id, d, user).state.roles)
  {
  }

  lemma UpdateRoleKeepsDistinct(s: State, id: string, p: RolePatch, user: User, clears: bool)
    requires RolesDistinct(s.roles) && UpdateRoleSpec(s, id, p, user, clears).Done?
    ensures RolesDistinct(UpdateRoleSpec(s, id, p, user, clears).state.roles)
  {
    var role := FindRole(s.roles, id).value;
    var updated := Role(id, Or(p.name, role.name), Or(p.key, role.key), StoredPermissions(role, p, user), false);
    hide RolesDistinct, StoredPermissions;
    ReplaceRoleFacts(s.roles, updated, role);
  }

  lemma RemoveRoleKeepsDistinct(s: State, id: string, clears: bool)
    requires RolesDistinct(s.roles) && RemoveRoleSpec(s, id, clears).Done?
    ensures RolesDistinct(RemoveRoleSpec(s, id, clears).state.roles)
  {
  }

  lemma StepKeepsRolesDistinct(s: State, a: Action)
    requires UniqueIds(s.menus) && RolesDistinct(s.roles)
    ensures RolesDistinct(Step(s, a).roles)
  {
    hide RolesDistinct, CreateRoleSpec, UpdateRoleSpec, RemoveRoleSpec;
    if OutcomeOf(s, a).Done? {
      match a
      case CreateRole(id, d, user) => CreateRoleKeepsDistinct(s, id, d, user);
      case UpdateRole(id, p, user, clears) => UpdateRoleKeepsDistinct(s, id, p, user, clears);
      case RemoveRole(id, clears) => RemoveRoleKeepsDistinct(s, id, clears);
      case _ =>
    }
  }

  lemma EscalationComposes(a: seq<Role>, b: seq<Role>, c: seq<Role>)
    requires RolesNotEscalated(a, b) && RolesNotEscalated(b, c)
    ensures RolesNotEscalated(a, c)
  {
    forall i | 0 <= i < |c|
      ensures NoEscalation(if i < |a| then a[i].permissions else [], c[i].permissions)
    {
      if i < |b| {
        assert NoEscalation(if i < |a| then a[i].permissions else [], b[i].permissions);
        assert NoEscalation(b[i].permissions, c[i].permissions);
      }
    }
  }

  lemma NoneEscalated(roles: seq<Role>)
    ensures RolesNotEscalated(roles, roles)
  {
  }

  /** Over any run, no role gains or loses a protected permission or gains the wildcard. */
  lemma {:induction false} RunsNeverEscalate(s: State, actions: seq<Action>)
    requires UniqueIds(s.menus) && RolesDistinct(s.roles)
    requires forall a | a in actions :: ByRestricted(a)
    ensures RolesNotEscalated(s.roles, Run(s, actions).roles)
    decreases |actions|
  {
    hide RolesNotEscalated, RolesDistinct, ByRestricted, Step;
    if actions == [] {
      NoneEscalated(s.roles);
    } else {
      var t := Step(s, actions[0]);
      StepNoEscalation(s, actions[0]);
      StepKeepsRolesDistinct(s, actions[0]);
      RunsNeverEscalate(t, actions[1..]);
      EscalationComposes(s.roles, t.roles, Run(t, actions[1..]).roles);
    }
  }

  // ---- What hides behind quotes ------------------------------------------------------------------

  /** Not the permission as stored, but the permission once the menu query drops the quotes. */
  predicate Disguises(q: string, t: string) {
    q != t && StripQuotes(q) == t
  }

  /** The permissions that only a super admin may give. */
  predicate Guarded(t: string) {
    t == WILDCARD || t in PROTECTED_PERMISSIONS
  }

  lemma CleanHasIff(permissions: seq<string>, t: string)
    ensures t in Clean(permissions) <==> exists q :: q in permissions && StripQuotes(q) == t
  {
    hide StripQuotes;
    if t in Clean(permissions) {
      var i :| 0 <= i < |permissions| && Clean(permissions)[i] == t;
      assert permissions[i] in permissions;
    }
    if q :| q in permissions && StripQuotes(q) == t {
      var i :| 0 <= i < |permissions| && permissions[i] == q;
      assert Clean(permissions)[i] == t;
    }
  }

  /** What a restricted update stores: wanted permissions and kept ones, the guarded ones only if they were there. */
  lemma StoredByRestricted(s: State, id: string, p: RolePatch, user: User, clears: bool, q: string)
    requires Restricted(user) && UpdateRoleSpec(s, id, p, user, clears).Done?
    ensures var role := FindRole(s.roles, id).value;
            var stored := StoredPermissions(role, p, user);
            && (q in stored ==>
                  q in role.permissions || (p.permissions.Some? && q in p.permissions.value && !Guarded(q)))
            && (p.permissions.Some? && q in p.permissions.value ==> q in stored)
  {
    hide IndexClash, TakenBy;
  }

  /** A restricted update makes a role match the menus of a guarded permission exactly if it adds a disguise of it. */
  lemma UpdateUncoversIff(s: State, id: string, p: RolePatch, user: User, clears: bool, t: string)
    requires Restricted(user) && UpdateRoleSpec(s, id, p, user, clears).Done?
    requires Guarded(t) && t !in Clean(FindRole(s.roles, id).value.permissions)
    ensures var role := FindRole(s.roles, id).value;
            t in Clean(StoredPermissions(role, p, user)) <==>
              p.permissions.Some? && exists q :: q in p.permissions.value && q !in role.permissions && Disguises(q, t)
  {
    hide StripQuotes, StoredPermissions, Clean, IndexClash, TakenBy, Escalates, Guarded;
    var role := FindRole(s.roles, id).value;
    var stored := StoredPermissions(role, p, user);
    CleanHasIff(stored, t);
    CleanHasIff(role.permissions, t);
    if q :| q in stored && StripQuotes(q) == t {
      StoredByRestricted(s, id, p, user, clears, q);
      assert q !in role.permissions && Disguises(q, t);
    }
    if p.permissions.Some? {
      if q :| q in p.permissions.value && q !in role.permissions && Disguises(q, t) {
        StoredByRestricted(s, id, p, user, clears, q);
      }
    }
  }

  /** The same for a role that a restricted user creates. */
  lemma CreateUncoversIff(s: State, id: string, d: RoleDraft, user: User, t: string)
    requires Restricted(user) && CreateRoleSpec(s, id, d, user).Done? && Guarded(t)
    ensures t in Clean(Or(d.permissions, [])) <==>
              d.permissions.Some? && exists q :: q in d.permissions.value && Disguises(q, t)
  {
    hide StripQuotes, Clean;
    CleanHasIff(Or(d.permissions, []), t);
    if d.permissions.Some? {
      assert KeepProtected(d.permissions.value) == [];
    }
  }

  /** In particular: a restricted update makes a role see every menu exactly if it adds a disguised wildcard. */
  lemma UpdateAddsWildcardIff(s: State, id: string, p: RolePatch, user: User, clears: bool)
    requires Restricted(user) && UpdateRoleSpec(s, id, p, user, clears).Done?
    requires WILDCARD !in Clean(FindRole(s.roles, id).value.permissions)
    ensures var role := FindRole(s.roles, id).value;
            WILDCARD in Clean(StoredPermissions(role, p, user)) <==>
              p.permissions.Some?
              && exists q :: q in p.permissions.value && q !in role.permissions && Disguises(q, WILDCARD)
  {
    UpdateUncoversIff(s, id, p, user, clears, WILDCARD);
  }

  function Stripped(c: char): string {
    if c == '\'' || c == '"' then "" else [c]
  }

  lemma StripStep(s: string)
    requires s != ""
    ensures StripQuotes(s) == Stripped(s[0]) + StripQuotes(s[1..])
  {
  }

  lemma StripAppendStep(a: string, b: string)
    requires a != ""
    ensures StripQuotes(a) == Stripped(a[0]) + StripQuotes(a[1..])
    ensures StripQuotes(a + b) == Stripped(a[0]) + StripQuotes(a[1..] + b)
  {
    hide StripQuotes, Stripped;
    StripStep(a);
    StripStep(a + b);
    assert (a + b)[1..] == a[1..] + b;
  }

  lemma {:induction false} StripAppend(a: string, b: string)
    ensures StripQuotes(a + b) == StripQuotes(a) + StripQuotes(b)
    decreases |a|
  {
    if a == "" {
      assert a + b == b;
    } else {
      StripAppendStep(a, b);
      StripAppend(a[1..], b);
    }
  }

  lemma {:induction false} NothingToStrip(t: string)
    requires '\'' !in t && '"' !in t
    ensures StripQuotes(t) == t
    decreases |t|
  {
    if t != "" {
      NothingToStrip(t[1..]);
      assert t == [t[0]] + t[1..];
    }
  }

  function Quoted(t: string): string {
    ['\''] + t + ['\'']
  }

  lemma QuotedDisguises(t: string)
    requires '\'' !in t && '"' !in t
    ensures Disguises(Quoted(t), t) && !Guarded(Quoted(t))
  {
    var quote := ['\''];
    StripAppend(quote + t, quote);
    StripAppend(quote, t);
    NothingToStrip(t);
    assert quote[1..] == "" && StripQuotes(quote) == "";
    assert |Quoted(t)| == |t| + 2;
    assert Quoted(t)[0] == '\'';
    GuardedStartPlain(Quoted(t));
  }

  lemma GuardedStartPlain(q: string)
    ensures Guarded(q) ==> q != "" && q[0] != '\''
  {
  }

  /** A guarded permission in quotes is such a disguise, and nothing refuses it. */
  lemma QuotedPermissionIsAccepted(s: State, role: Role, user: User, t: string)
    requires s.roles == [role] && !role.deleted && role.key != SUPER_ADMIN && role.permissions == []
    requires Restricted(user) && '\'' !in t && '"' !in t
    ensures var o := UpdateRoleSpec(s, role.id, RolePatch(None, None, Some([Quoted(t)])), user, true);
            o.Done? && |o.state.roles| == 1 && t in Clean(o.state.roles[0].permissions)
  {
    hide StripQuotes, Clean;
    var quoted := Quoted(t);
    var p := RolePatch(None, None, Some([quoted]));
    QuotedDisguises(t);
    assert FindRole(s.roles, role.id) == Some(role) by {
      assert s.roles[0] == role;
    }
    assert forall r | r in s.roles :: r == role;
    assert !Escalates(role.permissions, [quoted]);
    var o := UpdateRoleSpec(s, role.id, p, user, true);
    assert o.Done?;
    StoredByRestricted(s, role.id, p, user, true, quoted);
    CleanHasIff(o.state.roles[0].permissions, t);
  }

  /** Among them the wildcard. */
  lemma QuotedWildcardIsAccepted(s: State, role: Role, user: User)
    requires s.roles == [role] && !role.deleted && role.key != SUPER_ADMIN && role.permissions == []
    requires Restricted(user)
    ensures var o := UpdateRoleSpec(s, role.id, RolePatch(None, None, Some(["'*'"])), user, true);
            o.Done? && |o.state.roles| == 1 && WILDCARD in Clean(o.state.roles[0].permissions)
  {
    assert Quoted(WILDCARD) == "'*'";
    QuotedPermissionIsAccepted(s, role, user, WILDCARD);
  }

  predicate NamesNoDisguise(a: Action, t: string) {
    match a
    case CreateRole(_, d, _) => d.permissions.Some? ==> forall q | q in d.permissions.value :: !Disguises(q, t)
    case UpdateRole(_, p, _, _) => p.permissions.Some? ==> forall q | q in p.permissions.value :: !Disguises(q, t)
    case _ => true
  }

  /** Whatever matches `t` in a role matched it in that role before. */
  ghost predicate NothingUncovered(before: seq<Role>, after: seq<Role>, t: string) {
    |before| <= |after| &&
    forall i, q | 0 <= i < |after| && q in after[i].permissions && StripQuotes(q) == t ::
      i < |before| && q in before[i].permissions
  }

  lemma UpdateUncoversNothing(s: State, id: string, p: RolePatch, user: User, clears: bool, t: string)
    requires RolesDistinct(s.roles) && Restricted(user) && UpdateRoleSpec(s, id, p, user, clears).Done? && Guarded(t)
    requires p.permissions.Some? ==> forall q | q in p.permissions.value :: !Disguises(q, t)
    ensures NothingUncovered(s.roles, UpdateRoleSpec(s, id, p, user, clears).state.roles, t)
  {
    hide StripQuotes, StoredPermissions, IndexClash, TakenBy, Escalates, Guarded;
    var role := FindRole(s.roles, id).value;
    var after := UpdateRoleSpec(s, id, p, user, clears).state.roles;
    forall i, q | 0 <= i < |after| && q in after[i].permissions && StripQuotes(q) == t
      ensures q in s.roles[i].permissions
    {
      if s.roles[i].id == id {
        RoleByKey(s.roles, s.roles[i], role);
        StoredByRestricted(s, id, p, user, clears, q);
      }
    }
  }

  lemma RemoveUncoversNothing(s: State, id: string, clears: bool, t: string)
    requires RolesDistinct(s.roles) && RemoveRoleSpec(s, id, clears).Done?
    ensures NothingUncovered(s.roles, RemoveRoleSpec(s, id, clears).state.roles, t)
  {
    hide StripQuotes;
    var role := FindRole(s.roles, id).value;
    var after := RemoveRoleSpec(s, id, clears).state.roles;
    forall i | 0 <= i < |after|
      ensures after[i].permissions == s.roles[i].permissions
    {
      if s.roles[i].id == id {
        RoleByKey(s.roles, s.roles[i], role);
      }
    }
  }

  lemma CreateUncoversNothing(s: State, id: string, d: RoleDraft, user: User, t: string)
    requires Restricted(user) && CreateRoleSpec(s, id, d, user).Done? && Guarded(t)
    requires d.permissions.Some? ==> forall q | q in d.permissions.value :: !Disguises(q, t)
    ensures NothingUncovered(s.roles, CreateRoleSpec(s, id, d, user).state.roles, t)
  {
    hide StripQuotes, Clean;
    var after := CreateRoleSpec(s, id, d, user).state.roles;
    assert forall i | 0 <= i < |s.roles| :: after[i] == s.roles[i];
    CreateUncoversIff(s, id, d, user, t);
    CleanHasIff(after[|s.roles|].permissions, t);
  }

  lemma StepUncoversNothing(s: State, a: Action, t: string)
    requires UniqueIds(s.menus) && RolesDistinct(s.roles) && ByRestricted(a) && NamesNoDisguise(a, t) && Guarded(t)
    ensures NothingUncovered(s.roles, Step(s, a).roles, t)
  {
    hide RolesDistinct, CreateRoleSpec, UpdateRoleSpec, RemoveRoleSpec, StripQuotes, Guarded;
    if OutcomeOf(s, a).Done? {
      match a
      case CreateRole(id, d, user) => CreateUncoversNothing(s, id, d, user, t);
      case UpdateRole(id, p, user, clears) => UpdateUncoversNothing(s, id, p, user, clears, t);
      case RemoveRole(id, clears) => RemoveUncoversNothing(s, id, clears, t);
      case _ =>
    }
  }

  /** Over any run by restricted users that names no disguise of a guarded permission, no role comes to match it. */
  lemma {:induction false} RunsUncoverNothing(s: State, actions: seq<Action>, t: string)
    requires UniqueIds(s.menus) && RolesDistinct(s.roles) && Guarded(t)
    requires forall a | a in actions :: ByRestricted(a) && NamesNoDisguise(a, t)
    ensures NothingUncovered(s.roles, Run(s, actions).roles, t)
    decreases |actions|
  {
    hide Step, RolesDistinct, ByRestricted, NamesNoDisguise, StripQuotes, Guarded;
    if actions != [] {
      StepUncoversNothing(s, actions[0], t);
      StepKeepsRolesDistinct(s, actions[0]);
      RunsUncoverNothing(Step(s, actions[0]), actions[1..], t);
    }
  }

  /** So none comes to see every menu. */
  lemma RunsNeverShowEverything(s: State, actions: seq<Action>)
    requires UniqueIds(s.menus) && RolesDistinct(s.roles)
    requires forall a | a in actions :: ByRestricted(a) && NamesNoDisguise(a, WILDCARD)
    ensures NothingUncovered(s.roles, Run(s, actions).roles, WILDCARD)
  {
    RunsUncoverNothing(s, actions, WILDCARD);
  }

  /** Over every run, whoever acts: names and keys stay unique, so at most one role is the super admin. */
  lemma {:induction false} RunsKeepRolesUnique(s: State, actions: seq<Action>)
    requires UniqueIds(s.menus) && RolesDistinct(s.roles)
    ensures RolesDistinct(Run(s, actions).roles)
    ensures forall a, b | a in Run(s, actions).roles && b in Run(s, actions).roles
              && a.key == SUPER_ADMIN && b.key == SUPER_ADMIN :: a == b
    decreases |actions|
  {
    if actions == [] {
      forall a, b | a in s.roles && b in s.roles && a.key == SUPER_ADMIN && b.key == SUPER_ADMIN
        ensures a == b
      {
        RoleByKey(s.roles, a, b);
      }
    } else {
      StepKeepsRolesDistinct(s, actions[0]);
      RunsKeepRolesUnique(Step(s, actions[0]), actions[1..]);
    }
  }

  /**
   The service's own look-ups already catch every clash with a live role: the database index
   only fires for a soft-deleted role, or for a name or key that the update leaves empty.
   */
  lemma IndexFiresOnlyForDeleted(s: State, id: string, p: RolePatch, user: User, clears: bool)
    requires RolesDistinct(s.roles)
    requires UpdateRoleSpec(s, id, p, user, clears) == Failed(DuplicateKey)
    ensures p.name == Some("") || p.key == Some("")
            || exists r :: r in s.roles && r.deleted && (Some(r.name) == p.name || Some(r.key) == p.key)
  {
  }
}
