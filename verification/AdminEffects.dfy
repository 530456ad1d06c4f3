/** What each menu and role command refuses and stores, field by field. */
module AdminEffects {
  import opened Common
  import opened MenuTree
  import opened AdminBackend
  import opened Visibility

  // ---- Menus -----------------------------------------------------------------------------------

  /** Only the menus differ, apart from a cleared cache. */
  predicate ChangesMenus(s: State, t: State, clears: bool) {
    t.roles == s.roles && t.cache == if clears then map[] else s.cache
  }

  /** The group is stored in small letters. */
  ghost predicate StoredGroup(given: Option<string>, stored: Option<string>) {
    (given.None? <==> stored.None?) && (given.Some? ==> SameButCase(given.value, stored.value))
  }

  lemma LowerGroupStores(given: Option<string>)
    ensures StoredGroup(given, LowerGroup(given))
  {
    if given.Some? {
      LoweredIff(given.value, ToLower(given.value));
    }
  }

  /** A given order is taken over; otherwise the item comes right behind the last live sibling. */
  ghost predicate TakesPlace(menus: seq<Menu>, d: MenuDraft, order: int) {
    if d.order.Some? then order == d.order.value
    else
      && (forall m | m in menus && !m.deleted && m.parent == d.parent :: m.order < order)
      && (if forall m | m in menus && !m.deleted :: m.parent != d.parent then order == 0
          else exists m :: m in menus && !m.deleted && m.parent == d.parent && m.order + 1 == order)
  }

  lemma NextOrderTakesPlace(menus: seq<Menu>, d: MenuDraft)
    ensures TakesPlace(menus, d, Or(d.order, NextOrder(menus, d.parent)))
  {
    hide Orders;
    var orders := Orders(menus, d.parent);
    if d.order.None? {
      forall m | m in menus && !m.deleted && m.parent == d.parent
        ensures m.order in orders && m.order <= Highest(orders)
      {
        assert IsSibling(m, d.parent);
        assert m.order in orders;
        var i :| 0 <= i < |orders| && orders[i] == m.order;
      }
      if orders != [] {
        assert Highest(orders) in orders;
        var m :| m in menus && IsSibling(m, d.parent) && m.order == Highest(orders);
      }
    }
  }

  ghost predicate IsDrafted(menus: seq<Menu>, id: string, d: MenuDraft, m: Menu) {
    && m.id == id && m.name == d.name && m.path == d.path && m.parent == d.parent && !m.deleted
    && m.permissionKey == d.permissionKey && m.isActive == d.isActive && m.isVisible == d.isVisible
    && StoredGroup(d.group, m.group) && TakesPlace(menus, d, m.order)
  }

  /** A create is refused for a live item with the path or a used id; otherwise the item is added at the end. */
  lemma MenuIsCreated(s: State, id: string, d: MenuDraft, clears: bool)
    ensures var taken := exists m :: m in s.menus && !m.deleted && m.path == d.path;
            var o, n := CreateMenuSpec(s, id, d, clears), |s.menus|;
            && (o == Failed(Conflict) <==> taken)
            && (o == Failed(DuplicateKey) <==> !taken && exists m :: m in s.menus && m.id == id)
            && (o.Failed? ==> o.error == Conflict || o.error == DuplicateKey)
            && (o.Done? ==>
                  && ChangesMenus(s, o.state, clears)
                  && |o.state.menus| == n + 1 && o.state.menus[..n] == s.menus
                  && IsDrafted(s.menus, id, d, o.state.menus[n]))
  {
    hide TakesPlace, StoredGroup, NextOrder, LowerGroup;
    NextOrderTakesPlace(s.menus, d);
    LowerGroupStores(d.group);
  }

  /** Each field is the given one, or else what it was. */
  ghost predicate IsPatched(m: Menu, p: MenuPatch, q: Menu) {
    && q.id == m.id && q.deleted == m.deleted
    && (if p.name.Some? then p.name == Some(q.name) else q.name == m.name)
    && (if p.path.Some? then p.path == Some(q.path) else q.path == m.path)
    && (if p.parent.Some? then p.parent == Some(q.parent) else q.parent == m.parent)
    && (if p.permissionKey.Some? then p.permissionKey == Some(q.permissionKey) else q.permissionKey == m.permissionKey)
    && (if p.order.Some? then p.order == Some(q.order) else q.order == m.order)
    && (if p.isActive.Some? then p.isActive == Some(q.isActive) else q.isActive == m.isActive)
    && (if p.isVisible.Some? then p.isVisible == Some(q.isVisible) else q.isVisible == m.isVisible)
    && (if p.group.Some? then StoredGroup(p.group, q.group) else q.group == m.group)
  }

  /** An update is refused for another live item with the path or a missing item; otherwise that item changes. */
  lemma MenuIsUpdated(s: State, id: string, p: MenuPatch, clears: bool)
    ensures var taken := exists m, path :: m in s.menus && !m.deleted && m.id != id && p.path == Some(path)
                                           && path != "" && m.path == path;
            var o := UpdateMenuSpec(s, id, p, clears);
            && (o == Failed(Conflict) <==> taken)
            && (o == Failed(NotFound) <==> !taken && forall m | m in s.menus && m.id == id :: m.deleted)
            && (o.Failed? ==> o.error == Conflict || o.error == NotFound)
            && (o.Done? ==>
                  && ChangesMenus(s, o.state, clears) && |o.state.menus| == |s.menus|
                  && forall i | 0 <= i < |s.menus| ::
                       if s.menus[i].id == id && !s.menus[i].deleted then IsPatched(s.menus[i], p, o.state.menus[i])
                       else o.state.menus[i] == s.menus[i])
  {
    hide StoredGroup, LowerGroup;
    LowerGroupStores(p.group);
  }

  /** A delete marks the item and moves every live sibling behind it up by one; nothing else changes. */
  lemma MenuIsDeleted(s: State, id: string, clears: bool)
    requires UniqueIds(s.menus)
    ensures var o := DeleteMenuSpec(s, id, clears);
            && (o == Failed(NotFound) <==> forall m | m in s.menus && m.id == id :: m.deleted)
            && (o.Failed? ==> o.error == NotFound)
            && (o.Done? ==>
                  && ChangesMenus(s, o.state, clears) && |o.state.menus| == |s.menus|
                  && exists gone :: gone in s.menus && gone.id == id && !gone.deleted
                       && forall i | 0 <= i < |s.menus| ::
                            var m := s.menus[i];
                            o.state.menus[i] == if m == gone then m.(deleted := true)
                                                else if !m.deleted && m.parent == gone.parent && m.order > gone.order
                                                then m.(order := m.order - 1) else m)
  {
    var o := DeleteMenuSpec(s, id, clears);
    if o.Done? {
      var gone := FindMenu(s.menus, id).value;
      forall i | 0 <= i < |s.menus|
        ensures var m := s.menus[i];
                o.state.menus[i] == if m == gone then m.(deleted := true)
                                    else if !m.deleted && m.parent == gone.parent && m.order > gone.order
                                    then m.(order := m.order - 1) else m
      {
        if s.menus[i].id == id {
          IdDeterminesItem(s.menus, s.menus[i], gone);
        }
      }
    }
  }

  // ---- Roles --------------------------------------------------------------------------------------

  const AREAS: seq<string> := ["feature-toggle", "settings", "support-ticket"]

  /** The permissions only a super admin may give: viewing and updating in four areas, and more for the menus. */
  predicate ProtectedByName(p: string) {
    || (exists area :: area in AREAS && (p == area + ".view" || p == area + ".update"))
    || p == "sidebar-menu.view" || p == "sidebar-menu.update" || p == "sidebar-menu.read_all"
    || p == "sidebar-menu.create" || p == "sidebar-menu.delete"
  }

  lemma ProtectedIff(p: string)
    ensures p in PROTECTED_PERMISSIONS <==> ProtectedByName(p)
  {
    Joined();
    AreaIff(p);
  }

  lemma Joined()
    ensures "feature-toggle" + ".view" == "feature-toggle.view"
    ensures "feature-toggle" + ".update" == "feature-toggle.update"
    ensures "settings" + ".view" == "settings.view" && "settings" + ".update" == "settings.update"
    ensures "support-ticket" + ".view" == "support-ticket.view"
    ensures "support-ticket" + ".update" == "support-ticket.update"
  {
  }

  lemma AreaIff(p: string)
    ensures (exists area :: area in AREAS && (p == area + ".view" || p == area + ".update")) <==>
              || p == "feature-toggle" + ".view" || p == "feature-toggle" + ".update"
              || p == "settings" + ".view" || p == "settings" + ".update"
              || p == "support-ticket" + ".view" || p == "support-ticket" + ".update"
  {
    assert AREAS[0] in AREAS && AREAS[1] in AREAS && AREAS[2] in AREAS;
  }

  predicate IsSuperAdmin(user: User) {
    user == SignedIn(Some("super_admin"))
  }

  /** Only signed-in users are held to what they may grant. */
  predicate Held(user: User) {
    user.SignedIn? && !IsSuperAdmin(user)
  }

  /** A new role is refused in this order: what its creator may not grant, a live clash, an empty text, any clash. */
  lemma RoleIsCreated(s: State, id: string, d: RoleDraft, user: User)
    ensures var o, n := CreateRoleSpec(s, id, d, user), |s.roles|;
            var forbidden := Held(user) && d.permissions.Some?
                             && exists p :: p in d.permissions.value && (p == "*" || ProtectedByName(p));
            var taken := exists r :: r in s.roles && !r.deleted && (r.name == d.name || r.key == d.key);
            var used := exists r :: r in s.roles && (r.id == id || r.name == d.name || r.key == d.key);
            && (o == Failed(Forbidden) <==> forbidden)
            && (o == Failed(Conflict) <==> !forbidden && taken)
            && (o == Failed(Invalid) <==> !forbidden && !taken && (d.name == "" || d.key == ""))
            && (o == Failed(DuplicateKey) <==> !forbidden && !taken && d.name != "" && d.key != "" && used)
            && (o.Failed? ==> o.error != NotFound)
            && (o.Done? ==>
                  && o.state.menus == s.menus && o.state.cache == s.cache
                  && |o.state.roles| == n + 1 && o.state.roles[..n] == s.roles
                  && var r := o.state.roles[n];
                     r.id == id && r.name == d.name && r.key == d.key && !r.deleted
                     && r.permissions == if d.permissions.Some? then d.permissions.value else [])
  {
    hide ProtectedByName, KeepProtected;
    if d.permissions.Some? {
      HasProtectedIff(d.permissions.value);
    }
  }

  lemma HasProtectedIff(permissions: seq<string>)
    ensures KeepProtected(permissions) != [] <==> exists p :: p in permissions && ProtectedByName(p)
  {
    hide ProtectedByName;
    forall p
      ensures p in PROTECTED_PERMISSIONS <==> ProtectedByName(p)
    {
      ProtectedIff(p);
    }
    var kept := KeepProtected(permissions);
    if kept != [] {
      assert kept[0] in kept;
    }
  }

  /** What an update stores: the permissions asked for, to which a restricted user's update adds the protected ones. */
  ghost predicate StoresPermissions(role: Role, p: RolePatch, user: User, stored: seq<string>) {
    if p.permissions.None? then stored == role.permissions
    else if Held(user) then
      && NoDuplicates(stored)
      && (forall x :: x in stored <==> x in p.permissions.value || (x in role.permissions && ProtectedByName(x)))
      && AskedForFirst(p.permissions.value, stored)
    else stored == p.permissions.value
  }

  /** Whatever stands before one of these is one of these. */
  ghost predicate AskedForFirst(asked: seq<string>, stored: seq<string>) {
    forall i, j | 0 <= i < j < |stored| && stored[j] in asked :: stored[i] in asked
  }

  lemma StoredAre(role: Role, p: RolePatch, user: User)
    ensures StoresPermissions(role, p, user, StoredPermissions(role, p, user))
  {
    hide ProtectedByName, KeepProtected, Distinct;
    forall x
      ensures x in PROTECTED_PERMISSIONS <==> ProtectedByName(x)
    {
      ProtectedIff(x);
    }
    if p.permissions.Some? {
      AskedForComeFirst(p.permissions.value, KeepProtected(role.permissions));
    }
  }

  lemma {:induction false} AskedForComeFirst(asked: seq<string>, kept: seq<string>)
    ensures AskedForFirst(asked, Distinct(asked + kept))
    decreases |kept|
  {
    if kept == [] {
      assert asked + kept == asked;
    } else {
      var n := |kept| - 1;
      AskedForComeFirst(asked, kept[..n]);
      LastIsAdded(asked + kept[..n], kept[n]);
      assert asked + kept == asked + kept[..n] + [kept[n]];
      hide Distinct;
    }
  }

  lemma LastIsAdded(s: seq<string>, x: string)
    ensures Distinct(s + [x]) == if x in s then Distinct(s) else Distinct(s) + [x]
  {
    assert (s + [x])[..|s|] == s;
  }

  /** The user may not touch this role, or not make it that, or not grant what is added. */
  ghost predicate MayNotUpdate(role: Role, p: RolePatch, user: User) {
    || (role.key == "super_admin" && !IsSuperAdmin(user))
    || (role.key != "super_admin" && p.key == Some("super_admin"))
    || (Held(user) && p.permissions.Some?
        && exists x :: x in p.permissions.value && x !in role.permissions && (x == "*" || ProtectedByName(x)))
  }

  lemma MayNotUpdateIff(role: Role, p: RolePatch, user: User)
    ensures MayNotUpdate(role, p, user) <==>
              || (role.key == SUPER_ADMIN && !IsSuper(user))
              || (p.key == Some(SUPER_ADMIN) && role.key != SUPER_ADMIN)
              || (Restricted(user) && p.permissions.Some? && Escalates(role.permissions, p.permissions.value))
  {
    hide ProtectedByName;
    forall x
      ensures x in PROTECTED_PERMISSIONS <==> ProtectedByName(x)
    {
      ProtectedIff(x);
    }
  }

  /** Another live role has the name or key asked for; an empty text is not looked up. */
  ghost predicate AskedForIsTaken(roles: seq<Role>, id: string, p: RolePatch) {
    exists r :: r in roles && !r.deleted && r.id != id
      && ((p.name == Some(r.name) && r.name != "") || (p.key == Some(r.key) && r.key != ""))
  }

  /** An update replaces the given fields of one role, unless refused in this order. */
  lemma RoleIsUpdated(s: State, id: string, p: RolePatch, user: User, clears: bool)
    requires forall i, j | 0 <= i < j < |s.roles| :: s.roles[i].id != s.roles[j].id
    ensures var o := UpdateRoleSpec(s, id, p, user, clears);
            && (o == Failed(NotFound) <==> forall r | r in s.roles && r.id == id :: r.deleted)
            && forall k | 0 <= k < |s.roles| && s.roles[k].id == id && !s.roles[k].deleted ::
                 RoleUpdateIs(s, k, p, user, clears, o)
  {
    hide ProtectedByName, StoredPermissions, MayNotUpdate, AskedForIsTaken, StoresPermissions, Escalates;
    forall k | 0 <= k < |s.roles| && s.roles[k].id == id && !s.roles[k].deleted
      ensures RoleUpdateIs(s, k, p, user, clears, UpdateRoleSpec(s, id, p, user, clears))
    {
      RoleUpdatedAt(s, k, p, user, clears);
    }
  }

  ghost predicate RoleUpdateIs(s: State, k: nat, p: RolePatch, user: User, clears: bool, o: Outcome)
    requires k < |s.roles|
  {
    var role := s.roles[k];
    var name := if p.name.Some? then p.name.value else role.name;
    var key := if p.key.Some? then p.key.value else role.key;
    if MayNotUpdate(role, p, user) then o == Failed(Forbidden)
    else if AskedForIsTaken(s.roles, role.id, p) then o == Failed(Conflict)
    else if exists r :: r in s.roles && r.id != role.id && (r.name == name || r.key == key) then
      o == Failed(DuplicateKey)
    else
      && o.Done? && o.state.menus == s.menus && o.state.cache == (if clears then map[] else s.cache)
      && |o.state.roles| == |s.roles|
      && (forall i | 0 <= i < |s.roles| && i != k :: o.state.roles[i] == s.roles[i])
      && var r := o.state.roles[k];
         r.id == role.id && r.name == name && r.key == key && !r.deleted
         && StoresPermissions(role, p, user, r.permissions)
  }

  lemma RoleUpdatedAt(s: State, k: nat, p: RolePatch, user: User, clears: bool)
    requires forall i, j | 0 <= i < j < |s.roles| :: s.roles[i].id != s.roles[j].id
    requires k < |s.roles| && !s.roles[k].deleted
    ensures RoleUpdateIs(s, k, p, user, clears, UpdateRoleSpec(s, s.roles[k].id, p, user, clears))
  {
    hide ProtectedByName, StoredPermissions, MayNotUpdate, StoresPermissions, Escalates;
    var role := s.roles[k];
    assert role in s.roles;
    assert FindRole(s.roles, role.id) == Some(role);
    MayNotUpdateIff(role, p, user);
    StoredAre(role, p, user);
    TakenIff(s.roles, role.id, p);
    hide AskedForIsTaken, TakenBy;
  }

  lemma TakenIff(roles: seq<Role>, id: string, p: RolePatch)
    ensures AskedForIsTaken(roles, id, p) <==>
              exists r :: r in roles && !r.deleted && r.id != id && TakenBy(r, Or(p.name, ""), Or(p.key, ""))
  {
  }

  /** A removal marks the role, unless it is the super admin's; nothing else changes but the cache. */
  lemma RoleIsRemoved(s: State, id: string, clears: bool)
    requires forall i, j | 0 <= i < j < |s.roles| :: s.roles[i].id != s.roles[j].id
    ensures var o := RemoveRoleSpec(s, id, clears);
            && (o == Failed(NotFound) <==> forall r | r in s.roles && r.id == id :: r.deleted)
            && forall k | 0 <= k < |s.roles| && s.roles[k].id == id && !s.roles[k].deleted ::
                 if s.roles[k].key == "super_admin" then o == Failed(Forbidden)
                 else o == Done(State(s.menus, s.roles[k := s.roles[k].(deleted := true)],
                                      if clears then map[] else s.cache))
  {
    forall k | 0 <= k < |s.roles| && s.roles[k].id == id && !s.roles[k].deleted
      ensures FindRole(s.roles, id) == Some(s.roles[k])
      ensures ReplaceRole(s.roles, s.roles[k].(deleted := true)) == s.roles[k := s.roles[k].(deleted := true)]
    {
      assert s.roles[k] in s.roles;
    }
  }

  // ---- Reading ------------------------------------------------------------------------------------

  /** A request without a live role goes by the key "unknown" and carries nothing; any other goes by its role. */
  lemma RequestGoesBy(roles: seq<Role>, roleId: Option<string>)
    ensures var (key, permissions) := Identity(roles, roleId);
            if forall r | r in roles && !r.deleted :: roleId != Some(r.id) then key == "unknown" && permissions == []
            else exists r :: r in roles && !r.deleted && roleId == Some(r.id) && permissions == r.permissions
                             && key == if r.key == "" then "unknown" else r.key
  {
  }

  /** A read answers from the cache, or stores the answer under the reader's key, and changes nothing else. */
  lemma ReadStores(s: State, key: string, permissions: seq<string>, other: string)
    requires UniqueIds(s.menus)
    ensures var (tree, t) := ReadSpec(s, key, permissions);
            && t.menus == s.menus && t.roles == s.roles
            && key in t.cache && t.cache[key] == tree
            && (key in s.cache ==> t == s)
            && (key !in s.cache ==> tree == TreeFor(s.menus, key, permissions))
            && (other != key ==> (other in t.cache <==> other in s.cache)
                                 && (other in s.cache ==> t.cache[other] == s.cache[other]))
  {
    hide TreeFor;
  }

  /** An entry that runs out is gone, and no other. */
  lemma EvictionDrops(s: State, key: string, other: string)
    requires UniqueIds(s.menus)
    ensures var t := Step(s, Evict(key));
            && t.menus == s.menus && t.roles == s.roles && key !in t.cache
            && (other != key ==> (other in t.cache <==> other in s.cache)
                                 && (other in s.cache ==> t.cache[other] == s.cache[other]))
  {
  }
}
