/** The two services as they run: fields updated in place, one command at a time. */
module AdminService {
  import opened Common
  import opened MenuTree
  import opened AdminBackend

  class SidebarBackend {
    var menus: seq<Menu>
    var roles: seq<Role>
    var cache: map<string, seq<Tree>>

    ghost function View(): State
      reads this
    {
      State(menus, roles, cache)
    }

    constructor ()
      ensures View() == State([], [], map[])
    {
      menus, roles, cache := [], [], map[];
    }

    /** `clears` is false when the cache manager throws: the error is logged and swallowed. */
    method ClearCache(clears: bool)
      modifies this`cache
      ensures cache == Cleared(old(cache), clears)
    {
      if clears {
        cache := map[];
      }
    }

    ghost predicate Performs(before: State, outcome: Outcome, error: Option<Error>)
      reads this
    {
      match outcome
      case Done(after) => error == None && View() == after
      case Failed(e) => error == Some(e) && View() == before
    }

    method CreateSidebarMenu(id: string, draft: MenuDraft, clears: bool) returns (error: Option<Error>)
      modifies this
      ensures Performs(old(View()), CreateMenuSpec(old(View()), id, draft, clears), error)
    {
      var group := LowerGroup(draft.group);
      if PathTaken(menus, draft.path, None) {
        return Some(Conflict);
      }
      var order;
      if draft.order.Some? {
        order := draft.order.value;
      } else {
        var siblings := Orders(menus, draft.parent);
        if siblings == [] {
          order := 0;
        } else {
          order := Highest(siblings) + 1;
        }
      }
      if exists m :: m in menus && m.id == id {
        return Some(DuplicateKey);
      }
      menus := menus + [Menu(id, draft.name, draft.path, draft.parent, draft.permissionKey,
                             order, draft.isActive, draft.isVisible, group, false)];
      ClearCache(clears);
      error := None;
    }

    method UpdateSidebarMenu(id: string, patch: MenuPatch, clears: bool) returns (error: Option<Error>)
      modifies this
      ensures Performs(old(View()), UpdateMenuSpec(old(View()), id, patch, clears), error)
    {
      if patch.path.Some? && patch.path.value != "" {
        if PathTaken(menus, patch.path.value, Some(id)) {
          return Some(Conflict);
        }
      }
      if !LiveMenu(menus, id) {
        return Some(NotFound);
      }
      menus := PatchAll(menus, id, patch);
      ClearCache(clears);
      error := None;
    }

    method DeleteSidebarMenu(id: string, clears: bool) returns (error: Option<Error>)
      modifies this
      ensures Performs(old(View()), DeleteMenuSpec(old(View()), id, clears), error)
    {
      var found := FindMenu(menus, id);
      if found.None? {
        return Some(NotFound);
      }
      var parent, order := found.value.parent, found.value.order;
      menus := MarkDeleted(menus, id);
      menus := ShiftUp(menus, parent, order);
      ClearCache(clears);
      error := None;
    }

    method GetUserSidebarMenus(permissions: seq<string>, key: string) returns (tree: seq<Tree>)
      requires UniqueIds(menus)
      modifies this`cache
      ensures tree == ReadSpec(old(View()), key, permissions).0
      ensures View() == ReadSpec(old(View()), key, permissions).1
    {
      if key in cache {
        return cache[key];
      }
      var superAdmin := key == SUPER_ADMIN;
      var listed := SortByOrder(ListedMenus(menus, superAdmin));
      var filtered;
      if superAdmin {
        filtered := listed;
        EverythingPermitted(listed, Clean(permissions));
      } else {
        filtered := PermittedMenus(listed, false, Clean(permissions));
      }
      ShownIsUnique(menus, key, permissions);
      tree := Forest(filtered, [], None);
      cache := cache[key := tree];
    }

    method CreateRole(id: string, draft: RoleDraft, user: User) returns (error: Option<Error>)
      modifies this
      ensures Performs(old(View()), CreateRoleSpec(old(View()), id, draft, user), error)
    {
      if Restricted(user) && draft.permissions.Some? {
        var permissions := draft.permissions.value;
        if WILDCARD in permissions {
          return Some(Forbidden);
        }
        if |KeepProtected(permissions)| > 0 {
          return Some(Forbidden);
        }
      }
      if exists r :: r in roles && !r.deleted && (r.name == draft.name || r.key == draft.key) {
        return Some(Conflict);
      }
      if draft.key == SUPER_ADMIN {
        if exists r :: r in roles && !r.deleted && r.key == SUPER_ADMIN {
          return Some(Conflict);
        }
      }
      if draft.name == "" || draft.key == "" {
        return Some(Invalid);
      }
      if exists r :: r in roles && (r.id == id || r.name == draft.name || r.key == draft.key) {
        return Some(DuplicateKey);
      }
      roles := roles + [Role(id, draft.name, draft.key, Or(draft.permissions, []), false)];
      error := None;
    }

    method UpdateRole(id: string, patch: RolePatch, user: User, clears: bool) returns (error: Option<Error>)
      modifies this
      ensures Performs(old(View()), UpdateRoleSpec(old(View()), id, patch, user, clears), error)
    {
      var found := FindRole(roles, id);
      if found.None? {
        return Some(NotFound);
      }
      var role := found.value;
      if role.key == SUPER_ADMIN && !IsSuper(user) {
        return Some(Forbidden);
      }
      if patch.key == Some(SUPER_ADMIN) && role.key != SUPER_ADMIN {
        return Some(Forbidden);
      }
      var permissions := patch.permissions;
      if Restricted(user) && permissions.Some? {
        if exists p :: p in permissions.value && p !in role.permissions && p == WILDCARD {
          return Some(Forbidden);
        }
        if exists p :: p in permissions.value && p !in role.permissions && p in PROTECTED_PERMISSIONS {
          return Some(Forbidden);
        }
        permissions := Some(Distinct(permissions.value + KeepProtected(role.permissions)));
      }
      var name, key := Or(patch.name, role.name), Or(patch.key, role.key);
      if Or(patch.name, "") != "" || Or(patch.key, "") != "" {
        if exists r :: r in roles && !r.deleted && r.id != id && TakenBy(r, Or(patch.name, ""), Or(patch.key, "")) {
          return Some(Conflict);
        }
      }
      if IndexClash(roles, id, name, key) {
        return Some(DuplicateKey);
      }
      roles := ReplaceRole(roles, Role(id, name, key, Or(permissions, role.permissions), false));
      ClearCache(clears);
      error := None;
    }

    method RemoveRole(id: string, clears: bool) returns (error: Option<Error>)
      modifies this
      ensures Performs(old(View()), RemoveRoleSpec(old(View()), id, clears), error)
    {
      var found := FindRole(roles, id);
      if found.None? {
        return Some(NotFound);
      }
      if found.value.key == SUPER_ADMIN {
        return Some(Forbidden);
      }
      roles := ReplaceRole(roles, found.value.(deleted := true));
      ClearCache(clears);
      error := None;
    }
  }

  lemma {:induction false} EverythingPermitted(menus: seq<Menu>, permissions: seq<string>)
    ensures PermittedMenus(menus, true, permissions) == menus
  {
    if menus != [] {
      EverythingPermitted(menus[..|menus| - 1], permissions);
      assert menus == menus[..|menus| - 1] + [menus[|menus| - 1]];
    }
  }
}
