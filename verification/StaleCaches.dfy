/**
 Which steps leave a cached tree stale. A write whose cache clear throws (src/core/sidebar-menu/sidebar-menu.service.ts,
 clearSidebarMenuCache) goes through all the same, and then every tree it changes for a cached role is out of date.
 */
module StaleCaches {
  import opened Common
  import opened MenuTree
  import opened AdminBackend
  import opened AdminTheorems

  // ---- The levels of a shown tree --------------------------------------------------------

  predicate AtLevel(m: Menu, key: string, permissions: seq<string>, parent: Option<string>) {
    m.parent == parent && Shows(m, key, permissions)
  }

  /** The items shown below a parent, in the order of the collection. */
  function Picked(menus: seq<Menu>, key: string, permissions: seq<string>, parent: Option<string>): seq<Menu> {
    if menus == [] then []
    else
      var rest, m := Picked(menus[..|menus| - 1], key, permissions, parent), menus[|menus| - 1];
      if AtLevel(m, key, permissions, parent) then rest + [m] else rest
  }

  lemma PickedAppend(s: seq<Menu>, m: Menu, key: string, permissions: seq<string>, parent: Option<string>)
    ensures var picked := Picked(s, key, permissions, parent);
            Picked(s + [m], key, permissions, parent)
            == if AtLevel(m, key, permissions, parent) then picked + [m] else picked
  {
    hide AtLevel;
    assert (s + [m])[..|s|] == s;
  }

  lemma {:induction false} PickedMembers(s: seq<Menu>, key: string, permissions: seq<string>, parent: Option<string>)
    ensures forall m :: m in Picked(s, key, permissions, parent) <==> m in s && AtLevel(m, key, permissions, parent)
  {
    hide AtLevel;
    if s != [] {
      PickedMembers(s[..|s| - 1], key, permissions, parent);
      assert s == s[..|s| - 1] + [s[|s| - 1]];
    }
  }

  lemma LastListed(menus: seq<Menu>, superAdmin: bool)
    requires menus != []
    ensures var listed, m := ListedMenus(menus[..|menus| - 1], superAdmin), menus[|menus| - 1];
            ListedMenus(menus, superAdmin) == if Listed(m, superAdmin) then listed + [m] else listed
  {
    hide Listed;
    var listed := ListedMenus(menus[..|menus| - 1], superAdmin);
    assert listed + [] == listed;
  }

  lemma AtLevelIsListed(m: Menu, key: string, permissions: seq<string>, parent: Option<string>)
    ensures AtLevel(m, key, permissions, parent) ==> Listed(m, key == SUPER_ADMIN)
  {
    hide Listed, Permitted, Clean;
  }

  lemma {:induction false} PickedFromListed(
    menus: seq<Menu>, key: string, permissions: seq<string>, parent: Option<string>)
    ensures Picked(ListedMenus(menus, key == SUPER_ADMIN), key, permissions, parent)
         == Picked(menus, key, permissions, parent)
  {
    hide ListedMenus, AtLevel, Listed;
    if menus == [] {
      assert ListedMenus([], key == SUPER_ADMIN) == [] by { ListedNone(key == SUPER_ADMIN); }
    } else {
      var front, m := menus[..|menus| - 1], menus[|menus| - 1];
      PickedFromListed(front, key, permissions, parent);
      LastListed(menus, key == SUPER_ADMIN);
      AtLevelIsListed(m, key, permissions, parent);
      PickedAppend(ListedMenus(front, key == SUPER_ADMIN), m, key, permissions, parent);
    }
  }

  lemma ListedNone(superAdmin: bool)
    ensures ListedMenus([], superAdmin) == []
  {
  }

  lemma ChildrenAppend(s: seq<Menu>, m: Menu, parent: Option<string>)
    ensures ChildrenOf(s + [m], parent)
         == if m.parent == parent then ChildrenOf(s, parent) + [m] else ChildrenOf(s, parent)
  {
    assert (s + [m])[..|s|] == s;
  }

  lemma LastPermitted(s: seq<Menu>, key: string, permissions: seq<string>, parent: Option<string>)
    requires s != [] && Listed(s[|s| - 1], key == SUPER_ADMIN)
    ensures var superAdmin, m := key == SUPER_ADMIN, s[|s| - 1];
            var kids := ChildrenOf(PermittedMenus(s[..|s| - 1], superAdmin, Clean(permissions)), parent);
            ChildrenOf(PermittedMenus(s, superAdmin, Clean(permissions)), parent)
            == if AtLevel(m, key, permissions, parent) then kids + [m] else kids
  {
    hide Listed, Permitted, Clean, ChildrenOf;
    var permitted := PermittedMenus(s[..|s| - 1], key == SUPER_ADMIN, Clean(permissions));
    ChildrenAppend(permitted, s[|s| - 1], parent);
    assert permitted + [] == permitted;
  }

  lemma {:induction false} PickedFromPermitted(
    s: seq<Menu>, key: string, permissions: seq<string>, parent: Option<string>)
    requires forall m | m in s :: Listed(m, key == SUPER_ADMIN)
    ensures ChildrenOf(PermittedMenus(s, key == SUPER_ADMIN, Clean(permissions)), parent)
         == Picked(s, key, permissions, parent)
  {
    hide Listed, Clean, AtLevel;
    if s != [] {
      var front, m := s[..|s| - 1], s[|s| - 1];
      assert m in s && forall x | x in front :: x in s;
      PickedFromPermitted(front, key, permissions, parent);
      LastPermitted(s, key, permissions, parent);
      hide ChildrenOf, PermittedMenus;
    }
  }

  /** Sorting and picking commute: the sort is stable. */
  lemma {:induction false} PickedFromInserted(
    s: seq<Menu>, m: Menu, key: string, permissions: seq<string>, parent: Option<string>)
    requires SortedByOrder(s)
    ensures var picked := Picked(s, key, permissions, parent);
            Picked(Insert(s, m), key, permissions, parent)
            == if AtLevel(m, key, permissions, parent) then Insert(picked, m) else picked
  {
    hide AtLevel, Picked;
    if s == [] || s[|s| - 1].order <= m.order {
      PickedBehind(s, m, key, permissions, parent);
    } else {
      var front, last := s[..|s| - 1], s[|s| - 1];
      assert s == front + [last];
      PickedFromInserted(front, m, key, permissions, parent);
      InsertBefore(front, last, m);
      hide Insert, SortedByOrder;
      PickedAppend(Insert(front, m), last, key, permissions, parent);
      PickedAppend(front, last, key, permissions, parent);
      InsertBefore(Picked(front, key, permissions, parent), last, m);
    }
  }

  lemma PickedBehind(s: seq<Menu>, m: Menu, key: string, permissions: seq<string>, parent: Option<string>)
    requires SortedByOrder(s) && (s == [] || s[|s| - 1].order <= m.order)
    ensures var picked := Picked(s, key, permissions, parent);
            Picked(Insert(s, m), key, permissions, parent)
            == if AtLevel(m, key, permissions, parent) then Insert(picked, m) else picked
  {
    hide AtLevel, Picked;
    var picked := Picked(s, key, permissions, parent);
    PickedAppend(s, m, key, permissions, parent);
    PickedMembers(s, key, permissions, parent);
    LastIsHighest(s, picked);
    hide SortedByOrder;
  }

  lemma LastIsHighest(s: seq<Menu>, some: seq<Menu>)
    requires SortedByOrder(s) && forall x | x in some :: x in s
    ensures some != [] ==> s != [] && some[|some| - 1].order <= s[|s| - 1].order
  {
    assert some != [] ==> some[|some| - 1] in s;
  }

  lemma InsertBefore(s: seq<Menu>, last: Menu, m: Menu)
    requires last.order > m.order
    ensures Insert(s + [last], m) == Insert(s, m) + [last]
  {
    assert (s + [last])[..|s|] == s;
  }

  lemma SortAppend(s: seq<Menu>, m: Menu)
    ensures SortByOrder(s + [m]) == Insert(SortByOrder(s), m)
  {
    assert (s + [m])[..|s|] == s;
  }

  lemma {:induction false} PickedFromSorted(
    s: seq<Menu>, key: string, permissions: seq<string>, parent: Option<string>)
    ensures Picked(SortByOrder(s), key, permissions, parent) == SortByOrder(Picked(s, key, permissions, parent))
  {
    hide AtLevel, Insert;
    if s != [] {
      var front, m := s[..|s| - 1], s[|s| - 1];
      PickedFromSorted(front, key, permissions, parent);
      SortSorted(front);
      PickedFromInserted(SortByOrder(front), m, key, permissions, parent);
      SortAppend(Picked(front, key, permissions, parent), m);
    }
  }

  /** Every level of the shown list: what is picked for it, sorted by order. */
  lemma LevelOfShown(menus: seq<Menu>, key: string, permissions: seq<string>, parent: Option<string>)
    ensures ChildrenOf(Shown(menus, key, permissions), parent)
         == SortByOrder(Picked(menus, key, permissions, parent))
  {
    hide PermittedMenus, SortByOrder, ListedMenus, Picked, Listed;
    var listed := ListedMenus(menus, key == SUPER_ADMIN);
    ListedMembers(menus, key == SUPER_ADMIN);
    SortMembers(listed);
    PickedFromPermitted(SortByOrder(listed), key, permissions, parent);
    PickedFromSorted(listed, key, permissions, parent);
    PickedFromListed(menus, key, permissions, parent);
  }

  // ---- When a write changes a tree -----------------------------------------------------------

  /** Every item stays in its place, whatever becomes of its fields; new ones come behind. */
  predicate SameSlots(a: seq<Menu>, b: seq<Menu>) {
    |a| <= |b| && forall i | 0 <= i < |a| :: a[i].id == b[i].id
  }

  lemma {:induction false} SamePicked(
    a: seq<Menu>, b: seq<Menu>, key: string, before: seq<string>, after: seq<string>, parent: Option<string>)
    requires |a| <= |b|
    requires forall i | 0 <= i < |b| && AtLevel(b[i], key, after, parent) :: i < |a| && a[i] == b[i]
    requires forall i | 0 <= i < |a| && AtLevel(a[i], key, before, parent) :: a[i] == b[i]
    requires forall i | 0 <= i < |a| && a[i] == b[i] ::
               AtLevel(a[i], key, before, parent) <==> AtLevel(b[i], key, after, parent)
    ensures Picked(a, key, before, parent) == Picked(b, key, after, parent)
    decreases |b|
  {
    hide AtLevel;
    if |b| > |a| {
      SamePicked(a, b[..|b| - 1], key, before, after, parent);
    } else if b != [] {
      SamePicked(a[..|a| - 1], b[..|b| - 1], key, before, after, parent);
    }
  }

  /** The item is on a level the walk gets to before the write, and on it before or after, but not both. */
  ghost predicate Touched(
    a: seq<Menu>, b: seq<Menu>, key: string, before: seq<string>, after: seq<string>, x: Menu)
  {
    && Open(Shown(a, key, before), x.parent)
    && !(x in a && Shows(x, key, before) <==> x in b && Shows(x, key, after))
  }

  lemma LevelsAgreeIff(
    a: seq<Menu>, b: seq<Menu>, key: string, before: seq<string>, after: seq<string>, parent: Option<string>)
    requires UniqueIds(a) && UniqueIds(b) && SameSlots(a, b)
    requires Open(Shown(a, key, before), parent)
    ensures ChildrenOf(Shown(a, key, before), parent) == ChildrenOf(Shown(b, key, after), parent)
       <==> forall x: Menu | x.parent == parent :: !Touched(a, b, key, before, after, x)
  {
    hide Shown, Shows, Picked, SortByOrder;
    ShownIs(a, key, before);
    ShownIs(b, key, after);
    if forall x: Menu | x.parent == parent :: !Touched(a, b, key, before, after, x) {
      LevelOfShown(a, key, before, parent);
      LevelOfShown(b, key, after, parent);
      UntouchedSlots(a, b, key, before, after, parent);
      SamePicked(a, b, key, before, after, parent);
    } else {
      var x: Menu :| x.parent == parent && Touched(a, b, key, before, after, x);
      assert x in ChildrenOf(Shown(a, key, before), parent) <==> x !in ChildrenOf(Shown(b, key, after), parent);
    }
  }

  lemma ShownIs(menus: seq<Menu>, key: string, permissions: seq<string>)
    ensures forall m :: m in Shown(menus, key, permissions) <==> m in menus && Shows(m, key, permissions)
  {
    ShownMembers(menus, key, permissions);
  }

  lemma UntouchedSlots(
    a: seq<Menu>, b: seq<Menu>, key: string, before: seq<string>, after: seq<string>, parent: Option<string>)
    requires UniqueIds(a) && UniqueIds(b) && SameSlots(a, b)
    requires Open(Shown(a, key, before), parent)
    requires forall x: Menu | x.parent == parent :: !Touched(a, b, key, before, after, x)
    ensures forall i | 0 <= i < |b| && AtLevel(b[i], key, after, parent) :: i < |a| && a[i] == b[i]
    ensures forall i | 0 <= i < |a| && AtLevel(a[i], key, before, parent) :: a[i] == b[i]
    ensures forall i | 0 <= i < |a| && a[i] == b[i] ::
              AtLevel(a[i], key, before, parent) <==> AtLevel(b[i], key, after, parent)
  {
    hide Shown, Shows, Open;
    forall i | 0 <= i < |b| && AtLevel(b[i], key, after, parent)
      ensures i < |a| && a[i] == b[i]
    {
      assert !Touched(a, b, key, before, after, b[i]);
      var j :| 0 <= j < |a| && a[j] == b[i];
      assert b[j].id == b[i].id;
    }
    forall i | 0 <= i < |a| && AtLevel(a[i], key, before, parent)
      ensures a[i] == b[i]
    {
      assert !Touched(a, b, key, before, after, a[i]);
      var j :| 0 <= j < |b| && b[j] == a[i];
      assert b[i].id == b[j].id;
    }
    forall i | 0 <= i < |a| && a[i] == b[i]
      ensures AtLevel(a[i], key, before, parent) <==> AtLevel(b[i], key, after, parent)
    {
      if a[i].parent == parent {
        assert !Touched(a, b, key, before, after, a[i]);
      }
    }
  }

  /** A write changes the tree of a role if and only if it touches an item on some level the walk gets to. */
  lemma TreesAgreeIff(a: seq<Menu>, b: seq<Menu>, key: string, before: seq<string>, after: seq<string>)
    requires UniqueIds(a) && UniqueIds(b) && SameSlots(a, b)
    ensures TreeFor(a, key, before) == TreeFor(b, key, after) <==> !exists x :: Touched(a, b, key, before, after, x)
  {
    hide Shown, Touched, Open, Forest, ChildrenOf;
    ShownIsUnique(a, key, before);
    ShownIsUnique(b, key, after);
    var shown := Shown(a, key, before);
    SameForestIff(shown, Shown(b, key, after));
    forall p | Open(shown, p)
      ensures ChildrenOf(shown, p) == ChildrenOf(Shown(b, key, after), p)
         <==> forall x: Menu | x.parent == p :: !Touched(a, b, key, before, after, x)
    {
      LevelsAgreeIff(a, b, key, before, after, p);
    }
    forall x | Touched(a, b, key, before, after, x)
      ensures Open(shown, x.parent)
    {
      TouchedIsOpen(a, b, key, before, after, x);
    }
  }

  lemma TouchedIsOpen(a: seq<Menu>, b: seq<Menu>, key: string, before: seq<string>, after: seq<string>, x: Menu)
    ensures Touched(a, b, key, before, after, x) ==> Open(Shown(a, key, before), x.parent)
  {
  }

  // ---- What each write leaves stale when its clear fails ------------------------------------------

  /** A user of the role is shown the item, and its parent, if any, has a place in that user's tree. */
  ghost predicate HasPlace(s: State, key: string, m: Menu) {
    && Shows(m, key, PermissionsOf(s.roles, key))
    && Open(Shown(s.menus, key, PermissionsOf(s.roles, key)), m.parent)
  }

  ghost predicate CachedPlace(s: State, m: Menu) {
    exists key :: key in s.cache && HasPlace(s, key, m)
  }

  ghost predicate TouchedIn(s: State, t: State, key: string, x: Menu) {
    Touched(s.menus, t.menus, key, PermissionsOf(s.roles, key), PermissionsOf(t.roles, key), x)
  }

  lemma KeptCacheCoherentIff(s: State, t: State)
    requires UniqueIds(s.menus) && Coherent(s) && UniqueIds(t.menus) && t.cache == s.cache
    ensures Coherent(t) <==>
              forall key | key in s.cache :: TreeFor(s.menus, key, PermissionsOf(s.roles, key))
                                          == TreeFor(t.menus, key, PermissionsOf(t.roles, key))
  {
    hide TreeFor, PermissionsOf;
    assert forall key | key in s.cache :: Current(s, key);
    assert Coherent(t) <==> forall key | key in s.cache :: Current(t, key);
  }

  lemma KeptCacheTouchesIff(s: State, t: State)
    requires UniqueIds(s.menus) && Coherent(s) && UniqueIds(t.menus) && t.cache == s.cache
    requires SameSlots(s.menus, t.menus)
    ensures Coherent(t) <==> !exists key, x :: key in s.cache && TouchedIn(s, t, key, x)
  {
    hide TreeFor, PermissionsOf, Touched, Coherent, SameSlots;
    KeptCacheCoherentIff(s, t);
    forall key | key in s.cache
      ensures TreeFor(s.menus, key, PermissionsOf(s.roles, key)) == TreeFor(t.menus, key, PermissionsOf(t.roles, key))
         <==> !exists x :: TouchedIn(s, t, key, x)
    {
      TreesAgreeIff(s.menus, t.menus, key, PermissionsOf(s.roles, key), PermissionsOf(t.roles, key));
      assert forall x :: TouchedIn(s, t, key, x) <==>
          Touched(s.menus, t.menus, key, PermissionsOf(s.roles, key), PermissionsOf(t.roles, key), x);
    }
  }

  /** An uncleared create leaves a stale tree exactly if some cached role has a place for the new item. */
  lemma UnclearedCreateIff(s: State, id: string, d: MenuDraft)
    requires UniqueIds(s.menus) && Coherent(s) && CreateMenuSpec(s, id, d, false).Done?
    ensures var t := CreateMenuSpec(s, id, d, false).state;
            UniqueIds(t.menus) && (Coherent(t) <==> !CachedPlace(s, Drafted(s.menus, id, d)))
  {
    hide Drafted, PermissionsOf, Shows, Coherent;
    var t, m := CreateMenuSpec(s, id, d, false).state, Drafted(s.menus, id, d);
    DraftedId(s.menus, id, d);
    KeptCacheTouchesIff(s, t);
    assert forall x | x in s.menus :: x != m;
    hide HasPlace, TouchedIn;
    forall key, x
      ensures TouchedIn(s, t, key, x) ==> x == m
    {
      AppendTouches(s, t, m, key, x);
    }
    forall key
      ensures HasPlace(s, key, m) <==> TouchedIn(s, t, key, m)
    {
      AppendTouches(s, t, m, key, m);
    }
  }

  lemma AppendTouches(s: State, t: State, m: Menu, key: string, x: Menu)
    requires t.menus == s.menus + [m] && t.roles == s.roles && m !in s.menus
    ensures TouchedIn(s, t, key, x) <==> x == m && HasPlace(s, key, m)
  {
    hide PermissionsOf, Shows, Open;
    assert x in t.menus <==> x in s.menus || x == m;
  }

  lemma DraftedId(menus: seq<Menu>, id: string, d: MenuDraft)
    ensures Drafted(menus, id, d).id == id
  {
  }

  lemma PatchAllMembers(menus: seq<Menu>, m: Menu, p: MenuPatch)
    requires UniqueIds(menus) && m in menus && !m.deleted
    ensures var q, after := Patched(m, p), PatchAll(menus, m.id, p);
            && UniqueIds(after) && SameSlots(menus, after)
            && (q == m ==> after == menus)
            && (q != m ==> q !in menus && m !in after)
            && forall x :: x in after <==> x == q || (x in menus && x != m)
  {
    var q, after := Patched(m, p), PatchAll(menus, m.id, p);
    PatchedId(m, p);
    hide Patched;
    var k :| 0 <= k < |menus| && menus[k] == m;
    assert after == menus[k := q];
    assert after[k] == q;
    forall x | x in menus && x != m
      ensures x in after
    {
      var i :| 0 <= i < |menus| && menus[i] == x;
      assert after[i] == x;
    }
  }

  lemma PatchedId(m: Menu, p: MenuPatch)
    ensures Patched(m, p).id == m.id
  {
  }

  /** An uncleared update leaves a stale tree exactly if it changes an item that had a place, or now has one. */
  lemma UnclearedUpdateIff(s: State, m: Menu, p: MenuPatch)
    requires UniqueIds(s.menus) && Coherent(s) && m in s.menus && !m.deleted
    ensures var t, q := s.(menus := PatchAll(s.menus, m.id, p)), Patched(m, p);
            UniqueIds(t.menus) && (Coherent(t) <==> q == m || !(CachedPlace(s, m) || CachedPlace(s, q)))
  {
    hide Patched, PatchAll, PermissionsOf, Shows, Coherent;
    var t, q := s.(menus := PatchAll(s.menus, m.id, p)), Patched(m, p);
    PatchAllMembers(s.menus, m, p);
    KeptCacheTouchesIff(s, t);
    if q != m {
      assert forall key :: HasPlace(s, key, m) <==> TouchedIn(s, t, key, m);
      assert forall key :: HasPlace(s, key, q) <==> TouchedIn(s, t, key, q);
      assert forall key, x :: TouchedIn(s, t, key, x) ==> x == m || x == q;
    }
  }

  /** What a delete changes: the item itself, and the siblings it moves up. */
  predicate DisplacedBy(x: Menu, gone: Menu) {
    x == gone || (IsSibling(x, gone.parent) && x.order > gone.order)
  }

  lemma AfterDeleteMembers(menus: seq<Menu>, gone: Menu)
    requires UniqueIds(menus) && gone in menus && !gone.deleted
    ensures var after := AfterDelete(menus, gone);
            && UniqueIds(after) && SameSlots(menus, after)
            && (forall x :: x in after <==> exists y :: y in menus && Moved(y, gone) == x)
            && (forall y | y in menus :: y in after <==> !DisplacedBy(y, gone))
  {
    hide Moved, DisplacedBy;
    var after := AfterDelete(menus, gone);
    AfterDeleteIsMoved(menus, gone);
    hide AfterDelete;
    forall y | y in menus
      ensures Moved(y, gone) in after && (y in after <==> !DisplacedBy(y, gone))
    {
      var i :| 0 <= i < |menus| && menus[i] == y;
      assert after[i] == Moved(y, gone);
      MovesIff(menus, y, gone);
      if y in after {
        var j :| 0 <= j < |after| && after[j] == y;
        assert menus[j].id == menus[i].id;
      }
    }
  }

  lemma AfterDeleteIsMoved(menus: seq<Menu>, gone: Menu)
    requires UniqueIds(menus)
    ensures var after := AfterDelete(menus, gone);
            && UniqueIds(after) && SameSlots(menus, after) && |after| == |menus|
            && forall i | 0 <= i < |menus| :: after[i] == Moved(menus[i], gone)
  {
  }

  lemma MovesIff(menus: seq<Menu>, y: Menu, gone: Menu)
    requires UniqueIds(menus) && gone in menus && !gone.deleted && y in menus
    ensures Moved(y, gone) != y <==> DisplacedBy(y, gone)
    ensures Moved(y, gone).id == y.id && Moved(y, gone).parent == y.parent
    ensures y == gone ==> Moved(y, gone).deleted
    ensures y != gone ==> Moved(y, gone).(order := y.order) == y
  {
    if y.id == gone.id {
      IdDeterminesItem(menus, y, gone);
    }
  }

  lemma OrderIsNoMatter(x: Menu, y: Menu, key: string, permissions: seq<string>)
    requires x.(order := y.order) == y
    ensures Shows(x, key, permissions) <==> Shows(y, key, permissions)
  {
    hide Clean;
  }

  /** An uncleared delete leaves a stale tree exactly if the item, or a sibling behind it, had a place in one. */
  lemma UnclearedDeleteIff(s: State, gone: Menu)
    requires UniqueIds(s.menus) && Coherent(s) && gone in s.menus && !gone.deleted
    ensures var t := s.(menus := AfterDelete(s.menus, gone));
            UniqueIds(t.menus) &&
            (Coherent(t) <==> !exists y :: y in s.menus && DisplacedBy(y, gone) && CachedPlace(s, y))
  {
    hide AfterDelete, PermissionsOf, Shows, Coherent;
    var t := s.(menus := AfterDelete(s.menus, gone));
    AfterDeleteMembers(s.menus, gone);
    KeptCacheTouchesIff(s, t);
    forall key, y | y in s.menus && DisplacedBy(y, gone) && HasPlace(s, key, y)
      ensures TouchedIn(s, t, key, y)
    {
    }
    forall key, x | TouchedIn(s, t, key, x)
      ensures exists y :: y in s.menus && DisplacedBy(y, gone) && HasPlace(s, key, y)
    {
      var y := DeleteTouches(s, t, gone, key, x);
    }
  }

  lemma DeleteTouches(s: State, t: State, gone: Menu, key: string, x: Menu) returns (y: Menu)
    requires UniqueIds(s.menus) && gone in s.menus && !gone.deleted
    requires t == s.(menus := AfterDelete(s.menus, gone)) && TouchedIn(s, t, key, x)
    ensures y in s.menus && DisplacedBy(y, gone) && HasPlace(s, key, y)
  {
    hide AfterDelete, PermissionsOf, Shows, Moved;
    AfterDeleteMembers(s.menus, gone);
    if x in s.menus && Shows(x, key, PermissionsOf(s.roles, key)) {
      y := x;
    } else {
      y :| y in s.menus && Moved(y, gone) == x;
      MovesIff(s.menus, y, gone);
      if y == gone {
        DeletedIsNotShown(x, key, PermissionsOf(s.roles, key));
      } else {
        OrderIsNoMatter(x, y, key, PermissionsOf(s.roles, key));
      }
    }
  }

  lemma DeletedIsNotShown(m: Menu, key: string, permissions: seq<string>)
    ensures Shows(m, key, permissions) ==> !m.deleted
  {
  }

  // ---- Roles ---------------------------------------------------------------------------------------

  lemma {:induction false} OtherPermissionsKept(roles: seq<Role>, updated: Role, key: string)
    requires forall r | r in roles && r.id == updated.id :: r.key != key || r.deleted
    requires updated.key != key || updated.deleted
    ensures PermissionsOf(ReplaceRole(roles, updated), key) == PermissionsOf(roles, key)
  {
    if roles != [] {
      assert roles[0] in roles && forall r | r in roles[1..] :: r in roles;
      OtherPermissionsKept(roles[1..], updated, key);
      assert ReplaceRole(roles, updated)[1..] == ReplaceRole(roles[1..], updated);
    }
  }

  /** Whatever key a live role loses stands for no permissions afterwards. */
  lemma LostKeyIsBare(roles: seq<Role>, role: Role, updated: Role)
    requires RolesDistinct(roles) && role in roles && !role.deleted && updated.id == role.id
    requires updated.deleted || updated.key != role.key
    ensures PermissionsOf(ReplaceRole(roles, updated), role.key) == []
  {
    ReplaceRoleFacts(roles, updated, role);
    var after := ReplaceRole(roles, updated);
    forall r | r in after && !r.deleted
      ensures r.key != role.key
    {
      if r != updated && r.key == role.key {
        RoleByKey(roles, r, role);
      }
    }
    NoRoleNoPermissions(after, role.key);
  }

  /** The permissions under every key once a role is replaced. */
  lemma ReplacedPermissions(roles: seq<Role>, role: Role, updated: Role, key: string)
    requires RolesDistinct(roles) && role in roles && !role.deleted && updated.id == role.id
    requires updated.deleted || !IndexClash(roles, updated.id, updated.name, updated.key)
    ensures PermissionsOf(ReplaceRole(roles, updated), key)
         == if !updated.deleted && key == updated.key then updated.permissions
            else if key == role.key then []
            else PermissionsOf(roles, key)
  {
    hide PermissionsOf, ReplaceRole, IndexClash;
    if !updated.deleted && key == updated.key {
      ReplaceRoleFacts(roles, updated, role);
      PermissionsOfRole(ReplaceRole(roles, updated), updated);
    } else if key == role.key {
      LostKeyIsBare(roles, role, updated);
    } else {
      forall r | r in roles && r.id == updated.id
        ensures r == role
      {
        RoleByKey(roles, r, role);
      }
      OtherPermissionsKept(roles, updated, key);
    }
  }

  /** With the permissions before, the walk gets to the item's level, and exactly one of the two lists shows it. */
  ghost predicate Reshown(menus: seq<Menu>, key: string, before: seq<string>, after: seq<string>, m: Menu) {
    && m in menus && (Shows(m, key, before) <==> !Shows(m, key, after))
    && Open(Shown(menus, key, before), m.parent)
  }

  lemma SameMenusAgreeIff(menus: seq<Menu>, key: string, before: seq<string>, after: seq<string>)
    requires UniqueIds(menus)
    ensures TreeFor(menus, key, before) == TreeFor(menus, key, after)
       <==> !exists m :: Reshown(menus, key, before, after, m)
  {
    hide TreeFor, Shown, Shows, Open;
    TreesAgreeIff(menus, menus, key, before, after);
    assert forall m :: Reshown(menus, key, before, after, m) <==> Touched(menus, menus, key, before, after, m);
  }

  /** The update gives the role another tree than is cached for it, or its new key one other than the cached one. */
  ghost predicate RoleUpdateShows(s: State, role: Role, key: string, permissions: seq<string>) {
    if key == role.key then
      key in s.cache && exists m :: Reshown(s.menus, key, role.permissions, permissions, m)
    else
      || (role.key in s.cache && role.key != SUPER_ADMIN && ShowsSomeRoot(s.menus, role.key, role.permissions))
      || (key in s.cache && ShowsSomeRoot(s.menus, key, permissions))
  }

  lemma UnclearedRoleUpdateIff(s: State, role: Role, updated: Role)
    requires UniqueIds(s.menus) && RolesDistinct(s.roles) && Coherent(s)
    requires role in s.roles && !role.deleted && updated.id == role.id && !updated.deleted
    requires !IndexClash(s.roles, updated.id, updated.name, updated.key)
    requires updated.key == SUPER_ADMIN ==> role.key == SUPER_ADMIN
    ensures Coherent(s.(roles := ReplaceRole(s.roles, updated)))
       <==> !RoleUpdateShows(s, role, updated.key, updated.permissions)
  {
    hide TreeFor, PermissionsOf, Reshown, ShowsSomeRoot, ReplaceRole;
    var t := s.(roles := ReplaceRole(s.roles, updated));
    KeptCacheCoherentIff(s, t);
    forall key
      ensures PermissionsOf(t.roles, key) == if key == updated.key then updated.permissions
                                             else if key == role.key then [] else PermissionsOf(s.roles, key)
    {
      ReplacedPermissions(s.roles, role, updated, key);
    }
    PermissionsOfRole(s.roles, role);
    if updated.key == role.key {
      SameMenusAgreeIff(s.menus, role.key, role.permissions, updated.permissions);
    } else {
      NewKeyIsBare(s.roles, role, updated);
      EmptyTreeIff(s.menus, role.key, role.permissions);
      EmptyTreeIff(s.menus, updated.key, updated.permissions);
      NothingWithoutPermissions(s.menus, updated.key, []);
      if role.key == SUPER_ADMIN {
        SuperAdminSeesAll(s.menus, role.permissions, []);
      } else {
        NothingWithoutPermissions(s.menus, role.key, []);
      }
    }
  }

  lemma NewKeyIsBare(roles: seq<Role>, role: Role, updated: Role)
    requires !IndexClash(roles, updated.id, updated.name, updated.key) && RolesDistinct(roles) && role in roles
    requires role.id == updated.id && updated.key != role.key
    ensures PermissionsOf(roles, updated.key) == []
  {
    forall r | r in roles
      ensures r.key != updated.key
    {
      if r.id == role.id {
        RoleByKey(roles, r, role);
      }
    }
    NoRoleNoPermissions(roles, updated.key);
  }

  lemma SuperAdminSeesAll(menus: seq<Menu>, one: seq<string>, two: seq<string>)
    requires UniqueIds(menus)
    ensures TreeFor(menus, SUPER_ADMIN, one) == TreeFor(menus, SUPER_ADMIN, two)
  {
    hide TreeFor;
    SameMenusAgreeIff(menus, SUPER_ADMIN, one, two);
  }

  /** An uncleared removal leaves a stale tree exactly if one is cached for the role and the role is shown anything. */
  lemma UnclearedRemovalIff(s: State, role: Role)
    requires UniqueIds(s.menus) && RolesDistinct(s.roles) && Coherent(s)
    requires role in s.roles && !role.deleted && role.key != SUPER_ADMIN
    ensures Coherent(s.(roles := ReplaceRole(s.roles, role.(deleted := true))))
       <==> !(role.key in s.cache && ShowsSomeRoot(s.menus, role.key, role.permissions))
  {
    hide TreeFor, PermissionsOf, ShowsSomeRoot, ReplaceRole;
    var t := s.(roles := ReplaceRole(s.roles, role.(deleted := true)));
    KeptCacheCoherentIff(s, t);
    forall key
      ensures PermissionsOf(t.roles, key) == if key == role.key then [] else PermissionsOf(s.roles, key)
    {
      ReplacedPermissions(s.roles, role, role.(deleted := true), key);
    }
    PermissionsOfRole(s.roles, role);
    EmptyTreeIff(s.menus, role.key, role.permissions);
    NothingWithoutPermissions(s.menus, role.key, []);
  }

  // ---- Every step -----------------------------------------------------------------------------------

  /**
   The step is carried out and, without a clear, changes what some cached tree shows; or it is a read that carries
   other permissions than its role key stands for, and they show something else.
   */
  ghost predicate LeavesStale(s: State, a: Action)
    requires UniqueIds(s.menus)
  {
    OutcomeOf(s, a).Done? &&
    match a
    case CreateMenu(id, d, clears) => !clears && CachedPlace(s, Drafted(s.menus, id, d))
    case UpdateMenu(id, p, clears) =>
      var m := FindMenu(s.menus, id).value;
      var q := Patched(m, p);
      !clears && q != m && (CachedPlace(s, m) || CachedPlace(s, q))
    case DeleteMenu(id, clears) =>
      var gone := FindMenu(s.menus, id).value;
      !clears && exists y :: y in s.menus && DisplacedBy(y, gone) && CachedPlace(s, y)
    case CreateRole(_, d, _) =>
      d.key in s.cache && d.key != SUPER_ADMIN && ShowsSomeRoot(s.menus, d.key, Or(d.permissions, []))
    case UpdateRole(id, p, user, clears) =>
      var role := FindRole(s.roles, id).value;
      !clears && RoleUpdateShows(s, role, Or(p.key, role.key), StoredPermissions(role, p, user))
    case RemoveRole(id, clears) =>
      var role := FindRole(s.roles, id).value;
      !clears && role.key in s.cache && ShowsSomeRoot(s.menus, role.key, role.permissions)
    case ReadMenus(roleId) =>
      var (key, carried) := Identity(s.roles, roleId);
      key !in s.cache && exists m :: Reshown(s.menus, key, carried, PermissionsOf(s.roles, key), m)
    case Evict(_) => false
  }

  /** Any step at all keeps every cached tree current, except exactly when it leaves one stale in that way. */
  lemma StepKeepsCoherenceIff(s: State, a: Action)
    requires UniqueIds(s.menus) && RolesDistinct(s.roles) && Coherent(s)
    ensures Coherent(Step(s, a)) <==> !LeavesStale(s, a)
  {
    hide Coherent, LeavesStale, RolesDistinct, CreateMenuSpec, UpdateMenuSpec, DeleteMenuSpec, CreateRoleSpec,
      UpdateRoleSpec, RemoveRoleSpec, ReadSpec;
    if OutcomeOf(s, a).Done? {
      match a
      case CreateMenu(_, _, _) => MenuStepIff(s, a);
      case UpdateMenu(_, _, _) => MenuStepIff(s, a);
      case DeleteMenu(_, _) => MenuStepIff(s, a);
      case CreateRole(_, _, _) => RoleCreationIff(s, a);
      case UpdateRole(_, _, _, _) => RoleStepIff(s, a);
      case RemoveRole(_, _) => RoleStepIff(s, a);
      case ReadMenus(_) => ReadIff(s, a);
      case Evict(_) => EvictIff(s, a);
    } else {
      RefusedIff(s, a);
    }
  }

  lemma RefusedIff(s: State, a: Action)
    requires UniqueIds(s.menus) && OutcomeOf(s, a).Failed?
    ensures Step(s, a) == s && !LeavesStale(s, a)
  {
  }

  lemma RoleCreationIff(s: State, a: Action)
    requires UniqueIds(s.menus) && RolesDistinct(s.roles) && Coherent(s) && OutcomeOf(s, a).Done? && a.CreateRole?
    ensures Coherent(Step(s, a)) <==> !LeavesStale(s, a)
  {
    hide TreeFor, PermissionsOf, Coherent, ShowsSomeRoot, KeepProtected;
    var t, d := Step(s, a), a.roleDraft;
    var role := t.roles[|s.roles|];
    assert t.roles == s.roles + [role];
    AppendKeepsPermissions(s.roles, role);
    NoRoleNoPermissions(s.roles, d.key);
    assert role in t.roles;
    assert forall i | 0 <= i < |s.roles| :: t.roles[i] == s.roles[i] && s.roles[i] in s.roles;
    PermissionsOfRole(t.roles, role);
    KeptCacheCoherentIff(s, t);
    if d.key == SUPER_ADMIN {
      SuperAdminSeesAll(s.menus, [], role.permissions);
    } else {
      NothingWithoutPermissions(s.menus, d.key, []);
      EmptyTreeIff(s.menus, d.key, role.permissions);
    }
  }

  lemma ReadIff(s: State, a: Action)
    requires UniqueIds(s.menus) && Coherent(s) && a.ReadMenus?
    ensures Coherent(Step(s, a)) <==> !LeavesStale(s, a)
  {
    hide TreeFor, PermissionsOf, Identity, Reshown;
    var (key, carried) := Identity(s.roles, a.roleId);
    var t := Step(s, a);
    if key !in s.cache {
      SameMenusAgreeIff(s.menus, key, carried, PermissionsOf(s.roles, key));
      forall k | k != key
        ensures Current(t, k)
      {
        assert Current(s, k);
        CurrentKept(s, t, k);
      }
      assert Coherent(t) <==> Current(t, key);
    }
  }

  lemma EvictIff(s: State, a: Action)
    requires UniqueIds(s.menus) && Coherent(s) && a.Evict?
    ensures Coherent(Step(s, a)) && !LeavesStale(s, a)
  {
    hide TreeFor, PermissionsOf;
    forall k
      ensures Current(Step(s, a), k)
    {
      assert Current(s, k);
      CurrentKept(s, Step(s, a), k);
    }
  }

  ghost predicate CoherentThroughout(s: State, actions: seq<Action>)
    requires UniqueIds(s.menus)
    decreases |actions|
  {
    Coherent(s) && (actions != [] ==> CoherentThroughout(Step(s, actions[0]), actions[1..]))
  }

  ghost predicate NeverLeavesStale(s: State, actions: seq<Action>)
    requires UniqueIds(s.menus)
    decreases |actions|
  {
    actions != [] ==> !LeavesStale(s, actions[0]) && NeverLeavesStale(Step(s, actions[0]), actions[1..])
  }

  /**
   Over any run, failed clears and reserved keys included, all cached trees stay current if and only if no step
   leaves one stale.
   */
  lemma {:induction false} RunStaysCoherentIff(s: State, actions: seq<Action>)
    requires UniqueIds(s.menus) && RolesDistinct(s.roles) && Coherent(s)
    ensures CoherentThroughout(s, actions) <==> NeverLeavesStale(s, actions)
    decreases |actions|
  {
    hide Step, Coherent, LeavesStale, RolesDistinct;
    if actions != [] {
      StepKeepsCoherenceIff(s, actions[0]);
      StepKeepsRolesDistinct(s, actions[0]);
      if Coherent(Step(s, actions[0])) {
        RunStaysCoherentIff(Step(s, actions[0]), actions[1..]);
      }
    }
  }

  lemma ClearedIsCoherent(s: State)
    requires UniqueIds(s.menus) && s.cache == map[]
    ensures Coherent(s)
  {
  }

  lemma MenuStepIff(s: State, a: Action)
    requires UniqueIds(s.menus) && RolesDistinct(s.roles) && Coherent(s) && OutcomeOf(s, a).Done?
    requires a.CreateMenu? || a.UpdateMenu? || a.DeleteMenu?
    ensures Coherent(Step(s, a)) <==> !LeavesStale(s, a)
  {
    hide TreeFor, PermissionsOf, Coherent, CachedPlace, DisplacedBy, Drafted, Patched, PatchAll, MarkDeleted, ShiftUp;
    if a.clears {
      ClearedIsCoherent(Step(s, a));
    } else {
      match a
      case CreateMenu(id, d, _) => UnclearedCreateIff(s, id, d);
      case UpdateMenu(id, p, _) => UnclearedUpdateIff(s, FindMenu(s.menus, id).value, p);
      case DeleteMenu(id, _) => UnclearedDeleteIff(s, FindMenu(s.menus, id).value);
    }
  }

  lemma RoleStepIff(s: State, a: Action)
    requires UniqueIds(s.menus) && RolesDistinct(s.roles) && Coherent(s) && OutcomeOf(s, a).Done?
    requires a.UpdateRole? || a.RemoveRole?
    ensures Coherent(Step(s, a)) <==> !LeavesStale(s, a)
  {
    hide TreeFor, PermissionsOf, Coherent, RoleUpdateShows, ShowsSomeRoot, StoredPermissions, ReplaceRole, IndexClash,
      Escalates, TakenBy;
    if a.clears {
      ClearedIsCoherent(Step(s, a));
    } else {
      match a
      case UpdateRole(id, p, user, _) =>
        var role := FindRole(s.roles, id).value;
        var updated := Role(id, Or(p.name, role.name), Or(p.key, role.key), StoredPermissions(role, p, user), false);
        UnclearedRoleUpdateIff(s, role, updated);
      case RemoveRole(id, _) => UnclearedRemovalIff(s, FindRole(s.roles, id).value);
    }
  }
}
