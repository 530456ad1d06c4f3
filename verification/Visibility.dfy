/**
 Who sees which sidebar item, said of the stored items and permissions directly: none of the query's own tests
 occurs in what is promised here.
 */
module Visibility {
  import opened Common
  import opened MenuTree
  import opened AdminBackend

  // ---- Letter case and quotes -----------------------------------------------------------------

  const LETTERS := "abcdefghijklmnopqrstuvwxyz"

  /** The two characters are one, or the second is the small form of the first. */
  predicate SameLetter(c: char, small: char) {
    if 'A' <= c <= 'Z' then small == LETTERS[c as int - 'A' as int] else small == c
  }

  ghost predicate SameButCase(s: string, small: string) {
    |s| == |small| && forall i | 0 <= i < |s| :: SameLetter(s[i], small[i])
  }

  lemma Alphabet(k: nat)
    requires k < 26
    ensures LETTERS[k] == 'a' + k as char
  {
  }

  lemma LetterIff(c: char, small: char)
    ensures SameLetter(c, small) <==> small == if 'A' <= c <= 'Z' then c - 'A' + 'a' else c
  {
    if 'A' <= c <= 'Z' {
      Alphabet(c as int - 'A' as int);
    }
  }

  lemma LoweredIff(s: string, small: string)
    ensures ToLower(s) == small <==> SameButCase(s, small)
  {
    hide SameLetter;
    forall i | 0 <= i < |s| && i < |small|
      ensures SameLetter(s[i], small[i]) <==> ToLower(s)[i] == small[i]
    {
      LetterIff(s[i], small[i]);
    }
  }

  /** The text without its single and double quotes. */
  function Unquoted(p: string): string {
    if p == "" then ""
    else
      var front, c := Unquoted(p[..|p| - 1]), p[|p| - 1];
      if c == '\'' || c == '"' then front else front + [c]
  }

  lemma {:induction false} UnquotedFront(c: char, p: string)
    ensures Unquoted([c] + p) == (if c == '\'' || c == '"' then "" else [c]) + Unquoted(p)
    decreases |p|
  {
    if p == "" {
      assert ([c] + p)[..0] == "";
    } else {
      UnquotedFront(c, p[..|p| - 1]);
      assert ([c] + p)[..|p|] == [c] + p[..|p| - 1];
    }
  }

  lemma {:induction false} StrippedIsUnquoted(p: string)
    ensures StripQuotes(p) == Unquoted(p)
  {
    if p != "" {
      StrippedIsUnquoted(p[1..]);
      UnquotedFront(p[0], p[1..]);
      assert [p[0]] + p[1..] == p;
    }
  }

  // ---- Who may see an item -----------------------------------------------------------------------

  /** Among the permissions, quotes aside, is the wildcard or this one. */
  ghost predicate Grants(permissions: seq<string>, wanted: string) {
    exists p :: p in permissions && (Unquoted(p) == "*" || Unquoted(p) == wanted)
  }

  ghost predicate MaySee(key: string, permissions: seq<string>, m: Menu) {
    && !m.deleted && m.isActive
    && (key != "super_admin" ==>
          && m.isVisible
          && !(m.group.Some? && SameButCase(m.group.value, "super admin controls"))
          && Grants(permissions, m.permissionKey))
  }

  lemma CleanGrants(permissions: seq<string>, wanted: string)
    ensures "*" in Clean(permissions) || wanted in Clean(permissions) <==> Grants(permissions, wanted)
  {
    hide StripQuotes, Unquoted;
    forall i | 0 <= i < |permissions|
      ensures Clean(permissions)[i] == Unquoted(permissions[i])
    {
      StrippedIsUnquoted(permissions[i]);
    }
    if Grants(permissions, wanted) {
      var p :| p in permissions && (Unquoted(p) == "*" || Unquoted(p) == wanted);
      var i :| 0 <= i < |permissions| && permissions[i] == p;
      assert Clean(permissions)[i] == Unquoted(p);
    }
  }

  lemma ShownIff(menus: seq<Menu>, key: string, permissions: seq<string>, m: Menu)
    ensures m in Shown(menus, key, permissions) <==> m in menus && MaySee(key, permissions, m)
  {
    hide Shown, SameButCase, Grants, Clean, ToLower;
    ShownMembers(menus, key, permissions);
    CleanGrants(permissions, m.permissionKey);
    if m.group.Some? {
      LoweredIff(m.group.value, "super admin controls");
    }
  }

  // ---- What is in the tree ---------------------------------------------------------------------------

  function ParentAt(path: seq<string>, i: nat): Option<string>
    requires i < |path|
  {
    if i == 0 then None else Some(path[i - 1])
  }

  ghost predicate SeenBelow(
    menus: seq<Menu>, key: string, permissions: seq<string>, id: string, parent: Option<string>)
  {
    exists m :: m in menus && MaySee(key, permissions, m) && m.id == id && m.parent == parent
  }

  /** From a root item down to `id`, each item the parent of the next, and all of them may be seen. */
  ghost predicate SeenChain(menus: seq<Menu>, key: string, permissions: seq<string>, path: seq<string>, id: string) {
    && path != [] && path[|path| - 1] == id
    && forall i | 0 <= i < |path| :: SeenBelow(menus, key, permissions, path[i], ParentAt(path, i))
  }

  /** An item is in a role's tree if and only if it and all items above it, up to a root, may be seen by the role. */
  lemma InTreeIff(menus: seq<Menu>, key: string, permissions: seq<string>, id: string)
    requires UniqueIds(menus)
    ensures id in Ids(TreeFor(menus, key, permissions))
       <==> exists path :: SeenChain(menus, key, permissions, path, id)
  {
    hide Shown, MaySee, Ids;
    var shown := Shown(menus, key, permissions);
    ShownIsUnique(menus, key, permissions);
    ForestHoldsRootedOnce(shown);
    forall path: seq<string>
      ensures IsPath(shown, path) && Above(path) == Some(id) <==> SeenChain(menus, key, permissions, path, id)
    {
      PathIsSeen(menus, key, permissions, path, id);
    }
  }

  lemma PathIsSeen(menus: seq<Menu>, key: string, permissions: seq<string>, path: seq<string>, id: string)
    ensures var shown := Shown(menus, key, permissions);
            IsPath(shown, path) && Above(path) == Some(id) <==> SeenChain(menus, key, permissions, path, id)
  {
    hide Shown, MaySee, SeenBelow, Has;
    var shown := Shown(menus, key, permissions);
    forall i | 0 <= i < |path|
      ensures Has(shown, path[i], Above(path[..i])) <==> SeenBelow(menus, key, permissions, path[i], ParentAt(path, i))
    {
      assert Above(path[..i]) == ParentAt(path, i);
      HasIsSeen(menus, key, permissions, path[i], Above(path[..i]));
    }
  }

  lemma HasIsSeen(menus: seq<Menu>, key: string, permissions: seq<string>, id: string, parent: Option<string>)
    ensures Has(Shown(menus, key, permissions), id, parent) <==> SeenBelow(menus, key, permissions, id, parent)
  {
    hide Shown, MaySee;
    forall m
      ensures m in Shown(menus, key, permissions) <==> m in menus && MaySee(key, permissions, m)
    {
      ShownIff(menus, key, permissions, m);
    }
  }

  /** In particular nobody sees a deleted or inactive item, and only a super admin an invisible or reserved one. */
  lemma HiddenItems(menus: seq<Menu>, key: string, permissions: seq<string>, m: Menu)
    requires UniqueIds(menus) && m in menus && m.id in Ids(TreeFor(menus, key, permissions))
    ensures !m.deleted && m.isActive
    ensures key != "super_admin" ==> m.isVisible && Grants(permissions, m.permissionKey)
    ensures key != "super_admin" ==> !(m.group.Some? && SameButCase(m.group.value, "super admin controls"))
  {
    hide Ids, TreeFor, Grants, SameButCase;
    InTreeIff(menus, key, permissions, m.id);
    var path :| SeenChain(menus, key, permissions, path, m.id);
    var n := |path| - 1;
    assert SeenBelow(menus, key, permissions, path[n], ParentAt(path, n));
    var x :| x in menus && MaySee(key, permissions, x) && x.id == m.id;
    IdDeterminesItem(menus, x, m);
  }

  /** And a root item that may be seen is seen. */
  lemma RootsAreSeen(menus: seq<Menu>, key: string, permissions: seq<string>, m: Menu)
    requires UniqueIds(menus) && m in menus && m.parent == None && MaySee(key, permissions, m)
    ensures m.id in Ids(TreeFor(menus, key, permissions))
  {
    hide Ids, TreeFor, MaySee;
    InTreeIff(menus, key, permissions, m.id);
    assert SeenBelow(menus, key, permissions, [m.id][0], ParentAt([m.id], 0));
    assert SeenChain(menus, key, permissions, [m.id], m.id);
  }
}
