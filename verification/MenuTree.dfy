/**
 The sidebar forest (src/core/sidebar-menu/sidebar-menu.service.ts, buildTree).

 Parent links are free-form: an item may point at itself, at a cycle or at an
 item that is not in the list. The walk carries no visited set, so that it ends
 and reaches each item at most once has to be proved.
 */
module MenuTree {
  import opened Common

  datatype Menu = Menu(
    id: string, name: string, path: string, parent: Option<string>, permissionKey: string,
    order: int, isActive: bool, isVisible: bool, group: Option<string>, deleted: bool)

  datatype Tree = Node(item: Menu, children: seq<Tree>)

  ghost predicate UniqueIds(items: seq<Menu>) {
    forall i, j | 0 <= i < j < |items| :: items[i].id != items[j].id
  }

  /** One bucket of `childrenMap`: the items below a parent, in input order. */
  function ChildrenOf(items: seq<Menu>, parent: Option<string>): (kids: seq<Menu>)
    ensures forall m :: m in kids <==> m in items && m.parent == parent
    ensures |kids| <= |items|
  {
    if items == [] then []
    else
      var rest := ChildrenOf(items[..|items| - 1], parent);
      var m := items[|items| - 1];
      if m.parent == parent then rest + [m] else rest
  }

  // ---- Parent chains ----------------------------------------------------------

  ghost predicate Has(items: seq<Menu>, id: string, parent: Option<string>) {
    exists m :: m in items && m.id == id && m.parent == parent
  }

  function Above(path: seq<string>): Option<string> {
    if path == [] then None else Some(path[|path| - 1])
  }

  /** `path` lists the ids from a root (parent null) downwards, each the parent of the next. */
  ghost predicate IsPath(items: seq<Menu>, path: seq<string>) {
    forall i | 0 <= i < |path| :: Has(items, path[i], Above(path[..i]))
  }

  /** The item's parent chain reaches null inside the list. */
  ghost predicate Rooted(items: seq<Menu>, id: string) {
    exists path :: IsPath(items, path) && Above(path) == Some(id)
  }

  lemma IdDeterminesItem(items: seq<Menu>, a: Menu, b: Menu)
    requires UniqueIds(items) && a in items && b in items && a.id == b.id
    ensures a == b
  {
  }

  lemma HasUnique(items: seq<Menu>, id: string, p: Option<string>, q: Option<string>)
    requires UniqueIds(items) && Has(items, id, p) && Has(items, id, q)
    ensures p == q
  {
  }

  lemma PrefixIsPath(items: seq<Menu>, path: seq<string>, n: nat)
    requires IsPath(items, path) && n <= |path|
    ensures IsPath(items, path[..n])
  {
  }

  lemma ExtendIsPath(items: seq<Menu>, path: seq<string>, m: Menu)
    requires IsPath(items, path) && m in items && m.parent == Above(path)
    ensures IsPath(items, path + [m.id])
  {
  }

  /** Each item has one parent, so at most one chain from the top leads to it. */
  lemma {:induction false} PathUnique(items: seq<Menu>, p: seq<string>, q: seq<string>)
    requires UniqueIds(items) && IsPath(items, p) && IsPath(items, q)
    requires Above(p) == Above(q)
    ensures p == q
    decreases |p|
  {
    if p != [] {
      var m, n := |p| - 1, |q| - 1;
      assert Has(items, p[m], Above(p[..m]));
      assert Has(items, q[n], Above(q[..n]));
      HasUnique(items, p[m], Above(p[..m]), Above(q[..n]));
      PrefixIsPath(items, p, m);
      PrefixIsPath(items, q, n);
      PathUnique(items, p[..m], q[..n]);
      assert p == p[..m] + [p[m]] && q == q[..n] + [q[n]];
    }
  }

  lemma PathRepeatsNothing(items: seq<Menu>, path: seq<string>, i: nat, j: nat)
    requires UniqueIds(items) && IsPath(items, path) && i < j < |path|
    ensures path[i] != path[j]
  {
    hide IsPath;
    PrefixIsPath(items, path, i + 1);
    PrefixIsPath(items, path, j + 1);
    var p, q := path[..i + 1], path[..j + 1];
    assert Above(p) == Some(path[i]) && Above(q) == Some(path[j]);
    assert |p| != |q|;
    if Above(p) == Above(q) {
      PathUnique(items, p, q);
    }
  }

  /** No id repeats along a chain, so chains are no longer than the list: the walk ends. */
  lemma PathBound(items: seq<Menu>, path: seq<string>)
    requires UniqueIds(items) && IsPath(items, path)
    ensures |path| <= |items|
  {
    forall i, j | 0 <= i < j < |path|
      ensures path[i] != path[j]
    {
      PathRepeatsNothing(items, path, i, j);
    }
    var ids := seq(|items|, i requires 0 <= i < |items| => items[i].id);
    forall x | x in path
      ensures x in ids
    {
      var i :| 0 <= i < |path| && path[i] == x;
      var m :| m in items && m.id == x && m.parent == Above(path[..i]);
      var k :| 0 <= k < |items| && items[k] == m;
      assert ids[k] == x;
    }
    Pigeonhole(path, ids);
  }

  // ---- The walk ---------------------------------------------------------------

  /** What `getChildren` returns below `path`; `Forest(items, [])` is what `buildTree` returns. */
  function Forest(items: seq<Menu>, ghost path: seq<string>, parent: Option<string>): seq<Tree>
    requires UniqueIds(items) && IsPath(items, path) && parent == Above(path)
    decreases |items| - |path|
  {
    var kids := ChildrenOf(items, parent);
    seq(|kids|, i requires 0 <= i < |kids| =>
      assert kids[i] in kids;
      ExtendIsPath(items, path, kids[i]);
      PathBound(items, path + [kids[i].id]);
      Node(kids[i], Forest(items, path + [kids[i].id], Some(kids[i].id))))
  }

  /** The ids of a forest in preorder. */
  function Ids(f: seq<Tree>): seq<string> {
    if f == [] then [] else [f[0].item.id] + Ids(f[0].children) + Ids(f[1..])
  }

  ghost predicate ChainPasses(items: seq<Menu>, through: seq<string>, id: string) {
    exists path :: IsPath(items, path) && Above(path) == Some(id) && through <= path
  }

  lemma ChainsPart(items: seq<Menu>, p: seq<string>, q: seq<string>, id: string)
    requires UniqueIds(items) && ChainPasses(items, p, id) && ChainPasses(items, q, id)
    ensures p <= q || q <= p
  {
    var a :| IsPath(items, a) && Above(a) == Some(id) && p <= a;
    var b :| IsPath(items, b) && Above(b) == Some(id) && q <= b;
    PathUnique(items, a, b);
  }

  /** A chain that goes strictly below `path` goes through one of the children there. */
  lemma ChainEntersChild(items: seq<Menu>, path: seq<string>, full: seq<string>) returns (k: nat)
    requires UniqueIds(items) && IsPath(items, full) && path <= full && |path| < |full|
    ensures var kids := ChildrenOf(items, Above(path));
            k < |kids| && path + [kids[k].id] <= full
  {
    var n := |path|;
    assert full[..n] == path;
    assert Has(items, full[n], Above(full[..n]));
    var m :| m in items && m.id == full[n] && m.parent == Above(path);
    var kids := ChildrenOf(items, Above(path));
    assert m in kids;
    k :| 0 <= k < |kids| && kids[k] == m;
    assert path + [m.id] == full[..n + 1];
  }

  ghost predicate InSomeSubtree(items: seq<Menu>, path: seq<string>, kids: seq<Menu>, k: nat, id: string) {
    exists j :: k <= j < |kids| && ChainPasses(items, path + [kids[j].id], id)
  }

  /** The subtrees from the k-th child on hold exactly the items whose chain enters one of them, once each. */
  lemma {:induction false} SubtreesExact(items: seq<Menu>, path: seq<string>, k: nat)
    requires UniqueIds(items) && IsPath(items, path)
    requires k <= |ChildrenOf(items, Above(path))|
    ensures var kids := ChildrenOf(items, Above(path));
            var ids := Ids(Forest(items, path, Above(path))[k..]);
            && NoDuplicates(ids)
            && forall id :: id in ids <==> InSomeSubtree(items, path, kids, k, id)
    decreases |items| - |path|, |ChildrenOf(items, Above(path))| - k
  {
    var kids := ChildrenOf(items, Above(path));
    var f := Forest(items, path, Above(path));
    if k < |kids| {
      var kid := kids[k];
      var down := path + [kid.id];
      Descend(items, path, k);
      SubtreesExact(items, path, k + 1);
      SubtreesExact(items, down, 0);
      var sub := Forest(items, down, Some(kid.id));
      assert sub[0..] == sub;
      assert f[k] == Node(kid, sub);
      assert f[k..][0] == f[k] && f[k..][1..] == f[k + 1..];
      var below, after := Ids(sub), Ids(f[k + 1..]);
      assert Ids(f[k..]) == [kid.id] + below + after;
      HeadAndBelow(items, path, k, below);
      forall id | id in after
        ensures id !in [kid.id] + below
      {
        if id in [kid.id] + below {
          SubtreesDisjoint(items, path, k, id);
        }
      }
      NoDuplicatesConcat([kid.id] + below, after);
      forall id
        ensures id in Ids(f[k..]) <==> InSomeSubtree(items, path, kids, k, id)
      {
        if ChainPasses(items, down, id) {
          assert id in [kid.id] + below;
        }
      }
    }
  }

  /** The k-th child followed by everything below it: the items whose chain passes it, once each. */
  lemma HeadAndBelow(items: seq<Menu>, path: seq<string>, k: nat, below: seq<string>)
    requires UniqueIds(items) && IsPath(items, path)
    requires k < |ChildrenOf(items, Above(path))|
    requires var kid := ChildrenOf(items, Above(path))[k];
             var down := path + [kid.id];
             && NoDuplicates(below)
             && forall id :: id in below <==> InSomeSubtree(items, down, ChildrenOf(items, Some(kid.id)), 0, id)
    ensures var kid := ChildrenOf(items, Above(path))[k];
            && NoDuplicates([kid.id] + below)
            && forall id :: id in [kid.id] + below <==> ChainPasses(items, path + [kid.id], id)
  {
    var kid := ChildrenOf(items, Above(path))[k];
    var down := path + [kid.id];
    assert kid in ChildrenOf(items, Above(path));
    ExtendIsPath(items, path, kid);
    assert Above(down) == Some(kid.id);
    forall id
      ensures id in [kid.id] + below <==> ChainPasses(items, down, id)
      ensures id in below ==> id != kid.id
    {
      ChainAtOrBelow(items, down, kid.id, id);
      assert id in [kid.id] + below <==> id == kid.id || id in below;
    }
    NoDuplicatesConcat([kid.id], below);
  }

  /** A chain passing a node either ends there or enters exactly the subtrees below it. */
  lemma ChainAtOrBelow(items: seq<Menu>, down: seq<string>, here: string, id: string)
    requires UniqueIds(items) && IsPath(items, down) && Above(down) == Some(here)
    ensures var below := InSomeSubtree(items, down, ChildrenOf(items, Some(here)), 0, id);
            && (ChainPasses(items, down, id) <==> id == here || below)
            && (below ==> id != here)
  {
    assert ChainPasses(items, down, here);
    if ChainPasses(items, down, id) && id != here {
      ChainBelow(items, down, here, id);
    }
    if InSomeSubtree(items, down, ChildrenOf(items, Some(here)), 0, id) {
      SubtreeIsBelow(items, down, here, id);
    }
  }

  lemma ChainBelow(items: seq<Menu>, down: seq<string>, here: string, id: string)
    requires UniqueIds(items) && Above(down) == Some(here) && id != here
    requires ChainPasses(items, down, id)
    ensures InSomeSubtree(items, down, ChildrenOf(items, Some(here)), 0, id)
  {
    var full :| IsPath(items, full) && Above(full) == Some(id) && down <= full;
    assert full != down;
    var j := ChainEntersChild(items, down, full);
    assert ChainPasses(items, down + [ChildrenOf(items, Some(here))[j].id], id);
  }

  lemma SubtreeIsBelow(items: seq<Menu>, down: seq<string>, here: string, id: string)
    requires UniqueIds(items) && IsPath(items, down) && Above(down) == Some(here)
    requires InSomeSubtree(items, down, ChildrenOf(items, Some(here)), 0, id)
    ensures ChainPasses(items, down, id) && id != here
  {
    var inner := ChildrenOf(items, Some(here));
    var j :| 0 <= j < |inner| && ChainPasses(items, down + [inner[j].id], id);
    var deeper := down + [inner[j].id];
    var full :| IsPath(items, full) && Above(full) == Some(id) && deeper <= full;
    assert down <= deeper <= full && |down| < |full|;
    assert down <= full;
    if id == here {
      PathUnique(items, down, full);
    }
  }

  lemma SubtreesDisjoint(items: seq<Menu>, path: seq<string>, k: nat, id: string)
    requires UniqueIds(items)
    requires k < |ChildrenOf(items, Above(path))|
    requires ChainPasses(items, path + [ChildrenOf(items, Above(path))[k].id], id)
    ensures !InSomeSubtree(items, path, ChildrenOf(items, Above(path)), k + 1, id)
  {
    var kids := ChildrenOf(items, Above(path));
    forall j | k + 1 <= j < |kids|
      ensures !ChainPasses(items, path + [kids[j].id], id)
    {
      var p, q := path + [kids[k].id], path + [kids[j].id];
      ChildrenDistinct(items, Above(path), k, j);
      assert p[|path|] != q[|path|];
      if ChainPasses(items, q, id) {
        ChainsPart(items, p, q, id);
      }
    }
  }

  lemma {:induction false} ChildrenDistinct(items: seq<Menu>, parent: Option<string>, i: nat, j: nat)
    requires UniqueIds(items) && i < j < |ChildrenOf(items, parent)|
    ensures ChildrenOf(items, parent)[i].id != ChildrenOf(items, parent)[j].id
  {
    var kids := ChildrenOf(items, parent);
    var front, m := items[..|items| - 1], items[|items| - 1];
    var rest := ChildrenOf(front, parent);
    if j < |rest| {
      ChildrenDistinct(front, parent, i, j);
    } else {
      assert rest[i] in rest;
      var n :| 0 <= n < |front| && front[n] == rest[i];
      assert items[n].id != m.id;
    }
  }

  /** `buildTree` lists every item whose parent chain reaches null, exactly once, and nothing else. */
  lemma ForestHoldsRootedOnce(items: seq<Menu>)
    requires UniqueIds(items)
    ensures NoDuplicates(Ids(Forest(items, [], None)))
    ensures forall id :: id in Ids(Forest(items, [], None)) <==> Rooted(items, id)
  {
    SubtreesExact(items, [], 0);
    var f := Forest(items, [], None);
    assert f[0..] == f;
    forall id
      ensures InSomeSubtree(items, [], ChildrenOf(items, None), 0, id) <==> Rooted(items, id)
    {
      if Rooted(items, id) {
        var path :| IsPath(items, path) && Above(path) == Some(id);
        var k := ChainEntersChild(items, [], path);
        assert ChainPasses(items, [] + [ChildrenOf(items, None)[k].id], id);
      }
    }
  }

  /** One step down: the i-th tree is the i-th child over the forest below it, and the walk has less left. */
  lemma Descend(items: seq<Menu>, path: seq<string>, i: nat)
    requires UniqueIds(items) && IsPath(items, path) && i < |ChildrenOf(items, Above(path))|
    ensures var kid := ChildrenOf(items, Above(path))[i];
            var down := path + [kid.id];
            && IsPath(items, down) && Above(down) == Some(kid.id) && |down| <= |items|
            && Forest(items, path, Above(path))[i] == Node(kid, Forest(items, down, Some(kid.id)))
  {
    var kid := ChildrenOf(items, Above(path))[i];
    assert kid in ChildrenOf(items, Above(path));
    ExtendIsPath(items, path, kid);
    PathBound(items, path + [kid.id]);
  }

  /** Every level of a forest is the whole bucket of its parent, in input order. */
  ghost predicate LevelsInOrder(items: seq<Menu>, parent: Option<string>, f: seq<Tree>)
    decreases f
  {
    && |f| == |ChildrenOf(items, parent)|
    && forall i | 0 <= i < |f| ::
         f[i].item == ChildrenOf(items, parent)[i] && LevelsInOrder(items, Some(f[i].item.id), f[i].children)
  }

  lemma {:induction false} ForestLevels(items: seq<Menu>, path: seq<string>)
    requires UniqueIds(items) && IsPath(items, path)
    ensures LevelsInOrder(items, Above(path), Forest(items, path, Above(path)))
    decreases |items| - |path|
  {
    var kids := ChildrenOf(items, Above(path));
    var f := Forest(items, path, Above(path));
    forall i | 0 <= i < |f|
      ensures LevelsInOrder(items, Some(f[i].item.id), f[i].children)
    {
      Descend(items, path, i);
      ForestLevels(items, path + [kids[i].id]);
    }
  }

  /** Siblings keep the order of the input list. */
  lemma {:induction false} SiblingsInInputOrder(items: seq<Menu>, parent: Option<string>, i: nat, j: nat)
    returns (a: nat, b: nat)
    requires i < j < |ChildrenOf(items, parent)|
    ensures a < b < |items|
    ensures items[a] == ChildrenOf(items, parent)[i] && items[b] == ChildrenOf(items, parent)[j]
  {
    var front, m := items[..|items| - 1], items[|items| - 1];
    var rest := ChildrenOf(front, parent);
    if j < |rest| {
      a, b := SiblingsInInputOrder(front, parent, i, j);
    } else {
      assert rest[i] in rest;
      a :| 0 <= a < |front| && front[a] == rest[i];
      b := |items| - 1;
    }
  }

  /** A longer list never loses a node: a chain that reaches null still does. */
  lemma RootedMonotone(items: seq<Menu>, more: seq<Menu>, id: string)
    requires forall m | m in items :: m in more
    requires Rooted(items, id)
    ensures Rooted(more, id)
  {
  }

  // ---- When two lists give the same tree -------------------------------------------------------

  /** The walk gets to the level below this parent. */
  ghost predicate Open(items: seq<Menu>, parent: Option<string>) {
    parent.None? || Rooted(items, parent.value)
  }

  lemma OpenAbove(items: seq<Menu>, path: seq<string>)
    requires IsPath(items, path)
    ensures Open(items, Above(path))
  {
  }

  /** A forest shows the level it starts with. */
  lemma ForestGivesLevel(a: seq<Menu>, b: seq<Menu>, path: seq<string>)
    requires UniqueIds(a) && IsPath(a, path) && UniqueIds(b) && IsPath(b, path)
    requires Forest(a, path, Above(path)) == Forest(b, path, Above(path))
    ensures ChildrenOf(a, Above(path)) == ChildrenOf(b, Above(path))
  {
    hide Forest, ChildrenOf, IsPath, UniqueIds;
    var f, kids := Forest(a, path, Above(path)), ChildrenOf(a, Above(path));
    ForestLevels(a, path);
    ForestLevels(b, path);
    assert forall i | 0 <= i < |f| :: kids[i] == f[i].item == ChildrenOf(b, Above(path))[i];
  }

  lemma {:induction false} SameLevelsSameForest(a: seq<Menu>, b: seq<Menu>, path: seq<string>)
    requires UniqueIds(a) && IsPath(a, path) && UniqueIds(b) && IsPath(b, path)
    requires forall p | Open(a, p) :: ChildrenOf(a, p) == ChildrenOf(b, p)
    ensures Forest(a, path, Above(path)) == Forest(b, path, Above(path))
    decreases |a| - |path|
  {
    hide ChildrenOf, IsPath, Open;
    OpenAbove(a, path);
    var f, g := Forest(a, path, Above(path)), Forest(b, path, Above(path));
    forall i | 0 <= i < |ChildrenOf(a, Above(path))|
      ensures f[i] == g[i]
    {
      Descend(a, path, i);
      Descend(b, path, i);
      SameLevelsSameForest(a, b, path + [ChildrenOf(a, Above(path))[i].id]);
    }
  }

  /** Equal forests have the same chains and agree below each of them. */
  lemma {:induction false} SameForestBelow(a: seq<Menu>, b: seq<Menu>, path: seq<string>)
    requires UniqueIds(a) && UniqueIds(b) && IsPath(a, path)
    requires Forest(a, [], None) == Forest(b, [], None)
    ensures IsPath(b, path) && Forest(a, path, Above(path)) == Forest(b, path, Above(path))
    decreases |path|
  {
    if path != [] {
      var n := |path| - 1;
      var up := path[..n];
      PrefixIsPath(a, path, n);
      SameForestBelow(a, b, up);
      ForestGivesLevel(a, b, up);
      assert Has(a, path[n], Above(up));
      var m :| m in a && m.id == path[n] && m.parent == Above(up);
      var kids := ChildrenOf(a, Above(up));
      assert m in kids;
      var i :| 0 <= i < |kids| && kids[i] == m;
      Descend(a, up, i);
      Descend(b, up, i);
      assert path == up + [m.id];
    }
  }

  /** Two lists give the same tree if and only if they agree on every level the walk gets to. */
  lemma SameForestIff(a: seq<Menu>, b: seq<Menu>)
    requires UniqueIds(a) && UniqueIds(b)
    ensures Forest(a, [], None) == Forest(b, [], None)
       <==> forall p | Open(a, p) :: ChildrenOf(a, p) == ChildrenOf(b, p)
  {
    hide Forest, ChildrenOf;
    if Forest(a, [], None) == Forest(b, [], None) {
      forall p | Open(a, p)
        ensures ChildrenOf(a, p) == ChildrenOf(b, p)
      {
        var path :| IsPath(a, path) && Above(path) == p;
        SameForestBelow(a, b, path);
        ForestGivesLevel(a, b, path);
      }
    }
    if forall p | Open(a, p) :: ChildrenOf(a, p) == ChildrenOf(b, p) {
      SameLevelsSameForest(a, b, []);
    }
  }

  // ---- The object graph the service builds ---------------------------------------

  /** The copy of an item that `buildTree` pushes into a bucket, with its mutable `children`. */
  class MenuNode {
    const item: Menu
    var children: seq<MenuNode>

    constructor (item: Menu)
      ensures this.item == item && children == []
    {
      this.item := item;
      children := [];
    }
  }

  type Buckets = map<Option<string>, seq<MenuNode>>

  function Bucket(buckets: Buckets, parent: Option<string>): seq<MenuNode> {
    if parent in buckets then buckets[parent] else []
  }

  function Items(nodes: seq<MenuNode>): seq<Menu> {
    seq(|nodes|, i requires 0 <= i < |nodes| => nodes[i].item)
  }

  ghost predicate Grouped(buckets: Buckets, items: seq<Menu>, repr: set<MenuNode>) {
    forall parent ::
      && Items(Bucket(buckets, parent)) == ChildrenOf(items, parent)
      && forall n | n in Bucket(buckets, parent) :: n in repr
  }

  /** The nodes whose `children` array is the bucket of their own id. */
  ghost function Linked(buckets: Buckets, repr: set<MenuNode>): set<MenuNode>
    reads repr
  {
    set n | n in repr && n.children == Bucket(buckets, Some(n.item.id))
  }

  /** Every node the forest `f` stands for is in `linked`. */
  ghost predicate Covers(buckets: Buckets, parent: Option<string>, f: seq<Tree>, linked: set<MenuNode>)
    decreases f
  {
    && |Bucket(buckets, parent)| == |f|
    && forall i | 0 <= i < |f| ::
         && Bucket(buckets, parent)[i] in linked
         && Covers(buckets, Some(f[i].item.id), f[i].children, linked)
  }

  /** The linked nodes spell out the forest `f`. */
  ghost predicate Represents(nodes: seq<MenuNode>, f: seq<Tree>, repr: set<MenuNode>)
    reads repr
    decreases f
  {
    && |nodes| == |f|
    && forall i | 0 <= i < |f| ::
         && nodes[i] in repr
         && nodes[i].item == f[i].item
         && Represents(nodes[i].children, f[i].children, repr)
  }

  lemma {:induction false} CoversGrows(
    buckets: Buckets, parent: Option<string>, f: seq<Tree>, small: set<MenuNode>, large: set<MenuNode>)
    requires Covers(buckets, parent, f, small) && small <= large
    ensures Covers(buckets, parent, f, large)
    decreases f
  {
    forall i | 0 <= i < |f|
      ensures Covers(buckets, Some(f[i].item.id), f[i].children, large)
    {
      CoversGrows(buckets, Some(f[i].item.id), f[i].children, small, large);
    }
  }

  ghost predicate CoversFirst(
    buckets: Buckets, nodes: seq<MenuNode>, f: seq<Tree>, n: nat, linked: set<MenuNode>)
    requires n <= |nodes| == |f|
  {
    forall j | 0 <= j < n :: nodes[j] in linked && Covers(buckets, Some(f[j].item.id), f[j].children, linked)
  }

  lemma CoversNext(
    buckets: Buckets, nodes: seq<MenuNode>, f: seq<Tree>, n: nat,
    before: set<MenuNode>, walked: set<MenuNode>, after: set<MenuNode>)
    requires n < |nodes| == |f| && before <= walked <= after
    requires CoversFirst(buckets, nodes, f, n, before)
    requires nodes[n] in after && Covers(buckets, Some(f[n].item.id), f[n].children, walked)
    ensures CoversFirst(buckets, nodes, f, n + 1, after)
  {
    CoversGrows(buckets, Some(f[n].item.id), f[n].children, walked, after);
    forall j | 0 <= j < n
      ensures Covers(buckets, Some(f[j].item.id), f[j].children, after)
    {
      CoversGrows(buckets, Some(f[j].item.id), f[j].children, before, after);
    }
  }

  lemma {:induction false} CoveredRepresents(
    buckets: Buckets, items: seq<Menu>, parent: Option<string>, f: seq<Tree>, repr: set<MenuNode>)
    requires Grouped(buckets, items, repr)
    requires Covers(buckets, parent, f, Linked(buckets, repr)) && LevelsInOrder(items, parent, f)
    ensures Represents(Bucket(buckets, parent), f, repr)
    decreases f
  {
    var nodes := Bucket(buckets, parent);
    assert Items(nodes) == ChildrenOf(items, parent);
    forall i | 0 <= i < |f|
      ensures nodes[i].item == f[i].item && Represents(nodes[i].children, f[i].children, repr)
    {
      assert nodes[i].item == Items(nodes)[i];
      CoveredRepresents(buckets, items, Some(f[i].item.id), f[i].children, repr);
    }
  }

  lemma GroupedPush(buckets: Buckets, items: seq<Menu>, node: MenuNode, repr: set<MenuNode>)
    requires Grouped(buckets, items, repr)
    requires node.item.parent in buckets
    ensures var parent := node.item.parent;
            Grouped(buckets[parent := buckets[parent] + [node]], items + [node.item], repr + {node})
  {
    var parent := node.item.parent;
    var after := buckets[parent := buckets[parent] + [node]];
    assert (items + [node.item])[..|items|] == items;
    forall p
      ensures Items(Bucket(after, p)) == ChildrenOf(items + [node.item], p)
      ensures forall n | n in Bucket(after, p) :: n in repr + {node}
    {
      assert Items(Bucket(buckets, p)) == ChildrenOf(items, p);
      assert p == parent ==> Items(Bucket(after, p)) == Items(Bucket(buckets, p)) + [node.item];
    }
  }

  /** Groups the items by parent, then links every node reachable from the null bucket. */
  method BuildTree(items: seq<Menu>) returns (roots: seq<MenuNode>, ghost repr: set<MenuNode>)
    requires UniqueIds(items)
    ensures fresh(repr)
    ensures Represents(roots, Forest(items, [], None), repr)
  {
    var buckets: Buckets := map[];
    repr := {};
    for i := 0 to |items|
      invariant fresh(repr)
      invariant Grouped(buckets, items[..i], repr)
    {
      var parent := items[i].parent;
      if parent !in buckets {
        buckets := buckets[parent := []];
      }
      var node := new MenuNode(items[i]);
      GroupedPush(buckets, items[..i], node, repr);
      buckets := buckets[parent := buckets[parent] + [node]];
      repr := repr + {node};
      assert items[..i + 1] == items[..i] + [items[i]];
    }
    assert items[..|items|] == items;
    roots := GetChildren(buckets, None, items, [], repr);
    ForestLevels(items, []);
    CoveredRepresents(buckets, items, None, Forest(items, [], None), repr);
  }

  method {:induction false} GetChildren(
    buckets: Buckets, parent: Option<string>,
    ghost items: seq<Menu>, ghost path: seq<string>, ghost repr: set<MenuNode>)
    returns (children: seq<MenuNode>)
    requires UniqueIds(items) && IsPath(items, path) && parent == Above(path)
    requires Grouped(buckets, items, repr)
    modifies repr
    ensures children == Bucket(buckets, parent)
    ensures old(Linked(buckets, repr)) <= Linked(buckets, repr)
    ensures Covers(buckets, parent, Forest(items, path, parent), Linked(buckets, repr))
    decreases |items| - |path|
  {
    children := Bucket(buckets, parent);
    ghost var f := Forest(items, path, parent);
    assert Items(children) == ChildrenOf(items, parent);
    for i := 0 to |children|
      invariant old(Linked(buckets, repr)) <= Linked(buckets, repr)
      invariant CoversFirst(buckets, children, f, i, Linked(buckets, repr))
    {
      var child := children[i];
      assert child.item == Items(children)[i];
      Descend(items, path, i);
      ghost var before := Linked(buckets, repr);
      var grandchildren := GetChildren(buckets, Some(child.item.id), items, path + [child.item.id], repr);
      ghost var walked := Linked(buckets, repr);
      child.children := grandchildren;
      assert walked <= Linked(buckets, repr);
      CoversNext(buckets, children, f, i, before, walked, Linked(buckets, repr));
    }
  }
}
