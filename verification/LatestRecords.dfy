/**
 resolveLatestArrayRecords on the object graph it rewrites (src/modules/events/event-listeners.ts).

 Objects and arrays are boxes on the heap; the graph must be a tree, which is what plain parsed or
 copied parameters are. The result is related to the tree rewrite `Flattening.Collapse`.
 */
module LatestRecords {
  import opened Json
  import opened Flattening

  datatype Ref = Prim(s: Scalar) | Ptr(box: Box)

  /** An object with its keys, or an array; either way a list of values that can be overwritten. */
  class Box {
    const isArray: bool
    const keys: seq<string>
    var vals: seq<Ref>

    constructor (isArray: bool, keys: seq<string>, vals: seq<Ref>)
      ensures this.isArray == isArray && this.keys == keys && this.vals == vals
    {
      this.isArray, this.keys, this.vals := isArray, keys, vals;
    }
  }

  /** The boxes of a tree, arranged like the tree. */
  datatype Foot = Bare | Foot(box: Box, kids: seq<Foot>)

  ghost function Boxes(f: Foot): set<Box>
    decreases f, 0
  {
    match f
    case Bare => {}
    case Foot(box, kids) => {box} + BoxesOf(kids)
  }

  ghost function BoxesOf(kids: seq<Foot>): set<Box> {
    set i, b | 0 <= i < |kids| && b in Boxes(kids[i]) :: b
  }

  /** No box occurs at two places. */
  ghost predicate Apart(f: Foot)
    decreases f, 1
  {
    f.Foot? ==>
      && (forall i | 0 <= i < |f.kids| :: f.box !in Boxes(f.kids[i]) && Apart(f.kids[i]))
      && (forall i, j | 0 <= i < j < |f.kids| :: Boxes(f.kids[i]) !! Boxes(f.kids[j]))
  }

  predicate SameFrame(box: Box, v: Json) {
    match v
    case Leaf(_) => false
    case Obj(fields) => !box.isArray && box.keys == seq(|fields|, i requires 0 <= i < |fields| => fields[i].key)
    case Arr(_) => box.isArray
  }

  /** The reference leads to a tree of boxes that spells `v`. */
  ghost predicate Spells(r: Ref, v: Json, f: Foot)
    reads Boxes(f)
    decreases v
  {
    match v
    case Leaf(s) => r == Prim(s) && f == Bare
    case _ =>
      && f.Foot? && r == Ptr(f.box) && SameFrame(f.box, v)
      && |f.box.vals| == |f.kids| == |Vals(v)|
      && forall i | 0 <= i < |f.kids| ::
           Boxes(f.kids[i]) <= Boxes(f) && Spells(f.box.vals[i], Vals(v)[i], f.kids[i])
  }

  function Collapsed(v: Json): seq<Json> {
    seq(|Vals(v)|, i requires 0 <= i < |Vals(v)| => CollapseValue(Vals(v)[i]))
  }

  lemma CollapsedVals(v: Json)
    requires !v.Leaf?
    ensures Vals(Collapse(v)) == Collapsed(v) && !Collapse(v).Leaf?
    ensures forall box | SameFrame(box, v) :: SameFrame(box, Collapse(v))
  {
    hide CollapseValue;
  }

  // ---- Footprints of siblings -------------------------------------------------------------------

  ghost predicate Separate(kids: seq<Foot>) {
    forall i, j | 0 <= i < |kids| && 0 <= j < |kids| && i != j :: Boxes(kids[i]) !! Boxes(kids[j])
  }

  ghost predicate AllApart(kids: seq<Foot>) {
    forall i | 0 <= i < |kids| :: Apart(kids[i])
  }

  ghost predicate Within(kids: seq<Foot>, boxes: set<Box>) {
    forall i | 0 <= i < |kids| :: Boxes(kids[i]) <= boxes
  }

  ghost predicate Avoids(box: Box, kids: seq<Foot>) {
    forall i | 0 <= i < |kids| :: box !in Boxes(kids[i])
  }

  lemma KidsApart(f: Foot)
    requires f.Foot? && Apart(f)
    ensures Separate(f.kids) && AllApart(f.kids) && Avoids(f.box, f.kids)
    ensures Within(f.kids, Boxes(f)) && f.box in Boxes(f)
  {
  }

  lemma ApartAgain(box: Box, kids: seq<Foot>)
    requires Separate(kids) && AllApart(kids) && Avoids(box, kids)
    ensures Apart(Foot(box, kids)) && Within(kids, Boxes(Foot(box, kids)))
  {
  }

  lemma WithinTogether(box: Box, kids: seq<Foot>, boxes: set<Box>)
    requires box in boxes && Within(kids, boxes)
    ensures Boxes(Foot(box, kids)) <= boxes
  {
  }

  lemma ShrinkKid(box: Box, kids: seq<Foot>, e: nat, kid: Foot, boxes: set<Box>)
    requires e < |kids| && Boxes(kid) <= Boxes(kids[e]) && Apart(kid)
    requires Separate(kids) && AllApart(kids) && Avoids(box, kids) && Within(kids, boxes)
    ensures var after := kids[e := kid];
            Separate(after) && AllApart(after) && Avoids(box, after) && Within(after, boxes)
  {
  }

  // ---- The rewrite -----------------------------------------------------------------------------------

  predicate IsObject(r: Ref) {
    r.Ptr? || r.s.Moment?
  }

  lemma KidFacts(box: Box, kids: seq<Foot>, e: nat, boxes: set<Box>)
    requires e < |kids|
    requires Separate(kids) && AllApart(kids) && Avoids(box, kids) && Within(kids, boxes)
    ensures Apart(kids[e]) && Boxes(kids[e]) <= boxes
    ensures forall j | 0 <= j < |kids| :: box !in Boxes(kids[j])
    ensures forall j | 0 <= j < |kids| && j != e :: Boxes(kids[j]) !! Boxes(kids[e])
  {
  }

  /** What a reference to a node gives access to. */
  lemma OpenNode(r: Ref, v: Json, f: Foot)
    requires Spells(r, v, f)
    ensures r.Prim? <==> v.Leaf?
    ensures v.Leaf? ==> r == Prim(v.value) && f == Bare
    ensures !v.Leaf? ==>
              && f.Foot? && r == Ptr(f.box) && SameFrame(f.box, v) && |f.box.vals| == |f.kids| == |Vals(v)|
              && (f.box.isArray <==> v.Arr?)
              && forall i | 0 <= i < |f.kids| :: Spells(f.box.vals[i], Vals(v)[i], f.kids[i])
  {
  }

  lemma CloseNode(v: Json, f: Foot)
    requires !v.Leaf? && f.Foot? && SameFrame(f.box, v) && |f.box.vals| == |f.kids| == |Vals(v)|
    requires Within(f.kids, Boxes(f))
    requires forall i | 0 <= i < |f.kids| :: Spells(f.box.vals[i], Vals(v)[i], f.kids[i])
    ensures Spells(Ptr(f.box), v, f)
  {
  }

  /** The test on the first element sees what the value it spells is. */
  lemma TestSeesObject(r: Ref, v: Json, f: Foot)
    requires Spells(r, v, f)
    ensures IsObject(r) <==> ObjectLike(v)
  {
  }

  /** Resolves every element, and returns the last one. */
  method ResolveItems(box: Box, ghost v: Json, ghost f: Foot) returns (latest: Ref, ghost g: Foot)
    requires v.Arr? && |v.items| > 0
    requires Spells(Ptr(box), v, f) && Apart(f)
    modifies Boxes(f)
    ensures Spells(latest, Collapse(v.items[|v.items| - 1]), g) && Apart(g) && Boxes(g) <= Boxes(f)
    decreases v, 0
  {
    hide Apart, Collapse, Separate, AllApart, Within, Avoids, Boxes, BoxesOf, Spells;
    OpenNode(Ptr(box), v, f);
    var items := box.vals;
    ghost var kids := f.kids;
    KidsApart(f);
    for i := 0 to |items|
      invariant box.vals == items && |kids| == |items|
      invariant Separate(kids) && AllApart(kids) && Avoids(box, kids) && Within(kids, Boxes(f))
      invariant forall j | 0 <= j < i :: Spells(items[j], Collapse(v.items[j]), kids[j])
      invariant forall j | i <= j < |items| :: Spells(items[j], v.items[j], kids[j])
    {
      KidFacts(box, kids, i, Boxes(f));
      assert forall j | 0 <= j < |kids| :: allocated(Boxes(kids[j]));
      ghost var kid := ResolveLatestArrayRecords(items[i], v.items[i], kids[i]);
      ShrinkKid(box, kids, i, kid, Boxes(f));
      kids := kids[i := kid];
    }
    KidFacts(box, kids, |items| - 1, Boxes(f));
    latest := box.vals[|box.vals| - 1];
    g := kids[|items| - 1];
  }

  /** Rewrites the tree below `r` in place, as `Collapse` rewrites the value it spells. */
  method ResolveLatestArrayRecords(r: Ref, ghost v: Json, ghost f: Foot) returns (ghost g: Foot)
    requires Spells(r, v, f) && Apart(f)
    modifies Boxes(f)
    ensures Spells(r, Collapse(v), g) && Apart(g) && Boxes(g) <= Boxes(f)
    decreases v, 1
  {
    hide Apart, Collapse, CollapseValue, Separate, AllApart, Within, Avoids, Boxes, BoxesOf, SameFrame, Spells;
    g := f;
    OpenNode(r, v, f);
    if r.Prim? {
      LeafStays(v);
      return;
    }
    var box := r.box;
    ghost var before, after, kids := Vals(v), Collapsed(v), f.kids;
    KidsApart(f);
    for e := 0 to |box.vals|
      invariant |kids| == |box.vals| == |before|
      invariant Separate(kids) && AllApart(kids) && Avoids(box, kids) && Within(kids, Boxes(f))
      invariant forall j | 0 <= j < e :: Spells(box.vals[j], after[j], kids[j])
      invariant forall j | e <= j < |kids| :: Spells(box.vals[j], before[j], kids[j])
    {
      KidFacts(box, kids, e, Boxes(f));
      assert forall j | 0 <= j < |kids| :: allocated(Boxes(kids[j]));
      ghost var kid := ResolveEntry(box, e, before[e], kids[e]);
      ShrinkKid(box, kids, e, kid, Boxes(f));
      kids := kids[e := kid];
    }
    CollapsedVals(v);
    ApartAgain(box, kids);
    WithinTogether(box, kids, Boxes(f));
    g := Foot(box, kids);
    CloseNode(Collapse(v), g);
  }

  lemma LeafStays(v: Json)
    requires v.Leaf?
    ensures Collapse(v) == v
  {
  }

  /** One round of the loop: the value at a position is resolved or replaced by its latest record. */
  method ResolveEntry(box: Box, e: nat, ghost v: Json, ghost f: Foot) returns (ghost g: Foot)
    requires e < |box.vals| && Spells(box.vals[e], v, f) && Apart(f) && box !in Boxes(f)
    modifies box, Boxes(f)
    ensures |box.vals| == |old(box.vals)| && forall j | 0 <= j < |box.vals| && j != e :: box.vals[j] == old(box.vals[j])
    ensures Spells(box.vals[e], CollapseValue(v), g) && Apart(g) && Boxes(g) <= Boxes(f)
    decreases v, 2
  {
    hide Apart, Collapse, Boxes, BoxesOf, SameFrame, Spells;
    g := f;
    var val := box.vals[e];
    OpenNode(val, v, f);
    if val.Ptr? {
      if val.box.isArray && |val.box.vals| > 0 {
        TestSeesObject(val.box.vals[0], v.items[0], f.kids[0]);
      }
      if val.box.isArray {
        if |val.box.vals| > 0 && IsObject(val.box.vals[0]) {
          var latest;
          latest, g := ResolveItems(val.box, v, f);
          box.vals := box.vals[e := latest];
        }
      } else {
        g := ResolveLatestArrayRecords(val, v, f);
      }
    } else {
      LeafStays(v);
    }
  }
}
