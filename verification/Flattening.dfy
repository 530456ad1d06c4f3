/**
 Template parameters (src/modules/communications/communications.service.ts, flattenObject, and
 src/modules/events/event-listeners.ts, resolveLatestArrayRecords): one function turns a tree
 into dotted keys, the other first collapses arrays of objects to their last element.
 */
module Flattening {
  import opened Common
  import opened Json

  // ---- flattenObject ------------------------------------------------------------------

  type Flat = map<string, Scalar>

  function Flatten(v: Json, prefix: string): Flat
    decreases v, 1, 0
  {
    FlattenEntries(v, |Entries(v)|, prefix)
  }

  /** The first n entries; later assignments overwrite earlier ones. */
  function FlattenEntries(v: Json, n: nat, prefix: string): Flat
    requires n <= |Entries(v)|
    decreases v, 0, n
  {
    if n == 0 then map[]
    else
      var e := Entries(v)[n - 1];
      FlattenEntries(v, n - 1, prefix) + FlattenValue(e.val, Extend(prefix, e.key))
  }

  function FlattenValue(val: Json, fullKey: string): Flat
    decreases val, 2, 0
  {
    match val
    case Leaf(s) => map[fullKey := s]
    case Obj(_) => Flatten(val, fullKey)
    case Arr(items) => WithIndex(val, |items|, fullKey) + WithoutIndex(val, |items|, fullKey)
  }

  function WithIndex(val: Json, n: nat, fullKey: string): Flat
    requires val.Arr? && n <= |val.items|
    decreases val, 0, n
  {
    if n == 0 then map[]
    else WithIndex(val, n - 1, fullKey) + Flatten(val.items[n - 1], fullKey + "." + Dec(n - 1))
  }

  function WithoutIndex(val: Json, n: nat, fullKey: string): Flat
    requires val.Arr? && n <= |val.items|
    decreases val, 0, n
  {
    if n == 0 then map[]
    else WithoutIndex(val, n - 1, fullKey) + Flatten(val.items[n - 1], fullKey)
  }

  /** Where the two passes over an array meet in a key, the one without indices has the last word. */
  lemma LaterPassWins(items: seq<Json>, fullKey: string, k: string)
    ensures var val := Arr(items);
            var plain := WithoutIndex(val, |items|, fullKey);
            && (k in plain ==> k in FlattenValue(val, fullKey) && FlattenValue(val, fullKey)[k] == plain[k])
            && (k !in plain ==> (k in FlattenValue(val, fullKey) <==> k in WithIndex(val, |items|, fullKey)))
  {
  }

  // ---- What a dotted key refers to -------------------------------------------------------

  /** The scalar at a path of object keys and indices; a skipped index means "last element that has it". */
  function Resolve(v: Json, path: seq<Seg>): Option<Scalar>
    decreases v, 1, 0
  {
    if v.Obj? && path != [] && path[0].Key? then ResolveIn(v, |v.fields|, path) else None
  }

  function ResolveIn(v: Json, n: nat, path: seq<Seg>): Option<Scalar>
    requires v.Obj? && n <= |v.fields| && path != [] && path[0].Key?
    decreases v, 0, n
  {
    if n == 0 then None
    else if v.fields[n - 1].key == path[0].k then ResolveValue(v.fields[n - 1].val, path[1..])
    else ResolveIn(v, n - 1, path)
  }

  function ResolveValue(val: Json, rest: seq<Seg>): Option<Scalar>
    decreases val, 2, 0
  {
    match val
    case Leaf(s) => if rest == [] then Some(s) else None
    case Obj(_) => Resolve(val, rest)
    case Arr(items) =>
      if rest != [] && rest[0].Idx? then
        if rest[0].i < |items| then Resolve(items[rest[0].i], rest[1..]) else None
      else LastThatHas(val, |items|, rest)
  }

  function LastThatHas(val: Json, n: nat, rest: seq<Seg>): Option<Scalar>
    requires val.Arr? && n <= |val.items|
    decreases val, 0, n
  {
    if n == 0 then None
    else
      var r := Resolve(val.items[n - 1], rest);
      if r.Some? then r else LastThatHas(val, n - 1, rest)
  }

  /** Distinct tidy keys everywhere, and no array directly inside an array. */
  predicate Tidy(v: Json) {
    match v
    case Leaf(_) => true
    case Arr(items) => forall i | 0 <= i < |items| :: !items[i].Arr? && Tidy(items[i])
    case Obj(fields) =>
      && (forall i, j | 0 <= i < j < |fields| :: fields[i].key != fields[j].key)
      && (forall i | 0 <= i < |fields| :: TidyKey(fields[i].key) && Tidy(fields[i].val))
  }

  // ---- Every flattened key is a rendered path ------------------------------------------------

  ghost predicate AllRendered(m: Flat, prefix: string) {
    forall k | k in m :: exists path :: path != [] && TidyPath(path) && k == Render(prefix, path)
  }

  /** The same, for keys at or below `fullKey`. */
  ghost predicate AllAtOrBelow(m: Flat, fullKey: string) {
    forall k | k in m :: exists path :: TidyPath(path) && k == Render(fullKey, path)
  }

  lemma RenderedFurther(m: Flat, prefix: string, s: Seg)
    requires s.Key? ==> TidyKey(s.k)
    requires AllAtOrBelow(m, Extend(prefix, SegText(s)))
    ensures AllRendered(m, prefix)
  {
    forall k | k in m
      ensures exists path :: path != [] && TidyPath(path) && k == Render(prefix, path)
    {
      var rest :| TidyPath(rest) && k == Render(Extend(prefix, SegText(s)), rest);
      var path := [s] + rest;
      assert path[1..] == rest;
      assert TidyPath(path);
    }
  }

  lemma MergeRendered(a: Flat, b: Flat, prefix: string)
    requires AllRendered(a, prefix) && AllRendered(b, prefix)
    ensures AllRendered(a + b, prefix)
  {
  }

  lemma RenderedIsAtOrBelow(m: Flat, prefix: string)
    requires AllRendered(m, prefix)
    ensures AllAtOrBelow(m, prefix)
  {
  }

  lemma {:induction false} FlattenRendered(v: Json, prefix: string)
    requires Tidy(v) && !v.Arr?
    ensures AllRendered(Flatten(v, prefix), prefix)
    decreases v, 1, 0
  {
    EntriesRendered(v, |Entries(v)|, prefix);
  }

  lemma {:induction false} EntriesRendered(v: Json, n: nat, prefix: string)
    requires Tidy(v) && !v.Arr? && n <= |Entries(v)|
    ensures AllRendered(FlattenEntries(v, n, prefix), prefix)
    decreases v, 0, n
  {
    if n > 0 {
      EntriesRendered(v, n - 1, prefix);
      var e := Entries(v)[n - 1];
      ValueRendered(e.val, Extend(prefix, e.key));
      RenderedFurther(FlattenValue(e.val, Extend(prefix, e.key)), prefix, Key(e.key));
      MergeRendered(FlattenEntries(v, n - 1, prefix), FlattenValue(e.val, Extend(prefix, e.key)), prefix);
    }
  }

  lemma {:induction false} ValueRendered(val: Json, fullKey: string)
    requires Tidy(val) && fullKey != ""
    ensures AllAtOrBelow(FlattenValue(val, fullKey), fullKey)
    decreases val, 2, 0
  {
    match val
    case Leaf(s) =>
      assert TidyPath([]) && Render(fullKey, []) == fullKey;
    case Obj(_) =>
      FlattenRendered(val, fullKey);
      RenderedIsAtOrBelow(Flatten(val, fullKey), fullKey);
    case Arr(items) =>
      WithIndexRendered(val, |items|, fullKey);
      WithoutIndexRendered(val, |items|, fullKey);
  }

  lemma {:induction false} WithIndexRendered(val: Json, n: nat, fullKey: string)
    requires Tidy(val) && val.Arr? && n <= |val.items| && fullKey != ""
    ensures AllRendered(WithIndex(val, n, fullKey), fullKey)
    decreases val, 0, n
  {
    if n > 0 {
      WithIndexRendered(val, n - 1, fullKey);
      var below := Extend(fullKey, SegText(Idx(n - 1)));
      FlattenRendered(val.items[n - 1], below);
      RenderedIsAtOrBelow(Flatten(val.items[n - 1], below), below);
      RenderedFurther(Flatten(val.items[n - 1], below), fullKey, Idx(n - 1));
      MergeRendered(WithIndex(val, n - 1, fullKey), Flatten(val.items[n - 1], below), fullKey);
    }
  }

  lemma {:induction false} WithoutIndexRendered(val: Json, n: nat, fullKey: string)
    requires Tidy(val) && val.Arr? && n <= |val.items|
    ensures AllRendered(WithoutIndex(val, n, fullKey), fullKey)
    decreases val, 0, n
  {
    if n > 0 {
      WithoutIndexRendered(val, n - 1, fullKey);
      FlattenRendered(val.items[n - 1], fullKey);
      MergeRendered(WithoutIndex(val, n - 1, fullKey), Flatten(val.items[n - 1], fullKey), fullKey);
    }
  }

  // ---- Flattening is resolving -------------------------------------------------------------

  function Get(m: Flat, k: string): Option<Scalar> {
    if k in m then Some(m[k]) else None
  }

  /** A map whose keys all go through `Extend(prefix, s)` has nothing for a path that starts elsewhere. */
  lemma OtherStartMisses(m: Flat, prefix: string, s: Seg, path: seq<Seg>)
    requires s.Key? ==> TidyKey(s.k)
    requires AllAtOrBelow(m, Extend(prefix, SegText(s)))
    requires TidyPath(path) && path != [] && path[0] != s
    ensures Get(m, Render(prefix, path)) == None
  {
    var k := Render(prefix, path);
    if k in m {
      var rest :| TidyPath(rest) && k == Render(Extend(prefix, SegText(s)), rest);
      var other := [s] + rest;
      assert other[1..] == rest && other[0] == s;
      RenderInjective(prefix, path, other);
    }
  }

  lemma {:induction false} FlattenIsResolve(v: Json, prefix: string, path: seq<Seg>)
    requires Tidy(v) && !v.Arr? && TidyPath(path) && path != []
    ensures Get(Flatten(v, prefix), Render(prefix, path)) == Resolve(v, path)
    decreases v, 1, 0
  {
    if v.Obj? {
      if path[0].Key? {
        EntriesAreResolve(v, |v.fields|, prefix, path);
      } else {
        IndexMissesEntries(v, |v.fields|, prefix, path);
      }
    }
  }

  lemma {:induction false} IndexMissesEntries(v: Json, n: nat, prefix: string, path: seq<Seg>)
    requires v.Obj? && Tidy(v) && n <= |v.fields|
    requires TidyPath(path) && path != [] && path[0].Idx?
    ensures Get(FlattenEntries(v, n, prefix), Render(prefix, path)) == None
    decreases v, 0, n
  {
    hide Render, FlattenValue, AllAtOrBelow;
    if n > 0 {
      var e := v.fields[n - 1];
      IndexMissesEntries(v, n - 1, prefix, path);
      ValueRendered(e.val, Extend(prefix, e.key));
      OtherStartMisses(FlattenValue(e.val, Extend(prefix, e.key)), prefix, Key(e.key), path);
    }
  }

  lemma {:induction false} EntriesAreResolve(v: Json, n: nat, prefix: string, path: seq<Seg>)
    requires v.Obj? && Tidy(v) && n <= |v.fields|
    requires TidyPath(path) && path != [] && path[0].Key?
    ensures Get(FlattenEntries(v, n, prefix), Render(prefix, path)) == ResolveIn(v, n, path)
    decreases v, 0, n
  {
    if n > 0 {
      var e := v.fields[n - 1];
      var full := Extend(prefix, e.key);
      EntriesAreResolve(v, n - 1, prefix, path);
      if e.key == path[0].k {
        assert Render(prefix, path) == Render(full, path[1..]);
        ValueIsResolve(e.val, full, path[1..]);
        NotAmongOthers(v, n - 1, path);
      } else {
        ValueRendered(e.val, full);
        OtherStartMisses(FlattenValue(e.val, full), prefix, Key(e.key), path);
      }
    }
  }

  lemma {:induction false} NotAmongOthers(v: Json, n: nat, path: seq<Seg>)
    requires v.Obj? && Tidy(v) && n < |v.fields|
    requires path != [] && path[0].Key? && path[0].k == v.fields[n].key
    ensures forall m: nat | m <= n :: ResolveIn(v, m, path) == None
  {
    forall m: nat | m <= n
      ensures ResolveIn(v, m, path) == None
    {
      NoneAmongFirst(v, m, n, path);
    }
  }

  lemma {:induction false} NoneAmongFirst(v: Json, m: nat, n: nat, path: seq<Seg>)
    requires v.Obj? && Tidy(v) && m <= n < |v.fields|
    requires path != [] && path[0].Key? && path[0].k == v.fields[n].key
    ensures ResolveIn(v, m, path) == None
    decreases m
  {
    if m > 0 {
      NoneAmongFirst(v, m - 1, n, path);
    }
  }

  lemma {:induction false} ValueIsResolve(val: Json, fullKey: string, rest: seq<Seg>)
    requires Tidy(val) && fullKey != "" && TidyPath(rest)
    ensures Get(FlattenValue(val, fullKey), Render(fullKey, rest)) == ResolveValue(val, rest)
    decreases val, 2, 0
  {
    match val
    case Leaf(s) =>
      if rest != [] {
        RenderIsTail(fullKey, rest);
      }
    case Obj(_) =>
      if rest != [] {
        FlattenIsResolve(val, fullKey, rest);
      } else {
        FlattenRendered(val, fullKey);
        NothingAtPrefix(Flatten(val, fullKey), fullKey);
      }
    case Arr(items) =>
      if rest == [] {
        WithIndexRendered(val, |items|, fullKey);
        NothingAtPrefix(WithIndex(val, |items|, fullKey), fullKey);
        WithoutIndexRendered(val, |items|, fullKey);
        NothingAtPrefix(WithoutIndex(val, |items|, fullKey), fullKey);
        NothingForNoPath(val, |items|);
      } else if rest[0].Idx? {
        WithIndexIsResolve(val, |items|, fullKey, rest);
        IndexMissesPlain(val, |items|, fullKey, rest);
      } else {
        KeyMissesIndexed(val, |items|, fullKey, rest);
        WithoutIndexIsLast(val, |items|, fullKey, rest);
      }
  }

  lemma NothingAtPrefix(m: Flat, prefix: string)
    requires prefix != "" && AllRendered(m, prefix)
    ensures Get(m, prefix) == None
  {
    if prefix in m {
      var path :| path != [] && TidyPath(path) && prefix == Render(prefix, path);
      assert |Tail(path)| > 0;
      RenderIsTail(prefix, path);
    }
  }

  lemma {:induction false} NothingForNoPath(val: Json, n: nat)
    requires val.Arr? && n <= |val.items|
    ensures LastThatHas(val, n, []) == None
    decreases n
  {
    if n > 0 {
      NothingForNoPath(val, n - 1);
    }
  }

  lemma {:induction false} WithIndexIsResolve(val: Json, n: nat, fullKey: string, rest: seq<Seg>)
    requires Tidy(val) && val.Arr? && n <= |val.items| && fullKey != ""
    requires TidyPath(rest) && rest != [] && rest[0].Idx?
    ensures Get(WithIndex(val, n, fullKey), Render(fullKey, rest))
            == if rest[0].i < n then Resolve(val.items[rest[0].i], rest[1..]) else None
    decreases val, 0, n
  {
    if n > 0 {
      WithIndexIsResolve(val, n - 1, fullKey, rest);
      var item, below := val.items[n - 1], Extend(fullKey, SegText(Idx(n - 1)));
      FlattenRendered(item, below);
      if rest[0].i == n - 1 {
        assert Render(fullKey, rest) == Render(below, rest[1..]);
        if rest[1..] == [] {
          NothingAtPrefix(Flatten(item, below), below);
        } else {
          FlattenIsResolve(item, below, rest[1..]);
        }
      } else {
        RenderedIsAtOrBelow(Flatten(item, below), below);
        OtherStartMisses(Flatten(item, below), fullKey, Idx(n - 1), rest);
      }
    }
  }

  lemma {:induction false} IndexMissesPlain(val: Json, n: nat, fullKey: string, rest: seq<Seg>)
    requires Tidy(val) && val.Arr? && n <= |val.items| && fullKey != ""
    requires TidyPath(rest) && rest != [] && rest[0].Idx?
    ensures Get(WithoutIndex(val, n, fullKey), Render(fullKey, rest)) == None
    decreases val, 0, n
  {
    if n > 0 {
      IndexMissesPlain(val, n - 1, fullKey, rest);
      FlattenIsResolve(val.items[n - 1], fullKey, rest);
    }
  }

  lemma {:induction false} KeyMissesIndexed(val: Json, n: nat, fullKey: string, rest: seq<Seg>)
    requires Tidy(val) && val.Arr? && n <= |val.items| && fullKey != ""
    requires TidyPath(rest) && rest != [] && rest[0].Key?
    ensures Get(WithIndex(val, n, fullKey), Render(fullKey, rest)) == None
    decreases val, 0, n
  {
    if n > 0 {
      KeyMissesIndexed(val, n - 1, fullKey, rest);
      var item, below := val.items[n - 1], Extend(fullKey, SegText(Idx(n - 1)));
      FlattenRendered(item, below);
      RenderedIsAtOrBelow(Flatten(item, below), below);
      OtherStartMisses(Flatten(item, below), fullKey, Idx(n - 1), rest);
    }
  }

  lemma {:induction false} WithoutIndexIsLast(val: Json, n: nat, fullKey: string, rest: seq<Seg>)
    requires Tidy(val) && val.Arr? && n <= |val.items| && fullKey != ""
    requires TidyPath(rest) && rest != [] && rest[0].Key?
    ensures Get(WithoutIndex(val, n, fullKey), Render(fullKey, rest)) == LastThatHas(val, n, rest)
    decreases val, 0, n
  {
    if n > 0 {
      WithoutIndexIsLast(val, n - 1, fullKey, rest);
      FlattenIsResolve(val.items[n - 1], fullKey, rest);
    }
  }

  /**
   `flattenObject` in full: its keys are exactly the rendered paths that resolve, each with the
   scalar it resolves to. A path that names an index at every array looks up the value there;
   where an index is left out, the last element that has the rest of the path provides it.
   */
  lemma FlattenMeaning(v: Json)
    requires Tidy(v) && v.Obj?
    ensures forall path | TidyPath(path) && path != [] ::
              Get(Flatten(v, ""), Render("", path)) == Resolve(v, path)
    ensures forall k | k in Flatten(v, "") ::
              exists path :: TidyPath(path) && path != [] && Render("", path) == k
                             && Resolve(v, path) == Some(Flatten(v, "")[k])
  {
    forall path | TidyPath(path) && path != []
      ensures Get(Flatten(v, ""), Render("", path)) == Resolve(v, path)
    {
      FlattenIsResolve(v, "", path);
    }
    FlattenRendered(v, "");
    forall k | k in Flatten(v, "")
      ensures exists path :: TidyPath(path) && path != [] && Render("", path) == k
                             && Resolve(v, path) == Some(Flatten(v, "")[k])
    {
      var path :| path != [] && TidyPath(path) && k == Render("", path);
      assert Get(Flatten(v, ""), Render("", path)) == Resolve(v, path);
    }
  }

  /** The value at a fully indexed path, without any search. */
  function At(v: Json, path: seq<Seg>): Option<Json>
    decreases |path|
  {
    if path == [] then Some(v)
    else
      match path[0]
      case Key(k) => if v.Obj? then AtKey(v, |v.fields|, path) else None
      case Idx(i) => if v.Arr? && i < |v.items| then At(v.items[i], path[1..]) else None
  }

  function AtKey(v: Json, n: nat, path: seq<Seg>): Option<Json>
    requires v.Obj? && n <= |v.fields| && path != [] && path[0].Key?
    decreases |path|, 0, n
  {
    if n == 0 then None
    else if v.fields[n - 1].key == path[0].k then At(v.fields[n - 1].val, path[1..])
    else AtKey(v, n - 1, path)
  }

  /** A key that names an index at every array gives the scalar found at exactly that place. */
  lemma {:induction false} IndexedPathLooksUp(v: Json, path: seq<Seg>, s: Scalar)
    requires Tidy(v) && v.Obj? && path != [] && path[|path| - 1].Key?
    requires At(v, path) == Some(Leaf(s))
    ensures Resolve(v, path) == Some(s)
    decreases |path|, |Entries(v)| + 1
  {
    if path[0].Key? {
      IndexedEntryLooksUp(v, |v.fields|, path, s);
    }
  }

  lemma {:induction false} IndexedEntryLooksUp(v: Json, n: nat, path: seq<Seg>, s: Scalar)
    requires Tidy(v) && v.Obj? && n <= |v.fields| && path != [] && path[0].Key? && path[|path| - 1].Key?
    requires AtKey(v, n, path) == Some(Leaf(s))
    ensures ResolveIn(v, n, path) == Some(s)
    decreases |path|, n
  {
    var e, rest := v.fields[n - 1], path[1..];
    if e.key != path[0].k {
      IndexedEntryLooksUp(v, n - 1, path, s);
    } else if e.val.Obj? {
      IndexedPathLooksUp(e.val, rest, s);
    } else if e.val.Arr? {
      var item, below := e.val.items[rest[0].i], rest[1..];
      assert At(item, below) == Some(Leaf(s));
      assert below != [] && !item.Arr?;
      IndexedPathLooksUp(item, below, s);
    }
  }

  /** An index-less key takes the last element that has it, and none after that element has. */
  lemma {:induction false} IndexlessTakesLast(val: Json, n: nat, rest: seq<Seg>, s: Scalar)
    requires val.Arr? && n <= |val.items|
    ensures LastThatHas(val, n, rest) == Some(s) <==>
            exists i | 0 <= i < n :: Resolve(val.items[i], rest) == Some(s)
                                     && forall j | i < j < n :: Resolve(val.items[j], rest) == None
    decreases n
  {
    if n > 0 {
      IndexlessTakesLast(val, n - 1, rest, s);
    }
  }

  /** Keys with dots in them fall outside: the second of these fields hides the first. */
  lemma DottedKeysCollide(k: string, j: string, one: Scalar, two: Scalar)
    requires k != ""
    ensures Flatten(Obj([Field(k, Obj([Field(j, Leaf(one))])), Field(k + "." + j, Leaf(two))]), "")
         == map[k + "." + j := two]
  {
    var inner := Obj([Field(j, Leaf(one))]);
    var v := Obj([Field(k, inner), Field(k + "." + j, Leaf(two))]);
    assert FlattenEntries(inner, 0, k) == map[];
    assert Flatten(inner, k) == FlattenEntries(inner, 1, k) == map[k + "." + j := one];
    assert FlattenEntries(v, 0, "") == map[];
    var full := k + "." + j;
    assert FlattenEntries(v, 1, "") == map[full := one];
    assert FlattenValue(Leaf(two), Extend("", full)) == map[full := two];
    assert Flatten(v, "") == FlattenEntries(v, 2, "") == map[full := one] + map[full := two] == map[full := two];
  }

  // ---- resolveLatestArrayRecords -----------------------------------------------------------

  /** Rewrites the entries of an object (or array) in place. */
  function Collapse(v: Json): Json
    decreases v, 0
  {
    match v
    case Leaf(_) => v
    case Obj(fields) =>
      Obj(seq(|fields|, i requires 0 <= i < |fields| => Field(fields[i].key, CollapseValue(fields[i].val))))
    case Arr(items) => Arr(seq(|items|, i requires 0 <= i < |items| => CollapseValue(items[i])))
  }

  /** An array that starts with an object gives way to its last element, itself collapsed. */
  function CollapseValue(val: Json): Json
    decreases val, 1
  {
    match val
    case Arr(items) =>
      if |items| > 0 && ObjectLike(items[0]) then Collapse(items[|items| - 1]) else val
    case _ => Collapse(val)
  }

  /** An array stays if it is empty or starts with null, a truth value, a number or a text; not if with a date. */
  lemma ReplacedIff(items: seq<Json>)
    ensures var plain := items == [] || (items[0].Leaf? && match items[0].value {
                                                            case Null => true
                                                            case Bool(_) => true
                                                            case Num(_) => true
                                                            case Text(_) => true
                                                            case Moment(_) => false
                                                          });
            CollapseValue(Arr(items)) == if plain then Arr(items) else Collapse(items[|items| - 1])
  {
  }

  /** Every array that collapsing replaces ends with a plain object. */
  predicate EndsInObjects(v: Json) {
    match v
    case Leaf(_) => true
    case Obj(fields) => forall i | 0 <= i < |fields| :: EndsInObjects(fields[i].val)
    case Arr(items) =>
      |items| > 0 && ObjectLike(items[0]) ==> items[|items| - 1].Obj? && EndsInObjects(items[|items| - 1])
  }

  lemma {:induction false} CollapseKeepsTidy(v: Json)
    requires Tidy(v) && !v.Arr?
    ensures Tidy(Collapse(v)) && !Collapse(v).Arr?
    decreases v, 0
  {
    if v.Obj? {
      forall i | 0 <= i < |v.fields|
        ensures Tidy(CollapseValue(v.fields[i].val))
      {
        ValueKeepsTidy(v.fields[i].val);
      }
    }
  }

  lemma {:induction false} ValueKeepsTidy(val: Json)
    requires Tidy(val)
    ensures Tidy(CollapseValue(val))
    decreases val, 1
  {
    match val
    case Arr(items) =>
      if |items| > 0 && ObjectLike(items[0]) {
        CollapseKeepsTidy(items[|items| - 1]);
      }
    case _ => CollapseKeepsTidy(val);
  }

  // ---- Where a replaced array ends in a scalar ---------------------------------------------------

  /** The scalar that takes the place of an array at a path, walking the way collapsing does. */
  function Ending(v: Json, path: seq<Seg>): Option<Scalar>
    decreases v, 1, 0
  {
    if v.Obj? && path != [] && path[0].Key? then EndingIn(v, |v.fields|, path) else None
  }

  function EndingIn(v: Json, n: nat, path: seq<Seg>): Option<Scalar>
    requires v.Obj? && n <= |v.fields| && path != [] && path[0].Key?
    decreases v, 0, n
  {
    if n == 0 then None
    else if v.fields[n - 1].key == path[0].k then EndingValue(v.fields[n - 1].val, path[1..])
    else EndingIn(v, n - 1, path)
  }

  function EndingValue(val: Json, rest: seq<Seg>): Option<Scalar>
    decreases val, 2, 0
  {
    match val
    case Leaf(_) => None
    case Obj(_) => Ending(val, rest)
    case Arr(items) =>
      if |items| == 0 || !ObjectLike(items[0]) then None
      else if items[|items| - 1].Leaf? then if rest == [] then Some(items[|items| - 1].value) else None
      else Ending(items[|items| - 1], rest)
  }

  /** No array that collapsing replaces ends in another array. */
  predicate EndsUnnested(v: Json) {
    match v
    case Leaf(_) => true
    case Obj(fields) => forall i | 0 <= i < |fields| :: EndsUnnested(fields[i].val)
    case Arr(items) =>
      |items| > 0 && ObjectLike(items[0]) ==> !items[|items| - 1].Arr? && EndsUnnested(items[|items| - 1])
  }

  lemma {:induction false} TidyEndsUnnested(v: Json)
    requires Tidy(v)
    ensures EndsUnnested(v)
  {
    match v
    case Leaf(_) =>
    case Obj(fields) =>
      forall i | 0 <= i < |fields|
        ensures EndsUnnested(fields[i].val)
      {
        TidyEndsUnnested(fields[i].val);
      }
    case Arr(items) =>
      if |items| > 0 {
        TidyEndsUnnested(items[|items| - 1]);
      }
  }

  /** After collapsing a path gives the ending there; where there is none, what it gives it gave before. */
  ghost predicate EndingOrBefore(before: Option<Scalar>, after: Option<Scalar>, ending: Option<Scalar>) {
    && (ending.Some? ==> after == ending)
    && (ending.None? && after.Some? ==> before == after)
  }

  lemma {:induction false} CollapseResolves(v: Json, path: seq<Seg>)
    requires EndsUnnested(v) && !v.Arr?
    ensures EndingOrBefore(Resolve(v, path), Resolve(Collapse(v), path), Ending(v, path))
    decreases v, 1, 0
  {
    if v.Obj? && path != [] && path[0].Key? {
      FieldsResolve(v, |v.fields|, path);
    }
  }

  lemma {:induction false} FieldsResolve(v: Json, n: nat, path: seq<Seg>)
    requires EndsUnnested(v) && v.Obj? && n <= |v.fields| && path != [] && path[0].Key?
    ensures EndingOrBefore(ResolveIn(v, n, path), ResolveIn(Collapse(v), n, path), EndingIn(v, n, path))
    decreases v, 0, n
  {
    if n > 0 {
      if v.fields[n - 1].key == path[0].k {
        ValueResolves(v.fields[n - 1].val, path[1..]);
      } else {
        FieldsResolve(v, n - 1, path);
      }
    }
  }

  lemma {:induction false} ValueResolves(val: Json, rest: seq<Seg>)
    requires EndsUnnested(val)
    ensures EndingOrBefore(ResolveValue(val, rest), ResolveValue(CollapseValue(val), rest), EndingValue(val, rest))
    decreases val, 2, 0
  {
    match val
    case Leaf(_) =>
    case Obj(_) => CollapseResolves(val, rest);
    case Arr(items) =>
      if |items| > 0 && ObjectLike(items[0]) {
        CollapseResolves(items[|items| - 1], rest);
      }
  }

  lemma {:induction false} ObjectEndingsHaveNone(v: Json, path: seq<Seg>)
    requires EndsInObjects(v) && !v.Arr?
    ensures EndsUnnested(v) && Ending(v, path) == None
    decreases v, 1, 0
  {
    if v.Obj? {
      forall i | 0 <= i < |v.fields|
        ensures EndsUnnested(v.fields[i].val)
        ensures EndingValue(v.fields[i].val, if path == [] then [] else path[1..]) == None
      {
        ObjectEndingsHaveNoneIn(v.fields[i].val, if path == [] then [] else path[1..]);
      }
      if path != [] && path[0].Key? {
        NoEndingIn(v, |v.fields|, path);
      }
    }
  }

  lemma {:induction false} NoEndingIn(v: Json, n: nat, path: seq<Seg>)
    requires v.Obj? && n <= |v.fields| && path != [] && path[0].Key?
    requires forall i | 0 <= i < |v.fields| :: EndingValue(v.fields[i].val, path[1..]) == None
    ensures EndingIn(v, n, path) == None
    decreases n
  {
    if n > 0 {
      NoEndingIn(v, n - 1, path);
    }
  }

  lemma {:induction false} ObjectEndingsHaveNoneIn(val: Json, rest: seq<Seg>)
    requires EndsInObjects(val)
    ensures EndsUnnested(val) && EndingValue(val, rest) == None
    decreases val, 2, 0
  {
    match val
    case Leaf(_) =>
    case Obj(_) => ObjectEndingsHaveNone(val, rest);
    case Arr(items) =>
      if |items| > 0 && ObjectLike(items[0]) {
        ObjectEndingsHaveNone(items[|items| - 1], rest);
      }
  }

  /** Whatever resolves after collapsing resolved to the same scalar before. */
  lemma CollapseRefines(v: Json, path: seq<Seg>)
    requires EndsInObjects(v) && !v.Arr?
    requires Resolve(Collapse(v), path).Some?
    ensures Resolve(v, path) == Resolve(Collapse(v), path)
  {
    ObjectEndingsHaveNone(v, path);
    CollapseResolves(v, path);
  }

  /** Every key of `small` is a key of `large`, with the same value. */
  ghost predicate Included(small: Flat, large: Flat) {
    forall k | k in small :: k in large && large[k] == small[k]
  }

  /** At every path where a replaced array ends in a scalar, that scalar could be found there before. */
  ghost predicate EndingsWereThere(v: Json) {
    forall path | TidyPath(path) && path != [] && Ending(v, path).Some? :: Resolve(v, path) == Ending(v, path)
  }

  /**
   Collapse-then-flatten agrees with flatten, every key with the same value, exactly if every scalar
   that takes the place of an array was already what the array's path resolved to.
   */
  lemma CollapseThenFlattenIff(v: Json)
    requires Tidy(v) && v.Obj?
    ensures Included(Flatten(Collapse(v), ""), Flatten(v, "")) <==> EndingsWereThere(v)
  {
    hide Resolve, Flatten, Render, Ending, Tidy, Collapse, EndsUnnested, TidyPath;
    CollapsedIsTidyObject(v);
    TidyEndsUnnested(v);
    var before, after := Flatten(v, ""), Flatten(Collapse(v), "");
    if Included(after, before) {
      forall path | TidyPath(path) && path != [] && Ending(v, path).Some?
        ensures Resolve(v, path) == Ending(v, path)
      {
        CollapseResolves(v, path);
        FlattenIsResolve(v, "", path);
        FlattenIsResolve(Collapse(v), "", path);
      }
    }
    if EndingsWereThere(v) {
      FlattenMeaning(Collapse(v));
      forall k | k in after
        ensures k in before && before[k] == after[k]
      {
        var path :| TidyPath(path) && path != [] && Render("", path) == k
                    && Resolve(Collapse(v), path) == Some(after[k]);
        CollapseResolves(v, path);
        FlattenIsResolve(v, "", path);
      }
    }
  }

  lemma CollapsedIsTidyObject(v: Json)
    requires Tidy(v) && v.Obj?
    ensures Tidy(Collapse(v)) && Collapse(v).Obj? && !v.Arr?
  {
    CollapseKeepsTidy(v);
  }

  /** In particular it agrees if every replaced array ends in an object. */
  lemma CollapseThenFlatten(v: Json, k: string)
    requires Tidy(v) && v.Obj? && EndsInObjects(v)
    requires k in Flatten(Collapse(v), "")
    ensures k in Flatten(v, "") && Flatten(v, "")[k] == Flatten(Collapse(v), "")[k]
  {
    forall path
      ensures Ending(v, path) == None
    {
      ObjectEndingsHaveNone(v, path);
    }
    CollapseThenFlattenIff(v);
  }

  predicate HoldsNoArray(v: Json) {
    match v
    case Leaf(_) => true
    case Arr(_) => false
    case Obj(fields) => forall i | 0 <= i < |fields| :: HoldsNoArray(fields[i].val)
  }

  /** The elements that replace arrays hold no array themselves. */
  predicate PlainRecords(v: Json) {
    match v
    case Leaf(_) => true
    case Obj(fields) => forall i | 0 <= i < |fields| :: PlainRecords(fields[i].val)
    case Arr(items) => |items| > 0 && ObjectLike(items[0]) ==> HoldsNoArray(items[|items| - 1])
  }

  lemma {:induction false} NoArrayEndsInObjects(v: Json)
    requires HoldsNoArray(v)
    ensures EndsInObjects(v)
  {
    if v.Obj? {
      forall i | 0 <= i < |v.fields|
        ensures EndsInObjects(v.fields[i].val)
      {
        NoArrayEndsInObjects(v.fields[i].val);
      }
    }
  }

  /** The path of an array that ends in a scalar, reached through objects only, resolved to nothing. */
  lemma {:induction false} ScalarEndingAt(val: Json) returns (rest: seq<Seg>)
    requires Tidy(val) && PlainRecords(val) && !EndsInObjects(val)
    ensures TidyPath(rest) && EndingValue(val, rest).Some? && ResolveValue(val, rest) == None
    ensures val.Obj? ==> rest != []
    decreases val
  {
    match val
    case Leaf(_) => rest := [];
    case Obj(fields) =>
      var i :| 0 <= i < |fields| && !EndsInObjects(fields[i].val);
      var below := ScalarEndingAt(fields[i].val);
      rest := [Key(fields[i].key)] + below;
      assert rest[1..] == below;
      FieldGoverns(val, |fields|, i, rest);
    case Arr(items) =>
      if items[|items| - 1].Obj? {
        NoArrayEndsInObjects(items[|items| - 1]);
      }
      rest := [];
      NothingForNoPath(val, |items|);
  }

  lemma {:induction false} FieldGoverns(v: Json, n: nat, i: nat, path: seq<Seg>)
    requires v.Obj? && Tidy(v) && i < n <= |v.fields|
    requires path != [] && path[0] == Key(v.fields[i].key)
    ensures ResolveIn(v, n, path) == ResolveValue(v.fields[i].val, path[1..])
    ensures EndingIn(v, n, path) == EndingValue(v.fields[i].val, path[1..])
    decreases n
  {
    if i < n - 1 {
      FieldGoverns(v, n - 1, i, path);
    }
  }

  /** Where the replacing elements hold no arrays, that condition is that they are objects. */
  lemma PlainRecordsAgreeIff(v: Json)
    requires Tidy(v) && v.Obj? && PlainRecords(v)
    ensures Included(Flatten(Collapse(v), ""), Flatten(v, "")) <==> EndsInObjects(v)
  {
    hide Flatten, Collapse, Included, TidyPath;
    CollapseThenFlattenIff(v);
    if EndsInObjects(v) {
      forall path
        ensures Ending(v, path) == None
      {
        ObjectEndingsHaveNone(v, path);
      }
    } else {
      var path := ScalarEndingAt(v);
      assert Ending(v, path).Some? && Resolve(v, path) == None;
    }
  }

  /** A scalar ending can be a key that flattening never produces. */
  lemma ScalarEndingInventsKey(k: string, inner: Field, s: Scalar)
    requires TidyKey(k) && Tidy(Obj([inner]))
    ensures var v := Obj([Field(k, Arr([Obj([inner]), Leaf(s)]))]);
            && Tidy(v)
            && Get(Flatten(Collapse(v), ""), k) == Some(s)
            && k !in Flatten(v, "")
  {
    var arr := Arr([Obj([inner]), Leaf(s)]);
    var v, after := Obj([Field(k, arr)]), Obj([Field(k, Leaf(s))]);
    assert CollapseValue(arr) == Leaf(s);
    assert Collapse(v) == after;
    var path := [Key(k)];
    assert Render("", path) == k && path[1..] == [];
    FlattenIsResolve(v, "", path);
    FlattenIsResolve(after, "", path);
    NothingForNoPath(arr, 2);
    assert ResolveIn(v, 1, path) == ResolveValue(arr, []);
    assert ResolveIn(after, 1, path) == ResolveValue(Leaf(s), []);
  }

  // ---- What collapsing leaves behind ----------------------------------------------------------

  /** No array is directly inside another. */
  predicate Unnested(v: Json) {
    match v
    case Leaf(_) => true
    case Arr(items) => forall i | 0 <= i < |items| :: !items[i].Arr? && Unnested(items[i])
    case Obj(fields) => forall i | 0 <= i < |fields| :: Unnested(fields[i].val)
  }

  /** The elements of each array are all objects, or none is. */
  predicate Homogeneous(v: Json) {
    match v
    case Leaf(_) => true
    case Arr(items) =>
      && (forall i, j | 0 <= i < |items| && 0 <= j < |items| :: ObjectLike(items[i]) == ObjectLike(items[j]))
      && (forall i | 0 <= i < |items| :: Homogeneous(items[i]))
    case Obj(fields) => forall i | 0 <= i < |fields| :: Homogeneous(fields[i].val)
  }

  predicate NoArrayOfObjects(v: Json) {
    match v
    case Leaf(_) => true
    case Arr(items) => forall i | 0 <= i < |items| :: !ObjectLike(items[i])
    case Obj(fields) => forall i | 0 <= i < |fields| :: NoArrayOfObjects(fields[i].val)
  }

  /** Wherever an array stays after collapsing, no element of it is then an object. */
  predicate Clears(v: Json) {
    match v
    case Leaf(_) => true
    case Obj(fields) => forall i | 0 <= i < |fields| :: Clears(fields[i].val)
    case Arr(items) =>
      if |items| > 0 && ObjectLike(items[0]) then
        var last := items[|items| - 1];
        if last.Arr? then forall i | 0 <= i < |last.items| :: !ObjectLike(CollapseValue(last.items[i]))
        else Clears(last)
      else forall i | 0 <= i < |items| :: !ObjectLike(items[i])
  }

  /** Collapsing leaves no array of objects exactly if the tree clears. */
  lemma {:induction false} CollapseLeavesNoArrayOfObjectsIff(v: Json)
    requires !v.Arr?
    ensures NoArrayOfObjects(Collapse(v)) <==> Clears(v)
    decreases v, 0
  {
    if v.Obj? {
      var after := Collapse(v);
      forall i | 0 <= i < |v.fields|
        ensures NoArrayOfObjects(after.fields[i].val) <==> Clears(v.fields[i].val)
      {
        ValueLeavesNoArrayOfObjectsIff(v.fields[i].val);
      }
    }
  }

  lemma {:induction false} ValueLeavesNoArrayOfObjectsIff(val: Json)
    ensures NoArrayOfObjects(CollapseValue(val)) <==> Clears(val)
    decreases val, 1
  {
    match val
    case Arr(items) =>
      if |items| > 0 && ObjectLike(items[0]) {
        var last := items[|items| - 1];
        if last.Arr? {
          assert forall i | 0 <= i < |last.items| :: Collapse(last).items[i] == CollapseValue(last.items[i]);
        } else {
          CollapseLeavesNoArrayOfObjectsIff(last);
        }
      }
    case _ => CollapseLeavesNoArrayOfObjectsIff(val);
  }

  lemma {:induction false} HomogeneousClears(v: Json)
    requires Homogeneous(v) && Unnested(v)
    ensures Clears(v)
  {
    match v
    case Leaf(_) =>
    case Obj(fields) =>
      forall i | 0 <= i < |fields|
        ensures Clears(fields[i].val)
      {
        HomogeneousClears(fields[i].val);
      }
    case Arr(items) =>
      if |items| > 0 {
        HomogeneousClears(items[|items| - 1]);
      }
  }

  /** In particular where arrays are homogeneous and none sits directly in another. */
  lemma CollapseLeavesNoArrayOfObjects(v: Json)
    requires Homogeneous(v) && Unnested(v) && !v.Arr?
    ensures NoArrayOfObjects(Collapse(v))
  {
    HomogeneousClears(v);
    CollapseLeavesNoArrayOfObjectsIff(v);
  }

  /** Number of nodes of a tree, and of its first `n` entries. */
  function Size(v: Json): nat
    decreases v, 1, 0
  {
    1 + SizeOfFirst(v, |Vals(v)|)
  }

  function SizeOfFirst(v: Json, n: nat): nat
    requires n <= |Vals(v)|
    decreases v, 0, n
  {
    if n == 0 then 0 else SizeOfFirst(v, n - 1) + Size(Vals(v)[n - 1])
  }

  lemma {:induction false} EntryIsSmaller(v: Json, n: nat, i: nat)
    requires i < n <= |Vals(v)|
    ensures Size(Vals(v)[i]) <= SizeOfFirst(v, n)
    decreases n
  {
    if i < n - 1 {
      EntryIsSmaller(v, n - 1, i);
    }
  }

  lemma CollapsedEntries(v: Json)
    ensures |Vals(Collapse(v))| == |Vals(v)|
    ensures forall i | 0 <= i < |Vals(v)| :: Vals(Collapse(v))[i] == CollapseValue(Vals(v)[i])
  {
  }

  /** Collapsing never makes a tree larger. */
  lemma {:induction false} CollapseShrinks(v: Json)
    ensures Size(Collapse(v)) <= Size(v)
    decreases v, 1, 0
  {
    CollapsedEntries(v);
    EntriesShrink(v, |Vals(v)|);
  }

  lemma {:induction false} EntriesShrink(v: Json, n: nat)
    requires n <= |Vals(v)| == |Vals(Collapse(v))|
    ensures SizeOfFirst(Collapse(v), n) <= SizeOfFirst(v, n)
    decreases v, 0, n
  {
    if n > 0 {
      EntriesShrink(v, n - 1);
      CollapsedEntries(v);
      ValueShrinks(Vals(v)[n - 1]);
    }
  }

  lemma {:induction false} ValueShrinks(val: Json)
    ensures Size(CollapseValue(val)) <= Size(val)
    decreases val, 2, 0
  {
    match val
    case Arr(items) =>
      if |items| > 0 && ObjectLike(items[0]) {
        CollapseShrinks(items[|items| - 1]);
        EntryIsSmaller(val, |items|, |items| - 1);
      }
    case _ => CollapseShrinks(val);
  }

  /** No replaced array ends in an array that, once collapsed, starts with an object itself. */
  predicate Settles(v: Json) {
    match v
    case Leaf(_) => true
    case Obj(fields) => forall i | 0 <= i < |fields| :: Settles(fields[i].val)
    case Arr(items) =>
      |items| > 0 && ObjectLike(items[0]) ==>
        var last := items[|items| - 1];
        if last.Arr? then last.items == [] || !ObjectLike(CollapseValue(last.items[0])) else Settles(last)
  }

  /** An array taken for its last element is larger than what collapsing makes of that element. */
  lemma ReplacedIsSmaller(w: Json)
    requires w.Arr? && |w.items| > 0
    ensures Collapse(w.items[|w.items| - 1]) != w
  {
    CollapseShrinks(w.items[|w.items| - 1]);
    EntryIsSmaller(w, |w.items|, |w.items| - 1);
  }

  /** Collapsing twice is collapsing once exactly if the tree settles. */
  lemma {:induction false} CollapseIdempotentIff(v: Json)
    requires !v.Arr?
    ensures Collapse(Collapse(v)) == Collapse(v) <==> Settles(v)
    decreases v, 0
  {
    if v.Obj? {
      var once, twice := Collapse(v), Collapse(Collapse(v));
      forall i | 0 <= i < |v.fields|
        ensures twice.fields[i].val == once.fields[i].val <==> Settles(v.fields[i].val)
        ensures twice.fields[i].key == once.fields[i].key
      {
        ValueIdempotentIff(v.fields[i].val);
      }
      assert (forall i | 0 <= i < |v.fields| :: twice.fields[i] == once.fields[i]) <==> twice.fields == once.fields;
    }
  }

  lemma {:induction false} ValueIdempotentIff(val: Json)
    ensures CollapseValue(CollapseValue(val)) == CollapseValue(val) <==> Settles(val)
    decreases val, 1
  {
    match val
    case Arr(items) =>
      if |items| > 0 && ObjectLike(items[0]) {
        var last := items[|items| - 1];
        if last.Arr? {
          ArrayEndingSettlesIff(last);
        } else {
          CollapseIdempotentIff(last);
        }
      }
    case _ => CollapseIdempotentIff(val);
  }

  lemma ArrayEndingSettlesIff(last: Json)
    requires last.Arr?
    ensures CollapseValue(Collapse(last)) == Collapse(last)
       <==> last.items == [] || !ObjectLike(CollapseValue(last.items[0]))
  {
    var w := Collapse(last);
    if last.items != [] {
      assert w.items[0] == CollapseValue(last.items[0]);
      ReplacedIsSmaller(w);
    }
  }

  lemma {:induction false} UnnestedSettles(v: Json)
    requires Unnested(v)
    ensures Settles(v)
  {
    match v
    case Leaf(_) =>
    case Obj(fields) =>
      forall i | 0 <= i < |fields|
        ensures Settles(fields[i].val)
      {
        UnnestedSettles(fields[i].val);
      }
    case Arr(items) =>
      if |items| > 0 {
        UnnestedSettles(items[|items| - 1]);
      }
  }

  /** In particular where no array sits directly in an array. */
  lemma CollapseIdempotent(v: Json)
    requires Unnested(v) && !v.Arr?
    ensures Collapse(Collapse(v)) == Collapse(v)
  {
    UnnestedSettles(v);
    CollapseIdempotentIff(v);
  }

  /** With a nested array of objects the first pass peels one level, the second the next. */
  lemma NestedArrayPeelsTwice(k: string, o: Json)
    requires o == Obj([])
    ensures var v := Obj([Field(k, Arr([Arr([o])]))]);
            && Collapse(v) == Obj([Field(k, Arr([o]))])
            && Collapse(Collapse(v)) == Obj([Field(k, o)])
  {
    var v, once := Obj([Field(k, Arr([Arr([o])]))]), Obj([Field(k, Arr([o]))]);
    assert Collapse(o) == o;
    assert CollapseValue(o) == o;
    assert Collapse(Arr([o])) == Arr([o]);
    assert CollapseValue(Arr([Arr([o])])) == Arr([o]);
    assert Collapse(v) == once;
    assert CollapseValue(Arr([o])) == o;
    assert Collapse(once) == Obj([Field(k, o)]);
  }

  // ---- The loops the services run -----------------------------------------------------------

  /** Fills one result object, overwriting as it goes. */
  method FlattenObject(v: Json, prefix: string) returns (result: Flat)
    ensures result == Flatten(v, prefix)
    decreases v, 1
  {
    result := map[];
    var entries := Entries(v);
    for e := 0 to |entries|
      invariant result == FlattenEntries(v, e, prefix)
    {
      var key, val := entries[e].key, entries[e].val;
      var fullKey := if prefix == "" then key else prefix + "." + key;
      match val {
        case Leaf(s) =>
          result := result[fullKey := s];
        case Obj(_) =>
          var nested := FlattenObject(val, fullKey);
          result := result + nested;
        case Arr(items) =>
          result := FlattenArray(val, fullKey, result);
      }
    }
  }

  lemma MergeAssociates(a: Flat, b: Flat, c: Flat)
    ensures a + b + c == a + (b + c)
  {
  }

  /** First every element under its index, then every element again without it. */
  method FlattenArray(val: Json, fullKey: string, before: Flat) returns (result: Flat)
    requires val.Arr?
    ensures result == before + FlattenValue(val, fullKey)
    decreases val, 0
  {
    result := before;
    for idx := 0 to |val.items|
      invariant result == before + WithIndex(val, idx, fullKey)
    {
      var nested := FlattenObject(val.items[idx], fullKey + "." + Dec(idx));
      MergeAssociates(before, WithIndex(val, idx, fullKey), nested);
      result := result + nested;
    }
    ghost var indexed := WithIndex(val, |val.items|, fullKey);
    for idx := 0 to |val.items|
      invariant result == before + (indexed + WithoutIndex(val, idx, fullKey))
    {
      var nested := FlattenObject(val.items[idx], fullKey);
      MergeAssociates(before, indexed + WithoutIndex(val, idx, fullKey), nested);
      MergeAssociates(indexed, WithoutIndex(val, idx, fullKey), nested);
      result := result + nested;
    }
  }
}
