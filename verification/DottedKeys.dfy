/**
 Flattened keys as texts: split at the dots they name object keys as they are and array positions in decimal, and
 looking such a text up walks the tree. Indices are read here, never written.
 */
module DottedKeys {
  import opened Common
  import opened Text
  import opened Json
  import opened Flattening

  /** The number a text of decimal digits stands for. */
  function Value(s: string): int {
    if s == "" then 0 else 10 * Value(s[..|s| - 1]) + (s[|s| - 1] as int - '0' as int)
  }

  /** The text of an index reads as that index. */
  lemma {:induction false} ValueOfDec(n: nat)
    ensures Value(Dec(n)) == n
  {
    if n >= 10 {
      ValueOfDec(n / 10);
      assert Dec(n)[..|Dec(n)| - 1] == Dec(n / 10);
    } else {
      assert Dec(n)[..0] == "";
    }
  }

  lemma {:induction false} DigitsAreWritten(s: string)
    requires IsIndex(s)
    ensures Value(s) >= 0 && (s[0] != '0' ==> Value(s) > 0) && Dec(Value(s)) == s
    decreases |s|
  {
    var n := |s| - 1;
    var front, last := s[..n], s[n] as int - '0' as int;
    LastDigit(s);
    if n > 0 {
      DigitsAreWritten(front);
      hide Value, IsIndex;
      assert s == front + [s[n]] && front[0] == s[0];
      DecAppends(Value(front), last);
    }
  }

  lemma LastDigit(s: string)
    requires IsIndex(s)
    ensures var n := |s| - 1;
            var front, last := s[..n], s[n] as int - '0' as int;
            && 0 <= last < 10 && s[n] == Digit(last)
            && Value(s) == 10 * Value(front) + last
            && (n == 0 ==> Value(s) == last && Dec(last) == s && (s[0] == '0' <==> last == 0))
            && (n > 0 ==> IsIndex(front) && front[0] == s[0] != '0')
  {
    var n := |s| - 1;
    assert s[n] in s;
    assert forall c | c in s[..n] :: c in s;
    if n == 0 {
      assert s == [s[0]] && Value(s[..0]) == 0;
    }
  }

  lemma DecAppends(v: int, digit: int)
    requires v > 0 && 0 <= digit < 10
    ensures Dec(10 * v + digit) == Dec(v) + [Digit(digit)]
  {
    assert (10 * v + digit) / 10 == v && (10 * v + digit) % 10 == digit;
  }

  // ---- What a dotted text refers to ------------------------------------------------------------

  /** The node reached by following object keys and decimal positions. */
  function Walk(v: Json, parts: seq<string>): Option<Json>
    decreases |parts|
  {
    if parts == [] then Some(v)
    else
      match v
      case Leaf(_) => None
      case Arr(items) =>
        if IsIndex(parts[0]) && 0 <= Value(parts[0]) < |items| then Walk(items[Value(parts[0])], parts[1..]) else None
      case Obj(fields) => WalkIn(v, |fields|, parts)
  }

  function WalkIn(v: Json, n: nat, parts: seq<string>): Option<Json>
    requires v.Obj? && n <= |v.fields| && parts != []
    decreases |parts|, 0, n
  {
    if n == 0 then None
    else if v.fields[n - 1].key == parts[0] then Walk(v.fields[n - 1].val, parts[1..])
    else WalkIn(v, n - 1, parts)
  }

  function Texts(path: seq<Seg>): seq<string> {
    seq(|path|, i requires 0 <= i < |path| => SegText(path[i]))
  }

  /** The path that a list of texts spells. */
  function Spelled(parts: seq<string>): seq<Seg> {
    seq(|parts|, i requires 0 <= i < |parts| =>
      if IsIndex(parts[i]) && Value(parts[i]) >= 0 then Idx(Value(parts[i])) else Key(parts[i]))
  }

  lemma {:induction false} RenderJoins(path: seq<Seg>)
    requires TidyPath(path) && path != []
    ensures Render("", path) == Join(Texts(path), '.')
    decreases |path|
  {
    hide SegText;
    SegTextShape(path[0]);
    var first, rest := SegText(path[0]), path[1..];
    assert Texts(path)[0] == first && Texts(path)[1..] == Texts(rest);
    if rest != [] {
      SegTextShape(rest[0]);
      RenderJoins(rest);
      RenderIsTail(first, rest);
      RenderIsTail(SegText(rest[0]), rest[1..]);
    }
  }

  lemma SpelledTexts(parts: seq<string>)
    requires forall i | 0 <= i < |parts| :: IsIndex(parts[i]) || TidyKey(parts[i])
    ensures TidyPath(Spelled(parts)) && Texts(Spelled(parts)) == parts
  {
    hide Value, Dec, IsIndex, TidyKey;
    forall i | 0 <= i < |parts|
      ensures SegText(Spelled(parts)[i]) == parts[i]
      ensures Spelled(parts)[i].Key? ==> TidyKey(Spelled(parts)[i].k)
    {
      if IsIndex(parts[i]) {
        DigitsAreWritten(parts[i]);
      }
    }
    assert forall s | s in Spelled(parts) :: s.Key? ==> TidyKey(s.k);
  }

  lemma {:induction false} WalkIsAt(v: Json, parts: seq<string>)
    requires Tidy(v) && Walk(v, parts).Some?
    ensures At(v, Spelled(parts)) == Walk(v, parts)
    ensures forall i | 0 <= i < |parts| :: IsIndex(parts[i]) || TidyKey(parts[i])
    decreases |parts|, |Entries(v)| + 1
  {
    hide Value, IsIndex;
    if parts != [] {
      assert Spelled(parts)[1..] == Spelled(parts[1..]);
      match v
      case Arr(items) => WalkIsAt(items[Value(parts[0])], parts[1..]);
      case Obj(fields) => WalkInIsAt(v, |fields|, parts);
    }
  }

  lemma {:induction false} WalkInIsAt(v: Json, n: nat, parts: seq<string>)
    requires v.Obj? && Tidy(v) && n <= |v.fields| && parts != [] && WalkIn(v, n, parts).Some?
    ensures Spelled(parts)[0].Key? && AtKey(v, n, Spelled(parts)) == WalkIn(v, n, parts)
    ensures forall i | 0 <= i < |parts| :: IsIndex(parts[i]) || TidyKey(parts[i])
    decreases |parts|, n
  {
    hide Value, IsIndex;
    assert Spelled(parts)[1..] == Spelled(parts[1..]);
    if v.fields[n - 1].key == parts[0] {
      WalkIsAt(v.fields[n - 1].val, parts[1..]);
    } else {
      WalkInIsAt(v, n - 1, parts);
    }
  }

  /** Where a dotted text leads to a field with a scalar, the flattened tree has that scalar under this very text. */
  lemma WrittenKeyLooksUp(v: Json, parts: seq<string>, s: Scalar)
    requires Tidy(v) && v.Obj? && parts != [] && !IsIndex(parts[|parts| - 1])
    requires Walk(v, parts) == Some(Leaf(s))
    ensures Get(Flatten(v, ""), Join(parts, '.')) == Some(s)
  {
    hide Walk, At, Join, Flatten;
    WalkIsAt(v, parts);
    SpelledTexts(parts);
    RenderJoins(Spelled(parts));
    IndexedPathLooksUp(v, Spelled(parts), s);
    FlattenIsResolve(v, "", Spelled(parts));
  }

  /** Split at its dots, every flattened key spells a path: keys as they are, positions in decimal. */
  lemma KeysSpellPaths(v: Json, k: string)
    requires Tidy(v) && v.Obj? && k in Flatten(v, "")
    ensures exists path: seq<Seg> :: SpellsPath(Split(k, '.'), path) && Resolve(v, path) == Some(Flatten(v, "")[k])
  {
    hide Flatten, Resolve, Split;
    FlattenMeaning(v);
    var path: seq<Seg> :| TidyPath(path) && path != [] && Render("", path) == k
                          && Resolve(v, path) == Some(Flatten(v, "")[k]);
    RenderJoins(path);
    forall i | 0 <= i < |path|
      ensures '.' !in Texts(path)[i]
    {
      SegTextShape(path[i]);
    }
    SplitUndoesJoin(Texts(path), '.');
    forall i | 0 <= i < |path| && path[i].Idx?
      ensures Value(Texts(path)[i]) == path[i].i
    {
      ValueOfDec(path[i].i);
    }
    assert SpellsPath(Split(k, '.'), path);
  }

  ghost predicate SpellsPath(parts: seq<string>, path: seq<Seg>) {
    |parts| == |path| && forall i | 0 <= i < |path| ::
      match path[i]
      case Key(name) => parts[i] == name
      case Idx(n) => Value(parts[i]) == n
  }
}
