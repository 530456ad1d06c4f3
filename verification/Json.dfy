/** JSON trees, decimal array indices and dotted keys. */
module Json {

  datatype Scalar = Null | Bool(b: bool) | Num(n: int) | Text(s: string) | Moment(ms: int)

  datatype Json = Leaf(value: Scalar) | Arr(items: seq<Json>) | Obj(fields: seq<Field>)

  datatype Field = Field(key: string, val: Json)

  /** `typeof x === 'object' && x !== null`; dates are objects too. */
  predicate ObjectLike(v: Json) {
    !v.Leaf? || v.value.Moment?
  }

  // ---- Decimal indices --------------------------------------------------------------

  function Digit(d: nat): char
    requires d < 10
  {
    '0' + d as char
  }

  function Dec(n: nat): string {
    if n < 10 then [Digit(n)] else Dec(n / 10) + [Digit(n % 10)]
  }

  /** The text of some array index: digits without a leading zero. */
  predicate IsIndex(s: string) {
    && s != ""
    && (forall c | c in s :: '0' <= c <= '9')
    && (|s| > 1 ==> s[0] != '0')
  }

  lemma {:induction false} DecIsIndex(n: nat)
    ensures IsIndex(Dec(n))
    ensures n > 0 ==> Dec(n)[0] != '0'
  {
    if n >= 10 {
      DecIsIndex(n / 10);
      assert Dec(n)[0] == Dec(n / 10)[0];
    }
  }

  lemma {:induction false} DecInjective(a: nat, b: nat)
    requires Dec(a) == Dec(b)
    ensures a == b
  {
    var s, t := Dec(a), Dec(b);
    assert s[|s| - 1] == t[|t| - 1];
    assert Digit(a % 10) == Digit(b % 10);
    assert a >= 10 <==> |s| >= 2;
    assert b >= 10 <==> |t| >= 2;
    if a >= 10 {
      assert Dec(a / 10) == s[..|s| - 1] && Dec(b / 10) == t[..|t| - 1];
      DecInjective(a / 10, b / 10);
    }
  }

  // ---- Entries and dotted keys --------------------------------------------------------

  /** `Object.entries`: an array lists its elements under their indices, a scalar or date nothing. */
  function Entries(v: Json): (r: seq<Field>)
    ensures forall i | 0 <= i < |r| :: r[i].val < v
  {
    match v
    case Leaf(_) => []
    case Obj(fields) => fields
    case Arr(items) => seq(|items|, i requires 0 <= i < |items| => Field(Dec(i), items[i]))
  }

  /** The values below a tree node, in the order of its entries. */
  function Vals(v: Json): (r: seq<Json>)
    ensures forall i | 0 <= i < |r| :: r[i] < v
  {
    match v
    case Leaf(_) => []
    case Obj(fields) => seq(|fields|, i requires 0 <= i < |fields| => fields[i].val)
    case Arr(items) => items
  }

  function Extend(prefix: string, key: string): string {
    if prefix == "" then key else prefix + "." + key
  }

  datatype Seg = Key(k: string) | Idx(i: nat)

  function SegText(s: Seg): string {
    match s
    case Key(k) => k
    case Idx(i) => Dec(i)
  }

  /** A key that neither contains the separator nor reads as an array index. */
  predicate TidyKey(k: string) {
    k != "" && '.' !in k && !IsIndex(k)
  }

  predicate TidyPath(path: seq<Seg>) {
    forall s | s in path :: s.Key? ==> TidyKey(s.k)
  }

  /** The dotted key reached from `prefix` along `path`. */
  function Render(prefix: string, path: seq<Seg>): string
    decreases |path|
  {
    if path == [] then prefix else Render(Extend(prefix, SegText(path[0])), path[1..])
  }

  function Tail(path: seq<Seg>): string {
    if path == [] then "" else "." + SegText(path[0]) + Tail(path[1..])
  }

  lemma {:induction false} RenderIsTail(prefix: string, path: seq<Seg>)
    requires prefix != ""
    ensures Render(prefix, path) == prefix + Tail(path)
    decreases |path|
  {
    hide SegText;
    if path != [] {
      RenderIsTail(Extend(prefix, SegText(path[0])), path[1..]);
    }
  }

  lemma SegTextShape(s: Seg)
    requires s.Key? ==> TidyKey(s.k)
    ensures SegText(s) != "" && '.' !in SegText(s)
  {
    if s.Idx? {
      DecIsIndex(s.i);
    }
  }

  lemma SegTextInjective(s: Seg, t: Seg)
    requires (s.Key? ==> TidyKey(s.k)) && (t.Key? ==> TidyKey(t.k))
    requires SegText(s) == SegText(t)
    ensures s == t
  {
    if s.Idx? {
      DecIsIndex(s.i);
    }
    if t.Idx? {
      DecIsIndex(t.i);
    }
    if s.Idx? && t.Idx? {
      DecInjective(s.i, t.i);
    }
  }

  lemma FirstDot(x: string, r: string)
    requires '.' !in x
    requires r == "" || r[0] == '.'
    ensures forall i | 0 <= i < |x| :: (x + r)[i] != '.'
    ensures |x + r| > |x| ==> (x + r)[|x|] == '.'
  {
  }

  /** A dot-free text is cut off by the next dot in one way only. */
  lemma CutAtDot(x: string, r: string, y: string, s: string)
    requires '.' !in x && '.' !in y
    requires r == "" || r[0] == '.'
    requires s == "" || s[0] == '.'
    requires x + r == y + s
    ensures x == y && r == s
  {
    FirstDot(x, r);
    FirstDot(y, s);
    assert |x| == |y|;
    assert x == (x + r)[..|x|] && y == (y + s)[..|y|];
    assert r == (x + r)[|x|..] && s == (y + s)[|y|..];
  }

  lemma TailAfterDot(a: seq<Seg>)
    requires a != []
    ensures Tail(a)[1..] == SegText(a[0]) + Tail(a[1..])
    ensures Tail(a[1..]) == "" || Tail(a[1..])[0] == '.'
  {
    hide SegText;
  }

  lemma TailsCutAlike(a: seq<Seg>, b: seq<Seg>)
    requires TidyPath(a) && TidyPath(b) && a != [] && b != [] && Tail(a) == Tail(b)
    ensures a[0] == b[0] && Tail(a[1..]) == Tail(b[1..])
  {
    hide Tail, SegText;
    SegTextShape(a[0]);
    SegTextShape(b[0]);
    TailAfterDot(a);
    TailAfterDot(b);
    CutAtDot(SegText(a[0]), Tail(a[1..]), SegText(b[0]), Tail(b[1..]));
    SegTextInjective(a[0], b[0]);
  }

  lemma {:induction false} TailInjective(a: seq<Seg>, b: seq<Seg>)
    requires TidyPath(a) && TidyPath(b) && Tail(a) == Tail(b)
    ensures a == b
    decreases |a|
  {
    if a != [] && b != [] {
      TailsCutAlike(a, b);
      hide Tail, SegText;
      TailInjective(a[1..], b[1..]);
      assert a == [a[0]] + a[1..] && b == [b[0]] + b[1..];
    }
  }

  /** Different tidy paths never share a dotted key. */
  lemma RenderInjective(prefix: string, a: seq<Seg>, b: seq<Seg>)
    requires TidyPath(a) && TidyPath(b) && a != [] && b != []
    requires Render(prefix, a) == Render(prefix, b)
    ensures a == b
  {
    SegTextShape(a[0]);
    SegTextShape(b[0]);
    if prefix != "" {
      RenderIsTail(prefix, a);
      RenderIsTail(prefix, b);
      assert Tail(a) == Render(prefix, a)[|prefix|..] && Tail(b) == Render(prefix, b)[|prefix|..];
      TailInjective(a, b);
    } else {
      RenderIsTail(SegText(a[0]), a[1..]);
      RenderIsTail(SegText(b[0]), b[1..]);
      CutAtDot(SegText(a[0]), Tail(a[1..]), SegText(b[0]), Tail(b[1..]));
      SegTextInjective(a[0], b[0]);
      TailInjective(a[1..], b[1..]);
      assert a == [a[0]] + a[1..] && b == [b[0]] + b[1..];
    }
  }
}
