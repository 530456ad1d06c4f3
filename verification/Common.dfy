/** Small datatypes and sequence facts shared by the models. */
module Common {

  datatype Option<+T> = None | Some(value: T)

  /** No value occurs at two positions. */
  ghost predicate NoDuplicates<T>(s: seq<T>) {
    forall i, j | 0 <= i < j < |s| :: s[i] != s[j]
  }

  /** Concatenation keeps values distinct when the two halves share none. */
  lemma NoDuplicatesConcat<T>(a: seq<T>, b: seq<T>)
    requires NoDuplicates(a) && NoDuplicates(b)
    requires forall x | x in a :: x !in b
    ensures NoDuplicates(a + b)
  {
    forall i, j | 0 <= i < j < |a + b|
      ensures (a + b)[i] != (a + b)[j]
    {
      if i < |a| <= j {
        assert a[i] in a && b[j - |a|] in b;
      }
    }
  }

  /** Distinct values drawn from a sequence are no more than its positions. */
  lemma {:induction false} Pigeonhole<T>(s: seq<T>, pool: seq<T>)
    requires NoDuplicates(s)
    requires forall x | x in s :: x in pool
    ensures |s| <= |pool|
    decreases |pool|
  {
    if |s| > 0 {
      var last := |s| - 1;
      assert s[last] in pool;
      var k :| 0 <= k < |pool| && pool[k] == s[last];
      var rest := pool[..k] + pool[k + 1..];
      forall x | x in s[..last]
        ensures x in rest
      {
        var i :| 0 <= i < last && s[i] == x;
        assert s[i] in pool;
        var j :| 0 <= j < |pool| && pool[j] == x;
        assert j != k;
        assert rest[if j < k then j else j - 1] == x;
      }
      Pigeonhole(s[..last], rest);
    }
  }

  /** Position of the first element that satisfies `p`, or -1. */
  function FirstIndex<T>(s: seq<T>, p: T -> bool): (r: int)
    ensures r == -1 || (0 <= r < |s| && p(s[r]))
    ensures forall i | 0 <= i < (if r == -1 then |s| else r) :: !p(s[i])
  {
    if s == [] then -1
    else if p(s[0]) then 0
    else
      var rest := FirstIndex(s[1..], p);
      assert forall i | 1 <= i < |s| :: s[i] == s[1..][i - 1];
      if rest == -1 then -1 else rest + 1
  }

  // ---- JavaScript idioms -----------------------------------------------------------------

  /** `a || b` on strings. */
  function OrElse(a: string, b: string): string {
    if a != "" then a else b
  }

  /** An empty string counts as absent. */
  function Truthy(s: Option<string>): Option<string> {
    if s == Some("") then None else s
  }

  /** `Set.add` on a set listed in insertion order. */
  function Added<T(==)>(s: seq<T>, x: T): seq<T> {
    if x in s then s else s + [x]
  }

  /** Insertion-ordered set of the values, as `Array.from(new Set(...))` lists it. */
  function Distinct<T(==,!new)>(s: seq<T>): (r: seq<T>)
    ensures NoDuplicates(r)
    ensures forall x :: x in r <==> x in s
  {
    if s == [] then []
    else
      assert s == s[..|s| - 1] + [s[|s| - 1]];
      Added(Distinct(s[..|s| - 1]), s[|s| - 1])
  }
}
