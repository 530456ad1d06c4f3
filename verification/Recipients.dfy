/**
 Recipient expressions (src/modules/events/event-listeners.ts, resolveRecipientList): a comma-separated
 list of addresses, the word "admin", and paths that another service resolves.
 */
module Recipients {
  import opened Common
  import opened Text

  /** What a path resolves to, as text; a falsy value is Nothing. */
  datatype Resolved = Nothing | One(text: string) | Many(texts: seq<string>)

  const ADMIN := "admin"

  // ---- Trimming -----------------------------------------------------------------------------

  /** White space and line terminators, sections 12.2 and 12.3 of ECMA-262. */
  predicate IsSpace(c: char) {
    var n := c as int;
    9 <= n <= 13 || n == 32 || n == 160 || n == 0x1680 || 0x2000 <= n <= 0x200A || n == 0x2028 || n == 0x2029
    || n == 0x202F || n == 0x205F || n == 0x3000 || n == 0xFEFF
  }

  function TrimStart(s: string): string {
    if s != "" && IsSpace(s[0]) then TrimStart(s[1..]) else s
  }

  function TrimEnd(s: string): string {
    if s != "" && IsSpace(s[|s| - 1]) then TrimEnd(s[..|s| - 1]) else s
  }

  function Trim(s: string): string {
    TrimEnd(TrimStart(s))
  }

  function StripBraces(s: string): string {
    if s == "" then ""
    else (if s[0] == '{' || s[0] == '}' then "" else [s[0]]) + StripBraces(s[1..])
  }

  // ---- The list -------------------------------------------------------------------------------

  predicate Addressable(s: string) {
    '@' in s || s == ADMIN
  }

  function TrimAll(texts: seq<string>): seq<string> {
    seq(|texts|, i requires 0 <= i < |texts| => Trim(texts[i]))
  }

  /** What one part of the expression adds. */
  function Contribution(part: string, resolve: string -> Resolved): seq<string> {
    var trimmed := Trim(part);
    if trimmed == "" then []
    else
      var path := Trim(StripBraces(trimmed));
      if Addressable(path) then [path]
      else
        match resolve(path)
        case Nothing => []
        case One(text) => [Trim(text)]
        case Many(texts) => TrimAll(texts)
  }

  function Collected(parts: seq<string>, resolve: string -> Resolved): seq<string> {
    if parts == [] then []
    else Collected(parts[..|parts| - 1], resolve) + Contribution(parts[|parts| - 1], resolve)
  }

  function KeepAddressable(s: seq<string>): seq<string> {
    if s == [] then []
    else KeepAddressable(s[..|s| - 1]) + if Addressable(s[|s| - 1]) then [s[|s| - 1]] else []
  }

  function RecipientsOf(expression: string, resolve: string -> Resolved): seq<string> {
    if expression == "" then [] else KeepAddressable(Distinct(Collected(Split(expression, ','), resolve)))
  }

  // ---- What it yields ----------------------------------------------------------------------------

  /** Every value of `kept` has, in `s`, an occurrence before all those of the values after it. */
  ghost predicate InFirstOrder(kept: seq<string>, s: seq<string>) {
    forall i, j | 0 <= i < j < |kept| :: ComesFirst(kept[i], kept[j], s)
  }

  ghost predicate ComesFirst(x: string, y: string, s: seq<string>) {
    exists a :: 0 <= a < |s| && s[a] == x && y !in s[..a]
  }

  lemma {:induction false} DistinctKeepsFirstOrder(s: seq<string>)
    ensures InFirstOrder(Distinct(s), s)
  {
    if s != [] {
      var n := |s| - 1;
      var front := Distinct(s[..n]);
      DistinctKeepsFirstOrder(s[..n]);
      var all := Distinct(s);
      forall i, j | 0 <= i < j < |all|
        ensures ComesFirst(all[i], all[j], s)
      {
        if j < |front| {
          assert ComesFirst(front[i], front[j], s[..n]);
          var a :| 0 <= a < n && s[..n][a] == front[i] && front[j] !in s[..n][..a];
          assert s[..n][..a] == s[..a];
          assert s[a] == all[i];
        } else {
          assert front[i] in s[..n];
          var a :| 0 <= a < n && s[..n][a] == front[i];
          assert forall b | 0 <= b < a :: s[b] == s[..n][b] && s[b] in s[..n];
          assert s[a] == all[i] && all[j] == s[n];
        }
      }
    }
  }

  lemma {:induction false} KeepMembers(s: seq<string>, x: string)
    ensures x in KeepAddressable(s) <==> x in s && Addressable(x)
    decreases |s|
  {
    hide Addressable;
    if s != [] {
      KeepMembers(s[..|s| - 1], x);
      assert s == s[..|s| - 1] + [s[|s| - 1]];
    }
  }

  lemma KeptComeBefore(s: seq<string>, whole: seq<string>, i: nat)
    requires s != [] && NoDuplicates(s) && InFirstOrder(s, whole)
    requires i < |KeepAddressable(s[..|s| - 1])|
    ensures var x, last := KeepAddressable(s[..|s| - 1])[i], s[|s| - 1]; x != last && ComesFirst(x, last, whole)
  {
    hide KeepAddressable, ComesFirst;
    var front := s[..|s| - 1];
    KeepMembers(front, KeepAddressable(front)[i]);
    var k :| 0 <= k < |front| && front[k] == KeepAddressable(front)[i];
    assert s[k] == front[k];
  }

  lemma {:induction false} KeepsOrder(s: seq<string>, whole: seq<string>)
    requires NoDuplicates(s) && InFirstOrder(s, whole)
    ensures NoDuplicates(KeepAddressable(s)) && InFirstOrder(KeepAddressable(s), whole)
    decreases |s|
  {
    hide Addressable, ComesFirst;
    if s != [] {
      KeepsOrder(s[..|s| - 1], whole);
      var kept := KeepAddressable(s[..|s| - 1]);
      forall i | 0 <= i < |kept|
        ensures kept[i] != s[|s| - 1] && ComesFirst(kept[i], s[|s| - 1], whole)
      {
        KeptComeBefore(s, whole, i);
      }
    }
  }

  lemma {:induction false} CollectedFromParts(parts: seq<string>, resolve: string -> Resolved, x: string)
    ensures x in Collected(parts, resolve) <==>
            exists i :: 0 <= i < |parts| && x in Contribution(parts[i], resolve)
    decreases |parts|
  {
    hide Contribution;
    if parts != [] {
      var n := |parts| - 1;
      CollectedFromParts(parts[..n], resolve, x);
      if i :| 0 <= i < |parts| && x in Contribution(parts[i], resolve) {
        if i < n {
          assert parts[..n][i] == parts[i];
        }
      }
    }
  }

  /** The recipients are the addressable contributions, once each, in order of first mention. */
  lemma RecipientsExactly(expression: string, resolve: string -> Resolved, x: string)
    requires expression != ""
    ensures var parts := Split(expression, ',');
            var r := RecipientsOf(expression, resolve);
            && NoDuplicates(r) && InFirstOrder(r, Collected(parts, resolve))
            && (x in r <==> Addressable(x) && exists i :: 0 <= i < |parts| && x in Contribution(parts[i], resolve))
  {
    hide Contribution, Addressable, InFirstOrder;
    var all := Collected(Split(expression, ','), resolve);
    DistinctKeepsFirstOrder(all);
    KeepsOrder(Distinct(all), all);
    KeepMembers(Distinct(all), x);
    CollectedFromParts(Split(expression, ','), resolve, x);
  }

  // ---- Written-out addresses come back -------------------------------------------------------------

  /** An address as one would write it: no separator, brace or surrounding space. */
  predicate Plain(a: string) {
    && '@' in a && ',' !in a && '{' !in a && '}' !in a
    && !IsSpace(a[0]) && !IsSpace(a[|a| - 1])
  }

  lemma {:induction false} NothingToStrip(s: string)
    requires '{' !in s && '}' !in s
    ensures StripBraces(s) == s
    decreases |s|
  {
    if s != "" {
      NothingToStrip(s[1..]);
      assert s == [s[0]] + s[1..];
    }
  }

  lemma PlainContributesItself(a: string, resolve: string -> Resolved)
    requires Plain(a)
    ensures Contribution(a, resolve) == [a]
  {
    NothingToStrip(a);
  }

  lemma {:induction false} PlainCollected(addresses: seq<string>, resolve: string -> Resolved)
    requires forall i | 0 <= i < |addresses| :: Plain(addresses[i])
    ensures Collected(addresses, resolve) == addresses
    decreases |addresses|
  {
    hide Contribution, Plain;
    if addresses != [] {
      var n := |addresses| - 1;
      PlainCollected(addresses[..n], resolve);
      PlainContributesItself(addresses[n], resolve);
    }
  }

  lemma {:induction false} DistinctOfDistinct(s: seq<string>)
    requires NoDuplicates(s)
    ensures Distinct(s) == s
    decreases |s|
  {
    if s != [] {
      var front, last := s[..|s| - 1], s[|s| - 1];
      assert s == front + [last] && last !in front;
      DistinctOfDistinct(front);
      assert Distinct(s) == Added(front, last);
    }
  }

  lemma {:induction false} AllAddressableKept(s: seq<string>)
    requires forall i | 0 <= i < |s| :: Addressable(s[i])
    ensures KeepAddressable(s) == s
    decreases |s|
  {
    hide Addressable;
    if s != [] {
      AllAddressableKept(s[..|s| - 1]);
    }
  }

  /** Distinct addresses joined by commas resolve to themselves, in order, whatever paths resolve to. */
  lemma JoinedAddressesComeBack(addresses: seq<string>, resolve: string -> Resolved)
    requires addresses != [] && NoDuplicates(addresses)
    requires forall i | 0 <= i < |addresses| :: Plain(addresses[i])
    ensures RecipientsOf(Join(addresses, ','), resolve) == addresses
  {
    hide Contribution, Collected, Distinct, KeepAddressable;
    SplitUndoesJoin(addresses, ',');
    PlainCollected(addresses, resolve);
    DistinctOfDistinct(addresses);
    AllAddressableKept(addresses);
    assert Plain(addresses[0]) && addresses[0] != "";
  }

  // ---- The loop ----------------------------------------------------------------------------------------

  lemma CollectedStep(parts: seq<string>, i: nat, resolve: string -> Resolved)
    requires i < |parts|
    ensures Collected(parts[..0], resolve) == []
    ensures var trimmed := Trim(parts[i]);
            var path := Trim(StripBraces(trimmed));
            Collected(parts[..i + 1], resolve) == Collected(parts[..i], resolve)
              + if trimmed == "" then [] else if Addressable(path) then [path]
                else match resolve(path) {
                       case Nothing => []
                       case One(text) => [Trim(text)]
                       case Many(texts) => TrimAll(texts)
                     }
  {
    hide Trim, StripBraces, Addressable;
    assert parts[..i + 1][..i] == parts[..i];
  }

  method ResolveRecipientList(expression: string, resolve: string -> Resolved) returns (recipients: seq<string>)
    ensures recipients == RecipientsOf(expression, resolve)
  {
    if expression == "" {
      return [];
    }
    hide Trim, StripBraces, Addressable, KeepAddressable, Distinct, Collected, Contribution;
    var parts := Split(expression, ',');
    var results: seq<string> := [];
    for i := 0 to |parts|
      invariant results == Collected(parts[..i], resolve)
    {
      CollectedStep(parts, i, resolve);
      var trimmed := Trim(parts[i]);
      if trimmed != "" {
        var path := Trim(StripBraces(trimmed));
        if Addressable(path) {
          results := results + [path];
        } else {
          match resolve(path) {
            case Nothing =>
            case One(text) => results := results + [Trim(text)];
            case Many(texts) => results := results + TrimAll(texts);
          }
        }
      }
    }
    assert parts[..|parts|] == parts;
    recipients := KeepAddressable(Distinct(results));
  }
}
