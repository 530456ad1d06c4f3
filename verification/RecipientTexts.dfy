/** Recipient expressions as people write them: with spaces and braces around what they mean. */
module RecipientTexts {
  import opened Common
  import opened Text
  import opened Recipients

  /** Every white space and line terminator of ECMA-262, the byte order mark included. */
  const SPACES: string :=
    "\t\n\U{B}\U{C}\r \U{A0}\U{1680}\U{2000}\U{2001}\U{2002}\U{2003}\U{2004}\U{2005}\U{2006}\U{2007}\U{2008}\U{2009}"
    + "\U{200A}\U{2028}\U{2029}\U{202F}\U{205F}\U{3000}\U{FEFF}"

  lemma SpacesAre(c: char)
    ensures IsSpace(c) <==> c in SPACES
  {
  }

  predicate AllSpace(s: string) {
    forall i | 0 <= i < |s| :: IsSpace(s[i])
  }

  /** Begins and ends with something else than a space, or is empty. */
  predicate Tight(s: string) {
    s != "" ==> !IsSpace(s[0]) && !IsSpace(s[|s| - 1])
  }

  // ---- Trimming --------------------------------------------------------------------------------

  lemma {:induction false} TrimStartIs(s: string) returns (before: string)
    ensures s == before + TrimStart(s) && AllSpace(before)
    ensures TrimStart(s) != "" ==> !IsSpace(TrimStart(s)[0])
  {
    hide IsSpace;
    if s != "" && IsSpace(s[0]) {
      var rest := TrimStartIs(s[1..]);
      before := [s[0]] + rest;
    } else {
      before := "";
    }
  }

  lemma {:induction false} TrimEndIs(s: string) returns (after: string)
    ensures s == TrimEnd(s) + after && AllSpace(after)
    ensures TrimEnd(s) != "" ==> !IsSpace(TrimEnd(s)[|TrimEnd(s)| - 1])
  {
    hide IsSpace;
    if s != "" && IsSpace(s[|s| - 1]) {
      var rest := TrimEndIs(s[..|s| - 1]);
      after := rest + [s[|s| - 1]];
    } else {
      after := "";
    }
  }

  /** Trimming takes away spaces at both ends, all of them, and nothing else. */
  lemma TrimIs(s: string) returns (before: string, after: string)
    ensures s == before + Trim(s) + after && AllSpace(before) && AllSpace(after) && Tight(Trim(s))
  {
    hide IsSpace, TrimStart, TrimEnd;
    before := TrimStartIs(s);
    after := TrimEndIs(TrimStart(s));
    if Trim(s) != "" {
      assert TrimStart(s)[0] == Trim(s)[0];
    }
  }

  /** Spaces in front reach no further than up to the first character that is none. */
  lemma FrontSpaces(spaces: string, u: string, before: string, v: string)
    requires spaces + u == before + v && AllSpace(spaces) && v != "" && !IsSpace(v[0])
    ensures |spaces| <= |before|
  {
    hide IsSpace;
    var whole := before + v;
    assert forall i | 0 <= i < |spaces| :: whole[i] == spaces[i];
    assert whole[|before|] == v[0];
  }

  lemma BackSpaces(u: string, spaces: string, v: string, after: string)
    requires u + spaces == v + after && AllSpace(spaces) && v != "" && !IsSpace(v[|v| - 1])
    ensures |spaces| <= |after|
  {
    hide IsSpace;
    var whole := v + after;
    assert forall i | |u| <= i < |whole| :: whole[i] == spaces[i - |u|];
    assert whole[|v| - 1] == v[|v| - 1];
  }

  /** There is one way to do that. */
  lemma TrimOf(before: string, s: string, after: string)
    requires AllSpace(before) && AllSpace(after) && Tight(s) && s != ""
    ensures Trim(before + s + after) == s
  {
    hide IsSpace, Trim;
    var whole := before + s + after;
    var b, a := TrimIs(whole);
    var t := Trim(whole);
    assert whole == before + (s + after) == b + (t + a);
    FrontSpaces(b, t + a, before, s + after);
    if t == "" {
      assert whole == (b + a) + "";
      FrontSpaces(b + a, "", before, s + after);
    }
    FrontSpaces(before, s + after, b, t + a);
    BackSpaces(b + t, a, before + s, after);
    BackSpaces(before + s, after, b + t, a);
    assert t == whole[|b|..|b| + |t|] && s == whole[|before|..|before| + |s|];
  }

  // ---- What is wrapped in spaces and braces ------------------------------------------------------

  /** Spaces and braces only. */
  predicate Wrapping(s: string) {
    forall i | 0 <= i < |s| :: IsSpace(s[i]) || s[i] == '{' || s[i] == '}'
  }

  /** A text to be wrapped: without braces, and tight. */
  predicate Bare(s: string) {
    s != "" && '{' !in s && '}' !in s && Tight(s)
  }

  lemma {:induction false} StripAppend(s: string, t: string)
    ensures StripBraces(s + t) == StripBraces(s) + StripBraces(t)
    decreases |s|
  {
    if s == "" {
      assert s + t == t;
    } else {
      StripAppendStep(s, t);
      StripAppend(s[1..], t);
    }
  }

  function Stripped(c: char): string {
    if c == '{' || c == '}' then "" else [c]
  }

  lemma StripStep(s: string)
    requires s != ""
    ensures StripBraces(s) == Stripped(s[0]) + StripBraces(s[1..])
  {
  }

  lemma StripAppendStep(s: string, t: string)
    requires s != ""
    ensures StripBraces(s) == Stripped(s[0]) + StripBraces(s[1..])
    ensures StripBraces(s + t) == Stripped(s[0]) + StripBraces(s[1..] + t)
  {
    hide StripBraces, Stripped;
    StripStep(s);
    StripStep(s + t);
    assert (s + t)[1..] == s[1..] + t;
  }

  lemma {:induction false} StrippedWrapping(s: string)
    requires Wrapping(s)
    ensures AllSpace(StripBraces(s))
    decreases |s|
  {
    hide IsSpace;
    if s != "" {
      StrippedWrapping(s[1..]);
    }
  }

  /** However it is wrapped, the path that a part names is the bare text inside. */
  lemma PathInside(before: string, s: string, after: string)
    requires Wrapping(before) && Bare(s) && Wrapping(after)
    ensures var trimmed := Trim(before + s + after);
            trimmed != "" && Trim(StripBraces(trimmed)) == s
  {
    hide IsSpace, Trim, StripBraces;
    var whole := before + s + after;
    var b, a := TrimIs(whole);
    var t := Trim(whole);
    assert whole == before + (s + after) == b + (t + a);
    FrontSpaces(b, t + a, before, s + after);
    BackSpaces(b + t, a, before + s, after);
    var l, r := before[|b|..], after[..|after| - |a|];
    assert t == whole[|b|..|whole| - |a|] == l + s + r;
    StripAppend(l + s, r);
    StripAppend(l, s);
    NothingToStrip(s);
    StrippedWrapping(l);
    StrippedWrapping(r);
    TrimOf(StripBraces(l), s, StripBraces(r));
  }

  /** A wrapped address adds itself; anything else is resolved, and what comes back is trimmed. */
  lemma WrappedContributes(before: string, s: string, after: string, resolve: string -> Resolved)
    requires Wrapping(before) && Bare(s) && Wrapping(after)
    ensures var c := Contribution(before + s + after, resolve);
            && ('@' in s || s == "admin" ==> c == [s])
            && ('@' !in s && s != "admin" ==>
                  && (resolve(s) == Nothing ==> c == [])
                  && (resolve(s).One? ==> c == [Trim(resolve(s).text)])
                  && (resolve(s).Many? ==> var texts := resolve(s).texts;
                        |c| == |texts| && forall i | 0 <= i < |c| :: c[i] == Trim(texts[i])))
  {
    hide Trim, StripBraces, IsSpace;
    PathInside(before, s, after);
  }

  /** And a part of spaces alone adds nothing. */
  lemma SpacesContributeNothing(s: string, resolve: string -> Resolved)
    requires AllSpace(s)
    ensures Contribution(s, resolve) == []
  {
    hide IsSpace, Trim, StripBraces;
    var b, a := TrimIs(s);
    if Trim(s) != "" {
      assert s == s + "" == b + (Trim(s) + a);
      FrontSpaces(s, "", b, Trim(s) + a);
    }
  }

  /** Distinct addresses come back in order, however each of them is wrapped. */
  lemma WrappedAddressesComeBack(
    befores: seq<string>, addresses: seq<string>, afters: seq<string>, parts: seq<string>, resolve: string -> Resolved)
    requires addresses != [] && NoDuplicates(addresses)
    requires |befores| == |afters| == |parts| == |addresses|
    requires forall i | 0 <= i < |addresses| ::
               && Wrapping(befores[i]) && Bare(addresses[i]) && Wrapping(afters[i])
               && ('@' in addresses[i] || addresses[i] == "admin")
               && parts[i] == befores[i] + addresses[i] + afters[i] && ',' !in parts[i]
    ensures RecipientsOf(Join(parts, ','), resolve) == addresses
  {
    hide Contribution, Collected, Distinct, KeepAddressable, Bare, Wrapping, Split, Join;
    SplitUndoesJoin(parts, ',');
    WrappedCollected(befores, addresses, afters, parts, resolve);
    DistinctOfDistinct(addresses);
    AllAddressableKept(addresses);
    assert Join(parts, ',') != "" by {
      assert Split("", ',') == [""] by {
        SplitNothing();
      }
      PartIsNotEmpty(befores[0], addresses[0], afters[0]);
    }
  }

  lemma SplitNothing()
    ensures Split("", ',') == [""]
  {
  }

  lemma PartIsNotEmpty(before: string, s: string, after: string)
    requires Bare(s)
    ensures before + s + after != ""
  {
  }

  lemma {:induction false} WrappedCollected(
    befores: seq<string>, addresses: seq<string>, afters: seq<string>, parts: seq<string>, resolve: string -> Resolved)
    requires |befores| == |afters| == |parts| == |addresses|
    requires forall i | 0 <= i < |addresses| ::
               && Wrapping(befores[i]) && Bare(addresses[i]) && Wrapping(afters[i])
               && ('@' in addresses[i] || addresses[i] == "admin")
               && parts[i] == befores[i] + addresses[i] + afters[i]
    ensures Collected(parts, resolve) == addresses
    decreases |parts|
  {
    hide Contribution, Bare, Wrapping;
    if parts != [] {
      var n := |parts| - 1;
      WrappedCollected(befores[..n], addresses[..n], afters[..n], parts[..n], resolve);
      WrappedContributes(befores[n], addresses[n], afters[n], resolve);
    }
  }
}
