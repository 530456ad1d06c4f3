/** What each nomination command refuses and stores, field by field. */
module NominationEffects {
  import opened Common
  import opened Nominations

  /** What is given wins, unless it is empty. */
  predicate Prefers(given: string, onFile: string, x: string) {
    (given != "" ==> x == given) && (given == "" ==> x == onFile)
  }

  /** The name is taken over, the rest where given, and the tag is there once, behind those there were. */
  ghost predicate IsRefreshed(r: Registree, p: Person, tag: string, website: Option<string>, q: Registree) {
    && q.id == r.id && q.email == r.email && q.profile.name == p.profile.name
    && Prefers(p.profile.phone, r.profile.phone, q.profile.phone)
    && Prefers(p.profile.organization, r.profile.organization, q.profile.organization)
    && Prefers(p.profile.city, r.profile.city, q.profile.city)
    && (if website == None || website == Some("") then q.website == r.website else q.website == website)
    && q.tags == if tag in r.tags then r.tags else r.tags + [tag]
  }

  ghost predicate IsFirst(rs: seq<Registree>, i: nat, email: string) {
    i < |rs| && rs[i].email == email && forall j | 0 <= j < i :: rs[j].email != email
  }

  /** A person is found by e-mail and refreshed, or added under the next id. */
  lemma Enrols(s: State, p: Person, tag: string, website: Option<string>)
    ensures var (t, id) := Enrol(s, p, tag, website);
            var n := |s.registrees|;
            && t.nominations == s.nominations
            && ((forall r | r in s.registrees :: r.email != p.email) ==>
                  && id == s.nextId && t.nextId == s.nextId + 1
                  && |t.registrees| == n + 1 && t.registrees[..n] == s.registrees
                  && var r := t.registrees[n];
                     r.id == id && r.email == p.email && r.profile == p.profile && r.tags == [tag]
                     && r.website == if website == Some("") then None else website)
            && forall i: nat | IsFirst(s.registrees, i, p.email) ::
                 && id == s.registrees[i].id && t.nextId == s.nextId && |t.registrees| == n
                 && (forall j | 0 <= j < n && j != i :: t.registrees[j] == s.registrees[j])
                 && IsRefreshed(s.registrees[i], p, tag, website, t.registrees[i])
  {
    hide IsRefreshed, Touched;
    FirstIsFound(s.registrees, p.email);
    var at := ByEmail(s.registrees, p.email);
    if at != -1 {
      TouchedIsRefreshed(s.registrees[at], p, tag, website);
    }
  }

  lemma FirstIsFound(rs: seq<Registree>, email: string)
    ensures (forall r | r in rs :: r.email != email) ==> ByEmail(rs, email) == -1
    ensures forall i: nat | IsFirst(rs, i, email) :: ByEmail(rs, email) == i
  {
  }

  lemma TouchedIsRefreshed(r: Registree, p: Person, tag: string, website: Option<string>)
    ensures IsRefreshed(r, p, tag, website, Touched(r, p.profile, tag, website))
  {
  }

  /** What a nominator has used up: the entries of its live nominations, from the first on. */
  lemma {:induction false} UsedAddsUp(ns: seq<Nomination>, who: nat)
    ensures Used(ns, who) ==
              if ns == [] then 0
              else (if ns[0].nominatorId == who && !ns[0].deleted then |ns[0].nominees| else 0) + Used(ns[1..], who)
    decreases |ns|
  {
    if |ns| > 1 {
      UsedAddsUp(ns[..|ns| - 1], who);
      assert ns[..|ns| - 1][1..] == ns[1..][..|ns| - 2];
    }
  }

  /** The i-th nomination is the first with its id that is not deleted. */
  ghost predicate FirstLive(ns: seq<Nomination>, i: nat) {
    i < |ns| && !ns[i].deleted && forall j | 0 <= j < i :: ns[j].id != ns[i].id || ns[j].deleted
  }

  /** The status given is the one stored, whatever it was before; nothing else changes. */
  lemma SetsStatus(s: State, i: nat, status: Status)
    requires FirstLive(s.nominations, i)
    ensures var o := SetStatusSpec(s, s.nominations[i].id, status);
            && o.error == None && o.state.registrees == s.registrees && o.state.nextId == s.nextId
            && |o.state.nominations| == |s.nominations|
            && (forall j | 0 <= j < |s.nominations| && j != i :: o.state.nominations[j] == s.nominations[j])
            && o.state.nominations[i].status == status
            && o.state.nominations[i].(status := s.nominations[i].status) == s.nominations[i]
  {
    assert LiveById(s.nominations, s.nominations[i].id) == i;
  }

  /** A removal marks the nomination; nothing else changes. */
  lemma Removes(s: State, i: nat)
    requires FirstLive(s.nominations, i)
    ensures var o := RemoveSpec(s, s.nominations[i].id);
            && o.error == None && o.state.registrees == s.registrees && o.state.nextId == s.nextId
            && |o.state.nominations| == |s.nominations|
            && (forall j | 0 <= j < |s.nominations| && j != i :: o.state.nominations[j] == s.nominations[j])
            && o.state.nominations[i].deleted && o.state.nominations[i].(deleted := false) == s.nominations[i]
  {
    assert LiveById(s.nominations, s.nominations[i].id) == i;
  }

  lemma NoSuchNomination(s: State, id: nat, status: Status)
    requires forall n | n in s.nominations && n.id == id :: n.deleted
    ensures SetStatusSpec(s, id, status) == Outcome(s, Some(NotFound))
    ensures RemoveSpec(s, id) == Outcome(s, Some(NotFound))
  {
  }

  /**
   The nominator is enrolled under the tag "nominator" before the quota of ten is checked; past it, the nominees are
   enrolled one by one under the tag "nominee" and a pending nomination of the next id takes them, in order.
   */
  lemma Creates(s: State, p: Person, ns: seq<Nominee>, website: Option<string>)
    ensures var o, (a, id) := CreateSpec(s, p, ns, website), Enrol(s, p, "nominator", website);
            if Used(s.nominations, id) + |ns| > 10 then o == Outcome(a, Some(BadRequest))
            else
              exists b, entries :: EnrolsEach(a, ns, website, b, entries)
                && o.error == None && o.state.registrees == b.registrees && o.state.nextId == b.nextId + 1
                && |o.state.nominations| == |s.nominations| + 1
                && o.state.nominations[..|s.nominations|] == s.nominations
                && var n := o.state.nominations[|s.nominations|];
                   n.id == b.nextId && n.nominatorId == id && n.nominees == entries && n.status == Pending
                   && !n.deleted
  {
    hide Enrol, Used, EnrolsEach;
    var (a, id) := Enrol(s, p, "nominator", website);
    var (b, entries) := EnrolAll(a, ns, website);
    EnrolKeepsNominations(s, p, "nominator", website);
    EnrolAllKeepsNominations(a, ns, website);
    EachIsEnrolled(a, ns, website);
  }

  /** Enrolling these nominees in order leads to this state and yields these entries. */
  ghost predicate EnrolsEach(s: State, ns: seq<Nominee>, website: Option<string>, t: State, entries: seq<Entry>)
    decreases |ns|
  {
    if ns == [] then t == s && entries == []
    else
      var (next, id) := Enrol(s, ns[0].person, "nominee", website);
      entries != [] && entries[0] == Entry(id, ns[0].categoryId)
      && EnrolsEach(next, ns[1..], website, t, entries[1..])
  }

  lemma {:induction false} EachIsEnrolled(s: State, ns: seq<Nominee>, website: Option<string>)
    ensures EnrolsEach(s, ns, website, EnrolAll(s, ns, website).0, EnrolAll(s, ns, website).1)
    decreases |ns|
  {
    hide Enrol;
    if ns != [] {
      EnrolFirst(s, ns, website);
      EachIsEnrolled(Enrol(s, ns[0].person, "nominee", website).0, ns[1..], website);
    }
  }

  /** Enrolling from the front is the same as enrolling up to the last. */
  lemma {:induction false} EnrolFirst(s: State, ns: seq<Nominee>, website: Option<string>)
    requires ns != []
    ensures var (next, id) := Enrol(s, ns[0].person, "nominee", website);
            var rest := EnrolAll(next, ns[1..], website);
            EnrolAll(s, ns, website) == (rest.0, [Entry(id, ns[0].categoryId)] + rest.1)
    decreases |ns|
  {
    hide Enrol;
    var n := |ns| - 1;
    if n == 0 {
      assert EnrolAll(s, ns[..0], website) == (s, []);
      var (next, id) := Enrol(s, ns[0].person, NOMINEE, website);
      assert EnrolAll(next, ns[1..], website) == (next, []);
      var first := [Entry(id, ns[0].categoryId)];
      assert first + [] == first == [] + first;
    } else {
      EnrolFirst(s, ns[..n], website);
      assert ns[..n][1..] == ns[1..][..n - 1] && ns[1..][n - 1] == ns[n];
      var (next, id) := Enrol(s, ns[0].person, "nominee", website);
      var before := EnrolAll(next, ns[1..][..n - 1], website);
      assert ns[..n][0] == ns[0];
      var first, last := [Entry(id, ns[0].categoryId)], Enrol(before.0, ns[n].person, NOMINEE, website);
      assert EnrolAll(next, ns[1..], website) == (last.0, before.1 + [Entry(last.1, ns[n].categoryId)]);
      assert first + (before.1 + [Entry(last.1, ns[n].categoryId)])
          == first + before.1 + [Entry(last.1, ns[n].categoryId)];
    }
  }
}
