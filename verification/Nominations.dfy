/**
 Nominations and their quota (src/modules/nominations/nominations.service.ts).

 E-mails are already in lower case. A new document takes the next unused id.
 */
module Nominations {
  import opened Common

  datatype Profile = Profile(name: string, phone: string, organization: string, city: string)

  datatype Registree = Registree(id: nat, email: string, profile: Profile, website: Option<string>, tags: seq<string>)

  datatype Status = Pending | Reviewed | Approved | Rejected

  datatype Entry = Entry(nomineeId: nat, categoryId: string)

  datatype Nomination = Nomination(id: nat, nominatorId: nat, nominees: seq<Entry>, status: Status, deleted: bool)

  datatype State = State(registrees: seq<Registree>, nominations: seq<Nomination>, nextId: nat)

  datatype Person = Person(email: string, profile: Profile)

  datatype Nominee = Nominee(person: Person, categoryId: string)

  datatype Error = NotFound | BadRequest

  datatype Outcome = Outcome(state: State, error: Option<Error>)

  const QUOTA := 10
  const NOMINATOR := "nominator"
  const NOMINEE := "nominee"

  // ---- Finding or creating a registree ------------------------------------------------------------

  function ByEmail(rs: seq<Registree>, email: string): int {
    FirstIndex(rs, (r: Registree) => r.email == email)
  }

  function Refresh(current: Profile, given: Profile): Profile {
    Profile(given.name, OrElse(given.phone, current.phone), OrElse(given.organization, current.organization),
            OrElse(given.city, current.city))
  }

  function Touched(r: Registree, p: Profile, tag: string, website: Option<string>): Registree {
    r.(profile := Refresh(r.profile, p),
       website := if Truthy(website).Some? then website else r.website,
       tags := Added(r.tags, tag))
  }

  /** The state after finding or creating a registree, and the registree's id. */
  function Enrol(s: State, p: Person, tag: string, website: Option<string>): (State, nat) {
    var at := ByEmail(s.registrees, p.email);
    if at == -1 then
      (s.(registrees := s.registrees + [Registree(s.nextId, p.email, p.profile, Truthy(website), [tag])],
          nextId := s.nextId + 1),
       s.nextId)
    else
      (s.(registrees := s.registrees[at := Touched(s.registrees[at], p.profile, tag, website)]), s.registrees[at].id)
  }

  function EnrolAll(s: State, ns: seq<Nominee>, website: Option<string>): (State, seq<Entry>) {
    if ns == [] then (s, [])
    else
      var n := ns[|ns| - 1];
      var before := EnrolAll(s, ns[..|ns| - 1], website);
      var after := Enrol(before.0, n.person, NOMINEE, website);
      (after.0, before.1 + [Entry(after.1, n.categoryId)])
  }

  // ---- Operations ---------------------------------------------------------------------------------

  /** Nominee entries of one nominator over the nominations that are not deleted. */
  function Used(ns: seq<Nomination>, who: nat): nat {
    if ns == [] then 0
    else
      var n := ns[|ns| - 1];
      Used(ns[..|ns| - 1], who) + if n.nominatorId == who && !n.deleted then |n.nominees| else 0
  }

  function CreateSpec(s: State, nominator: Person, nominees: seq<Nominee>, website: Option<string>): Outcome {
    var enrolled := Enrol(s, nominator, NOMINATOR, website);
    if Used(s.nominations, enrolled.1) + |nominees| > QUOTA then Outcome(enrolled.0, Some(BadRequest))
    else
      var all := EnrolAll(enrolled.0, nominees, website);
      Outcome(all.0.(nominations := all.0.nominations + [Nomination(all.0.nextId, enrolled.1, all.1, Pending, false)],
                     nextId := all.0.nextId + 1),
              None)
  }

  function LiveById(ns: seq<Nomination>, id: nat): int {
    FirstIndex(ns, (n: Nomination) => n.id == id && !n.deleted)
  }

  function SetStatusSpec(s: State, id: nat, status: Status): Outcome {
    var i := LiveById(s.nominations, id);
    if i == -1 then Outcome(s, Some(NotFound))
    else Outcome(s.(nominations := s.nominations[i := s.nominations[i].(status := status)]), None)
  }

  function RemoveSpec(s: State, id: nat): Outcome {
    var i := LiveById(s.nominations, id);
    if i == -1 then Outcome(s, Some(NotFound))
    else Outcome(s.(nominations := s.nominations[i := s.nominations[i].(deleted := true)]), None)
  }

  datatype Action =
    | Create(nominator: Person, nominees: seq<Nominee>, website: Option<string>)
    | SetStatus(id: nat, status: Status)
    | Remove(id: nat)

  function Do(s: State, a: Action): Outcome {
    match a
    case Create(p, ns, w) => CreateSpec(s, p, ns, w)
    case SetStatus(id, st) => SetStatusSpec(s, id, st)
    case Remove(id) => RemoveSpec(s, id)
  }

  function Run(s: State, actions: seq<Action>): State
    decreases |actions|
  {
    if actions == [] then s else Run(Do(s, actions[0]).state, actions[1..])
  }

  // ---- Registrees: identities last, tags grow --------------------------------------------------------

  ghost predicate Sound(s: State) {
    && (forall i, j | 0 <= i < j < |s.registrees| :: s.registrees[i].id != s.registrees[j].id
                                                     && s.registrees[i].email != s.registrees[j].email)
    && (forall i | 0 <= i < |s.registrees| :: s.registrees[i].id < s.nextId && NoDuplicates(s.registrees[i].tags))
  }

  /** Registrees are only added; each keeps its id and e-mail, and its tags are only appended to. */
  ghost predicate Extends(rs: seq<Registree>, ts: seq<Registree>) {
    |rs| <= |ts| && forall i | 0 <= i < |rs| ::
      ts[i].id == rs[i].id && ts[i].email == rs[i].email && rs[i].tags <= ts[i].tags
  }

  /** The id belongs to the one registree with that e-mail. */
  ghost predicate Names(rs: seq<Registree>, id: nat, email: string) {
    && (exists i :: 0 <= i < |rs| && rs[i].id == id && rs[i].email == email)
    && (forall i | 0 <= i < |rs| :: rs[i].id == id <==> rs[i].email == email)
  }

  lemma EnrolExtends(s: State, p: Person, tag: string, website: Option<string>)
    requires Sound(s)
    ensures var (t, id) := Enrol(s, p, tag, website);
            Sound(t) && Extends(s.registrees, t.registrees) && Names(t.registrees, id, p.email)
            && t.nominations == s.nominations && s.nextId <= t.nextId
  {
    var (t, id) := Enrol(s, p, tag, website);
    var at := ByEmail(s.registrees, p.email);
    if at == -1 {
      assert t.registrees[|s.registrees|].email == p.email;
    } else {
      assert t.registrees[at].email == p.email && t.registrees[at].id == id;
    }
  }

  /** The registree found or created carries the tag, whatever tags it had. */
  lemma EnrolTags(s: State, p: Person, tag: string, website: Option<string>, i: nat)
    requires Sound(s)
    requires var (t, id) := Enrol(s, p, tag, website); i < |t.registrees| && t.registrees[i].id == id
    ensures tag in Enrol(s, p, tag, website).0.registrees[i].tags
  {
  }

  lemma ExtendsIsTransitive(a: seq<Registree>, b: seq<Registree>, c: seq<Registree>)
    requires Extends(a, b) && Extends(b, c)
    ensures Extends(a, c)
  {
  }

  lemma NamesLast(s: State, t: State, id: nat, email: string)
    requires Sound(t) && Extends(s.registrees, t.registrees) && Names(s.registrees, id, email)
    ensures Names(t.registrees, id, email)
  {
  }

  ghost predicate EntriesName(rs: seq<Registree>, es: seq<Entry>, ns: seq<Nominee>) {
    |es| == |ns| && forall k | 0 <= k < |ns| ::
      es[k].categoryId == ns[k].categoryId && Names(rs, es[k].nomineeId, ns[k].person.email)
  }

  lemma EntriesNameLast(s: State, t: State, es: seq<Entry>, ns: seq<Nominee>)
    requires Sound(t) && Extends(s.registrees, t.registrees) && EntriesName(s.registrees, es, ns)
    ensures EntriesName(t.registrees, es, ns)
  {
  }

  /** The loop yields one entry per nominee, in order, naming that nominee's registree. */
  lemma {:induction false} EnrolAllNamesInOrder(s: State, ns: seq<Nominee>, website: Option<string>)
    requires Sound(s)
    ensures var (t, es) := EnrolAll(s, ns, website);
            Sound(t) && Extends(s.registrees, t.registrees) && EntriesName(t.registrees, es, ns)
            && t.nominations == s.nominations && s.nextId <= t.nextId
    decreases |ns|
  {
    hide Sound, Extends, Names, Enrol;
    if ns == [] {
      ExtendsItself(s.registrees);
    } else {
      var last := |ns| - 1;
      EnrolAllNamesInOrder(s, ns[..last], website);
      var (b, es) := EnrolAll(s, ns[..last], website);
      var (t, id) := Enrol(b, ns[last].person, NOMINEE, website);
      EnrolExtends(b, ns[last].person, NOMINEE, website);
      ExtendsIsTransitive(s.registrees, b.registrees, t.registrees);
      EntriesNameLast(b, t, es, ns[..last]);
      var all := es + [Entry(id, ns[last].categoryId)];
      forall k | 0 <= k < |ns|
        ensures all[k].categoryId == ns[k].categoryId && Names(t.registrees, all[k].nomineeId, ns[k].person.email)
      {
        if k < last {
          assert ns[..last][k] == ns[k] && all[k] == es[k];
        }
      }
    }
  }

  lemma ExtendsItself(rs: seq<Registree>)
    ensures Extends(rs, rs)
  {
  }

  // ---- The quota --------------------------------------------------------------------------------------

  ghost predicate WithinQuota(s: State) {
    forall who: nat :: Used(s.nominations, who) <= QUOTA
  }

  lemma UsedAppend(ns: seq<Nomination>, n: Nomination, who: nat)
    ensures Used(ns + [n], who) == Used(ns, who) + if n.nominatorId == who && !n.deleted then |n.nominees| else 0
  {
  }

  /** Replacing a nomination changes its nominator's use by the difference of the two. */
  lemma {:induction false} UsedReplace(ns: seq<Nomination>, i: nat, n: Nomination, who: nat)
    requires i < |ns| && n.nominatorId == ns[i].nominatorId && n.nominees == ns[i].nominees
    ensures Used(ns[i := n], who) ==
            Used(ns, who) + if n.nominatorId != who || n.deleted == ns[i].deleted then 0
                            else if n.deleted then -|n.nominees| else |n.nominees|
    decreases |ns|
  {
    var last := |ns| - 1;
    if i < last {
      UsedReplace(ns[..last], i, n, who);
      assert ns[i := n][..last] == ns[..last][i := n];
    } else {
      assert ns[i := n][..last] == ns[..last];
    }
  }

  /** What a create that is let through does: one nomination, in order, charged to its nominator. */
  lemma CreateCharges(s: State, p: Person, ns: seq<Nominee>, website: Option<string>, who: nat)
    requires Sound(s)
    ensures var o := CreateSpec(s, p, ns, website);
            var t := o.state;
            var id := Enrol(s, p, NOMINATOR, website).1;
            && Sound(t) && Extends(s.registrees, t.registrees) && Names(t.registrees, id, p.email)
            && (o.error.None? <==> Used(s.nominations, id) + |ns| <= QUOTA)
            && Used(t.nominations, who) == Used(s.nominations, who) + (if o.error.None? && who == id then |ns| else 0)
            && (o.error.Some? ==> t.nominations == s.nominations)
            && (o.error.None? ==>
                  && |t.nominations| == |s.nominations| + 1
                  && t.nominations[..|s.nominations|] == s.nominations
                  && t.nominations[|s.nominations|].nominatorId == id
                  && EntriesName(t.registrees, t.nominations[|s.nominations|].nominees, ns))
  {
    hide Extends, Names, Enrol, EnrolAll;
    var (a, id) := Enrol(s, p, NOMINATOR, website);
    EnrolExtends(s, p, NOMINATOR, website);
    var (b, es) := EnrolAll(a, ns, website);
    EnrolAllNamesInOrder(a, ns, website);
    ExtendsIsTransitive(s.registrees, a.registrees, b.registrees);
    NamesLast(a, b, id, p.email);
    UsedAppend(s.nominations, Nomination(b.nextId, id, es, Pending, false), who);
  }

  /** A status change charges nothing; a removal gives its nominator back exactly its entries. */
  lemma RemoveRefunds(s: State, id: nat, who: nat)
    requires RemoveSpec(s, id).error.None?
    ensures var i := LiveById(s.nominations, id);
            var n := s.nominations[i];
            n.id == id && !n.deleted
            && Used(RemoveSpec(s, id).state.nominations, who)
               == Used(s.nominations, who) - if n.nominatorId == who then |n.nominees| else 0
  {
    var i := LiveById(s.nominations, id);
    UsedReplace(s.nominations, i, s.nominations[i].(deleted := true), who);
  }

  lemma SetStatusCharges(s: State, id: nat, status: Status, who: nat)
    ensures Used(SetStatusSpec(s, id, status).state.nominations, who) == Used(s.nominations, who)
  {
    var i := LiveById(s.nominations, id);
    if i != -1 {
      UsedReplace(s.nominations, i, s.nominations[i].(status := status), who);
    }
  }

  lemma StepKeepsQuota(s: State, a: Action)
    requires Sound(s) && WithinQuota(s)
    ensures Sound(Do(s, a).state) && WithinQuota(Do(s, a).state)
    ensures Extends(s.registrees, Do(s, a).state.registrees)
  {
    hide Used, CreateSpec, Extends, EntriesName, Names;
    var t := Do(s, a).state;
    match a
    case Create(p, ns, w) =>
      CreateCharges(s, p, ns, w, 0);
      forall who: nat ensures Used(t.nominations, who) <= QUOTA {
        CreateCharges(s, p, ns, w, who);
      }
    case SetStatus(id, st) =>
      ExtendsItself(s.registrees);
      forall who: nat ensures Used(t.nominations, who) <= QUOTA {
        SetStatusCharges(s, id, st, who);
      }
    case Remove(id) =>
      ExtendsItself(s.registrees);
      if RemoveSpec(s, id).error.None? {
        forall who: nat ensures Used(t.nominations, who) <= QUOTA {
          RemoveRefunds(s, id, who);
        }
      }
  }

  /** Over every run no nominator holds more than ten live entries, and registrees last. */
  lemma {:induction false} RunsKeepQuota(s: State, actions: seq<Action>)
    requires Sound(s) && WithinQuota(s)
    ensures Sound(Run(s, actions)) && WithinQuota(Run(s, actions))
    ensures Extends(s.registrees, Run(s, actions).registrees)
    decreases |actions|
  {
    hide Sound, WithinQuota, Extends, Do;
    if actions == [] {
      ExtendsItself(s.registrees);
    } else {
      var t := Do(s, actions[0]).state;
      StepKeepsQuota(s, actions[0]);
      RunsKeepQuota(t, actions[1..]);
      ExtendsIsTransitive(s.registrees, t.registrees, Run(t, actions[1..]).registrees);
    }
  }

  lemma {:induction false} RunsKeepEntries(s: State, actions: seq<Action>, i: nat)
    requires i < |s.nominations|
    ensures i < |Run(s, actions).nominations|
    ensures Run(s, actions).nominations[i].nominees == s.nominations[i].nominees
    ensures Run(s, actions).nominations[i].nominatorId == s.nominations[i].nominatorId
    decreases |actions|
  {
    if actions != [] {
      StepKeepsEntries(s, actions[0], i);
      RunsKeepEntries(Do(s, actions[0]).state, actions[1..], i);
    }
  }

  lemma StepKeepsEntries(s: State, a: Action, i: nat)
    requires i < |s.nominations|
    ensures var t := Do(s, a).state;
            i < |t.nominations| && t.nominations[i].nominees == s.nominations[i].nominees
            && t.nominations[i].nominatorId == s.nominations[i].nominatorId
  {
    if a.Create? {
      EnrolAllKeepsNominations(Enrol(s, a.nominator, NOMINATOR, a.website).0, a.nominees, a.website);
    }
  }

  lemma {:induction false} EnrolAllKeepsNominations(s: State, ns: seq<Nominee>, website: Option<string>)
    ensures EnrolAll(s, ns, website).0.nominations == s.nominations
    decreases |ns|
  {
    if ns != [] {
      EnrolAllKeepsNominations(s, ns[..|ns| - 1], website);
    }
  }

  /** The entries a create stores name, in order and for good, the one registree of each nominee's e-mail. */
  lemma EntriesNameForever(s: State, p: Person, ns: seq<Nominee>, website: Option<string>, later: seq<Action>)
    requires Sound(s) && WithinQuota(s)
    requires CreateSpec(s, p, ns, website).error.None?
    ensures var t, i := Run(CreateSpec(s, p, ns, website).state, later), |s.nominations|;
            i < |t.nominations| && EntriesName(t.registrees, t.nominations[i].nominees, ns)
            && Names(t.registrees, t.nominations[i].nominatorId, p.email)
  {
    hide CreateSpec, WithinQuota, Names, EntriesName, Extends, Run;
    var created := CreateSpec(s, p, ns, website).state;
    CreateCharges(s, p, ns, website, 0);
    StepKeepsQuota(s, Create(p, ns, website));
    RunsKeepQuota(created, later);
    RunsKeepEntries(created, later, |s.nominations|);
    var t := Run(created, later);
    EntriesNameLast(created, t, created.nominations[|s.nominations|].nominees, ns);
    NamesLast(created, t, created.nominations[|s.nominations|].nominatorId, p.email);
  }

  // ---- The service --------------------------------------------------------------------------------------

  class NominationsService {
    var registrees: seq<Registree>
    var nominations: seq<Nomination>
    var nextId: nat

    ghost function View(): State
      reads this
    {
      State(registrees, nominations, nextId)
    }

    constructor ()
      ensures View() == State([], [], 0)
    {
      registrees, nominations, nextId := [], [], 0;
    }

    method FindOrCreateRegistree(p: Person, tag: string, website: Option<string>) returns (id: nat)
      modifies this
      ensures (View(), id) == Enrol(old(View()), p, tag, website)
    {
      var at := ByEmail(registrees, p.email);
      if at == -1 {
        id := nextId;
        registrees := registrees + [Registree(nextId, p.email, p.profile, Truthy(website), [tag])];
        nextId := nextId + 1;
      } else {
        var r := registrees[at];
        r := r.(profile := r.profile.(name := p.profile.name));
        if p.profile.phone != "" {
          r := r.(profile := r.profile.(phone := p.profile.phone));
        }
        if p.profile.organization != "" {
          r := r.(profile := r.profile.(organization := p.profile.organization));
        }
        if p.profile.city != "" {
          r := r.(profile := r.profile.(city := p.profile.city));
        }
        if website.Some? && website.value != "" {
          r := r.(website := website);
        }
        if tag !in r.tags {
          r := r.(tags := r.tags + [tag]);
        }
        registrees := registrees[at := r];
        id := r.id;
      }
    }

    method CountNominees(who: nat) returns (n: nat)
      ensures n == Used(nominations, who)
    {
      n := 0;
      for i := 0 to |nominations|
        invariant n == Used(nominations[..i], who)
      {
        assert nominations[..i + 1][..i] == nominations[..i];
        if nominations[i].nominatorId == who && !nominations[i].deleted {
          n := n + |nominations[i].nominees|;
        }
      }
      assert nominations[..|nominations|] == nominations;
    }

    method Create(nominator: Person, nominees: seq<Nominee>, website: Option<string>) returns (error: Option<Error>)
      modifies this
      ensures Outcome(View(), error) == CreateSpec(old(View()), nominator, nominees, website)
    {
      hide Enrol, Used;
      var nominatorId := FindOrCreateRegistree(nominator, NOMINATOR, website);
      ghost var enrolled := View();
      EnrolKeepsNominations(old(View()), nominator, NOMINATOR, website);
      var used := CountNominees(nominatorId);
      if used + |nominees| > QUOTA {
        return Some(BadRequest);
      }
      var entries: seq<Entry> := [];
      for k := 0 to |nominees|
        invariant (View(), entries) == EnrolAll(enrolled, nominees[..k], website)
      {
        assert nominees[..k + 1][..k] == nominees[..k];
        var nomineeId := FindOrCreateRegistree(nominees[k].person, NOMINEE, website);
        entries := entries + [Entry(nomineeId, nominees[k].categoryId)];
      }
      assert nominees[..|nominees|] == nominees;
      nominations := nominations + [Nomination(nextId, nominatorId, entries, Pending, false)];
      nextId := nextId + 1;
      error := None;
    }

    method UpdateStatus(id: nat, status: Status) returns (error: Option<Error>)
      modifies this
      ensures Outcome(View(), error) == SetStatusSpec(old(View()), id, status)
    {
      var i := LiveById(nominations, id);
      if i == -1 {
        return Some(NotFound);
      }
      nominations := nominations[i := nominations[i].(status := status)];
      error := None;
    }

    method Remove(id: nat) returns (error: Option<Error>)
      modifies this
      ensures Outcome(View(), error) == RemoveSpec(old(View()), id)
    {
      var i := LiveById(nominations, id);
      if i == -1 {
        return Some(NotFound);
      }
      nominations := nominations[i := nominations[i].(deleted := true)];
      error := None;
    }
  }

  lemma EnrolKeepsNominations(s: State, p: Person, tag: string, website: Option<string>)
    ensures Enrol(s, p, tag, website).0.nominations == s.nominations
  {
  }
}
