/** What runs of the attendance operations keep, and exactly which steps break what they do not. */
module AttendanceTheorems {
  import opened Common
  import opened Attendance

  // ---- Keys: ids, e-mails and pass codes stay unique -----------------------------------------

  ghost predicate RegistreeKeys(rs: seq<Registree>) {
    forall i, j | 0 <= i < j < |rs| :: rs[i].id != rs[j].id && rs[i].email != rs[j].email
  }

  ghost predicate Apart(a: Attendee, b: Attendee) {
    a.id != b.id && a.passCode != b.passCode && !(a.eventId == b.eventId && a.email == b.email)
  }

  ghost predicate AttendeeKeys(xs: seq<Attendee>) {
    forall i, j | 0 <= i < j < |xs| :: Apart(xs[i], xs[j])
  }

  /** One registree per e-mail, one attendee per event and e-mail, all ids and pass codes distinct. */
  ghost predicate Keys(s: State) {
    RegistreeKeys(s.registrees) && AttendeeKeys(s.attendees)
  }

  /** The embedded details agree with the attendee, and checking in marks them attended. */
  ghost predicate Agrees(a: Attendee) {
    a.details.Some? ==>
      && a.details.value.contact == a.contact
      && a.details.value.website == a.website
      && a.details.value.eventId == a.eventId
      && a.details.value.passCode == a.passCode
      && a.details.value.qrCode == a.qrCode
      && (a.status == CheckedIn ==> a.details.value.attended)
  }

  ghost predicate AllAgree(s: State) {
    forall i | 0 <= i < |s.attendees| :: Agrees(s.attendees[i])
  }

  lemma SaveKeepsKeys(s: State, r: Registree)
    requires RegistreeKeys(s.registrees)
    requires var at := RegistreeByEmail(s, r.email);
             if at == -1 then RegistreeById(s, r.id) == -1 else s.registrees[at].id == r.id
    ensures RegistreeKeys(SaveRegistree(s, r).registrees)
  {
  }

  lemma SetStatusKeepsKeys(s: State, at: nat, g: nat, status: RegStatus)
    requires at < |s.registrees| && g < |s.registrees[at].registrations|
    requires RegistreeKeys(s.registrees)
    ensures RegistreeKeys(SetStatus(s, at, g, status).registrees)
  {
  }

  lemma AppendKeepsKeys(s: State, a: Attendee)
    requires AttendeeKeys(s.attendees) && Agrees(a) && AllAgree(s)
    ensures var t := SaveNewAttendee(s, a).state;
            AttendeeKeys(t.attendees) && AllAgree(t) && t.registrees == s.registrees
  {
  }

  /** Replacing one attendee by another with the same id and pass code. */
  lemma ReplaceKeepsKeys(xs: seq<Attendee>, i: nat, a: Attendee)
    requires i < |xs| && AttendeeKeys(xs)
    requires a.id == xs[i].id && a.passCode == xs[i].passCode
    requires forall b | b in xs && b.id != a.id :: b.eventId != a.eventId || b.email != a.email
    ensures AttendeeKeys(xs[i := a])
  {
  }

  lemma SameSlotKeepsKeys(xs: seq<Attendee>, i: nat, a: Attendee)
    requires i < |xs| && AttendeeKeys(xs)
    requires a.id == xs[i].id && a.passCode == xs[i].passCode && a.eventId == xs[i].eventId && a.email == xs[i].email
    ensures AttendeeKeys(xs[i := a])
  {
  }

  ghost predicate Sound(s: State) {
    Keys(s) && AllAgree(s)
  }

  lemma RegisterKeepsSound(s: State, eventId: string, email: string, contact: Contact,
                           website: Option<string>, newId: string)
    requires Sound(s)
    ensures Sound(RegisterSpec(s, eventId, email, contact, website, newId).state)
  {
    var enrolled := Enrolled(s, email, contact, website, newId);
    if enrolled.Some? {
      var r := enrolled.value;
      SaveKeepsKeys(s, r.(registrations := r.registrations + [Registration(eventId, email, contact, Pending)]));
    }
  }

  lemma ApproveKeepsSound(s: State, registreeId: string, eventId: string, t: Ticket)
    requires Sound(s)
    ensures Sound(ApproveSpec(s, registreeId, eventId, t).state)
  {
    var at := RegistreeById(s, registreeId);
    if at != -1 {
      var r := s.registrees[at];
      var g := RegistrationFor(r, eventId);
      if g != -1 {
        var saved := SetStatus(s, at, g, Approved);
        SetStatusKeepsKeys(s, at, g, Approved);
        assert AllAgree(saved);
        AppendKeepsKeys(saved, Admitted(r, r.registrations[g], eventId, t));
      }
    }
  }

  lemma BlockKeepsSound(s: State, registreeId: string, eventId: string)
    requires Sound(s)
    ensures Sound(BlockSpec(s, registreeId, eventId).state)
  {
    var at := RegistreeById(s, registreeId);
    if at != -1 {
      var r := s.registrees[at];
      var g := RegistrationFor(r, eventId);
      if g != -1 {
        SetStatusKeepsKeys(s, at, g, BlockedReg);
        var i := AttendeeFor(s, eventId, r.email);
        if i != -1 {
          SameSlotKeepsKeys(s.attendees, i, s.attendees[i].(status := BlockedAtt));
        }
      }
    }
  }

  lemma RejectKeepsSound(s: State, registreeId: string, eventId: string)
    requires Sound(s)
    ensures Sound(RejectSpec(s, registreeId, eventId).state)
  {
  }

  lemma CheckInKeepsSound(s: State, passCode: string)
    requires Sound(s)
    ensures Sound(CheckInSpec(s, passCode).state)
  {
  }

  lemma CreateKeepsSound(s: State, eventId: string, email: string, contact: Contact, website: Option<string>,
                         status: Option<AttStatus>, newId: string, t: Ticket)
    requires Sound(s)
    ensures Sound(CreateSpec(s, eventId, email, contact, website, status, newId, t).state)
  {
    var enrolled := Enrolled(s, email, contact, website, newId);
    if enrolled.Some? {
      SaveKeepsKeys(s, enrolled.value);
    }
    var saved := if enrolled.Some? then SaveRegistree(s, enrolled.value) else s;
    assert AllAgree(saved);
    AppendKeepsKeys(saved, Attendee(
      t.id, eventId, email, contact, Truthy(website), if enrolled.Some? then Some(enrolled.value.id) else None,
      t.passCode, t.qrCode, if status.Some? then status.value else Registered,
      Some(Details(contact, Truthy(website), eventId, t.passCode, t.qrCode, status == Some(CheckedIn)))));
  }

  lemma UpdateKeepsSound(s: State, id: string, p: AttendeePatch)
    requires Sound(s)
    ensures Sound(UpdateSpec(s, id, p).state)
  {
    var i := AttendeeById(s, id);
    if i != -1 && UpdateSpec(s, id, p).error.None? {
      var a := Patched(s.attendees[i], p);
      assert Agrees(s.attendees[i]);
      ReplaceKeepsKeys(s.attendees, i, a);
    }
  }

  /** Unique keys and agreeing copies survive every run, changes of event included. */
  lemma {:induction false} RunsKeepCopiesSound(s: State, actions: seq<Action>)
    requires Sound(s)
    ensures Sound(Run(s, actions))
    decreases |actions|
  {
    if actions != [] {
      StepKeepsSound(s, actions[0]);
      RunsKeepCopiesSound(Do(s, actions[0]).state, actions[1..]);
    }
  }

  lemma StepKeepsSound(s: State, a: Action)
    requires Sound(s)
    ensures Sound(Do(s, a).state)
  {
    hide Sound, RegisterSpec, ApproveSpec, RejectSpec, BlockSpec, CheckInSpec, CreateSpec, UpdateSpec;
    match a
    case Register(e, m, c, w, n) => RegisterKeepsSound(s, e, m, c, w, n);
    case Approve(r, e, t) => ApproveKeepsSound(s, r, e, t);
    case Reject(r, e) => RejectKeepsSound(s, r, e);
    case Block(r, e) => BlockKeepsSound(s, r, e);
    case CheckIn(p) => CheckInKeepsSound(s, p);
    case Create(e, m, c, w, st, n, t) => CreateKeepsSound(s, e, m, c, w, st, n, t);
    case Update(id, p) => UpdateKeepsSound(s, id, p);
  }

  // ---- Guards: a duplicate key can only come from the drawn ticket -----------------------------

  ghost predicate TicketTaken(s: State, t: Ticket) {
    exists b :: b in s.attendees && (b.id == t.id || b.passCode == t.passCode)
  }

  /** The e-mail guard of approve leaves the unique indexes nothing else to refuse. */
  lemma ApproveClashesOnlyOnTicket(s: State, registreeId: string, eventId: string, t: Ticket)
    requires ApproveSpec(s, registreeId, eventId, t).error == Some(DuplicateKey)
    ensures TicketTaken(s, t)
  {
  }

  /** So does the guard of create. */
  lemma CreateClashesOnlyOnTicket(s: State, eventId: string, email: string, contact: Contact, website: Option<string>,
                                  status: Option<AttStatus>, newId: string, t: Ticket)
    requires CreateSpec(s, eventId, email, contact, website, status, newId, t).error == Some(DuplicateKey)
    ensures TicketTaken(s, t)
  {
  }

  lemma ClashIsTicket(s: State, a: Attendee, t: Ticket)
    requires a.id == t.id && a.passCode == t.passCode
    requires AttendeeFor(s, a.eventId, a.email) == -1
    ensures Clashes(s, a) <==> TicketTaken(s, t)
  {
  }

  // ---- Approved registrations have their attendee -----------------------------------------------

  ghost predicate Holds(xs: seq<Attendee>, r: Registree, eventId: string) {
    exists i :: 0 <= i < |xs| && xs[i].eventId == eventId && xs[i].email == r.email && xs[i].registreeId == Some(r.id)
  }

  ghost predicate BackedBy(r: Registree, xs: seq<Attendee>) {
    forall k | 0 <= k < |r.registrations| && r.registrations[k].status == Approved ::
      Holds(xs, r, r.registrations[k].eventId)
  }

  /** Every approved registration has an attendee of that registree, e-mail and event. */
  ghost predicate Backed(s: State) {
    forall i | 0 <= i < |s.registrees| :: BackedBy(s.registrees[i], s.attendees)
  }

  /** Attendees only accumulate, and keep who they are and which event they attend. */
  ghost predicate Grows(xs: seq<Attendee>, ys: seq<Attendee>) {
    |xs| <= |ys| && forall i | 0 <= i < |xs| ::
      ys[i].registreeId == xs[i].registreeId && ys[i].eventId == xs[i].eventId && ys[i].email == xs[i].email
  }

  lemma GrowthKeepsBacking(r: Registree, xs: seq<Attendee>, ys: seq<Attendee>)
    requires Grows(xs, ys) && BackedBy(r, xs)
    ensures BackedBy(r, ys)
  {
  }

  lemma GrowthKeepsAllBacked(s: State, ys: seq<Attendee>)
    requires Backed(s) && Grows(s.attendees, ys)
    ensures Backed(s.(attendees := ys))
  {
  }

  /** Saving a registree whose registrations only gained entries that are not approved. */
  lemma SaveKeepsBacked(s: State, r: Registree)
    requires Backed(s)
    requires BackedBy(r, s.attendees)
    ensures Backed(SaveRegistree(s, r))
  {
  }

  lemma EnrolledIsBacked(s: State, email: string, contact: Contact, website: Option<string>, newId: string)
    requires Backed(s)
    requires Enrolled(s, email, contact, website, newId).Some?
    ensures BackedBy(Enrolled(s, email, contact, website, newId).value, s.attendees)
  {
  }

  lemma RegisterKeepsBacked(s: State, eventId: string, email: string, contact: Contact,
                            website: Option<string>, newId: string)
    requires Backed(s)
    ensures Backed(RegisterSpec(s, eventId, email, contact, website, newId).state)
  {
    hide Backed, SaveRegistree, IsBlocked;
    var enrolled := Enrolled(s, email, contact, website, newId);
    if enrolled.Some? {
      EnrolledIsBacked(s, email, contact, website, newId);
      var r := enrolled.value;
      var pending := r.(registrations := r.registrations + [Registration(eventId, email, contact, Pending)]);
      forall k | 0 <= k < |pending.registrations| && pending.registrations[k].status == Approved
        ensures Holds(s.attendees, pending, pending.registrations[k].eventId)
      {
        assert k < |r.registrations|;
        assert Holds(s.attendees, r, r.registrations[k].eventId);
      }
      SaveKeepsBacked(s, pending);
    }
  }

  /** Setting a status other than approved asks for no new attendee. */
  lemma DemotingKeepsBacked(s: State, at: nat, g: nat, status: RegStatus)
    requires at < |s.registrees| && g < |s.registrees[at].registrations|
    requires status != Approved && Backed(s)
    ensures Backed(SetStatus(s, at, g, status))
  {
  }

  /** The approve passes its guards but cannot go on to save an attendee. */
  ghost predicate Strands(s: State, registreeId: string, eventId: string, t: Ticket) {
    var at := RegistreeById(s, registreeId);
    at != -1 &&
    var r := s.registrees[at];
    var g := RegistrationFor(r, eventId);
    && g != -1
    && r.registrations[g].status != Approved && r.registrations[g].status != BlockedReg
    && AttendeeFor(s, eventId, r.email) == -1
    && (eventId !in s.events || TicketTaken(s, t))
  }

  /** Approving keeps every approved registration backed, except exactly when it strands one. */
  lemma ApproveKeepsBackedIff(s: State, registreeId: string, eventId: string, t: Ticket)
    requires Backed(s)
    ensures Backed(ApproveSpec(s, registreeId, eventId, t).state) <==> !Strands(s, registreeId, eventId, t)
  {
    var after := ApproveSpec(s, registreeId, eventId, t).state;
    if after != s {
      var at := RegistreeById(s, registreeId);
      var r := s.registrees[at];
      var g := RegistrationFor(r, eventId);
      var a := Admitted(r, r.registrations[g], eventId, t);
      var saved := SetStatus(s, at, g, Approved);
      var q := saved.registrees[at];
      ClashIsTicket(s, a, t);
      if Strands(s, registreeId, eventId, t) {
        StrandedIsNotBacked(s, q, g);
      } else {
        assert after == saved.(attendees := s.attendees + [a]);
        forall i | 0 <= i < |after.registrees|
          ensures BackedBy(after.registrees[i], after.attendees)
        {
          GrowthKeepsBacking(s.registrees[i], s.attendees, after.attendees);
          if i == at {
            AdmissionBacks(r, q, g, a, after.attendees);
          }
        }
      }
    }
  }

  lemma StrandedIsNotBacked(s: State, q: Registree, g: nat)
    requires g < |q.registrations| && q.registrations[g].status == Approved
    requires AttendeeFor(s, q.registrations[g].eventId, q.email) == -1
    ensures !BackedBy(q, s.attendees)
  {
  }

  lemma AdmissionBacks(r: Registree, q: Registree, g: nat, a: Attendee, xs: seq<Attendee>)
    requires g < |r.registrations| && BackedBy(r, xs)
    requires q == r.(registrations := r.registrations[g := r.registrations[g].(status := Approved)])
    requires |xs| > 0 && xs[|xs| - 1] == a
    requires a.eventId == r.registrations[g].eventId && a.email == r.email && a.registreeId == Some(r.id)
    ensures BackedBy(q, xs)
  {
  }

  lemma RejectKeepsBacked(s: State, registreeId: string, eventId: string)
    requires Backed(s)
    ensures Backed(RejectSpec(s, registreeId, eventId).state)
  {
  }

  lemma BlockKeepsBacked(s: State, registreeId: string, eventId: string)
    requires Backed(s)
    ensures Backed(BlockSpec(s, registreeId, eventId).state)
  {
    hide Backed;
    var at := RegistreeById(s, registreeId);
    if at != -1 {
      var g := RegistrationFor(s.registrees[at], eventId);
      if g != -1 {
        DemotingKeepsBacked(s, at, g, BlockedReg);
        GrowthKeepsAllBacked(SetStatus(s, at, g, BlockedReg), BlockSpec(s, registreeId, eventId).state.attendees);
      }
    }
  }

  lemma CheckInKeepsBacked(s: State, passCode: string)
    requires Backed(s)
    ensures Backed(CheckInSpec(s, passCode).state)
  {
    hide Backed;
    GrowthKeepsAllBacked(s, CheckInSpec(s, passCode).state.attendees);
  }

  lemma CreateKeepsBacked(s: State, eventId: string, email: string, contact: Contact, website: Option<string>,
                          status: Option<AttStatus>, newId: string, t: Ticket)
    requires Backed(s)
    ensures Backed(CreateSpec(s, eventId, email, contact, website, status, newId, t).state)
  {
    hide Backed, Enrolled, Clashes;
    var enrolled := Enrolled(s, email, contact, website, newId);
    var saved := if enrolled.Some? then SaveRegistree(s, enrolled.value) else s;
    if enrolled.Some? {
      EnrolledIsBacked(s, email, contact, website, newId);
      SaveKeepsBacked(s, enrolled.value);
    }
    GrowthKeepsAllBacked(saved, CreateSpec(s, eventId, email, contact, website, status, newId, t).state.attendees);
  }

  ghost predicate HasApproved(r: Registree, eventId: string) {
    exists k :: 0 <= k < |r.registrations| && r.registrations[k].status == Approved
                && r.registrations[k].eventId == eventId
  }

  /** The attendee stands behind an approved registration for the event it is booked on. */
  ghost predicate StandsBehind(s: State, a: Attendee) {
    exists i :: 0 <= i < |s.registrees| && a.registreeId == Some(s.registrees[i].id) && a.email == s.registrees[i].email
                && HasApproved(s.registrees[i], a.eventId)
  }

  /** The update may move the attendee to another event, and it stands behind a registration for the old one. */
  ghost predicate Abandons(s: State, id: string, p: AttendeePatch) {
    var i := AttendeeById(s, id);
    && i != -1
    && p.eventId.Some? && p.eventId.value in s.events && p.eventId.value != s.attendees[i].eventId
    && AttendeeFor(s, p.eventId.value, s.attendees[i].email) == -1
    && StandsBehind(s, s.attendees[i])
  }

  lemma StayingKeepsBacked(s: State, id: string, p: AttendeePatch)
    requires Backed(s)
    requires var i := AttendeeById(s, id); i != -1 && p.eventId.Some? ==> p.eventId.value == s.attendees[i].eventId
    ensures Backed(UpdateSpec(s, id, p).state)
  {
    hide Backed;
    GrowthKeepsAllBacked(s, UpdateSpec(s, id, p).state.attendees);
  }

  /** Replacing the attendee at a place by one booked on another event. */
  lemma MovingKeepsBackedIff(s: State, i: nat, a: Attendee)
    requires Backed(s) && AttendeeKeys(s.attendees) && i < |s.attendees|
    requires a.registreeId == s.attendees[i].registreeId && a.email == s.attendees[i].email
    requires a.eventId != s.attendees[i].eventId
    ensures Backed(s.(attendees := s.attendees[i := a])) <==> !StandsBehind(s, s.attendees[i])
  {
    var was, xs, ys := s.attendees[i], s.attendees, s.attendees[i := a];
    if StandsBehind(s, was) {
      var at :| 0 <= at < |s.registrees| && was.registreeId == Some(s.registrees[at].id)
                && was.email == s.registrees[at].email && HasApproved(s.registrees[at], was.eventId);
      LeavingUnbacks(xs, i, a, s.registrees[at]);
    } else {
      forall at | 0 <= at < |s.registrees|
        ensures BackedBy(s.registrees[at], ys)
      {
        OthersStayBacked(s, i, a, at);
      }
    }
  }

  lemma LeavingUnbacks(xs: seq<Attendee>, i: nat, a: Attendee, r: Registree)
    requires AttendeeKeys(xs) && i < |xs| && a.eventId != xs[i].eventId
    requires xs[i].email == r.email && HasApproved(r, xs[i].eventId)
    ensures !BackedBy(r, xs[i := a])
  {
    var ys := xs[i := a];
    forall k | 0 <= k < |ys|
      ensures ys[k].eventId != xs[i].eventId || ys[k].email != r.email
    {
      if k != i {
        assert if k < i then Apart(xs[k], xs[i]) else Apart(xs[i], xs[k]);
      }
    }
    assert !Holds(ys, r, xs[i].eventId);
  }

  lemma OthersStayBacked(s: State, i: nat, a: Attendee, at: nat)
    requires Backed(s) && i < |s.attendees| && at < |s.registrees| && !StandsBehind(s, s.attendees[i])
    ensures BackedBy(s.registrees[at], s.attendees[i := a])
  {
    var xs, r := s.attendees, s.registrees[at];
    forall k | 0 <= k < |r.registrations| && r.registrations[k].status == Approved
      ensures Holds(xs[i := a], r, r.registrations[k].eventId)
    {
      assert BackedBy(r, xs);
      var x :| 0 <= x < |xs| && xs[x].eventId == r.registrations[k].eventId && xs[x].email == r.email
               && xs[x].registreeId == Some(r.id);
      assert HasApproved(r, xs[x].eventId);
      assert xs[i := a][x] == xs[x];
    }
  }

  /** An update keeps every approved registration backed, except exactly when it moves the attendee behind one away. */
  lemma UpdateKeepsBackedIff(s: State, id: string, p: AttendeePatch)
    requires Backed(s) && Keys(s)
    ensures Backed(UpdateSpec(s, id, p).state) <==> !Abandons(s, id, p)
  {
    hide Backed, StandsBehind;
    var i := AttendeeById(s, id);
    if i == -1 || p.eventId.None? || p.eventId.value == s.attendees[i].eventId {
      StayingKeepsBacked(s, id, p);
    } else if p.eventId.value in s.events {
      var was, a := s.attendees[i], Patched(s.attendees[i], p);
      TakenPlaceRefuses(s, i, p.eventId.value);
      if AttendeeFor(s, p.eventId.value, was.email) == -1 {
        MovingKeepsBackedIff(s, i, a);
      }
    }
  }

  /** With unique ids, the index refuses the move exactly if the e-mail already has an attendee there. */
  lemma TakenPlaceRefuses(s: State, i: nat, eventId: string)
    requires Keys(s) && i < |s.attendees| && s.attendees[i].eventId != eventId
    ensures var a := s.attendees[i];
            (exists b :: b in s.attendees && b.id != a.id && b.eventId == eventId && b.email == a.email)
            <==> AttendeeFor(s, eventId, a.email) != -1
  {
    var a := s.attendees[i];
    var k := AttendeeFor(s, eventId, a.email);
    if k != -1 {
      assert k != i;
      assert if k < i then Apart(s.attendees[k], s.attendees[i]) else Apart(s.attendees[i], s.attendees[k]);
      assert s.attendees[k] in s.attendees;
    }
  }

  // ---- Runs with fresh tickets -----------------------------------------------------------------

  predicate Draws(a: Action) {
    a.Approve? || a.Create?
  }

  /** Every ticket drawn along the run differs from those in `ids` and `codes` and from the earlier ones. */
  ghost predicate FreshTickets(ids: set<string>, codes: set<string>, actions: seq<Action>)
    decreases |actions|
  {
    actions == [] ||
    if Draws(actions[0]) then
      var t := actions[0].ticket;
      t.id !in ids && t.passCode !in codes && FreshTickets(ids + {t.id}, codes + {t.passCode}, actions[1..])
    else FreshTickets(ids, codes, actions[1..])
  }

  ghost predicate Within(s: State, ids: set<string>, codes: set<string>) {
    forall i | 0 <= i < |s.attendees| :: s.attendees[i].id in ids && s.attendees[i].passCode in codes
  }

  /** The step fails an approved registration: an approve strands it, or an update moves its attendee away. */
  ghost predicate Disturbs(s: State, a: Action) {
    || (a.Approve? && Strands(s, a.registreeId, a.eventId, a.ticket))
    || (a.Update? && Abandons(s, a.id, a.patch))
  }

  /** Any step keeps every approved registration backed, except exactly when it disturbs one. */
  lemma StepKeepsBackedIff(s: State, a: Action)
    requires Backed(s) && Keys(s)
    ensures Backed(Do(s, a).state) <==> !Disturbs(s, a)
  {
    hide Backed, Strands, Abandons;
    hide RegisterSpec, ApproveSpec, RejectSpec, BlockSpec, CheckInSpec, CreateSpec, UpdateSpec;
    match a
    case Register(e, m, c, w, n) => RegisterKeepsBacked(s, e, m, c, w, n);
    case Approve(r, e, t) => ApproveKeepsBackedIff(s, r, e, t);
    case Reject(r, e) => RejectKeepsBacked(s, r, e);
    case Block(r, e) => BlockKeepsBacked(s, r, e);
    case CheckIn(p) => CheckInKeepsBacked(s, p);
    case Create(e, m, c, w, st, n, t) => CreateKeepsBacked(s, e, m, c, w, st, n, t);
    case Update(id, p) => UpdateKeepsBackedIff(s, id, p);
  }

  lemma DrawStaysWithin(s: State, a: Action, ids: set<string>, codes: set<string>)
    requires Draws(a) && Within(s, ids, codes)
    ensures Do(s, a).state.events == s.events
    ensures Within(Do(s, a).state, ids + {a.ticket.id}, codes + {a.ticket.passCode})
  {
    hide FirstIndex, Clashes, RegistreeByEmail, RegistreeById, AttendeeFor;
  }

  lemma QuietStaysWithin(s: State, a: Action, ids: set<string>, codes: set<string>)
    requires !Draws(a) && Within(s, ids, codes)
    ensures Do(s, a).state.events == s.events && Within(Do(s, a).state, ids, codes)
  {
    hide FirstIndex, IsBlocked, OpenRegistrationFor, Enrolled, RegistreeByEmail;
    match a
    case Update(id, p) => UpdateStaysWithin(s, id, p, ids, codes);
    case _ =>
  }

  lemma UpdateStaysWithin(s: State, id: string, p: AttendeePatch, ids: set<string>, codes: set<string>)
    requires Within(s, ids, codes)
    ensures UpdateSpec(s, id, p).state.events == s.events && Within(UpdateSpec(s, id, p).state, ids, codes)
  {
    hide FirstIndex, PatchContact, PatchDetails;
  }

  /** Approvals name existing events, and no update of the run abandons a registration. */
  ghost predicate Regular(s: State, actions: seq<Action>)
    decreases |actions|
  {
    actions == [] ||
    var a := actions[0];
    && (a.Approve? ==> a.eventId in s.events)
    && (a.Update? ==> !Abandons(s, a.id, a.patch))
    && Regular(Do(s, a).state, actions[1..])
  }

  lemma FreshIsNotTaken(s: State, t: Ticket, ids: set<string>, codes: set<string>)
    requires Within(s, ids, codes) && t.id !in ids && t.passCode !in codes
    ensures !TicketTaken(s, t)
  {
  }

  /** With existing events, fresh tickets and nobody moved away, every run keeps every approved registration backed. */
  lemma {:induction false} RunsKeepApprovedBacked(s: State, actions: seq<Action>, ids: set<string>, codes: set<string>)
    requires Sound(s) && Backed(s) && Within(s, ids, codes)
    requires Regular(s, actions) && FreshTickets(ids, codes, actions)
    ensures Backed(Run(s, actions))
    decreases |actions|
  {
    hide Backed, Do, Keys, AllAgree, Abandons, Within, TicketTaken;
    if actions != [] {
      var a, t := actions[0], Do(s, actions[0]).state;
      StepKeepsSound(s, a);
      StepKeepsBackedIff(s, a);
      if Draws(a) {
        FreshIsNotTaken(s, a.ticket, ids, codes);
        DrawStaysWithin(s, a, ids, codes);
        RunsKeepApprovedBacked(t, actions[1..], ids + {a.ticket.id}, codes + {a.ticket.passCode});
      } else {
        QuietStaysWithin(s, a, ids, codes);
        RunsKeepApprovedBacked(t, actions[1..], ids, codes);
      }
    }
  }

  // ---- Blocked attendees and check-ins ------------------------------------------------------------

  /** No administrator gives this attendee another status. */
  predicate Spares(id: string, a: Action) {
    a.Update? && a.id == id ==> a.patch.status.None?
  }

  /** The step checks in the attendee at position `i`. */
  predicate ChecksIn(s: State, a: Action, i: nat) {
    a.CheckIn? && AttendeeByPass(s, a.passCode) == i && CheckInSpec(s, a.passCode).error.None?
  }

  function CheckIns(s: State, actions: seq<Action>, i: nat): nat
    decreases |actions|
  {
    if actions == [] then 0
    else (if ChecksIn(s, actions[0], i) then 1 else 0) + CheckIns(Do(s, actions[0]).state, actions[1..], i)
  }

  /** An administrator's update is accepted and makes the attendee at position `i` fit to be checked in again. */
  predicate Resets(s: State, a: Action, i: nat) {
    && a.Update? && AttendeeById(s, a.id) == i && UpdateSpec(s, a.id, a.patch).error.None?
    && a.patch.status.Some? && a.patch.status.value != CheckedIn && a.patch.status.value != BlockedAtt
  }

  function ResetCount(s: State, actions: seq<Action>, i: nat): nat
    decreases |actions|
  {
    if actions == [] then 0
    else (if Resets(s, actions[0], i) then 1 else 0) + ResetCount(Do(s, actions[0]).state, actions[1..], i)
  }

  /** How often an attendee in this status can be checked in without a reset. */
  function Slack(status: AttStatus): nat {
    if status == CheckedIn || status == BlockedAtt then 0 else 1
  }

  /** The status an accepted update gives the attendee at position `i`. */
  function Given(s: State, a: Action, i: nat): Option<AttStatus> {
    if a.Update? && AttendeeById(s, a.id) == i && UpdateSpec(s, a.id, a.patch).error.None? then a.patch.status else None
  }

  /** The step blocks the attendee at position `i` along with a registration. */
  predicate Blocks(s: State, a: Action, i: nat) {
    a.Block? &&
    var at := RegistreeById(s, a.registreeId);
    && at != -1 && RegistrationFor(s.registrees[at], a.eventId) != -1
    && AttendeeFor(s, a.eventId, s.registrees[at].email) == i
  }

  /** The status a step leaves the attendee at position `i` in. */
  function StatusAfter(s: State, a: Action, i: nat): AttStatus
    requires i < |s.attendees|
  {
    if ChecksIn(s, a, i) then CheckedIn
    else if Blocks(s, a, i) then BlockedAtt
    else if Given(s, a, i).Some? then Given(s, a, i).value
    else s.attendees[i].status
  }

  /** What one step does to the attendee at a position. */
  lemma StepMovesSlot(s: State, a: Action, i: nat)
    requires i < |s.attendees|
    ensures |s.attendees| <= |Do(s, a).state.attendees|
    ensures var b := Do(s, a).state.attendees[i];
            b.id == s.attendees[i].id && b.email == s.attendees[i].email && b.status == StatusAfter(s, a, i)
    ensures ChecksIn(s, a, i)
       <==> a.CheckIn? && AttendeeByPass(s, a.passCode) == i && Slack(s.attendees[i].status) == 1
  {
    hide FirstIndex, Clashes, IsBlocked, RegistreeByEmail, RegistreeById, OpenRegistrationFor, UpdateSpec;
    match a
    case Update(id, p) => UpdateMovesSlot(s, id, p, i);
    case _ =>
  }

  lemma UpdateMovesSlot(s: State, id: string, p: AttendeePatch, i: nat)
    requires i < |s.attendees|
    ensures var o := UpdateSpec(s, id, p);
            var b := o.state.attendees;
            && |b| == |s.attendees| && b[i].id == s.attendees[i].id && b[i].email == s.attendees[i].email
            && b[i].status == if i == AttendeeById(s, id) && o.error.None? && p.status.Some? then p.status.value
                              else s.attendees[i].status
  {
    hide PatchContact, PatchDetails, FirstIndex;
  }

  /** The step checks the attendee in, or blocks it, or an accepted update does the like. */
  predicate Shuts(s: State, a: Action, i: nat) {
    ChecksIn(s, a, i) || Blocks(s, a, i) || Given(s, a, i) == Some(CheckedIn) || Given(s, a, i) == Some(BlockedAtt)
  }

  /** After a step the attendee can be checked in exactly if the step resets it, or it could be and is not shut out. */
  lemma StepLeavesOpenIff(s: State, a: Action, i: nat)
    requires i < |s.attendees|
    ensures i < |Do(s, a).state.attendees|
    ensures Slack(Do(s, a).state.attendees[i].status) == 1
       <==> Resets(s, a, i) || (Slack(s.attendees[i].status) == 1 && !Shuts(s, a, i))
  {
    hide Do, UpdateSpec, CheckInSpec;
    StepMovesSlot(s, a, i);
  }

  /** Whether the last reset or shutting step of a run was a reset; without any, how it was before. */
  predicate LeftOpen(s: State, actions: seq<Action>, i: nat, open: bool)
    decreases |actions|
  {
    if actions == [] then open
    else
      var a := actions[0];
      LeftOpen(Do(s, a).state, actions[1..], i, Resets(s, a, i) || (open && !Shuts(s, a, i)))
  }

  /** After any run the attendee can be checked in exactly if what last touched its status was a reset. */
  lemma {:induction false} RunLeavesOpenIff(s: State, actions: seq<Action>, i: nat)
    requires i < |s.attendees|
    ensures i < |Run(s, actions).attendees|
    ensures Slack(Run(s, actions).attendees[i].status) == 1
       <==> LeftOpen(s, actions, i, Slack(s.attendees[i].status) == 1)
    decreases |actions|
  {
    hide Do, Resets, Shuts, Slack;
    if actions != [] {
      StepLeavesOpenIff(s, actions[0], i);
      RunLeavesOpenIff(Do(s, actions[0]).state, actions[1..], i);
    }
  }

  /** Over every run an attendee is checked in at most once more than administrators reset it. */
  lemma {:induction false} CheckInsBounded(s: State, actions: seq<Action>, i: nat)
    requires i < |s.attendees|
    ensures CheckIns(s, actions, i) <= ResetCount(s, actions, i) + Slack(s.attendees[i].status)
    decreases |actions|
  {
    hide Do, UpdateSpec, AttendeeById, Resets;
    if actions != [] {
      StepMovesSlot(s, actions[0], i);
      StepLeavesOpenIff(s, actions[0], i);
      CheckInsBounded(Do(s, actions[0]).state, actions[1..], i);
    }
  }

  lemma SparedIsNotGiven(s: State, a: Action, i: nat)
    requires i < |s.attendees| && Spares(s.attendees[i].id, a)
    ensures !Resets(s, a, i) && Given(s, a, i) == None
  {
    hide UpdateSpec;
  }

  lemma {:induction false} SparedHasNoReset(s: State, actions: seq<Action>, i: nat)
    requires i < |s.attendees|
    requires forall a | a in actions :: Spares(s.attendees[i].id, a)
    ensures ResetCount(s, actions, i) == 0
    decreases |actions|
  {
    hide Do, ChecksIn, Resets, Given, Spares;
    if actions != [] {
      StepMovesSlot(s, actions[0], i);
      SparedIsNotGiven(s, actions[0], i);
      SparedHasNoReset(Do(s, actions[0]).state, actions[1..], i);
    }
  }

  /** So, unless an administrator changes its status, an attendee is checked in at most once; once blocked, never. */
  lemma CheckedInAtMostOnce(s: State, actions: seq<Action>, i: nat)
    requires i < |s.attendees|
    requires forall a | a in actions :: Spares(s.attendees[i].id, a)
    ensures CheckIns(s, actions, i)
         <= if s.attendees[i].status == CheckedIn || s.attendees[i].status == BlockedAtt then 0 else 1
  {
    CheckInsBounded(s, actions, i);
    SparedHasNoReset(s, actions, i);
  }

  /** A step leaves a blocked attendee blocked, except exactly when an accepted update gives it another status. */
  lemma StepKeepsBlockedIff(s: State, a: Action, i: nat)
    requires i < |s.attendees| && s.attendees[i].status == BlockedAtt
    ensures i < |Do(s, a).state.attendees|
    ensures Do(s, a).state.attendees[i].status == BlockedAtt
       <==> Given(s, a, i) == None || Given(s, a, i) == Some(BlockedAtt)
  {
    hide Do, UpdateSpec, CheckInSpec;
    StepMovesSlot(s, a, i);
  }

  /** So a blocked attendee stays blocked, unless an administrator changes its status. */
  lemma {:induction false} BlockedStaysBlocked(s: State, actions: seq<Action>, i: nat)
    requires i < |s.attendees| && s.attendees[i].status == BlockedAtt
    requires forall a | a in actions :: Spares(s.attendees[i].id, a)
    ensures i < |Run(s, actions).attendees| && Run(s, actions).attendees[i].status == BlockedAtt
    decreases |actions|
  {
    hide Do, ChecksIn, Given, Spares;
    if actions != [] {
      StepMovesSlot(s, actions[0], i);
      SparedIsNotGiven(s, actions[0], i);
      StepKeepsBlockedIff(s, actions[0], i);
      BlockedStaysBlocked(Do(s, actions[0]).state, actions[1..], i);
    }
  }

  // ---- Blocked e-mails ----------------------------------------------------------------------------

  ghost function RegistrationsOf(s: State, email: string): seq<Registration> {
    var at := RegistreeByEmail(s, email);
    if at == -1 then [] else s.registrees[at].registrations
  }

  /** The same registrations for the same events, statuses aside. */
  ghost predicate SameBookings(gs: seq<Registration>, hs: seq<Registration>) {
    |gs| == |hs| && forall k | 0 <= k < |gs| :: hs[k].eventId == gs[k].eventId
  }

  lemma SaveTouchesOneEmail(s: State, r: Registree, email: string)
    ensures RegistrationsOf(SaveRegistree(s, r), email)
         == if r.email == email then r.registrations else RegistrationsOf(s, email)
  {
    var t, k := SaveRegistree(s, r), RegistreeByEmail(s, email);
    assert forall j | 0 <= j < |s.registrees| :: t.registrees[j].email == s.registrees[j].email;
    if k != -1 {
      assert RegistreeByEmail(t, email) == k;
    } else if r.email == email {
      assert t.registrees[|s.registrees|] == r;
    } else {
      assert RegistreeByEmail(t, email) == -1;
    }
  }

  lemma SetStatusKeepsBookings(s: State, at: nat, g: nat, status: RegStatus, email: string)
    requires at < |s.registrees| && g < |s.registrees[at].registrations|
    ensures SameBookings(RegistrationsOf(s, email), RegistrationsOf(SetStatus(s, at, g, status), email))
  {
    var t := SetStatus(s, at, g, status);
    var k := RegistreeByEmail(s, email);
    assert forall j | 0 <= j < |s.registrees| :: t.registrees[j].email == s.registrees[j].email;
    assert RegistreeByEmail(t, email) == k;
  }

  lemma StatusStepsAddNoBooking(s: State, a: Action, email: string)
    requires a.Approve? || a.Reject? || a.Block?
    ensures SameBookings(RegistrationsOf(s, email), RegistrationsOf(Do(s, a).state, email))
  {
    hide FirstIndex, Clashes, AttendeeFor, SetStatus;
    var at := RegistreeById(s, a.registreeId);
    if at != -1 {
      var g := RegistrationFor(s.registrees[at], a.eventId);
      if g != -1 {
        var status := match a case Approve(_, _, _) => Approved case Reject(_, _) => Rejected case _ => BlockedReg;
        SetStatusKeepsBookings(s, at, g, status, email);
        SameRegistreesSameBookings(SetStatus(s, at, g, status), Do(s, a).state, email);
        SameRegistreesSameBookings(s, Do(s, a).state, email);
      }
    }
  }

  lemma SameRegistreesSameBookings(s: State, t: State, email: string)
    ensures t.registrees == s.registrees ==> RegistrationsOf(t, email) == RegistrationsOf(s, email)
  {
  }

  lemma CreateAddsNoBooking(s: State, eventId: string, m: string, contact: Contact, website: Option<string>,
                            status: Option<AttStatus>, newId: string, t: Ticket, email: string)
    ensures RegistrationsOf(CreateSpec(s, eventId, m, contact, website, status, newId, t).state, email)
         == RegistrationsOf(s, email)
  {
    hide FirstIndex, Clashes, AttendeeFor;
    var enrolled := Enrolled(s, m, contact, website, newId);
    if enrolled.Some? {
      SaveTouchesOneEmail(s, enrolled.value, email);
    }
  }

  ghost predicate HasBlocked(gs: seq<Registration>) {
    exists k :: 0 <= k < |gs| && gs[k].status == BlockedReg
  }

  ghost predicate BlockedUnder(a: Attendee, email: string) {
    a.email == email && a.status == BlockedAtt
  }

  ghost predicate HasBlockedAttendee(s: State, email: string) {
    exists k :: 0 <= k < |s.attendees| && BlockedUnder(s.attendees[k], email)
  }

  /** An e-mail is blocked by an attendee or by a registration. */
  lemma IsBlockedIff(s: State, email: string)
    ensures IsBlocked(s, email) <==> HasBlockedAttendee(s, email) || HasBlocked(RegistrationsOf(s, email))
  {
    hide FirstIndex;
    if HasBlockedAttendee(s, email) {
      var k :| 0 <= k < |s.attendees| && BlockedUnder(s.attendees[k], email);
      assert s.attendees[k] in s.attendees;
    }
    var gs := RegistrationsOf(s, email);
    if HasBlocked(gs) {
      var k :| 0 <= k < |gs| && gs[k].status == BlockedReg;
      assert gs[k] in gs;
    }
  }

  /** A reject of the only blocked registration of the e-mail. */
  ghost predicate RejectsLast(s: State, a: Action, email: string) {
    a.Reject? &&
    var at := RegistreeById(s, a.registreeId);
    at != -1 && at == RegistreeByEmail(s, email) &&
    var gs, g := s.registrees[at].registrations, RegistrationFor(s.registrees[at], a.eventId);
    && g != -1 && gs[g].status == BlockedReg
    && forall k | 0 <= k < |gs| && k != g :: gs[k].status != BlockedReg
  }

  /** An accepted update that gives the only blocked attendee of the e-mail another status. */
  ghost predicate FreesLast(s: State, a: Action, email: string) {
    a.Update? &&
    var i := AttendeeById(s, a.id);
    && i != -1 && BlockedUnder(s.attendees[i], email)
    && Given(s, a, i).Some? && Given(s, a, i).value != BlockedAtt
    && forall k | 0 <= k < |s.attendees| && k != i :: !BlockedUnder(s.attendees[k], email)
  }

  /** The step takes away the last thing that blocks the e-mail. */
  ghost predicate Lifts(s: State, a: Action, email: string) {
    || (RejectsLast(s, a, email) && !HasBlockedAttendee(s, email))
    || (FreesLast(s, a, email) && !HasBlocked(RegistrationsOf(s, email)))
  }

  /** Only an update can take the last blocked attendee of an e-mail away. */
  lemma AttendeesStayBlocked(s: State, a: Action, email: string)
    requires !a.Update? && HasBlockedAttendee(s, email)
    ensures HasBlockedAttendee(Do(s, a).state, email)
  {
    hide Do, CheckInSpec, UpdateSpec;
    var k :| 0 <= k < |s.attendees| && BlockedUnder(s.attendees[k], email);
    StepMovesSlot(s, a, k);
    StepKeepsBlockedIff(s, a, k);
    assert BlockedUnder(Do(s, a).state.attendees[k], email);
  }

  lemma UpdateKeepsBlockedAttendeeIff(s: State, a: Action, email: string)
    requires a.Update? && HasBlockedAttendee(s, email)
    ensures HasBlockedAttendee(Do(s, a).state, email) <==> !FreesLast(s, a, email)
  {
    hide UpdateSpec, FirstIndex;
    var i, t := AttendeeById(s, a.id), Do(s, a).state;
    UpdateKeepsOwner(s, a.id, a.patch);
    forall k | 0 <= k < |s.attendees|
      ensures t.attendees[k].email == s.attendees[k].email
      ensures t.attendees[k].status
           == if k == i && Given(s, a, k).Some? then Given(s, a, k).value else s.attendees[k].status
    {
      UpdateMovesSlot(s, a.id, a.patch, k);
    }
    if FreesLast(s, a, email) {
      assert forall k | 0 <= k < |t.attendees| :: !BlockedUnder(t.attendees[k], email);
    } else {
      var k :| 0 <= k < |s.attendees| && BlockedUnder(s.attendees[k], email);
      if k == i && Given(s, a, i).Some? && Given(s, a, i).value != BlockedAtt {
        var j :| 0 <= j < |s.attendees| && j != i && BlockedUnder(s.attendees[j], email);
        assert BlockedUnder(t.attendees[j], email);
      } else {
        assert BlockedUnder(t.attendees[k], email);
      }
    }
  }

  lemma SetStatusOf(s: State, at: nat, g: nat, status: RegStatus, email: string)
    requires at < |s.registrees| && g < |s.registrees[at].registrations|
    ensures var gs := RegistrationsOf(s, email);
            RegistrationsOf(SetStatus(s, at, g, status), email)
            == if at == RegistreeByEmail(s, email) then gs[g := gs[g].(status := status)] else gs
  {
    var t := SetStatus(s, at, g, status);
    assert forall j | 0 <= j < |s.registrees| :: t.registrees[j].email == s.registrees[j].email;
    assert RegistreeByEmail(t, email) == RegistreeByEmail(s, email);
  }

  lemma RegistrationsUnder(s: State, email: string)
    ensures var at := RegistreeByEmail(s, email);
            RegistrationsOf(s, email) == if at == -1 then [] else s.registrees[at].registrations
  {
  }

  lemma OneStatusChanged(gs: seq<Registration>, g: nat, status: RegStatus)
    requires g < |gs| && HasBlocked(gs)
    ensures HasBlocked(gs[g := gs[g].(status := status)])
       <==> status == BlockedReg || exists k :: 0 <= k < |gs| && k != g && gs[k].status == BlockedReg
  {
    var hs := gs[g := gs[g].(status := status)];
    assert hs[g].status == status;
    if k :| 0 <= k < |gs| && k != g && gs[k].status == BlockedReg {
      assert hs[k].status == BlockedReg;
    }
  }

  /** Approve, reject and block leave a blocked registration of the e-mail, except exactly when the last is rejected. */
  lemma StatusStepKeepsBlockedIff(s: State, a: Action, email: string)
    requires a.Approve? || a.Reject? || a.Block?
    requires HasBlocked(RegistrationsOf(s, email))
    ensures HasBlocked(RegistrationsOf(Do(s, a).state, email)) <==> !RejectsLast(s, a, email)
  {
    hide FirstIndex, Clashes, SetStatus, RegistrationsOf;
    var gs, at := RegistrationsOf(s, email), RegistreeById(s, a.registreeId);
    RegistrationsUnder(s, email);
    if at != -1 && RegistrationFor(s.registrees[at], a.eventId) != -1 {
      var g := RegistrationFor(s.registrees[at], a.eventId);
      var status := match a case Approve(_, _, _) => Approved case Reject(_, _) => Rejected case _ => BlockedReg;
      SetStatusOf(s, at, g, status, email);
      SameRegistreesSameBookings(SetStatus(s, at, g, status), Do(s, a).state, email);
      SameRegistreesSameBookings(s, Do(s, a).state, email);
      if at == RegistreeByEmail(s, email) {
        OneStatusChanged(gs, g, status);
      }
    }
  }

  lemma StepAddsNoBooking(s: State, a: Action, email: string)
    requires IsBlocked(s, email)
    ensures SameBookings(RegistrationsOf(s, email), RegistrationsOf(Do(s, a).state, email))
  {
    hide FirstIndex, RegisterSpec, ApproveSpec, RejectSpec, BlockSpec, CreateSpec, RegistrationsOf, IsBlocked;
    match a
    case Register(e, m, c, w, n) => RegisterAddsNoBooking(s, e, m, c, w, n, email);
    case Approve(_, _, _) => StatusStepsAddNoBooking(s, a, email);
    case Reject(_, _) => StatusStepsAddNoBooking(s, a, email);
    case Block(_, _) => StatusStepsAddNoBooking(s, a, email);
    case CheckIn(_) => SameRegistreesSameBookings(s, Do(s, a).state, email);
    case Create(e, m, c, w, st, n, t) => CreateAddsNoBooking(s, e, m, c, w, st, n, t, email);
    case Update(_, _) => SameRegistreesSameBookings(s, Do(s, a).state, email);
  }

  lemma RegisterAddsNoBooking(s: State, eventId: string, m: string, contact: Contact,
                              website: Option<string>, newId: string, email: string)
    requires IsBlocked(s, email)
    ensures RegistrationsOf(RegisterSpec(s, eventId, m, contact, website, newId).state, email)
         == RegistrationsOf(s, email)
  {
    hide FirstIndex, RegistreeByEmail, OpenRegistrationFor, SaveRegistree, AttendeeFor, RegistrationsOf, IsBlocked;
    if m != email && RegisterSpec(s, eventId, m, contact, website, newId).error.None? {
      var r := Enrolled(s, m, contact, website, newId).value;
      EnrolledKeepsRegistrations(s, m, contact, website, newId);
      var pending := Registration(eventId, m, contact, Pending);
      SaveTouchesOneEmail(s, r.(registrations := r.registrations + [pending]), email);
    }
  }

  lemma QuietStepKeepsRegistrations(s: State, a: Action, email: string)
    requires IsBlocked(s, email) && !a.Approve? && !a.Reject? && !a.Block?
    ensures RegistrationsOf(Do(s, a).state, email) == RegistrationsOf(s, email)
  {
    hide FirstIndex, RegisterSpec, CreateSpec, RegistrationsOf, IsBlocked;
    match a
    case Register(e, m, c, w, n) => RegisterAddsNoBooking(s, e, m, c, w, n, email);
    case Create(e, m, c, w, st, n, t) => CreateAddsNoBooking(s, e, m, c, w, st, n, t, email);
    case _ => SameRegistreesSameBookings(s, Do(s, a).state, email);
  }

  lemma RejectKeepsAttendees(s: State, a: Action)
    requires a.Reject?
    ensures Do(s, a).state.attendees == s.attendees
  {
  }

  /** A step leaves a blocked e-mail blocked, except exactly when it lifts the block. */
  lemma StepKeepsBlockIff(s: State, a: Action, email: string)
    requires IsBlocked(s, email)
    ensures IsBlocked(Do(s, a).state, email) <==> !Lifts(s, a, email)
  {
    hide Do, IsBlocked, RegistrationsOf, FirstIndex, UpdateSpec;
    var t := Do(s, a).state;
    IsBlockedIff(s, email);
    IsBlockedIff(t, email);
    RegistrationsUnder(s, email);
    if a.Update? {
      QuietStepKeepsRegistrations(s, a, email);
      if HasBlockedAttendee(s, email) {
        UpdateKeepsBlockedAttendeeIff(s, a, email);
      }
    } else {
      if HasBlockedAttendee(s, email) {
        AttendeesStayBlocked(s, a, email);
      } else if a.Approve? || a.Reject? || a.Block? {
        StatusStepKeepsBlockedIff(s, a, email);
        if a.Reject? {
          RejectKeepsAttendees(s, a);
        }
      } else {
        QuietStepKeepsRegistrations(s, a, email);
      }
    }
  }

  ghost predicate NeverLifts(s: State, actions: seq<Action>, email: string)
    decreases |actions|
  {
    actions == [] || (!Lifts(s, actions[0], email) && NeverLifts(Do(s, actions[0]).state, actions[1..], email))
  }

  /** From a block on, until a step lifts it, the e-mail stays blocked and its list of registrations gets no entry. */
  lemma {:induction false} BlockedEmailIsShutOut(s: State, actions: seq<Action>, email: string)
    requires IsBlocked(s, email) && NeverLifts(s, actions, email)
    ensures IsBlocked(Run(s, actions), email)
    ensures SameBookings(RegistrationsOf(s, email), RegistrationsOf(Run(s, actions), email))
    decreases |actions|
  {
    hide Do, RegistrationsOf, IsBlocked, Lifts;
    if actions != [] {
      StepKeepsBlockIff(s, actions[0], email);
      StepAddsNoBooking(s, actions[0], email);
      BlockedEmailIsShutOut(Do(s, actions[0]).state, actions[1..], email);
    }
  }

  lemma SparedIsNotLifted(s: State, a: Action, i: nat)
    requires i < |s.attendees| && s.attendees[i].status == BlockedAtt && Spares(s.attendees[i].id, a)
    ensures !Lifts(s, a, s.attendees[i].email)
  {
    hide UpdateSpec, RegistrationsOf;
    assert BlockedUnder(s.attendees[i], s.attendees[i].email);
  }

  lemma {:induction false} SparedNeverLifts(s: State, actions: seq<Action>, i: nat)
    requires i < |s.attendees| && s.attendees[i].status == BlockedAtt
    requires forall a | a in actions :: Spares(s.attendees[i].id, a)
    ensures NeverLifts(s, actions, s.attendees[i].email)
    decreases |actions|
  {
    hide Do, Lifts, ChecksIn, Given, Spares;
    if actions != [] {
      SparedIsNotLifted(s, actions[0], i);
      StepMovesSlot(s, actions[0], i);
      SparedIsNotGiven(s, actions[0], i);
      StepKeepsBlockedIff(s, actions[0], i);
      SparedNeverLifts(Do(s, actions[0]).state, actions[1..], i);
    }
  }

  /** In particular while a blocked attendee of it is given no other status. */
  lemma BlockedEmailGainsNoRegistration(s: State, actions: seq<Action>, i: nat)
    requires i < |s.attendees| && s.attendees[i].status == BlockedAtt
    requires forall a | a in actions :: Spares(s.attendees[i].id, a)
    ensures var email := s.attendees[i].email;
            SameBookings(RegistrationsOf(s, email), RegistrationsOf(Run(s, actions), email))
  {
    hide RegistrationsOf, Run;
    assert s.attendees[i] in s.attendees && IsBlocked(s, s.attendees[i].email);
    SparedNeverLifts(s, actions, i);
    BlockedEmailIsShutOut(s, actions, s.attendees[i].email);
  }

  // ---- One pending registration per event; not always one open one -----------------------------

  ghost predicate PendingOnceIn(gs: seq<Registration>) {
    forall j, k | 0 <= j < k < |gs| && gs[j].status == Pending && gs[k].status == Pending ::
      gs[j].eventId != gs[k].eventId
  }

  ghost predicate SingleOpenIn(gs: seq<Registration>) {
    forall j, k | 0 <= j < k < |gs| && gs[j].status != Rejected && gs[k].status != Rejected ::
      gs[j].eventId != gs[k].eventId
  }

  /** No registree has two pending registrations for one event. */
  ghost predicate PendingOnce(s: State) {
    forall i | 0 <= i < |s.registrees| :: PendingOnceIn(s.registrees[i].registrations)
  }

  /** No registree has two registrations for one event that are not rejected. */
  ghost predicate SingleOpen(s: State) {
    forall i | 0 <= i < |s.registrees| :: SingleOpenIn(s.registrees[i].registrations)
  }

  lemma SaveKeepsPendingOnce(s: State, r: Registree)
    requires PendingOnce(s) && PendingOnceIn(r.registrations)
    ensures PendingOnce(SaveRegistree(s, r))
  {
  }

  lemma SaveKeepsSingleOpen(s: State, r: Registree)
    requires SingleOpen(s) && SingleOpenIn(r.registrations)
    ensures SingleOpen(SaveRegistree(s, r))
  {
  }

  /** Enrolling keeps the registrations on file. */
  lemma EnrolledKeepsRegistrations(s: State, email: string, contact: Contact, website: Option<string>, newId: string)
    requires Enrolled(s, email, contact, website, newId).Some?
    ensures var r, at := Enrolled(s, email, contact, website, newId).value, RegistreeByEmail(s, email);
            r.email == email && r.registrations == if at == -1 then [] else s.registrees[at].registrations
  {
    hide FirstIndex;
  }

  /** One more pending registration where none for its event is open. */
  lemma OneMorePending(gs: seq<Registration>, g: Registration)
    requires g.status == Pending
    requires forall k | 0 <= k < |gs| :: gs[k].eventId != g.eventId || gs[k].status == Rejected
    ensures PendingOnceIn(gs) ==> PendingOnceIn(gs + [g])
    ensures SingleOpenIn(gs) ==> SingleOpenIn(gs + [g])
  {
  }

  lemma RegisterKeepsBoth(s: State, eventId: string, email: string, contact: Contact,
                          website: Option<string>, newId: string)
    ensures var t := RegisterSpec(s, eventId, email, contact, website, newId).state;
            (PendingOnce(s) ==> PendingOnce(t)) && (SingleOpen(s) ==> SingleOpen(t))
  {
    hide IsBlocked, SaveRegistree, Enrolled, PendingOnceIn, SingleOpenIn;
    if RegisterSpec(s, eventId, email, contact, website, newId).error.None? {
      EnrolledKeepsRegistrations(s, email, contact, website, newId);
      var r, g := Enrolled(s, email, contact, website, newId).value, Registration(eventId, email, contact, Pending);
      NothingOnFile();
      OneMorePending(r.registrations, g);
      var pending := r.(registrations := r.registrations + [g]);
      if PendingOnce(s) {
        SaveKeepsPendingOnce(s, pending);
      }
      if SingleOpen(s) {
        SaveKeepsSingleOpen(s, pending);
      }
    }
  }

  lemma NothingOnFile()
    ensures PendingOnceIn([]) && SingleOpenIn([])
  {
  }

  lemma CreateKeepsBoth(s: State, eventId: string, email: string, contact: Contact, website: Option<string>,
                        status: Option<AttStatus>, newId: string, t: Ticket)
    ensures var t := CreateSpec(s, eventId, email, contact, website, status, newId, t).state;
            (PendingOnce(s) ==> PendingOnce(t)) && (SingleOpen(s) ==> SingleOpen(t))
  {
    hide Enrolled, Clashes, AttendeeFor, FirstIndex;
    var enrolled := Enrolled(s, email, contact, website, newId);
    if enrolled.Some? {
      EnrolledKeepsRegistrations(s, email, contact, website, newId);
      if PendingOnce(s) {
        SaveKeepsPendingOnce(s, enrolled.value);
      }
      if SingleOpen(s) {
        SaveKeepsSingleOpen(s, enrolled.value);
      }
    }
  }

  lemma SetStatusKeepsPendingOnce(s: State, at: nat, g: nat, status: RegStatus)
    requires at < |s.registrees| && g < |s.registrees[at].registrations|
    requires PendingOnce(s) && status != Pending
    ensures PendingOnce(SetStatus(s, at, g, status))
  {
  }

  /** Reopening the first registration for an event leaves one open exactly if no later one is open. */
  lemma SetStatusKeepsSingleOpenIff(s: State, at: nat, eventId: string, status: RegStatus)
    requires at < |s.registrees| && SingleOpen(s)
    requires RegistrationFor(s.registrees[at], eventId) != -1
    ensures var r := s.registrees[at];
            var g := RegistrationFor(r, eventId);
            SingleOpen(SetStatus(s, at, g, status)) <==>
              (status == Rejected || r.registrations[g].status != Rejected || OpenRegistrationFor(r, eventId) == -1)
  {
    var r := s.registrees[at];
    var g := RegistrationFor(r, eventId);
    var t := SetStatus(s, at, g, status);
    assert SingleOpenIn(r.registrations);
    var o := OpenRegistrationFor(r, eventId);
    if status != Rejected && r.registrations[g].status == Rejected && o != -1 {
      var gs := t.registrees[at].registrations;
      assert g < o && gs[g].eventId == gs[o].eventId;
      assert !SingleOpenIn(gs);
    } else {
      assert SingleOpenIn(t.registrees[at].registrations);
    }
  }

  /** Approve or block passes its guards and reopens a rejected registration that was superseded. */
  ghost predicate ActsOnSuperseded(s: State, a: Action) {
    (a.Approve? || a.Block?) &&
    var at := RegistreeById(s, a.registreeId);
    at != -1 &&
    var r := s.registrees[at];
    var g := RegistrationFor(r, a.eventId);
    && g != -1 && r.registrations[g].status == Rejected
    && OpenRegistrationFor(r, a.eventId) != -1
    && (a.Approve? ==> AttendeeFor(s, a.eventId, r.email) == -1)
  }

  lemma SameRegistreesSameOpen(s: State, t: State)
    requires s.registrees == t.registrees
    ensures (PendingOnce(s) <==> PendingOnce(t)) && (SingleOpen(s) <==> SingleOpen(t))
  {
  }

  lemma StatusStepsKeepSingleOpenIff(s: State, a: Action)
    requires a.Approve? || a.Reject? || a.Block?
    requires SingleOpen(s)
    ensures SingleOpen(Do(s, a).state) <==> !ActsOnSuperseded(s, a)
  {
    hide SingleOpen, PendingOnce, Clashes, SetStatus, FirstIndex;
    var at := RegistreeById(s, a.registreeId);
    if at != -1 && RegistrationFor(s.registrees[at], a.eventId) != -1 {
      var g := RegistrationFor(s.registrees[at], a.eventId);
      var status := match a case Approve(_, _, _) => Approved case Reject(_, _) => Rejected case _ => BlockedReg;
      SetStatusKeepsSingleOpenIff(s, at, a.eventId, status);
      if Do(s, a).state.registrees == SetStatus(s, at, g, status).registrees {
        SameRegistreesSameOpen(SetStatus(s, at, g, status), Do(s, a).state);
      } else {
        assert Do(s, a).state == s;
      }
    }
  }

  lemma StatusStepsKeepPendingOnce(s: State, a: Action)
    requires a.Approve? || a.Reject? || a.Block?
    requires PendingOnce(s)
    ensures PendingOnce(Do(s, a).state)
  {
    hide SingleOpen, PendingOnce, Clashes, SetStatus, FirstIndex;
    var at := RegistreeById(s, a.registreeId);
    if Do(s, a).state != s {
      var g := RegistrationFor(s.registrees[at], a.eventId);
      var status := match a case Approve(_, _, _) => Approved case Reject(_, _) => Rejected case _ => BlockedReg;
      SetStatusKeepsPendingOnce(s, at, g, status);
      SameRegistreesSameOpen(SetStatus(s, at, g, status), Do(s, a).state);
    }
  }

  /** A step splits an event over two open registrations exactly when it acts on a superseded one. */
  lemma StepKeepsSingleOpenIff(s: State, a: Action)
    requires SingleOpen(s)
    ensures SingleOpen(Do(s, a).state) <==> !ActsOnSuperseded(s, a)
  {
    hide SingleOpen, PendingOnce, RegisterSpec, ApproveSpec, RejectSpec, BlockSpec, CreateSpec;
    match a
    case Register(e, m, c, w, n) => RegisterKeepsBoth(s, e, m, c, w, n);
    case Create(e, m, c, w, st, n, t) => CreateKeepsBoth(s, e, m, c, w, st, n, t);
    case CheckIn(_) => SameRegistreesSameOpen(s, Do(s, a).state);
    case Update(_, _) => SameRegistreesSameOpen(s, Do(s, a).state);
    case _ => StatusStepsKeepSingleOpenIff(s, a);
  }

  /** At most one pending registration per registree and event, over every run. */
  lemma {:induction false} RunsKeepPendingOnce(s: State, actions: seq<Action>)
    requires PendingOnce(s)
    ensures PendingOnce(Run(s, actions))
    decreases |actions|
  {
    hide SingleOpen, PendingOnce, RegisterSpec, ApproveSpec, RejectSpec, BlockSpec, CreateSpec;
    if actions != [] {
      match actions[0] {
        case Register(e, m, c, w, n) => RegisterKeepsBoth(s, e, m, c, w, n);
        case Create(e, m, c, w, st, n, t) => CreateKeepsBoth(s, e, m, c, w, st, n, t);
        case CheckIn(_) => SameRegistreesSameOpen(s, Do(s, actions[0]).state);
        case Update(_, _) => SameRegistreesSameOpen(s, Do(s, actions[0]).state);
        case _ => StatusStepsKeepPendingOnce(s, actions[0]);
      }
      RunsKeepPendingOnce(Do(s, actions[0]).state, actions[1..]);
    }
  }

  /** A store with one registree and no attendee. */
  function Lone(events: set<string>, id: string, m: string, c: Contact, gs: seq<Registration>): State {
    State(events, [Registree(id, m, c, None, gs)], [])
  }

  lemma LoneIsFound(events: set<string>, id: string, m: string, c: Contact, gs: seq<Registration>)
    ensures var s := Lone(events, id, m, c, gs);
            RegistreeById(s, id) == 0 && RegistreeByEmail(s, m) == 0 && RegistrationsOf(s, m) == gs
  {
  }

  lemma FirstRegistration(events: set<string>, e: string, m: string, c: Contact, id: string)
    requires e in events
    ensures RegisterSpec(State(events, [], []), e, m, c, None, id).state
         == Lone(events, id, m, c, [Registration(e, m, c, Pending)])
  {
    assert [] + [Registration(e, m, c, Pending)] == [Registration(e, m, c, Pending)];
  }

  lemma RejectLone(e: string, id: string, m: string, c: Contact, g: Registration)
    requires g.eventId == e
    ensures RejectSpec(Lone({e}, id, m, c, [g]), id, e).state == Lone({e}, id, m, c, [g.(status := Rejected)])
  {
    LoneIsFound({e}, id, m, c, [g]);
    assert [g][0 := g.(status := Rejected)] == [g.(status := Rejected)];
  }

  lemma RegisterAgain(e: string, m: string, c: Contact, id: string, past: Registration)
    requires past.eventId == e && past.status == Rejected
    ensures RegisterSpec(Lone({e}, id, m, c, [past]), e, m, c, None, id).state
         == Lone({e}, id, m, c, [past, Registration(e, m, c, Pending)])
  {
    LoneIsFound({e}, id, m, c, [past]);
    assert [past] + [Registration(e, m, c, Pending)] == [past, Registration(e, m, c, Pending)];
  }

  lemma ApproveLone(e: string, id: string, m: string, c: Contact, gs: seq<Registration>, t: Ticket)
    requires |gs| == 2 && gs[0].eventId == e && gs[1].eventId == e
    requires gs[0].status == Rejected && gs[1].status == Pending
    ensures var after := ApproveSpec(Lone({e}, id, m, c, gs), id, e, t).state;
            RegistrationsOf(after, m) == gs[0 := gs[0].(status := Approved)] && !SingleOpen(after)
  {
    LoneIsFound({e}, id, m, c, gs);
    var after := ApproveSpec(Lone({e}, id, m, c, gs), id, e, t).state;
    assert after.registrees[0].registrations == gs[0 := gs[0].(status := Approved)];
    var hs := after.registrees[0].registrations;
    assert hs[0].eventId == hs[1].eventId && hs[0].status == Approved && hs[1].status == Pending;
    assert !SingleOpenIn(hs);
    assert RegistreeByEmail(after, m) == 0;
  }

  /** Register, reject, register again, approve: the old entry is approved while the new one still waits. */
  lemma SecondRegistrationIsOvertaken(e: string, m: string, c: Contact, id: string, t: Ticket)
    ensures var first := Register(e, m, c, None, id);
            var end := Run(State({e}, [], []), [first, Reject(id, e), first, Approve(id, e, t)]);
            && !SingleOpen(end)
            && RegistrationsOf(end, m) == [Registration(e, m, c, Approved), Registration(e, m, c, Pending)]
  {
    hide RegisterSpec, ApproveSpec, RejectSpec, FirstIndex;
    var first := Register(e, m, c, None, id);
    var g, past := Registration(e, m, c, Pending), Registration(e, m, c, Rejected);
    var s0, s1 := State({e}, [], []), State({e}, [Registree(id, m, c, None, [g])], []);
    var s2, s3 := Lone({e}, id, m, c, [past]), Lone({e}, id, m, c, [past, g]);
    FirstRegistration({e}, e, m, c, id);
    RejectLone(e, id, m, c, g);
    RegisterAgain(e, m, c, id, past);
    ApproveLone(e, id, m, c, [past, g], t);
    var s4 := Do(s3, Approve(id, e, t)).state;
    assert s4 == Run(s4, []);
    assert s4 == Run(s3, [Approve(id, e, t)]);
    assert s4 == Run(s2, [first, Approve(id, e, t)]);
    assert s4 == Run(s1, [Reject(id, e), first, Approve(id, e, t)]);
    assert s4 == Run(s0, [first, Reject(id, e), first, Approve(id, e, t)]);
    assert [past, g][0 := past.(status := Approved)] == [past.(status := Approved), g];
  }

  // ---- Whose an attendee is ----------------------------------------------------------------------

  ghost predicate FiledIn(rs: seq<Registree>, a: Attendee) {
    a.registreeId.Some? ==>
      exists i :: 0 <= i < |rs| && a.registreeId == Some(rs[i].id) && rs[i].email == a.email
  }

  /** Every attendee with a registree is filed under that registree's e-mail. */
  ghost predicate Filed(s: State) {
    forall k | 0 <= k < |s.attendees| :: FiledIn(s.registrees, s.attendees[k])
  }

  ghost predicate LaterPendingIn(gs: seq<Registration>) {
    forall j, k | 0 <= j < k < |gs| && gs[j].eventId == gs[k].eventId :: gs[k].status == Pending
  }

  /** Only the first registration for an event ever leaves the pending state. */
  ghost predicate LaterPending(s: State) {
    forall i | 0 <= i < |s.registrees| :: LaterPendingIn(s.registrees[i].registrations)
  }

  /** Registrees accumulate and keep their ids and e-mails. */
  ghost predicate SameOwners(rs: seq<Registree>, ts: seq<Registree>) {
    |rs| <= |ts| && forall i | 0 <= i < |rs| :: ts[i].id == rs[i].id && ts[i].email == rs[i].email
  }

  lemma StaysFiled(rs: seq<Registree>, ts: seq<Registree>, a: Attendee, b: Attendee)
    requires SameOwners(rs, ts) && FiledIn(rs, a) && b.registreeId == a.registreeId && b.email == a.email
    ensures FiledIn(ts, b)
  {
    if a.registreeId.Some? {
      var i :| 0 <= i < |rs| && a.registreeId == Some(rs[i].id) && rs[i].email == a.email;
      assert ts[i].id == rs[i].id;
    }
  }

  /** Old attendees stay filed under the registrees of `ts`, and so does the one that may be new. */
  lemma AllStayFiled(s: State, t: State)
    requires Filed(s) && SameOwners(s.registrees, t.registrees)
    requires |s.attendees| <= |t.attendees| <= |s.attendees| + 1
    requires forall k | 0 <= k < |s.attendees| ::
               t.attendees[k].registreeId == s.attendees[k].registreeId && t.attendees[k].email == s.attendees[k].email
    requires |t.attendees| > |s.attendees| ==> FiledIn(t.registrees, t.attendees[|s.attendees|])
    ensures Filed(t)
  {
    forall k | 0 <= k < |s.attendees|
      ensures FiledIn(t.registrees, t.attendees[k])
    {
      StaysFiled(s.registrees, t.registrees, s.attendees[k], t.attendees[k]);
    }
  }

  lemma SaveFiles(s: State, r: Registree)
    requires var at := RegistreeByEmail(s, r.email); at != -1 ==> s.registrees[at].id == r.id
    ensures SameOwners(s.registrees, SaveRegistree(s, r).registrees)
    ensures forall a: Attendee | a.registreeId == Some(r.id) && a.email == r.email ::
              FiledIn(SaveRegistree(s, r).registrees, a)
  {
    var t, at := SaveRegistree(s, r), RegistreeByEmail(s, r.email);
    assert t.registrees[if at == -1 then |s.registrees| else at] == r;
  }

  lemma EnrolledKeepsId(s: State, email: string, contact: Contact, website: Option<string>, newId: string)
    requires Enrolled(s, email, contact, website, newId).Some?
    ensures var r, at := Enrolled(s, email, contact, website, newId).value, RegistreeByEmail(s, email);
            r.email == email && (at != -1 ==> r.id == s.registrees[at].id)
  {
  }

  lemma RegisterKeepsFiled(s: State, eventId: string, email: string, contact: Contact,
                           website: Option<string>, newId: string)
    requires Filed(s)
    ensures Filed(RegisterSpec(s, eventId, email, contact, website, newId).state)
  {
    hide Filed, SaveRegistree, IsBlocked, Enrolled, FiledIn, FirstIndex;
    if RegisterSpec(s, eventId, email, contact, website, newId).error.None? {
      EnrolledKeepsId(s, email, contact, website, newId);
      var r := Enrolled(s, email, contact, website, newId).value;
      var pending := r.(registrations := r.registrations + [Registration(eventId, email, contact, Pending)]);
      SaveFiles(s, pending);
      SaveKeepsAttendees(s, pending);
      AllStayFiled(s, SaveRegistree(s, pending));
    }
  }

  lemma SaveKeepsAttendees(s: State, r: Registree)
    ensures SaveRegistree(s, r).attendees == s.attendees
  {
  }

  lemma CreateKeepsFiled(s: State, eventId: string, email: string, contact: Contact, website: Option<string>,
                         status: Option<AttStatus>, newId: string, t: Ticket)
    requires Filed(s)
    ensures Filed(CreateSpec(s, eventId, email, contact, website, status, newId, t).state)
  {
    hide Filed, SaveRegistree, Enrolled, Clashes, FirstIndex, AttendeeFor;
    var enrolled := Enrolled(s, email, contact, website, newId);
    if enrolled.Some? {
      EnrolledKeepsId(s, email, contact, website, newId);
      SaveFiles(s, enrolled.value);
      SaveKeepsAttendees(s, enrolled.value);
    }
    if eventId in s.events && AttendeeFor(s, eventId, email) == -1 {
      AllStayFiled(s, CreateSpec(s, eventId, email, contact, website, status, newId, t).state);
    }
  }

  lemma StatusStepsKeepFiled(s: State, a: Action)
    requires Filed(s) && (a.Approve? || a.Reject? || a.Block?)
    ensures Filed(Do(s, a).state)
  {
    hide Filed, FiledIn, Clashes, FirstIndex, Admitted;
    var at := RegistreeById(s, a.registreeId);
    if at != -1 && RegistrationFor(s.registrees[at], a.eventId) != -1 {
      if a.Approve? {
        var r := s.registrees[at];
        var g := RegistrationFor(r, a.eventId);
        AdmittedIsFiled(SetStatus(s, at, g, Approved).registrees, r, at, r.registrations[g], a.eventId, a.ticket);
      }
      AllStayFiled(s, Do(s, a).state);
    }
  }

  lemma AdmittedIsFiled(rs: seq<Registree>, r: Registree, at: nat, g: Registration, eventId: string, t: Ticket)
    requires at < |rs| && rs[at].id == r.id && rs[at].email == r.email
    ensures FiledIn(rs, Admitted(r, g, eventId, t))
  {
  }

  lemma StepKeepsFiled(s: State, a: Action)
    requires Filed(s)
    ensures Filed(Do(s, a).state)
  {
    hide Filed, RegisterSpec, CreateSpec, ApproveSpec, RejectSpec, BlockSpec, Patched, Attended;
    match a
    case Register(e, m, c, w, n) => RegisterKeepsFiled(s, e, m, c, w, n);
    case Create(e, m, c, w, st, n, t) => CreateKeepsFiled(s, e, m, c, w, st, n, t);
    case CheckIn(_) => AllStayFiled(s, Do(s, a).state);
    case Update(id, p) =>
      UpdateKeepsOwner(s, id, p);
      AllStayFiled(s, Do(s, a).state);
    case _ => StatusStepsKeepFiled(s, a);
  }

  lemma UpdateKeepsOwner(s: State, id: string, p: AttendeePatch)
    ensures var t := UpdateSpec(s, id, p).state;
            && t.registrees == s.registrees && |t.attendees| == |s.attendees|
            && forall k | 0 <= k < |s.attendees| ::
                 && t.attendees[k].registreeId == s.attendees[k].registreeId
                 && t.attendees[k].email == s.attendees[k].email
  {
    hide FirstIndex, PatchContact, PatchDetails;
  }

  lemma SaveKeepsLaterPending(s: State, r: Registree)
    requires LaterPending(s) && LaterPendingIn(r.registrations)
    ensures LaterPending(SaveRegistree(s, r))
  {
  }

  lemma SetStatusKeepsLaterPending(s: State, at: nat, eventId: string, status: RegStatus)
    requires at < |s.registrees| && LaterPending(s) && RegistrationFor(s.registrees[at], eventId) != -1
    ensures LaterPending(SetStatus(s, at, RegistrationFor(s.registrees[at], eventId), status))
  {
    assert LaterPendingIn(s.registrees[at].registrations);
  }

  lemma PushKeepsLaterPending(gs: seq<Registration>, g: Registration)
    requires LaterPendingIn(gs) && g.status == Pending
    ensures LaterPendingIn(gs + [g])
  {
  }

  lemma SameRegistreesSameLater(s: State, t: State)
    requires s.registrees == t.registrees && LaterPending(s)
    ensures LaterPending(t)
  {
  }

  lemma EnrolKeepsLaterPending(s: State, email: string, contact: Contact, website: Option<string>, newId: string)
    requires LaterPending(s) && Enrolled(s, email, contact, website, newId).Some?
    ensures LaterPendingIn(Enrolled(s, email, contact, website, newId).value.registrations)
  {
    hide Enrolled, FirstIndex;
    EnrolledKeepsRegistrations(s, email, contact, website, newId);
  }

  lemma StepKeepsLaterPending(s: State, a: Action)
    requires LaterPending(s)
    ensures LaterPending(Do(s, a).state)
  {
    hide LaterPending, LaterPendingIn, Enrolled, SaveRegistree, IsBlocked, Clashes, FirstIndex, SetStatus;
    match a
    case Register(e, m, c, w, n) =>
      if RegisterSpec(s, e, m, c, w, n).error.None? {
        EnrolKeepsLaterPending(s, m, c, w, n);
        var r := Enrolled(s, m, c, w, n).value;
        PushKeepsLaterPending(r.registrations, Registration(e, m, c, Pending));
        SaveKeepsLaterPending(s, r.(registrations := r.registrations + [Registration(e, m, c, Pending)]));
      }
    case Create(e, m, c, w, st, n, t) =>
      if Enrolled(s, m, c, w, n).Some? {
        EnrolKeepsLaterPending(s, m, c, w, n);
        SaveKeepsLaterPending(s, Enrolled(s, m, c, w, n).value);
        CreateSavesEnrolled(s, e, m, c, w, st, n, t);
        if Do(s, a).state.registrees != s.registrees {
          SameRegistreesSameLater(SaveRegistree(s, Enrolled(s, m, c, w, n).value), Do(s, a).state);
        }
      }
      if Do(s, a).state.registrees == s.registrees {
        SameRegistreesSameLater(s, Do(s, a).state);
      }
    case CheckIn(_) => SameRegistreesSameLater(s, Do(s, a).state);
    case Update(_, _) => SameRegistreesSameLater(s, Do(s, a).state);
    case _ =>
      var at := RegistreeById(s, a.registreeId);
      if at != -1 && RegistrationFor(s.registrees[at], a.eventId) != -1 {
        var status := match a case Approve(_, _, _) => Approved case Reject(_, _) => Rejected case _ => BlockedReg;
        SetStatusKeepsLaterPending(s, at, a.eventId, status);
        var saved := SetStatus(s, at, RegistrationFor(s.registrees[at], a.eventId), status);
        if Do(s, a).state.registrees == saved.registrees {
          SameRegistreesSameLater(saved, Do(s, a).state);
        }
      }
  }

  lemma CreateSavesEnrolled(s: State, eventId: string, email: string, contact: Contact, website: Option<string>,
                            status: Option<AttStatus>, newId: string, t: Ticket)
    ensures var rs := CreateSpec(s, eventId, email, contact, website, status, newId, t).state.registrees;
            var enrolled := Enrolled(s, email, contact, website, newId);
            rs == s.registrees || (enrolled.Some? && rs == SaveRegistree(s, enrolled.value).registrees)
  {
    hide Enrolled, SaveRegistree, Clashes, FirstIndex;
  }

  /** Over every run attendees stay filed and only first registrations are ever decided. */
  lemma {:induction false} RunsKeepFiled(s: State, actions: seq<Action>)
    requires Filed(s) && LaterPending(s)
    ensures Filed(Run(s, actions)) && LaterPending(Run(s, actions))
    decreases |actions|
  {
    hide Filed, LaterPending, Do;
    if actions != [] {
      StepKeepsFiled(s, actions[0]);
      StepKeepsLaterPending(s, actions[0]);
      RunsKeepFiled(Do(s, actions[0]).state, actions[1..]);
    }
  }

  // ---- Runs that lift a block, or check in twice ------------------------------------------------------

  lemma BlockLone(e: string, id: string, m: string, c: Contact, g: Registration)
    requires g.eventId == e
    ensures BlockSpec(Lone({e}, id, m, c, [g]), id, e).state == Lone({e}, id, m, c, [g.(status := BlockedReg)])
  {
    LoneIsFound({e}, id, m, c, [g]);
    assert [g][0 := g.(status := BlockedReg)] == [g.(status := BlockedReg)];
    assert AttendeeFor(Lone({e}, id, m, c, [g]), e, m) == -1;
  }

  lemma LoneIsBlockedIff(e: string, id: string, m: string, c: Contact, gs: seq<Registration>)
    ensures IsBlocked(Lone({e}, id, m, c, gs), m) <==> HasBlocked(gs)
  {
    hide IsBlocked, RegistrationsOf;
    IsBlockedIff(Lone({e}, id, m, c, gs), m);
    LoneIsFound({e}, id, m, c, gs);
  }

  /** Register, be blocked, be rejected, register again: the reject lifts the block. */
  lemma RejectLiftsBlock(e: string, m: string, c: Contact, id: string)
    ensures var first := Register(e, m, c, None, id);
            var blocked := Run(State({e}, [], []), [first, Block(id, e)]);
            var end := Run(blocked, [Reject(id, e), first]);
            && IsBlocked(blocked, m) && !IsBlocked(end, m)
            && RegistrationsOf(end, m) == [Registration(e, m, c, Rejected), Registration(e, m, c, Pending)]
  {
    hide RegisterSpec, BlockSpec, RejectSpec, IsBlocked, RegistrationsOf;
    var first, block, reject := Register(e, m, c, None, id), Block(id, e), Reject(id, e);
    var g := Registration(e, m, c, Pending);
    var past, shut := g.(status := Rejected), g.(status := BlockedReg);
    var s0, s1, s2 := State({e}, [], []), Lone({e}, id, m, c, [g]), Lone({e}, id, m, c, [shut]);
    var s3, s4 := Lone({e}, id, m, c, [past]), Lone({e}, id, m, c, [past, g]);
    FirstRegistration({e}, e, m, c, id);
    BlockLone(e, id, m, c, g);
    RejectLone(e, id, m, c, shut);
    RegisterAgain(e, m, c, id, past);
    LoneIsBlockedIff(e, id, m, c, [shut]);
    LoneIsBlockedIff(e, id, m, c, [past, g]);
    LoneIsFound({e}, id, m, c, [past, g]);
    assert [shut][0].status == BlockedReg;
    assert s2 == Run(s2, []) == Run(s1, [block]) == Run(s0, [first, block]);
    assert s4 == Run(s4, []) == Run(s3, [first]) == Run(s2, [reject, first]);
  }

  lemma CheckInLone(s: State, a: Attendee)
    requires s.attendees == [a] && a.status == Registered
    ensures var b := a.(status := CheckedIn, details := Attended(a.details, true));
            CheckInSpec(s, a.passCode) == Outcome(s.(attendees := [b]), None)
    ensures ChecksIn(s, Action.CheckIn(a.passCode), 0)
  {
    assert s.attendees[0] == a;
    assert AttendeeByPass(s, a.passCode) == 0;
  }

  lemma ResetLone(s: State, a: Attendee)
    requires s.attendees == [a]
    ensures var p := UNCHANGED.(status := Some(Registered));
            UpdateSpec(s, a.id, p) == Outcome(s.(attendees := [Patched(a, p)]), None)
    ensures Resets(s, Update(a.id, UNCHANGED.(status := Some(Registered))), 0)
    ensures Patched(a, UNCHANGED.(status := Some(Registered))).status == Registered
    ensures Patched(a, UNCHANGED.(status := Some(Registered))).passCode == a.passCode
  {
    hide PatchContact, PatchDetails;
    assert s.attendees[0] == a;
    assert AttendeeById(s, a.id) == 0;
  }

  lemma LoneAttendeeIsCheckedInTwice(s: State, a: Attendee)
    requires s.attendees == [a] && a.status == Registered
    ensures var again := Action.CheckIn(a.passCode);
            var run := [again, Update(a.id, UNCHANGED.(status := Some(Registered))), again];
            CheckIns(s, run, 0) == 2 && ResetCount(s, run, 0) == 1
  {
    hide CheckInSpec, UpdateSpec, Patched;
    var again, reset := Action.CheckIn(a.passCode), Update(a.id, UNCHANGED.(status := Some(Registered)));
    CheckInLone(s, a);
    var s1 := Do(s, again).state;
    var b := s1.attendees[0];
    assert s1.attendees == [b] && b.passCode == a.passCode && b.id == a.id;
    ResetLone(s1, b);
    var s2 := Do(s1, reset).state;
    var c := s2.attendees[0];
    assert s2.attendees == [c] && c.passCode == a.passCode;
    CheckInLone(s2, c);
    var s3 := Do(s2, again).state;
    assert [again][1..] == [] && [reset, again][1..] == [again] && [again, reset, again][1..] == [reset, again];
    assert CheckIns(s3, [], 0) == 0 && ResetCount(s3, [], 0) == 0;
    assert CheckIns(s2, [again], 0) == 1 && ResetCount(s2, [again], 0) == 0;
    assert CheckIns(s1, [reset, again], 0) == 1 && ResetCount(s1, [reset, again], 0) == 1;
  }

  /** The bound is reached: created, checked in, given back the registered status, checked in again. */
  lemma ResetAttendeeIsCheckedInTwice(e: string, m: string, c: Contact, id: string, t: Ticket)
    ensures var s := Do(State({e}, [], []), Create(e, m, c, None, None, id, t)).state;
            |s.attendees| == 1 &&
            var a := s.attendees[0];
            var again := Action.CheckIn(a.passCode);
            var run := [again, Update(a.id, UNCHANGED.(status := Some(Registered))), again];
            CheckIns(s, run, 0) == 2 && ResetCount(s, run, 0) == 1
  {
    var s := Do(State({e}, [], []), Create(e, m, c, None, None, id, t)).state;
    assert s.attendees == [s.attendees[0]] && s.attendees[0].status == Registered;
    LoneAttendeeIsCheckedInTwice(s, s.attendees[0]);
  }

  // ---- The run that leaves an approved registration behind ---------------------------------------

  const UNCHANGED := AttendeePatch(None, None, None, None, None, None)

  lemma ApproveFirst(events: set<string>, e: string, id: string, m: string, c: Contact, t: Ticket)
    requires e in events
    ensures var g := Registration(e, m, c, Pending);
            var r := Registree(id, m, c, None, [g.(status := Approved)]);
            ApproveSpec(Lone(events, id, m, c, [g]), id, e, t).state
            == State(events, [r], [Admitted(Registree(id, m, c, None, [g]), g, e, t)])
  {
    var g := Registration(e, m, c, Pending);
    LoneIsFound(events, id, m, c, [g]);
    assert [g][0 := g.(status := Approved)] == [g.(status := Approved)];
    var a := Admitted(Registree(id, m, c, None, [g]), g, e, t);
    assert [] + [a] == [a];
  }

  lemma MoveAbandons(s: State, r: Registree, a: Attendee, f: string)
    requires s.registrees == [r] && s.attendees == [a] && f in s.events && a.eventId != f
    requires a.registreeId == Some(r.id) && a.email == r.email && HasApproved(r, a.eventId)
    ensures Abandons(s, a.id, UNCHANGED.(eventId := Some(f)))
  {
    assert s.registrees[0] == r && s.attendees[0] == a;
    assert AttendeeById(s, a.id) == 0;
  }

  /** Register, approve, move to another event: the approved registration has no attendee any more. */
  lemma MovedAttendeeLeavesRegistration(e: string, f: string, m: string, c: Contact, id: string, t: Ticket)
    requires e != f
    ensures var move := Update(t.id, UNCHANGED.(eventId := Some(f)));
            !Backed(Run(State({e, f}, [], []), [Register(e, m, c, None, id), Approve(id, e, t), move]))
  {
    hide RegisterSpec, ApproveSpec, UpdateSpec, Backed, Keys, AllAgree, Abandons, Strands;
    var first, approve := Register(e, m, c, None, id), Approve(id, e, t);
    var move := Update(t.id, UNCHANGED.(eventId := Some(f)));
    var g := Registration(e, m, c, Pending);
    var s0, s1 := State({e, f}, [], []), Lone({e, f}, id, m, c, [g]);
    var r := Registree(id, m, c, None, [g.(status := Approved)]);
    var a := Admitted(Registree(id, m, c, None, [g]), g, e, t);
    var s2 := State({e, f}, [r], [a]);
    FirstRegistration({e, f}, e, m, c, id);
    ApproveFirst({e, f}, e, id, m, c, t);
    EmptyIsSound({e, f});
    StepKeepsSound(s0, first);
    StepKeepsSound(s1, approve);
    StepKeepsBackedIff(s0, first);
    assert r.registrations[0].status == Approved && HasApproved(r, e);
    MoveAbandons(s2, r, a, f);
    OneIsBacked(s2, r, a);
    StepKeepsBackedIff(s2, move);
    var s3 := Do(s2, move).state;
    assert s3 == Run(s3, []);
    assert s3 == Run(s2, [move]);
    assert s3 == Run(s1, [approve, move]);
    assert s3 == Run(s0, [first, approve, move]);
  }

  lemma EmptyIsSound(events: set<string>)
    ensures Sound(State(events, [], [])) && Backed(State(events, [], []))
  {
  }

  lemma OneIsBacked(s: State, r: Registree, a: Attendee)
    requires s.registrees == [r] && s.attendees == [a] && |r.registrations| == 1
    requires a.registreeId == Some(r.id) && a.email == r.email && a.eventId == r.registrations[0].eventId
    ensures Backed(s)
  {
    assert s.attendees[0] == a;
    assert Holds(s.attendees, r, a.eventId);
  }
}
