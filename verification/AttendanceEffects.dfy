/** What each attendance command refuses and stores, field by field. */
module AttendanceEffects {
  import opened Common
  import opened Attendance

  // ---- Who is meant -----------------------------------------------------------------------------

  /** The i-th registree is the first with its id. */
  ghost predicate FirstById(rs: seq<Registree>, i: nat) {
    i < |rs| && forall j | 0 <= j < i :: rs[j].id != rs[i].id
  }

  ghost predicate FirstByEmail(rs: seq<Registree>, i: nat, email: string) {
    i < |rs| && rs[i].email == email && forall j | 0 <= j < i :: rs[j].email != email
  }

  /** The g-th registration is the first for the event. */
  ghost predicate FirstForEvent(gs: seq<Registration>, g: nat, eventId: string) {
    g < |gs| && gs[g].eventId == eventId && forall j | 0 <= j < g :: gs[j].eventId != eventId
  }

  ghost predicate HasAttendee(s: State, eventId: string, email: string) {
    exists a :: a in s.attendees && a.eventId == eventId && a.email == email
  }

  ghost predicate TicketUsed(s: State, t: Ticket) {
    exists a :: a in s.attendees && (a.id == t.id || a.passCode == t.passCode)
  }

  /** All as before, but for the status of one registration of one registree. */
  ghost predicate OnlyStatusChanges(rs: seq<Registree>, ts: seq<Registree>, i: nat, g: nat, status: RegStatus)
    requires i < |rs| && g < |rs[i].registrations|
  {
    && |ts| == |rs| && (forall j | 0 <= j < |rs| && j != i :: ts[j] == rs[j])
    && ts[i].id == rs[i].id && ts[i].email == rs[i].email && ts[i].contact == rs[i].contact
    && ts[i].website == rs[i].website
    && var gs, hs := rs[i].registrations, ts[i].registrations;
       && |hs| == |gs| && (forall j | 0 <= j < |gs| && j != g :: hs[j] == gs[j])
       && hs[g].eventId == gs[g].eventId && hs[g].email == gs[g].email && hs[g].contact == gs[g].contact
       && hs[g].status == status
  }

  /** What is given wins, unless it is empty. */
  predicate Prefers(given: string, onFile: string, x: string) {
    (given != "" ==> x == given) && (given == "" ==> x == onFile)
  }

  predicate PrefersGiven(given: Contact, onFile: Contact, c: Contact) {
    && Prefers(given.countryCode, onFile.countryCode, c.countryCode) && Prefers(given.phone, onFile.phone, c.phone)
    && Prefers(given.organization, onFile.organization, c.organization)
  }

  /** An empty website counts as none. */
  predicate NonEmpty(given: Option<string>, stored: Option<string>) {
    if given == None || given == Some("") then stored == None else stored == given
  }

  /** The embedded details say what the attendee says. */
  ghost predicate Embeds(a: Attendee, attended: bool) {
    a.details.Some? &&
    var d := a.details.value;
    && d.contact == a.contact && d.website == a.website && d.eventId == a.eventId
    && d.passCode == a.passCode && d.qrCode == a.qrCode && d.attended == attended
  }

  ghost predicate HasTicket(a: Attendee, t: Ticket) {
    a.id == t.id && a.passCode == t.passCode && a.qrCode == t.qrCode
  }

  // ---- Registering --------------------------------------------------------------------------------

  ghost predicate ShutOut(s: State, email: string) {
    || (exists a :: a in s.attendees && a.email == email && a.status == BlockedAtt)
    || (exists i: nat :: FirstByEmail(s.registrees, i, email)
                    && exists g :: g in s.registrees[i].registrations && g.status == BlockedReg)
  }

  ghost predicate HasOpenRegistration(s: State, eventId: string, email: string) {
    exists i: nat :: FirstByEmail(s.registrees, i, email)
                && exists g :: g in s.registrees[i].registrations && g.eventId == eventId && g.status != Rejected
  }

  /** The refusals of a registration, in their order; the new id matters only for a new registree. */
  ghost function RegisterError(s: State, eventId: string, email: string, newId: string): Option<Error> {
    if eventId !in s.events then Some(NotFound)
    else if ShutOut(s, email) then Some(BadRequest)
    else if HasAttendee(s, eventId, email) || HasOpenRegistration(s, eventId, email) then Some(Conflict)
    else if (forall r | r in s.registrees :: r.email != email) && exists r :: r in s.registrees && r.id == newId then
      Some(DuplicateKey)
    else None
  }

  lemma EmailIsFirst(s: State, email: string)
    ensures var at := RegistreeByEmail(s, email);
            if at == -1 then forall r | r in s.registrees :: r.email != email
            else 0 <= at < |s.registrees| && FirstByEmail(s.registrees, at, email)
                 && forall i: nat :: FirstByEmail(s.registrees, i, email) ==> i == at
  {
  }

  lemma ShutOutIff(s: State, email: string)
    ensures ShutOut(s, email) <==> IsBlocked(s, email)
  {
    hide RegistreeByEmail, FirstByEmail;
    EmailIsFirst(s, email);
    NobodyIsFirst(s, email);
  }

  lemma NobodyIsFirst(s: State, email: string)
    ensures (forall r | r in s.registrees :: r.email != email) ==>
              forall i: nat :: !FirstByEmail(s.registrees, i, email)
  {
  }

  lemma AttendeeIff(s: State, eventId: string, email: string)
    ensures HasAttendee(s, eventId, email) <==> AttendeeFor(s, eventId, email) != -1
  {
    if HasAttendee(s, eventId, email) {
      var a :| a in s.attendees && a.eventId == eventId && a.email == email;
      var i :| 0 <= i < |s.attendees| && s.attendees[i] == a;
    }
  }

  lemma OpenIff(s: State, eventId: string, email: string)
    ensures var at := RegistreeByEmail(s, email);
            HasOpenRegistration(s, eventId, email)
            <==> at != -1 && OpenRegistrationFor(s.registrees[at], eventId) != -1
  {
    hide RegistreeByEmail, FirstByEmail;
    EmailIsFirst(s, email);
    NobodyIsFirst(s, email);
    var at := RegistreeByEmail(s, email);
    if at != -1 {
      var gs := s.registrees[at].registrations;
      if g :| g in gs && g.eventId == eventId && g.status != Rejected {
        var j :| 0 <= j < |gs| && gs[j] == g;
      }
    }
  }

  lemma IdIsUsedIff(s: State, id: string)
    ensures RegistreeById(s, id) != -1 <==> exists r :: r in s.registrees && r.id == id
  {
    if r :| r in s.registrees && r.id == id {
      var i :| 0 <= i < |s.registrees| && s.registrees[i] == r;
    }
  }

  lemma RegisterRefusals(s: State, eventId: string, email: string, contact: Contact, website: Option<string>,
                         newId: string)
    ensures var o := RegisterSpec(s, eventId, email, contact, website, newId);
            o.error == RegisterError(s, eventId, email, newId) && (o.error.Some? ==> o.state == s)
  {
    hide RegistreeByEmail, RegistreeById, AttendeeFor, OpenRegistrationFor, IsBlocked, ShutOut, HasAttendee,
      HasOpenRegistration, SaveRegistree;
    EmailIsFirst(s, email);
    ShutOutIff(s, email);
    AttendeeIff(s, eventId, email);
    OpenIff(s, eventId, email);
    IdIsUsedIff(s, newId);
  }

  /** A first registration adds a registree; a later one refreshes it. Either appends one pending entry. */
  lemma Registers(s: State, eventId: string, email: string, contact: Contact, website: Option<string>, newId: string)
    requires RegisterError(s, eventId, email, newId) == None
    ensures var t, n := RegisterSpec(s, eventId, email, contact, website, newId).state, |s.registrees|;
            var entry := Registration(eventId, email, contact, Pending);
            && t.events == s.events && t.attendees == s.attendees
            && ((forall r | r in s.registrees :: r.email != email) ==>
                  && |t.registrees| == n + 1 && t.registrees[..n] == s.registrees
                  && var r := t.registrees[n];
                     r.id == newId && r.email == email && r.contact == contact && NonEmpty(website, r.website)
                     && r.registrations == [entry])
            && forall i: nat | FirstByEmail(s.registrees, i, email) ::
                 IsRefreshed(s.registrees, t.registrees, i, contact, website, [entry])
  {
    hide RegistreeById, AttendeeFor, OpenRegistrationFor, IsBlocked, ShutOut, HasAttendee,
      HasOpenRegistration;
    RegisterRefusals(s, eventId, email, contact, website, newId);
    EmailIsFirst(s, email);
    NobodyIsFirst(s, email);
  }

  /** One registree has the new name and what else is given, and these registrations more; the others are as before. */
  ghost predicate IsRefreshed(rs: seq<Registree>, ts: seq<Registree>, i: nat, contact: Contact,
                              website: Option<string>, added: seq<Registration>)
    requires i < |rs|
  {
    && |ts| == |rs| && (forall j | 0 <= j < |rs| && j != i :: ts[j] == rs[j])
    && ts[i].id == rs[i].id && ts[i].email == rs[i].email
    && ts[i].contact.name == contact.name && PrefersGiven(contact, rs[i].contact, ts[i].contact)
    && (if website == None || website == Some("") then ts[i].website == rs[i].website else ts[i].website == website)
    && ts[i].registrations == rs[i].registrations + added
  }

  // ---- Approving ------------------------------------------------------------------------------------

  /** Without such a registree, or without a registration of it for the event, nothing happens. */
  lemma StrangersAreNotFound(s: State, registreeId: string, eventId: string, t: Ticket)
    requires forall i: nat | FirstById(s.registrees, i) && s.registrees[i].id == registreeId ::
               forall g | g in s.registrees[i].registrations :: g.eventId != eventId
    ensures ApproveSpec(s, registreeId, eventId, t) == Outcome(s, Some(NotFound))
    ensures RejectSpec(s, registreeId, eventId) == Outcome(s, Some(NotFound))
    ensures BlockSpec(s, registreeId, eventId) == Outcome(s, Some(NotFound))
  {
    var at := RegistreeById(s, registreeId);
    if at != -1 {
      assert FirstById(s.registrees, at);
    }
  }

  lemma IsMeant(s: State, i: nat, g: nat, eventId: string)
    requires FirstById(s.registrees, i) && FirstForEvent(s.registrees[i].registrations, g, eventId)
    ensures RegistreeById(s, s.registrees[i].id) == i
    ensures RegistrationFor(s.registrees[i], eventId) == g
  {
  }

  lemma StatusIsSet(s: State, i: nat, g: nat, status: RegStatus)
    requires i < |s.registrees| && g < |s.registrees[i].registrations|
    ensures var t := SetStatus(s, i, g, status);
            OnlyStatusChanges(s.registrees, t.registrees, i, g, status)
            && t.events == s.events && t.attendees == s.attendees
  {
  }

  /** The attendee that an approval makes of a registree and its registration. */
  ghost predicate IsAdmitted(r: Registree, g: Registration, eventId: string, t: Ticket, a: Attendee) {
    && HasTicket(a, t) && a.eventId == eventId && a.email == r.email && a.status == Registered
    && a.website == r.website && a.registreeId == Some(r.id)
    && Prefers(g.contact.name, r.contact.name, a.contact.name) && PrefersGiven(g.contact, r.contact, a.contact)
    && Embeds(a, false)
  }

  lemma AdmittedIs(r: Registree, g: Registration, eventId: string, t: Ticket)
    ensures IsAdmitted(r, g, eventId, t, Admitted(r, g, eventId, t))
  {
  }

  /**
   What approving the first registration for an event refuses and does. The registration is saved before the event
   is looked up and the ticket is checked.
   */
  lemma Approves(s: State, i: nat, g: nat, eventId: string, t: Ticket)
    requires FirstById(s.registrees, i) && FirstForEvent(s.registrees[i].registrations, g, eventId)
    ensures var r := s.registrees[i];
            var was := r.registrations[g];
            var o, n := ApproveSpec(s, r.id, eventId, t), |s.attendees|;
            if was.status == Approved || was.status == BlockedReg then o == Outcome(s, Some(BadRequest))
            else if HasAttendee(s, eventId, r.email) then o == Outcome(s, Some(Conflict))
            else
              && o.state.events == s.events
              && OnlyStatusChanges(s.registrees, o.state.registrees, i, g, Approved)
              && if eventId !in s.events then o.error == Some(NotFound) && o.state.attendees == s.attendees
                 else if TicketUsed(s, t) then o.error == Some(DuplicateKey) && o.state.attendees == s.attendees
                 else
                   && o.error == None && |o.state.attendees| == n + 1 && o.state.attendees[..n] == s.attendees
                   && IsAdmitted(r, was, eventId, t, o.state.attendees[n])
  {
    hide RegistreeById, RegistrationFor, AttendeeFor, SetStatus, OnlyStatusChanges, IsAdmitted, Admitted, HasAttendee;
    var r := s.registrees[i];
    IsMeant(s, i, g, eventId);
    AttendeeIff(s, eventId, r.email);
    StatusIsSet(s, i, g, Approved);
    var a := Admitted(r, r.registrations[g], eventId, t);
    AdmittedIs(r, r.registrations[g], eventId, t);
    if !HasAttendee(s, eventId, r.email) {
      ClashIsTicket(s, SetStatus(s, i, g, Approved), r, r.registrations[g], eventId, t);
    }
  }

  lemma ClashIsTicket(s: State, saved: State, r: Registree, g: Registration, eventId: string, t: Ticket)
    requires !HasAttendee(s, eventId, r.email) && saved.attendees == s.attendees
    ensures Clashes(saved, Admitted(r, g, eventId, t)) <==> TicketUsed(s, t)
  {
  }

  /** With the pass code of the new attendee, the next check-in succeeds and is recorded in both places. */
  lemma ApprovedMayCheckIn(s: State, i: nat, g: nat, eventId: string, t: Ticket)
    requires FirstById(s.registrees, i) && FirstForEvent(s.registrees[i].registrations, g, eventId)
    requires ApproveSpec(s, s.registrees[i].id, eventId, t).error == None
    ensures var before, n := ApproveSpec(s, s.registrees[i].id, eventId, t).state, |s.attendees|;
            var o := CheckInSpec(before, t.passCode);
            && o.error == None && n < |before.attendees| && |o.state.attendees| == |before.attendees|
            && before.attendees[n].passCode == t.passCode
            && ChecksInAt(before, o.state, n)
  {
    hide ApproveSpec, OnlyStatusChanges, HasAttendee, CheckInSpec;
    Approves(s, i, g, eventId, t);
    var before, n := ApproveSpec(s, s.registrees[i].id, eventId, t).state, |s.attendees|;
    forall j | 0 <= j < n
      ensures before.attendees[j].passCode != t.passCode
    {
      assert before.attendees[j] == before.attendees[..n][j] == s.attendees[j];
      assert s.attendees[j] in s.attendees;
    }
    ChecksIn(before, n);
  }

  // ---- Checking in -------------------------------------------------------------------------------------

  ghost predicate FirstByPass(xs: seq<Attendee>, k: nat) {
    k < |xs| && forall j | 0 <= j < k :: xs[j].passCode != xs[k].passCode
  }

  /** One attendee is checked in, and marked as attended if it has details; all else is as before. */
  ghost predicate ChecksInAt(s: State, t: State, k: nat)
    requires k < |s.attendees|
  {
    && t.events == s.events && t.registrees == s.registrees && |t.attendees| == |s.attendees|
    && (forall j | 0 <= j < |s.attendees| && j != k :: t.attendees[j] == s.attendees[j])
    && var a, b := s.attendees[k], t.attendees[k];
       && b.status == CheckedIn && b.(status := a.status, details := a.details) == a
       && (a.details.None? <==> b.details.None?)
       && (a.details.Some? ==>
             b.details.value.attended && b.details.value.(attended := a.details.value.attended) == a.details.value)
  }

  /** A pass code checks its attendee in, unless that is checked in or blocked. */
  lemma ChecksIn(s: State, k: nat)
    requires FirstByPass(s.attendees, k)
    ensures var o, status := CheckInSpec(s, s.attendees[k].passCode), s.attendees[k].status;
            if status == CheckedIn || status == BlockedAtt then o == Outcome(s, Some(BadRequest))
            else o.error == None && ChecksInAt(s, o.state, k)
  {
    assert AttendeeByPass(s, s.attendees[k].passCode) == k;
  }

  lemma UnknownPassCode(s: State, passCode: string)
    requires forall a | a in s.attendees :: a.passCode != passCode
    ensures CheckInSpec(s, passCode) == Outcome(s, Some(NotFound))
  {
  }

  // ---- Rejecting and blocking ---------------------------------------------------------------------------

  /** A rejection sets that status, whatever the registration was. */
  lemma Rejects(s: State, i: nat, g: nat, eventId: string)
    requires FirstById(s.registrees, i) && FirstForEvent(s.registrees[i].registrations, g, eventId)
    ensures var o := RejectSpec(s, s.registrees[i].id, eventId);
            && o.error == None && o.state.events == s.events && o.state.attendees == s.attendees
            && OnlyStatusChanges(s.registrees, o.state.registrees, i, g, Rejected)
  {
    hide RegistreeById, RegistrationFor, SetStatus, OnlyStatusChanges;
    IsMeant(s, i, g, eventId);
    StatusIsSet(s, i, g, Rejected);
  }

  /** A block sets that status on the registration, and on the first attendee of the event and e-mail. */
  lemma Blocks(s: State, i: nat, g: nat, eventId: string)
    requires FirstById(s.registrees, i) && FirstForEvent(s.registrees[i].registrations, g, eventId)
    ensures var o, email := BlockSpec(s, s.registrees[i].id, eventId), s.registrees[i].email;
            && o.error == None && o.state.events == s.events
            && OnlyStatusChanges(s.registrees, o.state.registrees, i, g, BlockedReg)
            && |o.state.attendees| == |s.attendees|
            && forall j | 0 <= j < |s.attendees| ::
                 var a, b := s.attendees[j], o.state.attendees[j];
                 if a.eventId == eventId && a.email == email
                    && forall h | 0 <= h < j :: s.attendees[h].eventId != eventId || s.attendees[h].email != email
                 then b.status == BlockedAtt && b.(status := a.status) == a
                 else b == a
  {
    hide RegistreeById, RegistrationFor, SetStatus, OnlyStatusChanges;
    IsMeant(s, i, g, eventId);
    StatusIsSet(s, i, g, BlockedReg);
  }

  // ---- Attendees entered and changed by an administrator -----------------------------------------------

  /** A new attendee under this ticket, with the details given, filed under this registree. */
  ghost predicate IsEntered(eventId: string, email: string, contact: Contact, website: Option<string>,
                            status: Option<AttStatus>, registreeId: Option<string>, t: Ticket, a: Attendee) {
    && HasTicket(a, t) && a.eventId == eventId && a.email == email && a.contact == contact
    && NonEmpty(website, a.website) && a.registreeId == registreeId
    && (if status.Some? then status == Some(a.status) else a.status == Registered)
    && Embeds(a, status == Some(CheckedIn))
  }

  /** The registree of the e-mail is created or refreshed; None if its new id is taken, which leaves all as it was. */
  ghost predicate Enrols(s: State, ts: seq<Registree>, email: string, contact: Contact, website: Option<string>,
                         newId: string, registreeId: Option<string>) {
    var n := |s.registrees|;
    && (forall i: nat | FirstByEmail(s.registrees, i, email) ::
          registreeId == Some(s.registrees[i].id)
          && IsRefreshed(s.registrees, ts, i, contact, website, []))
    && ((forall r | r in s.registrees :: r.email != email) ==>
          if exists r :: r in s.registrees && r.id == newId then registreeId == None && ts == s.registrees
          else
            && registreeId == Some(newId) && |ts| == n + 1 && ts[..n] == s.registrees
            && var r := ts[n];
               r.id == newId && r.email == email && r.contact == contact && NonEmpty(website, r.website)
               && r.registrations == [])
  }

  lemma EnrolledIs(s: State, email: string, contact: Contact, website: Option<string>, newId: string)
    ensures var enrolled := Enrolled(s, email, contact, website, newId);
            var saved := if enrolled.Some? then SaveRegistree(s, enrolled.value) else s;
            && saved.events == s.events && saved.attendees == s.attendees
            && Enrols(s, saved.registrees, email, contact, website, newId,
                      if enrolled.Some? then Some(enrolled.value.id) else None)
  {
    hide RegistreeById;
    EmailIsFirst(s, email);
    NobodyIsFirst(s, email);
    IdIsUsedIff(s, newId);
  }

  /** What an administrator's entry refuses and does: its registree is saved before the ticket is checked. */
  lemma Enters(s: State, eventId: string, email: string, contact: Contact, website: Option<string>,
               status: Option<AttStatus>, newId: string, t: Ticket)
    ensures var o, n := CreateSpec(s, eventId, email, contact, website, status, newId, t), |s.attendees|;
            if eventId !in s.events then o == Outcome(s, Some(NotFound))
            else if HasAttendee(s, eventId, email) then o == Outcome(s, Some(Conflict))
            else
              && o.state.events == s.events
              && exists registreeId ::
                   && Enrols(s, o.state.registrees, email, contact, website, newId, registreeId)
                   && if TicketUsed(s, t) then o.error == Some(DuplicateKey) && o.state.attendees == s.attendees
                      else
                        && o.error == None && |o.state.attendees| == n + 1 && o.state.attendees[..n] == s.attendees
                        && IsEntered(eventId, email, contact, website, status, registreeId, t, o.state.attendees[n])
  {
    hide Enrolled, SaveRegistree, AttendeeFor, HasAttendee, Enrols;
    AttendeeIff(s, eventId, email);
    EnrolledIs(s, email, contact, website, newId);
    if eventId in s.events && !HasAttendee(s, eventId, email) {
      EntersFree(s, eventId, email, contact, website, status, newId, t);
      var enrolled := Enrolled(s, email, contact, website, newId);
      var registreeId := if enrolled.Some? then Some(enrolled.value.id) else None;
      var o := CreateSpec(s, eventId, email, contact, website, status, newId, t);
      assert Enrols(s, o.state.registrees, email, contact, website, newId, registreeId);
    }
  }

  lemma EntersFree(s: State, eventId: string, email: string, contact: Contact, website: Option<string>,
                   status: Option<AttStatus>, newId: string, t: Ticket)
    requires eventId in s.events && !HasAttendee(s, eventId, email)
    ensures var o, n := CreateSpec(s, eventId, email, contact, website, status, newId, t), |s.attendees|;
            var enrolled := Enrolled(s, email, contact, website, newId);
            var registreeId := if enrolled.Some? then Some(enrolled.value.id) else None;
            && o.state.registrees == (if enrolled.Some? then SaveRegistree(s, enrolled.value) else s).registrees
            && if TicketUsed(s, t) then o.error == Some(DuplicateKey) && o.state.attendees == s.attendees
               else
                 && o.error == None && |o.state.attendees| == n + 1 && o.state.attendees[..n] == s.attendees
                 && IsEntered(eventId, email, contact, website, status, registreeId, t, o.state.attendees[n])
  {
    hide Enrolled, RegistreeByEmail, AttendeeFor;
    AttendeeIff(s, eventId, email);
  }

  /** With the pass code of the new attendee a check-in succeeds, unless it was entered as checked in or blocked. */
  lemma EnteredMayCheckIn(s: State, eventId: string, email: string, contact: Contact, website: Option<string>,
                          status: Option<AttStatus>, newId: string, t: Ticket)
    requires CreateSpec(s, eventId, email, contact, website, status, newId, t).error == None
    ensures var before, n := CreateSpec(s, eventId, email, contact, website, status, newId, t).state, |s.attendees|;
            var o := CheckInSpec(before, t.passCode);
            && n < |before.attendees| && before.attendees[n].passCode == t.passCode
            && if status == Some(CheckedIn) || status == Some(BlockedAtt) then o == Outcome(before, Some(BadRequest))
               else o.error == None && ChecksInAt(before, o.state, n)
  {
    hide CreateSpec, HasAttendee, CheckInSpec, Enrols;
    Enters(s, eventId, email, contact, website, status, newId, t);
    var before, n := CreateSpec(s, eventId, email, contact, website, status, newId, t).state, |s.attendees|;
    forall j | 0 <= j < n
      ensures before.attendees[j].passCode != t.passCode
    {
      assert before.attendees[j] == before.attendees[..n][j] == s.attendees[j];
      assert s.attendees[j] in s.attendees;
    }
    ChecksIn(before, n);
  }

  /** An update's contact: what is given replaces what was there, the empty text included; the name stays. */
  ghost predicate PatchesContact(c: Contact, p: AttendeePatch, d: Contact) {
    && d.name == c.name
    && (if p.countryCode.Some? then p.countryCode == Some(d.countryCode) else d.countryCode == c.countryCode)
    && (if p.phone.Some? then p.phone == Some(d.phone) else d.phone == c.phone)
    && (if p.organization.Some? then p.organization == Some(d.organization) else d.organization == c.organization)
  }

  ghost predicate PatchesWebsite(was: Option<string>, given: Option<string>, now: Option<string>) {
    if given.Some? then NonEmpty(given, now) else now == was
  }

  /**
   An update writes the given fields to the attendee and to its details. The attended flag is lifted by a status
   other than checked in, and set by a change to checked in.
   */
  ghost predicate IsPatched(a: Attendee, p: AttendeePatch, b: Attendee) {
    && b.id == a.id && b.email == a.email && b.registreeId == a.registreeId
    && b.passCode == a.passCode && b.qrCode == a.qrCode
    && PatchesContact(a.contact, p, b.contact) && PatchesWebsite(a.website, p.website, b.website)
    && (if p.eventId.Some? then p.eventId == Some(b.eventId) else b.eventId == a.eventId)
    && (if p.status.Some? then p.status == Some(b.status) else b.status == a.status)
    && (a.details.None? <==> b.details.None?)
    && (a.details.Some? ==>
          var d, e := a.details.value, b.details.value;
          && e.passCode == d.passCode && e.qrCode == d.qrCode
          && PatchesContact(d.contact, p, e.contact) && PatchesWebsite(d.website, p.website, e.website)
          && (if p.eventId.Some? then p.eventId == Some(e.eventId) else e.eventId == d.eventId)
          && (p.status.Some? && p.status != Some(CheckedIn) ==> !e.attended)
          && (p.status == Some(CheckedIn) && a.status != CheckedIn ==> e.attended)
          && (p.status.None? || (p.status == Some(CheckedIn) && a.status == CheckedIn) ==> e.attended == d.attended))
  }

  /** What an update refuses and does to the first attendee with the id. */
  lemma Updates(s: State, k: nat, p: AttendeePatch)
    requires k < |s.attendees| && forall j | 0 <= j < k :: s.attendees[j].id != s.attendees[k].id
    ensures var a := s.attendees[k];
            var o := UpdateSpec(s, a.id, p);
            var eventId := if p.eventId.Some? then p.eventId.value else a.eventId;
            if p.eventId.Some? && p.eventId.value !in s.events then o == Outcome(s, Some(NotFound))
            else if exists b :: b in s.attendees && b.id != a.id && b.eventId == eventId && b.email == a.email then
              o == Outcome(s, Some(DuplicateKey))
            else
              && o.error == None && o.state.events == s.events && o.state.registrees == s.registrees
              && |o.state.attendees| == |s.attendees|
              && (forall j | 0 <= j < |s.attendees| && j != k :: o.state.attendees[j] == s.attendees[j])
              && IsPatched(a, p, o.state.attendees[k])
  {
    hide IsPatched, PatchDetails, PatchContact;
    assert AttendeeById(s, s.attendees[k].id) == k;
    PatchedIs(s.attendees[k], p);
  }

  lemma PatchedIs(a: Attendee, p: AttendeePatch)
    ensures IsPatched(a, p, Patched(a, p))
  {
  }

  lemma UnknownAttendee(s: State, id: string, p: AttendeePatch)
    requires forall a | a in s.attendees :: a.id != id
    ensures UpdateSpec(s, id, p) == Outcome(s, Some(NotFound))
  {
    hide Patched;
  }
}
