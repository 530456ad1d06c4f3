/**
 Registrations and attendance (src/modules/attendees/attendees.service.ts).

 A registree carries a list of registrations; approving one creates an attendee with a pass code
 and an embedded copy of its details. Documents are never removed here, e-mails are normalised,
 and pass code, QR code and ids are handed in where the service draws them.
 */
module Attendance {
  import opened Common

  datatype RegStatus = Pending | Approved | Rejected | BlockedReg

  datatype AttStatus = Invited | Registered | CheckedIn | BlockedAtt | RejectedAtt

  datatype Contact = Contact(name: string, countryCode: string, phone: string, organization: string)

  datatype Registration = Registration(eventId: string, email: string, contact: Contact, status: RegStatus)

  datatype Registree = Registree(
    id: string, email: string, contact: Contact, website: Option<string>, registrations: seq<Registration>)

  datatype Details = Details(
    contact: Contact, website: Option<string>, eventId: string, passCode: string, qrCode: string, attended: bool)

  datatype Attendee = Attendee(
    id: string, eventId: string, email: string, contact: Contact, website: Option<string>,
    registreeId: Option<string>, passCode: string, qrCode: string, status: AttStatus, details: Option<Details>)

  datatype State = State(events: set<string>, registrees: seq<Registree>, attendees: seq<Attendee>)

  datatype Error = NotFound | BadRequest | Conflict | DuplicateKey

  datatype Outcome = Outcome(state: State, error: Option<Error>)

  /** The id, pass code and QR code drawn for a new attendee. */
  datatype Ticket = Ticket(id: string, passCode: string, qrCode: string)

  datatype AttendeePatch = AttendeePatch(
    status: Option<AttStatus>, organization: Option<string>, countryCode: Option<string>,
    phone: Option<string>, eventId: Option<string>, website: Option<string>)

  // ---- Queries ---------------------------------------------------------------------------

  function RegistreeByEmail(s: State, email: string): int {
    FirstIndex(s.registrees, (r: Registree) => r.email == email)
  }

  function RegistreeById(s: State, id: string): int {
    FirstIndex(s.registrees, (r: Registree) => r.id == id)
  }

  function AttendeeFor(s: State, eventId: string, email: string): int {
    FirstIndex(s.attendees, (a: Attendee) => a.eventId == eventId && a.email == email)
  }

  function AttendeeByPass(s: State, passCode: string): int {
    FirstIndex(s.attendees, (a: Attendee) => a.passCode == passCode)
  }

  function AttendeeById(s: State, id: string): int {
    FirstIndex(s.attendees, (a: Attendee) => a.id == id)
  }

  /** The first registration for an event, whatever its status. */
  function RegistrationFor(r: Registree, eventId: string): int {
    FirstIndex(r.registrations, (g: Registration) => g.eventId == eventId)
  }

  /** The first one that was not rejected. */
  function OpenRegistrationFor(r: Registree, eventId: string): int {
    FirstIndex(r.registrations, (g: Registration) => g.eventId == eventId && g.status != Rejected)
  }

  predicate IsBlocked(s: State, email: string) {
    || (exists a :: a in s.attendees && a.email == email && a.status == BlockedAtt)
    || (var at := RegistreeByEmail(s, email);
        at != -1 && exists g :: g in s.registrees[at].registrations && g.status == BlockedReg)
  }

  /** New details win, but an empty field keeps what is on file; the name always changes. */
  function Refresh(current: Contact, given: Contact): Contact {
    Contact(given.name, OrElse(given.countryCode, current.countryCode), OrElse(given.phone, current.phone),
            OrElse(given.organization, current.organization))
  }

  function Fallback(given: Contact, onFile: Contact): Contact {
    Contact(OrElse(given.name, onFile.name), OrElse(given.countryCode, onFile.countryCode),
            OrElse(given.phone, onFile.phone), OrElse(given.organization, onFile.organization))
  }

  /** The registree document under an e-mail, created or refreshed; None when its new id is taken. */
  function Enrolled(s: State, email: string, contact: Contact, website: Option<string>, newId: string)
    : Option<Registree>
  {
    var at := RegistreeByEmail(s, email);
    if at == -1 then
      if RegistreeById(s, newId) != -1 then None else Some(Registree(newId, email, contact, Truthy(website), []))
    else
      var r := s.registrees[at];
      Some(r.(contact := Refresh(r.contact, contact),
              website := if Truthy(website).Some? then website else r.website))
  }

  function SaveRegistree(s: State, r: Registree): State {
    var at := RegistreeByEmail(s, r.email);
    s.(registrees := if at == -1 then s.registrees + [r] else s.registrees[at := r])
  }

  function SetStatus(s: State, at: nat, g: nat, status: RegStatus): State
    requires at < |s.registrees| && g < |s.registrees[at].registrations|
  {
    var r := s.registrees[at];
    var changed := r.registrations[g].(status := status);
    s.(registrees := s.registrees[at := r.(registrations := r.registrations[g := changed])])
  }

  /** The unique indexes on attendees: pass code, and event with e-mail (and the id). */
  predicate Clashes(s: State, a: Attendee) {
    exists b :: b in s.attendees
                && (b.id == a.id || b.passCode == a.passCode || (b.eventId == a.eventId && b.email == a.email))
  }

  function SaveNewAttendee(s: State, a: Attendee): Outcome {
    if Clashes(s, a) then Outcome(s, Some(DuplicateKey))
    else Outcome(s.(attendees := s.attendees + [a]), None)
  }

  // ---- Commands -----------------------------------------------------------------------------

  function RegisterSpec(s: State, eventId: string, email: string, contact: Contact,
                        website: Option<string>, newId: string): Outcome {
    var at := RegistreeByEmail(s, email);
    if eventId !in s.events then Outcome(s, Some(NotFound))
    else if IsBlocked(s, email) then Outcome(s, Some(BadRequest))
    else if AttendeeFor(s, eventId, email) != -1 then Outcome(s, Some(Conflict))
    else if at != -1 && OpenRegistrationFor(s.registrees[at], eventId) != -1 then Outcome(s, Some(Conflict))
    else
      match Enrolled(s, email, contact, website, newId)
      case None => Outcome(s, Some(DuplicateKey))
      case Some(r) =>
        var pending := Registration(eventId, email, contact, Pending);
        Outcome(SaveRegistree(s, r.(registrations := r.registrations + [pending])), None)
  }

  function Admitted(r: Registree, g: Registration, eventId: string, t: Ticket): Attendee {
    var contact := Fallback(g.contact, r.contact);
    Attendee(t.id, eventId, r.email, contact, r.website, Some(r.id), t.passCode, t.qrCode, Registered,
             Some(Details(contact, r.website, eventId, t.passCode, t.qrCode, false)))
  }

  /** The registration is saved before the event is looked up and the attendee is saved. */
  function ApproveSpec(s: State, registreeId: string, eventId: string, t: Ticket): Outcome {
    var at := RegistreeById(s, registreeId);
    if at == -1 then Outcome(s, Some(NotFound))
    else
      var r := s.registrees[at];
      var g := RegistrationFor(r, eventId);
      if g == -1 then Outcome(s, Some(NotFound))
      else if r.registrations[g].status == Approved || r.registrations[g].status == BlockedReg then
        Outcome(s, Some(BadRequest))
      else if AttendeeFor(s, eventId, r.email) != -1 then Outcome(s, Some(Conflict))
      else
        var saved := SetStatus(s, at, g, Approved);
        if eventId !in s.events then Outcome(saved, Some(NotFound))
        else SaveNewAttendee(saved, Admitted(r, r.registrations[g], eventId, t))
  }

  function RejectSpec(s: State, registreeId: string, eventId: string): Outcome {
    var at := RegistreeById(s, registreeId);
    if at == -1 then Outcome(s, Some(NotFound))
    else
      var g := RegistrationFor(s.registrees[at], eventId);
      if g == -1 then Outcome(s, Some(NotFound)) else Outcome(SetStatus(s, at, g, Rejected), None)
  }

  function BlockSpec(s: State, registreeId: string, eventId: string): Outcome {
    var at := RegistreeById(s, registreeId);
    if at == -1 then Outcome(s, Some(NotFound))
    else
      var r := s.registrees[at];
      var g := RegistrationFor(r, eventId);
      if g == -1 then Outcome(s, Some(NotFound))
      else
        var saved := SetStatus(s, at, g, BlockedReg);
        var i := AttendeeFor(s, eventId, r.email);
        Outcome(if i == -1 then saved
                else saved.(attendees := s.attendees[i := s.attendees[i].(status := BlockedAtt)]), None)
  }

  function Attended(d: Option<Details>, attended: bool): Option<Details> {
    if d.Some? then Some(d.value.(attended := attended)) else None
  }

  function CheckInSpec(s: State, passCode: string): Outcome {
    var i := AttendeeByPass(s, passCode);
    if i == -1 then Outcome(s, Some(NotFound))
    else
      var a := s.attendees[i];
      if a.status == CheckedIn || a.status == BlockedAtt then Outcome(s, Some(BadRequest))
      else
        Outcome(s.(attendees := s.attendees[i := a.(status := CheckedIn, details := Attended(a.details, true))]), None)
  }

  /** An attendee entered by an administrator; failing to enrol the registree is logged and ignored. */
  function CreateSpec(s: State, eventId: string, email: string, contact: Contact, website: Option<string>,
                      status: Option<AttStatus>, newId: string, t: Ticket): Outcome {
    if eventId !in s.events then Outcome(s, Some(NotFound))
    else if AttendeeFor(s, eventId, email) != -1 then Outcome(s, Some(Conflict))
    else
      var enrolled := Enrolled(s, email, contact, website, newId);
      var saved := if enrolled.Some? then SaveRegistree(s, enrolled.value) else s;
      var registreeId := if enrolled.Some? then Some(enrolled.value.id) else None;
      SaveNewAttendee(saved, Attendee(
        t.id, eventId, email, contact, Truthy(website), registreeId, t.passCode, t.qrCode,
        if status.Some? then status.value else Registered,
        Some(Details(contact, Truthy(website), eventId, t.passCode, t.qrCode, status == Some(CheckedIn)))))
  }

  function PatchContact(c: Contact, p: AttendeePatch): Contact {
    Contact(c.name,
            if p.countryCode.Some? then p.countryCode.value else c.countryCode,
            if p.phone.Some? then p.phone.value else c.phone,
            if p.organization.Some? then p.organization.value else c.organization)
  }

  function PatchDetails(d: Details, p: AttendeePatch, was: AttStatus): Details {
    Details(PatchContact(d.contact, p),
            if p.website.Some? then Truthy(p.website) else d.website,
            if p.eventId.Some? then p.eventId.value else d.eventId,
            d.passCode, d.qrCode,
            if p.status.None? then d.attended
            else if p.status.value != CheckedIn then false
            else if was != CheckedIn then true
            else d.attended)
  }

  function Patched(a: Attendee, p: AttendeePatch): Attendee {
    a.(contact := PatchContact(a.contact, p),
       website := if p.website.Some? then Truthy(p.website) else a.website,
       eventId := if p.eventId.Some? then p.eventId.value else a.eventId,
       status := if p.status.Some? then p.status.value else a.status,
       details := if a.details.Some? then Some(PatchDetails(a.details.value, p, a.status)) else None)
  }

  function UpdateSpec(s: State, id: string, p: AttendeePatch): Outcome {
    var i := AttendeeById(s, id);
    if i == -1 then Outcome(s, Some(NotFound))
    else if p.eventId.Some? && p.eventId.value !in s.events then Outcome(s, Some(NotFound))
    else
      var a := Patched(s.attendees[i], p);
      if exists b :: b in s.attendees && b.id != id && b.eventId == a.eventId && b.email == a.email then
        Outcome(s, Some(DuplicateKey))
      else Outcome(s.(attendees := s.attendees[i := a]), None)
  }

  // ---- Runs ----------------------------------------------------------------------------------

  datatype Action =
    | Register(eventId: string, email: string, contact: Contact, website: Option<string>, newId: string)
    | Approve(registreeId: string, eventId: string, ticket: Ticket)
    | Reject(registreeId: string, eventId: string)
    | Block(registreeId: string, eventId: string)
    | CheckIn(passCode: string)
    | Create(eventId: string, email: string, contact: Contact, website: Option<string>,
             status: Option<AttStatus>, newId: string, ticket: Ticket)
    | Update(id: string, patch: AttendeePatch)

  function Do(s: State, a: Action): Outcome {
    match a
    case Register(e, m, c, w, n) => RegisterSpec(s, e, m, c, w, n)
    case Approve(r, e, t) => ApproveSpec(s, r, e, t)
    case Reject(r, e) => RejectSpec(s, r, e)
    case Block(r, e) => BlockSpec(s, r, e)
    case CheckIn(p) => CheckInSpec(s, p)
    case Create(e, m, c, w, st, n, t) => CreateSpec(s, e, m, c, w, st, n, t)
    case Update(id, p) => UpdateSpec(s, id, p)
  }

  function Run(s: State, actions: seq<Action>): State
    decreases |actions|
  {
    if actions == [] then s else Run(Do(s, actions[0]).state, actions[1..])
  }

  // ---- The service ------------------------------------------------------------------------------

  class AttendeesService {
    const events: set<string>
    var registrees: seq<Registree>
    var attendees: seq<Attendee>

    ghost function View(): State
      reads this
    {
      State(events, registrees, attendees)
    }

    constructor (events: set<string>)
      ensures View() == State(events, [], [])
    {
      this.events := events;
      registrees, attendees := [], [];
    }

    /** New details win, but an empty field keeps what is on file. */
    method Refreshed(registree: Registree, contact: Contact, website: Option<string>) returns (r: Registree)
      ensures r == registree.(contact := Refresh(registree.contact, contact),
                              website := if Truthy(website).Some? then website else registree.website)
    {
      r := registree;
      r := r.(contact := r.contact.(name := contact.name));
      if contact.countryCode != "" {
        r := r.(contact := r.contact.(countryCode := contact.countryCode));
      }
      if contact.phone != "" {
        r := r.(contact := r.contact.(phone := contact.phone));
      }
      if contact.organization != "" {
        r := r.(contact := r.contact.(organization := contact.organization));
      }
      if website.Some? && website.value != "" {
        r := r.(website := website);
      }
    }

    method Register(eventId: string, email: string, contact: Contact, website: Option<string>, newId: string)
      returns (error: Option<Error>)
      modifies this
      ensures Outcome(View(), error) == RegisterSpec(old(View()), eventId, email, contact, website, newId)
    {
      if eventId !in events {
        return Some(NotFound);
      }
      var now := State(events, registrees, attendees);
      var at := RegistreeByEmail(now, email);
      if IsBlocked(now, email) {
        return Some(BadRequest);
      }
      if AttendeeFor(now, eventId, email) != -1 {
        return Some(Conflict);
      }
      if at != -1 {
        var open := OpenRegistrationFor(registrees[at], eventId);
        if open != -1 {
          return Some(Conflict);
        }
      }
      var entry := Registration(eventId, email, contact, Pending);
      if at == -1 {
        if RegistreeById(now, newId) != -1 {
          return Some(DuplicateKey);
        }
        var r := Registree(newId, email, contact, Truthy(website), []);
        r := r.(registrations := r.registrations + [entry]);
        registrees := registrees + [r];
      } else {
        var r := Refreshed(registrees[at], contact, website);
        r := r.(registrations := r.registrations + [entry]);
        registrees := registrees[at := r];
      }
      error := None;
    }

    method ApproveRegistration(registreeId: string, eventId: string, ticket: Ticket) returns (error: Option<Error>)
      modifies this
      ensures Outcome(View(), error) == ApproveSpec(old(View()), registreeId, eventId, ticket)
    {
      var now := State(events, registrees, attendees);
      var at := RegistreeById(now, registreeId);
      if at == -1 {
        return Some(NotFound);
      }
      var r := registrees[at];
      var g := RegistrationFor(r, eventId);
      if g == -1 {
        return Some(NotFound);
      }
      var registration := r.registrations[g];
      if registration.status == Approved || registration.status == BlockedReg {
        return Some(BadRequest);
      }
      if AttendeeFor(now, eventId, r.email) != -1 {
        return Some(Conflict);
      }
      registrees := registrees[at := r.(registrations := r.registrations[g := registration.(status := Approved)])];
      if eventId !in events {
        return Some(NotFound);
      }
      var attendee := Admitted(r, registration, eventId, ticket);
      if Clashes(State(events, registrees, attendees), attendee) {
        return Some(DuplicateKey);
      }
      attendees := attendees + [attendee];
      error := None;
    }

    method RejectRegistration(registreeId: string, eventId: string) returns (error: Option<Error>)
      modifies this
      ensures Outcome(View(), error) == RejectSpec(old(View()), registreeId, eventId)
    {
      var at := RegistreeById(State(events, registrees, attendees), registreeId);
      if at == -1 {
        return Some(NotFound);
      }
      var r := registrees[at];
      var g := RegistrationFor(r, eventId);
      if g == -1 {
        return Some(NotFound);
      }
      var changed := r.registrations[g].(status := Rejected);
      registrees := registrees[at := r.(registrations := r.registrations[g := changed])];
      error := None;
    }

    method BlockRegistration(registreeId: string, eventId: string) returns (error: Option<Error>)
      modifies this
      ensures Outcome(View(), error) == BlockSpec(old(View()), registreeId, eventId)
    {
      var at := RegistreeById(State(events, registrees, attendees), registreeId);
      if at == -1 {
        return Some(NotFound);
      }
      var r := registrees[at];
      var g := RegistrationFor(r, eventId);
      if g == -1 {
        return Some(NotFound);
      }
      var changed := r.registrations[g].(status := BlockedReg);
      registrees := registrees[at := r.(registrations := r.registrations[g := changed])];
      var i := AttendeeFor(State(events, registrees, attendees), eventId, r.email);
      if i != -1 {
        attendees := attendees[i := attendees[i].(status := BlockedAtt)];
      }
      error := None;
    }

    method CheckIn(passCode: string) returns (error: Option<Error>)
      modifies this
      ensures Outcome(View(), error) == CheckInSpec(old(View()), passCode)
    {
      var i := AttendeeByPass(State(events, registrees, attendees), passCode);
      if i == -1 {
        return Some(NotFound);
      }
      var attendee := attendees[i];
      if attendee.status == CheckedIn {
        return Some(BadRequest);
      }
      if attendee.status == BlockedAtt {
        return Some(BadRequest);
      }
      attendee := attendee.(status := CheckedIn);
      if attendee.details.Some? {
        attendee := attendee.(details := Some(attendee.details.value.(attended := true)));
      }
      attendees := attendees[i := attendee];
      error := None;
    }

    method Create(eventId: string, email: string, contact: Contact, website: Option<string>,
                  status: Option<AttStatus>, newId: string, ticket: Ticket) returns (error: Option<Error>)
      modifies this
      ensures Outcome(View(), error) == CreateSpec(old(View()), eventId, email, contact, website, status, newId, ticket)
    {
      if eventId !in events {
        return Some(NotFound);
      }
      var now := State(events, registrees, attendees);
      if AttendeeFor(now, eventId, email) != -1 {
        return Some(Conflict);
      }
      var registreeId: Option<string> := None;
      var at := RegistreeByEmail(now, email);
      if at == -1 {
        if RegistreeById(now, newId) == -1 {
          registrees := registrees + [Registree(newId, email, contact, Truthy(website), [])];
          registreeId := Some(newId);
        }
      } else {
        var r := Refreshed(registrees[at], contact, website);
        registrees := registrees[at := r];
        registreeId := Some(r.id);
      }
      var attendee := Attendee(
        ticket.id, eventId, email, contact, Truthy(website), registreeId, ticket.passCode, ticket.qrCode,
        if status.Some? then status.value else Registered,
        Some(Details(contact, Truthy(website), eventId, ticket.passCode, ticket.qrCode, status == Some(CheckedIn))));
      if Clashes(State(events, registrees, attendees), attendee) {
        return Some(DuplicateKey);
      }
      attendees := attendees + [attendee];
      error := None;
    }

    method PatchedContact(contact: Contact, patch: AttendeePatch) returns (c: Contact)
      ensures c == PatchContact(contact, patch)
    {
      c := contact;
      if patch.organization.Some? {
        c := c.(organization := patch.organization.value);
      }
      if patch.countryCode.Some? {
        c := c.(countryCode := patch.countryCode.value);
      }
      if patch.phone.Some? {
        c := c.(phone := patch.phone.value);
      }
    }

    method Update(id: string, patch: AttendeePatch) returns (error: Option<Error>)
      modifies this
      ensures Outcome(View(), error) == UpdateSpec(old(View()), id, patch)
    {
      hide FirstIndex, PatchContact;
      var i := AttendeeById(State(events, registrees, attendees), id);
      if i == -1 {
        return Some(NotFound);
      }
      var a := attendees[i];
      if patch.status.Some? {
        if patch.status.value == CheckedIn && a.status != CheckedIn {
          a := a.(details := Attended(a.details, true));
        } else if patch.status.value != CheckedIn {
          a := a.(details := Attended(a.details, false));
        }
        a := a.(status := patch.status.value);
      }
      var contact := PatchedContact(a.contact, patch);
      a := a.(contact := contact);
      if a.details.Some? {
        contact := PatchedContact(a.details.value.contact, patch);
        a := a.(details := Some(a.details.value.(contact := contact)));
      }
      if patch.eventId.Some? {
        if patch.eventId.value !in events {
          return Some(NotFound);
        }
        a := a.(eventId := patch.eventId.value);
        if a.details.Some? {
          a := a.(details := Some(a.details.value.(eventId := patch.eventId.value)));
        }
      }
      if patch.website.Some? {
        a := a.(website := Truthy(patch.website));
        if a.details.Some? {
          a := a.(details := Some(a.details.value.(website := Truthy(patch.website))));
        }
      }
      if exists b :: b in attendees && b.id != id && b.eventId == a.eventId && b.email == a.email {
        return Some(DuplicateKey);
      }
      attendees := attendees[i := a];
      error := None;
    }
  }
}
