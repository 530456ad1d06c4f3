/** Which schedule a sweep finds due, whom it writes to and what it marks, told by the stored fields. */
module ReminderEffects {
  import opened Common
  import A = Attendance
  import opened Reminders

  // ---- When ------------------------------------------------------------------------------------

  /** Milliseconds in so many days, hours and minutes, those not given counting as none. */
  function Lead(s: Schedule): int {
    var days := if s.days.Some? then s.days.value else 0;
    var hours := if s.hours.Some? then s.hours.value else 0;
    var minutes := if s.minutes.Some? then s.minutes.value else 0;
    ((days * 24 + hours) * 60 + minutes) * 60 * 1000
  }

  /**
   A waiting schedule is due as soon as the start is at most its lead away if it is one before the event, as soon as
   the start is at least its lead ago if it is one after, and from its date on if it has one.
   */
  lemma DueIff(e: Event, s: Schedule, now: int)
    ensures Due(e, s, now) <==>
              && e.isActive && s.isActive && !s.isProcessed
              && (s.kind == BeforeEvent ==> e.start - now <= Lead(s))
              && (s.kind == AfterEvent ==> now - e.start >= Lead(s))
              && (s.kind == ExactDate ==> s.exactDate.Some? && s.exactDate.value <= now)
  {
  }

  /** The query asks for an active schedule and for one not yet processed, which need not be the same. */
  lemma SelectedIff(e: Event)
    ensures Selected(e) <==>
              && e.isActive
              && (exists j :: 0 <= j < |e.scheduledEmails| && e.scheduledEmails[j].isActive)
              && (exists j :: 0 <= j < |e.scheduledEmails| && !e.scheduledEmails[j].isProcessed)
  {
  }

  // ---- Whom ------------------------------------------------------------------------------------

  /** Some registration is for the event and some, perhaps another, is approved. */
  ghost predicate RegistreeIsMeant(r: A.Registree, eventId: string) {
    && (exists g :: 0 <= g < |r.registrations| && r.registrations[g].eventId == eventId)
    && (exists g :: 0 <= g < |r.registrations| && r.registrations[g].status == A.Approved)
  }

  /** An attendee of the event goes by its registree, if it has one; those blocked or rejected are left out. */
  ghost predicate AttendeeIsMeant(x: A.Attendee, eventId: string, id: string) {
    && x.eventId == eventId
    && (x.status == A.Invited || x.status == A.Registered || x.status == A.CheckedIn)
    && (x.registreeId == Some(id) || (x.registreeId == None && x.id == id))
  }

  lemma RecipientsAre(rs: seq<A.Registree>, xs: seq<A.Attendee>, eventId: string, id: string)
    ensures NoDuplicates(Targets(rs, xs, eventId))
    ensures id in Targets(rs, xs, eventId) <==>
              || (exists i :: 0 <= i < |rs| && rs[i].id == id && RegistreeIsMeant(rs[i], eventId))
              || (exists i :: 0 <= i < |xs| && AttendeeIsMeant(xs[i], eventId, id))
  {
    hide Matches, Attends, TargetOf, RegistreeIsMeant, AttendeeIsMeant;
    TargetsExactly(rs, xs, eventId, id);
    forall i | 0 <= i < |rs|
      ensures Matches(rs[i], eventId) <==> RegistreeIsMeant(rs[i], eventId)
    {
      MatchesIff(rs[i], eventId);
    }
    forall i | 0 <= i < |xs|
      ensures TargetOf(xs[i]) == id && Attends(xs[i], eventId) <==> AttendeeIsMeant(xs[i], eventId, id)
    {
      AttendsIff(xs[i], eventId, id);
    }
  }

  lemma MatchesIff(r: A.Registree, eventId: string)
    ensures Matches(r, eventId) <==> RegistreeIsMeant(r, eventId)
  {
  }

  lemma AttendsIff(x: A.Attendee, eventId: string, id: string)
    ensures TargetOf(x) == id && Attends(x, eventId) <==> AttendeeIsMeant(x, eventId, id)
  {
  }

  // ---- What a sweep leaves ---------------------------------------------------------------------------

  /** A sweep marks the due schedules as processed and changes nothing else. */
  lemma SweepMarks(events: seq<Event>, now: int, i: nat, j: nat)
    requires i < |events| && j < |events[i].scheduledEmails|
    ensures var e, f := events[i], SweepAll(events, now)[i];
            && |SweepAll(events, now)| == |events|
            && f.id == e.id && f.start == e.start && f.isActive == e.isActive
            && |f.scheduledEmails| == |e.scheduledEmails|
            && var s, t := e.scheduledEmails[j], f.scheduledEmails[j];
               if Due(e, s, now) then t.isProcessed && t.(isProcessed := false) == s else t == s
  {
    hide Target;
  }

  // ---- In which order it writes ----------------------------------------------------------------------

  /** Reminders go out sweep by sweep. */
  lemma {:induction false} SweepsInOrder(events: seq<Event>, first: seq<Sweep>, rest: seq<Sweep>)
    ensures Sent(events, first + rest) == Sent(events, first) + Sent(EventsAfter(events, first), rest)
    ensures EventsAfter(events, first + rest) == EventsAfter(EventsAfter(events, first), rest)
    decreases |first|
  {
    hide AllNotices, SweepAll;
    if first == [] {
      assert first + rest == rest;
    } else {
      SweepsInOrder(SweepAll(events, first[0].now), first[1..], rest);
      assert (first + rest)[1..] == first[1..] + rest;
    }
  }

  /** Within a sweep they go out event by event. */
  lemma {:induction false} EventsInOrder(events: seq<Event>, i: nat, w: Sweep)
    requires i <= |events|
    ensures AllNotices(events, w) == AllNotices(events[..i], w) + AllNotices(events[i..], w)
    decreases |events|
  {
    hide EventNotices;
    var n := |events| - 1;
    if i == |events| {
      assert events[..i] == events && events[i..] == [];
    } else {
      EventsInOrder(events[..n], i, w);
      assert events[..n][..i] == events[..i] && events[..n][i..] == events[i..][..n - i];
    }
  }

  /** Within an event they go out schedule by schedule, to the recipients in the order of their list. */
  lemma {:induction false} SchedulesInOrder(e: Event, ss: seq<Schedule>, j: nat, w: Sweep)
    requires j <= |ss|
    ensures EventNotices(e, ss, w) == EventNotices(e, ss[..j], w) + EventNotices(e, ss[j..], w)
    decreases |ss|
  {
    hide Due, Notices, Targets;
    var n := |ss| - 1;
    if j == |ss| {
      assert ss[..j] == ss && ss[j..] == [];
    } else {
      SchedulesInOrder(e, ss[..n], j, w);
      assert ss[..n][..j] == ss[..j] && ss[..n][j..] == ss[j..][..n - j];
    }
  }

  lemma OneScheduleWrites(e: Event, s: Schedule, w: Sweep, k: nat)
    ensures var sent, ids := EventNotices(e, [s], w), Targets(w.registrees, w.attendees, e.id);
            && |sent| == (if Due(e, s, w.now) then |ids| else 0)
            && (k < |sent| ==> sent[k] == Reminder(ids[k], e.id, s.templateId))
  {
    hide Due, Targets;
    assert [s][..0] == [];
    assert EventNotices(e, [], w) == [];
  }

  /** The registrees come first, in the order they are stored, and then the attendees in theirs. */
  lemma {:induction false} RegistreesComeFirst(
    rs: seq<A.Registree>, xs: seq<A.Attendee>, i: nat, j: nat, eventId: string)
    requires i <= |rs| && j <= |xs|
    ensures RegistreeTargets(rs[..i], eventId) <= RegistreeTargets(rs, eventId)
    ensures Targets(rs, xs[..j], eventId) <= Targets(rs, xs, eventId)
    ensures Targets(rs, [], eventId) == RegistreeTargets(rs, eventId)
    decreases |rs| + |xs|
  {
    hide Matches, Attends, TargetOf;
    if i < |rs| {
      RegistreesComeFirst(rs[..|rs| - 1], xs, i, j, eventId);
      assert rs[..|rs| - 1][..i] == rs[..i];
    } else {
      assert rs[..i] == rs;
    }
    if j < |xs| {
      RegistreesComeFirst(rs, xs[..|xs| - 1], i, j, eventId);
      assert xs[..|xs| - 1][..j] == xs[..j];
    } else {
      assert xs[..j] == xs;
    }
  }
}
