/**
 The event reminder sweep (src/modules/event-management/event-reminder-scheduler.service.ts).

 Instants are milliseconds in UTC. A sweep sees the registrees and attendees as they are stored at
 that moment, so both come with it.
 */
module Reminders {
  import opened Common
  import A = Attendance

  datatype Kind = BeforeEvent | AfterEvent | ExactDate

  datatype Schedule = Schedule(
    templateId: string, kind: Kind, days: Option<int>, hours: Option<int>, minutes: Option<int>,
    exactDate: Option<int>, isActive: bool, isProcessed: bool)

  datatype Event = Event(id: string, start: int, isActive: bool, scheduledEmails: seq<Schedule>)

  datatype Reminder = Reminder(targetId: string, eventId: string, templateId: string)

  /** One run of the job: the clock, and the people on file at that time. */
  datatype Sweep = Sweep(now: int, registrees: seq<A.Registree>, attendees: seq<A.Attendee>)

  // ---- When -----------------------------------------------------------------------------------

  const MINUTE := 60000
  const HOUR := 3600000
  const DAY := 86400000

  function OrZero(n: Option<int>): int {
    if n.Some? then n.value else 0
  }

  function Offset(s: Schedule): int {
    OrZero(s.days) * DAY + OrZero(s.hours) * HOUR + OrZero(s.minutes) * MINUTE
  }

  /** The instant a schedule waits for; an exact schedule without a date waits for none. */
  function Target(start: int, s: Schedule): Option<int> {
    match s.kind
    case BeforeEvent => Some(start - Offset(s))
    case AfterEvent => Some(start + Offset(s))
    case ExactDate => s.exactDate
  }

  predicate Waiting(e: Event, s: Schedule) {
    e.isActive && s.isActive && !s.isProcessed
  }

  predicate Due(e: Event, s: Schedule, now: int) {
    Waiting(e, s) && var t := Target(e.start, s); t.Some? && t.value <= now
  }

  /** The query that picks the events to look at. */
  predicate Selected(e: Event) {
    && e.isActive
    && (exists s :: s in e.scheduledEmails && s.isActive)
    && (exists s :: s in e.scheduledEmails && !s.isProcessed)
  }

  /** The query hides no event with work to do. */
  lemma SelectionMissesNothing(e: Event)
    ensures !Selected(e) ==> forall j, now | 0 <= j < |e.scheduledEmails| :: !Due(e, e.scheduledEmails[j], now)
  {
  }

  // ---- Who ------------------------------------------------------------------------------------

  /** Some registration is for the event, and some registration is approved: not necessarily the same one. */
  predicate Matches(r: A.Registree, eventId: string) {
    && (exists g :: g in r.registrations && g.eventId == eventId)
    && (exists g :: g in r.registrations && g.status == A.Approved)
  }

  predicate Attends(a: A.Attendee, eventId: string) {
    a.eventId == eventId && a.status != A.BlockedAtt && a.status != A.RejectedAtt
  }

  function TargetOf(a: A.Attendee): string {
    if a.registreeId.Some? then a.registreeId.value else a.id
  }

  function RegistreeTargets(rs: seq<A.Registree>, eventId: string): seq<string> {
    if rs == [] then []
    else
      var last := |rs| - 1;
      var ids := RegistreeTargets(rs[..last], eventId);
      if Matches(rs[last], eventId) then Added(ids, rs[last].id) else ids
  }

  function Targets(rs: seq<A.Registree>, xs: seq<A.Attendee>, eventId: string): seq<string> {
    if xs == [] then RegistreeTargets(rs, eventId)
    else
      var last := |xs| - 1;
      var ids := Targets(rs, xs[..last], eventId);
      if Attends(xs[last], eventId) then Added(ids, TargetOf(xs[last])) else ids
  }

  ghost predicate IsRegistreeTarget(rs: seq<A.Registree>, eventId: string, id: string) {
    exists i :: 0 <= i < |rs| && rs[i].id == id && Matches(rs[i], eventId)
  }

  ghost predicate IsAttendeeTarget(xs: seq<A.Attendee>, eventId: string, id: string) {
    exists i :: 0 <= i < |xs| && TargetOf(xs[i]) == id && Attends(xs[i], eventId)
  }

  lemma {:induction false} RegistreeTargetsExactly(rs: seq<A.Registree>, eventId: string, id: string)
    ensures NoDuplicates(RegistreeTargets(rs, eventId))
    ensures id in RegistreeTargets(rs, eventId) <==> IsRegistreeTarget(rs, eventId, id)
    decreases |rs|
  {
    hide Matches;
    if rs != [] {
      var last := |rs| - 1;
      RegistreeTargetsExactly(rs[..last], eventId, id);
      if IsRegistreeTarget(rs, eventId, id) && !(rs[last].id == id && Matches(rs[last], eventId)) {
        var i :| 0 <= i < |rs| && rs[i].id == id && Matches(rs[i], eventId);
        assert rs[..last][i] == rs[i];
      }
    }
  }

  /** The recipients are distinct, and are exactly the matching registrees and the attendees let in. */
  lemma {:induction false} TargetsExactly(rs: seq<A.Registree>, xs: seq<A.Attendee>, eventId: string, id: string)
    ensures NoDuplicates(Targets(rs, xs, eventId))
    ensures id in Targets(rs, xs, eventId) <==> IsRegistreeTarget(rs, eventId, id) || IsAttendeeTarget(xs, eventId, id)
    decreases |xs|
  {
    hide Matches, Attends, TargetOf, RegistreeTargets, IsRegistreeTarget;
    if xs == [] {
      RegistreeTargetsExactly(rs, eventId, id);
    } else {
      var last := |xs| - 1;
      TargetsExactly(rs, xs[..last], eventId, id);
      if IsAttendeeTarget(xs, eventId, id) && !(TargetOf(xs[last]) == id && Attends(xs[last], eventId)) {
        var i :| 0 <= i < |xs| && TargetOf(xs[i]) == id && Attends(xs[i], eventId);
        assert xs[..last][i] == xs[i];
      }
    }
  }

  // ---- A sweep as a function ----------------------------------------------------------------------

  function Marked(e: Event, s: Schedule, now: int): Schedule {
    if Due(e, s, now) then s.(isProcessed := true) else s
  }

  function MarkedAll(e: Event, ss: seq<Schedule>, now: int): seq<Schedule> {
    seq(|ss|, j requires 0 <= j < |ss| => Marked(e, ss[j], now))
  }

  function After(e: Event, now: int): Event {
    e.(scheduledEmails := MarkedAll(e, e.scheduledEmails, now))
  }

  function SweepAll(events: seq<Event>, now: int): seq<Event> {
    seq(|events|, i requires 0 <= i < |events| => After(events[i], now))
  }

  function Notices(e: Event, s: Schedule, ids: seq<string>): seq<Reminder> {
    seq(|ids|, k requires 0 <= k < |ids| => Reminder(ids[k], e.id, s.templateId))
  }

  function EventNotices(e: Event, ss: seq<Schedule>, w: Sweep): seq<Reminder> {
    if ss == [] then []
    else
      var last := |ss| - 1;
      EventNotices(e, ss[..last], w)
      + if Due(e, ss[last], w.now) then Notices(e, ss[last], Targets(w.registrees, w.attendees, e.id)) else []
  }

  function AllNotices(events: seq<Event>, w: Sweep): seq<Reminder> {
    if events == [] then []
    else
      var e := events[|events| - 1];
      AllNotices(events[..|events| - 1], w) + EventNotices(e, e.scheduledEmails, w)
  }

  function EventsAfter(events: seq<Event>, sweeps: seq<Sweep>): (after: seq<Event>)
    ensures |after| == |events|
    ensures forall i | 0 <= i < |events| :: |after[i].scheduledEmails| == |events[i].scheduledEmails|
    decreases |sweeps|
  {
    if sweeps == [] then events else EventsAfter(SweepAll(events, sweeps[0].now), sweeps[1..])
  }

  /** Everything a run of sweeps sends, in order. */
  function Sent(events: seq<Event>, sweeps: seq<Sweep>): seq<Reminder>
    decreases |sweeps|
  {
    if sweeps == [] then []
    else AllNotices(events, sweeps[0]) + Sent(SweepAll(events, sweeps[0].now), sweeps[1..])
  }

  // ---- Each schedule fires at the first sweep at or after its target, and never again -----------

  /** The first sweep at or after an instant, or -1. */
  function FirstFrom(target: int, sweeps: seq<Sweep>): (k: int)
    ensures k == -1 || (0 <= k < |sweeps| && sweeps[k].now >= target)
  {
    if sweeps == [] then -1
    else if sweeps[0].now >= target then 0
    else
      var k := FirstFrom(target, sweeps[1..]);
      if k == -1 then -1 else k + 1
  }

  lemma {:induction false} FirstFromIsFirst(target: int, sweeps: seq<Sweep>, k: nat)
    requires k < |sweeps|
    ensures FirstFrom(target, sweeps) == k <==>
              sweeps[k].now >= target && forall j | 0 <= j < k :: sweeps[j].now < target
    decreases |sweeps|
  {
    if k > 0 {
      FirstFromIsFirst(target, sweeps[1..], k - 1);
      assert forall j | 1 <= j <= k :: sweeps[1..][j - 1] == sweeps[j];
    }
  }

  predicate FiresAt(e: Event, s: Schedule, sweeps: seq<Sweep>, k: int) {
    Waiting(e, s) && var t := Target(e.start, s); t.Some? && k != -1 && FirstFrom(t.value, sweeps) == k
  }

  /** A schedule is due at sweep `k` of a run exactly if that is the first sweep at or after its target. */
  lemma {:induction false} FiresAtFirstSweep(events: seq<Event>, sweeps: seq<Sweep>, i: nat, j: nat, k: nat)
    requires i < |events| && j < |events[i].scheduledEmails| && k < |sweeps|
    ensures var e := EventsAfter(events, sweeps[..k])[i];
            Due(e, e.scheduledEmails[j], sweeps[k].now)
            <==> FiresAt(events[i], events[i].scheduledEmails[j], sweeps, k)
    decreases k
  {
    if k > 0 {
      var next, rest := SweepAll(events, sweeps[0].now), sweeps[1..];
      assert sweeps[..k][1..] == rest[..k - 1];
      FiresAtFirstSweep(next, rest, i, j, k - 1);
    }
  }

  predicate Fires(e: Event, s: Schedule, sweeps: seq<Sweep>) {
    Waiting(e, s) && var t := Target(e.start, s); t.Some? && FirstFrom(t.value, sweeps) != -1
  }

  /** What a run leaves of a schedule: marked if some sweep reached its target, untouched otherwise. */
  lemma {:induction false} RunMarksExactlyFired(events: seq<Event>, sweeps: seq<Sweep>, i: nat, j: nat)
    requires i < |events| && j < |events[i].scheduledEmails|
    ensures var s := events[i].scheduledEmails[j];
            EventsAfter(events, sweeps)[i].scheduledEmails[j]
            == if Fires(events[i], s, sweeps) then s.(isProcessed := true) else s
    decreases |sweeps|
  {
    if sweeps != [] {
      var next, rest := SweepAll(events, sweeps[0].now), sweeps[1..];
      RunMarksExactlyFired(next, rest, i, j);
    }
  }

  // ---- Every reminder is accounted for --------------------------------------------------------------

  /** 1 if the schedule, at the sweep where it fires, has this reminder's recipient on its list. */
  function Owed(e: Event, s: Schedule, sweeps: seq<Sweep>, r: Reminder): nat {
    var t := Target(e.start, s);
    if !Waiting(e, s) || t.None? then 0
    else
      var k := FirstFrom(t.value, sweeps);
      if k != -1 && r.eventId == e.id && r.templateId == s.templateId
         && r.targetId in Targets(sweeps[k].registrees, sweeps[k].attendees, e.id) then 1
      else 0
  }

  function OwedBySchedules(e: Event, ss: seq<Schedule>, sweeps: seq<Sweep>, r: Reminder): nat {
    if ss == [] then 0
    else OwedBySchedules(e, ss[..|ss| - 1], sweeps, r) + Owed(e, ss[|ss| - 1], sweeps, r)
  }

  function OwedByAll(events: seq<Event>, sweeps: seq<Sweep>, r: Reminder): nat {
    if events == [] then 0
    else
      var e := events[|events| - 1];
      OwedByAll(events[..|events| - 1], sweeps, r) + OwedBySchedules(e, e.scheduledEmails, sweeps, r)
  }

  lemma {:induction false} NoticesCount(e: Event, s: Schedule, ids: seq<string>, r: Reminder)
    requires NoDuplicates(ids)
    ensures multiset(Notices(e, s, ids))[r]
         == if r.eventId == e.id && r.templateId == s.templateId && r.targetId in ids then 1 else 0
    decreases |ids|
  {
    if ids != [] {
      var last := |ids| - 1;
      NoticesCount(e, s, ids[..last], r);
      assert Notices(e, s, ids) == Notices(e, s, ids[..last]) + [Reminder(ids[last], e.id, s.templateId)];
      assert ids == ids[..last] + [ids[last]];
    } else {
      assert Notices(e, s, ids) == [];
    }
  }

  lemma OwedStep(e: Event, s: Schedule, sweeps: seq<Sweep>, r: Reminder)
    requires sweeps != []
    ensures var w := sweeps[0];
            multiset(if Due(e, s, w.now) then Notices(e, s, Targets(w.registrees, w.attendees, e.id)) else [])[r]
            + Owed(After(e, w.now), Marked(e, s, w.now), sweeps[1..], r) == Owed(e, s, sweeps, r)
  {
    hide Targets, MarkedAll, Notices;
    var w := sweeps[0];
    if Due(e, s, w.now) {
      var ids := Targets(w.registrees, w.attendees, e.id);
      TargetsExactly(w.registrees, w.attendees, e.id, r.targetId);
      NoticesCount(e, s, ids, r);
    }
  }

  lemma {:induction false} OwedBySchedulesStep(e: Event, ss: seq<Schedule>, sweeps: seq<Sweep>, r: Reminder)
    requires sweeps != []
    ensures var w := sweeps[0];
            multiset(EventNotices(e, ss, w))[r]
            + OwedBySchedules(After(e, w.now), MarkedAll(e, ss, w.now), sweeps[1..], r)
            == OwedBySchedules(e, ss, sweeps, r)
    decreases |ss|
  {
    hide Owed, Due, Targets, Notices, After, Marked;
    if ss != [] {
      var last, w := |ss| - 1, sweeps[0];
      OwedBySchedulesStep(e, ss[..last], sweeps, r);
      OwedStep(e, ss[last], sweeps, r);
      assert MarkedAll(e, ss, w.now)[..last] == MarkedAll(e, ss[..last], w.now);
    }
  }

  lemma {:induction false} OwedByAllStep(events: seq<Event>, sweeps: seq<Sweep>, r: Reminder)
    requires sweeps != []
    ensures multiset(AllNotices(events, sweeps[0]))[r] + OwedByAll(SweepAll(events, sweeps[0].now), sweeps[1..], r)
         == OwedByAll(events, sweeps, r)
    decreases |events|
  {
    hide OwedBySchedules, EventNotices, MarkedAll;
    if events != [] {
      var last, w := |events| - 1, sweeps[0];
      OwedByAllStep(events[..last], sweeps, r);
      OwedBySchedulesStep(events[last], events[last].scheduledEmails, sweeps, r);
      assert SweepAll(events, w.now)[..last] == SweepAll(events[..last], w.now);
    }
  }

  /** Over a whole run every reminder is sent as often as schedules owe it: once each, at their firing sweep. */
  lemma {:induction false} RunSendsExactlyOwed(events: seq<Event>, sweeps: seq<Sweep>, r: Reminder)
    ensures multiset(Sent(events, sweeps))[r] == OwedByAll(events, sweeps, r)
    decreases |sweeps|
  {
    if sweeps == [] {
      NothingOwedWithoutSweep(events, r);
    } else {
      OwedByAllStep(events, sweeps, r);
      RunSendsExactlyOwed(SweepAll(events, sweeps[0].now), sweeps[1..], r);
    }
  }

  lemma {:induction false} NothingOwedBySchedules(e: Event, ss: seq<Schedule>, r: Reminder)
    ensures OwedBySchedules(e, ss, [], r) == 0
    decreases |ss|
  {
    if ss != [] {
      NothingOwedBySchedules(e, ss[..|ss| - 1], r);
    }
  }

  lemma {:induction false} NothingOwedWithoutSweep(events: seq<Event>, r: Reminder)
    ensures OwedByAll(events, [], r) == 0
    decreases |events|
  {
    if events != [] {
      NothingOwedWithoutSweep(events[..|events| - 1], r);
      NothingOwedBySchedules(events[|events| - 1], events[|events| - 1].scheduledEmails, r);
    }
  }

  // ---- The job ------------------------------------------------------------------------------------------

  class EventReminderScheduler {
    var events: seq<Event>
    var outbox: seq<Reminder>

    constructor (events: seq<Event>)
      ensures this.events == events && outbox == []
    {
      this.events := events;
      outbox := [];
    }

    method ShouldTrigger(eventStart: int, s: Schedule, now: int) returns (trigger: bool)
      ensures trigger <==> Target(eventStart, s).Some? && Target(eventStart, s).value <= now
    {
      trigger := false;
      var days := if s.days.Some? then s.days.value else 0;
      var hours := if s.hours.Some? then s.hours.value else 0;
      var minutes := if s.minutes.Some? then s.minutes.value else 0;
      match s.kind {
        case BeforeEvent =>
          var target := eventStart - days * DAY;
          target := target - hours * HOUR;
          target := target - minutes * MINUTE;
          trigger := now == target || now > target;
        case AfterEvent =>
          var target := eventStart + days * DAY;
          target := target + hours * HOUR;
          target := target + minutes * MINUTE;
          trigger := now == target || now > target;
        case ExactDate =>
          if s.exactDate.Some? {
            var target := s.exactDate.value;
            trigger := now == target || now > target;
          }
      }
    }

    method CollectTargets(eventId: string, w: Sweep) returns (ids: seq<string>)
      ensures ids == Targets(w.registrees, w.attendees, eventId)
    {
      ids := [];
      for i := 0 to |w.registrees|
        invariant ids == RegistreeTargets(w.registrees[..i], eventId)
      {
        assert w.registrees[..i + 1][..i] == w.registrees[..i];
        if Matches(w.registrees[i], eventId) {
          ids := Added(ids, w.registrees[i].id);
        }
      }
      assert w.registrees[..|w.registrees|] == w.registrees;
      for i := 0 to |w.attendees|
        invariant ids == Targets(w.registrees, w.attendees[..i], eventId)
      {
        assert w.attendees[..i + 1][..i] == w.attendees[..i];
        if Attends(w.attendees[i], eventId) {
          ids := Added(ids, TargetOf(w.attendees[i]));
        }
      }
      assert w.attendees[..|w.attendees|] == w.attendees;
    }

    method Emit(e: Event, s: Schedule, ids: seq<string>)
      modifies this`outbox
      ensures outbox == old(outbox) + Notices(e, s, ids)
    {
      ghost var before := outbox;
      for k := 0 to |ids|
        invariant outbox == before + Notices(e, s, ids)[..k]
      {
        outbox := outbox + [Reminder(ids[k], e.id, s.templateId)];
      }
    }

    method SweepEvent(e: Event, w: Sweep) returns (updated: Event)
      modifies this`outbox
      ensures updated == After(e, w.now)
      ensures outbox == old(outbox) + EventNotices(e, e.scheduledEmails, w)
    {
      hide Target, Targets, Notices, EventNotices, MarkedAll;
      ghost var before := outbox;
      var ss := e.scheduledEmails;
      var schedules := ss;
      EventNoticesEmpty(e, w);
      for j := 0 to |ss|
        invariant |schedules| == |ss|
        invariant forall m | 0 <= m < |ss| :: schedules[m] == if m < j then Marked(e, ss[m], w.now) else ss[m]
        invariant outbox == before + EventNotices(e, ss[..j], w)
      {
        var s := schedules[j];
        EventNoticesStep(e, ss, j, w);
        if e.isActive && s.isActive && !s.isProcessed {
          var trigger := ShouldTrigger(e.start, s, w.now);
          if trigger {
            var ids := CollectTargets(e.id, w);
            Emit(e, s, ids);
            schedules := schedules[j := s.(isProcessed := true)];
          }
        }
      }
      assert ss[..|ss|] == ss;
      MarkedAllIs(e, schedules, w.now);
      updated := e.(scheduledEmails := schedules);
    }

    method HandleScheduledReminders(w: Sweep)
      modifies this
      ensures events == SweepAll(old(events), w.now)
      ensures outbox == old(outbox) + AllNotices(old(events), w)
    {
      hide Selected, After, AllNotices, EventNotices;
      ghost var was, before := events, outbox;
      AllNoticesEmpty(w);
      for i := 0 to |events|
        invariant |events| == |was|
        invariant forall m | 0 <= m < |was| :: events[m] == if m < i then After(was[m], w.now) else was[m]
        invariant outbox == before + AllNotices(was[..i], w)
      {
        var e := events[i];
        AllNoticesStep(was, i, w);
        if Selected(e) {
          var updated := SweepEvent(e, w);
          events := events[i := updated];
        } else {
          UnselectedIsUntouched(e, w);
        }
      }
      assert was[..|was|] == was;
    }
  }

  lemma EventNoticesEmpty(e: Event, w: Sweep)
    ensures EventNotices(e, e.scheduledEmails[..0], w) == []
  {
  }

  lemma EventNoticesStep(e: Event, ss: seq<Schedule>, j: nat, w: Sweep)
    requires j < |ss|
    ensures EventNotices(e, ss[..j + 1], w) == EventNotices(e, ss[..j], w)
              + if Due(e, ss[j], w.now) then Notices(e, ss[j], Targets(w.registrees, w.attendees, e.id)) else []
  {
    hide Due, Notices, Targets;
    assert ss[..j + 1][..j] == ss[..j];
  }

  lemma MarkedAllIs(e: Event, schedules: seq<Schedule>, now: int)
    requires |schedules| == |e.scheduledEmails|
    requires forall m | 0 <= m < |schedules| :: schedules[m] == Marked(e, e.scheduledEmails[m], now)
    ensures schedules == MarkedAll(e, e.scheduledEmails, now)
  {
  }

  lemma AllNoticesEmpty(w: Sweep)
    ensures AllNotices([], w) == []
  {
  }

  lemma AllNoticesStep(events: seq<Event>, i: nat, w: Sweep)
    requires i < |events|
    ensures AllNotices(events[..i + 1], w)
         == AllNotices(events[..i], w) + EventNotices(events[i], events[i].scheduledEmails, w)
  {
    hide EventNotices;
    assert events[..i + 1][..i] == events[..i];
  }

  lemma UnselectedIsUntouched(e: Event, w: Sweep)
    requires !Selected(e)
    ensures After(e, w.now) == e && EventNotices(e, e.scheduledEmails, w) == []
  {
    SelectionMissesNothing(e);
    assert MarkedAll(e, e.scheduledEmails, w.now) == e.scheduledEmails;
    NothingDueNothingSent(e, e.scheduledEmails, w);
  }

  lemma {:induction false} NothingDueNothingSent(e: Event, ss: seq<Schedule>, w: Sweep)
    requires forall j | 0 <= j < |ss| :: !Due(e, ss[j], w.now)
    ensures EventNotices(e, ss, w) == []
    decreases |ss|
  {
    if ss != [] {
      NothingDueNothingSent(e, ss[..|ss| - 1], w);
    }
  }
}
