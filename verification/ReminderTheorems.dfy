/** Whom a reminder reaches, over the attendance states that runs lead to. */
module ReminderTheorems {
  import opened Common
  import opened Attendance
  import opened AttendanceTheorems
  import opened Reminders

  ghost predicate Registered(r: Registree, eventId: string) {
    exists k :: 0 <= k < |r.registrations| && r.registrations[k].eventId == eventId
  }

  ghost predicate ApprovedElsewhere(r: Registree, eventId: string) {
    exists k :: 0 <= k < |r.registrations| && r.registrations[k].status == Approved
                && r.registrations[k].eventId != eventId
  }

  /** An attendee of the registree is let in to the event. */
  ghost predicate LetIn(s: State, r: Registree, eventId: string) {
    exists k :: 0 <= k < |s.attendees| && s.attendees[k].registreeId == Some(r.id) && Attends(s.attendees[k], eventId)
  }

  /** The two collections draw their ids from one space: an attendee of nobody has no registree's id. */
  ghost predicate IdsApart(s: State) {
    forall i, k | 0 <= i < |s.registrees| && 0 <= k < |s.attendees| && s.attendees[k].registreeId.None? ::
      s.attendees[k].id != s.registrees[i].id
  }

  ghost predicate Reminded(s: State, id: string, eventId: string) {
    id in Targets(s.registrees, s.attendees, eventId)
  }

  lemma MatchesIff(r: Registree, eventId: string)
    ensures Matches(r, eventId)
       <==> Registered(r, eventId) && (HasApproved(r, eventId) || ApprovedElsewhere(r, eventId))
  {
    if Matches(r, eventId) {
      var g :| g in r.registrations && g.eventId == eventId;
      var h :| h in r.registrations && h.status == Approved;
      var j :| 0 <= j < |r.registrations| && r.registrations[j] == g;
      var k :| 0 <= k < |r.registrations| && r.registrations[k] == h;
    }
    if Registered(r, eventId) && (HasApproved(r, eventId) || ApprovedElsewhere(r, eventId)) {
      var j :| 0 <= j < |r.registrations| && r.registrations[j].eventId == eventId;
      var k :| 0 <= k < |r.registrations| && r.registrations[k].status == Approved;
      assert r.registrations[j] in r.registrations && r.registrations[k] in r.registrations;
    }
  }

  /** A reminder reaches a registree exactly as an attendee let in, or as registered here and approved anywhere. */
  lemma RemindedIff(s: State, i: nat, eventId: string)
    requires RegistreeKeys(s.registrees) && IdsApart(s) && i < |s.registrees|
    ensures var r := s.registrees[i];
            Reminded(s, r.id, eventId) <==>
              LetIn(s, r, eventId)
              || (Registered(r, eventId) && (HasApproved(r, eventId) || ApprovedElsewhere(r, eventId)))
  {
    hide Matches, Attends, Targets, Registered, HasApproved, ApprovedElsewhere;
    var r := s.registrees[i];
    TargetsExactly(s.registrees, s.attendees, eventId, r.id);
    MatchesIff(r, eventId);
    if IsRegistreeTarget(s.registrees, eventId, r.id) {
      var j :| 0 <= j < |s.registrees| && s.registrees[j].id == r.id && Matches(s.registrees[j], eventId);
      assert j == i;
    }
    if IsAttendeeTarget(s.attendees, eventId, r.id) {
      var k :| 0 <= k < |s.attendees| && TargetOf(s.attendees[k]) == r.id && Attends(s.attendees[k], eventId);
      assert s.attendees[k].registreeId == Some(r.id);
    }
    if LetIn(s, r, eventId) {
      var k :| 0 <= k < |s.attendees| && s.attendees[k].registreeId == Some(r.id) && Attends(s.attendees[k], eventId);
      assert TargetOf(s.attendees[k]) == r.id;
    }
  }

  /** The first registration for the event is blocked. */
  predicate BlockedFor(r: Registree, eventId: string) {
    var g := RegistrationFor(r, eventId);
    g != -1 && r.registrations[g].status == BlockedReg
  }

  lemma BlockedIsNotApproved(r: Registree, eventId: string)
    requires LaterPendingIn(r.registrations) && BlockedFor(r, eventId)
    ensures Registered(r, eventId) && !HasApproved(r, eventId)
  {
    var g := RegistrationFor(r, eventId);
    forall k | 0 <= k < |r.registrations| && r.registrations[k].eventId == eventId
      ensures r.registrations[k].status != Approved
    {
      assert k >= g;
    }
  }

  /** Someone blocked for an event is reminded of it exactly if let in regardless, or approved for another event. */
  lemma BlockedIsRemindedIff(s: State, i: nat, eventId: string)
    requires RegistreeKeys(s.registrees) && LaterPending(s) && IdsApart(s)
    requires i < |s.registrees| && BlockedFor(s.registrees[i], eventId)
    ensures var r := s.registrees[i];
            Reminded(s, r.id, eventId) <==> LetIn(s, r, eventId) || ApprovedElsewhere(r, eventId)
  {
    hide Targets, LetIn, ApprovedElsewhere, Registered, HasApproved;
    RemindedIff(s, i, eventId);
    BlockedIsNotApproved(s.registrees[i], eventId);
  }

  /** A blocked attendee of the event is the only one its registree could be let in by. */
  lemma BlockedAttendeeIsNotLetIn(s: State, i: nat, k: nat)
    requires Sound(s) && Filed(s) && i < |s.registrees| && k < |s.attendees|
    requires s.attendees[k].email == s.registrees[i].email && s.attendees[k].status == BlockedAtt
    ensures !LetIn(s, s.registrees[i], s.attendees[k].eventId)
  {
    var r, xs := s.registrees[i], s.attendees;
    forall j | 0 <= j < |xs| && xs[j].registreeId == Some(r.id)
      ensures !Attends(xs[j], xs[k].eventId)
    {
      assert FiledIn(s.registrees, xs[j]);
    }
  }

  /**
   In every state that runs lead to from an empty store: a registree blocked for an event, whose
   attendee for it, if there is one, is blocked too, is still reminded of it exactly if approved for another event.
   */
  lemma ReachableBlockedIsRemindedIff(events: set<string>, actions: seq<Action>, i: nat, eventId: string)
    requires var s := Run(State(events, [], []), actions);
             && IdsApart(s) && i < |s.registrees| && BlockedFor(s.registrees[i], eventId)
             && (forall k | 0 <= k < |s.attendees| ::
                   s.attendees[k].eventId == eventId && s.attendees[k].email == s.registrees[i].email
                   ==> s.attendees[k].status == BlockedAtt)
    ensures var s := Run(State(events, [], []), actions);
            Reminded(s, s.registrees[i].id, eventId) <==> ApprovedElsewhere(s.registrees[i], eventId)
  {
    hide Run, Targets, ApprovedElsewhere, RegistrationFor, Attends;
    var s0, s := State(events, [], []), Run(State(events, [], []), actions);
    EmptyIsSound(events);
    RunsKeepCopiesSound(s0, actions);
    RunsKeepFiled(s0, actions);
    BlockedIsRemindedIff(s, i, eventId);
    var r := s.registrees[i];
    if LetIn(s, r, eventId) {
      var k :| 0 <= k < |s.attendees| && s.attendees[k].registreeId == Some(r.id) && Attends(s.attendees[k], eventId);
      LetInIsBooked(s, i, k, eventId);
      BlockedAttendeeIsNotLetIn(s, i, k);
    }
  }

  lemma LetInIsBooked(s: State, i: nat, k: nat, eventId: string)
    requires Sound(s) && Filed(s) && i < |s.registrees| && k < |s.attendees|
    requires s.attendees[k].registreeId == Some(s.registrees[i].id) && Attends(s.attendees[k], eventId)
    ensures s.attendees[k].eventId == eventId && s.attendees[k].email == s.registrees[i].email
  {
    assert FiledIn(s.registrees, s.attendees[k]);
  }

  // ---- A run that gets there -----------------------------------------------------------------------

  lemma RegisterSecond(events: set<string>, f: string, m: string, c: Contact, id: string, g: Registration)
    requires f in events && g.eventId != f && g.status == Pending
    ensures RegisterSpec(Lone(events, id, m, c, [g]), f, m, c, None, id).state
         == Lone(events, id, m, c, [g, Registration(f, m, c, Pending)])
  {
    LoneIsFound(events, id, m, c, [g]);
    assert [g] + [Registration(f, m, c, Pending)] == [g, Registration(f, m, c, Pending)];
  }

  lemma ApproveSecond(events: set<string>, id: string, m: string, c: Contact,
                      g: Registration, h: Registration, t: Ticket)
    requires h.eventId in events && g.eventId != h.eventId && h.status == Pending
    ensures var before := Registree(id, m, c, None, [g, h]);
            ApproveSpec(Lone(events, id, m, c, [g, h]), id, h.eventId, t).state
            == State(events, [before.(registrations := [g, h.(status := Approved)])],
                     [Admitted(before, h, h.eventId, t)])
  {
    LoneIsFound(events, id, m, c, [g, h]);
    var before := Registree(id, m, c, None, [g, h]);
    assert RegistrationFor(before, h.eventId) == 1;
    assert [g, h][1 := h.(status := Approved)] == [g, h.(status := Approved)];
    assert [] + [Admitted(before, h, h.eventId, t)] == [Admitted(before, h, h.eventId, t)];
  }

  lemma BlockFirst(s: State, r: Registree, a: Attendee, g: Registration, h: Registration)
    requires s.registrees == [r] && s.attendees == [a] && r.registrations == [g, h] && a.eventId != g.eventId
    ensures BlockSpec(s, r.id, g.eventId).state
         == State(s.events, [r.(registrations := [g.(status := BlockedReg), h])], [a])
  {
    assert s.registrees[0] == r && s.attendees[0] == a;
    assert RegistreeById(s, r.id) == 0 && RegistrationFor(r, g.eventId) == 0;
    assert [g, h][0 := g.(status := BlockedReg)] == [g.(status := BlockedReg), h];
    assert AttendeeFor(s, g.eventId, r.email) == -1;
  }

  lemma ElsewhereIsReminded(s: State, r: Registree, a: Attendee, g: Registration, h: Registration)
    requires s.registrees == [r] && s.attendees == [a] && r.registrations == [g, h]
    requires g.status == BlockedReg && h.status == Approved && g.eventId != h.eventId && a.registreeId.Some?
    ensures BlockedFor(r, g.eventId) && Reminded(s, r.id, g.eventId)
  {
    hide Targets;
    assert s.registrees[0] == r && r.registrations[0] == g && r.registrations[1] == h;
    RemindedIff(s, 0, g.eventId);
  }

  /** Register for two events, be approved for one and blocked for the other: reminders of the other still come. */
  lemma BlockedRunIsReminded(e: string, f: string, m: string, c: Contact, id: string, t: Ticket)
    requires e != f
    ensures var s := Run(State({e, f}, [], []),
                         [Register(e, m, c, None, id), Register(f, m, c, None, id), Approve(id, f, t), Block(id, e)]);
            |s.registrees| == 1 && BlockedFor(s.registrees[0], e) && Reminded(s, id, e)
  {
    hide RegisterSpec, ApproveSpec, BlockSpec, BlockedFor, Reminded;
    var one, two := Register(e, m, c, None, id), Register(f, m, c, None, id);
    var approve, block := Approve(id, f, t), Block(id, e);
    var g, h := Registration(e, m, c, Pending), Registration(f, m, c, Pending);
    var s0, s1, s2 := State({e, f}, [], []), Lone({e, f}, id, m, c, [g]), Lone({e, f}, id, m, c, [g, h]);
    var r, a := Registree(id, m, c, None, [g, h]), Admitted(Registree(id, m, c, None, [g, h]), h, f, t);
    var s3 := State({e, f}, [r.(registrations := [g, h.(status := Approved)])], [a]);
    FirstRegistration({e, f}, e, m, c, id);
    RegisterSecond({e, f}, f, m, c, id, g);
    ApproveSecond({e, f}, id, m, c, g, h, t);
    BlockFirst(s3, s3.registrees[0], a, g, h.(status := Approved));
    var s4 := Do(s3, block).state;
    ElsewhereIsReminded(s4, s4.registrees[0], a, g.(status := BlockedReg), h.(status := Approved));
    assert s4 == Run(s4, []);
    assert s4 == Run(s3, [block]);
    assert s4 == Run(s2, [approve, block]);
    assert s4 == Run(s1, [two, approve, block]);
    assert s4 == Run(s0, [one, two, approve, block]);
  }
}
