/**
 Where any sequence of provider events leaves a log, told by event and status names alone: no precedence and no
 name table occurs in what is promised here.
 */
module DeliveryTheorems {
  import opened Common
  import opened Delivery

  // ---- The names ---------------------------------------------------------------------------

  predicate Opens(event: string) {
    event == "opened" || event == "unique_opened" || event == "proxy_open" || event == "unique_proxy_open"
  }

  /** The failure a webhook reports, if it reports one. */
  function HookFailure(event: string): Option<Status> {
    if event == "hard_bounce" || event == "soft_bounce" then Some(Bounced)
    else if event == "blocked" then Some(Blocked)
    else if event == "spam" then Some(Spam)
    else if event == "invalid_email" || event == "error" then Some(FailedStatus)
    else None
  }

  /** The failure an event of the provider's report stands for. */
  function ReportFailure(event: string): Option<Status> {
    if event == "bounces" || event == "hardBounces" || event == "softBounces" then Some(Bounced)
    else if event == "blocked" then Some(Blocked)
    else if event == "spam" then Some(Spam)
    else if event == "invalid" || event == "error" then Some(FailedStatus)
    else None
  }

  function LastHookFailure(events: seq<string>): Option<Status> {
    if events == [] then None
    else
      var last := HookFailure(events[|events| - 1]);
      if last.Some? then last else LastHookFailure(events[..|events| - 1])
  }

  function LastReportFailure(events: seq<string>): Option<Status> {
    if events == [] then None
    else
      var last := ReportFailure(events[|events| - 1]);
      if last.Some? then last else LastReportFailure(events[..|events| - 1])
  }

  function HookNames(arrivals: seq<Arrival>): seq<string> {
    seq(|arrivals|, i requires 0 <= i < |arrivals| => arrivals[i].event.name)
  }

  function ReportNames(events: seq<ReportEvent>): seq<string> {
    seq(|events|, i requires 0 <= i < |events| => events[i].name)
  }

  /** The last failure; without one the furthest of click, open, delivery, sending and request that is known of. */
  function Ladder(
    initial: Status, failure: Option<Status>, click: bool, opening: bool, delivery: bool, request: bool): Status
  {
    if failure.Some? then failure.value
    else if initial == FailedStatus || initial == Bounced || initial == Spam || initial == Blocked then initial
    else if click || initial == Clicked then Clicked
    else if opening || initial == Opened then Opened
    else if delivery || initial == Delivered then Delivered
    else if initial == Sent then Sent
    else if request || initial == Requested then Requested
    else Pending
  }

  // ---- Webhooks -----------------------------------------------------------------------------

  /** One more event, by the status it stands for. */
  lemma AbsorbClimbs(c: Core, i: Item, initial: Status, failure: Option<Status>, click: bool, opening: bool,
                     delivery: bool, request: bool)
    requires c.status == Ladder(initial, failure, click, opening, delivery, request)
    requires i.mapped != Some(Sent) && (failure.Some? ==> IsFailure(failure.value))
    ensures Absorb(c, i).status ==
              Ladder(initial, if i.mapped.Some? && IsFailure(i.mapped.value) then i.mapped else failure,
                     click || i.mapped == Some(Clicked), opening || i.mapped == Some(Opened),
                     delivery || i.mapped == Some(Delivered), request || i.mapped == Some(Requested))
  {
  }

  lemma HookStatusByName(event: string)
    ensures var s := HookStatus(event);
            && (s == Some(Clicked) <==> event == "click")
            && (s == Some(Opened) <==> Opens(event))
            && (s == Some(Delivered) <==> event == "delivered")
            && (s == Some(Requested) <==> event == "request")
            && (s == Some(Pending) <==> event == "deferred")
            && s != Some(Sent)
            && HookFailure(event) == if s.Some? && IsFailure(s.value) then s else None
  {
  }

  lemma {:induction false} HookFailuresFail(events: seq<string>)
    ensures LastHookFailure(events).Some? ==> IsFailure(LastHookFailure(events).value)
  {
    if events != [] {
      HookFailuresFail(events[..|events| - 1]);
    }
  }

  ghost predicate SomeOpens(events: seq<string>) {
    exists e :: e in events && Opens(e)
  }

  lemma OneMoreOpens(events: seq<string>, e: string)
    ensures SomeOpens(events + [e]) <==> SomeOpens(events) || Opens(e)
  {
    hide Opens;
    assert e in events + [e];
  }

  lemma LastHook(c: Core, arrivals: seq<Arrival>)
    requires arrivals != []
    ensures var n := |arrivals| - 1;
            var before, e := HookNames(arrivals[..n]), arrivals[n].event.name;
            && HookNames(arrivals) == before + [e]
            && LastHookFailure(HookNames(arrivals)) ==
                 (if HookFailure(e).Some? then HookFailure(e) else LastHookFailure(before))
            && AbsorbAll(c, HookItems(arrivals)) == Absorb(AbsorbAll(c, HookItems(arrivals[..n])), HookItem(arrivals[n]))
  {
    hide HookFailure, Absorb, HookItem;
    var n := |arrivals| - 1;
    assert HookItems(arrivals)[..n] == HookItems(arrivals[..n]);
    assert HookNames(arrivals)[..n] == HookNames(arrivals[..n]);
  }

  lemma {:induction false} HooksByName(c: Core, arrivals: seq<Arrival>)
    ensures var names := HookNames(arrivals);
            AbsorbAll(c, HookItems(arrivals)).status ==
              Ladder(c.status, LastHookFailure(names), "click" in names, SomeOpens(names), "delivered" in names,
                     "request" in names)
    decreases |arrivals|
  {
    if arrivals != [] {
      hide HookStatus, HookFailure, Opens, SomeOpens, Ladder, Absorb, HookNames, HookItems, AbsorbAll, LastHookFailure;
      var n := |arrivals| - 1;
      HooksByName(c, arrivals[..n]);
      var before, e := HookNames(arrivals[..n]), arrivals[n].event.name;
      LastHook(c, arrivals);
      HookStatusByName(e);
      HookFailuresFail(before);
      OneMoreOpens(before, e);
      AbsorbClimbs(AbsorbAll(c, HookItems(arrivals[..n])), HookItem(arrivals[n]), c.status, LastHookFailure(before),
                   "click" in before, SomeOpens(before), "delivered" in before, "request" in before);
    }
  }

  /**
   After any sequence of webhooks the status is that of the last failure if there was one; otherwise it is clicked
   if a click came, otherwise opened if one of the four opening events came, otherwise delivered, and so on down.
   */
  lemma WebhooksByName(l: Log, arrivals: seq<Arrival>)
    ensures var names := HookNames(arrivals);
            WebhooksSpec(l, arrivals).status ==
              Ladder(l.status, LastHookFailure(names), "click" in names, exists e :: e in names && Opens(e),
                     "delivered" in names, "request" in names)
  {
    hide AbsorbAll, Ladder, WebhooksSpec, LastHookFailure, Opens;
    HooksByName(CoreOf(l), arrivals);
    WebhooksFold(l, arrivals);
  }

  // ---- The sync -------------------------------------------------------------------------------

  lemma ReportStatusByName(event: string)
    ensures var s := ReportStatus(event);
            && (s == Some(Clicked) <==> event == "clicks")
            && (s == Some(Opened) <==> event == "opened")
            && (s == Some(Delivered) <==> event == "delivered")
            && (s == Some(Requested) <==> event == "requests")
            && (s == Some(Pending) <==> event == "deferred")
            && s != Some(Sent)
            && ReportFailure(event) == if s.Some? && IsFailure(s.value) then s else None
  {
  }

  lemma {:induction false} ReportFailuresFail(events: seq<string>)
    ensures LastReportFailure(events).Some? ==> IsFailure(LastReportFailure(events).value)
  {
    if events != [] {
      ReportFailuresFail(events[..|events| - 1]);
    }
  }

  lemma {:induction false} ReportByName(c: Core, events: seq<ReportEvent>)
    ensures var names := ReportNames(events);
            AbsorbAll(c, ReportItems(events)).status ==
              Ladder(c.status, LastReportFailure(names), "clicks" in names, "opened" in names, "delivered" in names,
                     "requests" in names)
    decreases |events|
  {
    if events != [] {
      var n := |events| - 1;
      ReportByName(c, events[..n]);
      assert ReportItems(events)[..n] == ReportItems(events[..n]);
      var before, names, e := ReportNames(events[..n]), ReportNames(events), events[n].name;
      assert names[..n] == before && names == before + [e];
      hide ReportStatus, ReportFailure, Ladder, Absorb;
      ReportStatusByName(e);
      ReportFailuresFail(before);
      AbsorbClimbs(AbsorbAll(c, ReportItems(events[..n])), ReportItem(events[n]), c.status, LastReportFailure(before),
                   "clicks" in before, "opened" in before, "delivered" in before, "requests" in before);
    }
  }

  /** The same for a sync and the names of its report. */
  lemma SyncByName(l: Log, events: seq<ReportEvent>)
    ensures var names := ReportNames(events);
            SyncSpec(l, events).status ==
              Ladder(l.status, LastReportFailure(names), "clicks" in names, "opened" in names, "delivered" in names,
                     "requests" in names)
  {
    hide AbsorbAll, Ladder;
    ReportByName(SyncStart(l), events);
    ReportByName(CoreOf(l), []);
    assert events == [] ==> AbsorbAll(CoreOf(l), ReportItems(events)) == CoreOf(l) by {
      AbsorbNothing(CoreOf(l));
    }
  }

  lemma AbsorbNothing(c: Core)
    ensures AbsorbAll(c, []) == c
  {
  }

  // ---- The latest event, and the audit trail ----------------------------------------------------

  /** A webhook's instant: the second it names, or the moment of its receipt if it names none. */
  ghost predicate HappenedAt(a: Arrival, at: int) {
    if a.event.seconds == 0 then at == a.now else at % 1000 == 0 && at / 1000 == a.event.seconds
  }

  /** Of these instants the k-th is the last of the latest, and not older than the one on file. */
  ghost predicate LastOfLatest(instants: seq<int>, onFile: Option<int>, k: nat) {
    && k < |instants|
    && (onFile.Some? ==> onFile.value <= instants[k])
    && (forall i | 0 <= i < k :: instants[i] <= instants[k])
    && (forall i | k < i < |instants| :: instants[i] < instants[k])
  }

  function Instants(items: seq<Item>): seq<int> {
    seq(|items|, i requires 0 <= i < |items| => items[i].at)
  }

  lemma {:induction false} LatestIsKept(c: Core, items: seq<Item>, k: nat)
    requires LastOfLatest(Instants(items), c.lastAt, k)
    ensures AbsorbAll(c, items).lastEvent == Some(items[k].text) && AbsorbAll(c, items).lastAt == Some(items[k].at)
    decreases |items|
  {
    var n := |items| - 1;
    assert forall i | 0 <= i < |items| :: Instants(items)[i] == items[i].at;
    if k < n {
      assert Instants(items)[..n] == Instants(items[..n]);
      LatestIsKept(c, items[..n], k);
    } else {
      NoneIsLater(c, items[..n], items[n].at);
    }
  }

  lemma {:induction false} NoneIsLater(c: Core, items: seq<Item>, bound: int)
    requires c.lastAt.Some? ==> c.lastAt.value <= bound
    requires forall i | 0 <= i < |items| :: items[i].at <= bound
    ensures AbsorbAll(c, items).lastAt.Some? ==> AbsorbAll(c, items).lastAt.value <= bound
    decreases |items|
  {
    if items != [] {
      NoneIsLater(c, items[..|items| - 1], bound);
    }
  }

  lemma {:induction false} OlderChangeNothing(c: Core, items: seq<Item>)
    requires c.lastAt.Some? && forall i | 0 <= i < |items| :: items[i].at < c.lastAt.value
    ensures AbsorbAll(c, items).lastEvent == c.lastEvent && AbsorbAll(c, items).lastAt == c.lastAt
    decreases |items|
  {
    if items != [] {
      OlderChangeNothing(c, items[..|items| - 1]);
    }
  }

  /** Webhooks are entered in both audit trails in the order of their arrival. */
  lemma WebhooksAreAudited(l: Log, arrivals: seq<Arrival>, instants: seq<int>)
    requires |instants| == |arrivals| && forall i | 0 <= i < |arrivals| :: HappenedAt(arrivals[i], instants[i])
    ensures var end, n := WebhooksSpec(l, arrivals), |arrivals|;
            && |end.audit| == |l.audit| + n && end.audit[..|l.audit|] == l.audit
            && |end.history| == |l.history| + n && end.history[..|l.history|] == l.history
            && forall i | 0 <= i < n ::
                 var e := arrivals[i].event;
                 end.audit[|l.audit| + i] == AuditEntry(e.name, instants[i], e.reason) == end.history[|l.history| + i]
  {
    hide WebhooksSpec, HookInstant;
    WebhooksFold(l, arrivals);
    forall i | 0 <= i < |arrivals|
      ensures HookInstant(arrivals[i].event, arrivals[i].now) == instants[i]
    {
      InstantIs(arrivals[i], instants[i]);
    }
  }

  lemma InstantIs(a: Arrival, at: int)
    requires HappenedAt(a, at)
    ensures HookInstant(a.event, a.now) == at
  {
  }

  /** The name and instant kept are those of the last webhook of the latest instant, unless a later one is on file. */
  lemma WebhooksKeepLatest(l: Log, arrivals: seq<Arrival>, instants: seq<int>, k: nat)
    requires |instants| == |arrivals| && forall i | 0 <= i < |arrivals| :: HappenedAt(arrivals[i], instants[i])
    ensures var end := WebhooksSpec(l, arrivals);
            && (LastOfLatest(instants, l.lastAt, k) ==>
                  end.lastEvent == Some(arrivals[k].event.name) && end.lastAt == Some(instants[k]))
            && (l.lastAt.Some? && (forall i | 0 <= i < |instants| :: instants[i] < l.lastAt.value) ==>
                  end.lastEvent == l.lastEvent && end.lastAt == l.lastAt)
  {
    hide WebhooksSpec, AbsorbAll, HookInstant, LastOfLatest;
    WebhooksFold(l, arrivals);
    var items := HookItems(arrivals);
    forall i | 0 <= i < |arrivals|
      ensures items[i].at == instants[i]
    {
      InstantIs(arrivals[i], instants[i]);
    }
    assert Instants(items) == instants;
    if LastOfLatest(instants, l.lastAt, k) {
      LatestIsInside(instants, l.lastAt, k);
      LatestIsKept(CoreOf(l), items, k);
    }
    if l.lastAt.Some? && forall i | 0 <= i < |instants| :: instants[i] < l.lastAt.value {
      OlderChangeNothing(CoreOf(l), items);
    }
  }

  function ReportInstants(events: seq<ReportEvent>): seq<int> {
    seq(|events|, i requires 0 <= i < |events| => events[i].at)
  }

  /** A sync replaces the audit trails by the report and keeps the latest event, if that has a name. */
  lemma SyncKeepsLatest(l: Log, events: seq<ReportEvent>, k: nat)
    requires events != []
    ensures var end, instants := SyncSpec(l, events), ReportInstants(events);
            && |end.audit| == |events| && end.history == end.audit
            && (forall i | 0 <= i < |events| ::
                  end.audit[i] == AuditEntry(events[i].name, events[i].at, events[i].reason))
            && (LastOfLatest(instants, l.lastAt, k) && events[k].name != "" ==>
                  end.lastEvent == Some(events[k].name) && end.lastAt == Some(events[k].at))
            && (LastOfLatest(instants, l.lastAt, k) && events[k].name == "" ==>
                  end.lastEvent == l.lastEvent && end.lastAt == l.lastAt)
            && (l.lastAt.Some? && (forall i | 0 <= i < |events| :: events[i].at < l.lastAt.value) ==>
                  end.lastEvent == l.lastEvent && end.lastAt == l.lastAt)
  {
    hide AbsorbAll, LastOfLatest;
    var items := ReportItems(events);
    assert Instants(items) == ReportInstants(events);
    if LastOfLatest(ReportInstants(events), l.lastAt, k) {
      LatestIsInside(ReportInstants(events), l.lastAt, k);
      LatestIsKept(SyncStart(l), items, k);
    }
    if l.lastAt.Some? && forall i | 0 <= i < |events| :: events[i].at < l.lastAt.value {
      OlderChangeNothing(SyncStart(l), items);
    }
  }

  lemma LatestIsInside(instants: seq<int>, onFile: Option<int>, k: nat)
    requires LastOfLatest(instants, onFile, k)
    ensures k < |instants|
  {
  }

  // ---- The error ----------------------------------------------------------------------------------

  lemma FailureWins(c: Core, i: Item)
    ensures Absorb(c, i).error == if i.mapped.Some? && IsFailure(i.mapped.value) then Some(i.error) else c.error
  {
  }

  /** Of these events the k-th is the last that tells of a failure. */
  ghost predicate LastFailing(failures: seq<Option<Status>>, k: nat) {
    k < |failures| && failures[k].Some? && forall i | k < i < |failures| :: failures[i].None?
  }

  function HookFailures(arrivals: seq<Arrival>): seq<Option<Status>> {
    seq(|arrivals|, i requires 0 <= i < |arrivals| => HookFailure(arrivals[i].event.name))
  }

  function ReportFailures(events: seq<ReportEvent>): seq<Option<Status>> {
    seq(|events|, i requires 0 <= i < |events| => ReportFailure(events[i].name))
  }

  lemma {:induction false} HooksKeepError(c: Core, arrivals: seq<Arrival>, k: nat)
    ensures var error, failures := AbsorbAll(c, HookItems(arrivals)).error, HookFailures(arrivals);
            && (LastFailing(failures, k) ==>
                  var e := arrivals[k].event;
                  error == Some(if e.reason != "" then e.reason else "Brevo event: " + e.name))
            && ((forall i | 0 <= i < |failures| :: failures[i].None?) ==> error == c.error)
    decreases |arrivals|
  {
    if arrivals != [] {
      var n := |arrivals| - 1;
      HooksKeepError(c, arrivals[..n], k);
      assert HookItems(arrivals)[..n] == HookItems(arrivals[..n]);
      assert HookFailures(arrivals)[..n] == HookFailures(arrivals[..n]);
      hide HookStatus, HookFailure, Absorb;
      HookStatusByName(arrivals[n].event.name);
      FailureWins(AbsorbAll(c, HookItems(arrivals[..n])), HookItem(arrivals[n]));
      assert HookFailures(arrivals)[n] == HookFailure(arrivals[n].event.name);
    }
  }

  lemma {:induction false} ReportKeepsError(c: Core, events: seq<ReportEvent>, k: nat)
    ensures var error, failures := AbsorbAll(c, ReportItems(events)).error, ReportFailures(events);
            && (LastFailing(failures, k) ==>
                  var e := events[k];
                  error == Some(if e.reason != "" then e.reason else "Brevo API event: " + e.name))
            && ((forall i | 0 <= i < |failures| :: failures[i].None?) ==> error == c.error)
    decreases |events|
  {
    if events != [] {
      var n := |events| - 1;
      ReportKeepsError(c, events[..n], k);
      assert ReportItems(events)[..n] == ReportItems(events[..n]);
      assert ReportFailures(events)[..n] == ReportFailures(events[..n]);
      hide ReportStatus, ReportFailure, Absorb;
      ReportStatusByName(events[n].name);
      FailureWins(AbsorbAll(c, ReportItems(events[..n])), ReportItem(events[n]));
      assert ReportFailures(events)[n] == ReportFailure(events[n].name);
    }
  }

  /** The error is that of the last failing webhook, its reason or a text with its name; without one it stays. */
  lemma WebhooksKeepError(l: Log, arrivals: seq<Arrival>, k: nat)
    ensures var error, failures := WebhooksSpec(l, arrivals).error, HookFailures(arrivals);
            && (LastFailing(failures, k) ==>
                  var e := arrivals[k].event;
                  error == Some(if e.reason != "" then e.reason else "Brevo event: " + e.name))
            && ((forall i | 0 <= i < |failures| :: failures[i].None?) ==> error == l.error)
  {
    hide AbsorbAll, WebhooksSpec, HookFailures;
    HooksKeepError(CoreOf(l), arrivals, k);
    WebhooksFold(l, arrivals);
  }

  /** The same for a sync, which also turns an empty error text into none. */
  lemma SyncKeepsError(l: Log, events: seq<ReportEvent>, k: nat)
    requires events != []
    ensures var error, failures := SyncSpec(l, events).error, ReportFailures(events);
            && (LastFailing(failures, k) ==>
                  var e := events[k];
                  error == Some(if e.reason != "" then e.reason else "Brevo API event: " + e.name))
            && ((forall i | 0 <= i < |failures| :: failures[i].None?) ==>
                  error == if l.error == Some("") then None else l.error)
  {
    hide AbsorbAll, ReportFailures;
    ReportKeepsError(SyncStart(l), events, k);
  }

  // ---- Which log is meant -------------------------------------------------------------------------

  /** A webhook is for the first log with its message id that is not deleted, and for none if there is none. */
  lemma MessageIdFinds(docs: seq<LogDoc>, messageId: string)
    ensures var at := FindByMessageId(docs, messageId);
            if forall d | d in docs && !d.deleted :: d.messageId != Some(messageId) then at == -1
            else
              && 0 <= at < |docs| && !docs[at].deleted && docs[at].messageId == Some(messageId)
              && forall i | 0 <= i < at :: docs[i].deleted || docs[i].messageId != Some(messageId)
  {
  }

  /** A sync is for the first log with its id that is not deleted. */
  lemma IdFinds(docs: seq<LogDoc>, id: string)
    ensures var at := FindById(docs, id);
            if forall d | d in docs && !d.deleted :: d.id != id then at == -1
            else
              && 0 <= at < |docs| && !docs[at].deleted && docs[at].id == id
              && forall i | 0 <= i < at :: docs[i].deleted || docs[i].id != id
  {
  }

  /** Instants range over a hundred million days either way (section 21.4.1.1 of ECMA-262). */
  lemma TimeRange()
    ensures MAX_TIME == 100000000 * (24 * 60 * 60 * 1000)
  {
  }
}
