/**
 E-mail delivery status (src/modules/communications/communications.service.ts): the webhook
 handler absorbs provider events one at a time and in any order; the manual sync pulls a whole
 report and folds it in one loop. Instants are milliseconds since the epoch.
 */
module Delivery {
  import opened Common

  datatype Status =
    | Pending | Requested | Sent | Delivered | Opened | Clicked
    | FailedStatus | Bounced | Spam | Blocked

  /** BREVO_STATUS_MAP; a name without an entry, or with the entry null, moves no status. */
  function HookStatus(event: string): Option<Status> {
    match event
    case "request" => Some(Requested)
    case "deferred" => Some(Pending)
    case "delivered" => Some(Delivered)
    case "opened" => Some(Opened)
    case "unique_opened" => Some(Opened)
    case "proxy_open" => Some(Opened)
    case "unique_proxy_open" => Some(Opened)
    case "click" => Some(Clicked)
    case "hard_bounce" => Some(Bounced)
    case "soft_bounce" => Some(Bounced)
    case "blocked" => Some(Blocked)
    case "spam" => Some(Spam)
    case "invalid_email" => Some(FailedStatus)
    case "error" => Some(FailedStatus)
    case _ => None
  }

  /** apiStatusMap of the sync. */
  function ReportStatus(event: string): Option<Status> {
    match event
    case "requests" => Some(Requested)
    case "deferred" => Some(Pending)
    case "delivered" => Some(Delivered)
    case "opened" => Some(Opened)
    case "clicks" => Some(Clicked)
    case "bounces" => Some(Bounced)
    case "hardBounces" => Some(Bounced)
    case "softBounces" => Some(Bounced)
    case "blocked" => Some(Blocked)
    case "spam" => Some(Spam)
    case "invalid" => Some(FailedStatus)
    case "error" => Some(FailedStatus)
    case _ => None
  }

  /** STATUS_PRECEDENCE. */
  function Precedence(s: Status): nat {
    match s
    case Pending => 0
    case Requested => 1
    case Sent => 2
    case Delivered => 3
    case Opened => 4
    case Clicked => 5
    case FailedStatus => 6
    case Bounced => 6
    case Spam => 6
    case Blocked => 6
  }

  predicate IsFailure(s: Status) {
    s == FailedStatus || s == Bounced || s == Spam || s == Blocked
  }

  /** A webhook payload: seconds since the epoch, and the reason or the empty string. */
  datatype HookEvent = HookEvent(name: string, seconds: int, reason: string)

  datatype ReportEvent = ReportEvent(name: string, at: int, reason: string)

  /** One audit entry, by its event text. */
  datatype AuditEntry = AuditEntry(event: string, at: int, reason: string)

  datatype Log = Log(
    status: Status, error: Option<string>, lastEvent: Option<string>, lastAt: Option<int>,
    audit: seq<AuditEntry>, history: seq<AuditEntry>)

  /** `ts_event` zero or absent means the time of receipt. */
  function HookInstant(e: HookEvent, now: int): int {
    if e.seconds != 0 then e.seconds * 1000 else now
  }

  function HookFailureText(e: HookEvent): string {
    if e.reason != "" then e.reason else "Brevo event: " + e.name
  }

  function ReportFailureText(e: ReportEvent): string {
    if e.reason != "" then e.reason else "Brevo API event: " + e.name
  }

  predicate NotOlder(at: int, last: Option<int>) {
    last.None? || at >= last.value
  }

  // ---- One event, abstractly ------------------------------------------------------

  /** What either path takes from an event: mapped status, error text, event text and instant. */
  datatype Item = Item(mapped: Option<Status>, error: string, text: string, at: int)

  /** A webhook and the moment it was received. */
  datatype Arrival = Arrival(event: HookEvent, now: int)

  function HookItem(a: Arrival): Item {
    Item(HookStatus(a.event.name), HookFailureText(a.event), a.event.name, HookInstant(a.event, a.now))
  }

  function ReportItem(e: ReportEvent): Item {
    Item(ReportStatus(e.name), ReportFailureText(e), e.name, e.at)
  }

  datatype Core = Core(status: Status, error: Option<string>, lastEvent: Option<string>, lastAt: Option<int>)

  /** The rule both paths follow: an event of equal or higher precedence takes over. */
  function Absorb(c: Core, i: Item): Core {
    var wins := i.mapped.Some? && Precedence(i.mapped.value) >= Precedence(c.status);
    var newer := NotOlder(i.at, c.lastAt);
    Core(if wins then i.mapped.value else c.status,
         if wins && IsFailure(i.mapped.value) then Some(i.error) else c.error,
         if newer then Some(i.text) else c.lastEvent,
         if newer then Some(i.at) else c.lastAt)
  }

  function AbsorbAll(c: Core, items: seq<Item>): Core {
    if items == [] then c
    else Absorb(AbsorbAll(c, items[..|items| - 1]), items[|items| - 1])
  }

  function CoreOf(l: Log): Core {
    Core(l.status, l.error, l.lastEvent, l.lastAt)
  }

  function HookItems(arrivals: seq<Arrival>): seq<Item> {
    seq(|arrivals|, i requires 0 <= i < |arrivals| => HookItem(arrivals[i]))
  }

  function ReportItems(events: seq<ReportEvent>): seq<Item> {
    seq(|events|, i requires 0 <= i < |events| => ReportItem(events[i]))
  }

  // ---- What any sequence of events leads to -----------------------------------------

  predicate IsFailureItem(i: Item) {
    i.mapped.Some? && IsFailure(i.mapped.value)
  }

  /** The final precedence is the maximum of the initial one and all mapped ones. */
  ghost predicate IsMaxPrecedence(p: nat, c: Core, items: seq<Item>) {
    && p >= Precedence(c.status)
    && (forall i | i in items && i.mapped.Some? :: p >= Precedence(i.mapped.value))
    && (p == Precedence(c.status) || exists i :: i in items && i.mapped.Some? && p == Precedence(i.mapped.value))
  }

  lemma {:induction false} FinalPrecedenceIsMax(c: Core, items: seq<Item>)
    ensures IsMaxPrecedence(Precedence(AbsorbAll(c, items).status), c, items)
  {
    if items != [] {
      var n := |items| - 1;
      FinalPrecedenceIsMax(c, items[..n]);
      assert items == items[..n] + [items[n]];
      assert items[n] in items;
      assert forall i | i in items[..n] :: i in items;
    }
  }

  /** Below the failure level a precedence names one status. */
  lemma StatusByPrecedence(a: Status, b: Status)
    requires Precedence(a) == Precedence(b) < 6
    ensures a == b
  {
  }

  /** The largest instant, the initial one included. */
  ghost predicate IsLatest(at: Option<int>, c: Core, items: seq<Item>) {
    && (at.None? ==> c.lastAt.None? && items == [])
    && (at.Some? ==>
          && (c.lastAt.Some? ==> at.value >= c.lastAt.value)
          && (forall i | i in items :: at.value >= i.at)
          && (c.lastAt == at || exists i :: i in items && i.at == at.value))
  }

  lemma {:induction false} FinalInstantIsLatest(c: Core, items: seq<Item>)
    ensures IsLatest(AbsorbAll(c, items).lastAt, c, items)
  {
    if items != [] {
      var n := |items| - 1;
      FinalInstantIsLatest(c, items[..n]);
      var before := AbsorbAll(c, items[..n]).lastAt;
      var e := items[n];
      assert items == items[..n] + [e];
      assert e in items;
      if !NotOlder(e.at, before) && before != c.lastAt {
        var i :| i in items[..n] && i.at == before.value;
        assert i in items;
      }
    }
  }

  /**
   Order, repetition and regrouping do not matter: two deliveries of the same set of events
   end with the same precedence and latest instant, and below the failure level in the same status.
   */
  lemma OrderIndependence(c: Core, one: seq<Item>, two: seq<Item>)
    requires forall i :: i in one <==> i in two
    ensures Precedence(AbsorbAll(c, one).status) == Precedence(AbsorbAll(c, two).status)
    ensures Precedence(AbsorbAll(c, one).status) < 6 ==> AbsorbAll(c, one).status == AbsorbAll(c, two).status
    ensures AbsorbAll(c, one).lastAt == AbsorbAll(c, two).lastAt
  {
    FinalPrecedenceIsMax(c, one);
    FinalPrecedenceIsMax(c, two);
    FinalInstantIsLatest(c, one);
    FinalInstantIsLatest(c, two);
    assert one == [] <==> two == [] by {
      if one != [] {
        assert one[0] in one;
      }
      if two != [] {
        assert two[0] in two;
      }
    }
    if Precedence(AbsorbAll(c, one).status) < 6 {
      StatusByPrecedence(AbsorbAll(c, one).status, AbsorbAll(c, two).status);
    }
  }

  /** The same for a permutation of the events, as the handler may receive them. */
  lemma PermutationIndependence(c: Core, one: seq<Item>, two: seq<Item>)
    requires multiset(one) == multiset(two)
    ensures Precedence(AbsorbAll(c, one).status) == Precedence(AbsorbAll(c, two).status)
    ensures Precedence(AbsorbAll(c, one).status) < 6 ==> AbsorbAll(c, one).status == AbsorbAll(c, two).status
    ensures AbsorbAll(c, one).lastAt == AbsorbAll(c, two).lastAt
  {
    forall i
      ensures i in one <==> i in two
    {
      assert i in one <==> i in multiset(one);
      assert i in two <==> i in multiset(two);
    }
    OrderIndependence(c, one, two);
  }

  /** The failure that arrived last, if any did. */
  function LastFailure(items: seq<Item>): Option<Item> {
    if items == [] then None
    else if IsFailureItem(items[|items| - 1]) then Some(items[|items| - 1])
    else LastFailure(items[..|items| - 1])
  }

  /**
   Failures absorb: once one is in, the status and the error are those of the last failure that
   arrived, whatever came before or after; without one, an initial failure and its error stay.
   */
  lemma {:induction false} FailureAbsorbs(c: Core, items: seq<Item>)
    ensures var last := LastFailure(items);
            var end := AbsorbAll(c, items);
            && (last.Some? ==> IsFailureItem(last.value))
            && (last.Some? ==> Some(end.status) == last.value.mapped && end.error == Some(last.value.error))
            && (last.None? ==> end.error == c.error)
            && (last.None? && IsFailure(c.status) ==> end.status == c.status)
            && (last.None? && !IsFailure(c.status) ==> !IsFailure(end.status))
  {
    if items != [] {
      FailureAbsorbs(c, items[..|items| - 1]);
    }
  }

  /** Among the events at instant `t`, the one that arrived last. */
  function LastAtInstant(items: seq<Item>, t: Option<int>): Option<Item> {
    if items == [] then None
    else if Some(items[|items| - 1].at) == t then Some(items[|items| - 1])
    else LastAtInstant(items[..|items| - 1], t)
  }

  /** The name kept is that of the last arrival among the events at the latest instant. */
  lemma {:induction false} LatestEventNamed(c: Core, items: seq<Item>)
    ensures var end := AbsorbAll(c, items);
            var last := LastAtInstant(items, end.lastAt);
            end.lastEvent == if last.Some? then Some(last.value.text) else c.lastEvent
  {
    if items != [] {
      LatestEventNamed(c, items[..|items| - 1]);
    }
  }

  // ---- Webhooks, one at a time -------------------------------------------------------------

  function HookEntry(a: Arrival): AuditEntry {
    AuditEntry(a.event.name, HookInstant(a.event, a.now), a.event.reason)
  }

  function WebhookSpec(l: Log, a: Arrival): Log {
    var c := Absorb(CoreOf(l), HookItem(a));
    Log(c.status, c.error, c.lastEvent, c.lastAt, l.audit + [HookEntry(a)], l.history + [HookEntry(a)])
  }

  function WebhooksSpec(l: Log, arrivals: seq<Arrival>): Log {
    if arrivals == [] then l
    else WebhookSpec(WebhooksSpec(l, arrivals[..|arrivals| - 1]), arrivals[|arrivals| - 1])
  }

  function HookEntries(arrivals: seq<Arrival>): seq<AuditEntry> {
    seq(|arrivals|, i requires 0 <= i < |arrivals| => HookEntry(arrivals[i]))
  }

  /** Webhooks fold the absorbing rule, and the audit trail keeps every event in arrival order. */
  lemma {:induction false} WebhooksFold(l: Log, arrivals: seq<Arrival>)
    ensures CoreOf(WebhooksSpec(l, arrivals)) == AbsorbAll(CoreOf(l), HookItems(arrivals))
    ensures WebhooksSpec(l, arrivals).audit == l.audit + HookEntries(arrivals)
    ensures WebhooksSpec(l, arrivals).history == l.history + HookEntries(arrivals)
  {
    hide Absorb, HookItem, HookEntry;
    if arrivals != [] {
      var n := |arrivals| - 1;
      WebhooksFold(l, arrivals[..n]);
      assert HookItems(arrivals)[..n] == HookItems(arrivals[..n]);
      assert HookEntries(arrivals) == HookEntries(arrivals[..n]) + [HookEntry(arrivals[n])];
    } else {
      assert l.audit + [] == l.audit && l.history + [] == l.history;
    }
  }

  /** Whatever order the provider's deliveries take, the log ends the same up to the choice of failure. */
  lemma WebhookOrderIndependence(l: Log, one: seq<Arrival>, two: seq<Arrival>)
    requires multiset(one) == multiset(two)
    ensures var a, b := WebhooksSpec(l, one), WebhooksSpec(l, two);
            && Precedence(a.status) == Precedence(b.status)
            && (Precedence(a.status) < 6 ==> a.status == b.status && a.error == b.error)
            && a.lastAt == b.lastAt
            && |a.audit| == |b.audit|
  {
    hide AbsorbAll, WebhooksSpec, LastFailure, HookItem, HookEntry;
    WebhooksFold(l, one);
    WebhooksFold(l, two);
    ItemsPermute(one, two);
    var c := CoreOf(l);
    OrderIndependence(c, HookItems(one), HookItems(two));
    FailureAbsorbs(c, HookItems(one));
    FailureAbsorbs(c, HookItems(two));
    assert |one| == |multiset(one)| == |two|;
  }

  lemma ItemsPermute(one: seq<Arrival>, two: seq<Arrival>)
    requires multiset(one) == multiset(two)
    ensures forall i :: i in HookItems(one) <==> i in HookItems(two)
  {
    ItemsIncluded(one, two);
    ItemsIncluded(two, one);
  }

  lemma ItemsIncluded(one: seq<Arrival>, two: seq<Arrival>)
    requires multiset(one) == multiset(two)
    ensures forall i | i in HookItems(one) :: i in HookItems(two)
  {
    forall i | i in HookItems(one)
      ensures i in HookItems(two)
    {
      var j :| 0 <= j < |one| && HookItems(one)[j] == i;
      assert one[j] in multiset(one);
      assert one[j] in two;
      var k :| 0 <= k < |two| && two[k] == one[j];
      assert HookItems(two)[k] == i;
    }
  }

  // ---- The manual sync ------------------------------------------------------------------------

  function ReportEntries(events: seq<ReportEvent>): seq<AuditEntry> {
    seq(|events|, i requires 0 <= i < |events| =>
      AuditEntry(events[i].name, events[i].at, events[i].reason))
  }

  function SyncStart(l: Log): Core {
    Core(l.status, Truthy(l.error), Truthy(l.lastEvent), l.lastAt)
  }

  function SyncSpec(l: Log, events: seq<ReportEvent>): Log {
    if events == [] then l
    else
      var c := AbsorbAll(SyncStart(l), ReportItems(events));
      var named := Truthy(c.lastEvent).Some?;
      Log(c.status, c.error,
          if named then c.lastEvent else l.lastEvent, if named then c.lastAt else l.lastAt,
          ReportEntries(events), ReportEntries(events))
  }

  /** The two vocabularies for one provider event; a name of neither table stands for any other such name. */
  predicate SameName(h: string, r: string) {
    match h
    case "request" => r == "requests"
    case "deferred" => r == "deferred"
    case "delivered" => r == "delivered"
    case "opened" => r == "opened"
    case "unique_opened" => r == "opened"
    case "proxy_open" => r == "opened"
    case "unique_proxy_open" => r == "opened"
    case "click" => r == "clicks"
    case "hard_bounce" => r == "hardBounces" || r == "bounces"
    case "soft_bounce" => r == "softBounces" || r == "bounces"
    case "blocked" => r == "blocked"
    case "spam" => r == "spam"
    case "invalid_email" => r == "invalid"
    case "error" => r == "error"
    case _ => ReportStatus(r) == None
  }

  /** The report lists the same events as the webhooks, in the same order. */
  ghost predicate Corresponds(arrivals: seq<Arrival>, events: seq<ReportEvent>) {
    && |arrivals| == |events|
    && forall i | 0 <= i < |events| ::
         && SameName(arrivals[i].event.name, events[i].name)
         && HookInstant(arrivals[i].event, arrivals[i].now) == events[i].at
         && arrivals[i].event.reason == events[i].reason
         && events[i].name != "" && arrivals[i].event.name != ""
  }

  /** A log as these two paths leave it: the last event has a name and an instant, or neither. */
  predicate Consistent(l: Log) {
    && (l.lastEvent.Some? <==> l.lastAt.Some?)
    && l.lastEvent != Some("")
  }

  predicate FailureEvent(e: ReportEvent) {
    ReportStatus(e.name).Some? && IsFailure(ReportStatus(e.name).value)
  }

  /** The reason given with the last failure of a report, if it lists one. */
  function LastFailureReason(events: seq<ReportEvent>): Option<string> {
    if events == [] then None
    else if FailureEvent(events[|events| - 1]) then Some(events[|events| - 1].reason)
    else LastFailureReason(events[..|events| - 1])
  }

  /** Item by item the two folds agree on everything but the wording of an error without a reason. */
  lemma {:induction false} FoldsInStep(c: Core, d: Core, arrivals: seq<Arrival>, events: seq<ReportEvent>)
    requires Corresponds(arrivals, events)
    requires c.status == d.status && c.lastAt == d.lastAt
    ensures var a, b := AbsorbAll(c, HookItems(arrivals)), AbsorbAll(d, ReportItems(events));
            var last := LastFailureReason(events);
            && a.status == b.status && a.lastAt == b.lastAt
            && (last.None? ==> a.error == c.error && b.error == d.error)
            && (last.Some? && last.value != "" ==> a.error == Some(last.value) == b.error)
            && (last.Some? && last.value == "" ==> a.error != b.error)
  {
    if events != [] {
      var n := |events| - 1;
      assert HookItems(arrivals)[..n] == HookItems(arrivals[..n]);
      assert ReportItems(events)[..n] == ReportItems(events[..n]);
      FoldsInStep(c, d, arrivals[..n], events[..n]);
      var c', d' := AbsorbAll(c, HookItems(arrivals[..n])), AbsorbAll(d, ReportItems(events[..n]));
      StepInStep(c', d', arrivals[n], events[n]);
    }
  }

  lemma SameNameSameStatus(h: string, r: string)
    requires SameName(h, r)
    ensures HookStatus(h) == ReportStatus(r)
  {
  }

  lemma StepInStep(c: Core, d: Core, a: Arrival, e: ReportEvent)
    requires SameName(a.event.name, e.name) && HookInstant(a.event, a.now) == e.at && a.event.reason == e.reason
    requires c.status == d.status && c.lastAt == d.lastAt
    ensures var c', d' := Absorb(c, HookItem(a)), Absorb(d, ReportItem(e));
            && c'.status == d'.status && c'.lastAt == d'.lastAt
            && (!FailureEvent(e) ==> c'.error == c.error && d'.error == d.error)
            && (FailureEvent(e) && e.reason != "" ==> c'.error == Some(e.reason) == d'.error)
            && (FailureEvent(e) && e.reason == "" ==> c'.error != d'.error)
  {
    SameNameSameStatus(a.event.name, e.name);
    if e.reason == "" {
      WordingsDiffer(a.event, e);
    }
  }

  lemma WordingsDiffer(h: HookEvent, r: ReportEvent)
    requires h.reason == "" && r.reason == ""
    ensures HookFailureText(h) != ReportFailureText(r)
  {
    assert HookFailureText(h)[6] == 'e';
    assert ReportFailureText(r)[6] == 'A';
  }

  lemma {:induction false} NamesStayNonEmpty(c: Core, items: seq<Item>)
    requires c.lastEvent.Some? <==> c.lastAt.Some?
    requires c.lastEvent != Some("") && forall i | i in items :: i.text != ""
    ensures AbsorbAll(c, items).lastEvent.Some? <==> AbsorbAll(c, items).lastAt.Some?
    ensures AbsorbAll(c, items).lastEvent != Some("")
  {
    if items != [] {
      var n := |items| - 1;
      assert items[n] in items && forall i | i in items[..n] :: i in items;
      NamesStayNonEmpty(c, items[..n]);
    }
  }

  /**
   A sync over a report ends where the webhooks would have: same status and latest instant
   always, and the same error exactly when the last failure carries a reason, or there is no
   failure and the log did not hold an empty error text.
   */
  lemma SyncSimulatesWebhooks(l: Log, arrivals: seq<Arrival>, events: seq<ReportEvent>)
    requires Consistent(l) && Corresponds(arrivals, events)
    ensures var pushed, pulled := WebhooksSpec(l, arrivals), SyncSpec(l, events);
            var last := LastFailureReason(events);
            && pulled.status == pushed.status
            && pulled.lastAt == pushed.lastAt
            && (pulled.error == pushed.error <==>
                  (if last.Some? then last.value != "" else l.error != Some("") || events == []))
            && Consistent(pulled)
  {
    WebhooksFold(l, arrivals);
    var items := ReportItems(events);
    if events != [] {
      FoldsInStep(CoreOf(l), SyncStart(l), arrivals, events);
      forall i | i in items
        ensures i.text != ""
      {
        var j :| 0 <= j < |events| && items[j] == i;
      }
      NamesStayNonEmpty(SyncStart(l), items);
      FinalInstantIsLatest(SyncStart(l), items);
    }
  }

  /** A sync over a non-empty report stores what the fold ends with. */
  lemma SyncStoresFold(l: Log, events: seq<ReportEvent>)
    requires Consistent(l) && events != [] && forall e | e in events :: e.name != ""
    ensures SyncSpec(l, events).status == AbsorbAll(SyncStart(l), ReportItems(events)).status
    ensures SyncSpec(l, events).lastAt == AbsorbAll(SyncStart(l), ReportItems(events)).lastAt
  {
    var items := ReportItems(events);
    forall i | i in items
      ensures i.text != ""
    {
      var j :| 0 <= j < |events| && items[j] == i;
      assert events[j] in events;
    }
    NamesStayNonEmpty(SyncStart(l), items);
    FinalInstantIsLatest(SyncStart(l), items);
  }

  lemma ReportItemsIncluded(one: seq<ReportEvent>, two: seq<ReportEvent>)
    requires multiset(one) == multiset(two)
    ensures forall i | i in ReportItems(one) :: i in ReportItems(two)
  {
    forall i | i in ReportItems(one)
      ensures i in ReportItems(two)
    {
      var j :| 0 <= j < |one| && ReportItems(one)[j] == i;
      assert one[j] in multiset(one);
      assert one[j] in two;
      var k :| 0 <= k < |two| && two[k] == one[j];
      assert ReportItems(two)[k] == i;
    }
  }

  /**
   The report need not list the events in the order the webhooks came: precedence and latest instant
   still agree, and below the failure level so does the status.
   */
  lemma SyncSimulatesInAnyOrder(l: Log, arrivals: seq<Arrival>, listed: seq<ReportEvent>, report: seq<ReportEvent>)
    requires Consistent(l) && Corresponds(arrivals, listed) && multiset(report) == multiset(listed)
    ensures var pushed, pulled := WebhooksSpec(l, arrivals), SyncSpec(l, report);
            && Precedence(pulled.status) == Precedence(pushed.status)
            && (Precedence(pushed.status) < 6 ==> pulled.status == pushed.status)
            && pulled.lastAt == pushed.lastAt
  {
    hide AbsorbAll, WebhooksSpec, SyncStart;
    SyncSimulatesWebhooks(l, arrivals, listed);
    assert |report| == |multiset(report)| == |listed|;
    if listed != [] {
      forall e | e in listed
        ensures e.name != ""
      {
        var j :| 0 <= j < |listed| && listed[j] == e;
      }
      forall e | e in report
        ensures e.name != ""
      {
        assert e in multiset(report);
        assert e in listed;
      }
      SyncStoresFold(l, listed);
      SyncStoresFold(l, report);
      ReportItemsIncluded(listed, report);
      ReportItemsIncluded(report, listed);
      OrderIndependence(SyncStart(l), ReportItems(listed), ReportItems(report));
    }
  }

  lemma {:induction false} ErrorsAreNotEmpty(c: Core, events: seq<ReportEvent>)
    requires c.error != Some("")
    ensures AbsorbAll(c, ReportItems(events)).error != Some("")
  {
    if events != [] {
      var n := |events| - 1;
      assert ReportItems(events)[..n] == ReportItems(events[..n]);
      ErrorsAreNotEmpty(c, events[..n]);
      var e := events[n];
      assert |"Brevo API event: " + e.name| >= 17;
    }
  }

  /** Absorbing the same items again changes nothing. */
  lemma AbsorbTwice(c: Core, items: seq<Item>)
    ensures AbsorbAll(AbsorbAll(c, items), items) == AbsorbAll(c, items)
  {
    var once := AbsorbAll(c, items);
    var twice := AbsorbAll(once, items);
    FinalPrecedenceIsMax(c, items);
    FinalPrecedenceIsMax(once, items);
    FailureAbsorbs(c, items);
    FailureAbsorbs(once, items);
    if Precedence(once.status) < 6 {
      StatusByPrecedence(once.status, twice.status);
    }
    FinalInstantIsLatest(c, items);
    FinalInstantIsLatest(once, items);
    LatestEventNamed(c, items);
    LatestEventNamed(once, items);
  }

  /** Syncing again with the same report leaves the log as it is. */
  lemma SyncTwiceIsSyncOnce(l: Log, events: seq<ReportEvent>)
    requires Consistent(l) && forall e | e in events :: e.name != ""
    ensures SyncSpec(SyncSpec(l, events), events) == SyncSpec(l, events)
  {
    if events != [] {
      var items := ReportItems(events);
      forall i | i in items
        ensures i.text != ""
      {
        var j :| 0 <= j < |events| && items[j] == i;
        assert events[j] in events;
      }
      NamesStayNonEmpty(SyncStart(l), items);
      FinalInstantIsLatest(SyncStart(l), items);
      ErrorsAreNotEmpty(SyncStart(l), events);
      assert SyncStart(SyncSpec(l, events)) == AbsorbAll(SyncStart(l), items);
      AbsorbTwice(SyncStart(l), items);
    }
  }

  // ---- The service ---------------------------------------------------------------------------

  datatype LogDoc = LogDoc(id: string, messageId: Option<string>, isEmail: bool, deleted: bool, log: Log)

  datatype Error = RangeError | NotFound | BadRequest

  const MAX_TIME := 8640000000000000

  function FindByMessageId(docs: seq<LogDoc>, messageId: string): int {
    FirstIndex(docs, (d: LogDoc) => !d.deleted && d.messageId == Some(messageId))
  }

  function FindById(docs: seq<LogDoc>, id: string): int {
    FirstIndex(docs, (d: LogDoc) => !d.deleted && d.id == id)
  }

  class DeliveryService {
    var docs: seq<LogDoc>

    constructor (docs: seq<LogDoc>)
      ensures this.docs == docs
    {
      this.docs := docs;
    }

    /** An unknown message id is logged and ignored; an instant out of range throws before any write. */
    method HandleBrevoWebhook(messageId: Option<string>, event: HookEvent, now: int) returns (error: Option<Error>)
      modifies this
      ensures var before := old(docs);
              var at := if messageId.None? || messageId.value == "" then -1
                        else FindByMessageId(before, messageId.value);
              var instant := HookInstant(event, now);
              if at == -1 then error == None && docs == before
              else if instant < -MAX_TIME || instant > MAX_TIME then error == Some(RangeError) && docs == before
              else error == None
                   && docs == before[at := before[at].(log := WebhookSpec(before[at].log, Arrival(event, now)))]
    {
      if messageId.None? || messageId.value == "" {
        return None;
      }
      var at := FindByMessageId(docs, messageId.value);
      if at == -1 {
        return None;
      }
      var log := docs[at].log;
      var timestamp := if event.seconds != 0 then event.seconds * 1000 else now;
      if timestamp < -MAX_TIME || timestamp > MAX_TIME {
        return Some(RangeError);
      }
      var entry := AuditEntry(event.name, timestamp, event.reason);
      var audit, history := log.audit + [entry], log.history + [entry];
      var mapped := HookStatus(event.name);
      if mapped.Some? {
        var current, incoming := Precedence(log.status), Precedence(mapped.value);
        if incoming >= current {
          log := log.(status := mapped.value);
          if IsFailure(mapped.value) {
            log := log.(error := Some(if event.reason != "" then event.reason
                                      else "Brevo event: " + event.name));
          }
        }
      }
      if log.lastAt.None? || timestamp >= log.lastAt.value {
        log := log.(lastEvent := Some(event.name), lastAt := Some(timestamp));
      }
      log := log.(audit := audit, history := history);
      docs := docs[at := docs[at].(log := log)];
      error := None;
    }

    /** `report` is what the provider answers, or None when the call fails. */
    method SyncLogStatusWithProvider(id: string, report: Option<seq<ReportEvent>>) returns (error: Option<Error>)
      modifies this
      ensures var before := old(docs);
              var at := FindById(before, id);
              if at == -1 then error == Some(NotFound) && docs == before
              else if !before[at].isEmail || before[at].messageId.None? || before[at].messageId.value == ""
                      || report.None? then
                error == Some(BadRequest) && docs == before
              else error == None
                   && docs == before[at := before[at].(log := SyncSpec(before[at].log, report.value))]
    {
      var at := FindById(docs, id);
      if at == -1 {
        return Some(NotFound);
      }
      var doc := docs[at];
      if !doc.isEmail || doc.messageId.None? || doc.messageId.value == "" || report.None? {
        return Some(BadRequest);
      }
      var log, events := doc.log, report.value;
      if events == [] {
        return None;
      }
      var highestStatus, highestPrecedence := log.status, Precedence(log.status);
      var errorReason, latestEvent, latestAt := Truthy(log.error), Truthy(log.lastEvent), log.lastAt;
      for i := 0 to |events|
        invariant AbsorbAll(SyncStart(log), ReportItems(events)[..i])
                  == Core(highestStatus, errorReason, latestEvent, latestAt)
        invariant highestPrecedence == Precedence(highestStatus)
      {
        var ev := events[i];
        assert ReportItems(events)[..i + 1][..i] == ReportItems(events)[..i];
        var mapped := ReportStatus(ev.name);
        if mapped.Some? {
          var precedence := Precedence(mapped.value);
          if precedence >= highestPrecedence {
            highestStatus, highestPrecedence := mapped.value, precedence;
            if IsFailure(mapped.value) {
              errorReason := Some(if ev.reason != "" then ev.reason else "Brevo API event: " + ev.name);
            }
          }
        }
        if latestAt.None? || ev.at >= latestAt.value {
          latestEvent, latestAt := Some(ev.name), Some(ev.at);
        }
      }
      assert ReportItems(events)[..|events|] == ReportItems(events);
      var fetched := ReportEntries(events);
      log := log.(status := highestStatus, error := errorReason, audit := fetched, history := fetched);
      if latestEvent.Some? && latestEvent.value != "" {
        log := log.(lastEvent := latestEvent, lastAt := latestAt);
      }
      docs := docs[at := doc.(log := log)];
      error := None;
    }
  }
}
