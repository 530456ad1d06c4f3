/**
 The life of a blog: status transitions with a derived archive date
 (src/modules/blogs/blogs.service.ts) and the hourly maintenance sweep
 (src/modules/blogs/services/blog-maintenance.service.ts).
 */
module Blogs {
  import opened Common
  import opened Calendar

  datatype BlogStatus = Draft | Published | Scheduled | Archived

  datatype Blog = Blog(
    slug: string, status: BlogStatus, isActive: bool, scheduledAt: Option<int>,
    publishedAt: Option<int>, autoArchiveAt: Option<int>, duration: Option<Duration>, deleted: bool)

  /** A request field that may be left out, sent as null, or given. */
  datatype Patch<T> = Keep | Clear | Set(value: T)

  /** What a client sends; `publishedAt` and `autoArchiveAt` are not among the accepted fields. */
  datatype Request = Request(
    slug: Option<string>, status: Option<BlogStatus>, isActive: Option<bool>,
    scheduledAt: Patch<int>, duration: Patch<Duration>)

  datatype Error = NotFound | Conflict | Invalid | DuplicateKey

  /** The fields `handleStatusTransitions` adds to a request. */
  datatype Derived = Derived(isActive: Option<bool>, publishedAt: Option<int>, autoArchiveAt: Patch<int>)

  function Apply<T>(p: Patch<T>, current: Option<T>): Option<T> {
    match p
    case Keep => current
    case Clear => None
    case Set(v) => Some(v)
  }

  function Either<T>(a: Option<T>, b: Option<T>): Option<T> {
    if a.Some? then a else b
  }

  function Derive(r: Request, publishedAt: Option<int>, duration: Option<Duration>, now: int): Derived {
    var stamp := if r.status == Some(Published) && publishedAt.None? then Some(now) else None;
    var published, kept := Either(stamp, publishedAt), Apply(r.duration, duration);
    Derived(
      if r.status.Some? then Some(r.status.value == Published) else r.isActive,
      stamp,
      if published.Some? && kept.Some? then Set(ArchiveTime(published.value, kept.value))
      else if r.duration.Clear? then Clear
      else Keep)
  }

  function Merge(b: Blog, r: Request, d: Derived): Blog {
    Blog(if r.slug.Some? then r.slug.value else b.slug,
         if r.status.Some? then r.status.value else b.status,
         if d.isActive.Some? then d.isActive.value else b.isActive,
         Apply(r.scheduledAt, b.scheduledAt),
         Either(d.publishedAt, b.publishedAt),
         Apply(d.autoArchiveAt, b.autoArchiveAt),
         Apply(r.duration, b.duration),
         b.deleted)
  }

  /** Schema defaults of a new document. */
  const BLANK := Blog("", Draft, true, None, None, None, None, false)

  function Created(r: Request, now: int): Blog {
    Merge(BLANK, r, Derive(r, None, None, now))
  }

  function Updated(b: Blog, r: Request, now: int): Blog {
    Merge(b, r, Derive(r, b.publishedAt, b.duration, now))
  }

  // ---- The sweep ------------------------------------------------------------------------

  predicate Due(b: Blog, now: int) {
    !b.deleted && b.status == Scheduled && b.scheduledAt.Some? && b.scheduledAt.value <= now
  }

  function Publish(b: Blog, now: int): Blog {
    if Due(b, now) then b.(status := Published, isActive := true, publishedAt := Some(now)) else b
  }

  predicate Expired(b: Blog, now: int) {
    !b.deleted && b.status == Published && b.autoArchiveAt.Some? && b.autoArchiveAt.value <= now
  }

  function Archive(b: Blog, now: int): Blog {
    if Expired(b, now) then b.(status := Archived, isActive := false) else b
  }

  function SweepOne(b: Blog, now: int): Blog {
    Archive(Publish(b, now), now)
  }

  // ---- The archive date ------------------------------------------------------------------

  function Expected(b: Blog): Option<int> {
    if b.publishedAt.Some? && b.duration.Some? then Some(ArchiveTime(b.publishedAt.value, b.duration.value))
    else None
  }

  /** The archive date is the one that follows from publication and duration, and absent without them. */
  predicate Exact(b: Blog) {
    b.autoArchiveAt == Expected(b)
  }

  /** An archive date, if there is one, is the right one. */
  predicate Sound(b: Blog) {
    b.autoArchiveAt.Some? ==> b.autoArchiveAt == Expected(b)
  }

  /** Some archive date is there only with a publication and a duration. */
  predicate Dated(b: Blog) {
    b.autoArchiveAt.Some? ==> b.publishedAt.Some? && b.duration.Some?
  }

  /** Creating and updating leave the date exact, even where a sweep had left it missing or stale. */
  lemma RequestMakesExact(b: Blog, r: Request, now: int)
    ensures Exact(Created(r, now))
    ensures Dated(b) ==> Exact(Updated(b, r, now))
  {
    hide ArchiveTime;
  }

  /** The date the sweep would have to have for a blog it publishes. */
  predicate DateFits(b: Blog, now: int) {
    Due(b, now) && b.duration.Some? ==> b.autoArchiveAt == Some(ArchiveTime(now, b.duration.value))
  }

  lemma SweptDates(b: Blog, now: int)
    ensures Dated(b) ==> Dated(SweepOne(b, now))
    ensures Exact(b) ==> (Exact(SweepOne(b, now)) <==> DateFits(b, now))
    ensures Sound(b) ==> (Sound(SweepOne(b, now)) <==> b.autoArchiveAt.None? || DateFits(b, now))
  {
    hide ArchiveTime;
  }

  /** The blog was archived less than the months of its duration after it was published. */
  predicate Early(b: Blog, now: int) {
    && b.publishedAt.Some? && b.duration.Some?
    && now < b.publishedAt.value + MS_PER_DAY * MonthSum(MonthOf(Day(b.publishedAt.value)), Months(b.duration.value))
  }

  lemma EarlyIsBeforeArchiveTime(b: Blog, now: int)
    requires b.publishedAt.Some? && b.duration.Some?
    ensures Early(b, now) <==> now < ArchiveTime(b.publishedAt.value, b.duration.value)
    ensures ArchiveTime(b.publishedAt.value, b.duration.value) > b.publishedAt.value
  {
    hide ArchiveTime, MonthSum, MonthOf, Months;
    ArchiveIsMonthSum(b.publishedAt.value, b.duration.value);
    ArchiveSpan(b.publishedAt.value, b.duration.value);
  }

  /** What a sweep that archives a dated blog does to it. */
  lemma ArchivingSweep(b: Blog, now: int)
    requires b.status != Archived && SweepOne(b, now).status == Archived && Dated(b)
    ensures b.autoArchiveAt.Some? && b.autoArchiveAt.value <= now && b.duration.Some? && b.publishedAt.Some?
    ensures var after := SweepOne(b, now);
            after.duration == b.duration && after.publishedAt == if Due(b, now) then Some(now) else b.publishedAt
  {
  }

  /** A blog whose date is right is archived early exactly if the same sweep published it. */
  lemma SweepArchivesEarlyIff(b: Blog, now: int)
    requires Sound(b) && b.status != Archived && SweepOne(b, now).status == Archived
    ensures Early(SweepOne(b, now), now) <==> Due(b, now)
  {
    hide ArchiveTime, SweepOne, Early;
    ArchivingSweep(b, now);
    EarlyIsBeforeArchiveTime(SweepOne(b, now), now);
  }

  // ---- Visibility ---------------------------------------------------------------------------

  /** Only published blogs are active, and all of them are. */
  predicate Aligned(b: Blog) {
    b.isActive <==> b.status == Published
  }

  lemma RequestAligns(b: Blog, r: Request, now: int)
    ensures r.status.Some? ==> Aligned(Updated(b, r, now)) && Aligned(Created(r, now))
    ensures r.status.None? ==> Updated(b, r, now).status == b.status && Created(r, now).status == Draft
    ensures r.status.None? ==>
              Updated(b, r, now).isActive == (if r.isActive.Some? then r.isActive.value else b.isActive)
    ensures r.status.None? ==> Created(r, now).isActive == (if r.isActive.Some? then r.isActive.value else true)
  {
    hide ArchiveTime;
  }

  lemma SweptAlignment(b: Blog, now: int)
    ensures Aligned(b) || SweepOne(b, now) != b ==> Aligned(SweepOne(b, now))
  {
  }

  // ---- Runs ---------------------------------------------------------------------------------

  type Store = map<string, Blog>

  datatype Action =
    | Create(id: string, request: Request, now: int)
    | Update(id: string, request: Request, now: int)
    | Remove(id: string)
    | Sweep(now: int)

  predicate SlugTaken(s: Store, slug: string, except: Option<string>, deletedToo: bool) {
    exists id :: id in s && Some(id) != except && s[id].slug == slug && (deletedToo || !s[id].deleted)
  }

  datatype Outcome = Done(store: Store) | Failed(error: Error)

  /** The schema requires a slug of a new document; updates are stored without that check. */
  function CreateSpec(s: Store, id: string, r: Request, now: int): Outcome {
    if r.slug.Some? && SlugTaken(s, r.slug.value, None, false) then Failed(Conflict)
    else if r.slug.None? || r.slug.value == "" then Failed(Invalid)
    else if id in s || SlugTaken(s, r.slug.value, None, true) then Failed(DuplicateKey)
    else Done(s[id := Created(r, now)])
  }

  function UpdateSpec(s: Store, id: string, r: Request, now: int): Outcome {
    if id !in s || s[id].deleted then Failed(NotFound)
    else if r.slug.Some? && SlugTaken(s, r.slug.value, Some(id), true) then Failed(DuplicateKey)
    else Done(s[id := Updated(s[id], r, now)])
  }

  function RemoveSpec(s: Store, id: string): Outcome {
    if id !in s || s[id].deleted then Failed(NotFound) else Done(s[id := s[id].(deleted := true)])
  }

  function SweepSpec(s: Store, now: int): Store {
    map id | id in s :: SweepOne(s[id], now)
  }

  /** A second sweep at the same instant changes nothing. */
  lemma SweepTwiceIsSweepOnce(s: Store, now: int)
    ensures SweepSpec(SweepSpec(s, now), now) == SweepSpec(s, now)
  {
  }

  function OutcomeOf(s: Store, a: Action): Outcome {
    match a
    case Create(id, r, now) => CreateSpec(s, id, r, now)
    case Update(id, r, now) => UpdateSpec(s, id, r, now)
    case Remove(id) => RemoveSpec(s, id)
    case Sweep(now) => Done(SweepSpec(s, now))
  }

  function Step(s: Store, a: Action): Store {
    match OutcomeOf(s, a)
    case Done(s') => s'
    case Failed(_) => s
  }

  function Run(s: Store, actions: seq<Action>): Store
    decreases |actions|
  {
    if actions == [] then s else Run(Step(s, actions[0]), actions[1..])
  }

  ghost predicate AllExact(s: Store) {
    forall id | id in s :: Exact(s[id])
  }

  ghost predicate AllSound(s: Store) {
    forall id | id in s :: Sound(s[id])
  }

  lemma {:induction false} EditsKeepExact(s: Store, actions: seq<Action>)
    requires AllExact(s) && forall a | a in actions :: !a.Sweep?
    ensures AllExact(Run(s, actions))
    decreases |actions|
  {
    if actions != [] {
      var a := actions[0];
      StepKeepsExact(s, a);
      EditsKeepExact(Step(s, a), actions[1..]);
    }
  }

  lemma StepKeepsExact(s: Store, a: Action)
    requires AllExact(s) && !a.Sweep?
    ensures AllExact(Step(s, a))
  {
    hide Created, Updated, Expected;
    if OutcomeOf(s, a).Done? {
      match a
      case Create(_, r, now) => RequestMakesExact(BLANK, r, now);
      case Update(id, r, now) =>
        ExactIsDated(s[id]);
        RequestMakesExact(s[id], r, now);
      case Remove(id) => DeletedKeepsExpected(s[id]);
    }
  }

  lemma ExactIsDated(b: Blog)
    ensures Exact(b) ==> Sound(b)
    ensures Sound(b) ==> Dated(b)
  {
    hide ArchiveTime;
  }

  lemma DeletedKeepsExpected(b: Blog)
    ensures Expected(b.(deleted := true)) == Expected(b)
  {
    hide ArchiveTime;
  }

  /** A sweep keeps every date exact, except exactly when it publishes a blog whose date does not fit. */
  lemma SweepKeepsExactIff(s: Store, now: int)
    requires AllExact(s)
    ensures AllExact(SweepSpec(s, now)) <==> forall id | id in s :: DateFits(s[id], now)
  {
    hide SweepOne, DateFits, Exact;
    forall id | id in s
      ensures Exact(s[id]) && (Exact(SweepOne(s[id], now)) <==> DateFits(s[id], now))
    {
      SweptDates(s[id], now);
    }
    var t := SweepSpec(s, now);
    assert AllExact(t) <==> forall id | id in s :: Exact(t[id]);
  }

  /** No sweep of the run publishes a blog that carries an archive date already. */
  ghost predicate NoRescheduling(s: Store, actions: seq<Action>)
    decreases |actions|
  {
    actions != [] ==>
      && (actions[0].Sweep? ==> forall id | id in s && Due(s[id], actions[0].now) :: s[id].autoArchiveAt.None?)
      && NoRescheduling(Step(s, actions[0]), actions[1..])
  }

  lemma {:induction false} RunsKeepSound(s: Store, actions: seq<Action>)
    requires AllSound(s) && NoRescheduling(s, actions)
    ensures AllSound(Run(s, actions))
    decreases |actions|
  {
    if actions != [] {
      StepKeepsSound(s, actions[0]);
      RunsKeepSound(Step(s, actions[0]), actions[1..]);
    }
  }

  lemma StepKeepsSound(s: Store, a: Action)
    requires AllSound(s)
    requires a.Sweep? ==> forall id | id in s && Due(s[id], a.now) :: s[id].autoArchiveAt.None?
    ensures AllSound(Step(s, a))
  {
    hide Created, Updated, Expected, SweepOne, DateFits;
    forall id | id in Step(s, a)
      ensures Sound(Step(s, a)[id])
    {
      SoundIsTracked(s, id);
      StepKeepsTracked(s, a, id, false);
    }
  }

  /** However often the job runs at one instant, it does what it does once. */
  lemma {:induction false} RepeatedSweepsAreOne(s: Store, actions: seq<Action>, now: int)
    requires actions != [] && forall i | 0 <= i < |actions| :: actions[i] == Sweep(now)
    ensures Run(s, actions) == SweepSpec(s, now)
    decreases |actions|
  {
    hide SweepSpec;
    var t := SweepSpec(s, now);
    assert actions[0] == Sweep(now) && Step(s, actions[0]) == t;
    if |actions| > 1 {
      RepeatedSweepsAreOne(t, actions[1..], now);
      SweepTwiceIsSweepOnce(s, now);
    } else {
      assert Run(t, actions[1..]) == t;
    }
  }

  // ---- Early archiving, over every run -------------------------------------------------------------

  /**
   Whether the blog carries a date that a sweep made stale: some sweep published it while it had one,
   and no request has replaced it since.
   */
  function Restaled(s: Store, a: Action, id: string, stale: bool): bool {
    match a
    case Create(at, _, _) => if at == id && OutcomeOf(s, a).Done? then false else stale
    case Update(at, _, _) => if at == id && OutcomeOf(s, a).Done? then false else stale
    case Remove(_) => stale
    case Sweep(now) => stale || (id in s && Due(s[id], now) && s[id].autoArchiveAt.Some?)
  }

  function Stale(s: Store, actions: seq<Action>, id: string, stale: bool): bool
    decreases |actions|
  {
    if actions == [] then stale else Stale(Step(s, actions[0]), actions[1..], id, Restaled(s, actions[0], id, stale))
  }

  predicate Tracked(s: Store, id: string, stale: bool) {
    id in s ==> Dated(s[id]) && (stale || Sound(s[id]))
  }

  lemma StepKeepsTracked(s: Store, a: Action, id: string, stale: bool)
    requires Tracked(s, id, stale)
    ensures Tracked(Step(s, a), id, Restaled(s, a, id, stale))
  {
    hide Created, Updated, Expected, SweepOne, DateFits, Dated;
    if OutcomeOf(s, a).Done? {
      match a
      case Create(at, r, now) =>
        RequestMakesExact(BLANK, r, now);
        ExactIsDated(Created(r, now));
      case Update(at, r, now) =>
        if at == id {
          RequestMakesExact(s[id], r, now);
          ExactIsDated(Updated(s[id], r, now));
        }
      case Remove(at) =>
        if at == id {
          DeletedKeepsExpected(s[id]);
          DeletedKeepsDated(s[id]);
        }
      case Sweep(now) =>
        if id in s {
          SweptDates(s[id], now);
          UndueFits(s[id], now);
        }
    }
  }

  lemma DeletedKeepsDated(b: Blog)
    ensures Dated(b.(deleted := true)) <==> Dated(b)
  {
  }

  lemma UndueFits(b: Blog, now: int)
    ensures !Due(b, now) ==> DateFits(b, now)
  {
  }

  lemma {:induction false} RunsKeepTracked(s: Store, actions: seq<Action>, id: string, stale: bool)
    requires Tracked(s, id, stale)
    ensures Tracked(Run(s, actions), id, Stale(s, actions, id, stale))
    decreases |actions|
  {
    hide Tracked, Step, Restaled;
    if actions != [] {
      StepKeepsTracked(s, actions[0], id, stale);
      RunsKeepTracked(Step(s, actions[0]), actions[1..], id, Restaled(s, actions[0], id, stale));
    }
  }

  /** The blog carries a date that has come, while the one that its publication asks for has not. */
  predicate Outdated(b: Blog, now: int) {
    b.autoArchiveAt.Some? && Expected(b).Some? && b.autoArchiveAt.value <= now < Expected(b).value
  }

  /**
   After any run, a sweep archives a blog early exactly if it publishes it in the same go, or the blog is outdated;
   and that takes an earlier sweep that left it a stale date.
   */
  lemma RunArchivesEarlyIff(s: Store, actions: seq<Action>, now: int, id: string)
    requires AllSound(s)
    requires var t := Run(s, actions);
             id in t && t[id].status != Archived && Step(t, Sweep(now))[id].status == Archived
    ensures var b := Run(s, actions)[id];
            && (Early(Step(Run(s, actions), Sweep(now))[id], now) <==> Due(b, now) || Outdated(b, now))
            && (Outdated(b, now) ==> Stale(s, actions, id, false))
  {
    hide ArchiveTime, Early, Run, Stale, SweepOne, Due, Dated;
    var b := Run(s, actions)[id];
    var after := SweepOne(b, now);
    SoundIsTracked(s, id);
    RunsKeepTracked(s, actions, id, false);
    ArchivingSweep(b, now);
    EarlyIsBeforeArchiveTime(after, now);
  }

  /** Created as scheduled, with a duration, and published by a sweep: no archive date. */
  lemma ScheduledRunStaysUndated(id: string, slug: string, d: Duration, at: int, t: int, later: int)
    requires at <= later && slug != ""
    ensures var create := Create(id, Request(Some(slug), Some(Scheduled), None, Set(at), Set(d)), t);
            Run(map[], [create, Sweep(later)])
            == map[id := Blog(slug, Published, true, Some(at), Some(later), None, Some(d), false)]
  {
    hide ArchiveTime;
    var create := Create(id, Request(Some(slug), Some(Scheduled), None, Set(at), Set(d)), t);
    var s0: Store := map[];
    var s1 := Step(s0, create);
    assert s1 == map[id := Blog(slug, Scheduled, false, Some(at), None, None, Some(d), false)];
    var s2 := Step(s1, Sweep(later));
    assert s2[id] == Blog(slug, Published, true, Some(at), Some(later), None, Some(d), false);
    assert s2 == Run(s2, []) == Run(s1, [Sweep(later)]) == Run(s0, [create, Sweep(later)]);
  }

  lemma SoundIsTracked(s: Store, id: string)
    requires AllSound(s)
    ensures Tracked(s, id, false)
  {
    if id in s {
      ExactIsDated(s[id]);
    }
  }

  /**
   So without rescheduling a sweep archives no blog earlier than the exact sum of the months of its
   duration after it was published.
   */
  lemma NeverArchivedEarly(s: Store, actions: seq<Action>, now: int, id: string)
    requires AllSound(s) && NoRescheduling(s, actions) && NoRescheduling(Run(s, actions), [Sweep(now)])
    requires id in Run(s, actions)
    requires Run(s, actions)[id].status != Archived && Step(Run(s, actions), Sweep(now))[id].status == Archived
    ensures var b := Step(Run(s, actions), Sweep(now))[id];
            && b.publishedAt.Some? && b.duration.Some?
            && now >= b.publishedAt.value
                      + MS_PER_DAY * MonthSum(MonthOf(Day(b.publishedAt.value)), Months(b.duration.value))
  {
    hide ArchiveTime, MonthSum, MonthOf, Months, SweepOne, Due, Sound, Run;
    RunsKeepSound(s, actions);
    var b := Run(s, actions)[id];
    ExactIsDated(b);
    ArchivingSweep(b, now);
    SweepArchivesEarlyIff(b, now);
  }

  /** Publish, schedule again, sweep after the old archive date: published and archived at the same instant. */
  lemma RescheduledRunArchivesAtOnce(id: string, slug: string, d: Duration, t: int, later: int)
    requires ArchiveTime(t, d) <= later && slug != ""
    ensures var publish := Create(id, Request(Some(slug), Some(Published), None, Keep, Set(d)), t);
            var schedule := Update(id, Request(None, Some(Scheduled), None, Set(later), Keep), t);
            var end := Run(map[], [publish, schedule, Sweep(later)]);
            id in end && end[id].status == Archived && end[id].publishedAt == Some(later) && Early(end[id], later)
  {
    hide ArchiveTime, Early;
    var publish := Create(id, Request(Some(slug), Some(Published), None, Keep, Set(d)), t);
    var schedule := Update(id, Request(None, Some(Scheduled), None, Set(later), Keep), t);
    var s0: Store := map[];
    var s1 := Step(s0, publish);
    assert id in s1 && s1[id] == Blog(slug, Published, true, None, Some(t), Some(ArchiveTime(t, d)), Some(d), false);
    var s2 := Step(s1, schedule);
    assert s2[id] == Blog(slug, Scheduled, false, Some(later), Some(t), Some(ArchiveTime(t, d)), Some(d), false);
    var s3 := Step(s2, Sweep(later));
    assert s3[id] == Blog(slug, Archived, false, Some(later), Some(later), Some(ArchiveTime(t, d)), Some(d), false);
    assert s3 == Run(s3, []);
    assert s3 == Run(s2, [Sweep(later)]);
    assert s3 == Run(s1, [schedule, Sweep(later)]);
    assert s3 == Run(s0, [publish, schedule, Sweep(later)]);
    EarlyIsBeforeArchiveTime(s3[id], later);
  }

  /** A published blog without an archive date is left as it is by every run that does not edit it. */
  lemma {:induction false} UndatedStaysPublished(s: Store, actions: seq<Action>, id: string)
    requires id in s && s[id].status == Published && s[id].autoArchiveAt.None?
    requires forall a | a in actions :: (a.Update? || a.Remove?) ==> a.id != id
    ensures id in Run(s, actions) && Run(s, actions)[id] == s[id]
    decreases |actions|
  {
    hide Created, Updated, SlugTaken;
    if actions != [] {
      assert Step(s, actions[0])[id] == s[id];
      UndatedStaysPublished(Step(s, actions[0]), actions[1..], id);
    }
  }

  // ---- Visibility over runs ---------------------------------------------------------------------------

  ghost predicate AllAligned(s: Store) {
    forall id | id in s :: Aligned(s[id])
  }

  /** An accepted request without a status that sets the flag against the status, or creates an active draft. */
  ghost predicate Misleads(s: Store, a: Action) {
    && OutcomeOf(s, a).Done?
    && match a {
         case Create(_, r, _) => r.status.None? && r.isActive != Some(false)
         case Update(id, r, _) => r.status.None? && r.isActive.Some? && r.isActive.value != (s[id].status == Published)
         case _ => false
       }
  }

  /** Any step keeps exactly the published blogs active, except exactly when a request misleads. */
  lemma StepKeepsAlignedIff(s: Store, a: Action)
    requires AllAligned(s)
    ensures AllAligned(Step(s, a)) <==> !Misleads(s, a)
  {
    hide Created, Updated, SlugTaken, SweepOne;
    var t := Step(s, a);
    if OutcomeOf(s, a).Done? {
      match a
      case Create(id, r, now) =>
        RequestAligns(BLANK, r, now);
        assert t[id] == Created(r, now);
      case Update(id, r, now) =>
        RequestAligns(s[id], r, now);
        assert t[id] == Updated(s[id], r, now);
      case Remove(_) =>
      case Sweep(now) =>
        forall id | id in s
          ensures Aligned(SweepOne(s[id], now))
        {
          SweptAlignment(s[id], now);
        }
    }
  }

  /** The request gives a status, or says nothing about the flag; a new blog may also be created inactive. */
  predicate Plainspoken(a: Action) {
    match a
    case Create(_, r, _) => r.status.Some? || r.isActive == Some(false)
    case Update(_, r, _) => r.status.Some? || r.isActive.None?
    case _ => true
  }

  lemma PlainspokenIsHonest(s: Store, a: Action)
    requires Plainspoken(a)
    ensures !Misleads(s, a)
  {
  }

  /** Over every run of such requests, removals and sweeps exactly the published blogs are active. */
  lemma {:induction false} RunsKeepAligned(s: Store, actions: seq<Action>)
    requires AllAligned(s) && forall a | a in actions :: Plainspoken(a)
    ensures AllAligned(Run(s, actions))
    decreases |actions|
  {
    hide Step, OutcomeOf, AllAligned, Misleads;
    if actions != [] {
      PlainspokenIsHonest(s, actions[0]);
      StepKeepsAlignedIff(s, actions[0]);
      RunsKeepAligned(Step(s, actions[0]), actions[1..]);
    }
  }

  // ---- Slugs over runs ----------------------------------------------------------------------------------

  /** No two blogs share a slug, deleted ones included. */
  ghost predicate SlugsUnique(s: Store) {
    forall i, j | i in s && j in s && s[i].slug == s[j].slug :: i == j
  }

  lemma EditedSlugs(b: Blog, r: Request, now: int)
    ensures Created(r, now).slug == if r.slug.Some? then r.slug.value else ""
    ensures Updated(b, r, now).slug == if r.slug.Some? then r.slug.value else b.slug
  {
    hide ArchiveTime;
  }

  lemma SweptSlug(b: Blog, now: int)
    ensures SweepOne(b, now).slug == b.slug && SweepOne(b, now).deleted == b.deleted
  {
  }

  lemma StepKeepsSlugsUnique(s: Store, a: Action)
    requires SlugsUnique(s)
    ensures SlugsUnique(Step(s, a))
  {
    hide Created, Updated, SweepOne;
    if OutcomeOf(s, a).Done? {
      match a
      case Create(_, r, now) => EditedSlugs(BLANK, r, now);
      case Update(id, r, now) => EditedSlugs(s[id], r, now);
      case Remove(_) =>
      case Sweep(now) =>
        forall id | id in s
          ensures SweepOne(s[id], now).slug == s[id].slug
        {
          SweptSlug(s[id], now);
        }
    }
  }

  /** Over every run the slugs stay unique. */
  lemma {:induction false} RunsKeepSlugsUnique(s: Store, actions: seq<Action>)
    requires SlugsUnique(s)
    ensures SlugsUnique(Run(s, actions))
    decreases |actions|
  {
    hide Step, SlugsUnique;
    if actions != [] {
      StepKeepsSlugsUnique(s, actions[0]);
      RunsKeepSlugsUnique(Step(s, actions[0]), actions[1..]);
    }
  }

  lemma {:induction false} DeletedStays(s: Store, actions: seq<Action>, id: string)
    requires id in s && s[id].deleted
    ensures id in Run(s, actions) && Run(s, actions)[id] == s[id]
    decreases |actions|
  {
    hide Created, Updated, SlugTaken;
    if actions != [] {
      assert Step(s, actions[0])[id] == s[id];
      DeletedStays(Step(s, actions[0]), actions[1..], id);
    }
  }

  /** A removed blog keeps its slug for good: no later create or update can take it. */
  lemma DeletedSlugIsLost(s: Store, actions: seq<Action>, id: string, other: string, r: Request, now: int)
    requires id in s && s[id].deleted && r.slug == Some(s[id].slug) && other != id
    ensures CreateSpec(Run(s, actions), other, r, now).Failed?
    ensures UpdateSpec(Run(s, actions), other, r, now).Failed?
  {
    hide Run;
    DeletedStays(s, actions, id);
    assert SlugTaken(Run(s, actions), s[id].slug, None, true);
  }

  // ---- The services -----------------------------------------------------------------------------

  /** The request object the service fills in place before it stores it. */
  class BlogDto {
    const request: Request
    var isActive: Option<bool>
    var publishedAt: Option<int>
    var autoArchiveAt: Patch<int>

    constructor (request: Request)
      ensures this.request == request && isActive == request.isActive && publishedAt == None && autoArchiveAt == Keep
    {
      this.request := request;
      isActive, publishedAt, autoArchiveAt := request.isActive, None, Keep;
    }

    ghost function Fields(): Derived
      reads this
    {
      Derived(isActive, publishedAt, autoArchiveAt)
    }
  }

  class BlogsService {
    var blogs: Store

    constructor ()
      ensures blogs == map[]
    {
      blogs := map[];
    }

    method HandleStatusTransitions(dto: BlogDto, existing: Option<Blog>, now: int)
      requires dto.isActive == dto.request.isActive && dto.publishedAt == None && dto.autoArchiveAt == Keep
      modifies dto
      ensures dto.Fields()
           == (if existing.Some? then Derive(dto.request, existing.value.publishedAt, existing.value.duration, now)
               else Derive(dto.request, None, None, now))
    {
      hide ArchiveTime;
      var status, duration := dto.request.status, dto.request.duration;
      if status.Some? {
        if status.value == Published {
          dto.isActive := Some(true);
          if existing.None? || existing.value.publishedAt.None? {
            dto.publishedAt := Some(now);
          }
        } else {
          dto.isActive := Some(false);
        }
      }
      var publishedAt := dto.publishedAt;
      if publishedAt.None? && existing.Some? {
        publishedAt := existing.value.publishedAt;
      }
      var kept: Option<Duration> := None;
      if duration.Set? {
        kept := Some(duration.value);
      } else if duration.Keep? && existing.Some? {
        kept := existing.value.duration;
      }
      if publishedAt.Some? && kept.Some? {
        var at := CalculateArchiveDate(publishedAt.value, kept.value);
        dto.autoArchiveAt := Set(at);
      } else if duration.Clear? {
        dto.autoArchiveAt := Clear;
      }
    }

    method Create(id: string, request: Request, now: int) returns (error: Option<Error>)
      modifies this
      ensures match CreateSpec(old(blogs), id, request, now) {
                case Done(s) => error == None && blogs == s
                case Failed(e) => error == Some(e) && blogs == old(blogs)
              }
    {
      hide ArchiveTime;
      if request.slug.Some? && SlugTaken(blogs, request.slug.value, None, false) {
        return Some(Conflict);
      }
      var dto := new BlogDto(request);
      HandleStatusTransitions(dto, None, now);
      if request.slug.None? || request.slug.value == "" {
        return Some(Invalid);
      }
      if id in blogs || SlugTaken(blogs, request.slug.value, None, true) {
        return Some(DuplicateKey);
      }
      blogs := blogs[id := Merge(BLANK, request, Derived(dto.isActive, dto.publishedAt, dto.autoArchiveAt))];
      error := None;
    }

    method Update(id: string, request: Request, now: int) returns (error: Option<Error>)
      modifies this
      ensures match UpdateSpec(old(blogs), id, request, now) {
                case Done(s) => error == None && blogs == s
                case Failed(e) => error == Some(e) && blogs == old(blogs)
              }
    {
      hide ArchiveTime;
      if id !in blogs || blogs[id].deleted {
        return Some(NotFound);
      }
      var existing := blogs[id];
      var dto := new BlogDto(request);
      HandleStatusTransitions(dto, Some(existing), now);
      if request.slug.Some? && SlugTaken(blogs, request.slug.value, Some(id), true) {
        return Some(DuplicateKey);
      }
      blogs := blogs[id := Merge(existing, request, Derived(dto.isActive, dto.publishedAt, dto.autoArchiveAt))];
      error := None;
    }

    /** Two bulk updates, one after the other. */
    method RunMaintenance(now: int)
      modifies this
      ensures blogs == SweepSpec(old(blogs), now)
    {
      blogs := map id | id in blogs :: Publish(blogs[id], now);
      blogs := map id | id in blogs :: Archive(blogs[id], now);
    }
  }
}
