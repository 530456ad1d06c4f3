/** What creating, updating, removing and sweeping store in a blog, and when its publication date changes. */
module BlogEffects {
  import opened Common
  import opened Calendar
  import opened Blogs

  // ---- Requests --------------------------------------------------------------------------------

  /** A field that is left out stays, null empties it, and a value replaces it. */
  ghost predicate Stores<T(!new)>(was: Option<T>, given: Patch<T>, now: Option<T>) {
    && (given == Keep ==> now == was)
    && (given == Clear ==> now == None)
    && (forall v :: given == Set(v) ==> now == Some(v))
  }

  /** The publication date stays once it is set; until then a request for publication sets it. */
  ghost predicate StoresPublication(was: Option<int>, r: Request, now: int, publishedAt: Option<int>) {
    && (was.Some? ==> publishedAt == was)
    && (was.None? && r.status == Some(Published) ==> publishedAt == Some(now))
    && (was.None? && r.status != Some(Published) ==> publishedAt == None)
  }

  /** The flag follows a given status; without one it is the given flag, or what it was. */
  ghost predicate StoresFlag(was: bool, r: Request, isActive: bool) {
    if r.status.Some? then isActive <==> r.status == Some(Published)
    else if r.isActive.Some? then r.isActive == Some(isActive)
    else isActive == was
  }

  /** The archive date follows from publication and duration; without both it is emptied by an emptied duration. */
  ghost predicate StoresArchiveDate(was: Option<int>, r: Request, b: Blog) {
    if b.publishedAt.Some? && b.duration.Some? then
      b.autoArchiveAt == Some(ArchiveTime(b.publishedAt.value, b.duration.value))
    else if r.duration == Clear then b.autoArchiveAt == None
    else b.autoArchiveAt == was
  }

  ghost predicate StoresRequest(was: Blog, r: Request, now: int, b: Blog) {
    && (if r.slug.Some? then r.slug == Some(b.slug) else b.slug == was.slug)
    && (if r.status.Some? then r.status == Some(b.status) else b.status == was.status)
    && StoresFlag(was.isActive, r, b.isActive)
    && Stores(was.scheduledAt, r.scheduledAt, b.scheduledAt)
    && Stores(was.duration, r.duration, b.duration)
    && StoresPublication(was.publishedAt, r, now, b.publishedAt)
    && StoresArchiveDate(was.autoArchiveAt, r, b)
    && b.deleted == was.deleted
  }

  lemma UpdatedStores(b: Blog, r: Request, now: int)
    ensures StoresRequest(b, r, now, Updated(b, r, now))
  {
    hide ArchiveTime;
  }

  /** A new blog starts as an active draft without dates. */
  ghost predicate StartsBlank(b: Blog) {
    && b.status == Draft && b.isActive && !b.deleted
    && b.scheduledAt == None && b.publishedAt == None && b.autoArchiveAt == None && b.duration == None
  }

  lemma CreatedStores(r: Request, now: int)
    ensures exists blank :: StartsBlank(blank) && StoresRequest(blank, r, now, Created(r, now))
  {
    hide ArchiveTime;
    assert StartsBlank(BLANK) && StoresRequest(BLANK, r, now, Created(r, now));
  }

  ghost predicate SlugInUse(s: Store, slug: string, except: Option<string>) {
    exists other :: other in s && Some(other) != except && s[other].slug == slug
  }

  ghost predicate SlugInLiveUse(s: Store, slug: string) {
    exists other :: other in s && !s[other].deleted && s[other].slug == slug
  }

  /** What a create refuses, in this order, and stores. */
  lemma Creates(s: Store, id: string, r: Request, now: int)
    ensures var o := CreateSpec(s, id, r, now);
            if r.slug.Some? && SlugInLiveUse(s, r.slug.value) then o == Failed(Conflict)
            else if r.slug == None || r.slug == Some("") then o == Failed(Invalid)
            else if id in s || SlugInUse(s, r.slug.value, None) then o == Failed(DuplicateKey)
            else
              && o.Done? && o.store.Keys == s.Keys + {id}
              && (forall other | other in s :: o.store[other] == s[other])
              && exists blank :: StartsBlank(blank) && StoresRequest(blank, r, now, o.store[id])
  {
    hide Created, StoresRequest, StartsBlank;
    CreatedStores(r, now);
  }

  /** What an update refuses, in this order, and stores: deleted blogs are not found, but keep their slugs. */
  lemma Updates(s: Store, id: string, r: Request, now: int)
    ensures var o := UpdateSpec(s, id, r, now);
            if id !in s || s[id].deleted then o == Failed(NotFound)
            else if r.slug.Some? && SlugInUse(s, r.slug.value, Some(id)) then o == Failed(DuplicateKey)
            else
              && o.Done? && o.store.Keys == s.Keys
              && (forall other | other in s && other != id :: o.store[other] == s[other])
              && StoresRequest(s[id], r, now, o.store[id])
  {
    hide Updated, StoresRequest;
    if id in s {
      UpdatedStores(s[id], r, now);
    }
  }

  /** A removal marks the blog and touches nothing else. */
  lemma Removes(s: Store, id: string)
    ensures var o := RemoveSpec(s, id);
            if id !in s || s[id].deleted then o == Failed(NotFound)
            else
              && o.Done? && o.store.Keys == s.Keys
              && (forall other | other in s && other != id :: o.store[other] == s[other])
              && o.store[id].deleted && o.store[id].(deleted := false) == s[id]
  {
  }

  // ---- The sweep ---------------------------------------------------------------------------------

  /** A live blog scheduled for this instant or before. */
  ghost predicate IsDue(b: Blog, now: int) {
    !b.deleted && b.status == Scheduled && exists at :: b.scheduledAt == Some(at) && at <= now
  }

  ghost predicate DateHasCome(b: Blog, now: int) {
    exists at :: b.autoArchiveAt == Some(at) && at <= now
  }

  /** What a sweep makes of a blog; a due one whose archive date has come goes straight into the archive. */
  lemma Sweeps(s: Store, now: int, id: string)
    requires id in s
    ensures var b := s[id];
            var t := SweepSpec(s, now);
            && t.Keys == s.Keys
            && (IsDue(b, now) && !DateHasCome(b, now) ==>
                  t[id] == b.(status := Published, isActive := true, publishedAt := Some(now)))
            && (IsDue(b, now) && DateHasCome(b, now) ==>
                  t[id] == b.(status := Archived, isActive := false, publishedAt := Some(now)))
            && (!b.deleted && b.status == Published && DateHasCome(b, now) ==>
                  t[id] == b.(status := Archived, isActive := false))
            && (!IsDue(b, now) && (b.deleted || b.status != Published || !DateHasCome(b, now)) ==> t[id] == b)
  {
  }

  // ---- When the publication date changes -----------------------------------------------------------

  /** The step publishes the blog: a first accepted request for it, or a sweep that finds it due. */
  ghost predicate Publishes(s: Store, a: Action, id: string)
    requires id in s
  {
    match a
    case Update(target, r, _) =>
      target == id && OutcomeOf(s, a).Done? && r.status == Some(Published) && s[id].publishedAt == None
    case Sweep(now) => IsDue(s[id], now)
    case _ => false
  }

  lemma StepMovesPublication(s: Store, a: Action, id: string)
    requires id in s
    ensures id in Step(s, a)
    ensures Step(s, a)[id].publishedAt == if Publishes(s, a, id) then Some(a.now) else s[id].publishedAt
  {
    hide CreateSpec, UpdateSpec, RemoveSpec, SweepSpec, IsDue, StoresRequest;
    match a
    case Create(other, r, now) => Creates(s, other, r, now);
    case Update(other, r, now) =>
      Updates(s, other, r, now);
      if other == id && OutcomeOf(s, a).Done? {
        RequestKeepsPublication(s[id], r, now, Step(s, a)[id]);
      }
    case Remove(other) => Removes(s, other);
    case Sweep(now) =>
      Sweeps(s, now, id);
      DueIsScheduled(s[id], now);
  }

  lemma RequestKeepsPublication(was: Blog, r: Request, now: int, b: Blog)
    requires StoresRequest(was, r, now, b)
    ensures b.publishedAt == if r.status == Some(Published) && was.publishedAt == None then Some(now)
                             else was.publishedAt
  {
  }

  lemma DueIsScheduled(b: Blog, now: int)
    ensures IsDue(b, now) ==> !b.deleted && b.status == Scheduled
  {
  }

  ghost predicate NeverPublishes(s: Store, actions: seq<Action>, id: string)
    requires id in s
    decreases |actions|
  {
    StepsKeepBlogs(s, actions, id);
    actions != [] ==> !Publishes(s, actions[0], id) && NeverPublishes(Step(s, actions[0]), actions[1..], id)
  }

  lemma StepsKeepBlogs(s: Store, actions: seq<Action>, id: string)
    requires id in s
    ensures actions != [] ==> id in Step(s, actions[0])
  {
    if actions != [] {
      StepMovesPublication(s, actions[0], id);
    }
  }

  /** Over every run the date stays until the first publishing step, and that step sets it to its own instant. */
  lemma {:induction false} PublicationStaysUntil(s: Store, before: seq<Action>, a: Action, id: string)
    requires id in s && NeverPublishes(s, before, id)
    ensures id in Run(s, before) && Run(s, before)[id].publishedAt == s[id].publishedAt
    ensures Step(Run(s, before), a)[id].publishedAt ==
              if Publishes(Run(s, before), a, id) then Some(a.now) else s[id].publishedAt
    decreases |before|
  {
    hide Step, Publishes;
    if before == [] {
      StepMovesPublication(s, a, id);
    } else {
      StepMovesPublication(s, before[0], id);
      PublicationStaysUntil(Step(s, before[0]), before[1..], a, id);
    }
  }
}
