/**
 Write-behind engagement counters (src/modules/blogs/blogs.service.ts, bufferEngagement, and
 src/modules/blogs/processors/blog-engagement.processor.ts). Actions are counted in the shared
 cache; a sync job reads them, adds them to the stored blog and deletes them, and other requests
 may come in between any two of these steps.
 */
module Engagement {

  datatype Kind = Likes | Views | Comments

  datatype Counts = Counts(likes: nat, views: nat, comments: nat) {
    function Of(kind: Kind): nat {
      match kind
      case Likes => likes
      case Views => views
      case Comments => comments
    }
  }

  const ZERO := Counts(0, 0, 0)

  function Plus(a: Counts, b: Counts): Counts {
    Counts(a.likes + b.likes, a.views + b.views, a.comments + b.comments)
  }

  /** The cache is one for the whole application; menus and one-time codes live in it too. */
  datatype CacheKey = Counter(blog: string, kind: Kind) | Foreign(name: string)

  type Cache = map<CacheKey, nat>

  /** Where the one sync job of a blog stands. */
  datatype Phase = Idle | HasRead(counts: Counts) | HasAdded(counts: Counts)

  datatype State = State(cache: Cache, stored: map<string, Counts>, phases: map<string, Phase>)

  function Buffered(s: State, blog: string, kind: Kind): nat {
    if Counter(blog, kind) in s.cache then s.cache[Counter(blog, kind)] else 0
  }

  function ReadCounts(s: State, blog: string): Counts {
    Counts(Buffered(s, blog, Likes), Buffered(s, blog, Views), Buffered(s, blog, Comments))
  }

  function Stored(s: State, blog: string, kind: Kind): nat {
    if blog in s.stored then s.stored[blog].Of(kind) else 0
  }

  function PhaseOf(s: State, blog: string): Phase {
    if blog in s.phases then s.phases[blog] else Idle
  }

  datatype Action =
    | Accept(blog: string, kind: Kind)
    | SyncRead(blog: string)
    | SyncAdd(blog: string)
    | SyncDelete(blog: string)
    | ClearCache
    | Expire(key: CacheKey)

  function CounterKeys(blog: string): set<CacheKey> {
    {Counter(blog, Likes), Counter(blog, Views), Counter(blog, Comments)}
  }

  function AcceptSpec(s: State, blog: string, kind: Kind): State {
    if blog !in s.stored then s
    else s.(cache := s.cache[Counter(blog, kind) := Buffered(s, blog, kind) + 1])
  }

  /** A sync that reads nothing ends at once. */
  function SyncReadSpec(s: State, blog: string): State {
    if PhaseOf(s, blog) != Idle || ReadCounts(s, blog) == ZERO then s
    else s.(phases := s.phases[blog := HasRead(ReadCounts(s, blog))])
  }

  function SyncAddSpec(s: State, blog: string): State {
    match PhaseOf(s, blog)
    case HasRead(c) =>
      s.(stored := if blog in s.stored then s.stored[blog := Plus(s.stored[blog], c)] else s.stored,
         phases := s.phases[blog := HasAdded(c)])
    case _ => s
  }

  function SyncDeleteSpec(s: State, blog: string): State {
    if PhaseOf(s, blog).HasAdded? then
      s.(cache := s.cache - CounterKeys(blog), phases := s.phases[blog := Idle])
    else s
  }

  function Step(s: State, a: Action): State {
    match a
    case Accept(blog, kind) => AcceptSpec(s, blog, kind)
    case SyncRead(blog) => SyncReadSpec(s, blog)
    case SyncAdd(blog) => SyncAddSpec(s, blog)
    case SyncDelete(blog) => SyncDeleteSpec(s, blog)
    case ClearCache => s.(cache := map[])
    case Expire(key) => s.(cache := s.cache - {key})
  }

  function Run(s: State, actions: seq<Action>): State {
    if actions == [] then s else Step(Run(s, actions[..|actions| - 1]), actions[|actions| - 1])
  }

  // ---- What was done, and what gets lost, read off the run -----------------------------------

  /** Actions of one kind on one existing blog. */
  function Accepted(s: State, actions: seq<Action>, blog: string, kind: Kind): nat {
    if actions == [] then 0
    else
      var front, a := actions[..|actions| - 1], actions[|actions| - 1];
      Accepted(s, front, blog, kind)
      + if a == Accept(blog, kind) && blog in Run(s, front).stored then 1 else 0
  }

  /** Accepted actions that land between the read and the delete of a sync of that blog. */
  function LandedInSync(s: State, actions: seq<Action>, blog: string, kind: Kind): nat {
    if actions == [] then 0
    else
      var front, a := actions[..|actions| - 1], actions[|actions| - 1];
      LandedInSync(s, front, blog, kind)
      + if a == Accept(blog, kind) && blog in Run(s, front).stored && PhaseOf(Run(s, front), blog) != Idle then 1 else 0
  }

  predicate Wipes(a: Action, blog: string, kind: Kind) {
    a == ClearCache || a == Expire(Counter(blog, kind))
  }

  /** Counts still buffered, with no sync under way, when the cache is cleared or the counter expires. */
  function WipedIdle(s: State, actions: seq<Action>, blog: string, kind: Kind): nat {
    if actions == [] then 0
    else
      var front, a := actions[..|actions| - 1], actions[|actions| - 1];
      WipedIdle(s, front, blog, kind)
      + if Wipes(a, blog, kind) && PhaseOf(Run(s, front), blog) == Idle
        then Buffered(Run(s, front), blog, kind) else 0
  }

  /** Nothing buffered or stored, no sync under way. */
  predicate Fresh(s: State) {
    s.cache == map[] && s.phases == map[] && forall b | b in s.stored :: s.stored[b] == ZERO
  }

  /** Stored plus what is still to come, phase by phase. */
  function Held(s: State, blog: string, kind: Kind): nat {
    Stored(s, blog, kind)
    + match PhaseOf(s, blog) {
        case Idle => Buffered(s, blog, kind)
        case HasRead(c) => c.Of(kind)
        case HasAdded(_) => 0
      }
  }

  predicate OnlyKnownBlogs(s: State) {
    && (forall k | k in s.cache :: k.Counter? ==> k.blog in s.stored)
    && (forall b | b in s.phases :: s.phases[b] != Idle ==> b in s.stored)
  }

  lemma StepKeepsKnown(s: State, a: Action)
    requires OnlyKnownBlogs(s)
    ensures OnlyKnownBlogs(Step(s, a))
  {
  }

  lemma AcceptMovesHeld(s: State, at: string, done: Kind, blog: string, kind: Kind)
    ensures Held(AcceptSpec(s, at, done), blog, kind)
            == Held(s, blog, kind)
               + if at == blog && done == kind && blog in s.stored && PhaseOf(s, blog) == Idle then 1 else 0
  {
  }

  lemma SyncKeepsHeld(s: State, at: string, blog: string, kind: Kind)
    requires OnlyKnownBlogs(s)
    ensures Held(SyncReadSpec(s, at), blog, kind) == Held(s, blog, kind)
    ensures Held(SyncAddSpec(s, at), blog, kind) == Held(s, blog, kind)
    ensures Held(SyncDeleteSpec(s, at), blog, kind) == Held(s, blog, kind)
  {
    if at == blog {
      match kind
      case Likes =>
      case Views =>
      case Comments =>
    }
  }

  lemma WipeMovesHeld(s: State, key: CacheKey, blog: string, kind: Kind)
    ensures var lost := if PhaseOf(s, blog) == Idle then Buffered(s, blog, kind) else 0;
            && Held(s.(cache := map[]), blog, kind) + lost == Held(s, blog, kind)
            && Held(s.(cache := s.cache - {key}), blog, kind) + (if key == Counter(blog, kind) then lost else 0)
               == Held(s, blog, kind)
  {
  }

  /** How one step moves the account of one counter. */
  lemma StepMovesHeld(s: State, a: Action, blog: string, kind: Kind)
    requires OnlyKnownBlogs(s)
    ensures Held(Step(s, a), blog, kind)
            + (if Wipes(a, blog, kind) && PhaseOf(s, blog) == Idle then Buffered(s, blog, kind) else 0)
            == Held(s, blog, kind)
               + (if a == Accept(blog, kind) && blog in s.stored && PhaseOf(s, blog) == Idle then 1 else 0)
  {
    hide Held, AcceptSpec, SyncReadSpec, SyncAddSpec, SyncDeleteSpec;
    match a
    case Accept(b, k) => AcceptMovesHeld(s, b, k, blog, kind);
    case SyncRead(b) => SyncKeepsHeld(s, b, blog, kind);
    case SyncAdd(b) => SyncKeepsHeld(s, b, blog, kind);
    case SyncDelete(b) => SyncKeepsHeld(s, b, blog, kind);
    case ClearCache => WipeMovesHeld(s, Foreign(""), blog, kind);
    case Expire(key) => WipeMovesHeld(s, key, blog, kind);
  }

  lemma {:induction false} Account(s: State, actions: seq<Action>, blog: string, kind: Kind)
    requires Fresh(s)
    ensures OnlyKnownBlogs(Run(s, actions))
    ensures Held(Run(s, actions), blog, kind)
            + LandedInSync(s, actions, blog, kind) + WipedIdle(s, actions, blog, kind)
            == Accepted(s, actions, blog, kind)
  {
    if actions != [] {
      var front, a := actions[..|actions| - 1], actions[|actions| - 1];
      Account(s, front, blog, kind);
      StepKeepsKnown(Run(s, front), a);
      hide Held;
      StepMovesHeld(Run(s, front), a, blog, kind);
    }
  }

  /**
   Whenever no sync of the blog is in flight, stored plus buffered is what was accepted, minus
   what landed inside a sync and what a cache clear or expiry wiped.
   */
  lemma EngagementConserved(s: State, actions: seq<Action>, blog: string, kind: Kind)
    requires Fresh(s) && PhaseOf(Run(s, actions), blog) == Idle
    ensures var end := Run(s, actions);
            Stored(end, blog, kind) + Buffered(end, blog, kind)
            == Accepted(s, actions, blog, kind)
               - LandedInSync(s, actions, blog, kind) - WipedIdle(s, actions, blog, kind)
  {
    Account(s, actions, blog, kind);
  }

  lemma {:induction false} NothingWiped(s: State, actions: seq<Action>, blog: string, kind: Kind)
    requires forall a | a in actions :: !Wipes(a, blog, kind)
    ensures WipedIdle(s, actions, blog, kind) == 0
  {
    if actions != [] {
      var front := actions[..|actions| - 1];
      assert actions[|actions| - 1] in actions && forall a | a in front :: a in actions;
      NothingWiped(s, front, blog, kind);
    }
  }

  /** Without clears and expiry it never over-counts, and is exact if and only if nothing landed inside a sync. */
  lemma ExactIffNothingLanded(s: State, actions: seq<Action>, blog: string, kind: Kind)
    requires Fresh(s) && PhaseOf(Run(s, actions), blog) == Idle
    requires forall a | a in actions :: !Wipes(a, blog, kind)
    ensures var total := Stored(Run(s, actions), blog, kind) + Buffered(Run(s, actions), blog, kind);
            && total <= Accepted(s, actions, blog, kind)
            && (total == Accepted(s, actions, blog, kind) <==> LandedInSync(s, actions, blog, kind) == 0)
  {
    EngagementConserved(s, actions, blog, kind);
    NothingWiped(s, actions, blog, kind);
  }

  /** Between add and delete a reader of both sides counts the synced actions twice. */
  lemma DoubleCountDuringSync(s: State, actions: seq<Action>, blog: string, kind: Kind)
    requires Fresh(s) && PhaseOf(Run(s, actions), blog).HasAdded?
    ensures var end := Run(s, actions);
            Stored(end, blog, kind) + LandedInSync(s, actions, blog, kind) + WipedIdle(s, actions, blog, kind)
            == Accepted(s, actions, blog, kind)
  {
    Account(s, actions, blog, kind);
  }

  // ---- What the steps do -----------------------------------------------------------------------

  /** A sync that nothing interrupts moves every buffered count of its blog into the store and ends. */
  lemma UndisturbedSyncMoves(s: State, blog: string, other: string, kind: Kind)
    requires blog in s.stored && PhaseOf(s, blog) == Idle
    ensures var t := Step(Step(Step(s, SyncRead(blog)), SyncAdd(blog)), SyncDelete(blog));
            && t.stored.Keys == s.stored.Keys
            && Stored(t, blog, kind) == Stored(s, blog, kind) + Buffered(s, blog, kind)
            && Buffered(t, blog, kind) == 0 && (blog in t.phases ==> t.phases[blog] == Idle)
            && (other != blog ==>
                  Stored(t, other, kind) == Stored(s, other, kind) && Buffered(t, other, kind) == Buffered(s, other, kind)
                  && PhaseOf(t, other) == PhaseOf(s, other))
  {
    match kind
    case Likes =>
    case Views =>
    case Comments =>
  }

  /** In between it holds what it read, and only the last step takes anything from the cache. */
  lemma SyncStepByStep(s: State, blog: string)
    requires blog in s.stored && PhaseOf(s, blog) == Idle
    requires Buffered(s, blog, Likes) + Buffered(s, blog, Views) + Buffered(s, blog, Comments) > 0
    ensures var read := Step(s, SyncRead(blog));
            var added := Step(read, SyncAdd(blog));
            && read.cache == added.cache == s.cache && read.stored == s.stored
            && blog in read.phases && read.phases[blog].HasRead?
            && blog in added.phases && added.phases[blog].HasAdded?
            && forall kind :: read.phases[blog].counts.Of(kind) == Buffered(s, blog, kind)
  {
  }

  /** An action on a known blog is one more in its own counter; everything else is left alone. */
  lemma AcceptedCountsOne(s: State, blog: string, kind: Kind, key: CacheKey)
    ensures var t := Step(s, Accept(blog, kind));
            && t.stored == s.stored && t.phases == s.phases
            && (blog !in s.stored ==> t == s)
            && (blog in s.stored ==>
                  Counter(blog, kind) in t.cache && t.cache[Counter(blog, kind)] == Buffered(s, blog, kind) + 1)
            && (key != Counter(blog, kind) ==>
                  (key in t.cache <==> key in s.cache) && (key in s.cache ==> t.cache[key] == s.cache[key]))
  {
  }

  // ---- The code that runs ---------------------------------------------------------------------

  class EngagementBuffer {
    var cache: Cache
    var stored: map<string, Counts>
    var phases: map<string, Phase>

    ghost function View(): State
      reads this
    {
      State(cache, stored, phases)
    }

    constructor (blogs: set<string>)
      ensures Fresh(View()) && stored.Keys == blogs
    {
      cache, phases := map[], map[];
      stored := map b | b in blogs :: ZERO;
    }

    method GetOrZero(key: CacheKey) returns (n: nat)
      ensures n == if key in cache then cache[key] else 0
    {
      n := if key in cache then cache[key] else 0;
    }

    /** A like, a view or a comment: look the blog up, then count the action in the cache. */
    method Engage(blog: string, kind: Kind) returns (found: bool)
      modifies this`cache
      ensures found == (blog in stored)
      ensures View() == AcceptSpec(old(View()), blog, kind)
    {
      if blog !in stored {
        return false;
      }
      var current := GetOrZero(Counter(blog, kind));
      cache := cache[Counter(blog, kind) := current + 1];
      found := true;
    }

    method ReadStep(blog: string)
      modifies this`phases
      ensures View() == SyncReadSpec(old(View()), blog)
    {
      if blog in phases && phases[blog] != Idle {
        return;
      }
      var likes := GetOrZero(Counter(blog, Likes));
      var views := GetOrZero(Counter(blog, Views));
      var comments := GetOrZero(Counter(blog, Comments));
      if likes == 0 && views == 0 && comments == 0 {
        return;
      }
      phases := phases[blog := HasRead(Counts(likes, views, comments))];
    }

    method AddStep(blog: string)
      modifies this`stored, this`phases
      ensures View() == SyncAddSpec(old(View()), blog)
    {
      if blog in phases && phases[blog].HasRead? {
        var c := phases[blog].counts;
        if blog in stored {
          var old_ := stored[blog];
          stored := stored[blog := Counts(old_.likes + c.likes, old_.views + c.views, old_.comments + c.comments)];
        }
        phases := phases[blog := HasAdded(c)];
      }
    }

    method DeleteStep(blog: string)
      modifies this`cache, this`phases
      ensures View() == SyncDeleteSpec(old(View()), blog)
    {
      if blog in phases && phases[blog].HasAdded? {
        cache := cache - {Counter(blog, Likes)};
        cache := cache - {Counter(blog, Views)};
        cache := cache - {Counter(blog, Comments)};
        phases := phases[blog := Idle];
      }
    }

    /** A sync nobody interferes with moves every buffered count into the store. */
    method HandleSyncEngagement(blog: string)
      requires blog in stored && (blog in phases ==> phases[blog] == Idle)
      modifies this
      ensures stored == old(stored)[blog := Plus(old(stored)[blog], ReadCounts(old(View()), blog))]
      ensures forall kind :: Buffered(View(), blog, kind) == 0
      ensures forall k | k in cache :: k in old(cache) && cache[k] == old(cache)[k]
      ensures forall k | k in old(cache) && k !in CounterKeys(blog) :: k in cache
    {
      ReadStep(blog);
      AddStep(blog);
      DeleteStep(blog);
      forall kind
        ensures Buffered(View(), blog, kind) == 0
      {
        match kind {
          case Likes =>
          case Views =>
          case Comments =>
        }
      }
    }
  }
}
