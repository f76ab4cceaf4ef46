/**
 The poisonable cache behind the dict view of a handle (rust/src/batch_types.rs), as a state machine
 over Python dict objects. Outer dicts and inner bins dicts both live on a heap and are known by
 reference, so the machine tells a copy of the cached dict from the cached dict itself; callers may
 change any dict that they can reach.
 */
module DictCache {
  import opened Wrappers
  import opened BatchResults
  import opened BatchViews

  /** Contents of an outer dict: user keys to references to bins dicts. */
  type Outer = map<DictKey, nat>

  /** What never changes about a handle: the raw records and how values convert. */
  datatype Source = Source(conv: Converter, inner: seq<BatchRecord>)

  /** `cache` and `handed` (what callers hold) are references to outer dicts. */
  datatype State = State(bodies: seq<PyBins>, outers: seq<Outer>, cache: Option<nat>, poisoned: bool, handed: seq<nat>)

  datatype Event =
    | Read                                      // item access, `in`, `get`, iteration, keys/values/items
    | ToDict
    | Merge                                     // `merge_to_dict` on this handle
    | ReleaseCache
    | MutateOuter(outer: nat, dict: Outer)      // a caller changes an outer dict that it holds
    | MutateInner(ref: nat, bins: PyBins)       // a caller changes a bins dict

  datatype Response = Dict(view: map<DictKey, PyBins>) | LockPoisoned | ReadRaised | ReadPanicked | Acknowledged

  const FRESH := State([], [], None, false, [])

  // ---- Conversion to objects ------------------------------------------------------------

  /** The outer dict of a conversion that puts the bins of record `i` at reference `base + i`. */
  function OuterOf(results: seq<BatchRecord>, base: nat): (outer: Outer)
    ensures forall k :: k in outer ==> base <= outer[k] < base + |results|
  {
    if results == [] then map[]
    else
      var n := |results| - 1;
      var rest := OuterOf(results[..n], base);
      if Qualifies(results[n]) then rest[KeyAt(results, n) := base + n] else rest
  }

  function SlotOf(conv: Converter, br: BatchRecord): PyBins {
    if Qualifies(br) && EntryOf(conv, br).Done? then EntryOf(conv, br).value else map[]
  }

  function Slots(conv: Converter, results: seq<BatchRecord>): (slots: seq<PyBins>)
    ensures |slots| == |results|
  {
    seq(|results|, i requires 0 <= i < |results| => SlotOf(conv, results[i]))
  }

  predicate RefsIn(outer: Outer, size: nat) {
    forall k :: k in outer ==> outer[k] < size
  }

  /** What a reader of an outer dict sees. */
  function Deref(bodies: seq<PyBins>, outer: Outer): map<DictKey, PyBins>
    requires RefsIn(outer, |bodies|)
  {
    map k | k in outer :: bodies[outer[k]]
  }

  lemma DerefOfGrownHeap(bodies: seq<PyBins>, bins: PyBins, outer: Outer, k: DictKey)
    requires RefsIn(outer, |bodies|)
    ensures RefsIn(outer, |bodies + [bins]|) && Deref(bodies + [bins], outer) == Deref(bodies, outer)
    ensures RefsIn(outer[k := |bodies|], |bodies + [bins]|)
    ensures Deref(bodies + [bins], outer[k := |bodies|]) == Deref(bodies, outer)[k := bins]
  {
  }

  lemma OuterStep(results: seq<BatchRecord>, base: nat)
    requires results != []
    ensures var n := |results| - 1;
            OuterOf(results, base) == var rest := OuterOf(results[..n], base);
                                      if Qualifies(results[n]) then rest[KeyAt(results, n) := base + n] else rest
  {
  }

  lemma ConversionStep(conv: Converter, results: seq<BatchRecord>, bodies: seq<PyBins>)
    requires results != []
    ensures RefsIn(OuterOf(results, |bodies|), |bodies + Slots(conv, results)|)
    ensures var front, br := results[..|results| - 1], results[|results| - 1];
            && RefsIn(OuterOf(front, |bodies|), |bodies + Slots(conv, front)|)
            && Deref(bodies + Slots(conv, results), OuterOf(results, |bodies|))
               == var shown := Deref(bodies + Slots(conv, front), OuterOf(front, |bodies|));
                  if Qualifies(br) then shown[KeyAt(results, |results| - 1) := SlotOf(conv, br)] else shown
  {
    var front, br := results[..|results| - 1], results[|results| - 1];
    var before, outer := bodies + Slots(conv, front), OuterOf(front, |bodies|);
    assert bodies + Slots(conv, results) == before + [SlotOf(conv, br)];
    OuterStep(results, |bodies|);
    if Qualifies(br) {
      DerefOfGrownHeap(before, SlotOf(conv, br), outer, KeyAt(results, |results| - 1));
    } else {
      DerefOfGrownHeap(before, SlotOf(conv, br), outer, OwnEntry(0));
    }
  }

  /** The objects that a conversion makes show exactly the dict view. */
  lemma {:induction false} ConversionShows(conv: Converter, results: seq<BatchRecord>, bodies: seq<PyBins>)
    requires DictConverts(conv, results)
    ensures RefsIn(OuterOf(results, |bodies|), |bodies + Slots(conv, results)|)
    ensures IsDictView(conv, results, Deref(bodies + Slots(conv, results), OuterOf(results, |bodies|)))
  {
    if results != [] {
      var n := |results| - 1;
      assert forall i: nat :: i < n ==> results[..n][i] == results[i];
      ConversionShows(conv, results[..n], bodies);
      ConversionStep(conv, results, bodies);
      assert ShowsFine(conv, results[n]);
      DictViewStep(conv, results, n, Deref(bodies + Slots(conv, results[..n]), OuterOf(results[..n], |bodies|)));
      assert results[..n + 1] == results;
    }
  }

  // ---- The machine ----------------------------------------------------------------------

  predicate WellFormed(s: State) {
    && (forall c :: 0 <= c < |s.outers| ==> RefsIn(s.outers[c], |s.bodies|))
    && (s.cache.Some? ==> s.cache.value < |s.outers|)
    && (forall i :: 0 <= i < |s.handed| ==> s.handed[i] < |s.outers|)
    && (s.poisoned ==> s.cache.None?)
  }

  /** What a reader of outer dict `c` sees. */
  function Shows(s: State, c: nat): map<DictKey, PyBins>
    requires WellFormed(s) && c < |s.outers|
  {
    Deref(s.bodies, s.outers[c])
  }

  /** `batch_to_dict_py`: new bins dicts and a new outer dict, at the end of the heap. */
  function Materialise(src: Source, s: State): (t: State)
    requires WellFormed(s)
    ensures WellFormed(t) && t.cache == s.cache && t.poisoned == s.poisoned && t.handed == s.handed
    ensures |t.outers| == |s.outers| + 1 && |t.bodies| >= |s.bodies|
  {
    s.(bodies := s.bodies + Slots(src.conv, src.inner), outers := s.outers + [OuterOf(src.inner, |s.bodies|)])
  }

  /** `cached_dict`: the lock fails when poisoned; a panic while converting poisons it. */
  function ReadCache(src: Source, s: State): (t: (State, Response))
    requires WellFormed(s)
    ensures WellFormed(t.0) && t.0.handed == s.handed
    ensures t.1.Dict? ==> t.0.cache.Some? && t.1.view == Shows(t.0, t.0.cache.value)
  {
    if s.poisoned then (s, LockPoisoned)
    else if s.cache.Some? then (s, Dict(Shows(s, s.cache.value)))
    else
      match DictOutcome(src.conv, src.inner)
      case Panicked => (s.(poisoned := true), ReadPanicked)
      case Raised => (s, ReadRaised)
      case Done(_) =>
        var t := Materialise(src, s).(cache := Some(|s.outers|));
        (t, Dict(Shows(t, |s.outers|)))
  }

  /** `copy()`: a new outer dict with the same contents, handed to the caller. */
  function HandCopy(s: State, c: nat): (t: State)
    requires WellFormed(s) && c < |s.outers|
    ensures WellFormed(t)
  {
    s.(outers := s.outers + [s.outers[c]], handed := s.handed + [|s.outers|])
  }

  function Step(src: Source, s: State, e: Event): (t: (State, Response))
    requires WellFormed(s)
    ensures WellFormed(t.0)
  {
    match e
    case Read => ReadCache(src, s)
    case ToDict =>
      var (t, response) := ReadCache(src, s);
      if response.Dict? then (HandCopy(t, t.cache.value), response) else (t, response)
    case Merge =>
      (match DictOutcome(src.conv, src.inner)
       case Panicked => (s, ReadPanicked)
       case Raised => (s, ReadRaised)
       case Done(_) =>
         var t := Materialise(src, s).(handed := s.handed + [|s.outers|]);
         (t, Dict(Shows(t, |s.outers|))))
    case ReleaseCache => (s.(cache := None, poisoned := false), Acknowledged)
    case MutateOuter(c, dict) =>
      if c in s.handed && RefsIn(dict, |s.bodies|) then (s.(outers := s.outers[c := dict]), Acknowledged)
      else (s, Acknowledged)
    case MutateInner(ref, bins) =>
      if ref < |s.bodies| then (s.(bodies := s.bodies[ref := bins]), Acknowledged) else (s, Acknowledged)
  }

  function Run(src: Source, s: State, events: seq<Event>): (t: State)
    requires WellFormed(s)
    ensures WellFormed(t)
    decreases |events|
  {
    if events == [] then s else Run(src, Step(src, s, events[0]).0, events[1..])
  }

  /** What the events of a run answer. */
  function Responses(src: Source, s: State, events: seq<Event>): (rs: seq<Response>)
    requires WellFormed(s)
    ensures |rs| == |events|
    decreases |events|
  {
    if events == [] then []
    else
      var (t, response) := Step(src, s, events[0]);
      [response] + Responses(src, t, events[1..])
  }

  // ---- The cached dict stays private ----------------------------------------------------

  /** No caller holds the cached outer dict. */
  predicate Private(s: State) {
    s.cache.Some? ==> s.cache.value !in s.handed
  }

  lemma StepKeepsPrivate(src: Source, s: State, e: Event)
    requires WellFormed(s) && Private(s)
    ensures Private(Step(src, s, e).0)
  {
    assert |s.outers| !in s.handed;
  }

  /** In every run, no dict that `to_dict` or `merge_to_dict` ever returned is the cached one. */
  lemma {:induction false} CacheNeverHanded(src: Source, s: State, events: seq<Event>)
    requires WellFormed(s) && Private(s)
    ensures Private(Run(src, s, events))
    decreases |events|
  {
    if events != [] {
      StepKeepsPrivate(src, s, events[0]);
      CacheNeverHanded(src, Step(src, s, events[0]).0, events[1..]);
    }
  }

  /** The cached dict as readers see it. */
  function CachedView(s: State): Option<map<DictKey, PyBins>>
    requires WellFormed(s)
  {
    match s.cache case None => None case Some(c) => Some(Shows(s, c))
  }

  /**
   Changing an outer dict that a caller holds changes what dict reads show exactly when that dict is
   the cached one itself and the change can be seen: without the copy, `to_dict` would leak.
   */
  lemma OuterMutationShowsIff(src: Source, s: State, c: nat, dict: Outer)
    requires WellFormed(s) && c in s.handed && RefsIn(dict, |s.bodies|)
    ensures CachedView(Step(src, s, MutateOuter(c, dict)).0) != CachedView(s)
      <==> s.cache == Some(c) && Deref(s.bodies, dict) != Shows(s, c)
  {
  }

  /** Two states that readers of the cache cannot tell apart. */
  ghost predicate SameToReaders(s: State, t: State) {
    && s.bodies == t.bodies && s.cache == t.cache && s.poisoned == t.poisoned && s.handed == t.handed
    && |s.outers| == |t.outers|
    && (s.cache.Some? && s.cache.value < |s.outers| ==> s.outers[s.cache.value] == t.outers[s.cache.value])
  }

  lemma StepSameToReaders(src: Source, s: State, t: State, e: Event)
    requires WellFormed(s) && WellFormed(t) && Private(s) && SameToReaders(s, t)
    ensures Step(src, s, e).1 == Step(src, t, e).1
    ensures SameToReaders(Step(src, s, e).0, Step(src, t, e).0)
  {
    if s.cache.Some? {
      assert Shows(s, s.cache.value) == Shows(t, t.cache.value);
    }
  }

  lemma {:induction false} RunSameToReaders(src: Source, s: State, t: State, events: seq<Event>)
    requires WellFormed(s) && WellFormed(t) && Private(s) && SameToReaders(s, t)
    ensures Responses(src, s, events) == Responses(src, t, events)
    decreases |events|
  {
    if events != [] {
      StepSameToReaders(src, s, t, events[0]);
      StepKeepsPrivate(src, s, events[0]);
      RunSameToReaders(src, Step(src, s, events[0]).0, Step(src, t, events[0]).0, events[1..]);
    }
  }

  /** After any run, whatever a caller does to the outer dicts it holds, no later answer can tell. */
  lemma OuterMutationInvisible(src: Source, past: seq<Event>, c: nat, dict: Outer, events: seq<Event>)
    ensures var s := Run(src, FRESH, past);
            Responses(src, Step(src, s, MutateOuter(c, dict)).0, events) == Responses(src, s, events)
  {
    var s := Run(src, FRESH, past);
    CacheNeverHanded(src, FRESH, past);
    RunSameToReaders(src, s, Step(src, s, MutateOuter(c, dict)).0, events);
  }

  // ---- The cache agrees with a direct conversion ----------------------------------------

  /** The cache is absent or shows what a direct conversion of the raw records shows. */
  ghost predicate Intact(src: Source, s: State)
    requires WellFormed(s)
  {
    s.cache.Some? ==> IsDictView(src.conv, src.inner, Shows(s, s.cache.value))
  }

  /** The cached outer dict refers to bins dict `ref`. */
  predicate InCache(s: State, ref: nat)
    requires WellFormed(s)
  {
    s.cache.Some? && exists k :: k in s.outers[s.cache.value] && s.outers[s.cache.value][k] == ref
  }

  /** The event does not change the contents of a bins dict that the cache refers to. */
  predicate Harmless(s: State, e: Event)
    requires WellFormed(s)
  {
    e.MutateInner? && e.ref < |s.bodies| && InCache(s, e.ref) ==> e.bins == s.bodies[e.ref]
  }

  ghost predicate ShowsDirect(src: Source, response: Response) {
    response.Dict? ==> IsDictView(src.conv, src.inner, response.view)
  }

  lemma MaterialiseShows(src: Source, s: State)
    requires WellFormed(s) && DictOutcome(src.conv, src.inner).Done?
    ensures IsDictView(src.conv, src.inner, Shows(Materialise(src, s), |s.outers|))
  {
    DictOutcomeDone(src.conv, src.inner);
    ConversionShows(src.conv, src.inner, s.bodies);
  }

  lemma ReadKeepsIntact(src: Source, s: State)
    requires WellFormed(s) && Intact(src, s)
    ensures var (t, response) := ReadCache(src, s); Intact(src, t) && ShowsDirect(src, response)
  {
    if !s.poisoned && DictOutcome(src.conv, src.inner).Done? {
      MaterialiseShows(src, s);
      assert Shows(Materialise(src, s).(cache := Some(|s.outers|)), |s.outers|)
          == Shows(Materialise(src, s), |s.outers|);
    }
  }

  lemma HeapChangeKeepsIntact(src: Source, s: State, t: State)
    requires WellFormed(s) && WellFormed(t) && Intact(src, s) && t.cache == s.cache && |s.bodies| <= |t.bodies|
    requires s.cache.Some? ==> s.cache.value < |t.outers| && t.outers[s.cache.value] == s.outers[s.cache.value]
    requires forall ref: nat :: ref < |s.bodies| && InCache(s, ref) ==> t.bodies[ref] == s.bodies[ref]
    ensures Intact(src, t)
  {
    if s.cache.Some? {
      var outer := s.outers[s.cache.value];
      assert forall k :: k in outer ==> InCache(s, outer[k]);
      assert Shows(t, t.cache.value) == Shows(s, s.cache.value);
    }
  }

  lemma StepKeepsIntact(src: Source, s: State, e: Event)
    requires WellFormed(s) && Private(s) && Intact(src, s) && Harmless(s, e)
    ensures Intact(src, Step(src, s, e).0)
    ensures ShowsDirect(src, Step(src, s, e).1)
  {
    match e {
      case Read => ReadKeepsIntact(src, s);
      case ToDict =>
        ReadKeepsIntact(src, s);
        HeapChangeKeepsIntact(src, ReadCache(src, s).0, Step(src, s, e).0);
      case ReleaseCache =>
      case Merge =>
        if DictOutcome(src.conv, src.inner).Done? {
          MaterialiseShows(src, s);
          assert Step(src, s, e).1.view == Shows(Materialise(src, s), |s.outers|);
        }
        HeapChangeKeepsIntact(src, s, Step(src, s, e).0);
      case MutateOuter(_, _) => HeapChangeKeepsIntact(src, s, Step(src, s, e).0);
      case MutateInner(_, _) => HeapChangeKeepsIntact(src, s, Step(src, s, e).0);
    }
  }

  /** No event of the run changes a bins dict that the cache refers to at that moment. */
  predicate HarmlessRun(src: Source, s: State, events: seq<Event>)
    requires WellFormed(s)
    decreases |events|
  {
    events == [] || (Harmless(s, events[0]) && HarmlessRun(src, Step(src, s, events[0]).0, events[1..]))
  }

  /**
   Cache refinement: over every run in which callers leave the cached bins dicts alone, the cache is
   absent or equal to a direct conversion, and every dict read shows that conversion.
   */
  lemma {:induction false} CacheRefinesDirect(src: Source, s: State, events: seq<Event>)
    requires WellFormed(s) && Private(s) && Intact(src, s) && HarmlessRun(src, s, events)
    ensures Intact(src, Run(src, s, events))
    ensures forall i: nat :: i < |events| ==> ShowsDirect(src, Responses(src, s, events)[i])
    decreases |events|
  {
    if events != [] {
      StepKeepsIntact(src, s, events[0]);
      StepKeepsPrivate(src, s, events[0]);
      CacheRefinesDirect(src, Step(src, s, events[0]).0, events[1..]);
    }
  }

  /** A cached read and `merge_to_dict`, which never looks at the cache, show the same dict. */
  lemma CachedAgreesWithMerge(src: Source, s: State, cached: Event)
    requires WellFormed(s) && Private(s) && Intact(src, s) && (cached.Read? || cached.ToDict?)
    requires Step(src, s, cached).1.Dict? && Step(src, s, Merge).1.Dict?
    ensures Step(src, s, cached).1 == Step(src, s, Merge).1
  {
    StepKeepsIntact(src, s, cached);
    StepKeepsIntact(src, s, Merge);
    DictViewUnique(src.conv, src.inner, Step(src, s, cached).1.view, Step(src, s, Merge).1.view);
  }

  // ---- Mutation of bins dicts -----------------------------------------------------------

  /** Changing a bins dict breaks the cache exactly when the cache refers to it. */
  lemma InnerMutationHarmlessIff(src: Source, s: State, ref: nat, bins: PyBins)
    requires WellFormed(s) && Private(s) && Intact(src, s) && ref < |s.bodies|
    ensures Intact(src, Step(src, s, MutateInner(ref, bins)).0) <==> Harmless(s, MutateInner(ref, bins))
  {
    var e := MutateInner(ref, bins);
    if Harmless(s, e) {
      StepKeepsIntact(src, s, e);
    } else {
      var t := Step(src, s, e).0;
      var c := s.cache.value;
      var k :| k in s.outers[c] && s.outers[c][k] == ref;
      assert Shows(t, c)[k] == bins != Shows(s, c)[k];
      if Intact(src, t) {
        DictViewUnique(src.conv, src.inner, Shows(t, c), Shows(s, c));
      }
    }
  }

  /**
   The copy that `to_dict` returns is shallow: a caller that changes the bins dict under a key of it
   changes what every later dict read shows.
   */
  lemma ToDictSharesBins(src: Source, s: State, k: DictKey, bins: PyBins)
    requires WellFormed(s) && Step(src, s, ToDict).1.Dict? && k in Step(src, s, ToDict).1.view
    ensures var t := Step(src, s, ToDict).0;
            && |t.handed| == |s.handed| + 1
            && var mine := t.outers[t.handed[|s.handed|]];
               && k in mine
               && var later := Step(src, Step(src, t, MutateInner(mine[k], bins)).0, Read).1;
                  later.Dict? && k in later.view && later.view[k] == bins
  {
  }

  /** The cache refers to nothing older than `mark`. */
  predicate CacheNewerThan(s: State, mark: nat)
    requires WellFormed(s)
  {
    s.cache.Some? ==> forall k :: k in s.outers[s.cache.value] ==> s.outers[s.cache.value][k] >= mark
  }

  lemma StepKeepsNewer(src: Source, s: State, e: Event, mark: nat)
    requires WellFormed(s) && Private(s) && CacheNewerThan(s, mark) && mark <= |s.bodies|
    ensures CacheNewerThan(Step(src, s, e).0, mark) && |Step(src, s, e).0.bodies| >= |s.bodies|
  {
  }

  lemma {:induction false} ReleasedBinsAreFree(src: Source, s: State, events: seq<Event>, mark: nat)
    requires WellFormed(s) && Private(s) && CacheNewerThan(s, mark) && mark <= |s.bodies|
    ensures CacheNewerThan(Run(src, s, events), mark)
    decreases |events|
  {
    if events != [] {
      StepKeepsNewer(src, s, events[0], mark);
      StepKeepsPrivate(src, s, events[0]);
      ReleasedBinsAreFree(src, Step(src, s, events[0]).0, events[1..], mark);
    }
  }

  /** After a release, changes to bins dicts handed out before it reach no later dict read. */
  lemma OldBinsAreHarmless(src: Source, s: State, events: seq<Event>, ref: nat, bins: PyBins)
    requires WellFormed(s) && Private(s) && ref < |s.bodies|
    ensures Harmless(Run(src, Step(src, s, ReleaseCache).0, events), MutateInner(ref, bins))
  {
    ReleasedBinsAreFree(src, Step(src, s, ReleaseCache).0, events, |s.bodies|);
  }

  // ---- Poisoning ------------------------------------------------------------------------

  predicate IsRead(e: Event) {
    e.Read? || e.ToDict?
  }

  predicate NoRelease(events: seq<Event>, from: nat) {
    forall j: nat :: from <= j < |events| ==> events[j] != ReleaseCache
  }

  /** Event `i` was a dict read whose conversion panicked, and the cache was not released since. */
  predicate PanickedAt(events: seq<Event>, responses: seq<Response>, i: nat)
    requires |responses| == |events|
  {
    i < |events| && IsRead(events[i]) && responses[i] == ReadPanicked && NoRelease(events, i + 1)
  }

  ghost predicate Panicky(events: seq<Event>, responses: seq<Response>)
    requires |responses| == |events|
  {
    exists i: nat :: PanickedAt(events, responses, i)
  }

  lemma PanickyTail(events: seq<Event>, responses: seq<Response>)
    requires |responses| == |events| > 0
    ensures Panicky(events, responses) <==> PanickedAt(events, responses, 0) || Panicky(events[1..], responses[1..])
  {
    if i: nat :| PanickedAt(events, responses, i) && i > 0 {
      assert forall j: nat :: i <= j < |events[1..]| ==> events[1..][j] == events[j + 1];
      assert PanickedAt(events[1..], responses[1..], i - 1);
    }
    if i: nat :| PanickedAt(events[1..], responses[1..], i) {
      assert forall j: nat :: i + 2 <= j < |events| ==> events[j] == events[1..][j - 1];
      assert PanickedAt(events, responses, i + 1);
    }
  }

  lemma NoReleaseTail(events: seq<Event>)
    requires events != []
    ensures NoRelease(events, 1) <==> NoRelease(events[1..], 0)
  {
    assert forall j: nat :: 1 <= j < |events| ==> events[j] == events[1..][j - 1];
  }

  lemma StepPoison(src: Source, s: State, e: Event)
    requires WellFormed(s)
    ensures var (t, response) := Step(src, s, e);
            t.poisoned <==> (s.poisoned && e != ReleaseCache) || (IsRead(e) && response == ReadPanicked)
  {
  }

  /**
   A handle is poisoned exactly when it started so and was never released, or a dict read panicked
   and it was not released since.
   */
  lemma {:induction false} PoisonedIff(src: Source, s: State, events: seq<Event>)
    requires WellFormed(s)
    ensures Run(src, s, events).poisoned
      <==> (s.poisoned && NoRelease(events, 0)) || Panicky(events, Responses(src, s, events))
    decreases |events|
  {
    if events != [] {
      var t := Step(src, s, events[0]).0;
      var responses := Responses(src, s, events);
      assert responses[1..] == Responses(src, t, events[1..]);
      PoisonedIff(src, t, events[1..]);
      PanickyTail(events, responses);
      NoReleaseTail(events);
      StepPoison(src, s, events[0]);
    }
  }

  /** While poisoned every dict read fails. */
  lemma {:induction false} PoisonedUntilReleased(src: Source, s: State, events: seq<Event>)
    requires WellFormed(s) && s.poisoned && NoRelease(events, 0)
    ensures Run(src, s, events).poisoned
    ensures forall i: nat :: i < |events| && IsRead(events[i]) ==> Responses(src, s, events)[i] == LockPoisoned
    decreases |events|
  {
    if events != [] {
      NoReleaseTail(events);
      PoisonedUntilReleased(src, Step(src, s, events[0]).0, events[1..]);
    }
  }

  /** The first record shown that fails to convert panics. */
  ghost predicate HasPanickingRecord(src: Source) {
    exists i: nat :: i < |src.inner| && Qualifies(src.inner[i]) && EntryOf(src.conv, src.inner[i]).Panicked?
                     && DictConverts(src.conv, src.inner[..i])
  }

  /**
   What a release can do, and its documented limit. It always clears the poison, and the next read
   ends as the uncached conversion does; but that read poisons the handle again exactly when the first
   failing record panics, and shows a dict exactly when all records shown convert.
   */
  lemma ReleaseRecovers(src: Source, s: State)
    requires WellFormed(s)
    ensures var released := Step(src, s, ReleaseCache).0;
            var (t, response) := Step(src, released, Read);
            && !released.poisoned
            && response == Step(src, released, Merge).1
            && (t.poisoned <==> HasPanickingRecord(src))
            && (response.Dict? <==> DictConverts(src.conv, src.inner))
  {
    DictPanicsIff(src.conv, src.inner);
    DictOutcomeDone(src.conv, src.inner);
    var released := Step(src, s, ReleaseCache).0;
    if DictOutcome(src.conv, src.inner).Done? {
      var t := Materialise(src, released);
      assert Shows(t.(cache := Some(|s.outers|)), |s.outers|)
          == Shows(t.(handed := s.handed + [|s.outers|]), |s.outers|);
    }
  }

  /** With a record that panics, no run however full of releases ever shows a dict. */
  lemma {:induction false} PanicRecurs(src: Source, s: State, events: seq<Event>)
    requires WellFormed(s) && s.cache.None? && HasPanickingRecord(src)
    ensures Run(src, s, events).cache.None?
    ensures forall i: nat :: i < |events| ==> !Responses(src, s, events)[i].Dict?
    decreases |events|
  {
    DictPanicsIff(src.conv, src.inner);
    if events != [] {
      PanicRecurs(src, Step(src, s, events[0]).0, events[1..]);
    }
  }

  // ---- The handle -----------------------------------------------------------------------

  class PyLazyBatchRecords {
    const src: Source
    var cachedDict: Option<nat>
    var poisoned: bool
    var bodies: seq<PyBins>
    var outers: seq<Outer>
    var handed: seq<nat>

    function View(): State
      reads this
    {
      State(bodies, outers, cachedDict, poisoned, handed)
    }

    ghost predicate Valid()
      reads this
    {
      WellFormed(View()) && Private(View())
    }

    constructor (src: Source)
      ensures Valid() && this.src == src && View() == FRESH
    {
      this.src := src;
      cachedDict := None;
      poisoned := false;
      bodies, outers, handed := [], [], [];
    }

    /** `batch_to_dict_py` with the dict objects it makes: all of them, or none that anyone can reach. */
    method Convert() returns (r: Outcome<nat>)
      requires Valid()
      modifies this`bodies, this`outers
      ensures Valid() && Ending(r) == DictOutcome(src.conv, src.inner)
      ensures r.Done? ==> View() == Materialise(src, old(View())) && r.value == |old(outers)|
      ensures !r.Done? ==> View() == old(View())
    {
      var base, made := |bodies|, [];
      var dict: Outer := map[];
      for n := 0 to |src.inner|
        invariant View() == old(View()) && Built(src, n, base, made, dict)
      {
        BuiltStep(src, n, base, made, dict);
        var br := src.inner[n];
        if Qualifies(br) {
          var body := ConvertRecord(src.conv, br.record.value.bins);
          match body {
            case Raised => return Raised;
            case Panicked => return Panicked;
            case Done(bins) =>
              if !Hashable(br.userKey.value) {
                return Raised;
              }
              made := made + [bins];
              dict := dict[KeyAt(src.inner, n) := base + n];
          }
        } else {
          made := made + [map[]];
        }
      }
      assert src.inner[..|src.inner|] == src.inner;
      r := Done(|outers|);
      bodies := bodies + made;
      outers := outers + [dict];
    }

    /** `cached_dict`. */
    method CachedDict() returns (response: Response)
      requires Valid()
      modifies this
      ensures Valid() && (View(), response) == ReadCache(src, old(View()))
    {
      StepKeepsPrivate(src, View(), Read);
      if poisoned {
        return LockPoisoned;
      }
      if cachedDict.None? {
        var made := Convert();
        match made {
          case Panicked =>
            poisoned := true;
            return ReadPanicked;
          case Raised =>
            return ReadRaised;
          case Done(c) =>
            cachedDict := Some(c);
        }
      }
      response := Dict(Shows(View(), cachedDict.value));
    }

    /** `to_dict`: the caller gets a new dict that is not the cached one. */
    method ToDict() returns (response: Response)
      requires Valid()
      modifies this
      ensures Valid() && (View(), response) == Step(src, old(View()), Event.ToDict)
      ensures response.Dict? ==> handed != [] && cachedDict != Some(handed[|handed| - 1])
                                 && Shows(View(), handed[|handed| - 1]) == response.view
    {
      StepKeepsPrivate(src, View(), Event.ToDict);
      response := CachedDict();
      if response.Dict? {
        handed := handed + [|outers|];
        outers := outers + [outers[cachedDict.value]];
      }
    }

    /** `__getitem__`, `get` and `__contains__`: nothing for a key outside the dict view. */
    method Lookup(key: DictKey) returns (r: Result<Option<PyBins>, Response>)
      requires Valid()
      modifies this
      ensures Valid() && View() == Step(src, old(View()), Read).0
      ensures var response := Step(src, old(View()), Read).1;
              if response.Dict?
              then r == Success(if key in response.view then Some(response.view[key]) else None)
              else r == Failure(response)
    {
      var response := CachedDict();
      if !response.Dict? {
        return Failure(response);
      }
      var outer := outers[cachedDict.value];
      r := Success(if key in outer then Some(bodies[outer[key]]) else None);
    }

    /** `merge_to_dict` on this handle alone. */
    method MergeToDict() returns (response: Response)
      requires Valid()
      modifies this`bodies, this`outers, this`handed
      ensures Valid() && (View(), response) == Step(src, old(View()), Merge)
    {
      StepKeepsPrivate(src, View(), Merge);
      var made := Convert();
      match made {
        case Panicked => return ReadPanicked;
        case Raised => return ReadRaised;
        case Done(c) =>
          handed := handed + [c];
          response := Dict(Shows(View(), c));
      }
    }

    method ReleaseCache()
      requires Valid()
      modifies this`cachedDict, this`poisoned
      ensures Valid() && View() == Step(src, old(View()), Event.ReleaseCache).0
    {
      cachedDict := None;
      poisoned := false;
    }
  }

  /** What `Convert` has built from the first `n` records. */
  ghost predicate Built(src: Source, n: nat, base: nat, made: seq<PyBins>, dict: Outer)
    requires n <= |src.inner|
  {
    && DictOutcome(src.conv, src.inner[..n]) == Done(())
    && made == Slots(src.conv, src.inner[..n]) && dict == OuterOf(src.inner[..n], base)
  }

  lemma BuiltStep(src: Source, n: nat, base: nat, made: seq<PyBins>, dict: Outer)
    requires n < |src.inner| && Built(src, n, base, made, dict)
    ensures var br := src.inner[n];
            if !Qualifies(br) then Built(src, n + 1, base, made + [map[]], dict)
            else if EntryOf(src.conv, br).Done? then
              Built(src, n + 1, base, made + [EntryOf(src.conv, br).value], dict[KeyAt(src.inner, n) := base + n])
            else DictOutcome(src.conv, src.inner) == Ending(EntryOf(src.conv, br))
  {
    var br, longer := src.inner[n], src.inner[..n + 1];
    assert longer[..n] == src.inner[..n];
    assert Slots(src.conv, longer) == Slots(src.conv, src.inner[..n]) + [SlotOf(src.conv, br)];
    if Qualifies(br) && !EntryOf(src.conv, br).Done? {
      DictOutcomeStays(src.conv, src.inner, n + 1);
    }
  }
}
