/** The frame projections of whole seconds when a target frequency is set: a cache under a key, and
    the windows put together from it. */
module TargetSeconds {
  import opened Wrappers
  import opened Rounding
  import opened Frames
  import opened Projection
  import opened Merge
  import opened Timeline
  import opened RollingWindow
  import opened TargetCache

  type Key = map<Address, seq<Entry>>

  /** The cache key of a second: the definitions that can be fresh in it. */
  function KeyFor(s: Scope, second: int): Key
    requires s.Primary?
  {
    map b | b in s.entries && KeyOf(s, b, second) != [] :: KeyOf(s, b, second)
  }

  lemma KeyMeans(s: Scope, s': Scope, second: int)
    requires s.Primary? && s'.Primary? && s.frequency == s'.frequency && s.maxAge == s'.maxAge
    ensures KeyFor(s, second) == KeyFor(s', second) <==> SameKey(s, s', second)
  {
    KeyHolds(s, second);
    KeyHolds(s', second);
    hide KeyFor, KeyOf;
    if KeyFor(s, second) == KeyFor(s', second) {
      forall b ensures KeyOf(s, b, second) == KeyOf(s', b, second) {
        assert b in KeyFor(s, second) <==> b in KeyFor(s', second);
      }
    }
  }

  lemma KeyHolds(s: Scope, second: int)
    requires s.Primary?
    ensures forall b :: b in KeyFor(s, second) <==> KeyOf(s, b, second) != []
    ensures forall b :: b in KeyFor(s, second) ==> KeyFor(s, second)[b] == KeyOf(s, b, second)
  {
    hide During, Defined;
  }

  /** Places an entry after those that are not later. */
  function InsertEntry(entries: seq<Entry>, e: Entry): seq<Entry> {
    if entries == [] || entries[|entries| - 1].time <= e.time then entries + [e]
    else InsertEntry(entries[..|entries| - 1], e) + [entries[|entries| - 1]]
  }

  lemma {:induction false} InsertedOrdered(entries: seq<Entry>, e: Entry)
    requires Projection.Ordered(entries)
    ensures Projection.Ordered(InsertEntry(entries, e))
    ensures forall x :: x in InsertEntry(entries, e) <==> x in entries || x == e
  {
    if entries != [] {
      var front, last := entries[..|entries| - 1], entries[|entries| - 1];
      assert entries == front + [last];
      OrderedFront(front, last);
      if e.time < last.time {
        InsertedOrdered(front, e);
        var r := InsertEntry(front, e);
        forall k | 0 <= k < |r| ensures r[k].time <= last.time { assert r[k] in r; }
      } else {
        forall k | 0 <= k < |entries| ensures entries[k].time <= e.time { assert k < |front| ==> entries[k] in front; }
      }
    }
  }

  datatype Cached = Cached(key: Key, projection: FrameProjection)

  /** What a cached projection was made from, and whether those are still all the frames stored. */
  datatype Origin = Origin(scope: Scope, frames: seq<Frame>, whole: bool)

  ghost predicate CachedOk(c: Cached, o: Origin, second: int, frequency: int, maxAge: real) {
    && TimeOrderedScope(o.scope) && o.scope.frequency == frequency && o.scope.maxAge == maxAge
    && c.key == KeyFor(o.scope, second) && c.projection == Project(o.frames, Defining(o.scope), o.scope)
  }

  ghost predicate OriginOk(o: Origin, second: int, stored: Stored) {
    o.whole ==> o.frames == SecondFrames(stored, second)
  }

  ghost predicate CacheOk(cache: map<int, Cached>, origins: map<int, Origin>, stored: Stored, frequency: int,
      maxAge: real) {
    && cache.Keys == origins.Keys
    && forall s :: s in cache ==>
         CachedOk(cache[s], origins[s], s, frequency, maxAge) && OriginOk(origins[s], s, stored)
  }

  /** The cached projection of a second, if its key still fits, is what its frames now give. */
  ghost predicate HitOk(cache: map<int, Cached>, origins: map<int, Origin>, s: Scope, second: int)
    requires s.Primary?
  {
    second in cache && second in origins && origins[second].scope.Primary? && cache[second].key == KeyFor(s, second) ==>
      origins[second].whole && (Defining(origins[second].scope) == Defining(s) || NothingFresh(s, second))
  }

  lemma Hit(cache: map<int, Cached>, origins: map<int, Origin>, stored: Stored, s: Scope, second: int)
    requires TimeOrderedScope(s) && CacheOk(cache, origins, stored, s.frequency, s.maxAge)
    requires second in cache && cache[second].key == KeyFor(s, second) && Placed(stored)
    ensures SameKey(origins[second].scope, s, second)
    ensures HitOk(cache, origins, s, second) ==>
              cache[second].projection == Project(SecondFrames(stored, second), Defining(s), s)
  {
    var o := origins[second];
    assert CachedOk(cache[second], o, second, s.frequency, s.maxAge) && OriginOk(o, second, stored);
    KeyMeans(o.scope, s, second);
    FramesOfSecond(stored, second);
    hide KeyFor, KeyOf, Defining, NothingFresh, SameKey, SecondFrames, Project, TimeOrderedScope, CacheOk;
    if o.whole && (Defining(o.scope) == Defining(s) || NothingFresh(s, second)) {
      FreshAlike(o.scope, s, second);
      SameProjection(o.scope, s, second, o.frames);
    }
  }

  lemma FreshAlike(s: Scope, s': Scope, second: int)
    requires TimeOrderedScope(s) && TimeOrderedScope(s') && SameKey(s, s', second)
    ensures NothingFresh(s, second) <==> NothingFresh(s', second)
  {
    hide FreshFor, SameKey, Projection.Ordered;
    forall b, t: real | second as real <= t < (second + 1) as real ensures FreshFor(s, b, t) == FreshFor(s', b, t) {
      SameKeySameFresh(s, s', second, b, t);
    }
  }

  /** Each frame is stored under its own time. */
  ghost predicate Placed(stored: Stored) {
    Sorted(stored) && forall x :: x in stored ==> x.time == x.value.timestamp
  }

  lemma FramesOfSecond(stored: Stored, second: int)
    requires Placed(stored)
    ensures OfSecond(SecondFrames(stored, second), second)
  {
    var w := Bucket(stored, second);
    WithinMembers(stored, second as real, (second + 1) as real);
    forall i | 0 <= i < |w| ensures second as real <= w[i].value.timestamp < (second + 1) as real {
      assert w[i] in w;
    }
  }

  // ----- what the steps do to the cache -----

  lemma CacheAdded(cache: map<int, Cached>, origins: map<int, Origin>, stored: Stored, frequency: int, maxAge: real,
      f: Frame)
    requires Placed(stored) && CacheOk(cache, origins, stored, frequency, maxAge)
    ensures var x, s := Stamped(f.timestamp, f), {f.timestamp.Floor};
            Placed(Insert(stored, x)) && CacheOk(cache - s, origins - s, Insert(stored, x), frequency, maxAge)
  {
    var x := Stamped(f.timestamp, f);
    InsertMembers(stored, x);
    hide CachedOk, SecondFrames, Insert, Sorted;
    forall k | k in cache && k != f.timestamp.Floor ensures OriginOk(origins[k], k, Insert(stored, x)) {
      SecondInserted(stored, x, k);
      assert OriginOk(origins[k], k, stored);
    }
  }

  lemma SecondInserted(stored: Stored, x: Stamped<Frame>, second: int)
    requires Sorted(stored) && x.time.Floor != second
    ensures SecondFrames(Insert(stored, x), second) == SecondFrames(stored, second)
  {
    BucketInsert(stored, x, second);
  }

  /** What is left of the cache's origins: of the second cut through, some frames may be gone. */
  function KeptOrigins(origins: map<int, Origin>, cutoff: real): map<int, Origin> {
    map s | s in origins && cutoff.Floor <= s ::
      origins[s].(whole := origins[s].whole && cutoff <= s as real)
  }

  function KeptSeconds(cache: map<int, Cached>, cutoff: real): map<int, Cached> {
    map s | s in cache && cutoff.Floor <= s :: cache[s]
  }

  lemma CacheCut(cache: map<int, Cached>, origins: map<int, Origin>, stored: Stored, frequency: int, maxAge: real,
      cutoff: real)
    requires Placed(stored) && CacheOk(cache, origins, stored, frequency, maxAge)
    ensures Placed(From(stored, cutoff))
    ensures CacheOk(KeptSeconds(cache, cutoff), KeptOrigins(origins, cutoff), From(stored, cutoff), frequency, maxAge)
  {
    FromMembers(stored, cutoff);
    hide From, Sorted, SecondFrames;
    var after := KeptOrigins(origins, cutoff);
    forall k | k in after ensures CachedOk(cache[k], after[k], k, frequency, maxAge)
        && OriginOk(after[k], k, From(stored, cutoff)) {
      assert CachedOk(cache[k], origins[k], k, frequency, maxAge) && OriginOk(origins[k], k, stored);
      if cutoff <= k as real { SecondKept(stored, cutoff, k); }
    }
  }

  lemma SecondKept(stored: Stored, cutoff: real, second: int)
    requires cutoff <= second as real
    ensures SecondFrames(From(stored, cutoff), second) == SecondFrames(stored, second)
  {
    WithinFrom(stored, cutoff, second as real, (second + 1) as real);
  }

  // ----- the analyzer's part -----

  class TargetAnalyzer {
    const window: nat
    const frequency: int
    const maxAge: real
    var entries: map<Address, seq<Entry>>
    var stored: Stored
    var cache: map<int, Cached>
    var reference: Option<real>
    ghost var origins: map<int, Origin>

    function Scope(): (s: Scope)
      reads this
      ensures s.Primary? && s.frequency == frequency && s.maxAge == maxAge
    {
      Primary(entries, frequency, maxAge)
    }

    ghost predicate Valid()
      reads this
    {
      TimeOrderedScope(Scope()) && Placed(stored) && CacheOk(cache, origins, stored, frequency, maxAge)
    }

    constructor (windowSeconds: nat, target: int, age: real)
      requires age > 0.0
      ensures Valid() && window == windowSeconds && frequency == target && maxAge == age
      ensures entries == map[] && stored == [] && cache == map[] && reference.None? && origins == map[]
    {
      window, frequency, maxAge := windowSeconds, target, age;
      entries, stored, cache, reference, origins := map[], [], map[], None, map[];
    }

    predicate TooLate(t: real)
      reads this
    {
      reference.Some? && t < reference.value - window as real
    }

    /** A beacon, with the channel definition it gives if any. */
    method Beacon(b: Address, e: Entry)
      requires Valid()
      modifies this`entries, this`reference
      ensures Valid()
      ensures if old(reference).Some? && e.time < old(reference).value - window as real then
                entries == old(entries) && reference == old(reference)
              else
                && entries == old(entries)[b := InsertEntry(if b in old(entries) then old(entries)[b] else [], e)]
                && reference == if old(reference).Some? && e.time <= old(reference).value then old(reference)
                                else Some(e.time)
    {
      if TooLate(e.time) { return; }
      InsertedOrdered(if b in entries then entries[b] else [], e);
      hide Placed, CacheOk, Projection.Ordered;
      entries := entries[b := InsertEntry(if b in entries then entries[b] else [], e)];
      if reference.None? || e.time > reference.value { reference := Some(e.time); }
    }

    /** A frame is stored in time order, and its second is projected anew. */
    method Add(f: Frame)
      requires Valid()
      modifies this`stored, this`cache, this`reference, this`origins
      ensures Valid()
      ensures if old(reference).Some? && f.timestamp < old(reference).value - window as real then
                stored == old(stored) && cache == old(cache) && origins == old(origins) && reference == old(reference)
              else
                && stored == Insert(old(stored), Stamped(f.timestamp, f))
                && cache == old(cache) - {f.timestamp.Floor} && origins == old(origins) - {f.timestamp.Floor}
                && reference == if old(reference).Some? && f.timestamp <= old(reference).value then old(reference)
                                else Some(f.timestamp)
    {
      hide Placed, CacheOk, TimeOrderedScope;
      if TooLate(f.timestamp) { return; }
      CacheAdded(cache, origins, stored, frequency, maxAge, f);
      cache, origins := cache - {f.timestamp.Floor}, origins - {f.timestamp.Floor};
      stored := Insert(stored, Stamped(f.timestamp, f));
      if reference.None? || f.timestamp > reference.value { reference := Some(f.timestamp); }
    }

    /** Everything before the window goes; a second cut through stays cached. */
    method Expire()
      requires Valid() && reference.Some?
      modifies this`entries, this`stored, this`cache, this`origins
      ensures Valid()
      ensures var cutoff := reference.value - window as real;
        && Scope() == Trimmed(old(Scope()), cutoff) && stored == From(old(stored), cutoff)
        && cache == KeptSeconds(old(cache), cutoff) && origins == KeptOrigins(old(origins), cutoff)
    {
      hide Placed, CacheOk, TimeOrderedScope;
      var cutoff := reference.value - window as real;
      TrimmedOrdered(Scope(), cutoff);
      CacheCut(cache, origins, stored, frequency, maxAge, cutoff);
      entries, stored := Trimmed(Scope(), cutoff).entries, From(stored, cutoff);
      cache, origins := KeptSeconds(cache, cutoff), KeptOrigins(origins, cutoff);
    }

    /** The projection of a second: the cached one if its key fits. */
    method ProjectionForSecond(second: int) returns (p: FrameProjection)
      requires Valid()
      modifies this`cache, this`origins
      ensures Valid() && second in origins && SameKey(origins[second].scope, Scope(), second)
      ensures p == Project(origins[second].frames, Defining(origins[second].scope), origins[second].scope)
      ensures if second in old(cache) && old(cache)[second].key == KeyFor(Scope(), second)
              then cache == old(cache) && origins == old(origins)
              else
                && origins == old(origins)[second := Origin(Scope(), SecondFrames(stored, second), true)]
                && cache == old(cache)[second := Cached(KeyFor(Scope(), second), p)]
      ensures old(HitOk(cache, origins, Scope(), second)) ==>
                p == Project(SecondFrames(stored, second), Defining(Scope()), Scope())
    {
      hide KeyFor, TimeOrderedScope, Placed, SecondFrames, Project, SameKey, Defining, NothingFresh;
      if second in cache && cache[second].key == KeyFor(Scope(), second) {
        Hit(cache, origins, stored, Scope(), second);
        assert CachedOk(cache[second], origins[second], second, frequency, maxAge);
        return cache[second].projection;
      }
      var frames := SecondFrames(stored, second);
      p := ProjectFrames(frames, Defining(Scope()), Scope());
      KeyMeans(Scope(), Scope(), second);
      cache := cache[second := Cached(KeyFor(Scope(), second), p)];
      origins := origins[second := Origin(Scope(), frames, true)];
    }

    method WholeProjections(first: int, end: int) returns (parts: seq<FrameProjection>)
      requires Valid()
      modifies this`cache, this`origins
      ensures Valid() && |parts| == if first < end then end - first else 0
      ensures old(HitsOk(first, end)) ==>
                parts == Projections(WholeSeconds(stored, first, end), Defining(Scope()), Scope())
    {
      hide Placed, TimeOrderedScope, CacheOk, Project, Defining, HitOk, SameKey, SecondFrames;
      parts := [];
      var whole := first;
      while whole < end
        invariant Valid() && (whole == first || first <= whole <= end) && |parts| == whole - first
        invariant forall k :: whole <= k < end ==>
          HitOk(cache, origins, Scope(), k) == old(HitOk(cache, origins, Scope(), k))
        invariant old(HitsOk(first, end)) ==>
                    parts == Projections(WholeSeconds(stored, first, whole), Defining(Scope()), Scope())
      {
        ghost var c, o := cache, origins;
        var second := ProjectionForSecond(whole);
        forall k | whole < k < end ensures HitOk(cache, origins, Scope(), k) == HitOk(c, o, Scope(), k) {
          HitElsewhere(c, o, cache, origins, Scope(), k);
        }
        parts := parts + [second];
        whole := whole + 1;
      }
    }

    /** No cached second of a window is shown wrongly. */
    ghost predicate HitsOk(first: int, end: int)
      reads this
    {
      forall k :: first <= k < end ==> HitOk(cache, origins, Scope(), k)
    }

    /** The merged projection of a window: boundary slices under the window's BSSIDs, whole seconds
        under those with a definition. When every cached second is right, that is one pass over the
        stored frames of the window, each read under the set of its slice. */
    method RollingProjection(low: real, high: real, known: set<Address>) returns (p: FrameProjection)
      requires Valid()
      modifies this`cache, this`origins
      ensures Valid()
      ensures high <= low ==> p == EMPTY_PROJECTION
      ensures low + 1.0 <= high && old(HitsOk(Ceil(low), high.Floor)) ==>
                var first, end := Ceil(low) as real, high.Floor as real;
                Agree(p, ProjectSights(Sights(Slice(stored, low, first), known, Scope())
                                       + Sights(Slice(stored, first, end), Defining(Scope()), Scope())
                                       + Sights(Slice(stored, end, high), known, Scope())))
    {
      hide CacheOk, TimeOrderedScope, Project, Defining, HitsOk, Slice, WholeSeconds, Merged, ProjectSights, Sights,
        Agree,
        Sorted;
      if high <= low { return EMPTY_PROJECTION; }
      var leading, trailing := [], [];
      if low < Ceil(low) as real {
        var part := ProjectFrames(Slice(stored, low, Min(Ceil(low) as real, high)), known, Scope());
        leading := [part];
      }
      if TrailingStart(low, high) < high {
        var part := ProjectFrames(Slice(stored, TrailingStart(low, high), high), known, Scope());
        trailing := [part];
      }
      var whole := WholeProjections(Ceil(low), high.Floor);
      p := MergeFrameProjections(leading + whole + trailing);
      assert leading == Projections(LeadingSlice(stored, low, high), known, Scope());
      assert trailing == Projections(TrailingSlice(stored, low, high), known, Scope());
      if low + 1.0 <= high {
        LongWindowsCount(low, high);
        TargetWindowIsOnePass(stored, low, high, known, Defining(Scope()), Scope());
      }
    }
  }

  lemma HitElsewhere(cache: map<int, Cached>, origins: map<int, Origin>, cache': map<int, Cached>,
      origins': map<int, Origin>, s: Scope, second: int)
    requires s.Primary? && (second in cache <==> second in cache') && (second in origins <==> second in origins')
    requires second in cache ==> cache[second] == cache'[second]
    requires second in origins ==> origins[second] == origins'[second]
    ensures HitOk(cache, origins, s, second) == HitOk(cache', origins', s, second)
  {
    hide KeyFor, Defining, NothingFresh;
  }

  // ----- a run in which a cached second is shown wrongly -----

  lemma OneInserted(e: Entry, f: Frame)
    ensures InsertEntry([], e) == [e] && Insert([], Stamped(f.timestamp, f)) == [Stamped(f.timestamp, f)]
  {}

  /** One BSSID is defined at 0, another at 60; a frame between them at 60 is projected. When a
      frame at 61 then moves a window of 60 seconds past the first definition, the frame's second is
      still answered from the cache, although without that BSSID its frame would count. */
  method StaleRun(gone: Address, now: Address) returns (a: TargetAnalyzer, p: FrameProjection)
    requires gone != now
    ensures fresh(a) && a.Valid() && a.window == 60 && 60 in a.origins && a.origins[60].whole
    ensures p != Project(SecondFrames(a.stored, 60), Defining(a.Scope()), a.Scope())
  {
    hide SameKey, KeyFor, Placed, CacheOk, TimeOrderedScope, Project, Defining, HitOk, Between, Insert, InsertEntry,
      Trimmed, SecondFrames, From;
    a := new TargetAnalyzer(60, 5180, 10.0);
    var e, l, f, g := Entry(0.0, Some(5180)), Entry(60.0, Some(5180)), Between(60.0, gone, now),
      Between(61.0, gone, now);
    OneInserted(e, f);
    OneInserted(l, f);
    FrameTime(60.0, gone, now);
    FrameTime(61.0, gone, now);
    a.Beacon(gone, e);
    a.Beacon(now, l);
    AgedIs(gone, now, a.Scope());
    a.Add(f);
    ghost var s := a.Scope();
    var first := a.ProjectionForSecond(60);
    a.Add(g);
    assert 60 in a.cache && a.cache[60].key == KeyFor(s, 60) && a.origins[60].whole;
    a.Expire();
    ExpiryKeepsKey(s, 1.0, 60);
    KeyMeans(s, a.Scope(), 60);
    p := a.ProjectionForSecond(60);
    AgedFacts(gone, now, 60);
    ToldApart(s, a.Scope(), 60, gone, now, 60.0);
    StoredFrames(f, g);
  }

  lemma FrameTime(t: real, gone: Address, now: Address)
    ensures Between(t, gone, now).timestamp == t
  {}

  lemma AgedIs(gone: Address, now: Address, s: Scope)
    requires gone != now && s.Primary? && s.frequency == 5180 && s.maxAge == 10.0
    requires s.entries == map[gone := [Entry(0.0, Some(5180))], now := [Entry(60.0, Some(5180))]]
    ensures s == Aged(gone, now, 60)
  {}

  lemma StoredFrames(f: Frame, g: Frame)
    requires f.timestamp == 60.0 && g.timestamp == 61.0
    ensures var x, y := Stamped(60.0, f), Stamped(61.0, g);
            && SecondFrames([x], 60) == [f] && Insert([x], y) == [x, y] && From([x, y], 1.0) == [x, y]
            && SecondFrames([x, y], 60) == [f]
  {
    var x, y := Stamped(60.0, f), Stamped(61.0, g);
    assert [x, y] == [x] + [y] && [x] == [] + [x];
    WithinSnoc([], x, 60.0, 61.0);
    WithinSnoc([x], y, 60.0, 61.0);
    FromSnoc([], x, 1.0);
    FromSnoc([x], y, 1.0);
  }
}
