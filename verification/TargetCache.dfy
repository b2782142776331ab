/** The projection cache when a target frequency is set: what its key tells apart, and what not. */
module TargetCache {
  import opened Wrappers
  import opened Frames
  import opened HostTracking
  import opened Projection

  /** The BSSIDs with a channel definition, which a batch pass with a target takes as known. */
  function Defining(s: Scope): set<Address>
    requires s.Primary?
  {
    set b | b in s.entries && Defined(s.entries[b]) != []
  }

  /** The entries with low <= time < high. */
  function During(entries: seq<Entry>, low: real, high: real): seq<Entry> {
    if entries == [] then []
    else
      var front, last := During(entries[..|entries| - 1], low, high), entries[|entries| - 1];
      if low <= last.time < high then front + [last] else front
  }

  /** What the cache key of a second holds for one BSSID: its definitions that can be fresh then. */
  function KeyOf(s: Scope, b: Address, second: int): seq<Entry>
    requires s.Primary?
  {
    if b in s.entries then During(Defined(s.entries[b]), second as real - s.maxAge, (second + 1) as real) else []
  }

  ghost predicate TimeOrderedScope(s: Scope) {
    s.Primary? && s.maxAge > 0.0 && forall b :: b in s.entries ==> Projection.Ordered(s.entries[b])
  }

  ghost predicate SameKey(s: Scope, s': Scope, second: int)
    requires s.Primary? && s'.Primary?
  {
    s.frequency == s'.frequency && s.maxAge == s'.maxAge && forall b :: KeyOf(s, b, second) == KeyOf(s', b, second)
  }

  ghost predicate OfSecond(frames: seq<Frame>, second: int) {
    forall i :: 0 <= i < |frames| ==> second as real <= frames[i].timestamp < (second + 1) as real
  }

  // ----- the key decides freshness -----

  lemma {:induction false} DuringMembers(entries: seq<Entry>, low: real, high: real)
    ensures forall e :: e in During(entries, low, high) <==> e in entries && low <= e.time < high
  {
    if entries != [] {
      assert entries == entries[..|entries| - 1] + [entries[|entries| - 1]];
      DuringMembers(entries[..|entries| - 1], low, high);
    }
  }

  /** The latest entry no later than t. */
  function LatestAt(timeline: seq<Entry>, t: real): Option<Entry> {
    var n := BisectRight(timeline, t);
    if n > 0 then Some(timeline[n - 1]) else None
  }

  predicate FreshEntry(e: Option<Entry>, t: real, s: Scope)
    requires s.Primary?
  {
    e.Some? && Fresh(e.value, t, s)
  }

  lemma {:induction false} BisectSnoc(entries: seq<Entry>, e: Entry, t: real)
    requires Projection.Ordered(entries + [e])
    ensures BisectRight(entries + [e], t) == if e.time <= t then |entries| + 1 else BisectRight(entries, t)
  {
    var all := entries + [e];
    if entries == [] {
      assert all == [e] && [e][1..] == [];
    } else {
      assert all[1..] == entries[1..] + [e] && all[0] == entries[0];
      assert all[0].time <= all[|entries|].time;
      assert forall k :: 0 <= k < |all| - 1 ==> all[1..][k] == all[k + 1];
      BisectSnoc(entries[1..], e, t);
    }
  }

  lemma LatestSnoc(entries: seq<Entry>, e: Entry, t: real)
    requires Projection.Ordered(entries + [e])
    ensures LatestAt(entries + [e], t) == if e.time <= t then Some(e) else LatestAt(entries, t)
  {
    BisectSnoc(entries, e, t);
  }

  lemma OrderedFront(front: seq<Entry>, e: Entry)
    requires Projection.Ordered(front + [e])
    ensures Projection.Ordered(front) && forall x :: x in front ==> x.time <= e.time
  {
    var all := front + [e];
    forall i, j | 0 <= i < j < |front| ensures front[i].time <= front[j].time {
      assert all[i].time <= all[j].time;
    }
    forall x | x in front ensures x.time <= e.time {
      var k :| 0 <= k < |front| && front[k] == x;
      assert all[k].time <= all[|front|].time;
    }
  }

  lemma {:induction false} DuringOrdered(entries: seq<Entry>, low: real, high: real)
    requires Projection.Ordered(entries)
    ensures Projection.Ordered(During(entries, low, high))
  {
    if entries != [] {
      var front, e := entries[..|entries| - 1], entries[|entries| - 1];
      assert entries == front + [e];
      OrderedFront(front, e);
      DuringOrdered(front, low, high);
      DuringMembers(front, low, high);
      var key := During(front, low, high);
      forall k | 0 <= k < |key| ensures key[k].time <= e.time { assert key[k] in key; }
    }
  }

  lemma StaleEntry(e: Entry, t: real, s: Scope)
    requires s.Primary? && e.time < t - s.maxAge
    ensures !FreshEntry(Some(e), t, s) && !FreshEntry(None, t, s)
  {}

  /** A definition is fresh at a time of the second if and only if the key's own entries say so. */
  lemma {:induction false} FreshByKey(timeline: seq<Entry>, t: real, s: Scope, second: int)
    requires s.Primary? && Projection.Ordered(timeline) && second as real <= t < (second + 1) as real
    ensures var key := During(timeline, second as real - s.maxAge, (second + 1) as real);
            FreshEntry(LatestAt(timeline, t), t, s) <==> FreshEntry(LatestAt(key, t), t, s)
  {
    var low, high := second as real - s.maxAge, (second + 1) as real;
    if timeline != [] {
      var front, e := timeline[..|timeline| - 1], timeline[|timeline| - 1];
      assert timeline == front + [e];
      OrderedFront(front, e);
      FreshByKey(front, t, s, second);
      DuringOrdered(timeline, low, high);
      DuringSnoc(front, e, low, high);
      hide LatestAt, FreshEntry, During, Projection.Ordered;
      LatestSnoc(front, e, t);
      if low <= e.time < high {
        LatestSnoc(During(front, low, high), e, t);
      } else if e.time < low {
        NoneDuring(front, low, high, e);
        NothingLatest(t);
        StaleEntry(e, t, s);
      }
    }
  }

  lemma NothingLatest(t: real)
    ensures LatestAt([], t) == None
  {}

  lemma {:induction false} NoneDuring(front: seq<Entry>, low: real, high: real, e: Entry)
    requires (forall x :: x in front ==> x.time <= e.time) && e.time < low
    ensures During(front, low, high) == []
  {
    if front != [] {
      assert forall x :: x in front[..|front| - 1] ==> x in front;
      assert front[|front| - 1] in front;
      NoneDuring(front[..|front| - 1], low, high, e);
    }
  }

  ghost predicate FreshFor(s: Scope, b: Address, t: real)
    requires s.Primary?
  {
    b in s.entries && FreshEntry(LatestAt(Defined(s.entries[b]), t), t, s)
  }

  /** A frame is in scope if and only if its BSSID is fresh. */
  lemma ScopeIsFresh(f: Frame, associated: Option<Address>, s: Scope)
    requires s.Primary?
    ensures InScope(f, associated, s) <==> associated.Some? && FreshFor(s, associated.value, f.timestamp)
  {}

  lemma SameKeySameFresh(s: Scope, s': Scope, second: int, b: Address, t: real)
    requires TimeOrderedScope(s) && TimeOrderedScope(s') && SameKey(s, s', second)
    requires second as real <= t < (second + 1) as real
    ensures FreshFor(s, b, t) <==> FreshFor(s', b, t)
    ensures FreshFor(s, b, t) ==> KeyOf(s, b, second) != []
  {
    hide Fresh, Defined, During, LatestAt;
    NothingLatest(t);
    if b in s.entries {
      DefinedOrdered(s.entries[b]);
      FreshByKey(Defined(s.entries[b]), t, s, second);
    }
    if b in s'.entries {
      DefinedOrdered(s'.entries[b]);
      FreshByKey(Defined(s'.entries[b]), t, s', second);
    }
    assert KeyOf(s, b, second) == KeyOf(s', b, second);
    FreshDependsOn(s, s');
  }

  lemma FreshDependsOn(s: Scope, s': Scope)
    requires s.Primary? && s'.Primary? && s.frequency == s'.frequency && s.maxAge == s'.maxAge
    ensures forall e, t :: Fresh(e, t, s) == Fresh(e, t, s')
  {}

  // ----- when a hit is right -----

  ghost predicate HitIsRight(s: Scope, s': Scope, second: int)
    requires s.Primary? && s'.Primary?
  {
    forall frames :: OfSecond(frames, second) ==> Project(frames, Defining(s), s) == Project(frames, Defining(s'), s')
  }

  /** No BSSID is on the target frequency at any time of the second. */
  ghost predicate NothingFresh(s: Scope, second: int)
    requires s.Primary?
  {
    forall b, t: real :: second as real <= t < (second + 1) as real ==> !FreshFor(s, b, t)
  }

  lemma OutOfScope(f: Frame, known: set<Address>, s: Scope)
    requires !InScope(f, AssociatedBssid(f, known), s)
    ensures Read(f, known, s) == Reading(false, false, false, None, None)
  {}

  lemma SameScopeSameReading(f: Frame, known: set<Address>, s: Scope, s': Scope)
    requires InScope(f, AssociatedBssid(f, known), s) == InScope(f, AssociatedBssid(f, known), s')
    ensures Read(f, known, s) == Read(f, known, s')
  {
    hide AssociatedBssid, KnownFrameBssid, InScope, ClientsOf, RetryEligible;
  }

  lemma SameReading(s: Scope, s': Scope, second: int, f: Frame)
    requires TimeOrderedScope(s) && TimeOrderedScope(s') && SameKey(s, s', second)
    requires second as real <= f.timestamp < (second + 1) as real
    requires Defining(s) == Defining(s') || NothingFresh(s, second)
    ensures Read(f, Defining(s), s) == Read(f, Defining(s'), s')
  {
    var a, a' := AssociatedBssid(f, Defining(s)), AssociatedBssid(f, Defining(s'));
    ScopeIsFresh(f, a, s);
    ScopeIsFresh(f, a', s');
    if a.Some? { SameKeySameFresh(s, s', second, a.value, f.timestamp); }
    if a'.Some? { SameKeySameFresh(s, s', second, a'.value, f.timestamp); }
    hide AssociatedBssid, Defining, SameKey, FreshFor, InScope, Read;
    if NothingFresh(s, second) {
      OutOfScope(f, Defining(s), s);
      OutOfScope(f, Defining(s'), s');
    } else {
      SameScopeSameReading(f, Defining(s), s, s');
    }
  }

  lemma {:induction false} SameProjection(s: Scope, s': Scope, second: int, frames: seq<Frame>)
    requires TimeOrderedScope(s) && TimeOrderedScope(s') && SameKey(s, s', second)
    requires OfSecond(frames, second) && (Defining(s) == Defining(s') || NothingFresh(s, second))
    ensures Project(frames, Defining(s), s) == Project(frames, Defining(s'), s')
  {
    hide Read, Account, CountByBssid, Defining, NothingFresh, SameKey, TimeOrderedScope;
    if frames != [] {
      SameProjection(s, s', second, frames[..|frames| - 1]);
      SameReading(s, s', second, frames[|frames| - 1]);
    }
  }

  /** A management frame sent by one station to another, naming no BSSID. */
  function Between(t: real, from: Address, to: Address): Frame {
    Frame(t, None, Some(0), Some(0), Some(false), Some(from), Some(to), None, None, false, None, None, None)
  }

  lemma AssociatedEnds(t: real, from: Address, to: Address, known: set<Address>)
    requires from != to && to in known
    ensures AssociatedBssid(Between(t, from, to), known) == Some(if from in known then from else to)
  {
    AssociatedExactly(Between(t, from, to), known);
  }

  /** One BSSID that only one of two scopes knows, beside one that is fresh in both, tells them apart. */
  lemma ToldApart(s: Scope, s': Scope, second: int, x: Address, y: Address, t: real)
    requires TimeOrderedScope(s) && TimeOrderedScope(s') && SameKey(s, s', second)
    requires x in Defining(s) && x !in Defining(s')
    requires second as real <= t < (second + 1) as real && FreshFor(s, y, t)
    ensures !HitIsRight(s, s', second)
    ensures Project([Between(t, x, y)], Defining(s), s) != Project([Between(t, x, y)], Defining(s'), s')
  {
    var f := Between(t, x, y);
    OnlyOneFresh(s, s', second, x, y, t);
    hide Defining, SameKey, FreshFor, InScope, Read, Project, KeyOf, TimeOrderedScope;
    AssociatedEnds(t, x, y, Defining(s));
    AssociatedEnds(t, x, y, Defining(s'));
    ScopeIsFresh(f, Some(x), s);
    ScopeIsFresh(f, Some(y), s');
    OneObserved(f, Defining(s), s);
    OneObserved(f, Defining(s'), s');
    assert OfSecond([f], second);
    assert Project([f], Defining(s), s).retryObserved != Project([f], Defining(s'), s').retryObserved;
  }

  lemma OnlyOneFresh(s: Scope, s': Scope, second: int, x: Address, y: Address, t: real)
    requires TimeOrderedScope(s) && TimeOrderedScope(s') && SameKey(s, s', second)
    requires x in Defining(s) && x !in Defining(s')
    requires second as real <= t < (second + 1) as real && FreshFor(s, y, t)
    ensures !FreshFor(s, x, t) && FreshFor(s', y, t) && x != y && y in Defining(s) && y in Defining(s')
  {
    hide KeyOf, Defining, FreshFor;
    NotDefining(s', x, second);
    SameKeySameFresh(s, s', second, x, t);
    SameKeySameFresh(s, s', second, y, t);
    FreshIsDefining(s, y, t);
    FreshIsDefining(s', y, t);
    assert KeyOf(s, x, second) == KeyOf(s', x, second);
  }

  lemma FreshIsDefining(s: Scope, b: Address, t: real)
    requires s.Primary?
    ensures FreshFor(s, b, t) ==> b in Defining(s)
  {
    hide Defined;
    NothingLatest(t);
  }

  lemma NotDefining(s: Scope, x: Address, second: int)
    requires s.Primary? && x !in Defining(s)
    ensures KeyOf(s, x, second) == []
  {}

  lemma OneObserved(f: Frame, known: set<Address>, s: Scope)
    requires !f.badFcs && f.retryFlag.Some?
    ensures Project([f], known, s).retryObserved == Bit(InScope(f, AssociatedBssid(f, known), s))
  {
    hide CountByBssid, WithHost, WithClient, AssociatedBssid, KnownFrameBssid, InScope, ClientsOf, RetryEligible;
    assert [f][..0] == [];
  }

  /** Two states of the scope with one cache key give every second's frames one projection if and
      only if they have definitions of the same BSSIDs, or no BSSID is fresh in that second. */
  lemma KeyIsExact(s: Scope, s': Scope, second: int)
    requires TimeOrderedScope(s) && TimeOrderedScope(s') && SameKey(s, s', second)
    ensures HitIsRight(s, s', second) <==> Defining(s) == Defining(s') || NothingFresh(s, second)
  {
    hide Defining, SameKey, FreshFor, OfSecond, Project;
    if Defining(s) == Defining(s') || NothingFresh(s, second) {
      forall frames | OfSecond(frames, second)
        ensures Project(frames, Defining(s), s) == Project(frames, Defining(s'), s') {
        SameProjection(s, s', second, frames);
      }
    } else {
      var y, t: real :| second as real <= t < (second + 1) as real && FreshFor(s, y, t);
      SameKeySameFresh(s, s', second, y, t);
      Differ(Defining(s), Defining(s'));
      if x :| x in Defining(s) && x !in Defining(s') {
        ToldApart(s, s', second, x, y, t);
      } else {
        var x :| x in Defining(s') && x !in Defining(s);
        SameKeyFlipped(s, s', second);
        ToldApart(s', s, second, x, y, t);
      }
    }
  }

  lemma Differ(a: set<Address>, b: set<Address>)
    requires a != b
    ensures (exists x :: x in a && x !in b) || (exists x :: x in b && x !in a)
  {}

  lemma SameKeyFlipped(s: Scope, s': Scope, second: int)
    requires s.Primary? && s'.Primary? && SameKey(s, s', second)
    ensures SameKey(s', s, second)
  {
    hide KeyOf;
  }

  // ----- what expiry does to the key -----

  /** A scope without the entries before a cutoff, and without the BSSIDs that have no others. */
  function Trimmed(s: Scope, cutoff: real): (r: Scope)
    requires s.Primary?
    ensures r.Primary? && r.frequency == s.frequency && r.maxAge == s.maxAge
  {
    s.(entries := map b | b in s.entries && Since(s.entries[b], cutoff) != [] :: Since(s.entries[b], cutoff))
  }

  function Since(entries: seq<Entry>, cutoff: real): seq<Entry> {
    if entries == [] then []
    else
      var front, last := Since(entries[..|entries| - 1], cutoff), entries[|entries| - 1];
      if cutoff <= last.time then front + [last] else front
  }

  lemma {:induction false} TrimmedKey(entries: seq<Entry>, cutoff: real, low: real, high: real)
    requires cutoff <= low
    ensures During(Defined(Since(entries, cutoff)), low, high) == During(Defined(entries), low, high)
  {
    if entries != [] {
      var front, e := entries[..|entries| - 1], entries[|entries| - 1];
      TrimmedKey(front, cutoff, low, high);
      assert entries == front + [e];
      assert Since(entries, cutoff) == if cutoff <= e.time then Since(front, cutoff) + [e] else Since(front, cutoff);
      hide Defined, During, Since;
      KeySnoc(front, e, low, high);
      KeySnoc(Since(front, cutoff), e, low, high);
    }
  }

  lemma KeySnoc(entries: seq<Entry>, e: Entry, low: real, high: real)
    ensures During(Defined(entries + [e]), low, high) == During(Defined(entries), low, high)
              + if e.primary.Some? && low <= e.time < high then [e] else []
  {
    DefinedSnoc(entries, e);
    DuringSnoc(Defined(entries), e, low, high);
    hide Defined, During;
  }

  lemma DefinedSnoc(entries: seq<Entry>, e: Entry)
    ensures Defined(entries + [e]) == if e.primary.Some? then Defined(entries) + [e] else Defined(entries)
  {
    assert (entries + [e])[..|entries|] == entries;
  }

  lemma DuringSnoc(entries: seq<Entry>, e: Entry, low: real, high: real)
    ensures During(entries + [e], low, high)
            == if low <= e.time < high then During(entries, low, high) + [e] else During(entries, low, high)
  {
    assert (entries + [e])[..|entries|] == entries;
  }

  /** Expiry before what can be fresh in a second leaves the second's key as it was, also when it
      drops the last definition of a BSSID; then, by KeyIsExact, a cached projection is wrong for
      some frames unless nothing is fresh in that second. */
  lemma ExpiryKeepsKey(s: Scope, cutoff: real, second: int)
    requires s.Primary? && cutoff <= second as real - s.maxAge
    ensures SameKey(s, Trimmed(s, cutoff), second)
  {
    hide KeyOf, Trimmed;
    forall b ensures KeyOf(s, b, second) == KeyOf(Trimmed(s, cutoff), b, second) {
      TrimmedKeyOf(s, cutoff, second, b);
    }
  }

  lemma TrimmedKeyOf(s: Scope, cutoff: real, second: int, b: Address)
    requires s.Primary? && cutoff <= second as real - s.maxAge
    ensures KeyOf(s, b, second) == KeyOf(Trimmed(s, cutoff), b, second)
  {
    hide During, Defined, Since;
    NothingDuring(second as real - s.maxAge, (second + 1) as real);
    if b in s.entries { TrimmedKey(s.entries[b], cutoff, second as real - s.maxAge, (second + 1) as real); }
  }

  lemma NothingDuring(low: real, high: real)
    ensures During(Defined([]), low, high) == []
  {}

  lemma {:induction false} SinceMembers(entries: seq<Entry>, cutoff: real)
    ensures forall e :: e in Since(entries, cutoff) <==> e in entries && cutoff <= e.time
    ensures Projection.Ordered(entries) ==> Projection.Ordered(Since(entries, cutoff))
  {
    if entries != [] {
      var front, e := entries[..|entries| - 1], entries[|entries| - 1];
      assert entries == front + [e];
      SinceMembers(front, cutoff);
      if Projection.Ordered(entries) {
        OrderedFront(front, e);
        var kept := Since(front, cutoff);
        forall k | 0 <= k < |kept| ensures kept[k].time <= e.time { assert kept[k] in kept; }
      }
    }
  }

  lemma TrimmedOrdered(s: Scope, cutoff: real)
    requires TimeOrderedScope(s)
    ensures TimeOrderedScope(Trimmed(s, cutoff))
  {
    forall b | b in s.entries ensures Projection.Ordered(Since(s.entries[b], cutoff)) {
      SinceMembers(s.entries[b], cutoff);
    }
    hide Since, Projection.Ordered;
  }

  /** Such a scope: one BSSID defined long ago and one now, of which expiry then drops the first. */
  function Aged(gone: Address, now: Address, second: int): Scope
    requires gone != now
  {
    Primary(map[gone := [Entry(0.0, Some(5180))], now := [Entry(second as real, Some(5180))]], 5180, 10.0)
  }

  lemma StaleHit(gone: Address, now: Address, second: int)
    requires gone != now && second >= 12
    ensures var s, s' := Aged(gone, now, second), Trimmed(Aged(gone, now, second), 1.0);
            TimeOrderedScope(s) && TimeOrderedScope(s') && SameKey(s, s', second) && !HitIsRight(s, s', second)
  {
    AgedFacts(gone, now, second);
    ExpiryKeepsKey(Aged(gone, now, second), 1.0, second);
    hide HitIsRight, SameKey, Defining, FreshFor, Aged, Trimmed, TimeOrderedScope;
    ToldApart(Aged(gone, now, second), Trimmed(Aged(gone, now, second), 1.0), second, gone, now, second as real);
  }

  lemma AgedFacts(gone: Address, now: Address, second: int)
    requires gone != now && second >= 12
    ensures var s, s' := Aged(gone, now, second), Trimmed(Aged(gone, now, second), 1.0);
      && TimeOrderedScope(s) && TimeOrderedScope(s') && gone in Defining(s) && gone !in Defining(s')
      && FreshFor(s, now, second as real)
  {
    hide *;
    AgedOrdered(gone, now, second);
    AgedDefining(gone, now, second);
    AgedFresh(gone, now, second);
  }

  lemma AgedOrdered(gone: Address, now: Address, second: int)
    requires gone != now && second >= 12
    ensures TimeOrderedScope(Aged(gone, now, second)) && TimeOrderedScope(Trimmed(Aged(gone, now, second), 1.0))
  {
    AgedEntries(gone, now, second);
    hide Aged, Trimmed;
  }

  lemma AgedDefining(gone: Address, now: Address, second: int)
    requires gone != now && second >= 12
    ensures gone in Defining(Aged(gone, now, second)) && gone !in Defining(Trimmed(Aged(gone, now, second), 1.0))
  {
    AgedEntries(gone, now, second);
    OneEntry(Entry(0.0, Some(5180)), 0.0);
    hide Aged, Trimmed, Defined;
  }

  lemma AgedFresh(gone: Address, now: Address, second: int)
    requires gone != now && second >= 12
    ensures FreshFor(Aged(gone, now, second), now, second as real)
  {
    OneEntry(Entry(second as real, Some(5180)), second as real);
    hide Defined, LatestAt;
  }

  lemma AgedEntries(gone: Address, now: Address, second: int)
    requires gone != now && second >= 12
    ensures var s, s' := Aged(gone, now, second), Trimmed(Aged(gone, now, second), 1.0);
      && s.maxAge == 10.0 && s'.maxAge == 10.0 && s.frequency == 5180
      && s.entries.Keys == {gone, now} && s'.entries.Keys == {now}
      && s.entries[gone] == [Entry(0.0, Some(5180))] && s.entries[now] == [Entry(second as real, Some(5180))]
      && s'.entries[now] == [Entry(second as real, Some(5180))]
  {
    OneEntry(Entry(0.0, Some(5180)), second as real);
    OneEntry(Entry(second as real, Some(5180)), second as real);
    hide Since;
  }

  lemma OneEntry(e: Entry, t: real)
    requires e.primary.Some?
    ensures Defined([e]) == [e] && Defined([]) == []
    ensures Since([e], 1.0) == if 1.0 <= e.time then [e] else []
    ensures LatestAt([e], t) == if e.time <= t then Some(e) else None
  {
    assert [] + [e] == [e];
    DefinedSnoc([], e);
    NothingLatest(t);
    LatestSnoc([], e, t);
    hide Defined, LatestAt;
    assert [e][..0] == [];
  }
}
