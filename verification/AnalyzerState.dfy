/** What the fields of the rolling analyzer mean in terms of its event log, and how each step of
    the analyzer keeps that meaning. */
module AnalyzerState {
  import opened Wrappers
  import opened Rounding
  import opened Frames
  import opened Projection
  import opened Merge
  import opened Timeline
  import opened RollingWindow
  import opened AnalyzerLog

  datatype Cached = Cached(key: set<Address>, projection: FrameProjection)

  type Buckets = map<int, seq<Stamped<Frame>>>
  type Cache = map<int, Cached>

  /** Under which BSSIDs a cached second was projected, and what had been trimmed by then. */
  datatype Mark = Mark(key: set<Address>, cut: real)

  type Marks = map<int, Mark>

  /** The history of one analyzer: its events, the last expiry, the second it started with, the
      rows handed out, when each row was made, and when each cached second was. */
  datatype Trace = Trace(log: Log, expired: real, first: int, published: seq<Row>, made: seq<Made>, marks: Marks)
  {
    /** The frames not trimmed yet. */
    function Kept(): Stored { From(LogFrames(log), expired) }
  }

  // ----- what the stored state means -----

  /** Every bucket holds exactly its second's stored frames, and no bucket is empty. */
  ghost predicate BucketsOk(buckets: Buckets, stored: Stored) {
    forall s: int ::
      && (s in buckets <==> Bucket(stored, s) != [])
      && (s in buckets ==> buckets[s] == Bucket(stored, s))
  }

  ghost predicate BeaconsOk(table: BeaconTable, log: Log, expired: real) {
    forall b: Address ::
      && (b in table <==> From(LogBeacons(log, b), expired) != [])
      && (b in table ==> table[b] == From(LogBeacons(log, b), expired))
  }

  /** A cached projection shows the frames its second had when it was made. */
  ghost predicate EntryOk(c: Cached, m: Mark, log: Log, s: int) {
    c.key == m.key && c.projection == Project(SecondFrames(From(LogFrames(log), m.cut), s), m.key, Anywhere)
  }

  /** Only the second that the last expiry cut through can have been cached before it. */
  ghost predicate MarkOk(m: Mark, s: int, expired: real) {
    m.cut <= expired && (s < expired.Floor ==> m.cut == expired)
  }

  ghost predicate MarksOk(marks: Marks, expired: real) {
    forall s: int :: s in marks ==> MarkOk(marks[s], s, expired)
  }

  ghost predicate CacheOk(cache: Cache, marks: Marks, log: Log) {
    forall s: int :: (s in cache <==> s in marks) && (s in cache ==> EntryOk(cache[s], marks[s], log, s))
  }

  ghost predicate TimesOk(log: Log) {
    forall i :: 0 <= i < |log| ==>
      (log[i].Arrival? ==> log[i].record.Time() >= 0.0) && (log[i].Late? ==> log[i].time >= 0.0)
  }

  ghost predicate StoreOk(buckets: Buckets, table: BeaconTable, cache: Cache, t: Trace) {
    && TimesOk(t.log)
    && BucketsOk(buckets, t.Kept())
    && BeaconsOk(table, t.log, t.expired)
    && CacheOk(cache, t.marks, t.log)
    && MarksOk(t.marks, t.expired)
  }

  /** Only what is older than the window has been trimmed. */
  ghost predicate ExpiryOk(reference: Option<real>, window: nat, t: Trace) {
    && t.expired >= -(window as real)
    && match reference
       case None => t.expired == -(window as real)
       case Some(r) => r >= 0.0 && t.expired <= r - window as real
  }

  ghost predicate CutsOk(made: seq<Made>, expired: real) {
    forall k :: 0 <= k < |made| ==> made[k].cut <= expired
  }

  /** Every second with a record is completed, or still to be. */
  ghost predicate PendingOk(pending: set<int>, n: int, log: Log) {
    forall i :: 0 <= i < |log| && log[i].Arrival? ==>
      log[i].record.Time().Floor < n || log[i].record.Time().Floor in pending
  }

  /** The rows up to second n are made, the last ones perhaps at the event in progress. */
  ghost predicate RowsUpTo(n: int, pending: set<int>, done: set<int>, rows: seq<Row>, t: Trace, window: nat) {
    && n == t.first + |rows|
    && RowsOk(rows, t.made, t.log, t.first, window)
    && (Frontier(t.log).Some? ==> Frontier(t.log).value <= n && t.first == StartOf(t.log))
    && CutsOk(t.made, t.expired)
    && (forall s :: s in done ==> s < n)
    && PendingOk(pending, n, t.log)
  }

  ghost predicate ProgressOk(n: Option<int>, pending: set<int>, done: set<int>, rows: seq<Row>, t: Trace, window: nat) {
    match n
    case Some(k) => RowsUpTo(k, pending, done, rows, t, window)
    case None =>
      Frontier(t.log).None? && rows == [] && t.made == [] && done == {} && forall i :: 0 <= i < |t.log| ==>
        !t.log[i].Arrival?
  }

  /** A record for a row's window came after the row was made. */
  ghost predicate Superseded(second: int, events: nat, log: Log) {
    exists i :: events <= i < |log| && log[i].Arrival? && log[i].record.Time() < (second + 1) as real
  }

  /** The reusable projection is the last completed row, unless a record has come for its window since;
      and it still shows what its window's part of the log shows now. */
  ghost predicate ReuseOk(completed: Option<Row>, rows: seq<Row>, t: Trace, window: nat) {
    && (completed.None? ==>
      rows == [] || (t.made != [] && Superseded(rows[|rows| - 1].second, t.made[|t.made| - 1].events, t.log)))
    && (completed.Some? ==>
      && |t.made| == |rows| > 0
      && completed.value == rows[|rows| - 1]
      && !Superseded(completed.value.second, t.made[|rows| - 1].events, t.log)
      && WithinSecond(t.made[|rows| - 1].from, t.made[|rows| - 1].cut)
      && t.made[|rows| - 1].cut <= t.expired
      && WindowMatches(completed.value, t.log, t.made[|rows| - 1].cut, t.made[|rows| - 1].from, window))
  }

  lemma SupersededNext(second: int, events: nat, log: Log, e: Event)
    requires events <= |log|
    ensures Superseded(second, events, log + [e]) <==>
              Superseded(second, events, log) || (e.Arrival? && e.record.Time() < (second + 1) as real)
  {
    assert (log + [e])[|log|] == e && forall i :: 0 <= i < |log| ==> (log + [e])[i] == log[i];
  }

  // ----- a frame or beacon is stored -----

  function AddToBucket(buckets: Buckets, x: Stamped<Frame>): Buckets {
    var s := x.time.Floor;
    buckets[s := Insert(if s in buckets then buckets[s] else [], x)]
  }

  function AddToTable(table: BeaconTable, b: Address, x: Stamped<Advert>): BeaconTable {
    table[b := Insert(if b in table then table[b] else [], x)]
  }

  lemma KeptSorted(t: Trace)
    ensures Sorted(t.Kept())
  {
    LogSorted(t.log, [0, 0, 0, 0, 0, 0]);
    FromMembers(LogFrames(t.log), t.expired);
  }

  lemma BucketInserted(buckets: Buckets, stored: Stored, x: Stamped<Frame>)
    requires Sorted(stored) && BucketsOk(buckets, stored)
    ensures BucketsOk(AddToBucket(buckets, x), Insert(stored, x))
  {
    hide Bucket;
    forall s: int
      ensures s in AddToBucket(buckets, x) <==> Bucket(Insert(stored, x), s) != []
      ensures s in AddToBucket(buckets, x) ==> AddToBucket(buckets, x)[s] == Bucket(Insert(stored, x), s)
    {
      BucketInsert(stored, x, s);
      assert s in buckets <==> Bucket(stored, s) != [];
    }
  }

  lemma BucketsStored(buckets: Buckets, log: Log, r: Record, expired: real)
    requires BucketsOk(buckets, From(LogFrames(log), expired)) && expired <= r.Time()
    ensures BucketsOk(if r.FrameRecord? then AddToBucket(buckets, Stamped(r.Time(), r.frame)) else buckets,
                      From(LogFrames(log + [Arrival(r)]), expired))
  {
    ArrivalEvent(log, r);
    hide BucketsOk, LogFrames, From, AddToBucket, Insert;
    if r.FrameRecord? {
      var x := Stamped(r.Time(), r.frame);
      LogSorted(log, [0, 0, 0, 0, 0, 0]);
      FromMembers(LogFrames(log), expired);
      FromInsert(LogFrames(log), x, expired);
      BucketInserted(buckets, From(LogFrames(log), expired), x);
    }
  }

  lemma BeaconStored(table: BeaconTable, log: Log, r: Record, expired: real)
    requires BeaconsOk(table, log, expired) && expired <= r.Time()
    ensures BeaconsOk(if r.BeaconOf().Some? then
      AddToTable(table, r.BeaconOf().value, Stamped(r.Time(), r.Announced())) else table,
                      log + [Arrival(r)], expired)
  {
    ArrivalEvent(log, r);
    hide LogBeacons, From;
    if r.BeaconOf().Some? {
      var b, x := r.BeaconOf().value, Stamped(r.Time(), r.Announced());
      LogSorted(log, b);
      FromInsert(LogBeacons(log, b), x, expired);
      assert b in table <==> From(LogBeacons(log, b), expired) != [];
    }
  }

  /** A record leaves the frames of every other second as they were, whatever was trimmed before it. */
  lemma OtherSecond(log: Log, r: Record, cut: real, s: int)
    requires cut <= r.Time() && (r.FrameRecord? ==> r.Time().Floor != s)
    ensures SecondFrames(From(LogFrames(log + [Arrival(r)]), cut), s) == SecondFrames(From(LogFrames(log), cut), s)
  {
    ArrivalEvent(log, r);
    hide LogFrames, From, Bucket;
    if r.FrameRecord? {
      var x := Stamped(r.Time(), r.frame);
      LogSorted(log, [0, 0, 0, 0, 0, 0]);
      FromMembers(LogFrames(log), cut);
      FromInsert(LogFrames(log), x, cut);
      BucketInsert(From(LogFrames(log), cut), x, s);
    }
  }

  /** The cached second of a new frame is dropped. */
  function Without<T>(cached: map<int, T>, r: Record): map<int, T> {
    if r.FrameRecord? then cached - {r.Time().Floor} else cached
  }

  lemma CacheInserted(cache: Cache, marks: Marks, log: Log, r: Record, expired: real)
    requires CacheOk(cache, marks, log) && MarksOk(marks, expired) && expired <= r.Time()
    ensures CacheOk(Without(cache, r), Without(marks, r), log + [Arrival(r)]) && MarksOk(Without(marks, r), expired)
  {
    hide LogFrames, From, SecondFrames, Project;
    forall s: int
      ensures s in Without(cache, r) <==> s in Without(marks, r)
      ensures s in Without(cache, r) ==> EntryOk(Without(cache, r)[s], Without(marks, r)[s], log + [Arrival(r)], s)
    {
      assert s in cache <==> s in marks;
      if s in Without(cache, r) {
        assert EntryOk(cache[s], marks[s], log, s) && MarkOk(marks[s], s, expired);
        OtherSecond(log, r, marks[s].cut, s);
      }
    }
  }

  // ----- expiry -----

  function TrimBuckets(buckets: Buckets, cutoff: real): Buckets {
    map s | s in buckets && s >= cutoff.Floor && From(buckets[s], cutoff) != [] :: From(buckets[s], cutoff)
  }

  function TrimBeacons(table: BeaconTable, cutoff: real): BeaconTable {
    map b | b in table && From(table[b], cutoff) != [] :: From(table[b], cutoff)
  }

  function TrimSeconds<T>(cached: map<int, T>, cutoff: real): map<int, T> {
    map s | s in cached && s >= cutoff.Floor :: cached[s]
  }

  lemma {:induction false} FromWithin(s: Stored, cutoff: real, low: real, high: real)
    ensures From(Within(s, low, high), cutoff) == Within(From(s, cutoff), low, high)
  {
    if s != [] {
      var front, last := s[..|s| - 1], s[|s| - 1];
      FromWithin(front, cutoff, low, high);
      FromSnoc(Within(front, low, high), last, cutoff);
      WithinSnoc(From(front, cutoff), last, low, high);
    }
  }

  lemma BucketsTrimmed(buckets: Buckets, stored: Stored, cutoff: real)
    requires BucketsOk(buckets, stored)
    ensures BucketsOk(TrimBuckets(buckets, cutoff), From(stored, cutoff))
  {
    var after := TrimBuckets(buckets, cutoff);
    forall s: int
      ensures s in after <==> Bucket(From(stored, cutoff), s) != []
      ensures s in after ==> after[s] == Bucket(From(stored, cutoff), s)
    {
      FromWithin(stored, cutoff, s as real, (s + 1) as real);
      assert s in buckets <==> Bucket(stored, s) != [];
      if s < cutoff.Floor {
        WithinFrom(stored, cutoff, s as real, (s + 1) as real);
        WithinEmpty(stored, cutoff, (s + 1) as real);
      }
    }
  }

  lemma BeaconsTrimmed(table: BeaconTable, log: Log, expired: real, cutoff: real)
    requires BeaconsOk(table, log, expired) && expired <= cutoff
    ensures BeaconsOk(TrimBeacons(table, cutoff), log, cutoff)
  {
    var after := TrimBeacons(table, cutoff);
    forall b: Address
      ensures b in after <==> From(LogBeacons(log, b), cutoff) != []
      ensures b in after ==> after[b] == From(LogBeacons(log, b), cutoff)
    {
      FromFrom(LogBeacons(log, b), expired, cutoff);
      assert b in table <==> From(LogBeacons(log, b), expired) != [];
    }
  }

  lemma CacheTrimmed(cache: Cache, marks: Marks, log: Log, expired: real, cutoff: real)
    requires CacheOk(cache, marks, log) && MarksOk(marks, expired) && expired <= cutoff
    ensures CacheOk(TrimSeconds(cache, cutoff), TrimSeconds(marks, cutoff), log)
    ensures MarksOk(TrimSeconds(marks, cutoff), cutoff)
  {
    hide EntryOk;
    forall s: int
      ensures s in TrimSeconds(cache, cutoff) <==> s in TrimSeconds(marks, cutoff)
      ensures s in TrimSeconds(cache, cutoff) ==>
        EntryOk(TrimSeconds(cache, cutoff)[s], TrimSeconds(marks, cutoff)[s], log, s)
    {
      assert s in cache <==> s in marks;
    }
    forall s | s in TrimSeconds(marks, cutoff) ensures MarkOk(TrimSeconds(marks, cutoff)[s], s, cutoff) {
      assert MarkOk(marks[s], s, expired);
    }
  }

  /** A cached second is the fresh projection of what is stored for it if and only if no frame of
      it was trimmed since it was cached. */
  lemma CoherentExactly(cache: Cache, t: Trace, s: int)
    requires CacheOk(cache, t.marks, t.log) && MarksOk(t.marks, t.expired) && s in cache
    ensures cache[s].projection == Project(SecondFrames(t.Kept(), s), cache[s].key, Anywhere)
            <==> Slice(From(LogFrames(t.log), t.marks[s].cut), s as real, Min(t.expired, (s + 1) as real)) == []
  {
    var m, all := t.marks[s], From(LogFrames(t.log), t.marks[s].cut);
    assert s in t.marks && EntryOk(cache[s], m, t.log, s) && MarkOk(m, s, t.expired);
    LogSorted(t.log, [0, 0, 0, 0, 0, 0]);
    FromMembers(LogFrames(t.log), m.cut);
    FromFrom(LogFrames(t.log), m.cut, t.expired);
    hide LogFrames, From, Project, EntryOk, MarkOk, SecondFrames, Slice;
    assert From(all, t.expired) == t.Kept();
    SecondAfterTrim(all, s, t.expired, m.key);
  }

  lemma SecondAfterTrim(s: Stored, second: int, cutoff: real, known: set<Address>)
    requires Sorted(s)
    ensures Slice(s, second as real, Min(cutoff, (second + 1) as real)) == [] <==>
      Project(SecondFrames(s, second), known, Anywhere)
        == Project(SecondFrames(From(s, cutoff), second), known, Anywhere)
  {
    if cutoff < second as real {
      WithinFrom(s, cutoff, second as real, (second + 1) as real);
      SliceEmpty(s, second as real, cutoff);
    } else if cutoff <= (second + 1) as real {
      TrimmedSecondStale(s, second, cutoff, known, Anywhere);
    } else {
      WithinFrom(s, cutoff, second as real, (second + 1) as real);
      WithinEmpty(s, cutoff, (second + 1) as real);
      FrameCountIsLength(SecondFrames(s, second), known, Anywhere);
    }
  }

  // ----- the projection of a window -----

  /** Clamped position of the scan over buckets, at the start of a second. */
  function Cut(low: real, high: real, second: int): real { Max(low, Min(high, second as real)) }

  lemma BucketSlice(stored: Stored, low: real, high: real, second: int)
    requires Sorted(stored) && low <= high && low.Floor <= second <= high.Floor
    ensures Within(stored, low, Cut(low, high, second + 1)) == Within(stored, low, Cut(low, high, second))
              + Within(Within(stored, second as real, (second + 1) as real), low, high)
  {
    var a, b := Cut(low, high, second), Cut(low, high, second + 1);
    WithinSplit(stored, low, a, b);
    WithinWithin(stored, second as real, (second + 1) as real, low, high);
  }

  /** What had been trimmed when the projection used for a second was made. */
  function CutOf(marks: Marks, s: int, known: set<Address>, expired: real): real {
    if s in marks && marks[s].key == known then marks[s].cut else expired
  }

  function MarkSecond(marks: Marks, s: int, known: set<Address>, expired: real): Marks {
    if s in marks && marks[s].key == known then marks else marks[s := Mark(known, expired)]
  }

  function MarkAll(marks: Marks, first: int, end: int, known: set<Address>, expired: real): Marks
    decreases end - first
  {
    if end <= first then marks else MarkSecond(MarkAll(marks, first, end - 1, known, expired), end - 1, known, expired)
  }

  lemma {:induction false} MarkAllAt(marks: Marks, first: int, end: int, known: set<Address>, expired: real, s: int)
    ensures CutOf(MarkAll(marks, first, end, known, expired), s, known, expired) == CutOf(marks, s, known, expired)
    ensures var after := MarkAll(marks, first, end, known, expired);
            if first <= s < end then s in after && after[s].key == known
            else (s in after <==> s in marks) && (s in marks ==> after[s] == marks[s])
    decreases end - first
  {
    if first < end { MarkAllAt(marks, first, end - 1, known, expired, s); }
  }

  lemma SecondCached(cache: Cache, marks: Marks, log: Log, expired: real, s: int, known: set<Address>,
      p: FrameProjection)
    requires CacheOk(cache, marks, log) && MarksOk(marks, expired) && !(s in marks && marks[s].key == known)
    requires p == Project(SecondFrames(From(LogFrames(log), expired), s), known, Anywhere)
    ensures CacheOk(cache[s := Cached(known, p)], MarkSecond(marks, s, known, expired), log)
    ensures MarksOk(MarkSecond(marks, s, known, expired), expired)
  {
    hide LogFrames, From, SecondFrames, Project;
    var c, m := cache[s := Cached(known, p)], MarkSecond(marks, s, known, expired);
    forall x: int ensures (x in c <==> x in m) && (x in c ==> EntryOk(c[x], m[x], log, x)) {
      assert (x in cache <==> x in marks) && (x in cache ==> EntryOk(cache[x], marks[x], log, x));
    }
  }

  /** Where the frames of whole seconds first..end-1 begin: at the last expiry, or earlier in the
      second it cut through, if that second is answered from the cache. */
  function ShownFrom(marks: Marks, known: set<Address>, first: int, end: int, expired: real): real {
    var b := expired.Floor;
    if first <= b < end && b in marks && marks[b].key == known then Max(marks[b].cut, b as real) else expired
  }

  function WindowFrom(marks: Marks, known: set<Address>, low: real, high: real, expired: real): real {
    ShownFrom(marks, known, Ceil(low), high.Floor, expired)
  }

  lemma SecondShown(s: Stored, marks: Marks, known: set<Address>, first: int, end: int, expired: real, second: int)
    requires MarksOk(marks, expired) && first <= second < end
    ensures SecondFrames(From(s, CutOf(marks, second, known, expired)), second)
            == SecondFrames(From(s, ShownFrom(marks, known, first, end, expired)), second)
    ensures WithinSecond(ShownFrom(marks, known, first, end, expired), expired)
  {
    var c, from := CutOf(marks, second, known, expired), ShownFrom(marks, known, first, end, expired);
    assert second in marks ==> MarkOk(marks[second], second, expired);
    assert expired.Floor in marks ==> MarkOk(marks[expired.Floor], expired.Floor, expired);
    WithinFrom(s, c, second as real, (second + 1) as real);
    WithinFrom(s, from, second as real, (second + 1) as real);
    if second < expired.Floor {
      WithinEmpty(s, c, (second + 1) as real);
      WithinEmpty(s, from, (second + 1) as real);
    }
  }

  lemma WithinShown(marks: Marks, known: set<Address>, first: int, end: int, expired: real)
    requires MarksOk(marks, expired)
    ensures WithinSecond(ShownFrom(marks, known, first, end, expired), expired)
  {
    assert expired.Floor in marks ==> MarkOk(marks[expired.Floor], expired.Floor, expired);
  }

  /** The boundary slices do not depend on whether the cut second is answered from the cache. */
  lemma SlicesShown(s: Stored, marks: Marks, known: set<Address>, low: real, high: real, expired: real)
    requires MarksOk(marks, expired) && low < high
    ensures var from := WindowFrom(marks, known, low, high, expired);
      && LeadingSlice(From(s, expired), low, high) == LeadingSlice(From(s, from), low, high)
      && TrailingSlice(From(s, expired), low, high) == TrailingSlice(From(s, from), low, high)
  {
    WithinShown(marks, known, Ceil(low), high.Floor, expired);
    var from, end, start := WindowFrom(marks, known, low, high, expired), Min(Ceil(low) as real, high),
      TrailingStart(low, high);
    if from != expired {
      WithinFrom(s, expired, low, end);
      WithinFrom(s, from, low, end);
      WithinEmpty(s, expired, end);
      WithinEmpty(s, from, end);
      WithinFrom(s, expired, start, high);
      WithinFrom(s, from, start, high);
    }
  }

  function WindowHigh(at: real, upper: Option<real>): real { if upper.Some? then upper.value else at + TOLERANCE }

  /** The beacons of a window; without an upper end, of everything from low on. */
  function WindowBeacons(table: BeaconTable, low: real, high: Option<real>): BeaconTable {
    map b | b in table && InWindow(table[b], low, high) != [] :: InWindow(table[b], low, high)
  }

  lemma WindowBeaconsShown(table: BeaconTable, log: Log, expired: real, low: real, high: Option<real>)
    requires BeaconsOk(table, log, expired)
    ensures BeaconsShown(WindowBeacons(table, low, high), log, expired, low, high)
  {
    NoneInWindow(low, high);
    hide LogBeacons, From, InWindow;
    forall b ensures b in table <==> From(LogBeacons(log, b), expired) != [] {}
  }

  lemma NoneInWindow(low: real, high: Option<real>)
    ensures InWindow<Advert>([], low, high) == []
  {}

  // ----- completed rows -----

  lemma RowCorrect(row: Row, table: BeaconTable, t: Trace, from: real, window: nat)
    requires window > 0 && BeaconsOk(table, t.log, t.expired)
    requires row.beacons == WindowBeacons(table, Low(row.second, window), Some(High(row.second)))
    requires row.windowFrames ==
               WindowProjection(From(LogFrames(t.log), from), Low(row.second, window), High(row.second), row.Known())
    requires row.frames == Project(SecondFrames(From(LogFrames(t.log), from), row.second), row.Known(), Anywhere)
    ensures WindowMatches(row, t.log, t.expired, from, window)
  {
    hide LogFrames, Project, From, SecondFrames, WindowBeacons, WindowProjection, BeaconsOk, BeaconsShown, Agree;
    LongWindowsCount(Low(row.second, window), High(row.second));
    LogSorted(t.log, [0, 0, 0, 0, 0, 0]);
    FromMembers(LogFrames(t.log), from);
    WindowIsOnePass(From(LogFrames(t.log), from), Low(row.second, window), High(row.second), row.Known());
    WindowBeaconsShown(table, t.log, t.expired, Low(row.second, window), Some(High(row.second)));
  }

  lemma ReceptionsCorrect(row: Row, table: BeaconTable, log: Log, expired: real, window: nat)
    requires BeaconsOk(table, log, expired)
    requires row.beacons == WindowBeacons(table, Low(row.second, window), Some(High(row.second)))
    requires forall b :: b in row.receptions <==> b in row.beacons && Loud(row.beacons[b], High(row.second))
    requires forall b :: b in row.receptions ==> b in table && row.receptions[b] == ReceptionOf(table[b], row.second)
    ensures ReceptionsMatch(row, log, expired, window)
  {
    NoneInWindow(Low(row.second, window), Some(High(row.second)));
    hide LogBeacons, From, Within, Times, ReceptionOf;
    forall b ensures b in row.receptions <==>
      Loud(Within(From(LogBeacons(log, b), expired), Low(row.second, window), High(row.second)), High(row.second))
    {
      assert b in table <==> From(LogBeacons(log, b), expired) != [];
    }
  }

  /** One more row is made. */
  lemma RowStep(n: int, pending: set<int>, done: set<int>, rows: seq<Row>, t: Trace, window: nat, row: Row, from: real)
    requires RowsUpTo(n, pending, done, rows, t, window) && Frontier(t.log).Some?
    requires row.second == n && WithinSecond(from, t.expired)
    requires WindowMatches(row, t.log, t.expired, from, window) && ReceptionsMatch(row, t.log, t.expired, window)
    ensures var t' := t.(made := t.made + [Made(|t.log|, t.expired, from)]);
      && RowsUpTo(n + 1, pending - {n}, done + {n}, rows + [row], t', window)
      && ReuseOk(Some(row), rows + [row], t', window)
  {
    hide RowsOk, WindowMatches, ReceptionsMatch, Frontier, StartOf;
    assert t.log[..|t.log|] == t.log;
    RowAdded(rows, t.made, row, Made(|t.log|, t.expired, from), t.log, t.first, window);
    RowsCounted(rows, t.made, t.log, t.first, window);
  }

  lemma RowsCounted(rows: seq<Row>, made: seq<Made>, log: Log, first: int, window: nat)
    requires RowsOk(rows, made, log, first, window)
    ensures |rows| == |made|
  {}

  // ----- events -----

  /** An event that stores nothing. */
  lemma NoteStep(n: Option<int>, pending: set<int>, done: set<int>, rows: seq<Row>, t: Trace, window: nat, e: Event)
    requires ProgressOk(n, pending, done, rows, t, window) && !e.Arrival?
    requires n == Frontier(t.log + [e]) && (n.Some? ==> t.first == StartOf(t.log + [e]))
    ensures ProgressOk(n, pending, done, rows, t.(log := t.log + [e]), window)
  {
    hide RowsOk, Frontier, StartOf, CutsOk;
    if n.Some? { RowsKept(rows, t.made, t.log, t.first, window, e); }
  }

  lemma QuietStore(buckets: Buckets, table: BeaconTable, cache: Cache, t: Trace, e: Event)
    requires StoreOk(buckets, table, cache, t) && !e.Arrival? && (e.Late? ==> e.time >= 0.0)
    ensures StoreOk(buckets, table, cache, t.(log := t.log + [e]))
  {
    QuietEvent(t.log, e);
    QuietBeacons(table, t.log, t.expired, e);
    QuietCache(cache, t.marks, t.log, e);
    hide LogFrames, LogBeacons, From, BucketsOk, BeaconsOk, CacheOk, MarksOk;
  }

  lemma QuietBeacons(table: BeaconTable, log: Log, expired: real, e: Event)
    requires BeaconsOk(table, log, expired) && !e.Arrival?
    ensures BeaconsOk(table, log + [e], expired)
  {
    QuietEvent(log, e);
    hide LogFrames, LogBeacons, From;
    forall b: Address ensures LogBeacons(log + [e], b) == LogBeacons(log, b) {}
  }

  lemma QuietCache(cache: Cache, marks: Marks, log: Log, e: Event)
    requires CacheOk(cache, marks, log) && !e.Arrival?
    ensures CacheOk(cache, marks, log + [e])
  {
    QuietEvent(log, e);
    hide LogFrames, LogBeacons, From, SecondFrames, Project;
    forall s: int
      ensures (s in cache <==> s in marks) && (s in cache ==> EntryOk(cache[s], marks[s], log + [e], s))
    {
      assert (s in cache <==> s in marks) && (s in cache ==> EntryOk(cache[s], marks[s], log, s));
    }
  }

  lemma QuietReuse(completed: Option<Row>, rows: seq<Row>, t: Trace, window: nat, e: Event)
    requires ReuseOk(completed, rows, t, window) && EventsIn(t.made, t.log) && !e.Arrival?
    ensures ReuseOk(completed, rows, t.(log := t.log + [e]), window)
  {
    hide WindowMatches, Superseded;
    if rows != [] && t.made != [] { SupersededNext(rows[|rows| - 1].second, t.made[|t.made| - 1].events, t.log, e); }
    if completed.Some? {
      QuietWindow(completed.value, t.log, e, t.made[|rows| - 1].cut, t.made[|rows| - 1].from, window);
    }
  }

  /** A record is accepted. */
  lemma ArrivalStep(n: int, pending: set<int>, done: set<int>, rows: seq<Row>, t: Trace, window: nat, r: Record)
    requires RowsUpTo(n, pending, done, rows, t, window)
    requires Some(n) == Frontier(t.log + [Arrival(r)]) && t.first == StartOf(t.log + [Arrival(r)])
    ensures RowsUpTo(n, if r.Time().Floor in done then pending else pending + {r.Time().Floor}, done, rows,
                     t.(log := t.log + [Arrival(r)], marks := Without(t.marks, r)), window)
  {
    hide RowsOk, Frontier, StartOf, CutsOk;
    RowsKept(rows, t.made, t.log, t.first, window, Arrival(r));
  }

  /** After a record for its window, or an earlier one, the last row is not reused. */
  lemma ArrivalReuse(completed: Option<Row>, rows: seq<Row>, t: Trace, window: nat, r: Record)
    requires ReuseOk(completed, rows, t, window) && EventsIn(t.made, t.log) && t.expired <= r.Time()
    ensures ReuseOk(if completed.Some? && r.Time() < High(completed.value.second) then None else completed,
                    rows, t.(log := t.log + [Arrival(r)], marks := Without(t.marks, r)), window)
  {
    hide WindowMatches, Superseded;
    if rows != [] && t.made != [] {
      SupersededNext(rows[|rows| - 1].second, t.made[|t.made| - 1].events, t.log, Arrival(r));
    }
    if completed.Some? && r.Time() >= High(completed.value.second) {
      LaterArrival(completed.value, t.log, r, t.made[|rows| - 1].cut, t.made[|rows| - 1].from, window);
    }
  }

  ghost predicate EventsIn(made: seq<Made>, log: Log) { forall k :: 0 <= k < |made| ==> made[k].events <= |log| }

  lemma RowsIn(n: Option<int>, pending: set<int>, done: set<int>, rows: seq<Row>, t: Trace, window: nat)
    requires ProgressOk(n, pending, done, rows, t, window)
    ensures EventsIn(t.made, t.log)
  {
    hide Frontier, StartOf, PendingOk, CutsOk;
    if n.Some? { RowsEvents(rows, t.made, t.log, t.first, window); }
  }

  lemma RowsEvents(rows: seq<Row>, made: seq<Made>, log: Log, first: int, window: nat)
    requires RowsOk(rows, made, log, first, window)
    ensures EventsIn(made, log)
  {
    hide Frontier, WindowMatches, ReceptionsMatch, WithinSecond;
    forall k | 0 <= k < |made| ensures made[k].events <= |log| {
      assert RowOk(rows[k], made[k], log, first + k, window);
    }
  }

  lemma ExpiryStep(n: Option<int>, pending: set<int>, done: set<int>, rows: seq<Row>, completed: Option<Row>, t: Trace,
                   window: nat, cutoff: real)
    requires ProgressOk(n, pending, done, rows, t, window) && ReuseOk(completed, rows, t, window) && t.expired <= cutoff
    ensures var t' := t.(expired := cutoff, marks := TrimSeconds(t.marks, cutoff));
            ProgressOk(n, pending, done, rows, t', window) && ReuseOk(completed, rows, t', window)
  {
    hide RowsOk, Frontier, StartOf, WindowMatches, PendingOk;
  }

  /** Neither progress nor reuse depends on the cache. */
  lemma MarksAside(n: Option<int>, pending: set<int>, done: set<int>, rows: seq<Row>, completed: Option<Row>, t: Trace,
                   window: nat, marks: Marks, published: seq<Row>)
    requires ProgressOk(n, pending, done, rows, t, window) && ReuseOk(completed, rows, t, window)
    ensures var t' := t.(marks := marks, published := published);
            ProgressOk(n, pending, done, rows, t', window) && ReuseOk(completed, rows, t', window)
  {
    hide RowsOk, Frontier, StartOf, WindowMatches, PendingOk, CutsOk;
  }

  lemma ExpiryKept(reference: Option<real>, window: nat, t: Trace, t': Trace)
    requires ExpiryOk(reference, window, t) && t'.expired == t.expired
    ensures ExpiryOk(reference, window, t')
  {}

  lemma StoreKept(buckets: Buckets, table: BeaconTable, cache: Cache, t: Trace, t': Trace)
    requires StoreOk(buckets, table, cache, t) && t'.log == t.log && t'.expired == t.expired && t'.marks == t.marks
    ensures StoreOk(buckets, table, cache, t')
  {
    hide BucketsOk, BeaconsOk, CacheOk, MarksOk, TimesOk;
  }

  function Later(a: Option<real>, t: real): (r: real)
    ensures t <= r && (a.Some? ==> a.value <= r) && (r == t || a == Some(r))
  {
    if a.Some? && a.value >= t then a.value else t
  }

  /** Rows already made stay as they were; those made since were made at the same event, when nothing
      more had been trimmed. */
  ghost predicate MadeSince(before: Trace, after: Trace) {
    && before.made <= after.made
    && forall k :: |before.made| <= k < |after.made| ==>
         after.made[k].cut == before.expired && after.made[k].events == |before.log|
  }

  lemma MadeKept(a: Trace, b: Trace, c: Trace)
    requires MadeSince(a, b) && c.made == b.made
    ensures MadeSince(a, c)
  {}

  lemma NoneMade(a: Trace, b: Trace)
    requires a.made == b.made
    ensures MadeSince(a, b)
  {}

  lemma MadeOn(a: Trace, b: Trace, c: Trace)
    requires MadeSince(a, b) && MadeSince(b, c) && b.expired == a.expired && |b.log| == |a.log|
    ensures MadeSince(a, c)
  {
    assert forall k :: 0 <= k < |b.made| ==> c.made[k] == b.made[k];
  }

  /** Every second with a record has been handed out. */
  ghost predicate AllPublished(t: Trace) {
    forall i :: 0 <= i < |t.log| && t.log[i].Arrival? ==> t.log[i].record.Time().Floor < t.first + |t.published|
  }

  // ----- snapshots -----

  /** What a snapshot is computed from: the beacons and the frames of its window, and the frames of
      its current second. */
  datatype Snapshot = Snapshot(
    at: real,
    second: int,
    beacons: BeaconTable,
    windowFrames: FrameProjection,
    frames: FrameProjection)

  /** Where the beacons, the window's frames and the current second's frames begin. */
  datatype View = View(cut: real, from: real, now: real)

  ghost predicate SnapshotMatches(s: Snapshot, log: Log, v: View, upper: Option<real>, window: nat) {
    var low := s.at - window as real;
    && BeaconsShown(s.beacons, log, v.cut, low, upper)
    && FramesShown(s.windowFrames, s.beacons.Keys, log, v.from, low, WindowHigh(s.at, upper))
    && s.frames == Project(Slice(From(LogFrames(log), v.now), s.second as real, if upper.Some? then upper.value
      else High(s.second)),
                           s.beacons.Keys, Anywhere)
  }

  predicate Reuses(completed: Option<Row>, at: real, second: int, upper: Option<real>) {
    completed.Some? && completed.value.second == second && at == High(second) && upper == Some(High(second))
  }

  ghost function ViewOf(completed: Option<Row>, table: BeaconTable, t: Trace, at: real, second: int,
      upper: Option<real>,
                        window: nat): View {
    if Reuses(completed, at, second, upper) && t.made != [] then
      var m := t.made[|t.made| - 1];
      View(m.cut, m.from, m.from)
    else
      var low := at - window as real;
      View(t.expired, WindowFrom(t.marks, WindowBeacons(table, low, upper).Keys, low, WindowHigh(at, upper),
        t.expired), t.expired)
  }

  /** Which seconds a snapshot leaves cached. */
  ghost function MarksAfter(completed: Option<Row>, table: BeaconTable, marks: Marks, expired: real, at: real,
      second: int,
                            upper: Option<real>, window: nat): Marks {
    var low := at - window as real;
    if Reuses(completed, at, second, upper) then marks
    else MarkAll(marks, Ceil(low), WindowHigh(at, upper).Floor, WindowBeacons(table, low, upper).Keys, expired)
  }

  function RowSnapshot(row: Row): Snapshot {
    Snapshot(High(row.second), row.second, row.beacons, row.windowFrames, row.frames)
  }

  /** Caching the seconds of a window does not change what a snapshot of it shows. */
  lemma ViewKept(completed: Option<Row>, table: BeaconTable, t: Trace, at: real, second: int, upper: Option<real>,
      window: nat)
    ensures var after := MarksAfter(completed, table, t.marks, t.expired, at, second, upper, window);
            ViewOf(completed, table, t.(marks := after), at, second, upper, window)
            == ViewOf(completed, table, t, at, second, upper, window)
  {
    hide MarkAll, WindowBeacons;
    var low := at - window as real;
    var known := WindowBeacons(table, low, upper).Keys;
    MarkAllAt(t.marks, Ceil(low), WindowHigh(at, upper).Floor, known, t.expired, t.expired.Floor);
    OwnMark(t.marks, known, t.expired);
  }

  lemma OwnMark(marks: Marks, known: set<Address>, expired: real)
    ensures var b := expired.Floor;
            !(b in marks && marks[b].key == known) ==> Max(CutOf(marks, b, known, expired), b as real) == expired
  {}

  /** The completed row stands for the snapshot of its own second. */
  lemma ReusedRow(row: Row, log: Log, cut: real, from: real, window: nat)
    requires WindowMatches(row, log, cut, from, window)
    ensures SnapshotMatches(RowSnapshot(row), log, View(cut, from, from), Some(High(row.second)), window)
  {
    hide BeaconsShown, Project, LogFrames, From, Agree, Within;
  }

  lemma SnapshotCorrect(s: Snapshot, table: BeaconTable, t: Trace, from: real, upper: Option<real>, window: nat)
    requires window > 0 && BeaconsOk(table, t.log, t.expired) && (upper.Some? ==> upper.value == s.at)
    requires var low := s.at - window as real;
      && s.beacons == WindowBeacons(table, low, upper)
      && s.windowFrames == WindowProjection(From(LogFrames(t.log), from), low, WindowHigh(s.at, upper), s.beacons.Keys)
    requires s.frames == Project(Slice(t.Kept(), s.second as real, if upper.Some? then upper.value else High(s.second)),
                                 s.beacons.Keys, Anywhere)
    ensures SnapshotMatches(s, t.log, View(t.expired, from, t.expired), upper, window)
  {
    hide LogFrames, Project, From, WindowBeacons, WindowProjection, BeaconsOk, BeaconsShown, Agree;
    var low, high := s.at - window as real, WindowHigh(s.at, upper);
    LongWindowsCount(low, high);
    LogSorted(t.log, [0, 0, 0, 0, 0, 0]);
    FromMembers(LogFrames(t.log), from);
    WindowIsOnePass(From(LogFrames(t.log), from), low, high, s.beacons.Keys);
    WindowBeaconsShown(table, t.log, t.expired, low, upper);
  }

  /** Trimming that stays behind a window and its current second does not show. */
  lemma TrimmedBehind(s: Snapshot, log: Log, v: View, w: View, upper: Option<real>, window: nat)
    requires SnapshotMatches(s, log, v, upper, window)
    requires var low := s.at - window as real;
      v.cut <= low && v.from <= low && v.now <= s.second as real && w.cut <= low && w.from <= low
        && w.now <= s.second as real
    ensures SnapshotMatches(s, log, w, upper, window)
  {
    var low, high, end := s.at - window as real, WindowHigh(s.at, upper), if upper.Some? then upper.value
      else High(s.second);
    WithinFrom(LogFrames(log), v.from, low, high);
    WithinFrom(LogFrames(log), w.from, low, high);
    WithinFrom(LogFrames(log), v.now, s.second as real, end);
    WithinFrom(LogFrames(log), w.now, s.second as real, end);
    hide LogFrames, LogBeacons, Project, From, Within, Agree;
    forall b ensures InWindow(From(LogBeacons(log, b), v.cut), low, upper)
      == InWindow(From(LogBeacons(log, b), w.cut), low, upper) {
      InWindowFrom(LogBeacons(log, b), v.cut, low, upper);
      InWindowFrom(LogBeacons(log, b), w.cut, low, upper);
    }
  }

  lemma InWindowFrom(s: Beacons, cut: real, low: real, high: Option<real>)
    requires cut <= low
    ensures InWindow(From(s, cut), low, high) == InWindow(s, low, high)
  {
    if high.Some? { WithinFrom(s, cut, low, high.value); } else { FromFrom(s, cut, low); }
  }
}
