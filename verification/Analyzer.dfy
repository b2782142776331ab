/** The rolling analyzer with its second buckets, projection cache, expiry and completion,
    proved against its event log. */
module Analyzer {
  import opened Wrappers
  import opened Rounding
  import opened Frames
  import opened Projection
  import opened Merge
  import opened Timeline
  import opened RollingWindow
  import opened AnalyzerLog
  import opened AnalyzerState
  import BeaconSlots

  class Analyzer {
    const window: nat
    var buckets: Buckets
    var table: BeaconTable
    var cache: Cache
    var reference: Option<real>
    var next: Option<int>
    var pending: set<int>
    var done: set<int>
    var ready: seq<Row>
    var completed: Option<Row>

    ghost var trace: Trace

    /** Between two events, with every row before second n made. */
    ghost predicate Mid(n: Option<int>)
      reads `buckets, `table, `cache, `reference, `pending, `done, `ready, `completed, `trace
    {
      && window > 0
      && StoreOk(buckets, table, cache, trace)
      && ExpiryOk(reference, window, trace)
      && ProgressOk(n, pending, done, trace.published + ready, trace, window)
      && ReuseOk(completed, trace.published + ready, trace, window)
    }

    /** Every row made so far. */
    ghost function Rows(): seq<Row>
      reads `ready, `trace
    {
      trace.published + ready
    }

    ghost predicate Valid()
      reads this
    {
      Mid(next) && next == Frontier(trace.log)
    }

    constructor (windowSeconds: nat)
      requires windowSeconds > 0
      ensures Valid() && window == windowSeconds && ready == [] && reference.None? && next.None? && completed.None?
      ensures trace == Trace([], -(windowSeconds as real), 0, [], [], map[])
    {
      window := windowSeconds;
      buckets, table, cache := map[], map[], map[];
      reference, next, pending, done, ready, completed := None, None, {}, {}, [], None;
      trace := Trace([], -(windowSeconds as real), 0, [], [], map[]);
    }

    // ----- the projection of a window -----

    method FramesBetween(low: real, high: real) returns (r: seq<Frame>)
      requires StoreOk(buckets, table, cache, trace) && low <= high
      ensures r == Slice(trace.Kept(), low, high)
    {
      KeptSorted(trace);
      ghost var stored := trace.Kept();
      ghost var scanned: Stored := [];
      r := [];
      var second := low.Floor;
      WithinEmpty(stored, low, Cut(low, high, second));
      while second <= high.Floor
        invariant low.Floor <= second <= high.Floor + 1
        invariant scanned == Within(stored, low, Cut(low, high, second))
        invariant r == Values(scanned)
      {
        BucketSlice(stored, low, high, second);
        ghost var part := Within(Bucket(stored, second), low, high);
        if second in buckets {
          r := r + Values(Within(buckets[second], low, high));
        }
        ValuesConcat(scanned, part);
        scanned := scanned + part;
        second := second + 1;
      }
    }

    method ProjectionForSecond(second: int, known: set<Address>) returns (p: FrameProjection)
      requires StoreOk(buckets, table, cache, trace)
      modifies this`cache, this`trace
      ensures StoreOk(buckets, table, cache, trace)
      ensures trace == old(trace).(marks := MarkSecond(old(trace).marks, second, known, old(trace).expired))
      ensures var cut := CutOf(old(trace).marks, second, known, trace.expired);
              p == Project(SecondFrames(From(LogFrames(trace.log), cut), second), known, Anywhere)
    {
      hide BucketsOk, BeaconsOk, MarksOk, TimesOk, LogFrames, From, Project, Within;
      if second in cache && cache[second].key == known {
        assert EntryOk(cache[second], trace.marks[second], trace.log, second);
        return cache[second].projection;
      }
      var frames := FramesBetween(second as real, (second + 1) as real);
      p := ProjectFrames(frames, known, Anywhere);
      assert second in trace.marks ==> EntryOk(cache[second], trace.marks[second], trace.log, second);
      SecondCached(cache, trace.marks, trace.log, trace.expired, second, known, p);
      cache := cache[second := Cached(known, p)];
      trace := trace.(marks := MarkSecond(trace.marks, second, known, trace.expired));
    }

    /** The projections of whole seconds first..end-1, cached ones reused. */
    method WholeProjections(first: int, end: int, known: set<Address>) returns (parts: seq<FrameProjection>)
      requires StoreOk(buckets, table, cache, trace)
      modifies this`cache, this`trace
      ensures StoreOk(buckets, table, cache, trace)
      ensures trace == old(trace).(marks := MarkAll(old(trace).marks, first, end, known, old(trace).expired))
      ensures var from := ShownFrom(old(trace).marks, known, first, end, trace.expired);
              parts == Projections(WholeSeconds(From(LogFrames(trace.log), from), first, end), known, Anywhere)
    {
      hide BucketsOk, BeaconsOk, CacheOk, TimesOk, LogFrames, From, Project, ShownFrom, CutOf, SecondFrames, MarksOk;
      ghost var t, s := trace, LogFrames(trace.log);
      ghost var from := ShownFrom(t.marks, known, first, end, t.expired);
      parts := [];
      var whole := first;
      while whole < end
        invariant StoreOk(buckets, table, cache, trace)
        invariant whole == first || first <= whole <= end
        invariant trace == t.(marks := MarkAll(t.marks, first, whole, known, t.expired))
        invariant parts == Projections(WholeSeconds(From(s, from), first, whole), known, Anywhere)
      {
        MarkAllAt(t.marks, first, whole, known, t.expired, whole);
        SecondShown(s, t.marks, known, first, end, t.expired, whole);
        var second := ProjectionForSecond(whole, known);
        parts := parts + [second];
        whole := whole + 1;
      }
    }

    /** The boundary slices before the first and after the last whole second. */
    method BoundaryProjections(low: real, high: real, known: set<Address>)
      returns (leading: seq<FrameProjection>, trailing: seq<FrameProjection>)
      requires StoreOk(buckets, table, cache, trace) && low < high
      ensures leading == Projections(LeadingSlice(trace.Kept(), low, high), known, Anywhere)
      ensures trailing == Projections(TrailingSlice(trace.Kept(), low, high), known, Anywhere)
    {
      hide StoreOk;
      leading, trailing := [], [];
      if low < Ceil(low) as real {
        var frames := FramesBetween(low, Min(Ceil(low) as real, high));
        var p := ProjectFrames(frames, known, Anywhere);
        leading := [p];
      }
      if TrailingStart(low, high) < high {
        var frames := FramesBetween(TrailingStart(low, high), high);
        var p := ProjectFrames(frames, known, Anywhere);
        trailing := [p];
      }
    }

    /** The merged projection of a window: cached whole seconds and up to two boundary slices. */
    method RollingProjection(at: real, upper: Option<real>, known: set<Address>) returns (p: FrameProjection)
      requires StoreOk(buckets, table, cache, trace)
      modifies this`cache, this`trace
      ensures StoreOk(buckets, table, cache, trace)
      ensures WindowHigh(at, upper) <= at - window as real ==> p == EMPTY_PROJECTION && trace == old(trace)
      ensures var low, high := at - window as real, WindowHigh(at, upper);
        low < high ==>
          && trace == old(trace).(marks := MarkAll(old(trace).marks, Ceil(low), high.Floor, known, old(trace).expired))
          && var from := WindowFrom(old(trace).marks, known, low, high, trace.expired);
             p == WindowProjection(From(LogFrames(trace.log), from), low, high, known)
    {
      hide WindowProjection, Merged, Projections, StoreOk, LeadingSlice, TrailingSlice, WholeSeconds, Project,
        ShownFrom, MarkAll;
      var low, high := at - window as real, WindowHigh(at, upper);
      if high <= low {
        p := EMPTY_PROJECTION;
        return;
      }
      ghost var t, s := trace, LogFrames(trace.log);
      ghost var from := WindowFrom(t.marks, known, low, high, t.expired);
      MarksKnown();
      SlicesShown(s, t.marks, known, low, high, t.expired);
      var leading, trailing := BoundaryProjections(low, high, known);
      var whole := WholeProjections(Ceil(low), high.Floor, known);
      p := MergeFrameProjections(leading + whole + trailing);
      PartsMerged(From(s, from), low, high, known, leading, whole, trailing);
    }

    lemma MarksKnown()
      requires StoreOk(buckets, table, cache, trace)
      ensures MarksOk(trace.marks, trace.expired) && BeaconsOk(table, trace.log, trace.expired)
    {}

    // ----- completing seconds -----

    method Receptions(second: int, beacons: BeaconTable) returns (r: map<Address, BeaconSlots.Counts>)
      requires beacons == WindowBeacons(table, Low(second, window), Some(High(second)))
      ensures forall b :: b in r <==> b in beacons && Loud(beacons[b], High(second))
      ensures forall b :: b in r ==> b in table && r[b] == ReceptionOf(table[b], second)
    {
      hide InWindow;
      r := map[];
      var rest := beacons.Keys;
      while rest != {}
        invariant rest <= beacons.Keys
        invariant forall b :: b in r <==> b in beacons && b !in rest && Loud(beacons[b], High(second))
        invariant forall b :: b in r ==> b in table && r[b] == ReceptionOf(table[b], second)
      {
        var b :| b in rest;
        rest := rest - {b};
        if Loud(beacons[b], High(second)) {
          var counts := BeaconSlots.BeaconReceptionCounts(Times(table[b]), second as real, High(second), SLOTS);
          r := r[b := counts];
        }
      }
    }

    method MakeRow(second: int) returns (row: Row, ghost from: real)
      requires window > 0 && StoreOk(buckets, table, cache, trace)
      modifies this`cache, this`trace
      ensures StoreOk(buckets, table, cache, trace) && trace == old(trace).(marks := trace.marks)
      ensures row.second == second && WithinSecond(from, trace.expired)
      ensures from == WindowFrom(old(trace).marks, row.Known(), Low(second, window), High(second), trace.expired)
      ensures WindowMatches(row, trace.log, trace.expired, from, window)
      ensures ReceptionsMatch(row, trace.log, trace.expired, window)
    {
      hide WindowProjection, Project, Loud, ReceptionOf, WindowMatches, ReceptionsMatch, StoreOk, WindowBeacons,
        ShownFrom, CutOf,
        MarkAll, MarkSecond, SecondFrames, BeaconsOk, MarksOk, WithinSecond;
      var low, high := Low(second, window), High(second);
      var beacons := WindowBeacons(table, low, Some(high));
      ghost var t := trace;
      from := WindowFrom(t.marks, beacons.Keys, low, high, t.expired);
      MarksKnown();
      MarkAllAt(t.marks, Ceil(low), second + 1, beacons.Keys, t.expired, second);
      SecondShown(LogFrames(t.log), t.marks, beacons.Keys, Ceil(low), second + 1, t.expired, second);
      var windowFrames := RollingProjection(high, Some(high), beacons.Keys);
      var frames := ProjectionForSecond(second, beacons.Keys);
      var receptions := Receptions(second, beacons);
      row := Row(second, beacons, frames, windowFrames, receptions);
      RowCorrect(row, table, trace, from, window);
      ReceptionsCorrect(row, table, trace.log, trace.expired, window);
    }

    method CompleteSecond(second: int)
      requires Mid(Some(second)) && Frontier(trace.log).Some?
      modifies this`cache, this`pending, this`done, this`ready, this`completed, this`trace
      ensures Mid(Some(second + 1)) && trace == old(trace).(marks := trace.marks, made := trace.made)
      ensures |ready| == |old(ready)| + 1 && ready[..|old(ready)|] == old(ready) && pending <= old(pending)
      ensures MadeSince(old(trace), trace) && |trace.made| == |old(trace).made| + 1
        && Rows() == old(Rows()) + [ready[|ready| - 1]]
      ensures completed == Some(ready[|ready| - 1]) && done == old(done) + {second}
    {
      hide StoreOk, ExpiryOk, ReuseOk, WindowMatches, ReceptionsMatch, RowsOk, CutsOk, PendingOk, Frontier, StartOf,
        WithinSecond;
      if second in done { assert false; }
      ghost var rows := trace.published + ready;
      var row, from := MakeRow(second);
      assert RowsUpTo(second, pending, done, rows, trace, window);
      RowStep(second, pending, done, rows, trace, window, row, from);
      assert trace.published + (ready + [row]) == rows + [row];
      ready := ready + [row];
      completed := Some(row);
      done := done + {second};
      pending := pending - {second};
      trace := trace.(made := trace.made + [Made(|trace.log|, trace.expired, from)]);
      ExpiryKept(reference, window, old(trace), trace);
      StoreKept(buckets, table, cache, trace.(made := old(trace).made), trace);
    }

    method FinalizeBefore(second: int)
      requires Mid(next) && (next.Some? && next.value < second ==> Frontier(trace.log).Some?)
      modifies this`cache, this`pending, this`done, this`ready, this`completed, this`trace, this`next
      ensures Mid(next) && trace == old(trace).(marks := trace.marks, made := trace.made)
      ensures next == if old(next).None? then None else Some(MaxInt(old(next).value, second))
      ensures pending <= old(pending) && old(done) <= done
      ensures MadeSince(old(trace), trace) && old(Rows()) <= Rows()
    {
      hide Mid;
      if next.None? { return; }
      var n := next.value;
      while n < second
        invariant Mid(Some(n)) && trace == old(trace).(marks := trace.marks, made := trace.made)
        invariant old(next).value <= n && (n < second ==> Frontier(trace.log).Some?)
        invariant n <= MaxInt(old(next).value, second) && pending <= old(pending) && old(done) <= done
        invariant MadeSince(old(trace), trace) && old(Rows()) <= Rows()
      {
        ghost var before := trace;
        CompleteSecond(n);
        MadeOn(old(trace), before, trace);
        n := n + 1;
      }
      next := Some(n);
    }

    /** Closes the seconds whose delayed-beacon grace is over at a time, and only those. */
    method FinalizeAfterGrace(time: real)
      requires Mid(next) && (next.Some? && PastGrace(time, next.value) ==> Frontier(trace.log).Some?)
      modifies this`cache, this`pending, this`done, this`ready, this`completed, this`trace, this`next
      ensures Mid(next) && trace == old(trace).(marks := trace.marks, made := trace.made)
      ensures next == if old(next).None? then None else Some(MaxInt(old(next).value, FirstOpen(time)))
      ensures next == old(next) ==> trace == old(trace) && completed == old(completed)
      ensures old(done) <= done
      ensures MadeSince(old(trace), trace) && old(Rows()) <= Rows()
    {
      hide Mid, Frontier;
      if next.None? { return; }
      var n := next.value;
      while PastGrace(time, n)
        invariant Mid(Some(n)) && trace == old(trace).(marks := trace.marks, made := trace.made)
        invariant old(next).value <= n && (PastGrace(time, n) ==> Frontier(trace.log).Some?)
        invariant n <= MaxInt(old(next).value, FirstOpen(time)) && old(done) <= done
        invariant n == old(next).value ==> trace == old(trace) && completed == old(completed)
        invariant MadeSince(old(trace), trace) && old(Rows()) <= Rows()
        decreases FirstOpen(time) - n
      {
        ghost var before := trace;
        CompleteSecond(n);
        MadeOn(old(trace), before, trace);
        n := n + 1;
      }
      next := Some(n);
    }

    // ----- events -----

    /** Records an event that stores nothing. */
    ghost method Note(e: Event)
      requires Mid(next) && !e.Arrival? && (e.Late? ==> e.time >= 0.0)
      requires next == Frontier(trace.log + [e]) && (next.Some? ==> trace.first == StartOf(trace.log + [e]))
      modifies this`trace
      ensures Valid() && trace == old(trace).(log := old(trace).log + [e])
    {
      hide StoreOk, ProgressOk, ReuseOk, Frontier, StartOf;
      RowsIn(next, pending, done, trace.published + ready, trace, window);
      NoteStep(next, pending, done, trace.published + ready, trace, window, e);
      QuietStore(buckets, table, cache, trace, e);
      QuietReuse(completed, trace.published + ready, trace, window, e);
      trace := trace.(log := trace.log + [e]);
    }

    /** Stores a record's frame and beacon. */
    method StoreRecord(r: Record)
      requires StoreOk(buckets, table, cache, trace) && r.Time() >= 0.0 && r.Time() >= trace.expired
      modifies this`buckets, this`cache, this`table, this`trace
      ensures StoreOk(buckets, table, cache, trace)
      ensures trace == old(trace).(log := old(trace).log + [Arrival(r)], marks := Without(old(trace).marks, r))
    {
      hide BucketsOk, BeaconsOk, CacheOk, MarksOk, LogFrames, From, AddToTable, AddToBucket;
      BucketsStored(buckets, trace.log, r, trace.expired);
      BeaconStored(table, trace.log, r, trace.expired);
      CacheInserted(cache, trace.marks, trace.log, r, trace.expired);
      if r.BeaconOf().Some? { table := AddToTable(table, r.BeaconOf().value, Stamped(r.Time(), r.Announced())); }
      if r.FrameRecord? {
        cache := cache - {r.Time().Floor};
        buckets := AddToBucket(buckets, Stamped(r.Time(), r.frame));
      }
      trace := trace.(log := trace.log + [Arrival(r)], marks := Without(trace.marks, r));
    }

    /** Opens the first second, or closes those whose grace a record's time ends. */
    method OpenOrClose(t: real)
      requires Valid()
      modifies this`cache, this`pending, this`done, this`ready, this`completed, this`trace, this`next
      ensures Mid(next) && next.Some?
        && trace == old(trace).(marks := trace.marks, made := trace.made, first := trace.first)
      ensures next == Frontier(trace.log + [Late(t)]) && trace.first == StartOf(trace.log + [Late(t)])
      ensures trace.first == if old(next).Some? then old(trace).first else t.Floor
      ensures next == old(next) ==> trace == old(trace) && completed == old(completed)
      ensures old(next).None? ==> completed == old(completed) && trace == old(trace).(first := t.Floor)
      ensures MadeSince(old(trace), trace) && old(Rows()) <= Rows()
    {
      hide StoreOk, ExpiryOk, ReuseOk, RowsOk, CutsOk, PendingOk;
      assert (trace.log + [Late(t)])[..|trace.log|] == trace.log;
      if next.None? {
        NoRows(trace.log, t.Floor, window);
        FirstOpened(t.Floor);
        next, trace := Some(t.Floor), trace.(first := t.Floor);
      }
      FinalizeAfterGrace(t);
    }

    lemma FirstOpened(second: int)
      requires Mid(None)
      ensures var t := trace.(first := second);
        && StoreOk(buckets, table, cache, t) && ExpiryOk(reference, window, t)
        && RowsUpTo(second, pending, done, t.published + ready, t, window)
          && ReuseOk(completed, t.published + ready, t, window)
    {
      hide BucketsOk, BeaconsOk, CacheOk, MarksOk, TimesOk, Frontier, WindowMatches;
      NoRows(trace.log, second, window);
    }

    /** A record inside the window is stored; one before the end of the last completed second must
        not be hidden by its reuse. */
    method Accept(r: Record)
      requires Mid(next) && next.Some? && r.Time() >= 0.0
      requires next == Frontier(trace.log + [Late(r.Time())]) && trace.first == StartOf(trace.log + [Late(r.Time())])
      requires reference.Some? ==> r.Time() >= reference.value - window as real
      modifies this`buckets, this`cache, this`table, this`trace, this`pending, this`completed, this`reference
      ensures Valid()
      ensures trace == old(trace).(log := old(trace).log + [Arrival(r)], marks := Without(old(trace).marks, r))
      ensures reference == Some(Later(old(reference), r.Time()))
    {
      hide StoreOk, ReuseOk, RowsUpTo;
      var t := r.Time();
      ghost var rows := trace.published + ready;
      assert (trace.log + [Late(t)])[..|trace.log|] == trace.log
        && (trace.log + [Arrival(r)])[..|trace.log|] == trace.log;
      RowsIn(next, pending, done, rows, trace, window);
      ArrivalReuse(completed, rows, trace, window, r);
      if completed.Some? && t < High(completed.value.second) { completed := None; }
      ArrivalStep(next.value, pending, done, rows, trace, window, r);
      StoreRecord(r);
      if t.Floor !in done { pending := pending + {t.Floor}; }
      if reference.None? || t > reference.value { reference := Some(t); }
    }

    method Ingest(r: Record, publish: bool) returns (shown: Option<Snapshot>)
      requires Valid() && r.Time() >= 0.0
      modifies this
      ensures Valid() && trace.log == old(trace).log + [old(EventFor(r))] && trace.published == old(trace).published
      ensures old(EventFor(r)) == if old(reference).Some? && r.Time() < old(reference).value - window as real
        then Late(r.Time()) else Arrival(r)
      ensures trace.first == if old(next).Some? then old(trace).first else r.Time().Floor
      ensures old(EventFor(r)).Late? ==>
        reference == old(reference) && shown.None? && trace.expired == old(trace).expired
      ensures old(EventFor(r)).Arrival? ==>
        reference == Some(Later(old(reference), r.Time())) && (shown.Some? <==> publish)
      ensures !publish ==> trace.expired == old(trace).expired
      ensures shown.Some? ==> CurrentlyShows(shown.value)
      ensures MadeSince(old(trace), trace) && old(Rows()) <= Rows()
      ensures old(EventFor(r)).Arrival? && (old(next).None? || FirstOpen(r.Time()) <= old(next).value) ==>
        trace.marks == if publish then CurrentMarks(Without(old(trace).marks, r)) else Without(old(trace).marks, r)
    {
      hide Mid;
      OpenOrClose(r.Time());
      if reference.Some? && r.Time() < reference.value - window as real {
        Note(Late(r.Time()));
        return None;
      }
      Accept(r);
      shown := None;
      if publish { shown := RefreshCurrent(); }
    }

    /** The event a record makes: late records older than the window are dropped. */
    ghost function EventFor(r: Record): Event
      reads this
    {
      if reference.Some? && r.Time() < reference.value - window as real then Late(r.Time()) else Arrival(r)
    }

    method CloseBefore(second: int)
      requires Valid()
      modifies this`cache, this`pending, this`done, this`ready, this`completed, this`next, this`trace
      ensures Valid()
      ensures trace == old(trace).(log := old(trace).log + [Closed(second)], marks := trace.marks, made := trace.made)
      ensures next == if old(next).None? then None else Some(MaxInt(old(next).value, second))
      ensures pending <= old(pending) && old(done) <= done
      ensures MadeSince(old(trace), trace) && old(Rows()) <= Rows()
    {
      hide Mid;
      assert (trace.log + [Closed(second)])[..|trace.log|] == trace.log;
      StartKept();
      FinalizeBefore(second);
      Note(Closed(second));
    }

    method ReachClock(time: real)
      requires Valid()
      modifies this`cache, this`pending, this`done, this`ready, this`completed, this`next, this`trace
      ensures Valid()
      ensures trace == old(trace).(log := old(trace).log + [Reached(time)], marks := trace.marks, made := trace.made)
      ensures next == old(next) ==>
        trace == old(trace).(log := old(trace).log + [Reached(time)]) && completed == old(completed)
      ensures next == if old(next).None? then None else Some(MaxInt(old(next).value, FirstOpen(time)))
      ensures old(done) <= done
      ensures MadeSince(old(trace), trace) && old(Rows()) <= Rows()
    {
      hide Mid;
      assert (trace.log + [Reached(time)])[..|trace.log|] == trace.log;
      StartKept();
      FinalizeAfterGrace(time);
      Note(Reached(time));
    }

    lemma StartKept()
      requires Valid()
      ensures next.Some? ==> trace.first == StartOf(trace.log)
    {
      hide StoreOk, ExpiryOk, ReuseOk, RowsOk, CutsOk, PendingOk, Frontier, StartOf;
    }

    /** Drops frames, cached seconds and beacons older than the window. */
    method Expire()
      requires Valid() && reference.Some?
      modifies this`buckets, this`table, this`cache, this`trace
      ensures Valid()
      ensures var cutoff := reference.value - window as real;
        && trace == old(trace).(expired := cutoff, marks := TrimSeconds(old(trace).marks, cutoff))
        && table == TrimBeacons(old(table), cutoff)
    {
      hide BucketsOk, BeaconsOk, CacheOk, MarksOk, ProgressOk, ReuseOk, LogFrames, From, Frontier, TrimBuckets,
        TrimBeacons, TrimSeconds;
      var cutoff := reference.value - window as real;
      BucketsTrimmed(buckets, trace.Kept(), cutoff);
      BeaconsTrimmed(table, trace.log, trace.expired, cutoff);
      CacheTrimmed(cache, trace.marks, trace.log, trace.expired, cutoff);
      FromFrom(LogFrames(trace.log), trace.expired, cutoff);
      ExpiryStep(next, pending, done, trace.published + ready, completed, trace, window, cutoff);
      buckets, table, cache := TrimBuckets(buckets, cutoff), TrimBeacons(table, cutoff), TrimSeconds(cache, cutoff);
      trace := trace.(expired := cutoff, marks := TrimSeconds(trace.marks, cutoff));
    }

    // ----- snapshots -----

    /** From where a snapshot shows its beacons, its window's frames and its current frames. */
    ghost function ViewAt(at: real, second: int, upper: Option<real>): View
      reads this
    {
      ViewOf(completed, table, trace, at, second, upper, window)
    }

    /** A reused row is shown as it was made; anything else from the last expiry on, but for the
        second that expiry cut through, which may be shown from an earlier time in it. */
    lemma ViewStates(at: real, second: int, upper: Option<real>)
      requires Valid()
      ensures var view := ViewAt(at, second, upper);
        && WithinSecond(view.from, view.cut) && view.cut <= trace.expired
        && if Reuses(completed, at, second, upper) then
             trace.made != [] && var m := trace.made[|trace.made| - 1]; view == View(m.cut, m.from, m.from)
           else view.cut == view.now == trace.expired
    {
      hide BucketsOk, BeaconsOk, CacheOk, TimesOk, ProgressOk, Frontier, WindowBeacons, WindowMatches, ShownFrom,
        MarksOk, WithinSecond;
      var low := at - window as real;
      WithinShown(trace.marks, WindowBeacons(table, low, upper).Keys, Ceil(low), WindowHigh(at, upper).Floor,
        trace.expired);
    }

    /** The snapshot of a window, reusing the last completed row when it is for the same second. */
    method Refresh(at: real, second: int, upper: Option<real>) returns (shown: Snapshot)
      requires Valid() && (upper.Some? ==> upper.value == at && second as real <= at)
      modifies this`cache, this`trace
      ensures Valid()
      ensures trace == old(trace).(marks :=
        MarksAfter(completed, table, old(trace).marks, trace.expired, at, second, upper, window))
      ensures shown.at == at && shown.second == second
      ensures SnapshotMatches(shown, trace.log, ViewAt(at, second, upper), upper, window)
      ensures Reuses(completed, at, second, upper) ==> shown == RowSnapshot(completed.value)
    {
      hide StoreOk, ProgressOk, WindowMatches, SnapshotMatches, WindowBeacons, ShownFrom, MarkAll, Project,
        WindowProjection, BeaconsOk, MarksOk,
        Frontier;
      ghost var t := trace;
      ViewKept(completed, table, t, at, second, upper, window);
      var low := at - window as real;
      if completed.Some? && completed.value.second == second && at == High(second) && upper == Some(High(second)) {
        shown := RowSnapshot(completed.value);
        ReusedRow(completed.value, t.log, t.made[|t.made| - 1].cut, t.made[|t.made| - 1].from, window);
        return;
      }
      var beacons := WindowBeacons(table, low, upper);
      var windowFrames := RollingProjection(at, upper, beacons.Keys);
      var frames := FramesBetween(second as real, if upper.Some? then upper.value else High(second));
      var current := ProjectFrames(frames, beacons.Keys, Anywhere);
      shown := Snapshot(at, second, beacons, windowFrames, current);
      MarksKnown();
      SnapshotCorrect(shown, table, trace, WindowFrom(t.marks, beacons.Keys, low, WindowHigh(at, upper), t.expired),
        upper, window);
      MarksAside(next, pending, done, trace.published + ready, completed, t, window, trace.marks, t.published);
      ExpiryKept(reference, window, t, trace);
    }

    /** A snapshot of everything from one window before the latest record on, exactly as recorded. */
    ghost predicate CurrentlyShows(shown: Snapshot)
      reads this
    {
      && reference.Some? && shown.at == reference.value && shown.second == reference.value.Floor
      && var low := reference.value - window as real;
         trace.expired == low && SnapshotMatches(shown, trace.log, View(low, low, low), None, window)
    }

    ghost function CurrentMarks(marks: Marks): Marks
      requires reference.Some?
      reads this
    {
      MarksAfter(completed, table, TrimSeconds(marks, trace.expired), trace.expired, reference.value,
        reference.value.Floor, None, window)
    }

    /** A snapshot on demand. Nothing is completed, and no event is recorded. */
    method RefreshCurrent() returns (shown: Option<Snapshot>)
      requires Valid()
      modifies this`buckets, this`table, this`cache, this`trace
      ensures Valid() && trace == old(trace).(expired := trace.expired, marks := trace.marks)
      ensures shown.None? <==> reference.None?
      ensures shown.Some? ==> CurrentlyShows(shown.value) && trace.marks == CurrentMarks(old(trace).marks)
    {
      hide Mid, Frontier, SnapshotMatches, MarksAfter, TrimSeconds, TrimBeacons;
      if reference.None? { return None; }
      Expire();
      var s := Refresh(reference.value, reference.value.Floor, None);
      AtTheCut();
      shown := Some(s);
    }

    /** A window that begins at the last expiry is never answered from a stale second. */
    lemma AtTheCut()
      requires Valid() && reference.Some? && trace.expired == reference.value - window as real
      ensures var low := trace.expired;
        ViewAt(reference.value, reference.value.Floor, None) == View(low, low, low)
    {
      hide BucketsOk, BeaconsOk, CacheOk, TimesOk, ProgressOk, ReuseOk, Frontier, WindowBeacons;
      assert trace.expired.Floor in trace.marks ==>
        MarkOk(trace.marks[trace.expired.Floor], trace.expired.Floor, trace.expired);
    }

    // ----- publishing -----

    /** Hands out the completed rows before a second, in order, and keeps the others. */
    method PublishReady(before: Option<int>) returns (out: seq<Row>)
      requires Valid()
      modifies this`ready, this`trace
      ensures Valid() && trace == old(trace).(published := old(trace).published + out) && out + ready == old(ready)
      ensures Rows() == old(Rows())
      ensures before.None? ==> ready == []
      ensures before.Some? ==> forall row :: row in out ==> row.second < before.value
      ensures before.Some? ==> forall row :: row in ready ==> row.second >= before.value
    {
      hide StoreOk, ExpiryOk, ReuseOk, ProgressOk, Frontier;
      ghost var rows := trace.published + ready;
      ConsecutiveReady();
      assert forall k :: 0 <= k < |ready| ==> ready[k] == rows[|trace.published| + k];
      var retained;
      out, retained := SplitBefore(ready, before, trace.first + |trace.published|);
      assert (trace.published + out) + retained == rows;
      MarksAside(next, pending, done, rows, completed, trace, window, trace.marks, trace.published + out);
      StoreKept(buckets, table, cache, trace, trace.(published := trace.published + out));
      ExpiryKept(reference, window, trace, trace.(published := trace.published + out));
      ready, trace := retained, trace.(published := trace.published + out);
    }

    lemma ConsecutiveReady()
      requires Valid()
      ensures var rows := trace.published + ready; forall k :: 0 <= k < |rows| ==> rows[k].second == trace.first + k
    {
      hide StoreOk, ExpiryOk, ReuseOk, RowsOk, CutsOk, PendingOk, Frontier, StartOf;
      if next.Some? { Consecutive(trace.published + ready, trace.made, trace.log, trace.first, window); }
    }

    method Prune(latest: int)
      requires Valid()
      modifies this`done
      ensures Valid() && forall s :: s in done <==> s in old(done) && latest - window < s
    {
      hide StoreOk, ExpiryOk, ReuseOk, RowsOk, CutsOk, PendingOk, Frontier, StartOf;
      done := set s | s in done && s >= latest - window + 1;
    }

    /** Publishes what ordered capture has completed; at the end of the capture, all but its last
        partial second. The snapshot is of the last second published. */
    method PublishCaptureComplete(ended: bool) returns (out: seq<Row>, shown: Option<Snapshot>)
      requires Valid()
      modifies this
      ensures Valid() && trace.published == old(trace).published + out && trace.first == old(trace).first
      ensures trace.log == if ended && reference.Some? then old(trace).log + [Closed(reference.value.Floor)]
        else old(trace).log
      ensures reference == old(reference)
      ensures MadeSince(old(trace), trace) && old(Rows()) <= Rows()
      ensures shown.Some? <==> out != []
      ensures shown.None? ==> trace.expired == old(trace).expired
      ensures shown.Some? ==> reference.Some? && trace.expired == reference.value - window as real
      ensures shown.Some? ==> ShowsLast(shown.value, out[|out| - 1])
      ensures out != [] ==> KeptFrom(old(done), done, out[|out| - 1].second - window + 1)
    {
      hide Mid, ShowsLast, ViewOf, MarksAfter, TrimBeacons, TrimSeconds, Frontier, MadeSince, SnapshotMatches;
      shown := None;
      NoneMade(trace, trace);
      if reference.None? { return [], None; }
      var second := reference.value.Floor;
      if ended { CloseBefore(second); }
      ghost var closed := trace;
      out := PublishReady(Some(second));
      MadeKept(old(trace), closed, trace);
      if out == [] { return; }
      var latest := out[|out| - 1].second;
      Expire();
      Prune(latest);
      LastPublished(out);
      var s := Refresh(High(latest), latest, Some(High(latest)));
      LastIsShown(s, out[|out| - 1]);
      MadeKept(old(trace), closed, trace);
      shown := Some(s);
    }

    /** A snapshot of the last row published: of its second and window, and the very row as long as no
        record has come for it since. */
    ghost predicate ShowsLast(shown: Snapshot, last: Row)
      reads this
    {
      && shown.second == last.second && shown.at == High(last.second)
      && SnapshotMatches(shown, trace.log, ViewAt(shown.at, shown.second, Some(shown.at)), Some(shown.at), window)
      && (completed.Some? && completed.value.second == last.second ==> shown == RowSnapshot(last))
      && (ready == [] && NothingSince(last.second) ==> shown == RowSnapshot(last))
    }

    /** No record has come for the window of the last row since it was made. */
    ghost predicate NothingSince(second: int)
      reads this
    {
      trace.made != [] && !Superseded(second, trace.made[|trace.made| - 1].events, trace.log)
    }

    lemma LastIsShown(shown: Snapshot, last: Row)
      requires Valid() && trace.published != [] && trace.published[|trace.published| - 1] == last
      requires shown.second == last.second && shown.at == High(last.second)
      requires SnapshotMatches(shown, trace.log, ViewAt(shown.at, shown.second, Some(shown.at)), Some(shown.at), window)
      requires completed.Some? && completed.value.second == last.second ==> completed.value == last
      requires Reuses(completed, shown.at, shown.second, Some(shown.at)) ==> shown == RowSnapshot(completed.value)
      ensures ShowsLast(shown, last)
    {
      hide SnapshotMatches, ViewAt, StoreOk, ExpiryOk, ProgressOk, Frontier, WindowMatches, Superseded;
      assert ready == [] ==> trace.published + ready == trace.published;
    }

    lemma LastPublished(out: seq<Row>)
      requires Valid() && out != [] && |trace.published| >= |out| && trace.published[|trace.published| - |out|..] == out
      ensures completed.Some? && completed.value.second == out[|out| - 1].second ==> completed.value == out[|out| - 1]
    {
      hide StoreOk, ExpiryOk, ProgressOk, Frontier, WindowMatches;
      ConsecutiveReady();
      var rows := trace.published + ready;
      assert rows[|trace.published| - 1] == out[|out| - 1];
    }

    /** After a publication, the snapshot of the latest record's window. */
    method RefreshAfterPublication() returns (shown: Option<Snapshot>)
      requires Valid()
      modifies this`cache, this`trace
      ensures Valid() && trace == old(trace).(marks := trace.marks)
      ensures shown.Some? <==> reference.Some?
      ensures shown.Some? ==> ShowsLatest(shown.value)
      ensures shown.Some? ==>
        var at := reference.value;
        trace.marks == MarksAfter(completed, table, old(trace).marks, trace.expired, at, at.Floor, None, window)
    {
      hide Mid, SnapshotMatches, MarksAfter, ViewOf, Frontier;
      shown := None;
      if reference.Some? {
        var s := Refresh(reference.value, reference.value.Floor, None);
        shown := Some(s);
      }
    }

    /** A snapshot of the window before the latest record or clock time. */
    ghost predicate ShowsLatest(shown: Snapshot)
      reads this
    {
      && reference.Some? && shown.at == reference.value && shown.second == reference.value.Floor
      && SnapshotMatches(shown, trace.log, ViewAt(shown.at, shown.second, None), None, window)
    }

    /** The caller's clock reaches a second; the snapshot is of the second before it. */
    method Advance(wall: nat) returns (out: seq<Row>, shown: Snapshot)
      requires Valid()
      modifies this
      ensures Valid() && trace.published == old(trace).published + out && trace.first == old(trace).first
      ensures trace.log == old(trace).log + [Reached(wall as real)]
      ensures reference == Some(Later(old(reference), wall as real))
        && trace.expired == reference.value - window as real
      ensures MadeSince(old(trace), trace) && old(Rows()) <= Rows()
      ensures forall row :: row in out ==> row.second < wall
      ensures KeptFrom(old(done), done, wall - 1 - window)
      ensures shown.at == wall as real && shown.second == wall - 1
      ensures SnapshotMatches(shown, trace.log, ViewAt(wall as real, wall - 1, Some(wall as real)), Some(wall as real),
        window)
      ensures old(next).Some? && FirstOpen(wall as real) <= old(next).value && old(reference).Some? ==>
        trace.marks == ClockMarks(old(reference).value, old(table), old(trace), wall)
    {
      hide Mid, SnapshotMatches, MarksAfter, ViewOf, TrimBeacons, TrimSeconds, Frontier;
      ReachClock(wall as real);
      out := PublishReady(Some(wall));
      var _ := RefreshAfterPublication();
      if reference.None? || reference.value < wall as real { SetReference(wall as real); }
      Expire();
      Prune((wall as real - 1.0 - T).Floor);
      shown := Refresh(wall as real, wall - 1, Some(wall as real));
    }

    /** The seconds a clock step that closes none leaves cached. */
    ghost function ClockMarks(was: real, wasTable: BeaconTable, before: Trace, wall: nat): Marks
      reads this
    {
      var cached := MarksAfter(completed, wasTable, before.marks, before.expired, was, was.Floor, None, window);
      MarksAfter(completed, table, TrimSeconds(cached, trace.expired), trace.expired,
                 wall as real, wall - 1, Some(wall as real), window)
    }

    method SetReference(t: real)
      requires Valid() && t >= 0.0 && (reference.Some? ==> t >= reference.value)
      modifies this`reference
      ensures Valid() && reference == Some(t)
    {
      hide StoreOk, ReuseOk, ProgressOk, Frontier;
      reference := Some(t);
    }

    /** Publishes every second still buffered. */
    method Flush() returns (out: seq<Row>, shown: Option<Snapshot>)
      requires Valid()
      modifies this
      ensures Valid() && trace.published == old(trace).published + out && ready == [] && trace.first == old(trace).first
      ensures trace.expired == old(trace).expired && reference == old(reference)
      ensures old(pending) == {} ==> trace.log == old(trace).log
      ensures old(pending) != {} ==> exists s :: s in old(pending) && trace.log == old(trace).log + [Closed(s + 1)]
      ensures MadeSince(old(trace), trace) && old(Rows()) <= Rows()
      ensures AllPublished(trace)
      ensures shown.Some? <==> reference.Some?
      ensures shown.Some? ==> ShowsLatest(shown.value)
    {
      hide Mid, ShowsLatest, MarksAfter, Frontier;
      if pending != {} {
        var last := Greatest(pending);
        CloseBefore(last + 1);
      }
      out := PublishReady(None);
      EverySecond();
      var _ := RefreshAfterPublication();
      shown := RefreshAfterPublication();
    }

    lemma EverySecond()
      requires Valid() && ready == [] && (next.Some? ==> forall s :: s in pending ==> s < next.value)
      ensures AllPublished(trace)
    {
      hide StoreOk, ExpiryOk, ReuseOk, RowsOk, CutsOk, Frontier, StartOf;
    }
  }

  /** Of the seconds known to be done, those of the window are kept and no earlier ones. */
  ghost predicate KeptFrom(before: set<int>, after: set<int>, first: int) {
    && (forall s :: s in after ==> first <= s)
    && (forall s :: s in before && first <= s ==> s in after)
  }

  method SplitBefore(all: seq<Row>, before: Option<int>, ghost base: int) returns (out: seq<Row>, retained: seq<Row>)
    requires forall k :: 0 <= k < |all| ==> all[k].second == base + k
    ensures out + retained == all
    ensures before.None? ==> retained == []
    ensures before.Some? ==> forall row :: row in out ==> row.second < before.value
    ensures before.Some? ==> forall row :: row in retained ==> row.second >= before.value
  {
    out, retained := [], [];
    for n := 0 to |all|
      invariant |out| <= n && out == all[..|out|] && retained == all[|out|..n]
      invariant before.None? ==> retained == []
      invariant before.Some? ==> forall k :: 0 <= k < |out| ==> all[k].second < before.value
      invariant before.Some? ==> forall k :: |out| <= k < n ==> all[k].second >= before.value
    {
      assert |out| < n ==> all[|out|].second < all[n].second;
      if before.Some? && all[n].second >= before.value {
        retained := retained + [all[n]];
      } else {
        out := out + [all[n]];
      }
    }
  }

  lemma Consecutive(rows: seq<Row>, made: seq<Made>, log: Log, first: int, window: nat)
    requires RowsOk(rows, made, log, first, window)
    ensures forall k :: 0 <= k < |rows| ==> rows[k].second == first + k
  {
    forall k | 0 <= k < |rows| ensures rows[k].second == first + k {
      assert RowOk(rows[k], made[k], log, first + k, window);
    }
  }

  /** In every state, a cached second is the fresh projection of what is stored for it, except the
      one second that expiry cut through: there it is so if and only if no frame of that second was
      trimmed since it was cached. */
  lemma CachedSecond(a: Analyzer, s: int)
    requires a.Valid() && s in a.cache
    ensures s in a.trace.marks
    ensures var same := a.cache[s].projection == Project(SecondFrames(a.trace.Kept(), s), a.cache[s].key, Anywhere);
      && (s != a.trace.expired.Floor ==> same)
      && (s == a.trace.expired.Floor ==>
            (same <==> Slice(From(LogFrames(a.trace.log), a.trace.marks[s].cut), s as real, a.trace.expired) == []))
  {
    CoherentExactly(a.cache, a.trace, s);
    var trimmed := From(LogFrames(a.trace.log), a.trace.marks[s].cut);
    hide ExpiryOk, ProgressOk, ReuseOk, Frontier, BucketsOk, BeaconsOk, TimesOk, EntryOk, Project, LogFrames, From;
    assert MarkOk(a.trace.marks[s], s, a.trace.expired);
    if s < a.trace.expired.Floor {
      WithinFrom(LogFrames(a.trace.log), a.trace.expired, s as real, Min(a.trace.expired, (s + 1) as real));
      WithinEmpty(LogFrames(a.trace.log), a.trace.expired, Min(a.trace.expired, (s + 1) as real));
    } else if s > a.trace.expired.Floor {
      SliceEmpty(trimmed, s as real, a.trace.expired);
    }
  }

  /** While no frame of the second that expiry cut through was trimmed since it was cached, a window
      answered with it is one pass over the frames stored, like any other window. */
  lemma CoherentWindow(a: Analyzer, known: set<Address>, low: real, high: real)
    requires a.Valid() && low < high && Ceil(low) <= high.Floor
    requires var b := a.trace.expired.Floor;
      b in a.trace.marks && a.trace.marks[b].key == known ==>
        Slice(From(LogFrames(a.trace.log), a.trace.marks[b].cut), b as real, a.trace.expired) == []
    ensures var from := WindowFrom(a.trace.marks, known, low, high, a.trace.expired);
            Agree(WindowProjection(From(LogFrames(a.trace.log), from), low, high, known),
                  Project(Slice(a.trace.Kept(), low, high), known, Anywhere))
  {
    var from, log := WindowFrom(a.trace.marks, known, low, high, a.trace.expired), LogFrames(a.trace.log);
    a.MarksKnown();
    WithinShown(a.trace.marks, known, Ceil(low), high.Floor, a.trace.expired);
    hide Analyzer.Mid, Frontier, LogFrames, WindowProjection, Project, Agree;
    LogSorted(a.trace.log, [0, 0, 0, 0, 0, 0]);
    FromMembers(log, from);
    SameFromCut(log, a.trace.marks, known, low, high, a.trace.expired);
    WindowIsOnePass(From(log, from), low, high, known);
  }

  lemma SameFromCut(s: Stored, marks: Marks, known: set<Address>, low: real, high: real, expired: real)
    requires Sorted(s) && MarksOk(marks, expired) && low < high && Ceil(low) <= high.Floor
    requires var b := expired.Floor;
      b in marks && marks[b].key == known ==> Slice(From(s, marks[b].cut), b as real, expired) == []
    ensures Slice(From(s, WindowFrom(marks, known, low, high, expired)), low, high)
      == Slice(From(s, expired), low, high)
  {
    var b, from := expired.Floor, WindowFrom(marks, known, low, high, expired);
    if from != expired {
      assert MarkOk(marks[b], b, expired);
      WithinFrom(s, from, low, high);
      WithinFrom(s, expired, low, high);
      WithinFrom(s, marks[b].cut, b as real, expired);
      hide From, Within, MarksOk;
      WithinSplit(s, from, expired, high);
    }
  }

  /** Records no older than one window behind the latest time: a stream shorter than the window. */
  ghost predicate ShortStream(a: Analyzer)
    reads a
  {
    a.reference.Some? && Untouched(a.trace.log, a.reference.value - a.window as real)
  }

  lemma NothingExpired(a: Analyzer)
    requires a.Valid() && ShortStream(a)
    ensures forall k :: 0 <= k < |a.trace.made| ==> Untouched(a.trace.log, a.trace.made[k].cut)
  {
    hide StoreOk, ReuseOk, RowsOk, Frontier, StartOf, PendingOk;
    forall k | 0 <= k < |a.trace.made| ensures Untouched(a.trace.log, a.trace.made[k].cut) {
      assert a.trace.made[k].cut <= a.trace.expired;
    }
  }

  lemma RowsKnown(a: Analyzer)
    requires a.Valid()
    ensures a.next == Frontier(a.trace.log)
    ensures var rows := a.trace.published + a.ready;
      && (a.next.None? ==> rows == [] && a.trace.made == [])
      && (a.next.Some? ==> a.next.value == a.trace.first + |rows| && a.trace.first == StartOf(a.trace.log))
      && (a.next.Some? ==> RowsOk(rows, a.trace.made, a.trace.log, a.trace.first, a.window))
      && (a.next.Some? ==> CutsOk(a.trace.made, a.trace.expired))
  {
    hide StoreOk, ExpiryOk, ReuseOk, RowsOk, CutsOk, Frontier, StartOf, PendingOk;
  }

  /** Completed rows do not depend on how snapshots and publications were interleaved: any two
      analyzers of one window size and one event log, shorter than the window, agree on every
      completed second and its content. */
  lemma InterleavingDoesNotShow(a: Analyzer, b: Analyzer)
    requires a.Valid() && b.Valid() && a.trace.log == b.trace.log && a.window == b.window
    requires ShortStream(a) && ShortStream(b)
    ensures var rows, rows' := a.trace.published + a.ready, b.trace.published + b.ready;
            |rows| == |rows'| && forall k :: 0 <= k < |rows| ==> SameRow(rows[k], rows'[k])
  {
    hide *;
    NothingExpired(a);
    NothingExpired(b);
    RowsKnown(a);
    RowsKnown(b);
    if a.next.Some? {
      SameInputSameRows(a.trace.published + a.ready, a.trace.made, b.trace.published + b.ready, b.trace.made,
                        a.trace.log, a.trace.first, a.window);
    }
  }

  /** For streams of any length, two such analyzers agree on the beacons and frames of every
      completed second whose window no trimming had reached when it was made. */
  lemma InterleavedWindowsAgree(a: Analyzer, b: Analyzer, k: nat)
    requires a.Valid() && b.Valid() && a.trace.log == b.trace.log && a.window == b.window
    requires k < |a.trace.published + a.ready| && k < |a.trace.made| && k < |b.trace.made|
    requires a.trace.made[k].cut <= Low(a.trace.first + k, a.window)
      && b.trace.made[k].cut <= Low(a.trace.first + k, a.window)
    ensures k < |b.trace.published + b.ready|
      && SameWindow((a.trace.published + a.ready)[k], (b.trace.published + b.ready)[k])
  {
    hide *;
    RowsKnown(a);
    RowsKnown(b);
    WindowPositive(a);
    RowFound(a.trace.published + a.ready, a.trace.made, a.trace.log, a.trace.first, a.window, k);
    RowFound(b.trace.published + b.ready, b.trace.made, b.trace.log, b.trace.first, b.window, k);
    SameWindowAt((a.trace.published + a.ready)[k], a.trace.made[k], (b.trace.published + b.ready)[k], b.trace.made[k],
                 a.trace.log, a.trace.first + k, a.window);
  }

  lemma WindowPositive(a: Analyzer)
    requires a.Valid()
    ensures a.window > 0
  {
    hide StoreOk, ExpiryOk, ProgressOk, ReuseOk, Frontier;
  }

  lemma RowFound(rows: seq<Row>, made: seq<Made>, log: Log, first: int, window: nat, k: nat)
    requires RowsOk(rows, made, log, first, window) && k < |rows|
    ensures k < |made| && RowOk(rows[k], made[k], log, first + k, window)
  {}
}
