/** Whole runs of the analyzer: any sequence of records, clock steps, checkpoints and snapshots. */
module AnalyzerRuns {
  import opened Wrappers
  import opened Timeline
  import opened AnalyzerLog
  import opened AnalyzerState
  import opened Analyzer

  datatype Op =
    | Feed(record: Record, publish: bool)   // a record, with or without a snapshot
    | Tick(wall: nat)                       // the caller's clock
    | Checkpoint(ended: bool)               // publication of what capture has completed
    | Look                                  // a snapshot on demand

  ghost predicate Timely(ops: seq<Op>) {
    forall i :: 0 <= i < |ops| && ops[i].Feed? ==> ops[i].record.Time() >= 0.0
  }

  /** The time an event makes known, if any. */
  function TimeOf(e: Event): Option<real> {
    if e.Arrival? then Some(e.record.Time()) else if e.Reached? then Some(e.time) else None
  }

  /** The latest time made known. */
  function ReferenceOf(log: Log): Option<real> {
    if log == [] then None else LatestTime(ReferenceOf(log[..|log| - 1]), log[|log| - 1])
  }

  function LatestTime(before: Option<real>, e: Event): Option<real> {
    if TimeOf(e).Some? then Some(Later(before, TimeOf(e).value)) else before
  }

  /** What one operation adds to the input. */
  function Logged(log: Log, op: Op, window: nat): Log {
    var latest := ReferenceOf(log);
    match op
    case Feed(r, _) =>
      log + [if latest.Some? && r.Time() < latest.value - window as real then Late(r.Time()) else Arrival(r)]
    case Tick(wall) => log + [Reached(wall as real)]
    case Checkpoint(ended) => if ended && latest.Some? then log + [Closed(latest.value.Floor)] else log
    case Look => log
  }

  function LoggedAll(log: Log, ops: seq<Op>, window: nat): Log {
    if ops == [] then log else Logged(LoggedAll(log, ops[..|ops| - 1], window), ops[|ops| - 1], window)
  }

  /** The records, clock steps and ends of capture of a run, without its snapshots and publications. */
  function Inputs(ops: seq<Op>): seq<Op> {
    if ops == [] then []
    else
      var front, op := Inputs(ops[..|ops| - 1]), ops[|ops| - 1];
      match op
      case Feed(r, _) => front + [Feed(r, false)]
      case Tick(_) => front + [op]
      case Checkpoint(ended) => if ended then front + [op] else front
      case Look => front
  }

  lemma {:induction false} LoggedInputs(log: Log, ops: seq<Op>, window: nat)
    ensures LoggedAll(log, Inputs(ops), window) == LoggedAll(log, ops, window)
  {
    if ops != [] {
      var front, op := ops[..|ops| - 1], ops[|ops| - 1];
      LoggedInputs(log, front, window);
      assert Inputs(ops) != Inputs(front) ==> Inputs(ops)[..|Inputs(ops)| - 1] == Inputs(front);
    }
  }

  lemma ReferenceNext(log: Log, e: Event)
    ensures ReferenceOf(log + [e]) == LatestTime(ReferenceOf(log), e)
  {
    assert (log + [e])[..|log|] == log;
  }

  ghost predicate Started(a: Analyzer)
    reads a
  {
    a.Valid() && a.reference == ReferenceOf(a.trace.log)
  }

  method Step(a: Analyzer, op: Op)
    requires Started(a) && (op.Feed? ==> op.record.Time() >= 0.0)
    modifies a
    ensures Started(a) && a.trace.log == Logged(old(a.trace.log), op, a.window)
    ensures old(a.trace.made) <= a.trace.made && old(a.Rows()) <= a.Rows()
    ensures old(a.trace.published) <= a.trace.published
  {
    hide Analyzer.Mid, Frontier, ReferenceOf, SnapshotMatches, ViewOf, MarksAfter;
    ghost var log := a.trace.log;
    match op {
      case Feed(r, publish) =>
        ReferenceNext(log, Arrival(r));
        ReferenceNext(log, Late(r.Time()));
        var shown := a.Ingest(r, publish);
      case Tick(wall) =>
        ReferenceNext(log, Reached(wall as real));
        var out, shown := a.Advance(wall);
      case Checkpoint(ended) =>
        if a.reference.Some? { ReferenceNext(log, Closed(a.reference.value.Floor)); }
        var out, shown := a.PublishCaptureComplete(ended);
      case Look =>
        var shown := a.RefreshCurrent();
    }
  }

  /** Every run keeps the analyzer's invariant, adds exactly its inputs to the log, and neither changes
      nor takes back a row. */
  method Run(a: Analyzer, ops: seq<Op>)
    requires Started(a) && Timely(ops)
    modifies a
    ensures Started(a) && a.trace.log == LoggedAll(old(a.trace.log), Inputs(ops), a.window)
    ensures old(a.trace.made) <= a.trace.made && old(a.Rows()) <= a.Rows()
    ensures old(a.trace.published) <= a.trace.published
  {
    hide Started, Logged, Analyzer.Rows;
    for n := 0 to |ops|
      invariant Started(a) && a.trace.log == LoggedAll(old(a.trace.log), ops[..n], a.window)
      invariant old(a.trace.made) <= a.trace.made && old(a.Rows()) <= a.Rows()
      invariant old(a.trace.published) <= a.trace.published
    {
      assert ops[..n + 1][..n] == ops[..n];
      Step(a, ops[n]);
    }
    assert ops[..|ops|] == ops;
    LoggedInputs(old(a.trace.log), ops, a.window);
  }

  /** No record of the input is older than one window behind the latest time. */
  ghost predicate Short(log: Log, window: nat) {
    ReferenceOf(log).Some? && Untouched(log, ReferenceOf(log).value - window as real)
  }

  /** However snapshots, publications and checkpoints are spread over two runs of the same records,
      clock steps and ends of capture: they complete the same seconds; each of those has the same
      beacons and frames in both, unless trimming had reached its window when it was made; and if the
      input is shorter than the window, the rows are the same. */
  method TwoRuns(ops: seq<Op>, ops': seq<Op>, window: nat) returns (a: Analyzer, b: Analyzer)
    requires window > 0 && Timely(ops) && Timely(ops') && Inputs(ops) == Inputs(ops')
    ensures fresh(a) && fresh(b) && a.Valid() && b.Valid()
    ensures a.trace.log == b.trace.log == LoggedAll([], Inputs(ops), window)
    ensures |a.Rows()| == |b.Rows()| == |a.trace.made| == |b.trace.made|
    ensures forall k :: 0 <= k < |a.Rows()| ==> a.Rows()[k].second == b.Rows()[k].second
    ensures forall k :: 0 <= k < |a.Rows()| ==>
      var low := Low(a.Rows()[k].second, window);
      a.trace.made[k].cut <= low && b.trace.made[k].cut <= low ==> SameWindow(a.Rows()[k], b.Rows()[k])
    ensures Short(LoggedAll([], Inputs(ops), window), window) ==>
      forall k :: 0 <= k < |a.Rows()| ==> SameRow(a.Rows()[k], b.Rows()[k])
  {
    hide Analyzer.Mid, Frontier, SameWindow, SameRow, LoggedAll, Inputs, Untouched;
    a := new Analyzer(window);
    Run(a, ops);
    b := new Analyzer(window);
    Run(b, ops');
    SameSeconds(a, b);
    forall k | 0 <= k < |a.Rows()| && a.trace.made[k].cut <= Low(a.Rows()[k].second, window)
        && b.trace.made[k].cut <= Low(a.Rows()[k].second, window)
      ensures SameWindow(a.Rows()[k], b.Rows()[k])
    {
      InterleavedWindowsAgree(a, b, k);
    }
    if Short(a.trace.log, window) { InterleavingDoesNotShow(a, b); }
  }

  lemma SameSeconds(a: Analyzer, b: Analyzer)
    requires a.Valid() && b.Valid() && a.trace.log == b.trace.log
    ensures |a.Rows()| == |b.Rows()| == |a.trace.made| == |b.trace.made|
    ensures forall k :: 0 <= k < |a.Rows()| ==>
      a.Rows()[k].second == b.Rows()[k].second == a.trace.first + k && a.trace.first == b.trace.first
  {
    RowsKnown(a);
    RowsKnown(b);
    hide Analyzer.Mid, Frontier, RowsOk, StartOf;
    if a.next.Some? {
      Consecutive(a.Rows(), a.trace.made, a.trace.log, a.trace.first, a.window);
      Consecutive(b.Rows(), b.trace.made, b.trace.log, b.trace.first, b.window);
      RowsCounted(a.Rows(), a.trace.made, a.trace.log, a.trace.first, a.window);
      RowsCounted(b.Rows(), b.trace.made, b.trace.log, b.trace.first, b.window);
    }
  }
}
