/** The second that expiry cuts through: a run in which its cached projection outlives its frames. */
module BoundarySecond {
  import opened Wrappers
  import opened Frames
  import opened Projection
  import opened Merge
  import opened Timeline
  import opened RollingWindow
  import opened AnalyzerLog
  import opened AnalyzerState
  import opened Analyzer

  const NO_ELEMENTS: Elements := Elements(None, None, None, None, None, None, None)

  /** A frame of which only the time is known. */
  function FrameAt(time: real): Record {
    FrameRecord(Frame(time, None, None, None, None, None, None, None, None, false, None, None, None), NO_ELEMENTS)
  }

  function FramesAt(times: seq<real>): Log {
    seq(|times|, i requires 0 <= i < |times| => Arrival(FrameAt(times[i])))
  }

  function StampedAt(times: seq<real>): Stored {
    seq(|times|, i requires 0 <= i < |times| => Stamped(times[i], FrameAt(times[i]).frame))
  }

  lemma {:induction false} FramesLogged(times: seq<real>)
    requires forall i, j :: 0 <= i < j < |times| ==> times[i] <= times[j]
    ensures LogFrames(FramesAt(times)) == StampedAt(times)
    ensures forall b :: LogBeacons(FramesAt(times), b) == []
  {
    if times != [] {
      var front, n := times[..|times| - 1], |times| - 1;
      FramesLogged(front);
      assert FramesAt(times)[..n] == FramesAt(front);
      InsertAtEnd(StampedAt(front), StampedAt(times)[n]);
      assert StampedAt(times) == StampedAt(front) + [StampedAt(times)[n]];
    }
  }

  lemma NothingKnown(a: Analyzer, low: real, high: Option<real>)
    requires a.Valid() && forall b :: LogBeacons(a.trace.log, b) == []
    ensures WindowBeacons(a.table, low, high).Keys == {}
  {
    a.MarksKnown();
    hide Analyzer.Mid, LogBeacons, InWindow, Frontier;
    assert forall b :: b !in a.table;
  }

  /** After an arrival, completion stands at second 0 while time is within its grace. */
  lemma StillOpen(times: seq<real>)
    requires times != [] && forall i :: 0 <= i < |times| ==> 0.0 <= times[i] <= 1.05
    requires times[0] < 1.0
    ensures Frontier(FramesAt(times)) == Some(0)
  {
    var front := times[..|times| - 1];
    assert FramesAt(times)[..|times| - 1] == FramesAt(front);
    if front != [] { StillOpen(front); }
  }

  lemma NoneMade(a: Analyzer)
    requires a.Valid() && a.next == Some(a.trace.first)
    ensures a.trace.made == []
  {
    RowsKnown(a);
    hide Analyzer.Mid, Frontier, RowOk;
  }

  /** With a window of one second: a frame at 0.01; one at 1, whose snapshot caches second 0; and
      one at 1.05, whose snapshot trims the first frame but keeps its cached second. */
  method CachedAndTrimmed() returns (a: Analyzer)
    ensures fresh(a) && a.Valid() && a.window == 1 && a.trace.log == FramesAt([0.01, 1.0, 1.05])
      && a.trace.expired == 0.05
    ensures a.trace.marks == map[0 := Mark({}, 0.0)] && a.reference == Some(1.05) && a.next == Some(0)
      && a.trace.first == 0
    ensures forall b :: LogBeacons(a.trace.log, b) == []
  {
    hide Analyzer.Mid, Frontier, SnapshotMatches, LogFrames, LogBeacons, From, WindowBeacons;
    a := new Analyzer(1);
    var _ := a.Ingest(FrameAt(0.01), false);
    assert a.trace.log == FramesAt([0.01]);
    StillOpen([0.01]);
    var _ := a.Ingest(FrameAt(1.0), true);
    assert a.trace.log == FramesAt([0.01, 1.0]);
    StillOpen([0.01, 1.0]);
    FramesLogged([0.01, 1.0]);
    NothingKnown(a, 0.0, None);
    assert a.trace.marks == map[0 := Mark({}, 0.0)];
    var _ := a.Ingest(FrameAt(1.05), true);
    assert a.trace.log == FramesAt([0.01, 1.0, 1.05]);
    StillOpen([0.01, 1.0, 1.05]);
    FramesLogged([0.01, 1.0, 1.05]);
    NothingKnown(a, 0.05, None);
  }

  /** When the clock is then put at 1, the snapshot's window shows a frame that is no longer stored,
      and that the count of its own second does not include. */
  method StaleBoundary() returns (a: Analyzer, shown: Snapshot)
    ensures fresh(a) && a.Valid() && a.window == 1 && a.trace.log == FramesAt([0.01, 1.0, 1.05]) + [Reached(1.0)]
    ensures Slice(a.trace.Kept(), 0.0, 1.0) == []
    ensures shown.second == 0 && shown.windowFrames.frameCount == 1 && shown.frames.frameCount == 0
  {
    hide Analyzer.Mid, Frontier, SnapshotMatches, LogFrames, LogBeacons, From, WindowBeacons, Within;
    a := CachedAndTrimmed();
    NothingKnown(a, 0.05, None);
    ghost var log := a.trace.log;
    var out;
    out, shown := a.Advance(1);
    QuietEvent(log, Reached(1.0));
    NothingKnown(a, 0.0, Some(1.0));
    StillOpen([0.01, 1.0, 1.05]);
    ReachedOpen(log);
    NoneMade(a);
    assert a.trace.marks == map[0 := Mark({}, 0.0)];
    assert a.ViewAt(1.0, 0, Some(1.0)) == View(0.05, 0.0, 0.05);
    FramesLogged([0.01, 1.0, 1.05]);
    WindowOfOne(shown, a.trace.log, a.trace.Kept());
  }

  lemma ReachedOpen(log: Log)
    requires Frontier(log) == Some(0)
    ensures Frontier(log + [Reached(1.0)]) == Some(0)
  {
    assert (log + [Reached(1.0)])[..|log|] == log;
  }

  lemma OnlyFirst(a: Stamped<Frame>, b: Stamped<Frame>, c: Stamped<Frame>)
    requires a.time == 0.01 && b.time == 1.0 && c.time == 1.05
    ensures |Slice(From([a, b, c], 0.0), 0.0, 1.0)| == 1 && Slice(From([a, b, c], 0.05), 0.0, 1.0) == []
  {
    var s := [a, b, c];
    WithinFrom(s, 0.0, 0.0, 1.0);
    WithinFrom(s, 0.05, 0.0, 1.0);
    WithinEmpty(s, 0.05, 1.0);
    assert s == [a, b] + [c] && [a, b] == [a] + [b] && [a] == [] + [a];
    WithinSnoc([a, b], c, 0.0, 1.0);
    WithinSnoc([a], b, 0.0, 1.0);
    WithinSnoc([], a, 0.0, 1.0);
    hide From, Within;
  }

  lemma WindowOfOne(shown: Snapshot, log: Log, kept: Stored)
    requires shown.at == 1.0 && shown.second == 0 && SnapshotMatches(shown, log, View(0.05, 0.0, 0.05), Some(1.0), 1)
    requires LogFrames(log) == StampedAt([0.01, 1.0, 1.05]) && kept == From(LogFrames(log), 0.05)
    ensures Slice(kept, 0.0, 1.0) == [] && shown.windowFrames.frameCount == 1 && shown.frames.frameCount == 0
  {
    var s := StampedAt([0.01, 1.0, 1.05]);
    assert s == [s[0], s[1], s[2]];
    OnlyFirst(s[0], s[1], s[2]);
    hide BeaconsShown, Project, From, Slice, StampedAt, LogFrames;
    FrameCountIsLength(Slice(From(s, 0.0), 0.0, 1.0), shown.beacons.Keys, Anywhere);
    FrameCountIsLength(Slice(From(s, 0.05), 0.0, 1.0), shown.beacons.Keys, Anywhere);
  }
}
