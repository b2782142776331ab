/** The input of one analyzer as an event log, and what that log alone determines: the frames
    and beacons retained, how far completion has advanced, and the content of each completed
    second. Publishing and refreshing leave no event. */
module AnalyzerLog {
  import opened Wrappers
  import opened Rounding
  import opened Frames
  import opened Projection
  import opened Merge
  import opened Timeline
  import opened RollingWindow
  import BeaconSlots

  const T: real := 0.1024
  const TOLERANCE: real := 0.000000001
  const SLOTS: BeaconSlots.Clock := BeaconSlots.Clock(T, TOLERANCE)
  const LOSS_RSSI_THRESHOLD: int := -75

  /** What a beacon announces beside its strength. */
  datatype Elements = Elements(
    ssid: Option<string>,
    stations: Option<int>,
    utilization: Option<int>,
    capacity: Option<int>,
    interval: Option<int>,
    apName: Option<string>,
    vendor: Option<string>)

  datatype Advert = Advert(rssi: Option<int>, elements: Elements)

  type Beacons = seq<Stamped<Advert>>
  type BeaconTable = map<Address, Beacons>

  datatype Record =
    | FrameRecord(frame: Frame, elements: Elements)
    | BeaconRecord(time: real, bssid: Address, advert: Advert)
  {
    function Time(): real {
      match this
      case FrameRecord(f, _) => f.timestamp
      case BeaconRecord(t, _, _) => t
    }

    /** The BSSID whose beacon this record is, if any. */
    function BeaconOf(): Option<Address> {
      match this
      case FrameRecord(f, _) =>
        if f.frameType == Some(0) && f.frameSubtype == Some(8) && !f.badFcs then f.bssid else None
      case BeaconRecord(_, b, _) => Some(b)
    }

    function Announced(): Advert {
      match this
      case FrameRecord(f, e) => Advert(f.rssi, e)
      case BeaconRecord(_, _, a) => a
    }
  }

  datatype Event =
    | Arrival(record: Record)   // a record accepted into the window
    | Late(time: real)          // a record older than the window, dropped
    | Reached(time: real)       // the caller's clock
    | Closed(second: int)       // end of the capture: everything before this second is complete

  type Log = seq<Event>

  function LogFrames(log: Log): Stored {
    if log == [] then []
    else
      var e, before := log[|log| - 1], LogFrames(log[..|log| - 1]);
      if e.Arrival? && e.record.FrameRecord? then Insert(before, Stamped(e.record.Time(), e.record.frame)) else before
  }

  function LogBeacons(log: Log, b: Address): Beacons {
    if log == [] then []
    else
      var e, before := log[|log| - 1], LogBeacons(log[..|log| - 1], b);
      if e.Arrival? && e.record.BeaconOf() == Some(b) then
        Insert(before, Stamped(e.record.Time(), e.record.Announced()))
      else before
  }

  ghost predicate Arrived(log: Log, time: real) {
    exists i :: 0 <= i < |log| && log[i].Arrival? && log[i].record.Time() == time
  }

  lemma {:induction false} LogSorted(log: Log, b: Address)
    ensures Sorted(LogFrames(log)) && Sorted(LogBeacons(log, b))
    ensures forall x :: x in LogFrames(log) ==> Arrived(log, x.time)
    ensures forall x :: x in LogBeacons(log, b) ==> Arrived(log, x.time)
  {
    if log != [] {
      var e, front := log[|log| - 1], log[..|log| - 1];
      LogSorted(front, b);
      forall t: real | Arrived(front, t) ensures Arrived(log, t) {
        var i :| 0 <= i < |front| && front[i].Arrival? && front[i].record.Time() == t;
        assert log[i] == front[i];
      }
      if e.Arrival? {
        assert Arrived(log, e.record.Time());
        if e.record.FrameRecord? { InsertMembers(LogFrames(front), Stamped(e.record.Time(), e.record.frame)); }
        InsertMembers(LogBeacons(front, b), Stamped(e.record.Time(), e.record.Announced()));
      }
    }
  }

  // ----- completion -----

  /** A second may be completed once time is past its end and the delayed-beacon grace. */
  predicate PastGrace(time: real, second: int) {
    time - ((second + 1) as real + T) > TOLERANCE
  }

  /** The first second whose grace is not over. */
  function FirstOpen(time: real): int { Ceil(time - 1.0 - T - TOLERANCE) }

  lemma FirstOpenExact(time: real, second: int)
    ensures PastGrace(time, second) <==> second < FirstOpen(time)
  {}

  function MaxInt(a: int, b: int): int { if a >= b then a else b }

  /** The next second to complete, as the log determines it. */
  function Frontier(log: Log): Option<int> {
    if log == [] then None
    else
      var before := Frontier(log[..|log| - 1]);
      match log[|log| - 1]
      case Arrival(r) => Some(MaxInt(if before.Some? then before.value else r.Time().Floor, FirstOpen(r.Time())))
      case Late(t) => Some(MaxInt(if before.Some? then before.value else t.Floor, FirstOpen(t)))
      case Reached(t) => if before.None? then None else Some(MaxInt(before.value, FirstOpen(t)))
      case Closed(s) => if before.None? then None else Some(MaxInt(before.value, s))
  }

  /** The second of the first record, where completion starts. */
  function StartOf(log: Log): int {
    if log == [] then 0
    else if Frontier(log[..|log| - 1]).Some? then StartOf(log[..|log| - 1])
    else match log[|log| - 1]
      case Arrival(r) => r.Time().Floor
      case Late(t) => t.Floor
      case _ => 0
  }

  lemma {:induction false} FrontierAdvances(log: Log, i: nat, j: nat)
    requires i <= j <= |log| && Frontier(log[..i]).Some?
    ensures Frontier(log[..j]).Some? && Frontier(log[..i]).value <= Frontier(log[..j]).value
    decreases j
  {
    if i < j {
      FrontierAdvances(log, i, j - 1);
      assert log[..j][..j - 1] == log[..j - 1];
    }
  }

  // ----- completed seconds -----

  /** A completed second: the beacons of its window, the frames of the second and of the window,
      and the receptions of every BSSID heard well enough. */
  datatype Row = Row(
    second: int,
    beacons: BeaconTable,
    frames: FrameProjection,
    windowFrames: FrameProjection,
    receptions: map<Address, BeaconSlots.Counts>)
  {
    function Known(): set<Address> { beacons.Keys }
  }

  /** Heard recently enough, and strongly enough, for beacon loss to be reported. */
  predicate Loud(inWindow: Beacons, end: real) {
    && inWindow != []
    && var last := inWindow[|inWindow| - 1];
       && last.time >= end - (1.0 + T) - TOLERANCE && last.time <= end + TOLERANCE
       && last.value.rssi.Some? && last.value.rssi.value > LOSS_RSSI_THRESHOLD
  }

  function Times(beacons: Beacons): seq<real> {
    seq(|beacons|, i requires 0 <= i < |beacons| => beacons[i].time)
  }

  function Low(second: int, window: nat): real { (second + 1) as real - window as real }
  function High(second: int): real { (second + 1) as real }

  ghost function ReceptionOf(beacons: Beacons, second: int): BeaconSlots.Counts {
    BeaconSlots.Reception(Times(beacons), second as real, High(second), SLOTS)
  }

  /** The entries from low on, below an upper end if there is one. */
  function InWindow<T>(entries: seq<Stamped<T>>, low: real, high: Option<real>): seq<Stamped<T>> {
    if high.Some? then Within(entries, low, high.value) else From(entries, low)
  }

  /** The beacons of a window among the log's entries from a cut on: every BSSID with one, and all
      of its beacons. */
  ghost predicate BeaconsShown(beacons: BeaconTable, log: Log, cut: real, low: real, high: Option<real>) {
    && (forall b :: b in beacons <==> InWindow(From(LogBeacons(log, b), cut), low, high) != [])
    && (forall b :: b in beacons ==> beacons[b] == InWindow(From(LogBeacons(log, b), cut), low, high))
  }

  /** A projection agrees with one pass over the frames of a window from a cut on. */
  ghost predicate FramesShown(p: FrameProjection, known: set<Address>, log: Log, from: real, low: real, high: real) {
    Agree(p, Project(Slice(From(LogFrames(log), from), low, high), known, Anywhere))
  }

  /** Where the frames shown begin, when entries have been trimmed at a cut: there, or earlier in
      the same second if a projection of that second was kept. */
  ghost predicate WithinSecond(from: real, cut: real) { cut.Floor as real <= from <= cut }

  /** The row shows the beacons of its window from `cut` on, and its frames from `from` on. */
  ghost predicate WindowMatches(row: Row, log: Log, cut: real, from: real, window: nat) {
    var low, high := Low(row.second, window), High(row.second);
    && BeaconsShown(row.beacons, log, cut, low, Some(high))
    && row.frames == Project(SecondFrames(From(LogFrames(log), from), row.second), row.Known(), Anywhere)
    && FramesShown(row.windowFrames, row.Known(), log, from, low, high)
  }

  ghost predicate ReceptionsMatch(row: Row, log: Log, cut: real, window: nat) {
    var low, high := Low(row.second, window), High(row.second);
    && (forall b :: b in row.receptions <==> Loud(Within(From(LogBeacons(log, b), cut), low, high), high))
    && (forall b :: b in row.receptions ==> row.receptions[b] == ReceptionOf(From(LogBeacons(log, b), cut), row.second))
  }

  /** Which events a row was computed after, what had been trimmed by then, and where its frames
      begin. */
  datatype Made = Made(events: nat, cut: real, from: real)

  /** Row k is the k-th second after the first, completed at the event that moved the frontier
      past it, and shows exactly what the log before that event determines. */
  ghost predicate RowsOk(rows: seq<Row>, made: seq<Made>, log: Log, first: int, window: nat) {
    && |rows| == |made|
    && forall k :: 0 <= k < |rows| ==> RowOk(rows[k], made[k], log, first + k, window)
  }

  ghost predicate RowOk(row: Row, m: Made, log: Log, second: int, window: nat) {
    && row.second == second
    && m.events <= |log|
    && Frontier(log[..m.events]).Some? && Frontier(log[..m.events]).value <= second
    && (m.events < |log| ==> Frontier(log[..m.events + 1]).Some? && second < Frontier(log[..m.events + 1]).value)
    && WithinSecond(m.from, m.cut)
    && WindowMatches(row, log[..m.events], m.cut, m.from, window)
    && ReceptionsMatch(row, log[..m.events], m.cut, window)
  }

  lemma NoRows(log: Log, first: int, window: nat)
    ensures RowsOk([], [], log, first, window)
  {}

  lemma RowsKept(rows: seq<Row>, made: seq<Made>, log: Log, first: int, window: nat, e: Event)
    requires RowsOk(rows, made, log, first, window)
    requires Frontier(log + [e]) == Some(first + |rows|)
    ensures RowsOk(rows, made, log + [e], first, window)
  {
    forall k | 0 <= k < |rows| ensures RowOk(rows[k], made[k], log + [e], first + k, window) {
      assert RowOk(rows[k], made[k], log, first + k, window);
      assert (log + [e])[..made[k].events] == log[..made[k].events];
      if made[k].events < |log| {
        assert (log + [e])[..made[k].events + 1] == log[..made[k].events + 1];
      } else {
        assert (log + [e])[..made[k].events + 1] == log + [e];
      }
    }
  }

  lemma RowAdded(rows: seq<Row>, made: seq<Made>, row: Row, m: Made, log: Log, first: int, window: nat)
    requires RowsOk(rows, made, log, first, window) && RowOk(row, m, log, first + |rows|, window)
    ensures RowsOk(rows + [row], made + [m], log, first, window)
  {
    forall k | 0 <= k <= |rows| ensures RowOk((rows + [row])[k], (made + [m])[k], log, first + k, window) {
      if k < |rows| { assert RowOk(rows[k], made[k], log, first + k, window); }
    }
  }

  /** An event that stores nothing. */
  lemma QuietEvent(log: Log, e: Event)
    requires !e.Arrival?
    ensures LogFrames(log + [e]) == LogFrames(log)
    ensures forall b :: LogBeacons(log + [e], b) == LogBeacons(log, b)
  {
    assert (log + [e])[..|log|] == log;
  }

  lemma ArrivalEvent(log: Log, r: Record)
    ensures LogFrames(log + [Arrival(r)]) ==
              if r.FrameRecord? then Insert(LogFrames(log), Stamped(r.Time(), r.frame)) else LogFrames(log)
    ensures forall b :: LogBeacons(log + [Arrival(r)], b) ==
              if r.BeaconOf() == Some(b) then Insert(LogBeacons(log, b), Stamped(r.Time(), r.Announced()))
                else LogBeacons(log, b)
  {
    assert (log + [Arrival(r)])[..|log|] == log;
  }

  /** A record at or after a window's end leaves the window's beacons alone. */
  lemma LaterBeacon(beacons: BeaconTable, log: Log, r: Record, cut: real, low: real, high: real)
    requires BeaconsShown(beacons, log, cut, low, Some(high)) && high <= r.Time() && cut <= r.Time()
    ensures BeaconsShown(beacons, log + [Arrival(r)], cut, low, Some(high))
  {
    ArrivalEvent(log, r);
    hide LogBeacons, From, Within;
    forall b
      ensures Within(From(LogBeacons(log + [Arrival(r)], b), cut), low, high)
        == Within(From(LogBeacons(log, b), cut), low, high)
    {
      var x := Stamped(r.Time(), r.Announced());
      LogSorted(log, b);
      FromMembers(LogBeacons(log, b), cut);
      FromInsert(LogBeacons(log, b), x, cut);
      WithinInsert(From(LogBeacons(log, b), cut), x, low, high);
    }
  }

  /** And its frames. */
  lemma LaterFrame(log: Log, r: Record, from: real, low: real, high: real)
    requires high <= r.Time() && from <= r.Time()
    ensures Slice(From(LogFrames(log + [Arrival(r)]), from), low, high) == Slice(From(LogFrames(log), from), low, high)
  {
    ArrivalEvent(log, r);
    hide LogFrames, From, Within;
    if r.FrameRecord? {
      LogSorted(log, [0, 0, 0, 0, 0, 0]);
      var x := Stamped(r.Time(), r.frame);
      FromMembers(LogFrames(log), from);
      FromInsert(LogFrames(log), x, from);
      WithinInsert(From(LogFrames(log), from), x, low, high);
    }
  }

  /** A record at or after a window's end leaves what the window shows unchanged. */
  lemma LaterArrival(row: Row, log: Log, r: Record, cut: real, from: real, window: nat)
    requires WindowMatches(row, log, cut, from, window) && from <= cut
    requires High(row.second) <= r.Time() && cut <= r.Time()
    ensures WindowMatches(row, log + [Arrival(r)], cut, from, window)
  {
    hide BeaconsShown, From, LogFrames, Project, Within, Values;
    LaterBeacon(row.beacons, log, r, cut, Low(row.second, window), High(row.second));
    LaterFrame(log, r, from, Low(row.second, window), High(row.second));
    LaterFrame(log, r, from, row.second as real, High(row.second));
  }

  /** Trimming that had not passed its start when a second was completed cost it no frame. */
  lemma WholeSecondShown(row: Row, m: Made, log: Log, second: int, window: nat)
    requires RowOk(row, m, log, second, window) && m.cut <= second as real
    ensures row.frames == Project(SecondFrames(LogFrames(log[..m.events]), second), row.Known(), Anywhere)
  {
    WithinFrom(LogFrames(log[..m.events]), m.from, second as real, High(second));
    hide LogFrames, From, Within, Project, Frontier, BeaconsShown, FramesShown, ReceptionsMatch;
  }

  /** A completed second is closed by the end of the capture, or by a time past its grace. */
  lemma CompletedAfterGrace(rows: seq<Row>, made: seq<Made>, log: Log, first: int, window: nat, k: nat)
    requires RowsOk(rows, made, log, first, window) && k < |rows| && made[k].events < |log|
    ensures match log[made[k].events]
            case Arrival(r) => PastGrace(r.Time(), first + k)
            case Late(t) => PastGrace(t, first + k)
            case Reached(t) => PastGrace(t, first + k)
            case Closed(s) => first + k < s
  {
    var n := made[k].events;
    assert RowOk(rows[k], made[k], log, first + k, window);
    assert log[..n + 1][..n] == log[..n];
  }

  ghost predicate SameRow(a: Row, b: Row) { SameWindow(a, b) && a.receptions == b.receptions }

  /** No record of the log comes before a cut. */
  ghost predicate Untouched(log: Log, cut: real) {
    forall t: real :: Arrived(log, t) ==> t >= cut
  }

  lemma NothingCut(log: Log, b: Address, cut: real)
    requires Untouched(log, cut)
    ensures From(LogFrames(log), cut) == LogFrames(log) && From(LogBeacons(log, b), cut) == LogBeacons(log, b)
  {
    LogSorted(log, b);
    FromAll(LogFrames(log), cut);
    FromAll(LogBeacons(log, b), cut);
  }

  /** Trimming before a window leaves what the window shows unchanged. */
  lemma UncutWindow(row: Row, log: Log, cut: real, from: real, window: nat)
    requires from <= cut <= Low(row.second, window) && window > 0
    requires WindowMatches(row, log, cut, from, window)
    ensures WindowMatches(row, log, Low(row.second, window), Low(row.second, window), window)
  {
    var low, high := Low(row.second, window), High(row.second);
    WithinFrom(LogFrames(log), from, low, high);
    WithinFrom(LogFrames(log), low, low, high);
    WithinFrom(LogFrames(log), from, row.second as real, high);
    WithinFrom(LogFrames(log), low, row.second as real, high);
    hide LogBeacons, LogFrames, From, Within, Project, Agree;
    forall b ensures Within(From(LogBeacons(log, b), cut), low, high)
      == Within(From(LogBeacons(log, b), low), low, high) {
      WithinFrom(LogBeacons(log, b), cut, low, high);
      WithinFrom(LogBeacons(log, b), low, low, high);
    }
  }

  lemma UncutReceptions(row: Row, log: Log, cut: real, other: real, window: nat)
    requires Untouched(log, cut) && Untouched(log, other) && ReceptionsMatch(row, log, cut, window)
    ensures ReceptionsMatch(row, log, other, window)
  {
    forall b ensures From(LogBeacons(log, b), cut) == From(LogBeacons(log, b), other) {
      NothingCut(log, b, cut);
      NothingCut(log, b, other);
    }
    hide LogBeacons, From, Within, Loud, ReceptionOf;
  }

  lemma UncutMatch(row: Row, log: Log, cut: real, from: real, other: real, window: nat)
    requires from <= cut && Untouched(log, cut) && Untouched(log, other)
    requires WindowMatches(row, log, cut, from, window)
    ensures WindowMatches(row, log, other, other, window)
  {
    forall b ensures From(LogBeacons(log, b), cut) == From(LogBeacons(log, b), other) {
      NothingCut(log, b, cut);
      NothingCut(log, b, other);
    }
    hide LogBeacons, LogFrames, From, Within, Project, Agree, Slice, SecondFrames;
    NothingCut(log, [0, 0, 0, 0, 0, 0], from);
    NothingCut(log, [0, 0, 0, 0, 0, 0], other);
  }

  lemma SameBeacons(a: BeaconTable, b: BeaconTable, log: Log, cut: real, low: real, high: Option<real>)
    requires BeaconsShown(a, log, cut, low, high) && BeaconsShown(b, log, cut, low, high)
    ensures a == b
  {
    hide LogBeacons, From, InWindow;
  }

  /** The same window: the beacons and frames shown are the same. */
  ghost predicate SameWindow(a: Row, b: Row) {
    a.second == b.second && a.beacons == b.beacons && a.frames == b.frames && Agree(a.windowFrames, b.windowFrames)
  }

  lemma WindowsAgree(a: Row, b: Row, log: Log, cut: real, from: real, window: nat)
    requires a.second == b.second && WindowMatches(a, log, cut, from, window)
      && WindowMatches(b, log, cut, from, window)
    ensures SameWindow(a, b)
  {
    hide LogBeacons, LogFrames, From, Within, Project, SecondFrames, Slice, BeaconsShown;
    SameBeacons(a.beacons, b.beacons, log, cut, Low(a.second, window), Some(High(a.second)));
  }

  lemma ReceptionsAgree(a: Row, b: Row, log: Log, cut: real, window: nat)
    requires a.second == b.second && ReceptionsMatch(a, log, cut, window) && ReceptionsMatch(b, log, cut, window)
    ensures a.receptions == b.receptions
  {
    hide LogBeacons, From, Within, Loud, ReceptionOf;
  }

  lemma PrefixUntouched(log: Log, n: nat, cut: real)
    requires n <= |log| && Untouched(log, cut)
    ensures Untouched(log[..n], cut)
  {
    forall t: real | Arrived(log[..n], t) ensures t >= cut {
      var i :| 0 <= i < n && log[..n][i].Arrival? && log[..n][i].record.Time() == t;
      assert log[i] == log[..n][i];
      assert Arrived(log, t);
    }
  }

  lemma RowFacts(row: Row, m: Made, log: Log, second: int, window: nat)
    requires RowOk(row, m, log, second, window)
    ensures row.second == second && m.events <= |log| && WithinSecond(m.from, m.cut) && m.from <= m.cut
    ensures Frontier(log[..m.events]).Some? && Frontier(log[..m.events]).value <= second
    ensures m.events < |log| ==> Frontier(log[..m.events + 1]).Some? && second < Frontier(log[..m.events + 1]).value
    ensures WindowMatches(row, log[..m.events], m.cut, m.from, window)
      && ReceptionsMatch(row, log[..m.events], m.cut, window)
  {
    hide WindowMatches, ReceptionsMatch, Frontier;
  }

  lemma SameRowAt(row: Row, m: Made, row': Row, m': Made, log: Log, second: int, window: nat)
    requires RowOk(row, m, log, second, window) && RowOk(row', m', log, second, window)
    requires Frontier(log).Some? && second < Frontier(log).value
    requires Untouched(log, m.cut) && Untouched(log, m'.cut)
    ensures SameRow(row, row')
  {
    hide *;
    RowFacts(row, m, log, second, window);
    RowFacts(row', m', log, second, window);
    assert log[..|log|] == log;
    SameEvent(log, m.events, m'.events, second);
    PrefixUntouched(log, m.events, m.cut);
    PrefixUntouched(log, m.events, m'.cut);
    var l := log[..m.events];
    UncutMatch(row, l, m.cut, m.from, m.cut, window);
    UncutMatch(row', l, m'.cut, m'.from, m.cut, window);
    WindowsAgree(row, row', l, m.cut, m.cut, window);
    UncutReceptions(row', l, m'.cut, m.cut, window);
    ReceptionsAgree(row, row', l, m.cut, window);
    SameRowOf(row, row');
  }

  lemma SameRowOf(a: Row, b: Row)
    requires SameWindow(a, b) && a.receptions == b.receptions
    ensures SameRow(a, b)
  {}

  /** Trimmed or not, rows whose windows no trimming had reached show the same windows. */
  lemma SameWindowAt(row: Row, m: Made, row': Row, m': Made, log: Log, second: int, window: nat)
    requires RowOk(row, m, log, second, window) && RowOk(row', m', log, second, window) && window > 0
    requires Frontier(log).Some? && second < Frontier(log).value
    requires m.cut <= Low(second, window) && m'.cut <= Low(second, window)
    ensures SameWindow(row, row')
  {
    hide *;
    RowFacts(row, m, log, second, window);
    RowFacts(row', m', log, second, window);
    assert log[..|log|] == log;
    SameEvent(log, m.events, m'.events, second);
    UncutWindow(row, log[..m.events], m.cut, m.from, window);
    UncutWindow(row', log[..m.events], m'.cut, m'.from, window);
    WindowsAgree(row, row', log[..m.events], Low(second, window), Low(second, window), window);
  }

  /** Two analyzers fed one log, however they interleaved refreshes and publications, complete
      the same seconds with the same content, so long as neither has trimmed a record. */
  lemma SameInputSameRows(rows: seq<Row>, made: seq<Made>, rows': seq<Row>, made': seq<Made>, log: Log, first: int,
      window: nat)
    requires RowsOk(rows, made, log, first, window) && RowsOk(rows', made', log, first, window)
    requires Frontier(log) == Some(first + |rows|) && Frontier(log) == Some(first + |rows'|)
    requires forall k :: 0 <= k < |made| ==> Untouched(log, made[k].cut)
    requires forall k :: 0 <= k < |made'| ==> Untouched(log, made'[k].cut)
    ensures |rows| == |rows'| && forall k :: 0 <= k < |rows| ==> SameRow(rows[k], rows'[k])
  {
    hide RowOk, SameRow, Untouched, Frontier;
    forall k | 0 <= k < |rows| ensures SameRow(rows[k], rows'[k]) {
      SameRowAt(rows[k], made[k], rows'[k], made'[k], log, first + k, window);
    }
  }

  // ----- ordered input -----

  /** No record comes before a time already reached, or in a second already closed. */
  ghost predicate OrderedLog(log: Log) {
    forall i, j :: 0 <= i < j < |log| && log[j].Arrival? ==>
      match log[i]
      case Arrival(r) => r.Time() <= log[j].record.Time()
      case Late(t) => t <= log[j].record.Time()
      case Reached(t) => t <= log[j].record.Time()
      case Closed(s) => s as real <= log[j].record.Time()
  }

  /** Once the frontier is past a second, an ordered input brings nothing for it. */
  lemma SettledAfter(log: Log, n: nat, second: int, j: nat)
    requires OrderedLog(log) && n <= j < |log| && log[j].Arrival?
    requires Frontier(log[..n]).Some? && Frontier(log[..n]).value <= second
    requires Frontier(log[..n + 1]).Some? && second < Frontier(log[..n + 1]).value
    ensures log[j].record.Time() >= High(second)
  {
    assert log[..n + 1][..n] == log[..n];
  }

  /** Given ordered input, a row shows what the whole input determines for its window, not only the
      part of it that had come when the row was made. */
  lemma {:induction false} RowIsFinal(row: Row, m: Made, log: Log, second: int, window: nat, j: nat)
    requires RowOk(row, m, log, second, window) && OrderedLog(log) && m.cut <= High(second)
    requires m.events <= j <= |log|
    ensures WindowMatches(row, log[..j], m.cut, m.from, window)
    decreases j
  {
    hide WindowMatches, ReceptionsMatch, Frontier, OrderedLog, LogFrames, LogBeacons;
    if j > m.events {
      RowIsFinal(row, m, log, second, window, j - 1);
      var e := log[j - 1];
      assert log[..j] == log[..j - 1] + [e];
      if e.Arrival? {
        SettledAfter(log, m.events, second, j - 1);
        LaterArrival(row, log[..j - 1], e.record, m.cut, m.from, window);
      } else {
        QuietWindow(row, log[..j - 1], e, m.cut, m.from, window);
      }
    }
  }

  lemma QuietWindow(row: Row, log: Log, e: Event, cut: real, from: real, window: nat)
    requires !e.Arrival? && WindowMatches(row, log, cut, from, window)
    ensures WindowMatches(row, log + [e], cut, from, window)
  {
    QuietEvent(log, e);
    hide LogFrames, LogBeacons, From, InWindow, Project, Slice, SecondFrames, Agree;
  }

  lemma SameEvent(log: Log, n: nat, m: nat, second: int)
    requires n <= |log| && m <= |log| && Frontier(log).Some? && second < Frontier(log).value
    requires Frontier(log[..n]).Some? && Frontier(log[..n]).value <= second
    requires Frontier(log[..m]).Some? && Frontier(log[..m]).value <= second
    requires n < |log| ==> Frontier(log[..n + 1]).Some? && second < Frontier(log[..n + 1]).value
    requires m < |log| ==> Frontier(log[..m + 1]).Some? && second < Frontier(log[..m + 1]).value
    ensures n == m
  {
    assert log[..|log|] == log;
    if n < m { FrontierAdvances(log, n + 1, m); }
    if m < n { FrontierAdvances(log, m + 1, n); }
  }

  lemma HasMember(s: set<int>)
    requires s != {}
    ensures exists x :: x in s
  {
    assert (forall x :: x !in s) ==> s == {};
  }

  method Greatest(s: set<int>) returns (m: int)
    requires s != {}
    ensures m in s && forall x :: x in s ==> x <= m
  {
    HasMember(s);
    m :| m in s;
    var rest := s - {m};
    while rest != {}
      invariant rest <= s && m in s && forall x :: x in s ==> x in rest || x <= m
    {
      HasMember(rest);
      var x :| x in rest;
      rest := rest - {x};
      if x > m { m := x; }
    }
  }
}
