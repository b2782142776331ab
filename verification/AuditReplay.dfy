/** The offline audit of a whole capture: the analyzer and an independent count are run over the
    same frames, and agree on every second. */
module AuditReplay {
  import opened Wrappers
  import opened Frames
  import opened Projection
  import opened Timeline
  import opened RollingWindow
  import opened AnalyzerLog
  import opened AnalyzerState
  import opened Analyzer
  import opened RetryAudit
  import Sorting

  /** A decoded frame, and what it announces if it is a beacon. */
  datatype Captured = Captured(frame: Frame, elements: Elements)
  {
    function Record(): AnalyzerLog.Record { FrameRecord(frame, elements) }
    function Time(): real { frame.timestamp }
  }

  type Capture = seq<Captured>

  ghost predicate InTime(c: Capture) {
    && (forall i :: 0 <= i < |c| ==> c[i].Time() >= 0.0)
    && forall i, j :: 0 <= i < j < |c| ==> c[i].Time() <= c[j].Time()
  }

  const EARLIER: (Captured, Captured) -> bool := (a: Captured, b: Captured) => a.Time() <= b.Time()

  // ----- what a capture holds -----

  /** The frames with low <= time < high, in order. */
  function FramesIn(c: Capture, low: real, high: real): seq<Frame> {
    if c == [] then []
    else
      var front, last := FramesIn(c[..|c| - 1], low, high), c[|c| - 1];
      if low <= last.Time() < high then front + [last.frame] else front
  }

  /** The beacons of one BSSID with low <= time < high, in order. */
  function Heard(c: Capture, b: Address, low: real, high: real): seq<Advert> {
    if c == [] then []
    else
      var front, last := Heard(c[..|c| - 1], b, low, high), c[|c| - 1];
      if low <= last.Time() < high && last.Record().BeaconOf() == Some(b) then front + [last.Record().Announced()]
        else front
  }

  /** An intact beacon frame of a BSSID, in an interval. */
  predicate Announces(x: Captured, b: Address, low: real, high: real) {
    && low <= x.frame.timestamp < high && !x.frame.badFcs
    && x.frame.frameType == Some(0) && x.frame.frameSubtype == Some(8) && x.frame.bssid == Some(b)
  }

  function HowManyAnnounce(c: Capture, b: Address, low: real, high: real): nat {
    if c == [] then 0
    else HowManyAnnounce(c[..|c| - 1], b, low, high) + if Announces(c[|c| - 1], b, low, high) then 1 else 0
  }

  function HowManyIn(c: Capture, low: real, high: real): nat {
    if c == [] then 0
    else HowManyIn(c[..|c| - 1], low, high) + if low <= c[|c| - 1].frame.timestamp < high then 1 else 0
  }

  /** Every beacon frame of a BSSID has its place among those heard, after the earlier ones and no
      others, with its own signal and elements; and nothing else was heard. */
  lemma {:induction false} HeardExactly(c: Capture, b: Address, low: real, high: real, i: nat)
    requires i < |c|
    ensures |Heard(c, b, low, high)| == HowManyAnnounce(c, b, low, high)
    ensures var n, heard := HowManyAnnounce(c[..i], b, low, high), Heard(c, b, low, high);
            Announces(c[i], b, low, high) ==> n < |heard| && heard[n] == Advert(c[i].frame.rssi, c[i].elements)
  {
    var front := c[..|c| - 1];
    if i < |front| {
      HeardExactly(front, b, low, high, i);
      assert front[..i] == c[..i];
    } else if front != [] {
      HeardExactly(front, b, low, high, 0);
    } else {
      assert Heard(front, b, low, high) == [];
    }
  }

  /** The frames of an interval, likewise. */
  lemma {:induction false} FramesInExactly(c: Capture, low: real, high: real, i: nat)
    requires i < |c|
    ensures |FramesIn(c, low, high)| == HowManyIn(c, low, high)
    ensures var n, frames := HowManyIn(c[..i], low, high), FramesIn(c, low, high);
            low <= c[i].frame.timestamp < high ==> n < |frames| && frames[n] == c[i].frame
  {
    var front := c[..|c| - 1];
    if i < |front| {
      FramesInExactly(front, low, high, i);
      assert front[..i] == c[..i];
    } else if front != [] {
      FramesInExactly(front, low, high, 0);
    } else {
      assert FramesIn(front, low, high) == [];
    }
  }

  /** Frame i is the last beacon frame of a BSSID in an interval. */
  ghost predicate LastBeacon(c: Capture, i: nat, b: Address, low: real, high: real) {
    && i < |c| && Announces(c[i], b, low, high)
    && forall j :: i < j < |c| ==> !Announces(c[j], b, low, high)
  }

  /** Something was heard exactly when a beacon frame came, and the last of it is the last of those. */
  ghost predicate EndsWithLast(heard: seq<Advert>, c: Capture, b: Address, low: real, high: real) {
    && (heard != [] <==> exists i :: 0 <= i < |c| && Announces(c[i], b, low, high))
    && forall i: nat :: LastBeacon(c, i, b, low, high) ==>
         heard != [] && heard[|heard| - 1] == Advert(c[i].frame.rssi, c[i].elements)
  }

  lemma OneMore(heard: seq<Advert>, c: Capture, x: Captured, b: Address, low: real, high: real)
    requires EndsWithLast(heard, c, b, low, high)
    ensures EndsWithLast(if Announces(x, b, low, high) then heard + [Advert(x.frame.rssi, x.elements)] else heard,
                         c + [x], b, low, high)
  {
    hide Announces;
    var all := c + [x];
    assert all[|c|] == x && forall i :: 0 <= i < |c| ==> all[i] == c[i];
    forall i: nat | LastBeacon(all, i, b, low, high) ensures Announces(x, b, low, high) ==> i == |c| {}
    forall i: nat | LastBeacon(all, i, b, low, high) && i < |c| ensures LastBeacon(c, i, b, low, high) {}
  }

  lemma {:induction false} LastHeard(c: Capture, b: Address, low: real, high: real)
    ensures EndsWithLast(Heard(c, b, low, high), c, b, low, high)
  {
    hide *;
    if c == [] {
      NoneHeard(b, low, high);
    } else {
      var front, last := c[..|c| - 1], c[|c| - 1];
      LastHeard(front, b, low, high);
      HeardNext(c, b, low, high);
      OneMore(Heard(front, b, low, high), front, last, b, low, high);
      assert c == front + [last];
    }
  }

  lemma NoneHeard(b: Address, low: real, high: real)
    ensures EndsWithLast(Heard([], b, low, high), [], b, low, high)
  {
    assert Heard([], b, low, high) == [];
    hide Heard, Announces;
  }

  lemma HeardNext(c: Capture, b: Address, low: real, high: real)
    requires c != []
    ensures var front, last := c[..|c| - 1], c[|c| - 1];
            Heard(c, b, low, high) ==
            if Announces(last, b, low, high) then
              Heard(front, b, low, high) + [Advert(last.frame.rssi, last.elements)]
            else Heard(front, b, low, high)
  {}

  function LogOf(c: Capture): Log {
    seq(|c|, i requires 0 <= i < |c| => Arrival(c[i].Record()))
  }

  /** The analyzer's log after a capture: its frames, and the end of the capture. */
  ghost predicate Replayed(log: Log, c: Capture) {
    log == LogOf(c) || (|log| == |c| + 1 && log[..|c|] == LogOf(c) && log[|c|].Closed?)
  }

  /** What the analyzer stores of an ordered capture is the capture: its frames... */
  lemma {:induction false} FramesLogged(c: Capture, low: real, high: real)
    requires InTime(c)
    ensures Slice(LogFrames(LogOf(c)), low, high) == FramesIn(c, low, high)
    ensures c != [] ==> forall x :: x in LogFrames(LogOf(c)) ==> x.time <= c[|c| - 1].Time()
  {
    if c != [] {
      var front, last := c[..|c| - 1], c[|c| - 1];
      FramesLogged(front, low, high);
      assert LogOf(c) == LogOf(front) + [Arrival(last.Record())];
      ArrivalEvent(LogOf(front), last.Record());
      assert front != [] ==> front[|front| - 1].Time() <= last.Time();
      hide LogFrames, LogBeacons, LogOf, Within, InTime, Insert, Sorted, Values;
      Appended(LogFrames(LogOf(front)), Stamped(last.Time(), last.frame), low, high);
    }
  }

  /** ...and its beacons. */
  lemma {:induction false} BeaconsLogged(c: Capture, b: Address, low: real, high: real)
    requires InTime(c)
    ensures Values(Within(LogBeacons(LogOf(c), b), low, high)) == Heard(c, b, low, high)
    ensures c != [] ==> forall x :: x in LogBeacons(LogOf(c), b) ==> x.time <= c[|c| - 1].Time()
  {
    if c != [] {
      var front, last := c[..|c| - 1], c[|c| - 1];
      BeaconsLogged(front, b, low, high);
      assert LogOf(c) == LogOf(front) + [Arrival(last.Record())];
      ArrivalEvent(LogOf(front), last.Record());
      assert front != [] ==> front[|front| - 1].Time() <= last.Time();
      hide LogFrames, LogBeacons, LogOf, Within, InTime, Insert, Sorted, Values;
      Appended(LogBeacons(LogOf(front), b), Stamped(last.Time(), last.Record().Announced()), low, high);
    }
  }

  lemma Appended<T(!new)>(f: seq<Stamped<T>>, x: Stamped<T>, low: real, high: real)
    requires forall y :: y in f ==> y.time <= x.time
    ensures Insert(f, x) == f + [x]
    ensures Values(Within(f + [x], low, high))
            == if low <= x.time < high then Values(Within(f, low, high)) + [x.value] else Values(Within(f, low, high))
  {
    hide Within, Insert;
    InsertAtEnd(f, x);
    WithinSnoc(f, x, low, high);
    ValuesConcat(Within(f, low, high), [x]);
  }

  lemma ReplayedStored(log: Log, c: Capture)
    requires Replayed(log, c)
    ensures LogFrames(log) == LogFrames(LogOf(c)) && forall b :: LogBeacons(log, b) == LogBeacons(LogOf(c), b)
  {
    if log != LogOf(c) {
      assert log == LogOf(c) + [log[|c|]];
      QuietEvent(LogOf(c), log[|c|]);
    }
  }

  lemma ReplayedOrdered(log: Log, c: Capture)
    requires Replayed(log, c) && InTime(c)
    ensures OrderedLog(log) && Untouched(log, 0.0)
    ensures forall i :: 0 <= i < |c| ==> log[i] == Arrival(c[i].Record())
  {
    forall i | 0 <= i < |c| ensures log[i] == Arrival(c[i].Record()) {
      assert log[..|c|][i] == log[i];
    }
  }

  // ----- a row of the analyzer against the capture -----

  /** A row shows exactly what the capture holds for its second and its window. */
  ghost predicate RowShows(row: Row, c: Capture, window: nat) {
    var low, high := Low(row.second, window), High(row.second);
    && row.frames == Project(FramesIn(c, row.second as real, high), row.Known(), Anywhere)
    && (forall b :: b in row.beacons <==> Heard(c, b, low, high) != [])
    && (forall b :: b in row.beacons ==> Values(row.beacons[b]) == Heard(c, b, low, high))
  }

  lemma UncutRow(row: Row, log: Log, c: Capture, window: nat)
    requires WindowMatches(row, log, 0.0, 0.0, window) && Replayed(log, c) && InTime(c)
    ensures RowShows(row, c, window)
  {
    var low, high := Low(row.second, window), High(row.second);
    forall b
      ensures InWindow(From(LogBeacons(log, b), 0.0), low, Some(high)) == Within(LogBeacons(LogOf(c), b), low, high)
      ensures Values(Within(LogBeacons(LogOf(c), b), low, high)) == Heard(c, b, low, high)
    {
      UncutBeacons(log, c, b, low, high);
    }
    UncutFrames(log, c, row.second);
    hide LogFrames, LogBeacons, From, Within, Project, FramesIn, Heard, Replayed, FramesShown, SecondFrames, LogOf;
  }

  lemma UncutBeacons(log: Log, c: Capture, b: Address, low: real, high: real)
    requires Replayed(log, c) && InTime(c)
    ensures InWindow(From(LogBeacons(log, b), 0.0), low, Some(high)) == Within(LogBeacons(LogOf(c), b), low, high)
    ensures Values(Within(LogBeacons(LogOf(c), b), low, high)) == Heard(c, b, low, high)
  {
    ReplayedStored(log, c);
    ReplayedOrdered(log, c);
    hide Replayed, InTime, LogOf, Heard, From, LogBeacons, LogFrames, Untouched, OrderedLog, Within;
    NothingCut(log, b, 0.0);
    BeaconsLogged(c, b, low, high);
  }

  lemma UncutFrames(log: Log, c: Capture, second: int)
    requires Replayed(log, c) && InTime(c)
    ensures SecondFrames(From(LogFrames(log), 0.0), second) == FramesIn(c, second as real, High(second))
  {
    ReplayedStored(log, c);
    ReplayedOrdered(log, c);
    hide Replayed, InTime, LogOf, FramesIn, From, LogBeacons, LogFrames, Untouched, OrderedLog, Within;
    NothingCut(log, [0, 0, 0, 0, 0, 0], 0.0);
    FramesLogged(c, second as real, High(second));
  }

  /** A row made at any point of an ordered capture, by an analyzer that never trimmed, shows what
      the whole capture holds. */
  lemma RowOfCapture(row: Row, m: Made, log: Log, second: int, window: nat, c: Capture)
    requires RowOk(row, m, log, second, window) && Replayed(log, c) && InTime(c)
    requires m.cut <= 0.0 && second >= 0
    ensures RowShows(row, c, window) && row.second == second
  {
    hide *;
    RowFacts(row, m, log, second, window);
    ReplayedOrdered(log, c);
    CutBefore(m.cut, second, log);
    RowIsFinal(row, m, log, second, window, |log|);
    assert log[..|log|] == log;
    UncutMatch(row, log, m.cut, m.from, 0.0, window);
    UncutRow(row, log, c, window);
  }

  lemma CutBefore(cut: real, second: int, log: Log)
    requires cut <= 0.0 && second >= 0 && Untouched(log, 0.0)
    ensures cut <= High(second) && Untouched(log, cut)
  {
    hide Arrived;
  }

  // ----- the audit's own counts -----

  /** A table has a BSSID exactly when it was heard, with its latest beacon. */
  ghost predicate Latest(m: map<Address, Advert>, b: Address, heard: seq<Advert>) {
    (b in m <==> heard != []) && (b in m ==> m[b] == heard[|heard| - 1])
  }

  /** The BSSIDs heard in a second's window, each with its latest beacon. */
  method BeaconIdentities(c: Capture, second: int, window: nat) returns (m: map<Address, Advert>)
    ensures forall b :: Latest(m, b, Heard(c, b, Low(second, window), High(second)))
    ensures Identified(m, c, (second + 1) as real - window as real, (second + 1) as real)
  {
    var low, high := Low(second, window), High(second);
    m := map[];
    for n := 0 to |c|
      invariant forall b :: Latest(m, b, Heard(c[..n], b, low, high))
    {
      assert c[..n + 1][..n] == c[..n];
      var beacon := c[n].Record().BeaconOf();
      if low <= c[n].Time() < high && beacon.Some? {
        m := m[beacon.value := c[n].Record().Announced()];
      }
    }
    assert c[..|c|] == c;
    forall b ensures LastOrNone(m, b, c, low, high) {
      LastHeard(c, b, low, high);
      hide Announces, LastBeacon, Heard;
    }
  }

  /** A table has a BSSID exactly when a beacon frame of it is in the interval, with what the last
      of them announces. */
  ghost predicate LastOrNone(m: map<Address, Advert>, b: Address, c: Capture, low: real, high: real) {
    && (b in m <==> exists i :: 0 <= i < |c| && Announces(c[i], b, low, high))
    && forall i: nat :: LastBeacon(c, i, b, low, high) ==> b in m && m[b] == Advert(c[i].frame.rssi, c[i].elements)
  }

  ghost predicate Identified(m: map<Address, Advert>, c: Capture, low: real, high: real) {
    forall b :: LastOrNone(m, b, c, low, high)
  }

  method SecondFramesOf(c: Capture, second: int) returns (frames: seq<Frame>)
    ensures frames == FramesIn(c, second as real, High(second))
  {
    frames := [];
    for n := 0 to |c|
      invariant frames == FramesIn(c[..n], second as real, High(second))
    {
      assert c[..n + 1][..n] == c[..n];
      if second as real <= c[n].Time() < High(second) { frames := frames + [c[n].frame]; }
    }
    assert c[..|c|] == c;
  }

  ghost predicate Belongs(frames: seq<Frame>, b: Address, known: set<Address>) {
    exists i :: 0 <= i < |frames| && AssociatedBssid(frames[i], known) == Some(b)
  }

  /** The frames of every BSSID known or associated, in order. */
  method GroupByBssid(frames: seq<Frame>, known: set<Address>) returns (m: map<Address, seq<Frame>>)
    ensures forall b :: b in m <==> b in known || Belongs(frames, b, known)
    ensures forall b :: b in m ==> m[b] == OfBssid(frames, b, known)
  {
    hide AssociatedBssid;
    m := map b | b in known :: [];
    for n := 0 to |frames|
      invariant forall b :: b in m <==> b in known || Belongs(frames[..n], b, known)
      invariant forall b :: b in m ==> m[b] == OfBssid(frames[..n], b, known)
      invariant forall b :: b !in m ==> OfBssid(frames[..n], b, known) == []
    {
      assert frames[..n + 1][..n] == frames[..n];
      var a := AssociatedBssid(frames[n], known);
      BelongsNext(frames, n, known);
      if a.Some? { m := m[a.value := (if a.value in m then m[a.value] else []) + [frames[n]]]; }
    }
    assert frames[..|frames|] == frames;
  }

  lemma BelongsNext(frames: seq<Frame>, n: nat, known: set<Address>)
    requires n < |frames|
    ensures forall b :: Belongs(frames[..n + 1], b, known) <==>
                          Belongs(frames[..n], b, known) || AssociatedBssid(frames[n], known) == Some(b)
  {
    hide AssociatedBssid;
    forall b ensures Belongs(frames[..n + 1], b, known) <==>
                       Belongs(frames[..n], b, known) || AssociatedBssid(frames[n], known) == Some(b) {
      var longer, shorter := frames[..n + 1], frames[..n];
      assert longer[n] == frames[n];
      if Belongs(shorter, b, known) {
        var i :| 0 <= i < n && AssociatedBssid(shorter[i], known) == Some(b);
        assert longer[i] == shorter[i];
      }
      if Belongs(longer, b, known) {
        var i :| 0 <= i <= n && AssociatedBssid(longer[i], known) == Some(b);
        assert i < n ==> shorter[i] == longer[i];
      }
    }
  }

  /** One second of the audit. */
  datatype AuditSecond = AuditSecond(
    second: int,
    channel: Counts,
    identities: map<Address, Advert>,
    bssids: map<Address, Counts>)

  ghost predicate SecondAudited(a: AuditSecond, c: Capture, window: nat) {
    var low, high := Low(a.second, window), High(a.second);
    var frames := FramesIn(c, a.second as real, high);
    && a.channel == Audit(frames, 0)
    && (forall b :: Latest(a.identities, b, Heard(c, b, low, high)))
    && Identified(a.identities, c, low, high)
    && (forall b :: b in a.bssids <==> b in a.identities || Belongs(frames, b, a.identities.Keys))
    && (forall b :: b in a.bssids ==> a.bssids[b] == Audit(OfBssid(frames, b, a.identities.Keys), 0))
  }

  method AuditOneSecond(c: Capture, second: int, window: nat) returns (a: AuditSecond)
    ensures a.second == second && SecondAudited(a, c, window)
  {
    hide Audit, FramesIn, Heard, Belongs, OfBssid, Identified, Latest;
    var frames := SecondFramesOf(c, second);
    var identities := BeaconIdentities(c, second, window);
    var channel := AuditChannel(frames, identities.Keys, Anywhere);
    var groups := GroupByBssid(frames, identities.Keys);
    var bssids := AuditGroups(groups);
    a := AuditSecond(second, channel, identities, bssids);
  }

  method AuditGroups(groups: map<Address, seq<Frame>>) returns (m: map<Address, Counts>)
    ensures m.Keys == groups.Keys && forall b :: b in groups ==> m[b] == Audit(groups[b], 0)
  {
    hide Audit;
    m := map[];
    var rest := groups.Keys;
    while rest != {}
      invariant m.Keys == groups.Keys - rest && rest <= groups.Keys
      invariant forall b :: b in m ==> m[b] == Audit(groups[b], 0)
    {
      var b :| b in rest;
      rest := rest - {b};
      var row := AuditRow(groups[b], 0);
      m := m[b := row];
    }
  }

  // ----- the two agree -----

  predicate BssidAgrees(c: Counts, s: BssidSummary) {
    c.eligible == s.retryEligible && c.retries == s.retries && c.decoded == s.frameCount + c.badFcs
  }

  /** The audit of a second and the analyzer's row for it agree: on the channel's counts, on the
      BSSIDs known and the latest beacon of each, and on the counts of every BSSID; only the
      audit also counts damaged frames as decoded by a BSSID. */
  ghost predicate SameCounts(a: AuditSecond, row: Row) {
    && a.second == row.second
    && a.channel.decoded == row.frames.frameCount
    && a.channel.eligible == row.frames.retryEligible
    && a.channel.retries == row.frames.retries
    && a.identities.Keys == row.Known()
    && (forall b :: b in row.beacons ==>
      row.beacons[b] != [] && a.identities[b] == row.beacons[b][|row.beacons[b]| - 1].value)
    && (forall b :: b in a.bssids ==> BssidAgrees(a.bssids[b], SummaryOf(row.frames.byBssid, b)))
    && (forall b :: b in row.frames.byBssid ==> b in a.bssids)
  }

  /** A BSSID with a summary has a frame. */
  lemma {:induction false} SummariesBelong(frames: seq<Frame>, known: set<Address>, b: Address)
    requires b in Project(frames, known, Anywhere).byBssid
    ensures Belongs(frames, b, known)
  {
    if frames != [] {
      var n := |frames| - 1;
      ReadAnywhere(frames[n], known);
      hide Read, AssociatedBssid, Belongs, WithHost, WithClient;
      BelongsNext(frames, n, known);
      assert frames[..n + 1] == frames;
      if b in Project(frames[..n], known, Anywhere).byBssid { SummariesBelong(frames[..n], known, b); }
    }
  }

  lemma AuditAgrees(a: AuditSecond, row: Row, c: Capture, window: nat)
    requires SecondAudited(a, c, window) && RowShows(row, c, window) && a.second == row.second
    ensures SameCounts(a, row)
  {
    hide Audit, FramesIn, Heard, Belongs, OfBssid, Project, SummaryOf, Identified;
    var frames := FramesIn(c, row.second as real, High(row.second));
    assert a.identities.Keys == row.Known();
    AuditIsProjection(frames, row.Known());
    forall b | b in a.bssids
      ensures BssidAgrees(a.bssids[b], SummaryOf(row.frames.byBssid, b))
    {
      BssidAuditIsSummary(frames, b, row.Known());
    }
    forall b | b in row.frames.byBssid ensures b in a.bssids { SummariesBelong(frames, row.Known(), b); }
  }

  /** The analyzer's rows for an ordered capture, ingested without snapshots and then flushed. */
  method AnalyzerRows(c: Capture, window: nat) returns (rows: seq<Row>)
    requires window > 0 && InTime(c) && c != []
    ensures forall k :: 0 <= k < |rows| ==> RowShows(rows[k], c, window) && rows[k].second == c[0].Time().Floor + k
    ensures forall i :: 0 <= i < |c| ==> c[i].Time().Floor < c[0].Time().Floor + |rows|
  {
    hide *;
    var a := Ingested(c, window);
    var shown;
    rows, shown := a.Flush();
    FlushedLog(a.trace.log, c);
    RowsOfCapture(a, rows, c);
  }

  lemma RowsOfCapture(a: Analyzer, rows: seq<Row>, c: Capture)
    requires a.Valid() && Replayed(a.trace.log, c) && InTime(c) && c != [] && a.trace.first == c[0].Time().Floor
    requires a.trace.published == rows && a.ready == [] && a.trace.expired <= 0.0 && AllPublished(a.trace)
    ensures forall k :: 0 <= k < |rows| ==> RowShows(rows[k], c, a.window) && rows[k].second == c[0].Time().Floor + k
    ensures forall i :: 0 <= i < |c| ==> c[i].Time().Floor < c[0].Time().Floor + |rows|
  {
    RowsKnown(a);
    assert a.trace.published + a.ready == rows;
    hide Analyzer.Mid, Frontier, RowShows, LogOf, RowsOk, CutsOk, Replayed, RowOk;
    forall k | 0 <= k < |rows|
      ensures RowShows(rows[k], c, a.window) && rows[k].second == c[0].Time().Floor + k
    {
      RowAt(rows, a.trace, a.trace.first, a.window, k);
      RowOfCapture(rows[k], a.trace.made[k], a.trace.log, a.trace.first + k, a.window, c);
    }
    ReplayedOrdered(a.trace.log, c);
  }

  method Ingested(c: Capture, window: nat) returns (a: Analyzer)
    requires window > 0 && InTime(c)
    ensures a.Valid() && fresh(a) && a.window == window && a.trace.log == LogOf(c) && a.trace.published == []
    ensures a.trace.expired == -(window as real) && (c != [] ==> a.trace.first == c[0].Time().Floor && a.next.Some?)
  {
    hide Analyzer.Mid, Frontier, LogOf;
    a := new Analyzer(window);
    LogSnoc(c, 0);
    for n := 0 to |c|
      invariant a.Valid() && fresh(a) && a.window == window
      invariant a.trace.log == LogOf(c[..n]) && a.trace.published == [] && a.trace.expired == -(window as real)
      invariant a.reference == (if n == 0 then None else Some(c[n - 1].Time())) && (n == 0 <==> a.next.None?)
      invariant n > 0 ==> a.trace.first == c[0].Time().Floor
    {
      LogSnoc(c, n);
      FrontierStarted(a.trace.log, Arrival(c[n].Record()));
      var _ := a.Ingest(c[n].Record(), false);
    }
    assert c[..|c|] == c;
  }

  lemma LogSnoc(c: Capture, n: nat)
    requires n <= |c|
    ensures LogOf([]) == []
    ensures n < |c| ==> LogOf(c[..n + 1]) == LogOf(c[..n]) + [Arrival(c[n].Record())]
  {}

  lemma FrontierStarted(log: Log, e: Event)
    requires e.Arrival?
    ensures Frontier(log + [e]).Some?
  {}

  lemma FlushedLog(log: Log, c: Capture)
    requires log == LogOf(c) || exists s: int :: log == LogOf(c) + [Closed(s)]
    ensures Replayed(log, c)
  {}

  lemma RowAt(rows: seq<Row>, t: Trace, first: int, window: nat, k: nat)
    requires RowsOk(rows, t.made, t.log, first, window) && CutsOk(t.made, t.expired) && t.expired <= 0.0 && k < |rows|
    ensures k < |t.made| && RowOk(rows[k], t.made[k], t.log, first + k, window) && t.made[k].cut <= 0.0
  {
    hide RowOk;
  }

  /** The seconds of an ordered capture. */
  method SecondsOf(c: Capture) returns (seconds: seq<int>)
    requires InTime(c)
    ensures forall i, j :: 0 <= i < j < |seconds| ==> seconds[i] < seconds[j]
    ensures forall s :: s in seconds <==> exists i :: 0 <= i < |c| && c[i].Time().Floor == s
  {
    seconds := [];
    for n := 0 to |c|
      invariant forall i, j :: 0 <= i < j < |seconds| ==> seconds[i] < seconds[j]
      invariant n == 0 <==> seconds == []
      invariant n > 0 ==> seconds[|seconds| - 1] == c[n - 1].Time().Floor
      invariant forall s :: s in seconds <==> exists i :: 0 <= i < n && c[i].Time().Floor == s
    {
      var s := c[n].Time().Floor;
      if seconds == [] || s != seconds[|seconds| - 1] {
        assert n > 0 ==> c[n - 1].Time() <= c[n].Time();
        seconds := seconds + [s];
      }
    }
  }

  /** For every capture, in whatever order its frames come: every second that has a frame has a row
      of the audit and a row of the analyzer, and the two agree. */
  method AnalyzeRetryFrames(frames: Capture, window: nat)
    returns (ordered: Capture, audit: seq<AuditSecond>, rows: seq<Row>)
    requires window > 0 && forall i :: 0 <= i < |frames| ==> frames[i].Time() >= 0.0
    ensures multiset(ordered) == multiset(frames) && InTime(ordered)
    ensures forall i :: 0 <= i < |frames| ==> exists k :: 0 <= k < |audit| && audit[k].second == frames[i].Time().Floor
    ensures forall i, j :: 0 <= i < j < |audit| ==> audit[i].second < audit[j].second
    ensures forall k :: 0 <= k < |audit| ==> SecondAudited(audit[k], ordered, window)
    ensures forall k :: 0 <= k < |audit| ==> exists j :: 0 <= j < |rows| && SameCounts(audit[k], rows[j])
  {
    hide SecondAudited, SameCounts, RowShows, Sorting.Sort, Captured.Time;
    ordered, audit, rows := Sorting.Sort(EARLIER, frames), [], [];
    SortedInTime(frames);
    if ordered == [] { return; }
    rows := AnalyzerRows(ordered, window);
    var seconds := SecondsOf(ordered);
    for n := 0 to |seconds|
      invariant |audit| == n && forall k :: 0 <= k < n ==> audit[k].second == seconds[k]
      invariant forall k :: 0 <= k < n ==> SecondAudited(audit[k], ordered, window)
      invariant forall k :: 0 <= k < n ==> exists j :: 0 <= j < |rows| && SameCounts(audit[k], rows[j])
    {
      var a := AuditOneSecond(ordered, seconds[n], window);
      assert seconds[n] in seconds;
      var j := seconds[n] - ordered[0].Time().Floor;
      AuditAgrees(a, rows[j], ordered, window);
      audit := audit + [a];
    }
    Sorting.SameMembers(ordered, frames);
    forall i | 0 <= i < |frames| ensures exists k :: 0 <= k < |audit| && audit[k].second == frames[i].Time().Floor {
      assert frames[i] in ordered;
      assert frames[i].Time().Floor in seconds;
    }
  }

  lemma SortedInTime(frames: Capture)
    requires forall i :: 0 <= i < |frames| ==> frames[i].Time() >= 0.0
    ensures InTime(Sorting.Sort(EARLIER, frames))
  {
    hide *;
    EarlierIsOrder();
    Sorting.SortSorts(EARLIER, frames);
    InTimeWhenSorted(Sorting.Sort(EARLIER, frames), frames);
  }

  lemma EarlierIsOrder()
    ensures Sorting.TotalOrder(EARLIER)
  {}

  lemma InTimeWhenSorted(ordered: Capture, frames: Capture)
    requires Sorting.SortedBy(EARLIER, ordered) && multiset(ordered) == multiset(frames)
    requires forall i :: 0 <= i < |frames| ==> frames[i].Time() >= 0.0
    ensures InTime(ordered)
  {
    Sorting.SameMembers(ordered, frames);
    hide Captured.Time;
    forall i | 0 <= i < |ordered| ensures ordered[i].Time() >= 0.0 {
      assert ordered[i] in frames;
    }
    forall i, j | 0 <= i < j < |ordered| ensures ordered[i].Time() <= ordered[j].Time() {
      assert EARLIER(ordered[i], ordered[j]);
    }
  }
}
