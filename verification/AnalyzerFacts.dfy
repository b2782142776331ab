/** What a row and a snapshot of the analyzer show, said of the fields of the records that came. */
module AnalyzerFacts {
  import opened Wrappers
  import opened Frames
  import opened Projection
  import opened FrameFacts
  import opened Merge
  import opened Timeline
  import opened RollingWindow
  import opened AnalyzerLog
  import opened AnalyzerState
  import BeaconSlots

  // ----- one event -----

  /** A beacon record of a BSSID, or an intact management frame of subtype 8 that names it. */
  predicate IsBeaconOf(e: Event, b: Address) {
    e.Arrival? &&
    match e.record
    case BeaconRecord(_, bssid, _) => bssid == b
    case FrameRecord(f, _) =>
      !f.badFcs && f.frameType == Some(0) && f.frameSubtype == Some(8) && f.bssid == Some(b)
  }

  predicate IsFrame(e: Event, f: Frame) { e.Arrival? && e.record.FrameRecord? && e.record.frame == f }

  /** When an arrival came, and what it said if it is a beacon. */
  function Told(e: Event): Stamped<Advert>
    requires e.Arrival?
  {
    match e.record
    case BeaconRecord(t, _, advert) => Stamped(t, advert)
    case FrameRecord(f, elements) => Stamped(f.timestamp, Advert(f.rssi, elements))
  }

  predicate InRange(t: real, cut: real, low: real, high: Option<real>) {
    cut <= t && low <= t && (high.Some? ==> t < high.value)
  }

  ghost predicate Heard(e: Event, b: Address, cut: real, low: real, high: Option<real>) {
    IsBeaconOf(e, b) && InRange(Told(e).time, cut, low, high)
  }

  /** How often the log has exactly this beacon of a BSSID. */
  function HowOften(log: Log, b: Address, x: Stamped<Advert>): nat {
    if log == [] then 0
    else
      var e := log[|log| - 1];
      HowOften(log[..|log| - 1], b, x) + if IsBeaconOf(e, b) && Told(e) == x then 1 else 0
  }

  function HowOftenFrame(log: Log, f: Frame): nat {
    if log == [] then 0
    else HowOftenFrame(log[..|log| - 1], f) + if IsFrame(log[|log| - 1], f) then 1 else 0
  }

  lemma {:induction false} BeaconsCounted(log: Log, b: Address, x: Stamped<Advert>)
    ensures multiset(LogBeacons(log, b))[x] == HowOften(log, b, x)
  {
    if log != [] {
      var front, e := log[..|log| - 1], log[|log| - 1];
      BeaconsCounted(front, b, x);
      if e.Arrival? { InsertCount(LogBeacons(front, b), Stamped(e.record.Time(), e.record.Announced())); }
      hide Insert;
    }
  }

  lemma {:induction false} FramesCounted(log: Log, x: Stamped<Frame>)
    ensures multiset(LogFrames(log))[x] == if x.time == x.value.timestamp then HowOftenFrame(log, x.value) else 0
  {
    if log != [] {
      var front, e := log[..|log| - 1], log[|log| - 1];
      FramesCounted(front, x);
      if e.Arrival? && e.record.FrameRecord? {
        InsertCount(LogFrames(front), Stamped(e.record.Time(), e.record.frame));
      }
      hide Insert;
    }
  }

  // ----- the beacons shown -----

  lemma {:induction false} OftenMeans(log: Log, b: Address, x: Stamped<Advert>)
    ensures HowOften(log, b, x) > 0 <==> exists i :: 0 <= i < |log| && IsBeaconOf(log[i], b) && Told(log[i]) == x
  {
    hide Told;
    if log != [] {
      var front, n := log[..|log| - 1], |log| - 1;
      OftenMeans(front, b, x);
      assert forall i :: 0 <= i < n ==> front[i] == log[i];
      assert IsBeaconOf(log[n], b) && Told(log[n]) == x ==>
        exists i :: 0 <= i < |log| && IsBeaconOf(log[i], b) && Told(log[i]) == x;
    }
  }

  /** A table shows a BSSID exactly when a beacon of it came in the window and after the cut; and of
      each such BSSID exactly those beacons, each as often as it came, in time order. */
  lemma ShownBeacons(beacons: BeaconTable, log: Log, cut: real, low: real, high: Option<real>, b: Address)
    requires BeaconsShown(beacons, log, cut, low, high)
    ensures b in beacons <==> exists i :: 0 <= i < |log| && Heard(log[i], b, cut, low, high)
    ensures b in beacons ==> Sorted(beacons[b]) && forall x: Stamped<Advert> ::
              multiset(beacons[b])[x] == if InRange(x.time, cut, low, high) then HowOften(log, b, x) else 0
  {
    var w := InWindow(From(LogBeacons(log, b), cut), low, high);
    forall x: Stamped<Advert> ensures multiset(w)[x] == if InRange(x.time, cut, low, high) then HowOften(log, b, x)
      else 0 {
      WindowCounted(log, b, cut, low, high, x);
    }
    WindowSorted(log, b, cut, low, high);
    hide LogBeacons, InWindow, From, HowOften, IsBeaconOf, Told;
    if w != [] {
      var x := w[0];
      assert multiset(w)[x] > 0;
      OftenMeans(log, b, x);
    }
    if i :| 0 <= i < |log| && Heard(log[i], b, cut, low, high) {
      var x := Told(log[i]);
      OftenMeans(log, b, x);
      assert multiset(w)[x] > 0;
    }
  }

  lemma WindowCounted(log: Log, b: Address, cut: real, low: real, high: Option<real>, x: Stamped<Advert>)
    ensures multiset(InWindow(From(LogBeacons(log, b), cut), low, high))[x]
            == if InRange(x.time, cut, low, high) then HowOften(log, b, x) else 0
  {
    hide LogBeacons, From, Within, HowOften;
    var stored := LogBeacons(log, b);
    BeaconsCounted(log, b, x);
    FromCount(stored, cut, x);
    FromCount(From(stored, cut), low, x);
    if high.Some? { WithinCount(From(stored, cut), low, high.value, x); }
  }

  lemma WindowSorted(log: Log, b: Address, cut: real, low: real, high: Option<real>)
    ensures Sorted(InWindow(From(LogBeacons(log, b), cut), low, high))
  {
    hide LogBeacons, From, Within, Sorted, Arrived;
    LogSorted(log, b);
    FromMembers(LogBeacons(log, b), cut);
    FromMembers(From(LogBeacons(log, b), cut), low);
    if high.Some? { WithinMembers(From(LogBeacons(log, b), cut), low, high.value); }
  }

  // ----- the frames shown -----

  function HowManyAre(frames: seq<Frame>, f: Frame): nat { multiset(frames)[f] }

  lemma {:induction false} ValuesCount(s: Stored, f: Frame)
    requires forall x :: x in s ==> x.time == x.value.timestamp
    ensures multiset(Values(s))[f] == multiset(s)[Stamped(f.timestamp, f)]
  {
    if s != [] {
      var front, last := s[..|s| - 1], s[|s| - 1];
      assert s == front + [last] && Values(s) == Values(front) + [last.value];
      ValuesCount(front, f);
    }
  }

  lemma LogPlaced(log: Log)
    ensures forall x :: x in LogFrames(log) ==> x.time == x.value.timestamp
  {
    forall x | x in LogFrames(log) ensures x.time == x.value.timestamp {
      FramesCounted(log, x);
      assert multiset(LogFrames(log))[x] > 0;
    }
  }

  /** The frames of an interval are exactly those recorded for it from a cut on, each as often as it
      was recorded, in time order. */
  lemma ShownFrames(log: Log, from: real, low: real, high: real, f: Frame)
    ensures var frames := Slice(From(LogFrames(log), from), low, high);
            && multiset(frames)[f] == (if from <= f.timestamp && low <= f.timestamp < high then HowOftenFrame(log, f)
              else 0)
            && forall i, j :: 0 <= i < j < |frames| ==> frames[i].timestamp <= frames[j].timestamp
  {
    hide LogFrames, From, Within, Arrived, HowOftenFrame;
    var stored, x := LogFrames(log), Stamped(f.timestamp, f);
    LogPlaced(log);
    LogSorted(log, [0, 0, 0, 0, 0, 0]);
    FramesCounted(log, x);
    FromCount(stored, from, x);
    FromMembers(stored, from);
    var kept := From(stored, from);
    WithinCount(kept, low, high, x);
    WithinMembers(kept, low, high);
    var w := Within(kept, low, high);
    ValuesCount(w, f);
    forall i | 0 <= i < |w| ensures w[i].time == w[i].value.timestamp { assert w[i] in w; }
  }

  // ----- the receptions -----

  /** The latest beacon of a BSSID in the window, the last to come in a tie. */
  ghost predicate IsLatest(log: Log, i: nat, b: Address, cut: real, low: real, high: Option<real>) {
    && i < |log| && Heard(log[i], b, cut, low, high)
    && forall j :: 0 <= j < |log| && Heard(log[j], b, cut, low, high) ==>
         Told(log[j]).time < Told(log[i]).time || (Told(log[j]).time == Told(log[i]).time && j <= i)
  }

  ghost predicate LastOf(w: Beacons, log: Log, last: Option<nat>, b: Address, cut: real, low: real,
      high: Option<real>) {
    && (last.None? ==> w == [] && forall j :: 0 <= j < |log| ==> !Heard(log[j], b, cut, low, high))
    && (last.Some? ==> w != [] && IsLatest(log, last.value, b, cut, low, high) && w[|w| - 1] == Told(log[last.value]))
  }

  lemma {:induction false} LatestBeacon(log: Log, b: Address, cut: real, low: real, high: real)
    returns (last: Option<nat>)
    ensures LastOf(Within(From(LogBeacons(log, b), cut), low, high), log, last, b, cut, low, Some(high))
  {
    last := None;
    if log == [] {
      assert LogBeacons(log, b) == [];
    } else {
      hide *;
      var front, e := log[..|log| - 1], log[|log| - 1];
      assert log == front + [e];
      last := LatestBeacon(front, b, cut, low, high);
      WindowNext(front, e, b, cut, low, high);
      LastInserted(Within(From(LogBeacons(front, b), cut), low, high), front, e, last, b, cut, low, Some(high));
      if Heard(e, b, cut, low, Some(high)) && (last.None? || Told(front[last.value]).time <= Told(e).time) {
        last := Some(|front|);
      }
    }
  }

  lemma WindowNext(log: Log, e: Event, b: Address, cut: real, low: real, high: real)
    ensures var w, next := Within(From(LogBeacons(log, b), cut), low, high),
                           Within(From(LogBeacons(log + [e], b), cut), low, high);
            next == if Heard(e, b, cut, low, Some(high)) then Insert(w, Told(e)) else w
  {
    hide LogBeacons, From, Within, Insert, Arrived, Told, Sorted;
    var from := if low < cut then cut else low;
    WithinFrom(LogBeacons(log, b), cut, low, high);
    WithinFrom(LogBeacons(log + [e], b), cut, low, high);
    BeaconsNext(log, e, b);
    if IsBeaconOf(e, b) {
      LogSorted(log, b);
      WithinInsert(LogBeacons(log, b), Told(e), from, high);
    }
  }

  lemma BeaconsNext(log: Log, e: Event, b: Address)
    ensures LogBeacons(log + [e], b) ==
            if IsBeaconOf(e, b) then Insert(LogBeacons(log, b), Told(e)) else LogBeacons(log, b)
  {
    assert (log + [e])[..|log|] == log;
  }

  lemma LastInserted(w: Beacons, log: Log, e: Event, last: Option<nat>, b: Address, cut: real, low: real,
      high: Option<real>)
    requires LastOf(w, log, last, b, cut, low, high)
    ensures !Heard(e, b, cut, low, high) ==> LastOf(w, log + [e], last, b, cut, low, high)
    ensures Heard(e, b, cut, low, high) ==>
              LastOf(Insert(w, Told(e)), log + [e],
                     if last.None? || Told(log[last.value]).time <= Told(e).time then Some(|log|) else last,
                     b, cut, low, high)
  {
    hide InRange, Told;
    var all := log + [e];
    assert forall i :: 0 <= i < |log| ==> all[i] == log[i];
    assert all[|log|] == e;
  }

  ghost predicate LatestIsLoud(log: Log, b: Address, cut: real, low: real, high: real) {
    exists i: nat :: IsLatest(log, i, b, cut, low, Some(high)) && LoudAt(Told(log[i]), high)
  }

  /** A BSSID has receptions exactly when its latest beacon in the window came no more than a second and
      a beacon interval before the end, and was stronger than -75 dBm. */
  lemma LoudExactly(row: Row, log: Log, cut: real, window: nat, b: Address)
    requires ReceptionsMatch(row, log, cut, window)
    ensures b in row.receptions <==>
              LatestIsLoud(log, b, cut, (row.second + 1) as real - window as real, (row.second + 1) as real)
  {
    var low, high := Low(row.second, window), High(row.second);
    var last := LatestBeacon(log, b, cut, low, high);
    LoudMeans(Within(From(LogBeacons(log, b), cut), low, high), log, last, b, cut, low, high);
    hide LogBeacons, From, Within, LatestIsLoud, LastOf, Loud, ReceptionOf;
  }

  lemma LoudMeans(w: Beacons, log: Log, last: Option<nat>, b: Address, cut: real, low: real, high: real)
    requires LastOf(w, log, last, b, cut, low, Some(high))
    ensures Loud(w, high) <==> LatestIsLoud(log, b, cut, low, high)
  {
    hide InRange;
    if last.Some? {
      assert forall i: nat :: IsLatest(log, i, b, cut, low, Some(high)) ==> i == last.value;
      assert LoudAt(Told(log[last.value]), high) <==> Loud(w, high);
    }
  }

  predicate LoudAt(x: Stamped<Advert>, end: real) {
    && end - 1.1024 - 0.000000001 <= x.time <= end + 0.000000001
    && x.value.rssi.Some? && x.value.rssi.value > -75
  }

  /** How often a beacon of a BSSID came at some time. */
  function HowOftenAt(log: Log, b: Address, t: real): nat {
    if log == [] then 0
    else
      var e := log[|log| - 1];
      HowOftenAt(log[..|log| - 1], b, t) + if IsBeaconOf(e, b) && Told(e).time == t then 1 else 0
  }

  lemma {:induction false} TimesCount(s: Beacons, x: Stamped<Advert>)
    ensures multiset(Times(s + [x])) == multiset(Times(s)) + multiset{x.time}
  {
    assert Times(s + [x]) == Times(s) + [x.time];
  }

  lemma {:induction false} TimesInserted(s: Beacons, x: Stamped<Advert>)
    ensures multiset(Times(Insert(s, x))) == multiset(Times(s)) + multiset{x.time}
  {
    if s == [] || s[|s| - 1].time <= x.time {
      TimesCount(s, x);
    } else {
      var front, last := s[..|s| - 1], s[|s| - 1];
      assert s == front + [last];
      TimesInserted(front, x);
      TimesCount(front, last);
      TimesCount(Insert(front, x), last);
    }
  }

  lemma {:induction false} TimesFrom(s: Beacons, cut: real, t: real)
    ensures multiset(Times(From(s, cut)))[t] == if cut <= t then multiset(Times(s))[t] else 0
  {
    if s != [] {
      var front, last := s[..|s| - 1], s[|s| - 1];
      assert s == front + [last];
      TimesFrom(front, cut, t);
      TimesCount(front, last);
      TimesCount(From(front, cut), last);
    }
  }

  lemma {:induction false} TimesLogged(log: Log, b: Address, t: real)
    ensures multiset(Times(LogBeacons(log, b)))[t] == HowOftenAt(log, b, t)
  {
    if log != [] {
      var front, e := log[..|log| - 1], log[|log| - 1];
      TimesLogged(front, b, t);
      if IsBeaconOf(e, b) { TimesInserted(LogBeacons(front, b), Told(e)); }
      hide Insert, Times;
    }
  }

  /** The times of the beacons of a BSSID from a cut on, each as often as it came. */
  ghost predicate TimesOf(times: seq<real>, log: Log, b: Address, cut: real) {
    forall t: real :: multiset(times)[t] == if cut <= t then HowOftenAt(log, b, t) else 0
  }

  /** Its receptions are counted over the second, at the beacon interval, from the times of exactly
      the beacons of it that came and were not trimmed. */
  lemma ReceptionsExactly(row: Row, log: Log, cut: real, window: nat, b: Address)
    requires ReceptionsMatch(row, log, cut, window) && b in row.receptions
    ensures exists times :: TimesOf(times, log, b, cut)
              && row.receptions[b] == BeaconSlots.Reception(times, row.second as real, (row.second + 1) as real,
                                                            BeaconSlots.Clock(0.1024, 0.000000001))
  {
    var times := Times(From(LogBeacons(log, b), cut));
    forall t: real ensures multiset(times)[t] == if cut <= t then HowOftenAt(log, b, t) else 0 {
      TimesFrom(LogBeacons(log, b), cut, t);
      TimesLogged(log, b, t);
    }
    assert TimesOf(times, log, b, cut);
    hide LogBeacons, From, HowOftenAt, Times, BeaconSlots.Reception, Loud, TimesOf;
    assert row.receptions[b] == BeaconSlots.Reception(times, row.second as real, (row.second + 1) as real,
                                                      BeaconSlots.Clock(0.1024, 0.000000001));
  }

  // ----- rows and snapshots -----

  /** The beacons a row shows are those that came, by the event that completed it, in the `window`
      seconds up to its end and after its cut. */
  lemma RowBeacons(row: Row, m: Made, log: Log, second: int, window: nat, b: Address)
    requires RowOk(row, m, log, second, window)
    ensures var low, high := (second + 1) as real - window as real, Some((second + 1) as real);
            && (b in row.beacons <==> exists i :: 0 <= i < m.events && Heard(log[i], b, m.cut, low, high))
            && (b in row.beacons ==> Sorted(row.beacons[b]) && forall x: Stamped<Advert> ::
                  multiset(row.beacons[b])[x]
                  == if InRange(x.time, m.cut, low, high) then HowOften(log[..m.events], b, x) else 0)
  {
    hide *;
    RowFacts(row, m, log, second, window);
    RowWindow(row, log[..m.events], m.cut, m.from, window);
    ShownBeacons(row.beacons, log[..m.events], m.cut, (second + 1) as real - window as real,
      Some((second + 1) as real), b);
    assert forall i :: 0 <= i < m.events ==> log[..m.events][i] == log[i];
  }

  lemma RowWindow(row: Row, log: Log, cut: real, from: real, window: nat)
    requires WindowMatches(row, log, cut, from, window)
    ensures BeaconsShown(row.beacons, log, cut, (row.second + 1) as real - window as real,
      Some((row.second + 1) as real))
    ensures row.frames == Project(Slice(From(LogFrames(log), from), row.second as real, (row.second + 1) as real),
                                  row.beacons.Keys, Anywhere)
    ensures Agree(row.windowFrames,
                  Project(Slice(From(LogFrames(log), from), (row.second + 1) as real - window as real,
                                (row.second + 1) as real), row.beacons.Keys, Anywhere))
  {
    hide BeaconsShown, LogFrames, From, Within, Project, Agree;
  }

  // ----- which seconds are complete -----

  /** When an event says what the time is, and what it completes then. */
  function TimeOf(e: Event): Option<real> {
    match e
    case Arrival(FrameRecord(f, _)) => Some(f.timestamp)
    case Arrival(BeaconRecord(t, _, _)) => Some(t)
    case Late(t) => Some(t)
    case Reached(t) => Some(t)
    case Closed(_) => None
  }

  predicate IsRecord(e: Event) { e.Arrival? || e.Late? }

  /** An event is after the first record, or is it. */
  ghost predicate Started(log: Log, i: nat) {
    i < |log| && exists j :: 0 <= j <= i && IsRecord(log[j])
  }

  /** Past the end of a second and the beacon interval of grace; or the end of the capture after it. */
  predicate Ends(e: Event, second: int) {
    match TimeOf(e)
    case Some(t) => t > second as real + 1.1024 + 0.000000001
    case None => e.Closed? && second < e.second
  }

  ghost predicate Ended(log: Log, second: int) { exists i: nat :: Started(log, i) && Ends(log[i], second) }

  ghost predicate FirstRecord(log: Log, i: nat) {
    && i < |log| && IsRecord(log[i])
    && forall j :: 0 <= j < i ==> !IsRecord(log[j])
  }

  lemma StartedSnoc(log: Log, e: Event)
    ensures forall i: nat :: Started(log + [e], i) <==>
              Started(log, i) || (i == |log| && (IsRecord(e) || exists j :: 0 <= j < |log| && IsRecord(log[j])))
  {
    hide IsRecord;
    var all := log + [e];
    assert all[|log|] == e && forall j :: 0 <= j < |log| ==> all[j] == log[j];
  }

  lemma EndedSnoc(log: Log, e: Event, second: int)
    ensures Ended(log + [e], second) <==>
              Ended(log, second)
              || (Ends(e, second) && (IsRecord(e) || exists j :: 0 <= j < |log| && IsRecord(log[j])))
  {
    StartedSnoc(log, e);
    hide Ends, IsRecord;
    var all := log + [e];
    assert all[|log|] == e && forall j :: 0 <= j < |log| ==> all[j] == log[j];
    if i: nat :| Started(log, i) && Ends(log[i], second) { assert Started(all, i) && Ends(all[i], second); }
    if Started(all, |log|) && Ends(e, second) { assert Ends(all[|log|], second); }
    if i: nat :| Started(all, i) && Ends(all[i], second) {
      if i < |log| { assert Started(log, i) && Ends(log[i], second); }
    }
  }

  ghost predicate HasRecord(log: Log) { exists j :: 0 <= j < |log| && IsRecord(log[j]) }

  lemma FrontierSnoc(log: Log, e: Event, second: int)
    ensures var was, now := Frontier(log), Frontier(log + [e]);
            && (now.Some? <==> was.Some? || IsRecord(e))
            && StartOf(log + [e]) == (if was.Some? then StartOf(log)
                                      else if IsRecord(e) then TimeOf(e).value.Floor else 0)
            && (now.Some? ==>
                  (second < now.value <==>
                     Ends(e, second) || second < if was.Some? then was.value else StartOf(log + [e])))
  {
    assert (log + [e])[..|log|] == log;
    hide Frontier;
    assert Frontier(log + [e]).None? || Frontier(log + [e]).Some?;
    FrontierOf(log, e);
    if TimeOf(e).Some? { assert second < FirstOpen(TimeOf(e).value) <==> Ends(e, second); }
  }

  lemma FrontierOf(log: Log, e: Event)
    ensures var was := Frontier(log);
            Frontier(log + [e]) ==
            if was.None? && !IsRecord(e) then None
            else Some(MaxInt(if was.Some? then was.value else TimeOf(e).value.Floor,
                             if TimeOf(e).Some? then FirstOpen(TimeOf(e).value) else e.second))
  {
    hide FirstOpen;
    assert (log + [e])[..|log|] == log;
  }

  /** Completion starts at the second of the first record, and a later second is complete exactly when
      an event since then is past its end and its grace, or closes it. */
  lemma {:induction false} FrontierExactly(log: Log, second: int)
    ensures Frontier(log).Some? <==> HasRecord(log)
    ensures forall i: nat :: FirstRecord(log, i) ==> StartOf(log) == TimeOf(log[i]).value.Floor
    ensures Frontier(log).Some? ==>
              (second < Frontier(log).value <==> second < StartOf(log) || Ended(log, second))
  {
    if log != [] {
      var front, e := log[..|log| - 1], log[|log| - 1];
      assert log == front + [e] && forall j :: 0 <= j < |front| ==> front[j] == log[j];
      FrontierExactly(front, second);
      EndedSnoc(front, e, second);
      FrontierSnoc(front, e, second);
      assert !HasRecord(front) ==> !Ended(front, second);
      hide Frontier, StartOf, Ended, Started, IsRecord, Ends;
      assert HasRecord(log) <==> HasRecord(front) || IsRecord(e);
      forall i: nat | FirstRecord(log, i) ensures StartOf(log) == TimeOf(log[i]).value.Floor {
        if i < |front| { assert FirstRecord(front, i) && HasRecord(front); } else { assert !HasRecord(front); }
      }
    }
  }

  // ----- the counts of rows -----

  predicate FrameIn(e: Event, from: real, low: real, high: real) {
    && e.Arrival? && e.record.FrameRecord?
    && from <= e.record.frame.timestamp && low <= e.record.frame.timestamp < high
  }

  /** How many frames the log has for an interval from a cut on. */
  function HowManyFrames(log: Log, from: real, low: real, high: real): nat {
    if log == [] then 0
    else HowManyFrames(log[..|log| - 1], from, low, high) + if FrameIn(log[|log| - 1], from, low, high) then 1 else 0
  }

  /** How many of them are intact, of one BSSID or of any, and have an aspect. */
  function HowManyLogged(log: Log, from: real, low: real, high: real, known: set<Address>, of: Option<Address>,
      a: Aspect): nat
  {
    if log == [] then 0
    else
      var e := log[|log| - 1];
      HowManyLogged(log[..|log| - 1], from, low, high, known, of, a)
        + if FrameIn(e, from, low, high) && Counts(e.record.frame, known, of, a) then 1 else 0
  }

  predicate Counts(f: Frame, known: set<Address>, of: Option<Address>, a: Aspect) {
    !f.badFcs && (of.Some? ==> BelongsTo(f, known, of.value)) && Has(a, f)
  }

  lemma CountsAnywhere(f: Frame, known: set<Address>, of: Option<Address>, a: Aspect)
    ensures Counts(f, known, of, a) <==> CountsFor(Sight(f, known, Anywhere), of) && Has(a, f)
  {
    hide BelongsTo, Has;
  }

  lemma HowManySnoc(frames: seq<Frame>, f: Frame, known: set<Address>, of: Option<Address>, a: Aspect)
    ensures HowMany(Sights(frames + [f], known, Anywhere), of, a)
            == HowMany(Sights(frames, known, Anywhere), of, a) + if Counts(f, known, of, a) then 1 else 0
  {
    CountsAnywhere(f, known, of, a);
    hide CountsFor, Has, Counts;
    var xs := Sights(frames + [f], known, Anywhere);
    assert xs == Sights(frames, known, Anywhere) + [Sight(f, known, Anywhere)];
  }

  lemma {:induction false} HowManyInserted(w: Stored, x: Stamped<Frame>, known: set<Address>, of: Option<Address>,
      a: Aspect)
    ensures HowMany(Sights(Values(Insert(w, x)), known, Anywhere), of, a)
            == HowMany(Sights(Values(w), known, Anywhere), of, a) + if Counts(x.value, known, of, a) then 1 else 0
  {
    hide HowMany, Sights, Counts;
    if w == [] || w[|w| - 1].time <= x.time {
      ValuesConcat(w, [x]);
      assert Values([x]) == [x.value];
      HowManySnoc(Values(w), x.value, known, of, a);
    } else {
      var front, last := w[..|w| - 1], w[|w| - 1];
      assert w == front + [last];
      ValuesConcat(front, [last]);
      ValuesConcat(Insert(front, x), [last]);
      assert Values([last]) == [last.value];
      HowManyInserted(front, x, known, of, a);
      HowManySnoc(Values(front), last.value, known, of, a);
      HowManySnoc(Values(Insert(front, x)), last.value, known, of, a);
    }
  }

  lemma WindowOf(log: Log, e: Event, from: real, low: real, high: real)
    ensures var w, next := Within(From(LogFrames(log), from), low, high),
                           Within(From(LogFrames(log + [e]), from), low, high);
            if FrameIn(e, from, low, high) then next == Insert(w, Stamped(e.record.frame.timestamp, e.record.frame))
            else next == w
  {
    var start := if low < from then from else low;
    WithinFrom(LogFrames(log), from, low, high);
    WithinFrom(LogFrames(log + [e]), from, low, high);
    assert (log + [e])[..|log|] == log;
    LogSorted(log, [0, 0, 0, 0, 0, 0]);
    if e.Arrival? && e.record.FrameRecord? {
      WithinInsert(LogFrames(log), Stamped(e.record.Time(), e.record.frame), start, high);
    }
  }

  /** The frames of an interval, counted frame by frame as they came. */
  lemma {:induction false} LoggedExactly(log: Log, from: real, low: real, high: real, known: set<Address>,
      of: Option<Address>, a: Aspect)
    ensures var frames := Slice(From(LogFrames(log), from), low, high);
            && |frames| == HowManyFrames(log, from, low, high)
            && HowMany(Sights(frames, known, Anywhere), of, a) == HowManyLogged(log, from, low, high, known, of, a)
  {
    hide Counts, Has;
    if log != [] {
      var front, e := log[..|log| - 1], log[|log| - 1];
      assert log == front + [e];
      LoggedExactly(front, from, low, high, known, of, a);
      WindowOf(front, e, from, low, high);
      var w := Within(From(LogFrames(front), from), low, high);
      hide LogFrames, From, Within, Insert, HowMany;
      if FrameIn(e, from, low, high) {
        HowManyInserted(w, Stamped(e.record.frame.timestamp, e.record.frame), known, of, a);
      }
    }
  }

  /** The counts of one pass over an interval are those of the frames that came for it. */
  lemma PassExactly(p: FrameProjection, log: Log, from: real, low: real, high: real, known: set<Address>)
    requires Agree(p, Project(Slice(From(LogFrames(log), from), low, high), known, Anywhere))
    ensures p.frameCount == HowManyFrames(log, from, low, high)
    ensures p.retryObserved == HowManyLogged(log, from, low, high, known, None, Readable)
    ensures p.retryEligible == HowManyLogged(log, from, low, high, known, None, Counting)
    ensures p.retries == HowManyLogged(log, from, low, high, known, None, Retried)
  {
    var frames := Slice(From(LogFrames(log), from), low, high);
    BatchIsSights(frames, known, Anywhere);
    ProjectionExactly(Sights(frames, known, Anywhere));
    LoggedExactly(log, from, low, high, known, None, Readable);
    LoggedExactly(log, from, low, high, known, None, Counting);
    LoggedExactly(log, from, low, high, known, None, Retried);
    hide Project, LogFrames, From, Slice, HowMany, HowManyLogged, ProjectSights, AllOrdered;
  }

  /** And those of every BSSID. */
  lemma BssidPassExactly(p: FrameProjection, log: Log, from: real, low: real, high: real, known: set<Address>,
      b: Address)
    requires Agree(p, Project(Slice(From(LogFrames(log), from), low, high), known, Anywhere))
    ensures var s := SummaryOf(p.byBssid, b);
            && s.frameCount == HowManyLogged(log, from, low, high, known, Some(b), Whatever)
            && s.retryObserved == HowManyLogged(log, from, low, high, known, Some(b), Readable)
            && s.retryEligible == HowManyLogged(log, from, low, high, known, Some(b), Counting)
            && s.retries == HowManyLogged(log, from, low, high, known, Some(b), Retried)
  {
    var frames := Slice(From(LogFrames(log), from), low, high);
    BatchIsSights(frames, known, Anywhere);
    SummaryExactly(Sights(frames, known, Anywhere), b);
    LoggedExactly(log, from, low, high, known, Some(b), Whatever);
    LoggedExactly(log, from, low, high, known, Some(b), Readable);
    LoggedExactly(log, from, low, high, known, Some(b), Counting);
    LoggedExactly(log, from, low, high, known, Some(b), Retried);
    hide Project, LogFrames, From, Slice, HowMany, HowManyLogged, ProjectSights, AllOrdered, Occurs, Shown;
  }

  /** Every row counts, in its second and in its window, exactly the frames that came by the event that
      completed it, from the time its frames begin on. */
  lemma RowCounts(row: Row, m: Made, log: Log, second: int, window: nat)
    requires RowOk(row, m, log, second, window)
    ensures var before, known, start, end := log[..m.events], row.beacons.Keys, second as real, (second + 1) as real;
            var low := end - window as real;
            && row.frames.frameCount == HowManyFrames(before, m.from, start, end)
            && row.frames.retryObserved == HowManyLogged(before, m.from, start, end, known, None, Readable)
            && row.frames.retryEligible == HowManyLogged(before, m.from, start, end, known, None, Counting)
            && row.frames.retries == HowManyLogged(before, m.from, start, end, known, None, Retried)
            && row.windowFrames.frameCount == HowManyFrames(before, m.from, low, end)
            && row.windowFrames.retryObserved == HowManyLogged(before, m.from, low, end, known, None, Readable)
            && row.windowFrames.retryEligible == HowManyLogged(before, m.from, low, end, known, None, Counting)
            && row.windowFrames.retries == HowManyLogged(before, m.from, low, end, known, None, Retried)
  {
    hide *;
    RowFacts(row, m, log, second, window);
    var before, end := log[..m.events], (second + 1) as real;
    RowWindow(row, before, m.cut, m.from, window);
    SelfAgrees(Project(Slice(From(LogFrames(before), m.from), second as real, end), row.beacons.Keys, Anywhere));
    PassExactly(row.frames, before, m.from, second as real, end, row.beacons.Keys);
    PassExactly(row.windowFrames, before, m.from, end - window as real, end, row.beacons.Keys);
  }

  lemma SelfAgrees(p: FrameProjection)
    ensures Agree(p, p)
  {}
}
