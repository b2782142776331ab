/** One logging session: a bounded queue that never makes the capture wait, and a writer thread that
    takes records in batches and stamps them with the metadata in force. */
module LogWriter {

  type Metadata = int

  datatype Record = Beacon(id: int) | Stats(id: int) | Update(metadata: Metadata)

  datatype Line = Line(record: Record, metadata: Metadata)

  const BATCH: nat := 256

  // ----- what a log should hold -----

  /** The metadata in force after some records. */
  function InForce(records: seq<Record>, first: Metadata): Metadata {
    if records == [] then first
    else if records[|records| - 1].Update? then records[|records| - 1].metadata
    else InForce(records[..|records| - 1], first)
  }

  /** Every beacon and statistics row, in order, with the last update accepted before it. */
  function Stamped(records: seq<Record>, first: Metadata): seq<Line> {
    if records == [] then []
    else
      var front, r := records[..|records| - 1], records[|records| - 1];
      if r.Update? then Stamped(front, first) else Stamped(front, first) + [Line(r, InForce(front, first))]
  }

  lemma {:induction false} InForceSplit(a: seq<Record>, b: seq<Record>, first: Metadata)
    ensures InForce(a + b, first) == InForce(b, InForce(a, first))
  {
    if b == [] {
      assert a + b == a;
    } else {
      assert (a + b)[..|a + b| - 1] == a + b[..|b| - 1];
      InForceSplit(a, b[..|b| - 1], first);
    }
  }

  lemma {:induction false} StampedSplit(a: seq<Record>, b: seq<Record>, first: Metadata)
    ensures Stamped(a + b, first) == Stamped(a, first) + Stamped(b, InForce(a, first))
  {
    if b == [] {
      assert a + b == a;
    } else {
      assert (a + b)[..|a + b| - 1] == a + b[..|b| - 1];
      StampedSplit(a, b[..|b| - 1], first);
      InForceSplit(a, b[..|b| - 1], first);
    }
  }

  /** m comes from the last update, or from the start when there is none. */
  ghost predicate Newest(records: seq<Record>, first: Metadata, m: Metadata) {
    || ((forall j :: 0 <= j < |records| ==> !records[j].Update?) && m == first)
    || exists j :: LastUpdate(records, j, m)
  }

  ghost predicate LastUpdate(records: seq<Record>, j: nat, m: Metadata) {
    j < |records| && records[j] == Update(m) && forall k :: j < k < |records| ==> !records[k].Update?
  }

  lemma {:induction false} InForceMeans(records: seq<Record>, first: Metadata)
    ensures Newest(records, first, InForce(records, first))
  {
    if records != [] {
      var front, r := records[..|records| - 1], records[|records| - 1];
      InForceMeans(front, first);
      if r.Update? {
        assert LastUpdate(records, |records| - 1, r.metadata);
      } else if j: nat :| LastUpdate(front, j, InForce(front, first)) {
        assert LastUpdate(records, j, InForce(front, first));
      }
    }
  }

  ghost predicate LineAt(records: seq<Record>, first: Metadata, line: Line, i: nat) {
    i < |records| && !records[i].Update? && line.record == records[i] && Newest(records[..i], first, line.metadata)
  }

  /** Each line is some accepted record under the newest update before it, or the session's own. */
  lemma {:induction false} StampMeans(records: seq<Record>, first: Metadata, n: nat)
    requires n < |Stamped(records, first)|
    ensures exists i :: LineAt(records, first, Stamped(records, first)[n], i)
  {
    hide Newest;
    var front, line := records[..|records| - 1], Stamped(records, first)[n];
    if n < |Stamped(front, first)| {
      StampMeans(front, first, n);
      var i: nat :| LineAt(front, first, line, i);
      assert front[..i] == records[..i];
      assert LineAt(records, first, line, i);
    } else {
      InForceMeans(front, first);
      assert LineAt(records, first, line, |records| - 1);
    }
  }

  /** How many of some records are to have a line: beacons and statistics. */
  function Rows(records: seq<Record>): nat {
    if records == [] then 0
    else
      var r := records[|records| - 1];
      Rows(records[..|records| - 1]) + if r.Beacon? || r.Stats? then 1 else 0
  }

  /** Every beacon and statistics record has its line, placed after the lines of the earlier ones and
      of no others, under the newest update before it; and there are no more lines than these. */
  lemma {:induction false} StampedExactly(records: seq<Record>, first: Metadata, i: nat)
    requires i < |records|
    ensures |Stamped(records, first)| == Rows(records)
    ensures var n, lines := Rows(records[..i]), Stamped(records, first);
            records[i].Beacon? || records[i].Stats? ==>
              n < |lines| && lines[n].record == records[i] && Newest(records[..i], first, lines[n].metadata)
  {
    hide Newest;
    var front := records[..|records| - 1];
    if i < |front| {
      StampedExactly(front, first, i);
      assert front[..i] == records[..i];
    } else {
      if front != [] { StampedExactly(front, first, 0); } else { assert Stamped(front, first) == []; }
      InForceMeans(front, first);
      assert Stamped(front, first) <= Stamped(records, first);
    }
  }

  // ----- the writer -----

  class CaptureLogWriter {
    var metadata: Metadata
    var lines: seq<Line>
    ghost var faults: nat     // how many operations on the files failed

    constructor (m: Metadata)
      ensures metadata == m && lines == [] && faults == 0
    {
      metadata, lines, faults := m, [], 0;
    }

    /** One batch; when an operation on the files fails, only a part of it was written. */
    method WriteRecords(batch: seq<Record>) returns (ok: bool)
      modifies this
      ensures faults == old(faults) + if ok then 0 else 1
      ensures ok ==> lines == old(lines) + Stamped(batch, old(metadata)) && metadata == InForce(batch, old(metadata))
      ensures exists n :: 0 <= n <= |batch| && lines == old(lines) + Stamped(batch[..n], old(metadata))
    {
      assert batch[..0] == [];
      for i := 0 to |batch|
        invariant faults == old(faults) && lines == old(lines) + Stamped(batch[..i], old(metadata))
          && metadata == InForce(batch[..i], old(metadata))
      {
        assert batch[..i + 1][..i] == batch[..i];
        if * {
          faults := faults + 1;
          return false;
        }
        match batch[i] {
          case Update(m) => metadata := m;
          case r => lines := lines + [Line(r, metadata)];
        }
      }
      assert batch[..|batch|] == batch;
      ok := *;
      if !ok { faults := faults + 1; }
    }
  }

  // ----- the service -----

  datatype Entry = Item(record: Record) | StopMark

  function Records(queue: seq<Entry>): seq<Record> {
    if queue == [] then []
    else Records(queue[..|queue| - 1]) + RecordOf(queue[|queue| - 1])
  }

  function RecordOf(e: Entry): seq<Record> { if e.Item? then [e.record] else [] }

  lemma {:induction false} RecordsFirst(queue: seq<Entry>)
    requires queue != []
    ensures Records(queue) == RecordOf(queue[0]) + Records(queue[1..])
  {
    var front, rest, last := queue[..|queue| - 1], queue[1..], queue[|queue| - 1];
    assert Records(queue) == Records(front) + RecordOf(last);
    if rest == [] {
      assert front == [] && Records([]) == [];
    } else {
      RecordsFirst(front);
      assert front[1..] == rest[..|rest| - 1] && front[0] == queue[0] && rest[|rest| - 1] == last;
      assert Records(rest) == Records(rest[..|rest| - 1]) + RecordOf(last);
      hide Records, RecordOf;
    }
  }

  /** A stop mark can only be the last thing in the queue. */
  ghost predicate StopIsLast(queue: seq<Entry>) {
    forall k :: 0 <= k < |queue| - 1 ==> queue[k].Item?
  }

  ghost predicate StopFree(queue: seq<Entry>) {
    forall e :: e in queue ==> e.Item?
  }

  datatype Phase = Off | Idle | Collecting | Done

  /** One session: the metadata it started with, the records its queue accepted, those in batches
      already handed to the writer, how many were offered, and how many were sampled before it. */
  datatype Session = Session(first: Metadata, accepted: seq<Record>, taken: seq<Record>, offered: nat, before: nat) {
    ghost predicate Counted(sampled: nat) { |accepted| <= offered && sampled == before + (offered - |accepted|) }

    ghost predicate Accounts(batch: seq<Record>, queue: seq<Entry>) { accepted == taken + batch + Records(queue) }

    ghost predicate Written(lines: seq<Line>, metadata: Metadata) {
      lines == Stamped(taken, first) && metadata == InForce(taken, first)
    }
  }

  lemma Queued(s: Session, batch: seq<Record>, queue: seq<Entry>, r: Record)
    requires s.Accounts(batch, queue) && StopFree(queue)
    ensures s.(accepted := s.accepted + [r]).Accounts(batch, queue + [Item(r)])
    ensures StopFree(queue + [Item(r)]) && StopIsLast(queue + [Item(r)])
  {
    assert (queue + [Item(r)])[..|queue|] == queue;
    assert s.accepted + [r] == s.taken + batch + (Records(queue) + [r]);
  }

  lemma FreshSession(first: Metadata, sampled: nat)
    ensures var s := Session(first, [], [], 0, sampled);
            s.Counted(sampled) && s.Accounts([], []) && s.Written([], first) && StopIsLast([]) && StopFree([])
  {}

  lemma Marked(s: Session, batch: seq<Record>, queue: seq<Entry>)
    requires s.Accounts(batch, queue) && StopFree(queue)
    ensures s.Accounts(batch, queue + [StopMark]) && StopIsLast(queue + [StopMark])
  {
    assert (queue + [StopMark])[..|queue|] == queue;
    assert Records(queue) + [] == Records(queue);
  }

  lemma Taken(s: Session, batch: seq<Record>, queue: seq<Entry>)
    requires s.Accounts(batch, queue) && StopIsLast(queue) && queue != []
    ensures StopIsLast(queue[1..])
    ensures if queue[0].Item? then s.Accounts(batch + [queue[0].record], queue[1..])
            else queue[1..] == [] && s.Accounts(batch, [])
  {
    RecordsFirst(queue);
    assert s.taken + batch + Records(queue) == s.taken + batch + (RecordOf(queue[0]) + Records(queue[1..]));
    if queue[0].Item? {
      assert s.taken + batch + ([queue[0].record] + Records(queue[1..]))
        == s.taken + (batch + [queue[0].record]) + Records(queue[1..]);
    } else {
      assert queue[1..] == [];
      assert [] + Records(queue[1..]) == [];
    }
  }

  lemma Flushed(s: Session, batch: seq<Record>, queue: seq<Entry>)
    requires s.Accounts(batch, queue)
    ensures s.(taken := s.taken + batch).Accounts([], queue)
    ensures forall lines, m :: s.Written(lines, m) ==>
              s.(taken := s.taken + batch).Written(lines + Stamped(batch, m), InForce(batch, m))
  {
    StampedSplit(s.taken, batch, s.first);
    InForceSplit(s.taken, batch, s.first);
    assert s.taken + batch + [] == s.taken + batch;
  }

  class LoggingService {
    const capacity: nat
    var metadata: Metadata
    var active: bool
    var sampled: nat
    var sampling: bool
    var writeFailed: bool
    var queue: seq<Entry>
    var writer: CaptureLogWriter
    var phase: Phase          // of the writer thread
    var batch: seq<Record>
    var stopSeen: bool
    var failed: bool          // the writer thread gave up writing

    ghost var session: Session

    ghost predicate Valid()
      reads this, writer
    {
      && 0 < capacity && |queue| <= capacity && |batch| <= 256 && StopIsLast(queue)
      && session.Counted(sampled) && session.Accounts(batch, queue)
      && (active ==> (phase.Idle? || phase.Collecting?) && !stopSeen && StopFree(queue))
      && (phase.Done? ==> queue == [] && stopSeen) && (phase.Off? ==> !active)
      && (phase.Collecting? <==> batch != []) && (stopSeen ==> queue == []) && (phase.Idle? ==> !stopSeen)
      && (failed <==> writer.faults > 0) && (active ==> writeFailed == failed)
      && (!failed ==> session.Written(writer.lines, writer.metadata))
    }

    constructor (m: Metadata, size: nat)
      requires size > 0
      ensures Valid() && !active && metadata == m && capacity == size && phase.Off? && sampled == 0 && fresh(writer)
      ensures !sampling && !writeFailed && !failed && !stopSeen
    {
      capacity, metadata, active, sampled, sampling, writeFailed := size, m, false, 0, false, false;
      queue, phase, batch, stopSeen, failed := [], Off, [], false, false;
      writer := new CaptureLogWriter(m);
      session := Session(m, [], [], 0, 0);
    }

    method Start() returns (ok: bool)
      requires Valid() && (phase.Off? || phase.Done? || active)
      modifies this
      ensures Valid() && ok == !old(active) && metadata == old(metadata) && sampled == old(sampled)
      ensures ok ==> active && phase.Idle? && queue == [] && fresh(writer) && writer.faults == 0
      ensures ok ==> session == Session(metadata, [], [], 0, sampled) && !sampling && !writeFailed
      ensures !ok ==> writer == old(writer) && session == old(session) && phase == old(phase)
    {
      hide StopFree, StopIsLast, Records, Stamped, InForce, Session.Counted, Session.Accounts, Session.Written;
      if active { return false; }
      FreshSession(metadata, sampled);
      writer := new CaptureLogWriter(metadata);
      active, writeFailed, sampling, failed, stopSeen := true, false, false, false, false;
      queue, batch, phase := [], [], Idle;
      session := Session(metadata, [], [], 0, sampled);
      ok := true;
    }

    /** A record that finds the queue full is counted, never waited for. */
    method Enqueue(r: Record)
      requires Valid()
      modifies this`queue, this`sampled, this`sampling, this`session
      ensures Valid()
      ensures !active ==> session == old(session) && sampled == old(sampled) && queue == old(queue)
      ensures active ==> session == old(session).(offered := old(session).offered + 1, accepted := session.accepted)
      ensures active && |old(queue)| < capacity ==>
                && queue == old(queue) + [Item(r)] && session.accepted == old(session).accepted + [r]
                && sampled == old(sampled) && sampling == old(sampling)
      ensures active && |old(queue)| == capacity ==>
                && queue == old(queue) && session.accepted == old(session).accepted
                && sampled == old(sampled) + 1 && sampling
    {
      hide StopFree, StopIsLast, Records, Stamped, InForce;
      if !active { return; }
      if |queue| >= capacity {
        sampled, sampling := sampled + 1, true;
        session := session.(offered := session.offered + 1);
      } else {
        Queued(session, batch, queue, r);
        queue := queue + [Item(r)];
        session := session.(offered := session.offered + 1, accepted := session.accepted + [r]);
      }
    }

    method UpdateMetadata(m: Metadata)
      requires Valid()
      modifies this`metadata, this`queue, this`sampled, this`sampling, this`session
      ensures Valid() && metadata == m
      ensures active && |old(queue)| < capacity ==> session.accepted == old(session).accepted + [Update(m)]
    {
      hide StopFree, StopIsLast, Session.Counted, Session.Accounts, Session.Written;
      metadata := m;
      Enqueue(Update(m));
    }

    /** The thread takes the next entry: into a batch, or as the order to end. */
    method Take()
      requires Valid() && (phase.Idle? || phase.Collecting?) && queue != [] && |batch| < BATCH
      modifies this`queue, this`batch, this`phase, this`stopSeen
      ensures Valid() && |queue| == |old(queue)| - 1 && (phase.Collecting? || phase.Done?)
      ensures StopMarkIn(old(queue)) ==> StopMarkIn(queue) || stopSeen
      ensures StopFree(old(queue)) && !old(stopSeen) ==> StopFree(queue) && !stopSeen && phase.Collecting?
    {
      hide StopIsLast, StopFree, Records, Session.Counted, Session.Accounts, Session.Written;
      Taken(session, batch, queue);
      TakenStop(queue);
      var e := queue[0];
      queue := queue[1..];
      if e.StopMark? {
        stopSeen := true;
        if phase.Idle? { phase := Done; }
      } else {
        batch, phase := batch + [e.record], Collecting;
      }
    }

    /** The thread hands its batch to the writer. After a failure it only empties the queue. */
    method Flush()
      requires Valid() && phase.Collecting?
      modifies this`batch, this`phase, this`failed, this`writeFailed, this`session, writer
      ensures Valid() && batch == [] && phase == (if stopSeen then Done else Idle)
      ensures session == old(session).(taken := session.taken) && (old(failed) ==> failed)
      ensures !old(failed) && !failed ==> writer.lines == old(writer.lines) + Stamped(old(batch), old(writer.metadata))
    {
      hide StopIsLast, StopFree, Records, Session.Accounts, Session.Written, Stamped, InForce;
      Flushed(session, batch, queue);
      session := session.(taken := session.taken + batch);
      if !failed {
        var ok := writer.WriteRecords(batch);
        if !ok { failed, writeFailed := true, true; }
      }
      batch, phase := [], if stopSeen then Done else Idle;
    }

    /** The order to end goes on the queue behind everything accepted, and the thread is waited for. */
    method Stop() returns (ok: bool)
      requires Valid()
      modifies this, writer
      ensures Valid() && ok == old(active) && !active && metadata == old(metadata) && sampled == old(sampled)
      ensures ok ==> phase.Done? && session == old(session).(taken := old(session).accepted) && writer == old(writer)
      ensures ok ==> !writeFailed
      ensures ok && writer.faults == 0 ==> writer.lines == Stamped(session.accepted, session.first)
    {
      hide StopIsLast, StopFree, StopMarkIn, Records, Session.Counted, Session.Accounts, Session.Written, Stamped,
        InForce;
      if !active { return false; }
      ghost var was := session;
      active := false;
      while |queue| >= capacity
        invariant Valid() && !active && (phase.Idle? || phase.Collecting?) && StopFree(queue) && !stopSeen
        invariant session == was.(taken := session.taken) && writer == old(writer)
        invariant metadata == old(metadata) && sampled == old(sampled)
        decreases |queue|, if phase.Collecting? then 1 else 0
      {
        Advance();
      }
      Marked(session, batch, queue);
      MarkIsIn(queue);
      queue := queue + [StopMark];
      while !phase.Done?
        invariant Valid() && !active && !phase.Off? && (StopMarkIn(queue) || stopSeen)
        invariant session == was.(taken := session.taken) && writer == old(writer)
        invariant metadata == old(metadata) && sampled == old(sampled)
        decreases |queue|, if phase.Collecting? then 1 else 0
      {
        EmptyHasNone(queue);
        Advance();
      }
      AllTaken(session);
      writeFailed, ok := false, true;
    }

    /** One file after another: the old one ends with everything its queue accepted. */
    method Rotate() returns (clean: bool)
      requires Valid() && active
      modifies this, writer
      ensures Valid() && active && fresh(writer) && session == Session(metadata, [], [], 0, sampled)
      ensures metadata == old(metadata) && sampled == old(sampled)
      ensures clean <==> old(writer).faults == 0
      ensures clean ==> old(writer).lines == Stamped(old(session).accepted, old(session).first)
    {
      hide StopIsLast, StopFree, Records, Session.Counted, Session.Accounts, Session.Written, Stamped, InForce;
      var stopped := Stop();
      clean := !failed;
      var started := Start();
    }

    /** Any step the thread can take. */
    method Advance()
      requires Valid() && (phase.Collecting? || (phase.Idle? && queue != []))
      modifies this`queue, this`batch, this`phase, this`stopSeen, this`failed, this`writeFailed, this`session, writer
      ensures Valid() && session == old(session).(taken := session.taken)
      ensures |queue| < |old(queue)| || (|queue| == |old(queue)| && old(phase).Collecting? && !phase.Collecting?)
      ensures phase.Idle? || phase.Collecting? || phase.Done?
      ensures StopMarkIn(old(queue)) || old(stopSeen) ==> StopMarkIn(queue) || stopSeen
      ensures StopFree(old(queue)) && !old(stopSeen) ==> StopFree(queue) && !stopSeen && !phase.Done?
    {
      hide StopIsLast, Records, Session.Counted, Session.Accounts, Session.Written, Stamped, InForce;
      var more := *;
      if phase.Idle? || (more && queue != [] && |batch| < BATCH) { Take(); } else { Flush(); }
    }
  }

  ghost predicate StopMarkIn(queue: seq<Entry>) { StopMark in queue }

  lemma TakenStop(queue: seq<Entry>)
    requires queue != []
    ensures StopMarkIn(queue) && queue[0].Item? ==> StopMarkIn(queue[1..])
    ensures StopFree(queue) ==> queue[0].Item? && StopFree(queue[1..])
  {
    assert queue == [queue[0]] + queue[1..];
  }

  lemma MarkIsIn(queue: seq<Entry>)
    ensures StopMarkIn(queue + [StopMark])
  {}

  lemma EmptyHasNone(queue: seq<Entry>)
    ensures queue == [] ==> !StopMarkIn(queue)
  {}

  lemma AllTaken(s: Session)
    requires s.Accounts([], [])
    ensures s.taken == s.accepted
    ensures forall lines, m :: s.Written(lines, m) ==> lines == Stamped(s.accepted, s.first)
  {}
}
