/** The managed capture session: an owner process whose runtime publishes its lifecycle through a
    latest-wins channel, and the broker that serialises controls and keeps the publication that
    clients read. */
module Session {
  import opened Wrappers

  datatype Phase = Idle | Starting | Running | Stopping | Stopped | Failed

  predicate Active(p: Phase) { p.Starting? || p.Running? || p.Stopping? }

  predicate Terminal(p: Phase) { p.Stopped? || p.Failed? }

  /** How far a session has come. */
  function Rank(p: Phase): nat {
    match p
    case Idle => 0
    case Starting => 1
    case Running => 2
    case Stopping => 3
    case Stopped => 4
    case Failed => 4
  }

  datatype Config = Config(source: int, exportDirectory: bool, loggingFormats: bool, startLogging: bool,
    startExport: bool)

  datatype Publication = Publication(session: nat, revision: nat, phase: Phase, config: Config, error: bool)

  function Waiting(link: seq<Publication>, latest: Option<Publication>): seq<Publication> {
    if latest.Some? then link + [latest.value] else link
  }

  predicate InRange(p: Publication, session: nat, phase: Phase, revision: nat) {
    && p.session == session && p.revision <= revision && 1 <= Rank(p.phase) <= Rank(phase)
    && (Terminal(p.phase) ==> p.phase == phase)
  }

  predicate Precedes(p: Publication, q: Publication) {
    p.revision < q.revision && Rank(p.phase) <= Rank(q.phase) && Active(p.phase)
  }

  /** Publications on their way to the broker: of one session, in order, none behind a final one. */
  ghost predicate Ordered(pubs: seq<Publication>, session: nat, phase: Phase, revision: nat) {
    && (forall i :: 0 <= i < |pubs| ==> InRange(pubs[i], session, phase, revision))
    && (forall i, j :: 0 <= i < j < |pubs| ==> Precedes(pubs[i], pubs[j]))
  }

  /** What one step of the owner may do: go on in its lifecycle, publish where it now is, and lose
      publications nobody has read; but a session that has ended stays as it ended. */
  ghost predicate Evolves(before: seq<Publication>, was: Phase, pubs: seq<Publication>, phase: Phase) {
    && Rank(was) <= Rank(phase) && (Terminal(was) ==> phase == was)
    && (forall p :: p in pubs ==> p in before || (!Terminal(was) && Rank(p.phase) == Rank(phase)))
  }

  /** What the broker shows is never ahead of what is still to come, except for an accepted stop. */
  ghost predicate Ahead(shown: Phase, pubs: seq<Publication>, phase: Phase) {
    if Terminal(shown) then pubs == [] && phase == shown
    else
      && (shown.Stopping? || Rank(shown) <= Rank(phase) || (shown.Starting? && phase.Idle?))
      && (shown.Stopping? || forall p :: p in pubs ==> Rank(shown) <= Rank(p.phase))
  }

  /** The newest publication on its way is where the owner now is. */
  ghost predicate UpToDate(pubs: seq<Publication>, phase: Phase, revision: nat) {
    pubs != [] ==> pubs[|pubs| - 1].phase == phase && pubs[|pubs| - 1].revision == revision
  }

  /** A living owner never takes back its newest publication. */
  ghost predicate StillTold(before: seq<Publication>, was: Phase, pubs: seq<Publication>, phase: Phase) {
    pubs == [] ==> before == [] && phase == was
  }

  /** With nothing left to read, what is shown is at least as far as the owner is. */
  ghost predicate CaughtUp(shown: Phase, pubs: seq<Publication>, phase: Phase) {
    pubs == [] ==> phase.Idle? || Rank(phase) <= Rank(shown)
  }

  lemma AheadKept(shown: Phase, before: seq<Publication>, was: Phase, pubs: seq<Publication>, phase: Phase)
    requires Ahead(shown, before, was) && Evolves(before, was, pubs, phase)
    requires forall p :: p in pubs ==> 1 <= Rank(p.phase)
    ensures Ahead(shown, pubs, phase)
  {
    MemberOrEmpty(pubs);
  }

  lemma MemberOrEmpty(pubs: seq<Publication>)
    ensures pubs == [] || exists p :: p in pubs
  {
    if pubs != [] { assert pubs[0] in pubs; }
  }

  /** The newest publication takes the place of one not yet queued. */
  lemma Replaced(link: seq<Publication>, latest: Option<Publication>, was: Phase, revision: nat, p: Publication)
    requires Ordered(Waiting(link, latest), p.session, was, revision) && p.revision == revision + 1
    requires Rank(was) <= Rank(p.phase) && 1 <= Rank(p.phase) && !Terminal(was)
    ensures Ordered(link + [p], p.session, p.phase, revision + 1)
    ensures Evolves(Waiting(link, latest), was, link + [p], p.phase)
  {
    Front(Waiting(link, latest), |link|, p.session, was, revision);
    assert Waiting(link, latest)[..|link|] == link;
    Snoc(link, was, revision, p);
    hide InRange, Precedes, Ordered;
    assert forall q :: q in link + [p] ==> q in link || q == p;
  }

  lemma NextInRange(q: Publication, was: Phase, revision: nat, p: Publication)
    requires InRange(q, p.session, was, revision) && p.revision == revision + 1
    requires Rank(was) <= Rank(p.phase) && !Terminal(was)
    ensures InRange(q, p.session, p.phase, revision + 1) && Precedes(q, p)
  {}

  lemma Snoc(link: seq<Publication>, was: Phase, revision: nat, p: Publication)
    requires Ordered(link, p.session, was, revision) && p.revision == revision + 1
    requires Rank(was) <= Rank(p.phase) && 1 <= Rank(p.phase) && !Terminal(was)
    ensures Ordered(link + [p], p.session, p.phase, revision + 1)
  {
    assert InRange(p, p.session, p.phase, revision + 1);
    hide InRange, Precedes;
    var after := link + [p];
    forall i | 0 <= i < |link| ensures InRange(after[i], p.session, p.phase, revision + 1) && Precedes(after[i], p) {
      NextInRange(link[i], was, revision, p);
    }
  }

  /** The first publications of some are in order too. */
  lemma Front(pubs: seq<Publication>, n: nat, session: nat, phase: Phase, revision: nat)
    requires Ordered(pubs, session, phase, revision) && n <= |pubs|
    ensures Ordered(pubs[..n], session, phase, revision)
    ensures forall q :: q in pubs[..n] ==> q in pubs
  {
    hide InRange, Precedes;
  }

  lemma Kept(link: seq<Publication>, latest: Option<Publication>, n: nat, session: nat, phase: Phase, revision: nat)
    requires Ordered(Waiting(link, latest), session, phase, revision) && n <= |link|
    ensures Ordered(link[..n], session, phase, revision) && Evolves(Waiting(link, latest), phase, link[..n], phase)
  {
    Front(Waiting(link, latest), n, session, phase, revision);
    assert Waiting(link, latest)[..n] == link[..n];
    hide Ordered;
  }

  /** The owner process: the managed runtime, and its end of the channel. */
  class Owner {
    const session: nat
    var config: Config
    var phase: Phase
    var revision: nat
    var stopRequested: bool
    var latest: Option<Publication>   // not yet queued on the channel
    var link: seq<Publication>       // queued, not yet received by the broker
    var alive: bool
    var signalled: bool

    ghost predicate Valid()
      reads this
    {
      && Ordered(Waiting(link, latest), session, phase, revision) && (phase.Idle? ==> Waiting(link, latest) == [])
      && (alive ==> UpToDate(Waiting(link, latest), phase, revision))
    }

    ghost function Pubs(): seq<Publication>
      reads this
    {
      Waiting(link, latest)
    }

    constructor (id: nat, c: Config)
      ensures Valid() && session == id && config == c && phase.Idle? && revision == 0 && !stopRequested
      ensures Pubs() == [] && alive && !signalled
    {
      session, config, phase, revision, stopRequested := id, c, Idle, 0, false;
      latest, link, alive, signalled := None, [], true, false;
    }

    /** The next revision; only the newest publication is kept for the channel. */
    method Update(next: Phase)
      requires Valid() && Rank(phase) <= Rank(next) && next != Idle && !Terminal(phase)
      modifies this`phase, this`revision, this`latest
      ensures Valid() && Evolves(old(Pubs()), old(phase), Pubs(), phase)
      ensures phase == next && revision == old(revision) + 1
        && latest == Some(Publication(session, revision, phase, config, false))
    {
      hide Ordered, Evolves;
      var p := Publication(session, revision + 1, next, config, false);
      Replaced(link, latest, phase, revision, p);
      revision, phase, latest := revision + 1, next, Some(p);
    }

    /** run: a new session, unless one is active. */
    method Begin()
      requires Valid()
      modifies this`phase, this`revision, this`latest, this`stopRequested
      ensures Valid() && Evolves(old(Pubs()), old(phase), Pubs(), phase)
      ensures StillTold(old(Pubs()), old(phase), Pubs(), phase)
      ensures old(phase).Idle? ==>
                phase.Starting? && !stopRequested
                  && latest == Some(Publication(session, revision, phase, config, false))
      ensures !old(phase).Idle? ==>
                && phase == old(phase) && revision == old(revision) && latest == old(latest)
                && stopRequested == old(stopRequested)
    {
      if !phase.Idle? { return; }
      stopRequested := false;
      Update(Starting);
    }

    method CaptureStarted()
      requires Valid()
      modifies this`phase, this`revision, this`latest
      ensures Valid() && Evolves(old(Pubs()), old(phase), Pubs(), phase)
      ensures StillTold(old(Pubs()), old(phase), Pubs(), phase)
      ensures phase == if old(phase).Starting? then Running else old(phase)
    {
      if phase.Starting? { Update(Running); }
    }

    /** A snapshot, completed rows, health or a notice, from a session that is still active. */
    method Publish(id: nat)
      requires Valid()
      modifies this`phase, this`revision, this`latest
      ensures Valid() && Evolves(old(Pubs()), old(phase), Pubs(), phase)
      ensures StillTold(old(Pubs()), old(phase), Pubs(), phase) && phase == old(phase)
      ensures if id == session && Active(phase)
              then revision == old(revision) + 1 && latest == Some(Publication(session, revision, phase, config, false))
              else revision == old(revision) && latest == old(latest)
    {
      if id == session && Active(phase) { Update(phase); }
    }

    /** A stop for another session, or after the end, changes nothing. */
    method Stop(id: nat) returns (ok: bool)
      requires Valid()
      modifies this`phase, this`revision, this`latest, this`stopRequested
      ensures Valid() && Evolves(old(Pubs()), old(phase), Pubs(), phase)
      ensures StillTold(old(Pubs()), old(phase), Pubs(), phase)
      ensures ok == (id == session && Active(old(phase)))
      ensures if ok then stopRequested && phase.Stopping?
              else phase == old(phase) && revision == old(revision) && stopRequested == old(stopRequested)
    {
      if id != session || !Active(phase) { return false; }
      stopRequested := true;
      if !phase.Stopping? { Update(Stopping); }
      ok := true;
    }

    /** Capture and clean-up have ended, normally, by a signal, or with an error. */
    method Finish(end: Phase)
      requires Valid() && Active(phase) && Terminal(end)
      modifies this`phase, this`revision, this`latest
      ensures Valid() && Evolves(old(Pubs()), old(phase), Pubs(), phase)
      ensures StillTold(old(Pubs()), old(phase), Pubs(), phase) && phase == end
      ensures latest == Some(Publication(session, revision, end, config, false))
    {
      Update(end);
    }

    /** The newest publication is queued; it may replace the last one not yet being sent. */
    method Poll(brokerGone: bool)
      requires Valid()
      modifies this
      ensures Valid() && Evolves(old(Pubs()), old(phase), Pubs(), phase)
      ensures StillTold(old(Pubs()), old(phase), Pubs(), phase) && alive == old(alive) && signalled == old(signalled)
      ensures latest.None? && (old(latest).Some? && alive ==> link != [] && link[|link| - 1].revision == revision)
      ensures if brokerGone && Active(old(phase)) then stopRequested && phase.Stopping?
              else phase == old(phase) && revision == old(revision) && stopRequested == old(stopRequested)
    {
      hide Ordered, Evolves, StillTold, Rank, Terminal;
      ghost var start, was := Pubs(), phase;
      StillEvolves(start, was);
      if brokerGone { var stopped := Stop(session); }
      if latest.Some? {
        ghost var p := latest.value;
        Requeued(link, p, session, start, was, phase, revision);
        Newest(link, p, start, was, phase, revision);
        var unsent := *;
        link := if unsent && link != [] then link[..|link| - 1] + [latest.value] else link + [latest.value];
        latest := None;
      }
    }

    /** The process ends; whatever was not yet on its way is lost. */
    method Exit()
      requires Valid()
      modifies this`alive, this`link, this`latest
      ensures Valid() && Evolves(old(Pubs()), old(phase), Pubs(), phase) && !alive
    {
      var kept: int := *;
      var n := if 0 <= kept <= |link| then kept else |link|;
      hide Ordered, Evolves;
      Kept(link, latest, n, session, phase, revision);
      alive, link, latest := false, link[..n], None;
    }
  }

  lemma StillEvolves(pubs: seq<Publication>, phase: Phase)
    ensures Evolves(pubs, phase, pubs, phase) && StillTold(pubs, phase, pubs, phase)
  {}

  lemma Newest(link: seq<Publication>, p: Publication, start: seq<Publication>, was: Phase, phase: Phase, revision: nat)
    ensures forall l :: l == link + [p] || (link != [] && l == link[..|link| - 1] + [p]) ==>
              l != [] && l[|l| - 1] == p && StillTold(start, was, l, phase)
  {}

  /** A publication may take the place of the one queued before it. */
  lemma Requeued(link: seq<Publication>, p: Publication, session: nat, start: seq<Publication>, was: Phase,
                 phase: Phase, revision: nat)
    requires Ordered(link + [p], session, phase, revision) && Evolves(start, was, link + [p], phase)
    ensures link != [] ==>
              && Ordered(link[..|link| - 1] + [p], session, phase, revision)
              && Evolves(start, was, link[..|link| - 1] + [p], phase)
  {
    hide InRange, Precedes, Rank, Terminal;
    if link != [] {
      var whole, short := link + [p], link[..|link| - 1] + [p];
      forall i | 0 <= i < |short| ensures short[i] == whole[if i < |short| - 1 then i else |link|] {}
      assert Ordered(short, session, phase, revision);
      forall q | q in short ensures q in whole {
        var k :| 0 <= k < |short| && short[k] == q;
        assert q == whole[if k < |short| - 1 then k else |link|];
      }
      assert Evolves(start, was, short, phase);
    }
  }

  // ----- the broker -----

  /** The broker's end of the channel: none, open, or closed by a start that failed. */
  datatype Channel = NoChannel | Open | Shut

  datatype StartKind = Start | Ensure | Join

  datatype Request =
    | Read
    | Begin(kind: StartKind, config: Config, acceptable: bool)
    | Stop(session: nat)
    | Logging(session: nat, enabled: Option<bool>)
    | Export(session: nat, enabled: Option<bool>)
    | Unknown

  datatype Response = Ok(publication: Publication, attached: bool) | Refused

  /** What may happen to the publication clients read: revisions grow with every change, a session's
      phase never goes back, a final phase is final, and sessions are never resumed. */
  ghost predicate Follows(before: Publication, after: Publication) {
    && (after == before || before.revision < after.revision)
    && before.session <= after.session
    && (before.session == after.session ==>
          Rank(before.phase) <= Rank(after.phase) && (Terminal(before.phase) ==> after.phase == before.phase))
  }

  lemma FollowsTransitively(a: Publication, b: Publication, c: Publication)
    requires Follows(a, b) && Follows(b, c)
    ensures Follows(a, c)
  {}

  /** How an incoming publication is shown: a late one cannot undo an accepted stop. */
  function Shown(now: Publication, next: Publication): Publication {
    next.(phase := if now.phase.Stopping? && Active(next.phase) then Stopping
      else next.phase, revision := now.revision + 1)
  }

  /** What is shown after some publications were taken in turn. */
  function ShownAfter(now: Publication, taken: seq<Publication>): Publication {
    if taken == [] then now else Shown(ShownAfter(now, taken[..|taken| - 1]), taken[|taken| - 1])
  }

  lemma ShownNext(now: Publication, link: seq<Publication>, n: nat)
    requires n < |link|
    ensures ShownAfter(now, link[..n + 1]) == Shown(ShownAfter(now, link[..n]), link[n])
    ensures link[n..][1..] == link[n + 1..] && link[n..][0] == link[n]
  {
    assert link[..n + 1][..n] == link[..n];
  }

  lemma FreshAhead()
    ensures Ahead(Starting, [], Idle)
  {}

  lemma Tail(pubs: seq<Publication>, session: nat, phase: Phase, revision: nat)
    requires Ordered(pubs, session, phase, revision) && pubs != []
    ensures Ordered(pubs[1..], session, phase, revision) && InRange(pubs[0], session, phase, revision)
    ensures forall p :: p in pubs[1..] ==> Precedes(pubs[0], p)
  {
    hide InRange, Precedes;
    var rest := pubs[1..];
    assert forall k :: 0 <= k < |rest| ==> rest[k] == pubs[k + 1];
    forall p | p in rest ensures Precedes(pubs[0], p) {
      var k :| 0 <= k < |rest| && rest[k] == p;
      assert pubs[k + 1] == p;
    }
  }

  lemma Accepted(now: Publication, pubs: seq<Publication>, session: nat, phase: Phase, revision: nat)
    requires Ordered(pubs, session, phase, revision) && Ahead(now.phase, pubs, phase) && now.session == session
      && pubs != []
    ensures var p, after := pubs[0], Shown(now, pubs[0]);
            && after.revision == now.revision + 1 && after.config == p.config && after.error == p.error
            && after.phase == (if now.phase.Stopping? && Active(p.phase) then Stopping else p.phase)
            && Follows(now, after) && after.session == session && Ahead(after.phase, pubs[1..], phase)
            && Ordered(pubs[1..], session, phase, revision) && 1 <= Rank(after.phase)
  {
    Tail(pubs, session, phase, revision);
    MemberOrEmpty(pubs[1..]);
    assert pubs[0] in pubs;
    hide Ordered;
  }

  /** Losing the first publications leaves the others in order, and what is shown behind them. */
  lemma Behind(shown: Phase, pubs: seq<Publication>, n: nat, session: nat, phase: Phase, revision: nat)
    requires Ordered(pubs, session, phase, revision) && Ahead(shown, pubs, phase) && n <= |pubs|
    ensures Ordered(pubs[n..], session, phase, revision) && Ahead(shown, pubs[n..], phase)
    ensures UpToDate(pubs, phase, revision) ==> UpToDate(pubs[n..], phase, revision)
  {
    hide InRange, Precedes;
    var rest := pubs[n..];
    assert forall k :: 0 <= k < |rest| ==> rest[k] == pubs[n + k];
    assert forall p :: p in rest ==> p in pubs;
  }

  class ServiceBroker {
    var publication: Publication
    var process: Owner?
    var owner: Channel
    var nextSession: nat
    var loggingRequested: bool
    var exportRequested: bool

    ghost var spawned: nat   // owner processes started
    ghost var reaped: nat    // of which the end has been waited for
    ghost var lost: bool     // a failed read lost all that the owner had published since

    /** An active phase implies a process handle; there is never more than one owner to wait for;
        and what is shown is never ahead of what the owner has still to say. */
    ghost predicate Valid()
      reads this, process
    {
      && publication.session < nextSession
      && spawned == reaped + (if process == null then 0 else 1)
      && (if process == null then owner.NoChannel? && !Active(publication.phase)
          else
            && process.Valid() && process.session == publication.session && publication.phase != Idle
            && (owner.Open? ==> Ahead(publication.phase, process.Pubs(), process.phase))
            && (owner.Open? && process.alive && !lost ==> CaughtUp(publication.phase, process.Pubs(), process.phase))
            && (!owner.Open? ==> Active(publication.phase)))
      && (lost ==> process != null && publication.error && (process.alive ==> process.signalled))
    }

    constructor ()
      ensures Valid() && process == null && owner.NoChannel? && spawned == 0 && nextSession == 1
      ensures publication == Publication(0, 0, Idle, Config(0, false, false, false, false), false)
      ensures !loggingRequested && !exportRequested
    {
      publication := Publication(0, 0, Idle, Config(0, false, false, false, false), false);
      process, owner, nextSession := null, NoChannel, 1;
      loggingRequested, exportRequested, spawned, reaped, lost := false, false, 0, 0, false;
    }

    method Update(phase: Phase, error: bool)
      requires phase == publication.phase || (Rank(publication.phase) <= Rank(phase) && !Terminal(publication.phase))
      modifies this`publication
      ensures publication == old(publication).(
                revision := old(publication).revision + 1, phase := phase, error := error || old(publication).error)
      ensures Follows(old(publication), publication)
    {
      publication := publication.(revision := publication.revision + 1, phase := phase, error := error
        || publication.error);
    }

    /** Takes one publication off the channel. */
    method Accept()
      requires Valid() && owner.Open? && process.link != []
      modifies this`publication, this`lost, process`link
      ensures Valid() && Follows(old(publication), publication) && publication.session == old(publication).session
      ensures !lost
      ensures publication == Shown(old(publication), old(process.link)[0]) && process.link == old(process.link)[1..]
    {
      hide Ordered, Ahead, Follows;
      assert process.Pubs()[0] == process.link[0] && process.Pubs()[1..] == Waiting(process.link[1..], process.latest);
      Accepted(publication, process.Pubs(), process.session, process.phase, process.revision);
      publication := Shown(publication, process.link[0]);
      process.link := process.link[1..];
      lost := false;
    }

    /** A read that fails loses the messages it had taken. */
    method Lose()
      requires Valid() && owner.Open? && publication.error && (process.alive ==> process.signalled)
      modifies this`lost, process`link
      ensures Valid() && exists n :: 0 <= n <= |old(process.link)| && process.link == old(process.link)[n..]
      ensures lost == (old(lost) || (process.alive && process.Pubs() == [] && old(process.link) != []))
    {
      hide Ordered, Ahead, Follows;
      var taken: int := *;
      var n := if 0 <= taken <= |process.link| then taken else 0;
      assert process.Pubs()[n..] == Waiting(process.link[n..], process.latest);
      Behind(publication.phase, process.Pubs(), n, process.session, process.phase, process.revision);
      process.link := process.link[n..];
      lost := lost || (process.alive && process.Pubs() == [] && n > 0);
    }

    /** Takes some of the publications waiting, each as it is to be shown; after a channel error, it says
        so and tells the owner to stop. */
    method ReadOwner() returns (ghost fault: bool)
      requires Valid() && !owner.NoChannel?
      modifies this`publication, this`lost, process
      ensures Valid() && Follows(old(publication), publication) && publication.session == old(publication).session
      ensures process.alive == old(process.alive) && (owner.Shut? ==> fault)
      ensures fault ==> publication.error && (process.alive ==> process.signalled)
      ensures !fault ==> process.signalled == old(process.signalled) && exists n ::
                0 <= n <= |old(process.link)| && process.link == old(process.link)[n..]
                && publication == ShownAfter(old(publication), old(process.link)[..n])
    {
      hide Ordered, Ahead, Follows, Shown;
      SameFollows(publication);
      ghost var first, link, n := publication, process.link, 0;
      var more := owner.Open?;
      while more && process.link != []
        invariant Valid() && Follows(first, publication) && publication.session == first.session
        invariant process.alive == old(process.alive) && process.signalled == old(process.signalled)
        invariant (more ==> owner.Open?) && 0 <= n <= |link| && process.link == link[n..]
        invariant publication == ShownAfter(first, link[..n])
        decreases if more then 1 else 0, |process.link|
      {
        ghost var shown := publication;
        ShownNext(first, link, n);
        Accept();
        n := n + 1;
        FollowsTransitively(first, shown, publication);
        more := *;
      }
      var failed := *;
      fault := failed || owner.Shut?;
      if failed || owner.Shut? {
        ghost var shown := publication;
        Update(publication.phase, true);
        FollowsTransitively(first, shown, publication);
        if process.alive { process.signalled := true; }
        if owner.Open? { Lose(); }
      }
    }

    /** The owner has ended and everything it sent has been read: only now is it let go. */
    method Reap()
      requires Valid() && owner.Open? && !process.alive && process.link == []
      modifies this`publication, this`process, this`owner, this`reaped, this`lost
      ensures Valid() && process == null && reaped == old(reaped) + 1
      ensures Follows(old(publication), publication) && publication.session == old(publication).session
      ensures Terminal(publication.phase)
      ensures if Active(old(publication).phase) then publication.phase.Failed? && publication.error
              else publication == old(publication)
    {
      hide Ordered, Ahead, Follows;
      SameFollows(publication);
      if Active(publication.phase) { Update(Failed, true); }
      process, owner, reaped, lost := null, NoChannel, reaped + 1, false;
    }

    /** Reads what the owner sent, and notices its end. */
    method PollOwner()
      requires Valid()
      modifies this`publication, this`process, this`owner, this`reaped, this`lost, process
      ensures Valid() && Follows(old(publication), publication) && publication.session == old(publication).session
      ensures process == null || (process == old(process) && owner == old(owner) && reaped == old(reaped))
      ensures process == null && old(process) != null ==> !old(process).alive && reaped == old(reaped) + 1
    {
      hide Ordered, Ahead, Follows;
      SameFollows(publication);
      if owner.NoChannel? { return; }
      var fault := ReadOwner();
      var sawEnd := *;
      if sawEnd && owner.Open? && !process.alive && process.link == [] {
        ghost var shown := publication;
        Reap();
        FollowsTransitively(old(publication), shown, publication);
      }
    }

    /** A start that failed after the owner was launched. The owner is signalled; if waiting for
        it times out, the handle is kept, and with it the claim on the radio. */
    method AbandonStart()
      requires Valid() && process != null && publication.phase.Starting? && owner.NoChannel?
      modifies this`publication, this`process, this`owner, this`reaped, this`lost, process`signalled, process`alive
      ensures Valid() && Follows(old(publication), publication) && publication.session == old(publication).session
      ensures publication.config == old(publication).config && !owner.Open? && old(process).signalled
      ensures if process == null then
                publication.phase.Failed? && publication.error && owner.NoChannel? && reaped == old(reaped) + 1
                  && !old(process).alive
              else process == old(process) && publication == old(publication) && reaped == old(reaped)
    {
      hide Ordered, Ahead;
      process.signalled := true;
      var ended, connected := *, *;
      if ended {
        process.alive := false;
        process, owner, reaped, lost := null, NoChannel, reaped + 1, false;
        Update(Failed, true);
      } else {
        owner := if connected then Shut else NoChannel;
      }
    }

    /** _start: a new session id and publication, then a new owner process. */
    method StartSession(config: Config) returns (ok: bool)
      requires Valid() && process == null && !Active(publication.phase)
      modifies this
      ensures Valid() && Follows(old(publication), publication) && old(publication).session < publication.session
      ensures publication.config == config && spawned <= old(spawned) + 1
      ensures publication.session == old(nextSession) && nextSession == old(nextSession) + 1
      ensures loggingRequested == config.startLogging && exportRequested == config.startExport
      ensures process != null ==>
                publication == Publication(old(nextSession), old(publication).revision + 1, Starting, config, false)
      ensures ok ==>
                publication.phase.Starting? && process != null && fresh(process) && owner.Open?
                  && spawned == old(spawned) + 1
      ensures !ok ==> (if process == null then publication.phase.Failed? && publication.error
        else fresh(process) && !owner.Open?)
    {
      hide Ordered, Ahead;
      FreshAhead();
      exportRequested, loggingRequested := config.startExport, config.startLogging;
      publication := Publication(nextSession, publication.revision + 1, Starting, config, false);
      nextSession := nextSession + 1;
      var launched, connected := *, *;
      if !launched {
        Update(Failed, true);
        return false;
      }
      process := new Owner(publication.session, config);
      spawned := spawned + 1;
      if connected { owner := Open; } else { AbandonStart(); }
      ok := connected;
    }

    /** A request may attach to the session there is: not a start, but an ensure of the same source, or
        a join of whatever it is, while it is starting or running. */
    ghost predicate Attaches(kind: StartKind, config: Config)
      reads this
    {
      && (publication.phase.Starting? || publication.phase.Running?)
      && (kind.Join? || (kind.Ensure? && config.source == publication.config.source))
    }

    /** start, ensure and join: a new session exactly when no owner is left, unless launching it fails;
        and otherwise only what may attach does. */
    method BeginSession(kind: StartKind, config: Config, acceptable: bool) returns (r: Response, ghost fault: bool)
      requires Valid()
      modifies this
      ensures Valid() && Follows(old(publication), publication)
      ensures old(process) != null || Active(old(publication).phase) || !acceptable ==>
                publication == old(publication) && process == old(process) && spawned == old(spawned)
      ensures process == null || process == old(process) || fresh(process)
      ensures r.Ok? ==> r.publication == publication && process != null && Active(publication.phase)
      ensures r.Ok? && !r.attached ==>
                && publication.config == config && publication.phase.Starting?
                && old(process) == null && fresh(process) && spawned == old(spawned) + 1
      ensures old(process) != null && acceptable ==> (r.Ok? <==> old(Attaches(kind, config)))
      ensures old(Attaches(kind, config)) <==>
                && (old(publication).phase.Starting? || old(publication).phase.Running?)
                && (kind.Join? || (kind.Ensure? && config.source == old(publication).config.source))
      ensures old(process) == null && acceptable ==> (r.Ok? <==> !fault)
      ensures r.Ok? ==> acceptable && r.attached == (old(process) != null)
      ensures fault ==> old(process) == null && acceptable && publication.session == old(nextSession)
    {
      hide Ordered, Ahead, Follows;
      SameFollows(publication);
      fault := false;
      if !acceptable { return Refused, false; }
      if process != null || Active(publication.phase) {
        if kind != Start && (publication.phase.Starting? || publication.phase.Running?)
           && (kind.Join? || config.source == publication.config.source) {
          return Ok(publication, true), false;
        }
        return Refused, false;
      }
      var ok := StartSession(config);
      fault := !ok;
      r := if ok then Ok(publication, false) else Refused;
    }

    /** stop: the owner is signalled once. */
    method StopSession(session: nat) returns (r: Response)
      requires Valid()
      modifies this`publication, process
      ensures Valid() && Follows(old(publication), publication)
      ensures r.Ok? <==> session == old(publication).session && Active(old(publication).phase)
      ensures r.Ok? ==> r == Ok(publication, false)
      ensures if r.Ok? && !old(publication).phase.Stopping? then
                && process != null && process.signalled
                && publication == old(publication).(phase := Stopping, revision := old(publication).revision + 1)
              else publication == old(publication)
    {
      hide Ordered, Ahead, Follows;
      SameFollows(publication);
      if session != publication.session || process == null || !Active(publication.phase) { return Refused; }
      if !publication.phase.Stopping? {
        StopIsAhead(publication.phase, process.Pubs(), process.phase);
        process.signalled := true;
        Update(Stopping, false);
      }
      r := Ok(publication, false);
    }

    /** An output control for the present session, while it is active and not stopping, of a kind it is
        configured for. */
    ghost predicate Controls(request: Request)
      reads this
      requires request.Logging? || request.Export?
    {
      && request.session == publication.session && Active(publication.phase) && !publication.phase.Stopping?
      && request.enabled.Some?
      && (request.enabled.value ==>
            if request.Export? then publication.config.exportDirectory else publication.config.loggingFormats)
    }

    /** logging and export: only the control file changes, never the publication; and whatever may not be
        controlled changes nothing. */
    method SetOutput(request: Request) returns (r: Response, ghost fault: bool)
      requires Valid() && (request.Logging? || request.Export?)
      modifies this`loggingRequested, this`exportRequested
      ensures Valid() && (r.Ok? <==> old(Controls(request)) && !fault) && (fault ==> old(Controls(request)))
      ensures r.Ok? ==> r == Ok(publication, false)
      ensures exportRequested == if old(Controls(request)) && request.Export? then request.enabled.value
                                 else old(exportRequested)
      ensures loggingRequested == if old(Controls(request)) && request.Logging? then request.enabled.value
                                  else old(loggingRequested)
    {
      if request.session != publication.session || process == null
        || !Active(publication.phase) { return Refused, false; }
      if request.enabled.None? || publication.phase.Stopping? { return Refused, false; }
      var enabled, config := request.enabled.value, publication.config;
      if request.Export? {
        if enabled && !config.exportDirectory { return Refused, false; }
        exportRequested := enabled;
      } else {
        if enabled && !config.loggingFormats { return Refused, false; }
        loggingRequested := enabled;
      }
      var written := *;
      fault := !written;
      r := if written then Ok(publication, false) else Refused;
    }

    /** How a request is answered, once what the owner sent has been read: by the state then reached. A
        request that changes something leaves the state it asked for. */
    ghost predicate Answered(request: Request, r: Response, fault: bool)
      reads this
    {
      && (r.Ok? ==> r.publication == publication)
      && match request
         case Read => r == Ok(publication, false)
         case Begin(kind, config, acceptable) =>
           if r.Ok? then acceptable && process != null
             && if r.attached then Attaches(kind, config)
                else publication.phase.Starting? && publication.config == config
           else fault || !acceptable || (process != null && !Attaches(kind, config))
         case Stop(session) =>
           if r.Ok? then session == publication.session && publication.phase.Stopping?
           else session != publication.session || !Active(publication.phase)
         case Logging(_, _) => r.Ok? <==> Controls(request) && !fault
         case Export(_, _) => r.Ok? <==> Controls(request) && !fault
         case Unknown => r.Refused?
    }

    /** One client request. */
    method Dispatch(request: Request) returns (r: Response, ghost fault: bool)
      requires Valid()
      modifies this, process
      ensures Valid() && Follows(old(publication), publication)
      ensures spawned > old(spawned) ==> request.Begin? && (old(process) == null || !old(process).alive)
      ensures process == null || process == old(process) || fresh(process)
      ensures Answered(request, r, fault)
    {
      hide Ordered, Ahead, Follows;
      PollOwner();
      ghost var shown := publication;
      SameFollows(publication);
      fault := false;
      match request {
        case Read => r := Ok(publication, false);
        case Begin(kind, config, acceptable) => r, fault := BeginSession(kind, config, acceptable);
        case Stop(session) => r := StopSession(session);
        case Logging(_, _) => r, fault := SetOutput(request);
        case Export(_, _) => r, fault := SetOutput(request);
        case Unknown => r := Refused;
      }
      FollowsTransitively(old(publication), shown, publication);
    }

    /** shutdown: the owner is signalled and the session shown as stopping. */
    method Shutdown() returns (ghost read: Publication)
      requires Valid()
      modifies this`publication, this`process, this`owner, this`reaped, this`lost, process
      ensures Valid() && Follows(old(publication), publication)
      ensures Follows(old(publication), read)
      ensures process == null || (process == old(process) && (process.alive ==> process.signalled))
      ensures publication == if process != null && Active(read.phase)
                             then read.(phase := Stopping, revision := read.revision + 1) else read
    {
      hide Ordered, Ahead, Follows;
      PollOwner();
      read := publication;
      if process == null { return; }
      ghost var shown := publication;
      SameFollows(publication);
      if process.alive { process.signalled := true; }
      if Active(publication.phase) {
        StopIsAhead(publication.phase, process.Pubs(), process.phase);
        Update(Stopping, false);
      }
      FollowsTransitively(old(publication), shown, publication);
    }

    /** When nothing a living owner published is still to be read, clients see the phase it is in, or
        stopping after an accepted stop; unless a failed read lost its newest publication, and then
        they see an error, a phase no later than the owner's or stopping, and the owner has been told
        to stop. */
    lemma ShowsTheOwner()
      requires Valid() && owner.Open? && process.alive && process.Pubs() == [] && !process.phase.Idle?
      ensures !lost ==>
        publication.phase == process.phase || (publication.phase.Stopping? && Active(process.phase))
      ensures lost ==>
        && publication.error && process.signalled
        && (publication.phase.Stopping? || Rank(publication.phase) <= Rank(process.phase))
    {
      hide Ordered;
    }

    // ----- whole runs: clients, the broker and the owner in any order -----

    method OwnerStep(e: Event)
      requires Valid() && process != null
      modifies process
      ensures Valid()
    {
      hide Ordered, Ahead, Evolves;
      ghost var pubs, was := process.Pubs(), process.phase;
      match e {
        case Launched => process.Begin();
        case Captured => process.CaptureStarted();
        case Published(session) => process.Publish(session);
        case OwnerStop(session) => var stopped := process.Stop(session);
        case Finished(end) => if Active(process.phase) && Terminal(end) { process.Finish(end); } else { return; }
        case OwnerPoll(brokerGone) => process.Poll(brokerGone);
        case Exited => process.Exit();
        case _ => return;
      }
      if owner.Open? { EvolvesAhead(publication.phase, pubs, was, process); }
    }

    method Step(e: Event)
      requires Valid()
      modifies this, process
      ensures Valid() && Follows(old(publication), publication)
      ensures process == null || process == old(process) || fresh(process)
    {
      hide Ordered, Ahead, Evolves, Follows;
      SameFollows(publication);
      match e {
        case Client(request) => var r, fault := Dispatch(request);
        case Tick => PollOwner();
        case Close => var _ := Shutdown();
        case Kill => if process != null { OwnerStep(Exited); }
        case _ => if process != null && process.alive { OwnerStep(e); }
      }
    }

    /** In every run the publication only ever follows on: an accepted stop is not undone, and a
        session that has ended is never shown as active again. */
    method Run(events: seq<Event>)
      requires Valid()
      modifies this, process
      ensures Valid() && Follows(old(publication), publication)
      ensures publication.session == old(publication).session && old(publication).phase.Stopping? ==>
                publication.phase.Stopping? || Terminal(publication.phase)
      ensures publication.session == old(publication).session && Terminal(old(publication).phase) ==>
                publication.phase == old(publication).phase
    {
      hide Valid, Follows;
      SameFollows(publication);
      for k := 0 to |events|
        invariant Valid() && Follows(old(publication), publication)
        invariant process == null || process == old(process) || fresh(process)
      {
        ghost var shown := publication;
        Step(events[k]);
        FollowsTransitively(old(publication), shown, publication);
      }
      FollowsMeans(old(publication), publication);
    }
  }

  lemma EvolvesAhead(shown: Phase, pubs: seq<Publication>, was: Phase, owner: Owner)
    requires owner.Valid() && Ahead(shown, pubs, was) && Evolves(pubs, was, owner.Pubs(), owner.phase)
    ensures Ahead(shown, owner.Pubs(), owner.phase)
  {
    AheadKept(shown, pubs, was, owner.Pubs(), owner.phase);
  }

  lemma FollowsMeans(before: Publication, after: Publication)
    requires Follows(before, after)
    ensures before.session == after.session ==>
              && (before.phase.Stopping? ==> after.phase.Stopping? || Terminal(after.phase))
              && (Terminal(before.phase) ==> after.phase == before.phase)
  {}

  lemma StopIsAhead(shown: Phase, pubs: seq<Publication>, phase: Phase)
    requires Active(shown)
    ensures Ahead(Stopping, pubs, phase)
  {}

  lemma SameFollows(p: Publication)
    ensures Follows(p, p)
  {}

  datatype Event =
    | Client(request: Request)
    | Tick
    | Close
    | Kill
    | Launched
    | Captured
    | Published(session: nat)
    | OwnerStop(session: nat)
    | Finished(end: Phase)
    | OwnerPoll(brokerGone: bool)
    | Exited
}
