/** Per-second frame projections: the batch pass, the incremental streaming form, and the
    merge of many projections into one. */
module Projection {
  import opened Wrappers
  import opened Frames
  import opened HostTracking

  // ----- which frames a channel filter admits -----

  /** A beacon entry: its time and, when known, the primary frequency it announces. */
  datatype Entry = Entry(time: real, primary: Option<int>)

  /** Anywhere: no target frequency. Otherwise the entries of each BSSID, in time order. */
  datatype Scope = Anywhere | Primary(entries: map<Address, seq<Entry>>, frequency: int, maxAge: real)

  ghost predicate Ordered(entries: seq<Entry>) {
    forall i, j :: 0 <= i < j < |entries| ==> entries[i].time <= entries[j].time
  }

  function Defined(entries: seq<Entry>): (r: seq<Entry>)
    ensures forall e :: e in r <==> e in entries && e.primary.Some?
  {
    if entries == [] then []
    else Defined(entries[..|entries| - 1]) + (if entries[|entries| - 1].primary.Some? then [entries[|entries| - 1]]
      else [])
  }

  /** How many leading entries are no later than t. */
  function BisectRight(entries: seq<Entry>, t: real): (n: nat)
    ensures n <= |entries|
  {
    if entries == [] || entries[0].time > t then 0 else 1 + BisectRight(entries[1..], t)
  }

  predicate Fresh(e: Entry, t: real, s: Scope)
    requires s.Primary?
  {
    t - e.time <= s.maxAge && e.primary == Some(s.frequency)
  }

  /** The batch form: bisect the filtered timeline. */
  predicate InTimeline(f: Frame, associated: Option<Address>, s: Scope)
    requires s.Primary?
  {
    && associated.Some?
    && associated.value in s.entries
    && var timeline := Defined(s.entries[associated.value]);
       var n := BisectRight(timeline, f.timestamp);
       n > 0 && Fresh(timeline[n - 1], f.timestamp, s)
  }

  predicate InScope(f: Frame, associated: Option<Address>, s: Scope) {
    s.Anywhere? || InTimeline(f, associated, s)
  }

  /** The streaming form: scan the entries backwards for the latest definition. */
  method ScanScope(f: Frame, associated: Option<Address>, s: Scope) returns (r: bool)
    requires s.Primary? && forall a :: a in s.entries ==> Ordered(s.entries[a])
    ensures r == InTimeline(f, associated, s)
  {
    if associated.None? || associated.value !in s.entries { return false; }
    var entries := s.entries[associated.value];
    var i := |entries|;
    while i > 0
      invariant 0 <= i <= |entries|
      invariant forall k :: i <= k < |entries| ==> !(entries[k].time <= f.timestamp && entries[k].primary.Some?)
    {
      i := i - 1;
      if entries[i].time <= f.timestamp && entries[i].primary.Some? {
        LatestDefinition(entries, f.timestamp, i);
        return Fresh(entries[i], f.timestamp, s);
      }
    }
    NoDefinition(entries, f.timestamp);
    r := false;
  }

  lemma {:induction false} BisectRightExact(entries: seq<Entry>, t: real)
    requires Ordered(entries)
    ensures forall k :: 0 <= k < BisectRight(entries, t) ==> entries[k].time <= t
    ensures forall k :: BisectRight(entries, t) <= k < |entries| ==> entries[k].time > t
  {
    if entries != [] && entries[0].time <= t {
      assert forall k :: 0 < k < |entries| ==> entries[k] == entries[1..][k - 1];
      BisectRightExact(entries[1..], t);
    }
  }

  lemma {:induction false} DefinedOrdered(entries: seq<Entry>)
    requires Ordered(entries)
    ensures Ordered(Defined(entries))
  {
    if entries != [] {
      DefinedOrdered(entries[..|entries| - 1]);
      var front := Defined(entries[..|entries| - 1]);
      forall k | 0 <= k < |front| ensures front[k].time <= entries[|entries| - 1].time {
        assert front[k] in entries[..|entries| - 1];
      }
    }
  }

  lemma {:induction false} DefinedSplit(a: seq<Entry>, b: seq<Entry>)
    ensures Defined(a + b) == Defined(a) + Defined(b)
  {
    if b == [] {
      assert a + b == a;
    } else {
      assert (a + b)[..|a + b| - 1] == a + b[..|b| - 1];
      DefinedSplit(a, b[..|b| - 1]);
    }
  }

  lemma LatestDefinition(entries: seq<Entry>, t: real, i: nat)
    requires Ordered(entries) && i < |entries| && entries[i].time <= t && entries[i].primary.Some?
    requires forall k :: i < k < |entries| ==> !(entries[k].time <= t && entries[k].primary.Some?)
    ensures var timeline := Defined(entries);
            var n := BisectRight(timeline, t);
            n > 0 && timeline[n - 1] == entries[i]
  {
    var upTo, after := entries[..i + 1], entries[i + 1..];
    assert entries == upTo + after && upTo[..i] == entries[..i] && upTo[i] == entries[i];
    DefinedOrdered(entries);
    DefinedSplit(upTo, after);
    var head, tail := Defined(upTo), Defined(after);
    forall e | e in tail ensures e.time > t {
      var k :| 0 <= k < |after| && after[k] == e;
    }
    assert head == Defined(upTo[..i]) + [entries[i]];
    BisectAt(head, tail, t);
  }

  lemma BisectAt(head: seq<Entry>, tail: seq<Entry>, t: real)
    requires Ordered(head + tail)
    requires head != [] && head[|head| - 1].time <= t
    requires forall e :: e in tail ==> e.time > t
    ensures BisectRight(head + tail, t) == |head|
  {
    var all, n := head + tail, BisectRight(head + tail, t);
    BisectRightExact(all, t);
    assert all[|head| - 1] == head[|head| - 1];
    assert |head| < |all| ==> all[|head|] == tail[0] && all[|head|] in tail;
  }

  lemma NoDefinition(entries: seq<Entry>, t: real)
    requires Ordered(entries)
    requires forall k :: 0 <= k < |entries| ==> !(entries[k].time <= t && entries[k].primary.Some?)
    ensures BisectRight(Defined(entries), t) == 0
  {
    var timeline := Defined(entries);
    if timeline != [] {
      assert timeline[0] in entries;
    }
  }

  // ----- projections -----

  datatype BssidSummary = BssidSummary(
    frameCount: nat,
    retryObserved: nat,
    retryEligible: nat,
    retries: nat,
    first: Option<real>,
    last: Option<real>,
    clients: set<Address>)

  datatype FrameProjection = FrameProjection(
    frameCount: nat,
    retryObserved: nat,
    retryEligible: nat,
    retries: nat,
    byBssid: map<Address, BssidSummary>,
    clients: set<Address>,
    hosts: Hosts,
    hostsLimited: bool)

  const NO_FRAMES: BssidSummary := BssidSummary(0, 0, 0, 0, None, None, {})

  const EMPTY_PROJECTION: FrameProjection := FrameProjection(0, 0, 0, 0, map[], {}, map[], false)

  function Earliest(a: Option<real>, b: Option<real>): Option<real> {
    if b.Some? && (a.None? || b.value < a.value) then b else a
  }

  function Latest(a: Option<real>, b: Option<real>): Option<real> {
    if b.Some? && (a.None? || b.value > a.value) then b else a
  }

  /** How one frame counts, under known BSSIDs and a scope: the BSSID it belongs to while in
      scope, and the client it shows there. A frame with a bad FCS counts for nothing else. */
  datatype Reading = Reading(observed: bool, eligible: bool, retry: bool, bssid: Option<Address>,
    client: Option<Address>) {
    predicate Valid() { client.Some? ==> bssid.Some? }
  }

  function FirstOf(s: seq<Address>): Option<Address> { if s == [] then None else Some(s[0]) }

  function Read(f: Frame, known: set<Address>, s: Scope): (r: Reading)
    ensures r.Valid()
    ensures r.client.Some? ==> r.bssid == KnownFrameBssid(f, known)
  {
    var associated := AssociatedBssid(f, known);
    if f.badFcs || !InScope(f, associated, s) then Reading(false, false, false, None, None)
    else
      var frameBssid := KnownFrameBssid(f, known);
      Reading(f.retryFlag.Some?, RetryEligible(f), RetryEligible(f) && f.retryFlag == Some(true), associated,
              if f.frameType == Some(2) && frameBssid.Some? then FirstOf(ClientsOf(f, frameBssid.value, known))
                else None)
  }

  type ByBssid = map<Address, BssidSummary>

  function SummaryOf(m: ByBssid, bssid: Address): BssidSummary {
    if bssid in m then m[bssid] else NO_FRAMES
  }

  function CountFrame(b: BssidSummary, f: Frame, r: Reading): BssidSummary {
    BssidSummary(b.frameCount + 1, b.retryObserved + Bit(r.observed), b.retryEligible + Bit(r.eligible),
                 b.retries + Bit(r.retry), Earliest(b.first, Some(f.timestamp)), Latest(b.last, Some(f.timestamp)),
                 WithClient(b.clients, r))
  }

  function WithClient(clients: set<Address>, r: Reading): set<Address> {
    if r.client.Some? then clients + {r.client.value} else clients
  }

  function WithHost(hosts: Hosts, f: Frame, r: Reading): (Hosts, bool)
    requires r.Valid()
  {
    if r.client.Some? then ObserveHost(hosts, r.client.value, f, r.bssid.value, r.eligible) else (hosts, false)
  }

  /** One frame added to a projection, given its BSSID's updated summaries. */
  function Account(p: FrameProjection, f: Frame, r: Reading, byBssid: ByBssid): FrameProjection
    requires r.Valid()
  {
    FrameProjection(p.frameCount + 1, p.retryObserved + Bit(r.observed), p.retryEligible + Bit(r.eligible),
                    p.retries + Bit(r.retry), byBssid, WithClient(p.clients, r),
                    WithHost(p.hosts, f, r).0, p.hostsLimited || WithHost(p.hosts, f, r).1)
  }

  function CountByBssid(m: ByBssid, f: Frame, r: Reading): ByBssid {
    if r.bssid.None? then m else m[r.bssid.value := CountFrame(SummaryOf(m, r.bssid.value), f, r)]
  }

  /** One frame of the batch pass. */
  function Accumulate(p: FrameProjection, f: Frame, known: set<Address>, s: Scope): FrameProjection {
    var r := Read(f, known, s);
    Account(p, f, r, CountByBssid(p.byBssid, f, r))
  }

  function Project(frames: seq<Frame>, known: set<Address>, s: Scope): FrameProjection {
    if frames == [] then EMPTY_PROJECTION
    else Accumulate(Project(frames[..|frames| - 1], known, s), frames[|frames| - 1], known, s)
  }

  method ProjectFrames(frames: seq<Frame>, known: set<Address>, s: Scope) returns (p: FrameProjection)
    ensures p == Project(frames, known, s)
  {
    p := EMPTY_PROJECTION;
    for n := 0 to |frames|
      invariant p == Project(frames[..n], known, s)
    {
      assert frames[..n + 1][..n] == frames[..n];
      p := Accumulate(p, frames[n], known, s);
    }
    assert frames[..|frames|] == frames;
  }

  // ----- the streaming form -----

  /** One open second of the live stream: frames are counted as they arrive and dropped. */
  class OpenSecond {
    var frameCount: nat
    var retryObserved: nat
    var retryEligible: nat
    var retries: nat
    var byBssid: map<Address, BssidSummary>
    var clients: set<Address>
    var hosts: Hosts
    var hostsLimited: bool

    function Freeze(): FrameProjection
      reads this
    {
      FrameProjection(frameCount, retryObserved, retryEligible, retries, byBssid, clients, hosts, hostsLimited)
    }

    constructor ()
      ensures Freeze() == EMPTY_PROJECTION
    {
      frameCount, retryObserved, retryEligible, retries := 0, 0, 0, 0;
      byBssid, clients, hosts, hostsLimited := map[], {}, map[], false;
    }

    /** First and last times are taken in arrival order, without comparing them. */
    method Add(f: Frame, known: set<Address>, s: Scope)
      requires s.Primary? ==> forall a :: a in s.entries ==> Ordered(s.entries[a])
      modifies this
      ensures Freeze() == AccumulateOrdered(old(Freeze()), f, known, s)
    {
      var r := ReadOpenFrame(f, known, s);
      frameCount := frameCount + 1;
      retryObserved, retryEligible, retries :=
        retryObserved + Bit(r.observed), retryEligible + Bit(r.eligible), retries + Bit(r.retry);
      CountBssid(f, r);
      AddClient(f, r);
    }

    method CountBssid(f: Frame, r: Reading)
      modifies this`byBssid
      ensures byBssid == CountByBssidOrdered(old(byBssid), f, r)
    {
      if r.bssid.Some? {
        byBssid := byBssid[r.bssid.value := CountFrameOrdered(SummaryOf(byBssid, r.bssid.value), f, r)];
      }
    }

    method AddClient(f: Frame, r: Reading)
      requires r.Valid()
      modifies this`clients, this`hosts, this`hostsLimited
      ensures clients == WithClient(old(clients), r)
      ensures hosts == WithHost(old(hosts), f, r).0
      ensures hostsLimited == (old(hostsLimited) || WithHost(old(hosts), f, r).1)
    {
      if r.client.Some? {
        clients := clients + {r.client.value};
        var (table, limited) := ObserveHost(hosts, r.client.value, f, r.bssid.value, r.eligible);
        hosts, hostsLimited := table, hostsLimited || limited;
      }
    }
  }

  method ReadOpenFrame(f: Frame, known: set<Address>, s: Scope) returns (r: Reading)
    requires s.Primary? ==> forall a :: a in s.entries ==> Ordered(s.entries[a])
    ensures r == Read(f, known, s)
  {
    var associated := AssociatedBssid(f, known);
    var inScope := true;
    if s.Primary? { inScope := ScanScope(f, associated, s); }
    if f.badFcs || !inScope { return Reading(false, false, false, None, None); }
    var eligible := RetryEligible(f);
    r := Reading(f.retryFlag.Some?, eligible, eligible && f.retryFlag == Some(true), associated, None);
    var frameBssid := KnownFrameBssid(f, known);
    if f.frameType == Some(2) && frameBssid.Some? {
      r := r.(client := FirstOf(ClientsOf(f, frameBssid.value, known)));
    }
  }

  function CountFrameOrdered(b: BssidSummary, f: Frame, r: Reading): BssidSummary {
    BssidSummary(b.frameCount + 1, b.retryObserved + Bit(r.observed), b.retryEligible + Bit(r.eligible),
                 b.retries + Bit(r.retry), if b.first.None? then Some(f.timestamp) else b.first, Some(f.timestamp),
                 WithClient(b.clients, r))
  }

  function CountByBssidOrdered(m: ByBssid, f: Frame, r: Reading): ByBssid {
    if r.bssid.None? then m else m[r.bssid.value := CountFrameOrdered(SummaryOf(m, r.bssid.value), f, r)]
  }

  function AccumulateOrdered(p: FrameProjection, f: Frame, known: set<Address>, s: Scope): FrameProjection {
    var r := Read(f, known, s);
    Account(p, f, r, CountByBssidOrdered(p.byBssid, f, r))
  }

  /** A frame, and the BSSIDs and scope under which it is read. */
  datatype Sight = Sight(frame: Frame, known: set<Address>, scope: Scope)

  function Sights(frames: seq<Frame>, known: set<Address>, s: Scope): (xs: seq<Sight>)
    ensures |xs| == |frames|
  {
    seq(|frames|, i requires 0 <= i < |frames| => Sight(frames[i], known, s))
  }

  /** One pass over frames each read under its own BSSIDs and scope. */
  function ProjectSights(xs: seq<Sight>): FrameProjection {
    if xs == [] then EMPTY_PROJECTION
    else
      var x := xs[|xs| - 1];
      Accumulate(ProjectSights(xs[..|xs| - 1]), x.frame, x.known, x.scope)
  }

  lemma {:induction false} ProjectIsSights(frames: seq<Frame>, known: set<Address>, s: Scope)
    ensures Project(frames, known, s) == ProjectSights(Sights(frames, known, s))
  {
    if frames != [] {
      var n := |frames| - 1;
      ProjectIsSights(frames[..n], known, s);
      assert Sights(frames, known, s)[..n] == Sights(frames[..n], known, s);
    }
  }

  function Stream(xs: seq<Sight>): FrameProjection {
    if xs == [] then EMPTY_PROJECTION
    else
      var x := xs[|xs| - 1];
      AccumulateOrdered(Stream(xs[..|xs| - 1]), x.frame, x.known, x.scope)
  }

  ghost predicate TimeOrdered(xs: seq<Sight>) {
    forall i, j :: 0 <= i < j < |xs| ==> xs[i].frame.timestamp <= xs[j].frame.timestamp
  }

  ghost predicate TimesUpTo(m: ByBssid, t: real) {
    forall a :: a in m ==>
      && m[a].first.Some? && m[a].first.value <= t
      && m[a].last.Some? && m[a].last.value <= t
  }

  lemma CountKeepsTimes(m: ByBssid, f: Frame, r: Reading, t: real)
    requires TimesUpTo(m, t) && f.timestamp <= t
    ensures TimesUpTo(CountByBssid(m, f, r), t)
  {}

  lemma {:induction false} TimesWithin(xs: seq<Sight>, t: real)
    requires forall i :: 0 <= i < |xs| ==> xs[i].frame.timestamp <= t
    ensures TimesUpTo(ProjectSights(xs).byBssid, t)
  {
    if xs != [] {
      var front, x := xs[..|xs| - 1], xs[|xs| - 1];
      TimesWithin(front, t);
      CountKeepsTimes(ProjectSights(front).byBssid, x.frame, Read(x.frame, x.known, x.scope), t);
    }
  }

  lemma OrderedCount(m: ByBssid, f: Frame, r: Reading)
    requires TimesUpTo(m, f.timestamp)
    ensures CountByBssidOrdered(m, f, r) == CountByBssid(m, f, r)
  {
    if r.bssid.Some? {
      assert CountFrameOrdered(SummaryOf(m, r.bssid.value), f, r) == CountFrame(SummaryOf(m, r.bssid.value), f, r);
    }
  }

  /** On frames in time order, each read under whatever was known when it came, the stream holds at
      every moment what one batch pass over the frames so far would compute. */
  lemma {:induction false} StreamIsBatch(xs: seq<Sight>)
    requires TimeOrdered(xs)
    ensures Stream(xs) == ProjectSights(xs)
  {
    if xs != [] {
      var front, x := xs[..|xs| - 1], xs[|xs| - 1];
      StreamIsBatch(front);
      TimesWithin(front, x.frame.timestamp);
      OrderedCount(ProjectSights(front).byBssid, x.frame, Read(x.frame, x.known, x.scope));
    }
  }

  // ----- what a projection counts -----

  predicate Nested(retries: nat, eligible: nat, observed: nat,
      frames: nat) { retries <= eligible <= observed <= frames }

  lemma ReadNests(f: Frame, known: set<Address>, s: Scope)
    ensures var r := Read(f, known, s); (r.retry ==> r.eligible) && (r.eligible ==> r.observed)
  {
    hide KnownFrameBssid, ClientsOf, InScope, AssociatedBssid;
  }

  /** Retries are among eligible frames, those among frames with a readable retry bit, those among
      all frames; and every BSSID's summary nests in the same way within the whole. */
  lemma {:induction false} CountsNest(frames: seq<Frame>, known: set<Address>, s: Scope)
    ensures var p := Project(frames, known, s);
            && Nested(p.retries, p.retryEligible, p.retryObserved, p.frameCount) && p.frameCount == |frames|
            && forall b :: b in p.byBssid ==>
                 && Nested(p.byBssid[b].retries, p.byBssid[b].retryEligible, p.byBssid[b].retryObserved,
                   p.byBssid[b].frameCount)
                 && p.byBssid[b].frameCount <= p.frameCount && p.byBssid[b].retries <= p.retries
                 && p.byBssid[b].clients <= p.clients
  {
    hide WithHost, Read, Earliest, Latest;
    if frames != [] {
      CountsNest(frames[..|frames| - 1], known, s);
      ReadNests(frames[|frames| - 1], known, s);
    }
  }

  // ----- what is known of a host -----

  datatype Role = Sent | Received | SentEligible | SentRetry

  predicate Plays(role: Role, f: Frame, host: Address) {
    match role
    case Sent => f.transmitter == Some(host)
    case Received => f.receiver == Some(host)
    case SentEligible => f.transmitter == Some(host) && RetryEligible(f)
    case SentRetry => f.transmitter == Some(host) && RetryEligible(f) && f.retryFlag == Some(true)
  }

  function HostCount(h: HostSummary, role: Role): nat {
    match role
    case Sent => h.txFrames
    case Received => h.rxFrames
    case SentEligible => h.txEligible
    case SentRetry => h.txRetries
  }

  lemma ObservedRole(h: HostSummary, host: Address, f: Frame, bssid: Address, eligible: bool, role: Role)
    requires eligible == RetryEligible(f)
    ensures HostCount(Observe(h, host, f, bssid, eligible), role) == HostCount(h, role) + Bit(Plays(role, f, host))
    ensures HostCount(NewHost(bssid, f.timestamp), role) == 0
  {
    hide RetryEligible;
  }

  lemma ShownEligible(f: Frame, known: set<Address>, s: Scope)
    ensures Read(f, known, s).client.Some? ==> Read(f, known, s).eligible == RetryEligible(f)
  {
    hide RetryEligible, KnownFrameBssid, ClientsOf, InScope, AssociatedBssid;
  }
}
