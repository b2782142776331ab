/** Merging projections: what a rolling window shows is what one pass over all its frames
    would compute, up to the cap on host details. */
module Merge {
  import opened Frames
  import opened HostTracking
  import opened Projection

  function JoinSummary(a: BssidSummary, b: BssidSummary): BssidSummary {
    BssidSummary(a.frameCount + b.frameCount, a.retryObserved + b.retryObserved, a.retryEligible + b.retryEligible,
                 a.retries + b.retries, Earliest(a.first, b.first), Latest(a.last, b.last), a.clients + b.clients)
  }

  function JoinByBssid(a: ByBssid, b: ByBssid): (r: ByBssid)
    ensures r.Keys == a.Keys + b.Keys
  {
    map k | k in a.Keys + b.Keys ::
      if k in a && k in b then JoinSummary(a[k], b[k]) else if k in a then a[k] else b[k]
  }

  /** Two projections as one, with no cap on hosts. */
  function Join(p: FrameProjection, q: FrameProjection): FrameProjection {
    FrameProjection(p.frameCount + q.frameCount, p.retryObserved + q.retryObserved, p.retryEligible + q.retryEligible,
                    p.retries + q.retries, JoinByBssid(p.byBssid, q.byBssid), p.clients + q.clients,
                    JoinHosts(p.hosts, q.hosts), p.hostsLimited || q.hostsLimited)
  }

  function JoinAll(ps: seq<FrameProjection>): FrameProjection {
    if ps == [] then EMPTY_PROJECTION else Join(JoinAll(ps[..|ps| - 1]), ps[|ps| - 1])
  }

  function LatestAll(ps: seq<FrameProjection>): Activity {
    if ps == [] then map[] else LatestActivity(LatestAll(ps[..|ps| - 1]), ps[|ps| - 1].hosts)
  }

  function Restrict(hosts: Hosts, selected: set<Address>): Hosts {
    map m | m in hosts && m in selected :: hosts[m]
  }

  function Merged(ps: seq<FrameProjection>): FrameProjection {
    var all, latest := JoinAll(ps), LatestAll(ps);
    all.(hosts := Restrict(all.hosts, MostRecent(latest, MAX_HOST_DETAILS)),
         hostsLimited := all.hostsLimited || |latest| > MAX_HOST_DETAILS)
  }

  method MergeHosts(ps: seq<FrameProjection>) returns (merged: Hosts, limited: bool)
    ensures merged == Merged(ps).hosts && limited == Merged(ps).hostsLimited
  {
    hide JoinHosts, LatestActivity, MostRecent, Restrict;
    var latest: Activity := map[];
    limited := false;
    for n := 0 to |ps|
      invariant latest == LatestAll(ps[..n]) && limited == JoinAll(ps[..n]).hostsLimited
    {
      assert ps[..n + 1][..n] == ps[..n];
      limited := limited || ps[n].hostsLimited;
      latest := LatestActivity(latest, ps[n].hosts);
    }
    assert ps[..|ps|] == ps;
    var selected := MostRecent(latest, MAX_HOST_DETAILS);
    limited := limited || |latest| > MAX_HOST_DETAILS;
    merged := map[];
    RestrictNone(selected);
    for n := 0 to |ps|
      invariant merged == Restrict(JoinAll(ps[..n]).hosts, selected)
    {
      assert ps[..n + 1][..n] == ps[..n];
      RestrictJoined(JoinAll(ps[..n]).hosts, ps[n].hosts, selected);
      merged := JoinHosts(merged, Restrict(ps[n].hosts, selected));
    }
  }

  lemma RestrictNone(selected: set<Address>)
    ensures Restrict(map[], selected) == map[]
  {}

  lemma RestrictJoined(a: Hosts, b: Hosts, selected: set<Address>)
    ensures Restrict(JoinHosts(a, b), selected) == JoinHosts(Restrict(a, selected), Restrict(b, selected))
  {}

  method MergeFrameProjections(ps: seq<FrameProjection>) returns (p: FrameProjection)
    ensures p == Merged(ps)
  {
    var frameCount: nat, retryObserved: nat, retryEligible: nat, retries: nat := 0, 0, 0, 0;
    var byBssid: ByBssid := map[];
    var clients: set<Address> := {};
    for n := 0 to |ps|
      invariant var all := JoinAll(ps[..n]);
        && frameCount == all.frameCount && retryObserved == all.retryObserved
        && retryEligible == all.retryEligible && retries == all.retries
        && byBssid == all.byBssid && clients == all.clients
    {
      assert ps[..n + 1][..n] == ps[..n];
      frameCount, retryObserved := frameCount + ps[n].frameCount, retryObserved + ps[n].retryObserved;
      retryEligible, retries := retryEligible + ps[n].retryEligible, retries + ps[n].retries;
      clients := clients + ps[n].clients;
      byBssid := JoinByBssid(byBssid, ps[n].byBssid);
    }
    assert ps[..|ps|] == ps;
    var hosts, limited := MergeHosts(ps);
    p := FrameProjection(frameCount, retryObserved, retryEligible, retries, byBssid, clients, hosts, limited);
  }

  // ----- the reference: one frame at a time, joined without a cap -----

  function Single(f: Frame, known: set<Address>, s: Scope): FrameProjection {
    Accumulate(EMPTY_PROJECTION, f, known, s)
  }

  function Summed(xs: seq<Sight>): FrameProjection {
    if xs == [] then EMPTY_PROJECTION
    else
      var x := xs[|xs| - 1];
      Join(Summed(xs[..|xs| - 1]), Single(x.frame, x.known, x.scope))
  }

  /** A projection without its host table. */
  function Plain(p: FrameProjection): FrameProjection { p.(hosts := map[], hostsLimited := false) }

  lemma JoinByBssidAssociative(a: ByBssid, b: ByBssid, c: ByBssid)
    ensures JoinByBssid(JoinByBssid(a, b), c) == JoinByBssid(a, JoinByBssid(b, c))
  {
    var l, r := JoinByBssid(JoinByBssid(a, b), c), JoinByBssid(a, JoinByBssid(b, c));
    forall k | k in l ensures l[k] == r[k] {
      if k in a && k in b && k in c { JoinSummaryAssociative(a[k], b[k], c[k]); }
    }
  }

  lemma JoinSummaryAssociative(a: BssidSummary, b: BssidSummary, c: BssidSummary)
    ensures JoinSummary(JoinSummary(a, b), c) == JoinSummary(a, JoinSummary(b, c))
  {
    assert a.clients + b.clients + c.clients == a.clients + (b.clients + c.clients);
  }

  lemma JoinAssociative(p: FrameProjection, q: FrameProjection, r: FrameProjection)
    ensures Join(Join(p, q), r) == Join(p, Join(q, r))
  {
    assert Join(Join(p, q), r).byBssid == Join(p, Join(q, r)).byBssid by {
      JoinByBssidAssociative(p.byBssid, q.byBssid, r.byBssid);
    }
    assert Join(Join(p, q), r).hosts == Join(p, Join(q, r)).hosts by {
      JoinHostsAssociative(p.hosts, q.hosts, r.hosts);
    }
    assert p.clients + q.clients + r.clients == p.clients + (q.clients + r.clients);
  }

  lemma JoinEmpty(p: FrameProjection)
    ensures Join(p, EMPTY_PROJECTION) == p && Join(EMPTY_PROJECTION, p) == p
  {
    assert JoinByBssid(p.byBssid, map[]) == p.byBssid && JoinByBssid(map[], p.byBssid) == p.byBssid;
    assert JoinHosts(p.hosts, map[]) == p.hosts && JoinHosts(map[], p.hosts) == p.hosts;
  }

  lemma {:induction false} SummedSplit(a: seq<Sight>, b: seq<Sight>)
    ensures Summed(a + b) == Join(Summed(a), Summed(b))
  {
    if b == [] {
      assert a + b == a;
      JoinEmpty(Summed(a));
    } else {
      var n := |b| - 1;
      assert (a + b)[..|a + b| - 1] == a + b[..n];
      SummedSplit(a, b[..n]);
      JoinAssociative(Summed(a), Summed(b[..n]), Single(b[n].frame, b[n].known, b[n].scope));
    }
  }

  lemma UpdateIsJoin(m: ByBssid, bssid: Address, b: BssidSummary)
    ensures m[bssid := if bssid in m then JoinSummary(m[bssid], b) else b] == JoinByBssid(m, map[bssid := b])
  {}

  lemma CountIsJoin(m: ByBssid, f: Frame, r: Reading)
    ensures CountByBssid(m, f, r) == JoinByBssid(m, CountByBssid(map[], f, r))
  {
    if r.bssid.Some? {
      var bssid := r.bssid.value;
      var b := CountFrame(NO_FRAMES, f, r);
      assert bssid in m ==> CountFrame(m[bssid], f, r) == JoinSummary(m[bssid], b);
      UpdateIsJoin(m, bssid, b);
      assert CountByBssid(map[], f, r) == map[bssid := b];
    } else {
      assert JoinByBssid(m, map[]) == m;
    }
  }

  /** Away from hosts, adding a frame is joining what that frame says alone. */
  lemma AccumulateIsJoin(p: FrameProjection, f: Frame, known: set<Address>, s: Scope)
    ensures Plain(Accumulate(p, f, known, s)) == Plain(Join(p, Single(f, known, s)))
  {
    var r := Read(f, known, s);
    CountIsJoin(p.byBssid, f, r);
    assert WithClient(p.clients, r) == p.clients + WithClient({}, r);
  }

  /** Below the cap the host table too is joined frame by frame. */
  lemma HostsAreJoined(hosts: Hosts, f: Frame, r: Reading)
    requires r.Valid()
    ensures var (table, limited) := WithHost(hosts, f, r);
            if WithClient({}, r) <= hosts.Keys || |hosts| < MAX_HOST_DETAILS then
              table == JoinHosts(hosts, WithHost(map[], f, r).0) && !limited
            else table == hosts && limited
  {
    hide JoinHosts, Observe, HostSeen, MergeHost;
    if r.client.Some? {
      var mac := r.client.value;
      var h := HostSeen(mac, f, r.bssid.value, r.eligible);
      assert WithHost(map[], f, r).0 == map[mac := h];
      if mac in hosts { ObserveIsMerge(hosts[mac], mac, f, r.bssid.value, r.eligible); }
      JoinOneHost(hosts, mac, h);
    } else {
      JoinNoHost(hosts);
    }
  }

  lemma JoinOneHost(hosts: Hosts, mac: Address, h: HostSummary)
    ensures JoinHosts(hosts, map[mac := h]) == hosts[mac := if mac in hosts then MergeHost(hosts[mac], h) else h]
  {}

  lemma JoinNoHost(hosts: Hosts)
    ensures JoinHosts(hosts, map[]) == hosts
  {}

  /** How a capped host table relates to the uncapped one over the same frames. */
  ghost predicate CappedHosts(hosts: Hosts, limited: bool, all: Hosts) {
    && hosts.Keys <= all.Keys && |hosts| <= MAX_HOST_DETAILS
    && (limited <==> |all| > MAX_HOST_DETAILS)
    && (limited ==> |hosts| == MAX_HOST_DETAILS)
    && (!limited ==> hosts == all)
  }

  lemma CappedStep(hosts: Hosts, limited: bool, all: Hosts, f: Frame, r: Reading)
    requires r.Valid() && CappedHosts(hosts, limited, all)
    ensures CappedHosts(WithHost(hosts, f, r).0, limited
      || WithHost(hosts, f, r).1, JoinHosts(all, WithHost(map[], f, r).0))
  {
    HostsAreJoined(hosts, f, r);
    var one := WithHost(map[], f, r).0;
    assert one.Keys == WithClient({}, r);
    CappedJoin(hosts, limited, all, one, WithHost(hosts, f, r).0, WithHost(hosts, f, r).1);
  }

  lemma CappedJoin(hosts: Hosts, limited: bool, all: Hosts, one: Hosts, table: Hosts, refused: bool)
    requires CappedHosts(hosts, limited, all) && |one| <= 1
    requires if one.Keys <= hosts.Keys || |hosts| < MAX_HOST_DETAILS then table == JoinHosts(hosts, one) && !refused
             else table == hosts && refused
    ensures CappedHosts(table, limited || refused, JoinHosts(all, one))
  {
    hide JoinHosts;
    CapKeys(hosts.Keys, all.Keys, one.Keys, limited);
    assert |JoinHosts(all, one)| == |JoinHosts(all, one).Keys| == |all.Keys + one.Keys|;
    assert |JoinHosts(hosts, one)| == |JoinHosts(hosts, one).Keys| == |hosts.Keys + one.Keys|;
    assert one.Keys <= hosts.Keys ==> hosts.Keys + one.Keys == hosts.Keys;
  }

  lemma CapKeys(held: set<Address>, all: set<Address>, one: set<Address>, limited: bool)
    requires held <= all && |held| <= MAX_HOST_DETAILS && |one| <= 1
    requires limited <==> |all| > MAX_HOST_DETAILS
    requires if limited then |held| == MAX_HOST_DETAILS else held == all
    ensures one <= held ==> |all + one| == |all|
    ensures !(one <= held) && |held| < MAX_HOST_DETAILS ==> !limited && |all + one| == |all| + 1
    ensures !(one <= held) && |held| >= MAX_HOST_DETAILS ==> |all + one| > MAX_HOST_DETAILS
  {
    if one <= held {
      assert all + one == all;
    } else {
      var mac :| mac in one && mac !in held;
      assert |one - {mac}| == 0;
      assert one == {mac};
      assert mac in all ==> all + one == all;
    }
  }

  ghost predicate Capped(p: FrameProjection, sum: FrameProjection) {
    Plain(p) == Plain(sum) && sum.hosts.Keys == sum.clients && !sum.hostsLimited
    && CappedHosts(p.hosts, p.hostsLimited, sum.hosts)
  }

  lemma PlainJoin(p: FrameProjection, q: FrameProjection, r: FrameProjection)
    requires Plain(p) == Plain(q)
    ensures Plain(Join(p, r)) == Plain(Join(q, r))
    ensures Plain(Join(r, p)) == Plain(Join(r, q))
  {
    assert p.byBssid == Plain(p).byBssid == q.byBssid;
  }

  lemma AccumulateHosts(p: FrameProjection, sum: FrameProjection, f: Frame, known: set<Address>, s: Scope)
    requires CappedHosts(p.hosts, p.hostsLimited, sum.hosts)
    ensures var q := Accumulate(p, f, known, s);
            CappedHosts(q.hosts, q.hostsLimited, Join(sum, Single(f, known, s)).hosts)
  {
    CappedStep(p.hosts, p.hostsLimited, sum.hosts, f, Read(f, known, s));
  }

  lemma SingleClients(f: Frame, known: set<Address>, s: Scope)
    ensures var one := Single(f, known, s); one.hosts.Keys == one.clients && !one.hostsLimited
  {}

  lemma CappedAccumulate(p: FrameProjection, sum: FrameProjection, f: Frame, known: set<Address>, s: Scope)
    requires Capped(p, sum)
    ensures Capped(Accumulate(p, f, known, s), Join(sum, Single(f, known, s)))
  {
    AccumulateIsJoin(p, f, known, s);
    AccumulateHosts(p, sum, f, known, s);
    SingleClients(f, known, s);
    CappedCombine(p, sum, Single(f, known, s), Accumulate(p, f, known, s));
  }

  lemma CappedCombine(p: FrameProjection, sum: FrameProjection, one: FrameProjection, q: FrameProjection)
    requires Capped(p, sum) && Plain(q) == Plain(Join(p, one))
    requires one.hosts.Keys == one.clients && !one.hostsLimited
    requires CappedHosts(q.hosts, q.hostsLimited, Join(sum, one).hosts)
    ensures Capped(q, Join(sum, one))
  {
    PlainJoin(p, sum, one);
  }

  /** One pass over some frames agrees with their uncapped sum, except that beyond the cap it
      reports its host details as limited. */
  lemma {:induction false} ProjectIsSummed(xs: seq<Sight>)
    ensures Capped(ProjectSights(xs), Summed(xs))
  {
    if xs != [] {
      var front, x := xs[..|xs| - 1], xs[|xs| - 1];
      ProjectIsSummed(front);
      CappedAccumulate(ProjectSights(front), Summed(front), x.frame, x.known, x.scope);
    }
  }

  function Concat<T>(slices: seq<seq<T>>): seq<T> {
    if slices == [] then [] else Concat(slices[..|slices| - 1]) + slices[|slices| - 1]
  }

  function Projections(slices: seq<seq<Frame>>, known: set<Address>, s: Scope): (ps: seq<FrameProjection>)
    ensures |ps| == |slices|
  {
    seq(|slices|, i requires 0 <= i < |slices| => Project(slices[i], known, s))
  }

  function SightProjections(slices: seq<seq<Sight>>): (ps: seq<FrameProjection>)
    ensures |ps| == |slices|
  {
    seq(|slices|, i requires 0 <= i < |slices| => ProjectSights(slices[i]))
  }

  /** Joined projections against the uncapped sum over the same frames. */
  ghost predicate Covers(all: FrameProjection, latest: Activity, sum: FrameProjection) {
    && Plain(all) == Plain(sum) && sum.hosts.Keys == sum.clients && !sum.hostsLimited
    && latest.Keys == all.hosts.Keys <= sum.clients
    && (all.hostsLimited ==> |sum.clients| > MAX_HOST_DETAILS)
    && (!all.hostsLimited ==> all.hosts == sum.hosts)
  }

  lemma CoversStep(all: FrameProjection, latest: Activity, sum: FrameProjection, p: FrameProjection,
      part: FrameProjection)
    requires Covers(all, latest, sum) && Capped(p, part)
    ensures Covers(Join(all, p), LatestActivity(latest, p.hosts), Join(sum, part))
  {
    PlainJoin(all, sum, p);
    PlainJoin(p, part, sum);
    SubsetSize(sum.clients, sum.clients + part.clients);
    SubsetSize(part.clients, sum.clients + part.clients);
    assert |part.clients| == |part.hosts|;
  }

  lemma {:induction false} SlicesCover(slices: seq<seq<Sight>>)
    ensures var ps := SightProjections(slices); Covers(JoinAll(ps), LatestAll(ps), Summed(Concat(slices)))
  {
    if slices != [] {
      var front, last := slices[..|slices| - 1], slices[|slices| - 1];
      var ps := SightProjections(slices);
      assert ps[..|ps| - 1] == SightProjections(front);
      SlicesCover(front);
      SummedSplit(Concat(front), last);
      ProjectIsSummed(last);
      CoversStep(JoinAll(ps[..|ps| - 1]), LatestAll(ps[..|ps| - 1]), Summed(Concat(front)), ps[|ps| - 1], Summed(last));
    }
  }

  /** Equal, or equal but for host details that both report as limited. */
  ghost predicate Agree(p: FrameProjection, q: FrameProjection) {
    Plain(p) == Plain(q) && p.hostsLimited == q.hostsLimited && (!p.hostsLimited ==> p == q)
  }

  lemma CoversAgree(all: FrameProjection, latest: Activity, sum: FrameProjection, whole: FrameProjection,
      m: FrameProjection)
    requires Covers(all, latest, sum) && Capped(whole, sum)
    requires m == all.(hosts := Restrict(all.hosts, MostRecent(latest, MAX_HOST_DETAILS)),
                       hostsLimited := all.hostsLimited || |latest| > MAX_HOST_DETAILS)
    ensures Agree(m, whole)
  {
    assert |latest| == |latest.Keys| && |sum.hosts| == |sum.hosts.Keys|;
    assert Plain(m) == Plain(all);
    if !m.hostsLimited {
      assert Restrict(all.hosts, MostRecent(latest, MAX_HOST_DETAILS)) == all.hosts;
      assert m.hosts == whole.hosts;
      assert m == Plain(m).(hosts := m.hosts) && whole == Plain(whole).(hosts := whole.hosts);
    }
  }

  /** The merge of per-slice projections is the projection of all the frames at once, each read under
      its own BSSIDs and scope. Beyond the cap, and only there, host details may differ, and then both
      say so. */
  lemma MergedIsOnePass(slices: seq<seq<Sight>>)
    ensures Agree(Merged(SightProjections(slices)), ProjectSights(Concat(slices)))
  {
    var ps := SightProjections(slices);
    SlicesCover(slices);
    ProjectIsSummed(Concat(slices));
    CoversAgree(JoinAll(ps), LatestAll(ps), Summed(Concat(slices)), ProjectSights(Concat(slices)), Merged(ps));
  }

  function EachRead(slices: seq<seq<Frame>>, known: set<Address>, s: Scope): (xs: seq<seq<Sight>>)
    ensures |xs| == |slices|
  {
    seq(|slices|, i requires 0 <= i < |slices| => Sights(slices[i], known, s))
  }

  lemma {:induction false} ConcatRead(slices: seq<seq<Frame>>, known: set<Address>, s: Scope)
    ensures Concat(EachRead(slices, known, s)) == Sights(Concat(slices), known, s)
  {
    if slices != [] {
      var front, last := slices[..|slices| - 1], slices[|slices| - 1];
      ConcatRead(front, known, s);
      assert EachRead(slices, known, s)[..|slices| - 1] == EachRead(front, known, s);
    }
  }

  lemma ProjectionsRead(slices: seq<seq<Frame>>, known: set<Address>, s: Scope)
    ensures Projections(slices, known, s) == SightProjections(EachRead(slices, known, s))
  {
    forall i | 0 <= i < |slices| ensures Projections(slices, known, s)[i]
      == ProjectSights(Sights(slices[i], known, s)) {
      ProjectIsSights(slices[i], known, s);
    }
  }

  /** So it is for slices all read under the same BSSIDs and scope. */
  lemma MergedIsProject(slices: seq<seq<Frame>>, known: set<Address>, s: Scope)
    ensures Agree(Merged(Projections(slices, known, s)), Project(Concat(slices), known, s))
  {
    ProjectionsRead(slices, known, s);
    ConcatRead(slices, known, s);
    ProjectIsSights(Concat(slices), known, s);
    MergedIsOnePass(EachRead(slices, known, s));
  }

  /** Host details are limited for exactly the windows showing more clients than the cap. */
  lemma LimitedExactly(xs: seq<Sight>)
    ensures ProjectSights(xs).hostsLimited <==> |ProjectSights(xs).clients| > 1024
    ensures !ProjectSights(xs).hostsLimited ==> ProjectSights(xs).hosts.Keys == ProjectSights(xs).clients
  {
    ProjectIsSummed(xs);
    var p, sum := ProjectSights(xs), Summed(xs);
    assert p.clients == Plain(p).clients == sum.clients;
    assert |sum.hosts| == |sum.hosts.Keys|;
  }
}
