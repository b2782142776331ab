/** Bounded per-host details kept beside the set of clients. */
module HostTracking {
  import opened Wrappers
  import opened Frames

  const MAX_HOST_DETAILS: nat := 1024

  /** A value with the time it was last observed. */
  datatype Seen<T> = Seen(value: T, time: real)

  datatype HostSummary = HostSummary(
    bssid: Address,
    lastActivity: real,
    lastTx: Option<Seen<Option<int>>>,
    vendor: Option<Seen<string>>,
    txFrames: nat,
    rxFrames: nat,
    txEligible: nat,
    txRetries: nat)

  function NewHost(bssid: Address, time: real): HostSummary {
    HostSummary(bssid, time, None, None, 0, 0, 0, 0)
  }

  function Bit(b: bool): nat { if b then 1 else 0 }

  /** The later of two observations; the second when they tie. */
  function Later<T>(a: Option<Seen<T>>, b: Option<Seen<T>>): Option<Seen<T>> {
    if b.Some? && (a.None? || b.value.time >= a.value.time) then b else a
  }

  function VendorSeen(vendor: Option<string>, time: real): Option<Seen<string>> {
    if vendor.Some? && vendor.value != "" then Some(Seen(vendor.value, time)) else None
  }

  function Observe(h: HostSummary, mac: Address, f: Frame, bssid: Address, eligible: bool): HostSummary {
    var transmitted := f.transmitter == Some(mac);
    HostSummary(
      if f.timestamp >= h.lastActivity then bssid else h.bssid,
      if f.timestamp >= h.lastActivity then f.timestamp else h.lastActivity,
      if transmitted then Later(h.lastTx, Some(Seen(f.rssi, f.timestamp))) else h.lastTx,
      Later(h.vendor, VendorSeen(if transmitted then f.transmitterVendor else f.receiverVendor, f.timestamp)),
      h.txFrames + Bit(transmitted),
      h.rxFrames + Bit(f.receiver == Some(mac)),
      h.txEligible + Bit(transmitted && eligible),
      h.txRetries + Bit(transmitted && eligible && f.retryFlag == Some(true)))
  }

  function MergeHost(h: HostSummary, s: HostSummary): HostSummary {
    HostSummary(
      if s.lastActivity >= h.lastActivity then s.bssid else h.bssid,
      if s.lastActivity >= h.lastActivity then s.lastActivity else h.lastActivity,
      Later(h.lastTx, s.lastTx),
      Later(h.vendor, s.vendor),
      h.txFrames + s.txFrames,
      h.rxFrames + s.rxFrames,
      h.txEligible + s.txEligible,
      h.txRetries + s.txRetries)
  }

  type Hosts = map<Address, HostSummary>

  /** What one frame alone says about one host. */
  function HostSeen(mac: Address, f: Frame, bssid: Address, eligible: bool): HostSummary {
    Observe(NewHost(bssid, f.timestamp), mac, f, bssid, eligible)
  }

  /** The capped table: a new host is refused, and its refusal reported, at the cap. */
  function ObserveHost(hosts: Hosts, mac: Address, f: Frame, bssid: Address, eligible: bool): (r: (Hosts, bool)) {
    if mac in hosts then (hosts[mac := Observe(hosts[mac], mac, f, bssid, eligible)], false)
    else if |hosts| >= MAX_HOST_DETAILS then (hosts, true)
    else (hosts[mac := HostSeen(mac, f, bssid, eligible)], false)
  }

  function JoinHosts(a: Hosts, b: Hosts): (r: Hosts)
    ensures r.Keys == a.Keys + b.Keys
  {
    map m | m in a.Keys + b.Keys ::
      if m in a && m in b then MergeHost(a[m], b[m]) else if m in a then a[m] else b[m]
  }

  lemma ObserveIsMerge(h: HostSummary, mac: Address, f: Frame, bssid: Address, eligible: bool)
    ensures Observe(h, mac, f, bssid, eligible) == MergeHost(h, HostSeen(mac, f, bssid, eligible))
  {}

  lemma MergeHostAssociative(a: HostSummary, b: HostSummary, c: HostSummary)
    ensures MergeHost(MergeHost(a, b), c) == MergeHost(a, MergeHost(b, c))
  {}

  lemma JoinHostsAssociative(a: Hosts, b: Hosts, c: Hosts)
    ensures JoinHosts(JoinHosts(a, b), c) == JoinHosts(a, JoinHosts(b, c))
  {
    var l, r := JoinHosts(JoinHosts(a, b), c), JoinHosts(a, JoinHosts(b, c));
    forall m | m in l ensures l[m] == r[m] {
      if m in a && m in b && m in c { MergeHostAssociative(a[m], b[m], c[m]); }
    }
  }

  // ----- selection when many per-second tables are merged -----

  type Activity = map<Address, real>

  function LatestActivity(latest: Activity, hosts: Hosts): Activity {
    map m | m in latest.Keys + hosts.Keys ::
      if m in latest && m in hosts then
        (if hosts[m].lastActivity > latest[m] then hosts[m].lastActivity else latest[m])
      else if m in latest then latest[m] else hosts[m].lastActivity
  }

  predicate LessAddress(a: Address, b: Address, i: nat)
    requires i <= 6
    decreases 6 - i
  {
    i < 6 && (a[i] < b[i] || (a[i] == b[i] && LessAddress(a, b, i + 1)))
  }

  /** Ranked by latest activity, then by address. */
  predicate RanksAbove(a: Address, b: Address, latest: Activity)
    requires a in latest && b in latest
  {
    latest[a] > latest[b] || (latest[a] == latest[b] && LessAddress(b, a, 0))
  }

  /** The hosts with fewer than `limit` hosts ranked above them. */
  function MostRecent(latest: Activity, limit: nat): (r: set<Address>)
    ensures r <= latest.Keys
    ensures |latest| <= limit ==> r == latest.Keys
  {
    var r := set m | m in latest && |set n | n in latest && RanksAbove(n, m, latest)| < limit;
    assert |latest| <= limit ==> r == latest.Keys by {
      if |latest| <= limit {
        forall m | m in latest ensures m in r {
          var above := set n | n in latest && RanksAbove(n, m, latest);
          NotBelowItself(m, 0);
          assert above <= latest.Keys - {m};
          SubsetSize(above, latest.Keys - {m});
        }
      }
    }
    r
  }

  lemma NotBelowItself(a: Address, i: nat)
    requires i <= 6
    ensures !LessAddress(a, a, i)
    decreases 6 - i
  {
    if i < 6 { NotBelowItself(a, i + 1); }
  }

  lemma SubsetSize<T>(a: set<T>, b: set<T>)
    requires a <= b
    ensures |a| <= |b|
    decreases a
  {
    if a != {} {
      var x :| x in a;
      SubsetSize(a - {x}, b - {x});
    }
  }

  lemma LessTransitive(a: Address, b: Address, c: Address, i: nat)
    requires i <= 6 && LessAddress(a, b, i) && LessAddress(b, c, i)
    ensures LessAddress(a, c, i)
    decreases 6 - i
  {
    if a[i] == b[i] && b[i] == c[i] { LessTransitive(a, b, c, i + 1); }
  }

  lemma LessTotal(a: Address, b: Address, i: nat)
    requires i <= 6 && a[i..] != b[i..]
    ensures LessAddress(a, b, i) != LessAddress(b, a, i)
    decreases 6 - i
  {
    if i < 6 && a[i] == b[i] {
      assert a[i..] == [a[i]] + a[i + 1..] && b[i..] == [b[i]] + b[i + 1..];
      LessTotal(a, b, i + 1);
    }
  }

  lemma RanksTransitive(a: Address, b: Address, c: Address, latest: Activity)
    requires a in latest && b in latest && c in latest && RanksAbove(a, b, latest) && RanksAbove(b, c, latest)
    ensures RanksAbove(a, c, latest)
  {
    if latest[a] == latest[c] { LessTransitive(c, b, a, 0); }
  }

  lemma RanksTotal(a: Address, b: Address, latest: Activity)
    requires a in latest && b in latest && a != b
    ensures RanksAbove(a, b, latest) != RanksAbove(b, a, latest)
  {
    if latest[a] == latest[b] {
      assert a[0..] == a && b[0..] == b;
      LessTotal(a, b, 0);
    }
  }

  function Above(m: Address, latest: Activity): set<Address>
    requires m in latest
  {
    set n | n in latest && RanksAbove(n, m, latest)
  }

  /** Every host kept ranks above every host left out. */
  lemma KeptOutrank(latest: Activity, limit: nat, a: Address, b: Address)
    requires a in MostRecent(latest, limit) && b in latest && b !in MostRecent(latest, limit)
    ensures RanksAbove(a, b, latest)
  {
    assert |Above(a, latest)| < limit <= |Above(b, latest)|;
    RanksTotal(a, b, latest);
    if RanksAbove(b, a, latest) {
      forall n | n in Above(b, latest) ensures n in Above(a, latest) { RanksTransitive(n, b, a, latest); }
      SubsetSize(Above(b, latest), Above(a, latest));
    }
  }

  /** The lowest-ranked of some hosts. */
  lemma {:induction false} Lowest(hosts: set<Address>, latest: Activity) returns (low: Address)
    requires hosts <= latest.Keys && hosts != {}
    ensures low in hosts && forall n :: n in hosts && n != low ==> RanksAbove(n, low, latest)
    decreases hosts
  {
    var x :| x in hosts;
    low := x;
    if hosts != {x} {
      assert hosts - {x} != {};
      var y := Lowest(hosts - {x}, latest);
      RanksTotal(x, y, latest);
      low := if RanksAbove(x, y, latest) then y else x;
      forall n | n in hosts && n != low ensures RanksAbove(n, low, latest) {
        if low == x && n != y { RanksTransitive(n, y, x, latest); }
      }
    }
  }

  /** Exactly as many hosts are kept as there are, or as the limit allows. */
  lemma {:induction false} KeptSize(latest: Activity, limit: nat)
    ensures |MostRecent(latest, limit)| == if |latest| <= limit then |latest| else limit
    decreases |latest|
  {
    if |latest| > limit {
      var low := Lowest(latest.Keys, latest);
      var rest := latest - {low};
      assert rest.Keys == latest.Keys - {low};
      KeptSize(rest, limit);
      assert Above(low, latest) == rest.Keys by {
        NotBelowItself(low, 0);
        assert forall n :: n in rest ==> RanksAbove(n, low, latest);
      }
      forall m | m in rest ensures Above(m, latest) == Above(m, rest) { RanksTotal(m, low, latest); }
      forall m ensures m in MostRecent(latest, limit) <==> m in MostRecent(rest, limit) {
        if m in rest { assert Above(m, latest) == Above(m, rest); }
      }
      assert MostRecent(latest, limit) == MostRecent(rest, limit);
    }
  }
}
