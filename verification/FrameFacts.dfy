/** What a projection counts, said of the frames' own fields: independent of how a frame is read. */
module FrameFacts {
  import opened Wrappers
  import opened Frames
  import opened HostTracking
  import opened Projection

  // ----- one frame -----

  predicate Unknown(a: Option<Address>, known: set<Address>) { a.None? || a.value !in known }

  /** The first known BSSID among the frame's own, TA, RA, SA and DA. */
  predicate FirstKnown(f: Frame, known: set<Address>, b: Address) {
    && b in known
    && (f.bssid == Some(b) || (Unknown(f.bssid, known)
      && (f.transmitter == Some(b) || (Unknown(f.transmitter, known)
        && (f.receiver == Some(b) || (Unknown(f.receiver, known)
          && (f.source == Some(b) || (Unknown(f.source, known) && f.destination == Some(b)))))))))
  }

  predicate AllUnknown(f: Frame, known: set<Address>) {
    && Unknown(f.bssid, known) && Unknown(f.transmitter, known) && Unknown(f.receiver, known)
    && Unknown(f.source, known) && Unknown(f.destination, known)
  }

  /** The BSSID a frame belongs to: the first known one, else the one it names. */
  predicate BelongsTo(f: Frame, known: set<Address>, b: Address) {
    FirstKnown(f, known, b) || (AllUnknown(f, known) && f.bssid == Some(b))
  }

  ghost predicate OrderedScope(s: Scope) {
    s.Primary? ==> forall a :: a in s.entries ==> Projection.Ordered(s.entries[a])
  }

  /** The latest definition no later than t is not too old, and is of the target frequency. */
  ghost predicate DefinedOnTarget(entries: seq<Entry>, t: real, frequency: int, maxAge: real) {
    exists i :: 0 <= i < |entries|
      && entries[i].primary == Some(frequency) && entries[i].time <= t && t - entries[i].time <= maxAge
      && forall j :: i < j < |entries| && entries[j].primary.Some? ==> t < entries[j].time
  }

  ghost predicate OnTarget(b: Address, t: real, s: Scope) {
    s.Primary? && b in s.entries && DefinedOnTarget(s.entries[b], t, s.frequency, s.maxAge)
  }

  /** Intact, and without a target frequency or of a BSSID that is on it. */
  ghost predicate Counted(f: Frame, known: set<Address>, s: Scope) {
    !f.badFcs && (s.Anywhere? || exists b :: BelongsTo(f, known, b) && OnTarget(b, f.timestamp, s))
  }

  predicate ToGroup(a: Option<Address>) { a.Some? && a.value[0] % 2 == 1 }

  /** A data frame, or a management frame of an exchange that is retried. */
  predicate RetriedKind(f: Frame) {
    f.frameType == Some(2) || (f.frameType == Some(0) && f.frameSubtype.Some?
      && (0 <= f.frameSubtype.value <= 3 || f.frameSubtype.value == 5 || 9 <= f.frameSubtype.value <= 13))
  }

  predicate Eligible(f: Frame) {
    !f.badFcs && !ToGroup(f.receiver) && !ToGroup(f.destination) && f.retryFlag.Some? && RetriedKind(f)
  }

  predicate Retry(f: Frame) { Eligible(f) && f.retryFlag == Some(true) }

  predicate OneStation(a: Address) { a[0] % 2 == 0 && a != [0, 0, 0, 0, 0, 0] }

  predicate OnLink(f: Frame, a: Address, b: Address) {
    (f.transmitter == Some(a) && f.receiver == Some(b)) || (f.transmitter == Some(b) && f.receiver == Some(a))
  }

  /** A data frame on a link between a known BSSID, which it belongs to, and one unknown station. */
  predicate ShowsClient(f: Frame, known: set<Address>, b: Address, c: Address) {
    f.frameType == Some(2) && FirstKnown(f, known, b) && OnLink(f, b, c) && c != b && c !in known && OneStation(c)
  }

  ghost predicate ShowsAsClient(f: Frame, known: set<Address>, c: Address) { exists b :: ShowsClient(f, known, b, c) }

  lemma BelongsExactly(f: Frame, known: set<Address>, b: Address)
    ensures KnownFrameBssid(f, known) == Some(b) <==> FirstKnown(f, known, b)
    ensures AssociatedBssid(f, known) == Some(b) <==> BelongsTo(f, known, b)
  {
    FirstKnownOf(f, known);
    hide KnownFrameBssid;
  }

  lemma FirstKnownOf(f: Frame, known: set<Address>)
    ensures KnownFrameBssid(f, known) ==
              if Knows(f.bssid, known) then f.bssid
              else if Knows(f.transmitter, known) then f.transmitter
              else if Knows(f.receiver, known) then f.receiver
              else if Knows(f.source, known) then f.source
              else if Knows(f.destination, known) then f.destination
              else None
  {
    AssociatedExactly(f, known);
    NoneKnown(f, known);
    hide KnownFrameBssid;
  }

  lemma NoneKnown(f: Frame, known: set<Address>)
    ensures KnownFrameBssid(f, known).None? <==> AllUnknown(f, known)
  {
    AppendedMembers(f);
    hide AppendNew, MacAddresses;
    var s := MacAddresses(f);
    if AllUnknown(f, known) { assert forall a :: a in s ==> a !in known; }
  }

  lemma AppendedMembers(f: Frame)
    ensures forall a :: a in MacAddresses(f) <==>
      f.bssid == Some(a) || f.transmitter == Some(a) || f.receiver == Some(a) || f.source == Some(a)
        || f.destination == Some(a)
  {
    var a := AppendNew([], f.bssid);
    var b := AppendNew(a, f.transmitter);
    var c := AppendNew(b, f.receiver);
    var d := AppendNew(c, f.source);
    NewMembers([], f.bssid);
    NewMembers(a, f.transmitter);
    NewMembers(b, f.receiver);
    NewMembers(c, f.source);
    NewMembers(d, f.destination);
    hide AppendNew;
  }

  lemma NewMembers(s: seq<Address>, a: Option<Address>)
    ensures forall x :: x in AppendNew(s, a) <==> x in s || a == Some(x)
  {}

  /** A frame of a BSSID is in scope exactly when that BSSID is on the target when it comes. */
  lemma ScopeExactly(f: Frame, b: Address, s: Scope)
    requires OrderedScope(s)
    ensures InScope(f, Some(b), s) <==> s.Anywhere? || OnTarget(b, f.timestamp, s)
    ensures s.Primary? ==> !InScope(f, None, s)
  {
    if s.Primary? && b in s.entries { LatestOnTarget(s.entries[b], f.timestamp, s); }
  }

  ghost predicate IsLatest(entries: seq<Entry>, i: nat, t: real)
    requires i < |entries|
  {
    && entries[i].time <= t && entries[i].primary.Some?
    && forall k :: i < k < |entries| ==> !(entries[k].time <= t && entries[k].primary.Some?)
  }

  lemma LatestOnTarget(entries: seq<Entry>, t: real, s: Scope)
    requires s.Primary? && Projection.Ordered(entries)
    ensures var n := BisectRight(Defined(entries), t);
            (n > 0 && Fresh(Defined(entries)[n - 1], t, s)) <==> DefinedOnTarget(entries, t, s.frequency, s.maxAge)
  {
    hide Defined, BisectRight;
    if i :| 0 <= i < |entries| && IsLatest(entries, i, t) {
      LatestDefinition(entries, t, i);
    } else {
      NoLatest(entries, |entries|, t);
      NoDefinition(entries, t);
    }
  }

  lemma {:induction false} NoLatest(entries: seq<Entry>, n: nat, t: real)
    requires n <= |entries|
    requires !exists i :: 0 <= i < |entries| && IsLatest(entries, i, t)
    requires forall k :: n <= k < |entries| ==> !(entries[k].time <= t && entries[k].primary.Some?)
    ensures forall k :: 0 <= k < |entries| ==> !(entries[k].time <= t && entries[k].primary.Some?)
  {
    if n > 0 {
      assert !IsLatest(entries, n - 1, t);
      NoLatest(entries, n - 1, t);
    }
  }

  lemma EligibleMeans(f: Frame)
    ensures RetryEligible(f) <==> Eligible(f)
  {
    EligibleExactly(f);
    hide RetryEligible;
  }

  /** What one frame counts as, whatever BSSIDs are known and whatever the scope. */
  lemma ReadMeans(f: Frame, known: set<Address>, s: Scope)
    requires OrderedScope(s)
    ensures var r := Read(f, known, s);
            && (r.observed <==> Counted(f, known, s) && f.retryFlag.Some?)
            && (r.eligible <==> Counted(f, known, s) && Eligible(f))
            && (r.retry <==> Counted(f, known, s) && Retry(f))
            && (forall b :: r.bssid == Some(b) <==> Counted(f, known, s) && BelongsTo(f, known, b))
            && (forall c :: r.client == Some(c) <==> Counted(f, known, s) && ShowsAsClient(f, known, c))
  {
    CountedExactly(f, known, s);
    EligibleMeans(f);
    forall b ensures AssociatedBssid(f, known) == Some(b) <==> BelongsTo(f, known, b) { BelongsExactly(f, known, b); }
    forall c ensures Read(f, known, s).client == Some(c) <==> Counted(f, known, s) && ShowsAsClient(f, known, c) {
      ClientMeans(f, known, c);
      ReadClient(f, known, s, c);
      hide Read, ClientIs, ShowsAsClient, Counted;
    }
    hide AssociatedBssid, KnownFrameBssid, InScope, Counted, RetryEligible, ClientsOf, BelongsTo, ShowsAsClient;
  }

  lemma CountedExactly(f: Frame, known: set<Address>, s: Scope)
    requires OrderedScope(s)
    ensures Counted(f, known, s) <==> !f.badFcs && InScope(f, AssociatedBssid(f, known), s)
  {
    var a := AssociatedBssid(f, known);
    if a.Some? {
      ScopeExactly(f, a.value, s);
      forall b ensures a == Some(b) <==> BelongsTo(f, known, b) { BelongsExactly(f, known, b); }
    } else {
      forall b ensures !BelongsTo(f, known, b) { BelongsExactly(f, known, b); }
      if s.Primary? { ScopeExactly(f, [0, 0, 0, 0, 0, 0], s); }
    }
    hide AssociatedBssid, BelongsTo, OnTarget, InTimeline;
  }

  /** The client a data frame shows, if it has a known BSSID. */
  predicate ClientIs(f: Frame, known: set<Address>, c: Address) {
    var b := KnownFrameBssid(f, known);
    f.frameType == Some(2) && b.Some? && FirstOf(ClientsOf(f, b.value, known)) == Some(c)
  }

  lemma ReadClient(f: Frame, known: set<Address>, s: Scope, c: Address)
    ensures Read(f, known, s).client == Some(c) <==>
      !f.badFcs && InScope(f, AssociatedBssid(f, known), s) && ClientIs(f, known, c)
  {
    hide AssociatedBssid, KnownFrameBssid, InScope, RetryEligible, ClientsOf;
  }

  lemma ClientMeans(f: Frame, known: set<Address>, c: Address)
    ensures ClientIs(f, known, c) <==> ShowsAsClient(f, known, c)
  {
    var k := KnownFrameBssid(f, known);
    if k.Some? {
      BelongsExactly(f, known, k.value);
      ClientExactly(f, k.value, known, c);
      assert FirstOf(ClientsOf(f, k.value, known)) == Some(c) <==> ClientsOf(f, k.value, known) == [c];
      hide ClientsOf, IsClient, KnownFrameBssid;
      UnicastMeans(c);
      forall b ensures FirstKnown(f, known, b) <==> b == k.value { BelongsExactly(f, known, b); }
      assert ShowsClient(f, known, k.value, c) <==> ClientIs(f, known, c);
      hide FirstKnown;
    } else {
      forall b ensures !FirstKnown(f, known, b) { BelongsExactly(f, known, b); }
    }
  }

  lemma UnicastMeans(a: Address)
    ensures IsUnicast(a) <==> OneStation(a)
  {}

  // ----- many frames -----

  datatype Aspect = Whatever | Readable | Counting | Retried

  predicate Has(a: Aspect, f: Frame) {
    match a
    case Whatever => true
    case Readable => f.retryFlag.Some?
    case Counting => Eligible(f)
    case Retried => Retry(f)
  }

  ghost predicate CountedIn(x: Sight) { Counted(x.frame, x.known, x.scope) }

  /** A frame that counts, for one BSSID or for any. */
  ghost predicate CountsFor(x: Sight, of: Option<Address>) {
    CountedIn(x) && (of.Some? ==> BelongsTo(x.frame, x.known, of.value))
  }

  /** How many frames count, for one BSSID or for any, and have an aspect. */
  ghost function HowMany(xs: seq<Sight>, of: Option<Address>, a: Aspect): nat {
    if xs == [] then 0
    else
      var x := xs[|xs| - 1];
      HowMany(xs[..|xs| - 1], of, a) + if CountsFor(x, of) && Has(a, x.frame) then 1 else 0
  }

  /** Some frame that counts shows a client. */
  ghost predicate Shown(xs: seq<Sight>, of: Option<Address>, c: Address) {
    exists i :: 0 <= i < |xs| && CountsFor(xs[i], of) && ShowsAsClient(xs[i].frame, xs[i].known, c)
  }

  ghost predicate Occurs(xs: seq<Sight>, b: Address) {
    exists i :: 0 <= i < |xs| && CountsFor(xs[i], Some(b))
  }

  ghost predicate AllOrdered(xs: seq<Sight>) { forall i :: 0 <= i < |xs| ==> OrderedScope(xs[i].scope) }

  lemma ShownNext(xs: seq<Sight>, x: Sight, of: Option<Address>, c: Address)
    ensures Shown(xs + [x], of, c) <==> Shown(xs, of, c) || (CountsFor(x, of) && ShowsAsClient(x.frame, x.known, c))
  {
    hide CountsFor, ShowsAsClient;
    var all := xs + [x];
    if Shown(xs, of, c) {
      var i :| 0 <= i < |xs| && CountsFor(xs[i], of) && ShowsAsClient(xs[i].frame, xs[i].known, c);
      assert all[i] == xs[i];
    }
    if Shown(all, of, c) {
      var i :| 0 <= i < |all| && CountsFor(all[i], of) && ShowsAsClient(all[i].frame, all[i].known, c);
      if i < |xs| { assert xs[i] == all[i]; }
    }
    assert all[|xs|] == x;
  }

  lemma OccursNext(xs: seq<Sight>, x: Sight, b: Address)
    ensures Occurs(xs + [x], b) <==> Occurs(xs, b) || CountsFor(x, Some(b))
  {
    hide CountsFor;
    var all := xs + [x];
    assert forall i :: 0 <= i < |xs| ==> all[i] == xs[i];
    assert all[|xs|] == x;
  }

  /** Every count of a projection, and its clients, are those of the frames' own fields. */
  lemma {:induction false} ProjectionExactly(xs: seq<Sight>)
    requires AllOrdered(xs)
    ensures var p := ProjectSights(xs);
            && p.frameCount == |xs| && p.retryObserved == HowMany(xs, None, Readable)
            && p.retryEligible == HowMany(xs, None, Counting) && p.retries == HowMany(xs, None, Retried)
            && forall c :: c in p.clients <==> Shown(xs, None, c)
  {
    hide Read, CountedIn, ShowsAsClient, Shown, WithHost, CountByBssid, Has;
    if xs == [] {
      NothingShown(None);
    } else {
      var front, x := xs[..|xs| - 1], xs[|xs| - 1];
      assert xs == front + [x];
      ProjectionExactly(front);
      SightMeans(x);
      forall c ensures c in ProjectSights(xs).clients <==> Shown(xs, None, c) { ShownNext(front, x, None, c); }
    }
  }

  lemma NothingShown(of: Option<Address>)
    ensures forall c :: !Shown([], of, c)
  {}

  lemma SightMeans(x: Sight)
    requires OrderedScope(x.scope)
    ensures var r := Read(x.frame, x.known, x.scope);
            && (r.observed <==> CountedIn(x) && Has(Readable, x.frame))
            && (r.eligible <==> CountedIn(x) && Has(Counting, x.frame))
            && (r.retry <==> CountedIn(x) && Has(Retried, x.frame))
            && (forall b :: r.bssid == Some(b) <==> CountsFor(x, Some(b)))
            && (forall c :: r.client == Some(c) <==> CountedIn(x) && ShowsAsClient(x.frame, x.known, c))
  {
    ReadMeans(x.frame, x.known, x.scope);
    hide Read, Counted, Eligible, Retry, BelongsTo, ShowsAsClient;
  }

  /** So are every BSSID's counts and clients, and its first and last times. */
  lemma {:induction false} SummaryExactly(xs: seq<Sight>, b: Address)
    requires AllOrdered(xs)
    ensures var p := ProjectSights(xs); var m, of := SummaryOf(p.byBssid, b), Some(b);
            && (b in p.byBssid <==> Occurs(xs, b))
            && m.frameCount == HowMany(xs, of, Whatever) && m.retryObserved == HowMany(xs, of, Readable)
            && m.retryEligible == HowMany(xs, of, Counting) && m.retries == HowMany(xs, of, Retried)
            && (forall c :: c in m.clients <==> Shown(xs, of, c))
  {
    hide Read, CountedIn, ShowsAsClient, Shown, WithHost, Occurs, BelongsTo;
    if xs == [] {
      NothingShown(Some(b));
      assert !Occurs([], b) by { NoneOccurs(b); }
    } else {
      var front, x := xs[..|xs| - 1], xs[|xs| - 1];
      assert xs == front + [x];
      SummaryExactly(front, b);
      SightMeans(x);
      OccursNext(front, x, b);
      forall c ensures c in SummaryOf(ProjectSights(xs).byBssid, b).clients <==> Shown(xs, Some(b), c) {
        ShownNext(front, x, Some(b), c);
      }
    }
  }

  lemma NoneOccurs(b: Address)
    ensures !Occurs([], b)
  {}

  /** The first and last times of a BSSID are the least and the greatest of its frames' times. */
  ghost predicate Bounds(xs: seq<Sight>, b: Address, first: Option<real>, last: Option<real>) {
    && (first.Some? <==> Occurs(xs, b)) && (last.Some? <==> Occurs(xs, b))
    && (forall i :: 0 <= i < |xs| && CountsFor(xs[i], Some(b)) ==>
          first.Some? && last.Some? && first.value <= xs[i].frame.timestamp <= last.value)
    && (first.Some? ==> exists i :: 0 <= i < |xs| && CountsFor(xs[i], Some(b)) && xs[i].frame.timestamp == first.value)
    && (last.Some? ==> exists i :: 0 <= i < |xs| && CountsFor(xs[i], Some(b)) && xs[i].frame.timestamp == last.value)
  }

  lemma {:induction false} TimesExactly(xs: seq<Sight>, b: Address)
    requires AllOrdered(xs)
    ensures var m := SummaryOf(ProjectSights(xs).byBssid, b); Bounds(xs, b, m.first, m.last)
  {
    hide Read, CountsFor, WithHost, Occurs, Bounds, Earliest, Latest;
    if xs == [] {
      NoBounds(b);
    } else {
      var front, x := xs[..|xs| - 1], xs[|xs| - 1];
      assert xs == front + [x];
      TimesExactly(front, b);
      SightMeans(x);
      var m := SummaryOf(ProjectSights(front).byBssid, b);
      BoundsNext(front, x, b, m.first, m.last);
    }
  }

  lemma NoBounds(b: Address)
    ensures Bounds([], b, None, None)
  {}

  lemma BoundsNext(xs: seq<Sight>, x: Sight, b: Address, first: Option<real>, last: Option<real>)
    requires Bounds(xs, b, first, last)
    ensures if CountsFor(x, Some(b))
            then Bounds(xs + [x], b, Earliest(first, Some(x.frame.timestamp)), Latest(last, Some(x.frame.timestamp)))
            else Bounds(xs + [x], b, first, last)
  {
    hide CountsFor;
    var all := xs + [x];
    assert forall i :: 0 <= i < |xs| ==> all[i] == xs[i];
    assert all[|xs|] == x;
    OccursNext(xs, x, b);
  }

  // ----- hosts -----

  /** What a frame that shows a host may tell of it. */
  datatype Told = Activity | Signal | Vendor

  function VendorIn(f: Frame, c: Address): Option<string> {
    if f.transmitter == Some(c) then f.transmitterVendor else f.receiverVendor
  }

  ghost predicate ShowsHost(x: Sight, c: Address) { CountedIn(x) && ShowsAsClient(x.frame, x.known, c) }

  ghost predicate Tells(x: Sight, c: Address, what: Told) {
    && ShowsHost(x, c)
    && (what.Signal? ==> x.frame.transmitter == Some(c))
    && (what.Vendor? ==> VendorIn(x.frame, c).Some? && VendorIn(x.frame, c).value != "")
  }

  /** The latest frame that tells it, the last of them in a tie; none if there is none. */
  ghost predicate LastToTell(xs: seq<Sight>, c: Address, what: Told, last: Option<nat>) {
    && (last.None? ==> forall j :: 0 <= j < |xs| ==> !Tells(xs[j], c, what))
    && (last.Some? ==>
          && last.value < |xs| && Tells(xs[last.value], c, what)
          && forall j :: 0 <= j < |xs| && Tells(xs[j], c, what) ==>
               xs[j].frame.timestamp < xs[last.value].frame.timestamp
               || (xs[j].frame.timestamp == xs[last.value].frame.timestamp && j <= last.value))
  }

  ghost function NextToTell(xs: seq<Sight>, x: Sight, c: Address, what: Told, last: Option<nat>): Option<nat>
    requires last.Some? ==> last.value < |xs|
  {
    if Tells(x, c, what) && (last.None? || xs[last.value].frame.timestamp <= x.frame.timestamp) then Some(|xs|)
      else last
  }

  lemma ToldNext(xs: seq<Sight>, x: Sight, c: Address, what: Told, last: Option<nat>)
    requires LastToTell(xs, c, what, last)
    ensures LastToTell(xs + [x], c, what, NextToTell(xs, x, c, what, last))
  {
    hide Tells;
    var all := xs + [x];
    assert forall i :: 0 <= i < |xs| ==> all[i] == xs[i];
    assert all[|xs|] == x;
  }

  /** How many of the frames that show a host have a part in it. */
  ghost function HowManyPlay(xs: seq<Sight>, c: Address, role: Role): nat {
    if xs == [] then 0
    else
      var x := xs[|xs| - 1];
      HowManyPlay(xs[..|xs| - 1], c, role) + if ShowsHost(x, c) && HasRole(role, x.frame, c) then 1 else 0
  }

  predicate HasRole(role: Role, f: Frame, c: Address) {
    match role
    case Sent => f.transmitter == Some(c)
    case Received => f.receiver == Some(c)
    case SentEligible => f.transmitter == Some(c) && Eligible(f)
    case SentRetry => f.transmitter == Some(c) && Retry(f)
  }

  lemma PlaysMeans(role: Role, f: Frame, c: Address)
    ensures Plays(role, f, c) <==> HasRole(role, f, c)
  {
    EligibleMeans(f);
    hide RetryEligible, Eligible;
  }

  ghost predicate ToldOf(h: HostSummary, xs: seq<Sight>, active: nat, signal: Option<nat>, vendor: Option<nat>,
      c: Address)
    requires active < |xs| && (signal.Some? ==> signal.value < |xs|) && (vendor.Some? ==> vendor.value < |xs|)
  {
    && h.lastActivity == xs[active].frame.timestamp && BelongsTo(xs[active].frame, xs[active].known, h.bssid)
    && h.lastTx == (if signal.None? then None
                    else Some(Seen(xs[signal.value].frame.rssi, xs[signal.value].frame.timestamp)))
    && h.vendor == (if vendor.None? || VendorIn(xs[vendor.value].frame, c).None? then None
                    else Some(Seen(VendorIn(xs[vendor.value].frame, c).value, xs[vendor.value].frame.timestamp)))
  }

  /** A host has details exactly when some frame shows it, and they are what the latest frames
      showing it told. */
  ghost predicate HostOk(hosts: Hosts, xs: seq<Sight>, c: Address, active: Option<nat>, signal: Option<nat>,
      vendor: Option<nat>)
  {
    && LastToTell(xs, c, Activity, active) && LastToTell(xs, c, Signal, signal) && LastToTell(xs, c, Vendor, vendor)
    && (c in hosts <==> active.Some?)
    && (c in hosts ==> ToldOf(hosts[c], xs, active.value, signal, vendor, c))
  }

  lemma NobodyTells(c: Address)
    ensures HostOk(map[], [], c, None, None, None)
  {}

  lemma TellsShown(x: Sight, c: Address)
    ensures Tells(x, c, Activity) <==> ShowsHost(x, c)
    ensures Tells(x, c, Signal) <==> ShowsHost(x, c) && x.frame.transmitter == Some(c)
    ensures Tells(x, c, Vendor) <==> ShowsHost(x, c) && VendorSeen(VendorIn(x.frame, c), x.frame.timestamp).Some?
  {
    hide ShowsHost;
  }

  lemma HostStep(hosts: Hosts, xs: seq<Sight>, x: Sight, r: Reading, c: Address, active: Option<nat>,
      signal: Option<nat>,
      vendor: Option<nat>)
    requires HostOk(hosts, xs, c, active, signal, vendor) && r.Valid() && !WithHost(hosts, x.frame, r).1
    requires r.client == Some(c) <==> ShowsHost(x, c)
    requires forall b :: r.bssid == Some(b) ==> BelongsTo(x.frame, x.known, b)
    ensures HostOk(WithHost(hosts, x.frame, r).0, xs + [x], c, NextToTell(xs, x, c, Activity, active),
                   NextToTell(xs, x, c, Signal, signal), NextToTell(xs, x, c, Vendor, vendor))
  {
    ToldNext(xs, x, c, Activity, active);
    ToldNext(xs, x, c, Signal, signal);
    ToldNext(xs, x, c, Vendor, vendor);
    TellsShown(x, c);
    hide Tells, ShowsHost, BelongsTo;
    var all := xs + [x];
    assert forall i :: 0 <= i < |xs| ==> all[i] == xs[i];
    assert all[|xs|] == x;
  }

  /** While no host was refused, exactly the hosts shown have details, and these are what the latest
      frames showing a host told of it, the last of them in a tie. */
  lemma {:induction false} HostExactly(xs: seq<Sight>, c: Address)
    returns (active: Option<nat>, signal: Option<nat>, vendor: Option<nat>)
    requires AllOrdered(xs) && !ProjectSights(xs).hostsLimited
    ensures HostOk(ProjectSights(xs).hosts, xs, c, active, signal, vendor)
    ensures active.Some? <==> exists i :: 0 <= i < |xs| && ShowsHost(xs[i], c)
  {
    hide Read, ShowsHost, WithHost, CountByBssid, HostOk, BelongsTo;
    active, signal, vendor := None, None, None;
    if xs == [] {
      NobodyTells(c);
    } else {
      var front, x := xs[..|xs| - 1], xs[|xs| - 1];
      assert xs == front + [x];
      active, signal, vendor := HostExactly(front, c);
      var r := Read(x.frame, x.known, x.scope);
      SightMeans(x);
      HostShown(x, c);
      HostStep(ProjectSights(front).hosts, front, x, r, c, active, signal, vendor);
      ToldInRange(ProjectSights(front).hosts, front, c, active, signal, vendor);
      active, signal, vendor := NextToTell(front, x, c, Activity, active), NextToTell(front, x, c, Signal, signal),
        NextToTell(front, x, c, Vendor, vendor);
    }
    HostActive(ProjectSights(xs).hosts, xs, c, active, signal, vendor);
  }

  lemma ToldInRange(hosts: Hosts, xs: seq<Sight>, c: Address, active: Option<nat>, signal: Option<nat>,
      vendor: Option<nat>)
    requires HostOk(hosts, xs, c, active, signal, vendor)
    ensures (active.Some? ==> active.value < |xs|) && (signal.Some? ==> signal.value < |xs|)
    ensures vendor.Some? ==> vendor.value < |xs|
  {}

  lemma HostShown(x: Sight, c: Address)
    ensures ShowsHost(x, c) <==> CountedIn(x) && ShowsAsClient(x.frame, x.known, c)
    ensures forall b :: CountsFor(x, Some(b)) ==> BelongsTo(x.frame, x.known, b)
  {
    hide CountedIn, ShowsAsClient, BelongsTo;
  }

  lemma HostActive(hosts: Hosts, xs: seq<Sight>, c: Address, active: Option<nat>, signal: Option<nat>,
      vendor: Option<nat>)
    requires HostOk(hosts, xs, c, active, signal, vendor)
    ensures active.Some? <==> exists i :: 0 <= i < |xs| && ShowsHost(xs[i], c)
  {
    hide ShowsHost, ToldOf;
    forall i | 0 <= i < |xs| ensures Tells(xs[i], c, Activity) <==> ShowsHost(xs[i], c) { TellsShown(xs[i], c); }
    hide Tells;
  }

  /** And its counters are those of the frames that show it. */
  lemma {:induction false} HostCountsExactly(xs: seq<Sight>, c: Address, role: Role)
    requires AllOrdered(xs) && !ProjectSights(xs).hostsLimited
    ensures CountOf(ProjectSights(xs).hosts, c, role) == HowManyPlay(xs, c, role)
  {
    hide Read, ShowsHost, CountByBssid, CountOf, HasRole, Plays, RetryEligible, WithHost;
    if xs == [] {
      assert CountOf(map[], c, role) == 0 by { NoCount(c, role); }
    } else {
      var front, x := xs[..|xs| - 1], xs[|xs| - 1];
      assert xs == front + [x];
      HostCountsExactly(front, c, role);
      SightMeans(x);
      HostShown(x, c);
      PlaysMeans(role, x.frame, c);
      ShownEligible(x.frame, x.known, x.scope);
      CountStep(ProjectSights(front).hosts, x.frame, Read(x.frame, x.known, x.scope), c, role);
    }
  }

  function CountOf(hosts: Hosts, c: Address, role: Role): nat { if c in hosts then HostCount(hosts[c], role) else 0 }

  lemma NoCount(c: Address, role: Role)
    ensures CountOf(map[], c, role) == 0
  {}

  lemma CountStep(hosts: Hosts, f: Frame, r: Reading, c: Address, role: Role)
    requires r.Valid() && !WithHost(hosts, f, r).1 && (r.client.Some? ==> r.eligible == RetryEligible(f))
    ensures CountOf(WithHost(hosts, f, r).0, c, role)
            == CountOf(hosts, c, role) + Bit(r.client == Some(c) && Plays(role, f, c))
  {
    hide Plays, HostCount, Observe, RetryEligible;
    if r.client == Some(c) {
      ObservedRole(if c in hosts then hosts[c] else NewHost(r.bssid.value, f.timestamp),
                   c, f, r.bssid.value, r.eligible, role);
    }
  }

  // ----- the batch and the live form -----

  lemma BatchIsSights(frames: seq<Frame>, known: set<Address>, s: Scope)
    requires OrderedScope(s)
    ensures Project(frames, known, s) == ProjectSights(Sights(frames, known, s)) && AllOrdered(Sights(frames, known, s))
  {
    ProjectIsSights(frames, known, s);
  }
}
