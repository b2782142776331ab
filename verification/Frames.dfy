/** Normalised 802.11 frames as the rolling analyzer retains them: who a frame belongs to,
    whether it counts towards a retry ratio, and which client it shows. */
module Frames {
  import opened Wrappers

  type Octet = x: int | 0 <= x < 256
  type Address = a: seq<Octet> | |a| == 6 witness [0, 0, 0, 0, 0, 0]

  datatype Frame = Frame(
    timestamp: real,
    bssid: Option<Address>,
    frameType: Option<int>,
    frameSubtype: Option<int>,
    retryFlag: Option<bool>,
    transmitter: Option<Address>,
    receiver: Option<Address>,
    source: Option<Address>,
    destination: Option<Address>,
    badFcs: bool,
    rssi: Option<int>,
    transmitterVendor: Option<string>,
    receiverVendor: Option<string>)

  datatype Exclusion = BadFcs | GroupAddress | MissingRetryBit | NonRetryableType

  predicate IsGroup(a: Address) { a[0] % 2 == 1 }

  predicate IsUnicast(a: Address) { a != [0, 0, 0, 0, 0, 0] && a[0] % 2 == 0 }

  predicate Grouped(a: Option<Address>) { a.Some? && IsGroup(a.value) }

  /** Why a frame is left out of the retry ratio, the first reason that applies. */
  function RetryExclusion(f: Frame): Option<Exclusion> {
    if f.badFcs then Some(BadFcs)
    else if Grouped(f.receiver) || Grouped(f.destination) then Some(GroupAddress)
    else if f.retryFlag.None? then Some(MissingRetryBit)
    else if f.frameType == Some(0) then
      if f.frameSubtype.Some? && f.frameSubtype.value in {0, 1, 2, 3, 5, 9, 10, 11, 12, 13} then None
      else Some(NonRetryableType)
    else if f.frameType != Some(2) then Some(NonRetryableType)
    else None
  }

  predicate RetryEligible(f: Frame) { RetryExclusion(f).None? }

  function AppendNew(s: seq<Address>, a: Option<Address>): seq<Address> {
    if a.Some? && a.value !in s then s + [a.value] else s
  }

  /** The frame's distinct addresses, in the order BSSID, TA, RA, SA, DA. */
  function MacAddresses(f: Frame): seq<Address> {
    AppendNew(AppendNew(AppendNew(AppendNew(AppendNew([], f.bssid), f.transmitter), f.receiver), f.source),
      f.destination)
  }

  function FirstIn(s: seq<Address>, known: set<Address>): (r: Option<Address>)
    ensures r.Some? ==> r.value in known && r.value in s
    ensures r.None? ==> forall a :: a in s ==> a !in known
  {
    if s == [] then None
    else if s[0] in known then Some(s[0])
    else FirstIn(s[1..], known)
  }

  function KnownFrameBssid(f: Frame, known: set<Address>): Option<Address> {
    FirstIn(MacAddresses(f), known)
  }

  /** The known BSSID a frame belongs to, else the BSSID it names. */
  function AssociatedBssid(f: Frame, known: set<Address>): Option<Address> {
    var k := KnownFrameBssid(f, known);
    if k.Some? then k else f.bssid
  }

  function LinkAddresses(f: Frame): seq<Address> {
    (if f.transmitter.Some? then [f.transmitter.value] else []) +
    (if f.receiver.Some? then [f.receiver.value] else [])
  }

  predicate IsClient(a: Address, bssid: Address, known: set<Address>) {
    a != bssid && a !in known && IsUnicast(a)
  }

  function ClientsAmong(links: seq<Address>, bssid: Address, known: set<Address>): (r: seq<Address>)
    ensures |r| <= |links|
    ensures bssid in links ==> |r| < |links|
  {
    if links == [] then []
    else (if IsClient(links[0], bssid, known) then [links[0]] else []) + ClientsAmong(links[1..], bssid, known)
  }

  /** The wireless clients a data frame shows: the link end that is not its BSSID. */
  function ClientsOf(f: Frame, bssid: Address, known: set<Address>): (r: seq<Address>)
    ensures |r| <= 1
  {
    if bssid in LinkAddresses(f) then ClientsAmong(LinkAddresses(f), bssid, known) else []
  }

  // ----- what these mean -----

  predicate RetryableManagement(subtype: int) {
    0 <= subtype <= 3 || subtype == 5 || 9 <= subtype <= 13
  }

  /** A frame counts towards the retry ratio exactly when it is intact, addressed to one station,
      its retry bit could be read, and it is a data frame or a management exchange that is retried. */
  lemma EligibleExactly(f: Frame)
    ensures RetryEligible(f) <==>
              && !f.badFcs && f.retryFlag.Some?
              && (f.receiver.Some? ==> !IsGroup(f.receiver.value))
                && (f.destination.Some? ==> !IsGroup(f.destination.value))
              && f.frameType.Some?
              && (f.frameType.value == 2 ||
                  (f.frameType.value == 0 && f.frameSubtype.Some? && RetryableManagement(f.frameSubtype.value)))
  {
    if f.frameSubtype.Some? {
      var s := f.frameSubtype.value;
      assert s in {0, 1, 2, 3, 5, 9, 10, 11, 12, 13} <==> RetryableManagement(s);
    }
  }

  predicate Knows(a: Option<Address>, known: set<Address>) { a.Some? && a.value in known }

  lemma FirstInAppended(s: seq<Address>, a: Option<Address>, known: set<Address>)
    ensures FirstIn(AppendNew(s, a), known) ==
              if FirstIn(s, known).Some? then FirstIn(s, known) else if Knows(a, known) then a else None
  {
    if a.Some? && a.value !in s { FirstInSnoc(s, a.value, known); }
  }

  lemma {:induction false} FirstInSnoc(s: seq<Address>, a: Address, known: set<Address>)
    ensures FirstIn(s + [a], known) ==
              if FirstIn(s, known).Some? then FirstIn(s, known) else if a in known then Some(a) else None
  {
    if s == [] {
      assert [a][1..] == [] && s + [a] == [a];
    } else {
      assert (s + [a])[1..] == s[1..] + [a];
      FirstInSnoc(s[1..], a, known);
    }
  }

  /** A frame belongs to the first of its addresses that is a known BSSID: its own, then TA, RA, SA
      and DA; and to the BSSID it names when none is known. */
  lemma AssociatedExactly(f: Frame, known: set<Address>)
    ensures AssociatedBssid(f, known) ==
              if Knows(f.bssid, known) then f.bssid
              else if Knows(f.transmitter, known) then f.transmitter
              else if Knows(f.receiver, known) then f.receiver
              else if Knows(f.source, known) then f.source
              else if Knows(f.destination, known) then f.destination
              else f.bssid
  {
    var a := AppendNew([], f.bssid);
    var b := AppendNew(a, f.transmitter);
    var c := AppendNew(b, f.receiver);
    var d := AppendNew(c, f.source);
    FirstInAppended([], f.bssid, known);
    FirstInAppended(a, f.transmitter, known);
    FirstInAppended(b, f.receiver, known);
    FirstInAppended(c, f.source, known);
    FirstInAppended(d, f.destination, known);
    hide AppendNew, FirstIn;
  }

  /** A client is the other end of a link to its BSSID: one station, not itself a known BSSID. */
  lemma ClientExactly(f: Frame, bssid: Address, known: set<Address>, client: Address)
    ensures ClientsOf(f, bssid, known) == [client] <==>
              && client != bssid && client !in known && IsUnicast(client)
              && ((f.transmitter == Some(bssid) && f.receiver == Some(client))
                  || (f.transmitter == Some(client) && f.receiver == Some(bssid)))
  {
    var links := LinkAddresses(f);
    if f.transmitter.Some? && f.receiver.Some? {
      var t, r := f.transmitter.value, f.receiver.value;
      assert links == [t, r] && links[1..] == [r] && [r][1..] == [];
      var last := if IsClient(r, bssid, known) then [r] else [];
      assert ClientsAmong([r], bssid, known) == last + [];
      assert ClientsAmong(links, bssid, known) == (if IsClient(t, bssid, known) then [t] else []) + last;
      assert bssid in links <==> t == bssid || r == bssid;
      OneClient(ClientsOf(f, bssid, known), client);
    } else if |links| == 1 {
      assert links[1..] == [];
    }
  }

  lemma OneClient(s: seq<Address>, a: Address)
    ensures s == [a] <==> |s| == 1 && s[0] == a
  {}
}
