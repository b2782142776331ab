/** Estimating which beaconing BSSIDs share a radio: complete-link grouping in BSSID order, and the
    choice of the strongest group. */
module RadioGrouping {
  import opened Wrappers
  import opened Frames
  import Sorting

  const AP_NAME_RSSI_LIMIT_DB := 10

  /** A beaconing BSSID: its normalised AP name, if any, and its strongest signal, if known. */
  datatype State = State(bssid: Address, apName: Option<string>, rssi: Option<int>)

  type Group = g: seq<State> | g != [] witness [State([0, 0, 0, 0, 0, 0], None, None)]

  function Value(a: seq<Octet>): (n: nat)
    ensures a == [] ==> n == 0
  {
    if a == [] then 0 else Value(a[..|a| - 1]) * 256 + a[|a| - 1]
  }

  lemma {:induction false} ValueInjective(a: seq<Octet>, b: seq<Octet>)
    requires |a| == |b| && Value(a) == Value(b)
    ensures a == b
  {
    if a != [] {
      var x: int, y: int := a[|a| - 1], b[|b| - 1];
      var m, n := Value(a[..|a| - 1]), Value(b[..|b| - 1]);
      assert m * 256 + x == n * 256 + y;
      assert m == n && x == y;
      ValueInjective(a[..|a| - 1], b[..|b| - 1]);
      assert a == a[..|a| - 1] + [a[|a| - 1]] && b == b[..|b| - 1] + [b[|b| - 1]];
    }
  }

  /** The number of hexadecimal digits in which two addresses differ. */
  function DigitsApart(a: seq<Octet>, b: seq<Octet>): nat
    requires |a| == |b|
  {
    if a == [] then 0
    else
      (if a[0] / 16 != b[0] / 16 then 1 else 0) + (if a[0] % 16 != b[0] % 16 then 1
        else 0) + DigitsApart(a[1..], b[1..])
  }

  predicate Related(a: Address, b: Address) {
    Value(a) - Value(b) == 1 || Value(b) - Value(a) == 1 || DigitsApart(a, b) == 1
  }

  function Apart(a: Option<int>, b: Option<int>): Option<int> {
    if a.None? || b.None? then None else Some(if a.value >= b.value then a.value - b.value else b.value - a.value)
  }

  predicate LikelySame(a: State, b: State, tolerance: int) {
    if a.bssid == b.bssid then true
    else if a.bssid[..3] != b.bssid[..3] then false
    else if a.apName.Some? && b.apName.Some? && a.apName != b.apName then false
    else
      var d := Apart(a.rssi, b.rssi);
      if a.apName.Some? && a.apName == b.apName then d.None? || d.value <= AP_NAME_RSSI_LIMIT_DB
      else d.Some? && d.value <= tolerance && Related(a.bssid, b.bssid)
  }

  lemma {:induction false} DigitsApartSymmetric(a: seq<Octet>, b: seq<Octet>)
    requires |a| == |b|
    ensures DigitsApart(a, b) == DigitsApart(b, a)
  {
    if a != [] { DigitsApartSymmetric(a[1..], b[1..]); }
  }

  lemma LikelySameSymmetric(a: State, b: State, tolerance: int)
    ensures LikelySame(a, b, tolerance) == LikelySame(b, a, tolerance)
  {
    DigitsApartSymmetric(a.bssid, b.bssid);
  }

  // ----- the heuristics, said of octets, names and signals -----

  /** The address as the number its twelve hexadecimal digits write. */
  function Number(a: Address): nat {
    var n: seq<int> := a;
    n[0] * 0x100_0000_0000 + n[1] * 0x1_0000_0000 + n[2] * 0x100_0000 + n[3] * 0x1_0000 + n[4] * 0x100 + n[5]
  }

  ghost predicate Consecutive(a: Address, b: Address) { Number(a) == Number(b) + 1 || Number(b) == Number(a) + 1 }

  function Digit(a: Address, k: nat): nat
    requires k < 12
  {
    if k % 2 == 0 then a[k / 2] / 16 else a[k / 2] % 16
  }

  ghost predicate OnlyDigit(a: Address, b: Address, k: nat)
    requires k < 12
  {
    Digit(a, k) != Digit(b, k) && forall j :: 0 <= j < 12 && j != k ==> Digit(a, j) == Digit(b, j)
  }

  lemma ValueIsNumber(a: Address)
    ensures Value(a) == Number(a)
  {
    var n: seq<int> := a;
    assert a == [a[0], a[1], a[2], a[3], a[4], a[5]];
    assert a[..5][..4] == a[..4] && a[..4][..3] == a[..3] && a[..3][..2] == a[..2] && a[..2][..1] == a[..1];
    assert a[..1][..0] == [] && Value([]) == 0;
    assert Value(a[..1]) == n[0];
    assert Value(a[..2]) == n[0] * 0x100 + n[1];
    assert Value(a[..3]) == n[0] * 0x1_0000 + n[1] * 0x100 + n[2];
    assert Value(a[..4]) == n[0] * 0x100_0000 + n[1] * 0x1_0000 + n[2] * 0x100 + n[3];
    assert Value(a[..5]) == n[0] * 0x1_0000_0000 + n[1] * 0x100_0000 + n[2] * 0x1_0000 + n[3] * 0x100 + n[4];
  }

  lemma ApartAt(a: Address, b: Address, i: nat)
    requires i < 6
    ensures DigitsApart(a[i..], b[i..]) == (if Digit(a, 2 * i) != Digit(b, 2 * i) then 1 else 0)
                                           + (if Digit(a, 2 * i + 1) != Digit(b, 2 * i + 1) then 1 else 0)
                                           + DigitsApart(a[i + 1..], b[i + 1..])
  {
    assert a[i..][1..] == a[i + 1..] && b[i..][1..] == b[i + 1..];
  }

  /** From octet i on, no digit differs, or exactly one. */
  lemma {:induction false} ApartFrom(a: Address, b: Address, i: nat)
    requires i <= 6
    ensures var n := DigitsApart(a[i..], b[i..]);
            && (n == 0 <==> forall j :: 2 * i <= j < 12 ==> Digit(a, j) == Digit(b, j))
            && (n == 1 <==> exists k :: 2 * i <= k < 12 && OnlyFrom(a, b, i, k))
    decreases 6 - i
  {
    hide Digit;
    if i < 6 {
      ApartFrom(a, b, i + 1);
      ApartAt(a, b, i);
      var high, low := Digit(a, 2 * i) != Digit(b, 2 * i), Digit(a, 2 * i + 1) != Digit(b, 2 * i + 1);
      var rest := DigitsApart(a[i + 1..], b[i + 1..]);
      if high && !low && rest == 0 { assert OnlyFrom(a, b, i, 2 * i); }
      if !high && low && rest == 0 { assert OnlyFrom(a, b, i, 2 * i + 1); }
      if !high && !low && rest == 1 {
        var k :| 2 * (i + 1) <= k < 12 && OnlyFrom(a, b, i + 1, k);
        assert OnlyFrom(a, b, i, k);
      }
      if k :| 2 * i <= k < 12 && OnlyFrom(a, b, i, k) {
        if k >= 2 * (i + 1) { assert OnlyFrom(a, b, i + 1, k); }
      }
    }
  }

  ghost predicate OnlyFrom(a: Address, b: Address, i: nat, k: nat)
    requires k < 12
  {
    Digit(a, k) != Digit(b, k) && forall j :: 2 * i <= j < 12 && j != k ==> Digit(a, j) == Digit(b, j)
  }

  /** Related addresses are consecutive numbers, or differ in exactly one of their twelve digits. */
  lemma RelatedExactly(a: Address, b: Address)
    ensures Related(a, b) <==> Consecutive(a, b) || exists k :: 0 <= k < 12 && OnlyDigit(a, b, k)
  {
    hide Value, Number, DigitsApart, Digit;
    ValueIsNumber(a);
    ValueIsNumber(b);
    ApartFrom(a, b, 0);
    assert a[0..] == a && b[0..] == b;
    if k :| 0 <= k < 12 && OnlyFrom(a, b, 0, k) { assert OnlyDigit(a, b, k); }
    if k :| 0 <= k < 12 && OnlyDigit(a, b, k) { assert OnlyFrom(a, b, 0, k); }
  }

  /** Both signals are known and at most limit decibels apart. */
  ghost predicate Near(a: State, b: State, limit: int) {
    && a.rssi.Some? && b.rssi.Some?
    && a.rssi.value <= b.rssi.value + limit && b.rssi.value <= a.rssi.value + limit
  }

  ghost predicate OneName(a: State, b: State) { a.apName.Some? && b.apName.Some? && a.apName.value == b.apName.value }

  ghost predicate TwoNames(a: State, b: State) { a.apName.Some? && b.apName.Some? && a.apName.value != b.apName.value }

  /** When two BSSIDs may share a radio: they are one; or they have one vendor prefix and either one
      AP name, with signals unknown or within 10 dB, or not two AP names, related addresses and
      signals known and within the tolerance. */
  lemma LikelySameExactly(a: State, b: State, tolerance: int)
    ensures LikelySame(a, b, tolerance) <==>
              || a.bssid == b.bssid
              || (&& (a.bssid[0] == b.bssid[0] && a.bssid[1] == b.bssid[1] && a.bssid[2] == b.bssid[2])
                  && if OneName(a, b) then a.rssi.None? || b.rssi.None? || Near(a, b, 10)
                     else
                       && !TwoNames(a, b) && Near(a, b, tolerance)
                       && (Consecutive(a.bssid, b.bssid) || exists k :: 0 <= k < 12 && OnlyDigit(a.bssid, b.bssid, k)))
  {
    hide Value, Number, DigitsApart, Digit, Related;
    RelatedExactly(a.bssid, b.bssid);
    assert a.bssid[..3] == [a.bssid[0], a.bssid[1], a.bssid[2]];
    assert b.bssid[..3] == [b.bssid[0], b.bssid[1], b.bssid[2]];
  }

  // ----- grouping -----

  predicate Compatible(s: State, group: seq<State>, tolerance: int) {
    forall m :: m in group ==> LikelySame(s, m, tolerance)
  }

  /** A state joins the first group it is compatible with, or starts one. */
  function Place(groups: seq<Group>, s: State, tolerance: int): (r: seq<Group>)
    ensures |groups| <= |r|
  {
    if groups == [] then [[s]]
    else if Compatible(s, groups[0], tolerance) then [groups[0] + [s]] + groups[1..]
    else [groups[0]] + Place(groups[1..], s, tolerance)
  }

  function Grow(groups: seq<Group>, states: seq<State>, tolerance: int): seq<Group>
    decreases |states|
  {
    if states == [] then groups else Grow(Place(groups, states[0], tolerance), states[1..], tolerance)
  }

  predicate ByBssid(a: State, b: State) { Value(a.bssid) <= Value(b.bssid) }

  function Estimate(states: seq<State>, tolerance: int): seq<Group> {
    Grow([], Sorting.Sort(ByBssid, states), tolerance)
  }

  method FindGroup(groups: seq<Group>, s: State, tolerance: int) returns (k: nat)
    ensures k <= |groups| && (k < |groups| ==> Compatible(s, groups[k], tolerance))
    ensures forall i :: 0 <= i < k ==> !Compatible(s, groups[i], tolerance)
  {
    k := 0;
    while k < |groups| && !Compatible(s, groups[k], tolerance)
      invariant k <= |groups|
      invariant forall i :: 0 <= i < k ==> !Compatible(s, groups[i], tolerance)
    {
      k := k + 1;
    }
  }

  method EstimateRadioGroups(states: seq<State>, tolerance: int) returns (r: Option<seq<Group>>)
    ensures r == if tolerance < 0 then None else Some(Estimate(states, tolerance))
  {
    if tolerance < 0 { return None; }
    hide Sorting.Sort, Compatible, Place;
    var sorted := Sorting.Sort(ByBssid, states);
    var groups: seq<Group> := [];
    var i := 0;
    assert sorted[0..] == sorted;
    while i < |sorted|
      invariant 0 <= i <= |sorted|
      invariant Grow(groups, sorted[i..], tolerance) == Estimate(states, tolerance)
    {
      var s := sorted[i];
      assert sorted[i..][1..] == sorted[i + 1..];
      var k := FindGroup(groups, s, tolerance);
      PlaceAt(groups, s, tolerance, k);
      groups := if k < |groups| then groups[k := groups[k] + [s]] else groups + [[s]];
      i := i + 1;
    }
    r := Some(groups);
  }

  lemma {:induction false} PlaceAt(groups: seq<Group>, s: State, tolerance: int, k: nat)
    requires k <= |groups| && (k < |groups| ==> Compatible(s, groups[k], tolerance))
    requires forall i :: 0 <= i < k ==> !Compatible(s, groups[i], tolerance)
    ensures Place(groups, s, tolerance) == if k < |groups| then groups[k := groups[k] + [s]] else groups + [[s]]
  {
    hide Compatible;
    if k > 0 {
      PlaceAt(groups[1..], s, tolerance, k - 1);
      assert groups == [groups[0]] + groups[1..];
    }
  }

  // ----- what a grouping is -----

  function Members(groups: seq<Group>): seq<State> {
    if groups == [] then [] else Members(groups[..|groups| - 1]) + groups[|groups| - 1]
  }

  ghost predicate CompleteLink(groups: seq<Group>, tolerance: int) {
    forall k, a, b :: 0 <= k < |groups| && a in groups[k] && b in groups[k] ==> LikelySame(a, b, tolerance)
  }

  /** Each group was started because its first member had an incompatible member in every earlier one. */
  ghost predicate Forced(groups: seq<Group>, tolerance: int) {
    forall i, j :: 0 <= i < j < |groups| ==> !Compatible(groups[j][0], groups[i], tolerance)
  }

  lemma {:induction false} MembersUpdated(groups: seq<Group>, k: nat, s: State)
    requires k < |groups|
    ensures multiset(Members(groups[k := groups[k] + [s]])) == multiset(Members(groups)) + multiset{s}
  {
    var after := groups[k := groups[k] + [s]];
    if k == |groups| - 1 {
      assert after[..|after| - 1] == groups[..|groups| - 1];
    } else {
      assert after[..|after| - 1] == groups[..|groups| - 1][k := groups[k] + [s]];
      MembersUpdated(groups[..|groups| - 1], k, s);
    }
  }

  lemma PlacedAll(groups: seq<Group>, s: State, tolerance: int)
    ensures multiset(Members(Place(groups, s, tolerance))) == multiset(Members(groups)) + multiset{s}
  {
    var k := FirstFit(groups, s, tolerance);
    if k < |groups| { MembersUpdated(groups, k, s); } else { assert (groups + [[s]])[..|groups|] == groups; }
  }

  lemma {:induction false} FirstFit(groups: seq<Group>, s: State, tolerance: int) returns (k: nat)
    ensures k <= |groups| && (k < |groups| ==> Compatible(s, groups[k], tolerance))
    ensures forall i :: 0 <= i < k ==> !Compatible(s, groups[i], tolerance)
    ensures Place(groups, s, tolerance) == if k < |groups| then groups[k := groups[k] + [s]] else groups + [[s]]
  {
    hide Compatible;
    k := 0;
    while k < |groups| && !Compatible(s, groups[k], tolerance)
      invariant k <= |groups|
      invariant forall i :: 0 <= i < k ==> !Compatible(s, groups[i], tolerance)
    {
      k := k + 1;
    }
    PlaceAt(groups, s, tolerance, k);
  }

  lemma PlacedKeeps(groups: seq<Group>, s: State, tolerance: int)
    requires CompleteLink(groups, tolerance) && Forced(groups, tolerance)
    ensures CompleteLink(Place(groups, s, tolerance), tolerance) && Forced(Place(groups, s, tolerance), tolerance)
  {
    hide LikelySame;
    var k := FirstFit(groups, s, tolerance);
    var after := Place(groups, s, tolerance);
    forall i, a, b | 0 <= i < |after| && a in after[i] && b in after[i] ensures LikelySame(a, b, tolerance) {
      LikelySameSymmetric(a, b, tolerance);
      assert LikelySame(s, s, tolerance) by { ItselfSame(s, tolerance); }
      if i == k && k < |groups| { assert forall m :: m in after[k] ==> m in groups[k] || m == s; }
    }
    forall i, j | 0 <= i < j < |after| ensures !Compatible(after[j][0], after[i], tolerance) {
      if j < |groups| {
        assert after[j][0] == groups[j][0] && !Compatible(groups[j][0], groups[i], tolerance);
        assert forall m :: m in groups[i] ==> m in after[i];
      }
    }
  }

  lemma ItselfSame(s: State, tolerance: int)
    ensures LikelySame(s, s, tolerance)
  {}

  lemma {:induction false} GrownKeeps(groups: seq<Group>, states: seq<State>, tolerance: int)
    requires CompleteLink(groups, tolerance) && Forced(groups, tolerance)
    ensures var r := Grow(groups, states, tolerance);
            && CompleteLink(r, tolerance) && Forced(r, tolerance)
            && multiset(Members(r)) == multiset(Members(groups)) + multiset(states)
    decreases |states|
  {
    hide CompleteLink, Forced, Place, Members;
    if states != [] {
      PlacedKeeps(groups, states[0], tolerance);
      PlacedAll(groups, states[0], tolerance);
      GrownKeeps(Place(groups, states[0], tolerance), states[1..], tolerance);
      assert states == [states[0]] + states[1..];
    }
  }

  /** The groups hold exactly the states; any two members of a group may share a radio; and no
      group could have been merged into an earlier one when it was started. */
  lemma GroupsPartition(states: seq<State>, tolerance: int)
    ensures var r := Estimate(states, tolerance);
            multiset(Members(r)) == multiset(states) && CompleteLink(r, tolerance) && Forced(r, tolerance)
  {
    hide Grow;
    assert Members([]) == [];
    GrownKeeps([], Sorting.Sort(ByBssid, states), tolerance);
  }

  lemma BssidOrder()
    ensures Sorting.TotalOrder(ByBssid)
  {}

  ghost predicate DistinctBssids(states: seq<State>) {
    forall i, j :: 0 <= i < j < |states| ==> states[i].bssid != states[j].bssid
  }

  /** With distinct BSSIDs the order in which states are given does not matter. */
  lemma OrderDoesNotMatter(a: seq<State>, b: seq<State>, tolerance: int)
    requires multiset(a) == multiset(b) && DistinctBssids(a)
    ensures Estimate(a, tolerance) == Estimate(b, tolerance)
  {
    hide Grow, Sorting.Sort, Value;
    BssidOrder();
    Sorting.SortSorts(ByBssid, a);
    Sorting.SortSorts(ByBssid, b);
    var x, y := Sorting.Sort(ByBssid, a), Sorting.Sort(ByBssid, b);
    Sorting.SameMembers(x, a);
    forall s, t | s in x && t in x && ByBssid(s, t) && ByBssid(t, s) ensures s == t {
      ValueInjective(s.bssid, t.bssid);
      var i :| 0 <= i < |a| && a[i] == s;
      var j :| 0 <= j < |a| && a[j] == t;
      assert !(i < j) && !(j < i);
    }
    Sorting.SortedIsUnique(ByBssid, x, y);
  }

  // ----- members and groups in BSSID order -----

  ghost predicate InOrder(groups: seq<Group>) {
    && (forall k :: 0 <= k < |groups| ==> Sorting.SortedBy(ByBssid, groups[k]))
    && (forall i, j :: 0 <= i < j < |groups| ==> ByBssid(groups[i][0], groups[j][0]))
  }

  ghost predicate AllBefore(groups: seq<Group>, states: seq<State>) {
    forall k, m, s :: 0 <= k < |groups| && m in groups[k] && s in states ==> ByBssid(m, s)
  }

  lemma PlacedInOrder(groups: seq<Group>, states: seq<State>, tolerance: int)
    requires InOrder(groups) && AllBefore(groups, states) && states != [] && Sorting.SortedBy(ByBssid, states)
    ensures InOrder(Place(groups, states[0], tolerance)) && AllBefore(Place(groups, states[0], tolerance), states[1..])
  {
    hide Value, Compatible, Place;
    var s := states[0];
    var k := FirstFit(groups, s, tolerance);
    var after := Place(groups, s, tolerance);
    assert s in states;
    forall i, m, t | 0 <= i < |after| && m in after[i] && t in states[1..] ensures ByBssid(m, t) {
      var n :| 0 <= n < |states[1..]| && states[1..][n] == t;
      assert states[n + 1] == t && ByBssid(s, t);
      assert m == s || m in groups[i];
    }
    forall i | 0 <= i < |after| ensures Sorting.SortedBy(ByBssid, after[i]) {
      if i == k { assert k < |groups| ==> forall m :: m in groups[k] ==> ByBssid(m, s); }
    }
    forall i, j | 0 <= i < j < |after| ensures ByBssid(after[i][0], after[j][0]) {
      if j == |groups| { assert groups[i][0] in groups[i]; }
    }
  }

  lemma {:induction false} GrownInOrder(groups: seq<Group>, states: seq<State>, tolerance: int)
    requires InOrder(groups) && AllBefore(groups, states) && Sorting.SortedBy(ByBssid, states)
    ensures InOrder(Grow(groups, states, tolerance))
    decreases |states|
  {
    hide InOrder, AllBefore, Place, Value;
    if states != [] {
      PlacedInOrder(groups, states, tolerance);
      GrownInOrder(Place(groups, states[0], tolerance), states[1..], tolerance);
    }
  }

  /** A group's first member, by which it is known, has its lowest BSSID, and groups come in order. */
  lemma GroupsInOrder(states: seq<State>, tolerance: int)
    ensures InOrder(Estimate(states, tolerance))
  {
    BssidOrder();
    Sorting.SortSorts(ByBssid, states);
    hide Grow, Sorting.Sort, Value;
    GrownInOrder([], Sorting.Sort(ByBssid, states), tolerance);
  }

  // ----- the strongest group -----

  function Louder(a: Option<int>, b: Option<int>): Option<int> {
    if a.None? then b else if b.None? || a.value >= b.value then a else b
  }

  /** The strongest known signal of a group. */
  function Best(states: seq<State>): (r: Option<int>)
    ensures forall s :: s in states && s.rssi.Some? ==> r.Some? && s.rssi.value <= r.value
    ensures r.Some? ==> exists s :: s in states && s.rssi == r
  {
    if states == [] then None
    else
      var rest := Best(states[1..]);
      assert states[0] in states && forall s :: s in states[1..] ==> s in states;
      Louder(states[0].rssi, rest)
  }

  predicate AtLeast(a: Option<int>, b: Option<int>) { b.None? || (a.Some? && a.value >= b.value) }

  predicate Holds(g: Group, current: set<Address>) { exists s :: s in g && s.bssid in current }

  /** Whether one group is preferred to another: a stronger signal, then holding a current BSSID,
      then the lower BSSID. */
  predicate Preferred(a: Group, b: Group, current: set<Address>) {
    if Best(a) != Best(b) then AtLeast(Best(a), Best(b))
    else if Holds(a, current) != Holds(b, current) then Holds(a, current)
    else Value(a[0].bssid) <= Value(b[0].bssid)
  }

  function Strongest(groups: seq<Group>): Option<int> {
    if groups == [] then None else Louder(Best(groups[0]), Strongest(groups[1..]))
  }

  function WithBest(groups: seq<Group>, best: Option<int>): seq<Group> {
    if groups == [] then [] else (if Best(groups[0]) == best then [groups[0]] else []) + WithBest(groups[1..], best)
  }

  function Holding(groups: seq<Group>, current: set<Address>): seq<Group> {
    if groups == [] then [] else (if Holds(groups[0], current) then [groups[0]] else []) + Holding(groups[1..], current)
  }

  function LowestId(groups: seq<Group>): (r: Group)
    requires groups != []
    ensures r in groups && forall g: Group :: g in groups ==> Value(r[0].bssid) <= Value(g[0].bssid)
  {
    if |groups| == 1 then groups[0]
    else
      var rest := LowestId(groups[1..]);
      assert groups == [groups[0]] + groups[1..];
      if Value(groups[0][0].bssid) <= Value(rest[0].bssid) then groups[0] else rest
  }

  lemma {:induction false} StrongestIsBest(groups: seq<Group>)
    ensures forall g: Group :: g in groups ==> AtLeast(Strongest(groups), Best(g))
    ensures groups != [] ==> exists g: Group :: g in groups && Best(g) == Strongest(groups)
  {
    hide Best;
    if groups != [] {
      StrongestIsBest(groups[1..]);
      assert groups == [groups[0]] + groups[1..];
      assert groups[1..] == [] ==> Strongest(groups[1..]) == None;
      if Strongest(groups) == Best(groups[0]) {
        assert groups[0] in groups;
      } else {
        var g: Group :| g in groups[1..] && Best(g) == Strongest(groups[1..]);
        assert g in groups;
      }
    }
  }

  lemma {:induction false} WithBestExact(groups: seq<Group>, best: Option<int>)
    ensures forall g: Group :: g in WithBest(groups, best) <==> g in groups && Best(g) == best
  {
    hide Best;
    if groups != [] {
      WithBestExact(groups[1..], best);
      assert groups == [groups[0]] + groups[1..];
    }
  }

  lemma {:induction false} HoldingExact(groups: seq<Group>, current: set<Address>)
    ensures forall g: Group :: g in Holding(groups, current) <==> g in groups && Holds(g, current)
  {
    hide Holds;
    if groups != [] {
      HoldingExact(groups[1..], current);
      assert groups == [groups[0]] + groups[1..];
    }
  }

  function SelectStrongest(groups: seq<Group>, current: set<Address>): Option<Group> {
    if groups == [] then None
    else
      StrongestIsBest(groups);
      var finalists := WithBest(groups, Strongest(groups));
      WithBestExact(groups, Strongest(groups));
      assert finalists != [] by { var g: Group :| g in groups && Best(g) == Strongest(groups); assert g in finalists; }
      var retained := Holding(finalists, current);
      Some(LowestId(if retained != [] then retained else finalists))
  }

  /** The choice is preferred to every group. */
  lemma SelectedIsPreferred(groups: seq<Group>, current: set<Address>)
    requires groups != []
    ensures var r := SelectStrongest(groups, current);
            r.Some? && r.value in groups && forall g: Group :: g in groups ==> Preferred(r.value, g, current)
  {
    StrongestIsBest(groups);
    var best := Strongest(groups);
    WithBestExact(groups, best);
    var finalists := WithBest(groups, best);
    HoldingExact(finalists, current);
    hide Best, Holds, Value, Strongest;
    var r := SelectStrongest(groups, current).value;
    forall g: Group | g in groups ensures Preferred(r, g, current) {
      if Best(g) == best {
        assert g in finalists;
        assert Holds(g, current) ==> g in Holding(finalists, current);
      }
    }
  }
}
