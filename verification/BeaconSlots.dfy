/** Beacon slot inference: from the capture times of one BSSID's beacons, an interval of
    schedule phases and one logical slot per kept beacon, and from those the numbers of
    expected and received beacons in a reporting interval. Times are exact reals. */
module BeaconSlots {
  import opened Rounding
  import opened Sorting

  datatype Clock = Clock(interval: real, tolerance: real) {
    predicate Valid() { interval > 0.0 && tolerance >= 0.0 }
  }

  datatype Phases = Phases(low: real, high: real)

  datatype Inference = Inference(phases: Phases, slots: seq<int>, kept: seq<real>)

  datatype Choice = Skip | Slot(slot: int)

  datatype Counts = Counts(received: nat, expected: nat) | InvalidInterval

  /** Start of a slot, relative to the schedule's phase. */
  function At(slot: int, c: Clock): real { slot as real * c.interval }

  function Narrow(p: Phases, t: real, slot: int, c: Clock): Phases {
    Phases(Max(p.low, t - At(slot + 1, c)), Min(p.high, t - At(slot, c)))
  }

  predicate Feasible(p: Phases, t: real, slot: int, c: Clock) {
    Narrow(p, t, slot, c).low <= Narrow(p, t, slot, c).high + c.tolerance
  }

  function LastCandidate(p: Phases, t: real, c: Clock): int
    requires c.Valid()
  {
    ((t - p.low) / c.interval + c.tolerance).Floor
  }

  /** The least feasible slot of first..last. */
  function Choose(p: Phases, t: real, first: int, last: int, c: Clock): (r: Choice)
    ensures r.Slot? ==> first <= r.slot <= last && Feasible(p, t, r.slot, c)
    ensures forall k :: first <= k <= last && (r.Slot? ==> k < r.slot) ==> !Feasible(p, t, k, c)
    decreases last - first
  {
    if first > last then Skip
    else if Feasible(p, t, first, c) then Slot(first)
    else Choose(p, t, first + 1, last, c)
  }

  function Begin(t: real, c: Clock): Inference {
    Inference(Phases(t - c.interval, t), [0], [t])
  }

  function ChoiceFor(i: Inference, t: real, c: Clock): Choice
    requires c.Valid() && |i.slots| > 0
  {
    Choose(i.phases, t, i.slots[|i.slots| - 1] + 1, LastCandidate(i.phases, t, c), c)
  }

  function Step(i: Inference, t: real, c: Clock): (r: Inference)
    requires c.Valid() && |i.slots| > 0
    ensures |r.slots| > 0
  {
    match ChoiceFor(i, t, c)
    case Skip => i
    case Slot(s) => Inference(Narrow(i.phases, t, s, c), i.slots + [s], i.kept + [t])
  }

  function Infer(obs: seq<real>, c: Clock): (r: Inference)
    requires c.Valid() && |obs| > 0
    ensures |r.slots| > 0
  {
    if |obs| == 1 then Begin(obs[0], c) else Step(Infer(obs[..|obs| - 1], c), obs[|obs| - 1], c)
  }

  // ----- what the inference means -----

  /** The beacon of this slot is captured zero to one interval late. */
  ghost predicate Fits(phase: real, t: real, slot: int, c: Clock) {
    phase + At(slot, c) <= t <= phase + At(slot, c) + c.interval
  }

  ghost predicate FitsAll(phase: real, times: seq<real>, slots: seq<int>, c: Clock)
    requires |times| == |slots|
  {
    forall k :: 0 <= k < |times| ==> Fits(phase, times[k], slots[k], c)
  }

  ghost predicate Increasing(slots: seq<int>) {
    forall j, k :: 0 <= j < k < |slots| ==> slots[j] < slots[k]
  }

  ghost predicate Sound(i: Inference, c: Clock) {
    && |i.slots| == |i.kept| > 0
    && i.slots[0] == 0
    && Increasing(i.slots)
    && i.phases.low <= i.phases.high + c.tolerance
    && forall p: real :: i.phases.low <= p <= i.phases.high <==> FitsAll(p, i.kept, i.slots, c)
  }

  lemma AtNext(slot: int, c: Clock)
    ensures At(slot + 1, c) == At(slot, c) + c.interval
  {}

  lemma AtMonotone(a: int, b: int, c: Clock)
    requires c.Valid() && a <= b
    ensures At(a, c) <= At(b, c)
  {
    var d := (b - a) as real;
    assert d * c.interval >= 0.0;
    assert At(b, c) == At(a, c) + d * c.interval;
  }

  lemma FitsAllSnoc(phase: real, times: seq<real>, slots: seq<int>, t: real, slot: int, c: Clock)
    requires |times| == |slots|
    ensures FitsAll(phase, times + [t], slots + [slot], c) <==>
      FitsAll(phase, times, slots, c) && Fits(phase, t, slot, c)
  {
    var ts, ss, n := times + [t], slots + [slot], |times|;
    if FitsAll(phase, ts, ss, c) {
      assert Fits(phase, ts[n], ss[n], c);
      forall k | 0 <= k < n ensures Fits(phase, times[k], slots[k], c) {
        assert Fits(phase, ts[k], ss[k], c);
      }
    }
  }

  lemma {:induction false} StepSound(i: Inference, t: real, c: Clock)
    requires c.Valid() && Sound(i, c)
    ensures Sound(Step(i, t, c), c)
  {
    var r := Step(i, t, c);
    match ChoiceFor(i, t, c)
    case Skip =>
    case Slot(s) =>
      AtNext(s, c);
      forall p: real ensures r.phases.low <= p <= r.phases.high <==> FitsAll(p, r.kept, r.slots, c) {
        assert r.phases.low <= p <= r.phases.high <==> i.phases.low <= p <= i.phases.high && Fits(p, t, s, c);
        FitsAllSnoc(p, i.kept, i.slots, t, s, c);
      }
  }

  /** The phase interval is exactly the set of phases that place every kept beacon zero to
      one interval after its slot, and the slots strictly increase from zero. */
  lemma {:induction false} InferenceSound(obs: seq<real>, c: Clock)
    requires c.Valid() && |obs| > 0
    ensures Sound(Infer(obs, c), c)
  {
    if |obs| == 1 {
      AtNext(0, c);
      var r := Infer(obs, c);
      forall p: real ensures r.phases.low <= p <= r.phases.high <==> FitsAll(p, r.kept, r.slots, c) {
        assert Fits(p, r.kept[0], r.slots[0], c) <==> r.phases.low <= p <= r.phases.high;
      }
    } else {
      InferenceSound(obs[..|obs| - 1], c);
      StepSound(Infer(obs[..|obs| - 1], c), obs[|obs| - 1], c);
    }
  }

  // ----- when a beacon is skipped -----

  /** How much later than a slot's start a candidate may count, for rounding: the scan's bound allows
      `tolerance` intervals, and the phases `tolerance` seconds. */
  function Slack(c: Clock): real { Min(c.tolerance * c.interval, c.tolerance) }

  /** Less than one whole interval is left between the previous slot and the beacon under the
      earliest allowed phase. */
  predicate Crowded(i: Inference, t: real, c: Clock)
    requires |i.slots| > 0
  {
    t - i.phases.low + Slack(c) < At(i.slots[|i.slots| - 1] + 1, c)
  }

  lemma FloorSlot(x: real, c: Clock, slot: int)
    requires c.Valid()
    ensures At(slot, c) <= x <==> slot <= (x / c.interval).Floor
  {
    var q := x / c.interval;
    assert q * c.interval == x;
    if slot as real <= q {
      assert (q - slot as real) * c.interval >= 0.0;
      assert q * c.interval - slot as real * c.interval >= 0.0;
    } else {
      assert (slot as real - q) * c.interval > 0.0;
      assert slot as real * c.interval - q * c.interval > 0.0;
    }
  }

  lemma SlackNotNegative(c: Clock)
    requires c.Valid()
    ensures 0.0 <= Slack(c) <= c.tolerance && Slack(c) <= c.tolerance * c.interval
  {
    assert c.tolerance * c.interval >= 0.0;
  }

  lemma CandidateExactly(p: Phases, t: real, c: Clock, slot: int)
    requires c.Valid()
    ensures slot <= LastCandidate(p, t, c) <==> At(slot, c) <= t - p.low + c.tolerance * c.interval
  {
    var x := t - p.low + c.tolerance * c.interval;
    FloorSlot(x, c, slot);
    SumOfQuotients(t - p.low, c);
  }

  lemma SumOfQuotients(x: real, c: Clock)
    requires c.Valid()
    ensures x / c.interval + c.tolerance == (x + c.tolerance * c.interval) / c.interval
  {
    var q, r := x / c.interval, (x + c.tolerance * c.interval) / c.interval;
    assert q * c.interval == x && r * c.interval == x + c.tolerance * c.interval;
    assert (q + c.tolerance - r) * c.interval == 0.0;
  }

  /** A slot is a candidate, and feasible, only within the slack after the earliest phase. */
  lemma FeasibleWithinSlack(p: Phases, t: real, c: Clock, slot: int)
    requires c.Valid() && slot <= LastCandidate(p, t, c) && Feasible(p, t, slot, c)
    ensures At(slot, c) <= t - p.low + Slack(c)
  {
    CandidateExactly(p, t, c, slot);
  }

  /** The latest slot within the slack is a candidate, and feasible. */
  lemma LatestIsFeasible(p: Phases, t: real, c: Clock) returns (slot: int)
    requires c.Valid() && p.low <= p.high + c.tolerance
    ensures slot == ((t - p.low + Slack(c)) / c.interval).Floor
    ensures slot <= LastCandidate(p, t, c) && Feasible(p, t, slot, c)
  {
    slot := ((t - p.low + Slack(c)) / c.interval).Floor;
    SlackNotNegative(c);
    FloorSlot(t - p.low + Slack(c), c, slot);
    FloorSlot(t - p.low + Slack(c), c, slot + 1);
    CandidateExactly(p, t, c, slot);
    AtNext(slot, c);
  }

  /** A beacon is skipped exactly when it is crowded. */
  lemma SkippedIffCrowded(i: Inference, t: real, c: Clock)
    requires c.Valid() && Sound(i, c)
    ensures ChoiceFor(i, t, c) == Skip <==> Crowded(i, t, c)
  {
    var next := i.slots[|i.slots| - 1] + 1;
    var latest := LatestIsFeasible(i.phases, t, c);
    FloorSlot(t - i.phases.low + Slack(c), c, next);
    hide Feasible, Slack, LastCandidate;
    if ChoiceFor(i, t, c).Slot? {
      var s := ChoiceFor(i, t, c).slot;
      FeasibleWithinSlack(i.phases, t, c, s);
      AtMonotone(next, s, c);
    }
  }

  /** Any slot above the previous one that some phase still allowed can explain is no earlier than
      the slot chosen; and the slot chosen is explained by a phase allowed up to the tolerance. */
  lemma LeastSlot(i: Inference, t: real, c: Clock, slot: int)
    requires c.Valid() && Sound(i, c)
    requires i.slots[|i.slots| - 1] < slot
    requires exists p: real :: i.phases.low <= p <= i.phases.high && Fits(p, t, slot, c)
    ensures ChoiceFor(i, t, c).Slot? && i.slots[|i.slots| - 1] < ChoiceFor(i, t, c).slot <= slot
    ensures exists p: real :: i.phases.low - c.tolerance <= p <= i.phases.high + c.tolerance
              && Fits(p, t, ChoiceFor(i, t, c).slot, c)
  {
    var p: real :| i.phases.low <= p <= i.phases.high && Fits(p, t, slot, c);
    AtNext(slot, c);
    assert Feasible(i.phases, t, slot, c);
    SlackNotNegative(c);
    CandidateExactly(i.phases, t, c, slot);
    var s := ChoiceFor(i, t, c).slot;
    AtNext(s, c);
    assert Fits(Min(Narrow(i.phases, t, s, c).low, t - At(s, c)), t, s, c);
  }

  ghost predicate NoneCrowded(obs: seq<real>, c: Clock)
    requires c.Valid()
    decreases |obs|
  {
    var n := |obs| - 1;
    n > 0 ==> NoneCrowded(obs[..n], c) && !Crowded(Infer(obs[..n], c), obs[n], c)
  }

  /** One schedule explains every beacon: increasing slots from zero under a single phase. */
  ghost predicate Explains(phase: real, slots: seq<int>, obs: seq<real>, c: Clock) {
    |slots| == |obs| > 0 && slots[0] == 0 && Increasing(slots) && FitsAll(phase, obs, slots, c)
  }

  ghost predicate PointwiseLeast(mine: seq<int>, other: seq<int>) {
    |mine| == |other| && forall k :: 0 <= k < |mine| ==> mine[k] <= other[k]
  }

  /** What the routine's description promises: if some schedule explains every beacon, all are
      kept, in slots no later than that schedule's, hence with the fewest missing slots. */
  ghost predicate MeetsPromise(obs: seq<real>, c: Clock)
    requires c.Valid() && |obs| > 0
  {
    forall phase, slots :: Explains(phase, slots, obs, c) ==>
      Infer(obs, c).kept == obs && PointwiseLeast(Infer(obs, c).slots, slots)
  }

  lemma {:induction false} KeptAll(obs: seq<real>, c: Clock)
    requires c.Valid() && |obs| > 0
    ensures Infer(obs, c).kept == obs <==> NoneCrowded(obs, c)
  {
    var n := |obs| - 1;
    if n > 0 {
      var before := obs[..n];
      assert obs == before + [obs[n]];
      KeptAll(before, c);
      InferenceSound(before, c);
      SkippedIffCrowded(Infer(before, c), obs[n], c);
      if Infer(obs, c).kept == obs { KeptAllBefore(before, obs[n], c); }
    }
  }

  lemma KeptAllBefore(before: seq<real>, t: real, c: Clock)
    requires c.Valid() && |before| > 0 && Infer(before + [t], c).kept == before + [t]
    ensures Infer(before, c).kept == before
    ensures ChoiceFor(Infer(before, c), t, c).Slot?
  {
    var obs := before + [t];
    assert obs[..|obs| - 1] == before;
    KeptShorter(before, c);
    var kept := Infer(before, c).kept;
    if ChoiceFor(Infer(before, c), t, c).Slot? {
      assert (kept + [t])[..|before|] == kept && obs[..|before|] == before;
    }
  }

  /** While nothing is skipped the chosen slots are least among all schedules. */
  lemma {:induction false} GreedyIsLeast(before: seq<real>, t: real, c: Clock, phase: real, slots: seq<int>, d: int)
    requires c.Valid() && |before| == |slots| > 0 && Infer(before + [t], c).kept == before + [t]
    requires PointwiseLeast(Infer(before, c).slots, slots) && FitsAll(phase, before, slots, c)
    requires Fits(phase, t, d, c) && slots[|slots| - 1] < d
    ensures PointwiseLeast(Infer(before + [t], c).slots, slots + [d])
  {
    assert (before + [t])[..|before|] == before;
    KeptAllBefore(before, t, c);
    var i := Infer(before, c);
    var k := HighIsAttained(before, c);
    var s := ChoiceFor(i, t, c).slot;
    if d < s {
      EarlierSlotFeasible(i, t, s, c, phase, slots, d);
    }
  }

  lemma {:induction false} NothingSkippedIsLeast(obs: seq<real>, c: Clock, phase: real, slots: seq<int>)
    requires c.Valid() && Explains(phase, slots, obs, c)
    requires Infer(obs, c).kept == obs
    ensures PointwiseLeast(Infer(obs, c).slots, slots)
  {
    if |obs| > 1 {
      var n := |obs| - 1;
      var before, early := obs[..n], slots[..n];
      assert obs == before + [obs[n]] && slots == early + [slots[n]];
      KeptAllBefore(before, obs[n], c);
      FitsAllSnoc(phase, before, early, obs[n], slots[n], c);
      NothingSkippedIsLeast(before, c, phase, early);
      GreedyIsLeast(before, obs[n], c, phase, early, slots[n]);
    }
  }

  /** The description holds for exactly the inputs whose beacons are never crowded, and
      vacuously for those that no schedule explains. */
  lemma PromiseExactly(obs: seq<real>, c: Clock)
    requires c.Valid() && |obs| > 0
    ensures MeetsPromise(obs, c) <==>
            NoneCrowded(obs, c) || !exists phase, slots :: Explains(phase, slots, obs, c)
  {
    KeptAll(obs, c);
    if NoneCrowded(obs, c) {
      forall phase, slots | Explains(phase, slots, obs, c) ensures PointwiseLeast(Infer(obs, c).slots, slots) {
        NothingSkippedIsLeast(obs, c, phase, slots);
      }
    }
  }

  lemma {:induction false} KeptShorter(obs: seq<real>, c: Clock)
    requires c.Valid() && |obs| > 0
    ensures |Infer(obs, c).kept| <= |obs|
  {
    if |obs| > 1 { KeptShorter(obs[..|obs| - 1], c); }
  }

  /** The upper end of the interval is set by one kept beacon. */
  lemma {:induction false} HighIsAttained(obs: seq<real>, c: Clock) returns (k: nat)
    requires c.Valid() && |obs| > 0
    ensures Sound(Infer(obs, c), c) && k < |Infer(obs, c).kept|
    ensures Infer(obs, c).phases.high == Infer(obs, c).kept[k] - At(Infer(obs, c).slots[k], c)
  {
    InferenceSound(obs, c);
    if |obs| == 1 {
      k := 0;
    } else {
      var before, t := obs[..|obs| - 1], obs[|obs| - 1];
      k := HighIsAttained(before, c);
      var i := Infer(before, c);
      match ChoiceFor(i, t, c)
      case Skip =>
      case Slot(s) => if i.phases.high > t - At(s, c) { k := |i.kept|; }
    }
  }

  lemma EarlierSlotFeasible(i: Inference, t: real, s: int, c: Clock, phase: real, slots: seq<int>, d: int)
    requires c.Valid() && Sound(i, c) && Feasible(i.phases, t, s, c) && d < s
    requires PointwiseLeast(i.slots, slots) && FitsAll(phase, i.kept, slots, c) && Fits(phase, t, d, c)
    requires exists k :: 0 <= k < |i.kept| && i.phases.high == i.kept[k] - At(i.slots[k], c)
    ensures Feasible(i.phases, t, d, c)
  {
    var k :| 0 <= k < |i.kept| && i.phases.high == i.kept[k] - At(i.slots[k], c);
    AtNext(d, c);
    AtNext(s, c);
    AtMonotone(d, s, c);
    AtMonotone(i.slots[k], slots[k], c);
    assert Fits(phase, i.kept[k], slots[k], c);
  }

  /** Beacons captured at least one interval apart are never crowded. */
  lemma {:induction false} SpreadBeaconsKept(obs: seq<real>, c: Clock)
    requires c.Valid() && |obs| > 0
    requires forall k :: 0 < k < |obs| ==> obs[k] - obs[k - 1] >= c.interval
    ensures NoneCrowded(obs, c)
  {
    var n := |obs| - 1;
    if n > 0 {
      var before := obs[..n];
      SpreadBeaconsKept(before, c);
      KeptAll(before, c);
      InferenceSound(before, c);
      LowReachesKept(before, c, n - 1);
      AtNext(Infer(before, c).slots[n - 1], c);
    }
  }

  /** The earliest phase lies no more than the slack after the last kept beacon's slot start. */
  lemma {:induction false} LowReachesKept(obs: seq<real>, c: Clock, k: nat)
    requires c.Valid() && |obs| > 0 && Sound(Infer(obs, c), c) && k == |Infer(obs, c).kept| - 1
    ensures Infer(obs, c).phases.low <= Infer(obs, c).kept[k] - At(Infer(obs, c).slots[k], c) + Slack(c)
  {
    SlackNotNegative(c);
    if |obs| > 1 {
      var before, t := obs[..|obs| - 1], obs[|obs| - 1];
      InferenceSound(before, c);
      match ChoiceFor(Infer(before, c), t, c)
      case Skip => LowReachesKept(before, c, k);
      case Slot(s) =>
        FeasibleWithinSlack(Infer(before, c).phases, t, c, s);
        AtNext(s, c);
    }
  }

  /** The routine's own description fails here: slots 0, 2, 4, 5 explain all four beacons, yet
      the last one is skipped. */
  lemma PromiseFails()
    ensures var c, obs := Clock(1.0, 0.0), [0.0, 1.9, 4.1, 4.15];
            && Explains(-0.875, [0, 2, 4, 5], obs, c)
            && Infer(obs, c) == Inference(Phases(-0.1, 0.0), [0, 1, 4], [0.0, 1.9, 4.1])
  {
    var c, obs := Clock(1.0, 0.0), [0.0, 1.9, 4.1, 4.15];
    ExampleFits(c);
    ExampleSteps(c);
    hide Step;
    assert obs[..3] == [0.0, 1.9, 4.1] && obs[..3][..2] == [0.0, 1.9] && obs[..3][..2][..1] == [0.0];
  }

  lemma ExampleFits(c: Clock)
    requires c == Clock(1.0, 0.0)
    ensures Explains(-0.875, [0, 2, 4, 5], [0.0, 1.9, 4.1, 4.15], c)
  {}

  lemma ExampleSteps(c: Clock)
    requires c == Clock(1.0, 0.0)
    ensures Step(Begin(0.0, c), 1.9, c) == Inference(Phases(-0.1, 0.0), [0, 1], [0.0, 1.9])
    ensures Step(Inference(Phases(-0.1, 0.0), [0, 1], [0.0, 1.9]), 4.1, c)
              == Inference(Phases(-0.1, 0.0), [0, 1, 4], [0.0, 1.9, 4.1])
    ensures Step(Inference(Phases(-0.1, 0.0), [0, 1, 4], [0.0, 1.9, 4.1]), 4.15, c)
              == Inference(Phases(-0.1, 0.0), [0, 1, 4], [0.0, 1.9, 4.1])
  {
    var p := Phases(-0.1, 0.0);
    assert !Feasible(p, 4.1, 2, c) && !Feasible(p, 4.1, 3, c) && Feasible(p, 4.1, 4, c);
  }

  // ----- expected and received counts -----

  /** Number of the first slot starting at or after a time. */
  function SlotAfter(i: Inference, time: real, c: Clock): int
    requires c.Valid()
  {
    Ceil((time - i.phases.high) / c.interval - c.tolerance)
  }

  function FirstExpected(i: Inference, start: real, c: Clock): nat
    requires c.Valid()
  {
    if SlotAfter(i, start, c) < 0 then 0 else SlotAfter(i, start, c)
  }

  function EndExpected(i: Inference, start: real, end: real, c: Clock): nat
    requires c.Valid()
  {
    var first := FirstExpected(i, start, c);
    if SlotAfter(i, end, c) < first then first else SlotAfter(i, end, c)
  }

  function CountIn(slots: seq<int>, low: int, high: int): nat {
    if slots == [] then 0
    else CountIn(slots[..|slots| - 1], low, high) + (if low <= slots[|slots| - 1] < high then 1 else 0)
  }

  function Expected(i: Inference, start: real, end: real, c: Clock): nat
    requires c.Valid()
  {
    EndExpected(i, start, end, c) - FirstExpected(i, start, c)
  }

  function Received(i: Inference, start: real, end: real, c: Clock): nat
    requires c.Valid()
  {
    CountIn(i.slots, FirstExpected(i, start, c), EndExpected(i, start, end, c))
  }

  lemma {:induction false} CountBounded(slots: seq<int>, low: int, high: int)
    requires Increasing(slots) && low <= high
    ensures CountIn(slots, low, high) <= high - low
    ensures slots != [] && slots[|slots| - 1] < high ==>
              CountIn(slots, low, high) <= (if slots[|slots| - 1] < low then 0 else slots[|slots| - 1] + 1 - low)
  {
    if slots != [] {
      var n := |slots| - 1;
      CountBounded(slots[..n], low, high);
      if n > 0 { assert slots[n - 1] < slots[n]; }
      if low <= slots[n] < high && n == 0 { assert CountIn(slots[..n], low, high) == 0; }
    }
  }

  lemma {:induction false} CountSplits(slots: seq<int>, low: int, mid: int, high: int)
    requires low <= mid <= high
    ensures CountIn(slots, low, high) == CountIn(slots, low, mid) + CountIn(slots, mid, high)
  {
    if slots != [] { CountSplits(slots[..|slots| - 1], low, mid, high); }
  }

  lemma Quotients(a: real, b: real, c: Clock)
    requires c.Valid() && a <= b
    ensures a / c.interval <= b / c.interval
  {
    var x, y := a / c.interval, b / c.interval;
    assert x * c.interval == a && y * c.interval == b;
    assert x > y ==> (x - y) * c.interval > 0.0;
  }

  lemma SlotAfterMonotone(i: Inference, a: real, b: real, c: Clock)
    requires c.Valid() && a <= b
    ensures SlotAfter(i, a, c) <= SlotAfter(i, b, c)
  {
    Quotients(a - i.phases.high, b - i.phases.high, c);
  }

  /** Never more beacons received than expected. */
  lemma ReceivedWithinExpected(obs: seq<real>, start: real, end: real, c: Clock)
    requires c.Valid() && |obs| > 0
    ensures Received(Infer(obs, c), start, end, c) <= Expected(Infer(obs, c), start, end, c)
  {
    InferenceSound(obs, c);
    CountBounded(Infer(obs, c).slots, FirstExpected(Infer(obs, c), start, c),
      EndExpected(Infer(obs, c), start, end, c));
  }

  /** For one inference, both counts add over adjacent intervals: every slot is expected, and
      every kept beacon received, in exactly one of them. */
  lemma CountsAdd(i: Inference, start: real, mid: real, end: real, c: Clock)
    requires c.Valid() && start <= mid <= end
    ensures Expected(i, start, mid, c) + Expected(i, mid, end, c) == Expected(i, start, end, c)
    ensures Received(i, start, mid, c) + Received(i, mid, end, c) == Received(i, start, end, c)
  {
    SlotAfterMonotone(i, start, mid, c);
    SlotAfterMonotone(i, mid, end, c);
    CountSplits(i.slots, FirstExpected(i, start, c), FirstExpected(i, mid, c), EndExpected(i, start, end, c));
  }

  /** Once the schedule has started, the expected count is within one of the interval's length
      in beacon intervals. */
  lemma ExpectedNearLength(i: Inference, start: real, end: real, c: Clock)
    requires c.Valid() && c.tolerance < 1.0 && i.phases.high <= start <= end
    ensures (end - start) / c.interval - 1.0 < Expected(i, start, end, c) as real
    ensures Expected(i, start, end, c) as real < (end - start) / c.interval + 1.0
  {
    SlotAfterMonotone(i, start, end, c);
    var x, y := (start - i.phases.high) / c.interval, (end - i.phases.high) / c.interval;
    Quotients(0.0, start - i.phases.high, c);
    assert (end - start) / c.interval == y - x by {
      assert (y - x) * c.interval == end - start;
    }
  }

  // ----- the counting routine -----

  predicate Before(a: real, b: real) { a <= b }

  function Observed(times: seq<real>, limit: real): (r: seq<real>)
    ensures forall t :: t in r <==> t in times && t < limit
  {
    if times == [] then []
    else (if times[0] < limit then [times[0]] else []) + Observed(times[1..], limit)
  }

  function Observations(timestamps: seq<real>, end: real, c: Clock): seq<real> {
    Observed(Sort(Before, timestamps), end + c.interval + c.tolerance)
  }

  ghost function Reception(timestamps: seq<real>, start: real, end: real, c: Clock): Counts
    requires c.tolerance >= 0.0
  {
    if c.interval <= 0.0 then InvalidInterval
    else
      var obs := Observations(timestamps, end, c);
      if end <= start || obs == [] then Counts(0, 0)
      else Counts(Received(Infer(obs, c), start, end, c), Expected(Infer(obs, c), start, end, c))
  }

  /** The scan over candidate slots. */
  method LeastFeasible(phases: Phases, t: real, first: int, last: int, c: Clock) returns (r: Choice)
    ensures r == Choose(phases, t, first, last, c)
  {
    var candidate := first;
    while candidate <= last
      invariant Choose(phases, t, first, last, c) == Choose(phases, t, candidate, last, c)
      decreases last - candidate
    {
      if Feasible(phases, t, candidate, c) { return Slot(candidate); }
      candidate := candidate + 1;
    }
    r := Skip;
  }

  method AssignSlots(obs: seq<real>, c: Clock) returns (phases: Phases, slots: seq<int>, ghost kept: seq<real>)
    requires c.Valid() && |obs| > 0
    ensures phases == Infer(obs, c).phases && slots == Infer(obs, c).slots
    ensures kept == Infer(obs, c).kept
  {
    phases, slots, kept := Phases(obs[0] - c.interval, obs[0]), [0], [obs[0]];
    var previous := 0;
    assert obs[..1] == [obs[0]];
    for n := 1 to |obs|
      invariant Inference(phases, slots, kept) == Infer(obs[..n], c)
      invariant |slots| > 0 && previous == slots[|slots| - 1]
    {
      assert obs[..n + 1][..n] == obs[..n];
      var choice := LeastFeasible(phases, obs[n], previous + 1, LastCandidate(phases, obs[n], c), c);
      if choice.Slot? {
        phases := Narrow(phases, obs[n], choice.slot, c);
        slots, kept, previous := slots + [choice.slot], kept + [obs[n]], choice.slot;
      }
    }
    assert obs[..|obs|] == obs;
  }

  method BeaconReceptionCounts(timestamps: seq<real>, start: real, end: real, c: Clock) returns (r: Counts)
    requires c.tolerance >= 0.0
    ensures r == Reception(timestamps, start, end, c)
    ensures r.Counts? ==> r.received <= r.expected
  {
    hide Infer, CountIn, Observations;
    if c.interval <= 0.0 { return InvalidInterval; }
    if end <= start { return Counts(0, 0); }
    var obs := Observations(timestamps, end, c);
    if obs == [] { return Counts(0, 0); }
    var phases, slots, kept := AssignSlots(obs, c);
    var firstSlot := Ceil((start - phases.high) / c.interval - c.tolerance);
    if firstSlot < 0 { firstSlot := 0; }
    var endSlot := Ceil((end - phases.high) / c.interval - c.tolerance);
    if endSlot < firstSlot { endSlot := firstSlot; }
    ReceivedWithinExpected(obs, start, end, c);
    r := Counts(CountIn(slots, firstSlot, endSlot), endSlot - firstSlot);
  }

  // ----- adjacent intervals that see different beacons -----

  /** Each kept beacon bounds the phases from below. */
  ghost predicate LowBound(i: Inference, c: Clock) {
    && |i.slots| == |i.kept| > 0 && i.phases.low <= i.phases.high + c.tolerance
    && forall k :: 0 <= k < |i.kept| ==> i.kept[k] - At(i.slots[k] + 1, c) <= i.phases.low
  }

  lemma {:induction false} LowBounded(obs: seq<real>, c: Clock)
    requires c.Valid() && obs != []
    ensures LowBound(Infer(obs, c), c)
  {
    if |obs| > 1 { LowBounded(obs[..|obs| - 1], c); } else { AtNext(0, c); }
  }

  /** Beacons that come later only add kept beacons and slots. */
  lemma {:induction false} InferMore(early: seq<real>, more: seq<real>, c: Clock)
    requires c.Valid() && early != []
    ensures var i, j := Infer(early, c), Infer(early + more, c);
            && i.slots <= j.slots && i.kept <= j.kept && |j.slots| == |j.kept| && |i.slots| == |i.kept|
            && j.phases.high <= i.phases.high
            && forall k :: |i.kept| <= k < |j.kept| ==> j.kept[k] in more
  {
    InferenceSound(early, c);
    if more == [] {
      assert early + more == early;
    } else {
      var front, t, all := more[..|more| - 1], more[|more| - 1], early + more;
      assert all[..|all| - 1] == early + front && all[|all| - 1] == t && more == front + [t];
      InferMore(early, front, c);
      hide ChoiceFor;
    }
  }

  /** A beacon captured after the cut-off of an interval is in no slot that starts before its end. */
  lemma SlotOfLater(i: Inference, mid: real, k: nat, c: Clock)
    requires c.Valid() && LowBound(i, c) && k < |i.kept| && i.kept[k] >= mid + c.interval + c.tolerance
    ensures SlotAfter(i, mid, c) <= i.slots[k]
  {
    AtNext(i.slots[k], c);
    Quotients(mid - i.phases.high, At(i.slots[k], c), c);
    AtQuotient(i.slots[k], c);
  }

  lemma AtQuotient(slot: int, c: Clock)
    requires c.Valid()
    ensures At(slot, c) / c.interval == slot as real
  {
    var q := At(slot, c) / c.interval;
    assert (q - slot as real) * c.interval == 0.0;
  }

  lemma {:induction false} CountPrefix(slots: seq<int>, more: seq<int>, low: int, high: int)
    requires forall k :: 0 <= k < |more| ==> high <= more[k]
    ensures CountIn(slots + more, low, high) == CountIn(slots, low, high)
  {
    if more == [] {
      assert slots + more == slots;
    } else {
      var front, all := more[..|more| - 1], slots + more;
      assert all[..|all| - 1] == slots + front;
      CountPrefix(slots, front, low, high);
    }
  }

  lemma {:induction false} CountNone(slots: seq<int>, low: int, high: int)
    requires high <= low
    ensures CountIn(slots, low, high) == 0
  {
    if slots != [] { CountNone(slots[..|slots| - 1], low, high); }
  }

  lemma EndIsSlot(i: Inference, start: real, mid: real, c: Clock)
    requires c.Valid()
    ensures FirstExpected(i, start, c) <= EndExpected(i, start, mid, c)
    ensures FirstExpected(i, start, c) < EndExpected(i, start, mid, c) ==>
              EndExpected(i, start, mid, c) == SlotAfter(i, mid, c)
  {}

  /** Of an interval that ends before they come, later beacons change only the phases. */
  lemma ReceivedOfEarly(early: seq<real>, more: seq<real>, start: real, mid: real, c: Clock)
    requires c.Valid() && early != [] && start < mid
    requires forall t :: t in more ==> t >= mid + c.interval + c.tolerance
    ensures var i, j := Infer(early, c), Infer(early + more, c);
            Received(j, start, mid, c) == CountIn(i.slots, FirstExpected(j, start, c), EndExpected(j, start, mid, c))
  {
    hide Infer, SlotAfter, FirstExpected, EndExpected, CountIn, LowBound;
    var i, j := Infer(early, c), Infer(early + more, c);
    InferMore(early, more, c);
    LowBounded(early + more, c);
    EndIsSlot(j, start, mid, c);
    var low, high := FirstExpected(j, start, c), EndExpected(j, start, mid, c);
    if low == high {
      CountNone(i.slots, low, high);
      CountNone(j.slots, low, high);
    } else {
      var rest := j.slots[|i.slots|..];
      assert j.slots == i.slots + rest;
      forall k | 0 <= k < |rest| ensures high <= rest[k] {
        assert j.kept[|i.kept| + k] in more;
        SlotOfLater(j, mid, |i.slots| + k, c);
      }
      CountPrefix(i.slots, rest, low, high);
    }
  }

  /** Before the first beacon nothing is expected. */
  lemma NothingBeforeFirst(late: seq<real>, start: real, mid: real, c: Clock)
    requires c.Valid() && late != [] && start < mid
    requires forall t :: t in late ==> t >= mid + c.interval + c.tolerance
    ensures Expected(Infer(late, c), start, mid, c) == Received(Infer(late, c), start, mid, c) == 0
  {
    var j := Infer(late, c);
    LowBounded(late, c);
    InferenceSound(late, c);
    InferMore(late[..1], late[1..], c);
    assert late[..1] + late[1..] == late && late[..1] == [late[0]] && late[0] in late;
    assert j.kept[0] == late[0];
    SlotOfLater(j, mid, 0, c);
    CountNone(j.slots, FirstExpected(j, start, c), EndExpected(j, start, mid, c));
  }

  lemma {:induction false} NoneObserved(times: seq<real>, limit: real)
    requires forall t :: t in times ==> limit <= t
    ensures Observed(times, limit) == []
  {
    if times != [] {
      assert times[0] in times && forall t :: t in times[1..] ==> t in times;
      NoneObserved(times[1..], limit);
    }
  }

  lemma {:induction false} ObservedSplit(times: seq<real>, limit: real, later: real)
    requires SortedBy(Before, times) && limit <= later
    ensures Observed(times, limit) <= Observed(times, later)
    ensures forall k :: |Observed(times, limit)| <= k < |Observed(times, later)| ==> Observed(times, later)[k] >= limit
  {
    if times != [] {
      ObservedSplit(times[1..], limit, later);
      if times[0] >= limit {
        assert forall k :: 0 < k < |times| ==> Before(times[0], times[k]);
        assert forall t :: t in times ==> limit <= t;
        NoneObserved(times, limit);
      }
    }
  }

  lemma ObservationsSplit(timestamps: seq<real>, mid: real, end: real, c: Clock)
    requires c.Valid() && mid < end
    ensures var early, late := Observations(timestamps, mid, c), Observations(timestamps, end, c);
            && early <= late
            && forall t :: t in late[|early|..] ==> t >= mid + c.interval + c.tolerance
  {
    hide Sort, Observed;
    SortSorts(Before, timestamps);
    ObservedSplit(Sort(Before, timestamps), mid + c.interval + c.tolerance, end + c.interval + c.tolerance);
  }

  /** The counts of two adjacent intervals add up to those of the whole. */
  ghost predicate Adds(timestamps: seq<real>, start: real, mid: real, end: real, c: Clock)
    requires c.Valid()
  {
    var a, b := Reception(timestamps, start, mid, c), Reception(timestamps, mid, end, c);
    var whole := Reception(timestamps, start, end, c);
    && a.Counts? && b.Counts? && whole.Counts?
    && a.received + b.received == whole.received && a.expected + b.expected == whole.expected
  }

  /** What was known at the first cut-off is counted alike under the phases known at the second. */
  ghost predicate CountedAlike(early: Inference, late: Inference, start: real, mid: real, c: Clock)
    requires c.Valid()
  {
    && Expected(early, start, mid, c) == Expected(late, start, mid, c)
    && Received(early, start, mid, c)
       == CountIn(early.slots, FirstExpected(late, start, c), EndExpected(late, start, mid, c))
  }

  /** Separately computed counts of adjacent intervals add up if and only if nothing had been
      received at the first cut-off, or the phases narrowed by later beacons leave the slots of the
      first interval, and the kept beacons in them, as many as they were. */
  lemma AdjacentExactly(timestamps: seq<real>, start: real, mid: real, end: real, c: Clock)
    requires c.Valid() && start < mid < end
    ensures var early, late := Observations(timestamps, mid, c), Observations(timestamps, end, c);
            && early <= late
            && (Adds(timestamps, start, mid, end, c)
                <==> early == [] || CountedAlike(Infer(early, c), Infer(late, c), start, mid, c))
  {
    hide Observations, Infer, Expected, Received, FirstExpected, EndExpected, CountIn;
    ObservationsSplit(timestamps, mid, end, c);
    var early, late := Observations(timestamps, mid, c), Observations(timestamps, end, c);
    if late != [] {
      CountsAdd(Infer(late, c), start, mid, end, c);
      var more := late[|early|..];
      assert late == early + more;
      if early == [] { NothingBeforeFirst(late, start, mid, c); } else { ReceivedOfEarly(early, more, start, mid, c); }
    }
  }

  /** So they do when no beacon falls between the two cut-offs. */
  lemma AdjacentReceptionsAdd(timestamps: seq<real>, start: real, mid: real, end: real, c: Clock)
    requires c.Valid() && start < mid < end
    requires forall t :: t in timestamps ==> t < mid + c.interval + c.tolerance || t >= end + c.interval + c.tolerance
    ensures Adds(timestamps, start, mid, end, c)
  {
    AdjacentExactly(timestamps, start, mid, end, c);
    ObservationsSplit(timestamps, mid, end, c);
    var early, late := Observations(timestamps, mid, c), Observations(timestamps, end, c);
    SameMembers(Sort(Before, timestamps), timestamps);
    hide Sort, Observed, Infer, Adds, FirstExpected, EndExpected;
    assert forall t :: t in late[|early|..] ==> t in late;
    NothingMore(early, late);
  }

  lemma NothingMore<T>(early: seq<T>, late: seq<T>)
    requires early <= late
    ensures early == late || exists t :: t in late[|early|..]
  {
    var rest := late[|early|..];
    if rest != [] {
      var t := rest[0];
      assert t in late[|early|..];
    }
  }

  /** A beacon kept in this slot is received in the interval. */
  predicate CountedIn(slot: int, i: Inference, start: real, end: real, c: Clock)
    requires c.Valid()
  {
    FirstExpected(i, start, c) <= slot < EndExpected(i, start, end, c)
  }

  ghost predicate NotTwice(i: Inference, j: Inference, start: real, mid: real, from: real, end: real, c: Clock)
    requires c.Valid()
  {
    && i.kept <= j.kept && i.slots <= j.slots
    && forall k :: 0 <= k < |i.slots| ==>
         !(CountedIn(i.slots[k], i, start, mid, c) && CountedIn(j.slots[k], j, from, end, c))
  }

  /** No beacon is received in two intervals: one kept by the earlier of two computations is kept in
      the same slot by the later one, and not counted in both. */
  lemma NeverTwice(timestamps: seq<real>, start: real, mid: real, from: real, end: real, c: Clock)
    requires c.Valid() && start < mid <= from < end
    ensures var early, late := Observations(timestamps, mid, c), Observations(timestamps, end, c);
            early != [] ==> late != [] && NotTwice(Infer(early, c), Infer(late, c), start, mid, from, end, c)
  {
    ObservationsSplit(timestamps, mid, end, c);
    var early, late := Observations(timestamps, mid, c), Observations(timestamps, end, c);
    hide Observations, Infer;
    if early != [] {
      var more := late[|early|..];
      assert late == early + more;
      InferMore(early, more, c);
      LaterBound(Infer(early, c), Infer(late, c), mid, from, c);
      hide SlotAfter;
    }
  }

  lemma LaterBound(i: Inference, j: Inference, mid: real, from: real, c: Clock)
    requires c.Valid() && mid <= from && j.phases.high <= i.phases.high
    ensures SlotAfter(i, mid, c) <= SlotAfter(j, from, c)
  {
    Quotients(mid - i.phases.high, from - j.phases.high, c);
  }

  /** The counts of adjacent intervals do not always add up: after receptions at 0, 2.3 and 2.5, the intervals 0 to 1
      and 1 to 2 each
      receive one beacon, and the interval 0 to 2 receives one. */
  lemma AdjacentFails()
    ensures var times, c := [0.0, 2.3, 2.5], Clock(1.0, 0.0);
            && Reception(times, 0.0, 1.0, c) == Counts(1, 1) && Reception(times, 1.0, 2.0, c) == Counts(1, 1)
            && Reception(times, 0.0, 2.0, c) == Counts(1, 2)
  {
    FailObserved();
    FailInferred();
    FailCounted(Clock(1.0, 0.0));
    hide Observations, Infer, Received, Expected;
  }

  lemma FailCounted(c: Clock)
    requires c == Clock(1.0, 0.0)
    ensures var i := Inference(Phases(-1.0, 0.0), [0], [0.0]);
            Received(i, 0.0, 1.0, c) == Expected(i, 0.0, 1.0, c) == 1
    ensures var j := Inference(Phases(-0.7, -0.5), [0, 2, 3], [0.0, 2.3, 2.5]);
            && Received(j, 1.0, 2.0, c) == Expected(j, 1.0, 2.0, c) == 1
            && Received(j, 0.0, 2.0, c) == 1 && Expected(j, 0.0, 2.0, c) == 2
  {
    assert [0, 2, 3][..2] == [0, 2] && [0, 2][..1] == [0] && [0][..0] == [];
  }

  lemma FailInferred()
    ensures Infer([0.0], Clock(1.0, 0.0)) == Inference(Phases(-1.0, 0.0), [0], [0.0])
    ensures Infer([0.0, 2.3, 2.5], Clock(1.0, 0.0)) == Inference(Phases(-0.7, -0.5), [0, 2, 3], [0.0, 2.3, 2.5])
  {
    FailSteps(Clock(1.0, 0.0));
    hide Step;
    var times := [0.0, 2.3, 2.5];
    assert times[..2] == [0.0, 2.3] && times[..2][..1] == [0.0];
  }

  lemma FailObserved()
    ensures var times, c := [0.0, 2.3, 2.5], Clock(1.0, 0.0);
            Observations(times, 1.0, c) == [0.0] && Observations(times, 2.0, c) == times
  {
    FailSorted();
    var times := [0.0, 2.3, 2.5];
    hide Sort;
    assert times[1..] == [2.3, 2.5] && times[1..][1..] == [2.5] && [2.5][1..] == [];
    FailSeen(2.0);
    FailSeen(3.0);
  }

  lemma FailSeen(limit: real)
    requires limit == 2.0 || limit == 3.0
    ensures Observed([0.0, 2.3, 2.5], limit) == if limit == 2.0 then [0.0] else [0.0, 2.3, 2.5]
  {
    assert [0.0, 2.3, 2.5][1..] == [2.3, 2.5] && [2.3, 2.5][1..] == [2.5] && [2.5][1..] == [];
    assert Observed([2.5], limit) == if limit == 2.0 then [] else [2.5];
    assert Observed([2.3, 2.5], limit) == if limit == 2.0 then [] else [2.3, 2.5];
  }

  lemma FailSorted()
    ensures Sort(Before, [0.0, 2.3, 2.5]) == [0.0, 2.3, 2.5]
  {
    assert [0.0, 2.3, 2.5][1..] == [2.3, 2.5] && [2.3, 2.5][1..] == [2.5] && [2.5][1..] == [];
    assert Sort(Before, [2.5]) == [2.5];
    assert Sort(Before, [2.3, 2.5]) == [2.3, 2.5];
  }

  lemma FailSteps(c: Clock)
    requires c == Clock(1.0, 0.0)
    ensures Step(Begin(0.0, c), 2.3, c) == Inference(Phases(-0.7, 0.0), [0, 2], [0.0, 2.3])
    ensures Step(Inference(Phases(-0.7, 0.0), [0, 2], [0.0, 2.3]), 2.5, c)
              == Inference(Phases(-0.7, -0.5), [0, 2, 3], [0.0, 2.3, 2.5])
  {
    assert !Feasible(Phases(-1.0, 0.0), 2.3, 1, c);
  }
}
