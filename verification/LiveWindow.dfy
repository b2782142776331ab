/** The live form of the analyzer: frames are counted into the open projection of their second as
    they arrive, and a window is the merge of whole seconds. */
module LiveWindow {
  import opened Rounding
  import opened Frames
  import opened Projection
  import opened Merge
  import opened Timeline
  import opened RollingWindow

  ghost predicate SecondOk(seconds: map<int, FrameProjection>, s: int, kept: Arrivals) {
    && (s in seconds ==> seconds[s] == Stream(SecondFrames(kept, s)))
    && (s !in seconds ==> SecondFrames(kept, s) == [])
  }

  /** Every second has the live count of its frames not dropped yet. */
  ghost predicate SecondsOk(seconds: map<int, FrameProjection>, kept: Arrivals) {
    forall s: int :: SecondOk(seconds, s, kept)
  }

  /** Frames as they came, each with the BSSIDs and scope under which it was read. */
  type Arrivals = seq<Stamped<Sight>>

  /** Each frame is stamped with its own time, and none is earlier than one before it. */
  ghost predicate InOrder(arrived: Arrivals) {
    Sorted(arrived) && forall i :: 0 <= i < |arrived| ==> arrived[i].time == arrived[i].value.frame.timestamp
  }

  lemma SecondOrdered(arrived: Arrivals, cut: real, s: int)
    requires InOrder(arrived)
    ensures TimeOrdered(SecondFrames(From(arrived, cut), s))
  {
    var kept := Bucket(From(arrived, cut), s);
    FromMembers(arrived, cut);
    WithinMembers(From(arrived, cut), s as real, (s + 1) as real);
    forall i | 0 <= i < |kept| ensures kept[i].time == kept[i].value.frame.timestamp {
      assert kept[i] in kept && kept[i] in arrived;
    }
  }

  class Live {
    var known: set<Address>
    var scope: Scope
    var seconds: map<int, FrameProjection>
    ghost var arrived: Arrivals
    ghost var dropped: int

    ghost predicate Valid()
      reads this
    {
      InOrder(arrived) && SecondsOk(seconds, From(arrived, dropped as real))
    }

    constructor ()
      ensures Valid() && known == {} && scope.Anywhere? && arrived == [] && dropped == 0
    {
      known, scope, seconds, arrived, dropped := {}, Anywhere, map[], [], 0;
    }

    function Second(s: int): FrameProjection
      reads this
    {
      if s in seconds then seconds[s] else EMPTY_PROJECTION
    }

    /** A beacon comes, or expires: later frames are read under other BSSIDs and definitions. */
    method Learn(bssids: set<Address>, admitted: Scope)
      requires Valid()
      modifies this`known, this`scope
      ensures Valid() && known == bssids && scope == admitted
    {
      known, scope := bssids, admitted;
    }

    method Add(f: Frame)
      requires Valid() && f.timestamp >= dropped as real
      requires forall x :: x in arrived ==> x.time <= f.timestamp
      modifies this`seconds, this`arrived
      ensures Valid() && arrived == old(arrived) + [Stamped(f.timestamp, Sight(f, known, scope))]
    {
      hide From, Within, AccumulateOrdered;
      var s := f.timestamp.Floor;
      ghost var x := Stamped(f.timestamp, Sight(f, known, scope));
      ghost var before, was := From(arrived, dropped as real), seconds;
      FromSnoc(arrived, x, dropped as real);
      seconds := seconds[s := AccumulateOrdered(Second(s), f, known, scope)];
      forall k: int ensures SecondOk(seconds, k, before + [x]) {
        assert SecondOk(was, k, before);
        WithinSnoc(before, x, k as real, (k + 1) as real);
        if k == s {
          ValuesConcat(Bucket(before, s), [x]);
          StreamSnoc(SecondFrames(before, s), x.value);
        }
      }
      arrived := arrived + [x];
    }

    /** Drops the seconds before the one a cutoff falls in. */
    method Expire(cutoff: real)
      requires Valid() && cutoff.Floor >= dropped
      modifies this`seconds, this`dropped
      ensures Valid() && dropped == cutoff.Floor
    {
      hide From, Within, Stream;
      ghost var was := seconds;
      seconds := map s | s in seconds && s >= cutoff.Floor :: seconds[s];
      ghost var before, kept := From(arrived, dropped as real), From(arrived, cutoff.Floor as real);
      forall s: int ensures SecondOk(seconds, s, kept) {
        assert SecondOk(was, s, before);
        WithinFrom(arrived, dropped as real, s as real, (s + 1) as real);
        WithinFrom(arrived, cutoff.Floor as real, s as real, (s + 1) as real);
        if s < cutoff.Floor { WithinEmpty(arrived, cutoff.Floor as real, (s + 1) as real); }
      }
      dropped := cutoff.Floor;
    }

    /** The merge of the whole seconds a window touches is one pass over their frames, each read under
        what was known when it came; and over exactly the window's frames when the window begins and
        ends with a second. */
    method Rolling(low: real, high: real) returns (p: FrameProjection)
      requires Valid()
      ensures high <= low ==> p == EMPTY_PROJECTION
      ensures low < high ==>
        Agree(p, ProjectSights(Slice(From(arrived, dropped as real), low.Floor as real, Ceil(high) as real)))
      ensures low < high && dropped <= low.Floor && low == low.Floor as real && high == high.Floor as real ==>
        Agree(p, ProjectSights(Slice(arrived, low, high)))
    {
      hide From, Within, Merged, SightProjections, ProjectSights, Slice;
      if high <= low { return EMPTY_PROJECTION; }
      var parts := WholeProjections(low.Floor, Ceil(high));
      p := MergeFrameProjections(parts);
      WindowMerged(arrived, dropped, low, high);
    }

    /** The projections of seconds first..end-1, none for a second without frames. */
    method WholeProjections(first: int, end: int) returns (parts: seq<FrameProjection>)
      requires Valid() && first <= end
      ensures parts == SightProjections(WholeSeconds(From(arrived, dropped as real), first, end))
    {
      hide From, Within, Stream, ProjectSights, SecondFrames, SightProjections;
      ghost var kept := From(arrived, dropped as real);
      NoProjections();
      parts := [];
      for s := first to end
        invariant parts == SightProjections(WholeSeconds(kept, first, s))
      {
        assert SecondOk(seconds, s, kept);
        SecondOrdered(arrived, dropped as real, s);
        StreamIsBatch(SecondFrames(kept, s));
        NothingStreams();
        ProjectionsSnoc(WholeSeconds(kept, first, s), SecondFrames(kept, s));
        parts := parts + [Second(s)];
      }
    }
  }

  lemma WindowMerged(arrived: Arrivals, dropped: int, low: real, high: real)
    requires Sorted(arrived) && low < high
    ensures var kept := From(arrived, dropped as real);
            var p := Merged(SightProjections(WholeSeconds(kept, low.Floor, Ceil(high))));
      && Agree(p, ProjectSights(Slice(kept, low.Floor as real, Ceil(high) as real)))
      && (dropped <= low.Floor && low == low.Floor as real && high == high.Floor as real ==>
            Agree(p, ProjectSights(Slice(arrived, low, high))))
  {
    hide *;
    var kept, first, end := From(arrived, dropped as real), low.Floor, Ceil(high);
    NonEmptySeconds(low, high);
    FromMembers(arrived, dropped as real);
    WholeSecondsCover(kept, first, end);
    MergedIsOnePass(WholeSeconds(kept, first, end));
    if dropped <= first && low == first as real && high == high.Floor as real {
      CeilWhole(high);
      WholeWindow(arrived, dropped, first, end);
    }
  }

  lemma NonEmptySeconds(low: real, high: real)
    requires low < high
    ensures low.Floor <= Ceil(high)
  {}

  lemma CeilWhole(x: real)
    requires x == x.Floor as real
    ensures Ceil(x) == x.Floor
  {}

  lemma WholeWindow(arrived: Arrivals, dropped: int, first: int, end: int)
    requires dropped <= first
    ensures Slice(From(arrived, dropped as real), first as real, end as real)
      == Slice(arrived, first as real, end as real)
  {
    WithinFrom(arrived, dropped as real, first as real, end as real);
  }

  lemma StreamSnoc(xs: seq<Sight>, x: Sight)
    ensures Stream(xs + [x]) == AccumulateOrdered(Stream(xs), x.frame, x.known, x.scope)
      && Stream([]) == EMPTY_PROJECTION
  {
    assert (xs + [x])[..|xs|] == xs;
  }

  lemma NothingStreams()
    ensures Stream([]) == EMPTY_PROJECTION
  {}

  lemma NoProjections()
    ensures SightProjections([]) == []
  {}

  lemma ProjectionsSnoc(slices: seq<seq<Sight>>, last: seq<Sight>)
    ensures SightProjections(slices + [last]) == SightProjections(slices) + [ProjectSights(last)]
  {}
}
