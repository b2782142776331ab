/** How a rolling window is cut into a leading slice, whole seconds and a trailing slice. */
module RollingWindow {
  import opened Rounding
  import opened Frames
  import opened Projection
  import opened Merge
  import opened Timeline

  type Stored = seq<Stamped<Frame>>

  function Slice<T>(s: seq<Stamped<T>>, low: real, high: real): seq<T> { Values(Within(s, low, high)) }

  /** The entries of one whole second. */
  function Bucket<T>(s: seq<Stamped<T>>,
      second: int): seq<Stamped<T>> { Within(s, second as real, (second + 1) as real) }

  function SecondFrames<T>(s: seq<Stamped<T>>, second: int): seq<T> { Values(Bucket(s, second)) }

  lemma BucketInsert<T(!new)>(s: seq<Stamped<T>>, x: Stamped<T>, second: int)
    requires Sorted(s)
    ensures Bucket(Insert(s, x), second) == if x.time.Floor == second then Insert(Bucket(s, second), x)
      else Bucket(s, second)
  {
    WithinInsert(s, x, second as real, (second + 1) as real);
  }

  function WholeSeconds<T>(s: seq<Stamped<T>>, first: int, end: int): seq<seq<T>>
    decreases end - first
  {
    if end <= first then [] else WholeSeconds(s, first, end - 1) + [SecondFrames(s, end - 1)]
  }

  function LeadingSlice(s: Stored, low: real, high: real): seq<seq<Frame>> {
    if low < Ceil(low) as real then [Slice(s, low, Min(Ceil(low) as real, high))] else []
  }

  function TrailingStart(low: real, high: real): real { Max(low, high.Floor as real) }

  function TrailingSlice(s: Stored, low: real, high: real): seq<seq<Frame>> {
    if TrailingStart(low, high) < high then [Slice(s, TrailingStart(low, high), high)] else []
  }

  function Slices(s: Stored, low: real, high: real): seq<seq<Frame>> {
    LeadingSlice(s, low, high) + WholeSeconds(s, Ceil(low), high.Floor) + TrailingSlice(s, low, high)
  }

  /** The window's projection as the analyzer computes it: slice by slice, then merged. */
  function WindowProjection(s: Stored, low: real, high: real, known: set<Address>): FrameProjection {
    Merged(Projections(Slices(s, low, high), known, Anywhere))
  }

  lemma {:induction false} ConcatSplit<T(!new)>(a: seq<seq<T>>, b: seq<seq<T>>)
    ensures Concat(a + b) == Concat(a) + Concat(b)
  {
    if b == [] {
      assert a + b == a;
    } else {
      var front, last := b[..|b| - 1], b[|b| - 1];
      assert (a + b)[..|a + b| - 1] == a + front && (a + b)[|a + b| - 1] == last;
      ConcatSplit(a, front);
      assert Concat(a) + (Concat(front) + last) == Concat(a) + Concat(front) + last;
    }
  }

  lemma ConcatOne<T(!new)>(x: seq<T>)
    ensures Concat([x]) == x
  {
    assert [x][..0] == [];
  }

  lemma SliceSplit<T(!new)>(s: seq<Stamped<T>>, low: real, mid: real, high: real)
    requires Sorted(s) && low <= mid <= high
    ensures Slice(s, low, high) == Slice(s, low, mid) + Slice(s, mid, high)
  {
    WithinSplit(s, low, mid, high);
  }

  lemma SliceEmpty<T(!new)>(s: seq<Stamped<T>>, low: real, high: real)
    requires high <= low
    ensures Slice(s, low, high) == []
  {
    WithinEmpty(s, low, high);
  }

  lemma {:induction false} WholeSecondsCover<T(!new)>(s: seq<Stamped<T>>, first: int, end: int)
    requires Sorted(s) && first <= end
    ensures Concat(WholeSeconds(s, first, end)) == Slice(s, first as real, end as real)
    decreases end - first
  {
    if first == end {
      SliceEmpty(s, first as real, end as real);
    } else {
      WholeSecondsCover(s, first, end - 1);
      SliceSplit(s, first as real, (end - 1) as real, end as real);
      var front, last := WholeSeconds(s, first, end - 1), SecondFrames(s, end - 1);
      ConcatSplit(front, [last]);
      ConcatOne(last);
    }
  }

  lemma ConcatSlices(s: Stored, low: real, high: real)
    ensures Concat(Slices(s, low, high)) == Concat(LeadingSlice(s, low, high))
              + Concat(WholeSeconds(s, Ceil(low), high.Floor)) + Concat(TrailingSlice(s, low, high))
  {
    var a, b, c := LeadingSlice(s, low, high), WholeSeconds(s, Ceil(low), high.Floor), TrailingSlice(s, low, high);
    ConcatSplit(a + b, c);
    ConcatSplit(a, b);
  }

  lemma ConcatLeading(s: Stored, low: real, high: real)
    requires low < high
    ensures Concat(LeadingSlice(s, low, high)) == Slice(s, low, Min(Ceil(low) as real, high))
  {
    ConcatOne(Slice(s, low, Min(Ceil(low) as real, high)));
    if low >= Ceil(low) as real { SliceEmpty(s, low, Min(Ceil(low) as real, high)); }
  }

  lemma ConcatTrailing(s: Stored, low: real, high: real)
    requires low < high
    ensures Concat(TrailingSlice(s, low, high)) == Slice(s, TrailingStart(low, high), high)
  {
    ConcatOne(Slice(s, TrailingStart(low, high), high));
    if TrailingStart(low, high) >= high { SliceEmpty(s, TrailingStart(low, high), high); }
  }

  lemma NoWholeSeconds(s: Stored, first: int, end: int)
    requires end <= first
    ensures Concat(WholeSeconds(s, first, end)) == []
  {}

  /** The slices hold each frame of the window once, in time order, unless both ends lie
      strictly inside one second; then every frame is held twice. */
  lemma SlicesCoverWindow(s: Stored, low: real, high: real)
    requires Sorted(s) && low < high
    ensures Concat(Slices(s, low, high)) ==
            if Ceil(low) <= high.Floor then Slice(s, low, high) else Slice(s, low, high) + Slice(s, low, high)
  {
    hide Slices, LeadingSlice, TrailingSlice, Slice, Concat;
    ConcatSlices(s, low, high);
    ConcatLeading(s, low, high);
    ConcatTrailing(s, low, high);
    if Ceil(low) <= high.Floor {
      var first, end := Ceil(low) as real, high.Floor as real;
      WholeSecondsCover(s, Ceil(low), high.Floor);
      SliceSplit(s, low, first, high);
      SliceSplit(s, first, end, high);
      assert Min(first, high) == first && TrailingStart(low, high) == end;
    } else {
      NoWholeSeconds(s, Ceil(low), high.Floor);
    }
  }

  /** Every window the analyzer asks for is at least one second long, so it is never in the
      double-counting case. */
  lemma LongWindowsCount(low: real, high: real)
    requires high >= low + 1.0
    ensures Ceil(low) <= high.Floor
  {}

  lemma SlicesProjected(s: Stored, low: real, high: real, known: set<Address>)
    ensures Projections(Slices(s, low, high), known, Anywhere) ==
              Projections(LeadingSlice(s, low, high), known, Anywhere)
              + Projections(WholeSeconds(s, Ceil(low), high.Floor), known, Anywhere)
              + Projections(TrailingSlice(s, low, high), known, Anywhere)
  {}

  lemma PartsMerged(s: Stored, low: real, high: real, known: set<Address>, leading: seq<FrameProjection>,
                    whole: seq<FrameProjection>, trailing: seq<FrameProjection>)
    requires leading == Projections(LeadingSlice(s, low, high), known, Anywhere)
    requires whole == Projections(WholeSeconds(s, Ceil(low), high.Floor), known, Anywhere)
    requires trailing == Projections(TrailingSlice(s, low, high), known, Anywhere)
    ensures Merged(leading + whole + trailing) == WindowProjection(s, low, high, known)
  {
    SlicesProjected(s, low, high, known);
    assert leading + whole + trailing == Projections(Slices(s, low, high), known, Anywhere);
  }

  /** What the window's projection shows, for every non-empty window: one pass over its stored
      frames, except that a window inside a single second sees each of them twice. */
  lemma WindowIsOnePass(s: Stored, low: real, high: real, known: set<Address>)
    requires Sorted(s) && low < high
    ensures var frames := Slice(s, low, high);
            Agree(WindowProjection(s, low, high, known),
                  Project(if Ceil(low) <= high.Floor then frames else frames + frames, known, Anywhere))
  {
    SlicesCoverWindow(s, low, high);
    MergedIsProject(Slices(s, low, high), known, Anywhere);
  }

  /** With a target frequency, boundary slices are read under the BSSIDs of the window and whole
      seconds under those with a definition; merged, they are one pass over the window's frames, each
      read under the set of its slice. */
  lemma TargetWindowIsOnePass(s: Stored, low: real, high: real, known: set<Address>, defining: set<Address>,
      scope: Scope)
    requires Sorted(s) && low < high && Ceil(low) <= high.Floor
    ensures var first, end := Ceil(low) as real, high.Floor as real;
      && Slice(s, low, high) == Slice(s, low, first) + Slice(s, first, end) + Slice(s, end, high)
      && Agree(Merged(Projections(LeadingSlice(s, low, high), known, scope)
                      + Projections(WholeSeconds(s, Ceil(low), high.Floor), defining, scope)
                      + Projections(TrailingSlice(s, low, high), known, scope)),
               ProjectSights(Sights(Slice(s, low, first), known, scope) + Sights(Slice(s, first, end), defining, scope)
                             + Sights(Slice(s, end, high), known, scope)))
  {
    hide *;
    WindowInThree(s, low, high);
    var a, b, c := LeadingSlice(s, low, high), WholeSeconds(s, Ceil(low), high.Floor), TrailingSlice(s, low, high);
    SlicesRead(a, b, c, known, defining, scope);
  }

  lemma WindowInThree(s: Stored, low: real, high: real)
    requires Sorted(s) && low < high && Ceil(low) <= high.Floor
    ensures var first, end := Ceil(low) as real, high.Floor as real;
      && Slice(s, low, high) == Slice(s, low, first) + Slice(s, first, end) + Slice(s, end, high)
      && Concat(LeadingSlice(s, low, high)) == Slice(s, low, first)
      && Concat(WholeSeconds(s, Ceil(low), high.Floor)) == Slice(s, first, end)
      && Concat(TrailingSlice(s, low, high)) == Slice(s, end, high)
  {
    var first, end := Ceil(low) as real, high.Floor as real;
    SliceSplit(s, low, first, high);
    SliceSplit(s, first, end, high);
    assert Min(first, high) == first && TrailingStart(low, high) == end;
    hide LeadingSlice, TrailingSlice, Slice, WholeSeconds, Concat;
    ConcatLeading(s, low, high);
    ConcatTrailing(s, low, high);
    WholeSecondsCover(s, Ceil(low), high.Floor);
  }

  lemma SlicesRead(a: seq<seq<Frame>>, b: seq<seq<Frame>>, c: seq<seq<Frame>>, known: set<Address>,
      defining: set<Address>, scope: Scope)
    ensures Agree(Merged(Projections(a, known, scope) + Projections(b, defining, scope) + Projections(c, known, scope)),
                  ProjectSights(Sights(Concat(a), known, scope) + Sights(Concat(b), defining, scope)
                                + Sights(Concat(c), known, scope)))
  {
    hide *;
    ProjectionsRead(a, known, scope);
    ProjectionsRead(b, defining, scope);
    ProjectionsRead(c, known, scope);
    ConcatRead(a, known, scope);
    ConcatRead(b, defining, scope);
    ConcatRead(c, known, scope);
    SlicesJoined(EachRead(a, known, scope), EachRead(b, defining, scope), EachRead(c, known, scope));
  }

  lemma SlicesJoined(x: seq<seq<Sight>>, y: seq<seq<Sight>>, z: seq<seq<Sight>>)
    ensures Agree(Merged(SightProjections(x) + SightProjections(y) + SightProjections(z)),
                  ProjectSights(Concat(x) + Concat(y) + Concat(z)))
  {
    hide *;
    ConcatSplit(x + y, z);
    ConcatSplit(x, y);
    ProjectionsSplit(x + y, z);
    ProjectionsSplit(x, y);
    MergedIsOnePass(x + y + z);
  }

  lemma ProjectionsSplit(x: seq<seq<Sight>>, y: seq<seq<Sight>>)
    ensures SightProjections(x + y) == SightProjections(x) + SightProjections(y)
  {}

  lemma {:induction false} FrameCountIsLength(frames: seq<Frame>, known: set<Address>, s: Scope)
    ensures Project(frames, known, s).frameCount == |frames|
  {
    if frames != [] { FrameCountIsLength(frames[..|frames| - 1], known, s); }
  }

  /** A second cached before its older part was trimmed still equals a fresh projection
      exactly when the trim removed none of its frames. */
  lemma TrimmedSecondStale(s: Stored, second: int, cutoff: real, known: set<Address>, scope: Scope)
    requires Sorted(s) && second as real <= cutoff <= (second + 1) as real
    ensures Slice(s, second as real, cutoff) == [] <==>
      Project(SecondFrames(s, second), known, scope) == Project(SecondFrames(From(s, cutoff), second), known, scope)
  {
    SliceSplit(s, second as real, cutoff, (second + 1) as real);
    WithinFrom(s, cutoff, second as real, (second + 1) as real);
    assert SecondFrames(From(s, cutoff), second) == Slice(s, cutoff, (second + 1) as real);
    var all, kept := SecondFrames(s, second), SecondFrames(From(s, cutoff), second);
    assert all == Slice(s, second as real, cutoff) + kept;
    FrameCountIsLength(all, known, scope);
    FrameCountIsLength(kept, known, scope);
    if Slice(s, second as real, cutoff) == [] { assert all == kept; }
  }
}
