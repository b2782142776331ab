/** The independent retry audit: each decoded frame of a second is counted as eligible, under one
    exclusion, or out of scope; and its counts are those the analyzer shows. */
module RetryAudit {
  import opened Wrappers
  import opened Frames
  import opened HostTracking
  import opened Projection
  import opened FrameFacts

  datatype Counts = Counts(
    decoded: nat,
    readable: nat,
    group: nat,
    missing: nat,
    nonRetryable: nat,
    badFcs: nat,
    outOfScope: nat,
    eligible: nat,
    retries: nat)
  {
    /** Every decoded frame is counted once. */
    predicate Balanced() { decoded == eligible + group + missing + nonRetryable + badFcs + outOfScope }
  }

  function Excluded(frames: seq<Frame>, reason: Option<Exclusion>): nat {
    if frames == [] then 0
    else Excluded(frames[..|frames| - 1], reason) + Bit(RetryExclusion(frames[|frames| - 1]) == reason)
  }

  function Readable(frames: seq<Frame>): nat {
    if frames == [] then 0 else Readable(frames[..|frames| - 1]) + Bit(frames[|frames| - 1].retryFlag.Some?)
  }

  predicate IsRetry(f: Frame) { RetryEligible(f) && f.retryFlag == Some(true) }

  function Retries(frames: seq<Frame>): nat {
    if frames == [] then 0 else Retries(frames[..|frames| - 1]) + Bit(IsRetry(frames[|frames| - 1]))
  }

  function Audit(frames: seq<Frame>, outOfScope: nat): Counts {
    Counts(|frames| + outOfScope, Readable(frames),
           Excluded(frames, Some(GroupAddress)), Excluded(frames, Some(MissingRetryBit)),
           Excluded(frames, Some(NonRetryableType)), Excluded(frames, Some(BadFcs)),
           outOfScope, Excluded(frames, None), Retries(frames))
  }

  /** One row, counting each frame as it comes. */
  method AuditRow(frames: seq<Frame>, outOfScope: nat) returns (c: Counts)
    ensures c == Audit(frames, outOfScope) && c.Balanced()
  {
    c := Counts(outOfScope, 0, 0, 0, 0, 0, outOfScope, 0, 0);
    for n := 0 to |frames|
      invariant c == Audit(frames[..n], outOfScope) && c.Balanced()
    {
      var f := frames[n];
      assert frames[..n + 1][..n] == frames[..n];
      c := c.(decoded := c.decoded + 1, readable := c.readable + Bit(f.retryFlag.Some?),
        retries := c.retries + Bit(IsRetry(f)));
      match RetryExclusion(f) {
        case None => c := c.(eligible := c.eligible + 1);
        case Some(GroupAddress) => c := c.(group := c.group + 1);
        case Some(MissingRetryBit) => c := c.(missing := c.missing + 1);
        case Some(NonRetryableType) => c := c.(nonRetryable := c.nonRetryable + 1);
        case Some(BadFcs) => c := c.(badFcs := c.badFcs + 1);
      }
    }
    assert frames[..|frames|] == frames;
  }

  // ----- what the counts mean -----

  datatype Heading = ReadableBit | ToMany | NoBit | NotRetried | Damaged | InRatio | ARetry

  /** The headings of an audit row, said of a frame's own fields. */
  predicate Under(h: Heading, f: Frame) {
    match h
    case ReadableBit => f.retryFlag.Some?
    case Damaged => f.badFcs
    case ToMany => !f.badFcs && (ToGroup(f.receiver) || ToGroup(f.destination))
    case NoBit => !f.badFcs && !ToGroup(f.receiver) && !ToGroup(f.destination) && f.retryFlag.None?
    case NotRetried =>
      !f.badFcs && !ToGroup(f.receiver) && !ToGroup(f.destination) && f.retryFlag.Some? && !RetriedKind(f)
    case InRatio => Eligible(f)
    case ARetry => Retry(f)
  }

  function HowManyUnder(frames: seq<Frame>, h: Heading): nat {
    if frames == [] then 0
    else HowManyUnder(frames[..|frames| - 1], h) + if Under(h, frames[|frames| - 1]) then 1 else 0
  }

  lemma UnderExactly(f: Frame)
    ensures RetryExclusion(f) == None <==> Under(InRatio, f)
    ensures RetryExclusion(f) == Some(BadFcs) <==> Under(Damaged, f)
    ensures RetryExclusion(f) == Some(GroupAddress) <==> Under(ToMany, f)
    ensures RetryExclusion(f) == Some(MissingRetryBit) <==> Under(NoBit, f)
    ensures RetryExclusion(f) == Some(NonRetryableType) <==> Under(NotRetried, f)
    ensures IsRetry(f) <==> Under(ARetry, f)
  {
    EligibleMeans(f);
    assert RetriedKind(f) <==> (f.frameType == Some(2) || (f.frameType == Some(0) && f.frameSubtype.Some?
      && f.frameSubtype.value in {0, 1, 2, 3, 5, 9, 10, 11, 12, 13}));
  }

  /** Every count of an audit row is the number of frames with those field values. */
  lemma {:induction false} AuditExactly(frames: seq<Frame>, out: nat)
    ensures Audit(frames, out) == Counts(
              |frames| + out, HowManyUnder(frames, ReadableBit), HowManyUnder(frames, ToMany),
              HowManyUnder(frames, NoBit), HowManyUnder(frames, NotRetried), HowManyUnder(frames, Damaged), out,
              HowManyUnder(frames, InRatio), HowManyUnder(frames, ARetry))
  {
    hide RetryExclusion, IsRetry;
    if frames != [] {
      AuditExactly(frames[..|frames| - 1], out);
      UnderExactly(frames[|frames| - 1]);
    }
  }

  /** How many frames of one BSSID come under a heading. */
  function HowManyOf(frames: seq<Frame>, b: Address, known: set<Address>, h: Heading): nat {
    if frames == [] then 0
    else
      var f := frames[|frames| - 1];
      HowManyOf(frames[..|frames| - 1], b, known, h) + if BelongsTo(f, known, b) && Under(h, f) then 1 else 0
  }

  function HowManyBelong(frames: seq<Frame>, b: Address, known: set<Address>): nat {
    if frames == [] then 0
    else
      HowManyBelong(frames[..|frames| - 1], b, known) + if BelongsTo(frames[|frames| - 1], known, b) then 1 else 0
  }

  /** Every count of a BSSID's audit row is the number of its frames with those field values. */
  lemma {:induction false} OfBssidExactly(frames: seq<Frame>, b: Address, known: set<Address>)
    ensures Audit(OfBssid(frames, b, known), 0) == Counts(
              HowManyBelong(frames, b, known), HowManyOf(frames, b, known, ReadableBit),
              HowManyOf(frames, b, known, ToMany), HowManyOf(frames, b, known, NoBit),
              HowManyOf(frames, b, known, NotRetried), HowManyOf(frames, b, known, Damaged), 0,
              HowManyOf(frames, b, known, InRatio), HowManyOf(frames, b, known, ARetry))
  {
    hide Under, AssociatedBssid, BelongsTo, Audit;
    var of := OfBssid(frames, b, known);
    AuditExactly(of, 0);
    if frames != [] {
      var front, f := frames[..|frames| - 1], frames[|frames| - 1];
      OfBssidExactly(front, b, known);
      AuditExactly(OfBssid(front, b, known), 0);
      BelongsExactly(f, known, b);
      assert (OfBssid(front, b, known) + [f])[..|OfBssid(front, b, known)|] == OfBssid(front, b, known);
    }
  }

  // ----- against the analyzer -----

  function BadReadable(frames: seq<Frame>): nat {
    if frames == [] then 0
    else BadReadable(frames[..|frames| - 1]) + Bit(frames[|frames| - 1].badFcs && frames[|frames| - 1].retryFlag.Some?)
  }

  lemma ReadAnywhere(f: Frame, known: set<Address>)
    ensures var r := Read(f, known, Anywhere);
            && r.eligible == RetryEligible(f) && r.retry == IsRetry(f) && r.observed == (!f.badFcs && f.retryFlag.Some?)
            && r.bssid == if f.badFcs then None else AssociatedBssid(f, known)
    ensures f.badFcs <==> RetryExclusion(f) == Some(BadFcs)
  {
    hide AssociatedBssid, KnownFrameBssid, ClientsOf;
  }

  lemma AuditSnoc(frames: seq<Frame>, f: Frame)
    ensures var c, next := Audit(frames, 0), Audit(frames + [f], 0);
            && next.decoded == c.decoded + 1 && next.readable == c.readable + Bit(f.retryFlag.Some?)
            && next.eligible == c.eligible + Bit(RetryEligible(f)) && next.retries == c.retries + Bit(IsRetry(f))
            && next.badFcs == c.badFcs + Bit(RetryExclusion(f) == Some(BadFcs))
  {
    hide RetryExclusion;
    assert (frames + [f])[..|frames|] == frames;
  }

  /** Without a target frequency, the audit of some frames counts what their projection counts,
      whatever BSSIDs are known; only the audit also reads the retry bit of damaged frames. */
  lemma {:induction false} AuditIsProjection(frames: seq<Frame>, known: set<Address>)
    ensures var c, p := Audit(frames, 0), Project(frames, known, Anywhere);
            && c.decoded == p.frameCount && c.eligible == p.retryEligible && c.retries == p.retries
            && c.readable == p.retryObserved + BadReadable(frames)
  {
    hide RetryExclusion, Read, Audit, IsRetry, CountByBssid, WithHost, WithClient;
    if frames == [] {
      assert Audit([], 0) == Counts(0, 0, 0, 0, 0, 0, 0, 0, 0) by { AuditNothing(); }
    } else {
      var front, f := frames[..|frames| - 1], frames[|frames| - 1];
      AuditIsProjection(front, known);
      AuditSnoc(front, f);
      ReadAnywhere(f, known);
      assert frames == front + [f];
    }
  }

  lemma AuditNothing()
    ensures Audit([], 0) == Counts(0, 0, 0, 0, 0, 0, 0, 0, 0)
  {}

  function OfBssid(frames: seq<Frame>, b: Address, known: set<Address>): seq<Frame> {
    if frames == [] then []
    else
      var front, f := OfBssid(frames[..|frames| - 1], b, known), frames[|frames| - 1];
      if AssociatedBssid(f, known) == Some(b) then front + [f] else front
  }

  /** The same for the frames of one BSSID and its summary. */
  lemma {:induction false} BssidAuditIsSummary(frames: seq<Frame>, b: Address, known: set<Address>)
    ensures var c, s := Audit(OfBssid(frames, b, known), 0), SummaryOf(Project(frames, known, Anywhere).byBssid, b);
            c.eligible == s.retryEligible && c.retries == s.retries && c.decoded == s.frameCount + c.badFcs
  {
    hide RetryExclusion, Read, Audit, IsRetry, WithHost, WithClient, AssociatedBssid, Earliest, Latest;
    if frames == [] {
      AuditNothing();
    } else {
      var front, f := frames[..|frames| - 1], frames[|frames| - 1];
      BssidAuditIsSummary(front, b, known);
      AuditSnoc(OfBssid(front, b, known), f);
      ReadAnywhere(f, known);
      assert f.badFcs ==> !RetryEligible(f) && !IsRetry(f) by { DamagedIsExcluded(f); }
    }
  }

  lemma DamagedIsExcluded(f: Frame)
    ensures f.badFcs ==> !RetryEligible(f) && !IsRetry(f)
  {}

  /** The frames a scope admits, in order. */
  function Admitted(frames: seq<Frame>, known: set<Address>, s: Scope): (r: seq<Frame>)
    ensures |r| <= |frames|
    ensures s.Anywhere? ==> r == frames
  {
    if frames == [] then []
    else
      var front, f := Admitted(frames[..|frames| - 1], known, s), frames[|frames| - 1];
      if InScope(f, AssociatedBssid(f, known), s) then front + [f] else front
  }

  /** With a target frequency, those are the frames whose BSSID is on it when they come. */
  lemma {:induction false} AdmittedExactly(frames: seq<Frame>, known: set<Address>, s: Scope)
    requires OrderedScope(s)
    ensures forall f :: f in Admitted(frames, known, s) <==>
              f in frames && (s.Anywhere? || exists b :: BelongsTo(f, known, b) && OnTarget(b, f.timestamp, s))
  {
    hide InScope, AssociatedBssid, BelongsTo, OnTarget;
    if frames != [] {
      var front, f := frames[..|frames| - 1], frames[|frames| - 1];
      assert frames == front + [f];
      AdmittedExactly(front, known, s);
      var intact := f.(badFcs := false);
      SameFields(f, intact, known, s);
      CountedExactly(intact, known, s);
    }
  }

  lemma SameFields(f: Frame, g: Frame, known: set<Address>, s: Scope)
    requires g == f.(badFcs := false)
    ensures InScope(f, AssociatedBssid(f, known), s) == InScope(g, AssociatedBssid(g, known), s)
    ensures forall b :: BelongsTo(f, known, b) == BelongsTo(g, known, b)
  {
    hide FirstIn;
  }

  /** The frames of one second that a scope admits, and how many it does not. */
  method ScopedFrames(frames: seq<Frame>, known: set<Address>, s: Scope) returns (scoped: seq<Frame>, out: nat)
    requires OrderedScope(s)
    ensures scoped == Admitted(frames, known, s) && |scoped| + out == |frames|
  {
    hide AssociatedBssid, InTimeline;
    if s.Anywhere? { return frames, 0; }
    scoped, out := [], 0;
    for n := 0 to |frames|
      invariant |scoped| + out == n && scoped == Admitted(frames[..n], known, s)
    {
      assert frames[..n + 1][..n] == frames[..n];
      var admitted := ScanScope(frames[n], AssociatedBssid(frames[n], known), s);
      if admitted { scoped := scoped + [frames[n]]; } else { out := out + 1; }
    }
    assert frames[..|frames|] == frames;
  }

  /** The channel row of a second: with a target frequency, frames out of its scope are still
      decoded frames; without one, the row is the audit of all frames. */
  method AuditChannel(frames: seq<Frame>, known: set<Address>, s: Scope) returns (c: Counts)
    requires OrderedScope(s)
    ensures var scoped := Admitted(frames, known, s); c == Audit(scoped, |frames| - |scoped|)
    ensures c.Balanced() && c.decoded == |frames|
    ensures s.Anywhere? ==> c == Audit(frames, 0)
  {
    hide Admitted, Excluded, Readable, Retries, InScope;
    var scoped, out := ScopedFrames(frames, known, s);
    c := AuditRow(scoped, out);
  }
}
