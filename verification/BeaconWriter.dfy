/** The rotating beacon writer: one open partial file, closed segments under retention limits,
    and every failure its file operations can raise. */
module BeaconWriter {
  import opened Bytes
  import opened Pcapng
  import opened BeaconFilter

  const INTERFACE_LIMIT: nat := 256
  const BLOCK_LIMIT: nat := 4 * 1024 * 1024

  datatype Limits = Limits(
    segmentBytes: nat, rotationSeconds: real, retainedBytes: nat, retainedFiles: nat, minFree: nat,
    queueBytes: nat, queueRecords: nat)
  {
    predicate Valid() {
      && segmentBytes > 0 && queueBytes > 0 && queueRecords > 0 && rotationSeconds > 0.0
      && (retainedBytes > 0 ==> segmentBytes <= retainedBytes)
      && retainedFiles <= 256 && queueRecords <= 4096
    }
  }

  /** A packet accepted for export, with the section context it was selected under. */
  datatype Item = Item(id: nat, generation: int, header: seq<Block>, packet: Block, size: nat)

  ghost predicate ContextIs(header: seq<Block>, c: Context) {
    Chain(header, NO_SECTION, c, INTERFACE_LIMIT, BLOCK_LIMIT) && c.endian.Some?
  }

  ghost predicate ItemOk(i: Item, c: Context) {
    ContextIs(i.header, c) && KeptIn(i.packet, c, INTERFACE_LIMIT, BLOCK_LIMIT)
  }

  function Packets(items: seq<Item>): (r: seq<Block>)
    ensures |r| == |items|
  {
    seq(|items|, k requires 0 <= k < |items| => items[k].packet)
  }

  function SegmentBytes(header: seq<Block>, items: seq<Item>): Bytes {
    Concat(Raws(header)) + Concat(Raws(Packets(items)))
  }

  datatype Segment = Segment(header: seq<Block>, items: seq<Item>, bytes: Bytes)

  /** A file's bytes are one context followed by packets selected under exactly that context. */
  ghost predicate SegmentOk(s: Segment) {
    && s.bytes == SegmentBytes(s.header, s.items)
    && s.items != []
    && exists c :: ContextIs(s.header, c) && forall i :: i in s.items ==> ItemOk(i, c)
  }

  lemma NotEmpty(s: Segment)
    requires SegmentOk(s)
    ensures s.items != []
  {}

  /** Every published file stands alone, and each of its packets is read in it under the very
      interfaces it was captured under. */
  lemma PublishedStandsAlone(s: Segment)
    requires SegmentOk(s)
    ensures ReadBlocks(s.bytes, START, BLOCK_LIMIT) == Yield(s.header + Packets(s.items), true)
    ensures Export(s.bytes, INTERFACE_LIMIT, BLOCK_LIMIT) == Exported(s.bytes, true)
    ensures forall k, c :: 0 <= k < |s.items| && ContextIs(s.items[k].header, c) ==>
      ReadUnder(s.bytes, |s.header| + k, s.items[k].packet, c, INTERFACE_LIMIT, BLOCK_LIMIT)
  {
    var own :| ContextIs(s.header, own) && forall i :: i in s.items ==> ItemOk(i, own);
    StandsAlone(s, own);
    hide *;
    forall k, c | 0 <= k < |s.items| && ContextIs(s.items[k].header, c)
      ensures ReadUnder(s.bytes, |s.header| + k, s.items[k].packet, c, INTERFACE_LIMIT, BLOCK_LIMIT)
    {
      assert s.items[k] in s.items;
      SameContext(s.items[k], c, own);
    }
  }

  lemma SameContext(i: Item, c: Context, own: Context)
    requires ContextIs(i.header, c) && ItemOk(i, own)
    ensures c == own
  {
    hide Chain, KeptIn;
    HeaderUnique(i.header, i.header, NO_SECTION, c, own, INTERFACE_LIMIT, BLOCK_LIMIT);
  }

  lemma StandsAlone(s: Segment, own: Context)
    requires s.bytes == SegmentBytes(s.header, s.items) && ContextIs(s.header, own) && forall i :: i in s.items ==>
      ItemOk(i, own)
    ensures ReadBlocks(s.bytes, START, BLOCK_LIMIT) == Yield(s.header + Packets(s.items), true)
    ensures Export(s.bytes, INTERFACE_LIMIT, BLOCK_LIMIT) == Exported(s.bytes, true)
    ensures forall k :: 0 <= k < |s.items| ==>
      ReadUnder(s.bytes, |s.header| + k, s.items[k].packet, own, INTERFACE_LIMIT, BLOCK_LIMIT)
  {
    hide ReadBlocks, Chain, KeptIn, Raws, Concat, ReadUnder, Export;
    var packets := Packets(s.items);
    forall p | p in packets ensures KeptIn(p, own, INTERFACE_LIMIT, BLOCK_LIMIT) {
      var k :| 0 <= k < |s.items| && s.items[k].packet == p;
      assert s.items[k] in s.items;
    }
    SegmentStandsAlone(s.header, packets, own, INTERFACE_LIMIT, BLOCK_LIMIT);
    forall k | 0 <= k < |s.items|
      ensures ReadUnder(s.bytes, |s.header| + k, s.items[k].packet, own, INTERFACE_LIMIT, BLOCK_LIMIT)
    {
      assert packets[k] == s.items[k].packet;
    }
  }

  /** The bytes of a context determine its blocks and the state they lead to. */
  lemma {:induction false} HeaderUnique(a: seq<Block>, b: seq<Block>, c: Context, ca: Context, cb: Context, limit: nat,
      max: nat)
    requires Chain(a, c, ca, limit, max) && Chain(b, c, cb, limit, max) && Raws(a) == Raws(b)
    ensures a == b && ca == cb
  {
    hide Rereadable, KeptTo, Select, WellFormed;
    assert |Raws(a)| == |Raws(b)|;
    if a != [] {
      assert Raws(a)[0] == a[0].raw && Raws(b)[0] == b[0].raw;
      KeptToFacts(a[0], c, limit, max);
      KeptToFacts(b[0], c, limit, max);
      SameRawSameBlock(a[0], b[0], c, max);
      assert Raws(a)[1..] == Raws(a[1..]) && Raws(b)[1..] == Raws(b[1..]);
      HeaderUnique(a[1..], b[1..], KeptTo(a[0], c, limit, max).value, ca, cb, limit, max);
      assert a == [a[0]] + a[1..] && b == [b[0]] + b[1..];
    }
  }

  lemma SameRawSameBlock(a: Block, b: Block, c: Context, max: nat)
    requires Rereadable(a, c, max) && Rereadable(b, c, max) && a.raw == b.raw
    ensures a == b
  {}

  datatype Outcome = Done | LowDisk | Failed

  /** How the closing of a file ends: with its final name alone, stopped before that name was linked,
      or with the final name linked and the partial one still there. */
  datatype Closing = Closed | Unlinked | Leftover

  datatype File = File(name: nat, size: nat)

  function Total(files: seq<File>): nat {
    if files == [] then 0 else files[0].size + Total(files[1..])
  }

  lemma {:induction false} TotalSnoc(files: seq<File>, f: File)
    ensures Total(files + [f]) == Total(files) + f.size
  {
    if files == [] {
      assert files + [f] == [f] && [f][1..] == [];
    } else {
      assert (files + [f])[1..] == files[1..] + [f];
      TotalSnoc(files[1..], f);
    }
  }

  lemma {:induction false} BytesSnoc(blocks: seq<Block>, b: Block)
    ensures Concat(Raws(blocks + [b])) == Concat(Raws(blocks)) + b.raw
  {
    assert Raws(blocks + [b]) == Raws(blocks) + [b.raw];
    ConcatSplit(Raws(blocks), [b.raw]);
    assert Concat([b.raw]) == b.raw + Concat([b.raw][1..]);
  }

  lemma {:induction false} ItemsOfSnoc(segments: seq<Segment>, s: Segment)
    ensures ItemsOf(segments + [s]) == ItemsOf(segments) + s.items
  {
    assert (segments + [s])[..|segments|] == segments;
  }

  /** A new file that holds a context and one packet selected under it. */
  lemma FirstPacket(i: Item, c: Context)
    requires ItemOk(i, c)
    ensures SegmentOk(Segment(i.header, [i], Concat(Raws(i.header)) + i.packet.raw))
  {
    hide ContextIs, KeptIn;
    assert Packets([i]) == [] + [i.packet];
    BytesSnoc([], i.packet);
    var s := Segment(i.header, [i], Concat(Raws(i.header)) + i.packet.raw);
    assert Raws([]) == [];
    assert forall x :: x in s.items ==> x == i;
  }

  /** A packet whose context has the bytes of the open file's context was selected under the very
      same interfaces, so the file still stands alone. */
  lemma NextPacket(s: Segment, i: Item, c: Context)
    requires SegmentOk(s) && ItemOk(i, c) && Raws(s.header) == Raws(i.header)
    ensures SegmentOk(Segment(s.header, s.items + [i], s.bytes + i.packet.raw))
  {
    hide Chain, KeptIn, Concat, Raws;
    var own :| ContextIs(s.header, own) && forall x :: x in s.items ==> ItemOk(x, own);
    HeaderUnique(s.header, i.header, NO_SECTION, own, c, INTERFACE_LIMIT, BLOCK_LIMIT);
    NextBytes(s.header, s.items, i);
    assert forall x :: x in s.items + [i] ==> ItemOk(x, own);
  }

  lemma NextBytes(header: seq<Block>, items: seq<Item>, i: Item)
    ensures SegmentBytes(header, items + [i]) == SegmentBytes(header, items) + i.packet.raw
  {
    assert Packets(items + [i]) == Packets(items) + [i.packet];
    BytesSnoc(Packets(items), i.packet);
  }

  /** A packet and its context fit into a file of their own. */
  predicate FitsAlone(i: Item, l: Limits) { |Concat(Raws(i.header))| + |i.packet.raw| <= l.segmentBytes }

  ghost predicate NewestOf(part: seq<File>, all: seq<File>) {
    |part| <= |all| && part == all[|all| - |part|..]
  }

  ghost predicate AllOk(segments: seq<Segment>) {
    forall s :: s in segments ==> SegmentOk(s)
  }

  lemma AllOkSnoc(segments: seq<Segment>, s: Segment)
    requires AllOk(segments) && SegmentOk(s)
    ensures AllOk(segments + [s])
  {
    hide SegmentOk;
  }

  /** The limits that make the writer evict: bytes in all, or files counting the open one. */
  predicate Over(l: Limits, bytes: int, files: nat) {
    (l.retainedBytes > 0 && bytes > l.retainedBytes) || (l.retainedFiles > 0 && files > l.retainedFiles)
  }

  /** What is kept of the retained files, oldest first, when some bytes must fit beside them. */
  function Kept(l: Limits, files: seq<File>, incoming: nat, extra: nat): seq<File> {
    if files != [] && Over(l, Total(files) + incoming, |files| + extra) then Kept(l, files[1..], incoming, extra)
      else files
  }

  /** Some files fit beside what comes in, by their bytes and by their number; no limit means no bound. */
  ghost predicate Fits(l: Limits, files: seq<File>, incoming: nat, extra: nat) {
    && (l.retainedBytes == 0 || Total(files) + incoming <= l.retainedBytes)
    && (l.retainedFiles == 0 || |files| + extra <= l.retainedFiles)
  }

  /** The oldest go first, and no more of them than must: what is kept fits, and with one more it would not. */
  lemma {:induction false} KeptIsNewest(l: Limits, files: seq<File>, incoming: nat, extra: nat)
    ensures var kept := Kept(l, files, incoming, extra); var gone := |files| - |kept|;
            && 0 <= gone && kept == files[gone..]
            && (kept != [] ==> Fits(l, kept, incoming, extra))
            && (forall k :: 0 <= k < gone ==> !Fits(l, files[k..], incoming, extra))
  {
    assert files != [] ==> (Over(l, Total(files) + incoming, |files| + extra) <==> !Fits(l, files, incoming, extra));
    hide Over, Total, Fits;
    if files != [] && Over(l, Total(files) + incoming, |files| + extra) {
      KeptIsNewest(l, files[1..], incoming, extra);
      var gone := |files| - |Kept(l, files, incoming, extra)|;
      forall k | 0 <= k < gone ensures !Fits(l, files[k..], incoming, extra) {
        if k > 0 { assert files[k..] == files[1..][k - 1..]; } else { assert files[k..] == files; }
      }
    }
  }

  predicate Enabled(l: Limits) { l.retainedBytes > 0 || l.retainedFiles > 0 }

  // ----- where every packet is -----

  /** The open file's bytes and packets, the packets of closed and of abandoned files, the files
      published (and counted as exported, or linked only), and all that ever was retained. */
  datatype Books = Books(
    file: Bytes, active: seq<Item>, exported: seq<Item>, skipped: seq<Item>,
    segments: seq<Segment>, linked: seq<Segment>, everRetained: seq<File>)
  {
    /** Everything ever handed over and not refused, wherever it now is. */
    ghost function Held(): multiset<Item> { multiset(active) + multiset(exported) + multiset(skipped) }

    ghost function Open(header: seq<Block>): Segment { Segment(header, active, file) }

    ghost function Appended(i: Item): Books { this.(file := file + i.packet.raw, active := active + [i]) }

    ghost function Published(header: seq<Block>, f: seq<File>): Books {
      this.(active := [], exported := exported + active, segments := segments + [Open(header)],
        everRetained := everRetained + f)
    }

    ghost function Linked(header: seq<Block>): Books { this.(linked := linked + [Open(header)]) }

    ghost function GivenUp(): Books { this.(active := [], skipped := skipped + active) }
  }

  /** Every published file stands alone, and what counts as exported is what those files hold. */
  ghost predicate BooksOk(b: Books) {
    AllOk(b.segments) && AllOk(b.linked) && b.exported == ItemsOf(b.segments)
  }

  /** What a file holds that was linked but not counted is given up: skipped already, or about to be. */
  ghost predicate LinkedGivenUp(b: Books, torn: bool) {
    multiset(ItemsOf(b.linked)) <= multiset(b.skipped) + if torn then multiset(b.active) else multiset{}
  }

  lemma PublishedOk(b: Books, header: seq<Block>, f: seq<File>)
    requires BooksOk(b) && SegmentOk(b.Open(header))
    ensures BooksOk(b.Published(header, f)) && b.Published(header, f).Held() == b.Held()
    ensures LinkedGivenUp(b, false) ==> LinkedGivenUp(b.Published(header, f), false)
  {
    AllOkSnoc(b.segments, b.Open(header));
    ItemsOfSnoc(b.segments, b.Open(header));
  }

  lemma LinkedOk(b: Books, header: seq<Block>)
    requires BooksOk(b) && SegmentOk(b.Open(header))
    ensures BooksOk(b.Linked(header)) && b.Linked(header).Held() == b.Held()
    ensures LinkedGivenUp(b, false) ==> LinkedGivenUp(b.Linked(header), true)
  {
    AllOkSnoc(b.linked, b.Open(header));
    ItemsOfSnoc(b.linked, b.Open(header));
  }

  lemma GivenUpOk(b: Books)
    ensures BooksOk(b.GivenUp()) == BooksOk(b) && b.GivenUp().Held() == b.Held()
    ensures forall torn, after :: LinkedGivenUp(b, torn) ==> LinkedGivenUp(b.GivenUp(), after)
  {}

  lemma FileOk(b: Books, file: Bytes)
    ensures BooksOk(b.(file := file)) == BooksOk(b) && b.(file := file).Held() == b.Held()
    ensures forall torn, after :: LinkedGivenUp(b, torn) && (torn ==> after) ==> LinkedGivenUp(b.(file := file), after)
  {}

  lemma NewestSnoc(part: seq<File>, all: seq<File>, f: seq<File>)
    requires NewestOf(part, all)
    ensures NewestOf(part + f, all + f)
  {}

  lemma AppendedOk(b: Books, i: Item)
    ensures BooksOk(b.Appended(i)) == BooksOk(b) && b.Appended(i).Held() == b.Held() + multiset{i}
    ensures LinkedGivenUp(b, false) ==> LinkedGivenUp(b.Appended(i), false) && LinkedGivenUp(b, true)
  {}

  class RotatingBeaconWriter {
    const limits: Limits
    var open: bool           // a stream is open
    var partial: bool        // a partial path is recorded
    var header: seq<Block>   // the context of the open segment
    var started: real
    var size: nat
    var activeBeacons: nat
    var exportedBeacons: nat
    var skippedBeacons: nat
    var deletedSegments: nat
    var retained: seq<File>
    var closedBytes: int
    var sequence: nat
    var leaseClosed: bool

    ghost var books: Books
    ghost var torn: bool     // an operation failed midway; only abort may follow

    /** The counters count the books; the retention list is the newest part of all that was
        retained; unless an operation failed midway, the open file holds its context and then the
        active packets, and the bytes of closed files are those of the retention list. */
    ghost predicate Valid()
      reads this
    {
      && limits.Valid() && BooksOk(books) && LinkedGivenUp(books, torn)
      && activeBeacons == |books.active| && exportedBeacons == |books.exported| && skippedBeacons == |books.skipped|
      && NewestOf(retained, books.everRetained)
      && (!torn ==>
            && (if open then partial && size == |books.file| && size <= limits.segmentBytes
              && SegmentOk(books.Open(header))
                else !partial && size == 0 && books.active == [])
            && (Enabled(limits) ==> closedBytes == Total(retained)))
    }

    ghost predicate WithinLimits()
      reads this
    {
      && (open ==> size <= limits.segmentBytes)
      && (limits.retainedBytes > 0 ==> closedBytes + size <= limits.retainedBytes)
      && (limits.retainedFiles > 0 ==> |retained| + (if open then 1 else 0) <= limits.retainedFiles)
    }

    constructor (l: Limits, existing: seq<File>, found: nat)
      requires l.Valid() && (Enabled(l) ==> found == Total(existing))
      ensures Valid() && !torn && limits == l && !leaseClosed && !open && size == 0
      ensures books.Held() == multiset{} && books.segments == []
        && books.active == books.exported == books.skipped == []
      ensures retained == (if Enabled(l) then existing else []) && deletedSegments == 0 && sequence == 0
    {
      limits := l;
      open, partial, header, started, size := false, false, [], 0.0, 0;
      activeBeacons, exportedBeacons, skippedBeacons, deletedSegments := 0, 0, 0, 0;
      retained := if Enabled(l) then existing else [];
      closedBytes, sequence, leaseClosed := found, 0, false;
      books := Books([], [], [], [], [], [], if Enabled(l) then existing else []);
      torn := false;
    }

    /** Takes the oldest retained file away; it may be gone already, changed, or impossible to remove. */
    method Evict() returns (ok: bool, ghost gone: bool)
      requires Valid() && !torn && retained != [] && Enabled(limits)
      modifies this`retained, this`closedBytes, this`deletedSegments, this`torn
      ensures Valid() && ok == !torn && retained == old(retained)[1..]
      ensures closedBytes == old(closedBytes) - if ok then old(retained)[0].size else 0
      ensures deletedSegments == old(deletedSegments) + if gone || !ok then 0 else 1
    {
      hide SegmentOk, BooksOk;
      var victim := retained[0];
      retained := retained[1..];
      var missing := *;
      gone := missing;
      if !missing {
        if * { torn := true; return false, false; }
        deletedSegments := deletedSegments + 1;
      }
      closedBytes := closedBytes - victim.size;
      ok := true;
    }

    lemma NothingRetained()
      requires Valid() && !torn && retained == []
      ensures Enabled(limits) ==> closedBytes == 0
    {}

    /** Makes room for incoming bytes, or refuses them. Unless something failed or the disk is low, they
        are refused only if they would not fit beside the open file with nothing else retained. */
    method Budget(incoming: nat, opening: bool) returns (r: Outcome)
      requires Valid() && !torn
      modifies this`retained, this`closedBytes, this`deletedSegments, this`torn
      ensures Valid() && (torn ==> r.Failed?)
      ensures !torn ==> retained == Kept(limits, old(retained), size + incoming, if open || opening then 1 else 0)
      ensures r.Done? || r.LowDisk? ==>
                && (limits.retainedBytes > 0 ==> closedBytes + size + incoming <= limits.retainedBytes)
                && (limits.retainedFiles > 0 ==>
                  |retained| + (if open || opening then 1 else 0) <= limits.retainedFiles)
      ensures !torn && !r.LowDisk? ==>
        (r.Done? <==> limits.retainedBytes == 0 || size + incoming <= limits.retainedBytes)
    {
      hide Total, SegmentOk, BooksOk, NewestOf;
      var extra := if open || opening then 1 else 0;
      while retained != [] && Over(limits, closedBytes + size + incoming, |retained| + extra)
        invariant Valid() && !torn
        invariant Kept(limits, retained, size + incoming, extra) == Kept(limits, old(retained), size + incoming, extra)
        decreases |retained|
      {
        var ok;
        ghost var gone;
        ok, gone := Evict();
        if !ok { return Failed; }
      }
      if retained == [] { NothingRetained(); }
      if limits.retainedBytes > 0 && closedBytes + size + incoming > limits.retainedBytes { return Failed; }
      if * { return LowDisk; }
      r := Done;
    }

    /** What the closed file held counts as exported, and the file enters the retention list. */
    method Publish()
      requires Valid() && !torn && open
      modifies this`books, this`closedBytes, this`retained, this`exportedBeacons, this`activeBeacons
      modifies this`open, this`partial, this`size
      ensures Valid() && !open && size == 0 && books.Held() == old(books.Held())
      ensures var f := if Enabled(limits) then [File(sequence, old(size))] else [];
              books == old(books.Published(header, f)) && retained == old(retained) + f
      ensures closedBytes == old(closedBytes) + old(size)
    {
      hide SegmentOk, Total, BooksOk, NewestOf, LinkedGivenUp;
      var f := if Enabled(limits) then [File(sequence, size)] else [];
      PublishedOk(books, header, f);
      NewestSnoc(retained, books.everRetained, f);
      if f != [] { TotalSnoc(retained, f[0]); }
      books, retained := books.Published(header, f), retained + f;
      closedBytes, exportedBeacons := closedBytes + size, exportedBeacons + activeBeacons;
      activeBeacons, open, partial, size := 0, false, false, 0;
    }

    /** Flushes and closes the open file and gives it its final name. A failure after the final
        name was linked leaves a complete file behind that is not counted. */
    method Finalise() returns (c: Closing)
      requires Valid() && !torn && open
      modifies this`open, this`torn, this`books
      ensures Valid() && torn == !c.Closed? && (c.Closed? ==> open) && (c.Leftover? ==> !open)
      ensures books == if c.Leftover? then old(books.Linked(header)) else old(books)
    {
      hide SegmentOk, Total, BooksOk, NewestOf;
      c := Closed;
      if * {                       // flush, fstat or close
        c, torn := Unlinked, true;
      } else if * {                // link
        c, open, torn := Unlinked, false, true;
      } else if * {                // unlink
        LinkedOk(books, header);
        books := books.Linked(header);
        c, open, torn := Leftover, false, true;
      }
    }

    /** An uncounted file is left behind exactly when the partial name could not be removed. */
    method CloseSegment() returns (r: Outcome, c: Closing)
      requires Valid() && !torn
      modifies this
      ensures Valid() && books.Held() == old(books.Held()) && books.skipped == old(books.skipped)
      ensures leaseClosed == old(leaseClosed)
      ensures r.Done? || (r.Failed? && torn)
      ensures r.Done? <==> c.Closed?
      ensures books.linked == old(books.linked) + if c.Leftover? then [old(books.Open(header))] else []
      ensures c.Leftover? ==> books.active == old(books.active) != []
      ensures r.Done? ==> !torn && !open && size == 0 && closedBytes == old(closedBytes) + old(size)
      ensures r.Done? ==> books.segments == old(books.segments) + if old(open) then [old(books.Open(header))] else []
      ensures r.Done? && old(WithinLimits()) ==> WithinLimits()
    {
      hide SegmentOk, Total, BooksOk, NewestOf, LinkedGivenUp;
      if !open { return Done, Closed; }
      NotEmpty(books.Open(header));
      c := Finalise();
      if !c.Closed? { return Failed, c; }
      Publish();
      r := Done;
    }

    method Maintain(now: real) returns (r: Outcome)
      requires Valid() && !torn
      modifies this
      ensures Valid() && books.Held() == old(books.Held()) && books.skipped == old(books.skipped)
      ensures leaseClosed == old(leaseClosed)
      ensures r.Done? || (r.Failed? && torn)
      ensures r.Done? ==> !torn && open == (old(open) && now - old(started) < limits.rotationSeconds)
      ensures r.Done? && open ==> started == old(started)
      ensures r.Done? && open ==> header == old(header) && size == old(size) && books == old(books)
      ensures r.Done? && old(WithinLimits()) ==> WithinLimits()
      ensures books.linked == old(books.linked)
        || (torn && books.linked == old(books.linked) + [old(books.Open(header))])
    {
      r := Done;
      if open && now - started >= limits.rotationSeconds { var c; r, c := CloseSegment(); }
    }

    /** Creates the next partial file and writes a context to it. */
    method OpenSegment(context: seq<Block>, opening: real) returns (ok: bool)
      requires Valid() && !torn && !open
      modifies this`sequence, this`partial, this`open, this`header, this`started, this`size, this`books, this`torn
      ensures books == old(books).(file := books.file) && torn == !ok
      ensures BooksOk(books) && LinkedGivenUp(books, torn) && books.Held() == old(books.Held())
      ensures ok ==> open && partial && header == context && books.file == Concat(Raws(context)) && size == |books.file|
      ensures ok ==> started == opening && sequence == old(sequence) + 1
    {
      hide SegmentOk, Total, BooksOk, NewestOf, Raws, Concat, LinkedGivenUp;
      FileOk(books, books.file);
      var created, written, part: nat := *, *, *;
      sequence, partial := sequence + 1, true;
      ok := created && written;
      torn := !ok;
      if created {
        open, header, started := true, context, opening;
        FileOk(books, Concat(Raws(context)));
        books := books.(file := Concat(Raws(context)));
        size := if written then |Concat(Raws(context))| else part;
      }
    }

    /** Appends a packet to a file that has its context and has room. */
    method Append(item: Item) returns (r: Outcome)
      requires !torn && size + |item.packet.raw| <= limits.segmentBytes
      modifies this`size, this`books, this`activeBeacons, this`torn
      ensures (r.Done? || r.Failed?) && torn == r.Failed?
      ensures r.Done? ==>
                && books == old(books.Appended(item)) && size == old(size) + |item.packet.raw|
                && activeBeacons == old(activeBeacons) + 1
      ensures r.Failed? ==> books == old(books) && activeBeacons == old(activeBeacons)
    {
      hide *;
      if * {
        var part: nat := *;
        size, torn := part, true;
        return Failed;
      }
      size := size + |item.packet.raw|;
      books := books.Appended(item);
      activeBeacons := activeBeacons + 1;
      r := Done;
    }

    lemma RetainsOne()
      requires Valid()
      ensures limits.retainedBytes > 0 ==> limits.segmentBytes <= limits.retainedBytes
    {}

    lemma ClosedIsEmpty()
      requires Valid() && !torn
      ensures !open ==> size == 0
    {}

    /** The open file can take a packet: it is not overdue, has the packet's context, and has room. */
    ghost predicate Goes(item: Item, now: real)
      reads this
    {
      && open && now - started < limits.rotationSeconds
      && Raws(header) == Raws(item.header) && size + |item.packet.raw| <= limits.segmentBytes
    }

    /** Closes the open file if it cannot take the packet, and evicts what must go for it. */
    method MakeRoom(item: Item, now: real) returns (r: Outcome)
      requires Valid() && !torn
      modifies this
      ensures Valid() && books.Held() == old(books.Held()) && books.skipped == old(books.skipped)
      ensures leaseClosed == old(leaseClosed)
      ensures torn ==> r.Failed?
      ensures r.Done? ==>
                var more := |item.packet.raw| + if open then 0 else |Concat(Raws(item.header))|;
                && (open ==> Raws(header) == Raws(item.header))
                && size + more <= limits.segmentBytes
                && (limits.retainedBytes > 0 ==> closedBytes + size + more <= limits.retainedBytes)
                && (limits.retainedFiles > 0 ==> |retained| + 1 <= limits.retainedFiles)
      ensures !torn ==> books.linked == old(books.linked)
      ensures !torn && !r.LowDisk? ==> (r.Done? <==> old(Goes(item, now)) || FitsAlone(item, limits))
      ensures r.Done? ==> open == old(Goes(item, now))
    {
      hide Valid, SegmentOk, Raws, Concat, Kept, Over, Books.Held;
      RetainsOne();
      r := Maintain(now);
      if !r.Done? { return; }
      ClosedIsEmpty();
      if open && (Raws(header) != Raws(item.header) || size + |item.packet.raw| > limits.segmentBytes) {
        var c;
        r, c := CloseSegment();
        if !r.Done? { return; }
      }
      var more := |item.packet.raw| + if open then 0 else |Concat(Raws(item.header))|;
      if !open && more > limits.segmentBytes { return Failed; }
      r := Budget(more, !open);
    }

    /** An open file, the same or a new one, that stands alone once the packet is appended. */
    method Ready(item: Item, opening: real, ghost c: Context) returns (ok: bool)
      requires Valid() && !torn && ItemOk(item, c) && (open ==> Raws(header) == Raws(item.header))
      modifies this`sequence, this`partial, this`open, this`header, this`started, this`size, this`books, this`torn
      ensures books == old(books).(file := books.file) && torn == !ok
      ensures BooksOk(books) && LinkedGivenUp(books, torn) && books.Held() == old(books.Held())
      ensures ok ==>
                && open && partial && Raws(header) == Raws(item.header) && size == |books.file|
                && size == old(size) + (if old(open) then 0 else |Concat(Raws(item.header))|)
                && SegmentOk(books.Appended(item).Open(header))
    {
      hide SegmentOk, Total, BooksOk, NewestOf, Raws, Concat, ItemOk, LinkedGivenUp;
      ok := true;
      if open {
        NextPacket(books.Open(header), item, c);
      } else {
        ok := OpenSegment(item.header, opening);
        FirstPacket(item, c);
        assert books.active + [item] == [item];
      }
    }

    /** Adds one packet to the open file, or to a new one if the context changed, the file is too
        old, or the packet does not fit. Afterwards every limit holds. */
    method Write(item: Item, now: real, opening: real, ghost c: Context) returns (r: Outcome)
      requires Valid() && !torn && ItemOk(item, c)
      modifies this
      ensures Valid() && leaseClosed == old(leaseClosed) && books.skipped == old(books.skipped)
      ensures books.Held() == if r.Done? then old(books.Held()) + multiset{item} else old(books.Held())
      ensures torn ==> r.Failed?
      ensures r.Done? ==>
                && WithinLimits() && open && Raws(header) == Raws(item.header)
                && books.active != [] && books.active[|books.active| - 1] == item
      ensures !torn ==> books.linked == old(books.linked)
      ensures !torn && !r.LowDisk? ==> (r.Done? <==> old(Goes(item, now)) || FitsAlone(item, limits))
    {
      hide SegmentOk, Total, BooksOk, NewestOf, Raws, Concat, ItemOk, LinkedGivenUp;
      r := MakeRoom(item, now);
      if !r.Done? { return; }
      var ok := Ready(item, opening, c);
      if !ok { return Failed; }
      AppendedOk(books, item);
      r := Append(item);
    }

    method ReleaseLease() returns (ok: bool)
      modifies this`leaseClosed
      ensures leaseClosed && (old(leaseClosed) ==> ok)
    {
      ok := true;
      if !leaseClosed {
        leaseClosed := true;
        if * { ok := false; }
      }
    }

    /** Gives up the open file. What it held counts as skipped. */
    method Abort() returns (r: Outcome)
      requires Valid()
      modifies this
      ensures Valid() && books == old(books.GivenUp()) && books.Held() == old(books.Held()) && !open && leaseClosed
      ensures r.Done? || (r.Failed? && !old(leaseClosed))
    {
      hide SegmentOk, Total, BooksOk, NewestOf;
      GivenUpOk(books);
      books := books.GivenUp();
      skippedBeacons, activeBeacons := skippedBeacons + activeBeacons, 0;
      open, partial, size := false, false, 0;
      var ok := ReleaseLease();
      r := if ok then Done else Failed;
    }

    /** Closes the open file, and the directory lease whatever happened to the file. */
    method Close() returns (r: Outcome, ghost fault: bool)
      requires Valid() && !torn
      modifies this
      ensures Valid() && books.Held() == old(books.Held()) && books.skipped == old(books.skipped) && leaseClosed
      ensures (r.Done? || r.Failed?) && (r.Done? <==> !fault)
      ensures r.Done? ==> books.active == [] && !open
      ensures books.linked == old(books.linked)
        || (torn && books.linked == old(books.linked) + [old(books.Open(header))])
    {
      hide SegmentOk, Total, BooksOk, NewestOf;
      var c;
      r, c := CloseSegment();
      var ok := ReleaseLease();
      fault := !c.Closed? || !ok;
      if !ok { r := Failed; }
    }
  }

  function ItemsOf(segments: seq<Segment>): seq<Item> {
    if segments == [] then [] else ItemsOf(segments[..|segments| - 1]) + segments[|segments| - 1].items
  }
}
