/** Live beacon export: a producer that never waits, a bounded queue with byte accounting, and a
    worker that owns the files. Every operation below is one atomic step of one of the two. */
module BeaconExport {
  import opened Wrappers
  import opened Bytes
  import opened Pcapng
  import opened BeaconFilter
  import opened BeaconWriter

  const MAX_CONTEXT_BYTES: nat := 256 * 1024

  /** What the queue may hold: a packet with the context it was selected under, of known size. */
  ghost predicate Sound(i: Item) {
    && i.size == |Concat(Raws(i.header))| + |i.packet.raw| && i.size > 0
    && exists c :: ItemOk(i, c)
  }

  ghost function ContextOf(i: Item): (c: Context)
    requires Sound(i)
    ensures ItemOk(i, c)
  {
    var c :| ItemOk(i, c);
    c
  }

  ghost predicate AllSound(items: seq<Item>) {
    forall i :: i in items ==> Sound(i)
  }

  function Sizes(items: seq<Item>): nat {
    if items == [] then 0 else items[0].size + Sizes(items[1..])
  }

  lemma {:induction false} SizesSnoc(items: seq<Item>, i: Item)
    ensures Sizes(items + [i]) == Sizes(items) + i.size
  {
    if items == [] {
      assert items + [i] == [i] && [i][1..] == [];
    } else {
      assert (items + [i])[1..] == items[1..] + [i];
      SizesSnoc(items[1..], i);
    }
  }

  // ----- where every packet is -----

  /** The packets a worker has handled, in order, and those that have left its hands for good: in
      files published by earlier writers, or skipped outside the present one. Files of earlier
      writers that were linked but never counted are listed apart. */
  datatype Ledger = Ledger(
    processed: seq<Item>, files: seq<Segment>, linked: seq<Segment>, exported: multiset<Item>, lost: multiset<Item>)
  {
    /** Every packet handled is in exactly one place. */
    ghost predicate Balanced(held: multiset<Item>) { multiset(processed) == exported + lost + held }

    /** The exported packets are those the counted files hold, those of the others are lost, and
        every file stands alone. */
    ghost predicate Filed() {
      && AllOk(files) && exported == multiset(ItemsOf(files))
      && AllOk(linked) && multiset(ItemsOf(linked)) <= lost
    }

    ghost predicate Counted(committed: nat, skipped: nat) { committed == |exported| && skipped == |lost| }

    ghost function Absorbed(b: Books): Ledger {
      this.(files := files + b.segments, linked := linked + b.linked,
            exported := exported + multiset(b.exported), lost := lost + multiset(b.skipped))
    }

    ghost function Kept(i: Item): Ledger { this.(processed := processed + [i]) }

    ghost function Skipped(i: Item): Ledger { this.(processed := processed + [i], lost := lost + multiset{i}) }
  }

  lemma AbsorbedOk(l: Ledger, b: Books)
    requires b.active == []
    ensures l.Balanced(b.Held()) ==> l.Absorbed(b).Balanced(multiset{})
    ensures forall c: nat, s: nat :: l.Counted(c, s) ==> l.Absorbed(b).Counted(c + |b.exported|, s + |b.skipped|)
  {}

  lemma {:induction false} ItemsOfSplit(a: seq<Segment>, b: seq<Segment>)
    ensures ItemsOf(a + b) == ItemsOf(a) + ItemsOf(b)
  {
    if b == [] {
      assert a + b == a;
    } else {
      ItemsOfSplit(a, b[..|b| - 1]);
      assert (a + b)[..|a + b| - 1] == a + b[..|b| - 1];
      assert ItemsOf(a) + (ItemsOf(b[..|b| - 1]) + b[|b| - 1].items)
        == ItemsOf(a) + ItemsOf(b[..|b| - 1]) + b[|b| - 1].items;
    }
  }

  lemma AbsorbedFiled(l: Ledger, b: Books)
    requires l.Filed() && BooksOk(b) && b.active == [] && exists torn :: LinkedGivenUp(b, torn)
    ensures l.Absorbed(b).Filed()
  {
    hide SegmentOk;
    ItemsOfSplit(l.files, b.segments);
    ItemsOfSplit(l.linked, b.linked);
  }

  lemma HandledOk(l: Ledger, i: Item, held: multiset<Item>)
    requires l.Balanced(held)
    ensures l.Kept(i).Balanced(held + multiset{i}) && l.Skipped(i).Balanced(held)
    ensures l.Filed() ==> l.Kept(i).Filed() && l.Skipped(i).Filed()
    ensures forall c: nat, s: nat :: l.Counted(c, s) ==> l.Kept(i).Counted(c, s) && l.Skipped(i).Counted(c, s + 1)
  {}

  // ----- the worker process -----

  class Worker {
    const limits: Limits
    var writer: RotatingBeaconWriter?
    var generation: int
    var writerGeneration: int
    var failedGeneration: int
    var enabled: bool
    var error: bool
    var incomplete: bool
    var skipped: nat
    var committed: nat

    ghost var ledger: Ledger

    /** Every packet handled is exactly where the counters say. */
    ghost predicate Valid()
      reads this, writer
    {
      && limits.Valid() && ledger.Counted(committed, skipped) && ledger.Filed()
      && (if writer == null then ledger.Balanced(multiset{})
          else writer.Valid() && writer.limits == limits && ledger.Balanced(writer.books.Held()))
    }

    /** Every packet given up, by earlier writers, by the present one, or before reaching one. */
    ghost function Skipped(): multiset<Item>
      reads this`ledger, this`writer, writer
    {
      ledger.lost + if writer == null then multiset{} else multiset(writer.books.skipped)
    }

    /** No file operation is half done. */
    ghost predicate Calm()
      reads this, writer
    {
      writer != null ==> !writer.torn
    }

    /** Nor is any limit on open, retained or counted files exceeded. */
    ghost predicate Steady()
      reads this, writer
    {
      writer != null ==> !writer.torn && writer.WithinLimits()
    }

    constructor (l: Limits)
      requires l.Valid()
      ensures Valid() && Steady() && writer == null && ledger.processed == [] && limits == l
      ensures generation == writerGeneration == failedGeneration == -1 && Skipped() == multiset{}
      ensures !enabled && !error && !incomplete
    {
      limits, writer := l, null;
      generation, writerGeneration, failedGeneration := -1, -1, -1;
      enabled, error, incomplete, skipped, committed := false, false, false, 0, 0;
      ledger := Ledger([], [], [], multiset{}, multiset{});
    }

    /** Lets go of the writer, keeping its counts. */
    method Finish(abort: bool) returns (ok: bool)
      requires Valid() && (abort || Calm())
      modifies this`writer, this`committed, this`skipped, this`ledger, writer
      ensures Valid() && ledger.processed == old(ledger.processed) && (ok ==> writer == null)
      ensures !abort || old(writer) == null ==> Skipped() == old(Skipped())
      ensures old(Skipped()) <= Skipped()
      ensures !ok ==> writer == old(writer) && writer != null && writer.leaseClosed
      ensures !ok && abort ==> !old(writer.leaseClosed)
    {
      hide BooksOk, SegmentOk, NewestOf, Total, Ledger.Balanced, Ledger.Counted, Ledger.Filed, Books.Held;
      if writer == null { return true; }
      var r: Outcome;
      if abort { r := writer.Abort(); } else { ghost var f; r, f := writer.Close(); }
      if !r.Done? { return false; }
      AbsorbedOk(ledger, writer.books);
      assert LinkedGivenUp(writer.books, writer.torn);
      AbsorbedFiled(ledger, writer.books);
      committed, skipped := committed + writer.exportedBeacons, skipped + writer.skippedBeacons;
      ledger := ledger.Absorbed(writer.books);
      writer := null;
      ok := true;
    }

    /** After a failed file operation. Valid output is kept when only the disk is low. Giving up a
        file closes the lease; if that fails it is not tried twice, so no counts are lost. */
    method Recover(epoch: int, low: bool) returns (saved: bool)
      requires Valid() && (low ==> Calm())
      modifies this`writer, this`committed, this`skipped, this`ledger, this`error, this`incomplete,
        this`failedGeneration, writer
      ensures Valid() && ledger.processed == old(ledger.processed) && writer == null
      ensures failedGeneration == if epoch > old(failedGeneration) then epoch else old(failedGeneration)
      ensures error && incomplete && (low && saved ==> Skipped() == old(Skipped())) && old(Skipped()) <= Skipped()
    {
      hide Ledger.Balanced, Ledger.Counted, Ledger.Filed, RotatingBeaconWriter.Valid;
      error, incomplete := true, true;
      if failedGeneration < epoch { failedGeneration := epoch; }
      saved := Finish(!low);
      if !saved { var again := Finish(true); }
    }

    /** A fresh writer over whatever files the directory holds; it fails only if the directory does. */
    method NewWriter() returns (r: Outcome, ghost fault: bool, ghost existing: seq<File>)
      requires Valid() && writer == null
      modifies this`writer
      ensures Skipped() == old(Skipped()) && fault == !r.Done?
      ensures Valid() && Steady() && (writer == null || fresh(writer)) && (r.Done? <==> writer != null)
      ensures r.Done? ==> writer.retained == Kept(limits, if Enabled(limits) then existing else [], 0, 0)
    {
      hide Ledger.Balanced, Ledger.Counted, Ledger.Filed;
      var held, low := *, *;
      fault, existing := true, [];
      if !held {
        r := if low then LowDisk else Failed;
        return;
      }
      var files: seq<File>, found: nat := *, *;
      existing := files;
      if Enabled(limits) { found := Total(files); }
      var made := new RotatingBeaconWriter(limits, files, found);
      r := made.Budget(0, false);
      if r.Done? { writer, fault := made, false; }
    }

    /** Makes the present writer that of a generation; it fails only if a file or the directory does. */
    method Renew(epoch: int) returns (r: Outcome, ghost fault: bool)
      requires Valid() && Steady()
      modifies this`writer, this`committed, this`skipped, this`ledger, this`writerGeneration, writer
      ensures Valid() && (r.LowDisk? || r.Done? ==> Steady()) && ledger.processed == old(ledger.processed)
      ensures writer == null || writer == old(writer) || fresh(writer)
      ensures r.Done? ==> writer != null && writerGeneration == epoch
      ensures Skipped() == old(Skipped()) && fault == !r.Done?
    {
      hide RotatingBeaconWriter.Valid, Ledger.Balanced, Ledger.Counted, Ledger.Filed, Books.Held, Skipped;
      if writer != null && epoch == writerGeneration { return Done, false; }
      var ok := Finish(false);
      if !ok { return Failed, true; }
      ghost var existing;
      r, fault, existing := NewWriter();
      if r.Done? { writerGeneration := epoch; }
    }

    /** Hands a packet to the writer of its generation, which refuses it only if something failed or it
        does not fit into a file of its own. */
    method Store(item: Item, now: real, opening: real) returns (r: Outcome, ghost fault: bool)
      requires Valid() && Steady() && Sound(item)
      modifies this`writer, this`committed, this`skipped, this`ledger, this`writerGeneration, writer
      ensures Valid() && (r.LowDisk? ==> Calm())
        && (r.Done? ==> Steady() && writer != null && writerGeneration == item.generation)
      ensures writer == null || writer == old(writer) || fresh(writer)
      ensures ledger.processed == if r.Done? then old(ledger.processed) + [item] else old(ledger.processed)
      ensures Skipped() == old(Skipped()) && (!r.Done? ==> fault || !FitsAlone(item, limits))
    {
      hide Sound, RotatingBeaconWriter.Valid, Ledger.Balanced, Ledger.Counted, Ledger.Filed, Books.Held, ItemOk;
      r, fault := Renew(item.generation);
      if !r.Done? { return; }
      ghost var c := ContextOf(item);
      HandledOk(ledger, item, writer.books.Held());
      r := writer.Write(item, now, opening, c);
      fault := writer.torn || r.LowDisk?;
      if r.Done? { ledger := ledger.Kept(item); }
    }

    method Skip(item: Item)
      requires Valid()
      modifies this`skipped, this`ledger
      ensures Valid() && ledger == old(ledger.Skipped(item)) && Skipped() == old(Skipped()) + multiset{item}
    {
      hide RotatingBeaconWriter.Valid, Ledger.Balanced, Ledger.Counted, Ledger.Filed, Books.Held;
      HandledOk(ledger, item, if writer == null then multiset{} else writer.books.Held());
      skipped, ledger := skipped + 1, ledger.Skipped(item);
    }

    /** No open file is past its rotation time. */
    ghost predicate Tended(now: real)
      reads this, writer
    {
      writer != null && writer.open ==> now - writer.started < limits.rotationSeconds
    }

    /** Periodic work on an open file. */
    method Tend(now: real) returns (r: Outcome)
      requires Valid() && Steady()
      modifies writer
      ensures Valid() && (r.Done? ==> Steady() && Tended(now)) && Skipped() == old(Skipped())
      ensures r.Done? || r.Failed?
    {
      hide RotatingBeaconWriter.Valid, Ledger.Balanced, Ledger.Counted, Ledger.Filed, Books.Held;
      r := Done;
      if writer != null { r := writer.Maintain(now); }
    }

    /** One packet taken from the queue, whatever becomes of it. A packet of a generation that failed is
        skipped; any other is skipped only if its own generation now fails, and then only because
        something failed or it does not fit into a file of its own. */
    method Handle(item: Item, now: real, opening: real) returns (ghost fault: bool)
      requires Valid() && Steady() && Sound(item)
      modifies this`writer, this`committed, this`skipped, this`ledger, this`writerGeneration
      modifies this`error, this`incomplete, this`failedGeneration, writer
      ensures Valid() && Steady() && ledger.processed == old(ledger.processed) + [item]
      ensures writer == null || writer == old(writer) || fresh(writer)
      ensures HandledAs(item, limits, fault, old(Skipped()), old(failedGeneration), Skipped(), failedGeneration)
      ensures !fault ==> Tended(now)
    {
      hide Sound, RotatingBeaconWriter.Valid, Ledger.Balanced, Ledger.Counted, Ledger.Filed, Books.Held, Skipped,
        FitsAlone;
      var r := Done;
      fault := false;
      if item.generation <= failedGeneration {
        Skip(item);
      } else {
        r, fault := Store(item, now, opening);
        if !r.Done? { Skip(item); }
      }
      if r.Done? {
        r := Tend(now);
        fault := !r.Done?;
      }
      if !r.Done? { var saved := Recover(item.generation, r.LowDisk?); }
    }

    /** A wake-up without a packet: an unused writer is let go, an open file is tended. */
    method Rest(drained: bool, leaving: bool, now: real) returns (ok: bool, ghost fault: bool)
      requires Valid() && Steady()
      modifies this`writer, this`committed, this`skipped, this`ledger
      modifies this`error, this`incomplete, this`failedGeneration, writer
      ensures Valid() && Steady() && ledger.processed == old(ledger.processed)
      ensures writer == null || writer == old(writer)
      ensures fault == !ok && (!fault ==> Skipped() == old(Skipped()) && failedGeneration == old(failedGeneration))
      ensures ok ==> writer == if drained && !enabled then null else old(writer)
      ensures ok && !leaving ==> Tended(now)
    {
      hide RotatingBeaconWriter.Valid, Ledger.Balanced, Ledger.Counted, Ledger.Filed, Books.Held;
      var r := Done;
      if drained && !enabled {
        ok := Finish(false);
        r := if ok then Done else Failed;
      }
      if r.Done? && !leaving { r := Tend(now); }
      ok := r.Done?;
      fault := !ok;
      if !ok { var saved := Recover(writerGeneration, false); }
    }

    /** The last thing the worker does. */
    method Leave() returns (ghost fault: bool)
      requires Valid() && Steady()
      modifies this`writer, this`committed, this`skipped, this`ledger, this`error, this`incomplete, this`enabled, writer
      ensures Valid() && Steady() && ledger.processed == old(ledger.processed) && writer == null
      ensures !fault ==> Skipped() == old(Skipped())
      ensures !enabled && error == (old(error) || fault) && incomplete == (old(incomplete) || fault)
    {
      hide RotatingBeaconWriter.Valid, Ledger.Balanced, Ledger.Counted, Ledger.Filed, Books.Held;
      var ok := Finish(false);
      fault := !ok;
      if !ok {
        error, incomplete := true, true;
        ok := Finish(true);
      }
      enabled := false;
    }

    /** Takes over a new generation of the enable flag. */
    method Synchronize(desired: int, on: bool)
      requires Valid()
      modifies this`generation, this`enabled, this`error
      ensures Valid() && generation == desired && (old(Steady()) ==> Steady())
      ensures enabled == if desired == old(generation) then old(enabled) else on
      ensures error == (old(error) && (desired == old(generation) || !on))
    {
      hide RotatingBeaconWriter.Valid, Ledger.Balanced, Ledger.Counted, Ledger.Filed, Books.Held;
      if desired != generation {
        generation, enabled := desired, on;
        if on { error := false; }
      }
    }
  }

  // ----- the producer's section context -----

  /** The blocks of the section so far, their size, and the selection state they lead to. */
  ghost predicate ContextOk(context: seq<Block>, size: nat, here: Context) {
    size == |Concat(Raws(context))| && Chain(context, NO_SECTION, here, INTERFACE_LIMIT, BLOCK_LIMIT)
  }

  /** A section header starts the context anew, an interface description adds to it. */
  predicate TooMuch(b: Block, size: nat, output: Bytes) {
    (b.kind == SHB && |output| > 256 * 1024) || (b.kind == IDB && size + |output| > 256 * 1024)
  }

  lemma SectionAnywhere(b: Block, c: Context)
    requires |b.raw| >= 28 && b.kind == SHB
    ensures Select(b, c, INTERFACE_LIMIT) == Select(b, NO_SECTION, INTERFACE_LIMIT)
  {
    hide OpenEnded, ParseOptions;
  }

  lemma NewSection(b: Block, c: Context)
    requires WellFormed(b, BLOCK_LIMIT) && b.kind == SHB && Select(b, c, INTERFACE_LIMIT).Keep?
    ensures var k := Select(b, c, INTERFACE_LIMIT);
            ContextOk([Block(b.kind, b.endian, k.output)], |k.output|, k.context)
  {
    SectionAnywhere(b, c);
    KeptAgain(b, NO_SECTION, INTERFACE_LIMIT, BLOCK_LIMIT);
    hide Select, WellFormed, Rereadable, Raws, Concat;
    var k := Select(b, NO_SECTION, INTERFACE_LIMIT);
    var o := Block(b.kind, b.endian, k.output);
    KeptBytes(o, []);
    NoBytes();
    assert [o] == [o] + [] && [o][1..] == [];
    assert Chain([], k.context, k.context, INTERFACE_LIMIT, BLOCK_LIMIT);
  }

  lemma NewInterface(context: seq<Block>, size: nat, b: Block, c: Context)
    requires ContextOk(context, size, c) && WellFormed(b, BLOCK_LIMIT)
    requires b.kind == IDB && Select(b, c, INTERFACE_LIMIT).Keep?
    ensures ContextOk(context + [b], size + |b.raw|, Select(b, c, INTERFACE_LIMIT).context)
  {
    var k := Select(b, c, INTERFACE_LIMIT);
    KeptAgain(b, c, INTERFACE_LIMIT, BLOCK_LIMIT);
    assert k.output == b.raw && Block(b.kind, b.endian, b.raw) == b;
    hide Rereadable, Select, WellFormed;
    assert [b][1..] == [];
    ChainJoins(context, [b], NO_SECTION, c, k.context, INTERFACE_LIMIT, BLOCK_LIMIT);
    BytesSnoc(context, b);
  }

  lemma NewPacket(i: Item, c: Context)
    requires i.size >= |i.packet.raw| && ContextOk(i.header, i.size - |i.packet.raw|, c)
      && WellFormed(i.packet, BLOCK_LIMIT)
    requires i.packet.kind != SHB && i.packet.kind != IDB && Select(i.packet, c, INTERFACE_LIMIT).Keep?
    ensures Sound(i)
  {
    var b := i.packet;
    KeptAgain(b, c, INTERFACE_LIMIT, BLOCK_LIMIT);
    assert Block(b.kind, b.endian, b.raw) == b;
    assert KeptIn(b, c, INTERFACE_LIMIT, BLOCK_LIMIT);
    hide Rereadable, Select, WellFormed, Chain, KeptIn;
    assert ItemOk(i, c);
  }

  // ----- producer, queue and worker together -----

  datatype Phase = Idle | Getting | Accounting | Processing | Exiting | Exited

  function InHand(hand: Option<Item>): seq<Item> { if hand.Some? then [hand.value] else [] }

  /** Packets are accepted with consecutive numbers, so no two are the same, in some generation. */
  ghost predicate Numbered(accepted: seq<Item>) {
    forall k :: 0 <= k < |accepted| ==> accepted[k].id == k && accepted[k].generation >= 0
  }

  /** While no file operation has failed and every packet fits into a file, none is skipped. */
  ghost predicate Unharmed(faulty: bool, accepted: seq<Item>, l: Limits, skipped: multiset<Item>, failed: int) {
    !faulty && (forall i :: i in accepted ==> FitsAlone(i, l)) ==> skipped == multiset{} && failed < 0
  }

  /** What handling one packet does. */
  ghost predicate HandledAs(i: Item, l: Limits, fault: bool, was: multiset<Item>, failedWas: int,
      skipped: multiset<Item>,
      failed: int)
  {
    if i.generation <= failedWas then
      failed == failedWas && was + multiset{i} <= skipped && (!fault ==> skipped == was + multiset{i})
    else if failed == failedWas then skipped == was
    else failed == i.generation && was <= skipped && (fault || !FitsAlone(i, l))
  }

  lemma StillUnharmed(faulty: bool, accepted: seq<Item>, l: Limits, i: Item, fault: bool, was: multiset<Item>,
      failedWas: int, skipped: multiset<Item>, failed: int)
    requires Unharmed(faulty, accepted, l, was, failedWas) && HandledAs(i, l, fault, was, failedWas, skipped, failed)
    requires i in accepted && i.generation >= 0
    ensures Unharmed(faulty || fault, accepted, l, skipped, failed)
  {
    hide FitsAlone;
  }

  lemma QuietUnharmed(faulty: bool, accepted: seq<Item>, l: Limits, fault: bool, was: multiset<Item>, failedWas: int,
      skipped: multiset<Item>, failed: int)
    requires Unharmed(faulty, accepted, l, was, failedWas) && (!fault ==> skipped == was && failed == failedWas)
    ensures Unharmed(faulty || fault, accepted, l, skipped, failed)
  {}

  lemma UnharmedLonger(faulty: bool, accepted: seq<Item>, l: Limits, skipped: multiset<Item>, failed: int, i: Item)
    requires Unharmed(faulty, accepted, l, skipped, failed)
    ensures Unharmed(faulty, accepted + [i], l, skipped, failed)
  {
    hide FitsAlone;
    assert forall x :: x in accepted ==> x in accepted + [i];
  }

  /** Accepted packets leave the queue in order. */
  ghost predicate InOrder(accepted: seq<Item>, processed: seq<Item>, hand: Option<Item>, queue: seq<Item>) {
    accepted == processed + InHand(hand) + queue
  }

  /** What the queue and the worker's hand hold, and the bytes counted for them. */
  ghost predicate QueueOk(queue: seq<Item>, hand: Option<Item>, phase: Phase, pending: nat, l: Limits) {
    && AllSound(queue) && (hand.Some? ==> Sound(hand.value))
    && pending == Sizes(queue) + (if phase.Accounting? && hand.Some? then hand.value.size else 0)
    && pending <= l.queueBytes && |queue| <= l.queueRecords
    && (hand.Some? <==> phase.Accounting? || phase.Processing?)
  }

  lemma Enqueued(queue: seq<Item>, hand: Option<Item>, phase: Phase, pending: nat, l: Limits,
                 accepted: seq<Item>, processed: seq<Item>, i: Item)
    requires QueueOk(queue, hand, phase, pending, l) && InOrder(accepted, processed, hand, queue) && Numbered(accepted)
    requires Sound(i) && i.id == |accepted| && i.generation >= 0 && pending + i.size <= l.queueBytes
      && |queue| < l.queueRecords
    ensures QueueOk(queue + [i], hand, phase, pending + i.size, l)
    ensures InOrder(accepted + [i], processed, hand, queue + [i]) && Numbered(accepted + [i])
  {
    hide Sound;
    SizesSnoc(queue, i);
    assert accepted + [i] == processed + InHand(hand) + (queue + [i]);
  }

  lemma Taken(queue: seq<Item>, pending: nat, l: Limits, accepted: seq<Item>, processed: seq<Item>)
    requires queue != [] && QueueOk(queue, None, Getting, pending, l) && InOrder(accepted, processed, None, queue)
    ensures QueueOk(queue[1..], Some(queue[0]), Accounting, pending, l)
    ensures InOrder(accepted, processed, Some(queue[0]), queue[1..])
  {
    hide Sound;
    assert queue[0] in queue && queue == [queue[0]] + queue[1..];
    assert forall i :: i in queue[1..] ==> i in queue;
  }

  lemma Accounted(queue: seq<Item>, hand: Option<Item>, pending: nat, l: Limits)
    requires QueueOk(queue, hand, Accounting, pending, l)
    ensures hand.Some? && hand.value.size <= pending && QueueOk(queue, hand, Processing, pending - hand.value.size, l)
  {
    hide Sound, Sizes;
  }

  lemma Handled(queue: seq<Item>, hand: Option<Item>, pending: nat, l: Limits, accepted: seq<Item>,
      processed: seq<Item>)
    requires QueueOk(queue, hand, Processing, pending, l) && InOrder(accepted, processed, hand, queue)
    ensures hand.Some? && Sound(hand.value)
    ensures QueueOk(queue, None, Idle, pending, l) && InOrder(accepted, processed + [hand.value], None, queue)
  {
    hide Sound, Sizes;
  }

  lemma SoundSizes(queue: seq<Item>)
    requires AllSound(queue) && Sizes(queue) == 0
    ensures queue == []
  {
    assert queue != [] ==> queue[0] in queue && Sound(queue[0]);
  }

  lemma NothingQueued(l: Limits)
    ensures ContextOk([], 0, NO_SECTION) && QueueOk([], None, Idle, 0, l) && InOrder([], [], None, []) && Numbered([])
  {}

  class BeaconExport {
    const limits: Limits
    const selector: Filter
    const worker: Worker

    // the producer
    var context: seq<Block>
    var contextSize: nat
    var closed: bool
    var requested: bool
    var generation: int
    var error: bool
    var dropped: nat
    var queueFull: nat
    var serial: nat

    // shared between the processes
    var queue: seq<Item>
    var pending: nat
    var controlGeneration: int
    var controlEnabled: bool
    var controlStop: bool

    // where the worker is in its loop
    var phase: Phase
    var hand: Option<Item>
    var stopSeen: bool
    var orphaned: bool

    ghost var accepted: seq<Item>  // every packet put on the queue so far
    ghost var faulty: bool         // some file operation of the worker has failed

    ghost predicate Valid()
      reads this, selector, worker, worker.writer
    {
      && limits.Valid() && worker.limits == limits && selector.limit == INTERFACE_LIMIT
      && worker.Valid() && worker.Steady()
      && (!error ==> ContextOk(context, contextSize, selector.Here()) && contextSize <= MAX_CONTEXT_BYTES)
      && dropped == queueFull && serial == |accepted| && Numbered(accepted)
      && QueueOk(queue, hand, phase, pending, limits) && InOrder(accepted, worker.ledger.processed, hand, queue)
      && (stopSeen ==> controlStop) && (controlStop ==> closed)
      && ((phase.Exiting? || phase.Exited?) && !orphaned ==> queue == [] && closed)
      && (phase.Exited? ==> worker.writer == null)
      && generation >= 0 && Unharmed(faulty, accepted, limits, worker.Skipped(), worker.failedGeneration)
    }

    constructor (l: Limits, enable: bool)
      requires l.Valid()
      ensures Valid() && accepted == [] && phase.Idle? && !closed && !error && limits == l
      ensures requested == controlEnabled == enable && generation == controlGeneration == 0 && dropped == 0
      ensures !orphaned && !faulty
      ensures fresh(selector) && selector.limit == 256 && fresh(worker) && worker.writer == null
    {
      hide ContextOk, QueueOk, InOrder, Numbered, Worker.Valid, Worker.Steady;
      limits := l;
      selector := new Filter(INTERFACE_LIMIT);
      worker := new Worker(l);
      context, contextSize, closed, requested, generation, error := [], 0, false, enable, 0, false;
      dropped, queueFull, serial := 0, 0, 0;
      queue, pending, controlGeneration, controlEnabled, controlStop := [], 0, 0, enable, false;
      phase, hand, stopSeen, orphaned := Idle, None, false, false;
      accepted, faulty := [], false;
      NothingQueued(l);
    }

    // ----- the producer's operations -----

    /** A packet that finds no room is counted, never waited for. */
    method Drop()
      modifies this`dropped, this`queueFull
      ensures dropped == old(dropped) + 1 && queueFull == old(queueFull) + 1
    {
      dropped, queueFull := dropped + 1, queueFull + 1;
    }

    /** A packet is refused only while the accounting lock is busy, or if the queue has no room for it. */
    method Enqueue(b: Block) returns (ghost busy: bool)
      requires Valid() && !closed && !error && WellFormed(b, BLOCK_LIMIT) && !phase.Exited?
      requires b.kind != SHB && b.kind != IDB && Select(b, selector.Here(), INTERFACE_LIMIT).Keep?
      modifies this`dropped, this`queueFull, this`queue, this`pending, this`serial, this`accepted
      ensures Valid()
      ensures var i := Item(|old(accepted)|, generation, context, b, contextSize + |b.raw|);
              if !busy && old(pending) + i.size <= limits.queueBytes && |old(queue)| < limits.queueRecords
              then queue == old(queue) + [i] && accepted == old(accepted) + [i] && dropped == old(dropped)
                   && pending == old(pending) + i.size
              else dropped == old(dropped) + 1 && queue == old(queue) && accepted == old(accepted)
                   && pending == old(pending)
    {
      hide Sizes, Sound, Select, WellFormed, ContextOk, QueueOk, InOrder, Numbered, Worker.Valid, Worker.Steady,
        Unharmed, Worker.Skipped;
      var i := Item(serial, generation, context, b, contextSize + |b.raw|);
      var locked := *;
      busy := locked;
      if locked || pending + i.size > limits.queueBytes || |queue| >= limits.queueRecords {
        Drop();
        return;
      }
      NewPacket(i, selector.Here());
      Enqueued(queue, hand, phase, pending, limits, accepted, worker.ledger.processed, i);
      UnharmedLonger(faulty, accepted, limits, worker.Skipped(), worker.failedGeneration, i);
      queue, accepted, pending, serial := queue + [i], accepted + [i], pending + i.size, serial + 1;
    }

    /** A selection failure disables this branch only. */
    method Fault() returns (ghost busy: bool)
      modifies this`error, this`controlGeneration, this`controlEnabled
      ensures error
      ensures controlGeneration == old(controlGeneration) + if busy then 0 else 1
      ensures controlEnabled == (busy && old(controlEnabled))
    {
      error := true;
      var locked := *;
      busy := locked;
      if !locked { controlGeneration, controlEnabled := controlGeneration + 1, false; }
    }

    /** A block that starts or extends the section context. */
    method Extend(b: Block, s: Selection, ghost here: Context)
      requires !error && ContextOk(context, contextSize, here) && WellFormed(b, BLOCK_LIMIT)
        && (b.kind == SHB || b.kind == IDB)
      requires |b.raw| >= 12 && (b.kind == SHB ==> |b.raw| >= 28) && s == Select(b, here, INTERFACE_LIMIT) && s.Keep?
      modifies this`context, this`contextSize, this`error, this`controlGeneration, this`controlEnabled
      ensures !error ==> ContextOk(context, contextSize, s.context) && contextSize <= MAX_CONTEXT_BYTES
      ensures error <==> TooMuch(b, old(contextSize), s.output)
    {
      hide Select, WellFormed, ContextOk;
      if b.kind == SHB {
        NewSection(b, here);
        context, contextSize := [Block(b.kind, b.endian, s.output)], |s.output|;
        if contextSize > MAX_CONTEXT_BYTES { ghost var busy := Fault(); }
      } else {
        MetadataKept(b, here);
        NewInterface(context, contextSize, b, here);
        contextSize := contextSize + |s.output|;
        if contextSize > MAX_CONTEXT_BYTES { ghost var busy := Fault(); } else { context := context + [b]; }
      }
    }

    /** One block of the capture. */
    method Offer(b: Block)
      requires Valid() && WellFormed(b, BLOCK_LIMIT)
      modifies this`context, this`contextSize, this`error, this`controlGeneration, this`controlEnabled
      modifies this`dropped, this`queueFull, this`queue, this`pending, this`serial, this`accepted, selector
      ensures Valid() && old(accepted) <= accepted
      ensures old(closed) || old(error) ==> accepted == old(accepted) && dropped == old(dropped)
      ensures !old(closed) && !old(error) && |b.raw| >= 12 && (b.kind == SHB ==> |b.raw| >= 28) ==>
                var k := Select(b, old(selector.Here()), INTERFACE_LIMIT);
                && |accepted| + dropped == |old(accepted)| + old(dropped)
                  + (if k.Keep? && b.kind != SHB && b.kind != IDB && requested && !phase.Exited? then 1 else 0)
                && (error <==> k.Fail? || (k.Keep? && TooMuch(b, old(contextSize), k.output)))
    {
      hide Sizes, Sound, Select, WellFormed, ContextOk, QueueOk, InOrder, Numbered, Worker.Valid, Worker.Steady;
      if closed || error { return; }
      WellFormedSize(b, BLOCK_LIMIT);
      MetadataKept(b, selector.Here());
      ghost var here := selector.Here();
      var s := selector.Take(b);
      if s.Fail? {
        ghost var busy := Fault();
      } else if b.kind == SHB || b.kind == IDB {
        Extend(b, s, here);
      } else if s.Keep? && requested && !phase.Exited? {
        ghost var busy := Enqueue(b);
      }
    }

    /** Starting or stopping takes effect through the shared control record, unless it stays locked. */
    method SetEnabled(on: bool) returns (told: bool)
      requires Valid()
      modifies this`requested, this`generation, this`error, this`controlGeneration, this`controlEnabled
      ensures Valid()
      ensures old(closed) || on == old(requested) ==>
        generation == old(generation) && requested == old(requested) && told
      ensures !old(closed) && on != old(requested) ==> generation == old(generation) + 1 && requested == on
      ensures generation != old(generation) && told ==> controlGeneration == generation && controlEnabled == on
      ensures generation == old(generation) || !told ==>
                controlGeneration == old(controlGeneration) && controlEnabled == old(controlEnabled)
      ensures error == (old(error) || !told)
    {
      hide ContextOk, QueueOk, InOrder, Numbered, Worker.Valid, Worker.Steady;
      if closed || on == requested { return true; }
      requested, generation := on, generation + 1;
      told := *;
      if told { controlGeneration, controlEnabled := generation, on; } else { error := true; }
    }

    method RequestClose() returns (ghost busy: bool)
      requires Valid()
      modifies this`closed, this`controlStop
      ensures Valid() && closed && controlStop == (old(controlStop) || (!old(closed) && !busy))
    {
      hide ContextOk, QueueOk, InOrder, Numbered, Worker.Valid, Worker.Steady;
      busy := false;
      if closed { return; }
      closed := true;
      var locked := *;
      busy := locked;
      if !locked { controlStop := true; }
    }

    // ----- the worker's loop, one step at a time -----

    method Poll() returns (ghost left: bool)
      requires Valid() && phase.Idle?
      modifies this`phase, this`stopSeen, this`orphaned, worker`generation, worker`enabled, worker`error
      ensures Valid() && phase.Getting? && stopSeen == controlStop && orphaned == (old(orphaned) || left)
      ensures worker.generation == controlGeneration
      ensures worker.enabled == if controlGeneration == old(worker.generation) then old(worker.enabled)
        else controlEnabled
    {
      hide ContextOk, QueueOk, InOrder, Numbered, Worker.Valid, Worker.Steady, Unharmed, Worker.Skipped;
      PhaseOnly(queue, hand, phase, Getting, pending, limits);
      worker.Synchronize(controlGeneration, controlEnabled);
      stopSeen := controlStop;
      var gone := *;
      left := gone;
      if gone { orphaned := true; }
      phase := Getting;
    }

    method Take()
      requires Valid() && phase.Getting? && queue != []
      modifies this`queue, this`hand, this`phase
      ensures Valid() && phase.Accounting? && hand == Some(old(queue)[0]) && queue == old(queue)[1..]
    {
      hide ContextOk, QueueOk, InOrder, Numbered, Worker.Valid, Worker.Steady;
      assert hand == None by { HandEmpty(queue, hand, phase, pending, limits); }
      Taken(queue, pending, limits, accepted, worker.ledger.processed);
      hand, queue, phase := Some(queue[0]), queue[1..], Accounting;
    }

    method Account()
      requires Valid() && phase.Accounting?
      modifies this`pending, this`phase
      ensures Valid() && phase.Processing? && pending == Sizes(queue)
    {
      hide ContextOk, InOrder, Numbered, Worker.Valid, Worker.Steady, Sound, Sizes, AllSound;
      Accounted(queue, hand, pending, limits);
      pending, phase := pending - hand.value.size, Processing;
    }

    /** The packet in hand is handled: skipped if its generation had failed, or if it fails now. */
    method Process(now: real, opening: real)
      requires Valid() && phase.Processing?
      modifies this`hand, this`phase, this`faulty, worker, worker.writer
      ensures Valid() && phase.Idle?
      ensures worker.ledger.processed == old(worker.ledger.processed) + [old(hand).value]
      ensures worker.writer == null || worker.writer == old(worker.writer) || fresh(worker.writer)
      ensures exists fault :: faulty == (old(faulty) || fault)
                && HandledAs(old(hand).value, limits, fault, old(worker.Skipped()), old(worker.failedGeneration),
                             worker.Skipped(), worker.failedGeneration)
      ensures faulty || worker.Tended(now)
    {
      hide ContextOk, QueueOk, InOrder, Numbered, Worker.Valid, Worker.Steady, Sound, HandledAs, Unharmed,
        Worker.Skipped, Worker.Tended;
      ghost var was, failedWas := worker.Skipped(), worker.failedGeneration;
      Handled(queue, hand, pending, limits, accepted, worker.ledger.processed);
      ghost var item := hand.value;
      assert item in accepted && item.generation >= 0 by { InAccepted(accepted, worker.ledger.processed, item, queue); }
      worker.Synchronize(controlGeneration, controlEnabled);
      ghost var fault := worker.Handle(hand.value, now, opening);
      StillUnharmed(faulty, accepted, limits, item, fault, was, failedWas, worker.Skipped(), worker.failedGeneration);
      faulty := faulty || fault;
      hand, phase := None, Idle;
    }

    /** The queue looked empty: the worker leaves once it was told to stop and nothing is pending. */
    method Empty(now: real) returns (ghost fault: bool)
      requires Valid() && phase.Getting?
      modifies this`phase, this`faulty, worker, worker.writer
      ensures Valid() && (phase.Idle? || phase.Exiting?) && faulty == (old(faulty) || fault)
      ensures !fault ==> (phase.Exiting? <==> orphaned || (stopSeen && pending == 0))
      ensures worker.ledger.processed == old(worker.ledger.processed)
      ensures worker.writer == null || worker.writer == old(worker.writer)
    {
      hide ContextOk, QueueOk, InOrder, Numbered, Worker.Valid, Worker.Steady, Unharmed, Worker.Skipped;
      ghost var was, failedWas := worker.Skipped(), worker.failedGeneration;
      Drained(queue, hand, phase, pending, limits);
      var drained := pending == 0;
      var leaving := orphaned || (stopSeen && drained);
      var ok;
      ok, fault := worker.Rest(drained, leaving, now);
      QuietUnharmed(faulty, accepted, limits, fault, was, failedWas, worker.Skipped(), worker.failedGeneration);
      faulty := faulty || fault;
      phase := if ok && leaving then Exiting else Idle;
    }

    method Leave()
      requires Valid() && phase.Exiting?
      modifies this`phase, this`faulty, worker, worker.writer
      ensures Valid() && phase.Exited? && worker.writer == null
        && worker.ledger.processed == old(worker.ledger.processed)
    {
      hide ContextOk, QueueOk, InOrder, Numbered, Worker.Valid, Worker.Steady, Unharmed, Worker.Skipped;
      ghost var was, failedWas := worker.Skipped(), worker.failedGeneration;
      PhaseOnly(queue, hand, phase, Exited, pending, limits);
      ghost var fault := worker.Leave();
      QuietUnharmed(faulty, accepted, limits, fault, was, failedWas, worker.Skipped(), worker.failedGeneration);
      faulty := faulty || fault;
      phase := Exited;
    }

    // ----- whole runs -----

    method Step(e: Event)
      requires Valid() && (e.Capture? ==> WellFormed(e.block, BLOCK_LIMIT))
      modifies this, selector, worker, worker.writer
      ensures Valid() && old(accepted) <= accepted
      ensures worker.writer == null || worker.writer == old(worker.writer) || fresh(worker.writer)
    {
      hide *;
      match e {
        case Capture(b) => Offer(b);
        case Enable(on) => var told := SetEnabled(on);
        case Stop => ghost var busy := RequestClose();
        case Work(packet, now, opening) =>
          match phase {
            case Idle => ghost var left := Poll();
            case Getting => if packet && queue != [] { Take(); } else { ghost var fault := Empty(now); }
            case Accounting => Account();
            case Processing => Process(now, opening);
            case Exiting => Leave();
            case Exited =>
          }
      }
    }

    /** Any run of the producer and the worker, with any failures, keeps every packet accounted for. */
    method Run(events: seq<Event>)
      requires Valid() && forall e :: e in events && e.Capture? ==> WellFormed(e.block, BLOCK_LIMIT)
      modifies this, selector, worker, worker.writer
      ensures Valid() && old(accepted) <= accepted
    {
      hide Valid;
      for i := 0 to |events|
        invariant Valid() && old(accepted) <= accepted
        invariant worker.writer == null || worker.writer == old(worker.writer) || fresh(worker.writer)
      {
        assert events[i] in events;
        Step(events[i]);
      }
    }

    ghost function Active(): seq<Item>
      reads this, worker, worker.writer
    {
      if worker.writer == null then [] else worker.writer.books.active
    }

    ghost function Files(): seq<Segment>
      reads this, worker, worker.writer
    {
      worker.ledger.files + if worker.writer == null then [] else worker.writer.books.segments
    }

    /** Files whose final name was linked before their closing failed. */
    ghost function Linked(): seq<Segment>
      reads this, worker, worker.writer
    {
      worker.ledger.linked + if worker.writer == null then [] else worker.writer.books.linked
    }

    ghost function Exported(): multiset<Item>
      reads this, worker, worker.writer
    {
      worker.ledger.exported + if worker.writer == null then multiset{} else multiset(worker.writer.books.exported)
    }

    ghost function Skipped(): multiset<Item>
      reads this, worker, worker.writer
    {
      worker.Skipped()
    }

    /** Every accepted packet is, at every step, in exactly one of: the queue, the worker's hand, the
        open file, closed files, and the skipped. */
    lemma ExactlyOnce(i: Item)
      requires Valid()
      ensures multiset(queue + InHand(hand))[i] + multiset(Active())[i] + Exported()[i] + Skipped()[i]
           == if i in accepted then 1 else 0
    {
      hide ContextOk, QueueOk, RotatingBeaconWriter.Valid;
      OnlyOnce(accepted, i);
      MultisetOfParts(worker.ledger.processed, InHand(hand), queue);
      assert worker.ledger.Balanced(if worker.writer == null then multiset{} else worker.writer.books.Held());
    }

    /** The published counters are the sizes of those places, so together with what is still on its
        way they make up what was accepted. */
    lemma CountersAddUp()
      requires Valid()
      ensures var w := worker.writer;
              && worker.committed + (if w == null then 0 else w.exportedBeacons) == |Exported()|
              && worker.skipped + (if w == null then 0 else w.skippedBeacons) == |Skipped()|
              && (if w == null then 0 else w.activeBeacons) == |Active()|
              && |accepted| == |Exported()| + |Skipped()| + |Active()| + |queue| + |InHand(hand)|
    {
      hide ContextOk, QueueOk, BooksOk, NewestOf, SegmentOk, Total;
      MultisetOfParts(worker.ledger.processed, InHand(hand), queue);
      assert worker.ledger.Balanced(if worker.writer == null then multiset{} else worker.writer.books.Held());
      assert |multiset(worker.ledger.processed)| == |worker.ledger.processed|;
    }

    /** What counts as exported is what the published files hold. */
    lemma ExportedIsFiled()
      requires Valid()
      ensures Exported() == multiset(ItemsOf(Files())) && AllOk(Files())
    {
      hide ContextOk, QueueOk, SegmentOk;
      ItemsOfSplit(worker.ledger.files, if worker.writer == null then [] else worker.writer.books.segments);
    }

    /** What a file holds that was linked but not counted is skipped. */
    lemma LinkedIsSkipped()
      requires Valid()
      ensures multiset(ItemsOf(Linked())) <= Skipped() && AllOk(Linked())
    {
      hide ContextOk, QueueOk, SegmentOk;
      ItemsOfSplit(worker.ledger.linked, if worker.writer == null then [] else worker.writer.books.linked);
    }

    /** Each published file, counted or not, is a capture of its own: it reads back as its context
        and its packets, filtering it again changes nothing, and every packet names, in the file, the
        interface it named in the capture. */
    lemma FilesStandAlone(s: Segment)
      requires Valid() && (s in Files() || s in Linked())
      ensures ReadBlocks(s.bytes, START, BLOCK_LIMIT) == Yield(s.header + Packets(s.items), true)
      ensures BeaconFilter.Export(s.bytes, INTERFACE_LIMIT, BLOCK_LIMIT) == BeaconFilter.Exported(s.bytes, true)
      ensures forall k, c :: 0 <= k < |s.items| && ContextIs(s.items[k].header, c) ==>
        ReadUnder(s.bytes, |s.header| + k, s.items[k].packet, c, INTERFACE_LIMIT, BLOCK_LIMIT)
    {
      hide Valid, SegmentOk;
      ExportedIsFiled();
      LinkedIsSkipped();
      PublishedStandsAlone(s);
    }

    /** A clean stop leaves nothing queued and nothing active. */
    lemma CleanStop()
      requires Valid() && phase.Exited? && !orphaned
      ensures queue == [] && hand == None && Active() == [] && pending == 0
      ensures multiset(accepted) == Exported() + Skipped() && |accepted| == worker.committed + worker.skipped
    {
      CountersAddUp();
      hide ContextOk, Sound;
      MultisetOfParts(worker.ledger.processed, InHand(hand), queue);
    }

    /** If nothing failed and every packet accepted fits into a file of its own, a clean stop has
        exported exactly the packets accepted. */
    lemma NothingLost()
      requires Valid() && phase.Exited? && !orphaned && !faulty
      requires forall i :: i in accepted ==> FitsAlone(i, limits)
      ensures multiset(accepted) == Exported() == multiset(ItemsOf(Files())) && Skipped() == multiset{}
    {
      CleanStop();
      ExportedIsFiled();
      hide Worker.Valid, Worker.Steady, ContextOk, QueueOk, Worker.Skipped, FitsAlone, AllOk;
    }
  }

  lemma InAccepted(accepted: seq<Item>, processed: seq<Item>, item: Item, queue: seq<Item>)
    requires InOrder(accepted, processed, Some(item), queue) && Numbered(accepted)
    ensures item in accepted && item.generation >= 0
  {
    assert accepted[|processed|] == item;
  }

  datatype Event = Capture(block: Block) | Enable(on: bool) | Stop | Work(packet: bool, now: real, opening: real)

  lemma OnlyOnce(accepted: seq<Item>, i: Item)
    requires Numbered(accepted)
    ensures multiset(accepted)[i] == if i in accepted then 1 else 0
  {
    if i in accepted {
      var k :| 0 <= k < |accepted| && accepted[k] == i;
      NotTwice(accepted, k);
      var before, after := accepted[..k], accepted[k + 1..];
      assert accepted == before + [i] + after;
      assert multiset(accepted) == multiset(before) + multiset{i} + multiset(after);
    }
  }

  lemma NotTwice(accepted: seq<Item>, k: nat)
    requires Numbered(accepted) && k < |accepted|
    ensures accepted[k] !in accepted[..k] && accepted[k] !in accepted[k + 1..]
  {
    forall j | 0 <= j < |accepted| && j != k ensures accepted[j] != accepted[k] {
      assert accepted[j].id == j && accepted[k].id == k;
    }
  }

  lemma MultisetOfParts(a: seq<Item>, b: seq<Item>, c: seq<Item>)
    ensures multiset(a + b + c) == multiset(a) + multiset(c + b)
    ensures |multiset(c + b)| == |c| + |b|
  {}

  lemma HandEmpty(queue: seq<Item>, hand: Option<Item>, phase: Phase, pending: nat, l: Limits)
    requires QueueOk(queue, hand, phase, pending, l) && phase.Getting?
    ensures hand == None
  {}

  lemma PhaseOnly(queue: seq<Item>, hand: Option<Item>, phase: Phase, next: Phase, pending: nat, l: Limits)
    requires QueueOk(queue, hand, phase, pending, l)
    requires !phase.Accounting? && !phase.Processing? && !next.Accounting? && !next.Processing?
    ensures QueueOk(queue, hand, next, pending, l)
  {}

  lemma Drained(queue: seq<Item>, hand: Option<Item>, phase: Phase, pending: nat, l: Limits)
    requires QueueOk(queue, hand, phase, pending, l) && phase.Getting?
    ensures QueueOk(queue, hand, Idle, pending, l) && QueueOk(queue, hand, Exiting, pending, l)
    ensures pending == 0 ==> queue == []
  {
    hide Sound, Sizes;
    if pending == 0 { SoundSizes(queue); }
  }

  lemma WellFormedSize(b: Block, max: nat)
    requires WellFormed(b, max)
    ensures |b.raw| >= 12 && (b.kind == SHB ==> |b.raw| >= 28)
  {}

  /** A section header or an interface is kept or rejected, never passed over; any other block
      leaves the selection state alone. */
  lemma MetadataKept(b: Block, c: Context)
    requires |b.raw| >= 12 && (b.kind == SHB ==> |b.raw| >= 28)
    ensures var s := Select(b, c, INTERFACE_LIMIT);
            if b.kind == SHB || b.kind == IDB then !s.Skip? && (s.Keep? && b.kind == IDB ==> s.output == b.raw)
            else s.Keep? ==> s.output == b.raw && s.context == c
  {
    hide OpenEnded, ParseOptions, JudgePacket, DescribeInterface;
  }
}
