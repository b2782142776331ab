/** What the reader accepts and the filter keeps, said of the bytes themselves (sections 3.1, 3.5, 4.1,
    4.2 and 4.3 of draft-ietf-opsawg-pcapng). */
module CaptureFacts {
  import opened Wrappers
  import opened Bytes
  import opened Pcapng
  import opened BeaconFilter

  // ----- numbers in bytes -----

  function At16(e: Endian, b: Bytes, i: nat): int
    requires i + 2 <= |b|
  {
    if e.Little? then b[i] as int + 256 * b[i + 1] as int else 256 * b[i] as int + b[i + 1] as int
  }

  function At32(e: Endian, b: Bytes, i: nat): int
    requires i + 4 <= |b|
  {
    if e.Little? then b[i] as int + 256 * b[i + 1] as int + 65536 * b[i + 2] as int + 16777216 * b[i + 3] as int
    else 16777216 * b[i] as int + 65536 * b[i + 1] as int + 256 * b[i + 2] as int + b[i + 3] as int
  }

  /** A signed number of eight bytes. */
  function At64(e: Endian, b: Bytes, i: nat): int
    requires i + 8 <= |b|
  {
    var low, high := At32(e, b, if e.Little? then i else i + 4), At32(e, b, if e.Little? then i + 4 else i);
    low + 4294967296 * (if high >= 2147483648 then high - 4294967296 else high)
  }

  lemma Word16(e: Endian, b: Bytes, i: nat)
    requires i + 2 <= |b|
    ensures U16(e, b[i..i + 2]) == At16(e, b, i)
  {}

  lemma Word32(e: Endian, b: Bytes, i: nat)
    requires i + 4 <= |b|
    ensures U32(e, b[i..i + 4]) == At32(e, b, i)
  {
    var w := b[i..i + 4];
    assert w[..2] == b[i..i + 2] && w[2..] == b[i + 2..i + 4];
  }

  lemma Word64(e: Endian, b: Bytes, i: nat)
    requires i + 8 <= |b|
    ensures I64(e, b[i..i + 8]) == At64(e, b, i)
  {
    var w := b[i..i + 8];
    assert w[..4] == b[i..i + 4] && w[4..] == b[i + 4..i + 8];
    Word32(e, b, i);
    Word32(e, b, i + 4);
    hide U32, At32;
  }

  /** A length rounded up to a multiple of four. */
  function Rounded(n: int): int { if n % 4 == 0 then n else n + 4 - n % 4 }

  lemma PaddedIsRounded(n: nat)
    ensures Padded(n) == Rounded(n)
  {}

  // ----- blocks -----

  predicate StartsSection(s: Bytes) { |s| >= 4 && s[0] == 10 && s[1] == 13 && s[2] == 13 && s[3] == 10 }

  predicate NothingDeclared(r: Reader) { r.remaining.None? || r.remaining.value == 0 }

  /** The byte order the next block is read in. */
  predicate ReadIn(s: Bytes, r: Reader, e: Endian) {
    if StartsSection(s) then
      && NothingDeclared(r) && |s| >= 12
      && (if e.Little? then s[8] == 0x4D && s[9] == 0x3C && s[10] == 0x2B && s[11] == 0x1A
          else s[8] == 0x1A && s[9] == 0x2B && s[10] == 0x3C && s[11] == 0x4D)
    else r.endian == Some(e)
  }

  /** The front of the input is a block: its lengths agree, are allowed and stay within the section; and
      a section header is of version 1.0 and declares no length or a multiple of four. */
  predicate IsBlock(s: Bytes, r: Reader, max: nat, e: Endian, size: nat) {
    && |s| >= 8 && ReadIn(s, r, e) && size == At32(e, s, 4)
    && (if StartsSection(s) then 28 else 12) <= size <= max && size % 4 == 0 && size <= |s|
    && (!StartsSection(s) && r.remaining.Some? ==> size <= r.remaining.value)
    && At32(e, s, size - 4) == size
    && (StartsSection(s) ==>
          && At16(e, s, 12) == 1 && At16(e, s, 14) == 0
          && (At64(e, s, 16) == -1 || (At64(e, s, 16) >= 0 && At64(e, s, 16) % 4 == 0)))
  }

  function ReaderAfter(s: Bytes, r: Reader, e: Endian, size: nat): Reader
    requires |s| >= size >= 8 && (StartsSection(s) ==> size >= 24)
  {
    Reader(Some(e),
           if StartsSection(s) then (if At64(e, s, 16) == -1 then None else Some(At64(e, s, 16)))
           else if r.remaining.None? then None else Some(r.remaining.value - size))
  }

  ghost predicate ReadAs(s: Bytes, r: Reader, max: nat, n: Next) {
    match n
    case End => s == [] && r.endian.Some? && NothingDeclared(r)
    case Next(b, after, rest) =>
      && b.raw + rest == s && IsBlock(s, r, max, b.endian, |b.raw|) && b.kind == At32(b.endian, s, 0)
      && after == ReaderAfter(s, r, b.endian, |b.raw|)
    case Bad =>
      && !(s == [] && r.endian.Some? && NothingDeclared(r))
      && forall e, size :: !IsBlock(s, r, max, e, size)
  }

  lemma SectionBytes(s: Bytes)
    ensures IsSection(s) <==> StartsSection(s)
  {
    if |s| >= 4 { assert s[..4] == [s[0], s[1], s[2], s[3]]; }
  }

  lemma MagicBytes(s: Bytes)
    requires |s| >= 12
    ensures MagicEndian(s[8..12]) == Some(Little) <==> s[8] == 0x4D && s[9] == 0x3C && s[10] == 0x2B && s[11] == 0x1A
    ensures MagicEndian(s[8..12]) == Some(Big) <==> s[8] == 0x1A && s[9] == 0x2B && s[10] == 0x3C && s[11] == 0x4D
  {
    assert s[8..12] == [s[8], s[9], s[10], s[11]];
  }

  lemma OrderExactly(s: Bytes, r: Reader, e: Endian)
    requires |s| >= 8
    ensures NextEndian(s, r) == Some(e) <==> ReadIn(s, r, e)
  {
    SectionBytes(s);
    if |s| >= 12 { MagicBytes(s); }
    hide IsSection, MagicEndian;
  }

  lemma AfterExactly(s: Bytes, r: Reader, e: Endian, size: nat)
    requires 12 <= size <= |s| && (StartsSection(s) ==> size >= 28) && IsSection(s[..size]) == StartsSection(s)
    ensures AfterBlock(s[..size], e, r) ==
              if At32(e, s, size - 4) == size
                 && (StartsSection(s) ==>
                       && At16(e, s, 12) == 1 && At16(e, s, 14) == 0
                       && (At64(e, s, 16) == -1 || (At64(e, s, 16) >= 0 && At64(e, s, 16) % 4 == 0)))
              then Some(ReaderAfter(s, r, e, size)) else None
  {
    var raw := s[..size];
    assert raw[size - 4..] == s[size - 4..size];
    Word32(e, s, size - 4);
    if IsSection(raw) {
      assert raw[12..14] == s[12..14] && raw[14..16] == s[14..16] && raw[16..24] == s[16..24];
      Word16(e, s, 12);
      Word16(e, s, 14);
      Word64(e, s, 16);
    }
    hide U16, U32, I64, At16, At32, At64, IsSection, StartsSection;
  }

  lemma BlockExactly(s: Bytes, r: Reader, max: nat, e: Endian)
    requires |s| >= 8 && NextEndian(s, r) == Some(e)
    ensures var size := U32(e, s[4..8]);
            && (ReadBlock(s, r, max).Next? <==> IsBlock(s, r, max, e, size))
            && (ReadBlock(s, r, max).Next? ==>
                  ReadBlock(s, r, max) == Next(Block(At32(e, s, 0), e, s[..size]), ReaderAfter(s, r, e, size),
                    s[size..]))
  {
    hide U16, U32, I64, At16, At32, At64, IsSection, StartsSection, NextEndian, AfterBlock, ReaderAfter, ReadIn;
    SectionBytes(s);
    OrderExactly(s, r, e);
    Word32(e, s, 4);
    Word32(e, s, 0);
    var size := U32(e, s[4..8]);
    if SizeAllowed(IsSection(s), size, r, max) && size <= |s| {
      SectionStays(s, size);
      AfterExactly(s, r, e, size);
    }
  }

  lemma SectionStays(s: Bytes, size: nat)
    requires 4 <= size <= |s|
    ensures IsSection(s[..size]) == StartsSection(s)
  {
    SectionBytes(s[..size]);
  }

  /** The reader's next step, for all bytes: the end, a block with its fields and what follows it, or an
      error when the front of the input is neither. */
  lemma ReadExactly(s: Bytes, r: Reader, max: nat)
    ensures ReadAs(s, r, max, ReadBlock(s, r, max))
  {
    if |s| >= 8 {
      var e := NextEndian(s, r);
      forall x ensures e == Some(x) <==> ReadIn(s, r, x) { OrderExactly(s, r, x); }
      if e.Some? {
        BlockExactly(s, r, max, e.value);
        Word32(e.value, s, 4);
      }
      hide NextEndian, ReadIn, U32, At16, At32, At64, ReaderAfter, SizeAllowed, AfterBlock;
    }
  }

  // ----- options -----

  predicate Allowed(code: int, length: nat) {
    code != 0 && code != 19372 && code != 19373 && (code == 2988 || code == 2989 ==> length >= 4)
  }

  /** The data begins with this option, padded to four bytes. */
  predicate FrontIs(data: Bytes, e: Endian, f: OptionField) {
    && |data| >= 4 && At16(e, data, 0) == f.code && At16(e, data, 2) == |f.value| && Allowed(f.code, |f.value|)
    && 4 + Rounded(|f.value|) <= |data| && data[4..4 + |f.value|] == f.value
  }

  predicate IsEnd(data: Bytes, e: Endian) { |data| == 4 && At16(e, data, 0) == 0 && At16(e, data, 2) == 0 }

  /** The data is these options one after the other, and perhaps an end of options. */
  predicate LaidOut(data: Bytes, e: Endian, fields: seq<OptionField>)
    decreases |fields|
  {
    if fields == [] then data == [] || IsEnd(data, e)
    else FrontIs(data, e, fields[0]) && LaidOut(data[4 + Rounded(|fields[0].value|)..], e, fields[1..])
  }

  lemma NextExactly(data: Bytes, e: Endian)
    requires data != []
    ensures var n := NextOption(data, e);
            && (n.Finish? <==> IsEnd(data, e))
            && (n.Field? ==> FrontIs(data, e, n.field) && n.size == 4 + Rounded(|n.field.value|))
            && forall f :: FrontIs(data, e, f) ==> n == Field(f, 4 + Rounded(|f.value|))
  {
    if |data| >= 4 {
      Word16(e, data, 0);
      Word16(e, data, 2);
      PaddedIsRounded(At16(e, data, 2));
    }
    hide U16, At16, Padded, Rounded;
  }

  lemma {:induction false} OptionsExactly(data: Bytes, e: Endian, fields: seq<OptionField>)
    ensures ParseOptions(data, e) == Options(fields) <==> LaidOut(data, e, fields)
    decreases |data|
  {
    if data != [] {
      NextExactly(data, e);
      NotBoth(data, e);
      hide NextOption, FrontIs, IsEnd, Rounded;
      var n := NextOption(data, e);
      if n.Field? && fields != [] {
        OptionsExactly(data[n.size..], e, fields[1..]);
        var rest := ParseOptions(data[n.size..], e);
        if rest.Options? { Cons(n.field, rest.fields, fields); }
      }
    } else {
      NotFront(e);
    }
  }

  lemma NotFront(e: Endian)
    ensures forall f :: !FrontIs([], e, f)
  {}

  lemma NotBoth(data: Bytes, e: Endian)
    ensures IsEnd(data, e) ==> forall f :: !FrontIs(data, e, f)
  {}

  lemma Cons<T>(x: T, rest: seq<T>, all: seq<T>)
    requires all != []
    ensures [x] + rest == all <==> x == all[0] && rest == all[1..]
  {
    assert all == [all[0]] + all[1..];
    if [x] + rest == all { assert ([x] + rest)[1..] == rest; }
  }

  ghost predicate OptionsAt(data: Bytes, e: Endian) { exists fields :: LaidOut(data, e, fields) }

  lemma OptionsPresent(data: Bytes, e: Endian)
    ensures ParseOptions(data, e) != Malformed <==> OptionsAt(data, e)
  {
    hide ParseOptions, LaidOut;
    var o := ParseOptions(data, e);
    if o.Options? { OptionsExactly(data, e, o.fields); }
    if fields :| LaidOut(data, e, fields) { OptionsExactly(data, e, fields); }
  }

  // ----- interfaces -----

  predicate IsClock(f: OptionField) { f.code == 9 || f.code == 14 }

  ghost predicate Once(fields: seq<OptionField>) {
    forall i, j :: 0 <= i < j < |fields| && IsClock(fields[i]) ==> fields[i].code != fields[j].code
  }

  /** A timestamp resolution is one byte; without one it is as before. */
  ghost predicate Resolves(fields: seq<OptionField>, resolution: int, before: int) {
    && (forall i :: 0 <= i < |fields| && fields[i].code == 9 ==>
          |fields[i].value| == 1 && fields[i].value[0] as int == resolution)
    && ((forall i :: 0 <= i < |fields| ==> fields[i].code != 9) ==> resolution == before)
  }

  /** A timestamp offset is eight bytes; without one it is as before. */
  ghost predicate Offsets(fields: seq<OptionField>, e: Endian, offset: int, before: int) {
    && (forall i :: 0 <= i < |fields| && fields[i].code == 14 ==>
          |fields[i].value| == 8 && At64(e, fields[i].value, 0) == offset)
    && ((forall i :: 0 <= i < |fields| ==> fields[i].code != 14) ==> offset == before)
  }

  /** At most one timestamp resolution and one offset; six and zero without. */
  ghost predicate ClocksAre(fields: seq<OptionField>, e: Endian, resolution: int, offset: int) {
    Once(fields) && Resolves(fields, resolution, 6) && Offsets(fields, e, offset, 0)
  }

  /** An interface description: its reserved field zero, its link type, its limit, and its clocks. */
  ghost predicate Describes(body: Bytes, e: Endian, i: Interface) {
    && |body| >= 8 && At16(e, body, 2) == 0 && i.linktype == At16(e, body, 0) && i.snaplen == At32(e, body, 4)
    && exists fields :: LaidOut(body[8..], e, fields) && ClocksAre(fields, e, i.resolution, i.timeOffset)
  }

  ghost predicate Unseen(fields: seq<OptionField>, seen: set<nat>) {
    forall i :: 0 <= i < |fields| && IsClock(fields[i]) ==> fields[i].code !in seen
  }

  /** What the options read so far allow of those still to come. */
  ghost predicate ClocksFrom(fields: seq<OptionField>, e: Endian, seen: set<nat>, c: Clocks, r: Clocks) {
    && c.Clocks? && r.Clocks? && Once(fields) && Unseen(fields, seen)
    && Resolves(fields, r.resolution, c.resolution) && Offsets(fields, e, r.offset, c.offset)
  }

  predicate ClockSized(f: OptionField) { (f.code == 9 ==> |f.value| == 1) && (f.code == 14 ==> |f.value| == 8) }

  function NextClocks(f: OptionField, e: Endian, c: Clocks): Clocks
    requires c.Clocks? && ClockSized(f)
  {
    if f.code == 9 then c.(resolution := f.value[0]) else if f.code == 14 then c.(offset := I64(e, f.value)) else c
  }

  function SeenAfter(f: OptionField, seen: set<nat>): set<nat> { if IsClock(f) then seen + {f.code} else seen }

  lemma OnceNext(f: OptionField, rest: seq<OptionField>, seen: set<nat>)
    ensures Once([f] + rest) && Unseen([f] + rest, seen)
            <==> Once(rest) && Unseen(rest, SeenAfter(f, seen)) && (IsClock(f) ==> f.code !in seen)
  {
    var all := [f] + rest;
    assert all[0] == f && forall i :: 0 < i < |all| ==> all[i] == rest[i - 1];
    assert forall i :: 0 <= i < |rest| ==> rest[i] == all[i + 1];
  }

  lemma ResolvesNext(f: OptionField, rest: seq<OptionField>, r: int, before: int)
    requires f.code == 9 ==> |f.value| == 1 && forall i :: 0 <= i < |rest| ==> rest[i].code != 9
    ensures Resolves([f] + rest, r, before) <==> Resolves(rest, r, if f.code == 9 then f.value[0] as int else before)
  {
    var all := [f] + rest;
    assert all[0] == f && forall i :: 0 < i < |all| ==> all[i] == rest[i - 1];
    assert forall i :: 0 <= i < |rest| ==> rest[i] == all[i + 1];
  }

  lemma OffsetsNext(f: OptionField, rest: seq<OptionField>, e: Endian, r: int, before: int)
    requires f.code == 14 ==> |f.value| == 8 && forall i :: 0 <= i < |rest| ==> rest[i].code != 14
    ensures Offsets([f] + rest, e, r, before) <==> Offsets(rest, e, r, if f.code == 14 then I64(e, f.value) else before)
  {
    var all := [f] + rest;
    assert all[0] == f && forall i :: 0 < i < |all| ==> all[i] == rest[i - 1];
    assert forall i :: 0 <= i < |rest| ==> rest[i] == all[i + 1];
    if f.code == 14 {
      Word64(e, f.value, 0);
      assert f.value[0..8] == f.value;
    }
    hide At64, I64;
  }

  lemma FrontSized(f: OptionField, rest: seq<OptionField>, e: Endian, seen: set<nat>, c: Clocks, r: Clocks)
    requires ClocksFrom([f] + rest, e, seen, c, r)
    ensures ClockSized(f) && (IsClock(f) ==> f.code !in seen && forall i :: 0 <= i < |rest| ==> rest[i].code != f.code)
  {
    var all := [f] + rest;
    assert all[0] == f && forall i :: 0 <= i < |rest| ==> rest[i] == all[i + 1];
    hide At64;
  }

  lemma NotAgain(rest: seq<OptionField>, code: nat, seen: set<nat>)
    requires Unseen(rest, seen) && code in seen && (code == 9 || code == 14)
    ensures forall i :: 0 <= i < |rest| ==> rest[i].code != code
  {}

  lemma {:induction false} ClocksExactly(fields: seq<OptionField>, e: Endian, seen: set<nat>, c: Clocks, r: Clocks)
    requires c.Clocks? && r.Clocks?
    ensures ReadClocks(fields, e, seen, c) == r <==> ClocksFrom(fields, e, seen, c, r)
  {
    hide I64, Once, Unseen, Resolves, Offsets;
    if fields == [] {
      NoClocks(e, seen, c, r);
    } else {
      var f, rest := fields[0], fields[1..];
      assert fields == [f] + rest;
      if ClocksFrom(fields, e, seen, c, r) { FrontSized(f, rest, e, seen, c, r); }
      if ClockSized(f) && (IsClock(f) ==> f.code !in seen) {
        ClocksExactly(rest, e, SeenAfter(f, seen), NextClocks(f, e, c), r);
        OnceNext(f, rest, seen);
        if Unseen(rest, SeenAfter(f, seen)) {
          if IsClock(f) { NotAgain(rest, f.code, SeenAfter(f, seen)); }
          ResolvesNext(f, rest, r.resolution, c.resolution);
          OffsetsNext(f, rest, e, r.offset, c.offset);
        }
      }
    }
  }

  lemma NoClocks(e: Endian, seen: set<nat>, c: Clocks, r: Clocks)
    requires c.Clocks? && r.Clocks?
    ensures ClocksFrom([], e, seen, c, r) <==> c == r
  {}

  /** An interface description is accepted exactly when it describes one, and as what it describes. */
  lemma InterfaceExactly(body: Bytes, e: Endian, i: Interface)
    ensures DescribeInterface(body, e) == Some(i) <==> Describes(body, e, i)
  {
    if |body| >= 8 {
      Word16(e, body, 0);
      Word16(e, body, 2);
      Word32(e, body, 4);
      var o := ParseOptions(body[8..], e);
      forall fields ensures o == Options(fields) <==>
        LaidOut(body[8..], e, fields) { OptionsExactly(body[8..], e, fields); }
      if o.Options? { ClocksOfAll(o.fields, e, i.resolution, i.timeOffset); }
      hide U16, U32, At16, At32, ParseOptions, LaidOut, ReadClocks, ClocksAre;
    }
  }

  lemma ClocksOfAll(fields: seq<OptionField>, e: Endian, resolution: nat, offset: int)
    ensures ReadClocks(fields, e, {}, Clocks(6, 0)) == Clocks(resolution, offset) <==>
      ClocksAre(fields, e, resolution, offset)
  {
    ClocksExactly(fields, e, {}, Clocks(6, 0), Clocks(resolution, offset));
    hide ReadClocks, Once, Resolves, Offsets;
  }

  // ----- frames -----

  /** A radiotap header of some length, whose presence words end within it. */
  ghost predicate RadiotapLength(packet: Bytes, n: int) {
    && |packet| >= 8 && packet[0] == 0 && n == packet[2] as int + 256 * packet[3] as int && 8 <= n <= |packet|
    && exists k: nat :: WordsEnd(packet, 4, n, k)
  }

  /** The first k words from a place on announce another, and the one after them does not. */
  ghost predicate WordsEnd(packet: Bytes, at: nat, length: nat, k: nat)
    requires length <= |packet|
  {
    && at + 4 * k + 4 <= length && packet[at + 4 * k + 3] < 128
    && forall j :: 0 <= j < k ==> packet[at + 4 * j + 3] >= 128
  }

  lemma HighBit(b: Bytes, i: nat)
    requires i + 4 <= |b|
    ensures U32(Little, b[i..i + 4]) < 0x8000_0000 <==> b[i + 3] < 128
  {
    Word32(Little, b, i);
    hide U32;
  }

  lemma {:induction false} PresenceExactly(packet: Bytes, at: nat, length: nat)
    requires at + 4 <= length <= |packet|
    ensures PresenceEnds(packet, at, length) <==> exists k: nat :: WordsEnd(packet, at, length, k)
    decreases length - at
  {
    HighBit(packet, at);
    hide U32;
    if packet[at + 3] < 128 {
      assert WordsEnd(packet, at, length, 0);
    } else {
      if at + 8 <= length {
        var next := at + 4;
        PresenceExactly(packet, next, length);
        if k: nat :| WordsEnd(packet, next, length, k) {
          forall j | 0 <= j < k + 1 ensures packet[at + 4 * j + 3] >= 128 {
            if j > 0 { assert packet[at + 4 + 4 * (j - 1) + 3] >= 128; }
          }
          assert WordsEnd(packet, at, length, k + 1);
        }
      }
      if k: nat :| WordsEnd(packet, at, length, k) {
        assert k != 0;
        forall j | 0 <= j < k - 1 ensures packet[at + 4 + 4 * j + 3] >= 128 {
          assert packet[at + 4 * (j + 1) + 3] >= 128;
        }
        assert WordsEnd(packet, at + 4, length, k - 1);
      }
    }
  }

  /** Where the 802.11 frame of a packet starts: at once, or behind a radiotap header. */
  ghost predicate FrameStarts(packet: Bytes, linktype: nat, at: int) {
    (linktype == 105 && at == 0) || (linktype == 127 && RadiotapLength(packet, at))
  }

  ghost predicate BeaconAt(packet: Bytes, linktype: nat, at: int) {
    FrameStarts(packet, linktype, at) && 0 <= at && at + 36 <= |packet| && packet[at] == 0x80
  }

  /** A frame of protocol version 0 that is not a beacon. */
  ghost predicate OtherAt(packet: Bytes, linktype: nat, at: int) {
    FrameStarts(packet, linktype, at) && 0 <= at && at + 2 <= |packet| && packet[at] % 4 == 0 && packet[at] != 0x80
  }

  ghost predicate IsKind(packet: Bytes, linktype: nat, k: Kind) {
    match k
    case Beacon => exists at :: BeaconAt(packet, linktype, at)
    case NonBeacon => exists at :: OtherAt(packet, linktype, at)
    case UnsupportedLink => linktype != 105 && linktype != 127
    case MalformedPacket =>
      && (linktype == 105 || linktype == 127)
      && forall at :: !BeaconAt(packet, linktype, at) && !OtherAt(packet, linktype, at)
    case _ => false
  }

  lemma LengthExactly(packet: Bytes, n: int)
    ensures RadiotapLength(packet, n) <==>
              |packet| >= 8 && packet[0] == 0 && n == U16(Little, packet[2..4]) && 8 <= n <= |packet|
              && PresenceEnds(packet, 4, n)
  {
    if |packet| >= 8 {
      Word16(Little, packet, 2);
      if 8 <= n <= |packet| { PresenceExactly(packet, 4, n); }
      hide PresenceEnds, WordsEnd, U16;
    }
  }

  /** What a captured packet is counted as, for all its bytes and every link type. */
  lemma KindExactly(packet: Bytes, linktype: nat, k: Kind)
    ensures BeaconKind(packet, linktype) == k <==> IsKind(packet, linktype, k)
  {
    var n := if |packet| >= 8 then U16(Little, packet[2..4]) else 0;
    forall at: int ensures RadiotapLength(packet, at) <==>
              |packet| >= 8 && packet[0] == 0 && at == n && 8 <= at <= |packet| && PresenceEnds(packet, 4, at) {
      LengthExactly(packet, at);
    }
    hide RadiotapLength, PresenceEnds, U16;
    if linktype == 105 {
      FramesAt(packet, linktype, 0, k);
      assert packet[0..] == packet;
    } else if linktype == 127 && RadiotapLength(packet, n) {
      FramesAt(packet, linktype, n, k);
    }
  }

  lemma FramesAt(packet: Bytes, linktype: nat, at: nat, k: Kind)
    requires at <= |packet| && (linktype == 105 || linktype == 127)
    requires forall x :: FrameStarts(packet, linktype, x) <==> x == at
    ensures FrameKind(packet[at..]) == k <==> IsKind(packet, linktype, k)
  {
    hide FrameStarts;
    assert BeaconAt(packet, linktype, at) || !BeaconAt(packet, linktype, at);
    assert OtherAt(packet, linktype, at) || !OtherAt(packet, linktype, at);
  }

  // ----- packets -----

  /** A packet block that obeys the rules for it: its interface exists, its captured length is no more
      than its original length and its interface's limit, its data fits, and its options are sound. */
  ghost predicate SoundPacket(body: Bytes, e: Endian, kind: nat, c: Context) {
    && |body| >= 20
    && var id := if kind == 6 then At32(e, body, 0) else At16(e, body, 0);
       var captured, original := At32(e, body, 12), At32(e, body, 16);
       && 0 <= id < |c.interfaces| && 0 <= captured <= original && 20 + Rounded(captured) <= |body|
       && (c.interfaces[id].snaplen == 0 || captured <= c.interfaces[id].snaplen)
       && OptionsAt(body[20 + Rounded(captured)..], e)
  }

  /** A simple packet block: on the first interface, of the length that its limit leaves. */
  predicate SoundSimple(body: Bytes, e: Endian, c: Context) {
    && c.interfaces != [] && |body| >= 4
    && var original, limit := At32(e, body, 0), c.interfaces[0].snaplen;
       |body| == 4 + Rounded(if limit != 0 && limit < original then limit else original)
  }

  /** What a packet block is counted as. */
  ghost predicate Judged(b: Block, c: Context, k: Kind)
    requires |b.raw| >= 12
  {
    var body, e := b.Body(), b.endian;
    if b.kind == 3 then SoundSimple(body, e, c) && k == Untimestamped
    else
      && SoundPacket(body, e, b.kind, c)
      && var captured := At32(e, body, 12);
         if captured < At32(e, body, 16) then k == TruncatedPacket
         else
           IsKind(body[20..20 + captured],
                  c.interfaces[if b.kind == 6 then At32(e, body, 0) else At16(e, body, 0)].linktype, k)
  }

  lemma SimpleExactly(body: Bytes, e: Endian, c: Context)
    ensures SimplePacket(body, e, c) == if SoundSimple(body, e, c) then Packet(Untimestamped) else Rejected
  {
    if |body| >= 4 && c.interfaces != [] {
      Word32(e, body, 0);
      var original, limit := U32(e, body[..4]), c.interfaces[0].snaplen;
      PaddedIsRounded(if limit != 0 && limit < original then limit else original);
      hide U32, At32, Padded, Rounded;
    }
  }

  /** What a packet block is counted as is decided by its bytes and its section's interfaces alone. */
  lemma JudgedExactly(b: Block, c: Context, k: Kind)
    requires |b.raw| >= 12
    ensures JudgePacket(b, c) == Packet(k) <==> Judged(b, c, k)
  {
    hide U32, U16, At32, At16, Padded, Rounded, ParseOptions, OptionsAt, BeaconKind, IsKind, SimplePacket, SoundSimple;
    hide Block.Body;
    var body, e := b.Body(), b.endian;
    if b.kind == 3 {
      SimpleExactly(body, e, c);
    } else if |body| >= 20 {
      Word32(e, body, 0);
      Word16(e, body, 0);
      Word32(e, body, 12);
      Word32(e, body, 16);
      var captured := U32(e, body[12..16]);
      PaddedIsRounded(captured);
      if 20 + Padded(captured) <= |body| {
        OptionsPresent(body[20 + Padded(captured)..], e);
        var id := InterfaceId(b.kind, body, e);
        if id < |c.interfaces| { KindExactly(body[20..20 + captured], c.interfaces[id].linktype, k); }
      }
    }
  }

  // ----- selection -----

  function Unspecified(raw: Bytes): Bytes
    requires |raw| >= 28
  {
    raw[..16] + [255, 255, 255, 255, 255, 255, 255, 255] + raw[24..]
  }

  /** What the filter makes of a block: a section header with sound options is kept with its length made
      unspecified; an interface is kept if there is room for it; a packet is kept exactly when it counts
      as a beacon, and passed over when it counts as anything else; other blocks are passed over; and
      all else is refused. */
  ghost predicate SelectedAs(b: Block, c: Context, limit: nat, s: Selection)
    requires |b.raw| >= 12 && (b.kind == SHB ==> |b.raw| >= 28)
  {
    if b.kind == 0x0A0D0D0A then
      s == if OptionsAt(b.Body()[16..], b.endian) then Keep(Unspecified(b.raw), Context(Some(b.endian), [])) else Fail
    else if c.endian != Some(b.endian) then s.Fail?
    else if b.kind == 1 then
      if |c.interfaces| < limit && exists i :: Describes(b.Body(), b.endian, i)
      then s.Keep? && s.output == b.raw && s.context.endian == c.endian && |s.context.interfaces| == |c.interfaces| + 1
           && s.context.interfaces[..|c.interfaces|] == c.interfaces
           && Describes(b.Body(), b.endian, s.context.interfaces[|c.interfaces|])
      else s.Fail?
    else if b.kind == 2 || b.kind == 3 || b.kind == 6 then
      if Judged(b, c, Beacon) then s == Keep(b.raw, c)
      else if exists k :: Judged(b, c, k) then s.Skip?
      else s.Fail?
    else s.Skip?
  }

  /** For every block, in every context, the filter does just that. */
  lemma SelectExactly(b: Block, c: Context, limit: nat)
    requires |b.raw| >= 12 && (b.kind == SHB ==> |b.raw| >= 28)
    ensures SelectedAs(b, c, limit, Select(b, c, limit))
  {
    if b.kind == SHB {
      OptionsPresent(b.Body()[16..], b.endian);
      hide ParseOptions, OptionsAt, Block.Body;
    } else if b.kind == IDB {
      forall i ensures DescribeInterface(b.Body(), b.endian) == Some(i) <==> Describes(b.Body(), b.endian, i) {
        InterfaceExactly(b.Body(), b.endian, i);
      }
      hide DescribeInterface, Describes, Block.Body;
    } else if IsPacket(b.kind) {
      forall k ensures JudgePacket(b, c) == Packet(k) <==> Judged(b, c, k) { JudgedExactly(b, c, k); }
      hide JudgePacket, Judged;
    }
  }
}
