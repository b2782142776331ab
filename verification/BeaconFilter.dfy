/** Selecting complete beacon packets from pcapng blocks without changing their bytes: options
    (section 3.5 of draft-ietf-opsawg-pcapng), interface descriptions (4.2), packets (4.3). */
module BeaconFilter {
  import opened Wrappers
  import opened Bytes
  import opened Pcapng

  const IDB: nat := 1
  const PACKET: nat := 2
  const SIMPLE_PACKET: nat := 3
  const ENHANCED_PACKET: nat := 6
  const IEEE802_11: nat := 105
  const RADIOTAP: nat := 127

  // ----- options -----

  datatype OptionField = OptionField(code: nat, value: Bytes)

  datatype Options = Malformed | Options(fields: seq<OptionField>)

  predicate OptionAllowed(code: nat, length: nat) {
    code != 19372 && code != 19373 && (code == 2988 || code == 2989 ==> length >= 4)
  }

  datatype OptionStep = Broken | Finish | Field(field: OptionField, size: nat)

  /** The option at the front of some data. */
  function NextOption(data: Bytes, e: Endian): (r: OptionStep)
    requires data != []
    ensures r.Field? ==> 0 < r.size <= |data|
  {
    if |data| < 4 then Broken
    else
      var code, length := U16(e, data[..2]), U16(e, data[2..4]);
      if Padded(length) > |data| - 4 then Broken
      else if code == 0 then (if length != 0 || |data| != 4 then Broken else Finish)
      else if !OptionAllowed(code, length) then Broken
      else Field(OptionField(code, data[4..4 + length]), 4 + Padded(length))
  }

  function ParseOptions(data: Bytes, e: Endian): Options
    decreases |data|
  {
    if data == [] then Options([])
    else
      match NextOption(data, e)
      case Broken => Malformed
      case Finish => Options([])
      case Field(f, size) => Prepend(f, ParseOptions(data[size..], e))
  }

  function Prepend(f: OptionField, o: Options): Options {
    match o
    case Malformed => Malformed
    case Options(tail) => Options([f] + tail)
  }

  function After(fields: seq<OptionField>, o: Options): Options {
    match o
    case Malformed => Malformed
    case Options(tail) => Options(fields + tail)
  }

  method ReadOptions(data: Bytes, e: Endian) returns (r: Options)
    ensures r == ParseOptions(data, e)
  {
    hide NextOption;
    var fields: seq<OptionField> := [];
    var offset := 0;
    assert data[0..] == data;
    while offset < |data|
      invariant 0 <= offset <= |data|
      invariant ParseOptions(data, e) == After(fields, ParseOptions(data[offset..], e))
    {
      match NextOption(data[offset..], e) {
        case Broken => return Malformed;
        case Finish => return Options(fields);
        case Field(f, size) =>
          assert data[offset..][size..] == data[offset + size..];
          AfterPrepend(fields, f, ParseOptions(data[offset + size..], e));
          fields, offset := fields + [f], offset + size;
      }
    }
    assert data[offset..] == [];
    r := Options(fields);
  }

  lemma AfterPrepend(fields: seq<OptionField>, f: OptionField, o: Options)
    ensures After(fields, Prepend(f, o)) == After(fields + [f], o)
  {
    if o.Options? { assert fields + ([f] + o.fields) == fields + [f] + o.fields; }
  }

  predicate Encodable(f: OptionField) {
    0 < f.code < 0x1_0000 && |f.value| < 0x1_0000 && OptionAllowed(f.code, |f.value|)
  }

  /** An option as a writer lays it out: code, length, value, and padding to a 32-bit boundary. */
  function EncodeOption(f: OptionField, e: Endian): Bytes
    requires Encodable(f)
  {
    Word(e, f.code) + Word(e, |f.value|) + f.value + seq(Padded(|f.value|) - |f.value|, i => 0)
  }

  function EncodeOptions(fields: seq<OptionField>, e: Endian): Bytes
    requires forall f :: f in fields ==> Encodable(f)
  {
    if fields == [] then [] else EncodeOption(fields[0], e) + EncodeOptions(fields[1..], e)
  }

  lemma NextEncoded(f: OptionField, e: Endian, rest: Bytes)
    requires Encodable(f)
    ensures var data := EncodeOption(f, e) + rest;
            data != [] && NextOption(data, e) == Field(f, |EncodeOption(f, e)|) && data[|EncodeOption(f, e)|..] == rest
  {
    hide U16, Word, Padded, OptionAllowed;
    var data := EncodeOption(f, e) + rest;
    assert data[..2] == Word(e, f.code) && data[2..4] == Word(e, |f.value|) && data[4..4 + |f.value|] == f.value;
  }

  lemma EndOfOptions(e: Endian)
    ensures NextOption(Word(e, 0) + Word(e, 0), e) == Finish
  {
    hide Word, U16;
    var end := Word(e, 0) + Word(e, 0);
    assert end[..2] == Word(e, 0) && end[2..4] == Word(e, 0);
  }

  /** Options, in either byte order, with or without an end-of-options marker, read back as written. */
  lemma {:induction false} OptionsReadBack(fields: seq<OptionField>, e: Endian, marked: bool)
    requires forall f :: f in fields ==> Encodable(f)
    ensures ParseOptions(EncodeOptions(fields, e) + if marked then Word(e, 0) + Word(e, 0) else [], e)
      == Options(fields)
  {
    hide EncodeOption, NextOption, Word, U16;
    var end := if marked then Word(e, 0) + Word(e, 0) else [];
    if fields == [] {
      assert EncodeOptions(fields, e) + end == end;
      if marked { EndOfOptions(e); }
    } else {
      var f, rest := fields[0], EncodeOptions(fields[1..], e) + end;
      assert EncodeOptions(fields, e) + end == EncodeOption(f, e) + rest;
      NextEncoded(f, e, rest);
      OptionsReadBack(fields[1..], e, marked);
      assert fields == [f] + fields[1..];
    }
  }

  // ----- interfaces -----

  datatype Interface = Interface(linktype: nat, snaplen: nat, resolution: nat, timeOffset: int)

  /** Timestamp resolution and offset, each given at most once and of its exact size. */
  datatype Clocks = BadClocks | Clocks(resolution: nat, offset: int)

  function ReadClocks(fields: seq<OptionField>, e: Endian, seen: set<nat>, c: Clocks): Clocks {
    if fields == [] || c.BadClocks? then c
    else
      var f := fields[0];
      if f.code != 9 && f.code != 14 then ReadClocks(fields[1..], e, seen, c)
      else if f.code in seen || |f.value| != (if f.code == 9 then 1 else 8) then BadClocks
      else
        ReadClocks(fields[1..], e, seen + {f.code},
                   if f.code == 9 then c.(resolution := f.value[0]) else c.(offset := I64(e, f.value)))
  }

  function DescribeInterface(body: Bytes, e: Endian): Option<Interface> {
    if |body| < 8 || U16(e, body[2..4]) != 0 then None
    else
      match ParseOptions(body[8..], e)
      case Malformed => None
      case Options(fields) =>
        match ReadClocks(fields, e, {}, Clocks(6, 0))
        case BadClocks => None
        case Clocks(r, o) => Some(Interface(U16(e, body[..2]), U32(e, body[4..8]), r, o))
  }

  // ----- packets -----

  datatype Kind = Beacon | NonBeacon | TruncatedPacket | UnsupportedLink | MalformedPacket | Untimestamped

  /** Whether the chain of presence words ends within the radiotap header. */
  predicate PresenceEnds(packet: Bytes, at: nat, length: nat)
    requires at + 4 <= length <= |packet|
    decreases length - at
  {
    U32(Little, packet[at..at + 4]) < 0x8000_0000 || (at + 8 <= length && PresenceEnds(packet, at + 4, length))
  }

  function FrameKind(frame: Bytes): Kind {
    if |frame| < 2 || frame[0] % 4 != 0 then MalformedPacket
    else if frame[0] != 0x80 then NonBeacon
    else if |frame| >= 36 then Beacon else MalformedPacket
  }

  function BeaconKind(packet: Bytes, linktype: nat): Kind {
    if linktype == RADIOTAP then
      if |packet| < 8 || packet[0] != 0 then MalformedPacket
      else
        var length := U16(Little, packet[2..4]);
        if !(8 <= length <= |packet|) || !PresenceEnds(packet, 4, length) then MalformedPacket
        else FrameKind(packet[length..])
    else if linktype == IEEE802_11 then FrameKind(packet)
    else UnsupportedLink
  }

  /** A selection state: the section's byte order and its interfaces so far. */
  datatype Context = Context(endian: Option<Endian>, interfaces: seq<Interface>)

  const NO_SECTION: Context := Context(None, [])

  datatype Verdict = Rejected | Packet(kind: Kind)

  function SimplePacket(body: Bytes, e: Endian, c: Context): Verdict {
    if c.interfaces == [] || |body| < 4 then Rejected
    else
      var original, snaplen := U32(e, body[..4]), c.interfaces[0].snaplen;
      var captured := if snaplen != 0 && snaplen < original then snaplen else original;
      if |body| != 4 + Padded(captured) then Rejected else Packet(Untimestamped)
  }

  function JudgePacket(b: Block, c: Context): Verdict
    requires |b.raw| >= 12
  {
    var body, e := b.Body(), b.endian;
    if b.kind == SIMPLE_PACKET then SimplePacket(body, e, c)
    else if |body| < 20 then Rejected
    else
      var id := if b.kind == ENHANCED_PACKET then U32(e, body[..4]) else U16(e, body[..2]);
      var captured, original := U32(e, body[12..16]), U32(e, body[16..20]);
      var end := 20 + Padded(captured);
      if id >= |c.interfaces| then Rejected
      else
        var i := c.interfaces[id];
        if end > |body| || captured > original || (i.snaplen != 0 && captured > i.snaplen) then Rejected
        else if ParseOptions(body[end..], e) == Malformed then Rejected
        else if captured < original then Packet(TruncatedPacket)
        else Packet(BeaconKind(body[20..20 + captured], i.linktype))
  }

  // ----- selection -----

  datatype Selection = Fail | Skip | Keep(output: Bytes, context: Context)

  predicate IsPacket(kind: nat) { kind == ENHANCED_PACKET || kind == PACKET || kind == SIMPLE_PACKET }

  /** The section header with its declared length made unspecified. */
  function OpenEnded(raw: Bytes): (r: Bytes)
    requires |raw| >= 28
    ensures |r| == |raw|
  {
    raw[..16] + MINUS_ONE + raw[24..]
  }

  function Select(b: Block, c: Context, limit: nat): Selection
    requires |b.raw| >= 12 && (b.kind == SHB ==> |b.raw| >= 28)
  {
    if b.kind == SHB then
      if ParseOptions(b.Body()[16..], b.endian) == Malformed then Fail
      else Keep(OpenEnded(b.raw), Context(Some(b.endian), []))
    else if c.endian != Some(b.endian) then Fail
    else if b.kind == IDB then
      var i := DescribeInterface(b.Body(), b.endian);
      if i.None? || |c.interfaces| >= limit then Fail
      else Keep(b.raw, c.(interfaces := c.interfaces + [i.value]))
    else if IsPacket(b.kind) then
      match JudgePacket(b, c)
      case Rejected => Fail
      case Packet(kind) => if kind == Beacon then Keep(b.raw, c) else Skip
    else Skip
  }

  /** An 802.11 beacon with its fixed fields, after the radiotap header if the link has one. */
  predicate HoldsBeacon(packet: Bytes, linktype: nat) {
    && (linktype == RADIOTAP || linktype == IEEE802_11)
    && (linktype == RADIOTAP ==> |packet| >= 8 && packet[0] == 0)
    && var at := if linktype == RADIOTAP then U16(Little, packet[2..4]) else 0;
       at + 36 <= |packet| && packet[at] == 0x80
  }

  function InterfaceId(kind: nat, body: Bytes, e: Endian): nat
    requires |body| >= 20
  {
    if kind == ENHANCED_PACKET then U32(e, body[..4]) else U16(e, body[..2])
  }

  /** A packet block of some interface, captured whole within that interface's limit. */
  predicate CapturedWhole(body: Bytes, e: Endian, i: Interface)
    requires |body| >= 20
  {
    var captured := U32(e, body[12..16]);
    captured == U32(e, body[16..20]) && 20 + captured <= |body| && (i.snaplen == 0 || captured <= i.snaplen)
  }

  /** Whatever packet is kept names one of the section's interfaces, was captured whole, and holds a
      beacon. */
  lemma KeptIsBeacon(b: Block, c: Context, limit: nat)
    requires |b.raw| >= 12 && IsPacket(b.kind) && Select(b, c, limit).Keep?
    ensures b.kind != SIMPLE_PACKET && |b.Body()| >= 20 && InterfaceId(b.kind, b.Body(), b.endian) < |c.interfaces|
    ensures var i := c.interfaces[InterfaceId(b.kind, b.Body(), b.endian)];
            && CapturedWhole(b.Body(), b.endian, i)
            && HoldsBeacon(b.Body()[20..20 + U32(b.endian, b.Body()[12..16])], i.linktype)
  {
    hide ParseOptions, PresenceEnds, U16, U32;
  }

  // ----- what a writer lays out is what is read -----

  /** An interface description with both clock options. */
  function EncodeInterface(e: Endian, linktype: nat, snaplen: nat, resolution: Byte, offset: Bytes): Bytes
    requires linktype < 0x1_0000 && snaplen < 0x1_0000_0000 && |offset| == 8
  {
    Word(e, linktype) + Word(e, 0) + Long(e, snaplen)
      + EncodeOptions([OptionField(9, [resolution]), OptionField(14, offset)], e)
  }

  lemma ClocksRead(e: Endian, resolution: Byte, offset: Bytes)
    requires |offset| == 8
    ensures var fields := [OptionField(9, [resolution]), OptionField(14, offset)];
            && ReadClocks(fields, e, {}, Clocks(6, 0)) == Clocks(resolution, I64(e, offset))
            && (forall f :: f in fields ==> Encodable(f))
  {
    hide I64;
    var first, second := OptionField(9, [resolution]), OptionField(14, offset);
    var fields := [first, second];
    assert fields[1..] == [second] && [second][1..] == [];
    assert ReadClocks([second], e, {9}, Clocks(resolution, 0))
      == ReadClocks([], e, {9, 14}, Clocks(resolution, I64(e, offset))) by {
      assert {9} + {14} == {9, 14};
    }
    assert {} + {9} == {9};
  }

  /** An interface reads back with its link type, limit and clocks, in either byte order. */
  lemma InterfaceReadsBack(e: Endian, linktype: nat, snaplen: nat, resolution: Byte, offset: Bytes)
    requires linktype < 0x1_0000 && snaplen < 0x1_0000_0000 && |offset| == 8
    ensures DescribeInterface(EncodeInterface(e, linktype, snaplen, resolution, offset), e)
         == Some(Interface(linktype, snaplen, resolution, I64(e, offset)))
  {
    hide U16, U32, I64, Word, Long, ReadClocks, ParseOptions, EncodeOptions, Encodable;
    var fields := [OptionField(9, [resolution]), OptionField(14, offset)];
    ClocksRead(e, resolution, offset);
    OptionsReadBack(fields, e, false);
    var options := EncodeOptions(fields, e);
    var body := EncodeInterface(e, linktype, snaplen, resolution, offset);
    assert options + [] == options;
    assert body[..2] == Word(e, linktype) && body[2..4] == Word(e, 0) && body[4..8] == Long(e, snaplen)
      && body[8..] == options;
  }

  /** An enhanced packet: interface, timestamp, both lengths, padded data, and options. */
  function EncodePacket(e: Endian, id: nat, stamp: Bytes, packet: Bytes, original: nat, fields: seq<OptionField>): Bytes
    requires id < 0x1_0000_0000 && |stamp| == 8 && |packet| < 0x1_0000_0000 && original < 0x1_0000_0000
    requires forall f :: f in fields ==> Encodable(f)
  {
    Long(e, id) + stamp + Long(e, |packet|) + Long(e, original) + packet + seq(Padded(|packet|) - |packet|, i => 0)
      + EncodeOptions(fields, e)
  }

  /** A packet reads back as what was captured: refused when it breaks its interface's limit,
      incomplete when it was cut, and otherwise judged by its own bytes. */
  lemma PacketReadsBack(b: Block, c: Context, id: nat, stamp: Bytes, packet: Bytes, original: nat,
      fields: seq<OptionField>)
    requires id < |c.interfaces| && id < 0x1_0000_0000 && |stamp| == 8
    requires |packet| <= original < 0x1_0000_0000 && forall f :: f in fields ==> Encodable(f)
    requires b.kind == ENHANCED_PACKET && |b.raw| >= 12
      && b.Body() == EncodePacket(b.endian, id, stamp, packet, original, fields)
    ensures JudgePacket(b, c) ==
              var i := c.interfaces[id];
              if i.snaplen != 0 && |packet| > i.snaplen then Rejected
              else if |packet| < original then Packet(TruncatedPacket)
              else Packet(BeaconKind(packet, i.linktype))
  {
    hide U16, U32, Word, Long, ParseOptions, EncodeOptions, Encodable, BeaconKind;
    var e, body, options := b.endian, b.Body(), EncodeOptions(fields, b.endian);
    OptionsReadBack(fields, e, false);
    assert options + [] == options;
    var end := 20 + Padded(|packet|);
    assert body[..4] == Long(e, id) && body[12..16] == Long(e, |packet|) && body[16..20] == Long(e, original);
    assert body[20..20 + |packet|] == packet && body[end..] == options;
  }

  /** Behind a radiotap header whose presence words end within it, a frame is judged as if it had
      been captured without one. */
  lemma RadiotapIsTransparent(header: Bytes, frame: Bytes)
    requires |header| >= 8 && header[0] == 0 && U16(Little, header[2..4]) == |header|
      && PresenceEnds(header, 4, |header|)
    ensures BeaconKind(header + frame, RADIOTAP) == BeaconKind(frame, IEEE802_11)
  {
    var packet := header + frame;
    assert packet[2..4] == header[2..4] && packet[|header|..] == frame;
    PresenceAppended(header, frame, 4);
  }

  lemma {:induction false} PresenceAppended(header: Bytes, frame: Bytes, at: nat)
    requires at + 4 <= |header|
    ensures PresenceEnds(header + frame, at, |header|) == PresenceEnds(header, at, |header|)
    decreases |header| - at
  {
    hide U32;
    assert (header + frame)[at..at + 4] == header[at..at + 4];
    if at + 8 <= |header| { PresenceAppended(header, frame, at + 4); }
  }

  // ----- the blocks a reader yields, read again -----

  ghost predicate WellFormed(b: Block, max: nat) {
    && 12 <= |b.raw| <= max && |b.raw| % 4 == 0
    && b.kind == U32(b.endian, b.raw[..4])
    && U32(b.endian, b.raw[4..8]) == |b.raw| && U32(b.endian, b.raw[|b.raw| - 4..]) == |b.raw|
    && (IsSection(b.raw) <==> b.kind == SHB)
    && (b.kind == SHB ==>
          |b.raw| >= 28 && MagicEndian(b.raw[8..12]) == Some(b.endian)
          && U16(b.endian, b.raw[12..14]) == 1 && U16(b.endian, b.raw[14..16]) == 0)
  }

  /** Read in the context it was kept in, a block of a section of unspecified length comes
      back unchanged. */
  ghost predicate Rereadable(b: Block, c: Context, max: nat) {
    && WellFormed(b, max)
    && (b.kind == SHB ==> I64(b.endian, b.raw[16..24]) == -1)
    && (b.kind != SHB ==> c.endian == Some(b.endian))
  }

  function Live(c: Context): Reader { Reader(c.endian, None) }

  lemma SectionKind(s: Bytes, e: Endian)
    requires |s| >= 4
    ensures IsSection(s) <==> U32(e, s[..4]) == SHB
  {
    assert s[..4][..2] == [s[0], s[1]] && s[..4][2..] == [s[2], s[3]];
    assert IsSection(s) <==> s[0] == 10 && s[1] == 13 && s[2] == 13 && s[3] == 10;
  }

  lemma ReadIsWellFormed(s: Bytes, r: Reader, max: nat)
    requires ReadBlock(s, r, max).Next?
    ensures WellFormed(ReadBlock(s, r, max).block, max)
  {
    var e := NextEndian(s, r).value;
    var raw := ReadBlock(s, r, max).block.raw;
    SectionKind(raw, e);
    assert raw[4..8] == s[4..8] && raw[..4] == s[..4];
    if IsSection(raw) { assert raw[8..12] == s[8..12]; }
  }

  lemma ReadAgain(b: Block, c: Context, max: nat, tail: Bytes)
    requires Rereadable(b, c, max)
    ensures ReadBlock(b.raw + tail, Live(c), max) == Next(b, Reader(Some(b.endian), None), tail)
  {
    hide I64, U16, U32, MagicEndian;
    var s := b.raw + tail;
    assert s[..4] == b.raw[..4] && s[4..8] == b.raw[4..8] && s[..|b.raw|] == b.raw && s[|b.raw|..] == tail;
    SectionKind(s, b.endian);
    if b.kind == SHB { assert s[8..12] == b.raw[8..12]; }
  }

  lemma OpenEndedSlices(raw: Bytes)
    requires |raw| >= 28
    ensures var o := OpenEnded(raw);
            && o[..4] == raw[..4] && o[4..8] == raw[4..8] && o[8..12] == raw[8..12]
            && o[12..14] == raw[12..14] && o[14..16] == raw[14..16] && o[16..24] == MINUS_ONE
            && o[|o| - 4..] == raw[|raw| - 4..] && o[24..|o| - 4] == raw[24..|raw| - 4]
            && OpenEnded(o) == o
  {}

  lemma OpenEndedWellFormed(b: Block, max: nat)
    requires WellFormed(b, max) && b.kind == SHB
    ensures var o := Block(b.kind, b.endian, OpenEnded(b.raw));
            && WellFormed(o, max) && I64(b.endian, o.raw[16..24]) == -1
            && o.Body()[16..] == b.Body()[16..] && OpenEnded(o.raw) == o.raw
  {
    OpenEndedSlices(b.raw);
    MinusOne(b.endian);
    SectionStart(b.raw, OpenEnded(b.raw));
    hide OpenEnded, U32, U16, I64, MagicEndian, IsSection, MINUS_ONE;
    BodyAfter(b);
    BodyAfter(Block(b.kind, b.endian, OpenEnded(b.raw)));
    hide Block.Body;
  }

  lemma SectionStart(a: Bytes, b: Bytes)
    requires |a| >= 4 && |b| >= 4 && a[..4] == b[..4]
    ensures IsSection(a) == IsSection(b)
  {
    assert forall k :: 0 <= k < 4 ==> a[k] == a[..4][k] && b[k] == b[..4][k];
  }

  lemma BodyAfter(b: Block)
    requires |b.raw| >= 28
    ensures b.Body()[16..] == b.raw[24..|b.raw| - 4]
  {}

  /** A kept block is kept again, with the same bytes, in the same context. */
  lemma KeptAgain(b: Block, c: Context, limit: nat, max: nat)
    requires WellFormed(b, max) && Select(b, c, limit).Keep?
    ensures var k := Select(b, c, limit);
            var o := Block(b.kind, b.endian, k.output);
            && Rereadable(o, c, max) && Select(o, c, limit) == k && k.context.endian == Some(b.endian)
  {
    if b.kind == SHB { OpenEndedWellFormed(b, max); }
  }

  // ----- whole streams -----

  /** What is kept of some blocks, the context then reached, and whether all were accepted. */
  datatype Selected = Selected(kept: seq<Block>, context: Context, ok: bool)

  ghost predicate AllWellFormed(blocks: seq<Block>, max: nat) {
    forall b :: b in blocks ==> WellFormed(b, max)
  }

  ghost function SelectAll(blocks: seq<Block>, c: Context, limit: nat, max: nat): Selected
    requires AllWellFormed(blocks, max)
  {
    if blocks == [] then Selected([], c, true)
    else
      var b := blocks[0];
      assert b in blocks;
      match Select(b, c, limit)
      case Fail => Selected([], c, false)
      case Skip => SelectAll(blocks[1..], c, limit, max)
      case Keep(output, after) =>
        var tail := SelectAll(blocks[1..], after, limit, max);
        tail.(kept := [Block(b.kind, b.endian, output)] + tail.kept)
  }

  lemma {:induction false} BlocksWellFormed(s: Bytes, r: Reader, max: nat)
    ensures AllWellFormed(ReadBlocks(s, r, max).blocks, max)
    decreases |s|
  {
    if ReadBlock(s, r, max).Next? {
      ReadIsWellFormed(s, r, max);
      hide ReadBlock;
      var n := ReadBlock(s, r, max);
      BlocksWellFormed(n.rest, n.reader, max);
    }
  }

  /** The export of a stream: the bytes written, and whether the whole input was accepted. */
  datatype Exported = Exported(bytes: Bytes, ok: bool)

  ghost function Export(s: Bytes, limit: nat, max: nat): Exported {
    BlocksWellFormed(s, START, max);
    var y := ReadBlocks(s, START, max);
    var k := SelectAll(y.blocks, NO_SECTION, limit, max);
    Exported(Concat(Raws(k.kept)), y.ok && k.ok)
  }

  /** The context after a block that is kept unchanged and can be read back. */
  ghost function KeptTo(b: Block, c: Context, limit: nat, max: nat): Option<Context> {
    if Rereadable(b, c, max) && Select(b, c, limit).Keep? && Select(b, c, limit).output == b.raw
    then Some(Select(b, c, limit).context)
    else None
  }

  /** Blocks each kept unchanged, in turn, from one context to another. */
  ghost predicate Chain(kept: seq<Block>, c: Context, after: Context, limit: nat, max: nat) {
    if kept == [] then c == after
    else
      var next := KeptTo(kept[0], c, limit, max);
      next.Some? && Chain(kept[1..], next.value, after, limit, max)
  }

  lemma {:induction false} SelectedChain(blocks: seq<Block>, c: Context, limit: nat, max: nat)
    requires AllWellFormed(blocks, max)
    ensures var k := SelectAll(blocks, c, limit, max); Chain(k.kept, c, k.context, limit, max)
  {
    if blocks != [] {
      var b := blocks[0];
      assert b in blocks;
      var s := Select(b, c, limit);
      if s.Skip? {
        SelectedChain(blocks[1..], c, limit, max);
      } else if s.Keep? {
        SelectedChain(blocks[1..], s.context, limit, max);
        KeptAgain(b, c, limit, max);
        var k := SelectAll(blocks, c, limit, max);
        assert k.kept[0] == Block(b.kind, b.endian, s.output);
        assert k.kept[1..] == SelectAll(blocks[1..], s.context, limit, max).kept;
      }
    }
  }

  lemma KeptToFacts(b: Block, c: Context, limit: nat, max: nat)
    requires KeptTo(b, c, limit, max).Some?
    ensures WellFormed(b, max) && Rereadable(b, c, max)
    ensures Select(b, c, limit) == Keep(b.raw, KeptTo(b, c, limit, max).value)
    ensures KeptTo(b, c, limit, max).value.endian == Some(b.endian)
  {
    KeptAgain(b, c, limit, max);
  }

  lemma {:induction false} ChainWellFormed(kept: seq<Block>, c: Context, after: Context, limit: nat, max: nat)
    requires Chain(kept, c, after, limit, max)
    ensures AllWellFormed(kept, max)
    ensures kept != [] ==> after.endian.Some?
  {
    hide KeptTo, WellFormed, Select, Rereadable;
    if kept != [] {
      KeptToFacts(kept[0], c, limit, max);
      ChainWellFormed(kept[1..], KeptTo(kept[0], c, limit, max).value, after, limit, max);
      assert kept == [kept[0]] + kept[1..];
    }
  }

  lemma NothingRead(c: Context, max: nat)
    ensures ReadBlocks(Concat(Raws([])), Live(c), max) == Yield([], c.endian.Some?)
  {}

  /** A chain's bytes are read back as the chain. */
  lemma {:induction false} ChainReadsBack(kept: seq<Block>, c: Context, after: Context, limit: nat, max: nat)
    requires Chain(kept, c, after, limit, max)
    ensures ReadBlocks(Concat(Raws(kept)), Live(c), max) == Yield(kept, after.endian.Some?)
  {
    hide KeptTo, Select, ReadBlock, WellFormed, Rereadable;
    NothingRead(c, max);
    if kept != [] {
      KeptToFacts(kept[0], c, limit, max);
      var b, next := kept[0], KeptTo(kept[0], c, limit, max).value;
      ChainReadsBack(kept[1..], next, after, limit, max);
      KeptBytes(b, kept[1..]);
      ReadAgain(b, c, max, Concat(Raws(kept[1..])));
      assert kept == [b] + kept[1..];
    }
  }

  lemma KeptBytes(b: Block, rest: seq<Block>)
    ensures Concat(Raws([b] + rest)) == b.raw + Concat(Raws(rest))
  {
    assert Raws([b] + rest)[1..] == Raws(rest);
  }

  /** A chain is kept whole. */
  lemma {:induction false} ChainKept(kept: seq<Block>, c: Context, after: Context, limit: nat, max: nat)
    requires Chain(kept, c, after, limit, max) && AllWellFormed(kept, max)
    ensures SelectAll(kept, c, limit, max) == Selected(kept, after, true)
  {
    hide KeptTo, Select, WellFormed, Rereadable, AllWellFormed;
    if kept != [] {
      var b, next := kept[0], KeptTo(kept[0], c, limit, max).value;
      KeptToFacts(b, c, limit, max);
      TailWellFormed(kept, max);
      ChainKept(kept[1..], next, after, limit, max);
      assert kept == [b] + kept[1..] && Block(b.kind, b.endian, b.raw) == b;
    }
  }

  lemma TailWellFormed(blocks: seq<Block>, max: nat)
    requires AllWellFormed(blocks, max) && blocks != []
    ensures AllWellFormed(blocks[1..], max)
  {
    hide WellFormed;
    assert forall b :: b in blocks[1..] ==> b in blocks;
  }

  /** Whatever was exported, however the input ended, exports again to the very same bytes. */
  lemma ExportIdempotent(s: Bytes, limit: nat, max: nat)
    ensures var out := Export(s, limit, max);
            (out.bytes != [] ==> Export(out.bytes, limit, max) == Exported(out.bytes, true))
            && (out.ok ==> out.bytes != [])
  {
    hide ReadBlocks, SelectAll, Chain, Raws, Concat, Select, AllWellFormed;
    if Export(s, limit, max).ok { FirstIsSection(s, limit, max); }
    var y := ReadBlocks(s, START, max);
    BlocksWellFormed(s, START, max);
    SelectedChain(y.blocks, NO_SECTION, limit, max);
    var k := SelectAll(y.blocks, NO_SECTION, limit, max);
    ChainWellFormed(k.kept, NO_SECTION, k.context, limit, max);
    ChainReadsBack(k.kept, NO_SECTION, k.context, limit, max);
    ChainKept(k.kept, NO_SECTION, k.context, limit, max);
    BlocksWellFormed(Concat(Raws(k.kept)), START, max);
    NoBytes();
  }

  lemma NoBytes()
    ensures Concat(Raws([])) == []
  {}

  /** An accepted input starts with a section header, and that is kept. */
  lemma FirstIsSection(s: Bytes, limit: nat, max: nat)
    requires Export(s, limit, max).ok
    ensures Export(s, limit, max).bytes != []
  {
    BlocksWellFormed(s, START, max);
    var y := ReadBlocks(s, START, max);
    var b := y.blocks[0];
    var k := SelectAll(y.blocks, NO_SECTION, limit, max);
    assert b in y.blocks && Select(b, NO_SECTION, limit).Keep?;
    assert Raws(k.kept)[0] == k.kept[0].raw;
  }

  // ----- standalone segments -----

  lemma {:induction false} ChainJoins(a: seq<Block>, b: seq<Block>, c: Context, mid: Context, after: Context,
      limit: nat, max: nat)
    requires Chain(a, c, mid, limit, max) && Chain(b, mid, after, limit, max)
    ensures Chain(a + b, c, after, limit, max)
  {
    hide KeptTo;
    if a == [] {
      assert a + b == b;
    } else {
      ChainJoins(a[1..], b, KeptTo(a[0], c, limit, max).value, mid, after, limit, max);
      assert (a + b)[1..] == a[1..] + b;
    }
  }

  /** A packet kept in a context, and read there. */
  ghost predicate KeptIn(p: Block, c: Context, limit: nat, max: nat) {
    Rereadable(p, c, max) && IsPacket(p.kind) && Select(p, c, limit) == Keep(p.raw, c)
  }

  lemma {:induction false} PacketsChain(packets: seq<Block>, c: Context, limit: nat, max: nat)
    requires forall p :: p in packets ==> KeptIn(p, c, limit, max)
    ensures Chain(packets, c, c, limit, max)
  {
    if packets != [] {
      assert packets[0] in packets;
      assert forall p :: p in packets[1..] ==> p in packets;
      PacketsChain(packets[1..], c, limit, max);
    }
  }

  /** The byte order and the interfaces in which the k-th block of a stream is met. */
  ghost function ContextBefore(s: Bytes, k: nat, limit: nat, max: nat): Context
    requires k <= |ReadBlocks(s, START, max).blocks|
  {
    BlocksWellFormed(s, START, max);
    SelectAll(ReadBlocks(s, START, max).blocks[..k], NO_SECTION, limit, max).context
  }

  /** The interface a packet names is one of a context's. */
  ghost predicate NamesInterface(p: Block, c: Context) {
    |p.raw| >= 12 && |p.Body()| >= 20 && InterfaceId(p.kind, p.Body(), p.endian) < |c.interfaces|
  }

  /** As the block at some place of a stream, a packet is met in a given context, and names one of
      its interfaces. */
  ghost predicate ReadUnder(s: Bytes, at: nat, p: Block, c: Context, limit: nat, max: nat) {
    && at < |ReadBlocks(s, START, max).blocks| && ReadBlocks(s, START, max).blocks[at] == p
    && ContextBefore(s, at, limit, max) == c && NamesInterface(p, c)
  }

  lemma PacketRead(s: Bytes, at: nat, c: Context, limit: nat, max: nat)
    requires var blocks := ReadBlocks(s, START, max).blocks;
      at < |blocks| && Chain(blocks[..at], NO_SECTION, c, limit, max) && KeptIn(blocks[at], c, limit, max)
    ensures ReadUnder(s, at, ReadBlocks(s, START, max).blocks[at], c, limit, max)
  {
    hide Chain, ReadBlocks, KeptIn, AllWellFormed, SelectAll, NamesInterface;
    var blocks := ReadBlocks(s, START, max).blocks;
    ChainWellFormed(blocks[..at], NO_SECTION, c, limit, max);
    ChainKept(blocks[..at], NO_SECTION, c, limit, max);
    KeptNames(blocks[at], c, limit, max);
  }

  lemma ChainUpTo(header: seq<Block>, packets: seq<Block>, k: nat, c: Context, limit: nat, max: nat)
    requires Chain(header, NO_SECTION, c, limit, max)
    requires (forall p :: p in packets ==> KeptIn(p, c, limit, max)) && k <= |packets|
    ensures Chain((header + packets)[..|header| + k], NO_SECTION, c, limit, max)
  {
    hide Chain, KeptIn;
    assert (header + packets)[..|header| + k] == header + packets[..k];
    assert forall p :: p in packets[..k] ==> p in packets;
    PacketsChain(packets[..k], c, limit, max);
    ChainJoins(header, packets[..k], NO_SECTION, c, c, limit, max);
  }

  lemma KeptNames(p: Block, c: Context, limit: nat, max: nat)
    requires KeptIn(p, c, limit, max)
    ensures NamesInterface(p, c)
  {
    KeptIsBeacon(p, c, limit);
  }

  /** A context's blocks followed by packets kept in exactly that context: the bytes form a capture
      of their own, which exporting does not change, and in it each packet meets the byte order and
      the interfaces it was kept in, and names one of them. */
  lemma SegmentStandsAlone(header: seq<Block>, packets: seq<Block>, c: Context, limit: nat, max: nat)
    requires Chain(header, NO_SECTION, c, limit, max) && c.endian.Some?
    requires forall p :: p in packets ==> KeptIn(p, c, limit, max)
    ensures var bytes := Concat(Raws(header)) + Concat(Raws(packets));
            && ReadBlocks(bytes, START, max) == Yield(header + packets, true)
            && Export(bytes, limit, max) == Exported(bytes, true)
            && forall k :: 0 <= k < |packets| ==> ReadUnder(bytes, |header| + k, packets[k], c, limit, max)
  {
    hide Chain, ReadBlocks, Raws, Concat, KeptIn, AllWellFormed, ReadUnder, Export;
    PacketsChain(packets, c, limit, max);
    ChainJoins(header, packets, NO_SECTION, c, c, limit, max);
    var blocks, bytes := header + packets, Concat(Raws(header)) + Concat(Raws(packets));
    RawsSplit(header, packets);
    ConcatSplit(Raws(header), Raws(packets));
    ChainExports(blocks, c, limit, max);
    forall k | 0 <= k < |packets| ensures ReadUnder(bytes, |header| + k, packets[k], c, limit, max) {
      ChainUpTo(header, packets, k, c, limit, max);
      assert blocks[|header| + k] == packets[k] && packets[k] in packets;
      PacketRead(bytes, |header| + k, c, limit, max);
    }
  }

  lemma RawsSplit(a: seq<Block>, b: seq<Block>)
    ensures Raws(a + b) == Raws(a) + Raws(b)
  {}

  lemma ChainExports(blocks: seq<Block>, c: Context, limit: nat, max: nat)
    requires Chain(blocks, NO_SECTION, c, limit, max) && c.endian.Some?
    ensures var bytes := Concat(Raws(blocks));
            ReadBlocks(bytes, START, max) == Yield(blocks, true) && Export(bytes, limit, max) == Exported(bytes, true)
  {
    hide Chain, ReadBlocks, SelectAll, Raws, Concat, AllWellFormed;
    ChainReadsBack(blocks, NO_SECTION, c, limit, max);
    ChainWellFormed(blocks, NO_SECTION, c, limit, max);
    ChainKept(blocks, NO_SECTION, c, limit, max);
  }

  // ----- the filter object and the writing loop -----

  datatype Stats = Stats(
    sections: nat, interfaces: nat, packetBlocks: nat, beacons: nat, nonBeacons: nat, truncated: nat,
    unsupported: nat, malformed: nat, untimestamped: nat, metadata: nat, selectedBytes: nat)
  {
    /** Every packet block is counted under exactly one outcome. */
    predicate Balanced() {
      packetBlocks == beacons + nonBeacons + truncated + unsupported + malformed + untimestamped
    }
  }

  function CountKind(s: Stats, k: Kind): Stats {
    match k
    case Beacon => s.(beacons := s.beacons + 1)
    case NonBeacon => s.(nonBeacons := s.nonBeacons + 1)
    case TruncatedPacket => s.(truncated := s.truncated + 1)
    case UnsupportedLink => s.(unsupported := s.unsupported + 1)
    case MalformedPacket => s.(malformed := s.malformed + 1)
    case Untimestamped => s.(untimestamped := s.untimestamped + 1)
  }

  function KindCount(s: Stats, k: Kind): nat {
    match k
    case Beacon => s.beacons
    case NonBeacon => s.nonBeacons
    case TruncatedPacket => s.truncated
    case UnsupportedLink => s.unsupported
    case MalformedPacket => s.malformed
    case Untimestamped => s.untimestamped
  }

  class Filter {
    const limit: nat
    var interfaces: seq<Interface>
    var endian: Option<Endian>
    var stats: Stats

    function Here(): Context
      reads this
    {
      Context(endian, interfaces)
    }

    constructor (maxInterfaces: nat)
      ensures limit == maxInterfaces && Here() == NO_SECTION
      ensures stats == Stats(0, 0, 0, 0, 0, 0, 0, 0, 0, 0, 0) && stats.Balanced()
    {
      limit := maxInterfaces;
      interfaces, endian := [], None;
      stats := Stats(0, 0, 0, 0, 0, 0, 0, 0, 0, 0, 0);
    }

    /** On a rejected block neither the byte order nor the interfaces change. Each counter counts what it
        is named for. */
    method Take(b: Block) returns (s: Selection)
      requires |b.raw| >= 12 && (b.kind == SHB ==> |b.raw| >= 28)
      modifies this
      ensures s == Select(b, old(Here()), limit)
      ensures Here() == if s.Keep? then s.context else old(Here())
      ensures !s.Fail? && old(stats.Balanced()) ==> stats.Balanced()
      ensures stats.selectedBytes == old(stats.selectedBytes) + if s.Keep? then |s.output| else 0
      ensures stats.sections == old(stats.sections) + if s.Keep? && b.kind == SHB then 1 else 0
      ensures stats.interfaces == old(stats.interfaces) + if s.Keep? && b.kind == IDB then 1 else 0
      ensures stats.metadata == old(stats.metadata) + if s.Skip? && !IsPacket(b.kind) then 1 else 0
      ensures forall k :: KindCount(stats, k) == old(KindCount(stats, k))
                + if IsPacket(b.kind) && old(endian) == Some(b.endian) && JudgePacket(b, old(Here())) == Packet(k)
                  then 1 else 0
    {
      hide JudgePacket, DescribeInterface, OpenEnded, ParseOptions;
      if b.kind == SHB {
        var o := ReadOptions(b.Body()[16..], b.endian);
        if o.Malformed? { return Fail; }
        endian, interfaces := Some(b.endian), [];
        stats := stats.(sections := stats.sections + 1, selectedBytes := stats.selectedBytes + |b.raw|);
        return Keep(OpenEnded(b.raw), Here());
      }
      if endian != Some(b.endian) { return Fail; }
      if b.kind == IDB {
        var i := DescribeInterface(b.Body(), b.endian);
        if i.None? || |interfaces| >= limit { return Fail; }
        interfaces := interfaces + [i.value];
        stats := stats.(interfaces := stats.interfaces + 1, selectedBytes := stats.selectedBytes + |b.raw|);
        return Keep(b.raw, Here());
      }
      if !IsPacket(b.kind) {
        stats := stats.(metadata := stats.metadata + 1);
        return Skip;
      }
      var v := JudgePacket(b, Here());
      stats := stats.(packetBlocks := stats.packetBlocks + 1);
      if v.Rejected? { return Fail; }
      stats := CountKind(stats, v.kind);
      if v.kind != Beacon { return Skip; }
      stats := stats.(selectedBytes := stats.selectedBytes + |b.raw|);
      s := Keep(b.raw, Here());
    }
  }

  /** A destination that takes each write in pieces of its own choosing, or stops taking any. */
  class Sink {
    var written: Bytes
    var script: seq<nat>

    constructor (sizes: seq<nat>)
      ensures written == [] && script == sizes
    {
      written, script := [], sizes;
    }

    /** Zero means no progress. */
    method Write(data: Bytes) returns (n: nat)
      requires data != []
      modifies this
      ensures KeepsTaking(old(script)) ==> n > 0 && KeepsTaking(script)
      ensures n <= |data| && written == old(written) + data[..n]
    {
      n := if script == [] || script[0] > |data| then |data| else script[0];
      assert script != [] ==> script[0] in script && forall k :: k in script[1..] ==> k in script;
      if script != [] { script := script[1..]; }
      written := written + data[..n];
    }
  }

  /** A destination of these sizes never stops taking bytes. */
  predicate KeepsTaking(script: seq<nat>) { forall n :: n in script ==> n > 0 }

  method WriteAll(sink: Sink, data: Bytes) returns (ok: bool)
    modifies sink
    ensures KeepsTaking(old(sink.script)) ==> ok && KeepsTaking(sink.script)
    ensures ok ==> sink.written == old(sink.written) + data
    ensures PartWritten(old(sink.written), data, sink.written)
  {
    var at := 0;
    while at < |data|
      invariant 0 <= at <= |data| && sink.written == old(sink.written) + data[..at]
      invariant KeepsTaking(old(sink.script)) ==> KeepsTaking(sink.script)
    {
      var n := sink.Write(data[at..]);
      assert data[..at] + data[at..][..n] == data[..at + n];
      at := at + n;
      if n == 0 { return false; }
    }
    assert data[..at] == data;
    ok := true;
  }

  /** One block through the filter to the sink. */
  method PassBlock(filter: Filter, sink: Sink, b: Block) returns (k: Selection, all: bool)
    requires |b.raw| >= 12 && (b.kind == SHB ==> |b.raw| >= 28)
    modifies filter, sink
    ensures k == Select(b, old(filter.Here()), filter.limit)
    ensures filter.Here() == if k.Keep? then k.context else old(filter.Here())
    ensures !k.Fail? && old(filter.stats.Balanced()) ==> filter.stats.Balanced()
    ensures filter.stats.selectedBytes == old(filter.stats.selectedBytes) + if k.Keep? then |k.output| else 0
    ensures KeepsTaking(old(sink.script)) ==> all && KeepsTaking(sink.script)
    ensures !k.Keep? ==> all && sink.written == old(sink.written)
    ensures k.Keep? && all ==> sink.written == old(sink.written) + k.output
    ensures k.Keep? ==> PartWritten(old(sink.written), k.output, sink.written)
  {
    k := filter.Take(b);
    all := true;
    if k.Keep? { all := WriteAll(sink, k.output); }
  }

  /** Writes what is selected of some blocks. */
  method WriteBlocks(blocks: seq<Block>, ok: bool, sink: Sink, limit: nat, max: nat, ghost whole: Exported)
    returns (accepted: bool, wrote: bool, stats: Stats)
    requires AllWellFormed(blocks, max) && whole == Onward([], ok, blocks, NO_SECTION, limit, max)
    modifies sink
    ensures KeepsTaking(old(sink.script)) ==> wrote
    ensures wrote ==> sink.written == old(sink.written) + whole.bytes && accepted == whole.ok
    ensures wrote && accepted ==> stats.Balanced() && stats.selectedBytes == |whole.bytes|
    ensures PartWritten(old(sink.written), whole.bytes, sink.written)
  {
    hide *;
    var filter := new Filter(limit);
    ghost var base := sink.written;
    var i := 0;
    ghost var done: Bytes := [];
    assert blocks[0..] == blocks;
    while i < |blocks|
      invariant 0 <= i <= |blocks| && AllWellFormed(blocks[i..], max)
      invariant sink.written == base + done && filter.limit == limit
      invariant KeepsTaking(old(sink.script)) ==> KeepsTaking(sink.script)
      invariant whole == Onward(done, ok, blocks[i..], filter.Here(), limit, max)
      invariant filter.stats.Balanced() && filter.stats.selectedBytes == |done|
    {
      assert blocks[i] == blocks[i..][0] && blocks[i..][1..] == blocks[i + 1..];
      OnwardStep(done, ok, blocks[i..], filter.Here(), limit, max);
      var k, all := PassBlock(filter, sink, blocks[i]);
      if k.Fail? || !all {
        if all { AllWritten(base, done); } else { PartialWrite(base, done, k.output, whole.bytes, sink.written); }
        return false, all, filter.stats;
      }
      if k.Keep? { done := done + k.output; }
      i := i + 1;
    }
    assert blocks[i..] == [];
    OnwardEnd(done, ok, filter.Here(), limit, max);
    AllWritten(base, done);
    return ok, true, filter.stats;
  }

  /** Writes the selected blocks of a capture. With a sink that keeps accepting bytes it writes
      exactly the export of the input, and the counters account for every packet and byte. */
  method WriteBeacons(source: Stream, sink: Sink, limit: nat, max: nat)
      returns (accepted: bool, wrote: bool, stats: Stats)
    modifies source, sink
    ensures KeepsTaking(old(sink.script)) ==> wrote
    ensures var whole := Export(old(source.rest), limit, max);
            && (wrote ==> sink.written == old(sink.written) + whole.bytes && accepted == whole.ok)
            && (wrote && accepted ==> stats.Balanced() && stats.selectedBytes == |whole.bytes|)
            && PartWritten(old(sink.written), whole.bytes, sink.written)
  {
    hide *;
    ghost var s := source.rest;
    BlocksWellFormed(s, START, max);
    var blocks, ok := IterBlocks(source, max);
    OnwardStart(s, ok, blocks, limit, max);
    accepted, wrote, stats := WriteBlocks(blocks, ok, sink, limit, max, Export(s, limit, max));
  }

  ghost predicate PartWritten(before: Bytes, data: Bytes, after: Bytes) {
    exists n :: 0 <= n <= |data| && after == before + data[..n]
  }

  /** The export still to come, given what is done. */
  ghost function Onward(done: Bytes, ok: bool, blocks: seq<Block>, c: Context, limit: nat, max: nat): Exported
    requires AllWellFormed(blocks, max)
  {
    var rest := SelectAll(blocks, c, limit, max);
    Exported(done + Concat(Raws(rest.kept)), ok && rest.ok)
  }

  lemma OnwardStart(s: Bytes, ok: bool, blocks: seq<Block>, limit: nat, max: nat)
    requires AllWellFormed(blocks, max) && Yield(blocks, ok) == ReadBlocks(s, START, max)
    ensures Export(s, limit, max) == Onward([], ok, blocks, NO_SECTION, limit, max)
  {
    hide ReadBlocks, SelectAll;
  }

  lemma OnwardEnd(done: Bytes, ok: bool, c: Context, limit: nat, max: nat)
    ensures Onward(done, ok, [], c, limit, max) == Exported(done, ok)
  {
    NoBytes();
  }

  lemma FirstWellFormed(blocks: seq<Block>, max: nat)
    requires AllWellFormed(blocks, max) && blocks != []
    ensures WellFormed(blocks[0], max) && AllWellFormed(blocks[1..], max)
    ensures |blocks[0].raw| >= 12 && (blocks[0].kind == SHB ==> |blocks[0].raw| >= 28)
  {
    assert blocks[0] in blocks;
    assert forall b :: b in blocks[1..] ==> b in blocks;
  }

  lemma OnwardStep(done: Bytes, ok: bool, blocks: seq<Block>, c: Context, limit: nat, max: nat)
    requires AllWellFormed(blocks, max) && blocks != []
    ensures AllWellFormed(blocks[1..], max) && |blocks[0].raw| >= 12
      && (blocks[0].kind == SHB ==> |blocks[0].raw| >= 28)
    ensures var s, now := Select(blocks[0], c, limit), Onward(done, ok, blocks, c, limit, max);
            && (s.Fail? ==> now == Exported(done, false))
            && (s.Skip? ==> now == Onward(done, ok, blocks[1..], c, limit, max))
            && (s.Keep? ==>
                  && now == Onward(done + s.output, ok, blocks[1..], s.context, limit, max)
                  && done + s.output <= now.bytes)
  {
    hide Select, Concat, Raws, AllWellFormed, WellFormed;
    FirstWellFormed(blocks, max);
    NoBytes();
    var s := Select(blocks[0], c, limit);
    if s.Keep? {
      var b, rest := Block(blocks[0].kind, blocks[0].endian, s.output),
        SelectAll(blocks[1..], s.context, limit, max).kept;
      KeptBytes(b, rest);
      assert done + (s.output + Concat(Raws(rest))) == done + s.output + Concat(Raws(rest));
    }
  }

  lemma AllWritten(base: Bytes, done: Bytes)
    ensures PartWritten(base, done, base + done)
  {
    assert done[..|done|] == done;
  }

  lemma PartialWrite(base: Bytes, done: Bytes, data: Bytes, whole: Bytes, written: Bytes)
    requires PartWritten(base + done, data, written) && done + data <= whole
    ensures PartWritten(base, whole, written)
  {
    var n :| 0 <= n <= |data| && written == base + done + data[..n];
    assert whole[..|done| + n] == (done + data)[..|done| + n] == done + data[..n];
    assert written == base + whole[..|done| + n];
  }
}
