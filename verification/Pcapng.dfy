/** Bounded reading of pcapng blocks: section header (section 4.1 of draft-ietf-opsawg-pcapng)
    and general block structure (section 3.1). */
module Pcapng {
  import opened Wrappers
  import opened Bytes

  const SHB: nat := 0x0A0D0D0A
  const SECTION_TYPE: Bytes := [0x0A, 0x0D, 0x0D, 0x0A]
  const LITTLE_MAGIC: Bytes := [0x4D, 0x3C, 0x2B, 0x1A]
  const BIG_MAGIC: Bytes := [0x1A, 0x2B, 0x3C, 0x4D]

  datatype Block = Block(kind: nat, endian: Endian, raw: Bytes) {
    /** Between the leading type and length words and the trailing length word. */
    function Body(): Bytes
      requires |raw| >= 12
    {
      raw[8..|raw| - 4]
    }
  }

  /** The reader's section byte order, and what is left of a section of declared length. */
  datatype Reader = Reader(endian: Option<Endian>, remaining: Option<int>)

  const START: Reader := Reader(None, None)

  datatype Next = End | Bad | Next(block: Block, reader: Reader, rest: Bytes)

  predicate AtSectionEnd(r: Reader) { r.remaining.None? || r.remaining.value == 0 }

  function MagicEndian(magic: Bytes): Option<Endian> {
    if magic == LITTLE_MAGIC then Some(Little) else if magic == BIG_MAGIC then Some(Big) else None
  }

  predicate IsSection(s: Bytes) { |s| >= 4 && s[..4] == SECTION_TYPE }

  /** The byte order of the next block: its own for a section header, else the section's. */
  function NextEndian(s: Bytes, r: Reader): Option<Endian>
    requires |s| >= 8
  {
    if !IsSection(s) then r.endian
    else if !AtSectionEnd(r) || |s| < 12 then None
    else MagicEndian(s[8..12])
  }

  predicate SizeAllowed(section: bool, size: nat, r: Reader, max: nat) {
    && size >= (if section then 28 else 12) && size % 4 == 0 && size <= max
    && (section || r.remaining.None? || size <= r.remaining.value)
  }

  /** The reader after a block, if the block's own fields are valid. */
  function AfterBlock(raw: Bytes, e: Endian, r: Reader): Option<Reader>
    requires |raw| >= 12 && (IsSection(raw) ==> |raw| >= 28)
  {
    if U32(e, raw[|raw| - 4..]) != |raw| then None
    else if IsSection(raw) then
      var length := I64(e, raw[16..24]);
      if U16(e, raw[12..14]) != 1 || U16(e, raw[14..16]) != 0 then None
      else if length < -1 || (length >= 0 && length % 4 != 0) then None
      else Some(Reader(Some(e), if length == -1 then None else Some(length)))
    else Some(Reader(Some(e), if r.remaining.None? then None else Some(r.remaining.value - |raw|)))
  }

  function ReadBlock(s: Bytes, r: Reader, max: nat): (n: Next)
    ensures n.Next? ==> |n.rest| < |s| && n.block.raw + n.rest == s && |n.block.raw| >= 12
    ensures n.End? ==> s == []
  {
    if s == [] then (if r.endian.Some? && AtSectionEnd(r) then End else Bad)
    else if |s| < 8 then Bad
    else
      var e := NextEndian(s, r);
      if e.None? then Bad
      else
        var kind, size := U32(e.value, s[..4]), U32(e.value, s[4..8]);
        if !SizeAllowed(IsSection(s), size, r, max) || |s| < size then Bad
        else
          var raw := s[..size];
          assert raw[..4] == s[..4];
          var after := AfterBlock(raw, e.value, r);
          if after.None? then Bad else Next(Block(kind, e.value, raw), after.value, s[size..])
  }

  /** The blocks a reader yields, and whether it reaches the end of the input without error. */
  datatype Yield = Yield(blocks: seq<Block>, ok: bool)

  function ReadBlocks(s: Bytes, r: Reader, max: nat): Yield
    decreases |s|
  {
    match ReadBlock(s, r, max)
    case End => Yield([], true)
    case Bad => Yield([], false)
    case Next(b, after, rest) =>
      var tail := ReadBlocks(rest, after, max);
      Yield([b] + tail.blocks, tail.ok)
  }

  function Then(blocks: seq<Block>, y: Yield): Yield { Yield(blocks + y.blocks, y.ok) }

  function Raws(blocks: seq<Block>): (r: seq<Bytes>)
    ensures |r| == |blocks|
  {
    seq(|blocks|, i requires 0 <= i < |blocks| => blocks[i].raw)
  }

  /** Nothing is lost or changed: what is yielded is a prefix of the input, and all of it when
      the input is accepted. */
  lemma {:induction false} Lossless(s: Bytes, r: Reader, max: nat)
    ensures var y := ReadBlocks(s, r, max);
            Concat(Raws(y.blocks)) <= s && (y.ok ==> Concat(Raws(y.blocks)) == s)
    decreases |s|
  {
    hide ReadBlock;
    var n := ReadBlock(s, r, max);
    if n.Next? {
      Lossless(n.rest, n.reader, max);
      var tail := ReadBlocks(n.rest, n.reader, max);
      assert Raws([n.block] + tail.blocks)[1..] == Raws(tail.blocks);
    }
  }

  // ----- reading a stream in arbitrary pieces -----

  /** A blocking byte stream; each read returns a piece whose size the script decides. */
  class Stream {
    var rest: Bytes
    var script: seq<nat>

    constructor (data: Bytes, sizes: seq<nat>)
      ensures rest == data && script == sizes
    {
      rest, script := data, sizes;
    }

    method Read(n: nat) returns (chunk: Bytes)
      requires n > 0
      modifies this
      ensures |chunk| <= n && old(rest) == chunk + rest
      ensures chunk == [] <==> old(rest) == []
    {
      var most := if n < |rest| then n else |rest|;
      var size := if script == [] then most else if script[0] < 1 then 1 else script[0];
      if size > most { size := most; }
      if script != [] { script := script[1..]; }
      chunk, rest := rest[..size], rest[size..];
    }
  }

  /** Collects exactly n bytes, or as many as the stream still has. */
  method ReadExact(stream: Stream, n: nat) returns (data: Bytes)
    modifies stream
    ensures old(stream.rest) == data + stream.rest
    ensures |data| == if n <= |old(stream.rest)| then n else |old(stream.rest)|
  {
    data := [];
    while |data| < n
      invariant |data| <= n && old(stream.rest) == data + stream.rest
      decreases n - |data|
    {
      var chunk := stream.Read(n - |data|);
      if chunk == [] { break; }
      data := data + chunk;
    }
  }

  /** One block from the stream, or none at the end or at an error. */
  method NextBlock(stream: Stream, r: Reader, max: nat) returns (n: Next)
    modifies stream
    ensures match ReadBlock(old(stream.rest), r, max)
            case End => n.End?
            case Bad => n.Bad?
            case Next(b, after, rest) => n == Next(b, after, rest) && stream.rest == rest
  {
    hide AfterBlock, U32, U16, I64, MagicEndian;
    ghost var s := stream.rest;
    var header := ReadExact(stream, 8);
    if header == [] { return if r.endian.Some? && AtSectionEnd(r) then End else Bad; }
    if |header| < 8 { return Bad; }
    HeaderSlices(header, [], stream.rest);
    assert [] + stream.rest == stream.rest;
    var prefix, section, e := header, IsSection(header), r.endian;
    if section {
      if !AtSectionEnd(r) { return Bad; }
      var magic := ReadExact(stream, 4);
      if |magic| < 4 { return Bad; }
      HeaderSlices(header, magic, stream.rest);
      prefix := prefix + magic;
      e := MagicEndian(magic);
    }
    assert s == prefix + stream.rest;
    assert e == NextEndian(s, r) && section == IsSection(s);
    if e.None? { return Bad; }
    var kind, size := U32(e.value, header[..4]), U32(e.value, header[4..8]);
    if !SizeAllowed(section, size, r, max) { return Bad; }
    var more := ReadExact(stream, size - |prefix|);
    if |prefix| + |more| < size { return Bad; }
    var raw := prefix + more;
    RawSlices(prefix, more, stream.rest);
    assert raw == s[..size] && stream.rest == s[size..];
    var after := AfterBlock(raw, e.value, r);
    if after.None? { return Bad; }
    n := Next(Block(kind, e.value, raw), after.value, stream.rest);
  }

  lemma HeaderSlices(header: Bytes, magic: Bytes, rest: Bytes)
    requires |header| == 8
    ensures var s := header + (magic + rest);
            && s[..4] == header[..4] && s[4..8] == header[4..8] && s[8..] == magic + rest
            && (|magic| == 4 ==> s[8..12] == magic && s == header + magic + rest)
  {
    assert (magic + rest)[..|magic|] == magic;
  }

  lemma RawSlices(prefix: Bytes, more: Bytes, rest: Bytes)
    requires |prefix| >= 4
    ensures var s, raw := prefix + (more + rest), prefix + more;
            s == raw + rest && s[..|raw|] == raw && s[|raw|..] == rest && raw[..4] == s[..4]
  {}

  /** The blocks of a stream do not depend on the sizes of its reads. */
  method IterBlocks(stream: Stream, max: nat) returns (blocks: seq<Block>, ok: bool)
    modifies stream
    ensures Yield(blocks, ok) == ReadBlocks(old(stream.rest), START, max)
  {
    blocks := [];
    if max < 28 { return [], false; }
    hide ReadBlock;
    var r := START;
    ghost var s := stream.rest;
    while true
      invariant ReadBlocks(s, START, max) == Then(blocks, ReadBlocks(stream.rest, r, max))
      decreases |stream.rest|
    {
      ghost var before := stream.rest;
      var n := NextBlock(stream, r, max);
      if !n.Next? {
        assert ReadBlocks(before, r, max) == Yield([], n.End?);
        return blocks, n.End?;
      }
      assert ReadBlocks(before, r, max) == Then([n.block], ReadBlocks(stream.rest, n.reader, max));
      Associative(blocks, [n.block], ReadBlocks(stream.rest, n.reader, max).blocks);
      blocks, r := blocks + [n.block], n.reader;
    }
  }
}
