/** The transparent fan-out of a capture: every original block goes to the decoder first, whatever
    the beacon export makes of it. */
module PacketSource {
  import opened Bytes
  import opened Pcapng
  import opened BeaconFilter
  import opened BeaconWriter
  import Live = BeaconExport

  /** One block to the decoder, then to the exporter, which cannot hold it up. */
  method ForwardBlock(b: Block, decoder: Sink, exporter: Live.BeaconExport?) returns (all: bool)
    requires WellFormed(b, BLOCK_LIMIT) && (exporter != null ==> exporter.Valid())
    modifies decoder, exporter, if exporter == null then {} else {exporter.selector}
    ensures exporter != null ==> exporter.Valid()
    ensures PartWritten(old(decoder.written), b.raw, decoder.written)
    ensures all ==> decoder.written == old(decoder.written) + b.raw
    ensures KeepsTaking(old(decoder.script)) ==> all && KeepsTaking(decoder.script)
  {
    hide *;
    all := WriteAll(decoder, b.raw);
    if all && exporter != null { exporter.Offer(b); }
  }

  /** The decoder receives the capture unchanged: all of it when the capture is well formed, and
      otherwise everything before the first fault; a stalled decoder receives a part of that. */
  method ForwardPackets(source: Stream, decoder: Sink, exporter: Live.BeaconExport?) returns (ok: bool, stalled: bool)
    requires exporter != null ==> exporter.Valid()
    modifies source, decoder, exporter, if exporter == null then {} else {exporter.selector}
    ensures exporter != null ==> exporter.Valid()
    ensures (KeepsTaking(old(decoder.script)) ==> !stalled) && (stalled ==> !ok)
    ensures var y := ReadBlocks(old(source.rest), START, 4 * 1024 * 1024);
            && (!stalled ==> ok == y.ok && decoder.written == old(decoder.written) + Concat(Raws(y.blocks)))
            && (ok ==> decoder.written == old(decoder.written) + old(source.rest))
            && PartWritten(old(decoder.written), old(source.rest), decoder.written)
  {
    hide ReadBlock, WellFormed, Raws, Concat, Live.BeaconExport.Valid;
    ghost var s, base := source.rest, decoder.written;
    ghost var blocks: seq<Block> := [];
    var r := START;
    NoBytes();
    Lossless(s, START, BLOCK_LIMIT);
    ok, stalled := false, false;
    while true
      invariant exporter != null ==> exporter.Valid()
      invariant ReadBlocks(s, START, BLOCK_LIMIT) == Then(blocks, ReadBlocks(source.rest, r, BLOCK_LIMIT))
      invariant decoder.written == base + Concat(Raws(blocks)) && !stalled && !ok
      invariant KeepsTaking(old(decoder.script)) ==> KeepsTaking(decoder.script)
      decreases |source.rest|
    {
      ghost var before := source.rest;
      var n := NextBlock(source, r, BLOCK_LIMIT);
      if !n.Next? {
        assert ReadBlocks(before, r, BLOCK_LIMIT) == Yield([], n.End?);
        assert blocks + [] == blocks;
        ok := n.End?;
        break;
      }
      ReadIsWellFormed(before, r, BLOCK_LIMIT);
      assert ReadBlocks(before, r, BLOCK_LIMIT) == Then([n.block], ReadBlocks(source.rest, n.reader, BLOCK_LIMIT));
      Associative(blocks, [n.block], ReadBlocks(source.rest, n.reader, BLOCK_LIMIT).blocks);
      var all := ForwardBlock(n.block, decoder, exporter);
      BytesSnoc(blocks, n.block);
      if !all {
        stalled := true;
        PartForwarded(base, blocks, n.block, ReadBlocks(s, START, BLOCK_LIMIT).blocks, s, decoder.written);
        return;
      }
      blocks, r := blocks + [n.block], n.reader;
    }
    AllForwarded(base, Concat(Raws(blocks)), s);
  }

  lemma AllForwarded(base: Bytes, sent: Bytes, s: Bytes)
    requires sent <= s
    ensures PartWritten(base, s, base + sent)
  {
    assert s[..|sent|] == sent;
  }

  lemma PartForwarded(base: Bytes, blocks: seq<Block>, b: Block, yielded: seq<Block>, s: Bytes, written: Bytes)
    requires blocks + [b] <= yielded && Concat(Raws(yielded)) <= s
    requires PartWritten(base + Concat(Raws(blocks)), b.raw, written)
    ensures PartWritten(base, s, written)
  {
    var rest := yielded[|blocks| + 1..];
    assert yielded == blocks + [b] + rest;
    RawsSplit(blocks + [b], rest);
    ConcatSplit(Raws(blocks + [b]), Raws(rest));
    BytesSnoc(blocks, b);
    hide Raws, Concat;
    PartialWrite(base, Concat(Raws(blocks)), b.raw, s, written);
  }
}
