/** The framed local socket: length-prefixed messages, at most one partly written message and one
    latest message behind it, arbitrary partial sends and chunked reads. */
module Ipc {
  import opened Wrappers
  import opened Bytes

  const MAX_MESSAGE_BYTES: nat := 8 * 1024 * 1024
  const CHUNK: nat := 65536
  const READS: nat := 4

  predicate SizeOk(n: nat) { 0 < n <= MAX_MESSAGE_BYTES }

  function Frame(m: Bytes): Bytes
    requires SizeOk(|m|)
  {
    Long(Big, |m|) + m
  }

  // ----- reading frames -----

  /** The messages found in some bytes, the incomplete rest, and whether every length was valid. */
  datatype Parsed = Parsed(messages: seq<Bytes>, rest: Bytes, ok: bool)

  function Parse(s: Bytes): (p: Parsed)
    ensures |p.rest| <= |s|
    decreases |s|
  {
    if |s| < 4 then Parsed([], s, true)
    else
      var size := U32(Big, s[..4]);
      if !SizeOk(size) then Parsed([], s, false)
      else if |s| < size + 4 then Parsed([], s, true)
      else Then([s[4..size + 4]], Parse(s[size + 4..]))
  }

  /** A message found is not empty, and no longer than eight mebibytes. */
  lemma {:induction false} FoundAreSized(s: Bytes)
    ensures forall m :: m in Parse(s).messages ==> 0 < |m| <= 8 * 1024 * 1024
    decreases |s|
  {
    if |s| >= 4 {
      var size := U32(Big, s[..4]);
      if SizeOk(size) && |s| >= size + 4 { FoundAreSized(s[size + 4..]); }
    }
  }

  function Then(messages: seq<Bytes>, p: Parsed): Parsed { p.(messages := messages + p.messages) }

  /** Reading in two pieces finds the same messages as reading at once. */
  lemma {:induction false} ParseSplit(a: Bytes, b: Bytes)
    ensures Parse(a).ok ==> Parse(a + b) == Then(Parse(a).messages, Parse(Parse(a).rest + b))
    ensures !Parse(a).ok ==> !Parse(a + b).ok
    decreases |a|
  {
    hide U32;
    var p := Parse(a);
    if |a| >= 4 {
      assert (a + b)[..4] == a[..4];
      var size := U32(Big, a[..4]);
      if SizeOk(size) && |a| >= size + 4 {
        assert (a + b)[4..size + 4] == a[4..size + 4] && (a + b)[size + 4..] == a[size + 4..] + b;
        ParseSplit(a[size + 4..], b);
        Associative([a[4..size + 4]], Parse(a[size + 4..]).messages, Parse(p.rest + b).messages);
      } else {
        assert Then([], Parse(a + b)) == Parse(a + b);
      }
    } else {
      assert Then([], Parse(a + b)) == Parse(a + b);
    }
  }

  /** What is left after reading holds no complete message. */
  predicate Incomplete(s: Bytes) { Parse(s) == Parsed([], s, true) }

  lemma {:induction false} RestIncomplete(s: Bytes)
    requires Parse(s).ok
    ensures Incomplete(Parse(s).rest)
    decreases |s|
  {
    if |s| >= 4 {
      var size := U32(Big, s[..4]);
      if |s| >= size + 4 { RestIncomplete(s[size + 4..]); }
    }
  }

  lemma PartOfFrame(m: Bytes, k: nat)
    requires SizeOk(|m|) && k < |Frame(m)|
    ensures Incomplete(Frame(m)[..k])
  {
    if k >= 4 { assert Frame(m)[..k][..4] == Long(Big, |m|); }
  }

  function Frames(messages: seq<Bytes>): Bytes
    requires forall m :: m in messages ==> SizeOk(|m|)
  {
    if messages == [] then [] else Frame(messages[0]) + Frames(messages[1..])
  }

  lemma ParseOne(m: Bytes, rest: Bytes)
    requires SizeOk(|m|)
    ensures Parse(Frame(m) + rest) == Then([m], Parse(rest))
  {
    hide Long, U32;
    var s := Frame(m) + rest;
    assert s[..4] == Long(Big, |m|) && s[4..|m| + 4] == m && s[|m| + 4..] == rest;
  }

  /** Whole frames and part of another are read as those messages and that part. */
  lemma {:induction false} ParseFrames(messages: seq<Bytes>, part: Bytes)
    requires (forall m :: m in messages ==> SizeOk(|m|)) && Incomplete(part)
    ensures Parse(Frames(messages) + part) == Parsed(messages, part, true)
  {
    hide Parse, Frame, Long;
    if messages == [] {
      assert Frames(messages) + part == part;
    } else {
      ParseOne(messages[0], Frames(messages[1..]) + part);
      ParseFrames(messages[1..], part);
      assert Frames(messages) + part == Frame(messages[0]) + (Frames(messages[1..]) + part);
      assert messages == [messages[0]] + messages[1..];
    }
  }

  lemma {:induction false} FramesSnoc(messages: seq<Bytes>, m: Bytes)
    requires (forall x :: x in messages ==> SizeOk(|x|)) && SizeOk(|m|)
    ensures Frames(messages + [m]) == Frames(messages) + Frame(m)
  {
    if messages == [] {
      assert [m][1..] == [] && messages + [m] == [m];
    } else {
      assert (messages + [m])[1..] == messages[1..] + [m];
      FramesSnoc(messages[1..], m);
    }
  }

  // ----- one direction of a socket pair -----

  class Pipe {
    var bytes: Bytes   // sent, not yet received
    var closed: bool   // by the sender

    constructor ()
      ensures bytes == [] && !closed
    {
      bytes, closed := [], false;
    }

    /** Accepts any non-empty part of the data, or nothing when the socket would block. */
    method Send(data: Bytes) returns (n: nat)
      requires data != []
      modifies this`bytes
      ensures n <= |data| && bytes == old(bytes) + data[..n]
    {
      var part: int := *;
      n := if 0 <= part <= |data| then part else |data|;
      bytes := bytes + data[..n];
    }

    /** At most a chunk; nothing when there is nothing yet, or at the end. */
    method Recv(most: nat) returns (chunk: Bytes, eof: bool)
      modifies this`bytes
      ensures old(bytes) == chunk + bytes && |chunk| <= most
      ensures eof ==> chunk == [] && closed && bytes == []
    {
      var part: int := *;
      var n := if 0 <= part <= most then part else most;
      if n > |bytes| { n := |bytes|; }
      eof := bytes == [] && closed;
      chunk, bytes := bytes[..n], bytes[n..];
    }
  }

  class FramedSocket {
    var buffer: Bytes
    var output: Bytes
    var offset: nat
    var nextOutput: Bytes
    var eof: bool

    constructor ()
      ensures buffer == output == nextOutput == [] && offset == 0 && !eof
    {
      buffer, output, offset, nextOutput, eof := [], [], 0, [], false;
    }

    /** The latest message replaces any of which nothing was sent yet. */
    method Queue(m: Bytes) returns (ok: bool)
      requires m != []
      modifies this`output, this`offset, this`nextOutput
      ensures ok <==> SizeOk(|m|)
      ensures ok <==> |m| <= 8 * 1024 * 1024
      ensures ok ==> if old(output) == [] || old(offset) == 0
                     then output == Frame(m) && offset == 0 && nextOutput == old(nextOutput)
                     else output == old(output) && offset == old(offset) && nextOutput == Frame(m)
      ensures !ok ==> output == old(output) && offset == old(offset) && nextOutput == old(nextOutput)
    {
      if |m| > MAX_MESSAGE_BYTES { return false; }
      var payload := Frame(m);
      if output == [] || offset == 0 { output, offset := payload, 0; } else { nextOutput := payload; }
      ok := true;
    }

    method Flush(pipe: Pipe) returns (n: nat)
      requires output != [] ==> offset < |output|
      modifies this`output, this`offset, this`nextOutput, pipe`bytes
      ensures n <= |old(output)| - old(offset) || (old(output) == [] && n == 0)
      ensures pipe.bytes == old(pipe.bytes) + if old(output) == [] then []
        else old(output)[old(offset)..old(offset) + n]
      ensures if old(output) != [] && old(offset) + n == |old(output)|
              then output == old(nextOutput) && nextOutput == [] && offset == 0
              else output == old(output) && nextOutput == old(nextOutput) && offset == old(offset) + n
    {
      if output == [] { return 0; }
      n := pipe.Send(output[offset..]);
      assert output[offset..][..n] == output[offset..offset + n];
      offset := offset + n;
      if offset == |output| { output, nextOutput, offset := nextOutput, [], 0; }
    }

    /** Takes the complete messages off the buffer. */
    method TakeMessages(soFar: seq<Bytes>) returns (messages: seq<Bytes>, ok: bool)
      modifies this`buffer
      ensures Parsed(messages, buffer, ok) == Then(soFar, Parse(old(buffer)))
    {
      messages := soFar;
      while |buffer| >= 4
        invariant Then(messages, Parse(buffer)) == Then(soFar, Parse(old(buffer)))
        decreases |buffer|
      {
        var size := U32(Big, buffer[..4]);
        if !SizeOk(size) { assert messages + [] == messages; return messages, false; }
        if |buffer| < size + 4 { break; }
        Associative(messages, [buffer[4..size + 4]], Parse(buffer[size + 4..]).messages);
        messages, buffer := messages + [buffer[4..size + 4]], buffer[size + 4..];
      }
      assert messages + [] == messages;
      ok := true;
    }

    method TakeChunk(chunk: Bytes, soFar: seq<Bytes>, ghost all: Bytes) returns (messages: seq<Bytes>, ok: bool)
      requires Parse(all) == Then(soFar, Parse(buffer)) && Parse(all).ok
      modifies this`buffer
      ensures ok ==> Parse(all + chunk) == Parsed(messages, buffer, true) && Incomplete(buffer)
      ensures !ok ==> !Parse(all + chunk).ok
    {
      hide Parse;
      ReadMore(all, soFar, buffer, chunk);
      buffer := buffer + chunk;
      ghost var whole := Parse(buffer);
      messages, ok := TakeMessages(soFar);
      if whole.ok { RestIncomplete(old(buffer) + chunk); }
    }

    /** At most four reads, stopping early only when there is nothing to read. On an error the messages of
        this call are lost. */
    method Receive(pipe: Pipe)
      returns (messages: seq<Bytes>, ok: bool, ghost taken: Bytes, ghost rounds: nat, ghost dry: bool)
      requires Incomplete(buffer) && (eof ==> pipe.closed && pipe.bytes == [])
      modifies this`buffer, this`eof, pipe`bytes
      ensures old(pipe.bytes) == taken + pipe.bytes
      ensures var p := Parse(old(buffer) + taken);
              && (ok ==> p == Parsed(messages, buffer, true))
              && (!ok ==> messages == [] && (p.ok ==> eof && p.rest == buffer != []))
              && (p.ok ==> Incomplete(buffer))
      ensures (eof ==> pipe.closed && pipe.bytes == []) && (old(eof) ==> eof)
      ensures ok ==> !eof || buffer == []
      ensures |taken| <= rounds * 65536 && rounds <= 4 && (ok ==> rounds == 4 || dry)
    {
      hide Parse;
      messages, taken, ok, rounds, dry := [], [], true, 0, false;
      var tries := 0;
      ghost var start := buffer;
      assert start + [] == start;
      while tries < READS
        invariant old(pipe.bytes) == taken + pipe.bytes
        invariant (eof ==> pipe.closed && pipe.bytes == []) && (old(eof) ==> eof)
        invariant Parse(start + taken) == Parsed(messages, buffer, true) && Incomplete(buffer)
        invariant |taken| <= rounds * 65536 && rounds == tries <= READS
        decreases READS - tries
      {
        var chunk, end := pipe.Recv(CHUNK);
        eof := eof || end;
        rounds, dry := rounds + 1, chunk == [];
        if chunk == [] { break; }
        assert messages + [] == messages;
        messages, ok := TakeChunk(chunk, messages, start + taken);
        assert start + taken + chunk == start + (taken + chunk);
        taken := taken + chunk;
        if !ok { return [], false, taken, rounds, dry; }
        tries := tries + 1;
      }
      if eof && buffer != [] { return [], false, taken, rounds, dry; }
    }
  }

  lemma ReadMore(all: Bytes, messages: seq<Bytes>, buffer: Bytes, chunk: Bytes)
    requires Parse(all) == Then(messages, Parse(buffer))
    ensures Parse(all).ok ==> Parse(all + chunk) == Then(messages, Parse(buffer + chunk))
    ensures !Parse(all).ok ==> !Parse(all + chunk).ok
  {
    hide Parse;
    ParseSplit(all, chunk);
    ParseSplit(buffer, chunk);
    if Parse(all).ok {
      Associative(messages, Parse(buffer).messages, Parse(Parse(buffer).rest + chunk).messages);
    }
  }

  // ----- both ends -----

  /** The messages queued so far; which of them have been sent whole; which is in the output, and
      which waits behind it. */
  datatype Track = Track(queued: seq<Bytes>, sent: seq<nat>, current: Option<nat>, waiting: Option<nat>)

  ghost predicate Increasing(s: seq<nat>, below: nat) {
    && (forall i, j :: 0 <= i < j < |s| ==> s[i] < s[j])
    && (forall i :: 0 <= i < |s| ==> s[i] < below)
  }

  ghost predicate Sized(messages: seq<Bytes>) {
    forall m :: m in messages ==> SizeOk(|m|)
  }

  ghost function Pick(queued: seq<Bytes>, sent: seq<nat>): (p: seq<Bytes>)
    requires Increasing(sent, |queued|)
    ensures |p| == |sent| && (Sized(queued) ==> Sized(p))
  {
    seq(|sent|, i requires 0 <= i < |sent| => queued[sent[i]])
  }

  /** The newest of the messages that were not dropped. */
  ghost function Newest(t: Track): int {
    if t.waiting.Some? then t.waiting.value
    else if t.current.Some? then t.current.value
    else if t.sent != [] then t.sent[|t.sent| - 1]
    else -1
  }

  /** The sender's buffers hold exactly the frames the track says. */
  ghost predicate OutputOk(t: Track, output: Bytes, offset: nat, next: Bytes) {
    && Sized(t.queued) && Increasing(t.sent, |t.queued|)
    && (match t.current
        case None => output == [] && offset == 0 && t.waiting.None?
        case Some(i) => i < |t.queued| && output == Frame(t.queued[i]) && offset < |output| && Increasing(t.sent, i))
    && (match t.waiting
        case None => next == []
        case Some(j) => t.current.Some? && t.current.value < j < |t.queued| && next == Frame(t.queued[j]) && offset > 0)
    && Newest(t) == |t.queued| - 1
  }

  /** Some byte of this message has been sent. */
  ghost predicate Started(t: Track, offset: nat, i: nat) {
    i in t.sent || (t.current == Some(i) && offset > 0)
  }

  ghost function Queued(t: Track, m: Bytes, offset: nat): Track {
    var queued := t.queued + [m];
    if t.current.None? || offset == 0 then t.(queued := queued, current := Some(|t.queued|))
    else t.(queued := queued, waiting := Some(|t.queued|))
  }

  ghost function Completed(t: Track): Track
    requires t.current.Some?
  {
    Track(t.queued, t.sent + [t.current.value], t.waiting, None)
  }

  lemma QueuedOk(t: Track, output: Bytes, offset: nat, next: Bytes, m: Bytes)
    requires OutputOk(t, output, offset, next) && SizeOk(|m|)
    ensures if output == [] || offset == 0 then OutputOk(Queued(t, m, offset), Frame(m), 0, next)
            else OutputOk(Queued(t, m, offset), output, offset, Frame(m))
    ensures Pick(Queued(t, m, offset).queued, t.sent) == Pick(t.queued, t.sent)
  {
    hide SizeOk, Long;
  }

  lemma CompletedOk(t: Track, output: Bytes, offset: nat, next: Bytes)
    requires OutputOk(t, output, offset, next) && t.current.Some?
    ensures OutputOk(Completed(t), next, 0, [])
    ensures Pick(t.queued, Completed(t).sent) == Pick(t.queued, t.sent) + [t.queued[t.current.value]]
  {
    hide SizeOk, Long;
  }

  function Opt(i: Option<nat>): (s: seq<nat>) { if i.Some? then [i.value] else [] }

  /** The messages not dropped: sent whole, in the output, or waiting behind it. */
  ghost function OnTheirWay(t: Track): seq<nat> { t.sent + Opt(t.current) + Opt(t.waiting) }

  /** The messages queued, not dropped, and not yet taken off the pipe whole. */
  ghost function Undelivered(t: Track, taken: nat): seq<Bytes>
    requires Increasing(OnTheirWay(t), |t.queued|) && taken <= |OnTheirWay(t)|
  {
    Pick(t.queued, OnTheirWay(t))[taken..]
  }

  lemma InOrder(t: Track, output: Bytes, offset: nat, next: Bytes)
    requires OutputOk(t, output, offset, next)
    ensures Increasing(t.sent, |t.queued|) && Increasing(OnTheirWay(t), |t.queued|) && |t.sent| <= |OnTheirWay(t)|
    ensures t.current.Some? ==> OnTheirWay(Completed(t)) == OnTheirWay(t)
  {
    hide SizeOk, Long, Frame;
  }

  /** Nothing of the newest message has been sent, so that another may take its place. */
  ghost predicate Replaceable(t: Track, offset: nat) { t.waiting.Some? || (t.current.Some? && offset == 0) }

  /** What queueing does to the messages still to come. */
  lemma QueuedBehind(t: Track, output: Bytes, offset: nat, next: Bytes, m: Bytes, taken: nat)
    requires OutputOk(t, output, offset, next) && taken <= |t.sent|
    ensures var after := Queued(t, m, offset); var way := OnTheirWay(after);
            && Increasing(OnTheirWay(t), |t.queued|) && Increasing(way, |after.queued|) && taken <= |way|
            && var before := Undelivered(t, taken);
               if Replaceable(t, offset) then before != [] && Undelivered(after, taken) == before[..|before| - 1] + [m]
               else Undelivered(after, taken) == before + [m]
  {
    hide Pick, OutputOk, Queued, OnTheirWay, Replaceable, Increasing;
    InOrder(t, output, offset, next);
    WayQueued(t, output, offset, next, m);
    var way := OnTheirWay(t);
    assert way[..|way|] == way;
    Retold(t.queued, m, way, if Replaceable(t, offset) then |way| - 1 else |way|, taken);
  }

  /** The messages received next are the first of those still to come. */
  lemma TakenFrom(t: Track, before: seq<Bytes>, messages: seq<Bytes>)
    requires Increasing(t.sent, |t.queued|) && Increasing(OnTheirWay(t), |t.queued|)
    requires before + messages <= Pick(t.queued, t.sent)
    ensures var link := Undelivered(t, |before|);
            |messages| <= |link| && link[..|messages|] == messages
            && link[|messages|..] == Undelivered(t, |before + messages|)
  {
    var m, p := |before|, Pick(t.queued, t.sent);
    forall k | 0 <= k < |messages| ensures p[m + k] == messages[k] {
      assert (before + messages)[m + k] == messages[k];
    }
  }

  lemma WayQueued(t: Track, output: Bytes, offset: nat, next: Bytes, m: Bytes)
    requires OutputOk(t, output, offset, next)
    ensures var way, after := OnTheirWay(t), Queued(t, m, offset);
            && after.queued == t.queued + [m]
            && if Replaceable(t, offset) then |t.sent| < |way| && OnTheirWay(after) == way[..|way| - 1] + [|t.queued|]
               else OnTheirWay(after) == way + [|t.queued|]
  {
    hide SizeOk, Long, Frame, Increasing;
  }

  /** One more message behind the first n of those on their way. */
  lemma Retold(queued: seq<Bytes>, m: Bytes, way: seq<nat>, n: nat, taken: nat)
    requires Increasing(way, |queued|) && taken <= n <= |way|
    ensures Increasing(way[..n] + [|queued|], |queued| + 1)
    ensures Pick(queued + [m], way[..n] + [|queued|])[taken..] == Pick(queued, way)[taken..n] + [m]
  {}

  /** What the sender has sent: whole frames and part of the one in the output. */
  ghost function Sent(t: Track, output: Bytes, offset: nat): Bytes
    requires Sized(t.queued) && Increasing(t.sent, |t.queued|) && offset <= |output|
  {
    Frames(Pick(t.queued, t.sent)) + output[..offset]
  }

  /** However the bytes were cut, what arrived is the beginning of what was sent whole. */
  lemma Arrived(t: Track, output: Bytes, offset: nat, next: Bytes, received: Bytes, inFlight: Bytes)
    requires OutputOk(t, output, offset, next) && Sent(t, output, offset) == received + inFlight
    ensures Parse(received).ok && Parse(received).messages <= Pick(t.queued, t.sent)
    ensures inFlight == [] && output == [] ==> Parse(received) == Parsed(Pick(t.queued, t.sent), [], true)
  {
    var p := Pick(t.queued, t.sent);
    if t.current.Some? { PartOfFrame(t.queued[t.current.value], offset); } else { assert Incomplete([]); }
    hide Parse, Frame, SizeOk;
    ParseFrames(p, output[..offset]);
    ParseSplit(received, inFlight);
    if inFlight == [] { assert received + inFlight == received; }
  }

  class Connection {
    const sender: FramedSocket
    const receiver: FramedSocket
    const pipe: Pipe

    ghost var track: Track
    ghost var received: Bytes         // every byte taken off the pipe
    ghost var delivered: seq<Bytes>   // every message handed to the receiving program
    ghost var broken: bool            // the receiver reported an error

    ghost predicate Valid()
      reads this, sender, receiver, pipe
    {
      && sender != receiver
      && OutputOk(track, sender.output, sender.offset, sender.nextOutput)
      && Sent(track, sender.output, sender.offset) == received + pipe.bytes
      && ReceiverOk(received, receiver.buffer, delivered, broken)
      && (receiver.eof ==> pipe.closed && pipe.bytes == [])
      && (broken ==> receiver.eof && receiver.buffer != [])
    }

    /** The messages still to come: what a session keeps of its owner's channel. */
    ghost function Link(): seq<Bytes>
      requires Valid()
      reads this, sender, receiver, pipe
    {
      hide Parse, Frame;
      Arrived(track, sender.output, sender.offset, sender.nextOutput, received, pipe.bytes);
      InOrder(track, sender.output, sender.offset, sender.nextOutput);
      Undelivered(track, |Parse(received).messages|)
    }

    constructor ()
      ensures Valid() && track.queued == [] && fresh(sender) && fresh(receiver) && fresh(pipe)
    {
      sender := new FramedSocket();
      receiver := new FramedSocket();
      pipe := new Pipe();
      track, received, delivered, broken := Track([], [], None, None), [], [], false;
    }

    /** A new message drops at most one other, of which no byte was sent. */
    method Send(m: Bytes) returns (ok: bool)
      requires Valid() && m != []
      modifies this`track, sender
      ensures Valid() && ok == SizeOk(|m|)
      ensures track == if ok then Queued(old(track), m, old(sender.offset)) else old(track)
      ensures var link := old(Link());
              if !ok then Link() == link
              else if old(Replaceable(track, sender.offset)) then link != [] && Link() == link[..|link| - 1] + [m]
              else Link() == link + [m]
      ensures forall i :: old(Started(track, sender.offset, i)) ==> Started(track, sender.offset, i)
    {
      hide Parse, Frame, OutputOk, Sent, ReceiverOk, SizeOk;
      ghost var t, output, offset, next := track, sender.output, sender.offset, sender.nextOutput;
      CurrentMeans(t, output, offset, next);
      ok := sender.Queue(m);
      if ok {
        QueuedOk(t, output, offset, next, m);
        QueuedSent(t, output, offset, next, m);
        Arrived(t, output, offset, next, received, pipe.bytes);
        QueuedBehind(t, output, offset, next, m, |Parse(received).messages|);
        track := Queued(t, m, offset);
      }
    }

    method Push()
      requires Valid() && !pipe.closed
      modifies this`track, sender, pipe`bytes
      ensures Valid() && track.queued == old(track.queued) && Link() == old(Link())
      ensures forall i :: old(Started(track, sender.offset, i)) ==> Started(track, sender.offset, i)
    {
      hide Parse, Frame, Frames, ReceiverOk, SizeOk, Pick, Increasing, Newest;
      ghost var t, output, offset, next := track, sender.output, sender.offset, sender.nextOutput;
      var n := sender.Flush(pipe);
      PushedSent(t, output, offset, next, n, received, old(pipe.bytes));
      assert old(pipe.bytes) + [] == old(pipe.bytes);
      InOrder(t, output, offset, next);
      if output != [] && offset + n == |output| { track := Completed(t); }
    }

    method Pull() returns (messages: seq<Bytes>, ok: bool)
      requires Valid()
      modifies this`received, this`delivered, this`broken, receiver, pipe`bytes
      ensures Valid() && delivered == old(delivered) + messages && sender.offset == old(sender.offset)
      ensures !ok ==> messages == [] && receiver.eof && receiver.buffer != []
      ensures exists n :: 0 <= n <= |old(Link())| && Link() == old(Link())[n..] && (ok ==> messages == old(Link())[..n])
    {
      hide Parse, Frame, OutputOk, Sent;
      ghost var buffer := receiver.buffer;
      ghost var taken: Bytes, rounds: nat, dry: bool;
      messages, ok, taken, rounds, dry := receiver.Receive(pipe);
      Associative(received, taken, pipe.bytes);
      assert broken ==> buffer + taken == buffer;
      Arrived(track, sender.output, sender.offset, sender.nextOutput, received + taken, pipe.bytes);
      ParseSplit(received, taken);
      InOrder(track, sender.output, sender.offset, sender.nextOutput);
      ghost var next := Parse(buffer + taken).messages;
      TakenFrom(track, Parse(received).messages, next);
      assert ok ==> messages == old(Link())[..|next|];
      received, delivered, broken := received + taken, delivered + messages, broken || !ok;
      assert Link() == old(Link())[|next|..];
    }

    method Close()
      requires Valid()
      modifies pipe`closed
      ensures Valid() && pipe.closed
    {
      pipe.closed := true;
    }

    method Step(a: Action)
      requires Valid()
      modifies this, sender, receiver, pipe
      ensures Valid() && old(track.queued) <= track.queued && old(delivered) <= delivered
      ensures forall i :: old(Started(track, sender.offset, i)) ==> Started(track, sender.offset, i)
    {
      hide Valid;
      match a {
        case Queue(m) => if m != [] { var ok := Send(m); }
        case Flush => if !pipe.closed { Push(); }
        case Receive => var messages, ok := Pull();
        case Shut => Close();
      }
    }

    /** Any interleaving of queueing, partial sends and chunked reads. */
    method Run(actions: seq<Action>)
      requires Valid()
      modifies this, sender, receiver, pipe
      ensures Valid() && old(track.queued) <= track.queued && old(delivered) <= delivered
      ensures forall i :: old(Started(track, sender.offset, i)) ==> Started(track, sender.offset, i)
    {
      hide Valid, Started;
      for k := 0 to |actions|
        invariant Valid() && old(track.queued) <= track.queued && old(delivered) <= delivered
        invariant forall i :: old(Started(track, sender.offset, i)) ==> Started(track, sender.offset, i)
      {
        Step(actions[k]);
      }
    }

    /** The receiver has been given, whole and in order, some of the messages queued. */
    lemma DeliveredInOrder()
      requires Valid()
      ensures Increasing(track.sent, |track.queued|) && |delivered| <= |track.sent|
      ensures forall k :: 0 <= k < |delivered| ==> delivered[k] == track.queued[track.sent[k]]
    {
      hide Parse, Frame, Newest;
      Arrived(track, sender.output, sender.offset, sender.nextOutput, received, pipe.bytes);
    }

    /** A message of which a byte was sent is still sent whole, or being sent: only others are ever
        dropped; and the newest message is never dropped. */
    lemma StartedIsNotDropped(i: nat)
      requires Valid() && i < |track.queued|
      ensures Started(track, sender.offset, i) || i == |track.queued| - 1 ==>
                i in track.sent || track.current == Some(i) || track.waiting == Some(i)
    {
      hide Parse, Frame, Sent, ReceiverOk;
    }

    /** Once the sender has nothing more to write and the receiver has read it all, the last
        message delivered is the last one queued. */
    lemma DrainedDeliversLast()
      requires Valid() && track.queued != [] && sender.output == [] && pipe.bytes == []
      ensures !broken && delivered != [] && delivered[|delivered| - 1] == track.queued[|track.queued| - 1]
    {
      hide Parse, Frame;
      Arrived(track, sender.output, sender.offset, sender.nextOutput, received, pipe.bytes);
    }
  }

  datatype Action = Queue(message: Bytes) | Flush | Receive | Shut

  /** What is left of the bytes received, and what of them was delivered. */
  ghost predicate ReceiverOk(received: Bytes, buffer: Bytes, delivered: seq<Bytes>, broken: bool) {
    var p := Parse(received);
    && p.ok && p.rest == buffer && Incomplete(buffer)
    && (if broken then delivered <= p.messages else delivered == p.messages)
  }

  lemma CurrentMeans(t: Track, output: Bytes, offset: nat, next: Bytes)
    requires OutputOk(t, output, offset, next)
    ensures t.current.None? <==> output == []
    ensures output != [] ==> offset < |output|
    ensures output == [] ==> offset == 0
  {}

  lemma QueuedSent(t: Track, output: Bytes, offset: nat, next: Bytes, m: Bytes)
    requires OutputOk(t, output, offset, next) && SizeOk(|m|)
    ensures OutputOk(Queued(t, m, offset), if output == [] || offset == 0 then Frame(m) else output,
                     if output == [] || offset == 0 then 0 else offset,
                     if output == [] || offset == 0 then next else Frame(m)) ==>
              Sent(Queued(t, m, offset), if output == [] || offset == 0 then Frame(m) else output,
                   if output == [] || offset == 0 then 0 else offset)
              == Sent(t, output, offset)
  {
    QueuedOk(t, output, offset, next, m);
  }

  lemma PushedSent(t: Track, output: Bytes, offset: nat, next: Bytes, n: nat, received: Bytes, inFlight: Bytes)
    requires OutputOk(t, output, offset, next) && Sent(t, output, offset) == received + inFlight
    requires output != [] ==> offset + n <= |output|
    requires output == [] ==> n == 0
    ensures output != [] && offset + n == |output| ==>
              t.current.Some? && OutputOk(Completed(t), next, 0, [])
              && Sent(Completed(t), next, 0) == received + (inFlight + output[offset..offset + n])
    ensures output != [] && offset + n < |output| ==>
              OutputOk(t, output, offset + n, next)
              && Sent(t, output, offset + n) == received + (inFlight + output[offset..offset + n])
  {
    hide Frame, Frames, SizeOk, Newest, Pick, Increasing;
    if output != [] {
      var p, mid := Pick(t.queued, t.sent), output[offset..offset + n];
      assert output[..offset] + mid == output[..offset + n];
      Associative(Frames(p), output[..offset], mid);
      Associative(received, inFlight, mid);
      if offset + n == |output| {
        CompletedOk(t, output, offset, next);
        FramesSnoc(p, t.queued[t.current.value]);
        assert next[..0] == [] && output[..|output|] == output;
      }
    }
  }
}
