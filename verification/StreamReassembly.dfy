/** Reassembly of messages from reads of a byte stream, for any parser of one message at the front
    of a buffer. Module Framing instantiates it with the message format. */
module StreamReassembly {
  import opened Bytes
  import opened Wrappers

  const MESSAGE_MAX_SIZE := 32 * 1024 * 1024
  const READ_SIZE := 65536
  const HEADER_SIZE := 24

  datatype Message = Message(command: string, payload: seq<byte>)

  /** A message and the number of bytes it took */
  datatype Parse = Parse(message: Message, consumed: nat)

  type Parser = seq<byte> -> Option<Parse>

  /** A parsed message takes at least a header and no more than there is. */
  ghost predicate Bounded(parse: Parser) {
    forall d {:trigger parse(d)} :: parse(d).Some? ==> HEADER_SIZE <= parse(d).value.consumed <= |d|
  }

  /** Once a message parses, later bytes do not change it. */
  ghost predicate Stable(parse: Parser) {
    forall d, more {:trigger parse(d + more)} :: parse(d).Some? ==> parse(d + more) == parse(d)
  }

  // ----- The inner loop -----

  datatype Drained = Drained(messages: seq<Message>, rest: seq<byte>)

  /** All messages at the front of the buffer, and what is left of it */
  function Drain(parse: Parser, buffer: seq<byte>): Drained
    requires Bounded(parse)
    decreases |buffer|
  {
    if |buffer| < HEADER_SIZE then Drained([], buffer)
    else
      match parse(buffer)
      case None => Drained([], buffer)
      case Some(p) =>
        var d := Drain(parse, buffer[p.consumed..]);
        Drained([p.message] + d.messages, d.rest)
  }

  method DrainLoop(parse: Parser, input: seq<byte>) returns (messages: seq<Message>, buffer: seq<byte>)
    requires Bounded(parse)
    ensures Drained(messages, buffer) == Drain(parse, input)
  {
    messages, buffer := [], input;
    while |buffer| >= HEADER_SIZE
      invariant Drain(parse, input) == Drained(messages + Drain(parse, buffer).messages, Drain(parse, buffer).rest)
      decreases |buffer|
    {
      var result := parse(buffer);
      if result == None {
        break;
      }
      var p := result.value;
      assert messages + ([p.message] + Drain(parse, buffer[p.consumed..]).messages)
          == messages + [p.message] + Drain(parse, buffer[p.consumed..]).messages;
      messages := messages + [p.message];
      buffer := buffer[p.consumed..];
    }
    assert messages + [] == messages;
  }

  /** Draining is incremental: draining a part, then its rest with more bytes, is draining the whole. */
  lemma {:induction false} DrainSplit(parse: Parser, a: seq<byte>, b: seq<byte>)
    requires Bounded(parse) && Stable(parse)
    ensures var d := Drain(parse, a); var e := Drain(parse, d.rest + b);
      Drain(parse, a + b) == Drained(d.messages + e.messages, e.rest)
    decreases |a|
  {
    if |a| < HEADER_SIZE || parse(a) == None {
      assert [] + Drain(parse, a + b).messages == Drain(parse, a + b).messages;
    } else {
      var p := parse(a).value;
      assert parse(a + b) == parse(a);
      assert (a + b)[p.consumed..] == a[p.consumed..] + b;
      DrainSplit(parse, a[p.consumed..], b);
      var d := Drain(parse, a[p.consumed..]);
      var e := Drain(parse, d.rest + b);
      assert [p.message] + (d.messages + e.messages) == [p.message] + d.messages + e.messages;
    }
  }

  // ----- The outer loop -----

  datatype Session = Session(messages: seq<Message>, buffer: seq<byte>, overflow: bool)

  /** The peer loop over the reads that return, the first empty one ending it. */
  function Feed(parse: Parser, buffer: seq<byte>, chunks: seq<seq<byte>>): Session
    requires Bounded(parse)
    decreases |chunks|
  {
    if chunks == [] || chunks[0] == [] then Session([], buffer, false)
    else
      var filled := buffer + chunks[0];
      if |filled| > MESSAGE_MAX_SIZE then Session([], filled, true)
      else
        var d := Drain(parse, filled);
        var s := Feed(parse, d.rest, chunks[1..]);
        Session(d.messages + s.messages, s.buffer, s.overflow)
  }

  /** One read that fits moves its messages to the front of what the rest of the session delivers. */
  lemma {:induction false} FeedStep(parse: Parser, done: seq<Message>, buffer: seq<byte>, chunk: seq<byte>,
                                    later: seq<seq<byte>>)
    requires Bounded(parse) && chunk != [] && |buffer + chunk| <= MESSAGE_MAX_SIZE
    ensures var d := Drain(parse, buffer + chunk);
      var s, t := Feed(parse, buffer, [chunk] + later), Feed(parse, d.rest, later);
      done + s.messages == done + d.messages + t.messages && s.buffer == t.buffer && s.overflow == t.overflow
  {
    assert ([chunk] + later)[1..] == later;
  }

  /** _peer_loop: read, append, check the cap, deliver what parses. */
  method PeerLoop(parse: Parser, chunks: seq<seq<byte>>)
    returns (messages: seq<Message>, buffer: seq<byte>, overflow: bool)
    requires Bounded(parse)
    ensures Session(messages, buffer, overflow) == Feed(parse, [], chunks)
  {
    messages, buffer, overflow := [], [], false;
    var i := 0;
    while i < |chunks|
      invariant i <= |chunks| && !overflow
      invariant var s := Feed(parse, buffer, chunks[i..]);
        Feed(parse, [], chunks) == Session(messages + s.messages, s.buffer, s.overflow)
    {
      var chunk := chunks[i];
      assert chunks[i..] == [chunk] + chunks[i + 1..];
      if chunk == [] {
        break;
      }
      if |buffer + chunk| > MESSAGE_MAX_SIZE {
        buffer := buffer + chunk;
        overflow := true;
        break;
      }
      FeedStep(parse, messages, buffer, chunk, chunks[i + 1..]);
      buffer := buffer + chunk;
      var delivered;
      delivered, buffer := DrainLoop(parse, buffer);
      messages := messages + delivered;
      i := i + 1;
    }
  }

  function Concat(chunks: seq<seq<byte>>): seq<byte> {
    if chunks == [] then [] else chunks[0] + Concat(chunks[1..])
  }

  predicate NonEmpty(chunks: seq<seq<byte>>) {
    forall i :: 0 <= i < |chunks| ==> chunks[i] != []
  }

  lemma {:induction false} DrainedIsDrained(parse: Parser, buffer: seq<byte>)
    requires Bounded(parse)
    ensures Drain(parse, Drain(parse, buffer).rest) == Drained([], Drain(parse, buffer).rest)
    decreases |buffer|
  {
    if HEADER_SIZE <= |buffer| && parse(buffer).Some? {
      DrainedIsDrained(parse, buffer[parse(buffer).value.consumed..]);
    }
  }

  /** Without overflow a session depends on the stream only, for every stream whatsoever. */
  lemma {:induction false} FeedIsDrain(parse: Parser, buffer: seq<byte>, chunks: seq<seq<byte>>)
    requires Bounded(parse) && Stable(parse) && NonEmpty(chunks)
    requires !Feed(parse, buffer, chunks).overflow && Drain(parse, buffer) == Drained([], buffer)
    ensures var s := Feed(parse, buffer, chunks); Drained(s.messages, s.buffer) == Drain(parse, buffer + Concat(chunks))
    decreases |chunks|
  {
    if chunks == [] {
      assert buffer + [] == buffer;
    } else {
      var filled, tail := buffer + chunks[0], Concat(chunks[1..]);
      assert buffer + Concat(chunks) == filled + tail;
      DrainedIsDrained(parse, filled);
      FeedIsDrain(parse, Drain(parse, filled).rest, chunks[1..]);
      DrainSplit(parse, filled, tail);
    }
  }

  /** Two splits of one stream deliver the same messages and leave the same buffer. */
  lemma {:induction false} ChunkingIrrelevant(parse: Parser, chunks: seq<seq<byte>>, others: seq<seq<byte>>)
    requires Bounded(parse) && Stable(parse)
    requires NonEmpty(chunks) && NonEmpty(others) && Concat(chunks) == Concat(others)
    requires !Feed(parse, [], chunks).overflow && !Feed(parse, [], others).overflow
    ensures Feed(parse, [], chunks) == Feed(parse, [], others)
  {
    FeedIsDrain(parse, [], chunks);
    FeedIsDrain(parse, [], others);
  }

  /** An empty read ends the session: what comes after it is not looked at. */
  lemma {:induction false} EndsAtEmptyRead(parse: Parser, buffer: seq<byte>, chunks: seq<seq<byte>>,
        later: seq<seq<byte>>)
    requires Bounded(parse)
    ensures Feed(parse, buffer, chunks + [[]] + later) == Feed(parse, buffer, chunks)
    decreases |chunks|
  {
    var all := chunks + [[]] + later;
    if chunks == [] {
      assert all[0] == [];
    } else {
      assert all[0] == chunks[0] && all[1..] == chunks[1..] + [[]] + later;
      if chunks[0] != [] && |buffer + chunks[0]| <= MESSAGE_MAX_SIZE {
        EndsAtEmptyRead(parse, Drain(parse, buffer + chunks[0]).rest, chunks[1..], later);
      }
    }
  }

  // ----- Buffers that never parse -----

  /** Nothing that follows makes the buffer parse. */
  ghost predicate Stuck(parse: Parser, buffer: seq<byte>) {
    forall more {:trigger parse(buffer + more)} :: parse(buffer + more) == None
  }

  lemma StuckAfter(parse: Parser, buffer: seq<byte>, chunk: seq<byte>)
    requires Stuck(parse, buffer)
    ensures Stuck(parse, buffer + chunk) && parse(buffer + chunk) == None
  {
    forall more
      ensures parse(buffer + chunk + more) == None
    {
      assert buffer + chunk + more == buffer + (chunk + more);
    }
  }

  /** The loop does not look for the next message: from a stuck buffer no reads deliver anything. They pile up, to the
      end of the stream or to the cap. */
  lemma {:induction false} StuckForever(parse: Parser, buffer: seq<byte>, chunks: seq<seq<byte>>)
    requires Bounded(parse) && Stuck(parse, buffer) && NonEmpty(chunks) && |buffer| <= MESSAGE_MAX_SIZE
    ensures var s := Feed(parse, buffer, chunks);
      && s.messages == []
      && (s.overflow <==> MESSAGE_MAX_SIZE < |buffer + Concat(chunks)|)
      && (!s.overflow ==> s.buffer == buffer + Concat(chunks))
    decreases |chunks|
  {
    if chunks == [] {
      assert buffer + [] == buffer;
    } else {
      var filled := buffer + chunks[0];
      StuckAfter(parse, buffer, chunks[0]);
      assert buffer + Concat(chunks) == filled + Concat(chunks[1..]);
      if |filled| <= MESSAGE_MAX_SIZE {
        StuckForever(parse, filled, chunks[1..]);
      }
    }
  }

  // ----- Reassembly of frames -----

  /** A frame on the wire and the message it stands for */
  datatype Frame = Frame(wire: seq<byte>, message: Message)

  /** The frame parses as its message whatever follows, and no proper prefix of it parses. */
  ghost predicate Faithful(parse: Parser, f: Frame) {
    && HEADER_SIZE <= |f.wire|
    && (forall rest {:trigger parse(f.wire + rest)} :: parse(f.wire + rest) == Some(Parse(f.message, |f.wire|)))
    && (forall d {:trigger parse(d)} :: d < f.wire ==> parse(d) == None)
  }

  ghost predicate AllFaithful(parse: Parser, fs: seq<Frame>) {
    forall i {:trigger fs[i]} :: 0 <= i < |fs| ==> Faithful(parse, fs[i])
  }

  function Stream(fs: seq<Frame>): seq<byte> {
    if fs == [] then [] else fs[0].wire + Stream(fs[1..])
  }

  /** With all of a frame but its last byte buffered, the largest read that can follow stays below the cap. */
  predicate RoomAt(fs: seq<Frame>, i: nat)
    requires i < |fs|
  {
    var ahead := 1 + |Stream(fs[i + 1..])|;
    |fs[i].wire| - 1 + (if ahead < READ_SIZE then ahead else READ_SIZE) <= MESSAGE_MAX_SIZE
  }

  predicate HasRoom(fs: seq<Frame>) {
    forall i {:trigger RoomAt(fs, i)} :: 0 <= i < |fs| ==> RoomAt(fs, i)
  }

  function Messages(fs: seq<Frame>): seq<Message> {
    seq(|fs|, i requires 0 <= i < |fs| => fs[i].message)
  }

  /** rest is a part of the first frame, short of the whole; nothing when there is no frame. */
  predicate Pending(fs: seq<Frame>, rest: seq<byte>) {
    if fs == [] then rest == [] else rest < fs[0].wire
  }

  /** The number of whole frames in the first n bytes of the stream */
  function WholeFrames(fs: seq<Frame>, n: nat): (k: nat)
    ensures k <= |fs|
  {
    if fs == [] || n < |fs[0].wire| then 0 else 1 + WholeFrames(fs[1..], n - |fs[0].wire|)
  }

  lemma PrefixCancel(a: seq<byte>, b: seq<byte>, c: seq<byte>)
    requires a + b <= a + c
    ensures b <= c
  {
    forall i | 0 <= i < |b|
      ensures b[i] == c[i]
    {
      assert (a + b)[|a| + i] == (a + c)[|a| + i];
    }
  }

  /** A prefix of the stream is short of the first frame or starts with it. */
  lemma {:induction false} FirstFrame(fs: seq<Frame>, data: seq<byte>)
    requires fs != [] && data <= Stream(fs)
    ensures var f := fs[0].wire;
      if |data| < |f| then data < f
      else data == f + data[|f|..] && data[|f|..] <= Stream(fs[1..])
  {
    var f, whole := fs[0].wire, Stream(fs);
    assert data == whole[..|data|];
    if |f| <= |data| {
      assert data[..|f|] == f;
      PrefixCancel(f, data[|f|..], Stream(fs[1..]));
    }
  }

  lemma {:induction false} DrainFirst(parse: Parser, f: Frame, rest: seq<byte>)
    requires Bounded(parse) && Faithful(parse, f)
    ensures var d, e := Drain(parse, f.wire + rest), Drain(parse, rest);
      d.messages == [f.message] + e.messages && d.rest == e.rest
  {
    assert parse(f.wire + rest) == Some(Parse(f.message, |f.wire|));
    assert (f.wire + rest)[|f.wire|..] == rest;
  }

  lemma FrontFrames(fs: seq<Frame>, k: nat)
    requires k < |fs|
    ensures Messages(fs[..k + 1]) == [fs[0].message] + Messages(fs[1..][..k])
    ensures Stream(fs[..k + 1]) == fs[0].wire + Stream(fs[1..][..k])
    ensures fs[k + 1..] == fs[1..][k..]
  {
    assert fs[..k + 1][1..] == fs[1..][..k];
  }

  /** Draining delivers the whole frames at the front and keeps the piece of the next. */
  ghost predicate DrainsWhole(parse: Parser, fs: seq<Frame>, data: seq<byte>)
    requires Bounded(parse)
  {
    var k := WholeFrames(fs, |data|);
    var d := Drain(parse, data);
    && d.messages == Messages(fs[..k])
    && Pending(fs[k..], d.rest)
    && data == Stream(fs[..k]) + d.rest
  }

  lemma {:induction false} CountOneMore(fs: seq<Frame>, rest: seq<byte>)
    requires fs != []
    ensures WholeFrames(fs, |fs[0].wire + rest|) == 1 + WholeFrames(fs[1..], |rest|)
  {}

  lemma {:induction false} DrainsOneMore(parse: Parser, fs: seq<Frame>, rest: seq<byte>)
    requires Bounded(parse) && fs != [] && Faithful(parse, fs[0]) && DrainsWhole(parse, fs[1..], rest)
    ensures DrainsWhole(parse, fs, fs[0].wire + rest)
  {
    var k, d := WholeFrames(fs[1..], |rest|), Drain(parse, rest);
    CountOneMore(fs, rest);
    DrainFirst(parse, fs[0], rest);
    FrontFrames(fs, k);
    assert fs[0].wire + rest == fs[0].wire + Stream(fs[1..][..k]) + d.rest;
  }

  lemma DrainsNone(parse: Parser, fs: seq<Frame>, data: seq<byte>)
    requires Bounded(parse) && fs != [] && Faithful(parse, fs[0]) && data < fs[0].wire
    ensures DrainsWhole(parse, fs, data)
  {
    assert fs[..0] == [] && fs[0..] == fs;
  }

  /** The stream after the first frame is one of fewer frames. */
  lemma {:induction false} AfterFirst(parse: Parser, fs: seq<Frame>, data: seq<byte>)
    requires fs != [] && AllFaithful(parse, fs) && data <= Stream(fs)
    ensures Faithful(parse, fs[0]) && AllFaithful(parse, fs[1..])
    ensures |data| < |fs[0].wire| ==> data < fs[0].wire
    ensures |fs[0].wire| <= |data| ==>
              data == fs[0].wire + data[|fs[0].wire|..] && data[|fs[0].wire|..] <= Stream(fs[1..])
  {
    FirstFrame(fs, data);
  }

  lemma DrainsNothing(parse: Parser, fs: seq<Frame>)
    requires Bounded(parse) && fs == []
    ensures DrainsWhole(parse, fs, [])
  {
    assert fs[..0] == fs && fs[0..] == fs;
  }

  /** From the rest of the data to all of it */
  lemma {:induction false} DrainsFront(parse: Parser, fs: seq<Frame>, tail: seq<Frame>, data: seq<byte>,
        rest: seq<byte>)
    requires Bounded(parse) && fs != [] && Faithful(parse, fs[0]) && tail == fs[1..] && data == fs[0].wire + rest
    requires DrainsWhole(parse, tail, rest)
    ensures DrainsWhole(parse, fs, data)
  {
    DrainsOneMore(parse, fs, rest);
  }

  lemma {:induction false} DrainStream(parse: Parser, fs: seq<Frame>, data: seq<byte>)
    requires Bounded(parse) && AllFaithful(parse, fs) && data <= Stream(fs)
    ensures DrainsWhole(parse, fs, data)
    decreases |fs|
  {
    if fs == [] {
      DrainsNothing(parse, fs);
    } else {
      AfterFirst(parse, fs, data);
      if |data| < |fs[0].wire| {
        DrainsNone(parse, fs, data);
      } else {
        var tail: seq<Frame>, rest: seq<byte> := fs[1..], data[|fs[0].wire|..];
        DrainStream(parse, tail, rest);
        DrainsFront(parse, fs, tail, data, rest);
      }
    }
  }

  lemma {:induction false} FrontOfStream(fs: seq<Frame>, rest: seq<byte>)
    requires fs != []
    ensures Stream(fs) + rest == fs[0].wire + (Stream(fs[1..]) + rest)
    ensures Messages(fs) == [fs[0].message] + Messages(fs[1..])
  {}

  /** Whole frames, then bytes that do not parse */
  lemma {:induction false} DrainThenNone(parse: Parser, fs: seq<Frame>, rest: seq<byte>)
    requires Bounded(parse) && AllFaithful(parse, fs) && parse(rest) == None
    ensures Drain(parse, Stream(fs) + rest) == Drained(Messages(fs), rest)
    decreases |fs|
  {
    if fs == [] {
      assert [] + rest == rest;
    } else {
      DrainThenNone(parse, fs[1..], rest);
      assert Faithful(parse, fs[0]);
      DrainFirst(parse, fs[0], Stream(fs[1..]) + rest);
      FrontOfStream(fs, rest);
    }
  }

  lemma {:induction false} StreamSplit(fs: seq<Frame>, k: nat)
    requires k <= |fs|
    ensures Stream(fs) == Stream(fs[..k]) + Stream(fs[k..])
  {
    if k == 0 {
      assert fs[..0] == [] && fs[0..] == fs;
    } else {
      StreamSplit(fs[1..], k - 1);
      assert fs[..k][1..] == fs[1..][..k - 1] && fs[k..] == fs[1..][k - 1..];
    }
  }

  /** After draining, what is buffered and what is still to come are a prefix of the other frames. */
  lemma {:induction false} Advance(parse: Parser, fs: seq<Frame>, filled: seq<byte>, tail: seq<byte>)
    requires Bounded(parse) && AllFaithful(parse, fs) && filled + tail <= Stream(fs)
    ensures var k := WholeFrames(fs, |filled|); var rest := Drain(parse, filled).rest;
      Pending(fs[k..], rest) && rest + tail <= Stream(fs[k..])
  {
    var k, rest := WholeFrames(fs, |filled|), Drain(parse, filled).rest;
    assert filled == (filled + tail)[..|filled|] == Stream(fs)[..|filled|];
    DrainStream(parse, fs, filled);
    StreamSplit(fs, k);
    var front := Stream(fs[..k]);
    assert front + (rest + tail) == filled + tail;
    PrefixCancel(front, rest + tail, Stream(fs[k..]));
  }

  /** A read returns between 1 and READ_SIZE bytes; the empty read at the end is no part of it. */
  predicate Reads(chunks: seq<seq<byte>>) {
    forall i :: 0 <= i < |chunks| ==> 1 <= |chunks[i]| <= 65536
  }

  lemma RoomAfter(fs: seq<Frame>, k: nat)
    requires HasRoom(fs) && k <= |fs|
    ensures HasRoom(fs[k..])
  {
    forall i | 0 <= i < |fs| - k
      ensures RoomAt(fs[k..], i)
    {
      assert RoomAt(fs, k + i);
      assert fs[k..][i + 1..] == fs[k + i + 1..];
    }
  }

  /** A read behind a piece of the first frame stays below the cap. */
  lemma {:induction false} ReadFits(fs: seq<Frame>, buffer: seq<byte>, chunk: seq<byte>)
    requires HasRoom(fs) && Pending(fs, buffer) && |chunk| <= READ_SIZE && buffer + chunk <= Stream(fs)
    ensures |buffer + chunk| <= MESSAGE_MAX_SIZE
  {
    if fs != [] {
      assert RoomAt(fs, 0);
    }
  }

  /** However the stream is cut into reads, the cap is never hit. */
  lemma {:induction false} NoOverflow(parse: Parser, fs: seq<Frame>, buffer: seq<byte>, chunks: seq<seq<byte>>)
    requires Bounded(parse) && AllFaithful(parse, fs) && HasRoom(fs) && Reads(chunks) && Pending(fs, buffer)
    requires buffer + Concat(chunks) <= Stream(fs)
    ensures !Feed(parse, buffer, chunks).overflow
    decreases |chunks|
  {
    if chunks != [] {
      var filled, tail := buffer + chunks[0], Concat(chunks[1..]);
      assert buffer + Concat(chunks) == filled + tail;
      Advance(parse, fs, filled, tail);
      ReadFits(fs, buffer, chunks[0]);
      RoomAfter(fs, WholeFrames(fs, |filled|));
      NoOverflow(parse, fs[WholeFrames(fs, |filled|)..], Drain(parse, filled).rest, chunks[1..]);
    }
  }

  /** Whatever part of the stream has arrived, in whatever reads, the loop has delivered exactly the
      whole frames of it, in order, and buffers the piece of the next. */
  lemma {:induction false} Reassembly(parse: Parser, fs: seq<Frame>, chunks: seq<seq<byte>>)
    requires Bounded(parse) && Stable(parse) && AllFaithful(parse, fs) && HasRoom(fs)
    requires Reads(chunks) && Concat(chunks) <= Stream(fs)
    ensures var s := Feed(parse, [], chunks); var k := WholeFrames(fs, |Concat(chunks)|);
      && !s.overflow
      && s.messages == Messages(fs[..k])
      && Pending(fs[k..], s.buffer)
      && Concat(chunks) == Stream(fs[..k]) + s.buffer
  {
    assert [] + Concat(chunks) == Concat(chunks);
    NoOverflow(parse, fs, [], chunks);
    FeedIsDrain(parse, [], chunks);
    DrainStream(parse, fs, Concat(chunks));
  }

  /** When the whole stream has arrived, every message has been delivered and nothing is left. */
  lemma {:induction false} WholeStream(parse: Parser, fs: seq<Frame>, chunks: seq<seq<byte>>)
    requires Bounded(parse) && Stable(parse) && AllFaithful(parse, fs) && HasRoom(fs)
    requires Reads(chunks) && Concat(chunks) == Stream(fs)
    ensures Feed(parse, [], chunks) == Session(Messages(fs), [], false)
  {
    Reassembly(parse, fs, chunks);
    AllFrames(parse, fs);
    assert fs[..|fs|] == fs && fs[|fs|..] == [];
  }

  lemma {:induction false} AllFrames(parse: Parser, fs: seq<Frame>)
    requires AllFaithful(parse, fs)
    ensures WholeFrames(fs, |Stream(fs)|) == |fs|
  {
    if fs != [] {
      AllFrames(parse, fs[1..]);
    }
  }

  // ----- Without the room some split overflows -----

  function Bytewise(data: seq<byte>): seq<seq<byte>> {
    seq(|data|, i requires 0 <= i < |data| => [data[i]])
  }

  lemma {:induction false} ConcatBytewise(data: seq<byte>)
    ensures Concat(Bytewise(data)) == data
  {
    if data != [] {
      ConcatBytewise(data[1..]);
      assert Bytewise(data)[1..] == Bytewise(data[1..]);
    }
  }

  lemma {:induction false} ConcatAppend(a: seq<seq<byte>>, chunk: seq<byte>)
    ensures Concat(a + [chunk]) == Concat(a) + chunk
  {
    if a == [] {
      assert [chunk][1..] == [];
    } else {
      ConcatAppend(a[1..], chunk);
      assert (a + [chunk])[1..] == a[1..] + [chunk];
    }
  }

  /** Reads that overflow after others did not */
  lemma {:induction false} FeedAppend(parse: Parser, buffer: seq<byte>, a: seq<seq<byte>>, b: seq<seq<byte>>)
    requires Bounded(parse) && NonEmpty(a) && !Feed(parse, buffer, a).overflow
    ensures Feed(parse, buffer, a + b).overflow == Feed(parse, Feed(parse, buffer, a).buffer, b).overflow
    decreases |a|
  {
    if a == [] {
      assert a + b == b;
    } else {
      FeedAppend(parse, Drain(parse, buffer + a[0]).rest, a[1..], b);
      assert (a + b)[1..] == a[1..] + b;
    }
  }

  lemma {:induction false} CountAt(fs: seq<Frame>, i: nat, n: nat)
    requires i < |fs| && |Stream(fs[..i])| <= n < |Stream(fs[..i])| + |fs[i].wire|
    ensures WholeFrames(fs, n) == i
  {
    if i == 0 {
      assert fs[..0] == [];
    } else {
      assert fs[..i][1..] == fs[1..][..i - 1];
      CountAt(fs[1..], i - 1, n - |fs[0].wire|);
    }
  }

  /** All up to the last byte of frame i, byte by byte, then the largest read */
  function LateRead(fs: seq<Frame>, i: nat): (seq<seq<byte>>, seq<byte>)
    requires i < |fs| && |Stream(fs[..i])| + |fs[i].wire| <= |Stream(fs)| && 1 <= |fs[i].wire|
  {
    var at := |Stream(fs[..i])| + |fs[i].wire| - 1;
    var to := if at + READ_SIZE < |Stream(fs)| then at + READ_SIZE else |Stream(fs)|;
    (Bytewise(Stream(fs)[..at]), Stream(fs)[at..to])
  }

  lemma {:induction false} StreamAround(fs: seq<Frame>, i: nat)
    requires i < |fs|
    ensures Stream(fs) == Stream(fs[..i]) + fs[i].wire + Stream(fs[i + 1..])
  {
    StreamSplit(fs, i);
    assert fs[i..][1..] == fs[i + 1..];
    assert Stream(fs[..i]) + (fs[i].wire + Stream(fs[i + 1..])) == Stream(fs[..i]) + fs[i].wire + Stream(fs[i + 1..]);
  }

  lemma PartsJoin(data: seq<byte>, at: nat, to: nat)
    requires at <= to <= |data|
    ensures data[..at] <= data && data[..at] + data[at..to] == data[..to] <= data
  {}

  /** Bytes read one by one, then some more in one read */
  lemma {:induction false} BytewiseThenMore(data: seq<byte>, at: nat, to: nat)
    requires at < to <= |data| && to <= at + READ_SIZE
    ensures var (pre, last) := (Bytewise(data[..at]), data[at..to]);
      && Reads(pre) && Concat(pre) <= data
      && Reads(pre + [last]) && Concat(pre + [last]) <= data
  {
    ConcatBytewise(data[..at]);
    ConcatAppend(Bytewise(data[..at]), data[at..to]);
    PartsJoin(data, at, to);
  }

  lemma {:induction false} LateReadIsPart(fs: seq<Frame>, i: nat)
    requires i < |fs| && 1 <= |fs[i].wire| && |Stream(fs[..i])| + |fs[i].wire| <= |Stream(fs)|
    ensures var (pre, last) := LateRead(fs, i);
      && Reads(pre) && Concat(pre) <= Stream(fs)
      && Reads(pre + [last]) && Concat(pre + [last]) <= Stream(fs)
  {
    var data, at := Stream(fs), |Stream(fs[..i])| + |fs[i].wire| - 1;
    BytewiseThenMore(data, at, if at + READ_SIZE < |data| then at + READ_SIZE else |data|);
  }

  /** Before the last byte of frame i, all of it but that byte is buffered. */
  lemma {:induction false} BufferedBefore(parse: Parser, fs: seq<Frame>, i: nat, pre: seq<seq<byte>>)
    requires Bounded(parse) && Stable(parse) && AllFaithful(parse, fs) && i < |fs|
    requires NonEmpty(pre) && Concat(pre) <= Stream(fs) && !Feed(parse, [], pre).overflow
    requires |Concat(pre)| == |Stream(fs[..i])| + |fs[i].wire| - 1
    ensures |Feed(parse, [], pre).buffer| == |fs[i].wire| - 1
  {
    assert Faithful(parse, fs[i]);
    assert [] + Concat(pre) == Concat(pre);
    FeedIsDrain(parse, [], pre);
    DrainStream(parse, fs, Concat(pre));
    CountAt(fs, i, |Concat(pre)|);
  }

  lemma {:induction false} LateReadSizes(fs: seq<Frame>, i: nat)
    requires i < |fs| && 1 <= |fs[i].wire|
    ensures |Stream(fs[..i])| + |fs[i].wire| <= |Stream(fs)|
    ensures var (pre, last) := LateRead(fs, i);
      && Concat(pre) <= Stream(fs) && |Concat(pre)| == |Stream(fs[..i])| + |fs[i].wire| - 1
      && (!RoomAt(fs, i) ==> |fs[i].wire| - 1 + |last| > MESSAGE_MAX_SIZE)
  {
    StreamAround(fs, i);
    ConcatBytewise(Stream(fs)[..|Stream(fs[..i])| + |fs[i].wire| - 1]);
  }

  /** Frame i without room: those reads overflow, or already the single bytes do. */
  lemma {:induction false} LateReadOverflows(parse: Parser, fs: seq<Frame>, i: nat)
    requires Bounded(parse) && Stable(parse) && AllFaithful(parse, fs) && i < |fs| && !RoomAt(fs, i)
    ensures |Stream(fs[..i])| + |fs[i].wire| <= |Stream(fs)| && 1 <= |fs[i].wire|
    ensures var (pre, last) := LateRead(fs, i);
      Feed(parse, [], pre).overflow || Feed(parse, [], pre + [last]).overflow
  {
    assert Faithful(parse, fs[i]);
    LateReadSizes(fs, i);
    var (pre, last) := LateRead(fs, i);
    if !Feed(parse, [], pre).overflow {
      BufferedBefore(parse, fs, i, pre);
      FeedAppend(parse, [], pre, [last]);
    }
  }

  /** Every split into reads of every part of the stream stays below the cap exactly when there is room at every
      frame. */
  lemma {:induction false} RoomExactly(parse: Parser, fs: seq<Frame>)
    requires Bounded(parse) && Stable(parse) && AllFaithful(parse, fs)
    ensures HasRoom(fs) <==>
      forall chunks {:trigger Feed(parse, [], chunks)} ::
        Reads(chunks) && Concat(chunks) <= Stream(fs) ==> !Feed(parse, [], chunks).overflow
  {
    if HasRoom(fs) {
      forall chunks {:trigger Feed(parse, [], chunks)} | Reads(chunks) && Concat(chunks) <= Stream(fs)
        ensures !Feed(parse, [], chunks).overflow
      {
        assert [] + Concat(chunks) == Concat(chunks);
        Reassembly(parse, fs, chunks);
      }
    } else {
      var i :| 0 <= i < |fs| && !RoomAt(fs, i);
      LateReadOverflows(parse, fs, i);
      LateReadIsPart(fs, i);
    }
  }

  /** A frame larger than the cap is never delivered: in every split the session overflows. */
  lemma {:induction false} OversizedOverflows(parse: Parser, f: Frame, buffer: seq<byte>, chunks: seq<seq<byte>>)
    requires Bounded(parse) && Faithful(parse, f) && MESSAGE_MAX_SIZE < |f.wire| && |buffer| <= MESSAGE_MAX_SIZE
    requires NonEmpty(chunks) && buffer + Concat(chunks) == f.wire
    ensures Feed(parse, buffer, chunks).overflow && Feed(parse, buffer, chunks).messages == []
    decreases |chunks|
  {
    var filled, tail := buffer + chunks[0], Concat(chunks[1..]);
    assert buffer + Concat(chunks) == filled + tail;
    if |filled| <= MESSAGE_MAX_SIZE {
      assert filled < f.wire;
      OversizedOverflows(parse, f, filled, chunks[1..]);
    }
  }
}
