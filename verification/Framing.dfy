/** The message format of the wire: magic, command, length, checksum, payload. */
module Framing {
  import opened Arithmetic
  import opened Bytes
  import opened StreamReassembly
  import opened Wrappers

  const NETWORK_MAGIC: seq<byte> := [0xbc, 0xc1, 0x42, 0x21]
  const COMMAND_SIZE := 12

  function Checksum(h: Hash, payload: seq<byte>): (c: seq<byte>)
    ensures |c| == 4
  {
    h(payload)[..4]
  }

  // ----- Commands -----

  predicate IsAscii(s: string) {
    forall i :: 0 <= i < |s| ==> s[i] as int < 128
  }

  function Encode(s: string): (b: seq<byte>)
    requires IsAscii(s)
    ensures |b| == |s|
  {
    seq(|s|, i requires 0 <= i < |s| => s[i] as int)
  }

  /** decode("ascii", errors="replace") */
  function Decode(b: seq<byte>): (s: string)
    ensures |s| == |b|
  {
    seq(|b|, i requires 0 <= i < |b| => if b[i] < 128 then b[i] as char else '\U{FFFD}')
  }

  /** rstrip of zero bytes */
  function Strip(b: seq<byte>): (r: seq<byte>)
    ensures r <= b
  {
    if b != [] && b[|b| - 1] == 0 then Strip(b[..|b| - 1]) else b
  }

  /** ljust(12, zero)[:12] */
  function Fit(b: seq<byte>): (r: seq<byte>)
    ensures |r| == COMMAND_SIZE
  {
    (b + seq(COMMAND_SIZE, _ => 0))[..COMMAND_SIZE]
  }

  /** The command as the receiver sees it: cut to 12 characters, without zeros at the end. */
  function Canonical(command: string): string
    requires IsAscii(command)
  {
    Decode(Strip(Fit(Encode(command))))
  }

  lemma {:induction false} StripPadding(b: seq<byte>, k: nat)
    requires b == [] || b[|b| - 1] != 0
    ensures Strip(b + seq(k, _ => 0)) == b
  {
    var padded := b + seq(k, _ => 0);
    if k == 0 {
      assert padded == b;
    } else {
      StripPadding(b, k - 1);
      assert padded[..|padded| - 1] == b + seq(k - 1, _ => 0);
    }
  }

  /** Commands of at most 12 characters that do not end in a zero arrive unchanged. */
  lemma CanonicalCommand(command: string)
    requires IsAscii(command) && |command| <= COMMAND_SIZE
    requires command == "" || command[|command| - 1] as int != 0
    ensures Canonical(command) == command
  {
    var b := Encode(command);
    assert Fit(b) == b + seq(COMMAND_SIZE - |b|, _ => 0);
    StripPadding(b, COMMAND_SIZE - |b|);
  }

  // ----- Building and parsing -----

  /** build_message; None where encode or struct.pack raises */
  function BuildMessage(h: Hash, command: string, payload: seq<byte>): Option<seq<byte>> {
    if IsAscii(command) && |payload| < Pow(256, 4)
    then Some(NETWORK_MAGIC + Fit(Encode(command)) + ToLittle(|payload|, 4) + Checksum(h, payload) + payload)
    else None
  }

  function ParseMessage(h: Hash, data: seq<byte>): Option<Parse> {
    if |data| < HEADER_SIZE then None
    else if data[..4] != NETWORK_MAGIC then None
    else
      var length := FromLittle(data[16..20]);
      if length > MESSAGE_MAX_SIZE then None
      else if |data| < HEADER_SIZE + length then None
      else
        var payload := data[HEADER_SIZE..HEADER_SIZE + length];
        if Checksum(h, payload) != data[20..24] then None
        else Some(Parse(Message(Decode(Strip(data[4..16])), payload), HEADER_SIZE + length))
  }

  lemma MaxSizeFits()
    ensures MESSAGE_MAX_SIZE < Pow(256, 4)
  {
    assert Pow(256, 4) == 256 * (256 * (256 * (256 * 1)));
  }

  /** The parts of a frame, whatever follows it. */
  lemma FrameParts(h: Hash, command: string, payload: seq<byte>, rest: seq<byte>)
    requires BuildMessage(h, command, payload).Some?
    ensures var f := BuildMessage(h, command, payload).value; var data := f + rest;
      && |f| == HEADER_SIZE + |payload|
      && data[..4] == NETWORK_MAGIC
      && data[4..16] == Fit(Encode(command))
      && data[16..20] == ToLittle(|payload|, 4)
      && data[20..24] == Checksum(h, payload)
      && data[24..24 + |payload|] == payload
  {}

  // ----- Exactly what is built and parsed, on the bytes and the hash -----

  /** A command field: ASCII, anything else replaced, and zeros after the last character that is none */
  predicate IsCommand(field: seq<byte>, command: string) {
    && |command| <= |field|
    && (forall i :: 0 <= i < |command| ==> command[i] == if field[i] < 128 then field[i] as char else '\U{FFFD}')
    && (forall i :: |command| <= i < |field| ==> field[i] == 0)
    && (command != "" ==> field[|command| - 1] != 0)
  }

  lemma {:induction false} StripIsCommand(field: seq<byte>)
    ensures IsCommand(field, Decode(Strip(field)))
  {
    if field != [] && field[|field| - 1] == 0 {
      StripIsCommand(field[..|field| - 1]);
    }
  }

  lemma OneCommand(field: seq<byte>, a: string, b: string)
    requires IsCommand(field, a) && IsCommand(field, b)
    ensures a == b
  {
    assert |a| == |b|;
  }

  predicate IsFrame(h: Hash, data: seq<byte>, message: Message, consumed: nat) {
    && 24 <= consumed <= |data|
    && data[..4] == [0xbc, 0xc1, 0x42, 0x21]
    && IsCommand(data[4..16], message.command)
    && FromLittle(data[16..20]) == consumed - 24 <= 33_554_432
    && data[20..24] == h(message.payload)[..4]
    && message.payload == data[24..consumed]
  }

  /** A message parses exactly when a whole frame of it is in front: the magic, its command, its length, the first
      four bytes of the hash of its payload, and the payload. */
  lemma {:induction false} ParsesExactly(h: Hash, data: seq<byte>, message: Message, consumed: nat)
    ensures ParseMessage(h, data) == Some(Parse(message, consumed)) <==> IsFrame(h, data, message, consumed)
  {
    if HEADER_SIZE <= |data| {
      StripIsCommand(data[4..16]);
      if IsCommand(data[4..16], message.command) {
        OneCommand(data[4..16], message.command, Decode(Strip(data[4..16])));
      }
    }
  }

  /** A frame is built from ASCII commands, cut to 12 characters, and payloads whose length fits 32 bits. */
  lemma BuildsExactly(h: Hash, command: string, payload: seq<byte>)
    ensures BuildMessage(h, command, payload).Some? <==> IsAscii(command) && |payload| < 0x1_0000_0000
    ensures BuildMessage(h, command, payload).Some? ==>
              var f := BuildMessage(h, command, payload).value;
              && |f| == 24 + |payload| && f[..4] == [0xbc, 0xc1, 0x42, 0x21]
              && (forall i :: 0 <= i < 12 ==> f[4 + i] == if i < |command| then command[i] as int else 0)
              && FromLittle(f[16..20]) == |payload|
              && f[20..24] == h(payload)[..4] && f[24..] == payload
  {
    assert Pow(256, 4) == 256 * (256 * (256 * (256 * 1)));
    if BuildMessage(h, command, payload).Some? {
      var f := BuildMessage(h, command, payload).value;
      FrameParts(h, command, payload, []);
      assert f + [] == f;
      FromToLittle(|payload|, 4);
      forall i | 0 <= i < 12
        ensures f[4 + i] == if i < |command| then command[i] as int else 0
      {
        assert f[4 + i] == f[4..16][i] == Fit(Encode(command))[i];
      }
    }
  }

  /** A frame with its payload replaced on the way parses exactly when the first four bytes of the hashes agree. */
  lemma {:induction false} AlteredPayload(h: Hash, command: string, payload: seq<byte>, other: seq<byte>)
    requires IsAscii(command) && |payload| == |other| <= 33_554_432
    ensures BuildMessage(h, command, payload).Some?
    ensures var data := BuildMessage(h, command, payload).value[..24] + other;
            ParseMessage(h, data).Some? <==> h(payload)[..4] == h(other)[..4]
  {
    BuildsExactly(h, command, payload);
    var f := BuildMessage(h, command, payload).value;
    var data := f[..24] + other;
    assert data[..4] == f[..4] && data[16..20] == f[16..20] && data[20..24] == f[20..24] && data[24..] == other;
    var message := Message(Decode(Strip(data[4..16])), other);
    StripIsCommand(data[4..16]);
    ParsesExactly(h, data, message, |data|);
    assert data[24..|data|] == other;
    if ParseMessage(h, data).Some? {
      var p := ParseMessage(h, data).value;
      ParsesExactly(h, data, p.message, p.consumed);
      assert p.consumed == |data| && data[24..|data|] == other;
    }
  }

  /** A built frame parses to its canonical command and payload, whatever follows. */
  lemma ParseBuilt(h: Hash, command: string, payload: seq<byte>, rest: seq<byte>)
    requires BuildMessage(h, command, payload).Some? && |payload| <= MESSAGE_MAX_SIZE
    ensures var f := BuildMessage(h, command, payload).value;
      ParseMessage(h, f + rest) == Some(Parse(Message(Canonical(command), payload), |f|))
  {
    FrameParts(h, command, payload, rest);
    MaxSizeFits();
    FromToLittle(|payload|, 4);
  }

  /** No proper prefix of a frame parses. */
  lemma ParseCut(h: Hash, command: string, payload: seq<byte>, data: seq<byte>)
    requires BuildMessage(h, command, payload).Some?
    requires data < BuildMessage(h, command, payload).value
    ensures ParseMessage(h, data) == None
  {
    var f := BuildMessage(h, command, payload).value;
    if HEADER_SIZE <= |data| {
      FrameParts(h, command, payload, []);
      assert f + [] == f;
      assert data[16..20] == f[16..20];
      FromToLittle(|payload|, 4);
    }
  }

  /** Once a message parses, later bytes do not change it. */
  lemma ParseStable(h: Hash, data: seq<byte>, more: seq<byte>)
    requires ParseMessage(h, data).Some?
    ensures HEADER_SIZE <= ParseMessage(h, data).value.consumed <= |data|
    ensures ParseMessage(h, data + more) == ParseMessage(h, data)
  {
    var all := data + more;
    assert all[..4] == data[..4];
    assert all[4..16] == data[4..16];
    assert all[16..20] == data[16..20];
    assert all[20..24] == data[20..24];
    var length := FromLittle(data[16..20]);
    assert all[24..24 + length] == data[24..24 + length];
  }

  // ----- The peer loop on this format -----

  function ParserOf(h: Hash): Parser {
    data => ParseMessage(h, data)
  }

  lemma ParserLaws(h: Hash)
    ensures Bounded(ParserOf(h)) && Stable(ParserOf(h))
  {
    forall d | ParseMessage(h, d).Some?
      ensures HEADER_SIZE <= ParseMessage(h, d).value.consumed <= |d|
    {
      ParseStable(h, d, []);
    }
    forall d, more | ParseMessage(h, d).Some?
      ensures ParseMessage(h, d + more) == ParseMessage(h, d)
    {
      ParseStable(h, d, more);
    }
  }

  /** A message as it was handed to build_message */
  datatype Sent = Sent(command: string, payload: seq<byte>)

  /** Messages that can be built, with payloads that parse */
  predicate Built(h: Hash, ms: seq<Sent>) {
    forall i :: 0 <= i < |ms| ==>
      BuildMessage(h, ms[i].command, ms[i].payload).Some? && |ms[i].payload| <= MESSAGE_MAX_SIZE
  }

  function Frames(h: Hash, ms: seq<Sent>): (fs: seq<Frame>)
    requires Built(h, ms)
    ensures |fs| == |ms|
  {
    seq(|ms|, i requires 0 <= i < |ms| =>
      Frame(BuildMessage(h, ms[i].command, ms[i].payload).value, Message(Canonical(ms[i].command), ms[i].payload)))
  }

  lemma BuiltIsFaithful(h: Hash, command: string, payload: seq<byte>)
    requires BuildMessage(h, command, payload).Some? && |payload| <= MESSAGE_MAX_SIZE
    ensures Faithful(ParserOf(h), Frame(BuildMessage(h, command, payload).value, Message(Canonical(command), payload)))
  {
    var f := BuildMessage(h, command, payload).value;
    FrameParts(h, command, payload, []);
    forall rest
      ensures ParseMessage(h, f + rest) == Some(Parse(Message(Canonical(command), payload), |f|))
    {
      ParseBuilt(h, command, payload, rest);
    }
    forall d | d < f
      ensures ParseMessage(h, d) == None
    {
      ParseCut(h, command, payload, d);
    }
  }

  lemma FramesFaithful(h: Hash, ms: seq<Sent>)
    requires Built(h, ms)
    ensures AllFaithful(ParserOf(h), Frames(h, ms))
  {
    forall i | 0 <= i < |ms|
      ensures Faithful(ParserOf(h), Frames(h, ms)[i])
    {
      BuiltIsFaithful(h, ms[i].command, ms[i].payload);
    }
  }

  /** The peer loop on any part of a stream of built messages with room at every frame, cut into reads in any
      way: no overflow, exactly the whole messages in order, and a proper prefix of the next frame buffered. */
  lemma {:induction false} BuiltStreamReassembles(h: Hash, ms: seq<Sent>, chunks: seq<seq<byte>>)
    requires Built(h, ms) && HasRoom(Frames(h, ms)) && Reads(chunks) && Concat(chunks) <= Stream(Frames(h, ms))
    ensures Bounded(ParserOf(h))
    ensures var s, fs := Feed(ParserOf(h), [], chunks), Frames(h, ms);
      var k := WholeFrames(fs, |Concat(chunks)|);
      && !s.overflow
      && |s.messages| == k
      && (forall i :: 0 <= i < k ==> s.messages[i] == Message(Canonical(ms[i].command), ms[i].payload))
      && Pending(fs[k..], s.buffer)
      && Concat(chunks) == Stream(fs[..k]) + s.buffer
  {
    ParserLaws(h);
    FramesFaithful(h, ms);
    Reassembly(ParserOf(h), Frames(h, ms), chunks);
  }

  /** The whole stream arrives as exactly the messages sent. */
  lemma {:induction false} BuiltStreamArrives(h: Hash, ms: seq<Sent>, chunks: seq<seq<byte>>)
    requires Built(h, ms) && HasRoom(Frames(h, ms)) && Reads(chunks) && Concat(chunks) == Stream(Frames(h, ms))
    ensures Bounded(ParserOf(h))
    ensures Feed(ParserOf(h), [], chunks) == Session(Messages(Frames(h, ms)), [], false)
  {
    ParserLaws(h);
    FramesFaithful(h, ms);
    WholeStream(ParserOf(h), Frames(h, ms), chunks);
  }

  /** Every split of every part of the stream is received exactly when there is room at every frame. */
  lemma {:induction false} BuiltRoomExactly(h: Hash, ms: seq<Sent>)
    requires Built(h, ms)
    ensures Bounded(ParserOf(h))
    ensures HasRoom(Frames(h, ms)) <==>
      forall chunks {:trigger Feed(ParserOf(h), [], chunks)} ::
        Reads(chunks) && Concat(chunks) <= Stream(Frames(h, ms)) ==> !Feed(ParserOf(h), [], chunks).overflow
  {
    ParserLaws(h);
    FramesFaithful(h, ms);
    RoomExactly(ParserOf(h), Frames(h, ms));
  }

  /** The parser takes payloads up to the cap, but the loop caps the buffer with the header in it:
      the last 24 sizes parse and are still never received. */
  lemma {:induction false} LargestPayloadsOverflow(h: Hash, command: string, payload: seq<byte>, chunks: seq<seq<byte>>)
    requires IsAscii(command) && MESSAGE_MAX_SIZE - HEADER_SIZE < |payload| <= MESSAGE_MAX_SIZE
    requires NonEmpty(chunks) && BuildMessage(h, command, payload) == Some(Concat(chunks))
    ensures ParseMessage(h, Concat(chunks)).Some? && Bounded(ParserOf(h))
    ensures Feed(ParserOf(h), [], chunks).overflow && Feed(ParserOf(h), [], chunks).messages == []
  {
    var f := Concat(chunks);
    ParserLaws(h);
    FrameParts(h, command, payload, []);
    ParseBuilt(h, command, payload, []);
    assert f + [] == f && [] + f == f;
    BuiltIsFaithful(h, command, payload);
    OversizedOverflows(ParserOf(h), Frame(f, Message(Canonical(command), payload)), [], chunks);
  }

  // ----- Streams that cannot be followed -----

  /** The first bytes are not those of the magic, the length is above the maximum, or the checksum is wrong. */
  predicate Broken(h: Hash, data: seq<byte>) {
    || !(data <= NETWORK_MAGIC || NETWORK_MAGIC <= data)
    || (20 <= |data| && MESSAGE_MAX_SIZE < FromLittle(data[16..20]))
    || (HEADER_SIZE <= |data| && HEADER_SIZE + FromLittle(data[16..20]) <= |data|
        && h(data[HEADER_SIZE..HEADER_SIZE + FromLittle(data[16..20])])[..4] != data[20..24])
  }

  lemma MagicInFront(data: seq<byte>, more: seq<byte>)
    requires NETWORK_MAGIC <= data + more
    ensures data <= NETWORK_MAGIC || NETWORK_MAGIC <= data
  {
    var all := data + more;
    if |data| < |NETWORK_MAGIC| {
      assert data == all[..|data|] == NETWORK_MAGIC[..|data|];
    } else {
      assert data[..|NETWORK_MAGIC|] == all[..|NETWORK_MAGIC|] == NETWORK_MAGIC;
    }
  }

  lemma BrokenLater(h: Hash, data: seq<byte>, more: seq<byte>)
    requires Broken(h, data)
    ensures ParseMessage(h, data + more) == None
  {
    var all := data + more;
    if data <= NETWORK_MAGIC || NETWORK_MAGIC <= data {
      assert all[16..20] == data[16..20];
      if FromLittle(data[16..20]) <= MESSAGE_MAX_SIZE {
        var end := HEADER_SIZE + FromLittle(data[16..20]);
        assert all[20..24] == data[20..24] && all[HEADER_SIZE..end] == data[HEADER_SIZE..end];
      }
    } else if HEADER_SIZE <= |all| && all[..4] == NETWORK_MAGIC {
      MagicInFront(data, more);
    }
  }

  /** A buffer that holds a header and as much as the header announces never parses, whatever follows, exactly when it
      does not parse now, and exactly when it is broken. */
  lemma {:induction false} StuckExactly(h: Hash, data: seq<byte>)
    requires HEADER_SIZE <= |data| && HEADER_SIZE + FromLittle(data[16..20]) <= |data|
    ensures Stuck(ParserOf(h), data) <==> Broken(h, data)
    ensures ParseMessage(h, data) == None <==> Broken(h, data)
  {
    if Broken(h, data) {
      forall more
        ensures ParserOf(h)(data + more) == None
      {
        BrokenLater(h, data, more);
      }
    }
    assert data + [] == data;
    assert ParserOf(h)(data + []) == ParseMessage(h, data);
    assert data[..4] == NETWORK_MAGIC <==> NETWORK_MAGIC <= data;
  }

  /** After the first broken bytes the peer delivers nothing, whatever is sent, until the cap ends the session. */
  lemma {:induction false} BrokenStreamDeliversNothing(h: Hash, data: seq<byte>, chunks: seq<seq<byte>>)
    requires Broken(h, data) && |data| <= MESSAGE_MAX_SIZE && NonEmpty(chunks)
    ensures Bounded(ParserOf(h))
    ensures var s := Feed(ParserOf(h), data, chunks);
      s.messages == [] && (s.overflow <==> MESSAGE_MAX_SIZE < |data + Concat(chunks)|)
  {
    ParserLaws(h);
    forall more
      ensures ParserOf(h)(data + more) == None
    {
      BrokenLater(h, data, more);
    }
    StuckForever(ParserOf(h), data, chunks);
  }

  /** Whole messages, then broken bytes: exactly the messages before them arrive, in every split. */
  lemma {:induction false} ArrivesUpToBreak(h: Hash, ms: seq<Sent>, broken: seq<byte>, chunks: seq<seq<byte>>)
    requires Built(h, ms) && Broken(h, broken) && NonEmpty(chunks)
    requires Concat(chunks) == Stream(Frames(h, ms)) + broken
    ensures Bounded(ParserOf(h))
    ensures var s := Feed(ParserOf(h), [], chunks);
      !s.overflow ==> s.messages == Messages(Frames(h, ms)) && s.buffer == broken
  {
    ParserLaws(h);
    FramesFaithful(h, ms);
    assert broken + [] == broken;
    BrokenLater(h, broken, []);
    if !Feed(ParserOf(h), [], chunks).overflow {
      FeedIsDrain(ParserOf(h), [], chunks);
      assert [] + Concat(chunks) == Concat(chunks);
      DrainThenNone(ParserOf(h), Frames(h, ms), broken);
    }
  }
}
