/** The length-prefixed frames in which the parent reports pane output and learns pane sizes. */
module PaneViewFrames {
  import opened Wrappers
  import opened ByteStreams

  const HEADER_SIZE: nat := 4
  const MAX_FRAME_SIZE: nat := 0x10_0000
  const OUTPUT_MESSAGE: Byte := 0
  const RESIZE_MESSAGE: Byte := 1

  datatype Message =
    | Output(trayKey: Bytes, pane: int, bytes: Bytes)
    | ResizePane(trayKey: Bytes, pane: int, rows: int, cols: int)

  // ----- big-endian numbers

  function Pow(n: nat): nat {
    if n == 0 then 1 else 256 * Pow(n - 1)
  }

  function BigEndian(v: nat, n: nat): (s: Bytes)
    ensures |s| == n
  {
    if n == 0 then [] else BigEndian(v / 256, n - 1) + [v % 256]
  }

  function ReadBig(s: Bytes): nat {
    if s == [] then 0 else ReadBig(s[..|s| - 1]) * 256 + s[|s| - 1]
  }

  /** Writing and reading a number of n bytes are inverse to each other. */
  lemma {:induction false} BigRoundTrip(v: nat, n: nat)
    requires v < Pow(n)
    ensures ReadBig(BigEndian(v, n)) == v
  {
    if n > 0 {
      var s := BigEndian(v, n);
      assert s[..|s| - 1] == BigEndian(v / 256, n - 1);
      assert v / 256 < Pow(n - 1);
      BigRoundTrip(v / 256, n - 1);
    }
  }

  lemma {:induction false} ReadRoundTrip(s: Bytes)
    ensures ReadBig(s) < Pow(|s|) && BigEndian(ReadBig(s), |s|) == s
  {
    if s != [] {
      var front, last := s[..|s| - 1], s[|s| - 1];
      ReadRoundTrip(front);
      var v := ReadBig(front) * 256 + last;
      assert v / 256 == ReadBig(front) && v % 256 == last;
      assert front + [last] == s;
    }
  }

  method AppendBig(output: Bytes, value: nat, n: nat) returns (r: Bytes)
    ensures r == output + BigEndian(value, n)
  {
    var digits: Bytes := [];
    var rest := value;
    for i := 0 to n
      invariant |digits| == i && BigEndian(value, n) == BigEndian(rest, n - i) + digits
    {
      ghost var before := BigEndian(rest, n - i);
      assert before + digits == BigEndian(rest / 256, n - i - 1) + ([rest % 256] + digits);
      digits := [rest % 256] + digits;
      rest := rest / 256;
    }
    return output + digits;
  }

  method ReadNumber(input: Bytes, offset: nat, n: nat) returns (value: nat)
    requires offset + n <= |input|
    ensures value == ReadBig(input[offset..offset + n])
  {
    value := 0;
    for i := 0 to n
      invariant value == ReadBig(input[offset..offset + i])
    {
      var s := input[offset..offset + i + 1];
      assert s[..i] == input[offset..offset + i] && s[i] == input[offset + i];
      value := value * 256 + input[offset + i];
    }
  }

  // ----- frames

  /** What can be put into a frame. */
  predicate Encodable(m: Message) {
    && |m.trayKey| < Pow(2) && 0 < m.pane < Pow(8)
    && (m.ResizePane? ==> 0 < m.rows < Pow(4) / 2 && 0 < m.cols < Pow(4) / 2)
    && |Body(m)| <= MAX_FRAME_SIZE
  }

  function Identity(key: Bytes, pane: nat): Bytes {
    BigEndian(|key|, 2) + key + BigEndian(pane, 8)
  }

  function Body(m: Message): Bytes {
    if m.Output? then [OUTPUT_MESSAGE] + Identity(m.trayKey, if m.pane < 0 then 0 else m.pane) + m.bytes
    else [RESIZE_MESSAGE] + Identity(m.trayKey, if m.pane < 0 then 0 else m.pane)
         + (BigEndian(if m.rows < 0 then 0 else m.rows, 4) + BigEndian(if m.cols < 0 then 0 else m.cols, 4))
  }

  function Frame(m: Message): Bytes {
    BigEndian(|Body(m)|, HEADER_SIZE) + Body(m)
  }

  /** Reading one message off the front of a buffer: more bytes are needed, the bytes make no sense, or a message.
      A frame of an impossible size is left in place; any other frame is taken off, also if it makes no sense. */
  datatype Reading = NeedMore | Malformed(rest: Bytes) | Got(message: Message, rest: Bytes)

  datatype IdentityReading = NoIdentity | HasIdentity(key: Bytes, pane: nat, next: nat)

  function ReadIdentity(payload: Bytes): (r: IdentityReading)
    ensures r.HasIdentity? ==> r.next <= |payload|
  {
    if |payload| < 10 then NoIdentity
    else
      var at := 2 + ReadBig(payload[..2]);
      if |payload| < at + 8 then NoIdentity
      else
        var pane := ReadBig(payload[at..at + 8]);
        if pane == 0 then NoIdentity else HasIdentity(payload[2..at], pane, at + 8)
  }

  function ReadResize(payload: Bytes): Option<Message> {
    var identity := ReadIdentity(payload);
    if identity.NoIdentity? || |payload| != identity.next + 8 then None
    else
      var rows, cols := ReadBig(payload[identity.next..identity.next + 4]),
                        ReadBig(payload[identity.next + 4..identity.next + 8]);
      if rows == 0 || cols == 0 || rows >= Pow(4) / 2 || cols >= Pow(4) / 2 then None
      else Some(ResizePane(identity.key, identity.pane, rows, cols))
  }

  function ReadBody(body: Bytes): Option<Message>
    requires body != []
  {
    var payload := body[1..];
    if body[0] == OUTPUT_MESSAGE then
      var identity := ReadIdentity(payload);
      if identity.NoIdentity? then None else Some(Output(identity.key, identity.pane, payload[identity.next..]))
    else if body[0] == RESIZE_MESSAGE then ReadResize(payload)
    else None
  }

  function ReadFrame(buffer: Bytes): Reading {
    if |buffer| < HEADER_SIZE then NeedMore
    else
      var size := ReadBig(buffer[..HEADER_SIZE]);
      if size == 0 || size > MAX_FRAME_SIZE then Malformed(buffer)
      else if |buffer| < HEADER_SIZE + size then NeedMore
      else
        var m := ReadBody(buffer[HEADER_SIZE..HEADER_SIZE + size]);
        var rest := buffer[HEADER_SIZE + size..];
        if m.None? then Malformed(rest) else Got(m.value, rest)
  }

  lemma {:induction false} Powers()
    ensures Pow(2) == 0x1_0000 && Pow(4) == 0x1_0000_0000 && Pow(8) == 0x1_0000_0000_0000_0000
  {
    assert Pow(0) == 1 && Pow(1) == 256 && Pow(2) == 0x1_0000 && Pow(3) == 0x100_0000 && Pow(4) == 0x1_0000_0000;
    assert Pow(5) == 256 * Pow(4) && Pow(6) == 256 * Pow(5) && Pow(7) == 256 * Pow(6) && Pow(8) == 256 * Pow(7);
  }

  lemma {:induction false} IdentityRead(key: Bytes, pane: nat, rest: Bytes)
    requires |key| < Pow(2) && 0 < pane < Pow(8)
    ensures ReadIdentity(Identity(key, pane) + rest) == HasIdentity(key, pane, |key| + 10)
    ensures (Identity(key, pane) + rest)[|key| + 10..] == rest
  {
    hide BigEndian, ReadBig, Pow;
    var payload := Identity(key, pane) + rest;
    BigRoundTrip(|key|, 2);
    BigRoundTrip(pane, 8);
    var at := 2 + |key|;
    assert payload[..2] == BigEndian(|key|, 2) && payload[2..at] == key && payload[at..at + 8] == BigEndian(pane, 8);
  }

  lemma {:induction false} BodyRead(m: Message)
    requires Encodable(m)
    ensures Body(m) != [] && ReadBody(Body(m)) == Some(m)
  {
    hide BigEndian, ReadBig, Pow, Identity, ReadIdentity, ReadResize;
    var payload := Body(m)[1..];
    if m.Output? {
      assert payload == Identity(m.trayKey, m.pane) + m.bytes;
      IdentityRead(m.trayKey, m.pane, m.bytes);
    } else {
      var sizes := BigEndian(m.rows, 4) + BigEndian(m.cols, 4);
      assert payload == Identity(m.trayKey, m.pane) + sizes;
      ResizeRead(m);
    }
  }

  lemma {:induction false} ResizeRead(m: Message)
    requires Encodable(m) && m.ResizePane?
    ensures ReadResize(Identity(m.trayKey, m.pane) + (BigEndian(m.rows, 4) + BigEndian(m.cols, 4))) == Some(m)
  {
    hide BigEndian, ReadBig, Pow, Identity, ReadIdentity, Body;
    var rows, cols := BigEndian(m.rows, 4), BigEndian(m.cols, 4);
    var payload := Identity(m.trayKey, m.pane) + (rows + cols);
    IdentityRead(m.trayKey, m.pane, rows + cols);
    PowGrows();
    BigRoundTrip(m.rows, 4);
    BigRoundTrip(m.cols, 4);
    IdentitySize(m.trayKey, m.pane);
    var at := |m.trayKey| + 10;
    assert payload[at..at + 4] == rows && payload[at + 4..at + 8] == cols;
  }

  lemma {:induction false} PowGrows()
    ensures Pow(4) / 2 <= Pow(4)
  {
    Powers();
  }

  lemma {:induction false} IdentitySize(key: Bytes, pane: nat)
    ensures |Identity(key, pane)| == |key| + 10
  {
  }

  /** A frame followed by anything is read back whole, leaving what follows. */
  lemma {:induction false} FrameRead(m: Message, rest: Bytes)
    requires Encodable(m)
    ensures ReadFrame(Frame(m) + rest) == Got(m, rest)
  {
    hide BigEndian, ReadBig, Pow, Body, ReadBody;
    Powers();
    BodyRead(m);
    var size := |Body(m)|;
    BigRoundTrip(size, HEADER_SIZE);
    var buffer := Frame(m) + rest;
    assert buffer[..HEADER_SIZE] == BigEndian(size, HEADER_SIZE);
    assert buffer[HEADER_SIZE..HEADER_SIZE + size] == Body(m) && buffer[HEADER_SIZE + size..] == rest;
  }

  /** Nothing else is read as a message: what is read is exactly a frame and what follows it. */
  lemma {:induction false} ReadIsFrame(buffer: Bytes)
    requires ReadFrame(buffer).Got?
    ensures Encodable(ReadFrame(buffer).message) && buffer == Frame(ReadFrame(buffer).message) + ReadFrame(buffer).rest
  {
    hide BigEndian, ReadBig, Pow, Body, ReadBody, Encodable;
    var size := ReadBig(buffer[..HEADER_SIZE]);
    var body := buffer[HEADER_SIZE..HEADER_SIZE + size];
    ReadRoundTrip(buffer[..HEADER_SIZE]);
    ReadIsBody(body);
    assert buffer == buffer[..HEADER_SIZE] + body + buffer[HEADER_SIZE + size..];
  }

  lemma {:induction false} ReadIsBody(body: Bytes)
    requires body != [] && |body| <= MAX_FRAME_SIZE && ReadBody(body).Some?
    ensures Encodable(ReadBody(body).value) && Body(ReadBody(body).value) == body
  {
    hide BigEndian, ReadBig, Pow, Identity;
    var payload := body[1..];
    var identity := ReadIdentity(payload);
    ReadIsIdentity(payload);
    assert body == [body[0]] + payload;
    if body[0] == RESIZE_MESSAGE {
      var rows, cols := payload[identity.next..identity.next + 4], payload[identity.next + 4..identity.next + 8];
      ReadRoundTrip(rows);
      ReadRoundTrip(cols);
      assert payload[identity.next..] == rows + cols;
    }
  }

  lemma {:induction false} ReadIsIdentity(payload: Bytes)
    requires ReadIdentity(payload).HasIdentity?
    ensures var r := ReadIdentity(payload);
            && |r.key| < Pow(2) && 0 < r.pane < Pow(8)
            && payload == Identity(r.key, r.pane) + payload[r.next..]
  {
    hide BigEndian, ReadBig, Pow;
    var r := ReadIdentity(payload);
    var at := 2 + ReadBig(payload[..2]);
    ReadRoundTrip(payload[..2]);
    ReadRoundTrip(payload[at..at + 8]);
    assert |r.key| == ReadBig(payload[..2]);
    assert payload == payload[..2] + payload[2..at] + payload[at..at + 8] + payload[at + 8..];
  }

  /** The start of a frame asks for more. */
  lemma {:induction false} CutFrame(m: Message, part: Bytes)
    requires Encodable(m) && part < Frame(m)
    ensures ReadFrame(part) == NeedMore
  {
    hide BigEndian, ReadBig, Pow, Body;
    Powers();
    BodyRead(m);
    if |part| >= HEADER_SIZE {
      BigRoundTrip(|Body(m)|, HEADER_SIZE);
      assert part[..HEADER_SIZE] == Frame(m)[..HEADER_SIZE] == BigEndian(|Body(m)|, HEADER_SIZE);
    }
  }

  // ----- encoding and decoding

  method AppendIdentity(output: Bytes, key: Bytes, pane: nat) returns (r: Outcome<Bytes>)
    ensures r.Rejected? <==> |key| >= Pow(2)
    ensures r.Done? ==> r.value == output + Identity(key, pane)
  {
    hide BigEndian, Pow;
    Powers();
    if |key| > 0xFFFF {
      return Rejected;
    }
    var s := AppendBig(output, |key|, 2);
    s := s + key;
    s := AppendBig(s, pane, 8);
    return Done(s);
  }

  /** Pane ids are positive 64-bit numbers and sizes 32-bit ones; the rest is checked here. */
  method EncodeFrame(m: Message) returns (r: Outcome<Bytes>)
    requires 0 < m.pane < Pow(8) && (m.ResizePane? ==> m.rows < Pow(4) / 2 && m.cols < Pow(4) / 2)
    ensures r.Done? <==> Encodable(m)
    ensures r.Done? ==> r.value == Frame(m)
  {
    hide BigEndian, Pow;
    var body: Bytes;
    if m.Output? {
      var identity := AppendIdentity([OUTPUT_MESSAGE], m.trayKey, m.pane);
      if identity.Rejected? {
        return Rejected;
      }
      body := identity.value + m.bytes;
    } else {
      if m.rows <= 0 || m.cols <= 0 {
        return Rejected;
      }
      var identity := AppendIdentity([RESIZE_MESSAGE], m.trayKey, m.pane);
      if identity.Rejected? {
        return Rejected;
      }
      body := AppendBig(identity.value, m.rows, 4);
      body := AppendBig(body, m.cols, 4);
    }
    assert body == Body(m);
    if |body| > MAX_FRAME_SIZE {
      return Rejected;
    }
    var frame := AppendBig([], |body|, HEADER_SIZE);
    return Done(frame + body);
  }

  method DecodeIdentity(payload: Bytes) returns (r: IdentityReading)
    ensures r == ReadIdentity(payload)
  {
    if |payload| < 10 {
      return NoIdentity;
    }
    var length := ReadNumber(payload, 0, 2);
    var paneOffset := 2 + length;
    if |payload| < paneOffset + 8 {
      return NoIdentity;
    }
    var pane := ReadNumber(payload, paneOffset, 8);
    if pane == 0 {
      return NoIdentity;
    }
    return HasIdentity(payload[2..paneOffset], pane, paneOffset + 8);
  }

  method DecodeResize(payload: Bytes) returns (r: Option<Message>)
    ensures r == ReadResize(payload)
  {
    hide ReadBig, Pow;
    var identity := DecodeIdentity(payload);
    if identity.NoIdentity? || |payload| != identity.next + 8 {
      return None;
    }
    var rows := ReadNumber(payload, identity.next, 4);
    var cols := ReadNumber(payload, identity.next + 4, 4);
    Powers();
    if rows == 0 || cols == 0 || rows > 0x7FFF_FFFF || cols > 0x7FFF_FFFF {
      return None;
    }
    return Some(ResizePane(identity.key, identity.pane, rows, cols));
  }

  /** The receiving end: chunks are appended and whole frames taken off the front. */
  class FrameReader {
    var buffer: Bytes

    constructor ()
      ensures buffer == []
    {
      buffer := [];
    }

    method Append(bytes: Bytes)
      modifies this
      ensures buffer == old(buffer) + bytes
    {
      buffer := buffer + bytes;
    }

    /** Take one message off the buffer. A frame of an impossible size is left in place, any other frame that
        makes no sense is dropped. */
    method Decode() returns (r: Outcome<Option<Message>>)
      modifies this
      ensures var reading := ReadFrame(old(buffer));
              && (r.Rejected? <==> reading.Malformed?)
              && (r == Done(None) <==> reading.NeedMore?)
              && (reading.Got? ==> r == Done(Some(reading.message)))
              && buffer == if reading.NeedMore? then old(buffer) else reading.rest
    {
      hide ReadBig, ReadResize, ReadIdentity;
      if |buffer| < HEADER_SIZE {
        return Done(None);
      }
      var bodySize := ReadNumber(buffer, 0, HEADER_SIZE);
      if bodySize == 0 || bodySize > MAX_FRAME_SIZE {
        return Rejected;
      }
      if |buffer| < HEADER_SIZE + bodySize {
        return Done(None);
      }
      var body := buffer[HEADER_SIZE..HEADER_SIZE + bodySize];
      buffer := buffer[HEADER_SIZE + bodySize..];
      var payload := body[1..];
      if body[0] == OUTPUT_MESSAGE {
        var identity := DecodeIdentity(payload);
        if identity.NoIdentity? {
          return Rejected;
        }
        return Done(Some(Output(identity.key, identity.pane, payload[identity.next..])));
      }
      if body[0] == RESIZE_MESSAGE {
        var resize := DecodeResize(payload);
        if resize.None? {
          return Rejected;
        }
        return Done(Some(resize.value));
      }
      return Rejected;
    }

    /** Take all whole messages off the buffer, up to one that makes no sense. */
    method DecodeAll() returns (messages: seq<Message>, malformed: bool)
      modifies this
      ensures ReadAll(old(buffer)) == Stream(messages, buffer, malformed)
    {
      hide ReadFrame, ReadAll;
      ghost var start := buffer;
      messages := [];
      NothingPrepended(ReadAll(start));
      while true
        invariant ReadAll(start) == Prepended(messages, ReadAll(buffer))
        decreases |buffer|
      {
        ghost var before := buffer;
        ReadAllStep(buffer);
        var message := Decode();
        if message.Rejected? {
          assert messages + [] == messages;
          return messages, true;
        }
        if message.value.None? {
          assert messages + [] == messages;
          return messages, false;
        }
        PrependedTwice(messages, [message.value.value], ReadAll(buffer));
        messages := messages + [message.value.value];
      }
    }
  }

  // ----- whole streams

  /** The messages read off a buffer, what is left behind them, and whether that is because of a frame that makes
      no sense. */
  datatype Stream = Stream(messages: seq<Message>, rest: Bytes, malformed: bool)

  lemma {:induction false} ReadShrinks(buffer: Bytes)
    ensures ReadFrame(buffer).Got? ==> |ReadFrame(buffer).rest| < |buffer|
  {
  }

  function Prepended(ms: seq<Message>, s: Stream): Stream {
    s.(messages := ms + s.messages)
  }

  lemma {:induction false} PrependedTwice(a: seq<Message>, b: seq<Message>, s: Stream)
    ensures Prepended(a, Prepended(b, s)) == Prepended(a + b, s)
  {
    assert a + (b + s.messages) == (a + b) + s.messages;
  }

  lemma {:induction false} NothingPrepended(s: Stream)
    ensures Prepended([], s) == s
  {
    assert [] + s.messages == s.messages;
  }

  /** All messages at the front of a buffer. */
  ghost function ReadAll(buffer: Bytes): Stream
    decreases |buffer|
  {
    var reading := ReadFrame(buffer);
    if reading.Malformed? then Stream([], reading.rest, true)
    else if reading.NeedMore? then Stream([], buffer, false)
    else ReadShrinks(buffer); Prepended([reading.message], ReadAll(reading.rest))
  }

  function Frames(ms: seq<Message>): Bytes {
    if ms == [] then [] else Frame(ms[0]) + Frames(ms[1..])
  }

  /** The stream is a row of frames with the start of another behind them. */
  ghost predicate Carries(stream: Bytes, ms: seq<Message>, next: Message, part: Bytes) {
    (forall m :: m in ms ==> Encodable(m)) && Encodable(next) && part < Frame(next) && stream == Frames(ms) + part
  }

  /** Frames in a row, with the start of another behind them, are read as their messages in order. */
  lemma {:induction false} FramesRead(ms: seq<Message>, next: Message, part: Bytes)
    requires Carries(Frames(ms) + part, ms, next, part)
    ensures ReadAll(Frames(ms) + part) == Stream(ms, part, false)
  {
    hide Frame, ReadFrame, ReadAll, Encodable;
    if ms == [] {
      assert [] + part == part;
      CutFrame(next, part);
      ReadAllStep(part);
    } else {
      var rest := Frames(ms[1..]) + part;
      FrameRead(ms[0], rest);
      assert Frames(ms) + part == Frame(ms[0]) + rest;
      ReadAllStep(Frame(ms[0]) + rest);
      FramesRead(ms[1..], next, part);
      assert [ms[0]] + ms[1..] == ms;
    }
  }

  /** What makes no sense makes no more with bytes behind it. */
  lemma {:induction false} MalformedStays(a: Bytes, b: Bytes)
    requires ReadFrame(a).Malformed?
    ensures ReadFrame(a + b) == Malformed(ReadFrame(a).rest + b)
  {
    hide ReadBig, ReadBody;
    assert (a + b)[..HEADER_SIZE] == a[..HEADER_SIZE];
    var size := ReadBig(a[..HEADER_SIZE]);
    if 0 < size <= MAX_FRAME_SIZE {
      assert (a + b)[HEADER_SIZE..HEADER_SIZE + size] == a[HEADER_SIZE..HEADER_SIZE + size];
      assert (a + b)[HEADER_SIZE + size..] == a[HEADER_SIZE + size..] + b;
    }
  }

  /** It makes no difference where a stream is cut: reading what has arrived and then the rest with what was left
      over gives the same messages, and a frame that makes no sense is met in the same place. */
  lemma {:induction false} ReadInChunks(a: Bytes, b: Bytes)
    ensures var s := ReadAll(a);
            ReadAll(a + b) == if s.malformed then Stream(s.messages, s.rest + b, true)
                              else Prepended(s.messages, ReadAll(s.rest + b))
    decreases |a|
  {
    hide ReadFrame, Frame, ReadAll, Encodable;
    var reading := ReadFrame(a);
    ReadAllStep(a);
    if reading.NeedMore? {
      NothingPrepended(ReadAll(a + b));
    } else if reading.Malformed? {
      MalformedStays(a, b);
      ReadAllStep(a + b);
    } else {
      var rest := reading.rest;
      ReadIsFrame(a);
      FrameRead(reading.message, rest + b);
      assert a + b == Frame(reading.message) + (rest + b);
      ReadAllStep(a + b);
      ReadInChunks(rest, b);
      var s := ReadAll(rest);
      PrependedTwice([reading.message], s.messages, ReadAll(s.rest + b));
    }
  }

  /** No part of a good stream that has arrived is ever found to make no sense. */
  lemma {:induction false} PrefixDone(a: Bytes, ms: seq<Message>, next: Message, part: Bytes)
    requires Carries(Frames(ms) + part, ms, next, part) && a <= Frames(ms) + part
    ensures !ReadAll(a).malformed
  {
    hide ReadAll, Carries;
    var whole := Frames(ms) + part;
    assert whole == a + whole[|a|..];
    ReadInChunks(a, whole[|a|..]);
    FramesRead(ms, next, part);
  }

  /** Chunks are appended and decoded until one shows a frame that makes no sense. The messages are those of the
      whole stream however it is cut, and all of them arrive if the stream is a row of frames. */
  method ReadChunks(chunks: seq<Bytes>) returns (reader: FrameReader, messages: seq<Message>, malformed: bool)
    ensures malformed <==> ReadAll(Concat(chunks)).malformed
    ensures messages == ReadAll(Concat(chunks)).messages
    ensures !malformed ==> reader.buffer == ReadAll(Concat(chunks)).rest
    ensures forall ms, next, part :: Carries(Concat(chunks), ms, next, part) ==>
              !malformed && messages == ms && reader.buffer == part
  {
    hide ReadAll, Carries, ReadFrame;
    reader := new FrameReader();
    messages, malformed := [], false;
    var i := 0;
    NothingRead();
    while i < |chunks| && !malformed
      invariant 0 <= i <= |chunks| && fresh(reader)
      invariant var s := ReadAll(Concat(chunks[..i]));
                messages == s.messages && malformed == s.malformed && (!malformed ==> reader.buffer == s.rest)
    {
      assert chunks[..i + 1][..i] == chunks[..i] && chunks[..i + 1][i] == chunks[i];
      ReadInChunks(Concat(chunks[..i]), chunks[i]);
      reader.Append(chunks[i]);
      var more;
      more, malformed := reader.DecodeAll();
      messages := messages + more;
      i := i + 1;
    }
    var rest := ConcatRest(chunks, i);
    ReadInChunks(Concat(chunks[..i]), rest);
    forall ms, next, part | Carries(Concat(chunks), ms, next, part)
      ensures !malformed && messages == ms && reader.buffer == part
    {
      CarriedRead(Concat(chunks), ms, next, part);
    }
  }

  lemma {:induction false} CarriedRead(stream: Bytes, ms: seq<Message>, next: Message, part: Bytes)
    requires Carries(stream, ms, next, part)
    ensures ReadAll(stream) == Stream(ms, part, false)
  {
    hide ReadAll;
    FramesRead(ms, next, part);
  }

  lemma {:induction false} NothingRead()
    ensures Concat([]) == [] && ReadAll([]) == Stream([], [], false)
  {
  }

  lemma {:induction false} ConcatRest(chunks: seq<Bytes>, i: nat) returns (rest: Bytes)
    requires i <= |chunks|
    ensures Concat(chunks) == Concat(chunks[..i]) + rest
    ensures i == |chunks| ==> Concat(chunks[..i]) == Concat(chunks)
  {
    if i == |chunks| {
      rest := [];
      assert chunks[..i] == chunks;
    } else {
      var n := |chunks| - 1;
      var before := ConcatRest(chunks[..n], i);
      assert chunks[..n][..i] == chunks[..i];
      rest := before + chunks[n];
    }
  }

  lemma {:induction false} ReadAllStep(buffer: Bytes)
    ensures var reading := ReadFrame(buffer);
            && (reading.NeedMore? ==> ReadAll(buffer) == Stream([], buffer, false))
            && (reading.Malformed? ==> ReadAll(buffer) == Stream([], reading.rest, true))
            && (reading.Got? ==>
                  |reading.rest| < |buffer| && ReadAll(buffer) == Prepended([reading.message], ReadAll(reading.rest)))
  {
    hide ReadFrame;
    ReadShrinks(buffer);
  }
}
