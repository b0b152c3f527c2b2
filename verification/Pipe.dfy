/**
 The frames a worker process sends to the reactors: the worker's side with its
 buffer that the pipe drains piece by piece (worker.c), and the frame reader of
 the master (aeserver.c).
 */
module Pipe {
  import opened Common

  const HEADER_LENGTH: nat := 9          // a char and two ints, packed
  const DATA_LENGTH: nat := 1024
  const MESSAGE: byte := 2
  const CLOSE: byte := 3
  const WORD32: int := 0x1_0000_0000

  type int32 = x: int | -0x8000_0000 <= x < 0x8000_0000

  // ---------------------------------------------------------------- headers

  /** An int in memory, lowest byte first. */
  function Bytes4(x: int32): (b: seq<byte>)
    ensures |b| == 4
  {
    var u := if x < 0 then x + WORD32 else x;
    [u % 256, u / 256 % 256, u / 65536 % 256, u / 0x100_0000 % 256]
  }

  function Int4(b: seq<byte>): int32
    requires |b| == 4
  {
    var u := b[0] as int + b[1] as int * 256 + b[2] as int * 65536 + b[3] as int * 0x100_0000;
    if u < 0x8000_0000 then u else u - WORD32
  }

  lemma Int4Bytes4(x: int32)
    ensures Int4(Bytes4(x)) == x
  {
    FourBytes(if x < 0 then x + WORD32 else x);
  }

  lemma FourBytes(u: nat)
    requires u < WORD32
    ensures u / 0x100_0000 % 256 == u / 0x100_0000
    ensures u == u % 256 + u / 256 % 256 * 256 + u / 65536 % 256 * 65536 + u / 0x100_0000 * 0x100_0000
  {
    var v := u / 256;
    var w := v / 256;
    assert u / 65536 == w && u / 0x100_0000 == w / 256;
    assert u == v * 256 + u % 256;
    assert v == w * 256 + v % 256;
    assert w == w / 256 * 256 + w % 256;
  }

  function Header(kind: byte, len: int32, connfd: int32): (h: seq<byte>)
    ensures |h| == HEADER_LENGTH
  {
    [kind] + Bytes4(len) + Bytes4(connfd)
  }

  // ------------------------------------------------------------ worker's calls

  datatype Protocol = Tcp | Http | WebSocket

  /**
   sendMessageToReactor and sendCloseEventToReactor. The response is what
   createResponse or wsMakeFrame makes of the arguments.
   */
  datatype Call =
    | Send(connfd: int32, protocol: Protocol, buff: seq<byte>, len: int32, response: seq<byte>)
    | Close(connfd: int32, protocol: Protocol, response: seq<byte>)

  /** The length argument is that of the buffer, or negative; lengths fit an int. */
  predicate WellFormed(c: Call) {
    && |c.response| < 0x8000_0000
    && (c.Send? && c.len >= 0 ==> c.len == |c.buff|)
  }

  /** The len field of the header. */
  function Announced(c: Call): int32
    requires WellFormed(c)
  {
    match c
    case Send(_, protocol, _, len, response) => if protocol == Tcp then len else |response|
    case Close(_, protocol, response) => if protocol == WebSocket then |response| else 0
  }

  function Body(c: Call): seq<byte> {
    match c
    case Send(_, protocol, buff, len, response) => if len < 0 then [] else if protocol == Tcp then buff else response
    case Close(_, _, _) => []
  }

  /** What the call appends to the buffer. */
  function Frame(c: Call): (f: seq<byte>)
    requires WellFormed(c)
    ensures |f| >= HEADER_LENGTH
  {
    Header(if c.Send? then MESSAGE else CLOSE, Announced(c), c.connfd) + Body(c)
  }

  // ---------------------------------------------------------- master's reader

  datatype Event =
    | Data(connfd: int32, bytes: seq<byte>)     // appended to the client's buffer
    | Closed(connfd: int32)
    | Nothing                                   // a message without a body
    | Unknown
    | Short                                     // not a whole header
    | Overrun                                   // the body does not fit the reader's block

  /**
   onMasterPipeReadable with readBodyFromPipe: what it does and what it leaves
   in the pipe. A body of which nothing has come yet is EAGAIN.
   */
  function ReadFrame(stream: seq<byte>): (r: (Event, seq<byte>))
    ensures stream != [] ==> |r.1| < |stream|
    ensures r.0.Data? ==> r.0.bytes != []
  {
    if |stream| < HEADER_LENGTH then (Short, [])
    else
      var len, connfd, rest := Int4(stream[1..5]), Int4(stream[5..9]), stream[9..];
      if stream[0] == MESSAGE then
        if len <= 0 || rest == [] then (Nothing, rest)
        else if len > DATA_LENGTH then (Overrun, [])
        else
          var nread := if len <= |rest| then len else |rest|;
          (Data(connfd, rest[..nread]), rest[nread..])
      else if stream[0] == CLOSE then (Closed(connfd), rest)
      else (Unknown, rest)
  }

  /** The reader runs until the pipe is empty. */
  function ReadAll(stream: seq<byte>): seq<Event>
    decreases |stream|
  {
    if stream == [] then [] else [ReadFrame(stream).0] + ReadAll(ReadFrame(stream).1)
  }

  /** What a client is to be sent: the text itself on a TCP connection, otherwise the response made of it. */
  function Text(c: Call): seq<byte>
    requires c.Send?
  {
    if c.protocol == Tcp then c.buff else c.response
  }

  /** What a call means to the master. */
  function Meaning(c: Call): Event {
    if c.Close? then Closed(c.connfd)
    else if c.len < 0 || Text(c) == [] then Nothing else Data(c.connfd, Text(c))
  }

  /** The header announces the body that follows, and the reader has room for it. */
  predicate Sound(c: Call) {
    c.Send? ==>
      && (c.protocol == Tcp || c.len >= 0 || c.response == [])
      && (c.len >= 0 ==> |Text(c)| <= DATA_LENGTH)
  }

  lemma HeaderRead(kind: byte, len: int32, connfd: int32, rest: seq<byte>)
    ensures var s := Header(kind, len, connfd) + rest;
            |s| >= 9 && s[0] == kind && Int4(s[1..5]) == len && Int4(s[5..9]) == connfd && s[9..] == rest
  {
    hide Int4, Bytes4;
    var s := Header(kind, len, connfd) + rest;
    Int4Bytes4(len);
    Int4Bytes4(connfd);
    assert s[1..5] == Bytes4(len) && s[5..9] == Bytes4(connfd);
  }

  lemma FrameRead(c: Call, rest: seq<byte>)
    requires WellFormed(c) && Sound(c)
    ensures ReadFrame(Frame(c) + rest) == (Meaning(c), rest)
  {
    hide Header, Int4;
    var body := Body(c);
    var kind := if c.Send? then MESSAGE else CLOSE;
    assert Frame(c) + rest == Header(kind, Announced(c), c.connfd) + (body + rest);
    HeaderRead(kind, Announced(c), c.connfd, body + rest);
    assert (body + rest)[..|body|] == body && (body + rest)[|body|..] == rest;
  }

  /**
   What a client is handed: the text itself on a TCP connection, otherwise the
   response that was made of it, and nothing when that is empty.
   */
  lemma MessageRead(c: Call, rest: seq<byte>)
    requires WellFormed(c) && c.Send? && c.len >= 0
    requires |if c.protocol == Tcp then c.buff else c.response| <= DATA_LENGTH
    ensures var text := if c.protocol == Tcp then c.buff else c.response;
            ReadFrame(Frame(c) + rest) == (if text == [] then Nothing else Data(c.connfd, text), rest)
  {
    hide Header, ReadFrame, Frame;
    FrameRead(c, rest);
  }

  /** A close frame is nine bytes, whatever length it announces. */
  lemma CloseRead(c: Call, rest: seq<byte>)
    requires WellFormed(c) && c.Close?
    ensures ReadFrame(Frame(c) + rest) == (Closed(c.connfd), rest) && |Frame(c)| == HEADER_LENGTH
  {
    hide Header, ReadFrame;
    FrameRead(c, rest);
  }

  /** Less than a header is dropped; a frame of any other type is its header only. */
  lemma StrangeRead(stream: seq<byte>, kind: byte, len: int32, connfd: int32, rest: seq<byte>)
    requires kind != MESSAGE && kind != CLOSE
    ensures |stream| < HEADER_LENGTH ==> ReadFrame(stream) == (Short, [])
    ensures ReadFrame(Header(kind, len, connfd) + rest) == (Unknown, rest)
  {
    hide Header, Int4;
    HeaderRead(kind, len, connfd, rest);
  }

  /** The bytes of a header: the type, and two ints with their lowest byte first. */
  lemma HeaderBytes(kind: byte, len: int32, connfd: int32)
    ensures var h := Header(kind, len, connfd);
            && |h| == 9 && h[0] == kind
            && h[1] as int + 256 * h[2] as int + 65536 * h[3] as int + 0x100_0000 * h[4] as int
               == len + (if len < 0 then WORD32 else 0)
            && h[5] as int + 256 * h[6] as int + 65536 * h[7] as int + 0x100_0000 * h[8] as int
               == connfd + (if connfd < 0 then WORD32 else 0)
  {
    FourBytes(if len < 0 then len + WORD32 else len);
    FourBytes(if connfd < 0 then connfd + WORD32 else connfd);
  }

  /** The reader takes a call's bytes for what the call means, whatever follows, exactly when the call is sound. */
  lemma FrameReadIff(c: Call)
    requires WellFormed(c)
    ensures Sound(c) <==> forall rest :: ReadFrame(Frame(c) + rest) == (Meaning(c), rest)
  {
    hide Header, Int4;
    if Sound(c) {
      forall rest
        ensures ReadFrame(Frame(c) + rest) == (Meaning(c), rest)
      {
        FrameRead(c, rest);
      }
    } else {
      var body, one := Body(c), [MESSAGE];
      assert Frame(c) + one == Header(MESSAGE, Announced(c), c.connfd) + (body + one);
      HeaderRead(MESSAGE, Announced(c), c.connfd, body + one);
      assert ReadFrame(Frame(c) + one) != (Meaning(c), one);
    }
  }

  /** A negative length on a connection that is not TCP: what comes next is taken for the body that is announced. */
  lemma NegativeLengthEats(c: Call, rest: seq<byte>)
    requires WellFormed(c) && c.Send? && c.protocol != Tcp && c.len < 0
    requires 0 < |c.response| <= DATA_LENGTH && rest != []
    ensures var n := if |c.response| <= |rest| then |c.response| else |rest|;
            ReadFrame(Frame(c) + rest) == (Data(c.connfd, rest[..n]), rest[n..])
  {
    hide Header, Int4;
    assert Frame(c) + rest == Header(MESSAGE, |c.response|, c.connfd) + rest;
    HeaderRead(MESSAGE, |c.response|, c.connfd, rest);
  }

  /** What createResponse puts before the text of an HTTP response. */
  const RESPONSE_HEAD := "HTTP/1.1 200 OK \r\nServer: appnet/1.0.0\r\nContent-Type: text/html\r\n\r\n"

  function Ascii(s: string): (b: seq<byte>)
    ensures |b| == |s|
  {
    seq(|s|, i requires 0 <= i < |s| => s[i] as int % 256)
  }

  /** An empty HTTP response sent with length -1: client 7 is handed the whole frame meant for client 8. */
  lemma NegativeLengthBreaks()
    ensures var bad, good := Send(7, Http, [], -1, Ascii(RESPONSE_HEAD)), Send(8, Tcp, [66], 1, []);
            && WellFormed(bad) && WellFormed(good) && !Sound(bad) && Sound(good)
            && ReadFrame(Frame(bad) + Frame(good)) == (Data(7, Frame(good)), [])
  {
    hide Header, ReadFrame, Ascii;
    var bad, good := Send(7, Http, [], -1, Ascii(RESPONSE_HEAD)), Send(8, Tcp, [66], 1, []);
    assert |RESPONSE_HEAD| == 67;
    assert |Frame(good)| == 10;
    NegativeLengthEats(bad, Frame(good));
    assert Frame(good)[..10] == Frame(good) && Frame(good)[10..] == [];
  }

  /** A body over 1024 bytes does not fit the block it is read into. */
  lemma LongBodyOverruns(c: Call, rest: seq<byte>)
    requires WellFormed(c) && |Body(c)| > DATA_LENGTH
    ensures ReadFrame(Frame(c) + rest).0 == Overrun
  {
    hide Header, Int4;
    assert Frame(c) + rest == Header(MESSAGE, |Body(c)|, c.connfd) + (Body(c) + rest);
    HeaderRead(MESSAGE, |Body(c)|, c.connfd, Body(c) + rest);
  }

  lemma LongMessage()
    ensures var c := Send(7, Tcp, seq(1025, _ => 65), 1025, []);
            WellFormed(c) && ReadFrame(Frame(c)).0 == Overrun
  {
    var c := Send(7, Tcp, seq(1025, _ => 65), 1025, []);
    hide ReadFrame, Header;
    LongBodyOverruns(c, []);
    assert Frame(c) + [] == Frame(c);
  }

  // -------------------------------------------------------------------- runs

  /**
   A call; the pipe being writable, when write takes n bytes and fails for
   n <= 0; the master reading a frame that has come whole.
   */
  datatype Step = Called(call: Call) | Writable(n: int) | Reads

  /** What is still buffered, what is in the pipe, and what the master has read. */
  datatype State = State(buffer: seq<byte>, pipe: seq<byte>, events: seq<Event>)

  const START: State := State([], [], [])

  /** The frame at the head of the pipe is all there. */
  predicate Whole(s: seq<byte>) {
    |s| >= HEADER_LENGTH && (s[0] == MESSAGE && Int4(s[1..5]) > 0 ==> HEADER_LENGTH + Int4(s[1..5]) <= |s|)
  }

  predicate Enabled(s: State, step: Step) {
    match step
    case Called(call) => WellFormed(call)
    case Writable(n) => n <= |s.buffer|
    case Reads => Whole(s.pipe)
  }

  function After(s: State, step: Step): State
    requires Enabled(s, step)
  {
    match step
    case Called(call) => s.(buffer := s.buffer + Frame(call))
    case Writable(n) => if n <= 0 then s else s.(pipe := s.pipe + s.buffer[..n], buffer := s.buffer[n..])
    case Reads => var (e, rest) := ReadFrame(s.pipe); s.(pipe := rest, events := s.events + [e])
  }

  predicate Runs(s: State, steps: seq<Step>)
    decreases |steps|
  {
    steps == [] || (Enabled(s, steps[0]) && Runs(After(s, steps[0]), steps[1..]))
  }

  function End(s: State, steps: seq<Step>): State
    requires Runs(s, steps)
    decreases |steps|
  {
    if steps == [] then s else End(After(s, steps[0]), steps[1..])
  }

  function Calls(steps: seq<Step>): seq<Call> {
    if steps == [] then []
    else if steps[0].Called? then [steps[0].call] + Calls(steps[1..])
    else Calls(steps[1..])
  }

  function Frames(cs: seq<Call>): seq<byte>
    requires forall c :: c in cs ==> WellFormed(c)
  {
    if cs == [] then [] else Frame(cs[0]) + Frames(cs[1..])
  }

  function Meanings(cs: seq<Call>): (es: seq<Event>)
    ensures |es| == |cs|
  {
    seq(|cs|, i requires 0 <= i < |cs| => Meaning(cs[i]))
  }

  lemma {:induction false} FramesAppend(a: seq<Call>, b: seq<Call>)
    requires forall c :: c in a + b ==> WellFormed(c)
    ensures forall c :: c in a || c in b ==> WellFormed(c)
    ensures Frames(a + b) == Frames(a) + Frames(b)
    decreases |a|
  {
    hide Frame, WellFormed;
    assert forall c :: c in a || c in b ==> c in a + b;
    if a == [] {
      assert a + b == b;
    } else {
      assert (a + b)[1..] == a[1..] + b;
      FramesAppend(a[1..], b);
    }
  }

  lemma FramesEmpty(cs: seq<Call>)
    requires forall c :: c in cs ==> WellFormed(c)
    ensures Frames(cs) == [] <==> cs == []
  {
    hide WellFormed;
  }

  lemma AfterConserves(s: State, step: Step)
    requires Enabled(s, step) && !step.Reads?
    ensures var t := After(s, step);
            t.pipe + t.buffer == s.pipe + s.buffer + if step.Called? then Frame(step.call) else []
  {
    hide Frame, WellFormed;
    match step {
      case Called(_) =>
      case Writable(n) =>
        if n > 0 {
          assert s.buffer == s.buffer[..n] + s.buffer[n..];
        }
    }
  }

  /** While nobody reads: the pipe and the buffer are the frames in the order of the calls. */
  lemma {:induction false} Conserved(s: State, steps: seq<Step>)
    requires Runs(s, steps) && Reads !in steps
    ensures forall c :: c in Calls(steps) ==> WellFormed(c)
    ensures var e := End(s, steps); e.pipe + e.buffer == s.pipe + s.buffer + Frames(Calls(steps))
    decreases |steps|
  {
    hide Frame, WellFormed, Enabled, After;
    if steps != [] {
      var t := After(s, steps[0]);
      AfterConserves(s, steps[0]);
      Conserved(t, steps[1..]);
      if steps[0].Called? {
        EnabledCall(s, steps[0]);
      }
      CallsHead(steps);
    }
  }

  lemma EnabledCall(s: State, step: Step)
    requires Enabled(s, step) && step.Called?
    ensures WellFormed(step.call)
  {
  }

  lemma CallsHead(steps: seq<Step>)
    requires steps != [] && forall c :: c in Calls(steps[1..]) ==> WellFormed(c)
    requires steps[0].Called? ==> WellFormed(steps[0].call)
    ensures forall c :: c in Calls(steps) ==> WellFormed(c)
    ensures Frames(Calls(steps)) ==
            (if steps[0].Called? then Frame(steps[0].call) else []) + Frames(Calls(steps[1..]))
  {
    hide Frame, WellFormed;
    if steps[0].Called? {
      assert Calls(steps)[1..] == Calls(steps[1..]) && Calls(steps)[0] == steps[0].call;
    }
  }

  /** Of these calls the first ones have been read, one event each, and the rest are under way. */
  ghost predicate InStep(s: State, cs: seq<Call>) {
    && (forall c :: c in cs ==> WellFormed(c) && Sound(c))
    && |s.events| <= |cs|
    && s.events == Meanings(cs[..|s.events|])
    && s.pipe + s.buffer == Frames(cs[|s.events|..])
  }

  lemma InStepCalled(s: State, cs: seq<Call>, c: Call)
    requires InStep(s, cs) && WellFormed(c) && Sound(c)
    ensures InStep(After(s, Called(c)), cs + [c])
  {
    hide Frame, WellFormed, Sound, Meaning;
    var k := |s.events|;
    assert (cs + [c])[..k] == cs[..k] && (cs + [c])[k..] == cs[k..] + [c];
    forall d | d in cs[k..] + [c]
      ensures WellFormed(d)
    {
    }
    FramesAppend(cs[k..], [c]);
    assert Frames([c]) == Frame(c) + Frames([c][1..]) == Frame(c);
    assert s.pipe + (s.buffer + Frame(c)) == s.pipe + s.buffer + Frame(c);
  }

  lemma InStepWritten(s: State, cs: seq<Call>, n: int)
    requires InStep(s, cs) && n <= |s.buffer|
    ensures InStep(After(s, Writable(n)), cs)
  {
    hide Frames, Meanings, WellFormed, Sound;
    if n > 0 {
      assert s.pipe + s.buffer[..n] + s.buffer[n..] == s.pipe + s.buffer;
    }
  }

  /** The whole frame at the head of the pipe is that of the next call. */
  lemma InStepReads(s: State, cs: seq<Call>)
    requires InStep(s, cs) && Whole(s.pipe)
    ensures |s.events| < |cs|
    ensures InStep(After(s, Reads), cs) && After(s, Reads).events == s.events + [Meaning(cs[|s.events|])]
  {
    hide ReadFrame, Meaning, WellFormed, Sound, Whole, Frame;
    var k := |s.events|;
    var rest := cs[k..];
    assert s.pipe != [] by { WholeNotEmpty(s.pipe); }
    assert rest != [] by {
      assert rest == [] ==> s.pipe + s.buffer == [];
    }
    var c := rest[0];
    assert c == cs[k] && rest[1..] == cs[k + 1..];
    FrameFits(c, Frames(rest[1..]), s.pipe, s.buffer);
    var n := |Frame(c)|;
    assert s.pipe[..n] == (s.pipe + s.buffer)[..n] == Frame(c);
    assert s.pipe == Frame(c) + s.pipe[n..];
    FrameRead(c, s.pipe[n..]);
    assert s.pipe[n..] + s.buffer == (s.pipe + s.buffer)[n..] == Frames(rest[1..]);
    assert cs[..k + 1] == cs[..k] + [c];
    assert Meanings(cs[..k + 1]) == Meanings(cs[..k]) + [Meaning(c)];
  }

  /** A frame that the master reads before it is all there, while it is in step, is never what the call means. */
  lemma ReadIffWhole(s: State, cs: seq<Call>)
    requires InStep(s, cs) && |s.events| < |cs|
    ensures Whole(s.pipe) <==> ReadFrame(s.pipe).0 == Meaning(cs[|s.events|])
  {
    hide Frames, WellFormed, Sound, Whole, Frame, Meaning, ReadFrame, Body;
    var k := |s.events|;
    var c := cs[k];
    if Whole(s.pipe) {
      InStepReads(s, cs);
      assert After(s, Reads).events[k] == ReadFrame(s.pipe).0;
    } else {
      FramesHead(cs[k..]);
      assert cs[k..][0] == c;
      PartialRead(c, Frames(cs[k..][1..]), s.pipe, s.buffer);
    }
  }

  /** A body that has come in part: what is there is handed over, and the rest is taken for a header and dropped. */
  lemma SplitBody()
    ensures var c := Send(7, Tcp, [65, 66], 2, []);
            var came := Frame(c)[..10];
            && WellFormed(c) && Sound(c) && !Whole(came)
            && ReadFrame(came) == (Data(7, [65]), []) && ReadFrame(Frame(c)[10..]) == (Short, [])
  {
    hide Header, Int4;
    var c := Send(7, Tcp, [65, 66], 2, []);
    assert Frame(c) == Header(MESSAGE, 2, 7) + [65, 66];
    assert Frame(c)[..10] == Header(MESSAGE, 2, 7) + [65] && Frame(c)[10..] == [66];
    HeaderRead(MESSAGE, 2, 7, [65]);
    assert [65][..1] == [65] && [65][1..] == [];
  }

  lemma FramesHead(cs: seq<Call>)
    requires cs != [] && forall c :: c in cs ==> WellFormed(c)
    ensures Frames(cs) == Frame(cs[0]) + Frames(cs[1..])
  {
  }

  lemma PartialRead(c: Call, others: seq<byte>, pipe: seq<byte>, buffer: seq<byte>)
    requires WellFormed(c) && Sound(c) && !Whole(pipe) && pipe + buffer == Frame(c) + others
    ensures ReadFrame(pipe).0 != Meaning(c)
  {
    hide Header, Int4;
    var kind, s := if c.Send? then MESSAGE else CLOSE, pipe + buffer;
    assert s == Header(kind, Announced(c), c.connfd) + (Body(c) + others);
    HeaderRead(kind, Announced(c), c.connfd, Body(c) + others);
    if |pipe| >= HEADER_LENGTH {
      assert pipe[0] == s[0] && pipe[1..5] == s[1..5] && pipe[5..9] == s[5..9];
    }
  }

  lemma WholeNotEmpty(s: seq<byte>)
    requires Whole(s)
    ensures s != []
  {
  }

  lemma FrameFits(c: Call, others: seq<byte>, pipe: seq<byte>, buffer: seq<byte>)
    requires WellFormed(c) && Sound(c) && Whole(pipe) && pipe + buffer == Frame(c) + others
    ensures |pipe| >= |Frame(c)|
  {
    hide Header, Int4;
    var kind, s := if c.Send? then MESSAGE else CLOSE, pipe + buffer;
    assert s == Header(kind, Announced(c), c.connfd) + (Body(c) + others);
    HeaderRead(kind, Announced(c), c.connfd, Body(c) + others);
    assert pipe[0] == s[0] && pipe[1..5] == s[1..5];
  }

  /** Over any calls, partial writes and reads, in any order, the master stays in step with the worker. */
  lemma {:induction false} StaysInStep(s: State, cs: seq<Call>, steps: seq<Step>)
    requires InStep(s, cs) && Runs(s, steps) && forall c :: c in Calls(steps) ==> Sound(c)
    ensures InStep(End(s, steps), cs + Calls(steps))
    decreases |steps|
  {
    hide InStep, WellFormed, Sound, Whole, Frame, ReadFrame;
    if steps == [] {
      assert cs + [] == cs;
    } else {
      var t := After(s, steps[0]);
      match steps[0] {
        case Called(c) =>
          assert Calls(steps)[0] == c && Calls(steps)[1..] == Calls(steps[1..]);
          InStepCalled(s, cs, c);
          StaysInStep(t, cs + [c], steps[1..]);
          assert cs + [c] + Calls(steps[1..]) == cs + Calls(steps);
        case Writable(n) =>
          InStepWritten(s, cs, n);
          StaysInStep(t, cs, steps[1..]);
        case Reads =>
          InStepReads(s, cs);
          StaysInStep(t, cs, steps[1..]);
      }
    }
  }

  /**
   At any point of any run the master has read the first of the worker's calls,
   one event each and in their order, and the others are in the pipe and the
   buffer; so when these are empty it has read them all.
   */
  lemma Delivered(steps: seq<Step>)
    requires Runs(START, steps) && forall c :: c in Calls(steps) ==> Sound(c)
    ensures var e, cs := End(START, steps), Calls(steps);
            && InStep(e, cs)
            && (e.pipe == [] && e.buffer == [] ==> e.events == Meanings(cs))
  {
    hide WellFormed, Sound, Frame;
    assert InStep(START, []);
    StaysInStep(START, [], steps);
    var e, cs := End(START, steps), Calls(steps);
    assert [] + cs == cs;
    FramesEmpty(cs[|e.events|..]);
    assert cs[..|cs|] == cs;
  }
}
