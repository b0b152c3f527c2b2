/**
 What clients are handed, from the worker's calls through its buffer, the pipe
 and the master's reactors (worker.c, aeserver.c) to the bytes each is sent.
 */
module Handover {
  import opened Common
  import opened Pipe
  import opened Master

  // ----------------------------------------------------- what clients are sent

  /** The frame touches its connection; a message without a body does not. */
  predicate Touching(c: Call) {
    c.Close? || Body(c) != []
  }

  /** After this frame the connection is closed, at once or when its buffer is drained. */
  predicate Ends(s: Server, c: Call) {
    c.Close? || (Body(c) != [] && 0 <= c.connfd < |s.conns| && s.conns[c.connfd].http)
  }

  predicate EndedBy(s: Server, cs: seq<Call>, fd: int) {
    exists i :: 0 <= i < |cs| && cs[i].connfd == fd && Ends(s, cs[i])
  }

  /** No frame touches a connection after one that ends it. */
  predicate Orderly(s: Server, cs: seq<Call>) {
    forall i, j :: 0 <= i < j < |cs| && cs[i].connfd == cs[j].connfd && Ends(s, cs[i]) ==> !Touching(cs[j])
  }

  /** The connections the frames are for are live, with nothing buffered and none to be closed. */
  ghost predicate Open(s: Server, cs: seq<Call>) {
    && Served(s)
    && (forall fd :: 0 <= fd < |s.conns| ==> s.conns[fd].buffer == [])
    && (forall c :: c in cs && Touching(c) ==> Live(s, c.connfd))
  }

  /** What the calls mean one client to be sent: the texts on TCP, otherwise the responses made of them, in order. */
  function SentTo(cs: seq<Call>, fd: int): seq<byte> {
    if cs == [] then []
    else
      var c := cs[|cs| - 1];
      SentTo(cs[..|cs| - 1], fd) +
      if c.Send? && c.connfd == fd && c.len >= 0 then if c.protocol == Tcp then c.buff else c.response else []
  }

  lemma SentToMore(cs: seq<Call>, c: Call, fd: int)
    ensures SentTo(cs + [c], fd) == SentTo(cs, fd) + if c.connfd == fd then Body(c) else []
  {
    assert (cs + [c])[..|cs|] == cs;
  }

  /** From o, with the frames of cs received: what each connection of o has been sent and is to be sent. */
  ghost predicate Tracks(o: Server, s: Server, cs: seq<Call>) {
    && Served(s) && |s.conns| == |o.conns| && |o.sent| == |o.conns|
    && forall fd :: 0 <= fd < |o.conns| && o.conns[fd].live ==> Tracked(o, s, cs, fd)
  }

  predicate Tracked(o: Server, s: Server, cs: seq<Call>, fd: nat)
    requires fd < |o.conns| && |s.conns| == |s.sent| == |o.sent| == |o.conns|
  {
    var c := s.conns[fd];
    && c.http == o.conns[fd].http
    && (!c.live || c.disable == 2 || (c.http && c.buffer != []) ==> EndedBy(o, cs, fd))
    && s.sent[fd] + c.buffer == o.sent[fd] + SentTo(cs, fd)
  }

  lemma EndedMore(o: Server, cs: seq<Call>, c: Call, fd: int)
    ensures EndedBy(o, cs, fd) ==> EndedBy(o, cs + [c], fd)
    ensures c.connfd == fd && Ends(o, c) ==> EndedBy(o, cs + [c], fd)
  {
    if EndedBy(o, cs, fd) {
      var i :| 0 <= i < |cs| && cs[i].connfd == fd && Ends(o, cs[i]);
      assert (cs + [c])[i] == cs[i];
    }
    assert (cs + [c])[|cs|] == c;
  }

  lemma TracksReceive(o: Server, s: Server, cs: seq<Call>, q: nat, c: Call)
    requires Tracks(o, s, cs) && q < |s.reactors|
    requires Touching(c) ==> Live(o, c.connfd) && !EndedBy(o, cs, c.connfd)
    ensures Ready(s, Receives(q, Meaning(c)))
    ensures var r := Receive(s, q, Meaning(c)); r.Some? && Tracks(o, r.value, cs + [c])
  {
    hide Served, EndedBy, SentTo, Register, Deregister, ForgetAll;
    assert Served(s) && Ready(s, Receives(q, Meaning(c)));
    ReceiveOk(s, q, Meaning(c));
    if Touching(c) {
      assert Tracked(o, s, cs, c.connfd);
    }
    var r := Receive(s, q, Meaning(c)).value;
    forall fd | 0 <= fd < |o.conns| && o.conns[fd].live
      ensures Tracked(o, r, cs + [c], fd)
    {
      assert Tracked(o, s, cs, fd);
      EndedMore(o, cs, c, fd);
      SentToMore(cs, c, fd);
      var b := if c.connfd == fd then Body(c) else [];
      assert s.sent[fd] + s.conns[fd].buffer + b == s.sent[fd] + (s.conns[fd].buffer + b);
      assert o.sent[fd] + SentTo(cs, fd) + b == o.sent[fd] + (SentTo(cs, fd) + b);
      assert s.conns[fd].buffer + [] == s.conns[fd].buffer && s.sent[fd] + [] == s.sent[fd];
    }
  }

  lemma TracksFlush(o: Server, s: Server, cs: seq<Call>, q: nat, x: nat, n: int)
    requires Tracks(o, s, cs) && Ready(s, Flushes(q, x, n)) && n > 0
    ensures Tracks(o, Flush(s, q, x, n), cs)
  {
    hide Served, EndedBy, SentTo, Flush;
    FlushOkIff(s, q, x, n);
    var r := Flush(s, q, x, n);
    FlushBytes(s, q, x, n);
    forall fd | 0 <= fd < |o.conns| && o.conns[fd].live
      ensures Tracked(o, r, cs, fd)
    {
      assert Tracked(o, s, cs, fd);
    }
  }

  /** A write moves bytes from the buffer to the client, and closes the connection only behind the last of them. */
  lemma FlushBytes(s: Server, q: nat, fd: nat, n: int)
    requires Served(s) && Ready(s, Flushes(q, fd, n)) && n > 0
    ensures var r := Flush(s, q, fd, n);
            && r.sent[fd] + r.conns[fd].buffer == s.sent[fd] + s.conns[fd].buffer
            && r.conns[fd].http == s.conns[fd].http
            && (r.conns[fd].live ==> r.conns[fd].disable == s.conns[fd].disable)
            && (!r.conns[fd].live ==> s.conns[fd].disable == 2 || s.conns[fd].http)
            && (r.conns[fd].buffer != [] ==> s.conns[fd].buffer != [])
            && (!r.conns[fd].live ==> s.conns[fd].buffer != [])
            && forall x :: 0 <= x < |s.conns| && x != fd ==> r.conns[x] == s.conns[x] && r.sent[x] == s.sent[x]
  {
    FlushOkIff(s, q, fd, n);
    NotFreed(s, fd);
    hide Served, Register, Deregister, ForgetAll;
    var b := s.conns[fd].buffer;
    assert b == b[..n] + b[n..];
    assert s.sent[fd] + (b[..n] + b[n..]) == s.sent[fd] + b[..n] + b[n..];
    assert b[n..] == [] ==> s.sent[fd] + b[..n] + [] == s.sent[fd] + b;
  }

  // --------------------------------------------------------------- schedules

  /** Reads and writes only, none of which fails. */
  predicate Calm(steps: seq<ServerStep>) {
    forall step :: step in steps ==> step.Receives? || (step.Flushes? && step.n > 0)
  }

  function Received(steps: seq<ServerStep>): seq<Event> {
    if steps == [] then []
    else (if steps[0].Receives? then [steps[0].e] else []) + Received(steps[1..])
  }

  /** The frames of cs are read in their order, and clients drain their buffers in between at will. */
  predicate Schedule(s: Server, cs: seq<Call>, steps: seq<ServerStep>)
  {
    Calm(steps) && Received(steps) == Meanings(cs) && Follows(s, steps)
  }

  lemma {:induction false} OrderlyServes(o: Server, s: Server, all: seq<Call>, k: nat, steps: seq<ServerStep>)
    requires Orderly(o, all) && (forall c :: c in all && Touching(c) ==> Live(o, c.connfd))
    requires k <= |all| && Tracks(o, s, all[..k]) && Schedule(s, all[k..], steps)
    ensures ServeAll(s, steps).Some? && Tracks(o, ServeAll(s, steps).value, all)
    decreases |steps|
  {
    hide Tracks, Orderly, Touching, Serve, Ready, Meaning, Live;
    if steps == [] {
      assert |Meanings(all[k..])| == 0;
      assert all[..k] == all;
    } else {
      assert steps[0] in steps;
      assert Calm(steps[1..]);
      match steps[0] {
        case Receives(q, e) =>
          var c := all[k..][0];
          assert c == all[k] && e == Received(steps)[0] == Meanings(all[k..])[0] == Meaning(c);
          OrderlyNext(o, all, k);
          ReaderExists(s, steps[0]);
          TracksReceive(o, s, all[..k], q, c);
          assert all[..k] + [c] == all[..k + 1];
          assert Received(steps)[1..] == Received(steps[1..]) && Meanings(all[k..])[1..] == Meanings(all[k + 1..]);
          assert Serve(s, steps[0]) == Receive(s, q, e) by { ServeReceives(s, q, e); }
          OrderlyServes(o, Receive(s, q, e).value, all, k + 1, steps[1..]);
        case Flushes(q, fd, n) =>
          TracksFlushes(o, s, all[..k], q, fd, n);
          OrderlyServes(o, Serve(s, steps[0]).value, all, k, steps[1..]);
      }
    }
  }

  lemma TracksFlushes(o: Server, s: Server, cs: seq<Call>, q: nat, fd: nat, n: int)
    requires Tracks(o, s, cs) && Ready(s, Flushes(q, fd, n)) && n > 0
    ensures Serve(s, Flushes(q, fd, n)).Some? && Tracks(o, Serve(s, Flushes(q, fd, n)).value, cs)
  {
    hide Tracks, Flush;
    TracksFlush(o, s, cs, q, fd, n);
  }

  lemma OrderlyNext(o: Server, all: seq<Call>, k: nat)
    requires Orderly(o, all) && k < |all| && (forall c :: c in all && Touching(c) ==> Live(o, c.connfd))
    ensures Touching(all[k]) ==> Live(o, all[k].connfd) && !EndedBy(o, all[..k], all[k].connfd)
  {
    hide Ends, Touching;
    if EndedBy(o, all[..k], all[k].connfd) {
      var i :| 0 <= i < k && all[..k][i].connfd == all[k].connfd && Ends(o, all[..k][i]);
      assert all[i] == all[..k][i];
    }
  }

  lemma TracksStart(o: Server, cs: seq<Call>)
    requires Open(o, cs)
    ensures Tracks(o, o, [])
  {
    hide WatchedBy;
    forall fd | 0 <= fd < |o.conns| && o.conns[fd].live
      ensures Tracked(o, o, [], fd)
    {
      assert ConnectionOk(o, fd);
      assert o.sent[fd] + [] == o.sent[fd];
    }
  }

  // -------------------------------------------- frames after the one that ends

  /** The first reactor reads them all. */
  function Reads(cs: seq<Call>): seq<ServerStep> {
    seq(|cs|, i requires 0 <= i < |cs| => Receives(0, Meaning(cs[i])))
  }

  lemma {:induction false} ReadsReceived(cs: seq<Call>)
    ensures Received(Reads(cs)) == Meanings(cs) && Calm(Reads(cs))
    decreases |cs|
  {
    hide Meaning;
    if cs != [] {
      assert Reads(cs)[1..] == Reads(cs[1..]) && Meanings(cs) == [Meaning(cs[0])] + Meanings(cs[1..]);
      ReadsReceived(cs[1..]);
    }
  }

  /** Reading is always possible. */
  lemma {:induction false} ReadsFollow(s: Server, cs: seq<Call>)
    ensures Follows(s, Reads(cs))
    decreases |cs|
  {
    hide Receive;
    if cs != [] {
      assert Reads(cs)[0] == Receives(0, Meaning(cs[0])) && Reads(cs)[1..] == Reads(cs[1..]);
      if Receive(s, 0, Meaning(cs[0])).Some? {
        ReadsFollow(Receive(s, 0, Meaning(cs[0])).value, cs[1..]);
      }
    }
  }

  /** A dead connection stays dead while frames are read, and a frame that touches it fails. */
  lemma {:induction false} DeadFails(s: Server, cs: seq<Call>, j: nat)
    requires j < |cs| && Touching(cs[j]) && !Live(s, cs[j].connfd)
    ensures Follows(s, Reads(cs)) && ServeAll(s, Reads(cs)).None?
    decreases |cs|
  {
    ReadsFollow(s, cs);
    assert Reads(cs)[0] == Receives(0, Meaning(cs[0])) && Reads(cs)[1..] == Reads(cs[1..]);
    if j > 0 && Receive(s, 0, Meaning(cs[0])).Some? {
      DeadFails(Receive(s, 0, Meaning(cs[0])).value, cs[1..], j - 1);
    }
  }

  lemma {:induction false} ReceivedAppend(a: seq<ServerStep>, b: seq<ServerStep>)
    ensures Received(a + b) == Received(a) + Received(b)
    decreases |a|
  {
    if a == [] {
      assert a + b == b;
    } else {
      assert (a + b)[1..] == a[1..] + b && (a + b)[0] == a[0];
      ReceivedAppend(a[1..], b);
      var first := if a[0].Receives? then [a[0].e] else [];
      assert first + (Received(a[1..]) + Received(b)) == first + Received(a[1..]) + Received(b);
    }
  }

  lemma {:induction false} ReadsKeepProtocol(s: Server, cs: seq<Call>, fd: nat)
    requires Follows(s, Reads(cs)) && ServeAll(s, Reads(cs)).Some? && fd < |s.conns|
    ensures ServeAll(s, Reads(cs)).value.conns[fd].http == s.conns[fd].http
    decreases |cs|
  {
    if cs != [] {
      assert Reads(cs)[0] == Receives(0, Meaning(cs[0])) && Reads(cs)[1..] == Reads(cs[1..]);
      ReadsKeepProtocol(Receive(s, 0, Meaning(cs[0])).value, cs[1..], fd);
    }
  }

  /** When a frame that ends its connection has been read, that is dead or will be with its next full write. */
  lemma EndingRead(s: Server, c: Call)
    requires Receive(s, 0, Meaning(c)).Some?
    requires c.Close? || (Body(c) != [] && 0 <= c.connfd < |s.conns| && s.conns[c.connfd].http)
    ensures var t := Receive(s, 0, Meaning(c)).value;
            Live(t, c.connfd) ==>
              t.conns[c.connfd].buffer != [] && (t.conns[c.connfd].disable == 2 || t.conns[c.connfd].http)
  {
  }

  lemma LastWrite(s: Server, fd: nat) returns (w: ServerStep)
    requires Served(s) && Live(s, fd) && s.conns[fd].buffer != []
    requires s.conns[fd].disable == 2 || s.conns[fd].http
    ensures w.Flushes? && w.n > 0 && Ready(s, w) && Serve(s, w).Some? && !Live(Serve(s, w).value, fd)
  {
    hide Register, Deregister, ForgetAll, MaskOf;
    NotFreed(s, fd);
    assert ConnectionOk(s, fd);
    var q: nat :| WatchedBy(s, fd, q);
    Bits();
    WatchedInKernel(s, q, fd);
    w := Flushes(q, fd, |s.conns[fd].buffer|);
  }

  lemma ReadsSplit(cs: seq<Call>, k: nat)
    requires k <= |cs|
    ensures Reads(cs) == Reads(cs[..k]) + Reads(cs[k..]) && Meanings(cs) == Meanings(cs[..k]) + Meanings(cs[k..])
  {
    hide Meaning;
  }

  lemma ReadsOne(c: Call)
    ensures Reads([c]) == [Receives(0, Meaning(c))]
  {
  }

  /** A schedule that fails: read on to the frame that ends the connection, let the client drain it, read the rest. */
  lemma DisorderFails(o: Server, cs: seq<Call>, i: nat, j: nat) returns (steps: seq<ServerStep>)
    requires Open(o, cs)
    requires i < j < |cs| && cs[i].connfd == cs[j].connfd && Ends(o, cs[i]) && Touching(cs[j])
    ensures Schedule(o, cs, steps) && ServeAll(o, steps).None?
  {
    hide Served, Receive, Serve, Ready, Touching, Meaning, Meanings, Reads, ServeAll, Follows, Received;
    var fd := cs[i].connfd;
    var before, at, after := cs[..i], [cs[i]], cs[i + 1..];
    assert cs[..i + 1] == before + at && cs[..i + 1][..i] == before && cs[..i + 1][i..] == at;
    ReadsSplit(cs, i + 1);
    ReadsSplit(cs[..i + 1], i);
    ReadsReceived(cs);
    ReadsReceived(cs[..i + 1]);
    ReadsReceived(after);
    ReadsFollow(o, before);
    var a := Reads(cs[..i + 1]);
    ReadsFollow(o, cs[..i + 1]);
    ReadsFollow(o, cs);
    if ServeAll(o, a).None? {
      ServeAppend(o, a, Reads(after));
      steps := Reads(cs);
      return;
    }
    var t := ServeAll(o, a).value;
    ReadsReceived(cs[..i + 1]);
    CalmTidy(o, a);
    OpenServed(o, cs);
    StaysServedIff(o, a);
    EndingReads(o, before, cs[i]);
    assert cs[j] == after[j - i - 1];
    if Live(t, fd) {
      var w := LastWrite(t, fd);
      ServeOne(t, w);
      var u := Serve(t, w).value;
      DeadFails(u, after, j - i - 1);
      ServeAppend(t, [w], Reads(after));
      ServeAppend(o, a, [w] + Reads(after));
      steps := a + ([w] + Reads(after));
      ReceivedAppend(a, [w] + Reads(after));
      ReceivedAppend([w], Reads(after));
      assert Received([w]) == [] by { ReceivedNone(w); }
    } else {
      DeadFails(t, after, j - i - 1);
      ServeAppend(o, a, Reads(after));
      steps := a + Reads(after);
      ReceivedAppend(a, Reads(after));
    }
  }

  lemma {:induction false} CalmTidy(s: Server, steps: seq<ServerStep>)
    requires Follows(s, steps) && Calm(steps)
    ensures Tidy(s, steps)
    decreases |steps|
  {
    hide Serve, Ready;
    if steps != [] {
      assert steps[0] in steps && Calm(steps[1..]);
      if Serve(s, steps[0]).Some? {
        CalmTidy(Serve(s, steps[0]).value, steps[1..]);
      }
    }
  }

  lemma OpenServed(o: Server, cs: seq<Call>)
    requires Open(o, cs)
    ensures Served(o)
  {
  }

  lemma ReceivedNone(step: ServerStep)
    requires !step.Receives?
    ensures Received([step]) == []
  {
  }

  lemma EndingReads(o: Server, before: seq<Call>, c: Call)
    requires Ends(o, c)
    requires Follows(o, Reads(before + [c])) && ServeAll(o, Reads(before + [c])).Some?
    ensures var t := ServeAll(o, Reads(before + [c])).value;
            Live(t, c.connfd) ==>
              t.conns[c.connfd].buffer != [] && (t.conns[c.connfd].disable == 2 || t.conns[c.connfd].http)
  {
    hide Receive, Ready, Meaning, ServeAll, Follows, Reads;
    var all := before + [c];
    ReadsSplit(all, |before|);
    assert all[..|before|] == before && all[|before|..] == [c];
    ReadsOne(c);
    ReadsFollow(o, before);
    var r := ServeAll(o, Reads(before));
    if r.Some? {
      ReadsFollow(r.value, [c]);
      FollowsReady(r.value, Receives(0, Meaning(c)));
      ServeOne(r.value, Receives(0, Meaning(c)));
    }
    ServeAppend(o, Reads(before), Reads([c]));
    if 0 <= c.connfd < |o.conns| {
      ReadsKeepProtocol(o, before, c.connfd);
    }
    EndingRead(r.value, c);
  }

  lemma FollowsReady(s: Server, step: ServerStep)
    requires Follows(s, [step])
    ensures Ready(s, step)
  {
  }

  lemma Violation(o: Server, cs: seq<Call>) returns (i: nat, j: nat)
    requires !Orderly(o, cs)
    ensures i < j < |cs| && cs[i].connfd == cs[j].connfd && Ends(o, cs[i]) && Touching(cs[j])
  {
    hide Ends, Touching;
    i, j :| 0 <= i < j < |cs| && cs[i].connfd == cs[j].connfd && Ends(o, cs[i]) && Touching(cs[j]);
  }

  /**
   Whatever the clients drain in between, the master reads the frames without
   touching a closed connection if and only if no frame touches a connection
   after one that ends it. Then each connection has been sent, or is still to
   be sent, exactly the bodies for it, in order.
   */
  lemma HandedOverIff(o: Server, cs: seq<Call>)
    requires Open(o, cs)
    ensures Orderly(o, cs) <==> forall steps :: Schedule(o, cs, steps) ==> ServeAll(o, steps).Some?
    ensures Orderly(o, cs) ==> forall steps :: Schedule(o, cs, steps) ==> Tracks(o, ServeAll(o, steps).value, cs)
  {
    hide ServeAll, Tracks, Ends, Touching, Served, Calm, Received, Follows;
    if Orderly(o, cs) {
      forall steps | Schedule(o, cs, steps)
        ensures ServeAll(o, steps).Some? && Tracks(o, ServeAll(o, steps).value, cs)
      {
        TracksStart(o, cs);
        assert cs[..0] == [] && cs[0..] == cs;
        OrderlyServes(o, o, cs, 0, steps);
      }
    } else {
      var i, j := Violation(o, cs);
      var steps := DisorderFails(o, cs, i, j);
    }
  }

  // -------------------------------------------------- worker, pipe and master

  /** A step of the worker or the pipe, a read being by reactor q, or a client's socket taking n bytes. */
  datatype Move = OnPipe(step: Step, q: nat) | OnClient(q: nat, fd: nat, n: int)

  datatype System = System(p: State, s: Server)

  predicate Possible(y: System, m: Move)
  {
    match m
    case OnPipe(step, q) => Enabled(y.p, step) && q < |y.s.reactors|
    case OnClient(q, fd, n) => n > 0 && Ready(y.s, Flushes(q, fd, n))
  }

  function Next(y: System, m: Move): (r: Option<System>)
    requires Possible(y, m)
  {
    match m
    case OnPipe(step, q) =>
      var p := After(y.p, step);
      if step.Reads? then
        match Receive(y.s, q, ReadFrame(y.p.pipe).0) case None => None case Some(t) => Some(System(p, t))
      else Some(System(p, y.s))
    case OnClient(q, fd, n) => Some(y.(s := Flush(y.s, q, fd, n)))
  }

  predicate Moves(y: System, ms: seq<Move>)
    decreases |ms|
  {
    ms == [] || (Possible(y, ms[0]) && match Next(y, ms[0]) case None => true case Some(z) => Moves(z, ms[1..]))
  }

  /** Where the system ends up; None once the master touches a connection that is not live. */
  function Finish(y: System, ms: seq<Move>): (r: Option<System>)
    requires Moves(y, ms)
    decreases |ms|
  {
    if ms == [] then Some(y)
    else match Next(y, ms[0]) case None => None case Some(z) => Finish(z, ms[1..])
  }

  function CallsOf(ms: seq<Move>): seq<Call> {
    if ms == [] then []
    else if ms[0].OnPipe? && ms[0].step.Called? then [ms[0].step.call] + CallsOf(ms[1..])
    else CallsOf(ms[1..])
  }

  /** The master has read the first of the calls and done what they mean; the others are under way. */
  ghost predicate Handed(o: Server, y: System, cs: seq<Call>) {
    InStep(y.p, cs) && |y.p.events| <= |cs| && Tracks(o, y.s, cs[..|y.p.events|])
  }

  lemma {:induction false} HandedNext(o: Server, y: System, cs: seq<Call>, m: Move, all: seq<Call>)
    requires Handed(o, y, cs) && Possible(y, m) && cs <= all && Orderly(o, all)
    requires forall c :: c in all && Touching(c) ==> Live(o, c.connfd)
    requires m.OnPipe? && m.step.Called? ==> Pipe.Sound(m.step.call)
    ensures Next(y, m).Some?
    ensures Handed(o, Next(y, m).value, if m.OnPipe? && m.step.Called? then cs + [m.step.call] else cs)
  {
    hide InStep, Tracks, Orderly, Touching, Live, ReadFrame, Frame, WellFormed, Pipe.Sound, Whole, Meaning;
    var k := |y.p.events|;
    match m {
      case OnPipe(Called(c), _) =>
        InStepCalled(y.p, cs, c);
        assert (cs + [c])[..k] == cs[..k];
      case OnPipe(Writable(n), _) =>
        InStepWritten(y.p, cs, n);
      case OnPipe(Reads, q) =>
        InStepReads(y.p, cs);
        assert After(y.p, Pipe.Reads).events[k] == ReadFrame(y.p.pipe).0;
        assert cs[k] == all[k] && cs[..k] == all[..k];
        OrderlyNext(o, all, k);
        TracksReceive(o, y.s, cs[..k], q, cs[k]);
        assert cs[..k] + [cs[k]] == cs[..k + 1];
      case OnClient(q, fd, n) =>
        TracksFlush(o, y.s, cs[..k], q, fd, n);
    }
  }

  lemma {:induction false} SystemServes(o: Server, y: System, cs: seq<Call>, ms: seq<Move>)
    requires Handed(o, y, cs) && Moves(y, ms) && Orderly(o, cs + CallsOf(ms))
    requires forall c :: c in cs + CallsOf(ms) && Touching(c) ==> Live(o, c.connfd)
    requires forall c :: c in CallsOf(ms) ==> Pipe.Sound(c)
    ensures Finish(y, ms).Some? && Handed(o, Finish(y, ms).value, cs + CallsOf(ms))
    decreases |ms|
  {
    hide Handed, Orderly, Touching, Live, Pipe.Sound, Possible, Next;
    if ms == [] {
      assert cs + [] == cs;
    } else {
      var m := ms[0];
      assert m.OnPipe? && m.step.Called? ==> CallsOf(ms)[0] == m.step.call && CallsOf(ms)[1..] == CallsOf(ms[1..]);
      HandedNext(o, y, cs, m, cs + CallsOf(ms));
      var ds := if m.OnPipe? && m.step.Called? then cs + [m.step.call] else cs;
      assert ds + CallsOf(ms[1..]) == cs + CallsOf(ms);
      SystemServes(o, Next(y, m).value, ds, ms[1..]);
    }
  }

  // A failing schedule of the server is one of the whole system.

  function Mapped(steps: seq<ServerStep>): seq<Move> {
    seq(|steps|, i requires 0 <= i < |steps| =>
      if steps[i].Flushes? then OnClient(steps[i].q, steps[i].fd, steps[i].n)
      else OnPipe(Pipe.Reads, if steps[i].Receives? then steps[i].q else 0))
  }

  lemma {:induction false} MappedFails(y: System, cs: seq<Call>, steps: seq<ServerStep>)
    requires (forall c :: c in cs ==> WellFormed(c) && Pipe.Sound(c)) && y.p.pipe == Frames(cs)
    requires Schedule(y.s, cs, steps) && ServeAll(y.s, steps).None?
    ensures Moves(y, Mapped(steps)) && Finish(y, Mapped(steps)).None? && CallsOf(Mapped(steps)) == []
    decreases |steps|
  {
    hide Frame, WellFormed, Pipe.Sound, Meaning, ReadFrame, Receive, Flush, Whole, Ready;
    var ms := Mapped(steps);
    assert steps[0] in steps && Calm(steps[1..]);
    assert ms[1..] == Mapped(steps[1..]);
    if steps[0].Flushes? {
      var z := Next(y, ms[0]).value;
      MappedFails(z, cs, steps[1..]);
    } else {
      assert |Meanings(cs)| > 0;
      var rest := Frames(cs[1..]);
      assert Meanings(cs)[0] == Meaning(cs[0]) && Meanings(cs)[1..] == Meanings(cs[1..]);
      assert Received(steps)[1..] == Received(steps[1..]) && steps[0].e == Meaning(cs[0]);
      FrameRead(cs[0], rest);
      FrameWhole(cs[0], rest);
      ReaderExists(y.s, steps[0]);
      if Receive(y.s, steps[0].q, Meaning(cs[0])).Some? {
        ServeReceives(y.s, steps[0].q, Meaning(cs[0]));
        MappedFails(Next(y, ms[0]).value, cs[1..], steps[1..]);
      } else {
        NoCalls(steps[1..]);
      }
    }
  }

  lemma {:induction false} NoCalls(steps: seq<ServerStep>)
    ensures CallsOf(Mapped(steps)) == []
    decreases |steps|
  {
    if steps != [] {
      assert Mapped(steps)[1..] == Mapped(steps[1..]);
      NoCalls(steps[1..]);
    }
  }

  lemma FrameWhole(c: Call, rest: seq<byte>)
    requires WellFormed(c) && Pipe.Sound(c)
    ensures Whole(Frame(c) + rest)
  {
    hide Header, Int4;
    assert Frame(c) + rest == Header(if c.Send? then MESSAGE else CLOSE, Announced(c), c.connfd) + (Body(c) + rest);
    HeaderRead(if c.Send? then MESSAGE else CLOSE, Announced(c), c.connfd, Body(c) + rest);
  }

  /** The worker makes the remaining calls, and one write takes everything. */
  lemma {:induction false} CallsThenFail(s: Server, done: seq<Call>, cs: seq<Call>, steps: seq<ServerStep>)
    returns (ms: seq<Move>)
    requires forall c :: c in done + cs ==> WellFormed(c) && Pipe.Sound(c)
    requires Schedule(s, done + cs, steps) && ServeAll(s, steps).None?
    ensures forall c :: c in done ==> WellFormed(c)
    ensures var y := System(State(Frames(done), [], []), s);
            Moves(y, ms) && Finish(y, ms).None? && CallsOf(ms) == cs
    decreases |cs|
  {
    hide Frame, WellFormed, Pipe.Sound, Schedule, ServeAll, Mapped;
    assert forall c :: c in done || c in cs ==> c in done + cs;
    var y := System(State(Frames(done), [], []), s);
    if cs == [] {
      assert done + cs == done;
      var n := |Frames(done)|;
      var z := System(State([], Frames(done), []), s);
      var w := OnPipe(Writable(n), 0);
      MappedFails(z, done, steps);
      ms := [w] + Mapped(steps);
      assert ms[1..] == Mapped(steps);
      FramesEmpty(done);
      MappedNotEmpty(z, done, steps);
      assert [] + Frames(done)[..n] == Frames(done) && Frames(done)[n..] == [];
      assert n > 0;
    } else {
      var c := cs[0];
      assert done + cs == (done + [c]) + cs[1..];
      FramesAppend(done, [c]);
      assert Frames([c]) == Frame(c) + Frames([c][1..]) == Frame(c);
      var more := CallsThenFail(s, done + [c], cs[1..], steps);
      ms := [OnPipe(Called(c), 0)] + more;
      assert ms[1..] == more;
      assert Next(y, ms[0]) == Some(System(State(Frames(done + [c]), [], []), s));
    }
  }

  /** Only a frame can fail. */
  lemma {:induction false} MappedNotEmpty(y: System, cs: seq<Call>, steps: seq<ServerStep>)
    requires Schedule(y.s, cs, steps) && ServeAll(y.s, steps).None?
    ensures cs != []
    decreases |steps|
  {
    hide Flush, Receive, Ready;
    assert steps[0] in steps && Calm(steps[1..]);
    if steps[0].Flushes? {
      MappedNotEmpty(System(y.p, Serve(y.s, steps[0]).value), cs, steps[1..]);
    } else {
      assert |Received(steps)| > 0;
    }
  }

  /** A run of the whole system in which the worker makes these calls. */
  ghost predicate SystemRun(o: Server, cs: seq<Call>, ms: seq<Move>)
  {
    Moves(System(START, o), ms) && CallsOf(ms) == cs
  }

  /**
   From worker to client, over every interleaving of the worker's calls, the
   pipe's partial writes, the master's reads and the clients' drains: the
   master never touches a closed connection if and only if no call is for a
   connection after one that ends it. And then at every point each connection
   has been sent, or is still to be sent, exactly the bodies of the calls read
   so far that are for it, in order, the other calls being under way.
   */
  lemma EndToEndIff(o: Server, cs: seq<Call>)
    requires Open(o, cs) && forall c :: c in cs ==> WellFormed(c) && Pipe.Sound(c)
    ensures Orderly(o, cs) <==> forall ms :: SystemRun(o, cs, ms) ==> Finish(System(START, o), ms).Some?
    ensures Orderly(o, cs) ==>
              forall ms :: SystemRun(o, cs, ms) ==> Handed(o, Finish(System(START, o), ms).value, cs)
  {
    hide *;
    if Orderly(o, cs) {
      forall ms | SystemRun(o, cs, ms)
        ensures Moves(System(START, o), ms) && Finish(System(START, o), ms).Some?
        ensures Handed(o, Finish(System(START, o), ms).value, cs)
      {
        OrderlyRun(o, cs, ms);
      }
    } else {
      var ms := DisorderlyRun(o, cs);
    }
  }

  lemma OrderlyRun(o: Server, cs: seq<Call>, ms: seq<Move>)
    requires Open(o, cs) && forall c :: c in cs ==> WellFormed(c) && Pipe.Sound(c)
    requires Orderly(o, cs) && SystemRun(o, cs, ms)
    ensures Moves(System(START, o), ms) && Finish(System(START, o), ms).Some?
    ensures Handed(o, Finish(System(START, o), ms).value, cs)
  {
    hide Orderly, Touching, Live, Served, WellFormed, Pipe.Sound, Moves, Finish, CallsOf, Tracks;
    TracksStart(o, cs);
    assert [] + cs == cs;
    SystemServes(o, System(START, o), [], ms);
  }

  lemma DisorderlyRun(o: Server, cs: seq<Call>) returns (ms: seq<Move>)
    requires Open(o, cs) && forall c :: c in cs ==> WellFormed(c) && Pipe.Sound(c)
    requires !Orderly(o, cs)
    ensures SystemRun(o, cs, ms) && Finish(System(START, o), ms).None?
  {
    hide ServeAll, Schedule, Open, Orderly, Ends, Touching, Served, WellFormed, Pipe.Sound;
    hide Moves, Finish, CallsOf, Frames;
    var i, j := Violation(o, cs);
    var steps := DisorderFails(o, cs, i, j);
    assert [] + cs == cs;
    FramesEmpty([]);
    ms := CallsThenFail(o, [], cs, steps);
  }

  /** When the buffer and the pipe are empty, all of the calls have been handed over. */
  lemma AllHanded(o: Server, y: System, cs: seq<Call>)
    requires Handed(o, y, cs) && y.p.pipe == [] && y.p.buffer == []
    ensures Tracks(o, y.s, cs)
  {
    hide Tracks, WellFormed, Pipe.Sound;
    var k := |y.p.events|;
    FramesEmpty(cs[k..]);
    assert cs[..|cs|] == cs;
  }

  /** A message behind the frame that closes its connection: the master would append it to a freed buffer. */
  lemma SendAfterClose()
    ensures Ready(Started(2, 5), Accepts(4))
    ensures var o := Accept(Started(2, 5), 4);
            var cs := [Close(4, Tcp, []), Send(4, Tcp, [65], 1, [])];
            && Open(o, cs) && (forall c :: c in cs ==> WellFormed(c) && Pipe.Sound(c)) && !Orderly(o, cs)
            && exists ms :: SystemRun(o, cs, ms) && Finish(System(START, o), ms).None?
  {
    hide Served, Started, SystemRun, Finish;
    var o := StartedAccept(2, 5, 4);
    assert Accept(Started(2, 5), 4) == o;
    var cs := [Close(4, Tcp, []), Send(4, Tcp, [65], 1, [])];
    assert Ends(o, cs[0]) && Touching(cs[1]);
    OneOpen(2, 5, 4);
    var ms := DisorderlyRun(o, cs);
  }

  /** With one client accepted there is nothing in any buffer. */
  lemma OneOpen(n: nat, maxConnect: nat, fd: nat)
    requires n > 0 && 0 < fd < maxConnect
    ensures var s := Accept(Started(n, maxConnect), fd);
            |s.conns| == maxConnect && forall x :: 0 <= x < maxConnect ==> s.conns[x].buffer == []
  {
    hide Register;
  }

  /** A client that hangs up first: any frame that is still to come for it then touches a freed connection. */
  lemma HangupFails(o: Server, c: Call, q: nat)
    requires Open(o, [c]) && Touching(c) && q < |o.reactors|
    ensures Follows(o, [Hangs(c.connfd), Receives(q, Meaning(c))])
    ensures ServeAll(o, [Hangs(c.connfd), Receives(q, Meaning(c))]).None?
  {
    hide Served, Deregister, ForgetAll;
    assert c in [c];
    var fd := c.connfd;
    HangReady(o, fd);
    var steps := [Hangs(fd), Receives(q, Meaning(c))];
    assert steps[1..][0] == Receives(q, Meaning(c));
    var r := Free(o, fd);
    assert Serve(o, steps[0]) == Some(r) && Receive(r, q, Meaning(c)).None?;
  }
}
