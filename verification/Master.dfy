/**
 aeserver.c: the master's side. Frames from a worker's pipe become bytes for
 clients or the end of their connections, and the clients' sockets drain.
 */
module Master {
  import opened Common
  import opened Pipe
  import opened FileEvents

  const ON_CLIENT_WRITABLE: Proc := 2
  const ON_CLIENT_READABLE: Proc := 3

  // ---------------------------------------------------------------- reactors

  /** A reactor: its loop, and what the kernel watches for it. */
  datatype Poll = Poll(loop: Loop, interest: map<nat, Mask>)

  type Reactor = p: Poll | -1 <= p.loop.maxfd < |p.loop.events| witness Poll(Loop([], -1), map[])

  /** The events of fd in the table. */
  function MaskOf(p: Reactor, fd: int): Mask {
    if 0 <= fd < |p.loop.events| then p.loop.events[fd].mask else NONE
  }

  /** aeCreateFileEvent, when epoll_ctl answers by what it watches. */
  function Register(p: Reactor, fd: nat, mask: Mask, proc: Proc): Reactor {
    var e := CreateEvent(p.loop, fd, mask, proc, 0, true);
    match Controls(p.interest, e.issued)
    case None => p
    case Some(interest) => Poll(e.loop, interest)
  }

  /** aeDeleteFileEvent, which does not look at the answer of epoll_ctl. */
  function Deregister(p: Reactor, fd: nat, mask: Mask): Reactor {
    var e := DeleteEvent(p.loop, fd, mask);
    Poll(e.loop, match Controls(p.interest, e.issued) case None => p.interest case Some(interest) => interest)
  }

  /** close: the kernel no longer watches the descriptor; the table does not change. */
  function Forget(p: Reactor, fd: nat): Reactor {
    p.(interest := p.interest - {fd})
  }

  function ForgetAll(ps: seq<Reactor>, fd: nat): (r: seq<Reactor>)
    ensures |r| == |ps|
  {
    seq(|ps|, q requires 0 <= q < |ps| => Forget(ps[q], fd))
  }

  /** The kernel watches what the table says. */
  ghost predicate Mirrored(p: Reactor) {
    MaxOk(p.loop) && p.interest == Registered(p.loop)
  }

  lemma RegisterOk(p: Reactor, fd: nat, mask: Mask, proc: Proc)
    requires Mirrored(p) && fd < |p.loop.events| && mask != NONE
    ensures var r := Register(p, fd, mask, proc);
            && Mirrored(r) && |r.loop.events| == |p.loop.events| && MaskOf(r, fd) == mask | MaskOf(p, fd)
            && forall x :: x != fd ==> MaskOf(r, x) == MaskOf(p, x)
  {
    CreateMirror(p.loop, fd, mask, proc, 0, true);
    hide MaxOk, Registered, Controls;
  }

  lemma DeregisterOk(p: Reactor, fd: nat, mask: Mask)
    requires Mirrored(p)
    ensures var r := Deregister(p, fd, mask);
            && Mirrored(r) && |r.loop.events| == |p.loop.events| && MaskOf(r, fd) == MaskOf(p, fd) & !mask
            && forall x :: x != fd ==> MaskOf(r, x) == MaskOf(p, x)
  {
    DeleteMirror(p.loop, fd, mask);
    hide MaxOk, Registered, Controls;
    assert NONE & !mask == NONE;
  }

  /** After a close table and kernel agree exactly when the table has no events of the descriptor. */
  lemma ForgetOk(p: Reactor, fd: nat)
    requires Mirrored(p)
    ensures Mirrored(Forget(p, fd)) <==> MaskOf(p, fd) == NONE
  {
    hide MaxOk;
    if MaskOf(p, fd) == NONE {
      assert fd !in p.interest;
      assert p.interest - {fd} == p.interest;
    } else {
      assert fd in Registered(p.loop);
    }
  }

  /** Whatever the kernel answers, other descriptors are not concerned. */
  lemma RegisterElsewhere(p: Reactor, fd: nat, mask: Mask, proc: Proc, x: nat)
    requires x != fd
    ensures var r := Register(p, fd, mask, proc);
            MaskOf(r, x) == MaskOf(p, x) && (x in r.interest <==> x in p.interest)
  {
    var e := CreateEvent(p.loop, fd, mask, proc, 0, true);
    if e.issued != [] {
      One(p.interest, e.issued[0]);
    }
  }

  lemma DeregisterElsewhere(p: Reactor, fd: nat, mask: Mask, x: nat)
    requires x != fd
    ensures var r := Deregister(p, fd, mask);
            MaskOf(r, x) == MaskOf(p, x) && (x in r.interest <==> x in p.interest)
  {
    var e := DeleteEvent(p.loop, fd, mask);
    if e.issued != [] {
      One(p.interest, e.issued[0]);
    }
  }

  // ------------------------------------------------------------------ server

  /**
   aeConnection. A connection is live from its accept to its freeClient; until
   the one and after the other its buffer must not be touched. `disable` is 1
   when it has been freed and 2 when it is to be once its buffer is drained.
   */
  datatype Connection = Connection(buffer: seq<byte>, disable: nat, live: bool, http: bool)

  /** The reactors, connlist with the number in use, and what each client has been sent since its accept. */
  datatype Host = Host(reactors: seq<Reactor>, conns: seq<Connection>, connectNum: int, sent: seq<seq<byte>>)

  type Server = s: Host | s.reactors != [] && |s.sent| == |s.conns|
    witness Host([Poll(Loop([], -1), map[])], [], 0, [])

  predicate Live(s: Server, fd: int) {
    0 <= fd < |s.conns| && s.conns[fd].live
  }

  /** The reactor that a connection belongs to. */
  function Home(s: Server, fd: nat): (q: nat)
    ensures q < |s.reactors|
  {
    fd % |s.reactors|
  }

  /** The reactor would call a handler of the descriptor: both the kernel and the table have the event. */
  predicate Wants(s: Server, q: nat, fd: nat, mask: Mask) {
    && q < |s.reactors| && fd < |s.conns|
    && fd in s.reactors[q].interest && MaskOf(s.reactors[q], fd) & mask != NONE
  }

  // ---------------------------------------------------------------- handlers

  /** freeClient: the events are deleted in the loop of the connection's own reactor. */
  function Free(s: Server, fd: nat): (r: Server)
    requires fd < |s.conns|
    ensures |r.conns| == |s.conns| && |r.reactors| == |s.reactors|
  {
    var h := Home(s, fd);
    var p := Deregister(Deregister(s.reactors[h], fd, READABLE), fd, WRITABLE);
    Host(ForgetAll(s.reactors[h := p], fd),
         s.conns[fd := s.conns[fd].(buffer := [], disable := 1, live := false)], s.connectNum - 1, s.sent)
  }

  /**
   What onMasterPipeReadable does with a frame that reactor q has read; None
   where it would touch a connection that is not live, or write past its block.
   The client is then watched by the reactor that has read the frame.
   */
  function Receive(s: Server, q: nat, e: Event): (r: Option<Server>)
    requires q < |s.reactors|
    ensures r.Some? ==> |r.value.conns| == |s.conns| && |r.value.reactors| == |s.reactors|
  {
    match e
    case Data(fd, bytes) =>
      if !Live(s, fd) then None
      else
        var c := s.conns[fd];
        var p := if c.buffer == [] then Register(s.reactors[q], fd, WRITABLE, ON_CLIENT_WRITABLE) else s.reactors[q];
        Some(s.(reactors := s.reactors[q := p], conns := s.conns[fd := c.(buffer := c.buffer + bytes)]))
    case Closed(fd) =>
      if !Live(s, fd) then None
      else if s.conns[fd].buffer == [] then Some(Free(s, fd))
      else Some(s.(conns := s.conns[fd := s.conns[fd].(disable := 2)]))
    case Overrun => None
    case _ => Some(s)
  }

  /** onClientWritable in reactor q, when write takes n bytes and fails for n <= 0. */
  function Flush(s: Server, q: nat, fd: nat, n: int): (r: Server)
    requires q < |s.reactors| && fd < |s.conns| && n <= |s.conns[fd].buffer|
    ensures |r.conns| == |s.conns| && |r.reactors| == |s.reactors|
  {
    var c := s.conns[fd];
    if c.disable == 1 then s
    else if c.buffer == [] then Unwatch(s, q, fd)
    else if n <= 0 then Free(s, fd)
    else
      var t := Drain(s, fd, n);
      if c.buffer[n..] != [] then t
      else if c.disable == 2 || c.http then Free(Unwatch(t, q, fd), fd)
      else Unwatch(t, q, fd)
  }

  function Unwatch(s: Server, q: nat, fd: nat): Server
    requires q < |s.reactors|
  {
    s.(reactors := s.reactors[q := Deregister(s.reactors[q], fd, WRITABLE)])
  }

  function Drain(s: Server, fd: nat, n: nat): Server
    requires fd < |s.conns| && n <= |s.conns[fd].buffer|
  {
    var b := s.conns[fd].buffer;
    s.(conns := s.conns[fd := s.conns[fd].(buffer := b[n..])], sent := s.sent[fd := s.sent[fd] + b[..n]])
  }

  /** acceptCommonHandler: over the limit, or without a descriptor above 0, nothing but a close. */
  function Accept(s: Server, fd: nat): (r: Server)
    requires fd < |s.conns|
    ensures |r.conns| == |s.conns| && |r.reactors| == |s.reactors|
  {
    if s.connectNum >= |s.conns| || fd <= 0 then s
    else
      var h := Home(s, fd);
      Host(s.reactors[h := Register(s.reactors[h], fd, READABLE, ON_CLIENT_READABLE)],
           s.conns[fd := Connection([], 0, true, false)], s.connectNum + 1, s.sent[fd := []])
  }

  datatype ServerStep =
    | Receives(q: nat, e: Event)
    | Flushes(q: nat, fd: nat, n: int)
    | Accepts(fd: nat)
    | Hangs(fd: nat)                          // the client closes its end
    | Recognizes(fd: nat, http: bool)         // the protocol of the first request

  /** When a step can happen: handlers run for registered events, and accept returns an unused descriptor. */
  predicate Ready(s: Server, step: ServerStep) {
    match step
    case Receives(q, e) => q < |s.reactors| && (e.Data? ==> e.bytes != [])
    case Flushes(q, fd, n) => Wants(s, q, fd, WRITABLE) && n <= |s.conns[fd].buffer|
    case Accepts(fd) => fd < |s.conns| && !s.conns[fd].live && forall p :: p in s.reactors ==> fd !in p.interest
    case Hangs(fd) => Wants(s, Home(s, fd), fd, READABLE)
    case Recognizes(fd, _) => Live(s, fd)
  }

  function Serve(s: Server, step: ServerStep): (r: Option<Server>)
    requires Ready(s, step)
    ensures r.Some? ==> |r.value.conns| == |s.conns| && |r.value.reactors| == |s.reactors|
  {
    match step
    case Receives(q, e) => Receive(s, q, e)
    case Flushes(q, fd, n) => Some(Flush(s, q, fd, n))
    case Accepts(fd) => Some(Accept(s, fd))
    case Hangs(fd) => Some(Free(s, fd))
    case Recognizes(fd, http) => Some(s.(conns := s.conns[fd := s.conns[fd].(http := http)]))
  }

  // --------------------------------------------------------------- invariant

  /** A connection's events in the table of reactor q, when w is the one to watch its buffer. */
  function Share(c: Connection, home: nat, w: nat, q: nat): Mask {
    if !c.live then NONE
    else (if q == home then READABLE else NONE) | (if q == w && c.buffer != [] then WRITABLE else NONE)
  }

  ghost predicate WatchedBy(s: Server, fd: nat, w: nat)
    requires fd < |s.conns|
  {
    && w < |s.reactors|
    && forall q :: 0 <= q < |s.reactors| ==> MaskOf(s.reactors[q], fd) == Share(s.conns[fd], Home(s, fd), w, q)
  }

  /**
   A live connection is watched for reading by its own reactor, and for writing
   by exactly one reactor while it has bytes to send and by none otherwise; one
   that is to be closed has some, so that its last write will close it. A dead
   one is not watched at all.
   */
  ghost predicate ConnectionOk(s: Server, fd: nat)
    requires fd < |s.conns|
  {
    var c := s.conns[fd];
    && (exists w: nat :: WatchedBy(s, fd, w))
    && if c.live then c.disable == 0 || (c.disable == 2 && c.buffer != []) else c.buffer == []
  }

  ghost predicate Connections(s: Server) {
    forall fd :: 0 <= fd < |s.conns| ==> ConnectionOk(s, fd)
  }

  /** Every kernel set is the table's, and the tables have room for every descriptor that connlist has room for. */
  ghost predicate Kernels(s: Server) {
    forall q :: 0 <= q < |s.reactors| ==> Mirrored(s.reactors[q]) && |s.conns| <= |s.reactors[q].loop.events|
  }

  function Lives(cs: seq<Connection>): set<nat> {
    set fd: nat | fd < |cs| && cs[fd].live
  }

  predicate Counted(s: Server) {
    s.connectNum == |Lives(s.conns)|
  }

  ghost predicate Served(s: Server) {
    Kernels(s) && Connections(s) && Counted(s)
  }

  lemma LivesChange(cs: seq<Connection>, fd: nat, c: Connection)
    requires fd < |cs|
    ensures |Lives(cs[fd := c])| == |Lives(cs)| + (if c.live then 1 else 0) - (if cs[fd].live then 1 else 0)
  {
    hide Lives;
    var ds, rest := cs[fd := c], Lives(cs) - {fd};
    LivesBut(cs, fd);
    LivesBut(ds, fd);
    LivesSame(cs, ds, fd);
    assert Lives(ds) - {fd} == rest;
  }

  lemma LivesBut(cs: seq<Connection>, fd: nat)
    requires fd < |cs|
    ensures |Lives(cs)| == |Lives(cs) - {fd}| + if cs[fd].live then 1 else 0
  {
    assert fd in Lives(cs) <==> cs[fd].live;
    hide Lives;
    var all, rest := Lives(cs), Lives(cs) - {fd};
    assert all == if fd in all then rest + {fd} else rest;
  }

  lemma LivesSame(cs: seq<Connection>, ds: seq<Connection>, fd: nat)
    requires |ds| == |cs| && forall x :: 0 <= x < |cs| && x != fd ==> ds[x] == cs[x]
    ensures Lives(ds) - {fd} == Lives(cs) - {fd}
  {
    assert forall x: nat :: x < |cs| && x != fd ==> (x in Lives(ds) <==> x in Lives(cs));
  }

  /** With one connection dead there is room for it. */
  lemma LivesRoom(cs: seq<Connection>, fd: nat)
    requires fd < |cs| && !cs[fd].live
    ensures |Lives(cs)| < |cs|
  {
    assert Lives(cs) <= Below(|cs|) - {fd} && fd in Below(|cs|);
    hide Lives;
    SubsetSize(Lives(cs), Below(|cs|) - {fd});
  }

  function Below(n: nat): (r: set<nat>)
    ensures |r| == n && forall x: nat :: x in r <==> x < n
  {
    if n == 0 then {} else Below(n - 1) + {n - 1}
  }

  lemma SubsetSize(a: set<nat>, b: set<nat>)
    requires a <= b
    ensures |a| <= |b|
  {
    assert b == a + (b - a);
  }

  /** What changes one connection only leaves the others as they were. */
  lemma Elsewhere(s: Server, t: Server, fd: nat)
    requires Connections(s) && fd < |s.conns| == |t.conns| && |t.reactors| == |s.reactors|
    requires t.conns == s.conns[fd := t.conns[fd]] && ConnectionOk(t, fd)
    requires forall q, x :: 0 <= q < |s.reactors| && 0 <= x < |s.conns| && x != fd ==>
               MaskOf(t.reactors[q], x) == MaskOf(s.reactors[q], x)
    ensures Connections(t)
  {
    hide MaskOf;
    forall x | 0 <= x < |t.conns| && x != fd
      ensures ConnectionOk(t, x)
    {
      assert ConnectionOk(s, x);
      var w: nat :| WatchedBy(s, x, w);
      assert WatchedBy(t, x, w);
    }
  }

  // ------------------------------------------------------------ each handler

  /** The connection has bytes to send, and they are watched for in another reactor than its own. */
  predicate Astray(s: Server, fd: nat)
    requires fd < |s.conns|
  {
    s.conns[fd].buffer != [] && MaskOf(s.reactors[Home(s, fd)], fd) & WRITABLE == NONE
  }

  lemma Bits()
    ensures NONE & READABLE == NONE & WRITABLE == NONE && READABLE & WRITABLE == NONE && READABLE & READABLE != NONE
    ensures WRITABLE & WRITABLE != NONE && (READABLE | WRITABLE) & WRITABLE != NONE
    ensures (READABLE | WRITABLE) & READABLE != NONE && WRITABLE & READABLE == NONE
    ensures NONE | NONE == NONE && READABLE | NONE == READABLE && NONE | WRITABLE == WRITABLE
    ensures WRITABLE | NONE == WRITABLE && WRITABLE | READABLE == READABLE | WRITABLE
    ensures (READABLE | WRITABLE) & !WRITABLE == READABLE && WRITABLE & !WRITABLE == NONE
    ensures READABLE & !WRITABLE == READABLE && NONE & !WRITABLE == NONE
  {
  }

  lemma NoBits(m: Mask)
    ensures m & !READABLE & !WRITABLE == NONE
  {
  }

  /** A free keeps tables and kernels in step exactly when no bytes are watched for elsewhere. */
  lemma FreeOkIff(s: Server, fd: nat)
    requires Served(s) && Live(s, fd)
    ensures Served(Free(s, fd)) <==> !Astray(s, fd)
  {
    hide Mirrored, Forget, Deregister;
    var t, h := Free(s, fd), Home(s, fd);
    assert ConnectionOk(s, fd);
    var w: nat :| WatchedBy(s, fd, w);
    FreeTables(s, fd);
    LivesChange(s.conns, fd, t.conns[fd]);
    Bits();
    if Astray(s, fd) {
      assert MaskOf(s.reactors[w], fd) == WRITABLE && w != h;
      assert !Mirrored(t.reactors[w]);
    } else {
      assert forall q :: 0 <= q < |s.reactors| && q != h ==> MaskOf(s.reactors[q], fd) == NONE;
      assert WatchedBy(t, fd, 0);
      Elsewhere(s, t, fd);
    }
  }

  /** What a free leaves in the tables: no event in the connection's own reactor, every other table as it was. */
  lemma FreeTables(s: Server, fd: nat)
    requires Kernels(s) && fd < |s.conns|
    ensures var t, h := Free(s, fd), Home(s, fd);
            && (forall q :: 0 <= q < |s.reactors| ==> |t.reactors[q].loop.events| == |s.reactors[q].loop.events|)
            && (forall q, x :: 0 <= q < |s.reactors| && (x != fd || q != h) ==>
                  MaskOf(t.reactors[q], x) == MaskOf(s.reactors[q], x))
            && MaskOf(t.reactors[h], fd) == NONE
            && (forall q :: 0 <= q < |s.reactors| ==>
                  (Mirrored(t.reactors[q]) <==> MaskOf(t.reactors[q], fd) == NONE))
            && (forall q :: 0 <= q < |s.reactors| ==> fd !in t.reactors[q].interest)
  {
    hide Mirrored, Deregister;
    var h := Home(s, fd);
    DeregisterOk(s.reactors[h], fd, READABLE);
    var p := Deregister(s.reactors[h], fd, READABLE);
    DeregisterOk(p, fd, WRITABLE);
    NoBits(MaskOf(s.reactors[h], fd));
    var ps := s.reactors[h := Deregister(p, fd, WRITABLE)];
    forall q | 0 <= q < |s.reactors|
      ensures Mirrored(Forget(ps[q], fd)) <==> MaskOf(ps[q], fd) == NONE
    {
      ForgetOk(ps[q], fd);
    }
  }

  lemma ReceiveOk(s: Server, q: nat, e: Event)
    requires Served(s) && Ready(s, Receives(q, e))
    ensures Receive(s, q, e).None? <==>
            e.Overrun? || (e.Data? && !Live(s, e.connfd)) || (e.Closed? && !Live(s, e.connfd))
    ensures Receive(s, q, e).Some? ==> Served(Receive(s, q, e).value)
  {
    hide Mirrored, Register, Free;
    if Receive(s, q, e).Some? {
      var t := Receive(s, q, e).value;
      match e {
        case Data(fd, bytes) =>
          assert ConnectionOk(s, fd);
          var w: nat :| WatchedBy(s, fd, w);
          RegisterOk(s.reactors[q], fd, WRITABLE, ON_CLIENT_WRITABLE);
          LivesChange(s.conns, fd, t.conns[fd]);
          Bits();
          assert WatchedBy(t, fd, if s.conns[fd].buffer == [] then q else w);
          Elsewhere(s, t, fd);
        case Closed(fd) =>
          assert ConnectionOk(s, fd);
          if s.conns[fd].buffer == [] {
            FreeOkIff(s, fd);
          } else {
            SameTables(s, t, fd);
          }
        case _ =>
      }
    }
  }

  /** With the tables and the place of the connection's bytes unchanged only its flags matter. */
  lemma SameTables(s: Server, t: Server, fd: nat)
    requires Served(s) && Live(s, fd) && |t.conns| == |s.conns| && t.reactors == s.reactors
    requires t.conns == s.conns[fd := t.conns[fd]] && t.connectNum == s.connectNum
    requires var c := t.conns[fd];
             && c.live && (c.buffer == [] <==> s.conns[fd].buffer == [])
             && (c.disable == 0 || (c.disable == 2 && c.buffer != []))
    ensures Served(t)
  {
    hide Mirrored, MaskOf;
    assert ConnectionOk(s, fd);
    var w: nat :| WatchedBy(s, fd, w);
    assert WatchedBy(t, fd, w);
    LivesChange(s.conns, fd, t.conns[fd]);
    Elsewhere(s, t, fd);
  }

  /** A handler runs for a live connection that has bytes, in the reactor that watches for them. */
  lemma WriterRuns(s: Server, q: nat, fd: nat, w: nat)
    requires fd < |s.conns| && WatchedBy(s, fd, w) && Wants(s, q, fd, WRITABLE)
    ensures Live(s, fd) && s.conns[fd].buffer != [] && q == w
  {
    Bits();
  }

  lemma FlushOkIff(s: Server, q: nat, fd: nat, n: int)
    requires Served(s) && Ready(s, Flushes(q, fd, n))
    ensures Live(s, fd) && s.conns[fd].buffer != []
    ensures Served(Flush(s, q, fd, n)) <==> n > 0 || !Astray(s, fd)
  {
    hide Mirrored, MaskOf, Deregister, Free;
    assert ConnectionOk(s, fd);
    var w: nat :| WatchedBy(s, fd, w);
    WriterRuns(s, q, fd, w);
    var c := s.conns[fd];
    if n <= 0 {
      FreeOkIff(s, fd);
    } else if c.buffer[n..] != [] {
      SameTables(s, Drain(s, fd, n), fd);
    } else {
      Drained(s, q, fd, n);
      var u := Unwatch(Drain(s, fd, n), q, fd);
      var v := u.(conns := s.conns[fd := c.(buffer := [], disable := 0)]);
      FreeOkIff(v, fd);
      FreeAnyway(u, v, fd);
      assert c.disable == 0 ==> u == v;
    }
  }

  /** After the last byte nobody watches for writing. */
  lemma Drained(s: Server, q: nat, fd: nat, n: nat)
    requires Served(s) && Ready(s, Flushes(q, fd, n)) && n == |s.conns[fd].buffer| && Live(s, fd)
    ensures var c := s.conns[fd].(buffer := [], disable := 0);
            Served(Unwatch(Drain(s, fd, n), q, fd).(conns := s.conns[fd := c]))
  {
    hide Mirrored, Deregister;
    assert ConnectionOk(s, fd);
    var w: nat :| WatchedBy(s, fd, w);
    WriterRuns(s, q, fd, w);
    var c := s.conns[fd].(buffer := [], disable := 0);
    var v := Unwatch(Drain(s, fd, n), q, fd).(conns := s.conns[fd := c]);
    DeregisterOk(s.reactors[q], fd, WRITABLE);
    Bits();
    LivesChange(s.conns, fd, c);
    assert WatchedBy(v, fd, w);
    Elsewhere(s, v, fd);
  }

  /** What the freed connection was like before does not matter. */
  lemma FreeAnyway(s: Server, t: Server, fd: nat)
    requires fd < |s.conns| == |t.conns| && s.reactors == t.reactors
    requires s.sent == t.sent && s.connectNum == t.connectNum
    requires s.conns[fd].http == t.conns[fd].http && s.conns == t.conns[fd := s.conns[fd]]
    ensures Free(s, fd) == Free(t, fd)
  {
    hide Deregister, Forget;
  }

  lemma AcceptOk(s: Server, fd: nat)
    requires Served(s) && Ready(s, Accepts(fd))
    ensures Served(Accept(s, fd))
    ensures fd > 0 ==> Live(Accept(s, fd), fd)
  {
    hide Mirrored, Register;
    var t, h := Accept(s, fd), Home(s, fd);
    LivesRoom(s.conns, fd);
    if fd > 0 {
      assert ConnectionOk(s, fd);
      RegisterOk(s.reactors[h], fd, READABLE, ON_CLIENT_READABLE);
      LivesChange(s.conns, fd, t.conns[fd]);
      Bits();
      assert WatchedBy(t, fd, 0);
      Elsewhere(s, t, fd);
    }
  }

  /** In any state: what is accepted, and what a client finds that is. */
  lemma AcceptLimit(s: Server, fd: nat)
    requires fd < |s.conns| && !Live(s, fd)
    ensures var t := Accept(s, fd);
            if fd > 0 && s.connectNum < |s.conns|
            then Live(t, fd) && t.conns[fd].buffer == t.sent[fd] == [] && t.conns[fd].disable == 0
                 && !t.conns[fd].http && t.connectNum == s.connectNum + 1
                 && forall x :: 0 <= x < |s.conns| && x != fd ==> t.conns[x] == s.conns[x] && t.sent[x] == s.sent[x]
            else t == s
  {
  }

  // -------------------------------------------------------------------- runs

  /** The step frees a connection whose bytes are watched for in another reactor than its own. */
  predicate Strays(s: Server, step: ServerStep)
    requires Ready(s, step)
  {
    match step
    case Flushes(_, fd, n) => n <= 0 && Astray(s, fd)
    case Hangs(fd) => Astray(s, fd)
    case _ => false
  }

  /**
   A step keeps registrations, kernel sets, buffers and connectNum together
   exactly when it does not stray, unless it touches a connection that is not live.
   */
  lemma ServeOkIff(s: Server, step: ServerStep)
    requires Served(s) && Ready(s, step)
    ensures Serve(s, step).Some? ==> (Served(Serve(s, step).value) <==> !Strays(s, step))
    ensures Serve(s, step).None? ==> !Strays(s, step)
  {
    hide Receive, Flush, Free, Accept, Astray;
    match step {
      case Receives(q, e) => ReceiveOk(s, q, e);
      case Flushes(q, fd, n) => FlushOkIff(s, q, fd, n);
      case Accepts(fd) => AcceptOk(s, fd);
      case Hangs(fd) =>
        ReaderRuns(s, fd);
        FreeOkIff(s, fd);
      case Recognizes(fd, http) =>
        assert ConnectionOk(s, fd);
        SameTables(s, Serve(s, step).value, fd);
    }
  }

  lemma ReaderRuns(s: Server, fd: nat)
    requires Served(s) && Ready(s, Hangs(fd))
    ensures Live(s, fd)
  {
    hide Mirrored;
    Bits();
    assert ConnectionOk(s, fd);
  }

  /** A run of steps; None once one of them touches a connection that is not live. */
  function ServeAll(s: Server, steps: seq<ServerStep>): (r: Option<Server>)
    requires Follows(s, steps)
    ensures r.Some? ==> |r.value.conns| == |s.conns| && |r.value.reactors| == |s.reactors|
    decreases |steps|
  {
    if steps == [] then Some(s)
    else match Serve(s, steps[0]) case None => None case Some(t) => ServeAll(t, steps[1..])
  }

  predicate Follows(s: Server, steps: seq<ServerStep>)
    decreases |steps|
  {
    steps == [] ||
    (Ready(s, steps[0]) && match Serve(s, steps[0]) case None => true case Some(t) => Follows(t, steps[1..]))
  }

  /** No step of the run strays. */
  predicate Tidy(s: Server, steps: seq<ServerStep>)
    requires Follows(s, steps)
    decreases |steps|
  {
    steps == [] ||
    (!Strays(s, steps[0]) && match Serve(s, steps[0]) case None => true case Some(t) => Tidy(t, steps[1..]))
  }

  /** The invariant holds at every point of the run. */
  ghost predicate AlwaysServed(s: Server, steps: seq<ServerStep>)
    requires Follows(s, steps)
    decreases |steps|
  {
    && Served(s)
    && (steps == [] || match Serve(s, steps[0]) case None => true case Some(t) => AlwaysServed(t, steps[1..]))
  }

  /**
   Over any run, with any number of reactors: bytes never wait unwatched, and a
   connection to be closed never has its last write behind it, exactly when no
   step strays.
   */
  lemma {:induction false} StaysServedIff(s: Server, steps: seq<ServerStep>)
    requires Served(s) && Follows(s, steps)
    ensures AlwaysServed(s, steps) <==> Tidy(s, steps)
    ensures Tidy(s, steps) && ServeAll(s, steps).Some? ==> Served(ServeAll(s, steps).value)
    decreases |steps|
  {
    hide Served, Serve, Ready, Strays;
    if steps != [] {
      ServeOkIff(s, steps[0]);
      if Serve(s, steps[0]).Some? {
        var t := Serve(s, steps[0]).value;
        if Strays(s, steps[0]) {
          assert AlwaysServed(t, steps[1..]) ==> Served(t);
        } else {
          StaysServedIff(t, steps[1..]);
        }
      }
    }
  }

  /** Nothing waits in another reactor than its own. */
  ghost predicate NoneAstray(s: Server) {
    forall fd :: 0 <= fd < |s.conns| ==> !Astray(s, fd)
  }

  /** Every body is read by the reactor of the connection it is for. */
  predicate OwnReads(n: nat, steps: seq<ServerStep>)
    requires n > 0
  {
    forall step :: step in steps && step.Receives? && step.e.Data? ==> step.q == step.e.connfd % n
  }

  /** The connection a step is for. */
  function Subject(step: ServerStep): int {
    match step
    case Receives(_, Data(fd, _)) => fd
    case Receives(_, Closed(fd)) => fd
    case Receives(_, _) => -1
    case Flushes(_, fd, _) => fd
    case Accepts(fd) => fd
    case Hangs(fd) => fd
    case Recognizes(fd, _) => fd
  }

  /** Nothing about the connection x has changed. */
  ghost predicate Alike(s: Server, t: Server, x: nat) {
    && x < |s.conns| == |t.conns| && |t.reactors| == |s.reactors|
    && t.conns[x] == s.conns[x] && t.sent[x] == s.sent[x]
    && forall q :: 0 <= q < |s.reactors| ==>
         && MaskOf(t.reactors[q], x) == MaskOf(s.reactors[q], x)
         && (x in t.reactors[q].interest <==> x in s.reactors[q].interest)
  }

  lemma FreeElsewhere(s: Server, fd: nat, x: nat)
    requires fd < |s.conns| && x < |s.conns| && x != fd
    ensures Alike(s, Free(s, fd), x)
  {
    hide Deregister, MaskOf;
    var h := Home(s, fd);
    DeregisterElsewhere(s.reactors[h], fd, READABLE, x);
    DeregisterElsewhere(Deregister(s.reactors[h], fd, READABLE), fd, WRITABLE, x);
    ForgetElsewhere(s.reactors[h := Deregister(Deregister(s.reactors[h], fd, READABLE), fd, WRITABLE)], fd, x);
  }

  lemma ForgetElsewhere(ps: seq<Reactor>, fd: nat, x: nat)
    requires x != fd
    ensures forall q :: 0 <= q < |ps| ==>
              && MaskOf(ForgetAll(ps, fd)[q], x) == MaskOf(ps[q], x)
              && (x in ForgetAll(ps, fd)[q].interest <==> x in ps[q].interest)
  {
  }

  lemma FlushElsewhere(s: Server, q: nat, fd: nat, n: int, x: nat)
    requires q < |s.reactors| && fd < |s.conns| && n <= |s.conns[fd].buffer| && x < |s.conns| && x != fd
    ensures Alike(s, Flush(s, q, fd, n), x)
  {
    hide Deregister, MaskOf, Free;
    DeregisterElsewhere(s.reactors[q], fd, WRITABLE, x);
    FreeElsewhere(s, fd, x);
    if n > 0 {
      FreeElsewhere(Unwatch(Drain(s, fd, n), q, fd), fd, x);
    }
  }

  /** A step concerns one connection only, whatever the kernel answers. */
  lemma ServeElsewhere(s: Server, step: ServerStep, x: nat)
    requires Ready(s, step) && x < |s.conns| && x != Subject(step)
    ensures Serve(s, step).Some? ==> Alike(s, Serve(s, step).value, x)
  {
    hide Register, Deregister, MaskOf, Free, Flush;
    if Serve(s, step).Some? {
      match step {
        case Receives(q, Data(fd, _)) =>
          RegisterElsewhere(s.reactors[q], fd, WRITABLE, ON_CLIENT_WRITABLE, x);
        case Receives(_, Closed(fd)) =>
          FreeElsewhere(s, fd, x);
        case Receives(_, _) =>
        case Flushes(q, fd, n) =>
          FlushElsewhere(s, q, fd, n, x);
        case Accepts(fd) =>
          RegisterElsewhere(s.reactors[Home(s, fd)], fd, READABLE, ON_CLIENT_READABLE, x);
        case Hangs(fd) =>
          FreeElsewhere(s, fd, x);
        case Recognizes(_, _) =>
      }
    }
  }

  lemma OwnReadOk(s: Server, step: ServerStep)
    requires Served(s) && Ready(s, step) && NoneAstray(s) && OwnReads(|s.reactors|, [step])
    ensures !Strays(s, step)
    ensures Serve(s, step).Some? ==> NoneAstray(Serve(s, step).value)
  {
    hide Serve, Ready;
    StrayIsAstray(s, step);
    if Serve(s, step).Some? {
      var t := Serve(s, step).value;
      forall x | 0 <= x < |t.conns|
        ensures !Astray(t, x)
      {
        if x == Subject(step) {
          assert step in [step];
          OwnReadSubject(s, step, x);
        } else {
          ServeElsewhere(s, step, x);
          assert Alike(s, t, x) && !Astray(s, x);
        }
      }
    }
  }

  lemma StrayIsAstray(s: Server, step: ServerStep)
    requires Ready(s, step)
    ensures Strays(s, step) ==> 0 <= Subject(step) < |s.conns| && Astray(s, Subject(step))
  {
  }

  lemma OwnReadSubject(s: Server, step: ServerStep, fd: nat)
    requires Served(s) && Ready(s, step) && Serve(s, step).Some? && Subject(step) == fd < |s.conns|
    requires !Astray(s, fd) && (step.Receives? && step.e.Data? ==> step.q == Home(s, fd))
    ensures !Astray(Serve(s, step).value, fd)
  {
    hide Mirrored, MaskOf, Register, Deregister;
    Bits();
    if step.Receives? && step.e.Data? {
      RegisterOk(s.reactors[step.q], fd, WRITABLE, ON_CLIENT_WRITABLE);
      assert ConnectionOk(s, fd);
    }
  }

  /** Frames read by their own reactors only: no step strays. */
  lemma {:induction false} OwnReadsTidy(s: Server, steps: seq<ServerStep>)
    requires Served(s) && Follows(s, steps) && NoneAstray(s) && OwnReads(|s.reactors|, steps)
    ensures Tidy(s, steps)
    decreases |steps|
  {
    hide Served, Serve, Ready, Strays, NoneAstray;
    if steps != [] {
      assert steps[0] in steps;
      OwnReadOk(s, steps[0]);
      ServeOkIff(s, steps[0]);
      if Serve(s, steps[0]).Some? {
        OwnReadsTidy(Serve(s, steps[0]).value, steps[1..]);
      }
    }
  }

  /** So it is with a single reactor. */
  lemma {:induction false} OneReactorTidy(s: Server, steps: seq<ServerStep>)
    requires Served(s) && Follows(s, steps) && |s.reactors| == 1
    ensures Tidy(s, steps)
    decreases |steps|
  {
    hide Served, Serve, Ready, Strays, NoneAstray;
    if steps != [] {
      OneNoneAstray(s);
      ReaderExists(s, steps[0]);
      OwnReadOk(s, steps[0]);
      ServeOkIff(s, steps[0]);
      if Serve(s, steps[0]).Some? {
        OneReactorTidy(Serve(s, steps[0]).value, steps[1..]);
      }
    }
  }

  lemma ReaderExists(s: Server, step: ServerStep)
    requires Ready(s, step)
    ensures step.Receives? ==> step.q < |s.reactors|
  {
  }

  lemma OneNoneAstray(s: Server)
    requires Served(s) && |s.reactors| == 1
    ensures NoneAstray(s)
  {
    hide Mirrored, MaskOf;
    Bits();
    forall fd | 0 <= fd < |s.conns|
      ensures !Astray(s, fd)
    {
      assert ConnectionOk(s, fd);
    }
  }

  // ------------------------------------------------- what comes of a stray step

  /** The connection has bytes to send, and no reactor will ever call its write handler. */
  ghost predicate Stalled(s: Server, fd: nat) {
    && Live(s, fd) && s.conns[fd].buffer != []
    && forall q :: 0 <= q < |s.reactors| ==> !Wants(s, q, fd, WRITABLE)
  }

  /** While everything is in step nobody is stalled. */
  lemma ServedNotStalled(s: Server, fd: nat)
    requires Served(s)
    ensures !Stalled(s, fd)
  {
    hide MaskOf;
    if Live(s, fd) && s.conns[fd].buffer != [] {
      assert ConnectionOk(s, fd);
      var w: nat :| WatchedBy(s, fd, w);
      Bits();
      WatchedInKernel(s, w, fd);
      assert Wants(s, w, fd, WRITABLE);
    }
  }

  lemma WatchedInKernel(s: Server, q: nat, fd: nat)
    requires Kernels(s) && q < |s.reactors| && fd < |s.conns|
    ensures MaskOf(s.reactors[q], fd) != NONE ==> fd in s.reactors[q].interest
  {
    hide MaxOk;
    assert Mirrored(s.reactors[q]);
  }

  /**
   A stray step loses bytes of the next client: when its descriptor is accepted
   again, and the reactor that watched for the old client's bytes is the first
   to read a frame for the new one, the kernel refuses the change of a
   registration that it has dropped, and nobody looks at the answer.
   */
  lemma StrayStalls(s: Server, step: ServerStep, bytes: seq<byte>) returns (w: nat)
    requires Served(s) && Ready(s, step) && Strays(s, step) && bytes != []
    requires 0 < Subject(step) < 0x8000_0000
    ensures var steps := [step, Accepts(Subject(step)), Receives(w, Data(Subject(step), bytes))];
            && Follows(s, steps) && ServeAll(s, steps).Some?
            && Stalled(ServeAll(s, steps).value, Subject(step))
            && ServeAll(s, steps).value.conns[Subject(step)].buffer == bytes
    ensures w < |s.reactors| && w != Home(s, Subject(step))
  {
    hide Kernels, Connections, MaskOf, Free, Accept, Receive, ForgetAll;
    var fd: nat := Subject(step);
    StrayFrees(s, step);
    w := Stale(s, fd);
    var t := Free(s, fd);
    AcceptFreed(s, fd);
    ReceiveStale(Accept(t, fd), w, fd, bytes);
    var last := Receives(w, Data(fd, bytes));
    ServeThree(s, step, Accepts(fd), last);
  }

  lemma StrayFrees(s: Server, step: ServerStep)
    requires Served(s) && Ready(s, step) && Strays(s, step)
    ensures Live(s, Subject(step)) && Astray(s, Subject(step))
    ensures Serve(s, step) == Some(Free(s, Subject(step)))
  {
    hide Free, Served, Astray;
    match step
    case Flushes(q, fd, n) => FlushOkIff(s, q, fd, n); NotFreed(s, fd);
    case Hangs(fd) => ReaderRuns(s, fd);
  }

  lemma NotFreed(s: Server, fd: nat)
    requires Served(s) && Live(s, fd)
    ensures s.conns[fd].disable != 1
  {
    assert ConnectionOk(s, fd);
  }

  /** The reactor that watches for the bytes is left with an event that its kernel no longer has. */
  lemma Stale(s: Server, fd: nat) returns (w: nat)
    requires Served(s) && Live(s, fd) && Astray(s, fd)
    ensures w < |s.reactors| && w != Home(s, fd) && MaskOf(Free(s, fd).reactors[w], fd) == WRITABLE
    ensures fd < |Free(s, fd).reactors[w].loop.events|
  {
    hide MaskOf, Mirrored, Free;
    assert ConnectionOk(s, fd);
    w :| WatchedBy(s, fd, w);
    Bits();
    FreeTables(s, fd);
  }

  lemma AcceptFreed(s: Server, fd: nat)
    requires Served(s) && Live(s, fd) && fd > 0
    ensures Ready(Free(s, fd), Accepts(fd))
    ensures var t, h := Accept(Free(s, fd), fd), Home(s, fd);
            && Live(t, fd) && t.conns[fd].buffer == []
            && (forall q :: 0 <= q < |t.reactors| && q != h ==>
                  t.reactors[q] == Free(s, fd).reactors[q] && fd !in t.reactors[q].interest)
            && MaskOf(t.reactors[h], fd) == READABLE
  {
    hide MaskOf, Mirrored, Register, Deregister, Forget;
    var t, h := Free(s, fd), Home(s, fd);
    FreeTables(s, fd);
    assert forall p :: p in t.reactors ==> fd !in p.interest;
    LivesChange(s.conns, fd, t.conns[fd]);
    LivesRoom(t.conns, fd);
    RegisterOk(t.reactors[h], fd, READABLE, ON_CLIENT_READABLE);
    Bits();
  }

  lemma ReceiveStale(s: Server, w: nat, fd: nat, bytes: seq<byte>)
    requires fd < 0x8000_0000 && Live(s, fd) && s.conns[fd].buffer == [] && bytes != []
    requires w < |s.reactors| && w != Home(s, fd) && fd < |s.reactors[w].loop.events|
    requires MaskOf(s.reactors[w], fd) == WRITABLE && MaskOf(s.reactors[Home(s, fd)], fd) == READABLE
    requires forall q :: 0 <= q < |s.reactors| && q != Home(s, fd) ==> fd !in s.reactors[q].interest
    ensures Receive(s, w, Data(fd, bytes)).Some? && Stalled(Receive(s, w, Data(fd, bytes)).value, fd)
    ensures Receive(s, w, Data(fd, bytes)).value.conns[fd].buffer == bytes
  {
    var p := s.reactors[w];
    Bits();
    One(p.interest, Mod(fd, WRITABLE));
    assert WRITABLE | WRITABLE == WRITABLE;
    assert Register(p, fd, WRITABLE, ON_CLIENT_WRITABLE) == p;
  }

  lemma ServeThree(s: Server, a: ServerStep, b: ServerStep, c: ServerStep)
    requires Ready(s, a) && Serve(s, a).Some?
    requires Ready(Serve(s, a).value, b) && Serve(Serve(s, a).value, b).Some?
    requires Ready(Serve(Serve(s, a).value, b).value, c)
    ensures Follows(s, [a, b, c]) && ServeAll(s, [a, b, c]) == Serve(Serve(Serve(s, a).value, b).value, c)
  {
    hide Serve, Ready;
    var t := Serve(s, a).value;
    var u := Serve(t, b).value;
    assert [a, b, c][1..] == [b, c] && [b, c][1..] == [c] && [c][1..] == [];
    assert Follows(u, [c]) && ServeAll(u, [c]) == Serve(u, c);
    assert Follows(t, [b, c]) && ServeAll(t, [b, c]) == Serve(u, c);
  }

  /** A stalled client stays so for ever, whatever is still read for it, until it hangs up: not a byte is sent to it. */
  lemma {:induction false} StalledForGood(s: Server, fd: nat, steps: seq<ServerStep>)
    requires Stalled(s, fd) && Follows(s, steps) && Hangs(fd) !in steps
    ensures ServeAll(s, steps).Some? ==>
              Stalled(ServeAll(s, steps).value, fd) && ServeAll(s, steps).value.sent[fd] == s.sent[fd]
    decreases |steps|
  {
    hide Stalled, Serve, Ready;
    if steps != [] && Serve(s, steps[0]).Some? {
      var t := Serve(s, steps[0]).value;
      assert Stalled(s, fd) && fd < |s.conns| by { StalledLive(s, fd); }
      if fd == Subject(steps[0]) {
        StalledSubject(s, steps[0], fd);
      } else {
        ServeElsewhere(s, steps[0], fd);
        StalledAlike(s, t, fd);
      }
      StalledForGood(t, fd, steps[1..]);
    }
  }

  lemma StalledLive(s: Server, fd: nat)
    requires Stalled(s, fd)
    ensures fd < |s.conns|
  {
  }

  lemma StalledAlike(s: Server, t: Server, fd: nat)
    requires Stalled(s, fd) && Alike(s, t, fd)
    ensures Stalled(t, fd)
  {
    assert forall q :: 0 <= q < |s.reactors| ==> Wants(t, q, fd, WRITABLE) == Wants(s, q, fd, WRITABLE);
  }

  lemma StalledSubject(s: Server, step: ServerStep, fd: nat)
    requires Stalled(s, fd) && fd < |s.conns| && Ready(s, step) && Serve(s, step).Some?
    requires Subject(step) == fd && step != Hangs(fd)
    ensures Stalled(Serve(s, step).value, fd) && Serve(s, step).value.sent[fd] == s.sent[fd]
  {
    hide MaskOf, Register, Deregister, Free;
    assert Serve(s, step).value.reactors == s.reactors;
    assert forall q :: 0 <= q < |s.reactors| ==>
      Wants(Serve(s, step).value, q, fd, WRITABLE) == Wants(s, q, fd, WRITABLE);
  }

  /** Two reactors, and descriptor 4 accepted twice: the second client is never sent its byte. */
  lemma StallingRun()
    ensures var s := Started(2, 5);
            var steps := [Accepts(4), Receives(1, Data(4, [65])), Hangs(4), Accepts(4), Receives(1, Data(4, [66]))];
            && Served(s) && Follows(s, steps) && ServeAll(s, steps).Some?
            && Stalled(ServeAll(s, steps).value, 4) && ServeAll(s, steps).value.conns[4].buffer == [66]
  {
    hide Served, Stalled, Strays, Astray, Ready, Serve, ServeAll, Follows;
    var s, fd, b := Started(2, 5), 4, Data(4, [65]);
    StartedServed(2, 5);
    var t := StartedAccept(2, 5, fd);
    FirstAstray(t, fd, 1, [65]);
    var u := Receive(t, 1, b).value;
    ReceiveOk(t, 1, b);
    StrayHang(u, fd);
    var w := StrayStalls(u, Hangs(fd), [66]);
    ServeOne(s, Accepts(fd));
    ServeOne(t, Receives(1, b));
    ServeReceives(t, 1, b);
    ServeAppend(s, [Accepts(fd)], [Receives(1, b)]);
    var more := [Hangs(fd), Accepts(fd), Receives(w, Data(fd, [66]))];
    ServeAppend(s, [Accepts(fd)] + [Receives(1, b)], more);
    assert [Accepts(fd)] + [Receives(1, b)] + more ==
           [Accepts(fd), Receives(1, b), Hangs(fd), Accepts(fd), Receives(1, Data(fd, [66]))];
  }

  lemma StrayHang(s: Server, fd: nat)
    requires Ready(s, Hangs(fd))
    ensures Strays(s, Hangs(fd)) <==> Astray(s, fd)
  {
  }

  lemma StartedAccept(n: nat, maxConnect: nat, fd: nat) returns (t: Server)
    requires n > 0 && 0 < fd < maxConnect
    ensures var s := Started(n, maxConnect);
            && Ready(s, Accepts(fd)) && Serve(s, Accepts(fd)) == Some(t) && Served(t)
            && Live(t, fd) && t.conns[fd].buffer == [] && |t.reactors| == n
  {
    hide Served, Register;
    var s := Started(n, maxConnect);
    StartedServed(n, maxConnect);
    AcceptOk(s, fd);
    t := Accept(s, fd);
  }

  /** A live connection's own reactor reads from it. */
  lemma HangReady(s: Server, fd: nat)
    requires Served(s) && Live(s, fd)
    ensures Ready(s, Hangs(fd))
  {
    hide Mirrored, MaskOf;
    Bits();
    assert ConnectionOk(s, fd);
    WatchedInKernel(s, Home(s, fd), fd);
  }

  /** When the first bytes for a connection are read by another reactor than its own, a hang-up strays. */
  lemma FirstAstray(s: Server, fd: nat, q: nat, bytes: seq<byte>)
    requires Served(s) && Live(s, fd) && s.conns[fd].buffer == [] && bytes != [] && fd < 0x8000_0000
    requires q < |s.reactors| && q != Home(s, fd)
    ensures Ready(s, Receives(q, Data(fd, bytes))) && Receive(s, q, Data(fd, bytes)).Some?
    ensures var t := Receive(s, q, Data(fd, bytes)).value; Astray(t, fd) && Ready(t, Hangs(fd))
  {
    hide Mirrored, MaskOf, Register;
    Bits();
    assert ConnectionOk(s, fd);
    WatchedInKernel(s, Home(s, fd), fd);
  }

  lemma ServeReceives(s: Server, q: nat, e: Event)
    requires Ready(s, Receives(q, e))
    ensures Serve(s, Receives(q, e)) == Receive(s, q, e)
  {
  }

  lemma ServeOne(s: Server, step: ServerStep)
    requires Ready(s, step)
    ensures Follows(s, [step]) && ServeAll(s, [step]) == Serve(s, step)
  {
    if Serve(s, step).Some? {
      assert [step][1..] == [];
    }
  }

  lemma {:induction false} ServeAppend(s: Server, a: seq<ServerStep>, b: seq<ServerStep>)
    requires Follows(s, a)
    requires ServeAll(s, a).Some? ==> Follows(ServeAll(s, a).value, b)
    ensures Follows(s, a + b)
    ensures ServeAll(s, a + b) == match ServeAll(s, a) case None => None case Some(t) => ServeAll(t, b)
    decreases |a|
  {
    hide Serve, Ready;
    if a == [] {
      assert a + b == b;
    } else {
      assert (a + b)[1..] == a[1..] + b;
      if Serve(s, a[0]).Some? {
        ServeAppend(Serve(s, a[0]).value, a[1..], b);
      }
    }
  }

  /** What the reactors and connlist are at the start. */
  function Started(n: nat, maxConnect: nat): Server
    requires n > 0
  {
    Host(seq(n, _ => Poll(Loop(seq(maxConnect, _ => UNUSED), -1), map[])),
         seq(maxConnect, _ => Connection([], 0, false, false)), 0, seq(maxConnect, _ => []))
  }

  lemma StartedServed(n: nat, maxConnect: nat)
    requires n > 0
    ensures Served(Started(n, maxConnect))
  {
    var s := Started(n, maxConnect);
    assert Lives(s.conns) == {};
    forall fd | 0 <= fd < maxConnect
      ensures ConnectionOk(s, fd)
    {
      assert WatchedBy(s, fd, 0);
    }
    assert Registered(Loop(seq(maxConnect, _ => UNUSED), -1)) == map[];
  }

  // ---------------------------------------------------------------- handlers

  /** A client's events have the handlers of clients. */
  predicate Handled(p: Reactor) {
    forall fd :: 0 <= fd < |p.loop.events| ==>
      && (MaskOf(p, fd) & READABLE != NONE ==> p.loop.events[fd].rfileProc == ON_CLIENT_READABLE)
      && (MaskOf(p, fd) & WRITABLE != NONE ==> p.loop.events[fd].wfileProc == ON_CLIENT_WRITABLE)
  }

  predicate AllHandled(s: Server) {
    forall q :: 0 <= q < |s.reactors| ==> Handled(s.reactors[q])
  }

  lemma RegisterHandled(p: Reactor, fd: nat, reading: bool)
    requires Handled(p)
    ensures Handled(if reading then Register(p, fd, READABLE, ON_CLIENT_READABLE)
                    else Register(p, fd, WRITABLE, ON_CLIENT_WRITABLE))
  {
    var mask := if reading then READABLE else WRITABLE;
    var proc := if reading then ON_CLIENT_READABLE else ON_CLIENT_WRITABLE;
    var r := Register(p, fd, mask, proc);
    hide Controls;
    Bits();
    forall x | 0 <= x < |r.loop.events|
      ensures r != p && x == fd ==> MaskOf(r, x) == mask | MaskOf(p, x)
      ensures r == p || x != fd ==> r.loop.events[x] == p.loop.events[x]
    {
    }
    OtherBit(MaskOf(p, fd));
  }

  lemma OtherBit(m: Mask)
    ensures (READABLE | m) & WRITABLE == m & WRITABLE && (WRITABLE | m) & READABLE == m & READABLE
  {
  }

  lemma DeregisterHandled(p: Reactor, fd: nat, mask: Mask)
    requires Handled(p)
    ensures Handled(Deregister(p, fd, mask))
  {
    var r := Deregister(p, fd, mask);
    hide Controls, Greatest;
    LessBits(MaskOf(p, fd), mask);
  }

  lemma LessBits(m: Mask, mask: Mask)
    ensures (m & !mask) & READABLE != NONE ==> m & READABLE != NONE
    ensures (m & !mask) & WRITABLE != NONE ==> m & WRITABLE != NONE
  {
  }

  lemma FreeHandled(s: Server, fd: nat)
    requires AllHandled(s) && fd < |s.conns|
    ensures AllHandled(Free(s, fd))
  {
    hide Handled, Deregister;
    var p := s.reactors[Home(s, fd)];
    DeregisterHandled(p, fd, READABLE);
    DeregisterHandled(Deregister(p, fd, READABLE), fd, WRITABLE);
    forall q | 0 <= q < |s.reactors|
      ensures Handled(Free(s, fd).reactors[q])
    {
      ForgetHandled(if q == Home(s, fd) then Deregister(Deregister(p, fd, READABLE), fd, WRITABLE) else s.reactors[q],
                    fd);
    }
  }

  lemma ForgetHandled(p: Reactor, fd: nat)
    requires Handled(p)
    ensures Handled(Forget(p, fd))
  {
    assert Forget(p, fd).loop == p.loop;
  }

  /** Every step, whatever the kernel answers, leaves each registered event of a client with the handler of its kind. */
  lemma HandlersStay(s: Server, step: ServerStep)
    requires AllHandled(s) && Ready(s, step) && Serve(s, step).Some?
    ensures AllHandled(Serve(s, step).value)
  {
    hide Handled, Register, Deregister, Free;
    match step
    case Receives(q, e) =>
      match e {
        case Data(fd, _) => RegisterHandled(s.reactors[q], fd, false);
        case Closed(fd) => FreeHandled(s, fd);
        case _ =>
      }
    case Flushes(q, fd, n) =>
      DeregisterHandled(s.reactors[q], fd, WRITABLE);
      FreeHandled(s, fd);
      if n > 0 {
        FreeHandled(Unwatch(Drain(s, fd, n), q, fd), fd);
      }
    case Accepts(fd) => RegisterHandled(s.reactors[Home(s, fd)], fd, true);
    case Hangs(fd) => FreeHandled(s, fd);
    case Recognizes(_, _) =>
  }

  /** So in any run from its start each event that a reactor wants is served by the handler of its kind. */
  lemma {:induction false} HandlersRight(s: Server, steps: seq<ServerStep>, q: nat, fd: nat)
    requires AllHandled(s) && Follows(s, steps) && ServeAll(s, steps).Some?
    ensures var t := ServeAll(s, steps).value;
            && (Wants(t, q, fd, READABLE) ==> t.reactors[q].loop.events[fd].rfileProc == ON_CLIENT_READABLE)
            && (Wants(t, q, fd, WRITABLE) ==> t.reactors[q].loop.events[fd].wfileProc == ON_CLIENT_WRITABLE)
    ensures forall n, maxConnect :: n > 0 ==> AllHandled(Started(n, maxConnect))
    decreases |steps|
  {
    hide Serve, Ready;
    if steps != [] {
      HandlersStay(s, steps[0]);
      HandlersRight(Serve(s, steps[0]).value, steps[1..], q, fd);
    }
  }
}
