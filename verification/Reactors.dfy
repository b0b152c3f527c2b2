/**
 aeserver.c: the handlers of the master over the event loops of its reactors.
 */
module Reactors {
  import opened Common
  import opened Pipe
  import opened FileEvents
  import opened Master

  class AeServer {
    const reactors: seq<EventLoop>
    const connlist: array<Connection>
    var connectNum: int
    var pipe: seq<byte>                  // what has come from a worker
    var interest: seq<map<nat, Mask>>    // what the kernel watches for each reactor
    ghost var sent: seq<seq<byte>>       // what each client has been sent since its accept

    ghost function Tables(): set<object>
      reads reactors
    {
      set l | l in reactors :: l.events
    }

    /** The loops and their tables are different objects. */
    ghost predicate Apart()
      reads reactors
    {
      var c: object := connlist;
      && (forall q :: 0 <= q < |reactors| ==> reactors[q].events as object != c)
      && (forall q, r :: 0 <= q < r < |reactors| ==>
            reactors[q] != reactors[r] && reactors[q].events != reactors[r].events)
    }

    ghost predicate Valid()
      reads `interest, `sent, reactors, Tables()
    {
      && Apart() && |interest| == |reactors| > 0 && |sent| == connlist.Length
      && forall q :: 0 <= q < |reactors| ==> -1 <= reactors[q].maxfd < reactors[q].events.Length
    }

    ghost function At(q: nat): Reactor
      requires Valid() && q < |reactors|
      reads `interest, `sent, reactors, Tables()
    {
      Poll(reactors[q].Abstract(), interest[q])
    }

    ghost function Polls(): (ps: seq<Reactor>)
      requires Valid()
      reads `interest, `sent, reactors, Tables()
      ensures |ps| == |reactors| && forall q :: 0 <= q < |ps| ==> ps[q] == At(q)
    {
      PollsTo(|reactors|)
    }

    ghost function PollsTo(n: nat): (ps: seq<Reactor>)
      requires Valid() && n <= |reactors|
      reads `interest, `sent, reactors, Tables()
      ensures |ps| == n && forall q :: 0 <= q < n ==> ps[q] == At(q)
    {
      if n == 0 then [] else PollsTo(n - 1) + [At(n - 1)]
    }

    ghost function Abstract(): Server
      requires Valid()
      reads `interest, `sent, `connectNum, reactors, Tables(), connlist
    {
      Host(Polls(), connlist[..], connectNum, sent)
    }

    /** aeCreateFileEvent in a reactor; the kernel answers by what it watches. */
    method Watch(q: nat, fd: nat, mask: Mask, proc: Proc)
      requires Valid() && q < |reactors|
      modifies this`interest, reactors[q], reactors[q].events
      ensures Valid() && reactors[q].events == old(reactors[q].events) && connlist[..] == old(connlist[..])
      ensures Polls() == old(Polls())[q := Register(old(Polls())[q], fd, mask, proc)]
    {
      hide PollsTo, CreateEvent, Register;
      var l := reactors[q];
      var known := fd < l.events.Length;
      var merged := if known then mask | l.events[fd].mask else mask;
      var accepted := known && (l.events[fd].mask == NONE <==> fd !in interest[q]);
      RegisterIs(At(q), fd, mask, proc);
      Accepted(l.Abstract(), fd, mask, proc);
      var ok := l.CreateFileEvent(fd, mask, proc, 0, accepted);
      if ok {
        var watched: map<nat, Mask> := interest[q];
        watched := watched[fd := merged];
        interest := interest[q := watched];
      }
    }

    /** aeDeleteFileEvent in a reactor. */
    method Unwatch(q: nat, fd: nat, mask: Mask)
      requires Valid() && q < |reactors|
      modifies this`interest, reactors[q], reactors[q].events
      ensures Valid() && reactors[q].events == old(reactors[q].events) && connlist[..] == old(connlist[..])
      ensures Polls() == old(Polls())[q := Deregister(old(Polls())[q], fd, mask)]
    {
      hide PollsTo, DeleteEvent, Deregister;
      var l := reactors[q];
      DeregisterIs(At(q), fd, mask);
      if fd < l.events.Length && l.events[fd].mask != NONE && fd in interest[q] {
        var rest := l.events[fd].mask & !mask;
        var watched: map<nat, Mask> := interest[q];
        watched := if rest != NONE then watched[fd := rest] else watched - {fd};
        interest := interest[q := watched];
      }
      l.DeleteFileEvent(fd, mask);
    }

    method UnwatchBoth(q: nat, fd: nat)
      requires Valid() && q < |reactors|
      modifies this`interest, reactors[q], reactors[q].events
      ensures Valid() && reactors[q].events == old(reactors[q].events) && connlist[..] == old(connlist[..])
      ensures Polls() == old(Polls())[q := Deregister(Deregister(old(Polls())[q], fd, READABLE), fd, WRITABLE)]
    {
      hide Deregister;
      Unwatch(q, fd, READABLE);
      Unwatch(q, fd, WRITABLE);
    }

    /** close: every kernel set drops the descriptor. */
    method Close(fd: nat)
      requires Valid()
      modifies this`interest
      ensures Valid() && Polls() == ForgetAll(old(Polls()), fd)
    {
      interest := seq(|interest|, q requires 0 <= q < |interest| reads this => interest[q] - {fd});
    }

    /** A connection, the number in use, and what the client has been sent. */
    method Put(fd: nat, c: Connection, number: int, ghost bytes: seq<byte>)
      requires Valid() && fd < connlist.Length
      modifies connlist, `connectNum, `sent
      ensures Valid() && Polls() == old(Polls()) && connlist[..] == old(connlist[..])[fd := c]
      ensures connectNum == number && sent == old(sent)[fd := bytes]
      ensures bytes == old(sent)[fd] ==> sent == old(sent)
    {
      hide PollsTo;
      connlist[fd] := c;
      connectNum := number;
      sent := sent[fd := bytes];
      assert forall q :: 0 <= q < |reactors| ==> At(q) == old(At(q));
    }

    /** freeClient. */
    method FreeClient(fd: nat)
      requires Valid() && fd < connlist.Length
      modifies this, reactors, Tables(), connlist
      ensures Valid() && Kept() && pipe == old(pipe) && Abstract() == Free(old(Abstract()), fd)
    {
      hide Register, Deregister, ForgetAll, Valid, Apart, Polls, PollsTo, At;
      ghost var s := Abstract();
      Put(fd, connlist[fd].(disable := 1), connectNum, sent[fd]);
      UnwatchBoth(fd % |reactors|, fd);
      Put(fd, connlist[fd].(buffer := [], live := false), connectNum - 1, sent[fd]);
      Close(fd);
      assert connlist[..] == s.conns[fd := s.conns[fd].(buffer := [], disable := 1, live := false)];
    }

    /** The tables are the ones of before. */
    twostate predicate Kept()
      reads reactors
    {
      forall l :: l in reactors ==> l.events == old(l.events)
    }

    /** read() of up to n bytes that are in the pipe. */
    method Read(n: nat) returns (bytes: seq<byte>)
      modifies this`pipe
      ensures bytes == old(pipe)[..if n <= |old(pipe)| then n else |old(pipe)|]
      ensures pipe == old(pipe)[|bytes|..]
    {
      var k := if n <= |pipe| then n else |pipe|;
      bytes := pipe[..k];
      pipe := pipe[k..];
    }

    /** onMasterPipeReadable in reactor q, for a frame that the master can take. */
    method OnMasterPipeReadable(q: nat) returns (event: Event)
      requires Valid() && q < |reactors| && Receive(Abstract(), q, ReadFrame(pipe).0).Some?
      modifies this, reactors, Tables(), connlist
      ensures Valid() && Kept() && (event, pipe) == ReadFrame(old(pipe))
      ensures Receive(old(Abstract()), q, event) == Some(Abstract())
    {
      hide Free, Register;
      var header := Read(HEADER_LENGTH);
      if |header| != HEADER_LENGTH {
        return Short;
      }
      var kind, len, connfd := header[0], Int4(header[1..5]), Int4(header[5..9]);
      assert header[1..5] == old(pipe)[1..5] && header[5..9] == old(pipe)[5..9];
      if kind == MESSAGE {
        event := ReadBody(q, len, connfd);
      } else if kind == CLOSE {
        event := Closed(connfd);
        if |connlist[connfd].buffer| == 0 {
          FreeClient(connfd);
        } else {
          Put(connfd, connlist[connfd].(disable := 2), connectNum, sent[connfd]);
        }
      } else {
        event := Unknown;
      }
    }

    /** readBodyFromPipe. */
    method ReadBody(q: nat, len: int32, connfd: int32) returns (event: Event)
      requires Valid() && q < |reactors|
      requires len > 0 && pipe != [] ==> len <= DATA_LENGTH && Live(Abstract(), connfd)
      modifies this, reactors, Tables(), connlist
      ensures Valid() && Kept()
      ensures len <= 0 || old(pipe) == [] ==> event == Nothing && pipe == old(pipe)
      ensures len > 0 && old(pipe) != [] ==>
                var n := if len <= |old(pipe)| then len else |old(pipe)|;
                event == Data(connfd, old(pipe)[..n]) && pipe == old(pipe)[n..]
      ensures Receive(old(Abstract()), q, event) == Some(Abstract())
    {
      hide Register, PollsTo, At;
      if len <= 0 {
        return Nothing;
      }
      var bytes := Read(len);
      if |bytes| == 0 {
        return Nothing;
      }
      ghost var was, ps := connlist[..], Polls();
      assert ps[q := At(q)] == ps;
      if |connlist[connfd].buffer| == 0 {
        Watch(q, connfd, WRITABLE, ON_CLIENT_WRITABLE);
      }
      assert Polls() == ps[q := if was[connfd].buffer == [] then Register(ps[q], connfd, WRITABLE, ON_CLIENT_WRITABLE)
                                else ps[q]];
      Put(connfd, connlist[connfd].(buffer := connlist[connfd].buffer + bytes), connectNum, sent[connfd]);
      event := Data(connfd, bytes);
    }

    /** onClientWritable in reactor q, when write takes n bytes. */
    method OnClientWritable(q: nat, fd: nat, n: int)
      requires Valid() && q < |reactors| && fd < connlist.Length && n <= |connlist[fd].buffer|
      modifies this, reactors, Tables(), connlist
      ensures Valid() && Kept() && pipe == old(pipe) && Abstract() == Flush(old(Abstract()), q, fd, n)
    {
      hide Free, Deregister, PollsTo, At;
      if connlist[fd].disable == 1 {
        return;
      }
      if |connlist[fd].buffer| <= 0 {
        Unwatch(q, fd, WRITABLE);
        return;
      }
      if n <= 0 {
        FreeClient(fd);
        return;
      }
      var c := connlist[fd];
      Put(fd, c.(buffer := c.buffer[n..]), connectNum, sent[fd] + c.buffer[..n]);
      if |connlist[fd].buffer| == 0 {
        Unwatch(q, fd, WRITABLE);
        if connlist[fd].disable == 2 || connlist[fd].http {
          FreeClient(fd);
        }
      }
    }

    /** acceptCommonHandler, for a descriptor within connlist. */
    method AcceptCommonHandler(fd: nat)
      requires Valid() && fd < connlist.Length
      requires forall p :: p in Polls() ==> fd !in p.interest
      modifies this, reactors, Tables(), connlist
      ensures Valid() && Kept() && pipe == old(pipe) && Abstract() == Accept(old(Abstract()), fd)
    {
      hide Register, Forget, PollsTo, At;
      if connectNum >= connlist.Length {
        Close(fd);
        CloseUnwatched(old(Polls()), fd);
        return;
      }
      if fd <= 0 {
        Close(fd);
        CloseUnwatched(old(Polls()), fd);
        return;
      }
      Put(fd, Connection([], 0, true, false), connectNum, []);
      Watch(fd % |reactors|, fd, READABLE, ON_CLIENT_READABLE);
      Put(fd, connlist[fd], connectNum + 1, []);
    }

    /** A loop for each reactor and a connlist of zeros. */
    constructor (reactorNum: nat, maxConnect: nat)
      requires reactorNum > 0
      ensures Valid() && Served(Abstract()) && |reactors| == reactorNum && connlist.Length == maxConnect && pipe == []
      ensures fresh(reactors) && fresh(Tables()) && fresh(connlist)
    {
      hide PollsTo, Served, Idle;
      var loops := CreateLoops(reactorNum, maxConnect);
      var c := new Connection[maxConnect](_ => Connection([], 0, false, false));
      reactors, connlist, connectNum, pipe := loops, c, 0, [];
      interest, sent := seq(reactorNum, _ => map[]), seq(maxConnect, _ => []);
      new;
      IdleServed(Abstract(), maxConnect);
    }

    static method CreateLoops(n: nat, setsize: nat) returns (loops: seq<EventLoop>)
      ensures |loops| == n && fresh(loops)
      ensures forall q :: 0 <= q < n ==> fresh(loops[q].events) && Idle(loops[q].Abstract(), setsize)
      ensures forall q :: 0 <= q < n ==> -1 <= loops[q].maxfd < loops[q].events.Length
      ensures forall q, r :: 0 <= q < r < n ==> loops[q] != loops[r] && loops[q].events != loops[r].events
    {
      hide Registered;
      loops := [];
      while |loops| < n
        invariant |loops| <= n && fresh(loops)
        invariant forall l :: l in loops ==> fresh(l.events) && Idle(l.Abstract(), setsize)
        invariant forall l :: l in loops ==> -1 <= l.maxfd < l.events.Length
        invariant forall q, r :: 0 <= q < r < |loops| ==>
                    loops[q] != loops[r] && loops[q].events != loops[r].events
      {
        var l := new EventLoop(setsize);
        loops := loops + [l];
      }
    }
  }

  /** Nothing is registered. */
  ghost predicate Idle(l: Loop, setsize: nat) {
    MaxOk(l) && Registered(l) == map[] && |l.events| == setsize
  }

  lemma IdleServed(s: Server, setsize: nat)
    requires forall q :: 0 <= q < |s.reactors| ==>
               Idle(s.reactors[q].loop, setsize) && s.reactors[q].interest == map[]
    requires |s.conns| == setsize && forall fd :: 0 <= fd < setsize ==> s.conns[fd] == Connection([], 0, false, false)
    requires s.connectNum == 0
    ensures Served(s)
  {
    assert Lives(s.conns) == {};
    forall fd: nat | fd < |s.conns|
      ensures ConnectionOk(s, fd)
    {
      forall q | 0 <= q < |s.reactors|
        ensures MaskOf(s.reactors[q], fd) == NONE
      {
        assert fd !in Registered(s.reactors[q].loop);
      }
      assert WatchedBy(s, fd, 0);
    }
  }

  lemma CloseUnwatched(ps: seq<Reactor>, fd: nat)
    requires forall p :: p in ps ==> fd !in p.interest
    ensures ForgetAll(ps, fd) == ps
  {
    forall q | 0 <= q < |ps|
      ensures Forget(ps[q], fd) == ps[q]
    {
      assert ps[q] in ps;
      assert ps[q].interest - {fd} == ps[q].interest;
    }
  }

  lemma Accepted(l: Loop, fd: nat, mask: Mask, proc: Proc)
    ensures CreateEvent(l, fd, mask, proc, 0, false) == Effect(l, [], false)
    ensures CreateEvent(l, fd, mask, proc, 0, true).ok <==> fd < |l.events|
  {
  }

  lemma RegisterIs(p: Reactor, fd: nat, mask: Mask, proc: Proc)
    ensures Register(p, fd, mask, proc) ==
            if fd < |p.loop.events| && (p.loop.events[fd].mask == NONE <==> fd !in p.interest)
            then Poll(CreateEvent(p.loop, fd, mask, proc, 0, true).loop,
                      p.interest[fd := mask | p.loop.events[fd].mask])
            else p
  {
    var e := CreateEvent(p.loop, fd, mask, proc, 0, true);
    if e.issued != [] {
      One(p.interest, e.issued[0]);
    }
  }

  lemma DeregisterIs(p: Reactor, fd: nat, mask: Mask)
    ensures Deregister(p, fd, mask) ==
            Poll(DeleteEvent(p.loop, fd, mask).loop,
                 if fd < |p.loop.events| && p.loop.events[fd].mask != NONE && fd in p.interest
                 then var rest := p.loop.events[fd].mask & !mask;
                      if rest != NONE then p.interest[fd := rest] else p.interest - {fd}
                 else p.interest)
  {
    var e := DeleteEvent(p.loop, fd, mask);
    if e.issued != [] {
      One(p.interest, e.issued[0]);
    }
  }
}
