/**
 ae.c: the part of aeProcessEvents that calls the handlers of the descriptors
 epoll_wait reported. A handler may register and deregister descriptors that
 are still to come in the same batch.
 */
module Dispatch {
  import opened FileEvents

  /** An entry of fired[]. */
  datatype Fired = Fired(fd: nat, mask: Mask)

  /** A call of a handler, for one of the two events, with what it is given. */
  datatype Call = Call(fd: nat, proc: Proc, event: Mask, clientData: ClientData)

  /** What the n-th handler of the batch does to the loop. */
  type Script = (nat, Call) -> seq<Op>

  /** Handlers do not resize the loop, which would move the entry that is being served. */
  ghost predicate Steady(script: Script) {
    forall n: nat, c: Call, op :: op in script(n, c) ==> !op.Resize?
  }

  predicate Sound(l: Loop, fired: seq<Fired>) {
    -1 <= l.maxfd < |l.events| && forall f :: f in fired ==> f.fd < |l.events|
  }

  function Perform(l: Loop, ops: seq<Op>): (r: Loop)
    requires -1 <= l.maxfd < |l.events|
    ensures -1 <= r.maxfd < |r.events|
    ensures (forall op :: op in ops ==> !op.Resize?) ==> |r.events| == |l.events|
    decreases |ops|
  {
    if ops == [] then l else Perform(Apply(l, ops[0]).loop, ops[1..])
  }

  ghost function Handle(l: Loop, c: Call, calls: seq<Call>, script: Script): (r: (Loop, seq<Call>))
    requires Sound(l, []) && Steady(script)
    ensures -1 <= r.0.maxfd < |r.0.events| && |r.0.events| == |l.events|
  {
    (Perform(l, script(|calls|, c)), calls + [c])
  }

  function ReadCall(l: Loop, fd: nat): Call
    requires fd < |l.events|
  {
    Call(fd, l.events[fd].rfileProc, READABLE, l.events[fd].clientData)
  }

  function WriteCall(l: Loop, fd: nat): Call
    requires fd < |l.events|
  {
    Call(fd, l.events[fd].wfileProc, WRITABLE, l.events[fd].clientData)
  }

  /** The read handler of an entry, if its event is registered when its turn comes. */
  ghost function ServeRead(l: Loop, f: Fired, calls: seq<Call>, script: Script): (r: (Loop, seq<Call>))
    requires Sound(l, [f]) && Steady(script)
    ensures -1 <= r.0.maxfd < |r.0.events| && |r.0.events| == |l.events|
  {
    assert f in [f];
    var e := l.events[f.fd];
    if e.mask & f.mask & READABLE != NONE then Handle(l, ReadCall(l, f.fd), calls, script) else (l, calls)
  }

  /** The write handler, by what the read handler has left; not the same handler twice. */
  ghost function ServeWrite(l: Loop, f: Fired, rfired: bool, calls: seq<Call>, script: Script): (r: (Loop, seq<Call>))
    requires Sound(l, [f]) && Steady(script)
    ensures -1 <= r.0.maxfd < |r.0.events| && |r.0.events| == |l.events|
  {
    assert f in [f];
    var e := l.events[f.fd];
    if e.mask & f.mask & WRITABLE != NONE && (!rfired || e.wfileProc != e.rfileProc)
    then Handle(l, WriteCall(l, f.fd), calls, script) else (l, calls)
  }

  ghost function Serve(l: Loop, f: Fired, calls: seq<Call>, script: Script): (r: (Loop, seq<Call>))
    requires Sound(l, [f]) && Steady(script)
    ensures -1 <= r.0.maxfd < |r.0.events| && |r.0.events| == |l.events|
  {
    assert f in [f];
    var (m, cs) := ServeRead(l, f, calls, script);
    ServeWrite(m, f, l.events[f.fd].mask & f.mask & READABLE != NONE, cs, script)
  }

  /** The batch: the loop it leaves, and the calls made, after those of before. */
  ghost function Batch(l: Loop, fired: seq<Fired>, calls: seq<Call>, script: Script): (Loop, seq<Call>)
    requires Sound(l, fired) && Steady(script)
    decreases |fired|
  {
    if fired == [] then (l, calls)
    else
      var (m, cs) := Serve(l, fired[0], calls, script);
      Batch(m, fired[1..], cs, script)
  }

  // ------------------------------------------------------------- properties

  /** The calls for one descriptor. */
  function For(calls: seq<Call>, fd: nat): seq<Call> {
    if calls == [] then []
    else For(calls[..|calls| - 1], fd) + if calls[|calls| - 1].fd == fd then [calls[|calls| - 1]] else []
  }

  lemma ForMore(calls: seq<Call>, c: Call, fd: nat)
    ensures For(calls + [c], fd) == For(calls, fd) + if c.fd == fd then [c] else []
  {
    assert (calls + [c])[..|calls|] == calls;
  }

  /** What a descriptor with this entry is to get for the events that fired. */
  function Due(fd: nat, e: FileEvent, fired: Mask): seq<Call> {
    var r := e.mask & fired & READABLE != NONE;
    (if r then [Call(fd, e.rfileProc, READABLE, e.clientData)] else [])
    + if e.mask & fired & WRITABLE != NONE && (!r || e.wfileProc != e.rfileProc)
      then [Call(fd, e.wfileProc, WRITABLE, e.clientData)] else []
  }

  /** The operation registers or deregisters events of fd. */
  predicate Touches(op: Op, fd: nat) {
    !op.Resize? && op.fd == fd
  }

  ghost predicate NeverTouches(script: Script, fd: nat) {
    forall n: nat, c: Call, op :: op in script(n, c) ==> !Touches(op, fd)
  }

  ghost predicate NeverRegisters(script: Script, fd: nat) {
    forall n: nat, c: Call, op :: op in script(n, c) ==> !(op.Create? && op.fd == fd)
  }

  lemma {:induction false} PerformUntouched(l: Loop, ops: seq<Op>, fd: nat)
    requires -1 <= l.maxfd < |l.events| && fd < |l.events|
    requires forall op :: op in ops ==> !op.Resize? && !Touches(op, fd)
    ensures Perform(l, ops).events[fd] == l.events[fd]
    decreases |ops|
  {
    if ops != [] {
      assert ops[0] in ops;
      PerformUntouched(Apply(l, ops[0]).loop, ops[1..], fd);
    }
  }

  lemma {:induction false} PerformSilent(l: Loop, ops: seq<Op>, fd: nat)
    requires -1 <= l.maxfd < |l.events| && fd < |l.events| && l.events[fd].mask == NONE
    requires forall op :: op in ops ==> !op.Resize? && !(op.Create? && op.fd == fd)
    ensures Perform(l, ops).events[fd].mask == NONE
    decreases |ops|
  {
    if ops != [] {
      assert ops[0] in ops;
      PerformSilent(Apply(l, ops[0]).loop, ops[1..], fd);
    }
  }

  lemma HandleUntouched(l: Loop, c: Call, calls: seq<Call>, script: Script, fd: nat)
    requires Sound(l, []) && Steady(script) && NeverTouches(script, fd) && fd < |l.events|
    ensures Handle(l, c, calls, script).0.events[fd] == l.events[fd]
    ensures For(Handle(l, c, calls, script).1, fd) == For(calls, fd) + if c.fd == fd then [c] else []
  {
    hide Perform, For;
    PerformUntouched(l, script(|calls|, c), fd);
    ForMore(calls, c, fd);
  }

  lemma ServeUntouched(l: Loop, f: Fired, calls: seq<Call>, script: Script, fd: nat)
    requires Sound(l, [f]) && Steady(script) && NeverTouches(script, fd) && fd < |l.events|
    ensures Serve(l, f, calls, script).0.events[fd] == l.events[fd]
    ensures For(Serve(l, f, calls, script).1, fd) ==
            For(calls, fd) + if f.fd == fd then Due(fd, l.events[fd], f.mask) else []
  {
    hide Handle, For, Steady, NeverTouches;
    assert f in [f];
    var e := l.events[f.fd];
    HandleUntouched(l, Call(f.fd, e.rfileProc, READABLE, e.clientData), calls, script, fd);
    var (m, cs) := ServeRead(l, f, calls, script);
    var e1 := m.events[f.fd];
    HandleUntouched(m, Call(f.fd, e1.wfileProc, WRITABLE, e1.clientData), cs, script, fd);
  }

  /**
   A descriptor that fired and that no handler of the batch touches gets its
   handlers called exactly once each, reading before writing, and one call if
   both are the same handler.
   */
  lemma {:induction false} UntouchedServed(l: Loop, fired: seq<Fired>, calls: seq<Call>, script: Script, i: nat)
    requires Sound(l, fired) && Steady(script) && i < |fired| && NeverTouches(script, fired[i].fd)
    requires forall j :: 0 <= j < |fired| && j != i ==> fired[j].fd != fired[i].fd
    ensures For(Batch(l, fired, calls, script).1, fired[i].fd) ==
            For(calls, fired[i].fd) + Due(fired[i].fd, l.events[fired[i].fd], fired[i].mask)
    decreases |fired|
  {
    hide Serve, For, Steady, NeverTouches, Due;
    var fd := fired[i].fd;
    ServeUntouched(l, fired[0], calls, script, fd);
    var (m, cs) := Serve(l, fired[0], calls, script);
    if i == 0 {
      UnfiredUncalled(m, fired[1..], cs, script, fd);
    } else {
      UntouchedServed(m, fired[1..], cs, script, i - 1);
    }
  }

  /** A descriptor that did not fire gets no call. */
  lemma {:induction false} UnfiredUncalled(l: Loop, fired: seq<Fired>, calls: seq<Call>, script: Script, fd: nat)
    requires Sound(l, fired) && Steady(script) && forall f :: f in fired ==> f.fd != fd
    ensures For(Batch(l, fired, calls, script).1, fd) == For(calls, fd)
    decreases |fired|
  {
    hide Perform, For, Steady;
    if fired != [] {
      var f := fired[0];
      var e := l.events[f.fd];
      ForMore(calls, Call(f.fd, e.rfileProc, READABLE, e.clientData), fd);
      var (m, cs) := ServeRead(l, f, calls, script);
      ForMore(cs, WriteCall(m, f.fd), fd);
      var (m1, cs1) := Serve(l, f, calls, script);
      UnfiredUncalled(m1, fired[1..], cs1, script, fd);
    }
  }

  lemma SilentStep(l: Loop, c: Call, calls: seq<Call>, script: Script, fd: nat)
    requires Sound(l, []) && Steady(script) && NeverRegisters(script, fd)
    requires fd < |l.events| && l.events[fd].mask == NONE
    ensures Handle(l, c, calls, script).0.events[fd].mask == NONE
    ensures c.fd != fd ==> For(Handle(l, c, calls, script).1, fd) == For(calls, fd)
  {
    hide Perform, For;
    PerformSilent(l, script(|calls|, c), fd);
    ForMore(calls, c, fd);
  }

  /**
   Once a descriptor is deregistered, and unless some handler registers it
   again, no handler is called for it in the rest of the batch, although its
   events are among those that fired.
   */
  lemma {:induction false} SilencedStays(l: Loop, fired: seq<Fired>, calls: seq<Call>, script: Script, fd: nat)
    requires Sound(l, fired) && Steady(script) && NeverRegisters(script, fd)
    requires fd < |l.events| && l.events[fd].mask == NONE
    ensures For(Batch(l, fired, calls, script).1, fd) == For(calls, fd)
    decreases |fired|
  {
    hide Handle, For, Steady, NeverRegisters;
    if fired != [] {
      var f := fired[0];
      ServeSilent(l, f, calls, script, fd);
      var (m, cs) := Serve(l, f, calls, script);
      SilencedStays(m, fired[1..], cs, script, fd);
    }
  }

  lemma ServeSilent(l: Loop, f: Fired, calls: seq<Call>, script: Script, fd: nat)
    requires Sound(l, [f]) && Steady(script) && NeverRegisters(script, fd)
    requires fd < |l.events| && l.events[fd].mask == NONE
    ensures Serve(l, f, calls, script).0.events[fd].mask == NONE
    ensures For(Serve(l, f, calls, script).1, fd) == For(calls, fd)
  {
    hide Handle, For, Steady, NeverRegisters;
    assert f in [f];
    NoEvent(f.mask);
    SilentStep(l, ReadCall(l, f.fd), calls, script, fd);
    var (m, cs) := ServeRead(l, f, calls, script);
    SilentStep(m, WriteCall(m, f.fd), cs, script, fd);
  }

  lemma NoEvent(m: Mask)
    ensures NONE & m & READABLE == NONE && NONE & m & WRITABLE == NONE
  {
  }

  /** A read handler that deregisters its own descriptor is the last one called for it. */
  lemma ClosedByReader(l: Loop, fired: seq<Fired>, calls: seq<Call>, script: Script)
    requires Sound(l, fired) && Steady(script) && fired != [] && NeverRegisters(script, fired[0].fd)
    requires l.events[fired[0].fd].mask & fired[0].mask & READABLE != NONE
    requires ServeRead(l, fired[0], calls, script).0.events[fired[0].fd].mask == NONE
    ensures For(Batch(l, fired, calls, script).1, fired[0].fd) ==
            For(calls, fired[0].fd) + [ReadCall(l, fired[0].fd)]
  {
    hide For, Perform, Steady, NeverRegisters;
    var f := fired[0];
    NoEvent(f.mask);
    ForMore(calls, ReadCall(l, f.fd), f.fd);
    var (m, cs) := Serve(l, f, calls, script);
    SilencedStays(m, fired[1..], cs, script, f.fd);
  }

  // ------------------------------------------------- what handlers are given

  /** The data of the last registration of fd in ops, for whichever event; d if there is none. */
  function LastData(ops: seq<Op>, fd: nat, d: ClientData): ClientData
    decreases |ops|
  {
    if ops == [] then d
    else
      var op := ops[0];
      LastData(ops[1..], fd, if op.Create? && op.fd == fd && op.accepted then op.clientData else d)
  }

  /** The handler of the last registration of fd in ops whose mask has the event; p if there is none. */
  function LastProc(ops: seq<Op>, fd: nat, event: Mask, p: Proc): Proc
    decreases |ops|
  {
    if ops == [] then p
    else
      var op := ops[0];
      LastProc(ops[1..], fd, event,
               if op.Create? && op.fd == fd && op.accepted && op.mask & event != NONE then op.proc else p)
  }

  /** The event is left registered: the last operation of fd that names it registers it; b if none does. */
  function LastMask(ops: seq<Op>, fd: nat, event: Mask, b: bool): bool
    decreases |ops|
  {
    if ops == [] then b
    else
      var op := ops[0];
      LastMask(ops[1..], fd, event,
               if op.Create? && op.fd == fd && op.accepted && op.mask & event != NONE then true
               else if op.Delete? && op.fd == fd && op.mask & event != NONE then false
               else b)
  }

  predicate Event(event: Mask) {
    event == READABLE || event == WRITABLE
  }

  /** No later operation gives fd another handler for the event. */
  predicate Keeps(ops: seq<Op>, fd: nat, event: Mask) {
    forall op :: op in ops && op.Create? && op.fd == fd ==> op.mask & event == NONE
  }

  lemma {:induction false} KeepsLast(ops: seq<Op>, fd: nat, event: Mask, p: Proc)
    requires Keeps(ops, fd, event)
    ensures LastProc(ops, fd, event, p) == p
    decreases |ops|
  {
    if ops != [] {
      assert ops[0] in ops;
      KeepsLast(ops[1..], fd, event, p);
    }
  }

  /**
   The entry of a descriptor after any operations: each handler is that of the
   last registration for its event, the data those of the last registration of
   all, and an event is registered as the last operation that names it says.
   */
  lemma {:induction false} EntryAfter(l: Loop, ops: seq<Op>, fd: nat)
    requires -1 <= l.maxfd < |l.events| && fd < |l.events| && forall op :: op in ops ==> !op.Resize?
    ensures var e, r := l.events[fd], Perform(l, ops).events[fd];
            && r.clientData == LastData(ops, fd, e.clientData)
            && r.rfileProc == LastProc(ops, fd, READABLE, e.rfileProc)
            && r.wfileProc == LastProc(ops, fd, WRITABLE, e.wfileProc)
            && (r.mask & READABLE != NONE <==> LastMask(ops, fd, READABLE, e.mask & READABLE != NONE))
            && (r.mask & WRITABLE != NONE <==> LastMask(ops, fd, WRITABLE, e.mask & WRITABLE != NONE))
    decreases |ops|
  {
    if ops != [] {
      assert ops[0] in ops;
      var m := Apply(l, ops[0]).loop;
      EntryAfterOne(l, ops[0], fd);
      hide Apply, LastData, LastProc, LastMask;
      EntryAfter(m, ops[1..], fd);
      LastHead(ops, fd);
    }
  }

  lemma LastHead(ops: seq<Op>, fd: nat)
    requires ops != []
    ensures forall d :: LastData(ops, fd, d) == LastData(ops[1..], fd, LastData([ops[0]], fd, d))
    ensures forall event, p :: LastProc(ops, fd, event, p) ==
              LastProc(ops[1..], fd, event, LastProc([ops[0]], fd, event, p))
    ensures forall event, b :: LastMask(ops, fd, event, b) ==
              LastMask(ops[1..], fd, event, LastMask([ops[0]], fd, event, b))
  {
    assert [ops[0]][1..] == [];
  }

  lemma EntryAfterOne(l: Loop, op: Op, fd: nat)
    requires -1 <= l.maxfd < |l.events| && fd < |l.events| && !op.Resize?
    ensures var e, r := l.events[fd], Apply(l, op).loop.events[fd];
            && r.clientData == LastData([op], fd, e.clientData)
            && r.rfileProc == LastProc([op], fd, READABLE, e.rfileProc)
            && r.wfileProc == LastProc([op], fd, WRITABLE, e.wfileProc)
            && (r.mask & READABLE != NONE <==> LastMask([op], fd, READABLE, e.mask & READABLE != NONE))
            && (r.mask & WRITABLE != NONE <==> LastMask([op], fd, WRITABLE, e.mask & WRITABLE != NONE))
  {
    hide LastData, LastProc, LastMask, Greatest;
    var e := l.events[fd];
    LastOne(op, fd, e.clientData, READABLE, e.rfileProc, e.mask & READABLE != NONE);
    LastOne(op, fd, e.clientData, WRITABLE, e.wfileProc, e.mask & WRITABLE != NONE);
    if op.fd == fd {
      EventBits(e.mask, op.mask, READABLE);
      EventBits(e.mask, op.mask, WRITABLE);
    }
  }

  lemma LastOne(op: Op, fd: nat, d: ClientData, event: Mask, p: Proc, b: bool)
    ensures LastData([op], fd, d) == if op.Create? && op.fd == fd && op.accepted then op.clientData else d
    ensures LastProc([op], fd, event, p) ==
            if op.Create? && op.fd == fd && op.accepted && op.mask & event != NONE then op.proc else p
    ensures LastMask([op], fd, event, b) ==
            if op.Create? && op.fd == fd && op.accepted && op.mask & event != NONE then true
            else if op.Delete? && op.fd == fd && op.mask & event != NONE then false
            else b
  {
    assert [op][1..] == [];
  }

  lemma EventBits(m: Mask, n: Mask, event: Mask)
    requires Event(event)
    ensures (n | m) & event != NONE <==> n & event != NONE || m & event != NONE
    ensures (m & !n) & event != NONE <==> m & event != NONE && n & event == NONE
    ensures NONE & event == NONE
  {
  }

  /**
   A read handler registered with some data is called with that data if and
   only if the last registration of the descriptor since, for whichever event,
   has the same data.
   */
  lemma HandlerDataIff(l: Loop, fd: nat, proc: Proc, clientData: ClientData, ops: seq<Op>)
    requires -1 <= l.maxfd < |l.events| && fd < |l.events|
    requires Keeps(ops, fd, READABLE) && forall op :: op in ops ==> !op.Resize?
    ensures var m := Perform(CreateEvent(l, fd, READABLE, proc, clientData, true).loop, ops);
            ReadCall(m, fd) == Call(fd, proc, READABLE, clientData) <==> LastData(ops, fd, clientData) == clientData
  {
    hide LastData, LastProc, LastMask, Perform, Keeps;
    EntryAfter(CreateEvent(l, fd, READABLE, proc, clientData, true).loop, ops, fd);
    KeepsLast(ops, fd, READABLE, proc);
  }

  /** The same of a write handler. */
  lemma WriterDataIff(l: Loop, fd: nat, proc: Proc, clientData: ClientData, ops: seq<Op>)
    requires -1 <= l.maxfd < |l.events| && fd < |l.events|
    requires Keeps(ops, fd, WRITABLE) && forall op :: op in ops ==> !op.Resize?
    ensures var m := Perform(CreateEvent(l, fd, WRITABLE, proc, clientData, true).loop, ops);
            WriteCall(m, fd) == Call(fd, proc, WRITABLE, clientData) <==> LastData(ops, fd, clientData) == clientData
  {
    hide LastData, LastProc, LastMask, Perform, Keeps;
    EntryAfter(CreateEvent(l, fd, WRITABLE, proc, clientData, true).loop, ops, fd);
    KeepsLast(ops, fd, WRITABLE, proc);
  }

  /**
   From registrations to calls: when a descriptor fires and no handler of the
   batch touches it, what was last registered for each event that is left, and
   fired, is called once with the last data, reading first; one call if both
   are the same handler.
   */
  lemma RegisteredServed(l: Loop, ops: seq<Op>, fired: seq<Fired>, calls: seq<Call>, script: Script, i: nat)
    requires -1 <= l.maxfd < |l.events| && forall op :: op in ops ==> !op.Resize?
    requires Sound(l, fired) && Steady(script) && i < |fired| && NeverTouches(script, fired[i].fd)
    requires forall j :: 0 <= j < |fired| && j != i ==> fired[j].fd != fired[i].fd
    ensures Sound(Perform(l, ops), fired)
    ensures var fd, f := fired[i].fd, fired[i].mask;
            var e := l.events[fd];
            var readDue := f & READABLE != NONE && LastMask(ops, fd, READABLE, e.mask & READABLE != NONE);
            var writeDue := f & WRITABLE != NONE && LastMask(ops, fd, WRITABLE, e.mask & WRITABLE != NONE);
            var reader, writer := LastProc(ops, fd, READABLE, e.rfileProc), LastProc(ops, fd, WRITABLE, e.wfileProc);
            var data := LastData(ops, fd, e.clientData);
            For(Batch(Perform(l, ops), fired, calls, script).1, fd) ==
            For(calls, fd) + (if readDue then [Call(fd, reader, READABLE, data)] else [])
                           + (if writeDue && !(readDue && writer == reader)
                              then [Call(fd, writer, WRITABLE, data)] else [])
  {
    hide Perform, LastData, LastProc, LastMask, Batch, For, NeverTouches, Steady;
    assert fired[i] in fired;
    var m := Perform(l, ops);
    EntryAfter(l, ops, fired[i].fd);
    UntouchedServed(m, fired, calls, script, i);
    FiredBits(m.events[fired[i].fd].mask, fired[i].mask);
    var c := For(calls, fired[i].fd);
    var e := m.events[fired[i].fd];
    var r := if e.mask & fired[i].mask & READABLE != NONE then [ReadCall(m, fired[i].fd)] else [];
    var w := if e.mask & fired[i].mask & WRITABLE != NONE && (r == [] || e.wfileProc != e.rfileProc)
             then [WriteCall(m, fired[i].fd)] else [];
    assert c + (r + w) == c + r + w;
  }

  lemma FiredBits(m: Mask, f: Mask)
    ensures m & f & READABLE != NONE <==> m & READABLE != NONE && f & READABLE != NONE
    ensures m & f & WRITABLE != NONE <==> m & WRITABLE != NONE && f & WRITABLE != NONE
  {
  }

  /** A handler registered for writing on a new loop is the one that is called. */
  lemma WriterCalled()
    ensures var l := CreateEvent(Loop([UNUSED], -1), 0, WRITABLE, 2, 20, true).loop;
            WriteCall(l, 0) == Call(0, 2, WRITABLE, 20) && l.events[0].rfileProc == UNUSED.rfileProc
  {
  }

  /** A write handler registered with other data changes what the read handler is given. */
  lemma ReaderGetsWritersData()
    ensures var l := Loop([UNUSED], -1);
            var r := CreateEvent(l, 0, READABLE, 1, 10, true).loop;
            ReadCall(CreateEvent(r, 0, WRITABLE, 2, 20, true).loop, 0) == Call(0, 1, READABLE, 20)
  {
  }

  // ------------------------------------------------------------------ method

  /** What a handler does, call by call. */
  method RunHandler(el: EventLoop, ops: seq<Op>)
    requires -1 <= el.maxfd < el.events.Length && forall op :: op in ops ==> !op.Resize?
    modifies el, el.events
    ensures el.events == old(el.events) && el.Abstract() == Perform(old(el.Abstract()), ops)
  {
    var i := 0;
    assert ops[0..] == ops;
    while i < |ops|
      invariant 0 <= i <= |ops| && el.events == old(el.events) && -1 <= el.maxfd < el.events.Length
      invariant Perform(el.Abstract(), ops[i..]) == Perform(old(el.Abstract()), ops)
    {
      assert ops[i..][1..] == ops[i + 1..] && ops[i] in ops;
      match ops[i] {
        case Create(fd, mask, proc, clientData, accepted) =>
          var _ := el.CreateFileEvent(fd, mask, proc, clientData, accepted);
        case Delete(fd, mask) =>
          el.DeleteFileEvent(fd, mask);
      }
      i := i + 1;
    }
  }

  /** The loop over fired[] in aeProcessEvents. */
  method ProcessFired(el: EventLoop, fired: seq<Fired>, script: Script) returns (processed: nat, calls: seq<Call>)
    requires Sound(el.Abstract(), fired) && Steady(script)
    modifies el, el.events
    ensures processed == |fired|
    ensures (el.Abstract(), calls) == Batch(old(el.Abstract()), fired, [], script)
  {
    hide Perform, Apply;
    processed := 0;
    calls := [];
    var j := 0;
    assert fired[0..] == fired;
    while j < |fired|
      invariant 0 <= j <= |fired| && processed == j && el.events == old(el.events)
      invariant Sound(el.Abstract(), fired[j..])
      invariant Batch(el.Abstract(), fired[j..], calls, script) == Batch(old(el.Abstract()), fired, [], script)
    {
      ghost var l := el.Abstract();
      assert fired[j..][0] == fired[j] && fired[j..][1..] == fired[j + 1..] && fired[j] in fired[j..];
      var fd, mask, rfired := fired[j].fd, fired[j].mask, false;
      if el.events[fd].mask & mask & READABLE != NONE {
        rfired := true;
        var c := Call(fd, el.events[fd].rfileProc, READABLE, el.events[fd].clientData);
        RunHandler(el, script(|calls|, c));
        calls := calls + [c];
      }
      if el.events[fd].mask & mask & WRITABLE != NONE {
        if !rfired || el.events[fd].wfileProc != el.events[fd].rfileProc {
          var c := Call(fd, el.events[fd].wfileProc, WRITABLE, el.events[fd].clientData);
          RunHandler(el, script(|calls|, c));
          calls := calls + [c];
        }
      }
      processed := processed + 1;
      j := j + 1;
    }
  }
}
