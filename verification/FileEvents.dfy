/**
 ae.c and ae_epoll.c: the registration of file events. The table events[] and
 the interest set of the kernel change together, call by call.
 */
module FileEvents {
  import opened Common

  /** AE_READABLE is bit 0, AE_WRITABLE bit 1; EPOLLIN and EPOLLOUT follow them. */
  type Mask = bv2

  const NONE: Mask := 0
  const READABLE: Mask := 1
  const WRITABLE: Mask := 2

  /** A callback, known by a number. */
  type Proc = nat

  /** What a callback is given, a pointer. */
  type ClientData = nat

  /** aeFileEvent: two callbacks but one clientData. What belongs to an event that is not in the mask is stale. */
  datatype FileEvent = FileEvent(mask: Mask, rfileProc: Proc, wfileProc: Proc, clientData: ClientData)

  const UNUSED: FileEvent := FileEvent(NONE, 0, 0, 0)

  // ------------------------------------------------------------------ kernel

  datatype Ctl = Add(fd: nat, events: Mask) | Mod(fd: nat, events: Mask) | Del(fd: nat)

  /** epoll_ctl: None for EEXIST and ENOENT. */
  function Control(interest: map<nat, Mask>, c: Ctl): Option<map<nat, Mask>> {
    match c
    case Add(fd, events) => if fd in interest then None else Some(interest[fd := events])
    case Mod(fd, events) => if fd in interest then Some(interest[fd := events]) else None
    case Del(fd) => if fd in interest then Some(interest - {fd}) else None
  }

  function Controls(interest: map<nat, Mask>, cs: seq<Ctl>): Option<map<nat, Mask>>
    decreases |cs|
  {
    if cs == [] then Some(interest)
    else match Control(interest, cs[0])
         case None => None
         case Some(next) => Controls(next, cs[1..])
  }

  lemma {:induction false} ControlsAppend(interest: map<nat, Mask>, a: seq<Ctl>, b: seq<Ctl>)
    requires Controls(interest, a).Some?
    ensures Controls(interest, a + b) == Controls(Controls(interest, a).value, b)
    decreases |a|
  {
    if a == [] {
      assert a + b == b;
    } else {
      assert (a + b)[1..] == a[1..] + b;
      ControlsAppend(Control(interest, a[0]).value, a[1..], b);
    }
  }

  // -------------------------------------------------------------- event loop

  /** events[] and maxfd. */
  datatype Loop = Loop(events: seq<FileEvent>, maxfd: int)

  /** The registered descriptors and their masks. */
  function Registered(l: Loop): map<nat, Mask> {
    map fd: nat | fd < |l.events| && l.events[fd].mask != NONE :: l.events[fd].mask
  }

  /** maxfd is the greatest registered descriptor, or -1. */
  predicate MaxOk(l: Loop) {
    && -1 <= l.maxfd < |l.events|
    && (l.maxfd >= 0 ==> l.events[l.maxfd].mask != NONE)
    && forall fd :: l.maxfd < fd < |l.events| ==> l.events[fd].mask == NONE
  }

  /** The greatest place below n with a mask, or -1. */
  function Greatest(events: seq<FileEvent>, n: nat): (r: int)
    requires n <= |events|
    ensures -1 <= r < n
    ensures r >= 0 ==> events[r].mask != NONE
    ensures forall fd :: r < fd < n ==> events[fd].mask == NONE
  {
    if n == 0 then -1 else if events[n - 1].mask != NONE then n - 1 else Greatest(events, n - 1)
  }

  datatype Op =
    // accepted: epoll_ctl does not fail for a reason of its own
    | Create(fd: nat, mask: Mask, proc: Proc, clientData: ClientData, accepted: bool)
    | Delete(fd: nat, mask: Mask)
    | Resize(setsize: nat)

  datatype Effect = Effect(loop: Loop, issued: seq<Ctl>, ok: bool)

  /** The entry after aeCreateFileEvent: merged masks, the callback for each event asked for, the new data. */
  function Merged(e: FileEvent, mask: Mask, proc: Proc, clientData: ClientData): FileEvent {
    FileEvent(mask | e.mask,
              if mask & READABLE != NONE then proc else e.rfileProc,
              if mask & WRITABLE != NONE then proc else e.wfileProc,
              clientData)
  }

  /** aeCreateFileEvent. */
  function CreateEvent(l: Loop, fd: nat, mask: Mask, proc: Proc, clientData: ClientData, accepted: bool): Effect {
    if fd >= |l.events| then Effect(l, [], false)
    else if !accepted then Effect(l, [], false)
    else
      var e := Merged(l.events[fd], mask, proc, clientData);
      Effect(Loop(l.events[fd := e], if fd > l.maxfd then fd else l.maxfd),
             [if l.events[fd].mask == NONE then Add(fd, e.mask) else Mod(fd, e.mask)], true)
  }

  /** aeDeleteFileEvent. */
  function DeleteEvent(l: Loop, fd: nat, mask: Mask): Effect
    requires -1 <= l.maxfd < |l.events|
  {
    if fd >= |l.events| || l.events[fd].mask == NONE then Effect(l, [], true)
    else
      var rest := l.events[fd].mask & !mask;
      var events := l.events[fd := l.events[fd].(mask := rest)];
      Effect(Loop(events, if fd == l.maxfd && rest == NONE then Greatest(events, fd) else l.maxfd),
             [if rest != NONE then Mod(fd, rest) else Del(fd)], true)
  }

  /** aeResizeSetSize. */
  function ResizeSet(l: Loop, setsize: nat): Effect
    requires -1 <= l.maxfd < |l.events|
  {
    if setsize == |l.events| then Effect(l, [], true)
    else if l.maxfd >= setsize then Effect(l, [], false)
    else Effect(l.(events := seq(setsize, fd requires 0 <= fd < setsize => Slot(l, fd))), [], true)
  }

  /** An entry after a resize: those above maxfd are wiped or new. */
  function Slot(l: Loop, fd: nat): FileEvent {
    if fd >= |l.events| then UNUSED
    else if fd <= l.maxfd then l.events[fd]
    else l.events[fd].(mask := NONE)
  }

  function Apply(l: Loop, op: Op): (e: Effect)
    requires -1 <= l.maxfd < |l.events|
    ensures -1 <= e.loop.maxfd < |e.loop.events|
    ensures !op.Resize? ==> |e.loop.events| == |l.events|
  {
    match op
    case Create(fd, mask, proc, clientData, accepted) => CreateEvent(l, fd, mask, proc, clientData, accepted)
    case Delete(fd, mask) => DeleteEvent(l, fd, mask)
    case Resize(setsize) => ResizeSet(l, setsize)
  }

  /** The call registers nothing where nothing is registered. */
  predicate Empty(l: Loop, op: Op) {
    op.Create? && op.accepted && op.fd < |l.events| && op.mask == NONE && l.events[op.fd].mask == NONE
  }

  /**
   A call keeps the kernel's set equal to the registered masks, and maxfd the
   greatest of them, exactly when it does not register an empty mask anew; what
   it issues the kernel never refuses.
   */
  lemma MirrorIff(l: Loop, op: Op)
    requires MaxOk(l)
    ensures var e := Apply(l, op);
            && Controls(Registered(l), e.issued).Some?
            && (!Empty(l, op) <==> Controls(Registered(l), e.issued) == Some(Registered(e.loop)))
            && (!Empty(l, op) ==> MaxOk(e.loop))
  {
    match op {
      case Create(fd, mask, proc, clientData, accepted) =>
        CreateMirror(l, fd, mask, proc, clientData, accepted);
      case Delete(fd, mask) =>
        DeleteMirror(l, fd, mask);
      case Resize(setsize) =>
        ResizeMirror(l, setsize);
    }
  }

  lemma One(interest: map<nat, Mask>, c: Ctl)
    ensures Controls(interest, [c]) == Control(interest, c)
    ensures Controls(interest, []) == Some(interest)
  {
    if Control(interest, c).Some? {
      assert Controls(Control(interest, c).value, [c][1..]) == Control(interest, c);
    }
  }

  lemma CreateMirror(l: Loop, fd: nat, mask: Mask, proc: Proc, clientData: ClientData, accepted: bool)
    requires MaxOk(l)
    ensures var e := CreateEvent(l, fd, mask, proc, clientData, accepted);
            var op := Create(fd, mask, proc, clientData, accepted);
            && Controls(Registered(l), e.issued).Some?
            && (!Empty(l, op) <==> Controls(Registered(l), e.issued) == Some(Registered(e.loop)))
            && (!Empty(l, op) ==> MaxOk(e.loop))
  {
    var e := CreateEvent(l, fd, mask, proc, clientData, accepted);
    if fd < |l.events| && accepted {
      One(Registered(l), e.issued[0]);
      var merged := mask | l.events[fd].mask;
      OrNone(mask, l.events[fd].mask);
      var k := Control(Registered(l), e.issued[0]).value;
      assert k == Registered(l)[fd := merged];
      if merged == NONE {
        assert fd in k && fd !in Registered(e.loop);
      } else {
        assert k == Registered(e.loop);
      }
    } else {
      One(Registered(l), Del(0));
    }
  }

  lemma OrNone(a: Mask, b: Mask)
    ensures a | b == NONE <==> a == NONE && b == NONE
  {
  }

  lemma DeleteMirror(l: Loop, fd: nat, mask: Mask)
    requires MaxOk(l)
    ensures var e := DeleteEvent(l, fd, mask);
            Controls(Registered(l), e.issued) == Some(Registered(e.loop)) && MaxOk(e.loop)
  {
    var e := DeleteEvent(l, fd, mask);
    if fd < |l.events| && l.events[fd].mask != NONE {
      One(Registered(l), e.issued[0]);
      var rest := l.events[fd].mask & !mask;
      if rest == NONE {
        assert Registered(l) - {fd} == Registered(e.loop);
      } else {
        assert Registered(l)[fd := rest] == Registered(e.loop);
      }
    } else {
      One(Registered(l), Del(0));
    }
  }

  lemma ResizeMirror(l: Loop, setsize: nat)
    requires MaxOk(l)
    ensures var e := ResizeSet(l, setsize);
            Controls(Registered(l), e.issued) == Some(Registered(e.loop)) && MaxOk(e.loop)
  {
    One(Registered(l), Del(0));
    assert Registered(ResizeSet(l, setsize).loop) == Registered(l);
  }

  /** A resize is refused exactly when a registered descriptor would not fit; else every entry in use is kept whole. */
  lemma ResizeExact(l: Loop, setsize: nat)
    requires MaxOk(l)
    ensures var e := ResizeSet(l, setsize);
            && e.issued == [] && e.loop.maxfd == l.maxfd
            && (e.ok <==> forall fd :: setsize <= fd < |l.events| ==> l.events[fd].mask == NONE)
            && |e.loop.events| == (if e.ok then setsize else |l.events|)
            && forall fd :: 0 <= fd < |l.events| && l.events[fd].mask != NONE && fd < |e.loop.events| ==>
                 e.loop.events[fd] == l.events[fd]
  {
  }

  /** What the empty mask does: the kernel watches a descriptor that the table says is free, and maxfd is wrong. */
  lemma EmptyMaskBreaks()
    ensures var l := Loop([UNUSED], -1);
            var e := CreateEvent(l, 0, NONE, 1, 0, true);
            && MaxOk(l) && Controls(Registered(l), e.issued) == Some(map[0 := NONE])
            && Registered(e.loop) == map[] && !MaxOk(e.loop)
  {
    var l := Loop([UNUSED], -1);
    One(Registered(l), Add(0, NONE));
    assert Registered(l) == map[];
    assert CreateEvent(l, 0, NONE, 1, 0, true).issued == [Add(0, NONE)];
  }

  // -------------------------------------------------------------------- runs

  /** A run of calls; None once a call registers an empty mask. */
  function Run(l: Loop, ops: seq<Op>): Option<Effect>
    requires MaxOk(l)
    decreases |ops|
  {
    if ops == [] then Some(Effect(l, [], true))
    else if Empty(l, ops[0]) then None
    else
      MirrorIff(l, ops[0]);
      var e := Apply(l, ops[0]);
      match Run(e.loop, ops[1..])
      case None => None
      case Some(r) => Some(Effect(r.loop, e.issued + r.issued, r.ok))
  }

  /** Over any run of calls the kernel refuses nothing and its set stays the registered masks. */
  lemma {:induction false} RunMirrors(l: Loop, ops: seq<Op>)
    requires MaxOk(l) && Run(l, ops).Some?
    ensures var e := Run(l, ops).value;
            MaxOk(e.loop) && Controls(Registered(l), e.issued) == Some(Registered(e.loop))
    decreases |ops|
  {
    hide Registered, Apply, Empty;
    if ops != [] {
      MirrorIff(l, ops[0]);
      var e := Apply(l, ops[0]);
      RunMirrors(e.loop, ops[1..]);
      ControlsAppend(Registered(l), e.issued, Run(e.loop, ops[1..]).value.issued);
    }
  }

  /** Calls with masks that are not empty never end a run. */
  lemma {:induction false} RunGoesOn(l: Loop, ops: seq<Op>)
    requires MaxOk(l) && forall op :: op in ops && op.Create? ==> op.mask != NONE
    ensures Run(l, ops).Some?
    decreases |ops|
  {
    if ops != [] {
      assert ops[0] in ops;
      MirrorIff(l, ops[0]);
      RunGoesOn(Apply(l, ops[0]).loop, ops[1..]);
    }
  }

  // ------------------------------------------------------------------- class

  class EventLoop {
    var maxfd: int
    var events: array<FileEvent>
    ghost var issued: seq<Ctl>       // what epoll_ctl was called with

    ghost function Abstract(): Loop
      reads this, events
    {
      Loop(events[..], maxfd)
    }

    /** aeCreateEventLoop. */
    constructor (setsize: nat)
      ensures fresh(events) && events.Length == setsize && issued == []
      ensures MaxOk(Abstract()) && Registered(Abstract()) == map[]
    {
      var a := new FileEvent[setsize];
      var i := 0;
      while i < setsize
        invariant i <= setsize && forall k :: 0 <= k < i ==> a[k].mask == NONE
      {
        a[i] := a[i].(mask := NONE);
        i := i + 1;
      }
      events := a;
      maxfd := -1;
      issued := [];
      new;
      assert forall fd: nat :: fd < setsize ==> events[fd].mask == NONE;
    }

    /** aeApiAddEvent. */
    method ApiAddEvent(fd: nat, mask: Mask, accepted: bool) returns (ok: bool)
      requires fd < events.Length
      modifies this`issued
      ensures ok == accepted
      ensures var merged := mask | events[fd].mask;
              issued == old(issued) + if !accepted then []
                                      else [if events[fd].mask == NONE then Add(fd, merged) else Mod(fd, merged)]
    {
      var adds := events[fd].mask == NONE;
      var merged := mask | events[fd].mask;
      if !accepted {
        return false;
      }
      issued := issued + [if adds then Add(fd, merged) else Mod(fd, merged)];
      return true;
    }

    /** aeApiDelEvent. */
    method ApiDelEvent(fd: nat, delmask: Mask)
      requires fd < events.Length
      modifies this`issued
      ensures var rest := events[fd].mask & !delmask;
              issued == old(issued) + [if rest != NONE then Mod(fd, rest) else Del(fd)]
    {
      var mask := events[fd].mask & !delmask;
      if mask != NONE {
        issued := issued + [Mod(fd, mask)];
      } else {
        issued := issued + [Del(fd)];
      }
    }

    /** aeCreateFileEvent. */
    method CreateFileEvent(fd: nat, mask: Mask, proc: Proc, clientData: ClientData, accepted: bool)
      returns (ok: bool)
      modifies this, events
      ensures var e := CreateEvent(old(Abstract()), fd, mask, proc, clientData, accepted);
              events == old(events) && Abstract() == e.loop && issued == old(issued) + e.issued && ok == e.ok
    {
      if fd >= events.Length {
        return false;
      }
      ghost var was := events[..];
      ok := ApiAddEvent(fd, mask, accepted);
      if !ok {
        return false;
      }
      var fe := events[fd].(mask := mask | events[fd].mask);
      if mask & READABLE != NONE {
        fe := fe.(rfileProc := proc);
      }
      if mask & WRITABLE != NONE {
        fe := fe.(wfileProc := proc);
      }
      fe := fe.(clientData := clientData);
      events[fd] := fe;
      assert events[..] == was[fd := Merged(was[fd], mask, proc, clientData)];
      if fd > maxfd {
        maxfd := fd;
      }
      return true;
    }

    /** aeDeleteFileEvent. */
    method DeleteFileEvent(fd: nat, mask: Mask)
      requires -1 <= maxfd < events.Length
      modifies this, events
      ensures var e := DeleteEvent(old(Abstract()), fd, mask);
              events == old(events) && Abstract() == e.loop && issued == old(issued) + e.issued
    {
      if fd >= events.Length {
        return;
      }
      if events[fd].mask == NONE {
        return;
      }
      ghost var was := events[..];
      ApiDelEvent(fd, mask);
      events[fd] := events[fd].(mask := events[fd].mask & !mask);
      assert events[..] == was[fd := was[fd].(mask := was[fd].mask & !mask)];
      if fd == maxfd && events[fd].mask == NONE {
        var j := maxfd - 1;
        while j >= 0 && events[j].mask == NONE
          invariant -1 <= j < fd
          invariant Greatest(events[..], fd) == Greatest(events[..], j + 1)
        {
          j := j - 1;
        }
        maxfd := j;
      }
    }

    /** aeResizeSetSize. */
    method ResizeSetSize(setsize: nat) returns (ok: bool)
      requires -1 <= maxfd < events.Length
      modifies this
      ensures var e := ResizeSet(old(Abstract()), setsize);
              Abstract() == e.loop && issued == old(issued) + e.issued && ok == e.ok
      ensures events == old(events) || fresh(events)
    {
      if setsize == events.Length {
        return true;
      }
      if maxfd >= setsize {
        return false;
      }
      var a := new FileEvent[setsize];
      forall i | 0 <= i < setsize {
        a[i] := if i < events.Length then events[i] else UNUSED;
      }
      var i := maxfd + 1;
      while i < setsize
        invariant maxfd + 1 <= i <= setsize && a.Length == setsize
        invariant forall k :: 0 <= k <= maxfd ==> a[k] == events[k]
        invariant forall k :: maxfd < k < i ==> a[k] == Slot(old(Abstract()), k)
        invariant forall k :: i <= k < setsize ==> a[k] == if k < events.Length then events[k] else UNUSED
        modifies a
      {
        a[i] := a[i].(mask := NONE);
        i := i + 1;
      }
      events := a;
      assert events[..] == ResizeSet(old(Abstract()), setsize).loop.events;
      return true;
    }
  }
}
