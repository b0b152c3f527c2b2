/**
 ae.c: the timers of the event loop. A callback may create and delete timers
 while processTimeEvents walks the list; the walk then starts again.
 */
module Timers {
  import opened Common

  const NOMORE: int := -1

  datatype Time = Time(sec: int, ms: int)

  datatype Timer = Timer(id: nat, when: Time)

  /** Timers, the newest first. */
  datatype Loop = Loop(timers: seq<Timer>, nextId: nat, lastTime: int)

  // ------------------------------------------------------------------ clock

  /** `/` and `%` of C by 1000, which truncate. */
  function Quotient(a: int): int {
    if a >= 0 then a / 1000 else -(-a / 1000)
  }

  function Remainder(a: int): int {
    a - 1000 * Quotient(a)
  }

  /** aeAddMillisecondsToNow. */
  function After(now: Time, milliseconds: int): Time {
    var sec, ms := now.sec + Quotient(milliseconds), now.ms + Remainder(milliseconds);
    if ms >= 1000 then Time(sec + 1, ms - 1000) else Time(sec, ms)
  }

  predicate Reached(when: Time, now: Time) {
    now.sec > when.sec || (now.sec == when.sec && now.ms >= when.ms)
  }

  predicate Clock(now: Time) {
    0 <= now.ms < 1000
  }

  function Millis(t: Time): int {
    t.sec * 1000 + t.ms
  }

  lemma AfterIsLater(now: Time, delay: int)
    requires Clock(now)
    ensures Millis(After(now, delay)) == Millis(now) + delay
    ensures -1000 < After(now, delay).ms < 1000 && (delay >= 0 ==> Clock(After(now, delay)))
    ensures delay < 0 ==> After(now, delay) == Time(now.sec - -delay / 1000, now.ms - -delay % 1000)
    ensures delay > 0 ==> !Reached(After(now, delay), now)
  {
  }

  // ------------------------------------------------------------ list of timers

  function Get(ts: seq<Timer>, id: nat): (r: Option<Timer>)
    ensures r.Some? ==> r.value.id == id && r.value in ts
  {
    if ts == [] then None else if ts[0].id == id then Some(ts[0]) else Get(ts[1..], id)
  }

  function Remove(ts: seq<Timer>, id: nat): seq<Timer> {
    if ts == [] then [] else if ts[0].id == id then ts[1..] else [ts[0]] + Remove(ts[1..], id)
  }

  function Move(ts: seq<Timer>, id: nat, when: Time): seq<Timer> {
    if ts == [] then [] else if ts[0].id == id then [Timer(id, when)] + ts[1..] else [ts[0]] + Move(ts[1..], id, when)
  }

  /** Ids are given out once. */
  predicate Valid(l: Loop) {
    && (forall t :: t in l.timers ==> t.id < l.nextId)
    && Distinct(l.timers)
  }

  predicate Distinct(ts: seq<Timer>) {
    ts == [] || (Get(ts[1..], ts[0].id) == None && Distinct(ts[1..]))
  }

  lemma {:induction false} GetAt(ts: seq<Timer>, i: nat)
    requires i < |ts| && Distinct(ts)
    ensures Get(ts, ts[i].id) == Some(ts[i])
  {
    if i > 0 {
      GetAt(ts[1..], i - 1);
    }
  }

  lemma {:induction false} GetNone(ts: seq<Timer>, id: nat)
    requires forall t :: t in ts ==> t.id != id
    ensures Get(ts, id) == None
  {
    if ts != [] {
      GetNone(ts[1..], id);
    }
  }

  lemma {:induction false} RemoveOk(ts: seq<Timer>, id: nat, x: nat)
    requires Distinct(ts)
    ensures Get(Remove(ts, id), x) == if x == id then None else Get(ts, x)
    ensures Distinct(Remove(ts, id)) && forall t :: t in Remove(ts, id) ==> t in ts
  {
    if ts != [] && ts[0].id != id {
      RemoveOk(ts[1..], id, x);
      RemoveOk(ts[1..], id, ts[0].id);
      var r := Remove(ts, id);
      assert r[1..] == Remove(ts[1..], id);
    }
  }

  lemma {:induction false} MoveOk(ts: seq<Timer>, id: nat, when: Time, x: nat)
    requires Distinct(ts)
    ensures Get(Move(ts, id, when), x) == if x == id && Get(ts, id).Some? then Some(Timer(id, when)) else Get(ts, x)
    ensures Distinct(Move(ts, id, when))
    ensures forall t :: t in Move(ts, id, when) ==> t in ts || (t.id == id && Get(ts, id).Some?)
  {
    if ts != [] {
      var r := Move(ts, id, when);
      if ts[0].id == id {
        assert r[1..] == ts[1..];
      } else {
        MoveOk(ts[1..], id, when, x);
        MoveOk(ts[1..], id, when, ts[0].id);
        assert r[1..] == Move(ts[1..], id, when);
      }
    }
  }

  // -------------------------------------------------------------- callbacks

  /** What a callback may do to the loop. */
  datatype Op = Create(milliseconds: int) | Delete(id: nat)

  /** A callback's run: its calls and the value it returns. */
  datatype Act = Act(ops: seq<Op>, ret: int)

  function CreateTimer(l: Loop, now: Time, milliseconds: int): Loop {
    l.(timers := [Timer(l.nextId, After(now, milliseconds))] + l.timers, nextId := l.nextId + 1)
  }

  function DeleteTimer(l: Loop, id: nat): Loop {
    l.(timers := Remove(l.timers, id))
  }

  function Apply(l: Loop, now: Time, op: Op): Loop {
    match op
    case Create(milliseconds) => CreateTimer(l, now, milliseconds)
    case Delete(id) => DeleteTimer(l, id)
  }

  function ApplyAll(l: Loop, now: Time, ops: seq<Op>): Loop
    decreases |ops|
  {
    if ops == [] then l else ApplyAll(Apply(l, now, ops[0]), now, ops[1..])
  }

  /** A timer's callback runs; then the timer is deleted or set again. */
  function Fire(l: Loop, now: Time, id: nat, act: Act): Loop {
    var m := ApplyAll(l, now, act.ops);
    if act.ret == NOMORE then DeleteTimer(m, id) else m.(timers := Move(m.timers, id, After(now, act.ret)))
  }

  /** It ends its timer, or sets a delay and does not delete its timer. */
  predicate Good(act: Act, id: nat) {
    act.ret == NOMORE || (act.ret > 0 && Delete(id) !in act.ops)
  }

  lemma ApplyOk(l: Loop, now: Time, op: Op, x: nat)
    requires Valid(l)
    ensures Valid(Apply(l, now, op)) && Apply(l, now, op).lastTime == l.lastTime
    ensures Apply(l, now, op).nextId == l.nextId + if op.Create? then 1 else 0
    ensures Get(Apply(l, now, op).timers, x) ==
            if op.Create? && x == l.nextId then Some(Timer(x, After(now, op.milliseconds)))
            else if op == Delete(x) then None else Get(l.timers, x)
  {
    hide After;
    match op {
      case Create(_) =>
        var r := Apply(l, now, op).timers;
        assert r[1..] == l.timers;
        GetNone(l.timers, l.nextId);
      case Delete(id) =>
        RemoveOk(l.timers, id, x);
    }
  }

  function Creates(ops: seq<Op>): nat {
    if ops == [] then 0 else Creates(ops[..|ops| - 1]) + if ops[|ops| - 1].Create? then 1 else 0
  }

  lemma {:induction false} CreatesHead(ops: seq<Op>)
    requires ops != []
    ensures Creates(ops) == (if ops[0].Create? then 1 else 0) + Creates(ops[1..])
    decreases |ops|
  {
    var n := |ops| - 1;
    if n == 0 {
      assert ops[..0] == [] && ops[1..] == [];
    } else {
      CreatesHead(ops[..n]);
      assert ops[..n][1..] == ops[1..][..n - 1];
    }
  }

  /** The id that the i-th call creates, when the first free id is `first`. */
  function IdOf(ops: seq<Op>, i: nat, first: nat): nat
    requires i <= |ops|
  {
    first + Creates(ops[..i])
  }

  /**
   After the calls of a callback: a timer of before is gone if one of them
   deletes it and unchanged otherwise; a timer created by one of them is there
   unless a later one deletes it; and as many ids are used up as were created.
   */
  lemma {:induction false} ApplyAllOk(l: Loop, now: Time, ops: seq<Op>, x: nat)
    requires Valid(l)
    ensures Valid(ApplyAll(l, now, ops)) && ApplyAll(l, now, ops).nextId == l.nextId + Creates(ops)
    ensures ApplyAll(l, now, ops).lastTime == l.lastTime
    ensures x < l.nextId ==>
              Get(ApplyAll(l, now, ops).timers, x) == if Delete(x) in ops then None else Get(l.timers, x)
    decreases |ops|
  {
    hide Valid, Apply, Get, Creates;
    if ops != [] {
      ApplyOk(l, now, ops[0], x);
      ApplyAllOk(Apply(l, now, ops[0]), now, ops[1..], x);
      CreatesHead(ops);
    } else {
      CreatesNone();
    }
  }

  lemma CreatesNone()
    ensures Creates([]) == 0
  {
  }

  lemma {:induction false} ApplyAllCreates(l: Loop, now: Time, ops: seq<Op>, i: nat)
    requires Valid(l) && i < |ops| && ops[i].Create?
    ensures var k := IdOf(ops, i, l.nextId);
            Get(ApplyAll(l, now, ops).timers, k) ==
            if Delete(k) in ops[i + 1..] then None else Some(Timer(k, After(now, ops[i].milliseconds)))
    decreases |ops|
  {
    hide Valid, Apply, Get, Creates, After;
    var m := Apply(l, now, ops[0]);
    if i == 0 {
      CreatesNone();
      assert ops[..0] == [];
      ApplyOk(l, now, ops[0], l.nextId);
      ApplyAllOk(m, now, ops[1..], l.nextId);
    } else {
      ApplyOk(l, now, ops[0], 0);
      ApplyAllCreates(m, now, ops[1..], i - 1);
      assert ops[..i][1..] == ops[1..][..i - 1] && ops[1..][i..] == ops[i + 1..];
      CreatesHead(ops[..i]);
    }
  }

  /** One callback: what it did to the other timers, and what becomes of its own. */
  lemma FireOk(l: Loop, now: Time, id: nat, act: Act, x: nat)
    requires Valid(l) && Get(l.timers, id).Some? && Good(act, id)
    ensures Valid(Fire(l, now, id, act)) && Fire(l, now, id, act).nextId == l.nextId + Creates(act.ops)
    ensures Fire(l, now, id, act).lastTime == l.lastTime
    ensures x < l.nextId && x != id ==>
              Get(Fire(l, now, id, act).timers, x) == if Delete(x) in act.ops then None else Get(l.timers, x)
    ensures Get(Fire(l, now, id, act).timers, id) ==
            if act.ret == NOMORE then None else Some(Timer(id, After(now, act.ret)))
  {
    hide After, Get, ApplyAll, Remove, Move, Distinct, Creates;
    var m := ApplyAll(l, now, act.ops);
    ApplyAllOk(l, now, act.ops, x);
    ApplyAllOk(l, now, act.ops, id);
    if act.ret == NOMORE {
      RemoveOk(m.timers, id, x);
      RemoveOk(m.timers, id, id);
    } else {
      MoveOk(m.timers, id, After(now, act.ret), x);
      MoveOk(m.timers, id, After(now, act.ret), id);
    }
  }

  /** And the timers it created. */
  lemma FireCreates(l: Loop, now: Time, id: nat, act: Act, i: nat)
    requires Valid(l) && Get(l.timers, id).Some? && i < |act.ops| && act.ops[i].Create?
    ensures var k := IdOf(act.ops, i, l.nextId);
            Get(Fire(l, now, id, act).timers, k) ==
            if Delete(k) in act.ops[i + 1..] then None else Some(Timer(k, After(now, act.ops[i].milliseconds)))
  {
    hide After, Get, ApplyAll, Remove, Move, Distinct, Creates;
    var m := ApplyAll(l, now, act.ops);
    var k := IdOf(act.ops, i, l.nextId);
    ApplyAllOk(l, now, act.ops, 0);
    ApplyAllCreates(l, now, act.ops, i);
    RemoveOk(m.timers, id, k);
    MoveOk(m.timers, id, After(now, act.ret), k);
  }

  // ------------------------------------------------------ processTimeEvents

  type Script = (nat, nat) -> Act

  /** What the n-th callback of the pass does, given the id of its timer. */
  ghost predicate Behaved(script: Script) {
    forall n: nat, id: nat :: Good(script(n, id), id)
  }

  predicate IsDue(ts: seq<Timer>, id: nat, now: Time) {
    Get(ts, id).Some? && Reached(Get(ts, id).value.when, now)
  }

  ghost function DueIds(ts: seq<Timer>, limit: nat, now: Time): set<nat> {
    set id: nat | id < limit && IsDue(ts, id, now)
  }

  /** Of the timers of before, those due after a callback were due before it, and the one that fired is not. */
  lemma FireDue(l: Loop, now: Time, id: nat, act: Act, limit: nat)
    requires Valid(l) && Clock(now) && Good(act, id) && limit <= l.nextId
    requires id < limit && IsDue(l.timers, id, now)
    ensures forall x: nat :: x < limit && IsDue(Fire(l, now, id, act).timers, x, now) ==>
              IsDue(l.timers, x, now) && x != id
  {
    hide Fire, Valid, Get, Reached, After;
    forall x: nat | x < limit
      ensures IsDue(Fire(l, now, id, act).timers, x, now) ==> IsDue(l.timers, x, now) && x != id
    {
      FireOk(l, now, id, act, x);
      AfterIsLater(now, act.ret);
    }
  }

  lemma FireShrinks(l: Loop, now: Time, id: nat, act: Act, limit: nat)
    requires Valid(l) && Clock(now) && Good(act, id) && limit <= l.nextId
    requires id < limit && IsDue(l.timers, id, now)
    ensures DueIds(Fire(l, now, id, act).timers, limit, now) < DueIds(l.timers, limit, now)
  {
    hide Fire, Valid, Get, Reached, After;
    FireDue(l, now, id, act, limit);
    assert id in DueIds(l.timers, limit, now) && id !in DueIds(Fire(l, now, id, act).timers, limit, now);
  }

  /** The walk from place i on: the loop it leaves and the ids it fires, after those in fired. */
  ghost function Walk(l: Loop, i: nat, fired: seq<nat>, limit: nat, now: Time, script: Script): (Loop, seq<nat>)
    requires Valid(l) && limit <= l.nextId && i <= |l.timers| && Clock(now) && Behaved(script)
    decreases DueIds(l.timers, limit, now), |l.timers| - i
  {
    if i == |l.timers| then (l, fired)
    else
      var t := l.timers[i];
      if t.id >= limit || !Reached(t.when, now) then Walk(l, i + 1, fired, limit, now, script)
      else
        GetAt(l.timers, i);
        var act := script(|fired|, t.id);
        FireShrinks(l, now, t.id, act, limit);
        FireOk(l, now, t.id, act, 0);
        Walk(Fire(l, now, t.id, act), 0, fired + [t.id], limit, now, script)
  }

  /** When the clock went backward every timer is set to second 0. */
  function Zeroed(ts: seq<Timer>): (r: seq<Timer>)
    ensures |r| == |ts|
  {
    seq(|ts|, i requires 0 <= i < |ts| => Timer(ts[i].id, Time(0, ts[i].when.ms)))
  }

  function Corrected(l: Loop, seconds: int): Loop {
    Loop(if seconds < l.lastTime then Zeroed(l.timers) else l.timers, l.nextId, seconds)
  }

  lemma {:induction false} ZeroedOk(ts: seq<Timer>, id: nat)
    ensures Get(Zeroed(ts), id) ==
            match Get(ts, id) case None => None case Some(t) => Some(Timer(id, Time(0, t.when.ms)))
    ensures Distinct(ts) ==> Distinct(Zeroed(ts))
    ensures forall t :: t in Zeroed(ts) ==> exists u :: u in ts && u.id == t.id
  {
    if ts != [] {
      assert Zeroed(ts)[1..] == Zeroed(ts[1..]);
      ZeroedOk(ts[1..], id);
      ZeroedOk(ts[1..], ts[0].id);
    }
  }

  lemma CorrectedOk(l: Loop, seconds: int, id: nat)
    requires Valid(l)
    ensures Valid(Corrected(l, seconds))
    ensures Get(Corrected(l, seconds).timers, id) ==
            match Get(l.timers, id) case None => None
            case Some(t) => Some(Timer(id, if seconds < l.lastTime then Time(0, t.when.ms) else t.when))
  {
    hide Get, Distinct, Zeroed;
    ZeroedOk(l.timers, id);
  }

  /** processTimeEvents. */
  ghost function Process(l: Loop, now: Time, script: Script): (Loop, seq<nat>)
    requires Valid(l) && Clock(now) && Behaved(script)
  {
    CorrectedOk(l, now.sec, 0);
    Walk(Corrected(l, now.sec), 0, [], l.nextId, now, script)
  }

  // ------------------------------------------------------- what a pass does

  /** The calls of the n-th callback. */
  ghost function OpsOf(fired: seq<nat>, script: Script, n: nat): seq<Op>
    requires n < |fired|
  {
    script(n, fired[n]).ops
  }

  /** One of the callbacks from the n-th on deletes the timer. */
  ghost predicate DeletedFrom(fired: seq<nat>, script: Script, n: nat, id: nat) {
    exists m :: n <= m < |fired| && Delete(id) in OpsOf(fired, script, m)
  }

  /** The first free id when the n-th callback runs. */
  ghost function FirstId(o: Loop, fired: seq<nat>, script: Script, n: nat): nat
    requires n <= |fired|
  {
    if n == 0 then o.nextId else FirstId(o, fired, script, n - 1) + Creates(OpsOf(fired, script, n - 1))
  }

  /** What is true of a pass from loop o, now at l with the callbacks in fired behind it. */
  ghost predicate Passed(o: Loop, l: Loop, fired: seq<nat>, now: Time, script: Script) {
    && Valid(l) && l.nextId == FirstId(o, fired, script, |fired|) >= o.nextId && l.lastTime == o.lastTime
    // Each callback was due, belonged to a timer of before the pass, and ran once.
    && (forall n :: 0 <= n < |fired| ==> fired[n] < o.nextId && IsDue(o.timers, fired[n], now))
    && (forall m, n :: 0 <= m < n < |fired| ==> fired[m] != fired[n])
    // A timer that fired is gone if it ended or a later callback deleted it, and else set again.
    && (forall n :: 0 <= n < |fired| ==> Again(l, fired, now, script, n))
    // One that did not is gone if a callback deleted it, and else unchanged.
    && (forall id: nat :: id < o.nextId && id !in fired ==> Spared(o, l, fired, script, id))
    // One that a callback created is there unless it was deleted later.
    && (forall n, i :: 0 <= n < |fired| && 0 <= i < |OpsOf(fired, script, n)| && OpsOf(fired, script, n)[i].Create? ==>
          Made(o, l, fired, now, script, n, i))
  }

  ghost predicate Again(l: Loop, fired: seq<nat>, now: Time, script: Script, n: nat)
    requires n < |fired|
  {
    var id, ret := fired[n], script(n, fired[n]).ret;
    && (ret == NOMORE || ret > 0)
    && Get(l.timers, id) ==
       if ret == NOMORE || DeletedFrom(fired, script, n + 1, id) then None else Some(Timer(id, After(now, ret)))
  }

  ghost predicate Spared(o: Loop, l: Loop, fired: seq<nat>, script: Script, id: nat) {
    Get(l.timers, id) == if DeletedFrom(fired, script, 0, id) then None else Get(o.timers, id)
  }

  ghost predicate Made(o: Loop, l: Loop, fired: seq<nat>, now: Time, script: Script, n: nat, i: nat)
    requires n < |fired| && i < |OpsOf(fired, script, n)| && OpsOf(fired, script, n)[i].Create?
  {
    var ops := OpsOf(fired, script, n);
    var id := IdOf(ops, i, FirstId(o, fired, script, n));
    Get(l.timers, id) ==
    if Delete(id) in ops[i + 1..] || DeletedFrom(fired, script, n + 1, id) then None
    else Some(Timer(id, After(now, ops[i].milliseconds)))
  }

  lemma {:induction false} FirstIdMore(o: Loop, fired: seq<nat>, script: Script, n: nat, id: nat)
    requires n <= |fired|
    ensures FirstId(o, fired + [id], script, n) == FirstId(o, fired, script, n) >= o.nextId
    decreases n
  {
    hide Creates;
    if n > 0 {
      FirstIdMore(o, fired, script, n - 1, id);
    }
  }

  /** Ids are given out in order. */
  lemma {:induction false} FirstIdGrows(o: Loop, fired: seq<nat>, script: Script, n: nat, m: nat)
    requires n <= m <= |fired|
    ensures FirstId(o, fired, script, n) <= FirstId(o, fired, script, m)
    decreases m
  {
    hide Creates;
    if n < m {
      FirstIdGrows(o, fired, script, n, m - 1);
    }
  }

  lemma {:induction false} CreatesPrefix(ops: seq<Op>, i: nat)
    requires i < |ops| && ops[i].Create?
    ensures Creates(ops[..i]) < Creates(ops)
    decreases |ops|
  {
    var n := |ops| - 1;
    if i < n {
      CreatesPrefix(ops[..n], i);
      assert ops[..n][..i] == ops[..i];
    }
  }

  lemma DeletedMore(fired: seq<nat>, script: Script, n: nat, x: nat, id: nat)
    requires n <= |fired|
    ensures DeletedFrom(fired + [id], script, n, x) <==>
            DeletedFrom(fired, script, n, x) || Delete(x) in script(|fired|, id).ops
  {
    var f := fired + [id];
    assert forall m :: 0 <= m < |fired| ==> OpsOf(f, script, m) == OpsOf(fired, script, m);
    assert OpsOf(f, script, |fired|) == script(|fired|, id).ops;
  }

  lemma PassedFire(o: Loop, l: Loop, fired: seq<nat>, now: Time, script: Script, id: nat)
    requires Clock(now) && Behaved(script) && Passed(o, l, fired, now, script)
    requires id < o.nextId && IsDue(l.timers, id, now)
    ensures Passed(o, Fire(l, now, id, script(|fired|, id)), fired + [id], now, script)
  {
    hide Fire, Valid, Get, After, Distinct, Reached, Again, Spared, Made, FirstId, DeletedFrom, OpsOf, Creates;
    var act := script(|fired|, id);
    var f, r := fired + [id], Fire(l, now, id, act);
    assert Good(act, id);
    NotTwice(o, l, fired, now, script, id);
    FireOk(l, now, id, act, id);
    FirstIdStep(o, fired, script, id);
    forall n | 0 <= n < |f|
      ensures Again(r, f, now, script, n)
    {
      AgainFire(o, l, fired, now, script, id, n);
    }
    forall x: nat | x < o.nextId && x !in f
      ensures Spared(o, r, f, script, x)
    {
      assert x !in fired && f[|fired|] == id;
      SparedFire(o, l, fired, now, script, id, x);
    }
    forall n, i | 0 <= n < |f| && 0 <= i < |OpsOf(f, script, n)| && OpsOf(f, script, n)[i].Create?
      ensures Made(o, r, f, now, script, n, i)
    {
      MadeFire(o, l, fired, now, script, id, n, i);
    }
  }

  lemma FirstIdStep(o: Loop, fired: seq<nat>, script: Script, id: nat)
    ensures FirstId(o, fired + [id], script, |fired| + 1) ==
            FirstId(o, fired, script, |fired|) + Creates(script(|fired|, id).ops)
  {
    hide Creates;
    FirstIdMore(o, fired, script, |fired|, id);
  }

  /** A timer that is due has not fired in this pass, and was due before it. */
  lemma NotTwice(o: Loop, l: Loop, fired: seq<nat>, now: Time, script: Script, id: nat)
    requires Clock(now) && Passed(o, l, fired, now, script) && id < o.nextId && IsDue(l.timers, id, now)
    ensures id !in fired && IsDue(o.timers, id, now)
  {
    hide Valid, Get, After, Reached, Made, FirstId, DeletedFrom, OpsOf;
    if id in fired {
      var n :| 0 <= n < |fired| && fired[n] == id;
      assert Again(l, fired, now, script, n);
      AfterIsLater(now, script(n, id).ret);
    } else {
      assert Spared(o, l, fired, script, id);
    }
  }

  lemma AgainFire(o: Loop, l: Loop, fired: seq<nat>, now: Time, script: Script, id: nat, n: nat)
    requires Behaved(script) && Passed(o, l, fired, now, script)
    requires id < o.nextId && Get(l.timers, id).Some? && id !in fired && n <= |fired|
    ensures Again(Fire(l, now, id, script(|fired|, id)), fired + [id], now, script, n)
  {
    hide Fire, Valid, Get, After, Spared, Made, FirstId, OpsOf, Creates;
    var act, f := script(|fired|, id), fired + [id];
    assert Good(act, id);
    FireOk(l, now, id, act, f[n]);
    if n < |fired| {
      assert Again(l, fired, now, script, n) && f[n] == fired[n] && fired[n] in fired;
      DeletedMore(fired, script, n + 1, f[n], id);
    } else {
      assert !DeletedFrom(f, script, n + 1, id);
    }
  }

  lemma SparedFire(o: Loop, l: Loop, fired: seq<nat>, now: Time, script: Script, id: nat, x: nat)
    requires Behaved(script) && Passed(o, l, fired, now, script)
    requires id < o.nextId && Get(l.timers, id).Some? && x < o.nextId && x != id && x !in fired
    ensures Spared(o, Fire(l, now, id, script(|fired|, id)), fired + [id], script, x)
  {
    hide Fire, Valid, Get, After, Again, Made, FirstId, OpsOf, DeletedFrom, Creates;
    assert Good(script(|fired|, id), id);
    FireOk(l, now, id, script(|fired|, id), x);
    assert Spared(o, l, fired, script, x);
    DeletedMore(fired, script, 0, x, id);
  }

  lemma MadeFire(o: Loop, l: Loop, fired: seq<nat>, now: Time, script: Script, id: nat, n: nat, i: nat)
    requires Behaved(script) && Passed(o, l, fired, now, script)
    requires id < o.nextId && Get(l.timers, id).Some? && n <= |fired|
    requires var ops := OpsOf(fired + [id], script, n); i < |ops| && ops[i].Create?
    ensures Made(o, Fire(l, now, id, script(|fired|, id)), fired + [id], now, script, n, i)
  {
    hide Fire, Valid, Get, After, Again, Spared, FirstId, Creates;
    var act, f := script(|fired|, id), fired + [id];
    var ops := OpsOf(f, script, n);
    FirstIdMore(o, fired, script, n, id);
    var k := IdOf(ops, i, FirstId(o, f, script, n));
    CreatesPrefix(ops, i);
    assert Good(act, id);
    if n < |fired| {
      assert ops == OpsOf(fired, script, n);
      assert Made(o, l, fired, now, script, n, i);
      FirstIdGrows(o, fired, script, n + 1, |fired|);
      FirstIdNext(o, fired, script, n);
      FireOk(l, now, id, act, k);
      DeletedMore(fired, script, n + 1, k, id);
    } else {
      FireCreates(l, now, id, act, i);
      assert !DeletedFrom(f, script, n + 1, k);
    }
  }

  lemma FirstIdNext(o: Loop, fired: seq<nat>, script: Script, n: nat)
    requires n < |fired|
    ensures FirstId(o, fired, script, n + 1) == FirstId(o, fired, script, n) + Creates(OpsOf(fired, script, n))
  {
  }

  lemma {:induction false} WalkOk(o: Loop, l: Loop, i: nat, fired: seq<nat>, now: Time, script: Script)
    requires Clock(now) && Behaved(script) && i <= |l.timers| && Passed(o, l, fired, now, script)
    requires forall k :: 0 <= k < i ==> l.timers[k].id >= o.nextId || !Reached(l.timers[k].when, now)
    ensures var (r, all) := Walk(l, i, fired, o.nextId, now, script);
            Passed(o, r, all, now, script)
            && forall t :: t in r.timers ==> t.id >= o.nextId || !Reached(t.when, now)
    decreases DueIds(l.timers, o.nextId, now), |l.timers| - i
  {
    hide Fire, Passed, Reached, DueIds, Get, Distinct;
    assert Valid(l) && o.nextId <= l.nextId by { PassedValid(o, l, fired, now, script); }
    if i < |l.timers| {
      var t := l.timers[i];
      if t.id >= o.nextId || !Reached(t.when, now) {
        WalkOk(o, l, i + 1, fired, now, script);
      } else {
        GetAt(l.timers, i);
        var act := script(|fired|, t.id);
        assert Good(act, t.id);
        FireShrinks(l, now, t.id, act, o.nextId);
        PassedFire(o, l, fired, now, script, t.id);
        WalkOk(o, Fire(l, now, t.id, act), 0, fired + [t.id], now, script);
      }
    }
  }

  lemma PassedValid(o: Loop, l: Loop, fired: seq<nat>, now: Time, script: Script)
    requires Passed(o, l, fired, now, script)
    ensures Valid(l) && o.nextId <= l.nextId
  {
  }

  /**
   A pass: each timer of before fires at most once and only when due, none
   created during the pass fires, no surviving timer of before is still due,
   and so each that was due has fired or was deleted; what the callbacks create
   and delete is created and deleted, and nothing else.
   */
  lemma ProcessOk(l: Loop, now: Time, script: Script)
    requires Valid(l) && Clock(now) && Behaved(script)
    ensures var o := Corrected(l, now.sec);
            var (r, fired) := Process(l, now, script);
            && Passed(o, r, fired, now, script) && r.lastTime == now.sec
            && (forall id: nat :: id < l.nextId ==> !IsDue(r.timers, id, now))
            && (forall id: nat :: IsDue(o.timers, id, now) ==> id in fired || Get(r.timers, id) == None)
  {
    hide Walk, Distinct, Reached;
    CorrectedOk(l, now.sec, 0);
    var o := Corrected(l, now.sec);
    WalkOk(o, o, 0, [], now, script);
    var (r, fired) := Process(l, now, script);
    forall id: nat | id < l.nextId
      ensures !IsDue(r.timers, id, now)
    {
    }
    forall id: nat | IsDue(o.timers, id, now)
      ensures id in fired || Get(r.timers, id) == None
    {
      assert id < o.nextId;
    }
  }

  // ------------------------------------------------- the order of a pass

  /** The newest first. */
  predicate Descending(ts: seq<Timer>) {
    forall i, j :: 0 <= i < j < |ts| ==> ts[i].id > ts[j].id
  }

  predicate Falling(ids: seq<nat>) {
    forall i, j :: 0 <= i < j < |ids| ==> ids[i] > ids[j]
  }

  lemma {:induction false} RemoveDescending(ts: seq<Timer>, id: nat)
    requires Descending(ts)
    ensures Descending(Remove(ts, id)) && forall t :: t in Remove(ts, id) ==> t in ts
  {
    if ts != [] && ts[0].id != id {
      RemoveDescending(ts[1..], id);
      var r := Remove(ts[1..], id);
      assert forall j :: 0 <= j < |r| ==> r[j] in ts[1..];
    }
  }

  lemma {:induction false} MoveIds(ts: seq<Timer>, id: nat, when: Time)
    ensures var r := Move(ts, id, when); |r| == |ts| && forall i :: 0 <= i < |ts| ==> r[i].id == ts[i].id
  {
    if ts != [] && ts[0].id != id {
      MoveIds(ts[1..], id, when);
    }
  }

  lemma {:induction false} ApplyAllDescending(l: Loop, now: Time, ops: seq<Op>)
    requires Valid(l) && Descending(l.timers)
    ensures Descending(ApplyAll(l, now, ops).timers)
    decreases |ops|
  {
    hide Distinct, Get, After;
    if ops != [] {
      ApplyOk(l, now, ops[0], 0);
      if ops[0].Delete? {
        RemoveDescending(l.timers, ops[0].id);
      }
      ApplyAllDescending(Apply(l, now, ops[0]), now, ops[1..]);
    }
  }

  lemma FireDescending(l: Loop, now: Time, id: nat, act: Act)
    requires Valid(l) && Descending(l.timers)
    ensures Descending(Fire(l, now, id, act).timers)
  {
    hide ApplyAll, Remove, Move, Distinct, After;
    var m := ApplyAll(l, now, act.ops);
    ApplyAllDescending(l, now, act.ops);
    RemoveDescending(m.timers, id);
    MoveIds(m.timers, id, After(now, act.ret));
  }

  lemma {:induction false} WalkOrder(l: Loop, i: nat, fired: seq<nat>, limit: nat, now: Time, script: Script)
    requires Valid(l) && limit <= l.nextId && i <= |l.timers| && Clock(now) && Behaved(script)
    requires Descending(l.timers) && Falling(fired)
    requires forall j :: 0 <= j < i ==> l.timers[j].id >= limit || !Reached(l.timers[j].when, now)
    requires forall x: nat, f :: x < limit && IsDue(l.timers, x, now) && f in fired ==> x < f
    ensures var (r, all) := Walk(l, i, fired, limit, now, script); Descending(r.timers) && Falling(all)
    decreases DueIds(l.timers, limit, now), |l.timers| - i
  {
    hide Fire, Reached, DueIds, Distinct, Get;
    if i < |l.timers| {
      var t := l.timers[i];
      if t.id >= limit || !Reached(t.when, now) {
        WalkOrder(l, i + 1, fired, limit, now, script);
      } else {
        GetAt(l.timers, i);
        var act := script(|fired|, t.id);
        assert Good(act, t.id);
        FireShrinks(l, now, t.id, act, limit);
        FireDue(l, now, t.id, act, limit);
        FireOk(l, now, t.id, act, 0);
        FireDescending(l, now, t.id, act);
        forall x: nat | x < limit && IsDue(l.timers, x, now)
          ensures x <= t.id
        {
          FirstDue(l, i, limit, now, x);
        }
        assert IsDue(l.timers, t.id, now) && forall k :: 0 <= k < |fired| ==> fired[k] in fired;
        WalkOrder(Fire(l, now, t.id, act), 0, fired + [t.id], limit, now, script);
      }
    }
  }

  lemma FirstDue(l: Loop, i: nat, limit: nat, now: Time, x: nat)
    requires Valid(l) && Descending(l.timers) && i < |l.timers| && x < limit && IsDue(l.timers, x, now)
    requires forall j :: 0 <= j < i ==> l.timers[j].id >= limit || !Reached(l.timers[j].when, now)
    ensures x <= l.timers[i].id
  {
    hide Reached, Get;
    var k :| 0 <= k < |l.timers| && l.timers[k] == Get(l.timers, x).value;
    assert k >= i;
  }

  /** Timers that are due fire from the newest to the oldest; the list stays in that order. */
  lemma ProcessOrder(l: Loop, now: Time, script: Script)
    requires Valid(l) && Clock(now) && Behaved(script) && Descending(l.timers)
    ensures var (r, fired) := Process(l, now, script); Falling(fired) && Descending(r.timers)
  {
    hide Walk, Distinct, Reached, Get;
    CorrectedOk(l, now.sec, 0);
    var ts := Corrected(l, now.sec).timers;
    assert |ts| == |l.timers| && forall i :: 0 <= i < |ts| ==> ts[i].id == l.timers[i].id;
    WalkOrder(Corrected(l, now.sec), 0, [], l.nextId, now, script);
  }

  /** A clock behind that of the last pass makes every timer due, once it shows a second above 0. */
  lemma BackwardClock(l: Loop, now: Time, id: nat)
    requires Valid(l) && now.sec < l.lastTime && Get(l.timers, id).Some?
    ensures IsDue(Corrected(l, now.sec).timers, id, now) <==>
            now.sec > 0 || (now.sec == 0 && now.ms >= Get(l.timers, id).value.when.ms)
  {
    hide Get, Corrected, Valid;
    CorrectedOk(l, now.sec, id);
  }

  /** With a delay of 0 the timer is due again at once: this pass would never end. */
  lemma ZeroDelayStaysDue(l: Loop, now: Time, id: nat, ops: seq<Op>, delay: int)
    requires Valid(l) && Clock(now) && IsDue(l.timers, id, now) && Delete(id) !in ops && delay != NOMORE
    ensures IsDue(Fire(l, now, id, Act(ops, delay)).timers, id, now) <==> delay <= 0
  {
    hide Get, ApplyAll, Move, Valid, Distinct;
    assert id < l.nextId by { ValidId(l, id); }
    ApplyAllOk(l, now, ops, id);
    AfterIsLater(now, delay);
    var m := ApplyAll(l, now, ops);
    ValidDistinct(m);
    MoveOk(m.timers, id, After(now, delay), id);
  }

  lemma ValidId(l: Loop, id: nat)
    requires Valid(l) && Get(l.timers, id).Some?
    ensures id < l.nextId
  {
  }

  lemma ValidDistinct(l: Loop)
    ensures Valid(l) ==> Distinct(l.timers)
  {
  }

  // ---------------------------------------------------------- the next timer

  /** a is before b, or at the same time. */
  predicate NotAfter(a: Time, b: Time) {
    a.sec < b.sec || (a.sec == b.sec && a.ms <= b.ms)
  }

  /** The milliseconds aeProcessEvents waits at most for a timer. */
  function Wait(when: Time, now: Time): nat {
    var sec := if when.ms < now.ms then when.sec - now.sec - 1 else when.sec - now.sec;
    var ms := if when.ms < now.ms then when.ms + 1000 - now.ms else when.ms - now.ms;
    (if sec < 0 then 0 else sec * 1000) + if ms < 0 then 0 else ms
  }

  /**
   The wait ends when the timer is due, and is 0 if it is due already, except
   that an overdue timer makes the loop wait unless it is late by whole seconds.
   */
  lemma WaitExactIff(when: Time, now: Time)
    requires Clock(when) && Clock(now)
    ensures var d := Millis(when) - Millis(now);
            Wait(when, now) == (if d < 0 then 0 else d) <==> d >= 0 || d % 1000 == 0
  {
    var borrow := if when.ms < now.ms then 1 else 0;
    var sec, ms := when.sec - now.sec - borrow, when.ms - now.ms + 1000 * borrow;
    assert Millis(when) - Millis(now) == 1000 * sec + ms && 0 <= ms < 1000;
  }

  /** No timer is before the one at k, and none further ahead in the list is at its time. */
  predicate IsNearest(ts: seq<Timer>, k: nat)
    requires k < |ts|
  {
    && (forall j :: 0 <= j < |ts| ==> NotAfter(ts[k].when, ts[j].when))
    && (forall j :: 0 <= j < k ==> ts[j].when != ts[k].when)
  }

  /** A timer that was due 4.2 seconds ago: the loop sleeps for 800 milliseconds more. */
  lemma OverdueWaits()
    ensures var when, now := Time(5, 900), Time(10, 100);
            Reached(when, now) && Millis(now) - Millis(when) == 4200 && Wait(when, now) == 800
  {
  }

  /** The sum passed to epoll_wait, whose parameter is an int. */
  function Int32(x: int): int {
    (x + 0x8000_0000) % 0x1_0000_0000 - 0x8000_0000
  }

  /**
   What epoll_wait is given is the time left exactly when the timer is not
   overdue and is due within 2^31 milliseconds, about 24 days, or is overdue by
   whole seconds.
   */
  lemma WaitFitsIff(when: Time, now: Time)
    requires Clock(when) && Clock(now)
    ensures var d := Millis(when) - Millis(now);
            Int32(Wait(when, now)) == (if d < 0 then 0 else d) <==>
            0 <= d < 0x8000_0000 || (d < 0 && d % 1000 == 0)
  {
    var d := Millis(when) - Millis(now);
    WaitExactIff(when, now);
    if d < 0 {
      OverdueBelowSecond(when, now);
    }
    hide Wait;
  }

  /** A timer that is due makes the loop wait for less than a second. */
  lemma OverdueBelowSecond(when: Time, now: Time)
    requires Clock(when) && Clock(now) && Millis(when) < Millis(now)
    ensures Wait(when, now) < 1000
  {
  }

  class TimeEvents {
    var timers: seq<Timer>
    var nextId: nat
    var lastTime: int

    ghost function Abstract(): Loop
      reads this
    {
      Loop(timers, nextId, lastTime)
    }

    /** aeCreateEventLoop. */
    constructor (seconds: int)
      ensures Abstract() == Loop([], 0, seconds) && Valid(Abstract())
    {
      timers, nextId, lastTime := [], 0, seconds;
    }

    /** aeCreateTimeEvent. */
    method CreateTimeEvent(now: Time, milliseconds: int) returns (id: nat)
      modifies this
      ensures Abstract() == CreateTimer(old(Abstract()), now, milliseconds) && id == old(nextId)
    {
      id := nextId;
      nextId := nextId + 1;
      timers := [Timer(id, After(now, milliseconds))] + timers;
    }

    /** aeDeleteTimeEvent. */
    method DeleteTimeEvent(id: nat) returns (found: bool)
      modifies this
      ensures Abstract() == DeleteTimer(old(Abstract()), id) && found == Get(old(timers), id).Some?
    {
      var te := 0;
      assert timers[0..] == timers;
      while te < |timers|
        invariant te <= |timers| && timers == old(timers) && nextId == old(nextId) && lastTime == old(lastTime)
        invariant Remove(timers, id) == timers[..te] + Remove(timers[te..], id)
        invariant Get(timers, id) == Get(timers[te..], id)
      {
        assert timers[te..][1..] == timers[te + 1..];
        if timers[te].id == id {
          timers := timers[..te] + timers[te + 1..];
          return true;
        }
        assert timers[..te] + ([timers[te]] + Remove(timers[te + 1..], id))
            == timers[..te + 1] + Remove(timers[te + 1..], id);
        te := te + 1;
      }
      assert timers[..te] + [] == timers;
      return false;
    }

    /** aeSearchNearestTimer: the first of those that are due the earliest. */
    method SearchNearestTimer() returns (nearest: Option<Timer>)
      ensures nearest.None? <==> timers == []
      ensures nearest.Some? ==> exists k :: 0 <= k < |timers| && timers[k] == nearest.value && IsNearest(timers, k)
    {
      var te, at := 0, 0;
      nearest := None;
      while te < |timers|
        invariant te <= |timers| && (nearest.None? <==> te == 0)
        invariant nearest.Some? ==> at < te && timers[at] == nearest.value
        invariant nearest.Some? ==> forall j :: 0 <= j < te ==> NotAfter(timers[at].when, timers[j].when)
        invariant nearest.Some? ==> forall j :: 0 <= j < at ==> timers[j].when != timers[at].when
      {
        var t := timers[te].when;
        if nearest.None? || t.sec < nearest.value.when.sec
           || (t.sec == nearest.value.when.sec && t.ms < nearest.value.when.ms)
        {
          nearest, at := Some(timers[te]), te;
        }
        te := te + 1;
      }
    }

    /** The time-out for epoll_wait: -1 waits for ever. */
    method Timeout(timeEvents: bool, dontWait: bool, now: Time) returns (timeout: int)
      ensures timeEvents && !dontWait && timers != [] ==>
              exists t :: t in timers && timeout == Int32(Wait(t.when, now))
                && forall u :: u in timers ==> NotAfter(t.when, u.when)
      ensures !(timeEvents && !dontWait && timers != []) ==> timeout == if dontWait then 0 else -1
    {
      var shortest := None;
      if timeEvents && !dontWait {
        shortest := SearchNearestTimer();
      }
      if shortest.Some? {
        var when := shortest.value.when;
        var sec := when.sec - now.sec;
        var usec;
        if when.ms < now.ms {
          usec := (when.ms + 1000 - now.ms) * 1000;
          sec := sec - 1;
        } else {
          usec := (when.ms - now.ms) * 1000;
        }
        if sec < 0 {
          sec := 0;
        }
        if usec < 0 {
          usec := 0;
        }
        timeout := Int32(sec * 1000 + usec / 1000);
        assert timeout == Int32(Wait(when, now)) && shortest.value in timers;
      } else if dontWait {
        timeout := 0;
      } else {
        timeout := -1;
      }
    }

    /** A callback's calls. */
    method Callback(now: Time, ops: seq<Op>)
      modifies this
      ensures Abstract() == ApplyAll(old(Abstract()), now, ops)
    {
      var i := 0;
      assert ops[0..] == ops;
      while i < |ops|
        invariant 0 <= i <= |ops|
        invariant ApplyAll(Abstract(), now, ops[i..]) == ApplyAll(old(Abstract()), now, ops)
      {
        assert ops[i..][1..] == ops[i + 1..];
        match ops[i] {
          case Create(milliseconds) =>
            var _ := CreateTimeEvent(now, milliseconds);
          case Delete(id) =>
            var _ := DeleteTimeEvent(id);
        }
        i := i + 1;
      }
    }

    /** processTimeEvents, with the clock at now throughout. */
    method ProcessTimeEvents(now: Time, script: Script) returns (processed: nat)
      requires Valid(Abstract()) && Clock(now) && Behaved(script)
      modifies this
      ensures Valid(Abstract())
      ensures var (r, fired) := Process(old(Abstract()), now, script); Abstract() == r && processed == |fired|
    {
      hide Walk, ApplyAll, Remove, Move, After, Valid, Distinct, Get, DueIds, Zeroed;
      ghost var l := Abstract();
      CorrectedOk(l, now.sec, 0);
      processed := 0;
      if now.sec < lastTime {
        ZeroAll();
      }
      lastTime := now.sec;
      var te, maxId := 0, nextId - 1;
      ghost var limit := nextId;
      ghost var fired: seq<nat> := [];
      ghost var start := Abstract();
      while te < |timers|
        invariant Valid(Abstract()) && limit == maxId + 1 <= nextId && te <= |timers| && processed == |fired|
        invariant Walk(Abstract(), te, fired, limit, now, script) == Walk(start, 0, [], limit, now, script)
        decreases DueIds(timers, limit, now), |timers| - te
      {
        WalkTurn(Abstract(), te, fired, limit, now, script);
        var t := timers[te];
        if t.id > maxId {
          te := te + 1;
        } else if now.sec > t.when.sec || (now.sec == t.when.sec && now.ms >= t.when.ms) {
          var id := t.id;
          var act := script(processed, id);
          Callback(now, act.ops);
          processed := processed + 1;
          if act.ret != NOMORE {
            timers := Move(timers, id, After(now, act.ret));
          } else {
            var _ := DeleteTimeEvent(id);
          }
          fired := fired + [id];
          te := 0;
        } else {
          te := te + 1;
        }
      }
      assert Walk(Abstract(), te, fired, limit, now, script) == (Abstract(), fired) by {
        WalkEnd(Abstract(), fired, limit, now, script);
      }
    }

    /** The loop that runs when the clock is behind the last pass. */
    method ZeroAll()
      modifies this
      ensures Abstract() == old(Abstract()).(timers := Zeroed(old(timers)))
    {
      var te := 0;
      while te < |timers|
        invariant te <= |timers| == |old(timers)| && nextId == old(nextId) && lastTime == old(lastTime)
        invariant forall k :: 0 <= k < te ==> timers[k] == Zeroed(old(timers))[k]
        invariant forall k :: te <= k < |timers| ==> timers[k] == old(timers)[k]
      {
        timers := timers[te := timers[te].(when := timers[te].when.(sec := 0))];
        te := te + 1;
      }
    }
  }

  /** One turn of the walk. */
  lemma WalkTurn(l: Loop, i: nat, fired: seq<nat>, limit: nat, now: Time, script: Script)
    requires Valid(l) && limit <= l.nextId && i < |l.timers| && Clock(now) && Behaved(script)
    ensures var t := l.timers[i];
            if t.id >= limit || !Reached(t.when, now)
            then Walk(l, i, fired, limit, now, script) == Walk(l, i + 1, fired, limit, now, script)
            else var r := Fire(l, now, t.id, script(|fired|, t.id));
                 && Valid(r) && limit <= r.nextId
                 && DueIds(r.timers, limit, now) < DueIds(l.timers, limit, now)
                 && Walk(l, i, fired, limit, now, script) == Walk(r, 0, fired + [t.id], limit, now, script)
  {
    hide Fire, Valid, Distinct, Get, DueIds;
    var t := l.timers[i];
    if t.id < limit && Reached(t.when, now) {
      assert Valid(l) ==> Distinct(l.timers) by { ValidDistinct(l); }
      GetAt(l.timers, i);
      assert Good(script(|fired|, t.id), t.id);
      FireShrinks(l, now, t.id, script(|fired|, t.id), limit);
      FireOk(l, now, t.id, script(|fired|, t.id), 0);
    }
  }

  lemma WalkEnd(l: Loop, fired: seq<nat>, limit: nat, now: Time, script: Script)
    requires Valid(l) && limit <= l.nextId && Clock(now) && Behaved(script)
    ensures Walk(l, |l.timers|, fired, limit, now, script) == (l, fired)
  {
  }
}
