/** The event triggers of the task scheduler: 32 of them, searched in rotation, with fast paths for the one used last. */
module EventTriggers {
  import opened Options
  import opened TriggerMasks

  /** A pointer; NULL is 0. */
  type Pointer = nat

  /** A call to the scheduler's trigger functions. */
  datatype Call =
    | CreateEventTrigger(proc: Pointer)
    | DeleteEventTrigger(id: EventTriggerId)
    | TriggerEvent(id: EventTriggerId, clientData: Pointer)

  /** A trigger that has been taken up, with the handler (or NULL) and the data it was called with. */
  datatype Handled = Handled(num: nat, proc: Pointer, clientData: Pointer)

  // ---------- The triggers as a value ----------

  ghost predicate Numbers(s: set<nat>) {
    forall n :: n in s ==> n < MAX_NUM_EVENT_TRIGGERS
  }

  datatype Triggers = Triggers(handlers: seq<Pointer>, datas: seq<Pointer>, awaiting: set<nat>, last: nat) {
    ghost predicate Valid() {
      && |handlers| == |datas| == MAX_NUM_EVENT_TRIGGERS
      && last < MAX_NUM_EVENT_TRIGGERS
      && Numbers(awaiting)
    }
  }

  /** How far trigger `n` is in rotation after `last`, which itself comes at the end. */
  function Distance(last: nat, n: nat): (d: nat)
    requires last < MAX_NUM_EVENT_TRIGGERS && n < MAX_NUM_EVENT_TRIGGERS
    ensures d < MAX_NUM_EVENT_TRIGGERS
    ensures (last + 1 + d) % MAX_NUM_EVENT_TRIGGERS == n
  {
    if n > last then n - last - 1 else n + MAX_NUM_EVENT_TRIGGERS - last - 1
  }

  /** The first member of `s` in rotation after `last`. */
  ghost predicate IsNext(s: set<nat>, last: nat, n: nat)
    requires last < MAX_NUM_EVENT_TRIGGERS && Numbers(s)
  {
    n in s && forall m :: m in s ==> Distance(last, n) <= Distance(last, m)
  }

  lemma {:induction false} NextUnique(s: set<nat>, last: nat, n: nat, m: nat)
    requires last < MAX_NUM_EVENT_TRIGGERS && Numbers(s) && IsNext(s, last, n) && IsNext(s, last, m)
    ensures n == m
  {
  }

  lemma {:induction false} NextExists(s: set<nat>, last: nat)
    requires last < MAX_NUM_EVENT_TRIGGERS && Numbers(s) && s != {}
    ensures exists n :: IsNext(s, last, n)
    decreases s
  {
    var m :| m in s;
    if s == {m} {
      assert IsNext(s, last, m);
    } else {
      var rest := s - {m};
      NextExists(rest, last);
      var n :| IsNext(rest, last, n);
      assert IsNext(s, last, if Distance(last, n) <= Distance(last, m) then n else m);
    }
  }

  ghost function Next(s: set<nat>, last: nat): (n: nat)
    requires last < MAX_NUM_EVENT_TRIGGERS && Numbers(s) && s != {}
    ensures IsNext(s, last, n)
  {
    NextExists(s, last);
    var n :| IsNext(s, last, n); n
  }

  ghost function FreeNumbers(handlers: seq<Pointer>): (s: set<nat>)
    requires |handlers| == MAX_NUM_EVENT_TRIGGERS
    ensures Numbers(s)
  {
    set n: nat | n < MAX_NUM_EVENT_TRIGGERS && handlers[n] == 0
  }

  ghost function Filled(a: seq<Pointer>, s: set<nat>, value: Pointer): (r: seq<Pointer>)
    ensures |r| == |a|
    ensures forall n :: 0 <= n < |a| ==> r[n] == if n in s then value else a[n]
  {
    seq(|a|, n requires 0 <= n < |a| => if n in s then value else a[n])
  }

  ghost function Created(t: Triggers, proc: Pointer): (r: (Triggers, Option<nat>))
    requires t.Valid()
    ensures r.0.Valid()
  {
    var free := FreeNumbers(t.handlers);
    if free == {} then (t, None)
    else
      var n := Next(free, t.last);
      (Triggers(t.handlers[n := proc], t.datas[n := 0], t.awaiting, n), Some(n))
  }

  ghost function Deleted(t: Triggers, ids: set<nat>): (r: Triggers)
    requires t.Valid()
    ensures r.Valid()
  {
    Triggers(Filled(t.handlers, ids, 0), Filled(t.datas, ids, 0), t.awaiting - ids, t.last)
  }

  ghost function Triggered(t: Triggers, ids: set<nat>, clientData: Pointer): (r: Triggers)
    requires t.Valid() && Numbers(ids)
    ensures r.Valid()
  {
    Triggers(t.handlers, Filled(t.datas, ids, clientData), t.awaiting + ids, t.last)
  }

  ghost function Called(t: Triggers, call: Call): (r: Triggers)
    requires t.Valid()
    ensures r.Valid()
  {
    match call
    case CreateEventTrigger(proc) => Created(t, proc).0
    case DeleteEventTrigger(id) => Deleted(t, Ids(id))
    case TriggerEvent(id, clientData) => Triggered(t, Ids(id), clientData)
  }

  ghost function CalledAll(t: Triggers, calls: seq<Call>): (r: Triggers)
    requires t.Valid()
    ensures r.Valid()
  {
    if calls == [] then t else Called(CalledAll(t, calls[..|calls| - 1]), calls[|calls| - 1])
  }

  /** Taking up trigger `n`: it is no longer awaited, and its handler, if it has one, makes its calls. */
  ghost function TakenUp(t: Triggers, n: nat, script: seq<Call>): (r: (Triggers, Handled))
    requires t.Valid() && n < MAX_NUM_EVENT_TRIGGERS
    ensures r.0.Valid()
  {
    var u := t.(awaiting := t.awaiting - {n});
    (if t.handlers[n] != 0 then CalledAll(u, script) else u, Handled(n, t.handlers[n], t.datas[n]))
  }

  /** The general search: the next awaited trigger is taken up, and then becomes the one used last. */
  ghost function Searched(t: Triggers, script: seq<Call>): (r: (Triggers, Handled))
    requires t.Valid() && t.awaiting != {}
    ensures r.0.Valid()
  {
    var n := Next(t.awaiting, t.last);
    var (u, h) := TakenUp(t, n, script);
    (u.(last := n), h)
  }

  /** The part of a step that serves triggers, with its fast path. */
  ghost function Served(t: Triggers, script: seq<Call>): (r: (Triggers, Option<Handled>))
    requires t.Valid()
    ensures r.0.Valid()
  {
    if t.awaiting == {} then (t, None)
    else if t.awaiting == {t.last} then
      var (u, h) := TakenUp(t, t.last, script); (u, Some(h))
    else
      var (u, h) := Searched(t, script); (u, Some(h))
  }

  /** A trigger is created just if a number is free: the next free one in rotation. Nothing else changes, and nothing awaits. */
  lemma {:induction false} CreatedMeans(t: Triggers, proc: Pointer)
    requires t.Valid()
    ensures var (u, r) := Created(t, proc);
      && (r.None? <==> forall n :: 0 <= n < MAX_NUM_EVENT_TRIGGERS ==> t.handlers[n] != 0)
      && (r.None? ==> u == t)
      && (r.Some? ==>
            && r.value < MAX_NUM_EVENT_TRIGGERS && t.handlers[r.value] == 0
            && (forall m :: 0 <= m < MAX_NUM_EVENT_TRIGGERS && t.handlers[m] == 0 ==> Distance(t.last, r.value) <= Distance(t.last, m))
            && u == Triggers(t.handlers[r.value := proc], t.datas[r.value := 0], t.awaiting, r.value))
  {
    var free := FreeNumbers(t.handlers);
    forall n | 0 <= n < MAX_NUM_EVENT_TRIGGERS ensures n in free <==> t.handlers[n] == 0 { }
  }

  // ---------- The fast path ----------

  /** The number of the trigger that was created last by `calls`, if any was. */
  ghost function LastCreated(t: Triggers, calls: seq<Call>): (r: Option<nat>)
    requires t.Valid()
    ensures r.Some? ==> r.value < MAX_NUM_EVENT_TRIGGERS
  {
    if calls == [] then None
    else
      var front, c := calls[..|calls| - 1], calls[|calls| - 1];
      var n := if c.CreateEventTrigger? then Created(CalledAll(t, front), c.proc).1 else None;
      if n.Some? then n else LastCreated(t, front)
  }

  lemma {:induction false} LastIsCreated(t: Triggers, calls: seq<Call>)
    requires t.Valid()
    ensures CalledAll(t, calls).last == match LastCreated(t, calls) { case None => t.last case Some(n) => n }
    decreases |calls|
  {
    hide Filled, FreeNumbers;
    if calls != [] { LastIsCreated(t, calls[..|calls| - 1]); }
  }

  /** The fast path calls what the general search would call. It leaves the same state exactly when the handler (if there is
      one) creates no trigger, or creates the one used last as the last of all. */
  lemma {:induction false} FastPathIsSearchIff(t: Triggers, script: seq<Call>)
    requires t.Valid() && t.awaiting == {t.last}
    ensures Served(t, script).1 == Some(Searched(t, script).1)
    ensures Served(t, script).0.(last := t.last) == Searched(t, script).0
    ensures Served(t, script).0 == Searched(t, script).0 <==>
            t.handlers[t.last] == 0 || LastCreated(t.(awaiting := {}), script) in {None, Some(t.last)}
  {
    hide CalledAll, LastCreated;
    assert IsNext(t.awaiting, t.last, t.last);
    NextUnique(t.awaiting, t.last, t.last, Next(t.awaiting, t.last));
    assert t.awaiting - {t.last} == {};
    LastIsCreated(t.(awaiting := {}), script);
  }

  /** The calls try to create a trigger when a number is free: one was to begin with, or has been set free before. */
  ghost predicate Creates(t: Triggers, calls: seq<Call>)
    requires t.Valid()
  {
    exists i :: 0 <= i < |calls| && calls[i].CreateEventTrigger? && (FreeNumbers(t.handlers) != {} || SetsFree(calls[..i]))
  }

  ghost predicate SetsFree(calls: seq<Call>) {
    exists i :: 0 <= i < |calls| && calls[i].DeleteEventTrigger? && Ids(calls[i].id) != {}
  }

  lemma {:induction false} SetsFreeStep(calls: seq<Call>, c: Call)
    ensures SetsFree(calls + [c]) <==> SetsFree(calls) || (c.DeleteEventTrigger? && Ids(c.id) != {})
  {
    hide Ids;
    var all := calls + [c];
    assert all[|calls|] == c;
    assert forall i :: 0 <= i < |calls| ==> all[i] == calls[i];
  }

  lemma {:induction false} CreatesStep(t: Triggers, calls: seq<Call>, c: Call)
    requires t.Valid()
    ensures Creates(t, calls + [c]) <==>
            Creates(t, calls) || (c.CreateEventTrigger? && (FreeNumbers(t.handlers) != {} || SetsFree(calls)))
  {
    hide SetsFree, FreeNumbers;
    var all := calls + [c];
    assert all[|calls|] == c && all[..|calls|] == calls;
    assert forall i :: 0 <= i < |calls| ==> all[i] == calls[i] && all[..i] == calls[..i];
  }

  lemma {:induction false} DeletedFrees(t: Triggers, ids: set<nat>)
    requires t.Valid() && Numbers(ids)
    ensures FreeNumbers(Deleted(t, ids).handlers) == FreeNumbers(t.handlers) + ids
  {
  }

  /** Whether a trigger is created can be told from the calls alone. */
  lemma {:induction false} CreatedIff(t: Triggers, calls: seq<Call>)
    requires t.Valid()
    ensures LastCreated(t, calls).Some? <==> Creates(t, calls)
    ensures LastCreated(t, calls).None? ==>
              (FreeNumbers(CalledAll(t, calls).handlers) != {} <==> FreeNumbers(t.handlers) != {} || SetsFree(calls))
    decreases |calls|
  {
    hide FreeNumbers, SetsFree, Creates, Filled;
    if calls == [] {
      NoCalls(t);
    } else {
      var front, c := calls[..|calls| - 1], calls[|calls| - 1];
      assert calls == front + [c];
      CreatedIff(t, front);
      CreatesStep(t, front, c);
      SetsFreeStep(front, c);
      if c.DeleteEventTrigger? { DeletedFrees(CalledAll(t, front), Ids(c.id)); }
    }
  }

  lemma {:induction false} NoCalls(t: Triggers)
    requires t.Valid()
    ensures !Creates(t, []) && !SetsFree([])
  {
  }

  /** A trigger that has a handler and is not deleted is not created anew. */
  lemma {:induction false} NotCreatedAnew(t: Triggers, calls: seq<Call>, n: nat)
    requires t.Valid() && n < MAX_NUM_EVENT_TRIGGERS && t.handlers[n] != 0 && Spares(calls, n)
    ensures CalledAll(t, calls).handlers[n] != 0 && LastCreated(t, calls) != Some(n)
    decreases |calls|
  {
    hide Ids;
    if calls != [] {
      var front, c := calls[..|calls| - 1], calls[|calls| - 1];
      assert c in calls && forall d :: d in front ==> d in calls;
      NotCreatedAnew(t, front, n);
    }
  }

  /** For a handler that does not delete its own trigger, the fast path leaves the same state exactly when it creates none. */
  lemma {:induction false} FastPathUnlessCreates(t: Triggers, script: seq<Call>)
    requires t.Valid() && t.awaiting == {t.last} && t.handlers[t.last] != 0 && Spares(script, t.last)
    ensures Served(t, script).0 == Searched(t, script).0 <==> !Creates(t, script)
  {
    hide Served, Searched, LastCreated, Creates, Spares, CalledAll;
    var u := t.(awaiting := {});
    FastPathIsSearchIff(t, script);
    CreatedIff(u, script);
    NotCreatedAnew(u, script, t.last);
    SameCreates(t, u, script);
  }

  lemma {:induction false} SameCreates(t: Triggers, u: Triggers, calls: seq<Call>)
    requires t.Valid() && u.Valid() && t.handlers == u.handlers
    ensures Creates(t, calls) <==> Creates(u, calls)
  {
    hide SetsFree, FreeNumbers;
  }

  /** A handler that creates no trigger at all makes no difference. */
  lemma {:induction false} FastPathWithoutCreation(t: Triggers, script: seq<Call>)
    requires t.Valid() && t.awaiting == {t.last} && CreatesNone(script)
    ensures Served(t, script) == (Searched(t, script).0, Some(Searched(t, script).1))
  {
    hide Served, Searched, LastCreated, CalledAll;
    FastPathIsSearchIff(t, script);
    NoneCreated(t.(awaiting := {}), script);
  }

  lemma {:induction false} NoneCreated(t: Triggers, calls: seq<Call>)
    requires t.Valid() && CreatesNone(calls)
    ensures LastCreated(t, calls) == None
    decreases |calls|
  {
    hide Created, CalledAll;
    if calls != [] {
      assert calls[|calls| - 1] in calls && forall d :: d in calls[..|calls| - 1] ==> d in calls;
      NoneCreated(t, calls[..|calls| - 1]);
    }
  }

  /** With all numbers in use, a handler that deletes its trigger and creates another one gets the same number back. */
  lemma {:induction false} DeletedAndCreated(t: Triggers, proc: Pointer)
    requires t.Valid() && t.awaiting == {t.last} && FreeNumbers(t.handlers) == {}
    ensures var script := [DeleteEventTrigger(MaskOf(t.last)), CreateEventTrigger(proc)];
      Creates(t, script) && Served(t, script).0 == Searched(t, script).0
  {
    hide Served, Searched, CalledAll, LastCreated, Ids, MaskOf, FreeNumbers, Filled;
    var d, c := DeleteEventTrigger(MaskOf(t.last)), CreateEventTrigger(proc);
    var u := t.(awaiting := {});
    IdsOfMask(t.last);
    FastPathIsSearchIff(t, [d, c]);
    var v := Deleted(u, {t.last});
    DeletedFrees(u, {t.last});
    assert CalledAll(u, [d]) == v by { CalledOne(u, [], d); assert [] + [d] == [d]; }
    assert Next({t.last}, t.last) == t.last;
    assert [d, c][..1] == [d];
    LastOfTwo(u, d, c);
    assert SetsFree([d]) by { assert [d][0] == d; }
    assert Creates(t, [d, c]) by { assert [d, c][1] == c && [d, c][..1] == [d]; }
  }

  lemma {:induction false} LastOfTwo(t: Triggers, d: Call, c: Call)
    requires t.Valid() && c.CreateEventTrigger? && Created(CalledAll(t, [d]), c.proc).1.Some?
    ensures LastCreated(t, [d, c]) == Created(CalledAll(t, [d]), c.proc).1
  {
    hide Created, CalledAll;
    assert [d, c][..1] == [d];
  }

  // ---------- No trigger waits for more than 32 steps ----------

  /** One step of the event loop: the calls made before triggers are served, and those of the handler that is called. */
  datatype Turn = Turn(before: seq<Call>, script: seq<Call>)

  ghost function TurnTaken(t: Triggers, turn: Turn): (r: (Triggers, Option<Handled>))
    requires t.Valid()
    ensures r.0.Valid()
  {
    Served(CalledAll(t, turn.before), turn.script)
  }

  /** The triggers taken up in a run, step by step. */
  ghost function RunTurns(t: Triggers, turns: seq<Turn>): (h: seq<Option<Handled>>)
    requires t.Valid()
    ensures |h| == |turns|
    decreases |turns|
  {
    if turns == [] then [] else [TurnTaken(t, turns[0]).1] + RunTurns(TurnTaken(t, turns[0]).0, turns[1..])
  }

  ghost predicate Spares(calls: seq<Call>, n: nat) {
    forall c :: c in calls && c.DeleteEventTrigger? ==> n !in Ids(c.id)
  }

  predicate CreatesNone(calls: seq<Call>) {
    forall c :: c in calls ==> !c.CreateEventTrigger?
  }

  lemma {:induction false} CallsKeepAwaiting(t: Triggers, calls: seq<Call>, n: nat)
    requires t.Valid() && n in t.awaiting && Spares(calls, n)
    ensures n in CalledAll(t, calls).awaiting
    ensures CreatesNone(calls) ==> CalledAll(t, calls).last == t.last
    decreases |calls|
  {
    hide Created, Filled;
    if calls != [] {
      var front, c := calls[..|calls| - 1], calls[|calls| - 1];
      assert c in calls && forall d :: d in front ==> d in calls;
      CallsKeepAwaiting(t, front, n);
      CreateKeepsAwaiting(CalledAll(t, front), c);
    }
  }

  lemma {:induction false} CreateKeepsAwaiting(t: Triggers, call: Call)
    requires t.Valid()
    ensures call.CreateEventTrigger? ==> Called(t, call).awaiting == t.awaiting
  {
  }

  /** An awaited trigger is taken up, or comes closer. */
  lemma {:induction false} ComesCloser(t: Triggers, script: seq<Call>, n: nat)
    requires t.Valid() && n in t.awaiting && Spares(script, n)
    ensures var (u, h) := Served(t, script);
      && h.Some?
      && (h.value.num != n ==> n in u.awaiting && Distance(u.last, n) < Distance(t.last, n))
  {
    hide CalledAll;
    if t.awaiting != {t.last} {
      var m := Next(t.awaiting, t.last);
      if m != n { CallsKeepAwaiting(t.(awaiting := t.awaiting - {m}), script, n); }
    }
  }

  /** The trigger created last lies at or behind `n` in rotation, so that the search will pass others before it. */
  ghost predicate PassedOver(t: Triggers, calls: seq<Call>, n: nat)
    requires t.Valid() && n < MAX_NUM_EVENT_TRIGGERS
  {
    var c := LastCreated(t, calls);
    c.Some? && c.value != t.last && Distance(t.last, c.value) >= Distance(t.last, n)
  }

  /** Calls between the turns leave an awaited trigger no farther away exactly when it is not passed over. */
  lemma {:induction false} NoFartherIff(t: Triggers, calls: seq<Call>, n: nat)
    requires t.Valid() && n < MAX_NUM_EVENT_TRIGGERS
    ensures Distance(CalledAll(t, calls).last, n) <= Distance(t.last, n) <==> !PassedOver(t, calls, n)
  {
    hide CalledAll, LastCreated;
    LastIsCreated(t, calls);
  }

  /** In no turn is the awaited trigger `n` passed over by a trigger created between the turns, or deleted. */
  ghost predicate NeverPassed(t: Triggers, turns: seq<Turn>, n: nat)
    requires t.Valid() && n < MAX_NUM_EVENT_TRIGGERS
    decreases |turns|
  {
    turns == []
    || (&& !PassedOver(t, turns[0].before, n) && Spares(turns[0].before, n) && Spares(turns[0].script, n)
        && NeverPassed(TurnTaken(t, turns[0]).0, turns[1..], n))
  }

  /** Triggers may be created, then: an awaited trigger that is neither passed over nor deleted is taken up within 32 steps,
      whatever the handlers do. */
  lemma {:induction false} ServedUnlessPassedOver(t: Triggers, turns: seq<Turn>, n: nat)
    requires t.Valid() && n in t.awaiting && |turns| > Distance(t.last, n) && NeverPassed(t, turns, n)
    ensures exists i :: 0 <= i <= Distance(t.last, n) && RunTurns(t, turns)[i].Some? && RunTurns(t, turns)[i].value.num == n
    decreases |turns|
  {
    hide CalledAll, Served, Spares, PassedOver;
    var t' := CalledAll(t, turns[0].before);
    CallsKeepAwaiting(t, turns[0].before, n);
    NoFartherIff(t, turns[0].before, n);
    ComesCloser(t', turns[0].script, n);
    var (u, h) := Served(t', turns[0].script);
    var run := RunTurns(t, turns);
    if h.value.num == n {
      assert run[0] == h;
    } else {
      ServedUnlessPassedOver(u, turns[1..], n);
      var i :| 0 <= i <= Distance(u.last, n) && RunTurns(u, turns[1..])[i].Some? && RunTurns(u, turns[1..])[i].value.num == n;
      assert run[i + 1] == RunTurns(u, turns[1..])[i];
    }
  }

  ghost predicate Undisturbed(turns: seq<Turn>, n: nat) {
    forall i :: 0 <= i < |turns| ==> CreatesNone(turns[i].before) && Spares(turns[i].before, n) && Spares(turns[i].script, n)
  }

  lemma {:induction false} UndisturbedNeverPassed(t: Triggers, turns: seq<Turn>, n: nat)
    requires t.Valid() && n < MAX_NUM_EVENT_TRIGGERS && Undisturbed(turns, n)
    ensures NeverPassed(t, turns, n)
    decreases |turns|
  {
    hide TurnTaken, Spares, CreatesNone;
    if turns != [] {
      NoneCreated(t, turns[0].before);
      UndisturbedNeverPassed(TurnTaken(t, turns[0]).0, turns[1..], n);
    }
  }

  /** In particular when no trigger is created between the turns. */
  lemma {:induction false} ServedWithin32Steps(t: Triggers, turns: seq<Turn>, n: nat)
    requires t.Valid() && n in t.awaiting && |turns| > Distance(t.last, n) && Undisturbed(turns, n)
    ensures exists i :: 0 <= i <= Distance(t.last, n) && RunTurns(t, turns)[i].Some? && RunTurns(t, turns)[i].value.num == n
  {
    hide RunTurns, NeverPassed, Undisturbed;
    UndisturbedNeverPassed(t, turns, n);
    ServedUnlessPassedOver(t, turns, n);
  }

  // ---------- A handler gets the data its trigger was triggered with ----------

  /** No call triggers or deletes trigger `n`. */
  ghost predicate Untouched(calls: seq<Call>, n: nat) {
    forall c :: c in calls ==> (c.DeleteEventTrigger? ==> n !in Ids(c.id)) && (c.TriggerEvent? ==> n !in Ids(c.id))
  }

  /** Trigger `n` awaits, with handler `proc` and data `data`. */
  ghost predicate Armed(t: Triggers, n: nat, proc: Pointer, data: Pointer)
    requires t.Valid() && n < MAX_NUM_EVENT_TRIGGERS
  {
    n in t.awaiting && t.handlers[n] == proc != 0 && t.datas[n] == data
  }

  lemma {:induction false} StaysArmed(t: Triggers, calls: seq<Call>, n: nat, proc: Pointer, data: Pointer)
    requires t.Valid() && n < MAX_NUM_EVENT_TRIGGERS && Armed(t, n, proc, data) && Untouched(calls, n)
    ensures Armed(CalledAll(t, calls), n, proc, data)
    decreases |calls|
  {
    hide Ids;
    if calls != [] {
      var front, c := calls[..|calls| - 1], calls[|calls| - 1];
      assert c in calls && forall d :: d in front ==> d in calls;
      StaysArmed(t, front, n, proc, data);
    }
  }

  /** In a step an armed trigger is taken up with its handler and data, or stays armed. */
  lemma {:induction false} ArmedStep(t: Triggers, turn: Turn, n: nat, proc: Pointer, data: Pointer)
    requires t.Valid() && n < MAX_NUM_EVENT_TRIGGERS && Armed(t, n, proc, data) && Untouched(turn.before, n) && Untouched(turn.script, n)
    ensures var (u, h) := TurnTaken(t, turn);
      h.Some? && if h.value.num == n then h.value == Handled(n, proc, data) else Armed(u, n, proc, data)
  {
    hide CalledAll, Untouched;
    var t' := CalledAll(t, turn.before);
    StaysArmed(t, turn.before, n, proc, data);
    var m := if t'.awaiting == {t'.last} then t'.last else Next(t'.awaiting, t'.last);
    if m != n { StaysArmed(t'.(awaiting := t'.awaiting - {m}), turn.script, n, proc, data); }
  }

  ghost predicate AllUntouched(turns: seq<Turn>, n: nat) {
    forall i :: 0 <= i < |turns| ==> Untouched(turns[i].before, n) && Untouched(turns[i].script, n)
  }

  /** Whenever an armed trigger that nobody touches is taken up for the first time, it is with its handler and data. */
  lemma {:induction false} TakenUpAsArmed(t: Triggers, turns: seq<Turn>, n: nat, proc: Pointer, data: Pointer, i: nat)
    requires t.Valid() && n < MAX_NUM_EVENT_TRIGGERS && Armed(t, n, proc, data) && AllUntouched(turns, n) && i < |turns|
    requires forall j :: 0 <= j < i ==> RunTurns(t, turns)[j].Some? ==> RunTurns(t, turns)[j].value.num != n
    ensures RunTurns(t, turns)[i].Some? && (RunTurns(t, turns)[i].value.num == n ==> RunTurns(t, turns)[i].value == Handled(n, proc, data))
    decreases |turns|
  {
    hide TurnTaken, Armed, Untouched;
    ArmedStep(t, turns[0], n, proc, data);
    var run := RunTurns(t, turns);
    if i > 0 {
      assert run[0] == TurnTaken(t, turns[0]).1;
      var u := TurnTaken(t, turns[0]).0;
      assert run[1..] == RunTurns(u, turns[1..]);
      TakenUpAsArmed(u, turns[1..], n, proc, data, i - 1);
    }
  }

  /** A trigger with a handler that is triggered, and then neither triggered again, deleted nor passed over, is taken up within its
      distance in rotation, with its handler and the data it was triggered with. */
  lemma {:induction false} TriggeredIsHandled(t: Triggers, id: EventTriggerId, data: Pointer, turns: seq<Turn>, n: nat)
    requires t.Valid() && n < MAX_NUM_EVENT_TRIGGERS && n in Ids(id) && t.handlers[n] != 0
    requires var u := Called(t, TriggerEvent(id, data)); |turns| > Distance(u.last, n) && NeverPassed(u, turns, n)
    requires AllUntouched(turns, n)
    ensures var u := Called(t, TriggerEvent(id, data));
      exists i :: 0 <= i <= Distance(t.last, n) && RunTurns(u, turns)[i] == Some(Handled(n, t.handlers[n], data))
  {
    hide Ids, RunTurns, NeverPassed, AllUntouched;
    var u := Called(t, TriggerEvent(id, data));
    ServedUnlessPassedOver(u, turns, n);
    var i :| 0 <= i <= Distance(u.last, n) && RunTurns(u, turns)[i].Some? && RunTurns(u, turns)[i].value.num == n;
    var first := FirstTaken(RunTurns(u, turns), n, i);
    TakenUpAsArmed(u, turns, n, t.handlers[n], data, first);
  }

  lemma {:induction false} FirstTaken(run: seq<Option<Handled>>, n: nat, i: nat) returns (first: nat)
    requires i < |run| && run[i].Some? && run[i].value.num == n
    ensures first <= i && run[first].Some? && run[first].value.num == n
    ensures forall j :: 0 <= j < first ==> run[j].Some? ==> run[j].value.num != n
  {
    if j :| 0 <= j < i && run[j].Some? && run[j].value.num == n { first := FirstTaken(run, n, j); } else { first := i; }
  }

  /** A trigger is taken up at most once for each time it is triggered. */
  lemma {:induction false} TakenUpOnce(t: Triggers, script: seq<Call>, n: nat)
    requires t.Valid() && Untouched(script, n) && Served(t, script).1.Some? && Served(t, script).1.value.num == n
    ensures n in t.awaiting && n !in Served(t, script).0.awaiting
  {
    hide CalledAll, Untouched;
    var u := t.(awaiting := t.awaiting - {n});
    StaysQuiet(u, script, n);
  }

  lemma {:induction false} StaysQuiet(t: Triggers, calls: seq<Call>, n: nat)
    requires t.Valid() && n !in t.awaiting && Untouched(calls, n)
    ensures n !in CalledAll(t, calls).awaiting
    decreases |calls|
  {
    hide Ids, Filled, Created;
    if calls != [] {
      var front, c := calls[..|calls| - 1], calls[|calls| - 1];
      assert c in calls && forall d :: d in front ==> d in calls;
      StaysQuiet(t, front, n);
      CreateKeepsAwaiting(CalledAll(t, front), c);
    }
  }

  // ---------- Creating triggers can starve one ----------

  /** Trigger 5 waits; trigger 1 was used last; all numbers but 0 are allocated. */
  function Starving(): Triggers {
    Triggers(seq(MAX_NUM_EVENT_TRIGGERS, n => if n == 0 then 0 else 7), seq(MAX_NUM_EVENT_TRIGGERS, _ => 0), {5}, 1)
  }

  /** A trigger is created and deleted again, and trigger 1 is triggered. */
  function StarvingTurn(): Turn {
    Turn([CreateEventTrigger(7), DeleteEventTrigger(MaskOf(0)), TriggerEvent(MaskOf(1), 0)], [])
  }

  lemma {:induction false} StarvingCalls()
    ensures CalledAll(Starving(), StarvingTurn().before) == Starving().(awaiting := {1, 5}, last := 0)
  {
    hide Created, Deleted, Triggered, Ids, MaskOf;
    StarvingCreates();
    IdsOfMask(0);
    IdsOfMask(1);
    StarvingDeletes();
    StarvingTriggers();
    CalledThree(Starving(), CreateEventTrigger(7), DeleteEventTrigger(MaskOf(0)), TriggerEvent(MaskOf(1), 0));
  }

  lemma {:induction false} CalledThree(t: Triggers, a: Call, b: Call, c: Call)
    requires t.Valid()
    ensures CalledAll(t, [a, b, c]) == Called(Called(Called(t, a), b), c)
  {
    hide Called;
    CalledOne(t, [], a);
    CalledOne(t, [a], b);
    CalledOne(t, [a, b], c);
    assert [a] + [b] == [a, b] && [a, b] + [c] == [a, b, c] && [] + [a] == [a];
  }

  lemma {:induction false} CalledOne(t: Triggers, calls: seq<Call>, c: Call)
    requires t.Valid()
    ensures CalledAll(t, calls + [c]) == Called(CalledAll(t, calls), c)
    ensures CalledAll(t, []) == t
  {
    hide Called;
    assert (calls + [c])[..|calls|] == calls;
  }

  lemma {:induction false} StarvingCreates()
    ensures var t := Starving(); Created(t, 7) == (Triggers(t.handlers[0 := 7], t.datas, {5}, 0), Some(0))
  {
    var t := Starving();
    assert FreeNumbers(t.handlers) == {0};
    assert t.datas[0 := 0] == t.datas;
  }

  lemma {:induction false} StarvingDeletes()
    ensures var t := Starving(); Deleted(Triggers(t.handlers[0 := 7], t.datas, {5}, 0), {0}) == t.(last := 0)
  {
    var t := Starving();
    assert Filled(t.handlers[0 := 7], {0}, 0) == t.handlers;
    assert Filled(t.datas, {0}, 0) == t.datas;
  }

  lemma {:induction false} StarvingTriggers()
    ensures var t := Starving(); Triggered(t.(last := 0), {1}, 0) == t.(awaiting := {1, 5}, last := 0)
  {
    var t := Starving();
    assert Filled(t.datas, {1}, 0) == t.datas;
  }

  lemma {:induction false} StarvingRepeats()
    ensures TurnTaken(Starving(), StarvingTurn()) == (Starving(), Some(Handled(1, 7, 0)))
  {
    hide CalledAll;
    StarvingCalls();
    var t := CalledAll(Starving(), StarvingTurn().before);
    assert IsNext({1, 5}, 0, 1);
    NextUnique({1, 5}, 0, 1, Next({1, 5}, 0));
    var u := t.(awaiting := {5});
    assert {1, 5} - {1} == {5};
    assert CalledAll(u, []) == u by { CalledOne(u, [], CreateEventTrigger(0)); }
    assert TakenUp(t, 1, []) == (u, Handled(1, 7, 0));
    assert u.(last := 1) == Starving();
  }

  /** When a trigger is created in every turn, an awaited one can wait for ever. */
  lemma {:induction false} CreationCanStarve(turns: seq<Turn>)
    requires forall i :: 0 <= i < |turns| ==> turns[i] == StarvingTurn()
    ensures 5 in Starving().awaiting && Starving().Valid()
    ensures forall i :: 0 <= i < |turns| ==> RunTurns(Starving(), turns)[i] == Some(Handled(1, 7, 0))
    decreases |turns|
  {
    hide TurnTaken, Starving, StarvingTurn;
    StarvingRepeats();
    if turns != [] { CreationCanStarve(turns[1..]); }
    StarvingValid();
  }

  lemma {:induction false} StarvingValid()
    ensures 5 in Starving().awaiting && Starving().Valid()
  {
  }
}
