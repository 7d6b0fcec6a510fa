/** The scheduler's trigger fields, updated in place. */
module TriggerSchedulers {
  import opened Options
  import opened TriggerMasks
  import opened EventTriggers

  class BasicTaskScheduler0 {
    var fTriggersAwaitingHandling: EventTriggerId
    var fLastUsedTriggerMask: EventTriggerId
    var fLastUsedTriggerNum: nat
    const fTriggeredEventHandlers: array<Pointer>
    const fTriggeredEventClientDatas: array<Pointer>

    ghost predicate Valid()
      reads this, fTriggeredEventHandlers, fTriggeredEventClientDatas
    {
      && fTriggeredEventHandlers != fTriggeredEventClientDatas
      && fTriggeredEventHandlers.Length == fTriggeredEventClientDatas.Length == MAX_NUM_EVENT_TRIGGERS
      && fLastUsedTriggerNum < MAX_NUM_EVENT_TRIGGERS
      && fLastUsedTriggerMask == MaskOf(fLastUsedTriggerNum)
    }

    ghost function Model(): (t: Triggers)
      reads this, fTriggeredEventHandlers, fTriggeredEventClientDatas
      requires Valid()
      ensures t.Valid()
    {
      Triggers(fTriggeredEventHandlers[..], fTriggeredEventClientDatas[..], Ids(fTriggersAwaitingHandling), fLastUsedTriggerNum)
    }

    constructor ()
      ensures Valid() && fresh(fTriggeredEventHandlers) && fresh(fTriggeredEventClientDatas)
      ensures Model() == Triggers(seq(MAX_NUM_EVENT_TRIGGERS, _ => 0), seq(MAX_NUM_EVENT_TRIGGERS, _ => 0), {}, 31)
    {
      hide MaskOf, MaskUnion;
      fTriggersAwaitingHandling, fLastUsedTriggerMask, fLastUsedTriggerNum := 0, 1, MAX_NUM_EVENT_TRIGGERS - 1;
      fTriggeredEventHandlers := new Pointer[MAX_NUM_EVENT_TRIGGERS](_ => 0);
      fTriggeredEventClientDatas := new Pointer[MAX_NUM_EVENT_TRIGGERS](_ => 0);
      MaskTable();
      NoIds(0);
    }

    /** One turn of the searches: the next number and its mask. */
    method Advance(i: nat, mask: EventTriggerId) returns (i': nat, mask': EventTriggerId)
      requires i < MAX_NUM_EVENT_TRIGGERS && mask == MaskOf(i)
      ensures i' == (i + 1) % MAX_NUM_EVENT_TRIGGERS && mask' == MaskOf(i')
    {
      hide MaskOf, Half;
      NextMask(i);
      i' := (i + 1) % MAX_NUM_EVENT_TRIGGERS;
      mask' := Half(mask);
      if mask' == 0 { mask' := 0x8000_0000; }
    }

    method CreateEventTrigger(eventHandlerProc: Pointer) returns (id: EventTriggerId)
      requires Valid()
      modifies this`fLastUsedTriggerMask, this`fLastUsedTriggerNum, fTriggeredEventHandlers, fTriggeredEventClientDatas
      ensures Valid() && Model() == Created(old(Model()), eventHandlerProc).0
      ensures id == match Created(old(Model()), eventHandlerProc).1 { case None => 0 case Some(n) => MaskOf(n) }
    {
      hide MaskOf, Ids;
      ghost var t := Model();
      ghost var last, free, k := fLastUsedTriggerNum, FreeNumbers(t.handlers), 0;
      var i, mask := fLastUsedTriggerNum, fLastUsedTriggerMask;
      while true
        invariant Valid() && Model() == t
        invariant k < MAX_NUM_EVENT_TRIGGERS && i == (last + k) % MAX_NUM_EVENT_TRIGGERS && mask == MaskOf(i)
        invariant forall n :: n in free ==> Distance(last, n) >= k
        decreases MAX_NUM_EVENT_TRIGGERS - k
      {
        i, mask := Advance(i, mask);
        k := k + 1;
        if fTriggeredEventHandlers[i] == 0 {
          FoundNext(free, last, i, k - 1);
          fTriggeredEventHandlers[i] := eventHandlerProc;
          fTriggeredEventClientDatas[i] := 0;
          fLastUsedTriggerMask := mask;
          fLastUsedTriggerNum := i;
          return mask;
        }
        NotNext(free, last, i, k - 1);
        if i == fLastUsedTriggerNum { break; }
      }
      NoneLeft(free, last);
      return 0;
    }

    method DeleteEventTrigger(eventTriggerId: EventTriggerId)
      requires Valid()
      modifies this`fTriggersAwaitingHandling, fTriggeredEventHandlers, fTriggeredEventClientDatas
      ensures Valid() && Model() == Deleted(old(Model()), Ids(eventTriggerId))
      ensures forall n :: 0 <= n < MAX_NUM_EVENT_TRIGGERS ==>
                && fTriggeredEventHandlers[n] == (if n in Ids(eventTriggerId) then 0 else old(fTriggeredEventHandlers[n]))
                && fTriggeredEventClientDatas[n] == (if n in Ids(eventTriggerId) then 0 else old(fTriggeredEventClientDatas[n]))
      ensures Ids(fTriggersAwaitingHandling) == old(Ids(fTriggersAwaitingHandling)) - Ids(eventTriggerId)
    {
      hide MaskOf, Ids, AndNot;
      ghost var t := Model();
      IdsAndNot(fTriggersAwaitingHandling, eventTriggerId);
      fTriggersAwaitingHandling := AndNot(fTriggersAwaitingHandling, eventTriggerId);
      if eventTriggerId == fLastUsedTriggerMask {
        IdsOfMask(fLastUsedTriggerNum);
        fTriggeredEventHandlers[fLastUsedTriggerNum] := 0;
        fTriggeredEventClientDatas[fLastUsedTriggerNum] := 0;
      } else {
        ClearMasked(eventTriggerId);
      }
    }

    /** The loop of deleteEventTrigger, for any combination of triggers. */
    method ClearMasked(eventTriggerId: EventTriggerId)
      requires Valid()
      modifies fTriggeredEventHandlers, fTriggeredEventClientDatas
      ensures fTriggeredEventHandlers[..] == Filled(old(fTriggeredEventHandlers[..]), Ids(eventTriggerId), 0)
      ensures fTriggeredEventClientDatas[..] == Filled(old(fTriggeredEventClientDatas[..]), Ids(eventTriggerId), 0)
    {
      hide MaskOf, Half, And, Filled;
      ghost var handlers, datas, ids := fTriggeredEventHandlers[..], fTriggeredEventClientDatas[..], Ids(eventTriggerId);
      FirstMask();
      var mask: EventTriggerId := 0x8000_0000;
      for i := 0 to MAX_NUM_EVENT_TRIGGERS
        invariant mask == MaskOf(i)
        invariant fTriggeredEventHandlers[..] == Filled(handlers, Under(ids, i), 0)
        invariant fTriggeredEventClientDatas[..] == Filled(datas, Under(ids, i), 0)
      {
        FilledOne(handlers, ids, 0, i);
        FilledOne(datas, ids, 0, i);
        if And(eventTriggerId, mask) != 0 {
          fTriggeredEventHandlers[i] := 0;
          fTriggeredEventClientDatas[i] := 0;
        }
        MaskStep(i);
        mask := Half(mask);
      }
      UnderAll(ids);
    }

    method TriggerEvent(eventTriggerId: EventTriggerId, clientData: Pointer)
      requires Valid()
      modifies this`fTriggersAwaitingHandling, fTriggeredEventClientDatas
      ensures Valid() && Model() == Triggered(old(Model()), Ids(eventTriggerId), clientData)
      ensures forall n :: 0 <= n < MAX_NUM_EVENT_TRIGGERS ==>
                fTriggeredEventClientDatas[n] == if n in Ids(eventTriggerId) then clientData else old(fTriggeredEventClientDatas[n])
      ensures Ids(fTriggersAwaitingHandling) == old(Ids(fTriggersAwaitingHandling)) + Ids(eventTriggerId)
    {
      hide MaskOf, Half, And, Filled, Or;
      ghost var handlers, datas, ids := fTriggeredEventHandlers[..], fTriggeredEventClientDatas[..], Ids(eventTriggerId);
      FirstMask();
      var mask: EventTriggerId := 0x8000_0000;
      for i := 0 to MAX_NUM_EVENT_TRIGGERS
        invariant mask == MaskOf(i) && fTriggeredEventHandlers[..] == handlers
        invariant fTriggersAwaitingHandling == old(fTriggersAwaitingHandling)
        invariant fTriggeredEventClientDatas[..] == Filled(datas, Under(ids, i), clientData)
      {
        FilledOne(datas, ids, clientData, i);
        if And(eventTriggerId, mask) != 0 {
          fTriggeredEventClientDatas[i] := clientData;
        }
        MaskStep(i);
        mask := Half(mask);
      }
      UnderAll(ids);
      IdsOr(fTriggersAwaitingHandling, eventTriggerId);
      fTriggersAwaitingHandling := Or(fTriggersAwaitingHandling, eventTriggerId);
    }

    /** What an event handler does with the triggers. */
    method RunScript(script: seq<Call>)
      requires Valid()
      modifies this, fTriggeredEventHandlers, fTriggeredEventClientDatas
      ensures Valid() && Model() == CalledAll(old(Model()), script)
    {
      hide Created, Deleted, Triggered;
      ghost var t := Model();
      for i := 0 to |script|
        invariant Valid() && Model() == CalledAll(t, script[..i])
      {
        CalledOne(t, script[..i], script[i]);
        assert script[..i + 1] == script[..i] + [script[i]];
        match script[i] {
          case CreateEventTrigger(proc) => var _ := CreateEventTrigger(proc);
          case DeleteEventTrigger(id) => DeleteEventTrigger(id);
          case TriggerEvent(id, clientData) => TriggerEvent(id, clientData);
        }
      }
      assert script[..|script|] == script;
    }

    /** Takes up trigger `i`: it is no longer awaited, and its handler is called. */
    method TakeUp(i: nat, mask: EventTriggerId, script: seq<Call>) returns (handled: Handled)
      requires Valid() && i < MAX_NUM_EVENT_TRIGGERS && mask == MaskOf(i)
      modifies this, fTriggeredEventHandlers, fTriggeredEventClientDatas
      ensures Valid() && (Model(), handled) == TakenUp(old(Model()), i, script)
    {
      hide MaskOf, Ids, AndNot, CalledAll;
      IdsOfMask(i);
      IdsAndNot(fTriggersAwaitingHandling, mask);
      fTriggersAwaitingHandling := AndNot(fTriggersAwaitingHandling, mask);
      handled := Handled(i, fTriggeredEventHandlers[i], fTriggeredEventClientDatas[i]);
      if fTriggeredEventHandlers[i] != 0 {
        RunScript(script);
      }
    }

    /** The part of SingleStep that serves triggers; `script` is what the handler does if one is called. */
    method ServeTrigger(script: seq<Call>) returns (handled: Option<Handled>)
      requires Valid()
      modifies this, fTriggeredEventHandlers, fTriggeredEventClientDatas
      ensures Valid() && (Model(), handled) == Served(old(Model()), script)
    {
      hide MaskOf, Ids, TakenUp;
      NoIds(fTriggersAwaitingHandling);
      IsMaskOf(fTriggersAwaitingHandling, fLastUsedTriggerNum);
      if fTriggersAwaitingHandling == 0 { return None; }
      var h;
      if fTriggersAwaitingHandling == fLastUsedTriggerMask {
        h := TakeUp(fLastUsedTriggerNum, fLastUsedTriggerMask, script);
      } else {
        h := SearchTriggers(script);
      }
      return Some(h);
    }

    /** The general search of SingleStep. */
    method SearchTriggers(script: seq<Call>) returns (handled: Handled)
      requires Valid() && fTriggersAwaitingHandling != 0
      modifies this, fTriggeredEventHandlers, fTriggeredEventClientDatas
      ensures Ids(old(fTriggersAwaitingHandling)) != {}
      ensures Valid() && (Model(), handled) == Searched(old(Model()), script)
    {
      hide MaskOf, And, TakenUp, Ids;
      NoIds(fTriggersAwaitingHandling);
      ghost var t := Model();
      ghost var last, k := fLastUsedTriggerNum, 0;
      var i, mask := fLastUsedTriggerNum, fLastUsedTriggerMask;
      while true
        invariant Valid() && Model() == t
        invariant k < MAX_NUM_EVENT_TRIGGERS && i == (last + k) % MAX_NUM_EVENT_TRIGGERS && mask == MaskOf(i)
        invariant forall n :: n in t.awaiting ==> Distance(last, n) >= k
        decreases MAX_NUM_EVENT_TRIGGERS - k
      {
        i, mask := Advance(i, mask);
        k := k + 1;
        InIds(fTriggersAwaitingHandling, i);
        if And(fTriggersAwaitingHandling, mask) != 0 {
          FoundNext(t.awaiting, last, i, k - 1);
          handled := TakeUp(i, mask, script);
          fLastUsedTriggerMask := mask;
          fLastUsedTriggerNum := i;
          return;
        }
        NotNext(t.awaiting, last, i, k - 1);
        if i == fLastUsedTriggerNum { break; }
      }
      assert false;
    }
  }

  lemma {:induction false} InIds(ids: EventTriggerId, n: nat)
    requires n < MAX_NUM_EVENT_TRIGGERS
    ensures n in Ids(ids) <==> And(ids, MaskOf(n)) != 0
  {
    hide And, MaskOf;
  }

  lemma {:induction false} FirstMask()
    ensures MaskOf(0) == 0x8000_0000
  {
  }

  /** The numbers that a loop over the triggers has passed. */
  ghost function Under(s: set<nat>, k: nat): set<nat> {
    set n | n in s && n < k
  }

  lemma {:induction false} UnderAll(s: set<nat>)
    requires Numbers(s)
    ensures Under(s, MAX_NUM_EVENT_TRIGGERS) == s
  {
  }

  lemma {:induction false} FilledOne(a: seq<Pointer>, s: set<nat>, value: Pointer, k: nat)
    requires k < |a|
    ensures |Filled(a, Under(s, k), value)| == |a|
    ensures Filled(a, Under(s, k + 1), value) ==
            if k in s then Filled(a, Under(s, k), value)[k := value] else Filled(a, Under(s, k), value)
    ensures k == 0 ==> Filled(a, Under(s, k), value) == a
  {
  }

  lemma {:induction false} FoundNext(s: set<nat>, last: nat, i: nat, d: nat)
    requires last < MAX_NUM_EVENT_TRIGGERS && Numbers(s) && d < MAX_NUM_EVENT_TRIGGERS
    requires i == (last + d + 1) % MAX_NUM_EVENT_TRIGGERS && i in s
    requires forall n :: n in s ==> Distance(last, n) >= d
    ensures s != {} && Next(s, last) == i
  {
    assert IsNext(s, last, i);
    NextUnique(s, last, i, Next(s, last));
  }

  lemma {:induction false} NotNext(s: set<nat>, last: nat, i: nat, d: nat)
    requires last < MAX_NUM_EVENT_TRIGGERS && Numbers(s) && d < MAX_NUM_EVENT_TRIGGERS
    requires i == (last + d + 1) % MAX_NUM_EVENT_TRIGGERS && i !in s
    requires forall n :: n in s ==> Distance(last, n) >= d
    ensures forall n :: n in s ==> Distance(last, n) >= d + 1
    ensures i == last <==> d + 1 == MAX_NUM_EVENT_TRIGGERS
  {
  }

  lemma {:induction false} NoneLeft(s: set<nat>, last: nat)
    requires last < MAX_NUM_EVENT_TRIGGERS && Numbers(s)
    requires forall n :: n in s ==> Distance(last, n) >= MAX_NUM_EVENT_TRIGGERS
    ensures s == {}
  {
  }
}
