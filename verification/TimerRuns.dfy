/** Whole runs of the delay queue: any sequence of scheduling, unscheduling, rescheduling and alarm handling,
    including whatever the handlers of expired timers do. */
module TimerRuns {
  import opened Timevals
  import opened TimerQueues

  /** A delay whose seconds fit an int, the longest of which is ETERNITY: subtraction may lose longer ones. */
  type Delay = d: nat | d <= END

  /** `at` is the system time read by the operation if it has to look. */
  datatype Op =
    | Schedule(delay: Delay, at: int)
    | Unschedule(token: nat)
    | Reschedule(token: nat, delay: Delay, at: int)
    | NextAlarm(at: int)
    | Alarm(at: int)

  /** A timer handed to its handler at a time, when `stamp` insertions had been made. */
  datatype Firing = Firing(timer: Timer, at: int, stamp: nat)

  datatype Run = Run(q: Queue, tokenCounter: nat, fired: seq<Firing>)

  function Init(start: int): Run {
    Run(Queue([], 0, start, 0), 0, [])
  }

  /** The total time seen to pass stays below ETERNITY, or the scan of the ring would not end. */
  predicate Safe(q: Queue, op: Op) {
    match op
    case Unschedule(_) => true
    case Schedule(_, at) => Sync(q, at).clock < END
    case Reschedule(_, _, at) => Sync(q, at).clock < END
    case NextAlarm(at) => Sync(q, at).clock < END
    case Alarm(at) => Sync(q, at).clock < END
  }

  function Step(r: Run, op: Op): Run
    requires Safe(r.q, op)
  {
    match op
    case Schedule(delay, at) => r.(q := Add(r.q, r.tokenCounter + 1, delay, at), tokenCounter := r.tokenCounter + 1)
    case Unschedule(token) =>
      var k := Find(r.q.timers, token);
      if k < |r.q.timers| then r.(q := RemoveAt(r.q, k)) else r
    case Reschedule(token, delay, at) =>
      var k := Find(r.q.timers, token);
      if k < |r.q.timers| then r.(q := Update(r.q, k, delay, at)) else r
    case NextAlarm(at) => r.(q := Looked(r.q, at))
    case Alarm(at) =>
      var q := Looked(r.q, at);
      if HeadIsDue(q) && q.timers != [] then r.(q := RemoveAt(q, 0), fired := r.fired + [Firing(q.timers[0], at, q.stamp)])
      else r.(q := q)
  }

  predicate SafeRun(r: Run, ops: seq<Op>)
    decreases |ops|
  {
    ops == [] || (Safe(r.q, ops[0]) && SafeRun(Step(r, ops[0]), ops[1..]))
  }

  function Exec(r: Run, ops: seq<Op>): Run
    requires SafeRun(r, ops)
    decreases |ops|
  {
    if ops == [] then r else Exec(Step(r, ops[0]), ops[1..])
  }

  // ---------- The order of firing ----------

  /** Earlier deadline, or the same deadline and inserted earlier. */
  predicate Earlier(a: Timer, b: Timer) {
    a.due < b.due || (a.due == b.due && a.stamp < b.stamp)
  }

  predicate Ordered(q: Queue) {
    && q.clock >= 0 && q.clock < END
    && (forall i :: 0 <= i < |q.timers| ==> q.timers[i].due < END && q.timers[i].stamp < q.stamp)
    && (forall i, j :: 0 <= i < j < |q.timers| ==> Earlier(q.timers[i], q.timers[j]))
  }

  /** Whatever was already waiting when a timer fired was due later, or as late but inserted later. */
  predicate FiredInOrder(r: Run) {
    && (forall i, j :: 0 <= i < j < |r.fired| && r.fired[j].timer.stamp < r.fired[i].stamp ==>
          Earlier(r.fired[i].timer, r.fired[j].timer))
    && (forall i, k :: 0 <= i < |r.fired| && 0 <= k < |r.q.timers| && r.q.timers[k].stamp < r.fired[i].stamp ==>
          Earlier(r.fired[i].timer, r.q.timers[k]))
    && (forall i :: 0 <= i < |r.fired| ==> r.fired[i].stamp <= r.q.stamp)
  }

  lemma {:induction false} OrderedIsConsistent(q: Queue)
    requires Ordered(q)
    ensures Consistent(q)
  {
    var d := Dues(q.timers);
    forall i, j | 0 <= i < j < |d|
      ensures d[i] <= d[j]
    {
      if j < |q.timers| { assert Earlier(q.timers[i], q.timers[j]); }
    }
  }

  lemma {:induction false} AddKeepsOrder(q: Queue, token: nat, delay: nat, at: int)
    requires Ordered(q) && Sync(q, at).clock < END
    ensures Ordered(Add(q, token, delay, at))
  {
    hide Position, Wrap, Ordered, Place;
    var s := Sync(q, at);
    assert Ordered(s) by { SyncKeepsOrder(q, at); }
    PlaceKeepsOrder(s, Timer(token, s.clock + Wrap(delay, END - s.clock), s.stamp, at, delay));
  }

  lemma {:induction false} SyncKeepsOrder(q: Queue, at: int)
    requires Ordered(q) && Sync(q, at).clock < END
    ensures Ordered(Sync(q, at))
  {
    hide Earlier;
  }

  lemma {:induction false} PlaceKeepsOrder(q: Queue, t: Timer)
    requires Ordered(q) && t.stamp == q.stamp && t.due < END
    ensures Ordered(q.(timers := Place(q.timers, t), stamp := q.stamp + 1))
  {
    hide Position, Earlier;
    var k := Position(q.timers, t.due);
    forall i | 0 <= i < |q.timers|
      ensures if i < k then Earlier(q.timers[i], t) else Earlier(t, q.timers[i])
    {
      BetweenNeighbours(q, t, k, i);
    }
    InsertKeepsOrder(q.timers, t, k);
    var placed := Place(q.timers, t);
    forall i | 0 <= i < |placed|
      ensures placed[i].due < END && placed[i].stamp < q.stamp + 1
    {
      assert placed[i] == if i < k then q.timers[i] else if i == k then t else q.timers[i - 1];
    }
  }

  lemma {:induction false} BetweenNeighbours(q: Queue, t: Timer, k: nat, i: nat)
    requires Ordered(q) && i < |q.timers| && k <= |q.timers| && t.stamp == q.stamp
    requires forall j :: 0 <= j < k ==> q.timers[j].due <= t.due
    requires k < |q.timers| ==> t.due < q.timers[k].due
    ensures if i < k then Earlier(q.timers[i], t) else Earlier(t, q.timers[i])
  {
    assert i > k ==> Earlier(q.timers[k], q.timers[i]);
  }

  lemma {:induction false} InsertKeepsOrder(timers: seq<Timer>, t: Timer, k: nat)
    requires k <= |timers|
    requires forall i, j :: 0 <= i < j < |timers| ==> Earlier(timers[i], timers[j])
    requires forall i :: 0 <= i < |timers| ==> if i < k then Earlier(timers[i], t) else Earlier(t, timers[i])
    ensures var p := timers[..k] + [t] + timers[k..];
      forall i, j :: 0 <= i < j < |p| ==> Earlier(p[i], p[j])
  {
    hide Earlier;
    var p := timers[..k] + [t] + timers[k..];
    forall i, j | 0 <= i < j < |p|
      ensures Earlier(p[i], p[j])
    {
      assert p[i] == if i < k then timers[i] else if i == k then t else timers[i - 1];
      assert p[j] == if j < k then timers[j] else if j == k then t else timers[j - 1];
    }
  }

  lemma {:induction false} RemoveKeepsOrder(q: Queue, k: nat)
    requires Ordered(q) && k < |q.timers|
    ensures Ordered(RemoveAt(q, k))
  {
  }

  /** Every timer of the first list is in the second, or was inserted no earlier than `stamp`. */
  predicate OnlyLater(after: seq<Timer>, before: seq<Timer>, stamp: nat) {
    forall i :: 0 <= i < |after| ==> after[i] in before || after[i].stamp >= stamp
  }

  lemma {:induction false} StepTimers(r: Run, op: Op)
    requires Safe(r.q, op) && !op.Alarm?
    ensures OnlyLater(Step(r, op).q.timers, r.q.timers, r.q.stamp)
    ensures Step(r, op).q.stamp >= r.q.stamp && Step(r, op).fired == r.fired
  {
    hide Position, Wrap, Find, Add, RemoveAt;
    match op {
      case Schedule(delay, at) => AddOnlyLater(r.q, r.tokenCounter + 1, delay, at);
      case Unschedule(token) => RemoveOnlyLater(r.q, Find(r.q.timers, token));
      case Reschedule(token, delay, at) =>
        var k := Find(r.q.timers, token);
        RemoveOnlyLater(r.q, k);
        if k < |r.q.timers| { AddOnlyLater(RemoveAt(r.q, k), r.q.timers[k].token, delay, at); }
      case NextAlarm(_) =>
    }
  }

  lemma {:induction false} AddOnlyLater(q: Queue, token: nat, delay: nat, at: int)
    requires Sync(q, at).clock < END
    ensures OnlyLater(Add(q, token, delay, at).timers, q.timers, q.stamp)
    ensures Add(q, token, delay, at).stamp == q.stamp + 1
  {
    hide Position, Wrap;
  }

  lemma {:induction false} RemoveOnlyLater(q: Queue, k: nat)
    ensures k < |q.timers| ==> OnlyLater(RemoveAt(q, k).timers, q.timers, q.stamp) && RemoveAt(q, k).stamp == q.stamp
    ensures k < |q.timers| ==> forall at :: Sync(RemoveAt(q, k), at).clock == Sync(q, at).clock
    ensures k < |q.timers| ==> forall t :: t in RemoveAt(q, k).timers ==> t in q.timers
  {
  }

  lemma {:induction false} OrderStep(r: Run, op: Op)
    requires Ordered(r.q) && FiredInOrder(r) && Safe(r.q, op)
    ensures Ordered(Step(r, op).q) && FiredInOrder(Step(r, op))
  {
    hide Add, Update, Find, Earlier, RemoveAt;
    match op {
      case Schedule(delay, at) => AddKeepsOrder(r.q, r.tokenCounter + 1, delay, at);
      case Unschedule(token) =>
        var k := Find(r.q.timers, token);
        if k < |r.q.timers| { RemoveKeepsOrder(r.q, k); }
      case Reschedule(token, delay, at) =>
        var k := Find(r.q.timers, token);
        if k < |r.q.timers| { UpdateKeepsOrder(r.q, k, delay, at); }
      case NextAlarm(_) =>
      case Alarm(at) =>
        var q := Looked(r.q, at);
        if HeadIsDue(q) && q.timers != [] { RemoveKeepsOrder(q, 0); AlarmFiresFirst(r, at); }
    }
    if !op.Alarm? { StepTimers(r, op); LaterKeepsFired(r, Step(r, op)); }
  }

  lemma {:induction false} UpdateKeepsOrder(q: Queue, k: nat, delay: nat, at: int)
    requires Ordered(q) && k < |q.timers| && Sync(q, at).clock < END
    ensures Ordered(Update(q, k, delay, at))
  {
    hide Add, Ordered;
    RemoveKeepsOrder(q, k);
    AddKeepsOrder(RemoveAt(q, k), q.timers[k].token, delay, at);
  }

  lemma {:induction false} LaterKeepsFired(r: Run, s: Run)
    requires FiredInOrder(r) && s.fired == r.fired && s.q.stamp >= r.q.stamp
    requires OnlyLater(s.q.timers, r.q.timers, r.q.stamp)
    ensures FiredInOrder(s)
  {
    hide Earlier;
  }

  lemma {:induction false} AlarmFiresFirst(r: Run, at: int)
    requires Ordered(r.q) && FiredInOrder(r) && Safe(r.q, Alarm(at))
    requires HeadIsDue(Looked(r.q, at)) && r.q.timers != []
    ensures FiredInOrder(Step(r, Alarm(at)))
  {
    hide Earlier, FiredInOrder, Ordered;
    HeadFires(r, Step(r, Alarm(at)), Firing(r.q.timers[0], at, r.q.stamp));
  }

  lemma {:induction false} HeadFires(r: Run, s: Run, f: Firing)
    requires Ordered(r.q) && FiredInOrder(r) && r.q.timers != [] && f.timer == r.q.timers[0] && f.stamp == r.q.stamp
    requires s.q.timers == r.q.timers[1..] && s.q.stamp == r.q.stamp && s.fired == r.fired + [f]
    ensures FiredInOrder(s)
  {
    hide Earlier;
    assert forall k :: 0 <= k < |s.q.timers| ==> s.q.timers[k] == r.q.timers[k + 1];
    assert forall i :: 0 <= i < |r.fired| ==> s.fired[i] == r.fired[i];
  }

  /** In every run timers fire in the order of their deadlines, and equal deadlines in the order of insertion. */
  lemma {:induction false} RunsFireInOrder(r: Run, ops: seq<Op>)
    requires Ordered(r.q) && FiredInOrder(r) && SafeRun(r, ops)
    ensures Ordered(Exec(r, ops).q) && FiredInOrder(Exec(r, ops))
    decreases |ops|
  {
    hide Step, Safe, Ordered, FiredInOrder;
    if ops != [] {
      OrderStep(r, ops[0]);
      RunsFireInOrder(Step(r, ops[0]), ops[1..]);
    }
  }

  // ---------- No early firing ----------

  function TimeOf(op: Op, now: int): int {
    match op
    case Unschedule(_) => now
    case Schedule(_, at) => at
    case Reschedule(_, _, at) => at
    case NextAlarm(at) => at
    case Alarm(at) => at
  }

  /** The system clock does not go back, and less than ETERNITY passes. */
  predicate Steady(ops: seq<Op>, start: int, now: int) {
    ops == [] || (now <= TimeOf(ops[0], now) < start + END && Steady(ops[1..], start, TimeOf(ops[0], now)))
  }

  /** The deadline is the requested delay after the request, cut to the ring's total at that time. */
  predicate DueAsAsked(t: Timer, start: int) {
    && 0 <= t.setAt - start < END
    && t.due == t.setAt - start + Wrap(t.delay, END - (t.setAt - start))
  }

  predicate Kept(r: Run, start: int, now: int) {
    && r.q.lastSync == start + r.q.clock && 0 <= r.q.clock && r.q.lastSync <= now < start + END
    && (forall i :: 0 <= i < |r.q.timers| ==> DueAsAsked(r.q.timers[i], start))
    && (forall i :: 0 <= i < |r.fired| ==> DueAsAsked(r.fired[i].timer, start) && start + r.fired[i].timer.due <= r.fired[i].at)
  }

  lemma {:induction false} KeptStep(r: Run, start: int, now: int, op: Op)
    requires Kept(r, start, now) && now <= TimeOf(op, now) < start + END
    ensures Safe(r.q, op) && Kept(Step(r, op), start, TimeOf(op, now))
  {
    hide Wrap, Position, Find, DueAsAsked;
    match op {
      case Schedule(delay, at) => KeptAdd(r.q, r.tokenCounter + 1, start, delay, at);
      case Unschedule(token) =>
      case Reschedule(token, delay, at) =>
        var k := Find(r.q.timers, token);
        if k < |r.q.timers| { KeptAdd(RemoveAt(r.q, k), r.q.timers[k].token, start, delay, at); }
      case NextAlarm(_) =>
      case Alarm(at) =>
    }
  }

  lemma {:induction false} KeptAdd(q: Queue, token: nat, start: int, delay: nat, at: int)
    requires q.lastSync == start + q.clock && 0 <= q.clock && q.lastSync <= at < start + END
    requires forall i :: 0 <= i < |q.timers| ==> DueAsAsked(q.timers[i], start)
    ensures Sync(q, at).clock == at - start < END
    ensures var a := Add(q, token, delay, at);
      && a.lastSync == at && a.clock == at - start
      && forall i :: 0 <= i < |a.timers| ==> DueAsAsked(a.timers[i], start)
  {
    hide Wrap, Position;
  }

  lemma {:induction false} RunKeeps(r: Run, start: int, now: int, ops: seq<Op>)
    requires Kept(r, start, now) && Steady(ops, start, now)
    ensures SafeRun(r, ops)
    ensures forall i :: 0 <= i < |Exec(r, ops).fired| ==>
              var f := Exec(r, ops).fired[i]; DueAsAsked(f.timer, start) && start + f.timer.due <= f.at
    decreases |ops|
  {
    hide Step, Safe, DueAsAsked;
    if ops != [] {
      KeptStep(r, start, now, ops[0]);
      RunKeeps(Step(r, ops[0]), start, TimeOf(ops[0], now), ops[1..]);
    }
  }

  /** Conservation over every run: what the ring still holds, sentinel included, is ETERNITY minus the forward time that has passed. */
  lemma {:induction false} RunsAddUp(r: Run, ops: seq<Op>)
    requires Ordered(r.q) && FiredInOrder(r) && SafeRun(r, ops)
    ensures var q := Exec(r, ops).q;
      SumOfGaps(Dues(q.timers), q.clock, |q.timers| + 1) == Micros(ETERNITY) - q.clock > 0
  {
    hide Ordered, FiredInOrder, SafeRun, Exec, Consistent;
    RunsFireInOrder(r, ops);
    OrderedIsConsistent(Exec(r, ops).q);
    DeltasAddUp(Exec(r, ops).q);
  }

  /** With a clock that does not go back no timer ever fires before its delay has elapsed, provided the delay was
      below what was left of ETERNITY when it was asked for. */
  lemma {:induction false} NeverEarly(start: int, ops: seq<Op>)
    requires Steady(ops, start, start)
    ensures SafeRun(Init(start), ops)
    ensures forall i :: 0 <= i < |Exec(Init(start), ops).fired| ==>
              var f := Exec(Init(start), ops).fired[i];
              f.timer.delay < END - (f.timer.setAt - start) ==> f.at >= f.timer.setAt + f.timer.delay
  {
    hide Wrap, Step;
    RunKeeps(Init(start), start, start, ops);
  }

  /** A requested delay is honoured exactly when it is below the ring's total at the time of the request;
      longer ones start again at the head of the ring. */
  lemma {:induction false} DelayHonouredIff(q: Queue, token: nat, delay: Delay, at: int)
    requires Sync(q, at).clock < END
    ensures var s := Sync(q, at);
      var a := Add(q, token, delay, at);
      var t := a.timers[Position(s.timers, s.clock + Wrap(delay, END - s.clock))];
      t.token == token && (t.due == s.clock + delay <==> delay < END - s.clock)
  {
    hide Wrap, Position;
  }

  /** ETERNITY itself, asked for at the start, is due at once. */
  lemma {:induction false} EternityFiresAtOnce()
    ensures var r := Step(Init(0), Schedule(END, 0));
      Step(r, Alarm(0)).fired == [Firing(Timer(1, 0, 0, 0, END), 0, 1)]
  {
    assert Wrap(END, END) == 0 by { WrapStep(END, END); }
    var q := Add(Init(0).q, 1, END, 0);
    assert Position([], 0) == 0;
    assert q.timers == [Timer(1, 0, 0, 0, END)];
  }

  // ---------- No starvation ----------

  function Alarms(ops: seq<Op>): nat {
    if ops == [] then 0 else (if ops[0].Alarm? then 1 else 0) + Alarms(ops[1..])
  }

  predicate Leaves(op: Op, token: nat) {
    match op
    case Unschedule(t) => t != token
    case Reschedule(t, _, _) => t != token
    case _ => true
  }

  /** The timer is due and stands at index `k`. */
  predicate DueAt(q: Queue, t: Timer, k: nat) {
    k < |q.timers| && q.timers[k] == t && t.due <= q.clock
  }

  lemma {:induction false} AddKeepsRank(q: Queue, token: nat, delay: nat, at: int, t: Timer, k: nat)
    requires Ordered(q) && Sync(q, at).clock < END && DueAt(q, t, k)
    ensures DueAt(Add(q, token, delay, at), t, k)
  {
    hide Wrap, Position;
    var s := Sync(q, at);
    var due := s.clock + Wrap(delay, END - s.clock);
    var p := Position(s.timers, due);
    assert p < |s.timers| && p <= k ==> p == k || Earlier(s.timers[p], s.timers[k]);
  }

  lemma {:induction false} RemoveKeepsRank(q: Queue, i: nat, t: Timer, k: nat)
    requires i < |q.timers| && i != k && DueAt(q, t, k)
    ensures if i < k then DueAt(RemoveAt(q, i), t, k - 1) else DueAt(RemoveAt(q, i), t, k)
  {
  }

  /** No operation but its own cancellation moves a due timer back; handling an alarm moves it one place forward. */
  lemma {:induction false} RankStep(r: Run, op: Op, t: Timer, k: nat)
    requires Ordered(r.q) && Safe(r.q, op) && DueAt(r.q, t, k) && Leaves(op, t.token)
    ensures var s := Step(r, op);
      if op.Alarm? then
        if k == 0 then s.fired == r.fired + [Firing(t, op.at, r.q.stamp)]
        else DueAt(s.q, t, k - 1) && |s.fired| == |r.fired| + 1 && s.fired[..|r.fired|] == r.fired
      else s.fired == r.fired && (DueAt(s.q, t, k) || (k > 0 && DueAt(s.q, t, k - 1)))
  {
    hide Add, Find, RemoveAt, Earlier;
    match op {
      case Schedule(delay, at) => AddKeepsRank(r.q, r.tokenCounter + 1, delay, at, t, k);
      case Unschedule(token) =>
        var i := Find(r.q.timers, token);
        if i < |r.q.timers| { RemoveKeepsRank(r.q, i, t, k); }
      case Reschedule(token, delay, at) =>
        var i := Find(r.q.timers, token);
        if i < |r.q.timers| { UpdateKeepsRank(r.q, i, delay, at, t, k); }
      case NextAlarm(_) =>
      case Alarm(at) =>
        DueHead(r.q, t, k);
        if k > 0 { RemoveKeepsRank(r.q, 0, t, k); }
    }
  }

  lemma {:induction false} DueHead(q: Queue, t: Timer, k: nat)
    requires Ordered(q) && DueAt(q, t, k)
    ensures HeadIsDue(q) && q.timers != []
  {
    assert k > 0 ==> Earlier(q.timers[0], q.timers[k]);
  }

  lemma {:induction false} UpdateKeepsRank(q: Queue, i: nat, delay: nat, at: int, t: Timer, k: nat)
    requires Ordered(q) && i < |q.timers| && i != k && Sync(q, at).clock < END && DueAt(q, t, k)
    ensures var u := Update(q, i, delay, at); DueAt(u, t, k) || (k > 0 && DueAt(u, t, k - 1))
  {
    hide Add, RemoveAt, Ordered, Find;
    RemoveKeepsRank(q, i, t, k);
    RemoveKeepsOrder(q, i);
    RemoveKeepsSync(q, i, at);
    AddKeepsRank(RemoveAt(q, i), q.timers[i].token, delay, at, t, if i < k then k - 1 else k);
  }

  lemma {:induction false} RemoveKeepsSync(q: Queue, i: nat, at: int)
    requires i < |q.timers|
    ensures Sync(RemoveAt(q, i), at).clock == Sync(q, at).clock
  {
  }

  predicate FiredSince(r: Run, n: nat, t: Timer) {
    exists i :: n <= i < |r.fired| && r.fired[i].timer == t
  }

  /** A due timer with `k` timers in front of it is fired by the time `k + 1` alarms have been handled, whatever else is
      scheduled, rescheduled or cancelled in between; zero-delay rescheduling cannot starve it. */
  lemma {:induction false} NoStarvation(r: Run, ops: seq<Op>, t: Timer, k: nat)
    requires Ordered(r.q) && FiredInOrder(r) && SafeRun(r, ops) && DueAt(r.q, t, k)
    requires forall i :: 0 <= i < |ops| ==> Leaves(ops[i], t.token)
    ensures |Exec(r, ops).fired| >= |r.fired|
    ensures FiredSince(Exec(r, ops), |r.fired|, t)
            || (Alarms(ops) <= k && exists j: nat | j + Alarms(ops) <= k :: DueAt(Exec(r, ops).q, t, j))
    decreases |ops|
  {
    hide Step, Safe, Ordered, FiredInOrder, DueAt;
    if ops == [] {
      assert k + Alarms(ops) <= k && DueAt(Exec(r, ops).q, t, k);
    } else {
      var s, rest := Step(r, ops[0]), ops[1..];
      OrderStep(r, ops[0]);
      RankStep(r, ops[0], t, k);
      FiredGrows(s, rest);
      if ops[0].Alarm? && k == 0 {
        var i := |r.fired|;
        assert Exec(r, ops).fired[i] == s.fired[i];
        assert Exec(r, ops).fired[i].timer == t;
      } else {
        var k' := if DueAt(s.q, t, k) && !ops[0].Alarm? then k else k - 1;
        NoStarvation(s, rest, t, k');
      }
    }
  }

  // ---------- Timers fire when their time has come ----------

  /** The timer stands at index `k`, whether or not the queue has noticed that it is due. */
  predicate WaitsAt(q: Queue, t: Timer, k: nat) {
    k < |q.timers| && q.timers[k] == t
  }

  /** Once the time has come, each alarm fires a timer: this one, or one in front of it. Nothing else gets in front of it. */
  lemma {:induction false} TimeComeStep(r: Run, start: int, now: int, op: Op, t: Timer, k: nat)
    requires Ordered(r.q) && Kept(r, start, now) && now <= TimeOf(op, now) < start + END
    requires WaitsAt(r.q, t, k) && start + t.due <= now && Leaves(op, t.token)
    ensures Safe(r.q, op)
    ensures var s := Step(r, op);
      if op.Alarm? then
        if k == 0 then s.fired == r.fired + [Firing(t, op.at, r.q.stamp)]
        else WaitsAt(s.q, t, k - 1) && |s.fired| == |r.fired| + 1 && s.fired[..|r.fired|] == r.fired
      else s.fired == r.fired && (WaitsAt(s.q, t, k) || (k > 0 && WaitsAt(s.q, t, k - 1)))
  {
    hide Add, Find, RemoveAt, Earlier, DueAsAsked, Update, Looked;
    match op {
      case Schedule(delay, at) => AddBehind(r.q, r.tokenCounter + 1, delay, at, t, k);
      case Unschedule(token) =>
        var i := Find(r.q.timers, token);
        if i < |r.q.timers| { RemoveWaits(r.q, i, t, k); }
      case Reschedule(token, delay, at) =>
        var i := Find(r.q.timers, token);
        if i < |r.q.timers| {
          FindsAnother(r.q, token, t, k);
          RemoveWaits(r.q, i, t, k);
          UpdateBehind(r.q, i, delay, at, t, k);
        }
      case NextAlarm(at) => LookedKeeps(r.q, at);
      case Alarm(at) =>
        HeadBefore(r.q, at, t, k);
        if k > 0 { RemoveWaits(Looked(r.q, at), 0, t, k); }
    }
  }

  lemma {:induction false} FindsAnother(q: Queue, token: nat, t: Timer, k: nat)
    requires WaitsAt(q, t, k) && token != t.token
    ensures Find(q.timers, token) != k
  {
    hide Find;
  }

  lemma {:induction false} LookedKeeps(q: Queue, at: int)
    ensures Looked(q, at).timers == q.timers && Looked(q, at).stamp == q.stamp
  {
  }

  lemma {:induction false} RemoveWaits(q: Queue, i: nat, t: Timer, k: nat)
    requires i < |q.timers| && WaitsAt(q, t, k)
    ensures i < k ==> WaitsAt(RemoveAt(q, i), t, k - 1)
    ensures k < i ==> WaitsAt(RemoveAt(q, i), t, k)
  {
  }

  /** A timer inserted when the time of `t` has come goes behind it. */
  lemma {:induction false} AddBehind(q: Queue, token: nat, delay: nat, at: int, t: Timer, k: nat)
    requires Ordered(q) && Sync(q, at).clock < END && WaitsAt(q, t, k) && t.due <= Sync(q, at).clock
    ensures WaitsAt(Add(q, token, delay, at), t, k)
  {
    hide Add, Ordered, Sync;
    SyncKeepsOrder(q, at);
    SyncTwice(q, at);
    AddKeepsRank(Sync(q, at), token, delay, at, t, k);
    AddSynced(q, token, delay, at);
  }

  lemma {:induction false} SyncTwice(q: Queue, at: int)
    ensures Sync(Sync(q, at), at) == Sync(q, at) && Sync(q, at).timers == q.timers
  {
  }

  lemma {:induction false} AddSynced(q: Queue, token: nat, delay: nat, at: int)
    requires Sync(q, at).clock < END
    ensures Sync(Sync(q, at), at).clock < END && Add(Sync(q, at), token, delay, at) == Add(q, token, delay, at)
  {
    hide Position, Wrap;
  }

  lemma {:induction false} UpdateBehind(q: Queue, i: nat, delay: nat, at: int, t: Timer, k: nat)
    requires Ordered(q) && i < |q.timers| && i != k && Sync(q, at).clock < END && WaitsAt(q, t, k) && t.due <= Sync(q, at).clock
    ensures var u := Update(q, i, delay, at); WaitsAt(u, t, k) || (k > 0 && WaitsAt(u, t, k - 1))
  {
    hide Add, RemoveAt, Ordered, Sync;
    RemoveWaits(q, i, t, k);
    RemoveKeepsOrder(q, i);
    RemoveKeepsSync(q, i, at);
    AddBehind(RemoveAt(q, i), q.timers[i].token, delay, at, t, if i < k then k - 1 else k);
  }

  /** The head is due when a timer behind it is. */
  lemma {:induction false} HeadBefore(q: Queue, at: int, t: Timer, k: nat)
    requires Ordered(q) && Sync(q, at).clock < END && WaitsAt(q, t, k) && t.due <= Sync(q, at).clock
    ensures HeadIsDue(Looked(q, at)) && Looked(q, at).timers == q.timers && Looked(q, at).stamp == q.stamp
  {
    assert k > 0 ==> Earlier(q.timers[0], q.timers[k]);
  }

  /** With a clock that does not go back, a timer with `k` timers in front of it whose time has come is fired by the time `k + 1`
      alarms have been handled, whatever else is scheduled, rescheduled or cancelled in between. */
  lemma {:induction false} FiresInTime(r: Run, start: int, now: int, ops: seq<Op>, t: Timer, k: nat)
    requires Ordered(r.q) && FiredInOrder(r) && Kept(r, start, now) && Steady(ops, start, now)
    requires WaitsAt(r.q, t, k) && start + t.due <= now
    requires forall i :: 0 <= i < |ops| ==> Leaves(ops[i], t.token)
    ensures SafeRun(r, ops) && |Exec(r, ops).fired| >= |r.fired|
    ensures FiredSince(Exec(r, ops), |r.fired|, t)
            || (Alarms(ops) <= k && exists j: nat | j + Alarms(ops) <= k :: WaitsAt(Exec(r, ops).q, t, j))
    decreases |ops|
  {
    hide Step, Safe, Ordered, FiredInOrder, WaitsAt, Kept;
    if ops == [] {
      assert k + Alarms(ops) <= k && WaitsAt(Exec(r, ops).q, t, k);
    } else {
      TimeComeStep(r, start, now, ops[0], t, k);
      var s, rest := Step(r, ops[0]), ops[1..];
      KeptStep(r, start, now, ops[0]);
      OrderStep(r, ops[0]);
      if ops[0].Alarm? && k == 0 {
        RunKeeps(s, start, TimeOf(ops[0], now), rest);
        FiredGrows(s, rest);
        var i := |r.fired|;
        assert Exec(r, ops).fired[i] == s.fired[i];
        assert Exec(r, ops).fired[i].timer == t;
      } else {
        var k' := if WaitsAt(s.q, t, k) && !ops[0].Alarm? then k else k - 1;
        FiresInTime(s, start, TimeOf(ops[0], now), rest, t, k');
        FiredGrows(s, rest);
      }
    }
  }

  predicate Spared(ops: seq<Op>, token: nat) {
    forall i :: 0 <= i < |ops| ==> Leaves(ops[i], token)
  }

  function After(ops: seq<Op>, now: int): int {
    if ops == [] then now else After(ops[1..], TimeOf(ops[0], now))
  }

  lemma {:induction false} ExecConcat(r: Run, a: seq<Op>, b: seq<Op>)
    requires SafeRun(r, a) && SafeRun(Exec(r, a), b)
    ensures SafeRun(r, a + b) && Exec(r, a + b) == Exec(Exec(r, a), b)
    decreases |a|
  {
    hide Step, Safe;
    if a == [] {
      assert a + b == b;
    } else {
      assert (a + b)[1..] == a[1..] + b && (a + b)[0] == a[0];
      ExecConcat(Step(r, a[0]), a[1..], b);
    }
  }

  lemma {:induction false} KeptAfter(r: Run, start: int, now: int, ops: seq<Op>)
    requires Kept(r, start, now) && Steady(ops, start, now)
    ensures SafeRun(r, ops) && Kept(Exec(r, ops), start, After(ops, now))
    decreases |ops|
  {
    hide Step, Safe, Kept;
    if ops != [] {
      KeptStep(r, start, now, ops[0]);
      KeptAfter(Step(r, ops[0]), start, TimeOf(ops[0], now), ops[1..]);
    }
  }

  /** From a new queue: when a timer is still waiting after some operations and its time has come, as many alarms as there are timers
      waiting are enough to fire it, unless it is cancelled. */
  lemma {:induction false} EveryTimerFires(start: int, before: seq<Op>, ops: seq<Op>, k: nat)
    requires Steady(before, start, start) && Steady(ops, start, After(before, start))
    requires SafeRun(Init(start), before) && k < |Exec(Init(start), before).q.timers|
    requires var t := Exec(Init(start), before).q.timers[k]; start + t.due <= After(before, start) && Spared(ops, t.token)
    requires Alarms(ops) > k
    ensures SafeRun(Exec(Init(start), before), ops)
    ensures var r := Exec(Init(start), before); FiredSince(Exec(r, ops), |r.fired|, r.q.timers[k])
  {
    hide Exec, Ordered, FiredInOrder, Kept, Alarms;
    InitKept(start);
    KeptAfter(Init(start), start, start, before);
    RunsFireInOrder(Init(start), before);
    var r := Exec(Init(start), before);
    FiresInTime(r, start, After(before, start), ops, r.q.timers[k], k);
  }

  lemma {:induction false} InitKept(start: int)
    ensures Kept(Init(start), start, start) && Ordered(Init(start).q) && FiredInOrder(Init(start))
  {
  }

  /** A timer of five seconds, looked at after ten. */
  lemma {:induction false} FiveSecondsFire()
    ensures var r := Step(Init(0), Schedule(5_000_000, 0));
      Step(r, Alarm(10_000_000)).fired == [Firing(Timer(1, 5_000_000, 0, 0, 5_000_000), 10_000_000, 1)]
  {
    assert Wrap(5_000_000, END) == 5_000_000;
    assert Position([], 5_000_000) == 0;
    assert Add(Init(0).q, 1, 5_000_000, 0).timers == [Timer(1, 5_000_000, 0, 0, 5_000_000)];
  }

  lemma {:induction false} FiredGrows(r: Run, ops: seq<Op>)
    requires SafeRun(r, ops)
    ensures |Exec(r, ops).fired| >= |r.fired| && Exec(r, ops).fired[..|r.fired|] == r.fired
    decreases |ops|
  {
    hide Safe, Add, Update, Find, RemoveAt, Looked;
    if ops != [] { FiredGrows(Step(r, ops[0]), ops[1..]); }
  }
}
