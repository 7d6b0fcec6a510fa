/** The scheduler's socket handlers, and the rotation that picks the one to call. */
module SocketRotation {
  const SOCKET_READABLE := 2
  const SOCKET_WRITABLE := 4
  const SOCKET_EXCEPTION := 8
  const FD_SETSIZE := 1024

  /** A pointer; NULL is 0. */
  type Pointer = nat

  datatype Handler = Handler(socketNum: int, conditionSet: nat, handlerProc: Pointer, clientData: Pointer)

  predicate HasBit(conditionSet: nat, bit: nat)
    requires bit > 0
  {
    conditionSet / bit % 2 == 1
  }

  /** What select found for each socket. */
  datatype Selected = Selected(readSet: set<int>, writeSet: set<int>, exceptionSet: set<int>)

  datatype Sockets = Sockets(handlers: seq<Handler>, readSet: set<int>, writeSet: set<int>, exceptionSet: set<int>,
                             maxNumSockets: int, lastHandled: int)

  datatype Call =
    | SetBackgroundHandling(socketNum: int, conditionSet: nat, handlerProc: Pointer, clientData: Pointer)
    | MoveSocketHandling(oldSocketNum: int, newSocketNum: int)

  // ---------- The handler list ----------

  /** lookupHandler: the first handler of a socket; the length of the list for none. */
  function Lookup(handlers: seq<Handler>, socketNum: int): (i: nat)
    ensures i <= |handlers|
    ensures i < |handlers| ==> handlers[i].socketNum == socketNum
    ensures forall j :: 0 <= j < i ==> handlers[j].socketNum != socketNum
  {
    if handlers == [] || handlers[0].socketNum == socketNum then 0 else 1 + Lookup(handlers[1..], socketNum)
  }

  lemma {:induction false} LookupUnique(handlers: seq<Handler>, socketNum: int, i: nat)
    requires i <= |handlers| && (i < |handlers| ==> handlers[i].socketNum == socketNum)
    requires forall j :: 0 <= j < i ==> handlers[j].socketNum != socketNum
    ensures Lookup(handlers, socketNum) == i
  {
    hide Lookup;
    var k := Lookup(handlers, socketNum);
  }

  /** assignHandler: a new handler goes to the front. */
  function Assigned(handlers: seq<Handler>, h: Handler): seq<Handler> {
    var i := Lookup(handlers, h.socketNum);
    if i < |handlers| then handlers[i := h] else [h] + handlers
  }

  /** clearHandler */
  function Cleared(handlers: seq<Handler>, socketNum: int): seq<Handler> {
    var i := Lookup(handlers, socketNum);
    if i < |handlers| then handlers[..i] + handlers[i + 1..] else handlers
  }

  /** moveHandler */
  function Renumbered(handlers: seq<Handler>, oldSocketNum: int, newSocketNum: int): seq<Handler> {
    var i := Lookup(handlers, oldSocketNum);
    if i < |handlers| then handlers[i := handlers[i].(socketNum := newSocketNum)] else handlers
  }

  // ---------- The operations ----------

  function With(s: set<int>, socketNum: int, present: bool): set<int> {
    if present then s - {socketNum} + {socketNum} else s - {socketNum}
  }

  function Set(s: Sockets, socketNum: int, conditionSet: nat, handlerProc: Pointer, clientData: Pointer): Sockets {
    if socketNum < 0 || socketNum >= FD_SETSIZE then s
    else
      Sockets(
        if conditionSet == 0 then Cleared(s.handlers, socketNum)
        else Assigned(s.handlers, Handler(socketNum, conditionSet, handlerProc, clientData)),
        With(s.readSet, socketNum, HasBit(conditionSet, SOCKET_READABLE)),
        With(s.writeSet, socketNum, HasBit(conditionSet, SOCKET_WRITABLE)),
        With(s.exceptionSet, socketNum, HasBit(conditionSet, SOCKET_EXCEPTION)),
        if conditionSet == 0 then (if socketNum + 1 == s.maxNumSockets then s.maxNumSockets - 1 else s.maxNumSockets)
        else if socketNum + 1 > s.maxNumSockets then socketNum + 1 else s.maxNumSockets,
        s.lastHandled)
  }

  function Shifted(s: set<int>, oldSocketNum: int, newSocketNum: int): set<int> {
    if oldSocketNum in s then s - {oldSocketNum} + {newSocketNum} else s
  }

  function Move(s: Sockets, oldSocketNum: int, newSocketNum: int): Sockets {
    if oldSocketNum < 0 || newSocketNum < 0 || oldSocketNum >= FD_SETSIZE || newSocketNum >= FD_SETSIZE then s
    else
      var m := if oldSocketNum + 1 == s.maxNumSockets then s.maxNumSockets - 1 else s.maxNumSockets;
      Sockets(
        Renumbered(s.handlers, oldSocketNum, newSocketNum),
        Shifted(s.readSet, oldSocketNum, newSocketNum),
        Shifted(s.writeSet, oldSocketNum, newSocketNum),
        Shifted(s.exceptionSet, oldSocketNum, newSocketNum),
        if newSocketNum + 1 > m then newSocketNum + 1 else m,
        s.lastHandled)
  }

  function Called(s: Sockets, call: Call): Sockets {
    match call
    case SetBackgroundHandling(n, c, p, d) => Set(s, n, c, p, d)
    case MoveSocketHandling(o, n) => Move(s, o, n)
  }

  function CalledAll(s: Sockets, calls: seq<Call>): Sockets {
    if calls == [] then s else Called(CalledAll(s, calls[..|calls| - 1]), calls[|calls| - 1])
  }

  // ---------- What every call keeps ----------

  predicate Distinct(handlers: seq<Handler>) {
    forall i, j :: 0 <= i < j < |handlers| ==> handlers[i].socketNum != handlers[j].socketNum
  }

  predicate Wants(handlers: seq<Handler>, socketNum: int, bit: nat)
    requires bit > 0
  {
    var i := Lookup(handlers, socketNum);
    i < |handlers| && HasBit(handlers[i].conditionSet, bit)
  }

  /** One handler a socket; the sets given to select hold just what the handlers want; and select looks at all of them. */
  ghost predicate Coherent(s: Sockets) {
    && Distinct(s.handlers)
    && (forall i :: 0 <= i < |s.handlers| ==> 0 <= s.handlers[i].socketNum < s.maxNumSockets && s.handlers[i].conditionSet != 0)
    && (forall n :: n in s.readSet <==> Wants(s.handlers, n, SOCKET_READABLE))
    && (forall n :: n in s.writeSet <==> Wants(s.handlers, n, SOCKET_WRITABLE))
    && (forall n :: n in s.exceptionSet <==> Wants(s.handlers, n, SOCKET_EXCEPTION))
  }

  /** Both lists have the same handler for a socket, or none. */
  predicate SameHandler(after: seq<Handler>, before: seq<Handler>, n: int) {
    && (Lookup(after, n) < |after| <==> Lookup(before, n) < |before|)
    && (Lookup(after, n) < |after| ==> after[Lookup(after, n)] == before[Lookup(before, n)])
  }

  lemma {:induction false} AssignedLookup(handlers: seq<Handler>, h: Handler, n: int)
    requires Distinct(handlers)
    ensures var after := Assigned(handlers, h);
      && Distinct(after)
      && (forall p :: p in after ==> p == h || p in handlers)
      && (if n == h.socketNum then Lookup(after, n) < |after| && after[Lookup(after, n)] == h
          else SameHandler(after, handlers, n))
  {
    hide Lookup;
    var after, i, k := Assigned(handlers, h), Lookup(handlers, h.socketNum), Lookup(handlers, n);
    if i < |handlers| {
      LookupUnique(after, n, k);
    } else {
      LookupUnique(after, n, if n == h.socketNum then 0 else k + 1);
    }
  }

  lemma {:induction false} ClearedLookup(handlers: seq<Handler>, socketNum: int, n: int)
    requires Distinct(handlers)
    ensures var after := Cleared(handlers, socketNum);
      && Distinct(after)
      && (forall p :: p in after ==> p in handlers && p.socketNum != socketNum)
      && (if n == socketNum then Lookup(after, n) == |after|
          else SameHandler(after, handlers, n))
  {
    hide Lookup;
    var after, i, k := Cleared(handlers, socketNum), Lookup(handlers, socketNum), Lookup(handlers, n);
    if i < |handlers| {
      LookupUnique(after, n, if n == socketNum then |after| else if k < i then k else k - 1);
    }
  }

  lemma {:induction false} NoBits(bit: nat)
    requires bit > 0
    ensures !HasBit(0, bit)
  {
  }

  lemma {:induction false} SetWants(s: Sockets, n: int, conditionSet: nat, proc: Pointer, data: Pointer, m: int, bit: nat)
    requires Distinct(s.handlers) && 0 <= n < FD_SETSIZE && bit > 0
    ensures Wants(Set(s, n, conditionSet, proc, data).handlers, m, bit) <==>
            if m == n then HasBit(conditionSet, bit) else Wants(s.handlers, m, bit)
  {
    hide Lookup, Distinct, Assigned, Cleared, HasBit;
    NoBits(bit);
    AssignedLookup(s.handlers, Handler(n, conditionSet, proc, data), m);
    ClearedLookup(s.handlers, n, m);
  }

  lemma {:induction false} SetKeepsCoherent(s: Sockets, n: int, conditionSet: nat, proc: Pointer, data: Pointer)
    requires Coherent(s)
    ensures Coherent(Set(s, n, conditionSet, proc, data))
  {
    hide Lookup, Distinct, Assigned, Cleared, HasBit, Wants;
    if 0 <= n < FD_SETSIZE {
      var t := Set(s, n, conditionSet, proc, data);
      AssignedLookup(s.handlers, Handler(n, conditionSet, proc, data), n);
      ClearedLookup(s.handlers, n, n);
      forall i | 0 <= i < |t.handlers|
        ensures 0 <= t.handlers[i].socketNum < t.maxNumSockets && t.handlers[i].conditionSet != 0
      {
        assert t.handlers[i] in t.handlers;
      }
      forall m
        ensures m in t.readSet <==> Wants(t.handlers, m, SOCKET_READABLE)
        ensures m in t.writeSet <==> Wants(t.handlers, m, SOCKET_WRITABLE)
        ensures m in t.exceptionSet <==> Wants(t.handlers, m, SOCKET_EXCEPTION)
      {
        SetWants(s, n, conditionSet, proc, data, m, SOCKET_READABLE);
        SetWants(s, n, conditionSet, proc, data, m, SOCKET_WRITABLE);
        SetWants(s, n, conditionSet, proc, data, m, SOCKET_EXCEPTION);
      }
    }
  }

  lemma {:induction false} RenumberedLookup(handlers: seq<Handler>, o: int, n: int, m: int)
    requires Distinct(handlers) && Lookup(handlers, o) < |handlers| && (Lookup(handlers, n) == |handlers| || o == n)
    ensures var after := Renumbered(handlers, o, n);
      && Distinct(after)
      && Lookup(after, m) == if m == n then Lookup(handlers, o) else if m == o then |handlers| else Lookup(handlers, m)
  {
    hide Lookup;
    LookupUnique(Renumbered(handlers, o, n), m,
      if m == n then Lookup(handlers, o) else if m == o then |handlers| else Lookup(handlers, m));
  }

  lemma {:induction false} MoveWants(s: Sockets, o: int, n: int, m: int, bit: nat)
    requires Distinct(s.handlers) && bit > 0
    requires Lookup(s.handlers, o) < |s.handlers| && (Lookup(s.handlers, n) == |s.handlers| || o == n)
    ensures Wants(Renumbered(s.handlers, o, n), m, bit) <==>
            if m == n then Wants(s.handlers, o, bit) else m != o && Wants(s.handlers, m, bit)
  {
    hide Lookup, Distinct, HasBit;
    RenumberedLookup(s.handlers, o, n, m);
  }

  predicate InRange(n: int) {
    0 <= n < FD_SETSIZE
  }

  lemma {:induction false} MoveToFree(s: Sockets, o: int, n: int)
    requires Coherent(s) && InRange(o) && InRange(n)
    requires Lookup(s.handlers, o) < |s.handlers| && (Lookup(s.handlers, n) == |s.handlers| || o == n)
    ensures Coherent(Move(s, o, n))
  {
    hide Lookup, HasBit, Wants;
    var t := Move(s, o, n);
    RenumberedLookup(s.handlers, o, n, o);
    forall m
      ensures m in t.readSet <==> Wants(t.handlers, m, SOCKET_READABLE)
      ensures m in t.writeSet <==> Wants(t.handlers, m, SOCKET_WRITABLE)
      ensures m in t.exceptionSet <==> Wants(t.handlers, m, SOCKET_EXCEPTION)
    {
      MoveWants(s, o, n, m, SOCKET_READABLE);
      MoveWants(s, o, n, m, SOCKET_WRITABLE);
      MoveWants(s, o, n, m, SOCKET_EXCEPTION);
      if m == n {
        assert Wants(s.handlers, n, SOCKET_READABLE) ==> Lookup(s.handlers, n) < |s.handlers| by { WantsHas(s.handlers, n, SOCKET_READABLE); }
        assert Wants(s.handlers, n, SOCKET_WRITABLE) ==> Lookup(s.handlers, n) < |s.handlers| by { WantsHas(s.handlers, n, SOCKET_WRITABLE); }
        assert Wants(s.handlers, n, SOCKET_EXCEPTION) ==> Lookup(s.handlers, n) < |s.handlers| by { WantsHas(s.handlers, n, SOCKET_EXCEPTION); }
      }
    }
  }

  lemma {:induction false} WantsHas(handlers: seq<Handler>, n: int, bit: nat)
    requires bit > 0
    ensures Wants(handlers, n, bit) ==> Lookup(handlers, n) < |handlers|
  {
  }

  /** Moving the handling of a socket keeps the sets coherent exactly when it does not run into another handler. */
  lemma {:induction false} MoveKeepsCoherentIff(s: Sockets, o: int, n: int)
    requires Coherent(s)
    ensures Coherent(Move(s, o, n)) <==>
            !InRange(o) || !InRange(n) || o == n || Lookup(s.handlers, o) == |s.handlers| || Lookup(s.handlers, n) == |s.handlers|
  {
    hide Lookup, HasBit, Wants;
    if InRange(o) && InRange(n) {
      var i, k := Lookup(s.handlers, o), Lookup(s.handlers, n);
      if i == |s.handlers| {
        WantsHas(s.handlers, o, SOCKET_READABLE);
        WantsHas(s.handlers, o, SOCKET_WRITABLE);
        WantsHas(s.handlers, o, SOCKET_EXCEPTION);
      } else if k == |s.handlers| || o == n {
        MoveToFree(s, o, n);
      } else {
        assert Move(s, o, n).handlers[i].socketNum == Move(s, o, n).handlers[k].socketNum;
      }
    }
  }

  // ---------- The rotation ----------

  /** The conditions that select found on a socket and the scheduler asked for. */
  function ResultConditionSet(s: Sockets, found: Selected, n: int): nat {
    (if n in found.readSet && n in s.readSet then SOCKET_READABLE else 0)
    + (if n in found.writeSet && n in s.writeSet then SOCKET_WRITABLE else 0)
    + (if n in found.exceptionSet && n in s.exceptionSet then SOCKET_EXCEPTION else 0)
  }

  predicate Intersects(conditions: nat, conditionSet: nat) {
    || (HasBit(conditions, SOCKET_READABLE) && HasBit(conditionSet, SOCKET_READABLE))
    || (HasBit(conditions, SOCKET_WRITABLE) && HasBit(conditionSet, SOCKET_WRITABLE))
    || (HasBit(conditions, SOCKET_EXCEPTION) && HasBit(conditionSet, SOCKET_EXCEPTION))
  }

  /** A handler is called if one of its conditions holds. */
  predicate Fires(s: Sockets, found: Selected, h: Handler) {
    Intersects(ResultConditionSet(s, found, h.socketNum), h.conditionSet) && h.handlerProc != 0
  }

  /** The first handler from position `i` that fires; the length of the list for none. */
  function FirstFiring(s: Sockets, found: Selected, i: nat): (k: nat)
    requires i <= |s.handlers|
    ensures i <= k <= |s.handlers|
    ensures k < |s.handlers| ==> Fires(s, found, s.handlers[k])
    ensures forall j :: i <= j < k ==> !Fires(s, found, s.handlers[j])
    decreases |s.handlers| - i
  {
    if i == |s.handlers| || Fires(s, found, s.handlers[i]) then i else FirstFiring(s, found, i + 1)
  }

  /** Just past the handler called last, or the beginning. */
  function Start(s: Sockets): (i: nat)
    ensures i <= |s.handlers|
  {
    var i := Lookup(s.handlers, s.lastHandled);
    if s.lastHandled >= 0 && i < |s.handlers| then i + 1 else 0
  }

  /** The handler that a step calls: the first one that fires, going round once from the start. */
  function Chosen(s: Sockets, found: Selected): (k: nat)
    ensures k <= |s.handlers|
  {
    var k := FirstFiring(s, found, Start(s));
    if k < |s.handlers| then k else FirstFiring(s, found, 0)
  }

  /** The part of a step that serves sockets: the handler called, and the state before it runs. */
  function Served(s: Sockets, found: Selected): (Sockets, nat) {
    var k := Chosen(s, found);
    (s.(lastHandled := if k < |s.handlers| then s.handlers[k].socketNum else -1), k)
  }

  lemma {:induction false} FirstFiringUnique(s: Sockets, found: Selected, i: nat, k: nat)
    requires i <= k <= |s.handlers| && (k < |s.handlers| ==> Fires(s, found, s.handlers[k]))
    requires forall j :: i <= j < k ==> !Fires(s, found, s.handlers[j])
    ensures FirstFiring(s, found, i) == k
  {
    hide FirstFiring, Fires;
    var f := FirstFiring(s, found, i);
  }

  /** How many handlers come before handler `k` in rotation. */
  function Distance(s: Sockets, k: nat): (d: nat)
    requires k < |s.handlers|
    ensures d < |s.handlers|
  {
    if Start(s) <= k then k - Start(s) else k + |s.handlers| - Start(s)
  }

  /** The scheduler asks select for something that this handler is called for. */
  predicate CanFire(s: Sockets, h: Handler) {
    Fires(s, Selected(s.readSet, s.writeSet, s.exceptionSet), h)
  }

  lemma {:induction false} ResultBits(s: Sockets, found: Selected, n: int)
    ensures HasBit(ResultConditionSet(s, found, n), SOCKET_READABLE) <==> n in found.readSet && n in s.readSet
    ensures HasBit(ResultConditionSet(s, found, n), SOCKET_WRITABLE) <==> n in found.writeSet && n in s.writeSet
    ensures HasBit(ResultConditionSet(s, found, n), SOCKET_EXCEPTION) <==> n in found.exceptionSet && n in s.exceptionSet
  {
  }

  lemma {:induction false} FiresCan(s: Sockets, found: Selected, h: Handler)
    ensures Fires(s, found, h) ==> CanFire(s, h)
  {
    hide HasBit, ResultConditionSet;
    ResultBits(s, found, h.socketNum);
    ResultBits(s, Selected(s.readSet, s.writeSet, s.exceptionSet), h.socketNum);
  }

  // ---------- What a registration is good for ----------

  /** Socket `n` is handled by procedure `p` with `d`, on the conditions `c`. */
  predicate IsHandled(handlers: seq<Handler>, n: int, c: nat, p: Pointer, d: Pointer) {
    exists i :: 0 <= i < |handlers| && handlers[i] == Handler(n, c, p, d) && First(handlers, i)
  }

  predicate First(handlers: seq<Handler>, i: nat)
    requires i < |handlers|
  {
    forall j :: 0 <= j < i ==> handlers[j].socketNum != handlers[i].socketNum
  }

  predicate IsFree(handlers: seq<Handler>, n: int) {
    forall i :: 0 <= i < |handlers| ==> handlers[i].socketNum != n
  }

  lemma {:induction false} HandledLookup(handlers: seq<Handler>, n: int, c: nat, p: Pointer, d: Pointer)
    ensures var i := Lookup(handlers, n);
      IsHandled(handlers, n, c, p, d) <==> i < |handlers| && handlers[i] == Handler(n, c, p, d)
  {
    hide Lookup;
    var i := Lookup(handlers, n);
    if IsHandled(handlers, n, c, p, d) {
      var k :| 0 <= k < |handlers| && handlers[k] == Handler(n, c, p, d) && First(handlers, k);
      LookupUnique(handlers, n, k);
    }
    if i < |handlers| && handlers[i] == Handler(n, c, p, d) { assert First(handlers, i); }
  }

  /** setBackgroundHandling registers the handler with its conditions and data, or takes it away if no condition is left; numbers
      out of range change nothing. Every other socket keeps its handler. */
  lemma {:induction false} SetMeans(s: Sockets, n: int, c: nat, p: Pointer, d: Pointer)
    requires Distinct(s.handlers)
    ensures var t := Set(s, n, c, p, d);
      && (if !InRange(n) then t == s else if c == 0 then IsFree(t.handlers, n) else IsHandled(t.handlers, n, c, p, d))
      && forall m, c', p', d' :: m != n ==> (IsHandled(t.handlers, m, c', p', d') <==> IsHandled(s.handlers, m, c', p', d'))
  {
    hide Lookup, Distinct, Assigned, Cleared, IsHandled, HasBit;
    var t := Set(s, n, c, p, d);
    if InRange(n) {
      AssignedLookup(s.handlers, Handler(n, c, p, d), n);
      ClearedLookup(s.handlers, n, n);
      if c != 0 { HandledLookup(t.handlers, n, c, p, d); }
      forall m, c', p', d' | m != n
        ensures IsHandled(t.handlers, m, c', p', d') <==> IsHandled(s.handlers, m, c', p', d')
      {
        AssignedLookup(s.handlers, Handler(n, c, p, d), m);
        ClearedLookup(s.handlers, n, m);
        HandledLookup(t.handlers, m, c', p', d');
        HandledLookup(s.handlers, m, c', p', d');
      }
    }
  }

  /** moveSocketHandling hands the handler on to a free socket with everything but its number; all others stay. */
  lemma {:induction false} MoveMeans(s: Sockets, o: int, n: int, c: nat, p: Pointer, d: Pointer)
    requires Distinct(s.handlers) && InRange(o) && InRange(n)
    requires IsHandled(s.handlers, o, c, p, d) && (IsFree(s.handlers, n) || o == n)
    ensures var t := Move(s, o, n);
      && IsHandled(t.handlers, n, c, p, d) && (o != n ==> IsFree(t.handlers, o))
      && forall m, c', p', d' :: m != n && m != o ==> (IsHandled(t.handlers, m, c', p', d') <==> IsHandled(s.handlers, m, c', p', d'))
  {
    hide Lookup, Distinct, IsHandled;
    var t := Move(s, o, n);
    HandledLookup(s.handlers, o, c, p, d);
    RenumberedLookup(s.handlers, o, n, n);
    RenumberedLookup(s.handlers, o, n, o);
    HandledLookup(t.handlers, n, c, p, d);
    forall m, c', p', d' | m != n && m != o
      ensures IsHandled(t.handlers, m, c', p', d') <==> IsHandled(s.handlers, m, c', p', d')
    {
      RenumberedLookup(s.handlers, o, n, m);
      HandledLookup(t.handlers, m, c', p', d');
      HandledLookup(s.handlers, m, c', p', d');
    }
  }

  /** A call that does not name socket `n`. */
  predicate Spares(call: Call, n: int) {
    match call
    case SetBackgroundHandling(m, _, _, _) => m != n
    case MoveSocketHandling(o, m) => o != n && m != n
  }

  lemma {:induction false} SparedStays(s: Sockets, call: Call, n: int)
    requires Spares(call, n) && Lookup(s.handlers, n) < |s.handlers|
    ensures var t := Called(s, call);
      Lookup(t.handlers, n) < |t.handlers| && t.handlers[Lookup(t.handlers, n)] == s.handlers[Lookup(s.handlers, n)]
  {
    hide Lookup, HasBit;
    var k, t := Lookup(s.handlers, n), Called(s, call);
    var i := match call case SetBackgroundHandling(m, _, _, _) => Lookup(s.handlers, m) case MoveSocketHandling(o, _) => Lookup(s.handlers, o);
    LookupUnique(t.handlers, n, if |t.handlers| > |s.handlers| then k + 1 else if |t.handlers| < |s.handlers| && i < k then k - 1 else k);
  }

  lemma {:induction false} AllSpared(s: Sockets, calls: seq<Call>, n: int, c: nat, p: Pointer, d: Pointer)
    requires IsHandled(s.handlers, n, c, p, d) && forall i :: 0 <= i < |calls| ==> Spares(calls[i], n)
    ensures IsHandled(CalledAll(s, calls).handlers, n, c, p, d)
  {
    hide Called, Lookup, Spares, IsHandled;
    if calls != [] {
      var before := CalledAll(s, calls[..|calls| - 1]);
      AllSpared(s, calls[..|calls| - 1], n, c, p, d);
      HandledLookup(before.handlers, n, c, p, d);
      SparedStays(before, calls[|calls| - 1], n);
      HandledLookup(CalledAll(s, calls).handlers, n, c, p, d);
    }
  }

  /** The conditions found on a socket that are among those asked for, bit by bit. */
  predicate Asked(found: Selected, n: int, c: nat) {
    (c / 2 % 2 == 1 && n in found.readSet) || (c / 4 % 2 == 1 && n in found.writeSet) || (c / 8 % 2 == 1 && n in found.exceptionSet)
  }

  /** What is registered for a socket stays through all calls that do not name it, fires just when one of its conditions is
      found, and is what gets called whenever the socket is served. */
  lemma {:induction false} RegisteredIsCalled(s: Sockets, n: int, c: nat, p: Pointer, d: Pointer, calls: seq<Call>, found: Selected)
    requires Coherent(s) && InRange(n) && c > 0
    requires forall i :: 0 <= i < |calls| ==> Spares(calls[i], n)
    requires Coherent(CalledAll(Set(s, n, c, p, d), calls))
    ensures var t := CalledAll(Set(s, n, c, p, d), calls);
      && IsHandled(t.handlers, n, c, p, d)
      && (Fires(t, found, Handler(n, c, p, d)) <==> p != 0 && Asked(found, n, c))
      && (Served(t, found).1 < |t.handlers| && t.handlers[Served(t, found).1].socketNum == n ==>
            t.handlers[Served(t, found).1] == Handler(n, c, p, d))
  {
    hide Lookup, Called, Set, IsHandled, Served, HasBit, ResultConditionSet;
    var t := CalledAll(Set(s, n, c, p, d), calls);
    SetMeans(s, n, c, p, d);
    AllSpared(Set(s, n, c, p, d), calls, n, c, p, d);
    HandledLookup(t.handlers, n, c, p, d);
    ResultBits(t, found, n);
    AskedBits(found, n, c);
  }

  lemma {:induction false} AskedBits(found: Selected, n: int, c: nat)
    ensures Asked(found, n, c) <==>
            || (HasBit(c, SOCKET_READABLE) && n in found.readSet)
            || (HasBit(c, SOCKET_WRITABLE) && n in found.writeSet)
            || (HasBit(c, SOCKET_EXCEPTION) && n in found.exceptionSet)
  {
  }

  predicate NonNegative(handlers: seq<Handler>) {
    forall i :: 0 <= i < |handlers| ==> handlers[i].socketNum >= 0
  }

  /** An earlier handler has the same socket number. Once this one has been called, the next step starts behind the first. */
  predicate Repeated(handlers: seq<Handler>, c: nat)
    requires c < |handlers|
  {
    Lookup(handlers, handlers[c].socketNum) < c
  }

  /** Going back to the first handler with its number, a repeated handler that can be called does not skip position `k`. */
  predicate Guarded(s: Sockets, k: nat)
    requires k < |s.handlers|
  {
    forall c :: 0 <= c < |s.handlers| && c != k && Repeated(s.handlers, c) && CanFire(s, s.handlers[c]) ==>
      Lookup(s.handlers, s.handlers[c].socketNum) < k < c
  }

  lemma {:induction false} DistinctGuarded(s: Sockets, k: nat)
    requires Distinct(s.handlers) && k < |s.handlers|
    ensures Guarded(s, k)
  {
    hide Lookup;
    forall c | 0 <= c < |s.handlers| ensures !Repeated(s.handlers, c) { LookupUnique(s.handlers, s.handlers[c].socketNum, c); }
  }

  lemma {:induction false} StartAfter(s: Sockets, found: Selected)
    requires NonNegative(s.handlers) && Served(s, found).1 < |s.handlers|
    ensures var (t, c) := Served(s, found); Start(t) == Lookup(s.handlers, s.handlers[c].socketNum) + 1 <= c + 1
  {
    hide FirstFiring, Lookup;
    var (t, c) := Served(s, found);
    assert !(forall j :: 0 <= j < c + 1 ==> s.handlers[j].socketNum != s.handlers[c].socketNum);
  }

  /** A handler that could be called is called, or comes closer. */
  lemma {:induction false} ComesCloser(s: Sockets, found: Selected, k: nat)
    requires NonNegative(s.handlers) && k < |s.handlers| && Fires(s, found, s.handlers[k]) && Guarded(s, k)
    ensures var (t, c) := Served(s, found); t.handlers == s.handlers && c < |s.handlers| && (c != k ==> Distance(t, k) < Distance(s, k))
  {
    hide FirstFiring, Fires, Lookup, CanFire, Start;
    var (t, c) := Served(s, found);
    StartAfter(s, found);
    FiresCan(s, found, s.handlers[c]);
  }

  /** The handlers called in a run in which the handler set stays as it is. */
  function RunServed(s: Sockets, founds: seq<Selected>): (r: seq<nat>)
    ensures |r| == |founds|
    decreases |founds|
  {
    if founds == [] then [] else [Served(s, founds[0]).1] + RunServed(Served(s, founds[0]).0, founds[1..])
  }

  /** A guarded handler that could be called in every step is called within as many steps as there are handlers. When all
      socket numbers are different every handler is guarded. */
  lemma {:induction false} ServedInTurn(s: Sockets, founds: seq<Selected>, k: nat)
    requires NonNegative(s.handlers) && k < |s.handlers| && |founds| > Distance(s, k) && Guarded(s, k)
    requires forall i :: 0 <= i < |founds| ==> Fires(s, founds[i], s.handlers[k])
    ensures exists i :: 0 <= i <= Distance(s, k) < |s.handlers| && RunServed(s, founds)[i] == k
    decreases |founds|
  {
    hide Chosen, Start, Fires, Lookup;
    ComesCloser(s, founds[0], k);
    var (t, c) := Served(s, founds[0]);
    var run := RunServed(s, founds);
    if c == k {
      assert run[0] == k;
    } else {
      LastIsNoMatter(s, t);
      ServedInTurn(t, founds[1..], k);
      var i :| 0 <= i <= Distance(t, k) < |t.handlers| && RunServed(t, founds[1..])[i] == k;
      assert run[i + 1] == RunServed(t, founds[1..])[i];
    }
  }

  /** Which handlers fire does not depend on the one called last. */
  lemma {:induction false} LastIsNoMatter(s: Sockets, t: Sockets)
    requires t == s.(lastHandled := t.lastHandled)
    ensures forall found, h :: Fires(s, found, h) <==> Fires(t, found, h)
    ensures forall h :: CanFire(s, h) <==> CanFire(t, h)
    ensures forall k :: 0 <= k < |s.handlers| ==> (Guarded(s, k) <==> Guarded(t, k))
  {
    hide HasBit, Lookup;
  }

  // ---------- Which ready sockets are served when a number is repeated ----------

  /** What is found on socket `n` is always the same. */
  predicate Steady(founds: seq<Selected>, n: int, ready: Selected) {
    forall i :: 0 <= i < |founds| ==> Same(founds[i], n, ready)
  }

  predicate Same(found: Selected, n: int, ready: Selected) {
    && (n in found.readSet <==> n in ready.readSet)
    && (n in found.writeSet <==> n in ready.writeSet)
    && (n in found.exceptionSet <==> n in ready.exceptionSet)
  }

  /** Position `k` is that of a handler of socket `n` that can be called. */
  predicate Own(s: Sockets, n: int, ready: Selected, k: nat)
    requires k < |s.handlers|
  {
    s.handlers[k].socketNum == n && Fires(s, ready, s.handlers[k])
  }

  lemma {:induction false} OwnFires(s: Sockets, n: int, ready: Selected, found: Selected, k: nat)
    requires k < |s.handlers| && Same(found, n, ready) && Own(s, n, ready, k)
    ensures Fires(s, found, s.handlers[k])
  {
    hide HasBit;
  }

  /** Whenever another socket's number is repeated, there is a handler of socket `n` between its first handler and the repeated
      one (if that can be called). */
  predicate Reached(s: Sockets, n: int, ready: Selected) {
    forall c :: 0 <= c < |s.handlers| && s.handlers[c].socketNum != n && Repeated(s.handlers, c) && CanFire(s, s.handlers[c]) ==>
      exists k :: Lookup(s.handlers, s.handlers[c].socketNum) < k < c && Own(s, n, ready, k)
  }

  /** The first position from `p` on with a handler of socket `n` that can be called. */
  function FirstOwn(s: Sockets, n: int, ready: Selected, p: nat): (k: nat)
    requires p <= |s.handlers|
    ensures p <= k <= |s.handlers|
    ensures k < |s.handlers| ==> Own(s, n, ready, k)
    ensures forall j :: p <= j < k ==> !Own(s, n, ready, j)
    decreases |s.handlers| - p
  {
    if p == |s.handlers| || Own(s, n, ready, p) then p else FirstOwn(s, n, ready, p + 1)
  }

  /** That position, counted on beyond the end of the list if it is found from the beginning. */
  function Target(s: Sockets, n: int, ready: Selected): nat {
    var k := FirstOwn(s, n, ready, Start(s));
    if k < |s.handlers| then k else |s.handlers| + FirstOwn(s, n, ready, 0)
  }

  lemma {:induction false} TargetCloser(s: Sockets, found: Selected, n: int, ready: Selected)
    requires NonNegative(s.handlers) && Same(found, n, ready) && Reached(s, n, ready)
    requires FirstOwn(s, n, ready, 0) < |s.handlers|
    ensures var (t, c) := Served(s, found);
      && t == s.(lastHandled := t.lastHandled) && c < |s.handlers|
      && (s.handlers[c].socketNum != n ==>
            Target(t, n, ready) < Target(s, n, ready) || (Target(t, n, ready) == Target(s, n, ready) && Start(t) > Start(s)))
  {
    hide FirstFiring, Fires, Lookup, CanFire, FirstOwn, Start, Own;
    var own, first := FirstOwn(s, n, ready, Start(s)), FirstOwn(s, n, ready, 0);
    OwnFires(s, n, ready, found, first);
    if own < |s.handlers| { OwnFires(s, n, ready, found, own); }
    var (t, c) := Served(s, found);
    StartAfter(s, found);
    if s.handlers[c].socketNum != n {
      FiresCan(s, found, s.handlers[c]);
      SameOwn(s, t, n, ready, Start(t));
      NotOwn(s, n, ready, c);
      SameOwn(s, t, n, ready, 0);
      if Repeated(s.handlers, c) {
        var k :| Lookup(s.handlers, s.handlers[c].socketNum) < k < c && Own(s, n, ready, k);
        assert FirstOwn(s, n, ready, Start(t)) <= k;
      } else {
        assert Start(t) == c + 1;
        if Start(s) <= c { FirstOwnUnique(s, n, ready, c + 1, own); } else { FirstOwnUnique(s, n, ready, c + 1, first); }
      }
    }
  }

  lemma {:induction false} NotOwn(s: Sockets, n: int, ready: Selected, c: nat)
    requires c < |s.handlers| && s.handlers[c].socketNum != n
    ensures !Own(s, n, ready, c)
  {
  }

  lemma {:induction false} FirstOwnUnique(s: Sockets, n: int, ready: Selected, p: nat, k: nat)
    requires p <= k <= |s.handlers| && (k < |s.handlers| ==> Own(s, n, ready, k))
    requires forall j :: p <= j < k ==> !Own(s, n, ready, j)
    ensures FirstOwn(s, n, ready, p) == k
  {
    hide FirstOwn, Own;
    var f := FirstOwn(s, n, ready, p);
  }

  lemma {:induction false} SameOwn(s: Sockets, t: Sockets, n: int, ready: Selected, p: nat)
    requires t == s.(lastHandled := t.lastHandled) && p <= |s.handlers|
    ensures FirstOwn(t, n, ready, p) == FirstOwn(s, n, ready, p)
    decreases |s.handlers| - p
  {
    hide Fires;
    LastIsNoMatter(s, t);
    if p < |s.handlers| { SameOwn(s, t, n, ready, p + 1); }
  }

  lemma {:induction false} SameReached(s: Sockets, t: Sockets, n: int, ready: Selected)
    requires t == s.(lastHandled := t.lastHandled)
    ensures Reached(s, n, ready) <==> Reached(t, n, ready)
  {
    hide Fires, CanFire, Lookup;
    LastIsNoMatter(s, t);
    assert forall k :: 0 <= k < |s.handlers| ==> (Own(s, n, ready, k) <==> Own(t, n, ready, k));
  }

  /** How many steps socket `n` can wait at most. */
  function Patience(s: Sockets, n: int, ready: Selected): nat {
    Target(s, n, ready) * (|s.handlers| + 1) + (|s.handlers| - Start(s))
  }

  lemma {:induction false} LessPatience(s: Sockets, t: Sockets, n: int, ready: Selected)
    requires |s.handlers| == |t.handlers|
    requires Target(t, n, ready) < Target(s, n, ready) || (Target(t, n, ready) == Target(s, n, ready) && Start(t) > Start(s))
    ensures Patience(t, n, ready) < Patience(s, n, ready)
  {
    hide Target, Start;
    var m := |s.handlers| + 1;
    if Target(t, n, ready) < Target(s, n, ready) { FewerRounds(Target(t, n, ready), Target(s, n, ready), m); }
  }

  lemma {:induction false} FewerRounds(a: nat, b: nat, m: nat)
    requires a < b
    ensures a * m + m <= b * m
    decreases b
  {
    if a + 1 < b { FewerRounds(a, b - 1, m); }
    assert b * m == (b - 1) * m + m;
  }

  /** In some step of the run a handler of socket `n` is called. */
  predicate Visits(s: Sockets, founds: seq<Selected>, n: int) {
    exists i :: 0 <= i < |founds| && RunServed(s, founds)[i] < |s.handlers| && s.handlers[RunServed(s, founds)[i]].socketNum == n
  }

  lemma {:induction false} ReachedIsServed(s: Sockets, founds: seq<Selected>, n: int, ready: Selected)
    requires NonNegative(s.handlers) && Reached(s, n, ready) && FirstOwn(s, n, ready, 0) < |s.handlers|
    requires Steady(founds, n, ready) && |founds| > Patience(s, n, ready)
    ensures Visits(s, founds, n)
    decreases |founds|
  {
    hide Served, FirstOwn, Target, Start, Reached, Patience, Same;
    TargetCloser(s, founds[0], n, ready);
    var (t, c) := Served(s, founds[0]);
    var run := RunServed(s, founds);
    if s.handlers[c].socketNum == n {
      assert run[0] == c;
    } else {
      LessPatience(s, t, n, ready);
      SameReached(s, t, n, ready);
      SameOwn(s, t, n, ready, 0);
      ReachedIsServed(t, founds[1..], n, ready);
      var i :| 0 <= i < |founds[1..]| && RunServed(t, founds[1..])[i] < |t.handlers| && t.handlers[RunServed(t, founds[1..])[i]].socketNum == n;
      assert run[i + 1] == RunServed(t, founds[1..])[i];
    }
  }

  /** What select finds when nothing but sockets `n` and `m` is ready. */
  function OnlyTwo(s: Sockets, n: int, ready: Selected, m: int): Selected {
    Selected(OneSet(s.readSet, ready.readSet, n, m), OneSet(s.writeSet, ready.writeSet, n, m),
             OneSet(s.exceptionSet, ready.exceptionSet, n, m))
  }

  function OneSet(asked: set<int>, ready: set<int>, n: int, m: int): set<int> {
    (asked * {m}) + (ready * {n})
  }

  /** The first repeated handler of the socket of `c` that can be called. */
  lemma {:induction false} FirstRepeat(s: Sockets, c: nat) returns (d: nat)
    requires c < |s.handlers| && Repeated(s.handlers, c) && CanFire(s, s.handlers[c])
    ensures d <= c && s.handlers[d].socketNum == s.handlers[c].socketNum && Repeated(s.handlers, d) && CanFire(s, s.handlers[d])
    ensures forall j :: Lookup(s.handlers, s.handlers[c].socketNum) < j < d && s.handlers[j].socketNum == s.handlers[c].socketNum ==>
              !CanFire(s, s.handlers[j])
    decreases c
  {
    hide Lookup, CanFire;
    if j :| Lookup(s.handlers, s.handlers[c].socketNum) < j < c && s.handlers[j].socketNum == s.handlers[c].socketNum && CanFire(s, s.handlers[j]) {
      d := FirstRepeat(s, j);
    } else {
      d := c;
    }
  }

  lemma {:induction false} OnlyTwoFire(s: Sockets, n: int, ready: Selected, m: int, k: nat)
    requires k < |s.handlers| && m != n
    ensures Same(OnlyTwo(s, n, ready, m), n, ready)
    ensures Fires(s, OnlyTwo(s, n, ready, m), s.handlers[k]) <==>
            Own(s, n, ready, k) || (s.handlers[k].socketNum == m && CanFire(s, s.handlers[k]))
  {
    hide HasBit, ResultConditionSet;
    var h, found := s.handlers[k], OnlyTwo(s, n, ready, m);
    ResultBits(s, found, h.socketNum);
    ResultBits(s, ready, h.socketNum);
    ResultBits(s, Selected(s.readSet, s.writeSet, s.exceptionSet), h.socketNum);
  }

  /** Repeated handler `d` is called in every step, and everything outside the handlers between the first one with its number and
      itself waits. */
  lemma {:induction false} Stuck(s: Sockets, found: Selected, d: nat, founds: seq<Selected>)
    requires NonNegative(s.handlers) && d < |s.handlers| && Repeated(s.handlers, d) && s.lastHandled == s.handlers[d].socketNum
    requires Fires(s, found, s.handlers[d])
    requires forall j :: Lookup(s.handlers, s.handlers[d].socketNum) < j < d ==> !Fires(s, found, s.handlers[j])
    requires forall i :: 0 <= i < |founds| ==> founds[i] == found
    ensures forall i :: 0 <= i < |founds| ==> RunServed(s, founds)[i] == d
    decreases |founds|
  {
    hide FirstFiring, Fires, Lookup;
    if founds != [] {
      FirstFiringUnique(s, found, Start(s), d);
      assert Served(s, founds[0]) == (s, d);
      Stuck(s, found, d, founds[1..]);
    }
  }

  /** What is always found, over and over. */
  function Again(found: Selected, steps: nat): (r: seq<Selected>)
    ensures |r| == steps && forall i :: 0 <= i < steps ==> r[i] == found
  {
    seq(steps, _ => found)
  }

  /** If a ready socket is skipped by a repeated number, it can wait for ever. */
  lemma {:induction false} SkippedStarves(s: Sockets, n: int, ready: Selected) returns (last: int, found: Selected)
    requires NonNegative(s.handlers) && !Reached(s, n, ready)
    ensures Same(found, n, ready) && last >= 0
    ensures forall steps: nat :: !Visits(s.(lastHandled := last), Again(found, steps), n)
  {
    hide Lookup, Fires, CanFire, Same, Own, Again, OnlyTwo, RunServed;
    var c :| 0 <= c < |s.handlers| && s.handlers[c].socketNum != n && Repeated(s.handlers, c) && CanFire(s, s.handlers[c])
             && !(exists k :: Lookup(s.handlers, s.handlers[c].socketNum) < k < c && Own(s, n, ready, k));
    var d := FirstRepeat(s, c);
    last := s.handlers[c].socketNum;
    found := OnlyTwo(s, n, ready, last);
    var t := s.(lastHandled := last);
    LastIsNoMatter(s, t);
    OnlyTwoFire(s, n, ready, last, d);
    forall j | Lookup(s.handlers, last) < j < d ensures !Fires(t, found, s.handlers[j]) {
      OnlyTwoFire(s, n, ready, last, j);
    }
    forall steps: nat ensures !Visits(t, Again(found, steps), n) {
      Stuck(t, found, d, Again(found, steps));
    }
  }

  /** A socket on which something stays ready is served in the end, from every state of the rotation and whatever else is ready,
      exactly when it is reached. */
  lemma {:induction false} ServedIffReached(s: Sockets, n: int, ready: Selected)
    requires NonNegative(s.handlers) && FirstOwn(s, n, ready, 0) < |s.handlers|
    ensures Reached(s, n, ready) <==>
            forall last: int, founds ::
              Steady(founds, n, ready) && |founds| > Patience(s.(lastHandled := last), n, ready)
              ==> Visits(s.(lastHandled := last), founds, n)
  {
    hide Reached, Visits, Patience, FirstOwn, Again, Same;
    if Reached(s, n, ready) {
      forall last: int, founds | Steady(founds, n, ready) && |founds| > Patience(s.(lastHandled := last), n, ready)
        ensures Visits(s.(lastHandled := last), founds, n)
      {
        SameReached(s, s.(lastHandled := last), n, ready);
        SameOwn(s, s.(lastHandled := last), n, ready, 0);
        ReachedIsServed(s.(lastHandled := last), founds, n, ready);
      }
    } else {
      var last, found := SkippedStarves(s, n, ready);
      var founds := Again(found, Patience(s.(lastHandled := last), n, ready) + 1);
      assert Steady(founds, n, ready) && !Visits(s.(lastHandled := last), founds, n);
    }
  }

  // ---------- A socket that starves ----------

  /** Two handlers for socket 3, and one for socket 7 behind them. */
  function Doubled(): Sockets {
    Sockets([Handler(3, 2, 1, 0), Handler(3, 2, 3, 0), Handler(7, 2, 2, 0)], {3, 7}, {}, {}, 8, 3)
  }

  /** While socket 3 stays ready, socket 7 is never served, though it is ready all the time. */
  lemma {:induction false} DoubledStarves(founds: seq<Selected>)
    requires forall i :: 0 <= i < |founds| ==> founds[i] == Selected({3, 7}, {}, {})
    ensures forall i :: 0 <= i < |founds| ==> Fires(Doubled(), founds[i], Doubled().handlers[2]) && RunServed(Doubled(), founds)[i] == 1
    ensures !Visits(Doubled(), founds, 7)
  {
    hide FirstFiring, Lookup, RunServed;
    var s := Doubled();
    LookupUnique(s.handlers, 3, 0);
    Stuck(s, Selected({3, 7}, {}, {}), 1, founds);
  }

  function NoSockets(): Sockets {
    Sockets([], {}, {}, {}, 0, -1)
  }

  /** Such a list comes about when handling is moved onto a socket that is handled already; then socket 3 is served once. */
  lemma {:induction false} DoubledReachable()
    ensures var s := Set(Set(Set(NoSockets(), 7, 2, 2, 0), 4, 2, 3, 0), 3, 2, 1, 0);
      Coherent(s) && Served(Move(s, 4, 3), Selected({3}, {}, {})) == (Doubled(), 0)
  {
    hide Coherent, Set, FirstFiring, Lookup;
    var s0, h3, h7, h4 := NoSockets(), Handler(3, 2, 1, 0), Handler(7, 2, 2, 0), Handler(4, 2, 3, 0);
    LookupUnique(s0.handlers, 7, 0);
    SetNew(s0, 7, 2);
    var s1 := Sockets([h7], {7}, {}, {}, 8, -1);
    assert Set(s0, 7, 2, 2, 0) == s1;
    LookupUnique(s1.handlers, 4, 1);
    SetNew(s1, 4, 3);
    var s2 := Sockets([h4, h7], {4, 7}, {}, {}, 8, -1);
    assert Set(s1, 4, 2, 3, 0) == s2;
    LookupUnique(s2.handlers, 3, 2);
    SetNew(s2, 3, 1);
    var s3 := Sockets([h3, h4, h7], {3, 4, 7}, {}, {}, 8, -1);
    assert Set(s2, 3, 2, 1, 0) == s3;
    LookupUnique(s3.handlers, 4, 1);
    var s4 := Doubled().(lastHandled := -1);
    assert Move(s3, 4, 3) == s4;
    FirstFiringUnique(s4, Selected({3}, {}, {}), 0, 0);
    NothingCoherent();
    SetKeepsCoherent(s0, 7, 2, 2, 0);
    SetKeepsCoherent(s1, 4, 2, 3, 0);
    SetKeepsCoherent(s2, 3, 2, 1, 0);
  }

  /** A new socket that waits to be read. */
  lemma {:induction false} SetNew(s: Sockets, n: int, proc: Pointer)
    requires 0 <= n < FD_SETSIZE && Lookup(s.handlers, n) == |s.handlers| && s.writeSet == s.exceptionSet == {} && n !in s.readSet
    ensures Set(s, n, 2, proc, 0) == Sockets([Handler(n, 2, proc, 0)] + s.handlers, s.readSet + {n}, {}, {},
                                             if n + 1 > s.maxNumSockets then n + 1 else s.maxNumSockets, s.lastHandled)
  {
    hide Lookup;
    assert With(s.readSet, n, true) == s.readSet + {n};
  }

  lemma {:induction false} NothingCoherent()
    ensures Coherent(NoSockets())
  {
  }
}
