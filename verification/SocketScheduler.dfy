/** The scheduler's socket fields, updated in place; the linked list of handlers is a sequence. */
module SocketSchedulers {
  import opened Options
  import opened SocketRotation

  class BasicTaskScheduler {
    var fHandlers: seq<Handler>
    var fReadSet: set<int>
    var fWriteSet: set<int>
    var fExceptionSet: set<int>
    var fMaxNumSockets: int
    var fLastHandledSocketNum: int

    function Model(): Sockets
      reads this
    {
      Sockets(fHandlers, fReadSet, fWriteSet, fExceptionSet, fMaxNumSockets, fLastHandledSocketNum)
    }

    /** Every handler has a socket number that the sets can hold. */
    ghost predicate Valid()
      reads this
    {
      fLastHandledSocketNum >= -1 && forall i :: 0 <= i < |fHandlers| ==> fHandlers[i].socketNum >= 0
    }

    constructor ()
      ensures Valid() && Model() == NoSockets()
    {
      fHandlers, fReadSet, fWriteSet, fExceptionSet := [], {}, {}, {};
      fMaxNumSockets, fLastHandledSocketNum := 0, -1;
    }

    /** lookupHandler, as a position in the list; the length of the list for NULL. */
    method LookupHandler(socketNum: int) returns (i: nat)
      ensures i == Lookup(fHandlers, socketNum)
    {
      i := 0;
      while i < |fHandlers|
        invariant i <= |fHandlers|
        invariant forall j :: 0 <= j < i ==> fHandlers[j].socketNum != socketNum
      {
        if fHandlers[i].socketNum == socketNum { break; }
        i := i + 1;
      }
      LookupUnique(fHandlers, socketNum, i);
    }

    /** The part of setBackgroundHandling that updates the three sets. */
    method SetBits(socketNum: int, conditionSet: nat)
      modifies `fReadSet, `fWriteSet, `fExceptionSet
      ensures fReadSet == With(old(fReadSet), socketNum, HasBit(conditionSet, SOCKET_READABLE))
      ensures fWriteSet == With(old(fWriteSet), socketNum, HasBit(conditionSet, SOCKET_WRITABLE))
      ensures fExceptionSet == With(old(fExceptionSet), socketNum, HasBit(conditionSet, SOCKET_EXCEPTION))
    {
      hide HasBit;
      NoBits(SOCKET_READABLE);
      NoBits(SOCKET_WRITABLE);
      NoBits(SOCKET_EXCEPTION);
      fReadSet, fWriteSet, fExceptionSet := fReadSet - {socketNum}, fWriteSet - {socketNum}, fExceptionSet - {socketNum};
      if conditionSet != 0 {
        if HasBit(conditionSet, SOCKET_READABLE) { fReadSet := fReadSet + {socketNum}; }
        if HasBit(conditionSet, SOCKET_WRITABLE) { fWriteSet := fWriteSet + {socketNum}; }
        if HasBit(conditionSet, SOCKET_EXCEPTION) { fExceptionSet := fExceptionSet + {socketNum}; }
      }
    }

    method SetBackgroundHandling(socketNum: int, conditionSet: nat, handlerProc: Pointer, clientData: Pointer)
      requires Valid()
      modifies this
      ensures Valid() && Model() == Set(old(Model()), socketNum, conditionSet, handlerProc, clientData)
    {
      hide Lookup, HasBit, With;
      if socketNum < 0 || socketNum >= FD_SETSIZE { return; }
      SetBits(socketNum, conditionSet);
      var i := LookupHandler(socketNum);
      if conditionSet == 0 {
        if i < |fHandlers| { fHandlers := fHandlers[..i] + fHandlers[i + 1..]; }
        if socketNum + 1 == fMaxNumSockets { fMaxNumSockets := fMaxNumSockets - 1; }
      } else {
        var h := Handler(socketNum, conditionSet, handlerProc, clientData);
        fHandlers := if i < |fHandlers| then fHandlers[i := h] else [h] + fHandlers;
        if socketNum + 1 > fMaxNumSockets { fMaxNumSockets := socketNum + 1; }
      }
    }

    /** The part of moveSocketHandling that updates the three sets. */
    method MoveBits(oldSocketNum: int, newSocketNum: int)
      modifies `fReadSet, `fWriteSet, `fExceptionSet
      ensures fReadSet == Shifted(old(fReadSet), oldSocketNum, newSocketNum)
      ensures fWriteSet == Shifted(old(fWriteSet), oldSocketNum, newSocketNum)
      ensures fExceptionSet == Shifted(old(fExceptionSet), oldSocketNum, newSocketNum)
    {
      if oldSocketNum in fReadSet { fReadSet := fReadSet - {oldSocketNum} + {newSocketNum}; }
      if oldSocketNum in fWriteSet { fWriteSet := fWriteSet - {oldSocketNum} + {newSocketNum}; }
      if oldSocketNum in fExceptionSet { fExceptionSet := fExceptionSet - {oldSocketNum} + {newSocketNum}; }
    }

    method MoveSocketHandling(oldSocketNum: int, newSocketNum: int)
      requires Valid()
      modifies this
      ensures Valid() && Model() == Move(old(Model()), oldSocketNum, newSocketNum)
    {
      hide Lookup, HasBit, Shifted;
      if oldSocketNum < 0 || newSocketNum < 0 { return; }
      if oldSocketNum >= FD_SETSIZE || newSocketNum >= FD_SETSIZE { return; }
      MoveBits(oldSocketNum, newSocketNum);
      var i := LookupHandler(oldSocketNum);
      if i < |fHandlers| { fHandlers := fHandlers[i := fHandlers[i].(socketNum := newSocketNum)]; }
      if oldSocketNum + 1 == fMaxNumSockets { fMaxNumSockets := fMaxNumSockets - 1; }
      if newSocketNum + 1 > fMaxNumSockets { fMaxNumSockets := newSocketNum + 1; }
    }

    /** What a handler does with the socket handling. */
    method RunScript(script: seq<Call>)
      requires Valid()
      modifies this
      ensures Valid() && Model() == CalledAll(old(Model()), script)
    {
      hide Set, Move;
      ghost var s := Model();
      for k := 0 to |script|
        invariant Valid() && Model() == CalledAll(s, script[..k])
      {
        assert script[..k + 1][..k] == script[..k];
        match script[k] {
          case SetBackgroundHandling(n, c, p, d) => SetBackgroundHandling(n, c, p, d);
          case MoveSocketHandling(o, n) => MoveSocketHandling(o, n);
        }
      }
      assert script[..|script|] == script;
    }

    /** One pass over the handlers from position `next`; stops at the first that fires, recording its socket. */
    method Pass(found: Selected, next: nat) returns (k: nat)
      requires Valid() && next <= |fHandlers|
      modifies this`fLastHandledSocketNum
      ensures Valid() && k == FirstFiring(old(Model()), found, next)
      ensures fLastHandledSocketNum == if k < |fHandlers| then fHandlers[k].socketNum else old(fLastHandledSocketNum)
    {
      hide FirstFiring, Fires;
      ghost var s := Model();
      k := next;
      while k < |fHandlers|
        invariant next <= k <= |fHandlers| && Model() == s
        invariant forall j :: next <= j < k ==> !Fires(s, found, s.handlers[j])
      {
        if Fires(Model(), found, fHandlers[k]) {
          FirstFiringUnique(s, found, next, k);
          fLastHandledSocketNum := fHandlers[k].socketNum;
          return;
        }
        k := k + 1;
      }
      FirstFiringUnique(s, found, next, k);
    }

    /** The part of SingleStep that serves sockets, up to the call of a handler: its position, or the length of the list. */
    method ServeSocket(found: Selected) returns (k: nat)
      requires Valid()
      modifies this`fLastHandledSocketNum
      ensures Valid() && (Model(), k) == Served(old(Model()), found)
    {
      hide FirstFiring, Fires, Lookup;
      ghost var s := Model();
      var next := 0;
      if fLastHandledSocketNum >= 0 {
        next := LookupHandler(fLastHandledSocketNum);
        if next < |fHandlers| {
          next := next + 1;
        } else {
          fLastHandledSocketNum := -1;
          next := 0;
        }
      }
      FiringIgnoresLast(s, found, fLastHandledSocketNum, next);
      FiringIgnoresLast(s, found, fLastHandledSocketNum, 0);
      k := Pass(found, next);
      if k == |fHandlers| && fLastHandledSocketNum >= 0 {
        k := Pass(found, 0);
        if k == |fHandlers| { fLastHandledSocketNum := -1; }
      }
    }

    /** The part of SingleStep that serves sockets; `script` is what the handler does if one is called. */
    method SingleStep(found: Selected, script: seq<Call>) returns (called: Option<(Handler, nat)>)
      requires Valid()
      modifies this
      ensures Valid()
      ensures var (s, k) := Served(old(Model()), found);
        if k < |s.handlers| then
          && called == Some((s.handlers[k], ResultConditionSet(old(Model()), found, s.handlers[k].socketNum)))
          && Model() == CalledAll(s, script)
        else called == None && Model() == s
    {
      hide Chosen, CalledAll;
      var k := ServeSocket(found);
      if k == |fHandlers| { return None; }
      called := Some((fHandlers[k], ResultConditionSet(Model(), found, fHandlers[k].socketNum)));
      RunScript(script);
    }
  }

  lemma {:induction false} FiringIgnoresLast(s: Sockets, found: Selected, last: int, i: nat)
    requires i <= |s.handlers|
    ensures FirstFiring(s.(lastHandled := last), found, i) == FirstFiring(s, found, i)
  {
    hide FirstFiring;
    FirstFiringUnique(s.(lastHandled := last), found, i, FirstFiring(s, found, i));
  }
}
