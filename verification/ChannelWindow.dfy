/** Which calls of the event channel are given up: only ones far behind, and only under load. */
module ChannelWindow {
  import opened Channel
  import opened ChannelCalls
  import opened ChannelPairs
  import opened Pending
  import opened Sums
  import opened ThreadState

  // The newest id waiting was delivered, and whatever was given up lies more than 4096 below it.
  ghost predicate WindowInv(s: State) {
    && (s.pending.newest == 0 || s.pending.newest in s.delivered)
    && forall i :: 0 <= i < |s.out| && s.out[i].CallOnly? ==> s.out[i].cid + 4096 < s.pending.newest
  }

  lemma {:induction false} HeadIsDelivered(s: State)
    requires CallInv(s) && s.socket != [] && s.socket[0].CallMsg?
    ensures s.socket[0].cid in s.delivered
  {
    var c := s.socket[0].cid;
    assert IdOk(s, c);
    hide CallInv, Total;
    TotalHolds(s.socket, 0, CallOnWire(c));
  }

  lemma {:induction false} ReceivedOut(s: State, order: seq<nat>)
    requires CallInv(s) && Enabled(s, Receive(order)) && WindowInv(s)
    ensures WindowInv(ApplyReceive(s, order))
  {
    ReceiveRest(s, order);
    if s.socket[0].CallMsg? {
      HeadIsDelivered(s);
      hide CallInv;
      CallReceived(s, order);
      EvictedAreOld(s.pending, s.socket[0].cid, s.socket[0].inv, order);
      hide ApplyReceive, Enumerates, EvictedBy, Store;
      CallKeepsWindow(s, order, ApplyReceive(s, order));
    } else if s.socket[0].ReturnMsg? || s.socket[0].ObjReturnMsg? {
      hide CallInv;
      ReturnReceived(s, order);
      NewestStays(s, order);
      hide ApplyReceive, Enumerates, EvictedBy;
    } else {
      OthersReceived(s, order);
      hide CallInv, ApplyReceive, Enumerates, EvictedBy;
    }
  }

  lemma {:induction false} CallKeepsWindow(s: State, order: seq<nat>, s': State)
    requires WindowInv(s) && s.socket != [] && s.socket[0].CallMsg? && s.socket[0].cid in s.delivered
    requires s'.delivered == s.delivered && s'.pending.newest >= s.pending.newest
    requires s'.pending.newest == s.socket[0].cid || s'.pending.newest == s.pending.newest
    requires forall i :: 0 <= i < |order| ==> order[i] + 4096 < s'.pending.newest
    requires var a := Added(s.pending, s.socket[0].cid, s.socket[0].inv);
             (forall k :: k in order ==> k in a.calls) && s'.out == s.out + EvictOut(order, a.calls)
    ensures WindowInv(s')
  {
    hide Added;
  }

  lemma {:induction false} NewestStays(s: State, order: seq<nat>)
    requires Enabled(s, Receive(order)) && (s.socket[0].ReturnMsg? || s.socket[0].ObjReturnMsg?)
    ensures ApplyReceive(s, order).pending.newest == s.pending.newest
  {
    hide Enumerates, EvictedBy, MsgRefs;
  }

  lemma {:induction false} OthersReceived(s: State, order: seq<nat>)
    requires Enabled(s, Receive(order)) && (s.socket[0].LookupMsg? || s.socket[0].OtherMsg?)
    ensures ApplyReceive(s, order).pending == s.pending && ApplyReceive(s, order).out == s.out
  {
    hide Enumerates, EvictedBy, MsgRefs;
  }

  lemma {:induction false} EvictedAreOld(t: Table<nat>, id: nat, inv: nat, order: seq<nat>)
    requires var a := Added(t, id, inv); Enumerates(order, if a.len > EVICT_TRIGGER then Stale(a) else {})
    ensures var a := Added(t, id, inv);
            && Store(t, id, inv).newest == a.newest >= t.newest && (a.newest == id || a.newest == t.newest)
            && forall i :: 0 <= i < |order| ==> order[i] + 4096 < a.newest
  {
    forall i | 0 <= i < |order| ensures order[i] + 4096 < Added(t, id, inv).newest { assert order[i] in order; }
  }

  lemma {:induction false} WindowStep(s: State, a: Action)
    requires CallInv(s) && Enabled(s, a) && WindowInv(s)
    ensures WindowInv(Apply(s, a))
  {
    if a.Receive? {
      ReceivedOut(s, a.order);
    } else {
      SocketStep(s, a);
      DeliveredStep(s, a);
      hide Apply, Enabled, CallInv;
    }
  }

  lemma {:induction false} RunKeepsWindow(s: State, actions: seq<Action>, s': State)
    requires Run(s, actions, s') && CallInv(s) && WindowInv(s)
    ensures CallInv(s') && WindowInv(s')
    decreases |actions|
  {
    hide CallInv, WindowInv, Enabled, Apply;
    if actions != [] {
      CallStep(s, actions[0]);
      WindowStep(s, actions[0]);
      RunKeepsWindow(Apply(s, actions[0]), actions[1..], s');
    }
  }

  lemma {:induction false} ReachableWindow(n: nat, s: State)
    requires Reachable(n, s)
    ensures WindowInv(s)
  {
    var actions :| Run(Init(n), actions, s);
    ReachableCalls(n, Init(n)) by { assert Run(Init(n), [], Init(n)); }
    hide Run, CallInv;
    RunKeepsWindow(Init(n), actions, s);
  }

  /** A call is given up, and shown without a result, only after a call with an id more than 4096 higher was
      delivered. */
  lemma {:induction false} GivenUpIsFarBehind(n: nat, s: State, i: nat)
    requires Reachable(n, s) && i < |s.out| && s.out[i].CallOnly?
    ensures exists d :: d in s.delivered && s.out[i].cid + 4096 < d
  {
    ReachableWindow(n, s);
    assert s.pending.newest in s.delivered;
  }

  // Some element weighs something.
  lemma {:induction false} SomeWeighs<T>(xs: seq<T>, weight: T -> nat) returns (i: nat)
    requires Total(xs, weight) > 0
    ensures i < |xs| && weight(xs[i]) > 0
  {
    if weight(xs[0]) > 0 {
      i := 0;
    } else {
      i := SomeWeighs(xs[1..], weight);
      i := i + 1;
    }
  }

  predicate OnSocket(s: State, c: nat) {
    exists i :: 0 <= i < |s.socket| && s.socket[i].CallMsg? && s.socket[i].cid == c
  }

  predicate JoinedIn(s: State, c: nat) { exists i :: 0 <= i < |s.out| && s.out[i].Joined? && s.out[i].cid == c }

  /** A delivered call that no delivered call exceeds by more than 4096 is on the socket, still waiting for its
      return, or joined to it. */
  lemma {:induction false} RecentIsKept(n: nat, s: State, c: nat)
    requires Reachable(n, s) && c in s.delivered && forall d :: d in s.delivered ==> d <= c + 4096
    ensures OnSocket(s, c) || c in s.pending.calls || JoinedIn(s, c)
  {
    DeliveredCallKeptOnce(n, s, c);
    ReachableWindow(n, s);
    hide Reachable, Total;
    if Total(s.socket, CallOnWire(c)) > 0 {
      var i := SomeWeighs(s.socket, CallOnWire(c));
      assert s.socket[i].CallMsg? && s.socket[i].cid == c;
    } else if c !in s.pending.calls {
      var i := SomeWeighs(s.out, CallShown(c));
      assert s.out[i].Joined? && s.out[i].cid == c;
    }
  }

  /** A return that comes off the socket while its call waits is shown joined to it, once, under the invocation
      both belong to, and the call stops waiting; a return whose call does not wait is shown alone. */
  lemma {:induction false} ReturnIsJoined(n: nat, s: State, order: seq<nat>)
    requires Reachable(n, s) && Enabled(s, Receive(order)) && (s.socket[0].ReturnMsg? || s.socket[0].ObjReturnMsg?)
    ensures var m, s' := s.socket[0], ApplyReceive(s, order);
            && s'.out == s.out + [
                 if m.cid in s.pending.calls then Joined(m.cid, m.inv, m.inv) else ReturnOnly(m.cid, m.inv)
               ]
            && m.cid !in s'.pending.calls
            && forall k :: k != m.cid ==> (k in s'.pending.calls <==> k in s.pending.calls)
  {
    ReachableCalls(n, s);
    var m := s.socket[0];
    assert MsgOk(s.owner, m);
    assert m.cid in s.pending.calls ==> Drew(s.owner, m.cid, s.pending.calls[m.cid]) && m.cid > 0;
    hide CallInv, Reachable;
    ReturnReceived(s, order);
    hide ApplyReceive, Enumerates, EvictedBy;
  }

  /** A call that comes off the socket waits for its return, under its own invocation. */
  lemma {:induction false} CallWaits(n: nat, s: State, order: seq<nat>)
    requires Reachable(n, s) && Enabled(s, Receive(order)) && s.socket[0].CallMsg?
    ensures var m, s' := s.socket[0], ApplyReceive(s, order);
            && ((m.cid in s'.pending.calls && s'.pending.calls[m.cid] == m.inv) || m.cid + 4096 < s.pending.newest)
            && (order == [] ==> s'.pending.calls == s.pending.calls[m.cid := m.inv] && s'.out == s.out)
  {
    CallReceived(s, order);
    var m := s.socket[0];
    StoreKeeps(s.pending, m.cid, m.inv, m.cid);
    EvictNone(s, order);
    hide ApplyReceive, Enumerates, EvictedBy, Store, Added, Reachable;
    if order == [] { assert s.out + EvictOut(order, Added(s.pending, m.cid, m.inv).calls) == s.out; }
  }

  lemma {:induction false} EvictNone(s: State, order: seq<nat>)
    requires Enabled(s, Receive(order)) && s.socket[0].CallMsg?
    ensures var m := s.socket[0];
            order == [] ==> Store(s.pending, m.cid, m.inv).calls == s.pending.calls[m.cid := m.inv]
  {
    var m := s.socket[0];
    var a := Added(s.pending, m.cid, m.inv);
    if order == [] && a.len > EVICT_TRIGGER {
      forall k ensures k !in Stale(a) { assert k in Stale(a) ==> k in order; }
      assert a.calls - Stale(a) == a.calls;
    }
  }

  /** Calls are given up only when 8192 are waiting and one more arrives. */
  lemma {:induction false} GivenUpUnderLoad(n: nat, s: State, order: seq<nat>)
    requires Reachable(n, s) && Enabled(s, Receive(order)) && order != []
    ensures s.socket[0].CallMsg? && |s.pending.calls| == 8192
  {
    WaitingIsBounded(n, s);
    assert order[0] in order;
  }

  // ---------------------------------------------------------------------------------------------
  // A run
  // ---------------------------------------------------------------------------------------------

  // The thread after its logged call was sent.
  const CALLED := Thread([Frame(0, true, 1)], PushId(NO_CALLS, 1), [], Nothing)

  // Running actions and then one more.
  lemma {:induction false} RunThen(s: State, actions: seq<Action>, s1: State, a: Action)
    requires Run(s, actions, s1) && Enabled(s1, a)
    ensures Run(s, actions + [a], Apply(s1, a))
    decreases |actions|
  {
    hide Enabled, Apply;
    if actions == [] {
      assert [a][1..] == [];
      assert Run(Apply(s1, a), [], Apply(s1, a));
    } else {
      RunThen(Apply(s, actions[0]), actions[1..], s1, a);
      assert (actions + [a])[1..] == actions[1..] + [a];
    }
  }

  lemma {:induction false} CallSent() returns (actions: seq<Action>, s: State)
    ensures Run(Init(1), actions, s) && s.ready && s.counter == 1 && s.invs == 1 && s.owner == [0] && s.minted == 1
    ensures s.threads == [CALLED] && s.socket == [CallMsg(1, 0, [0])]
    ensures s.pending == Empty<nat>() && s.out == [] && s.deleted == multiset{}
  {
    var s0 := Init(1);
    assert Run(s0, [], s0);
    RunThen(s0, [], s0, ConsumerReady);
    var s1 := Apply(s0, ConsumerReady);
    RunThen(s0, [] + [ConsumerReady], s1, LoggingReady);
    var s2 := Apply(s1, LoggingReady);
    RunThen(s0, [] + [ConsumerReady] + [LoggingReady], s2, Push(0));
    var s3 := Apply(s2, Push(0));
    var no: seq<nat> := [];
    assert no + [0] == [0];
    assert s3.threads[0] == Thread([], NO_CALLS, [0], Nothing);
    assert s3.threads == [Thread([], NO_CALLS, [0], Nothing)];
    RunThen(s0, [] + [ConsumerReady] + [LoggingReady] + [Push(0)], s3, Enter(0, true));
    var s4 := Apply(s3, Enter(0, true));
    var none: seq<Frame> := [];
    assert none + [Frame(0, true, 1)] == [Frame(0, true, 1)];
    assert s4.threads[0] == Thread([Frame(0, true, 1)], PushId(NO_CALLS, 1), [0], Calling);
    assert s4.threads == [Thread([Frame(0, true, 1)], PushId(NO_CALLS, 1), [0], Calling)];
    actions := [] + [ConsumerReady] + [LoggingReady] + [Push(0)] + [Enter(0, true)];
    RunThen(s0, actions, s4, EmitCall(0, true));
    actions, s := actions + [EmitCall(0, true)], Apply(s4, EmitCall(0, true));
    assert s.threads == [CALLED];
  }

  lemma {:induction false} ReturnSent() returns (actions: seq<Action>, s: State)
    ensures Run(Init(1), actions, s) && s.socket == [CallMsg(1, 0, [0]), ReturnMsg(1, 0, [])]
    ensures s.pending == Empty<nat>() && s.out == [] && s.deleted == multiset{}
  {
    var s1;
    actions, s1 := CallSent();
    assert PoppedId(PushId(NO_CALLS, 1)) == 1;
    RunThen(Init(1), actions, s1, Leave(0, true));
    actions, s := actions + [Leave(0, true)], Apply(s1, Leave(0, true));
  }

  lemma {:induction false} OneCallStored(s: State)
    requires s.socket == [CallMsg(1, 0, [0]), ReturnMsg(1, 0, [])] && s.pending == Empty<nat>() && s.out == []
    requires s.deleted == multiset{}
    ensures Enabled(s, Receive([]))
    ensures var s' := Apply(s, Receive([]));
            && s'.socket == [ReturnMsg(1, 0, [])] && s'.pending == Table(map[1 := 0], 1, 1, 0) && s'.out == []
            && s'.deleted == multiset{0}
  {
    var calls := Added(s.pending, 1, 0).calls;
    assert calls == map[1 := 0];
    assert EvictOut([], calls) == [];
  }

  lemma {:induction false} OneReturnJoined(s: State)
    requires s.socket == [ReturnMsg(1, 0, [])] && s.pending == Table(map[1 := 0], 1, 1, 0) && s.out == []
    requires s.deleted == multiset{0}
    ensures Enabled(s, Receive([]))
    ensures var s' := Apply(s, Receive([]));
            s'.socket == [] && s'.out == [Joined(1, 0, 0)] && s'.deleted == multiset{0}
  {
  }

  /** There are such runs: a call and its return, joined, with the object's reference deleted. */
  lemma {:induction false} SomeCallIsJoined() returns (s: State)
    ensures Reachable(1, s) && s.out == [Joined(1, 0, 0)] && s.deleted == multiset{0} && s.socket == []
  {
    var actions, s1 := ReturnSent();
    hide Run, Apply, Enabled;
    OneCallStored(s1);
    RunThen(Init(1), actions, s1, Receive([]));
    var s2 := Apply(s1, Receive([]));
    OneReturnJoined(s2);
    RunThen(Init(1), actions + [Receive([])], s2, Receive([]));
    s := Apply(s2, Receive([]));
  }
}
