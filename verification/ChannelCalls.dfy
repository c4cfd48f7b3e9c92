/** What becomes of the logged calls of the event channel: counting, for each call id, where the call
    and its return are. */
module ChannelCalls {
  import opened Channel
  import opened ChannelPairs
  import opened ChannelRefs
  import opened Pending
  import opened Sums
  import opened ThreadState

  // The call with id c: about to be sent, on the socket, shown.
  function Sending(c: nat): Thread -> nat {
    (th: Thread) => if th.doing.Calling? && th.frames != [] && Top(th).cid == c then 1 else 0
  }

  function CallOnWire(c: nat): Msg -> nat { (m: Msg) => if m.CallMsg? && m.cid == c then 1 else 0 }

  function CallShown(c: nat): Out -> nat { (o: Out) => if !o.ReturnOnly? && o.cid == c then 1 else 0 }

  function Waiting(s: State, c: nat): nat { if c in s.pending.calls then 1 else 0 }

  // Copies of call c past its emit.
  function CallCopies(s: State, c: nat): nat {
    Total(s.socket, CallOnWire(c)) + Waiting(s, c) + Total(s.out, CallShown(c))
  }

  // The return of call c: still to come from the stack, on the socket, shown.
  function FrameHas(c: nat): Frame -> nat { (f: Frame) => if f.cid == c then 1 else 0 }

  function ReturnDue(c: nat): Thread -> nat { (th: Thread) => Total(th.frames, FrameHas(c)) }

  predicate IsReturn(m: Msg, c: nat) { (m.ReturnMsg? || m.ObjReturnMsg?) && m.cid == c }

  function ReturnOnWire(c: nat): Msg -> nat { (m: Msg) => if IsReturn(m, c) then 1 else 0 }

  function ReturnShown(c: nat): Out -> nat { (o: Out) => if !o.CallOnly? && o.cid == c then 1 else 0 }

  function ReturnCopies(s: State, c: nat): nat {
    Total(s.threads, ReturnDue(c)) + Total(s.socket, ReturnOnWire(c)) + Total(s.out, ReturnShown(c))
  }

  // ---------------------------------------------------------------------------------------------
  // Steps of the threads
  // ---------------------------------------------------------------------------------------------

  predicate Draws(s: State, a: Action, c: nat) {
    a.Enter? && s.ready && a.allowed && c == s.counter + 1
  }

  predicate Sends(s: State, a: Action, c: nat)
    requires a.EmitCall? ==> a.t < |s.threads| && s.threads[a.t].frames != []
  {
    a.EmitCall? && Top(s.threads[a.t]).cid == c
  }

  lemma {:induction false} SendingStep(s: State, a: Action, c: nat)
    requires Enabled(s, a)
    ensures Total(Apply(s, a).threads, Sending(c)) + (if Sends(s, a, c) then 1 else 0)
         == Total(s.threads, Sending(c)) + (if Draws(s, a, c) then 1 else 0)
  {
    if OfThread(a) {
      SendingOfThread(s, a, c);
      StepIs(s, a);
      hide Apply, CanDo, Sending, Sends, Draws, Total, ThreadAfter, MsgOf, Flushes, Top;
      TotalUpdate(s.threads, a.t, ThreadAfter(s, s.threads[a.t], a), Sending(c));
    } else {
      RestIs(s, a);
      hide Apply, Total, Sending;
    }
  }

  lemma {:induction false} SendingOfThread(s: State, a: Action, c: nat)
    requires Enabled(s, a) && OfThread(a)
    ensures Sending(c)(ThreadAfter(s, s.threads[a.t], a)) + (if Sends(s, a, c) then 1 else 0)
         == Sending(c)(s.threads[a.t]) + (if Draws(s, a, c) then 1 else 0)
  {
    hide PushId, PopDepth, PoppedId, Enumerates, EvictedBy;
  }

  lemma {:induction false} CallCopiesStep(s: State, a: Action, c: nat)
    requires Enabled(s, a) && !a.Receive?
    ensures CallCopies(Apply(s, a), c) == CallCopies(s, c) + if Sends(s, a, c) && a.sent then 1 else 0
    ensures Apply(s, a).delivered ==
              if a.EmitCall? && a.sent then s.delivered + {Top(s.threads[a.t]).cid} else s.delivered
  {
    SocketStep(s, a);
    DeliveredStep(s, a);
    if OfThread(a) && Flushes(s, s.threads[a.t], a) {
      TotalSnoc(s.socket, MsgOf(s.threads[a.t], a), CallOnWire(c));
    }
    hide Apply, Total, Enumerates, PushId, PopDepth, PoppedId;
  }

  lemma {:induction false} DeliveredStep(s: State, a: Action)
    requires Enabled(s, a)
    ensures Apply(s, a).delivered ==
              if a.EmitCall? && a.sent then s.delivered + {Top(s.threads[a.t]).cid} else s.delivered
  {
    if OfThread(a) { StepIs(s, a); } else { RestIs(s, a); }
    hide Apply, ThreadAfter, CanDo, Enumerates, MsgOf, Flushes, Top;
  }

  lemma {:induction false} ReturnDueOfThread(s: State, a: Action, c: nat)
    requires PairInv(s) && Enabled(s, a) && OfThread(a) && c > 0
    ensures var th, th' := s.threads[a.t], ThreadAfter(s, s.threads[a.t], a);
            ReturnDue(c)(th') + (if Flushes(s, th, a) then ReturnOnWire(c)(MsgOf(th, a)) else 0)
            <= ReturnDue(c)(th) + (if Draws(s, a, c) then 1 else 0)
  {
    hide PairInv, Total, PushId, PopDepth, PoppedId, Enumerates;
    var th := s.threads[a.t];
    match a {
      case Enter(t, allowed) =>
        TotalSnoc(th.frames, Frame(s.invs, allowed, if s.ready && allowed then s.counter + 1 else 0), FrameHas(c));
      case Leave(t, sent) => LeaveReturns(s, a, c);
      case LeaveObj(t, sent) => LeaveReturns(s, a, c);
      case _ =>
    }
  }

  lemma {:induction false} LeaveReturns(s: State, a: Action, c: nat)
    requires PairInv(s) && Enabled(s, a) && (a.Leave? || a.LeaveObj?) && c > 0
    ensures var th, th' := s.threads[a.t], ThreadAfter(s, s.threads[a.t], a);
            ReturnDue(c)(th') + (if Flushes(s, th, a) then ReturnOnWire(c)(MsgOf(th, a)) else 0)
            <= ReturnDue(c)(th)
  {
    var th := s.threads[a.t];
    var below := th.frames[..|th.frames| - 1];
    assert ThreadOk(s.ready, s.owner, th);
    hide ThreadOk, PairInv, Total, Cids, PopDepth, PoppedId, Enumerates;
    assert th.frames == below + [Top(th)];
    TotalSnoc(below, Top(th), FrameHas(c));
    if Flushes(s, th, a) {
      assert Top(th).allowed by { LeavingIsAllowed(s, a); }
      PopGivesOwnId(s.ready, s.owner, th);
    }
  }

  lemma {:induction false} LeavingIsAllowed(s: State, a: Action)
    requires PairInv(s) && Enabled(s, a) && (a.Leave? || a.LeaveObj?) && Flushes(s, s.threads[a.t], a)
    ensures Top(s.threads[a.t]).allowed
  {
    assert ThreadOk(s.ready, s.owner, s.threads[a.t]);
  }

  lemma {:induction false} ReturnDueStep(s: State, a: Action, c: nat)
    requires PairInv(s) && Enabled(s, a) && OfThread(a) && c > 0
    ensures var th := s.threads[a.t];
            Total(Apply(s, a).threads, ReturnDue(c))
            + (if Flushes(s, th, a) then ReturnOnWire(c)(MsgOf(th, a)) else 0)
            <= Total(s.threads, ReturnDue(c)) + (if Draws(s, a, c) then 1 else 0)
  {
    ReturnDueOfThread(s, a, c);
    StepIs(s, a);
    hide Apply, Total, MsgOf, ReturnDue, ReturnOnWire, Flushes, Draws, PairInv, ThreadAfter, CanDo;
    TotalUpdate(s.threads, a.t, ThreadAfter(s, s.threads[a.t], a), ReturnDue(c));
  }

  lemma {:induction false} ReturnCopiesStep(s: State, a: Action, c: nat)
    requires PairInv(s) && Enabled(s, a) && !a.Receive? && c > 0
    ensures ReturnCopies(Apply(s, a), c) <= ReturnCopies(s, c) + if Draws(s, a, c) then 1 else 0
  {
    SocketStep(s, a);
    hide PairInv;
    if OfThread(a) {
      ReturnDueStep(s, a, c);
      hide Apply, Enabled, Total, MsgOf, ReturnDue, ReturnOnWire, Flushes, Draws;
      if Flushes(s, s.threads[a.t], a) && a.sent {
        TotalSnoc(s.socket, MsgOf(s.threads[a.t], a), ReturnOnWire(c));
      }
    } else {
      RestIs(s, a);
      hide Apply, Total;
    }
  }

  // ---------------------------------------------------------------------------------------------
  // Steps of the consumer
  // ---------------------------------------------------------------------------------------------

  predicate Distinct(ids: seq<nat>) { forall i, j :: 0 <= i < j < |ids| ==> ids[i] != ids[j] }

  lemma {:induction false} EvictOutShows(order: seq<nat>, calls: map<nat, nat>, c: nat)
    requires Distinct(order) && forall k :: k in order ==> k in calls
    ensures Total(EvictOut(order, calls), CallShown(c)) == if c in order then 1 else 0
    ensures Total(EvictOut(order, calls), ReturnShown(c)) == 0
  {
    var out := EvictOut(order, calls);
    if order != [] {
      assert out[1..] == EvictOut(order[1..], calls);
      assert order == [order[0]] + order[1..];
      EvictOutShows(order[1..], calls, c);
      if c == order[0] {
        assert c !in order[1..];
      }
    }
  }

  lemma {:induction false} StoreAndEvict(t: Table<nat>, id: nat, inv: nat, order: seq<nat>, c: nat)
    requires id !in t.calls
    requires var a := Added(t, id, inv); Enumerates(order, if a.len > EVICT_TRIGGER then Stale(a) else {})
    ensures (if c in Store(t, id, inv).calls then 1 else 0) + (if c in order then 1 else 0)
         == (if c in t.calls then 1 else 0) + if c == id then 1 else 0
    ensures Distinct(order) && forall k :: k in order ==> k in Added(t, id, inv).calls
  {
  }

  // What taking the head off the socket and showing more does to the copies of a call and its return.
  lemma {:induction false} CopiesAfter(s: State, s': State, more: seq<Out>, c: nat)
    requires s.socket != [] && s'.socket == s.socket[1..] && s'.threads == s.threads && s'.out == s.out + more
    ensures CallCopies(s', c) + Waiting(s, c) + CallOnWire(c)(s.socket[0])
         == CallCopies(s, c) + Waiting(s', c) + Total(more, CallShown(c))
    ensures ReturnCopies(s', c) + ReturnOnWire(c)(s.socket[0]) == ReturnCopies(s, c) + Total(more, ReturnShown(c))
  {
    hide Total, CallOnWire, ReturnOnWire, CallShown, ReturnShown, Waiting;
    TotalHead(s.socket, CallOnWire(c));
    TotalHead(s.socket, ReturnOnWire(c));
    TotalConcat(s.out, more, CallShown(c));
    TotalConcat(s.out, more, ReturnShown(c));
  }

  lemma {:induction false} ReceiveCall(s: State, order: seq<nat>, c: nat)
    requires Enabled(s, Receive(order)) && s.socket[0].CallMsg? && s.socket[0].cid !in s.pending.calls
    ensures CallCopies(ApplyReceive(s, order), c) == CallCopies(s, c)
    ensures ReturnCopies(ApplyReceive(s, order), c) == ReturnCopies(s, c)
  {
    var m := s.socket[0];
    var calls := Added(s.pending, m.cid, m.inv).calls;
    StoreAndEvict(s.pending, m.cid, m.inv, order, c);
    CallReceived(s, order);
    hide Total, Store, Added, Enumerates, EvictedBy, EvictOut, Distinct, ApplyReceive, CallCopies, ReturnCopies,
         CallShown, ReturnShown;
    EvictOutShows(order, calls, c);
    CopiesAfter(s, ApplyReceive(s, order), EvictOut(order, calls), c);
  }

  lemma {:induction false} CallReceived(s: State, order: seq<nat>)
    requires Enabled(s, Receive(order)) && s.socket[0].CallMsg?
    ensures var m, s' := s.socket[0], ApplyReceive(s, order);
            && s'.threads == s.threads && s'.socket == s.socket[1..]
            && s'.pending == Store(s.pending, m.cid, m.inv)
            && (forall k :: k in order ==> k in Added(s.pending, m.cid, m.inv).calls)
            && s'.out == s.out + EvictOut(order, Added(s.pending, m.cid, m.inv).calls)
  {
    hide Store, Added, EvictOut, MsgRefs;
  }

  // What the return datagram m makes the consumer show.
  function Answer(t: Table<nat>, m: Msg): Out
    requires m.ReturnMsg? || m.ObjReturnMsg?
  {
    if m.cid in t.calls then Joined(m.cid, t.calls[m.cid], m.inv) else ReturnOnly(m.cid, m.inv)
  }

  lemma {:induction false} ReturnReceived(s: State, order: seq<nat>)
    requires Enabled(s, Receive(order)) && (s.socket[0].ReturnMsg? || s.socket[0].ObjReturnMsg?)
    ensures var m, s' := s.socket[0], ApplyReceive(s, order);
            && s'.threads == s.threads && s'.socket == s.socket[1..]
            && s'.pending.calls == s.pending.calls - {m.cid}
            && s'.out == s.out + [Answer(s.pending, m)]
  {
    hide Enumerates, EvictedBy, MsgRefs;
    var m := s.socket[0];
    assert m.cid !in s.pending.calls ==> s.pending.calls - {m.cid} == s.pending.calls;
  }

  lemma {:induction false} ReceiveReturn(s: State, order: seq<nat>, c: nat)
    requires Enabled(s, Receive(order)) && (s.socket[0].ReturnMsg? || s.socket[0].ObjReturnMsg?)
    ensures CallCopies(ApplyReceive(s, order), c) == CallCopies(s, c)
    ensures ReturnCopies(ApplyReceive(s, order), c) == ReturnCopies(s, c)
  {
    var m := s.socket[0];
    ReturnReceived(s, order);
    hide Total, Enumerates, EvictedBy, ApplyReceive, CallCopies, ReturnCopies;
    TotalOne(Answer(s.pending, m), CallShown(c));
    TotalOne(Answer(s.pending, m), ReturnShown(c));
    CopiesAfter(s, ApplyReceive(s, order), [Answer(s.pending, m)], c);
  }

  lemma {:induction false} ReceiveOther(s: State, order: seq<nat>, c: nat)
    requires Enabled(s, Receive(order)) && (s.socket[0].LookupMsg? || s.socket[0].OtherMsg?)
    ensures CallCopies(ApplyReceive(s, order), c) == CallCopies(s, c)
    ensures ReturnCopies(ApplyReceive(s, order), c) == ReturnCopies(s, c)
  {
    hide Total, Enumerates, EvictedBy, MsgRefs, CallCopies, ReturnCopies;
    assert s.out + [] == s.out;
    TotalNone(CallShown(c));
    TotalNone(ReturnShown(c));
    CopiesAfter(s, ApplyReceive(s, order), [], c);
  }

  // ---------------------------------------------------------------------------------------------
  // The invariant
  // ---------------------------------------------------------------------------------------------

  predicate Counts(sending: nat, calls: nat, rets: nat, kept: bool, c: nat, counter: nat) {
    && calls == (if kept then 1 else 0)
    && sending + calls <= 1
    && (c > 0 ==> rets <= 1)
    && (c > counter ==> sending + calls + rets == 0)
  }

  predicate IdOk(s: State, c: nat) {
    Counts(Total(s.threads, Sending(c)), CallCopies(s, c), ReturnCopies(s, c), c in s.delivered, c, s.counter)
  }

  // No return overtakes its call.
  ghost predicate InOrder(ms: seq<Msg>) {
    forall i, j :: 0 <= i < j < |ms| && ms[j].CallMsg? ==> ms[j].cid == 0 || !IsReturn(ms[i], ms[j].cid)
  }

  predicate WithinTrigger(t: Table<nat>) { |t.calls| <= EVICT_TRIGGER }

  ghost predicate CallInv(s: State) {
    && PairInv(s)
    && (forall c: nat :: IdOk(s, c))
    && InOrder(s.socket)
    && Valid(s.pending) && WithinTrigger(s.pending)
  }

  // A call on the socket is not pending yet.
  lemma {:induction false} HeadIsFresh(s: State)
    requires CallInv(s) && s.socket != [] && s.socket[0].CallMsg?
    ensures s.socket[0].cid !in s.pending.calls && s.socket[0].cid > 0
  {
    var c := s.socket[0].cid;
    assert IdOk(s, c);
    assert MsgOk(s.owner, s.socket[0]);
    hide IdOk;
    TotalHolds(s.socket, 0, CallOnWire(c));
  }

  lemma {:induction false} ReceiveIdOk(s: State, order: seq<nat>, c: nat)
    requires CallInv(s) && Enabled(s, Receive(order))
    ensures IdOk(ApplyReceive(s, order), c)
  {
    assert IdOk(s, c);
    ReceiveRest(s, order);
    if s.socket[0].CallMsg? {
      HeadIsFresh(s);
      ReceiveCall(s, order, c);
    } else if s.socket[0].LookupMsg? || s.socket[0].OtherMsg? {
      ReceiveOther(s, order, c);
    } else {
      ReceiveReturn(s, order, c);
    }
    hide CallCopies, ReturnCopies, Total, CallInv, ApplyReceive, Sending;
  }

  lemma {:induction false} ReceiveRest(s: State, order: seq<nat>)
    requires Enabled(s, Receive(order))
    ensures var s' := ApplyReceive(s, order);
            s'.threads == s.threads && s'.delivered == s.delivered && s'.counter == s.counter
            && s'.socket == s.socket[1..]
  {
    hide Store, Take, Added, Enumerates, MsgRefs;
  }

  lemma {:induction false} CounterStep(s: State, a: Action)
    requires Enabled(s, a)
    ensures Apply(s, a).counter == s.counter + if a.Enter? && s.ready && a.allowed then 1 else 0
  {
    if OfThread(a) { StepIs(s, a); } else { RestIs(s, a); }
    hide Apply, ThreadAfter, CanDo, Enumerates, MsgOf, Flushes, Top;
  }

  lemma {:induction false} ThreadIdOk(s: State, a: Action, c: nat)
    requires CallInv(s) && Enabled(s, a) && !a.Receive?
    ensures IdOk(Apply(s, a), c)
  {
    assert IdOk(s, c) && PairInv(s);
    hide CallInv, PairInv, Total, Sending, Apply, CallCopies, ReturnCopies, Enumerates, EvictedBy, CanDo, Top, Counts;
    var s' := Apply(s, a);
    SendingStep(s, a, c);
    CallCopiesStep(s, a, c);
    if c > 0 { ReturnCopiesStep(s, a, c); }
    CounterStep(s, a);
    CountsStep(Total(s.threads, Sending(c)), CallCopies(s, c), ReturnCopies(s, c), c in s.delivered, c, s.counter,
               Total(s'.threads, Sending(c)), CallCopies(s', c), ReturnCopies(s', c), c in s'.delivered, s'.counter,
               Draws(s, a, c), Sends(s, a, c), a.EmitCall? && a.sent);
  }

  lemma {:induction false} CountsStep(sending: nat, calls: nat, rets: nat, kept: bool, c: nat, counter: nat,
                                      sending': nat, calls': nat, rets': nat, kept': bool, counter': nat,
                                      draws: bool, sends: bool, sent: bool)
    requires Counts(sending, calls, rets, kept, c, counter)
    requires sending' + (if sends then 1 else 0) == sending + (if draws then 1 else 0)
    requires calls' == calls + (if sends && sent then 1 else 0) && kept' == (kept || (sends && sent))
    requires c > 0 ==> rets' <= rets + if draws then 1 else 0
    requires counter <= counter' && (draws ==> c == counter + 1 == counter')
    ensures Counts(sending', calls', rets', kept', c, counter')
  {
  }

  lemma {:induction false} OrderStep(s: State, a: Action)
    requires CallInv(s) && Enabled(s, a) && !a.Receive?
    ensures InOrder(Apply(s, a).socket)
  {
    SocketStep(s, a);
    if a.EmitCall? && a.sent {
      var c := Top(s.threads[a.t]).cid;
      assert IdOk(s, c);
      CallAheadOfReturn(s, a.t);
    }
    hide Apply, CallInv, IdOk;
  }

  // While a call is about to be sent its return is not on the socket.
  lemma {:induction false} CallAheadOfReturn(s: State, t: nat)
    requires CallInv(s) && t < |s.threads| && s.threads[t].doing.Calling? && s.threads[t].frames != []
    ensures forall i :: 0 <= i < |s.socket| ==> !IsReturn(s.socket[i], Top(s.threads[t]).cid)
  {
    var th := s.threads[t];
    var c := Top(th).cid;
    assert IdOk(s, c);
    assert ThreadOk(s.ready, s.owner, th) && c > 0;
    hide CallInv, Total;
    TotalHolds(th.frames, |th.frames| - 1, FrameHas(c));
    TotalHolds(s.threads, t, ReturnDue(c));
    forall i | 0 <= i < |s.socket| ensures !IsReturn(s.socket[i], c) {
      TotalHolds(s.socket, i, ReturnOnWire(c));
    }
  }

  lemma {:induction false} PendingStep(s: State, a: Action)
    requires CallInv(s) && Enabled(s, a)
    ensures Valid(Apply(s, a).pending) && WithinTrigger(Apply(s, a).pending)
  {
    if a.Receive? {
      var m := s.socket[0];
      if m.CallMsg? { HeadIsFresh(s); }
      hide CallInv, Store, Take, Valid, WithinTrigger, Enumerates, EvictedBy;
      match m {
        case CallMsg(cid, inv, _) => StoreBound(s.pending, cid, inv);
        case ReturnMsg(cid, inv, _) => TakeBound(s.pending, cid);
        case ObjReturnMsg(cid, inv, _, _) => TakeBound(s.pending, cid);
        case _ =>
      }
    } else {
      SocketStep(s, a);
    }
  }

  lemma {:induction false} TakeBound(t: Table<nat>, id: nat)
    requires Valid(t) && WithinTrigger(t)
    ensures Valid(Take(t, id)) && WithinTrigger(Take(t, id))
  {
    TakeKeepsValid(t, id);
    if id in t.calls { RemovedSize(t.calls, {id}); }
  }

  lemma {:induction false} CallStep(s: State, a: Action)
    requires CallInv(s) && Enabled(s, a)
    ensures CallInv(Apply(s, a))
  {
    PairStep(s, a);
    PendingStep(s, a);
    if a.Receive? {
      forall c: nat ensures IdOk(Apply(s, a), c) { ReceiveIdOk(s, a.order, c); }
      ReceiveRest(s, a.order);
    } else {
      forall c: nat ensures IdOk(Apply(s, a), c) { ThreadIdOk(s, a, c); }
      OrderStep(s, a);
    }
    hide IdOk, PairInv, Enabled, Apply;
  }

  lemma {:induction false} RunKeepsCalls(s: State, actions: seq<Action>, s': State)
    requires Run(s, actions, s') && CallInv(s)
    ensures CallInv(s')
    decreases |actions|
  {
    hide CallInv, Enabled, Apply;
    if actions != [] {
      CallStep(s, actions[0]);
      RunKeepsCalls(Apply(s, actions[0]), actions[1..], s');
    }
  }

  lemma {:induction false} ReachableCalls(n: nat, s: State)
    requires Reachable(n, s)
    ensures CallInv(s)
  {
    var actions :| Run(Init(n), actions, s);
    forall c: nat ensures IdOk(Init(n), c) {
      TotalZero(Init(n).threads, Sending(c));
      TotalZero(Init(n).threads, ReturnDue(c));
    }
    RunKeepsCalls(Init(n), actions, s);
  }

  // ---------------------------------------------------------------------------------------------
  // What the log shows
  // ---------------------------------------------------------------------------------------------

  /** A call whose datagram the socket accepted is on the socket, waiting for its return, or shown,
      exactly once; a call that was dropped or never logged is nowhere. */
  lemma {:induction false} DeliveredCallKeptOnce(n: nat, s: State, c: nat)
    requires Reachable(n, s)
    ensures Total(s.socket, CallOnWire(c)) + Waiting(s, c) + Total(s.out, CallShown(c))
         == if c in s.delivered then 1 else 0
  {
    ReachableCalls(n, s);
    assert IdOk(s, c);
  }

  /** The table of waiting calls never exceeds its bound, and its running count is its size. */
  lemma {:induction false} WaitingIsBounded(n: nat, s: State)
    requires Reachable(n, s)
    ensures s.pending.len == |s.pending.calls| <= 8192
  {
    ReachableCalls(n, s);
  }

  /** When the return of a logged call comes off the socket, it finds its call waiting exactly when
      the call's datagram was not dropped and the call was not evicted in the meantime. */
  lemma {:induction false} ReturnFindsItsCall(n: nat, s: State, c: nat)
    requires Reachable(n, s) && c > 0 && s.socket != [] && IsReturn(s.socket[0], c)
    ensures c in s.pending.calls
       <==> c in s.delivered && forall i :: 0 <= i < |s.out| ==> !(s.out[i].CallOnly? && s.out[i].cid == c)
  {
    ReachableCalls(n, s);
    assert IdOk(s, c);
    assert Total(s.socket, CallOnWire(c)) == 0 by {
      assert forall j :: 0 < j < |s.socket| && s.socket[j].CallMsg? ==> s.socket[j].cid != c;
      TotalZero(s.socket, CallOnWire(c));
    }
    NotShownYet(s, c);
    hide CallInv, IdOk, Total;
    if c in s.pending.calls {
      forall i | 0 <= i < |s.out| ensures !(s.out[i].CallOnly? && s.out[i].cid == c) {
        TotalHolds(s.out, i, CallShown(c));
      }
    } else if forall i :: 0 <= i < |s.out| ==> !(s.out[i].CallOnly? && s.out[i].cid == c) {
      TotalZero(s.out, CallShown(c));
    }
  }

  // While a return is on the socket nothing has been joined to its call.
  lemma {:induction false} NotShownYet(s: State, c: nat)
    requires CallInv(s) && c > 0 && s.socket != [] && IsReturn(s.socket[0], c)
    ensures forall i :: 0 <= i < |s.out| ==> !(s.out[i].Joined? && s.out[i].cid == c)
  {
    assert IdOk(s, c);
    hide CallInv, Total;
    TotalHolds(s.socket, 0, ReturnOnWire(c));
    forall i | 0 <= i < |s.out| ensures !(s.out[i].Joined? && s.out[i].cid == c) {
      TotalHolds(s.out, i, ReturnShown(c));
    }
  }
}
