/** Which results the consumer joins to which calls. */
module ChannelPairs {
  import opened Channel
  import opened ChannelRefs
  import opened Pending
  import opened ThreadState

  // The ids on a thread's stack of logged calls, outermost first.
  function Cids(frames: seq<Frame>): seq<nat> {
    if frames == [] then []
    else
      var f := frames[|frames| - 1];
      Cids(frames[..|frames| - 1]) + if f.cid != 0 then [f.cid] else []
  }

  // Call id cid was drawn by invocation inv.
  predicate Drew(owner: seq<nat>, cid: nat, inv: nat) {
    0 < cid <= |owner| && owner[cid - 1] == inv
  }

  // Nested invocations: those let through by the filter but not logged (they began before logging
  // was ready) all lie below the logged ones.
  ghost predicate FramesOk(ready: bool, owner: seq<nat>, frames: seq<Frame>) {
    && (forall i :: 0 <= i < |frames| && frames[i].cid != 0 ==>
          ready && frames[i].allowed && Drew(owner, frames[i].cid, frames[i].inv))
    && forall i, j :: 0 <= i < j < |frames| && frames[j].allowed && frames[j].cid == 0 ==> frames[i].cid == 0
  }

  ghost predicate ThreadOk(ready: bool, owner: seq<nat>, th: Thread) {
    && Holds(th.calls, Cids(th.frames))
    && FramesOk(ready, owner, th.frames)
    && (th.doing.Calling? ==> th.frames != [] && Top(th).cid != 0)
    && (th.doing.Returning? ==> th.frames != [] && Top(th).allowed)
  }

  predicate MsgOk(owner: seq<nat>, m: Msg) {
    match m
    case CallMsg(cid, inv, _) => Drew(owner, cid, inv)
    case ReturnMsg(cid, inv, _) => cid == 0 || Drew(owner, cid, inv)
    case ObjReturnMsg(cid, inv, _, _) => cid == 0 || Drew(owner, cid, inv)
    case _ => true
  }

  predicate OutOk(owner: seq<nat>, o: Out) {
    match o
    case Joined(cid, call, ret) => call == ret && Drew(owner, cid, call)
    case CallOnly(cid, call) => Drew(owner, cid, call)
    case ReturnOnly(_, _) => true
  }

  ghost predicate PendingOk(owner: seq<nat>, calls: map<nat, nat>) {
    forall k :: k in calls ==> Drew(owner, k, calls[k])
  }

  ghost predicate SocketOk(owner: seq<nat>, ms: seq<Msg>) {
    forall i :: 0 <= i < |ms| ==> MsgOk(owner, ms[i])
  }

  ghost predicate OutsOk(owner: seq<nat>, out: seq<Out>) {
    forall i :: 0 <= i < |out| ==> OutOk(owner, out[i])
  }

  ghost predicate ThreadsOk(s: State) {
    forall i :: 0 <= i < |s.threads| ==> ThreadOk(s.ready, s.owner, s.threads[i])
  }

  ghost predicate PairInv(s: State) {
    && |s.owner| == s.counter
    && ThreadsOk(s)
    && SocketOk(s.owner, s.socket)
    && PendingOk(s.owner, s.pending.calls)
    && OutsOk(s.owner, s.out)
  }

  // ---------------------------------------------------------------------------------------------
  // One thread
  // ---------------------------------------------------------------------------------------------

  lemma {:induction false} NoLoggedFrames(frames: seq<Frame>)
    requires forall i :: 0 <= i < |frames| ==> frames[i].cid == 0
    ensures Cids(frames) == []
  {
    if frames != [] { NoLoggedFrames(frames[..|frames| - 1]); }
  }

  lemma {:induction false} CidsSnoc(frames: seq<Frame>, f: Frame)
    ensures Cids(frames + [f]) == Cids(frames) + if f.cid != 0 then [f.cid] else []
  {
    assert (frames + [f])[..|frames|] == frames;
  }

  lemma {:induction false} ThreadOkExtends(ready: bool, ready': bool, owner: seq<nat>, owner': seq<nat>, th: Thread)
    requires ThreadOk(ready, owner, th) && owner <= owner' && (ready ==> ready')
    ensures ThreadOk(ready', owner', th)
  {
    hide Cids, Holds;
  }

  lemma {:induction false} EnterKeepsThread(s: State, t: nat, allowed: bool)
    requires PairInv(s) && Enabled(s, Enter(t, allowed))
    ensures ThreadOk(s.ready, ApplyEnter(s, t, allowed).owner, ApplyEnter(s, t, allowed).threads[t])
  {
    var th := s.threads[t];
    assert ThreadOk(s.ready, s.owner, th) && |s.owner| == s.counter;
    hide PairInv, ThreadOk, Enumerates, EvictedBy;
    if s.ready && allowed {
      LoggedEnter(s.owner, th, s.invs);
    } else {
      PlainEnter(s.ready, s.owner, th, s.invs, allowed);
    }
  }

  lemma {:induction false} LoggedEnter(owner: seq<nat>, th: Thread, inv: nat)
    requires ThreadOk(true, owner, th)
    ensures var cid := |owner| + 1;
            ThreadOk(true, owner + [inv], th.(frames := th.frames + [Frame(inv, true, cid)],
                                              calls := PushId(th.calls, cid), doing := Calling))
  {
    hide Cids, FramesOk, Holds, PushId;
    var cid := |owner| + 1;
    CidsSnoc(th.frames, Frame(inv, true, cid));
    PushHolds(th.calls, Cids(th.frames), cid);
    FramesSnoc(true, owner, th.frames, Frame(inv, true, cid), owner + [inv]);
  }

  lemma {:induction false} PlainEnter(ready: bool, owner: seq<nat>, th: Thread, inv: nat, allowed: bool)
    requires ThreadOk(ready, owner, th) && th.doing.Nothing? && !(ready && allowed)
    ensures ThreadOk(ready, owner, th.(frames := th.frames + [Frame(inv, allowed, 0)]))
  {
    hide Cids, FramesOk, Holds;
    CidsSnoc(th.frames, Frame(inv, allowed, 0));
    assert Cids(th.frames) + [] == Cids(th.frames);
    FramesSnoc(ready, owner, th.frames, Frame(inv, allowed, 0), owner);
  }

  lemma {:induction false} FramesSnoc(ready: bool, owner: seq<nat>, frames: seq<Frame>, f: Frame, owner': seq<nat>)
    requires FramesOk(ready, owner, frames) && owner <= owner'
    requires if f.cid != 0 then ready && f.allowed && Drew(owner', f.cid, f.inv) else !ready || !f.allowed
    ensures FramesOk(ready, owner', frames + [f])
  {
  }

  /** A pop gives the frame on top its own id: 0 when that frame is past the array or was not logged,
      and never the id of another frame. What remains of the stack stands for the frames below. */
  lemma {:induction false} PopGivesOwnId(ready: bool, owner: seq<nat>, th: Thread)
    requires ThreadOk(ready, owner, th) && th.frames != [] && Top(th).allowed
    ensures PoppedId(th.calls) == if |Cids(th.frames)| <= 32 then Top(th).cid else 0
    ensures ThreadOk(ready, owner, Popped(th).(doing := Nothing))
  {
    var below := th.frames[..|th.frames| - 1];
    PopHolds(th.calls, Cids(th.frames));
    if Top(th).cid == 0 {
      forall i | 0 <= i < |th.frames| ensures th.frames[i].cid == 0 {
        if i < |th.frames| - 1 { assert th.frames[|th.frames| - 1].allowed; }
      }
      NoLoggedFrames(th.frames);
      NoLoggedFrames(below);
    } else {
      var st := Cids(th.frames);
      assert st == Cids(below) + [Top(th).cid];
      assert st[..|st| - 1] == Cids(below);
    }
    BelowOk(ready, owner, th.frames);
  }

  lemma {:induction false} BelowOk(ready: bool, owner: seq<nat>, frames: seq<Frame>)
    requires FramesOk(ready, owner, frames) && frames != []
    ensures FramesOk(ready, owner, frames[..|frames| - 1])
  {
  }

  lemma {:induction false} LeaveKeepsThread(s: State, t: nat, sent: bool)
    requires PairInv(s) && Enabled(s, Leave(t, sent))
    ensures ThreadOk(s.ready, s.owner, ApplyLeave(s, t, sent).threads[t])
    ensures s.ready && Top(s.threads[t]).allowed ==>
              var c := PoppedId(s.threads[t].calls); c == 0 || Drew(s.owner, c, Top(s.threads[t]).inv)
  {
    hide Cids, Enumerates, SocketOk, PendingOk, OutsOk, PoppedId, PopDepth, Holds;
    var th := s.threads[t];
    if s.ready && Top(th).allowed {
      PopGivesOwnId(s.ready, s.owner, th);
      SidecarIrrelevant(s.ready, s.owner, Popped(th).(doing := Nothing), []);
    } else {
      var below := th.frames[..|th.frames| - 1];
      BelowOk(s.ready, s.owner, th.frames);
      CidsSnoc(below, Top(th));
      assert below + [Top(th)] == th.frames;
      assert Cids(below) + [] == Cids(below);
    }
  }

  lemma {:induction false} SidecarIrrelevant(ready: bool, owner: seq<nat>, th: Thread, sidecar: seq<nat>)
    requires ThreadOk(ready, owner, th)
    ensures ThreadOk(ready, owner, th.(sidecar := sidecar))
  {
  }

  // Every other step of a thread leaves its invocations alone.
  lemma {:induction false} StackKept(s: State, a: Action)
    requires Enabled(s, a) && OfThread(a) && !a.Enter? && !a.Leave? && !a.LeaveObj?
    ensures var s', th := Apply(s, a), s.threads[a.t];
            && |s'.threads| == |s.threads| && s'.owner == s.owner && s'.ready == s.ready
            && s'.threads[a.t].frames == th.frames && s'.threads[a.t].calls == th.calls
            && (s'.threads[a.t].doing.Calling? ==> th.doing.Calling?)
            && (s'.threads[a.t].doing.Returning? ==> th.doing.Returning? || (th.frames != [] && Top(th).allowed))
  {
    StepIs(s, a);
    hide Apply, Enumerates, PushId, PopDepth, PoppedId, MsgOf;
  }

  lemma {:induction false} LeaveObjKeepsThread(s: State, t: nat, sent: bool)
    requires PairInv(s) && Enabled(s, LeaveObj(t, sent))
    ensures ThreadOk(s.ready, s.owner, ApplyLeaveObj(s, t, sent).threads[t])
    ensures var c := PoppedId(s.threads[t].calls); c == 0 || Drew(s.owner, c, Top(s.threads[t]).inv)
  {
    hide Cids, Enumerates, SocketOk, PendingOk, OutsOk, PoppedId, PopDepth, Holds;
    var th := s.threads[t];
    PopGivesOwnId(s.ready, s.owner, th);
    SidecarIrrelevant(s.ready, s.owner, Popped(th).(doing := Nothing), []);
  }

  lemma {:induction false} ThreadStep(s: State, a: Action)
    requires PairInv(s) && Enabled(s, a) && OfThread(a)
    ensures var s' := Apply(s, a); |s'.threads| == |s.threads| && ThreadOk(s'.ready, s'.owner, s'.threads[a.t])
  {
    StepIs(s, a);
    hide Enumerates, EvictedBy, PairInv, ThreadOk, ThreadAfter, MsgOf, Flushes,
         ApplyEnter, ApplyEmitCall, ApplyLeave, ApplyLeaveObj, ApplyEmitLookup, Finish, Mint, CanDo;
    match a {
      case Enter(t, allowed) => EnterKeepsThread(s, t, allowed);
      case Leave(t, sent) => LeaveKeepsThread(s, t, sent);
      case LeaveObj(t, sent) => LeaveObjKeepsThread(s, t, sent);
      case _ => StackKeepsThread(s, a);
    }
  }

  lemma {:induction false} StackKeepsThread(s: State, a: Action)
    requires PairInv(s) && Enabled(s, a) && OfThread(a) && !a.Enter? && !a.Leave? && !a.LeaveObj?
    ensures var s' := Apply(s, a); |s'.threads| == |s.threads| && ThreadOk(s'.ready, s'.owner, s'.threads[a.t])
  {
    assert ThreadOk(s.ready, s.owner, s.threads[a.t]);
    hide PairInv, Cids, Holds, Enabled, FramesOk, Apply;
    StackKept(s, a);
  }

  lemma {:induction false} ThreadsStep(s: State, a: Action)
    requires PairInv(s) && Enabled(s, a)
    ensures ThreadsOk(Apply(s, a))
  {
    var s' := Apply(s, a);
    OwnerGrows(s, a);
    OneThreadSteps(s, a);
    if OfThread(a) { ThreadStep(s, a); }
    hide Apply, Enabled, ThreadOk, SocketOk, PendingOk, OutsOk;
    forall i | 0 <= i < |s'.threads| ensures ThreadOk(s'.ready, s'.owner, s'.threads[i]) {
      if !OfThread(a) || i != a.t {
        ThreadOkExtends(s.ready, s'.ready, s.owner, s'.owner, s.threads[i]);
      }
    }
  }

  lemma {:induction false} OwnerGrows(s: State, a: Action)
    requires Enabled(s, a)
    ensures var s' := Apply(s, a);
            && s.owner <= s'.owner && (s.ready ==> s'.ready)
            && (|s.owner| == s.counter ==> |s'.owner| == s'.counter)
  {
    if OfThread(a) { StepIs(s, a); } else { RestIs(s, a); }
    hide Apply, Enabled, ThreadAfter, MsgOf, Flushes, Top;
  }

  // ---------------------------------------------------------------------------------------------
  // Socket, pending calls and output
  // ---------------------------------------------------------------------------------------------

  // A step of a thread adds at most its own datagram, and reaches the consumer in no other way.
  lemma {:induction false} SocketStep(s: State, a: Action)
    requires Enabled(s, a) && !a.Receive?
    ensures var s' := Apply(s, a);
            && s'.pending == s.pending && s'.out == s.out
            && s'.socket == if OfThread(a) && Flushes(s, s.threads[a.t], a) && a.sent
                            then s.socket + [MsgOf(s.threads[a.t], a)] else s.socket
  {
    if OfThread(a) { StepIs(s, a); } else { RestIs(s, a); }
    hide Apply, ThreadAfter, Enumerates, MsgOf, Top;
  }

  lemma {:induction false} MsgOfOk(s: State, a: Action)
    requires PairInv(s) && Enabled(s, a) && OfThread(a) && Flushes(s, s.threads[a.t], a)
    ensures MsgOk(s.owner, MsgOf(s.threads[a.t], a))
  {
    hide Cids, Holds, Enumerates, SocketOk, PendingOk, OutsOk, Popped, PushId, PopDepth, PoppedId;
    match a {
      case Leave(t, sent) => LeaveKeepsThread(s, t, sent);
      case LeaveObj(t, sent) => LeaveObjKeepsThread(s, t, sent);
      case _ =>
    }
  }

  lemma {:induction false} CallMsgStep(s: State, cid: nat, inv: nat, order: seq<nat>)
    requires Drew(s.owner, cid, inv) && PendingOk(s.owner, s.pending.calls) && OutsOk(s.owner, s.out)
    requires forall k :: k in order ==> k in Added(s.pending, cid, inv).calls
    ensures PendingOk(s.owner, ApplyCallMsg(s, cid, inv, order).pending.calls)
    ensures OutsOk(s.owner, ApplyCallMsg(s, cid, inv, order).out)
    ensures ApplyCallMsg(s, cid, inv, order).owner == s.owner && ApplyCallMsg(s, cid, inv, order).socket == s.socket
  {
    var calls := Added(s.pending, cid, inv).calls;
    assert PendingOk(s.owner, calls);
    hide Drew;
    forall i | 0 <= i < |order| ensures OutOk(s.owner, CallOnly(order[i], calls[order[i]])) {
      assert order[i] in order;
    }
  }

  lemma {:induction false} ReplyStep(s: State, cid: nat, inv: nat)
    requires cid == 0 || Drew(s.owner, cid, inv)
    requires PendingOk(s.owner, s.pending.calls) && OutsOk(s.owner, s.out)
    ensures PendingOk(s.owner, Reply(s, cid, inv).pending.calls) && OutsOk(s.owner, Reply(s, cid, inv).out)
    ensures Reply(s, cid, inv).owner == s.owner && Reply(s, cid, inv).socket == s.socket
  {
  }

  lemma {:induction false} ReceiveStep(s: State, order: seq<nat>)
    requires PairInv(s) && Enabled(s, Receive(order))
    ensures var s' := ApplyReceive(s, order);
            && s'.owner == s.owner && s'.socket == s.socket[1..]
            && PendingOk(s'.owner, s'.pending.calls) && OutsOk(s'.owner, s'.out)
  {
    hide Store, Take, Drew, ThreadsOk, MsgRefs, PendingOk, OutsOk, Reply, ApplyCallMsg;
    var m := s.socket[0];
    assert MsgOk(s.owner, m);
    match m {
      case CallMsg(cid, inv, _) =>
        CallMsgStep(Consumed(s), cid, inv, order);
      case ReturnMsg(cid, inv, _) => ReplyStep(Consumed(s), cid, inv);
      case ObjReturnMsg(cid, inv, _, _) => ReplyStep(Consumed(s), cid, inv);
      case _ =>
    }
  }

  lemma {:induction false} PairStep(s: State, a: Action)
    requires PairInv(s) && Enabled(s, a)
    ensures PairInv(Apply(s, a))
  {
    var s' := Apply(s, a);
    OwnerGrows(s, a);
    ThreadsStep(s, a);
    if a.Receive? {
      ReceiveStep(s, a.order);
    } else {
      SocketStep(s, a);
      if OfThread(a) && Flushes(s, s.threads[a.t], a) { MsgOfOk(s, a); }
    }
    hide Apply, Enabled, ThreadsOk, Flushes, MsgOf;
    GrownOwner(s.owner, s'.owner, s.socket, s.pending.calls, s.out);
  }

  lemma {:induction false} GrownOwner(owner: seq<nat>, owner': seq<nat>, ms: seq<Msg>, calls: map<nat, nat>,
                                      out: seq<Out>)
    requires owner <= owner' && SocketOk(owner, ms) && PendingOk(owner, calls) && OutsOk(owner, out)
    ensures SocketOk(owner', ms) && PendingOk(owner', calls) && OutsOk(owner', out)
  {
  }

  lemma {:induction false} RunKeepsPairs(s: State, actions: seq<Action>, s': State)
    requires Run(s, actions, s') && PairInv(s)
    ensures PairInv(s')
    decreases |actions|
  {
    hide PairInv, Enabled, Apply;
    if actions != [] {
      PairStep(s, actions[0]);
      RunKeepsPairs(Apply(s, actions[0]), actions[1..], s');
    }
  }

  lemma {:induction false} ReachablePairs(n: nat, s: State)
    requires Reachable(n, s)
    ensures PairInv(s)
  {
    var actions :| Run(Init(n), actions, s);
    RunKeepsPairs(Init(n), actions, s);
  }

  /** Whatever the interleaving, the nesting, the drops and the evictions, and wherever in a nest
      logging became ready: a result is joined only to the call of its own invocation. */
  lemma {:induction false} ResultJoinsOwnCall(n: nat, s: State, i: nat)
    requires Reachable(n, s) && i < |s.out| && s.out[i].Joined?
    ensures s.out[i].call == s.out[i].ret
    ensures Drew(s.owner, s.out[i].cid, s.out[i].call)
  {
    ReachablePairs(n, s);
  }

  /** The return of an invocation carries the id of its own call when that call was logged no deeper
      than the array is long, and 0, which pairs with nothing, otherwise. */
  lemma {:induction false} ReturnCarriesOwnId(n: nat, s: State, t: nat)
    requires Reachable(n, s) && t < |s.threads| && s.threads[t].frames != [] && Top(s.threads[t]).allowed
    ensures Sized(s.threads[t])
    ensures PoppedId(s.threads[t].calls) ==
              if |Cids(s.threads[t].frames)| <= 32 then Top(s.threads[t]).cid else 0
  {
    ReachablePairs(n, s);
    PopGivesOwnId(s.ready, s.owner, s.threads[t]);
  }

  // The id the return of the top frame should carry.
  function OwnId(th: Thread): nat
    requires th.frames != []
  {
    if |Cids(th.frames)| <= 32 then Top(th).cid else 0
  }

  /** What an invocation sends when it ends: a return with its own id, its own mark and the references parked, and
      with the object returned, if it is one. A return that is not logged sends nothing. */
  lemma {:induction false} ReturnSendsOwnId(n: nat, s: State, a: Action)
    requires Reachable(n, s) && Enabled(s, a) && (a.Leave? || a.LeaveObj?) && a.sent
    ensures var th, s' := s.threads[a.t], Apply(s, a);
            s'.socket == s.socket + if a.LeaveObj?
                                    then [ObjReturnMsg(OwnId(th), Top(th).inv, th.doing.gref, th.sidecar)]
                                    else if s.ready && Top(th).allowed
                                    then [ReturnMsg(OwnId(th), Top(th).inv, th.sidecar)]
                                    else []
  {
    var th := s.threads[a.t];
    ReachablePairs(n, s);
    assert ThreadOk(s.ready, s.owner, th);
    if Top(th).allowed { PopGivesOwnId(s.ready, s.owner, th); }
    StepIs(s, a);
    assert a.LeaveObj? ==> Top(th).allowed;
    hide Reachable, PairInv, ThreadOk, Apply, ThreadAfter, Enumerates, EvictedBy, Cids, PoppedId, PopDepth;
    assert s.socket + [] == s.socket;
  }

  /** What a logged call sends: the id it drew, its own mark and the references parked. */
  lemma {:induction false} CallSendsOwnId(s: State, t: nat)
    requires Enabled(s, EmitCall(t, true))
    ensures s.threads[t].frames != []
    ensures var th := s.threads[t];
            Apply(s, EmitCall(t, true)).socket == s.socket + [CallMsg(Top(th).cid, Top(th).inv, th.sidecar)]
  {
    StepIs(s, EmitCall(t, true));
    hide Apply, ThreadAfter, Top, Enumerates, EvictedBy;
  }

  /** A logged invocation draws the next id, which no invocation has drawn before. */
  lemma {:induction false} DrawsFreshId(n: nat, s: State, t: nat)
    requires Reachable(n, s) && Enabled(s, Enter(t, true)) && s.ready
    ensures var s' := Apply(s, Enter(t, true));
            && s'.threads[t].frames == s.threads[t].frames + [Frame(s.invs, true, s.counter + 1)]
            && |s.owner| == s.counter && s'.counter == s.counter + 1 && Drew(s'.owner, s.counter + 1, s.invs)
  {
    ReachablePairs(n, s);
    StepIs(s, Enter(t, true));
    hide Reachable, PairInv, Apply, Enumerates, EvictedBy, PushId;
  }
}
