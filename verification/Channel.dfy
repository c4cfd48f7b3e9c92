/** The event channel as a system of hook threads, one lossy first-in first-out socket and one
    consumer. A step is one mint, one draw of a call id, one emit, or the handling of one datagram,
    so the datagrams of different threads may arrive in an order other than that of their ids. Each
    hook invocation carries its own number, which the program never sees: it says which frames truly
    belong together. */
module Channel {
  import opened Pending
  import opened ThreadState

  // An invocation in progress; cid is the id its logged call was given, 0 when it was not logged.
  datatype Frame = Frame(inv: nat, allowed: bool, cid: nat)

  // What a thread is in the middle of: a call whose id is drawn but not yet sent, or a return or
  // lookup event with a reference of its own, between its mint and its emit.
  datatype Doing = Nothing | Calling | Returning(gref: nat) | LookingUp(gref: nat)

  datatype Thread = Thread(frames: seq<Frame>, calls: CallIds, sidecar: seq<nat>, doing: Doing)

  datatype Msg =
    | CallMsg(cid: nat, inv: nat, refs: seq<nat>)
    | ReturnMsg(cid: nat, inv: nat, refs: seq<nat>)
    | ObjReturnMsg(cid: nat, inv: nat, gref: nat, refs: seq<nat>)
    | LookupMsg(gref: nat, refs: seq<nat>)
    | OtherMsg(refs: seq<nat>)

  datatype Out =
    | Joined(cid: nat, call: nat, ret: nat)
    | CallOnly(cid: nat, call: nat)
    | ReturnOnly(cid: nat, ret: nat)

  // owner[c - 1] is the invocation call id c was drawn by; delivered holds the ids whose call
  // datagram was accepted by the socket. Both are history, as is the invocation counter.
  datatype State = State(
    ready: bool, consumer: bool, counter: nat, minted: nat, threads: seq<Thread>, socket: seq<Msg>,
    pending: Table<nat>, out: seq<Out>, deleted: multiset<nat>,
    invs: nat, owner: seq<nat>, delivered: set<nat>)

  datatype Action =
    | LoggingReady
    | ConsumerReady
    | Push(t: nat)                      // a deferred-render push that mints
    | Enter(t: nat, allowed: bool)      // an invocation begins; a logged one draws its id
    | EmitCall(t: nat, sent: bool)      // ... and sends it
    | Leave(t: nat, sent: bool)         // it ends with a plain return
    | MintReturn(t: nat)                // it ends with an object: mint ...
    | LeaveObj(t: nat, sent: bool)      // ... and send
    | MintLookup(t: nat)
    | EmitLookup(t: nat, sent: bool)
    | EmitOther(t: nat, sent: bool)     // field access, registration, plain lookup
    | Receive(order: seq<nat>)          // order in which stale calls are met, if any

  const IDLE := Thread([], NO_CALLS, [], Nothing)

  function Init(n: nat): State {
    State(false, false, 0, 0, seq(n, _ => IDLE), [], Empty(), [], multiset{}, 0, [], {})
  }

  function Top(th: Thread): Frame
    requires th.frames != []
  {
    th.frames[|th.frames| - 1]
  }

  // The ids evicted when the head of the socket is handled.
  function EvictedBy(s: State): set<nat>
    requires s.socket != []
  {
    if s.socket[0].CallMsg? then
      var a := Added(s.pending, s.socket[0].cid, s.socket[0].inv);
      if a.len > EVICT_TRIGGER then Stale(a) else {}
    else {}
  }

  predicate Sized(th: Thread) { |th.calls.ids| == DEPTH }

  // What thread th may do next, whatever the other threads are doing.
  predicate CanDo(s: State, th: Thread, a: Action)
    requires !a.LoggingReady? && !a.ConsumerReady? && !a.Receive?
  {
    match a
    case Push(_) => th.doing.Nothing? && s.consumer && |th.sidecar| < MAX_REFS
    case Enter(_, _) => th.doing.Nothing?
    case EmitCall(_, _) => th.doing.Calling? && th.frames != []
    case Leave(_, _) => th.doing.Nothing? && th.frames != []
    case MintReturn(_) => th.doing.Nothing? && th.frames != [] && s.consumer && Top(th).allowed
    case LeaveObj(_, _) => th.doing.Returning? && th.frames != []
    case MintLookup(_) => th.doing.Nothing? && s.ready && s.consumer
    case EmitLookup(_, _) => th.doing.LookingUp?
    case EmitOther(_, _) => th.doing.Nothing? && s.ready
  }

  ghost predicate Enabled(s: State, a: Action) {
    match a
    case LoggingReady => true
    case ConsumerReady => true
    case Receive(order) => s.socket != [] && Enumerates(order, EvictedBy(s))
    case _ => a.t < |s.threads| && Sized(s.threads[a.t]) && CanDo(s, s.threads[a.t], a)
  }

  // The end of every emit: the sidecar goes with the datagram, or is deleted with own.
  function Finish(s: State, t: nat, th: Thread, m: Msg, sent: bool, own: multiset<nat>): State
    requires t < |s.threads|
  {
    var s' := s.(threads := s.threads[t := th.(sidecar := [], doing := Nothing)]);
    if sent then s'.(socket := s.socket + [m])
    else s'.(deleted := s.deleted + multiset(th.sidecar) + own)
  }

  function ApplyEnter(s: State, t: nat, allowed: bool): State
    requires t < |s.threads| && Sized(s.threads[t])
  {
    var th := s.threads[t];
    if s.ready && allowed then
      var cid := s.counter + 1;
      var th' := th.(frames := th.frames + [Frame(s.invs, true, cid)],
                     calls := PushId(th.calls, cid), doing := Calling);
      s.(invs := s.invs + 1, counter := cid, owner := s.owner + [s.invs], threads := s.threads[t := th'])
    else
      s.(invs := s.invs + 1,
         threads := s.threads[t := th.(frames := th.frames + [Frame(s.invs, allowed, 0)])])
  }

  function ApplyEmitCall(s: State, t: nat, sent: bool): State
    requires t < |s.threads| && s.threads[t].frames != []
  {
    var th := s.threads[t];
    var cid := Top(th).cid;
    Finish(s.(delivered := if sent then s.delivered + {cid} else s.delivered), t, th,
           CallMsg(cid, Top(th).inv, th.sidecar), sent, multiset{})
  }

  // The thread after its top invocation has gone, with its call id popped.
  function Popped(th: Thread): Thread
    requires th.frames != []
  {
    th.(frames := th.frames[..|th.frames| - 1], calls := PopDepth(th.calls))
  }

  function ApplyLeave(s: State, t: nat, sent: bool): State
    requires t < |s.threads| && Sized(s.threads[t]) && s.threads[t].frames != []
  {
    var th := s.threads[t];
    if s.ready && Top(th).allowed then
      Finish(s, t, Popped(th), ReturnMsg(PoppedId(th.calls), Top(th).inv, th.sidecar), sent, multiset{})
    else s.(threads := s.threads[t := th.(frames := th.frames[..|th.frames| - 1])])
  }

  function ApplyLeaveObj(s: State, t: nat, sent: bool): State
    requires t < |s.threads| && Sized(s.threads[t]) && s.threads[t].frames != []
    requires s.threads[t].doing.Returning?
  {
    var th := s.threads[t];
    Finish(s, t, Popped(th), ObjReturnMsg(PoppedId(th.calls), Top(th).inv, th.doing.gref, th.sidecar), sent,
           multiset{th.doing.gref})
  }

  function ApplyEmitLookup(s: State, t: nat, sent: bool): State
    requires t < |s.threads| && s.threads[t].doing.LookingUp?
  {
    var th := s.threads[t];
    Finish(s, t, th, LookupMsg(th.doing.gref, th.sidecar), sent, multiset{th.doing.gref})
  }

  function Mint(s: State, t: nat, th: Thread): State
    requires t < |s.threads|
  {
    s.(minted := s.minted + 1, threads := s.threads[t := th])
  }

  function EvictOut(order: seq<nat>, calls: map<nat, nat>): (out: seq<Out>)
    requires forall k :: k in order ==> k in calls
    ensures |out| == |order|
    ensures forall i :: 0 <= i < |out| ==> out[i] == CallOnly(order[i], calls[order[i]])
  {
    seq(|order|, i requires 0 <= i < |order| => CallOnly(order[i], calls[order[i]]))
  }

  // The references a datagram hands to the consumer.
  function MsgRefs(m: Msg): multiset<nat> {
    match m
    case ObjReturnMsg(_, _, h, refs) => multiset(refs) + multiset{h}
    case LookupMsg(h, refs) => multiset(refs) + multiset{h}
    case _ => multiset(m.refs)
  }

  // The consumer takes the first datagram off the socket and renders and deletes its references.
  function Consumed(s: State): State
    requires s.socket != []
  {
    s.(socket := s.socket[1..], deleted := s.deleted + MsgRefs(s.socket[0]))
  }

  function Reply(s: State, cid: nat, inv: nat): State {
    if cid in s.pending.calls then
      s.(pending := Take(s.pending, cid), out := s.out + [Joined(cid, s.pending.calls[cid], inv)])
    else s.(out := s.out + [ReturnOnly(cid, inv)])
  }

  ghost function ApplyCallMsg(s: State, cid: nat, inv: nat, order: seq<nat>): State
    requires forall k :: k in order ==> k in Added(s.pending, cid, inv).calls
  {
    s.(pending := Store(s.pending, cid, inv),
       out := s.out + EvictOut(order, Added(s.pending, cid, inv).calls))
  }

  ghost function ApplyReceive(s: State, order: seq<nat>): State
    requires s.socket != [] && Enumerates(order, EvictedBy(s))
  {
    var m := s.socket[0];
    match m
    case CallMsg(cid, inv, _) => ApplyCallMsg(Consumed(s), cid, inv, order)
    case ReturnMsg(cid, inv, _) => Reply(Consumed(s), cid, inv)
    case ObjReturnMsg(cid, inv, _, _) => Reply(Consumed(s), cid, inv)
    case LookupMsg(_, _) => Consumed(s)
    case OtherMsg(_) => Consumed(s)
  }

  ghost function Apply(s: State, a: Action): State
    requires Enabled(s, a)
  {
    match a
    case LoggingReady => s.(ready := true)
    case ConsumerReady => s.(consumer := true)
    case Push(t) => Mint(s, t, s.threads[t].(sidecar := s.threads[t].sidecar + [s.minted]))
    case Enter(t, allowed) => ApplyEnter(s, t, allowed)
    case EmitCall(t, sent) => ApplyEmitCall(s, t, sent)
    case Leave(t, sent) => ApplyLeave(s, t, sent)
    case MintReturn(t) => Mint(s, t, s.threads[t].(doing := Returning(s.minted)))
    case LeaveObj(t, sent) => ApplyLeaveObj(s, t, sent)
    case MintLookup(t) => Mint(s, t, s.threads[t].(doing := LookingUp(s.minted)))
    case EmitLookup(t, sent) => ApplyEmitLookup(s, t, sent)
    case EmitOther(t, sent) =>
      Finish(s, t, s.threads[t], OtherMsg(s.threads[t].sidecar), sent, multiset{})
    case Receive(order) => ApplyReceive(s, order)
  }

  predicate OfThread(a: Action) { !a.LoggingReady? && !a.ConsumerReady? && !a.Receive? }

  // The step ends with the references parked by the thread leaving it.
  predicate Flushes(s: State, th: Thread, a: Action) {
    || a.EmitCall? || a.LeaveObj? || a.EmitLookup? || a.EmitOther?
    || (a.Leave? && s.ready && th.frames != [] && Top(th).allowed)
  }

  // The datagram an emitting step puts together.
  function MsgOf(th: Thread, a: Action): Msg
    requires a.EmitLookup? || a.EmitOther? || (Sized(th) && th.frames != [])
    requires a.LeaveObj? ==> th.doing.Returning?
    requires a.EmitLookup? ==> th.doing.LookingUp?
  {
    match a
    case EmitCall(_, _) => CallMsg(Top(th).cid, Top(th).inv, th.sidecar)
    case LeaveObj(_, _) => ObjReturnMsg(PoppedId(th.calls), Top(th).inv, th.doing.gref, th.sidecar)
    case EmitLookup(_, _) => LookupMsg(th.doing.gref, th.sidecar)
    case EmitOther(_, _) => OtherMsg(th.sidecar)
    case _ => ReturnMsg(PoppedId(th.calls), Top(th).inv, th.sidecar)
  }

  // A logged invocation draws its call id.
  predicate Logs(s: State, a: Action) { a.Enter? && s.ready && a.allowed }

  // What thread th has become after its step a.
  function ThreadAfter(s: State, th: Thread, a: Action): Thread
    requires OfThread(a) && Sized(th) && CanDo(s, th, a)
  {
    match a
    case Push(_) => th.(sidecar := th.sidecar + [s.minted])
    case Enter(_, allowed) =>
      if s.ready && allowed then
        th.(frames := th.frames + [Frame(s.invs, true, s.counter + 1)],
            calls := PushId(th.calls, s.counter + 1), doing := Calling)
      else th.(frames := th.frames + [Frame(s.invs, allowed, 0)])
    case MintReturn(_) => th.(doing := Returning(s.minted))
    case MintLookup(_) => th.(doing := LookingUp(s.minted))
    case Leave(_, _) =>
      if s.ready && Top(th).allowed then Popped(th).(sidecar := [], doing := Nothing)
      else th.(frames := th.frames[..|th.frames| - 1])
    case LeaveObj(_, _) => Popped(th).(sidecar := [], doing := Nothing)
    case _ => th.(sidecar := [], doing := Nothing)
  }

  // A step of a thread changes that thread and the counters, sends at most its own datagram and reaches
  // the consumer in no other way.
  ghost predicate StepOf(s: State, a: Action, s': State)
    requires Enabled(s, a) && OfThread(a)
  {
    var th := s.threads[a.t];
    && s'.threads == s.threads[a.t := ThreadAfter(s, th, a)]
    && s'.pending == s.pending && s'.out == s.out && s'.ready == s.ready
    && s'.socket == (if Flushes(s, th, a) && a.sent then s.socket + [MsgOf(th, a)] else s.socket)
    && s'.counter == s.counter + (if Logs(s, a) then 1 else 0)
    && s'.owner == s.owner + (if Logs(s, a) then [s.invs] else [])
    && s'.delivered == (if a.EmitCall? && a.sent then s.delivered + {Top(th).cid} else s.delivered)
    && s'.minted == s.minted + if Mints(a) then 1 else 0
  }

  // A step that takes a new reference from the JNI table.
  predicate Mints(a: Action) { a.Push? || a.MintReturn? || a.MintLookup? }

  lemma {:induction false} MintIs(s: State, a: Action)
    requires Enabled(s, a) && Mints(a)
    ensures StepOf(s, a, Apply(s, a))
  {
    hide Enumerates, EvictedBy;
    assert s.owner + [] == s.owner;
  }

  lemma {:induction false} EnterIs(s: State, a: Action)
    requires Enabled(s, a) && a.Enter?
    ensures StepOf(s, a, Apply(s, a))
  {
    hide Enumerates, EvictedBy, PushId;
    assert s.owner + [] == s.owner;
  }

  lemma {:induction false} Finished(s: State, t: nat, th: Thread, m: Msg, sent: bool, own: multiset<nat>)
    requires t < |s.threads|
    ensures var s' := Finish(s, t, th, m, sent, own);
            && s'.threads == s.threads[t := th.(sidecar := [], doing := Nothing)]
            && s'.socket == (if sent then s.socket + [m] else s.socket)
            && s'.pending == s.pending && s'.out == s.out && s'.ready == s.ready && s'.counter == s.counter
            && s'.owner == s.owner && s'.delivered == s.delivered && s'.minted == s.minted
  {
  }

  lemma {:induction false} LeaveIs(s: State, a: Action)
    requires Enabled(s, a) && a.Leave?
    ensures StepOf(s, a, Apply(s, a))
  {
    hide Enumerates, EvictedBy, PopDepth, PoppedId, Popped, Finish;
    var th := s.threads[a.t];
    assert s.owner + [] == s.owner;
    if s.ready && Top(th).allowed { Finished(s, a.t, Popped(th), MsgOf(th, a), a.sent, multiset{}); }
  }

  lemma {:induction false} EmitCallIs(s: State, a: Action)
    requires Enabled(s, a) && a.EmitCall?
    ensures StepOf(s, a, Apply(s, a))
  {
    hide Enumerates, EvictedBy, Finish;
    var th := s.threads[a.t];
    assert s.owner + [] == s.owner;
    Finished(s.(delivered := if a.sent then s.delivered + {Top(th).cid} else s.delivered), a.t, th, MsgOf(th, a),
             a.sent, multiset{});
  }

  lemma {:induction false} LeaveObjIs(s: State, a: Action)
    requires Enabled(s, a) && a.LeaveObj?
    ensures StepOf(s, a, Apply(s, a))
  {
    hide Enumerates, EvictedBy, PopDepth, PoppedId, Popped, Finish;
    var th := s.threads[a.t];
    assert s.owner + [] == s.owner;
    Finished(s, a.t, Popped(th), MsgOf(th, a), a.sent, multiset{th.doing.gref});
  }

  lemma {:induction false} EmitIs(s: State, a: Action)
    requires Enabled(s, a) && (a.EmitLookup? || a.EmitOther?)
    ensures StepOf(s, a, Apply(s, a))
  {
    hide Enumerates, EvictedBy, Finish;
    var th := s.threads[a.t];
    assert s.owner + [] == s.owner;
    Finished(s, a.t, th, MsgOf(th, a), a.sent, if a.EmitLookup? then multiset{th.doing.gref} else multiset{});
  }

  lemma {:induction false} StepIs(s: State, a: Action)
    requires Enabled(s, a) && OfThread(a)
    ensures StepOf(s, a, Apply(s, a))
  {
    hide StepOf, Enabled, Apply;
    if Mints(a) { MintIs(s, a); }
    else if a.Enter? { EnterIs(s, a); }
    else if a.EmitCall? { EmitCallIs(s, a); }
    else if a.Leave? { LeaveIs(s, a); }
    else if a.LeaveObj? { LeaveObjIs(s, a); }
    else { EmitIs(s, a); }
  }

  // What the other steps leave alone.
  lemma {:induction false} RestIs(s: State, a: Action)
    requires Enabled(s, a) && !OfThread(a)
    ensures var s' := Apply(s, a);
            && s'.threads == s.threads && s'.counter == s.counter && s'.owner == s.owner
            && s'.delivered == s.delivered && s'.minted == s.minted && (s.ready ==> s'.ready)
            && (!a.Receive? ==> s'.pending == s.pending && s'.out == s.out && s'.socket == s.socket)
  {
    hide Enumerates, EvictedBy, Store, Take, Added, MsgRefs, EvictOut;
  }

  ghost predicate Run(s: State, actions: seq<Action>, s': State)
    decreases |actions|
  {
    if actions == [] then s == s'
    else Enabled(s, actions[0]) && Run(Apply(s, actions[0]), actions[1..], s')
  }

  ghost predicate Reachable(n: nat, s: State) {
    exists actions :: Run(Init(n), actions, s)
  }
}
