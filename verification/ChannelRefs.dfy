/** Who owns the global references of the event channel. */
module ChannelRefs {
  import opened Channel
  import opened Pending
  import opened Sums
  import opened ThreadState

  function DoingOwns(d: Doing, g: nat): nat {
    if (d.Returning? || d.LookingUp?) && d.gref == g then 1 else 0
  }

  function ThreadOwns(th: Thread, g: nat): nat { multiset(th.sidecar)[g] + DoingOwns(th.doing, g) }

  function OwnedByThread(g: nat): Thread -> nat { th => ThreadOwns(th, g) }

  function OwnedByMsg(g: nat): Msg -> nat { m => MsgRefs(m)[g] }

  // How often reference g is owned: by threads, by datagrams in flight, or as deleted.
  function Owners(s: State, g: nat): nat {
    Total(s.threads, OwnedByThread(g)) + Total(s.socket, OwnedByMsg(g)) + s.deleted[g]
  }

  // A step that changes one thread but not what it owns.
  lemma {:induction false} ThreadKeepsRefs(s: State, s': State, t: nat, th: Thread, g: nat)
    requires t < |s.threads| && s'.threads == s.threads[t := th]
    requires s'.socket == s.socket && s'.deleted == s.deleted
    requires th.sidecar == s.threads[t].sidecar && DoingOwns(th.doing, g) == DoingOwns(s.threads[t].doing, g)
    ensures Owners(s', g) == Owners(s, g)
  {
    hide Total;
    TotalUpdate(s.threads, t, th, OwnedByThread(g));
  }

  // An emit moves the thread's references to the socket or to the deleted ones.
  lemma {:induction false} FinishMovesRefs(s: State, t: nat, th: Thread, m: Msg, sent: bool, own: multiset<nat>, g: nat)
    requires t < |s.threads| && th.sidecar == s.threads[t].sidecar && th.doing == s.threads[t].doing
    requires DoingOwns(th.doing, g) == own[g] && MsgRefs(m)[g] == multiset(th.sidecar)[g] + own[g]
    ensures Owners(Finish(s, t, th, m, sent, own), g) == Owners(s, g)
  {
    hide Total, MsgRefs;
    TotalUpdate(s.threads, t, th.(sidecar := [], doing := Nothing), OwnedByThread(g));
    TotalSnoc(s.socket, m, OwnedByMsg(g));
  }

  // A mint gives the new reference one owner.
  lemma {:induction false} MintAddsRef(s: State, t: nat, th: Thread, g: nat)
    requires t < |s.threads|
    requires ThreadOwns(th, g) == ThreadOwns(s.threads[t], g) + if g == s.minted then 1 else 0
    ensures Owners(Mint(s, t, th), g) == Owners(s, g) + if g == s.minted then 1 else 0
  {
    hide Total, ThreadOwns;
    TotalUpdate(s.threads, t, th, OwnedByThread(g));
  }

  lemma {:induction false} ReceiveMovesRefs(s: State, order: seq<nat>, g: nat)
    requires s.socket != [] && Enumerates(order, EvictedBy(s))
    ensures Owners(ApplyReceive(s, order), g) == Owners(s, g)
  {
    hide Total, Store, Take, Added, EvictedBy, Enumerates, MsgRefs;
    var s' := ApplyReceive(s, order);
    assert s'.threads == s.threads && s'.socket == s.socket[1..];
    assert s'.deleted == s.deleted + MsgRefs(s.socket[0]);
    TotalHead(s.socket, OwnedByMsg(g));
  }

  lemma {:induction false} EmitCallMovesRefs(s: State, t: nat, sent: bool, g: nat)
    requires Enabled(s, EmitCall(t, sent))
    ensures Owners(ApplyEmitCall(s, t, sent), g) == Owners(s, g)
  {
    hide Owners, Enumerates, EvictedBy, Finish;
    var th := s.threads[t];
    var d := s.(delivered := if sent then s.delivered + {Top(th).cid} else s.delivered);
    FinishMovesRefs(d, t, th, CallMsg(Top(th).cid, Top(th).inv, th.sidecar), sent, multiset{}, g);
    SameOwners(s, d, g);
  }

  lemma {:induction false} LeaveObjMovesRefs(s: State, t: nat, sent: bool, g: nat)
    requires Enabled(s, LeaveObj(t, sent))
    ensures Owners(ApplyLeaveObj(s, t, sent), g) == Owners(s, g)
  {
    hide Owners, PoppedId, PopDepth, Enumerates, EvictedBy, Finish;
    var th := s.threads[t];
    FinishMovesRefs(s, t, Popped(th), ObjReturnMsg(PoppedId(th.calls), Top(th).inv, th.doing.gref, th.sidecar),
                    sent, multiset{th.doing.gref}, g);
  }

  lemma {:induction false} EmitMovesRefs(s: State, a: Action, g: nat)
    requires Enabled(s, a) && (a.EmitLookup? || a.EmitOther?)
    ensures Owners(Apply(s, a), g) == Owners(s, g)
  {
    hide Owners, Enumerates, EvictedBy, Finish;
    var th := s.threads[a.t];
    if a.EmitLookup? {
      FinishMovesRefs(s, a.t, th, LookupMsg(th.doing.gref, th.sidecar), a.sent, multiset{th.doing.gref}, g);
    } else {
      FinishMovesRefs(s, a.t, th, OtherMsg(th.sidecar), a.sent, multiset{}, g);
    }
  }

  lemma {:induction false} SameOwners(s: State, d: State, g: nat)
    requires d.threads == s.threads && d.socket == s.socket && d.deleted == s.deleted
    ensures Owners(d, g) == Owners(s, g)
  {
  }

  lemma {:induction false} EnterKeepsRefs(s: State, t: nat, allowed: bool, g: nat)
    requires Enabled(s, Enter(t, allowed))
    ensures Owners(ApplyEnter(s, t, allowed), g) == Owners(s, g)
  {
    hide Owners, PushId, Enumerates;
    var s' := ApplyEnter(s, t, allowed);
    ThreadKeepsRefs(s, s', t, s'.threads[t], g);
  }

  lemma {:induction false} LeaveMovesRefs(s: State, t: nat, sent: bool, g: nat)
    requires Enabled(s, Leave(t, sent))
    ensures Owners(ApplyLeave(s, t, sent), g) == Owners(s, g)
  {
    hide Total, Owners, PoppedId, PopDepth, Enumerates;
    var th := s.threads[t];
    if s.ready && Top(th).allowed {
      FinishMovesRefs(s, t, Popped(th), ReturnMsg(PoppedId(th.calls), Top(th).inv, th.sidecar), sent,
                      multiset{}, g);
    } else {
      var s' := ApplyLeave(s, t, sent);
      ThreadKeepsRefs(s, s', t, s'.threads[t], g);
    }
  }

  lemma {:induction false} MintStep(s: State, a: Action, g: nat)
    requires Enabled(s, a) && Mints(a)
    ensures Owners(Apply(s, a), g) == Owners(s, g) + if g == s.minted then 1 else 0
    ensures Apply(s, a).minted == s.minted + 1
  {
    hide Owners, Enumerates;
    MintIs(s, a);
    MintAddsRef(s, a.t, ThreadAfter(s, s.threads[a.t], a), g);
  }

  /** Every step leaves the number of owners of every reference unchanged, except that a mint gives
      the reference it mints one owner more. */
  lemma {:induction false} RefsConserved(s: State, a: Action, g: nat)
    requires Enabled(s, a)
    ensures Owners(Apply(s, a), g) == Owners(s, g) + if Mints(a) && g == s.minted then 1 else 0
    ensures Apply(s, a).minted == s.minted + if Mints(a) then 1 else 0
  {
    hide Owners, ApplyEnter, ApplyEmitCall, ApplyLeave, ApplyLeaveObj, ApplyEmitLookup, ApplyReceive,
         Finish, Mint, EvictedBy, Enumerates, CanDo;
    if Mints(a) {
      MintStep(s, a, g);
    } else {
      match a {
        case LoggingReady => SameOwners(s, Apply(s, a), g);
        case ConsumerReady => SameOwners(s, Apply(s, a), g);
        case Enter(t, allowed) => EnterKeepsRefs(s, t, allowed, g);
        case Leave(t, sent) => LeaveMovesRefs(s, t, sent, g);
        case Receive(order) => ReceiveMovesRefs(s, order, g);
        case EmitCall(t, sent) => EmitCallMovesRefs(s, t, sent, g);
        case LeaveObj(t, sent) => LeaveObjMovesRefs(s, t, sent, g);
        case _ => if !Mints(a) { EmitMovesRefs(s, a, g); }
      }
      OnlyMintsMint(s, a);
    }
  }

  lemma {:induction false} OnlyMintsMint(s: State, a: Action)
    requires Enabled(s, a) && !Mints(a)
    ensures Apply(s, a).minted == s.minted
  {
    if OfThread(a) { StepIs(s, a); } else { RestIs(s, a); }
    hide Apply, Enabled, ThreadAfter, MsgOf, Flushes, Top;
  }

  // ---------------------------------------------------------------------------------------------
  // Over whole runs
  // ---------------------------------------------------------------------------------------------

  predicate Bounded(s: State) {
    forall i :: 0 <= i < |s.threads| ==> |s.threads[i].sidecar| <= 8
  }

  // Every reference minted so far has exactly one owner, and no other reference has any.
  ghost predicate OneOwnerEach(s: State) {
    forall g: nat :: Owners(s, g) == if g < s.minted then 1 else 0
  }

  lemma {:induction false} OneOwnerStep(s: State, a: Action)
    requires Enabled(s, a) && OneOwnerEach(s)
    ensures OneOwnerEach(Apply(s, a))
  {
    hide Owners, Apply, Enabled;
    forall g: nat ensures Owners(Apply(s, a), g) == if g < Apply(s, a).minted then 1 else 0 {
      RefsConserved(s, a, g);
    }
  }

  // A step of thread a.t changes that thread only.
  lemma {:induction false} OneThreadSteps(s: State, a: Action)
    requires Enabled(s, a)
    ensures OfThread(a) ==>
              && |Apply(s, a).threads| == |s.threads|
              && forall i :: 0 <= i < |s.threads| && i != a.t ==> Apply(s, a).threads[i] == s.threads[i]
    ensures !OfThread(a) ==> Apply(s, a).threads == s.threads
  {
    if OfThread(a) { StepIs(s, a); } else { RestIs(s, a); }
    hide Apply, Enabled, ThreadAfter, MsgOf, Flushes, Top;
  }

  lemma {:induction false} SidecarStep(s: State, a: Action)
    requires Enabled(s, a) && OfThread(a) && |Apply(s, a).threads| == |s.threads|
    ensures var th, s' := s.threads[a.t], Apply(s, a);
            if Flushes(s, th, a) then
              && s'.threads[a.t].sidecar == []
              && (a.sent ==> s'.socket != [] && s'.socket[|s'.socket| - 1].refs == th.sidecar)
            else if a.Push? then |th.sidecar| < MAX_REFS && s'.threads[a.t].sidecar == th.sidecar + [s.minted]
            else s'.threads[a.t].sidecar == th.sidecar
  {
    StepIs(s, a);
    hide Apply, Enumerates, PushId, PopDepth, PoppedId;
  }

  lemma {:induction false} BoundedStep(s: State, a: Action)
    requires Enabled(s, a) && Bounded(s)
    ensures Bounded(Apply(s, a))
  {
    hide Apply, Enabled, Flushes;
    OneThreadSteps(s, a);
    if OfThread(a) { SidecarStep(s, a); }
  }

  predicate OwnsNothing(th: Thread) {
    th.sidecar == [] && !th.doing.Returning? && !th.doing.LookingUp?
  }

  lemma {:induction false} RunKeepsRefs(s: State, actions: seq<Action>, s': State)
    requires Run(s, actions, s') && OneOwnerEach(s) && Bounded(s)
    ensures OneOwnerEach(s') && Bounded(s')
    decreases |actions|
  {
    hide OneOwnerEach, Bounded, Enabled, Apply;
    if actions != [] {
      OneOwnerStep(s, actions[0]);
      BoundedStep(s, actions[0]);
      RunKeepsRefs(Apply(s, actions[0]), actions[1..], s');
    }
  }

  /** In every reachable state each minted reference has exactly one owner: one thread's sidecar, one
      return or lookup about to be sent, one datagram in flight, or the list of deleted references,
      where it stands once. A sidecar parks at most eight. */
  lemma {:induction false} EveryRefOwnedOnce(n: nat, s: State, g: nat)
    requires Reachable(n, s)
    ensures Owners(s, g) == if g < s.minted then 1 else 0
    ensures s.deleted[g] <= 1
    ensures Bounded(s)
  {
    var actions :| Run(Init(n), actions, s);
    forall h: nat ensures Owners(Init(n), h) == 0 { TotalZero(Init(n).threads, OwnedByThread(h)); }
    RunKeepsRefs(Init(n), actions, s);
  }

  // Nothing is in flight and no thread keeps a reference.
  predicate Drained(s: State) {
    && s.socket == []
    && forall i :: 0 <= i < |s.threads| ==> OwnsNothing(s.threads[i])
  }

  /** Once the socket is drained and the sidecars are flushed, exactly the minted references have been
      deleted, each once. */
  lemma {:induction false} DrainedMeansAllDeleted(n: nat, s: State)
    requires Reachable(n, s) && Drained(s)
    ensures forall g: nat :: s.deleted[g] == if g < s.minted then 1 else 0
  {
    forall g: nat ensures s.deleted[g] == if g < s.minted then 1 else 0 {
      EveryRefOwnedOnce(n, s, g);
      TotalZero(s.threads, OwnedByThread(g));
    }
  }

  /** A slot number handed out by a push keeps naming its reference: no step moves a thread's parked
      references, until an emit of that thread takes all of them, in order, onto its datagram. */
  lemma {:induction false} SlotsStayPut(s: State, a: Action, t: nat)
    requires Enabled(s, a) && t < |s.threads|
    ensures var s' := Apply(s, a);
            && |s'.threads| == |s.threads|
            && if OfThread(a) && a.t == t && Flushes(s, s.threads[t], a) then
                 && s'.threads[t].sidecar == []
                 && (a.sent ==> s'.socket != [] && s'.socket[|s'.socket| - 1].refs == s.threads[t].sidecar)
               else s.threads[t].sidecar <= s'.threads[t].sidecar
  {
    hide Apply, Enabled, Flushes;
    OneThreadSteps(s, a);
    if OfThread(a) { SidecarStep(s, a); }
  }
}
