/** From the hook to the log: what is decoded from the bytes of a call datagram, and that the objects a
    hook pushed are the ones shown for its call. */
module Delivery {
  import opened Bytes
  import opened Records
  import opened Truncate
  import opened Chunks
  import opened Args
  import opened Wire
  import opened Channel
  import opened ChannelRefs
  import opened ObjectCalls
  import opened Sums
  import Datagram
  import DatagramFields
  import ChannelCalls
  import ChannelPairs

  // ---------------------------------------------------------------------------------------------
  // One datagram
  // ---------------------------------------------------------------------------------------------

  // What the consumer renders for the references of a datagram.
  function ChunksFor(refs: seq<nat>, render: nat -> Bytes): (r: seq<Bytes>)
    ensures |r| == |refs| && forall i :: 0 <= i < |r| ==> r[i] == render(refs[i])
  {
    seq(|refs|, i requires 0 <= i < |refs| => render(refs[i]))
  }

  // The arguments the consumer decodes from the bytes of a call datagram.
  function ArgsSeen(data: Bytes, render: nat -> Bytes): Option<seq<Value>> {
    match Datagram.Parse(data)
    case None => None
    case Some(r) =>
      if r.event.Call? then Some(Decoded(Substituted(r.event.args, ChunksFor(r.refs, render)))) else None
  }

  lemma {:induction false} CutArgsArrive(e: Datagram.Event, refs: seq<nat>, render: nat -> Bytes)
    requires Datagram.ValidEvent(e) && Datagram.ValidRefs(refs) && e.Call?
    ensures ArgsSeen(Datagram.Datagram(e, refs), render)
         == Some(Decoded(Substituted(Cut(e.args, 512), ChunksFor(refs, render))))
  {
    hide Decoded, Substituted, Cut, Datagram.Parse, Datagram.Datagram;
    DatagramFields.FieldsArrive(e, refs);
  }

  /** Through the bytes of the datagram and the 512-byte cut: the consumer decodes the arguments whose text
      lies within the cut, in order and with their values, except that a placeholder for an object whose
      class is named null and whose toString is empty reads as the null reference, and then at most one
      value more, which shows a prefix of the next argument. Nothing is lost from a text of at most 512
      bytes. */
  lemma {:induction false} CallArrives(e: Datagram.Event, refs: seq<nat>, render: nat -> Bytes, es: seq<Elem>,
                                       args: seq<Arg>) returns (m: nat, tail: seq<Value>)
    requires Datagram.ValidEvent(e) && Datagram.ValidRefs(refs) && e.Call? && e.args == WithHoles(es)
    requires ValidArgs(args) && Defers(es, args, ChunksFor(refs, render)) && AreChunks(ChunksFor(refs, render))
    ensures m <= |args| && |es| == |args| && WhollyKept(es, m, |Cut(e.args, 512)|)
    ensures ArgsSeen(Datagram.Datagram(e, refs), render) == Some(AllArrived(es[..m], args[..m]) + tail)
    ensures AllArrived(es[..m], args[..m]) == ArgValues(args[..m]) <==> NoneLost(es[..m], args[..m], m)
    ensures |tail| <= 1 && (m == |args| ==> tail == [])
    ensures m == |args| <==> |e.args| <= 512
    ensures tail != [] ==> es[m] == ArgElem(args[m])
    ensures tail != [] && args[m].Ref? && args[m].obj.Some? ==> ShowsPart(tail[0], args[m].obj.value)
  {
    hide Decoded, Substituted, WithHoles, ArgsSeen, AllArrived, NoneLost, ShowsPart, Datagram.Datagram, AreChunks,
         ValidArgs, ArgElem, ArgValues;
    CutArgsArrive(e, refs, render);
    m, tail := CutArgs(es, args, ChunksFor(refs, render), 512);
    AllArrivedIs(es[..m], args[..m]);
    if m == |args| { assert es[..m] == es; }
  }

  // ---------------------------------------------------------------------------------------------
  // From the pushes to the receipt
  // ---------------------------------------------------------------------------------------------

  // Thread t sends nothing along the run.
  ghost predicate Quiet(s: State, actions: seq<Action>, t: nat)
    decreases |actions|
  {
    actions == []
    || (&& Enabled(s, actions[0])
        && !(OfThread(actions[0]) && actions[0].t == t && Flushes(s, s.threads[t], actions[0]))
        && Quiet(Apply(s, actions[0]), actions[1..], t))
  }

  // The references thread t pushes along the run, in order.
  ghost function PushedBy(s: State, actions: seq<Action>, t: nat): seq<nat>
    decreases |actions|
  {
    if actions == [] || !Enabled(s, actions[0]) then []
    else (if actions[0] == Push(t) then [s.minted] else []) + PushedBy(Apply(s, actions[0]), actions[1..], t)
  }

  function Receives(actions: seq<Action>): nat {
    if actions == [] then 0 else (if actions[0].Receive? then 1 else 0) + Receives(actions[1..])
  }

  lemma {:induction false} ParkedStep(s: State, a: Action, t: nat)
    requires Enabled(s, a) && t < |s.threads|
    requires !(OfThread(a) && a.t == t && Flushes(s, s.threads[t], a))
    ensures t < |Apply(s, a).threads|
    ensures Apply(s, a).threads[t].sidecar == s.threads[t].sidecar + if a == Push(t) then [s.minted] else []
  {
    hide Apply, Enabled, Flushes;
    OneThreadSteps(s, a);
    assert s.threads[t].sidecar + [] == s.threads[t].sidecar;
    if OfThread(a) { SidecarStep(s, a); }
  }

  // While it sends nothing, a thread parks what it pushes behind what was parked before.
  lemma {:induction false} ParkedInOrder(s: State, actions: seq<Action>, s': State, t: nat)
    requires Run(s, actions, s') && t < |s.threads| && Quiet(s, actions, t)
    ensures t < |s'.threads|
    ensures s'.threads[t].sidecar == s.threads[t].sidecar + PushedBy(s, actions, t)
    decreases |actions|
  {
    hide Apply, Enabled, Flushes;
    if actions == [] {
      assert s.threads[t].sidecar + [] == s.threads[t].sidecar;
    } else {
      var a := actions[0];
      var one: seq<nat> := if a == Push(t) then [s.minted] else [];
      ParkedStep(s, a, t);
      ParkedInOrder(Apply(s, a), actions[1..], s', t);
      Associate(s.threads[t].sidecar, one, PushedBy(Apply(s, a), actions[1..], t));
    }
  }

  lemma {:induction false} SocketMoves(s: State, a: Action)
    requires Enabled(s, a)
    ensures if a.Receive? then s.socket != [] && Apply(s, a).socket == s.socket[1..]
            else s.socket <= Apply(s, a).socket
  {
    if a.Receive? {
      ChannelCalls.ReceiveRest(s, a.order);
      hide ApplyReceive, EvictedBy;
    } else {
      ChannelPairs.SocketStep(s, a);
      hide Apply, Enabled, Flushes, MsgOf;
    }
  }

  // The socket is first in, first out: a datagram is at its head once those before it are received.
  lemma {:induction false} FirstInFirstOut(s: State, actions: seq<Action>, s': State, i: nat)
    requires Run(s, actions, s') && i < |s.socket| && Receives(actions) <= i
    ensures i - Receives(actions) < |s'.socket| && s'.socket[i - Receives(actions)] == s.socket[i]
    decreases |actions|
  {
    hide Apply, Enabled;
    if actions != [] {
      var a := actions[0];
      SocketMoves(s, a);
      FirstInFirstOut(Apply(s, a), actions[1..], s', if a.Receive? then i - 1 else i);
    }
  }

  predicate AllBelow(refs: seq<nat>, n: nat) { forall k :: 0 <= k < |refs| ==> refs[k] < n }

  // References not minted yet are parked nowhere.
  lemma {:induction false} ParkedAreMinted(s: State, t: nat)
    requires OneOwnerEach(s) && t < |s.threads|
    ensures AllBelow(s.threads[t].sidecar, s.minted)
  {
    var parked := s.threads[t].sidecar;
    forall k | 0 <= k < |parked|
      ensures parked[k] < s.minted
    {
      var g := parked[k];
      assert Owners(s, g) == if g < s.minted then 1 else 0;
      hide OneOwnerEach, Total;
      TotalHolds(s.threads, t, OwnedByThread(g));
      assert g in multiset(parked);
    }
  }

  // The call of thread t is sent after a quiet stretch and received after all that was sent before it.
  ghost predicate SentAndReceived(s: State, pushes: seq<Action>, sending: State, after: seq<Action>, s': State,
                                  t: nat) {
    && t < |s.threads| && Run(s, pushes, sending) && Quiet(s, pushes, t)
    && Enabled(sending, EmitCall(t, true)) && Run(Apply(sending, EmitCall(t, true)), after, s')
    && Receives(after) == |sending.socket|
  }

  lemma {:induction false} CallIsReceived(n: nat, s: State, pushes: seq<Action>, sending: State, after: seq<Action>,
                                          s': State, t: nat)
    requires Reachable(n, s) && SentAndReceived(s, pushes, sending, after, s', t)
    ensures var refs, top := s.threads[t].sidecar + PushedBy(s, pushes, t), Top(sending.threads[t]);
            && s'.socket != [] && s'.socket[0] == CallMsg(top.cid, top.inv, refs)
            && |refs| <= Datagram.MAX_REFS && AllBelow(refs, sending.minted)
  {
    ParkedInOrder(s, pushes, sending, t);
    RefsParked(n, s, pushes, sending, t);
    ChannelPairs.CallSendsOwnId(sending, t);
    hide Run, Quiet, PushedBy, Apply, Enabled, Reachable, AllBelow;
    FirstInFirstOut(Apply(sending, EmitCall(t, true)), after, s', |sending.socket|);
  }

  lemma {:induction false} RefsParked(n: nat, s: State, pushes: seq<Action>, sending: State, t: nat)
    requires Reachable(n, s) && Run(s, pushes, sending) && t < |sending.threads|
    ensures |sending.threads[t].sidecar| <= Datagram.MAX_REFS
    ensures AllBelow(sending.threads[t].sidecar, sending.minted)
  {
    hide Run, Owners, Reachable;
    forall g: nat ensures Owners(s, g) == if g < s.minted then 1 else 0 { EveryRefOwnedOnce(n, s, g); }
    EveryRefOwnedOnce(n, s, 0);
    RunKeepsRefs(s, pushes, sending);
    ParkedAreMinted(sending, t);
  }

  // Rendering the reference g, when table lists the objects by their references.
  function RenderOf(table: seq<Obj>): nat -> Bytes {
    (g: nat) => if g < |table| then ChunkOf(table[g]) else []
  }

  // The text of an object call with few objects is not cut.
  lemma {:induction false} ShortText(slots: seq<int>)
    requires InSlots(slots, Datagram.MAX_REFS)
    ensures |WithHoles(SlotElems(slots))| <= 7 * |slots|
  {
    hide Text, ElemTokens, WithHoles, SlotElem;
    if slots == [] {
      NoText();
    } else {
      var es := SlotElems(slots);
      WithHolesCons(es, []);
      SlotElemText(slots[0]);
      assert es[1..] == SlotElems(slots[1..]);
      ShortText(slots[1..]);
    }
  }

  lemma {:induction false} NoText()
    ensures WithHoles([]) == []
  {
  }

  // The datagram of an object call, given the references it carries.
  lemma {:induction false} SlotsShown(e: Datagram.Event, refs: seq<nat>, slots: seq<int>, table: seq<Obj>)
    requires Datagram.ValidEvent(e) && e.Call? && e.args == WithHoles(SlotElems(slots)) && Datagram.ValidRefs(refs)
    requires Known(refs, table) && InSlots(slots, |refs|) && 7 * |slots| <= 512
    ensures ArgsSeen(Datagram.Datagram(e, refs), RenderOf(table)) == Some(SlotValues(slots, refs, table))
  {
    hide Decoded, Substituted, WithHoles, SlotElems, SlotValues, ChunkOf, ArgsSeen, Datagram.Datagram,
         Datagram.ValidEvent;
    CutArgsArrive(e, refs, RenderOf(table));
    ShortText(slots);
    ObjectCallDecodes(slots, refs, table);
    assert ChunksFor(refs, RenderOf(table)) == ObjectCalls.Rendered(refs, table);
  }

  // The slot of the k-th push names the reference it minted, behind those parked before.
  lemma {:induction false} SlotOfPush(parked: seq<nat>, pushed: seq<nat>, k: nat, table: seq<Obj>)
    requires k < |pushed| && pushed[k] < |table|
    ensures SlotValue(|parked| + k, parked + pushed, table) == ObjValue(Chunked(table[pushed[k]]))
  {
    hide ObjValue, Chunked;
    assert (parked + pushed)[|parked| + k] == pushed[k];
  }

  // Call event e, sent with the references parked and then pushed, shows for each slot its object, or a
  // null pointer, and the slot of the k-th push names the object pushed.
  ghost predicate Shown(e: Datagram.Event, parked: seq<nat>, pushed: seq<nat>, slots: seq<int>, table: seq<Obj>) {
    var refs := parked + pushed;
    && Datagram.ValidEvent(e) && Datagram.ValidRefs(refs)
    && ArgsSeen(Datagram.Datagram(e, refs), RenderOf(table)) == Some(SlotValues(slots, refs, table))
    && forall k :: 0 <= k < |pushed| ==>
         pushed[k] < |table| && SlotValue(|parked| + k, refs, table) == ObjValue(Chunked(table[pushed[k]]))
  }

  lemma {:induction false} ObjectsShown(e: Datagram.Event, parked: seq<nat>, pushed: seq<nat>, minted: nat,
                                        slots: seq<int>, table: seq<Obj>)
    requires Datagram.ValidEvent(e) && e.Call? && e.args == WithHoles(SlotElems(slots))
    requires InSlots(slots, |parked + pushed|) && 7 * |slots| <= 512
    requires minted <= |table| && Datagram.U64(minted) && |parked + pushed| <= Datagram.MAX_REFS
    requires AllBelow(parked + pushed, minted)
    ensures Shown(e, parked, pushed, slots, table)
  {
    var refs := parked + pushed;
    hide SlotValue, SlotValues, RenderOf, ObjValue, Chunked, WithHoles, SlotElems, ArgsSeen, Datagram.Datagram,
         Datagram.ValidEvent, InSlots;
    forall k | 0 <= k < |pushed| ensures pushed[k] < |table| { assert refs[|parked| + k] == pushed[k]; }
    SlotsShown(e, refs, slots, table);
    forall k | 0 <= k < |pushed|
      ensures SlotValue(|parked| + k, refs, table) == ObjValue(Chunked(table[pushed[k]]))
    {
      SlotOfPush(parked, pushed, k, table);
    }
  }

  /** From the pushes of a hook, through the channel and the bytes of the datagram, to the log. Whatever
      the other threads and the consumer do meanwhile, the datagram of the call comes off the socket in its
      turn with the references parked before it was sent. Its text, with a placeholder or the null record
      for each object, decodes to the objects in the slots, and the slot of the k-th push names the
      reference minted by that push. table lists the objects by their references. */
  lemma {:induction false} PushedIsShown(n: nat, s: State, pushes: seq<Action>, sending: State, after: seq<Action>,
                                         s': State, t: nat, slots: seq<int>, table: seq<Obj>, e: Datagram.Event)
    requires Reachable(n, s) && SentAndReceived(s, pushes, sending, after, s', t)
    requires sending.minted <= |table| && Datagram.U64(sending.minted)
    requires InSlots(slots, |s.threads[t].sidecar + PushedBy(s, pushes, t)|) && 7 * |slots| <= 512
    requires Datagram.ValidEvent(e) && e.Call? && e.args == WithHoles(SlotElems(slots))
    ensures var parked, pushed, top := s.threads[t].sidecar, PushedBy(s, pushes, t), Top(sending.threads[t]);
            && s'.socket != [] && s'.socket[0] == CallMsg(top.cid, top.inv, parked + pushed)
            && Shown(e, parked, pushed, slots, table)
  {
    var parked, pushed := s.threads[t].sidecar, PushedBy(s, pushes, t);
    hide *;
    CallIsReceived(n, s, pushes, sending, after, s', t);
    ObjectsShown(e, parked, pushed, sending.minted, slots, table);
  }
}
