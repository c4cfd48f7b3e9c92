/** When the configuration cache asks the Go side: never for a name a slot already answers. */
module ConfigHits {
  import opened Bytes
  import opened ConfigCache

  // The slot answers lookups through ptr: by the pointer itself, or by its copy of the text.
  predicate Knows(w: World, slot: Slot, ptr: nat) {
    slot.Filled? && (slot.key == ptr || (slot.owned.Some? && slot.owned.value == w.text(ptr)))
  }

  // The first n slots on the way from the hash of name are taken.
  ghost predicate Taken(w: World, slots: Slots, name: Bytes, n: nat) {
    forall k :: 0 <= k < n ==> slots[Place(w.hash(name), k)].Filled?
  }

  // A slot of name lies behind taken slots only.
  ghost predicate LedTo(w: World, slots: Slots, name: Bytes, n: nat) {
    var i := Place(w.hash(name), n);
    n < SIZE && slots[i].Filled? && w.text(slots[i].key) == name ==> Taken(w, slots, name, n)
  }

  ghost predicate Led(w: World, slots: Slots) { forall name: Bytes, n: nat :: LedTo(w, slots, name, n) }

  ghost predicate AskersLed(w: World, s: State) {
    forall t :: 0 <= t < |s.pcs| && s.pcs[t].Asking? ==>
      s.pcs[t].n < SIZE && Taken(w, s.slots, w.text(s.pcs[t].ptr), s.pcs[t].n)
  }

  // A copy is the text of the slot's own name.
  ghost predicate CopiesOk(w: World, slots: Slots) {
    forall i :: 0 <= i < SIZE && slots[i].Filled? && slots[i].owned.Some? ==>
      slots[i].owned.value == w.text(slots[i].key)
  }

  ghost predicate PathInv(w: World, s: State) { CopiesOk(w, s.slots) && Led(w, s.slots) && AskersLed(w, s) }

  lemma {:induction false} TakenStays(w: World, slots: Slots, slots': Slots, name: Bytes, n: nat)
    requires Grows(w, slots, slots') && Taken(w, slots, name, n)
    ensures Taken(w, slots', name, n)
  {
    hide Place;
  }

  lemma {:induction false} AskersStay(w: World, s: State, s': State, t: nat)
    requires AskersLed(w, s) && Grows(w, s.slots, s'.slots) && t < |s.pcs| && |s'.pcs| == |s.pcs|
    requires forall u :: 0 <= u < |s.pcs| && u != t ==> s'.pcs[u] == s.pcs[u]
    requires s'.pcs[t].Asking? ==> s'.pcs[t].n < SIZE && Taken(w, s'.slots, w.text(s'.pcs[t].ptr), s'.pcs[t].n)
    ensures AskersLed(w, s')
  {
    hide Taken, Grows;
    forall u | 0 <= u < |s'.pcs| && u != t && s'.pcs[u].Asking?
      ensures Taken(w, s'.slots, w.text(s'.pcs[u].ptr), s'.pcs[u].n)
    {
      TakenStays(w, s.slots, s'.slots, w.text(s.pcs[u].ptr), s.pcs[u].n);
    }
  }

  lemma {:induction false} ScanTakes(w: World, slots: Slots, ptr: nat, n: nat)
    requires n <= SIZE && forall k :: 0 <= k < n ==> !Stops(w, slots[Nth(w, ptr, k)], ptr)
    ensures Taken(w, slots, w.text(ptr), n)
  {
    hide Place;
    forall k | 0 <= k < n ensures slots[Place(w.hash(w.text(ptr)), k)].Filled? {
      assert !Stops(w, slots[Nth(w, ptr, k)], ptr);
    }
  }

  lemma {:induction false} RekeyedLed(w: World, slots: Slots, i: nat, ptr: nat)
    requires i < SIZE && slots[i].Filled? && w.text(ptr) == w.text(slots[i].key) && CopiesOk(w, slots) && Led(w, slots)
    ensures var slots' := slots[i := slots[i].(key := ptr)];
            Grows(w, slots, slots') && CopiesOk(w, slots') && Led(w, slots')
  {
    hide Place;
    var slots' := slots[i := slots[i].(key := ptr)];
    forall name: Bytes, n: nat ensures LedTo(w, slots', name, n) {
      assert LedTo(w, slots, name, n);
    }
  }

  lemma {:induction false} ScanLed(w: World, s: State, t: nat, ptr: nat)
    requires PathInv(w, s) && Enabled(s, Scan(t, ptr))
    ensures PathInv(w, Apply(w, s, Scan(t, ptr)))
  {
    hide Place, Probe, LedTo, Taken;
    var s' := Apply(w, s, Scan(t, ptr));
    var n := Probe(w, s.slots, ptr, 0);
    ScanTakes(w, s.slots, ptr, n);
    if n < SIZE && s.slots[Nth(w, ptr, n)].Filled? {
      var i := Nth(w, ptr, n);
      assert Matches(w, s.slots[i], ptr);
      RekeyedLed(w, s.slots, i, ptr);
    }
    hide CopiesOk, Led;
    AskersStay(w, s, s', t);
  }

  lemma {:induction false} FilledLed(w: World, slots: Slots, ptr: nat, n: nat, copied: bool)
    requires n < SIZE && slots[Nth(w, ptr, n)].Fresh? && Taken(w, slots, w.text(ptr), n)
    requires CopiesOk(w, slots) && Led(w, slots)
    ensures var i := Nth(w, ptr, n);
            var slots' := slots[i := RecheckSlot(w, slots[i], ptr, copied).0];
            Grows(w, slots, slots') && CopiesOk(w, slots') && Led(w, slots')
  {
    var i := Nth(w, ptr, n);
    var slots' := slots[i := RecheckSlot(w, slots[i], ptr, copied).0];
    assert Grows(w, slots, slots');
    forall name: Bytes, m: nat ensures LedTo(w, slots', name, m) {
      assert LedTo(w, slots, name, m);
      if m < SIZE && Place(w.hash(name), m) == i && w.text(slots'[i].key) == name {
        PlaceOnce(w.hash(name), m, n);
        TakenStays(w, slots, slots', name, m);
      } else if Taken(w, slots, name, m) {
        TakenStays(w, slots, slots', name, m);
      }
    }
  }

  lemma {:induction false} RecheckLed(w: World, s: State, t: nat, copied: bool)
    requires PathInv(w, s) && Enabled(s, Recheck(t, copied))
    ensures PathInv(w, Apply(w, s, Recheck(t, copied)))
  {
    var s' := Apply(w, s, Recheck(t, copied));
    var ptr, n := s.pcs[t].ptr, s.pcs[t].n;
    hide Place, LedTo, Taken;
    if s.slots[Nth(w, ptr, n)].Fresh? {
      FilledLed(w, s.slots, ptr, n, copied);
    } else {
      assert s'.slots == s.slots;
    }
    hide CopiesOk, Led;
    AskersStay(w, s, s', t);
  }

  lemma {:induction false} RunLed(w: World, s: State, actions: seq<Action>, s': State)
    requires PathInv(w, s) && Run(w, s, actions, s')
    ensures PathInv(w, s')
    decreases |actions|
  {
    if actions != [] {
      var a := actions[0];
      match a {
        case Scan(t, ptr) => ScanLed(w, s, t, ptr);
        case Recheck(t, copied) => RecheckLed(w, s, t, copied);
        case Fallback(t) => AskersStay(w, s, Apply(w, s, a), t);
      }
      hide PathInv, Enabled, Apply;
      RunLed(w, Apply(w, s, a), actions[1..], s');
    }
  }

  lemma {:induction false} DistanceTo(start: nat, i: nat) returns (d: nat)
    requires i < SIZE
    ensures d < SIZE && Place(start, d) == i
  {
    var from := start % SIZE;
    d := if i >= from then i - from else i + SIZE - from;
  }

  // The probe for ptr stops at a slot that knows it, if there is one.
  lemma {:induction false} ProbeKnows(w: World, slots: Slots, ptr: nat, i: nat)
    requires CopiesOk(w, slots) && Led(w, slots) && i < SIZE && Knows(w, slots[i], ptr)
    ensures var n := Probe(w, slots, ptr, 0); n < SIZE && Knows(w, slots[Nth(w, ptr, n)], ptr)
  {
    var d := DistanceTo(w.hash(w.text(ptr)), i);
    assert LedTo(w, slots, w.text(ptr), d);
    assert Nth(w, ptr, d) == i && Stops(w, slots[i], ptr);
    hide Place;
    var n := Probe(w, slots, ptr, 0);
    assert n <= d;
    if n < d { assert slots[Place(w.hash(w.text(ptr)), n)].Filled?; }
  }

  /** A lookup whose name some slot answers is answered at once, rightly, and the Go side is not asked. */
  lemma {:induction false} KnownIsNotAsked(w: World, n: nat, actions: seq<Action>, s: State, t: nat, ptr: nat, i: nat)
    requires Run(w, Init(n), actions, s) && Enabled(s, Scan(t, ptr)) && i < SIZE && Knows(w, s.slots[i], ptr)
    ensures var s' := Apply(w, s, Scan(t, ptr));
            && s'.pcs == s.pcs
            && s'.replies == s.replies + [Reply(ptr, !w.blacklisted(w.text(ptr)) && w.enabled(w.text(ptr)))]
  {
    RunLed(w, Init(n), actions, s);
    ProbeKnows(w, s.slots, ptr, i);
    var m := Probe(w, s.slots, ptr, 0);
    var j := Nth(w, ptr, m);
    RightAnswers(w, n, actions, s, j);
    assert s.slots[j].owned.Some? ==> s.slots[j].owned.value == w.text(s.slots[j].key);
    hide Place, Probe, Run, PathInv;
  }

  lemma {:induction false} KnownStep(w: World, s: State, a: Action, ptr: nat, i: nat)
    requires Enabled(s, a) && i < SIZE && Knows(w, s.slots[i], ptr)
    requires s.slots[i].owned.Some? ==> s.slots[i].owned.value == w.text(s.slots[i].key)
    ensures Knows(w, Apply(w, s, a).slots[i], ptr)
    ensures var slot := Apply(w, s, a).slots[i]; slot.owned.Some? ==> slot.owned.value == w.text(slot.key)
  {
    hide Place, Probe;
    if a.Scan? && Probe(w, s.slots, a.ptr, 0) < SIZE {
      assert Stops(w, s.slots[Nth(w, a.ptr, Probe(w, s.slots, a.ptr, 0))], a.ptr);
    }
  }

  lemma {:induction false} KnownForGood(w: World, s: State, actions: seq<Action>, s': State, ptr: nat, i: nat)
    requires Run(w, s, actions, s') && i < SIZE && Knows(w, s.slots[i], ptr)
    requires s.slots[i].owned.Some? ==> s.slots[i].owned.value == w.text(s.slots[i].key)
    ensures Knows(w, s'.slots[i], ptr)
    decreases |actions|
  {
    hide Knows, Enabled, Apply;
    if actions != [] {
      KnownStep(w, s, actions[0], ptr, i);
      KnownForGood(w, Apply(w, s, actions[0]), actions[1..], s', ptr, i);
    }
  }

  /** A name is asked for once: after a lookup was answered by the Go side and found its slot still fresh, every
      later lookup through the same pointer, and with a copy allocated through any pointer to the same text, is
      answered from the cache. */
  lemma {:induction false} AskedOnce(w: World, n: nat, before: seq<Action>, s: State, t: nat, copied: bool,
                                     after: seq<Action>, s': State, u: nat, q: nat)
    requires Run(w, Init(n), before, s) && Enabled(s, Recheck(t, copied))
    requires s.slots[Nth(w, s.pcs[t].ptr, s.pcs[t].n)].Fresh?
    requires Run(w, Apply(w, s, Recheck(t, copied)), after, s') && Enabled(s', Scan(u, q))
    requires q == s.pcs[t].ptr || (copied && w.text(q) == w.text(s.pcs[t].ptr))
    ensures Apply(w, s', Scan(u, q)).pcs == s'.pcs
    ensures exists i :: 0 <= i < 256 && Knows(w, s'.slots[i], q)
  {
    var i := Nth(w, s.pcs[t].ptr, s.pcs[t].n);
    var s1 := Apply(w, s, Recheck(t, copied));
    assert Knows(w, s1.slots[i], q);
    KnownForGood(w, s1, after, s', q, i);
    RunLed(w, Init(n), before, s);
    RecheckLed(w, s, t, copied);
    RunLed(w, s1, after, s');
    ProbeKnows(w, s'.slots, q, i);
    hide Place, Probe, Run, PathInv;
  }

  /** A lookup is left without a slot only when all 256 are taken and none answers it. */
  lemma {:induction false} FullExactly(w: World, s: State, t: nat, ptr: nat)
    requires Enabled(s, Scan(t, ptr))
    ensures Apply(w, s, Scan(t, ptr)).pcs[t] == AskingFull(ptr) <==>
            forall i :: 0 <= i < 256 ==> s.slots[i].Filled? && !Knows(w, s.slots[i], ptr)
  {
    var n := Probe(w, s.slots, ptr, 0);
    hide Probe;
    if n == SIZE {
      forall i | 0 <= i < 256 ensures s.slots[i].Filled? && !Knows(w, s.slots[i], ptr) {
        var d := DistanceTo(w.hash(w.text(ptr)), i);
        assert !Stops(w, s.slots[Nth(w, ptr, d)], ptr);
      }
    } else {
      assert Stops(w, s.slots[Nth(w, ptr, n)], ptr);
    }
  }
}
