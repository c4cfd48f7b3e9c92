/** The configuration cache, which gives up its lock in mid-lookup to ask the Go side.

    A step is one stretch under the lock, or one answer taken without it, by one of any number of
    threads. Names are passed as pointers to text that never changes; the Go side's answer for a name
    never changes either. The table is private to these functions and no entry is ever removed. */
module ConfigCache {
  import opened Bytes

  const SIZE := 256

  // What the cache depends on: the text behind a pointer, the hash of a text, the Go side's answers.
  datatype World = World(text: nat -> Bytes, hash: Bytes -> nat,
                         blacklisted: Bytes -> bool, enabled: Bytes -> bool)

  function Answer(w: World, ptr: nat): bool {
    !w.blacklisted(w.text(ptr)) && w.enabled(w.text(ptr))
  }

  // owned is the copy of the name, absent when it could not be allocated.
  datatype Slot = Fresh | Filled(key: nat, owned: Option<Bytes>, result: bool)

  type Slots = s: seq<Slot> | |s| == SIZE witness seq(SIZE, _ => Fresh)

  function Place(start: nat, n: nat): (i: nat)
    ensures i < SIZE
  {
    (start + n) % SIZE
  }

  // The slot met after n probes for the name at ptr.
  function Nth(w: World, ptr: nat, n: nat): (i: nat)
    ensures i < SIZE
  {
    Place(w.hash(w.text(ptr)), n)
  }

  predicate Matches(w: World, slot: Slot, ptr: nat) {
    slot.Filled? && (slot.key == ptr || slot.owned == Some(w.text(ptr)))
  }

  predicate Stops(w: World, slot: Slot, ptr: nat) { slot.Fresh? || Matches(w, slot, ptr) }

  // Probes from n on until a fresh slot or one for the name; SIZE when there is none.
  function Probe(w: World, slots: Slots, ptr: nat, n: nat): (r: nat)
    requires n <= SIZE
    ensures n <= r <= SIZE
    ensures r < SIZE ==> Stops(w, slots[Nth(w, ptr, r)], ptr)
    ensures forall k :: n <= k < r ==> !Stops(w, slots[Nth(w, ptr, k)], ptr)
    decreases SIZE - n
  {
    if n == SIZE || Stops(w, slots[Nth(w, ptr, n)], ptr) then n else Probe(w, slots, ptr, n + 1)
  }

  // A thread outside the lookup, or one that has left the lock to ask the Go side: for slot
  // Nth(ptr, n), or because the table is full.
  datatype Pc = Idle | Asking(ptr: nat, n: nat) | AskingFull(ptr: nat)

  datatype Reply = Reply(ptr: nat, out: bool)

  datatype State = State(slots: Slots, pcs: seq<Pc>, replies: seq<Reply>)

  datatype Action =
    | Scan(t: nat, ptr: nat)         // the scan under the lock
    | Recheck(t: nat, copied: bool)  // the Go side has answered: the second stretch under the lock
    | Fallback(t: nat)               // the Go side has answered a lookup that found the table full

  function Init(n: nat): State {
    State(seq(SIZE, _ => Fresh), seq(n, _ => Idle), [])
  }

  predicate Enabled(s: State, a: Action) {
    a.t < |s.pcs| &&
    match a
    case Scan(_, _) => s.pcs[a.t].Idle?
    case Recheck(_, _) => s.pcs[a.t].Asking? && s.pcs[a.t].n < SIZE
    case Fallback(_) => s.pcs[a.t].AskingFull?
  }

  // The slots after a scan: a match found by content takes over the caller's pointer.
  function ScanSlots(w: World, slots: Slots, ptr: nat): Slots {
    var n := Probe(w, slots, ptr, 0);
    if n == SIZE || slots[Nth(w, ptr, n)].Fresh? then slots
    else slots[Nth(w, ptr, n) := slots[Nth(w, ptr, n)].(key := ptr)]
  }

  // The slot after the second stretch, and what the lookup returns.
  function RecheckSlot(w: World, slot: Slot, ptr: nat, copied: bool): (Slot, bool) {
    if slot.Fresh? then
      (Filled(ptr, if copied then Some(w.text(ptr)) else None, Answer(w, ptr)), Answer(w, ptr))
    else if slot.owned == Some(w.text(ptr)) then (slot, slot.result)
    else (slot, Answer(w, ptr))
  }

  function Apply(w: World, s: State, a: Action): State
    requires Enabled(s, a)
  {
    match a
    case Scan(t, ptr) =>
      var n := Probe(w, s.slots, ptr, 0);
      if n == SIZE then s.(pcs := s.pcs[t := AskingFull(ptr)])
      else if s.slots[Nth(w, ptr, n)].Fresh? then s.(pcs := s.pcs[t := Asking(ptr, n)])
      else s.(slots := ScanSlots(w, s.slots, ptr),
              replies := s.replies + [Reply(ptr, s.slots[Nth(w, ptr, n)].result)])
    case Recheck(t, copied) =>
      var ptr := s.pcs[t].ptr;
      var i := Nth(w, ptr, s.pcs[t].n);
      var (slot, out) := RecheckSlot(w, s.slots[i], ptr, copied);
      State(s.slots[i := slot], s.pcs[t := Idle], s.replies + [Reply(ptr, out)])
    case Fallback(t) =>
      var ptr := s.pcs[t].ptr;
      s.(pcs := s.pcs[t := Idle], replies := s.replies + [Reply(ptr, Answer(w, ptr))])
  }

  ghost predicate Run(w: World, s: State, actions: seq<Action>, s': State)
    decreases |actions|
  {
    if actions == [] then s == s'
    else Enabled(s, actions[0]) && Run(w, Apply(w, s, actions[0]), actions[1..], s')
  }

  // ---------------------------------------------------------------------------------------------
  // Right answers, and one slot per name
  // ---------------------------------------------------------------------------------------------

  // A filled slot holds the answer for its own name.
  predicate SlotOk(w: World, slot: Slot) {
    slot.Filled? ==>
      slot.result == Answer(w, slot.key) && (slot.owned.Some? ==> slot.owned.value == w.text(slot.key))
  }

  // Each pointer in use has a text of its own.
  ghost predicate Injective(w: World, ptrs: set<nat>) {
    forall p, q :: p in ptrs && q in ptrs && w.text(p) == w.text(q) ==> p == q
  }

  // A lookup of name through a pointer in use recognises the slot: by its copy, or, when no other
  // pointer has that text, by its key.
  ghost predicate Claims(w: World, ptrs: set<nat>, slot: Slot, name: Bytes) {
    slot.Filled? && (slot.owned == Some(name) || (Injective(w, ptrs) && w.text(slot.key) == name))
  }

  // The first n slots on the way from the hash of name are taken, none of them recognised as name's.
  ghost predicate PassedBy(w: World, ptrs: set<nat>, slots: Slots, name: Bytes, n: nat) {
    forall k :: 0 <= k < n ==>
      var slot := slots[Place(w.hash(name), k)];
      slot.Filled? && !Claims(w, ptrs, slot, name)
  }

  // The way to a slot recognised as name's leads over taken slots that are not.
  ghost predicate ClaimOk(w: World, ptrs: set<nat>, slots: Slots, name: Bytes, n: nat) {
    n < SIZE && Claims(w, ptrs, slots[Place(w.hash(name), n)], name) ==> PassedBy(w, ptrs, slots, name, n)
  }

  ghost predicate SlotsOk(w: World, ptrs: set<nat>, s: State) {
    && (forall i :: 0 <= i < SIZE ==> SlotOk(w, s.slots[i]))
    && (forall i :: 0 <= i < SIZE && s.slots[i].Filled? ==> s.slots[i].key in ptrs)
    && forall name: Bytes, n: nat :: ClaimOk(w, ptrs, s.slots, name, n)
  }

  ghost predicate ThreadsOk(w: World, ptrs: set<nat>, s: State) {
    forall t :: 0 <= t < |s.pcs| && s.pcs[t].Asking? ==>
      && s.pcs[t].n < SIZE && s.pcs[t].ptr in ptrs
      && PassedBy(w, ptrs, s.slots, w.text(s.pcs[t].ptr), s.pcs[t].n)
  }

  ghost predicate RepliesOk(w: World, s: State) {
    forall i :: 0 <= i < |s.replies| ==> s.replies[i].out == Answer(w, s.replies[i].ptr)
  }

  ghost predicate Inv(w: World, ptrs: set<nat>, s: State) {
    SlotsOk(w, ptrs, s) && ThreadsOk(w, ptrs, s) && RepliesOk(w, s)
  }

  // Taken slots stay taken, for the same name and with the same copy.
  predicate Grows(w: World, slots: Slots, slots': Slots) {
    forall i :: 0 <= i < SIZE && slots[i].Filled? ==>
      slots'[i].Filled? && slots'[i].owned == slots[i].owned && w.text(slots'[i].key) == w.text(slots[i].key)
  }

  lemma {:induction false} PassedByStays(w: World, ptrs: set<nat>, slots: Slots, slots': Slots, name: Bytes, n: nat)
    requires Grows(w, slots, slots') && PassedBy(w, ptrs, slots, name, n)
    ensures PassedBy(w, ptrs, slots', name, n)
  {
    hide Place, Injective;
  }

  // Two ways of probing from one start to one slot are the same.
  lemma {:induction false} PlaceOnce(start: nat, n: nat, k: nat)
    requires n < SIZE && k < SIZE && Place(start, n) == Place(start, k)
    ensures n == k
  {
  }

  // Filling the fresh slot n probes away puts no name into a second slot that is recognised as its.
  lemma {:induction false} FillOk(w: World, ptrs: set<nat>, slots: Slots, ptr: nat, n: nat, copied: bool, name: Bytes,
                                  m: nat)
    requires n < SIZE && slots[Nth(w, ptr, n)].Fresh? && PassedBy(w, ptrs, slots, w.text(ptr), n)
    requires ClaimOk(w, ptrs, slots, name, m)
    ensures ClaimOk(w, ptrs, slots[Nth(w, ptr, n) := RecheckSlot(w, slots[Nth(w, ptr, n)], ptr, copied).0], name, m)
  {
    hide Injective;
    var i := Nth(w, ptr, n);
    var slots' := slots[i := RecheckSlot(w, slots[i], ptr, copied).0];
    var start := w.hash(name);
    assert Grows(w, slots, slots');
    if m < SIZE && Claims(w, ptrs, slots'[Place(start, m)], name) {
      if Place(start, m) == i {
        assert name == w.text(ptr);
        PlaceOnce(start, m, n);
        PassedByStays(w, ptrs, slots, slots', name, m);
      } else {
        assert PassedBy(w, ptrs, slots, name, m);
        forall k | 0 <= k < m ensures Place(start, k) != i {
          assert slots[Place(start, k)].Filled?;
        }
        PassedByStays(w, ptrs, slots, slots', name, m);
      }
    }
  }

  // A slot that changes hands between pointers to one text is recognised as before.
  lemma {:induction false} RekeyOk(w: World, ptrs: set<nat>, slots: Slots, i: nat, ptr: nat, name: Bytes, m: nat)
    requires i < SIZE && slots[i].Filled? && ClaimOk(w, ptrs, slots, name, m)
    requires w.text(ptr) == w.text(slots[i].key)
    ensures ClaimOk(w, ptrs, slots[i := slots[i].(key := ptr)], name, m)
  {
    hide Place, Injective;
  }

  lemma {:induction false} ScanPasses(w: World, ptrs: set<nat>, slots: Slots, ptr: nat, n: nat)
    requires n <= SIZE && ptr in ptrs
    requires forall i :: 0 <= i < SIZE && slots[i].Filled? ==> slots[i].key in ptrs
    requires forall k :: 0 <= k < n ==> !Stops(w, slots[Nth(w, ptr, k)], ptr)
    ensures PassedBy(w, ptrs, slots, w.text(ptr), n)
  {
    hide Place;
    forall k | 0 <= k < n
      ensures var slot := slots[Place(w.hash(w.text(ptr)), k)]; slot.Filled? && !Claims(w, ptrs, slot, w.text(ptr))
    {
      assert !Stops(w, slots[Nth(w, ptr, k)], ptr);
    }
  }

  lemma {:induction false} ScanStep(w: World, ptrs: set<nat>, s: State, t: nat, ptr: nat)
    requires Inv(w, ptrs, s) && Enabled(s, Scan(t, ptr)) && ptr in ptrs
    ensures Inv(w, ptrs, Apply(w, s, Scan(t, ptr)))
  {
    hide Place, Probe, ClaimOk, PassedBy;
    var s' := Apply(w, s, Scan(t, ptr));
    var n := Probe(w, s.slots, ptr, 0);
    if n == SIZE {
    } else if s.slots[Nth(w, ptr, n)].Fresh? {
      ScanPasses(w, ptrs, s.slots, ptr, n);
    } else {
      var i := Nth(w, ptr, n);
      assert SlotOk(w, s.slots[i]);
      forall name: Bytes, m: nat ensures ClaimOk(w, ptrs, s'.slots, name, m) {
        RekeyOk(w, ptrs, s.slots, i, ptr, name, m);
      }
      ThreadsStay(w, ptrs, s, s', t);
    }
  }

  // Threads other than t are none the worse for slots that only grow.
  lemma {:induction false} ThreadsStay(w: World, ptrs: set<nat>, s: State, s': State, t: nat)
    requires ThreadsOk(w, ptrs, s) && Grows(w, s.slots, s'.slots)
    requires t < |s.pcs| && (s'.pcs == s.pcs || s'.pcs == s.pcs[t := Idle])
    ensures ThreadsOk(w, ptrs, s')
  {
    hide PassedBy, Grows;
    forall u | 0 <= u < |s'.pcs| && s'.pcs[u].Asking?
      ensures PassedBy(w, ptrs, s'.slots, w.text(s'.pcs[u].ptr), s'.pcs[u].n)
    {
      PassedByStays(w, ptrs, s.slots, s'.slots, w.text(s.pcs[u].ptr), s.pcs[u].n);
    }
  }

  lemma {:induction false} RecheckStep(w: World, ptrs: set<nat>, s: State, t: nat, copied: bool)
    requires Inv(w, ptrs, s) && Enabled(s, Recheck(t, copied))
    ensures Inv(w, ptrs, Apply(w, s, Recheck(t, copied)))
  {
    hide Place, ClaimOk, PassedBy;
    var s' := Apply(w, s, Recheck(t, copied));
    var ptr, n := s.pcs[t].ptr, s.pcs[t].n;
    var i := Nth(w, ptr, n);
    assert SlotOk(w, s.slots[i]);
    if s.slots[i].Fresh? {
      forall name: Bytes, m: nat ensures ClaimOk(w, ptrs, s'.slots, name, m) {
        FillOk(w, ptrs, s.slots, ptr, n, copied, name, m);
      }
    } else {
      assert s'.slots == s.slots;
    }
    ThreadsStay(w, ptrs, s, s', t);
  }

  // Every lookup of the run is made through one of ptrs.
  predicate Uses(ptrs: set<nat>, actions: seq<Action>) {
    forall i :: 0 <= i < |actions| && actions[i].Scan? ==> actions[i].ptr in ptrs
  }

  lemma {:induction false} RunKeepsInv(w: World, ptrs: set<nat>, s: State, actions: seq<Action>, s': State)
    requires Inv(w, ptrs, s) && Run(w, s, actions, s') && Uses(ptrs, actions)
    ensures Inv(w, ptrs, s')
    decreases |actions|
  {
    if actions != [] {
      var a := actions[0];
      match a {
        case Scan(t, ptr) => ScanStep(w, ptrs, s, t, ptr);
        case Recheck(t, copied) => RecheckStep(w, ptrs, s, t, copied);
        case Fallback(t) =>
      }
      hide Inv, Enabled, Apply;
      RunKeepsInv(w, ptrs, Apply(w, s, a), actions[1..], s');
    }
  }

  function PtrsOf(actions: seq<Action>): (ptrs: set<nat>)
    ensures Uses(ptrs, actions)
  {
    if actions == [] then {} else (if actions[0].Scan? then {actions[0].ptr} else {}) + PtrsOf(actions[1..])
  }

  // What the Go side says about a name: it is enabled and not blacklisted.
  predicate Said(w: World, name: Bytes) { w.enabled(name) && !w.blacklisted(name) }

  /** Under any interleaving every lookup returns the Go side's answer for its own name, and every
      filled slot holds the answer for the name it was filled for. */
  lemma {:induction false} RightAnswers(w: World, n: nat, actions: seq<Action>, s: State, i: nat)
    requires Run(w, Init(n), actions, s)
    ensures i < |s.replies| ==> s.replies[i].out == Said(w, w.text(s.replies[i].ptr))
    ensures i < SIZE && s.slots[i].Filled? ==> s.slots[i].result == Said(w, w.text(s.slots[i].key))
  {
    RunKeepsInv(w, PtrsOf(actions), Init(n), actions, s);
    if i < SIZE { assert SlotOk(w, s.slots[i]); }
  }

  function WayTo(start: nat, i: nat): (n: nat)
    requires i < SIZE
    ensures n < SIZE && Place(start, n) == i
  {
    (i + SIZE - start % SIZE) % SIZE
  }

  // Two slots recognised as one name's are the same slot.
  lemma {:induction false} OneClaim(w: World, ptrs: set<nat>, s: State, name: Bytes, i: nat, j: nat)
    requires Inv(w, ptrs, s) && i < SIZE && j < SIZE
    requires Claims(w, ptrs, s.slots[i], name) && Claims(w, ptrs, s.slots[j], name)
    ensures i == j
  {
    hide Place, Claims;
    var a, b := WayTo(w.hash(name), i), WayTo(w.hash(name), j);
    assert ClaimOk(w, ptrs, s.slots, name, a) && ClaimOk(w, ptrs, s.slots, name, b);
  }

  /** No two slots hold copies of one name: the same name in two slots means that for one of them the
      copy could not be allocated. */
  lemma {:induction false} OneSlotPerCopy(w: World, n: nat, actions: seq<Action>, s: State, i: nat, j: nat)
    requires Run(w, Init(n), actions, s)
    requires i < SIZE && j < SIZE && i != j && SameName(w, s.slots[i], s.slots[j])
    ensures s.slots[i].owned.None? || s.slots[j].owned.None?
  {
    var ptrs, name := PtrsOf(actions), w.text(s.slots[i].key);
    RunKeepsInv(w, ptrs, Init(n), actions, s);
    assert SlotOk(w, s.slots[i]) && SlotOk(w, s.slots[j]);
    if s.slots[i].owned.Some? && s.slots[j].owned.Some? { OneClaim(w, ptrs, s, name, i, j); }
  }

  // Every copy was allocated.
  predicate AllCopied(actions: seq<Action>) {
    forall i :: 0 <= i < |actions| && actions[i].Recheck? ==> actions[i].copied
  }

  predicate Copied(s: State) {
    forall i :: 0 <= i < SIZE && s.slots[i].Filled? ==> s.slots[i].owned.Some?
  }

  lemma {:induction false} CopiedSlots(w: World, s: State, actions: seq<Action>, s': State)
    requires Run(w, s, actions, s') && AllCopied(actions) && Copied(s)
    ensures Copied(s')
    decreases |actions|
  {
    hide Place, Probe;
    if actions != [] { CopiedSlots(w, Apply(w, s, actions[0]), actions[1..], s'); }
  }

  predicate SameName(w: World, a: Slot, b: Slot) { a.Filled? && b.Filled? && w.text(a.key) == w.text(b.key) }

  // No name occupies two slots.
  ghost predicate OneSlotPerName(w: World, s: State) {
    forall i, j :: 0 <= i < SIZE && 0 <= j < SIZE && SameName(w, s.slots[i], s.slots[j]) ==> i == j
  }

  lemma {:induction false} OneSlotIf(w: World, ptrs: set<nat>, n: nat, actions: seq<Action>, s: State)
    requires Run(w, Init(n), actions, s) && Uses(ptrs, actions)
    requires Injective(w, ptrs) || AllCopied(actions)
    ensures OneSlotPerName(w, s)
  {
    RunKeepsInv(w, ptrs, Init(n), actions, s);
    if !Injective(w, ptrs) { CopiedSlots(w, Init(n), actions, s); }
    hide Run, Injective, Place;
    forall i, j | 0 <= i < SIZE && 0 <= j < SIZE && SameName(w, s.slots[i], s.slots[j])
      ensures i == j
    {
      assert SlotOk(w, s.slots[i]) && SlotOk(w, s.slots[j]);
      OneClaim(w, ptrs, s, w.text(s.slots[i].key), i, j);
    }
  }

  // A lookup through p whose copy fails, then one through q.
  function Duplicating(p: nat, q: nat): seq<Action> {
    [Scan(0, p), Recheck(0, false), Scan(0, q), Recheck(0, true)]
  }

  lemma {:induction false} FirstLookupFails(w: World, p: nat) returns (s: State)
    ensures Enabled(Init(1), Scan(0, p)) && Enabled(Apply(w, Init(1), Scan(0, p)), Recheck(0, false))
    ensures s == Apply(w, Apply(w, Init(1), Scan(0, p)), Recheck(0, false))
    ensures s.pcs == [Idle] && s.slots == Init(1).slots[Nth(w, p, 0) := Filled(p, None, Answer(w, p))]
  {
    var s0 := Init(1);
    assert Probe(w, s0.slots, p, 0) == 0;
    hide Place, Answer;
    s := Apply(w, Apply(w, s0, Scan(0, p)), Recheck(0, false));
  }

  lemma {:induction false} SecondLookupFills(w: World, p: nat, q: nat, s: State) returns (s': State)
    requires p != q && w.text(p) == w.text(q) && s.pcs == [Idle]
    requires s.slots == Init(1).slots[Nth(w, p, 0) := Filled(p, None, Answer(w, p))]
    ensures Enabled(s, Scan(0, q)) && Enabled(Apply(w, s, Scan(0, q)), Recheck(0, true))
    ensures s' == Apply(w, Apply(w, s, Scan(0, q)), Recheck(0, true))
    ensures Nth(w, p, 0) != Nth(w, q, 1)
    ensures s'.slots[Nth(w, p, 0)].Filled? && s'.slots[Nth(w, p, 0)].key == p
    ensures s'.slots[Nth(w, q, 1)].Filled? && s'.slots[Nth(w, q, 1)].key == q
  {
    var i, j := Nth(w, p, 0), Nth(w, q, 1);
    assert i != j by { if i == j { PlaceOnce(w.hash(w.text(p)), 0, 1); } }
    assert !Stops(w, s.slots[i], q) && Stops(w, s.slots[j], q);
    hide Place, Answer;
    assert Probe(w, s.slots, q, 1) == 1;
    assert Probe(w, s.slots, q, 0) == 1;
    s' := Apply(w, Apply(w, s, Scan(0, q)), Recheck(0, true));
  }

  /** Two pointers to one text and one failed copy put a name into two slots, whatever its hash: the
      second lookup does not recognise the slot the first one filled. */
  lemma {:induction false} FailedCopyDuplicates(w: World, p: nat, q: nat) returns (s: State)
    requires p != q && w.text(p) == w.text(q)
    ensures Run(w, Init(1), Duplicating(p, q), s) && !OneSlotPerName(w, s)
  {
    var s2 := FirstLookupFails(w, p);
    s := SecondLookupFills(w, p, q, s2);
    hide Apply, Enabled, Init, Nth;
    var all := Duplicating(p, q);
    var s1, s3 := Apply(w, Init(1), all[0]), Apply(w, s2, all[2]);
    assert all[1..][1..] == all[2..] && all[2..][1..] == all[3..] && all[3..][1..] == [];
    assert Run(w, s, [], s);
    assert Run(w, s3, all[3..], s);
    assert Run(w, s2, all[2..], s);
    assert Run(w, s1, all[1..], s);
  }

  /** No run of lookups through the pointers ptrs ever puts a name into two slots if and only if the
      pointers have distinct texts or no copy can fail. */
  lemma {:induction false} OneSlotExactly(w: World, ptrs: set<nat>, copiesMayFail: bool)
    ensures (forall n: nat, actions: seq<Action>, s: State ::
               Run(w, Init(n), actions, s) && Uses(ptrs, actions) && (copiesMayFail || AllCopied(actions))
               ==> OneSlotPerName(w, s))
            <==> Injective(w, ptrs) || !copiesMayFail
  {
    hide Run, OneSlotPerName, AllCopied;
    if Injective(w, ptrs) || !copiesMayFail {
      forall n: nat, actions: seq<Action>, s: State
        | Run(w, Init(n), actions, s) && Uses(ptrs, actions) && (copiesMayFail || AllCopied(actions))
        ensures OneSlotPerName(w, s)
      {
        OneSlotIf(w, ptrs, n, actions, s);
      }
    } else {
      var p, q :| p in ptrs && q in ptrs && w.text(p) == w.text(q) && p != q;
      var s := FailedCopyDuplicates(w, p, q);
      assert Uses(ptrs, Duplicating(p, q));
    }
  }

  // ---------------------------------------------------------------------------------------------
  // The program
  // ---------------------------------------------------------------------------------------------

  class ConfigTable {
    const entries: array<Slot>

    ghost predicate Valid()
      reads this
    {
      entries.Length == SIZE
    }

    ghost function Now(): Slots
      requires Valid()
      reads this, entries
    {
      entries[..]
    }

    constructor ()
      ensures Valid() && Now() == Init(0).slots && fresh(entries)
    {
      entries := new Slot[SIZE](_ => Fresh);
      new;
      assert entries[..] == Init(0).slots;
    }

    // The first stretch under the lock: an answer, or the fresh slot n probes away, or SIZE.
    method Scan(w: World, ptr: nat) returns (n: nat, answer: Option<bool>)
      requires Valid()
      modifies entries
      ensures Now() == ScanSlots(w, old(Now()), ptr) && n == Probe(w, old(Now()), ptr, 0)
      ensures answer == if n == SIZE || old(Now())[Nth(w, ptr, n)].Fresh? then None
                        else Some(old(Now())[Nth(w, ptr, n)].result)
    {
      hide Place;
      n, answer := 0, None;
      while n < SIZE
        invariant n <= SIZE && answer == None && Now() == old(Now())
        invariant Probe(w, Now(), ptr, n) == Probe(w, Now(), ptr, 0)
      {
        var i := Nth(w, ptr, n);
        if entries[i].Fresh? { return; }
        if entries[i].key == ptr { answer := Some(entries[i].result); SameKey(Now(), i, ptr); return; }
        if entries[i].owned == Some(w.text(ptr)) {
          answer := Some(entries[i].result);
          entries[i] := entries[i].(key := ptr);
          return;
        }
        n := n + 1;
      }
    }

    // The second stretch under the lock.
    method Recheck(w: World, ptr: nat, n: nat, copied: bool, allowed: bool) returns (out: bool)
      requires Valid() && n < SIZE && allowed == Answer(w, ptr)
      modifies entries
      ensures var i := Nth(w, ptr, n);
              var (slot, o) := RecheckSlot(w, old(Now())[i], ptr, copied);
              Now() == old(Now())[i := slot] && out == o
    {
      hide Place;
      var i := Nth(w, ptr, n);
      if entries[i].Fresh? {
        entries[i] := Filled(ptr, if copied then Some(w.text(ptr)) else None, allowed);
        out := entries[i].result;
      } else if entries[i].owned == Some(w.text(ptr)) {
        out := entries[i].result;
      } else {
        out := allowed;
      }
    }
  }

  lemma {:induction false} SameKey(slots: Slots, i: nat, ptr: nat)
    requires i < SIZE && slots[i].Filled? && slots[i].key == ptr
    ensures slots[i := slots[i].(key := ptr)] == slots
  {
  }
}
