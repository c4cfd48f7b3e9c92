/** The three-state futex mutex as a system of N threads.

    One step is one atomic operation or one futex system call of one thread, and the steps of
    different threads interleave in any order. A thread parked in the kernel may also be woken for
    no reason. The word is 0 when free, 1 when held, 2 when held with (possible) waiters. */
module FutexMutex {

  // Where a thread stands inside lock or unlock; each name is the step it takes next.
  datatype Pc =
    | Idle      // outside lock and unlock
    | Cas       // compare-exchange 0 -> 1
    | Exchange  // exchange the word with 2
    | Wait      // futex_wait(word, 2)
    | Asleep    // parked in the kernel
    | Held      // between lock and unlock; leaves by fetch_sub
    | Store     // fetch_sub did not return 1: owes the store of 0
    | Wake      // stored 0: owes the wake of one sleeper

  datatype State = State(word: int, pcs: seq<Pc>)

  datatype Action =
    | Call(t: nat)
    | DoCas(t: nat)
    | DoExchange(t: nat)
    | DoWait(t: nat)
    | Spurious(t: nat)
    | FetchSub(t: nat)
    | DoStore(t: nat)
    | WakeOne(t: nat, sleeper: nat)
    | WakeNone(t: nat)

  function Init(n: nat): State {
    State(0, seq(n, _ => Idle))
  }

  // The program counter at which thread a.t takes action a.
  function Before(a: Action): Pc {
    match a
    case Call(_) => Idle
    case DoCas(_) => Cas
    case DoExchange(_) => Exchange
    case DoWait(_) => Wait
    case Spurious(_) => Asleep
    case FetchSub(_) => Held
    case DoStore(_) => Store
    case WakeOne(_, _) => Wake
    case WakeNone(_) => Wake
  }

  predicate SomeAt(s: State, p: Pc) {
    exists i :: 0 <= i < |s.pcs| && s.pcs[i] == p
  }

  predicate Enabled(s: State, a: Action) {
    && a.t < |s.pcs|
    && s.pcs[a.t] == Before(a)
    && (a.WakeOne? ==> a.sleeper < |s.pcs| && s.pcs[a.sleeper] == Asleep)
    && (a.WakeNone? ==> !SomeAt(s, Asleep))
  }

  function Move(s: State, t: nat, word: int, p: Pc): State
    requires t < |s.pcs|
  {
    State(word, s.pcs[t := p])
  }

  function Apply(s: State, a: Action): State
    requires Enabled(s, a)
  {
    match a
    case Call(t) => Move(s, t, s.word, Cas)
    case DoCas(t) =>
      if s.word == 0 then Move(s, t, 1, Held)
      else Move(s, t, s.word, if s.word != 2 then Exchange else Wait)
    case DoExchange(t) => Move(s, t, 2, if s.word == 0 then Held else Wait)
    case DoWait(t) => Move(s, t, s.word, if s.word == 2 then Asleep else Exchange)
    case Spurious(t) => Move(s, t, s.word, Exchange)
    case FetchSub(t) => Move(s, t, s.word - 1, if s.word == 1 then Idle else Store)
    case DoStore(t) => Move(s, t, 0, Wake)
    case WakeOne(t, w) => Move(Move(s, t, s.word, Idle), w, s.word, Exchange)
    case WakeNone(t) => Move(s, t, s.word, Idle)
  }

  ghost predicate Run(s: State, actions: seq<Action>, s': State)
    decreases |actions|
  {
    if actions == [] then s == s'
    else Enabled(s, actions[0]) && Run(Apply(s, actions[0]), actions[1..], s')
  }

  ghost predicate Reachable(n: nat, s: State) {
    exists actions :: Run(Init(n), actions, s)
  }

  // ---------------------------------------------------------------------------------------------
  // Safety
  // ---------------------------------------------------------------------------------------------

  // A thread owns the word from its acquisition until the write that frees it; a thread that has
  // subtracted but not yet stored still owns it.
  predicate Owns(p: Pc) { p == Held || p == Store }

  predicate SomeOwner(s: State) {
    exists i :: 0 <= i < |s.pcs| && Owns(s.pcs[i])
  }

  ghost predicate OneOwner(s: State) {
    forall i, j :: 0 <= i < |s.pcs| && 0 <= j < |s.pcs| && Owns(s.pcs[i]) && Owns(s.pcs[j]) ==> i == j
  }

  // No sleeper is forgotten: somebody awake is still going to release it or to put the word at 2.
  ghost predicate SleepersCovered(s: State) {
    SomeAt(s, Asleep) ==>
      s.word == 2 || SomeAt(s, Store) || SomeAt(s, Wake) || SomeAt(s, Exchange)
  }

  ghost predicate Inv(s: State) {
    && 0 <= s.word <= 2
    && OneOwner(s)
    && (s.word != 0 <==> SomeOwner(s))
    && SleepersCovered(s)
  }

  // A step changes the owners at its own thread only.
  lemma {:induction false} OwnersAfter(s: State, a: Action)
    requires Enabled(s, a)
    ensures |Apply(s, a).pcs| == |s.pcs|
    ensures forall i :: 0 <= i < |s.pcs| && i != a.t ==> Owns(Apply(s, a).pcs[i]) == Owns(s.pcs[i])
  {
  }

  // Only a free word is acquired, and giving it up frees it.
  lemma {:induction false} WordAfter(s: State, a: Action)
    requires Enabled(s, a) && 0 <= s.word <= 2 && (Owns(s.pcs[a.t]) ==> s.word != 0)
    ensures var s', o, o' := Apply(s, a), Owns(s.pcs[a.t]), Owns(Apply(s, a).pcs[a.t]);
            && 0 <= s'.word <= 2
            && (!o && o' ==> s.word == 0) && (o' ==> s'.word != 0) && (o && !o' ==> s'.word == 0)
            && (!o && !o' ==> (s'.word != 0) == (s.word != 0))
  {
  }

  lemma {:induction false} OwnerStepKept(s: State, a: Action)
    requires Inv(s) && Enabled(s, a)
    ensures var s' := Apply(s, a);
            0 <= s'.word <= 2 && OneOwner(s') && (s'.word != 0 <==> SomeOwner(s'))
  {
    var s' := Apply(s, a);
    assert Owns(s.pcs[a.t]) ==> SomeOwner(s);
    OwnersAfter(s, a);
    WordAfter(s, a);
    hide Apply, Enabled, SleepersCovered, Owns;
    if Owns(s'.pcs[a.t]) {
      assert SomeOwner(s');
    } else if SomeOwner(s) {
      var o :| 0 <= o < |s.pcs| && Owns(s.pcs[o]);
      if o != a.t { assert Owns(s'.pcs[o]); }
    }
  }

  lemma {:induction false} SleepersStepKept(s: State, a: Action)
    requires Inv(s) && Enabled(s, a)
    ensures SleepersCovered(Apply(s, a))
  {
    var s' := Apply(s, a);
    if a.WakeOne? {
      assert s'.pcs[a.sleeper] == Exchange;
    } else if s'.word == 2 || s'.pcs[a.t] in {Store, Wake, Exchange} {
      assert SomeAt(s', s'.pcs[a.t]);
    } else if i :| 0 <= i < |s.pcs| && i != a.t && s.pcs[i] in {Store, Wake, Exchange} {
      assert s'.pcs[i] == s.pcs[i];
    }
  }

  lemma {:induction false} StepKeepsInv(s: State, a: Action)
    requires Inv(s) && Enabled(s, a)
    ensures Inv(Apply(s, a))
  {
    OwnerStepKept(s, a);
    SleepersStepKept(s, a);
  }

  lemma {:induction false} RunKeepsInv(s: State, actions: seq<Action>, s': State)
    requires Inv(s) && Run(s, actions, s')
    ensures Inv(s') && |s'.pcs| == |s.pcs|
    decreases |actions|
  {
    if actions != [] {
      StepKeepsInv(s, actions[0]);
      RunKeepsInv(Apply(s, actions[0]), actions[1..], s');
    }
  }

  lemma {:induction false} ReachableInv(n: nat, s: State)
    requires Reachable(n, s)
    ensures Inv(s) && |s.pcs| == n
  {
    var actions :| Run(Init(n), actions, s);
    assert Inv(Init(n));
    hide Inv, Run;
    RunKeepsInv(Init(n), actions, s);
  }

  /** At most one thread is between lock and unlock, in every reachable state. */
  lemma {:induction false} MutualExclusion(n: nat, s: State, i: nat, j: nat)
    requires Reachable(n, s)
    requires i < n && j < n
    requires |s.pcs| == n && s.pcs[i] == Held && s.pcs[j] == Held
    ensures i == j
  {
    ReachableInv(n, s);
  }

  /** While a thread holds the mutex, no step of another thread frees the word or lets it in. */
  lemma {:induction false} HolderIsUndisturbed(n: nat, s: State, holder: nat, a: Action)
    requires Reachable(n, s) && holder < |s.pcs| && s.pcs[holder] == Held
    requires Enabled(s, a) && a.t != holder
    ensures var s' := Apply(s, a);
            s'.pcs[holder] == Held && s'.word != 0
            && forall i :: 0 <= i < |s'.pcs| && i != holder ==> s'.pcs[i] != Held
  {
    ReachableInv(n, s);
    StepKeepsInv(s, a);
    assert Owns(Apply(s, a).pcs[holder]);
  }

  /** No wakeup is lost: whenever a thread sleeps, some thread is awake and inside lock or unlock,
      and it is one whose remaining steps release the sleeper or set the word to 2 first. */
  lemma {:induction false} NoLostWakeup(n: nat, s: State)
    requires Reachable(n, s) && SomeAt(s, Asleep)
    ensures exists h :: 0 <= h < |s.pcs| && s.pcs[h] in {Held, Store, Wake, Exchange}
                        && (s.pcs[h] == Held ==> s.word == 2)
  {
    ReachableInv(n, s);
    if i :| 0 <= i < |s.pcs| && s.pcs[i] in {Store, Wake, Exchange} {
    } else {
      assert s.word == 2 && SomeOwner(s);
    }
  }

  /** Without contention no call sleeps or wakes: a free word is taken by the compare-exchange, left at 1, and
      given up by the subtraction, which ends the unlock. */
  lemma {:induction false} UncontendedIsFast(s: State, t: nat)
    requires t < |s.pcs| && s.pcs[t] == Idle && s.word == 0
    ensures Enabled(s, Call(t)) && Enabled(Apply(s, Call(t)), DoCas(t))
    ensures var h := Apply(Apply(s, Call(t)), DoCas(t));
            && h.word == 1 && h.pcs == s.pcs[t := Held]
            && Enabled(h, FetchSub(t)) && Apply(h, FetchSub(t)) == s
  {
    assert s.pcs[t := Cas][t := Held] == s.pcs[t := Held];
    assert s.pcs[t := Held][t := Idle] == s.pcs;
  }

  // A thread that was not there before somebody waited.
  predicate Calm(p: Pc) { p in {Idle, Cas, Exchange, Held} }

  lemma {:induction false} CalmStep(s: State, a: Action)
    requires Enabled(s, a) && !a.DoExchange? && 0 <= s.word < 2 && (a.FetchSub? ==> s.word == 1)
    requires forall i :: 0 <= i < |s.pcs| ==> Calm(s.pcs[i])
    ensures var s' := Apply(s, a); s'.word < 2 && forall i :: 0 <= i < |s'.pcs| ==> Calm(s'.pcs[i])
  {
  }

  /** Until some thread finds the word taken and exchanges it with 2, no thread sleeps, stores or wakes. */
  lemma {:induction false} NoExchangeNoWake(s: State, actions: seq<Action>, s': State)
    requires Inv(s) && Run(s, actions, s') && s.word < 2 && forall i :: 0 <= i < |s.pcs| ==> Calm(s.pcs[i])
    requires forall k :: 0 <= k < |actions| ==> !actions[k].DoExchange?
    ensures s'.word < 2 && forall i :: 0 <= i < |s'.pcs| ==> Calm(s'.pcs[i])
    decreases |actions|
  {
    if actions != [] {
      var a := actions[0];
      if a.FetchSub? { assert Owns(s.pcs[a.t]) && SomeOwner(s); }
      StepKeepsInv(s, a);
      CalmStep(s, a);
      hide Inv, Enabled, Apply, Calm;
      NoExchangeNoWake(Apply(s, a), actions[1..], s');
    }
  }

  // ---------------------------------------------------------------------------------------------
  // Every lock call returns
  // ---------------------------------------------------------------------------------------------

  // Everything but a new lock call and a spurious wakeup.
  predicate Internal(a: Action) { !a.Call? && !a.Spurious? }

  // Unlock steps a thread still has to take before it is idle again.
  function Debt(p: Pc): nat {
    match p
    case Idle => 0
    case Wake => 1
    case Store => 2
    case _ => 3
  }

  // Steps a contender can take before somebody else takes an unlock step.
  function Rank(two: bool, p: Pc): nat {
    match p
    case Cas => 3
    case Exchange => 2
    case Wait => if two then 1 else 3
    case _ => 0
  }

  function DebtSum(pcs: seq<Pc>): nat {
    if pcs == [] then 0 else Debt(pcs[0]) + DebtSum(pcs[1..])
  }

  function RankSum(two: bool, pcs: seq<Pc>): nat {
    if pcs == [] then 0 else Rank(two, pcs[0]) + RankSum(two, pcs[1..])
  }

  lemma {:induction false} DebtSumUpdate(pcs: seq<Pc>, t: nat, p: Pc)
    requires t < |pcs|
    ensures DebtSum(pcs[t := p]) == DebtSum(pcs) - Debt(pcs[t]) + Debt(p)
  {
    if t == 0 {
      assert pcs[t := p][1..] == pcs[1..];
    } else {
      DebtSumUpdate(pcs[1..], t - 1, p);
      assert pcs[t := p][1..] == pcs[1..][t - 1 := p];
    }
  }

  lemma {:induction false} RankSumUpdate(two: bool, pcs: seq<Pc>, t: nat, p: Pc)
    requires t < |pcs|
    ensures RankSum(two, pcs[t := p]) == RankSum(two, pcs) - Rank(two, pcs[t]) + Rank(two, p)
  {
    if t == 0 {
      assert pcs[t := p][1..] == pcs[1..];
    } else {
      RankSumUpdate(two, pcs[1..], t - 1, p);
      assert pcs[t := p][1..] == pcs[1..][t - 1 := p];
    }
  }

  lemma {:induction false} SumBounds(pcs: seq<Pc>, two: bool)
    ensures RankSum(two, pcs) <= 3 * |pcs| && DebtSum(pcs) <= 3 * |pcs|
    ensures RankSum(true, pcs) <= RankSum(two, pcs)
  {
    if pcs != [] { SumBounds(pcs[1..], two); }
  }

  // Lexicographic pair (unlock debt, contender rank) flattened into one number.
  function Measure(s: State): nat {
    DebtSum(s.pcs) * (3 * |s.pcs| + 1) + RankSum(s.word == 2, s.pcs)
  }

  lemma {:induction false} DebtStep(s: State, a: Action)
    requires Inv(s) && Enabled(s, a) && Internal(a)
    ensures var s' := Apply(s, a);
            if a.FetchSub? || a.DoStore? || a.WakeOne? || a.WakeNone?
            then DebtSum(s'.pcs) < DebtSum(s.pcs)
            else DebtSum(s'.pcs) == DebtSum(s.pcs)
  {
    DebtSumUpdate(s.pcs, a.t, Apply(s, a).pcs[a.t]);
    if a.WakeOne? {
      DebtSumUpdate(s.pcs[a.t := Idle], a.sleeper, Exchange);
      DebtSumUpdate(s.pcs, a.t, Idle);
    }
  }

  lemma {:induction false} RankStep(s: State, a: Action)
    requires Inv(s) && Enabled(s, a)
    requires a.DoCas? || a.DoExchange? || a.DoWait?
    ensures var s' := Apply(s, a);
            RankSum(s'.word == 2, s'.pcs) < RankSum(s.word == 2, s.pcs)
  {
    var s' := Apply(s, a);
    RankSumUpdate(s.word == 2, s.pcs, a.t, s'.pcs[a.t]);
    if a.DoExchange? {
      RankSumUpdate(true, s.pcs, a.t, s'.pcs[a.t]);
      SumBounds(s.pcs, s.word == 2);
    }
  }

  lemma {:induction false} MeasureStep(s: State, a: Action)
    requires Inv(s) && Enabled(s, a) && Internal(a)
    ensures Measure(Apply(s, a)) < Measure(s)
  {
    var s' := Apply(s, a);
    var k := 3 * |s.pcs| + 1;
    DebtStep(s, a);
    SumBounds(s'.pcs, s'.word == 2);
    if DebtSum(s'.pcs) < DebtSum(s.pcs) {
      Scaled(DebtSum(s'.pcs), DebtSum(s.pcs), k);
    } else {
      RankStep(s, a);
    }
  }

  lemma {:induction false} Scaled(x: nat, y: nat, k: nat)
    requires x < y
    ensures x * k + k <= y * k
  {
    assert (y - x - 1) * k >= 0;
    assert y * k == (x + 1 + (y - x - 1)) * k == (x + 1) * k + (y - x - 1) * k;
  }

  /** Without new calls and spurious wakeups every schedule is finite: its length is bounded by a
      number read off the state it starts in. */
  lemma {:induction false} SchedulesAreFinite(s: State, actions: seq<Action>, s': State)
    requires Inv(s) && Run(s, actions, s')
    requires forall k :: 0 <= k < |actions| ==> Internal(actions[k])
    ensures |actions| + Measure(s') <= Measure(s)
    decreases |actions|
  {
    if actions != [] {
      assert Internal(actions[0]);
      MeasureStep(s, actions[0]);
      StepKeepsInv(s, actions[0]);
      SchedulesAreFinite(Apply(s, actions[0]), actions[1..], s');
    }
  }

  lemma {:induction false} AwakeCanMove(s: State, t: nat) returns (a: Action)
    requires t < |s.pcs| && s.pcs[t] != Idle && s.pcs[t] != Asleep
    ensures Internal(a) && a.t == t && Enabled(s, a)
  {
    match s.pcs[t]
    case Cas => a := DoCas(t);
    case Exchange => a := DoExchange(t);
    case Wait => a := DoWait(t);
    case Held => a := FetchSub(t);
    case Store => a := DoStore(t);
    case Wake =>
      if w :| 0 <= w < |s.pcs| && s.pcs[w] == Asleep {
        a := WakeOne(t, w);
      } else {
        a := WakeNone(t);
      }
  }

  /** A reachable state in which no internal step is possible has every thread idle: nobody is left
      asleep, waiting or holding. Together with SchedulesAreFinite, every lock call is granted. */
  lemma {:induction false} StuckMeansAllIdle(n: nat, s: State, i: nat)
    requires Reachable(n, s)
    requires forall a :: Internal(a) ==> !Enabled(s, a)
    requires i < |s.pcs|
    ensures s.pcs[i] == Idle
  {
    forall k: nat | k < |s.pcs| && s.pcs[k] != Idle
      ensures s.pcs[k] == Asleep
    {
      if s.pcs[k] != Asleep {
        var a := AwakeCanMove(s, k);
      }
    }
    if s.pcs[i] != Idle {
      NoLostWakeup(n, s);
    }
  }

  /** The lock itself: each step performs its atomic operation on the word and the branch the code
      takes on what the operation returned. */
  class Mutex {
    var v: int
    var pcs: seq<Pc>

    ghost function Now(): State
      reads this
    {
      State(v, pcs)
    }

    constructor (n: nat)
      ensures Now() == Init(n)
    {
      v := 0;
      pcs := seq(n, _ => Idle);
    }

    method CompareExchange(expected: int, desired: int) returns (ok: bool, seen: int)
      modifies this`v
      ensures seen == old(v) && (ok <==> old(v) == expected)
      ensures v == if ok then desired else old(v)
    {
      seen := v;
      ok := v == expected;
      if ok { v := desired; }
    }

    method LockStep(t: nat)
      requires t < |pcs| && pcs[t] in {Idle, Cas, Exchange, Wait}
      modifies this
      ensures old(pcs[t]) == Idle ==> Now() == Apply(old(Now()), Call(t))
      ensures old(pcs[t]) == Cas ==> Now() == Apply(old(Now()), DoCas(t))
      ensures old(pcs[t]) == Exchange ==> Now() == Apply(old(Now()), DoExchange(t))
      ensures old(pcs[t]) == Wait ==> Now() == Apply(old(Now()), DoWait(t))
    {
      match pcs[t] {
        case Idle =>
          pcs := pcs[t := Cas];
        case Cas =>
          var ok, c := CompareExchange(0, 1);
          pcs := pcs[t := if ok then Held else if c != 2 then Exchange else Wait];
        case Exchange =>
          var c := v;
          v := 2;
          pcs := pcs[t := if c != 0 then Wait else Held];
        case Wait =>
          pcs := pcs[t := if v == 2 then Asleep else Exchange];
      }
    }

    method UnlockStep(t: nat)
      requires t < |pcs| && pcs[t] in {Held, Store, Wake}
      modifies this
      ensures old(pcs[t]) == Held ==> Now() == Apply(old(Now()), FetchSub(t))
      ensures old(pcs[t]) == Store ==> Now() == Apply(old(Now()), DoStore(t))
      ensures old(pcs[t]) == Wake && old(SomeAt(Now(), Asleep)) ==>
                exists w: nat :: Enabled(old(Now()), WakeOne(t, w)) && Now() == Apply(old(Now()), WakeOne(t, w))
      ensures old(pcs[t]) == Wake && !old(SomeAt(Now(), Asleep)) ==> Now() == Apply(old(Now()), WakeNone(t))
    {
      match pcs[t] {
        case Held =>
          var was := v;
          v := v - 1;
          pcs := pcs[t := if was != 1 then Store else Idle];
        case Store =>
          v := 0;
          pcs := pcs[t := Wake];
        case Wake =>
          // The kernel picks any one sleeper.
          if w: nat :| w < |pcs| && pcs[w] == Asleep {
            assert Enabled(old(Now()), WakeOne(t, w));
            pcs := pcs[t := Idle][w := Exchange];
          } else {
            pcs := pcs[t := Idle];
          }
      }
    }
  }
}
