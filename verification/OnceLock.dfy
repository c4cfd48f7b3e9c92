/** One-time initialisation on a futex word, as a system of N threads: 0 fresh, 1 running, 2 done. */
module OnceLock {
  import opened Sums

  datatype Pc =
    | Outside   // not calling
    | Check     // first load of the state
    | Cas       // compare-exchange 0 -> 1
    | Running   // about to run the initialiser
    | Publish   // about to store 2
    | WakeAll   // about to wake every sleeper
    | Recheck   // load at the head of the waiting loop
    | Wait      // futex_wait(state, 1)
    | Asleep
    | Returned

  datatype State = State(state: int, pcs: seq<Pc>, inits: nat)

  datatype Action = Step(t: nat) | Spurious(t: nat)

  function Init(n: nat): State {
    State(0, seq(n, _ => Outside), 0)
  }

  predicate Enabled(s: State, a: Action) {
    a.t < |s.pcs| && (a.Spurious? <==> s.pcs[a.t] == Asleep)
  }

  function Woken(pcs: seq<Pc>): seq<Pc> {
    seq(|pcs|, i requires 0 <= i < |pcs| => if pcs[i] == Asleep then Recheck else pcs[i])
  }

  function Apply(s: State, a: Action): State
    requires Enabled(s, a)
  {
    var t := a.t;
    match s.pcs[t]
    case Outside => s.(pcs := s.pcs[t := Check])
    case Check => s.(pcs := s.pcs[t := if s.state == 2 then Returned else Cas])
    case Cas =>
      if s.state == 0 then s.(state := 1, pcs := s.pcs[t := Running])
      else s.(pcs := s.pcs[t := Recheck])
    case Running => s.(inits := s.inits + 1, pcs := s.pcs[t := Publish])
    case Publish => s.(state := 2, pcs := s.pcs[t := WakeAll])
    case WakeAll => s.(pcs := Woken(s.pcs)[t := Returned])
    case Recheck => s.(pcs := s.pcs[t := if s.state == 2 then Returned else Wait])
    case Wait => s.(pcs := s.pcs[t := if s.state == 1 then Asleep else Recheck])
    case Asleep => s.(pcs := s.pcs[t := Recheck])
    case Returned => s.(pcs := s.pcs[t := Check])
  }

  ghost predicate Run(s: State, actions: seq<Action>, s': State)
    decreases |actions|
  {
    if actions == [] then s == s'
    else Enabled(s, actions[0]) && Run(Apply(s, actions[0]), actions[1..], s')
  }

  predicate Runner(p: Pc) { p == Running || p == Publish }

  predicate SomeRunner(s: State) { exists i :: 0 <= i < |s.pcs| && Runner(s.pcs[i]) }

  predicate SomeWaker(s: State) { exists i :: 0 <= i < |s.pcs| && s.pcs[i] == WakeAll }

  predicate PcOk(s: State, p: Pc) {
    && (p == Running ==> s.inits == 0)
    && (p == Publish ==> s.inits == 1)
    && (p == WakeAll || p == Returned ==> s.state == 2)
    && (p == Asleep ==> s.state == 1 || SomeWaker(s))
    && (p == Recheck || p == Wait || p == Asleep ==> s.state != 0)
  }

  ghost predicate Inv(s: State) {
    && 0 <= s.state <= 2
    && (s.state == 1 <==> SomeRunner(s))
    && (forall i, j :: 0 <= i < |s.pcs| && 0 <= j < |s.pcs| && Runner(s.pcs[i]) && Runner(s.pcs[j]) ==> i == j)
    && (s.state == 0 ==> s.inits == 0)
    && (s.state == 2 ==> s.inits == 1)
    && forall i :: 0 <= i < |s.pcs| ==> PcOk(s, s.pcs[i])
  }

  lemma {:induction false} StepKeepsInv(s: State, a: Action)
    requires Inv(s) && Enabled(s, a)
    ensures Inv(Apply(s, a))
  {
    assert PcOk(s, s.pcs[a.t]);
    RunnersAfter(s, a);
    CountersAfter(s, a);
    OneRunnerAfter(s, a);
    PcsAfter(s, a);
    hide SomeRunner, SomeWaker, PcOk, Apply, Enabled;
  }

  lemma {:induction false} CountersAfter(s: State, a: Action)
    requires Inv(s) && Enabled(s, a)
    ensures var s', p, p' := Apply(s, a), s.pcs[a.t], Apply(s, a).pcs[a.t];
            && 0 <= s'.state <= 2 && (s'.state == 0 ==> s'.inits == 0) && (s'.state == 2 ==> s'.inits == 1)
            && (if Runner(p') then s'.state == 1 else if Runner(p) then s'.state == 2 else s'.state == s.state)
  {
    assert PcOk(s, s.pcs[a.t]);
    assert Runner(s.pcs[a.t]) ==> SomeRunner(s);
    hide SomeRunner, SomeWaker;
  }

  lemma {:induction false} OneRunnerAfter(s: State, a: Action)
    requires Inv(s) && Enabled(s, a)
    ensures var s' := Apply(s, a);
            forall i, j :: 0 <= i < |s'.pcs| && 0 <= j < |s'.pcs| && Runner(s'.pcs[i]) && Runner(s'.pcs[j]) ==> i == j
    ensures Runner(Apply(s, a).pcs[a.t]) ==> Runner(s.pcs[a.t]) || !SomeRunner(s)
    ensures SomeRunner(s) && Runner(s.pcs[a.t]) ==> forall i :: 0 <= i < |s.pcs| && Runner(s.pcs[i]) ==> i == a.t
  {
    var s' := Apply(s, a);
    assert |s'.pcs| == |s.pcs|;
    assert forall i :: 0 <= i < |s.pcs| && i != a.t ==> Runner(s'.pcs[i]) == Runner(s.pcs[i]);
    assert Runner(s'.pcs[a.t]) && !Runner(s.pcs[a.t]) ==> s.state == 0;
    hide PcOk, Apply, Runner;
  }

  lemma {:induction false} PcsAfter(s: State, a: Action)
    requires Inv(s) && Enabled(s, a)
    ensures var s' := Apply(s, a); forall i :: 0 <= i < |s'.pcs| ==> PcOk(s', s'.pcs[i])
  {
    var s' := Apply(s, a);
    WakersAfter(s, a);
    forall i | 0 <= i < |s'.pcs| ensures PcOk(s', s'.pcs[i]) {
      assert PcOk(s, s.pcs[i]) && PcOk(s, s.pcs[a.t]);
      if i == a.t { OwnPcAfter(s, a); } else { OtherPcAfter(s, a, i); }
    }
  }

  lemma {:induction false} OwnPcAfter(s: State, a: Action)
    requires Inv(s) && Enabled(s, a)
    ensures PcOk(Apply(s, a), Apply(s, a).pcs[a.t])
  {
    assert PcOk(s, s.pcs[a.t]);
    assert Runner(s.pcs[a.t]) ==> SomeRunner(s);
    hide SomeWaker, SomeRunner;
  }

  lemma {:induction false} OtherPcAfter(s: State, a: Action, i: nat)
    requires Inv(s) && Enabled(s, a) && i < |s.pcs| && i != a.t
    ensures i < |Apply(s, a).pcs| && PcOk(Apply(s, a), Apply(s, a).pcs[i])
  {
    assert PcOk(s, s.pcs[i]) && PcOk(s, s.pcs[a.t]);
    assert Runner(s.pcs[i]) ==> SomeRunner(s);
    WakersAfter(s, a);
    hide SomeWaker, SomeRunner;
  }

  lemma {:induction false} RunnersAfter(s: State, a: Action)
    requires Inv(s) && Enabled(s, a)
    ensures SomeRunner(Apply(s, a)) <==> (Runner(Apply(s, a).pcs[a.t]) || (SomeRunner(s) && !Runner(s.pcs[a.t])))
  {
    var s' := Apply(s, a);
    assert forall i :: 0 <= i < |s.pcs| && i != a.t ==> Runner(s'.pcs[i]) == Runner(s.pcs[i]);
    hide PcOk, Apply;
    if SomeRunner(s') {
      var i :| 0 <= i < |s'.pcs| && Runner(s'.pcs[i]);
    }
    if SomeRunner(s) && !Runner(s.pcs[a.t]) {
      var i :| 0 <= i < |s.pcs| && Runner(s.pcs[i]);
      assert Runner(s'.pcs[i]);
    }
  }

  lemma {:induction false} WakersAfter(s: State, a: Action)
    requires Inv(s) && Enabled(s, a)
    ensures s.pcs[a.t] == Publish ==> SomeWaker(Apply(s, a))
    ensures SomeWaker(s) && s.pcs[a.t] != WakeAll ==> SomeWaker(Apply(s, a))
  {
    var s' := Apply(s, a);
    if s.pcs[a.t] == Publish {
      assert s'.pcs[a.t] == WakeAll;
    } else if SomeWaker(s) && s.pcs[a.t] != WakeAll {
      var i :| 0 <= i < |s.pcs| && s.pcs[i] == WakeAll;
      assert s'.pcs[i] == WakeAll;
    }
  }

  lemma {:induction false} RunKeepsInv(s: State, actions: seq<Action>, s': State)
    requires Inv(s) && Run(s, actions, s')
    ensures Inv(s')
    decreases |actions|
  {
    if actions != [] {
      StepKeepsInv(s, actions[0]);
      RunKeepsInv(Apply(s, actions[0]), actions[1..], s');
    }
  }

  /** The initialiser runs at most once, and whoever returned did so after it had run to the end. */
  lemma {:induction false} ExactlyOnce(n: nat, actions: seq<Action>, s: State)
    requires Run(Init(n), actions, s)
    ensures s.inits <= 1
    ensures (exists i :: 0 <= i < |s.pcs| && s.pcs[i] == Returned) ==> s.inits == 1 && s.state == 2
  {
    RunKeepsInv(Init(n), actions, s);
    if s.state == 1 {
      var i :| 0 <= i < |s.pcs| && Runner(s.pcs[i]);
    }
  }

  /** Nobody is left sleeping: while a thread sleeps, the initialising thread still owes the wake. */
  lemma {:induction false} SleeperWillBeWoken(n: nat, actions: seq<Action>, s: State, i: nat)
    requires Run(Init(n), actions, s) && i < |s.pcs| && s.pcs[i] == Asleep
    ensures exists j :: 0 <= j < |s.pcs| && s.pcs[j] in {Running, Publish, WakeAll}
  {
    RunKeepsInv(Init(n), actions, s);
    if s.state == 1 {
      var r :| 0 <= r < |s.pcs| && Runner(s.pcs[r]);
      assert s.pcs[r] in {Running, Publish, WakeAll};
    }
  }

  /** Once the initialiser is done a call returns after one load, and nothing else changes. */
  lemma {:induction false} DoneIsFast(s: State, t: nat)
    requires t < |s.pcs| && (s.pcs[t] == Outside || s.pcs[t] == Returned) && s.state == 2
    ensures Enabled(s, Step(t)) && Enabled(Apply(s, Step(t)), Step(t))
    ensures Apply(Apply(s, Step(t)), Step(t)) == s.(pcs := s.pcs[t := Returned])
  {
    assert s.pcs[t := Check][t := Returned] == s.pcs[t := Returned];
  }

  // ---------------------------------------------------------------------------------------------
  // Every call returns
  // ---------------------------------------------------------------------------------------------

  predicate Away(p: Pc) { p == Outside || p == Returned }

  // Everything but a new call and a spurious wakeup.
  predicate Internal(s: State, a: Action) { a.t < |s.pcs| && a.Step? && !Away(s.pcs[a.t]) }

  // Steps a thread can still take, given whether the initialiser is done.
  function Rank(done: bool): Pc -> nat {
    (p: Pc) =>
      match p
      case Check => 9
      case Cas => 8
      case Running => 7
      case Publish => 6
      case WakeAll => 5
      case Recheck => if done then 2 else 5
      case Wait => if done then 3 else 4
      case Asleep => 3
      case _ => 0
  }

  function Measure(s: State): nat { Total(s.pcs, Rank(s.state == 2)) }

  lemma {:induction false} MeasureStep(s: State, a: Action)
    requires Inv(s) && Enabled(s, a) && Internal(s, a)
    ensures Measure(Apply(s, a)) < Measure(s)
  {
    var s' := Apply(s, a);
    forall i | 0 <= i < |s.pcs|
      ensures i < |s'.pcs|
      ensures Rank(s'.state == 2)(s'.pcs[i]) <= Rank(s.state == 2)(s.pcs[i])
      ensures i == a.t ==> Rank(s'.state == 2)(s'.pcs[i]) < Rank(s.state == 2)(s.pcs[i])
    {
      RankStep(s, a, i);
    }
    assert |s'.pcs| == |s.pcs|;
    hide Apply, Total, Rank, Inv;
    TotalLess(s'.pcs, s.pcs, Rank(s'.state == 2), Rank(s.state == 2), a.t);
  }

  lemma {:induction false} RankStep(s: State, a: Action, i: nat)
    requires Inv(s) && Enabled(s, a) && Internal(s, a) && i < |s.pcs|
    ensures var s' := Apply(s, a);
            && i < |s'.pcs|
            && Rank(s'.state == 2)(s'.pcs[i]) <= Rank(s.state == 2)(s.pcs[i])
            && (i == a.t ==> Rank(s'.state == 2)(s'.pcs[i]) < Rank(s.state == 2)(s.pcs[i]))
  {
    assert PcOk(s, s.pcs[a.t]);
    hide SomeRunner, SomeWaker;
  }

  // A run of internal steps only.
  ghost predicate InternalRun(s: State, actions: seq<Action>, s': State)
    decreases |actions|
  {
    if actions == [] then s == s'
    else
      && Enabled(s, actions[0]) && Internal(s, actions[0])
      && InternalRun(Apply(s, actions[0]), actions[1..], s')
  }

  /** Without new calls and spurious wakeups every schedule is finite: its length is bounded by a number
      read off the state it starts in. */
  lemma {:induction false} SchedulesAreFinite(s: State, actions: seq<Action>, s': State)
    requires Inv(s) && InternalRun(s, actions, s')
    ensures |actions| + Measure(s') <= Measure(s)
    decreases |actions|
  {
    hide Inv, Measure, Apply, Enabled, Internal;
    if actions != [] {
      MeasureStep(s, actions[0]);
      StepKeepsInv(s, actions[0]);
      SchedulesAreFinite(Apply(s, actions[0]), actions[1..], s');
    }
  }

  /** A reachable state in which no internal step is possible has every thread outside: with
      SchedulesAreFinite, every call returns. */
  lemma {:induction false} StuckMeansAllAway(n: nat, actions: seq<Action>, s: State, i: nat)
    requires Run(Init(n), actions, s)
    requires forall a :: Internal(s, a) ==> !Enabled(s, a)
    requires i < |s.pcs|
    ensures Away(s.pcs[i])
  {
    forall k: nat | k < |s.pcs| && !Away(s.pcs[k])
      ensures s.pcs[k] == Asleep
    {
      assert Internal(s, Step(k));
    }
    if s.pcs[i] == Asleep {
      SleeperWillBeWoken(n, actions, s, i);
    }
  }
}
