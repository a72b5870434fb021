/** Whole calls of the WIN32 condition variable: what becomes of the mutexes of the caller, and what a
    signal and a broadcast have done when they return. */
module ConditionVariableCalls {
  import opened Options
  import opened ConditionVariable
  import opened ConditionVariableSafety
  import opened ConditionVariableTheorems

  /** The mutexes that a thread holds. */
  ghost function Owned(s: State, t: Thread): set<Mutex> {
    set m | m in s.owner && s.owner[m] == Some(t)
  }

  ghost predicate IsOutside(s: State, t: Thread) {
    t in s.threads && s.threads[t].pc == Outside
  }

  ghost predicate IsInside(s: State, t: Thread, c: Cond) {
    t in s.threads && s.threads[t].pc.Inside? && s.threads[t].pc.c == c
  }

  ghost predicate IsAt(s: State, t: Thread, c: Cond, at: Statement) {
    t in s.threads && s.threads[t].pc == Inside(c, at)
  }

  /** Between place `n` and place `m` of a run, `t` makes one call on `c`, which starts at `first`. */
  ghost predicate Calls(run: seq<State>, t: Thread, c: Cond, first: Statement, n: nat, m: nat) {
    && n + 1 < m < |run|
    && IsOutside(run[n], t) && IsAt(run[n + 1], t, c, first) && IsOutside(run[m], t)
    && forall k {:trigger IsInside(run[k], t, c)} :: n < k < m ==> IsInside(run[k], t, c)
  }

  // ---- Who holds a mutex ----------------------------------------------------------------------

  /** Until it drops the mutex, a waiting thread holds it. */
  ghost predicate Holding(p: Policy, s: State) {
    && WellTyped(p, s)
    && forall t {:trigger s.threads[t].pc} ::
        t in s.threads && s.threads[t].pc.Inside? && BeforeUnlock(s.threads[t].pc.at) ==>
         s.owner[p.mutexOf[s.threads[t].pc.c]] == Some(t)
  }

  lemma StepHolding(p: Policy, s: State, u: Thread, a: Action, s': State)
    requires Holding(p, s) && Step(p, s, u, a) == Some(s') && WellTyped(p, s')
    ensures Holding(p, s')
  {
    forall t | t in s'.threads && s'.threads[t].pc.Inside? && BeforeUnlock(s'.threads[t].pc.at)
      ensures s'.owner[p.mutexOf[s'.threads[t].pc.c]] == Some(t)
    {
      if t != u { OtherPc(p, s, u, a, s', t); }
    }
  }

  /** A thread does not move another one. */
  lemma OtherPc(p: Policy, s: State, u: Thread, a: Action, s': State, t: Thread)
    requires WellTyped(p, s) && Step(p, s, u, a) == Some(s') && t != u
    ensures t in s'.threads <==> t in s.threads
    ensures t in s.threads ==> s'.threads[t].pc == s.threads[t].pc
  {
  }

  /** ... nor does it give or take one of its mutexes. */
  lemma OtherOwned(p: Policy, s: State, u: Thread, a: Action, s': State, t: Thread)
    requires Holding(p, s) && Step(p, s, u, a) == Some(s') && t != u
    ensures Owned(s', t) == Owned(s, t)
  {
  }

  lemma RunTyped(p: Policy, run: seq<State>, n: nat)
    requires IsRun(p, run) && n < |run|
    ensures Holding(p, run[n])
  {
    var i := 0;
    while i < n
      invariant i <= n && Holding(p, run[i])
    {
      assert Transition(p, run[i], run[i + 1]);
      var u, a :| Step(p, run[i], u, a) == Some(run[i + 1]);
      StepTyped(p, run[i], u, a, run[i + 1]);
      StepHolding(p, run[i], u, a, run[i + 1]);
      i := i + 1;
    }
  }

  lemma StepTyped(p: Policy, s: State, u: Thread, a: Action, s': State)
    requires WellTyped(p, s) && Step(p, s, u, a) == Some(s')
    ensures WellTyped(p, s')
  {
  }

  // ---- A whole wait ---------------------------------------------------------------------------

  /** The mutex is dropped, and not yet taken again. */
  ghost predicate Asleep(s: State, t: Thread) {
    t in s.threads && s.threads[t].pc.Inside? && (s.threads[t].pc.at.WaitSleep? || s.threads[t].pc.at.WaitRelock?)
  }

  ghost predicate IsWaiting(s: State, t: Thread, c: Cond) {
    IsInside(s, t, c) && s.threads[t].pc.at.InWait()
  }

  /** The mutexes of a thread in a wait on `c` that it began with `o`. */
  ghost function WhileWaiting(p: Policy, s: State, t: Thread, c: Cond, o: set<Mutex>): set<Mutex>
    requires c in p.mutexOf
  {
    if Asleep(s, t) then o - {p.mutexOf[c]} else o
  }

  lemma WaitStepOwns(p: Policy, s: State, t: Thread, c: Cond, a: Action, s': State, o: set<Mutex>)
    requires Holding(p, s) && IsWaiting(s, t, c) && Step(p, s, t, a) == Some(s')
    requires c in p.mutexOf && p.mutexOf[c] in o && Owned(s, t) == WhileWaiting(p, s, t, c, o)
    ensures Owned(s', t) == WhileWaiting(p, s', t, c, o)
    ensures IsOutside(s', t) || IsWaiting(s', t, c)
  {
    var m := p.mutexOf[c];
    if s.threads[t].pc.at.WaitUnlock? {
      assert s'.owner == s.owner[m := None];
      assert Owned(s', t) == Owned(s, t) - {m};
    } else if s.threads[t].pc.at.WaitRelock? {
      assert s'.owner == s.owner[m := Some(t)];
      assert Owned(s', t) == Owned(s, t) + {m};
      assert o - {m} + {m} == o;
    } else {
      assert s'.owner == s.owner;
      assert Owned(s', t) == Owned(s, t);
    }
  }

  lemma EntersWait(p: Policy, s: State, t: Thread, c: Cond, u: Thread, a: Action, s': State)
    requires Holding(p, s) && Step(p, s, u, a) == Some(s') && IsOutside(s, t) && IsAt(s', t, c, WaitEnter)
    ensures c in p.mutexOf && p.mutexOf[c] in Owned(s, t) && Owned(s', t) == Owned(s, t)
  {
    if u == t {
      assert a == CallWait(c) && s'.owner == s.owner;
    } else {
      OtherPc(p, s, u, a, s', t);
    }
  }

  lemma AnyStepOwns(p: Policy, s: State, t: Thread, c: Cond, u: Thread, a: Action, s': State, o: set<Mutex>)
    requires Holding(p, s) && IsWaiting(s, t, c) && Step(p, s, u, a) == Some(s')
    requires c in p.mutexOf && p.mutexOf[c] in o && Owned(s, t) == WhileWaiting(p, s, t, c, o)
    ensures Owned(s', t) == WhileWaiting(p, s', t, c, o)
    ensures IsOutside(s', t) || IsWaiting(s', t, c)
  {
    assert WellTyped(p, s);
    hide Owned, Holding;
    if u == t {
      WaitStepOwns(p, s, t, c, a, s', o);
    } else {
      OtherWaits(p, s, t, c, u, a, s');
      OtherOwned(p, s, u, a, s', t);
    }
  }

  lemma OtherWaits(p: Policy, s: State, t: Thread, c: Cond, u: Thread, a: Action, s': State)
    requires WellTyped(p, s) && IsWaiting(s, t, c) && Step(p, s, u, a) == Some(s') && u != t
    ensures IsWaiting(s', t, c) && (Asleep(s', t) <==> Asleep(s, t))
  {
    OtherPc(p, s, u, a, s', t);
  }

  lemma {:induction false} WaitingAt(p: Policy, run: seq<State>, t: Thread, c: Cond, n: nat, m: nat, k: nat)
    requires IsRun(p, run) && Calls(run, t, c, WaitEnter, n, m) && n < k <= m
    ensures c in p.mutexOf && p.mutexOf[c] in Owned(run[n], t)
    ensures Owned(run[k], t) == WhileWaiting(p, run[k], t, c, Owned(run[n], t))
    ensures k < m ==> IsWaiting(run[k], t, c)
    decreases k
  {
    hide Owned, Step;
    var j := k - 1;
    RunTyped(p, run, j);
    assert Transition(p, run[j], run[j + 1]);
    var u, a :| Step(p, run[j], u, a) == Some(run[j + 1]);
    hide Holding;
    if j == n {
      EntersWait(p, run[n], t, c, u, a, run[k]);
    } else {
      WaitingAt(p, run, t, c, n, m, j);
      AnyStepOwns(p, run[j], t, c, u, a, run[k], Owned(run[n], t));
      assert k < m ==> IsInside(run[k], t, c);
    }
  }

  /** In every run, disciplined or not: a wait on `c` is begun holding the mutex of `c`; that mutex is
      held throughout except while the thread sleeps and until it has taken it again; no other mutex of
      the thread is given away or gained; and when the wait returns the thread holds exactly what it held
      at the call. */
  lemma WaitKeepsMutexes(p: Policy, run: seq<State>, t: Thread, c: Cond, n: nat, m: nat)
    requires IsRun(p, run) && Calls(run, t, c, WaitEnter, n, m)
    ensures c in p.mutexOf && p.mutexOf[c] in Owned(run[n], t)
    ensures Owned(run[m], t) == Owned(run[n], t)
    ensures forall k :: n < k < m ==>
              Owned(run[k], t) == if Asleep(run[k], t) then Owned(run[n], t) - {p.mutexOf[c]} else Owned(run[n], t)
  {
    hide Owned, IsRun;
    WaitingAt(p, run, t, c, n, m, m);
    forall k | n < k < m
      ensures Owned(run[k], t) == if Asleep(run[k], t) then Owned(run[n], t) - {p.mutexOf[c]} else Owned(run[n], t)
    {
      WaitingAt(p, run, t, c, n, m, k);
    }
  }

  // ---- A whole signal or broadcast ------------------------------------------------------------

  ghost predicate IsReleasing(s: State, t: Thread, c: Cond) {
    IsInside(s, t, c) && !s.threads[t].pc.at.InWait()
  }

  lemma ReleaserStepOwns(p: Policy, s: State, t: Thread, c: Cond, u: Thread, a: Action, s': State)
    requires Holding(p, s) && IsReleasing(s, t, c) && Step(p, s, u, a) == Some(s')
    ensures Owned(s', t) == Owned(s, t)
    ensures IsOutside(s', t) || IsReleasing(s', t, c)
  {
    assert WellTyped(p, s);
    hide Holding, WellTyped, Step;
    if u == t {
      ReleaserGoesOn(p, s, t, c, a, s');
    } else {
      OtherPc(p, s, u, a, s', t);
      OtherOwned(p, s, u, a, s', t);
    }
  }

  lemma ReleaserGoesOn(p: Policy, s: State, t: Thread, c: Cond, a: Action, s': State)
    requires WellTyped(p, s) && IsReleasing(s, t, c) && Step(p, s, t, a) == Some(s')
    ensures s'.owner == s.owner
    ensures IsOutside(s', t) || IsReleasing(s', t, c)
  {
    hide WaitStep, OutsideStep;
  }

  lemma EntersReleaser(p: Policy, s: State, t: Thread, c: Cond, first: Statement, u: Thread, a: Action, s': State)
    requires Holding(p, s) && Step(p, s, u, a) == Some(s') && IsOutside(s, t) && IsAt(s', t, c, first)
    requires first.SignalEnter? || first.CastEnter?
    ensures Owned(s', t) == Owned(s, t)
    ensures c in p.mutexOf && (p.signalHolds ==> p.mutexOf[c] in Owned(s, t))
  {
    if u == t {
      assert s'.owner == s.owner;
    } else {
      OtherPc(p, s, u, a, s', t);
    }
  }

  /** A signal or a broadcast leaves the mutexes of its thread alone, at every point of the call. */
  lemma {:induction false} ReleaserKeepsMutexes(p: Policy, run: seq<State>, t: Thread, c: Cond, first: Statement,
                                                n: nat, m: nat, k: nat)
    requires IsRun(p, run) && Calls(run, t, c, first, n, m) && n < k <= m
    requires first.SignalEnter? || first.CastEnter?
    ensures Owned(run[k], t) == Owned(run[n], t)
    ensures k < m ==> IsReleasing(run[k], t, c)
    ensures c in p.mutexOf && (p.signalHolds ==> p.mutexOf[c] in Owned(run[n], t))
    decreases k
  {
    hide Owned, Step;
    var j := k - 1;
    RunTyped(p, run, j);
    assert Transition(p, run[j], run[j + 1]);
    var u, a :| Step(p, run[j], u, a) == Some(run[j + 1]);
    hide Holding;
    if j == n {
      EntersReleaser(p, run[n], t, c, first, u, a, run[k]);
    } else {
      ReleaserKeepsMutexes(p, run, t, c, first, n, m, j);
      ReleaserStepOwns(p, run[j], t, c, u, a, run[k]);
      assert k < m ==> IsInside(run[k], t, c);
    }
  }

  // ---- What a signal has done when it returns -------------------------------------------------

  /** The place at which `t` leaves a statement that it must come to. */
  lemma Leaves(p: Policy, run: seq<State>, t: Thread, c: Cond, i: nat, m: nat) returns (k: nat)
    requires IsRun(p, run) && i < m < |run| && IsInside(run[i], t, c) && IsOutside(run[m], t)
    ensures i <= k < m && IsInside(run[k], t, c) && run[k].threads[t].pc == run[i].threads[t].pc
    ensures WellTyped(p, run[k]) && Step(p, run[k], t, Go) == Some(run[k + 1])
  {
    hide Step;
    k := i;
    while true
      invariant i <= k < m && IsInside(run[k], t, c) && run[k].threads[t].pc == run[i].threads[t].pc
      decreases m - k
    {
      assert Transition(p, run[k], run[k + 1]);
      var u, a :| Step(p, run[k], u, a) == Some(run[k + 1]);
      if u == t {
        OnlyGo(p, run[k], t, c, a, run[k + 1]);
        return;
      }
      OtherPc(p, run[k], u, a, run[k + 1], t);
      assert k + 1 < m;
      k := k + 1;
    }
  }

  lemma OnlyGo(p: Policy, s: State, t: Thread, c: Cond, a: Action, s': State)
    requires WellTyped(p, s) && IsInside(s, t, c) && Step(p, s, t, a) == Some(s')
    ensures a == Go
  {
  }

  ghost predicate NobodyWaits(s: State, c: Cond) {
    forall u :: u in s.threads ==> !Enrolled(s.threads[u], c)
  }

  /** Exactly one waiting thread is released, and nothing else changes but where `t` is. */
  ghost predicate ReleasesOne(s: State, s': State, t: Thread, c: Cond, w: Thread) {
    && w in s.threads && w != t && Enrolled(s.threads[w], c)
    && w in s'.threads && s'.threads[w] == s.threads[w].(sem := 1)
    && (forall u :: u in s.threads && u != t && u != w ==> u in s'.threads && s'.threads[u] == s.threads[u])
  }

  lemma PostReleasesOne(p: Policy, run: seq<State>, t: Thread, c: Cond, k: nat) returns (w: Thread)
    requires IsRun(p, run) && Disciplined(p) && k + 1 < |run| && IsAt(run[k], t, c, SignalPost) && WellTyped(p, run[k])
    requires Step(p, run[k], t, Go) == Some(run[k + 1])
    ensures ReleasesOne(run[k], run[k + 1], t, c, w)
  {
    var s := run[k];
    assert c in p.mutexOf;
    hide IsRun;
    SignalReleasesAWaiter(p, run, k, t, c);
    w := s.conds[c].waiters.value;
    assert s.threads[w].pc != s.threads[t].pc;
  }

  lemma TestGoesOn(p: Policy, s: State, t: Thread, c: Cond, s': State)
    requires WellTyped(p, s) && IsAt(s, t, c, SignalTest) && Step(p, s, t, Go) == Some(s')
    ensures c in p.mutexOf && IsAt(s', t, c, if s.conds[c].waiters.Some? then SignalPost else SignalLeave)
  {
  }

  lemma EnterGoesOn(p: Policy, s: State, t: Thread, c: Cond, s': State)
    requires WellTyped(p, s) && IsAt(s, t, c, SignalEnter) && Step(p, s, t, Go) == Some(s')
    ensures IsAt(s', t, c, SignalTest)
  {
  }

  /** Every signal that returns has, at some point of the call, found nobody waiting on `c`, or released
      exactly one thread that was. */
  lemma SignalIsFelt(p: Policy, run: seq<State>, t: Thread, c: Cond, n: nat, m: nat) returns (k: nat, w: Thread)
    requires IsRun(p, run) && Disciplined(p) && Calls(run, t, c, SignalEnter, n, m)
    ensures n < k < m && (NobodyWaits(run[k], c) || ReleasesOne(run[k], run[k + 1], t, c, w))
  {
    hide Step, IsRun, ReleasesOne;
    w := t;
    assert IsInside(run[n + 1], t, c);
    var i := Leaves(p, run, t, c, n + 1, m);
    EnterGoesOn(p, run[i], t, c, run[i + 1]);
    k := Leaves(p, run, t, c, i + 1, m);
    TestGoesOn(p, run[k], t, c, run[k + 1]);
    if run[k].conds[c].waiters.Some? {
      k := Leaves(p, run, t, c, k + 1, m);
      w := PostReleasesOne(p, run, t, c, k);
    } else {
      SignalReleasesAWaiter(p, run, k, t, c);
    }
  }

  // ---- What a broadcast has done when it returns ----------------------------------------------

  ghost predicate InLoop(s: State, t: Thread, c: Cond) {
    && IsInside(s, t, c)
    && var at := s.threads[t].pc.at;
       at.CastEnter? || at.CastFirst? || at.CastTest? || at.CastPost? || at.CastNext?
  }

  lemma LoopGoesOn(p: Policy, s: State, t: Thread, c: Cond, s': State)
    requires WellTyped(p, s) && InLoop(s, t, c) && Step(p, s, t, Go) == Some(s')
    ensures InLoop(s', t, c) || IsAt(s', t, c, CastClear)
  {
  }

  /** Every broadcast that returns has, at some point of the call, left nobody waiting on `c`. */
  lemma BroadcastIsFelt(p: Policy, run: seq<State>, t: Thread, c: Cond, n: nat, m: nat) returns (k: nat)
    requires IsRun(p, run) && Disciplined(p) && Calls(run, t, c, CastEnter, n, m)
    ensures n < k < m && NobodyWaits(run[k], c)
  {
    hide Step, IsRun;
    k := n + 1;
    assert IsInside(run[k], t, c);
    while !IsAt(run[k], t, c, CastClear)
      invariant n < k < m && IsInside(run[k], t, c)
      invariant InLoop(run[k], t, c) || IsAt(run[k], t, c, CastClear)
      decreases m - k
    {
      var i := Leaves(p, run, t, c, k, m);
      LoopGoesOn(p, run[i], t, c, run[i + 1]);
      assert i + 1 < m;
      k := i + 1;
    }
    forall u | u in run[k].threads ensures !Enrolled(run[k].threads[u], c) {
      BroadcastReleasesEveryone(p, run, k, t, c, u);
    }
  }
}
