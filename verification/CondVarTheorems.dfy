/** What the callers of the WIN32 condition variable can rely on, stated on the state alone, and
    exactly when they can. */
module ConditionVariableTheorems {
  import opened Options
  import opened ConditionVariable
  import opened ConditionVariableSafety

  /** The record reached from `head` over `k` next pointers. */
  ghost function Follow(s: State, head: Option<Thread>, k: nat): Option<Thread>
    decreases k
  {
    if k == 0 then head
    else if head.None? || head.value !in s.threads then None
    else Follow(s, s.threads[head.value].next, k - 1)
  }

  ghost predicate OnList(s: State, c: Cond, u: Thread)
    requires c in s.conds
  {
    exists k :: Follow(s, s.conds[c].waiters, k) == Some(u)
  }

  /** Following the pointers of the list of `c`, `u` comes `gap` or more places before `w`. */
  ghost predicate Ahead(s: State, c: Cond, u: Thread, w: Option<Thread>, gap: nat)
    requires c in s.conds
  {
    exists i: nat, j: nat ::
      i + gap <= j && Follow(s, s.conds[c].waiters, i) == Some(u) && Follow(s, s.conds[c].waiters, j) == w
  }

  /** The thread inside the critical section of `c` has released `u`, which is still linked: a signal
      the head of the list, a broadcast what its cursor has passed. */
  ghost predicate ReleasedNotUnlinked(s: State, c: Cond, u: Thread)
    requires c in s.conds
  {
    && s.conds[c].cs.Some? && s.conds[c].cs.value in s.threads
    && var pc := s.threads[s.conds[c].cs.value].pc;
       pc.Inside? && pc.c == c &&
       match pc.at
       case SignalUnlink => s.conds[c].waiters == Some(u)
       case CastTest(cursor) => Ahead(s, c, u, cursor, 1)
       case CastPost(w) => Ahead(s, c, u, Some(w), 1)
       case CastNext(w) => Ahead(s, c, u, Some(w), 0)
       case CastClear => OnList(s, c, u)
       case _ => false
  }

  /** Asleep, or about to sleep, with neither a release sent nor a list that reaches it: nothing
      will ever wake this thread. */
  ghost predicate Lost(s: State, u: Thread, c: Cond)
    requires u in s.threads && c in s.conds
  {
    Enrolled(s.threads[u], c) && !OnList(s, c, u)
  }

  ghost predicate NobodyLost(s: State) {
    forall u, c :: u in s.threads && c in s.conds ==> !Lost(s, u, c)
  }

  /** The chain of pointers is the list of the shadow. */
  lemma {:induction false} FollowList(s: State, head: Option<Thread>, l: seq<Thread>, k: nat)
    requires Linked(s, head, l)
    ensures Follow(s, head, k) == Nth(l, k)
    decreases k
  {
    if k > 0 && l != [] {
      var rest := l[1..];
      assert forall i :: 0 <= i < |rest| ==> rest[i] == l[i + 1];
      FollowList(s, s.threads[l[0]].next, rest, k - 1);
    }
  }

  /** At every point of every disciplined run, every waiter list is finite and visits no record
      twice. */
  lemma ListsAreAcyclic(p: Policy, run: seq<State>, n: nat, c: Cond)
    requires IsRun(p, run) && Disciplined(p) && n < |run| && c in p.mutexOf
    ensures WellTyped(p, run[n])
    ensures exists k :: Follow(run[n], run[n].conds[c].waiters, k) == None
    ensures forall i, j :: 0 <= i < j && Follow(run[n], run[n].conds[c].waiters, j).Some? ==>
              Follow(run[n], run[n].conds[c].waiters, i) != Follow(run[n], run[n].conds[c].waiters, j)
  {
    var a := RunInv(p, run, n);
    var s, l := run[n], a[c].list;
    assert CondOk(p, s, a, c);
    FollowList(s, s.conds[c].waiters, l, |l|);
    forall i, j | 0 <= i < j && Follow(s, s.conds[c].waiters, j).Some?
      ensures Follow(s, s.conds[c].waiters, i) != Follow(s, s.conds[c].waiters, j)
    {
      FollowList(s, s.conds[c].waiters, l, i);
      FollowList(s, s.conds[c].waiters, l, j);
    }
  }

  /** Membership of a list, in terms of the shadow. */
  lemma OnListIsIn(p: Policy, s: State, a: Shadows, c: Cond, u: Thread)
    requires Inv(p, s, a) && c in p.mutexOf
    ensures OnList(s, c, u) <==> u in a[c].list
  {
    var l := a[c].list;
    assert CondOk(p, s, a, c);
    if u in l {
      var k :| 0 <= k < |l| && l[k] == u;
      FollowList(s, s.conds[c].waiters, l, k);
    }
    if OnList(s, c, u) {
      var k: nat :| Follow(s, s.conds[c].waiters, k) == Some(u);
      FollowList(s, s.conds[c].waiters, l, k);
    }
  }

  /** Where a record stands, in terms of the shadow. */
  lemma AheadIs(p: Policy, s: State, a: Shadows, c: Cond, i: nat, w: Option<Thread>, n: nat, gap: nat)
    requires Inv(p, s, a) && c in p.mutexOf && i < |a[c].list| && n <= |a[c].list| && w == Nth(a[c].list, n)
    ensures Ahead(s, c, a[c].list[i], w, gap) <== i + gap <= n
    ensures Ahead(s, c, a[c].list[i], w, gap) && gap <= 1 && (w.None? ==> gap > 0) ==> i + gap <= n
  {
    var l, head := a[c].list, s.conds[c].waiters;
    assert CondOk(p, s, a, c);
    FollowList(s, head, l, i);
    FollowList(s, head, l, n);
    if Ahead(s, c, l[i], w, gap) {
      var x: nat, y: nat :| x + gap <= y && Follow(s, head, x) == Some(l[i]) && Follow(s, head, y) == w;
      FollowList(s, head, l, x);
      FollowList(s, head, l, y);
    }
  }

  /** A linked record has been released exactly when it is among the leading ones of the shadow. */
  lemma ReleasedIs(p: Policy, s: State, a: Shadows, c: Cond, i: nat)
    requires Inv(p, s, a) && c in p.mutexOf && i < |a[c].list|
    ensures ReleasedNotUnlinked(s, c, a[c].list[i]) <==> i < a[c].released
  {
    var sh := a[c];
    var u := sh.list[i];
    assert CondOk(p, s, a, c);
    OnListIsIn(p, s, a, c, u);
    match s.conds[c].cs
    case None =>
    case Some(h) =>
      match s.threads[h].pc.at
      case CastTest(cursor) => AheadIs(p, s, a, c, i, cursor, sh.released, 1);
      case CastPost(w) => AheadIs(p, s, a, c, i, Some(w), sh.released, 1);
      case CastNext(w) => AheadIs(p, s, a, c, i, Some(w), sh.released - 1, 0);
      case _ =>
  }

  /** The heart of the package.  At every point of every disciplined run, a thread that has joined
      a list and not yet woken is on exactly that list with semaphore 0, or has semaphore 1; all
      other threads have semaphore 0.  And of the threads on a list, those still waiting are exactly
      those that the signal or broadcast inside the critical section has not released. */
  lemma WaiterOrReleased(p: Policy, run: seq<State>, n: nat, u: Thread)
    requires IsRun(p, run) && Disciplined(p) && n < |run| && u in run[n].threads
    ensures WellTyped(p, run[n])
    ensures run[n].threads[u].sem <= 1
    ensures run[n].threads[u].sem == 1 ==>
              && run[n].threads[u].pc.Inside?
              && (run[n].threads[u].pc.at.WaitUnlock? || run[n].threads[u].pc.at.WaitSleep?)
    ensures forall c :: c in p.mutexOf && Enrolled(run[n].threads[u], c) ==> OnList(run[n], c, u)
    ensures forall c :: c in p.mutexOf && OnList(run[n], c, u) ==>
              (Enrolled(run[n].threads[u], c) <==> !ReleasedNotUnlinked(run[n], c, u))
    ensures forall c, d ::
              c in p.mutexOf && d in p.mutexOf && Enrolled(run[n].threads[u], c) && OnList(run[n], d, u) ==> c == d
  {
    var a := RunInv(p, run, n);
    var s := run[n];
    assert ThreadOk(p, s, a, u);
    forall c | c in p.mutexOf
      ensures Enrolled(s.threads[u], c) ==> OnList(s, c, u)
      ensures OnList(s, c, u) ==> (Enrolled(s.threads[u], c) <==> !ReleasedNotUnlinked(s, c, u))
    {
      OnListOrReleased(p, s, a, c, u);
    }
    forall c, d | c in p.mutexOf && d in p.mutexOf && Enrolled(s.threads[u], c) && OnList(s, d, u) ensures c == d {
      OnListIsIn(p, s, a, d, u);
      assert CondOk(p, s, a, d);
      var i :| 0 <= i < |a[d].list| && a[d].list[i] == u;
      assert i < a[d].released ==> ReleasedOk(p, s, d, a[d].list[i]);
    }
  }

  lemma OnListOrReleased(p: Policy, s: State, a: Shadows, c: Cond, u: Thread)
    requires Inv(p, s, a) && c in p.mutexOf && u in s.threads
    ensures Enrolled(s.threads[u], c) ==> OnList(s, c, u)
    ensures OnList(s, c, u) ==> (Enrolled(s.threads[u], c) <==> !ReleasedNotUnlinked(s, c, u))
  {
    hide OnList, ReleasedNotUnlinked, Follow;
    assert ThreadOk(p, s, a, u) && CondOk(p, s, a, c);
    OnListIsIn(p, s, a, c, u);
    if u in a[c].list {
      var i :| 0 <= i < |a[c].list| && a[c].list[i] == u;
      ReleasedIs(p, s, a, c, i);
    }
  }

  /** A signal that finds the list empty leaves nobody behind; otherwise it releases the thread
      that joined last, which was waiting. */
  lemma SignalReleasesAWaiter(p: Policy, run: seq<State>, n: nat, t: Thread, c: Cond)
    requires IsRun(p, run) && Disciplined(p) && n < |run| && t in run[n].threads && c in p.mutexOf
    ensures WellTyped(p, run[n])
    ensures run[n].threads[t].pc == Inside(c, SignalTest) && run[n].conds[c].waiters == None ==>
              forall u :: u in run[n].threads ==> !Enrolled(run[n].threads[u], c)
    ensures run[n].threads[t].pc == Inside(c, SignalPost) ==>
              && run[n].conds[c].waiters.Some? && run[n].conds[c].waiters.value in run[n].threads
              && Enrolled(run[n].threads[run[n].conds[c].waiters.value], c)
    ensures forall w :: run[n].threads[t].pc == Inside(c, CastPost(w)) ==>
              w in run[n].threads && Enrolled(run[n].threads[w], c)
  {
    var a := RunInv(p, run, n);
    var s := run[n];
    assert ThreadOk(p, s, a, t) && CondOk(p, s, a, c);
    forall u | u in s.threads && s.conds[c].waiters == None ensures !Enrolled(s.threads[u], c) {
      assert ThreadOk(p, s, a, u);
    }
  }

  /** When a broadcast is done with its loop, every thread that had joined the list has been
      released: nobody is left waiting. */
  lemma BroadcastReleasesEveryone(p: Policy, run: seq<State>, n: nat, t: Thread, c: Cond, u: Thread)
    requires IsRun(p, run) && Disciplined(p) && n < |run| && t in run[n].threads && u in run[n].threads
    requires run[n].threads[t].pc == Inside(c, CastClear) || run[n].threads[t].pc == Inside(c, CastLeave)
    ensures !Enrolled(run[n].threads[u], c)
  {
    var a := RunInv(p, run, n);
    var s := run[n];
    assert ThreadOk(p, s, a, t) && ThreadOk(p, s, a, u) && CondOk(p, s, a, c);
    hide IsRun, Inv, Linked, ReleasedOk;
  }

  /** `s'` can follow `s` in a run, after any number of statements. */
  ghost predicate Leads(p: Policy, s: State, s': State) {
    WellTyped(p, s) && WellTyped(p, s') &&
    forall run :: EndsIn(p, run, s) ==> exists run' :: EndsIn(p, run', s')
  }

  ghost predicate EndsIn(p: Policy, run: seq<State>, s: State) {
    IsRun(p, run) && run[|run| - 1] == s
  }

  lemma LeadsOn(p: Policy, a: State, b: State, c: State)
    requires Leads(p, a, b) && Leads(p, b, c)
    ensures Leads(p, a, c)
  {
    forall run | EndsIn(p, run, a) ensures exists run' :: EndsIn(p, run', c) {
      var middle :| EndsIn(p, middle, b);
      var last :| EndsIn(p, last, c);
    }
  }

  lemma LeadsTyped(p: Policy, a: State, b: State)
    requires Leads(p, a, b)
    ensures WellTyped(p, b)
  {
  }

  lemma One(p: Policy, s: State, t: Thread, act: Action, s': State)
    requires WellTyped(p, s) && Step(p, s, t, act) == Some(s') && WellTyped(p, s')
    ensures Leads(p, s, s')
  {
    forall run | EndsIn(p, run, s) ensures exists run' :: EndsIn(p, run', s') {
      var run' := run + [s'];
      assert Transition(p, s, s');
      forall i | 0 <= i < |run'| - 1 ensures Transition(p, run'[i], run'[i + 1]) {
        if i < |run| - 1 { assert run'[i] == run[i] && run'[i + 1] == run[i + 1]; }
      }
      assert EndsIn(p, run', s');
    }
  }

  /** The state with `r` for thread `t`, `k` for condition `c` and `o` for its mutex. */
  ghost function With(p: Policy, s: State, t: Thread, r: ThreadState, c: Cond, k: CondState, o: Option<Thread>): State
    requires c in p.mutexOf
  {
    State(s.threads[t := r], s.conds[c := k], s.owner[p.mutexOf[c] := o])
  }

  ghost predicate Free(p: Policy, s: State, t: Thread, c: Cond) {
    && WellTyped(p, s) && c in p.mutexOf && t in s.threads
    && s.threads[t].pc == Outside && s.conds[c].cs == None && s.owner[p.mutexOf[c]] == None
  }

  /** Thread `t`, undisturbed, can take the mutex and link itself in front of the list of `c`. */
  lemma GoLink(p: Policy, s: State, t: Thread, c: Cond)
    requires Free(p, s, t, c)
    ensures var head, sem := s.conds[c].waiters, s.threads[t].sem;
            Leads(p, s, With(p, s, t, ThreadState(Inside(c, WaitPush), sem, head),
                             c, CondState(Some(t), head), Some(t)))
  {
    var head, sem := s.conds[c].waiters, s.threads[t].sem;
    var s1 := s.(owner := s.owner[p.mutexOf[c] := Some(t)]);
    One(p, s, t, Lock(p.mutexOf[c]), s1);
    var s2 := AtPc(s1, t, Inside(c, WaitEnter));
    One(p, s1, t, CallWait(c), s2);
    var s3 := SetCs(AtPc(s2, t, Inside(c, WaitLink)), c, Some(t));
    One(p, s2, t, Go, s3);
    var s4 := With(p, s, t, ThreadState(Inside(c, WaitPush), sem, head), c, CondState(Some(t), head), Some(t));
    assert s4.threads == s3.threads[t := s3.threads[t].(pc := Inside(c, WaitPush), next := head)];
    One(p, s3, t, Go, s4);
  }

  /** Thread `t` at `at` of its wait on `c`, its record in front of the list of `c`. */
  ghost function Waiting(p: Policy, s: State, t: Thread, c: Cond, at: Statement, k: CondState, o: Option<Thread>): State
    requires WellTyped(p, s) && c in p.mutexOf && t in s.threads
  {
    With(p, s, t, ThreadState(Inside(c, at), s.threads[t].sem, s.conds[c].waiters), c, k, o)
  }

  lemma GoPush(p: Policy, s: State, t: Thread, c: Cond)
    requires Free(p, s, t, c)
    ensures Leads(p, Waiting(p, s, t, c, WaitPush, CondState(Some(t), s.conds[c].waiters), Some(t)),
                  Waiting(p, s, t, c, WaitLeave, CondState(Some(t), Some(t)), Some(t)))
  {
    hide Leads;
    var s4 := Waiting(p, s, t, c, WaitPush, CondState(Some(t), s.conds[c].waiters), Some(t));
    var s5 := Waiting(p, s, t, c, WaitLeave, CondState(Some(t), Some(t)), Some(t));
    assert s5.threads == AtPc(s4, t, Inside(c, WaitLeave)).threads && s5.conds == SetWaiters(s4, c, Some(t)).conds;
    One(p, s4, t, Go, s5);
  }

  lemma GoLeave(p: Policy, s: State, t: Thread, c: Cond)
    requires Free(p, s, t, c)
    ensures Leads(p, Waiting(p, s, t, c, WaitLeave, CondState(Some(t), Some(t)), Some(t)),
                  Waiting(p, s, t, c, WaitUnlock, CondState(None, Some(t)), Some(t)))
  {
    hide Leads;
    var s5 := Waiting(p, s, t, c, WaitLeave, CondState(Some(t), Some(t)), Some(t));
    var s6 := Waiting(p, s, t, c, WaitUnlock, CondState(None, Some(t)), Some(t));
    assert s6.threads == AtPc(s5, t, Inside(c, WaitUnlock)).threads && s6.conds == SetCs(s5, c, None).conds;
    One(p, s5, t, Go, s6);
  }

  lemma GoUnlock(p: Policy, s: State, t: Thread, c: Cond)
    requires Free(p, s, t, c)
    ensures Leads(p, Waiting(p, s, t, c, WaitUnlock, CondState(None, Some(t)), Some(t)),
                  Waiting(p, s, t, c, WaitSleep, CondState(None, Some(t)), None))
  {
    hide Leads;
    var s6 := Waiting(p, s, t, c, WaitUnlock, CondState(None, Some(t)), Some(t));
    var s7 := Waiting(p, s, t, c, WaitSleep, CondState(None, Some(t)), None);
    assert s7.threads == AtPc(s6, t, Inside(c, WaitSleep)).threads && s7.owner == s6.owner[p.mutexOf[c] := None];
    One(p, s6, t, Go, s7);
  }

  /** ... push itself on the list and go to sleep. */
  lemma GoToSleep(p: Policy, s: State, t: Thread, c: Cond)
    requires Free(p, s, t, c)
    ensures var head, sem := s.conds[c].waiters, s.threads[t].sem;
            Leads(p, s, With(p, s, t, ThreadState(Inside(c, WaitSleep), sem, head), c, CondState(None, Some(t)), None))
  {
    var s4 := Waiting(p, s, t, c, WaitPush, CondState(Some(t), s.conds[c].waiters), Some(t));
    var s5 := Waiting(p, s, t, c, WaitLeave, CondState(Some(t), Some(t)), Some(t));
    var s6 := Waiting(p, s, t, c, WaitUnlock, CondState(None, Some(t)), Some(t));
    var s7 := Waiting(p, s, t, c, WaitSleep, CondState(None, Some(t)), None);
    hide Leads, With;
    GoLink(p, s, t, c);
    GoPush(p, s, t, c);
    GoLeave(p, s, t, c);
    GoUnlock(p, s, t, c);
    LeadsOn(p, s, s4, s5);
    LeadsOn(p, s, s5, s6);
    LeadsOn(p, s, s6, s7);
  }

  /** Thread `t`, holding no mutex, releases the head of the list of `c` and is about to unlink it. */
  lemma GoPost(p: Policy, s: State, t: Thread, c: Cond, w: Thread)
    requires Free(p, s, t, c) && !p.signalHolds
    requires s.conds[c].waiters == Some(w) && w in s.threads && w != t
    ensures Leads(p, s, State(
              s.threads[t := s.threads[t].(pc := Inside(c, SignalUnlink))]
                       [w := s.threads[w].(sem := s.threads[w].sem + 1)],
              s.conds[c := CondState(Some(t), Some(w))],
              s.owner))
  {
    hide Leads;
    var s1 := AtPc(s, t, Inside(c, SignalEnter));
    One(p, s, t, CallSignal(c), s1);
    var s2 := SetCs(AtPc(s1, t, Inside(c, SignalTest)), c, Some(t));
    One(p, s1, t, Go, s2);
    LeadsOn(p, s, s1, s2);
    var s3 := AtPc(s2, t, Inside(c, SignalPost));
    One(p, s2, t, Go, s3);
    LeadsOn(p, s, s2, s3);
    AtPost(p, s, t, c, w, s3);
  }

  lemma AtPost(p: Policy, s: State, t: Thread, c: Cond, w: Thread, s3: State)
    requires Free(p, s, t, c) && s.conds[c].waiters == Some(w) && w in s.threads && w != t
    requires WellTyped(p, s3) && s3 == State(s3.threads, s3.conds, s.owner)
    requires s3.conds == s.conds[c := CondState(Some(t), Some(w))]
    requires s3.threads == s.threads[t := s.threads[t].(pc := Inside(c, SignalPost))] && Leads(p, s, s3)
    ensures Leads(p, s, State(
              s.threads[t := s.threads[t].(pc := Inside(c, SignalUnlink))]
                       [w := s.threads[w].(sem := s.threads[w].sem + 1)],
              s.conds[c := CondState(Some(t), Some(w))],
              s.owner))
  {
    hide Leads;
    var s4 := State(
      s.threads[t := s.threads[t].(pc := Inside(c, SignalUnlink))][w := s.threads[w].(sem := s.threads[w].sem + 1)],
      s.conds[c := CondState(Some(t), Some(w))],
      s.owner);
    assert s4.threads == AtPc(Post(s3, w), t, Inside(c, SignalUnlink)).threads;
    One(p, s3, t, Go, s4);
    LeadsOn(p, s, s3, s4);
  }

  /** A released thread wakes and drops the mutex again. */
  lemma GoWake(p: Policy, s: State, t: Thread, c: Cond)
    requires WellTyped(p, s) && c in p.mutexOf && t in s.threads
    requires s.threads[t].pc == Inside(c, WaitSleep) && s.threads[t].sem == 1 && s.owner[p.mutexOf[c]] == None
    ensures Leads(p, s, s.(threads := s.threads[t := ThreadState(Outside, 0, s.threads[t].next)]))
  {
    var m, next := p.mutexOf[c], s.threads[t].next;
    var s1 := s.(threads := s.threads[t := ThreadState(Inside(c, WaitRelock), 0, next)]);
    One(p, s, t, Go, s1);
    var s2 := AtPc(s1, t, Outside).(owner := s1.owner[m := Some(t)]);
    One(p, s1, t, Go, s2);
    var s3 := s.(threads := s.threads[t := ThreadState(Outside, 0, next)]);
    assert s3.threads == s2.threads && s3.owner == s2.owner[m := None];
    One(p, s2, t, Unlock(m), s3);
  }

  /** Three idle threads, or two of them asleep on `c`, 0 before 2. */
  ghost function Start(p: Policy): State {
    var idle := ThreadState(Outside, 0, None);
    State(map[0 := idle, 1 := idle, 2 := idle],
          map c | c in p.mutexOf :: CondState(None, None),
          map m | m in p.mutexOf.Values :: None)
  }

  ghost function TwoAsleep(p: Policy, c: Cond): State {
    State(map[0 := ThreadState(Inside(c, WaitSleep), 0, Some(2)),
              1 := ThreadState(Outside, 0, None),
              2 := ThreadState(Inside(c, WaitSleep), 0, None)],
          Start(p).conds[c := CondState(None, Some(0))],
          Start(p).owner)
  }

  ghost function OneAsleep(p: Policy, c: Cond): State
    requires c in p.mutexOf
  {
    With(p, Start(p), 2, ThreadState(Inside(c, WaitSleep), 0, None), c, CondState(None, Some(2)), None)
  }

  lemma TwoThreadsAsleep(c: Cond)
    ensures var idle := ThreadState(Outside, 0, None);
            var first := ThreadState(Inside(c, WaitSleep), 0, Some(2));
            var last := ThreadState(Inside(c, WaitSleep), 0, None);
            map[0 := idle, 1 := idle, 2 := idle][2 := last][0 := first] == map[0 := first, 1 := idle, 2 := last]
  {
  }

  lemma TwoAsleepIs(p: Policy, c: Cond)
    requires c in p.mutexOf
    ensures With(p, OneAsleep(p, c), 0, ThreadState(Inside(c, WaitSleep), 0, Some(2)),
                 c, CondState(None, Some(0)), None) == TwoAsleep(p, c)
  {
    var s := With(p, OneAsleep(p, c), 0, ThreadState(Inside(c, WaitSleep), 0, Some(2)),
                  c, CondState(None, Some(0)), None);
    TwoThreadsAsleep(c);
    assert s.threads == TwoAsleep(p, c).threads;
    assert s.conds == TwoAsleep(p, c).conds;
    assert s.owner == TwoAsleep(p, c).owner;
  }

  lemma GetTwoAsleep(p: Policy, c: Cond)
    requires c in p.mutexOf
    ensures Leads(p, Start(p), TwoAsleep(p, c))
  {
    GoToSleep(p, Start(p), 2, c);
    hide Leads;
    LeadsTyped(p, Start(p), OneAsleep(p, c));
    GoToSleep(p, OneAsleep(p, c), 0, c);
    TwoAsleepIs(p, c);
    LeadsOn(p, Start(p), OneAsleep(p, c), TwoAsleep(p, c));
  }

  /** Thread 1 releases thread 0 from `c`, and before thread 1 goes on thread 0 wakes up. */
  ghost function AwakeButLinked(p: Policy, c: Cond): State {
    State(map[0 := ThreadState(Outside, 0, Some(2)),
              1 := ThreadState(Inside(c, SignalUnlink), 0, None),
              2 := ThreadState(Inside(c, WaitSleep), 0, None)],
          Start(p).conds[c := CondState(Some(1), Some(0))],
          Start(p).owner)
  }

  ghost function HeadReleased(p: Policy, c: Cond): State {
    State(map[0 := ThreadState(Inside(c, WaitSleep), 1, Some(2)),
              1 := ThreadState(Inside(c, SignalUnlink), 0, None),
              2 := ThreadState(Inside(c, WaitSleep), 0, None)],
          AwakeButLinked(p, c).conds, AwakeButLinked(p, c).owner)
  }

  lemma HeadReleasedIs(p: Policy, c: Cond)
    requires c in p.mutexOf
    ensures var s := TwoAsleep(p, c);
            HeadReleased(p, c) == State(
              s.threads[1 := s.threads[1].(pc := Inside(c, SignalUnlink))]
                       [0 := s.threads[0].(sem := s.threads[0].sem + 1)],
              s.conds[c := CondState(Some(1), Some(0))],
              s.owner)
  {
    hide Start;
    var s, s' := TwoAsleep(p, c), HeadReleased(p, c);
    assert s'.threads ==
        s.threads[1 := s.threads[1].(pc := Inside(c, SignalUnlink))][0 := s.threads[0].(sem := s.threads[0].sem + 1)];
    assert s'.conds == s.conds[c := CondState(Some(1), Some(0))];
  }

  lemma GetHeadReleased(p: Policy, c: Cond)
    requires !p.signalHolds && c in p.mutexOf
    ensures Leads(p, TwoAsleep(p, c), HeadReleased(p, c))
  {
    hide Leads;
    var s, s' := TwoAsleep(p, c), HeadReleased(p, c);
    assert Free(p, s, 1, c) && s.conds[c].waiters == Some(0);
    HeadReleasedIs(p, c);
    hide HeadReleased, TwoAsleep, Free;
    GoPost(p, s, 1, c, 0);
  }

  lemma GetAwakeButLinked(p: Policy, c: Cond)
    requires !p.signalHolds && c in p.mutexOf
    ensures Leads(p, TwoAsleep(p, c), AwakeButLinked(p, c))
  {
    hide Leads;
    var s, s' := HeadReleased(p, c), AwakeButLinked(p, c);
    assert s'.threads == s.threads[0 := ThreadState(Outside, 0, s.threads[0].next)];
    GetHeadReleased(p, c);
    GoWake(p, s, 0, c);
    LeadsOn(p, TwoAsleep(p, c), s, s');
  }

  /** ... and starts to wait on `d`, whose list is empty. */
  ghost function LinkedElsewhere(p: Policy, c: Cond, d: Cond): State
    requires d in p.mutexOf
  {
    With(p, AwakeButLinked(p, c), 0, ThreadState(Inside(d, WaitPush), 0, None), d, CondState(Some(0), None), Some(0))
  }

  lemma GetLinkedElsewhere(p: Policy, c: Cond, d: Cond) returns (run: seq<State>)
    requires !p.signalHolds && c in p.mutexOf && d in p.mutexOf && c != d
    ensures EndsIn(p, run, LinkedElsewhere(p, c, d))
  {
    GetTwoAsleep(p, c);
    GetAwakeButLinked(p, c);
    GoLink(p, AwakeButLinked(p, c), 0, d);
    run := [Start(p)];
    assert EndsIn(p, run, Start(p));
    run :| EndsIn(p, run, TwoAsleep(p, c));
    run :| EndsIn(p, run, AwakeButLinked(p, c));
    run :| EndsIn(p, run, LinkedElsewhere(p, c, d));
  }

  /** The signaller then reads the next pointer of thread 0 and stores it in `c`. */
  ghost function CutOff(p: Policy, c: Cond, d: Cond): State
    requires c in p.mutexOf && d in p.mutexOf
  {
    SetWaiters(AtPc(LinkedElsewhere(p, c, d), 1, Inside(c, SignalLeave)), c, None)
  }

  lemma GetCutOff(p: Policy, c: Cond, d: Cond)
    requires !p.signalHolds && c in p.mutexOf && d in p.mutexOf && c != d
    ensures Leads(p, LinkedElsewhere(p, c, d), CutOff(p, c, d))
  {
    var s := LinkedElsewhere(p, c, d);
    assert WellTyped(p, s);
    assert s.threads[1].pc == Inside(c, SignalUnlink) && s.threads[0].next == None;
    assert s.conds[c] == CondState(Some(1), Some(0));
    assert SignalStep(p, s, 1, c, SignalUnlink) == Some(CutOff(p, c, d));
    One(p, s, 1, Go, CutOff(p, c, d));
  }

  /** Two conditions and a signaller that does not hold the mutex: thread 0 is released from `c`,
      wakes, and starts to wait on `d` before the signaller reads its next pointer.  Thread 2,
      behind it on the list of `c`, is cut off. */
  lemma UndisciplinedLosesAWaiter(p: Policy, c: Cond, d: Cond) returns (run: seq<State>)
    requires !p.signalHolds && c in p.mutexOf && d in p.mutexOf && c != d
    ensures IsRun(p, run)
    ensures WellTyped(p, run[|run| - 1]) && 2 in run[|run| - 1].threads && Lost(run[|run| - 1], 2, c)
  {
    run := GetLinkedElsewhere(p, c, d);
    GetCutOff(p, c, d);
    var s := CutOff(p, c, d);
    run :| EndsIn(p, run, s);
    assert s.threads[2] == ThreadState(Inside(c, WaitSleep), 0, None) && s.conds[c].waiters == None;
    assert forall k :: Follow(s, None, k) == None;
  }

  /** Exactly when the package is safe: a policy never loses a waiter, in any run, if and only if
      signallers hold the mutex of the condition or there is only one condition. */
  lemma SafeExactlyWhenDisciplined(p: Policy)
    ensures Disciplined(p) <==>
              forall run, n :: IsRun(p, run) && 0 <= n < |run| ==> WellTyped(p, run[n]) && NobodyLost(run[n])
  {
    if Disciplined(p) {
      forall run: seq<State>, n: nat | IsRun(p, run) && n < |run| ensures WellTyped(p, run[n]) && NobodyLost(run[n]) {
        var _ := RunInv(p, run, n);
        forall u, c | u in run[n].threads && c in run[n].conds ensures !Lost(run[n], u, c) {
          WaiterOrReleased(p, run, n, u);
        }
      }
    } else {
      var c, d :| c in p.mutexOf && d in p.mutexOf && c != d;
      var run := UndisciplinedLosesAWaiter(p, c, d);
    }
  }
}
