/** Safety of the WIN32 condition variable over every interleaving. */
module ConditionVariableSafety {
  import opened Options
  import opened ConditionVariable

  /** What the invariant tracks beside the state: the content of each waiter list, most recent
      first, and how many of its leading records an unfinished signal or broadcast has already
      released. */
  datatype Shadow = Shadow(list: seq<Thread>, released: nat)

  type Shadows = map<Cond, Shadow>

  ghost function Nth(l: seq<Thread>, i: nat): Option<Thread> {
    if i < |l| then Some(l[i]) else None
  }

  /** On the way to sleep on `c`, or asleep, with no release sent yet. */
  ghost predicate Enrolled(r: ThreadState, c: Cond) {
    && r.pc.Inside? && r.pc.c == c
    && (r.pc.at.WaitLeave? || r.pc.at.WaitUnlock? || r.pc.at.WaitSleep?)
    && r.sem == 0
  }

  ghost predicate Linked(s: State, head: Option<Thread>, l: seq<Thread>) {
    && head == Nth(l, 0)
    && (forall i :: 0 <= i < |l| ==> l[i] in s.threads)
    && (forall i, j :: 0 <= i < |l| && j == i + 1 && j < |l| ==> s.threads[l[i]].next == Some(l[j]))
    && (l != [] ==> s.threads[l[|l| - 1]].next == None)
    && (forall i, j :: 0 <= i < j < |l| ==> l[i] != l[j])
  }

  predicate InCs(at: Statement) {
    !at.WaitEnter? && !at.WaitUnlock? && !at.WaitSleep? && !at.WaitRelock? && !at.SignalEnter? && !at.CastEnter?
  }

  predicate BeforeUnlock(at: Statement) {
    at.WaitEnter? || at.WaitLink? || at.WaitPush? || at.WaitLeave? || at.WaitUnlock?
  }

  predicate AfterEnrolling(at: Statement) {
    at.WaitUnlock? || at.WaitSleep? || at.WaitRelock?
  }

  /** How far the holder of the critical section has got through the list. */
  ghost predicate Progress(at: Statement, sh: Shadow) {
    match at
    case SignalPost => sh.released == 0 && sh.list != []
    case SignalUnlink => sh.released == 1 && sh.list != []
    case CastTest(cursor) => cursor == Nth(sh.list, sh.released)
    case CastPost(w) => sh.released < |sh.list| && sh.list[sh.released] == w
    case CastNext(w) => 0 < sh.released <= |sh.list| && sh.list[sh.released - 1] == w
    case CastClear => sh.released == |sh.list|
    case CastLeave => sh == Shadow([], 0)
    case _ => sh.released == 0
  }

  /** The part of the invariant about one thread. */
  ghost predicate ThreadOk(p: Policy, s: State, a: Shadows, t: Thread)
    requires WellTyped(p, s) && a.Keys == p.mutexOf.Keys && t in s.threads
  {
    var r := s.threads[t];
    match r.pc
    case Outside => r.sem == 0
    case Inside(c, at) =>
      && (r.sem == 0 || (r.sem == 1 && (at.WaitUnlock? || at.WaitSleep?)))
      && (InCs(at) ==> s.conds[c].cs == Some(t))
      && (BeforeUnlock(at) ==> s.owner[p.mutexOf[c]] == Some(t))
      && (p.signalHolds && !at.InWait() ==> s.owner[p.mutexOf[c]] == Some(t))
      && (at.WaitPush? ==> r.next == s.conds[c].waiters)
      && (Enrolled(r, c) ==> t in a[c].list)
  }

  /** The part of the invariant about one condition. */
  ghost predicate CondOk(p: Policy, s: State, a: Shadows, c: Cond)
    requires WellTyped(p, s) && a.Keys == p.mutexOf.Keys && c in p.mutexOf
  {
    var sh := a[c];
    && sh.released <= |sh.list|
    && Linked(s, s.conds[c].waiters, sh.list)
    && (match s.conds[c].cs
        case None => sh.released == 0
        case Some(h) =>
          && h in s.threads && s.threads[h].pc.Inside? && s.threads[h].pc.c == c
          && InCs(s.threads[h].pc.at) && Progress(s.threads[h].pc.at, sh))
    && (forall i :: 0 <= i < |sh.list| ==> (Enrolled(s.threads[sh.list[i]], c) <==> sh.released <= i))
    && (forall i :: 0 <= i < sh.released ==> ReleasedOk(p, s, c, sh.list[i]))
  }

  /** A record that has been released but is still linked: its owner cannot touch it, either
      because the releaser holds the mutex it must take first, or because there is only the one
      critical section. */
  ghost predicate ReleasedOk(p: Policy, s: State, c: Cond, u: Thread)
    requires c in s.conds && u in s.threads
  {
    if p.signalHolds then s.threads[u].pc.Inside? && s.threads[u].pc.c == c && AfterEnrolling(s.threads[u].pc.at)
    else s.conds[c].cs != Some(u)
  }

  ghost predicate Inv(p: Policy, s: State, a: Shadows) {
    && WellTyped(p, s)
    && a.Keys == p.mutexOf.Keys
    && (forall t {:trigger ThreadOk(p, s, a, t)} :: t in s.threads ==> ThreadOk(p, s, a, t))
    && (forall c {:trigger CondOk(p, s, a, c)} :: c in p.mutexOf ==> CondOk(p, s, a, c))
  }

  /** The discipline under which the package works: signallers hold the condition's mutex, or
      there is only one condition. */
  ghost predicate Disciplined(p: Policy) {
    p.signalHolds || forall c, d :: c in p.mutexOf && d in p.mutexOf ==> c == d
  }

  lemma InitInv(p: Policy, s: State) returns (a: Shadows)
    requires Init(p, s)
    ensures Inv(p, s, a)
  {
    a := map c | c in p.mutexOf :: Shadow([], 0);
  }

  /** The shadow of the condition after a thread moves from `at`. */
  ghost function Advance(sh: Shadow, t: Thread, at: Statement): Shadow {
    match at
    case WaitPush => sh.(list := [t] + sh.list)
    case SignalPost => sh.(released := 1)
    case SignalUnlink => Shadow(if sh.list == [] then [] else sh.list[1..], 0)
    case CastPost(_) => sh.(released := sh.released + 1)
    case CastClear => Shadow([], 0)
    case _ => sh
  }

  /** What a statement of `t` working on `c` can change at most: its own record, the semaphore of
      one thread enrolled on `c`, the record of `c` while inside or entering its critical section,
      and the ownership of a mutex by `t`. */
  ghost predicate Frame(p: Policy, s: State, s': State, t: Thread, c: Cond)
    requires WellTyped(p, s) && c in p.mutexOf
  {
    && WellTyped(p, s')
    && s'.threads.Keys == s.threads.Keys
    && s'.owner.Keys == s.owner.Keys
    && (forall d :: d in p.mutexOf && d != c ==> s'.conds[d] == s.conds[d])
    && (s'.conds[c].cs == s.conds[c].cs || s.conds[c].cs == None || s.conds[c].cs == Some(t))
    && (s'.conds[c].waiters == s.conds[c].waiters || s.conds[c].cs == Some(t))
    && (forall m :: m in s.owner ==>
          s'.owner[m] == s.owner[m] || s.owner[m] == None || s.owner[m] == Some(t))
    && (forall u :: u in s.threads && u != t ==>
          || s'.threads[u] == s.threads[u]
          || (s.conds[c].cs == Some(t) && Enrolled(s.threads[u], c) && s'.threads[u] == s.threads[u].(sem := 1)))
  }

  lemma OtherThreadKept(p: Policy, s: State, a: Shadows, s': State, a': Shadows, t: Thread, c: Cond, u: Thread)
    requires WellTyped(p, s) && a.Keys == a'.Keys == p.mutexOf.Keys
    requires c in p.mutexOf && Frame(p, s, s', t, c)
    requires u in s.threads && u != t && ThreadOk(p, s, a, u)
    requires forall d :: d in a && d != c ==> a'[d] == a[d]
    requires u in a[c].list && Enrolled(s'.threads[u], c) ==> u in a'[c].list
    ensures ThreadOk(p, s', a', u)
  {
  }

  lemma OtherCondKept(p: Policy, s: State, a: Shadows, s': State, a': Shadows, t: Thread, c: Cond, d: Cond)
    requires WellTyped(p, s) && a.Keys == a'.Keys == p.mutexOf.Keys && Disciplined(p)
    requires c in p.mutexOf && Frame(p, s, s', t, c)
    requires d in p.mutexOf && d != c && CondOk(p, s, a, d)
    requires a'[d] == a[d]
    requires t in s.threads && s.threads[t].pc.Inside? && s.threads[t].pc.c == c
    ensures CondOk(p, s', a', d)
  {
    var l := a[d].list;
    forall i | 0 <= i < |l| ensures s'.threads[l[i]] == s.threads[l[i]] {
      assert Enrolled(s.threads[l[i]], d) <==> a[d].released <= i;
      assert i < a[d].released ==> ReleasedOk(p, s, d, l[i]);
    }
  }

  /** The statement of `t` is justified by what it does to `t`, to `c` and to the list of `c`. */
  lemma Assemble(p: Policy, s: State, a: Shadows, t: Thread, c: Cond, at: Statement, s': State)
    requires Inv(p, s, a) && Disciplined(p)
    requires t in s.threads && s.threads[t].pc == Inside(c, at) && c in p.mutexOf
    requires Frame(p, s, s', t, c)
    requires var a' := a[c := Advance(a[c], t, at)];
             ThreadOk(p, s', a', t) && CondOk(p, s', a', c)
    requires forall u :: u in a[c].list && u in s.threads && Enrolled(s'.threads[u], c) ==>
              u in Advance(a[c], t, at).list
    ensures Inv(p, s', a[c := Advance(a[c], t, at)])
  {
    var a' := a[c := Advance(a[c], t, at)];
    forall u | u in s'.threads ensures ThreadOk(p, s', a', u) {
      if u != t { OtherThreadKept(p, s, a, s', a', t, c, u); }
    }
    forall d | d in p.mutexOf ensures CondOk(p, s', a', d) {
      if d != c { OtherCondKept(p, s, a, s', a', t, c, d); }
    }
  }

  lemma LinkedKept(s: State, s': State, head: Option<Thread>, l: seq<Thread>)
    requires Linked(s, head, l)
    requires forall u :: u in s.threads ==> u in s'.threads && s'.threads[u].next == s.threads[u].next
    ensures Linked(s', head, l)
  {
  }

  /** What is known when `t` is about to run its statement, and what the statement must achieve. */
  ghost predicate Ready(p: Policy, s: State, a: Shadows, t: Thread, c: Cond, at: Statement) {
    && WellTyped(p, s) && a.Keys == p.mutexOf.Keys
    && t in s.threads && s.threads[t].pc == Inside(c, at) && c in p.mutexOf
    && ThreadOk(p, s, a, t) && CondOk(p, s, a, c)
    && (forall u {:trigger ThreadOk(p, s, a, u)} :: u in s.threads ==> ThreadOk(p, s, a, u))
  }

  ghost predicate Settled(p: Policy, s: State, a: Shadows, t: Thread, c: Cond, at: Statement, s': State)
    requires Ready(p, s, a, t, c, at) && Frame(p, s, s', t, c)
  {
    && CondOk(p, s', a[c := Advance(a[c], t, at)], c)
    && ThreadOk(p, s', a[c := Advance(a[c], t, at)], t)
    && (forall u :: u in a[c].list && u in s.threads && Enrolled(s'.threads[u], c) ==> u in Advance(a[c], t, at).list)
  }

  lemma WaitFrame(p: Policy, s: State, a: Shadows, t: Thread, c: Cond, at: Statement, s': State)
    requires Ready(p, s, a, t, c, at) && at.InWait() && WaitStep(p, s, t, c, at) == Some(s')
    ensures Frame(p, s, s', t, c)
  {
    hide CondOk, Enrolled;
  }

  /** The thread a signal or a broadcast is about to release is enrolled. */
  lemma NextIsEnrolled(p: Policy, s: State, a: Shadows, t: Thread, c: Cond, at: Statement)
    requires Ready(p, s, a, t, c, at) && (at.SignalPost? || at.CastPost?)
    ensures a[c].released < |a[c].list|
    ensures var w := a[c].list[a[c].released];
            && w in s.threads && Enrolled(s.threads[w], c) && w != t
            && (at.SignalPost? ==> s.conds[c].waiters == Some(w)) && (at.CastPost? ==> at.w == w)
  {
  }

  lemma PostFrame(p: Policy, s: State, a: Shadows, t: Thread, c: Cond, at: Statement, s': State)
    requires Ready(p, s, a, t, c, at) && (at.SignalPost? || at.CastPost?) && Step(p, s, t, Go) == Some(s')
    ensures Frame(p, s, s', t, c)
  {
    NextIsEnrolled(p, s, a, t, c, at);
    assert ThreadOk(p, s, a, a[c].list[a[c].released]);
    hide CondOk;
  }

  lemma OtherFrame(p: Policy, s: State, a: Shadows, t: Thread, c: Cond, at: Statement, s': State)
    requires Ready(p, s, a, t, c, at) && !at.InWait() && !at.SignalPost? && !at.CastPost?
    requires Step(p, s, t, Go) == Some(s')
    ensures Frame(p, s, s', t, c)
  {
    hide CondOk, Enrolled;
  }

  lemma WaitEnter(p: Policy, s: State, a: Shadows, t: Thread, c: Cond, at: Statement, s': State)
    requires Ready(p, s, a, t, c, at) && at.WaitEnter? && WaitStep(p, s, t, c, at) == Some(s')
    requires Frame(p, s, s', t, c)
    ensures Settled(p, s, a, t, c, at, s')
  {
    assert WellTyped(p, s');
    hide Frame;
    LinkedKept(s, s', s.conds[c].waiters, a[c].list);
  }

  lemma WaitLink(p: Policy, s: State, a: Shadows, t: Thread, c: Cond, at: Statement, s': State)
    requires Ready(p, s, a, t, c, at) && at.WaitLink? && WaitStep(p, s, t, c, at) == Some(s')
    requires Frame(p, s, s', t, c)
    ensures Settled(p, s, a, t, c, at, s')
  {
    assert WellTyped(p, s');
    hide Frame;
    assert ThreadOk(p, s', a[c := Advance(a[c], t, at)], t);
  }

  lemma WaitPush(p: Policy, s: State, a: Shadows, t: Thread, c: Cond, at: Statement, s': State)
    requires Ready(p, s, a, t, c, at) && at.WaitPush? && WaitStep(p, s, t, c, at) == Some(s')
    requires Frame(p, s, s', t, c)
    ensures Settled(p, s, a, t, c, at, s')
  {
    assert WellTyped(p, s');
    hide Frame;
    var l, l' := a[c].list, [t] + a[c].list;
    assert t !in l by {
      forall i | 0 <= i < |l| ensures l[i] != t { assert Enrolled(s.threads[l[i]], c); }
    }
    LinkedPushed(s, s', s.conds[c].waiters, l, t);
    hide Linked;
    forall i | 0 <= i < |l'| ensures Enrolled(s'.threads[l'[i]], c) {
      if i > 0 { assert l'[i] == l[i - 1] && Enrolled(s.threads[l[i - 1]], c); }
    }
    hide Enrolled;
  }

  lemma LinkedPushed(s: State, s': State, head: Option<Thread>, l: seq<Thread>, t: Thread)
    requires Linked(s, head, l) && t !in l && t in s.threads && s.threads[t].next == head
    requires forall u :: u in s.threads ==> u in s'.threads && s'.threads[u].next == s.threads[u].next
    ensures Linked(s', Some(t), [t] + l)
  {
    var l' := [t] + l;
    assert forall i :: 1 <= i < |l'| ==> l'[i] == l[i - 1];
  }

  lemma WaitLeave(p: Policy, s: State, a: Shadows, t: Thread, c: Cond, at: Statement, s': State)
    requires Ready(p, s, a, t, c, at) && at.WaitLeave? && WaitStep(p, s, t, c, at) == Some(s')
    requires Frame(p, s, s', t, c)
    ensures Settled(p, s, a, t, c, at, s')
  {
    assert WellTyped(p, s');
    hide Frame;
    assert ThreadOk(p, s', a[c := Advance(a[c], t, at)], t);
  }

  lemma WaitUnlock(p: Policy, s: State, a: Shadows, t: Thread, c: Cond, at: Statement, s': State)
    requires Ready(p, s, a, t, c, at) && at.WaitUnlock? && WaitStep(p, s, t, c, at) == Some(s')
    requires Frame(p, s, s', t, c)
    ensures Settled(p, s, a, t, c, at, s')
  {
    assert WellTyped(p, s');
    hide Frame;
    LinkedKept(s, s', s.conds[c].waiters, a[c].list);
    assert ThreadOk(p, s', a[c := Advance(a[c], t, at)], t);
  }

  lemma WaitSleep(p: Policy, s: State, a: Shadows, t: Thread, c: Cond, at: Statement, s': State)
    requires Ready(p, s, a, t, c, at) && at.WaitSleep? && WaitStep(p, s, t, c, at) == Some(s')
    requires Frame(p, s, s', t, c)
    ensures Settled(p, s, a, t, c, at, s')
  {
    assert WellTyped(p, s');
    hide Frame;
    LinkedKept(s, s', s.conds[c].waiters, a[c].list);
  }

  lemma WaitRelock(p: Policy, s: State, a: Shadows, t: Thread, c: Cond, at: Statement, s': State)
    requires Ready(p, s, a, t, c, at) && at.WaitRelock? && WaitStep(p, s, t, c, at) == Some(s')
    requires Frame(p, s, s', t, c)
    ensures Settled(p, s, a, t, c, at, s')
  {
    assert WellTyped(p, s');
    hide Frame;
    LinkedKept(s, s', s.conds[c].waiters, a[c].list);
    if s.conds[c].cs.Some? {
      assert ThreadOk(p, s, a, s.conds[c].cs.value);
      assert ThreadOk(p, s', a[c := Advance(a[c], t, at)], t);
  }
  }

  lemma SignalEnter(p: Policy, s: State, a: Shadows, t: Thread, c: Cond, at: Statement, s': State)
    requires Ready(p, s, a, t, c, at) && at.SignalEnter? && SignalStep(p, s, t, c, at) == Some(s')
    requires Frame(p, s, s', t, c)
    ensures Settled(p, s, a, t, c, at, s')
  {
    assert WellTyped(p, s');
    hide Frame;
    LinkedKept(s, s', s.conds[c].waiters, a[c].list);
  }

  lemma SignalTest(p: Policy, s: State, a: Shadows, t: Thread, c: Cond, at: Statement, s': State)
    requires Ready(p, s, a, t, c, at) && at.SignalTest? && SignalStep(p, s, t, c, at) == Some(s')
    requires Frame(p, s, s', t, c)
    ensures Settled(p, s, a, t, c, at, s')
  {
    assert WellTyped(p, s');
    hide Frame;
  }

  lemma SignalPost(p: Policy, s: State, a: Shadows, t: Thread, c: Cond, at: Statement, s': State)
    requires Ready(p, s, a, t, c, at) && at.SignalPost? && SignalStep(p, s, t, c, at) == Some(s')
    requires Frame(p, s, s', t, c)
    ensures Settled(p, s, a, t, c, at, s')
  {
    assert WellTyped(p, s');
    hide Frame;
    LinkedKept(s, s', s.conds[c].waiters, a[c].list);
    assert ThreadOk(p, s, a, a[c].list[0]);
    assert ThreadOk(p, s', a[c := Advance(a[c], t, at)], t);
  }

  lemma SignalUnlink(p: Policy, s: State, a: Shadows, t: Thread, c: Cond, at: Statement, s': State)
    requires Ready(p, s, a, t, c, at) && at.SignalUnlink? && SignalStep(p, s, t, c, at) == Some(s')
    requires Frame(p, s, s', t, c)
    ensures Settled(p, s, a, t, c, at, s')
  {
    assert WellTyped(p, s');
    hide Frame;
    assert ThreadOk(p, s', a[c := Advance(a[c], t, at)], t);
  }

  lemma SignalLeave(p: Policy, s: State, a: Shadows, t: Thread, c: Cond, at: Statement, s': State)
    requires Ready(p, s, a, t, c, at) && at.SignalLeave? && SignalStep(p, s, t, c, at) == Some(s')
    requires Frame(p, s, s', t, c)
    ensures Settled(p, s, a, t, c, at, s')
  {
    assert WellTyped(p, s');
    hide Frame;
  }

  lemma CastEnter(p: Policy, s: State, a: Shadows, t: Thread, c: Cond, at: Statement, s': State)
    requires Ready(p, s, a, t, c, at) && at.CastEnter? && BroadcastStep(p, s, t, c, at) == Some(s')
    requires Frame(p, s, s', t, c)
    ensures Settled(p, s, a, t, c, at, s')
  {
    assert WellTyped(p, s');
    hide Frame;
    LinkedKept(s, s', s.conds[c].waiters, a[c].list);
  }

  lemma CastFirst(p: Policy, s: State, a: Shadows, t: Thread, c: Cond, at: Statement, s': State)
    requires Ready(p, s, a, t, c, at) && at.CastFirst? && BroadcastStep(p, s, t, c, at) == Some(s')
    requires Frame(p, s, s', t, c)
    ensures Settled(p, s, a, t, c, at, s')
  {
    assert WellTyped(p, s');
    hide Frame;
  }

  lemma CastTest(p: Policy, s: State, a: Shadows, t: Thread, c: Cond, at: Statement, s': State)
    requires Ready(p, s, a, t, c, at) && at.CastTest? && BroadcastStep(p, s, t, c, at) == Some(s')
    requires Frame(p, s, s', t, c)
    ensures Settled(p, s, a, t, c, at, s')
  {
    assert WellTyped(p, s');
    hide Frame;
    LinkedKept(s, s', s.conds[c].waiters, a[c].list);
  }

  lemma CastPost(p: Policy, s: State, a: Shadows, t: Thread, c: Cond, at: Statement, s': State)
    requires Ready(p, s, a, t, c, at) && at.CastPost? && BroadcastStep(p, s, t, c, at) == Some(s')
    requires Frame(p, s, s', t, c)
    ensures Settled(p, s, a, t, c, at, s')
  {
    assert WellTyped(p, s');
    hide Frame;
    assert ThreadOk(p, s, a, at.w) && Enrolled(s.threads[at.w], c);
    CastPostList(p, s, a, t, c, at, s');
  }

  /** The cursor's record is the next of the list to be released, and then one more has been. */
  lemma PostReleasesNext(p: Policy, s: State, a: Shadows, t: Thread, c: Cond, w: Thread, s': State, i: nat)
    requires Ready(p, s, a, t, c, Statement.CastPost(w)) && BroadcastStep(p, s, t, c, Statement.CastPost(w)) == Some(s')
    requires w in s.threads && Enrolled(s.threads[w], c) && i < |a[c].list|
    ensures WellTyped(p, s') && a[c].list[i] in s'.threads
    ensures Enrolled(s'.threads[a[c].list[i]], c) <==> a[c].released + 1 <= i
    ensures i < a[c].released + 1 ==> ReleasedOk(p, s', c, a[c].list[i])
  {
    assert Enrolled(s.threads[a[c].list[i]], c) <==> a[c].released <= i;
    assert i < a[c].released ==> ReleasedOk(p, s, c, a[c].list[i]);
    assert ThreadOk(p, s, a, w);
  }

  lemma CastPostList(p: Policy, s: State, a: Shadows, t: Thread, c: Cond, at: Statement, s': State)
    requires Ready(p, s, a, t, c, at) && at.CastPost? && BroadcastStep(p, s, t, c, at) == Some(s')
    requires at.w in s.threads && Enrolled(s.threads[at.w], c)
    ensures WellTyped(p, s') && CondOk(p, s', a[c := Advance(a[c], t, at)], c)
  {
    var l, k := a[c].list, a[c].released;
    LinkedKept(s, s', s.conds[c].waiters, l);
    assert Progress(Statement.CastNext(at.w), Advance(a[c], t, at));
    assert s'.conds == s.conds && s'.threads[t].pc == Inside(c, Statement.CastNext(at.w)) && k + 1 <= |l|;
    hide Linked, Enrolled, ReleasedOk, Progress, ThreadOk, BroadcastStep;
    forall i: nat | i < |l|
      ensures Enrolled(s'.threads[l[i]], c) <==> k + 1 <= i
      ensures i < k + 1 ==> ReleasedOk(p, s', c, l[i])
    {
      PostReleasesNext(p, s, a, t, c, at.w, s', i);
    }
  }

  lemma CastNext(p: Policy, s: State, a: Shadows, t: Thread, c: Cond, at: Statement, s': State)
    requires Ready(p, s, a, t, c, at) && at.CastNext? && BroadcastStep(p, s, t, c, at) == Some(s')
    requires Frame(p, s, s', t, c)
    ensures Settled(p, s, a, t, c, at, s')
  {
    assert WellTyped(p, s');
    hide Frame;
    LinkedKept(s, s', s.conds[c].waiters, a[c].list);
  }

  lemma CastClear(p: Policy, s: State, a: Shadows, t: Thread, c: Cond, at: Statement, s': State)
    requires Ready(p, s, a, t, c, at) && at.CastClear? && BroadcastStep(p, s, t, c, at) == Some(s')
    requires Frame(p, s, s', t, c)
    ensures Settled(p, s, a, t, c, at, s')
  {
    assert WellTyped(p, s');
    hide Frame;
  }

  lemma CastLeave(p: Policy, s: State, a: Shadows, t: Thread, c: Cond, at: Statement, s': State)
    requires Ready(p, s, a, t, c, at) && at.CastLeave? && BroadcastStep(p, s, t, c, at) == Some(s')
    requires Frame(p, s, s', t, c)
    ensures Settled(p, s, a, t, c, at, s')
  {
    assert WellTyped(p, s');
    hide Frame;
  }

  lemma InsideStep(p: Policy, s: State, a: Shadows, t: Thread, c: Cond, at: Statement, s': State)
    requires Ready(p, s, a, t, c, at) && Step(p, s, t, Go) == Some(s')
    ensures Frame(p, s, s', t, c) && Settled(p, s, a, t, c, at, s')
  {
    assert s.threads[t].pc == Inside(c, at);
    hide Frame, Settled, Ready, WaitStep, SignalStep, BroadcastStep;
    if at.InWait() {
      WaitFrame(p, s, a, t, c, at, s');
    } else if at.SignalPost? || at.CastPost? {
      PostFrame(p, s, a, t, c, at, s');
    } else {
      OtherFrame(p, s, a, t, c, at, s');
    }
    match at
    case WaitEnter => WaitEnter(p, s, a, t, c, at, s');
    case WaitLink => WaitLink(p, s, a, t, c, at, s');
    case WaitPush => WaitPush(p, s, a, t, c, at, s');
    case WaitLeave => WaitLeave(p, s, a, t, c, at, s');
    case WaitUnlock => WaitUnlock(p, s, a, t, c, at, s');
    case WaitSleep => WaitSleep(p, s, a, t, c, at, s');
    case WaitRelock => WaitRelock(p, s, a, t, c, at, s');
    case SignalEnter => SignalEnter(p, s, a, t, c, at, s');
    case SignalTest => SignalTest(p, s, a, t, c, at, s');
    case SignalPost => SignalPost(p, s, a, t, c, at, s');
    case SignalUnlink => SignalUnlink(p, s, a, t, c, at, s');
    case SignalLeave => SignalLeave(p, s, a, t, c, at, s');
    case CastEnter => CastEnter(p, s, a, t, c, at, s');
    case CastFirst => CastFirst(p, s, a, t, c, at, s');
    case CastTest(_) => CastTest(p, s, a, t, c, at, s');
    case CastPost(_) => CastPost(p, s, a, t, c, at, s');
    case CastNext(_) => CastNext(p, s, a, t, c, at, s');
    case CastClear => CastClear(p, s, a, t, c, at, s');
    case CastLeave => CastLeave(p, s, a, t, c, at, s');
  }

  /** A thread outside the package touches no record and no list. */
  lemma OutsideThreadKept(p: Policy, s: State, a: Shadows, t: Thread, act: Action, s': State, u: Thread)
    requires WellTyped(p, s) && a.Keys == p.mutexOf.Keys
    requires t in s.threads && s.threads[t].pc.Outside? && OutsideStep(p, s, t, act) == Some(s')
    requires u in s.threads && ThreadOk(p, s, a, u)
    ensures WellTyped(p, s') && u in s'.threads && ThreadOk(p, s', a, u)
  {
  }

  lemma OutsideWellTyped(p: Policy, s: State, t: Thread, act: Action, s': State)
    requires WellTyped(p, s) && t in s.threads && s.threads[t].pc.Outside? && OutsideStep(p, s, t, act) == Some(s')
    ensures WellTyped(p, s') && s'.threads.Keys == s.threads.Keys
  {
  }

  lemma OutsideCondKept(p: Policy, s: State, a: Shadows, t: Thread, act: Action, s': State, c: Cond)
    requires WellTyped(p, s) && a.Keys == p.mutexOf.Keys
    requires t in s.threads && s.threads[t].pc.Outside? && OutsideStep(p, s, t, act) == Some(s')
    requires c in p.mutexOf && CondOk(p, s, a, c)
    ensures WellTyped(p, s') && CondOk(p, s', a, c)
  {
    OutsideWellTyped(p, s, t, act, s');
    assert s'.conds == s.conds && forall u :: u in s.threads && u != t ==> s'.threads[u] == s.threads[u];
    LinkedKept(s, s', s.conds[c].waiters, a[c].list);
    assert s.conds[c].cs != Some(t);
    CondSame(p, s, a, s', c);
  }

  /** The condition is the same, and no thread has joined, woken or been released. */
  lemma CondSame(p: Policy, s: State, a: Shadows, s': State, c: Cond)
    requires WellTyped(p, s) && WellTyped(p, s') && a.Keys == p.mutexOf.Keys && c in p.mutexOf && CondOk(p, s, a, c)
    requires s'.conds == s.conds && s'.threads.Keys == s.threads.Keys && Linked(s', s.conds[c].waiters, a[c].list)
    requires s.conds[c].cs.Some? && s.conds[c].cs.value in s.threads ==>
               s'.threads[s.conds[c].cs.value] == s.threads[s.conds[c].cs.value]
    requires forall u :: u in s.threads ==> (Enrolled(s'.threads[u], c) <==> Enrolled(s.threads[u], c))
    requires forall u :: u in s.threads && ReleasedOk(p, s, c, u) ==> ReleasedOk(p, s', c, u)
    ensures CondOk(p, s', a, c)
  {
    hide Enrolled, ReleasedOk;
  }

  /** Every statement of every thread keeps the invariant. */
  lemma StepKeepsInv(p: Policy, s: State, a: Shadows, t: Thread, act: Action, s': State) returns (a': Shadows)
    requires Inv(p, s, a) && Disciplined(p) && Step(p, s, t, act) == Some(s')
    ensures Inv(p, s', a')
  {
    assert ThreadOk(p, s, a, t);
    match s.threads[t].pc
    case Outside =>
      a' := a;
      OutsideWellTyped(p, s, t, act, s');
      forall u | u in s'.threads ensures ThreadOk(p, s', a', u) {
        assert ThreadOk(p, s, a, u);
        OutsideThreadKept(p, s, a, t, act, s', u);
      }
      forall c | c in p.mutexOf ensures CondOk(p, s', a', c) {
        assert CondOk(p, s, a, c);
        OutsideCondKept(p, s, a, t, act, s', c);
      }
    case Inside(c, at) =>
      assert CondOk(p, s, a, c);
      InsideStep(p, s, a, t, c, at, s');
      Assemble(p, s, a, t, c, at, s');
      a' := a[c := Advance(a[c], t, at)];
  }

  /** The invariant holds at every point of every disciplined run. */
  lemma RunInv(p: Policy, run: seq<State>, n: nat) returns (a: Shadows)
    requires IsRun(p, run) && Disciplined(p) && n < |run|
    ensures Inv(p, run[n], a)
  {
    a := InitInv(p, run[0]);
    var i := 0;
    while i < n
      invariant i <= n && Inv(p, run[i], a)
    {
      assert Transition(p, run[i], run[i + 1]);
      var t, act :| Step(p, run[i], t, act) == Some(run[i + 1]);
      a := StepKeepsInv(p, run[i], a, t, act, run[i + 1]);
      i := i + 1;
    }
  }
}
