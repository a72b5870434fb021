/** The WIN32 condition variable of Xthreads.h, one transition per C statement.

    Threads are numbered.  Every thread owns exactly one waiter record for its whole life, so a
    record is named by its thread. */
module ConditionVariable {
  import opened Options

  type Thread = nat
  type Cond = nat
  type Mutex = nat

  /** How the callers use the package: the mutex each condition is waited on with, and whether
      signal and broadcast are only called while holding it. */
  datatype Policy = Policy(mutexOf: map<Cond, Mutex>, signalHolds: bool)

  /** The statements of the three macros, in program order.  `cursor`, `w` are the broadcast's
      _tmpthr, null-checked and not. */
  datatype Statement =
    | WaitEnter | WaitLink | WaitPush | WaitLeave | WaitUnlock | WaitSleep | WaitRelock
    | SignalEnter | SignalTest | SignalPost | SignalUnlink | SignalLeave
    | CastEnter | CastFirst | CastTest(cursor: Option<Thread>) | CastPost(w: Thread) | CastNext(w: Thread)
    | CastClear | CastLeave
  {
    predicate InWait() {
      WaitEnter? || WaitLink? || WaitPush? || WaitLeave? || WaitUnlock? || WaitSleep? || WaitRelock?
    }

    predicate InSignal() {
      SignalEnter? || SignalTest? || SignalPost? || SignalUnlink? || SignalLeave?
    }
  }

  /** The statement a thread is about to execute, and for which condition. */
  datatype Pc = Outside | Inside(c: Cond, at: Statement)

  /** A thread and its struct _xthread_waiter. */
  datatype ThreadState = ThreadState(pc: Pc, sem: nat, next: Option<Thread>)

  /** An xcondition_rec; `cs` is the thread inside the critical section. */
  datatype CondState = CondState(cs: Option<Thread>, waiters: Option<Thread>)

  datatype State = State(
    threads: map<Thread, ThreadState>,
    conds: map<Cond, CondState>,
    owner: map<Mutex, Option<Thread>>)

  /** What a thread does next: run the statement it is at, or, outside the package, start a call
      or take or drop a mutex. */
  datatype Action =
    | Go
    | Lock(m: Mutex)
    | Unlock(m: Mutex)
    | CallWait(on: Cond)
    | CallSignal(on: Cond)
    | CallBroadcast(on: Cond)

  ghost predicate WellTyped(p: Policy, s: State) {
    && s.conds.Keys == p.mutexOf.Keys
    && (forall c :: c in p.mutexOf ==> p.mutexOf[c] in s.owner)
    && (forall t {:trigger s.threads[t].pc} :: t in s.threads ==>
          match s.threads[t].pc
          case Outside => true
          case Inside(c, at) => c in p.mutexOf)
  }

  ghost predicate Init(p: Policy, s: State) {
    && WellTyped(p, s)
    && (forall t :: t in s.threads ==> s.threads[t].pc == Outside && s.threads[t].sem == 0)
    && (forall c :: c in s.conds ==> s.conds[c] == CondState(None, None))
    && (forall m :: m in s.owner ==> s.owner[m] == None)
  }

  ghost function AtPc(s: State, t: Thread, pc: Pc): State
    requires t in s.threads
  {
    s.(threads := s.threads[t := s.threads[t].(pc := pc)])
  }

  ghost function SetCs(s: State, c: Cond, holder: Option<Thread>): State
    requires c in s.conds
  {
    s.(conds := s.conds[c := s.conds[c].(cs := holder)])
  }

  ghost function SetWaiters(s: State, c: Cond, head: Option<Thread>): State
    requires c in s.conds
  {
    s.(conds := s.conds[c := s.conds[c].(waiters := head)])
  }

  /** ReleaseSemaphore on a thread's record. */
  ghost function Post(s: State, w: Thread): State
    requires w in s.threads
  {
    s.(threads := s.threads[w := s.threads[w].(sem := s.threads[w].sem + 1)])
  }

  ghost predicate MayWait(p: Policy, s: State, t: Thread, c: Cond)
    requires WellTyped(p, s)
  {
    c in p.mutexOf && s.owner[p.mutexOf[c]] == Some(t)
  }

  ghost predicate MaySignal(p: Policy, s: State, t: Thread, c: Cond)
    requires WellTyped(p, s)
  {
    c in p.mutexOf && (p.signalHolds ==> MayWait(p, s, t, c))
  }

  /** What thread `t` may do while outside the package. */
  ghost function OutsideStep(p: Policy, s: State, t: Thread, a: Action): Option<State>
    requires WellTyped(p, s) && t in s.threads
  {
    match a
    case Go => None
    case Lock(m) =>
      if m in s.owner && s.owner[m] == None then Some(s.(owner := s.owner[m := Some(t)])) else None
    case Unlock(m) =>
      if m in s.owner && s.owner[m] == Some(t) then Some(s.(owner := s.owner[m := None])) else None
    case CallWait(c) => if MayWait(p, s, t, c) then Some(AtPc(s, t, Inside(c, WaitEnter))) else None
    case CallSignal(c) => if MaySignal(p, s, t, c) then Some(AtPc(s, t, Inside(c, SignalEnter))) else None
    case CallBroadcast(c) => if MaySignal(p, s, t, c) then Some(AtPc(s, t, Inside(c, CastEnter))) else None
  }

  /** One statement of xcondition_wait. */
  ghost function WaitStep(p: Policy, s: State, t: Thread, c: Cond, at: Statement): Option<State>
    requires WellTyped(p, s) && t in s.threads && c in p.mutexOf
  {
    match at
    case WaitEnter =>
      if s.conds[c].cs == None then Some(SetCs(AtPc(s, t, Inside(c, WaitLink)), c, Some(t))) else None
    case WaitLink =>
      Some(s.(threads := s.threads[t := s.threads[t].(pc := Inside(c, WaitPush), next := s.conds[c].waiters)]))
    case WaitPush => Some(SetWaiters(AtPc(s, t, Inside(c, WaitLeave)), c, Some(t)))
    case WaitLeave => Some(SetCs(AtPc(s, t, Inside(c, WaitUnlock)), c, None))
    case WaitUnlock => Some(AtPc(s, t, Inside(c, WaitSleep)).(owner := s.owner[p.mutexOf[c] := None]))
    case WaitSleep =>
      if s.threads[t].sem > 0 then
        Some(s.(threads := s.threads[t := s.threads[t].(pc := Inside(c, WaitRelock), sem := s.threads[t].sem - 1)]))
      else None
    case WaitRelock =>
      if s.owner[p.mutexOf[c]] == None
      then Some(AtPc(s, t, Outside).(owner := s.owner[p.mutexOf[c] := Some(t)])) else None
    case _ => None
  }

  /** One statement of xcondition_signal.  Unlinking reads `waiters->next` after the semaphore of
      that waiter has been released. */
  ghost function SignalStep(p: Policy, s: State, t: Thread, c: Cond, at: Statement): Option<State>
    requires WellTyped(p, s) && t in s.threads && c in p.mutexOf
  {
    match at
    case SignalEnter =>
      if s.conds[c].cs == None then Some(SetCs(AtPc(s, t, Inside(c, SignalTest)), c, Some(t))) else None
    case SignalTest => Some(AtPc(s, t, Inside(c, if s.conds[c].waiters.Some? then SignalPost else SignalLeave)))
    case SignalPost =>
      if s.conds[c].waiters.Some? && s.conds[c].waiters.value in s.threads
      then Some(AtPc(Post(s, s.conds[c].waiters.value), t, Inside(c, SignalUnlink))) else None
    case SignalUnlink =>
      if s.conds[c].waiters.Some? && s.conds[c].waiters.value in s.threads
      then Some(SetWaiters(AtPc(s, t, Inside(c, SignalLeave)), c, s.threads[s.conds[c].waiters.value].next)) else None
    case SignalLeave => Some(SetCs(AtPc(s, t, Outside), c, None))
    case _ => None
  }

  /** One statement of xcondition_broadcast.  The loop reads `_tmpthr->next` after the semaphore of
      _tmpthr has been released. */
  ghost function BroadcastStep(p: Policy, s: State, t: Thread, c: Cond, at: Statement): Option<State>
    requires WellTyped(p, s) && t in s.threads && c in p.mutexOf
  {
    match at
    case CastEnter =>
      if s.conds[c].cs == None then Some(SetCs(AtPc(s, t, Inside(c, CastFirst)), c, Some(t))) else None
    case CastFirst => Some(AtPc(s, t, Inside(c, CastTest(s.conds[c].waiters))))
    case CastTest(cursor) =>
      Some(AtPc(s, t, Inside(c, if cursor.Some? then CastPost(cursor.value) else CastClear)))
    case CastPost(w) =>
      if w in s.threads then Some(AtPc(Post(s, w), t, Inside(c, CastNext(w)))) else None
    case CastNext(w) =>
      if w in s.threads then Some(AtPc(s, t, Inside(c, CastTest(s.threads[w].next)))) else None
    case CastClear => Some(SetWaiters(AtPc(s, t, Inside(c, CastLeave)), c, None))
    case CastLeave => Some(SetCs(AtPc(s, t, Outside), c, None))
    case _ => None
  }

  /** Thread `t` performs `a`; None when it cannot. */
  ghost function Step(p: Policy, s: State, t: Thread, a: Action): Option<State>
    requires WellTyped(p, s)
  {
    if t !in s.threads then None
    else
      match s.threads[t].pc
      case Outside => OutsideStep(p, s, t, a)
      case Inside(c, at) =>
        if a != Go then None
        else if at.InWait() then WaitStep(p, s, t, c, at)
        else if at.InSignal() then SignalStep(p, s, t, c, at)
        else BroadcastStep(p, s, t, c, at)
  }

  ghost predicate Transition(p: Policy, s: State, s': State) {
    WellTyped(p, s) && exists t, a :: Step(p, s, t, a) == Some(s')
  }

  /** A run: any interleaving of any number of statements of any threads. */
  ghost predicate IsRun(p: Policy, run: seq<State>) {
    && |run| > 0
    && Init(p, run[0])
    && forall i :: 0 <= i < |run| - 1 ==> Transition(p, run[i], run[i + 1])
  }
}
