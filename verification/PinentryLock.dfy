/**
 The lock around the pinentry as a transition system.  A mutex, a recursion counter per session and
 the global connection to the pinentry have to agree in every interleaving of the sessions.
 */
module PinentryLock {
  import opened Wrappers

  type Session = nat
  type Ctx = nat

  datatype State = State(
    holder: Option<Session>,      // who locked entry_lock
    entryCtx: Option<Ctx>,
    active: map<Session, int>,    // pinentry_active; zero when absent
    depth: map<Session, nat>,     // calls of start_pinentry that returned success and were not undone yet
    created: set<Ctx>,
    released: set<Ctx>,
    twice: bool)                  // some context was released twice
  {
    function Active(s: Session): int {
      if s in active then active[s] else 0
    }

    function Depth(s: Session): nat {
      if s in depth then depth[s] else 0
    }
  }

  const INIT := State(None, None, map[], map[], {}, {}, false)

  /** How the calls into the system end when a pinentry has to be started. */
  datatype Outcome =
    | Timeout      // the mutex was not to be had for a minute
    | LockError    // the mutex operation failed
    | NoFlush      // pending output could not be flushed
    | NoContext    // no connection context could be allocated
    | Rejected     // the pinentry did not start or refused an option
    | Started

  datatype Step = Start(s: Session, ctx: Ctx, outcome: Outcome) | Unlock(s: Session)

  function Release(st: State, c: Option<Ctx>): State {
    if c == None then st
    else st.(released := st.released + {c.value}, twice := st.twice || c.value in st.released)
  }

  function SetActive(st: State, s: Session, n: int): State {
    st.(active := st.active[s := n])
  }

  function Called(st: State, s: Session): State {
    st.(depth := st.depth[s := st.Depth(s) + 1])
  }

  /** `unlock_pinentry`. */
  function Leave(st: State, s: Session): State {
    var n := st.Active(s) - 1;
    if n == 0 then Release(SetActive(st, s, n).(entryCtx := None, holder := None), st.entryCtx)
    else SetActive(st, s, n)
  }

  /** The connection is set up by the session that has the lock. */
  function Open(st: State, s: Session, c: Ctx): State {
    SetActive(st, s, 1).(entryCtx := Some(c), created := st.created + {c})
  }

  function Locked(st: State, s: Session): State {
    st.(holder := Some(s))
  }

  /** What `start_pinentry` does once it has the lock. */
  function Launch(st: State, s: Session, c: Ctx, outcome: Outcome): State
    requires !outcome.Timeout? && !outcome.LockError?
  {
    if st.entryCtx.Some? then Called(st, s)
    else
      match outcome
      case NoFlush => Leave(st, s)
      case NoContext => st
      case Rejected => Leave(Open(st, s, c), s)
      case Started => Called(Open(st, s, c), s)
  }

  /** `start_pinentry`. */
  function StartStep(st: State, s: Session, c: Ctx, outcome: Outcome): State {
    if st.Active(s) != 0 then Called(SetActive(st, s, st.Active(s) + 1), s)
    else if outcome.LockError? then Called(st, s)   // this error is reported as success
    else if outcome.Timeout? then st
    else Launch(Locked(st, s), s, c, outcome)
  }

  /** Whether `start_pinentry` tells its caller that there is a pinentry to talk to. */
  predicate StartReports(st: State, s: Session, outcome: Outcome) {
    || st.Active(s) != 0
    || outcome.LockError?
    || (!outcome.Timeout? && (st.entryCtx.Some? || outcome.Started?))
  }

  /** A session waits for the mutex until it is free, or for a minute. */
  predicate Lockable(st: State, s: Session, outcome: Outcome) {
    st.Active(s) != 0 || outcome.Timeout? || outcome.LockError? || st.holder == None
  }

  predicate Enabled(st: State, step: Step) {
    match step
    case Start(s, c, outcome) => c !in st.created && Lockable(st, s, outcome)
    case Unlock(s) => st.Depth(s) > 0
  }

  function Next(st: State, step: Step): State
    requires Enabled(st, step)
  {
    match step
    case Start(s, c, outcome) => StartStep(st, s, c, outcome)
    case Unlock(s) => Leave(st.(depth := st.depth[s := st.Depth(s) - 1]), s)
  }

  // ----- The invariant -----

  /** At most one session has a pinentry, and the connection exists exactly then. */
  ghost predicate OneHolder(st: State) {
    && (st.holder == None ==> st.entryCtx == None)
    && (st.holder.Some? ==> st.entryCtx.Some? && st.Active(st.holder.value) > 0)
    && (forall s :: s in st.active && st.active[s] != 0 ==> st.holder == Some(s))
  }

  /** The recursion counter is the number of calls that have not been undone. */
  ghost predicate Balanced(st: State) {
    forall s: Session :: st.Active(s) == st.Depth(s)
  }

  /** The connection in use is the only one not released, and none was released twice. */
  ghost predicate Tidy(st: State) {
    && !st.twice && st.released <= st.created
    && (st.entryCtx.Some? ==> st.entryCtx.value in st.created && st.entryCtx.value !in st.released)
    && (forall c :: c in st.created && c !in st.released ==> st.entryCtx == Some(c))
  }

  ghost predicate Inv(st: State) {
    OneHolder(st) && Balanced(st) && Tidy(st)
  }

  /** The failures after which the source leaves lock, counter and connection in disagreement. */
  predicate Derails(st: State, step: Step) {
    && step.Start? && st.Active(step.s) == 0
    && (step.outcome.LockError? || step.outcome.NoFlush? || step.outcome.NoContext?)
  }

  lemma LeaveKeeps(st: State, s: Session)
    requires Inv(st) && st.Depth(s) > 0
    ensures Inv(Next(st, Unlock(s)))
  {
    var st' := Next(st, Unlock(s));
    assert st.Active(s) == st.Depth(s);
    assert forall t: Session :: t != s ==> st'.Active(t) == st.Active(t) && st'.Depth(t) == st.Depth(t);
  }

  lemma OpenKeeps(st: State, s: Session, c: Ctx)
    requires Inv(st) && st.holder == None && c !in st.created
    ensures Inv(Called(Open(Locked(st, s), s, c), s))
    ensures Inv(Leave(Open(Locked(st, s), s, c), s))
  {
    assert st.Active(s) == 0 == st.Depth(s);
    var open := Called(Open(Locked(st, s), s, c), s);
    var left := Leave(Open(Locked(st, s), s, c), s);
    forall t: Session
      ensures open.Active(t) == open.Depth(t) && left.Active(t) == left.Depth(t)
    {
      assert st.Active(t) == st.Depth(t);
    }
  }

  lemma RecursionKeeps(st: State, s: Session)
    requires Inv(st) && st.Active(s) != 0
    ensures Inv(Called(SetActive(st, s, st.Active(s) + 1), s))
  {
    var st' := Called(SetActive(st, s, st.Active(s) + 1), s);
    assert st.Active(s) == st.Depth(s);
    assert forall t: Session :: t != s ==> st'.Active(t) == st.Active(t) && st'.Depth(t) == st.Depth(t);
  }

  lemma DerailedIsLost(st: State, step: Step)
    requires Inv(st) && Enabled(st, step) && Derails(st, step)
    ensures !Inv(Next(st, step))
  {
    var s, st' := step.s, Next(st, step);
    assert st.Active(s) == 0 == st.Depth(s);
    match step.outcome
    case LockError => assert st'.Active(s) != st'.Depth(s);
    case NoFlush => assert st'.Active(s) == -1 && st'.Depth(s) == 0;
    case NoContext => assert st'.holder.Some? && st'.entryCtx == None;
  }

  /**
   A step keeps lock, counters and connection in agreement if and only if it is not a start of a
   session without a pinentry in which the mutex operation, the flush or the allocation fails.
   */
  lemma StepKeepsUnless(st: State, step: Step)
    requires Inv(st) && Enabled(st, step)
    ensures Inv(Next(st, step)) <==> !Derails(st, step)
  {
    if Derails(st, step) {
      DerailedIsLost(st, step);
    } else {
      match step
      case Unlock(s) => LeaveKeeps(st, s);
      case Start(s, c, outcome) =>
        if st.Active(s) != 0 {
          RecursionKeeps(st, s);
        } else if st.holder == None {
          OpenKeeps(st, s, c);
          assert st.entryCtx == None;
        }
    }
  }

  ghost predicate IsRun(st: State, steps: seq<Step>)
    decreases steps
  {
    steps == [] || (Enabled(st, steps[0]) && !Derails(st, steps[0]) && IsRun(Next(st, steps[0]), steps[1..]))
  }

  ghost function After(st: State, steps: seq<Step>): State
    requires IsRun(st, steps)
    decreases steps
  {
    if steps == [] then st else After(Next(st, steps[0]), steps[1..])
  }

  lemma {:induction false} RunKeeps(st: State, steps: seq<Step>)
    requires Inv(st) && IsRun(st, steps)
    ensures Inv(After(st, steps))
    decreases steps
  {
    if steps != [] {
      hide Inv, Enabled, Derails, Next;
      StepKeepsUnless(st, steps[0]);
      RunKeeps(Next(st, steps[0]), steps[1..]);
    }
  }

  /**
   In every run without such a failure at most one session has a positive counter, the connection
   exists exactly then, no counter is negative and every connection but that one has been released.
   */
  lemma EveryRunIsSafe(steps: seq<Step>, s: Session, t: Session)
    requires IsRun(INIT, steps)
    ensures var st := After(INIT, steps);
            && st.Active(s) == st.Depth(s)
            && (st.Active(s) > 0 && st.Active(t) > 0 ==> s == t)
            && (st.Active(s) > 0 ==> st.entryCtx.Some? && st.holder == Some(s))
            && (st.entryCtx.Some? ==> st.holder.Some? && st.Active(st.holder.value) > 0)
            && !st.twice && (st.entryCtx == None ==> st.created == st.released)
  {
    RunKeeps(INIT, steps);
    hide IsRun, After;
    assert After(INIT, steps).entryCtx == None ==> After(INIT, steps).created <= After(INIT, steps).released;
  }

  /** A session that gets the lock finds no connection: that exit of the source is never taken. */
  lemma NoStaleConnection(st: State, s: Session)
    requires Inv(st) && st.holder == None
    ensures Locked(st, s).entryCtx == None
  {
  }

  /** While a session has the pinentry, nothing another session can do changes anything. */
  lemma OthersWait(st: State, s: Session, step: Step)
    requires Inv(st) && st.holder == Some(s) && Enabled(st, step) && !Derails(st, step) && step.s != s
    ensures Next(st, step) == st && step.Start? && !StartReports(st, step.s, step.outcome)
  {
    assert st.Active(step.s) == st.Depth(step.s);
  }

  /**
   After a failed flush the lock is never released: the session's counter is negative, and its next
   start reports success without a connection.
   */
  lemma AfterFailedFlush(st: State, s: Session, c: Ctx, d: Ctx, outcome: Outcome)
    requires Inv(st) && st.holder == None && c !in st.created && d !in st.created
    ensures var st' := Next(st, Start(s, c, NoFlush));
            && !StartReports(st, s, NoFlush) && st'.Active(s) == -1 && st'.holder == Some(s)
            && Enabled(st', Start(s, d, outcome)) && StartReports(st', s, outcome)
            && Next(st', Start(s, d, outcome)).entryCtx == None
            && Next(st', Start(s, d, outcome)).holder == Some(s)
  {
    assert st.Active(s) == st.Depth(s) == 0;
  }

  /**
   How a start ends for a session without a pinentry that finds the lock free: it reports success if
   and only if the pinentry started, and then the session has the lock and the new connection.  If
   the pinentry refused, or the lock was not to be had in time, everything is as before, and the
   refused connection has been released.
   */
  lemma StartOutcome(st: State, s: Session, c: Ctx, outcome: Outcome)
    requires Inv(st) && Enabled(st, Start(s, c, outcome)) && !Derails(st, Start(s, c, outcome)) && st.Active(s) == 0
    ensures var n := Next(st, Start(s, c, outcome));
            && (StartReports(st, s, outcome) <==> outcome.Started?)
            && (outcome.Started? ==>
                  && n.holder == Some(s) && n.entryCtx == Some(c) && n.Active(s) == 1 && n.Depth(s) == 1
                  && n.created == st.created + {c} && n.released == st.released)
            && (!outcome.Started? ==>
                  && n.holder == st.holder && n.entryCtx == st.entryCtx && n.Active(s) == 0 && n.Depth(s) == 0)
            && (outcome.Rejected? ==> c in n.released)
            && (outcome.Timeout? ==> n == st)
  {
    assert st.Active(s) == st.Depth(s);
  }

  /** A session that has a pinentry gets it again at once, whatever would happen to a first start. */
  lemma NestedStart(st: State, s: Session, c: Ctx, outcome: Outcome)
    requires Inv(st) && st.Active(s) > 0 && c !in st.created
    ensures Enabled(st, Start(s, c, outcome)) && StartReports(st, s, outcome)
    ensures var n := Next(st, Start(s, c, outcome));
            && n.Active(s) == st.Active(s) + 1 && n.holder == Some(s) && n.entryCtx == st.entryCtx
            && n.created == st.created && n.released == st.released
  {
  }

  /** Only the last unlock gives up the lock, and with it the connection, which is released. */
  lemma UnlockOutcome(st: State, s: Session)
    requires Inv(st) && Enabled(st, Unlock(s))
    ensures st.entryCtx.Some?
    ensures var n := Next(st, Unlock(s));
            if st.Depth(s) == 1
            then n.holder == None && n.entryCtx == None && n.Active(s) == 0 && n.released == st.released + {st.entryCtx.value}
            else n.holder == Some(s) && n.entryCtx == st.entryCtx && n.Active(s) == st.Depth(s) - 1 && n.released == st.released
  {
    assert st.Active(s) == st.Depth(s);
  }
}
