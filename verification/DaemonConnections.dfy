/**
 What the connection manager promises a session: when a start gets a connection and which one, that
 every connection in use was really made, and that nobody takes it away before it is unlocked.
 */
module DaemonConnections {
  import opened DaemonProtocol
  import opened Wrappers

  // ----- Start and unlock -----

  /**
   A start of a session that has a context succeeds at once and marks it as in use.  A session that is
   marked so without a context is refused; any other goes on to a pass.
   */
  lemma StartOutcome(st: State, s: Session, rs: bool)
    requires Enabled(st, Start(s, rs))
    ensures var n := Next(st, Start(s, rs));
            && (s in st.locals && st.locals[s].ctx.Some? ==>
                  && n == st.(locals := n.locals)
                  && n.locals == st.locals[s := Local(st.locals[s].ctx, true, st.locals[s].invalid)])
            && (s in st.locals && st.locals[s].ctx == None && st.locals[s].inUse ==> n == st)
            && ((s in st.locals ==> st.locals[s].ctx == None && !st.locals[s].inUse) ==>
                  n.PcOf(s) == AtAgain(rs) && n.locals == st.locals)
  {
  }

  /** An unlock ends the use: the session keeps its context, unless this became invalid and is released. */
  lemma UnlockOutcome(st: State, s: Session)
    requires Enabled(st, Unlock(s))
    ensures var l, n := st.locals[s], Next(st, Unlock(s));
            && n.locals == st.locals[s := Local(if l.invalid then None else l.ctx, false, false)]
            && n.released == st.released + (if l.invalid && l.ctx.Some? then {l.ctx.value} else {})
            && n.primary == st.primary && n.reusable == st.reusable && n.pcs == st.pcs
  {
  }

  /** A reset drops the record; the primary connection is parked, any other is released. */
  lemma ResetOutcome(st: State, s: Session)
    requires Enabled(st, Reset(s)) && s in st.locals
    ensures var c, n := st.locals[s].ctx, Next(st, Reset(s));
            && n.locals == st.locals - {s} && n.primary == st.primary
            && n.reusable == (st.reusable || (c.Some? && c == st.primary))
            && n.released == st.released + (if c.Some? && c != st.primary then {c.value} else {})
  {
    hide Unlinked;
  }

  // ----- One pass -----

  /** A parked primary connection is there and will do. */
  predicate CanReuse(st: State, s: Session) {
    st.primary.Some? && st.reusable && st.PcOf(s) == AtAgain(false)
  }

  /**
   How a pass ends for its session.  It fails if and only if nothing is parked for it and the socket
   cannot be connected, or there is no socket and a primary connection exists or its launch is
   refused.  It gets the new context if and only if that was connected, or if there was neither socket
   nor primary connection and the home directory could not be named.
   */
  lemma PassOutcome(st: State, s: Session, c: Ctx, outcome: Outcome)
    requires Inv(st) && Enabled(st, Again(s, c, outcome))
    ensures var n := Next(st, Again(s, c, outcome));
            && s in n.locals && n.locals[s].inUse
            && (n.PcOf(s) == Failing(c) <==>
                !CanReuse(st, s) && if st.socket then !outcome.Connected? else st.primary.Some? || outcome.Refused?)
            && (n.PcOf(s) != Failing(c) ==>
                  && n.locals[s].ctx.Some? && !n.locals[s].invalid
                  && n.PcOf(s) == if st.PcOf(s).requireSocket then Checking(n.locals[s].ctx.value) else Idle)
            && (n.locals[s].ctx == Some(c) <==>
                && !CanReuse(st, s)
                && if outcome.Connected? then st.socket || st.primary == None
                   else outcome.NoHomedir? && !st.socket && st.primary == None)
            && (CanReuse(st, s) ==> n.locals[s].ctx == st.primary)
            && (n.PcOf(s) == Failing(c) ==> n.locals[s].ctx == if s in st.locals then st.locals[s].ctx else None)
  {
    Unknown(st, s, c);
    PassEnds(st, s, st.PcOf(s).requireSocket, c, outcome);
    hide Inv, AgainStep;
  }

  /** The two fields of the session after each decision. */
  lemma PassEnds(st: State, s: Session, rs: bool, c: Ctx, outcome: Outcome)
    ensures var n := AgainStep(st, s, rs, c, outcome);
            && s in n.locals
            && match Decide(st, rs, outcome)
               case Unusable =>
                 && n.locals[s].inUse && n.locals[s].ctx == (if s in st.locals then st.locals[s].ctx else None)
                 && n.PcOf(s) == Failing(c)
               case Reuse =>
                 && st.primary.Some? && n.locals[s] == Local(st.primary, true, false)
                 && n.PcOf(s) == if rs then Checking(st.primary.value) else Idle
               case _ => n.locals[s] == Local(Some(c), true, false) && n.PcOf(s) == if rs then Checking(c) else Idle
  {
    assert Decide(st, rs, outcome).Reuse? ==> st.primary.Some?;
    hide *;
    AgainStepIs(st, s, rs, c, outcome);
    EnterFacts(st, s);
    var e := Enter(st, s);
    var x := e.(created := st.created + {c});
    match Decide(st, rs, outcome)
    case Reuse => EndOf(e.(reusable := false), s, st.primary.value, rs);
    case Launch(name) => EndOf(x.(primary := Some(c), reusable := false, socket := name), s, c, rs);
    case _ => EndOf(x, s, c, rs);
  }

  lemma Unknown(st: State, s: Session, c: Ctx)
    requires Inv(st) && c !in st.created
    ensures s in st.locals ==> st.locals[s].ctx != Some(c)
    ensures st.primary != Some(c)
  {
  }

  lemma EnterFacts(st: State, s: Session)
    ensures var e := Enter(st, s);
            && s in e.locals && e.locals[s].inUse
            && e.locals[s].ctx == (if s in st.locals then st.locals[s].ctx else None)
            && e.primary == st.primary && e.reusable == st.reusable && e.socket == st.socket
            && e.created == st.created && e.released == st.released
  {
  }

  /** The two ways out of a pass. */
  lemma EndOf(x: State, s: Session, c: Ctx, rs: bool)
    requires s in x.locals
    ensures var n := Succeed(x, s, c, rs);
            && s in n.locals && n.locals[s] == Local(Some(c), x.locals[s].inUse, false)
            && n.PcOf(s) == (if rs then Checking(c) else Idle)
    ensures At(x, s, Failing(c)).locals == x.locals && At(x, s, Failing(c)).PcOf(s) == Failing(c)
    ensures Succeed(x, s, c, rs) == x.(locals := Succeed(x, s, c, rs).locals, pcs := Succeed(x, s, c, rs).pcs)
    ensures At(x, s, Failing(c)) == x.(pcs := At(x, s, Failing(c)).pcs)
  {
  }

  /**
   What a pass leaves for the others: a reused connection is not parked any more, and a new one
   becomes the primary if and only if it was launched, which also decides whether there is a socket.
   */
  lemma PassShares(st: State, s: Session, c: Ctx, outcome: Outcome)
    requires Inv(st) && Enabled(st, Again(s, c, outcome))
    ensures var n := Next(st, Again(s, c, outcome));
            var launched := st.primary == None && !st.socket && outcome.Connected?;
            && n.primary == (if launched then Some(c) else st.primary)
            && n.socket == (if launched then outcome.socketName else st.socket)
            && (n.reusable <==> st.reusable && !CanReuse(st, s))
            && n.created == (if CanReuse(st, s) then st.created else st.created + {c}) && n.released == st.released
  {
    var rs := st.PcOf(s).requireSocket;
    assert st.reusable ==> st.primary.Some?;
    hide AgainStep, Enter, Inv, Succeed, At;
    AgainStepIs(st, s, rs, c, outcome);
    EnterFacts(st, s);
    var e := Enter(st, s);
    var x := e.(created := st.created + {c});
    EndOf(x, s, c, rs);
    EndOf(x.(primary := Some(c), reusable := false, socket := outcome.Connected? && outcome.socketName), s, c, rs);
    if CanReuse(st, s) {
      EndOf(e.(reusable := false), s, st.primary.value, rs);
    }
  }

  // ----- Every connection was made -----

  /** The contexts that a pass of the run may have connected. */
  ghost function Made(steps: seq<Step>): set<Ctx> {
    if steps == [] then {}
    else (if steps[0].Again? && !steps[0].outcome.Refused? then {steps[0].ctx} else {}) + Made(steps[1..])
  }

  lemma {:induction false} MadeIs(steps: seq<Step>, c: Ctx)
    ensures c in Made(steps) ==>
              exists i :: 0 <= i < |steps| && steps[i].Again? && steps[i].ctx == c && !steps[i].outcome.Refused?
  {
    if c in Made(steps) {
      if steps[0].Again? && !steps[0].outcome.Refused? && c == steps[0].ctx {
      } else {
        MadeIs(steps[1..], c);
        var i :| 0 <= i < |steps[1..]| && steps[1..][i].Again? && steps[1..][i].ctx == c && !steps[1..][i].outcome.Refused?;
        assert steps[i + 1] == steps[1..][i];
      }
    }
  }

  /** Whatever is held by a session or is the primary connection is among `made`. */
  ghost predicate Within(st: State, made: set<Ctx>) {
    && (forall s :: s in st.locals && st.locals[s].ctx.Some? ==> st.locals[s].ctx.value in made)
    && (st.primary.Some? ==> st.primary.value in made)
  }

  lemma SetWithin(st: State, s: Session, l: Local, made: set<Ctx>)
    requires Within(st, made) && (l.ctx.Some? ==> l.ctx.value in made)
    ensures Within(SetLocal(st, s, l), made)
  {
  }

  /** Steps that give out no context. */
  lemma SameWithin(st: State, st': State, made: set<Ctx>)
    requires Within(st, made) && st'.locals == st.locals && (st'.primary == st.primary || st'.primary == None)
    ensures Within(st', made)
  {
  }

  lemma UnlockWithin(st: State, s: Session, made: set<Ctx>)
    requires Within(st, made) && s in st.locals
    ensures Within(UnlockLocal(st, s), made)
  {
    hide Within;
    var l := st.locals[s];
    SameWithin(st, Release(st, l.ctx), made);
    HeldWithin(st, s, made);
    SetWithin(Release(st, l.ctx), s, Local(None, false, false), made);
    SetWithin(st, s, l.(inUse := false), made);
  }

  lemma HeldWithin(st: State, s: Session, made: set<Ctx>)
    requires Within(st, made) && s in st.locals
    ensures st.locals[s].ctx.Some? ==> st.locals[s].ctx.value in made
  {
  }

  lemma InvalidateWithin(st: State, s: Session, made: set<Ctx>)
    requires Within(st, made) && s in st.locals
    ensures Within(Invalidate(st, s), made)
  {
    hide Within;
    var l := st.locals[s];
    SameWithin(st, Release(st, l.ctx), made);
    HeldWithin(st, s, made);
    SetWithin(Release(st, l.ctx), s, Local(None, false, true), made);
    SetWithin(st, s, l.(invalid := true), made);
  }

  lemma {:induction false} InvalidateAllWithin(st: State, todo: seq<Session>, made: set<Ctx>)
    requires Within(st, made) && forall s :: s in todo ==> s in st.locals
    ensures Within(InvalidateAll(st, todo), made)
    decreases todo
  {
    if todo != [] {
      assert todo[0] in todo;
      assert Invalidate(st, todo[0]).locals.Keys == st.locals.Keys;
      hide Within, Invalidate;
      InvalidateWithin(st, todo[0], made);
      InvalidateAllWithin(Invalidate(st, todo[0]), todo[1..], made);
    }
  }

  lemma ResetWithin(st: State, s: Session, made: set<Ctx>)
    requires Within(st, made)
    ensures Within(ResetStep(st, s), made)
  {
    hide Unlinked;
  }

  lemma AgainWithin(st: State, s: Session, c: Ctx, outcome: Outcome, made: set<Ctx>)
    requires Inv(st) && Enabled(st, Again(s, c, outcome)) && Within(st, made)
    ensures Within(Next(st, Again(s, c, outcome)), if outcome.Refused? then made else made + {c})
  {
    var n := Next(st, Again(s, c, outcome));
    PassOutcome(st, s, c, outcome);
    PassShares(st, s, c, outcome);
    var rs := st.PcOf(s).requireSocket;
    AgainTouchesOnly(st, s, rs, c, outcome);
    assert n == AgainStep(st, s, rs, c, outcome);
    hide AgainStep, Inv, Next, Enabled;
    forall t | t in n.locals && n.locals[t].ctx.Some?
      ensures n.locals[t].ctx.value in if outcome.Refused? then made else made + {c}
    {
      if t != s {
        assert t in st.locals && n.locals[t] == st.locals[t];
      }
    }
  }

  lemma StepWithin(st: State, step: Step, made: set<Ctx>)
    requires Inv(st) && Enabled(st, step) && Within(st, made)
    ensures Within(Next(st, step), if step.Again? && !step.outcome.Refused? then made + {step.ctx} else made)
  {
    hide Inv, Within, StartStep, AgainStep, ResetStep, DeathStep, UnlockLocal;
    match step
    case Start(s, rs) => StartWithin(st, s, rs, made);
    case Again(s, c, outcome) => AgainWithin(st, s, c, outcome, made);
    case Check(s) => SameWithin(st, Next(st, step), made);
    case Retry(s) =>
      UnlockWithin(st, s, made);
      SameWithin(UnlockLocal(st, s), Next(st, step), made);
    case FailFinish(s) =>
      UnlockWithin(st, s, made);
      SameWithin(UnlockLocal(st, s), Next(st, step), made);
    case Unlock(s) => UnlockWithin(st, s, made);
    case Reset(s) => ResetWithin(st, s, made);
    case Death => DeathWithin(st, made);
  }

  lemma DeathWithin(st: State, made: set<Ctx>)
    requires Enabled(st, Death) && Within(st, made)
    ensures Within(DeathStep(st), made)
  {
    hide Within, InvalidateAll;
    InvalidateAllWithin(st, st.list, made);
    SameWithin(InvalidateAll(st, st.list), DeathStep(st), made);
  }

  lemma StartWithin(st: State, s: Session, rs: bool, made: set<Ctx>)
    requires Within(st, made)
    ensures Within(StartStep(st, s, rs), made)
  {
    if s in st.locals {
      SetWithin(st, s, st.locals[s].(inUse := true), made);
    }
  }

  lemma {:induction false} RunWithin(st: State, steps: seq<Step>, made: set<Ctx>)
    requires Inv(st) && IsRun(st, steps) && Within(st, made)
    ensures Within(After(st, steps), made + Made(steps))
    decreases steps
  {
    if steps == [] {
      assert made + Made(steps) == made;
    } else {
      var step := steps[0];
      var more := if step.Again? && !step.outcome.Refused? then made + {step.ctx} else made;
      assert made + Made(steps) == more + Made(steps[1..]);
      hide Inv, Next, Within, Enabled, Made;
      StepKeeps(st, step);
      StepWithin(st, step, made);
      RunWithin(Next(st, step), steps[1..], more);
    }
  }

  /**
   In every run a context that a session holds, or that is the primary connection, parked or not, was
   connected by a pass of the run; or that pass had no name for the home directory.
   */
  lemma EveryConnectionWasMade(steps: seq<Step>, c: Ctx)
    requires IsRun(INIT, steps)
    requires var st := After(INIT, steps);
             (exists s :: s in st.locals && st.locals[s].ctx == Some(c)) || st.primary == Some(c)
    ensures exists i :: 0 <= i < |steps| && steps[i].Again? && steps[i].ctx == c && !steps[i].outcome.Refused?
    ensures (forall i :: 0 <= i < |steps| && steps[i].Again? ==> !steps[i].outcome.NoHomedir?) ==>
              exists i :: 0 <= i < |steps| && steps[i].Again? && steps[i].ctx == c && steps[i].outcome.Connected?
  {
    assert Inv(INIT) && Within(INIT, {});
    RunWithin(INIT, steps, {});
    assert {} + Made(steps) == Made(steps);
    MadeIs(steps, c);
    hide After, IsRun;
    var i :| 0 <= i < |steps| && steps[i].Again? && steps[i].ctx == c && !steps[i].outcome.Refused?;
  }

  // ----- A connection in use -----

  /** The session is in use of the context `c`. */
  ghost predicate Uses(st: State, s: Session, c: Ctx) {
    s in st.locals && st.locals[s].inUse && st.locals[s].ctx == Some(c)
  }

  ghost predicate ByOther(step: Step, s: Session) {
    step.Death? || step.s != s
  }

  lemma InvalidateUses(st: State, t: Session, s: Session, c: Ctx)
    requires t in st.locals && Uses(st, s, c)
    ensures Uses(Invalidate(st, t), s, c)
  {
  }

  lemma {:induction false} InvalidateAllUses(st: State, todo: seq<Session>, s: Session, c: Ctx)
    requires Uses(st, s, c) && forall t :: t in todo ==> t in st.locals
    ensures Uses(InvalidateAll(st, todo), s, c)
    decreases todo
  {
    if todo != [] {
      assert todo[0] in todo;
      assert Invalidate(st, todo[0]).locals.Keys == st.locals.Keys;
      hide Uses, Invalidate;
      InvalidateUses(st, todo[0], s, c);
      InvalidateAllUses(Invalidate(st, todo[0]), todo[1..], s, c);
    }
  }

  /** Whatever other sessions and the watcher do, a context in use stays with its session and is not released. */
  lemma UseIsKept(st: State, step: Step, s: Session, c: Ctx)
    requires Inv(st) && Enabled(st, step) && Uses(st, s, c) && ByOther(step, s)
    ensures Uses(Next(st, step), s, c) && c !in Next(st, step).released
  {
    StepKeeps(st, step);
    OtherKeepsUse(st, step, s, c);
    UsedIsLive(Next(st, step), s, c);
  }

  lemma UsedIsLive(st: State, s: Session, c: Ctx)
    requires Inv(st) && Uses(st, s, c)
    ensures c !in st.released
  {
  }

  lemma OtherKeepsUse(st: State, step: Step, s: Session, c: Ctx)
    requires Enabled(st, step) && Uses(st, s, c) && ByOther(step, s)
    ensures Uses(Next(st, step), s, c)
  {
    hide Uses, StartStep, AgainStep, ResetStep, DeathStep, UnlockLocal;
    match step
    case Start(t, rs) => StartSpares(st, t, rs, s, c);
    case Again(t, n, outcome) => AgainSpares(st, t, n, outcome, s, c);
    case Check(t) => SameUses(st, Next(st, step), s, c);
    case Retry(t) =>
      UnlockSpares(st, t, s, c);
      SameUses(UnlockLocal(st, t), Next(st, step), s, c);
    case FailFinish(t) =>
      UnlockSpares(st, t, s, c);
      SameUses(UnlockLocal(st, t), Next(st, step), s, c);
    case Unlock(t) => UnlockSpares(st, t, s, c);
    case Reset(t) => ResetSpares(st, t, s, c);
    case Death => DeathSpares(st, s, c);
  }

  lemma StartSpares(st: State, t: Session, rs: bool, s: Session, c: Ctx)
    requires Uses(st, s, c) && t != s
    ensures Uses(StartStep(st, t, rs), s, c)
  {
  }

  lemma AgainSpares(st: State, t: Session, n: Ctx, outcome: Outcome, s: Session, c: Ctx)
    requires st.PcOf(t).AtAgain? && Uses(st, s, c) && t != s
    ensures Uses(AgainStep(st, t, st.PcOf(t).requireSocket, n, outcome), s, c)
  {
    hide AgainStep;
    AgainTouchesOnly(st, t, st.PcOf(t).requireSocket, n, outcome);
  }

  lemma UnlockSpares(st: State, t: Session, s: Session, c: Ctx)
    requires t in st.locals && Uses(st, s, c) && t != s
    ensures Uses(UnlockLocal(st, t), s, c)
  {
  }

  lemma ResetSpares(st: State, t: Session, s: Session, c: Ctx)
    requires Uses(st, s, c) && t != s
    ensures Uses(ResetStep(st, t), s, c)
  {
    hide Unlinked;
  }

  lemma DeathSpares(st: State, s: Session, c: Ctx)
    requires Enabled(st, Death) && Uses(st, s, c)
    ensures Uses(DeathStep(st), s, c)
  {
    hide Uses, InvalidateAll;
    InvalidateAllUses(st, st.list, s, c);
    SameUses(InvalidateAll(st, st.list), DeathStep(st), s, c);
  }

  lemma SameUses(st: State, st': State, s: Session, c: Ctx)
    requires Uses(st, s, c) && st'.locals == st.locals
    ensures Uses(st', s, c)
  {
  }

  /** The same for any number of such steps. */
  lemma {:induction false} UseIsKeptInRun(st: State, steps: seq<Step>, s: Session, c: Ctx)
    requires Inv(st) && IsRun(st, steps) && Uses(st, s, c)
    requires forall i :: 0 <= i < |steps| ==> ByOther(steps[i], s)
    ensures Uses(After(st, steps), s, c) && c !in After(st, steps).released
    decreases steps
  {
    if steps == [] {
      UsedIsLive(st, s, c);
    } else {
      hide Inv, Next, Uses, Enabled, ByOther;
      StepKeeps(st, steps[0]);
      UseIsKept(st, steps[0], s, c);
      assert forall i :: 0 <= i < |steps[1..]| ==> steps[1..][i] == steps[i + 1];
      UseIsKeptInRun(Next(st, steps[0]), steps[1..], s, c);
    }
  }

  /**
   In every run a start that insisted on a socket ends with its session in use of a connection that is
   not the primary one, and goes round again if and only if it got the primary one.
   */
  lemma SocketIsNotPrimary(steps: seq<Step>, s: Session)
    requires IsRun(INIT, steps) && Enabled(After(INIT, steps), Check(s))
    ensures var st := After(INIT, steps);
            var n := Next(st, Check(s));
            && s in n.locals && n.locals == st.locals && n.locals[s].inUse && n.locals[s].ctx.Some?
            && n.PcOf(s) == if n.locals[s].ctx == n.primary then Retrying else Idle
  {
    assert SocketOk(INIT) && Inv(INIT);
    SocketRun(INIT, steps);
    RunKeeps(INIT, steps);
    hide IsRun, After;
    WayOf(After(INIT, steps), s);
  }

  // ----- The end of the daemon -----

  /** What becomes of the record of a session. */
  function Ended(l: Local): Local {
    if l.inUse then Local(l.ctx, true, true) else Local(None, false, true)
  }

  lemma InvalidateOne(st: State, t: Session, s: Session)
    requires t in st.locals && s in st.locals
    ensures var n := Invalidate(st, t);
            n.locals.Keys == st.locals.Keys && n.locals[s] == if t == s then Ended(st.locals[s]) else st.locals[s]
  {
    SameLocals(st, st.locals[t].ctx);
    hide Release;
  }

  lemma SameLocals(st: State, c: Option<Ctx>)
    ensures Release(st, c).locals == st.locals && Release(st, c).pcs == st.pcs
  {
  }

  lemma Dropped(st: State)
    ensures var n := DropPrimary(st);
            n.locals == st.locals && n.pcs == st.pcs && n.primary == None && !n.reusable && !n.socket
  {
    SameLocals(st, st.primary);
    hide Release;
  }

  lemma {:induction false} InvalidatedAll(st: State, todo: seq<Session>, s: Session)
    requires (forall t :: t in todo ==> t in st.locals) && s in st.locals
    ensures InvalidateAll(st, todo).locals[s] == if s in todo then Ended(st.locals[s]) else st.locals[s]
    decreases todo
  {
    if todo != [] {
      assert todo[0] in todo;
      var next := Invalidate(st, todo[0]);
      InvalidateOne(st, todo[0], s);
      assert s in todo <==> s == todo[0] || s in todo[1..];
      assert Ended(Ended(st.locals[s])) == Ended(st.locals[s]);
      assert InvalidateAll(st, todo) == InvalidateAll(next, todo[1..]);
      hide Invalidate, InvalidateAll, Ended;
      InvalidatedAll(next, todo[1..], s);
    }
  }

  /**
   When the daemon ends, every idle session loses its context and every session in use keeps it, marked
   as invalid; the primary connection and the socket are forgotten.
   */
  lemma DeathInvalidates(st: State, s: Session)
    requires Inv(st) && s in st.locals
    ensures Enabled(st, Death)
    ensures var l, n := st.locals[s], Next(st, Death);
            && s in n.locals
            && n.locals[s] == (if l.inUse then Local(l.ctx, true, true) else Local(None, false, true))
            && n.primary == None && !n.reusable && !n.socket
  {
    Listed(st, s);
    hide Inv, InvalidateAll, DropPrimary;
    InvalidatedAll(st, st.list, s);
    Dropped(InvalidateAll(st, st.list));
  }

  lemma Listed(st: State, s: Session)
    requires Inv(st)
    ensures s in st.locals ==> s in st.list
    ensures forall t :: t in st.list ==> t in st.locals
  {
  }

  /** A session that was in use when the daemon ended gives its context back when it unlocks. */
  lemma DeathEndsUse(st: State, s: Session, c: Ctx)
    requires Inv(st) && Uses(st, s, c) && st.PcOf(s) == Idle
    ensures Enabled(st, Death) && Enabled(Next(st, Death), Unlock(s))
    ensures var n := Next(Next(st, Death), Unlock(s));
            s in n.locals && n.locals[s] == Local(None, false, false) && c in n.released
  {
    DeathInvalidates(st, s);
    SamePcs(st);
    var d := Next(st, Death);
    assert d.PcOf(s) == Idle;
    assert d.locals[s] == Local(Some(c), true, true);
    hide Inv, DeathStep;
  }

  lemma SamePcs(st: State)
    requires Enabled(st, Death)
    ensures Next(st, Death).pcs == st.pcs
  {
    hide InvalidateAll;
    InvalidateAllPcs(st, st.list);
  }

  lemma {:induction false} InvalidateAllPcs(st: State, todo: seq<Session>)
    requires forall t :: t in todo ==> t in st.locals
    ensures InvalidateAll(st, todo).pcs == st.pcs
    decreases todo
  {
    if todo != [] {
      assert todo[0] in todo;
      InvalidateOne(st, todo[0], todo[0]);
      assert Invalidate(st, todo[0]).pcs == st.pcs;
      hide Invalidate;
      InvalidateAllPcs(Invalidate(st, todo[0]), todo[1..]);
    }
  }
}
