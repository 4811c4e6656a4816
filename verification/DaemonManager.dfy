/**
 The records of the connection manager and the procedures that change them.  Each procedure is what
 runs under `start_daemon_lock`, and is proved to take the corresponding step of the protocol.
 */
module DaemonManager {
  import opened DaemonConnections
  import opened Wrappers
  import opened DaemonProtocol

  const GPG_ERR_INTERNAL := 63

  /** How the choice of a connection changes the records shared by the sessions. */
  function Chosen(st: State, decision: Decision, c: Ctx): State {
    match decision
    case Reuse => st.(reusable := false)
    case Launch(name) => st.(created := st.created + {c}, primary := Some(c), reusable := false, socket := name)
    case _ => st.(created := st.created + {c})
  }

  lemma EnterKeepsChoice(st: State, s: Session, requireSocket: bool, outcome: Outcome)
    ensures Decide(Enter(st, s), requireSocket, outcome) == Decide(st, requireSocket, outcome)
    ensures Reuses(Enter(st, s), requireSocket) == Reuses(st, requireSocket)
    ensures Enter(st, s).primary == st.primary && Enter(st, s).created == st.created && s in Enter(st, s).locals
    ensures Decide(st, requireSocket, outcome) == Reuse <==> Reuses(st, requireSocket)
  {
  }

  lemma ChosenIsAgain(st: State, s: Session, requireSocket: bool, c: Ctx, outcome: Outcome)
    ensures var decision := Decide(st, requireSocket, outcome);
            var chosen := Chosen(Enter(st, s), decision, c);
            && s in chosen.locals
            && AgainStep(st, s, requireSocket, c, outcome) ==
               if decision.Unusable? then At(chosen, s, Failing(c))
               else Succeed(chosen, s, if decision.Reuse? then st.primary.value else c, requireSocket)
  {
    hide Enter, Decide, AgainStep, At, Succeed;
    AgainStepIs(st, s, requireSocket, c, outcome);
    DecideFacts(st, requireSocket, outcome);
  }

  lemma StartIs(st: State, s: Session, requireSocket: bool)
    requires Enabled(st, Start(s, requireSocket))
    ensures Next(st, Start(s, requireSocket)) ==
            if s in st.locals && st.locals[s].ctx.Some? then SetLocal(st, s, st.locals[s].(inUse := true))
            else if s in st.locals && st.locals[s].inUse then st
            else st.(pcs := st.pcs[s := AtAgain(requireSocket)], socketUsed := st.socketUsed || requireSocket)
  {
  }

  lemma NextAgain(st: State, s: Session, requireSocket: bool, c: Ctx, outcome: Outcome)
    requires st.PcOf(s) == AtAgain(requireSocket) && c !in st.created
    ensures Enabled(st, Again(s, c, outcome))
    ensures Next(st, Again(s, c, outcome)) == AgainStep(st, s, requireSocket, c, outcome)
  {
    hide AgainStep;
  }

  lemma NextRetry(st: State, s: Session)
    requires Inv(st) && st.PcOf(s) == Retrying
    ensures s in st.locals && Enabled(st, Retry(s)) && Next(st, Retry(s)) == At(UnlockLocal(st, s), s, AtAgain(true))
  {
  }

  lemma NextReset(st: State, s: Session)
    requires Inv(st) && st.PcOf(s) == Idle
    ensures Enabled(st, Reset(s)) && Next(st, Reset(s)) == ResetStep(st, s)
    ensures s in st.locals ==> s in st.list
  {
    hide ResetStep;
  }

  lemma NextFailFinish(st: State, s: Session, c: Ctx)
    requires Inv(st) && st.PcOf(s) == Failing(c)
    ensures Enabled(st, FailFinish(s))
    ensures Next(st, FailFinish(s)) == At(Release(UnlockLocal(st, s), Some(c)), s, Idle)
  {
    hide Release, UnlockLocal, At;
  }

  lemma SetReleaseSet(st: State, s: Session, first: Local, second: Local)
    ensures SetLocal(Release(SetLocal(st, s, first), first.ctx), s, second) == SetLocal(Release(st, first.ctx), s, second)
  {
    assert st.locals[s := first][s := second] == st.locals[s := second];
  }

  lemma AtIs(st: State, s: Session, pc: Pc)
    ensures At(st, s, pc) == st.(pcs := st.pcs[s := pc])
  {
  }

  lemma DeathEnabled(st: State)
    requires Inv(st)
    ensures Enabled(st, Death)
  {
  }

  lemma InvalidateAllFirst(st: State, todo: seq<Session>)
    requires todo != [] && forall s :: s in todo ==> s in st.locals
    ensures todo[0] in st.locals && Invalidate(st, todo[0]).locals.Keys == st.locals.Keys
    ensures InvalidateAll(st, todo) == InvalidateAll(Invalidate(st, todo[0]), todo[1..])
  {
    assert todo[0] in todo;
  }

  lemma InvalidateAllNone(st: State)
    ensures InvalidateAll(st, []) == st
  {
  }

  /** A search that stops in front of `s` and takes it out of the list gives the unlinked list. */
  lemma {:induction false} UnlinkedAt(list: seq<Session>, s: Session, i: nat)
    requires i < |list| && list[i] == s && s !in list[..i]
    ensures Unlinked(list, s) == list[..i] + list[i + 1..]
  {
    if i == 0 {
      assert list[..0] + list[1..] == list[1..];
    } else {
      assert list[0] == list[..i][0];
      assert list[1..][..i - 1] == list[..i][1..];
      UnlinkedAt(list[1..], s, i - 1);
      assert list[..i] + list[i + 1..] == [list[0]] + (list[1..][..i - 1] + list[1..][i..]);
    }
  }

  class Manager {
    var locals: map<Session, Local>
    var localList: seq<Session>
    var socketName: bool
    var primaryCtx: Option<Ctx>
    var primaryCtxReusable: bool
    ghost var pcs: map<Session, Pc>
    ghost var created: set<Ctx>
    ghost var released: set<Ctx>
    ghost var twice: bool
    ghost var socketUsed: bool

    ghost function View(): State
      reads this
    {
      State(locals, localList, socketName, primaryCtx, primaryCtxReusable, pcs, created, released, twice, socketUsed)
    }

    constructor ()
      ensures View() == INIT && Inv(View())
    {
      locals, localList, socketName, primaryCtx, primaryCtxReusable := map[], [], false, None, false;
      pcs, created, released, twice, socketUsed := map[], {}, {}, false, false;
    }

    /** `assuan_release`, which accepts a null context. */
    method AssuanRelease(c: Option<Ctx>)
      modifies this`released, this`twice
      ensures View() == Release(old(View()), c)
    {
      if c.Some? {
        twice := twice || c.value in released;
        released := released + {c.value};
      }
    }

    method SetRecord(s: Session, l: Local)
      modifies this`locals
      ensures View() == SetLocal(old(View()), s, l)
    {
      locals := locals[s := l];
    }

    // ----- wait_child_thread -----

    method InvalidateRecord(s: Session)
      requires s in locals
      modifies this`locals, this`released, this`twice
      ensures View() == Invalidate(old(View()), s)
    {
      var l := locals[s].(invalid := true);
      SetRecord(s, l);
      if !l.inUse && l.ctx.Some? {
        AssuanRelease(l.ctx);
        SetRecord(s, l.(ctx := None));
      }
    }

    method InvalidateRecords()
      requires forall s :: s in localList ==> s in locals
      modifies this`locals, this`released, this`twice
      ensures View() == InvalidateAll(old(View()), old(localList))
    {
      hide Invalidate, InvalidateAll;
      ghost var before := View();
      var i := 0;
      assert before.list[0..] == before.list;
      while i < |localList|
        invariant 0 <= i <= |localList| && localList == before.list && locals.Keys == before.locals.Keys
        invariant InvalidateAll(View(), before.list[i..]) == InvalidateAll(before, before.list)
      {
        assert before.list[i..][0] == localList[i] && before.list[i..][1..] == before.list[i + 1..];
        InvalidateAllFirst(View(), before.list[i..]);
        InvalidateRecord(localList[i]);
        i := i + 1;
      }
      assert before.list[i..] == [];
      InvalidateAllNone(View());
    }

    method DropPrimaryCtx()
      modifies this`primaryCtx, this`primaryCtxReusable, this`socketName, this`released, this`twice
      ensures View() == DropPrimary(old(View()))
    {
      if primaryCtxReusable {
        AssuanRelease(primaryCtx);
      }
      primaryCtx, primaryCtxReusable, socketName := None, false, false;
    }

    method WaitChildThread()
      requires Inv(View())
      modifies this
      ensures Enabled(old(View()), Death) && View() == Next(old(View()), Death) && Inv(View())
    {
      DeathEnabled(View());
      hide Inv, InvalidateAll, DropPrimary;
      StepKeeps(View(), Death);
      InvalidateRecords();
      DropPrimaryCtx();
    }

    // ----- daemon_unlock -----

    method UnlockRecord(s: Session)
      requires s in locals
      modifies this`locals, this`released, this`twice
      ensures View() == UnlockLocal(old(View()), s)
    {
      hide Release;
      ghost var before := View();
      var l := locals[s].(inUse := false);
      SetRecord(s, l);
      if l.invalid {
        AssuanRelease(l.ctx);
        SetRecord(s, l.(ctx := None, invalid := false));
        SetReleaseSet(before, s, l, l.(ctx := None, invalid := false));
      }
    }

    /** `rc` is passed through unless it is zero and the record was not in use. */
    method DaemonUnlock(s: Session, rc: int) returns (r: int)
      requires s in locals
      modifies this`locals, this`released, this`twice
      ensures View() == UnlockLocal(old(View()), s)
      ensures r == if rc == 0 && !old(locals)[s].inUse then GPG_ERR_INTERNAL else rc
    {
      hide UnlockLocal;
      r := rc;
      if !locals[s].inUse && r == 0 {
        r := GPG_ERR_INTERNAL;
      }
      UnlockRecord(s);
    }

    // ----- daemon_start -----

    /** The checks in front of the label `again`; without an answer the pass follows. */
    method Begin(s: Session, requireSocket: bool) returns (answer: Option<int>)
      requires Inv(View()) && Enabled(View(), Start(s, requireSocket))
      modifies this
      ensures View() == Next(old(View()), Start(s, requireSocket)) && Inv(View())
      ensures answer == if s !in old(locals) then None
                        else if old(locals)[s].ctx.Some? then Some(0)
                        else if old(locals)[s].inUse then Some(GPG_ERR_INTERNAL)
                        else None
      ensures answer == None <==> View().PcOf(s) == AtAgain(requireSocket)
    {
      hide Inv, Next;
      StepKeeps(View(), Start(s, requireSocket));
      StartIs(View(), s, requireSocket);
      if s in locals && locals[s].ctx.Some? {
        SetRecord(s, locals[s].(inUse := true));
        return Some(0);
      }
      if s in locals && locals[s].inUse {
        return Some(GPG_ERR_INTERNAL);
      }
      answer := None;
      pcs, socketUsed := pcs[s := AtAgain(requireSocket)], socketUsed || requireSocket;
    }

    method Setup(s: Session)
      modifies this`locals, this`localList
      ensures View() == Enter(old(View()), s)
    {
      if s !in locals {
        locals, localList := locals[s := Local(None, false, false)], [s] + localList;
      }
      SetRecord(s, locals[s].(inUse := true));
    }

    /** Choose a connection, or fail; `ctx` is what `assuan_new` gives if it is called. */
    method Connect(requireSocket: bool, newCtx: Ctx, outcome: Outcome) returns (ctx: Ctx, failed: bool)
      modifies this`socketName, this`primaryCtx, this`primaryCtxReusable, this`created
      ensures View() == Chosen(old(View()), Decide(old(View()), requireSocket, outcome), newCtx)
      ensures failed == Decide(old(View()), requireSocket, outcome).Unusable?
      ensures failed <==>
              && !(old(primaryCtx).Some? && old(primaryCtxReusable) && !requireSocket)
              && if old(socketName) then !outcome.Connected? else old(primaryCtx).Some? || outcome.Refused?
      ensures Some(ctx) == if Reuses(old(View()), requireSocket) then old(primaryCtx) else Some(newCtx)
    {
      if primaryCtx.Some? && primaryCtxReusable && !requireSocket {
        ctx, failed := primaryCtx.value, false;
        primaryCtxReusable := false;
        return;
      }
      ctx := newCtx;
      created := created + {ctx};
      if socketName {
        failed := !outcome.Connected?;
        return;
      }
      if primaryCtx.Some? {
        failed := true;
        return;
      }
      match outcome
      case Refused => failed := true;
      case NoHomedir => failed := false;
      case Connected(name) =>
        failed, socketName := false, name;
        primaryCtx, primaryCtxReusable := Some(ctx), false;
    }

    /** From the label `again` to the release of the lock. */
    method Pass(s: Session, requireSocket: bool, newCtx: Ctx, outcome: Outcome) returns (ctx: Ctx, failed: bool)
      requires Inv(View()) && View().PcOf(s) == AtAgain(requireSocket) && newCtx !in created
      modifies this
      ensures Enabled(old(View()), Again(s, newCtx, outcome))
      ensures View() == Next(old(View()), Again(s, newCtx, outcome)) && Inv(View())
      ensures View().PcOf(s) == if failed then Failing(ctx) else if requireSocket then Checking(ctx) else Idle
      ensures !failed ==> s in locals && locals[s] == Local(Some(ctx), true, false)
      ensures failed <==>
              && !(old(primaryCtx).Some? && old(primaryCtxReusable) && !requireSocket)
              && if old(socketName) then !outcome.Connected? else old(primaryCtx).Some? || outcome.Refused?
    {
      ghost var before := View();
      ctx, failed := PassUnderLock(s, requireSocket, newCtx, outcome);
      PassOutcome(before, s, newCtx, outcome);
      hide Inv, Next, Enabled;
    }

    method PassUnderLock(s: Session, requireSocket: bool, newCtx: Ctx, outcome: Outcome) returns (ctx: Ctx, failed: bool)
      requires Inv(View()) && View().PcOf(s) == AtAgain(requireSocket) && newCtx !in created
      modifies this
      ensures Enabled(old(View()), Again(s, newCtx, outcome))
      ensures View() == Next(old(View()), Again(s, newCtx, outcome)) && Inv(View())
      ensures View().PcOf(s) == if failed then Failing(ctx) else if requireSocket then Checking(ctx) else Idle
      ensures if failed then ctx == newCtx else s in locals && locals[s].ctx == Some(ctx)
    {
      ghost var before := View();
      hide Inv, Enter, Decide, Enabled, Next, Chosen, AgainStep, Succeed, At;
      NextAgain(before, s, requireSocket, newCtx, outcome);
      StepKeeps(before, Again(s, newCtx, outcome));
      EnterKeepsChoice(before, s, requireSocket, outcome);
      Setup(s);
      ctx, failed := Connect(requireSocket, newCtx, outcome);
      ChosenIsAgain(before, s, requireSocket, newCtx, outcome);
      if failed {
        pcs := pcs[s := Failing(ctx)];
        AtIs(Chosen(Enter(before, s), Unusable, newCtx), s, Failing(ctx));
      } else {
        Adopt(s, requireSocket, ctx);
      }
    }

    method Adopt(s: Session, requireSocket: bool, ctx: Ctx)
      requires s in locals
      modifies this`locals, this`pcs
      ensures View() == Succeed(old(View()), s, ctx, requireSocket)
      ensures s in locals && locals[s].ctx == Some(ctx)
      ensures View().PcOf(s) == if requireSocket then Checking(ctx) else Idle
    {
      SetRecord(s, locals[s].(ctx := Some(ctx), invalid := false));
      pcs := pcs[s := if requireSocket then Checking(ctx) else Idle];
    }

    /** The comparison after the lock was released; true asks for another pass. */
    method Compare(s: Session, ctx: Ctx) returns (again: bool)
      requires Inv(View()) && View().PcOf(s) == Checking(ctx)
      modifies this`pcs
      ensures View() == Next(old(View()), Check(s)) && Inv(View())
      ensures again == (View().PcOf(s) == Retrying)
    {
      StepKeeps(View(), Check(s));
      again := primaryCtx == Some(ctx);
      pcs := pcs[s := if again then Retrying else Idle];
    }

    method UnlockAndRetry(s: Session)
      requires Inv(View()) && View().PcOf(s) == Retrying
      modifies this
      ensures Enabled(old(View()), Retry(s)) && View() == Next(old(View()), Retry(s)) && Inv(View())
    {
      NextRetry(View(), s);
      StepKeeps(View(), Retry(s));
      hide Inv, UnlockLocal, Next, Enabled, At;
      var _ := DaemonUnlock(s, 0);
      AtIs(View(), s, AtAgain(true));
      pcs := pcs[s := AtAgain(true)];
    }

    /** The error exit: `daemon_unlock`, then the new context is released. */
    method GiveUp(s: Session, ctx: Ctx, err: int)
      requires Inv(View()) && View().PcOf(s) == Failing(ctx)
      modifies this
      ensures Enabled(old(View()), FailFinish(s)) && View() == Next(old(View()), FailFinish(s)) && Inv(View())
    {
      assert s in locals;
      hide Inv, UnlockLocal, Release, Next, At;
      ghost var before := View();
      NextFailFinish(before, s, ctx);
      StepKeeps(before, FailFinish(s));
      var _ := DaemonUnlock(s, err);
      AssuanRelease(Some(ctx));
      AtIs(View(), s, Idle);
      pcs := pcs[s := Idle];
    }

    // ----- agent_reset_daemon -----

    /** Both places where the source calls `BUG` are dead. */
    method Unlink(s: Session)
      requires s in localList
      modifies this`localList
      ensures localList == Unlinked(old(localList), s)
    {
      if localList == [] {
        assert false;
      } else if localList[0] == s {
        localList := localList[1..];
      } else {
        var i := 0;
        while i + 1 < |localList|
          invariant 0 <= i < |localList| && s !in localList[..i + 1]
        {
          if localList[i + 1] == s {
            break;
          }
          i := i + 1;
        }
        assert localList[..i + 1] == localList || i + 1 < |localList|;
        if i + 1 == |localList| {
          assert false;
        }
        UnlinkedAt(localList, s, i + 1);
        localList := localList[..i + 1] + localList[i + 2..];
      }
    }

    /** The primary connection is parked, any other is closed. */
    method ParkOrRelease(c: Option<Ctx>)
      modifies this`primaryCtxReusable, this`released, this`twice
      ensures View() == if c == None then old(View())
                        else if c == primaryCtx then old(View()).(reusable := true)
                        else Release(old(View()), c)
    {
      if c.Some? {
        if c == primaryCtx {
          primaryCtxReusable := true;
        } else {
          AssuanRelease(c);
        }
      }
    }

    method AgentResetDaemon(s: Session)
      requires Inv(View()) && View().PcOf(s) == Idle
      modifies this
      ensures View() == Next(old(View()), Reset(s)) && Inv(View())
    {
      NextReset(View(), s);
      StepKeeps(View(), Reset(s));
      hide Inv, Unlinked, Next;
      if s in locals {
        ParkOrRelease(locals[s].ctx);
        Unlink(s);
        locals := locals - {s};
      }
    }
  }
}
