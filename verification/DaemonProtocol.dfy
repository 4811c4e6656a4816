/**
 The connection manager for a helper daemon as a transition system: many sessions share one primary
 pipe connection and further socket connections, and a watcher thread invalidates everything when
 the daemon dies.  A step is what one thread does without another thread getting in between.
 */
module DaemonProtocol {
  import opened Wrappers

  type Session = nat
  type Ctx = nat

  /** The record `daemon_local_s` of one session. */
  datatype Local = Local(ctx: Option<Ctx>, inUse: bool, invalid: bool)

  /** Where a session is inside `daemon_start`. */
  datatype Pc =
    | Idle
    | AtAgain(requireSocket: bool)   // in front of the label `again`
    | Checking(ctx: Ctx)             // a socket was asked for: about to compare with the primary
    | Retrying                       // got the primary instead of a socket: about to unlock
    | Failing(ctx: Ctx)              // the error exit: about to unlock and to release the context

  datatype State = State(
    locals: map<Session, Local>,
    list: seq<Session>,              // local_list
    socket: bool,                    // socket_name is set
    primary: Option<Ctx>,
    reusable: bool,
    pcs: map<Session, Pc>,
    created: set<Ctx>,             // contexts ever made
    released: set<Ctx>,              // contexts given to assuan_release
    twice: bool,                     // some context was released twice
    socketUsed: bool)                // some session asked for a socket
  {
    function PcOf(s: Session): Pc {
      if s in pcs then pcs[s] else Idle
    }
  }

  const INIT := State(map[], [], false, None, false, map[], {}, {}, false, false)

  /** How the calls into the IPC library end when a new context is needed. */
  datatype Outcome = Connected(socketName: bool) | Refused | NoHomedir

  datatype Step =
    | Start(s: Session, requireSocket: bool)
    | Again(s: Session, ctx: Ctx, outcome: Outcome)
    | Check(s: Session)
    | Retry(s: Session)
    | FailFinish(s: Session)
    | Unlock(s: Session)
    | Reset(s: Session)
    | Death

  function Release(st: State, c: Option<Ctx>): State {
    if c == None then st
    else st.(released := st.released + {c.value}, twice := st.twice || c.value in st.released)
  }

  function At(st: State, s: Session, pc: Pc): State {
    st.(pcs := st.pcs[s := pc])
  }

  function SetLocal(st: State, s: Session, l: Local): State {
    st.(locals := st.locals[s := l])
  }

  /** The critical section of `daemon_unlock`. */
  function UnlockLocal(st: State, s: Session): State
    requires s in st.locals
  {
    var l := st.locals[s];
    if l.invalid then SetLocal(Release(st, l.ctx), s, Local(None, false, false))
    else SetLocal(st, s, l.(inUse := false))
  }

  /** The local record is created on first use and marked as in use. */
  function Enter(st: State, s: Session): State {
    if s in st.locals then SetLocal(st, s, st.locals[s].(inUse := true))
    else SetLocal(st, s, Local(None, true, false)).(list := [s] + st.list)
  }

  function Succeed(st: State, s: Session, c: Ctx, requireSocket: bool): State
    requires s in st.locals
  {
    At(SetLocal(st, s, st.locals[s].(ctx := Some(c), invalid := false)), s,
       if requireSocket then Checking(c) else Idle)
  }

  predicate Reuses(st: State, requireSocket: bool) {
    st.primary.Some? && st.reusable && !requireSocket
  }

  /** What a pass does once the local record is there. */
  datatype Decision = Reuse | Join | Launch(socketName: bool) | Unusable

  function Decide(st: State, requireSocket: bool, outcome: Outcome): Decision {
    if Reuses(st, requireSocket) then Reuse
    else if st.socket then if outcome.Connected? then Join else Unusable
    else if st.primary.Some? then Unusable   // the daemon accepts no further connections
    else
      match outcome
      case Connected(name) => Launch(name)
      case NoHomedir => Join                 // the error code stays zero on this exit
      case Refused => Unusable
  }

  /** One pass from the label `again` to the release of the lock. */
  function AgainStep(st: State, s: Session, requireSocket: bool, c: Ctx, outcome: Outcome): State {
    var e := Enter(st, s);
    var n := e.(created := st.created + {c});
    match Decide(st, requireSocket, outcome)
    case Reuse => Succeed(e.(reusable := false), s, st.primary.value, requireSocket)
    case Join => Succeed(n, s, c, requireSocket)
    case Launch(name) => Succeed(n.(primary := Some(c), reusable := false, socket := name), s, c, requireSocket)
    case Unusable => At(n, s, Failing(c))
  }

  function StartStep(st: State, s: Session, requireSocket: bool): State {
    if s in st.locals && st.locals[s].ctx.Some? then SetLocal(st, s, st.locals[s].(inUse := true))
    else if s in st.locals && st.locals[s].inUse then st
    else At(st, s, AtAgain(requireSocket)).(socketUsed := st.socketUsed || requireSocket)
  }

  function Unlinked(list: seq<Session>, s: Session): seq<Session> {
    if list == [] then [] else if list[0] == s then list[1..] else [list[0]] + Unlinked(list[1..], s)
  }

  /** `agent_reset_daemon`: park the primary connection or close a secondary one, drop the record. */
  function ResetStep(st: State, s: Session): State {
    if s !in st.locals then st
    else
      var c := st.locals[s].ctx;
      var r := if c == None then st
               else if c == st.primary then st.(reusable := true)
               else Release(st, c);
      r.(locals := r.locals - {s}, list := Unlinked(st.list, s))
  }

  /** One round of the watcher's loop. */
  function Invalidate(st: State, s: Session): State
    requires s in st.locals
  {
    var l := st.locals[s];
    if !l.inUse then SetLocal(Release(st, l.ctx), s, Local(None, false, true))
    else SetLocal(st, s, l.(invalid := true))
  }

  function InvalidateAll(st: State, todo: seq<Session>): (r: State)
    requires forall s :: s in todo ==> s in st.locals
    ensures r.locals.Keys == st.locals.Keys
    decreases todo
  {
    if todo == [] then st
    else
      assert todo[0] in todo;
      assert Invalidate(st, todo[0]).locals.Keys == st.locals.Keys;
      InvalidateAll(Invalidate(st, todo[0]), todo[1..])
  }

  function DropPrimary(st: State): State {
    (if st.reusable then Release(st, st.primary) else st).(primary := None, reusable := false, socket := false)
  }

  function DeathStep(st: State): State
    requires forall s :: s in st.list ==> s in st.locals
  {
    DropPrimary(InvalidateAll(st, st.list))
  }

  /** Which steps can happen; a new context is one that did not exist before. */
  predicate Enabled(st: State, step: Step) {
    match step
    case Start(s, _) => st.PcOf(s) == Idle
    case Again(s, c, _) => st.PcOf(s).AtAgain? && c !in st.created
    case Check(s) => st.PcOf(s).Checking?
    case Retry(s) => st.PcOf(s).Retrying? && s in st.locals
    case FailFinish(s) => st.PcOf(s).Failing? && s in st.locals
    case Unlock(s) => st.PcOf(s) == Idle && s in st.locals
    case Reset(s) => st.PcOf(s) == Idle
    case Death => forall s :: s in st.list ==> s in st.locals
  }

  function Next(st: State, step: Step): State
    requires Enabled(st, step)
  {
    match step
    case Start(s, rs) => StartStep(st, s, rs)
    case Again(s, c, outcome) => AgainStep(st, s, st.PcOf(s).requireSocket, c, outcome)
    case Check(s) => At(st, s, if st.primary == Some(st.PcOf(s).ctx) then Retrying else Idle)
    case Retry(s) => At(UnlockLocal(st, s), s, AtAgain(true))
    case FailFinish(s) => At(Release(UnlockLocal(st, s), Some(st.PcOf(s).ctx)), s, Idle)
    case Unlock(s) => UnlockLocal(st, s)
    case Reset(s) => ResetStep(st, s)
    case Death => DeathStep(st)
  }

  // ----- The invariant -----

  /** No two sessions hold the same context. */
  ghost predicate NoSharing(st: State) {
    forall s, t :: s in st.locals && t in st.locals && st.locals[s].ctx.Some? && st.locals[s].ctx == st.locals[t].ctx
      ==> s == t
  }

  ghost predicate Live(st: State, c: Ctx) {
    c in st.created && c !in st.released
  }

  /** A parked primary connection is live and nobody holds it. */
  ghost predicate ParkedOk(st: State) {
    st.reusable ==>
      && st.primary.Some? && Live(st, st.primary.value)
      && forall s :: s in st.locals ==> st.locals[s].ctx != st.primary
  }

  /** A session that holds the primary context has not been told that it is invalid. */
  ghost predicate PrimaryOk(st: State) {
    st.primary.Some? ==>
      && Live(st, st.primary.value)
      && forall s :: s in st.locals && st.locals[s].ctx == st.primary ==> !st.locals[s].invalid
  }

  /** The list holds exactly the live session records, each once. */
  ghost predicate ListOk(st: State) {
    && (forall s :: s in st.list <==> s in st.locals)
    && (forall i, j :: 0 <= i < j < |st.list| ==> st.list[i] != st.list[j])
  }

  /** Nothing held has been released and nothing was released twice. */
  ghost predicate HeldIsLive(st: State) {
    && st.released <= st.created && !st.twice
    && forall s :: s in st.locals && st.locals[s].ctx.Some? ==> Live(st, st.locals[s].ctx.value)
  }

  /** The context that a failing start still has to release is live and belongs to it alone. */
  ghost predicate FailingOk(st: State) {
    && (forall s :: s in st.pcs && (st.pcs[s].Failing? || st.pcs[s].Retrying? || st.pcs[s].Checking?) ==> s in st.locals)
    && (forall s :: s in st.pcs && st.pcs[s].Failing? ==> Live(st, st.pcs[s].ctx) && st.primary != Some(st.pcs[s].ctx))
    && (forall s, t :: s in st.pcs && st.pcs[s].Failing? && t in st.locals ==> st.locals[t].ctx != Some(st.pcs[s].ctx))
    && (forall s, t :: s in st.pcs && t in st.pcs && st.pcs[s].Failing? && st.pcs[s] == st.pcs[t] ==> s == t)
  }

  /** What also holds in the middle of the watcher's loop. */
  ghost predicate Core(st: State) {
    NoSharing(st) && ParkedOk(st) && ListOk(st) && HeldIsLive(st) && FailingOk(st)
  }

  ghost predicate Inv(st: State) {
    Core(st) && PrimaryOk(st)
  }

  // ----- Elementary changes -----

  /** A session keeps or gives up its context. */
  lemma SetLocalKeeps(st: State, s: Session, l: Local)
    requires Core(st) && s in st.locals && (l.ctx == None || l.ctx == st.locals[s].ctx)
    ensures Core(SetLocal(st, s, l))
    ensures PrimaryOk(st) && (l.ctx.Some? && l.ctx == st.primary ==> !l.invalid) ==> PrimaryOk(SetLocal(st, s, l))
  {
  }

  ghost predicate Unreferenced(st: State, c: Ctx) {
    && (forall t :: t in st.locals ==> st.locals[t].ctx != Some(c))
    && (forall t :: t in st.pcs && st.pcs[t].Failing? ==> st.pcs[t].ctx != c)
  }

  lemma ReleaseKeeps(st: State, c: Ctx)
    requires Core(st) && Live(st, c) && Unreferenced(st, c) && (st.reusable ==> st.primary != Some(c))
    ensures Core(Release(st, Some(c)))
    ensures PrimaryOk(st) && st.primary != Some(c) ==> PrimaryOk(Release(st, Some(c)))
  {
    hide NoSharing, ListOk, HeldIsLive, FailingOk, ParkedOk, PrimaryOk;
    ReleaseSame(st, c);
    ReleaseHeld(st, c);
    ReleaseParked(st, c);
  }

  lemma ReleaseSame(st: State, c: Ctx)
    ensures NoSharing(st) ==> NoSharing(Release(st, Some(c)))
    ensures ListOk(st) ==> ListOk(Release(st, Some(c)))
  {
  }

  lemma ReleaseHeld(st: State, c: Ctx)
    requires Live(st, c) && Unreferenced(st, c)
    ensures HeldIsLive(st) ==> HeldIsLive(Release(st, Some(c)))
    ensures FailingOk(st) ==> FailingOk(Release(st, Some(c)))
  {
  }

  lemma ReleaseParked(st: State, c: Ctx)
    ensures ParkedOk(st) && (st.reusable ==> st.primary != Some(c)) ==> ParkedOk(Release(st, Some(c)))
    ensures PrimaryOk(st) && st.primary != Some(c) ==> PrimaryOk(Release(st, Some(c)))
  {
  }

  lemma AtKeeps(st: State, s: Session, pc: Pc)
    requires Inv(st) && !pc.Failing? && (pc.Retrying? || pc.Checking? ==> s in st.locals)
    ensures Inv(At(st, s, pc))
  {
  }

  lemma AtFailing(st: State, s: Session, c: Ctx)
    requires Inv(st) && s in st.locals && Live(st, c) && Unreferenced(st, c) && st.primary != Some(c)
    ensures Inv(At(st, s, Failing(c)))
  {
  }

  /** A session gives up its context, which is then released. */
  lemma GiveUpKeeps(st: State, s: Session, l: Local)
    requires Core(st) && s in st.locals && l.ctx == None
    ensures Core(SetLocal(Release(st, st.locals[s].ctx), s, l))
    ensures PrimaryOk(st) && (st.locals[s].ctx.Some? ==> st.locals[s].ctx != st.primary) ==>
              PrimaryOk(SetLocal(Release(st, st.locals[s].ctx), s, l))
  {
    var c := st.locals[s].ctx;
    var dropped := SetLocal(st, s, l);
    assert c.Some? ==> Live(dropped, c.value) && Unreferenced(dropped, c.value) && (st.reusable ==> st.primary != c);
    assert SetLocal(Release(st, c), s, l) == Release(dropped, c);
    hide Core, PrimaryOk, Live, Unreferenced, Release, SetLocal;
    SetLocalKeeps(st, s, l);
    if c.Some? {
      ReleaseKeeps(dropped, c.value);
    }
  }

  lemma EnterKeeps(st: State, s: Session)
    requires Inv(st)
    ensures Inv(Enter(st, s)) && s in Enter(st, s).locals
  {
    if s in st.locals {
      hide Core, PrimaryOk;
      SetLocalKeeps(st, s, st.locals[s].(inUse := true));
    } else {
      NewRecord(st, s);
    }
  }

  lemma NewRecord(st: State, s: Session)
    requires Inv(st) && s !in st.locals
    ensures Inv(SetLocal(st, s, Local(None, true, false)).(list := [s] + st.list))
  {
    var l := Local(None, true, false);
    NewRecordListed(st, s, l);
    hide ListOk;
    NewRecordRest(st, s, l);
  }

  lemma NewRecordListed(st: State, s: Session, l: Local)
    requires ListOk(st) && s !in st.locals
    ensures ListOk(SetLocal(st, s, l).(list := [s] + st.list))
  {
    assert forall t :: t in [s] + st.list <==> t == s || t in st.list;
  }

  lemma NewRecordRest(st: State, s: Session, l: Local)
    requires NoSharing(st) && ParkedOk(st) && HeldIsLive(st) && FailingOk(st) && PrimaryOk(st)
    requires s !in st.locals && l.ctx == None
    ensures var st' := SetLocal(st, s, l).(list := [s] + st.list);
            NoSharing(st') && ParkedOk(st') && HeldIsLive(st') && FailingOk(st') && PrimaryOk(st')
  {
  }

  lemma CreateKeeps(st: State, c: Ctx)
    requires Inv(st) && c !in st.created
    ensures Inv(st.(created := st.created + {c}))
    ensures Live(st.(created := st.created + {c}), c) && Unreferenced(st, c) && st.primary != Some(c)
  {
  }

  /** A session gets a context that nobody refers to. */
  lemma GainKeeps(st: State, s: Session, c: Ctx)
    requires Inv(st) && s in st.locals && Live(st, c) && Unreferenced(st, c) && (st.reusable ==> st.primary != Some(c))
    ensures Inv(SetLocal(st, s, st.locals[s].(ctx := Some(c), invalid := false)))
  {
  }

  lemma SucceedKeeps(st: State, s: Session, c: Ctx, rs: bool)
    requires Inv(st) && s in st.locals && Live(st, c) && Unreferenced(st, c) && (st.reusable ==> st.primary != Some(c))
    ensures Inv(Succeed(st, s, c, rs))
  {
    hide Inv, Live, Unreferenced;
    GainKeeps(st, s, c);
    AtKeeps(SetLocal(st, s, st.locals[s].(ctx := Some(c), invalid := false)), s, if rs then Checking(c) else Idle);
  }

  /** The primary connection changes to an unreferenced live context, or is taken from its parking place. */
  lemma PrimaryKeeps(st: State, c: Ctx, socket: bool)
    requires Inv(st) && Live(st, c) && Unreferenced(st, c)
    ensures Inv(st.(primary := Some(c), reusable := false, socket := socket))
  {
  }

  lemma ReuseKeeps(st: State, s: Session, rs: bool)
    requires Inv(st) && Reuses(st, rs)
    ensures Inv(Succeed(Enter(st, s).(reusable := false), s, st.primary.value, rs))
  {
    EnterKeeps(st, s);
    var e, p := Enter(st, s), st.primary.value;
    assert Live(e, p) && Unreferenced(e, p);
    hide Inv, Live, Unreferenced, Succeed;
    PrimaryKeeps(e, p, e.socket);
    var taken := e.(primary := Some(p), reusable := false, socket := e.socket);
    assert e.(reusable := false) == taken;
    SameReferences(e, taken, p);
    SucceedKeeps(taken, s, p, rs);
  }

  lemma AgainKeeps(st: State, s: Session, rs: bool, c: Ctx, outcome: Outcome)
    requires Inv(st) && c !in st.created
    ensures Inv(AgainStep(st, s, rs, c, outcome))
  {
    DecideFacts(st, rs, outcome);
    EnterKeeps(st, s);
    var e := Enter(st, s);
    assert e.created == st.created && e.primary == st.primary && e.reusable == st.reusable;
    var n := e.(created := st.created + {c});
    hide *;
    AgainStepIs(st, s, rs, c, outcome);
    CreateKeeps(e, c);
    SameReferences(e, n, c);
    match Decide(st, rs, outcome)
    case Reuse => ReuseKeeps(st, s, rs);
    case Join => SucceedKeeps(n, s, c, rs);
    case Launch(name) =>
      var started := n.(primary := Some(c), reusable := false, socket := name);
      PrimaryKeeps(n, c, name);
      SameReferences(n, started, c);
      SucceedKeeps(started, s, c, rs);
    case Unusable => AtFailing(n, s, c);
  }

  lemma DecideFacts(st: State, rs: bool, outcome: Outcome)
    ensures Decide(st, rs, outcome) == Reuse <==> Reuses(st, rs)
    ensures Decide(st, rs, outcome).Launch? ==> st.primary == None
  {
  }

  lemma AgainStepIs(st: State, s: Session, rs: bool, c: Ctx, outcome: Outcome)
    ensures s in Enter(st, s).locals && Enter(st, s).created == st.created && Enter(st, s).released == st.released
    ensures var e := Enter(st, s);
            var n := e.(created := st.created + {c});
            AgainStep(st, s, rs, c, outcome) ==
            match Decide(st, rs, outcome)
            case Reuse => Succeed(e.(reusable := false), s, st.primary.value, rs)
            case Join => Succeed(n, s, c, rs)
            case Launch(name) => Succeed(n.(primary := Some(c), reusable := false, socket := name), s, c, rs)
            case Unusable => At(n, s, Failing(c))
  {
    hide Succeed, At;
  }

  lemma SameReferences(st: State, st': State, c: Ctx)
    requires Unreferenced(st, c) && st'.locals == st.locals && st'.pcs == st.pcs
    requires Live(st, c) || (c in st'.created && c !in st'.released)
    requires st.created <= st'.created && st.released == st'.released
    ensures Unreferenced(st', c) && Live(st', c)
  {
  }

  lemma StartKeeps(st: State, s: Session, rs: bool)
    requires Inv(st)
    ensures Inv(StartStep(st, s, rs))
  {
    if s in st.locals && st.locals[s].ctx.Some? {
      hide Core;
      SetLocalKeeps(st, s, st.locals[s].(inUse := true));
    } else {
      AtKeeps(st, s, AtAgain(rs));
      MarkKeeps(At(st, s, AtAgain(rs)), st.socketUsed || rs);
    }
  }

  lemma MarkKeeps(st: State, mark: bool)
    requires Inv(st)
    ensures Inv(st.(socketUsed := mark))
  {
  }

  lemma UnlockLocalKeeps(st: State, s: Session)
    requires Inv(st) && s in st.locals
    ensures Inv(UnlockLocal(st, s))
  {
    var l := st.locals[s];
    if l.invalid {
      assert l.ctx.Some? ==> l.ctx != st.primary;
      hide Core;
      GiveUpKeeps(st, s, Local(None, false, false));
    } else {
      hide Core;
      SetLocalKeeps(st, s, l.(inUse := false));
    }
  }

  lemma UnlockLeaves(st: State, s: Session, c: Ctx)
    requires s in st.locals && Live(st, c) && Unreferenced(st, c)
    ensures Live(UnlockLocal(st, s), c) && Unreferenced(UnlockLocal(st, s), c)
    ensures UnlockLocal(st, s).primary == st.primary
  {
  }

  lemma FailFinishKeeps(st: State, s: Session)
    requires Inv(st) && st.PcOf(s).Failing? && s in st.locals
    ensures Inv(At(Release(UnlockLocal(st, s), Some(st.PcOf(s).ctx)), s, Idle))
  {
    var c := st.PcOf(s).ctx;
    // Leaving the failing state first makes the context unreferenced.
    var left := At(st, s, Idle);
    assert Live(left, c) && Unreferenced(left, c) && left.primary != Some(c);
    assert At(Release(UnlockLocal(st, s), Some(c)), s, Idle) == Release(UnlockLocal(left, s), Some(c));
    hide Core, PrimaryOk, Live, Unreferenced;
    AtKeeps(st, s, Idle);
    hide UnlockLocal, Release, At;
    UnlockLocalKeeps(left, s);
    UnlockLeaves(left, s, c);
    ReleaseStep(UnlockLocal(left, s), c);
  }

  lemma ReleaseStep(st: State, c: Ctx)
    requires Inv(st) && Live(st, c) && Unreferenced(st, c) && st.primary != Some(c)
    ensures Inv(Release(st, Some(c)))
  {
    hide Core, PrimaryOk;
    ReleaseKeeps(st, c);
  }

  // ----- Reset -----

  lemma {:induction false} UnlinkedContents(list: seq<Session>, s: Session)
    requires forall i, j :: 0 <= i < j < |list| ==> list[i] != list[j]
    ensures forall t :: t in Unlinked(list, s) <==> t in list && t != s
    ensures forall i, j :: 0 <= i < j < |Unlinked(list, s)| ==> Unlinked(list, s)[i] != Unlinked(list, s)[j]
  {
    if list != [] {
      var rest := list[1..];
      assert list == [list[0]] + rest;
      assert forall i :: 0 <= i < |rest| ==> rest[i] == list[i + 1];
      assert list[0] !in rest;
      if list[0] != s {
        UnlinkedContents(rest, s);
        var u := Unlinked(rest, s);
        assert forall i :: 0 <= i < |u| ==> u[i] in u;
        assert list[0] !in u;
      }
    }
  }

  /** The record of a session that is not inside a call goes away. */
  lemma DropRecord(st: State, s: Session)
    requires Inv(st) && s in st.locals && st.PcOf(s) == Idle
    ensures Inv(st.(locals := st.locals - {s}, list := Unlinked(st.list, s)))
  {
    DropRecordListed(st, s);
    hide ListOk;
    DropRecordRest(st, s, Unlinked(st.list, s));
  }

  lemma DropRecordListed(st: State, s: Session)
    requires ListOk(st)
    ensures ListOk(st.(locals := st.locals - {s}, list := Unlinked(st.list, s)))
  {
    UnlinkedContents(st.list, s);
    hide Unlinked;
  }

  lemma DropRecordRest(st: State, s: Session, list: seq<Session>)
    requires NoSharing(st) && ParkedOk(st) && HeldIsLive(st) && FailingOk(st) && PrimaryOk(st) && st.PcOf(s) == Idle
    ensures var st' := st.(locals := st.locals - {s}, list := list);
            NoSharing(st') && ParkedOk(st') && HeldIsLive(st') && FailingOk(st') && PrimaryOk(st')
  {
  }

  lemma ParkKeeps(st: State)
    requires Inv(st) && st.primary.Some? && forall s :: s in st.locals ==> st.locals[s].ctx != st.primary
    ensures Inv(st.(reusable := true))
  {
  }

  /** The record goes, with its context already taken out of it. */
  lemma DropEmptied(st: State, x: State, s: Session)
    requires Inv(x) && s in x.locals && x.PcOf(s) == Idle && x.locals - {s} == st.locals - {s} && x.list == st.list
    ensures Inv(x.(locals := st.locals - {s}, list := Unlinked(st.list, s)))
  {
    hide Inv, Unlinked;
    DropRecord(x, s);
  }

  lemma ResetParks(st: State, s: Session)
    requires Inv(st) && st.PcOf(s) == Idle && s in st.locals && st.locals[s].ctx.Some? && st.locals[s].ctx == st.primary
    ensures Inv(st.(reusable := true, locals := st.locals - {s}, list := Unlinked(st.list, s)))
  {
    var l := st.locals[s].(ctx := None);
    var gone := SetLocal(st, s, l);
    assert forall t :: t in gone.locals ==> gone.locals[t].ctx != gone.primary;
    hide Core, PrimaryOk, Unlinked;
    SetLocalKeeps(st, s, l);
    hide Inv;
    ParkKeeps(gone);
    DropEmptied(st, gone.(reusable := true), s);
  }

  lemma ResetReleases(st: State, s: Session)
    requires Inv(st) && st.PcOf(s) == Idle && s in st.locals && (st.locals[s].ctx.Some? ==> st.locals[s].ctx != st.primary)
    ensures Inv(Release(st, st.locals[s].ctx).(locals := st.locals - {s}, list := Unlinked(st.list, s)))
  {
    hide Core, PrimaryOk, Unlinked;
    var l := st.locals[s].(ctx := None);
    var released := SetLocal(Release(st, st.locals[s].ctx), s, l);
    GiveUpKeeps(st, s, l);
    hide Inv;
    DropEmptied(st, released, s);
  }

  lemma ResetKeeps(st: State, s: Session)
    requires Inv(st) && st.PcOf(s) == Idle
    ensures Inv(ResetStep(st, s))
  {
    hide Inv, Unlinked;
    if s in st.locals {
      if st.locals[s].ctx.Some? && st.locals[s].ctx == st.primary {
        ResetParks(st, s);
      } else {
        ResetReleases(st, s);
      }
    }
  }

  /** Resetting always finds the record in the list: neither call of BUG can be reached. */
  lemma RecordIsListed(st: State, s: Session)
    requires Inv(st) && s in st.locals
    ensures st.list != [] && s in st.list
  {
  }

  // ----- Death of the daemon -----

  lemma InvalidateKeeps(st: State, s: Session)
    requires Core(st) && s in st.locals
    ensures Core(Invalidate(st, s))
    ensures Invalidate(st, s).locals.Keys == st.locals.Keys
  {
    var l := st.locals[s];
    hide Core, PrimaryOk, SetLocal, Release;
    InvalidateIs(st, s);
    if l.inUse {
      SetLocalKeeps(st, s, l.(invalid := true));
    } else {
      GiveUpKeeps(st, s, Local(None, false, true));
    }
  }

  lemma InvalidateIs(st: State, s: Session)
    requires s in st.locals
    ensures Invalidate(st, s).locals.Keys == st.locals.Keys
    ensures Invalidate(st, s) ==
            if st.locals[s].inUse then SetLocal(st, s, st.locals[s].(invalid := true))
            else SetLocal(Release(st, st.locals[s].ctx), s, Local(None, false, true))
  {
  }

  lemma {:induction false} InvalidateAllKeeps(st: State, todo: seq<Session>)
    requires Core(st) && forall s :: s in todo ==> s in st.locals
    ensures Core(InvalidateAll(st, todo))
    decreases todo
  {
    if todo != [] {
      assert todo[0] in todo;
      hide Core, Invalidate;
      InvalidateKeeps(st, todo[0]);
      InvalidateAllKeeps(Invalidate(st, todo[0]), todo[1..]);
    }
  }

  lemma DropPrimaryKeeps(st: State)
    requires Core(st)
    ensures Inv(DropPrimary(st))
  {
    var cut := st.(primary := None, reusable := false, socket := false);
    assert Core(cut);
    if st.reusable {
      assert Live(cut, st.primary.value) && Unreferenced(cut, st.primary.value);
      assert DropPrimary(st) == Release(cut, st.primary);
      hide Core, Live, Unreferenced;
      ReleaseKeeps(cut, st.primary.value);
    }
  }

  lemma DeathKeeps(st: State)
    requires Inv(st)
    ensures Enabled(st, Death) && Inv(DeathStep(st))
  {
    hide *;
    InvIsCore(st);
    InvalidateAllKeeps(st, st.list);
    DropPrimaryKeeps(InvalidateAll(st, st.list));
    DeathIs(st);
  }

  lemma InvIsCore(st: State)
    requires Inv(st)
    ensures Core(st) && forall s :: s in st.list ==> s in st.locals
  {
    hide NoSharing, ParkedOk, HeldIsLive, FailingOk, PrimaryOk;
  }

  lemma DeathIs(st: State)
    requires forall s :: s in st.list ==> s in st.locals
    ensures Enabled(st, Death) && DeathStep(st) == DropPrimary(InvalidateAll(st, st.list))
  {
    hide DropPrimary, InvalidateAll;
  }

  // ----- Every run -----

  lemma StepKeeps(st: State, step: Step)
    requires Inv(st) && Enabled(st, step)
    ensures Inv(Next(st, step))
  {
    hide Inv;
    match step
    case Start(s, rs) => StartKeeps(st, s, rs);
    case Again(s, c, outcome) => AgainKeeps(st, s, st.PcOf(s).requireSocket, c, outcome);
    case Check(s) => CheckKeeps(st, s);
    case Retry(s) =>
      UnlockLocalKeeps(st, s);
      AtKeeps(UnlockLocal(st, s), s, AtAgain(true));
    case FailFinish(s) => FailFinishKeeps(st, s);
    case Unlock(s) => UnlockLocalKeeps(st, s);
    case Reset(s) => ResetKeeps(st, s);
    case Death => DeathKeeps(st);
  }

  lemma CheckKeeps(st: State, s: Session)
    requires Inv(st) && st.PcOf(s).Checking?
    ensures Inv(At(st, s, if st.primary == Some(st.PcOf(s).ctx) then Retrying else Idle))
  {
    assert s in st.locals;
    AtKeeps(st, s, if st.primary == Some(st.PcOf(s).ctx) then Retrying else Idle);
  }

  /** The steps of a run, one after the other. */
  ghost predicate IsRun(st: State, steps: seq<Step>)
    decreases steps
  {
    steps == [] || (Enabled(st, steps[0]) && IsRun(Next(st, steps[0]), steps[1..]))
  }

  ghost function After(st: State, steps: seq<Step>): State
    requires IsRun(st, steps)
    decreases steps
  {
    if steps == [] then st else After(Next(st, steps[0]), steps[1..])
  }

  lemma {:induction false} RunKeeps(st: State, steps: seq<Step>)
    requires Inv(st) && IsRun(st, steps)
    ensures Inv(After(st, steps))
    decreases steps
  {
    if steps != [] {
      hide Inv, Next;
      StepKeeps(st, steps[0]);
      RunKeeps(Next(st, steps[0]), steps[1..]);
    }
  }

  /**
   In every interleaving: no two sessions hold the same context, a reusable primary is there and
   held by nobody, the list holds exactly the live records once, and no context is released twice
   or held after its release.
   */
  lemma EveryRunIsSafe(steps: seq<Step>)
    requires IsRun(INIT, steps)
    ensures var st := After(INIT, steps);
            && (forall s, t :: s in st.locals && t in st.locals && s != t && st.locals[s].ctx.Some? ==>
                  st.locals[s].ctx != st.locals[t].ctx)
            && (st.reusable ==> st.primary.Some? && forall s :: s in st.locals ==> st.locals[s].ctx != st.primary)
            && (forall s :: s in st.list <==> s in st.locals)
            && (forall i, j :: 0 <= i < j < |st.list| ==> st.list[i] != st.list[j])
            && !st.twice
            && (forall s :: s in st.locals && st.locals[s].ctx.Some? ==> st.locals[s].ctx.value !in st.released)
  {
    assert Inv(INIT);
    RunKeeps(INIT, steps);
  }

  // ----- No context is lost -----

  ghost predicate HeldBySomeone(st: State, c: Ctx) {
    exists s :: s in st.locals && st.locals[s].ctx == Some(c)
  }

  ghost predicate AboutToFail(st: State, c: Ctx) {
    exists s :: s in st.pcs && st.pcs[s] == Failing(c)
  }

  /** Somebody is responsible for the context. */
  ghost predicate Accounted(st: State, c: Ctx) {
    HeldBySomeone(st, c) || (st.reusable && st.primary == Some(c)) || AboutToFail(st, c)
  }

  ghost predicate AllAccounted(st: State) {
    forall c: Ctx :: Live(st, c) ==> Accounted(st, c)
  }

  /** As long as nobody asks for a socket, a session inside `daemon_start` has no context yet. */
  ghost predicate PipeOnly(st: State) {
    && !st.socketUsed
    && forall s :: s in st.pcs ==>
         && st.pcs[s] != AtAgain(true) && !st.pcs[s].Checking? && !st.pcs[s].Retrying?
         && (st.pcs[s].AtAgain? && s in st.locals ==> st.locals[s].ctx == None)
  }

  /** A change that keeps every reference to `c` keeps it accounted. */
  lemma StillAccounted(st: State, st': State, c: Ctx)
    requires Accounted(st, c)
    requires forall s :: s in st.locals && st.locals[s].ctx == Some(c) ==> s in st'.locals && st'.locals[s].ctx == Some(c)
    requires forall s :: s in st.pcs && st.pcs[s] == Failing(c) ==> s in st'.pcs && st'.pcs[s] == Failing(c)
    requires st.reusable && st.primary == Some(c) ==> st'.reusable && st'.primary == Some(c)
    ensures Accounted(st', c)
  {
  }

  lemma StartAccounts(st: State, s: Session, rs: bool, c: Ctx)
    requires st.PcOf(s) == Idle && (Live(st, c) ==> Accounted(st, c)) && Live(StartStep(st, s, rs), c)
    ensures Accounted(StartStep(st, s, rs), c)
  {
    hide Accounted, Live, SetLocal, At;
    if s in st.locals && st.locals[s].ctx.Some? {
      SetLocalAccounts(st, s, st.locals[s].(inUse := true), c);
    } else if !(s in st.locals && st.locals[s].inUse) {
      MoveAccounts(st, s, AtAgain(rs), st.socketUsed || rs, c);
    }
  }

  lemma SetLocalAccounts(st: State, s: Session, l: Local, c: Ctx)
    requires s in st.locals && (st.locals[s].ctx == Some(c) ==> l.ctx == Some(c))
    ensures Live(SetLocal(st, s, l), c) == Live(st, c)
    ensures Accounted(st, c) ==> Accounted(SetLocal(st, s, l), c)
  {
    HoldersKept(st.locals, s, l, c);
    hide Accounted;
    if Accounted(st, c) {
      StillAccounted(st, SetLocal(st, s, l), c);
    }
  }

  lemma MoveAccounts(st: State, s: Session, pc: Pc, used: bool, c: Ctx)
    requires st.PcOf(s) != Failing(c)
    ensures Live(At(st, s, pc).(socketUsed := used), c) == Live(st, c)
    ensures Accounted(st, c) ==> Accounted(At(st, s, pc).(socketUsed := used), c)
  {
    WaitersKept(st.pcs, s, pc, c);
    hide Accounted;
    if Accounted(st, c) {
      StillAccounted(st, At(st, s, pc).(socketUsed := used), c);
    }
  }

  /** A record that changes keeps its context: whoever held it holds it still. */
  lemma HoldersKept(m: map<Session, Local>, s: Session, l: Local, c: Ctx)
    requires s in m && m[s].ctx == Some(c) ==> l.ctx == Some(c)
    ensures forall t :: t in m && m[t].ctx == Some(c) ==> t in m[s := l] && m[s := l][t].ctx == Some(c)
  {
  }

  lemma WaitersKept(m: map<Session, Pc>, s: Session, pc: Pc, c: Ctx)
    requires s in m ==> m[s] != Failing(c)
    ensures forall t :: t in m && m[t] == Failing(c) ==> t in m[s := pc] && m[s := pc][t] == Failing(c)
  {
  }

  lemma UnlockAccounts(st: State, s: Session, c: Ctx)
    requires s in st.locals && (Live(st, c) ==> Accounted(st, c)) && Live(UnlockLocal(st, s), c)
    ensures Live(st, c) && Accounted(UnlockLocal(st, s), c)
  {
    hide Accounted;
    StillAccounted(st, UnlockLocal(st, s), c);
  }

  lemma FailFinishAccounts(st: State, s: Session, c: Ctx)
    requires st.PcOf(s).Failing? && s in st.locals && (Live(st, c) ==> Accounted(st, c))
    requires Live(At(Release(UnlockLocal(st, s), Some(st.PcOf(s).ctx)), s, Idle), c)
    ensures Live(st, c) && Accounted(At(Release(UnlockLocal(st, s), Some(st.PcOf(s).ctx)), s, Idle), c)
  {
    hide Accounted;
    UnlockAccounts(st, s, c);
    var st' := At(Release(UnlockLocal(st, s), Some(st.PcOf(s).ctx)), s, Idle);
    StillAccounted(UnlockLocal(st, s), st', c);
  }

  lemma ResetAccounts(st: State, s: Session, c: Ctx)
    requires (Live(st, c) ==> Accounted(st, c)) && Live(ResetStep(st, s), c)
    ensures Live(st, c) && Accounted(ResetStep(st, s), c)
  {
    assert Live(st, c);
    if s in st.locals && st.locals[s].ctx == Some(c) {
      assert st.primary == Some(c);
    } else {
      ResetKeepsOthers(st, s, c);
      hide *;
      StillAccounted(st, ResetStep(st, s), c);
    }
  }

  lemma ResetKeepsOthers(st: State, s: Session, c: Ctx)
    requires s in st.locals ==> st.locals[s].ctx != Some(c)
    ensures var n := ResetStep(st, s);
            && n.pcs == st.pcs && n.primary == st.primary && (st.reusable ==> n.reusable)
            && forall t :: t in st.locals && st.locals[t].ctx == Some(c) ==> t in n.locals && n.locals[t].ctx == Some(c)
  {
    hide Unlinked;
  }

  lemma InvalidateAccounts(st: State, s: Session, c: Ctx)
    requires s in st.locals && Accounted(st, c) && Live(Invalidate(st, s), c)
    ensures Accounted(Invalidate(st, s), c)
  {
    InvalidateHolds(st, s, c);
    hide *;
    StillAccounted(st, Invalidate(st, s), c);
  }

  lemma InvalidateHolds(st: State, s: Session, c: Ctx)
    requires s in st.locals && Live(Invalidate(st, s), c)
    ensures var n := Invalidate(st, s);
            && n.pcs == st.pcs && n.reusable == st.reusable && n.primary == st.primary
            && forall t :: t in st.locals && st.locals[t].ctx == Some(c) ==> t in n.locals && n.locals[t].ctx == Some(c)
  {
    HoldersKept(st.locals, s, Invalidate(st, s).locals[s], c);
  }

  lemma {:induction false} InvalidateAllAccounts(st: State, todo: seq<Session>, c: Ctx)
    requires forall s :: s in todo ==> s in st.locals
    requires Accounted(st, c) && Live(InvalidateAll(st, todo), c)
    ensures Accounted(InvalidateAll(st, todo), c)
    decreases todo
  {
    if todo != [] {
      assert todo[0] in todo;
      var next := Invalidate(st, todo[0]);
      assert next.locals.Keys == st.locals.Keys;
      StillReleased(next, todo[1..], c);
      hide Accounted, Invalidate;
      InvalidateAccounts(st, todo[0], c);
      InvalidateAllAccounts(next, todo[1..], c);
    }
  }

  lemma {:induction false} StillReleased(st: State, todo: seq<Session>, c: Ctx)
    requires forall s :: s in todo ==> s in st.locals
    ensures Live(InvalidateAll(st, todo), c) ==> Live(st, c)
    decreases todo
  {
    if todo != [] {
      assert todo[0] in todo;
      StillReleased(Invalidate(st, todo[0]), todo[1..], c);
    }
  }

  lemma DeathAccounts(st: State, c: Ctx)
    requires Enabled(st, Death) && (Live(st, c) ==> Accounted(st, c)) && Live(DeathStep(st), c)
    ensures Live(st, c) && Accounted(DeathStep(st), c)
  {
    var mid := InvalidateAll(st, st.list);
    assert Live(mid, c) && !(mid.reusable && mid.primary == Some(c));
    StillReleased(st, st.list, c);
    hide InvalidateAll;
    InvalidateAllAccounts(st, st.list, c);
  }

  /** The pass ends well although the session already has a context, which it then forgets. */
  ghost predicate Overwrites(st: State, step: Step) {
    && Enabled(st, step) && step.Again? && step.s in st.locals && st.locals[step.s].ctx.Some?
    && !Decide(st, st.PcOf(step.s).requireSocket, step.outcome).Unusable?
  }

  /** A pass fails exactly if no connection could be had. */
  lemma FailsWhen(st: State, s: Session, rs: bool, n: Ctx, outcome: Outcome)
    ensures AgainStep(st, s, rs, n, outcome).PcOf(s).Failing? <==> Decide(st, rs, outcome).Unusable?
  {
    hide Enter, Decide, AgainStep;
    AgainStepIs(st, s, rs, n, outcome);
  }

  /** The context that a pass through `again` makes or takes over is accounted, the others stay so. */
  lemma AgainAccounts(st: State, step: Step, c: Ctx)
    requires step.Again? && Enabled(st, step) && !Overwrites(st, step)
    requires (Live(st, c) ==> Accounted(st, c)) && Live(Next(st, step), c)
    ensures Accounted(Next(st, step), c)
  {
    var rs := st.PcOf(step.s).requireSocket;
    if c == step.ctx {
      AgainAccountsNew(st, step.s, rs, step.ctx, step.outcome);
    } else if Reuses(st, rs) && st.primary == Some(c) {
      AgainAccountsReused(st, step.s, rs, step.ctx, step.outcome);
    } else {
      AgainLive(st, step.s, rs, step.ctx, step.outcome, c);
      hide Accounted;
      AgainAccountsOther(st, step, c);
    }
  }

  lemma AgainLive(st: State, s: Session, rs: bool, n: Ctx, outcome: Outcome, c: Ctx)
    requires Live(AgainStep(st, s, rs, n, outcome), c) && c != n
    ensures Live(st, c)
  {
    hide Enter, Succeed, At, Decide, AgainStep;
    AgainStepIs(st, s, rs, n, outcome);
    DecideFacts(st, rs, outcome);
    var x := Enter(st, s).(created := st.created + {n});
    SucceedFrame(x, s, n, rs);
    match Decide(st, rs, outcome)
    case Reuse => SucceedFrame(Enter(st, s).(reusable := false), s, st.primary.value, rs);
    case Launch(name) => SucceedFrame(x.(primary := Some(n), reusable := false, socket := name), s, n, rs);
    case _ =>
  }

  lemma SucceedFrame(x: State, s: Session, c: Ctx, rs: bool)
    requires s in x.locals
    ensures Succeed(x, s, c, rs).created == x.created && Succeed(x, s, c, rs).released == x.released
    ensures At(x, s, Failing(c)).created == x.created && At(x, s, Failing(c)).released == x.released
  {
  }

  lemma AgainAccountsNew(st: State, s: Session, rs: bool, n: Ctx, outcome: Outcome)
    requires Live(AgainStep(st, s, rs, n, outcome), n) && n !in st.created
    ensures Accounted(AgainStep(st, s, rs, n, outcome), n)
  {
    hide Enter, Decide, AgainStep, At, Succeed, Accounted;
    AgainStepIs(st, s, rs, n, outcome);
    DecideFacts(st, rs, outcome);
    var x := Enter(st, s).(created := st.created + {n});
    AtAccounts(x, s, n);
    SucceedAccounts(x, s, n, rs);
    match Decide(st, rs, outcome)
    case Reuse => SucceedFrame(Enter(st, s).(reusable := false), s, st.primary.value, rs);
    case Launch(name) => SucceedAccounts(x.(primary := Some(n), reusable := false, socket := name), s, n, rs);
    case _ =>
  }

  lemma AtAccounts(x: State, s: Session, n: Ctx)
    ensures Accounted(At(x, s, Failing(n)), n)
  {
    assert At(x, s, Failing(n)).pcs[s] == Failing(n);
  }

  lemma SucceedAccounts(x: State, s: Session, n: Ctx, rs: bool)
    requires s in x.locals
    ensures Accounted(Succeed(x, s, n, rs), n)
  {
    assert Succeed(x, s, n, rs).locals[s].ctx == Some(n);
  }

  lemma AgainAccountsReused(st: State, s: Session, rs: bool, n: Ctx, outcome: Outcome)
    requires Reuses(st, rs)
    ensures Accounted(AgainStep(st, s, rs, n, outcome), st.primary.value)
  {
    var st' := AgainStep(st, s, rs, n, outcome);
    assert s in st'.locals && st'.locals[s].ctx == st.primary;
  }

  lemma AgainAccountsOther(st: State, step: Step, c: Ctx)
    requires step.Again? && Enabled(st, step) && !Overwrites(st, step) && Accounted(st, c)
    requires !(Reuses(st, st.PcOf(step.s).requireSocket) && st.primary == Some(c))
    ensures Accounted(Next(st, step), c)
  {
    var s, rs, st' := step.s, st.PcOf(step.s).requireSocket, Next(st, step);
    AgainTouchesOnly(st, s, rs, step.ctx, step.outcome);
    AgainKeepsParked(st, s, rs, step.ctx, step.outcome);
    FailsWhen(st, s, rs, step.ctx, step.outcome);
    hide AgainStep, Decide;
    if HeldBySomeone(st, c) {
      var t :| t in st.locals && st.locals[t].ctx == Some(c);
      assert st'.locals[t].ctx == Some(c);
    } else if AboutToFail(st, c) {
      var t :| t in st.pcs && st.pcs[t] == Failing(c);
      assert st'.pcs[t] == Failing(c);
    }
  }

  lemma AgainKeepsParked(st: State, s: Session, rs: bool, n: Ctx, outcome: Outcome)
    ensures var st' := AgainStep(st, s, rs, n, outcome);
            && (st.reusable && st.primary.Some? && !Reuses(st, rs) ==> st'.reusable && st'.primary == st.primary)
            && (s in st.locals && st'.PcOf(s).Failing? ==> s in st'.locals && st'.locals[s].ctx == st.locals[s].ctx)
  {
  }

  ghost predicate TouchesOnly(locals: map<Session, Local>, pcs: map<Session, Pc>, st': State, s: Session) {
    && s in st'.locals && st'.locals == locals[s := st'.locals[s]]
    && s in st'.pcs && st'.pcs == pcs[s := st'.pcs[s]]
  }

  lemma SucceedTouchesOnly(st: State, x: State, s: Session, c: Ctx, rs: bool)
    requires x.locals == Enter(st, s).locals && x.pcs == st.pcs && s in x.locals
    ensures TouchesOnly(st.locals, st.pcs, Succeed(x, s, c, rs), s)
    ensures TouchesOnly(st.locals, st.pcs, At(x, s, Failing(c)), s)
  {
  }

  lemma AgainTouchesOnly(st: State, s: Session, rs: bool, n: Ctx, outcome: Outcome)
    ensures TouchesOnly(st.locals, st.pcs, AgainStep(st, s, rs, n, outcome), s)
  {
    hide TouchesOnly, Enter, Succeed, At, Decide, AgainStep;
    AgainStepIs(st, s, rs, n, outcome);
    DecideFacts(st, rs, outcome);
    var e := Enter(st, s);
    assert e.pcs == st.pcs by { EnterSame(st, s); }
    var x := e.(created := st.created + {n});
    SucceedTouchesOnly(st, x, s, n, rs);
    match Decide(st, rs, outcome)
    case Reuse => SucceedTouchesOnly(st, e.(reusable := false), s, st.primary.value, rs);
    case Launch(name) => SucceedTouchesOnly(st, x.(primary := Some(n), reusable := false, socket := name), s, n, rs);
    case _ =>
  }

  lemma RetryAccounts(st: State, s: Session, pc: Pc, c: Ctx)
    requires !st.PcOf(s).Failing? && Accounted(st, c)
    ensures Accounted(At(st, s, pc), c)
  {
    hide Accounted;
    StillAccounted(st, At(st, s, pc), c);
  }

  lemma StepAccounts(st: State, step: Step, c: Ctx)
    requires Enabled(st, step) && !Overwrites(st, step)
    requires (Live(st, c) ==> Accounted(st, c)) && Live(Next(st, step), c)
    ensures Accounted(Next(st, step), c)
  {
    hide Accounted, Overwrites, AgainStep;
    match step
    case Start(s, rs) => StartAccounts(st, s, rs, c);
    case Again(s, n, outcome) => AgainAccounts(st, step, c);
    case Check(s) =>
      RetryAccounts(st, s, if st.primary == Some(st.PcOf(s).ctx) then Retrying else Idle, c);
    case Retry(s) =>
      UnlockAccounts(st, s, c);
      RetryAccounts(UnlockLocal(st, s), s, AtAgain(true), c);
    case FailFinish(s) => FailFinishAccounts(st, s, c);
    case Unlock(s) => UnlockAccounts(st, s, c);
    case Reset(s) => ResetAccounts(st, s, c);
    case Death => DeathAccounts(st, c);
  }

  /** A pass that overwrites the session's context loses it. */
  lemma OverwrittenIsLost(st: State, step: Step)
    requires Inv(st) && Overwrites(st, step)
    ensures Live(Next(st, step), st.locals[step.s].ctx.value) && !Accounted(Next(st, step), st.locals[step.s].ctx.value)
  {
    var s, c := step.s, st.locals[step.s].ctx.value;
    var rs, st' := st.PcOf(s).requireSocket, Next(st, step);
    OverwritingPass(st, s, rs, step.ctx, step.outcome);
    AgainTouchesOnly(st, s, rs, step.ctx, step.outcome);
    FailsWhen(st, s, rs, step.ctx, step.outcome);
    NobodyElse(st, s, c);
    hide AgainStep, Decide, Inv;
    assert st' == AgainStep(st, s, rs, step.ctx, step.outcome);
    hide *;
    LostWhen(st, st', s, c);
  }

  lemma NobodyElse(st: State, s: Session, c: Ctx)
    requires Inv(st) && s in st.locals && st.locals[s].ctx == Some(c)
    ensures forall t :: t in st.locals && t != s ==> st.locals[t].ctx != Some(c)
    ensures forall t :: t in st.pcs ==> st.pcs[t] != Failing(c)
  {
  }

  lemma LostWhen(st: State, st': State, s: Session, c: Ctx)
    requires forall t :: t in st.locals && t != s ==> st.locals[t].ctx != Some(c)
    requires forall t :: t in st.pcs ==> st.pcs[t] != Failing(c)
    requires TouchesOnly(st.locals, st.pcs, st', s) && st'.locals[s].ctx != Some(c) && !st'.PcOf(s).Failing?
    requires st'.reusable ==> st'.primary != Some(c)
    ensures !Accounted(st', c)
  {
  }

  lemma OverwritingPass(st: State, s: Session, rs: bool, n: Ctx, outcome: Outcome)
    requires Inv(st) && s in st.locals && st.locals[s].ctx.Some? && n !in st.created
    ensures var st' := AgainStep(st, s, rs, n, outcome);
            && (!st'.PcOf(s).Failing? ==> s in st'.locals && st'.locals[s].ctx != st.locals[s].ctx)
            && Live(st', st.locals[s].ctx.value)
            && (st'.reusable ==> st'.primary != st.locals[s].ctx)
  {
    hide NoSharing, ListOk, FailingOk;
  }

  /**
   Exactly when a step keeps every live context accounted for: unless it is a pass that gets a
   connection for a session that still has one.
   */
  lemma NothingIsLostUnless(st: State, step: Step)
    requires Inv(st) && AllAccounted(st) && Enabled(st, step)
    ensures AllAccounted(Next(st, step)) <==> !Overwrites(st, step)
  {
    hide Inv, Accounted, Overwrites, Next;
    if Overwrites(st, step) {
      OverwritesIs(st, step);
      OverwrittenIsLost(st, step);
    } else {
      forall c: Ctx | Live(Next(st, step), c)
        ensures Accounted(Next(st, step), c)
      {
        StepAccounts(st, step, c);
      }
    }
  }

  lemma OverwritesIs(st: State, step: Step)
    requires Overwrites(st, step)
    ensures step.Again? && step.s in st.locals && st.locals[step.s].ctx.Some?
  {
  }

  lemma PipeOnlyNeverOverwrites(st: State, step: Step)
    requires PipeOnly(st)
    ensures !Overwrites(st, step)
  {
  }

  lemma AgainPipeOnly(st: State, s: Session, n: Ctx, outcome: Outcome)
    requires PipeOnly(st) && st.PcOf(s) == AtAgain(false)
    ensures PipeOnly(AgainStep(st, s, false, n, outcome))
  {
    AgainTouchesOnly(st, s, false, n, outcome);
    AgainEnds(st, s, n, outcome);
    hide AgainStep;
  }

  lemma AgainEnds(st: State, s: Session, n: Ctx, outcome: Outcome)
    ensures var st' := AgainStep(st, s, false, n, outcome);
            s in st'.pcs && (st'.pcs[s] == Idle || st'.pcs[s] == Failing(n)) && st'.socketUsed == st.socketUsed
  {
    hide Enter, Decide, AgainStep;
    EnterSame(st, s);
    AgainStepIs(st, s, false, n, outcome);
  }

  lemma EnterSame(st: State, s: Session)
    ensures Enter(st, s).socketUsed == st.socketUsed && Enter(st, s).pcs == st.pcs && s in Enter(st, s).locals
    ensures Enter(st, s).primary == st.primary
  {
  }

  lemma {:induction false} InvalidateAllPipeOnly(st: State, todo: seq<Session>)
    requires PipeOnly(st) && forall s :: s in todo ==> s in st.locals
    ensures PipeOnly(InvalidateAll(st, todo))
    decreases todo
  {
    if todo != [] {
      assert todo[0] in todo;
      InvalidateAllPipeOnly(Invalidate(st, todo[0]), todo[1..]);
    }
  }

  lemma AtPipeOnly(st: State, s: Session, pc: Pc)
    requires PipeOnly(st) && (pc == Idle || (pc == AtAgain(false) && (s in st.locals ==> st.locals[s].ctx == None)))
    ensures PipeOnly(At(st, s, pc))
  {
  }

  lemma StartPipeOnly(st: State, s: Session)
    requires PipeOnly(st)
    ensures PipeOnly(StartStep(st, s, false))
  {
    hide PipeOnly, At;
    if s in st.locals && st.locals[s].ctx.Some? {
      SetLocalPipeOnly(st, s, st.locals[s].(inUse := true));
    } else if !(s in st.locals && st.locals[s].inUse) {
      AtPipeOnly(st, s, AtAgain(false));
      assert At(st, s, AtAgain(false)).socketUsed == st.socketUsed by { AtSame(st, s, AtAgain(false)); }
    }
  }

  lemma AtSame(st: State, s: Session, pc: Pc)
    ensures At(st, s, pc).socketUsed == st.socketUsed
  {
  }

  lemma SetLocalPipeOnly(st: State, s: Session, l: Local)
    requires PipeOnly(st) && s in st.locals && (l.ctx == None || l.ctx == st.locals[s].ctx)
    ensures PipeOnly(SetLocal(st, s, l))
  {
  }

  lemma ReleasePipeOnly(st: State, c: Option<Ctx>)
    requires PipeOnly(st)
    ensures PipeOnly(Release(st, c))
  {
  }

  lemma ResetPipeOnly(st: State, s: Session)
    requires PipeOnly(st)
    ensures PipeOnly(ResetStep(st, s))
  {
    hide Unlinked;
  }

  lemma DeathPipeOnly(st: State)
    requires PipeOnly(st) && forall s :: s in st.list ==> s in st.locals
    ensures PipeOnly(DeathStep(st))
  {
    InvalidateAllPipeOnly(st, st.list);
    hide InvalidateAll;
  }

  lemma FailFinishPipeOnly(st: State, s: Session, c: Ctx)
    requires PipeOnly(st) && s in st.locals
    ensures PipeOnly(At(Release(UnlockLocal(st, s), Some(c)), s, Idle))
  {
    hide *;
    UnlockPipeOnly(st, s);
    ReleasePipeOnly(UnlockLocal(st, s), Some(c));
    AtPipeOnly(Release(UnlockLocal(st, s), Some(c)), s, Idle);
  }

  lemma CheckPipeOnly(st: State, s: Session)
    requires PipeOnly(st)
    ensures s in st.pcs ==> !st.pcs[s].Checking? && !st.pcs[s].Retrying? && st.pcs[s] != AtAgain(true)
  {
  }

  lemma StepPipeOnly(st: State, step: Step)
    requires PipeOnly(st) && Enabled(st, step) && !(step.Start? && step.requireSocket)
    ensures PipeOnly(Next(st, step))
  {
    hide PipeOnly, StartStep, AgainStep, UnlockLocal, ResetStep, DeathStep, Release, At;
    if !step.Death? {
      CheckPipeOnly(st, step.s);
    }
    match step
    case Start(s, _) => StartPipeOnly(st, s);
    case Again(s, n, outcome) => AgainPipeOnly(st, s, n, outcome);
    case FailFinish(s) => FailFinishPipeOnly(st, s, st.PcOf(s).ctx);
    case Unlock(s) => UnlockPipeOnly(st, s);
    case Reset(s) => ResetPipeOnly(st, s);
    case Death => DeathPipeOnly(st);
    case _ =>
  }

  lemma UnlockPipeOnly(st: State, s: Session)
    requires PipeOnly(st) && s in st.locals
    ensures PipeOnly(UnlockLocal(st, s))
  {
  }

  ghost predicate AsksForNoSocket(steps: seq<Step>) {
    forall i :: 0 <= i < |steps| ==> !(steps[i].Start? && steps[i].requireSocket)
  }

  lemma {:induction false} TidyRun(st: State, steps: seq<Step>)
    requires Inv(st) && PipeOnly(st) && AllAccounted(st) && IsRun(st, steps) && AsksForNoSocket(steps)
    ensures AllAccounted(After(st, steps))
    decreases steps
  {
    if steps != [] {
      assert AsksForNoSocket(steps[1..]);
      hide Inv, PipeOnly, AllAccounted, Next, Overwrites;
      StepKeeps(st, steps[0]);
      StepPipeOnly(st, steps[0]);
      PipeOnlyNeverOverwrites(st, steps[0]);
      NothingIsLostUnless(st, steps[0]);
      TidyRun(Next(st, steps[0]), steps[1..]);
    }
  }

  /**
   In every run in which nobody insists on a socket, a context that exists and has not been
   released is held by exactly one session, or is the parked primary and held by nobody, or belongs
   to a start that is about to release it.
   */
  lemma NoContextIsLost(steps: seq<Step>, c: Ctx)
    requires IsRun(INIT, steps) && AsksForNoSocket(steps) && Live(After(INIT, steps), c)
    ensures var st := After(INIT, steps);
            || AboutToFail(st, c)
            || (st.reusable && st.primary == Some(c) && !HeldBySomeone(st, c))
            || exists s :: s in st.locals && st.locals[s].ctx == Some(c)
                           && forall t :: t in st.locals && t != s ==> st.locals[t].ctx != Some(c)
  {
    assert Inv(INIT) && PipeOnly(INIT) && AllAccounted(INIT);
    TidyRun(INIT, steps);
    RunKeeps(INIT, steps);
    hide IsRun, After;
  }

  lemma {:induction false} StepOn(st: State, step: Step, rest: seq<Step>)
    requires Enabled(st, step) && IsRun(Next(st, step), rest)
    ensures IsRun(st, [step] + rest) && After(st, [step] + rest) == After(Next(st, step), rest)
  {
    hide Enabled, Next;
    assert ([step] + rest)[1..] == rest;
  }

  /** The state after session 0 has insisted on a socket and got the primary connection 7 first. */
  const SOCKET_LOST := State(map[0 := Local(Some(8), true, false)], [0], true, Some(7), false,
                             map[0 := Idle], {7, 8}, {}, false, true)

  const SOCKET_START: seq<Step> := [Start(0, true)] + ([Again(0, 7, Connected(true))] + ([Check(0)] + []))
  const SOCKET_RETRY: seq<Step> := [Retry(0)] + ([Again(0, 8, Connected(true))] + ([Check(0)] + []))

  lemma SocketStart()
    ensures IsRun(INIT, SOCKET_START)
    ensures After(INIT, SOCKET_START) == SOCKET_LOST.(locals := map[0 := Local(Some(7), true, false)],
                                                      pcs := map[0 := Retrying], created := {7})
  {
    var s1 := Next(INIT, Start(0, true));
    var s2 := Next(s1, Again(0, 7, Connected(true)));
    hide IsRun, After;
    var s3 := Next(s2, Check(0));
    RunNothing(s3);
    StepOn(s2, Check(0), []);
    StepOn(s1, Again(0, 7, Connected(true)), [Check(0)] + []);
    StepOn(INIT, Start(0, true), [Again(0, 7, Connected(true))] + ([Check(0)] + []));
  }

  lemma RunNothing(st: State)
    ensures IsRun(st, []) && After(st, []) == st
  {
  }

  lemma SocketRetry(st: State)
    requires st == SOCKET_LOST.(locals := map[0 := Local(Some(7), true, false)], pcs := map[0 := Retrying], created := {7})
    ensures IsRun(st, SOCKET_RETRY) && After(st, SOCKET_RETRY) == SOCKET_LOST
  {
    hide IsRun, After;
    var s1 := Next(st, Retry(0));
    var s2 := Next(s1, Again(0, 8, Connected(true)));
    var s3 := Next(s2, Check(0));
    RunNothing(s3);
    StepOn(s2, Check(0), []);
    StepOn(s1, Again(0, 8, Connected(true)), [Check(0)] + []);
    StepOn(st, Retry(0), [Again(0, 8, Connected(true))] + ([Check(0)] + []));
  }

  /** Insisting on a socket can lose the primary connection: it stays open and nobody will release it. */
  lemma SocketLosesPrimary()
    ensures IsRun(INIT, SOCKET_START) && IsRun(After(INIT, SOCKET_START), SOCKET_RETRY)
    ensures var st := After(After(INIT, SOCKET_START), SOCKET_RETRY);
            Live(st, 7) && !Accounted(st, 7) && st.PcOf(0) == Idle
  {
    SocketStart();
    SocketRetry(After(INIT, SOCKET_START));
    hide IsRun, After, SOCKET_START, SOCKET_RETRY;
  }

  // ----- Asking for a socket ends -----

  lemma AgainPrimaryStays(st: State, s: Session, rs: bool, c: Ctx, outcome: Outcome)
    requires st.primary.Some?
    ensures AgainStep(st, s, rs, c, outcome).primary == st.primary
  {
    hide AgainStep, Decide, Enter, Succeed, At;
    DecideFacts(st, rs, outcome);
    AgainStepIs(st, s, rs, c, outcome);
    EnterSame(st, s);
    var e := Enter(st, s);
    var n := e.(created := st.created + {c});
    SucceedSamePrimary(n, s, c, rs);
    if Decide(st, rs, outcome) == Reuse {
      SucceedSamePrimary(e.(reusable := false), s, st.primary.value, rs);
    }
  }

  lemma SucceedSamePrimary(x: State, s: Session, c: Ctx, rs: bool)
    requires s in x.locals
    ensures Succeed(x, s, c, rs).primary == x.primary && At(x, s, Failing(c)).primary == x.primary
  {
  }

  lemma UnlockPrimaryStays(st: State, s: Session)
    requires s in st.locals
    ensures UnlockLocal(st, s).primary == st.primary
  {
  }

  /** Only the end of the daemon takes the primary connection away. */
  lemma PrimaryStays(st: State, step: Step)
    requires Enabled(st, step) && !step.Death? && st.primary.Some?
    ensures Next(st, step).primary == st.primary
  {
    hide AgainStep, DeathStep, UnlockLocal, Unlinked;
    match step
    case Again(s, c, outcome) => AgainPrimaryStays(st, s, st.PcOf(s).requireSocket, c, outcome);
    case Retry(s) => UnlockPrimaryStays(st, s);
    case FailFinish(s) => UnlockPrimaryStays(st, s);
    case Unlock(s) => UnlockPrimaryStays(st, s);
    case _ =>
  }

  lemma {:induction false} PrimaryStaysInRun(st: State, steps: seq<Step>)
    requires IsRun(st, steps) && st.primary.Some? && forall i :: 0 <= i < |steps| ==> !steps[i].Death?
    ensures After(st, steps).primary == st.primary
    decreases steps
  {
    if steps != [] {
      PrimaryStays(st, steps[0]);
      hide Next, Enabled;
      PrimaryStaysInRun(Next(st, steps[0]), steps[1..]);
    }
  }

  /**
   A session that got the primary connection in place of a socket goes round once more and no
   further, whatever the other sessions do meanwhile, unless the daemon ends: its next pass fails or
   gives it a connection that passes the comparison with the primary.
   */
  lemma SecondPassIsTheLast(st: State, steps: seq<Step>, s: Session, c: Ctx, outcome: Outcome, later: seq<Step>)
    requires Inv(st) && st.primary.Some? && IsRun(st, steps)
    requires forall i :: 0 <= i < |steps| ==> !steps[i].Death?
    requires forall i :: 0 <= i < |later| ==> !later[i].Death?
    requires Enabled(After(st, steps), Again(s, c, outcome)) && After(st, steps).PcOf(s) == AtAgain(true)
    requires IsRun(Next(After(st, steps), Again(s, c, outcome)), later)
    ensures var st' := Next(After(st, steps), Again(s, c, outcome));
            || st'.PcOf(s) == Failing(c)
            || (st'.PcOf(s) == Checking(c) && After(st', later).primary != Some(c))
  {
    var mid := After(st, steps);
    PrimaryStaysInRun(st, steps);
    RunKeeps(st, steps);
    assert Inv(mid) && Live(mid, mid.primary.value);
    PrimaryStays(mid, Again(s, c, outcome));
    PrimaryStaysInRun(Next(mid, Again(s, c, outcome)), later);
    hide IsRun, After, Inv;
    SocketPass(mid, s, c, outcome);
  }

  lemma SocketPass(st: State, s: Session, c: Ctx, outcome: Outcome)
    requires st.primary.Some?
    ensures AgainStep(st, s, true, c, outcome).PcOf(s) in {Failing(c), Checking(c)}
  {
  }

  // ----- Only the primary connection can be lost -----

  /** What a session on its way through `daemon_start` holds. */
  ghost predicate OnTheWay(pc: Pc, l: Local, primary: Option<Ctx>) {
    match pc
    case AtAgain(rs) => !l.inUse && (l.ctx.Some? ==> rs && l.ctx == primary)
    case Checking(c) => l.inUse && l.ctx == Some(c)
    case Retrying => l.inUse && (l.ctx.Some? && !l.invalid ==> l.ctx == primary)
    case _ => true
  }

  ghost predicate SocketOk(st: State) {
    forall s :: s in st.pcs && s in st.locals ==> OnTheWay(st.pcs[s], st.locals[s], st.primary)
  }

  lemma SocketAt(st: State, s: Session, pc: Pc)
    requires SocketOk(st) && (s in st.locals ==> OnTheWay(pc, st.locals[s], st.primary))
    ensures SocketOk(At(st, s, pc))
  {
  }

  lemma SocketSetLocal(st: State, s: Session, l: Local)
    requires SocketOk(st) && (s in st.pcs ==> OnTheWay(st.pcs[s], l, st.primary))
    ensures SocketOk(SetLocal(st, s, l))
  {
  }

  lemma SocketSame(st: State, st': State)
    requires SocketOk(st) && st'.locals == st.locals && st'.pcs == st.pcs && st'.primary == st.primary
    ensures SocketOk(st')
  {
  }

  lemma StartSocket(st: State, s: Session, rs: bool)
    requires SocketOk(st) && st.PcOf(s) == Idle
    ensures SocketOk(StartStep(st, s, rs))
  {
    if s in st.locals && st.locals[s].ctx.Some? {
      SocketSetLocal(st, s, st.locals[s].(inUse := true));
    } else if !(s in st.locals && st.locals[s].inUse) {
      SocketAt(st, s, AtAgain(rs));
    }
  }

  /** A pass changes one session; the others agree with the primary, which it does not replace. */
  lemma AgainSocket(st: State, s: Session, rs: bool, n: Ctx, outcome: Outcome)
    requires SocketOk(st)
    ensures SocketOk(AgainStep(st, s, rs, n, outcome))
  {
    var st' := AgainStep(st, s, rs, n, outcome);
    AgainTouchesOnly(st, s, rs, n, outcome);
    AgainHolds(st, s, rs, n, outcome);
    if st.primary.Some? {
      AgainPrimaryStays(st, s, rs, n, outcome);
    }
    hide AgainStep;
    forall t | t in st'.pcs && t in st'.locals
      ensures OnTheWay(st'.pcs[t], st'.locals[t], st'.primary)
    {
      if t != s {
        assert st'.pcs[t] == st.pcs[t] && st'.locals[t] == st.locals[t];
      }
    }
  }

  lemma AgainHolds(st: State, s: Session, rs: bool, n: Ctx, outcome: Outcome)
    ensures var st' := AgainStep(st, s, rs, n, outcome);
            s in st'.pcs && s in st'.locals && OnTheWay(st'.pcs[s], st'.locals[s], st'.primary)
  {
    hide Enter, Decide, AgainStep, Succeed, At, OnTheWay;
    AgainStepIs(st, s, rs, n, outcome);
    DecideFacts(st, rs, outcome);
    EnterUses(st, s);
    var e := Enter(st, s);
    var x := e.(created := st.created + {n});
    SucceedHolds(x, s, n, rs);
    match Decide(st, rs, outcome)
    case Reuse => SucceedHolds(e.(reusable := false), s, st.primary.value, rs);
    case Launch(name) => SucceedHolds(x.(primary := Some(n), reusable := false, socket := name), s, n, rs);
    case _ =>
  }

  lemma EnterUses(st: State, s: Session)
    ensures s in Enter(st, s).locals && Enter(st, s).locals[s].inUse
  {
  }

  lemma SucceedHolds(x: State, s: Session, c: Ctx, rs: bool)
    requires s in x.locals && x.locals[s].inUse
    ensures var st' := Succeed(x, s, c, rs);
            s in st'.pcs && s in st'.locals && OnTheWay(st'.pcs[s], st'.locals[s], st'.primary)
    ensures var st' := At(x, s, Failing(c));
            s in st'.pcs && s in st'.locals && OnTheWay(st'.pcs[s], st'.locals[s], st'.primary)
  {
  }

  lemma UnlockSocket(st: State, s: Session, pc: Pc)
    requires SocketOk(st) && s in st.locals && OnTheWay(pc, UnlockLocal(st, s).locals[s], st.primary)
    ensures SocketOk(At(UnlockLocal(st, s), s, pc))
  {
  }

  /** The record is marked, and has no context unless it is in use. */
  predicate DoneWith(l: Local) {
    l.invalid && (l.inUse || l.ctx == None)
  }

  /** What the watcher may do to a record. */
  predicate Aged(l: Local, l': Local) {
    l'.inUse == l.inUse && (l.inUse ==> l'.ctx == l.ctx) && (DoneWith(l) ==> DoneWith(l'))
  }

  ghost predicate AllAged(st: State, st': State) {
    && st'.pcs == st.pcs && st'.locals.Keys == st.locals.Keys
    && forall s :: s in st.locals ==> Aged(st.locals[s], st'.locals[s])
  }

  lemma InvalidateAges(st: State, s: Session)
    requires s in st.locals
    ensures AllAged(st, Invalidate(st, s)) && DoneWith(Invalidate(st, s).locals[s])
  {
  }

  lemma {:induction false} InvalidateAllSocket(st: State, todo: seq<Session>)
    requires forall s :: s in todo ==> s in st.locals
    ensures AllAged(st, InvalidateAll(st, todo))
    ensures forall s :: s in todo ==> DoneWith(InvalidateAll(st, todo).locals[s])
    decreases todo
  {
    hide Invalidate, DoneWith, Aged, AllAged;
    if todo == [] {
      AgedSelf(st);
    } else {
      assert todo[0] in todo;
      var next := Invalidate(st, todo[0]);
      InvalidateAges(st, todo[0]);
      AgedKeys(st, next);
      InvalidateAllSocket(next, todo[1..]);
      var last := InvalidateAll(next, todo[1..]);
      AgedTwice(st, next, last);
      AgedDone(next, last, todo[0]);
      assert forall s :: s in todo ==> s == todo[0] || s in todo[1..];
    }
  }

  lemma AgedSelf(st: State)
    ensures AllAged(st, st)
  {
  }

  lemma AgedKeys(a: State, b: State)
    requires AllAged(a, b)
    ensures forall s :: s in a.locals <==> s in b.locals
  {
  }

  lemma AgedTwice(a: State, b: State, c: State)
    requires AllAged(a, b) && AllAged(b, c)
    ensures AllAged(a, c)
  {
    forall s | s in a.locals
      ensures Aged(a.locals[s], c.locals[s])
    {
      assert s in b.locals && Aged(a.locals[s], b.locals[s]) && Aged(b.locals[s], c.locals[s]);
    }
  }

  lemma AgedDone(a: State, b: State, s: Session)
    requires AllAged(a, b) && s in a.locals && DoneWith(a.locals[s])
    ensures s in b.locals && DoneWith(b.locals[s])
  {
  }

  lemma DeathSocket(st: State)
    requires SocketOk(st) && ListOk(st)
    ensures SocketOk(DeathStep(st))
  {
    InvalidateAllSocket(st, st.list);
    var x := InvalidateAll(st, st.list);
    hide InvalidateAll;
    var st' := DeathStep(st);
    assert st'.locals == x.locals && st'.pcs == st.pcs;
    hide DeathStep;
    forall s | s in st'.pcs && s in st'.locals
      ensures OnTheWay(st'.pcs[s], st'.locals[s], st'.primary)
    {
      assert s in st.list && DoneWith(x.locals[s]) && OnTheWay(st.pcs[s], st.locals[s], st.primary);
    }
  }

  lemma ResetSocket(st: State, s: Session)
    requires SocketOk(st)
    ensures SocketOk(ResetStep(st, s))
  {
    hide Unlinked;
  }

  lemma StepSocket(st: State, step: Step)
    requires SocketOk(st) && Inv(st) && Enabled(st, step)
    ensures SocketOk(Next(st, step))
  {
    hide SocketOk, StartStep, AgainStep, ResetStep, DeathStep, InvalidateAll;
    match step
    case Start(s, rs) => StartSocket(st, s, rs);
    case Again(s, n, outcome) => AgainSocket(st, s, st.PcOf(s).requireSocket, n, outcome);
    case Check(s) =>
      WayOf(st, s);
      SocketAt(st, s, if st.primary == Some(st.PcOf(s).ctx) then Retrying else Idle);
    case Retry(s) =>
      WayOf(st, s);
      UnlockSocket(st, s, AtAgain(true));
    case FailFinish(s) =>
      UnlockSocket(st, s, Idle);
      SocketSame(At(UnlockLocal(st, s), s, Idle), Next(st, step));
    case Unlock(s) => UnlockIdle(st, s);
    case Reset(s) => ResetSocket(st, s);
    case Death => DeathSocket(st);
  }

  lemma WayOf(st: State, s: Session)
    requires SocketOk(st)
    ensures s in st.pcs && s in st.locals ==> OnTheWay(st.pcs[s], st.locals[s], st.primary)
  {
  }

  lemma UnlockIdle(st: State, s: Session)
    requires SocketOk(st) && s in st.locals && st.PcOf(s) == Idle
    ensures SocketOk(UnlockLocal(st, s))
  {
  }

  lemma {:induction false} SocketRun(st: State, steps: seq<Step>)
    requires SocketOk(st) && Inv(st) && IsRun(st, steps)
    ensures SocketOk(After(st, steps))
    decreases steps
  {
    if steps != [] {
      hide SocketOk, Inv, Next, Enabled;
      StepKeeps(st, steps[0]);
      StepSocket(st, steps[0]);
      SocketRun(Next(st, steps[0]), steps[1..]);
    }
  }

  /** In every run a pass that loses a context insisted on a socket and loses the primary connection. */
  lemma OnlyPrimaryIsLost(steps: seq<Step>, step: Step)
    requires IsRun(INIT, steps) && Overwrites(After(INIT, steps), step)
    ensures var st := After(INIT, steps);
            st.PcOf(step.s) == AtAgain(true) && st.primary.Some? && st.locals[step.s].ctx == st.primary
  {
    assert SocketOk(INIT) && Inv(INIT);
    SocketRun(INIT, steps);
    hide IsRun, After, Decide;
    WayOf(After(INIT, steps), step.s);
  }
}
