/**
 The dialogs that use the pinentry.  Each starts it, talks to it and gives it back; the callback
 that checks a passphrase may itself run further dialogs.  What the pinentry, the caller's callback
 and the system answer is a script, so a statement for all scripts is one for all return paths.
 */
module Pinentry {
  import opened Wrappers
  import opened Bytes
  import opened PinentryLock

  datatype Code =
    | Success | BadPassphrase | BadPin | BadResetCode | TooMuchData | UnknownCmd | LockTimeout
    | InvValue | NoPinEntry | Canceled | Eof | OtherCode(n: nat)

  type Error = c: Code | c != Success witness BadPin

  datatype Mode = Ask | Cancel | Loopback | OtherMode

  /** A command to the pinentry, its answer, and the answers that do not end the dialog. */
  datatype Transaction = Transaction(rc: Code, tolerated: set<Code>)

  datatype Info = Info(minDigits: nat, maxDigits: nat, withRepeat: bool, hasCheck: bool, failedTries: int, maxTries: int)

  /** One round of the retry loop; the last one finds the connection to the pinentry closed. */
  datatype Rounds =
    | Hangup
    | Round(setError: Code, setRepeat: Code, getPin: Code, pin: bytes, generated: bool, fromCache: bool,
            nested: Calls, check: Code, rest: Rounds)

  datatype Calls = NoCalls | More(call: Call, others: Calls)

  datatype Call =
    | AskPin(batch: bool, mode: Mode, loopback: Code, inLoopback: Calls, valid: bool, start: Outcome, refusal: Error,
             setup: seq<Transaction>, repeatError: Code, info: Info, rounds: Rounds)
    | GetPassphrase(batch: bool, mode: Mode, loopback: Code, inLoopback: Calls, start: Outcome, refusal: Error,
                    setup: seq<Transaction>, hasInfo: bool, legacy: Code, repeatError: Code,
                    constraints: Code, info: Info, errtext: bool, rounds: Rounds)
    | GetConfirmation(mode: Mode, loopback: Code, start: Outcome, refusal: Error, setup: seq<Transaction>, confirm: Code)

  // ----- What a dialog answers -----

  datatype Verdict = Accept | Reject | Abort(rc: Error)

  predicate Malformed(info: Info, r: Rounds)
    requires r.Round?
  {
    || !AllDigits(r.pin)
    || (info.maxDigits > 0 && |r.pin| > info.maxDigits)
    || |r.pin| < info.minDigits
  }

  predicate MayBeRepeated(c: Code) {
    c.BadPassphrase? || c.BadPin? || c.BadResetCode?
  }

  /** What a round comes to; `errtext` says that an error from before has to be displayed. */
  function Judge(info: Info, errtext: bool, r: Rounds): Verdict
    requires r.Round?
  {
    if errtext && r.setError != Success then Abort(r.setError)
    else if info.withRepeat && r.setRepeat != Success then Abort(r.setRepeat)
    else if r.getPin == TooMuchData then Reject
    else if r.getPin != Success then Abort(r.getPin)
    else if r.generated then Accept
    else if info.minDigits > 0 && Malformed(info, r) then Reject
    else if !info.hasCheck || r.check == Success then Accept
    else if r.fromCache || !MayBeRepeated(r.check) then Abort(r.check)
    else Reject
  }

  function NoMoreTries(info: Info): Error {
    if info.minDigits > 0 then BadPin else BadPassphrase
  }

  /** The answer of the retry loop. */
  function Answer(info: Info, errtext: bool, rounds: Rounds): Code
    decreases rounds
  {
    if info.failedTries >= info.maxTries then NoMoreTries(info)
    else if rounds.Hangup? then Eof
    else
      match Judge(info, errtext, rounds)
      case Accept => Success
      case Abort(rc) => rc
      case Reject => Answer(Charged(info, rounds), true, rounds.rest)
  }

  /** A rejected passphrase counts as a try unless the pinentry took it from its own cache. */
  function Charged(info: Info, r: Rounds): Info
    requires r.Round?
  {
    info.(failedTries := info.failedTries + if r.fromCache then 0 else 1)
  }

  /** The number of failed tries when the loop ends. */
  function TriesAfter(info: Info, errtext: bool, rounds: Rounds): int
    decreases rounds
  {
    if info.failedTries >= info.maxTries || rounds.Hangup? || Judge(info, errtext, rounds) != Reject then info.failedTries
    else TriesAfter(Charged(info, rounds), true, rounds.rest)
  }

  function FirstFailure(setup: seq<Transaction>): Code {
    if setup == [] then Success
    else if setup[0].rc != Success && setup[0].rc !in setup[0].tolerated then setup[0].rc
    else FirstFailure(setup[1..])
  }

  function RepeatIf(info: Info, repeatError: Code): Info {
    info.(withRepeat := info.withRepeat && repeatError == Success)
  }

  /** `reports` says that `start_pinentry` returned success. */
  function Result(call: Call, reports: bool): Code {
    match call
    case AskPin(batch, mode, loopback, _, valid, start, refusal, setup, repeatError, info, rounds) =>
      if batch then Success
      else if mode != Ask then WithoutPinentry(mode, loopback)
      else if !valid then InvValue
      else if !reports then Refusal(start, refusal)
      else if FirstFailure(setup) != Success then FirstFailure(setup)
      else Answer(RepeatIf(info, repeatError), false, rounds)
    case GetPassphrase(batch, mode, loopback, _, start, refusal, setup, hasInfo, legacy, repeatError, constraints,
                       info, errtext, rounds) =>
      if batch then BadPassphrase
      else if mode != Ask then WithoutPinentry(mode, loopback)
      else if !reports then Refusal(start, refusal)
      else if FirstFailure(setup) != Success then FirstFailure(setup)
      else if !hasInfo then legacy
      else if info.withRepeat && constraints != Success then constraints
      else Answer(RepeatIf(info, repeatError), errtext, rounds)
    case GetConfirmation(mode, loopback, start, refusal, setup, confirm) =>
      if mode != Ask then WithoutPinentry(mode, loopback)
      else if !reports then Refusal(start, refusal)
      else if FirstFailure(setup) != Success then FirstFailure(setup)
      else confirm
  }

  function WithoutPinentry(mode: Mode, loopback: Code): Code {
    if mode == Cancel then Canceled else if mode == Loopback then loopback else NoPinEntry
  }

  function Refusal(start: Outcome, refusal: Error): Error {
    if start.Timeout? then LockTimeout else refusal
  }

  // ----- When the retry loop accepts -----

  function Nth(rounds: Rounds, k: nat): Rounds
    decreases k
  {
    if k == 0 || rounds.Hangup? then rounds else Nth(rounds.rest, k - 1)
  }

  /** How many of the first `k` rounds count as tries. */
  function Counted(rounds: Rounds, k: nat): nat
    decreases k
  {
    if k == 0 || rounds.Hangup? then 0 else (if rounds.fromCache then 0 else 1) + Counted(rounds.rest, k - 1)
  }

  /** The first `k` rounds are all rejected, and none of them is the last one allowed. */
  ghost predicate RejectedSoFar(info: Info, errtext: bool, rounds: Rounds, k: nat) {
    forall i: nat :: i <= k ==>
      && info.failedTries + Counted(rounds, i) < info.maxTries && Nth(rounds, i).Round?
      && (i < k ==> Judge(info, errtext || i > 0, Nth(rounds, i)) == Reject)
  }

  lemma {:induction false} AcceptedOnlyIf(info: Info, errtext: bool, rounds: Rounds) returns (k: nat)
    requires Answer(info, errtext, rounds) == Success
    ensures RejectedSoFar(info, errtext, rounds, k) && Judge(info, errtext || k > 0, Nth(rounds, k)) == Accept
    decreases rounds
  {
    assert Counted(rounds, 0) == 0 && Nth(rounds, 0) == rounds;
    if Judge(info, errtext, rounds) == Accept {
      k := 0;
    } else {
      var j := AcceptedOnlyIf(Charged(info, rounds), true, rounds.rest);
      k := j + 1;
      JudgeIgnoresTries(info, Charged(info, rounds));
      forall i: nat | i <= k
        ensures info.failedTries + Counted(rounds, i) < info.maxTries && Nth(rounds, i).Round?
        ensures i < k ==> Judge(info, errtext || i > 0, Nth(rounds, i)) == Reject
      {
        if i > 0 {
          assert Nth(rounds, i) == Nth(rounds.rest, i - 1);
          assert Counted(rounds, i) == (if rounds.fromCache then 0 else 1) + Counted(rounds.rest, i - 1);
        }
      }
    }
  }

  lemma JudgeIgnoresTries(info: Info, other: Info)
    requires other == info.(failedTries := other.failedTries)
    ensures forall e: bool, r: Rounds :: r.Round? ==> Judge(info, e, r) == Judge(other, e, r)
  {
  }

  lemma {:induction false} AcceptedIf(info: Info, errtext: bool, rounds: Rounds, k: nat)
    requires RejectedSoFar(info, errtext, rounds, k) && Judge(info, errtext || k > 0, Nth(rounds, k)) == Accept
    ensures Answer(info, errtext, rounds) == Success
    decreases k
  {
    assert Counted(rounds, 0) == 0 && Nth(rounds, 0) == rounds;
    if k > 0 {
      JudgeIgnoresTries(info, Charged(info, rounds));
      forall i: nat | i <= k - 1
        ensures Charged(info, rounds).failedTries + Counted(rounds.rest, i) < info.maxTries && Nth(rounds.rest, i).Round?
        ensures i < k - 1 ==> Judge(info, true, Nth(rounds.rest, i)) == Reject
      {
        assert Nth(rounds, i + 1) == Nth(rounds.rest, i);
        assert Counted(rounds, i + 1) == (if rounds.fromCache then 0 else 1) + Counted(rounds.rest, i);
      }
      assert Nth(rounds, k) == Nth(rounds.rest, k - 1);
      AcceptedIf(Charged(info, rounds), true, rounds.rest, k - 1);
    }
  }

  /**
   The loop reports success if and only if some round is accepted, all before it were rejected, and
   fewer of those counted as tries than were left.
   */
  lemma AcceptedIff(info: Info, errtext: bool, rounds: Rounds)
    ensures Answer(info, errtext, rounds) == Success <==>
            exists k: nat :: RejectedSoFar(info, errtext, rounds, k)
                             && Judge(info, errtext || k > 0, Nth(rounds, k)) == Accept
  {
    if Answer(info, errtext, rounds) == Success {
      var _ := AcceptedOnlyIf(info, errtext, rounds);
    }
    forall k: nat | RejectedSoFar(info, errtext, rounds, k) && Judge(info, errtext || k > 0, Nth(rounds, k)) == Accept
      ensures Answer(info, errtext, rounds) == Success
    {
      AcceptedIf(info, errtext, rounds, k);
    }
  }

  /**
   A round is accepted if and only if the pinentry took the commands before it, a passphrase was
   obtained, and this was generated or has the digits asked for and passes the check if there is one.
   */
  lemma RoundAcceptedIff(info: Info, errtext: bool, r: Rounds)
    requires r.Round?
    ensures Judge(info, errtext, r) == Accept <==>
            && (errtext ==> r.setError == Success) && (info.withRepeat ==> r.setRepeat == Success)
            && r.getPin == Success
            && (|| r.generated
                || (&& (info.minDigits > 0 ==>
                          && (forall i :: 0 <= i < |r.pin| ==> '0' <= r.pin[i] <= '9')
                          && info.minDigits <= |r.pin| && (info.maxDigits > 0 ==> |r.pin| <= info.maxDigits))
                    && (info.hasCheck ==> r.check == Success)))
  {
  }

  /**
   A round is followed by another one if and only if the passphrase was too long, is not made of the
   digits asked for, or is called bad by the check and did not come from the pinentry's own cache.
   */
  lemma RoundRejectedIff(info: Info, errtext: bool, r: Rounds)
    requires r.Round?
    ensures Judge(info, errtext, r) == Reject <==>
            && (errtext ==> r.setError == Success) && (info.withRepeat ==> r.setRepeat == Success)
            && (|| r.getPin == TooMuchData
                || (&& r.getPin == Success && !r.generated
                    && (var digits := info.minDigits > 0 ==>
                          && (forall i :: 0 <= i < |r.pin| ==> '0' <= r.pin[i] <= '9')
                          && info.minDigits <= |r.pin| && (info.maxDigits > 0 ==> |r.pin| <= info.maxDigits);
                        digits ==>
                          && info.hasCheck && !r.fromCache
                          && (r.check == BadPassphrase || r.check == BadPin || r.check == BadResetCode))))
  {
  }

  /**
   A round ends the dialog with an error if and only if the pinentry refuses a command before it, the
   passphrase cannot be had, or the check fails for another reason than a bad passphrase or on one
   from the pinentry's own cache; the answer is the code of what failed.
   */
  lemma RoundAbortsWith(info: Info, errtext: bool, r: Rounds, rc: Error)
    requires r.Round?
    ensures Judge(info, errtext, r) == Abort(rc) <==>
            var shown := errtext ==> r.setError == Success;
            var repeat := info.withRepeat ==> r.setRepeat == Success;
            var digits := info.minDigits > 0 ==>
                            && (forall i :: 0 <= i < |r.pin| ==> '0' <= r.pin[i] <= '9')
                            && info.minDigits <= |r.pin| && (info.maxDigits > 0 ==> |r.pin| <= info.maxDigits);
            || (!shown && rc == r.setError)
            || (shown && !repeat && rc == r.setRepeat)
            || (shown && repeat && r.getPin != Success && r.getPin != TooMuchData && rc == r.getPin)
            || (&& shown && repeat && r.getPin == Success && !r.generated && digits && info.hasCheck
                && r.check != Success && (r.fromCache || !(r.check == BadPassphrase || r.check == BadPin || r.check == BadResetCode))
                && rc == r.check)
  {
  }

  /**
   How the loop ends, in all cases: after `k` rejected rounds it runs out of tries, finds the pinentry
   gone, or gets a round that is accepted or ends it with an error.  The tries counted are those of
   the rejected rounds.
   */
  lemma {:induction false} AnswerIs(info: Info, errtext: bool, rounds: Rounds) returns (k: nat)
    ensures forall i: nat :: i < k ==>
              && info.failedTries + Counted(rounds, i) < info.maxTries
              && Nth(rounds, i).Round? && Judge(info, errtext || i > 0, Nth(rounds, i)) == Reject
    ensures var tries, last := info.failedTries + Counted(rounds, k), Nth(rounds, k);
            && TriesAfter(info, errtext, rounds) == tries
            && (tries >= info.maxTries ==>
                  Answer(info, errtext, rounds) == if info.minDigits > 0 then BadPin else BadPassphrase)
            && (tries < info.maxTries && last.Hangup? ==> Answer(info, errtext, rounds) == Eof)
            && (tries < info.maxTries && last.Round? ==>
                  var verdict := Judge(info, errtext || k > 0, last);
                  verdict != Reject && Answer(info, errtext, rounds) == if verdict.Abort? then verdict.rc else Success)
    decreases rounds
  {
    assert Counted(rounds, 0) == 0 && Nth(rounds, 0) == rounds;
    k := 0;
    if info.failedTries < info.maxTries && rounds.Round? && Judge(info, errtext, rounds) == Reject {
      var j := AnswerIs(Charged(info, rounds), true, rounds.rest);
      k := j + 1;
      JudgeIgnoresTries(info, Charged(info, rounds));
      TriesAfterRejected(info, errtext, rounds);
      hide Judge, Counted, Nth, TriesAfter;
      forall i: nat | i <= k
        ensures i > 0 ==> Nth(rounds, i) == Nth(rounds.rest, i - 1)
        ensures i > 0 ==> Counted(rounds, i) == (if rounds.fromCache then 0 else 1) + Counted(rounds.rest, i - 1)
      {
        if i > 0 {
          OneRound(rounds, i);
        }
      }
    }
  }

  lemma OneRound(rounds: Rounds, i: nat)
    requires rounds.Round? && i > 0
    ensures Nth(rounds, i) == Nth(rounds.rest, i - 1)
    ensures Counted(rounds, i) == (if rounds.fromCache then 0 else 1) + Counted(rounds.rest, i - 1)
  {
  }

  lemma TriesAfterRejected(info: Info, errtext: bool, rounds: Rounds)
    requires info.failedTries < info.maxTries && rounds.Round? && Judge(info, errtext, rounds) == Reject
    ensures TriesAfter(info, errtext, rounds) == TriesAfter(Charged(info, rounds), true, rounds.rest)
  {
  }

  /** A rejected passphrase never uses up more tries than are allowed. */
  lemma {:induction false} TriesAreBounded(info: Info, errtext: bool, rounds: Rounds)
    requires info.failedTries <= info.maxTries
    ensures TriesAfter(info, errtext, rounds) <= info.maxTries
    decreases rounds
  {
    if info.failedTries < info.maxTries && rounds.Round? && Judge(info, errtext, rounds) == Reject {
      TriesAreBounded(Charged(info, rounds), true, rounds.rest);
    }
  }

  /**
   A PIN dialog that asks the user succeeds only if the pinentry was started, took all commands, and
   in some round, after fewer rejected tries than were left, gave a passphrase that is accepted.
   */
  lemma AskPinSucceedsOnlyIf(call: Call, reports: bool) returns (k: nat)
    requires call.AskPin? && !call.batch && call.mode == Ask && Result(call, reports) == Success
    ensures reports && call.valid
    ensures forall i :: 0 <= i < |call.setup| ==> call.setup[i].rc == Success || call.setup[i].rc in call.setup[i].tolerated
    ensures var r := Nth(call.rounds, k);
            && call.info.failedTries + Counted(call.rounds, k) < call.info.maxTries
            && r.Round? && r.getPin == Success
            && (|| r.generated
                || (&& (call.info.minDigits > 0 ==> AllDigits(r.pin) && |r.pin| >= call.info.minDigits)
                    && (call.info.hasCheck ==> r.check == Success)))
  {
    SetupPassed(call.setup);
    var info := RepeatIf(call.info, call.repeatError);
    k := AcceptedOnlyIf(info, false, call.rounds);
    RoundAcceptedIff(info, k > 0, Nth(call.rounds, k));
  }

  /** The same for a passphrase dialog; without the caller's record the pinentry's own answer counts. */
  lemma GetPassphraseSucceedsOnlyIf(call: Call, reports: bool) returns (k: nat)
    requires call.GetPassphrase? && call.mode == Ask && Result(call, reports) == Success
    ensures reports && !call.batch
    ensures forall i :: 0 <= i < |call.setup| ==> call.setup[i].rc == Success || call.setup[i].rc in call.setup[i].tolerated
    ensures !call.hasInfo ==> call.legacy == Success
    ensures call.hasInfo ==>
              var r := Nth(call.rounds, k);
              && call.info.failedTries + Counted(call.rounds, k) < call.info.maxTries
              && r.Round? && r.getPin == Success && (r.generated || !call.info.hasCheck || r.check == Success)
  {
    SetupPassed(call.setup);
    k := 0;
    if call.hasInfo {
      var info := RepeatIf(call.info, call.repeatError);
      k := AcceptedOnlyIf(info, call.errtext, call.rounds);
      RoundAcceptedIff(info, call.errtext || k > 0, Nth(call.rounds, k));
    }
  }

  /** A command that the pinentry refuses, and that does not tolerate this, gives the dialog its answer. */
  lemma {:induction false} FirstFailureIs(setup: seq<Transaction>, i: nat)
    requires i < |setup| && setup[i].rc != Success && setup[i].rc !in setup[i].tolerated
    requires forall j :: 0 <= j < i ==> setup[j].rc == Success || setup[j].rc in setup[j].tolerated
    ensures FirstFailure(setup) == setup[i].rc
    decreases i
  {
    if i > 0 {
      FirstFailureIs(setup[1..], i - 1);
    }
  }

  lemma SetupRefused(call: Call, i: nat)
    requires call.mode == Ask && (!call.GetConfirmation? ==> !call.batch) && (call.AskPin? ==> call.valid)
    requires i < |call.setup| && call.setup[i].rc != Success && call.setup[i].rc !in call.setup[i].tolerated
    requires forall j :: 0 <= j < i ==> call.setup[j].rc == Success || call.setup[j].rc in call.setup[j].tolerated
    ensures Result(call, true) == call.setup[i].rc
  {
    FirstFailureIs(call.setup, i);
    hide FirstFailure, Answer;
  }

  /** With the commands accepted, the answer is that of the loop; a passphrase dialog may end before it. */
  lemma SetupAccepted(call: Call)
    requires call.mode == Ask && (!call.GetConfirmation? ==> !call.batch) && (call.AskPin? ==> call.valid)
    requires forall j :: 0 <= j < |call.setup| ==> call.setup[j].rc == Success || call.setup[j].rc in call.setup[j].tolerated
    ensures call.GetConfirmation? ==> Result(call, true) == call.confirm
    ensures call.GetPassphrase? && !call.hasInfo ==> Result(call, true) == call.legacy
    ensures call.GetPassphrase? && call.hasInfo && call.info.withRepeat && call.constraints != Success ==>
              Result(call, true) == call.constraints
    ensures call.AskPin? || (call.GetPassphrase? && call.hasInfo && !(call.info.withRepeat && call.constraints != Success)) ==>
              Result(call, true) == Answer(call.info.(withRepeat := call.info.withRepeat && call.repeatError == Success),
                                           call.GetPassphrase? && call.errtext, call.rounds)
  {
    SetupPassed(call.setup);
    hide FirstFailure, Answer;
  }

  /** How a dialog that asks the user ends without success before any passphrase is asked for. */
  lemma DialogRefused(call: Call, reports: bool)
    requires call.mode == Ask && (call.GetConfirmation? || !call.batch)
    ensures call.AskPin? && !call.valid ==> Result(call, reports) == InvValue
    ensures !(call.AskPin? && !call.valid) && !reports ==>
              Result(call, reports) == if call.start.Timeout? then LockTimeout else call.refusal
  {
    hide Answer, FirstFailure;
  }

  /** When no tries are left the answer is a bad PIN if digits were asked for, else a bad passphrase. */
  lemma NoTriesLeft(info: Info, errtext: bool, rounds: Rounds)
    requires info.failedTries >= info.maxTries
    ensures Answer(info, errtext, rounds) == if info.minDigits > 0 then BadPin else BadPassphrase
  {
  }

  lemma {:induction false} SetupPassed(setup: seq<Transaction>)
    ensures FirstFailure(setup) == Success <==>
            forall i :: 0 <= i < |setup| ==> setup[i].rc == Success || setup[i].rc in setup[i].tolerated
  {
    if setup != [] {
      SetupPassed(setup[1..]);
      assert forall i :: 0 < i < |setup| ==> setup[i] == setup[1..][i - 1];
    }
  }

  /**
   Without a user to ask: a batch run never has a passphrase, though a PIN dialog calls that success;
   a cancelling client gets a cancellation, a loopback client its own answer, any other none.
   */
  lemma NobodyToAsk(call: Call, reports: bool)
    ensures !call.GetConfirmation? && call.batch ==> Result(call, reports) == if call.AskPin? then Success else BadPassphrase
    ensures (call.GetConfirmation? || !call.batch) && call.mode == Cancel ==> Result(call, reports) == Canceled
    ensures (call.GetConfirmation? || !call.batch) && call.mode == Loopback ==> Result(call, reports) == call.loopback
    ensures (call.GetConfirmation? || !call.batch) && call.mode == OtherMode ==> Result(call, reports) == NoPinEntry
  {
    hide Answer, FirstFailure;
  }

  /** A confirmation is given only by a pinentry that was started and answered so. */
  lemma ConfirmedOnlyIf(call: Call, reports: bool)
    requires call.GetConfirmation? && call.mode == Ask
    ensures Result(call, reports) == Success <==>
            && reports && call.confirm == Success
            && forall i :: 0 <= i < |call.setup| ==> call.setup[i].rc == Success || call.setup[i].rc in call.setup[i].tolerated
  {
    SetupPassed(call.setup);
    hide FirstFailure;
  }

  // ----- The dialogs -----

  /** No start in the script, nested ones included, fails on the mutex, the flush or the allocation. */
  ghost predicate Clean(call: Call) {
    && !call.start.LockError? && !call.start.NoFlush? && !call.start.NoContext?
    && (!call.GetConfirmation? ==> CleanRounds(call.rounds) && CleanCalls(call.inLoopback))
  }

  ghost predicate CleanRounds(rounds: Rounds) {
    rounds.Round? ==> CleanCalls(rounds.nested) && CleanRounds(rounds.rest)
  }

  ghost predicate CleanCalls(calls: Calls) {
    calls.More? ==> Clean(calls.call) && CleanCalls(calls.others)
  }

  /** While another session has the pinentry, every start in the script waits in vain. */
  ghost predicate Waits(call: Call) {
    && (call.mode == Ask ==> call.start.Timeout?)
    && (!call.GetConfirmation? ==> WaitsAll(call.inLoopback))
  }

  ghost predicate WaitsAll(calls: Calls) {
    calls.More? ==> Waits(calls.call) && WaitsAll(calls.others)
  }

  ghost function Size(call: Call): nat {
    if call.GetConfirmation? then 1 else 2 + RoundsSize(call.rounds) + CallsSize(call.inLoopback)
  }

  ghost function RoundsSize(rounds: Rounds): nat {
    if rounds.Hangup? then 0 else 1 + CallsSize(rounds.nested) + RoundsSize(rounds.rest)
  }

  ghost function CallsSize(calls: Calls): nat {
    if calls.NoCalls? then 0 else 1 + Size(calls.call) + CallsSize(calls.others)
  }

  /** Lock, connection and counters are the same. */
  ghost predicate SameLock(st: State, st': State) {
    && st'.holder == st.holder && st'.entryCtx == st.entryCtx
    && forall s: Session :: st'.Active(s) == st.Active(s) && st'.Depth(s) == st.Depth(s)
  }

  lemma SameLockReflexive(st: State)
    ensures SameLock(st, st)
  {
  }

  lemma UnlockNeedsDepth(st: State, s: Session)
    ensures Enabled(st, Unlock(s)) <==> st.Depth(s) > 0
  {
  }

  lemma SameHolder(a: State, b: State)
    requires SameLock(a, b)
    ensures a.holder == b.holder
  {
  }

  /** A session that has the lock, or finds it free, need not wait. */
  lemma FreeIsLockable(st: State, s: Session, outcome: Outcome)
    requires Inv(st) && (st.holder == None || st.holder == Some(s))
    ensures Lockable(st, s, outcome)
  {
  }

  lemma WaitsIsLockable(st: State, s: Session, call: Call)
    requires Waits(call) && call.mode == Ask
    ensures Lockable(st, s, call.start)
  {
  }

  lemma ReportedHolds(st: State, s: Session, c: Ctx, outcome: Outcome)
    requires Inv(st) && StartReports(st, s, outcome) && !Derails(st, Start(s, c, outcome)) && Lockable(st, s, outcome)
    ensures StartStep(st, s, c, outcome).holder == Some(s)
  {
  }

  lemma NewContexts(st: State, s: Session, c: Ctx, outcome: Outcome)
    ensures StartStep(st, s, c, outcome).created <= st.created + {c}
  {
  }

  lemma SameLockTransitive(a: State, b: State, c: State)
    requires SameLock(a, b) && SameLock(b, c)
    ensures SameLock(a, c)
  {
  }

  /** A start that is not reported leaves everything as it was. */
  lemma NotStarted(st: State, s: Session, c: Ctx, outcome: Outcome)
    requires Inv(st) && Lockable(st, s, outcome) && !Derails(st, Start(s, c, outcome)) && !StartReports(st, s, outcome)
    ensures SameLock(st, StartStep(st, s, c, outcome))
  {
    assert st.Active(s) == st.Depth(s) == 0;
  }

  /** A reported start is undone by one unlock, whatever balanced work happens in between. */
  lemma StartedAndLeft(st: State, s: Session, c: Ctx, outcome: Outcome, mid: State)
    requires Inv(st) && Lockable(st, s, outcome) && !Derails(st, Start(s, c, outcome)) && StartReports(st, s, outcome)
    requires SameLock(StartStep(st, s, c, outcome), mid)
    ensures Enabled(mid, Unlock(s)) && SameLock(st, Next(mid, Unlock(s)))
  {
    var start := StartStep(st, s, c, outcome);
    var st' := Next(mid, Unlock(s));
    assert st.Active(s) == st.Depth(s);
    assert mid.Active(s) == st.Active(s) + 1 && mid.Depth(s) == st.Depth(s) + 1;
    forall t: Session
      ensures st'.Active(t) == st.Active(t) && st'.Depth(t) == st.Depth(t)
    {
      assert start.Active(t) == mid.Active(t) && start.Depth(t) == mid.Depth(t);
    }
  }

  class Agent {
    var entryLock: Option<Session>
    var entryCtx: Option<Ctx>
    var pinentryActive: map<Session, int>
    var nextCtx: Ctx
    ghost var depth: map<Session, nat>
    ghost var created: set<Ctx>
    ghost var released: set<Ctx>
    ghost var twice: bool

    ghost function View(): State
      reads this
    {
      State(entryLock, entryCtx, pinentryActive, depth, created, released, twice)
    }

    /** The counters agree, and the next context is a new one. */
    ghost predicate Valid()
      reads this
    {
      Inv(View()) && forall c :: c in created ==> c < nextCtx
    }

    constructor ()
      ensures Valid() && View() == INIT
    {
      entryLock, entryCtx, pinentryActive, nextCtx := None, None, map[], 0;
      depth, created, released, twice := map[], {}, {}, false;
    }

    method SetActiveOf(s: Session, n: int)
      modifies this`pinentryActive
      ensures View() == SetActive(old(View()), s, n)
    {
      pinentryActive := pinentryActive[s := n];
    }

    ghost method Called(s: Session)
      modifies this`depth
      ensures View() == PinentryLock.Called(old(View()), s)
    {
      depth := depth[s := View().Depth(s) + 1];
    }

    method UnlockPinentry(s: Session)
      modifies this`entryLock, this`entryCtx, this`pinentryActive, this`released, this`twice
      ensures View() == Leave(old(View()), s)
    {
      var ctx := entryCtx;
      var n := (if s in pinentryActive then pinentryActive[s] else 0) - 1;
      SetActiveOf(s, n);
      if n == 0 {
        entryCtx := None;
        entryLock := None;
        if ctx.Some? {
          twice := twice || ctx.value in released;
          released := released + {ctx.value};
        }
      }
    }

    method StartPinentry(s: Session, outcome: Outcome) returns (ok: bool)
      requires Lockable(View(), s, outcome)
      modifies this
      ensures View() == StartStep(old(View()), s, old(nextCtx), outcome)
      ensures ok == StartReports(old(View()), s, outcome)
      ensures nextCtx == old(nextCtx) + 1
    {
      var ctx := nextCtx;
      nextCtx := nextCtx + 1;
      var n := if s in pinentryActive then pinentryActive[s] else 0;
      if n != 0 {
        SetActiveOf(s, n + 1);
        Called(s);
        return true;
      }
      if outcome.LockError? {
        Called(s);
        return true;
      }
      if outcome.Timeout? {
        return false;
      }
      entryLock := Some(s);
      ok := Launch(s, ctx, outcome);
    }

    method Launch(s: Session, ctx: Ctx, outcome: Outcome) returns (ok: bool)
      requires !outcome.Timeout? && !outcome.LockError?
      modifies this`entryLock, this`entryCtx, this`pinentryActive, this`depth, this`created, this`released, this`twice
      ensures View() == PinentryLock.Launch(old(View()), s, ctx, outcome)
      ensures ok == (old(entryCtx).Some? || outcome.Started?)
    {
      if entryCtx.Some? {
        Called(s);
        return true;
      }
      if outcome.NoFlush? {
        UnlockPinentry(s);
        return false;
      }
      if outcome.NoContext? {
        return false;
      }
      SetActiveOf(s, 1);
      entryCtx, created := Some(ctx), created + {ctx};
      if outcome.Rejected? {
        UnlockPinentry(s);
        return false;
      }
      Called(s);
      return true;
    }

    /** The session can get the lock. */
    ghost predicate FreeFor(s: Session)
      reads this
    {
      entryLock == None || entryLock == Some(s)
    }

    /** Start, with the promise that lock and counters still agree. */
    method Begin(s: Session, outcome: Outcome) returns (ok: bool)
      requires Valid() && !outcome.LockError? && !outcome.NoFlush? && !outcome.NoContext? && Lockable(View(), s, outcome)
      modifies this
      ensures Valid() && ok == StartReports(old(View()), s, outcome)
      ensures View() == StartStep(old(View()), s, old(nextCtx), outcome)
      ensures !ok ==> SameLock(old(View()), View())
      ensures ok ==> FreeFor(s)
    {
      ghost var before, c := View(), nextCtx;
      ok := StartPinentry(s, outcome);
      StepKeepsUnless(before, Start(s, c, outcome));
      if !ok {
        NotStarted(before, s, c, outcome);
      }
      NewContexts(before, s, c, outcome);
      if ok {
        ReportedHolds(before, s, c, outcome);
      }
      hide StartStep;
    }

    /** Every dialog that got the pinentry ends here. */
    method Finish(s: Session)
      requires Valid() && View().Depth(s) > 0
      modifies this
      ensures Valid() && View() == Next(old(View()), Unlock(s))
    {
      ghost var before := View();
      StepKeepsUnless(before, Unlock(s));
      depth := depth[s := View().Depth(s) - 1];
      UnlockPinentry(s);
      assert created == before.created;
    }

    method Setup(setup: seq<Transaction>) returns (rc: Code)
      ensures rc == FirstFailure(setup)
    {
      var i := 0;
      while i < |setup|
        invariant 0 <= i <= |setup| && FirstFailure(setup) == FirstFailure(setup[i..])
      {
        if setup[i].rc != Success && setup[i].rc !in setup[i].tolerated {
          return setup[i].rc;
        }
        i := i + 1;
      }
      return Success;
    }

    /** Whether the PIN has to be entered again because of its form. */
    method CheckDigits(info: Info, r: Rounds) returns (again: bool)
      requires r.Round?
      ensures again == (info.minDigits > 0 && Malformed(info, r))
    {
      if info.minDigits == 0 {
        return false;
      }
      again := !AllDigits(r.pin) || (info.maxDigits > 0 && |r.pin| > info.maxDigits) || |r.pin| < info.minDigits;
    }

    /** The retry loop shared by `agent_askpin` and `agent_get_passphrase`. */
    method AskUntilAccepted(s: Session, info0: Info, errtext0: bool, rounds0: Rounds) returns (rc: Code, info: Info)
      requires Valid() && CleanRounds(rounds0) && FreeFor(s)
      modifies this
      ensures Valid() && SameLock(old(View()), View())
      ensures rc == Answer(info0, errtext0, rounds0)
      ensures info == info0.(failedTries := TriesAfter(info0, errtext0, rounds0))
      decreases RoundsSize(rounds0)
    {
      hide SameLock, Malformed, Inv;
      ghost var before := View();
      SameLockReflexive(before);
      var errtext, rounds := errtext0, rounds0;
      info := info0;
      while info.failedTries < info.maxTries
        invariant Valid() && SameLock(before, View()) && FreeFor(s)
        invariant CleanRounds(rounds) && RoundsSize(rounds) <= RoundsSize(rounds0)
        invariant Answer(info0, errtext0, rounds0) == Answer(info, errtext, rounds)
        invariant TriesAfter(info0, errtext0, rounds0) == TriesAfter(info, errtext, rounds)
        invariant info == info0.(failedTries := info.failedTries)
        decreases rounds
      {
        if rounds.Hangup? {
          return Eof, info;
        }
        if errtext {
          if rounds.setError != Success {
            return rounds.setError, info;
          }
          errtext := false;
        }
        if info.withRepeat && rounds.setRepeat != Success {
          return rounds.setRepeat, info;
        }
        if rounds.getPin == TooMuchData {
          errtext := true;
        } else if rounds.getPin != Success {
          return rounds.getPin, info;
        }
        if !errtext && !rounds.generated {
          errtext := CheckDigits(info, rounds);
        }
        if !errtext && info.hasCheck && !rounds.generated {
          ghost var now := View();
          RunCalls(s, rounds.nested);
          SameHolder(now, View());
          SameLockTransitive(before, now, View());
          if rounds.check != Success && rounds.fromCache {
            return rounds.check, info;
          }
          if MayBeRepeated(rounds.check) {
            errtext := true;
          } else if rounds.check != Success {
            return rounds.check, info;
          }
        }
        if !errtext {
          return Success, info;
        }
        if rounds.fromCache {
          info := info.(failedTries := info.failedTries - 1);
        }
        info := info.(failedTries := info.failedTries + 1);
        rounds := rounds.rest;
      }
      rc := NoMoreTries(info);
    }

    /** What a callback does: any number of dialogs of the same session, one after the other. */
    method RunCalls(s: Session, calls: Calls)
      requires Valid() && CleanCalls(calls) && (FreeFor(s) || WaitsAll(calls))
      modifies this
      ensures Valid() && SameLock(old(View()), View())
      decreases CallsSize(calls)
    {
      hide SameLock, Inv;
      ghost var before := View();
      SameLockReflexive(before);
      if calls.More? {
        var _ := Run(s, calls.call);
        ghost var now := View();
        SameHolder(before, now);
        RunCalls(s, calls.others);
        SameLockTransitive(before, now, View());
      }
    }

    /** Between start and unlock: `agent_askpin`. */
    method AskPinBody(s: Session, call: Call) returns (rc: Code)
      requires Valid() && Clean(call) && call.AskPin? && FreeFor(s)
      modifies this
      ensures Valid() && SameLock(old(View()), View())
      ensures rc == if FirstFailure(call.setup) != Success then FirstFailure(call.setup)
                    else Answer(RepeatIf(call.info, call.repeatError), false, call.rounds)
      decreases Size(call), 0
    {
      SameLockReflexive(View());
      rc := Setup(call.setup);
      if rc == Success {
        var info;
        rc, info := AskUntilAccepted(s, RepeatIf(call.info, call.repeatError), false, call.rounds);
      }
    }

    /** Between start and unlock: `agent_get_passphrase`. */
    method GetPassphraseBody(s: Session, call: Call) returns (rc: Code)
      requires Valid() && Clean(call) && call.GetPassphrase? && FreeFor(s)
      modifies this
      ensures Valid() && SameLock(old(View()), View())
      ensures rc == if FirstFailure(call.setup) != Success then FirstFailure(call.setup)
                    else if !call.hasInfo then call.legacy
                    else if call.info.withRepeat && call.constraints != Success then call.constraints
                    else Answer(RepeatIf(call.info, call.repeatError), call.errtext, call.rounds)
      decreases Size(call), 0
    {
      SameLockReflexive(View());
      rc := Setup(call.setup);
      if rc != Success {
        return;
      }
      if !call.hasInfo {
        return call.legacy;
      }
      if call.info.withRepeat && call.constraints != Success {
        return call.constraints;
      }
      var info;
      rc, info := AskUntilAccepted(s, RepeatIf(call.info, call.repeatError), call.errtext, call.rounds);
    }

    /** With the pinentry out of the picture only the callback of a loopback answer may run dialogs. */
    method RunWithoutPinentry(s: Session, call: Call) returns (rc: Code)
      requires Valid() && Clean(call) && (FreeFor(s) || Waits(call))
      modifies this
      ensures Valid() && SameLock(old(View()), View()) && rc == WithoutPinentry(call.mode, call.loopback)
      decreases Size(call), 0
    {
      SameLockReflexive(View());
      if call.mode == Cancel {
        return Canceled;
      }
      if call.mode != Loopback {
        return NoPinEntry;
      }
      if call.AskPin? || (call.GetPassphrase? && call.hasInfo) {
        RunCalls(s, call.inLoopback);
      }
      rc := call.loopback;
    }

    /**
     Every return path of the three dialogs, with every nesting of dialogs in callbacks, leaves lock,
     connection and all recursion counters as the caller had them.
     */
    method Run(s: Session, call: Call) returns (rc: Code)
      requires Valid() && Clean(call) && (FreeFor(s) || Waits(call))
      modifies this
      ensures Valid() && SameLock(old(View()), View())
      ensures rc == Result(call, StartReports(old(View()), s, call.start))
      decreases Size(call), 1
    {
      hide Inv, SameLock, StartStep, Next;
      ghost var before := View();
      SameLockReflexive(before);
      if !call.GetConfirmation? && call.batch {
        return if call.AskPin? then Success else BadPassphrase;
      }
      if call.mode != Ask {
        rc := RunWithoutPinentry(s, call);
        return;
      }
      if call.AskPin? && !call.valid {
        return InvValue;
      }
      ghost var c := nextCtx;
      if FreeFor(s) {
        FreeIsLockable(before, s, call.start);
      } else {
        WaitsIsLockable(before, s, call);
      }
      var ok := Begin(s, call.start);
      if !ok {
        return Refusal(call.start, call.refusal);
      }
      ghost var started := View();
      match call {
        case AskPin(_, _, _, _, _, _, _, _, _, _, _) => rc := AskPinBody(s, call);
        case GetPassphrase(_, _, _, _, _, _, _, _, _, _, _, _, _, _) => rc := GetPassphraseBody(s, call);
        case GetConfirmation(_, _, _, _, _, confirm) =>
          SameLockReflexive(started);
          rc := Setup(call.setup);
          if rc == Success {
            rc := confirm;
          }
      }
      StartedAndLeft(before, s, c, call.start, View());
      UnlockNeedsDepth(View(), s);
      Finish(s);
    }
  }
}
