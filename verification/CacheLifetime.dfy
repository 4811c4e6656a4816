/**
 How long the passphrase cache remembers: a get finds what was put as long as no operation concerns
 its key and no expiration pass comes later than its deadline.
 */
module CacheLifetime {
  import opened Bytes
  import opened CacheModel
  import opened CacheSlots
  import opened TimerLists
  import opened TimerQueue
  import opened Wrappers

  // ----- What a step is for the slots -----

  /** The slots that a flush clears. */
  ghost function Flushed(slots: seq<Slot>, pinOnly: bool): set<nat> {
    set i: nat | i < |slots| && FlushHits(pinOnly, slots[i])
  }

  /** The event that an operation is for the slots of a state. */
  ghost function EventOf<T>(opts: Options, cipher: Cipher, s: Snap<T>, op: Op): Event
    requires op.WellFormed()
  {
    match op
    case DoPut(q, data, ttl, at, fill) =>
      if Stores(opts, q.mode, data.Some?, ttl) then Event.Put(q, StoreOf(opts, cipher, q, data, ttl, at, fill))
      else Event.Get(q)
    case DoGet(q, _) => Event.Get(q)
    case DoFlush(pinOnly, _) => Clear(Flushed(s.slots, pinOnly))
    case DoExpire(now, _) =>
      if !s.sched.Pops(now) || s.sched.active[0].item !in s.items then Clear({})
      else if s.HeadHeld() then Clear({s.Index(s.sched.active[0].item)})
      else Drop(s.Index(s.sched.active[0].item))
  }

  lemma {:induction false} FlushSlots<T>(opts: Options, s: Snap<T>, pinOnly: bool, now: int, k: nat)
    requires |s.slots| == |s.items| && k <= |s.items|
    ensures var s' := FlushSnap(opts, s, pinOnly, now, k);
            && s'.items == s.items && |s'.slots| == |s.slots|
            && forall i :: 0 <= i < |s.slots| ==>
                 s'.slots[i] == if i >= k && FlushHits(pinOnly, s.slots[i]) then s.slots[i].(pw := None) else s.slots[i]
    decreases |s.items| - k
  {
    hide Rescheduled, WhenDue;
    if k < |s.items| {
      FlushSlots(opts, if FlushHits(pinOnly, s.slots[k]) then FlushOne(opts, s, now, k) else s, pinOnly, now, k + 1);
    }
  }

  lemma PutEvent<T>(opts: Options, s: Snap<T>, q: Query, st: Store, x: T)
    requires AddsItem(s, q, st)
    ensures PutNew(opts, s, q, st, x).slots == PutSlots(s.slots, q, st)
  {
    hide Rescheduled, WhenDue, FirstHit;
  }

  lemma FlushEvent<T>(opts: Options, s: Snap<T>, pinOnly: bool, now: int)
    requires |s.slots| == |s.items|
    ensures FlushSnap(opts, s, pinOnly, now, 0).slots
            == Cleared(s.slots, Flushed(s.slots, pinOnly))
  {
    hide FlushSnap, FlushHits, Cleared;
    FlushSlots(opts, s, pinOnly, now, 0);
  }

  lemma ExpireEvent<T>(s: Snap<T>, now: Timespec)
    requires s.Valid()
    ensures s.sched.Pops(now) ==> s.sched.active != [] && s.sched.active[0].item in s.items
    ensures ExpireSnap(s, now).slots ==
            if !s.sched.Pops(now) then s.slots
            else
              var k := s.Index(s.sched.active[0].item);
              if s.HeadHeld() then Cleared(s.slots, {k}) else s.slots[..k] + s.slots[k + 1..]
  {
    hide Pass, Before;
    if s.sched.Pops(now) {
      var k := s.Index(s.sched.active[0].item);
      assert Cleared(s.slots, {k}) == s.slots[k := s.slots[k].(pw := None)];
    }
  }

  lemma NothingCleared(slots: seq<Slot>)
    ensures Cleared(slots, {}) == slots
  {
  }

  ghost predicate EventExplains<T>(opts: Options, cipher: Cipher, s: Snap<T>, op: Op, s': Snap<T>)
    requires op.WellFormed()
  {
    var e := EventOf(opts, cipher, s, op);
    Possible(s.slots, e) && s'.slots == Apply(s.slots, e)
  }

  lemma PutStepEvent<T>(opts: Options, cipher: Cipher, s: Snap<T>, op: Op, s': Snap<T>)
    requires |s.slots| == |s.items| && op.DoPut? && op.WellFormed() && StepTo(opts, cipher, s, op, s')
    ensures EventExplains(opts, cipher, s, op, s')
  {
    hide PutNew, PutOld, PutSlots, StoreOf, Stores, AddsItem;
    var st := StoreOf(opts, cipher, op.q, op.data, op.ttl, op.at, op.fill);
    if Stores(opts, op.q.mode, op.data.Some?, op.ttl) {
      if AddsItem(s, op.q, st) {
        PutEvent(opts, s, op.q, st, s'.items[0]);
      } else {
        PutOldEvent(opts, s, op.q, st);
      }
    }
  }

  lemma FlushStepEvent<T>(opts: Options, cipher: Cipher, s: Snap<T>, op: Op, s': Snap<T>)
    requires |s.slots| == |s.items| && op.DoFlush? && StepTo(opts, cipher, s, op, s')
    ensures EventExplains(opts, cipher, s, op, s')
  {
    hide FlushSnap, Cleared, Flushed;
    FlushEvent(opts, s, op.pinOnly, op.at);
  }

  lemma ExpireStepEvent<T>(opts: Options, cipher: Cipher, s: Snap<T>, op: Op, s': Snap<T>)
    requires s.Valid() && op.DoExpire? && op.WellFormed() && StepTo(opts, cipher, s, op, s')
    ensures EventExplains(opts, cipher, s, op, s')
  {
    hide *;
    ValidLengths(s);
    StepIs(opts, cipher, s, op, s');
    NothingCleared(s.slots);
    ExpireEvent(s, op.now);
    ExpireEventIs(opts, cipher, s, op, s');
  }

  lemma ExpireEventIs<T>(opts: Options, cipher: Cipher, s: Snap<T>, op: Op, s': Snap<T>)
    requires op.DoExpire? && op.WellFormed()
    requires s.sched.Pops(op.now) ==> s.sched.active != [] && s.sched.active[0].item in s.items && |s.slots| == |s.items|
    requires Cleared(s.slots, {}) == s.slots
    ensures EventExplains(opts, cipher, s, op, s') <==>
            s'.slots ==
            if !s.sched.Pops(op.now) then s.slots
            else
              var k := s.Index(s.sched.active[0].item);
              if s.HeadHeld() then Cleared(s.slots, {k}) else s.slots[..k] + s.slots[k + 1..]
  {
    hide Cleared, Snap.HeadHeld, Schedule.Pops, Before;
  }

  /** The slots after a step are those that its event gives. */
  lemma StepEvent<T>(opts: Options, cipher: Cipher, s: Snap<T>, op: Op, s': Snap<T>)
    requires s.Valid() && op.WellFormed() && StepTo(opts, cipher, s, op, s')
    ensures var e := EventOf(opts, cipher, s, op);
            Possible(s.slots, e) && s'.slots == Apply(s.slots, e)
  {
    ValidLengths(s);
    if op.DoGet? {
      hide WhenDue, Rescheduled, Snap.Valid;
    } else {
      hide StepTo, Snap.Valid, EventOf, Apply, Possible;
      if op.DoPut? {
        PutStepEvent(opts, cipher, s, op, s');
      } else if op.DoFlush? {
        FlushStepEvent(opts, cipher, s, op, s');
      } else {
        ExpireStepEvent(opts, cipher, s, op, s');
      }
    }
  }

  lemma PutOldEvent<T>(opts: Options, s: Snap<T>, q: Query, st: Store)
    requires |s.slots| == |s.items| && !AddsItem(s, q, st)
    ensures PutOld(opts, s, q, st).slots == PutSlots(s.slots, q, st)
  {
    hide Rescheduled, WhenDue, FirstHit;
  }

  /** The step is about other keys. */
  ghost predicate SparesAt<T>(opts: Options, cipher: Cipher, s: Snap<T>, op: Op, key: bytes)
    requires op.WellFormed()
  {
    var e := EventOf(opts, cipher, s, op);
    Possible(s.slots, e) && Spares(s.slots, e, key)
  }

  lemma {:induction false} SparingRunKeeps<T>(opts: Options, cipher: Cipher, trace: seq<Snap<T>>, ops: seq<Op>, key: bytes)
    requires IsRun(opts, cipher, trace, ops)
    requires forall i :: 0 <= i < |ops| ==> ops[i].WellFormed() && SparesAt(opts, cipher, trace[i], ops[i], key)
    ensures Under(trace[|ops|].slots, key) == Under(trace[0].slots, key)
    decreases ops
  {
    if ops != [] {
      hide StepTo, SparesAt, Snap.Valid, Under;
      RunTail(opts, cipher, trace, ops);
      SparingStep(opts, cipher, trace[0], ops[0], trace[1], key);
      assert forall i :: 0 <= i < |ops[1..]| ==> ops[1..][i] == ops[i + 1] && trace[1..][i] == trace[i + 1];
      SparingRunKeeps(opts, cipher, trace[1..], ops[1..], key);
    }
  }

  lemma SparingStep<T>(opts: Options, cipher: Cipher, s: Snap<T>, op: Op, s': Snap<T>, key: bytes)
    requires s.Valid() && op.WellFormed() && StepTo(opts, cipher, s, op, s') && SparesAt(opts, cipher, s, op, key)
    ensures Under(s'.slots, key) == Under(s.slots, key)
  {
    hide StepTo, Snap.Valid, EventOf, Under, Apply, Spares, Possible;
    StepEvent(opts, cipher, s, op, s');
    SparingEvent(s.slots, EventOf(opts, cipher, s, op), key);
  }

  /** A run of steps about other keys does not change what a get finds. */
  lemma SparingRunRemembers<T>(opts: Options, cipher: Cipher, trace: seq<Snap<T>>, ops: seq<Op>, q: Query)
    requires IsRun(opts, cipher, trace, ops)
    requires forall i :: 0 <= i < |ops| ==> ops[i].WellFormed() && SparesAt(opts, cipher, trace[i], ops[i], q.key)
    ensures Lookup(trace[|ops|].slots, q) == Lookup(trace[0].slots, q)
  {
    hide SparesAt, StepTo, Lookup, Under;
    SparingRunKeeps(opts, cipher, trace, ops, q.key);
    LookupUnder(trace[0].slots, q);
    LookupUnder(trace[|ops|].slots, q);
  }

  // ----- Deadlines -----

  /** An expiration pass pops an item only after its deadline. */
  lemma PoppedIsOverdue<T>(s: Schedule<T>, now: Timespec)
    requires s.Valid() && now.Normal() && s.Pops(now)
    ensures s.active[0].item in s.Deadlines() && s.Deadlines()[s.active[0].item] < now.Ns()
  {
    TimespecArithmetic(s.abstime, now);
    assert s.abstime.Ns() + s.active[0].delta * NANOS == s.abstime.Ns();
  }

  /** The deadline of `x` is not before `d`, counting a request on the pending list from `clock`. */
  ghost predicate Lasts<T>(s: Schedule<T>, x: T, clock: int, d: int) {
    && (x in Items(s.active) ==> x in s.Deadlines() && s.Deadlines()[x] >= d)
    && (forall i :: 0 <= i < |s.pending| && s.pending[i].item == x ==> clock + s.pending[i].delta * NANOS >= d)
  }

  ghost predicate Unlisted<T>(s: Schedule<T>, x: T) {
    x !in Items(s.active) && x !in Items(s.pending)
  }

  /** Updating another item moves no deadline. */
  lemma OtherLasts<T>(s: Schedule<T>, y: T, when: When, x: T, clock: int, d: int)
    requires s.Valid() && x != y
    ensures Lasts(s, x, clock, d) ==> Lasts(Rescheduled(s, y, when), x, clock, d)
    ensures Unlisted(s, x) ==> Unlisted(Rescheduled(s, y, when), x)
  {
    var r := Rescheduled(s, y, when);
    RescheduledLists(s, y, when);
    if y in Items(s.active) {
      var k := |Before(Items(s.active), y)|;
      RemoveDeadlines(s.abstime.Ns(), s.active, k);
      assert s.active[k].item == Items(s.active)[k] == y;
    }
    PendingAfter(s, y, when, x);
    hide DeadlinesFrom, Before, RemoveAt, Ahead;
  }

  lemma PendingAfter<T>(s: Schedule<T>, y: T, when: When, x: T)
    requires x != y
    ensures forall i :: 0 <= i < |Rescheduled(s, y, when).pending| && Rescheduled(s, y, when).pending[i].item == x ==>
              exists j :: 0 <= j < |s.pending| && s.pending[j] == Rescheduled(s, y, when).pending[i]
  {
    hide Before, Removed;
    var r := Rescheduled(s, y, when);
    forall i | 0 <= i < |r.pending| && r.pending[i].item == x
      ensures exists j :: 0 <= j < |s.pending| && s.pending[j] == r.pending[i]
    {
      var j := if when.Due? then i - 1 else i;
      assert s.pending[j] == r.pending[i];
    }
  }

  /** A pass in time keeps an item, with a deadline at most half a second earlier. */
  lemma PassLasts<T>(s: Schedule<T>, now: Timespec, held: bool, x: T, clock: int, d: int)
    requires s.Valid() && now.Normal() && Lasts(s, x, clock, d) && clock <= now.Ns() <= d
    ensures !(s.Pops(now) && s.active[0].item == x)
    ensures Lasts(Pass(s, now, held), x, now.Ns(), d - HALF)
  {
    if s.Pops(now) {
      PoppedIsOverdue(s, now);
      assert Items(s.active)[0] == s.active[0].item;
    }
    var shift := PassSpec(s, now, held);
    PassLists(s, now, held);
    LateIsPositive(s, now);
    RequestsAreOthers(s, now, held, x);
    var s' := Pass(s, now, held);
    hide Pass, DeadlinesFrom, Schedule.Valid;
    if x in Items(s'.active) {
      if x in Items(s.Remaining(now)) {
        var i :| 0 <= i < |s.Remaining(now)| && Items(s.Remaining(now))[i] == x;
        assert s.Remaining(now)[i].item == x;
        RemainingIsActive(s, now, x);
      } else {
        var i :| 0 <= i < |s.Requests(now, held)| && Items(s.Requests(now, held))[i] == x;
        assert s.Requests(now, held)[i].item == x;
      }
    }
  }

  lemma LateIsPositive<T>(s: Schedule<T>, now: Timespec)
    requires s.Valid() && now.Normal()
    ensures s.Expired(now) ==> now.Ns() > s.abstime.Ns()
  {
    TimespecArithmetic(s.abstime, now);
  }

  lemma RemainingIsActive<T>(s: Schedule<T>, now: Timespec, x: T)
    requires x in Items(s.Remaining(now))
    ensures x in Items(s.active)
  {
    if s.Pops(now) {
      assert s.active == [s.active[0]] + s.active[1..];
      ItemsOfCons(s.active[0], s.active[1..]);
    }
  }

  lemma RequestsAreOthers<T>(s: Schedule<T>, now: Timespec, held: bool, x: T)
    requires !(s.Pops(now) && s.active[0].item == x)
    ensures forall i :: 0 <= i < |s.Requests(now, held)| && s.Requests(now, held)[i].item == x ==>
              exists j :: 0 <= j < |s.pending| && s.pending[j] == s.Requests(now, held)[i]
  {
    var r := s.Requests(now, held);
    forall i | 0 <= i < |r| && r[i].item == x
      ensures exists j :: 0 <= j < |s.pending| && s.pending[j] == r[i]
    {
      var j := if s.Pops(now) && held then i - 1 else i;
      assert s.pending[j] == r[i];
    }
  }

  lemma PassUnlisted<T>(s: Schedule<T>, now: Timespec, held: bool, x: T)
    requires s.Valid() && now.Normal() && Unlisted(s, x)
    ensures !(s.Pops(now) && s.active[0].item == x)
    ensures Unlisted(Pass(s, now, held), x)
  {
    if s.active != [] {
      assert Items(s.active)[0] == s.active[0].item;
    }
    PassLists(s, now, held);
    RequestsAreOthers(s, now, held, x);
    hide Pass, Schedule.Valid;
    if x in Items(s.Remaining(now)) {
      RemainingIsActive(s, now, x);
    }
    assert forall j :: 0 <= j < |s.pending| ==> s.pending[j].item == Items(s.pending)[j];
  }

  // ----- How long a put is remembered -----

  /** The item `x` at `k` holds the data that a get for `q` returns. */
  ghost predicate Answers<T>(s: Snap<T>, q: Query, k: nat, x: T, secret: Secret) {
    && |s.slots| == |s.items| && k < |s.items| && s.items[k] == x
    && s.slots[k].pw == Some(secret) && s.slots[k].key == q.key && s.slots[k].mode == q.mode && q.Matches(s.slots[k])
    && forall i :: 0 <= i < k ==> !q.Matches(s.slots[i])
  }

  lemma AnswersLookup<T>(s: Snap<T>, q: Query, k: nat, x: T, secret: Secret)
    requires Answers(s, q, k, x, secret) && q.mode != Ignore
    ensures Lookup(s.slots, q) == Some(secret)
  {
    FirstHitIs(s.slots, q, true, k);
    hide FirstHit;
  }

  /** Where the item stands in time: on a list with a deadline not before `d`, or on no list. */
  ghost predicate Timed<T>(s: Schedule<T>, x: T, timed: bool, clock: int, d: int) {
    if timed then Lasts(s, x, clock, d) else Unlisted(s, x)
  }

  /** The operation concerns other keys, or is an expiration pass, or a flush of PINs for data that is none. */
  predicate Apart(op: Op, q: Query) {
    match op
    case DoPut(other, _, _, _, _) => other.key != q.key
    case DoGet(other, _) => other.key != q.key
    case DoFlush(pinOnly, _) => pinOnly && q.mode != Pin
    case DoExpire(_, _) => true
  }

  function ClockAfter(op: Op, clock: int): int {
    if op.DoExpire? then op.now.Ns() else clock
  }

  function DeadlineAfter(op: Op, d: int): int {
    if op.DoExpire? then d - HALF else d
  }

  /** No expiration pass goes back in time or comes after the deadline, which each may advance by half a second. */
  predicate InTime(ops: seq<Op>, clock: int, d: int) {
    ops == [] ||
    ((ops[0].DoExpire? ==> clock <= ops[0].now.Ns() <= d)
     && InTime(ops[1..], ClockAfter(ops[0], clock), DeadlineAfter(ops[0], d)))
  }

  lemma OtherTimed<T>(s: Schedule<T>, y: T, when: When, x: T, timed: bool, clock: int, d: int)
    requires s.Valid() && x != y && Timed(s, x, timed, clock, d)
    ensures Timed(Rescheduled(s, y, when), x, timed, clock, d)
  {
    hide Lasts, Unlisted, Rescheduled;
    OtherLasts(s, y, when, x, clock, d);
  }

  lemma PutApart<T>(opts: Options, cipher: Cipher, s: Snap<T>, op: Op, s': Snap<T>, q: Query, k: nat, x: T, secret: Secret,
                    timed: bool, clock: int, d: int) returns (k': nat)
    requires s.Valid() && op.DoPut? && op.WellFormed() && StepTo(opts, cipher, s, op, s') && Apart(op, q)
    requires Answers(s, q, k, x, secret) && Timed(s.sched, x, timed, clock, d)
    ensures Answers(s', q, k', x, secret) && Timed(s'.sched, x, timed, clock, d)
  {
    hide Timed, Rescheduled, WhenDue, StoreOf, Stores, FirstHit;
    k' := k;
    var st := StoreOf(opts, cipher, op.q, op.data, op.ttl, op.at, op.fill);
    if Stores(opts, op.q.mode, op.data.Some?, op.ttl) {
      if AddsItem(s, op.q, st) {
        k' := k + 1;
        var slot := Stored(op.q.key, op.q.restricted, op.q.mode, st);
        OtherTimed(s.sched, s'.items[0], WhenDue(opts, slot, st.now), x, timed, clock, d);
        assert forall i :: 0 < i < |s'.slots| ==> s'.slots[i] == s.slots[i - 1];
      } else {
        var j := FirstHit(s.slots, op.q, false);
        if j < |s.slots| {
          assert s.slots[j].key == op.q.key && j != k;
          if st.data {
            var slot := Stored(s.slots[j].key, s.slots[j].restricted, op.q.mode, st);
            OtherTimed(s.sched, s.items[j], WhenDue(opts, slot, st.now), x, timed, clock, d);
          }
        }
      }
    }
  }

  lemma GetApart<T>(opts: Options, cipher: Cipher, s: Snap<T>, op: Op, s': Snap<T>, q: Query, k: nat, x: T, secret: Secret,
                    timed: bool, clock: int, d: int)
    requires s.Valid() && op.DoGet? && StepTo(opts, cipher, s, op, s') && Apart(op, q)
    requires Answers(s, q, k, x, secret) && Timed(s.sched, x, timed, clock, d)
    ensures Answers(s', q, k, x, secret) && Timed(s'.sched, x, timed, clock, d)
  {
    hide Timed, Rescheduled, WhenDue, FirstHit;
    if Restarts(s, op.q) {
      var j := FirstHit(s.slots, op.q, true);
      assert s.slots[j].key == op.q.key && j != k;
      OtherTimed(s.sched, s.items[j], WhenDue(opts, s.slots[j], op.at), x, timed, clock, d);
    }
  }

  lemma {:induction false} FlushPinsSched<T>(opts: Options, s: Snap<T>, now: int, k: nat)
    requires s.Valid()
    ensures FlushSnap(opts, s, true, now, k).sched == s.sched
    decreases |s.items| - k
  {
    if k < |s.items| {
      if FlushHits(true, s.slots[k]) {
        var slots := s.slots[k := s.slots[k].(pw := None)];
        PinIsNotScheduled(opts, s, slots[k], now, k);
        ClearedIsValid(s, slots);
        hide Snap.Valid, WhenDue, Rescheduled;
        assert FlushOne(opts, s, now, k) == s.(slots := slots);
        FlushPinsSched(opts, s.(slots := slots), now, k + 1);
      } else {
        hide Snap.Valid;
        FlushPinsSched(opts, s, now, k + 1);
      }
    }
  }

  lemma FlushApart<T>(opts: Options, cipher: Cipher, s: Snap<T>, op: Op, s': Snap<T>, q: Query, k: nat, x: T, secret: Secret)
    requires s.Valid() && op.DoFlush? && StepTo(opts, cipher, s, op, s') && Apart(op, q)
    requires Answers(s, q, k, x, secret)
    ensures Answers(s', q, k, x, secret) && s'.sched == s.sched
  {
    FlushPinsSched(opts, s, op.at, 0);
    FlushSlots(opts, s, true, op.at, 0);
    hide FlushSnap;
  }

  /** Clearing or dropping another slot leaves the answer where it was, or one place further up. */
  lemma ClearedApart<T>(s: Snap<T>, s': Snap<T>, j: nat, q: Query, k: nat, x: T, secret: Secret)
    requires Answers(s, q, k, x, secret) && j < |s.items| && j != k
    requires s'.items == s.items && s'.slots == s.slots[j := s.slots[j].(pw := None)]
    ensures Answers(s', q, k, x, secret)
  {
  }

  lemma DroppedApart<T>(s: Snap<T>, s': Snap<T>, j: nat, q: Query, k: nat, x: T, secret: Secret)
    requires Answers(s, q, k, x, secret) && j < |s.items| && j != k
    requires s'.items == s.items[..j] + s.items[j + 1..] && s'.slots == s.slots[..j] + s.slots[j + 1..]
    ensures Answers(s', q, if j < k then k - 1 else k, x, secret)
  {
    var k' := if j < k then k - 1 else k;
    assert s'.items[k'] == x && s'.slots[k'] == s.slots[k];
    forall i | 0 <= i < k'
      ensures !q.Matches(s'.slots[i])
    {
      assert s'.slots[i] == s.slots[if i < j then i else i + 1];
    }
  }

  lemma ExpireApart<T>(s: Snap<T>, now: Timespec, q: Query, k: nat, x: T, secret: Secret) returns (k': nat)
    requires s.Valid() && Answers(s, q, k, x, secret) && !(s.sched.Pops(now) && s.sched.active[0].item == x)
    ensures Answers(ExpireSnap(s, now), q, k', x, secret)
  {
    hide Pass, Before, Distinct, Schedule.Valid;
    k' := k;
    if s.sched.Pops(now) {
      var y := s.sched.active[0].item;
      assert Items(s.sched.active)[0] == y;
      var j, s' := s.Index(y), ExpireSnap(s, now);
      hide Items;
      if s.HeadHeld() {
        ClearedApart(s, s', j, q, k, x, secret);
      } else {
        k' := if j < k then k - 1 else k;
        DroppedApart(s, s', j, q, k, x, secret);
      }
    }
  }

  lemma KeptStep<T>(opts: Options, cipher: Cipher, s: Snap<T>, op: Op, s': Snap<T>, q: Query, k: nat, x: T, secret: Secret,
                    timed: bool, clock: int, d: int) returns (k': nat)
    requires s.Valid() && op.WellFormed() && StepTo(opts, cipher, s, op, s') && Apart(op, q)
    requires Answers(s, q, k, x, secret) && Timed(s.sched, x, timed, clock, d)
    requires timed && op.DoExpire? ==> clock <= op.now.Ns() <= d
    ensures Answers(s', q, k', x, secret) && Timed(s'.sched, x, timed, ClockAfter(op, clock), DeadlineAfter(op, d))
  {
    k' := k;
    match op
    case DoPut(_, _, _, _, _) =>
      hide StepTo, Snap.Valid, Answers, Timed;
      k' := PutApart(opts, cipher, s, op, s', q, k, x, secret, timed, clock, d);
    case DoGet(_, _) =>
      hide StepTo, Snap.Valid, Answers, Timed;
      GetApart(opts, cipher, s, op, s', q, k, x, secret, timed, clock, d);
    case DoFlush(_, _) =>
      hide StepTo, Snap.Valid, Answers, Timed;
      FlushApart(opts, cipher, s, op, s', q, k, x, secret);
    case DoExpire(now, _) =>
      ExpireSlots(s, now);
      hide ExpireSnap, Answers, Lasts, Unlisted, Pass, Snap.HeadHeld, Schedule.Pops;
      if timed {
        PassLasts(s.sched, now, s.HeadHeld(), x, clock, d);
      } else {
        PassUnlisted(s.sched, now, s.HeadHeld(), x);
      }
      k' := ExpireApart(s, now, q, k, x, secret);
  }

  lemma {:induction false} KeptRun<T>(opts: Options, cipher: Cipher, trace: seq<Snap<T>>, ops: seq<Op>, q: Query, k: nat, x: T,
                                      secret: Secret, timed: bool, clock: int, d: int) returns (k': nat)
    requires IsRun(opts, cipher, trace, ops) && (forall i :: 0 <= i < |ops| ==> Apart(ops[i], q))
    requires timed ==> InTime(ops, clock, d)
    requires Answers(trace[0], q, k, x, secret) && Timed(trace[0].sched, x, timed, clock, d)
    ensures Answers(trace[|ops|], q, k', x, secret)
    decreases ops
  {
    k' := k;
    if ops != [] {
      RunTail(opts, cipher, trace, ops);
      hide StepTo, Snap.Valid, Answers, Timed, Apart;
      var j := KeptStep(opts, cipher, trace[0], ops[0], trace[1], q, k, x, secret, timed, clock, d);
      assert forall i :: 0 <= i < |ops[1..]| ==> ops[1..][i] == ops[i + 1];
      k' := KeptRun(opts, cipher, trace[1..], ops[1..], q, j, x, secret, timed, ClockAfter(ops[0], clock), DeadlineAfter(ops[0], d));
    }
  }

  /** An update puts the item alone in front of the pending list. */
  lemma UpdatedIsTimed<T>(s: Schedule<T>, x: T, when: When, clock: int)
    requires s.Valid()
    ensures Timed(Rescheduled(s, x, when), x, when.Due?, clock, if when.Due? then clock + when.sec * NANOS else clock)
  {
    RescheduledLists(s, x, when);
    ItemsOfAhead(s.pending, x);
    var r := Rescheduled(s, x, when);
    hide DeadlinesFrom, Before, Removed, Schedule.Valid;
    if when.Due? {
      var ahead := Ahead(s.pending, x);
      assert forall i :: 0 < i < |r.pending| ==> r.pending[i] == ahead[i - 1];
      assert forall i :: 0 < i < |r.pending| ==> Items(ahead)[i - 1] == r.pending[i].item;
    }
  }

  lemma PutAnswers<T>(opts: Options, cipher: Cipher, s: Snap<T>, op: Op, s': Snap<T>, clock: int) returns (k: nat, x: T)
    requires s.Valid() && op.DoPut? && op.WellFormed() && StepTo(opts, cipher, s, op, s')
    requires Stores(opts, op.q.mode, op.data.Some?, op.ttl) && op.data.Some? && NewData(cipher, op.data.value, op.fill).Some?
    ensures Answers(s', op.q, k, x, NewData(cipher, op.data.value, op.fill).value)
    ensures var when := Lifetime(opts, op.q.mode, op.ttl);
            Timed(s'.sched, x, when.Due?, clock, if when.Due? then clock + when.sec * NANOS else clock)
  {
    var st := StoreOf(opts, cipher, op.q, op.data, op.ttl, op.at, op.fill);
    var q := op.q;
    k := FirstHit(s.slots, q, false);
    hide Timed, Rescheduled, FirstHit, NewData, Expiration;
    LifetimeIs(opts, q.mode, op.ttl, op.at);
    if AddsItem(s, q, st) {
      x := s'.items[0];
      k := 0;
      UpdatedIsTimed(s.sched, x, WhenDue(opts, s'.slots[0], st.now), clock);
    } else {
      x := s.items[k];
      UpdatedIsTimed(s.sched, x, WhenDue(opts, s'.slots[k], st.now), clock);
    }
  }

  /** When data that is put expires if nothing happens: its lifetime or the maximum, whichever is less. */
  function Lifetime(opts: Options, mode: CacheMode, ttl: int): When {
    var own, max := EffectiveTtl(opts, mode, ttl), MaxTtl(opts, mode);
    if mode == Pin then Never
    else if own >= 0 && (max == 0 || own < max) then Due(own, LastAccess)
    else if max > 0 then Due(max, Creation)
    else Never
  }

  lemma LifetimeIs(opts: Options, mode: CacheMode, ttl: int, now: int)
    ensures Lifetime(opts, mode, ttl) == Expiration(opts, mode, true, now, EffectiveTtl(opts, mode, ttl), now)
  {
  }

  /**
   A put is remembered for its lifetime: if it is followed by operations on other keys and by
   expiration passes none of which comes later than the lifetime after the put, less half a second
   for every earlier pass, then a get with the same mode, key and restriction finds the data.
   Data without a lifetime is remembered whatever the time.
   */
  lemma PutIsKept<T>(opts: Options, cipher: Cipher, s: Snap<T>, op: Op, trace: seq<Snap<T>>, ops: seq<Op>, clock: int)
    requires s.Valid() && op.DoPut? && op.WellFormed() && IsRun(opts, cipher, trace, ops)
    requires StepTo(opts, cipher, s, op, trace[0])
    requires Stores(opts, op.q.mode, op.data.Some?, op.ttl) && op.data.Some? && NewData(cipher, op.data.value, op.fill).Some?
    requires forall i :: 0 <= i < |ops| ==> Apart(ops[i], op.q)
    requires var when := Lifetime(opts, op.q.mode, op.ttl); when.Due? ==> InTime(ops, clock, clock + when.sec * NANOS)
    ensures Lookup(trace[|ops|].slots, op.q) == NewData(cipher, op.data.value, op.fill)
  {
    StoredIsNotIgnored(opts, op.q.mode, op.data.Some?, op.ttl);
    hide *;
    var when := Lifetime(opts, op.q.mode, op.ttl);
    var secret := NewData(cipher, op.data.value, op.fill).value;
    RunStates(opts, cipher, trace, ops);
    var k, x := PutAnswers(opts, cipher, s, op, trace[0], clock);
    var j := KeptRun(opts, cipher, trace, ops, op.q, k, x, secret, when.Due?, clock, if when.Due? then clock + when.sec * NANOS else clock);
    AnswersLookup(trace[|ops|], op.q, j, x, secret);
  }

  lemma RunStates<T>(opts: Options, cipher: Cipher, trace: seq<Snap<T>>, ops: seq<Op>)
    requires IsRun(opts, cipher, trace, ops)
    ensures |trace| == |ops| + 1
  {
  }

  lemma StoredIsNotIgnored(opts: Options, mode: CacheMode, data: bool, ttl: int)
    requires Stores(opts, mode, data, ttl)
    ensures mode != Ignore
  {
  }

  /** A put that stores, followed by a run of steps about other keys. */
  lemma PutThenSpared<T>(opts: Options, cipher: Cipher, s: Snap<T>, op: Op, trace: seq<Snap<T>>, ops: seq<Op>)
    requires s.Valid() && op.DoPut? && op.WellFormed() && IsRun(opts, cipher, trace, ops)
    requires StepTo(opts, cipher, s, op, trace[0])
    requires Stores(opts, op.q.mode, op.data.Some?, op.ttl) && op.data.Some? && NewData(cipher, op.data.value, op.fill).Some?
    requires forall i :: 0 <= i < |ops| ==> ops[i].WellFormed() && SparesAt(opts, cipher, trace[i], ops[i], op.q.key)
    ensures Lookup(trace[|ops|].slots, op.q) == NewData(cipher, op.data.value, op.fill)
  {
    StoredIsNotIgnored(opts, op.q.mode, op.data.Some?, op.ttl);
    hide *;
    RunStates(opts, cipher, trace, ops);
    var k, x := PutAnswers(opts, cipher, s, op, trace[0], 0);
    AnswersLookup(trace[0], op.q, k, x, NewData(cipher, op.data.value, op.fill).value);
    SparingRunRemembers(opts, cipher, trace, ops, op.q);
  }

  // ----- A lost timer -----

  /** A put that finds no slot and has data makes a new item. */
  lemma PutOnMiss<T>(opts: Options, cipher: Cipher, s: Snap<T>, op: Op, s': Snap<T>)
    requires |s.slots| == |s.items| && op.DoPut? && op.WellFormed() && StepTo(opts, cipher, s, op, s')
    requires op.ttl != 0 && op.q.mode != Ignore && op.data.Some? && NewData(cipher, op.data.value, op.fill).Some?
    requires FirstHit(s.slots, op.q, false) == |s.slots|
    ensures s'.items != [] && s'.items[0] !in s.items
    ensures var slot := Slot(op.q.key, op.q.restricted, op.q.mode, NewData(cipher, op.data.value, op.fill), op.ttl, op.at);
            s' == Snap([s'.items[0]] + s.items, [slot] + s.slots, Rescheduled(s.sched, s'.items[0], WhenDue(opts, slot, op.at)))
  {
    hide FirstHit, NewData, Rescheduled, WhenDue;
  }

  lemma NewOnPending<T>(p: seq<Entry<T>>, x: T, when: When)
    requires x !in Items(p) && when.Due?
    ensures Rescheduled(Schedule(ZERO, [], p), x, when) == Schedule(ZERO, [], [Entry(x, when.sec)] + p)
  {
  }

  /** The state after two puts. */
  ghost predicate TwoPending<T>(opts: Options, s: Snap<T>, first: Slot, second: Slot, sec: int) {
    && |s.items| == 2 && s.items[0] != s.items[1] && s.slots == [second, first]
    && s.sched == Schedule(ZERO, [], [Entry(s.items[0], sec), Entry(s.items[1], sec)])
  }

  lemma SecondTakesItsTurn<T>(opts: Options, cipher: Cipher, s: Snap<T>, first: Slot, second: Slot, sec: int, q: Query, s': Snap<T>)
    requires TwoPending(opts, s, first, second, sec) && q.Hits(second, true) && q.mode == Normal && second.mode == Normal
    requires WhenDue(opts, second, 0) == Due(sec, LastAccess) || WhenDue(opts, second, 0) == Due(sec, Creation)
    requires Expirable(opts, first) && StepTo(opts, cipher, s, DoGet(q, 0), s')
    ensures |s'.slots| == |s'.items| && !Covered(opts, s')
  {
    hide WhenDue, Expirable;
    var b, a := s.items[0], s.items[1];
    FirstHitIs(s.slots, q, true, 0);
    hide FirstHit;
    assert Items(s.sched.pending) == [b, a] && Before([b, a], b) == [];
    assert Ahead(s.sched.pending, b) == [];
    assert s'.sched.pending == [Entry(b, sec)];
    assert Items(s'.sched.pending) == [b];
    assert Expirable(opts, s'.slots[1]) && !s'.OnList(s'.items[1]);
  }

  const FIRST: Query := Query("first", Normal, -1)
  const SECOND: Query := Query("second", Normal, -1)

  /** The slot of a put for ten minutes at time zero. */
  function TenMinutes(q: Query, secret: Option<Secret>): Slot {
    Slot(q.key, q.restricted, q.mode, secret, 600, 0)
  }

  lemma KeysDiffer(secret: Option<Secret>)
    requires secret.Some?
    ensures !SECOND.Matches(TenMinutes(FIRST, secret)) && SECOND.Hits(TenMinutes(SECOND, secret), true)
    ensures FIRST.mode == SECOND.mode == Normal
  {
    assert FIRST.key[0] != SECOND.key[0];
  }

  lemma TenMinutesAreDue(opts: Options, secret: Option<Secret>)
    requires secret.Some?
    ensures Expirable(opts, TenMinutes(FIRST, secret)) && TenMinutes(SECOND, secret).mode == Normal
    ensures WhenDue(opts, TenMinutes(FIRST, secret), 0) == WhenDue(opts, TenMinutes(SECOND, secret), 0)
    ensures WhenDue(opts, TenMinutes(SECOND, secret), 0).Due? && WhenDue(opts, TenMinutes(SECOND, secret), 0).reason != Unused
  {
  }

  lemma AfterTwoPuts<T>(opts: Options, cipher: Cipher, data: bytes, fill: bytes, s0: Snap<T>, s1: Snap<T>, s2: Snap<T>)
    requires |fill| == 32 && NewData(cipher, data, fill).Some? && s0 == Snap([], [], Schedule(ZERO, [], []))
    requires StepTo(opts, cipher, s0, DoPut(FIRST, Some(data), 600, 0, fill), s1) && |s1.slots| == |s1.items|
    requires StepTo(opts, cipher, s1, DoPut(SECOND, Some(data), 600, 0, fill), s2)
    ensures var secret := NewData(cipher, data, fill);
            var when := WhenDue(opts, TenMinutes(SECOND, secret), 0);
            when.Due? && TwoPending(opts, s2, TenMinutes(FIRST, secret), TenMinutes(SECOND, secret), when.sec)
  {
    hide StepTo, NewData, WhenDue, Expirable, Rescheduled, FirstHit, FIRST, SECOND;
    var secret := NewData(cipher, data, fill);
    KeysDiffer(secret);
    TenMinutesAreDue(opts, secret);
    var when := WhenDue(opts, TenMinutes(SECOND, secret), 0);
    FirstHitIs(s0.slots, FIRST, false, 0);
    PutOnMiss(opts, cipher, s0, DoPut(FIRST, Some(data), 600, 0, fill), s1);
    var a := s1.items[0];
    NewOnPending([], a, when);
    assert s1.items == [a] && s1.slots == [TenMinutes(FIRST, secret)];
    assert [Entry(a, when.sec)] + [] == [Entry(a, when.sec)];
    FirstHitIs(s1.slots, SECOND, false, 1);
    PutOnMiss(opts, cipher, s1, DoPut(SECOND, Some(data), 600, 0, fill), s2);
    assert Items([Entry(a, when.sec)]) == [a];
    var b := s2.items[0];
    NewOnPending([Entry(a, when.sec)], b, when);
    assert s2.items == [b, a] && s2.slots == [TenMinutes(SECOND, secret), TenMinutes(FIRST, secret)];
    assert [Entry(b, when.sec)] + [Entry(a, when.sec)] == [Entry(b, when.sec), Entry(a, when.sec)];
  }

  /** Two puts and a get in a row: the get cuts the first item off the pending list. */
  lemma TimerIsLost<T>(opts: Options, cipher: Cipher, data: bytes, fill: bytes,
                       s0: Snap<T>, s1: Snap<T>, s2: Snap<T>, s3: Snap<T>)
    requires |fill| == 32 && NewData(cipher, data, fill).Some? && s0 == Snap([], [], Schedule(ZERO, [], []))
    requires StepTo(opts, cipher, s0, DoPut(FIRST, Some(data), 600, 0, fill), s1) && |s1.slots| == |s1.items|
    requires StepTo(opts, cipher, s1, DoPut(SECOND, Some(data), 600, 0, fill), s2) && |s2.slots| == |s2.items|
    requires StepTo(opts, cipher, s2, DoGet(SECOND, 0), s3)
    ensures |s3.slots| == |s3.items| && !Covered(opts, s3)
  {
    hide StepTo, NewData, WhenDue, Expirable, Covered, TwoPending, FIRST, SECOND, TenMinutes;
    var secret := NewData(cipher, data, fill);
    KeysDiffer(secret);
    TenMinutesAreDue(opts, secret);
    AfterTwoPuts(opts, cipher, data, fill, s0, s1, s2);
    SecondTakesItsTurn(opts, cipher, s2, TenMinutes(FIRST, secret), TenMinutes(SECOND, secret),
                       WhenDue(opts, TenMinutes(SECOND, secret), 0).sec, SECOND, s3);
  }
}
