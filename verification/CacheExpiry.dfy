/**
 What the passphrase cache forgets and when: how long a put may stay, what a flush and an
 expiration pass take away, and that passes which come late enough leave nothing that expires.
 */
module CacheExpiry {
  import opened Bytes
  import opened CacheLifetime
  import opened CacheModel
  import opened CacheSlots
  import opened TimerLists
  import opened TimerQueue
  import opened Wrappers

  // ----- How long a put may stay -----

  function Min(a: int, b: int): int {
    if a < b then a else b
  }

  /**
   The lifetime of data that is put, mode by mode.  The time asked for, or else the default of the
   mode, is cut at the maximum of the mode if there is one; a PIN stays until it is flushed, data items
   have a default of ten minutes and no maximum, and SSH keys have options of their own.
   */
  lemma LifetimeOfMode(opts: Options, mode: CacheMode, ttl: int)
    ensures mode == Pin ==> Lifetime(opts, mode, ttl) == Never
    ensures mode == Data && ttl >= 0 ==> Lifetime(opts, mode, ttl) == Due(if ttl == 0 then 600 else ttl, LastAccess)
    ensures mode == Data && ttl < 0 ==> Lifetime(opts, mode, ttl) == Never
    ensures mode == Ssh && ttl >= 0 ==>
              var own := if ttl == 0 then opts.defTtlSsh else ttl;
              && Lifetime(opts, mode, ttl).Due?
              && Lifetime(opts, mode, ttl).sec == if opts.maxTtlSsh == 0 then own else Min(own, opts.maxTtlSsh)
    ensures mode == Normal || mode == User || mode == Nonce || mode == Any ==>
              (ttl >= 0 ==>
                 var own := if ttl == 0 then opts.defTtl else ttl;
                 && Lifetime(opts, mode, ttl).Due?
                 && Lifetime(opts, mode, ttl).sec == if opts.maxTtl == 0 then own else Min(own, opts.maxTtl))
    ensures ttl < 0 && (mode == Ssh || mode == Normal || mode == User || mode == Nonce || mode == Any) ==>
              var max := if mode == Ssh then opts.maxTtlSsh else opts.maxTtl;
              Lifetime(opts, mode, ttl) == if max == 0 then Never else Due(max, Creation)
  {
  }

  /** Which puts with data are dropped: ignored ones, and those whose default lifetime is zero. */
  lemma DroppedPuts(opts: Options, mode: CacheMode, ttl: int)
    ensures Stores(opts, mode, true, ttl) <==>
            && mode != Ignore
            && (ttl == 0 && mode == Ssh ==> opts.defTtlSsh != 0)
            && (ttl == 0 && (mode == Normal || mode == User || mode == Nonce || mode == Any) ==> opts.defTtl != 0)
    ensures Stores(opts, mode, false, ttl) <==> mode != Ignore
  {
  }

  /**
   A put that stores puts its item in front of the pending list, with its lifetime as the delay, or
   leaves it without a timer if it has none.
   */
  lemma PutIsScheduled<T>(opts: Options, cipher: Cipher, s: Snap<T>, op: Op, s': Snap<T>) returns (x: T)
    requires s.Valid() && op.DoPut? && op.WellFormed() && StepTo(opts, cipher, s, op, s')
    requires Stores(opts, op.q.mode, op.data.Some?, op.ttl) && op.data.Some? && NewData(cipher, op.data.value, op.fill).Some?
    ensures exists k :: 0 <= k < |s'.items| == |s'.slots| && s'.items[k] == x && s'.slots[k].key == op.q.key
                        && s'.slots[k].mode == op.q.mode
                        && s'.slots[k].pw == NewData(cipher, op.data.value, op.fill) && s'.slots[k].created == op.at
    ensures Lifetime(opts, op.q.mode, op.ttl).Due? ==>
              s'.sched.pending != [] && s'.sched.pending[0] == Entry(x, Lifetime(opts, op.q.mode, op.ttl).sec)
    ensures Lifetime(opts, op.q.mode, op.ttl) == Never ==> x !in Items(s'.sched.active) && x !in Items(s'.sched.pending)
  {
    var st := StoreOf(opts, cipher, op.q, op.data, op.ttl, op.at, op.fill);
    var k := FirstHit(s.slots, op.q, false);
    SoundFacts(s);
    hide FirstHit, NewData, Expiration, Removed, Ahead, Snap.Valid;
    LifetimeIs(opts, op.q.mode, op.ttl, op.at);
    if AddsItem(s, op.q, st) {
      x := s'.items[0];
      assert s'.slots[0].key == op.q.key;
    } else {
      x := s.items[k];
      assert s'.items[k] == x && s'.slots[k].key == op.q.key;
    }
    RescheduledLists(s.sched, x, Lifetime(opts, op.q.mode, op.ttl));
  }

  /**
   A get changes no slot.  If it hits, the item gets a new delay and is the head of the pending list,
   or has no timer; but an item in data mode, and every item if nothing is hit, is left alone.
   */
  lemma GetRestarts<T>(opts: Options, cipher: Cipher, s: Snap<T>, op: Op, s': Snap<T>)
    requires s.Valid() && op.DoGet? && StepTo(opts, cipher, s, op, s')
    ensures s'.items == s.items && s'.slots == s.slots
    ensures Lookup(s.slots, op.q) == None ==> s' == s
    ensures Lookup(s.slots, op.q).Some? ==>
              exists k :: 0 <= k < |s.items| == |s.slots| && s.slots[k].pw == Lookup(s.slots, op.q)
                          && if s.slots[k].mode == Data then s' == s
                             else
                               var when := Expiration(opts, s.slots[k].mode, true, s.slots[k].created, s.slots[k].ttl, op.at);
                               if when.Due? then s'.sched.pending != [] && s'.sched.pending[0] == Entry(s.items[k], when.sec)
                               else s.items[k] !in Items(s'.sched.active) && s.items[k] !in Items(s'.sched.pending)
  {
    SoundFacts(s);
    hide FirstHit, Expiration, Removed, Ahead, Snap.Valid;
    if Lookup(s.slots, op.q).Some? {
      var k := FirstHit(s.slots, op.q, true);
      assert s.slots[k].pw == Lookup(s.slots, op.q);
      if s.slots[k].mode != Data {
        RescheduledLists(s.sched, s.items[k], WhenDue(opts, s.slots[k], op.at));
      }
    }
  }

  /**
   The delay of an item with data: its own lifetime or what is left until the maximum, whichever is
   less; nothing once the maximum has passed.
   */
  lemma DelayIsLess(opts: Options, mode: CacheMode, created: int, ttl: int, now: int)
    requires mode != Pin && ttl >= 0
    ensures var max := if mode == Ssh then opts.maxTtlSsh else if mode == Data then 0 else opts.maxTtl;
            var when := Expiration(opts, mode, true, created, ttl, now);
            && when.Due?
            && (max == 0 || created + max == now ==> when.sec == ttl)
            && (max > 0 && created + max > now ==> when.sec == Min(ttl, created + max - now))
            && (max > 0 && created + max < now ==> when.sec == 0)
    ensures Expiration(opts, mode, false, created, ttl, now) == Due(1800, Unused)
  {
  }

  // ----- What is taken away -----

  /** A flush takes the data of every slot, or only that of the PINs, and changes nothing else of a slot. */
  lemma FlushForgets<T>(opts: Options, cipher: Cipher, s: Snap<T>, op: Op, s': Snap<T>)
    requires s.Valid() && op.DoFlush? && StepTo(opts, cipher, s, op, s')
    ensures s'.items == s.items && |s'.slots| == |s.slots|
    ensures forall i :: 0 <= i < |s.slots| ==>
              s'.slots[i] == if op.pinOnly && s.slots[i].mode != Pin then s.slots[i] else s.slots[i].(pw := None)
  {
    FlushSlots(opts, s, op.pinOnly, op.at, 0);
    hide FlushSnap;
  }

  /** The first entries of a list, if `x` is not among them, are still there when it is cut at `x`. */
  lemma AheadKeeps<T>(es: seq<Entry<T>>, x: T, m: nat)
    requires m <= |es| && forall i :: 0 <= i < m ==> es[i].item != x
    ensures m <= |Ahead(es, x)| && Ahead(es, x)[..m] == es[..m]
  {
    var k := |Before(Items(es), x)|;
    assert k < |es| ==> Items(es)[k] == x;
    hide Before;
  }

  /** None of these entries is of an item from `k` on. */
  ghost predicate Past<T>(es: seq<Entry<T>>, items: seq<T>, k: nat) {
    forall i, j :: 0 <= i < |es| && k <= j < |items| ==> es[i].item != items[j]
  }

  /** The list after the flush of one item: what it starts with. */
  lemma FlushOnePending<T>(opts: Options, s: Snap<T>, now: int, k: nat, m: nat) returns (m1: nat)
    requires |s.slots| == |s.items| && Distinct(s.items) && k < |s.items| && m <= |s.sched.pending|
    requires Past(s.sched.pending[..m], s.items, k)
    ensures var p := FlushOne(opts, s, now, k).sched.pending;
            && m1 <= |p| && Past(p[..m1], s.items, k + 1)
            && (forall e :: e in s.sched.pending[..m] ==> e in p[..m1])
            && (s.slots[k].mode != Pin ==> Entry(s.items[k], 1800) in p[..m1])
  {
    var pending, x := s.sched.pending, s.items[k];
    var when := WhenDue(opts, s.slots[k].(pw := None), now);
    assert when == if s.slots[k].mode == Pin then Never else Due(1800, Unused);
    assert forall i :: 0 <= i < m ==> pending[..m][i] == pending[i];
    AheadKeeps(pending, x, m);
    var kept, added := Ahead(pending, x), if when.Due? then [Entry(x, 1800)] else [];
    var p := FlushOne(opts, s, now, k).sched.pending;
    assert p == added + kept;
    m1 := |added| + m;
    assert p[..m1] == added + kept[..m] == added + pending[..m];
    hide WhenDue, Ahead, FlushOne;
    assert forall j :: k < j < |s.items| ==> s.items[j] != x;
    if when.Due? {
      assert p[..m1][0] == Entry(x, 1800);
    }
  }

  /** A flush from the item at `k` on, when the first `m` pending entries are of items before it. */
  lemma {:induction false} FlushPending<T>(opts: Options, s: Snap<T>, pinOnly: bool, now: int, k: nat, m: nat)
    requires |s.slots| == |s.items| && Distinct(s.items) && k <= |s.items| && m <= |s.sched.pending|
    requires Past(s.sched.pending[..m], s.items, k)
    ensures var p := FlushSnap(opts, s, pinOnly, now, k).sched.pending;
            && (forall e :: e in s.sched.pending[..m] ==> e in p)
            && (forall j :: k <= j < |s.items| && s.slots[j].pw.Some? && s.slots[j].mode != Pin && !pinOnly ==>
                  Entry(s.items[j], 1800) in p)
    decreases |s.items| - k
  {
    if k < |s.items| {
      hide Distinct, Past, FlushOne;
      var s1, m1 := s, m;
      if FlushHits(pinOnly, s.slots[k]) {
        m1 := FlushOnePending(opts, s, now, k, m);
        OthersStay(opts, s, now, k);
        s1 := FlushOne(opts, s, now, k);
      } else {
        PastLater(s.sched.pending[..m], s.items, k);
      }
      assert FlushSnap(opts, s, pinOnly, now, k) == FlushSnap(opts, s1, pinOnly, now, k + 1);
      hide FlushSnap;
      FlushPending(opts, s1, pinOnly, now, k + 1, m1);
    }
  }

  lemma PastLater<T>(es: seq<Entry<T>>, items: seq<T>, k: nat)
    requires Past(es, items, k)
    ensures Past(es, items, k + 1)
  {
  }

  lemma OthersStay<T>(opts: Options, s: Snap<T>, now: int, k: nat)
    requires |s.slots| == |s.items| && k < |s.items|
    ensures FlushOne(opts, s, now, k).items == s.items
    ensures forall j :: k < j < |s.items| ==> FlushOne(opts, s, now, k).slots[j] == s.slots[j]
  {
    hide Rescheduled, WhenDue;
  }

  /** Every item that loses its data in a flush, and is no PIN, waits for half an hour as an unused slot. */
  lemma FlushedAreUnused<T>(opts: Options, cipher: Cipher, s: Snap<T>, op: Op, s': Snap<T>, j: nat)
    requires s.Valid() && op.DoFlush? && !op.pinOnly && StepTo(opts, cipher, s, op, s')
    requires j < |s.items| == |s.slots| && s.slots[j].pw.Some? && s.slots[j].mode != Pin
    ensures Entry(s.items[j], 1800) in s'.sched.pending
  {
    hide FlushSnap, Distinct;
    FlushPending(opts, s, false, op.at, 0, 0);
  }

  lemma {:induction false} DeadlinesAtLeast<T>(base: int, es: seq<Entry<T>>)
    requires NonNegative(es)
    ensures forall x :: x in DeadlinesFrom(base, es) ==> DeadlinesFrom(base, es)[x] >= base
    decreases es
  {
    if es != [] {
      assert forall i :: 0 <= i < |es[1..]| ==> es[1..][i] == es[i + 1];
      DeadlinesAtLeast(base + es[0].delta * NANOS, es[1..]);
    }
  }

  /** On an armed list a pass pops the head if and only if some deadline has passed. */
  lemma PopsWhenOverdue<T>(s: Schedule<T>, now: Timespec)
    requires s.Valid() && now.Normal() && (s.active != [] ==> s.active[0].delta == 0)
    ensures s.Pops(now) <==> exists x :: x in s.Deadlines() && s.Deadlines()[x] < now.Ns()
  {
    TimespecArithmetic(s.abstime, now);
    DeadlinesAtLeast(s.abstime.Ns(), s.active);
    if s.Pops(now) {
      PoppedIsOverdue(s, now);
    }
  }

  /**
   What a pass does to the items: if it pops, the head loses its data, or leaves the cache if it had
   none; every other item keeps its slot.  If it does not pop, no item changes.
   */
  lemma ExpireTakes<T>(opts: Options, cipher: Cipher, s: Snap<T>, op: Op, s': Snap<T>)
    requires s.Valid() && op.DoExpire? && op.WellFormed() && StepTo(opts, cipher, s, op, s')
    ensures |s'.slots| == |s'.items| && |s.slots| == |s.items|
    ensures !s.sched.Pops(op.now) ==> s'.items == s.items && s'.slots == s.slots
    ensures s.sched.Pops(op.now) ==>
              exists k :: 0 <= k < |s.items| && s.items[k] == s.sched.active[0].item
                          && if s.slots[k].pw.Some?
                             then s'.items == s.items && s'.slots == s.slots[k := s.slots[k].(pw := None)]
                             else && s'.items == s.items[..k] + s.items[k + 1..]
                                  && s'.slots == s.slots[..k] + s.slots[k + 1..]
  {
    StepIs(opts, cipher, s, op, s');
    ExpireCases(s, op.now);
    hide ExpireSnap, Pass, Snap.Valid, Schedule.Pops, StepTo;
    if s.sched.Pops(op.now) {
      var k := s.Index(HeadOf(s));
      assert s.items[k] == s.sched.active[0].item;
    }
  }

  /**
   An expiration pass in terms of deadlines alone.  It pops the head if the anchor time has passed and
   the head has no delta left.  Every other active item keeps its deadline but for how late the pass
   is and at most half a second; every pending one is due within a second of what it asked for; a
   popped item with data is due again in half an hour, and one without is due no more.
   */
  lemma PassMeans<T>(opts: Options, cipher: Cipher, s: Snap<T>, op: Op, s': Snap<T>) returns (shift: int)
    requires s.Valid() && op.DoExpire? && op.WellFormed() && StepTo(opts, cipher, s, op, s')
    ensures -500_000_000 <= shift <= 500_000_000 && s'.sched.pending == []
    ensures var a, now := s.sched.active, op.now.Ns();
            var late := if a != [] && s.sched.abstime.Ns() < now then now - s.sched.abstime.Ns() else 0;
            var pops := late > 0 && a[0].delta == 0;
            && (forall i :: 0 <= i < |a| && !(pops && i == 0) ==>
                  && a[i].item in s.sched.Deadlines() && a[i].item in s'.sched.Deadlines()
                  && s'.sched.Deadlines()[a[i].item] == s.sched.Deadlines()[a[i].item] + late + shift)
            && (forall i :: 0 <= i < |s.sched.pending| ==>
                  var e := s.sched.pending[i];
                  && e.item in s'.sched.Deadlines()
                  && e.delta * 1_000_000_000 <= s'.sched.Deadlines()[e.item] - now <= (e.delta + 1) * 1_000_000_000)
            && (pops && s.HeadHeld() ==>
                  && a[0].item in s'.sched.Deadlines()
                  && 1800 * 1_000_000_000 <= s'.sched.Deadlines()[a[0].item] - now <= 1801 * 1_000_000_000)
            && (pops && !s.HeadHeld() ==> a[0].item !in s'.sched.Deadlines())
  {
    StepIs(opts, cipher, s, op, s');
    SoundFacts(s);
    TimespecArithmetic(s.sched.abstime, op.now);
    shift := ExpireDeadlines(s, op.now);
    RemainingAre(s.sched, op.now);
    RequestsAre(s.sched, op.now, s.HeadHeld());
    ExpireCases(s, op.now);
    if s.sched.Pops(op.now) && !s.HeadHeld() {
      DroppedIsNotDue(s.sched, op.now);
    }
    hide ExpireSnap, Pass, StepTo, Snap.Valid, Schedule.Valid, Schedule.Remaining, Schedule.Requests, DeadlinesFrom, Snap.HeadHeld;
  }

  lemma RemainingAre<T>(s: Schedule<T>, now: Timespec)
    ensures forall i :: 0 <= i < |s.active| && !(s.Pops(now) && i == 0) ==> s.active[i] in s.Remaining(now)
  {
    if s.Pops(now) {
      assert forall i :: 0 < i < |s.active| ==> s.active[i] == s.active[1..][i - 1];
    }
  }

  lemma RequestsAre<T>(s: Schedule<T>, now: Timespec, held: bool)
    ensures forall i :: 0 <= i < |s.pending| ==> s.pending[i] in s.Requests(now, held)
    ensures s.Pops(now) && held ==> Entry(s.active[0].item, 1800) in s.Requests(now, held)
  {
    assert s.Pops(now) && held ==> s.Requests(now, held)[0] == Entry(s.active[0].item, 1800);
  }

  lemma DroppedIsNotDue<T>(s: Schedule<T>, now: Timespec)
    requires s.Valid() && now.Normal() && s.Pops(now)
    ensures s.active[0].item !in Pass(s, now, false).Deadlines()
  {
    var x := s.active[0].item;
    PassLists(s, now, false);
    DeadlineKeys(Pass(s, now, false).abstime.Ns(), Pass(s, now, false).active);
    hide Pass, DeadlinesFrom;
    assert Items(s.active)[0] == x;
    assert forall i :: 0 <= i < |s.active[1..]| ==> Items(s.active[1..])[i] == Items(s.active)[i + 1];
    assert forall i :: 0 <= i < |s.pending| ==> Items(s.pending)[i] == s.pending[i].item != x;
  }

  // ----- Everything expires -----

  /** How many slots hold data. */
  function Held(slots: seq<Slot>): nat {
    if slots == [] then 0 else (if slots[0].pw.Some? then 1 else 0) + Held(slots[1..])
  }

  lemma {:induction false} HeldConcat(a: seq<Slot>, b: seq<Slot>)
    ensures Held(a + b) == Held(a) + Held(b)
  {
    if a == [] {
      assert a + b == b;
    } else {
      assert (a + b)[1..] == a[1..] + b;
      HeldConcat(a[1..], b);
    }
  }

  /** The slots on both sides of one. */
  lemma HeldAt(slots: seq<Slot>, k: nat)
    requires k < |slots|
    ensures Held(slots) == Held(slots[..k]) + (if slots[k].pw.Some? then 1 else 0) + Held(slots[k + 1..])
  {
    assert slots == slots[..k] + slots[k..];
    HeldConcat(slots[..k], slots[k..]);
  }

  /** The pass comes after every deadline. */
  ghost predicate Late<T>(s: Schedule<T>, now: Timespec) {
    forall x :: x in s.Deadlines() ==> s.Deadlines()[x] < now.Ns()
  }

  ghost predicate Armed<T>(s: Schedule<T>) {
    s.pending == [] && (s.active != [] ==> s.active[0].delta == 0)
  }

  /** What a late pass uses up: an item leaves, or its data does. */
  ghost function Left<T>(s: Snap<T>): nat {
    |s.slots| + Held(s.slots)
  }

  lemma PassIsArmed<T>(opts: Options, cipher: Cipher, s: Snap<T>, op: Op, s': Snap<T>)
    requires s.Valid() && op.DoExpire? && op.WellFormed() && StepTo(opts, cipher, s, op, s')
    ensures Armed(s'.sched)
  {
    StepIs(opts, cipher, s, op, s');
    ExpireCases(s, op.now);
    SoundFacts(s);
    var _ := PassSpec(s.sched, op.now, s.HeadHeld());
    hide ExpireSnap, Pass, Snap.Valid, StepTo;
  }

  lemma LatePass<T>(opts: Options, cipher: Cipher, s: Snap<T>, op: Op, s': Snap<T>)
    requires s.Valid() && op.DoExpire? && op.WellFormed() && StepTo(opts, cipher, s, op, s')
    requires Late(s.sched, op.now) && Armed(s.sched)
    ensures s.sched.active != [] ==> Left(s') == Left(s) - 1
    ensures s.sched.active == [] ==> s' == s
  {
    if s.sched.active == [] {
      NothingToDo(s, op.now);
      hide ExpireSnap;
    } else {
      SoundFacts(s);
      PopsWhenOverdue(s.sched, op.now);
      HeadIsDue(s.sched);
      ExpireTakes(opts, cipher, s, op, s');
      hide StepTo, Snap.Valid, Schedule.Valid, DeadlinesFrom, Held, Schedule.Pops;
      assert s.sched.Pops(op.now);
      var k :| 0 <= k < |s.items| && s.items[k] == s.sched.active[0].item
               && if s.slots[k].pw.Some?
                  then s'.items == s.items && s'.slots == s.slots[k := s.slots[k].(pw := None)]
                  else && s'.items == s.items[..k] + s.items[k + 1..]
                       && s'.slots == s.slots[..k] + s.slots[k + 1..];
      HeldAt(s.slots, k);
      if s.slots[k].pw.Some? {
        HeldAt(s'.slots, k);
        assert s'.slots[..k] == s.slots[..k] && s'.slots[k + 1..] == s.slots[k + 1..];
      } else {
        HeldConcat(s.slots[..k], s.slots[k + 1..]);
      }
    }
  }

  lemma HeadIsDue<T>(s: Schedule<T>)
    requires s.active != []
    ensures s.active[0].item in s.Deadlines()
  {
  }

  lemma NothingToDo<T>(s: Snap<T>, now: Timespec)
    requires |s.slots| == |s.items| && s.sched.active == [] && s.sched.pending == []
    ensures ExpireSnap(s, now) == s
  {
  }

  ghost predicate LateRun<T>(trace: seq<Snap<T>>, ops: seq<Op>)
    requires |trace| == |ops| + 1
  {
    forall i :: 0 <= i < |ops| ==> ops[i].DoExpire? && Late(trace[i].sched, ops[i].now)
  }

  lemma {:induction false} LateRunEmpties<T>(opts: Options, cipher: Cipher, trace: seq<Snap<T>>, ops: seq<Op>)
    requires IsRun(opts, cipher, trace, ops) && LateRun(trace, ops) && Armed(trace[0].sched) && |ops| >= Left(trace[0])
    ensures Armed(trace[|ops|].sched)
    ensures trace[|ops|].sched.active == []
    decreases ops
  {
    if ops == [] {
      ListedIsLeft(trace[0]);
    } else {
      var s, op, s' := trace[0], ops[0], trace[1];
      hide StepTo, Snap.Valid, Late, Left, Armed;
      LatePass(opts, cipher, s, op, s');
      PassIsArmed(opts, cipher, s, op, s');
      RunTail(opts, cipher, trace, ops);
      assert forall i :: 0 <= i < |ops[1..]| ==> ops[1..][i] == ops[i + 1] && trace[1..][i] == trace[i + 1];
      if s.sched.active != [] {
        LateRunEmpties(opts, cipher, trace[1..], ops[1..]);
      } else {
        StaysEmpty(opts, cipher, trace[1..], ops[1..]);
      }
      assert trace[1..][|ops[1..]|] == trace[|ops|];
    }
  }

  lemma {:induction false} StaysEmpty<T>(opts: Options, cipher: Cipher, trace: seq<Snap<T>>, ops: seq<Op>)
    requires IsRun(opts, cipher, trace, ops) && LateRun(trace, ops) && Armed(trace[0].sched) && trace[0].sched.active == []
    ensures Armed(trace[|ops|].sched) && trace[|ops|].sched.active == []
    decreases ops
  {
    if ops != [] {
      hide StepTo, Snap.Valid, Late, Left, Armed;
      LatePass(opts, cipher, trace[0], ops[0], trace[1]);
      RunTail(opts, cipher, trace, ops);
      assert forall i :: 0 <= i < |ops[1..]| ==> ops[1..][i] == ops[i + 1] && trace[1..][i] == trace[i + 1];
      StaysEmpty(opts, cipher, trace[1..], ops[1..]);
      assert trace[1..][|ops[1..]|] == trace[|ops|];
    }
  }

  /** What is listed is in the cache. */
  lemma ListedIsLeft<T>(s: Snap<T>)
    requires s.Valid()
    ensures s.sched.active != [] ==> Left(s) > 0
  {
    if s.sched.active != [] {
      assert Items(s.sched.active)[0] in s.items;
    }
  }

  /**
   Whatever is supposed to expire does: from a state in which all of it has a timer, passes that each
   come after all deadlines, one to arm the list and then one for every item and one for every item
   with data, leave no data that could expire.
   */
  lemma EverythingExpires<T>(opts: Options, cipher: Cipher, trace: seq<Snap<T>>, ops: seq<Op>)
    requires IsRun(opts, cipher, trace, ops) && LateRun(trace, ops) && CoveredAt(opts, trace, 0)
    requires |ops| > |trace[0].slots| + Held(trace[0].slots)
    ensures |trace[|ops|].slots| == |trace[|ops|].items|
    ensures forall i :: 0 <= i < |trace[|ops|].slots| ==>
              var slot := trace[|ops|].slots[i];
              slot.pw.Some? && slot.mode != Pin ==> slot.ttl < 0 && MaxTtl(opts, slot.mode) == 0
  {
    var s, op, s' := trace[0], ops[0], trace[1];
    var last := trace[|ops|];
    ValidLengths(last);
    hide StepTo, Snap.Valid, Late, Armed, Held;
    PassIsArmed(opts, cipher, s, op, s');
    FirstPass(opts, cipher, s, op, s');
    RunTail(opts, cipher, trace, ops);
    assert forall i :: 0 <= i < |ops[1..]| ==> ops[1..][i] == ops[i + 1] && trace[1..][i] == trace[i + 1];
    LateRunEmpties(opts, cipher, trace[1..], ops[1..]);
    assert trace[1..][|ops[1..]|] == last;
    PassesAreSafe(opts, cipher, trace, ops);
    EmptyIsUncovered(opts, last);
  }

  lemma FirstPass<T>(opts: Options, cipher: Cipher, s: Snap<T>, op: Op, s': Snap<T>)
    requires s.Valid() && op.DoExpire? && op.WellFormed() && StepTo(opts, cipher, s, op, s')
    ensures Left(s') <= Left(s)
  {
    ExpireTakes(opts, cipher, s, op, s');
    hide StepTo, Snap.Valid, Held, Schedule.Pops;
    if s.sched.Pops(op.now) {
      var k :| 0 <= k < |s.items| && s.items[k] == s.sched.active[0].item
               && if s.slots[k].pw.Some?
                  then s'.items == s.items && s'.slots == s.slots[k := s.slots[k].(pw := None)]
                  else && s'.items == s.items[..k] + s.items[k + 1..]
                       && s'.slots == s.slots[..k] + s.slots[k + 1..];
      HeldAt(s.slots, k);
      if s.slots[k].pw.Some? {
        HeldAt(s'.slots, k);
        assert s'.slots[..k] == s.slots[..k] && s'.slots[k + 1..] == s.slots[k + 1..];
      } else {
        HeldConcat(s.slots[..k], s.slots[k + 1..]);
      }
    }
  }

  lemma PassesAreSafe<T>(opts: Options, cipher: Cipher, trace: seq<Snap<T>>, ops: seq<Op>)
    requires IsRun(opts, cipher, trace, ops) && LateRun(trace, ops) && CoveredAt(opts, trace, 0)
    ensures CoveredAt(opts, trace, |ops|)
  {
    forall i: nat | i < |ops|
      ensures SafeAt(opts, trace, ops, i)
    {
      ValidLengths(trace[i]);
    }
    hide StepTo, Snap.Valid, Late, CoveredAt, SafeAt;
    CoveredThroughoutIff(opts, cipher, trace, ops);
  }

  lemma EmptyIsUncovered<T>(opts: Options, s: Snap<T>)
    requires |s.slots| == |s.items| && Covered(opts, s) && Armed(s.sched) && s.sched.active == []
    ensures forall i :: 0 <= i < |s.slots| && s.slots[i].pw.Some? && s.slots[i].mode != Pin ==>
              s.slots[i].ttl < 0 && MaxTtl(opts, s.slots[i].mode) == 0
  {
    forall i | 0 <= i < |s.slots| && s.slots[i].pw.Some? && s.slots[i].mode != Pin
      ensures s.slots[i].ttl < 0 && MaxTtl(opts, s.slots[i].mode) == 0
    {
      assert !s.OnList(s.items[i]);
    }
  }
}
