/**
 The passphrase cache on values: what its items hold and how they are scheduled, what each operation
 makes of that, and which runs keep a timer for everything that is supposed to expire.
 */
module CacheModel {
  import opened Bytes
  import opened CacheSlots
  import opened TimerLists
  import opened TimerQueue
  import opened Wrappers

  datatype Options = Options(defTtl: nat, defTtlSsh: nat, maxTtl: nat, maxTtlSsh: nat)

  const DEF_CACHE_TTL_DATA := 10 * 60

  // ----- When an item expires -----

  datatype When = Never | Due(sec: int, reason: Reason)

  function MaxTtl(opts: Options, mode: CacheMode): nat {
    match mode
    case Data | Pin => 0
    case Ssh => opts.maxTtlSsh
    case _ => opts.maxTtl
  }

  /** compute_expiration */
  function Expiration(opts: Options, mode: CacheMode, held: bool, created: int, ttl: int, now: int): When {
    if mode == Pin then Never
    else if !held then Due(UNUSED_SLOT_SECONDS, Unused)
    else
      var max := MaxTtl(opts, mode);
      if max != 0 && created + max < now then Due(0, Creation)
      else
        var next := if max != 0 then created + max - now else 0;
        if ttl >= 0 && (next == 0 || ttl < next) then Due(ttl, LastAccess)
        else if next != 0 then Due(next, Creation)
        else Never
  }

  /** Exactly when an item that holds data is left without a timer. */
  lemma NeverExpires(opts: Options, mode: CacheMode, created: int, ttl: int, now: int)
    ensures Expiration(opts, mode, true, created, ttl, now) == Never
            <==> mode == Pin || (ttl < 0 && (MaxTtl(opts, mode) == 0 || created + MaxTtl(opts, mode) == now))
  {
  }

  /**
   The configured maximum lifetime is respected exactly unless the computation happens in the very
   second in which it runs out and the item does not ask for immediate expiration.
   */
  lemma MaximumRespected(opts: Options, mode: CacheMode, created: int, ttl: int, now: int)
    requires MaxTtl(opts, mode) > 0
    ensures var e := Expiration(opts, mode, true, created, ttl, now);
            var end := created + MaxTtl(opts, mode);
            e.Due? && now + e.sec <= (if end < now then now else end)
            <==> !(end == now && ttl != 0)
  {
  }

  /** Data held under a mode with a maximum but no own lifetime, looked at in that second: never. */
  lemma MaximumMissed(opts: Options, created: int)
    requires opts.maxTtl > 0
    ensures Expiration(opts, Normal, true, created, -1, created + opts.maxTtl) == Never
    ensures Expiration(opts, Normal, true, created, -1, created + opts.maxTtl + 1) == Due(0, Creation)
  {
  }

  /** The lifetime a put asks for: zero stands for the default of its mode. */
  function EffectiveTtl(opts: Options, mode: CacheMode, ttl: int): int {
    if ttl != 0 then ttl
    else
      match mode
      case Ssh => opts.defTtlSsh
      case Data => DEF_CACHE_TTL_DATA
      case Pin => -1
      case _ => opts.defTtl
  }

  /** A put is silently dropped if its mode is to be ignored or caching is switched off. */
  predicate Stores(opts: Options, mode: CacheMode, data: bool, ttl: int) {
    !((EffectiveTtl(opts, mode, ttl) == 0 && data) || mode == Ignore)
  }

  function WhenDue(opts: Options, slot: Slot, now: int): When {
    Expiration(opts, slot.mode, slot.pw.Some?, slot.created, slot.ttl, now)
  }

  /** The slot holds data that is supposed to expire. */
  predicate Expirable(opts: Options, slot: Slot) {
    slot.pw.Some? && slot.mode != Pin && (slot.ttl >= 0 || MaxTtl(opts, slot.mode) > 0)
  }

  // ----- The state -----

  /** The items of the cache in the order of the chain, their slots, and the timer lists. */
  datatype Snap<T> = Snap(items: seq<T>, slots: seq<Slot>, sched: Schedule<T>) {
    /**
     Both timer lists are free of duplicates and disjoint, every listed item is in the cache, which
     holds no item twice, and no PIN is listed.
     */
    ghost predicate Valid() {
      Sound() && forall i :: 0 <= i < |items| && slots[i].mode == Pin ==> !OnList(items[i])
    }

    ghost predicate Sound() {
      && |slots| == |items| && Distinct(items) && sched.Valid()
      && (forall x :: x in Items(sched.active) ==> x in items)
      && (forall x :: x in Items(sched.pending) ==> x in items)
    }

    /** The position of an item in the chain. */
    ghost function Index(x: T): (k: nat)
      ensures k <= |items| && (x in items ==> k < |items| && items[k] == x)
      ensures x !in items ==> k == |items|
    {
      |Before(items, x)|
    }

    ghost predicate OnList(x: T) {
      x in Items(sched.active) || x in Items(sched.pending)
    }

    /** The head of the active list still holds data. */
    ghost predicate HeadHeld() {
      && sched.active != []
      && Index(sched.active[0].item) < |slots| && slots[Index(sched.active[0].item)].pw.Some?
    }
  }

  ghost predicate Covered<T>(opts: Options, s: Snap<T>)
    requires |s.slots| == |s.items|
  {
    forall i :: 0 <= i < |s.items| && Expirable(opts, s.slots[i]) ==> s.OnList(s.items[i])
  }

  // ----- Scheduling -----

  /** update_expiration: what was behind `x` on the pending list is cut off. */
  ghost function Rescheduled<T>(s: Schedule<T>, x: T, when: When): Schedule<T> {
    Schedule(s.abstime, Removed(s.active, x), (if when.Due? then [Entry(x, when.sec)] else []) + Ahead(s.pending, x))
  }

  // ----- The operations -----

  datatype Op =
    | DoPut(q: Query, data: Option<bytes>, ttl: int, at: int, fill: bytes)
    | DoGet(q: Query, at: int)
    | DoFlush(pinOnly: bool, at: int)
    | DoExpire(now: Timespec, at: int)
  {
    ghost predicate WellFormed() {
      match this
      case DoPut(_, _, _, _, fill) => |fill| == 32
      case DoExpire(now, _) => now.Normal()
      case _ => true
    }
  }

  /** What a put stores. */
  function StoreOf(opts: Options, cipher: Cipher, q: Query, data: Option<bytes>, ttl: int, now: int, fill: bytes): Store
    requires |fill| == 32
  {
    Store(data.Some?, if data.Some? then NewData(cipher, data.value, fill) else None, EffectiveTtl(opts, q.mode, ttl), now)
  }

  /** A put makes a new item if no slot matches and there is data to store. */
  ghost predicate AddsItem<T>(s: Snap<T>, q: Query, st: Store) {
    FirstHit(s.slots, q, false) == |s.slots| && st.data && st.secret.Some?
  }

  /** The state after a put that makes the new item `x`. */
  ghost function PutNew<T>(opts: Options, s: Snap<T>, q: Query, st: Store, x: T): Snap<T> {
    var slot := Stored(q.key, q.restricted, q.mode, st);
    Snap([x] + s.items, [slot] + s.slots, Rescheduled(s.sched, x, WhenDue(opts, slot, st.now)))
  }

  /** The state after a put that makes no new item. */
  ghost function PutOld<T>(opts: Options, s: Snap<T>, q: Query, st: Store): Snap<T>
    requires |s.slots| == |s.items|
  {
    var k := FirstHit(s.slots, q, false);
    if k == |s.slots| then s
    else if st.data then
      var slot := Stored(s.slots[k].key, s.slots[k].restricted, q.mode, st);
      Snap(s.items, s.slots[k := slot], Rescheduled(s.sched, s.items[k], WhenDue(opts, slot, st.now)))
    else s.(slots := s.slots[k := s.slots[k].(pw := None)])
  }

  /** A get that hits restarts the timer, except for items in data mode. */
  ghost predicate Restarts<T>(s: Snap<T>, q: Query) {
    var k := FirstHit(s.slots, q, true);
    q.mode != Ignore && k < |s.slots| && s.slots[k].mode != Data
  }

  ghost function GetSnap<T>(opts: Options, s: Snap<T>, q: Query, now: int): Snap<T>
    requires |s.slots| == |s.items|
  {
    if Restarts(s, q) then
      var k := FirstHit(s.slots, q, true);
      s.(sched := Rescheduled(s.sched, s.items[k], WhenDue(opts, s.slots[k], now)))
    else s
  }

  predicate FlushHits(pinOnly: bool, slot: Slot) {
    (pinOnly ==> slot.mode == Pin) && slot.pw.Some?
  }

  /** The rest of a flush, from the item at `k` on. */
  ghost function FlushSnap<T>(opts: Options, s: Snap<T>, pinOnly: bool, now: int, k: nat): Snap<T>
    requires |s.slots| == |s.items|
    decreases |s.items| - k
  {
    if k >= |s.items| then s
    else FlushSnap(opts, if FlushHits(pinOnly, s.slots[k]) then FlushOne(opts, s, now, k) else s, pinOnly, now, k + 1)
  }

  ghost function FlushOne<T>(opts: Options, s: Snap<T>, now: int, k: nat): (r: Snap<T>)
    requires |s.slots| == |s.items| && k < |s.items|
    ensures |r.slots| == |r.items| && r.items == s.items
  {
    var slots := s.slots[k := s.slots[k].(pw := None)];
    Snap(s.items, slots, Rescheduled(s.sched, s.items[k], WhenDue(opts, slots[k], now)))
  }

  /** agent_cache_expiration: a popped item loses its data, or is removed if it held none. */
  ghost function ExpireSnap<T>(s: Snap<T>, now: Timespec): Snap<T>
    requires |s.slots| == |s.items|
  {
    var sched := Pass(s.sched, now, s.HeadHeld());
    if !s.sched.Pops(now) then s.(sched := sched)
    else
      var k := s.Index(s.sched.active[0].item);
      if k == |s.items| then s.(sched := sched)
      else if s.HeadHeld() then Snap(s.items, s.slots[k := s.slots[k].(pw := None)], sched)
      else Snap(s.items[..k] + s.items[k + 1..], s.slots[..k] + s.slots[k + 1..], sched)
  }

  /** One operation leads from `s` to `s'`; only a new item is not determined by `s` and the operation. */
  ghost predicate StepTo<T>(opts: Options, cipher: Cipher, s: Snap<T>, op: Op, s': Snap<T>)
    requires |s.slots| == |s.items| && op.WellFormed()
  {
    match op
    case DoPut(q, data, ttl, at, fill) =>
      var st := StoreOf(opts, cipher, q, data, ttl, at, fill);
      if !Stores(opts, q.mode, data.Some?, ttl) then s' == s
      else if AddsItem(s, q, st) then
        s'.items != [] && s'.items[0] !in s.items && s' == PutNew(opts, s, q, st, s'.items[0])
      else s' == PutOld(opts, s, q, st)
    case DoGet(q, at) => s' == GetSnap(opts, s, q, at)
    case DoFlush(pinOnly, at) => s' == FlushSnap(opts, s, pinOnly, at, 0)
    case DoExpire(now, _) => s' == ExpireSnap(s, now)
  }

  // ----- What an update does to the lists -----

  /** The items behind `x` on a list. */
  ghost function Behind<T>(s: seq<T>, x: T): seq<T> {
    if x in s then s[|Before(s, x)| + 1..] else []
  }

  lemma SplitDistinct<T>(s: seq<T>, k: nat)
    requires Distinct(s) && k < |s|
    ensures forall y :: y in s[k + 1..] ==> y != s[k] && y !in s[..k]
  {
    forall y | y in s[k + 1..]
      ensures y != s[k] && y !in s[..k]
    {
      var i :| 0 <= i < |s[k + 1..]| && s[k + 1..][i] == y;
      assert y == s[k + 1 + i];
    }
  }

  lemma BeforeContents<T>(s: seq<T>, x: T)
    requires Distinct(s)
    ensures forall y :: y in Before(s, x) <==> y in s && y != x && y !in Behind(s, x)
    ensures forall y :: y in Behind(s, x) ==> y in s && y != x
  {
    hide Distinct, Before;
    var b := Before(s, x);
    if x in s {
      var k, t := |b|, s[|b| + 1..];
      assert Behind(s, x) == t && s[..k] == b && s[k] == x;
      assert s == b + [x] + t;
      SplitDistinct(s, k);
      assert forall y :: y in s <==> y in b || y == x || y in t;
    } else {
      assert Behind(s, x) == [];
    }
  }

  lemma ItemsOfRemoveAt<T>(es: seq<Entry<T>>, k: nat)
    requires k < |es|
    ensures Items(RemoveAt(es, k)) == Items(es)[..k] + Items(es)[k + 1..]
  {
    var r := RemoveAt(es, k);
    assert |r| == |es| - 1;
    forall i | 0 <= i < |r|
      ensures r[i].item == es[if i < k then i else i + 1].item
    {
    }
    hide RemoveAt;
  }

  lemma ItemsOfRemoved<T>(es: seq<Entry<T>>, x: T)
    ensures Items(Removed(es, x)) == Without(Items(es), x)
  {
    hide Before, Without, RemoveAt, Items;
    if x in Items(es) {
      ItemsOfRemoveAt(es, |Before(Items(es), x)|);
    }
  }

  lemma ItemsOfAhead<T>(es: seq<Entry<T>>, x: T)
    ensures Items(Ahead(es, x)) == Before(Items(es), x)
  {
    hide Before;
    assert Before(Items(es), x) == Items(es)[..|Before(Items(es), x)|];
  }

  /** After an update the other items are listed as before, but for those that were cut off. */
  lemma RescheduledLists<T>(s: Schedule<T>, x: T, when: When)
    requires Distinct(Items(s.active)) && Distinct(Items(s.pending))
    ensures var r := Rescheduled(s, x, when);
            && (forall y :: y != x ==> (y in Items(r.active) <==> y in Items(s.active)))
            && (forall y :: y != x ==>
                  (y in Items(r.pending) <==> y in Items(s.pending) && y !in Behind(Items(s.pending), x)))
            && x !in Items(r.active) && (x in Items(r.pending) <==> when.Due?)
  {
    hide Distinct, Before, Without, Behind, Removed, Ahead, Items;
    var r := Rescheduled(s, x, when);
    WithoutContents(Items(s.active), x);
    BeforeContents(Items(s.pending), x);
    ItemsOfRemoved(s.active, x);
    ItemsOfAhead(s.pending, x);
    var ahead := Ahead(s.pending, x);
    if when.Due? {
      ItemsOfCons(Entry(x, when.sec), ahead);
    } else {
      assert [] + ahead == ahead;
    }
  }

  // ----- Which steps keep everything covered -----

  /** Updating `x` cuts no expirable item off the pending list. */
  ghost predicate CutsNothing<T>(opts: Options, s: Snap<T>, x: T)
    requires |s.slots| == |s.items|
  {
    forall i :: 0 <= i < |s.items| && Expirable(opts, s.slots[i]) ==> s.items[i] !in Behind(Items(s.sched.pending), x)
  }

  /** The slot is looked at in the second in which its maximum lifetime ends, and has no own lifetime. */
  predicate LosesItself(opts: Options, slot: Slot, now: int) {
    Expirable(opts, slot) && slot.ttl < 0 && slot.created + MaxTtl(opts, slot.mode) == now
  }

  /**
   Exactly when an update keeps everything covered: no expirable item may sit behind the updated
   one on the pending list, and the updated item must get a timer if it can expire.
   */
  lemma CoverageAfterUpdate<T>(opts: Options, s: Snap<T>, k: nat, slot: Slot, now: int)
    requires s.Valid() && k < |s.items|
    requires forall i :: 0 <= i < |s.items| && i != k && Expirable(opts, s.slots[i]) ==> s.OnList(s.items[i])
    ensures var s' := Snap(s.items, s.slots[k := slot], Rescheduled(s.sched, s.items[k], WhenDue(opts, slot, now)));
            Covered(opts, s') <==>
            && CutsNothing(opts, s, s.items[k])
            && (Expirable(opts, slot) ==> WhenDue(opts, slot, now).Due?)
  {
    var x, when := s.items[k], WhenDue(opts, slot, now);
    var s' := Snap(s.items, s.slots[k := slot], Rescheduled(s.sched, x, when));
    assert forall i :: 0 <= i < |s.items| && i != k ==> s.items[i] != x;
    hide WhenDue, Expirable, Behind, Items, Rescheduled;
    RescheduledLists(s.sched, x, when);
    BeforeContents(Items(s.sched.pending), x);
    assert x !in Behind(Items(s.sched.pending), x);
    assert s'.OnList(x) <==> when.Due?;
    OnOneList(s);
  }

  /** An item cut off the pending list is not on the active one. */
  lemma OnOneList<T>(s: Snap<T>)
    requires s.sched.Valid()
    ensures forall y :: y in Items(s.sched.pending) ==> y !in Items(s.sched.active)
  {
    forall y | y in Items(s.sched.pending)
      ensures y !in Items(s.sched.active)
    {
      var i :| 0 <= i < |s.sched.pending| && s.sched.pending[i].item == y;
    }
  }

  /** The steps that cut off no expirable item and do not leave the item they look at without a timer. */
  ghost predicate SafeStep<T>(opts: Options, s: Snap<T>, op: Op)
    requires |s.slots| == |s.items|
  {
    match op
    case DoPut(q, data, ttl, _, _) =>
      var k := FirstHit(s.slots, q, false);
      Stores(opts, q.mode, data.Some?, ttl) && data.Some? && k < |s.items| ==> CutsNothing(opts, s, s.items[k])
    case DoGet(q, at) =>
      var k := FirstHit(s.slots, q, true);
      Restarts(s, q) ==> CutsNothing(opts, s, s.items[k]) && !LosesItself(opts, s.slots[k], at)
    case _ => true
  }

  lemma FreshIsDue(opts: Options, slot: Slot, now: int)
    ensures slot.created == now && Expirable(opts, slot) ==> WhenDue(opts, slot, now).Due?
    ensures (Expirable(opts, slot) ==> WhenDue(opts, slot, now).Due?) <==> !LosesItself(opts, slot, now)
  {
  }

  lemma PutOldCovers<T>(opts: Options, s: Snap<T>, q: Query, st: Store)
    requires s.Valid() && Covered(opts, s)
    ensures var k := FirstHit(s.slots, q, false);
            |PutOld(opts, s, q, st).slots| == |PutOld(opts, s, q, st).items|
            && (Covered(opts, PutOld(opts, s, q, st)) <==> (st.data && k < |s.items| ==> CutsNothing(opts, s, s.items[k])))
  {
    hide Expirable, WhenDue, FirstHit, CutsNothing, Rescheduled;
    var k := FirstHit(s.slots, q, false);
    if k < |s.slots| {
      if st.data {
        var slot := Stored(s.slots[k].key, s.slots[k].restricted, q.mode, st);
        CoverageAfterUpdate(opts, s, k, slot, st.now);
        FreshIsDue(opts, slot, st.now);
      } else {
        ClearedCovers(opts, s, s.slots[k := s.slots[k].(pw := None)]);
      }
    }
  }

  /** Taking data away uncovers nothing. */
  lemma ClearedCovers<T>(opts: Options, s: Snap<T>, slots: seq<Slot>)
    requires |s.slots| == |s.items| == |slots| && Covered(opts, s)
    requires forall i :: 0 <= i < |slots| ==> slots[i] == s.slots[i] || slots[i].pw == None
    ensures Covered(opts, s.(slots := slots))
  {
    assert forall x :: s.(slots := slots).OnList(x) == s.OnList(x);
  }

  lemma PutNewCovers<T>(opts: Options, s: Snap<T>, q: Query, st: Store, x: T)
    requires s.Valid() && Covered(opts, s) && x !in s.items
    ensures var s' := PutNew(opts, s, q, st, x);
            |s'.slots| == |s'.items| && Covered(opts, s')
  {
    var slot := Stored(q.key, q.restricted, q.mode, st);
    var s' := PutNew(opts, s, q, st, x);
    NotListed(s, x);
    hide Expirable, WhenDue, Behind, Items, Rescheduled, Stored;
    RescheduledLists(s.sched, x, WhenDue(opts, slot, st.now));
    FreshIsDue(opts, slot, st.now) by { assert slot.created == st.now by { StoredIs(q, st); } }
    assert forall i :: 0 < i < |s'.items| ==> s'.items[i] == s.items[i - 1] && s'.slots[i] == s.slots[i - 1];
    assert slot.created == st.now by { StoredIs(q, st); }
    forall i | 0 <= i < |s'.items| && Expirable(opts, s'.slots[i])
      ensures s'.OnList(s'.items[i])
    {
      if i > 0 {
        assert s.OnList(s.items[i - 1]);
      }
    }
  }

  lemma StoredIs(q: Query, st: Store)
    ensures Stored(q.key, q.restricted, q.mode, st).created == st.now
  {
  }

  /** An item that is not in the cache is on no list. */
  lemma NotListed<T>(s: Snap<T>, x: T)
    requires s.Valid() && x !in s.items
    ensures x !in Items(s.sched.active) && x !in Items(s.sched.pending) && Behind(Items(s.sched.pending), x) == []
  {
  }

  lemma GetCovers<T>(opts: Options, s: Snap<T>, q: Query, now: int)
    requires s.Valid() && Covered(opts, s)
    ensures |GetSnap(opts, s, q, now).slots| == |GetSnap(opts, s, q, now).items|
    ensures Covered(opts, GetSnap(opts, s, q, now)) <==> SafeStep(opts, s, DoGet(q, now))
  {
    hide Expirable, WhenDue, FirstHit, CutsNothing, Rescheduled, LosesItself;
    if Restarts(s, q) {
      var k := FirstHit(s.slots, q, true);
      CoverageAfterUpdate(opts, s, k, s.slots[k], now);
      FreshIsDue(opts, s.slots[k], now);
      assert s.slots[k := s.slots[k]] == s.slots;
    }
  }

  /** Updating a PIN changes no list. */
  lemma PinIsNotScheduled<T>(opts: Options, s: Snap<T>, slot: Slot, now: int, k: nat)
    requires s.Valid() && k < |s.items| && s.slots[k].mode == Pin && slot.mode == Pin
    ensures Rescheduled(s.sched, s.items[k], WhenDue(opts, slot, now)) == s.sched
  {
    assert !s.OnList(s.items[k]);
    hide Items, Snap.Valid;
    assert [] + s.sched.pending == s.sched.pending;
  }

  lemma {:induction false} FlushPinsCovers<T>(opts: Options, s: Snap<T>, now: int, k: nat)
    requires s.Valid() && Covered(opts, s)
    ensures var s' := FlushSnap(opts, s, true, now, k);
            s'.Valid() && Covered(opts, s') && s'.sched == s.sched && s'.items == s.items
    decreases |s.items| - k
  {
    if k < |s.items| {
      if FlushHits(true, s.slots[k]) {
        var slots := s.slots[k := s.slots[k].(pw := None)];
        PinIsNotScheduled(opts, s, slots[k], now, k);
        ClearedCovers(opts, s, slots);
        ClearedIsValid(s, slots);
        hide Covered, Snap.Valid, WhenDue, Rescheduled;
        assert FlushOne(opts, s, now, k) == s.(slots := slots);
        FlushPinsCovers(opts, s.(slots := slots), now, k + 1);
      } else {
        hide Covered, Snap.Valid;
        FlushPinsCovers(opts, s, now, k + 1);
      }
    }
  }

  lemma ClearedIsValid<T>(s: Snap<T>, slots: seq<Slot>)
    requires s.Valid() && |slots| == |s.slots| && forall i :: 0 <= i < |slots| ==> slots[i].mode == s.slots[i].mode
    ensures s.(slots := slots).Valid()
  {
    var s' := s.(slots := slots);
    assert forall i :: 0 <= i < |s.items| ==> s'.OnList(s.items[i]) == s.OnList(s.items[i]);
    hide Items, Distinct, Schedule.Valid;
  }

  lemma {:induction false} FlushAllClears<T>(opts: Options, s: Snap<T>, now: int, k: nat)
    requires |s.slots| == |s.items| && forall i :: 0 <= i < k && i < |s.slots| ==> s.slots[i].pw == None
    ensures var s' := FlushSnap(opts, s, false, now, k);
            s'.items == s.items && |s'.slots| == |s.slots| && forall i :: 0 <= i < |s'.slots| ==> s'.slots[i].pw == None
    decreases |s.items| - k
  {
    hide Rescheduled, WhenDue;
    if k < |s.items| {
      FlushAllClears(opts, if FlushHits(false, s.slots[k]) then FlushOne(opts, s, now, k) else s, now, k + 1);
    }
  }

  lemma FlushCovers<T>(opts: Options, s: Snap<T>, pinOnly: bool, now: int)
    requires s.Valid() && Covered(opts, s)
    ensures var s' := FlushSnap(opts, s, pinOnly, now, 0);
            |s'.slots| == |s'.items| && Covered(opts, s')
  {
    hide FlushSnap, Snap.Valid;
    ValidLengths(s);
    if pinOnly {
      FlushPinsCovers(opts, s, now, 0);
      ValidLengths(FlushSnap(opts, s, true, now, 0));
    } else {
      FlushAllClears(opts, s, now, 0);
    }
  }

  lemma ValidLengths<T>(s: Snap<T>)
    requires s.Valid()
    ensures |s.slots| == |s.items|
  {
  }

  /** After a pass the lists hold what they held, but for a popped item without data. */
  lemma PassLists<T>(s: Schedule<T>, now: Timespec, held: bool)
    requires s.Valid() && now.Normal()
    ensures var s' := Pass(s, now, held);
            && s'.pending == []
            && forall x :: x in Items(s'.active) <==> x in Items(s.Remaining(now)) || x in Items(s.Requests(now, held))
  {
    var _ := PassSpec(s, now, held);
    var s' := Pass(s, now, held);
    hide *;
    forall x
      ensures x in Items(s'.active) <==> x in Items(s.Remaining(now)) || x in Items(s.Requests(now, held))
    {
      assert x in Items(s'.active) <==> x in multiset(Items(s'.active));
      assert x in Items(s.Remaining(now)) <==> x in multiset(Items(s.Remaining(now)));
      assert x in Items(s.Requests(now, held)) <==> x in multiset(Items(s.Requests(now, held)));
    }
  }

  lemma PassKeepsListed<T>(s: Schedule<T>, now: Timespec, held: bool, x: T)
    requires s.Valid() && now.Normal() && (x in Items(s.active) || x in Items(s.pending))
    ensures (s.Pops(now) && s.active[0].item == x && !held) || x in Items(Pass(s, now, held).active)
  {
    PassLists(s, now, held);
    hide Pass;
    if s.Pops(now) {
      assert s.active == [s.active[0]] + s.active[1..];
      ItemsOfCons(s.active[0], s.active[1..]);
      if held {
        ItemsOfCons(Entry(s.active[0].item, UNUSED_SLOT_SECONDS), s.pending);
      }
    }
  }

  lemma ExpireCovers<T>(opts: Options, s: Snap<T>, now: Timespec)
    requires s.Valid() && Covered(opts, s) && now.Normal()
    ensures var s' := ExpireSnap(s, now);
            |s'.slots| == |s'.items| && Covered(opts, s')
  {
    var s' := ExpireSnap(s, now);
    var held := s.HeadHeld();
    assert s.sched.Valid() && |s.slots| == |s.items|;
    ExpireSlots(s, now);
    hide Pass, Expirable, Items, Snap.Sound, Snap.HeadHeld, ExpireSnap, Schedule.Valid;
    forall j | 0 <= j < |s'.items| && Expirable(opts, s'.slots[j])
      ensures s'.OnList(s'.items[j])
    {
      ExpirableHolds(opts, s'.slots[j]);
      if s.sched.active == [] {
        PassKeepsListed(s.sched, now, held, s.items[j]);
      } else {
        assert Stems(s, s', j, s.sched.Pops(now) && !held, HeadOf(s));
        var i :| 0 <= i < |s.items| && s.items[i] == s'.items[j] && (s.slots[i] == s'.slots[j] || s'.slots[j] == s.slots[i].(pw := None))
                 && !((s.sched.Pops(now) && !held) && s.items[i] == HeadOf(s));
        PassKeepsListed(s.sched, now, held, s.items[i]);
      }
    }
  }

  lemma ExpirableHolds(opts: Options, slot: Slot)
    ensures Expirable(opts, slot) ==> slot.pw.Some?
  {
  }

  /** The item at `j` stems from one that was there before, with its slot or with that slot cleared. */
  ghost predicate Stems<T>(s: Snap<T>, s': Snap<T>, j: nat, gone: bool, x: T)
    requires |s.slots| == |s.items| && |s'.slots| == |s'.items| && j < |s'.items|
  {
    exists i :: 0 <= i < |s.items| && s.items[i] == s'.items[j]
                && (s.slots[i] == s'.slots[j] || s'.slots[j] == s.slots[i].(pw := None))
                && !(gone && s.items[i] == x)
  }

  lemma ClearedStems<T>(s: Snap<T>, s': Snap<T>, k: nat, x: T, j: nat)
    requires |s.slots| == |s.items| && k < |s.items| && j < |s.items|
    requires s'.items == s.items && s'.slots == s.slots[k := s.slots[k].(pw := None)]
    ensures Stems(s, s', j, false, x)
  {
    assert s.items[j] == s'.items[j];
  }

  lemma DroppedStems<T>(s: Snap<T>, s': Snap<T>, k: nat, j: nat)
    requires |s.slots| == |s.items| && k < |s.items| && Distinct(s.items) && |s'.slots| == |s'.items| && j < |s'.items|
    requires s'.items == s.items[..k] + s.items[k + 1..] && s'.slots == s.slots[..k] + s.slots[k + 1..]
    ensures Stems(s, s', j, true, s.items[k])
  {
    var i := if j < k then j else j + 1;
    assert s.items[i] == s'.items[j] && s.slots[i] == s'.slots[j] && i != k;
  }

  lemma SameStems<T>(s: Snap<T>, s': Snap<T>, x: T, j: nat)
    requires |s.slots| == |s.items| && s'.items == s.items && s'.slots == s.slots && j < |s.items|
    ensures Stems(s, s', j, false, x)
  {
    assert s.items[j] == s'.items[j];
  }

  ghost function HeadOf<T>(s: Snap<T>): T
    requires s.sched.active != []
  {
    s.sched.active[0].item
  }

  /** Every item left after a pass was there before, and a popped item without data is gone. */
  lemma ExpireSlots<T>(s: Snap<T>, now: Timespec)
    requires s.Valid()
    ensures var s' := ExpireSnap(s, now);
            && |s'.slots| == |s'.items| && s'.sched == Pass(s.sched, now, s.HeadHeld())
            && (s.sched.active == [] ==> s'.items == s.items && s'.slots == s.slots)
            && (s.sched.active != [] ==>
                  var gone := s.sched.Pops(now) && !s.HeadHeld();
                  forall j :: 0 <= j < |s'.items| ==> Stems(s, s', j, gone, HeadOf(s)))
  {
    ExpireCases(s, now);
    hide ExpireSnap, Pass, Stems, Snap.HeadHeld, Schedule.Pops;
    var s' := ExpireSnap(s, now);
    if s.sched.active != [] {
      var x := HeadOf(s);
      var k, gone := s.Index(x), s.sched.Pops(now) && !s.HeadHeld();
      forall j | 0 <= j < |s'.items|
        ensures Stems(s, s', j, gone, x)
      {
        if !s.sched.Pops(now) {
          SameStems(s, s', x, j);
        } else if s.HeadHeld() {
          ClearedStems(s, s', k, x, j);
        } else {
          DroppedStems(s, s', k, j);
        }
      }
    }
  }

  /** The three outcomes of a pass for the items. */
  lemma ExpireCases<T>(s: Snap<T>, now: Timespec)
    requires s.Valid()
    ensures |s.slots| == |s.items| && Distinct(s.items)
    ensures ExpireSnap(s, now).sched == Pass(s.sched, now, s.HeadHeld())
    ensures !s.sched.Pops(now) ==> ExpireSnap(s, now).items == s.items && ExpireSnap(s, now).slots == s.slots
    ensures s.sched.Pops(now) ==>
              && s.sched.active != [] && HeadOf(s) in s.items
              && var k := s.Index(HeadOf(s));
                 if s.HeadHeld() then
                   ExpireSnap(s, now).items == s.items && ExpireSnap(s, now).slots == s.slots[k := s.slots[k].(pw := None)]
                 else
                   && ExpireSnap(s, now).items == s.items[..k] + s.items[k + 1..]
                   && ExpireSnap(s, now).slots == s.slots[..k] + s.slots[k + 1..]
  {
    hide Pass, Before, Distinct, Schedule.Valid;
    if s.sched.active != [] {
      assert Items(s.sched.active)[0] == HeadOf(s);
    }
  }

  /** A step from a covered state leads to a covered state if and only if it is safe. */
  lemma StepCovers<T>(opts: Options, cipher: Cipher, s: Snap<T>, op: Op, s': Snap<T>)
    requires s.Valid() && op.WellFormed() && StepTo(opts, cipher, s, op, s') && Covered(opts, s)
    ensures |s'.slots| == |s'.items|
    ensures Covered(opts, s') <==> SafeStep(opts, s, op)
  {
    hide Covered, CutsNothing, FirstHit, PutOld, PutNew, GetSnap, FlushSnap, ExpireSnap, Stores, StoreOf, Restarts, LosesItself;
    match op
    case DoPut(q, data, ttl, at, fill) =>
      var st := StoreOf(opts, cipher, q, data, ttl, at, fill);
      StoreOfData(opts, cipher, q, data, ttl, at, fill);
      if Stores(opts, q.mode, data.Some?, ttl) {
        if AddsItem(s, q, st) {
          PutNewCovers(opts, s, q, st, s'.items[0]);
        } else {
          PutOldCovers(opts, s, q, st);
        }
      }
    case DoGet(q, at) => GetCovers(opts, s, q, at);
    case DoFlush(pinOnly, at) => FlushCovers(opts, s, pinOnly, at);
    case DoExpire(now, _) => ExpireCovers(opts, s, now);
  }

  lemma StoreOfData(opts: Options, cipher: Cipher, q: Query, data: Option<bytes>, ttl: int, now: int, fill: bytes)
    requires |fill| == 32
    ensures StoreOf(opts, cipher, q, data, ttl, now, fill).data == data.Some?
  {
  }

  // ----- No PIN gets a timer -----

  lemma PinIsNeverDue(opts: Options, slot: Slot, now: int)
    ensures WhenDue(opts, slot, now).Due? ==> slot.mode != Pin
  {
  }

  /** An update of the item at `k`, whose slot may have changed, lists no PIN. */
  lemma UpdateListsNoPin<T>(opts: Options, s: Snap<T>, k: nat, slot: Slot, now: int)
    requires s.Valid() && k < |s.items|
    ensures var s' := Snap(s.items, s.slots[k := slot], Rescheduled(s.sched, s.items[k], WhenDue(opts, slot, now)));
            s'.Sound() ==> s'.Valid()
  {
    var x, when := s.items[k], WhenDue(opts, slot, now);
    assert forall i :: 0 <= i < |s.items| && i != k ==> s.items[i] != x;
    assert forall i :: 0 <= i < |s.items| && s.slots[i].mode == Pin ==> !s.OnList(s.items[i]);
    PinIsNeverDue(opts, slot, now);
    hide WhenDue, Rescheduled, Items, Behind, Snap.Sound;
    RescheduledLists(s.sched, x, when) by { assert s.sched.Valid() by { SoundFacts(s); } }
  }

  lemma SoundFacts<T>(s: Snap<T>)
    requires s.Valid()
    ensures s.sched.Valid() && |s.slots| == |s.items|
  {
  }

  lemma PutNewListsNoPin<T>(opts: Options, s: Snap<T>, q: Query, st: Store, x: T)
    requires s.Valid() && x !in s.items && PutNew(opts, s, q, st, x).Sound()
    ensures PutNew(opts, s, q, st, x).Valid()
  {
    var slot := Stored(q.key, q.restricted, q.mode, st);
    var s' := PutNew(opts, s, q, st, x);
    PinIsNeverDue(opts, slot, st.now);
    assert forall i :: 0 <= i < |s.items| && s.slots[i].mode == Pin ==> !s.OnList(s.items[i]);
    assert forall i :: 0 < i < |s'.items| ==> s'.items[i] == s.items[i - 1] && s'.slots[i] == s.slots[i - 1];
    assert forall i :: 0 <= i < |s.items| ==> s.items[i] in s.items;
    SoundFacts(s);
    hide WhenDue, Rescheduled, Items, Behind, Snap.Sound;
    RescheduledLists(s.sched, x, WhenDue(opts, slot, st.now));
  }

  lemma PutOldListsNoPin<T>(opts: Options, s: Snap<T>, q: Query, st: Store)
    requires s.Valid() && PutOld(opts, s, q, st).Sound()
    ensures PutOld(opts, s, q, st).Valid()
  {
    hide WhenDue, Rescheduled, FirstHit, Items;
    var k := FirstHit(s.slots, q, false);
    if k < |s.slots| {
      if st.data {
        UpdateListsNoPin(opts, s, k, Stored(s.slots[k].key, s.slots[k].restricted, q.mode, st), st.now);
      } else {
        ClearedIsValid(s, s.slots[k := s.slots[k].(pw := None)]);
      }
    }
  }

  lemma GetListsNoPin<T>(opts: Options, s: Snap<T>, q: Query, now: int)
    requires s.Valid() && GetSnap(opts, s, q, now).Sound()
    ensures GetSnap(opts, s, q, now).Valid()
  {
    hide WhenDue, Rescheduled, FirstHit, Items;
    if Restarts(s, q) {
      var k := FirstHit(s.slots, q, true);
      UpdateListsNoPin(opts, s, k, s.slots[k], now);
      assert s.slots[k := s.slots[k]] == s.slots;
    }
  }

  /** Every item listed after a pass was listed before. */
  lemma PassListsOld<T>(s: Schedule<T>, now: Timespec, held: bool, x: T)
    requires s.Valid() && now.Normal()
    ensures x in Items(Pass(s, now, held).active) ==> x in Items(s.active) || x in Items(s.pending)
    ensures Pass(s, now, held).pending == []
  {
    PassLists(s, now, held);
    hide Pass, Items, Schedule.Valid;
    if s.Pops(now) {
      var head, rest := s.active[0], s.active[1..];
      assert s.active == [head] + rest;
      ItemsOfCons(head, rest);
      ItemsOfCons(Entry(head.item, UNUSED_SLOT_SECONDS), s.pending);
      assert x in Items(rest) ==> x in Items(s.active);
      assert x in [head.item] + Items(s.pending) ==> x == head.item || x in Items(s.pending);
      assert head.item in [head.item] + Items(rest);
    }
  }

  lemma ExpireListsNoPin<T>(s: Snap<T>, now: Timespec)
    requires s.Valid() && now.Normal() && ExpireSnap(s, now).Sound()
    ensures ExpireSnap(s, now).Valid()
  {
    var s' := ExpireSnap(s, now);
    assert s.sched.Valid() && |s.slots| == |s.items|;
    assert forall i :: 0 <= i < |s.items| && s.slots[i].mode == Pin ==> !s.OnList(s.items[i]);
    ExpireSlots(s, now);
    hide Pass, Items, Snap.Sound, ExpireSnap, Schedule.Valid, Snap.HeadHeld;
    forall j | 0 <= j < |s'.items| && s'.slots[j].mode == Pin
      ensures !s'.OnList(s'.items[j])
    {
      PassListsOld(s.sched, now, s.HeadHeld(), s'.items[j]);
      NothingListed<T>();
      if s.sched.active != [] {
        assert Stems(s, s', j, s.sched.Pops(now) && !s.HeadHeld(), HeadOf(s));
        var i :| 0 <= i < |s.items| && s.items[i] == s'.items[j] && s.slots[i].mode == s'.slots[j].mode;
      }
    }
  }

  lemma NothingListed<T>()
    ensures Items<T>([]) == []
  {
  }

  /** A flush clears one item after the other and updates its timer. */
  lemma FlushOneListsNoPin<T>(opts: Options, s: Snap<T>, now: int, k: nat)
    requires s.Valid() && k < |s.items| && FlushOne(opts, s, now, k).Sound()
    ensures FlushOne(opts, s, now, k).Valid()
  {
    hide WhenDue, Rescheduled, Items;
    UpdateListsNoPin(opts, s, k, s.slots[k].(pw := None), now);
  }

  // ----- Runs -----

  /** The states of a run, each with the step that leads to the next. */
  ghost predicate IsRun<T>(opts: Options, cipher: Cipher, trace: seq<Snap<T>>, ops: seq<Op>) {
    && |trace| == |ops| + 1
    && (forall i :: 0 <= i < |trace| ==> trace[i].Valid())
    && (forall i :: 0 <= i < |ops| ==> ops[i].WellFormed() && StepTo(opts, cipher, trace[i], ops[i], trace[i + 1]))
  }

  ghost predicate CoveredAt<T>(opts: Options, trace: seq<Snap<T>>, i: nat) {
    i < |trace| && |trace[i].slots| == |trace[i].items| && Covered(opts, trace[i])
  }

  ghost predicate SafeAt<T>(opts: Options, trace: seq<Snap<T>>, ops: seq<Op>, i: nat) {
    i < |ops| && i < |trace| && |trace[i].slots| == |trace[i].items| && SafeStep(opts, trace[i], ops[i])
  }

  lemma {:induction false} SafeUpTo<T>(opts: Options, cipher: Cipher, trace: seq<Snap<T>>, ops: seq<Op>, n: nat)
    requires IsRun(opts, cipher, trace, ops) && n <= |ops| && CoveredAt(opts, trace, 0)
    requires forall i: nat :: i < n ==> SafeAt(opts, trace, ops, i)
    ensures CoveredAt(opts, trace, n)
    decreases n
  {
    if n > 0 {
      SafeUpTo(opts, cipher, trace, ops, n - 1);
      assert SafeAt(opts, trace, ops, n - 1);
      hide Covered, SafeStep;
      StepCovers(opts, cipher, trace[n - 1], ops[n - 1], trace[n]);
    }
  }

  /**
   Everything that is supposed to expire has a timer throughout a run if and only if it has one at
   the start and every step is safe.
   */
  lemma CoveredThroughoutIff<T>(opts: Options, cipher: Cipher, trace: seq<Snap<T>>, ops: seq<Op>)
    requires IsRun(opts, cipher, trace, ops)
    ensures (forall i: nat :: i <= |ops| ==> CoveredAt(opts, trace, i)) <==>
            CoveredAt(opts, trace, 0) && forall i: nat :: i < |ops| ==> SafeAt(opts, trace, ops, i)
  {
    if forall i: nat :: i <= |ops| ==> CoveredAt(opts, trace, i) {
      forall i: nat | i < |ops|
        ensures SafeAt(opts, trace, ops, i)
      {
        assert CoveredAt(opts, trace, i) && CoveredAt(opts, trace, i + 1);
        hide Covered, SafeStep;
        StepCovers(opts, cipher, trace[i], ops[i], trace[i + 1]);
      }
    }
    if CoveredAt(opts, trace, 0) && forall i: nat :: i < |ops| ==> SafeAt(opts, trace, ops, i) {
      forall i: nat | i <= |ops|
        ensures CoveredAt(opts, trace, i)
      {
        SafeUpTo(opts, cipher, trace, ops, i);
      }
    }
  }

  // ----- Deadlines -----

  /** Updating an item moves the deadline of no other active item. */
  lemma UpdateDeadlines<T>(s: Schedule<T>, x: T, when: When)
    requires s.Valid()
    ensures Rescheduled(s, x, when).Deadlines() == s.Deadlines() - {x}
  {
    hide DeadlinesFrom, RemoveAt, Before;
    DeadlineKeys(s.abstime.Ns(), s.active);
    if x in Items(s.active) {
      var k := |Before(Items(s.active), x)|;
      assert s.active[k].item == Items(s.active)[k] == x;
      RemoveDeadlines(s.abstime.Ns(), s.active, k);
    } else {
      assert s.Deadlines() - {x} == s.Deadlines();
    }
  }

  /**
   An expiration pass of the cache: the pending list is drained, what was active and not popped stays
   active with its deadline moved by the lateness of the pass and at most half a second, and every
   pending item, like a popped one that held data, is due within a second of what it asked for.
   */
  lemma ExpireDeadlines<T>(s: Snap<T>, now: Timespec) returns (shift: int)
    requires s.Valid() && now.Normal()
    ensures -HALF <= shift <= HALF && ExpireSnap(s, now).sched.pending == []
    ensures var late := if s.sched.Expired(now) then now.Ns() - s.sched.abstime.Ns() else 0;
            forall i :: 0 <= i < |s.sched.Remaining(now)| ==>
              var x := s.sched.Remaining(now)[i].item;
              && x in s.sched.Deadlines() && x in ExpireSnap(s, now).sched.Deadlines()
              && ExpireSnap(s, now).sched.Deadlines()[x] == s.sched.Deadlines()[x] + late + shift
    ensures forall i :: 0 <= i < |s.sched.Requests(now, s.HeadHeld())| ==>
              var e := s.sched.Requests(now, s.HeadHeld())[i];
              && e.item in ExpireSnap(s, now).sched.Deadlines()
              && e.delta * NANOS <= ExpireSnap(s, now).sched.Deadlines()[e.item] - now.Ns() <= (e.delta + 1) * NANOS
  {
    ExpireCases(s, now);
    SoundFacts(s);
    shift := PassSpec(s.sched, now, s.HeadHeld());
    hide *;
  }

  // ----- A guard on the operations alone -----

  /** No expirable item is on the pending list. */
  ghost predicate QuietPending<T>(opts: Options, s: Snap<T>)
    requires |s.slots| == |s.items|
  {
    forall i :: 0 <= i < |s.items| && Expirable(opts, s.slots[i]) ==> s.items[i] !in Items(s.sched.pending)
  }

  /** Whether the pending list is quiet after an operation. */
  predicate QuietAfter(op: Op, quiet: bool) {
    match op
    case DoExpire(_, _) => true
    case DoFlush(pinOnly, _) => quiet || !pinOnly
    case _ => false
  }

  /** Between any two puts or gets there is an expiration pass or a complete flush. */
  predicate Spaced(ops: seq<Op>, quiet: bool) {
    ops == [] || ((ops[0].DoPut? || ops[0].DoGet? ==> quiet) && Spaced(ops[1..], QuietAfter(ops[0], quiet)))
  }

  /** No get happens in the second in which the maximum of something born at one of these times ends. */
  predicate NoGetAtEnd(opts: Options, ops: seq<Op>, births: set<int>) {
    ops == [] ||
    (match ops[0]
     case DoGet(_, at) =>
       (forall b :: b in births ==> at != b + opts.maxTtl && at != b + opts.maxTtlSsh) && NoGetAtEnd(opts, ops[1..], births)
     case DoPut(_, _, _, at, _) => NoGetAtEnd(opts, ops[1..], births + {at})
     case _ => NoGetAtEnd(opts, ops[1..], births))
  }

  ghost predicate BornAt<T>(s: Snap<T>, births: set<int>) {
    forall i :: 0 <= i < |s.slots| ==> s.slots[i].created in births
  }

  function BirthsAfter(op: Op, births: set<int>): set<int> {
    if op.DoPut? then births + {op.at} else births
  }

  lemma QuietIsSafe<T>(opts: Options, s: Snap<T>, op: Op, births: set<int>)
    requires s.Valid() && QuietPending(opts, s) && BornAt(s, births)
    requires op.DoGet? ==> forall b :: b in births ==> op.at != b + opts.maxTtl && op.at != b + opts.maxTtlSsh
    ensures SafeStep(opts, s, op)
  {
    forall x
      ensures CutsNothing(opts, s, x)
    {
      BeforeContents(Items(s.sched.pending), x);
      hide Before, Behind;
    }
    hide CutsNothing;
  }

  lemma {:induction false} FlushKeepsCreated<T>(opts: Options, s: Snap<T>, pinOnly: bool, now: int, k: nat)
    requires |s.slots| == |s.items|
    ensures var s' := FlushSnap(opts, s, pinOnly, now, k);
            |s'.slots| == |s.slots| && s'.items == s.items
            && forall i :: 0 <= i < |s.slots| ==> s'.slots[i] == s.slots[i] || s'.slots[i] == s.slots[i].(pw := None)
    decreases |s.items| - k
  {
    hide Rescheduled, WhenDue;
    if k < |s.items| {
      FlushKeepsCreated(opts, if FlushHits(pinOnly, s.slots[k]) then FlushOne(opts, s, now, k) else s, pinOnly, now, k + 1);
    }
  }

  lemma StepBirths<T>(opts: Options, cipher: Cipher, s: Snap<T>, op: Op, s': Snap<T>, births: set<int>)
    requires s.Valid() && op.WellFormed() && StepTo(opts, cipher, s, op, s') && BornAt(s, births)
    ensures BornAt(s', BirthsAfter(op, births))
  {
    hide Rescheduled, WhenDue, FirstHit, Pass, Before, NewData, EffectiveTtl;
    match op
    case DoFlush(pinOnly, at) =>
      FlushKeepsCreated(opts, s, pinOnly, at, 0);
      hide FlushSnap;
    case _ =>
  }

  lemma StepQuiet<T>(opts: Options, cipher: Cipher, s: Snap<T>, op: Op, s': Snap<T>, quiet: bool)
    requires s.Valid() && op.WellFormed() && StepTo(opts, cipher, s, op, s') && s'.Valid()
    requires Covered(opts, s) && (quiet ==> QuietPending(opts, s))
    ensures QuietAfter(op, quiet) ==> QuietPending(opts, s')
  {
    hide StepTo, FlushSnap, ExpireSnap, Expirable;
    StepIs(opts, cipher, s, op, s');
    match op
    case DoExpire(now, _) =>
      ExpireSlots(s, now);
      PassLists(s.sched, now, s.HeadHeld());
      hide Pass;
    case DoFlush(pinOnly, at) =>
      if pinOnly {
        FlushPinsCovers(opts, s, at, 0);
        FlushKeepsCreated(opts, s, true, at, 0);
        assert forall i :: 0 <= i < |s.slots| && Expirable(opts, s'.slots[i]) ==> Expirable(opts, s.slots[i]) by {
          ExpirableBefore(opts, s.slots, s'.slots);
        }
      } else {
        FlushAllClears(opts, s, at, 0);
        forall i | 0 <= i < |s'.slots|
          ensures !Expirable(opts, s'.slots[i])
        {
          ExpirableHolds(opts, s'.slots[i]);
        }
      }
    case _ =>
  }

  lemma ExpirableBefore(opts: Options, slots: seq<Slot>, slots': seq<Slot>)
    requires |slots| == |slots'|
    requires forall i :: 0 <= i < |slots| ==> slots'[i] == slots[i] || slots'[i] == slots[i].(pw := None)
    ensures forall i :: 0 <= i < |slots| && Expirable(opts, slots'[i]) ==> Expirable(opts, slots[i])
  {
  }

  lemma StepIs<T>(opts: Options, cipher: Cipher, s: Snap<T>, op: Op, s': Snap<T>)
    requires s.Valid() && op.WellFormed() && StepTo(opts, cipher, s, op, s')
    ensures |s.slots| == |s.items|
    ensures op.DoExpire? ==> s' == ExpireSnap(s, op.now)
    ensures op.DoFlush? ==> s' == FlushSnap(opts, s, op.pinOnly, op.at, 0)
  {
  }

  /**
   A guard on the operations alone: if nothing expirable is pending at the start, puts and gets are
   spaced and no get happens in the second of a maximum, then everything stays covered.
   */
  lemma {:induction false} SpacedRunIsCovered<T>(opts: Options, cipher: Cipher, trace: seq<Snap<T>>, ops: seq<Op>,
                                                 quiet: bool, births: set<int>)
    requires IsRun(opts, cipher, trace, ops) && CoveredAt(opts, trace, 0) && BornAt(trace[0], births)
    requires (quiet ==> QuietPending(opts, trace[0])) && Spaced(ops, quiet) && NoGetAtEnd(opts, ops, births)
    ensures CoveredAt(opts, trace, |ops|)
    decreases ops
  {
    if ops != [] {
      hide Covered, QuietPending, StepTo, BornAt, Snap.Valid, SafeStep;
      var s, op, s' := trace[0], ops[0], trace[1];
      if op.DoPut? || op.DoGet? {
        QuietIsSafe(opts, s, op, births);
      } else {
        OtherIsSafe(opts, s, op) by { ValidLengths(s); }
      }
      StepCovers(opts, cipher, s, op, s');
      StepBirths(opts, cipher, s, op, s', births);
      StepQuiet(opts, cipher, s, op, s', quiet);
      RunTail(opts, cipher, trace, ops);
      assert CoveredAt(opts, trace[1..], 0);
      SpacedRunIsCovered(opts, cipher, trace[1..], ops[1..], QuietAfter(op, quiet), BirthsAfter(op, births));
      assert trace[1..][|ops[1..]|] == trace[|ops|];
    }
  }

  lemma OtherIsSafe<T>(opts: Options, s: Snap<T>, op: Op)
    requires |s.slots| == |s.items| && !op.DoPut? && !op.DoGet?
    ensures SafeStep(opts, s, op)
  {
  }

  lemma RunTail<T>(opts: Options, cipher: Cipher, trace: seq<Snap<T>>, ops: seq<Op>)
    requires IsRun(opts, cipher, trace, ops) && ops != []
    ensures IsRun(opts, cipher, trace[1..], ops[1..])
  {
    hide StepTo, Snap.Valid;
    assert forall i :: 0 <= i < |ops[1..]| ==> ops[1..][i] == ops[i + 1];
    assert forall i :: 0 <= i < |trace[1..]| ==> trace[1..][i] == trace[i + 1];
  }
}
