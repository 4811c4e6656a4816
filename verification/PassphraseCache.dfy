/**
 The passphrase cache in memory: the chain of items and the operations put, get, flush and expire,
 each of which is proved to take the step of the model.
 */
module PassphraseCache {
  import opened Bytes
  import opened CacheLifetime
  import opened CacheModel
  import opened CacheOrigin
  import opened CacheSlots
  import opened TimerLists
  import opened TimerQueue
  import opened Wrappers

  ghost predicate Chained(head: Item?, s: seq<Item>)
    reads s`next
  {
    head == At(s, 0) && forall i :: 0 <= i < |s| ==> s[i].next == At(s, i + 1)
  }

  ghost predicate AllIn(s: seq<Item>, items: seq<Item>) {
    forall i :: 0 <= i < |s| ==> s[i] in items
  }

  ghost predicate NoneFreed(items: seq<Item>, freed: set<Item>) {
    forall i :: 0 <= i < |items| ==> items[i] !in freed
  }

  function SlotOf(x: Item): Slot
    reads x`mode, x`pw, x`ttl, x`created
  {
    Slot(x.key, x.restricted, x.mode, x.pw, x.ttl, x.created)
  }

  ghost function SlotsOf(s: seq<Item>): (r: seq<Slot>)
    reads s`mode, s`pw, s`ttl, s`created
    ensures |r| == |s|
    ensures forall i :: 0 <= i < |s| ==> r[i] == SlotOf(s[i])
  {
    if s == [] then [] else [SlotOf(s[0])] + SlotsOf(s[1..])
  }

  lemma AtIs(s: seq<Item>, k: nat)
    ensures At(s, k) == if k < |s| then s[k] else null
  {
  }

  class Cache {
    const opts: Options
    const cipher: Cipher
    const lists: TimerLists
    var thecache: Item?
    ghost var items: seq<Item>
    ghost var freed: set<Item>

    constructor (opts: Options, cipher: Cipher)
      ensures Valid() && View() == Snap([], [], Schedule(ZERO, [], []))
      ensures this.opts == opts && this.cipher == cipher && fresh(lists)
    {
      this.opts, this.cipher := opts, cipher;
      lists := new TimerLists();
      thecache := null;
      items, freed := [], {};
    }

    /**
     Both timer lists are acyclic, free of duplicates and disjoint, every listed item is in the
     cache, and nothing freed is in the cache.
     */
    ghost predicate Shape()
      reads this, lists, items`next
      reads lists.active`tnext, lists.active`tvSec, lists.pending`tnext, lists.pending`tvSec
    {
      && lists.Valid()
      && Chained(thecache, items) && Distinct(items) && NoneFreed(items, freed)
      && AllIn(lists.active, items) && AllIn(lists.pending, items)
    }

    ghost function Slots(): (r: seq<Slot>)
      reads this, items`mode, items`pw, items`ttl, items`created
      ensures |r| == |items|
      ensures forall i :: 0 <= i < |items| ==> r[i] == SlotOf(items[i])
    {
      SlotsOf(items)
    }

    /** The state as a value. */
    ghost function View(): (r: Snap<Item>)
      reads this, lists, items`mode, items`pw, items`ttl, items`created
      reads lists.active`tvSec, lists.pending`tvSec
      ensures r.items == items && |r.slots| == |r.items|
    {
      Snap(items, Slots(), lists.Sched())
    }

    /** The invariant of every run: the shape, and no PIN is listed. */
    ghost predicate Valid()
      reads this, lists, items`next, items`mode, items`pw, items`ttl, items`created
      reads lists.active`tnext, lists.active`tvSec, lists.pending`tnext, lists.pending`tvSec
    {
      Shape() && View().Valid()
    }

    lemma Facts()
      requires Shape()
      ensures lists.Valid() && Chained(thecache, items) && Distinct(items) && NoneFreed(items, freed)
      ensures AllIn(lists.active, items) && AllIn(lists.pending, items)
      ensures forall i :: 0 <= i < |lists.active| ==> lists.active[i] in items
      ensures forall i :: 0 <= i < |lists.pending| ==> lists.pending[i] in items
    {
      hide TimerLists.Valid, Chained, Distinct, NoneFreed;
    }

    lemma MakeShape()
      requires lists.Valid() && Chained(thecache, items) && Distinct(items) && NoneFreed(items, freed)
      requires AllIn(lists.active, items) && AllIn(lists.pending, items)
      ensures Shape()
    {
    }

    /** The shape makes the state sound. */
    lemma ShapeIsSound()
      requires Shape()
      ensures View().Sound()
    {
      lists.SchedIsValid();
      hide TimerLists.Valid, Chained, SlotsOf;
    }

    lemma ValidIs()
      ensures Valid() <==> Shape() && View().Valid()
    {
    }

    lemma ViewIs()
      ensures View() == Snap(items, SlotsOf(items), lists.Sched()) && Slots() == SlotsOf(items)
    {
    }

    // ----- Scheduling -----

    /** compute_expiration, storing the result in the item */
    method ComputeExpiration(r: Item, now: int) returns (due: bool)
      modifies r`tvSec, r`reason
      ensures due == WhenDue(opts, SlotOf(r), now).Due?
      ensures due ==> Due(r.tvSec, r.reason) == WhenDue(opts, SlotOf(r), now) && r.tvSec >= 0
    {
      if r.mode == Pin { return false; }
      if r.pw == None {
        r.tvSec, r.reason := 60 * 30, Unused;
        return true;
      }
      var maxttl := match r.mode
        case Data | Pin => 0
        case Ssh => opts.maxTtlSsh
        case _ => opts.maxTtl;
      var next := 0;
      if maxttl != 0 {
        if r.created + maxttl < now {
          r.tvSec, r.reason := 0, Creation;
          return true;
        }
        next := r.created + maxttl - now;
      }
      if r.ttl >= 0 && (next == 0 || r.ttl < next) {
        r.tvSec, r.reason := r.ttl, LastAccess;
        return true;
      }
      if next != 0 {
        r.tvSec, r.reason := next, Creation;
        return true;
      }
      return false;
    }

    /** The second half of update_expiration, for an item that is on neither list. */
    method ScheduleItem(entry: Item, now: int)
      requires lists.Valid() && entry !in lists.active && entry !in lists.pending
      modifies lists`timersNew, lists`pending, entry`tnext, entry`tvSec, entry`reason
      ensures lists.Valid() && lists.active == old(lists.active)
      ensures lists.pending == (if WhenDue(opts, SlotOf(entry), now).Due? then [entry] else []) + old(lists.pending)
      ensures Entries(lists.active) == old(Entries(lists.active))
      ensures Entries(lists.pending) ==
              (if WhenDue(opts, SlotOf(entry), now).Due? then [Entry(entry, WhenDue(opts, SlotOf(entry), now).sec)] else [])
              + old(Entries(lists.pending))
    {
      hide *;
      lists.ValidFacts();
      assert forall i :: 0 <= i < |lists.active| ==> lists.active[i] != entry;
      assert forall i :: 0 <= i < |lists.pending| ==> lists.pending[i] != entry;
      ghost var s := lists.pending;
      assert [] + s == s && [] + Entries(s) == Entries(s);
      var due := ComputeExpiration(entry, now);
      lists.MakeValid();
      if due {
        lists.InsertToTimerListNew(entry);
      }
    }

    /** update_expiration */
    method UpdateExpiration(entry: Item, isNew: bool, now: int)
      requires lists.Valid() && AllIn(lists.active, items) && AllIn(lists.pending, items) && entry in items
      requires isNew ==> entry !in lists.active && entry !in lists.pending
      modifies lists`timers, lists`timersNew, lists`active, lists`pending
      modifies items`tnext, items`tvSec, items`reason
      ensures lists.Valid() && AllIn(lists.active, items) && AllIn(lists.pending, items)
      ensures lists.Sched() == Rescheduled(old(lists.Sched()), entry, WhenDue(opts, SlotOf(entry), now))
    {
      hide *;
      AllInFacts(lists.active, items);
      AllInFacts(lists.pending, items);
      lists.ValidFacts();
      ghost var active, pending := lists.active, lists.pending;
      ghost var sched, when := lists.Sched(), WhenDue(opts, SlotOf(entry), now);
      WithoutIn(active, items, entry);
      BeforeIn(pending, items, entry);
      ConsIn(entry, Before(pending, entry), items);
      lists.SchedIs();
      UnlistedIs(active, pending, entry);
      RescheduledIs(sched, entry, when);
      if !isNew {
        lists.Detach(entry);
      }
      lists.SchedIs();
      assert [] + Before(pending, entry) == Before(pending, entry);
      ScheduleItem(entry, now);
      lists.SchedIs();
    }

    // ----- Searching -----

    /** The search loop of put (`held` false) and get (`held` true). */
    method FindItem(q: Query, held: bool) returns (r: Item?)
      requires Chained(thecache, items)
      ensures r == At(items, FirstHit(Slots(), q, held))
    {
      hide SlotsOf, FirstHit;
      r := thecache;
      ghost var k := 0;
      while r != null && !q.Hits(SlotOf(r), held)
        invariant k <= |items| && r == At(items, k)
        invariant forall i :: 0 <= i < k ==> !q.Hits(Slots()[i], held)
        decreases |items| - k
      {
        r := r.next;
        k := k + 1;
      }
      FirstHitIs(Slots(), q, held, k);
    }

    lemma SlotsChanged(slots: seq<Slot>, r: Item, k: nat)
      requires |slots| == |items| && k < |items| && items[k] == r
      requires forall i :: 0 <= i < |items| && i != k ==> slots[i] == SlotOf(items[i])
      ensures SlotsOf(items) == slots[k := SlotOf(r)]
    {
      hide SlotsOf;
    }

    /** The timer of the item at `k`, whose other fields have been set, is updated. */
    method UpdateAt(r: Item, now: int, ghost k: nat)
      requires Shape() && k < |items| && items[k] == r
      modifies lists`timers, lists`timersNew, lists`active, lists`pending
      modifies items`tnext, items`tvSec, items`reason
      ensures Shape()
      ensures View() == old(View()).(sched := Rescheduled(old(lists.Sched()), r, WhenDue(opts, SlotOf(r), now)))
    {
      hide *;
      Facts();
      ViewIs();
      ghost var slots := SlotsOf(items);
      UpdateExpiration(r, false, now);
      MakeShape();
      ViewIs();
      assert SlotsOf(items) == slots;
    }

    // ----- Put -----

    /** A put that replaces the data of an existing item. */
    method Replace(r: Item, mode: CacheMode, st: Store, ghost k: nat)
      requires Shape() && k < |items| && items[k] == r && st.data
      modifies lists`timers, lists`timersNew, lists`active, lists`pending
      modifies items`tnext, items`tvSec, items`reason, r`pw, r`mode, r`ttl, r`created, r`accessed
      ensures Shape()
      ensures var slot := Stored(r.key, r.restricted, mode, st);
              View() == Snap(items, old(Slots())[k := slot], Rescheduled(old(lists.Sched()), r, WhenDue(opts, slot, st.now)))
    {
      hide *;
      Facts();
      OnlyAt(items, k);
      ViewIs();
      ghost var slots, sched := SlotsOf(items), lists.Sched();
      r.pw := None;
      r.created, r.accessed := st.now, st.now;
      r.ttl := st.ttl;
      r.mode := mode;
      r.pw := st.secret;
      SlotIsStored(r, mode, st);
      MakeShape();
      SlotsChanged(slots, r, k);
      assert lists.Sched() == sched;
      ViewIs();
      UpdateAt(r, st.now, k);
    }

    lemma SlotIsStored(r: Item, mode: CacheMode, st: Store)
      requires r.mode == mode && r.pw == st.secret && r.ttl == st.ttl && r.created == st.now
      ensures SlotOf(r) == Stored(r.key, r.restricted, mode, st)
    {
    }

    /** A new item at the front of the chain, not yet on a timer list. */
    method PushItem(q: Query, st: Store) returns (r: Item)
      requires Shape()
      modifies this`thecache, this`items
      ensures fresh(r) && items == [r] + old(items) && Shape()
      ensures r !in lists.active && r !in lists.pending
      ensures View() == Snap([r] + old(items), [Stored(q.key, q.restricted, q.mode, st)] + old(Slots()), old(lists.Sched()))
      ensures SlotOf(r) == Stored(q.key, q.restricted, q.mode, st)
    {
      hide *;
      Facts();
      ViewIs();
      ghost var s, slots, sched := items, SlotsOf(items), lists.Sched();
      r := new Item(q.key, q.restricted, st.now, st.ttl, q.mode, st.secret);
      SlotIsStored(r, q.mode, st);
      assert forall i :: 0 <= i < |lists.active| ==> lists.active[i] != r;
      assert forall i :: 0 <= i < |lists.pending| ==> lists.pending[i] != r;
      assert r !in s;
      r.next := thecache;
      thecache := r;
      items := [r] + s;
      PushedFacts(s, r);
      LongerIn(lists.active, s, r);
      LongerIn(lists.pending, s, r);
      MakeShape();
      ViewIs();
      SlotsLonger(s, r);
      assert SlotsOf(s) == slots && lists.Sched() == sched;
    }

    lemma PushedFacts(s: seq<Item>, r: Item)
      requires Chained(r.next, s) && Distinct(s) && NoneFreed(s, freed) && r !in s && r !in freed
      ensures Chained(r, [r] + s) && Distinct([r] + s) && NoneFreed([r] + s, freed)
    {
      assert ([r] + s)[1..] == s;
      DistinctTail([r] + s);
    }

    lemma SlotsLonger(s: seq<Item>, r: Item)
      ensures SlotsOf([r] + s) == [SlotOf(r)] + SlotsOf(s)
    {
      assert ([r] + s)[1..] == s;
    }

    method InsertItem(q: Query, st: Store)
      requires Shape()
      modifies this`thecache, this`items, lists`timers, lists`timersNew, lists`active, lists`pending
      modifies items`tnext, items`tvSec, items`reason
      ensures Shape() && |items| == |old(items)| + 1 && items[1..] == old(items) && fresh(items[0])
      ensures View() == PutNew(opts, old(View()), q, st, items[0])
    {
      hide *;
      Facts();
      ViewIs();
      ghost var before := View();
      var r := PushItem(q, st);
      PutNewIs(opts, before, q, st, r);
      assert items[0] == r && items[1..] == old(items);
      assert forall i :: 0 < i < |items| ==> items[i] == items[1..][i - 1];
      Facts();
      ghost var slots := SlotsOf(items);
      ViewIs();
      UpdateExpiration(r, true, st.now);
      MakeShape();
      ViewIs();
      assert SlotsOf(items) == slots;
    }

    /** A put without data: the data goes, the timer stays. */
    method Forget(r: Item, ghost k: nat)
      requires Shape() && k < |items| && items[k] == r
      modifies r`pw
      ensures Shape()
      ensures View() == old(View()).(slots := old(Slots())[k := old(Slots())[k].(pw := None)])
    {
      hide *;
      Facts();
      OnlyAt(items, k);
      ViewIs();
      ghost var slots, sched := SlotsOf(items), lists.Sched();
      SlotFields(r);
      r.pw := None;
      MakeShape();
      SlotsChanged(slots, r, k);
      SlotFields(r);
      assert lists.Sched() == sched;
      ViewIs();
    }

    lemma SlotFields(r: Item)
      ensures SlotOf(r) == Slot(r.key, r.restricted, r.mode, r.pw, r.ttl, r.created)
    {
    }

    /** A put that stores, once the item is known. */
    method StoreAt(r: Item?, q: Query, st: Store)
      requires Shape() && r == At(items, FirstHit(Slots(), q, false))
      modifies this`thecache, this`items, lists`timers, lists`timersNew, lists`active, lists`pending, items
      ensures Shape()
      ensures forall i :: 0 <= i < |items| ==> items[i] in old(items) || fresh(items[i])
      ensures if AddsItem(old(View()), q, st)
              then items != [] && items[0] !in old(items) && View() == PutNew(opts, old(View()), q, st, items[0])
              else View() == PutOld(opts, old(View()), q, st)
    {
      hide *;
      ghost var k := FirstHit(Slots(), q, false);
      AtIs(items, k);
      ViewIs();
      PutOldIs(opts, View(), q, st, k);
      if r != null {
        SlotFields(r);
        if st.data {
          Replace(r, q.mode, st, k);
        } else {
          Forget(r, k);
        }
      } else if st.data && st.secret.Some? {
        InsertItem(q, st);
        assert forall i :: 0 < i < |items| ==> items[i] == items[1..][i - 1];
      }
    }

    /** agent_put_cache; `fill` is what the secure buffer holds behind the string. */
    method Put(q: Query, data: Option<bytes>, ttl: int, now: int, fill: bytes) returns (ok: bool)
      requires Valid() && |fill| == 32
      modifies this`thecache, this`items, lists`timers, lists`timersNew, lists`active, lists`pending, items
      ensures Valid() && StepTo(opts, cipher, old(View()), DoPut(q, data, ttl, now, fill), View())
      ensures forall i :: 0 <= i < |items| ==> items[i] in old(items) || fresh(items[i])
      ensures ok == (Stores(opts, q.mode, data.Some?, ttl) && data.Some? ==> NewData(cipher, data.value, fill).Some?)
    {
      hide *;
      ValidIs();
      ghost var before := View();
      PutStepIs(opts, cipher, before, q, data, ttl, now, fill, before);
      ok := true;
      var ttl' := EffectiveTtl(opts, q.mode, ttl);
      StoresIs(opts, q.mode, data.Some?, ttl);
      if (ttl' == 0 && data.Some?) || q.mode == Ignore {
        return;
      }
      Facts();
      var st := StoreOf(opts, cipher, q, data, ttl, now, fill);
      var r := FindItem(q, false);
      StoreAt(r, q, st);
      ok := data.Some? ==> st.secret.Some?;
      ShapeIsSound();
      ViewIs();
      PutStepIs(opts, cipher, before, q, data, ttl, now, fill, View());
      if AddsItem(before, q, st) {
        PutNewListsNoPin(opts, before, q, st, items[0]);
      } else {
        PutOldListsNoPin(opts, before, q, st);
      }
      ValidIs();
    }

    // ----- Get -----

    /** agent_get_cache */
    method Get(q: Query, now: int) returns (value: Option<bytes>)
      requires Valid()
      modifies lists`timers, lists`timersNew, lists`active, lists`pending
      modifies items`tnext, items`tvSec, items`reason, items`accessed
      ensures Valid() && StepTo(opts, cipher, old(View()), DoGet(q, now), View()) && items == old(items)
      ensures value == match Lookup(old(Slots()), q)
                       case None => None
                       case Some(secret) => ReadData(cipher, secret)
    {
      hide *;
      ValidIs();
      ViewIs();
      ghost var before := View();
      LookupIs(before.slots, q);
      GetStepIs(opts, cipher, before, q, now);
      if q.mode == Ignore {
        return None;
      }
      Facts();
      ghost var k := FirstHit(Slots(), q, true);
      var r := FindItem(q, true);
      AtIs(items, k);
      value := None;
      if r != null {
        SlotFields(r);
        var secret := r.pw.value;
        if r.mode != Data {
          Touch(r, now, k);
          ShapeIsSound();
          GetListsNoPin(opts, before, q, now);
        }
        value := ReadData(cipher, secret);
      }
      ValidIs();
    }

    /** A hit restarts the item's timer. */
    method Touch(r: Item, now: int, ghost k: nat)
      requires Shape() && k < |items| && items[k] == r
      modifies lists`timers, lists`timersNew, lists`active, lists`pending
      modifies items`tnext, items`tvSec, items`reason, r`accessed
      ensures Shape()
      ensures View() == old(View()).(sched := Rescheduled(old(lists.Sched()), r, WhenDue(opts, old(Slots())[k], now)))
    {
      hide *;
      ViewIs();
      Facts();
      ghost var slots, sched := SlotsOf(items), lists.Sched();
      r.accessed := now;
      MakeShape();
      assert SlotsOf(items) == slots && lists.Sched() == sched;
      ViewIs();
      UpdateAt(r, now, k);
    }

    // ----- Flush -----

    /** Takes the data of one item and updates its timer. */
    method FlushItem(r: Item, now: int, ghost k: nat)
      requires Shape() && k < |items| && items[k] == r
      modifies lists`timers, lists`timersNew, lists`active, lists`pending
      modifies items`tnext, items`tvSec, items`reason, r`accessed, r`pw
      ensures Shape() && View() == FlushOne(opts, old(View()), now, k)
    {
      hide *;
      ViewIs();
      FlushOneIs(opts, View(), now, k);
      Forget(r, k);
      ViewIs();
      Facts();
      ghost var slots, sched := SlotsOf(items), lists.Sched();
      r.accessed := 0;
      MakeShape();
      assert SlotsOf(items) == slots && lists.Sched() == sched;
      ViewIs();
      UpdateAt(r, now, k);
    }

    /** One round of the flush loop. */
    method FlushStep(r: Item, pinOnly: bool, now: int, ghost k: nat) returns (next: Item?)
      requires Shape() && View().Valid() && k < |items| && items[k] == r
      modifies lists`timers, lists`timersNew, lists`active, lists`pending
      modifies items`tnext, items`tvSec, items`reason, r`accessed, r`pw
      ensures Shape() && View().Valid() && next == At(items, k + 1)
      ensures FlushSnap(opts, View(), pinOnly, now, k + 1) == FlushSnap(opts, old(View()), pinOnly, now, k)
    {
      hide *;
      SlotFields(r);
      ViewIs();
      ghost var before := View();
      FlushSnapIs(opts, before, pinOnly, now, k);
      if !(pinOnly && r.mode != Pin) && r.pw.Some? {
        FlushItem(r, now, k);
        ShapeIsSound();
        FlushOneListsNoPin(opts, before, now, k);
      }
      Facts();
      ChainedFacts(thecache, items);
      next := r.next;
    }

    /** agent_flush_cache */
    method Flush(pinOnly: bool, now: int)
      requires Valid()
      modifies lists`timers, lists`timersNew, lists`active, lists`pending
      modifies items`tnext, items`tvSec, items`reason, items`accessed, items`pw
      ensures Valid() && StepTo(opts, cipher, old(View()), DoFlush(pinOnly, now), View()) && items == old(items)
    {
      hide *;
      ValidIs();
      ViewIs();
      Facts();
      ghost var before := View();
      FlushStepIs(opts, cipher, before, pinOnly, now);
      var r := thecache;
      ghost var k := 0;
      AtIs(items, 0);
      ChainedFacts(thecache, items);
      while r != null
        invariant Shape() && View().Valid() && k <= |items| && r == At(items, k)
        invariant FlushSnap(opts, View(), pinOnly, now, k) == FlushSnap(opts, before, pinOnly, now, 0)
        decreases |items| - k
      {
        AtIs(items, k);
        r := FlushStep(r, pinOnly, now, k);
        k := k + 1;
      }
      AtIs(items, k);
      ViewIs();
      FlushSnapIs(opts, View(), pinOnly, now, k);
      ValidIs();
    }

    // ----- Expiration -----

    /** A popped item that holds data loses it and is scheduled as an unused slot. */
    method ExpireHeld(e: Item, now: int, ghost k: nat)
      requires Shape() && k < |items| && items[k] == e && e.mode != Pin
      requires e !in lists.active && e !in lists.pending
      modifies lists`timersNew, lists`pending, e`tnext, e`tvSec, e`reason, e`pw, e`accessed
      ensures Shape() && Slots() == old(Slots())[k := old(Slots())[k].(pw := None)]
      ensures lists.Sched() == old(lists.Sched()).(pending := [Entry(e, UNUSED_SLOT_SECONDS)] + old(Entries(lists.pending)))
    {
      hide *;
      lists.SchedIs();
      ViewIs();
      Forget(e, k);
      ViewIs();
      Facts();
      ghost var slots := SlotsOf(items);
      e.accessed := 0;
      SlotFields(e);
      UnusedIsDue(opts, SlotOf(e), now);
      ConsIn(e, lists.pending, items);
      lists.SchedIs();
      ScheduleItem(e, now);
      MakeShape();
      lists.SchedIs();
      ViewIs();
      assert SlotsOf(items) == slots;
    }

    /** Takes an item off the cache chain. */
    method UnlinkItem(e: Item)
      requires Chained(thecache, items) && Distinct(items) && e in items
      modifies this`thecache, this`items, items`next
      ensures items == Without(old(items), e) && Chained(thecache, items)
    {
      hide *;
      ChainedFacts(thecache, items);
      var rprev;
      ghost var s, k := items, 0;
      rprev, k := FindPrevious(e);
      BeforeAt(s, e, k);
      SkippedIsWithout(s, e);
      thecache := BypassItem(e, rprev, k);
      items := Skipped(s, k);
    }

    /** The search for the item in front of `e` on the chain. */
    method FindPrevious(e: Item) returns (rprev: Item?, ghost k: nat)
      requires Chained(thecache, items) && e in items
      ensures k < |items| && items[k] == e && e !in items[..k]
      ensures rprev == if k == 0 then null else items[k - 1]
    {
      hide Distinct, Chained;
      ChainedFacts(thecache, items);
      k := 0;
      rprev := null;
      var r := thecache;
      while r != e
        invariant k < |items| && r == At(items, k) && e !in items[..k] && rprev == (if k == 0 then null else items[k - 1])
        decreases |items| - k
      {
        rprev := r;
        r := r.next;
        k := k + 1;
        assert items == items[..k] + items[k..];
      }
    }

    /** Links the item in front of `e`, or the head of the chain, to the one behind it. */
    method BypassItem(e: Item, rprev: Item?, ghost k: nat) returns (head: Item?)
      requires Chained(thecache, items) && Distinct(items) && k < |items| && items[k] == e
      requires rprev == if k == 0 then null else items[k - 1]
      modifies items`next
      ensures Chained(head, Skipped(items, k))
    {
      SkippedAt(items, k);
      if k > 0 { OnlyAt(items, k - 1); }
      hide Distinct, Skipped;
      head := thecache;
      if rprev == null {
        head := e.next;
      } else {
        rprev.next := e.next;
      }
    }

    /** A popped item without data leaves the chain. */
    method LeaveChain(e: Item, ghost k: nat)
      requires Shape() && k == |Before(items, e)| && e in items
      requires e !in lists.active && e !in lists.pending
      modifies this`thecache, this`items, items`next
      ensures Shape() && e !in items && k < |old(items)| && items == old(items)[..k] + old(items)[k + 1..]
      ensures Slots() == old(Slots())[..k] + old(Slots())[k + 1..] && lists.Sched() == old(lists.Sched())
    {
      hide *;
      Facts();
      ViewIs();
      ghost var s, sched := items, lists.Sched();
      SlotsWithout(s, e);
      WithoutContents(s, e);
      ghost var slots := SlotsOf(Without(s, e));
      KeptIn(lists.active, s, e);
      KeptIn(lists.pending, s, e);
      NoneFreedWithout(s, e);
      UnlinkItem(e);
      MakeShape();
      ViewIs();
      assert SlotsOf(items) == slots && lists.Sched() == sched;
    }

    /** The removal from the pending list, which the item is not on. */
    method LeavePending(e: Item)
      requires Shape() && e !in items && e !in lists.active && e !in lists.pending
      modifies lists`timersNew, lists`pending, lists.pending`tnext, e`tnext, e`tvSec
      ensures Shape() && View() == old(View())
    {
      hide *;
      Facts();
      ViewIs();
      lists.SchedIs();
      ghost var pending, slots := lists.pending, SlotsOf(items);
      UnlistedIs(pending, pending, e);
      assert forall i :: 0 <= i < |pending| ==> pending[i] != e;
      ghost var es := Entries(pending);
      lists.RemoveFromTimerListNew(e);
      assert Entries(pending) == es && SlotsOf(items) == slots;
      MakeShape();
      lists.SchedIs();
      ViewIs();
    }

    /** A popped item without data is removed and freed. */
    method DropUnused(e: Item, ghost k: nat)
      requires Shape() && k == |Before(items, e)| && e in items
      requires e !in lists.active && e !in lists.pending
      modifies this`thecache, this`items, this`freed, items`next
      modifies lists`timersNew, lists`pending, lists.pending`tnext, e`tnext, e`tvSec
      ensures Shape() && e in freed && k < |old(items)| && items == old(items)[..k] + old(items)[k + 1..]
      ensures Slots() == old(Slots())[..k] + old(Slots())[k + 1..]
      ensures lists.Sched() == old(lists.Sched())
    {
      hide *;
      LeaveChain(e, k);
      ViewIs();
      LeavePending(e);
      Facts();
      ViewIs();
      NoneFreedMore(items, freed, e);
      freed := freed + {e};
      MakeShape();
      ViewIs();
    }

    lemma NoneFreedWithout(s: seq<Item>, e: Item)
      requires Distinct(s) && NoneFreed(s, freed)
      ensures NoneFreed(Without(s, e), freed) && Distinct(Without(s, e))
    {
      hide Without, Distinct;
      WithoutContents(s, e);
      assert forall i :: 0 <= i < |Without(s, e)| ==> Without(s, e)[i] in Without(s, e);
    }

    /** Pops the head of the active list and expires it. */
    method PopExpired(now: int, ghost k: nat)
      requires Shape() && lists.timers != null && lists.active != [] && lists.active[0].mode != Pin
      requires k == |Before(items, lists.active[0])| && k < |items| && items[k] == lists.active[0]
      modifies this`thecache, this`items, this`freed, items
      modifies lists`timers, lists`timersNew, lists`active, lists`pending
      ensures Shape() && forall x :: x in items ==> x in old(items)
      ensures old(Slots())[k].pw.Some? ==>
                && items == old(items) && Slots() == old(Slots())[k := old(Slots())[k].(pw := None)]
                && lists.Sched() == Schedule(old(lists.abstime), old(Entries(lists.active))[1..],
                                             [Entry(old(lists.active[0]), UNUSED_SLOT_SECONDS)] + old(Entries(lists.pending)))
      ensures old(Slots())[k].pw == None ==>
                && items == old(items)[..k] + old(items)[k + 1..] && Slots() == old(Slots())[..k] + old(Slots())[k + 1..]
                && lists.Sched() == Schedule(old(lists.abstime), old(Entries(lists.active))[1..], old(Entries(lists.pending)))
                && old(lists.active[0]) in freed
    {
      hide *;
      Facts();
      ViewIs();
      SlotFields(lists.active[0]);
      ghost var s := items;
      var e := PopHead();
      if e.pw == None {
        DropUnused(e, k);
        assert forall x :: x in items ==> x in s;
      } else {
        ExpireHeld(e, now, k);
      }
    }

    /** Unlinks the head of the active list. */
    method PopHead() returns (e: Item)
      requires Shape() && lists.timers != null
      modifies lists`timers, lists`active, lists.active`tnext
      ensures Shape() && Slots() == old(Slots()) && old(lists.active) != [] && e == old(lists.active)[0]
      ensures e !in lists.active && e !in lists.pending && lists.pending == old(lists.pending)
      ensures Entries(lists.pending) == old(Entries(lists.pending))
      ensures lists.Sched() == Schedule(old(lists.abstime), old(Entries(lists.active))[1..], old(Entries(lists.pending)))
    {
      hide *;
      Facts();
      ViewIs();
      ghost var slots := SlotsOf(items);
      HeadIsThere(lists);
      TailIn(lists.active, items);
      e := lists.PopActive();
      MakeShape();
      ViewIs();
      assert SlotsOf(items) == slots;
      lists.SchedIs();
    }

    /** Moves the pending items to the active list. */
    method DrainAll(timeout: Timespec) returns (ts: Timespec)
      requires Shape() && timeout.Normal()
      modifies lists`timers, lists`timersNew, lists`active, lists`pending, items`tnext, items`tvSec
      ensures Shape() && Slots() == old(Slots()) && lists.pending == [] && ts.Normal()
      ensures Queue(ts, Entries(lists.active)) == Drain(Queue(timeout, old(Entries(lists.active))), old(Entries(lists.pending)))
    {
      hide *;
      Facts();
      ViewIs();
      ghost var active, pending, slots := lists.active, lists.pending, SlotsOf(items);
      ghost var all := set x | x in items;
      AllInSet(active, items);
      AllInSet(pending, items);
      ts := lists.DrainPending(timeout, all);
      UnionIn(active, pending, lists.active, items);
      assert AllIn([], items) by { NothingIn(items); }
      MakeShape();
      ViewIs();
      assert slots == SlotsOf(items);
    }

    /** Moves the pending items to the active list and arms its head. */
    method DrainAndArm(timeout: Timespec, now: Timespec) returns (tp: Option<Timespec>)
      requires Shape() && timeout.Normal() && now.Normal()
      modifies lists, items`tnext, items`tvSec
      ensures Shape() && Slots() == old(Slots())
      ensures lists.Sched() == Arm(Drain(Queue(timeout, old(Entries(lists.active))), old(Entries(lists.pending))),
                                   old(lists.Sched()), now)
      ensures tp.Some? <==> lists.active != []
      ensures tp.Some? ==> tp.value.Plus(now) == lists.abstime
    {
      hide *;
      ViewIs();
      ghost var s, slots := lists.Sched(), SlotsOf(items);
      lists.SchedIs();
      Facts();
      var ts := DrainAll(timeout);
      ghost var q := Queue(ts, Entries(lists.active));
      lists.SchedIs();
      ArmDependsOn(q, s, lists.Sched(), now);
      Facts();
      ViewIs();
      ghost var slots' := SlotsOf(items);
      tp := lists.ArmHead(ts, now);
      MakeShape();
      ViewIs();
      assert SlotsOf(items) == slots';
    }

    /** The first half of a pass: the head expires if its time has come. */
    method PopIfDue(now: Timespec, seconds: int) returns (timeout: Timespec)
      requires Valid() && now.Normal()
      modifies this`thecache, this`items, this`freed, items
      modifies lists`timers, lists`timersNew, lists`active, lists`pending
      ensures Shape() && timeout.Normal() && timeout == old(View()).sched.Timeout(now)
      ensures View() == AfterPop(old(View()), now)
      ensures forall x :: x in items ==> x in old(items)
      ensures old(View()).sched.Pops(now) && !old(View()).HeadHeld() ==> old(lists.active) != [] && old(lists.active)[0] in freed
    {
      hide *;
      ValidIs();
      Facts();
      lists.SchedIs();
      ViewIs();
      ghost var before := View();
      HeadFacts(now);
      AfterPopIs(before, now);
      ghost var k := if lists.active != [] then |Before(items, lists.active[0])| else 0;
      var expired := false;
      timeout := ZERO;
      if lists.timers != null {
        if lists.abstime.Before(now) {
          expired := true;
        } else {
          timeout := lists.abstime.Minus(now);
        }
      }
      if expired && lists.timers != null && lists.timers.tvSec == 0 {
        PopExpired(seconds, k);
        ViewIs();
      }
      if expired || lists.timers == null {
        timeout := ZERO;
      }
    }

    /** agent_cache_expiration: `now` is the clock of the timers, `seconds` that of the items. */
    method Expire(now: Timespec, seconds: int) returns (tp: Option<Timespec>)
      requires Valid() && now.Normal()
      modifies this`thecache, this`items, this`freed, items, lists
      ensures Valid() && StepTo(opts, cipher, old(View()), DoExpire(now, seconds), View())
      ensures forall i :: 0 <= i < |items| ==> items[i] in old(items)
      ensures tp.Some? <==> lists.active != []
      ensures tp.Some? ==> tp.value.Plus(now) == lists.abstime
      ensures old(View()).sched.Pops(now) && !old(View()).HeadHeld() ==> old(lists.active) != [] && old(lists.active)[0] in freed
    {
      hide *;
      ValidIs();
      ghost var before := View();
      var timeout := PopIfDue(now, seconds);
      lists.SchedIs();
      ViewIs();
      ghost var popped := View();
      ExpireIsPopThenDrain(before, now);
      ArmDependsOn(Drain(Queue(timeout, popped.sched.active), popped.sched.pending), before.sched, popped.sched, now);
      assert forall i :: 0 <= i < |items| ==> items[i] in items;
      tp := DrainAndArm(timeout, now);
      ViewIs();
      ShapeIsSound();
      ExpireListsNoPin(before, now);
      ExpireStepIs(opts, cipher, before, now, seconds);
      ValidIs();
    }

    /** What the head of the active list is. */
    lemma HeadFacts(now: Timespec)
      requires Valid() && now.Normal()
      ensures lists.timers == null <==> lists.active == []
      ensures lists.active != [] ==>
                && lists.timers == lists.active[0] && lists.active[0] in items && lists.active[0].mode != Pin
                && Entries(lists.active)[0] == Entry(lists.active[0], lists.timers.tvSec)
                && View().Index(lists.active[0]) == |Before(items, lists.active[0])| < |items|
                && items[|Before(items, lists.active[0])|] == lists.active[0]
      ensures lists.abstime.Minus(now).Normal() && ZERO.Normal() && View().sched.abstime == lists.abstime
    {
      TimespecArithmetic(lists.abstime, now);
      if lists.active != [] {
        var x := lists.active[0];
        assert x in items;
        assert Items(View().sched.active)[0] == x by { lists.SchedIsValid(); }
        assert View().OnList(x);
        var k := |Before(items, x)|;
        assert items[k] == x && View().slots[k] == SlotOf(x);
      }
    }
  }

  lemma NoneFreedMore(items: seq<Item>, freed: set<Item>, e: Item)
    requires NoneFreed(items, freed) && e !in items
    ensures NoneFreed(items, freed + {e})
  {
  }

  lemma UnusedIsDue(opts: Options, slot: Slot, now: int)
    requires slot.pw == None && slot.mode != Pin
    ensures WhenDue(opts, slot, now) == Due(UNUSED_SLOT_SECONDS, Unused)
  {
  }

  lemma SkippedIsWithout(s: seq<Item>, x: Item)
    requires x in s
    ensures Skipped(s, |Before(s, x)|) == Without(s, x)
  {
    hide Before;
  }

  lemma SlotsWithout(s: seq<Item>, e: Item)
    requires e in s
    ensures |Before(s, e)| < |s|
    ensures Without(s, e) == s[..|Before(s, e)|] + s[|Before(s, e)| + 1..]
    ensures SlotsOf(Without(s, e)) == SlotsOf(s)[..|Before(s, e)|] + SlotsOf(s)[|Before(s, e)| + 1..]
  {
    hide SlotsOf, Before, Without;
    var k, w := |Before(s, e)|, Without(s, e);
    assert forall i :: 0 <= i < k ==> w[i] == s[i];
    assert forall i :: k <= i < |w| ==> w[i] == s[i + 1];
    assert SlotsOf(w) == SlotsOf(s)[..k] + SlotsOf(s)[k + 1..];
  }

  lemma KeptIn(s: seq<Item>, items: seq<Item>, x: Item)
    requires AllIn(s, items) && Distinct(items) && x !in s
    ensures AllIn(s, Without(items, x))
  {
    hide Without, Distinct;
    WithoutContents(items, x);
  }

  lemma HeadIsThere(lists: TimerLists)
    requires lists.Valid() && lists.timers != null
    ensures lists.active != []
  {
  }

  lemma TailIn(s: seq<Item>, items: seq<Item>)
    requires AllIn(s, items) && s != []
    ensures AllIn(s[1..], items)
  {
  }

  lemma AllInSet(s: seq<Item>, items: seq<Item>)
    requires AllIn(s, items)
    ensures forall x :: x in s ==> x in items
  {
  }

  lemma NothingIn(items: seq<Item>)
    ensures AllIn([], items)
  {
  }

  lemma UnionIn(a: seq<Item>, b: seq<Item>, c: seq<Item>, items: seq<Item>)
    requires AllIn(a, items) && AllIn(b, items) && multiset(c) == multiset(a) + multiset(b)
    ensures AllIn(c, items)
  {
    forall i | 0 <= i < |c|
      ensures c[i] in items
    {
      assert c[i] in multiset(c);
      assert c[i] in multiset(a) || c[i] in multiset(b);
    }
  }

  /** Arming looks at the old schedule only for its anchor time. */
  lemma ArmDependsOn(q: Queue<Item>, s: Schedule<Item>, s': Schedule<Item>, now: Timespec)
    ensures s.abstime == s'.abstime ==> Arm(q, s, now) == Arm(q, s', now)
  {
  }

  lemma ExpireStepIs(opts: Options, cipher: Cipher, s: Snap<Item>, now: Timespec, at: int)
    requires |s.slots| == |s.items| && now.Normal()
    ensures StepTo(opts, cipher, s, DoExpire(now, at), ExpireSnap(s, now))
  {
    hide ExpireSnap;
  }

  /** The state in the middle of a pass, before the pending items are inserted. */
  ghost function AfterPop(s: Snap<Item>, now: Timespec): Snap<Item>
    requires |s.slots| == |s.items|
  {
    if !s.sched.Pops(now) then s
    else
      var e, k := s.sched.active[0], s.Index(s.sched.active[0].item);
      if k == |s.items| then s
      else if s.HeadHeld() then
        Snap(s.items, s.slots[k := s.slots[k].(pw := None)],
             Schedule(s.sched.abstime, s.sched.active[1..], [Entry(e.item, UNUSED_SLOT_SECONDS)] + s.sched.pending))
      else
        Snap(s.items[..k] + s.items[k + 1..], s.slots[..k] + s.slots[k + 1..],
             Schedule(s.sched.abstime, s.sched.active[1..], s.sched.pending))
  }

  lemma AfterPopIs(s: Snap<Item>, now: Timespec)
    requires |s.slots| == |s.items|
    ensures var a, p := s.sched.active, s.sched.pending;
            var expired := a != [] && s.sched.abstime.Before(now);
            && s.sched.Timeout(now) == (if a == [] || expired then ZERO else s.sched.abstime.Minus(now))
            && s.sched.Pops(now) == (expired && a[0].delta == 0)
            && (!s.sched.Pops(now) ==> AfterPop(s, now) == s)
            && (s.sched.Pops(now) && s.Index(a[0].item) < |s.items| ==>
                  var k := s.Index(a[0].item);
                  && s.HeadHeld() == s.slots[k].pw.Some?
                  && (s.HeadHeld() ==>
                        AfterPop(s, now) ==
                        Snap(s.items, s.slots[k := s.slots[k].(pw := None)],
                             Schedule(s.sched.abstime, a[1..], [Entry(a[0].item, UNUSED_SLOT_SECONDS)] + p)))
                  && (!s.HeadHeld() ==>
                        AfterPop(s, now) ==
                        Snap(s.items[..k] + s.items[k + 1..], s.slots[..k] + s.slots[k + 1..],
                             Schedule(s.sched.abstime, a[1..], p))))
  {
    hide Before;
  }

  lemma ExpireIsPopThenDrain(s: Snap<Item>, now: Timespec)
    requires s.Valid()
    ensures |s.slots| == |s.items|
    ensures var p := AfterPop(s, now);
            && p.sched.abstime == s.sched.abstime
            && ExpireSnap(s, now) ==
               p.(sched := Arm(Drain(Queue(s.sched.Timeout(now), p.sched.active), p.sched.pending), s.sched, now))
  {
    ExpireCases(s, now);
    hide Drain, Arm, Before, ExpireSnap, Snap.Sound, Schedule.Timeout;
    assert [] + s.sched.pending == s.sched.pending;
  }

  lemma LongerIn(s: seq<Item>, items: seq<Item>, x: Item)
    requires AllIn(s, items)
    ensures AllIn(s, [x] + items)
  {
  }

  lemma ChainedFacts(head: Item?, s: seq<Item>)
    requires Chained(head, s)
    ensures head == At(s, 0) && forall i :: 0 <= i < |s| ==> s[i].next == At(s, i + 1)
  {
  }

  lemma StoresIs(opts: Options, mode: CacheMode, data: bool, ttl: int)
    ensures Stores(opts, mode, data, ttl) == !((EffectiveTtl(opts, mode, ttl) == 0 && data) || mode == Ignore)
  {
  }

  lemma LookupIs(slots: seq<Slot>, q: Query)
    ensures var k := FirstHit(slots, q, true);
            && Lookup(slots, q) == (if q.mode == Ignore || k == |slots| then None else slots[k].pw)
            && (k < |slots| ==> slots[k].pw.Some?)
  {
  }

  lemma PutNewIs(opts: Options, s: Snap<Item>, q: Query, st: Store, x: Item)
    ensures var slot := Stored(q.key, q.restricted, q.mode, st);
            PutNew(opts, s, q, st, x) ==
            Snap([x] + s.items, [slot] + s.slots, Rescheduled(s.sched, x, WhenDue(opts, slot, st.now)))
  {
    hide Rescheduled, WhenDue, Stored;
  }

  lemma PutOldIs(opts: Options, s: Snap<Item>, q: Query, st: Store, k: nat)
    requires |s.slots| == |s.items| && k == FirstHit(s.slots, q, false)
    ensures AddsItem(s, q, st) <==> k == |s.slots| && st.data && st.secret.Some?
    ensures k == |s.slots| ==> PutOld(opts, s, q, st) == s
    ensures k < |s.slots| && !st.data ==> PutOld(opts, s, q, st) == s.(slots := s.slots[k := s.slots[k].(pw := None)])
    ensures k < |s.slots| && st.data ==>
              var slot := Stored(s.slots[k].key, s.slots[k].restricted, q.mode, st);
              PutOld(opts, s, q, st) ==
              Snap(s.items, s.slots[k := slot], Rescheduled(s.sched, s.items[k], WhenDue(opts, slot, st.now)))
  {
    hide Rescheduled, WhenDue, FirstHit, Stored;
  }

  lemma PutStepIs(opts: Options, cipher: Cipher, s: Snap<Item>, q: Query, data: Option<bytes>, ttl: int, now: int, fill: bytes,
                  s': Snap<Item>)
    requires |s.slots| == |s.items| && |fill| == 32
    ensures var st := StoreOf(opts, cipher, q, data, ttl, now, fill);
            && st.data == data.Some? && (data.Some? ==> st.secret == NewData(cipher, data.value, fill))
            && (StepTo(opts, cipher, s, DoPut(q, data, ttl, now, fill), s') <==>
                if !Stores(opts, q.mode, data.Some?, ttl) then s' == s
                else if AddsItem(s, q, st) then
                  s'.items != [] && s'.items[0] !in s.items && s' == PutNew(opts, s, q, st, s'.items[0])
                else s' == PutOld(opts, s, q, st))
  {
    hide PutNew, PutOld, AddsItem, NewData, Stores;
  }

  lemma GetStepIs(opts: Options, cipher: Cipher, s: Snap<Item>, q: Query, now: int)
    requires |s.slots| == |s.items|
    ensures forall s': Snap<Item> :: StepTo(opts, cipher, s, DoGet(q, now), s') <==> s' == GetSnap(opts, s, q, now)
    ensures var k := FirstHit(s.slots, q, true);
            GetSnap(opts, s, q, now) ==
            if q.mode != Ignore && k < |s.slots| && s.slots[k].mode != Data
            then s.(sched := Rescheduled(s.sched, s.items[k], WhenDue(opts, s.slots[k], now)))
            else s
  {
    hide Rescheduled, WhenDue, FirstHit;
  }

  lemma FlushStepIs(opts: Options, cipher: Cipher, s: Snap<Item>, pinOnly: bool, now: int)
    requires |s.slots| == |s.items|
    ensures forall s': Snap<Item> ::
              StepTo(opts, cipher, s, DoFlush(pinOnly, now), s') <==> s' == FlushSnap(opts, s, pinOnly, now, 0)
  {
    hide FlushSnap;
  }

  lemma FlushOneIs(opts: Options, s: Snap<Item>, now: int, k: nat)
    requires |s.slots| == |s.items| && k < |s.items|
    ensures var slots := s.slots[k := s.slots[k].(pw := None)];
            FlushOne(opts, s, now, k) == Snap(s.items, slots, Rescheduled(s.sched, s.items[k], WhenDue(opts, slots[k], now)))
  {
    hide Rescheduled, WhenDue;
  }

  lemma FlushSnapIs(opts: Options, s: Snap<Item>, pinOnly: bool, now: int, k: nat)
    requires |s.slots| == |s.items|
    ensures k >= |s.items| ==> FlushSnap(opts, s, pinOnly, now, k) == s
    ensures k < |s.items| ==>
              FlushSnap(opts, s, pinOnly, now, k) ==
              if !(pinOnly && s.slots[k].mode != Pin) && s.slots[k].pw.Some?
              then FlushSnap(opts, FlushOne(opts, s, now, k), pinOnly, now, k + 1)
              else FlushSnap(opts, s, pinOnly, now, k + 1)
  {
    hide FlushOne;
  }

  lemma AllInFacts(s: seq<Item>, items: seq<Item>)
    requires AllIn(s, items)
    ensures forall i :: 0 <= i < |s| ==> s[i] in items
  {
  }

  lemma WithoutIn(s: seq<Item>, items: seq<Item>, x: Item)
    requires AllIn(s, items) && Distinct(s)
    ensures AllIn(Without(s, x), items)
  {
    hide Without, Distinct;
    WithoutContents(s, x);
    assert forall i :: 0 <= i < |Without(s, x)| ==> Without(s, x)[i] in Without(s, x);
  }

  lemma BeforeIn(s: seq<Item>, items: seq<Item>, x: Item)
    requires AllIn(s, items)
    ensures AllIn(Before(s, x), items)
  {
    hide Before;
    assert forall i :: 0 <= i < |Before(s, x)| ==> Before(s, x)[i] == s[i];
  }

  lemma ConsIn(x: Item, s: seq<Item>, items: seq<Item>)
    requires AllIn(s, items) && x in items
    ensures AllIn([x] + s, items)
  {
  }

  /** For an item that is on no list there is nothing to remove. */
  lemma UnlistedIs(active: seq<Item>, pending: seq<Item>, x: Item)
    ensures x !in active ==> Without(active, x) == active && Removed(Entries(active), x) == Entries(active)
    ensures x !in pending ==> Before(pending, x) == pending && Ahead(Entries(pending), x) == Entries(pending)
  {
    hide Entries, Without;
    ItemsOfEntries(active);
    ItemsOfEntries(pending);
  }

  lemma RescheduledIs(s: Schedule<Item>, x: Item, when: When)
    ensures Rescheduled(s, x, when) ==
            Schedule(s.abstime, Removed(s.active, x), (if when.Due? then [Entry(x, when.sec)] else []) + Ahead(s.pending, x))
  {
  }

  // ----- Runs -----

  /** One operation takes one step of the model. */
  method RunStep(c: Cache, op: Op)
    requires c.Valid() && op.WellFormed()
    modifies c`thecache, c`items, c`freed, c.lists, c.items
    ensures c.Valid() && StepTo(c.opts, c.cipher, old(c.View()), op, c.View())
    ensures forall i :: 0 <= i < |c.items| ==> c.items[i] in old(c.items) || fresh(c.items[i])
  {
    hide *;
    WellFormedIs(op);
    assert forall i :: 0 <= i < |c.items| ==> c.items[i] in c.items;
    match op
    case DoPut(q, data, ttl, at, fill) => var _ := c.Put(q, data, ttl, at, fill);
    case DoGet(q, at) => var _ := c.Get(q, at);
    case DoFlush(pinOnly, at) => c.Flush(pinOnly, at);
    case DoExpire(now, at) => var _ := c.Expire(now, at);
  }

  lemma WellFormedIs(op: Op)
    requires op.WellFormed()
    ensures op.DoPut? ==> |op.fill| == 32
    ensures op.DoExpire? ==> op.now.Normal()
  {
  }

  /**
   Every run keeps the invariant and is a run of the model: `trace` is the sequence of its states,
   from the one before the first operation to the one after the last.
   */
  method Run(c: Cache, ops: seq<Op>) returns (ghost trace: seq<Snap<Item>>)
    requires c.Valid() && forall i :: 0 <= i < |ops| ==> ops[i].WellFormed()
    modifies c`thecache, c`items, c`freed, c.lists, c.items
    ensures c.Valid()
    ensures forall i :: 0 <= i < |c.items| ==> c.items[i] in old(c.items) || fresh(c.items[i])
    ensures IsRun(c.opts, c.cipher, trace, ops) && |trace| == |ops| + 1
    ensures trace[0] == old(c.View()) && trace[|ops|] == c.View()
    decreases |ops|
  {
    hide *;
    c.ValidIs();
    ghost var s := c.View();
    assert forall i :: 0 <= i < |c.items| ==> c.items[i] in c.items;
    if ops == [] {
      trace := [s];
      RunOfNothing(c.opts, c.cipher, s);
    } else {
      RunStep(c, ops[0]);
      ghost var rest := Run(c, ops[1..]);
      trace := [s] + rest;
      RunCons(c.opts, c.cipher, s, rest, ops);
    }
  }

  lemma RunOfNothing(opts: Options, cipher: Cipher, s: Snap<Item>)
    requires s.Valid()
    ensures IsRun(opts, cipher, [s], [])
  {
  }

  lemma RunCons(opts: Options, cipher: Cipher, s: Snap<Item>, rest: seq<Snap<Item>>, ops: seq<Op>)
    requires s.Valid() && ops != [] && ops[0].WellFormed() && IsRun(opts, cipher, rest, ops[1..])
    requires |rest| == |ops| && StepTo(opts, cipher, s, ops[0], rest[0])
    ensures IsRun(opts, cipher, [s] + rest, ops)
  {
    assert forall i :: 0 <= i < |rest| ==> |rest[i].slots| == |rest[i].items|;
    assert |s.slots| == |s.items|;
    hide StepTo, Snap.Valid;
    var trace := [s] + rest;
    assert forall i :: 0 <= i < |trace| ==> |trace[i].slots| == |trace[i].items|;
    forall i | 0 <= i < |ops|
      ensures ops[i].WellFormed() && trace[i].Valid() && StepTo(opts, cipher, trace[i], ops[i], trace[i + 1])
    {
      if i > 0 {
        assert ops[1..][i - 1] == ops[i] && trace[i] == rest[i - 1] && trace[i + 1] == rest[i - 1 + 1];
      }
    }
  }

  /**
   Everything that is supposed to expire has a timer in every state of a run if and only if every
   step is safe; and it has one at the end if the operations are spaced and no get falls into the
   second in which a maximum lifetime ends.
   */
  method CoveredRun(c: Cache, ops: seq<Op>, ghost births: set<int>) returns (ghost trace: seq<Snap<Item>>)
    requires c.Valid() && (forall i :: 0 <= i < |ops| ==> ops[i].WellFormed()) && Covered(c.opts, c.View())
    modifies c`thecache, c`items, c`freed, c.lists, c.items
    ensures c.Valid() && IsRun(c.opts, c.cipher, trace, ops) && |trace| == |ops| + 1
    ensures trace[0] == old(c.View()) && trace[|ops|] == c.View()
    ensures (forall i: nat :: i <= |ops| ==> CoveredAt(c.opts, trace, i)) <==>
            forall i: nat :: i < |ops| ==> SafeAt(c.opts, trace, ops, i)
    ensures QuietPending(c.opts, old(c.View())) && BornAt(old(c.View()), births)
            && Spaced(ops, true) && NoGetAtEnd(c.opts, ops, births) ==>
              Covered(c.opts, c.View())
  {
    hide *;
    trace := Run(c, ops);
    CoveredAtIs(c.opts, trace, 0);
    CoveredAtIs(c.opts, trace, |ops|);
    CoveredThroughoutIff(c.opts, c.cipher, trace, ops);
    if QuietPending(c.opts, trace[0]) && BornAt(trace[0], births) && Spaced(ops, true) && NoGetAtEnd(c.opts, ops, births) {
      SpacedRunIsCovered(c.opts, c.cipher, trace, ops, true, births);
    }
  }

  lemma CoveredAtIs(opts: Options, trace: seq<Snap<Item>>, i: nat)
    requires i < |trace| && |trace[i].slots| == |trace[i].items|
    ensures CoveredAt(opts, trace, i) <==> Covered(opts, trace[i])
  {
  }

  /** From an empty cache the guard is one on the operations alone. */
  method SpacedRun(opts: Options, cipher: Cipher, ops: seq<Op>) returns (c: Cache)
    requires (forall i :: 0 <= i < |ops| ==> ops[i].WellFormed()) && Spaced(ops, true) && NoGetAtEnd(opts, ops, {})
    ensures c.Valid() && c.opts == opts && Covered(opts, c.View())
  {
    hide *;
    c := new Cache(opts, cipher);
    EmptyIsCovered(opts, c.View());
    ghost var trace := CoveredRun(c, ops, {});
  }

  lemma EmptyIsCovered(opts: Options, s: Snap<Item>)
    requires s.items == [] && s.slots == []
    ensures Covered(opts, s) && QuietPending(opts, s) && BornAt(s, {})
  {
  }

  /**
   End to end: a put that stores, any operations, and a get with the same mode, key and restriction.
   The get returns what was put if every step of the run spares the key, and also if the operations
   are about other keys and the expiration passes are in time.
   */
  method PutRunGet(c: Cache, put: Op, ops: seq<Op>, later: int, ghost clock: int)
    returns (ok: bool, got: Option<bytes>, ghost trace: seq<Snap<Item>>)
    requires c.Valid() && c.cipher.Lawful() && put.DoPut? && put.WellFormed() && put.data.Some? && NUL !in put.data.value
    requires Stores(c.opts, put.q.mode, true, put.ttl) && forall i :: 0 <= i < |ops| ==> ops[i].WellFormed()
    modifies c`thecache, c`items, c`freed, c.lists, c.items
    ensures c.Valid() && ok == NewData(c.cipher, put.data.value, put.fill).Some?
    ensures IsRun(c.opts, c.cipher, trace, ops) && |trace| == |ops| + 1
    ensures StepTo(c.opts, c.cipher, old(c.View()), put, trace[0])
    ensures StepTo(c.opts, c.cipher, trace[|ops|], DoGet(put.q, later), c.View())
    ensures ok && (forall i :: 0 <= i < |ops| ==> SparesAt(c.opts, c.cipher, trace[i], ops[i], put.q.key)) ==>
              got == put.data
    ensures ok && (forall i :: 0 <= i < |ops| ==> Apart(ops[i], put.q))
            && (Lifetime(c.opts, put.q.mode, put.ttl).Due? ==>
                  InTime(ops, clock, clock + Lifetime(c.opts, put.q.mode, put.ttl).sec * NANOS)) ==>
              got == put.data
  {
    hide *;
    WellFormedIs(put);
    c.ValidIs();
    ghost var before := c.View();
    assert forall i :: 0 <= i < |c.items| ==> c.items[i] in c.items;
    ok := c.Put(put.q, put.data, put.ttl, put.at, put.fill);
    trace := Run(c, ops);
    c.ValidIs();
    c.ViewIs();
    got := c.Get(put.q, later);
    if ok {
      StoredIsRead(c.cipher, put.data.value, put.fill);
      if forall i :: 0 <= i < |ops| ==> SparesAt(c.opts, c.cipher, trace[i], ops[i], put.q.key) {
        PutThenSpared(c.opts, c.cipher, before, put, trace, ops);
      }
      if (forall i :: 0 <= i < |ops| ==> Apart(ops[i], put.q))
         && (Lifetime(c.opts, put.q.mode, put.ttl).Due? ==>
               InTime(ops, clock, clock + Lifetime(c.opts, put.q.mode, put.ttl).sec * NANOS)) {
        PutIsKept(c.opts, c.cipher, before, put, trace, ops, clock);
      }
    }
  }

  lemma StoredIsRead(cipher: Cipher, data: bytes, fill: bytes)
    requires cipher.Lawful() && NUL !in data && |fill| == 32 && NewData(cipher, data, fill).Some?
    ensures ReadData(cipher, NewData(cipher, data, fill).value) == Some(data)
  {
    hide *;
    StoredDataIsReadBack(cipher, data, fill);
  }

  /**
   End to end, the other way round: whatever a get returns after any operations on a new cache is
   the string of one of the puts among them, under the same key and for the same restriction unless
   one of the two is about a PIN.  Without such a put it returns nothing.
   */
  method RunGet(opts: Options, cipher: Cipher, ops: seq<Op>, q: Query, later: int) returns (c: Cache, got: Option<bytes>)
    requires cipher.Lawful() && forall i :: 0 <= i < |ops| ==> ops[i].WellFormed()
    requires forall i :: 0 <= i < |ops| && ops[i].DoPut? && ops[i].data.Some? ==> NUL !in ops[i].data.value
    ensures c.Valid()
    ensures got.Some? ==>
              exists i :: 0 <= i < |ops| && ops[i].DoPut? && ops[i].data == got && ops[i].q.key == q.key
                          && (q.mode == Pin || ops[i].q.mode == Pin || ops[i].q.restricted == q.restricted)
                          && (q.mode == User || q.mode == Nonce ==> ops[i].q.mode == q.mode || ops[i].q.mode == Any)
    ensures (forall i :: 0 <= i < |ops| && ops[i].DoPut? ==>
               ops[i].q.key != q.key || (q.mode != Pin && ops[i].q.restricted != q.restricted)) ==>
              got == None
  {
    hide *;
    c := new Cache(opts, cipher);
    ghost var trace := Run(c, ops);
    ghost var slots := c.Slots();
    c.ViewIs();
    got := c.Get(q, later);
    if Lookup(slots, q).Some? {
      FoundIsRead(opts, cipher, trace, ops, q);
    }
    if forall i :: 0 <= i < |ops| && ops[i].DoPut? ==>
         ops[i].q.key != q.key || (q.mode != Pin && ops[i].q.restricted != q.restricted) {
      NothingPutNothingFound(opts, cipher, trace, ops, q);
    }
  }

  lemma FoundIsRead(opts: Options, cipher: Cipher, trace: seq<Snap<Item>>, ops: seq<Op>, q: Query)
    requires cipher.Lawful() && IsRun(opts, cipher, trace, ops) && |trace| == |ops| + 1 && trace[0].slots == []
    requires forall i :: 0 <= i < |ops| && ops[i].DoPut? && ops[i].data.Some? ==> NUL !in ops[i].data.value
    requires Lookup(trace[|ops|].slots, q).Some?
    ensures var got := ReadData(cipher, Lookup(trace[|ops|].slots, q).value);
            exists i :: 0 <= i < |ops| && ops[i].DoPut? && ops[i].data == got && ops[i].q.key == q.key
                        && (q.mode == Pin || ops[i].q.mode == Pin || ops[i].q.restricted == q.restricted)
                        && (q.mode == User || q.mode == Nonce ==> ops[i].q.mode == q.mode || ops[i].q.mode == Any)
  {
    hide IsRun, NewData, ReadData, Lookup, Stores, Cipher.Lawful;
    var secret := Lookup(trace[|ops|].slots, q).value;
    FoundWasPut(opts, cipher, trace, ops, q, secret);
    var i :| 0 <= i < |ops| && Puts(opts, cipher, ops[i], secret) && ops[i].q.key == q.key
             && (q.mode == Pin || ops[i].q.mode == Pin || ops[i].q.restricted == q.restricted)
             && (q.mode == User || q.mode == Nonce ==> ops[i].q.mode == q.mode || ops[i].q.mode == Any);
    StoredIsRead(cipher, ops[i].data.value, ops[i].fill);
  }

  /**
   Two puts and a get in a row, with no expiration pass in between, leave the first item without a
   timer although it holds data for ten minutes.
   */
  method LostTimer(opts: Options, cipher: Cipher, data: bytes, fill: bytes) returns (c: Cache)
    requires |fill| == 32 && NewData(cipher, data, fill).Some?
    ensures c.Valid() && c.opts == opts && !Covered(opts, c.View())
  {
    hide *;
    c := new Cache(opts, cipher);
    ghost var s0 := c.View();
    var _ := c.Put(FIRST, Some(data), 600, 0, fill);
    ghost var s1 := c.View();
    assert forall i :: 0 <= i < |c.items| ==> fresh(c.items[i]);
    var _ := c.Put(SECOND, Some(data), 600, 0, fill);
    ghost var s2 := c.View();
    assert forall i :: 0 <= i < |c.items| ==> fresh(c.items[i]);
    var _ := c.Get(SECOND, 0);
    TimerIsLost(opts, cipher, data, fill, s0, s1, s2, c.View());
  }
}
