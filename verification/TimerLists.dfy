/**
 The timer lists of the passphrase cache as they are in memory: cache items linked through one
 `tnext` pointer each, which the active list and the list of newly scheduled items share.
 */
module TimerLists {
  import opened Bytes
  import opened TimerQueue
  import opened Wrappers

  datatype CacheMode = Ignore | Any | Normal | User | Ssh | Nonce | Pin | Data
  datatype Reason = Unused | LastAccess | Creation

  /** The ciphertext of a cached string; `totallen` includes the padding. */
  datatype Secret = Secret(totallen: nat, data: bytes)

  class Item {
    const key: bytes
    const restricted: int
    var next: Item?
    var created: int
    var accessed: int
    var ttl: int
    var pw: Option<Secret>
    var mode: CacheMode
    var tnext: Item?
    var tvSec: int
    var reason: Reason

    constructor (key: bytes, restricted: int, now: int, ttl: int, mode: CacheMode, pw: Option<Secret>)
      ensures this.key == key && this.restricted == restricted && this.ttl == ttl
      ensures this.mode == mode && this.pw == pw && created == now && accessed == now
    {
      this.key, this.restricted, this.ttl := key, restricted, ttl;
      this.mode, this.pw := mode, pw;
      created, accessed := now, now;
      next, tnext, tvSec, reason := null, null, 0, Unused;
    }
  }

  ghost function At(s: seq<Item>, i: nat): Item? {
    if i < |s| then s[i] else null
  }

  /** The items of `s` are linked in this order through `tnext`, starting at `head`. */
  ghost predicate Linked(head: Item?, s: seq<Item>)
    reads s`tnext
  {
    head == At(s, 0) && forall i :: 0 <= i < |s| ==> s[i].tnext == At(s, i + 1)
  }

  ghost function Entries(s: seq<Item>): (es: seq<Entry<Item>>)
    reads s`tvSec
    ensures |es| == |s|
    ensures forall i :: 0 <= i < |s| ==> es[i] == Entry(s[i], s[i].tvSec)
  {
    if s == [] then [] else [Entry(s[0], s[0].tvSec)] + Entries(s[1..])
  }

  /** A well-formed timer list. */
  ghost predicate ListOk(head: Item?, s: seq<Item>)
    reads s`tnext, s`tvSec
  {
    Linked(head, s) && Distinct(s) && NonNegative(Entries(s))
  }

  lemma InsertedAt(s: seq<Item>, k: nat, x: Item)
    requires k <= |s|
    ensures |Inserted(s, k, x)| == |s| + 1 && Inserted(s, k, x)[k] == x
    ensures forall i :: 0 <= i < k ==> Inserted(s, k, x)[i] == s[i]
    ensures forall i :: k < i <= |s| ==> Inserted(s, k, x)[i] == s[i - 1]
  {
  }

  /** The entries of a list with one item added, in terms of the entries of the list. */
  lemma InsertedEntries(s: seq<Item>, es: seq<Entry<Item>>, k: nat, x: Item)
    requires k <= |s| && es == Entries(s)
    ensures Entries(Inserted(s, k, x)) == Inserted(es, k, Entry(x, x.tvSec))
  {
    hide Entries;
  }

  ghost function Skipped(s: seq<Item>, k: nat): seq<Item>
    requires k < |s|
  {
    s[..k] + s[k + 1..]
  }

  lemma SkippedAt(s: seq<Item>, k: nat)
    requires k < |s|
    ensures |Skipped(s, k)| == |s| - 1
    ensures forall i :: 0 <= i < k ==> Skipped(s, k)[i] == s[i]
    ensures forall i :: k <= i < |s| - 1 ==> Skipped(s, k)[i] == s[i + 1]
  {
  }

  lemma OnlyAt(s: seq<Item>, k: nat)
    requires Distinct(s) && k < |s|
    ensures forall i :: 0 <= i < |s| && i != k ==> s[i] != s[k]
  {
  }

  lemma SplitEntries(s: seq<Item>, es: seq<Entry<Item>>, k: nat)
    requires k < |s| && es == Entries(s)
    ensures Entries(Skipped(s, k)) == es[..k] + es[k + 1..]
  {
    hide Entries;
    SkippedAt(s, k);
    var r, e := Skipped(s, k), es[..k] + es[k + 1..];
    hide Skipped;
    forall i | 0 <= i < |r|
      ensures Entries(r)[i] == e[i]
    {
      assert e[i] == es[if i < k then i else i + 1];
    }
  }

  lemma SkippedWithout(s: seq<Item>, x: Item)
    requires x in s
    ensures |Before(s, x)| < |s| && s[|Before(s, x)|] == x && Skipped(s, |Before(s, x)|) == Without(s, x)
  {
    hide Before;
  }

  lemma RemoveAtNonNegative(es: seq<Entry<Item>>, k: nat)
    requires k < |es| && NonNegative(es)
    ensures NonNegative(RemoveAt(es, k))
  {
  }

  lemma DistinctList(head: Item?, s: seq<Item>)
    requires ListOk(head, s)
    ensures Linked(head, s) && Distinct(s) && NonNegative(Entries(s))
  {
  }

  lemma DisjointSymmetric(s: seq<Item>, t: seq<Item>)
    requires Disjoint(s, t)
    ensures forall i :: 0 <= i < |t| ==> t[i] !in s
  {
    assert forall i :: 0 <= i < |t| ==> t[i] in t;
  }

  lemma UpToDistinct(s: seq<Item>, x: Item)
    requires Distinct(s)
    ensures Distinct(UpTo(s, x))
    ensures forall i :: 0 <= i < |UpTo(s, x)| ==> UpTo(s, x)[i] == s[i]
    ensures x in s ==> |UpTo(s, x)| > 0 && UpTo(s, x)[|UpTo(s, x)| - 1] == x
    ensures forall i :: 0 <= i < |UpTo(s, x)| - 1 ==> s[i] != x
    ensures x !in s ==> UpTo(s, x) == s
  {
    hide Before;
    var b := Before(s, x);
    assert forall i :: 0 <= i < |b| ==> s[i] == b[i] && b[i] in b;
    DistinctPrefix(s, |UpTo(s, x)|);
    assert UpTo(s, x) == s[..|UpTo(s, x)|];
    hide Distinct;
    if x !in s {
      assert forall i :: 0 <= i < |s| ==> s[i] in s;
    }
  }

  lemma WithoutList(s: seq<Item>, x: Item)
    requires NonNegative(Entries(s))
    ensures NonNegative(Entries(Without(s, x)))
    ensures x in s ==> Without(s, x) == Skipped(s, |Before(s, x)|)
    ensures x !in s ==> Without(s, x) == s
  {
    hide Before, Entries, Without;
  }

  lemma {:induction false} WithoutUpTo(s: seq<Item>, x: Item)
    ensures Without(UpTo(s, x), x) == Before(s, x)
  {
    var u, b := UpTo(s, x), Before(s, x);
    if x in s {
      assert u[|b|] == x && u[..|b|] == b;
      assert u == b + [x];
      BeforeAt(u, x, |b|);
      hide Before, Without;
      assert u[|b| + 1..] == [];
    }
  }

  lemma UpToPrefix(s: seq<Item>, x: Item)
    ensures forall i :: 0 <= i < |UpTo(s, x)| ==> UpTo(s, x)[i] in s
  {
    hide Before;
    assert forall i :: 0 <= i < |UpTo(s, x)| ==> UpTo(s, x)[i] == s[i];
  }

  lemma NewHead(head: Item?, s: seq<Item>, x: Item)
    requires Distinct(s) && NonNegative(Entries(s)) && x !in s && x.tvSec >= 0
    ensures Distinct([x] + s) && NonNegative(Entries([x] + s))
    ensures Entries([x] + s) == [Entry(x, x.tvSec)] + Entries(s)
    ensures forall y :: y in [x] + s <==> y == x || y in s
  {
    assert ([x] + s)[1..] == s;
    DistinctTail([x] + s);
    hide Distinct, Entries;
  }

  lemma LinkedCons(x: Item, s: seq<Item>)
    requires Linked(x.tnext, s)
    ensures Linked(x, [x] + s)
  {
    assert ([x] + s)[1..] == s;
  }

  lemma LinkedTail(head: Item?, s: seq<Item>)
    requires Linked(head, s) && Distinct(s) && NonNegative(Entries(s)) && head != null
    ensures s != [] && head == s[0] && Linked(head.tnext, s[1..]) && Distinct(s[1..]) && NonNegative(Entries(s[1..]))
    ensures Entries(s[1..]) == Entries(s)[1..] && head !in s[1..] && head in s
    ensures forall i :: 0 <= i < |s[1..]| ==> s[1..][i] in s
    ensures multiset(s) == multiset{head} + multiset(s[1..])
  {
    DistinctTail(s);
    assert s == [s[0]] + s[1..];
    hide Distinct;
    assert forall i :: 0 <= i < |s[1..]| ==> s[1..][i] == s[i + 1];
  }

  lemma ListMade(head: Item?, s: seq<Item>)
    requires Linked(head, s) && Distinct(s) && NonNegative(Entries(s))
    ensures ListOk(head, s)
  {
  }

  lemma NothingPending(ts: Timespec, s: seq<Item>, rest: seq<Item>)
    requires ListOk(null, rest)
    ensures rest == [] && Entries([]) == [] && Linked(null, []) && Distinct<Item>([]) && NonNegative(Entries([]))
    ensures Drain(Queue(ts, Entries(s)), Entries(rest)) == Queue(ts, Entries(s))
  {
  }

  /** Draining a non-empty list starts with the insertion of its first item. */
  lemma NextRequest(ts: Timespec, s: seq<Item>, e: Item, rest: seq<Item>)
    requires rest != [] && e == rest[0] && NonNegative(Entries(s)) && NonNegative(Entries(rest)) && ts.Normal()
    ensures e.tvSec >= 0
    ensures Drain(Queue(ts, Entries(s)), Entries(rest)) ==
            Drain(Insert(Queue(ts, Entries(s)), e, e.tvSec), Entries(rest[1..]))
    ensures Insert(Queue(ts, Entries(s)), e, e.tvSec).timeout.Normal()
    ensures NonNegative(Insert(Queue(ts, Entries(s)), e, e.tvSec).entries)
  {
    assert Entries(rest)[0] == Entry(e, e.tvSec) && Entries(rest)[1..] == Entries(rest[1..]);
    InsertValid(Queue(ts, Entries(s)), e, e.tvSec);
    hide Insert, Entries;
  }

  lemma InsertedDistinct(s: seq<Item>, k: nat, x: Item)
    requires Distinct(s) && x !in s && k <= |s|
    ensures Distinct(Inserted(s, k, x))
  {
    InsertedAt(s, k, x);
    hide Inserted;
    var t := Inserted(s, k, x);
    forall i, j | 0 <= i < j < |t|
      ensures t[i] != t[j]
    {
      assert t[i] == if i < k then s[i] else if i == k then x else s[i - 1];
      assert t[j] == if j < k then s[j] else if j == k then x else s[j - 1];
    }
  }

  lemma EntriesOfNothing()
    ensures Entries([]) == []
  {
  }

  lemma DistinctPrefix(s: seq<Item>, n: nat)
    requires Distinct(s) && n <= |s|
    ensures Distinct(s[..n])
  {
  }

  /** The entries after an item has added its delta to its successor's. */
  ghost function PassedOn(es: seq<Entry<Item>>, k: nat): seq<Entry<Item>>
    requires k < |es|
  {
    if k + 1 < |es| then es[k + 1 := Entry(es[k + 1].item, es[k + 1].delta + es[k].delta)] else es
  }

  lemma RemoveAtPassedOn(es: seq<Entry<Item>>, k: nat)
    requires k < |es|
    ensures PassedOn(es, k)[..k] + PassedOn(es, k)[k + 1..] == RemoveAt(es, k)
  {
  }

  lemma PlaceHere(es: seq<Entry<Item>>, x: Item, d: int, k: nat)
    requires k <= |es| && (k < |es| ==> es[k].delta > d)
    ensures es[..k] + Place(es[k..], x, d) ==
            Inserted(if k < |es| then es[k := Entry(es[k].item, es[k].delta - d)] else es, k, Entry(x, d))
  {
    assert k < |es| ==> es[k..][1..] == es[k + 1..];
  }

  class TimerLists {
    var timers: Item?
    var timersNew: Item?
    var abstime: Timespec
    ghost var active: seq<Item>
    ghost var pending: seq<Item>

    constructor ()
      ensures active == [] && pending == [] && timers == null && timersNew == null && abstime == ZERO
    {
      timers, timersNew, abstime := null, null, ZERO;
      active, pending := [], [];
    }

    /** Both lists are well formed and no item is on both. */
    ghost predicate Valid()
      reads this, active`tnext, active`tvSec, pending`tnext, pending`tvSec
    {
      && ListOk(timers, active) && ListOk(timersNew, pending)
      && Disjoint(active, pending) && abstime.Normal()
    }

    // ----- Insertion into the active list -----

    method RebaseHead(ts: Timespec, req: int)
      requires Linked(timers, active) && Distinct(active)
      modifies active`tvSec
      ensures Entries(active) == Rebase(ts, old(Entries(active)), req)
    {
      hide Entries;
      if timers != null {
        timers.tvSec := timers.tvSec + (ts.sec - req);
        if ts.nsec >= HALF {
          timers.tvSec := timers.tvSec + 1;
        }
        assert forall i :: 1 <= i < |active| ==> active[0] != active[i];
      }
    }

    method PushActive(entry: Item)
      requires Linked(timers, active) && entry !in active
      modifies this`timers, this`active, entry`tnext
      ensures active == [entry] + old(active) && Linked(timers, active)
    {
      hide Entries;
      entry.tnext := timers;
      timers := entry;
      active := [entry] + active;
      assert active[1..] == old(active);
    }

    method InsertAtHead(ts: Timespec, entry: Item) returns (ts': Timespec)
      requires Linked(timers, active) && Distinct(active) && entry !in active
      modifies this`timers, this`active, active`tvSec, entry`tnext, entry`tvSec
      ensures active == Inserted(old(active), 0, entry) && Linked(timers, active)
      ensures ts' == Timespec(old(entry.tvSec), 0)
      ensures Entries(active) == [Entry(entry, 0)] + Rebase(ts, old(Entries(active)), old(entry.tvSec))
    {
      hide Rebase, Distinct, Linked, Entries;
      RebaseHead(ts, entry.tvSec);
      ghost var s, es := active, Entries(active);
      ts' := Timespec(entry.tvSec, 0);
      entry.tvSec := 0;
      assert Entries(s) == es;
      PushActive(entry);
      InsertedEntries(s, es, 0, entry);
      assert Inserted(s, 0, entry) == [entry] + s;
      assert Inserted(es, 0, Entry(entry, 0)) == [Entry(entry, 0)] + es;
    }

    /** The walk to the place of the new item; it consumes the deltas it passes. */
    method FindPlace(entry: Item) returns (eprev: Item?, e: Item?, ghost k: nat)
      requires ListOk(timers, active) && entry !in active && entry.tvSec >= 0
      modifies entry`tvSec
      ensures k <= |active| && e == At(active, k) && (if k == 0 then eprev == null else eprev == active[k - 1])
      ensures entry.tvSec >= 0 && (k < |active| ==> active[k].tvSec > entry.tvSec)
      ensures Place(Entries(active), entry, old(entry.tvSec)) ==
              Entries(active)[..k] + Place(Entries(active)[k..], entry, entry.tvSec)
    {
      hide Entries, Place, Distinct, NonNegative;
      eprev, e, k := null, timers, 0;
      ghost var es := Entries(active);
      assert es[..0] + Place(es[0..], entry, entry.tvSec) == Place(es, entry, entry.tvSec) by {
        assert es[0..] == es;
      }
      while e != null && !(e.tvSec > entry.tvSec)
        invariant k <= |active| && e == At(active, k) && (if k == 0 then eprev == null else eprev == active[k - 1])
        invariant entry.tvSec >= 0
        invariant Place(es, entry, old(entry.tvSec)) == es[..k] + Place(es[k..], entry, entry.tvSec)
        invariant Entries(active) == es
        decreases |active| - k
      {
        eprev := e;
        entry.tvSec := entry.tvSec - e.tvSec;
        e := e.tnext;
        PlaceStep(es, entry, entry.tvSec + es[k].delta, k);
        k := k + 1;
      }
    }

    lemma PlaceStep(es: seq<Entry<Item>>, entry: Item, d: int, k: nat)
      requires k < |es| && es[k].delta <= d
      ensures es[..k] + Place(es[k..], entry, d) == es[..k + 1] + Place(es[k + 1..], entry, d - es[k].delta)
    {
      assert es[k..][1..] == es[k + 1..];
      assert es[..k] + [es[k]] == es[..k + 1];
    }

    /** Hooks the item in front of `e`. */
    method LinkAt(entry: Item, eprev: Item?, e: Item?, ghost k: nat)
      requires Linked(timers, active) && Distinct(active) && entry !in active
      requires k <= |active| && e == At(active, k) && (if k == 0 then eprev == null else eprev == active[k - 1])
      modifies this`timers, this`active, active`tnext, entry`tnext
      ensures active == Inserted(old(active), k, entry) && Linked(timers, active)
    {
      hide Entries;
      if k > 0 { OnlyAt(active, k - 1); }
      hide Distinct;
      entry.tnext := e;
      if eprev != null {
        eprev.tnext := entry;
      } else {
        timers := entry;
      }
      ghost var before := active;
      active := Inserted(active, k, entry);
      InsertedAt(before, k, entry);
      hide Inserted;
    }

    method InsertLater(ts: Timespec, entry: Item) returns (ghost k: nat)
      requires ListOk(timers, active) && entry !in active && ts.sec < entry.tvSec
      modifies this`timers, this`active, active`tnext, active`tvSec, entry`tnext, entry`tvSec
      ensures k <= |old(active)| && active == Inserted(old(active), k, entry) && Linked(timers, active)
      ensures Entries(active) == Place(old(Entries(active)), entry, old(entry.tvSec) - ts.sec)
    {
      hide *;
      DistinctList(timers, active);
      assert forall i :: 0 <= i < |active| ==> active[i] != entry;
      entry.tvSec := entry.tvSec - ts.sec;
      ghost var es := Entries(active);
      assert es == old(Entries(active));
      var eprev, e;
      eprev, e, k := FindPlace(entry);
      PlaceHere(es, entry, entry.tvSec, k);
      PlaceAt(entry, eprev, e, k);
    }

    /** Hooks the item in front of `e`, which then counts from the new item. */
    method PlaceAt(entry: Item, eprev: Item?, e: Item?, ghost k: nat)
      requires Linked(timers, active) && Distinct(active) && entry !in active
      requires k <= |active| && e == At(active, k) && (if k == 0 then eprev == null else eprev == active[k - 1])
      modifies this`timers, this`active, active`tnext, active`tvSec, entry`tnext
      ensures active == Inserted(old(active), k, entry) && Linked(timers, active)
      ensures var es := old(Entries(active));
              Entries(active) ==
              Inserted(if k < |es| then es[k := Entry(es[k].item, es[k].delta - old(entry.tvSec))] else es, k,
                       Entry(entry, old(entry.tvSec)))
    {
      hide *;
      assert forall i :: 0 <= i < |active| ==> active[i] != entry;
      TakeDelta(e, entry.tvSec, k);
      ghost var before, es' := active, Entries(active);
      LinkAt(entry, eprev, e, k);
      InsertedEntries(before, es', k, entry);
    }

    /** The item behind the new one counts from the new one. */
    method TakeDelta(e: Item?, d: int, ghost k: nat)
      requires Distinct(active) && k <= |active| && e == At(active, k)
      modifies active`tvSec
      ensures Entries(active) == if k < |active|
                                 then old(Entries(active))[k := Entry(active[k], old(active[k].tvSec) - d)]
                                 else old(Entries(active))
    {
      hide Entries;
      if e != null {
        OnlyAt(active, k);
        e.tvSec := e.tvSec - d;
      }
    }

    /** insert_to_timer_list: the item asks for `entry.tvSec` seconds from now. */
    method InsertToTimerList(ts: Timespec, entry: Item) returns (ts': Timespec, ghost k: nat)
      requires ListOk(timers, active) && entry !in active && entry.tvSec >= 0 && ts.Normal()
      modifies this`timers, this`active, active`tnext, active`tvSec, entry`tnext, entry`tvSec
      ensures k <= |old(active)| && active == Inserted(old(active), k, entry) && Linked(timers, active)
      ensures Queue(ts', Entries(active)) == Insert(Queue(ts, old(Entries(active))), entry, old(entry.tvSec))
    {
      assert timers == null <==> Entries(active) == [];
      hide Entries, Rebase, Place, Distinct, Linked, NonNegative, Inserted;
      if timers == null || ts.sec >= entry.tvSec {
        ts' := InsertAtHead(ts, entry);
        k := 0;
      } else {
        ts' := ts;
        k := InsertLater(ts, entry);
      }
    }

    // ----- Removal -----

    /** The search loop shared by the two removal functions. */
    static method FindIn(head: Item?, entry: Item, ghost s: seq<Item>) returns (eprev: Item?, e: Item?)
      requires Linked(head, s)
      ensures e == null <==> entry !in s
      ensures e != null ==> e == entry
      ensures e != null ==> eprev == if Before(s, entry) == [] then null else s[|Before(s, entry)| - 1]
    {
      eprev, e := null, head;
      ghost var k := 0;
      while e != null && e != entry
        invariant k <= |s| && e == At(s, k) && entry !in s[..k]
        invariant eprev == if k == 0 then null else s[k - 1]
        decreases |s| - k
      {
        eprev := e;
        e := e.tnext;
        k := k + 1;
      }
      BeforeAt(s, entry, k);
    }

    /** Links the predecessor of `entry`, or the anchor, to its successor. */
    static method Bypass(head: Item?, entry: Item, eprev: Item?, ghost s: seq<Item>, ghost k: nat) returns (head': Item?)
      requires Linked(head, s) && Distinct(s) && k < |s| && s[k] == entry
      requires eprev == if k == 0 then null else s[k - 1]
      modifies s`tnext
      ensures Linked(head', Skipped(s, k))
    {
      if k > 0 { OnlyAt(s, k - 1); }
      SkippedAt(s, k);
      hide Distinct, Skipped;
      head' := head;
      if eprev != null {
        eprev.tnext := entry.tnext;
      } else {
        head' := entry.tnext;
      }
    }

    /** Takes `entry`, whose predecessor is `eprev`, off the active list. */
    method UnlinkActive(entry: Item, eprev: Item?)
      requires ListOk(timers, active) && entry in active
      requires eprev == if Before(active, entry) == [] then null else active[|Before(active, entry)| - 1]
      modifies this`timers, this`active, active`tnext, active`tvSec
      ensures active == Without(old(active), entry) && ListOk(timers, active)
      ensures Entries(active) == RemoveAt(old(Entries(active)), |Before(old(active), entry)|)
    {
      hide *;
      ghost var s, k := active, |Before(active, entry)|;
      DistinctList(timers, s);
      RemoveAtNonNegative(Entries(s), k);
      RemoveAtPassedOn(Entries(s), k);
      WithoutContents(s, entry);
      AddDeltaToNext(entry, k);
      BypassActive(entry, eprev, k);
      ListMade(timers, active);
    }

    /** Takes `entry` out of the links of the active list. */
    method BypassActive(entry: Item, eprev: Item?, ghost k: nat)
      requires Linked(timers, active) && Distinct(active) && entry in active && k == |Before(active, entry)|
      requires eprev == if k == 0 then null else active[k - 1]
      modifies this`timers, this`active, active`tnext
      ensures active == Without(old(active), entry) && Linked(timers, active)
      ensures k < |old(active)| && Entries(active) == old(Entries(active))[..k] + old(Entries(active))[k + 1..]
    {
      hide *;
      ghost var s, es := active, Entries(active);
      SplitEntries(s, es, k);
      SkippedWithout(s, entry);
      timers := Bypass(timers, entry, eprev, s, k);
      active := Without(s, entry);
      assert Entries(s) == es;
    }

    method AddDeltaToNext(entry: Item, ghost k: nat)
      requires Linked(timers, active) && Distinct(active) && k < |active| && active[k] == entry
      modifies active`tvSec
      ensures Entries(active) == PassedOn(old(Entries(active)), k)
    {
      hide Entries;
      if k + 1 < |active| { OnlyAt(active, k + 1); }
      hide Distinct;
      if entry.tnext != null {
        entry.tnext.tvSec := entry.tnext.tvSec + entry.tvSec;
      }
    }

    /**
     remove_from_timer_list.  It clears the item's link even if the item is on the pending list:
     the pending items behind it are then no longer reachable.
     */
    method RemoveFromTimerList(entry: Item)
      requires Valid()
      modifies this`timers, this`active, this`pending, active`tnext, active`tvSec, entry`tnext, entry`tvSec
      ensures Valid() && entry !in active && entry.tvSec == 0
      ensures active == Without(old(active), entry)
      ensures Entries(active) == if entry in old(active)
                                 then RemoveAt(old(Entries(active)), |Before(old(active), entry)|)
                                 else old(Entries(active))
      ensures pending == UpTo(old(pending), entry)
    {
      hide ListOk, Entries, Before, Without, UpTo, RemoveAt, Distinct;
      WithoutContents(active, entry) by { DistinctList(timers, active); }
      RemoveActive(entry);
      ClearLink(entry);
    }

    method RemoveActive(entry: Item)
      requires ListOk(timers, active)
      requires ListOk(timersNew, pending) && Disjoint(active, pending)
      modifies this`timers, this`active, active`tnext, active`tvSec
      ensures ListOk(timers, active) && ListOk(timersNew, pending)
      ensures active == Without(old(active), entry)
      ensures Entries(active) == if entry in old(active)
                                 then RemoveAt(old(Entries(active)), |Before(old(active), entry)|)
                                 else old(Entries(active))
    {
      hide *;
      DistinctList(timers, active);
      var eprev, e := FindIn(timers, entry, active);
      DisjointSymmetric(active, pending);
      if e != null {
        UnlinkActive(entry, eprev);
      }
    }

    /** Clears the link and the delay of the item, which ends the pending list there if the item is on it. */
    method ClearLink(entry: Item)
      requires ListOk(timersNew, pending)
      modifies this`pending, entry`tnext, entry`tvSec
      ensures ListOk(timersNew, pending) && entry.tvSec == 0 && entry.tnext == null
      ensures pending == UpTo(old(pending), entry)
    {
      hide Entries, Before;
      ghost var s := pending;
      UpToDistinct(s, entry);
      hide Distinct, UpTo;
      entry.tnext := null;
      entry.tvSec := 0;
      pending := UpTo(s, entry);
    }

    /** remove_from_timer_list_new, for an item that is not on the active list. */
    method RemoveFromTimerListNew(entry: Item)
      requires Valid() && entry !in active
      modifies this`timersNew, this`pending, pending`tnext, entry`tnext, entry`tvSec
      ensures Valid() && entry !in pending && entry.tvSec == 0
      ensures pending == Without(old(pending), entry)
      ensures Entries(active) == old(Entries(active))
    {
      hide *;
      ghost var s := pending;
      ValidFacts();
      WithoutContents(s, entry);
      WithoutList(s, entry);
      var eprev, e := FindIn(timersNew, entry, s);
      if e != null {
        timersNew := Bypass(timersNew, entry, eprev, s, |Before(s, entry)|);
      }
      pending := Without(s, entry);
      assert Linked(timersNew, pending);
      assert forall i :: 0 <= i < |pending| ==> pending[i] != entry;
      entry.tnext := null;
      entry.tvSec := 0;
      MakeValid();
    }

    /** The two removals at the start of update_expiration. */
    method Detach(entry: Item)
      requires Valid()
      modifies this`timers, this`timersNew, this`active, this`pending
      modifies active`tnext, active`tvSec, pending`tnext, entry`tnext, entry`tvSec
      ensures Valid() && entry !in active && entry !in pending
      ensures active == Without(old(active), entry)
      ensures pending == Before(old(pending), entry)
      ensures Sched() == Schedule(old(abstime), Removed(old(Entries(active)), entry), Ahead(old(Entries(pending)), entry))
    {
      hide *;
      ghost var ahead := Before(pending, entry);
      ValidFacts();
      WithoutUpTo(pending, entry);
      UpToPrefix(pending, entry);
      AheadIs(pending, entry);
      RemovedIs(active, entry);
      assert forall i :: 0 <= i < |ahead| ==> ahead[i] !in active && ahead[i] != entry;
      ghost var es := Entries(ahead);
      RemoveFromTimerList(entry);
      assert Entries(ahead) == es;
      RemoveFromTimerListNew(entry);
      assert Entries(ahead) == es;
      SchedIs();
    }

    /** insert_to_timer_list_new */
    method InsertToTimerListNew(entry: Item)
      requires Valid() && entry !in active && entry !in pending && entry.tvSec >= 0
      modifies this`timersNew, this`pending, entry`tnext
      ensures Valid() && pending == [entry] + old(pending)
      ensures Entries(active) == old(Entries(active))
      ensures Entries(pending) == [Entry(entry, entry.tvSec)] + old(Entries(pending))
    {
      hide *;
      ghost var s := pending;
      ValidFacts();
      NewHead(timersNew, s, entry);
      assert forall i :: 0 <= i < |s| ==> s[i] != entry;
      assert forall i :: 0 <= i < |active| ==> active[i] != entry;
      assert Linked(timersNew, s);
      entry.tnext := timersNew;
      timersNew := entry;
      pending := [entry] + s;
      LinkedCons(entry, s);
      MakeValid();
    }

    // ----- The steps of an expiration pass -----

    ghost function Sched(): Schedule<Item>
      reads this, active`tvSec, pending`tvSec
    {
      Schedule(abstime, Entries(active), Entries(pending))
    }

    /** Unlinks the head of the active list. */
    method PopActive() returns (e: Item)
      requires Valid() && timers != null
      modifies this`timers, this`active, active`tnext
      ensures Valid() && old(active) != [] && e == old(active)[0] && e !in active && e !in pending
      ensures active == old(active)[1..] && Entries(active) == old(Entries(active))[1..]
      ensures Entries(pending) == old(Entries(pending))
    {
      hide *;
      ghost var s := active;
      ValidFacts();
      LinkedTail(timers, s);
      e := timers;
      timers := e.tnext;
      assert forall i :: 0 <= i < |s[1..]| ==> s[1..][i] != e;
      assert Linked(timers, s[1..]);
      e.tnext := null;
      active := s[1..];
      MakeValid();
    }

    /** Moves every pending item to its place in the active list. */
    method DrainPending(ts: Timespec, ghost all: set<Item>) returns (ts': Timespec)
      requires Valid() && ts.Normal()
      requires forall x :: x in active || x in pending ==> x in all
      modifies this`timers, this`timersNew, this`active, this`pending, all`tnext, all`tvSec
      ensures Valid() && pending == [] && ts'.Normal()
      ensures Queue(ts', Entries(active)) == Drain(Queue(ts, old(Entries(active))), old(Entries(pending)))
      ensures multiset(active) == multiset(old(active)) + multiset(old(pending))
    {
      hide *;
      ValidFacts();
      ts' := ts;
      var e := timersNew;
      ghost var rest := pending;
      ListMade(timers, active);
      ListMade(timersNew, pending);
      while e != null
        invariant ListOk(timers, active) && ListOk(e, rest) && ts'.Normal()
        invariant forall i :: 0 <= i < |rest| ==> rest[i] !in active
        invariant multiset(active) + multiset(rest) == multiset(old(active)) + multiset(old(pending))
        invariant Drain(Queue(ts', Entries(active)), Entries(rest)) ==
                  Drain(Queue(ts, old(Entries(active))), old(Entries(pending)))
        invariant forall i :: 0 <= i < |active| ==> active[i] in all
        invariant forall i :: 0 <= i < |rest| ==> rest[i] in all
        decreases |rest|
      {
        var enext := e.tnext;
        ts' := DrainOne(ts', e, rest, all);
        rest := rest[1..];
        e := enext;
      }
      timersNew := null;
      pending := [];
      DistinctList(timers, active);
      NothingPending(ts', active, rest);
      MakeValid();
    }

    /** Takes the head's delta, leaving zero. */
    method TakeHeadDelta() returns (d: int)
      requires ListOk(timers, active) && timers != null
      modifies active`tvSec
      ensures active != [] && d == old(Entries(active))[0].delta
      ensures Entries(active) == [Entry(active[0], 0)] + old(Entries(active))[1..]
      ensures ListOk(timers, active)
    {
      hide Entries;
      OnlyAt(active, 0);
      d := timers.tvSec;
      timers.tvSec := 0;
    }

    /** Moves the head's delta into the timeout and remembers when that ends. */
    method ArmHead(ts: Timespec, now: Timespec) returns (tp: Option<Timespec>)
      requires Valid() && pending == [] && ts.Normal() && now.Normal()
      modifies this`abstime, active`tvSec
      ensures Valid() && Sched() == Arm(Queue(ts, old(Entries(active))), old(Sched()), now)
      ensures tp.Some? <==> active != []
      ensures tp.Some? ==> tp.value.Plus(now) == abstime
    {
      hide *;
      tp := None;
      ValidFacts();
      ListMade(timers, active);
      ArmIs(Queue(ts, Entries(active)), Sched(), now);
      if timers != null {
        var d := TakeHeadDelta();
        var timeout := Timespec(ts.sec + d, ts.nsec);
        abstime := timeout.Plus(now);
        tp := Some(timeout);
        DistinctList(timers, active);
      }
      MakeValid();
      SchedIs();
    }

    lemma SchedIs()
      ensures Sched() == Schedule(abstime, Entries(active), Entries(pending))
    {
    }

    /** The lists in memory are a valid schedule, so what is proved about schedules holds of them. */
    lemma SchedIsValid()
      requires Valid()
      ensures Sched().Valid() && Items(Sched().active) == active && Items(Sched().pending) == pending
    {
      hide Entries, Linked;
      ItemsOfEntries(active);
      ItemsOfEntries(pending);
      ValidFacts();
    }

    lemma ArmIs(q: Queue<Item>, s: Schedule<Item>, now: Timespec)
      requires q == Queue(q.timeout, Entries(active)) && q.timeout.Normal() && now.Normal()
      requires Linked(timers, active) && pending == []
      ensures timers == null <==> active == []
      ensures Entries(pending) == []
      ensures active == [] ==> q.entries == [] && Arm(q, s, now) == Schedule(s.abstime, [], [])
      ensures active != [] ==>
                && Arm(q, s, now) == Schedule(Timespec(q.timeout.sec + q.entries[0].delta, q.timeout.nsec).Plus(now),
                                             [Entry(active[0], 0)] + q.entries[1..], [])
                && Timespec(q.timeout.sec + q.entries[0].delta, q.timeout.nsec).Plus(now).Normal()
    {
      if active != [] {
        TimespecArithmetic(Timespec(q.timeout.sec + q.entries[0].delta, q.timeout.nsec), now);
      }
    }

    method DrainOne(ts: Timespec, e: Item, ghost rest: seq<Item>, ghost all: set<Item>) returns (ts': Timespec)
      requires ListOk(timers, active) && ListOk(e, rest) && ts.Normal()
      requires forall i :: 0 <= i < |rest| ==> rest[i] !in active
      requires forall i :: 0 <= i < |active| ==> active[i] in all
      requires forall i :: 0 <= i < |rest| ==> rest[i] in all
      modifies this`timers, this`active, all`tnext, all`tvSec
      ensures ListOk(timers, active) && rest != [] && ListOk(old(e.tnext), rest[1..]) && ts'.Normal()
      ensures forall i :: 0 <= i < |rest[1..]| ==> rest[1..][i] !in active
      ensures forall i :: 0 <= i < |active| ==> active[i] in all
      ensures multiset(active) + multiset(rest[1..]) == multiset(old(active)) + multiset(rest)
      ensures Drain(Queue(ts', Entries(active)), Entries(rest[1..])) ==
              Drain(Queue(ts, old(Entries(active))), old(Entries(rest)))
    {
      hide *;
      DistinctList(e, rest);
      DistinctList(timers, active);
      LinkedTail(e, rest);
      ghost var s := active;
      NextRequest(ts, s, e, rest);
      assert forall i :: 0 <= i < |rest[1..]| ==> rest[1..][i] != e;
      assert forall i :: 0 <= i < |s| ==> s[i] != e;
      ListMade(e.tnext, rest[1..]);
      e.tnext := null;
      ghost var k;
      ts', k := InsertToTimerList(ts, e);
      InsertedContents(s, k, e);
      InsertedDistinct(s, k, e);
      ListMade(timers, active);
      assert forall i :: 0 <= i < |active| ==> active[i] in active;
    }

    lemma ValidFacts()
      requires Valid()
      ensures Linked(timers, active) && Distinct(active) && NonNegative(Entries(active))
      ensures Linked(timersNew, pending) && Distinct(pending) && NonNegative(Entries(pending))
      ensures abstime.Normal() && Disjoint(active, pending)
      ensures forall i :: 0 <= i < |pending| ==> pending[i] !in active
      ensures forall i :: 0 <= i < |active| ==> active[i] !in pending
    {
      hide Linked, Distinct, NonNegative, Entries;
      DisjointSymmetric(active, pending);
      assert forall i :: 0 <= i < |active| ==> active[i] in active;
    }

    lemma MakeValid()
      requires Linked(timers, active) && Distinct(active) && NonNegative(Entries(active))
      requires Linked(timersNew, pending) && Distinct(pending) && NonNegative(Entries(pending))
      requires abstime.Normal()
      requires forall x :: x in pending ==> x !in active
      ensures Valid()
    {
      hide Linked, Distinct, NonNegative, Entries;
    }
  }

  lemma ItemsOfEntries(s: seq<Item>)
    ensures Items(Entries(s)) == s
  {
    hide Entries;
  }

  /** The entries in front of an item are those of the items in front of it. */
  lemma AheadIs(s: seq<Item>, x: Item)
    requires Distinct(s)
    ensures Ahead(Entries(s), x) == Entries(Before(s, x))
    ensures forall i :: 0 <= i < |Before(s, x)| ==> Before(s, x)[i] in s && Before(s, x)[i] != x
  {
    hide Entries, Before;
    ItemsOfEntries(s);
    assert forall i :: 0 <= i < |Before(s, x)| ==> Before(s, x)[i] == s[i];
    assert forall i :: 0 <= i < |Before(s, x)| ==> Before(s, x)[i] in Before(s, x);
  }

  lemma RemovedIs(s: seq<Item>, x: Item)
    ensures Removed(Entries(s), x) == if x in s then RemoveAt(Entries(s), |Before(s, x)|) else Entries(s)
  {
    hide Entries, Before, RemoveAt;
    ItemsOfEntries(s);
  }

  lemma BeforeAt(s: seq<Item>, x: Item, k: nat)
    requires k <= |s| && x !in s[..k] && (k < |s| ==> s[k] == x)
    ensures x in s <==> k < |s|
    ensures k < |s| ==> |Before(s, x)| == k
  {
    assert s == s[..k] + s[k..];
    if k < |s| {
      assert forall i :: 0 <= i < k ==> s[i] in s[..k];
      assert forall i :: 0 <= i < |Before(s, x)| ==> s[i] == Before(s, x)[i];
    }
  }
}
