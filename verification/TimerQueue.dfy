/**
 The delta-encoded timer queue of the passphrase cache, on values.  An entry stores its deadline
 as the seconds after its predecessor's deadline; the head counts from a seconds/nanoseconds timeout.
 */
module TimerQueue {

  const NANOS := 1_000_000_000
  const HALF := 500_000_000
  const UNUSED_SLOT_SECONDS := 60 * 30

  datatype Timespec = Timespec(sec: int, nsec: int) {
    ghost predicate Normal() {
      0 <= nsec < NANOS
    }
    function Ns(): int {
      sec * NANOS + nsec
    }
    predicate Before(t: Timespec) {
      if sec == t.sec then nsec < t.nsec else sec < t.sec
    }
    function Minus(t: Timespec): Timespec {
      if nsec - t.nsec < 0 then Timespec(sec - t.sec - 1, nsec - t.nsec + NANOS)
      else Timespec(sec - t.sec, nsec - t.nsec)
    }
    function Plus(t: Timespec): Timespec {
      if nsec + t.nsec >= NANOS then Timespec(sec + t.sec + 1, nsec + t.nsec - NANOS)
      else Timespec(sec + t.sec, nsec + t.nsec)
    }
  }

  const ZERO := Timespec(0, 0)

  lemma TimespecArithmetic(a: Timespec, b: Timespec)
    requires a.Normal() && b.Normal()
    ensures a.Minus(b).Normal() && a.Minus(b).Ns() == a.Ns() - b.Ns()
    ensures a.Plus(b).Normal() && a.Plus(b).Ns() == a.Ns() + b.Ns()
    ensures a.Before(b) <==> a.Ns() < b.Ns()
  {
  }

  datatype Entry<T> = Entry(item: T, delta: int)

  ghost function Items<T>(es: seq<Entry<T>>): (s: seq<T>)
    ensures |s| == |es|
    ensures forall i :: 0 <= i < |es| ==> s[i] == es[i].item
  {
    seq(|es|, i requires 0 <= i < |es| => es[i].item)
  }

  ghost predicate NonNegative<T>(es: seq<Entry<T>>) {
    forall i :: 0 <= i < |es| ==> es[i].delta >= 0
  }

  /** The deadline of every entry, in nanoseconds on the scale of `base`. */
  ghost function DeadlinesFrom<T>(base: int, es: seq<Entry<T>>): map<T, int>
    decreases es
  {
    if es == [] then map[]
    else
      var d := base + es[0].delta * NANOS;
      DeadlinesFrom(d, es[1..])[es[0].item := d]
  }

  // ----- Insertion -----

  /** Insertion away from the head, `d` seconds after the timeout. */
  function Place<T>(es: seq<Entry<T>>, item: T, d: int): seq<Entry<T>> {
    if es == [] then [Entry(item, d)]
    else if es[0].delta > d then [Entry(item, d), Entry(es[0].item, es[0].delta - d)] + es[1..]
    else [es[0]] + Place(es[1..], item, d - es[0].delta)
  }

  /** The correction of the old head when a new head takes over the timeout. */
  function Rebase<T>(ts: Timespec, es: seq<Entry<T>>, req: int): seq<Entry<T>> {
    if es == [] then []
    else
      [Entry(es[0].item, es[0].delta + (ts.sec - req) + if ts.nsec >= HALF then 1 else 0)] + es[1..]
  }

  datatype Queue<T> = Queue(timeout: Timespec, entries: seq<Entry<T>>) {
    ghost function Deadlines(): map<T, int> {
      DeadlinesFrom(timeout.Ns(), entries)
    }
    ghost predicate Valid() {
      timeout.Normal() && NonNegative(entries)
    }
  }

  /** insert_to_timer_list for an item that asks to expire in `req` seconds. */
  function Insert<T>(q: Queue<T>, item: T, req: int): Queue<T> {
    if q.entries == [] || q.timeout.sec >= req then
      Queue(Timespec(req, 0), [Entry(item, 0)] + Rebase(q.timeout, q.entries, req))
    else
      Queue(q.timeout, Place(q.entries, item, req - q.timeout.sec))
  }

  /** How far a head insertion moves the deadlines: it rounds the nanoseconds away. */
  function Rounding(nsec: int): int {
    if nsec >= HALF then NANOS - nsec else -nsec
  }

  lemma ItemsOfCons<T>(e: Entry<T>, es: seq<Entry<T>>)
    ensures Items([e] + es) == [e.item] + Items(es)
  {
  }

  lemma NonNegativeCons<T>(e: Entry<T>, es: seq<Entry<T>>)
    ensures NonNegative([e] + es) <==> e.delta >= 0 && NonNegative(es)
  {
    assert ([e] + es)[0] == e;
    assert forall i :: 0 <= i < |es| ==> ([e] + es)[i + 1] == es[i];
  }

  lemma InsertedCons<T>(x: T, s: seq<T>, j: nat, y: T)
    requires j <= |s|
    ensures [x] + (s[..j] + [y] + s[j..]) == ([x] + s)[..j + 1] + [y] + ([x] + s)[j + 1..]
  {
  }

  lemma PlaceIs<T>(es: seq<Entry<T>>, item: T, d: int)
    ensures es == [] ==> Place(es, item, d) == [Entry(item, d)] + []
    ensures es != [] && es[0].delta > d ==>
              Place(es, item, d) == [Entry(item, d)] + ([Entry(es[0].item, es[0].delta - d)] + es[1..])
    ensures es != [] && es[0].delta <= d ==> Place(es, item, d) == [es[0]] + Place(es[1..], item, d - es[0].delta)
  {
  }

  lemma {:induction false} PlaceShape<T>(es: seq<Entry<T>>, item: T, d: int) returns (k: nat)
    requires NonNegative(es) && d >= 0
    ensures k <= |es|
    ensures Items(Place(es, item, d)) == Items(es)[..k] + [item] + Items(es)[k..]
    ensures NonNegative(Place(es, item, d))
  {
    hide Place, Items, NonNegative;
    PlaceIs(es, item, d);
    k := 0;
    if es == [] {
      ItemsOfCons(Entry(item, d), []);
      NonNegativeCons(Entry(item, d), []);
      assert Items(es)[..0] + [item] + Items(es)[0..] == [item] + Items(es);
    } else {
      var rest := es[1..];
      assert es == [es[0]] + rest;
      ItemsOfCons(es[0], rest);
      NonNegativeCons(es[0], rest);
      if es[0].delta > d {
        var next := Entry(es[0].item, es[0].delta - d);
        ItemsOfCons(next, rest);
        NonNegativeCons(next, rest);
        ItemsOfCons(Entry(item, d), [next] + rest);
        NonNegativeCons(Entry(item, d), [next] + rest);
        assert Items(es)[..0] + [item] + Items(es)[0..] == [item] + Items(es);
      } else {
        var j := PlaceShape(rest, item, d - es[0].delta);
        k := j + 1;
        ItemsOfCons(es[0], Place(rest, item, d - es[0].delta));
        NonNegativeCons(es[0], Place(rest, item, d - es[0].delta));
        InsertedCons(es[0].item, Items(rest), j, item);
      }
    }
  }

  /** Away from the head no existing deadline moves. */
  lemma {:induction false} PlaceDeadlines<T>(base: int, es: seq<Entry<T>>, item: T, d: int)
    requires item !in Items(es)
    ensures DeadlinesFrom(base, Place(es, item, d)) == DeadlinesFrom(base, es)[item := base + d * NANOS]
    decreases es
  {
    if es != [] {
      var p := Place(es, item, d);
      var b := base + es[0].delta * NANOS;
      assert es[0].item in Items(es) by { assert Items(es)[0] == es[0].item; }
      if es[0].delta > d {
        var mid := base + d * NANOS;
        assert p[1..][1..] == es[1..];
        assert DeadlinesFrom(mid, p[1..]) == DeadlinesFrom(b, es[1..])[es[0].item := b];
      } else {
        assert p[1..] == Place(es[1..], item, d - es[0].delta);
        assert Items(es[1..]) == Items(es)[1..];
        PlaceDeadlines(b, es[1..], item, d - es[0].delta);
      }
    } else {
      assert Place(es, item, d)[1..] == [];
    }
  }

  ghost function Shifted<T>(m: map<T, int>, shift: int): map<T, int> {
    map x | x in m :: m[x] + shift
  }

  lemma ShiftedUpdate<T>(m: map<T, int>, x: T, d: int, shift: int)
    ensures Shifted(m[x := d], shift) == Shifted(m, shift)[x := d + shift]
  {
  }

  lemma {:induction false} ShiftDeadlines<T>(base: int, shift: int, es: seq<Entry<T>>)
    ensures DeadlinesFrom(base + shift, es) == Shifted(DeadlinesFrom(base, es), shift)
    decreases es
  {
    if es != [] {
      ShiftDeadlines(base + es[0].delta * NANOS, shift, es[1..]);
      assert base + shift + es[0].delta * NANOS == base + es[0].delta * NANOS + shift;
    }
  }

  /** A head insertion drops the fraction of the timeout, any other insertion keeps it. */
  predicate InsertsAtHead<T>(q: Queue<T>, req: int) {
    q.entries == [] || q.timeout.sec >= req
  }

  /** The correction of the old head moves all deadlines by the rounding. */
  lemma RebaseDeadlines<T>(ts: Timespec, es: seq<Entry<T>>, req: int)
    requires ts.Normal()
    ensures DeadlinesFrom(req * NANOS, Rebase(ts, es, req)) == Shifted(DeadlinesFrom(ts.Ns(), es), Rounding(ts.nsec))
  {
    if es == [] {
      assert Rebase(ts, es, req) == [];
    } else {
      var rest, head := es[1..], Rebase(ts, es, req)[0];
      var shift, before := Rounding(ts.nsec), ts.Ns() + es[0].delta * NANOS;
      assert es == [es[0]] + rest && Rebase(ts, es, req) == [head] + rest && head.item == es[0].item;
      assert req * NANOS + head.delta * NANOS == before + shift;
      hide DeadlinesFrom, Rebase, Rounding;
      DeadlinesCons(ts.Ns(), es[0], rest);
      DeadlinesCons(req * NANOS, head, rest);
      ShiftDeadlines(before, shift, rest);
      ShiftedUpdate(DeadlinesFrom(before, rest), es[0].item, before, shift);
    }
  }

  lemma RebaseShape<T>(ts: Timespec, es: seq<Entry<T>>, req: int)
    requires NonNegative(es) && (es == [] || ts.sec >= req)
    ensures Items(Rebase(ts, es, req)) == Items(es) && NonNegative(Rebase(ts, es, req))
  {
  }

  lemma HeadInsertion<T>(q: Queue<T>, item: T, req: int)
    requires q.Valid() && item !in Items(q.entries) && InsertsAtHead(q, req)
    ensures var q' := Insert(q, item, req);
            && q'.Valid()
            && Items(q'.entries) == [item] + Items(q.entries)
            && q'.Deadlines() == Shifted(q.Deadlines(), Rounding(q.timeout.nsec))[item := req * NANOS]
  {
    hide DeadlinesFrom, Items, NonNegative, Rebase, Rounding, Shifted;
    var rebased := Rebase(q.timeout, q.entries, req);
    RebaseShape(q.timeout, q.entries, req);
    RebaseDeadlines(q.timeout, q.entries, req);
    ItemsOfCons(Entry(item, 0), rebased);
    NonNegativeCons(Entry(item, 0), rebased);
    DeadlinesCons(req * NANOS, Entry(item, 0), rebased);
    assert req * NANOS + 0 * NANOS == req * NANOS;
  }

  /**
   Insertion: the order of the queue is kept; away from the head every old deadline is kept; at the
   head all old deadlines move by one common amount of at most half a second; the new deadline is
   the requested one plus the fraction of a second that the timeout then has.
   */
  lemma InsertSpec<T>(q: Queue<T>, item: T, req: int) returns (k: nat, shift: int)
    requires q.Valid() && req >= 0 && item !in Items(q.entries)
    ensures k <= |q.entries|
    ensures Items(Insert(q, item, req).entries) == Inserted(Items(q.entries), k, item)
    ensures Insert(q, item, req).Valid()
    ensures -HALF <= shift <= HALF
    ensures InsertsAtHead(q, req) ==> k == 0
    ensures !InsertsAtHead(q, req) ==> shift == 0
    ensures Settled(q.timeout.nsec, Insert(q, item, req).timeout.nsec, shift)
    ensures Insert(q, item, req).Deadlines() ==
            Shifted(q.Deadlines(), shift)[item := req * NANOS + Insert(q, item, req).timeout.nsec]
  {
    if InsertsAtHead(q, req) {
      k, shift := 0, Rounding(q.timeout.nsec);
      HeadInsertion(q, item, req);
      hide DeadlinesFrom, Items, NonNegative, Rebase;
      assert Items(q.entries)[..0] + [item] + Items(q.entries)[0..] == [item] + Items(q.entries);
    } else {
      k := PlaceShape(q.entries, item, req - q.timeout.sec);
      shift := 0;
      PlaceDeadlines(q.timeout.Ns(), q.entries, item, req - q.timeout.sec);
      assert Shifted(q.Deadlines(), 0) == q.Deadlines();
    }
  }

  /** How many seconds after the timeout the entry at `i` is due. */
  ghost function Offset<T>(es: seq<Entry<T>>, i: nat): int
    requires i < |es|
  {
    es[0].delta + if i == 0 then 0 else Offset(es[1..], i - 1)
  }

  lemma {:induction false} OffsetsGrow<T>(es: seq<Entry<T>>, i: nat)
    requires NonNegative(es) && i < |es|
    ensures Offset(es, i) >= es[0].delta
  {
    if i > 0 {
      assert forall j :: 0 <= j < |es[1..]| ==> es[1..][j] == es[j + 1];
      OffsetsGrow(es[1..], i - 1);
    }
  }

  /** The entries in front of the new one are due no later, those behind it later. */
  lemma {:induction false} PlacePosition<T>(es: seq<Entry<T>>, item: T, d: int) returns (k: nat)
    requires NonNegative(es) && d >= 0
    ensures k <= |es| && Items(Place(es, item, d)) == Inserted(Items(es), k, item)
    ensures forall i :: 0 <= i < k ==> Offset(es, i) <= d
    ensures forall i :: k <= i < |es| ==> d < Offset(es, i)
  {
    hide Place, Items;
    PlaceIs(es, item, d);
    k := 0;
    if es == [] || es[0].delta > d {
      forall i | 0 <= i < |es|
        ensures d < Offset(es, i)
      {
        OffsetsGrow(es, i);
      }
      PlacedFirst(es, item, d);
    } else {
      var rest, d' := es[1..], d - es[0].delta;
      assert es == [es[0]] + rest;
      NonNegativeCons(es[0], rest);
      var j := PlacePosition(rest, item, d');
      k := j + 1;
      ItemsOfCons(es[0], rest);
      ItemsOfCons(es[0], Place(rest, item, d'));
      InsertedCons(es[0].item, Items(rest), j, item);
      assert forall i :: 0 < i < |es| ==> Offset(es, i) == es[0].delta + Offset(rest, i - 1);
      forall i | k <= i < |es|
        ensures d < Offset(es, i)
      {
        assert d' < Offset(rest, i - 1);
      }
    }
  }

  lemma PlacedFirst<T>(es: seq<Entry<T>>, item: T, d: int)
    requires es == [] || es[0].delta > d
    ensures Items(Place(es, item, d)) == Inserted(Items(es), 0, item)
  {
  }

  /**
   Where an insertion puts the new entry.  One that is due before the timeout ends, in whole seconds,
   or comes to an empty queue, becomes the head; the timeout is then its request, and all others move
   to the nearest whole second of the old timeout.  Any other goes behind all entries that are due no
   later than it, and the timeout stays.
   */
  lemma InsertPlaces<T>(q: Queue<T>, item: T, req: int) returns (k: nat)
    requires q.Valid() && req >= 0 && item !in Items(q.entries)
    ensures k <= |q.entries| && Items(Insert(q, item, req).entries) == Inserted(Items(q.entries), k, item)
    ensures q.entries == [] || q.timeout.sec >= req ==>
              && k == 0 && Insert(q, item, req).timeout == Timespec(req, 0)
              && forall x :: x in q.Deadlines() ==>
                   && x in Insert(q, item, req).Deadlines()
                   && Insert(q, item, req).Deadlines()[x] ==
                      q.Deadlines()[x] + if q.timeout.nsec >= 500_000_000 then 1_000_000_000 - q.timeout.nsec else -q.timeout.nsec
    ensures q.entries != [] && q.timeout.sec < req ==>
              && Insert(q, item, req).timeout == q.timeout
              && (forall i :: 0 <= i < k ==> q.timeout.sec + Offset(q.entries, i) <= req)
              && (forall i :: k <= i < |q.entries| ==> req < q.timeout.sec + Offset(q.entries, i))
  {
    if InsertsAtHead(q, req) {
      k := 0;
      HeadInsertion(q, item, req);
      DeadlineKeys(q.timeout.Ns(), q.entries);
      hide DeadlinesFrom, Items, NonNegative, Rebase;
      assert Items(q.entries)[..0] + [item] + Items(q.entries)[0..] == [item] + Items(q.entries);
    } else {
      k := PlacePosition(q.entries, item, req - q.timeout.sec);
    }
  }

  lemma InsertValid<T>(q: Queue<T>, item: T, req: int)
    requires q.Valid() && req >= 0
    ensures Insert(q, item, req).Valid()
  {
    if !InsertsAtHead(q, req) {
      var _ := PlaceShape(q.entries, item, req - q.timeout.sec);
    }
  }

  // ----- Removal -----

  /** The part of a list in front of an item, or the whole list if the item is not on it. */
  ghost function Before<T>(s: seq<T>, x: T): (r: seq<T>)
    ensures x !in r && r <= s
    ensures x !in s ==> r == s
    ensures x in s ==> |r| < |s| && s[|r|] == x
  {
    if s == [] || s[0] == x then [] else [s[0]] + Before(s[1..], x)
  }

  ghost function UpTo<T>(s: seq<T>, x: T): (r: seq<T>)
    ensures r <= s
  {
    if x in s then s[..|Before(s, x)| + 1] else s
  }

  ghost function Without<T>(s: seq<T>, x: T): (r: seq<T>)
    ensures x !in s ==> r == s
    ensures x in s ==> r == s[..|Before(s, x)|] + s[|Before(s, x)| + 1..]
  {
    if s == [] then []
    else if s[0] == x then s[1..]
    else
      assert s == [s[0]] + s[1..];
      [s[0]] + Without(s[1..], x)
  }

  lemma DistinctTail<T>(s: seq<T>)
    requires s != []
    ensures Distinct(s) <==> s[0] !in s[1..] && Distinct(s[1..])
  {
    assert forall i :: 0 <= i < |s| - 1 ==> s[1..][i] == s[i + 1];
    if s[0] !in s[1..] && Distinct(s[1..]) {
      assert forall i, j :: 0 < i < j < |s| ==> s[i] == s[1..][i - 1] && s[j] == s[1..][j - 1];
    }
  }

  lemma {:induction false} WithoutContents<T>(s: seq<T>, x: T)
    requires Distinct(s)
    ensures Distinct(Without(s, x))
    ensures forall y :: y in Without(s, x) <==> y in s && y != x
  {
    if s != [] {
      hide Distinct, Before;
      DistinctTail(s);
      assert s == [s[0]] + s[1..];
      if s[0] != x {
        WithoutContents(s[1..], x);
        var w := Without(s[1..], x);
        assert ([s[0]] + w)[1..] == w;
        DistinctTail([s[0]] + w);
      }
    }
  }

  /** Unlinking an entry hands its delta to its successor. */
  function RemoveAt<T>(es: seq<Entry<T>>, k: nat): seq<Entry<T>>
    requires k < |es|
  {
    if k + 1 == |es| then es[..k]
    else es[..k] + [Entry(es[k + 1].item, es[k + 1].delta + es[k].delta)] + es[k + 2..]
  }

  /** The entries without that of `x`, whose delta goes to the next one. */
  ghost function Removed<T>(es: seq<Entry<T>>, x: T): seq<Entry<T>> {
    if x in Items(es) then RemoveAt(es, |Before(Items(es), x)|) else es
  }

  /** The entries in front of that of `x`. */
  ghost function Ahead<T>(es: seq<Entry<T>>, x: T): seq<Entry<T>> {
    es[..|Before(Items(es), x)|]
  }

  lemma RemoveAtTail<T>(es: seq<Entry<T>>, k: nat)
    requires 0 < k < |es|
    ensures RemoveAt(es, k) == [es[0]] + RemoveAt(es[1..], k - 1)
  {
    var rest := es[1..];
    var r, t := RemoveAt(es, k), RemoveAt(rest, k - 1);
    assert |r| == |es| - 1 && |t| == |rest| - 1;
    assert r[0] == es[0];
    forall i | 0 < i < |r|
      ensures r[i] == t[i - 1]
    {
      assert rest[i - 1] == es[i] && (i < |rest| ==> rest[i] == es[i + 1]);
    }
    assert r == [es[0]] + t;
  }

  lemma RemoveHeadDeadlines<T>(base: int, es: seq<Entry<T>>)
    requires |es| >= 1
    ensures DeadlinesFrom(base, RemoveAt(es, 0)) == DeadlinesFrom(base + es[0].delta * NANOS, es[1..])
  {
    if |es| == 1 { return; }
    var r := RemoveAt(es, 0);
    assert r[1..] == es[1..][1..];
    assert base + r[0].delta * NANOS == base + es[0].delta * NANOS + es[1].delta * NANOS;
  }

  /** Removal keeps every other deadline. */
  lemma {:induction false} RemoveDeadlines<T>(base: int, es: seq<Entry<T>>, k: nat)
    requires k < |es| && Distinct(Items(es))
    ensures DeadlinesFrom(base, RemoveAt(es, k)) == DeadlinesFrom(base, es) - {es[k].item}
    decreases es
  {
    hide *;
    var b := base + es[0].delta * NANOS;
    var x, y, m := es[0].item, es[k].item, DeadlinesFrom(b, es[1..]);
    FirstIsNew(es, k);
    DeadlinesCons(base, es[0], es[1..]);
    DeadlineKeys(b, es[1..]);
    assert [es[0]] + es[1..] == es;
    if k > 0 {
      RemoveDeadlines(b, es[1..], k - 1);
      RemoveAtTail(es, k);
      DeadlinesCons(base, es[0], RemoveAt(es[1..], k - 1));
      RemoveOther(m, x, b, y);
    } else {
      RemoveOther(m, x, b, x);
      RemoveHeadDeadlines(base, es);
    }
  }

  lemma RemoveOther<T>(m: map<T, int>, x: T, b: int, y: T)
    requires x !in m
    ensures m[x := b] - {y} == if x == y then m else (m - {y})[x := b]
  {
  }

  lemma DeadlinesCons<T>(base: int, e: Entry<T>, rest: seq<Entry<T>>)
    ensures DeadlinesFrom(base, [e] + rest) ==
            DeadlinesFrom(base + e.delta * NANOS, rest)[e.item := base + e.delta * NANOS]
  {
    assert ([e] + rest)[1..] == rest;
  }

  lemma FirstIsNew<T>(es: seq<Entry<T>>, k: nat)
    requires k < |es| && Distinct(Items(es))
    ensures es[0].item !in Items(es[1..]) && Distinct(Items(es[1..]))
    ensures k > 0 ==> es[k].item != es[0].item
  {
    assert Items(es)[1..] == Items(es[1..]);
    DistinctTail(Items(es));
    assert es[k].item == Items(es)[k];
  }

  // ----- Draining the pending list -----

  /** Inserts the pending entries, first one first; their `delta` is the requested time. */
  function Drain<T>(q: Queue<T>, pending: seq<Entry<T>>): Queue<T>
    decreases pending
  {
    if pending == [] then q
    else Drain(Insert(q, pending[0].item, pending[0].delta), pending[1..])
  }

  ghost predicate Distinct<T>(s: seq<T>) {
    forall i, j :: 0 <= i < j < |s| ==> s[i] != s[j]
  }

  ghost predicate Disjoint<T>(s: seq<T>, t: seq<T>) {
    forall x :: x in s ==> x !in t
  }

  lemma {:induction false} DeadlineKeys<T>(base: int, es: seq<Entry<T>>)
    ensures forall x :: x in DeadlinesFrom(base, es) <==> x in Items(es)
    decreases es
  {
    if es != [] {
      DeadlineKeys(base + es[0].delta * NANOS, es[1..]);
      assert Items(es) == [es[0].item] + Items(es[1..]);
    }
  }

  ghost function Inserted<T>(items: seq<T>, k: nat, x: T): seq<T>
    requires k <= |items|
  {
    items[..k] + [x] + items[k..]
  }

  lemma InsertedContents<T>(items: seq<T>, k: nat, x: T)
    requires k <= |items|
    ensures multiset(Inserted(items, k, x)) == multiset(items) + multiset{x}
    ensures forall y :: y in Inserted(items, k, x) <==> y == x || y in items
  {
    assert items == items[..k] + items[k..];
    forall y
      ensures y in Inserted(items, k, x) <==> y == x || y in items
    {
      assert y in items <==> y in items[..k] || y in items[k..];
    }
  }

  /** The pending entries that remain after one insertion are still new to the queue. */
  lemma RestIsNew<T>(items: seq<T>, pending: seq<Entry<T>>)
    requires pending != []
    requires Distinct(Items(pending)) && Disjoint(Items(pending), items)
    ensures pending[0].item !in items
    ensures Distinct(Items(pending[1..])) && Disjoint(Items(pending[1..]), items)
    ensures pending[0].item !in Items(pending[1..])
    ensures multiset(Items(pending)) == multiset{pending[0].item} + multiset(Items(pending[1..]))
  {
    var all, rest := Items(pending), Items(pending[1..]);
    assert all == [pending[0].item] + rest;
    assert all[0] in all;
    assert forall i :: 0 <= i < |rest| ==> rest[i] == all[i + 1];
  }

  /** The two ways the fraction of the timeout and the old deadlines can end up. */
  ghost predicate Settled(nsec: int, nsec': int, shift: int) {
    (shift == 0 && nsec' == nsec) || (shift == Rounding(nsec) && nsec' == 0)
  }

  /** `m'` has every deadline of `m`, all moved by `shift`. */
  ghost predicate MovedBy<T>(m: map<T, int>, m': map<T, int>, shift: int) {
    forall x :: x in m ==> x in m' && m'[x] == m[x] + shift
  }

  ghost predicate WithinASecond<T>(pending: seq<Entry<T>>, m: map<T, int>) {
    forall i :: 0 <= i < |pending| ==>
      pending[i].item in m && pending[i].delta * NANOS <= m[pending[i].item] <= (pending[i].delta + 1) * NANOS
  }

  lemma RoundingTwice(nsec: int, nsec': int, first: int, second: int)
    requires 0 <= nsec < NANOS && Settled(nsec, nsec', first)
    requires second == 0 || second == Rounding(nsec')
    ensures -HALF <= first + second <= HALF
    ensures first + second == 0 || first + second == Rounding(nsec)
    ensures second == Rounding(nsec') ==> first + second == Rounding(nsec)
    ensures 0 <= nsec' + second <= NANOS
  {
  }

  /** What the drain may rely on after its first insertion. */
  lemma DrainStep<T>(q: Queue<T>, pending: seq<Entry<T>>, q': Queue<T>) returns (shift: int)
    requires pending != [] && q.Valid() && NonNegative(pending)
    requires Distinct(Items(pending)) && Disjoint(Items(pending), Items(q.entries))
    requires q' == Insert(q, pending[0].item, pending[0].delta)
    ensures q'.Valid() && NonNegative(pending[1..])
    ensures Distinct(Items(pending[1..])) && Disjoint(Items(pending[1..]), Items(q'.entries))
    ensures multiset(Items(q'.entries)) + multiset(Items(pending[1..]))
         == multiset(Items(q.entries)) + multiset(Items(pending))
    ensures pending[0].item !in q.Deadlines()
    ensures Settled(q.timeout.nsec, q'.timeout.nsec, shift)
    ensures q'.Deadlines() ==
            Shifted(q.Deadlines(), shift)[pending[0].item := pending[0].delta * NANOS + q'.timeout.nsec]
  {
    hide *;
    assert pending == [pending[0]] + pending[1..];
    NonNegativeCons(pending[0], pending[1..]);
    RestIsNew(Items(q.entries), pending);
    NewDeadline(q, pending[0].item);
    var k;
    k, shift := InsertSpec(q, pending[0].item, pending[0].delta);
    StillDisjoint(Items(pending[1..]), Items(q.entries), k, pending[0].item);
  }

  lemma NewDeadline<T>(q: Queue<T>, x: T)
    requires x !in Items(q.entries)
    ensures x !in q.Deadlines()
  {
    hide DeadlinesFrom, Items;
    DeadlineKeys(q.timeout.Ns(), q.entries);
  }

  lemma StillDisjoint<T>(rest: seq<T>, items: seq<T>, k: nat, x: T)
    requires k <= |items| && Disjoint(rest, items) && x !in rest
    ensures Disjoint(rest, Inserted(items, k, x))
    ensures multiset(Inserted(items, k, x)) == multiset(items) + multiset{x}
  {
    InsertedContents(items, k, x);
  }

  /** Any number of pending entries: nothing is lost and nothing is added. */
  lemma {:induction false} DrainContents<T>(q: Queue<T>, pending: seq<Entry<T>>)
    requires q.Valid() && NonNegative(pending)
    requires Distinct(Items(pending)) && Disjoint(Items(pending), Items(q.entries))
    ensures Drain(q, pending).Valid()
    ensures multiset(Items(Drain(q, pending).entries)) == multiset(Items(q.entries)) + multiset(Items(pending))
    decreases pending
  {
    if pending != [] {
      hide Insert, Items, Distinct, Disjoint, DeadlinesFrom;
      var q1 := Insert(q, pending[0].item, pending[0].delta);
      var _ := DrainStep(q, pending, q1);
      DrainContents(q1, pending[1..]);
    }
  }

  /**
   Any number of pending entries: the common shift of the old deadlines stays the one rounding of
   the first head insertion, and every pending entry lands within one second of its request.
   */
  lemma {:induction false} DrainSpec<T>(q: Queue<T>, pending: seq<Entry<T>>) returns (shift: int)
    requires q.Valid() && NonNegative(pending)
    requires Distinct(Items(pending)) && Disjoint(Items(pending), Items(q.entries))
    ensures -HALF <= shift <= HALF
    ensures shift == 0 || shift == Rounding(q.timeout.nsec)
    ensures MovedBy(q.Deadlines(), Drain(q, pending).Deadlines(), shift)
    ensures WithinASecond(pending, Drain(q, pending).Deadlines())
    decreases pending
  {
    if pending == [] {
      shift := 0;
    } else {
      hide *;
      DrainCons(q, pending);
      var q1 := Insert(q, pending[0].item, pending[0].delta);
      var first := DrainStep(q, pending, q1);
      var second := DrainSpec(q1, pending[1..]);
      RoundingTwice(q.timeout.nsec, q1.timeout.nsec, first, second);
      shift := first + second;
      MovedTwice(q.Deadlines(), q1.Deadlines(), Drain(q1, pending[1..]).Deadlines(), pending[0].item,
                 pending[0].delta * NANOS + q1.timeout.nsec, first, second);
      WithinASecondStep(pending, Drain(q, pending).Deadlines());
    }
  }

  lemma DrainCons<T>(q: Queue<T>, pending: seq<Entry<T>>)
    requires q.Valid() && NonNegative(pending) && pending != []
    ensures Drain(q, pending) == Drain(Insert(q, pending[0].item, pending[0].delta), pending[1..])
    ensures 0 <= q.timeout.nsec < NANOS
  {
    hide Insert;
  }

  lemma MovedTwice<T>(m: map<T, int>, m1: map<T, int>, m2: map<T, int>, item: T, d: int, first: int, second: int)
    requires item !in m && m1 == Shifted(m, first)[item := d] && MovedBy(m1, m2, second)
    ensures MovedBy(m, m2, first + second)
    ensures item in m2 && m2[item] == d + second
  {
    assert item in m1;
    assert forall x :: x in m ==> x in m1 && m1[x] == m[x] + first;
  }

  lemma WithinASecondStep<T>(pending: seq<Entry<T>>, m: map<T, int>)
    requires pending != [] && WithinASecond(pending[1..], m)
    requires pending[0].item in m && 0 <= m[pending[0].item] - pending[0].delta * NANOS <= NANOS
    ensures WithinASecond(pending, m)
  {
    forall i | 0 <= i < |pending|
      ensures pending[i].item in m && pending[i].delta * NANOS <= m[pending[i].item] <= (pending[i].delta + 1) * NANOS
    {
      if i > 0 { assert pending[i] == pending[1..][i - 1]; }
    }
  }

  // ----- One expiration pass -----

  /** The static anchor time, the active list and the list of newly scheduled entries. */
  datatype Schedule<T> = Schedule(abstime: Timespec, active: seq<Entry<T>>, pending: seq<Entry<T>>) {
    ghost predicate Valid()
    {
      && abstime.Normal() && NonNegative(active) && NonNegative(pending)
      && Distinct(Items(active)) && Distinct(Items(pending))
      && forall i, j :: 0 <= i < |pending| && 0 <= j < |active| ==> pending[i].item != active[j].item
    }
    /** The absolute deadlines of the active entries. */
    ghost function Deadlines(): map<T, int> {
      DeadlinesFrom(abstime.Ns(), active)
    }
    predicate Expired(now: Timespec) {
      active != [] && abstime.Before(now)
    }
    predicate Pops(now: Timespec) {
      Expired(now) && active[0].delta == 0
    }
    function Remaining(now: Timespec): seq<Entry<T>> {
      if Pops(now) then active[1..] else active
    }
    /** A popped entry that still held a password goes back on the pending list for half an hour. */
    function Requests(now: Timespec, heldPassword: bool): seq<Entry<T>> {
      if Pops(now) && heldPassword then [Entry(active[0].item, UNUSED_SLOT_SECONDS)] + pending else pending
    }
    function Timeout(now: Timespec): Timespec {
      if Expired(now) || active == [] then ZERO else abstime.Minus(now)
    }
  }

  /** The head's delta moves into the timeout, which becomes the new anchor. */
  function Arm<T>(q: Queue<T>, s: Schedule<T>, now: Timespec): Schedule<T> {
    if q.entries == [] then Schedule(s.abstime, [], [])
    else
      Schedule(Timespec(q.timeout.sec + q.entries[0].delta, q.timeout.nsec).Plus(now),
               [Entry(q.entries[0].item, 0)] + q.entries[1..], [])
  }

  function Pass<T>(s: Schedule<T>, now: Timespec, heldPassword: bool): Schedule<T> {
    Arm(Drain(Queue(s.Timeout(now), s.Remaining(now)), s.Requests(now, heldPassword)), s, now)
  }

  lemma ArmSpec<T>(q: Queue<T>, s: Schedule<T>, now: Timespec)
    requires q.Valid() && now.Normal() && s.abstime.Normal()
    ensures var a := Arm(q, s, now);
            && a.pending == [] && Items(a.active) == Items(q.entries) && NonNegative(a.active) && a.abstime.Normal()
            && (a.active != [] ==> a.active[0].delta == 0)
            && a.Deadlines() == Shifted(q.Deadlines(), now.Ns())
  {
    hide DeadlinesFrom, Items, NonNegative, Timespec.Plus, Timespec.Normal, Timespec.Ns, Shifted;
    if q.entries == [] {
      NoDeadlines<T>(s.abstime.Ns(), now.Ns());
      NoDeadlines<T>(q.timeout.Ns(), now.Ns());
    } else {
      var head, rest := q.entries[0], q.entries[1..];
      var d, end := ArmedTime(q.timeout, head.delta, now);
      assert q.entries == [head] + rest;
      ItemsOfCons(head, rest);
      ItemsOfCons(Entry(head.item, 0), rest);
      NonNegativeCons(head, rest);
      NonNegativeCons(Entry(head.item, 0), rest);
      DeadlinesCons(q.timeout.Ns(), head, rest);
      DeadlinesCons(end, Entry(head.item, 0), rest);
      ShiftDeadlines(d, now.Ns(), rest);
      ShiftedUpdate(DeadlinesFrom(d, rest), head.item, d, now.Ns());
    }
  }

  lemma NoDeadlines<T>(base: int, shift: int)
    ensures DeadlinesFrom<T>(base, []) == map[] && Shifted<T>(map[], shift) == map[]
  {
  }

  /** When an armed timeout ends. */
  lemma ArmedTime(timeout: Timespec, delta: int, now: Timespec) returns (d: int, end: int)
    requires timeout.Normal() && now.Normal()
    ensures d == timeout.Ns() + delta * NANOS && end == d + now.Ns() && end + 0 * NANOS == end
    ensures var t := Timespec(timeout.sec + delta, timeout.nsec).Plus(now); t.Normal() && t.Ns() == end
  {
    var armed := Timespec(timeout.sec + delta, timeout.nsec);
    TimespecArithmetic(armed, now);
    d := timeout.Ns() + delta * NANOS;
    end := d + now.Ns();
    assert armed.Ns() == d;
  }

  /** The deadlines left after the pop, before anything is inserted. */
  lemma RemainingDeadlines<T>(s: Schedule<T>, now: Timespec)
    requires s.Valid() && now.Normal()
    ensures var late := if s.Expired(now) then now.Ns() - s.abstime.Ns() else 0;
            var left := DeadlinesFrom(s.Timeout(now).Ns(), s.Remaining(now));
            forall x :: x in left ==> x in s.Deadlines() && left[x] + now.Ns() == s.Deadlines()[x] + late
  {
    if s.active != [] {
      TimespecArithmetic(s.abstime, now);
      var gap := s.Timeout(now).Ns() - s.abstime.Ns();
      ShiftDeadlines(s.abstime.Ns(), gap, s.Remaining(now));
      if s.Pops(now) {
        DeadlineKeys(s.abstime.Ns(), s.active[1..]);
        assert s.active[0].item !in Items(s.active[1..]) by {
          assert Items(s.active)[0] == s.active[0].item;
          assert forall i :: 0 <= i < |s.active| - 1 ==> Items(s.active[1..])[i] == Items(s.active)[i + 1];
        }
        assert s.abstime.Ns() + s.active[0].delta * NANOS == s.abstime.Ns();
      }
    }
  }

  lemma PassIsFresh<T>(s: Schedule<T>, now: Timespec, heldPassword: bool)
    requires s.Valid()
    ensures NonNegative(s.Requests(now, heldPassword)) && NonNegative(s.Remaining(now))
    ensures Distinct(Items(s.Requests(now, heldPassword)))
    ensures Disjoint(Items(s.Requests(now, heldPassword)), Items(s.Remaining(now)))
  {
    var requests, left := s.Requests(now, heldPassword), s.Remaining(now);
    if s.Pops(now) {
      assert forall j :: 0 <= j < |left| ==> left[j].item == Items(s.active)[j + 1] == s.active[j + 1].item;
      assert Items(s.active)[0] == s.active[0].item;
    }
    assert forall i, j :: 0 <= i < |requests| && 0 <= j < |left| ==> requests[i].item != left[j].item;
    forall x | x in Items(requests)
      ensures x !in Items(left)
    {
      var i :| 0 <= i < |requests| && Items(requests)[i] == x;
      assert requests[i].item == x;
    }
    assert forall i, j :: 0 <= i < j < |s.pending| ==> s.pending[i].item == Items(s.pending)[i] && s.pending[j].item == Items(s.pending)[j];
    assert forall i, j :: 0 <= i < j < |requests| ==> requests[i].item != requests[j].item;
  }

  /**
   One expiration pass.  The pending list is drained, the active list keeps exactly the entries it
   had (less a popped head), gains the requests, and is armed at its head.  Every surviving absolute
   deadline moves by one common amount: how late the pass is, if the anchor time has passed, plus
   at most half a second.  Every request is met within one second.
   */
  lemma PassSpec<T>(s: Schedule<T>, now: Timespec, heldPassword: bool) returns (shift: int)
    requires s.Valid() && now.Normal()
    ensures -HALF <= shift <= HALF
    ensures var s' := Pass(s, now, heldPassword);
            && s'.pending == [] && s'.abstime.Normal() && NonNegative(s'.active)
            && (s'.active != [] ==> s'.active[0].delta == 0)
            && multiset(Items(s'.active)) ==
               multiset(Items(s.Remaining(now))) + multiset(Items(s.Requests(now, heldPassword)))
    ensures var late := if s.Expired(now) then now.Ns() - s.abstime.Ns() else 0;
            forall i :: 0 <= i < |s.Remaining(now)| ==>
              var x := s.Remaining(now)[i].item;
              && x in s.Deadlines() && x in Pass(s, now, heldPassword).Deadlines()
              && Pass(s, now, heldPassword).Deadlines()[x] == s.Deadlines()[x] + late + shift
    ensures forall i :: 0 <= i < |s.Requests(now, heldPassword)| ==>
              var e := s.Requests(now, heldPassword)[i];
              && e.item in Pass(s, now, heldPassword).Deadlines()
              && e.delta * NANOS <= Pass(s, now, heldPassword).Deadlines()[e.item] - now.Ns() <= (e.delta + 1) * NANOS
  {
    var left, requests := s.Remaining(now), s.Requests(now, heldPassword);
    var q := Queue(s.Timeout(now), left);
    PassIsFresh(s, now, heldPassword);
    if s.active != [] { TimespecArithmetic(s.abstime, now); }
    shift := DrainSpec(q, requests);
    DrainContents(q, requests);
    ArmSpec(Drain(q, requests), s, now);
    RemainingDeadlines(s, now);
    DeadlineKeys(s.Timeout(now).Ns(), left);
    hide DeadlinesFrom, Drain, Arm;
    forall i | 0 <= i < |left|
      ensures left[i].item in q.Deadlines()
    {
      assert Items(left)[i] == left[i].item;
    }
  }
}
