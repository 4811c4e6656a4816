/**
 Where the answers of the passphrase cache come from: what a get returns was put before under the
 same key, and a restricted session sees nothing that was put for another one.
 */
module CacheOrigin {
  import opened Bytes
  import opened CacheLifetime
  import opened CacheModel
  import opened CacheSlots
  import opened TimerLists
  import opened TimerQueue
  import opened Wrappers

  /** The operation is a put that is not dropped and whose string is encrypted as `secret`. */
  ghost predicate Puts(opts: Options, cipher: Cipher, op: Op, secret: Secret) {
    && op.DoPut? && op.WellFormed() && op.data.Some?
    && Stores(opts, op.q.mode, true, op.ttl) && NewData(cipher, op.data.value, op.fill) == Some(secret)
  }

  /** One of the operations put the data of the slot. */
  ghost predicate Filled(opts: Options, cipher: Cipher, ops: seq<Op>, slot: Slot)
    requires slot.pw.Some?
  {
    exists i :: 0 <= i < |ops| && Puts(opts, cipher, ops[i], slot.pw.value) && ops[i].q.key == slot.key
                && ops[i].q.mode == slot.mode && (ops[i].q.restricted == slot.restricted || slot.mode == Pin)
  }

  /** One of the operations put something under the key and for the restriction of the slot. */
  ghost predicate Founded(opts: Options, cipher: Cipher, ops: seq<Op>, slot: Slot) {
    exists i, secret :: 0 <= i < |ops| && Puts(opts, cipher, ops[i], secret) && ops[i].q.key == slot.key
                        && ops[i].q.restricted == slot.restricted
  }

  ghost predicate Explained(opts: Options, cipher: Cipher, ops: seq<Op>, slot: Slot) {
    Founded(opts, cipher, ops, slot) && (slot.pw.Some? ==> Filled(opts, cipher, ops, slot))
  }

  ghost predicate AllExplained(opts: Options, cipher: Cipher, ops: seq<Op>, slots: seq<Slot>) {
    forall k :: 0 <= k < |slots| ==> Explained(opts, cipher, ops, slots[k])
  }

  lemma ExplainedLater(opts: Options, cipher: Cipher, ops: seq<Op>, op: Op, slot: Slot)
    requires Explained(opts, cipher, ops, slot)
    ensures Explained(opts, cipher, ops + [op], slot)
  {
    hide NewData, Stores;
    var more := ops + [op];
    var i, secret :| 0 <= i < |ops| && Puts(opts, cipher, ops[i], secret) && ops[i].q.key == slot.key
                     && ops[i].q.restricted == slot.restricted;
    assert more[i] == ops[i];
    if slot.pw.Some? {
      var j :| 0 <= j < |ops| && Puts(opts, cipher, ops[j], slot.pw.value) && ops[j].q.key == slot.key
               && ops[j].q.mode == slot.mode && (ops[j].q.restricted == slot.restricted || slot.mode == Pin);
      assert more[j] == ops[j];
    }
  }

  /** A slot that lost its data is still explained. */
  lemma ExplainedCleared(opts: Options, cipher: Cipher, ops: seq<Op>, slot: Slot)
    requires Explained(opts, cipher, ops, slot)
    ensures Explained(opts, cipher, ops, slot.(pw := None))
  {
    hide NewData, Stores;
    var i, secret :| 0 <= i < |ops| && Puts(opts, cipher, ops[i], secret) && ops[i].q.key == slot.key
                     && ops[i].q.restricted == slot.restricted;
  }

  lemma NewIsExplained(opts: Options, cipher: Cipher, ops: seq<Op>, op: Op, secret: Secret, ttl: int)
    requires Puts(opts, cipher, op, secret)
    ensures Explained(opts, cipher, ops + [op], Slot(op.q.key, op.q.restricted, op.q.mode, Some(secret), ttl, op.at))
  {
    hide NewData, Stores;
    assert (ops + [op])[|ops|] == op;
  }

  lemma ReplacedIsExplained(opts: Options, cipher: Cipher, ops: seq<Op>, op: Op, st: Store, slot: Slot)
    requires Explained(opts, cipher, ops, slot) && op.DoPut? && slot.key == op.q.key
    requires op.q.mode != Pin ==> slot.restricted == op.q.restricted
    requires st.secret.Some? ==> Puts(opts, cipher, op, st.secret.value)
    ensures Explained(opts, cipher, ops + [op], Slot(op.q.key, slot.restricted, op.q.mode, st.secret, st.ttl, st.now))
  {
    ExplainedLater(opts, cipher, ops, op, slot);
    hide NewData, Stores;
    var more := ops + [op];
    var i, secret :| 0 <= i < |more| && Puts(opts, cipher, more[i], secret) && more[i].q.key == slot.key
                     && more[i].q.restricted == slot.restricted;
    assert more[|ops|] == op;
  }

  lemma PutExplains(opts: Options, cipher: Cipher, ops: seq<Op>, op: Op, slots: seq<Slot>)
    requires AllExplained(opts, cipher, ops, slots) && op.DoPut? && op.WellFormed()
    requires Stores(opts, op.q.mode, op.data.Some?, op.ttl)
    ensures AllExplained(opts, cipher, ops + [op],
                         PutSlots(slots, op.q, StoreOf(opts, cipher, op.q, op.data, op.ttl, op.at, op.fill)))
  {
    var st := StoreOf(opts, cipher, op.q, op.data, op.ttl, op.at, op.fill);
    var r := PutSlots(slots, op.q, st);
    assert st.data == op.data.Some? && (st.secret.Some? ==> Puts(opts, cipher, op, st.secret.value)) && st.now == op.at;
    assert r == [Slot(op.q.key, op.q.restricted, op.q.mode, st.secret, st.ttl, st.now)] + slots ==> r == slots || st.secret.Some? by {
      assert |r| != |slots| ==> st.secret.Some?;
    }
    var k := PutTouches(slots, op.q, st);
    hide PutSlots, StoreOf, Explained, Puts, Stores;
    forall i | 0 <= i < |r|
      ensures Explained(opts, cipher, ops + [op], r[i])
    {
      if r == slots {
        ExplainedLater(opts, cipher, ops, op, slots[i]);
      } else if |r| == |slots| + 1 {
        if i == 0 {
          NewIsExplained(opts, cipher, ops, op, st.secret.value, st.ttl);
        } else {
          assert r[i] == slots[i - 1];
          ExplainedLater(opts, cipher, ops, op, slots[i - 1]);
        }
      } else if i != k {
        ExplainedLater(opts, cipher, ops, op, slots[i]);
      } else if st.data {
        ReplacedIsExplained(opts, cipher, ops, op, st, slots[k]);
      } else {
        ExplainedLater(opts, cipher, ops, op, slots[k]);
        ExplainedCleared(opts, cipher, ops + [op], slots[k]);
      }
    }
  }

  lemma EventExplained(opts: Options, cipher: Cipher, ops: seq<Op>, op: Op, slots: seq<Slot>, e: Event)
    requires AllExplained(opts, cipher, ops, slots) && Possible(slots, e) && !e.Put?
    ensures AllExplained(opts, cipher, ops + [op], Apply(slots, e))
  {
    hide Explained;
    var r := Apply(slots, e);
    forall i | 0 <= i < |r|
      ensures Explained(opts, cipher, ops + [op], r[i])
    {
      var j := if e.Drop? && i >= e.at then i + 1 else i;
      ExplainedLater(opts, cipher, ops, op, slots[j]);
      ExplainedCleared(opts, cipher, ops + [op], slots[j]);
      assert r[i] == slots[j] || r[i] == slots[j].(pw := None);
    }
  }

  lemma StepExplains<T>(opts: Options, cipher: Cipher, ops: seq<Op>, s: Snap<T>, op: Op, s': Snap<T>)
    requires s.Valid() && op.WellFormed() && StepTo(opts, cipher, s, op, s') && AllExplained(opts, cipher, ops, s.slots)
    ensures AllExplained(opts, cipher, ops + [op], s'.slots)
  {
    StepEvent(opts, cipher, s, op, s');
    hide StepTo, Snap.Valid, AllExplained, PutSlots, StoreOf, Stores, Cleared;
    if op.DoPut? && Stores(opts, op.q.mode, op.data.Some?, op.ttl) {
      PutExplains(opts, cipher, ops, op, s.slots);
    } else {
      EventExplained(opts, cipher, ops, op, s.slots, EventOf(opts, cipher, s, op));
    }
  }

  lemma {:induction false} RunExplains<T>(opts: Options, cipher: Cipher, trace: seq<Snap<T>>, ops: seq<Op>, n: nat)
    requires IsRun(opts, cipher, trace, ops) && trace[0].slots == [] && n <= |ops|
    ensures AllExplained(opts, cipher, ops[..n], trace[n].slots)
    decreases n
  {
    if n > 0 {
      RunExplains(opts, cipher, trace, ops, n - 1);
      hide StepTo, Snap.Valid, AllExplained;
      assert ops[..n] == ops[..n - 1] + [ops[n - 1]];
      StepExplains(opts, cipher, ops[..n - 1], trace[n - 1], ops[n - 1], trace[n - 1 + 1]);
    }
  }

  /**
   In every run from an empty cache, what a get finds was encrypted by an earlier put under the same
   key.  That put was for the same restriction unless it or the request is about a PIN, and for a
   user or nonce request it had that mode or the mode that stands for any.  Moreover some earlier put
   was made under the same key and restriction.
   */
  lemma FoundWasPut<T>(opts: Options, cipher: Cipher, trace: seq<Snap<T>>, ops: seq<Op>, q: Query, secret: Secret)
    requires IsRun(opts, cipher, trace, ops) && trace[0].slots == []
    requires Lookup(trace[|ops|].slots, q) == Some(secret)
    ensures exists i :: 0 <= i < |ops| && Puts(opts, cipher, ops[i], secret) && ops[i].q.key == q.key
                        && (q.mode == Pin || ops[i].q.mode == Pin || ops[i].q.restricted == q.restricted)
                        && (q.mode == User || q.mode == Nonce ==> ops[i].q.mode == q.mode || ops[i].q.mode == Any)
    ensures q.mode != Pin ==>
              exists i, any :: 0 <= i < |ops| && Puts(opts, cipher, ops[i], any) && ops[i].q.key == q.key
                               && ops[i].q.restricted == q.restricted
  {
    RunExplains(opts, cipher, trace, ops, |ops|);
    hide IsRun, StepTo, Lookup, Puts;
    assert ops[..|ops|] == ops;
    var slots := trace[|ops|].slots;
    var k := FoundAt(slots, q, secret);
    assert Explained(opts, cipher, ops, slots[k]);
    var i :| 0 <= i < |ops| && Puts(opts, cipher, ops[i], secret) && ops[i].q.key == slots[k].key
             && ops[i].q.mode == slots[k].mode && (ops[i].q.restricted == slots[k].restricted || slots[k].mode == Pin);
    if q.mode != Pin {
      var j, any :| 0 <= j < |ops| && Puts(opts, cipher, ops[j], any) && ops[j].q.key == slots[k].key
                    && ops[j].q.restricted == slots[k].restricted;
    }
  }

  /** A session is told nothing unless something was put under the key for its restriction. */
  lemma NothingPutNothingFound<T>(opts: Options, cipher: Cipher, trace: seq<Snap<T>>, ops: seq<Op>, q: Query)
    requires IsRun(opts, cipher, trace, ops) && trace[0].slots == []
    requires forall i :: 0 <= i < |ops| && ops[i].DoPut? ==>
               ops[i].q.key != q.key || (q.mode != Pin && ops[i].q.restricted != q.restricted)
    ensures Lookup(trace[|ops|].slots, q) == None
  {
    hide StepTo, Lookup;
    if Lookup(trace[|ops|].slots, q).Some? {
      FoundWasPut(opts, cipher, trace, ops, q, Lookup(trace[|ops|].slots, q).value);
    }
  }
}
