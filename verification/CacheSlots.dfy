/**
 The passphrase cache seen as a list of slots: which slot a request is for, what a put stores and
 what a get returns.
 */
module CacheSlots {
  import opened Bytes
  import opened TimerLists
  import opened TimerQueue
  import opened Wrappers

  // ----- Stored data -----

  /** AES key wrapping; a run of the agent uses one key throughout. */
  datatype Cipher = Cipher(encrypt: bytes -> Option<bytes>, decrypt: bytes -> Option<bytes>) {
    ghost predicate Lawful() {
      forall m :: encrypt(m).Some? ==>
        |encrypt(m).value| == |m| + 8 && decrypt(encrypt(m).value) == Some(m)
    }
  }

  function PaddedLength(length: nat): nat {
    (length + 8) + 32 - ((length + 8) % 32)
  }

  /** The padded size is a multiple of 32 that has room for the string, its NUL and the wrapping. */
  lemma PaddedLengthFits(length: nat)
    ensures PaddedLength(length) % 32 == 0
    ensures PaddedLength(length) >= 32
    ensures length + 8 < PaddedLength(length) <= length + 40
  {
    var q := (length + 8) / 32;
    assert PaddedLength(length) == 32 * q + 32;
  }

  /** new_data: `fill` is what the buffer happens to hold behind the string. */
  function NewData(cipher: Cipher, s: bytes, fill: bytes): Option<Secret>
    requires |fill| == 32
  {
    var length := |s| + 1;
    var total := PaddedLength(length);
    PaddedLengthFits(length);
    var plain := s + [NUL] + fill[..total - 8 - length];
    match cipher.encrypt(plain)
    case None => None
    case Some(c) => Some(Secret(total, c))
  }

  /** The C string that a hit returns. */
  function ReadData(cipher: Cipher, secret: Secret): Option<bytes> {
    if secret.totallen < 32 then None
    else
      match cipher.decrypt(secret.data)
      case None => None
      case Some(plain) => Some(CString(plain))
  }

  lemma StoredDataIsReadBack(cipher: Cipher, s: bytes, fill: bytes)
    requires cipher.Lawful() && NUL !in s && |fill| == 32
    ensures NewData(cipher, s, fill).Some? ==>
              && ReadData(cipher, NewData(cipher, s, fill).value) == Some(s)
              && |NewData(cipher, s, fill).value.data| == NewData(cipher, s, fill).value.totallen
              && NewData(cipher, s, fill).value.totallen % 32 == 0
  {
    var length := |s| + 1;
    PaddedLengthFits(length);
    var tail := fill[..PaddedLength(length) - 8 - length];
    CStringOfTerminated(s, tail);
  }

  /** What is kept is the ciphertext of the string, its terminator and some padding. */
  lemma StoredIsEncrypted(cipher: Cipher, s: bytes, fill: bytes) returns (pad: bytes)
    requires |fill| == 32
    ensures NewData(cipher, s, fill).Some? <==> cipher.encrypt(s + [NUL] + pad).Some?
    ensures NewData(cipher, s, fill).Some? ==>
              && Some(NewData(cipher, s, fill).value.data) == cipher.encrypt(s + [NUL] + pad)
              && NewData(cipher, s, fill).value.totallen == |s| + 1 + |pad| + 8
  {
    PaddedLengthFits(|s| + 1);
    pad := fill[..PaddedLength(|s| + 1) - 8 - (|s| + 1)];
  }

  // ----- Slots -----

  /** What an item of the cache is about: whose data it holds, since when and for how long. */
  datatype Slot = Slot(key: bytes, restricted: int, mode: CacheMode, pw: Option<Secret>, ttl: int, created: int)

  /** cache_mode_equal */
  predicate ModeEqual(a: CacheMode, b: CacheMode) {
    || (a == Any && !(b == Ignore || b == Data))
    || (b == Any && !(a == Ignore || a == Data))
    || a == b
  }

  datatype Query = Query(key: bytes, mode: CacheMode, restricted: int) {
    /** The test in the search loops of put and, for slots that hold data, of get. */
    predicate Matches(slot: Slot) {
      if mode == Pin then slot.key == key
      else
        && ((mode != User && mode != Nonce) || ModeEqual(slot.mode, mode))
        && slot.restricted == restricted
        && slot.key == key
    }
    predicate Hits(slot: Slot, held: bool) {
      (held ==> slot.pw.Some?) && Matches(slot)
    }
  }

  /** The first slot hit, or the number of slots. */
  function FirstHit(slots: seq<Slot>, q: Query, held: bool): (k: nat)
    ensures k <= |slots|
    ensures k < |slots| ==> q.Hits(slots[k], held)
    ensures forall i :: 0 <= i < k ==> !q.Hits(slots[i], held)
  {
    if slots == [] || q.Hits(slots[0], held) then 0
    else
      var k := FirstHit(slots[1..], q, held);
      assert forall i :: 1 <= i < k + 1 ==> slots[i] == slots[1..][i - 1];
      k + 1
  }

  lemma FirstHitIs(slots: seq<Slot>, q: Query, held: bool, k: nat)
    requires k <= |slots|
    requires k < |slots| ==> q.Hits(slots[k], held)
    requires forall i :: 0 <= i < k ==> !q.Hits(slots[i], held)
    ensures FirstHit(slots, q, held) == k
  {
  }

  /** What agent_get_cache finds. */
  function Lookup(slots: seq<Slot>, q: Query): Option<Secret> {
    var k := FirstHit(slots, q, true);
    if q.mode == Ignore || k == |slots| then None else slots[k].pw
  }

  // ----- Whom a slot answers -----

  /**
   A get finds something if and only if a slot with data may answer it.  For a PIN the key alone
   decides; otherwise the restriction must be that of the request, and a user or nonce request is
   answered only from a slot of its own mode or of the mode that stands for any.
   */
  lemma LookupIff(slots: seq<Slot>, q: Query)
    ensures q.mode == Ignore ==> Lookup(slots, q) == None
    ensures q.mode == Pin ==>
              (Lookup(slots, q).Some? <==> exists i :: 0 <= i < |slots| && slots[i].pw.Some? && slots[i].key == q.key)
    ensures q.mode == User || q.mode == Nonce ==>
              (Lookup(slots, q).Some? <==>
               exists i :: 0 <= i < |slots| && slots[i].pw.Some? && slots[i].key == q.key
                           && slots[i].restricted == q.restricted && (slots[i].mode == q.mode || slots[i].mode == Any))
    ensures q.mode == Normal || q.mode == Any || q.mode == Ssh || q.mode == Data ==>
              (Lookup(slots, q).Some? <==>
               exists i :: 0 <= i < |slots| && slots[i].pw.Some? && slots[i].key == q.key
                           && slots[i].restricted == q.restricted)
  {
    hide FirstHit;
  }

  /** What is found is the data of a slot that may answer, and no slot in front of it may. */
  lemma FoundAt(slots: seq<Slot>, q: Query, secret: Secret) returns (k: nat)
    requires Lookup(slots, q) == Some(secret)
    ensures k < |slots| && slots[k].pw == Some(secret) && slots[k].key == q.key
    ensures q.mode != Pin ==> slots[k].restricted == q.restricted
    ensures q.mode == User || q.mode == Nonce ==> slots[k].mode == q.mode || slots[k].mode == Any
    ensures forall i :: 0 <= i < k && slots[i].pw.Some? && slots[i].key == q.key ==>
              && q.mode != Pin
              && (slots[i].restricted != q.restricted
                  || ((q.mode == User || q.mode == Nonce) && slots[i].mode != q.mode && slots[i].mode != Any))
  {
    k := FirstHit(slots, q, true);
    hide FirstHit;
  }

  /** What agent_put_cache is asked to store; `secret` is the outcome of the encryption. */
  datatype Store = Store(data: bool, secret: Option<Secret>, ttl: int, now: int)

  /** The slot of a put with data: a slot that is replaced keeps its key and restriction. */
  function Stored(key: bytes, restricted: int, mode: CacheMode, st: Store): Slot {
    Slot(key, restricted, mode, st.secret, st.ttl, st.now)
  }

  /** What agent_put_cache leaves behind. */
  function PutSlots(slots: seq<Slot>, q: Query, st: Store): seq<Slot> {
    var k := FirstHit(slots, q, false);
    if k < |slots| then
      if st.data then slots[k := Stored(slots[k].key, slots[k].restricted, q.mode, st)]
      else slots[k := slots[k].(pw := None)]
    else if st.data && st.secret.Some? then [Stored(q.key, q.restricted, q.mode, st)] + slots
    else slots
  }

  /** A stored secret is what a get with the same mode, key and restriction finds. */
  lemma PutThenGet(slots: seq<Slot>, q: Query, st: Store)
    requires q.mode != Ignore && st.data && st.secret.Some?
    ensures Lookup(PutSlots(slots, q, st), q) == st.secret
  {
    var k := FirstHit(slots, q, false);
    var slots' := PutSlots(slots, q, st);
    FirstHitIs(slots', q, true, if k < |slots| then k else 0);
  }

  /** The slots that a put is about. */
  predicate Concerned(slot: Slot, q: Query) {
    if q.mode == Pin then slot.key == q.key
    else if q.mode == User || q.mode == Nonce then
      slot.key == q.key && slot.restricted == q.restricted && (slot.mode == q.mode || slot.mode == Any)
    else slot.key == q.key && slot.restricted == q.restricted
  }

  /**
   What a put does: with data it overwrites the first slot concerned, which keeps its restriction, or
   adds one in front; without data the first slot concerned loses what it has.
   */
  lemma PutIs(slots: seq<Slot>, q: Query, st: Store, k: nat)
    requires k <= |slots| && (k < |slots| ==> Concerned(slots[k], q)) && forall i :: 0 <= i < k ==> !Concerned(slots[i], q)
    requires q.mode != Ignore
    ensures k < |slots| && st.data ==>
              PutSlots(slots, q, st) == slots[k := Slot(q.key, slots[k].restricted, q.mode, st.secret, st.ttl, st.now)]
    ensures k < |slots| && !st.data ==> PutSlots(slots, q, st) == slots[k := slots[k].(pw := None)]
    ensures k == |slots| && st.data && st.secret.Some? ==>
              PutSlots(slots, q, st) == [Slot(q.key, q.restricted, q.mode, st.secret, st.ttl, st.now)] + slots
    ensures k == |slots| && !(st.data && st.secret.Some?) ==> PutSlots(slots, q, st) == slots
  {
    assert forall i :: 0 <= i < |slots| ==> (Concerned(slots[i], q) <==> q.Hits(slots[i], false));
    FirstHitIs(slots, q, false, k);
    hide FirstHit;
  }

  /**
   A put touches at most one slot.  That slot has the key of the put and, but for a PIN, its
   restriction, both of which it keeps; a user or nonce put touches only its own mode or any.
   */
  lemma PutTouches(slots: seq<Slot>, q: Query, st: Store) returns (k: nat)
    ensures var r := PutSlots(slots, q, st);
            || r == slots
            || r == [Slot(q.key, q.restricted, q.mode, st.secret, st.ttl, st.now)] + slots
            || (&& k < |slots| && r == slots[k := r[k]] && slots[k].key == q.key
                && (q.mode != Pin ==> slots[k].restricted == q.restricted)
                && (q.mode == User || q.mode == Nonce ==> slots[k].mode == q.mode || slots[k].mode == Any)
                && r[k] == if st.data then Slot(q.key, slots[k].restricted, q.mode, st.secret, st.ttl, st.now)
                           else slots[k].(pw := None))
  {
    k := FirstHit(slots, q, false);
    hide FirstHit;
  }

  // ----- Runs -----

  /** What the operations of the cache can do to the slots. */
  datatype Event =
    | Put(q: Query, st: Store)
    | Get(q: Query)
    | Clear(hit: set<nat>)     // an expiration or a flush takes the data of these slots
    | Drop(at: nat)            // an unused slot is removed

  predicate Possible(slots: seq<Slot>, e: Event) {
    e.Drop? ==> e.at < |slots|
  }

  function Cleared(slots: seq<Slot>, hit: set<nat>): (r: seq<Slot>)
    ensures |r| == |slots|
    ensures forall i :: 0 <= i < |slots| ==> r[i] == if i in hit then slots[i].(pw := None) else slots[i]
  {
    seq(|slots|, i requires 0 <= i < |slots| => if i in hit then slots[i].(pw := None) else slots[i])
  }

  function Apply(slots: seq<Slot>, e: Event): seq<Slot>
    requires Possible(slots, e)
  {
    match e
    case Put(q, st) => PutSlots(slots, q, st)
    case Get(_) => slots
    case Clear(hit) => Cleared(slots, hit)
    case Drop(at) => slots[..at] + slots[at + 1..]
  }

  /** The event is about other keys: it neither stores under, nor takes data from, `key`. */
  predicate Spares(slots: seq<Slot>, e: Event, key: bytes)
    requires Possible(slots, e)
  {
    match e
    case Put(q, _) => q.key != key
    case Get(_) => true
    case Clear(hit) => forall i :: i in hit && i < |slots| ==> slots[i].key != key
    case Drop(at) => slots[at].key != key
  }

  /** The slots of one key, in order; a lookup depends on nothing else. */
  function Under(slots: seq<Slot>, key: bytes): seq<Slot> {
    if slots == [] then []
    else (if slots[0].key == key then [slots[0]] else []) + Under(slots[1..], key)
  }

  lemma Regroup(a: seq<Slot>, b: seq<Slot>, c: seq<Slot>)
    ensures a + (b + c) == a + b + c
  {
  }

  /** The part of one slot. */
  function Own(slot: Slot, key: bytes): seq<Slot> {
    if slot.key == key then [slot] else []
  }

  lemma UnderCons(slot: Slot, rest: seq<Slot>, key: bytes)
    ensures Under([slot] + rest, key) == Own(slot, key) + Under(rest, key)
  {
    assert ([slot] + rest)[1..] == rest;
  }

  lemma {:induction false} UnderConcat(s: seq<Slot>, t: seq<Slot>, key: bytes)
    ensures Under(s + t, key) == Under(s, key) + Under(t, key)
  {
    hide Under, Own;
    if s == [] {
      assert s + t == t;
      UnderNothing(key);
      assert [] + Under(t, key) == Under(t, key);
    } else {
      assert s == [s[0]] + s[1..];
      Regroup([s[0]], s[1..], t);
      UnderCons(s[0], s[1..], key);
      UnderCons(s[0], s[1..] + t, key);
      UnderConcat(s[1..], t, key);
      Regroup(Own(s[0], key), Under(s[1..], key), Under(t, key));
    }
  }

  lemma UnderNothing(key: bytes)
    ensures Under([], key) == []
  {
  }

  /** A lookup looks at the first slot, and then at the others. */
  lemma LookupCons(slot: Slot, rest: seq<Slot>, q: Query)
    ensures Lookup([slot] + rest, q) == if q.mode != Ignore && q.Hits(slot, true) then slot.pw else Lookup(rest, q)
  {
    assert ([slot] + rest)[1..] == rest;
  }

  lemma {:induction false} LookupUnder(slots: seq<Slot>, q: Query)
    ensures Lookup(slots, q) == Lookup(Under(slots, q.key), q)
  {
    if slots == [] {
      UnderNothing(q.key);
    } else {
      hide Lookup, Under;
      var rest := slots[1..];
      assert slots == [slots[0]] + rest;
      LookupUnder(rest, q);
      LookupCons(slots[0], rest, q);
      UnderCons(slots[0], rest, q.key);
      if slots[0].key == q.key {
        LookupCons(slots[0], Under(rest, q.key), q);
      } else {
        assert [] + Under(rest, q.key) == Under(rest, q.key);
      }
    }
  }

  lemma {:induction false} SameUnder(s: seq<Slot>, t: seq<Slot>, key: bytes)
    requires |s| == |t|
    requires forall i :: 0 <= i < |s| ==> s[i] == t[i] || (s[i].key != key && t[i].key != key)
    ensures Under(s, key) == Under(t, key)
  {
    if s != [] {
      assert forall i :: 0 <= i < |s| - 1 ==> s[1..][i] == s[i + 1] && t[1..][i] == t[i + 1];
      SameUnder(s[1..], t[1..], key);
    }
  }

  lemma SparingEvent(slots: seq<Slot>, e: Event, key: bytes)
    requires Possible(slots, e) && Spares(slots, e, key)
    ensures Under(Apply(slots, e), key) == Under(slots, key)
  {
    match e
    case Put(q, st) =>
      if FirstHit(slots, q, false) < |slots| {
        SameUnder(slots, Apply(slots, e), key);
      } else if st.data && st.secret.Some? {
        UnderConcat([Stored(q.key, q.restricted, q.mode, st)], slots, key);
      }
    case Get(_) =>
    case Clear(hit) =>
      SameUnder(slots, Apply(slots, e), key);
    case Drop(at) =>
      assert slots == slots[..at] + ([slots[at]] + slots[at + 1..]);
      UnderConcat(slots[..at], slots[at + 1..], key);
      UnderConcat(slots[..at], [slots[at]] + slots[at + 1..], key);
      UnderConcat([slots[at]], slots[at + 1..], key);
  }
}
