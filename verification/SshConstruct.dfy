/** Building a key from received parameters: the RSA adjustment and the assignment to named slots. */
module SshConstruct {
  import opened Wrappers
  import opened Bytes
  import opened BigEndian
  import opened SshTable

  /** A parameter: a number, or octets that are not one. */
  datatype Value = Number(n: int) | Data(b: bytes)

  datatype Slot = Slot(name: byte, value: Value)

  /** A key S-expression. */
  datatype Key = Key(secret: bool, algo: Algo, curve: Option<bytes>, slots: seq<Slot>)

  /** The first slot with a name. */
  function Find(slots: seq<Slot>, name: byte): Option<Value> {
    if slots == [] then None
    else if slots[0].name == name then Some(slots[0].value)
    else Find(slots[1..], name)
  }

  // ----- The adjustment of RSA secret keys -----

  /** `x` is an inverse of `a` modulo `m`. */
  predicate Inverse(a: int, m: int, x: int)
    requires m > 0
  {
    (a * x) % m == 1 % m
  }

  /** The least inverse that is not below `x`. */
  function InverseFrom(a: int, m: int, x: nat): Option<nat>
    requires m > 0
    decreases m - x
  {
    if x >= m then None else if Inverse(a, m, x) then Some(x) else InverseFrom(a, m, x + 1)
  }

  lemma {:induction false} InverseFound(a: int, m: int, x: nat, y: nat)
    requires m > 0 && x <= y < m && Inverse(a, m, y)
    ensures InverseFrom(a, m, x).Some? && Inverse(a, m, InverseFrom(a, m, x).value)
    decreases y - x
  {
    if x < y && !Inverse(a, m, x) {
      InverseFound(a, m, x + 1, y);
    }
  }

  lemma Congruent(a: int, k: int, m: int)
    requires m > 0
    ensures (a + k * m) % m == a % m
    decreases if k >= 0 then k else -k
  {
    if k > 0 {
      Congruent(a, k - 1, m);
      assert a + k * m == (a + (k - 1) * m) + m;
      OneTurn(a + (k - 1) * m, m);
    } else if k < 0 {
      Congruent(a, k + 1, m);
      assert a + k * m + m == a + (k + 1) * m;
      OneTurn(a + k * m, m);
    }
  }

  lemma OneTurn(a: int, m: int)
    requires m > 0
    ensures (a + m) % m == a % m
  {
    var q, r := a / m, a % m;
    assert a + m == (q + 1) * m + r;
    Quotient(a + m, m, q + 1, r);
  }

  lemma Quotient(a: int, m: int, q: int, r: int)
    requires m > 0 && a == q * m + r && 0 <= r < m
    ensures a % m == r
  {
    var d := q - a / m;
    assert d * m == a % m - r;
    assert d > 0 ==> d * m >= m;
    assert d < 0 ==> d * m <= -m;
  }

  lemma Combine(p: int, q: int, u: int, k: int, t: int, x: int)
    requires q * u == p * k + 1 && -k == q * t + x
    ensures p * x == 1 + (-u - p * t) * q
  {
    assert p * (-k) == p * (q * t) + p * x;
    assert p * (-k) == -(p * k);
    assert (-u - p * t) * q == -(q * u) - p * (q * t);
  }

  /**
   If some multiple of `q` is one modulo `p`, then some multiple of `p` is one modulo `q`: the two
   are coprime.
   */
  lemma InverseExists(p: int, q: int, u: int) returns (x: nat)
    requires p > 0 && q > 0 && Inverse(q, p, u)
    ensures x < q && Inverse(p, q, x)
  {
    if p == 1 {
      x := 1 % q;
      OneIsItsInverse(q);
    } else {
      var k := (q * u) / p;
      assert q * u == p * k + 1;
      x := InverseFromMultiple(p, q, u, k);
    }
  }

  lemma OneIsItsInverse(q: int)
    requires q > 0
    ensures Inverse(1, q, 1 % q)
  {
    if q == 1 {
      assert 1 % q == 0;
    } else {
      assert 1 % q == 1;
    }
  }

  lemma InverseFromMultiple(p: int, q: int, u: int, k: int) returns (x: nat)
    requires q > 0 && q * u == p * k + 1
    ensures x < q && Inverse(p, q, x)
  {
    x := (-k) % q;
    var t := (-k) / q;
    Combine(p, q, u, k, t, x);
    Congruent(1, -u - p * t, q);
  }

  /** What the wire order "nedupq" is adjusted to: the primes in ascending order, and u for them. */
  function Adjusted(elems: bytes, mpis: seq<int>): (r: seq<int>)
    ensures |r| == |mpis|
  {
    if elems != "nedupq" || |mpis| != 6 then mpis
    else if mpis[4] > mpis[5] then mpis[4 := mpis[5]][5 := mpis[4]]
    else if mpis[5] <= 0 || InverseFrom(mpis[4], mpis[5], 0) == None then mpis
    else mpis[3 := InverseFrom(mpis[4], mpis[5], 0).value]
  }

  /** `gcry_mpi_invm`: without an inverse nothing is stored. */
  method Invm(a: int, m: int, u: int) returns (x: int)
    ensures x == if m <= 0 || InverseFrom(a, m, 0) == None then u else InverseFrom(a, m, 0).value
  {
    x := u;
    if m > 0 {
      var r := InverseFrom(a, m, 0);
      if r.Some? {
        x := r.value;
      }
    }
  }

  method KeyModifierRsa(elems: bytes, mpis: array<int>)
    requires |elems| == mpis.Length
    modifies mpis
    ensures mpis[..] == Adjusted(elems, old(mpis[..]))
  {
    hide InverseFrom;
    if elems != "nedupq" {
      return;
    }
    var p, q := mpis[4], mpis[5];
    if p > q {
      mpis[4] := q;
      mpis[5] := p;
    } else {
      mpis[3] := Invm(p, q, mpis[3]);
    }
  }

  // ----- The slots -----

  function IndexOf(s: bytes, c: byte): (i: nat)
    ensures i <= |s| && (i < |s| ==> s[i] == c) && forall j :: 0 <= j < i ==> s[j] != c
  {
    if s == [] || s[0] == c then 0 else 1 + IndexOf(s[1..], c)
  }

  /** The parameters in the order of the names in `order`; `wire` names them in the order received. */
  function Arranged(order: bytes, wire: bytes, mpis: seq<int>): (r: seq<Slot>)
    requires |wire| == |mpis| && forall i :: 0 <= i < |order| ==> order[i] in wire
    ensures |r| == |order|
    ensures forall i :: 0 <= i < |order| ==> r[i].name == order[i]
    ensures forall i :: 0 <= i < |order| ==> r[i].value == Number(mpis[IndexOf(wire, order[i])])
  {
    seq(|order|, i requires 0 <= i < |order| =>
      assert order[i] in wire;
      Slot(order[i], Number(mpis[IndexOf(wire, order[i])])))
  }

  /** The loops of `sexp_key_construct` for keys made of numbers. */
  method FillSlots(order: bytes, wire: bytes, mpis: array<int>, secret: bool) returns (slots: seq<Slot>)
    requires |order| == |wire| == mpis.Length && (!secret ==> order == wire)
    requires forall i :: 0 <= i < |order| ==> order[i] in wire
    requires forall i, j :: 0 <= i < j < |wire| ==> wire[i] != wire[j]
    ensures slots == Arranged(order, wire, mpis[..])
  {
    slots := [];
    for i := 0 to |order|
      invariant |slots| == i
      invariant forall k :: 0 <= k < i ==> slots[k] == Slot(order[k], Number(mpis[IndexOf(wire, order[k])]))
    {
      var j := 0;
      if secret {
        while j < |order|
          invariant 0 <= j <= |order| && forall k :: 0 <= k < j ==> wire[k] != order[i]
        {
          if wire[j] == order[i] {
            break;
          }
          j := j + 1;
        }
      } else {
        j := i;
      }
      assert order[i] in wire;
      assert j == IndexOf(wire, order[i]);
      slots := slots + [Slot(order[i], Number(mpis[j]))];
    }
    assert forall k :: 0 <= k < |order| ==> slots[k] == Arranged(order, wire, mpis[..])[k];
  }

  lemma {:induction false} FindArranged(slots: seq<Slot>, i: nat)
    requires i < |slots| && forall j :: 0 <= j < i ==> slots[j].name != slots[i].name
    ensures Find(slots, slots[i].name) == Some(slots[i].value)
    decreases i
  {
    if i > 0 {
      FindArranged(slots[1..], i - 1);
    }
  }

  /** Every name leads to the value that was received under that name, for any two orders. */
  lemma SlotHoldsItsValue(order: bytes, wire: bytes, mpis: seq<int>, i: nat, k: nat)
    requires |wire| == |mpis| && (forall i :: 0 <= i < |order| ==> order[i] in wire)
    requires i < |order| && k < |wire| && order[i] == wire[k]
    requires (forall j :: 0 <= j < i ==> order[j] != order[i]) && (forall j :: 0 <= j < k ==> wire[j] != wire[k])
    ensures Find(Arranged(order, wire, mpis), wire[k]) == Some(Number(mpis[k]))
  {
    hide Find, IndexOf;
    var slots := Arranged(order, wire, mpis);
    assert slots[i].name == order[i] && IndexOf(wire, order[i]) == k;
    assert slots[i].value == Number(mpis[k]);
    hide Arranged;
    assert forall j :: 0 <= j < i ==> slots[j].name == order[j];
    FindArranged(slots, i);
  }

  const WIRE: bytes := "nedupq"
  const STORED: bytes := "nedpqu"

  lemma RsaNames()
    ensures |WIRE| == |STORED| == 6 && RSA.secretElems == WIRE && RSA.sexpOrder == STORED
    ensures forall i :: 0 <= i < 6 ==> STORED[i] in WIRE
    ensures forall i, j :: 0 <= i < j < 6 ==> STORED[i] != STORED[j] && WIRE[i] != WIRE[j]
  {
    assert WIRE[0] == STORED[0] && WIRE[1] == STORED[1] && WIRE[2] == STORED[2];
    assert WIRE[3] == STORED[5] && WIRE[4] == STORED[3] && WIRE[5] == STORED[4];
  }

  lemma RsaSlot(mpis: seq<int>, k: nat)
    requires |mpis| == 6 && k < 6
    ensures forall i :: 0 <= i < |STORED| ==> STORED[i] in WIRE
    ensures Find(Arranged(STORED, WIRE, mpis), WIRE[k]) == Some(Number(mpis[k]))
  {
    RsaNames();
    hide STORED, WIRE, Find, Arranged;
    var i := PositionOf(k);
    SlotHoldsItsValue(STORED, WIRE, mpis, i, k);
  }

  lemma PositionOf(k: nat) returns (i: nat)
    requires k < 6
    ensures i < 6 && STORED[i] == WIRE[k]
  {
    assert WIRE[0] == STORED[0] && WIRE[1] == STORED[1] && WIRE[2] == STORED[2];
    assert WIRE[3] == STORED[5] && WIRE[4] == STORED[3] && WIRE[5] == STORED[4];
    i := if k < 3 then k else if k == 3 then 5 else k - 1;
  }

  /** The arithmetic of the adjustment. */
  lemma AdjustedPrimes(mpis: seq<int>)
    requires |mpis| == 6 && mpis[4] > 0 && mpis[5] > 0 && Inverse(mpis[5], mpis[4], mpis[3])
    ensures var r := Adjusted(WIRE, mpis);
            && r[..3] == mpis[..3] && r[4] * r[5] == mpis[4] * mpis[5] && 0 < r[4] <= r[5]
            && Inverse(r[4], r[5], r[3])
  {
    var u, p, q := mpis[3], mpis[4], mpis[5];
    if p <= q {
      var x := InverseExists(p, q, u);
      InverseFound(p, q, 0, x);
    }
  }

  /**
   The stored RSA key has the received modulus and exponents, the same two primes in ascending order,
   and as u the inverse of the smaller one modulo the larger, each in the slot of its name.
   */
  lemma RsaKeyIsConsistent(n: int, e: int, d: int, u: int, p: int, q: int)
    requires p > 0 && q > 0 && Inverse(q, p, u)
    ensures forall i :: 0 <= i < |STORED| ==> STORED[i] in WIRE
    ensures var slots := Arranged(STORED, WIRE, Adjusted(WIRE, [n, e, d, u, p, q]));
            && Find(slots, 'n') == Some(Number(n)) && Find(slots, 'e') == Some(Number(e))
            && Find(slots, 'd') == Some(Number(d))
            && exists p', q', u' ::
                 && Find(slots, 'p') == Some(Number(p')) && Find(slots, 'q') == Some(Number(q'))
                 && Find(slots, 'u') == Some(Number(u'))
                 && p' * q' == p * q && {p', q'} == {p, q} && 0 < p' <= q' && Inverse(p', q', u')
  {
    var r := Adjusted(WIRE, [n, e, d, u, p, q]);
    AdjustedPrimes([n, e, d, u, p, q]);
    assert {r[4], r[5]} == {p, q};
    assert r[0] == r[..3][0] && r[1] == r[..3][1] && r[2] == r[..3][2];
    assert WIRE[0] == 'n' && WIRE[1] == 'e' && WIRE[2] == 'd' && WIRE[3] == 'u' && WIRE[4] == 'p' && WIRE[5] == 'q';
    hide Find, Adjusted, Arranged, Inverse, WIRE, STORED;
    RsaSlot(r, 0);
    RsaSlot(r, 1);
    RsaSlot(r, 2);
    RsaSlot(r, 3);
    RsaSlot(r, 4);
    RsaSlot(r, 5);
  }
}
