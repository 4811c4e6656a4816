/**
 Canonical S-expressions: the encoder over trees, the proof that an encoding can be read in one
 way only, and the length reader `snext` that every scanner of such buffers is built on.
 */
module CanonicalSexp {
  import opened Bytes

  datatype Sexp = Atom(data: bytes) | List(items: seq<Sexp>)

  const OPEN: byte := '('
  const CLOSE: byte := ')'
  const COLON: byte := ':'

  function LengthPrefix(n: nat): bytes {
    Decimal(n) + [COLON]
  }

  function Encode(t: Sexp): bytes
    decreases t, 1
  {
    match t
    case Atom(data) => LengthPrefix(|data|) + data
    case List(items) => [OPEN] + EncodeAll(items) + [CLOSE]
  }

  function EncodeAll(ts: seq<Sexp>): bytes
    decreases ts, 0
  {
    if ts == [] then [] else Encode(ts[0]) + EncodeAll(ts[1..])
  }

  /** Two trees and the octets that stand for them. */
  lemma EncodingExamples(data: bytes)
    requires |data| == 120
    ensures Encode(Atom(data)) == "120:" + data
    ensures Encode(List([Atom("d"), Atom("")])) == "(1:d0:)"
    ensures Encode(List([])) == "()"
  {
    assert Decimal(120) == Decimal(12) + ['0'] && Decimal(12) == Decimal(1) + ['2'] && Decimal(1) == ['1'] && Decimal(0) == ['0'];
    assert Encode(Atom("d")) == "1:d" && Encode(Atom("")) == "0:";
    assert EncodeAll([]) == [];
    var ts := [Atom("d"), Atom("")];
    assert ts[1..] == [Atom("")] && ts[1..][1..] == [];
    assert EncodeAll(ts[1..]) == "0:";
    assert EncodeAll(ts) == "1:d0:";
  }

  lemma EncodeStart(t: Sexp)
    ensures |Encode(t)| >= 2
    ensures t.Atom? ==> IsDigit(Encode(t)[0])
    ensures t.List? ==> Encode(t)[0] == OPEN
  {
  }

  lemma {:induction false} EncodeAllConcat(xs: seq<Sexp>, ys: seq<Sexp>)
    ensures EncodeAll(xs + ys) == EncodeAll(xs) + EncodeAll(ys)
  {
    if xs == [] {
      assert xs + ys == ys;
    } else {
      hide EncodeAll, Encode;
      EncodeAllConcat(xs[1..], ys);
      EncodeAllSplit(xs);
      EncodeAllSplit(xs + ys);
      assert (xs + ys)[0] == xs[0] && (xs + ys)[1..] == xs[1..] + ys;
      ConcatAssociative(Encode(xs[0]), EncodeAll(xs[1..]), EncodeAll(ys));
    }
  }

  lemma EncodeAllSplit(xs: seq<Sexp>)
    requires xs != []
    ensures EncodeAll(xs) == Encode(xs[0]) + EncodeAll(xs[1..])
  {
  }

  lemma EncodeAllOne(x: Sexp)
    ensures EncodeAll([x]) == Encode(x)
  {
    assert EncodeAll([x][1..]) == [];
  }

  // ----- An encoding is read in one way only -----

  /** The run of digits in front of a colon is determined by the bytes. */
  lemma {:induction false} DigitRunUnique(a: bytes, x: bytes, b: bytes, y: bytes)
    requires AllDigits(a) && AllDigits(b)
    requires a + [COLON] + x == b + [COLON] + y
    ensures a == b && x == y
  {
    var u, v := a + [COLON] + x, b + [COLON] + y;
    assert u[|a|] == COLON && v[|b|] == COLON;
    assert forall i :: 0 <= i < |a| ==> u[i] == a[i];
    assert forall i :: 0 <= i < |b| ==> v[i] == b[i];
    assert a == u[..|a|] == v[..|b|] == b;
    assert x == u[|a| + 1..] == v[|b| + 1..] == y;
  }

  /** No encoding is a proper prefix of another one, so a buffer holds at most one tree. */
  lemma {:induction false} EncodingIsPrefixFree(t: Sexp, r: bytes, t': Sexp, r': bytes)
    requires Encode(t) + r == Encode(t') + r'
    ensures t == t' && r == r'
    decreases t, 1
  {
    EncodeStart(t);
    EncodeStart(t');
    assert (Encode(t) + r)[0] == Encode(t)[0] && (Encode(t') + r')[0] == Encode(t')[0];
    match (t, t') {
      case (Atom(d), Atom(d')) =>
        assert Encode(t) + r == Decimal(|d|) + [COLON] + (d + r);
        assert Encode(t') + r' == Decimal(|d'|) + [COLON] + (d' + r');
        DigitRunUnique(Decimal(|d|), d + r, Decimal(|d'|), d' + r');
        DecimalRoundTrip(|d|);
        DecimalRoundTrip(|d'|);
        assert d == (d + r)[..|d|] && r == (d + r)[|d|..];
        assert d' == (d' + r')[..|d'|] && r' == (d' + r')[|d'|..];
      case (List(xs), List(xs')) =>
        assert (Encode(t) + r)[1..] == EncodeAll(xs) + [CLOSE] + r;
        assert (Encode(t') + r')[1..] == EncodeAll(xs') + [CLOSE] + r';
        EncodingsArePrefixFree(xs, r, xs', r');
      case _ =>
    }
  }

  lemma {:induction false} EncodingsArePrefixFree(xs: seq<Sexp>, r: bytes, xs': seq<Sexp>, r': bytes)
    requires EncodeAll(xs) + [CLOSE] + r == EncodeAll(xs') + [CLOSE] + r'
    ensures xs == xs' && r == r'
    decreases xs, 0
  {
    var u, v := EncodeAll(xs) + [CLOSE] + r, EncodeAll(xs') + [CLOSE] + r';
    if xs != [] {
      EncodeStart(xs[0]);
      assert u[0] == Encode(xs[0])[0];
    }
    if xs' != [] {
      EncodeStart(xs'[0]);
      assert v[0] == Encode(xs'[0])[0];
    }
    if xs == [] || xs' == [] {
      assert u[0] == v[0];
      assert xs == xs' == [];
      assert r == u[1..] == v[1..] == r';
    } else {
      var s, s' := EncodeAll(xs[1..]) + [CLOSE] + r, EncodeAll(xs'[1..]) + [CLOSE] + r';
      assert u == Encode(xs[0]) + s && v == Encode(xs'[0]) + s';
      EncodingIsPrefixFree(xs[0], s, xs'[0], s');
      EncodingsArePrefixFree(xs[1..], r, xs'[1..], r');
      assert xs == [xs[0]] + xs[1..] && xs' == [xs'[0]] + xs'[1..];
    }
  }

  // ----- The length reader -----

  /** Where the run of digits starting at `pos` stops. */
  function DigitsEnd(s: bytes, pos: nat): (k: nat)
    requires pos <= |s|
    ensures pos <= k <= |s|
    ensures AllDigits(s[pos..k])
    ensures k < |s| ==> !IsDigit(s[k])
    decreases |s| - pos
  {
    if pos < |s| && IsDigit(s[pos]) then
      var k := DigitsEnd(s, pos + 1);
      assert s[pos..k] == [s[pos]] + s[pos + 1..k];
      k
    else pos
  }

  /** What `snext` reads at `pos`: the length and the position of the data, or 0 and no move. */
  function NextLength(s: bytes, pos: nat): (r: (nat, nat))
    requires pos <= |s|
    ensures r.0 == 0 ==> r.1 == pos
    ensures pos <= r.1 <= |s|
  {
    var k := DigitsEnd(s, pos);
    var n := DecimalValue(s[pos..k]);
    if n == 0 || k == |s| || s[k] != COLON then (0, pos) else (n, k + 1)
  }

  /** The scanning loop of `snext`.  The caller guarantees that a non-digit follows. */
  method SNext(buf: array<byte>, pos: nat) returns (n: nat, next: nat)
    requires pos <= buf.Length
    requires exists k :: pos <= k < buf.Length && !IsDigit(buf[k])
    ensures (n, next) == NextLength(buf[..], pos)
  {
    n := 0;
    var s := pos;
    while IsDigit(buf[s])
      invariant pos <= s < buf.Length
      invariant exists k :: s <= k < buf.Length && !IsDigit(buf[k])
      invariant AllDigits(buf[pos..s])
      invariant n == DecimalValue(buf[pos..s])
      invariant DigitsEnd(buf[..], pos) == DigitsEnd(buf[..], s)
      decreases buf.Length - s
    {
      n := n * 10 + DigitValue(buf[s]);
      s := s + 1;
      assert buf[pos..s][..s - 1 - pos] == buf[pos..s - 1];
    }
    assert buf[..][pos..s] == buf[pos..s];
    if n == 0 || buf[s] != COLON {
      return 0, pos;
    }
    return n, s + 1;
  }

  /** At an atom `snext` finds its data, unless the atom is empty. */
  lemma NextLengthAtAtom(s: bytes, pos: nat, data: bytes, rest: bytes)
    requires pos <= |s|
    requires s[pos..] == Encode(Atom(data)) + rest
    ensures NextLength(s, pos) == if data == [] then (0, pos) else (|data|, pos + |LengthPrefix(|data|)|)
  {
    var ds := Decimal(|data|);
    var k := DigitsEnd(s, pos);
    assert s[pos..] == ds + [COLON] + (data + rest);
    assert s[pos..][|ds|] == COLON;
    assert s[pos + |ds|] == COLON;
    assert forall i :: pos <= i < pos + |ds| ==> s[i] == s[pos..][i - pos] == ds[i - pos];
    assert forall i :: pos <= i < k ==> s[i] == s[pos..k][i - pos];
    assert k == pos + |ds|;
    assert s[pos..k] == s[pos..][..|ds|] == ds;
    DecimalRoundTrip(|data|);
  }

  /** In front of a bracket `snext` reads nothing. */
  lemma NextLengthAtBracket(s: bytes, pos: nat)
    requires pos < |s| && !IsDigit(s[pos])
    ensures NextLength(s, pos) == (0, pos)
  {
    assert DigitsEnd(s, pos) == pos;
    assert s[pos..pos] == [];
  }
}
