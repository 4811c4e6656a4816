/**
 KEYTOCARD's splice: the creation time and the ECDH parameters are appended to a canonical key by
 printing over its last bracket.
 */
module KeyToCard {
  import opened Buffers
  import opened Bytes
  import opened CanonicalSexp
  import opened Wrappers

  // ----- The texts that are printed -----

  /** The conversion %010lu. */
  function Padded(t: nat): (s: bytes)
    ensures AllDigits(s)
    ensures |s| >= 10
    ensures |s| == 10 <==> |Decimal(t)| <= 10
  {
    var d := Decimal(t);
    if |d| < 10 then seq(10 - |d|, _ => '0') + d else d
  }

  const CREATED_AT: bytes := "(10:created-at10:"
  const ECDH_PARAMS: bytes := "(11:ecdh-params"
  const END: bytes := "))"

  function CreatedText(t: nat): bytes {
    CREATED_AT + Padded(t) + END
  }

  function EcdhText(n: nat): bytes {
    ECDH_PARAMS + LengthPrefix(n)
  }

  /** What snprintf leaves in a buffer of `size` bytes: a truncated text and its NUL. */
  function Printed(text: bytes, size: nat): bytes
    requires size >= 1
  {
    (if |text| < size then text else text[..size - 1]) + [NUL]
  }

  // ----- The resulting bytes -----

  function WithTimestamp(key: bytes, t: nat): bytes
    requires key != []
  {
    key[..|key| - 1] + CreatedText(t)[..29]
  }

  function WithEcdh(key: bytes, params: bytes): bytes
    requires key != []
  {
    key[..|key| - 1] + EcdhText(|params|) + params + END
  }

  function Spliced(key: bytes, t: nat, ecdh: Option<bytes>): bytes
    requires key != []
  {
    match ecdh
    case None => WithTimestamp(key, t)
    case Some(params) => WithEcdh(WithTimestamp(key, t), params)
  }

  /** Writes one attribute over the last bracket of the `len` bytes in `buf`. */
  method PrintTimestamp(buf: array<byte>, len: nat, t: nat) returns (newLen: nat)
    requires 1 <= len && len - 1 + 30 <= buf.Length
    modifies buf
    ensures newLen == len + 28 && buf[..newLen] == WithTimestamp(old(buf[..len]), t)
  {
    var text := Printed(CreatedText(t), 30);
    assert text[..29] == CreatedText(t)[..29];
    ghost var b := buf[..];
    Write(buf, len - 1, text);
    newLen := len + 10 + 19 - 1;
    hide CreatedText, Printed;
    assert buf[..newLen] == buf[..][..newLen] == b[..len - 1] + text[..29];
    assert old(buf[..len])[..len - 1] == b[..len - 1];
  }

  method PrintEcdh(buf: array<byte>, len: nat, params: bytes) returns (newLen: nat)
    requires 1 <= len && |Decimal(|params|)| <= 10
    requires len - 1 + 40 + |params| <= buf.Length
    modifies buf
    ensures newLen == len - 1 + |EcdhText(|params|)| + |params| + 2
    ensures newLen <= buf.Length && buf[..newLen] == WithEcdh(old(buf[..len]), params)
  {
    hide EcdhText, Printed, Splice, Decimal;
    var text := Printed(EcdhText(|params|), 40 + |params|);
    EcdhTextFits(params);
    var shown := |text| - 1;
    ghost var b := buf[..];
    TwoWrites(b, len - 1, EcdhText(|params|), params);
    Write(buf, len - 1, text);
    newLen := len + shown - 1;
    Write(buf, newLen, params);
    newLen := newLen + |params|;
    Write(buf, newLen, END + [NUL]);
    newLen := newLen + 2;
    assert buf[..newLen] == buf[..][..newLen];
    assert old(buf[..len])[..len - 1] == b[..len - 1];
  }

  lemma EcdhTextFits(params: bytes)
    requires |Decimal(|params|)| <= 10
    ensures |EcdhText(|params|)| <= 26
    ensures Printed(EcdhText(|params|), 40 + |params|) == EcdhText(|params|) + [NUL]
  {
    hide Decimal;
  }

  lemma TwoWrites(b: bytes, at: nat, text: bytes, params: bytes)
    requires at + |text| + |params| + 3 <= |b|
    ensures Splice(Splice(Splice(b, at, text + [NUL]), at + |text|, params), at + |text| + |params|, END + [NUL])
            [..at + |text| + |params| + 2] == b[..at] + text + params + END
  {
    var one := Splice(b, at, text + [NUL]);
    assert one[..at + |text|] == b[..at] + text;
    var two := Splice(one, at + |text|, params);
    assert two[..at + |text| + |params|] == b[..at] + text + params;
  }

  /** The buffer as allocated and filled by the command; every write stays inside it. */
  method AppendAttributes(key: bytes, t: nat, ecdh: Option<bytes>) returns (keydata: array<byte>, keydatalen: nat)
    requires key != []
    requires ecdh.Some? ==> |ecdh.value| < 0x1_0000_0000
    ensures fresh(keydata) && keydatalen <= keydata.Length
    ensures keydata[..keydatalen] == Spliced(key, t, ecdh)
  {
    keydatalen := |key| + 1;
    var extralen1, extralen2 := 30, if ecdh.Some? then 20 + 20 + |ecdh.value| else 0;
    keydata := new byte[keydatalen + extralen1 + extralen2](_ => NUL);
    Write(keydata, 0, key + [NUL]);
    assert keydata[..|key|] == key;
    keydatalen := keydatalen - 1;
    keydatalen := PrintTimestamp(keydata, keydatalen, t);
    if ecdh.Some? {
      TenDigits(|ecdh.value|);
      keydatalen := PrintEcdh(keydata, keydatalen, ecdh.value);
    }
  }

  // ----- What the bytes mean -----

  function CreatedAt(t: nat): Sexp {
    List([Atom("created-at"), Atom(Padded(t))])
  }

  function EcdhParams(params: bytes): Sexp {
    List([Atom("ecdh-params"), Atom(params)])
  }

  function Attributes(t: nat, ecdh: Option<bytes>): seq<Sexp> {
    [CreatedAt(t)] + if ecdh.Some? then [EcdhParams(ecdh.value)] else []
  }

  /** An attribute is its opening tag, then its length-prefixed value and a bracket. */
  lemma AttributeBytes(tag: bytes, name: bytes, value: bytes)
    requires tag == [OPEN] + LengthPrefix(|name|) + name
    ensures Encode(List([Atom(name), Atom(value)])) == tag + (LengthPrefix(|value|) + value + [CLOSE])
  {
    var items := [Atom(name), Atom(value)];
    EncodeAllSplit(items);
    EncodeAllOne(items[1]);
    hide EncodeAll, LengthPrefix;
    assert items[1..] == [items[1]];
    assert [OPEN] + (LengthPrefix(|name|) + name + (LengthPrefix(|value|) + value)) + [CLOSE] ==
           [OPEN] + LengthPrefix(|name|) + name + (LengthPrefix(|value|) + value + [CLOSE]);
  }

  lemma EncodeListIs(xs: seq<Sexp>)
    ensures Encode(List(xs)) == [OPEN] + EncodeAll(xs) + [CLOSE]
  {
  }

  lemma LastDropped(s: bytes, c: byte)
    ensures (s + [c])[..|s + [c]| - 1] == s
  {
  }

  lemma AppendedBytes(xs: seq<Sexp>, x: Sexp)
    ensures Encode(List(xs)) != []
    ensures Encode(List(xs + [x])) == Encode(List(xs))[..|Encode(List(xs))| - 1] + Encode(x) + [CLOSE]
  {
    hide Encode, EncodeAll;
    EncodeListIs(xs);
    EncodeListIs(xs + [x]);
    EncodeAllConcat(xs, [x]);
    EncodeAllOne(x);
    LastDropped([OPEN] + EncodeAll(xs), CLOSE);
    ConcatAssociative([OPEN], EncodeAll(xs), Encode(x));
  }

  const CREATED_TAG: bytes := "(10:created-at"

  lemma CreatedAtBytes(t: nat)
    ensures Encode(CreatedAt(t)) == CREATED_TAG + (LengthPrefix(|Padded(t)|) + Padded(t) + [CLOSE])
  {
    assert LengthPrefix(10) == "10:";
    AttributeBytes(CREATED_TAG, "created-at", Padded(t));
  }

  lemma EcdhParamsBytes(params: bytes)
    ensures Encode(EcdhParams(params)) == ECDH_PARAMS + (LengthPrefix(|params|) + params + [CLOSE])
  {
    assert LengthPrefix(11) == "11:";
    AttributeBytes(ECDH_PARAMS, "ecdh-params", params);
  }

  lemma TagIs()
    ensures CREATED_AT == CREATED_TAG + LengthPrefix(10) && END == [CLOSE] + [CLOSE] && |CREATED_AT| == 17
  {
    assert LengthPrefix(10) == "10:";
  }

  /** Below ten thousand million seconds the text printed is the attribute and a bracket. */
  lemma CreatedTextIsAttribute(t: nat)
    requires t < 10_000_000_000
    ensures CreatedText(t)[..29] == Encode(CreatedAt(t)) + [CLOSE]
  {
    hide Encode, Padded, LengthPrefix, CREATED_AT, CREATED_TAG, END, Decimal;
    TenDigits(t);
    CreatedAtBytes(t);
    TagIs();
    var tag, lp, v := CREATED_TAG, LengthPrefix(10), Padded(t);
    assert CreatedText(t) == tag + lp + v + ([CLOSE] + [CLOSE]);
    assert CreatedText(t)[..29] == CreatedText(t);
    ConcatAssociative(tag + lp + v, [CLOSE], [CLOSE]);
    ConcatAssociative(tag, lp, v);
    ConcatAssociative(tag, lp + v, [CLOSE]);
  }

  /** Adding the timestamp is appending an element to the outer list. */
  lemma TimestampAppended(xs: seq<Sexp>, t: nat)
    requires t < 10_000_000_000
    ensures Encode(List(xs)) != []
    ensures WithTimestamp(Encode(List(xs)), t) == Encode(List(xs + [CreatedAt(t)]))
  {
    assert Encode(List(xs)) != [];
    AppendedBytes(xs, CreatedAt(t));
    CreatedTextIsAttribute(t);
    hide Encode, CreatedText;
  }

  lemma EcdhAppended(xs: seq<Sexp>, params: bytes)
    ensures Encode(List(xs)) != []
    ensures WithEcdh(Encode(List(xs)), params) == Encode(List(xs + [EcdhParams(params)]))
  {
    assert Encode(List(xs)) != [];
    AppendedBytes(xs, EcdhParams(params));
    EcdhParamsBytes(params);
    hide Encode, LengthPrefix;
    var body := Encode(List(xs))[..|Encode(List(xs))| - 1];
    assert body + (ECDH_PARAMS + LengthPrefix(|params|)) + params + END ==
           body + (ECDH_PARAMS + (LengthPrefix(|params|) + params + [CLOSE])) + [CLOSE];
  }

  /** Whatever the timestamp, the splice announces a value of ten bytes. */
  lemma SplicedStart(key: bytes, t: nat, ecdh: Option<bytes>)
    requires key != []
    ensures key[..|key| - 1] + CREATED_AT <= Spliced(key, t, ecdh)
  {
    var body := key[..|key| - 1];
    var w := WithTimestamp(key, t);
    assert CreatedText(t)[..29][..|CREATED_AT|] == CREATED_AT;
    assert w[..|body| + |CREATED_AT|] == body + CREATED_AT;
    hide CreatedText, WithTimestamp;
    assert |w[..|w| - 1]| >= |body| + |CREATED_AT|;
  }

  lemma EncodedStart(xs: seq<Sexp>, t: nat, ecdh: Option<bytes>)
    ensures Encode(List(xs)) != []
    ensures Encode(List(xs))[..|Encode(List(xs))| - 1] + (CREATED_TAG + LengthPrefix(|Padded(t)|))
            <= Encode(List(xs + Attributes(t, ecdh)))
  {
    hide *;
    AppendedBytes(xs, CreatedAt(t));
    var key := Encode(List(xs));
    var body := key[..|key| - 1];
    var tag, lp, v := CREATED_TAG, LengthPrefix(|Padded(t)|), Padded(t);
    var one := xs + [CreatedAt(t)];
    CreatedAtBytes(t);
    ConcatAssociative(tag, lp, v + [CLOSE]);
    ConcatAssociative(lp, v, [CLOSE]);
    ConcatAssociative(body, tag + lp, v + [CLOSE]);
    var start := body + (tag + lp);
    assert body + Encode(CreatedAt(t)) == start + (v + [CLOSE]);
    AttributesAre(xs, t, ecdh);
    ConcatAssociative(start, v + [CLOSE], [CLOSE]);
    if ecdh.Some? {
      AppendedBytes(one, EcdhParams(ecdh.value));
      LastDropped(start + (v + [CLOSE]), CLOSE);
      var rest := Encode(EcdhParams(ecdh.value));
      ConcatAssociative(start, v + [CLOSE], rest);
      ConcatAssociative(start, v + [CLOSE] + rest, [CLOSE]);
    }
  }

  lemma AttributesAre(xs: seq<Sexp>, t: nat, ecdh: Option<bytes>)
    ensures xs + Attributes(t, ecdh) ==
            if ecdh.Some? then xs + [CreatedAt(t)] + [EcdhParams(ecdh.value)] else xs + [CreatedAt(t)]
  {
  }

  /**
   The splice yields the canonical encoding of the key list with the attributes appended exactly
   for timestamps of at most ten digits.
   */
  lemma SpliceIsCanonical(xs: seq<Sexp>, t: nat, ecdh: Option<bytes>)
    ensures Encode(List(xs)) != []
    ensures Spliced(Encode(List(xs)), t, ecdh) == Encode(List(xs + Attributes(t, ecdh))) <==> t < 10_000_000_000
  {
    var key := Encode(List(xs));
    assert key != [];
    if t < 10_000_000_000 {
      TimestampAppended(xs, t);
      hide Encode, WithEcdh, WithTimestamp;
      if ecdh.Some? {
        EcdhAppended(xs + [CreatedAt(t)], ecdh.value);
        assert xs + Attributes(t, ecdh) == xs + [CreatedAt(t)] + [EcdhParams(ecdh.value)];
      } else {
        assert xs + Attributes(t, ecdh) == xs + [CreatedAt(t)];
      }
    } else if Spliced(key, t, ecdh) == Encode(List(xs + Attributes(t, ecdh))) {
      SplicedStart(key, t, ecdh);
      EncodedStart(xs, t, ecdh);
      TenDigits(t);
      TwoLengths(key[..|key| - 1], Spliced(key, t, ecdh), |Padded(t)|);
    }
  }

  // ----- The timestamp -----

  lemma {:induction false} ZerosInFront(n: nat, d: bytes)
    requires AllDigits(d)
    ensures AllDigits(seq(n, _ => '0') + d) && DecimalValue(seq(n, _ => '0') + d) == DecimalValue(d)
    decreases |d|, n
  {
    var s: bytes := seq(n, _ => '0') + d;
    if d != [] {
      assert s[..|s| - 1] == seq(n, _ => '0') + d[..|d| - 1];
      ZerosInFront(n, d[..|d| - 1]);
    } else if n > 0 {
      assert s[..|s| - 1] == seq(n - 1, _ => '0') + d;
      ZerosInFront(n - 1, d);
    }
  }

  /** What is printed denotes the timestamp. */
  lemma PaddedValue(t: nat)
    ensures DecimalValue(Padded(t)) == t
  {
    DecimalRoundTrip(t);
    if |Decimal(t)| < 10 {
      ZerosInFront(10 - |Decimal(t)|, Decimal(t));
    }
  }

  lemma LastDigit(s: bytes)
    requires AllDigits(s) && s != []
    ensures AllDigits(s[..|s| - 1]) && IsDigit(s[|s| - 1])
    ensures DecimalValue(s) == DecimalValue(s[..|s| - 1]) * 10 + DigitValue(s[|s| - 1])
  {
  }

  lemma {:induction false} SameNumeral(a: bytes, b: bytes)
    requires AllDigits(a) && AllDigits(b) && |a| == |b| && DecimalValue(a) == DecimalValue(b)
    ensures a == b
    decreases |a|
  {
    hide AllDigits, DecimalValue;
    if a != [] {
      LastDigit(a);
      LastDigit(b);
      var front, x, back, y := a[..|a| - 1], a[|a| - 1], b[..|b| - 1], b[|b| - 1];
      SameDigits(DecimalValue(front), DigitValue(x), DecimalValue(back), DigitValue(y));
      SameNumeral(front, back);
      assert a == front + [x] && b == back + [y];
    }
  }

  lemma SameDigits(a: nat, x: nat, b: nat, y: nat)
    requires x < 10 && y < 10 && a * 10 + x == b * 10 + y
    ensures a == b && x == y
  {
  }

  /**
   The same with the numeral named by what it denotes: for the ten digits that stand for `t`, the
   result is the key with these digits as `created-at` and, if given, the parameters as `ecdh-params`.
   */
  lemma SplicedKeyIs(xs: seq<Sexp>, t: nat, digits: bytes, ecdh: Option<bytes>)
    requires |digits| == 10 && AllDigits(digits) && DecimalValue(digits) == t
    ensures Encode(List(xs)) != []
    ensures var created := List([Atom("created-at"), Atom(digits)]);
            Spliced(Encode(List(xs)), t, ecdh) ==
            Encode(List(if ecdh == None then xs + [created]
                        else xs + [created, List([Atom("ecdh-params"), Atom(ecdh.value)])]))
  {
    hide *;
    BelowTenDigits(digits);
    SpliceIsCanonical(xs, t, ecdh);
    PaddedIs(t, digits);
    NamedAttributes(xs, t, digits, ecdh);
  }

  lemma PaddedIs(t: nat, digits: bytes)
    requires |digits| == 10 && AllDigits(digits) && DecimalValue(digits) == t < 10_000_000_000
    ensures Padded(t) == digits
  {
    hide AllDigits, DecimalValue, Decimal;
    PaddedValue(t);
    TenDigits(t);
    SameNumeral(Padded(t), digits);
  }

  lemma NamedAttributes(xs: seq<Sexp>, t: nat, digits: bytes, ecdh: Option<bytes>)
    requires Padded(t) == digits
    ensures var created := List([Atom("created-at"), Atom(digits)]);
            xs + Attributes(t, ecdh) ==
            if ecdh == None then xs + [created] else xs + [created, List([Atom("ecdh-params"), Atom(ecdh.value)])]
  {
    hide Padded;
  }

  lemma {:induction false} NumeralBound(d: bytes)
    requires AllDigits(d)
    ensures DecimalValue(d) < Pow10(|d|)
  {
    if d != [] {
      NumeralBound(d[..|d| - 1]);
    }
  }

  lemma BelowTenDigits(d: bytes)
    requires AllDigits(d) && |d| == 10
    ensures DecimalValue(d) < 10_000_000_000
  {
    NumeralBound(d);
    hide DecimalValue;
    assert Pow10(5) == 10 * (10 * Pow10(3)) && Pow10(3) == 10 * (10 * Pow10(1));
    assert Pow10(10) == 10 * (10 * Pow10(8)) && Pow10(8) == 10 * (10 * Pow10(6)) && Pow10(6) == 10 * Pow10(5);
  }

  lemma TwoLengths(body: bytes, whole: bytes, n: nat)
    requires body + CREATED_AT <= whole
    requires body + (CREATED_TAG + LengthPrefix(n)) <= whole
    ensures n == 10
  {
    assert CREATED_AT == CREATED_TAG + Decimal(10) + [COLON];
    var rest := whole[|body| + |CREATED_TAG|..];
    var x, y := whole[|body| + |CREATED_AT|..], whole[|body| + |CREATED_TAG| + |LengthPrefix(n)|..];
    hide Decimal;
    assert whole == body + (CREATED_TAG + Decimal(10) + [COLON]) + x;
    assert whole == body + (CREATED_TAG + (Decimal(n) + [COLON])) + y;
    assert rest == Decimal(10) + [COLON] + x == Decimal(n) + [COLON] + y;
    DigitRunUnique(Decimal(10), x, Decimal(n), y);
    DecimalRoundTrip(10);
    DecimalRoundTrip(n);
  }
}
