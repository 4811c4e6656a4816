/**
 Public keys as SSH blobs (section 6.6 of RFC 4253, section 3.1 of RFC 5656) and keys received from
 a client.
 */
module SshKeys {
  import opened Wrappers
  import opened Bytes
  import opened BigEndian
  import opened SshTable
  import opened SshWire
  import opened SshConstruct

  /** The parameter as the octets that are stored for it. */
  function Contents(v: Value): bytes {
    if v.Data? then v.b else Signed(v.n)
  }

  /** The parameter as the number that its octets stand for. */
  function Mpi(v: Value): int {
    if v.Number? then v.n else SignedValue(v.b)
  }

  // ----- From a key to a blob -----

  predicate Prefixed(d: bytes) {
    |d| % 2 == 1 && d[0] == '@'
  }

  /** The prefix 0x40 of an EdDSA public key is not sent. */
  function Param(spec: Spec, name: byte, v: Value): bytes {
    if !spec.isEdDsa then WireMpi(Mpi(v))
    else if name == 'q' && Prefixed(Contents(v)) then WireString(Contents(v)[1..])
    else WireString(Contents(v))
  }

  function Params(spec: Spec, slots: seq<Slot>, elems: bytes): Option<bytes> {
    if elems == [] then Some([])
    else
      var v, rest := Find(slots, elems[0]), Params(spec, slots, elems[1..]);
      if v == None || rest == None then None else Some(Param(spec, elems[0], v.value) + rest.value)
  }

  /** The identifier, for ECDSA that of the key's curve whatever row of the table was looked up. */
  function Head(spec: Spec, key: Key): Option<bytes> {
    if !spec.isEcdsa then Some(WireString(spec.identifier))
    else if key.curve == None || ByCurve(key.curve.value) == None then None
    else
      var row := ByCurve(key.curve.value).value;
      if row.curve == None then None
      else Some(WireString(row.identifier) + WireString(row.curve.value))
  }

  /** `ssh_key_to_blob`: the secret parameters are written only if asked for and not protected. */
  function KeyBlob(spec: Spec, key: Key, withSecret: bool): Option<bytes> {
    var head, params := Head(spec, key), Params(spec, key.slots, Elems(spec, key.secret && withSecret));
    if head == None || params == None then None else Some(head.value + params.value)
  }

  /** The blob of the public part. */
  function Blob(spec: Spec, key: Key): Option<bytes> {
    KeyBlob(spec, key, false)
  }

  // ----- From octets to a key -----

  function ReadMpis(s: bytes, n: nat): (r: Parse<seq<int>>)
    ensures r.Ok? ==> |r.value| == n
    decreases n
  {
    if n == 0 then Ok([], s)
    else
      match ReadMpi(s)
      case Bad(code) => Bad(code)
      case Ok(v, rest) =>
        match ReadMpis(rest, n - 1)
        case Bad(code) => Bad(code)
        case Ok(vs, after) => Ok([v] + vs, after)
  }

  /** Names are distinct, and the orders for sending and storing have the same ones. */
  predicate Regular(spec: Spec) {
    && |spec.sexpOrder| == |spec.secretElems|
    && (forall i :: 0 <= i < |spec.sexpOrder| ==> spec.sexpOrder[i] in spec.secretElems)
    && (forall i, j :: 0 <= i < j < |spec.secretElems| ==> spec.secretElems[i] != spec.secretElems[j])
    && (forall i, j :: 0 <= i < j < |spec.publicElems| ==> spec.publicElems[i] != spec.publicElems[j])
  }

  ghost predicate SameElems(a: Spec, b: Spec) {
    a.secretElems == b.secretElems && a.publicElems == b.publicElems && a.sexpOrder == b.sexpOrder
  }

  lemma RegularCurve()
    ensures Regular(ED25519)
  {
    assert ED25519.secretElems[0] == 'q' && ED25519.secretElems[1] == 'd';
  }

  lemma RegularRsa()
    ensures Regular(RSA)
  {
    RsaNames();
    assert RSA.publicElems[0] == 'e' && RSA.publicElems[1] == 'n';
    hide WIRE, STORED;
  }

  lemma RegularDss()
    ensures Regular(DSS)
  {
    var s, p := DSS.secretElems, DSS.publicElems;
    assert s[0] == p[0] == 'p' && s[1] == p[1] == 'q' && s[2] == p[2] == 'g' && s[3] == p[3] == 'y' && s[4] == 'x';
  }

  lemma ElemsOfRows(i: nat)
    requires i < |TABLE|
    ensures SameElems(TABLE[i], ED25519) || SameElems(TABLE[i], RSA) || SameElems(TABLE[i], DSS)
  {
  }

  lemma RegularRows(spec: Spec)
    requires spec in TABLE
    ensures Regular(spec)
  {
    hide TABLE, ED25519, RSA, DSS;
    var i :| 0 <= i < |TABLE| && TABLE[i] == spec;
    ElemsOfRows(i);
    RegularCurve();
    RegularRsa();
    RegularDss();
  }

  function Elems(spec: Spec, secret: bool): bytes {
    if secret then spec.secretElems else spec.publicElems
  }

  /** The key made of received numbers. */
  function Built(spec: Spec, secret: bool, curve: Option<bytes>, mpis: seq<int>): Key
    requires Regular(spec) && |mpis| == |Elems(spec, secret)|
  {
    var wire := Elems(spec, secret);
    var adjusted := if spec.rsaModifier then Adjusted(wire, mpis) else mpis;
    Key(secret, spec.algo, curve, Arranged(if secret then spec.sexpOrder else spec.publicElems, wire, adjusted))
  }

  function ReceiveNumbers(spec: Spec, secret: bool, curve: Option<bytes>, s: bytes): Parse<Key>
    requires Regular(spec)
  {
    match ReadMpis(s, |Elems(spec, secret)|)
    case Bad(code) => Bad(code)
    case Ok(mpis, rest) => Ok(Built(spec, secret, curve, mpis), rest)
  }

  /** The secret part of an EdDSA key: its first 32 octets; a copy of the public key may follow. */
  function ReadSeed(s: bytes): Parse<bytes> {
    match ReadUint32(s)
    case Bad(code) => Bad(code)
    case Ok(len, rest) =>
      if len != 32 && len != 64 then Bad(BadSeckey)
      else if |rest| < len then Bad(Eof)
      else Ok(rest[..32], rest[len..])
  }

  function ReceiveEdDsa(spec: Spec, secret: bool, s: bytes): Parse<Key> {
    match ReadBlob(s)
    case Bad(code) => Bad(code)
    case Ok(q, rest) =>
      if !secret then Ok(Key(false, spec.algo, ED25519.curve, [Slot('q', Data(q))]), rest)
      else
        match ReadSeed(rest)
        case Bad(code) => Bad(code)
        case Ok(d, after) => Ok(Key(true, spec.algo, ED25519.curve, [Slot('q', Data(q)), Slot('d', Data(d))]), after)
  }

  function ReceiveEcdsa(spec: Spec, secret: bool, s: bytes): Parse<Key>
    requires Regular(spec)
  {
    match ReadString(s)
    case Bad(code) => Bad(code)
    case Ok(name, rest) =>
      match ByCurve(CString(name))
      case None => Bad(UnknownCurve)
      case Some(row) => ReceiveNumbers(spec, secret, row.curve, rest)
  }

  function ReceiveAs(spec: Spec, secret: bool, s: bytes): Parse<Key>
    requires Regular(spec)
  {
    if spec.withCert then Bad(Certificate)
    else if spec.isEdDsa then ReceiveEdDsa(spec, secret, s)
    else if spec.isEcdsa then ReceiveEcdsa(spec, secret, s)
    else ReceiveNumbers(spec, secret, None, s)
  }

  lemma ByNameIsRegular(name: bytes)
    ensures ByName(name).Some? ==> Regular(ByName(name).value)
  {
    hide TABLE, Regular;
    if ByName(name).Some? {
      var i := FirstFound(TABLE, (row: Spec) => row.identifier == name);
      RegularRows(TABLE[i]);
    }
  }

  /** `ssh_receive_key` without a comment. */
  function Receive(s: bytes, secret: bool): Parse<Key> {
    match ReadString(s)
    case Bad(code) => Bad(code)
    case Ok(name, rest) =>
      ByNameIsRegular(CString(name));
      match ByName(CString(name))
      case None => Bad(NotFound)
      case Some(spec) => ReceiveAs(spec, secret, rest)
  }

  // ----- Reading a blob back -----

  /** The values of the parameters that a blob contains. */
  ghost predicate Present(slots: seq<Slot>, elems: bytes) {
    forall i :: 0 <= i < |elems| ==> Find(slots, elems[i]).Some?
  }

  function Numbers(slots: seq<Slot>, elems: bytes): (r: seq<int>)
    requires Present(slots, elems)
    ensures |r| == |elems|
  {
    seq(|elems|, i requires 0 <= i < |elems| => Mpi(Find(slots, elems[i]).value))
  }

  /** No number is too large to be read. */
  ghost predicate Small(ns: seq<int>) {
    forall i :: 0 <= i < |ns| ==> |Signed(ns[i])| <= 520
  }

  /** Every parameter can be given a length on the wire. */
  ghost predicate Sendable(slots: seq<Slot>, elems: bytes)
    requires Present(slots, elems)
  {
    forall i :: 0 <= i < |elems| ==>
      |Contents(Find(slots, elems[i]).value)| < WORD && |Signed(Mpi(Find(slots, elems[i]).value))| < WORD
  }

  lemma {:induction false} ParamsPresent(spec: Spec, slots: seq<Slot>, elems: bytes)
    ensures Params(spec, slots, elems).Some? <==> Present(slots, elems)
  {
    if elems != [] {
      hide Find, Param;
      ParamsPresent(spec, slots, elems[1..]);
      assert forall i :: 0 < i < |elems| ==> elems[i] == elems[1..][i - 1];
    }
  }

  /** Either all numbers are read back, or the reader stops at one that is too large. */
  lemma {:induction false} ReadParams(spec: Spec, slots: seq<Slot>, elems: bytes)
    requires !spec.isEdDsa && Present(slots, elems) && Sendable(slots, elems) && Params(spec, slots, elems).Some?
    ensures ReadMpis(Params(spec, slots, elems).value, |elems|) ==
            if Small(Numbers(slots, elems)) then Ok(Numbers(slots, elems), []) else Bad(TooLarge)
    decreases elems
  {
    hide Find, Mpi, Contents, Signed, WireMpi, ReadMpi;
    var ns := Numbers(slots, elems);
    if elems != [] {
      var n := Mpi(Find(slots, elems[0]).value);
      var rest := Params(spec, slots, elems[1..]).value;
      assert Params(spec, slots, elems).value == WireMpi(n) + rest;
      TailPresent(slots, elems);
      ReadParams(spec, slots, elems[1..]);
      ReadWrittenMpi(n, rest);
      SmallParts(ns);
    } else {
      assert ns == [];
    }
  }

  lemma TailPresent(slots: seq<Slot>, elems: bytes)
    requires elems != [] && Present(slots, elems) && Sendable(slots, elems)
    ensures Present(slots, elems[1..]) && Sendable(slots, elems[1..])
    ensures Numbers(slots, elems) == [Mpi(Find(slots, elems[0]).value)] + Numbers(slots, elems[1..])
  {
    hide Find, Mpi, Contents, Signed;
    assert forall i :: 0 <= i < |elems| - 1 ==> elems[1..][i] == elems[i + 1];
  }

  lemma SmallParts(ns: seq<int>)
    requires ns != []
    ensures Small(ns) <==> |Signed(ns[0])| <= 520 && Small(ns[1..])
  {
    hide Signed;
    assert forall i :: 0 < i < |ns| ==> ns[i] == ns[1..][i - 1];
  }

  /** A parameter as the key type reads it. */
  function AsRead(spec: Spec, v: Value): Value {
    if spec.isEdDsa then Data(Contents(v)) else Number(Mpi(v))
  }

  /** The name of a curve, whatever alias is used for it. */
  function Canonical(curve: Option<bytes>): Option<bytes> {
    if curve.Some? && ByCurve(curve.value).Some? then ByCurve(curve.value).value.curve else curve
  }

  /** The same algorithm, curve and public parameters. */
  ghost predicate SameKey(spec: Spec, key: Key, got: Key)
    requires Present(key.slots, spec.publicElems)
  {
    && !got.secret && got.algo == key.algo && got.curve == Canonical(key.curve)
    && |got.slots| == |spec.publicElems|
    && forall i :: 0 <= i < |spec.publicElems| ==>
         && got.slots[i].name == spec.publicElems[i]
         && AsRead(spec, got.slots[i].value) == AsRead(spec, Find(key.slots, spec.publicElems[i]).value)
  }

  /** A public key that survives being sent. */
  ghost predicate Survives(spec: Spec, key: Key)
    requires Present(key.slots, spec.publicElems)
  {
    if spec.isEdDsa then
      && Canonical(key.curve) == ED25519.curve && 'q' in spec.publicElems
      && Prefixed(Contents(Find(key.slots, 'q').value)) && |Contents(Find(key.slots, 'q').value)| <= 521
    else
      && Small(Numbers(key.slots, spec.publicElems))
      && if spec.isEcdsa then key.curve.Some? && ByCurve(key.curve.value).Some? && ByCurve(key.curve.value).value.isEcdsa
         else key.curve == None
  }

  /** Numbers received without secrets go into slots in the order received. */
  lemma BuiltPublic(spec: Spec, curve: Option<bytes>, mpis: seq<int>)
    requires Regular(spec) && |mpis| == |spec.publicElems| && |spec.publicElems| < 6
    ensures var key := Built(spec, false, curve, mpis);
            && key == Key(false, spec.algo, curve, key.slots) && |key.slots| == |mpis|
            && forall i :: 0 <= i < |mpis| ==> key.slots[i] == Slot(spec.publicElems[i], Number(mpis[i]))
  {
    hide IndexOf;
    assert Adjusted(spec.publicElems, mpis) == mpis;
    var key := Built(spec, false, curve, mpis);
    hide Adjusted, Arranged;
    forall i | 0 <= i < |mpis|
      ensures IndexOf(spec.publicElems, spec.publicElems[i]) == i
    {
    }
    assert forall i :: 0 <= i < |mpis| ==> key.slots[i].name == spec.publicElems[i];
  }

  lemma ReceivedNumbers(spec: Spec, key: Key, curve: Option<bytes>)
    requires Regular(spec) && !spec.isEdDsa && |spec.publicElems| < 6 && key.algo == spec.algo
    requires Present(key.slots, spec.publicElems) && Sendable(key.slots, spec.publicElems)
    ensures Params(spec, key.slots, spec.publicElems).Some?
    ensures var r := ReceiveNumbers(spec, false, curve, Params(spec, key.slots, spec.publicElems).value);
            r.Ok? && SameKey(spec, key, r.value)
            <==> Small(Numbers(key.slots, spec.publicElems)) && Canonical(key.curve) == curve
  {
    hide Find, Mpi, Contents, Small, Canonical, Params, ReadMpis, Built, Regular;
    ParamsPresent(spec, key.slots, spec.publicElems);
    ReadParams(spec, key.slots, spec.publicElems);
    var ns := Numbers(key.slots, spec.publicElems);
    BuiltPublic(spec, curve, ns);
    assert forall i :: 0 <= i < |ns| ==> AsRead(spec, Number(ns[i])) == Number(ns[i]) by { AsReadNumber(spec); }
    assert forall i :: 0 <= i < |ns| ==> AsRead(spec, Find(key.slots, spec.publicElems[i]).value) == Number(ns[i]);
  }

  lemma AsReadNumber(spec: Spec)
    requires !spec.isEdDsa
    ensures forall n: int :: AsRead(spec, Number(n)) == Number(n)
  {
  }

  lemma NoNulInNames(row: Spec)
    requires Plain(row)
    ensures CString(row.identifier) == row.identifier && 0 < |row.identifier| < WORD
    ensures row.curve.Some? ==> CString(row.curve.value) == row.curve.value && |row.curve.value| < WORD
  {
    NamesDiffer();
    CurvesDiffer();
    NamesArePrintable();
    hide ED25519, RSA, DSS, P256, P384, P521, CString;
    CStringIsAll(row.identifier);
    if row.curve.Some? {
      CStringIsAll(row.curve.value);
    }
  }

  lemma NamesArePrintable()
    ensures NUL !in ED25519.identifier && NUL !in RSA.identifier && NUL !in DSS.identifier
    ensures NUL !in P256.identifier && NUL !in P384.identifier && NUL !in P521.identifier
    ensures NUL !in ED25519.curve.value && RSA.curve == None && DSS.curve == None
    ensures NUL !in P256.curve.value && NUL !in P384.curve.value && NUL !in P521.curve.value
  {
  }

  /** A blob that starts with the name of a plain key type is read as that type. */
  lemma ReceiveNamed(row: Spec, rest: bytes, secret: bool)
    requires Plain(row)
    ensures Regular(row) && Receive(WireString(row.identifier) + rest, secret) == ReceiveAs(row, secret, rest)
  {
    hide *;
    NoNulInNames(row);
    PlainByName(row);
    ByNameIsRegular(row.identifier);
    ReadWrittenString(row.identifier, rest);
    ReceiveIs(WireString(row.identifier) + rest, row.identifier, rest, row, secret);
  }

  lemma ReceiveIs(s: bytes, name: bytes, rest: bytes, row: Spec, secret: bool)
    requires ReadString(s) == Ok(name, rest) && ByName(CString(name)) == Some(row) && Regular(row)
    ensures Receive(s, secret) == ReceiveAs(row, secret, rest)
  {
    hide ReadString, ByName, CString, ReceiveAs, Regular;
  }

  /** What is shown for each kind of key. */
  ghost predicate RoundTrip(spec: Spec, key: Key)
    requires Present(key.slots, spec.publicElems) && Blob(spec, key).Some?
  {
    var r := Receive(Blob(spec, key).value, false);
    r.Ok? && SameKey(spec, key, r.value)
  }

  lemma NumberKeyRoundTrip(spec: Spec, key: Key)
    requires spec in [RSA, DSS] && key.algo == spec.algo && Blob(spec, key).Some?
    requires Present(key.slots, spec.publicElems) && Sendable(key.slots, spec.publicElems)
    ensures RoundTrip(spec, key) <==> Survives(spec, key)
  {
    assert Plain(spec) && !spec.isEdDsa && !spec.isEcdsa && !spec.withCert && |spec.publicElems| < 6;
    var params := Params(spec, key.slots, spec.publicElems).value;
    assert Blob(spec, key).value == WireString(spec.identifier) + params;
    hide RSA, DSS, Plain, Receive, Blob, Params, Find, Small, Numbers, Present, Sendable, ReceiveNumbers, SameKey, Regular, WireString;
    ReceiveNamed(spec, params, false);
    ReceivedNumbers(spec, key, None);
    assert Canonical(key.curve) == None <==> key.curve == None by { CanonicalIsSome(key.curve); }
  }

  lemma CanonicalIsSome(curve: Option<bytes>)
    ensures Canonical(curve) == None <==> curve == None
    ensures curve.Some? && ByCurve(curve.value).Some? ==> Canonical(curve) == ByCurve(curve.value).value.curve
  {
    hide ByCurve;
    if curve.Some? && ByCurve(curve.value).Some? {
      ByCurveIs(curve.value);
    }
  }

  /** A curve's own row differs from the row that was looked up only in names. */
  lemma {:induction false} SameParams(a: Spec, b: Spec, slots: seq<Slot>, elems: bytes)
    requires a.isEdDsa == b.isEdDsa
    ensures Params(a, slots, elems) == Params(b, slots, elems)
  {
    if elems != [] {
      hide Find;
      SameParams(a, b, slots, elems[1..]);
    }
  }

  lemma EcdsaRows(row: Spec)
    requires row in [P256, P384, P521]
    ensures Plain(row) && row.isEcdsa && !row.isEdDsa && !row.withCert && row.curve.Some? && row.algo == Ecc
    ensures row.publicElems == P256.publicElems && |row.publicElems| == 1
  {
  }

  lemma EcdsaKeyRoundTrip(key: Key, row: Spec)
    requires key.algo == Ecc && key.curve.Some? && ByCurve(key.curve.value) == Some(row) && row in [P256, P384, P521]
    requires Present(key.slots, P256.publicElems) && Sendable(key.slots, P256.publicElems) && Blob(P256, key).Some?
    ensures RoundTrip(P256, key) <==> Survives(P256, key)
  {
    EcdsaRows(row);
    EcdsaRows(P256);
    CurveByOwnName(row);
    NoNulInNames(row);
    hide ED25519, P256, P384, P521, Plain, Regular, Params, Find, Small, Numbers, Present, Sendable, ReceiveNumbers, ByCurve, WireString, Receive, ReadString, CString;
    var params := Params(P256, key.slots, P256.publicElems).value;
    var named := WireString(row.identifier);
    var rest := WireString(row.curve.value) + params;
    assert Blob(P256, key).value == named + rest by { ConcatAssociative(named, WireString(row.curve.value), params); }
    ReceiveNamed(row, rest, false);
    ReadWrittenString(row.curve.value, params);
    SameParams(P256, row, key.slots, row.publicElems);
    ReceivedNumbers(row, key, row.curve);
    CanonicalIsSome(key.curve);
    SameKeyForRow(P256, row, key);
  }

  lemma SameKeyForRow(a: Spec, b: Spec, key: Key)
    requires a.publicElems == b.publicElems && a.isEdDsa == b.isEdDsa && Present(key.slots, a.publicElems)
    ensures forall got: Key :: SameKey(a, key, got) <==> SameKey(b, key, got)
  {
    hide Find, Contents, Mpi, Canonical;
  }

  /** An ECDSA key on the curve of another signature scheme comes back as a key of that scheme. */
  lemma WrongCurveRoundTrip(key: Key)
    requires key.algo == Ecc && key.curve.Some? && ByCurve(key.curve.value) == Some(ED25519)
    requires Present(key.slots, P256.publicElems) && Blob(P256, key).Some?
    ensures !RoundTrip(P256, key) && !Survives(P256, key)
  {
    assert P256.isEcdsa && !P256.isEdDsa && !ED25519.isEcdsa && ED25519.algo == EdDsa;
    assert Plain(ED25519) && ED25519.isEdDsa && !ED25519.withCert && ED25519.curve.Some?;
    hide ED25519, P256, P384, P521, Plain, Regular, Params, Find, Small, Numbers, Present, ByCurve, WireString, Receive, ReadBlob;
    var params := Params(P256, key.slots, P256.publicElems).value;
    var named := WireString(ED25519.identifier);
    var rest := WireString(ED25519.curve.value) + params;
    assert Blob(P256, key).value == named + rest by { ConcatAssociative(named, WireString(ED25519.curve.value), params); }
    ReceiveNamed(ED25519, rest, false);
  }

  lemma EdDsaRow()
    ensures Plain(ED25519) && ED25519.isEdDsa && !ED25519.isEcdsa && !ED25519.withCert && ED25519.algo == EdDsa
    ensures ED25519.publicElems == ['q']
  {
  }

  /** The reader puts the prefix back, so an EdDSA key survives if and only if it had one. */
  lemma PrefixPutBack(d: bytes)
    ensures Prefixed(d) ==> ['@'] + d[1..] == d
    ensures ['@'] + d != d
  {
    assert |['@'] + d| == |d| + 1;
  }

  lemma EdDsaParams(key: Key)
    requires Present(key.slots, ['q'])
    ensures Find(key.slots, 'q').Some?
    ensures Params(ED25519, key.slots, ['q']) == Some(Param(ED25519, 'q', Find(key.slots, 'q').value))
  {
    hide Find, Param;
    assert Find(key.slots, ['q'][0]).Some?;
    var p := Param(ED25519, 'q', Find(key.slots, 'q').value);
    assert Params(ED25519, key.slots, ['q'][1..]) == Some([]);
    assert p + [] == p;
  }

  lemma EdDsaKeyRoundTrip(key: Key)
    requires key.algo == EdDsa && Blob(ED25519, key).Some?
    requires Present(key.slots, ED25519.publicElems) && Sendable(key.slots, ED25519.publicElems)
    ensures RoundTrip(ED25519, key) <==> Survives(ED25519, key)
  {
    EdDsaRow();
    EdDsaParams(key);
    var v := Find(key.slots, 'q').value;
    var q := Contents(v);
    assert |q| < WORD by { assert Find(key.slots, ['q'][0]).value == v; }
    hide ED25519, Plain, Regular, Params, Find, Contents, Numbers, ByCurve, WireString, Receive, ReadBlob, Canonical, Sendable;
    var sent := if Prefixed(q) then q[1..] else q;
    assert Blob(ED25519, key).value == WireString(ED25519.identifier) + WireString(sent);
    ReceiveNamed(ED25519, WireString(sent), false);
    assert WireString(sent) + [] == WireString(sent);
    ReadWrittenBlob(sent, []);
    PrefixPutBack(q);
    SameEdDsaKey(key, ['@'] + sent);
  }

  lemma SameEdDsaKey(key: Key, q: bytes)
    requires Present(key.slots, ['q']) && key.algo == EdDsa && ED25519.publicElems == ['q'] && ED25519.isEdDsa
    ensures Find(key.slots, 'q').Some?
    ensures SameKey(ED25519, key, Key(false, EdDsa, ED25519.curve, [Slot('q', Data(q))])) <==>
            q == Contents(Find(key.slots, 'q').value) && ED25519.curve == Canonical(key.curve)
  {
    hide Find, Canonical;
    assert Find(key.slots, ['q'][0]).Some?;
  }

  /**
   Writing a public key as a blob and reading it back gives a key with the same algorithm, curve and
   parameters if and only if it survives: no parameter is longer than 520 octets, an EdDSA key is
   on Ed25519 and has its prefix, and an ECDSA key is on an ECDSA curve.
   */
  lemma BlobRoundTripIff(key: Key)
    requires ByAlgo(key.algo).Some? && Present(key.slots, ByAlgo(key.algo).value.publicElems)
    requires Sendable(key.slots, ByAlgo(key.algo).value.publicElems) && Blob(ByAlgo(key.algo).value, key).Some?
    ensures RoundTrip(ByAlgo(key.algo).value, key) <==> Survives(ByAlgo(key.algo).value, key)
  {
    ByAlgoIs(key.algo);
    AlgoOfRows();
    assert key.algo == Ecc ==> key.curve.Some? && ByCurve(key.curve.value).Some? by { EcdsaRows(P256); }
    hide *;
    match key.algo
    case EdDsa => EdDsaKeyRoundTrip(key);
    case Rsa => NumberKeyRoundTrip(RSA, key);
    case Dsa => NumberKeyRoundTrip(DSS, key);
    case Ecc =>
      ByCurveIs(key.curve.value);
      var row := ByCurve(key.curve.value).value;
      if row == ED25519 {
        WrongCurveRoundTrip(key);
      } else {
        EcdsaKeyRoundTrip(key, row);
      }
  }

  // ----- Secret keys -----

  function WireMpis(ns: seq<int>): bytes {
    if ns == [] then [] else WireMpi(ns[0]) + WireMpis(ns[1..])
  }

  lemma {:induction false} ReadWireMpis(ns: seq<int>, tail: bytes)
    requires Small(ns)
    ensures ReadMpis(WireMpis(ns) + tail, |ns|) == Ok(ns, tail)
    decreases ns
  {
    hide ReadMpi, WireMpi, Signed;
    if ns != [] {
      var rest := WireMpis(ns[1..]);
      SmallParts(ns);
      assert WireMpis(ns) + tail == WireMpi(ns[0]) + (rest + tail) by { ConcatAssociative(WireMpi(ns[0]), rest, tail); }
      ReadWrittenMpi(ns[0], rest + tail);
      ReadWireMpis(ns[1..], tail);
      assert [ns[0]] + ns[1..] == ns;
    } else {
      assert WireMpis(ns) + tail == tail;
    }
  }

  /**
   An RSA secret key sent by a client in the order n, e, d, iqmp, p, q is stored with the same
   modulus and exponents, the same primes in ascending order, and the inverse of the first prime
   modulo the second.
   */
  lemma RsaSecretReceived(n: int, e: int, d: int, u: int, p: int, q: int, tail: bytes)
    requires Small([n, e, d, u, p, q]) && p > 0 && q > 0 && Inverse(q, p, u)
    ensures var r := Receive(WireString("ssh-rsa") + (WireMpis([n, e, d, u, p, q]) + tail), true);
            && r.Ok? && r.rest == tail && r.value.secret && r.value.algo == Rsa
            && Find(r.value.slots, 'n') == Some(Number(n)) && Find(r.value.slots, 'e') == Some(Number(e))
            && Find(r.value.slots, 'd') == Some(Number(d))
            && exists p', q', u' ::
                 && Find(r.value.slots, 'p') == Some(Number(p')) && Find(r.value.slots, 'q') == Some(Number(q'))
                 && Find(r.value.slots, 'u') == Some(Number(u'))
                 && p' * q' == p * q && {p', q'} == {p, q} && 0 < p' <= q' && Inverse(p', q', u')
  {
    var ns := [n, e, d, u, p, q];
    RsaNames();
    assert Plain(RSA) && !RSA.isEdDsa && !RSA.isEcdsa && !RSA.withCert && RSA.rsaModifier && RSA.algo == Rsa;
    assert RSA.identifier == "ssh-rsa";
    hide RSA, Plain, Regular, Receive, ReadMpis, WireMpis, WireString, Find, Adjusted, Arranged, Inverse, Small, WIRE, STORED;
    ReceiveNamed(RSA, WireMpis(ns) + tail, true);
    ReadWireMpis(ns, tail);
    RsaKeyIsConsistent(n, e, d, u, p, q);
  }
}
