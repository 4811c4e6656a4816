/**
 The formats of SSH keys written out: the data types of section 5 of RFC 4251 by its examples, public
 keys as section 6.6 of RFC 4253 and section 3.1 of RFC 5656 give them, and secret keys as a client
 sends them.
 */
module SshSecretKeys {
  import opened Wrappers
  import opened Bytes
  import opened BigEndian
  import opened SshTable
  import opened SshWire
  import opened SshConstruct
  import opened SshKeys

  // ----- Data types -----

  /** The examples for words, strings and numbers in section 5 of RFC 4251. */
  lemma WireExamples()
    ensures Uint32(0x29b7_f4aa) == [0x29 as char, 0xb7 as char, 0xf4 as char, 0xaa as char]
    ensures WireString("testing") == [0 as char, 0 as char, 0 as char, 7 as char] + "testing"
    ensures WireMpi(0) == [0 as char, 0 as char, 0 as char, 0 as char]
    ensures WireMpi(0x80) == [0 as char, 0 as char, 0 as char, 2 as char, 0 as char, 0x80 as char]
    ensures WireMpi(-0x1234) == [0 as char, 0 as char, 0 as char, 2 as char, 0xed as char, 0xcc as char]
  {
    SignedExamples();
    hide Signed, Octet;
    assert Octet(0) == 0 as char && Octet(2) == 2 as char && Octet(7) == 7 as char by { OctetIs(0); OctetIs(2); OctetIs(7); }
    OctetIs(0x29);
    OctetIs(0x29b7);
    OctetIs(0x29_b7f4);
    OctetIs(0x29b7_f4aa);
  }

  lemma OctetIs(n: nat)
    ensures Octet(n) == (n % 256) as char
  {
  }

  lemma SignedExamples()
    ensures Signed(0) == [] && Signed(0x80) == [0 as char, 0x80 as char] && Signed(-0x1234) == [0xed as char, 0xcc as char]
  {
    assert Octets(0) == [];
    assert Octets(0x80) == [0x80 as char];
    assert Octets(0x12) == [0x12 as char];
    assert Octets(0x1233) == [0x12 as char, 0x33 as char];
    assert Complement([0x12 as char, 0x33 as char]) == [0xed as char, 0xcc as char];
  }

  // ----- Secret keys -----

  lemma Ed25519Row()
    ensures ED25519.identifier == "ssh-ed25519" && ED25519.curve == Some("Ed25519") && ED25519.algo == EdDsa
    ensures Plain(ED25519) && ED25519.isEdDsa && !ED25519.withCert
  {
  }

  lemma ReadSeedOf(d: bytes, tail: bytes)
    requires |d| < WORD
    ensures ReadSeed(WireString(d) + tail) == if |d| == 32 || |d| == 64 then Ok(d[..32], tail) else Bad(BadSeckey)
  {
    assert d[..|d| % WORD] == d;
    hide ReadUint32, Uint32;
    assert WireString(d) + tail == Uint32(|d|) + (d + tail) by { ConcatAssociative(Uint32(|d|), d, tail); }
    ReadWrittenLength(|d|, d + tail);
    if |d| == 32 || |d| == 64 {
      assert (d + tail)[..32] == d[..32] && (d + tail)[|d|..] == tail;
    }
  }

  /** A secret key of type Ed25519 from its public key and its private string. */
  lemma Ed25519Received(q: bytes, d: bytes, tail: bytes)
    requires |q| < WORD && |d| < WORD
    ensures Receive(WireString("ssh-ed25519") + (WireString(q) + (WireString(d) + tail)), true) ==
            if |q| > 520 then Bad(TooLarge)
            else if |d| != 32 && |d| != 64 then Bad(BadSeckey)
            else Ok(Key(true, EdDsa, Some("Ed25519"), [Slot('q', Data(['@'] + q)), Slot('d', Data(d[..32]))]), tail)
  {
    Ed25519Row();
    hide ED25519, Plain, Regular, Receive, ReadBlob, ReadSeed, WireString;
    var rest := WireString(q) + (WireString(d) + tail);
    ReceiveNamed(ED25519, rest, true);
    ReadWrittenBlob(q, WireString(d) + tail);
    ReadSeedOf(d, tail);
  }

  /**
   A client sends the seed of an Ed25519 key followed by a copy of the public key, or alone: the seed
   is what is stored, and the public key gets the prefix 0x40.
   */
  lemma Ed25519SeedIsStored(q: bytes, seed: bytes, copy: bytes, tail: bytes)
    requires |q| <= 520 && |seed| == 32 && (|copy| == 0 || |copy| == 32)
    ensures Receive(WireString("ssh-ed25519") + (WireString(q) + (WireString(seed + copy) + tail)), true) ==
            Ok(Key(true, EdDsa, Some("Ed25519"), [Slot('q', Data([0x40 as char] + q)), Slot('d', Data(seed))]), tail)
  {
    Ed25519Received(q, seed + copy, tail);
    assert (seed + copy)[..32] == seed;
    assert '@' == 0x40 as char;
  }

  /** Numbers that are stored in the order in which they are sent. */
  lemma BuiltSecret(spec: Spec, curve: Option<bytes>, mpis: seq<int>)
    requires Regular(spec) && !spec.rsaModifier && spec.sexpOrder == spec.secretElems && |mpis| == |spec.secretElems|
    ensures var key := Built(spec, true, curve, mpis);
            && key == Key(true, spec.algo, curve, key.slots) && |key.slots| == |mpis|
            && forall i :: 0 <= i < |mpis| ==> key.slots[i] == Slot(spec.secretElems[i], Number(mpis[i]))
  {
    hide IndexOf;
    var key := Built(spec, true, curve, mpis);
    hide Arranged;
    forall i | 0 <= i < |mpis|
      ensures IndexOf(spec.secretElems, spec.secretElems[i]) == i
    {
    }
    assert forall i :: 0 <= i < |mpis| ==> key.slots[i].name == spec.secretElems[i];
  }

  lemma NumbersReceived(spec: Spec, curve: Option<bytes>, mpis: seq<int>, tail: bytes)
    requires Regular(spec) && !spec.rsaModifier && spec.sexpOrder == spec.secretElems && |mpis| == |spec.secretElems|
    requires Small(mpis)
    ensures ReceiveNumbers(spec, true, curve, WireMpis(mpis) + tail) == Ok(Built(spec, true, curve, mpis), tail)
  {
    hide ReadMpis, WireMpis, Built, Regular, Small;
    ReadWireMpis(mpis, tail);
  }

  lemma NistRow(row: Spec)
    requires row in [P256, P384, P521]
    ensures Plain(row) && row.isEcdsa && !row.isEdDsa && !row.withCert && !row.rsaModifier && row.algo == Ecc
    ensures row.secretElems == row.sexpOrder == ['q', 'd'] && row.curve.Some?
  {
  }

  lemma NistNames()
    ensures P256.identifier == "ecdsa-sha2-nistp256" && P256.curve == Some("nistp256") && P256.altCurve == Some("NIST P-256")
    ensures P384.identifier == "ecdsa-sha2-nistp384" && P384.curve == Some("nistp384") && P384.altCurve == Some("NIST P-384")
    ensures P521.identifier == "ecdsa-sha2-nistp521" && P521.curve == Some("nistp521") && P521.altCurve == Some("NIST P-521")
  {
  }

  const ECDSA: bytes := "ecdsa-sha2-"

  /** The name of the key type for a curve. */
  function EcdsaType(curve: bytes): bytes {
    ECDSA + curve
  }

  /** A key on a curve that is known is read as its numbers. */
  lemma CurveIsRead(row: Spec, other: Spec, name: bytes, rest: bytes)
    requires Regular(row) && row.isEcdsa && !row.isEdDsa && !row.withCert && ByCurve(name) == Some(other)
    requires CString(name) == name && |name| < WORD
    ensures ReceiveAs(row, true, WireString(name) + rest) == ReceiveNumbers(row, true, other.curve, rest)
  {
    hide Regular, ByCurve, CString, WireString, ReadString, ReceiveNumbers;
    ReadWrittenString(name, rest);
  }

  /**
   A secret key of one of the three NIST types: its curve is the one that is named behind the type, even
   if the type is that of another curve.
   */
  lemma CurveNameDecides(row: Spec, other: Spec, name: bytes, q: int, d: int, tail: bytes)
    requires row in [P256, P384, P521] && other in [P256, P384, P521] && Small([q, d])
    requires Some(name) == other.curve || Some(name) == other.altCurve
    ensures Receive(WireString(row.identifier) + (WireString(name) + (WireMpis([q, d]) + tail)), true) ==
            Ok(Key(true, Ecc, other.curve, [Slot('q', Number(q)), Slot('d', Number(d))]), tail)
  {
    NistRow(row);
    CurveByEitherName(other, name);
    PrintableName(other, name);
    hide *;
    var rest := WireMpis([q, d]) + tail;
    ReceiveNamed(row, WireString(name) + rest, true);
    CurveIsRead(row, other, name, rest);
    NumbersReceived(row, other.curve, [q, d], tail);
    BuiltSecret(row, other.curve, [q, d]);
    assert Built(row, true, other.curve, [q, d]).slots == [Slot('q', Number(q)), Slot('d', Number(d))];
  }

  lemma CurveNames()
    ensures forall i :: 0 <= i < |TABLE| && TABLE[i].curve.Some? ==>
              && TABLE[i].curve.value in ["Ed25519", "nistp256", "nistp384", "nistp521"]
              && (TABLE[i].altCurve.Some? ==> TABLE[i].altCurve.value in ["NIST P-256", "NIST P-384", "NIST P-521"])
  {
  }

  /** A key on any other curve is refused. */
  lemma OtherCurvesAreRefused(row: Spec, name: bytes, rest: bytes, secret: bool)
    requires row in [P256, P384, P521] && |name| < WORD && NUL !in name
    requires name !in ["Ed25519", "nistp256", "nistp384", "nistp521", "NIST P-256", "NIST P-384", "NIST P-521"]
    ensures Receive(WireString(row.identifier) + (WireString(name) + rest), secret) == Bad(UnknownCurve)
  {
    NistRow(row);
    CurveNames();
    CStringIsAll(name);
    hide P256, P384, P521, TABLE, Plain, Regular, Receive, ReadString, CString, WireString, ReceiveNumbers, First;
    if ByCurve(name).Some? {
      var i := FirstFound(TABLE, (r: Spec) => HasCurve(r, name));
    }
    ReceiveNamed(row, WireString(name) + rest, secret);
    ReadWrittenString(name, rest);
  }

  lemma PrintableName(row: Spec, name: bytes)
    requires row in [P256, P384, P521] && (Some(name) == row.curve || Some(name) == row.altCurve)
    ensures CString(name) == name && |name| < WORD
  {
    NistRow(row);
    NamesArePrintable();
    AliasesArePrintable();
    CurvesDiffer();
    hide P256, P384, P521, CString, Plain;
    CStringIsAll(name);
  }

  lemma AliasesArePrintable()
    ensures P256.altCurve.Some? && P384.altCurve.Some? && P521.altCurve.Some?
    ensures NUL !in P256.altCurve.value && NUL !in P384.altCurve.value && NUL !in P521.altCurve.value
  {
  }

  lemma TwoSmall(q: int, d: int)
    requires |Signed(q)| <= 520 && |Signed(d)| <= 520
    ensures Small([q, d])
  {
    hide Signed;
  }

  function LongName(curve: bytes): bytes {
    if curve == "nistp256" then "NIST P-256" else if curve == "nistp384" then "NIST P-384" else "NIST P-521"
  }

  /** The row of one of the three NIST curves. */
  lemma NistByCurve(curve: bytes) returns (row: Spec)
    requires curve == "nistp256" || curve == "nistp384" || curve == "nistp521"
    ensures row in [P256, P384, P521] && row.curve == Some(curve) && row.identifier == EcdsaType(curve)
    ensures row.altCurve == Some(LongName(curve))
  {
    IdentifierOfCurve();
    CurvesDiffer();
    assert LongName("nistp256") == "NIST P-256" && LongName("nistp384") == "NIST P-384" && LongName("nistp521") == "NIST P-521";
    NistNames();
    row := if Some(curve) == P256.curve then P256 else if Some(curve) == P384.curve then P384 else P521;
    assert row in [P256, P384, P521];
  }

  /** A secret key on one of the three NIST curves, whose name may also be the long one. */
  lemma EcdsaSecretReceived(curve: bytes, name: bytes, q: int, d: int, tail: bytes)
    requires curve == "nistp256" || curve == "nistp384" || curve == "nistp521"
    requires name == curve || name == LongName(curve)
    requires |Signed(q)| <= 520 && |Signed(d)| <= 520
    ensures Receive(WireString(EcdsaType(curve)) + (WireString(name) + (WireMpis([q, d]) + tail)), true) ==
            Ok(Key(true, Ecc, Some(curve), [Slot('q', Number(q)), Slot('d', Number(d))]), tail)
  {
    TwoSmall(q, d);
    hide *;
    var row := NistByCurve(curve);
    CurveNameDecides(row, row, name, q, d, tail);
  }

  lemma DssRow()
    ensures DSS.identifier == "ssh-dss" && DSS.algo == Dsa && Plain(DSS)
    ensures !DSS.isEdDsa && !DSS.isEcdsa && !DSS.withCert && !DSS.rsaModifier
    ensures DSS.secretElems == DSS.sexpOrder == ['p', 'q', 'g', 'y', 'x'] && DSS.publicElems == ['p', 'q', 'g', 'y']
  {
  }

  /** A DSA secret key: p, q, g, y and x in this order. */
  lemma DsaSecretReceived(p: int, q: int, g: int, y: int, x: int, tail: bytes)
    requires Small([p, q, g, y, x])
    ensures Receive(WireString("ssh-dss") + (WireMpis([p, q, g, y, x]) + tail), true) ==
            Ok(Key(true, Dsa, None, [Slot('p', Number(p)), Slot('q', Number(q)), Slot('g', Number(g)),
                                     Slot('y', Number(y)), Slot('x', Number(x))]), tail)
  {
    var ns := [p, q, g, y, x];
    DssRow();
    hide DSS, Plain, Regular, Receive, WireMpis, WireString, Built, Small, ReceiveNumbers;
    ReceiveNamed(DSS, WireMpis(ns) + tail, true);
    NumbersReceived(DSS, None, ns, tail);
    BuiltSecret(DSS, None, ns);
    assert Built(DSS, true, None, ns).slots ==
           [Slot('p', Number(p)), Slot('q', Number(q)), Slot('g', Number(g)), Slot('y', Number(y)), Slot('x', Number(x))];
  }

  // ----- What is not a key -----

  lemma TypeNames()
    ensures forall i :: 0 <= i < |TABLE| ==>
              TABLE[i].identifier in ["ssh-ed25519", "ssh-rsa", "ssh-dss", "ecdsa-sha2-nistp256", "ecdsa-sha2-nistp384",
                                      "ecdsa-sha2-nistp521"]
              || (TABLE[i].withCert && |TABLE[i].identifier| >= 21
                  && TABLE[i].identifier[|TABLE[i].identifier| - 21..] == "-cert-v01@openssh.com")
  {
  }

  /** A key of a type that is not in the table is refused, and so is one with a certificate. */
  lemma OtherTypesAreRefused(name: bytes, rest: bytes, secret: bool)
    requires |name| < WORD && NUL !in name
    requires name !in ["ssh-ed25519", "ssh-rsa", "ssh-dss", "ecdsa-sha2-nistp256", "ecdsa-sha2-nistp384", "ecdsa-sha2-nistp521"]
    ensures Receive(WireString(name) + rest, secret).Bad?
    ensures |name| < 21 || name[|name| - 21..] != "-cert-v01@openssh.com" ==> Receive(WireString(name) + rest, secret) == Bad(NotFound)
  {
    TypeNames();
    ReadWrittenString(name, rest);
    CStringIsAll(name);
    ByNameIsRegular(name);
    hide WireString, ReadString, CString, TABLE, Regular;
    if ByName(name).Some? {
      var i := FirstFound(TABLE, (row: Spec) => row.identifier == name);
      assert TABLE[i].identifier == name;
    }
  }

  // ----- Public keys -----

  /** A blob is refused if and only if a parameter is missing, or an ECDSA key has no known curve. */
  lemma BlobRefusedIff(spec: Spec, key: Key)
    requires spec in [ED25519, RSA, DSS, P256]
    ensures Blob(spec, key) == None <==>
            || (exists i :: 0 <= i < |spec.publicElems| && Find(key.slots, spec.publicElems[i]) == None)
            || (spec == P256 && (key.curve == None || ByCurve(key.curve.value) == None))
  {
    ParamsPresent(spec, key.slots, spec.publicElems);
    assert spec.isEcdsa <==> spec == P256 by { assert !ED25519.isEcdsa && !RSA.isEcdsa && !DSS.isEcdsa && P256.isEcdsa; }
    if key.curve.Some? && ByCurve(key.curve.value).Some? {
      ByCurveIs(key.curve.value);
      NistAndEd();
    }
    hide ED25519, RSA, DSS, P256, P384, P521, Find, Params, ByCurve, WireString;
  }

  lemma NistAndEd()
    ensures ED25519.curve.Some? && P256.curve.Some? && P384.curve.Some? && P521.curve.Some?
  {
  }

  /** The blob of an RSA key: its name, the exponent and the modulus. */
  lemma RsaBlobIs(key: Key, e: int, n: int)
    requires Find(key.slots, 'e') == Some(Number(e)) && Find(key.slots, 'n') == Some(Number(n))
    ensures Blob(RSA, key) == Some(WireString("ssh-rsa") + (WireMpi(e) + (WireMpi(n) + [])))
  {
    hide Find, WireString, WireMpi;
    assert RSA.publicElems == ['e', 'n'];
    assert ['e', 'n'][1..] == ['n'] && ['n'][1..] == [];
    assert Params(RSA, key.slots, []) == Some([]);
    assert Params(RSA, key.slots, ['n']) == Some(WireMpi(n) + []);
    assert Params(RSA, key.slots, ['e', 'n']) == Some(WireMpi(e) + (WireMpi(n) + []));
  }

  /** The blob of a DSA key: its name, p, q, g and y. */
  lemma DsaBlobIs(key: Key, p: int, q: int, g: int, y: int)
    requires Find(key.slots, 'p') == Some(Number(p)) && Find(key.slots, 'q') == Some(Number(q))
    requires Find(key.slots, 'g') == Some(Number(g)) && Find(key.slots, 'y') == Some(Number(y))
    ensures Blob(DSS, key) == Some(WireString("ssh-dss") + (WireMpi(p) + (WireMpi(q) + (WireMpi(g) + (WireMpi(y) + [])))))
  {
    hide Find, WireString, WireMpi;
    DssRow();
    assert ['p', 'q', 'g', 'y'][1..] == ['q', 'g', 'y'] && ['q', 'g', 'y'][1..] == ['g', 'y'];
    assert ['g', 'y'][1..] == ['y'] && ['y'][1..] == [];
    assert Params(DSS, key.slots, []) == Some([]);
    assert Params(DSS, key.slots, ['y']) == Some(WireMpi(y) + []);
    assert Params(DSS, key.slots, ['g', 'y']) == Some(WireMpi(g) + (WireMpi(y) + []));
    assert Params(DSS, key.slots, ['q', 'g', 'y']) == Some(WireMpi(q) + (WireMpi(g) + (WireMpi(y) + [])));
  }

  /** The blob of an Ed25519 key: its name and the public key without its prefix. */
  lemma Ed25519BlobIs(key: Key, q: bytes)
    requires Find(key.slots, 'q') == Some(Data([0x40 as char] + q)) && |q| % 2 == 0
    ensures Blob(ED25519, key) == Some(WireString("ssh-ed25519") + WireString(q))
  {
    PrefixDropped(q);
    assert Present(key.slots, ['q']);
    EdDsaParams(key);
    Ed25519Row();
    EdDsaRow();
    hide Find, WireString, Param, Params, ED25519, Plain;
  }

  /** Octets without the prefix are sent as they are; so is every string of even length. */
  lemma OtherBlobIs(key: Key, q: bytes)
    requires Find(key.slots, 'q') == Some(Data(q)) && (|q| % 2 == 0 || q[0] != 0x40 as char)
    ensures Blob(ED25519, key) == Some(WireString("ssh-ed25519") + WireString(q))
  {
    assert '@' == 0x40 as char;
    assert Param(ED25519, 'q', Data(q)) == WireString(q) by { hide WireString; }
    assert Present(key.slots, ['q']);
    EdDsaParams(key);
    Ed25519Row();
    EdDsaRow();
    hide Find, WireString, Param, Params, ED25519, Plain;
  }

  lemma PrefixDropped(q: bytes)
    requires |q| % 2 == 0
    ensures Param(ED25519, 'q', Data([0x40 as char] + q)) == WireString(q)
  {
    hide WireString;
    assert '@' == 0x40 as char && ([0x40 as char] + q)[1..] == q;
    assert Prefixed([0x40 as char] + q);
  }

  /** The blob of an ECDSA key: the name of its type, that of its curve, and the public point. */
  lemma EcdsaBlobIs(key: Key, curve: bytes, row: Spec, q: int)
    requires key.curve == Some(curve) && Find(key.slots, 'q') == Some(Number(q))
    requires row in [P256, P384, P521] && (Some(curve) == row.curve || Some(curve) == row.altCurve)
    ensures row.curve.Some?
    ensures Blob(P256, key) == Some(WireString(EcdsaType(row.curve.value)) + WireString(row.curve.value) + (WireMpi(q) + []))
  {
    NistNames();
    NistRow(row);
    CurveByEitherName(row, curve);
    assert row.identifier == EcdsaType(row.curve.value) by { IdentifierOfCurve(); }
    assert P256.publicElems == ['q'] && !P256.isEdDsa && P256.isEcdsa;
    hide Find, WireString, WireMpi, P256, P384, P521, ByCurve;
    assert ['q'][1..] == [];
    assert Params(P256, key.slots, []) == Some([]);
    assert Params(P256, key.slots, ['q']) == Some(WireMpi(q) + []);
  }

  lemma IdentifierOfCurve()
    ensures P256.identifier == EcdsaType(P256.curve.value)
    ensures P384.identifier == EcdsaType(P384.curve.value)
    ensures P521.identifier == EcdsaType(P521.curve.value)
  {
  }

  lemma CurveByEitherName(row: Spec, name: bytes)
    requires row in [P256, P384, P521] && (Some(name) == row.curve || Some(name) == row.altCurve)
    ensures ByCurve(name) == Some(row)
  {
    CurvesDiffer();
    AliasesDiffer();
    var plain := [ED25519, RSA, DSS, P256, P384, P521];
    var i := if row == P256 then 3 else if row == P384 then 4 else 5;
    assert plain[i] == row;
    TableStarts();
    assert forall j :: 0 <= j < i ==> !HasCurve(plain[j], name);
    assert HasCurve(row, name);
    hide TABLE, ED25519, RSA, DSS, P256, P384, P521, First, HasCurve;
    FirstIs(TABLE, (r: Spec) => HasCurve(r, name), i);
  }

  lemma AliasesDiffer()
    ensures P256.altCurve != P384.altCurve && P256.altCurve != P521.altCurve && P384.altCurve != P521.altCurve
  {
    assert P256.altCurve.value[7] == '2' && P384.altCurve.value[7] == '3' && P521.altCurve.value[7] == '5';
  }

  // ----- Secret keys sent and received -----

  /** Only of a secret key in the clear are secret parameters written, and only if asked for. */
  lemma SecretsAreAskedFor(spec: Spec, key: Key, withSecret: bool)
    requires !key.secret || !withSecret
    ensures KeyBlob(spec, key, withSecret) == Blob(spec, key)
  {
  }

  /** The slots hold these numbers under these names. */
  ghost predicate HoldNumbers(slots: seq<Slot>, names: bytes, ns: seq<int>) {
    |names| == |ns| && forall i :: 0 <= i < |names| ==> Find(slots, names[i]) == Some(Number(ns[i]))
  }

  /** What is written for a list of numbers. */
  lemma {:induction false} NumbersWritten(spec: Spec, slots: seq<Slot>, names: bytes, ns: seq<int>)
    requires !spec.isEdDsa && HoldNumbers(slots, names, ns)
    ensures Params(spec, slots, names) == Some(WireMpis(ns))
    decreases names
  {
    if names != [] {
      hide Find, WireMpi;
      assert forall i :: 0 <= i < |names| - 1 ==> names[1..][i] == names[i + 1] && ns[1..][i] == ns[i + 1];
      NumbersWritten(spec, slots, names[1..], ns[1..]);
      assert Find(slots, names[0]) == Some(Number(ns[0]));
    }
  }

  /** A DSA secret key comes back with the same parameters. */
  lemma DsaSecretRoundTrip(key: Key, p: int, q: int, g: int, y: int, x: int)
    requires key.secret && HoldNumbers(key.slots, ['p', 'q', 'g', 'y', 'x'], [p, q, g, y, x]) && Small([p, q, g, y, x])
    ensures KeyBlob(DSS, key, true).Some?
    ensures Receive(KeyBlob(DSS, key, true).value, true) ==
            Ok(Key(true, Dsa, None, [Slot('p', Number(p)), Slot('q', Number(q)), Slot('g', Number(g)),
                                     Slot('y', Number(y)), Slot('x', Number(x))]), [])
  {
    var ns := [p, q, g, y, x];
    DssRow();
    hide DSS, Find, WireMpis, WireString, Receive, Params, Small, HoldNumbers, Plain;
    NumbersWritten(DSS, key.slots, ['p', 'q', 'g', 'y', 'x'], ns);
    DsaSecretReceived(p, q, g, y, x, []);
    assert WireMpis(ns) + [] == WireMpis(ns);
  }

  /** An ECDSA secret key comes back with the same parameters and the short name of its curve. */
  lemma EcdsaSecretRoundTrip(key: Key, row: Spec, name: bytes, q: int, d: int)
    requires row in [P256, P384, P521] && (Some(name) == row.curve || Some(name) == row.altCurve)
    requires key.secret && key.curve == Some(name) && HoldNumbers(key.slots, ['q', 'd'], [q, d]) && Small([q, d])
    ensures KeyBlob(P256, key, true).Some?
    ensures Receive(KeyBlob(P256, key, true).value, true) ==
            Ok(Key(true, Ecc, row.curve, [Slot('q', Number(q)), Slot('d', Number(d))]), [])
  {
    NistRow(row);
    NistRow(P256);
    CurveByEitherName(row, name);
    hide P256, P384, P521, Find, WireMpis, WireString, Receive, Params, Small, HoldNumbers, ByCurve, Plain;
    NumbersWritten(P256, key.slots, ['q', 'd'], [q, d]);
    CurveNameDecides(row, row, row.curve.value, q, d, []);
    var params := WireMpis([q, d]);
    assert params + [] == params;
    ConcatAssociative(WireString(row.identifier), WireString(row.curve.value), params);
  }

  /** An Ed25519 secret key comes back with the same octets. */
  lemma Ed25519SecretRoundTrip(key: Key, q: bytes, d: bytes)
    requires key.secret && |q| % 2 == 0 && |q| <= 520 && |d| == 32
    requires Find(key.slots, 'q') == Some(Data([0x40 as char] + q)) && Find(key.slots, 'd') == Some(Data(d))
    ensures KeyBlob(ED25519, key, true).Some?
    ensures Receive(KeyBlob(ED25519, key, true).value, true) ==
            Ok(Key(true, EdDsa, Some("Ed25519"), [Slot('q', Data([0x40 as char] + q)), Slot('d', Data(d))]), [])
  {
    Ed25519SeedIsStored(q, d, [], []);
    PrefixDropped(q);
    assert d + [] == d;
    SeedWritten(key, q, d);
    Ed25519Row();
    assert !ED25519.isEcdsa && ED25519.secretElems == ['q', 'd'];
    hide Find, WireString, Receive, Params, ED25519, Plain;
    assert WireString(d) + [] == WireString(d);
  }

  lemma SeedWritten(key: Key, q: bytes, d: bytes)
    requires |q| % 2 == 0 && Find(key.slots, 'q') == Some(Data([0x40 as char] + q)) && Find(key.slots, 'd') == Some(Data(d))
    ensures Params(ED25519, key.slots, ['q', 'd']) == Some(WireString(q) + WireString(d))
  {
    PrefixDropped(q);
    hide Find, WireString;
    assert ['q', 'd'][1..] == ['d'] && ['d'][1..] == [];
    assert Params(ED25519, key.slots, []) == Some([]);
    assert WireString(d) + [] == WireString(d);
    assert Params(ED25519, key.slots, ['d']) == Some(WireString(d));
  }

  /** There is at most one inverse below the modulus. */
  lemma InverseIsUnique(a: int, m: int, x: nat, y: nat)
    requires m > 0 && x < m && y < m && Inverse(a, m, x) && Inverse(a, m, y)
    ensures x == y
  {
    if m > 1 {
      var s, t := (a * x) / m, (a * y) / m;
      assert a * x == s * m + 1 && a * y == t * m + 1 by {
        assert 1 % m == 1;
      }
      CrossMultiplied(a, m, x, y, s, t);
      Multiple(y - x, m, x * t - y * s);
    }
  }

  lemma CrossMultiplied(a: int, m: int, x: int, y: int, s: int, t: int)
    requires a * x == s * m + 1 && a * y == t * m + 1
    ensures y - x == (x * t - y * s) * m
  {
    assert (a * x) * y == (s * m + 1) * y == s * m * y + y;
    assert (a * y) * x == (t * m + 1) * x == t * m * x + x;
    assert (a * x) * y == (a * y) * x;
    assert (x * t - y * s) * m == x * t * m - y * s * m;
  }

  lemma Multiple(d: int, m: int, k: int)
    requires m > 0 && -m < d < m && d == k * m
    ensures d == 0
  {
    assert k > 0 ==> k * m >= m;
    assert k < 0 ==> k * m <= -m;
  }

  lemma AdjustedIsSame(n: int, e: int, d: int, u: nat, p: int, q: int)
    requires 0 < p <= q && u < q && Inverse(p, q, u)
    ensures Adjusted(WIRE, [n, e, d, u, p, q]) == [n, e, d, u, p, q]
  {
    InverseFound(p, q, 0, u);
    hide Inverse;
    InverseLeast(p, q, 0);
    InverseIsUnique(p, q, InverseFrom(p, q, 0).value, u);
    hide InverseFrom;
  }

  lemma {:induction false} InverseLeast(a: int, m: int, x: nat)
    requires m > 0
    ensures InverseFrom(a, m, x).Some? ==> InverseFrom(a, m, x).value < m && Inverse(a, m, InverseFrom(a, m, x).value)
    decreases m - x
  {
    hide Inverse;
    if x < m {
      InverseLeast(a, m, x + 1);
    }
  }

  /**
   An RSA secret key as the agent stores it, with ascending primes and the inverse of the first modulo
   the second, comes back with the same number under every name.
   */
  lemma RsaSecretRoundTrip(key: Key, n: int, e: int, d: int, u: nat, p: int, q: int)
    requires key.secret && HoldNumbers(key.slots, WIRE, [n, e, d, u, p, q]) && Small([n, e, d, u, p, q])
    requires 0 < p <= q && u < q && Inverse(p, q, u)
    ensures KeyBlob(RSA, key, true).Some?
    ensures var r := Receive(KeyBlob(RSA, key, true).value, true);
            && r.Ok? && r.rest == [] && r.value.secret && r.value.algo == Rsa && r.value.curve == None
            && HoldNumbers(r.value.slots, WIRE, [n, e, d, u, p, q])
  {
    var ns := [n, e, d, u, p, q];
    RsaRow();
    hide *;
    NumbersWritten(RSA, key.slots, WIRE, ns);
    RsaBlob(key, WireMpis(ns));
    ReceiveNamed(RSA, WireMpis(ns), true);
    assert WireMpis(ns) + [] == WireMpis(ns);
    ReadWireMpis(ns, []);
    AdjustedIsSame(n, e, d, u, p, q);
    RsaReceivedIs(WireMpis(ns), ns);
    RsaHolds(ns);
  }

  lemma RsaRow()
    ensures Plain(RSA) && !RSA.isEdDsa && !RSA.isEcdsa && !RSA.withCert && RSA.rsaModifier && RSA.algo == Rsa
    ensures RSA.secretElems == WIRE && RSA.sexpOrder == STORED
  {
  }

  lemma RsaBlob(key: Key, params: bytes)
    requires key.secret && Params(RSA, key.slots, WIRE) == Some(params)
    ensures KeyBlob(RSA, key, true) == Some(WireString(RSA.identifier) + params)
  {
    RsaRow();
    hide RSA, Params, WireString, WIRE, STORED;
  }

  /** Numbers that need no adjustment are stored as they were received. */
  lemma RsaReceivedIs(s: bytes, ns: seq<int>)
    requires |ns| == 6 && ReadMpis(s, 6) == Ok(ns, []) && Adjusted(WIRE, ns) == ns && Regular(RSA)
    ensures |WIRE| == 6 && forall i :: 0 <= i < |STORED| ==> STORED[i] in WIRE
    ensures ReceiveAs(RSA, true, s) == Ok(Key(true, Rsa, None, Arranged(STORED, WIRE, ns)), [])
  {
    RsaRow();
    RsaNames();
    hide RSA, ReadMpis, WIRE, STORED, Adjusted, Arranged, Regular;
  }

  lemma RsaHolds(ns: seq<int>)
    requires |ns| == 6
    ensures |WIRE| == 6 && forall i :: 0 <= i < |STORED| ==> STORED[i] in WIRE
    ensures HoldNumbers(Arranged(STORED, WIRE, ns), WIRE, ns)
  {
    RsaNames();
    hide WIRE, STORED, Find, Arranged;
    forall k: nat | k < 6
      ensures Find(Arranged(STORED, WIRE, ns), WIRE[k]) == Some(Number(ns[k]))
    {
      RsaSlot(ns, k);
    }
  }
}
