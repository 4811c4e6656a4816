/** The table of SSH key types and the searches in it. */
module SshTable {
  import opened Wrappers
  import opened Bytes

  datatype Algo = EdDsa | Rsa | Dsa | Ecc | NoAlgo

  /** How a key type is named, which parameters it has, and in which orders they are sent and stored. */
  datatype Spec = Spec(
    identifier: bytes,
    algo: Algo,
    secretElems: bytes,
    publicElems: bytes,
    sexpOrder: bytes,
    rsaModifier: bool,
    curve: Option<bytes>,
    altCurve: Option<bytes>,
    isEdDsa: bool,
    isEcdsa: bool,
    withCert: bool)

  const ED25519 := Spec("ssh-ed25519", EdDsa, "qd", "q", "qd", false, Some("Ed25519"), None, true, false, false)
  const RSA := Spec("ssh-rsa", Rsa, "nedupq", "en", "nedpqu", true, None, None, false, false, false)
  const DSS := Spec("ssh-dss", Dsa, "pqgyx", "pqgy", "pqgyx", false, None, None, false, false, false)

  function Nist(identifier: bytes, curve: bytes, altCurve: bytes): Spec {
    Spec(identifier, Ecc, "qd", "q", "qd", false, Some(curve), Some(altCurve), false, true, false)
  }

  const P256 := Nist("ecdsa-sha2-nistp256", "nistp256", "NIST P-256")
  const P384 := Nist("ecdsa-sha2-nistp384", "nistp384", "NIST P-384")
  const P521 := Nist("ecdsa-sha2-nistp521", "nistp521", "NIST P-521")

  const CERT_SUFFIX: bytes := "-cert-v01@openssh.com"

  function WithCert(spec: Spec): Spec {
    spec.(identifier := spec.identifier + CERT_SUFFIX, withCert := true)
  }

  const TABLE: seq<Spec> := [
    ED25519, RSA, DSS, P256, P384, P521,
    WithCert(ED25519), WithCert(RSA), WithCert(DSS), WithCert(P256), WithCert(P384), WithCert(P521)]

  function First(rows: seq<Spec>, p: Spec -> bool): Option<Spec> {
    if rows == [] then None else if p(rows[0]) then Some(rows[0]) else First(rows[1..], p)
  }

  predicate HasCurve(row: Spec, name: bytes) {
    row.curve == Some(name) || (row.curve.Some? && row.altCurve == Some(name))
  }

  function ByName(name: bytes): Option<Spec> {
    First(TABLE, (row: Spec) => row.identifier == name)
  }

  function ByAlgo(algo: Algo): Option<Spec> {
    First(TABLE, (row: Spec) => row.algo == algo)
  }

  function ByCurve(name: bytes): Option<Spec> {
    First(TABLE, (row: Spec) => HasCurve(row, name))
  }

  // ----- The search loops -----

  /** `ssh_key_type_lookup`: by name if there is one, or by algorithm. */
  method Lookup(name: Option<bytes>, algo: Algo) returns (r: Option<Spec>)
    ensures r == First(TABLE, (row: Spec) => (name.Some? && row.identifier == name.value) || row.algo == algo)
  {
    hide TABLE;
    ghost var p := (row: Spec) => (name.Some? && row.identifier == name.value) || row.algo == algo;
    assert TABLE[0..] == TABLE;
    for i := 0 to |TABLE|
      invariant First(TABLE, p) == First(TABLE[i..], p)
    {
      assert TABLE[i..][0] == TABLE[i] && TABLE[i..][1..] == TABLE[i + 1..];
      if (name.Some? && name.value == TABLE[i].identifier) || algo == TABLE[i].algo {
        return Some(TABLE[i]);
      }
    }
    return None;
  }

  /** `ssh_identifier_from_curve_name`: the identifier and the canonical name of the curve. */
  method IdentifierFromCurveName(name: bytes) returns (r: Option<(bytes, bytes)>)
    ensures r.Some? == ByCurve(name).Some?
    ensures r.Some? ==> r.value.0 == ByCurve(name).value.identifier && Some(r.value.1) == ByCurve(name).value.curve
  {
    hide TABLE;
    ghost var p := (row: Spec) => HasCurve(row, name);
    assert TABLE[0..] == TABLE;
    for i := 0 to |TABLE|
      invariant First(TABLE, p) == First(TABLE[i..], p)
    {
      assert TABLE[i..][0] == TABLE[i] && TABLE[i..][1..] == TABLE[i + 1..];
      if TABLE[i].curve.Some? && (TABLE[i].curve.value == name || TABLE[i].altCurve == Some(name)) {
        return Some((TABLE[i].identifier, TABLE[i].curve.value));
      }
    }
    return None;
  }

  // ----- What the searches find -----

  lemma {:induction false} FirstIs(rows: seq<Spec>, p: Spec -> bool, i: nat)
    requires i < |rows| && p(rows[i]) && forall j :: 0 <= j < i ==> !p(rows[j])
    ensures First(rows, p) == Some(rows[i])
    decreases i
  {
    if i > 0 {
      assert !p(rows[0]);
      FirstIs(rows[1..], p, i - 1);
    }
  }

  lemma {:induction false} FirstFound(rows: seq<Spec>, p: Spec -> bool) returns (i: nat)
    requires First(rows, p).Some?
    ensures i < |rows| && p(rows[i]) && First(rows, p) == Some(rows[i]) && forall j :: 0 <= j < i ==> !p(rows[j])
  {
    if p(rows[0]) {
      i := 0;
    } else {
      var k := FirstFound(rows[1..], p);
      i := k + 1;
      assert forall j :: 0 < j < i ==> rows[j] == rows[1..][j - 1];
    }
  }

  /** The key types without a certificate come first. */
  predicate Plain(row: Spec) {
    row in [ED25519, RSA, DSS, P256, P384, P521]
  }

  lemma NamesDiffer()
    ensures |ED25519.identifier| == 11 && |RSA.identifier| == |DSS.identifier| == 7
    ensures |P256.identifier| == |P384.identifier| == |P521.identifier| == 19
    ensures RSA.identifier != DSS.identifier && P256.identifier != P384.identifier
    ensures P521.identifier != P384.identifier && P521.identifier != P256.identifier
  {
    assert RSA.identifier[4] == 'r' && DSS.identifier[4] == 'd';
    assert P256.identifier[16] == '2' && P384.identifier[16] == '3' && P521.identifier[16] == '5';
  }

  /** A plain key type is found under its own name. */
  lemma PlainByName(row: Spec)
    requires Plain(row)
    ensures ByName(row.identifier) == Some(row)
  {
    NamesDiffer();
    var p := (r: Spec) => r.identifier == row.identifier;
    var plain := [ED25519, RSA, DSS, P256, P384, P521];
    var i :| 0 <= i < 6 && plain[i] == row;
    TableStarts();
    assert forall j :: 0 <= j < i ==> plain[j].identifier != row.identifier;
    hide TABLE, ED25519, RSA, DSS, P256, P384, P521, First;
    FirstIs(TABLE, p, i);
  }

  lemma TableStarts()
    ensures |TABLE| == 12 && TABLE[..6] == [ED25519, RSA, DSS, P256, P384, P521]
    ensures forall i :: 0 <= i < 6 ==> TABLE[i] == [ED25519, RSA, DSS, P256, P384, P521][i]
    ensures forall i :: 0 <= i < 6 ==> TABLE[i + 6].curve == TABLE[i].curve && TABLE[i + 6].altCurve == TABLE[i].altCurve
  {
  }

  lemma CurvesDiffer()
    ensures |ED25519.curve.value| == 7 && |P256.curve.value| == |P384.curve.value| == |P521.curve.value| == 8
    ensures |P256.altCurve.value| == |P384.altCurve.value| == |P521.altCurve.value| == 10
    ensures P256.curve != P384.curve && P521.curve != P384.curve && P521.curve != P256.curve
  {
    assert P256.curve.value[5] == '2' && P384.curve.value[5] == '3' && P521.curve.value[5] == '5';
  }

  lemma CurveByOwnName(row: Spec)
    requires row in [ED25519, P256, P384, P521]
    ensures ByCurve(row.curve.value) == Some(row)
  {
    CurvesDiffer();
    var plain := [ED25519, RSA, DSS, P256, P384, P521];
    var i := if row == ED25519 then 0 else if row == P256 then 3 else if row == P384 then 4 else 5;
    assert plain[i] == row;
    TableStarts();
    assert forall j :: 0 <= j < i ==> !HasCurve(plain[j], row.curve.value);
    assert HasCurve(row, row.curve.value);
    hide TABLE, ED25519, RSA, DSS, P256, P384, P521, First, HasCurve;
    FirstIs(TABLE, (r: Spec) => HasCurve(r, row.curve.value), i);
  }

  lemma PlainHasCurve(name: bytes, i: nat)
    requires 6 <= i < 12 && HasCurve(TABLE[i], name)
    ensures HasCurve(TABLE[i - 6], name)
  {
    TableStarts();
    hide TABLE;
    var k := i - 6;
    assert TABLE[k + 6].curve == TABLE[k].curve && TABLE[k + 6].altCurve == TABLE[k].altCurve;
  }

  /** A curve, under either of its names, is found in a plain key type that has its own name and curve. */
  lemma ByCurveIs(name: bytes)
    requires ByCurve(name).Some?
    ensures ByCurve(name).value in [ED25519, P256, P384, P521]
  {
    var p := (r: Spec) => HasCurve(r, name);
    TableStarts();
    assert RSA.curve == None && DSS.curve == None;
    hide TABLE, ED25519, RSA, DSS, P256, P384, P521, First;
    var i := FirstFound(TABLE, p);
    if i >= 6 {
      PlainHasCurve(name, i);
    }
  }

  lemma ByAlgoIs(algo: Algo)
    ensures ByAlgo(algo) ==
            match algo
            case EdDsa => Some(ED25519)
            case Rsa => Some(RSA)
            case Dsa => Some(DSS)
            case Ecc => Some(P256)
            case NoAlgo => None
  {
    TableStarts();
    AlgoOfRows();
    var p := (r: Spec) => r.algo == algo;
    hide TABLE, ED25519, RSA, DSS, P256, P384, P521, First;
    match algo
    case EdDsa => FirstIs(TABLE, p, 0);
    case Rsa => FirstIs(TABLE, p, 1);
    case Dsa => FirstIs(TABLE, p, 2);
    case Ecc => FirstIs(TABLE, p, 3);
    case NoAlgo =>
      if First(TABLE, p).Some? {
        var i := FirstFound(TABLE, p);
      }
  }

  lemma AlgoOfRows()
    ensures |TABLE| == 12 && forall i :: 0 <= i < 12 ==> TABLE[i].algo != NoAlgo
    ensures ED25519.algo == EdDsa && RSA.algo == Rsa && DSS.algo == Dsa && P256.algo == Ecc
  {
  }
}
