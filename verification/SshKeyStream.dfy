/** The procedures that write a public key to a stream and receive a key from one. */
module SshKeyStream {
  import opened Wrappers
  import opened Bytes
  import opened SshTable
  import opened SshWire
  import opened SshConstruct
  import opened SshKeys

  // ----- ssh_key_to_blob -----

  /** Writes the identifier; false stands for a missing or unknown curve. */
  method PutHead(stream: Stream, spec: Spec, key: Key) returns (ok: bool)
    modifies stream`data
    ensures ok == Head(spec, key).Some?
    ensures ok ==> stream.data == old(stream.data) + Head(spec, key).value
  {
    hide ByCurve, WireString;
    if !spec.isEcdsa {
      stream.PutString(spec.identifier);
      return true;
    }
    if key.curve == None {
      return false;
    }
    var names := IdentifierFromCurveName(key.curve.value);
    if names == None {
      return false;
    }
    ConcatAssociative(stream.data, WireString(names.value.0), WireString(names.value.1));
    stream.PutString(names.value.0);
    stream.PutString(names.value.1);
    return true;
  }

  method PutParam(stream: Stream, spec: Spec, name: byte, v: Value)
    modifies stream`data
    ensures stream.data == old(stream.data) + Param(spec, name, v)
  {
    hide WireString, WireMpi, Contents, Mpi;
    if !spec.isEdDsa {
      stream.PutMpi(Mpi(v));
      return;
    }
    var data := Contents(v);
    if name == 'q' && |data| % 2 == 1 && data[0] == '@' {
      data := data[1..];
    }
    stream.PutString(data);
  }

  /** The loop over the parameters; it stops at one that the key does not have. */
  method PutParams(stream: Stream, spec: Spec, slots: seq<Slot>, elems: bytes) returns (ok: bool)
    modifies stream`data
    ensures ok == Params(spec, slots, elems).Some?
    ensures ok ==> stream.data == old(stream.data) + Params(spec, slots, elems).value
  {
    hide Find, Param, Params;
    ghost var before, all := stream.data, Params(spec, slots, elems);
    ghost var done: bytes := [];
    assert elems[0..] == elems;
    StartOfParams(all);
    for i := 0 to |elems|
      invariant stream.data == before + done
      invariant all == Continued(done, Params(spec, slots, elems[i..]))
    {
      ParamsStep(spec, slots, elems[i..]);
      assert elems[i..][0] == elems[i] && elems[i..][1..] == elems[i + 1..];
      var v := Find(slots, elems[i]);
      if v == None {
        return false;
      }
      ghost var p := Param(spec, elems[i], v.value);
      ContinuedStep(done, p, Params(spec, slots, elems[i + 1..]));
      ConcatAssociative(before, done, p);
      PutParam(stream, spec, elems[i], v.value);
      done := done + p;
    }
    assert elems[|elems|..] == [];
    ParamsNone(spec, slots);
    assert done + [] == done;
    return true;
  }

  /** What has been written and what is still to come. */
  ghost function Continued(done: bytes, rest: Option<bytes>): Option<bytes> {
    if rest == None then None else Some(done + rest.value)
  }

  lemma StartOfParams(all: Option<bytes>)
    ensures Continued([], all) == all
  {
    if all.Some? {
      assert [] + all.value == all.value;
    }
  }

  lemma ContinuedStep(done: bytes, p: bytes, rest: Option<bytes>)
    ensures Continued(done, if rest == None then None else Some(p + rest.value)) == Continued(done + p, rest)
  {
    if rest.Some? {
      ConcatAssociative(done, p, rest.value);
    }
  }

  lemma ParamsStep(spec: Spec, slots: seq<Slot>, elems: bytes)
    requires elems != []
    ensures var v, rest := Find(slots, elems[0]), Params(spec, slots, elems[1..]);
            Params(spec, slots, elems) ==
            if v == None || rest == None then None else Some(Param(spec, elems[0], v.value) + rest.value)
  {
    hide Find, Param;
  }

  lemma ParamsNone(spec: Spec, slots: seq<Slot>)
    ensures Params(spec, slots, []) == Some([])
  {
  }

  method KeyToBlob(spec: Spec, key: Key, withSecret: bool) returns (blob: Option<bytes>)
    ensures blob == KeyBlob(spec, key, withSecret)
  {
    hide Head, Params;
    var stream := new Stream([]);
    var ok := PutHead(stream, spec, key);
    if !ok {
      return None;
    }
    assert stream.data == Head(spec, key).value;
    var elems := if key.secret && withSecret then spec.secretElems else spec.publicElems;
    ok := PutParams(stream, spec, key.slots, elems);
    if !ok {
      return None;
    }
    return Some(stream.data);
  }

  // ----- ssh_receive_key -----

  method ReceiveMpintList(stream: Stream, n: nat) returns (r: Result<array<int>>)
    requires stream.Valid()
    modifies stream`pos
    ensures stream.Valid()
    ensures r.Success? ==> fresh(r.value) && ReadMpis(old(stream.Rest()), n) == Ok(r.value[..], stream.Rest())
    ensures r.Failure? ==> ReadMpis(old(stream.Rest()), n) == Bad(r.code)
  {
    hide ReadMpis, ReadMpi;
    ghost var all := ReadMpis(stream.Rest(), n);
    var mpis := new int[n](_ => 0);
    assert mpis[..0] == [];
    StartOfList(all);
    for i := 0 to n
      invariant stream.Valid() && fresh(mpis)
      invariant all == Listed(mpis[..i], ReadMpis(stream.Rest(), n - i))
    {
      ReadMpisStep(stream.Rest(), n - i);
      var v := stream.GetMpi();
      if v.Failure? {
        return Failure(v.code);
      }
      ghost var front := mpis[..i];
      ListedStep(front, v.value, ReadMpis(stream.Rest(), n - i - 1));
      mpis[i] := v.value;
      assert mpis[..i + 1] == front + [v.value];
    }
    ReadMpisNone(stream.Rest());
    assert mpis[..n] + [] == mpis[..];
    return Success(mpis);
  }

  /** The numbers read and those still to come. */
  ghost function Listed(done: seq<int>, rest: Parse<seq<int>>): Parse<seq<int>> {
    match rest
    case Bad(code) => Bad(code)
    case Ok(vs, after) => Ok(done + vs, after)
  }

  lemma StartOfList(all: Parse<seq<int>>)
    ensures Listed([], all) == all
  {
    if all.Ok? {
      assert [] + all.value == all.value;
    }
  }

  lemma ListedStep(done: seq<int>, v: int, rest: Parse<seq<int>>)
    ensures Listed(done, Listed([v], rest)) == Listed(done + [v], rest)
  {
    if rest.Ok? {
      assert done + ([v] + rest.value) == done + [v] + rest.value;
    }
  }

  lemma ReadMpisStep(s: bytes, n: nat)
    requires n > 0
    ensures ReadMpis(s, n) ==
            match ReadMpi(s)
            case Bad(code) => Bad(code)
            case Ok(v, rest) => Listed([v], ReadMpis(rest, n - 1))
  {
    hide ReadMpi;
  }

  lemma ReadMpisNone(s: bytes)
    ensures ReadMpis(s, 0) == Ok([], s)
  {
  }

  method ReceiveNumberKey(stream: Stream, spec: Spec, secret: bool, curve: Option<bytes>) returns (r: Result<Key>)
    requires stream.Valid() && Regular(spec)
    modifies stream`pos
    ensures stream.Valid() && Outcome(r, stream.Rest()) == ReceiveNumbers(spec, secret, curve, old(stream.Rest()))
  {
    hide ReadMpis, Adjusted, Arranged;
    var elems := if secret then spec.secretElems else spec.publicElems;
    var order := if secret then spec.sexpOrder else spec.publicElems;
    var list := ReceiveMpintList(stream, |elems|);
    if list.Failure? {
      return Failure(list.code);
    }
    var mpis := list.value;
    assert mpis[..] == ReadMpis(old(stream.Rest()), |elems|).value;
    if spec.rsaModifier {
      KeyModifierRsa(elems, mpis);
    }
    var slots := FillSlots(order, elems, mpis, secret);
    return Success(Key(secret, spec.algo, curve, slots));
  }

  method ReceiveSeed(stream: Stream) returns (r: Result<bytes>)
    requires stream.Valid()
    modifies stream`pos
    ensures stream.Valid() && Outcome(r, stream.Rest()) == ReadSeed(old(stream.Rest()))
  {
    hide ReadUint32;
    var len := stream.GetUint32();
    if len.Failure? {
      return Failure(len.code);
    }
    if len.value != 32 && len.value != 64 {
      return Failure(BadSeckey);
    }
    ghost var rest := stream.Rest();
    r := stream.GetData(32);
    if r.Success? && len.value == 64 {
      var skipped := stream.Skip(32);
      if skipped.Failure? {
        return Failure(Eof);
      }
      assert rest[32..][32..] == rest[64..];
    }
  }

  method ReceiveEdDsaKey(stream: Stream, spec: Spec, secret: bool) returns (r: Result<Key>)
    requires stream.Valid()
    modifies stream`pos
    ensures stream.Valid() && Outcome(r, stream.Rest()) == ReceiveEdDsa(spec, secret, old(stream.Rest()))
  {
    hide ReadBlob, ReadSeed;
    var q := stream.GetBlob();
    if q.Failure? {
      return Failure(q.code);
    }
    if !secret {
      return Success(Key(false, spec.algo, ED25519.curve, [Slot('q', Data(q.value))]));
    }
    var d := ReceiveSeed(stream);
    if d.Failure? {
      return Failure(d.code);
    }
    return Success(Key(true, spec.algo, ED25519.curve, [Slot('q', Data(q.value)), Slot('d', Data(d.value))]));
  }

  method ReceiveEcdsaKey(stream: Stream, spec: Spec, secret: bool) returns (r: Result<Key>)
    requires stream.Valid() && Regular(spec)
    modifies stream`pos
    ensures stream.Valid() && Outcome(r, stream.Rest()) == ReceiveEcdsa(spec, secret, old(stream.Rest()))
  {
    hide ReadString, ByCurve, ReceiveNumbers, Regular, CString;
    var name := stream.GetString();
    if name.Failure? {
      return Failure(name.code);
    }
    var names := IdentifierFromCurveName(CString(name.value));
    if names == None {
      return Failure(UnknownCurve);
    }
    r := ReceiveNumberKey(stream, spec, secret, Some(names.value.1));
  }

  method ReceiveKey(stream: Stream, secret: bool) returns (r: Result<Key>)
    requires stream.Valid()
    modifies stream`pos
    ensures stream.Valid() && Outcome(r, stream.Rest()) == Receive(old(stream.Rest()), secret)
  {
    hide ReadString, ByName, ReceiveNumbers, ReceiveEdDsa, ReceiveEcdsa, Regular, CString, First;
    var name := stream.GetString();
    if name.Failure? {
      return Failure(name.code);
    }
    var found := Lookup(Some(CString(name.value)), NoAlgo);
    LookupByName(CString(name.value));
    ByNameIsRegular(CString(name.value));
    if found == None {
      return Failure(NotFound);
    }
    var spec := found.value;
    if spec.withCert {
      return Failure(Certificate);
    }
    if spec.isEdDsa {
      r := ReceiveEdDsaKey(stream, spec, secret);
    } else if spec.isEcdsa {
      r := ReceiveEcdsaKey(stream, spec, secret);
    } else {
      r := ReceiveNumberKey(stream, spec, secret, None);
    }
  }

  lemma LookupByName(name: bytes)
    ensures First(TABLE, (row: Spec) => (Some(name).Some? && row.identifier == Some(name).value) || row.algo == NoAlgo) == ByName(name)
  {
    AlgoOfRows();
    hide TABLE;
    SameSearch(TABLE, name);
  }

  lemma {:induction false} SameSearch(rows: seq<Spec>, name: bytes)
    requires forall i :: 0 <= i < |rows| ==> rows[i].algo != NoAlgo
    ensures First(rows, (row: Spec) => (Some(name).Some? && row.identifier == Some(name).value) || row.algo == NoAlgo)
            == First(rows, (row: Spec) => row.identifier == name)
  {
    if rows != [] {
      SameSearch(rows[1..], name);
    }
  }
}
