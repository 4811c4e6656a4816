/**
 What reading takes from a stream: a string is read if and only if all of it is there, what follows a
 key does not matter, and a key that was cut off is refused.
 */
module SshFraming {
  import opened Wrappers
  import opened Bytes
  import opened BigEndian
  import opened SshTable
  import opened SshWire
  import opened SshConstruct
  import opened SshKeys

  // ----- Strings and numbers -----

  lemma LastOctet(high: nat, c: byte)
    ensures (high * 256 + c as int) / 256 == high && Octet(high * 256 + c as int) == c
  {
    assert (high * 256 + c as int) % 256 == c as int;
  }

  lemma Shifts(n: nat)
    ensures n / 0x1_0000 == n / 0x100 / 0x100 && n / 0x100_0000 == n / 0x100 / 0x100 / 0x100
  {
  }

  lemma WordIsUint32(s: bytes)
    requires |s| >= 4
    ensures Word(s) < WORD && Uint32(Word(s)) == s[..4]
  {
    var high, mid := s[0] as int * 256 + s[1] as int, (s[0] as int * 256 + s[1] as int) * 256 + s[2] as int;
    var n := Word(s);
    assert n == mid * 256 + s[3] as int;
    hide Octet, Word;
    LastOctet(mid, s[3]);
    LastOctet(high, s[2]);
    LastOctet(s[0] as int, s[1]);
    LastOctet(0, s[0]);
    Shifts(n);
  }

  /** Reading a string is the inverse of writing one. */
  lemma ReadStringIff(s: bytes, d: bytes, rest: bytes)
    ensures ReadString(s) == Ok(d, rest) <==> |d| < 0x1_0000_0000 && s == WireString(d) + rest
  {
    if ReadString(s) == Ok(d, rest) {
      WordIsUint32(s);
      hide Word, Uint32;
      assert d[..|d| % WORD] == d;
      assert s == s[..4] + (d + rest);
      ConcatAssociative(s[..4], d, rest);
    }
    if |d| < WORD && s == WireString(d) + rest {
      ReadWrittenString(d, rest);
    }
  }

  /** A number is read if and only if a string of at most 520 octets that stands for it is there. */
  lemma ReadMpiIff(s: bytes, n: int, rest: bytes)
    ensures ReadMpi(s) == Ok(n, rest) <==> exists d: bytes :: |d| <= 520 && SignedValue(d) == n && s == WireString(d) + rest
  {
    hide SignedValue, ReadString, WireString;
    if ReadMpi(s) == Ok(n, rest) {
      ReadStringIff(s, ReadString(s).value, rest);
    }
    forall d: bytes | |d| <= 520 && SignedValue(d) == n && s == WireString(d) + rest
      ensures ReadMpi(s) == Ok(n, rest)
    {
      ReadStringIff(s, d, rest);
    }
  }

  // ----- What follows does not matter -----

  /** `b` is `a` with `t` behind what it left. */
  ghost predicate Extends<T>(a: Parse<T>, b: Parse<T>, t: bytes) {
    a.Ok? ==> b == Ok(a.value, a.rest + t)
  }

  lemma ReadUint32Extends(s: bytes, t: bytes)
    ensures Extends(ReadUint32(s), ReadUint32(s + t), t)
  {
  }

  lemma ReadDataExtends(s: bytes, n: nat, t: bytes)
    ensures Extends(ReadData(s, n), ReadData(s + t, n), t)
  {
    if |s| >= n {
      assert (s + t)[..n] == s[..n] && (s + t)[n..] == s[n..] + t;
    }
  }

  lemma ReadStringExtends(s: bytes, t: bytes)
    ensures Extends(ReadString(s), ReadString(s + t), t)
  {
    ReadUint32Extends(s, t);
    var n := ReadUint32(s);
    hide ReadUint32, ReadData;
    if n.Ok? {
      ReadDataExtends(n.rest, n.value, t);
    }
  }

  lemma ReadBlobExtends(s: bytes, t: bytes)
    ensures Extends(ReadBlob(s), ReadBlob(s + t), t)
  {
    ReadUint32Extends(s, t);
    var n := ReadUint32(s);
    hide ReadUint32, ReadData;
    if n.Ok? {
      ReadDataExtends(n.rest, n.value, t);
    }
  }

  lemma ReadMpiExtends(s: bytes, t: bytes)
    ensures Extends(ReadMpi(s), ReadMpi(s + t), t)
  {
    ReadStringExtends(s, t);
    hide ReadString, SignedValue;
  }

  lemma {:induction false} ReadMpisExtends(s: bytes, n: nat, t: bytes)
    ensures Extends(ReadMpis(s, n), ReadMpis(s + t, n), t)
    decreases n
  {
    if n > 0 {
      ReadMpiExtends(s, t);
      var v := ReadMpi(s);
      hide ReadMpi;
      if v.Ok? {
        ReadMpisExtends(v.rest, n - 1, t);
      }
    }
  }

  lemma ReadSeedExtends(s: bytes, t: bytes)
    ensures Extends(ReadSeed(s), ReadSeed(s + t), t)
  {
    ReadUint32Extends(s, t);
    var n := ReadUint32(s);
    hide ReadUint32;
    if n.Ok? && (n.value == 32 || n.value == 64) && |n.rest| >= n.value {
      assert (n.rest + t)[..32] == n.rest[..32] && (n.rest + t)[n.value..] == n.rest[n.value..] + t;
    }
  }

  lemma ReceiveNumbersExtends(spec: Spec, secret: bool, curve: Option<bytes>, s: bytes, t: bytes)
    requires Regular(spec)
    ensures Extends(ReceiveNumbers(spec, secret, curve, s), ReceiveNumbers(spec, secret, curve, s + t), t)
  {
    ReadMpisExtends(s, |Elems(spec, secret)|, t);
    hide ReadMpis, Built, Regular;
  }

  lemma ReceiveEdDsaExtends(spec: Spec, secret: bool, s: bytes, t: bytes)
    ensures Extends(ReceiveEdDsa(spec, secret, s), ReceiveEdDsa(spec, secret, s + t), t)
  {
    ReadBlobExtends(s, t);
    var q := ReadBlob(s);
    if q.Ok? {
      ReadSeedExtends(q.rest, t);
    }
    hide ReadBlob, ReadSeed;
  }

  lemma ReceiveEcdsaExtends(spec: Spec, secret: bool, s: bytes, t: bytes)
    requires Regular(spec)
    ensures Extends(ReceiveEcdsa(spec, secret, s), ReceiveEcdsa(spec, secret, s + t), t)
  {
    ReadStringExtends(s, t);
    var name := ReadString(s);
    hide ReadString, ByCurve, CString, ReceiveNumbers, Regular;
    if name.Ok? && ByCurve(CString(name.value)).Some? {
      ReceiveNumbersExtends(spec, secret, ByCurve(CString(name.value)).value.curve, name.rest, t);
    }
  }

  /** A key is read the same whatever follows it, and what follows is left. */
  lemma ReceiveExtends(s: bytes, secret: bool, t: bytes)
    ensures Receive(s, secret).Ok? ==>
              Receive(s + t, secret) == Ok(Receive(s, secret).value, Receive(s, secret).rest + t)
  {
    ReadStringExtends(s, t);
    var name := ReadString(s);
    hide ReadString, ByName, CString, ReceiveNumbers, ReceiveEdDsa, ReceiveEcdsa, Regular;
    if name.Ok? {
      ByNameIsRegular(CString(name.value));
      var found := ByName(CString(name.value));
      if found.Some? {
        ReceiveNumbersExtends(found.value, secret, None, name.rest, t);
        ReceiveEdDsaExtends(found.value, secret, name.rest, t);
        ReceiveEcdsaExtends(found.value, secret, name.rest, t);
      }
    }
  }

  lemma {:induction false} ReadMpisShortens(s: bytes, n: nat)
    ensures ReadMpis(s, n).Ok? ==> |ReadMpis(s, n).rest| <= |s|
    decreases n
  {
    if n > 0 && ReadMpi(s).Ok? {
      ReadersShorten(s);
      hide ReadString, SignedValue;
      ReadMpisShortens(ReadMpi(s).rest, n - 1);
    }
  }

  lemma ReadersShorten(s: bytes)
    ensures ReadString(s).Ok? ==> |ReadString(s).rest| <= |s|
    ensures ReadBlob(s).Ok? ==> |ReadBlob(s).rest| <= |s|
    ensures ReadSeed(s).Ok? ==> |ReadSeed(s).rest| <= |s|
  {
    hide Word;
  }

  lemma ReceiveEdDsaShortens(spec: Spec, secret: bool, s: bytes)
    ensures ReceiveEdDsa(spec, secret, s).Ok? ==> |ReceiveEdDsa(spec, secret, s).rest| <= |s|
  {
    ReadersShorten(s);
    var q := ReadBlob(s);
    if q.Ok? {
      ReadersShorten(q.rest);
    }
    hide ReadBlob, ReadSeed;
  }

  lemma ReceiveNumbersShortens(spec: Spec, secret: bool, curve: Option<bytes>, s: bytes)
    requires Regular(spec)
    ensures ReceiveNumbers(spec, secret, curve, s).Ok? ==> |ReceiveNumbers(spec, secret, curve, s).rest| <= |s|
  {
    ReadMpisShortens(s, |Elems(spec, secret)|);
    hide ReadMpis, Built, Regular;
  }

  lemma ReceiveEcdsaShortens(spec: Spec, secret: bool, s: bytes)
    requires Regular(spec)
    ensures ReceiveEcdsa(spec, secret, s).Ok? ==> |ReceiveEcdsa(spec, secret, s).rest| <= |s|
  {
    ReadersShorten(s);
    var name := ReadString(s);
    hide ReadString, ByCurve, CString, ReceiveNumbers, Regular;
    if name.Ok? && ByCurve(CString(name.value)).Some? {
      ReceiveNumbersShortens(spec, secret, ByCurve(CString(name.value)).value.curve, name.rest);
    }
  }

  lemma ReceiveShortens(s: bytes, secret: bool)
    ensures Receive(s, secret).Ok? ==> |Receive(s, secret).rest| <= |s|
  {
    ReadersShorten(s);
    var name := ReadString(s);
    hide ReadString, ByName, CString, ReceiveNumbers, ReceiveEdDsa, ReceiveEcdsa, Regular;
    if name.Ok? {
      ByNameIsRegular(CString(name.value));
      var found := ByName(CString(name.value));
      if found.Some? {
        ReceiveNumbersShortens(found.value, secret, None, name.rest);
        ReceiveEdDsaShortens(found.value, secret, name.rest);
        ReceiveEcdsaShortens(found.value, secret, name.rest);
      }
    }
  }

  /** If a key is read from a stream, then any part of it that ends before the key does is refused. */
  lemma CutOffKeyIsRefused(s: bytes, secret: bool, n: nat)
    requires Receive(s, secret).Ok? && n < |s| - |Receive(s, secret).rest|
    ensures Receive(s[..n], secret).Bad?
  {
    hide Receive;
    ReceiveExtends(s[..n], secret, s[n..]);
    ReceiveShortens(s[..n], secret);
    assert s[..n] + s[n..] == s;
  }
}
