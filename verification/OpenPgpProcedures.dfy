/** The procedures that change the parameter array in place, and roll the change back on failure. */
module OpenPgpProcedures {
  import opened Wrappers
  import opened Bytes
  import opened Buffers
  import opened OpenPgpFormat
  import opened OpenPgpProtection

  method ChecksumOf(b: bytes) returns (a: nat)
    ensures a == Checksum(b)
  {
    a := 0;
    for n := 0 to |b|
      invariant a == Checksum(b[..n])
    {
      assert b[..n + 1][..n] == b[..n];
      a := (a + b[n] as int) % 65536;
    }
    assert b[..|b|] == b;
  }

  // ----- do_unprotect -----

  /** The array ends in a null pointer; everything behind the first one becomes null. */
  method CountAndClear(skey: array<Option<Mpi>>) returns (skeylen: nat)
    requires None in skey[..]
    modifies skey
    ensures skeylen == Used(old(skey[..])) && skey[..] == Prepared(old(skey[..]))
  {
    ghost var s := skey[..];
    ghost var end :| 0 <= end < |s| && s[end] == None;
    skeylen := 0;
    while skey[skeylen].Some?
      invariant 0 <= skeylen <= end && (forall i :: 0 <= i < skeylen ==> skey[i].Some?)
      decreases end - skeylen
    {
      skeylen := skeylen + 1;
    }
    UsedIs(s, skeylen);
    for i := skeylen to skey.Length
      invariant forall j :: 0 <= j < skey.Length ==> skey[j] == if skeylen <= j < i then None else s[j]
    {
      skey[i] := None;
    }
    PreparedAt(s);
    hide Prepared;
  }

  method PrepareUnprotect(job: Job, skey: array<Option<Mpi>>) returns (e: Option<Err>)
    requires None in skey[..]
    modifies skey
    ensures skey[..] == Prepared(old(skey[..])) && e == PrepareError(job, old(skey[..]))
  {
    hide Prepared, Used, PrepareError;
    ghost var s := skey[..];
    var skeylen := CountAndClear(skey);
    PreparedFacts(job, s);
    e := CheckArgs(job, skey[..], skeylen);
  }

  method CheckArgs(job: Job, s: Slots, skeylen: nat) returns (e: Option<Err>)
    requires skeylen == Used(s)
    ensures e == PrepareError(job, s)
  {
    hide Used, PublicEncrypted;
    var np, ns := NPkey(job.algo), NSkey(job.algo);
    if job.stub {
      return Some(UnusableSeckey);
    }
    if !job.supported {
      return Some(PubkeyAlgo);
    }
    if np == 0 || ns == 0 || np >= ns {
      return Some(Internal);
    }
    if skeylen <= np {
      return Some(MissingValue);
    }
    if ns + 1 >= |s| {
      return Some(BufferTooShort);
    }
    var bad := SomeEncrypted(s, np);
    if bad {
      return Some(BadSeckey);
    }
    return None;
  }

  /** Whether a public parameter is missing or encrypted. */
  method SomeEncrypted(s: Slots, np: nat) returns (bad: bool)
    requires np <= Used(s)
    ensures bad == PublicEncrypted(s, np)
  {
    for i := 0 to np
      invariant forall j :: 0 <= j < i ==> s[j].Some? && !Encrypted(s[j].value)
    {
      if s[i] == None || Encrypted(s[i].value) {
        return true;
      }
    }
    return false;
  }

  /** Parameters `ms` stored from index `np` on. */
  ghost predicate HoldsAt(s: Slots, t: Slots, np: nat, ms: seq<Mpi>) {
    && np + |ms| <= |s| == |t|
    && forall i :: 0 <= i < |s| ==> t[i] == if np <= i < np + |ms| then Some(ms[i - np]) else s[i]
  }

  /** The scan loop; it stops at the first parameter that cannot be read. */
  method ScanParameters(algo: Algo, skey: array<Option<Mpi>>, data: bytes) returns (i: nat)
    requires NPkey(algo) < NSkey(algo) < skey.Length
    modifies skey
    ensures i == NPkey(algo) + |ScanUpTo(algo, data, NSecret(algo))|
    ensures HoldsAt(old(skey[..]), skey[..], NPkey(algo), ScanUpTo(algo, data, NSecret(algo)))
  {
    hide Scan, ScanUpTo, HoldsAt, NPkey, NSkey;
    var np, ns := NPkey(algo), NSkey(algo);
    ghost var s := skey[..];
    HoldsNone(s, np);
    var p := data;
    ghost var ms: seq<Mpi> := [];
    i := np;
    while i < ns
      invariant np <= i <= ns && |ms| == i - np
      invariant ScanUpTo(algo, data, ns - np) == ms + ScanUpTo(algo, p, ns - i)
      invariant HoldsAt(s, skey[..], np, ms)
      decreases ns - i
    {
      var r := Scan(algo, p);
      ScanUpToFirst(algo, p, ns - i);
      if r == None {
        assert ms + [] == ms;
        return;
      }
      ghost var rest := ScanUpTo(algo, p[r.value.nbytes..], ns - i - 1);
      assert ms + ([r.value.mpi] + rest) == ms + [r.value.mpi] + rest;
      HoldsNext(s, skey[..], np, ms, r.value.mpi);
      ghost var t := skey[..];
      skey[i] := Some(r.value.mpi);
      assert skey[..] == t[i := Some(r.value.mpi)];
      ms := ms + [r.value.mpi];
      p := p[r.value.nbytes..];
      i := i + 1;
    }
    ScanUpToNone(algo, p);
    assert ms + [] == ms;
  }

  lemma HoldsNone(s: Slots, np: nat)
    requires np <= |s|
    ensures HoldsAt(s, s, np, [])
  {
  }

  lemma HoldsNext(s: Slots, t: Slots, np: nat, ms: seq<Mpi>, m: Mpi)
    requires np + |ms| < |s| && HoldsAt(s, t, np, ms)
    ensures |t| == |s| && HoldsAt(s, t[np + |ms| := Some(m)], np, ms + [m])
  {
  }

  lemma ScanUpToNone(algo: Algo, buf: bytes)
    ensures ScanUpTo(algo, buf, 0) == []
  {
  }

  /** The way back from a failed scan. */
  method RollBack(skey: array<Option<Mpi>>, np: nat, end: nat, blob: Mpi, ghost s: Slots, ghost ms: seq<Mpi>)
    requires np < skey.Length && end == np + |ms| && HoldsAt(s, skey[..], np, ms) && s[np] == Some(blob)
    modifies skey
    ensures skey[..] == Recovered(s, np, |ms|)
  {
    var i := end - 1;
    while i >= np
      invariant np - 1 <= i < end
      invariant forall j :: 0 <= j < skey.Length ==>
                  skey[j] == if np <= j <= i then Some(ms[j - np]) else if i < j < end then None else s[j]
    {
      skey[i] := None;
      i := i - 1;
    }
    skey[np] := Some(blob);
    RecoveredAt(s, np, |ms|);
    hide Recovered;
  }

  lemma RecoveredAt(s: Slots, np: nat, k: nat)
    requires np + k <= |s|
    ensures forall i :: 0 <= i < |s| ==> Recovered(s, np, k)[i] == if np + 1 <= i < np + k then None else s[i]
  {
  }

  /** The comparison of the checksums for both ways of protection. */
  method ChecksumMatches(job: Job, encrypted: bytes, data: bytes) returns (ok: bool)
    requires |encrypted| == |data|
    ensures ok == SumOk(job, encrypted, data)
  {
    var desired, actual := 0, 1;
    var csumPgp7 := if |encrypted| > 1 then Unsigned16(encrypted[|encrypted| - 2..]) else 0;
    if job.sha1Protected {
      if |data| >= 20 && job.crypto.sha1(data[..|data| - 20]) == data[|data| - 20..] {
        actual := 0;
      }
    } else if |data| >= 2 {
      desired := Unsigned16(data[|data| - 2..]);
      actual := ChecksumOf(data[..|data| - 2]);
      if desired != actual {
        desired := csumPgp7;
      }
    }
    ok := desired == actual;
  }

  /** An attempt changes the array exactly as specified, whatever its outcome. */
  method DoUnprotect(job: Job, passphrase: bytes, skey: array<Option<Mpi>>) returns (r: Result)
    requires None in skey[..] && Lawful(job.crypto)
    modifies skey
    ensures Trial(r, skey[..]) == Attempt(job, passphrase, old(skey[..]))
  {
    hide Prepared, TryBlob;
    ghost var before := skey[..];
    PreparedFacts(job, before);
    var e := PrepareUnprotect(job, skey);
    if e.Some? {
      return Failed(e.value);
    }
    if !job.cipherOk {
      return Failed(CipherAlgo);
    }
    if !job.digestOk {
      return Failed(DigestAlgo);
    }
    hide PrepareError, Attempt;
    AttemptIs(job, passphrase, before);
    r := DecryptAndStore(job, passphrase, skey);
  }

  lemma AttemptIs(job: Job, passphrase: bytes, skey: Slots)
    requires PrepareError(job, skey) == None && job.cipherOk && job.digestOk
    ensures Prepared(skey)[NPkey(job.algo)].Some?
    ensures Attempt(job, passphrase, skey) == TryBlob(job, passphrase, Prepared(skey), Prepared(skey)[NPkey(job.algo)].value)
  {
    hide TryBlob;
  }

  method DecryptAndStore(job: Job, passphrase: bytes, skey: array<Option<Mpi>>) returns (r: Result)
    requires Lawful(job.crypto) && NPkey(job.algo) < NSkey(job.algo) < skey.Length - 1 && skey[NPkey(job.algo)].Some?
    modifies skey
    ensures Trial(r, skey[..]) == TryBlob(job, passphrase, old(skey[..]), old(skey[..])[NPkey(job.algo)].value)
  {
    var np, ns := NPkey(job.algo), NSkey(job.algo);
    ghost var s := skey[..];
    var blob := skey[np].value;
    if !Encrypted(blob) {
      return Failed(BadSeckey);
    }
    var data := job.crypto.decrypt(passphrase, blob.data);
    assert |data| == |blob.data|;
    hide Lawful, SumOk, ScanUpTo, Recovered, Filled, Converted, NPkey, NSkey, HoldsAt;
    ghost var ms := ScanUpTo(job.algo, data, NSecret(job.algo));
    var ok := ChecksumMatches(job, blob.data, data);
    if !ok {
      return Failed(BadPassphrase);
    }
    var i := ScanParameters(job.algo, skey, data);
    if i < ns {
      RollBack(skey, np, i, blob, s, ms);
      return Failed(BadPassphrase);
    }
    FilledFrom(s, skey[..], np, ms);
    skey[ns] := None;
    r := ConvertAndTest(job, skey[..]);
  }

  lemma FilledFrom(s: Slots, t: Slots, np: nat, ms: seq<Mpi>)
    requires np + |ms| < |s| && HoldsAt(s, t, np, ms)
    ensures |t| == |s| && Filled(s, np, ms) == t[np + |ms| := None]
  {
    FilledAt(s, np, ms);
    hide Filled;
  }

  method ConvertAndTest(job: Job, s: Slots) returns (r: Result)
    requires NSkey(job.algo) <= |s|
    ensures r == Converted(job, s)
  {
    var key := job.convert(s[..NSkey(job.algo)]);
    if key == None {
      return Failed(NotConverted);
    }
    if !job.testKey(key.value) {
      return Failed(BadPassphrase);
    }
    return Done(key.value);
  }

  /** The callback of the passphrase query also counts the parameters again. */
  method TryDoUnprotectCb(job: Job, passphrase: bytes, skey: array<Option<Mpi>>) returns (r: Result, skeyidx: nat)
    requires None in skey[..] && Lawful(job.crypto)
    modifies skey
    ensures Trial(r, skey[..]) == Attempt(job, passphrase, old(skey[..]))
    ensures skeyidx == Used(skey[..])
  {
    hide Attempt;
    r := DoUnprotect(job, passphrase, skey);
    skeyidx := 0;
    while skeyidx < skey.Length && skey[skeyidx].Some?
      invariant 0 <= skeyidx <= skey.Length && forall i :: 0 <= i < skeyidx ==> skey[..][i].Some?
    {
      skeyidx := skeyidx + 1;
    }
    if skeyidx < skey.Length {
      UsedIs(skey[..], skeyidx);
    }
  }

  // ----- apply_protection -----

  /** Two octets with the number of bits, then the octets themselves, for every parameter. */
  method StuffBuffer(data: array<byte>, ms: seq<Mpi>)
    requires |EncodedAll(ms)| <= data.Length
    modifies data
    ensures data[..|EncodedAll(ms)|] == EncodedAll(ms)
  {
    hide Encoded, EncodedAll;
    var p := 0;
    ghost var done: bytes := [];
    ghost var all := EncodedAll(ms);
    assert ms[0..] == ms;
    for i := 0 to |ms|
      invariant all == done + EncodedAll(ms[i..]) && p == |done| && data[..p] == done
    {
      assert ms[i..][0] == ms[i] && ms[i..][1..] == ms[i + 1..];
      EncodedFirst(ms[i..]);
      ConcatAssociative(done, Encoded(ms[i]), EncodedAll(ms[i + 1..]));
      p := PutParameter(data, p, ms[i]);
      done := done + Encoded(ms[i]);
    }
    assert ms[|ms|..] == [];
    EncodedNone();
    assert all == done;
  }

  lemma EncodedFirst(ms: seq<Mpi>)
    requires ms != []
    ensures EncodedAll(ms) == Encoded(ms[0]) + EncodedAll(ms[1..])
  {
    hide Encoded;
  }

  lemma EncodedNone()
    ensures EncodedAll([]) == []
  {
  }

  method PutParameter(data: array<byte>, p: nat, m: Mpi) returns (p': nat)
    requires p + |Encoded(m)| <= data.Length
    modifies data
    ensures p' == p + |Encoded(m)| && data[..p'] == old(data[..p]) + Encoded(m)
  {
    var nbits, content := NBits(m), Contents(m);
    assert Encoded(m) == Header(nbits) + content && |Header(nbits)| == 2;
    hide Header, Encoded, Splice;
    ghost var b := data[..];
    Write(data, p, Header(nbits));
    ghost var c := data[..];
    SpliceParts(b, p, Header(nbits), |b|);
    Write(data, p + 2, content);
    SpliceParts(c, p + 2, content, |b|);
    p' := p + 2 + |content|;
    ConcatAssociative(b[..p], Header(nbits), content);
    assert data[..p'] == data[..][..p'] && c[..p + 2] == b[..p] + Header(nbits);
  }

  /** The secret parameters in front of the space for the digest. */
  method SizeOf(ms: seq<Mpi>) returns (ndata: nat)
    ensures ndata == |EncodedAll(ms)| + 20
  {
    hide Contents, NBits;
    ndata := 20;
    assert ms[0..] == ms;
    for i := 0 to |ms|
      invariant ndata + |EncodedAll(ms[i..])| == |EncodedAll(ms)| + 20
    {
      assert ms[i..][0] == ms[i] && ms[i..][1..] == ms[i + 1..];
      EncodedFirst(ms[i..]);
      ndata := ndata + 2 + |Contents(ms[i])|;
    }
  }

  method ApplyProtection(job: Job, passphrase: bytes, a: array<Option<Mpi>>)
    requires Lawful(job.crypto) && NPkey(job.algo) < NSkey(job.algo) <= a.Length
    requires forall i :: 0 <= i < NSkey(job.algo) ==> a[i].Some?
    modifies a
    ensures a[..] == Protect(job, passphrase, old(a[..]))
  {
    var np, ns := NPkey(job.algo), NSkey(job.algo);
    ghost var s := a[..];
    var ms := Secrets(job.algo, a[..]);
    var data := BuildPlaintext(job.crypto, ms);
    assert |job.crypto.encrypt(passphrase, data)| == |data|;
    hide Lawful, Plaintext, Secrets;
    var encrypted := job.crypto.encrypt(passphrase, data);
    for i := np to ns
      invariant forall j :: 0 <= j < a.Length ==> a[j] == if np <= j < i then None else s[j]
    {
      a[i] := None;
    }
    a[np] := Some(Opaque(encrypted, |data| * 8, true));
    ProtectAt(job, passphrase, s);
    hide Protect;
  }

  lemma ProtectAt(job: Job, passphrase: bytes, a: Slots)
    requires NPkey(job.algo) < NSkey(job.algo) <= |a| && forall i :: 0 <= i < NSkey(job.algo) ==> a[i].Some?
    ensures forall i :: 0 <= i < |a| ==>
              Protect(job, passphrase, a)[i] ==
              (if i == NPkey(job.algo) then Some(Blob(job.crypto, passphrase, Secrets(job.algo, a)))
               else if NPkey(job.algo) < i < NSkey(job.algo) then None else a[i])
  {
    hide Secrets, Blob;
  }

  method BuildPlaintext(c: Crypto, ms: seq<Mpi>) returns (data: bytes)
    requires Lawful(c)
    ensures data == Plaintext(c, ms)
  {
    var ndata := SizeOf(ms);
    hide EncodedAll;
    var buf := new byte[ndata](_ => NUL);
    StuffBuffer(buf, ms);
    ghost var b := buf[..];
    var digest := c.sha1(buf[..ndata - 20]);
    assert buf[..ndata - 20] == EncodedAll(ms) && |digest| == 20;
    Write(buf, ndata - 20, digest);
    assert b[..ndata - 20] == EncodedAll(ms) && b[ndata..] == [];
    data := buf[..];
  }
}
