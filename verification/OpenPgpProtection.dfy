/**
 Protection of the secret parameters of an OpenPGP key with a passphrase (section 5.5.3 of RFC 4880)
 and the attempts to undo it.  A key is an array of parameters, public ones first; protecting it
 replaces all secret ones by a single encrypted value.
 */
module OpenPgpProtection {
  import opened Wrappers
  import opened Bytes
  import opened OpenPgpFormat

  /** The array of parameters; an absent one is a null pointer. */
  type Slots = seq<Option<Mpi>>

  type Key = nat

  /** Cipher and digest, with salt, count and initialization vector fixed. */
  datatype Crypto = Crypto(encrypt: (bytes, bytes) -> bytes, decrypt: (bytes, bytes) -> bytes, sha1: bytes -> bytes)

  ghost predicate Lawful(c: Crypto) {
    && (forall p, d :: |c.encrypt(p, d)| == |d| && c.decrypt(p, c.encrypt(p, d)) == d)
    && (forall p, d :: |c.decrypt(p, d)| == |d|)
    && (forall d :: |c.sha1(d)| == 20)
  }

  /** Everything about a protected version 4 key except the parameters and the passphrase. */
  datatype Job = Job(
    algo: Algo,
    supported: bool,             // the public key algorithm is available
    stub: bool,                  // the secret parts are not here
    cipherOk: bool,
    digestOk: bool,
    sha1Protected: bool,         // protected with a digest, not with a 16 bit checksum
    crypto: Crypto,
    convert: Slots -> Option<Key>,
    testKey: Key -> bool)

  datatype Err =
    | UnusableSeckey | PubkeyAlgo | Internal | MissingValue | BufferTooShort | BadSeckey
    | CipherAlgo | DigestAlgo | BadPassphrase | NotConverted

  datatype Result = Done(key: Key) | Failed(err: Err)

  datatype Trial = Trial(result: Result, skey: Slots)

  function NPkey(algo: Algo): nat {
    match algo
    case Rsa => 2
    case Elg => 3
    case ElgE => 3
    case Dsa => 4
    case Ecc => 1
    case OtherAlgo => 0
  }

  function NSkey(algo: Algo): nat {
    match algo
    case Rsa => 6
    case Elg => 4
    case ElgE => 4
    case Dsa => 5
    case Ecc => 2
    case OtherAlgo => 0
  }

  function Nulls(n: nat): (s: Slots)
    ensures |s| == n
  {
    seq(n, _ => None)
  }

  /** The number of parameters in front of the first null pointer. */
  function Used(skey: Slots): (n: nat)
    ensures n <= |skey| && forall i :: 0 <= i < n ==> skey[i].Some?
    ensures n < |skey| ==> skey[n] == None
  {
    if skey == [] || skey[0] == None then 0 else 1 + Used(skey[1..])
  }

  function Prepared(skey: Slots): (s: Slots)
    ensures |s| == |skey|
  {
    skey[..Used(skey)] + Nulls(|skey| - Used(skey))
  }

  predicate Encrypted(m: Mpi) {
    m.Opaque? && m.user1
  }

  predicate PublicEncrypted(skey: Slots, np: nat)
    requires np <= Used(skey)
  {
    exists i :: 0 <= i < np && Encrypted(skey[i].value)
  }

  function PrepareError(job: Job, skey: Slots): (e: Option<Err>)
    ensures e == None ==> NPkey(job.algo) < Used(skey) && NPkey(job.algo) < NSkey(job.algo) < |skey| - 1
  {
    var np, ns := NPkey(job.algo), NSkey(job.algo);
    if job.stub then Some(UnusableSeckey)
    else if !job.supported then Some(PubkeyAlgo)
    else if np == 0 then Some(Internal)
    else if Used(skey) <= np then Some(MissingValue)
    else if ns + 1 >= |skey| then Some(BufferTooShort)
    else if PublicEncrypted(skey, np) then Some(BadSeckey)
    else None
  }

  /** The sum of the octets, in 16 bits. */
  function Checksum(b: bytes): nat {
    if b == [] then 0 else (Checksum(b[..|b| - 1]) + b[|b| - 1] as int) % 65536
  }

  function Last2(b: bytes): nat {
    if |b| > 1 then Unsigned16(b[|b| - 2..]) else 0
  }

  /** Whether decryption seems to have worked; the old checksum may also be stored unencrypted. */
  predicate SumOk(job: Job, encrypted: bytes, data: bytes) {
    if job.sha1Protected then |data| >= 20 && job.crypto.sha1(data[..|data| - 20]) == data[|data| - 20..]
    else |data| >= 2 && Checksum(data[..|data| - 2]) in {Last2(data), Last2(encrypted)}
  }

  /** A failed scan clears what it had stored and puts the encrypted value back. */
  function Recovered(s: Slots, np: nat, k: nat): (r: Slots)
    requires np + k <= |s|
    ensures |r| == |s|
  {
    if k <= 1 then s else s[..np + 1] + Nulls(k - 1) + s[np + k..]
  }

  /** The decrypted parameters take the place of the encrypted value. */
  function Filled(s: Slots, np: nat, ms: seq<Mpi>): (r: Slots)
    requires np + |ms| < |s|
    ensures |r| == |s|
  {
    s[..np] + seq(|ms|, i requires 0 <= i < |ms| => Some(ms[i])) + [None] + s[np + |ms| + 1..]
  }

  function Converted(job: Job, s: Slots): Result
    requires NSkey(job.algo) <= |s|
  {
    match job.convert(s[..NSkey(job.algo)])
    case None => Failed(NotConverted)
    case Some(key) => if job.testKey(key) then Done(key) else Failed(BadPassphrase)
  }

  function NSecret(algo: Algo): nat {
    NSkey(algo) - NPkey(algo)
  }

  /** One attempt on prepared parameters whose first secret one is `blob`. */
  function TryBlob(job: Job, passphrase: bytes, s: Slots, blob: Mpi): Trial
    requires NSkey(job.algo) + 1 < |s|
  {
    if !Encrypted(blob) then Trial(Failed(BadSeckey), s)
    else
      var data := job.crypto.decrypt(passphrase, blob.data);
      var ms := ScanUpTo(job.algo, data, NSecret(job.algo));
      if !SumOk(job, blob.data, data) then Trial(Failed(BadPassphrase), s)
      else if |ms| < NSecret(job.algo) then Trial(Failed(BadPassphrase), Recovered(s, NPkey(job.algo), |ms|))
      else
        var filled := Filled(s, NPkey(job.algo), ms);
        Trial(Converted(job, filled), filled)
  }

  /** `do_unprotect` for a protected version 4 key. */
  function Attempt(job: Job, passphrase: bytes, skey: Slots): Trial {
    var s := Prepared(skey);
    if PrepareError(job, skey).Some? then Trial(Failed(PrepareError(job, skey).value), s)
    else if !job.cipherOk then Trial(Failed(CipherAlgo), s)
    else if !job.digestOk then Trial(Failed(DigestAlgo), s)
    else TryBlob(job, passphrase, s, s[NPkey(job.algo)].value)
  }

  // ----- Protecting a key -----

  function Secrets(algo: Algo, a: Slots): (ms: seq<Mpi>)
    requires NSkey(algo) <= |a| && forall i :: 0 <= i < NSkey(algo) ==> a[i].Some?
    ensures |ms| == NSecret(algo)
  {
    seq(NSecret(algo), i requires 0 <= i < NSecret(algo) => a[NPkey(algo) + i].value)
  }

  function Plaintext(c: Crypto, ms: seq<Mpi>): bytes {
    EncodedAll(ms) + c.sha1(EncodedAll(ms))
  }

  function Blob(c: Crypto, passphrase: bytes, ms: seq<Mpi>): Mpi {
    Opaque(c.encrypt(passphrase, Plaintext(c, ms)), 8 * |Plaintext(c, ms)|, true)
  }

  /** `apply_protection`. */
  function Protect(job: Job, passphrase: bytes, a: Slots): (r: Slots)
    requires NPkey(job.algo) < NSkey(job.algo) <= |a| && forall i :: 0 <= i < NSkey(job.algo) ==> a[i].Some?
    ensures |r| == |a|
  {
    a[..NPkey(job.algo)] + [Some(Blob(job.crypto, passphrase, Secrets(job.algo, a)))]
    + Nulls(NSecret(job.algo) - 1) + a[NSkey(job.algo)..]
  }

  /** A complete key: every parameter is there, the public ones in the clear, and nothing behind them. */
  ghost predicate Complete(job: Job, a: Slots) {
    && !job.stub && job.supported && job.cipherOk && job.digestOk && job.sha1Protected && job.algo != OtherAlgo
    && Lawful(job.crypto)
    && NSkey(job.algo) + 1 < |a|
    && (forall i :: 0 <= i < NSkey(job.algo) ==> a[i].Some? && WellFormed(a[i].value))
    && (forall i :: 0 <= i < NPkey(job.algo) ==> !Encrypted(a[i].value))
    && (forall i :: NSkey(job.algo) <= i < |a| ==> a[i] == None)
  }

  lemma UsedIs(skey: Slots, n: nat)
    requires n < |skey| && skey[n] == None && forall i :: 0 <= i < n ==> skey[i].Some?
    ensures Used(skey) == n
  {
  }

  lemma PreparedIs(skey: Slots)
    requires forall i :: Used(skey) <= i < |skey| ==> skey[i] == None
    ensures Prepared(skey) == skey
  {
  }

  lemma ProtectedFacts(job: Job, passphrase: bytes, a: Slots)
    requires Complete(job, a)
    ensures var p := Protect(job, passphrase, a);
            && Used(p) == NPkey(job.algo) + 1 && Prepared(p) == p && PrepareError(job, p) == None
            && p[NPkey(job.algo)] == Some(Blob(job.crypto, passphrase, Secrets(job.algo, a)))
            && SamePublic(job.algo, a, p)
  {
    var p := Protect(job, passphrase, a);
    UsedIs(p, NPkey(job.algo) + 1);
    PreparedIs(p);
  }

  /** What decrypting a protected key with its passphrase gives. */
  lemma BlobOpens(job: Job, passphrase: bytes, ms: seq<Mpi>)
    requires Lawful(job.crypto) && job.sha1Protected
    ensures var blob := Blob(job.crypto, passphrase, ms);
            var data := job.crypto.decrypt(passphrase, blob.data);
            && Encrypted(blob) && data == Plaintext(job.crypto, ms) && SumOk(job, blob.data, data)
  {
    var body := EncodedAll(ms);
    var data := Plaintext(job.crypto, ms);
    assert data[..|data| - 20] == body && data[|data| - 20..] == job.crypto.sha1(body);
  }

  lemma FilledAt(s: Slots, np: nat, ms: seq<Mpi>)
    requires np + |ms| < |s|
    ensures forall i :: 0 <= i < |s| ==>
              Filled(s, np, ms)[i] ==
              (if i < np || i > np + |ms| then s[i] else if i == np + |ms| then None else Some(ms[i - np]))
  {
  }

  lemma SecretsAt(algo: Algo, a: Slots, i: nat)
    requires NSkey(algo) <= |a| && (forall i :: 0 <= i < NSkey(algo) ==> a[i].Some?) && i < NSecret(algo)
    ensures Secrets(algo, a)[i] == a[NPkey(algo) + i].value
  {
  }

  /** `p` is `a` but for the secret parameters. */
  ghost predicate SamePublic(algo: Algo, a: Slots, p: Slots) {
    && |p| == |a|
    && forall i :: 0 <= i < |a| && (i < NPkey(algo) || i >= NSkey(algo)) ==> p[i] == a[i]
  }

  lemma FilledIsOriginal(algo: Algo, a: Slots, p: Slots, ms: seq<Mpi>)
    requires NPkey(algo) < NSkey(algo) < |a| && (forall i :: 0 <= i < NSkey(algo) ==> a[i].Some?)
    requires SamePublic(algo, a, p) && a[NSkey(algo)] == None && |ms| == NSecret(algo)
    ensures Filled(p, NPkey(algo), ms) == a <==> ms == Secrets(algo, a)
  {
    hide NPkey, NSkey, Secrets, Filled;
    var np, secrets := NPkey(algo), Secrets(algo, a);
    FilledAt(p, np, ms);
    forall i: nat | i < |ms|
      ensures secrets[i] == a[np + i].value && Filled(p, np, ms)[np + i] == Some(ms[i])
    {
      SecretsAt(algo, a, i);
    }
    if ms == secrets {
      forall i | 0 <= i < |a|
        ensures Filled(p, np, ms)[i] == a[i]
      {
        if np <= i < np + |ms| {
          SecretsAt(algo, a, i - np);
        }
      }
    }
    assert Filled(p, np, ms) == a ==> forall i: nat :: i < |ms| ==> ms[i] == secrets[i];
  }

  /** An encrypted value is longer than anything in it. */
  lemma {:induction false} EncodedAllIsLonger(ms: seq<Mpi>)
    requires ms != []
    ensures |EncodedAll(ms)| >= 2 + |Contents(ms[0])|
  {
    hide Contents, NBits;
    assert EncodedAll(ms) == Encoded(ms[0]) + EncodedAll(ms[1..]);
  }

  lemma BlobIsNew(job: Job, passphrase: bytes, ms: seq<Mpi>)
    requires Lawful(job.crypto) && ms != []
    ensures Blob(job.crypto, passphrase, ms) != ms[0]
  {
    hide EncodedAll;
    EncodedAllIsLonger(ms);
  }

  /**
   Protecting a complete key and unprotecting it with the same passphrase gives back the array as it
   was if and only if every secret parameter fits the external form.
   */
  lemma RoundTripIff(job: Job, passphrase: bytes, a: Slots)
    requires Complete(job, a)
    ensures Attempt(job, passphrase, Protect(job, passphrase, a)).skey == a <==> AllFit(job.algo, Secrets(job.algo, a))
  {
    var ms, p := Secrets(job.algo, a), Protect(job, passphrase, a);
    var np, k := NPkey(job.algo), NSecret(job.algo);
    assert ms[0] == a[np].value;
    assert forall i :: 0 <= i < |ms| ==> WellFormed(ms[i]);
    hide Complete, Secrets, Protect, AllFit, SumOk, Plaintext, Blob, Encrypted, Used, Prepared, PrepareError, ScanUpTo, Filled, Recovered, Converted, WellFormed, EncodedAll, Lawful;
    CompleteFacts(job, a);
    ProtectedFacts(job, passphrase, a);
    BlobOpens(job, passphrase, ms);
    var blob, data := Blob(job.crypto, passphrase, ms), Plaintext(job.crypto, ms);
    PlaintextIs(job.crypto, ms);
    ScanAllIff(job.algo, ms, job.crypto.sha1(EncodedAll(ms)));
    var got := ScanUpTo(job.algo, data, k);
    if |got| < k {
      RecoveredKeepsBlob(p, np, |got|);
      BlobIsNew(job, passphrase, ms);
    } else {
      FilledIsOriginal(job.algo, a, p, got);
    }
  }

  lemma PlaintextIs(c: Crypto, ms: seq<Mpi>)
    ensures Plaintext(c, ms) == EncodedAll(ms) + c.sha1(EncodedAll(ms))
  {
  }

  lemma CompleteFacts(job: Job, a: Slots)
    requires Complete(job, a)
    ensures Lawful(job.crypto) && job.sha1Protected && job.cipherOk && job.digestOk
    ensures NPkey(job.algo) < NSkey(job.algo) < |a| - 1 && a[NSkey(job.algo)] == None
    ensures forall i :: 0 <= i < NSkey(job.algo) ==> a[i].Some?
  {
  }

  lemma RecoveredKeepsBlob(s: Slots, np: nat, k: nat)
    requires np + k < |s|
    ensures Recovered(s, np, k)[np] == s[np]
  {
  }

  /**
   When the parameters fit, unprotecting reads all of them, leaves exactly the 20 octets of the
   digest unread, and the outcome is what converting and testing the original key gives.
   */
  lemma RoundTripReads(job: Job, passphrase: bytes, a: Slots)
    requires Complete(job, a) && AllFit(job.algo, Secrets(job.algo, a))
    ensures Attempt(job, passphrase, Protect(job, passphrase, a)) == Trial(Converted(job, a), a)
    ensures var blob := Protect(job, passphrase, a)[NPkey(job.algo)].value;
            var unread := Unread(job.algo, job.crypto.decrypt(passphrase, blob.data), NSecret(job.algo));
            |unread| == 20 && unread == job.crypto.sha1(EncodedAll(Secrets(job.algo, a)))
  {
    var ms, p := Secrets(job.algo, a), Protect(job, passphrase, a);
    var k := NSecret(job.algo);
    assert forall i :: 0 <= i < |ms| ==> WellFormed(ms[i]) && Fits(job.algo, ms[i]);
    var digest := job.crypto.sha1(EncodedAll(ms));
    assert |digest| == 20;
    hide Complete, Secrets, Protect, AllFit, SumOk, Plaintext, Blob, Encrypted, Used, Prepared, PrepareError, ScanUpTo, Unread, Filled, Recovered, Converted, WellFormed, EncodedAll, Lawful, Fits;
    CompleteFacts(job, a);
    ProtectedFacts(job, passphrase, a);
    BlobOpens(job, passphrase, ms);
    PlaintextIs(job.crypto, ms);
    ScanAllFit(job.algo, ms, digest);
    FilledIsOriginal(job.algo, a, p, ms);
  }

  // ----- Trying again -----

  /** The attempt gets as far as the encrypted value. */
  ghost predicate Reaches(job: Job, skey: Slots) {
    PrepareError(job, skey) == None && job.cipherOk && job.digestOk && Encrypted(skey[NPkey(job.algo)].value)
  }

  function Decrypted(job: Job, passphrase: bytes, skey: Slots): bytes
    requires PrepareError(job, skey) == None && Encrypted(skey[NPkey(job.algo)].value)
  {
    job.crypto.decrypt(passphrase, skey[NPkey(job.algo)].value.data)
  }

  /** How many parameters the attempt stores before it notices that the passphrase is wrong. */
  function Stored(job: Job, passphrase: bytes, skey: Slots): nat
    requires PrepareError(job, skey) == None && Encrypted(skey[NPkey(job.algo)].value)
  {
    var data := Decrypted(job, passphrase, skey);
    if SumOk(job, skey[NPkey(job.algo)].value.data, data) then |ScanUpTo(job.algo, data, NSecret(job.algo))| else 0
  }

  /** The passphrase is rejected by the checksum or because a parameter cannot be read. */
  ghost predicate Rejected(job: Job, passphrase: bytes, skey: Slots) {
    Reaches(job, skey) && Stored(job, passphrase, skey) < NSecret(job.algo)
  }

  lemma PreparedAt(skey: Slots)
    ensures forall i :: 0 <= i < |skey| ==> Prepared(skey)[i] == if i < Used(skey) then skey[i] else None
  {
    hide Used;
  }

  lemma PreparedUsed(skey: Slots)
    ensures Used(Prepared(skey)) == Used(skey) && Prepared(Prepared(skey)) == Prepared(skey)
  {
    PreparedAt(skey);
    PreparedAt(Prepared(skey));
    hide Used, Prepared;
    if Used(skey) < |skey| {
      UsedIs(Prepared(skey), Used(skey));
    } else {
      assert Prepared(skey) == skey;
    }
  }

  lemma PrepareErrorDependsOn(job: Job, s: Slots, t: Slots)
    requires |s| == |t| && Used(s) == Used(t) && forall i :: 0 <= i < Used(s) ==> s[i] == t[i]
    ensures PrepareError(job, s) == PrepareError(job, t)
  {
    hide Used, Encrypted, NPkey, NSkey;
  }

  lemma PreparedFacts(job: Job, skey: Slots)
    ensures Used(Prepared(skey)) == Used(skey) && Prepared(Prepared(skey)) == Prepared(skey)
    ensures PrepareError(job, Prepared(skey)) == PrepareError(job, skey)
    ensures forall i :: 0 <= i < |skey| ==> Prepared(skey)[i] == if i < Used(skey) then skey[i] else None
  {
    hide *;
    PreparedAt(skey);
    PreparedUsed(skey);
    PrepareErrorDependsOn(job, Prepared(skey), skey);
  }

  lemma RejectedTrial(job: Job, passphrase: bytes, skey: Slots)
    requires Rejected(job, passphrase, skey)
    ensures Attempt(job, passphrase, skey) ==
            Trial(Failed(BadPassphrase), Recovered(Prepared(skey), NPkey(job.algo), Stored(job, passphrase, skey)))
  {
    PreparedFacts(job, skey);
    hide Prepared, PrepareError, SumOk, ScanUpTo, Used;
    assert Prepared(skey)[NPkey(job.algo)] == skey[NPkey(job.algo)];
  }

  lemma RecoveredUnchanged(s: Slots, np: nat, k: nat)
    requires np + k < |s|
    ensures Recovered(s, np, k) == s <==> forall i :: np + 1 <= i < np + k ==> s[i] == None
  {
    var r := Recovered(s, np, k);
    if k > 1 {
      assert forall i :: 0 <= i < |s| ==> r[i] == if np + 1 <= i < np + k then None else s[i];
    }
  }

  /**
   A rejected passphrase leaves the array as it was if and only if there is nothing but the one
   encrypted value, or at most one parameter had been read when the attempt failed.
   */
  lemma RejectionLeavesArrayIff(job: Job, passphrase: bytes, skey: Slots)
    requires Rejected(job, passphrase, skey)
    ensures Attempt(job, passphrase, skey).result == Failed(BadPassphrase)
    ensures Attempt(job, passphrase, skey).skey == Prepared(skey) <==>
            Used(skey) == NPkey(job.algo) + 1 || Stored(job, passphrase, skey) <= 1
  {
    var np, k := NPkey(job.algo), Stored(job, passphrase, skey);
    assert np < Used(skey) && np + k < |skey|;
    hide *;
    RejectedTrial(job, passphrase, skey);
    PreparedFacts(job, skey);
    RecoveredUnchanged(Prepared(skey), np, k);
    if k > 1 {
      assert Prepared(skey)[np + 1] == None <==> Used(skey) <= np + 1;
    }
  }

  lemma AttemptOnPrepared(job: Job, passphrase: bytes, skey: Slots)
    ensures Attempt(job, passphrase, Prepared(skey)) == Attempt(job, passphrase, skey)
  {
    PreparedFacts(job, skey);
    hide Prepared, PrepareError, TryBlob, Used;
  }

  /** The array after a number of attempts. */
  function ArrayAfter(job: Job, passphrases: seq<bytes>, skey: Slots): Slots {
    if passphrases == [] then skey
    else ArrayAfter(job, passphrases[1..], Attempt(job, passphrases[0], skey).skey)
  }

  ghost predicate AllRejected(job: Job, passphrases: seq<bytes>, skey: Slots) {
    forall i :: 0 <= i < |passphrases| ==> Rejected(job, passphrases[i], skey)
  }

  lemma RejectedOnPrepared(job: Job, passphrase: bytes, skey: Slots)
    ensures Rejected(job, passphrase, skey) <==> Rejected(job, passphrase, Prepared(skey))
  {
    PreparedFacts(job, skey);
    hide Prepared, SumOk, ScanUpTo, Used;
    if PrepareError(job, skey) == None {
      hide PrepareError;
      assert Prepared(skey)[NPkey(job.algo)] == skey[NPkey(job.algo)];
    }
  }

  /**
   With one encrypted value, any number of rejected passphrases can be tried: a later attempt does
   what it would have done as the first one.
   */
  lemma {:induction false} RetriesAreIndependent(job: Job, passphrases: seq<bytes>, last: bytes, skey: Slots)
    requires Used(skey) == NPkey(job.algo) + 1 && AllRejected(job, passphrases, skey)
    ensures Attempt(job, last, ArrayAfter(job, passphrases, skey)) == Attempt(job, last, skey)
    decreases passphrases
  {
    hide Attempt, Prepared, Rejected, Used;
    if passphrases != [] {
      var next := Attempt(job, passphrases[0], skey).skey;
      RejectionLeavesArrayIff(job, passphrases[0], skey);
      PreparedFacts(job, skey);
      forall i | 0 <= i < |passphrases[1..]|
        ensures Rejected(job, passphrases[1..][i], next)
      {
        assert passphrases[1..][i] == passphrases[i + 1];
        RejectedOnPrepared(job, passphrases[i + 1], skey);
      }
      RetriesAreIndependent(job, passphrases[1..], last, next);
      AttemptOnPrepared(job, last, skey);
    }
  }

  // ----- A rejection that cannot be taken back -----

  /** The passphrase passes the checksum and every parameter can be read. */
  ghost predicate Opened(job: Job, passphrase: bytes, skey: Slots) {
    Reaches(job, skey) && Stored(job, passphrase, skey) == NSecret(job.algo)
  }

  lemma {:induction false} ScannedAreClear(algo: Algo, buf: bytes, k: nat)
    ensures forall i :: 0 <= i < |ScanUpTo(algo, buf, k)| ==> !Encrypted(ScanUpTo(algo, buf, k)[i])
    decreases k
  {
    if k > 0 && Scan(algo, buf).Some? {
      ScannedAreClear(algo, buf[Scan(algo, buf).value.nbytes..], k - 1);
      ScanUpToFirst(algo, buf, k);
      ScannedIsBounded(algo, buf);
      hide Scan, ScanUpTo;
    }
  }

  lemma OpenedTrial(job: Job, passphrase: bytes, skey: Slots)
    requires Opened(job, passphrase, skey)
    ensures var ms := ScanUpTo(job.algo, Decrypted(job, passphrase, skey), NSecret(job.algo));
            var filled := Filled(Prepared(skey), NPkey(job.algo), ms);
            |ms| == NSecret(job.algo) && Attempt(job, passphrase, skey) == Trial(Converted(job, filled), filled)
  {
    assert NSecret(job.algo) > 0;
    PreparedFacts(job, skey);
    hide Prepared, PrepareError, SumOk, ScanUpTo, Used, Filled, Converted;
    assert Prepared(skey)[NPkey(job.algo)] == skey[NPkey(job.algo)];
  }

  /** An attempt that opens the key leaves nothing to decrypt, so every later one fails. */
  lemma NothingLeftToOpen(job: Job, passphrase: bytes, later: bytes, skey: Slots)
    requires Opened(job, passphrase, skey)
    ensures Attempt(job, later, Attempt(job, passphrase, skey).skey).result == Failed(BadSeckey)
  {
    var np, ns := NPkey(job.algo), NSkey(job.algo);
    var data := Decrypted(job, passphrase, skey);
    var ms := ScanUpTo(job.algo, data, NSecret(job.algo));
    var s := Prepared(skey);
    assert np < ns < |skey| - 1 && np < Used(skey);
    assert forall i :: 0 <= i < np ==> !Encrypted(skey[i].value);
    assert !job.stub && job.supported && np != 0 && job.cipherOk && job.digestOk;
    hide Prepared, SumOk, ScanUpTo, Used, Filled, Converted, Reaches, Opened, Stored, Encrypted, NPkey, NSkey;
    OpenedTrial(job, passphrase, skey);
    PreparedFacts(job, skey);
    FilledAt(s, np, ms);
    ScannedAreClear(job.algo, data, NSecret(job.algo));
    var filled := Filled(s, np, ms);
    assert filled[np] == Some(ms[0]) && filled[ns] == None;
    UsedIs(filled, ns);
    PreparedFacts(job, filled);
  }

  /** The key that an attempt opens is turned down by the key test. */
  ghost predicate TurnedDown(job: Job, passphrase: bytes, skey: Slots)
    requires Opened(job, passphrase, skey)
  {
    var ms := ScanUpTo(job.algo, Decrypted(job, passphrase, skey), NSecret(job.algo));
    var key := job.convert(Filled(Prepared(skey), NPkey(job.algo), ms)[..NSkey(job.algo)]);
    key.Some? && !job.testKey(key.value)
  }

  /**
   When the key test turns down an opened key, the answer is that the passphrase was bad; but the
   encrypted value is gone, and every later attempt, with whatever passphrase, fails.
   */
  lemma TestRejectionIsFinal(job: Job, passphrase: bytes, later: bytes, skey: Slots)
    requires Opened(job, passphrase, skey)
    ensures Attempt(job, passphrase, skey).result == Failed(BadPassphrase) <==> TurnedDown(job, passphrase, skey)
    ensures Attempt(job, later, Attempt(job, passphrase, skey).skey).result == Failed(BadSeckey)
  {
    hide Attempt, ScanUpTo, Filled, Prepared, NPkey, NSkey;
    OpenedTrial(job, passphrase, skey);
    NothingLeftToOpen(job, passphrase, later, skey);
  }

  /**
   With one encrypted value, after an attempt that was answered with a bad passphrase every further
   one does what it would have done first if and only if the passphrase was rejected by the checksum
   or because a parameter could not be read.
   */
  lemma BadPassphraseIsForgottenIff(job: Job, passphrase: bytes, skey: Slots)
    requires Used(skey) == NPkey(job.algo) + 1 && Reaches(job, skey)
    requires Attempt(job, passphrase, skey).result == Failed(BadPassphrase)
    ensures (forall later :: Attempt(job, later, Attempt(job, passphrase, skey).skey) == Attempt(job, later, skey))
            <==> Stored(job, passphrase, skey) < NSecret(job.algo)
  {
    StoredAtMost(job, passphrase, skey);
    hide Attempt, Prepared, Stored, Used, NPkey, NSkey;
    var after := Attempt(job, passphrase, skey).skey;
    if Stored(job, passphrase, skey) < NSecret(job.algo) {
      RejectionLeavesArrayIff(job, passphrase, skey);
      forall later
        ensures Attempt(job, later, after) == Attempt(job, later, skey)
      {
        AttemptOnPrepared(job, later, skey);
      }
    } else {
      NothingLeftToOpen(job, passphrase, passphrase, skey);
      assert Attempt(job, passphrase, after) != Attempt(job, passphrase, skey);
    }
  }

  lemma StoredAtMost(job: Job, passphrase: bytes, skey: Slots)
    requires Reaches(job, skey)
    ensures Stored(job, passphrase, skey) <= NSecret(job.algo)
  {
  }

  /** A key whose passphrase is right is lost if the key test turns it down: the second answer differs. */
  lemma RightPassphraseTurnedDown(job: Job, passphrase: bytes, a: Slots)
    requires Complete(job, a) && AllFit(job.algo, Secrets(job.algo, a))
    requires job.convert(a[..NSkey(job.algo)]).Some? && !job.testKey(job.convert(a[..NSkey(job.algo)]).value)
    ensures var first := Attempt(job, passphrase, Protect(job, passphrase, a));
            && first.result == Failed(BadPassphrase) && first.skey == a
            && Attempt(job, passphrase, first.skey).result == Failed(BadSeckey)
  {
    RoundTripReads(job, passphrase, a);
    assert !Encrypted(a[NPkey(job.algo)].value) by {
      assert Secrets(job.algo, a)[0] == a[NPkey(job.algo)].value;
    }
    UsedIs(a, NSkey(job.algo));
    PreparedIs(a);
    hide Protect, AllFit, Secrets, Prepared, Used, ScanUpTo, SumOk;
  }

  /** A cipher that does nothing, a digest of zeros and a key test that always fails. */
  const STRICT_JOB := Job(Ecc, true, false, true, true, true,
                          Crypto((p: bytes, d: bytes) => d, (p: bytes, d: bytes) => d, (d: bytes) => seq(20, _ => NUL)),
                          (s: Slots) => Some(0), (k: Key) => false)

  const SMALL_KEY: Slots := [Some(Number(1)), Some(Opaque([], 0, false)), None, None]

  /** A concrete key: the right passphrase is answered with "bad passphrase", and then with "bad key". */
  lemma TurnedDownExample(passphrase: bytes)
    ensures Complete(STRICT_JOB, SMALL_KEY)
    ensures var first := Attempt(STRICT_JOB, passphrase, Protect(STRICT_JOB, passphrase, SMALL_KEY));
            && first.result == Failed(BadPassphrase)
            && Attempt(STRICT_JOB, passphrase, first.skey).result == Failed(BadSeckey)
  {
    assert Complete(STRICT_JOB, SMALL_KEY);
    var ms := Secrets(Ecc, SMALL_KEY);
    assert ms == [Opaque([], 0, false)];
    assert AllFit(Ecc, ms);
    hide Attempt, Protect, Complete, AllFit;
    RightPassphraseTurnedDown(STRICT_JOB, passphrase, SMALL_KEY);
  }
}
