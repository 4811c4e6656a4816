/**
 What it takes to unprotect an OpenPGP key: which passphrases are let through, what the array holds
 afterwards, and what exactly is encrypted when a key is protected.
 */
module OpenPgpAcceptance {
  import opened Wrappers
  import opened Bytes
  import opened BigEndian
  import opened OpenPgpFormat
  import opened OpenPgpProtection

  // ----- The external form -----

  /** The two examples of section 3.2 of RFC 4880: the numbers 1 and 511. */
  lemma NumberExamples()
    ensures Encoded(Number(1)) == [0 as char, 1 as char, 1 as char]
    ensures Encoded(Number(511)) == [0 as char, 9 as char, 1 as char, 255 as char]
  {
    assert Octets(0) == [];
    assert Octets(1) == [1 as char];
    assert Octets(511) == [1 as char, 255 as char];
  }

  function Pow2(k: nat): nat {
    if k == 0 then 1 else 2 * Pow2(k - 1)
  }

  lemma {:induction false} Pow2IsPow256(k: nat)
    ensures Pow2(8 * k) == Pow256(k)
  {
    if k > 0 {
      Pow2IsPow256(k - 1);
      Pow2Sum(8 * (k - 1), 8);
      assert Pow2(8) == 256 by { assert Pow2(4) == 16; }
    }
  }

  lemma {:induction false} Pow2Sum(a: nat, b: nat)
    ensures Pow2(a + b) == Pow2(a) * Pow2(b)
  {
    if b > 0 {
      Pow2Sum(a, b - 1);
    }
  }

  lemma {:induction false} ValueFirst(c: byte, b: bytes)
    ensures Value([c] + b) == c as int * Pow256(|b|) + Value(b)
    decreases |b|
  {
    var all := [c] + b;
    if b == [] {
      assert all[..0] == [];
    } else {
      assert all[..|all| - 1] == [c] + b[..|b| - 1];
      ValueFirst(c, b[..|b| - 1]);
    }
  }

  lemma {:induction false} ValueBound(b: bytes)
    ensures Value(b) < Pow256(|b|)
  {
    if b != [] {
      ValueBound(b[..|b| - 1]);
    }
  }

  lemma BitsOfOctet(c: byte)
    requires c != NUL
    ensures Pow2(BitLength(c) - 1) <= c as int < Pow2(BitLength(c))
  {
    assert Pow2(4) == 16 && Pow2(8) == 256 && Pow2(7) == 128 && Pow2(6) == 64 && Pow2(5) == 32;
  }

  lemma Scaled(a: nat, b: nat, c: nat, p: nat, r: nat)
    requires a <= b < c && r < p
    ensures a * p <= b * p + r < c * p
  {
    assert (b + 1) * p <= c * p;
  }

  lemma FirstBits(c: byte, b: bytes, l: nat)
    requires l > 0 && Pow2(l - 1) <= c as int < Pow2(l)
    ensures Pow2(8 * |b| + l - 1) <= Value([c] + b) < Pow2(8 * |b| + l)
  {
    hide *;
    ValueFirst(c, b);
    ValueBound(b);
    Pow2IsPow256(|b|);
    Pow2Sum(l - 1, 8 * |b|);
    Pow2Sum(l, 8 * |b|);
    Scaled(Pow2(l - 1), c as int, Pow2(l), Pow256(|b|), Value(b));
  }

  /** The number of bits in front of a number is that of its binary form without leading zeros. */
  lemma NBitsIs(n: nat)
    requires n > 0
    ensures NBits(Number(n)) > 0
    ensures Pow2(NBits(Number(n)) - 1) <= n < Pow2(NBits(Number(n)))
    ensures Contents(Number(n)) == Octets(n) && Value(Octets(n)) == n
  {
    var b := Octets(n);
    var k, l := |b| - 1, BitLength(b[0]);
    OctetsValue(n);
    BitsOfOctet(b[0]);
    hide Octets, Value, BitLength, Pow2, Pow256;
    assert NBits(Number(n)) == 8 * k + l;
    assert b == [b[0]] + b[1..];
    FirstBits(b[0], b[1..], l);
  }

  // ----- Checksums -----

  /** The plain sum of the octets. */
  function Sum(b: bytes): nat {
    if b == [] then 0 else b[0] as int + Sum(b[1..])
  }

  lemma {:induction false} SumAppended(b: bytes, c: byte)
    ensures Sum(b + [c]) == Sum(b) + c as int
  {
    if b == [] {
      assert [] + [c] == [c];
    } else {
      assert (b + [c])[1..] == b[1..] + [c];
      SumAppended(b[1..], c);
    }
  }

  /** The 16 bit checksum is the sum of the octets modulo 65536. */
  lemma {:induction false} ChecksumIsSum(b: bytes)
    ensures Checksum(b) == Sum(b) % 65536
  {
    if b != [] {
      var front := b[..|b| - 1];
      ChecksumIsSum(front);
      SumAppended(front, b[|b| - 1]);
      assert b == front + [b[|b| - 1]];
      SumModulo(Sum(front), b[|b| - 1] as int);
    }
  }

  lemma SumModulo(a: nat, c: nat)
    ensures (a % 65536 + c) % 65536 == (a + c) % 65536
  {
    var q := a / 65536;
    assert a + c == 65536 * q + (a % 65536 + c);
  }

  // ----- Which passphrases are let through -----

  /**
   A key protected with a digest: an attempt lets a passphrase through only if the value decrypts to
   at least 20 octets of which the last 20 are the digest of the others.  Otherwise the passphrase is
   called bad and the array is as prepared.
   */
  lemma DigestDecides(job: Job, passphrase: bytes, skey: Slots)
    requires Reaches(job, skey) && job.sha1Protected
    ensures var data := job.crypto.decrypt(passphrase, skey[NPkey(job.algo)].value.data);
            || (|data| >= 20 && data[|data| - 20..] == job.crypto.sha1(data[..|data| - 20]))
            || Attempt(job, passphrase, skey) == Trial(Failed(BadPassphrase), Prepared(skey))
  {
    PreparedFacts(job, skey);
    hide Prepared, Used, ScanUpTo;
    assert Prepared(skey)[NPkey(job.algo)] == skey[NPkey(job.algo)];
  }

  /**
   A key protected with a checksum: only if the sum of all but the last two octets, modulo 65536, is
   what these two say, or what the last two octets of the encrypted value say.
   */
  lemma SumDecides(job: Job, passphrase: bytes, skey: Slots)
    requires Reaches(job, skey) && !job.sha1Protected && Lawful(job.crypto)
    ensures var value := skey[NPkey(job.algo)].value.data;
            var data := job.crypto.decrypt(passphrase, value);
            var n := |data|;
            && |value| == n
            && (|| (&& n >= 2
                    && (|| Sum(data[..n - 2]) % 65536 == 256 * data[n - 2] as int + data[n - 1] as int
                        || Sum(data[..n - 2]) % 65536 == 256 * value[n - 2] as int + value[n - 1] as int))
                || Attempt(job, passphrase, skey) == Trial(Failed(BadPassphrase), Prepared(skey)))
  {
    var value := skey[NPkey(job.algo)].value.data;
    var data := job.crypto.decrypt(passphrase, value);
    PreparedFacts(job, skey);
    if |data| >= 2 {
      ChecksumIsSum(data[..|data| - 2]);
    }
    hide Prepared, Used, ScanUpTo, Checksum, Sum;
    assert Prepared(skey)[NPkey(job.algo)] == skey[NPkey(job.algo)];
  }

  /** The other direction: such a passphrase is let through, and the parameters are read. */
  lemma MatchIsLetThrough(job: Job, passphrase: bytes, skey: Slots)
    requires Reaches(job, skey) && Lawful(job.crypto)
    requires var value := skey[NPkey(job.algo)].value.data;
             var data := job.crypto.decrypt(passphrase, value);
             var n := |data|;
             && |value| == n
             && if job.sha1Protected then n >= 20 && data[n - 20..] == job.crypto.sha1(data[..n - 20])
             else && n >= 2
                  && (|| Sum(data[..n - 2]) % 65536 == 256 * data[n - 2] as int + data[n - 1] as int
                      || Sum(data[..n - 2]) % 65536 == 256 * value[n - 2] as int + value[n - 1] as int)
    ensures var data := job.crypto.decrypt(passphrase, skey[NPkey(job.algo)].value.data);
            Stored(job, passphrase, skey) == |ScanUpTo(job.algo, data, NSecret(job.algo))|
  {
    var data := job.crypto.decrypt(passphrase, skey[NPkey(job.algo)].value.data);
    if |data| >= 2 {
      ChecksumIsSum(data[..|data| - 2]);
    }
    hide ScanUpTo, Checksum, Sum, Used;
  }

  /** How far an attempt gets at all, check by check. */
  lemma ReachesIff(job: Job, skey: Slots)
    ensures Reaches(job, skey) <==>
            && !job.stub && job.supported && job.algo != OtherAlgo && job.cipherOk && job.digestOk
            && (var public := match job.algo case Rsa => 2 case Elg => 3 case ElgE => 3 case Dsa => 4 case _ => 1;
                var secret := match job.algo case Rsa => 4 case _ => 1;
                && public + secret + 1 < |skey|
                && (forall i :: 0 <= i <= public ==> skey[i].Some?)
                && (forall i :: 0 <= i < public ==> !(skey[i].value.Opaque? && skey[i].value.user1))
                && skey[public].value.Opaque? && skey[public].value.user1)
  {
    UsedBeyond(skey, NPkey(job.algo));
    hide Used;
  }

  lemma UsedBeyond(skey: Slots, n: nat)
    ensures n < Used(skey) <==> n < |skey| && forall i :: 0 <= i <= n ==> skey[i].Some?
  {
    hide Used;
  }

  /** An attempt that does not get there fails, but does not blame the passphrase. */
  lemma NotReached(job: Job, passphrase: bytes, skey: Slots)
    requires !Reaches(job, skey)
    ensures Attempt(job, passphrase, skey).result.Failed? && Attempt(job, passphrase, skey).skey == Prepared(skey)
    ensures Attempt(job, passphrase, skey).result.err != BadPassphrase
  {
    PreparedFacts(job, skey);
    hide Prepared, Used, SumOk, ScanUpTo;
    if PrepareError(job, skey) == None {
      assert Prepared(skey)[NPkey(job.algo)] == skey[NPkey(job.algo)];
    }
  }

  /** The errors in front of the passphrase, in their order; none of them depends on it. */
  lemma EarlyErrors(job: Job, passphrase: bytes, skey: Slots)
    ensures job.stub ==> Attempt(job, passphrase, skey).result == Failed(UnusableSeckey)
    ensures !job.stub && !job.supported ==> Attempt(job, passphrase, skey).result == Failed(PubkeyAlgo)
    ensures !job.stub && job.supported && job.algo == OtherAlgo ==> Attempt(job, passphrase, skey).result == Failed(Internal)
    ensures !job.stub && job.supported && job.algo != OtherAlgo ==>
              var public := match job.algo case Rsa => 2 case Elg => 3 case ElgE => 3 case Dsa => 4 case _ => 1;
              var secret := match job.algo case Rsa => 4 case _ => 1;
              var present := public < |skey| && forall i :: 0 <= i <= public ==> skey[i].Some?;
              var room := public + secret + 1 < |skey|;
              var clear := present && forall i :: 0 <= i < public ==> !(skey[i].value.Opaque? && skey[i].value.user1);
              var answer := Attempt(job, passphrase, skey).result;
              && (!present ==> answer == Failed(MissingValue))
              && (present && !room ==> answer == Failed(BufferTooShort))
              && (present && room && !clear ==> answer == Failed(BadSeckey))
              && (present && room && clear && !job.cipherOk ==> answer == Failed(CipherAlgo))
              && (present && room && clear && job.cipherOk && !job.digestOk ==> answer == Failed(DigestAlgo))
              && (var encrypted := present && skey[public].value.Opaque? && skey[public].value.user1;
                  present && room && clear && job.cipherOk && job.digestOk && !encrypted ==> answer == Failed(BadSeckey))
  {
    PreparedFacts(job, skey);
    UsedBeyond(skey, NPkey(job.algo));
    hide Prepared, Used, SumOk, ScanUpTo;
    if PrepareError(job, skey) == None {
      assert Prepared(skey)[NPkey(job.algo)] == skey[NPkey(job.algo)];
    }
  }

  /**
   When an attempt succeeds: if and only if it gets to the encrypted value, the digest or checksum
   matches, every secret parameter can be read, and the key converts and passes the test.  The array
   then holds the public parameters, those read, and a null pointer.
   */
  lemma SucceedsIff(job: Job, passphrase: bytes, skey: Slots, key: Key)
    ensures Attempt(job, passphrase, skey).result == Done(key) <==>
            && Opened(job, passphrase, skey)
            && (var ms := ScanUpTo(job.algo, job.crypto.decrypt(passphrase, skey[NPkey(job.algo)].value.data),
                                   NSecret(job.algo));
                var secret := seq(|ms|, i requires 0 <= i < |ms| => Some(ms[i]));
                job.convert(skey[..NPkey(job.algo)] + secret) == Some(key) && job.testKey(key))
  {
    if !Reaches(job, skey) {
      NotReached(job, passphrase, skey);
      hide Attempt, Stored, Prepared, PrepareError;
    } else {
      var data := job.crypto.decrypt(passphrase, skey[NPkey(job.algo)].value.data);
      var ms := ScanUpTo(job.algo, data, NSecret(job.algo));
      assert Decrypted(job, passphrase, skey) == data;
      StoredAtMost(job, passphrase, skey);
      if Opened(job, passphrase, skey) {
        OpenedTrial(job, passphrase, skey);
        FilledStart(job, skey, ms);
      } else {
        RejectedTrial(job, passphrase, skey);
      }
      hide Attempt, Stored, Prepared, PrepareError, Filled, ScanUpTo, Recovered, Reaches;
    }
  }

  lemma FilledStart(job: Job, skey: Slots, ms: seq<Mpi>)
    requires Reaches(job, skey) && |ms| == NSecret(job.algo)
    ensures Filled(Prepared(skey), NPkey(job.algo), ms)[..NSkey(job.algo)] ==
            skey[..NPkey(job.algo)] + seq(|ms|, i requires 0 <= i < |ms| => Some(ms[i]))
  {
    var np := NPkey(job.algo);
    assert np + 1 <= Used(skey);
    PreparedFacts(job, skey);
    hide Prepared, Used;
    assert Prepared(skey)[..np] == skey[..np];
  }

  // ----- What is encrypted -----

  /**
   A protected key: the public parameters stay, and the secret ones become one opaque value marked as
   encrypted, which is the encryption of their external forms followed by the digest of these.
   */
  lemma ProtectedIs(job: Job, passphrase: bytes, a: Slots)
    requires Complete(job, a)
    ensures var p := Protect(job, passphrase, a);
            var np, ns := NPkey(job.algo), NSkey(job.algo);
            var plain := EncodedAll(seq(ns - np, i requires 0 <= i < ns - np => a[np + i].value));
            && |p| == |a| && p[..np] == a[..np]
            && p[np] == Some(Opaque(job.crypto.encrypt(passphrase, plain + job.crypto.sha1(plain)), 8 * (|plain| + 20), true))
            && forall i :: np < i < |a| ==> p[i] == None
  {
    var np, ns := NPkey(job.algo), NSkey(job.algo);
    assert Secrets(job.algo, a) == seq(ns - np, i requires 0 <= i < ns - np => a[np + i].value);
    var plain := EncodedAll(Secrets(job.algo, a));
    assert |job.crypto.sha1(plain)| == 20;
    CompleteFacts(job, a);
    ProtectedParts(job, passphrase, a);
    hide EncodedAll, Protect, Secrets, NPkey, NSkey, Lawful;
  }

  lemma ProtectedParts(job: Job, passphrase: bytes, a: Slots)
    requires Complete(job, a)
    ensures var p := Protect(job, passphrase, a);
            && |p| == |a| && p[..NPkey(job.algo)] == a[..NPkey(job.algo)]
            && p[NPkey(job.algo)] == Some(Blob(job.crypto, passphrase, Secrets(job.algo, a)))
            && forall i :: NPkey(job.algo) < i < |a| ==> p[i] == None
  {
    assert forall i :: 0 <= i < NSkey(job.algo) ==> a[i].Some?;
    assert forall i :: NSkey(job.algo) <= i < |a| ==> a[i] == None;
    hide Blob, Secrets, Complete, Lawful;
  }
}
