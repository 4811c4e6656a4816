/**
 Key parameters as multi-precision integers and their external form: two octets with the number of
 bits followed by the octets of the number (section 3.2 of RFC 4880).
 */
module OpenPgpFormat {
  import opened Wrappers
  import opened Bytes
  import opened BigEndian

  /** The position of the highest bit that is set. */
  function BitLength(c: byte): (n: nat)
    ensures n <= 8
    ensures c != NUL ==> n >= 1
  {
    var v := c as int;
    if v >= 128 then 8 else if v >= 64 then 7 else if v >= 32 then 6 else if v >= 16 then 5
    else if v >= 8 then 4 else if v >= 4 then 3 else if v >= 2 then 2 else if v >= 1 then 1 else 0
  }

  function BytesFor(nbits: nat): nat {
    (nbits + 7) / 8
  }

  // ----- Key parameters -----

  /** A number, or octets that are not to be read as a number; `user1` marks an encrypted value. */
  datatype Mpi = Number(n: nat) | Opaque(data: bytes, nbits: nat, user1: bool)

  ghost predicate WellFormed(m: Mpi) {
    m.Opaque? ==> |m.data| == BytesFor(m.nbits)
  }

  function Contents(m: Mpi): bytes {
    if m.Opaque? then m.data else Octets(m.n)
  }

  function NBits(m: Mpi): nat {
    if m.Opaque? then m.nbits
    else if m.n == 0 then 0 else 8 * (|Octets(m.n)| - 1) + BitLength(Octets(m.n)[0])
  }

  lemma ContentsLength(m: Mpi)
    requires WellFormed(m)
    ensures |Contents(m)| == BytesFor(NBits(m))
  {
    if m.Number? && m.n > 0 {
      var k, l := |Octets(m.n)|, BitLength(Octets(m.n)[0]);
      assert (8 * (k - 1) + l + 7) / 8 == k;
    }
  }

  /** Two octets hold only the low 16 bits of the number of bits. */
  function Header(nbits: nat): bytes {
    [Octet(nbits / 256), Octet(nbits)]
  }

  function Unsigned16(b: bytes): nat
    requires |b| >= 2
  {
    b[0] as int * 256 + b[1] as int
  }

  lemma HeaderValue(nbits: nat)
    ensures Unsigned16(Header(nbits)) == nbits % 65536
  {
    var high, low := nbits / 256, nbits % 256;
    var top, middle := high / 256, high % 256;
    assert nbits == 65536 * top + (256 * middle + low);
    LowPart(top, 256 * middle + low);
  }

  lemma LowPart(q: nat, r: nat)
    requires r < 65536
    ensures (65536 * q + r) % 65536 == r
  {
  }

  function Encoded(m: Mpi): bytes {
    Header(NBits(m)) + Contents(m)
  }

  function EncodedAll(ms: seq<Mpi>): bytes {
    if ms == [] then [] else Encoded(ms[0]) + EncodedAll(ms[1..])
  }

  // ----- Reading -----

  datatype Algo = Rsa | Elg | ElgE | Dsa | Ecc | OtherAlgo

  datatype Scanned = Scanned(mpi: Mpi, nbytes: nat)

  /** Elliptic curve values stay octets, all others become numbers; both have a limit on their size. */
  function Scan(algo: Algo, buf: bytes): (r: Option<Scanned>)
    ensures r.Some? ==> 2 <= r.value.nbytes <= |buf|
  {
    if |buf| < 2 then None
    else
      var nbits := Unsigned16(buf);
      if (if algo == Ecc then nbits >= 16384 else nbits > 16384) || |buf| < BytesFor(nbits) + 2 then None
      else
        var data := buf[2..BytesFor(nbits) + 2];
        Some(Scanned(if algo == Ecc then Opaque(data, nbits, false) else Number(Value(data)), BytesFor(nbits) + 2))
  }

  /** The parameters read before the first that cannot be read, at most `k`. */
  function ScanUpTo(algo: Algo, buf: bytes, k: nat): (ms: seq<Mpi>)
    ensures |ms| <= k
  {
    if k == 0 || Scan(algo, buf) == None then []
    else [Scan(algo, buf).value.mpi] + ScanUpTo(algo, buf[Scan(algo, buf).value.nbytes..], k - 1)
  }

  /** What is left unread by that. */
  function Unread(algo: Algo, buf: bytes, k: nat): bytes {
    if k == 0 || Scan(algo, buf) == None then buf
    else Unread(algo, buf[Scan(algo, buf).value.nbytes..], k - 1)
  }

  /** The parameters that survive the external form. */
  predicate Fits(algo: Algo, m: Mpi) {
    if algo == Ecc then m.Opaque? && m.nbits < 16384 && !m.user1
    else m.Number? && NBits(m) <= 16384
  }

  lemma EncodedParts(m: Mpi, tail: bytes)
    requires WellFormed(m)
    ensures |Encoded(m)| == 2 + BytesFor(NBits(m)) && Unsigned16(Encoded(m) + tail) == NBits(m) % 65536
    ensures (Encoded(m) + tail)[2..|Encoded(m)|] == Contents(m) && (Encoded(m) + tail)[|Encoded(m)|..] == tail
  {
    ContentsLength(m);
    HeaderValue(NBits(m));
    assert (Encoded(m) + tail)[..2] == Header(NBits(m));
  }

  lemma ScanIs(algo: Algo, buf: bytes, nbits: nat, data: bytes)
    requires 2 + |data| <= |buf| && Unsigned16(buf) == nbits && buf[2..2 + |data|] == data && |data| == BytesFor(nbits)
    ensures Scan(algo, buf) ==
            if (if algo == Ecc then nbits >= 16384 else nbits > 16384) then None
            else Some(Scanned(if algo == Ecc then Opaque(data, nbits, false) else Number(Value(data)), 2 + |data|))
  {
    hide Unsigned16, Value;
  }

  lemma SmallHeader(nbits: nat)
    requires nbits <= 16384
    ensures nbits % 65536 == nbits
  {
  }

  lemma ScanFits(algo: Algo, m: Mpi, tail: bytes)
    requires WellFormed(m) && Fits(algo, m)
    ensures Scan(algo, Encoded(m) + tail) == Some(Scanned(m, |Encoded(m)|))
  {
    assert m.Number? ==> Contents(m) == Octets(m.n);
    assert (algo == Ecc <==> m.Opaque?) && (algo == Ecc ==> NBits(m) < 16384 && !m.user1);
    assert NBits(m) <= 16384 && (m.Opaque? ==> Contents(m) == m.data && NBits(m) == m.nbits);
    hide *;
    EncodedParts(m, tail);
    ContentsLength(m);
    SmallHeader(NBits(m));
    ScanIs(algo, Encoded(m) + tail, NBits(m), Contents(m));
    if m.Number? {
      OctetsValue(m.n);
    }
  }

  lemma ScannedIsBounded(algo: Algo, buf: bytes)
    ensures Scan(algo, buf).Some? ==>
              && (algo == Ecc ==> Scan(algo, buf).value.mpi.Opaque? && Scan(algo, buf).value.mpi.nbits < 16384
                                  && !Scan(algo, buf).value.mpi.user1)
              && (algo != Ecc ==> Scan(algo, buf).value.mpi.Number? && |Octets(Scan(algo, buf).value.mpi.n)| <= 2048)
  {
    if Scan(algo, buf).Some? && algo != Ecc {
      OctetsAreShortest(buf[2..BytesFor(Unsigned16(buf)) + 2]);
      hide Value, Octets;
    }
  }

  /** A parameter that does not fit is never read back as it was, whatever the buffer. */
  lemma ScanDoesNotFit(algo: Algo, m: Mpi, buf: bytes)
    requires WellFormed(m) && !Fits(algo, m)
    ensures Scan(algo, buf) == None || Scan(algo, buf).value.mpi != m
  {
    ContentsLength(m);
    hide Scan, Octets;
    ScannedIsBounded(algo, buf);
  }

  /**
   What can be read from any buffer: a header that announces no more than the limit and all the octets
   it announces.  Without the last octet nothing is read.
   */
  lemma ScanReads(algo: Algo, nbits: nat, data: bytes)
    requires nbits < 65536
    ensures var r := Scan(algo, [Octet(nbits / 256), Octet(nbits)] + data);
            var limit := if algo == Ecc then 16383 else 16384;
            && (r.Some? <==> nbits <= limit && |data| >= (nbits + 7) / 8)
            && (r.Some? ==>
                  var octets := data[..(nbits + 7) / 8];
                  r.value == Scanned(if algo == Ecc then Opaque(octets, nbits, false) else Number(Value(octets)), 2 + |octets|))
    ensures Scan(algo, []) == None && forall c: byte :: Scan(algo, [c]) == None
  {
    HeaderValue(nbits);
    var buf := Header(nbits) + data;
    assert buf[..2] == Header(nbits) && Unsigned16(buf) == nbits;
    hide Unsigned16, Value, Header;
    if nbits <= 16384 && |data| >= BytesFor(nbits) {
      assert buf[2..BytesFor(nbits) + 2] == data[..BytesFor(nbits)];
    }
  }

  /**
   Reading an elliptic curve value is the inverse of writing one: a value is read from a buffer if and
   only if the buffer starts with its external form and it fits.
   */
  lemma ScanIsInverse(m: Mpi, n: nat, buf: bytes)
    requires WellFormed(m)
    ensures Scan(Ecc, buf) == Some(Scanned(m, n)) <==> Fits(Ecc, m) && n == |Encoded(m)| <= |buf| && buf[..n] == Encoded(m)
  {
    if Scan(Ecc, buf) == Some(Scanned(m, n)) {
      HeaderOfWord(buf);
      assert buf[..n] == buf[..2] + buf[2..n];
    }
    if Fits(Ecc, m) && n == |Encoded(m)| <= |buf| && buf[..n] == Encoded(m) {
      assert buf == Encoded(m) + buf[n..];
      hide Scan, Encoded;
      ScanFits(Ecc, m, buf[n..]);
    }
  }

  lemma HeaderOfWord(b: bytes)
    requires |b| >= 2
    ensures Header(Unsigned16(b)) == b[..2]
  {
    var high, low := b[0] as int, b[1] as int;
    assert (high * 256 + low) / 256 == high && (high * 256 + low) % 256 == low;
  }

  lemma EncodedAllFirst(ms: seq<Mpi>, tail: bytes)
    requires ms != []
    ensures EncodedAll(ms) + tail == Encoded(ms[0]) + (EncodedAll(ms[1..]) + tail)
  {
    hide Encoded;
    ConcatAssociative(Encoded(ms[0]), EncodedAll(ms[1..]), tail);
  }

  /** Parameters that fit are read back one after the other, and what follows them is left. */
  lemma {:induction false} ScanAllFit(algo: Algo, ms: seq<Mpi>, tail: bytes)
    requires forall i :: 0 <= i < |ms| ==> WellFormed(ms[i]) && Fits(algo, ms[i])
    ensures ScanUpTo(algo, EncodedAll(ms) + tail, |ms|) == ms
    ensures Unread(algo, EncodedAll(ms) + tail, |ms|) == tail
    decreases ms
  {
    hide *;
    var buf := EncodedAll(ms) + tail;
    if ms == [] {
      ScanNone(algo, buf, ms);
      assert buf == tail;
    } else {
      var rest := EncodedAll(ms[1..]) + tail;
      EncodedAllFirst(ms, tail);
      ScanAllFit(algo, ms[1..], tail);
      ScanFits(algo, ms[0], rest);
      EncodedParts(ms[0], rest);
      ScanUpToFirst(algo, buf, |ms|);
      assert ms == [ms[0]] + ms[1..];
    }
  }

  lemma ScanUpToFirst(algo: Algo, buf: bytes, k: nat)
    requires k > 0
    ensures ScanUpTo(algo, buf, k) ==
            if Scan(algo, buf) == None then []
            else [Scan(algo, buf).value.mpi] + ScanUpTo(algo, buf[Scan(algo, buf).value.nbytes..], k - 1)
    ensures Scan(algo, buf).Some? ==> Unread(algo, buf, k) == Unread(algo, buf[Scan(algo, buf).value.nbytes..], k - 1)
  {
    hide Scan;
  }

  ghost predicate AllFit(algo: Algo, ms: seq<Mpi>) {
    forall i :: 0 <= i < |ms| ==> Fits(algo, ms[i])
  }

  lemma AllFitParts(algo: Algo, ms: seq<Mpi>)
    requires ms != []
    ensures AllFit(algo, ms) <==> Fits(algo, ms[0]) && AllFit(algo, ms[1..])
  {
    hide Fits;
    assert forall i :: 0 < i < |ms| ==> ms[i] == ms[1..][i - 1];
  }

  /** A list of parameters is read back as it was if and only if every one of them fits. */
  lemma {:induction false} ScanAllIff(algo: Algo, ms: seq<Mpi>, tail: bytes)
    requires forall i :: 0 <= i < |ms| ==> WellFormed(ms[i])
    ensures ScanUpTo(algo, EncodedAll(ms) + tail, |ms|) == ms <==> AllFit(algo, ms)
    decreases ms
  {
    hide *;
    var buf := EncodedAll(ms) + tail;
    if ms == [] {
      ScanNone(algo, buf, ms);
    } else {
      var rest := EncodedAll(ms[1..]) + tail;
      EncodedAllFirst(ms, tail);
      ScanAllIff(algo, ms[1..], tail);
      AllFitParts(algo, ms);
      if Fits(algo, ms[0]) {
        ScanPastFirst(algo, ms, buf, rest);
      } else {
        ScanDoesNotFit(algo, ms[0], buf);
        ScanUpToFirst(algo, buf, |ms|);
      }
    }
  }

  lemma ScanNone(algo: Algo, buf: bytes, ms: seq<Mpi>)
    requires ms == []
    ensures ScanUpTo(algo, buf, 0) == [] && Unread(algo, buf, 0) == buf && AllFit(algo, ms) && EncodedAll(ms) == []
  {
  }

  lemma ScanPastFirst(algo: Algo, ms: seq<Mpi>, buf: bytes, rest: bytes)
    requires ms != [] && WellFormed(ms[0]) && Fits(algo, ms[0]) && buf == Encoded(ms[0]) + rest
    ensures ScanUpTo(algo, buf, |ms|) == ms <==> ScanUpTo(algo, rest, |ms| - 1) == ms[1..]
  {
    hide *;
    ScanFits(algo, ms[0], rest);
    EncodedParts(ms[0], rest);
    ScanUpToFirst(algo, buf, |ms|);
    assert ms == [ms[0]] + ms[1..];
    if ScanUpTo(algo, buf, |ms|) == ms {
      Tail(ms[0], ScanUpTo(algo, rest, |ms| - 1), ms[1..]);
    }
  }

  lemma Tail(m: Mpi, t: seq<Mpi>, u: seq<Mpi>)
    requires [m] + t == [m] + u
    ensures t == u
  {
    assert ([m] + t)[1..] == t && ([m] + u)[1..] == u;
  }
}
