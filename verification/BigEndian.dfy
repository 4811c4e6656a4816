/** Numbers as octets, most significant first, without sign and in two's complement. */
module BigEndian {
  import opened Bytes

  function Octet(n: nat): byte {
    (n % 256) as char
  }

  function Value(b: bytes): nat {
    if b == [] then 0 else Value(b[..|b| - 1]) * 256 + b[|b| - 1] as int
  }

  /** Without leading zeros; zero has no octets. */
  function Octets(n: nat): (b: bytes)
    ensures b != [] ==> b[0] != NUL
    ensures n > 0 ==> b != []
  {
    if n == 0 then [] else Octets(n / 256) + [Octet(n)]
  }

  lemma {:induction false} OctetsValue(n: nat)
    ensures Value(Octets(n)) == n
  {
    if n > 0 {
      OctetsValue(n / 256);
      var b := Octets(n);
      assert b[..|b| - 1] == Octets(n / 256);
    }
  }

  /** No form of a number is shorter than the one without leading zeros. */
  lemma {:induction false} OctetsAreShortest(b: bytes)
    ensures |Octets(Value(b))| <= |b|
  {
    if b != [] {
      var high, low := Value(b[..|b| - 1]), b[|b| - 1] as int;
      OctetsAreShortest(b[..|b| - 1]);
      assert (high * 256 + low) / 256 == high;
    }
  }

  // ----- Two's complement -----

  function Pow256(k: nat): nat {
    if k == 0 then 1 else 256 * Pow256(k - 1)
  }

  function Complement(b: bytes): (r: bytes)
    ensures |r| == |b|
    ensures b != [] ==> r[0] as int == 255 - b[0] as int
  {
    seq(|b|, i requires 0 <= i < |b| => (255 - b[i] as int) as char)
  }

  lemma {:induction false} ComplementValue(b: bytes)
    ensures Value(Complement(b)) + Value(b) == Pow256(|b|) - 1
  {
    if b != [] {
      ComplementValue(b[..|b| - 1]);
      assert Complement(b)[..|b| - 1] == Complement(b[..|b| - 1]);
    }
  }

  /** A zero in front keeps the highest bit from being read as a sign. */
  function Positive(n: nat): (b: bytes)
    ensures b != [] ==> b[0] as int < 128
  {
    var b := Octets(n);
    if b != [] && b[0] as int >= 128 then [NUL] + b else b
  }

  function Signed(n: int): bytes {
    if n >= 0 then Positive(n)
    else Complement(if n == -1 then [NUL] else Positive(-n - 1))
  }

  function SignedValue(b: bytes): int {
    if b != [] && b[0] as int >= 128 then Value(b) - Pow256(|b|) else Value(b)
  }

  lemma {:induction false} LeadingZero(b: bytes)
    ensures Value([NUL] + b) == Value(b)
  {
    var c := [NUL] + b;
    if b != [] {
      LeadingZero(b[..|b| - 1]);
      assert c[..|c| - 1] == [NUL] + b[..|b| - 1];
    } else {
      assert c[..0] == [];
    }
  }

  lemma PositiveValue(n: nat)
    ensures Value(Positive(n)) == n
  {
    OctetsValue(n);
    LeadingZero(Octets(n));
    hide Value, Octets;
  }

  /** The complement of a positive number is read as a negative one. */
  lemma ComplementIsNegative(b: bytes)
    requires b != [] && b[0] as int < 128
    ensures SignedValue(Complement(b)) == -1 - Value(b)
  {
    hide Value, Complement, Pow256;
    ComplementValue(b);
  }

  lemma OneZero()
    ensures Value([NUL]) == 0
  {
    assert [NUL][..0] == [];
  }

  lemma PositiveIsNotEmpty(n: nat)
    requires n > 0
    ensures Positive(n) != []
  {
  }

  lemma SignedRoundTrip(n: int)
    ensures SignedValue(Signed(n)) == n
  {
    hide Value, Positive, Octets, Complement, Pow256;
    if n >= 0 {
      PositiveValue(n);
    } else if n == -1 {
      OneZero();
      ComplementIsNegative([NUL]);
    } else {
      PositiveValue(-n - 1);
      PositiveIsNotEmpty(-n - 1);
      ComplementIsNegative(Positive(-n - 1));
    }
  }
}
