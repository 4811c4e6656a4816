/**
 The data types of the SSH protocol (section 5 of RFC 4251) as functions on octets, and the stream
 on which they are read and written.
 */
module SshWire {
  import opened Wrappers
  import opened Bytes
  import opened BigEndian

  datatype Code = Eof | TooLarge | NotFound | UnknownCurve | BadSeckey | Certificate

  /** What reading a value comes to. */
  datatype Parse<T> = Ok(value: T, rest: bytes) | Bad(code: Code)

  const WORD := 0x1_0000_0000

  /** The largest parameter of a key that is read. */
  const MAX_PARAM := 520

  // ----- Writing -----

  function Uint32(n: nat): (b: bytes)
    ensures |b| == 4
  {
    [Octet(n / 0x100_0000), Octet(n / 0x1_0000), Octet(n / 0x100), Octet(n)]
  }

  /** The length is a 32 bit number, and so many octets are written. */
  function WireString(s: bytes): bytes {
    Uint32(|s|) + s[..|s| % WORD]
  }

  function WireMpi(n: int): bytes {
    WireString(Signed(n))
  }

  // ----- Reading -----

  function Word(b: bytes): nat
    requires |b| >= 4
  {
    ((b[0] as int * 256 + b[1] as int) * 256 + b[2] as int) * 256 + b[3] as int
  }

  function ReadUint32(s: bytes): Parse<nat> {
    if |s| < 4 then Bad(Eof) else Ok(Word(s), s[4..])
  }

  function ReadData(s: bytes, n: nat): Parse<bytes> {
    if |s| < n then Bad(Eof) else Ok(s[..n], s[n..])
  }

  function ReadString(s: bytes): Parse<bytes> {
    match ReadUint32(s)
    case Bad(code) => Bad(code)
    case Ok(n, rest) => ReadData(rest, n)
  }

  /** The prefix 0x40 marks the octets as an EdDSA key. */
  function ReadBlob(s: bytes): Parse<bytes> {
    match ReadUint32(s)
    case Bad(code) => Bad(code)
    case Ok(n, rest) =>
      if n > MAX_PARAM then Bad(TooLarge)
      else
        match ReadData(rest, n)
        case Bad(code) => Bad(code)
        case Ok(data, after) => Ok(['@'] + data, after)
  }

  function ReadMpi(s: bytes): Parse<int> {
    match ReadString(s)
    case Bad(code) => Bad(code)
    case Ok(data, rest) => if |data| > MAX_PARAM then Bad(TooLarge) else Ok(SignedValue(data), rest)
  }

  // ----- Reading what was written -----

  lemma WordOfUint32(n: nat)
    ensures Word(Uint32(n)) == n % WORD
  {
    var a, b, c := n / 0x100, n / 0x1_0000, n / 0x100_0000;
    assert a / 0x100 == b && b / 0x100 == c;
    assert n == a * 256 + n % 256 && a == b * 256 + a % 256 && b == c * 256 + b % 256;
    var top, low := c / 256, c % 256;
    assert n == WORD * top + (((low * 256 + b % 256) * 256 + a % 256) * 256 + n % 256);
    LowWord(top, ((low * 256 + b % 256) * 256 + a % 256) * 256 + n % 256);
  }

  lemma LowWord(q: nat, r: nat)
    requires r < WORD
    ensures (WORD * q + r) % WORD == r
  {
  }

  lemma ReadWrittenLength(n: nat, tail: bytes)
    ensures ReadUint32(Uint32(n) + tail) == Ok(n % WORD, tail)
  {
    WordOfUint32(n);
    var s := Uint32(n) + tail;
    hide Uint32;
    assert s[4..] == tail && s[..4] == Uint32(n);
    assert Word(s) == Word(Uint32(n));
  }

  lemma ReadWrittenString(s: bytes, tail: bytes)
    requires |s| < WORD
    ensures ReadString(WireString(s) + tail) == Ok(s, tail)
  {
    assert s[..|s| % WORD] == s;
    hide ReadUint32, Uint32;
    assert WireString(s) + tail == Uint32(|s|) + (s + tail) by { ConcatAssociative(Uint32(|s|), s, tail); }
    ReadWrittenLength(|s|, s + tail);
    assert (s + tail)[..|s|] == s && (s + tail)[|s|..] == tail;
  }

  /** A number is read back if and only if its octets are not too many; otherwise it is refused. */
  lemma ReadWrittenMpi(n: int, tail: bytes)
    requires |Signed(n)| < WORD
    ensures ReadMpi(WireMpi(n) + tail) == if |Signed(n)| <= 520 then Ok(n, tail) else Bad(TooLarge)
  {
    hide Signed, SignedValue, ReadString, WireString;
    ReadWrittenString(Signed(n), tail);
    SignedRoundTrip(n);
  }

  lemma ReadWrittenBlob(s: bytes, tail: bytes)
    requires |s| < WORD
    ensures ReadBlob(WireString(s) + tail) == if |s| <= 520 then Ok(['@'] + s, tail) else Bad(TooLarge)
  {
    assert s[..|s| % WORD] == s;
    hide ReadUint32, Uint32;
    assert WireString(s) + tail == Uint32(|s|) + (s + tail) by { ConcatAssociative(Uint32(|s|), s, tail); }
    ReadWrittenLength(|s|, s + tail);
    assert (s + tail)[..|s|] == s && (s + tail)[|s|..] == tail;
  }

  // ----- The stream -----

  datatype Result<T> = Success(value: T) | Failure(code: Code)

  /** What a reading procedure returned, with what it left in the stream. */
  function Outcome<T>(r: Result<T>, rest: bytes): Parse<T> {
    match r
    case Success(v) => Ok(v, rest)
    case Failure(code) => Bad(code)
  }

  class Stream {
    var data: bytes
    var pos: nat

    constructor (contents: bytes)
      ensures Valid() && data == contents && pos == 0 && Rest() == contents
    {
      data, pos := contents, 0;
    }

    ghost predicate Valid()
      reads this
    {
      pos <= |data|
    }

    ghost function Rest(): bytes
      reads this
      requires Valid()
    {
      data[pos..]
    }

    method GetUint32() returns (r: Result<nat>)
      requires Valid()
      modifies this`pos
      ensures Valid() && Outcome(r, Rest()) == ReadUint32(old(Rest()))
    {
      hide Word;
      var d := GetData(4);
      if d.Failure? {
        return Failure(d.code);
      }
      assert old(Rest())[..4] == d.value;
      WordOfPrefix(old(Rest()));
      return Success(Word(d.value));
    }

    method GetData(n: nat) returns (r: Result<bytes>)
      requires Valid()
      modifies this`pos
      ensures Valid() && Outcome(r, Rest()) == ReadData(old(Rest()), n)
      ensures r.Success? ==> |r.value| == n && n <= |old(Rest())|
    {
      if pos + n > |data| {
        pos := |data|;
        return Failure(Eof);
      }
      var got := data[pos..pos + n];
      assert got == Rest()[..n] && Rest()[n..] == data[pos + n..];
      pos := pos + n;
      return Success(got);
    }

    /** Skips in chunks of at most 128 octets. */
    method Skip(size: nat) returns (r: Result<nat>)
      requires Valid()
      modifies this`pos
      ensures Valid() && r.Success? == (size <= |old(Rest())|)
      ensures r.Success? ==> Rest() == old(Rest())[size..]
    {
      var left := size;
      while left > 0
        invariant Valid() && 0 <= left <= size && pos == old(pos) + (size - left)
        decreases left
      {
        var chunk := if left > 128 then 128 else left;
        if pos + chunk > |data| {
          return Failure(Eof);
        }
        pos, left := pos + chunk, left - chunk;
      }
      assert old(Rest())[size..] == data[pos..];
      return Success(size);
    }

    method GetString() returns (r: Result<bytes>)
      requires Valid()
      modifies this`pos
      ensures Valid() && Outcome(r, Rest()) == ReadString(old(Rest()))
    {
      hide ReadUint32, ReadData;
      var n := GetUint32();
      if n.Failure? {
        return Failure(n.code);
      }
      r := GetData(n.value);
    }

    method GetBlob() returns (r: Result<bytes>)
      requires Valid()
      modifies this`pos
      ensures Valid() && Outcome(r, Rest()) == ReadBlob(old(Rest()))
    {
      hide ReadUint32, ReadData;
      var n := GetUint32();
      if n.Failure? {
        return Failure(n.code);
      }
      if n.value > MAX_PARAM {
        return Failure(TooLarge);
      }
      r := GetData(n.value);
      if r.Success? {
        r := Success(['@'] + r.value);
      }
    }

    method GetMpi() returns (r: Result<int>)
      requires Valid()
      modifies this`pos
      ensures Valid() && Outcome(r, Rest()) == ReadMpi(old(Rest()))
    {
      hide ReadString, SignedValue;
      var s := GetString();
      if s.Failure? {
        return Failure(s.code);
      }
      if |s.value| > MAX_PARAM {
        return Failure(TooLarge);
      }
      return Success(SignedValue(s.value));
    }

    method PutUint32(n: nat)
      modifies this`data
      ensures data == old(data) + Uint32(n)
    {
      data := data + [Octet(n / 0x100_0000), Octet(n / 0x1_0000), Octet(n / 0x100), Octet(n)];
    }

    method PutString(s: bytes)
      modifies this`data
      ensures data == old(data) + WireString(s)
    {
      hide Uint32;
      var n := |s| % WORD;
      ConcatAssociative(data, Uint32(|s|), s[..n]);
      PutUint32(|s|);
      data := data + s[..n];
    }

    method PutMpi(n: int)
      modifies this`data
      ensures data == old(data) + WireMpi(n)
    {
      hide WireString;
      PutString(Signed(n));
    }
  }

  lemma WordOfPrefix(s: bytes)
    requires |s| >= 4
    ensures Word(s[..4]) == Word(s)
  {
  }
}
