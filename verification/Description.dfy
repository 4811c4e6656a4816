/**
 Expansion of a key description: a first pass over the format string computes the length of the
 result, a second one over the same string writes it.  Both passes may have to compute the
 fingerprint of the key, and each such computation can fail.
 */
module Description {
  import opened Wrappers
  import opened Bytes
  import opened Buffers

  /** The fingerprint once it is known, and what the computations still to come will give. */
  datatype Fpr = Fpr(cache: Option<bytes>, attempts: seq<Option<bytes>>)

  function Fetch(f: Fpr): Fpr {
    if f.cache.Some? || f.attempts == [] then f else Fpr(f.attempts[0], f.attempts[1..])
  }

  function Known(f: Fpr): bytes {
    if f.cache.Some? then f.cache.value else []
  }

  /** What `%` followed by `c` stands for. */
  function Replacement(c: byte, comment: bytes, fpr: bytes): bytes {
    if c == '%' then "%"
    else if c == 'c' then comment
    else if c == 'C' then if comment == [] then [] else "(" + comment + ")"
    else if c == 'F' then fpr
    else ['%', c]
  }

  // ----- What the format string means -----

  /** The expansion, two characters at a time; a lone `%` at the end stands for nothing. */
  function Expand(format: bytes, comment: bytes, fpr: bytes): bytes {
    if format == [] then []
    else if format[0] != '%' then [format[0]] + Expand(format[1..], comment, fpr)
    else if |format| == 1 then []
    else Replacement(format[1], comment, fpr) + Expand(format[2..], comment, fpr)
  }

  predicate Blank(c: byte) {
    c == ' ' || c == '\t'
  }

  /** The first character is kept even if it is a blank. */
  function WithoutBlanks(s: bytes): bytes {
    if |s| > 1 && Blank(s[|s| - 1]) then WithoutBlanks(s[..|s| - 1]) else s
  }

  predicate EndsInParentheses(s: bytes) {
    |s| > 2 && s[|s| - 2..] == "()"
  }

  function Trimmed(s: bytes): bytes {
    if EndsInParentheses(s) then WithoutBlanks(s[..|s| - 2]) else s
  }

  /** Trimming takes away exactly the parentheses and all the blanks in front of them. */
  lemma {:induction false} WithoutBlanksIs(s: bytes)
    requires s != []
    ensures WithoutBlanks(s) != [] && WithoutBlanks(s) <= s
    ensures forall i :: |WithoutBlanks(s)| <= i < |s| ==> Blank(s[i])
    ensures |WithoutBlanks(s)| == 1 || !Blank(s[|WithoutBlanks(s)| - 1])
  {
    if |s| > 1 && Blank(s[|s| - 1]) {
      WithoutBlanksIs(s[..|s| - 1]);
    }
  }

  /** What each sequence stands for. */
  lemma SequencesAre(rest: bytes, comment: bytes, fpr: bytes)
    ensures Expand("%%" + rest, comment, fpr) == "%" + Expand(rest, comment, fpr)
    ensures Expand("%c" + rest, comment, fpr) == comment + Expand(rest, comment, fpr)
    ensures comment != [] ==> Expand("%C" + rest, comment, fpr) == "(" + comment + ")" + Expand(rest, comment, fpr)
    ensures Expand("%C" + rest, [], fpr) == [] + Expand(rest, [], fpr)
    ensures Expand("%F" + rest, comment, fpr) == fpr + Expand(rest, comment, fpr)
  {
    assert ("%%" + rest)[2..] == rest && ("%c" + rest)[2..] == rest;
    assert ("%C" + rest)[2..] == rest && ("%F" + rest)[2..] == rest;
  }

  /** Any other sequence is kept, any other character stands for itself, and a last `%` for nothing. */
  lemma OthersAreKept(c: byte, rest: bytes, comment: bytes, fpr: bytes)
    ensures c !in {'%', 'c', 'C', 'F'} ==> Expand(['%', c] + rest, comment, fpr) == ['%', c] + Expand(rest, comment, fpr)
    ensures c != '%' ==> Expand([c] + rest, comment, fpr) == [c] + Expand(rest, comment, fpr)
    ensures Expand("%", comment, fpr) == [] && Expand([], comment, fpr) == []
  {
    assert (['%', c] + rest)[2..] == rest && ([c] + rest)[1..] == rest;
  }

  /** A final "()" goes with the blanks in front of it; a text that ends otherwise stays. */
  lemma {:induction false} TrimmedIs(s: bytes, blanks: bytes)
    requires s != [] && s[|s| - 1] != ' ' && s[|s| - 1] != '\t'
    requires forall i :: 0 <= i < |blanks| ==> blanks[i] == ' ' || blanks[i] == '\t'
    ensures Trimmed(s + blanks + "()") == s
  {
    var t: bytes := s + blanks + "()";
    assert t[|t| - 2..] == "()" && t[..|t| - 2] == s + blanks;
    BlanksGo(s, blanks);
  }

  lemma {:induction false} BlanksGo(s: bytes, blanks: bytes)
    requires s != [] && !Blank(s[|s| - 1])
    requires forall i :: 0 <= i < |blanks| ==> Blank(blanks[i])
    ensures WithoutBlanks(s + blanks) == s
    decreases blanks
  {
    if blanks == [] {
      assert s + blanks == s;
    } else {
      assert (s + blanks)[..|s + blanks| - 1] == s + blanks[..|blanks| - 1];
      BlanksGo(s, blanks[..|blanks| - 1]);
    }
  }

  lemma OtherTextsStay(s: bytes)
    requires |s| <= 2 || s[|s| - 2..] != "()"
    ensures Trimmed(s) == s
  {
  }

  // ----- One pass over the format string -----

  function FetchIf(c: byte, f: Fpr): Fpr {
    if c == 'F' then Fetch(f) else f
  }

  /** What is written for the characters still to be read; `special` says that the last one was `%`. */
  function Written(rest: bytes, special: bool, comment: bytes, f: Fpr): bytes {
    if rest == [] then []
    else if special then
      Replacement(rest[0], comment, Known(FetchIf(rest[0], f))) + Written(rest[1..], false, comment, FetchIf(rest[0], f))
    else if rest[0] == '%' then Written(rest[1..], true, comment, f)
    else [rest[0]] + Written(rest[1..], false, comment, f)
  }

  function FprAfter(rest: bytes, special: bool, f: Fpr): Fpr {
    if rest == [] then f
    else if special then FprAfter(rest[1..], false, FetchIf(rest[0], f))
    else FprAfter(rest[1..], rest[0] == '%', f)
  }

  /** A pass that knows the fingerprint, or cannot get one, writes the expansion. */
  lemma {:induction false} WrittenIsExpansion(format: bytes, comment: bytes, f: Fpr)
    requires f.cache.Some? || f.attempts == []
    ensures Written(format, false, comment, f) == Expand(format, comment, Known(f))
    decreases |format|
  {
    if format != [] {
      if format[0] != '%' {
        WrittenIsExpansion(format[1..], comment, f);
      } else if |format| > 1 {
        assert format[1..][1..] == format[2..];
        WrittenIsExpansion(format[2..], comment, f);
      }
    }
  }

  // ----- Do the two passes agree? -----

  /** How often the fingerprint occurs. */
  function Uses(rest: bytes, special: bool): nat {
    if rest == [] then 0
    else if special then (if rest[0] == 'F' then 1 else 0) + Uses(rest[1..], false)
    else Uses(rest[1..], rest[0] == '%')
  }

  /** The number of failed attempts in front of the first one that succeeds. */
  function Failures(attempts: seq<Option<bytes>>): (j: nat)
    ensures j <= |attempts|
    ensures j < |attempts| ==> attempts[j].Some?
  {
    if attempts == [] || attempts[0].Some? then 0 else 1 + Failures(attempts[1..])
  }

  function FirstResult(attempts: seq<Option<bytes>>): bytes {
    var j := Failures(attempts);
    if j < |attempts| then attempts[j].value else []
  }

  const NO_KEY := Fpr(None, [])

  lemma {:induction false} LengthWhenKnown(rest: bytes, special: bool, comment: bytes, f: Fpr)
    requires f.cache.Some?
    ensures |Written(rest, special, comment, f)| ==
            |Written(rest, special, comment, NO_KEY)| + Uses(rest, special) * |f.cache.value|
    ensures FprAfter(rest, special, f) == f
    decreases rest
  {
    if rest != [] {
      LengthWhenKnown(rest[1..], !special && rest[0] == '%', comment, f);
      if special && rest[0] == 'F' {
        OneMore(Uses(rest[1..], false), |f.cache.value|);
      }
    }
  }

  lemma OneMore(n: nat, len: nat)
    ensures (1 + n) * len == len + n * len
  {
  }

  /** Occurrences that `%F` fills in when it starts without a fingerprint. */
  function Filled(n: nat, attempts: seq<Option<bytes>>): nat {
    if n > Failures(attempts) then n - Failures(attempts) else 0
  }

  lemma {:induction false} LengthWhenUnknown(rest: bytes, special: bool, comment: bytes, f: Fpr)
    requires f.cache == None
    ensures |Written(rest, special, comment, f)| ==
            |Written(rest, special, comment, NO_KEY)| + Filled(Uses(rest, special), f.attempts) * |FirstResult(f.attempts)|
    ensures Uses(rest, special) <= Failures(f.attempts) ==>
              FprAfter(rest, special, f) == Fpr(None, f.attempts[Uses(rest, special)..])
    ensures Failures(f.attempts) < Uses(rest, special) && Failures(f.attempts) < |f.attempts| ==>
              FprAfter(rest, special, f).cache == Some(FirstResult(f.attempts))
    ensures Failures(f.attempts) == |f.attempts| ==>
              FprAfter(rest, special, f).cache == None && FirstResult(FprAfter(rest, special, f).attempts) == []
    decreases rest
  {
    if rest != [] {
      var more := !special && rest[0] == '%';
      if !(special && rest[0] == 'F') || f.attempts == [] {
        LengthWhenUnknown(rest[1..], more, comment, f);
      } else if f.attempts[0].Some? {
        LengthWhenKnown(rest[1..], false, comment, Fetch(f));
        OneMore(Uses(rest[1..], false), |f.attempts[0].value|);
      } else {
        LengthWhenUnknown(rest[1..], false, comment, Fetch(f));
      }
    }
  }

  /**
   The fingerprint is not used, or the first attempt to compute it succeeds, or none of those that
   the two passes make does, or it is empty.
   */
  predicate Steady(format: bytes, attempts: seq<Option<bytes>>) {
    var n := Uses(format, false);
    n == 0 || Failures(attempts) == 0 || Failures(attempts) >= 2 * n || FirstResult(attempts) == []
  }

  lemma {:induction false} FailuresLeft(attempts: seq<Option<bytes>>, n: nat)
    requires n <= Failures(attempts)
    ensures Failures(attempts[n..]) == Failures(attempts) - n && FirstResult(attempts[n..]) == FirstResult(attempts)
    decreases n
  {
    if n == 0 {
      assert attempts[0..] == attempts;
    } else {
      FailuresLeft(attempts[1..], n - 1);
      assert attempts[1..][n - 1..] == attempts[n..];
    }
  }

  /** Filling in `n - j` of `n` occurrences takes as much room as filling in all or none of them. */
  lemma SameRoom(n: nat, j: nat, len: nat)
    requires j < n
    ensures (n - j) * len == n * len <==> j == 0 || len == 0
    ensures (n - j) * len == 0 <==> len == 0
  {
    assert n * len == (n - j) * len + j * len;
    if len > 0 {
      assert (n - j) * len > 0;
      assert j > 0 ==> j * len > 0;
    }
  }

  ghost predicate PassesAgree(format: bytes, comment: bytes, f: Fpr) {
    |Written(format, false, comment, f)| == |Written(format, false, comment, FprAfter(format, false, f))|
  }

  /** The first pass does not get hold of the fingerprint. */
  lemma AgreeAfterFailures(format: bytes, comment: bytes, attempts: seq<Option<bytes>>)
    requires Uses(format, false) <= Failures(attempts)
    ensures PassesAgree(format, comment, Fpr(None, attempts)) <==> Steady(format, attempts)
  {
    hide Written, FprAfter, Uses, Failures, FirstResult;
    var f, n, j := Fpr(None, attempts), Uses(format, false), Failures(attempts);
    LengthWhenUnknown(format, false, comment, f);
    FailuresLeft(attempts, n);
    LengthWhenUnknown(format, false, comment, FprAfter(format, false, f));
    if n > j - n {
      SameRoom(n, j - n, |FirstResult(attempts)|);
    }
  }

  /** The first pass gets hold of the fingerprint on the way. */
  lemma AgreeAfterSuccess(format: bytes, comment: bytes, attempts: seq<Option<bytes>>)
    requires Failures(attempts) < Uses(format, false)
    ensures PassesAgree(format, comment, Fpr(None, attempts)) <==> Steady(format, attempts)
  {
    var f, n, j := Fpr(None, attempts), Uses(format, false), Failures(attempts);
    assert j == |attempts| ==> FirstResult(attempts) == [];
    hide Written, FprAfter, Uses, Failures, FirstResult;
    LengthWhenUnknown(format, false, comment, f);
    SameRoom(n, j, |FirstResult(attempts)|);
    if j < |attempts| {
      LengthWhenKnown(format, false, comment, FprAfter(format, false, f));
    } else {
      LengthWhenUnknown(format, false, comment, FprAfter(format, false, f));
    }
  }

  /**
   The first pass computes the length that the second one writes if and only if the attempts to get
   the fingerprint are steady.
   */
  lemma PassesAgreeIff(format: bytes, comment: bytes, attempts: seq<Option<bytes>>)
    ensures PassesAgree(format, comment, Fpr(None, attempts)) <==> Steady(format, attempts)
  {
    hide PassesAgree, Steady;
    if Uses(format, false) <= Failures(attempts) {
      AgreeAfterFailures(format, comment, attempts);
    } else {
      AgreeAfterSuccess(format, comment, attempts);
    }
  }

  /** What a caller gets for `%F`. */
  function Fingerprint(attempts: seq<Option<bytes>>): bytes {
    if attempts != [] && attempts[0].Some? then attempts[0].value else []
  }

  lemma {:induction false} OnlyUsesMatter(format: bytes, comment: bytes, fpr: bytes, other: bytes)
    requires Uses(format, false) == 0 || fpr == other
    ensures Expand(format, comment, fpr) == Expand(format, comment, other)
    decreases |format|
  {
    if format != [] {
      if format[0] != '%' {
        OnlyUsesMatter(format[1..], comment, fpr, other);
      } else if |format| > 1 {
        assert format[1..][1..] == format[2..];
        OnlyUsesMatter(format[2..], comment, fpr, other);
      }
    }
  }

  lemma {:induction false} UnknownWrites(rest: bytes, special: bool, comment: bytes, f: Fpr)
    requires f.cache == None && (Uses(rest, special) <= Failures(f.attempts) || FirstResult(f.attempts) == [])
    ensures Written(rest, special, comment, f) == Written(rest, special, comment, NO_KEY)
    decreases rest
  {
    if rest != [] {
      var more := !special && rest[0] == '%';
      if !(special && rest[0] == 'F') || f.attempts == [] {
        UnknownWrites(rest[1..], more, comment, f);
      } else if f.attempts[0].Some? {
        KnownEmptyWrites(rest[1..], false, comment, Fetch(f));
      } else {
        UnknownWrites(rest[1..], false, comment, Fetch(f));
      }
    }
  }

  lemma {:induction false} KnownEmptyWrites(rest: bytes, special: bool, comment: bytes, f: Fpr)
    requires f.cache == Some([])
    ensures Written(rest, special, comment, f) == Written(rest, special, comment, NO_KEY)
    decreases rest
  {
    if rest != [] {
      KnownEmptyWrites(rest[1..], !special && rest[0] == '%', comment, f);
    }
  }

  /** With steady attempts the second pass writes the expansion. */
  lemma SecondPassExpands(format: bytes, comment: bytes, attempts: seq<Option<bytes>>)
    requires Steady(format, attempts)
    ensures Written(format, false, comment, FprAfter(format, false, Fpr(None, attempts)))
            == Expand(format, comment, Fingerprint(attempts))
  {
    var f, n, j := Fpr(None, attempts), Uses(format, false), Failures(attempts);
    var g := FprAfter(format, false, f);
    assert j > 0 ==> Fingerprint(attempts) == [];
    assert j == 0 ==> Fingerprint(attempts) == FirstResult(attempts);
    assert j == |attempts| ==> FirstResult(attempts) == [];
    hide Written, FprAfter, Uses, Failures, FirstResult, Fingerprint, Expand;
    LengthWhenUnknown(format, false, comment, f);
    if n > j && j < |attempts| {
      WrittenIsExpansion(format, comment, g);
      OnlyUsesMatter(format, comment, Known(g), Fingerprint(attempts));
    } else {
      WrittenIsExpansion(format, comment, NO_KEY);
      OnlyUsesMatter(format, comment, [], Fingerprint(attempts));
      if n <= j {
        FailuresLeft(attempts, n);
      }
      UnknownWrites(format, false, comment, g);
    }
  }

  /** The second pass never writes less than the first one counted, so passes that differ overrun the buffer. */
  lemma SecondPassIsLonger(format: bytes, comment: bytes, attempts: seq<Option<bytes>>)
    ensures var f := Fpr(None, attempts);
            |Written(format, false, comment, f)| <= |Written(format, false, comment, FprAfter(format, false, f))|
  {
    var f, n, j := Fpr(None, attempts), Uses(format, false), Failures(attempts);
    var g := FprAfter(format, false, f);
    assert j == |attempts| ==> FirstResult(attempts) == [];
    hide Written, FprAfter, Uses, Failures, FirstResult;
    LengthWhenUnknown(format, false, comment, f);
    if n > j && j < |attempts| {
      LengthWhenKnown(format, false, comment, g);
      MoreRoom(n - j, n, |FirstResult(attempts)|);
    } else {
      LengthWhenUnknown(format, false, comment, g);
      MoreRoom(0, Filled(n, g.attempts), |FirstResult(g.attempts)|);
    }
  }

  lemma MoreRoom(m: nat, n: nat, len: nat)
    requires m <= n
    ensures m * len <= n * len
  {
  }

  /** A format that asks for nothing but the fingerprint. */
  lemma FingerprintOnly(comment: bytes, f: Fpr)
    ensures Written("%F", false, comment, f) == Known(Fetch(f)) && FprAfter("%F", false, f) == Fetch(f) && Uses("%F", false) == 1
  {
    var format: bytes := "%F";
    var rest: bytes := format[1..];
    assert rest == ['F'] && rest[1..] == [];
    assert Written(format, false, comment, f) == Written(rest, true, comment, f);
    assert Written(rest, true, comment, f) == Known(Fetch(f)) + Written([], false, comment, Fetch(f));
    assert Known(Fetch(f)) + [] == Known(Fetch(f));
    assert FprAfter(format, false, f) == FprAfter(rest, true, f) == FprAfter([], false, Fetch(f));
    assert Uses(format, false) == Uses(rest, true) == 1 + Uses([], false);
  }

  /** A fingerprint that fails at first: nothing is counted, and one octet is written. */
  lemma OverrunExample(comment: bytes)
    ensures var f := Fpr(None, [None, Some("x")]);
            && !Steady("%F", f.attempts)
            && Written("%F", false, comment, f) == []
            && Written("%F", false, comment, FprAfter("%F", false, f)) == "x"
  {
    hide Written, FprAfter, Uses;
    var attempts: seq<Option<bytes>> := [None, Some("x")];
    assert attempts[1..] == [Some("x")];
    assert Failures(attempts) == 1 && FirstResult(attempts) == "x";
    FingerprintOnly(comment, Fpr(None, attempts));
    FingerprintOnly(comment, Fpr(None, [Some("x")]));
  }

  // ----- The procedure -----

  /** Counts or writes, depending on the pass; a write that would leave the buffer is not carried out. */
  method Put(out: array?<byte>, n: nat, data: bytes, ghost end: nat) returns (n': nat)
    requires out != null && end <= out.Length ==> n + |data| <= end
    modifies if out == null then {} else {out}
    ensures n' == n + |data|
    ensures out != null && end <= out.Length ==> out[..n'] == old(out[..n]) + data && out[end..] == old(out[end..])
  {
    n' := n + |data|;
    if out != null && n' <= out.Length {
      ghost var b := out[..];
      Write(out, n, data);
      hide Splice;
      if end <= out.Length {
        SpliceParts(b, n, data, end);
        assert out[..n'] == out[..][..n'] && out[end..] == out[..][end..];
        assert b[..n] == old(out[..n]) && b[end..] == old(out[end..]);
      }
    }
  }

  method Pass(format: bytes, comment: bytes, f0: Fpr, out: array?<byte>) returns (n: nat, f: Fpr)
    modifies if out == null then {} else {out}
    ensures n == |Written(format, false, comment, f0)| && f == FprAfter(format, false, f0)
    ensures out != null && n <= out.Length ==> out[..n] == Written(format, false, comment, f0) && out[n..] == old(out[n..])
  {
    hide Replacement, FetchIf, Fetch, Known, Splice;
    n, f := 0, f0;
    var special := false;
    ghost var done: bytes := [];
    ghost var all := Written(format, false, comment, f0);
    for i := 0 to |format|
      invariant all == done + Written(format[i..], special, comment, f) && n == |done|
      invariant FprAfter(format, false, f0) == FprAfter(format[i..], special, f)
      invariant out != null && |all| <= out.Length ==> out[..n] == done && out[|all|..] == old(out[|all|..])
    {
      var c := format[i];
      assert format[i..][0] == c && format[i..][1..] == format[i + 1..];
      if special {
        special := false;
        f := FetchIf(c, f);
        var data := Replacement(c, comment, Known(f));
        ConcatAssociative(done, data, Written(format[i + 1..], false, comment, f));
        done := done + data;
        n := Put(out, n, data, |all|);
      } else if c == '%' {
        special := true;
      } else {
        ConcatAssociative(done, [c], Written(format[i + 1..], false, comment, f));
        done := done + [c];
        n := Put(out, n, [c], |all|);
      }
    }
    assert format[|format|..] == [];
  }

  lemma {:induction false} NoNul(format: bytes, comment: bytes, fpr: bytes)
    requires NUL !in format && NUL !in comment && NUL !in fpr
    ensures NUL !in Expand(format, comment, fpr)
    decreases |format|
  {
    if format != [] {
      if format[0] != '%' {
        NoNul(format[1..], comment, fpr);
      } else if |format| > 1 {
        assert format[1] in format;
        NoNul(format[2..], comment, fpr);
      }
    }
  }

  /** Overwrites the blanks in front of `end` with zeros, but not the first character. */
  method TrimBlanks(result: array<byte>, end: nat) returns (n: nat)
    requires 1 <= end < result.Length && result[end] == NUL
    modifies result
    ensures 1 <= n <= end && result[n] == NUL && result[..n] == old(result[..n])
    ensures result[..n] == WithoutBlanks(old(result[..end]))
  {
    ghost var s := result[..end];
    assert s[..end] == s;
    n := end;
    while n > 1 && Blank(result[n - 1])
      invariant 1 <= n <= end && result[n] == NUL && result[..n] == s[..n]
      invariant WithoutBlanks(s[..n]) == WithoutBlanks(s)
    {
      assert s[..n][..n - 1] == s[..n - 1];
      n := n - 1;
      result[n] := NUL;
    }
  }

  lemma TerminatedAt(b: bytes, n: nat)
    requires n < |b| && b[n] == NUL && NUL !in b[..n]
    ensures CString(b) == b[..n]
  {
    assert b == b[..n] + [NUL] + b[n + 1..];
    CStringOfTerminated(b[..n], b[n + 1..]);
  }

  /** The empty parentheses and the indentation in front of them are overwritten with zeros. */
  method Trim(result: array<byte>, len: nat)
    requires len < result.Length && result[len] == NUL && NUL !in result[..len]
    modifies result
    ensures CString(result[..]) == Trimmed(old(result[..len]))
  {
    hide CString, WithoutBlanks;
    ghost var s := result[..len];
    var n := len;
    if len > 2 && result[len - 2] == '(' && result[len - 1] == ')' {
      result[len - 2] := NUL;
      assert result[..len - 2] == s[..len - 2];
      n := TrimBlanks(result, len - 2);
      assert result[..n] == s[..n];
    }
    assert result[..][..n] == result[..n];
    assert forall i :: 0 <= i < n ==> s[i] in s;
    TerminatedAt(result[..], n);
  }

  /**
   The buffer is exactly as long as the first pass counted.  The second pass leaves it if and only if
   the attempts to get the fingerprint are not steady; otherwise the result is the expansion without
   a final "()".  The strings are C strings, and a missing comment is the empty one.
   */
  method ModifyDescription(format: bytes, comment: Option<bytes>, attempts: seq<Option<bytes>>)
    returns (result: array<byte>, overrun: bool)
    requires NUL !in format && NUL !in Fingerprint(attempts) && (comment.Some? ==> NUL !in comment.value)
    ensures fresh(result) && (overrun <==> !Steady(format, attempts))
    ensures var text := Expand(format, if comment.Some? then comment.value else [], Fingerprint(attempts));
            !overrun ==> result.Length == |text| + 1 && CString(result[..]) == Trimmed(text)
  {
    hide Steady, Expand, Written, FprAfter, Trimmed, Fingerprint;
    var text := if comment.Some? then comment.value else [];
    PassesAgreeIff(format, text, attempts);
    SecondPassIsLonger(format, text, attempts);
    NoNul(format, text, Fingerprint(attempts));
    var len, f := Pass(format, text, Fpr(None, attempts), null);
    result := new byte[len + 1](_ => NUL);
    var n, g := Pass(format, text, f, result);
    overrun := n > len;
    if !overrun {
      SecondPassExpands(format, text, attempts);
      result[n] := NUL;
      Trim(result, len);
    }
  }
}
