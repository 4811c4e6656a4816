/**
 The in-place repair of ECC private keys: `fixup_when_ecc_private_key` walks a canonical
 S-expression in a byte buffer and deletes the sign byte in front of the secret value `d`.
 */
module EccFixup {
  import opened Buffers
  import opened Bytes
  import opened CanonicalSexp

  datatype Outcome = Okay | InvSexp | UnknownSexp

  // ----- What the repair does to the tree -----

  /** Curves whose secret value is a fixed-width string; strcmp stops at a NUL in the name. */
  predicate KeepsLeadingZero(curve: bytes) {
    CString(curve) in {"Ed25519", "Ed448", "X448"}
  }

  predicate NonEmptyAtom(ts: seq<Sexp>, i: nat) {
    i < |ts| && ts[i].Atom? && ts[i].data != []
  }

  datatype ParamResult = ParamResult(err: Outcome, param: Sexp, curve: bytes)
  datatype ParamsResult = ParamsResult(err: Outcome, params: seq<Sexp>)
  datatype KeyResult = KeyResult(err: Outcome, key: Sexp)

  predicate ReadableParam(items: seq<Sexp>) {
    && NonEmptyAtom(items, 0)
    && NonEmptyAtom(items, 1)
    && !(items[0].data == "curve" && |items[1].data| >= 256)
  }

  function FixValue(name: bytes, value: bytes, curve: bytes): bytes
    requires value != []
  {
    if name == "d" && value[0] == NUL && !KeepsLeadingZero(curve) then value[1..] else value
  }

  /** One parenthesised parameter, given the value of the last curve parameter before it. */
  function FixParam(param: Sexp, curve: bytes): ParamResult
    requires param.List?
  {
    var items := param.items;
    if !ReadableParam(items) then ParamResult(InvSexp, param, curve)
    else
      var name, value := items[0].data, items[1].data;
      ParamResult(if |items| == 2 then Okay else InvSexp,
                  List([items[0], Atom(FixValue(name, value, curve))] + items[2..]),
                  if name == "curve" then value else curve)
  }

  function FixParams(params: seq<Sexp>, curve: bytes): ParamsResult {
    if params == [] then ParamsResult(Okay, [])
    else if params[0].Atom? then ParamsResult(InvSexp, params)
    else
      var r := FixParam(params[0], curve);
      if r.err != Okay then ParamsResult(r.err, [r.param] + params[1..])
      else
        var q := FixParams(params[1..], r.curve);
        ParamsResult(q.err, [r.param] + q.params)
  }

  /** The outer shape: `(private-key (ecc param*) anything*)`. */
  function FixKey(key: Sexp): KeyResult {
    if key.Atom? || !NonEmptyAtom(key.items, 0) then KeyResult(InvSexp, key)
    else if key.items[0].data == "shadowed-private-key" then KeyResult(Okay, key)
    else if key.items[0].data != "private-key" then KeyResult(UnknownSexp, key)
    else if |key.items| < 2 || key.items[1].Atom? then KeyResult(UnknownSexp, key)
    else
      var ecc := key.items[1].items;
      if !NonEmptyAtom(ecc, 0) || ecc[0].data != "ecc" then KeyResult(Okay, key)
      else
        var r := FixParams(ecc[1..], []);
        KeyResult(r.err, List([key.items[0], List([ecc[0]] + r.params)] + key.items[2..]))
  }

  // ----- What that means for a well-formed key -----

  /**
   A parameter as `convert_secret_key` and friends write it: `(name value)`, both not empty, and a
   curve name of at most 255 octets.
   */
  predicate SimpleParam(p: Sexp) {
    && p.List? && |p.items| == 2
    && p.items[0].Atom? && |p.items[0].data| > 0
    && p.items[1].Atom? && |p.items[1].data| > 0
    && (p.items[0].data == "curve" ==> |p.items[1].data| <= 255)
  }

  /** The curve in force at parameter `i`: the value of the last curve parameter before it. */
  function CurveBefore(params: seq<Sexp>, i: nat): bytes
    requires i <= |params|
    requires forall j :: 0 <= j < i ==> SimpleParam(params[j])
  {
    if i == 0 then []
    else
      assert SimpleParam(params[i - 1]);
      if params[i - 1].items[0].data == "curve" then params[i - 1].items[1].data
      else CurveBefore(params, i - 1)
  }

  /** The parameters are repaired without an error if and only if each has that shape. */
  lemma {:induction false} RepairedIff(params: seq<Sexp>, curve: bytes)
    ensures FixParams(params, curve).err == Okay <==> forall j :: 0 <= j < |params| ==> SimpleParam(params[j])
    decreases params
  {
    if params != [] {
      assert forall j :: 0 <= j < |params| - 1 ==> params[1..][j] == params[j + 1];
      assert (forall j :: 0 <= j < |params| ==> SimpleParam(params[j])) <==>
             SimpleParam(params[0]) && forall j :: 0 <= j < |params[1..]| ==> SimpleParam(params[1..][j]);
      if params[0].List? {
        SimpleIff(params[0], curve);
        hide FixParam, SimpleParam;
        RepairedIff(params[1..], FixParam(params[0], curve).curve);
      }
    }
  }

  lemma SimpleIff(p: Sexp, curve: bytes)
    requires p.List?
    ensures FixParam(p, curve).err == Okay <==> SimpleParam(p)
    ensures FixParam(p, curve).err == Okay || FixParam(p, curve).err == InvSexp
  {
  }

  /** The curve in force behind some parameters. */
  function CurveBehind(params: seq<Sexp>, curve: bytes): bytes
    requires forall j :: 0 <= j < |params| ==> SimpleParam(params[j])
  {
    if params == [] then curve
    else
      assert SimpleParam(params[0]);
      CurveBehind(params[1..], if params[0].items[0].data == "curve" then params[0].items[1].data else curve)
  }

  /**
   A parameter of another shape stops the repair, and what follows stays as it is.  It stays itself,
   unless it is a `d` with a leading zero whose trouble lies behind its value.
   */
  lemma StopsHere(p: Sexp, rest: seq<Sexp>, curve: bytes)
    requires !SimpleParam(p)
    ensures var cut := p.List? && |p.items| > 2 && p.items[0] == Atom("d") && p.items[1].Atom? && |p.items[1].data| > 0
                       && p.items[1].data[0] == NUL && CString(curve) !in {"Ed25519", "Ed448", "X448"};
            FixParams([p] + rest, curve) ==
            ParamsResult(InvSexp, [if cut then List([p.items[0], Atom(p.items[1].data[1..])] + p.items[2..]) else p] + rest)
  {
    assert ([p] + rest)[1..] == rest;
    if p.List? {
      SimpleIff(p, curve);
      if |p.items| >= 2 {
        assert p.items == [p.items[0], p.items[1]] + p.items[2..];
      }
    }
  }

  /** A parameter of the shape, and then the others. */
  lemma GoesOn(params: seq<Sexp>, curve: bytes)
    requires params != [] && SimpleParam(params[0])
    ensures var p := FixParam(params[0], curve);
            && p.curve == (if params[0].items[0].data == "curve" then params[0].items[1].data else curve)
            && FixParams(params, curve) ==
               ParamsResult(FixParams(params[1..], p.curve).err, [p.param] + FixParams(params[1..], p.curve).params)
  {
    SimpleIff(params[0], curve);
  }

  lemma CurveBehindCons(params: seq<Sexp>, curve: bytes)
    requires params != [] && forall j :: 0 <= j < |params| ==> SimpleParam(params[j])
    ensures SimpleParam(params[0])
    ensures CurveBehind(params, curve) ==
            CurveBehind(params[1..], if params[0].items[0].data == "curve" then params[0].items[1].data else curve)
  {
  }

  /** If a parameter does not have the shape, those in front of the first such one are repaired. */
  lemma {:induction false} StopsAt(params: seq<Sexp>, curve: bytes, n: nat)
    requires n < |params| && (forall j :: 0 <= j < n ==> SimpleParam(params[j])) && !SimpleParam(params[n])
    ensures var r, rest := FixParams(params, curve), FixParams(params[n..], CurveBehind(params[..n], curve));
            && r.err == InvSexp && |r.params| == |params|
            && r.params == FixParams(params[..n], curve).params + rest.params
    decreases n
  {
    if n == 0 {
      StopsAtOnce(params, curve);
    } else {
      assert SimpleParam(params[0]);
      assert forall j :: 0 <= j < |params| - 1 ==> params[1..][j] == params[j + 1];
      assert params[..n][0] == params[0] && params[..n][1..] == params[1..][..n - 1] && params[1..][n - 1..] == params[n..];
      hide *;
      GoesOn(params, curve);
      GoesOn(params[..n], curve);
      CurveBehindCons(params[..n], curve);
      var p := FixParam(params[0], curve);
      StopsAt(params[1..], p.curve, n - 1);
      InFront(p.param, FixParams(params[1..][..n - 1], p.curve).params,
              FixParams(params[n..], CurveBehind(params[..n], curve)).params);
    }
  }

  lemma InFront(p: Sexp, front: seq<Sexp>, rest: seq<Sexp>)
    ensures [p] + (front + rest) == [p] + front + rest
  {
  }

  lemma StopsAtOnce(params: seq<Sexp>, curve: bytes)
    requires params != [] && !SimpleParam(params[0])
    ensures var r := FixParams(params, curve);
            && r.err == InvSexp && |r.params| == |params|
            && params[..0] == [] && params[0..] == params && CurveBehind([], curve) == curve
            && r.params == FixParams([], curve).params + r.params
  {
    StopsHere(params[0], params[1..], curve);
    assert params == [params[0]] + params[1..];
    hide SimpleParam, FixParams;
    assert FixParams([], curve).params == [] by { NothingToFix([], curve); }
  }

  /**
   What is not an ECC private key is left alone.  A shadowed key and a key of another algorithm are
   in order; any other tag, or no list behind the tag, is unknown; without a tag it is no key at all.
   */
  lemma OthersAreLeftAlone(key: Sexp)
    ensures key.Atom? || key.items == [] || key.items[0].List? || key.items[0].data == [] ==>
              FixKey(key) == KeyResult(InvSexp, key)
    ensures key.List? && key.items != [] && key.items[0] == Atom("shadowed-private-key") ==>
              FixKey(key) == KeyResult(Okay, key)
    ensures key.List? && key.items != [] && key.items[0].Atom? && key.items[0].data != []
            && key.items[0] != Atom("shadowed-private-key") && key.items[0] != Atom("private-key") ==>
              FixKey(key) == KeyResult(UnknownSexp, key)
    ensures key.List? && key.items != [] && key.items[0] == Atom("private-key") && (|key.items| == 1 || key.items[1].Atom?) ==>
              FixKey(key) == KeyResult(UnknownSexp, key)
    ensures key.List? && |key.items| > 1 && key.items[0] == Atom("private-key") && key.items[1].List?
            && (key.items[1].items == [] || key.items[1].items[0] != Atom("ecc")) ==>
              FixKey(key) == KeyResult(Okay, key)
  {
    hide FixParams;
    assert "shadowed-private-key" != "private-key" by {
      assert |"shadowed-private-key"| != |"private-key"|;
    }
  }

  /** Every parameter stays in place and keeps its name; only an affected `d` loses one byte. */
  lemma {:induction false} FixParamsPointwise(params: seq<Sexp>, done: nat, i: nat)
    requires forall j :: 0 <= j < |params| ==> SimpleParam(params[j])
    requires done <= i < |params|
    ensures SimpleParam(params[i])
    ensures var r := FixParams(params[done..], CurveBefore(params, done));
            && r.err == Okay
            && |r.params| == |params| - done
            && r.params[i - done] ==
               List([params[i].items[0],
                     Atom(FixValue(params[i].items[0].data, params[i].items[1].data, CurveBefore(params, i)))])
    decreases |params| - done
  {
    assert SimpleParam(params[done]) && SimpleParam(params[i]);
    var todo, curve := params[done..], CurveBefore(params, done);
    GoesOn(todo, curve);
    SimpleFixed(params[done], curve);
    assert FixParam(todo[0], curve).curve == CurveBefore(params, done + 1);
    assert todo[0] == params[done] && todo[1..] == params[done + 1..];
    hide FixParam, FixParams, FixValue, CurveBefore;
    if done < i {
      FixParamsPointwise(params, done + 1, i);
    } else if done + 1 < |params| {
      FixParamsPointwise(params, done + 1, done + 1);
    } else {
      NothingToFix(params[done + 1..], CurveBefore(params, done + 1));
    }
  }

  lemma SimpleFixed(p: Sexp, curve: bytes)
    requires SimpleParam(p)
    ensures FixParam(p, curve).param == List([p.items[0], Atom(FixValue(p.items[0].data, p.items[1].data, curve))])
  {
    hide FixValue;
    assert [p.items[0], Atom(FixValue(p.items[0].data, p.items[1].data, curve))] + p.items[2..] ==
           [p.items[0], Atom(FixValue(p.items[0].data, p.items[1].data, curve))];
  }

  /** The repair of a well-formed ECC key always succeeds and touches nothing but `d` values. */
  lemma WellFormedKeyIsRepaired(head: Sexp, algo: Sexp, params: seq<Sexp>, rest: seq<Sexp>, i: nat)
    requires head == Atom("private-key") && algo == Atom("ecc")
    requires forall j :: 0 <= j < |params| ==> SimpleParam(params[j])
    requires i < |params|
    ensures SimpleParam(params[i])
    ensures var key := List([head, List([algo] + params)] + rest);
            var r := FixKey(key);
            && r.err == Okay
            && r.key.List? && |r.key.items| == 2 + |rest| && r.key.items[0] == head && r.key.items[2..] == rest
            && r.key.items[1].List? && |r.key.items[1].items| == 1 + |params|
            && r.key.items[1].items[0] == algo
            && var name, value, curve := params[i].items[0].data, params[i].items[1].data, CurveBefore(params, i);
               r.key.items[1].items[1 + i] ==
               if name == "d" && value[0] == NUL && CString(curve) !in {"Ed25519", "Ed448", "X448"}
               then List([params[i].items[0], Atom(value[1..])])
               else params[i]
  {
    var key := List([head, List([algo] + params)] + rest);
    assert key.items[2..] == rest;
    assert key.items[1].items[1..] == params == params[0..];
    FixParamsPointwise(params, 0, i);
    assert params[i] == List([params[i].items[0], params[i].items[1]]);
  }

  /** Repairing this parameter again does nothing more: it does not start with a second zero, nor consist of one. */
  predicate Settled(p: Sexp, curve: bytes)
    requires SimpleParam(p)
  {
    var name, value := p.items[0].data, p.items[1].data;
    name == "d" && value[0] == NUL && !KeepsLeadingZero(curve) ==> |value| >= 2 && value[1] != NUL
  }

  predicate AllSettled(params: seq<Sexp>, curve: bytes)
    requires forall j :: 0 <= j < |params| ==> SimpleParam(params[j])
  {
    params == [] || (Settled(params[0], curve) && AllSettled(params[1..], FixParam(params[0], curve).curve))
  }

  lemma FixParamTwice(p: Sexp, curve: bytes)
    requires SimpleParam(p)
    ensures FixParam(p, curve).err == Okay && FixParam(p, curve).param.List?
    ensures FixParam(FixParam(p, curve).param, curve) == FixParam(p, curve) <==> Settled(p, curve)
  {
    var name, value := p.items[0].data, p.items[1].data;
    var once := FixParam(p, curve);
    assert once.param.items == [p.items[0], Atom(FixValue(name, value, curve))];
    if FixValue(name, value, curve) != value {
      var rest := value[1..];
      assert FixValue(name, value, curve) == rest;
      if rest != [] {
        assert rest[0] == value[1] && |rest[1..]| < |rest|;
      }
    }
  }

  /**
   Repairing a well-formed key twice is the same as once if and only if no affected value starts
   with two zeros or is a single zero; of the latter nothing is left, which a second repair refuses.
   */
  lemma {:induction false} FixParamsTwice(params: seq<Sexp>, curve: bytes)
    requires forall j :: 0 <= j < |params| ==> SimpleParam(params[j])
    ensures FixParams(FixParams(params, curve).params, curve) == FixParams(params, curve) <==> AllSettled(params, curve)
    decreases params
  {
    if params != [] {
      var r := FixParam(params[0], curve);
      var q := FixParams(params[1..], r.curve);
      var once := FixParams(params, curve);
      FixParamTwice(params[0], curve);
      FixParamsTwice(params[1..], r.curve);
      hide FixParam, Settled;
      assert once == ParamsResult(q.err, [r.param] + q.params);
      assert once.params[0] == r.param && once.params[1..] == q.params;
      var twice := FixParam(r.param, curve);
      if twice == r {
        var again := FixParams(q.params, r.curve);
        assert FixParams(once.params, curve) == ParamsResult(again.err, [r.param] + again.params);
        if [r.param] + again.params == [r.param] + q.params {
          assert ([r.param] + again.params)[1..] == ([r.param] + q.params)[1..];
          assert ([r.param] + again.params)[1..] == again.params;
        }
      } else {
        assert FixParams(once.params, curve).params[0] == twice.param;
        RepairedIff(params[1..], r.curve);
        SameCurve(params[0], curve);
      }
    }
  }

  /** If the second repair of a parameter differs from the first, it fails or gives another parameter. */
  lemma SameCurve(p: Sexp, curve: bytes)
    requires SimpleParam(p)
    ensures var r := FixParam(p, curve);
            r.param.List? && var t := FixParam(r.param, curve);
            t != r ==> t.err != Okay || t.param != r.param
  {
  }

  // ----- The scanner over the buffer -----

  /** The bytes of the rest of a list, its closing bracket and what follows it. */
  function Tail(todo: seq<Sexp>, tail: bytes): bytes {
    EncodeAll(todo) + [CLOSE] + tail
  }

  /** What `snext` finds where the buffer holds the rest of a list. */
  lemma NextAtom(b: bytes, pos: nat, end: nat, ts: seq<Sexp>, rest: bytes)
    requires Holds(b, pos, end, EncodeAll(ts) + [CLOSE] + rest)
    ensures exists k :: pos <= k < |b| && !IsDigit(b[k])
    ensures !NonEmptyAtom(ts, 0) ==> NextLength(b, pos) == (0, pos)
    ensures NonEmptyAtom(ts, 0) ==>
              var n, s := |ts[0].data|, pos + |LengthPrefix(|ts[0].data|)|;
              && NextLength(b, pos) == (n, s)
              && Holds(b, s, s + n, ts[0].data)
              && Holds(b, s + n, end, EncodeAll(ts[1..]) + [CLOSE] + rest)
  {
    hide Encode, EncodeAll, NextLength, LengthPrefix;
    StartOfTail(b, pos, end, ts, rest);
    if ts == [] || ts[0].List? {
      assert exists k :: pos <= k < |b| && !IsDigit(b[k]) by { assert !IsDigit(b[pos]); }
      NextLengthAtBracket(b, pos);
    } else {
      var data, more := ts[0].data, EncodeAll(ts[1..]) + [CLOSE] + rest;
      var lp := LengthPrefix(|data|);
      EncodeAllSplit(ts);
      AtomBytes(data);
      ConcatAssociative(lp + data, EncodeAll(ts[1..]), [CLOSE]);
      ConcatAssociative(lp + data, EncodeAll(ts[1..]) + [CLOSE], rest);
      ConcatAssociative(lp, data, more);
      AtomRead(b, pos, end, data, more);
    }
  }

  lemma AtomBytes(data: bytes)
    ensures Encode(Atom(data)) == LengthPrefix(|data|) + data
  {
    hide LengthPrefix;
  }

  lemma AtomRead(b: bytes, pos: nat, end: nat, data: bytes, more: bytes)
    requires Holds(b, pos, end, LengthPrefix(|data|) + (data + more))
    ensures exists k :: pos <= k < |b| && !IsDigit(b[k])
    ensures data == [] ==> NextLength(b, pos) == (0, pos)
    ensures data != [] ==> NextLength(b, pos) == (|data|, pos + |LengthPrefix(|data|)|)
    ensures var s := pos + |LengthPrefix(|data|)|;
            Holds(b, s, s + |data|, data) && Holds(b, s + |data|, end, more)
  {
    var prefix := LengthPrefix(|data|);
    HoldsParts(b, pos, end, prefix, data + more);
    HoldsParts(b, pos + |prefix|, end, data, more);
    assert b[pos + |prefix| - 1] == COLON by { assert b[pos..pos + |prefix|][|prefix| - 1] == COLON; }
    assert b[pos..] == prefix + data + (more + b[end..]) by {
      assert b[pos..] == b[pos..end] + b[end..];
    }
    NextLengthAtAtom(b, pos, data, more + b[end..]);
  }

  lemma StartOfTail(b: bytes, pos: nat, end: nat, todo: seq<Sexp>, tail: bytes)
    requires Holds(b, pos, end, EncodeAll(todo) + [CLOSE] + tail)
    ensures pos < end
    ensures b[pos] == CLOSE <==> todo == []
    ensures b[pos] == OPEN <==> todo != [] && todo[0].List?
  {
    assert b[pos] == b[pos..end][0];
    if todo != [] {
      EncodeStart(todo[0]);
      assert b[pos..end][0] == Encode(todo[0])[0];
    }
  }

  /** The contents after printing a new prefix, moving the rest down and wiping the end. */
  function PrintedMovedWiped(b: bytes, s0: nat, text: bytes, to: nat, from: nat, n: nat, wipe: bytes): bytes
    requires s0 + |text| <= |b| && to + n + |wipe| <= |b| && from + n <= |b|
  {
    Splice(Splice(Splice(b, s0, text), to, Splice(b, s0, text)[from..from + n]), to + n, wipe)
  }

  /** snprintf, memmove and memset, one after the other. */
  method PrintMoveWipe(buf: array<byte>, s0: nat, text: bytes, to: nat, from: nat, n: nat, wipe: bytes)
    requires s0 + |text| <= buf.Length && to + n + |wipe| <= buf.Length && from + n <= buf.Length
    modifies buf
    ensures buf[..] == PrintedMovedWiped(old(buf[..]), s0, text, to, from, n, wipe)
  {
    hide Splice;
    Write(buf, s0, text);
    Move(buf, to, from, n);
    Write(buf, to + n, wipe);
  }

  /** The edit proper: rewrite the length prefix, close the gap, wipe the freed tail. */
  method DropLeadingZero(buf: array<byte>, buflen: nat, s0: nat, s: nat, prefix: bytes) returns (newLen: nat)
    requires s0 + |prefix| <= s < buflen <= buf.Length
    modifies buf
    ensures Rewritten(old(buf[..]), buf[..], s0, buflen, newLen, prefix + old(buf[..])[s + 1..buflen])
  {
    hide *;
    var numsize := |prefix|;
    var moved := buflen - 1 - s;
    newLen := s0 + numsize + moved;
    ShrunkBytes(buf[..], buflen, s0, s, prefix);
    PrintMoveWipe(buf, s0, prefix + [NUL], s0 + numsize, s + 1, moved, Zeros((s - s0 - numsize) + 1));
  }

  /** The three writes of the edit, seen as one. */
  lemma ShrunkBytes(b: bytes, end: nat, s0: nat, s: nat, prefix: bytes)
    requires s0 + |prefix| <= s < end <= |b|
    ensures Rewritten(b, PrintedMovedWiped(b, s0, prefix + [NUL], s0 + |prefix|, s + 1, end - 1 - s,
                                           Zeros((s - s0 - |prefix|) + 1)),
                      s0, end, s0 + |prefix| + (end - 1 - s), prefix + b[s + 1..end])
  {
    hide Splice;
    var at, moved := s0 + |prefix|, end - 1 - s;
    var text := prefix + [NUL];
    var printed := Splice(b, s0, text);
    SpliceParts(b, s0, text, s + 1);
    assert printed[..at] == printed[..at + 1][..at] == b[..s0] + prefix;
    assert printed[s + 1..s + 1 + moved] == printed[s + 1..][..moved] == b[s + 1..end];
    var closed := Splice(printed, at, b[s + 1..end]);
    SpliceParts(printed, at, b[s + 1..end], end);
    assert closed[..at + moved] == b[..s0] + (prefix + b[s + 1..end]);
    assert closed[end..] == printed[end..] == printed[s + 1..][moved..] == b[end..];
    var wipe := Zeros((s - s0 - |prefix|) + 1);
    var wiped := Splice(closed, at + moved, wipe);
    SpliceParts(closed, at + moved, wipe, end);
    assert wiped == wiped[..end] + wiped[end..];
  }

  lemma AtomTail(b: bytes, s: nat, end: nat, value: bytes, more: bytes)
    requires Holds(b, s, end, value + more) && value != []
    ensures LengthPrefix(|value| - 1) + b[s + 1..end] == Encode(Atom(value[1..])) + more
  {
    assert b[s + 1..end] == b[s..end][1..] == value[1..] + more;
  }

  // ----- One parameter -----

  /** One length read: `value` is the token at `pos` and starts at `s`; it is empty if there is none. */
  method ReadAtom(buf: array<byte>, end: nat, pos: nat, ghost ts: seq<Sexp>, ghost rest: bytes)
    returns (s: nat, value: bytes)
    requires Holds(buf[..], pos, end, EncodeAll(ts) + [CLOSE] + rest)
    ensures value == if NonEmptyAtom(ts, 0) then ts[0].data else []
    ensures value != [] ==>
              && s == pos + |LengthPrefix(|value|)|
              && s + |value| == pos + |Encode(ts[0])|
              && Holds(buf[..], s, s + |value|, value)
              && Holds(buf[..], s + |value|, end, EncodeAll(ts[1..]) + [CLOSE] + rest)
  {
    hide EncodeAll, NextLength, LengthPrefix, Encode;
    ghost var b := buf[..];
    NextAtom(b, pos, end, ts, rest);
    var n;
    n, s := SNext(buf, pos);
    value := [];
    if n != 0 {
      value := buf[s..s + n];
      TokenRead(b, s, n, ts);
      assert buf[s..s + n] == b[s..s + n];
    }
  }

  lemma TokenRead(b: bytes, s: nat, n: nat, ts: seq<Sexp>)
    requires NonEmptyAtom(ts, 0) && n == |ts[0].data| && Holds(b, s, s + n, ts[0].data)
    ensures b[s..s + n] == ts[0].data && |Encode(ts[0])| == |LengthPrefix(n)| + n
  {
    hide LengthPrefix;
  }

  /** The two length reads at the start of a parameter: its name and its value. */
  method ReadParam(buf: array<byte>, end: nat, pos: nat, ghost items: seq<Sexp>, ghost rest: bytes)
    returns (ok: bool, name: bytes, s0: nat, s: nat, value: bytes)
    requires end <= buf.Length
    requires Holds(buf[..], pos, end, EncodeAll(items) + [CLOSE] + rest)
    ensures ok <==> NonEmptyAtom(items, 0) && NonEmptyAtom(items, 1)
    ensures ok ==>
              && name == items[0].data
              && value == items[1].data
              && s0 == pos + |Encode(items[0])|
              && s == s0 + |LengthPrefix(|value|)|
              && s < end
              && Holds(buf[..], s, end, value + (EncodeAll(items[2..]) + [CLOSE] + rest))
  {
    hide *;
    ghost var b := buf[..];
    TokensOf(items);
    var p;
    p, name := ReadAtom(buf, end, pos, items, rest);
    if name == [] { return false, [], 0, 0, []; }
    s0 := p + |name|;
    s, value := ReadAtom(buf, end, s0, items[1..], rest);
    ok := value != [];
    if ok {
      HoldsJoined(b, s, s + |value|, end, value, EncodeAll(items[2..]) + [CLOSE] + rest);
      HoldsInside(b, s, s + |value|, value);
      HoldsInside(b, s, end, value + (EncodeAll(items[2..]) + [CLOSE] + rest));
    }
  }

  lemma TokensOf(items: seq<Sexp>)
    ensures NonEmptyAtom(items, 0) ==> items != [] && items[0].Atom? && items[0].data != []
    ensures NonEmptyAtom(items, 1) ==> |items| > 1 && items[1].Atom? && items[1].data != []
    ensures items != [] ==>
              && NonEmptyAtom(items[1..], 0) == NonEmptyAtom(items, 1)
              && (|items| > 1 ==> items[1..][0] == items[1] && items[1..][1..] == items[2..])
    ensures NonEmptyAtom(items, 1) ==> NonEmptyAtom(items[1..], 0)
  {
  }

  lemma HoldsInside(b: bytes, pos: nat, end: nat, what: bytes)
    requires Holds(b, pos, end, what)
    ensures pos + |what| == end <= |b|
  {
  }

  /** A parameter splits at its value; `tail` is what follows the value. */
  lemma ParamBytes(items: seq<Sexp>, rest: bytes)
    requires |items| >= 2
    ensures Encode(List(items)) + rest ==
            ([OPEN] + Encode(items[0])) + (Encode(items[1]) + (EncodeAll(items[2..]) + [CLOSE] + rest))
  {
    assert items[1..][1..] == items[2..];
    assert EncodeAll(items) == Encode(items[0]) + (Encode(items[1]) + EncodeAll(items[2..]));
  }

  lemma ParamInside(b: bytes, pos: nat, end: nat, items: seq<Sexp>, rest: bytes)
    requires Holds(b, pos, end, Encode(List(items)) + rest)
    ensures Holds(b, pos + 1, end, EncodeAll(items) + [CLOSE] + rest)
  {
    assert Encode(List(items)) + rest == [OPEN] + (EncodeAll(items) + [CLOSE] + rest);
    HoldsParts(b, pos, end, [OPEN], EncodeAll(items) + [CLOSE] + rest);
  }

  /** The bytes of a parameter after its value has been replaced in place. */
  lemma ParamRewritten(b: bytes, b': bytes, pos: nat, end: nat, newEnd: nat, items: seq<Sexp>, value: bytes, rest: bytes)
    requires |items| >= 2
    requires Holds(b, pos, end, Encode(List(items)) + rest)
    requires Rewritten(b, b', pos + 1 + |Encode(items[0])|, end, newEnd,
                       Encode(Atom(value)) + (EncodeAll(items[2..]) + [CLOSE] + rest))
    ensures Rewritten(b, b', pos, end, newEnd, Encode(List([items[0], Atom(value)] + items[2..])) + rest)
  {
    var items' := [items[0], Atom(value)] + items[2..];
    assert items'[2..] == items[2..];
    ParamBytes(items, rest);
    ParamBytes(items', rest);
    NotRewritten(b, pos, end, Encode(List(items)) + rest);
    var front, more := [OPEN] + Encode(items[0]), EncodeAll(items[2..]) + [CLOSE] + rest;
    RewrittenTwice(b, b, b', pos, end, end, newEnd, front, Encode(items[1]) + more, Encode(Atom(value)) + more);
  }

  /** What follows the value decides whether the parameter ends here. */
  lemma ParamEnd(b: bytes, b': bytes, at: nat, end: nat, newEnd: nat, value: bytes, more: seq<Sexp>, rest: bytes)
    requires Rewritten(b, b', at, end, newEnd, Encode(Atom(value)) + (EncodeAll(more) + [CLOSE] + rest))
    ensures var next := at + |Encode(Atom(value))|;
            next < newEnd <= |b'| && (b'[next] == CLOSE <==> more == [])
  {
    RewrittenHolds(b, b', at, end, newEnd, Encode(Atom(value)) + (EncodeAll(more) + [CLOSE] + rest));
    HoldsParts(b', at, newEnd, Encode(Atom(value)), EncodeAll(more) + [CLOSE] + rest);
    StartOfTail(b', at + |Encode(Atom(value))|, newEnd, more, rest);
  }

  lemma ValueInside(b: bytes, pos: nat, end: nat, items: seq<Sexp>, rest: bytes)
    requires |items| >= 2 && Holds(b, pos, end, Encode(List(items)) + rest)
    ensures Holds(b, pos + 1 + |Encode(items[0])|, end, Encode(items[1]) + (EncodeAll(items[2..]) + [CLOSE] + rest))
  {
    ParamBytes(items, rest);
    HoldsParts(b, pos, end, [OPEN] + Encode(items[0]), Encode(items[1]) + (EncodeAll(items[2..]) + [CLOSE] + rest));
  }

  /** The treatment of a value, whose length prefix is at `s0` and whose `n` bytes are at `s`. */
  method FixupValue(buf: array<byte>, buflen: nat, s0: nat, s: nat, n: nat, name: bytes, curve: bytes,
                    ghost value: bytes, ghost more: bytes)
    returns (newLen: nat, next: nat)
    requires n == |value| > 0 && s == s0 + |LengthPrefix(n)|
    requires Holds(buf[..], s0, buflen, Encode(Atom(value)) + more)
    requires Holds(buf[..], s, buflen, value + more)
    modifies buf
    ensures Rewritten(old(buf[..]), buf[..], s0, buflen, newLen, Encode(Atom(FixValue(name, value, curve))) + more)
    ensures next == s0 + |Encode(Atom(FixValue(name, value, curve)))|
  {
    ghost var b := buf[..];
    assert buf[s] == value[0] by { assert b[s..buflen][0] == b[s]; }
    if name == "d" && buf[s] == NUL && !KeepsLeadingZero(curve) {
      DecimalLengthMonotone(n - 1, n);
      AtomTail(b, s, buflen, value, more);
      newLen := DropLeadingZero(buf, buflen, s0, s, LengthPrefix(n - 1));
      next := s0 + |LengthPrefix(n - 1)| + (n - 1);
    } else {
      NotRewritten(b, s0, buflen, Encode(Atom(value)) + more);
      newLen, next := buflen, s + n;
    }
  }

  /** One round of the loop: the parameter list that starts at `pos`. */
  method FixupParam(buf: array<byte>, buflen: nat, pos: nat, curve: bytes, ghost items: seq<Sexp>, ghost rest: bytes)
    returns (err: Outcome, newLen: nat, next: nat, newCurve: bytes)
    requires Holds(buf[..], pos, buflen, Encode(List(items)) + rest)
    modifies buf
    ensures Rewritten(old(buf[..]), buf[..], pos, buflen, newLen, Encode(FixParam(List(items), curve).param) + rest)
    ensures err == FixParam(List(items), curve).err && newCurve == FixParam(List(items), curve).curve
    ensures err == Okay ==> next == pos + |Encode(FixParam(List(items), curve).param)|
  {
    hide Encode, EncodeAll, LengthPrefix, FixValue, Rewritten;
    ghost var b := buf[..];
    newLen, newCurve, next := buflen, curve, pos;
    NotRewritten(b, pos, buflen, Encode(List(items)) + rest);
    ParamInside(b, pos, buflen, items, rest);
    var ok, name, s0, s, value := ReadParam(buf, buflen, pos + 1, items, rest);
    if !ok || (name == "curve" && |value| >= 256) { return InvSexp, newLen, next, newCurve; }
    ghost var more := EncodeAll(items[2..]) + [CLOSE] + rest;
    if name == "curve" {
      newCurve := value;
    }
    ValueInside(b, pos, buflen, items, rest);
    newLen, next := FixupValue(buf, buflen, s0, s, |value|, name, curve, value, more);
    ghost var fixed := FixValue(name, value, curve);
    ParamRewritten(b, buf[..], pos, buflen, newLen, items, fixed, rest);
    ParamEnd(b, buf[..], s0, buflen, newLen, fixed, items[2..], rest);
    if buf[next] != CLOSE { return InvSexp, newLen, next, newCurve; }
    next := next + 1;
    err := Okay;
    ParamLength(items, fixed);
  }

  lemma ParamLength(items: seq<Sexp>, value: bytes)
    requires |items| == 2
    ensures |Encode(List([items[0], Atom(value)] + items[2..]))| == 1 + |Encode(items[0])| + |Encode(Atom(value))| + 1
  {
    ParamBytes([items[0], Atom(value)] + items[2..], []);
  }

  // ----- All parameters -----

  /** What the loop sees at its head: the parameters still to do start at `s`. */
  lemma LoopView(b0: bytes, b: bytes, pos: nat, oldEnd: nat, end: nat, done: seq<Sexp>, todo: seq<Sexp>, tail: bytes)
    requires Rewritten(b0, b, pos, oldEnd, end, EncodeAll(done) + Tail(todo, tail))
    ensures var s := pos + |EncodeAll(done)|;
            && s < end <= |b| == |b0|
            && (b[s] == CLOSE <==> todo == [])
            && (b[s] == OPEN <==> todo != [] && todo[0].List?)
            && Holds(b, s, end, Tail(todo, tail))
            && (todo != [] ==> Tail(todo, tail) == Encode(todo[0]) + Tail(todo[1..], tail))
  {
    hide Encode, EncodeAll, Rewritten, Holds;
    RewrittenHolds(b0, b, pos, oldEnd, end, EncodeAll(done) + Tail(todo, tail));
    HoldsParts(b, pos, end, EncodeAll(done), Tail(todo, tail));
    StartOfTail(b, pos + |EncodeAll(done)|, end, todo, tail);
    RewrittenBounds(b0, b, pos, oldEnd, end, EncodeAll(done), Tail(todo, tail));
    if todo != [] {
      TailFirst(todo, tail);
    }
  }

  lemma RewrittenBounds(b0: bytes, b: bytes, pos: nat, oldEnd: nat, end: nat, front: bytes, back: bytes)
    requires Rewritten(b0, b, pos, oldEnd, end, front + back) && back != []
    ensures pos + |front| < end <= |b| == |b0|
  {
  }

  lemma TailFirst(todo: seq<Sexp>, tail: bytes)
    requires todo != []
    ensures Tail(todo, tail) == Encode(todo[0]) + Tail(todo[1..], tail)
  {
    hide Encode, EncodeAll;
    EncodeAllSplit(todo);
    var a, b := Encode(todo[0]), EncodeAll(todo[1..]);
    ConcatAssociative(a, b, [CLOSE]);
    ConcatAssociative(a, b + [CLOSE], tail);
  }

  /** One round moves a repaired parameter from the part to do to the part done. */
  lemma LoopStep(b0: bytes, b: bytes, b': bytes, pos: nat, oldEnd: nat, end: nat, newEnd: nat,
                 done: seq<Sexp>, todo: seq<Sexp>, param: Sexp, tail: bytes)
    requires todo != []
    requires Rewritten(b0, b, pos, oldEnd, end, EncodeAll(done) + Tail(todo, tail))
    requires Rewritten(b, b', pos + |EncodeAll(done)|, end, newEnd, Encode(param) + Tail(todo[1..], tail))
    ensures Rewritten(b0, b', pos, oldEnd, newEnd, EncodeAll(done + [param]) + Tail(todo[1..], tail))
    ensures |EncodeAll(done + [param])| == |EncodeAll(done)| + |Encode(param)|
  {
    hide EncodeAll, Encode, Tail;
    EncodeAllConcat(done, [param]);
    EncodeAllOne(param);
    ConcatAssociative(EncodeAll(done), Encode(param), Tail(todo[1..], tail));
    RewrittenTwice(b0, b, b', pos, oldEnd, end, newEnd, EncodeAll(done), Tail(todo, tail), Encode(param) + Tail(todo[1..], tail));
  }

  /** The loop is left: the parameters not reached stay as they are. */
  lemma LoopExit(b0: bytes, b: bytes, pos: nat, oldEnd: nat, end: nat, done: seq<Sexp>, todo: seq<Sexp>, tail: bytes)
    requires Rewritten(b0, b, pos, oldEnd, end, EncodeAll(done) + Tail(todo, tail))
    ensures Rewritten(b0, b, pos, oldEnd, end, Tail(done + todo, tail))
  {
    EncodeAllConcat(done, todo);
    hide EncodeAll;
    assert EncodeAll(done) + (EncodeAll(todo) + [CLOSE] + tail) == EncodeAll(done) + EncodeAll(todo) + [CLOSE] + tail;
  }

  /** The loop over the parameters of an ECC key, up to the bracket that closes the list. */
  method FixupParams(buf: array<byte>, buflen: nat, pos: nat, ghost params: seq<Sexp>, ghost tail: bytes)
    returns (err: Outcome, newLen: nat)
    requires Holds(buf[..], pos, buflen, Tail(params, tail))
    modifies buf
    ensures err == FixParams(params, []).err
    ensures Rewritten(old(buf[..]), buf[..], pos, buflen, newLen, Tail(FixParams(params, []).params, tail))
  {
    hide Encode, EncodeAll, Rewritten, Tail, FixParam, FixParams;
    NothingEncoded();
    var s, curve: bytes := pos, [];
    newLen := buflen;
    ghost var done: seq<Sexp>, todo := [], params;
    NotRewritten(buf[..], pos, buflen, Tail(params, tail));
    assert [] + Tail(params, tail) == Tail(params, tail);
    NothingDone(FixParams(params, []));
    LoopView(old(buf[..]), buf[..], pos, buflen, newLen, done, todo, tail);
    while buf[s] == OPEN
      invariant Rewritten(old(buf[..]), buf[..], pos, buflen, newLen, EncodeAll(done) + Tail(todo, tail))
      invariant s == pos + |EncodeAll(done)| < buf.Length
      invariant FixParams(params, []) == ParamsResult(FixParams(todo, curve).err, done + FixParams(todo, curve).params)
      decreases |todo|
    {
      ghost var b := buf[..];
      ghost var end, c := newLen, curve;
      LoopView(old(buf[..]), b, pos, buflen, newLen, done, todo, tail);
      ghost var r := FixParam(todo[0], curve);
      var next;
      err, newLen, next, curve := FixupParam(buf, newLen, s, curve, todo[0].items, Tail(todo[1..], tail));
      LoopStep(old(buf[..]), b, buf[..], pos, buflen, end, newLen, done, todo, r.param, tail);
      ParamDone(params, done, todo, c);
      s, done, todo := next, done + [r.param], todo[1..];
      if err != Okay {
        LoopExit(old(buf[..]), buf[..], pos, buflen, newLen, done, todo, tail);
        return;
      }
      LoopView(old(buf[..]), buf[..], pos, buflen, newLen, done, todo, tail);
    }
    LoopView(old(buf[..]), buf[..], pos, buflen, newLen, done, todo, tail);
    LoopExit(old(buf[..]), buf[..], pos, buflen, newLen, done, todo, tail);
    NothingToFix(todo, curve);
    err := if buf[s] != CLOSE then InvSexp else Okay;
  }

  lemma NothingEncoded()
    ensures EncodeAll([]) == []
  {
  }

  lemma NothingDone(r: ParamsResult)
    ensures r == ParamsResult(r.err, [] + r.params)
  {
    assert [] + r.params == r.params;
  }

  lemma NothingToFix(todo: seq<Sexp>, curve: bytes)
    requires todo == [] || todo[0].Atom?
    ensures FixParams(todo, curve) == ParamsResult(if todo == [] then Okay else InvSexp, todo)
  {
  }

  lemma ParamDone(params: seq<Sexp>, done: seq<Sexp>, todo: seq<Sexp>, curve: bytes)
    requires todo != [] && todo[0].List?
    requires FixParams(params, []) == ParamsResult(FixParams(todo, curve).err, done + FixParams(todo, curve).params)
    ensures var r := FixParam(todo[0], curve);
            var done' := done + [r.param];
            if r.err != Okay then FixParams(params, []) == ParamsResult(r.err, done' + todo[1..])
            else
              var q := FixParams(todo[1..], r.curve);
              FixParams(params, []) == ParamsResult(q.err, done' + q.params)
  {
    var r := FixParam(todo[0], curve);
    var q := FixParams(todo[1..], r.curve);
    hide FixParam;
    assert done + ([r.param] + todo[1..]) == done + [r.param] + todo[1..];
    assert done + ([r.param] + q.params) == done + [r.param] + q.params;
  }

  // ----- The whole key -----

  /** How a key splits in front of the parameters of its algorithm list. */
  lemma KeyBytes(xs: seq<Sexp>, ys: seq<Sexp>)
    requires |xs| >= 2 && xs[1] == List(ys) && ys != []
    ensures Encode(List(xs)) ==
            ([OPEN] + Encode(xs[0]) + [OPEN] + Encode(ys[0])) + Tail(ys[1..], EncodeAll(xs[2..]) + [CLOSE])
  {
    hide Encode, EncodeAll;
    ParamBytes(xs, []);
    EncodeAllSplit(ys);
    ListBytes(ys);
    var a, c, d, e := Encode(xs[0]), Encode(ys[0]), EncodeAll(ys[1..]), EncodeAll(xs[2..]);
    assert Encode(List(xs)) + [] == Encode(List(xs));
    assert e + [CLOSE] + [] == e + [CLOSE];
    RegroupKey([OPEN] + a, c, d, e + [CLOSE]);
  }

  lemma ListBytes(ys: seq<Sexp>)
    ensures Encode(List(ys)) == [OPEN] + EncodeAll(ys) + [CLOSE]
  {
    hide EncodeAll;
  }

  lemma RegroupKey(a: bytes, c: bytes, d: bytes, e: bytes)
    ensures a + ([OPEN] + (c + d) + [CLOSE] + e) == (a + [OPEN] + c) + (d + [CLOSE] + e)
  {
    ConcatAssociative([OPEN], c, d);
    ConcatAssociative([OPEN] + c, d, [CLOSE]);
    ConcatAssociative([OPEN] + c, d + [CLOSE], e);
    ConcatAssociative(a, [OPEN] + c, d + [CLOSE] + e);
    ConcatAssociative(a, [OPEN], c);
  }

  /** The two tags in front of the parameters, as far as the source reads them. */
  datatype Header = NotAKey(err: Outcome) | Parameters(at: nat)

  /** Where the parameters start, or the early return that applies. */
  function HeaderOf(key: Sexp): Header {
    if key.Atom? || !NonEmptyAtom(key.items, 0) then NotAKey(InvSexp)
    else if key.items[0].data == "shadowed-private-key" then NotAKey(Okay)
    else if key.items[0].data != "private-key" then NotAKey(UnknownSexp)
    else if |key.items| < 2 || key.items[1].Atom? then NotAKey(UnknownSexp)
    else if !NonEmptyAtom(key.items[1].items, 0) || key.items[1].items[0].data != "ecc" then NotAKey(Okay)
    else Parameters(1 + |Encode(key.items[0])| + 1 + |Encode(key.items[1].items[0])|)
  }

  /** Reads one token; the empty string stands for the failure of `snext`. */
  method ReadToken(buf: array<byte>, pos: nat, end: nat, ghost ts: seq<Sexp>, ghost rest: bytes)
    returns (token: bytes, next: nat)
    requires Holds(buf[..], pos, end, Tail(ts, rest))
    ensures token == if NonEmptyAtom(ts, 0) then ts[0].data else []
    ensures token != [] ==> next == pos + |Encode(ts[0])| && Holds(buf[..], next, end, Tail(ts[1..], rest))
  {
    hide EncodeAll, Encode, LengthPrefix, Holds;
    var s;
    s, token := ReadAtom(buf, end, pos, ts, rest);
    next := s + |token|;
  }

  method ReadHeader(buf: array<byte>, buflen: nat, ghost key: Sexp) returns (h: Header)
    requires Holds(buf[..], 0, buflen, Encode(key))
    ensures h == HeaderOf(key)
  {
    hide Encode, EncodeAll, Tail;
    ghost var b := buf[..];
    KeyStart(b, buflen, key);
    if buf[0] != OPEN { return NotAKey(InvSexp); }
    ghost var xs := key.items;
    var token, s := ReadToken(buf, 1, buflen, xs, []);
    if token == [] { return NotAKey(InvSexp); }
    if token == "shadowed-private-key" { return NotAKey(Okay); }
    if token != "private-key" { return NotAKey(UnknownSexp); }
    SecondInside(b, s, buflen, xs);
    if buf[s] != OPEN { return NotAKey(UnknownSexp); }
    token, s := ReadToken(buf, s + 1, buflen, xs[1].items, Tail(xs[2..], []));
    if token != "ecc" { return NotAKey(Okay); }
    h := Parameters(s);
  }

  lemma KeyStart(b: bytes, end: nat, key: Sexp)
    requires Holds(b, 0, end, Encode(key))
    ensures 0 < |b| && (b[0] == OPEN <==> key.List?)
    ensures key.List? ==> Holds(b, 1, end, Tail(key.items, []))
  {
    EncodeStart(key);
    assert b[0] == b[0..end][0];
    if key.List? {
      assert Encode(key) + [] == Encode(key);
      ParamInside(b, 0, end, key.items, []);
    }
  }

  lemma SecondInside(b: bytes, s: nat, end: nat, xs: seq<Sexp>)
    requires xs != [] && Holds(b, s, end, Tail(xs[1..], []))
    ensures s < |b|
    ensures b[s] == OPEN <==> |xs| >= 2 && xs[1].List?
    ensures b[s] == OPEN ==> Holds(b, s + 1, end, Tail(xs[1].items, Tail(xs[2..], [])))
  {
    StartOfTail(b, s, end, xs[1..], []);
    if b[s] == OPEN {
      var tail := Tail(xs[2..], []);
      EncodeAllSplit(xs[1..]);
      assert xs[1..][1..] == xs[2..];
      hide EncodeAll, Encode;
      assert Encode(xs[1]) + EncodeAll(xs[2..]) + [CLOSE] + [] == Encode(xs[1]) + tail;
      ParamInside(b, s, end, xs[1].items, tail);
    }
  }

  lemma FixKeyByHeader(key: Sexp)
    ensures HeaderOf(key).NotAKey? ==> FixKey(key) == KeyResult(HeaderOf(key).err, key)
    ensures HeaderOf(key).Parameters? ==>
              && key.List? && |key.items| >= 2 && key.items[1].List? && key.items[1].items != []
              && var xs, ys := key.items, key.items[1].items;
                 && HeaderOf(key).at == |[OPEN] + Encode(xs[0]) + [OPEN] + Encode(ys[0])|
                 && FixKey(key) == KeyResult(FixParams(ys[1..], []).err,
                                             List([xs[0], List([ys[0]] + FixParams(ys[1..], []).params)] + xs[2..]))
  {
    hide FixParams, Encode;
  }

  /**
   The whole function, for every buffer that holds a canonical S-expression: the buffer ends up
   holding exactly the repaired tree, the new length is its exact length, the bytes given up are
   zero and nothing else moves.  This also holds on the error returns after an earlier repair.
   */
  method FixupWhenEccPrivateKey(buf: array<byte>, buflen: nat, ghost key: Sexp)
    returns (err: Outcome, newLen: nat)
    requires Holds(buf[..], 0, buflen, Encode(key))
    modifies buf
    ensures err == FixKey(key).err
    ensures Rewritten(old(buf[..]), buf[..], 0, buflen, newLen, Encode(FixKey(key).key))
  {
    hide Encode, EncodeAll, Rewritten, Tail, HeaderOf, FixKey, FixParams;
    ghost var b := buf[..];
    newLen := buflen;
    FixKeyByHeader(key);
    var h := ReadHeader(buf, buflen, key);
    if h.NotAKey? {
      NotRewritten(b, 0, buflen, Encode(key));
      return h.err, newLen;
    }
    ghost var xs, ys := key.items, key.items[1].items;
    ghost var head, tail := [OPEN] + Encode(xs[0]) + [OPEN] + Encode(ys[0]), EncodeAll(xs[2..]) + [CLOSE];
    KeyBytes(xs, ys);
    HoldsParts(b, 0, buflen, head, Tail(ys[1..], tail));
    err, newLen := FixupParams(buf, buflen, h.at, ys[1..], tail);
    FixedKeyBytes(b, buf[..], buflen, newLen, xs, ys, FixParams(ys[1..], []).params);
  }

  lemma FixedKeyBytes(b: bytes, b': bytes, end: nat, newEnd: nat, xs: seq<Sexp>, ys: seq<Sexp>, params: seq<Sexp>)
    requires |xs| >= 2 && xs[1] == List(ys) && ys != []
    requires Holds(b, 0, end, Encode(List(xs)))
    requires Rewritten(b, b', |[OPEN] + Encode(xs[0]) + [OPEN] + Encode(ys[0])|, end, newEnd,
                       Tail(params, EncodeAll(xs[2..]) + [CLOSE]))
    ensures Rewritten(b, b', 0, end, newEnd, Encode(List([xs[0], List([ys[0]] + params)] + xs[2..])))
  {
    var ys' := [ys[0]] + params;
    var xs' := [xs[0], List(ys')] + xs[2..];
    assert xs'[2..] == xs[2..] && ys'[1..] == params;
    hide Encode, EncodeAll, Tail, Rewritten;
    KeyBytes(xs, ys);
    KeyBytes(xs', ys');
    NotRewritten(b, 0, end, Encode(List(xs)));
    var head, tail := [OPEN] + Encode(xs[0]) + [OPEN] + Encode(ys[0]), EncodeAll(xs[2..]) + [CLOSE];
    RewrittenTwice(b, b, b', 0, end, end, newEnd, head, Tail(ys[1..], tail), Tail(params, tail));
  }
}
