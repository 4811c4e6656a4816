/** The open sshcontrol file and the procedures that read it line by line and append to it. */
module SshControlFile {
  import opened Wrappers
  import opened Bytes
  import opened SshControlFormat

  // ----- The loops of the line parser, over a position in the line -----

  method SkipBlanksAt(line: bytes, start: nat) returns (p: nat)
    requires start <= |line|
    ensures start <= p <= |line| && line[p..] == SkipBlanks(line[start..])
  {
    hide SkipBlanks;
    p := start;
    while p < |line| && Blank(line[p])
      invariant start <= p <= |line| && SkipBlanks(line[p..]) == SkipBlanks(line[start..])
    {
      SkipBlanksStep(line[p..]);
      assert line[p..][1..] == line[p + 1..];
      p := p + 1;
    }
    SkipBlanksStep(line[p..]);
  }

  lemma SkipBlanksStep(s: bytes)
    ensures SkipBlanks(s) == if s != [] && Blank(s[0]) then SkipBlanks(s[1..]) else s
  {
  }

  lemma HexRunStep(s: bytes, max: nat)
    ensures HexRun(s, max) == if max > 0 && s != [] && HexDigit(s[0]) then 1 + HexRun(s[1..], max - 1) else 0
  {
  }

  lemma UpperAllStep(s: bytes, c: byte)
    requires HexDigit(c) && forall i :: 0 <= i < |s| ==> HexDigit(s[i])
    ensures UpperAll(s + [c]) == UpperAll(s) + [Upper(c)]
  {
  }

  /** Reads at most 40 hexadecimal digits and converts them to upper case. */
  method ReadGrip(line: bytes, start: nat) returns (p: nat, hexgrip: bytes)
    requires start <= |line|
    ensures p == start + HexRun(line[start..], 40) <= |line|
    ensures (forall j :: 0 <= j < |line[start..p]| ==> HexDigit(line[start..p][j])) && hexgrip == UpperAll(line[start..p])
  {
    hide UpperAll, HexRun, HexDigit, Upper;
    p, hexgrip := start, [];
    var i := 0;
    ghost var done: bytes := [];
    assert line[start..start] == done;
    while p < |line| && HexDigit(line[p]) && i < 40
      invariant p == start + i <= |line| && i <= 40 && done == line[start..p]
      invariant (forall j :: 0 <= j < |done| ==> HexDigit(done[j])) && hexgrip == UpperAll(done)
      invariant HexRun(line[start..], 40) == i + HexRun(line[p..], 40 - i)
    {
      assert line[start..p + 1] == line[start..p] + [line[p]] && line[p..][1..] == line[p + 1..];
      HexRunStep(line[p..], 40 - i);
      UpperAllStep(done, line[p]);
      hexgrip := hexgrip + [Upper(line[p])];
      done := done + [line[p]];
      p, i := p + 1, i + 1;
    }
    HexRunStep(line[p..], 40 - i);
  }

  method ReadWord(line: bytes, start: nat) returns (n: nat)
    requires start <= |line|
    ensures n == WordLength(line[start..])
  {
    n := 0;
    while start + n < |line| && !EndsWord(line[start + n])
      invariant start + n <= |line| && WordLength(line[start..]) == n + WordLength(line[start + n..])
    {
      assert line[start + n..][1..] == line[start + n + 1..];
      n := n + 1;
    }
  }

  /** The loop over the flags; every round moves on. */
  method ReadFlags(line: bytes, start: nat) returns (confirm: bool)
    requires start <= |line|
    ensures confirm == Confirms(line[start..])
  {
    hide SkipBlanks, WordLength, Confirms;
    var p := start;
    confirm := false;
    while p < |line|
      invariant start <= p <= |line| && Confirms(line[start..]) == (confirm || Confirms(line[p..]))
      decreases |line| - p
    {
      ghost var from := line[p..];
      p := SkipBlanksAt(line, p);
      if p == |line| || line[p] == '\n' {
        NothingConfirms(from);
        return;
      }
      var n := ReadWord(line, p);
      FlagsStep(from, line[p..]);
      Slices(line, p, n);
      if p + n < |line| && line[p + n] == '=' {
        p := p + 1;
      } else if line[p..p + n] == CONFIRM {
        confirm := true;
      }
      p := p + n;
    }
    assert line[p..] == [];
    NoBlanks();
    NothingConfirms([]);
  }

  lemma NoBlanks()
    ensures SkipBlanks([]) == []
  {
  }

  lemma Slices(line: bytes, p: nat, n: nat)
    requires p + n <= |line|
    ensures line[p..p + n] == line[p..][..n] && line[p..][n..] == line[p + n..]
    ensures p + n < |line| ==> line[p..][n + 1..] == line[p + n + 1..] && line[p..][n] == line[p + n]
  {
  }

  lemma NothingConfirms(s: bytes)
    requires SkipBlanks(s) == [] || SkipBlanks(s)[0] == '\n'
    ensures !Confirms(s)
  {
  }

  lemma FlagsStep(s: bytes, t: bytes)
    requires t == SkipBlanks(s) && t != [] && t[0] != '\n'
    ensures var n := WordLength(t);
            && (n > 0 || t[0] == '=')
            && Confirms(s) == if n < |t| && t[n] == '=' then Confirms(t[n + 1..]) else t[..n] == CONFIRM || Confirms(t[n..])
  {
    hide SkipBlanks;
  }

  method ParseRestAt(line: bytes, start: nat, disabled: bool) returns (item: Option<Item>)
    requires start <= |line|
    ensures item == ParseRest(disabled, line[start..])
  {
    hide HexRun, UpperAll, Strtol, Confirms, ToInt;
    var s := line[start..];
    var p, hexgrip := ReadGrip(line, start);
    Slices(line, start, p - start);
    if p - start != 40 || !EndsField(line[p..]) {
      return None;
    }
    var ttl := Strtol(line[p..]);
    var confirm := ReadFlags(ttl.rest, 0);
    assert ttl.rest[0..] == ttl.rest;
    return Some(Item(hexgrip, ToInt(ttl.value), confirm, disabled));
  }

  method ParseLineAt(line: bytes) returns (item: Option<Item>)
    ensures item == ParseLine(line)
  {
    hide SkipBlanks, ParseRest;
    var p := SkipBlanksAt(line, 0);
    assert line[0..] == line;
    if p < |line| && line[p] == '!' {
      assert line[p..][1..] == line[p + 1..];
      p := SkipBlanksAt(line, p + 1);
      item := ParseRestAt(line, p, true);
    } else {
      item := ParseRestAt(line, p, false);
    }
  }

  /** What reading an entry comes to once a line has been read. */
  ghost function AfterLine(line: bytes, skip: bool, err: Option<Code>, rest: bytes, lnr: nat): Read {
    if err.Some? then Failed(err.value)
    else if skip then ReadItem(rest, lnr)
    else if ParseLine(line) == None then Failed(BadData)
    else Found(ParseLine(line).value, rest, lnr)
  }

  lemma AfterBadLine(line: bytes, skip: bool, code: Code, rest: bytes, lnr: nat)
    ensures AfterLine(line, skip, Some(code), rest, lnr) == Failed(code)
  {
  }

  /** What the checks at the start of a line come to; `skip` says that it is empty or a comment. */
  method Classify(line: bytes, ghost rest: bytes, ghost lnr: nat) returns (skip: bool, err: Option<Code>)
    ensures AfterLine(line, skip, err, rest, lnr) == LineMeans(line, rest, lnr)
  {
    hide ReadItem, ParseLine, Skippable, SkipBlanks;
    skip, err := false, None;
    if line == [] || line[|line| - 1] != '\n' {
      err := Some(if line == [] then IncompleteLine else LineTooLong);
    } else {
      var p := SkipBlanksAt(line, 0);
      SkippableIs(line, p);
      skip := p == |line| || line[p] == '\n' || line[p] == '#';
    }
  }

  ghost function LineMeans(line: bytes, rest: bytes, lnr: nat): Read {
    if line == [] then Failed(IncompleteLine)
    else if line[|line| - 1] != '\n' then Failed(LineTooLong)
    else if Skippable(line) then ReadItem(rest, lnr)
    else if ParseLine(line) == None then Failed(BadData)
    else Found(ParseLine(line).value, rest, lnr)
  }

  class ControlFile {
    var file: bytes
    var pos: nat
    var lnr: nat
    var item: Item
    var valid: bool

    constructor (contents: bytes)
      ensures file == contents && pos == 0 && lnr == 0 && !valid
    {
      file, pos, lnr, valid := contents, 0, 0, false;
      item := Item([], 0, false, false);
    }

    /** What is left to read. */
    ghost function Rest(): bytes
      reads this`file, this`pos
      requires pos <= |file|
    {
      file[pos..]
    }

    method Rewind()
      modifies this`pos, this`lnr
      ensures pos == 0 && lnr == 0
    {
      pos, lnr := 0, 0;
    }

    /** `es_fgets` with the buffer of the source; the result is a C string. */
    method Fgets() returns (line: bytes)
      requires pos < |file|
      modifies this`pos
      ensures pos <= |file| && line == CString(FirstLine(old(Rest())))
      ensures pos > old(pos) && Rest() == old(Rest())[LineLength(old(Rest()), MAX_LINE)..]
    {
      hide CString;
      var n := LineLength(file[pos..], MAX_LINE);
      line := CString(file[pos..][..n]);
      assert file[pos..][n..] == file[pos + n..];
      pos := pos + n;
    }

    method EatLine()
      requires pos <= |file|
      modifies this`pos
      ensures old(pos) <= pos <= |file|
    {
      while pos < |file| && file[pos] != '\n'
        invariant old(pos) <= pos <= |file|
      {
        pos := pos + 1;
      }
      if pos < |file| {
        pos := pos + 1;
      }
    }

    /** One round of the loop over lines. */
    method TakeLine() returns (line: bytes, skip: bool, err: Option<Code>)
      requires pos < |file|
      modifies this`pos, this`lnr
      ensures old(pos) < pos <= |file|
      ensures ReadItem(old(Rest()), old(lnr)) == AfterLine(line, skip, err, Rest(), lnr)
    {
      hide ReadItem, LineLength, CString, FirstLine, AfterLine, SkipBlanks;
      ReadStep(Rest(), lnr);
      line := Fgets();
      lnr := lnr + 1;
      skip, err := Classify(line, Rest(), lnr);
      if err.Some? {
        AfterBadLine(line, skip, err.value, Rest(), lnr);
        EatLine();
        AfterBadLine(line, skip, err.value, Rest(), lnr);
      }
    }

    /** The loop over lines up to the next one that is neither empty nor a comment. */
    method NextLine() returns (line: bytes, err: Option<Code>)
      requires pos <= |file|
      modifies this`pos, this`lnr
      ensures pos <= |file|
      ensures ReadItem(old(Rest()), old(lnr)) == AfterLine(line, false, err, Rest(), lnr)
      ensures err == None ==> pos > old(pos)
    {
      hide ReadItem, ParseLine;
      ghost var all, number := Rest(), lnr;
      line, err := [], None;
      var skip := true;
      while skip
        invariant old(pos) <= pos <= |file|
        invariant skip ==> ReadItem(Rest(), lnr) == ReadItem(all, number)
        invariant !skip ==> AfterLine(line, false, err, Rest(), lnr) == ReadItem(all, number) && pos > old(pos)
        decreases skip, |file| - pos
      {
        if pos == |file| {
          assert Rest() == [];
          ReadNothing(lnr);
          return line, Some(Eof);
        }
        line, skip, err := TakeLine();
        skip := skip && err == None;
      }
    }

    method ReadControlFileItem() returns (err: Option<Code>)
      requires pos <= |file|
      modifies this`pos, this`lnr, this`item, this`valid
      ensures pos <= |file|
      ensures ReadItem(old(Rest()), old(lnr)) == if err.Some? then Failed(err.value) else Found(item, Rest(), lnr)
      ensures err == None ==> valid && pos > old(pos)
    {
      hide ReadItem, ParseLine;
      valid := false;
      var line;
      line, err := NextLine();
      if err.Some? {
        return;
      }
      var parsed := ParseLineAt(line);
      if parsed == None {
        return Some(BadData);
      }
      item, valid := parsed.value, true;
      return None;
    }

    /** The values of the first entry for the keygrip, as they stand in the file. */
    method SearchControlFile(hexgrip: bytes)
      returns (err: Option<Code>, disabled: bool, ttl: int, confirm: bool, line: int)
      modifies this`pos, this`lnr, this`item, this`valid
      ensures err.Some? ==> Search(file, hexgrip, 0) == Failed(err.value)
      ensures err.Some? ==> !disabled && ttl == 0 && !confirm && line == -1
      ensures err == None ==>
                var r := Search(file, hexgrip, 0);
                && r.Found? && r.item == Item(hexgrip, ttl, confirm, disabled) && line == r.lnr
    {
      hide ReadItem, Search;
      disabled, ttl, confirm, line := false, 0, false, -1;
      Rewind();
      ghost var all := Search(file, hexgrip, 0);
      assert file[0..] == file;
      while true
        invariant pos <= |file| && Search(Rest(), hexgrip, lnr) == all
        decreases |file| - pos
      {
        SearchStep(Rest(), hexgrip, lnr);
        err := ReadControlFileItem();
        if err.Some? || item.hexgrip == hexgrip {
          break;
        }
      }
      if err == None {
        disabled, ttl, confirm, line := item.disabled, item.ttl, item.confirm, lnr;
      }
    }

    method AddControlEntry(e: Entry)
      modifies this
      ensures file == Added(old(file), e)
    {
      hide Search, Text;
      var err, disabled, ttl, confirm, line := SearchControlFile(e.hexgrip);
      if err == Some(Eof) && e.sha256.Some? {
        file := file + Text(e);
      }
    }
  }

  lemma SearchStep(file: bytes, hexgrip: bytes, lnr: nat)
    ensures var r := ReadItem(file, lnr);
            Search(file, hexgrip, lnr) == if r.Found? && r.item.hexgrip != hexgrip then Search(r.rest, hexgrip, r.lnr) else r
  {
    hide ReadItem;
  }

  lemma ReadStep(file: bytes, lnr: nat)
    requires file != []
    ensures ReadItem(file, lnr) == LineMeans(CString(FirstLine(file)), file[LineLength(file, MAX_LINE)..], lnr + 1)
  {
    hide LineLength, CString, Skippable, ParseLine;
  }

  lemma SkippableIs(line: bytes, p: nat)
    requires p <= |line| && line[p..] == SkipBlanks(line[0..])
    ensures Skippable(line) <==> p == |line| || line[p] == '\n' || line[p] == '#'
  {
    assert line[0..] == line;
    hide SkipBlanks;
  }
}
