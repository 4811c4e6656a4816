/**
 The sshcontrol file: one key per line, given by its keygrip, a caching time and flags.  This module
 says what a file means and how an entry is added to it.
 */
module SshControlFormat {
  import opened Wrappers
  import opened Bytes

  datatype Item = Item(hexgrip: bytes, ttl: int, confirm: bool, disabled: bool)

  datatype Code = Eof | LineTooLong | IncompleteLine | BadData

  /** The longest line that is read, with its newline. */
  const MAX_LINE := 254

  predicate Blank(c: byte) {
    c == ' ' || c == '\t'
  }

  function SkipBlanks(s: bytes): (r: bytes)
    ensures |r| <= |s| && r == s[|s| - |r|..]
    ensures r != [] ==> !Blank(r[0])
  {
    if s != [] && Blank(s[0]) then SkipBlanks(s[1..]) else s
  }

  // ----- strtol -----

  predicate Space(c: byte) {
    c == ' ' || '\t' <= c <= '\r'
  }

  function SkipSpaces(s: bytes): (r: bytes)
    ensures |r| <= |s|
  {
    if s != [] && Space(s[0]) then SkipSpaces(s[1..]) else s
  }

  function DigitRun(s: bytes): (n: nat)
    ensures n <= |s| && AllDigits(s[..n])
    ensures n < |s| ==> !IsDigit(s[n])
  {
    if s != [] && IsDigit(s[0]) then
      assert s[..1 + DigitRun(s[1..])] == [s[0]] + s[1..][..DigitRun(s[1..])];
      1 + DigitRun(s[1..])
    else 0
  }

  const LONG_MAX := 0x7fff_ffff_ffff_ffff

  function Clamped(n: int): int {
    if n > LONG_MAX then LONG_MAX else if n < -LONG_MAX - 1 then -LONG_MAX - 1 else n
  }

  datatype Long = Long(value: int, rest: bytes)

  /** Without digits the value is zero and nothing is consumed. */
  function Strtol(s: bytes): (r: Long)
    ensures |r.rest| <= |s|
  {
    var t := SkipSpaces(s);
    var signed := t != [] && (t[0] == '-' || t[0] == '+');
    var u := if signed then t[1..] else t;
    var n := DigitRun(u);
    if n == 0 then Long(0, s)
    else
      var v: int := DecimalValue(u[..n]);
      Long(Clamped(if signed && t[0] == '-' then -v else v), u[n..])
  }

  /** The conversion from `long` to `int`. */
  function ToInt(n: int): int {
    (n + 0x8000_0000) % 0x1_0000_0000 - 0x8000_0000
  }

  // ----- One line -----

  predicate HexDigit(c: byte) {
    IsDigit(c) || 'A' <= c <= 'F' || 'a' <= c <= 'f'
  }

  function Upper(c: byte): byte
    requires HexDigit(c)
  {
    if c >= 'a' then (c as int - 32) as char else c
  }

  function HexRun(s: bytes, max: nat): (n: nat)
    ensures n <= |s| && n <= max && forall i :: 0 <= i < n ==> HexDigit(s[i])
    ensures n < max && n < |s| ==> !HexDigit(s[n])
    decreases max
  {
    if max > 0 && s != [] && HexDigit(s[0]) then 1 + HexRun(s[1..], max - 1) else 0
  }

  function UpperAll(s: bytes): (r: bytes)
    requires forall i :: 0 <= i < |s| ==> HexDigit(s[i])
    ensures |r| == |s|
  {
    seq(|s|, i requires 0 <= i < |s| => Upper(s[i]))
  }

  predicate EndsWord(c: byte) {
    c == '=' || c == ' ' || c == '\t' || c == '\n'
  }

  function WordLength(s: bytes): (n: nat)
    ensures n <= |s| && forall i :: 0 <= i < n ==> !EndsWord(s[i])
    ensures n < |s| ==> EndsWord(s[n])
  {
    if s != [] && !EndsWord(s[0]) then 1 + WordLength(s[1..]) else 0
  }

  /** Whether one of the flags is "confirm"; a flag with a value is ignored, but its value is a flag. */
  function Confirms(s: bytes): bool
    decreases |s|
  {
    var t := SkipBlanks(s);
    if t == [] || t[0] == '\n' then false
    else
      var n := WordLength(t);
      if n < |t| && t[n] == '=' then Confirms(t[n + 1..])
      else t[..n] == CONFIRM || Confirms(t[n..])
  }

  predicate Skippable(line: bytes) {
    var t := SkipBlanks(line);
    t == [] || t[0] == '\n' || t[0] == '#'
  }

  predicate EndsField(s: bytes) {
    s != [] && (Blank(s[0]) || s[0] == '\n')
  }

  /** The caching time is used even if it is reported as invalid. */
  function ParseRest(disabled: bool, s: bytes): Option<Item> {
    var n := HexRun(s, 40);
    if n != 40 || !EndsField(s[40..]) then None
    else
      var ttl := Strtol(s[40..]);
      Some(Item(UpperAll(s[..40]), ToInt(ttl.value), Confirms(ttl.rest), disabled))
  }

  function ParseLine(line: bytes): Option<Item> {
    var t := SkipBlanks(line);
    if t != [] && t[0] == '!' then ParseRest(true, SkipBlanks(t[1..])) else ParseRest(false, t)
  }

  // ----- The file -----

  /** How many octets of the file the next call of fgets takes. */
  function LineLength(s: bytes, max: nat): (n: nat)
    ensures n <= |s| && n <= max && (s != [] && max > 0 ==> n > 0)
    decreases max
  {
    if s == [] || max == 0 then 0
    else if s[0] == '\n' then 1
    else 1 + LineLength(s[1..], max - 1)
  }

  datatype Read = Found(item: Item, rest: bytes, lnr: nat) | Failed(code: Code)

  /** The next entry, the file behind it and the number of its line. */
  function ReadItem(file: bytes, lnr: nat): Read
    decreases |file|
  {
    if file == [] then Failed(Eof)
    else
      var n := LineLength(file, MAX_LINE);
      var line := CString(file[..n]);
      if line == [] then Failed(IncompleteLine)
      else if line[|line| - 1] != '\n' then Failed(LineTooLong)
      else if Skippable(line) then ReadItem(file[n..], lnr + 1)
      else
        match ParseLine(line)
        case None => Failed(BadData)
        case Some(item) => Found(item, file[n..], lnr + 1)
  }

  lemma {:induction false} ReadItemAdvances(file: bytes, lnr: nat)
    ensures ReadItem(file, lnr).Found? ==> |ReadItem(file, lnr).rest| < |file|
    decreases |file|
  {
    if file != [] {
      ReadItemAdvances(file[LineLength(file, MAX_LINE)..], lnr + 1);
    }
  }

  /** The entries of a well-formed file, which can be read to its end. */
  function Entries(file: bytes): Option<seq<Item>>
    decreases |file|
  {
    ReadItemAdvances(file, 0);
    match ReadItem(file, 0)
    case Failed(code) => if code == Eof then Some([]) else None
    case Found(item, rest, _) =>
      match Entries(rest)
      case None => None
      case Some(items) => Some([item] + items)
  }

  /** Searching stops at the first matching entry or at the first line that cannot be read. */
  function Search(file: bytes, hexgrip: bytes, lnr: nat): Read
    decreases |file|
  {
    ReadItemAdvances(file, lnr);
    var r := ReadItem(file, lnr);
    if r.Found? && r.item.hexgrip != hexgrip then Search(r.rest, hexgrip, r.lnr) else r
  }

  function PrintInt(n: int): bytes {
    if n < 0 then "-" + Decimal(-n) else Decimal(n)
  }

  /** What is known about a key that is added: comments, keygrip, caching time and flag. */
  datatype Entry = Entry(stamp: bytes, md5: Option<bytes>, sha256: Option<bytes>, hexgrip: bytes, ttl: int, confirm: bool)

  const CONFIRM: bytes := "confirm"

  function Flags(confirm: bool): bytes {
    if confirm then " " + (CONFIRM + "\n") else "\n"
  }

  function EntryLine(e: Entry): bytes {
    e.hexgrip + (" " + (PrintInt(e.ttl) + Flags(e.confirm)))
  }

  function Comment(intro: bytes, text: bytes): bytes {
    "#" + intro + text + "\n"
  }

  const FINGERPRINTS: bytes := " Fingerprints:  "
  const INDENT: bytes := "                "

  function Text(e: Entry): bytes
    requires e.sha256.Some?
  {
    Comment(" ", e.stamp)
    + (Comment(FINGERPRINTS, if e.md5.Some? then e.md5.value else [])
       + (Comment(INDENT, e.sha256.value) + EntryLine(e)))
  }

  /**
   `add_control_entry`: nothing is added to a file that cannot be read to its end, nor for a key
   without a fingerprint.
   */
  function Added(file: bytes, e: Entry): bytes {
    if e.sha256.Some? && Search(file, e.hexgrip, 0) == Failed(Eof) then file + Text(e) else file
  }

  // ----- Reading a line of a file -----

  /** A text that fgets reads as one line: one newline, at its end. */
  ghost predicate IsLine(line: bytes) {
    && 0 < |line| <= MAX_LINE && line[|line| - 1] == '\n'
    && forall i :: 0 <= i < |line| ==> line[i] != NUL && (line[i] == '\n' ==> i == |line| - 1)
  }

  lemma {:induction false} LineLengthIs(line: bytes, rest: bytes, max: nat)
    requires 0 < |line| <= max && line[|line| - 1] == '\n'
    requires forall i :: 0 <= i < |line| && line[i] == '\n' ==> i == |line| - 1
    ensures LineLength(line + rest, max) == |line|
    decreases max
  {
    if line[0] != '\n' {
      assert (line + rest)[1..] == line[1..] + rest;
      LineLengthIs(line[1..], rest, max - 1);
    }
  }

  /** What is read is either a line or cannot be used. */
  lemma {:induction false} OneNewline(s: bytes, max: nat)
    ensures forall i :: 0 <= i < LineLength(s, max) && s[i] == '\n' ==> i == LineLength(s, max) - 1
    decreases max
  {
    if s != [] && max > 0 && s[0] != '\n' {
      OneNewline(s[1..], max - 1);
      assert forall i :: 0 < i < LineLength(s, max) ==> s[i] == s[1..][i - 1];
    }
  }

  ghost function FirstLine(file: bytes): bytes {
    file[..LineLength(file, MAX_LINE)]
  }

  lemma GoodLine(file: bytes)
    requires file != []
    ensures CString(FirstLine(file)) != [] && CString(FirstLine(file))[|CString(FirstLine(file))| - 1] == '\n'
            <==> IsLine(FirstLine(file))
    ensures IsLine(FirstLine(file)) ==> CString(FirstLine(file)) == FirstLine(file)
  {
    var line := FirstLine(file);
    var c := CString(line);
    OneNewline(file, MAX_LINE);
    if IsLine(line) {
      CStringIsAll(line);
    }
    hide LineLength, CString;
    if c != [] && c[|c| - 1] == '\n' {
      assert c <= line && line[|c| - 1] == '\n';
      assert |c| == |line|;
      assert c == line;
      assert forall i :: 0 <= i < |line| ==> line[i] in c;
    }
  }

  /** Reading a file that starts with a line. */
  lemma ReadLine(line: bytes, rest: bytes, lnr: nat)
    requires IsLine(line)
    ensures ReadItem(line + rest, lnr) ==
            if Skippable(line) then ReadItem(rest, lnr + 1)
            else if ParseLine(line) == None then Failed(BadData)
            else Found(ParseLine(line).value, rest, lnr + 1)
  {
    LineLengthIs(line, rest, MAX_LINE);
    CStringIsAll(line);
    assert (line + rest)[..|line|] == line && (line + rest)[|line|..] == rest;
    hide Skippable, ParseLine, LineLength, CString;
  }

  /** A file is empty, or starts with a line, or cannot be read. */
  lemma ReadCases(file: bytes, lnr: nat)
    requires file != [] && !IsLine(FirstLine(file))
    ensures ReadItem(file, lnr).Failed? && ReadItem(file, lnr).code != Eof
  {
    hide Skippable, ParseLine, LineLength, CString, IsLine;
    GoodLine(file);
  }

  lemma FailureLnr(file: bytes, lnr: nat, other: nat)
    requires file != [] && !IsLine(FirstLine(file))
    ensures ReadItem(file, lnr) == ReadItem(file, other)
  {
    hide Skippable, ParseLine, LineLength, CString, IsLine;
    GoodLine(file);
  }

  ghost predicate SameButLnr(r: Read, s: Read) {
    if r.Found? && s.Found? then r.item == s.item && r.rest == s.rest else r == s
  }

  lemma {:induction false} ReadItemLnr(file: bytes, lnr: nat, other: nat)
    ensures SameButLnr(ReadItem(file, lnr), ReadItem(file, other))
    decreases |file|
  {
    hide ReadItem, Skippable, ParseLine, IsLine, FirstLine;
    var line := FirstLine(file);
    FirstLineIsPrefix(file);
    if file == [] {
      ReadNothing(lnr);
      ReadNothing(other);
    } else if IsLine(line) {
      var rest := file[|line|..];
      assert file == line + rest;
      ReadLine(line, rest, lnr);
      ReadLine(line, rest, other);
      ReadItemLnr(rest, lnr + 1, other + 1);
    } else {
      FailureLnr(file, lnr, other);
    }
  }

  lemma ReadNothing(lnr: nat)
    ensures ReadItem([], lnr) == Failed(Eof)
  {
  }

  // ----- Appending to a well-formed file -----

  function Joined(a: Option<seq<Item>>, b: Option<seq<Item>>): Option<seq<Item>> {
    if a == None || b == None then None else Some(a.value + b.value)
  }

  /** The entries of a well-formed file with more behind it are its own and those that follow. */
  lemma {:induction false} EntriesOfAppended(file: bytes, more: bytes)
    requires Entries(file).Some?
    ensures Entries(file + more) == Joined(Entries(file), Entries(more))
    decreases |file|
  {
    hide Entries, IsLine, FirstLine, Skippable, ParseLine, Joined;
    if file == [] {
      EntriesOfNothing();
      assert file + more == more;
      JoinedNothing(Entries(more));
    } else {
      var line := FirstLine(file);
      EntriesStartWithLine(file);
      var rest := file[|line|..];
      assert file == line + rest;
      ConcatAssociative(line, rest, more);
      EntriesLine(line, rest);
      EntriesLine(line, rest + more);
      EntriesOfAppended(rest, more);
      if !Skippable(line) {
        JoinedFirst(ParseLine(line).value, Entries(rest), Entries(more));
      }
    }
  }

  lemma EntriesOfNothing()
    ensures Entries([]) == Some([])
  {
  }

  lemma JoinedNothing(a: Option<seq<Item>>)
    ensures Joined(Some([]), a) == a
  {
    if a.Some? {
      assert [] + a.value == a.value;
    }
  }

  function Prefixed(item: Item, a: Option<seq<Item>>): Option<seq<Item>> {
    if a == None then None else Some([item] + a.value)
  }

  lemma JoinedFirst(item: Item, a: Option<seq<Item>>, b: Option<seq<Item>>)
    ensures Joined(Prefixed(item, a), b) == Prefixed(item, Joined(a, b))
  {
    if a.Some? && b.Some? {
      assert [item] + a.value + b.value == [item] + (a.value + b.value);
    }
  }

  lemma EntriesStartWithLine(file: bytes)
    requires file != [] && Entries(file).Some?
    ensures IsLine(FirstLine(file)) && FirstLine(file) <= file && FirstLine(file) != []
  {
    hide ReadItem, IsLine, FirstLine;
    if !IsLine(FirstLine(file)) {
      ReadCases(file, 0);
    }
    FirstLineIsPrefix(file);
  }

  lemma FirstLineIsPrefix(file: bytes)
    ensures FirstLine(file) <= file && (IsLine(FirstLine(file)) ==> FirstLine(file) != [])
  {
  }

  lemma EntriesLine(line: bytes, rest: bytes)
    requires IsLine(line)
    ensures Entries(line + rest) ==
            if Skippable(line) then Entries(rest)
            else if ParseLine(line) == None then None
            else Prefixed(ParseLine(line).value, Entries(rest))
  {
    hide ReadItem, Skippable, ParseLine, IsLine;
    ReadLine(line, rest, 0);
    ReadItemLnr(rest, 0, 1);
  }

  // ----- Reading what was printed -----

  predicate PlainText(s: bytes) {
    NUL !in s && '\n' !in s
  }

  predicate UpperHex(c: byte) {
    IsDigit(c) || 'A' <= c <= 'F'
  }

  /** A keygrip in upper case, a C integer, and comments that fit on a line. */
  ghost predicate ValidEntry(e: Entry) {
    && |e.hexgrip| == 40 && (forall i :: 0 <= i < 40 ==> UpperHex(e.hexgrip[i]))
    && -0x8000_0000 <= e.ttl < 0x8000_0000
    && PlainText(e.stamp) && |e.stamp| <= 230
    && (e.md5.Some? ==> PlainText(e.md5.value) && |e.md5.value| <= 230)
    && (e.sha256.Some? ==> PlainText(e.sha256.value) && |e.sha256.value| <= 230)
  }

  function ItemOf(e: Entry): Item {
    Item(e.hexgrip, e.ttl, e.confirm, false)
  }

  lemma {:induction false} DigitRunIs(d: bytes, tail: bytes)
    requires AllDigits(d) && (tail == [] || !IsDigit(tail[0]))
    ensures DigitRun(d + tail) == |d|
  {
    if d != [] {
      assert (d + tail)[1..] == d[1..] + tail;
      DigitRunIs(d[1..], tail);
    } else {
      assert d + tail == tail;
    }
  }

  /** What is read from a sign, digits and something else. */
  lemma StrtolIs(s: bytes, u: bytes, n: nat, negative: bool)
    requires SkipSpaces(s) == (if negative then "-" + u else u) && u != [] && IsDigit(u[0])
    requires n == DigitRun(u) && n > 0
    ensures var v: int := DecimalValue(u[..n]);
            Strtol(s) == Long(Clamped(if negative then -v else v), u[n..])
  {
    assert ("-" + u)[1..] == u;
    hide DecimalValue, DigitRun, SkipSpaces, Clamped;
  }

  lemma SkipOneSpace(t: bytes)
    requires t != [] && !Space(t[0])
    ensures SkipSpaces(" " + t) == t
  {
    assert (" " + t)[1..] == t;
  }

  lemma PrintedParts(n: int, tail: bytes)
    ensures var d := Decimal(if n < 0 then -n else n);
            var t := PrintInt(n) + tail;
            && t == (if n < 0 then "-" + (d + tail) else d + tail) && t != [] && !Space(t[0])
            && (d + tail)[..|d|] == d && (d + tail)[|d|..] == tail && IsDigit((d + tail)[0])
  {
    hide Decimal;
    var d := Decimal(if n < 0 then -n else n);
    ConcatAssociative("-", d, tail);
    assert IsDigit(d[0]);
  }

  /** Reading a printed integer gives it back. */
  lemma StrtolOfPrinted(n: int, tail: bytes)
    requires -0x8000_0000 <= n < 0x8000_0000 && (tail == [] || !IsDigit(tail[0]))
    ensures Strtol(" " + (PrintInt(n) + tail)) == Long(n, tail) && ToInt(n) == n
  {
    hide DecimalValue, Decimal, DigitRun, SkipSpaces, Strtol, PrintInt;
    var m := if n < 0 then -n else n;
    var d := Decimal(m);
    PrintedParts(n, tail);
    DecimalRoundTrip(m);
    DigitRunIs(d, tail);
    SkipOneSpace(PrintInt(n) + tail);
    StrtolIs(" " + (PrintInt(n) + tail), d + tail, |d|, n < 0);
  }

  lemma {:induction false} HexRunIs(grip: bytes, tail: bytes)
    requires forall i :: 0 <= i < |grip| ==> HexDigit(grip[i])
    ensures HexRun(grip + tail, |grip|) == |grip|
  {
    if grip != [] {
      assert (grip + tail)[1..] == grip[1..] + tail;
      HexRunIs(grip[1..], tail);
    }
  }

  /** A last flag at the end of the line. */
  lemma ConfirmsLast(s: bytes, word: bytes)
    requires word != [] && (forall i :: 0 <= i < |word| ==> !EndsWord(word[i])) && SkipBlanks(s) == word + "\n"
    ensures Confirms(s) == (word == CONFIRM)
  {
    var t: bytes := word + "\n";
    WordLengthIs(word, "\n");
    assert t[..|word|] == word && t[|word|..] == "\n" && t[|word|] == '\n' && t[0] == word[0];
    NoFlags();
    hide WordLength, SkipBlanks;
  }

  lemma NoFlags()
    ensures !Confirms("\n")
  {
  }

  lemma {:induction false} WordLengthIs(word: bytes, tail: bytes)
    requires (forall i :: 0 <= i < |word| ==> !EndsWord(word[i])) && tail != [] && EndsWord(tail[0])
    ensures WordLength(word + tail) == |word|
  {
    if word != [] {
      assert (word + tail)[1..] == word[1..] + tail;
      WordLengthIs(word[1..], tail);
    } else {
      assert word + tail == tail;
    }
  }

  lemma EntryLineParts(e: Entry)
    requires ValidEntry(e)
    ensures var line, tail := EntryLine(e), " " + (PrintInt(e.ttl) + Flags(e.confirm));
            && line == e.hexgrip + tail && |line| > 40 && line[..40] == e.hexgrip && line[40..] == tail
            && UpperHex(line[0]) && EndsField(tail)
  {
    hide PrintInt, Flags;
    assert e.hexgrip[0] == EntryLine(e)[0];
  }

  lemma UpperAllOfUpper(s: bytes)
    requires forall i :: 0 <= i < |s| ==> UpperHex(s[i])
    ensures (forall i :: 0 <= i < |s| ==> HexDigit(s[i])) && UpperAll(s) == s
  {
  }

  lemma SkipsNothing(s: bytes)
    requires s != [] && !Blank(s[0])
    ensures SkipBlanks(s) == s
  {
  }

  lemma NoBlankInFront(s: bytes)
    requires s != [] && UpperHex(s[0])
    ensures SkipBlanks(s) == s && !Skippable(s) && s[0] != '!'
  {
    hide SkipBlanks;
    SkipsNothing(s);
  }

  lemma FlagsEndNumber(confirm: bool)
    ensures Flags(confirm) != [] && !IsDigit(Flags(confirm)[0])
  {
  }

  lemma ParseRestIs(disabled: bool, grip: bytes, tail: bytes, ttl: Long)
    requires |grip| == 40 && HexRun(grip + tail, 40) == 40 && EndsField(tail) && Strtol(tail) == ttl
    requires forall i :: 0 <= i < 40 ==> HexDigit(grip[i])
    ensures ParseRest(disabled, grip + tail) == Some(Item(UpperAll(grip), ToInt(ttl.value), Confirms(ttl.rest), disabled))
  {
    hide HexRun, Strtol, Confirms, UpperAll, ToInt, EndsField;
    assert (grip + tail)[..40] == grip && (grip + tail)[40..] == tail;
  }

  /** The line that is written for an entry is read as that entry. */
  lemma EntryParses(e: Entry)
    requires ValidEntry(e)
    ensures !Skippable(EntryLine(e)) && ParseLine(EntryLine(e)) == Some(ItemOf(e))
  {
    assert forall i :: 0 <= i < |e.hexgrip| ==> UpperHex(e.hexgrip[i]);
    var tail := " " + (PrintInt(e.ttl) + Flags(e.confirm));
    hide EntryLine, PrintInt, Strtol, Confirms, HexRun, SkipBlanks, UpperAll, Flags, ParseRest, Skippable, EndsField, ToInt;
    EntryLineParts(e);
    NoBlankInFront(EntryLine(e));
    UpperAllOfUpper(e.hexgrip);
    HexRunIs(e.hexgrip, tail);
    FlagsEndNumber(e.confirm);
    StrtolOfPrinted(e.ttl, Flags(e.confirm));
    FlagsAre(e.confirm);
    ParseRestIs(false, e.hexgrip, tail, Long(e.ttl, Flags(e.confirm)));
  }

  lemma FlagsAre(confirm: bool)
    ensures Confirms(Flags(confirm)) == confirm
  {
    hide Confirms;
    if confirm {
      SkipOneBlank(CONFIRM + "\n");
      ConfirmsLast(Flags(true), CONFIRM);
    } else {
      NoFlags();
    }
  }

  lemma SkipOneBlank(t: bytes)
    requires t != [] && !Blank(t[0])
    ensures SkipBlanks(" " + t) == t
  {
    assert (" " + t)[1..] == t;
  }

  // ----- Lines written by hand -----

  /** A list of flags up to the end of the line. */
  function FlagText(words: seq<bytes>): bytes {
    if words == [] then "\n" else " " + (words[0] + FlagText(words[1..]))
  }

  ghost predicate AreWords(words: seq<bytes>) {
    forall i :: 0 <= i < |words| ==> words[i] != [] && forall j :: 0 <= j < |words[i]| ==> !EndsWord(words[i][j])
  }

  lemma FlagTextStart(words: seq<bytes>)
    ensures FlagText(words) != [] && EndsWord(FlagText(words)[0]) && FlagText(words)[0] != '='
    ensures !IsDigit(FlagText(words)[0])
  {
  }

  /** What the flag loop does with a word of length `n`. */
  lemma ConfirmsIs(s: bytes, t: bytes, n: nat)
    requires SkipBlanks(s) == t && t != [] && t[0] != '\n' && n == WordLength(t) && n < |t|
    ensures Confirms(s) == if t[n] == '=' then Confirms(t[n + 1..]) else t[..n] == "confirm" || Confirms(t[n..])
  {
    hide WordLength, SkipBlanks;
  }

  lemma WordParts(word: bytes, rest: bytes)
    requires word != [] && (forall i :: 0 <= i < |word| ==> !EndsWord(word[i])) && rest != [] && EndsWord(rest[0])
    ensures var t := word + rest;
            && SkipBlanks(" " + t) == t && t[0] != '\n' && WordLength(t) == |word|
            && t[..|word|] == word && t[|word|..] == rest && t[|word|] == rest[0] && t[|word| + 1..] == rest[1..]
  {
    var t := word + rest;
    assert t[0] == word[0] && !EndsWord(word[0]);
    hide WordLength, SkipBlanks;
    SkipOneBlank(t);
    WordLengthIs(word, rest);
  }

  /** One flag, and then others. */
  lemma ConfirmsFirst(word: bytes, rest: bytes)
    requires word != [] && (forall i :: 0 <= i < |word| ==> !EndsWord(word[i]))
    requires rest != [] && EndsWord(rest[0]) && rest[0] != '='
    ensures Confirms(" " + (word + rest)) == (word == "confirm" || Confirms(rest))
  {
    hide *;
    WordParts(word, rest);
    ConfirmsIs(" " + (word + rest), word + rest, |word|);
  }

  /** An equals sign and what follows it. */
  function Assigned(value: bytes): (r: bytes)
    ensures r != [] && r[0] == '=' && r[1..] == value
  {
    ['='] + value
  }

  lemma ConfirmsBeyond(word: bytes, rest: bytes)
    requires word != [] && (forall i :: 0 <= i < |word| ==> !EndsWord(word[i]))
    requires rest != [] && EndsWord(rest[0]) && rest[0] == '='
    ensures Confirms(" " + (word + rest)) == Confirms(rest[1..])
  {
    hide *;
    WordParts(word, rest);
    ConfirmsIs(" " + (word + rest), word + rest, |word|);
  }

  /** A flag with a value is no flag, but its value is read as one. */
  lemma ConfirmsValue(word: bytes, value: bytes)
    requires word != [] && forall i :: 0 <= i < |word| ==> !EndsWord(word[i])
    ensures Confirms(" " + (word + Assigned(value))) == Confirms(value)
  {
    hide Confirms;
    ConfirmsBeyond(word, Assigned(value));
  }

  /** The key is to be confirmed if and only if "confirm" is one of the flags. */
  lemma {:induction false} FlagTextConfirms(words: seq<bytes>)
    requires AreWords(words)
    ensures Confirms(FlagText(words)) <==> exists i :: 0 <= i < |words| && words[i] == "confirm"
    decreases words
  {
    if words == [] {
      NoFlags();
    } else {
      var rest := words[1..];
      assert forall i :: 0 <= i < |rest| ==> rest[i] == words[i + 1];
      FlagTextStart(rest);
      hide Confirms;
      FlagTextConfirms(rest);
      ConfirmsFirst(words[0], FlagText(rest));
      if exists i :: 0 <= i < |words| && words[i] == "confirm" {
        var i :| 0 <= i < |words| && words[i] == "confirm";
        assert i > 0 ==> rest[i - 1] == "confirm";
      }
    }
  }

  function HexValue(c: byte): nat
    requires HexDigit(c)
  {
    if c <= '9' then c as int - '0' as int
    else if c <= 'F' then c as int - 'A' as int + 10
    else c as int - 'a' as int + 10
  }

  /** The keygrip is read in upper case: the same digits, and no small letter among them. */
  lemma GripInUpperCase(s: bytes)
    requires forall i :: 0 <= i < |s| ==> HexDigit(s[i])
    ensures forall i :: 0 <= i < |s| ==>
              UpperHex(UpperAll(s)[i]) && HexDigit(UpperAll(s)[i]) && HexValue(UpperAll(s)[i]) == HexValue(s[i])
  {
  }

  lemma {:induction false} SkipAllBlanks(b: bytes, t: bytes)
    requires (forall i :: 0 <= i < |b| ==> b[i] == ' ' || b[i] == '\t') && t != [] && !Blank(t[0])
    ensures SkipBlanks(b + t) == t
  {
    if b == [] {
      assert b + t == t;
    } else {
      assert (b + t)[1..] == b[1..] + t;
      SkipAllBlanks(b[1..], t);
    }
  }

  /** A line is skipped if and only if nothing or a comment follows its blanks. */
  lemma SkippedIff(blanks: bytes, text: bytes)
    requires forall i :: 0 <= i < |blanks| ==> blanks[i] == ' ' || blanks[i] == '\t'
    requires text != [] && text[0] != ' ' && text[0] != '\t'
    ensures Skippable(blanks + text) <==> text[0] == '\n' || text[0] == '#'
  {
    SkipAllBlanks(blanks, text);
    hide SkipBlanks;
  }

  /** The line of a disabled key. */
  function Marked(more: bytes, line: bytes): (r: bytes)
    ensures r != [] && r[0] == '!' && r[1..] == more + line
  {
    ['!'] + (more + line)
  }

  /** The two forms of a line, behind any blanks: with and without the mark of a disabled key. */
  lemma MarkIsRead(blanks: bytes, more: bytes, line: bytes)
    requires forall i :: 0 <= i < |blanks| ==> blanks[i] == ' ' || blanks[i] == '\t'
    requires forall i :: 0 <= i < |more| ==> more[i] == ' ' || more[i] == '\t'
    requires line != [] && HexDigit(line[0])
    ensures ParseLine(blanks + line) == ParseRest(false, line)
    ensures ParseLine(blanks + Marked(more, line)) == ParseRest(true, line)
  {
    var marked := Marked(more, line);
    assert !Blank(line[0]) && line[0] != '!' && !Blank(marked[0]);
    hide *;
    SkipAllBlanks(blanks, line);
    SkipAllBlanks(more, line);
    SkipAllBlanks(blanks, marked);
    ParseLineIs(blanks + line, line);
    ParseLineIs(blanks + marked, marked);
  }

  lemma ParseLineIs(s: bytes, t: bytes)
    requires SkipBlanks(s) == t && t != []
    ensures ParseLine(s) == if t[0] == '!' then ParseRest(true, SkipBlanks(t[1..])) else ParseRest(false, t)
  {
    hide SkipBlanks, ParseRest;
  }

  function TtlAndFlags(ttl: int, words: seq<bytes>): bytes {
    " " + (PrintInt(ttl) + FlagText(words))
  }

  /**
   What a line means, in all its parts: blanks, the mark of a disabled key, a keygrip in either case,
   a caching time and any flags.
   */
  lemma LineMeans(blanks: bytes, disabled: bool, grip: bytes, ttl: int, words: seq<bytes>)
    requires forall i :: 0 <= i < |blanks| ==> blanks[i] == ' ' || blanks[i] == '\t'
    requires |grip| == 40 && (forall i :: 0 <= i < 40 ==> HexDigit(grip[i]))
    requires -0x8000_0000 <= ttl < 0x8000_0000 && AreWords(words)
    ensures var rest := grip + TtlAndFlags(ttl, words);
            var item := ParseLine(blanks + (if disabled then Marked([], rest) else rest));
            && item.Some? && item.value.disabled == disabled && item.value.ttl == ttl
            && item.value.hexgrip == UpperAll(grip)
            && (item.value.confirm <==> exists i :: 0 <= i < |words| && words[i] == "confirm")
  {
    var tail := TtlAndFlags(ttl, words);
    var rest := grip + tail;
    assert tail == " " + (PrintInt(ttl) + FlagText(words));
    assert rest[0] == grip[0] && EndsField(tail);
    FlagTextStart(words);
    FlagTextConfirms(words);
    hide *;
    HexRunIs(grip, tail);
    StrtolOfPrinted(ttl, FlagText(words));
    ParseRestIs(disabled, grip, tail, Long(ttl, FlagText(words)));
    MarkIsRead(blanks, [], rest);
  }

  /** A line without 40 hexadecimal digits and a blank or its end behind them is not read. */
  lemma BadGripIsRefused(disabled: bool, s: bytes)
    ensures ParseRest(disabled, s).Some? <==>
            && |s| > 40 && (forall i :: 0 <= i < 40 ==> HexDigit(s[i]))
            && (s[40] == ' ' || s[40] == '\t' || s[40] == '\n')
  {
    hide Strtol, Confirms, UpperAll, ToInt;
  }

  /** Reading any printed number: it is cut to 64 bits, and the low 32 bits of that are the time. */
  lemma AnyNumberIsRead(n: int, tail: bytes)
    requires tail == [] || !IsDigit(tail[0])
    ensures var v := if n > 0x7fff_ffff_ffff_ffff then 0x7fff_ffff_ffff_ffff
                     else if n < -0x8000_0000_0000_0000 then -0x8000_0000_0000_0000 else n;
            Strtol(" " + (PrintInt(n) + tail)) == Long(v, tail)
  {
    hide DecimalValue, Decimal, DigitRun, SkipSpaces, Strtol, PrintInt;
    var m := if n < 0 then -n else n;
    var d := Decimal(m);
    PrintedParts(n, tail);
    DecimalRoundTrip(m);
    DigitRunIs(d, tail);
    SkipOneSpace(PrintInt(n) + tail);
    StrtolIs(" " + (PrintInt(n) + tail), d + tail, |d|, n < 0);
  }

  lemma LowBits(n: int)
    ensures -0x8000_0000 <= ToInt(n) < 0x8000_0000 && (n - ToInt(n)) % 0x1_0000_0000 == 0
  {
    var q := (n + 0x8000_0000) / 0x1_0000_0000;
    assert n - ToInt(n) == q * 0x1_0000_0000;
  }

  /** A line may have 253 octets in front of its newline; a longer one is refused. */
  lemma LineLimit(text: bytes, rest: bytes, lnr: nat)
    requires NUL !in text && '\n' !in text
    ensures |text| <= 253 ==>
              var r := ReadItem(text + ['\n'] + rest, lnr);
              || r == Failed(BadData) || (r.Found? && r.rest == rest && r.lnr == lnr + 1)
              || r == ReadItem(rest, lnr + 1)
    ensures |text| > 253 ==> ReadItem(text + ['\n'] + rest, lnr) == Failed(LineTooLong)
  {
    hide Skippable, ParseLine, CString, LineLength, ReadItem;
    var file := text + ['\n'] + rest;
    if |text| <= 253 {
      assert IsLine(text + ['\n']) by { assert forall i :: 0 <= i < |text| ==> text[i] in text; }
      ReadLine(text + ['\n'], rest, lnr);
    } else {
      TooLong(text, ['\n'] + rest, lnr);
      assert text + (['\n'] + rest) == file;
    }
  }

  lemma {:induction false} LongLine(text: bytes, rest: bytes, max: nat)
    requires '\n' !in text && max <= |text|
    ensures LineLength(text + rest, max) == max
    decreases max
  {
    if max > 0 {
      assert text[0] in text;
      assert (text + rest)[1..] == text[1..] + rest;
      assert forall c :: c in text[1..] ==> c in text;
      LongLine(text[1..], rest, max - 1);
    }
  }

  lemma TooLong(text: bytes, rest: bytes, lnr: nat)
    requires NUL !in text && '\n' !in text && |text| > 253
    ensures ReadItem(text + rest, lnr) == Failed(LineTooLong)
  {
    hide Skippable, ParseLine, CString, LineLength;
    LongLine(text, rest, MAX_LINE);
    var line := text[..MAX_LINE];
    assert (text + rest)[..MAX_LINE] == line;
    assert forall c :: c in line ==> c in text;
    CStringIsAll(line);
    assert line[|line| - 1] in line;
  }

  lemma LineOf(text: bytes)
    requires PlainText(text) && |text| < MAX_LINE
    ensures IsLine(text + "\n")
  {
    assert forall i :: 0 <= i < |text| ==> text[i] in text;
  }

  lemma CommentIsSkipped(intro: bytes, text: bytes)
    requires PlainText(intro) && PlainText(text) && |intro| + |text| <= 250
    ensures IsLine(Comment(intro, text)) && Skippable(Comment(intro, text))
  {
    var c: bytes := "#" + intro + text;
    LineOf(c);
    assert SkipBlanks(c + "\n") == c + "\n";
  }

  lemma EntryIsLine(e: Entry)
    requires ValidEntry(e)
    ensures IsLine(EntryLine(e))
  {
    var d := Decimal(if e.ttl < 0 then -e.ttl else e.ttl);
    TenDigits(if e.ttl < 0 then -e.ttl else e.ttl);
    var flag: bytes := if e.confirm then " " + CONFIRM else [];
    var text := e.hexgrip + (" " + (PrintInt(e.ttl) + flag));
    assert EntryLine(e) == text + "\n";
    assert PlainText(e.hexgrip) && PlainText(PrintInt(e.ttl)) && PlainText(flag) by {
      assert forall i :: 0 <= i < |d| ==> IsDigit(d[i]);
      hide Decimal;
    }
    hide EntryLine, Decimal;
    LineOf(text);
  }

  lemma IntrosArePlain()
    ensures PlainText(FINGERPRINTS) && PlainText(INDENT) && PlainText(" ") && |FINGERPRINTS| == |INDENT| == 16
  {
  }

  lemma SkippedInFront(comment: bytes, rest: bytes)
    requires IsLine(comment) && Skippable(comment)
    ensures Entries(comment + rest) == Entries(rest)
  {
    hide *;
    EntriesLine(comment, rest);
  }

  lemma EntriesOfLine(e: Entry)
    requires ValidEntry(e)
    ensures Entries(EntryLine(e)) == Some([ItemOf(e)])
  {
    hide Entries, IsLine, Skippable, ParseLine, EntryLine, ValidEntry, ItemOf;
    EntryIsLine(e);
    EntryParses(e);
    assert EntryLine(e) + [] == EntryLine(e);
    EntriesLine(EntryLine(e), []);
    EntriesOfNothing();
    assert [ItemOf(e)] + [] == [ItemOf(e)];
  }

  /** The text that is appended consists of three comments and the entry. */
  lemma EntriesOfText(e: Entry)
    requires ValidEntry(e) && e.sha256.Some?
    ensures Entries(Text(e)) == Some([ItemOf(e)])
  {
    hide Entries, IsLine, Skippable, Comment, EntryLine, ItemOf, PlainText, FINGERPRINTS, INDENT;
    IntrosArePlain();
    var md5 := if e.md5.Some? then e.md5.value else [];
    assert PlainText(md5) by { PlainNothing(); }
    CommentIsSkipped(" ", e.stamp);
    CommentIsSkipped(FINGERPRINTS, md5);
    CommentIsSkipped(INDENT, e.sha256.value);
    EntriesOfLine(e);
    hide ValidEntry;
    var rest := Comment(INDENT, e.sha256.value) + EntryLine(e);
    SkippedInFront(Comment(INDENT, e.sha256.value), EntryLine(e));
    SkippedInFront(Comment(FINGERPRINTS, md5), rest);
    SkippedInFront(Comment(" ", e.stamp), Comment(FINGERPRINTS, md5) + rest);
  }

  lemma PlainNothing()
    ensures PlainText([])
  {
  }

  // ----- Searching -----

  /** The first entry for a keygrip. */
  function First(items: seq<Item>, hexgrip: bytes): Option<Item> {
    if items == [] then None
    else if items[0].hexgrip == hexgrip then Some(items[0])
    else First(items[1..], hexgrip)
  }

  /** Searching a well-formed file finds the values of the first entry for the keygrip, or its end. */
  lemma {:induction false} SearchFindsFirst(file: bytes, hexgrip: bytes, lnr: nat)
    requires Entries(file).Some?
    ensures var found := First(Entries(file).value, hexgrip);
            var r := Search(file, hexgrip, lnr);
            if found == None then r == Failed(Eof) else r.Found? && r.item == found.value
    decreases |file|
  {
    hide ReadItem;
    ReadItemAdvances(file, 0);
    ReadItemLnr(file, 0, lnr);
    var r := ReadItem(file, 0);
    if r.Found? {
      SearchFindsFirst(r.rest, hexgrip, ReadItem(file, lnr).lnr);
    }
  }

  /** A search goes line by line. */
  lemma SearchLine(line: bytes, rest: bytes, hexgrip: bytes, lnr: nat)
    requires IsLine(line)
    ensures Search(line + rest, hexgrip, lnr) ==
            if Skippable(line) then Search(rest, hexgrip, lnr + 1)
            else if ParseLine(line) == None then Failed(BadData)
            else if ParseLine(line).value.hexgrip == hexgrip then Found(ParseLine(line).value, rest, lnr + 1)
            else Search(rest, hexgrip, lnr + 1)
  {
    hide ReadItem, Skippable, ParseLine, IsLine;
    ReadLine(line, rest, lnr);
  }

  lemma {:induction false} SearchLnr(file: bytes, hexgrip: bytes, lnr: nat, other: nat)
    ensures SameButLnr(Search(file, hexgrip, lnr), Search(file, hexgrip, other))
    decreases |file|
  {
    hide ReadItem;
    ReadItemAdvances(file, lnr);
    ReadItemLnr(file, lnr, other);
    var r := ReadItem(file, lnr);
    if r.Found? {
      SearchLnr(r.rest, hexgrip, r.lnr, ReadItem(file, other).lnr);
    }
  }

  /**
   Whatever follows a well-formed part of a file, even if it cannot be read: an entry in that part is
   found with its values, and for another keygrip the search is that of what follows.
   */
  lemma {:induction false} SearchOfAppended(file: bytes, more: bytes, hexgrip: bytes, lnr: nat)
    requires Entries(file).Some?
    ensures var found := First(Entries(file).value, hexgrip);
            var r := Search(file + more, hexgrip, lnr);
            if found.Some? then r.Found? && r.item == found.value else SameButLnr(r, Search(more, hexgrip, 0))
    decreases |file|
  {
    hide Entries, Search, IsLine, FirstLine, Skippable, ParseLine;
    if file == [] {
      EntriesOfNothing();
      assert file + more == more;
      SearchLnr(more, hexgrip, lnr, 0);
    } else {
      var line := FirstLine(file);
      EntriesStartWithLine(file);
      var rest := file[|line|..];
      assert file == line + rest;
      ConcatAssociative(line, rest, more);
      EntriesLine(line, rest);
      SearchLine(line, rest + more, hexgrip, lnr);
      SearchOfAppended(rest, more, hexgrip, lnr + 1);
      if !Skippable(line) {
        assert Entries(file).value[1..] == Entries(rest).value;
      }
    }
  }

  // ----- Adding entries -----

  ghost predicate Distinct(items: seq<Item>) {
    forall i, j :: 0 <= i < j < |items| ==> items[i].hexgrip != items[j].hexgrip
  }

  /** Well-formed, and no keygrip has two entries. */
  ghost predicate Sound(file: bytes) {
    Entries(file).Some? && Distinct(Entries(file).value)
  }

  lemma {:induction false} FirstIsNone(items: seq<Item>, hexgrip: bytes)
    ensures First(items, hexgrip) == None <==> forall i :: 0 <= i < |items| ==> items[i].hexgrip != hexgrip
  {
    if items != [] {
      FirstIsNone(items[1..], hexgrip);
      assert forall i :: 0 < i < |items| ==> items[i] == items[1..][i - 1];
    }
  }

  /** The entries after adding one: unchanged if the keygrip is there already. */
  function AddedItems(items: seq<Item>, e: Entry): seq<Item> {
    if e.sha256 == None || First(items, e.hexgrip).Some? then items else items + [ItemOf(e)]
  }

  lemma AddedIs(file: bytes, e: Entry)
    requires Entries(file).Some? && ValidEntry(e)
    ensures Entries(Added(file, e)) == Some(AddedItems(Entries(file).value, e))
  {
    hide Entries, Search, First, ValidEntry, Text, ItemOf;
    SearchFindsFirst(file, e.hexgrip, 0);
    if e.sha256.Some? && First(Entries(file).value, e.hexgrip) == None {
      EntriesOfAppended(file, Text(e));
      EntriesOfText(e);
    }
  }

  /** A file that cannot be read to its end is left alone. */
  lemma {:induction false} SearchOfMalformed(file: bytes, hexgrip: bytes, lnr: nat)
    requires Entries(file) == None
    ensures Search(file, hexgrip, lnr) != Failed(Eof)
    decreases |file|
  {
    hide ReadItem;
    ReadItemAdvances(file, 0);
    ReadItemLnr(file, 0, lnr);
    var r := ReadItem(file, 0);
    if r.Found? {
      SearchOfMalformed(r.rest, hexgrip, ReadItem(file, lnr).lnr);
    }
  }

  lemma MalformedIsLeftAlone(file: bytes, e: Entry)
    requires Entries(file) == None
    ensures Added(file, e) == file
  {
    SearchOfMalformed(file, e.hexgrip, 0);
    hide Entries, Search;
  }

  function AddedAll(file: bytes, es: seq<Entry>): bytes
    decreases es
  {
    if es == [] then file else AddedAll(Added(file, es[0]), es[1..])
  }

  function AddedItemsAll(items: seq<Item>, es: seq<Entry>): seq<Item>
    decreases es
  {
    if es == [] then items else AddedItemsAll(AddedItems(items, es[0]), es[1..])
  }

  lemma AddedItemsDistinct(items: seq<Item>, e: Entry)
    requires Distinct(items)
    ensures Distinct(AddedItems(items, e))
  {
    FirstIsNone(items, e.hexgrip);
    hide First;
  }

  /** Every sequence of additions keeps a sound file sound, with the added keys behind the old ones. */
  lemma {:induction false} AdditionsKeepSound(file: bytes, es: seq<Entry>)
    requires Sound(file) && forall i :: 0 <= i < |es| ==> ValidEntry(es[i])
    ensures Sound(AddedAll(file, es)) && Entries(AddedAll(file, es)).value == AddedItemsAll(Entries(file).value, es)
    decreases es
  {
    hide Entries, Added, AddedItems, ValidEntry, Distinct;
    if es != [] {
      AddedIs(file, es[0]);
      AddedItemsDistinct(Entries(file).value, es[0]);
      AdditionsKeepSound(Added(file, es[0]), es[1..]);
    }
  }

  lemma {:induction false} FirstOfAdded(items: seq<Item>, es: seq<Entry>, hexgrip: bytes)
    requires First(items, hexgrip).Some?
    ensures First(AddedItemsAll(items, es), hexgrip) == First(items, hexgrip)
    decreases es
  {
    if es != [] {
      FirstOfLonger(items, [ItemOf(es[0])], hexgrip);
      hide First, ItemOf;
      FirstOfAdded(AddedItems(items, es[0]), es[1..], hexgrip);
    }
  }

  lemma {:induction false} FirstOfLonger(items: seq<Item>, more: seq<Item>, hexgrip: bytes)
    ensures First(items + more, hexgrip) == if First(items, hexgrip).Some? then First(items, hexgrip) else First(more, hexgrip)
  {
    if items != [] {
      assert (items + more)[1..] == items[1..] + more;
      FirstOfLonger(items[1..], more, hexgrip);
    } else {
      assert items + more == more;
    }
  }

  /**
   A key that was added, or was there before, keeps its values whatever is added afterwards; a new
   one gets those it was added with.
   */
  lemma AddedIsRemembered(file: bytes, e: Entry, later: seq<Entry>)
    requires Sound(file) && ValidEntry(e) && e.sha256.Some? && forall i :: 0 <= i < |later| ==> ValidEntry(later[i])
    ensures var r := Search(AddedAll(Added(file, e), later), e.hexgrip, 0);
            var before := First(Entries(file).value, e.hexgrip);
            r.Found? && r.item == if before.Some? then before.value else ItemOf(e)
  {
    var items := Entries(file).value;
    FirstOfLonger(items, [ItemOf(e)], e.hexgrip);
    assert First([ItemOf(e)], e.hexgrip) == Some(ItemOf(e));
    hide Entries, First, Search, AddedAll, Added, ValidEntry, Distinct, ItemOf, AddedItemsAll;
    AddedIs(file, e);
    AddedItemsDistinct(items, e);
    AdditionsKeepSound(Added(file, e), later);
    FirstOfAdded(AddedItems(items, e), later, e.hexgrip);
    SearchFindsFirst(AddedAll(Added(file, e), later), e.hexgrip, 0);
  }
}
