/** internal/importer/tsdnsini/parser.go: the line parser of tsdns_settings.ini. */
module Ini {
  import opened Text

  datatype Entry = Entry(ident: string, value: string, line: nat)

  datatype ParseResult = ParseResult(entries: seq<Entry>, skipped: nat)

  // ----- bufio.ScanLines -----

  function DropCR(s: string): string {
    if s != [] && s[|s| - 1] == '\r' then s[..|s| - 1] else s
  }

  /** The lines up to their newlines; a last line needs no newline. */
  function RawLines(text: string): seq<string>
    decreases |text|
  {
    if text == [] then []
    else
      var i := Index(text, '\n');
      if i == -1 then [text] else [text[..i]] + RawLines(text[i + 1..])
  }

  /** The lines with a newline after each. */
  function Joined(lines: seq<string>): string {
    if lines == [] then "" else lines[0] + "\n" + Joined(lines[1..])
  }

  lemma ScanFirst(line: string, rest: string)
    requires '\n' !in line
    ensures RawLines(line + "\n" + rest) == [line] + RawLines(rest)
  {
    hide Index;
    IndexAfter(line, '\n', rest);
  }

  lemma FirstLine(text: string) returns (line: string, rest: string)
    requires '\n' in text
    ensures text == line + "\n" + rest && '\n' !in line && |rest| < |text|
  {
    hide Index;
    var i := Index(text, '\n');
    line, rest := text[..i], text[i + 1..];
  }

  lemma JoinedCons(line: string, lines: seq<string>)
    ensures Joined([line] + lines) == line + "\n" + Joined(lines)
  {
    assert ([line] + lines)[1..] == lines;
  }

  lemma {:induction false} LinesHoldNoNewline(text: string)
    ensures forall line | line in RawLines(text) :: '\n' !in line
    decreases |text|
  {
    hide Index;
    if '\n' in text {
      hide RawLines;
      var line, rest := FirstLine(text);
      ScanFirst(line, rest);
      LinesHoldNoNewline(rest);
    }
  }

  /** What a text needs to end in a newline, unless it is empty. */
  function Terminated(text: string): string {
    if text == "" || text[|text| - 1] == '\n' then text else text + "\n"
  }

  lemma TerminatedCons(line: string, rest: string)
    ensures Terminated(line + "\n" + rest) == line + "\n" + Terminated(rest)
  {
    var text := line + "\n" + rest;
    if rest == "" {
      assert text[|text| - 1] == '\n';
    } else {
      assert text[|text| - 1] == rest[|rest| - 1];
      assert text + "\n" == line + "\n" + (rest + "\n");
    }
  }

  lemma {:induction false} LinesJoin(text: string)
    ensures Joined(RawLines(text)) == Terminated(text)
    decreases |text|
  {
    hide Index;
    if '\n' in text {
      hide RawLines, Joined, Terminated;
      var line, rest := FirstLine(text);
      ScanFirst(line, rest);
      LinesJoin(rest);
      JoinedCons(line, RawLines(rest));
      TerminatedCons(line, rest);
    } else if text != "" {
      assert RawLines(text) == [text];
      JoinedCons(text, []);
      assert [text] + [] == [text];
    }
  }

  /** On every text the scanner loses nothing: its lines hold no newline, and with a newline after each they
      are the text, or the text with the final newline it lacks. */
  lemma RawLinesExact(text: string)
    ensures forall line | line in RawLines(text) :: '\n' !in line
    ensures Joined(RawLines(text)) == if text == "" || text[|text| - 1] == '\n' then text else text + "\n"
  {
    hide RawLines, Joined;
    LinesHoldNoNewline(text);
    LinesJoin(text);
  }

  /** And it finds each of them: lines without newlines come back from their text. */
  lemma {:induction false} RawLinesOfJoined(lines: seq<string>)
    requires forall line | line in lines :: '\n' !in line
    ensures RawLines(Joined(lines)) == lines
  {
    if lines == [] {
    } else {
      hide RawLines;
      ScanFirst(lines[0], Joined(lines[1..]));
      RawLinesOfJoined(lines[1..]);
      assert lines == [lines[0]] + lines[1..];
    }
  }

  /** A last line needs no newline. */
  lemma {:induction false} UnterminatedLine(text: string, last: string)
    requires last != "" && '\n' !in last && (text == "" || text[|text| - 1] == '\n')
    ensures RawLines(text + last) == RawLines(text) + [last]
    decreases |text|
  {
    hide Index;
    if text == "" {
      assert text + last == last;
      assert Index(last, '\n') == -1;
    } else {
      hide RawLines;
      var line, rest := FirstLine(text);
      assert (line + "\n" + rest) + last == line + "\n" + (rest + last);
      assert rest != "" ==> text[|text| - 1] == rest[|rest| - 1];
      ScanFirst(line, rest);
      ScanFirst(line, rest + last);
      UnterminatedLine(rest, last);
    }
  }

  function DropCRs(raw: seq<string>): (lines: seq<string>)
    ensures |lines| == |raw|
  {
    if raw == [] then [] else DropCRs(raw[..|raw| - 1]) + [DropCR(raw[|raw| - 1])]
  }

  function ScanLines(text: string): seq<string> {
    DropCRs(RawLines(text))
  }

  /** The scanner's buffer, in bytes: a line must fit with its newline. */
  const MAX_BUF_SIZE: nat := 1024 * 1024

  predicate TooLong(line: string) {
    ByteLen(line) >= MAX_BUF_SIZE
  }

  // ----- One line -----

  datatype Line = Ignored | Bad | Pair(ident: string, value: string)

  predicate IsContent(line: string) {
    TrimSpace(line) != "" && !HasPrefix(TrimSpace(line), "#")
  }

  /** Split at the first equals sign; both sides trimmed and non-empty. */
  function Classify(text: string): Line {
    var line := TrimSpace(text);
    if line == "" || HasPrefix(line, "#") then Ignored
    else
      var i := Index(line, '=');
      if i == -1 then Bad
      else
        var ident, value := TrimSpace(line[..i]), TrimSpace(line[i + 1..]);
        if ident == "" || value == "" then Bad else Pair(ident, value)
  }

  /** The textual reading: what is left and right of the first equals sign of the trimmed line. */
  ghost predicate ReadsAs(text: string, ident: string, value: string) {
    exists a, b ::
      && TrimSpace(text) == a + "=" + b && '=' !in a && !HasPrefix(TrimSpace(text), "#")
      && ident == TrimSpace(a) && value == TrimSpace(b) && ident != "" && value != ""
  }

  lemma PairReads(text: string)
    requires Classify(text).Pair?
    ensures ReadsAs(text, Classify(text).ident, Classify(text).value)
  {
    hide TrimSpace, Index;
    var line := TrimSpace(text);
    var i := Index(line, '=');
    assert line == line[..i] + "=" + line[i + 1..];
  }

  lemma ReadIsPair(text: string, ident: string, value: string)
    requires ReadsAs(text, ident, value)
    ensures Classify(text) == Pair(ident, value)
  {
    hide TrimSpace, Index;
    var line := TrimSpace(text);
    var a, b :| line == a + "=" + b && '=' !in a && ident == TrimSpace(a) && value == TrimSpace(b);
    IndexAfter(a, '=', b);
    assert line == a + ['='] + b;
  }

  /** A line is a pair exactly when it reads as one, and ignored exactly when it is blank or a comment. */
  lemma ClassifyExact(text: string, ident: string, value: string)
    ensures Classify(text) == Pair(ident, value) <==> ReadsAs(text, ident, value)
    ensures Classify(text) == Ignored <==> !IsContent(text)
  {
    hide TrimSpace, Index, ReadsAs;
    if Classify(text) == Pair(ident, value) {
      PairReads(text);
    }
    if ReadsAs(text, ident, value) {
      ReadIsPair(text, ident, value);
    }
  }

  /** A result with one more line. */
  function Add(r: ParseResult, line: Line, lineNo: nat): ParseResult {
    match line
    case Ignored => r
    case Bad => r.(skipped := r.skipped + 1)
    case Pair(ident, value) => r.(entries := r.entries + [Entry(ident, value, lineNo)])
  }

  /** The result of the first lines of a file. */
  function ParseLines(lines: seq<string>): ParseResult {
    if lines == [] then ParseResult([], 0)
    else Add(ParseLines(lines[..|lines| - 1]), Classify(lines[|lines| - 1]), |lines|)
  }

  datatype Scan = Parsed(result: ParseResult) | ErrReaderNil | ErrScan

  /** None is a nil reader; a broken reader fails in the end, whatever it has delivered.  A partial
      result is never returned. */
  method Parse(reader: Option<string>, broken: bool) returns (outcome: Scan)
    ensures outcome
         == if reader.None? then ErrReaderNil
            else if broken || exists line | line in RawLines(reader.value) :: ByteLen(line) >= 1024 * 1024 then ErrScan
            else Parsed(ParseLines(ScanLines(reader.value)))
  {
    hide TrimSpace, RawLines, Index, ByteLen;
    if reader.None? {
      return ErrReaderNil;
    }
    var raw := RawLines(reader.value);
    var entries: seq<Entry>, skipped, lineNo := [], 0, 0;
    for n := 0 to |raw|
      invariant lineNo == n
      invariant ParseResult(entries, skipped) == ParseLines(DropCRs(raw[..n]))
      invariant forall k | 0 <= k < n :: !TooLong(raw[k])
    {
      if TooLong(raw[n]) {
        return ErrScan;
      }
      ParseLinesStep(raw, n);
      lineNo := lineNo + 1;
      entries, skipped := ParseLine(DropCR(raw[n]), lineNo, entries, skipped);
    }
    if broken {
      return ErrScan;
    }
    assert raw[..|raw|] == raw;
    return Parsed(ParseResult(entries, skipped));
  }

  lemma ParseLinesStep(raw: seq<string>, n: nat)
    requires n < |raw|
    ensures var r := ParseLines(DropCRs(raw[..n]));
            ParseLines(DropCRs(raw[..n + 1])) == Add(r, Classify(DropCR(raw[n])), n + 1)
  {
    hide Classify;
    assert raw[..n + 1][..n] == raw[..n];
    var lines := DropCRs(raw[..n + 1]);
    assert lines[..|lines| - 1] == DropCRs(raw[..n]);
  }

  /** The body of the scanner loop for one line. */
  method ParseLine(text: string, lineNo: nat, entries: seq<Entry>, skipped: nat)
    returns (entries': seq<Entry>, skipped': nat)
    ensures ParseResult(entries', skipped') == Add(ParseResult(entries, skipped), Classify(text), lineNo)
  {
    hide TrimSpace, Index;
    var line := TrimSpace(text);
    if line == "" || HasPrefix(line, "#") {
      return entries, skipped;
    }
    var eq := Index(line, '=');
    if eq == -1 {
      return entries, skipped + 1;
    }
    var ident, value := TrimSpace(line[..eq]), TrimSpace(line[eq + 1..]);
    if ident == "" || value == "" {
      return entries, skipped + 1;
    }
    return entries + [Entry(ident, value, lineNo)], skipped;
  }

  // ----- Accounting -----

  function ContentLines(lines: seq<string>): nat {
    if lines == [] then 0
    else ContentLines(lines[..|lines| - 1]) + (if IsContent(lines[|lines| - 1]) then 1 else 0)
  }

  /** On every text the entries and the skipped lines together are the lines that are neither blank
      nor comments. */
  lemma {:induction false} EveryLineAccounted(lines: seq<string>)
    ensures |ParseLines(lines).entries| + ParseLines(lines).skipped == ContentLines(lines)
  {
    hide TrimSpace;
    if lines != [] {
      EveryLineAccounted(lines[..|lines| - 1]);
    }
  }

  /** The entry is what its line says. */
  ghost predicate IsEntryOf(e: Entry, lines: seq<string>) {
    1 <= e.line <= |lines| && ReadsAs(lines[e.line - 1], e.ident, e.value)
  }

  lemma {:induction false} EntryFits(lines: seq<string>, k: nat)
    requires k < |ParseLines(lines).entries|
    ensures IsEntryOf(ParseLines(lines).entries[k], lines)
  {
    hide Classify, ReadsAs;
    var init := lines[..|lines| - 1];
    var before := ParseLines(init).entries;
    if k < |before| {
      EntryFits(init, k);
      assert ParseLines(lines).entries[k] == before[k];
      assert init[before[k].line - 1] == lines[before[k].line - 1];
    } else {
      var e := ParseLines(lines).entries[k];
      ClassifyExact(lines[|lines| - 1], e.ident, e.value);
    }
  }

  lemma {:induction false} EntriesAscend(lines: seq<string>, j: nat, k: nat)
    requires j < k < |ParseLines(lines).entries|
    ensures ParseLines(lines).entries[j].line < ParseLines(lines).entries[k].line
  {
    hide Classify;
    var init := lines[..|lines| - 1];
    var before := ParseLines(init).entries;
    if k < |before| {
      EntriesAscend(init, j, k);
    } else {
      EntryFits(init, j);
    }
  }

  /** Line numbers strictly increase, and each entry is what its line says. */
  lemma EntriesInOrder(lines: seq<string>)
    ensures var es := ParseLines(lines).entries;
            && (forall j, k | 0 <= j < k < |es| :: es[j].line < es[k].line)
            && (forall k | 0 <= k < |es| :: IsEntryOf(es[k], lines))
  {
    hide ParseLines, IsEntryOf;
    var es := ParseLines(lines).entries;
    forall j, k | 0 <= j < k < |es|
      ensures es[j].line < es[k].line
    {
      EntriesAscend(lines, j, k);
    }
    forall k | 0 <= k < |es|
      ensures IsEntryOf(es[k], lines)
    {
      EntryFits(lines, k);
    }
  }

  /** No line that reads as a pair is lost: its entry is there, with its line number. */
  lemma {:induction false} NoPairLost(lines: seq<string>, n: nat, ident: string, value: string)
    requires n < |lines| && ReadsAs(lines[n], ident, value)
    ensures Entry(ident, value, n + 1) in ParseLines(lines).entries
  {
    hide Classify, ReadsAs;
    var init := lines[..|lines| - 1];
    if n < |init| {
      assert init[n] == lines[n];
      NoPairLost(init, n, ident, value);
    } else {
      ClassifyExact(lines[n], ident, value);
      var es := ParseLines(lines).entries;
      assert es[|es| - 1] == Entry(ident, value, n + 1);
    }
  }

  // ----- Round trip -----

  /** What can be written on one line and read back. */
  predicate IsPrintable(ident: string, value: string) {
    && ident != "" && value != "" && Trimmed(ident) && Trimmed(value)
    && '=' !in ident && ident[0] != '#' && '\n' !in ident && '\n' !in value
  }

  function PrintLine(ident: string, value: string): string {
    ident + "=" + value
  }

  function Print(pairs: seq<(string, string)>): string {
    if pairs == [] then "" else PrintLine(pairs[0].0, pairs[0].1) + "\n" + Print(pairs[1..])
  }

  function PrintedLines(pairs: seq<(string, string)>): (lines: seq<string>)
    ensures |lines| == |pairs|
  {
    if pairs == [] then []
    else PrintedLines(pairs[..|pairs| - 1]) + [PrintLine(pairs[|pairs| - 1].0, pairs[|pairs| - 1].1)]
  }

  function Numbered(pairs: seq<(string, string)>): seq<Entry> {
    if pairs == [] then []
    else Numbered(pairs[..|pairs| - 1]) + [Entry(pairs[|pairs| - 1].0, pairs[|pairs| - 1].1, |pairs|)]
  }

  predicate AllPrintable(pairs: seq<(string, string)>) {
    forall k | 0 <= k < |pairs| :: IsPrintable(pairs[k].0, pairs[k].1)
  }

  lemma ClassifyPrinted(ident: string, value: string)
    requires IsPrintable(ident, value)
    ensures Classify(PrintLine(ident, value)) == Pair(ident, value)
  {
    hide IsSpace, TrimSpace, Index;
    var line := PrintLine(ident, value);
    assert line[0] == ident[0] && line[|line| - 1] == value[|value| - 1];
    TrimSpaceOfTrimmed(line);
    IndexAfter(ident, '=', value);
    TrimSpaceOfTrimmed(ident);
    TrimSpaceOfTrimmed(value);
  }

  lemma PrintLineShape(ident: string, value: string)
    requires IsPrintable(ident, value)
    ensures var line := PrintLine(ident, value); line != "" && '\n' !in line && line[|line| - 1] != '\r'
  {
  }

  lemma {:induction false} PrintedLinesCons(pairs: seq<(string, string)>)
    requires pairs != []
    ensures PrintedLines(pairs) == [PrintLine(pairs[0].0, pairs[0].1)] + PrintedLines(pairs[1..])
  {
    if |pairs| > 1 {
      var init := pairs[..|pairs| - 1];
      PrintedLinesCons(init);
      assert init[1..] == pairs[1..][..|pairs| - 2];
    } else {
      assert pairs[..0] == [] && pairs[1..] == [];
    }
  }

  lemma {:induction false} ScanPrinted(pairs: seq<(string, string)>)
    requires AllPrintable(pairs)
    ensures RawLines(Print(pairs)) == PrintedLines(pairs)
  {
    hide IsPrintable;
    if pairs != [] {
      assert IsPrintable(pairs[0].0, pairs[0].1);
      PrintLineShape(pairs[0].0, pairs[0].1);
      ScanFirst(PrintLine(pairs[0].0, pairs[0].1), Print(pairs[1..]));
      ScanPrinted(pairs[1..]);
      PrintedLinesCons(pairs);
    }
  }

  lemma {:induction false} NothingToDrop(pairs: seq<(string, string)>)
    requires AllPrintable(pairs)
    ensures DropCRs(PrintedLines(pairs)) == PrintedLines(pairs)
  {
    hide IsPrintable, PrintLine;
    if pairs != [] {
      var init, last := pairs[..|pairs| - 1], pairs[|pairs| - 1];
      NothingToDrop(init);
      assert IsPrintable(last.0, last.1);
      PrintLineShape(last.0, last.1);
      var lines := PrintedLines(pairs);
      assert lines[..|lines| - 1] == PrintedLines(init);
    }
  }

  lemma {:induction false} ParsePrintedLines(pairs: seq<(string, string)>)
    requires AllPrintable(pairs)
    ensures ParseLines(PrintedLines(pairs)) == ParseResult(Numbered(pairs), 0)
  {
    hide IsPrintable, Classify;
    if pairs != [] {
      var init, last := pairs[..|pairs| - 1], pairs[|pairs| - 1];
      ParsePrintedLines(init);
      assert IsPrintable(last.0, last.1);
      ClassifyPrinted(last.0, last.1);
      var lines := PrintedLines(pairs);
      assert lines[..|lines| - 1] == PrintedLines(init);
    }
  }

  lemma {:induction false} PrintEnds(pairs: seq<(string, string)>)
    requires pairs != []
    ensures Print(pairs) != "" && Print(pairs)[|Print(pairs)| - 1] == '\n'
    ensures Print(pairs)
         == Print(pairs[..|pairs| - 1]) + PrintLine(pairs[|pairs| - 1].0, pairs[|pairs| - 1].1) + "\n"
  {
    hide PrintLine;
    var first := PrintLine(pairs[0].0, pairs[0].1) + "\n";
    var init := pairs[..|pairs| - 1];
    assert Print(pairs) == first + Print(pairs[1..]);
    if |pairs| > 1 {
      PrintEnds(pairs[1..]);
      assert pairs[1..][..|pairs| - 2] == init[1..] && Print(init) == first + Print(init[1..]);
      hide Print;
      var rest, last := Print(init[1..]), PrintLine(pairs[|pairs| - 1].0, pairs[|pairs| - 1].1) + "\n";
      assert first + (rest + last) == (first + rest) + last;
    } else {
      assert init == [] && Print(pairs[1..]) == "";
    }
  }

  /** The printed text without its final newline. */
  function Unterminated(text: string): string {
    if text == "" then "" else text[..|text| - 1]
  }

  lemma ScanUnterminated(pairs: seq<(string, string)>)
    requires AllPrintable(pairs)
    ensures RawLines(Unterminated(Print(pairs))) == PrintedLines(pairs)
  {
    hide IsPrintable, PrintLine, RawLines;
    if pairs == [] {
      ScanPrinted(pairs);
    } else {
      var init, last := pairs[..|pairs| - 1], pairs[|pairs| - 1];
      PrintEnds(pairs);
      if init != [] {
        PrintEnds(init);
      }
      assert IsPrintable(last.0, last.1);
      PrintLineShape(last.0, last.1);
      ScanPrinted(init);
      assert Unterminated(Print(pairs)) == Print(init) + PrintLine(last.0, last.1);
      UnterminatedLine(Print(init), PrintLine(last.0, last.1));
    }
  }

  /** Parsing printed entries returns them, numbered from 1, with nothing skipped, whether or not the text
      ends in a newline. */
  lemma ParseUndoesPrint(pairs: seq<(string, string)>)
    requires AllPrintable(pairs)
    ensures ParseLines(ScanLines(Print(pairs))) == ParseResult(Numbered(pairs), 0)
    ensures ParseLines(ScanLines(Unterminated(Print(pairs)))) == ParseResult(Numbered(pairs), 0)
  {
    ScanPrinted(pairs);
    ScanUnterminated(pairs);
    NothingToDrop(pairs);
    ParsePrintedLines(pairs);
  }

  /** A carriage return before the newline changes no line. */
  lemma CarriageReturnsVanish(line: string)
    ensures Classify(DropCR(line + "\r")) == Classify(line) && Classify(line + "\r") == Classify(line)
  {
    hide TrimSpace;
    TrimSpaceIgnores("", line, "\r");
    assert "" + line + "\r" == line + "\r";
    assert (line + "\r")[..|line|] == line;
  }
}
