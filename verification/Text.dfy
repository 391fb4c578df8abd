/** The string operations of Go's strings, unicode and strconv packages that the server relies on.
    A Go string holding valid UTF-8 is a sequence of Unicode scalar values. */
module Text {

  /** The optional result of a parse. */
  datatype Option<+T> = None | Some(value: T)

  /** unicode.IsSpace. */
  predicate IsSpace(c: char) {
    '\t' <= c <= '\r' || c == ' ' || c == '\U{85}' || c == '\U{A0}' || c == '\U{1680}' ||
    '\U{2000}' <= c <= '\U{200A}' || c == '\U{2028}' || c == '\U{2029}' || c == '\U{202F}' ||
    c == '\U{205F}' || c == '\U{3000}'
  }

  predicate IsDigit(c: char) {
    '0' <= c <= '9'
  }

  predicate AllSpace(s: string) {
    forall i | 0 <= i < |s| :: IsSpace(s[i])
  }

  /** The number of spaces at the front. */
  function Leading(s: string): (n: nat)
    ensures n <= |s|
    ensures forall i | 0 <= i < n :: IsSpace(s[i])
    ensures n < |s| ==> !IsSpace(s[n])
  {
    if s == [] || !IsSpace(s[0]) then 0
    else
      var m := Leading(s[1..]);
      assert forall i | 0 <= i < |s| - 1 :: s[1..][i] == s[i + 1];
      m + 1
  }

  /** Where the spaces at the back begin. */
  function TextEnd(s: string): (n: nat)
    ensures n <= |s|
    ensures forall i | n <= i < |s| :: IsSpace(s[i])
    ensures n > 0 ==> !IsSpace(s[n - 1])
  {
    if s == [] || !IsSpace(s[|s| - 1]) then |s| else TextEnd(s[..|s| - 1])
  }

  /** strings.TrimSpace. */
  function TrimSpace(s: string): string {
    var t := s[Leading(s)..];
    t[..TextEnd(t)]
  }

  /** No space at either end. */
  predicate Trimmed(s: string) {
    s == [] || (!IsSpace(s[0]) && !IsSpace(s[|s| - 1]))
  }

  /** TrimSpace cuts spaces, and only spaces, from both ends, and leaves none there. */
  lemma TrimSpaceShape(s: string)
    ensures Trimmed(TrimSpace(s))
    ensures exists i, j | 0 <= i <= j <= |s| :: AllSpace(s[..i]) && AllSpace(s[j..]) && TrimSpace(s) == s[i..j]
  {
    var i := Leading(s);
    var t := s[i..];
    var n := TextEnd(t);
    assert AllSpace(s[..i]);
    assert s[i + n..] == t[n..] && AllSpace(t[n..]);
    assert TrimSpace(s) == s[i..i + n];
  }

  lemma TrimSpaceOfTrimmed(s: string)
    requires Trimmed(s)
    ensures TrimSpace(s) == s
  {
  }

  lemma LeadingStops(s: string, i: nat)
    requires i <= |s| && AllSpace(s[..i]) && (i < |s| ==> !IsSpace(s[i]))
    ensures Leading(s) == i
  {
    hide IsSpace;
    assert forall k | 0 <= k < i :: IsSpace(s[..i][k]) && s[..i][k] == s[k];
  }

  lemma TextEndStops(s: string, j: nat)
    requires j <= |s| && AllSpace(s[j..]) && (j > 0 ==> !IsSpace(s[j - 1]))
    ensures TextEnd(s) == j
  {
    hide IsSpace;
    assert forall k | j <= k < |s| :: IsSpace(s[j..][k - j]) && s[j..][k - j] == s[k];
  }

  /** A trimmed text comes back from whatever spaces are put around it. */
  lemma TrimSpaceCuts(before: string, s: string, after: string)
    requires AllSpace(before) && AllSpace(after) && Trimmed(s)
    ensures TrimSpace(before + s + after) == s
  {
    hide IsSpace;
    var t := before + s + after;
    if s == [] {
      assert AllSpace(t);
      assert t[..|t|] == t;
      LeadingStops(t, |t|);
    } else {
      assert t[..|before|] == before && t[|before|] == s[0];
      LeadingStops(t, |before|);
      var u := t[|before|..];
      assert u == s + after && u[|s|..] == after && u[|s| - 1] == s[|s| - 1];
      TextEndStops(u, |s|);
    }
  }

  lemma AllSpaceAppend(a: string, b: string)
    requires AllSpace(a) && AllSpace(b)
    ensures AllSpace(a + b)
  {
    hide IsSpace;
  }

  lemma Regroup(a: string, b: string, c: string, d: string, e: string)
    ensures a + (b + c + d) + e == (a + b) + c + (d + e)
  {
  }

  /** Spaces more at either end change nothing. */
  lemma TrimSpaceIgnores(before: string, s: string, after: string)
    requires AllSpace(before) && AllSpace(after)
    ensures TrimSpace(before + s + after) == TrimSpace(s)
  {
    hide IsSpace, Leading, TextEnd, Trimmed, TrimSpace;
    TrimSpaceShape(s);
    var i, j :| 0 <= i <= j <= |s| && AllSpace(s[..i]) && AllSpace(s[j..]) && TrimSpace(s) == s[i..j];
    var front, back := before + s[..i], s[j..] + after;
    assert s == s[..i] + s[i..j] + s[j..];
    Regroup(before, s[..i], s[i..j], s[j..], after);
    AllSpaceAppend(before, s[..i]);
    AllSpaceAppend(s[j..], after);
    hide AllSpace;
    TrimSpaceCuts(front, s[i..j], back);
  }

  /** Blank, tab and line ends are spaces; no other printable ASCII character is. */
  lemma CommonSpaces(c: char)
    requires c < '\U{7F}'
    ensures IsSpace(c) <==> c == ' ' || c == '\t' || c == '\n' || c == '\r' || c == '\U{0B}' || c == '\U{0C}'
  {
  }

  /** strings.HasPrefix. */
  predicate HasPrefix(s: string, p: string) {
    p <= s
  }

  /** strings.HasSuffix. */
  predicate HasSuffix(s: string, p: string) {
    |p| <= |s| && s[|s| - |p|..] == p
  }

  /** strings.Index for a one-character needle: the first occurrence, or -1. */
  function Index(s: string, c: char): (i: int)
    ensures -1 <= i < |s|
    ensures i >= 0 ==> s[i] == c
    ensures forall k | 0 <= k < (if i == -1 then |s| else i) :: s[k] != c
  {
    if s == [] then -1
    else if s[0] == c then 0
    else
      var r := Index(s[1..], c);
      assert forall k | 1 <= k < |s| :: s[k] == s[1..][k - 1];
      if r == -1 then -1 else r + 1
  }

  lemma IndexAfter(w: string, c: char, rest: string)
    requires c !in w
    ensures var s := w + [c] + rest; Index(s, c) == |w| && s[..|w|] == w && s[|w| + 1..] == rest
  {
    var s := w + [c] + rest;
    assert s[|w|] == c && forall k | 0 <= k < |w| :: s[k] == w[k];
  }

  /** strings.LastIndex for a one-character needle: the last occurrence, or -1. */
  function LastIndex(s: string, c: char): (i: int)
    ensures -1 <= i < |s|
    ensures i >= 0 ==> s[i] == c
    ensures forall k | i < k < |s| :: s[k] != c
  {
    if s == [] then -1
    else if s[|s| - 1] == c then |s| - 1
    else LastIndex(s[..|s| - 1], c)
  }

  /** strings.Count for a one-character needle. */
  function Count(s: string, c: char): nat {
    if s == [] then 0 else (if s[0] == c then 1 else 0) + Count(s[1..], c)
  }

  lemma {:induction false} CountZero(s: string, c: char)
    ensures Count(s, c) == 0 <==> c !in s
  {
    if s != [] {
      CountZero(s[1..], c);
      assert s == [s[0]] + s[1..];
    }
  }

  /** strings.ReplaceAll for a non-empty needle: left to right, without overlaps. */
  function ReplaceAll(s: string, needle: string, repl: string): string
    requires needle != []
    decreases |s|
  {
    if s == [] then []
    else if needle <= s then repl + ReplaceAll(s[|needle|..], needle, repl)
    else [s[0]] + ReplaceAll(s[1..], needle, repl)
  }

  /** strings.Fields: the maximal runs of non-space characters. */
  function Fields(s: string): seq<string>
    decreases |s|
  {
    var t := s[Leading(s)..];
    if t == [] then []
    else
      var n := WordLength(t);
      [t[..n]] + Fields(t[n..])
  }

  /** The length of the run of non-space characters at the front. */
  function WordLength(s: string): (n: nat)
    ensures n <= |s|
    ensures forall i | 0 <= i < n :: !IsSpace(s[i])
    ensures n < |s| ==> IsSpace(s[n])
    ensures s != [] && !IsSpace(s[0]) ==> n > 0
  {
    if s == [] || IsSpace(s[0]) then 0
    else
      var m := WordLength(s[1..]);
      assert forall i | 0 <= i < m :: s[1..][i] == s[i + 1];
      m + 1
  }

  /** A non-empty run of non-space characters. */
  predicate IsWord(s: string) {
    s != [] && forall i | 0 <= i < |s| :: !IsSpace(s[i])
  }

  /** The words separated by one blank each. */
  function JoinWords(ws: seq<string>): string {
    if ws == [] then []
    else if |ws| == 1 then ws[0]
    else ws[0] + " " + JoinWords(ws[1..])
  }

  /** A word in front of a blank, or of nothing, is the first field. */
  lemma FieldsHead(w: string, rest: string)
    requires IsWord(w) && (rest == [] || IsSpace(rest[0]))
    ensures Fields(w + rest) == [w] + Fields(rest)
  {
    var s := w + rest;
    assert s[0] == w[0] && Leading(s) == 0 && s[0..] == s;
    var n := WordLength(s);
    assert n == |w| by {
      assert forall i | 0 <= i < |w| :: s[i] == w[i];
      assert |w| < |s| ==> s[|w|] == rest[0];
    }
    assert s[..n] == w && s[n..] == rest;
  }

  lemma FieldsOfBlankPrefix(rest: string)
    ensures Fields(" " + rest) == Fields(rest)
  {
    var s := " " + rest;
    assert s[1..] == rest;
    assert s[Leading(s)..] == rest[Leading(rest)..];
  }

  lemma FieldsCons(w: string, rest: string)
    requires IsWord(w)
    ensures Fields(w + " " + rest) == [w] + Fields(rest)
  {
    var tail := " " + rest;
    assert w + " " + rest == w + tail && tail[0] == ' ';
    FieldsHead(w, tail);
    FieldsOfBlankPrefix(rest);
  }

  lemma FieldsOfWord(w: string)
    requires IsWord(w)
    ensures Fields(w) == [w]
  {
    FieldsHead(w, "");
    assert w + "" == w;
  }

  /** Splitting what JoinWords glued gives the words back. */
  lemma {:induction false} FieldsOfJoin(ws: seq<string>)
    requires forall w | w in ws :: IsWord(w)
    ensures Fields(JoinWords(ws)) == ws
  {
    if |ws| == 1 {
      FieldsOfWord(ws[0]);
    } else if |ws| > 1 {
      FieldsOfJoin(ws[1..]);
      FieldsCons(ws[0], JoinWords(ws[1..]));
      assert [ws[0]] + ws[1..] == ws;
    }
  }

  /** No field loses a character. */
  lemma {:induction false} FieldsKeep(s: string, c: char)
    requires c in s && !IsSpace(c)
    ensures exists w | w in Fields(s) :: c in w
    decreases |s|
  {
    hide IsSpace;
    var t := s[Leading(s)..];
    assert c in t by {
      var k :| 0 <= k < |s| && s[k] == c;
      assert t[k - Leading(s)] == c;
    }
    var n := WordLength(t);
    assert t == t[..n] + t[n..];
    if c in t[..n] {
      assert t[..n] in Fields(s);
    } else {
      FieldsKeep(t[n..], c);
      var w :| w in Fields(t[n..]) && c in w;
      assert w in Fields(s);
    }
  }

  lemma InSlice(s: string, i: nat, j: nat, c: char)
    requires i <= j <= |s| && (c in s[i..j] || c in s[i..][..j - i])
    ensures c in s
  {
  }

  lemma {:induction false} FieldsFrom(s: string, w: string, c: char)
    requires w in Fields(s) && c in w
    ensures c in s
    decreases |s|
  {
    hide IsSpace, Leading, WordLength;
    var t := s[Leading(s)..];
    var n := WordLength(t);
    assert Fields(s) == [t[..n]] + Fields(t[n..]);
    if w == t[..n] {
      InSlice(s, Leading(s), Leading(s) + n, c);
    } else {
      FieldsFrom(t[n..], w, c);
      InSlice(s, Leading(s) + n, |s|, c);
    }
  }

  lemma {:induction false} ReplaceFrom(s: string, x: char, repl: string, c: char)
    requires c in ReplaceAll(s, [x], repl)
    ensures c in s || c in repl
  {
    if s != [] {
      assert s == [s[0]] + s[1..];
      if c in ReplaceAll(s[1..], [x], repl) {
        ReplaceFrom(s[1..], x, repl, c);
      }
    }
  }

  lemma {:induction false} ReplaceRemoves(s: string, x: char, repl: string)
    requires x !in repl
    ensures x !in ReplaceAll(s, [x], repl)
  {
    if s != [] {
      ReplaceRemoves(s[1..], x, repl);
    }
  }

  lemma {:induction false} ReplaceKeeps(s: string, x: char, repl: string, c: char)
    requires c in s && c != x
    ensures c in ReplaceAll(s, [x], repl)
  {
    assert s == [s[0]] + s[1..];
    if c in s[1..] {
      ReplaceKeeps(s[1..], x, repl, c);
    }
  }

  /** The number of bytes of a character in UTF-8. */
  function Utf8Length(c: char): nat {
    if c < '\U{80}' then 1 else if c < '\U{800}' then 2 else if c < '\U{10000}' then 3 else 4
  }

  /** Go's len(s): the number of UTF-8 bytes. */
  function ByteLen(s: string): nat {
    if s == [] then 0 else Utf8Length(s[0]) + ByteLen(s[1..])
  }

  /** One byte up to U+7F, two up to U+7FF, three up to U+FFFF, four beyond, whatever follows. */
  lemma BytesOf(c: char, s: string)
    ensures c <= '\U{7F}' ==> ByteLen([c] + s) == 1 + ByteLen(s)
    ensures '\U{80}' <= c <= '\U{7FF}' ==> ByteLen([c] + s) == 2 + ByteLen(s)
    ensures '\U{800}' <= c <= '\U{FFFF}' ==> ByteLen([c] + s) == 3 + ByteLen(s)
    ensures '\U{10000}' <= c ==> ByteLen([c] + s) == 4 + ByteLen(s)
  {
    assert ([c] + s)[1..] == s;
  }

  /** Of two suffixes of one text the longer one has more bytes. */
  lemma {:induction false} ByteLenOfSuffix(s: string, n: nat)
    requires n <= |s|
    ensures ByteLen(s[n..]) <= ByteLen(s)
    ensures n > 0 ==> ByteLen(s[n..]) < ByteLen(s)
  {
    if n > 0 {
      ByteLenOfSuffix(s[1..], n - 1);
      assert s[1..][n - 1..] == s[n..];
    } else {
      assert s[0..] == s;
    }
  }
}
