/** encoding/json on slices of strings, as repository/redis/redis.go stores its targets: RFC 8259 text
    with every escape, blanks and null. */
module Json {
  import opened Text

  // ----- Hexadecimal digits -----

  const HEX := "0123456789abcdef"

  function HexValue(c: char): Option<nat> {
    if '0' <= c <= '9' then Some((c - '0') as nat)
    else if 'a' <= c <= 'f' then Some((c - 'a') as nat + 10)
    else if 'A' <= c <= 'F' then Some((c - 'A') as nat + 10)
    else None
  }

  lemma HexReadsBack(n: nat)
    requires n < 16
    ensures HexValue(HEX[n]) == Some(n)
  {
  }

  /** The number of four hexadecimal digits at the front of a text. */
  function FourHex(t: string): (r: Option<nat>)
    ensures r.Some? ==> |t| >= 4 && r.value < 0x1_0000
  {
    if |t| < 4 then None
    else
      match (HexValue(t[0]), HexValue(t[1]), HexValue(t[2]), HexValue(t[3]))
      case (Some(a), Some(b), Some(c), Some(d)) =>
        if a < 16 && b < 16 && c < 16 && d < 16 then Some(a * 4096 + b * 256 + c * 16 + d) else None
      case _ => None
  }

  // ----- One character of a JSON string -----

  /** Control characters, what HTML would mistake for markup, and the line separators of JavaScript. */
  predicate NeedsCode(c: char) {
    c < ' ' || c == '<' || c == '>' || c == '&' || c == '\U{2028}' || c == '\U{2029}'
  }

  /** The four digits of such a character. */
  function CodeOf(c: char): (code: string)
    requires NeedsCode(c)
    ensures |code| == 4
  {
    if c == '\U{2028}' then "2028"
    else if c == '\U{2029}' then "2029"
    else "00" + [HEX[c as nat / 16], HEX[c as nat % 16]]
  }

  /** How json.Marshal writes a character, its HTML escaping on. */
  function Escape(c: char): string {
    if c == '"' || c == '\\' then ['\\', c]
    else if c == '\U{08}' then "\\b"
    else if c == '\U{0C}' then "\\f"
    else if c == '\n' then "\\n"
    else if c == '\r' then "\\r"
    else if c == '\t' then "\\t"
    else if NeedsCode(c) then "\\u" + CodeOf(c)
    else [c]
  }

  /** What a two-character escape stands for. */
  function ShortEscape(c: char): Option<char> {
    match c
    case '"' => Some('"')
    case '\\' => Some('\\')
    case '/' => Some('/')
    case 'b' => Some('\U{08}')
    case 'f' => Some('\U{0C}')
    case 'n' => Some('\n')
    case 'r' => Some('\r')
    case 't' => Some('\t')
    case _ => None
  }

  /** The character that a \u escape of code n stands for, when rest follows it, and what follows that: two
      surrogates make one character, a lone one the replacement character. */
  function UnicodeEscape(n: nat, rest: string): (r: (char, string))
    requires n < 0x1_0000
    ensures |r.1| <= |rest|
  {
    if n < 0xD800 || 0xE000 <= n then (n as char, rest)
    else
      var low := if HasPrefix(rest, "\\u") then FourHex(rest[2..]) else None;
      if n < 0xDC00 && low.Some? && 0xDC00 <= low.value < 0xE000
      then ((0x1_0000 + (n - 0xD800) * 0x400 + (low.value - 0xDC00)) as char, rest[6..])
      else ('\U{FFFD}', rest)
  }

  /** The character at the front of the inside of a string, and what follows; None is a syntax error. */
  function ReadChar(t: string): (r: Option<(char, string)>)
    ensures r.Some? ==> |r.value.1| < |t|
  {
    if t == [] || t[0] < ' ' then None
    else if t[0] != '\\' then Some((t[0], t[1..]))
    else if |t| < 2 then None
    else if t[1] == 'u' then
      match FourHex(t[2..])
      case Some(n) => Some(UnicodeEscape(n, t[6..]))
      case None => None
    else
      match ShortEscape(t[1])
      case Some(c) => Some((c, t[2..]))
      case None => None
  }

  lemma FourHexOf(t: string, a: nat, b: nat, c: nat, d: nat)
    requires |t| >= 4 && a < 16 && b < 16 && c < 16 && d < 16
    requires HexValue(t[0]) == Some(a) && HexValue(t[1]) == Some(b)
    requires HexValue(t[2]) == Some(c) && HexValue(t[3]) == Some(d)
    ensures FourHex(t) == Some(a * 4096 + b * 256 + c * 16 + d)
  {
    hide HexValue;
  }

  lemma CodeReadsBack(c: char, rest: string)
    requires NeedsCode(c)
    ensures FourHex(CodeOf(c) + rest) == Some(c as nat)
  {
    hide FourHex;
    var t := CodeOf(c) + rest;
    if c as nat < 256 {
      hide HexValue;
      var high, low := c as nat / 16, c as nat % 16;
      HexReadsBack(0);
      HexReadsBack(high);
      HexReadsBack(low);
      assert t[0] == t[1] == HEX[0] && t[2] == HEX[high] && t[3] == HEX[low];
      FourHexOf(t, 0, 0, high, low);
    } else {
      FourHexOf(t, 2, 0, 2, if c == '\U{2028}' then 8 else 9);
    }
  }

  lemma ShortReadsBack(c: char, rest: string)
    requires |Escape(c)| <= 2
    ensures ReadChar(Escape(c) + rest) == Some((c, rest)) && Escape(c)[0] != '"'
  {
    hide FourHex, UnicodeEscape, CodeOf;
    var e := Escape(c);
    var t := e + rest;
    assert t[|e|..] == rest;
    if |e| == 2 {
      assert t[1] == e[1] && ShortEscape(e[1]) == Some(c);
    }
  }

  lemma LongReadsBack(c: char, rest: string)
    requires NeedsCode(c)
    ensures ReadChar("\\u" + CodeOf(c) + rest) == Some((c, rest))
  {
    hide FourHex, CodeOf;
    CodeReadsBack(c, rest);
    var t := "\\u" + CodeOf(c) + rest;
    assert t[2..] == CodeOf(c) + rest && t[6..] == rest;
  }

  /** Every escape reads back as its character. */
  lemma EscapeReadsBack(c: char, rest: string)
    ensures ReadChar(Escape(c) + rest) == Some((c, rest))
    ensures Escape(c)[0] != '"'
  {
    hide ReadChar, CodeOf;
    if |Escape(c)| <= 2 {
      ShortReadsBack(c, rest);
    } else {
      LongReadsBack(c, rest);
    }
  }

  lemma CodeIsRead(code: string, n: nat, rest: string)
    requires |code| == 4 && FourHex(code + rest) == Some(n) && n < 0x1_0000
    ensures ReadChar("\\u" + (code + rest)) == Some(UnicodeEscape(n, rest))
  {
    hide FourHex, UnicodeEscape;
    var t := "\\u" + (code + rest);
    assert t[2..] == code + rest && t[6..] == rest;
  }

  /** Escapes that json.Marshal does not write are read too: a slash, and digits in either case. */
  lemma OtherEscapes(rest: string)
    ensures ReadChar("\\/" + rest) == Some(('/', rest))
    ensures ReadChar("\\u" + ("00E9" + rest)) == Some(('\U{E9}', rest))
    ensures ReadChar("\\u" + ("00e9" + rest)) == Some(('\U{E9}', rest))
  {
    assert ("\\/" + rest)[2..] == rest;
    hide FourHex, ReadChar;
    FourHexOf("00E9" + rest, 0, 0, 14, 9);
    FourHexOf("00e9" + rest, 0, 0, 14, 9);
    CodeIsRead("00E9", 0xE9, rest);
    CodeIsRead("00e9", 0xE9, rest);
  }

  /** A pair of surrogates is one character, a lone one the replacement character. */
  lemma Surrogates(rest: string)
    ensures ReadChar("\\u" + ("D83D" + ("\\u" + ("DE00" + rest)))) == Some(('\U{1F600}', rest))
    ensures ReadChar("\\u" + ("D83D" + ("-" + rest))) == Some(('\U{FFFD}', "-" + rest))
  {
    hide FourHex, ReadChar;
    var low := "\\u" + ("DE00" + rest);
    FourHexOf("D83D" + low, 13, 8, 3, 13);
    FourHexOf("D83D" + ("-" + rest), 13, 8, 3, 13);
    FourHexOf("DE00" + rest, 13, 14, 0, 0);
    assert low[2..] == "DE00" + rest && low[6..] == rest;
    CodeIsRead("D83D", 0xD83D, low);
    CodeIsRead("D83D", 0xD83D, "-" + rest);
    assert ("-" + rest)[0] == '-' && "\\u"[0] == '\\' && !HasPrefix("-" + rest, "\\u");
  }

  // ----- Strings -----

  function EscapeAll(s: string): string {
    if s == [] then [] else Escape(s[0]) + EscapeAll(s[1..])
  }

  function Quote(s: string): string {
    "\"" + EscapeAll(s) + "\""
  }

  /** The string whose inside starts here, and what follows its closing quote. */
  function ReadString(t: string): (r: Option<(string, string)>)
    ensures r.Some? ==> |r.value.1| < |t|
    decreases |t|
  {
    if t == [] then None
    else if t[0] == '"' then Some(([], t[1..]))
    else
      match ReadChar(t)
      case None => None
      case Some((c, rest)) =>
        match ReadString(rest)
        case None => None
        case Some((s, after)) => Some(([c] + s, after))
  }

  lemma ReadStringStep(t: string, c: char, tail: string, s: string, rest: string)
    requires t != [] && t[0] != '"' && ReadChar(t) == Some((c, tail)) && ReadString(tail) == Some((s, rest))
    ensures ReadString(t) == Some(([c] + s, rest))
  {
    hide ReadChar;
  }

  lemma Regroup(a: string, b: string, c: string, d: string)
    ensures a + b + c + d == a + (b + c + d)
  {
  }

  lemma {:induction false} QuotedReadsBack(s: string, rest: string)
    ensures ReadString(EscapeAll(s) + "\"" + rest) == Some((s, rest))
  {
    var t := EscapeAll(s) + "\"" + rest;
    if s == [] {
      assert t == "\"" + rest && t[0] == '"' && t[1..] == rest;
    } else {
      hide Escape, ReadChar, ReadString;
      var e, es := Escape(s[0]), EscapeAll(s[1..]);
      assert EscapeAll(s) == e + es;
      hide EscapeAll;
      var tail := es + "\"" + rest;
      EscapeReadsBack(s[0], tail);
      Regroup(e, es, "\"", rest);
      QuotedReadsBack(s[1..], rest);
      ReadStringStep(t, s[0], tail, s[1..], rest);
      assert [s[0]] + s[1..] == s;
    }
  }

  // ----- Arrays of strings -----

  function MarshalItems(ss: seq<string>): string
    requires ss != []
  {
    Quote(ss[0]) + (if |ss| == 1 then "]" else "," + MarshalItems(ss[1..]))
  }

  /** json.Marshal of a slice of strings that is not nil. */
  function MarshalStrings(ss: seq<string>): string {
    if ss == [] then "[]" else "[" + MarshalItems(ss)
  }

  predicate IsBlank(c: char) {
    c == ' ' || c == '\t' || c == '\n' || c == '\r'
  }

  function SkipBlanks(t: string): (r: string)
    ensures |r| <= |t|
  {
    if t != [] && IsBlank(t[0]) then SkipBlanks(t[1..]) else t
  }

  /** An element: a string, or null, which stands for the empty string.  Anything else is an error. */
  function ReadElement(t: string): (r: Option<(string, string)>)
    ensures r.Some? ==> |r.value.1| < |t|
  {
    if t != [] && t[0] == '"' then ReadString(t[1..])
    else if HasPrefix(t, "null") then Some(("", t[4..]))
    else None
  }

  /** The elements from here to the end of the text. */
  function ReadElements(t: string): Option<seq<string>>
    decreases |t|
  {
    match ReadElement(t)
    case None => None
    case Some((item, after)) =>
      var rest := SkipBlanks(after);
      if rest == [] then None
      else if rest[0] == ']' then if SkipBlanks(rest[1..]) == [] then Some([item]) else None
      else if rest[0] != ',' then None
      else
        match ReadElements(SkipBlanks(rest[1..]))
        case None => None
        case Some(items) => Some([item] + items)
  }

  /** json.Unmarshal into a nil slice of strings; None is its error. */
  function UnmarshalStrings(text: string): Option<seq<string>> {
    var t := SkipBlanks(text);
    if HasPrefix(t, "null") then if SkipBlanks(t[4..]) == [] then Some([]) else None
    else if t == [] || t[0] != '[' then None
    else
      var u := SkipBlanks(t[1..]);
      if u != [] && u[0] == ']' then if SkipBlanks(u[1..]) == [] then Some([]) else None
      else ReadElements(u)
  }

  lemma {:induction false} ItemsReadBack(ss: seq<string>)
    requires ss != []
    ensures ReadElements(MarshalItems(ss)) == Some(ss)
    ensures MarshalItems(ss)[0] == '"'
  {
    hide ReadString, EscapeAll;
    var t := MarshalItems(ss);
    if |ss| == 1 {
      assert t[1..] == EscapeAll(ss[0]) + "\"" + "]";
      QuotedReadsBack(ss[0], "]");
      assert ss == [ss[0]];
    } else {
      var more := MarshalItems(ss[1..]);
      assert t[1..] == EscapeAll(ss[0]) + "\"" + ("," + more);
      QuotedReadsBack(ss[0], "," + more);
      ItemsReadBack(ss[1..]);
      assert ("," + more)[1..] == more;
      assert [ss[0]] + ss[1..] == ss;
    }
  }

  /** Every slice of strings, whatever characters they hold, reads back. */
  lemma JsonRoundTrip(ss: seq<string>)
    ensures UnmarshalStrings(MarshalStrings(ss)) == Some(ss)
  {
    hide MarshalItems, ReadElements;
    var t := MarshalStrings(ss);
    if ss == [] {
      assert t[1..] == "]" && "]"[1..] == [];
    } else {
      ItemsReadBack(ss);
      assert t[1..] == MarshalItems(ss);
    }
  }

  lemma {:induction false} SkipBlanksOf(w: string, t: string)
    requires (forall i | 0 <= i < |w| :: w[i] in {' ', '\t', '\n', '\r'}) && (t == [] || !IsBlank(t[0]))
    ensures SkipBlanks(w + t) == t
  {
    if w == [] {
      assert w + t == t;
    } else {
      assert (w + t)[1..] == w[1..] + t;
      SkipBlanksOf(w[1..], t);
    }
  }

  /** Blanks, tabs and line ends may stand around an element and around the whole. */
  lemma BlanksAllowed(w: string, s: string)
    requires forall i | 0 <= i < |w| :: w[i] in {' ', '\t', '\n', '\r'}
    ensures UnmarshalStrings(w + ("[" + (w + (Quote(s) + (w + ("]" + w)))))) == Some([s])
  {
    hide ReadString, EscapeAll, SkipBlanks;
    var tail := w + ("]" + w);
    var inner := Quote(s) + tail;
    var whole := "[" + (w + inner);
    SkipBlanksOf(w, whole);
    assert whole[1..] == w + inner;
    SkipBlanksOf(w, inner);
    assert inner[1..] == EscapeAll(s) + "\"" + tail;
    QuotedReadsBack(s, tail);
    SkipBlanksOf(w, "]" + w);
    assert ("]" + w)[1..] == w;
    SkipBlanksOf(w, "");
    assert w + "" == w;
  }

  /** null is no slice, and as an element the empty string. */
  lemma NullForms()
    ensures UnmarshalStrings("null") == Some([]) && UnmarshalStrings("[null]") == Some([""])
  {
    assert "null"[4..] == "";
    assert "[null]"[1..] == "null]" && "null]"[4..] == "]" && "]"[1..] == "";
  }
}
