/** Go's regexp package as the matcher uses it.  The fragment of literals, escapes, dot, star and
    the two anchors is concrete; every other pattern is left to an arbitrary engine. */
module Regex {
  import opened Text

  datatype Atom = Literal(c: char) | AnyChar

  datatype Node = One(atom: Atom) | Many(atom: Atom) | Begin | End

  /** What the concrete fragment does not cover: which patterns compile, and what they match. */
  datatype Engine = Engine(compiles: string -> bool, matches: (string, string) -> bool)

  /** Deliberately without a value: every theorem holds for whatever engine this is. */
  const ENGINE: Engine

  datatype Regexp = Fragment(nodes: seq<Node>) | General(pattern: string)

  /** The characters regexp.QuoteMeta escapes. */
  predicate IsMeta(c: char) {
    c in "\\.+*?()|[]{}^$"
  }

  /** A backslash escapes any ASCII character that is not a letter or a digit. */
  predicate IsEscapable(c: char) {
    c < '\U{80}' && !IsDigit(c) && !('a' <= c <= 'z') && !('A' <= c <= 'Z')
  }

  /** One atom at the front of a pattern, and the rest of the pattern. */
  function ParseAtom(p: string): (r: Option<(Atom, string)>)
    ensures r.Some? ==> |r.value.1| < |p|
  {
    if p == [] then None
    else if p[0] == '.' then Some((AnyChar, p[1..]))
    else if p[0] == '\\' then
      if |p| > 1 && IsEscapable(p[1]) then Some((Literal(p[1]), p[2..])) else None
    else if IsMeta(p[0]) then None
    else Some((Literal(p[0]), p[1..]))
  }

  function Prepend(n: Node, r: Option<seq<Node>>): Option<seq<Node>> {
    if r.None? then None else Some([n] + r.value)
  }

  /** The parser of the fragment; None is a pattern outside it. */
  function Parse(p: string): Option<seq<Node>>
    decreases |p|
  {
    if p == [] then Some([])
    else if p[0] == '^' then Prepend(Begin, Parse(p[1..]))
    else if p[0] == '$' then Prepend(End, Parse(p[1..]))
    else
      match ParseAtom(p)
      case None => None
      case Some((a, rest)) =>
        if rest != [] && rest[0] == '*' then Prepend(Many(a), Parse(rest[1..]))
        else Prepend(One(a), Parse(rest))
  }

  /** Without flags a dot is any character but a newline. */
  predicate AtomMatches(a: Atom, c: char) {
    match a
    case Literal(x) => c == x
    case AnyChar => c != '\n'
  }

  /** The nodes match a stretch of t that begins at i. */
  predicate MatchAt(ns: seq<Node>, t: string, i: nat)
    requires i <= |t|
    decreases |ns|, |t| - i
  {
    if ns == [] then true
    else
      match ns[0]
      case One(a) => i < |t| && AtomMatches(a, t[i]) && MatchAt(ns[1..], t, i + 1)
      case Many(a) => MatchAt(ns[1..], t, i) || (i < |t| && AtomMatches(a, t[i]) && MatchAt(ns, t, i + 1))
      case Begin => i == 0 && MatchAt(ns[1..], t, i)
      case End => i == |t| && MatchAt(ns[1..], t, i)
  }

  /** regexp.Compile; None is its error. */
  function Compile(p: string): Option<Regexp> {
    match Parse(p)
    case Some(ns) => Some(Fragment(ns))
    case None => if ENGINE.compiles(p) then Some(General(p)) else None
  }

  /** Regexp.MatchString: a match anywhere in the text. */
  predicate MatchString(re: Regexp, t: string) {
    match re
    case Fragment(ns) => exists i | 0 <= i <= |t| :: MatchAt(ns, t, i)
    case General(p) => ENGINE.matches(p, t)
  }
}
