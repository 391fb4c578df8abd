/** core/cache.go: the glob compiler domainToRegex, and that it preserves the meaning of a glob. */
module Glob {
  import opened Text
  import opened Regex

  /** regexp.QuoteMeta. */
  function QuoteMeta(s: string): string {
    if s == [] then []
    else (if IsMeta(s[0]) then ['\\', s[0]] else [s[0]]) + QuoteMeta(s[1..])
  }

  function DomainToRegex(domain: string): string {
    var r := QuoteMeta(domain);
    var r := ReplaceAll(r, "\\*", ".*");
    var r := ReplaceAll(r, "\\?", ".");
    "^" + r + "$"
  }

  predicate NoNewline(s: string) {
    '\n' !in s
  }

  /** What a glob means: a star is any run without newlines, a question mark any one character
      but a newline, and every other character itself. */
  predicate Matches(glob: string, host: string) {
    if glob == [] then host == []
    else if glob[0] == '*' then
      exists k | 0 <= k <= |host| :: NoNewline(host[..k]) && Matches(glob[1..], host[k..])
    else if glob[0] == '?' then host != [] && host[0] != '\n' && Matches(glob[1..], host[1..])
    else host != [] && host[0] == glob[0] && Matches(glob[1..], host[1..])
  }

  /** How one character reads when the star pass (and then the question mark pass) has run. */
  function Spelling(c: char, stars: bool, marks: bool): string {
    if c == '*' && stars then ".*"
    else if c == '?' && marks then "."
    else if IsMeta(c) then ['\\', c]
    else [c]
  }

  function Spell(s: string, stars: bool, marks: bool): string {
    if s == [] then [] else Spelling(s[0], stars, marks) + Spell(s[1..], stars, marks)
  }

  lemma {:induction false} QuoteMetaSpells(s: string)
    ensures QuoteMeta(s) == Spell(s, false, false)
  {
    if s != [] {
      QuoteMetaSpells(s[1..]);
    }
  }

  /** A bare star or question mark never stands at a boundary between two spelled characters. */
  lemma SpellBoundary(s: string, stars: bool, marks: bool)
    ensures Spell(s, stars, marks) != [] ==> Spell(s, stars, marks)[0] != '*' && Spell(s, stars, marks)[0] != '?'
  {
  }

  lemma ReplaceSkips(x: char, rest: string, needle: string, repl: string)
    requires |needle| == 2 && (x != needle[0] || rest == [] || rest[0] != needle[1])
    ensures ReplaceAll([x] + rest, needle, repl) == [x] + ReplaceAll(rest, needle, repl)
  {
  }

  lemma ReplaceHits(rest: string, needle: string, repl: string)
    requires needle != []
    ensures ReplaceAll(needle + rest, needle, repl) == repl + ReplaceAll(rest, needle, repl)
  {
  }

  /** One pass over one spelled character: it rewrites the escape of mark and nothing else. */
  lemma ReplaceStep(c: char, rest: string, mark: char, repl: string, stars: bool, marks: bool)
    requires mark == '*' || mark == '?'
    requires mark == '*' ==> !stars && !marks
    requires mark == '?' ==> stars && !marks
    requires rest != [] ==> rest[0] != '*' && rest[0] != '?'
    ensures ReplaceAll(Spelling(c, stars, marks) + rest, ['\\', mark], repl)
         == (if c == mark then repl else Spelling(c, stars, marks)) + ReplaceAll(rest, ['\\', mark], repl)
  {
    var needle := ['\\', mark];
    var w := Spelling(c, stars, marks);
    if c == mark {
      ReplaceHits(rest, needle, repl);
    } else if |w| == 1 {
      ReplaceSkips(w[0], rest, needle, repl);
      assert w + rest == [w[0]] + rest;
    } else {
      var tail := [w[1]] + rest;
      assert w + rest == [w[0]] + tail;
      ReplaceSkips(w[1], rest, needle, repl);
      ReplaceSkips(w[0], tail, needle, repl);
      assert [w[0]] + ([w[1]] + ReplaceAll(rest, needle, repl)) == w + ReplaceAll(rest, needle, repl);
    }
  }

  /** The star pass hits exactly the escapes that QuoteMeta produced for stars. */
  lemma {:induction false} StarPass(s: string)
    ensures ReplaceAll(Spell(s, false, false), "\\*", ".*") == Spell(s, true, false)
  {
    if s != [] {
      var rest := Spell(s[1..], false, false);
      SpellBoundary(s[1..], false, false);
      ReplaceStep(s[0], rest, '*', ".*", false, false);
      StarPass(s[1..]);
      assert ['\\', '*'] == "\\*";
    }
  }

  /** The question mark pass hits exactly the escapes that QuoteMeta produced for question marks. */
  lemma {:induction false} MarkPass(s: string)
    ensures ReplaceAll(Spell(s, true, false), "\\?", ".") == Spell(s, true, true)
  {
    if s != [] {
      var rest := Spell(s[1..], true, false);
      SpellBoundary(s[1..], true, false);
      ReplaceStep(s[0], rest, '?', ".", true, false);
      MarkPass(s[1..]);
      assert ['\\', '?'] == "\\?";
    }
  }

  /** For every domain, backslashes and all other metacharacters included, the two raw replacements
      act character by character. */
  lemma CompilerAligned(domain: string)
    ensures DomainToRegex(domain) == "^" + Spell(domain, true, true) + "$"
  {
    QuoteMetaSpells(domain);
    StarPass(domain);
    MarkPass(domain);
  }

  function NodeOf(c: char): Node {
    if c == '*' then Many(AnyChar) else if c == '?' then One(AnyChar) else One(Literal(c))
  }

  /** The nodes a glob stands for. */
  function Nodes(glob: string): seq<Node> {
    if glob == [] then [] else [NodeOf(glob[0])] + Nodes(glob[1..])
  }

  lemma SpellingParses(c: char, rest: string)
    requires rest != [] && rest[0] != '*'
    ensures Parse(Spelling(c, true, true) + rest) == Prepend(NodeOf(c), Parse(rest))
  {
    hide Prepend;
    var p := Spelling(c, true, true) + rest;
    if c == '*' {
      assert p[0] == '.' && p[1..][0] == '*' && p[1..][1..] == rest;
    } else if c == '?' {
      assert p[0] == '.' && p[1..] == rest;
    } else if IsMeta(c) {
      assert p[0] == '\\' && p[1] == c && p[2..] == rest;
    } else {
      assert p[0] == c && p[1..] == rest;
    }
  }

  lemma {:induction false} SpelledParses(s: string)
    ensures Parse(Spell(s, true, true) + "$") == Some(Nodes(s) + [End])
  {
    if s == [] {
      assert Spell(s, true, true) + "$" == "$" && "$"[1..] == [];
      assert Nodes(s) + [End] == [End] + [];
    } else {
      var rest := Spell(s[1..], true, true) + "$";
      SpellBoundary(s[1..], true, true);
      SpellingParses(s[0], rest);
      SpelledParses(s[1..]);
      assert Spell(s, true, true) + "$" == Spelling(s[0], true, true) + rest;
      assert Nodes(s) + [End] == [NodeOf(s[0])] + (Nodes(s[1..]) + [End]);
    }
  }

  /** Every compiled glob is in the concrete fragment, so its compilation never fails. */
  lemma GlobCompiles(domain: string)
    ensures Compile(DomainToRegex(domain)) == Some(Fragment([Begin] + Nodes(domain) + [End]))
  {
    CompilerAligned(domain);
    SpelledParses(domain);
    var body := Spell(domain, true, true) + "$";
    assert DomainToRegex(domain) == "^" + body && ("^" + body)[1..] == body;
    assert [Begin] + Nodes(domain) + [End] == [Begin] + (Nodes(domain) + [End]);
  }

  /** A starred dot takes any newline-free run. */
  lemma {:induction false} ManyAnyTakesRun(ns: seq<Node>, t: string, i: nat)
    requires i <= |t| && ns != [] && ns[0] == Many(AnyChar)
    ensures MatchAt(ns, t, i) <==>
            exists k | 0 <= k <= |t| - i :: NoNewline(t[i..][..k]) && MatchAt(ns[1..], t, i + k)
    decreases |t| - i
  {
    var u := t[i..];
    assert u[..0] == [];
    if i < |t| {
      ManyAnyTakesRun(ns, t, i + 1);
      var v := t[i + 1..];
      forall k | 0 <= k <= |v|
        ensures NoNewline(u[..k + 1]) <==> t[i] != '\n' && NoNewline(v[..k])
      {
        assert u[..k + 1] == [t[i]] + v[..k];
      }
      if MatchAt(ns, t, i + 1) && t[i] != '\n' {
        var k :| 0 <= k <= |v| && NoNewline(v[..k]) && MatchAt(ns[1..], t, i + 1 + k);
        assert NoNewline(u[..k + 1]) && MatchAt(ns[1..], t, i + (k + 1));
      }
      if k :| 0 < k <= |u| && NoNewline(u[..k]) && MatchAt(ns[1..], t, i + k) {
        assert NoNewline(v[..k - 1]) && MatchAt(ns[1..], t, i + 1 + (k - 1));
      }
    }
  }

  lemma {:induction false} NodesMatch(glob: string, t: string, i: nat)
    requires i <= |t|
    ensures MatchAt(Nodes(glob) + [End], t, i) <==> Matches(glob, t[i..])
    decreases |glob|
  {
    var ns := Nodes(glob) + [End];
    if glob == [] {
      assert ns[1..] == [];
    } else {
      assert ns[1..] == Nodes(glob[1..]) + [End];
      if glob[0] == '*' {
        ManyAnyTakesRun(ns, t, i);
        forall k | 0 <= k <= |t| - i
          ensures MatchAt(ns[1..], t, i + k) <==> Matches(glob[1..], t[i..][k..])
        {
          NodesMatch(glob[1..], t, i + k);
          assert t[i..][k..] == t[i + k..];
        }
      } else if i < |t| {
        NodesMatch(glob[1..], t, i + 1);
        assert t[i..][1..] == t[i + 1..];
      }
    }
  }

  /** Compilation preserves meaning: for every domain and every host the compiled pattern exists
      and matches exactly the hosts the glob matches. */
  lemma GlobCompilationPreservesMeaning(domain: string, host: string)
    ensures Compile(DomainToRegex(domain)).Some?
    ensures MatchString(Compile(DomainToRegex(domain)).value, host) <==> Matches(domain, host)
  {
    GlobCompiles(domain);
    var body := Nodes(domain) + [End];
    var ns := [Begin] + Nodes(domain) + [End];
    assert ns[1..] == body;
    NodesMatch(domain, host, 0);
    assert host[0..] == host;
    assert MatchAt(ns, host, 0) <==> Matches(domain, host);
  }

  /** A glob without stars and question marks is a plain string. */
  lemma {:induction false} LiteralGlob(glob: string, host: string)
    requires '*' !in glob && '?' !in glob
    ensures Matches(glob, host) <==> host == glob
  {
    if glob != [] {
      assert glob == [glob[0]] + glob[1..];
      if host != [] {
        assert host == [host[0]] + host[1..];
        LiteralGlob(glob[1..], host[1..]);
      }
    }
  }

  /** A single leading star: the suffix must agree, and what the star takes must be newline-free. */
  lemma LeadingStarGlob(suffix: string, host: string)
    requires '*' !in suffix && '?' !in suffix
    ensures Matches("*" + suffix, host) <==>
            HasSuffix(host, suffix) && NoNewline(host[..|host| - |suffix|])
  {
    var glob := "*" + suffix;
    assert glob[1..] == suffix;
    forall k | 0 <= k <= |host|
      ensures Matches(suffix, host[k..]) <==> HasSuffix(host, suffix) && k == |host| - |suffix|
    {
      LiteralGlob(suffix, host[k..]);
    }
  }
}
