/** Records whose domain is a regular expression: what the pattern after reg: means for a host, and what the
    index answers.  The search is unanchored; ^ and $ tie it to the ends of the host. */
module Patterns {
  import opened Text
  import opened Regex
  import opened Glob
  import opened Records
  import opened MatchIndex

  function Literals(s: string): seq<Node> {
    if s == [] then [] else [One(Literal(s[0]))] + Literals(s[1..])
  }

  /** A quoted text between the anchors that are wanted. */
  function Anchored(s: string, begin: bool, end: bool): string {
    (if begin then "^" else "") + (QuoteMeta(s) + (if end then "$" else ""))
  }

  // ----- The pattern parses to the letters of the text -----

  lemma QuotedParses(c: char, rest: string)
    requires rest == [] || rest[0] != '*'
    ensures Parse((if IsMeta(c) then ['\\', c] else [c]) + rest) == Prepend(One(Literal(c)), Parse(rest))
  {
    hide Prepend;
    if IsMeta(c) {
      var p := ['\\', c] + rest;
      assert p[1] == c && p[2..] == rest;
    } else {
      var p := [c] + rest;
      assert p[0] == c && p[1..] == rest;
    }
  }

  lemma QuotedStart(s: string, tail: string)
    requires tail == [] || tail[0] != '*'
    ensures var t := QuoteMeta(s) + tail; t == [] || t[0] != '*'
  {
  }

  lemma {:induction false} AllQuotedParses(s: string, tail: string)
    requires tail == [] || tail[0] != '*'
    requires Parse(tail).Some?
    ensures Parse(QuoteMeta(s) + tail) == Some(Literals(s) + Parse(tail).value)
  {
    if s == [] {
      assert QuoteMeta(s) + tail == tail && Literals(s) + Parse(tail).value == Parse(tail).value;
    } else {
      var first, q := if IsMeta(s[0]) then ['\\', s[0]] else [s[0]], QuoteMeta(s[1..]);
      assert QuoteMeta(s) == first + q;
      hide Parse, QuoteMeta, IsMeta;
      var rest := q + tail;
      assert (first + q) + tail == first + rest;
      QuotedStart(s[1..], tail);
      QuotedParses(s[0], rest);
      AllQuotedParses(s[1..], tail);
      assert Literals(s) + Parse(tail).value == [One(Literal(s[0]))] + (Literals(s[1..]) + Parse(tail).value);
    }
  }

  lemma ParseEnds()
    ensures Parse("") == Some([]) && Parse("$") == Some([End])
  {
    assert "$"[1..] == "" && [End] + [] == [End];
  }

  lemma AnchoredParses(s: string, begin: bool, end: bool)
    ensures Parse(Anchored(s, begin, end))
         == Some((if begin then [Begin] else []) + (Literals(s) + (if end then [End] else [])))
  {
    ParseEnds();
    var body := QuoteMeta(s) + (if end then "$" else "");
    AllQuotedParses(s, if end then "$" else "");
    var ns := Literals(s) + (if end then [End] else []);
    assert Parse(body) == Some(ns);
    if begin {
      assert Anchored(s, begin, end) == "^" + body && ("^" + body)[1..] == body;
      assert Parse("^" + body) == Prepend(Begin, Parse(body));
    } else {
      assert Anchored(s, begin, end) == body;
      assert [] + ns == ns;
    }
  }

  // ----- The nodes match the text -----

  lemma {:induction false} LiteralsMatch(s: string, tail: seq<Node>, t: string, i: nat)
    requires i <= |t|
    ensures MatchAt(Literals(s) + tail, t, i)
            <==> i + |s| <= |t| && t[i..i + |s|] == s && MatchAt(tail, t, i + |s|)
  {
    var ns := Literals(s) + tail;
    if s == [] {
      assert ns == tail;
    } else {
      assert ns[1..] == Literals(s[1..]) + tail;
      if i < |t| {
        LiteralsMatch(s[1..], tail, t, i + 1);
        if i + |s| <= |t| {
          assert t[i..i + |s|] == [t[i]] + t[i + 1..i + |s|];
          assert s == [s[0]] + s[1..];
        }
      }
    }
  }

  lemma EndsMatch(t: string, i: nat)
    requires i <= |t|
    ensures MatchAt([], t, i) && (MatchAt([End], t, i) <==> i == |t|)
  {
    assert [End][1..] == [];
  }

  /** s stands in the host: at its front if begin, at its back if end. */
  ghost predicate Stands(s: string, host: string, begin: bool, end: bool) {
    exists i, j | 0 <= i <= j <= |host| :: host[i..j] == s && (begin ==> i == 0) && (end ==> j == |host|)
  }

  lemma AnchoredAt(s: string, host: string, begin: bool, end: bool, i: nat)
    requires i <= |host|
    ensures var ns := (if begin then [Begin] else []) + (Literals(s) + (if end then [End] else []));
            MatchAt(ns, host, i)
            <==> && i + |s| <= |host| && host[i..i + |s|] == s
                 && (begin ==> i == 0) && (end ==> i + |s| == |host|)
  {
    var tail := if end then [End] else [];
    var body := Literals(s) + tail;
    LiteralsMatch(s, tail, host, i);
    if i + |s| <= |host| {
      EndsMatch(host, i + |s|);
    }
    if begin {
      assert ([Begin] + body)[1..] == body;
    } else {
      assert [] + body == body;
    }
  }

  /** For every text, with or without metacharacters, and every host: the pattern of the quoted text matches
      exactly where the text stands. */
  lemma QuotedPatternMatches(s: string, host: string, begin: bool, end: bool)
    ensures PatternMatches("reg:" + Anchored(s, begin, end), host) <==> Stands(s, host, begin, end)
  {
    hide Anchored, MatchAt;
    var p := Anchored(s, begin, end);
    assert ("reg:" + p)[4..] == p;
    AnchoredParses(s, begin, end);
    var ns := (if begin then [Begin] else []) + (Literals(s) + (if end then [End] else []));
    forall i | 0 <= i <= |host|
      ensures MatchAt(ns, host, i)
              <==> && i + |s| <= |host| && host[i..i + |s|] == s
                   && (begin ==> i == 0) && (end ==> i + |s| == |host|)
    {
      AnchoredAt(s, host, begin, end, i);
    }
    if Stands(s, host, begin, end) {
      var i, j :| 0 <= i <= j <= |host| && host[i..j] == s && (begin ==> i == 0) && (end ==> j == |host|);
      assert MatchAt(ns, host, i);
    }
    if i :| 0 <= i <= |host| && MatchAt(ns, host, i) {
      assert host[i..i + |s|] == s;
    }
  }

  /** A regular expression without anchors is searched for anywhere in the host. */
  lemma SearchIsUnanchored(s: string, host: string)
    ensures PatternMatches("reg:" + QuoteMeta(s), host) <==> exists i, j | 0 <= i <= j <= |host| :: host[i..j] == s
  {
    QuotedPatternMatches(s, host, false, false);
    assert "" + (QuoteMeta(s) + "") == QuoteMeta(s);
  }

  /** With ^ the host must begin with the text. */
  lemma CaretTiesTheFront(s: string, host: string)
    ensures PatternMatches("reg:^" + QuoteMeta(s), host) <==> |s| <= |host| && host[..|s|] == s
  {
    hide PatternMatches, QuoteMeta;
    QuotedPatternMatches(s, host, true, false);
    assert "reg:" + ("^" + (QuoteMeta(s) + "")) == "reg:^" + QuoteMeta(s);
    if |s| <= |host| && host[..|s|] == s {
      assert host[0..|s|] == s;
    }
  }

  /** With $ it must end with it. */
  lemma DollarTiesTheBack(s: string, host: string)
    ensures PatternMatches("reg:" + QuoteMeta(s) + "$", host) <==> |s| <= |host| && host[|host| - |s|..] == s
  {
    hide PatternMatches, QuoteMeta, Stands;
    QuotedPatternMatches(s, host, false, true);
    assert "reg:" + ("" + (QuoteMeta(s) + "$")) == "reg:" + QuoteMeta(s) + "$";
    StandsAtTheBack(s, host);
  }

  lemma StandsAtTheBack(s: string, host: string)
    ensures Stands(s, host, false, true) <==> |s| <= |host| && host[|host| - |s|..] == s
  {
    if |s| <= |host| && host[|host| - |s|..] == s {
      assert host[|host| - |s|..|host|] == s;
    }
  }

  /** With both it must be it. */
  lemma AnchorsTieBoth(s: string, host: string)
    ensures PatternMatches("reg:^" + QuoteMeta(s) + "$", host) <==> host == s
  {
    hide PatternMatches, QuoteMeta;
    QuotedPatternMatches(s, host, true, true);
    assert "reg:" + ("^" + (QuoteMeta(s) + "$")) == "reg:^" + QuoteMeta(s) + "$";
    assert host[0..|host|] == host;
  }

  /** A starred letter takes any run of that letter, the empty one included. */
  lemma StarredLetter(c: char, host: string)
    requires IsDigit(c) || 'a' <= c <= 'z'
    ensures PatternMatches("reg:^" + [c] + "*$", host) <==> forall i | 0 <= i < |host| :: host[i] == c
  {
    var p := "^" + [c] + "*$";
    assert "reg:^" + [c] + "*$" == "reg:" + p && ("reg:" + p)[4..] == p;
    var ns := [Begin, Many(Literal(c)), End];
    LetterParses(c);
    assert p[1..] == [c] + "*$" && Parse(p) == Prepend(Begin, Parse([c] + "*$"));
    assert [Begin] + [Many(Literal(c)), End] == ns;
    assert Parse(p) == Some(ns);
    assert ns[1..] == [Many(Literal(c)), End];
    RunOfLetter(c, host, 0);
    assert MatchAt(ns, host, 0) <==> forall i | 0 <= i < |host| :: host[i] == c;
  }

  lemma LetterParses(c: char)
    requires IsDigit(c) || 'a' <= c <= 'z'
    ensures Parse([c] + "*$") == Some([Many(Literal(c)), End])
  {
    ParseEnds();
    var p := [c] + "*$";
    assert p[0] == c && p[1..] == "*$" && "*$"[1..] == "$";
    assert ParseAtom(p) == Some((Literal(c), "*$"));
    assert [Many(Literal(c))] + [End] == [Many(Literal(c)), End];
    assert Parse(p) == Prepend(Many(Literal(c)), Parse("$"));
  }

  lemma {:induction false} RunOfLetter(c: char, t: string, i: nat)
    requires i <= |t|
    ensures MatchAt([Many(Literal(c)), End], t, i) <==> forall k | i <= k < |t| :: t[k] == c
    decreases |t| - i
  {
    var ns := [Many(Literal(c)), End];
    assert ns[1..] == [End];
    EndsMatch(t, i);
    if i < |t| {
      RunOfLetter(c, t, i + 1);
    }
  }

  /** A pattern outside the concrete fragment matches what the engine says, if the engine accepts it. */
  lemma EngineDecidesTheRest(p: string, host: string)
    requires Parse(p).None?
    ensures PatternMatches("reg:" + p, host) <==> ENGINE.compiles(p) && ENGINE.matches(p, host)
  {
    assert ("reg:" + p)[4..] == p;
  }

  /** QuoteMeta escapes exactly the metacharacters; a bare one among +()|[]{}, and an escaped letter or digit,
      is not taken for itself. */
  lemma MetaCharacters(c: char, rest: string)
    ensures QuoteMeta([c])
         == if c in {'\\', '.', '+', '*', '?', '(', ')', '|', '[', ']', '{', '}', '^', '$'} then ['\\', c] else [c]
    ensures c in {'+', '*', '?', '(', ')', '|', '[', ']', '{', '}'} ==> Parse([c] + rest) == None
    ensures IsDigit(c) || 'a' <= c <= 'z' || 'A' <= c <= 'Z' ==> Parse(['\\', c] + rest) == None
  {
    assert QuoteMeta([c]) == (if IsMeta(c) then ['\\', c] else [c]) + QuoteMeta([c][1..]);
    var p, q := [c] + rest, ['\\', c] + rest;
    assert p[0] == c && q[0] == '\\' && q[1] == c;
  }

  // ----- What the index answers -----

  lemma OneRecordAnswers(r: Record, host: string)
    requires IsRegexDomain(r.domain)
    ensures Lookup(BuildIndex([r]), host)
         == if host == r.domain || PatternMatches(r.domain, host) then Some(r) else None
  {
    hide PatternMatches, Lookup, BuildIndex;
    var rs := [r];
    IndexRefinesFlatList(rs, host);
    if r.domain == host {
      assert rs[0].domain == host;
    } else if PatternMatches(r.domain, host) {
      assert PatternMatches(rs[0].domain, host);
    }
  }

  /** A lone record for a quoted text is the answer exactly for its own domain text and the hosts in which the
      text stands. */
  lemma QuotedRecordAnswers(r: Record, s: string, host: string)
    requires r.domain == "reg:" + QuoteMeta(s)
    ensures Lookup(BuildIndex([r]), host)
         == if host == r.domain || exists i, j | 0 <= i <= j <= |host| :: host[i..j] == s then Some(r) else None
  {
    hide PatternMatches, Lookup, BuildIndex;
    OneRecordAnswers(r, host);
    SearchIsUnanchored(s, host);
  }

  // ----- Which record wins -----

  /** A pattern that matches beats a wildcard that matches, wherever they are listed. */
  lemma PatternBeatsWildcard(p: Record, w: Record, s: string, suffix: string, host: string)
    requires p.domain == "reg:" + QuoteMeta(s) && w.domain == "*" + suffix && '*' !in suffix && '?' !in suffix
    requires exists i, j | 0 <= i <= j <= |host| :: host[i..j] == s
    requires host != p.domain && host != w.domain
    ensures Lookup(BuildIndex([p, w]), host) == Some(p) && Lookup(BuildIndex([w, p]), host) == Some(p)
  {
    SearchIsUnanchored(s, host);
    DomainKindOfWildcard(suffix);
    hide QuoteMeta, MatchString, Lookup, BuildIndex, IsPlainWildcard, PatternMatches;
    forall rs: seq<Record> | rs == [p, w] || rs == [w, p]
      ensures Lookup(BuildIndex(rs), host) == Some(p)
    {
      IndexRefinesFlatList(rs, host);
      assert rs[0] in {p, w} && rs[1] in {p, w};
      assert HasPattern(rs, host);
    }
  }

  /** A plain wildcard is no pattern. */
  lemma DomainKindOfWildcard(suffix: string)
    requires '*' !in suffix && '?' !in suffix
    ensures IsPlainWildcard("*" + suffix) && forall host :: !PatternMatches("*" + suffix, host)
  {
    var d := "*" + suffix;
    assert d[0] == '*' && d[1..] == suffix;
    DomainKinds(d);
  }

  /** Of two patterns that match, the one listed first wins. */
  lemma FirstPatternWins(p: Record, q: Record, s: string, t: string, host: string)
    requires p.domain == "reg:" + QuoteMeta(s) && q.domain == "reg:" + QuoteMeta(t)
    requires exists i, j | 0 <= i <= j <= |host| :: host[i..j] == s
    requires exists i, j | 0 <= i <= j <= |host| :: host[i..j] == t
    requires host != p.domain && host != q.domain
    ensures Lookup(BuildIndex([p, q]), host) == Some(p)
  {
    hide QuoteMeta, MatchString, Lookup, BuildIndex, PatternMatches;
    SearchIsUnanchored(s, host);
    SearchIsUnanchored(t, host);
    var rs := [p, q];
    IndexRefinesFlatList(rs, host);
    assert PatternMatches(rs[0].domain, host) && rs[1] == q;
    assert HasPattern(rs, host);
  }

  /** Of two wildcards that match, the longer one wins, wherever they are listed. */
  lemma LongerWildcardWins(v: Record, w: Record, s: string, t: string, host: string)
    requires v.domain == "*" + s && w.domain == "*" + t && |s| < |t|
    requires '*' !in s && '?' !in s && '*' !in t && '?' !in t
    requires |t| <= |host| && host[|host| - |s|..] == s && host[|host| - |t|..] == t
    requires host != v.domain && host != w.domain
    ensures Lookup(BuildIndex([v, w]), host) == Some(w) && Lookup(BuildIndex([w, v]), host) == Some(w)
  {
    DomainKindOfWildcard(s);
    DomainKindOfWildcard(t);
    assert v.domain[1..] == s && w.domain[1..] == t;
    hide Lookup, BuildIndex, IsPlainWildcard, PatternMatches, IsBestMatch;
    IndexRefinesFlatList([v, w], host);
    IndexRefinesFlatList([w, v], host);
    BestOfTwo(v, w, [v, w], 1, host, Lookup(BuildIndex([v, w]), host));
    BestOfTwo(v, w, [w, v], 0, host, Lookup(BuildIndex([w, v]), host));
  }

  lemma BestOfTwo(v: Record, w: Record, rs: seq<Record>, at: nat, host: string, answer: Option<Record>)
    requires |rs| == 2 && at < 2 && rs[at] == w && rs[1 - at] == v && |v.domain| < |w.domain|
    requires host != v.domain && host != w.domain && WildcardMatches(w.domain, host)
    requires !PatternMatches(v.domain, host) && !PatternMatches(w.domain, host)
    requires IsBestMatch(rs, host, answer)
    ensures answer == Some(w)
  {
    hide WildcardMatches, PatternMatches;
    assert !HasExact(rs, host) && !HasPattern(rs, host);
    assert WildcardMatches(rs[at].domain, host);
    var i :| LongestWildcardAt(rs, host, i) && answer == Some(rs[i]);
    assert i == at;
  }

  /** A record for the very name wins over all others, and the last one listed over earlier ones. */
  lemma ExactNameWins(rs: seq<Record>, r: Record)
    ensures Lookup(BuildIndex(rs + [r]), r.domain) == Some(r)
  {
    hide Lookup, BuildIndex;
    var all := rs + [r];
    IndexRefinesFlatList(all, r.domain);
    assert all[|rs|] == r;
  }
}
