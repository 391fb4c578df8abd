/** core/cache.go and core/handler.go: the index compiled from a flat list of records, and the
    lookup over it, against a declarative best match over the list. */
module MatchIndex {
  import opened Text
  import opened Regex
  import Glob
  import opened Records

  datatype Compiled = Compiled(record: Record, re: Regexp)

  /** The three structures of a Server: exact domains, length-sorted wildcards, compiled patterns. */
  datatype Index = Index(exact: map<string, Record>, wildcards: seq<Record>, regexes: seq<Compiled>)

  const EMPTY_INDEX := Index(map[], [], [])

  // ----- How a domain is classified -----

  predicate IsRegexDomain(d: string) {
    HasPrefix(d, "reg:")
  }

  predicate IsAdvancedGlob(d: string) {
    '?' in d || Count(d, '*') > 1 || ('*' in d && !HasPrefix(d, "*"))
  }

  predicate IsPlainWildcard(d: string) {
    !IsRegexDomain(d) && !IsAdvancedGlob(d) && HasPrefix(d, "*")
  }

  /** The pattern the index keeps for a domain, if it keeps one. */
  function CompiledDomain(d: string): Option<Regexp> {
    if IsRegexDomain(d) then Compile(d[4..])
    else if IsAdvancedGlob(d) then Compile(Glob.DomainToRegex(d))
    else None
  }

  // ----- The declarative side: what a record says about a host -----

  predicate PatternMatches(d: string, host: string) {
    if IsRegexDomain(d) then Compile(d[4..]).Some? && MatchString(Compile(d[4..]).value, host)
    else IsAdvancedGlob(d) && Glob.Matches(d, host)
  }

  predicate WildcardMatches(d: string, host: string) {
    IsPlainWildcard(d) && HasSuffix(host, d[1..])
  }

  ghost predicate HasExact(rs: seq<Record>, host: string) {
    exists i | 0 <= i < |rs| :: rs[i].domain == host
  }

  ghost predicate HasPattern(rs: seq<Record>, host: string) {
    exists i | 0 <= i < |rs| :: PatternMatches(rs[i].domain, host)
  }

  ghost predicate LastExactAt(rs: seq<Record>, host: string, i: int) {
    0 <= i < |rs| && rs[i].domain == host && forall j | i < j < |rs| :: rs[j].domain != host
  }

  ghost predicate FirstPatternAt(rs: seq<Record>, host: string, i: int) {
    0 <= i < |rs| && PatternMatches(rs[i].domain, host) && forall j | 0 <= j < i :: !PatternMatches(rs[j].domain, host)
  }

  ghost predicate LongestWildcardAt(rs: seq<Record>, host: string, i: int) {
    0 <= i < |rs| && WildcardMatches(rs[i].domain, host) &&
    forall j | 0 <= j < |rs| && WildcardMatches(rs[j].domain, host) ::
      |rs[j].domain| < |rs[i].domain| || (|rs[j].domain| == |rs[i].domain| && i <= j)
  }

  /** The answer a scan of the flat list gives: an exact domain (the last one listed), else the first
      listed regex or advanced glob that matches, else the longest plain wildcard that matches (the
      first listed among equals), else none. */
  ghost predicate IsBestMatch(rs: seq<Record>, host: string, answer: Option<Record>) {
    if HasExact(rs, host) then exists i :: LastExactAt(rs, host, i) && answer == Some(rs[i])
    else if HasPattern(rs, host) then exists i :: FirstPatternAt(rs, host, i) && answer == Some(rs[i])
    else if exists j | 0 <= j < |rs| :: WildcardMatches(rs[j].domain, host) then
      exists i :: LongestWildcardAt(rs, host, i) && answer == Some(rs[i])
    else answer == None
  }

  /** The flat list determines the answer. */
  lemma BestMatchUnique(rs: seq<Record>, host: string, a: Option<Record>, b: Option<Record>)
    requires IsBestMatch(rs, host, a) && IsBestMatch(rs, host, b)
    ensures a == b
  {
  }

  // ----- The index, built record by record -----

  function ExactMap(rs: seq<Record>): map<string, Record> {
    if rs == [] then map[] else ExactMap(rs[..|rs| - 1])[rs[|rs| - 1].domain := rs[|rs| - 1]]
  }

  function RegexEntry(r: Record): seq<Compiled> {
    match CompiledDomain(r.domain)
    case Some(re) => [Compiled(r, re)]
    case None => []
  }

  function Regexes(rs: seq<Record>): seq<Compiled> {
    if rs == [] then [] else Regexes(rs[..|rs| - 1]) + RegexEntry(rs[|rs| - 1])
  }

  function WildcardEntry(r: Record): seq<Record> {
    if IsPlainWildcard(r.domain) then [r] else []
  }

  function Wildcards(rs: seq<Record>): seq<Record> {
    if rs == [] then [] else Wildcards(rs[..|rs| - 1]) + WildcardEntry(rs[|rs| - 1])
  }

  // ----- sort.SliceStable by descending domain length in bytes -----

  function Key(r: Record): nat {
    ByteLen(r.domain)
  }

  predicate Sorted(s: seq<Record>) {
    forall i, j | 0 <= i < j < |s| :: Key(s[i]) >= Key(s[j])
  }

  function OfLength(s: seq<Record>, n: nat): seq<Record> {
    if s == [] then [] else (if Key(s[0]) == n then [s[0]] else []) + OfLength(s[1..], n)
  }

  /** What a stable sort promises: ordered, and the records of each length keep their order. */
  ghost predicate IsStableSort(s: seq<Record>, sorted: seq<Record>) {
    Sorted(sorted) && forall n: nat :: OfLength(sorted, n) == OfLength(s, n)
  }

  function Insert(r: Record, s: seq<Record>): seq<Record> {
    if s == [] || Key(s[0]) < Key(r) then [r] + s else [s[0]] + Insert(r, s[1..])
  }

  function SortByLength(s: seq<Record>): seq<Record> {
    if s == [] then [] else Insert(s[|s| - 1], SortByLength(s[..|s| - 1]))
  }

  lemma {:induction false} OfLengthAppend(a: seq<Record>, b: seq<Record>, n: nat)
    ensures OfLength(a + b, n) == OfLength(a, n) + OfLength(b, n)
  {
    if a == [] {
      assert a + b == b;
    } else {
      assert (a + b)[1..] == a[1..] + b;
      OfLengthAppend(a[1..], b, n);
    }
  }

  lemma {:induction false} OfLengthBeyond(s: seq<Record>, n: nat)
    requires forall i | 0 <= i < |s| :: Key(s[i]) != n
    ensures OfLength(s, n) == []
  {
    if s != [] {
      OfLengthBeyond(s[1..], n);
    }
  }

  lemma {:induction false} InsertStable(r: Record, s: seq<Record>, n: nat)
    requires Sorted(s)
    ensures OfLength(Insert(r, s), n) == OfLength(s, n) + (if Key(r) == n then [r] else [])
    decreases |s|
  {
    if s == [] || Key(s[0]) < Key(r) {
      assert ([r] + s)[1..] == s;
      if Key(r) == n {
        OfLengthBeyond(s, n);
      }
    } else {
      InsertStable(r, s[1..], n);
      assert ([s[0]] + Insert(r, s[1..]))[1..] == Insert(r, s[1..]);
    }
  }

  lemma {:induction false} InsertSorted(r: Record, s: seq<Record>)
    requires Sorted(s)
    ensures Sorted(Insert(r, s))
    ensures forall x | x in Insert(r, s) :: x == r || x in s
    decreases |s|
  {
    if s != [] && Key(s[0]) >= Key(r) {
      var t := Insert(r, s[1..]);
      InsertSorted(r, s[1..]);
      forall i | 0 <= i < |t|
        ensures Key(t[i]) <= Key(s[0])
      {
        assert t[i] in t;
      }
    }
  }

  /** The written sort meets the contract of a stable sort. */
  lemma {:induction false} SortByLengthStable(s: seq<Record>)
    ensures IsStableSort(s, SortByLength(s))
  {
    if s != [] {
      var init, last := s[..|s| - 1], s[|s| - 1];
      SortByLengthStable(init);
      InsertSorted(last, SortByLength(init));
      forall n: nat
        ensures OfLength(SortByLength(s), n) == OfLength(s, n)
      {
        InsertStable(last, SortByLength(init), n);
        OfLengthAppend(init, [last], n);
        assert s == init + [last];
      }
    }
  }

  /** In so many words: longer domains, in bytes, come first. */
  lemma SortedByBytes(s: seq<Record>, i: nat, j: nat)
    requires i < j < |SortByLength(s)|
    ensures ByteLen(SortByLength(s)[i].domain) >= ByteLen(SortByLength(s)[j].domain)
  {
    SortByLengthStable(s);
  }

  lemma SameGroupsHead(a: seq<Record>, b: seq<Record>)
    requires Sorted(b) && a != []
    requires forall n: nat :: OfLength(a, n) == OfLength(b, n)
    ensures b != [] && Key(b[0]) >= Key(a[0])
  {
    var k := Key(a[0]);
    assert OfLength(b, k) == OfLength(a, k) != [];
    if b == [] || Key(b[0]) < k {
      OfLengthBeyond(b, k);
    }
  }

  /** A stable sort is unique, so whatever stable algorithm runs returns this list. */
  lemma {:induction false} StableSortUnique(a: seq<Record>, b: seq<Record>)
    requires Sorted(a) && Sorted(b)
    requires forall n: nat :: OfLength(a, n) == OfLength(b, n)
    ensures a == b
  {
    if a != [] {
      SameGroupsHead(a, b);
      SameGroupsHead(b, a);
      assert OfLength(a, Key(a[0]))[0] == OfLength(b, Key(a[0]))[0];
      forall n: nat
        ensures OfLength(a[1..], n) == OfLength(b[1..], n)
      {
        var head := if Key(a[0]) == n then [a[0]] else [];
        assert head + OfLength(a[1..], n) == OfLength(a, n) == OfLength(b, n) == head + OfLength(b[1..], n);
        assert (head + OfLength(a[1..], n))[|head|..] == OfLength(a[1..], n);
        assert (head + OfLength(b[1..], n))[|head|..] == OfLength(b[1..], n);
      }
      StableSortUnique(a[1..], b[1..]);
      assert a == [a[0]] + a[1..] && b == [b[0]] + b[1..];
    } else if b != [] {
      SameGroupsHead(b, a);
    }
  }

  function BuildIndex(rs: seq<Record>): Index {
    Index(ExactMap(rs), SortByLength(Wildcards(rs)), Regexes(rs))
  }

  // ----- The lookup -----

  function FirstRegex(cs: seq<Compiled>, host: string): Option<Record> {
    if cs == [] then None
    else if MatchString(cs[0].re, host) then Some(cs[0].record)
    else FirstRegex(cs[1..], host)
  }

  /** The suffix test of the lookup. */
  predicate SuffixTest(d: string, host: string) {
    HasPrefix(d, "*") && (d[1..] == "" || HasSuffix(host, d[1..]))
  }

  function FirstWildcard(ws: seq<Record>, host: string): Option<Record> {
    if ws == [] then None
    else if SuffixTest(ws[0].domain, host) then Some(ws[0])
    else FirstWildcard(ws[1..], host)
  }

  function Lookup(ix: Index, host: string): Option<Record> {
    if host in ix.exact then Some(ix.exact[host])
    else
      match FirstRegex(ix.regexes, host)
      case Some(r) => Some(r)
      case None => FirstWildcard(ix.wildcards, host)
  }

  // ----- The index agrees with the flat list -----

  lemma {:induction false} ExactMapIsLast(rs: seq<Record>, host: string)
    ensures host in ExactMap(rs) <==> HasExact(rs, host)
    ensures host in ExactMap(rs) ==> exists i :: LastExactAt(rs, host, i) && ExactMap(rs)[host] == rs[i]
  {
    if rs != [] {
      var init := rs[..|rs| - 1];
      assert forall i | 0 <= i < |rs| - 1 :: rs[i] == init[i];
      ExactMapIsLast(init, host);
      if rs[|rs| - 1].domain == host {
        assert LastExactAt(rs, host, |rs| - 1);
      } else if host in ExactMap(init) {
        var i :| LastExactAt(init, host, i) && ExactMap(init)[host] == init[i];
        assert LastExactAt(rs, host, i) && rs[i].domain == host;
      }
      assert forall i | 0 <= i < |rs| - 1 :: rs[i] == init[i];
    }
  }

  /** A kept pattern matches exactly when the record's domain does; this is where the correctness of
      the glob compiler enters. */
  lemma CompiledMatches(d: string, host: string)
    ensures PatternMatches(d, host) <==> CompiledDomain(d).Some? && MatchString(CompiledDomain(d).value, host)
  {
    if !IsRegexDomain(d) && IsAdvancedGlob(d) {
      Glob.GlobCompilationPreservesMeaning(d, host);
    }
  }

  lemma {:induction false} FirstRegexAppend(a: seq<Compiled>, b: seq<Compiled>, host: string)
    ensures FirstRegex(a + b, host) == if FirstRegex(a, host).Some? then FirstRegex(a, host) else FirstRegex(b, host)
  {
    if a == [] {
      assert a + b == b;
    } else {
      assert (a + b)[1..] == a[1..] + b;
      FirstRegexAppend(a[1..], b, host);
    }
  }

  /** The answer of the regex part of the lookup. */
  ghost predicate IsFirst(rs: seq<Record>, host: string, first: Option<Record>) {
    if first.None? then !HasPattern(rs, host)
    else exists i :: FirstPatternAt(rs, host, i) && first.value == rs[i]
  }

  lemma FirstStep(init: seq<Record>, last: Record, host: string, first: Option<Record>)
    requires IsFirst(init, host, first)
    ensures first.Some? ==> IsFirst(init + [last], host, first)
    ensures first.None? ==> IsFirst(init + [last], host, if PatternMatches(last.domain, host) then Some(last) else None)
  {
    var rs := init + [last];
    assert forall j | 0 <= j < |init| :: rs[j] == init[j];
    if first.Some? {
      var i :| FirstPatternAt(init, host, i) && first.value == init[i];
      assert FirstPatternAt(rs, host, i) && rs[i] == first.value;
    } else if PatternMatches(last.domain, host) {
      assert FirstPatternAt(rs, host, |init|);
    }
  }

  lemma EntryAnswers(r: Record, host: string)
    ensures FirstRegex(RegexEntry(r), host) == if PatternMatches(r.domain, host) then Some(r) else None
  {
    hide PatternMatches, CompiledDomain, MatchString;
    CompiledMatches(r.domain, host);
  }

  lemma {:induction false} RegexesFindFirst(rs: seq<Record>, host: string)
    ensures IsFirst(rs, host, FirstRegex(Regexes(rs), host))
  {
    hide PatternMatches, RegexEntry;
    if rs == [] {
    } else {
      hide IsFirst, FirstRegex;
      var init, last := rs[..|rs| - 1], rs[|rs| - 1];
      RegexesFindFirst(init, host);
      EntryAnswers(last, host);
      FirstRegexAppend(Regexes(init), RegexEntry(last), host);
      FirstStep(init, last, host, FirstRegex(Regexes(init), host));
      assert rs == init + [last];
    }
  }

  lemma {:induction false} FirstWildcardHead(s: seq<Record>, host: string)
    requires Sorted(s) && FirstWildcard(s, host).Some?
    ensures s != [] && Key(FirstWildcard(s, host).value) <= Key(s[0])
  {
    if !SuffixTest(s[0].domain, host) {
      FirstWildcardHead(s[1..], host);
    }
  }

  /** The better of a new record and the best of the earlier ones. */
  function Better(r: Record, first: Option<Record>, host: string): Option<Record> {
    if SuffixTest(r.domain, host) && (first.None? || Key(first.value) < Key(r)) then Some(r) else first
  }

  lemma {:induction false} FirstWildcardInsert(r: Record, s: seq<Record>, host: string)
    requires Sorted(s)
    ensures FirstWildcard(Insert(r, s), host) == Better(r, FirstWildcard(s, host), host)
    decreases |s|
  {
    if s == [] || Key(s[0]) < Key(r) {
      assert ([r] + s)[1..] == s;
      if FirstWildcard(s, host).Some? {
        FirstWildcardHead(s, host);
      }
    } else {
      FirstWildcardInsert(r, s[1..], host);
      assert ([s[0]] + Insert(r, s[1..]))[1..] == Insert(r, s[1..]);
    }
  }

  lemma ShorterWildcard(d: string, e: string, host: string)
    requires WildcardMatches(d, host) && WildcardMatches(e, host) && |d| <= |e|
    ensures ByteLen(d) <= ByteLen(e) && (|d| < |e| ==> ByteLen(d) < ByteLen(e)) && (|d| == |e| ==> d == e)
  {
    hide IsRegexDomain, IsAdvancedGlob;
    var s, t := d[1..], e[1..];
    assert s == t[|e| - |d|..];
    ByteLenOfSuffix(t, |e| - |d|);
    assert d[0] == '*' == e[0];
    assert d == [d[0]] + s && e == [e[0]] + t;
  }

  /** Two plain wildcards that match one host compare alike in bytes and in characters. */
  lemma WildcardLengths(d: string, e: string, host: string)
    requires WildcardMatches(d, host) && WildcardMatches(e, host)
    ensures |d| < |e| <==> ByteLen(d) < ByteLen(e)
    ensures |d| == |e| ==> d == e
  {
    hide WildcardMatches, ByteLen;
    if |d| <= |e| {
      ShorterWildcard(d, e, host);
    } else {
      ShorterWildcard(e, d, host);
    }
  }

  /** The answer of the wildcard part of the lookup. */
  ghost predicate IsLongest(rs: seq<Record>, host: string, first: Option<Record>) {
    if first.None? then forall j | 0 <= j < |rs| :: !WildcardMatches(rs[j].domain, host)
    else exists i :: LongestWildcardAt(rs, host, i) && first.value == rs[i]
  }

  lemma PlainSuffixTest(d: string, host: string)
    ensures IsPlainWildcard(d) ==> (SuffixTest(d, host) <==> WildcardMatches(d, host))
  {
  }

  lemma LongestStep(init: seq<Record>, last: Record, host: string, first: Option<Record>)
    requires IsLongest(init, host, first)
    ensures IsPlainWildcard(last.domain) ==> IsLongest(init + [last], host, Better(last, first, host))
    ensures !IsPlainWildcard(last.domain) ==> IsLongest(init + [last], host, first)
  {
    hide IsPlainWildcard, HasSuffix, HasPrefix, ByteLen;
    PlainSuffixTest(last.domain, host);
    var rs := init + [last];
    assert forall j | 0 <= j < |init| :: rs[j] == init[j];
    if first.Some? {
      var i :| LongestWildcardAt(init, host, i) && first.value == init[i];
      assert rs[i] == first.value;
      if WildcardMatches(last.domain, host) {
        WildcardLengths(first.value.domain, last.domain, host);
        WildcardLengths(last.domain, first.value.domain, host);
        assert LongestWildcardAt(rs, host, if Key(first.value) < Key(last) then |init| else i);
      } else {
        assert LongestWildcardAt(rs, host, i);
      }
    } else if WildcardMatches(last.domain, host) {
      assert LongestWildcardAt(rs, host, |init|);
    }
  }

  /** One more record goes into the sorted wildcards, or nowhere. */
  lemma SortedSnoc(init: seq<Record>, last: Record)
    ensures SortByLength(Wildcards(init + [last]))
         == if IsPlainWildcard(last.domain) then Insert(last, SortByLength(Wildcards(init)))
            else SortByLength(Wildcards(init))
  {
    hide IsPlainWildcard, Insert;
    var rs := init + [last];
    assert rs[..|rs| - 1] == init;
    if IsPlainWildcard(last.domain) {
      var ws := Wildcards(init) + [last];
      assert Wildcards(rs) == ws && ws[..|ws| - 1] == Wildcards(init);
    } else {
      assert Wildcards(rs) == Wildcards(init);
    }
  }

  lemma {:induction false} WildcardsFindLongest(rs: seq<Record>, host: string)
    ensures IsLongest(rs, host, FirstWildcard(SortByLength(Wildcards(rs)), host))
  {
    if rs == [] {
      assert Wildcards(rs) == [] && SortByLength([]) == [];
    } else {
      hide IsPlainWildcard, Better, Insert, OfLength, Key, IsLongest, FirstWildcard, SortByLength, Wildcards;
      var init, last := rs[..|rs| - 1], rs[|rs| - 1];
      assert rs == init + [last];
      WildcardsFindLongest(init, host);
      var sorted := SortByLength(Wildcards(init));
      SortByLengthStable(Wildcards(init));
      SortedSnoc(init, last);
      FirstWildcardInsert(last, sorted, host);
      LongestStep(init, last, host, FirstWildcard(sorted, host));
    }
  }

  /** For every list of records, duplicates included, and every host, the lookup over the index
      returns the best match of the flat list. */
  lemma IndexRefinesFlatList(rs: seq<Record>, host: string)
    ensures IsBestMatch(rs, host, Lookup(BuildIndex(rs), host))
  {
    ExactMapIsLast(rs, host);
    RegexesFindFirst(rs, host);
    WildcardsFindLongest(rs, host);
    assert FirstRegex(Regexes(rs), host).Some? ==> HasPattern(rs, host);
  }

  // ----- The suffix test is a fast form of the compiled glob -----

  lemma {:induction false} CountOne(s: string, c: char)
    requires s != [] && s[0] == c
    ensures Count(s, c) > 1 <==> c in s[1..]
  {
    CountZero(s[1..], c);
  }

  /** For every plain wildcard the compiled glob accepts a host exactly when the suffix test does and
      the part taken by the star has no newline. */
  lemma SuffixTestAgainstCompiler(d: string, host: string)
    requires IsPlainWildcard(d)
    ensures var re := Compile(Glob.DomainToRegex(d));
            re.Some? && (MatchString(re.value, host) <==>
              SuffixTest(d, host) && Glob.NoNewline(host[..|host| - |d| + 1]))
  {
    assert d == "*" + d[1..];
    CountOne(d, '*');
    Glob.LeadingStarGlob(d[1..], host);
    Glob.GlobCompilationPreservesMeaning(d, host);
  }

  /** A host with a newline inside is taken by the suffix test of the lone star and refused by its
      compiled glob. */
  lemma NewlineDivides()
    ensures IsPlainWildcard("*") && SuffixTest("*", "a\nb")
    ensures !MatchString(Compile(Glob.DomainToRegex("*")).value, "a\nb")
  {
    var d, host := "*", "a\nb";
    assert d[1..] == "" && HasPrefix(d, "*");
    assert Count("", '*') == 0;
    assert Count(d, '*') == 1;
    assert host[1] == '\n';
    SuffixTestAgainstCompiler(d, host);
  }

  /** On hosts without newlines the fast path and the compiler agree. */
  lemma FastPathAgrees(d: string, host: string)
    requires IsPlainWildcard(d) && Glob.NoNewline(host)
    ensures var re := Compile(Glob.DomainToRegex(d));
            re.Some? && (MatchString(re.value, host) <==> SuffixTest(d, host))
  {
    SuffixTestAgainstCompiler(d, host);
  }

  // ----- Every domain is a glob -----

  /** The three ways to index a domain without the reg: prefix: a star in front of a text without
      wildcards is a plain wildcard, a text without wildcards is only an exact domain, and every other
      is an advanced glob. */
  lemma DomainKinds(d: string)
    requires !IsRegexDomain(d)
    ensures IsPlainWildcard(d) <==> d != "" && d[0] == '*' && '*' !in d[1..] && '?' !in d[1..]
    ensures IsPlainWildcard(d) ==> !IsAdvancedGlob(d)
    ensures !IsPlainWildcard(d) && !IsAdvancedGlob(d) <==> '*' !in d && '?' !in d
  {
    if d != "" {
      assert d == [d[0]] + d[1..];
      if d[0] == '*' {
        CountOne(d, '*');
      } else if '*' !in d {
        CountZero(d, '*');
      }
    }
  }

  /** However a domain without the reg: prefix is indexed, on hosts without newlines it answers
      exactly the hosts its glob matches, besides its own text. */
  lemma EveryDomainIsAGlob(d: string, host: string)
    requires !IsRegexDomain(d) && Glob.NoNewline(host)
    ensures d == host || PatternMatches(d, host) || WildcardMatches(d, host) <==> d == host || Glob.Matches(d, host)
  {
    DomainKinds(d);
    if IsPlainWildcard(d) {
      assert d == "*" + d[1..];
      Glob.LeadingStarGlob(d[1..], host);
    } else if !IsAdvancedGlob(d) {
      Glob.LiteralGlob(d, host);
    }
  }
}
