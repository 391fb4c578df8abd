/** When the answer does not depend on the order in which the repository lists its records. */
module ListOrder {
  import opened Text
  import opened Records
  import opened MatchIndex

  /** What Find guarantees: no domain is listed twice. */
  ghost predicate Distinct(rs: seq<Record>) {
    forall i, j | 0 <= i < j < |rs| :: rs[i].domain != rs[j].domain
  }

  ghost predicate AtMostOnePattern(rs: seq<Record>, host: string) {
    forall i, j | 0 <= i < j < |rs| :: !PatternMatches(rs[i].domain, host) || !PatternMatches(rs[j].domain, host)
  }

  /** Every permutation of the list gives the same answer. */
  ghost predicate OrderIndependent(rs: seq<Record>, host: string) {
    forall ps: seq<Record> | multiset(ps) == multiset(rs) ::
      Lookup(BuildIndex(ps), host) == Lookup(BuildIndex(rs), host)
  }

  lemma {:induction false} DistinctCount(rs: seq<Record>, r: Record)
    requires Distinct(rs)
    ensures multiset(rs)[r] <= 1
  {
    if rs != [] {
      var init, last := rs[..|rs| - 1], rs[|rs| - 1];
      DistinctCount(init, r);
      assert rs == init + [last];
      assert forall i | 0 <= i < |init| :: init[i] == rs[i] != last;
    }
  }

  lemma TwoPlacesCount(rs: seq<Record>, i: nat, j: nat)
    requires i < j < |rs| && rs[i] == rs[j]
    ensures multiset(rs)[rs[i]] >= 2
  {
    assert rs == rs[..i + 1] + rs[i + 1..];
    assert rs[..i + 1][i] == rs[i] && rs[i + 1..][j - i - 1] == rs[i];
  }

  lemma SameMembers(rs: seq<Record>, ps: seq<Record>, r: Record)
    requires multiset(ps) == multiset(rs) && r in rs
    ensures exists j | 0 <= j < |ps| :: ps[j] == r
  {
    assert r in multiset(rs);
    assert r in multiset(ps);
  }

  lemma PermutationDistinct(rs: seq<Record>, ps: seq<Record>)
    requires Distinct(rs) && multiset(ps) == multiset(rs)
    ensures Distinct(ps)
  {
    forall i, j | 0 <= i < j < |ps|
      ensures ps[i].domain != ps[j].domain
    {
      SameMembers(ps, rs, ps[i]);
      SameMembers(ps, rs, ps[j]);
      DistinctCount(rs, ps[i]);
      if ps[i] == ps[j] {
        TwoPlacesCount(ps, i, j);
      }
    }
  }

  lemma SameSets(rs: seq<Record>, ps: seq<Record>)
    requires multiset(ps) == multiset(rs)
    ensures forall r :: r in rs <==> r in ps
  {
    forall r
      ensures r in rs <==> r in ps
    {
      assert (r in rs) == (r in multiset(rs)) == (r in multiset(ps)) == (r in ps);
    }
  }

  lemma SameKinds(rs: seq<Record>, ps: seq<Record>, host: string)
    requires forall r :: r in rs <==> r in ps
    ensures HasExact(ps, host) <==> HasExact(rs, host)
    ensures HasPattern(ps, host) <==> HasPattern(rs, host)
    ensures (exists j | 0 <= j < |ps| :: WildcardMatches(ps[j].domain, host))
       <==> (exists j | 0 <= j < |rs| :: WildcardMatches(rs[j].domain, host))
  {
    hide PatternMatches, WildcardMatches;
    assert forall j | 0 <= j < |ps| :: ps[j] in rs;
    assert forall j | 0 <= j < |rs| :: rs[j] in ps;
  }

  lemma ExactCase(rs: seq<Record>, ps: seq<Record>, host: string, answer: Option<Record>)
    requires Distinct(ps) && HasExact(rs, host) && HasExact(ps, host)
    requires forall r :: r in rs <==> r in ps
    requires IsBestMatch(rs, host, answer)
    ensures IsBestMatch(ps, host, answer)
  {
    hide PatternMatches, WildcardMatches, HasPattern, FirstPatternAt, LongestWildcardAt;
    var i :| LastExactAt(rs, host, i) && answer == Some(rs[i]);
    assert rs[i] in ps;
    var j :| 0 <= j < |ps| && ps[j] == rs[i];
    assert LastExactAt(ps, host, j);
  }

  lemma PatternCase(rs: seq<Record>, ps: seq<Record>, host: string, answer: Option<Record>)
    requires Distinct(ps) && AtMostOnePattern(rs, host)
    requires !HasExact(rs, host) && !HasExact(ps, host) && HasPattern(rs, host) && HasPattern(ps, host)
    requires forall r :: r in rs <==> r in ps
    requires IsBestMatch(rs, host, answer)
    ensures IsBestMatch(ps, host, answer)
  {
    hide PatternMatches, WildcardMatches, HasPattern, HasExact, LongestWildcardAt, Distinct, AtMostOnePattern;
    var i :| FirstPatternAt(rs, host, i) && answer == Some(rs[i]);
    assert rs[i] in ps;
    var j :| 0 <= j < |ps| && ps[j] == rs[i];
    PatternStaysFirst(rs, ps, host, j);
  }

  lemma WildcardCase(rs: seq<Record>, ps: seq<Record>, host: string, answer: Option<Record>)
    requires Distinct(ps)
    requires !HasExact(rs, host) && !HasExact(ps, host) && !HasPattern(rs, host) && !HasPattern(ps, host)
    requires (exists j | 0 <= j < |ps| :: WildcardMatches(ps[j].domain, host))
        <==> (exists j | 0 <= j < |rs| :: WildcardMatches(rs[j].domain, host))
    requires forall r :: r in rs <==> r in ps
    requires IsBestMatch(rs, host, answer)
    ensures IsBestMatch(ps, host, answer)
  {
    hide PatternMatches, WildcardMatches, HasPattern, HasExact, FirstPatternAt, Distinct;
    if answer.Some? {
      var i :| LongestWildcardAt(rs, host, i) && answer == Some(rs[i]);
      assert rs[i] in ps;
      var j :| 0 <= j < |ps| && ps[j] == rs[i];
      WildcardStaysLongest(rs, ps, host, j);
    }
  }

  lemma BestMatchOfPermutation(rs: seq<Record>, ps: seq<Record>, host: string, answer: Option<Record>)
    requires Distinct(rs) && multiset(ps) == multiset(rs)
    requires HasExact(rs, host) || AtMostOnePattern(rs, host)
    requires IsBestMatch(rs, host, answer)
    ensures IsBestMatch(ps, host, answer)
  {
    hide IsBestMatch, PatternMatches, WildcardMatches, HasExact, HasPattern, AtMostOnePattern;
    PermutationDistinct(rs, ps);
    SameSets(rs, ps);
    SameKinds(rs, ps, host);
    if HasExact(rs, host) {
      ExactCase(rs, ps, host, answer);
    } else if HasPattern(rs, host) {
      PatternCase(rs, ps, host, answer);
    } else {
      WildcardCase(rs, ps, host, answer);
    }
  }

  lemma PatternStaysFirst(rs: seq<Record>, ps: seq<Record>, host: string, j: nat)
    requires Distinct(ps) && AtMostOnePattern(rs, host) && j < |ps| && ps[j] in rs
    requires PatternMatches(ps[j].domain, host)
    requires forall r | r in ps :: r in rs
    ensures FirstPatternAt(ps, host, j)
  {
    forall k | 0 <= k < j
      ensures !PatternMatches(ps[k].domain, host)
    {
      assert ps[k] in ps;
      var m :| 0 <= m < |rs| && rs[m] == ps[k];
      var n :| 0 <= n < |rs| && rs[n] == ps[j];
      assert m != n;
    }
  }

  lemma WildcardStaysLongest(rs: seq<Record>, ps: seq<Record>, host: string, j: nat)
    requires Distinct(ps) && j < |ps|
    requires exists i :: LongestWildcardAt(rs, host, i) && rs[i] == ps[j]
    requires forall r | r in ps :: r in rs
    ensures LongestWildcardAt(ps, host, j)
  {
    var i :| LongestWildcardAt(rs, host, i) && rs[i] == ps[j];
    forall k | 0 <= k < |ps| && WildcardMatches(ps[k].domain, host)
      ensures |ps[k].domain| < |ps[j].domain| || (|ps[k].domain| == |ps[j].domain| && j <= k)
    {
      assert ps[k] in ps;
      var m :| 0 <= m < |rs| && rs[m] == ps[k];
      WildcardLengths(ps[k].domain, ps[j].domain, host);
    }
  }

  lemma PatternAnswer(rs: seq<Record>, host: string, i: nat)
    requires !HasExact(rs, host) && i < |rs| && PatternMatches(rs[i].domain, host)
    ensures exists k | 0 <= k <= i :: Lookup(BuildIndex(rs), host) == Some(rs[k])
  {
    IndexRefinesFlatList(rs, host);
    var k :| FirstPatternAt(rs, host, k) && Lookup(BuildIndex(rs), host) == Some(rs[k]);
  }

  function MoveToFront(rs: seq<Record>, j: nat): seq<Record>
    requires j < |rs|
  {
    [rs[j]] + rs[..j] + rs[j + 1..]
  }

  lemma MoveToFrontPermutes(rs: seq<Record>, j: nat)
    requires j < |rs|
    ensures multiset(MoveToFront(rs, j)) == multiset(rs)
  {
    assert rs == rs[..j] + [rs[j]] + rs[j + 1..];
  }

  lemma PermutationExact(rs: seq<Record>, ps: seq<Record>, host: string)
    requires multiset(ps) == multiset(rs) && !HasExact(rs, host)
    ensures !HasExact(ps, host)
  {
    forall k | 0 <= k < |ps|
      ensures ps[k].domain != host
    {
      SameMembers(ps, rs, ps[k]);
    }
  }

  /** Two matching patterns: listing the later one first changes the answer. */
  lemma TwoPatternsDepend(rs: seq<Record>, host: string, i: nat, j: nat)
    requires Distinct(rs) && !HasExact(rs, host)
    requires i < j < |rs| && PatternMatches(rs[i].domain, host) && PatternMatches(rs[j].domain, host)
    ensures !OrderIndependent(rs, host)
  {
    var ps := MoveToFront(rs, j);
    assert ps[0] == rs[j];
    MoveToFrontPermutes(rs, j);
    PermutationExact(rs, ps, host);
    PatternAnswer(ps, host, 0);
    PatternAnswer(rs, host, i);
  }

  /** With distinct domains the answer is independent of the listing order exactly when the host has
      an exact record or at most one compiled pattern matches it. */
  lemma OrderIndependence(rs: seq<Record>, host: string)
    requires Distinct(rs)
    ensures OrderIndependent(rs, host) <==> HasExact(rs, host) || AtMostOnePattern(rs, host)
  {
    if HasExact(rs, host) || AtMostOnePattern(rs, host) {
      forall ps: seq<Record> | multiset(ps) == multiset(rs)
        ensures Lookup(BuildIndex(ps), host) == Lookup(BuildIndex(rs), host)
      {
        IndexRefinesFlatList(rs, host);
        IndexRefinesFlatList(ps, host);
        BestMatchOfPermutation(rs, ps, host, Lookup(BuildIndex(rs), host));
        BestMatchUnique(ps, host, Lookup(BuildIndex(ps), host), Lookup(BuildIndex(rs), host));
      }
    } else {
      var i, j :| 0 <= i < j < |rs| && PatternMatches(rs[i].domain, host) && PatternMatches(rs[j].domain, host);
      TwoPatternsDepend(rs, host, i, j);
    }
  }
}
