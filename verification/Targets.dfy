/** How target lists are read back from text: the token rule of internal/cli/import.go. */
module Targets {
  import opened Text
  import opened NetAddr

  predicate IsTrimmable(c: char) {
    c == '[' || c == ']' || c == ' '
  }

  /** strings.Trim with the cutset of brackets and blank. */
  function TrimBrackets(s: string): string {
    if s == [] then []
    else if IsTrimmable(s[0]) then TrimBrackets(s[1..])
    else if IsTrimmable(s[|s| - 1]) then TrimBrackets(s[..|s| - 1])
    else s
  }

  /** It cuts brackets and blanks, and only those, from both ends, and leaves none there. */
  lemma {:induction false} TrimBracketsShape(s: string) returns (i: nat, j: nat)
    ensures i <= j <= |s| && TrimBrackets(s) == s[i..j]
    ensures forall k | 0 <= k < i || j <= k < |s| :: s[k] in {'[', ']', ' '}
    ensures i < j ==> s[i] !in {'[', ']', ' '} && s[j - 1] !in {'[', ']', ' '}
    decreases |s|
  {
    if s == [] {
      i, j := 0, 0;
    } else if IsTrimmable(s[0]) {
      i, j := TrimBracketsShape(s[1..]);
      i, j := i + 1, j + 1;
      assert forall k | 1 <= k < |s| :: s[k] == s[1..][k - 1];
      assert s[1..][i - 1..j - 1] == s[i..j];
    } else if IsTrimmable(s[|s| - 1]) {
      i, j := TrimBracketsShape(s[..|s| - 1]);
      assert forall k | 0 <= k < |s| - 1 :: s[k] == s[..|s| - 1][k];
      assert s[..|s| - 1][i..j] == s[i..j];
    } else {
      i, j := 0, |s|;
    }
  }

  /** One token: an address with a port, else an address alone, which gets port 0. */
  function ParseTarget(token: string): Option<AddrPort> {
    match ParseAddrPort(token)
    case Some(p) => Some(p)
    case None =>
      match ParseAddr(TrimBrackets(token))
      case Some(a) => Some(AddrPort(a, 0))
      case None => None
  }

  /** All tokens, or None at the first bad one. */
  function ParseTargets(tokens: seq<string>): Option<seq<AddrPort>> {
    if tokens == [] then Some([])
    else
      match (ParseTargets(tokens[..|tokens| - 1]), ParseTarget(tokens[|tokens| - 1]))
      case (Some(ps), Some(p)) => Some(ps + [p])
      case _ => None
  }

  lemma ParseTargetsSnoc(tokens: seq<string>, token: string)
    ensures ParseTargets(tokens + [token])
         == match (ParseTargets(tokens), ParseTarget(token))
            case (Some(ps), Some(p)) => Some(ps + [p])
            case _ => None
  {
  }

  lemma AddrIsTrimmed(a: Addr)
    ensures TrimBrackets(ShowAddr(a)) == ShowAddr(a)
    ensures TrimBrackets("[" + ShowAddr(a) + "]") == ShowAddr(a)
  {
    hide ShowAddr;
    AddrAlphabet(a);
    var s := ShowAddr(a);
    assert IsV6Char(s[0]) && IsV6Char(s[|s| - 1]);
    var t := "[" + s + "]";
    assert t[1..] == s + "]" && (s + "]")[0] == s[0];
    assert (s + "]")[..|s|] == s;
  }

  lemma BareHostIsNoPair(a: Addr)
    ensures ParseAddrPort(HostText(a)) == None
  {
    hide ShowAddr, ParseAddr;
    var s, h := ShowAddr(a), HostText(a);
    AddrAlphabet(a);
    if a.V4? {
      BareAddressIsNoPair(a);
    } else {
      var i := LastIndex(h, ':');
      if i > 1 {
        assert h[|h| - 1] == ']' && h[i - 1] == s[i - 2] && IsV6Char(s[i - 2]);
        assert h[..i][i - 1] == h[i - 1];
      }
    }
  }

  /** An address printed without a port reads back with port 0. */
  lemma BareHostReadsBack(a: Addr)
    ensures ParseTarget(HostText(a)) == Some(AddrPort(a, 0))
  {
    hide ParseAddrPort, ParseAddr, TrimBrackets, ShowAddr;
    BareHostIsNoPair(a);
    AddrIsTrimmed(a);
    AddrRoundTrip(a);
  }

  lemma PairReadsBack(p: AddrPort)
    ensures ParseTarget(ShowAddrPort(p)) == Some(p)
  {
    AddrPortRoundTrip(p);
  }

  /** A target: a pair, or an address alone, around which brackets and blanks are ignored. */
  ghost predicate IsTargetText(w: string) {
    IsPairText(w) || IsV4Text(TrimBrackets(w)) || IsV6Text(TrimBrackets(w))
  }

  /** ParseTarget reads exactly the targets. */
  lemma ParseTargetExact(w: string)
    ensures ParseTarget(w).Some? <==> IsTargetText(w)
  {
    hide ParseAddrPort, ParseAddr, IsPairText, IsV4Text, IsV6Text, TrimBrackets;
    ParseAddrPortExact(w);
    ParseAddrExact(TrimBrackets(w));
  }

  /** All tokens are read exactly when each of them is a target. */
  lemma {:induction false} ParseTargetsExact(tokens: seq<string>)
    ensures ParseTargets(tokens).Some? <==> forall w | w in tokens :: IsTargetText(w)
  {
    hide ParseTarget, IsTargetText;
    if tokens != [] {
      var init, last := tokens[..|tokens| - 1], tokens[|tokens| - 1];
      ParseTargetsExact(init);
      ParseTargetExact(last);
      assert tokens == init + [last];
    }
  }

  lemma {:induction false} TrimKeeps(s: string, i: nat) returns (j: nat)
    requires OutsideZone(s, i) && !IsTrimmable(s[i])
    ensures OutsideZone(TrimBrackets(s), j) && TrimBrackets(s)[j] == s[i]
    decreases |s|
  {
    if IsTrimmable(s[0]) {
      assert s[1..][..i] == s[..i + 1][1..];
      j := TrimKeeps(s[1..], i - 1);
    } else if IsTrimmable(s[|s| - 1]) {
      assert s[..|s| - 1][..i + 1] == s[..i + 1];
      j := TrimKeeps(s[..|s| - 1], i);
    } else {
      j := i;
    }
  }

  /** A token with a character outside the address alphabet, and not in a zone, is no target. */
  lemma TargetAlphabet(w: string, i: nat)
    requires OutsideZone(w, i) && !IsV6Input(w[i]) && !IsTrimmable(w[i])
    ensures ParseTarget(w) == None
  {
    hide ParseAddrPort, ParseAddr, TrimBrackets;
    PairTextAlphabet(w, i);
    var j := TrimKeeps(w, i);
    AddrTextAlphabet(TrimBrackets(w), j);
  }
}
