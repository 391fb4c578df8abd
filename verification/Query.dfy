/** core/handler.go: the query parser and the response printer. */
module Query {
  import opened Text
  import opened Decimal
  import opened NetAddr
  import opened Targets
  import opened Records

  // ----- parseQuery -----

  /** The bracketed form [host]:port. */
  function BracketSplit(raw: string): Option<(string, u16)> {
    var end := Index(raw, ']');
    if HasPrefix(raw, "[") && end > 1 && end + 1 < |raw| && raw[end + 1] == ':' then
      match ParseNat(raw[end + 2..], MAX_UINT16)
      case Some(port) => Some((raw[1..end], port))
      case None => None
    else None
  }

  /** The usual form host:port, split at the last colon. */
  function ColonSplit(raw: string): Option<(string, u16)> {
    var i := LastIndex(raw, ':');
    if i > 0 && i + 1 < |raw| then
      match ParseNat(raw[i + 1..], MAX_UINT16)
      case Some(port) => Some((raw[..i], port))
      case None => None
    else None
  }

  function ParseQuery(query: string): (string, u16) {
    var raw := TrimSpace(query);
    if raw == "" then ("", 0)
    else if BracketSplit(raw).Some? then BracketSplit(raw).value
    else if ColonSplit(raw).Some? then ColonSplit(raw).value
    else (raw, 0)
  }

  /** raw reads as [host]:port. */
  predicate ReadsBracketed(raw: string, host: string, port: string) {
    raw == "[" + host + "]:" + port && host != [] && ']' !in host && IsPort(port)
  }

  /** raw reads as host:port. */
  predicate ReadsPlain(raw: string, host: string, port: string) {
    raw == host + ":" + port && host != [] && IsPort(port)
  }

  lemma BracketSplitFinds(raw: string, host: string, port: string)
    requires ReadsBracketed(raw, host, port)
    ensures BracketSplit(raw) == Some((host, Value(port)))
  {
    hide Value, Index;
    var open := "[" + host;
    assert raw == open + "]" + (":" + port);
    IndexAfter(open, ']', ":" + port);
    assert raw[1..|open|] == host && raw[|open| + 2..] == port;
  }

  lemma CutAtBracket(raw: string, end: nat)
    requires 1 <= end && end + 2 <= |raw| && raw[0] == '[' && raw[end] == ']' && raw[end + 1] == ':'
    ensures raw == "[" + raw[1..end] + "]:" + raw[end + 2..]
  {
  }

  lemma BracketSplitReads(raw: string)
    requires BracketSplit(raw).Some?
    ensures var end := Index(raw, ']');
            end > 1 && end + 2 <= |raw| && ReadsBracketed(raw, raw[1..end], raw[end + 2..])
            && BracketSplit(raw).value == (raw[1..end], Value(raw[end + 2..]))
  {
    hide Value, AllDigits, Index;
    var end := Index(raw, ']');
    CutAtBracket(raw, end);
    forall k | 0 <= k < end - 1
      ensures raw[1..end][k] != ']'
    {
      assert raw[k + 1] != ']';
    }
  }

  lemma BracketSplitExact(raw: string, host: string, port: string)
    ensures ReadsBracketed(raw, host, port) ==> BracketSplit(raw) == Some((host, Value(port)))
    ensures BracketSplit(raw).Some? ==>
              var end := Index(raw, ']');
              end > 1 && end + 2 <= |raw| && ReadsBracketed(raw, raw[1..end], raw[end + 2..])
              && BracketSplit(raw).value == (raw[1..end], Value(raw[end + 2..]))
  {
    hide BracketSplit, ReadsBracketed, Index, Value;
    if ReadsBracketed(raw, host, port) {
      BracketSplitFinds(raw, host, port);
    }
    if BracketSplit(raw).Some? {
      BracketSplitReads(raw);
    }
  }

  lemma ColonSplitExact(raw: string, host: string, port: string)
    ensures ReadsPlain(raw, host, port) ==> ColonSplit(raw) == Some((host, Value(port)))
    ensures ColonSplit(raw).Some? ==>
              var i := LastIndex(raw, ':');
              i > 0 && i + 1 <= |raw| && ReadsPlain(raw, raw[..i], raw[i + 1..])
              && ColonSplit(raw).value == (raw[..i], Value(raw[i + 1..]))
  {
    if ReadsPlain(raw, host, port) {
      assert raw[|host|] == ':';
      assert forall k | |host| < k < |raw| :: raw[k] == port[k - |host| - 1];
      assert LastIndex(raw, ':') == |host|;
      assert raw[..|host|] == host && raw[|host| + 1..] == port;
    }
    if ColonSplit(raw).Some? {
      var i := LastIndex(raw, ':');
      assert raw == raw[..i] + ":" + raw[i + 1..];
    }
  }

  /** On every input: a bracketed reading wins, else a plain one, else the trimmed text with port 0,
      and this last answer is given only then; a non-blank query always has a host. */
  lemma ParseQueryCharacterised(query: string)
    ensures var raw, r := TrimSpace(query), ParseQuery(query);
            && (forall h, p | ReadsBracketed(raw, h, p) :: r == (h, Value(p)))
            && ((forall h, p :: !ReadsBracketed(raw, h, p)) ==>
                  forall h, p | ReadsPlain(raw, h, p) :: r == (h, Value(p)))
            && (r == (raw, 0) <==> forall h, p :: !ReadsBracketed(raw, h, p) && !ReadsPlain(raw, h, p))
            && (r.0 == "" <==> raw == "")
  {
    var raw := TrimSpace(query);
    forall h, p
      ensures ReadsBracketed(raw, h, p) ==> BracketSplit(raw) == Some((h, Value(p)))
      ensures ReadsPlain(raw, h, p) ==> ColonSplit(raw) == Some((h, Value(p)))
    {
      BracketSplitExact(raw, h, p);
      ColonSplitExact(raw, h, p);
    }
    BracketSplitExact(raw, "", "");
    ColonSplitExact(raw, "", "");
  }

  lemma PrintedPort(n: u16)
    ensures IsPort(FormatNat(n)) && Value(FormatNat(n)) == n
  {
  }

  /** A host that is itself bracketed: its first closing bracket is its last character. */
  predicate IsBracketed(host: string) {
    |host| > 2 && host[0] == '[' && host[|host| - 1] == ']' && ']' !in host[1..|host| - 1]
  }

  /** The text host:port has a bracketed reading exactly when the host is bracketed. */
  lemma BracketedHost(host: string, port: u16)
    ensures BracketSplit(host + ":" + FormatNat(port)).Some? <==> IsBracketed(host)
  {
    hide BracketSplit, FormatNat, LastIndex;
    var p := FormatNat(port);
    var s := host + ":" + p;
    PrintedPort(port);
    LastColonOf(host, port);
    if IsBracketed(host) {
      var inner := host[1..|host| - 1];
      assert host == "[" + inner + "]";
      assert s == "[" + inner + "]:" + p;
      BracketSplitFinds(s, inner, p);
    }
    if BracketSplit(s).Some? {
      var end := Index(s, ']');
      BracketSplitReads(s);
      BracketBeforeLastColon(s, end);
      assert |host| == end + 1;
      assert host == s[..end + 1] && host[1..|host| - 1] == s[1..end];
    }
  }

  lemma BracketBeforeLastColon(s: string, end: nat)
    requires 1 <= end && end + 2 <= |s| && ReadsBracketed(s, s[1..end], s[end + 2..])
    ensures LastIndex(s, ':') == end + 1
    ensures s[0] == '[' && s[end] == ']'
  {
    hide Value;
    var h, p := s[1..end], s[end + 2..];
    assert s == "[" + h + "]:" + p;
    assert s[end + 1] == ':' && forall k | end + 1 < k < |s| :: s[k] == p[k - end - 2];
  }

  /** host:port comes back exactly when the host is not itself bracketed. */
  lemma ParseQueryOfPlain(host: string, port: u16)
    requires host != [] && !IsSpace(host[0])
    ensures ParseQuery(host + ":" + FormatNat(port)) == (host, port) <==> !IsBracketed(host)
  {
    hide IsSpace, BracketSplit, ColonSplit, IsBracketed, ReadsBracketed, FormatNat;
    var p := FormatNat(port);
    var s := host + ":" + p;
    PrintedPort(port);
    DigitIsNoSpace(p[|p| - 1]);
    assert s[0] == host[0] && s[|s| - 1] == p[|p| - 1];
    TrimSpaceOfTrimmed(s);
    ColonSplitExact(s, host, p);
    BracketedHost(host, port);
    if BracketSplit(s).Some? {
      BracketSplitReads(s);
      BracketHostShorter(s);
    }
  }

  lemma DigitIsNoSpace(c: char)
    requires IsDigit(c)
    ensures !IsSpace(c)
  {
  }

  /** The host of a bracketed reading never starts where the text starts. */
  lemma BracketHostShorter(s: string)
    requires BracketSplit(s).Some?
    ensures |BracketSplit(s).value.0| + 1 < LastIndex(s, ':')
  {
    hide BracketSplit;
    BracketSplitReads(s);
    BracketBeforeLastColon(s, Index(s, ']'));
  }

  /** [host]:port comes back for every non-empty host without a closing bracket. */
  lemma ParseQueryOfBracketed(host: string, port: u16)
    requires host != [] && ']' !in host
    ensures ParseQuery("[" + host + "]:" + FormatNat(port)) == (host, port)
  {
    hide FormatNat, BracketSplit, ColonSplit;
    var p := FormatNat(port);
    var s := "[" + host + "]:" + p;
    PrintedPort(port);
    DigitIsNoSpace(p[|p| - 1]);
    assert s[0] == '[' && s[|s| - 1] == p[|p| - 1] && IsDigit(p[|p| - 1]);
    TrimSpaceOfTrimmed(s);
    BracketSplitExact(s, host, p);
  }

  lemma ParseQueryTrims(query: string)
    ensures ParseQuery(TrimSpace(query)) == ParseQuery(query)
  {
    TrimSpaceShape(query);
    TrimSpaceOfTrimmed(TrimSpace(query));
  }

  /** Blanks, tabs and line ends around a query change nothing, so a closing CR LF is cut. */
  lemma LineEndsAreCut(query: string)
    ensures ParseQuery(query + "\r\n") == ParseQuery(query) && ParseQuery(query + "\n") == ParseQuery(query)
    ensures ParseQuery(" " + query) == ParseQuery(query) && ParseQuery(query + " ") == ParseQuery(query)
    ensures ParseQuery("\t" + query) == ParseQuery(query) && ParseQuery(query + "\t") == ParseQuery(query)
  {
    hide TrimSpace, BracketSplit, ColonSplit;
    forall w | w in ["\r\n", "\n", " ", "\t"]
      ensures ParseQuery(query + w) == ParseQuery(query) && ParseQuery(w + query) == ParseQuery(query)
    {
      TrimSpaceIgnores("", query, w);
      TrimSpaceIgnores(w, query, "");
      assert "" + query + w == query + w && w + query + "" == w + query;
    }
    var ws := ["\r\n", "\n", " ", "\t"];
    assert ws[0] in ws && ws[1] in ws && ws[2] in ws && ws[3] in ws;
  }

  // ----- buildResponse -----

  /** The port a target is answered with; 0 is no port. */
  function AnswerPort(port: u16, queryPort: int32): nat {
    if port == 0 && queryPort > 0 then queryPort else port
  }

  function ResponseToken(tp: AddrPort, queryPort: int32): string {
    var port := AnswerPort(tp.port, queryPort);
    HostText(tp.addr) + (if port == 0 then "" else ":" + FormatNat(port))
  }

  function ResponseTokens(tps: seq<AddrPort>, queryPort: int32): (tokens: seq<string>)
    ensures |tokens| == |tps|
  {
    if tps == [] then []
    else ResponseTokens(tps[..|tps| - 1], queryPort) + [ResponseToken(tps[|tps| - 1], queryPort)]
  }

  lemma {:induction false} JoinWordsSnoc(ws: seq<string>, w: string)
    ensures JoinWords(ws + [w]) == (if ws == [] then w else JoinWords(ws) + " " + w)
  {
    if |ws| > 1 {
      assert (ws + [w])[1..] == ws[1..] + [w];
      JoinWordsSnoc(ws[1..], w);
    } else if |ws| == 1 {
      assert (ws + [w])[1..] == [w];
    }
  }

  /** One round of the loop after the separator. */
  method WriteTarget(sb: string, tp: AddrPort, queryPort: int32) returns (out: string)
    ensures out == sb + ResponseToken(tp, queryPort)
  {
    hide ShowAddr, FormatNat;
    var port: int32 := tp.port;
    // Port 0 stands for the port of the query; without that only the address is written.
    var usePort := true;
    if port == 0 {
      if queryPort > 0 {
        port := queryPort;
      } else {
        usePort := false;
      }
    }
    if tp.addr.V6? {
      out := sb + "[" + ShowAddr(tp.addr) + "]";
    } else {
      out := sb + ShowAddr(tp.addr);
    }
    assert out == sb + HostText(tp.addr);
    if usePort {
      out := out + ":" + FormatNat(port);
      assert out == sb + (HostText(tp.addr) + (":" + FormatNat(port)));
    }
  }

  lemma TokensStep(tps: seq<AddrPort>, i: nat, queryPort: int32)
    requires i < |tps|
    ensures JoinWords(ResponseTokens(tps[..i + 1], queryPort))
         == JoinWords(ResponseTokens(tps[..i], queryPort)) + (if i > 0 then " " else "")
            + ResponseToken(tps[i], queryPort)
  {
    assert tps[..i + 1][..i] == tps[..i];
    JoinWordsSnoc(ResponseTokens(tps[..i], queryPort), ResponseToken(tps[i], queryPort));
  }

  /** The loop of buildResponse writes the tokens, one blank between two of them. */
  method BuildResponse(rec: Record, queryPort: int32) returns (response: string)
    ensures response == JoinWords(ResponseTokens(rec.targets, queryPort))
  {
    if |rec.targets| == 0 {
      return "";
    }
    response := "";
    for i := 0 to |rec.targets|
      invariant response == JoinWords(ResponseTokens(rec.targets[..i], queryPort))
    {
      TokensStep(rec.targets, i, queryPort);
      if i > 0 {
        response := response + " ";
      }
      response := WriteTarget(response, rec.targets[i], queryPort);
    }
    assert rec.targets[..|rec.targets|] == rec.targets;
  }

  /** A target with a port is told as it is, whatever the query's port; port 0 stands for the query's port,
      and without that the bare address is told, which reads back with port 0. */
  lemma TokenReadsBack(tp: AddrPort, queryPort: int32)
    ensures tp.port != 0 ==> ParseTarget(ResponseToken(tp, queryPort)) == Some(tp)
    ensures tp.port == 0 && queryPort > 0 ==>
              && ResponseToken(tp, queryPort) == HostText(tp.addr) + ":" + FormatNat(queryPort)
              && (queryPort <= MAX_UINT16 ==>
                    ParseTarget(ResponseToken(tp, queryPort)) == Some(AddrPort(tp.addr, queryPort)))
    ensures tp.port == 0 && queryPort <= 0 ==>
              && ResponseToken(tp, queryPort) == HostText(tp.addr)
              && ParseTarget(ResponseToken(tp, queryPort)) == Some(tp)
  {
    hide ParseTarget, HostText;
    BareHostReadsBack(tp.addr);
    var port := AnswerPort(tp.port, queryPort);
    assert port != 0 ==> ResponseToken(tp, queryPort) == HostText(tp.addr) + ":" + FormatNat(port);
    assert port == 0 ==> ResponseToken(tp, queryPort) == HostText(tp.addr);
    if 0 < port <= MAX_UINT16 {
      PairReadsBack(AddrPort(tp.addr, port));
    }
  }

  lemma TokenIsWord(tp: AddrPort, queryPort: int32)
    ensures IsWord(ResponseToken(tp, queryPort))
  {
    AddrAlphabet(tp.addr);
    var w := ResponseToken(tp, queryPort);
    var h := HostText(tp.addr);
    assert forall i | 0 <= i < |h| :: IsV6Char(h[i]) || h[i] == '[' || h[i] == ']';
    assert forall i | 0 <= i < |w| :: IsV6Char(w[i]) || w[i] == '[' || w[i] == ']';
  }

  lemma {:induction false} TokensAreWords(tps: seq<AddrPort>, queryPort: int32)
    ensures forall w | w in ResponseTokens(tps, queryPort) :: IsWord(w)
  {
    if tps != [] {
      TokensAreWords(tps[..|tps| - 1], queryPort);
      TokenIsWord(tps[|tps| - 1], queryPort);
    }
  }

  /** The targets as the client gets them. */
  function Answered(tps: seq<AddrPort>, queryPort: int32): (answers: seq<AddrPort>)
    requires queryPort <= MAX_UINT16
    ensures |answers| == |tps|
    ensures forall i | 0 <= i < |tps| ::
              answers[i] == if tps[i].port == 0 && queryPort > 0 then AddrPort(tps[i].addr, queryPort) else tps[i]
  {
    if tps == [] then []
    else
      var last := tps[|tps| - 1];
      Answered(tps[..|tps| - 1], queryPort) + [AddrPort(last.addr, AnswerPort(last.port, queryPort))]
  }

  lemma {:induction false} TokensReadBack(tps: seq<AddrPort>, queryPort: int32)
    requires queryPort <= MAX_UINT16
    ensures ParseTargets(ResponseTokens(tps, queryPort)) == Some(Answered(tps, queryPort))
  {
    if tps != [] {
      var init, last := tps[..|tps| - 1], tps[|tps| - 1];
      TokensReadBack(init, queryPort);
      TokenReadsBack(last, queryPort);
      ParseTargetsSnoc(ResponseTokens(init, queryPort), ResponseToken(last, queryPort));
    }
  }

  /** Splitting a response on spaces and parsing each token recovers every target in order, those with
      port 0 with the query's port if it has one. */
  lemma ResponseRoundTrip(tps: seq<AddrPort>, queryPort: int32)
    requires queryPort <= MAX_UINT16
    ensures var told := ParseTargets(Fields(JoinWords(ResponseTokens(tps, queryPort))));
            && told.Some? && |told.value| == |tps|
            && forall i | 0 <= i < |tps| ::
                 told.value[i]
                 == if tps[i].port == 0 && queryPort > 0 then AddrPort(tps[i].addr, queryPort) else tps[i]
  {
    hide ResponseTokens, ParseTargets, Fields, JoinWords;
    TokensAreWords(tps, queryPort);
    FieldsOfJoin(ResponseTokens(tps, queryPort));
    TokensReadBack(tps, queryPort);
  }

  /** Only an empty target list has an empty response. */
  lemma ResponseEmpty(tps: seq<AddrPort>, queryPort: int32)
    ensures JoinWords(ResponseTokens(tps, queryPort)) == "" <==> tps == []
  {
  }
}
