/** internal/cli/import.go: importing parsed entries into a repository. */
module Importer {
  import opened Text
  import opened Decimal
  import opened NetAddr
  import opened Targets
  import opened Records
  import opened Repository
  import opened Ini

  /** Equal under Unicode simple folding, for the letters of NORESPONSE; the long s folds to S. */
  predicate FoldsTo(c: char, upper: char)
    requires 'A' <= upper <= 'Z'
  {
    c == upper || c as int == upper as int + 32 || (upper == 'S' && c == '\U{17F}')
  }

  predicate IsNoResponse(value: string) {
    var word := "NORESPONSE";
    |value| == |word| && forall k | 0 <= k < |word| :: FoldsTo(value[k], word[k])
  }

  /** The targets of a value; None at the first unreadable token. */
  function ReadValue(value: string): Option<seq<AddrPort>> {
    if value == "" || IsNoResponse(value) then Some([])
    else ParseTargets(Fields(ReplaceAll(value, ",", " ")))
  }

  method ReadValueLoop(value: string) returns (targets: Option<seq<AddrPort>>)
    ensures targets == ReadValue(value)
  {
    hide ParseAddrPort, ParseAddr, TrimBrackets, Fields, ReplaceAll, IsNoResponse, ParseTargets;
    NoTokens();
    var out: seq<AddrPort> := [];
    if value != "" && !IsNoResponse(value) {
      var parts := Fields(ReplaceAll(value, ",", " "));
      for i := 0 to |parts|
        invariant ParseTargets(parts[..i]) == Some(out)
      {
        assert parts[..i + 1] == parts[..i] + [parts[i]];
        ParseTargetsSnoc(parts[..i], parts[i]);
        var tp := ParseAddrPort(parts[i]);
        if tp.Some? {
          out := out + [tp.value];
        } else {
          var addr := ParseAddr(TrimBrackets(parts[i]));
          if addr.None? {
            BadTokenFails(parts, i);
            return None;
          }
          out := out + [AddrPort(addr.value, 0)];
        }
      }
      assert parts[..|parts|] == parts;
    }
    return Some(out);
  }

  lemma NoTokens()
    ensures ParseTargets([]) == Some([])
  {
  }

  lemma {:induction false} BadTokenFails(parts: seq<string>, i: nat)
    requires i < |parts| && ParseTarget(parts[i]) == None
    ensures ParseTargets(parts) == None
  {
    hide ParseTarget;
    if i < |parts| - 1 {
      BadTokenFails(parts[..|parts| - 1], i);
    }
  }

  datatype Import = Imported(count: nat) | BadValue(line: nat) | CreateFailed(line: nat, outcome: Outcome)

  function RecordFor(e: Entry, instance: int64, targets: seq<AddrPort>): Record {
    Record(e.ident, instance, targets, 0, 0, 0)
  }

  /** Where the repository fails, if it does: at the call with this index. */
  datatype Failure = Failure(at: int, fault: Fault)

  function FaultOf(f: Failure, n: nat): Fault {
    if n == f.at then f.fault else NoFault
  }

  /** Importing the entries in order: the contents reached and the result. */
  function ImportAll(policy: Policy, m: Contents, es: seq<Entry>, instance: int64, now: int, f: Failure)
    : (Contents, Import)
  {
    if es == [] then (m, Imported(0))
    else
      var n := |es| - 1;
      var (m1, r1) := ImportAll(policy, m, es[..n], instance, now, f);
      if !r1.Imported? then (m1, r1)
      else
        match ReadValue(es[n].value)
        case None => (m1, BadValue(es[n].line))
        case Some(targets) =>
          var (m2, outcome) :=
            Attempt(policy, m1, Create(Some(RecordFor(es[n], instance, targets))), now, FaultOf(f, n));
          (m2, if outcome == Done then Imported(r1.count + 1) else CreateFailed(es[n].line, outcome))
  }

  /** A prefix that fails decides the result. */
  lemma {:induction false} FailureStops(
      policy: Policy, m: Contents, es: seq<Entry>, instance: int64, now: int, f: Failure, i: nat)
    requires i <= |es| && !ImportAll(policy, m, es[..i], instance, now, f).1.Imported?
    ensures ImportAll(policy, m, es, instance, now, f) == ImportAll(policy, m, es[..i], instance, now, f)
  {
    hide ReadValue, Attempt;
    if i < |es| {
      assert es[..|es| - 1][..i] == es[..i];
      FailureStops(policy, m, es[..|es| - 1], instance, now, f, i);
    } else {
      assert es[..i] == es;
    }
  }

  method ImportEntries(repo: MapRepository, es: seq<Entry>, instance: int64, now: int, f: Failure) returns (r: Import)
    modifies repo
    ensures (repo.contents, r) == ImportAll(repo.policy, old(repo.contents), es, instance, now, f)
  {
    hide ReadValue, Attempt;
    var imported := 0;
    ghost var m := repo.contents;
    for i := 0 to |es|
      invariant (repo.contents, Imported(imported)) == ImportAll(repo.policy, m, es[..i], instance, now, f)
    {
      assert es[..i + 1][..i] == es[..i];
      var targets := ReadValueLoop(es[i].value);
      if targets.None? {
        FailureStops(repo.policy, m, es, instance, now, f, i + 1);
        return BadValue(es[i].line);
      }
      var rec := RecordFor(es[i], instance, targets.value);
      var outcome := repo.Perform(Create(Some(rec)), now, FaultOf(f, i));
      if outcome != Done {
        FailureStops(repo.policy, m, es, instance, now, f, i + 1);
        return CreateFailed(es[i].line, outcome);
      }
      imported := imported + 1;
    }
    assert es[..|es|] == es;
    return Imported(imported);
  }

  // ----- What an import means -----

  ghost predicate LastFor(es: seq<Entry>, d: string, k: int) {
    0 <= k < |es| && es[k].ident == d && forall j | k < j < |es| :: es[j].ident != d
  }

  /** The contents after importing all of es: for each ident its last entry, created when the ident first was
      and updated now; else what was there. */
  ghost predicate IsImportOf(m: Contents, m': Contents, es: seq<Entry>, instance: int64, now: int) {
    && (forall d | (forall j | 0 <= j < |es| :: es[j].ident != d) ::
          (d in m' <==> d in m) && (d in m ==> m'[d] == m[d]))
    && (forall d, k | LastFor(es, d, k) ::
          && d in m' && m'[d].instance == instance && Some(m'[d].targets) == ReadValue(es[k].value)
          && m'[d].createdAt == (if d in m then m[d].createdAt else now) && m'[d].updatedAt == now)
  }

  lemma ImportStep(m: Contents, m1: Contents, es: seq<Entry>, instance: int64, now: int, rec: Record)
    requires es != [] && IsImportOf(m, m1, es[..|es| - 1], instance, now)
    requires rec.instance == instance && Some(rec.targets) == ReadValue(es[|es| - 1].value)
    requires var d := es[|es| - 1].ident;
             rec.createdAt == (if d in m1 then m1[d].createdAt else now) && rec.updatedAt == now
    ensures IsImportOf(m, m1[es[|es| - 1].ident := rec], es, instance, now)
  {
    hide ReadValue;
    var n := |es| - 1;
    var init, m' := es[..n], m1[es[n].ident := rec];
    KeepsCreation(m, m1, init, instance, now, es[n].ident);
    forall d | (forall j | 0 <= j < |es| :: es[j].ident != d)
      ensures (d in m' <==> d in m) && (d in m ==> m'[d] == m[d])
    {
      assert forall j | 0 <= j < n :: init[j].ident != d;
    }
    forall d, k | LastFor(es, d, k)
      ensures d in m' && m'[d].instance == instance && Some(m'[d].targets) == ReadValue(es[k].value)
      ensures m'[d].createdAt == (if d in m then m[d].createdAt else now) && m'[d].updatedAt == now
    {
      if k < n {
        assert init[k] == es[k] && LastFor(init, d, k);
      }
    }
  }

  /** Whatever an import has written, a domain that is stored was created when it first was. */
  lemma KeepsCreation(m: Contents, m': Contents, es: seq<Entry>, instance: int64, now: int, d: string)
    requires IsImportOf(m, m', es, instance, now)
    ensures (if d in m' then m'[d].createdAt else now) == if d in m then m[d].createdAt else now
  {
    hide ReadValue;
    if k :| 0 <= k < |es| && es[k].ident == d {
      var l := LastOne(es, d, k);
    } else {
      assert forall j | 0 <= j < |es| :: es[j].ident != d;
    }
  }

  lemma {:induction false} LastOne(es: seq<Entry>, d: string, k: nat) returns (l: nat)
    requires k < |es| && es[k].ident == d
    ensures LastFor(es, d, l)
    decreases |es| - k
  {
    if j :| k < j < |es| && es[j].ident == d {
      l := LastOne(es, d, j);
    } else {
      l := k;
    }
  }

  lemma AttemptDone(policy: Policy, m: Contents, rec: Record, now: int, fault: Fault)
    ensures var (m', outcome) := Attempt(policy, m, Create(Some(rec)), now, fault);
            && (outcome == Done <==> TrimSpace(rec.domain) != "" && fault == NoFault)
            && (outcome == Done ==> m' == m[rec.domain := Stamp(policy, m, rec, now)])
            && (outcome != Done ==> m' == if fault == FailsAfter then Apply(policy, m, Create(Some(rec)), now).0 else m)
  {
    hide TrimSpace, Stamp;
  }

  /** A successful import has counted every entry and equals folding the upserts: the last entry of an
      ident wins. */
  lemma {:induction false} ImportMeaning(
      policy: Policy, m: Contents, es: seq<Entry>, instance: int64, now: int, f: Failure)
    requires ImportAll(policy, m, es, instance, now, f).1.Imported?
    ensures ImportAll(policy, m, es, instance, now, f).1.count == |es|
    ensures IsImportOf(m, ImportAll(policy, m, es, instance, now, f).0, es, instance, now)
  {
    hide ReadValue, TrimSpace, CreatedAt, IsImportOf, Attempt;
    if es == [] {
      ImportNothing(m, instance, now);
    } else {
      var n := |es| - 1;
      ImportMeaning(policy, m, es[..n], instance, now, f);
      var m1 := ImportAll(policy, m, es[..n], instance, now, f).0;
      var rec := RecordFor(es[n], instance, ReadValue(es[n].value).value);
      AttemptDone(policy, m1, rec, now, FaultOf(f, n));
      StampOfImport(policy, m1, rec, now);
      ImportStep(m, m1, es, instance, now, Stamp(policy, m1, rec, now));
    }
  }

  /** In so many words: an ident that no entry has keeps what it had; of several entries the last is stored,
      with the creation time the ident had before the import, or now. */
  lemma ImportStores(
      policy: Policy, m: Contents, es: seq<Entry>, instance: int64, now: int, f: Failure, d: string)
    requires ImportAll(policy, m, es, instance, now, f).1.Imported?
    ensures var m' := ImportAll(policy, m, es, instance, now, f).0;
            && ((forall j | 0 <= j < |es| :: es[j].ident != d) ==>
                  (d in m' <==> d in m) && (d in m ==> m'[d] == m[d]))
            && (forall k | 0 <= k < |es| && es[k].ident == d && (forall j | k < j < |es| :: es[j].ident != d) ::
                  && d in m' && m'[d].instance == instance && Some(m'[d].targets) == ReadValue(es[k].value)
                  && m'[d].createdAt == (if d in m then m[d].createdAt else now) && m'[d].updatedAt == now)
  {
    hide ReadValue, ImportAll;
    ImportMeaning(policy, m, es, instance, now, f);
    var m' := ImportAll(policy, m, es, instance, now, f).0;
    forall k | 0 <= k < |es| && es[k].ident == d && (forall j | k < j < |es| :: es[j].ident != d)
      ensures d in m' && m'[d].instance == instance && Some(m'[d].targets) == ReadValue(es[k].value)
      ensures m'[d].createdAt == (if d in m then m[d].createdAt else now) && m'[d].updatedAt == now
    {
      assert LastFor(es, d, k);
    }
  }

  lemma StampOfImport(policy: Policy, m: Contents, rec: Record, now: int)
    requires rec.createdAt == 0
    ensures var r := Stamp(policy, m, rec, now);
            && r.createdAt == (if rec.domain in m then m[rec.domain].createdAt else now) && r.updatedAt == now
            && r.instance == rec.instance && r.targets == rec.targets
  {
  }

  lemma ImportNothing(m: Contents, instance: int64, now: int)
    ensures IsImportOf(m, m, [], instance, now)
  {
  }

  /** A failed import names the line of the failing entry and has written exactly the entries before
      it, and that entry too only when its own call failed after taking effect. */
  lemma {:induction false} ImportFailure(
      policy: Policy, m: Contents, es: seq<Entry>, instance: int64, now: int, f: Failure)
    returns (k: nat)
    requires !ImportAll(policy, m, es, instance, now, f).1.Imported?
    ensures k < |es|
    ensures var (m', r) := ImportAll(policy, m, es, instance, now, f);
            var (before, r0) := ImportAll(policy, m, es[..k], instance, now, f);
            var targets := ReadValue(es[k].value);
            && r.line == es[k].line && r0 == Imported(k)
            && (r.BadValue? <==> targets.None?)
            && m' == if targets.Some? && FaultOf(f, k) == FailsAfter
                     then Apply(policy, before, Create(Some(RecordFor(es[k], instance, targets.value))), now).0
                     else before
  {
    hide ReadValue, TrimSpace, CreatedAt, Attempt, Apply;
    var n := |es| - 1;
    var (m1, r1) := ImportAll(policy, m, es[..n], instance, now, f);
    if r1.Imported? {
      k := n;
      ImportMeaning(policy, m, es[..n], instance, now, f);
      if ReadValue(es[n].value).Some? {
        AttemptDone(policy, m1, RecordFor(es[n], instance, ReadValue(es[n].value).value), now, FaultOf(f, n));
      }
    } else {
      k := ImportFailure(policy, m, es[..n], instance, now, f);
      assert es[..n][..k] == es[..k];
    }
  }

  // ----- NORESPONSE -----

  /** The word in any mixture of upper and lower case; the long s is an s too. */
  predicate SpellsNoResponse(v: string) {
    && |v| == 10
    && v[0] in "Nn" && v[1] in "Oo" && v[2] in "Rr" && v[3] in "Ee" && v[4] in "Ss\U{17F}"
    && v[5] in "Pp" && v[6] in "Oo" && v[7] in "Nn" && v[8] in "Ss\U{17F}" && v[9] in "Ee"
  }

  lemma SpellingIsNoResponse(value: string)
    ensures IsNoResponse(value) <==> SpellsNoResponse(value)
  {
    var word := "NORESPONSE";
    assert |word| == 10;
    if |value| == 10 {
      assert IsNoResponse(value) <==>
             && FoldsTo(value[0], 'N') && FoldsTo(value[1], 'O') && FoldsTo(value[2], 'R') && FoldsTo(value[3], 'E')
             && FoldsTo(value[4], 'S') && FoldsTo(value[5], 'P') && FoldsTo(value[6], 'O') && FoldsTo(value[7], 'N')
             && FoldsTo(value[8], 'S') && FoldsTo(value[9], 'E');
    }
  }

  lemma {:induction false} TargetsCount(tokens: seq<string>)
    ensures var r := ParseTargets(tokens); r.Some? ==> |r.value| == |tokens|
  {
    hide ParseTarget;
    if tokens != [] {
      TargetsCount(tokens[..|tokens| - 1]);
    }
  }

  lemma TokensFrom(value: string, w: string, c: char)
    requires w in Fields(ReplaceAll(value, ",", " ")) && c in w && c != ' '
    ensures c in value
  {
    hide Fields, ReplaceAll;
    FieldsFrom(ReplaceAll(value, ",", " "), w, c);
    ReplaceFrom(value, ',', " ", c);
  }

  /** A value is read as no targets exactly when it spells NORESPONSE or holds nothing but spaces and commas. */
  lemma ReadsAsNothingExactly(value: string)
    ensures ReadValue(value) == Some([])
            <==> SpellsNoResponse(value) || forall i | 0 <= i < |value| :: IsSpace(value[i]) || value[i] == ','
  {
    hide ParseTargets, Fields, ReplaceAll, IsNoResponse, SpellsNoResponse, IsSpace;
    SpellingIsNoResponse(value);
    var text := ReplaceAll(value, ",", " ");
    NoTokens();
    TargetsCount(Fields(text));
    if c :| c in value && !IsSpace(c) && c != ',' {
      ReplaceKeeps(value, ',', " ", c);
      FieldsKeep(text, c);
      var i :| 0 <= i < |value| && value[i] == c;
    } else {
      forall i | 0 <= i < |value|
        ensures IsSpace(value[i]) || value[i] == ','
      {
        assert value[i] in value;
      }
      if Fields(text) != [] {
        FirstFieldIsWord(text);
        var w := Fields(text)[0];
        assert w[0] in w && w in Fields(text);
        FieldsFrom(text, w, w[0]);
        ReplaceRemoves(value, ',', " ");
        BlankIsSpace();
        ReplaceFrom(value, ',', " ", w[0]);
      }
    }
  }

  lemma BlankIsSpace()
    ensures IsSpace(' ')
  {
  }

  lemma FirstFieldIsWord(s: string)
    requires Fields(s) != []
    ensures Fields(s)[0] != [] && !IsSpace(Fields(s)[0][0])
  {
    hide IsSpace;
  }

  /** Importing NORESPONSE, however it is written, stores a record without targets. */
  lemma NoResponseImported(policy: Policy, m: Contents, e: Entry, instance: int64, now: int)
    requires SpellsNoResponse(e.value) && TrimSpace(e.ident) != ""
    ensures var (m', r) := ImportAll(policy, m, [e], instance, now, Failure(-1, NoFault));
            r == Imported(1) && e.ident in m' && m'[e.ident].targets == [] && m'[e.ident].instance == instance
  {
    hide ReadValue, Attempt, SpellsNoResponse, TrimSpace, IsReadable;
    var f := Failure(-1, NoFault);
    ReadsAsNothingExactly(e.value);
    ReadValueExact(e.value);
    ImportSucceedsExactlyWhen(policy, m, [e], instance, now, f);
    ImportMeaning(policy, m, [e], instance, now, f);
    assert LastFor([e], e.ident, 0);
  }

  // ----- Which values can be read -----

  /** A blank or NORESPONSE value, or one whose tokens are all targets. */
  ghost predicate IsReadable(value: string) {
    value == "" || IsNoResponse(value) || forall w | w in Fields(ReplaceAll(value, ",", " ")) :: IsTargetText(w)
  }

  lemma ReadValueExact(value: string)
    ensures ReadValue(value).Some? <==> IsReadable(value)
  {
    hide Fields, ReplaceAll, ParseTargets, IsNoResponse, IsTargetText;
    ParseTargetsExact(Fields(ReplaceAll(value, ",", " ")));
  }

  /** An import succeeds exactly when every value is readable text, no ident is blank and no repository
      call fails. */
  lemma {:induction false} ImportSucceedsExactlyWhen(
      policy: Policy, m: Contents, es: seq<Entry>, instance: int64, now: int, f: Failure)
    ensures ImportAll(policy, m, es, instance, now, f).1.Imported? <==>
            && (forall k | 0 <= k < |es| :: IsReadable(es[k].value) && TrimSpace(es[k].ident) != "")
            && (0 <= f.at < |es| ==> f.fault == NoFault)
  {
    hide ReadValue, TrimSpace, Attempt, IsReadable, Apply;
    if es != [] {
      var n := |es| - 1;
      var init := es[..n];
      ImportSucceedsExactlyWhen(policy, m, init, instance, now, f);
      assert forall k | 0 <= k < |init| :: init[k] == es[k];
      ReadValueExact(es[n].value);
      if ReadValue(es[n].value).Some? {
        AttemptDone(policy, ImportAll(policy, m, init, instance, now, f).0,
                    RecordFor(es[n], instance, ReadValue(es[n].value).value), now, FaultOf(f, n));
      }
    }
  }

  /** c stands in some token of the value, and not in the zone of an IPv6 address. */
  ghost predicate HoldsOutsideZone(value: string, c: char) {
    exists w, i: nat :: w in Fields(ReplaceAll(value, ",", " ")) && OutsideZone(w, i) && w[i] == c
  }

  /** In a value without a percent sign every character that separates no tokens stands outside a zone. */
  lemma HeldWithoutZone(value: string, c: char)
    requires c in value && '%' !in value && !IsSpace(c) && c != ','
    ensures HoldsOutsideZone(value, c)
  {
    hide IsSpace, Fields, ReplaceAll;
    var text := ReplaceAll(value, ",", " ");
    ReplaceKeeps(value, ',', " ", c);
    FieldsKeep(text, c);
    var w :| w in Fields(text) && c in w;
    if '%' in w {
      TokensFrom(value, w, '%');
    }
    var i :| 0 <= i < |w| && w[i] == c;
    assert OutsideZone(w, i);
  }

  /** A character that no address holds makes a value unreadable wherever it stands outside a zone. */
  lemma ForeignCharacterRejected(value: string, c: char)
    requires HoldsOutsideZone(value, c) && !IsV6Input(c) && !IsTrimmable(c) && !IsNoResponse(value)
    ensures ReadValue(value) == None
  {
    hide ParseTarget, IsNoResponse, Fields, ReplaceAll, ParseTargets;
    var tokens := Fields(ReplaceAll(value, ",", " "));
    var w, at: nat :| w in tokens && OutsideZone(w, at) && w[at] == c;
    TargetAlphabet(w, at);
    TokensFrom(value, w, c);
    var i :| 0 <= i < |tokens| && tokens[i] == w;
    BadTokenFails(tokens, i);
  }

  lemma NoResponseLetters(value: string)
    ensures IsNoResponse(value) ==> '$' !in value
  {
    assert forall c, upper: char | 'A' <= upper <= 'Z' && FoldsTo(c, upper) :: c != '$';
  }

  /** The official $PORT placeholder is not understood: a value that holds it after an IPv4 or a bracketed
      IPv6 address, alone or in a list, cannot be read.  Only within a zone is it text like any other. */
  lemma DollarPortRejected(value: string)
    requires HoldsOutsideZone(value, '$')
    ensures ReadValue(value) == None && !IsReadable(value)
  {
    hide ReadValue, IsReadable, Fields, ReplaceAll;
    var w, i: nat :| w in Fields(ReplaceAll(value, ",", " ")) && OutsideZone(w, i) && w[i] == '$';
    TokensFrom(value, w, '$');
    NoResponseLetters(value);
    ForeignCharacterRejected(value, '$');
    ReadValueExact(value);
  }

  /** In particular wherever it stands in a value without zones. */
  lemma DollarPortWithoutZone(value: string)
    requires '$' in value && '%' !in value
    ensures HoldsOutsideZone(value, '$') && ReadValue(value) == None
  {
    hide ReadValue, HoldsOutsideZone;
    HeldWithoutZone(value, '$');
    DollarPortRejected(value);
  }

  /** Hence an import with the placeholder in any value fails. */
  lemma DollarPortAbortsImport(
      policy: Policy, m: Contents, es: seq<Entry>, instance: int64, now: int, f: Failure, k: nat)
    requires k < |es| && HoldsOutsideZone(es[k].value, '$')
    ensures !ImportAll(policy, m, es, instance, now, f).1.Imported?
  {
    hide ImportAll, IsReadable, HoldsOutsideZone;
    DollarPortRejected(es[k].value);
    ImportSucceedsExactlyWhen(policy, m, es, instance, now, f);
  }

  // ----- Values -----

  function ShowTargets(tps: seq<AddrPort>): seq<string> {
    if tps == [] then [] else ShowTargets(tps[..|tps| - 1]) + [ShowAddrPort(tps[|tps| - 1])]
  }

  lemma {:induction false} ShownTargetsRead(tps: seq<AddrPort>)
    ensures ParseTargets(ShowTargets(tps)) == Some(tps)
    ensures forall w | w in ShowTargets(tps) :: IsToken(w)
  {
    hide ParseTarget, ShowAddrPort, IsToken;
    if tps != [] {
      var init, last := tps[..|tps| - 1], tps[|tps| - 1];
      ShownTargetsRead(init);
      PairReadsBack(last);
      ShownIsToken(last);
      ParseTargetsSnoc(ShowTargets(init), ShowAddrPort(last));
      assert init + [last] == tps;
    }
  }

  /** A word without commas that does not start like NORESPONSE. */
  predicate IsToken(w: string) {
    IsWord(w) && ',' !in w && w[0] != 'N' && w[0] != 'n'
  }

  lemma ShownIsToken(tp: AddrPort)
    ensures IsToken(ShowAddrPort(tp))
  {
    hide ShowAddrPort;
    AddrPortAlphabet(tp);
    var w := ShowAddrPort(tp);
    assert forall k | 0 <= k < |w| :: IsV6Char(w[k]) || w[k] == '[' || w[k] == ']';
  }

  function JoinCommas(ws: seq<string>): string {
    if ws == [] then []
    else if |ws| == 1 then ws[0]
    else ws[0] + "," + JoinCommas(ws[1..])
  }

  lemma {:induction false} ReplaceInWord(w: string, rest: string)
    requires ',' !in w
    ensures ReplaceAll(w + rest, ",", " ") == w + ReplaceAll(rest, ",", " ")
  {
    if w == "" {
      assert w + rest == rest;
    } else {
      ReplaceInWord(w[1..], rest);
      var s := w + rest;
      assert s[1..] == w[1..] + rest && s[0] != ',' && !("," <= s);
    }
  }

  lemma {:induction false} CommasToBlanks(ws: seq<string>)
    requires forall w | w in ws :: ',' !in w
    ensures ReplaceAll(JoinCommas(ws), ",", " ") == JoinWords(ws)
  {
    if |ws| == 1 {
      ReplaceInWord(ws[0], "");
      assert ws[0] + "" == ws[0];
    } else if |ws| > 1 {
      var rest := JoinCommas(ws[1..]);
      CommasToBlanks(ws[1..]);
      ReplaceInWord(ws[0], "," + rest);
      assert ("," + rest)[1..] == rest && "," <= "," + rest;
      assert JoinCommas(ws) == ws[0] + ("," + rest);
      assert ws[0] + (" " + JoinWords(ws[1..])) == JoinWords(ws);
    }
  }

  /** A comma-separated list of printed targets reads back in order. */
  lemma ValueRoundTrip(tps: seq<AddrPort>)
    requires tps != []
    ensures ReadValue(JoinCommas(ShowTargets(tps))) == Some(tps)
  {
    hide ShowAddrPort, ParseTargets;
    var ws := ShowTargets(tps);
    ShownTargetsRead(tps);
    assert forall w | w in ws :: IsToken(w);
    CommasToBlanks(ws);
    FieldsOfJoin(ws);
    var value := JoinCommas(ws);
    assert ws[0] in ws && value != "" && value[0] == ws[0][0];
    assert "NORESPONSE"[0] == 'N';
    assert !IsNoResponse(value);
  }
}
