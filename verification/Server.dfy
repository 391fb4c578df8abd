/** core/server.go, core/cache.go, core/handler.go and core/record.go: the server object. */
module Server {
  import opened Text
  import opened Decimal
  import opened NetAddr
  import opened Targets
  import opened Regex
  import Glob
  import opened Records
  import opened MatchIndex
  import opened Query
  import opened Repository

  datatype Metric = NoMetric | Hit | Miss | Error

  class Server {
    const repository: MapRepository
    var cache: map<string, Record>
    var wildcardRecords: seq<Record>
    var regexRecords: seq<Compiled>
    /** The list of records the three structures were built from. */
    ghost var loaded: seq<Record>

    function TheIndex(): Index
      reads this
    {
      Index(cache, wildcardRecords, regexRecords)
    }

    ghost predicate Valid()
      reads this
    {
      TheIndex() == BuildIndex(loaded)
    }

    constructor (repository: MapRepository)
      ensures Valid() && this.repository == repository && loaded == []
    {
      this.repository := repository;
      cache, wildcardRecords, regexRecords := map[], [], [];
      loaded := [];
    }

    method TryProcessRegex(r: Record, regexes: seq<Compiled>) returns (done: bool, out: seq<Compiled>)
      ensures done == IsRegexDomain(r.domain)
      ensures out == if done then regexes + RegexEntry(r) else regexes
    {
      out := regexes;
      if HasPrefix(r.domain, "reg:") {
        var re := Compile(r.domain[4..]);
        if re.Some? {
          out := out + [Compiled(r, re.value)];
        }
        return true, out;
      }
      return false, out;
    }

    method TryProcessAdvancedGlob(r: Record, regexes: seq<Compiled>) returns (done: bool, out: seq<Compiled>)
      requires !IsRegexDomain(r.domain)
      ensures done == IsAdvancedGlob(r.domain)
      ensures out == regexes + RegexEntry(r)
    {
      out := regexes;
      var domain := r.domain;
      var isAdvanced := '?' in domain || Count(domain, '*') > 1 || ('*' in domain && !HasPrefix(domain, "*"));
      if isAdvanced {
        var re := Compile(Glob.DomainToRegex(domain));
        if re.Some? {
          out := out + [Compiled(r, re.value)];
        }
        return true, out;
      }
      return false, out;
    }

    method ProcessRecords(records: seq<Record>)
      returns (newCache: map<string, Record>, wildcards: seq<Record>, regexes: seq<Compiled>)
      ensures newCache == ExactMap(records) && wildcards == Wildcards(records) && regexes == Regexes(records)
    {
      newCache, wildcards, regexes := map[], [], [];
      for i := 0 to |records|
        invariant newCache == ExactMap(records[..i])
        invariant wildcards == Wildcards(records[..i])
        invariant regexes == Regexes(records[..i])
      {
        assert records[..i + 1][..i] == records[..i];
        var r := records[i];
        newCache := newCache[r.domain := r];
        var done;
        done, regexes := TryProcessRegex(r, regexes);
        if done {
          continue;
        }
        done, regexes := TryProcessAdvancedGlob(r, regexes);
        if done {
          continue;
        }
        if HasPrefix(r.domain, "*") {
          wildcards := wildcards + [r];
        }
      }
      assert records[..|records|] == records;
    }

    /** The cache becomes the index of what Find returned; a failed Find changes nothing. */
    method LoadCache(fault: bool) returns (ok: bool)
      requires Valid() && WellKept(repository.contents)
      modifies this
      ensures Valid() && ok == !fault
      ensures ok ==> Lists(repository.contents, loaded)
      ensures !ok ==> TheIndex() == old(TheIndex()) && loaded == old(loaded)
    {
      var found := repository.Find(fault);
      if found.None? {
        return false;
      }
      var newCache, wildcards, regexes := ProcessRecords(found.value);
      wildcards := SortByLength(wildcards);
      cache, wildcardRecords, regexRecords := newCache, wildcards, regexes;
      loaded := found.value;
      return true;
    }

    /** The best match of the flat list the cache was loaded from. */
    method LookupRecord(host: string) returns (rec: Option<Record>)
      requires Valid()
      ensures IsBestMatch(loaded, host, rec)
    {
      IndexRefinesFlatList(loaded, host);
      if host in cache {
        return Some(cache[host]);
      }
      for i := 0 to |regexRecords|
        invariant FirstRegex(regexRecords, host) == FirstRegex(regexRecords[i..], host)
      {
        assert regexRecords[i..][1..] == regexRecords[i + 1..];
        if MatchString(regexRecords[i].re, host) {
          return Some(regexRecords[i].record);
        }
      }
      for i := 0 to |wildcardRecords|
        invariant FirstWildcard(wildcardRecords, host) == FirstWildcard(wildcardRecords[i..], host)
      {
        assert wildcardRecords[i..][1..] == wildcardRecords[i + 1..];
        var pat := wildcardRecords[i].domain;
        if !HasPrefix(pat, "*") {
          continue;
        }
        var suffix := pat[1..];
        if suffix == "" || HasSuffix(host, suffix) {
          return Some(wildcardRecords[i]);
        }
      }
      return None;
    }

    /** What a client is told, for every query text; None is a query that could not be read, and a reply
        that never arrives.  The branch for an empty response is never taken: the error metric counts
        failed writes only. */
    method HandleQuery(text: Option<string>, writeFails: bool) returns (reply: Option<string>, metric: Metric)
      requires Valid()
      ensures text.None? || TrimSpace(text.value) == "" ==> reply == None && metric == NoMetric
      ensures text.Some? && TrimSpace(text.value) != "" ==>
                exists rec :: IsBestMatch(loaded, ParseQuery(text.value).0, rec) &&
                  match rec
                  case None => reply == (if writeFails then None else Some("404\n")) && metric == Miss
                  case Some(r) =>
                    if r.targets == [] then reply == None && metric == Hit
                    else if writeFails then reply == None && metric == Error
                    else
                      var port := ParseQuery(text.value).1;
                      && metric == Hit && reply.Some? && reply.value != ""
                      && var told := ParseTargets(Fields(reply.value));
                         && told.Some? && |told.value| == |r.targets|
                         && forall i | 0 <= i < |r.targets| ::
                              told.value[i]
                              == if r.targets[i].port == 0 && port > 0 then AddrPort(r.targets[i].addr, port)
                                 else r.targets[i]
    {
      hide ParseTargets, Fields, ResponseTokens, TheIndex, IsBestMatch, TrimSpace;
      if text.None? {
        return None, NoMetric;
      }
      var raw := TrimSpace(text.value);
      if raw == "" {
        return None, NoMetric;
      }
      ParseQueryTrims(text.value);
      var query := ParseQuery(raw);
      var rec := LookupRecord(query.0);
      if rec.None? {
        reply, metric := HandleNotFound(writeFails);
      } else {
        reply, metric := HandleHit(query.1, rec.value, writeFails);
      }
    }

    method HandleNotFound(writeFails: bool) returns (reply: Option<string>, metric: Metric)
      ensures reply == (if writeFails then None else Some("404\n")) && metric == Miss
    {
      return if writeFails then None else Some("404\n"), Miss;
    }

    /** An empty target list means silence. */
    method HandleHit(port: int32, record: Record, writeFails: bool) returns (reply: Option<string>, metric: Metric)
      ensures record.targets == [] ==> reply == None && metric == Hit
      ensures record.targets != [] && writeFails ==> reply == None && metric == Error
      ensures record.targets != [] && !writeFails ==>
                reply == Some(JoinWords(ResponseTokens(record.targets, port))) && reply != Some("") && metric == Hit
      ensures record.targets != [] && !writeFails && port <= MAX_UINT16 ==>
                var told := ParseTargets(Fields(reply.value));
                && told.Some? && |told.value| == |record.targets|
                && forall i | 0 <= i < |record.targets| ::
                     told.value[i]
                     == if record.targets[i].port == 0 && port > 0 then AddrPort(record.targets[i].addr, port)
                        else record.targets[i]
    {
      hide ParseTargets, Fields, ResponseTokens, JoinWords;
      if |record.targets| == 0 {
        return None, Hit;
      }
      var response := BuildResponse(record, port);
      ResponseEmpty(record.targets, port);
      if port <= MAX_UINT16 {
        ResponseRoundTrip(record.targets, port);
      }
      if response == "" {
        return None, Error;
      }
      if writeFails {
        return None, Error;
      }
      return Some(response), Hit;
    }

    /** The common shape of UpsertRecord, DeleteRecord and DeleteInstanceRecords: write, then reload.  After
        a failed write the old cache stays, whether or not the write took effect; a failed reload keeps the
        old cache although the write stands; success leaves a cache loaded from exactly the contents written. */
    method Mutate(op: Op, now: int, writeFault: Fault, findFails: bool) returns (outcome: Outcome)
      requires Valid() && WellKept(repository.contents) && now != 0
      modifies this, repository
      ensures Valid() && WellKept(repository.contents)
      ensures var (written, wrote) :=
                Attempt(repository.policy, old(repository.contents), op, now, writeFault);
              && repository.contents == written
              && (wrote != Done ==> outcome == wrote && loaded == old(loaded) && TheIndex() == old(TheIndex()))
              && (wrote == Done && findFails ==>
                    outcome == ErrIO && loaded == old(loaded) && TheIndex() == old(TheIndex()))
              && (wrote == Done && !findFails ==> outcome == Done && Lists(written, loaded))
    {
      hide Lists, BuildIndex;
      ApplyKeeps(repository.policy, repository.contents, op, now);
      outcome := repository.Perform(op, now, writeFault);
      if outcome != Done {
        return;
      }
      var ok := LoadCache(findFails);
      return if ok then Done else ErrIO;
    }

    method UpsertRecord(record: Option<Record>, now: int, writeFault: Fault, findFails: bool)
      returns (outcome: Outcome)
      requires Valid() && WellKept(repository.contents) && now != 0
      modifies this, repository
      ensures Valid() && WellKept(repository.contents)
      ensures record.None? ==>
                outcome == ErrRecordNil && repository.contents == old(repository.contents) && loaded == old(loaded)
      ensures var (written, wrote) :=
                Attempt(repository.policy, old(repository.contents), Create(record), now, writeFault);
              && repository.contents == written
              && (wrote != Done ==> outcome == wrote && loaded == old(loaded) && TheIndex() == old(TheIndex()))
              && (wrote == Done && findFails ==>
                    outcome == ErrIO && loaded == old(loaded) && TheIndex() == old(TheIndex()))
              && (wrote == Done && !findFails ==> outcome == Done && Lists(written, loaded))
    {
      hide Lists, BuildIndex;
      if record.None? {
        return ErrRecordNil;
      }
      outcome := Mutate(Create(record), now, writeFault, findFails);
    }

    method DeleteRecord(domain: string, now: int, writeFault: Fault, findFails: bool) returns (outcome: Outcome)
      requires Valid() && WellKept(repository.contents) && now != 0
      modifies this, repository
      ensures Valid() && WellKept(repository.contents)
      ensures var (written, wrote) :=
                Attempt(repository.policy, old(repository.contents), Delete(domain), now, writeFault);
              && repository.contents == written
              && (wrote != Done ==> outcome == wrote && loaded == old(loaded) && TheIndex() == old(TheIndex()))
              && (wrote == Done && findFails ==>
                    outcome == ErrIO && loaded == old(loaded) && TheIndex() == old(TheIndex()))
              && (wrote == Done && !findFails ==> outcome == Done && Lists(written, loaded))
    {
      outcome := Mutate(Delete(domain), now, writeFault, findFails);
    }

    method DeleteInstanceRecords(instance: int64, now: int, writeFault: Fault, findFails: bool)
      returns (outcome: Outcome)
      requires Valid() && WellKept(repository.contents) && now != 0
      modifies this, repository
      ensures Valid() && WellKept(repository.contents)
      ensures var (written, wrote) :=
                Attempt(repository.policy, old(repository.contents), DeleteByInstance(instance), now, writeFault);
              && repository.contents == written
              && (wrote != Done ==> outcome == wrote && loaded == old(loaded) && TheIndex() == old(TheIndex()))
              && (wrote == Done && findFails ==>
                    outcome == ErrIO && loaded == old(loaded) && TheIndex() == old(TheIndex()))
              && (wrote == Done && !findFails ==> outcome == Done && Lists(written, loaded))
    {
      outcome := Mutate(DeleteByInstance(instance), now, writeFault, findFails);
    }
  }

  /** Once the reload has succeeded, a query for a stored domain is answered with its record, and one
      for a domain just deleted never with that record. */
  lemma MutationVisible(m: Contents, rs: seq<Record>, domain: string, answer: Option<Record>)
    requires WellKept(m) && Lists(m, rs) && IsBestMatch(rs, domain, answer)
    ensures domain in m ==> answer == Some(m[domain])
    ensures domain !in m && answer.Some? ==> answer.value.domain != domain
  {
  }
}
