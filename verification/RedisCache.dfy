/** The cache of core/cache.go over Redis: refreshes whose Find is read by read, as in RedisClients, and
    whose swap comes later, among any number of other clients of the store. */
module RedisCache {
  import opened Text
  import opened Records
  import opened RecordCodec
  import opened MatchIndex
  import opened Repository
  import opened RedisStore
  import opened RedisTables
  import RC = RedisClients

  /** A finished Find with the last version of the tables during the call. */
  datatype Found = Found(find: RC.Client, end: nat)

  /** The store with its clients, the finished Finds not yet installed, the index and the Find it shows. */
  datatype State = State(redis: RC.State, found: map<RC.ClientId, Found>, ix: Index, shown: Option<Found>)

  datatype Step =
    | OnStore(step: RC.Step)
    | FinishFind(c: RC.ClientId)
    | Install(c: RC.ClientId)
    | Query(host: string)

  ghost predicate Init(s: State) {
    RC.Init(s.redis) && s.found == map[] && s.ix == EMPTY_INDEX && s.shown == None
  }

  ghost predicate NextBy(prefix: string, s: State, step: Step, s': State) {
    match step
    case OnStore(inner) =>
      && inner.c !in s.found
      && RC.NextBy(prefix, s.redis, inner, s'.redis)
      && s' == s.(redis := s'.redis)
    case FinishFind(c) =>
      && c !in s.found && RC.NextBy(prefix, s.redis, RC.EndFind(c), s'.redis)
      && s' == s.(redis := s'.redis,
                  found := s.found[c := Found(RC.ClientOf(s.redis, c), |s.redis.tables| - 1)])
    case Install(c) =>
      && c in s.found && s.found[c].find.Finding?
      && s' == s.(ix := BuildIndex(s.found[c].find.out), shown := Some(s.found[c]), found := s.found - {c})
    case Query(host) => s' == s
  }

  ghost predicate Next(prefix: string, s: State, s': State) {
    exists step :: NextBy(prefix, s, step, s')
  }

  /** A run from s: consecutive states are related by steps. */
  ghost predicate IsRunFrom(prefix: string, s: State, run: seq<State>) {
    run != [] && run[0] == s && forall i | 0 <= i < |run| - 1 :: Next(prefix, run[i], run[i + 1])
  }

  ghost predicate IsRun(prefix: string, run: seq<State>) {
    run != [] && Init(run[0]) && IsRunFrom(prefix, run[0], run)
  }

  // ----- What every step keeps -----

  /** The versions of the tables up to the end of the call. */
  function UpTo(tables: seq<Tables>, f: Found): seq<Tables>
    requires f.end < |tables|
  {
    tables[..f.end + 1]
  }

  /** The Find has read every domain, and what it has collected is what the tables had. */
  ghost predicate IsFinished(tables: seq<Tables>, f: Found) {
    && RC.HasReadAll(f.find) && f.find.start <= f.end < |tables|
    && RC.FindInv(UpTo(tables, f), f.find)
  }

  ghost predicate CacheInv(tables: seq<Tables>, s: State) {
    && (forall c | c in s.found :: IsFinished(tables, s.found[c]) && RC.ClientOf(s.redis, c) == RC.Idle)
    && (s.shown.None? ==> s.ix == EMPTY_INDEX)
    && (s.shown.Some? ==> IsFinished(tables, s.shown.value) && s.ix == BuildIndex(s.shown.value.find.out))
  }

  ghost predicate Inv(prefix: string, s: State) {
    RC.Inv(prefix, s.redis) && CacheInv(s.redis.tables, s)
  }

  /** Later commits do not touch the versions a finished Find has seen. */
  lemma StaysFinished(tables: seq<Tables>, more: seq<Tables>, f: Found)
    requires IsFinished(tables, f) && tables <= more
    ensures IsFinished(more, f)
  {
    hide RC.FindInv;
    assert UpTo(more, f) == UpTo(tables, f);
  }

  lemma CacheStays(tables: seq<Tables>, s: State, s': State)
    requires CacheInv(tables, s) && tables <= s'.redis.tables && s' == s.(redis := s'.redis)
    requires forall c | c in s.found :: RC.ClientOf(s'.redis, c) == RC.ClientOf(s.redis, c)
    ensures CacheInv(s'.redis.tables, s')
  {
    hide IsFinished, BuildIndex;
    forall c | c in s.found
      ensures IsFinished(s'.redis.tables, s.found[c])
    {
      StaysFinished(tables, s'.redis.tables, s.found[c]);
    }
    if s.shown.Some? {
      StaysFinished(tables, s'.redis.tables, s.shown.value);
    }
  }

  /** A store step only adds versions, and only touches its own client. */
  lemma StoreStep(prefix: string, s: RC.State, step: RC.Step, s': RC.State)
    requires RC.NextBy(prefix, s, step, s')
    ensures s.tables <= s'.tables && s.tables != []
    ensures forall c | c != step.c :: RC.ClientOf(s', c) == RC.ClientOf(s, c)
  {
    hide Exec, ExecTable, CreateBatch, DeleteBatch, DropBatch, StampWith, IsOrderOf;
  }

  lemma JustFinished(prefix: string, s: RC.State, c: RC.ClientId)
    requires RC.Inv(prefix, s) && RC.HasReadAll(RC.ClientOf(s, c))
    ensures IsFinished(s.tables, Found(RC.ClientOf(s, c), |s.tables| - 1))
  {
    hide RC.Collected, RC.StoreInv, IsOrderOf;
    var f := RC.ClientOf(s, c);
    assert RC.ClientInv(s.tables, s.clients[c]);
    assert UpTo(s.tables, Found(f, |s.tables| - 1)) == s.tables;
  }

  /** Every step keeps the cache on the result of one finished Find. */
  lemma StepKeepsInv(prefix: string, s: State, step: Step, s': State)
    requires Inv(prefix, s) && NextBy(prefix, s, step, s')
    ensures Inv(prefix, s')
  {
    hide RC.Inv, IsFinished, BuildIndex;
    match step
    case OnStore(inner) =>
      RC.StepKeepsInv(prefix, s.redis, inner, s'.redis);
      StoreStep(prefix, s.redis, inner, s'.redis);
      CacheStays(s.redis.tables, s, s');
    case FinishFind(c) =>
      RC.StepKeepsInv(prefix, s.redis, RC.EndFind(c), s'.redis);
      JustFinished(prefix, s.redis, c);
    case Install(c) =>
    case Query(host) =>
  }

  lemma {:induction false} RunKeepsInv(prefix: string, s: State, run: seq<State>, i: nat)
    requires Inv(prefix, s) && IsRunFrom(prefix, s, run) && i < |run|
    ensures Inv(prefix, run[i])
  {
    hide Inv, NextBy;
    if i > 0 {
      RunKeepsInv(prefix, s, run, i - 1);
      assert Next(prefix, run[i - 1], run[i - 1 + 1]);
      var step :| NextBy(prefix, run[i - 1], step, run[i]);
      StepKeepsInv(prefix, run[i - 1], step, run[i]);
    }
  }

  lemma InitInv(prefix: string, s: State)
    requires Init(s)
    ensures Inv(prefix, s)
  {
    hide RC.Inv;
    RC.InitInv(prefix, s.redis);
  }

  // ----- What is answered -----

  /** Each record of the result was stored at some moment of the call, no domain is repeated, and every
      domain stored throughout the call is in it. */
  ghost predicate IsRegular(tables: seq<Tables>, f: Found) {
    && f.find.Finding? && f.find.start <= f.end < |tables|
    && (forall k | 0 <= k < |f.find.out| :: RC.WasStored(UpTo(tables, f), f.find.start, f.find.out[k]))
    && (forall j, k | 0 <= j < k < |f.find.out| :: f.find.out[j].domain != f.find.out[k].domain)
    && (forall d | RC.PresentThroughout(UpTo(tables, f), f.find.start, d) :: RC.Returns(f.find.out, d))
  }

  lemma FinishedIsRegular(tables: seq<Tables>, f: Found)
    requires IsFinished(tables, f)
    ensures IsRegular(tables, f)
  {
    hide RC.FindInv, RC.WasStored, RC.PresentThroughout, RC.Returns;
    RC.CollectedAll(UpTo(tables, f), f.find);
  }

  lemma StateAnswers(prefix: string, s: State, host: string)
    requires Inv(prefix, s)
    ensures var answer := Lookup(s.ix, host);
            if s.shown.None? then answer == None
            else
              && IsRegular(s.redis.tables, s.shown.value)
              && IsBestMatch(s.shown.value.find.out, host, answer)
              && (answer.Some? ==>
                    RC.WasStored(UpTo(s.redis.tables, s.shown.value), s.shown.value.find.start, answer.value))
  {
    hide RC.Inv, IsFinished, BuildIndex, Lookup, RC.WasStored, RC.PresentThroughout, RC.Returns;
    if s.shown.None? {
      EmptyAnswersNone(host);
    } else {
      FinishedIsRegular(s.redis.tables, s.shown.value);
      IndexRefinesFlatList(s.shown.value.find.out, host);
      if Lookup(s.ix, host).Some? {
        AnswerIsListed(s.shown.value.find.out, host, Lookup(s.ix, host));
      }
    }
  }

  /** In every state of every run each lookup is the best match over the result of one finished Find, and
      an answered record was stored at some moment of that Find. */
  lemma AnswersAreRegular(prefix: string, run: seq<State>, i: nat, host: string)
    requires IsRun(prefix, run) && i < |run|
    ensures var s, answer := run[i], Lookup(run[i].ix, host);
            if s.shown.None? then answer == None
            else
              && IsRegular(s.redis.tables, s.shown.value)
              && IsBestMatch(s.shown.value.find.out, host, answer)
              && (answer.Some? ==>
                    RC.WasStored(UpTo(s.redis.tables, s.shown.value), s.shown.value.find.start, answer.value))
  {
    hide Init, Inv, IsRegular, Lookup, IsBestMatch, RC.WasStored;
    InitInv(prefix, run[0]);
    RunKeepsInv(prefix, run[0], run, i);
    StateAnswers(prefix, run[i], host);
  }

  lemma EmptyAnswersNone(host: string)
    ensures Lookup(EMPTY_INDEX, host) == None
  {
  }

  lemma AnswerIsListed(rs: seq<Record>, host: string, answer: Option<Record>)
    requires IsBestMatch(rs, host, answer) && answer.Some?
    ensures exists k | 0 <= k < |rs| :: rs[k] == answer.value
  {
    hide PatternMatches, WildcardMatches;
  }

  lemma SteadyAnswers(prefix: string, s: State, d: string)
    requires Inv(prefix, s) && s.shown.Some?
    ensures var f, tables, answer := s.shown.value, s.redis.tables, Lookup(s.ix, d);
            && f.find.Finding? && f.find.start <= f.end < |tables|
            && (forall r: Record ::
                  (forall h | f.find.start <= h <= f.end :: d in tables[h].domains && RecordAt(tables[h], d) == r) ==>
                    answer == Some(r))
            && ((forall h | f.find.start <= h <= f.end :: d !in tables[h].domains) ==>
                  answer.Some? ==> answer.value.domain != d)
  {
    hide Inv, Lookup, IsBestMatch, RecordAt;
    StateAnswers(prefix, s, d);
    var f, tables, answer := s.shown.value, s.redis.tables, Lookup(s.ix, d);
    var call := UpTo(tables, f);
    forall r: Record | forall h | f.find.start <= h <= f.end :: d in tables[h].domains && RecordAt(tables[h], d) == r
      ensures answer == Some(r)
    {
      assert RC.PresentThroughout(call, f.find.start, d);
      OwnRecordAnswers(f.find.out, d, answer);
      assert RC.WasStored(call, f.find.start, answer.value);
    }
    if answer.Some? && answer.value.domain == d {
      assert RC.WasStored(call, f.find.start, answer.value);
    }
  }

  /** A domain whose record stayed the same throughout the Find that is shown is answered with it; a domain
      that was not stored at any moment of that Find is never answered with a record of its own. */
  lemma SteadyDomainIsAnswered(prefix: string, run: seq<State>, i: nat, d: string)
    requires IsRun(prefix, run) && i < |run| && run[i].shown.Some?
    ensures var f, tables, answer := run[i].shown.value, run[i].redis.tables, Lookup(run[i].ix, d);
            && f.find.Finding? && f.find.start <= f.end < |tables|
            && (forall r: Record ::
                  (forall h | f.find.start <= h <= f.end :: d in tables[h].domains && RecordAt(tables[h], d) == r) ==>
                    answer == Some(r))
            && ((forall h | f.find.start <= h <= f.end :: d !in tables[h].domains) ==>
                  answer.Some? ==> answer.value.domain != d)
  {
    hide Init, Inv, Lookup, RecordAt;
    InitInv(prefix, run[0]);
    RunKeepsInv(prefix, run[0], run, i);
    SteadyAnswers(prefix, run[i], d);
  }

  lemma OwnRecordAnswers(rs: seq<Record>, d: string, answer: Option<Record>)
    requires RC.Returns(rs, d) && IsBestMatch(rs, d, answer)
    ensures answer.Some? && answer.value.domain == d
  {
  }

  // ----- When the cache shows one version -----

  lemma ShownIsFinished(prefix: string, run: seq<State>, i: nat)
    requires IsRun(prefix, run) && i < |run| && run[i].shown.Some?
    ensures var s := run[i];
            IsFinished(s.redis.tables, s.shown.value) && s.ix == BuildIndex(s.shown.value.find.out)
  {
    hide Init, RC.Inv, IsFinished, BuildIndex;
    InitInv(prefix, run[0]);
    RunKeepsInv(prefix, run[0], run, i);
  }

  /** In every state of every run the cache is the index of a listing of version h exactly when the reads of
      the Find that is shown are like those of version h. */
  lemma ShowsVersionExactlyWhen(prefix: string, run: seq<State>, i: nat, h: nat)
    requires IsRun(prefix, run) && i < |run| && run[i].shown.Some? && h < |run[i].redis.tables|
    ensures var f, tables := run[i].shown.value.find, run[i].redis.tables;
            && RC.HasReadAll(f) && RC.InRange(tables, f.at)
            && run[i].ix == BuildIndex(f.out)
            && (Lists(ContentsOf(tables[h]), f.out) <==> RC.ReadsLike(tables, f, h))
  {
    hide IsRun, BuildIndex, ContentsOf, Lists, RC.ReadsLike, RC.Collected, IsOrderOf;
    ShownIsFinished(prefix, run, i);
    var f, tables := run[i].shown.value, run[i].redis.tables;
    assert UpTo(tables, f) <= tables;
    RC.MoreTables(UpTo(tables, f), tables, f.find);
    RC.ListsVersionExactlyWhen(tables, f.find, h);
  }

  /** When the commits during the Find that is shown were all on one domain, or there were none, the cache
      shows one version of the repository that was current during that Find, as CacheProtocol has it. */
  lemma OneDomainShowsVersion(prefix: string, run: seq<State>, i: nat, d: string) returns (h: nat)
    requires IsRun(prefix, run) && i < |run| && run[i].shown.Some?
    requires var f, tables := run[i].shown.value, run[i].redis.tables;
             f.find.Finding? && f.end < |tables| && RC.DifferOnlyAt(UpTo(tables, f), f.find.start, d)
    ensures var f, tables := run[i].shown.value, run[i].redis.tables;
            && f.find.start <= h <= f.end && run[i].ix == BuildIndex(f.find.out)
            && Lists(ContentsOf(tables[h]), f.find.out)
  {
    hide IsRun, RC.FindInv, BuildIndex, ContentsOf, Lists, RC.DifferOnlyAt;
    ShownIsFinished(prefix, run, i);
    h := RC.OneDomainIsHarmless(UpTo(run[i].redis.tables, run[i].shown.value), run[i].shown.value.find, d);
  }

  // ----- The freshness barrier -----

  ghost predicate StartedAt(f: RC.Client, w: nat) {
    f.Finding? ==> f.start >= w
  }

  /** The cache shows a Find that began at version w or later, and so did every Find that may still be
      installed. */
  ghost predicate Fresh(s: State, w: nat) {
    && s.shown.Some? && StartedAt(s.shown.value.find, w)
    && (forall c | c in s.found :: StartedAt(s.found[c].find, w))
    && (forall c | c in s.redis.clients :: StartedAt(s.redis.clients[c], w))
  }

  /** In every continuation the cache shows a Find that began at version w or later. */
  ghost predicate FreshForever(prefix: string, s: State, w: nat) {
    forall run: seq<State>, i: int | IsRunFrom(prefix, s, run) && 0 <= i < |run| ::
      run[i].shown.Some? && StartedAt(run[i].shown.value.find, w)
  }

  /** Finds begin at the newest version. */
  lemma StoreKeepsStarts(prefix: string, s: RC.State, step: RC.Step, s': RC.State, w: nat)
    requires w < |s.tables| && RC.NextBy(prefix, s, step, s')
    requires forall c | c in s.clients :: StartedAt(s.clients[c], w)
    ensures forall c | c in s'.clients :: StartedAt(s'.clients[c], w)
  {
    hide Exec, ExecTable, CreateBatch, DeleteBatch, DropBatch, StampWith, IsOrderOf;
  }

  lemma FreshStep(prefix: string, s: State, step: Step, s': State, w: nat)
    requires w < |s.redis.tables| && Fresh(s, w) && NextBy(prefix, s, step, s')
    ensures Fresh(s', w) && w < |s'.redis.tables|
  {
    hide RC.NextBy, BuildIndex;
    match step
    case OnStore(inner) =>
      StoreKeepsStarts(prefix, s.redis, inner, s'.redis, w);
      StoreStep(prefix, s.redis, inner, s'.redis);
    case FinishFind(c) =>
      StoreKeepsStarts(prefix, s.redis, RC.EndFind(c), s'.redis, w);
      StoreStep(prefix, s.redis, RC.EndFind(c), s'.redis);
    case Install(c) =>
    case Query(host) =>
  }

  lemma {:induction false} FreshStays(prefix: string, s: State, w: nat, run: seq<State>, i: nat)
    requires w < |s.redis.tables| && Fresh(s, w) && IsRunFrom(prefix, s, run) && i < |run|
    ensures Fresh(run[i], w) && w < |run[i].redis.tables|
  {
    hide Fresh, NextBy;
    if i > 0 {
      FreshStays(prefix, s, w, run, i - 1);
      assert Next(prefix, run[i - 1], run[i - 1 + 1]);
      var step :| NextBy(prefix, run[i - 1], step, run[i]);
      FreshStep(prefix, run[i - 1], step, run[i], w);
    }
  }

  lemma RunMore(prefix: string, s: State, step: Step, s': State, run: seq<State>)
    requires NextBy(prefix, s, step, s') && IsRunFrom(prefix, s', run)
    ensures IsRunFrom(prefix, s, [s] + run)
  {
    hide NextBy;
    var more := [s] + run;
    forall i | 0 <= i < |more| - 1
      ensures Next(prefix, more[i], more[i + 1])
    {
      if i > 0 {
        assert Next(prefix, run[i - 1], run[i - 1 + 1]);
      }
    }
  }

  lemma InstallRun(prefix: string, s: State, c: RC.ClientId) returns (run: seq<State>)
    requires c in s.found && s.found[c].find.Finding?
    ensures IsRunFrom(prefix, s, run) && run != [] && run[|run| - 1].shown == Some(s.found[c])
  {
    hide BuildIndex;
    var s' := s.(ix := BuildIndex(s.found[c].find.out), shown := Some(s.found[c]), found := s.found - {c});
    assert NextBy(prefix, s, Install(c), s');
    RunMore(prefix, s, Install(c), s', [s']);
    run := [s] + [s'];
  }

  /** One read of a pending Find, which is always possible. */
  lemma ReadOn(prefix: string, s: State, c: RC.ClientId) returns (s': State)
    requires s.redis.stores != [] && s.redis.tables != [] && c !in s.found
    requires RC.ClientOf(s.redis, c).Finding? && !RC.HasReadAll(RC.ClientOf(s.redis, c))
    requires |RC.ClientOf(s.redis, c).at| < |RC.ClientOf(s.redis, c).order|
    ensures NextBy(prefix, s, OnStore(RC.ReadNext(c)), s') && s'.found == s.found && c in s'.redis.clients
    ensures s'.redis.stores == s.redis.stores && s'.redis.tables == s.redis.tables
    ensures var f, f' := RC.ClientOf(s.redis, c), s'.redis.clients[c];
            f'.Finding? && f'.start == f.start && f'.order == f.order && |f'.at| == |f.at| + 1
  {
    hide Decode, RC.HashOf;
    var f := RC.ClientOf(s.redis, c);
    var d := f.order[|f.at|];
    var hash := RC.HashOf(prefix, s.redis, d);
    var out := if hash == map[] then f.out else f.out + [Decode(d, hash)];
    s' := s.(redis := RC.Become(s.redis, c, f.(at := f.at + [|s.redis.tables| - 1], out := out)));
  }

  /** A pending Find can be read to its end and installed. */
  lemma {:induction false} FinishRun(prefix: string, s: State, c: RC.ClientId) returns (run: seq<State>)
    requires s.redis.stores != [] && s.redis.tables != [] && c !in s.found && RC.ClientOf(s.redis, c).Finding?
    requires |RC.ClientOf(s.redis, c).at| <= |RC.ClientOf(s.redis, c).order|
    ensures IsRunFrom(prefix, s, run) && run != []
    ensures var last := run[|run| - 1];
            last.shown.Some? && last.shown.value.find.Finding?
            && last.shown.value.find.start == RC.ClientOf(s.redis, c).start
    decreases |RC.ClientOf(s.redis, c).order| - |RC.ClientOf(s.redis, c).at|
  {
    hide IsRunFrom, NextBy;
    var f := RC.ClientOf(s.redis, c);
    if |f.at| < |f.order| {
      var s' := ReadOn(prefix, s, c);
      var rest := FinishRun(prefix, s', c);
      RunMore(prefix, s, OnStore(RC.ReadNext(c)), s', rest);
      run := [s] + rest;
    } else {
      var s' := FinishStep(prefix, s, c);
      var rest := InstallRun(prefix, s', c);
      RunMore(prefix, s, FinishFind(c), s', rest);
      run := [s] + rest;
    }
  }

  lemma FinishStep(prefix: string, s: State, c: RC.ClientId) returns (s': State)
    requires s.redis.stores != [] && s.redis.tables != [] && c !in s.found
    requires RC.HasReadAll(RC.ClientOf(s.redis, c))
    ensures NextBy(prefix, s, FinishFind(c), s') && c in s'.found && s'.found[c].find == RC.ClientOf(s.redis, c)
  {
    s' := s.(redis := RC.Become(s.redis, c, RC.Idle),
             found := s.found[c := Found(RC.ClientOf(s.redis, c), |s.redis.tables| - 1)]);
    assert RC.NextBy(prefix, s.redis, RC.EndFind(c), s'.redis);
  }

  lemma StaleContinuation(prefix: string, s: State, w: nat)
    requires Inv(prefix, s) && !Fresh(s, w)
    ensures !FreshForever(prefix, s, w)
  {
    hide BuildIndex, RC.StoreInv;
    var run := [s];
    if s.shown.Some? && StartedAt(s.shown.value.find, w) {
      hide IsRunFrom;
      if c :| c in s.found && !StartedAt(s.found[c].find, w) {
        run := InstallRun(prefix, s, c);
      } else {
        var c :| c in s.redis.clients && !StartedAt(s.redis.clients[c], w);
        assert RC.ClientInv(s.redis.tables, s.redis.clients[c]);
        StoreNotEmpty(prefix, s.redis);
        run := FinishRun(prefix, s, c);
      }
    }
    var last := run[|run| - 1];
    assert !(last.shown.Some? && StartedAt(last.shown.value.find, w));
  }

  lemma StoreNotEmpty(prefix: string, s: RC.State)
    requires RC.Inv(prefix, s)
    ensures s.stores != [] && s.tables != []
  {
  }

  /** Every continuation shows a Find that began at version w or later exactly when the one shown now did,
      and so did every finished Find not yet installed and every pending one. */
  lemma FreshnessBarrier(prefix: string, s: State, w: nat)
    requires Inv(prefix, s) && w < |s.redis.tables|
    ensures FreshForever(prefix, s, w) <==> Fresh(s, w)
  {
    if Fresh(s, w) {
      forall run: seq<State>, i: int | IsRunFrom(prefix, s, run) && 0 <= i < |run|
        ensures run[i].shown.Some? && StartedAt(run[i].shown.value.find, w)
      {
        hide NextBy;
        FreshStays(prefix, s, w, run, i);
      }
    } else {
      StaleContinuation(prefix, s, w);
    }
  }

  /** When a reload that began at version w or later installs, what it shows stays shown, or gives way to
      Finds that began at w or later, exactly when no other Find began before w and may still install. */
  lemma ReloadHoldsExactlyWhen(prefix: string, s: State, c: RC.ClientId, s': State, w: nat)
    requires Inv(prefix, s) && NextBy(prefix, s, Install(c), s') && w < |s.redis.tables|
    requires StartedAt(s.found[c].find, w)
    ensures FreshForever(prefix, s', w) <==>
            && (forall u | u in s.found && u != c :: StartedAt(s.found[u].find, w))
            && (forall u | u in s.redis.clients :: StartedAt(s.redis.clients[u], w))
  {
    hide Inv, BuildIndex, FreshForever;
    StepKeepsInv(prefix, s, Install(c), s');
    FreshnessBarrier(prefix, s', w);
    assert forall u | u in s.found && u != c :: s'.found[u] == s.found[u];
  }

  /** Once fresh, every answer in every continuation is a record stored at version w or later; and a domain
      that has kept one record since version w is answered with that record. */
  lemma FreshAnswers(prefix: string, s: State, w: nat, run: seq<State>, i: nat, host: string)
    requires Inv(prefix, s) && w < |s.redis.tables| && Fresh(s, w) && IsRunFrom(prefix, s, run) && i < |run|
    ensures var tables, answer := run[i].redis.tables, Lookup(run[i].ix, host);
            && (answer.Some? ==> RC.WasStored(tables, w, answer.value))
            && (forall r: Record ::
                  (forall h | w <= h < |tables| :: host in tables[h].domains && RecordAt(tables[h], host) == r) ==>
                    answer == Some(r))
  {
    hide Inv, NextBy, Lookup, IsBestMatch, RecordAt, IsRunFrom;
    RunKeepsInv(prefix, s, run, i);
    FreshStays(prefix, s, w, run, i);
    StateAnswers(prefix, run[i], host);
    SteadyAnswers(prefix, run[i], host);
    var f, tables, answer := run[i].shown.value, run[i].redis.tables, Lookup(run[i].ix, host);
    if answer.Some? {
      var h :| f.find.start <= h <= f.end && answer.value.domain in tables[h].domains
               && answer.value == RecordAt(tables[h], answer.value.domain);
    }
  }
}
