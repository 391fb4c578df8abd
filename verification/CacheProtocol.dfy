/** The write-through cache under concurrency: any number of writers, refreshers and readers over one
    repository, with core/cache.go's loadCache split into its Find and its swap under the lock. */
module CacheProtocol {
  import opened Text
  import opened Records
  import opened MatchIndex
  import opened Repository

  type ThreadId = nat

  /** Where a thread is inside UpsertRecord, DeleteRecord, DeleteInstanceRecords or cacheUpdater. */
  datatype Thread =
    | Idle
    | Wrote(version: nat)
    | Loaded(snapshot: nat, found: seq<Record>, wrote: Option<nat>)

  /** All repository versions so far, the threads, the installed index, and the version it shows
      (none before the first load). */
  datatype State = State(versions: seq<Contents>, threads: map<ThreadId, Thread>, ix: Index, shown: Option<nat>)

  /** LostWrite is a write whose error arrives although the store has changed: its caller does not reload. */
  datatype Step =
    | RepoWrite(t: ThreadId, op: Op, now: int)
    | LostWrite(t: ThreadId, op: Op, now: int)
    | Snapshot(t: ThreadId, found: seq<Record>)
    | FailSnapshot(t: ThreadId)
    | Install(t: ThreadId)
    | Query(host: string)

  function ThreadOf(s: State, t: ThreadId): Thread {
    if t in s.threads then s.threads[t] else Idle
  }

  function Latest(s: State): nat
    requires s.versions != []
  {
    |s.versions| - 1
  }

  ghost predicate Init(s: State) {
    && (exists m :: WellKept(m) && s.versions == [m])
    && s.threads == map[] && s.ix == EMPTY_INDEX && s.shown == None
  }

  ghost predicate NextBy(policy: Policy, s: State, step: Step, s': State) {
    s.versions != [] &&
    match step
    case RepoWrite(t, op, now) =>
      var written := Apply(policy, s.versions[Latest(s)], op, now);
      && ThreadOf(s, t) == Idle && now != 0 && written.1 == Done
      && s' == s.(versions := s.versions + [written.0], threads := s.threads[t := Wrote(|s.versions|)])
    case LostWrite(t, op, now) =>
      && ThreadOf(s, t) == Idle && now != 0
      && s' == s.(versions := s.versions + [Apply(policy, s.versions[Latest(s)], op, now).0])
    case Snapshot(t, found) =>
      && !ThreadOf(s, t).Loaded?
      && Lists(s.versions[Latest(s)], found)
      && var wrote := if ThreadOf(s, t).Wrote? then Some(s.threads[t].version) else None;
         s' == s.(threads := s.threads[t := Loaded(Latest(s), found, wrote)])
    case FailSnapshot(t) =>
      && !ThreadOf(s, t).Loaded?
      && s' == s.(threads := s.threads[t := Idle])
    case Install(t) =>
      && ThreadOf(s, t).Loaded?
      && var th := s.threads[t];
         s' == s.(ix := BuildIndex(th.found), shown := Some(th.snapshot), threads := s.threads[t := Idle])
    case Query(host) => s' == s
  }

  ghost predicate Next(policy: Policy, s: State, s': State) {
    exists step :: NextBy(policy, s, step, s')
  }

  /** A run from s: consecutive states are related by steps. */
  ghost predicate IsRunFrom(policy: Policy, s: State, run: seq<State>) {
    run != [] && run[0] == s && forall i | 0 <= i < |run| - 1 :: Next(policy, run[i], run[i + 1])
  }

  ghost predicate IsRun(policy: Policy, run: seq<State>) {
    run != [] && Init(run[0]) && IsRunFrom(policy, run[0], run)
  }

  // ----- What every step keeps -----

  ghost predicate ThreadInv(s: State, th: Thread) {
    match th
    case Idle => true
    case Wrote(v) => v < |s.versions|
    case Loaded(v, found, wrote) =>
      v < |s.versions| && Lists(s.versions[v], found) && (wrote.Some? ==> wrote.value <= v)
  }

  /** The index is that of one version. */
  ghost predicate Shows(m: Contents, ix: Index) {
    exists rs :: Lists(m, rs) && ix == BuildIndex(rs)
  }

  ghost predicate Inv(s: State) {
    && s.versions != []
    && (forall v | 0 <= v < |s.versions| :: WellKept(s.versions[v]))
    && (forall t | t in s.threads :: ThreadInv(s, s.threads[t]))
    && (s.shown.None? ==> s.ix == EMPTY_INDEX)
    && (s.shown.Some? ==> s.shown.value < |s.versions| && Shows(s.versions[s.shown.value], s.ix))
  }

  lemma StepKeepsInv(policy: Policy, s: State, step: Step, s': State)
    requires Inv(s) && NextBy(policy, s, step, s')
    ensures Inv(s') && s.versions <= s'.versions
  {
    hide Lists, WellKept, BuildIndex, Apply;
    match step
    case RepoWrite(t, op, now) =>
      ApplyKeeps(policy, s.versions[Latest(s)], op, now);
      assert forall v | 0 <= v < |s.versions| :: s'.versions[v] == s.versions[v];
      assert forall u | u in s.threads :: ThreadInv(s', s.threads[u]);
    case LostWrite(t, op, now) =>
      ApplyKeeps(policy, s.versions[Latest(s)], op, now);
      assert forall v | 0 <= v < |s.versions| :: s'.versions[v] == s.versions[v];
      assert forall u | u in s.threads :: ThreadInv(s', s.threads[u]);
    case Snapshot(t, found) =>
      assert forall u | u in s.threads :: ThreadInv(s', s.threads[u]);
    case FailSnapshot(t) =>
      assert forall u | u in s.threads :: ThreadInv(s', s.threads[u]);
    case Install(t) =>
      assert forall u | u in s.threads :: ThreadInv(s', s.threads[u]);
      assert ThreadInv(s, s.threads[t]);
      assert Shows(s'.versions[s'.shown.value], s'.ix);
    case Query(host) =>
  }

  lemma {:induction false} RunKeepsInv(policy: Policy, s: State, run: seq<State>, i: nat)
    requires Inv(s) && IsRunFrom(policy, s, run) && i < |run|
    ensures Inv(run[i]) && s.versions <= run[i].versions
  {
    hide Inv, NextBy;
    if i > 0 {
      RunKeepsInv(policy, s, run, i - 1);
      assert Next(policy, run[i - 1], run[i - 1 + 1]);
      var step :| NextBy(policy, run[i - 1], step, run[i]);
      StepKeepsInv(policy, run[i - 1], step, run[i]);
    }
  }

  lemma InitInv(s: State)
    requires Init(s)
    ensures Inv(s)
  {
  }

  /** In every state of every run, each lookup is the best match over one list of one single past
      version of the repository, or over the empty list before the first load. */
  lemma SnapshotConsistency(policy: Policy, run: seq<State>, i: nat, host: string)
    requires IsRun(policy, run) && i < |run|
    ensures var s := run[i];
            exists rs: seq<Record> ::
              && (if s.shown.None? then rs == []
                  else s.shown.value < |s.versions| && Lists(s.versions[s.shown.value], rs))
              && s.ix == BuildIndex(rs)
              && IsBestMatch(rs, host, Lookup(s.ix, host))
  {
    InitInv(run[0]);
    RunKeepsInv(policy, run[0], run, i);
    var s := run[i];
    var rs: seq<Record>;
    if s.shown.None? {
      rs := [];
    } else {
      rs :| Lists(s.versions[s.shown.value], rs) && s.ix == BuildIndex(rs);
    }
    IndexRefinesFlatList(rs, host);
  }

  /** In state j the answers are those of a refresh that thread t installed at step k, with a listing of
      the version it had taken its snapshot of. */
  ghost predicate AnswersFrom(policy: Policy, run: seq<State>, j: nat, k: nat, t: ThreadId)
    requires k < j < |run|
  {
    && NextBy(policy, run[k], Install(t), run[k + 1])
    && ThreadOf(run[k], t).Loaded?
    && var th := run[k].threads[t];
       && th.snapshot < |run[k].versions| && Lists(run[k].versions[th.snapshot], th.found)
       && run[j].ix == BuildIndex(th.found)
  }

  lemma InstallShows(policy: Policy, s: State, t: ThreadId, s': State)
    requires Inv(s) && NextBy(policy, s, Install(t), s')
    ensures ThreadOf(s, t).Loaded?
    ensures var th := s.threads[t];
            && th.snapshot < |s.versions| && Lists(s.versions[th.snapshot], th.found)
            && s'.ix == BuildIndex(th.found)
  {
    hide Lists, BuildIndex, WellKept, Shows;
    assert ThreadInv(s, s.threads[t]);
  }

  lemma OthersKeepIndex(policy: Policy, s: State, step: Step, s': State)
    requires NextBy(policy, s, step, s') && !step.Install?
    ensures s'.ix == s.ix
  {
    hide Lists, Apply;
  }

  /** Between two states of a run either every host keeps its answer, or the later answers are exactly
      those of a refresh installed in between: no failed refresh, snapshot, query or repository write
      ever changes one. */
  lemma {:induction false} OnlyInstallChangesAnswers(policy: Policy, s: State, run: seq<State>, i: nat, j: nat)
    requires Inv(s) && IsRunFrom(policy, s, run) && i <= j < |run|
    ensures run[j].ix == run[i].ix || exists k, t | i <= k < j :: AnswersFrom(policy, run, j, k, t)
    ensures (forall k, t | i <= k < j :: !NextBy(policy, run[k], Install(t), run[k + 1])) ==>
              forall host :: Lookup(run[j].ix, host) == Lookup(run[i].ix, host)
  {
    hide Inv, NextBy, Lists, BuildIndex, Lookup;
    if i < j {
      var n := j - 1;
      OnlyInstallChangesAnswers(policy, s, run, i, n);
      RunKeepsInv(policy, s, run, n);
      assert Next(policy, run[n], run[n + 1]);
      var step :| NextBy(policy, run[n], step, run[n + 1]);
      if step.Install? {
        InstallShows(policy, run[n], step.t, run[j]);
        assert AnswersFrom(policy, run, j, n, step.t);
      } else {
        OthersKeepIndex(policy, run[n], step, run[j]);
      }
      if !step.Install? && run[n].ix != run[i].ix {
        var k, t :| i <= k < n && AnswersFrom(policy, run, n, k, t);
        assert AnswersFrom(policy, run, j, k, t);
      }
    }
  }

  /** The reload that belongs to a write shows a version no older than the write. */
  lemma OwnReloadShowsWrite(policy: Policy, s: State, t: ThreadId, s': State)
    requires Inv(s) && NextBy(policy, s, Install(t), s')
    requires s.threads[t].wrote.Some?
    ensures s'.shown.Some? && s'.shown.value >= s.threads[t].wrote.value
  {
  }

  // ----- The freshness barrier -----

  /** The cache shows version w or a newer one, and no pending refresh took its snapshot before w. */
  ghost predicate Fresh(s: State, w: nat) {
    && s.shown.Some? && s.shown.value >= w
    && forall t | t in s.threads && s.threads[t].Loaded? :: s.threads[t].snapshot >= w
  }

  /** In every continuation the cache shows version w or a newer one. */
  ghost predicate FreshForever(policy: Policy, s: State, w: nat) {
    forall run: seq<State>, i: int | IsRunFrom(policy, s, run) && 0 <= i < |run| ::
      run[i].shown.Some? && run[i].shown.value >= w
  }

  lemma {:induction false} FreshStays(policy: Policy, s: State, w: nat, run: seq<State>, i: nat)
    requires Inv(s) && w < |s.versions| && Fresh(s, w) && IsRunFrom(policy, s, run) && i < |run|
    ensures Fresh(run[i], w)
  {
    hide Inv, NextBy, Fresh;
    if i > 0 {
      FreshStays(policy, s, w, run, i - 1);
      RunKeepsInv(policy, s, run, i - 1);
      assert Next(policy, run[i - 1], run[i - 1 + 1]);
      var step :| NextBy(policy, run[i - 1], step, run[i]);
      FreshStep(policy, run[i - 1], step, run[i], w);
    }
  }

  lemma FreshStep(policy: Policy, s: State, step: Step, s': State, w: nat)
    requires w < |s.versions| && Fresh(s, w) && NextBy(policy, s, step, s')
    ensures Fresh(s', w)
  {
  }

  /** A write is visible in every later state exactly when its version (or a newer one) is installed
      and no refresh with an older snapshot is still pending. */
  lemma FreshnessBarrier(policy: Policy, s: State, w: nat)
    requires Inv(s) && w < |s.versions|
    ensures FreshForever(policy, s, w) <==> Fresh(s, w)
  {
    if Fresh(s, w) {
      forall run: seq<State>, i: int | IsRunFrom(policy, s, run) && 0 <= i < |run|
        ensures run[i].shown.Some? && run[i].shown.value >= w
      {
        FreshStays(policy, s, w, run, i);
      }
    } else {
      StaleContinuation(policy, s, w);
    }
  }

  /** When a write's own reload installs, the write stays visible from then on exactly when no other
      refresh that took its snapshot before the write is still pending. */
  lemma WriteVisibleAfterReload(policy: Policy, s: State, t: ThreadId, s': State)
    requires Inv(s) && NextBy(policy, s, Install(t), s') && s.threads[t].wrote.Some?
    ensures var w := s.threads[t].wrote.value;
            FreshForever(policy, s', w) <==>
            forall u | u in s.threads && u != t && s.threads[u].Loaded? :: s.threads[u].snapshot >= w
  {
    hide Lists, WellKept, BuildIndex, FreshForever;
    var w := s.threads[t].wrote.value;
    OwnReloadShowsWrite(policy, s, t, s');
    StepKeepsInv(policy, s, Install(t), s');
    assert ThreadInv(s, s.threads[t]);
    FreshnessBarrier(policy, s', w);
    assert forall u | u in s.threads && u != t :: s'.threads[u] == s.threads[u];
  }

  lemma StaleContinuation(policy: Policy, s: State, w: nat)
    requires Inv(s) && !Fresh(s, w)
    ensures !FreshForever(policy, s, w)
  {
    if s.shown.None? || s.shown.value < w {
      assert IsRunFrom(policy, s, [s]);
      assert [s][0].shown.None? || [s][0].shown.value < w;
    } else {
      var t :| t in s.threads && s.threads[t].Loaded? && s.threads[t].snapshot < w;
      var th := s.threads[t];
      var s' := s.(ix := BuildIndex(th.found), shown := Some(th.snapshot), threads := s.threads[t := Idle]);
      assert NextBy(policy, s, Install(t), s');
      var run := [s, s'];
      assert IsRunFrom(policy, s, run);
      assert run[1].shown.value < w;
    }
  }

  /** Read-your-writes does fail while an older refresh is pending: from every initial state thread 0
      can take a snapshot, thread 1 write and reload, and then thread 0 install over it. */
  lemma OlderRefreshHidesWrite(policy: Policy, s0: State, old': seq<Record>, op: Op, new': seq<Record>)
    returns (s1: State, s2: State, s3: State, s4: State, s5: State)
    requires Init(s0) && Lists(s0.versions[0], old')
    requires Apply(policy, s0.versions[0], op, 1).1 == Done
    requires Lists(Apply(policy, s0.versions[0], op, 1).0, new')
    ensures NextBy(policy, s0, Snapshot(0, old'), s1) && NextBy(policy, s1, RepoWrite(1, op, 1), s2)
    ensures NextBy(policy, s2, Snapshot(1, new'), s3)
    ensures NextBy(policy, s3, Install(1), s4) && s4.shown == Some(1) && s4.ix == BuildIndex(new')
    ensures NextBy(policy, s4, Install(0), s5) && s5.shown == Some(0) && s5.ix == BuildIndex(old')
  {
    var m := Apply(policy, s0.versions[0], op, 1).0;
    s1 := s0.(threads := s0.threads[0 := Loaded(0, old', None)]);
    s2 := s1.(versions := s1.versions + [m], threads := s1.threads[1 := Wrote(1)]);
    s3 := s2.(threads := s2.threads[1 := Loaded(1, new', Some(1))]);
    s4 := s3.(ix := BuildIndex(new'), shown := Some(1), threads := s3.threads[1 := Idle]);
    s5 := s4.(ix := BuildIndex(old'), shown := Some(0), threads := s4.threads[0 := Idle]);
  }
}
