/** Many Redis clients at once: every call of repository/redis/redis.go split into its reads, taken
    one by one, and its atomic MULTI/EXEC block, in any interleaving.  The reads of Create may fail, which
    it ignores; every other call gives up on an error.  A block whose answer is lost has still run. */
module RedisClients {
  import opened Text
  import opened Decimal
  import opened Records
  import opened RecordCodec
  import opened Repository
  import opened RedisStore
  import opened RedisTables

  type ClientId = nat

  /** A Find has listed the domains in order at version start, read as many of them as at has versions, each
      at its version, and kept out. */
  datatype Client =
    | Idle
    | Creating(rec: Record, oldInstance: int64)
    | Ready(rec: Record, oldInstance: int64)
    | Deleting(domain: string, instance: int64)
    | Dropping(instance: int64, order: seq<string>)
    | Finding(start: nat, order: seq<string>, at: seq<nat>, out: seq<Record>)

  /** All stores so far with the tables each stands for; the last one is the present. */
  datatype State = State(stores: seq<Store>, tables: seq<Tables>, clients: map<ClientId, Client>)

  datatype Step =
    | ReadInstanceId(c: ClientId, rec: Record, fails: bool)
    | ReadCreatedAt(c: ClientId, now: int, fails: bool)
    | CommitCreate(c: ClientId)
    | BeginDelete(c: ClientId, domain: string)
    | CommitDelete(c: ClientId)
    | BeginDrop(c: ClientId, instance: int64, order: seq<string>)
    | CommitDrop(c: ClientId)
    | BeginFind(c: ClientId, order: seq<string>)
    | ReadNext(c: ClientId)
    | EndFind(c: ClientId)
    | GiveUp(c: ClientId)

  predicate HasReadAll(c: Client) {
    c.Finding? && |c.at| == |c.order|
  }

  function ClientOf(s: State, c: ClientId): Client {
    if c in s.clients then s.clients[c] else Idle
  }

  function Present(s: State): Store
    requires s.stores != []
  {
    s.stores[|s.stores| - 1]
  }

  function HashOf(prefix: string, s: State, d: string): Fields
    requires s.stores != []
  {
    HGetAll(Present(s), KeyRecord(prefix, d))
  }

  function Become(s: State, c: ClientId, st: Client): State {
    s.(clients := s.clients[c := st])
  }

  /** The batch runs on the present store; its client is done. */
  function Commit(prefix: string, s: State, c: ClientId, batch: seq<TableCmd>): State
    requires s.stores != [] && s.tables != []
  {
    State(s.stores + [Exec(Present(s), AddressAll(prefix, batch))],
          s.tables + [ExecTable(s.tables[|s.tables| - 1], batch)],
          s.clients[c := Idle])
  }

  ghost predicate Init(s: State) {
    s == State([map[]], [NO_TABLES], map[])
  }

  ghost predicate NextBy(prefix: string, s: State, step: Step, s': State) {
    s.stores != [] && s.tables != [] &&
    var me := ClientOf(s, step.c);
    match step
    case ReadInstanceId(c, rec, fails) =>
      && me == Idle && TrimSpace(rec.domain) != ""
      && var f := if fails then map[] else HashOf(prefix, s, rec.domain);
         s' == Become(s, c, Creating(rec, RecordCodec.ReadInstance(Get(f, "instance_id"))))
    case ReadCreatedAt(c, now, fails) =>
      && me.Creating? && now != 0
      && var f := if fails then map[] else HashOf(prefix, s, me.rec.domain);
         s' == Become(s, c, Ready(StampWith(f, me.rec, now), me.oldInstance))
    case CommitCreate(c) =>
      me.Ready? && s' == Commit(prefix, s, c, CreateBatch(me.rec, me.oldInstance))
    case BeginDelete(c, d) =>
      && me == Idle && "instance_id" in HashOf(prefix, s, d)
      && s' == Become(s, c, Deleting(d, RecordCodec.ReadInstance(HashOf(prefix, s, d)["instance_id"])))
    case CommitDelete(c) =>
      me.Deleting? && s' == Commit(prefix, s, c, DeleteBatch(me.domain, me.instance))
    case BeginDrop(c, i, order) =>
      && me == Idle && IsOrderOf(order, SMembers(Present(s), KeyInstance(prefix, i)))
      && s' == Become(s, c, Dropping(i, order))
    case CommitDrop(c) =>
      me.Dropping? && s' == Commit(prefix, s, c, DropBatch(me.instance, me.order))
    case BeginFind(c, order) =>
      && me == Idle && IsOrderOf(order, SMembers(Present(s), KeyDomains(prefix)))
      && s' == Become(s, c, Finding(|s.tables| - 1, order, [], []))
    case ReadNext(c) =>
      && me.Finding? && |me.at| < |me.order|
      && var d := me.order[|me.at|];
         var f := HashOf(prefix, s, d);
         var out := if f == map[] then me.out else me.out + [Decode(d, f)];
         s' == Become(s, c, me.(at := me.at + [|s.tables| - 1], out := out))
    case EndFind(c) =>
      HasReadAll(me) && s' == Become(s, c, Idle)
    case GiveUp(c) => s' == Become(s, c, Idle)
  }

  ghost predicate Next(prefix: string, s: State, s': State) {
    exists step :: NextBy(prefix, s, step, s')
  }

  /** A step other than the commit of DeleteByInstanceID. */
  ghost predicate NextWithoutDrop(prefix: string, s: State, s': State) {
    exists step :: NextBy(prefix, s, step, s') && !step.CommitDrop?
  }

  ghost predicate IsRun(prefix: string, run: seq<State>) {
    run != [] && Init(run[0]) && forall i | 0 <= i < |run| - 1 :: Next(prefix, run[i], run[i + 1])
  }

  ghost predicate IsRunWithoutDrop(prefix: string, run: seq<State>) {
    run != [] && Init(run[0]) && forall i | 0 <= i < |run| - 1 :: NextWithoutDrop(prefix, run[i], run[i + 1])
  }

  // ----- What a pending Find has collected -----

  /** r was the stored value of its domain at some moment since start. */
  ghost predicate WasStored(tables: seq<Tables>, start: nat, r: Record) {
    exists h :: start <= h < |tables| && r.domain in tables[h].domains && r == RecordAt(tables[h], r.domain)
  }

  ghost predicate PresentThroughout(tables: seq<Tables>, start: nat, d: string) {
    forall h | start <= h < |tables| :: d in tables[h].domains
  }

  ghost predicate Returns(out: seq<Record>, d: string) {
    exists k :: 0 <= k < |out| && out[k].domain == d
  }

  /** What reading one domain of one version gives. */
  function Reading(t: Tables, d: string): seq<Record> {
    if d in t.domains then [RecordAt(t, d)] else []
  }

  ghost predicate InRange(tables: seq<Tables>, at: seq<nat>) {
    forall k | 0 <= k < |at| :: at[k] < |tables|
  }

  /** What reading the first n domains, each at its version, gives. */
  ghost function Collected(tables: seq<Tables>, ds: seq<string>, at: seq<nat>, n: nat): seq<Record>
    requires n <= |at| <= |ds| && InRange(tables, at)
  {
    if n == 0 then [] else Collected(tables, ds, at, n - 1) + Reading(tables[at[n - 1]], ds[n - 1])
  }

  ghost predicate FindInv(tables: seq<Tables>, f: Client)
    requires f.Finding?
  {
    && f.start < |tables| && IsOrderOf(f.order, tables[f.start].domains) && |f.at| <= |f.order|
    && InRange(tables, f.at) && (forall k | 0 <= k < |f.at| :: f.start <= f.at[k])
    && (forall j, k | 0 <= j < k < |f.at| :: f.at[j] <= f.at[k])
    && f.out == Collected(tables, f.order, f.at, |f.at|)
  }

  // ----- What every step keeps -----

  ghost predicate ClientInv(tables: seq<Tables>, c: Client) {
    (c.Ready? ==> c.rec.createdAt != 0) && (c.Finding? ==> FindInv(tables, c))
  }

  ghost predicate StoreInv(prefix: string, s: State) {
    && s.stores != [] && |s.stores| == |s.tables|
    && forall h | 0 <= h < |s.stores| :: Simulates(prefix, s.stores[h], s.tables[h]) && Consistent(s.tables[h])
  }

  ghost predicate Inv(prefix: string, s: State) {
    StoreInv(prefix, s) && forall c | c in s.clients :: ClientInv(s.tables, s.clients[c])
  }

  /** More versions and more reads do not change what the first reads gave. */
  lemma {:induction false} CollectedStays(
      tables: seq<Tables>, more: seq<Tables>, ds: seq<string>, at: seq<nat>, at': seq<nat>, n: nat)
    requires n <= |at| && |at'| <= |ds| && at <= at' && tables <= more && InRange(tables, at) && InRange(more, at')
    ensures Collected(more, ds, at', n) == Collected(tables, ds, at, n)
  {
    hide Reading;
    if n > 0 {
      CollectedStays(tables, more, ds, at, at', n - 1);
    }
  }

  /** Later versions do not touch what a Find has read. */
  lemma MoreTables(tables: seq<Tables>, more: seq<Tables>, c: Client)
    requires ClientInv(tables, c) && tables <= more
    ensures ClientInv(more, c)
  {
    hide IsOrderOf, Collected;
    if c.Finding? {
      CollectedStays(tables, more, c.order, c.at, c.at, |c.at|);
    }
  }

  lemma CommitKeepsInv(prefix: string, s: State, c: ClientId, batch: seq<TableCmd>)
    requires Inv(prefix, s)
    requires Consistent(ExecTable(s.tables[|s.tables| - 1], batch))
    ensures Inv(prefix, Commit(prefix, s, c, batch))
  {
    hide Simulates, Consistent, ExecTable, Exec, ClientInv;
    var s' := Commit(prefix, s, c, batch);
    ExecSimulates(prefix, Present(s), s.tables[|s.tables| - 1], batch);
    forall e | e in s'.clients
      ensures ClientInv(s'.tables, s'.clients[e])
    {
      if e == c {
        IdleInv(s'.tables);
      } else {
        MoreTables(s.tables, s'.tables, s.clients[e]);
      }
    }
  }

  lemma IdleInv(tables: seq<Tables>)
    ensures ClientInv(tables, Idle)
  {
  }

  lemma HashIsFields(prefix: string, s: State, d: string)
    requires StoreInv(prefix, s)
    ensures HashOf(prefix, s, d) == FieldsOf(s.tables[|s.tables| - 1], d)
    ensures SMembers(Present(s), KeyDomains(prefix)) == s.tables[|s.tables| - 1].domains
  {
    hide FieldsOf, KeyRecord, KeyDomains, KeyInstance, HGetAll, SMembers, Consistent, Typed;
    assert Simulates(prefix, Present(s), s.tables[|s.tables| - 1]);
  }

  /** One read of a pending Find. */
  lemma ReadNextKeeps(tables: seq<Tables>, f: Client)
    requires tables != [] && f.Finding? && FindInv(tables, f) && |f.at| < |f.order|
    requires Agree(tables[|tables| - 1])
    ensures var now, d := tables[|tables| - 1], f.order[|f.at|];
            var out := if FieldsOf(now, d) == map[] then f.out else f.out + [RecordAt(now, d)];
            FindInv(tables, f.(at := f.at + [|tables| - 1], out := out))
  {
    hide FieldsOf, RecordAt, IsOrderOf;
    var n, now := |f.at|, |tables| - 1;
    var at := f.at + [now];
    CollectedStays(tables, tables, f.order, f.at, at, n);
    assert Collected(tables, f.order, at, n + 1) == f.out + Reading(tables[now], f.order[n]);
    assert f.out + [] == f.out;
  }

  lemma BecomeKeepsInv(prefix: string, s: State, c: ClientId, st: Client)
    requires Inv(prefix, s) && ClientInv(s.tables, st)
    ensures Inv(prefix, Become(s, c, st))
  {
  }

  /** Each step of each client keeps the invariant, however stale the client's reads are. */
  lemma StepKeepsInv(prefix: string, s: State, step: Step, s': State)
    requires Inv(prefix, s) && NextBy(prefix, s, step, s')
    ensures Inv(prefix, s')
  {
    hide Simulates, Agree, Encoded, ExecTable, Exec, FindInv, FieldsOf, Decode, KeyRecord, KeyDomains,
      KeyInstance, SMembers, HGetAll, ReadTime, IsOrderOf, TrimSpace, CreateBatch, DeleteBatch, DropBatch,
      Commit, ReadInstance;
    var me, now := ClientOf(s, step.c), s.tables[|s.tables| - 1];
    assert me != Idle ==> ClientInv(s.tables, me);
    match step
    case ReadInstanceId(c, rec, fails) =>
      BecomeKeepsInv(prefix, s, c, s'.clients[c]);
    case ReadCreatedAt(c, n, fails) =>
      BecomeKeepsInv(prefix, s, c, s'.clients[c]);
    case CommitCreate(c) =>
      CreateKeeps(now, me.rec, me.oldInstance);
      CommitKeepsInv(prefix, s, c, CreateBatch(me.rec, me.oldInstance));
    case BeginDelete(c, d) =>
      BecomeKeepsInv(prefix, s, c, s'.clients[c]);
    case CommitDelete(c) =>
      DeleteKeeps(now, me.domain, me.instance);
      CommitKeepsInv(prefix, s, c, DeleteBatch(me.domain, me.instance));
    case BeginDrop(c, i, order) =>
      BecomeKeepsInv(prefix, s, c, s'.clients[c]);
    case CommitDrop(c) =>
      DropKeeps(now, me.instance, me.order);
      CommitKeepsInv(prefix, s, c, DropBatch(me.instance, me.order));
    case BeginFind(c, order) =>
      HashIsFields(prefix, s, "");
      FreshFind(s.tables, order);
      BecomeKeepsInv(prefix, s, c, s'.clients[c]);
    case ReadNext(c) =>
      HashIsFields(prefix, s, me.order[|me.at|]);
      ReadNextKeeps(s.tables, me);
      BecomeKeepsInv(prefix, s, c, s'.clients[c]);
    case EndFind(c) =>
      BecomeKeepsInv(prefix, s, c, Idle);
    case GiveUp(c) =>
      BecomeKeepsInv(prefix, s, c, Idle);
  }

  lemma FreshFind(tables: seq<Tables>, order: seq<string>)
    requires tables != [] && IsOrderOf(order, tables[|tables| - 1].domains)
    ensures FindInv(tables, Finding(|tables| - 1, order, [], []))
  {
  }

  lemma InitInv(prefix: string, s: State)
    requires Init(s)
    ensures Inv(prefix, s) && Listed(s.tables[|s.tables| - 1])
  {
  }

  lemma {:induction false} RunKeepsInv(prefix: string, run: seq<State>, i: nat)
    requires IsRun(prefix, run) && i < |run|
    ensures Inv(prefix, run[i])
  {
    hide Inv;
    if i == 0 {
      InitInv(prefix, run[0]);
    } else {
      RunKeepsInv(prefix, run, i - 1);
      assert Next(prefix, run[i - 1], run[i - 1 + 1]);
      var step :| NextBy(prefix, run[i - 1], step, run[i]);
      StepKeepsInv(prefix, run[i - 1], step, run[i]);
    }
  }

  // ----- The theorems -----

  /** In every interleaving a domain is in the domain set exactly when its record hash exists, and
      every record hash decodes to a record that encodes to it. */
  lemma DomainSetMatchesRecords(prefix: string, run: seq<State>, i: nat, d: string)
    requires IsRun(prefix, run) && i < |run|
    ensures run[i].stores != []
    ensures var store := Present(run[i]);
            var hash := HGetAll(store, KeyRecord(prefix, d));
            && (d in SMembers(store, KeyDomains(prefix)) <==> hash != map[])
            && (hash != map[] ==> hash == Encode(Decode(d, hash)))
  {
    hide Simulates, Decode, Encode, KeyRecord, KeyDomains, FieldsOf, HGetAll, SMembers, ClientInv;
    RunKeepsInv(prefix, run, i);
    HashIsFields(prefix, run[i], d);
    var t := run[i].tables[|run[i].tables| - 1];
    assert Consistent(t);
    assert d in t.domains <==> FieldsOf(t, d) != map[];
  }

  lemma StepKeepsListed(prefix: string, s: State, step: Step, s': State)
    requires Inv(prefix, s) && NextBy(prefix, s, step, s') && !step.CommitDrop?
    requires Listed(s.tables[|s.tables| - 1])
    ensures s'.tables != [] && Listed(s'.tables[|s'.tables| - 1])
  {
    hide Simulates, Agree, Encoded, ExecTable, Exec, FindInv, FieldsOf, Decode, KeyRecord, KeyDomains,
      KeyInstance, SMembers, HGetAll, Listed, IsOrderOf, ReadTime, TrimSpace, CreateBatch, DeleteBatch,
      DropBatch, RecordAt, ReadInstance;
    var me, now := ClientOf(s, step.c), s.tables[|s.tables| - 1];
    assert me != Idle ==> ClientInv(s.tables, me);
    if step.CommitCreate? {
      CreateKeeps(now, me.rec, me.oldInstance);
    } else if step.CommitDelete? {
      DeleteKeeps(now, me.domain, me.instance);
    }
  }

  lemma WithoutDropIsRun(prefix: string, run: seq<State>)
    requires IsRunWithoutDrop(prefix, run)
    ensures IsRun(prefix, run)
  {
  }

  lemma {:induction false} RunKeepsListed(prefix: string, run: seq<State>, i: nat)
    requires IsRunWithoutDrop(prefix, run) && i < |run|
    ensures run[i].tables != [] && Listed(run[i].tables[|run[i].tables| - 1])
  {
    hide Inv, Listed, NextBy;
    WithoutDropIsRun(prefix, run);
    if i == 0 {
      InitInv(prefix, run[0]);
    } else {
      RunKeepsListed(prefix, run, i - 1);
      RunKeepsInv(prefix, run, i - 1);
      assert NextWithoutDrop(prefix, run[i - 1], run[i - 1 + 1]);
      var step :| NextBy(prefix, run[i - 1], step, run[i]) && !step.CommitDrop?;
      StepKeepsListed(prefix, run[i - 1], step, run[i]);
    }
  }

  /** Without DeleteByInstanceID commits, in every interleaving every record is listed in the index
      set of its instance. */
  lemma RecordsAreIndexed(prefix: string, run: seq<State>, i: nat, d: string)
    requires IsRunWithoutDrop(prefix, run) && i < |run|
    ensures run[i].stores != []
    ensures var store := Present(run[i]);
            var hash := HGetAll(store, KeyRecord(prefix, d));
            hash != map[] ==> d in SMembers(store, KeyInstance(prefix, Decode(d, hash).instance))
  {
    hide Decode, Encode, KeyRecord, KeyDomains, KeyInstance, FieldsOf, HGetAll, SMembers, ClientInv, MembersOf;
    RunKeepsListed(prefix, run, i);
    WithoutDropIsRun(prefix, run);
    RunKeepsInv(prefix, run, i);
    HashIsFields(prefix, run[i], d);
    var t := run[i].tables[|run[i].tables| - 1];
    assert Consistent(t);
    assert d in t.domains <==> FieldsOf(t, d) != map[];
    assert Simulates(prefix, Present(run[i]), t);
  }

  /** A commit of DeleteByInstanceID keeps every record listed exactly when no record of the instance
      appeared after the members were read. */
  lemma DropKeepsListedExactlyWhen(prefix: string, s: State, c: ClientId, s': State)
    requires Inv(prefix, s) && Listed(s.tables[|s.tables| - 1]) && NextBy(prefix, s, CommitDrop(c), s')
    ensures var now, me := s.tables[|s.tables| - 1], s.clients[c];
            Listed(s'.tables[|s'.tables| - 1]) <==>
            forall d | d in now.domains && RecordAt(now, d).instance == me.instance :: d in me.order
  {
    hide Simulates, Agree, Encoded, ExecTable, Exec, ClientInv, Listed, RecordAt;
    assert Consistent(s.tables[|s.tables| - 1]);
    DropKeeps(s.tables[|s.tables| - 1], s.clients[c].instance, s.clients[c].order);
  }

  /** The tables the present store stands for. */
  function Now(s: State): Tables
    requires s.tables != []
  {
    s.tables[|s.tables| - 1]
  }

  lemma InvConsistent(prefix: string, s: State)
    requires Inv(prefix, s)
    ensures s.stores != [] && |s.stores| == |s.tables| && Consistent(Now(s))
  {
    hide Simulates, Agree, Encoded;
  }

  lemma ReadyIsStamped(prefix: string, s: State, c: ClientId)
    requires Inv(prefix, s) && ClientOf(s, c).Ready?
    ensures ClientOf(s, c).rec.createdAt != 0
  {
    hide StoreInv, FindInv;
  }

  /** The batch of a commit. */
  function BatchOf(me: Client, step: Step): seq<TableCmd>
    requires step.CommitCreate? ==> me.Ready?
    requires step.CommitDelete? ==> me.Deleting?
    requires step.CommitDrop? ==> me.Dropping?
  {
    match step
    case CommitCreate(_) => CreateBatch(me.rec, me.oldInstance)
    case CommitDelete(_) => DeleteBatch(me.domain, me.instance)
    case CommitDrop(_) => DropBatch(me.instance, me.order)
    case _ => []
  }

  /** What a step does to the tables. */
  lemma StepOnTables(prefix: string, s: State, step: Step, s': State)
    requires NextBy(prefix, s, step, s')
    ensures s.tables != [] && s'.tables != []
    ensures var me := ClientOf(s, step.c);
            && (step.CommitCreate? ==> me.Ready?)
            && (step.CommitDelete? ==> me.Deleting?)
            && (step.CommitDrop? ==> me.Dropping?)
            && Now(s')
               == if step.CommitCreate? || step.CommitDelete? || step.CommitDrop?
                  then ExecTable(Now(s), BatchOf(me, step)) else Now(s)
  {
    hide ExecTable, Exec, HashOf, SMembers, TrimSpace, CreateBatch, DeleteBatch, DropBatch, ReadInstance, StampWith,
      IsOrderOf, Decode;
  }

  /** In every interleaving each commit is one step on the abstract map: an upsert's an update, a
      deletion's a removal, a DeleteByInstanceID's the removal of the domains it had read; nothing else
      changes the map. */
  lemma CommitsAreMapSteps(prefix: string, s: State, step: Step, s': State)
    requires Inv(prefix, s) && NextBy(prefix, s, step, s')
    ensures s'.tables != []
    ensures var m, m', me := ContentsOf(Now(s)), ContentsOf(Now(s')), ClientOf(s, step.c);
            match step
            case CommitCreate(_) => m' == m[me.rec.domain := me.rec.(id := 0)]
            case CommitDelete(_) => m' == m - {me.domain}
            case CommitDrop(_) => m' == m - (set d | d in me.order)
            case _ => m' == m
  {
    hide Inv, NextBy, ExecTable, ContentsOf, CreateBatch, DeleteBatch, DropBatch, Consistent, Now, ClientOf;
    var me := ClientOf(s, step.c);
    StepOnTables(prefix, s, step, s');
    InvConsistent(prefix, s);
    if step.CommitCreate? {
      ReadyIsStamped(prefix, s, step.c);
      CreateContents(Now(s), me.rec, me.oldInstance);
    } else if step.CommitDelete? {
      DeleteContents(Now(s), me.domain, me.instance);
    } else if step.CommitDrop? {
      DropContents(Now(s), me.instance, me.order);
    }
  }

  // ----- DeleteByInstanceID against a record that moves -----

  /** Client c upserts rec with nobody in between. */
  ghost predicate Upserts(prefix: string, s: State, c: ClientId, rec: Record, now: int, s': State) {
    exists s1, s2 ::
      && NextBy(prefix, s, ReadInstanceId(c, rec, false), s1) && NextBy(prefix, s1, ReadCreatedAt(c, now, false), s2)
      && NextBy(prefix, s2, CommitCreate(c), s')
  }

  /** Such an upsert moves the domain from the index of its stored instance to that of its new one. */
  lemma LoneUpsert(prefix: string, s: State, c: ClientId, rec: Record, now: int) returns (s': State)
    requires Inv(prefix, s) && ClientOf(s, c) == Idle && TrimSpace(rec.domain) != "" && now != 0 && s.tables != []
    ensures Upserts(prefix, s, c, rec, now, s') && Inv(prefix, s') && s'.tables != []
    ensures s'.clients == s.clients[c := Idle]
    ensures s'.tables == s.tables + [Now(s')] && Now(s').domains == Now(s).domains + {rec.domain}
    ensures RecordAt(Now(s'), rec.domain).instance == rec.instance
    ensures forall e | e != rec.domain :: RecordAt(Now(s'), e) == RecordAt(Now(s), e)
    ensures forall i: int64 ::
              MembersOf(Now(s'), i) ==
                if i == rec.instance then MembersOf(Now(s), i) + {rec.domain}
                else if i == InstanceAt(Now(s), rec.domain) then MembersOf(Now(s), i) - {rec.domain}
                else MembersOf(Now(s), i)
  {
    hide Inv, NextBy, ExecTable, FieldsOf, TrimSpace, CreateBatch, Encode, Consistent, RecordAt, MembersOf, InstanceAt,
      StampWith;
    var s1, s2 := LoneReads(prefix, s, c, rec, now);
    var r, old' := s2.clients[c].rec, s2.clients[c].oldInstance;
    InvConsistent(prefix, s);
    s' := CommitReady(prefix, s2, c);
    CreateEffect(Now(s), r, old');
    CreateKeeps(Now(s), r, old');
  }

  /** The two reads of such an upsert. */
  lemma LoneReads(prefix: string, s: State, c: ClientId, rec: Record, now: int) returns (s1: State, s2: State)
    requires Inv(prefix, s) && ClientOf(s, c) == Idle && TrimSpace(rec.domain) != "" && now != 0 && s.tables != []
    ensures NextBy(prefix, s, ReadInstanceId(c, rec, false), s1) && NextBy(prefix, s1, ReadCreatedAt(c, now, false), s2)
    ensures Inv(prefix, s2) && s2.tables == s.tables && s2.stores == s.stores
    ensures var r := StampWith(FieldsOf(Now(s), rec.domain), rec, now);
            && s2.clients == s.clients[c := Ready(r, InstanceAt(Now(s), rec.domain))]
            && r.domain == rec.domain && r.instance == rec.instance && r.createdAt != 0
  {
    hide Inv, Simulates, FieldsOf, KeyRecord, HGetAll, TrimSpace, ReadInstance, ReadTime, Agree, Encoded, InstanceAt;
    InvConsistent(prefix, s);
    InvStore(prefix, s);
    HashIsFields(prefix, s, rec.domain);
    InstanceIsRead(Now(s), rec.domain);
    s1 := Become(s, c, Creating(rec, InstanceAt(Now(s), rec.domain)));
    assert NextBy(prefix, s, ReadInstanceId(c, rec, false), s1);
    StepKeepsInv(prefix, s, ReadInstanceId(c, rec, false), s1);
    var r := StampWith(FieldsOf(Now(s), rec.domain), rec, now);
    s2 := Become(s1, c, Ready(r, InstanceAt(Now(s), rec.domain)));
    assert NextBy(prefix, s1, ReadCreatedAt(c, now, false), s2);
    StepKeepsInv(prefix, s1, ReadCreatedAt(c, now, false), s2);
  }

  lemma CommitReady(prefix: string, s: State, c: ClientId) returns (s': State)
    requires Inv(prefix, s) && ClientOf(s, c).Ready? && s.tables != []
    ensures NextBy(prefix, s, CommitCreate(c), s') && Inv(prefix, s') && s'.clients == s.clients[c := Idle]
    ensures var me := ClientOf(s, c);
            s'.tables == s.tables + [ExecTable(Now(s), CreateBatch(me.rec, me.oldInstance))]
  {
    hide Inv, Exec, ExecTable, CreateBatch, Consistent;
    var me := ClientOf(s, c);
    InvConsistent(prefix, s);
    s' := Commit(prefix, s, c, CreateBatch(me.rec, me.oldInstance));
    assert NextBy(prefix, s, CommitCreate(c), s');
    StepKeepsInv(prefix, s, CommitCreate(c), s');
  }

  function InstanceAt(t: Tables, d: string): int64 {
    if d in t.domains then RecordAt(t, d).instance else 0
  }

  lemma InstanceIsRead(t: Tables, d: string)
    requires Consistent(t)
    ensures RecordCodec.ReadInstance(Get(FieldsOf(t, d), "instance_id")) == InstanceAt(t, d)
  {
    hide Encode;
    HashHasInstance(t, d);
    if d !in t.domains {
      assert Get(FieldsOf(t, d), "instance_id") == "";
      assert ParseInt64(TrimSpace("")) == None;
    }
  }

  lemma StartDrop(prefix: string, s: State, c: ClientId, i: int64, order: seq<string>) returns (s': State)
    requires Inv(prefix, s) && ClientOf(s, c) == Idle && s.tables != [] && IsOrderOf(order, MembersOf(Now(s), i))
    ensures NextBy(prefix, s, BeginDrop(c, i, order), s') && Inv(prefix, s')
    ensures s'.tables == s.tables && s'.clients == s.clients[c := Dropping(i, order)]
  {
    hide Inv, IsOrderOf, MembersOf, Simulates, KeyInstance, SMembers;
    MembersAreRead(prefix, s, i);
    InvConsistent(prefix, s);
    s' := Become(s, c, Dropping(i, order));
    assert NextBy(prefix, s, BeginDrop(c, i, order), s');
    StepKeepsInv(prefix, s, BeginDrop(c, i, order), s');
  }

  lemma FinishDrop(prefix: string, s: State, c: ClientId) returns (s': State)
    requires Inv(prefix, s) && ClientOf(s, c).Dropping? && s.tables != []
    ensures NextBy(prefix, s, CommitDrop(c), s') && Inv(prefix, s') && s'.tables != []
    ensures Now(s').domains == Now(s).domains - (set d | d in s.clients[c].order)
    ensures forall i: int64 | i != s.clients[c].instance :: MembersOf(Now(s'), i) == MembersOf(Now(s), i)
  {
    hide Inv, Exec, ExecTable, DropBatch, Simulates, MembersOf;
    InvConsistent(prefix, s);
    s' := Commit(prefix, s, c, DropBatch(s.clients[c].instance, s.clients[c].order));
    assert NextBy(prefix, s, CommitDrop(c), s');
    StepKeepsInv(prefix, s, CommitDrop(c), s');
    DropEffect(Now(s), s.clients[c].instance, s.clients[c].order);
  }

  lemma MembersAreRead(prefix: string, s: State, i: int64)
    requires Inv(prefix, s)
    ensures s.stores != [] && s.tables != [] && SMembers(Present(s), KeyInstance(prefix, i)) == MembersOf(Now(s), i)
  {
    hide KeyRecord, KeyDomains, KeyInstance, HGetAll, SMembers, FieldsOf, MembersOf, Typed, Consistent;
    assert Simulates(prefix, Present(s), Now(s));
  }

  /** An interleaving in which DeleteByInstanceID of instance i deletes a record of instance j: the record
      moves after its domain was read.  The index of j then lists a domain that is not stored. */
  lemma DropTakesMovedRecord(prefix: string, s0: State, d: string, i: int64, j: int64)
    returns (s1: State, s2: State, s3: State, s4: State)
    requires Init(s0) && TrimSpace(d) != "" && i != j
    ensures Upserts(prefix, s0, 0, Record(d, i, [], 0, 0, 0), 1, s1)
    ensures NextBy(prefix, s1, BeginDrop(1, i, [d]), s2)
    ensures Upserts(prefix, s2, 0, Record(d, j, [], 0, 0, 0), 2, s3)
    ensures NextBy(prefix, s3, CommitDrop(1), s4)
    ensures s3.tables != [] && s4.tables != []
    ensures d in Now(s3).domains && RecordAt(Now(s3), d).instance == j
    ensures d !in Now(s4).domains && d in MembersOf(Now(s4), j)
    ensures ContentsOf(Now(s4)) != RemoveInstance(ContentsOf(Now(s3)), i)
  {
    hide Inv, NextBy, Upserts, TrimSpace, RecordAt, MembersOf, Consistent;
    InitInv(prefix, s0);
    NoMembers();
    s1 := LoneUpsert(prefix, s0, 0, Record(d, i, [], 0, 0, 0), 1);
    assert MembersOf(Now(s1), i) == {d};
    s2 := StartDrop(prefix, s1, 1, i, [d]);
    s3 := LoneUpsert(prefix, s2, 0, Record(d, j, [], 0, 0, 0), 2);
    s4 := FinishDrop(prefix, s3, 1);
    assert d in MembersOf(Now(s3), j);
    assert d in RemoveInstance(ContentsOf(Now(s3)), i) && d !in ContentsOf(Now(s4));
  }

  lemma NoMembers()
    ensures forall i: int64 :: MembersOf(NO_TABLES, i) == {}
  {
  }

  /** Such an index entry of instance j makes a later DeleteByInstanceID of j, with nobody in between,
      delete a record of another instance k. */
  lemma StaleIndexTakesOther(
      prefix: string, s: State, c: ClientId, d: string, j: int64, k: int64, order: seq<string>)
    returns (s1: State, s2: State, s3: State)
    requires Inv(prefix, s) && s.tables != [] && ClientOf(s, c) == Idle && TrimSpace(d) != ""
    requires d !in Now(s).domains && d in MembersOf(Now(s), j) && j != k && j != 0
    requires IsOrderOf(order, MembersOf(Now(s), j))
    ensures Upserts(prefix, s, c, Record(d, k, [], 0, 0, 0), 1, s1)
    ensures NextBy(prefix, s1, BeginDrop(c, j, order), s2) && NextBy(prefix, s2, CommitDrop(c), s3)
    ensures s1.tables != [] && s3.tables != []
    ensures d in Now(s1).domains && RecordAt(Now(s1), d).instance == k && d !in Now(s3).domains
  {
    hide Inv, NextBy, Upserts, TrimSpace, RecordAt, MembersOf, Consistent;
    s1 := LoneUpsert(prefix, s, c, Record(d, k, [], 0, 0, 0), 1);
    s2 := StartDrop(prefix, s1, c, j, order);
    s3 := FinishDrop(prefix, s2, c);
  }

  /** Read k gave the record r. */
  ghost predicate Gave(tables: seq<Tables>, ds: seq<string>, at: seq<nat>, k: nat, r: Record)
    requires |at| <= |ds| && InRange(tables, at)
  {
    k < |at| && Reading(tables[at[k]], ds[k]) == [r]
  }

  /** out holds what the first n reads gave, each domain at most once. */
  ghost predicate Holds(tables: seq<Tables>, ds: seq<string>, at: seq<nat>, n: nat, out: seq<Record>)
    requires n <= |at| <= |ds| && InRange(tables, at)
  {
    && (forall r | r in out :: exists k: nat :: k < n && Gave(tables, ds, at, k, r))
    && (forall k | 0 <= k < n && ds[k] in tables[at[k]].domains :: RecordAt(tables[at[k]], ds[k]) in out)
    && (forall i, j | 0 <= i < j < |out| :: out[i].domain != out[j].domain)
  }

  /** The read that gave a record. */
  lemma ReadOf(tables: seq<Tables>, ds: seq<string>, at: seq<nat>, n: nat, out: seq<Record>, i: nat) returns (k: nat)
    requires n <= |at| <= |ds| && InRange(tables, at) && Holds(tables, ds, at, n, out) && i < |out|
    ensures k < n && Reading(tables[at[k]], ds[k]) == [out[i]] && out[i].domain == ds[k]
  {
    k := ReadAtVersion(tables, ds, at, n, out, i);
    var r := out[i];
    assert [r][0] == r;
    assert r == RecordAt(tables[at[k]], ds[k]);
  }

  lemma ReadAtVersion(tables: seq<Tables>, ds: seq<string>, at: seq<nat>, n: nat, out: seq<Record>, i: nat)
    returns (k: nat)
    requires n <= |at| <= |ds| && InRange(tables, at) && Holds(tables, ds, at, n, out) && i < |out|
    ensures k < n && Gave(tables, ds, at, k, out[i])
  {
    hide Gave;
    assert out[i] in out;
    k :| k < n && Gave(tables, ds, at, k, out[i]);
  }

  /** One more read. */
  lemma HoldsMore(tables: seq<Tables>, ds: seq<string>, at: seq<nat>, n: nat, out: seq<Record>)
    requires n < |at| <= |ds| && InRange(tables, at) && IsDistinct(ds) && Holds(tables, ds, at, n, out)
    ensures Holds(tables, ds, at, n + 1, out + Reading(tables[at[n]], ds[n]))
  {
    hide RecordAt;
    DomainsOfRecords();
    var out' := out + Reading(tables[at[n]], ds[n]);
    forall r | r in out'
      ensures exists k: nat :: k < n + 1 && Gave(tables, ds, at, k, r)
    {
      if i: nat :| i < |out| && out[i] == r {
        var k := ReadOf(tables, ds, at, n, out, i);
        assert Gave(tables, ds, at, k, r);
      } else {
        assert Gave(tables, ds, at, n, r);
      }
    }
    forall k | 0 <= k < n + 1 && ds[k] in tables[at[k]].domains
      ensures RecordAt(tables[at[k]], ds[k]) in out'
    {
      if k < n {
        assert RecordAt(tables[at[k]], ds[k]) in out;
      } else {
        assert out'[|out|] == RecordAt(tables[at[n]], ds[n]);
      }
    }
    forall i, j | 0 <= i < j < |out'|
      ensures out'[i].domain != out'[j].domain
    {
      if j < |out| {
        assert out'[i] == out[i] && out'[j] == out[j];
      } else {
        var k := ReadOf(tables, ds, at, n, out, i);
        assert out'[j] == RecordAt(tables[at[n]], ds[n]) && out'[i].domain == ds[k];
      }
    }
  }

  lemma HoldsNothing(tables: seq<Tables>, ds: seq<string>, at: seq<nat>)
    requires |at| <= |ds| && InRange(tables, at)
    ensures Holds(tables, ds, at, 0, [])
  {
  }

  lemma {:induction false} CollectedHolds(tables: seq<Tables>, ds: seq<string>, at: seq<nat>, n: nat)
    requires n <= |at| <= |ds| && InRange(tables, at) && IsDistinct(ds)
    ensures Holds(tables, ds, at, n, Collected(tables, ds, at, n))
  {
    hide Reading, Holds, IsDistinct, InRange;
    if n == 0 {
      HoldsNothing(tables, ds, at);
    } else {
      CollectedHolds(tables, ds, at, n - 1);
      HoldsMore(tables, ds, at, n - 1, Collected(tables, ds, at, n - 1));
    }
  }

  lemma DomainsOfRecords()
    ensures forall t: Tables, d: string {:trigger RecordAt(t, d)} :: RecordAt(t, d).domain == d
  {
  }

  lemma HeldWasStored(tables: seq<Tables>, f: Client, k: nat)
    requires HasReadAll(f) && InRange(tables, f.at) && forall i | 0 <= i < |f.at| :: f.start <= f.at[i]
    requires Holds(tables, f.order, f.at, |f.at|, f.out) && k < |f.out|
    ensures WasStored(tables, f.start, f.out[k])
  {
    hide RecordAt;
    DomainsOfRecords();
    var i := ReadOf(tables, f.order, f.at, |f.at|, f.out, k);
    assert f.out[k] == RecordAt(tables[f.at[i]], f.order[i]);
  }

  lemma LastingIsHeld(tables: seq<Tables>, f: Client, d: string)
    requires HasReadAll(f) && InRange(tables, f.at) && forall i | 0 <= i < |f.at| :: f.start <= f.at[i]
    requires Holds(tables, f.order, f.at, |f.at|, f.out) && d in f.order && PresentThroughout(tables, f.start, d)
    ensures Returns(f.out, d)
  {
    hide RecordAt;
    DomainsOfRecords();
    var i :| 0 <= i < |f.order| && f.order[i] == d;
    var k :| 0 <= k < |f.out| && f.out[k] == RecordAt(tables[f.at[i]], d);
  }

  /** What a Find that has read every domain has collected. */
  lemma CollectedAll(tables: seq<Tables>, f: Client)
    requires f.Finding? && FindInv(tables, f) && HasReadAll(f)
    ensures f.start < |tables|
    ensures forall k | 0 <= k < |f.out| :: WasStored(tables, f.start, f.out[k])
    ensures forall j, k | 0 <= j < k < |f.out| :: f.out[j].domain != f.out[k].domain
    ensures forall d | PresentThroughout(tables, f.start, d) :: Returns(f.out, d)
  {
    hide RecordAt, Collected, Reading, WasStored, Returns;
    CollectedHolds(tables, f.order, f.at, |f.at|);
    forall k | 0 <= k < |f.out|
      ensures WasStored(tables, f.start, f.out[k])
    {
      HeldWasStored(tables, f, k);
    }
    forall d | PresentThroughout(tables, f.start, d)
      ensures Returns(f.out, d)
    {
      assert d in tables[f.start].domains;
      LastingIsHeld(tables, f, d);
    }
  }

  /** Find is regular: when it ends, in every interleaving, each returned record was the stored value
      of its domain at some moment of the call, no domain is repeated, and every domain stored
      throughout the call is returned. */
  lemma FindIsRegular(prefix: string, run: seq<State>, i: nat, c: ClientId)
    requires IsRun(prefix, run) && i < |run| && HasReadAll(ClientOf(run[i], c))
    ensures var f, tables := run[i].clients[c], run[i].tables;
            && (forall k | 0 <= k < |f.out| :: WasStored(tables, f.start, f.out[k]))
            && (forall j, k | 0 <= j < k < |f.out| :: f.out[j].domain != f.out[k].domain)
            && (forall d | PresentThroughout(tables, f.start, d) :: Returns(f.out, d))
  {
    hide StoreInv, FindInv, WasStored, PresentThroughout, Returns;
    RunKeepsInv(prefix, run, i);
    assert ClientInv(run[i].tables, run[i].clients[c]);
    CollectedAll(run[i].tables, run[i].clients[c]);
  }

  // ----- When a Find is a snapshot -----

  /** Every domain of version h was listed, and each was read as version h has it. */
  ghost predicate ReadsLike(tables: seq<Tables>, f: Client, h: nat)
    requires h < |tables| && HasReadAll(f) && InRange(tables, f.at)
  {
    && (forall d | d in tables[h].domains :: d in f.order)
    && (forall k | 0 <= k < |f.order| :: Reading(tables[f.at[k]], f.order[k]) == Reading(tables[h], f.order[k]))
  }

  /** The result of a Find lists version h exactly when its reads are like those of version h. */
  lemma ListsVersionExactlyWhen(tables: seq<Tables>, f: Client, h: nat)
    requires f.Finding? && FindInv(tables, f) && HasReadAll(f) && h < |tables|
    ensures Lists(ContentsOf(tables[h]), f.out) <==> ReadsLike(tables, f, h)
  {
    hide RecordAt, Collected, Holds, ReadsLike, Lists;
    CollectedHolds(tables, f.order, f.at, |f.at|);
    if ReadsLike(tables, f, h) {
      LikeReadsList(tables, f, h);
    }
    if Lists(ContentsOf(tables[h]), f.out) {
      ListedReadsLike(tables, f, h);
    }
  }

  lemma LikeReadsList(tables: seq<Tables>, f: Client, h: nat)
    requires h < |tables| && HasReadAll(f) && InRange(tables, f.at)
    requires Holds(tables, f.order, f.at, |f.at|, f.out) && ReadsLike(tables, f, h)
    ensures Lists(ContentsOf(tables[h]), f.out)
  {
    hide RecordAt;
    DomainsOfRecords();
    var m := ContentsOf(tables[h]);
    forall i | 0 <= i < |f.out|
      ensures f.out[i].domain in m && m[f.out[i].domain] == f.out[i]
    {
      var k := ReadOf(tables, f.order, f.at, |f.at|, f.out, i);
      assert Reading(tables[h], f.order[k]) == [f.out[i]];
    }
    forall d | d in m
      ensures m[d] in f.out
    {
      var k :| 0 <= k < |f.order| && f.order[k] == d;
      assert Reading(tables[f.at[k]], d) == [m[d]];
    }
  }

  lemma ListedReadsLike(tables: seq<Tables>, f: Client, h: nat)
    requires h < |tables| && HasReadAll(f) && InRange(tables, f.at)
    requires IsDistinct(f.order)
    requires Holds(tables, f.order, f.at, |f.at|, f.out) && Lists(ContentsOf(tables[h]), f.out)
    ensures ReadsLike(tables, f, h)
  {
    hide RecordAt, Holds, Lists, ContentsOf;
    forall d | d in tables[h].domains
      ensures d in f.order
    {
      var k := WhereRead(tables, f, h, d);
    }
    forall k | 0 <= k < |f.order|
      ensures Reading(tables[f.at[k]], f.order[k]) == Reading(tables[h], f.order[k])
    {
      if f.order[k] in tables[h].domains {
        var i := WhereRead(tables, f, h, f.order[k]);
        assert i == k;
      } else if f.order[k] in tables[f.at[k]].domains {
        ReadIsListed(tables, f, h, k);
      }
    }
  }

  /** A listed domain was read as it was listed. */
  lemma WhereRead(tables: seq<Tables>, f: Client, h: nat, d: string) returns (k: nat)
    requires h < |tables| && HasReadAll(f) && InRange(tables, f.at)
    requires Holds(tables, f.order, f.at, |f.at|, f.out) && Lists(ContentsOf(tables[h]), f.out)
    requires d in tables[h].domains
    ensures k < |f.order| && f.order[k] == d && Reading(tables[f.at[k]], d) == Reading(tables[h], d)
  {
    hide RecordAt;
    DomainsOfRecords();
    var m := ContentsOf(tables[h]);
    assert m[d] in f.out;
    var i :| 0 <= i < |f.out| && f.out[i] == m[d];
    k := ReadOf(tables, f.order, f.at, |f.at|, f.out, i);
  }

  /** A domain that was there when it was read is listed. */
  lemma ReadIsListed(tables: seq<Tables>, f: Client, h: nat, k: nat)
    requires h < |tables| && HasReadAll(f) && InRange(tables, f.at)
    requires Holds(tables, f.order, f.at, |f.at|, f.out) && Lists(ContentsOf(tables[h]), f.out)
    requires k < |f.order| && f.order[k] in tables[f.at[k]].domains
    ensures f.order[k] in tables[h].domains
  {
    hide RecordAt;
    DomainsOfRecords();
    var i :| 0 <= i < |f.out| && f.out[i] == RecordAt(tables[f.at[k]], f.order[k]);
    assert f.out[i].domain in ContentsOf(tables[h]);
  }

  /** Versions that agree outside one domain. */
  ghost predicate DifferOnlyAt(tables: seq<Tables>, start: nat, d: string) {
    forall h, e | start <= h < |tables| && e != d :: Reading(tables[h], e) == Reading(tables[start], e)
  }

  /** Commits on a single domain during the call, however many, leave a Find a snapshot: its result lists a
      version of the store that was current during the call. */
  lemma OneDomainIsHarmless(tables: seq<Tables>, f: Client, d: string) returns (h: nat)
    requires f.Finding? && FindInv(tables, f) && HasReadAll(f) && DifferOnlyAt(tables, f.start, d)
    ensures f.start <= h < |tables| && Lists(ContentsOf(tables[h]), f.out)
  {
    hide RecordAt, Collected, Lists;
    h := f.start;
    if d in f.order {
      var i :| 0 <= i < |f.order| && f.order[i] == d;
      h := f.at[i];
      assert forall k | 0 <= k < |f.order| && f.order[k] == d :: k == i;
    }
    forall e | e in tables[h].domains
      ensures e in f.order
    {
      if e != d {
        assert Reading(tables[h], e) == Reading(tables[f.start], e);
      }
    }
    forall k | 0 <= k < |f.order|
      ensures Reading(tables[f.at[k]], f.order[k]) == Reading(tables[h], f.order[k])
    {
      if f.order[k] != d {
        assert Reading(tables[f.at[k]], f.order[k]) == Reading(tables[f.start], f.order[k]);
        assert Reading(tables[h], f.order[k]) == Reading(tables[f.start], f.order[k]);
      }
    }
    assert ReadsLike(tables, f, h);
    ListsVersionExactlyWhen(tables, f, h);
  }

  /** In every interleaving the result of a Find that has read every domain lists a version of the store
      exactly when its reads are like that version's; and while the versions during the call differ in one
      domain only, it lists one of them. */
  lemma FindIsSnapshotExactlyWhen(prefix: string, run: seq<State>, i: nat, c: ClientId)
    requires IsRun(prefix, run) && i < |run| && HasReadAll(ClientOf(run[i], c))
    ensures var f, tables := run[i].clients[c], run[i].tables;
            && InRange(tables, f.at) && (forall k | 0 <= k < |f.at| :: f.start <= f.at[k])
            && (forall h | 0 <= h < |tables| :: Lists(ContentsOf(tables[h]), f.out) <==> ReadsLike(tables, f, h))
            && ((exists d :: DifferOnlyAt(tables, f.start, d)) ==>
                  exists h | f.start <= h < |tables| :: Lists(ContentsOf(tables[h]), f.out))
  {
    hide StoreInv, Collected, IsOrderOf, Lists, ContentsOf, ReadsLike, DifferOnlyAt;
    RunKeepsInv(prefix, run, i);
    var f, tables := run[i].clients[c], run[i].tables;
    assert ClientInv(tables, f);
    forall h | 0 <= h < |tables|
      ensures Lists(ContentsOf(tables[h]), f.out) <==> ReadsLike(tables, f, h)
    {
      ListsVersionExactlyWhen(tables, f, h);
    }
    if d :| DifferOnlyAt(tables, f.start, d) {
      var h := OneDomainIsHarmless(tables, f, d);
    }
  }

  // ----- A Find that no version of the store matches -----

  lemma StartFind(prefix: string, s: State, c: ClientId, order: seq<string>) returns (s': State)
    requires Inv(prefix, s) && ClientOf(s, c) == Idle && s.tables != [] && IsOrderOf(order, Now(s).domains)
    ensures NextBy(prefix, s, BeginFind(c, order), s') && Inv(prefix, s')
    ensures s'.tables == s.tables && s'.clients == s.clients[c := Finding(|s.tables| - 1, order, [], [])]
  {
    hide Inv, IsOrderOf, Simulates, KeyDomains, SMembers, Agree, Encoded;
    InvConsistent(prefix, s);
    InvStore(prefix, s);
    HashIsFields(prefix, s, "");
    s' := Become(s, c, Finding(|s.tables| - 1, order, [], []));
    assert NextBy(prefix, s, BeginFind(c, order), s');
    StepKeepsInv(prefix, s, BeginFind(c, order), s');
  }

  lemma InvStore(prefix: string, s: State)
    requires Inv(prefix, s)
    ensures StoreInv(prefix, s)
  {
    hide StoreInv;
  }

  function MoreRead(f: Client, version: nat, r: Record): Client
    requires f.Finding?
  {
    f.(at := f.at + [version], out := f.out + [r])
  }

  /** Client c reads the hash of a stored domain. */
  lemma ReadStored(prefix: string, s: State, c: ClientId) returns (s': State)
    requires Inv(prefix, s) && s.tables != [] && ClientOf(s, c).Finding?
    requires var f := ClientOf(s, c); |f.at| < |f.order| && f.order[|f.at|] in Now(s).domains
    ensures NextBy(prefix, s, ReadNext(c), s') && Inv(prefix, s') && s'.tables == s.tables
    ensures var f := ClientOf(s, c);
            s'.clients == s.clients[c := MoreRead(f, |s.tables| - 1, RecordAt(Now(s), f.order[|f.at|]))]
  {
    hide Inv, Simulates, KeyRecord, HGetAll, Encoded, Decode, FieldsOf;
    var f := ClientOf(s, c);
    InvConsistent(prefix, s);
    InvStore(prefix, s);
    HashIsFields(prefix, s, f.order[|f.at|]);
    s' := Become(s, c, MoreRead(f, |s.tables| - 1, RecordAt(Now(s), f.order[|f.at|])));
    assert NextBy(prefix, s, ReadNext(c), s');
    StepKeepsInv(prefix, s, ReadNext(c), s');
  }

  /** A Find need not be a snapshot: between its two reads both domains are written, and its result lists the
      contents of no version the store has ever had. */
  lemma FindIsNoSnapshot(prefix: string, s0: State, a: string, b: string)
    returns (s1: State, s2: State, s3: State, s4: State, s5: State, s6: State, s7: State)
    requires Init(s0) && TrimSpace(a) != "" && TrimSpace(b) != "" && a != b
    ensures Upserts(prefix, s0, 0, Record(a, 1, [], 0, 0, 0), 1, s1)
    ensures Upserts(prefix, s1, 0, Record(b, 1, [], 0, 0, 0), 1, s2)
    ensures NextBy(prefix, s2, BeginFind(1, [a, b]), s3) && NextBy(prefix, s3, ReadNext(1), s4)
    ensures Upserts(prefix, s4, 0, Record(a, 2, [], 0, 0, 0), 2, s5)
    ensures Upserts(prefix, s5, 0, Record(b, 2, [], 0, 0, 0), 2, s6)
    ensures NextBy(prefix, s6, ReadNext(1), s7) && HasReadAll(ClientOf(s7, 1))
    ensures forall h | 0 <= h < |s7.tables| :: !Lists(ContentsOf(s7.tables[h]), ClientOf(s7, 1).out)
  {
    hide Inv, NextBy, Upserts, TrimSpace, RecordAt, MembersOf, Consistent, InstanceAt;
    InitInv(prefix, s0);
    s1 := LoneUpsert(prefix, s0, 0, Record(a, 1, [], 0, 0, 0), 1);
    s2 := LoneUpsert(prefix, s1, 0, Record(b, 1, [], 0, 0, 0), 1);
    s3 := StartFind(prefix, s2, 1, [a, b]);
    s4 := ReadStored(prefix, s3, 1);
    s5 := LoneUpsert(prefix, s4, 0, Record(a, 2, [], 0, 0, 0), 2);
    s6 := LoneUpsert(prefix, s5, 0, Record(b, 2, [], 0, 0, 0), 2);
    s7 := ReadStored(prefix, s6, 1);
    var ra, rb, t := RecordAt(Now(s3), a), RecordAt(Now(s6), b), s7.tables;
    assert ClientOf(s7, 1).out == [ra, rb];
    assert t == [NO_TABLES, Now(s1), Now(s2), Now(s5), Now(s6)];
    DomainsOfRecords();
    forall h | 0 <= h < |t|
      ensures !Lists(ContentsOf(t[h]), [ra, rb])
    {
      var m := ContentsOf(t[h]);
      assert !(a in m && m[a] == ra && b in m && m[b] == rb);
      if Lists(m, [ra, rb]) {
        TwoListed(m, ra, rb);
      }
    }
  }

  lemma TwoListed(m: Contents, ra: Record, rb: Record)
    requires Lists(m, [ra, rb])
    ensures ra.domain in m && m[ra.domain] == ra && rb.domain in m && m[rb.domain] == rb
  {
    assert [ra, rb][0] == ra && [ra, rb][1] == rb;
  }
}
