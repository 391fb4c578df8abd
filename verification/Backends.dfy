/** The two backends side by side: any common sequence of operations, from empty stores. */
module Backends {
  import opened Text
  import opened Records
  import opened Repository
  import R = RedisTables
  import RS = RedisStore
  import S = SqlTable
  import SR = SqlRepository

  datatype Call = Call(op: Op, now: int)

  ghost predicate RedisRun(ts: seq<RS.Tables>, calls: seq<Call>, outs: seq<Outcome>) {
    && |ts| == |calls| + 1 && |outs| == |calls| && ts[0] == RS.NO_TABLES
    && forall i | 0 <= i < |calls| :: R.RedisDoes(ts[i], calls[i].op, calls[i].now, ts[i + 1], outs[i])
  }

  ghost predicate SqlRun(ts: seq<S.Table>, calls: seq<Call>, outs: seq<Outcome>) {
    && |ts| == |calls| + 1 && |outs| == |calls| && ts[0] == S.EMPTY_TABLE
    && forall i | 0 <= i < |calls| :: SR.SqlDoes(ts[i], calls[i].op, calls[i].now, ts[i + 1], outs[i])
  }

  ghost predicate ClockRuns(calls: seq<Call>) {
    forall i | 0 <= i < |calls| :: calls[i].now != 0
  }

  /** No upsert carries a CreatedAt of its own. */
  ghost predicate NoIncomingCreatedAt(calls: seq<Call>) {
    forall i | 0 <= i < |calls| && calls[i].op.Create? && calls[i].op.record.Some? ::
      calls[i].op.record.value.createdAt == 0
  }

  /** The same domains with the same instances, ordered targets and update times. */
  ghost predicate SameRecords(a: Contents, b: Contents) {
    a.Keys == b.Keys && forall d | d in a :: a[d].(createdAt := 0) == b[d].(createdAt := 0)
  }

  lemma {:induction false} RedisRunRefines(ts: seq<RS.Tables>, calls: seq<Call>, outs: seq<Outcome>, i: nat)
    requires RedisRun(ts, calls, outs) && ClockRuns(calls) && i <= |calls|
    ensures R.TablesInv(ts[i])
    ensures i < |calls| ==>
              (R.ContentsOf(ts[i + 1]), outs[i]) == Apply(KeepIncoming, R.ContentsOf(ts[i]), calls[i].op, calls[i].now)
  {
    hide R.RedisDoes, R.TablesInv, R.ContentsOf, Apply;
    if i == 0 {
      R.NoTablesInv();
    } else {
      RedisRunRefines(ts, calls, outs, i - 1);
      R.RedisRefines(ts[i - 1], calls[i - 1].op, calls[i - 1].now, ts[i - 1 + 1], outs[i - 1]);
    }
    if i < |calls| {
      R.RedisRefines(ts[i], calls[i].op, calls[i].now, ts[i + 1], outs[i]);
    }
  }

  lemma {:induction false} SqlRunRefines(ts: seq<S.Table>, calls: seq<Call>, outs: seq<Outcome>, i: nat)
    requires SqlRun(ts, calls, outs) && ClockRuns(calls) && i <= |calls|
    ensures S.TableInv(ts[i].rows)
    ensures i < |calls| ==>
              (S.ContentsOf(ts[i + 1].rows), outs[i])
              == Apply(IgnoreIncoming, S.ContentsOf(ts[i].rows), calls[i].op, calls[i].now)
  {
    hide SR.SqlDoes, S.ContentsOf, Apply;
    if i == 0 {
      assert ts[0].rows == [];
    } else {
      SqlRunRefines(ts, calls, outs, i - 1);
      SR.SqlRefines(ts[i - 1], calls[i - 1].op, calls[i - 1].now, ts[i - 1 + 1], outs[i - 1]);
    }
    if i < |calls| {
      SR.SqlRefines(ts[i], calls[i].op, calls[i].now, ts[i + 1], outs[i]);
    }
  }

  /** One operation on maps that hold the same records. */
  lemma PoliciesAgree(a: Contents, b: Contents, op: Op, now: int)
    requires SameRecords(a, b)
    ensures SameRecords(Apply(KeepIncoming, a, op, now).0, Apply(IgnoreIncoming, b, op, now).0)
    ensures Apply(KeepIncoming, a, op, now).1 == Apply(IgnoreIncoming, b, op, now).1
    ensures a == b && (op.Create? && op.record.Some? ==> op.record.value.createdAt == 0) ==>
              Apply(KeepIncoming, a, op, now) == Apply(IgnoreIncoming, b, op, now)
  {
  }

  /** What the two contents have in common; equality when no upsert brings a CreatedAt. */
  ghost predicate Agree(calls: seq<Call>, a: Contents, b: Contents) {
    SameRecords(a, b) && (NoIncomingCreatedAt(calls) ==> a == b)
  }

  lemma AgreeStep(
      calls: seq<Call>, i: nat, a: Contents, b: Contents, a': Contents, b': Contents, ro: Outcome, so: Outcome)
    requires i < |calls| && Agree(calls, a, b)
    requires (a', ro) == Apply(KeepIncoming, a, calls[i].op, calls[i].now)
    requires (b', so) == Apply(IgnoreIncoming, b, calls[i].op, calls[i].now)
    ensures Agree(calls, a', b') && ro == so
  {
    hide Apply, SameRecords;
    PoliciesAgree(a, b, calls[i].op, calls[i].now);
  }

  lemma {:induction false} AgreeAt(
      rt: seq<RS.Tables>, st: seq<S.Table>, calls: seq<Call>, ro: seq<Outcome>, so: seq<Outcome>, i: nat)
    requires RedisRun(rt, calls, ro) && SqlRun(st, calls, so) && ClockRuns(calls) && i <= |calls|
    ensures Agree(calls, R.ContentsOf(rt[i]), S.ContentsOf(st[i].rows))
    ensures i > 0 ==> ro[i - 1] == so[i - 1]
  {
    if i == 0 {
      StartsEmpty();
    } else {
      hide R.RedisDoes, SR.SqlDoes, R.ContentsOf, S.ContentsOf, R.TablesInv, S.TableInv, Apply, Agree, ClockRuns;
      var n := i - 1;
      AgreeAt(rt, st, calls, ro, so, n);
      RedisRunRefines(rt, calls, ro, n);
      SqlRunRefines(st, calls, so, n);
      AgreeStep(calls, n, R.ContentsOf(rt[n]), S.ContentsOf(st[n].rows),
                R.ContentsOf(rt[n + 1]), S.ContentsOf(st[n + 1].rows), ro[n], so[n]);
    }
  }

  /** Backend agreement: any common sequence of operations gives the same outcomes and the same
      records after every step, and the same creation times too when no upsert brings its own. */
  lemma BackendsAgree(
      rt: seq<RS.Tables>, st: seq<S.Table>, calls: seq<Call>, ro: seq<Outcome>, so: seq<Outcome>, i: nat)
    requires RedisRun(rt, calls, ro) && SqlRun(st, calls, so) && ClockRuns(calls) && i <= |calls|
    ensures forall k | 0 <= k < i :: ro[k] == so[k]
    ensures SameRecords(R.ContentsOf(rt[i]), S.ContentsOf(st[i].rows))
    ensures NoIncomingCreatedAt(calls) ==> R.ContentsOf(rt[i]) == S.ContentsOf(st[i].rows)
  {
    hide R.RedisDoes, SR.SqlDoes, R.ContentsOf, S.ContentsOf, SameRecords, NoIncomingCreatedAt, ClockRuns;
    AgreeAt(rt, st, calls, ro, so, i);
    forall k | 0 <= k < i
      ensures ro[k] == so[k]
    {
      AgreeAt(rt, st, calls, ro, so, k + 1);
    }
  }

  lemma StartsEmpty()
    ensures R.ContentsOf(RS.NO_TABLES) == map[] && S.ContentsOf(S.EMPTY_TABLE.rows) == map[]
  {
  }

  /** The creation times part exactly at an upsert that brings a CreatedAt other than the one the SQL
      backend would keep or set. */
  lemma CreatedAtAgreesExactlyWhen(m: Contents, rec: Record, now: int)
    requires TrimSpace(rec.domain) != ""
    ensures Apply(KeepIncoming, m, Create(Some(rec)), now) == Apply(IgnoreIncoming, m, Create(Some(rec)), now)
            <==> rec.createdAt == 0 || rec.createdAt == (if rec.domain in m then m[rec.domain].createdAt else now)
  {
    hide TrimSpace;
    var a := Apply(KeepIncoming, m, Create(Some(rec)), now).0;
    var b := Apply(IgnoreIncoming, m, Create(Some(rec)), now).0;
    assert a == b ==> a[rec.domain] == b[rec.domain];
  }

  /** A run of the abstract repository. */
  ghost predicate AbstractRun(policy: Policy, ms: seq<Contents>, calls: seq<Call>) {
    && |ms| == |calls| + 1
    && forall i | 0 <= i < |calls| :: ms[i + 1] == Apply(policy, ms[i], calls[i].op, calls[i].now).0
  }

  /** An upsert of d that brings a CreatedAt of its own. */
  predicate BringsCreatedAt(call: Call, d: string) {
    call.op.Create? && call.op.record.Some? && call.op.record.value.domain == d && call.op.record.value.createdAt != 0
  }

  /** A domain keeps the creation time it has for as long as it stays stored and, where the policy honours
      one, no upsert of it brings its own, whatever upserts, moves and other deletions happen. */
  lemma {:induction false} CreatedAtKeptUntilDeletion(
      policy: Policy, ms: seq<Contents>, calls: seq<Call>, i: nat, j: nat, d: string)
    requires AbstractRun(policy, ms, calls) && i <= j <= |calls|
    requires policy == KeepIncoming ==> forall k | i <= k < j :: !BringsCreatedAt(calls[k], d)
    requires forall k | i <= k <= j :: d in ms[k]
    ensures ms[j][d].createdAt == ms[i][d].createdAt
  {
    hide TrimSpace;
    if i < j {
      CreatedAtKeptUntilDeletion(policy, ms, calls, i, j - 1, d);
      assert ms[j - 1 + 1] == Apply(policy, ms[j - 1], calls[j - 1].op, calls[j - 1].now).0;
    }
  }

  /** The Redis backend keeps it. */
  lemma RedisKeepsCreatedAt(
      ts: seq<RS.Tables>, calls: seq<Call>, outs: seq<Outcome>, i: nat, j: nat, d: string)
    requires RedisRun(ts, calls, outs) && ClockRuns(calls) && i <= j <= |calls|
    requires forall k | i <= k < j :: !BringsCreatedAt(calls[k], d)
    requires forall k | i <= k <= j :: d in R.ContentsOf(ts[k])
    ensures R.ContentsOf(ts[j])[d].createdAt == R.ContentsOf(ts[i])[d].createdAt
  {
    hide R.RedisDoes, R.TablesInv, R.ContentsOf, Apply;
    var ms := seq(|ts|, k requires 0 <= k < |ts| => R.ContentsOf(ts[k]));
    forall k | 0 <= k < |calls|
      ensures ms[k + 1] == Apply(KeepIncoming, ms[k], calls[k].op, calls[k].now).0
    {
      RedisRunRefines(ts, calls, outs, k);
    }
    CreatedAtKeptUntilDeletion(KeepIncoming, ms, calls, i, j, d);
  }

  /** The SQL backend keeps it even against upserts that bring their own. */
  lemma SqlKeepsCreatedAt(
      ts: seq<S.Table>, calls: seq<Call>, outs: seq<Outcome>, i: nat, j: nat, d: string)
    requires SqlRun(ts, calls, outs) && ClockRuns(calls) && i <= j <= |calls|
    requires forall k | i <= k <= j :: d in S.ContentsOf(ts[k].rows)
    ensures S.ContentsOf(ts[j].rows)[d].createdAt == S.ContentsOf(ts[i].rows)[d].createdAt
  {
    hide SR.SqlDoes, S.ContentsOf, S.TableInv, Apply;
    var ms := seq(|ts|, k requires 0 <= k < |ts| => S.ContentsOf(ts[k].rows));
    forall k | 0 <= k < |calls|
      ensures ms[k + 1] == Apply(IgnoreIncoming, ms[k], calls[k].op, calls[k].now).0
    {
      SqlRunRefines(ts, calls, outs, k);
    }
    CreatedAtKeptUntilDeletion(IgnoreIncoming, ms, calls, i, j, d);
  }
}
