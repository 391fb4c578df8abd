/** repository/sql/sql.go: the operations on the row table refine the abstract map, and every ordered
    selection groups back to it. */
module SqlRepository {
  import opened Text
  import opened Decimal
  import opened NetAddr
  import opened Records
  import opened Repository
  import opened SqlTable

  // ----- What the statements do to the rows of each domain -----

  lemma {:induction false} WhereImplied(rows: seq<Row>, p: Row -> bool, q: Row -> bool)
    requires forall r: Row :: q(r) ==> p(r)
    ensures Where(Where(rows, p), q) == Where(rows, q)
  {
    if rows != [] {
      var init, last := rows[..|rows| - 1], rows[|rows| - 1];
      WhereImplied(init, p, q);
      assert Where(rows, p) == if p(last) then Where(init, p) + [last] else Where(init, p);
      WhereSnoc(Where(init, p), last, q);
      assert Where(rows, q) == if q(last) then Where(init, q) + [last] else Where(init, q);
    }
  }

  /** Deleting a domain removes exactly its rows. */
  lemma DeleteRows(rows: seq<Row>, d: string, e: string)
    ensures DomainRows(Where(rows, DomainIsNot(d)), e) == if e == d then [] else DomainRows(rows, e)
  {
    if e == d {
      WhereKept(rows, DomainIsNot(d));
      WhereNone(Where(rows, DomainIsNot(d)), DomainIs(e));
    } else {
      WhereImplied(rows, DomainIsNot(d), DomainIs(e));
    }
  }

  function CreateRows(rows: seq<Row>, rec: Record, createdAt: int, now: int, id: nat): seq<Row> {
    Where(rows, DomainIsNot(rec.domain)) + NewRows(rec, createdAt, now, id)
  }

  lemma NewRowsDomain(rec: Record, createdAt: int, now: int, id: nat)
    ensures forall r | r in NewRows(rec, createdAt, now, id) :: r.domain == rec.domain
    ensures NewRows(rec, createdAt, now, id) != []
  {
    hide ShowAddr;
    NewRowsExplode(rec, createdAt, now, id);
    var ds := NewRows(rec, createdAt, now, id);
    assert forall k | 0 <= k < |ds| :: ds[k].domain == ds[k].(id := 0).domain;
  }

  /** Create leaves exactly the new rows for its domain and the old rows for every other. */
  lemma CreateRowsPerDomain(rows: seq<Row>, rec: Record, createdAt: int, now: int, id: nat, e: string)
    ensures DomainRows(CreateRows(rows, rec, createdAt, now, id), e)
         == if e == rec.domain then NewRows(rec, createdAt, now, id) else DomainRows(rows, e)
  {
    hide NewRows;
    var kept, added := Where(rows, DomainIsNot(rec.domain)), NewRows(rec, createdAt, now, id);
    WhereAppend(kept, added, DomainIs(e));
    DeleteRows(rows, rec.domain, e);
    NewRowsDomain(rec, createdAt, now, id);
    if e == rec.domain {
      WhereAll(added, DomainIs(e));
      assert [] + added == added;
    } else {
      WhereNone(added, DomainIs(e));
      assert DomainRows(rows, e) + [] == DomainRows(rows, e);
    }
  }

  /** All rows of a domain share the instance, so deleting an instance takes all of them or none. */
  lemma DeleteInstanceRows(rows: seq<Row>, i: int64, d: string)
    requires TableInv(rows)
    ensures DomainRows(Where(rows, InstanceIsNot(i)), d)
         == if DomainRows(rows, d) != [] && RecordOf(rows, d).instance == i then [] else DomainRows(rows, d)
  {
    hide ShowAddr;
    WhereCommutes(rows, InstanceIsNot(i), DomainIs(d));
    var ds := DomainRows(rows, d);
    if ds != [] {
      var r := RecordOf(rows, d);
      assert Explodes(ds, r);
      assert forall k | 0 <= k < |ds| :: ds[k].instance == ds[k].(id := 0).instance == r.instance;
      if r.instance == i {
        WhereNone(ds, InstanceIsNot(i));
      } else {
        WhereAll(ds, InstanceIsNot(i));
      }
    }
  }

  /** The rows of a domain determine its record. */
  lemma SameRowsSameRecord(a: seq<Row>, b: seq<Row>, d: string)
    requires DomainRows(a, d) == DomainRows(b, d)
    ensures GroupOf(a, d) == GroupOf(b, d) && (d in Domains(a) <==> d in Domains(b))
  {
    DomainHasRows(a, d);
    DomainHasRows(b, d);
  }

  lemma ExplodedRecord(rows: seq<Row>, d: string, r: Record)
    requires Explodes(DomainRows(rows, d), r) && r.domain == d
    ensures RecordOf(rows, d) == r.(id := 0) && d in Domains(rows)
  {
    hide RowTargets;
    GroupUndoesExplode(DomainRows(rows, d), r);
    DomainHasRows(rows, d);
  }

  lemma ExplodesIgnoresId(ds: seq<Row>, r: Record)
    requires Explodes(ds, r)
    ensures Explodes(ds, r.(id := 0))
  {
  }

  // ----- Each operation refines the abstract map -----

  /** The CreatedAt of the row that SELECT ... LIMIT 1 returned, or now when there is none; without an
      order that row can be any row of the domain. */
  ghost predicate IsExistingCreatedAt(rows: seq<Row>, d: string, now: int, createdAt: int) {
    if d in Domains(rows) then exists r :: r in rows && r.domain == d && createdAt == r.createdAt
    else createdAt == now
  }

  ghost predicate SqlDoes(t: Table, op: Op, now: int, t': Table, outcome: Outcome) {
    match op
    case Create(None) => t' == t && outcome == ErrRecordNil
    case Create(Some(rec)) =>
      if TrimSpace(rec.domain) == "" then t' == t && outcome == ErrDomainRequired
      else
        outcome == Done &&
        exists createdAt :: IsExistingCreatedAt(t.rows, rec.domain, now, createdAt) &&
          t'.rows == CreateRows(t.rows, rec, createdAt, now, t.nextId)
    case Delete(d) =>
      && t'.rows == Where(t.rows, DomainIsNot(d))
      && outcome == (if |t'.rows| == |t.rows| then ErrNotFound else Done)
    case DeleteByInstance(i) => t'.rows == Where(t.rows, InstanceIsNot(i)) && outcome == Done
  }

  /** All rows of a domain carry the CreatedAt of its record, so the unordered LIMIT 1 is harmless. */
  lemma AnyRowWillDo(rows: seq<Row>, rec: Record, now: int, createdAt: int)
    requires TableInv(rows) && IsExistingCreatedAt(rows, rec.domain, now, createdAt)
    ensures createdAt == CreatedAt(IgnoreIncoming, ContentsOf(rows), rec, now)
  {
    hide ShowAddr, GroupOf;
    var d := rec.domain;
    if d in Domains(rows) {
      var r :| r in rows && r.domain == d && createdAt == r.createdAt;
      DomainHasRows(rows, d);
      var ds := DomainRows(rows, d);
      var k :| 0 <= k < |ds| && ds[k] == r;
      assert ds[k].createdAt == ds[k].(id := 0).createdAt;
    }
  }

  /** Replacing the rows of a domain is an update of the map, whatever CreatedAt the transaction used. */
  lemma CreateContents(rows: seq<Row>, rec: Record, createdAt: int, now: int, id: nat)
    requires TableInv(rows) && createdAt != 0
    ensures var rows' := CreateRows(rows, rec, createdAt, now, id);
            && TableInv(rows')
            && ContentsOf(rows')
               == ContentsOf(rows)[rec.domain := rec.(createdAt := createdAt, updatedAt := now, id := 0)]
  {
    hide CreateRows, NewRows, GroupOf, DomainRows, Domains, Explodes;
    var rows' := CreateRows(rows, rec, createdAt, now, id);
    var d := rec.domain;
    forall e: string
      ensures DomainRows(rows', e) == if e == d then NewRows(rec, createdAt, now, id) else DomainRows(rows, e)
      ensures e != d ==> RecordOf(rows', e) == RecordOf(rows, e) && (e in Domains(rows') <==> e in Domains(rows))
      ensures e in Domains(rows) <==> DomainRows(rows, e) != []
    {
      CreateRowsPerDomain(rows, rec, createdAt, now, id, e);
      DomainHasRows(rows, e);
      if e != d {
        SameRowsSameRecord(rows', rows, e);
      }
    }
    var r := rec.(createdAt := createdAt, updatedAt := now);
    NewRowsExplode(rec, createdAt, now, id);
    ExplodedRecord(rows', d, r);
    ExplodesIgnoresId(DomainRows(rows', d), r);
  }

  lemma StoredTimes(rows: seq<Row>, d: string)
    requires TableInv(rows) && d in ContentsOf(rows)
    ensures ContentsOf(rows)[d].createdAt != 0
  {
    hide GroupOf, DomainRows, Explodes;
    DomainHasRows(rows, d);
  }

  lemma {:induction false} WhereLength(rows: seq<Row>, p: Row -> bool)
    ensures |Where(rows, p)| <= |rows|
    ensures |Where(rows, p)| == |rows| <==> forall r | r in rows :: p(r)
  {
    if rows != [] {
      var init, last := rows[..|rows| - 1], rows[|rows| - 1];
      WhereLength(init, p);
      assert rows == init + [last];
    }
  }

  lemma DeleteAffects(rows: seq<Row>, d: string)
    ensures |Where(rows, DomainIsNot(d))| == |rows| <==> d !in Domains(rows)
  {
    WhereLength(rows, DomainIsNot(d));
  }

  lemma DeleteRefines(rows: seq<Row>, d: string)
    requires TableInv(rows)
    ensures var rows' := Where(rows, DomainIsNot(d));
            && TableInv(rows') && ContentsOf(rows') == ContentsOf(rows) - {d}
            && (|rows'| == |rows| <==> d !in ContentsOf(rows))
  {
    hide GroupOf, DomainRows, Explodes, Domains, Where, DomainIsNot;
    DeleteAffects(rows, d);
    var rows' := Where(rows, DomainIsNot(d));
    forall e: string
      ensures DomainRows(rows', e) == if e == d then [] else DomainRows(rows, e)
      ensures e != d ==> RecordOf(rows', e) == RecordOf(rows, e) && (e in Domains(rows') <==> e in Domains(rows))
    {
      DeleteRows(rows, d, e);
      if e != d {
        SameRowsSameRecord(rows', rows, e);
      }
    }
    DomainHasRows(rows', d);
  }

  lemma DeleteInstanceRefines(rows: seq<Row>, i: int64)
    requires TableInv(rows)
    ensures var rows' := Where(rows, InstanceIsNot(i));
            TableInv(rows') && ContentsOf(rows') == RemoveInstance(ContentsOf(rows), i)
  {
    hide GroupOf, DomainRows, Domains, Explodes;
    var rows' := Where(rows, InstanceIsNot(i));
    forall e: string
      ensures DomainRows(rows', e)
           == if e in Domains(rows) && RecordOf(rows, e).instance == i then [] else DomainRows(rows, e)
      ensures DomainRows(rows', e) == DomainRows(rows, e) ==> RecordOf(rows', e) == RecordOf(rows, e)
      ensures e in Domains(rows) <==> DomainRows(rows, e) != []
      ensures e in Domains(rows') <==> DomainRows(rows', e) != []
    {
      DeleteInstanceRows(rows, i, e);
      DomainHasRows(rows, e);
      DomainHasRows(rows', e);
      if DomainRows(rows', e) == DomainRows(rows, e) {
        SameRowsSameRecord(rows', rows, e);
      }
    }
  }

  /** Every operation keeps the row invariant and does to the contents what the abstract operation
      does, with the same outcome. */
  lemma SqlRefines(t: Table, op: Op, now: int, t': Table, outcome: Outcome)
    requires TableInv(t.rows) && now != 0 && SqlDoes(t, op, now, t', outcome)
    ensures TableInv(t'.rows)
    ensures (ContentsOf(t'.rows), outcome) == Apply(IgnoreIncoming, ContentsOf(t.rows), op, now)
  {
    hide TableInv, ContentsOf, Where, CreateRows, IsExistingCreatedAt;
    match op
    case Create(None) =>
    case Create(Some(rec)) =>
      if TrimSpace(rec.domain) != "" {
        var createdAt :| IsExistingCreatedAt(t.rows, rec.domain, now, createdAt)
                         && t'.rows == CreateRows(t.rows, rec, createdAt, now, t.nextId);
        AnyRowWillDo(t.rows, rec, now, createdAt);
        if rec.domain in ContentsOf(t.rows) {
          StoredTimes(t.rows, rec.domain);
        }
        CreateContents(t.rows, rec, createdAt, now, t.nextId);
      }
    case Delete(d) =>
      DeleteRefines(t.rows, d);
      assert d !in ContentsOf(t.rows) ==> ContentsOf(t.rows) - {d} == ContentsOf(t.rows);
    case DeleteByInstance(i) =>
      DeleteInstanceRefines(t.rows, i);
  }

  // ----- SELECT ... ORDER BY domain, priority, and its inverse -----

  /** How the database compares texts; equal to it may be texts that differ. */
  datatype Collation = Collation(atMost: (string, string) -> bool) {
    ghost predicate Valid() {
      && (forall a, b :: atMost(a, b) || atMost(b, a))
      && (forall a, b, c :: atMost(a, b) && atMost(b, c) ==> atMost(a, c))
    }
  }

  type ValidCollation = c: Collation | c.Valid()
    witness Collation((a, b) => true)

  /** Deliberately without a value: every theorem holds for whatever collation this is. */
  const COLLATION: ValidCollation

  /** ORDER BY domain, priority. */
  predicate ComesFirst(a: Row, b: Row) {
    && COLLATION.atMost(a.domain, b.domain)
    && (COLLATION.atMost(b.domain, a.domain) ==> a.priority <= b.priority)
  }

  /** An answer of the ordered SELECT: the rows, each as often as it is in the table, in that order. */
  ghost predicate IsSelection(rows: seq<Row>, models: seq<Row>) {
    && multiset(models) == multiset(rows)
    && forall i, j | 0 <= i < j < |models| :: ComesFirst(models[i], models[j])
  }

  ghost predicate InPriorityOrder(models: seq<Row>) {
    forall i, j | 0 <= i < j < |models| && models[i].domain == models[j].domain ::
      models[i].priority <= models[j].priority
  }

  /** Whatever the collation, the rows of one domain come in the order of their priorities. */
  lemma SelectionInPriorityOrder(rows: seq<Row>, models: seq<Row>)
    requires IsSelection(rows, models)
    ensures InPriorityOrder(models)
  {
    forall i, j | 0 <= i < j < |models| && models[i].domain == models[j].domain
      ensures models[i].priority <= models[j].priority
    {
      assert ComesFirst(models[i], models[j]);
      assert COLLATION.atMost(models[i].domain, models[j].domain);
    }
  }

  ghost predicate Ascending(s: seq<Row>) {
    forall i, j | 0 <= i < j < |s| :: s[i].priority <= s[j].priority
  }

  /** Priorities n, n+1, and so on. */
  ghost predicate Numbered(s: seq<Row>, n: nat) {
    forall k | 0 <= k < |s| :: s[k].priority == n + k
  }

  lemma Tails(a: seq<Row>, b: seq<Row>, n: nat)
    requires a != [] && b != [] && Ascending(a) && Numbered(b, n)
    ensures Ascending(a[1..]) && Numbered(b[1..], n + 1)
  {
    assert forall k | 0 <= k < |b[1..]| :: b[1..][k] == b[1 + k];
    assert forall k | 0 <= k < |a[1..]| :: a[1..][k] == a[1 + k];
  }

  lemma {:induction false} WhereAscending(models: seq<Row>, d: string)
    requires InPriorityOrder(models)
    ensures Ascending(DomainRows(models, d))
  {
    if models != [] {
      var init, last := models[..|models| - 1], models[|models| - 1];
      WhereAscending(init, d);
      DomainHasRows(init, d);
      var ds := DomainRows(init, d);
      if last.domain == d {
        forall i | 0 <= i < |ds|
          ensures ds[i].priority <= last.priority
        {
          assert ds[i] in ds;
          var k :| 0 <= k < |init| && init[k] == ds[i];
          assert models[k] == ds[i];
        }
      }
    }
  }

  lemma SameBag(a: seq<Row>, b: seq<Row>, r: Row)
    requires multiset(a) == multiset(b) && r in a
    ensures exists k | 0 <= k < |b| :: b[k] == r
  {
    assert r in multiset(a);
    assert r in multiset(b);
  }

  lemma AscendingHead(a: seq<Row>, b: seq<Row>, n: nat)
    requires multiset(a) == multiset(b) && a != [] && b != [] && Ascending(a)
    requires Numbered(b, n)
    ensures a[0] == b[0]
  {
    SameBag(b, a, b[0]);
    var i :| 0 <= i < |a| && a[i] == b[0];
    SameBag(a, b, a[0]);
    var k :| 0 <= k < |b| && b[k] == a[0];
    assert a[0].priority <= a[i].priority == n;
  }

  lemma TailBag(s: seq<Row>)
    requires s != []
    ensures multiset(s[1..]) == multiset(s) - multiset{s[0]}
  {
    assert s == [s[0]] + s[1..];
  }

  /** Such priorities fix the order. */
  lemma {:induction false} AscendingUnique(a: seq<Row>, b: seq<Row>, n: nat)
    requires multiset(a) == multiset(b) && Ascending(a)
    requires Numbered(b, n)
    ensures a == b
    decreases |b|
  {
    hide Ascending, Numbered;
    assert |a| == |multiset(a)| == |multiset(b)| == |b|;
    if b != [] {
      AscendingHead(a, b, n);
      TailBag(a);
      TailBag(b);
      Tails(a, b, n);
      AscendingUnique(a[1..], b[1..], n + 1);
      assert a == [a[0]] + a[1..] && b == [a[0]] + b[1..];
    }
  }

  lemma SelectionPerDomain(rows: seq<Row>, models: seq<Row>, d: string)
    requires TableInv(rows) && IsSelection(rows, models)
    ensures DomainRows(models, d) == DomainRows(rows, d)
  {
    hide ShowAddr, GroupOf;
    var a, b := DomainRows(models, d), DomainRows(rows, d);
    forall r: Row
      ensures multiset(a)[r] == multiset(b)[r]
    {
      WhereMultiset(models, DomainIs(d), r);
      WhereMultiset(rows, DomainIs(d), r);
    }
    assert multiset(a) == multiset(b);
    SelectionInPriorityOrder(rows, models);
    WhereAscending(models, d);
    assert forall k | 0 <= k < |b| :: b[k].priority == b[k].(id := 0).priority == k;
    AscendingUnique(a, b, 0);
  }

  function WithoutIds(rs: seq<Record>): seq<Record> {
    seq(|rs|, i requires 0 <= i < |rs| => rs[i].(id := 0))
  }

  /** Whatever order of domains the database picks, grouping the selected rows lists exactly the
      abstract records, targets in order. */
  lemma GroupingInvertsExplosion(rows: seq<Row>, models: seq<Row>)
    requires TableInv(rows) && IsSelection(rows, models)
    ensures Lists(ContentsOf(rows), WithoutIds(Group(models)))
  {
    hide DomainRows, GroupOf, Domains, Explodes;
    FirstSeenShape(models);
    var order, rs := FirstSeen(models), WithoutIds(Group(models));
    forall d: string
      ensures d in Domains(models) <==> d in Domains(rows)
      ensures GroupOf(models, d) == GroupOf(rows, d)
    {
      SelectionPerDomain(rows, models, d);
      SameRowsSameRecord(models, rows, d);
    }
    forall k | 0 <= k < |order|
      ensures order[k] in Domains(rows) && rs[k] == RecordOf(rows, order[k]) && rs[k].domain == order[k]
    {
      assert order[k] in order;
      GroupDomain(models, order[k]);
    }
    forall d | d in ContentsOf(rows)
      ensures ContentsOf(rows)[d] in rs
    {
      assert d in order;
      var k :| 0 <= k < |order| && order[k] == d;
      assert rs[k] in rs;
    }
  }

  /** The records are listed in the order of their domains under the collation of the database. */
  lemma GroupsAscend(rows: seq<Row>, models: seq<Row>, i: nat, j: nat)
    requires IsSelection(rows, models) && i < j < |Group(models)|
    ensures COLLATION.atMost(Group(models)[i].domain, Group(models)[j].domain)
  {
    hide GroupOf, Domains;
    var a := GroupsInRowOrder(models, i, j);
    FirstSeenShape(models);
    GroupDomain(models, FirstSeen(models)[j]);
    assert FirstSeen(models)[j] in FirstSeen(models);
    var b := RowOf(models, FirstSeen(models)[j]);
    assert ComesFirst(models[a], models[b]);
  }

  ghost predicate HasFirstRowId(rows: seq<Row>, g: Record) {
    exists r :: r in rows && r.domain == g.domain && r.priority == 0 && r.id == g.id
  }

  /** A listed record has the id of its row with priority 0. */
  lemma ListedId(rows: seq<Row>, models: seq<Row>, k: nat)
    requires TableInv(rows) && IsSelection(rows, models) && k < |Group(models)|
    ensures var g := Group(models)[k];
            exists r :: r in rows && r.domain == g.domain && r.priority == 0 && r.id == g.id
  {
    hide ShowAddr, RowTargets, IsSelection;
    FirstSeenShape(models);
    var d := FirstSeen(models)[k];
    assert d in FirstSeen(models);
    SelectionPerDomain(rows, models, d);
    DomainHasRows(models, d);
    FirstRowOfRecord(rows, d);
    assert Group(models)[k].id == DomainRows(rows, d)[0].id;
  }

  lemma FirstRowOfRecord(rows: seq<Row>, d: string)
    requires TableInv(rows) && DomainRows(rows, d) != []
    ensures var r := DomainRows(rows, d)[0]; r in rows && r.domain == d && r.priority == 0
  {
    hide ShowAddr, GroupOf;
    DomainHasRows(rows, d);
    var ds := DomainRows(rows, d);
    assert ds[0] in ds && ds[0].priority == ds[0].(id := 0).priority;
  }

  lemma GroupDomain(models: seq<Row>, d: string)
    ensures GroupOf(models, d).domain == d
  {
  }

  // ----- The repository object -----

  class SqlRepository {
    var table: Table

    ghost predicate Valid()
      reads this
    {
      TableInv(table.rows)
    }

    constructor ()
      ensures Valid() && ContentsOf(table.rows) == map[]
    {
      table := EMPTY_TABLE;
    }

    /** existing is the row that SELECT ... LIMIT 1 returned inside the transaction, if any; a SELECT that
        fails counts as none.  An error inside the transaction rolls it back. */
    method Create(record: Option<Record>, now: int, existing: Option<Row>, selectFails: bool, fault: Fault)
      returns (outcome: Outcome)
      requires Valid() && now != 0
      requires record.Some? && existing.None? ==> record.value.domain !in Domains(table.rows)
      requires record.Some? && existing.Some? ==>
                 existing.value in table.rows && existing.value.domain == record.value.domain
      modifies this
      ensures Valid()
      ensures !selectFails && fault == NoFault ==> SqlDoes(old(table), Op.Create(record), now, table, outcome)
      ensures !selectFails ==>
                (ContentsOf(table.rows), outcome)
                == Attempt(IgnoreIncoming, old(ContentsOf(table.rows)), Op.Create(record), now, fault)
      ensures selectFails && !IsRefused(Op.Create(record)) ==>
                var m, d := old(ContentsOf(table.rows)), record.value.domain;
                && outcome == (if fault == NoFault then Done else ErrIO)
                && ContentsOf(table.rows)
                   == if fault == FailsBefore then m
                      else m[d := Stamp(IgnoreIncoming, m - {d}, record.value, now)]
      ensures IsRefused(Op.Create(record)) ==> table == old(table) && outcome in {ErrRecordNil, ErrDomainRequired}
    {
      hide ContentsOf, TableInv, TrimSpace, Where;
      ghost var before := table;
      if record.None? {
        return ErrRecordNil;
      }
      var rec := record.value;
      if TrimSpace(rec.domain) == "" {
        return ErrDomainRequired;
      }
      var createdAt := now;
      if existing.Some? && !selectFails {
        createdAt := existing.value.createdAt;
      }
      UsedTime(before.rows, rec, now, existing, selectFails, createdAt);
      CreateContents(before.rows, rec, createdAt, now, before.nextId);
      if fault == FailsBefore {
        return ErrIO;
      }
      table := InsertRows(Table(Where(table.rows, DomainIsNot(rec.domain)), table.nextId), rec, createdAt, now);
      assert table.rows == CreateRows(before.rows, rec, createdAt, now, before.nextId);
      return if fault == NoFault then Done else ErrIO;
    }

    /** The CreatedAt that the transaction uses. */
    static lemma UsedTime(
        rows: seq<Row>, rec: Record, now: int, existing: Option<Row>, selectFails: bool, createdAt: int)
      requires TableInv(rows) && now != 0
      requires existing.None? ==> rec.domain !in Domains(rows)
      requires existing.Some? ==> existing.value in rows && existing.value.domain == rec.domain
      requires createdAt == if existing.Some? && !selectFails then existing.value.createdAt else now
      ensures createdAt != 0
      ensures !selectFails ==> IsExistingCreatedAt(rows, rec.domain, now, createdAt)
      ensures var seen := if selectFails then ContentsOf(rows) - {rec.domain} else ContentsOf(rows);
              createdAt == CreatedAt(IgnoreIncoming, seen, rec, now)
    {
      hide ContentsOf, TableInv;
      if !selectFails {
        assert IsExistingCreatedAt(rows, rec.domain, now, createdAt) by {
          if existing.Some? {
            assert rec.domain in Domains(rows);
          }
        }
        AnyRowWillDo(rows, rec, now, createdAt);
        if rec.domain in ContentsOf(rows) {
          StoredTimes(rows, rec.domain);
        }
      }
    }

    /** The insert statements of the transaction. */
    method InsertRows(t: Table, rec: Record, createdAt: int, now: int) returns (t': Table)
      ensures t'.rows == t.rows + NewRows(rec, createdAt, now, t.nextId)
    {
      hide ShowAddr;
      if |rec.targets| == 0 {
        return Table(t.rows + [Row(t.nextId, rec.domain, "", 0, 0, rec.instance, createdAt, now)], t.nextId + 1);
      }
      t' := t;
      for i := 0 to |rec.targets|
        invariant t'.nextId == t.nextId + i
        invariant t'.rows == t.rows + TargetRows(rec, createdAt, now, t.nextId, i)
      {
        var tp := rec.targets[i];
        var m := Row(t'.nextId, rec.domain, ShowAddr(tp.addr), tp.port, i, rec.instance, createdAt, now);
        assert t'.rows + [m] == t.rows + (TargetRows(rec, createdAt, now, t.nextId, i) + [m]);
        t' := Table(t'.rows + [m], t'.nextId + 1);
      }
    }

    method Delete(domain: string, fault: Fault) returns (outcome: Outcome)
      requires Valid()
      modifies this
      ensures Valid()
      ensures (ContentsOf(table.rows), outcome)
           == Attempt(IgnoreIncoming, old(ContentsOf(table.rows)), Op.Delete(domain), 0, fault)
    {
      hide ContentsOf, TableInv, Where;
      if fault == FailsBefore {
        return ErrIO;
      }
      DeleteRefines(table.rows, domain);
      var rest := Where(table.rows, DomainIsNot(domain));
      var affected := |table.rows| - |rest|;
      assert affected == 0 ==> ContentsOf(table.rows) - {domain} == ContentsOf(table.rows);
      table := table.(rows := rest);
      if fault == FailsAfter {
        return ErrIO;
      }
      return if affected == 0 then ErrNotFound else Done;
    }

    method DeleteByInstanceID(instanceID: int64, fault: Fault) returns (outcome: Outcome)
      requires Valid()
      modifies this
      ensures Valid()
      ensures (ContentsOf(table.rows), outcome)
           == Attempt(IgnoreIncoming, old(ContentsOf(table.rows)), DeleteByInstance(instanceID), 0, fault)
    {
      hide ContentsOf, TableInv, Where;
      if fault == FailsBefore {
        return ErrIO;
      }
      DeleteInstanceRefines(table.rows, instanceID);
      table := table.(rows := Where(table.rows, InstanceIsNot(instanceID)));
      return if fault == FailsAfter then ErrIO else Done;
    }

    /** models is the answer of the ordered SELECT. */
    method Find(models: seq<Row>, fails: bool) returns (found: Option<seq<Record>>)
      requires Valid() && IsSelection(table.rows, models)
      ensures found.None? <==> fails
      ensures found.Some? ==>
                && Lists(ContentsOf(table.rows), WithoutIds(found.value))
                && (forall i, j | 0 <= i < j < |found.value| ::
                      COLLATION.atMost(found.value[i].domain, found.value[j].domain))
                && (forall k | 0 <= k < |found.value| :: HasFirstRowId(table.rows, found.value[k]))
    {
      hide TableInv, IsSelection, ContentsOf, Group, Lists;
      if fails {
        return None;
      }
      var rs := GroupModels(models);
      GroupingInvertsExplosion(table.rows, models);
      forall i, j | 0 <= i < j < |rs|
        ensures COLLATION.atMost(rs[i].domain, rs[j].domain)
      {
        GroupsAscend(table.rows, models, i, j);
      }
      forall k | 0 <= k < |rs|
        ensures HasFirstRowId(table.rows, rs[k])
      {
        ListedId(table.rows, models, k);
      }
      return Some(rs);
    }

    /** models is the answer of the SELECT for one domain, ordered by priority. */
    method FindByDomain(domain: string, models: seq<Row>, fails: bool) returns (found: Answer<Record>)
      requires Valid() && IsSelection(DomainRows(table.rows, domain), models)
      ensures found == Failed <==> fails
      ensures !fails ==> (found == Missing <==> domain !in ContentsOf(table.rows))
      ensures found.Got? ==> found.value.(id := 0) == ContentsOf(table.rows)[domain]
    {
      if fails {
        return Failed;
      }
      OneDomainSelected(table.rows, models, domain);
      if |models| == 0 {
        return Missing;
      }
      var groups := GroupModels(models);
      return Got(groups[0]);
    }
  }

  lemma OneDomainSelected(rows: seq<Row>, models: seq<Row>, d: string)
    requires TableInv(rows) && IsSelection(DomainRows(rows, d), models)
    ensures models == [] <==> d !in Domains(rows)
    ensures models != [] ==> |Group(models)| > 0 && Group(models)[0].(id := 0) == RecordOf(rows, d)
  {
    hide ShowAddr, RowTargets;
    var ds := DomainRows(rows, d);
    DomainHasRows(rows, d);
    assert |models| == |multiset(models)| == |multiset(ds)| == |ds|;
    if ds != [] {
      forall r | r in models
        ensures r.domain == d
      {
        assert r in multiset(models) && r in multiset(ds);
      }
      assert forall k | 0 <= k < |ds| :: ds[k].priority == ds[k].(id := 0).priority == k;
      AscendingUnique(models, ds, 0);
      WhereAll(models, DomainIs(d));
      SameRowsSameRecord(models, rows, d);
      FirstSeenOne(models, d);
    }
  }

  lemma {:induction false} FirstSeenOne(models: seq<Row>, d: string)
    requires models != [] && forall r | r in models :: r.domain == d
    ensures FirstSeen(models) == [d]
  {
    var init := models[..|models| - 1];
    if init != [] {
      FirstSeenOne(init, d);
    } else {
      assert FirstSeen(init) == [];
    }
  }
}
