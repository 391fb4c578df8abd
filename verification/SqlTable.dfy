/** repository/sql/sql.go: records exploded into one row per target, and grouped back. */
module SqlTable {
  import opened Decimal
  import opened NetAddr
  import opened Records
  import opened Repository

  datatype Row = Row(
    id: nat, domain: string, ip: string, port: u16, priority: nat, instance: int64, createdAt: int, updatedAt: int)

  datatype Table = Table(rows: seq<Row>, nextId: nat)

  const EMPTY_TABLE := Table([], 1)

  function Domains(rows: seq<Row>): set<string> {
    set r | r in rows :: r.domain
  }

  // ----- WHERE -----

  function Where(rows: seq<Row>, p: Row -> bool): seq<Row> {
    if rows == [] then []
    else Where(rows[..|rows| - 1], p) + (if p(rows[|rows| - 1]) then [rows[|rows| - 1]] else [])
  }

  function DomainIs(d: string): Row -> bool {
    (r: Row) => r.domain == d
  }

  function DomainIsNot(d: string): Row -> bool {
    (r: Row) => r.domain != d
  }

  function InstanceIsNot(i: int64): Row -> bool {
    (r: Row) => r.instance != i
  }

  function DomainRows(rows: seq<Row>, d: string): seq<Row> {
    Where(rows, DomainIs(d))
  }

  lemma WhereSnoc(rows: seq<Row>, r: Row, p: Row -> bool)
    ensures Where(rows + [r], p) == Where(rows, p) + (if p(r) then [r] else [])
  {
  }

  lemma {:induction false} WhereAppend(a: seq<Row>, b: seq<Row>, p: Row -> bool)
    ensures Where(a + b, p) == Where(a, p) + Where(b, p)
  {
    if b == [] {
      assert a + b == a;
    } else {
      hide Where;
      var init, last := b[..|b| - 1], b[|b| - 1];
      WhereAppend(a, init, p);
      WhereSnoc(init, last, p);
      WhereSnoc(a + init, last, p);
      assert b == init + [last] && a + b == a + init + [last];
    }
  }

  lemma {:induction false} WhereKept(rows: seq<Row>, p: Row -> bool)
    ensures forall r | r in Where(rows, p) :: p(r) && r in rows
    ensures forall r | r in rows && p(r) :: r in Where(rows, p)
  {
    if rows != [] {
      WhereKept(rows[..|rows| - 1], p);
      assert rows == rows[..|rows| - 1] + [rows[|rows| - 1]];
    }
  }

  lemma {:induction false} WhereAll(rows: seq<Row>, p: Row -> bool)
    requires forall r | r in rows :: p(r)
    ensures Where(rows, p) == rows
  {
    if rows != [] {
      var init, last := rows[..|rows| - 1], rows[|rows| - 1];
      assert rows == init + [last];
      assert forall r | r in init :: r in rows;
      WhereAll(init, p);
      WhereSnoc(init, last, p);
    }
  }

  lemma {:induction false} WhereNone(rows: seq<Row>, p: Row -> bool)
    requires forall r | r in rows :: !p(r)
    ensures Where(rows, p) == []
  {
    if rows != [] {
      WhereNone(rows[..|rows| - 1], p);
    }
  }

  lemma {:induction false} WhereCommutes(rows: seq<Row>, p: Row -> bool, q: Row -> bool)
    ensures Where(Where(rows, p), q) == Where(Where(rows, q), p)
  {
    if rows != [] {
      var init, last := rows[..|rows| - 1], rows[|rows| - 1];
      WhereCommutes(init, p, q);
      assert Where(rows, p) == if p(last) then Where(init, p) + [last] else Where(init, p);
      assert Where(rows, q) == if q(last) then Where(init, q) + [last] else Where(init, q);
      WhereSnoc(Where(init, p), last, q);
      WhereSnoc(Where(init, q), last, p);
    }
  }

  lemma {:induction false} WhereMultiset(rows: seq<Row>, p: Row -> bool, r: Row)
    ensures multiset(Where(rows, p))[r] == if p(r) then multiset(rows)[r] else 0
  {
    if rows != [] {
      WhereMultiset(rows[..|rows| - 1], p, r);
      assert rows == rows[..|rows| - 1] + [rows[|rows| - 1]];
    }
  }

  lemma DomainHasRows(rows: seq<Row>, d: string)
    ensures d in Domains(rows) <==> DomainRows(rows, d) != []
    ensures forall r | r in DomainRows(rows, d) :: r.domain == d && r in rows
    ensures forall r | r in rows && r.domain == d :: r in DomainRows(rows, d)
  {
    WhereKept(rows, DomainIs(d));
    if d in Domains(rows) {
      var r :| r in rows && r.domain == d;
      assert r in DomainRows(rows, d);
    }
    if DomainRows(rows, d) != [] {
      assert DomainRows(rows, d)[0] in DomainRows(rows, d);
    }
  }

  // ----- Rows of a record, and a record of rows -----

  /** The rows of one record, ids aside: one empty-IP row for an empty target list, else one row per
      target with priorities 0, 1, and so on, all sharing instance and times. */
  ghost predicate Explodes(ds: seq<Row>, r: Record) {
    && |ds| == (if r.targets == [] then 1 else |r.targets|)
    && forall k | 0 <= k < |ds| ::
         ds[k].(id := 0) == Row(0, r.domain,
                                if r.targets == [] then "" else ShowAddr(r.targets[k].addr),
                                if r.targets == [] then 0 else r.targets[k].port,
                                k, r.instance, r.createdAt, r.updatedAt)
  }

  function TargetRow(rec: Record, createdAt: int, now: int, id: nat, i: nat): Row
    requires i < |rec.targets|
  {
    Row(id, rec.domain, ShowAddr(rec.targets[i].addr), rec.targets[i].port, i, rec.instance, createdAt, now)
  }

  function TargetRows(rec: Record, createdAt: int, now: int, id: nat, n: nat): (rows: seq<Row>)
    requires n <= |rec.targets|
    ensures |rows| == n
  {
    if n == 0 then []
    else TargetRows(rec, createdAt, now, id, n - 1) + [TargetRow(rec, createdAt, now, id + n - 1, n - 1)]
  }

  /** The rows Create inserts. */
  function NewRows(rec: Record, createdAt: int, now: int, id: nat): seq<Row> {
    if rec.targets == [] then [Row(id, rec.domain, "", 0, 0, rec.instance, createdAt, now)]
    else TargetRows(rec, createdAt, now, id, |rec.targets|)
  }

  lemma {:induction false} TargetRowsAt(rec: Record, createdAt: int, now: int, id: nat, n: nat, k: nat)
    requires k < n <= |rec.targets|
    ensures TargetRows(rec, createdAt, now, id, n)[k] == TargetRow(rec, createdAt, now, id + k, k)
  {
    if k < n - 1 {
      TargetRowsAt(rec, createdAt, now, id, n - 1, k);
    }
  }

  lemma NewRowsExplode(rec: Record, createdAt: int, now: int, id: nat)
    ensures Explodes(NewRows(rec, createdAt, now, id), rec.(createdAt := createdAt, updatedAt := now))
  {
    hide ShowAddr;
    forall k | 0 <= k < |rec.targets|
      ensures NewRows(rec, createdAt, now, id)[k] == TargetRow(rec, createdAt, now, id + k, k)
    {
      TargetRowsAt(rec, createdAt, now, id, |rec.targets|, k);
    }
  }

  /** The target of a row, if it has a readable one. */
  function RowTarget(m: Row): seq<AddrPort> {
    if m.ip == "" then []
    else
      match ParseAddr(m.ip)
      case Some(addr) => [AddrPort(addr, m.port)]
      case None => []
  }

  function RowTargets(ds: seq<Row>): seq<AddrPort> {
    if ds == [] then [] else RowTargets(ds[..|ds| - 1]) + RowTarget(ds[|ds| - 1])
  }

  /** The record groupModels makes of the rows of one domain. */
  function GroupOf(models: seq<Row>, d: string): Record {
    var ds := DomainRows(models, d);
    if ds == [] then Record(d, 0, [], 0, 0, 0)
    else Record(d, ds[0].instance, RowTargets(ds), ds[0].createdAt, ds[0].updatedAt, ds[0].id)
  }

  /** The domains in the order of their first rows. */
  function FirstSeen(models: seq<Row>): seq<string> {
    if models == [] then []
    else
      var init, d := FirstSeen(models[..|models| - 1]), models[|models| - 1].domain;
      if d in init then init else init + [d]
  }

  function Group(models: seq<Row>): seq<Record> {
    seq(|FirstSeen(models)|, i requires 0 <= i < |FirstSeen(models)| => GroupOf(models, FirstSeen(models)[i]))
  }

  lemma {:induction false} FirstSeenShape(models: seq<Row>)
    ensures forall i, j | 0 <= i < j < |FirstSeen(models)| :: FirstSeen(models)[i] != FirstSeen(models)[j]
    ensures forall d :: d in FirstSeen(models) <==> d in Domains(models)
  {
    if models != [] {
      var init, last := models[..|models| - 1], models[|models| - 1];
      FirstSeenShape(init);
      assert models == init + [last];
      forall d
        ensures d in Domains(models) <==> d in Domains(init) || d == last.domain
      {
        if d in Domains(init) {
          var r :| r in init && r.domain == d;
          assert r in models;
        }
      }
    }
  }

  lemma RowOf(models: seq<Row>, d: string) returns (b: nat)
    requires d in Domains(models)
    ensures b < |models| && models[b].domain == d
  {
    var r :| r in models && r.domain == d;
    b :| b < |models| && models[b] == r;
  }

  lemma NotYetSeen(models: seq<Row>, d: string)
    ensures d !in FirstSeen(models) ==> forall b | 0 <= b < |models| :: models[b].domain != d
  {
    hide FirstSeen;
    FirstSeenShape(models);
    forall b | 0 <= b < |models|
      ensures models[b].domain in Domains(models)
    {
      assert models[b] in models;
    }
  }

  /** The groups come in the order of their first rows: the first row of an earlier group stands before every
      row of a later one. */
  lemma {:induction false} GroupsInRowOrder(models: seq<Row>, i: nat, j: nat) returns (a: nat)
    requires i < j < |Group(models)|
    ensures a < |models| && models[a].domain == Group(models)[i].domain
    ensures forall b | 0 <= b < |models| && models[b].domain == Group(models)[j].domain :: a < b
  {
    hide DomainRows;
    var init := models[..|models| - 1];
    if j < |FirstSeen(init)| {
      a := GroupsInRowOrder(init, i, j);
      assert forall b | 0 <= b < |init| :: init[b] == models[b];
    } else {
      FirstSeenShape(init);
      assert FirstSeen(init)[i] in FirstSeen(init);
      a := RowOf(init, FirstSeen(init)[i]);
      NotYetSeen(init, models[|models| - 1].domain);
    }
  }

  /** A new group, and a group with the target of one more row. */
  function Open(m: Row): Record {
    Record(m.domain, m.instance, [], m.createdAt, m.updatedAt, m.id)
  }

  function Extend(r: Record, m: Row): Record {
    r.(targets := r.targets + RowTarget(m))
  }

  function GroupWith(models: seq<Row>, m: Row, d: string): Record {
    if d != m.domain then GroupOf(models, d)
    else Extend(if d in Domains(models) then GroupOf(models, d) else Open(m), m)
  }

  lemma GroupStep(models: seq<Row>, m: Row, d: string)
    ensures GroupOf(models + [m], d) == GroupWith(models, m, d)
  {
    hide RowTarget;
    WhereSnoc(models, m, DomainIs(d));
    DomainHasRows(models, d);
    var ds := DomainRows(models, d);
    if d == m.domain {
      assert (ds + [m])[..|ds|] == ds;
      assert RowTargets(ds + [m]) == RowTargets(ds) + RowTarget(m);
      assert RowTargets([]) == [];
    } else {
      assert DomainRows(models + [m], d) == ds;
    }
  }

  /** groupModels: one pass that opens a group at the first row of a domain and appends targets to it,
      and one that lists the groups in order. */
  method GroupModels(models: seq<Row>) returns (res: seq<Record>)
    ensures res == Group(models)
  {
    hide ParseAddr, GroupOf, DomainRows, Domains;
    var groups: map<string, Record> := map[];
    var order: seq<string> := [];
    for i := 0 to |models|
      invariant order == FirstSeen(models[..i])
      invariant forall d :: d in groups <==> d in order
      invariant forall d | d in groups :: groups[d] == GroupOf(models[..i], d)
    {
      var m := models[i];
      assert models[..i + 1] == models[..i] + [m] && models[..i + 1][..i] == models[..i];
      FirstSeenShape(models[..i]);
      forall d
        ensures GroupOf(models[..i + 1], d) == GroupWith(models[..i], m, d)
      {
        GroupStep(models[..i], m, d);
      }
      assert m.domain in groups <==> m.domain in Domains(models[..i]);
      if m.domain !in groups {
        groups := groups[m.domain := Open(m)];
        order := order + [m.domain];
      }
      var g := groups[m.domain];
      if m.ip != "" {
        var addr := ParseAddr(m.ip);
        if addr.Some? {
          groups := groups[m.domain := g.(targets := g.targets + [AddrPort(addr.value, m.port)])];
        }
      }
      assert groups[m.domain] == Extend(g, m) by {
        assert g.targets + [] == g.targets;
      }
      assert forall d | d in groups :: groups[d] == GroupWith(models[..i], m, d);
    }
    assert models[..|models|] == models;
    res := [];
    for i := 0 to |order|
      invariant |res| == i
      invariant forall k | 0 <= k < i :: res[k] == GroupOf(models, order[k])
    {
      assert order[i] in order;
      res := res + [groups[order[i]]];
    }
  }

  // ----- The table invariant and the contents -----

  function RecordOf(rows: seq<Row>, d: string): Record {
    GroupOf(rows, d).(id := 0)
  }

  function ContentsOf(rows: seq<Row>): Contents {
    map d | d in Domains(rows) :: RecordOf(rows, d)
  }

  /** Per domain, no row or exactly the rows of one record with a creation time. */
  ghost predicate TableInv(rows: seq<Row>) {
    forall d: string | DomainRows(rows, d) != [] ::
      Explodes(DomainRows(rows, d), RecordOf(rows, d)) && RecordOf(rows, d).createdAt != 0
  }

  lemma RowTargetBack(m: Row, tp: AddrPort)
    requires m.ip == ShowAddr(tp.addr) && m.port == tp.port
    ensures RowTarget(m) == [tp]
  {
    AddrAlphabet(tp.addr);
    AddrRoundTrip(tp.addr);
  }

  lemma {:induction false} RowTargetsBack(ds: seq<Row>, tps: seq<AddrPort>)
    requires |ds| == |tps|
    requires forall k | 0 <= k < |ds| :: ds[k].ip == ShowAddr(tps[k].addr) && ds[k].port == tps[k].port
    ensures RowTargets(ds) == tps
  {
    hide RowTarget, ShowAddr;
    if ds != [] {
      var n := |ds| - 1;
      RowTargetsBack(ds[..n], tps[..n]);
      RowTargetBack(ds[n], tps[n]);
      assert tps == tps[..n] + [tps[n]];
    }
  }

  /** Grouping undoes explosion: targets in order, an empty list for the empty-IP row. */
  lemma GroupUndoesExplode(ds: seq<Row>, r: Record)
    requires Explodes(ds, r)
    ensures ds != [] && RowTargets(ds) == r.targets
    ensures ds[0].instance == r.instance && ds[0].createdAt == r.createdAt && ds[0].updatedAt == r.updatedAt
  {
    hide ShowAddr;
    if r.targets == [] {
      assert ds[0].(id := 0).ip == "";
      assert RowTargets(ds[..0]) == [];
    } else {
      forall k | 0 <= k < |ds|
        ensures ds[k].ip == ShowAddr(r.targets[k].addr) && ds[k].port == r.targets[k].port
      {
        assert ds[k].(id := 0).ip == ds[k].ip && ds[k].(id := 0).port == ds[k].port;
      }
      RowTargetsBack(ds, r.targets);
      assert ds[0].(id := 0).instance == ds[0].instance;
    }
  }
}
