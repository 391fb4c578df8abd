/** repository/redis/redis.go over its three tables: the MULTI/EXEC batches, what they do, and that
    each operation run alone refines the abstract map. */
module RedisTables {
  import opened Text
  import opened Decimal
  import opened Records
  import opened RecordCodec
  import opened Repository
  import opened RedisStore

  // ----- The batches -----

  function CreateBatch(rec: Record, oldInstance: int64): seq<TableCmd> {
    [PutRecord(rec.domain, Encode(rec)), AddDomain(rec.domain), AddMember(rec.instance, rec.domain)]
    + (if oldInstance != rec.instance then [RemoveMember(oldInstance, rec.domain)] else [])
  }

  function DeleteBatch(domain: string, instance: int64): seq<TableCmd> {
    [DropRecord(domain), RemoveDomain(domain), RemoveMember(instance, domain)]
  }

  function DropPairs(order: seq<string>): seq<TableCmd> {
    if order == [] then []
    else DropPairs(order[..|order| - 1]) + [DropRecord(order[|order| - 1])] + [RemoveDomain(order[|order| - 1])]
  }

  function DropBatch(instance: int64, order: seq<string>): seq<TableCmd> {
    DropPairs(order) + [DropInstance(instance)]
  }

  // ----- What is read before a batch -----

  function RecordAt(t: Tables, d: string): Record {
    Decode(d, FieldsOf(t, d))
  }

  /** The instance id stored for the domain, 0 when there is none. */
  function OldInstance(t: Tables, d: string): int64 {
    ReadInstance(Get(FieldsOf(t, d), "instance_id"))
  }

  /** Create sets the times of its argument: a given CreatedAt stays, else the stored one, else now. */
  function StampWith(f: Fields, rec: Record, now: int): Record {
    var stored := ReadTime(Get(f, "created_at"));
    rec.(createdAt := if rec.createdAt != 0 then rec.createdAt else if stored != 0 then stored else now,
         updatedAt := now)
  }

  function Stamped(t: Tables, rec: Record, now: int): Record {
    StampWith(FieldsOf(t, rec.domain), rec, now)
  }

  // ----- Invariants of the tables -----

  /** A domain is in the domain set exactly when its record hash exists. */
  ghost predicate Agree(t: Tables) {
    forall d: string :: d in t.domains <==> FieldsOf(t, d) != map[]
  }

  /** Every record hash is the encoding of a record with a creation time. */
  ghost predicate Encoded(t: Tables) {
    forall d: string | FieldsOf(t, d) != map[] ::
      FieldsOf(t, d) == Encode(RecordAt(t, d)) && RecordAt(t, d).createdAt != 0
  }

  /** Every record is listed in the index of its instance. */
  ghost predicate Listed(t: Tables) {
    forall d | d in t.domains :: d in MembersOf(t, RecordAt(t, d).instance)
  }

  /** The index of an instance holds exactly the domains whose record has it. */
  ghost predicate Exact(t: Tables) {
    forall i: int64, d: string :: d in MembersOf(t, i) <==> d in t.domains && RecordAt(t, d).instance == i
  }

  /** What any interleaving keeps. */
  ghost predicate Consistent(t: Tables) {
    Agree(t) && Encoded(t)
  }

  /** The abstract map the tables stand for. */
  function ContentsOf(t: Tables): Contents {
    map d | d in t.domains :: RecordAt(t, d)
  }

  // ----- What the batches do -----

  lemma ExecThree(t: Tables, c1: TableCmd, c2: TableCmd, c3: TableCmd)
    ensures ExecTable(t, [c1, c2, c3]) == RunTable(RunTable(RunTable(t, c1), c2), c3)
  {
    hide RunTable;
    assert [c1, c2, c3][..2] == [c1, c2] && [c1, c2][..1] == [c1] && [c1][..0] == [];
    assert ExecTable(t, [c1]) == RunTable(t, c1);
    assert ExecTable(t, [c1, c2]) == RunTable(ExecTable(t, [c1]), c2);
  }

  /** The create batch, command by command. */
  lemma CreateRuns(t: Tables, rec: Record, old': int64)
    ensures var d := rec.domain;
            var t2 := RunTable(RunTable(t, PutRecord(d, Encode(rec))), AddDomain(d));
            var t3 := RunTable(t2, AddMember(rec.instance, d));
            ExecTable(t, CreateBatch(rec, old'))
            == if old' != rec.instance then RunTable(t3, RemoveMember(old', d)) else t3
  {
    hide Encode, RunTable, ExecTable;
    var d := rec.domain;
    var c1, c2, c3 := PutRecord(d, Encode(rec)), AddDomain(d), AddMember(rec.instance, d);
    ExecThree(t, c1, c2, c3);
    if old' != rec.instance {
      ExecTableSnoc(t, [c1, c2, c3], RemoveMember(old', d));
    } else {
      assert CreateBatch(rec, old') == [c1, c2, c3];
    }
  }

  lemma CreateEffect(t: Tables, rec: Record, old': int64)
    ensures var t' := ExecTable(t, CreateBatch(rec, old'));
            && t'.domains == t.domains + {rec.domain}
            && (forall e: string ::
                  FieldsOf(t', e) == if e == rec.domain then FieldsOf(t, e) + Encode(rec) else FieldsOf(t, e))
            && (forall i: int64 :: MembersOf(t', i) ==
                  if i == rec.instance then MembersOf(t, i) + {rec.domain}
                  else if i == old' then MembersOf(t, i) - {rec.domain} else MembersOf(t, i))
  {
    hide Encode, ExecTable, CreateBatch;
    CreateRuns(t, rec, old');
  }

  lemma DeleteEffect(t: Tables, d: string, instance: int64)
    ensures var t' := ExecTable(t, DeleteBatch(d, instance));
            && t'.domains == t.domains - {d}
            && (forall e: string :: FieldsOf(t', e) == if e == d then map[] else FieldsOf(t, e))
            && (forall i: int64 :: MembersOf(t', i) == if i == instance then MembersOf(t, i) - {d} else MembersOf(t, i))
  {
    hide ExecTable;
    ExecThree(t, DropRecord(d), RemoveDomain(d), RemoveMember(instance, d));
  }

  lemma {:induction false} DropPairsEffect(t: Tables, order: seq<string>)
    ensures var t' := ExecTable(t, DropPairs(order));
            && t'.domains == t.domains - (set d | d in order)
            && (forall e: string :: FieldsOf(t', e) == if e in order then map[] else FieldsOf(t, e))
            && t'.instances == t.instances
  {
    if order != [] {
      var init, last := order[..|order| - 1], order[|order| - 1];
      DropPairsEffect(t, init);
      ExecTableSnoc(t, DropPairs(init), DropRecord(last));
      ExecTableSnoc(t, DropPairs(init) + [DropRecord(last)], RemoveDomain(last));
      assert order == init + [last];
    }
  }

  lemma DropEffect(t: Tables, instance: int64, order: seq<string>)
    ensures var t' := ExecTable(t, DropBatch(instance, order));
            && t'.domains == t.domains - (set d | d in order)
            && (forall e: string :: FieldsOf(t', e) == if e in order then map[] else FieldsOf(t, e))
            && (forall i: int64 :: MembersOf(t', i) == if i == instance then {} else MembersOf(t, i))
  {
    DropPairsEffect(t, order);
    ExecTableSnoc(t, DropPairs(order), DropInstance(instance));
  }

  // ----- What the batches keep, however stale the reads before them were -----

  /** Writing a record over nothing or over an encoded record leaves exactly its encoding. */
  lemma OverwriteHash(t: Tables, rec: Record)
    requires Encoded(t)
    ensures FieldsOf(t, rec.domain) + Encode(rec) == Encode(rec)
  {
  }

  lemma CreateKeeps(t: Tables, rec: Record, old': int64)
    requires Consistent(t) && rec.createdAt != 0
    ensures var t' := ExecTable(t, CreateBatch(rec, old'));
            && Consistent(t')
            && RecordAt(t', rec.domain) == rec.(id := 0)
            && (forall e | e != rec.domain :: RecordAt(t', e) == RecordAt(t, e))
            && (Listed(t) ==> Listed(t'))
  {
    hide Encode, Decode, ExecTable, CreateBatch, MembersOf, ReadInstance;
    CreateEffect(t, rec, old');
    OverwriteHash(t, rec);
    CodecRoundTrip(rec);
    EncodeIgnoresId(rec);
    assert "targets" in Encode(rec).Keys;
  }

  lemma EncodeIgnoresId(rec: Record)
    ensures Encode(rec.(id := 0)) == Encode(rec)
  {
  }

  lemma DeleteKeeps(t: Tables, d: string, instance: int64)
    requires Consistent(t)
    ensures var t' := ExecTable(t, DeleteBatch(d, instance));
            && Consistent(t')
            && (forall e | e != d :: RecordAt(t', e) == RecordAt(t, e))
            && (Listed(t) ==> Listed(t'))
  {
    hide Encode, Decode;
    DeleteEffect(t, d, instance);
  }

  /** Dropping an instance keeps every other record; it keeps the listing exactly when every record
      of the instance was among the members read before. */
  lemma DropKeeps(t: Tables, instance: int64, order: seq<string>)
    requires Consistent(t)
    ensures var t' := ExecTable(t, DropBatch(instance, order));
            && Consistent(t')
            && (forall e | e !in order :: RecordAt(t', e) == RecordAt(t, e))
            && (Listed(t) ==>
                  (Listed(t') <==> forall d | d in t.domains && RecordAt(t, d).instance == instance :: d in order))
  {
    hide Encode, Decode;
    DropEffect(t, instance, order);
    var t' := ExecTable(t, DropBatch(instance, order));
    assert forall e | e !in order :: RecordAt(t', e) == RecordAt(t, e);
  }

  // ----- Operations that run alone refine the abstract map -----

  ghost predicate TablesInv(t: Tables) {
    Consistent(t) && Exact(t)
  }

  ghost predicate IsDistinct(ds: seq<string>) {
    forall i, j | 0 <= i < j < |ds| :: ds[i] != ds[j]
  }

  /** order is an answer of SMEMBERS: the members, each once. */
  ghost predicate IsOrderOf(order: seq<string>, members: set<string>) {
    IsDistinct(order) && (forall d :: d in order <==> d in members)
  }

  /** One operation with no other client in between. */
  ghost predicate RedisDoes(t: Tables, op: Op, now: int, t': Tables, outcome: Outcome) {
    match op
    case Create(None) => t' == t && outcome == ErrRecordNil
    case Create(Some(rec)) =>
      if TrimSpace(rec.domain) == "" then t' == t && outcome == ErrDomainRequired
      else t' == ExecTable(t, CreateBatch(Stamped(t, rec, now), OldInstance(t, rec.domain))) && outcome == Done
    case Delete(d) =>
      if "instance_id" !in FieldsOf(t, d) then t' == t && outcome == ErrNotFound
      else t' == ExecTable(t, DeleteBatch(d, OldInstance(t, d))) && outcome == Done
    case DeleteByInstance(i) =>
      exists order :: IsOrderOf(order, MembersOf(t, i)) && t' == ExecTable(t, DropBatch(i, order)) && outcome == Done
  }

  lemma HashHasInstance(t: Tables, d: string)
    requires Consistent(t)
    ensures d in t.domains <==> "instance_id" in FieldsOf(t, d)
    ensures OldInstance(t, d) == RecordAt(t, d).instance
  {
  }

  lemma StampAgrees(t: Tables, rec: Record, now: int)
    requires Consistent(t)
    ensures Stamped(t, rec, now).(id := 0) == Stamp(KeepIncoming, ContentsOf(t), rec, now)
  {
    hide Encode;
    assert RecordAt(t, rec.domain).createdAt == ReadTime(Get(FieldsOf(t, rec.domain), "created_at"));
    if rec.domain !in t.domains {
      assert Get(FieldsOf(t, rec.domain), "created_at") == "";
      assert ReadTime("") == 0;
    }
  }

  /** When the stored CreatedAt cannot be read, Create goes on as if the domain were new. */
  lemma StampUnread(t: Tables, rec: Record, now: int)
    ensures StampWith(map[], rec, now).(id := 0) == Stamp(KeepIncoming, ContentsOf(t) - {rec.domain}, rec, now)
  {
    hide RecordAt;
    assert ReadTime("") == 0;
  }

  // ----- What each batch does to the contents, however stale the reads before it -----

  /** A create batch is an update of the map. */
  lemma CreateContents(t: Tables, rec: Record, old': int64)
    requires Consistent(t) && rec.createdAt != 0
    ensures ContentsOf(ExecTable(t, CreateBatch(rec, old'))) == ContentsOf(t)[rec.domain := rec.(id := 0)]
  {
    hide Encode, RecordAt, ExecTable, CreateBatch, FieldsOf, MembersOf, Agree, Encoded;
    CreateKeeps(t, rec, old');
    CreateEffect(t, rec, old');
  }

  /** A delete batch is a removal from the map. */
  lemma DeleteContents(t: Tables, d: string, instance: int64)
    requires Consistent(t)
    ensures ContentsOf(ExecTable(t, DeleteBatch(d, instance))) == ContentsOf(t) - {d}
  {
    hide Encode, RecordAt, ExecTable, DeleteBatch, FieldsOf, MembersOf, Agree, Encoded;
    DeleteKeeps(t, d, instance);
    DeleteEffect(t, d, instance);
  }

  /** A drop batch removes the domains read before it, wherever their records have gone since. */
  lemma DropContents(t: Tables, instance: int64, order: seq<string>)
    requires Consistent(t)
    ensures ContentsOf(ExecTable(t, DropBatch(instance, order))) == ContentsOf(t) - (set d | d in order)
  {
    hide Encode, RecordAt, ExecTable, DropBatch, FieldsOf, MembersOf, Agree, Encoded;
    DropKeeps(t, instance, order);
    DropEffect(t, instance, order);
  }

  /** Hence a drop batch removes the records of its instance, and only those, exactly when the domains
      read before it are, among the stored ones, those whose record has the instance now. */
  lemma DropRemovesInstanceExactlyWhen(t: Tables, instance: int64, order: seq<string>)
    requires Consistent(t)
    ensures ContentsOf(ExecTable(t, DropBatch(instance, order))) == RemoveInstance(ContentsOf(t), instance)
            <==> forall d | d in t.domains :: d in order <==> RecordAt(t, d).instance == instance
  {
    hide RecordAt, ExecTable, DropBatch, Consistent;
    DropContents(t, instance, order);
    var a, b := ContentsOf(t) - (set d | d in order), RemoveInstance(ContentsOf(t), instance);
    forall d | d in t.domains
      ensures d in a <==> d !in order
      ensures d in b <==> RecordAt(t, d).instance != instance
    {
    }
    if a == b {
      assert forall d | d in t.domains :: d in a <==> d in b;
    }
  }

  // ----- The instance index -----

  /** A create batch keeps the index exact exactly when the domain is new, stays in its instance, or the
      instance read before the batch is the stored one. */
  lemma CreateExact(t: Tables, rec: Record, old': int64)
    requires TablesInv(t) && rec.createdAt != 0
    ensures Exact(ExecTable(t, CreateBatch(rec, old'))) <==>
            (rec.domain in t.domains ==>
               RecordAt(t, rec.domain).instance == old' || RecordAt(t, rec.domain).instance == rec.instance)
  {
    hide Encode, RecordAt, ExecTable, CreateBatch, FieldsOf, MembersOf, Agree, Encoded;
    CreateKeeps(t, rec, old');
    CreateEffect(t, rec, old');
    var t' := ExecTable(t, CreateBatch(rec, old'));
    if rec.domain in t.domains && RecordAt(t, rec.domain).instance != old' {
      var i := RecordAt(t, rec.domain).instance;
      assert rec.domain in MembersOf(t, i);
      if i != rec.instance {
        assert rec.domain in MembersOf(t', i);
      }
    }
  }

  /** A delete batch keeps the index exact exactly when the domain is gone already or the instance read
      before the batch is the stored one. */
  lemma DeleteExact(t: Tables, d: string, instance: int64)
    requires TablesInv(t)
    ensures Exact(ExecTable(t, DeleteBatch(d, instance)))
            <==> (d in t.domains ==> RecordAt(t, d).instance == instance)
  {
    hide Encode, RecordAt, ExecTable, DeleteBatch, FieldsOf, MembersOf, Agree, Encoded;
    DeleteKeeps(t, d, instance);
    DeleteEffect(t, d, instance);
    var t' := ExecTable(t, DeleteBatch(d, instance));
    if d in t.domains && RecordAt(t, d).instance != instance {
      assert d in MembersOf(t', RecordAt(t, d).instance);
    }
  }

  /** A drop batch keeps the index exact exactly when it removes the records of its instance and only
      those: when the domains read before it are, among the stored ones, those whose record has the
      instance now. */
  lemma DropExact(t: Tables, i: int64, order: seq<string>)
    requires TablesInv(t)
    ensures Exact(ExecTable(t, DropBatch(i, order)))
            <==> forall d | d in t.domains :: d in order <==> RecordAt(t, d).instance == i
  {
    hide Encode, RecordAt, ExecTable, DropBatch, FieldsOf, MembersOf, Agree, Encoded;
    DropKeeps(t, i, order);
    DropEffect(t, i, order);
    var t' := ExecTable(t, DropBatch(i, order));
    if Exact(t') {
      forall d | d in t.domains
        ensures d in order <==> RecordAt(t, d).instance == i
      {
        var j := RecordAt(t, d).instance;
        assert d in MembersOf(t, j);
        assert d !in order ==> RecordAt(t', d).instance == j && d in MembersOf(t', j);
        assert j != i ==> d in MembersOf(t', j) && d in t'.domains;
      }
    }
  }

  /** A fresh read of an exact index gives the domains of the instance. */
  lemma MembersOfExact(t: Tables, i: int64, order: seq<string>)
    requires TablesInv(t) && IsOrderOf(order, MembersOf(t, i))
    ensures forall d | d in t.domains :: d in order <==> RecordAt(t, d).instance == i
  {
    hide RecordAt, MembersOf, Consistent;
  }

  // ----- Operations that run alone -----

  lemma CreateRefines(t: Tables, rec: Record, now: int)
    requires TablesInv(t) && now != 0
    ensures var t' := ExecTable(t, CreateBatch(Stamped(t, rec, now), OldInstance(t, rec.domain)));
            && TablesInv(t')
            && ContentsOf(t') == ContentsOf(t)[rec.domain := Stamp(KeepIncoming, ContentsOf(t), rec, now)]
  {
    var stamped, old' := Stamped(t, rec, now), OldInstance(t, rec.domain);
    hide ExecTable, CreateBatch, FieldsOf, RecordAt, OldInstance, Agree, Encoded, Exact, ContentsOf, Stamp,
      ReadTime;
    HashHasInstance(t, rec.domain);
    StampAgrees(t, rec, now);
    CreateKeeps(t, stamped, old');
    CreateExact(t, stamped, old');
    CreateContents(t, stamped, old');
  }

  lemma DeleteRefines(t: Tables, d: string)
    requires TablesInv(t) && d in t.domains
    ensures var t' := ExecTable(t, DeleteBatch(d, OldInstance(t, d)));
            TablesInv(t') && ContentsOf(t') == ContentsOf(t) - {d}
  {
    hide ExecTable, DeleteBatch, FieldsOf, RecordAt, OldInstance, Agree, Encoded, Exact, ContentsOf;
    HashHasInstance(t, d);
    DeleteKeeps(t, d, OldInstance(t, d));
    DeleteExact(t, d, OldInstance(t, d));
    DeleteContents(t, d, OldInstance(t, d));
  }

  lemma DropRefines(t: Tables, i: int64, order: seq<string>)
    requires TablesInv(t) && IsOrderOf(order, MembersOf(t, i))
    ensures var t' := ExecTable(t, DropBatch(i, order));
            TablesInv(t') && ContentsOf(t') == RemoveInstance(ContentsOf(t), i)
  {
    hide RecordAt, ExecTable, DropBatch, FieldsOf, MembersOf, Agree, Encoded, Exact, ContentsOf;
    DropKeeps(t, i, order);
    MembersOfExact(t, i, order);
    DropExact(t, i, order);
    DropRemovesInstanceExactlyWhen(t, i, order);
  }

  /** Every operation that runs alone keeps the invariant, the exact instance index included, and does
      to the contents what the abstract operation does, with the same outcome. */
  lemma RedisRefines(t: Tables, op: Op, now: int, t': Tables, outcome: Outcome)
    requires TablesInv(t) && now != 0 && RedisDoes(t, op, now, t', outcome)
    ensures TablesInv(t')
    ensures (ContentsOf(t'), outcome) == Apply(KeepIncoming, ContentsOf(t), op, now)
  {
    hide Encode, Decode, OldInstance, Stamped;
    match op
    case Create(None) =>
    case Create(Some(rec)) =>
      if TrimSpace(rec.domain) != "" {
        CreateRefines(t, rec, now);
      }
    case Delete(d) =>
      HashHasInstance(t, d);
      if d in t.domains {
        DeleteRefines(t, d);
      }
    case DeleteByInstance(i) =>
      var order :| IsOrderOf(order, MembersOf(t, i)) && t' == ExecTable(t, DropBatch(i, order)) && outcome == Done;
      DropRefines(t, i, order);
  }

  lemma NoTablesInv()
    ensures TablesInv(NO_TABLES) && ContentsOf(NO_TABLES) == map[]
  {
  }
}
