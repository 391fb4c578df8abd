/** repository/redis/redis.go: the repository object over the string-keyed store. */
module RedisRepository {
  import opened Text
  import opened Decimal
  import opened Records
  import opened RecordCodec
  import opened Repository
  import opened RedisStore
  import opened RedisTables

  /** HGET; None is redis.Nil. */
  function HGet(s: Store, key: string, field: string): Option<string> {
    if field in HGetAll(s, key) then Some(HGetAll(s, key)[field]) else None
  }

  lemma AddressAllSnoc(prefix: string, cs: seq<TableCmd>, c: TableCmd)
    ensures AddressAll(prefix, cs + [c]) == AddressAll(prefix, cs) + [Address(prefix, c)]
  {
  }

  lemma AddressThree(prefix: string, a: TableCmd, b: TableCmd, c: TableCmd)
    ensures AddressAll(prefix, [a, b, c]) == [Address(prefix, a), Address(prefix, b), Address(prefix, c)]
  {
    AddressAllSnoc(prefix, [], a);
    AddressAllSnoc(prefix, [a], b);
    AddressAllSnoc(prefix, [a, b], c);
    assert [] + [a] == [a] && [a] + [b] == [a, b] && [a, b] + [c] == [a, b, c];
  }

  lemma RecordKeyHolds(prefix: string, s: Store, t: Tables, d: string)
    requires Simulates(prefix, s, t)
    ensures HGetAll(s, KeyRecord(prefix, d)) == FieldsOf(t, d)
    ensures SMembers(s, KeyDomains(prefix)) == t.domains
  {
  }

  lemma InstanceKeyHolds(prefix: string, s: Store, t: Tables, i: int64)
    requires Simulates(prefix, s, t)
    ensures SMembers(s, KeyInstance(prefix, i)) == MembersOf(t, i)
  {
  }

  lemma DropPipe(prefix: string, domains: seq<string>, instance: int64)
    ensures AddressAll(prefix, DropBatch(instance, domains))
         == AddressAll(prefix, DropPairs(domains)) + [Del(KeyInstance(prefix, instance))]
  {
  }

  lemma StoredDomain(t: Tables, domains: seq<string>, i: nat)
    requires Consistent(t) && IsOrderOf(domains, t.domains) && i < |domains|
    ensures FieldsOf(t, domains[i]) != map[]
  {
  }

  /** Reading the record of every domain of the domain set lists the contents. */
  lemma ReadingAllLists(t: Tables, domains: seq<string>, found: seq<Record>)
    requires IsOrderOf(domains, t.domains) && |found| == |domains|
    requires forall k | 0 <= k < |domains| :: found[k] == RecordAt(t, domains[k])
    ensures Lists(ContentsOf(t), found)
  {
  }

  /** The pipeline of Delete is the delete batch on the prefixed keys. */
  lemma DeletePipe(prefix: string, domain: string, instance: int64)
    ensures AddressAll(prefix, DeleteBatch(domain, instance))
         == [Del(KeyRecord(prefix, domain)), SRem(KeyDomains(prefix), domain),
             SRem(KeyInstance(prefix, instance), domain)]
  {
    hide KeyRecord, KeyDomains, KeyInstance;
    AddressThree(prefix, DropRecord(domain), RemoveDomain(domain), RemoveMember(instance, domain));
  }

  /** One round of the loop of DeleteByInstanceID. */
  lemma DropPairsStep(prefix: string, domains: seq<string>, i: nat)
    requires i < |domains|
    ensures AddressAll(prefix, DropPairs(domains[..i + 1]))
         == AddressAll(prefix, DropPairs(domains[..i]))
            + [Del(KeyRecord(prefix, domains[i]))] + [SRem(KeyDomains(prefix), domains[i])]
  {
    hide KeyRecord, KeyDomains;
    var d, init := domains[i], DropPairs(domains[..i]);
    assert domains[..i + 1][..i] == domains[..i];
    AddressAllSnoc(prefix, init, DropRecord(d));
    AddressAllSnoc(prefix, init + [DropRecord(d)], RemoveDomain(d));
  }

  lemma ReadBlank()
    ensures ParseInt64(TrimSpace("")) == None && ReadTime("") == 0
  {
  }

  /** The loop of Find over the pipelined reads. */
  method ReadAll(prefix: string, s: Store, ghost t: Tables, domains: seq<string>) returns (found: seq<Record>)
    requires Simulates(prefix, s, t) && Consistent(t) && IsOrderOf(domains, t.domains)
    ensures |found| == |domains|
    ensures forall k | 0 <= k < |domains| :: found[k] == RecordAt(t, domains[k])
    ensures forall k | 0 <= k < |domains| :: found[k].domain == domains[k]
  {
    hide Simulates, KeyRecord, FieldsOf, Decode, Consistent, IsOrderOf, HGetAll;
    found := [];
    for i := 0 to |domains|
      invariant |found| == i
      invariant forall k | 0 <= k < i :: found[k] == RecordAt(t, domains[k]) && found[k].domain == domains[k]
    {
      var m := HGetAll(s, KeyRecord(prefix, domains[i]));
      RecordKeyHolds(prefix, s, t, domains[i]);
      StoredDomain(t, domains, i);
      if m == map[] {
        continue;
      }
      var r := DecodeRecordMap(domains[i], m);
      found := found + [r];
    }
  }

  /** Which of the two reads of Create fail; Create goes on without them. */
  datatype ReadFaults = ReadFaults(instance: bool, created: bool)

  /** The contents that Create's stamp sees. */
  function Seen(m: Contents, domain: string, failed: ReadFaults): Contents {
    if failed.created then m - {domain} else m
  }

  /** What the stamp of Create is, whichever reads fail. */
  lemma StampedShape(t: Tables, rec: Record, now: int, failed: ReadFaults)
    requires Consistent(t) && now != 0
    ensures var r := if failed.created then StampWith(map[], rec, now) else Stamped(t, rec, now);
            && r.domain == rec.domain && r.instance == rec.instance && r.createdAt != 0
            && r.(id := 0) == Stamp(KeepIncoming, Seen(ContentsOf(t), rec.domain, failed), rec, now)
            && r.id == rec.id
  {
    hide RecordAt, ContentsOf, FieldsOf, Agree, Encoded, ReadTime;
    StampAgrees(t, rec, now);
    StampUnread(t, rec, now);
  }

  /** The index after a create batch whose instance read may have failed. */
  lemma CreateIndex(t: Tables, r: Record, old': int64, unread: bool)
    requires Consistent(t) && r.createdAt != 0 && old' == (if unread then 0 else OldInstance(t, r.domain))
    ensures Exact(t) ==>
              (Exact(ExecTable(t, CreateBatch(r, old'))) <==>
               !unread || r.domain !in ContentsOf(t)
               || ContentsOf(t)[r.domain].instance == 0 || ContentsOf(t)[r.domain].instance == r.instance)
  {
    hide Exact, ExecTable, CreateBatch, OldInstance, RecordAt, Consistent;
    HashHasInstance(t, r.domain);
    if Exact(t) {
      CreateExact(t, r, old');
    }
  }

  /** DeleteByInstanceID with no other client between its read and its batch. */
  lemma DropAlone(t: Tables, i: int64, order: seq<string>)
    requires Consistent(t) && Listed(t) && IsOrderOf(order, MembersOf(t, i))
    ensures var t' := ExecTable(t, DropBatch(i, order));
            && Consistent(t') && Listed(t') && ContentsOf(t') == ContentsOf(t) - (set d | d in order)
            && (Exact(t) ==> Exact(t') && ContentsOf(t') == RemoveInstance(ContentsOf(t), i))
  {
    hide RecordAt, ExecTable, DropBatch, FieldsOf, MembersOf, Agree, Encoded, Exact, ContentsOf;
    DropKeeps(t, i, order);
    DropContents(t, i, order);
    if Exact(t) {
      DropRefines(t, i, order);
    }
  }

  class RedisRepository {
    const prefix: string
    var store: Store
    /** The three tables the store stands for. */
    ghost var tables: Tables

    /** Domain set and hashes agree, and every record is in the index of its instance.  The converse,
        Exact(tables), holds as long as no read of Create fails. */
    ghost predicate Valid()
      reads this
    {
      Simulates(prefix, store, tables) && Consistent(tables) && Listed(tables)
    }

    constructor (prefix: string)
      ensures Valid() && Exact(tables) && this.prefix == prefix && ContentsOf(tables) == map[]
    {
      this.prefix := prefix;
      store := map[];
      tables := NO_TABLES;
      new;
      EmptySimulates(prefix);
      NoTablesInv();
    }

    /** Runs the batch on the store, unless the call fails before, and keeps the tables in step. */
    method ExecBatch(pipe: seq<Cmd>, ghost batch: seq<TableCmd>, fault: Fault) returns (outcome: Outcome)
      requires Simulates(prefix, store, tables) && pipe == AddressAll(prefix, batch)
      modifies this
      ensures Simulates(prefix, store, tables)
      ensures tables == if fault == FailsBefore then old(tables) else ExecTable(old(tables), batch)
      ensures outcome == if fault == NoFault then Done else ErrIO
    {
      if fault == FailsBefore {
        return ErrIO;
      }
      ExecSimulates(prefix, store, tables, batch);
      store := Exec(store, pipe);
      tables := ExecTable(tables, batch);
      return if fault == NoFault then Done else ErrIO;
    }

    /** The reads before the batch: the stored instance id, and the times Create writes into its
        argument.  A failed read counts as nothing stored. */
    method ReadExisting(rec: Record, now: int, failed: ReadFaults) returns (oldInstanceID: int64, r: Record)
      requires Simulates(prefix, store, tables)
      ensures oldInstanceID == if failed.instance then 0 else OldInstance(tables, rec.domain)
      ensures r == if failed.created then StampWith(map[], rec, now) else Stamped(tables, rec, now)
    {
      hide Simulates, KeyRecord, FieldsOf, ParseInt64, TrimSpace;
      var key := KeyRecord(prefix, rec.domain);
      RecordKeyHolds(prefix, store, tables, rec.domain);
      ReadBlank();
      oldInstanceID := 0;
      var v := if failed.instance then None else HGet(store, key, "instance_id");
      if v.Some? {
        var n := ParseInt64(TrimSpace(v.value));
        if n.Some? {
          oldInstanceID := n.value;
        }
      }
      v := if failed.created then None else HGet(store, key, "created_at");
      r := rec;
      if v.Some? && rec.createdAt == 0 {
        r := r.(createdAt := ReadTime(v.value));
      }
      if r.createdAt == 0 {
        r := r.(createdAt := now);
      }
      r := r.(updatedAt := now);
    }

    /** Upsert; stamped is the argument with the times that Create writes into it.  A failed read of the
        stored instance leaves the index exact only when the domain is new, unmoved or in instance 0. */
    method Create(record: Option<Record>, now: int, failed: ReadFaults, fault: Fault)
      returns (outcome: Outcome, stamped: Option<Record>)
      requires Valid() && now != 0
      modifies this
      ensures Valid()
      ensures IsRefused(Op.Create(record)) ==>
                ((ContentsOf(tables), outcome)
                 == Apply(KeepIncoming, old(ContentsOf(tables)), Op.Create(record), now))
                && tables == old(tables)
      ensures !IsRefused(Op.Create(record)) ==>
                var m, d := old(ContentsOf(tables)), record.value.domain;
                var written := Stamp(KeepIncoming, Seen(m, d, failed), record.value, now);
                && outcome == (if fault == NoFault then Done else ErrIO)
                && ContentsOf(tables) == (if fault == FailsBefore then m else m[d := written])
                && stamped.Some? && stamped.value == written.(id := record.value.id)
                && (old(Exact(tables)) ==>
                      (Exact(tables) <==>
                       fault == FailsBefore || !failed.instance || d !in m
                       || m[d].instance == 0 || m[d].instance == record.value.instance))
    {
      hide Simulates, Consistent, Listed, Exact, Encode, KeyRecord, KeyDomains, KeyInstance, ContentsOf, CreateBatch,
        OldInstance, Stamp, RecordAt, ExecTable, StampWith;
      if record.None? {
        return ErrRecordNil, None;
      }
      var rec := record.value;
      if TrimSpace(rec.domain) == "" {
        return ErrDomainRequired, Some(rec);
      }
      var oldInstanceID, r := ReadExisting(rec, now, failed);
      StampedShape(tables, rec, now, failed);
      var hash := EncodeRecordMap(r);
      var pipe := [HSet(KeyRecord(prefix, r.domain), hash), SAdd(KeyDomains(prefix), r.domain),
                   SAdd(KeyInstance(prefix, r.instance), r.domain)];
      if oldInstanceID != r.instance {
        pipe := pipe + [SRem(KeyInstance(prefix, oldInstanceID), r.domain)];
      }
      CreatePipe(pipe, hash, r, oldInstanceID);
      CreateKeeps(tables, r, oldInstanceID);
      CreateContents(tables, r, oldInstanceID);
      CreateIndex(tables, r, oldInstanceID, failed.instance);
      outcome := ExecBatch(pipe, CreateBatch(r, oldInstanceID), fault);
      return outcome, Some(r);
    }

    /** The pipeline of Create is the create batch on the prefixed keys. */
    lemma CreatePipe(pipe: seq<Cmd>, hash: Fields, r: Record, old': int64)
      requires hash == Encode(r)
      requires pipe == [HSet(KeyRecord(prefix, r.domain), hash), SAdd(KeyDomains(prefix), r.domain),
                        SAdd(KeyInstance(prefix, r.instance), r.domain)]
                     + (if old' != r.instance then [SRem(KeyInstance(prefix, old'), r.domain)] else [])
      ensures pipe == AddressAll(prefix, CreateBatch(r, old'))
    {
      hide Encode, KeyRecord, KeyDomains, KeyInstance;
      var a, b, c := PutRecord(r.domain, Encode(r)), AddDomain(r.domain), AddMember(r.instance, r.domain);
      AddressThree(prefix, a, b, c);
      if old' != r.instance {
        AddressAllSnoc(prefix, [a, b, c], RemoveMember(old', r.domain));
      } else {
        assert CreateBatch(r, old') == [a, b, c];
      }
    }

    method Delete(domain: string, readFails: bool, fault: Fault) returns (outcome: Outcome)
      requires Valid()
      modifies this
      ensures Valid() && (old(Exact(tables)) ==> Exact(tables))
      ensures outcome == if readFails then ErrIO
                         else if domain !in old(ContentsOf(tables)) then ErrNotFound
                         else if fault == NoFault then Done else ErrIO
      ensures ContentsOf(tables)
           == if readFails || fault == FailsBefore then old(ContentsOf(tables))
              else old(ContentsOf(tables)) - {domain}
    {
      hide Simulates, Consistent, Listed, Exact, KeyRecord, KeyDomains, KeyInstance, ReadInstance, FieldsOf, RecordAt,
        DeleteBatch, ExecTable;
      if readFails {
        return ErrIO;
      }
      var key := KeyRecord(prefix, domain);
      RecordKeyHolds(prefix, store, tables, domain);
      HashHasInstance(tables, domain);
      var v := HGet(store, key, "instance_id");
      if v.None? {
        assert ContentsOf(tables) - {domain} == ContentsOf(tables);
        return ErrNotFound;
      }
      var instanceID := ReadInstance(v.value);
      var pipe := [Del(key), SRem(KeyDomains(prefix), domain), SRem(KeyInstance(prefix, instanceID), domain)];
      DeletePipe(prefix, domain, instanceID);
      DeleteKeeps(tables, domain, instanceID);
      DeleteContents(tables, domain, instanceID);
      if Exact(tables) {
        DeleteExact(tables, domain, instanceID);
      }
      outcome := ExecBatch(pipe, DeleteBatch(domain, instanceID), fault);
    }

    method DropPipeline(instanceID: int64, domains: seq<string>) returns (pipe: seq<Cmd>)
      ensures pipe == AddressAll(prefix, DropBatch(instanceID, domains))
    {
      pipe := [];
      for i := 0 to |domains|
        invariant pipe == AddressAll(prefix, DropPairs(domains[..i]))
      {
        var d := domains[i];
        DropPairsStep(prefix, domains, i);
        pipe := pipe + [Del(KeyRecord(prefix, d))];
        pipe := pipe + [SRem(KeyDomains(prefix), d)];
      }
      assert domains[..|domains|] == domains;
      DropPipe(prefix, domains, instanceID);
      pipe := pipe + [Del(KeyInstance(prefix, instanceID))];
    }

    /** domains is the answer of SMEMBERS, in the server's order.  With an exact index the domains removed
        are those of the instance. */
    method DeleteByInstanceID(instanceID: int64, domains: seq<string>, readFails: bool, fault: Fault)
      returns (outcome: Outcome)
      requires Valid() && IsOrderOf(domains, SMembers(store, KeyInstance(prefix, instanceID)))
      modifies this
      ensures Valid() && (old(Exact(tables)) ==> Exact(tables))
      ensures outcome == if !readFails && fault == NoFault then Done else ErrIO
      ensures readFails || fault == FailsBefore ==> ContentsOf(tables) == old(ContentsOf(tables))
      ensures !readFails && fault != FailsBefore ==>
                && ContentsOf(tables) == old(ContentsOf(tables)) - (set d | d in domains)
                && (old(Exact(tables)) ==>
                      ContentsOf(tables) == RemoveInstance(old(ContentsOf(tables)), instanceID))
    {
      if readFails {
        return ErrIO;
      }
      InstanceKeyHolds(prefix, store, tables, instanceID);
      DropAlone(tables, instanceID, domains);
      hide Simulates, Consistent, Listed, Exact, KeyRecord, KeyDomains, KeyInstance, ContentsOf, IsOrderOf, ExecTable,
        DropPairs, DropBatch, RemoveInstance;
      var pipe := DropPipeline(instanceID, domains);
      outcome := ExecBatch(pipe, DropBatch(instanceID, domains), fault);
    }

    method FindByDomain(domain: string, readFails: bool) returns (found: Answer<Record>)
      requires Valid()
      ensures found == if readFails then Failed
                       else if domain in ContentsOf(tables) then Got(ContentsOf(tables)[domain]) else Missing
    {
      hide Simulates, Listed, KeyRecord, FieldsOf, Decode;
      if readFails {
        return Failed;
      }
      var m := HGetAll(store, KeyRecord(prefix, domain));
      RecordKeyHolds(prefix, store, tables, domain);
      if m == map[] {
        return Missing;
      }
      var r := DecodeRecordMap(domain, m);
      return Got(r);
    }

    /** domains is the answer of SMEMBERS; with no other client the result lists the contents. */
    method Find(domains: seq<string>, membersFail: bool, hashesFail: bool) returns (found: Option<seq<Record>>)
      requires Valid() && IsOrderOf(domains, SMembers(store, KeyDomains(prefix)))
      ensures found.None? <==> membersFail || (domains != [] && hashesFail)
      ensures found.Some? ==>
                && Lists(ContentsOf(tables), found.value)
                && |found.value| == |domains| && forall i | 0 <= i < |domains| :: found.value[i].domain == domains[i]
    {
      hide Simulates, Consistent, Listed, IsOrderOf, Lists, ContentsOf, RecordAt;
      if membersFail {
        return None;
      }
      if |domains| > 0 && hashesFail {
        return None;
      }
      RecordKeyHolds(prefix, store, tables, "");
      var rs := ReadAll(prefix, store, tables, domains);
      ReadingAllLists(tables, domains, rs);
      return Some(rs);
    }
  }

  const DEFAULT_PREFIX := "tsdns"

  datatype Opened = Opened(repo: RedisRepository) | ErrAddrRequired | ErrPing

  /** Opens the repository on an empty store; a blank prefix is replaced by the default. */
  method NewRepository(addr: string, prefix: string, pingFails: bool) returns (result: Opened)
    ensures result == ErrAddrRequired <==> TrimSpace(addr) == ""
    ensures result == ErrPing <==> TrimSpace(addr) != "" && pingFails
    ensures result.Opened? ==>
              && fresh(result.repo) && result.repo.Valid() && Exact(result.repo.tables)
              && ContentsOf(result.repo.tables) == map[]
              && result.repo.prefix == if TrimSpace(prefix) == "" then "tsdns" else prefix
  {
    hide TrimSpace;
    if TrimSpace(addr) == "" {
      return ErrAddrRequired;
    }
    var p := if TrimSpace(prefix) == "" then DEFAULT_PREFIX else prefix;
    if pingFails {
      return ErrPing;
    }
    var r := new RedisRepository(p);
    return Opened(r);
  }
}
