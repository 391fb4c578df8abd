/** The flat string-keyed Redis store under repository/redis/redis.go, and that its keys keep three
    tables apart: the commands on prefixed keys simulate commands on a record table, a domain set and
    a table of instance sets. */
module RedisStore {
  import opened Decimal
  import opened RecordCodec

  // ----- Redis -----

  datatype Value = Hash(fields: Fields) | Members(members: set<string>)

  type Store = map<string, Value>

  datatype Cmd =
    | HSet(key: string, fields: Fields)
    | SAdd(key: string, member: string)
    | SRem(key: string, member: string)
    | Del(key: string)

  function HGetAll(s: Store, key: string): Fields {
    if key in s && s[key].Hash? then s[key].fields else map[]
  }

  function SMembers(s: Store, key: string): set<string> {
    if key in s && s[key].Members? then s[key].members else {}
  }

  /** One command.  A key of the other type is left alone (WRONGTYPE); an emptied set disappears. */
  function Run(s: Store, c: Cmd): Store {
    match c
    case HSet(k, f) => if k in s && !s[k].Hash? then s else s[k := Hash(HGetAll(s, k) + f)]
    case SAdd(k, m) => if k in s && !s[k].Members? then s else s[k := Members(SMembers(s, k) + {m})]
    case SRem(k, m) =>
      if k !in s || !s[k].Members? then s
      else if SMembers(s, k) - {m} == {} then s - {k}
      else s[k := Members(SMembers(s, k) - {m})]
    case Del(k) => s - {k}
  }

  /** The commands of one MULTI/EXEC block, which no other client can interleave. */
  function Exec(s: Store, cs: seq<Cmd>): Store {
    if cs == [] then s else Run(Exec(s, cs[..|cs| - 1]), cs[|cs| - 1])
  }

  // ----- Keys -----

  function KeyDomains(prefix: string): string {
    prefix + ":domains"
  }

  function KeyRecord(prefix: string, domain: string): string {
    prefix + ":record:" + domain
  }

  function KeyInstance(prefix: string, instance: int64): string {
    prefix + ":instance:" + FormatInt(instance) + ":domains"
  }

  /** The keys as other programs see them. */
  lemma KeyTexts()
    ensures KeyDomains("tsdns") == "tsdns:domains" && KeyRecord("tsdns", "a.b") == "tsdns:record:a.b"
    ensures KeyInstance("tsdns", 7) == "tsdns:instance:7:domains"
  {
    assert FormatInt(7) == "7";
  }

  /** The three kinds of keys never collide: they differ right after the prefix. */
  lemma KeysApart(prefix: string, domain: string, instance: int64)
    ensures KeyDomains(prefix) != KeyRecord(prefix, domain)
    ensures KeyDomains(prefix) != KeyInstance(prefix, instance)
    ensures KeyRecord(prefix, domain) != KeyInstance(prefix, instance)
  {
    var n := |prefix| + 1;
    assert KeyDomains(prefix)[n] == 'd';
    assert KeyRecord(prefix, domain)[n] == 'r';
    assert KeyInstance(prefix, instance)[n] == 'i';
  }

  lemma KeyRecordInjective(prefix: string, d: string, e: string)
    requires KeyRecord(prefix, d) == KeyRecord(prefix, e)
    ensures d == e
  {
    var n := |prefix + ":record:"|;
    assert KeyRecord(prefix, d)[n..] == d;
    assert KeyRecord(prefix, e)[n..] == e;
  }

  /** Through the decimal printing of the instance id. */
  lemma KeyInstanceInjective(prefix: string, i: int64, j: int64)
    requires KeyInstance(prefix, i) == KeyInstance(prefix, j)
    ensures i == j
  {
    var n := |prefix + ":instance:"|;
    var k := KeyInstance(prefix, i);
    assert k[n..|k| - 8] == FormatInt(i);
    assert KeyInstance(prefix, j)[n..|k| - 8] == FormatInt(j);
    FormatIntInjective(i, j);
  }

  // ----- Three tables -----

  datatype Tables = Tables(records: map<string, Fields>, domains: set<string>, instances: map<int64, set<string>>)

  const NO_TABLES := Tables(map[], {}, map[])

  datatype TableCmd =
    | PutRecord(domain: string, fields: Fields)
    | AddDomain(domain: string)
    | AddMember(instance: int64, domain: string)
    | RemoveMember(instance: int64, domain: string)
    | DropRecord(domain: string)
    | RemoveDomain(domain: string)
    | DropInstance(instance: int64)

  function FieldsOf(t: Tables, d: string): Fields {
    if d in t.records then t.records[d] else map[]
  }

  function MembersOf(t: Tables, i: int64): set<string> {
    if i in t.instances then t.instances[i] else {}
  }

  function RunTable(t: Tables, c: TableCmd): Tables {
    match c
    case PutRecord(d, f) => t.(records := t.records[d := FieldsOf(t, d) + f])
    case AddDomain(d) => t.(domains := t.domains + {d})
    case AddMember(i, d) => t.(instances := t.instances[i := MembersOf(t, i) + {d}])
    case RemoveMember(i, d) => t.(instances := t.instances[i := MembersOf(t, i) - {d}])
    case DropRecord(d) => t.(records := t.records - {d})
    case RemoveDomain(d) => t.(domains := t.domains - {d})
    case DropInstance(i) => t.(instances := t.instances - {i})
  }

  function ExecTable(t: Tables, cs: seq<TableCmd>): Tables {
    if cs == [] then t else RunTable(ExecTable(t, cs[..|cs| - 1]), cs[|cs| - 1])
  }

  /** The command on the prefixed key. */
  function Address(prefix: string, c: TableCmd): Cmd {
    match c
    case PutRecord(d, f) => HSet(KeyRecord(prefix, d), f)
    case AddDomain(d) => SAdd(KeyDomains(prefix), d)
    case AddMember(i, d) => SAdd(KeyInstance(prefix, i), d)
    case RemoveMember(i, d) => SRem(KeyInstance(prefix, i), d)
    case DropRecord(d) => Del(KeyRecord(prefix, d))
    case RemoveDomain(d) => SRem(KeyDomains(prefix), d)
    case DropInstance(i) => Del(KeyInstance(prefix, i))
  }

  function AddressAll(prefix: string, cs: seq<TableCmd>): (r: seq<Cmd>)
    ensures |r| == |cs|
  {
    if cs == [] then [] else AddressAll(prefix, cs[..|cs| - 1]) + [Address(prefix, cs[|cs| - 1])]
  }

  /** Every key holds a value of the type its kind calls for: no command meets a WRONGTYPE. */
  ghost predicate Typed(prefix: string, s: Store) {
    && (KeyDomains(prefix) in s ==> s[KeyDomains(prefix)].Members?)
    && (forall d: string {:trigger KeyRecord(prefix, d)} :: KeyRecord(prefix, d) in s ==> s[KeyRecord(prefix, d)].Hash?)
    && (forall i: int64 {:trigger KeyInstance(prefix, i)} ::
          KeyInstance(prefix, i) in s ==> s[KeyInstance(prefix, i)].Members?)
  }

  /** The store holds exactly the tables, whatever other keys it has. */
  ghost predicate Simulates(prefix: string, s: Store, t: Tables) {
    && Typed(prefix, s)
    && SMembers(s, KeyDomains(prefix)) == t.domains
    && (forall d: string {:trigger KeyRecord(prefix, d)} :: HGetAll(s, KeyRecord(prefix, d)) == FieldsOf(t, d))
    && (forall i: int64 {:trigger KeyInstance(prefix, i)} :: SMembers(s, KeyInstance(prefix, i)) == MembersOf(t, i))
  }

  /** A command that touches one key leaves the others. */
  lemma RunElsewhere(s: Store, c: Cmd, key: string)
    requires key != c.key
    ensures key in Run(s, c) <==> key in s
    ensures key in s ==> Run(s, c)[key] == s[key]
    ensures HGetAll(Run(s, c), key) == HGetAll(s, key) && SMembers(Run(s, c), key) == SMembers(s, key)
  {
  }

  lemma RunTyped(s: Store, c: Cmd)
    requires c.key in s ==> (c.HSet? ==> s[c.key].Hash?) && (c.SAdd? || c.SRem? ==> s[c.key].Members?)
    ensures HGetAll(Run(s, c), c.key)
         == if c.HSet? then HGetAll(s, c.key) + c.fields
            else if c.Del? then map[] else HGetAll(s, c.key)
    ensures SMembers(Run(s, c), c.key)
         == if c.SAdd? then SMembers(s, c.key) + {c.member}
            else if c.SRem? then SMembers(s, c.key) - {c.member}
            else if c.Del? then {} else SMembers(s, c.key)
    ensures c.key in Run(s, c) ==>
              && (c.HSet? ==> Run(s, c)[c.key].Hash?)
              && (c.SAdd? || c.SRem? ==> Run(s, c)[c.key].Members?)
              && !c.Del?
  {
  }

  /** Only the domain-set commands are addressed to the domain-set key. */
  lemma DomainKeyApart(prefix: string, c: TableCmd)
    ensures Address(prefix, c).key == KeyDomains(prefix) <==> c.AddDomain? || c.RemoveDomain?
  {
    if c.PutRecord? || c.DropRecord? {
      KeysApart(prefix, c.domain, 0);
    } else if !c.AddDomain? && !c.RemoveDomain? {
      KeysApart(prefix, "", c.instance);
    }
  }

  lemma RunRecord(prefix: string, s: Store, t: Tables, c: TableCmd, d: string)
    requires Simulates(prefix, s, t)
    ensures var s', key := Run(s, Address(prefix, c)), KeyRecord(prefix, d);
            (key in s' ==> s'[key].Hash?) && HGetAll(s', key) == FieldsOf(RunTable(t, c), d)
  {
    hide Run, KeyDomains, KeyRecord, KeyInstance, HGetAll, SMembers;
    var cmd := Address(prefix, c);
    KeysApart(prefix, d, 0);
    if KeyRecord(prefix, d) != cmd.key {
      RunElsewhere(s, cmd, KeyRecord(prefix, d));
    } else {
      RunTyped(s, cmd);
      if c.AddMember? || c.RemoveMember? || c.DropInstance? {
        KeysApart(prefix, d, c.instance);
      } else if c.PutRecord? || c.DropRecord? {
        KeyRecordInjective(prefix, d, c.domain);
      }
    }
  }

  lemma RunMembers(prefix: string, s: Store, t: Tables, c: TableCmd, i: int64)
    requires Simulates(prefix, s, t)
    ensures var s', key := Run(s, Address(prefix, c)), KeyInstance(prefix, i);
            (key in s' ==> s'[key].Members?) && SMembers(s', key) == MembersOf(RunTable(t, c), i)
  {
    hide Run, KeyDomains, KeyRecord, KeyInstance, HGetAll, SMembers;
    var cmd := Address(prefix, c);
    KeysApart(prefix, "", i);
    if KeyInstance(prefix, i) != cmd.key {
      RunElsewhere(s, cmd, KeyInstance(prefix, i));
    } else {
      RunTyped(s, cmd);
      if c.AddMember? || c.RemoveMember? || c.DropInstance? {
        KeyInstanceInjective(prefix, i, c.instance);
      } else if c.PutRecord? || c.DropRecord? {
        KeysApart(prefix, c.domain, i);
      }
    }
  }

  lemma RunDomains(prefix: string, s: Store, t: Tables, c: TableCmd)
    requires Simulates(prefix, s, t)
    ensures var s', key := Run(s, Address(prefix, c)), KeyDomains(prefix);
            (key in s' ==> s'[key].Members?) && SMembers(s', key) == RunTable(t, c).domains
  {
    hide Run, KeyDomains, KeyRecord, KeyInstance, HGetAll, SMembers;
    DomainKeyApart(prefix, c);
    if c.AddDomain? || c.RemoveDomain? {
      RunTyped(s, Address(prefix, c));
    } else {
      RunElsewhere(s, Address(prefix, c), KeyDomains(prefix));
    }
  }

  /** One command on a prefixed key does to the store what the table command does to the tables. */
  lemma RunSimulates(prefix: string, s: Store, t: Tables, c: TableCmd)
    requires Simulates(prefix, s, t)
    ensures Simulates(prefix, Run(s, Address(prefix, c)), RunTable(t, c))
  {
    hide Run, RunTable, Address, KeyDomains, KeyRecord, KeyInstance, HGetAll, SMembers, FieldsOf, MembersOf;
    var s', t' := Run(s, Address(prefix, c)), RunTable(t, c);
    RunDomains(prefix, s, t, c);
    forall d: string
      ensures KeyRecord(prefix, d) in s' ==> s'[KeyRecord(prefix, d)].Hash?
      ensures HGetAll(s', KeyRecord(prefix, d)) == FieldsOf(t', d)
    {
      RunRecord(prefix, s, t, c, d);
    }
    forall i: int64
      ensures KeyInstance(prefix, i) in s' ==> s'[KeyInstance(prefix, i)].Members?
      ensures SMembers(s', KeyInstance(prefix, i)) == MembersOf(t', i)
    {
      RunMembers(prefix, s, t, c, i);
    }
  }

  /** Every batch on prefixed keys simulates the batch on the tables. */
  lemma {:induction false} ExecSimulates(prefix: string, s: Store, t: Tables, cs: seq<TableCmd>)
    requires Simulates(prefix, s, t)
    ensures Simulates(prefix, Exec(s, AddressAll(prefix, cs)), ExecTable(t, cs))
  {
    if cs != [] {
      var init, last := cs[..|cs| - 1], cs[|cs| - 1];
      ExecSimulates(prefix, s, t, init);
      RunSimulates(prefix, Exec(s, AddressAll(prefix, init)), ExecTable(t, init), last);
      var cmds := AddressAll(prefix, cs);
      assert cmds[..|cmds| - 1] == AddressAll(prefix, init);
    }
  }

  lemma EmptySimulates(prefix: string)
    ensures Simulates(prefix, map[], NO_TABLES)
  {
  }

  lemma ExecTableSnoc(t: Tables, cs: seq<TableCmd>, c: TableCmd)
    ensures ExecTable(t, cs + [c]) == RunTable(ExecTable(t, cs), c)
  {
  }
}
