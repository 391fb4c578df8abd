/** core/record.go: the contract of RecordRepository as one abstract map, shared by both backends. */
module Repository {
  import opened Text
  import opened Decimal
  import opened Records

  /** The records by domain. */
  type Contents = map<string, Record>

  datatype Op = Create(record: Option<Record>) | Delete(domain: string) | DeleteByInstance(instance: int64)

  datatype Outcome = Done | ErrRecordNil | ErrDomainRequired | ErrNotFound | ErrIO

  /** The one point where the backends differ: whether Create honours a CreatedAt of its argument. */
  datatype Policy = KeepIncoming | IgnoreIncoming

  function CreatedAt(policy: Policy, m: Contents, rec: Record, now: int): int {
    if policy == KeepIncoming && rec.createdAt != 0 then rec.createdAt
    else if rec.domain in m then m[rec.domain].createdAt
    else now
  }

  function Stamp(policy: Policy, m: Contents, rec: Record, now: int): Record {
    rec.(createdAt := CreatedAt(policy, m, rec, now), updatedAt := now, id := 0)
  }

  function RemoveInstance(m: Contents, instance: int64): Contents {
    map d | d in m && m[d].instance != instance :: m[d]
  }

  /** One operation: the new contents and the outcome. */
  function Apply(policy: Policy, m: Contents, op: Op, now: int): (Contents, Outcome) {
    match op
    case Create(None) => (m, ErrRecordNil)
    case Create(Some(rec)) =>
      if TrimSpace(rec.domain) == "" then (m, ErrDomainRequired)
      else (m[rec.domain := Stamp(policy, m, rec, now)], Done)
    case Delete(d) => if d in m then (m - {d}, Done) else (m, ErrNotFound)
    case DeleteByInstance(i) => (RemoveInstance(m, i), Done)
  }

  /** How a repository call can go wrong: the connection breaks before the store has changed, or after
      it has changed and before the answer arrives. */
  datatype Fault = NoFault | FailsBefore | FailsAfter

  /** What a read of one record gives. */
  datatype Answer<+T> = Got(value: T) | Missing | Failed

  /** Refused before the store is reached. */
  predicate IsRefused(op: Op) {
    op.Create? && (op.record.None? || TrimSpace(op.record.value.domain) == "")
  }

  /** One call with its fault, if any. */
  function Attempt(policy: Policy, m: Contents, op: Op, now: int, fault: Fault): (Contents, Outcome) {
    if fault == NoFault || IsRefused(op) then Apply(policy, m, op, now)
    else (if fault == FailsAfter then Apply(policy, m, op, now).0 else m, ErrIO)
  }

  /** An upsert replaces the record of its domain and no other.  The creation time of the argument counts only
      where it is honoured; else a stored one stays, and a new domain is created now. */
  lemma UpsertMeaning(policy: Policy, m: Contents, rec: Record, now: int)
    requires TrimSpace(rec.domain) != ""
    ensures var (m', outcome) := Apply(policy, m, Create(Some(rec)), now);
            var d := rec.domain;
            && outcome == Done && m'.Keys == m.Keys + {d} && (forall e | e in m && e != d :: m'[e] == m[e])
            && m'[d].domain == d && m'[d].instance == rec.instance && m'[d].targets == rec.targets
            && m'[d].updatedAt == now && m'[d].id == 0
            && m'[d].createdAt
               == if policy == KeepIncoming && rec.createdAt != 0 then rec.createdAt
                  else if d in m then m[d].createdAt
                  else now
  {
    hide TrimSpace;
  }

  /** A nil record and a blank domain are refused; the deletions take what they name and nothing else. */
  lemma OtherOperationsMeaning(policy: Policy, m: Contents, rec: Record, d: string, i: int64, now: int)
    ensures Apply(policy, m, Create(None), now) == (m, ErrRecordNil)
    ensures TrimSpace(rec.domain) == "" ==> Apply(policy, m, Create(Some(rec)), now) == (m, ErrDomainRequired)
    ensures d !in m ==> Apply(policy, m, Delete(d), now) == (m, ErrNotFound)
    ensures d in m ==>
              var (m', outcome) := Apply(policy, m, Delete(d), now);
              outcome == Done && m'.Keys == m.Keys - {d} && forall e | e in m && e != d :: m'[e] == m[e]
    ensures var (m', outcome) := Apply(policy, m, DeleteByInstance(i), now);
            && outcome == Done && (forall e | e in m && m[e].instance != i :: e in m' && m'[e] == m[e])
            && (forall e | e in m' :: e in m && m[e].instance != i)
  {
    hide TrimSpace;
  }

  /** A call that fails before its effect changes nothing, one that fails after it changes all; either way
      the caller gets an error.  What is refused never reaches the store. */
  lemma FaultMeaning(policy: Policy, m: Contents, op: Op, now: int)
    ensures Attempt(policy, m, op, now, NoFault) == Apply(policy, m, op, now)
    ensures !(op.Create? && (op.record.None? || TrimSpace(op.record.value.domain) == "")) ==>
              && Attempt(policy, m, op, now, FailsBefore) == (m, ErrIO)
              && Attempt(policy, m, op, now, FailsAfter) == (Apply(policy, m, op, now).0, ErrIO)
    ensures forall fault | op.Create? && op.record.Some? && TrimSpace(op.record.value.domain) == "" ::
              Attempt(policy, m, op, now, fault) == (m, ErrDomainRequired)
    ensures forall fault | op == Create(None) :: Attempt(policy, m, op, now, fault) == (m, ErrRecordNil)
  {
    hide TrimSpace, Stamp;
  }

  /** Stored records carry their key, a creation time and no row id. */
  ghost predicate WellKept(m: Contents) {
    forall d | d in m :: m[d].domain == d && m[d].createdAt != 0 && m[d].id == 0
  }

  lemma ApplyKeeps(policy: Policy, m: Contents, op: Op, now: int)
    requires WellKept(m) && now != 0
    ensures WellKept(Apply(policy, m, op, now).0)
    ensures forall fault :: WellKept(Attempt(policy, m, op, now, fault).0)
  {
    hide TrimSpace;
  }

  /** rs lists the contents: every record once, in any order. */
  ghost predicate Lists(m: Contents, rs: seq<Record>) {
    && (forall i, j | 0 <= i < j < |rs| :: rs[i].domain != rs[j].domain)
    && (forall i | 0 <= i < |rs| :: rs[i].domain in m && m[rs[i].domain] == rs[i])
    && (forall d | d in m :: m[d] in rs)
  }

  /** A repository object. */
  class MapRepository {
    var contents: Contents
    const policy: Policy

    constructor (policy: Policy)
      ensures contents == map[] && this.policy == policy
    {
      this.policy := policy;
      contents := map[];
    }

    method Perform(op: Op, now: int, fault: Fault) returns (outcome: Outcome)
      modifies this
      ensures (contents, outcome) == Attempt(policy, old(contents), op, now, fault)
    {
      if fault == FailsBefore && !IsRefused(op) {
        return ErrIO;
      }
      var next := Apply(policy, contents, op, now);
      contents := next.0;
      return if fault == FailsAfter && !IsRefused(op) then ErrIO else next.1;
    }

    method Find(fault: bool) returns (found: Option<seq<Record>>)
      requires WellKept(contents)
      ensures found.None? == fault
      ensures found.Some? ==> Lists(contents, found.value)
    {
      if fault {
        return None;
      }
      var rs: seq<Record> := [];
      var left := contents.Keys;
      while left != {}
        invariant left <= contents.Keys
        invariant forall i, j | 0 <= i < j < |rs| :: rs[i].domain != rs[j].domain
        invariant forall i | 0 <= i < |rs| :: rs[i].domain in contents && contents[rs[i].domain] == rs[i]
        invariant forall i | 0 <= i < |rs| :: rs[i].domain !in left
        invariant forall d | d in contents :: d in left || contents[d] in rs
        decreases left
      {
        var d :| d in left;
        rs := rs + [contents[d]];
        left := left - {d};
      }
      return Some(rs);
    }
  }
}
